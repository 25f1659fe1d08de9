/** One file read and written a page at a time (db/src/libchidb/pager.c).  The file is a byte
    sequence that a write past its end extends with zeros. */
module Paging {
  import opened Bytes

  datatype Status = Ok | PageNo | Duplicate | NotFound | CellNo

  const FILE_SPAN := 0x1_0000_0000  // page offsets are computed in 32 bits

  type Pages = map<nat, seq<byte>>

  function Zeros(n: nat): (z: seq<byte>)
    ensures |z| == n
    ensures forall i :: 0 <= i < n ==> z[i] == 0
  {
    seq(n, i => 0)
  }

  /** The size bytes at position start; what lies past the end of the file reads as zero. */
  function ReadAt(file: seq<byte>, start: nat, size: nat): (b: seq<byte>)
    ensures |b| == size
    ensures forall i :: 0 <= i < size ==> b[i] == if start + i < |file| then file[start + i] else 0
  {
    seq(size, i requires 0 <= i < size => if start + i < |file| then file[start + i] else 0)
  }

  function WriteAt(file: seq<byte>, start: nat, b: seq<byte>): seq<byte> {
    var padded := if |file| < start + |b| then file + Zeros(start + |b| - |file|) else file;
    Splice(padded, start, b)
  }

  lemma ReadBack(file: seq<byte>, start: nat, b: seq<byte>)
    ensures ReadAt(WriteAt(file, start, b), start, |b|) == b
  {
  }

  lemma ReadElsewhere(file: seq<byte>, start: nat, b: seq<byte>, other: nat, size: nat)
    requires other + size <= start || start + |b| <= other
    ensures ReadAt(WriteAt(file, start, b), other, size) == ReadAt(file, other, size)
  {
  }

  /** (npage - 1) * page_size, an unsigned 32-bit product. */
  function Start(p: nat, size: u16): nat
    requires p >= 1
  {
    (p - 1) * size % FILE_SPAN
  }

  predicate Apart(p: nat, q: nat, size: u16)
    requires p >= 1 && q >= 1
  {
    Start(p, size) + size <= Start(q, size) || Start(q, size) + size <= Start(p, size)
  }

  /** Byte x of the file belongs to page p. */
  predicate InPage(p: nat, size: u16, x: nat)
    requires p >= 1
  {
    (p - 1) * size % 0x1_0000_0000 <= x < (p - 1) * size % 0x1_0000_0000 + size
  }

  /** Apart means that no byte of the file belongs to both pages. */
  lemma ApartMeans(p: nat, q: nat, size: u16)
    requires p >= 1 && q >= 1 && size >= 1
    ensures Apart(p, q, size) <==> forall x: nat :: !(InPage(p, size, x) && InPage(q, size, x))
  {
    if !Apart(p, q, size) {
      var x := if Start(p, size) <= Start(q, size) then Start(q, size) else Start(p, size);
      assert InPage(p, size, x) && InPage(q, size, x);
    }
  }

  lemma StartExact(p: nat, n: nat, size: u16)
    requires 1 <= p <= n && (n - 1) * size < FILE_SPAN
    ensures Start(p, size) == (p - 1) * size
  {
    Products(p - 1, n - 1, size);
    SmallMod((p - 1) * size);
  }

  lemma SmallMod(x: nat)
    requires x < FILE_SPAN
    ensures x % FILE_SPAN == x
  {
  }

  lemma Products(a: nat, b: nat, size: nat)
    requires a <= b
    ensures a * size <= b * size
    ensures a < b ==> a * size + size <= b * size
  {
    assert b * size == a * size + (b - a) * size;
    if a < b {
      assert (b - a) * size == size + (b - a - 1) * size;
    }
  }

  lemma StartApart(p: nat, q: nat, n: nat, size: u16)
    requires 1 <= p < q <= n && (n - 1) * size < FILE_SPAN
    ensures Start(p, size) + size <= Start(q, size)
  {
    StartExact(p, n, size);
    StartExact(q, n, size);
    Products(p - 1, q - 1, size);
  }

  /** The pages 1..n lie at pairwise disjoint places if and only if the last one starts below
      2^32; past that the 32-bit offset wraps onto page 1. */
  lemma {:induction false} PagesApartIff(n: nat, size: u16)
    requires n >= 1 && size >= 1
    ensures (forall p, q :: 1 <= p < q <= n ==> Apart(p, q, size)) <==> (n - 1) * size < 0x1_0000_0000
  {
    if (n - 1) * size < FILE_SPAN {
      forall p, q | 1 <= p < q <= n
        ensures Apart(p, q, size)
      {
        StartApart(p, q, n, size);
      }
    } else {
      var k := FirstWrapped(n, size);
      assert (k - 1) * size - FILE_SPAN == Start(k, size);
      assert Start(1, size) == 0;
      assert !Apart(1, k, size);
    }
  }

  lemma {:induction false} FirstWrapped(n: nat, size: u16) returns (k: nat)
    requires n >= 1 && size >= 1 && (n - 1) * size >= FILE_SPAN
    ensures 1 < k <= n && FILE_SPAN <= (k - 1) * size < FILE_SPAN + size
    decreases n
  {
    if (n - 2) * size < FILE_SPAN {
      k := n;
      assert (n - 1) * size == (n - 2) * size + size;
    } else {
      k := FirstWrapped(n - 1, size);
    }
  }

  class MemPage {
    const npage: nat
    const data: array<byte>

    constructor (npage: nat, size: u16)
      ensures this.npage == npage
      ensures fresh(data) && data[..] == Zeros(size)
    {
      this.npage := npage;
      data := new byte[size](i => 0);
      new;
      assert data[..] == Zeros(size);
    }
  }

  class Pager {
    var file: seq<byte>
    var nPages: nat
    const pageSize: u16

    /** Every page number in use has an offset that does not wrap, and nothing is written behind the
        last page. */
    ghost predicate Valid()
      reads this
    {
      && pageSize >= 1 && nPages >= 1 && (nPages - 1) * pageSize < FILE_SPAN
      && |file| <= nPages * pageSize
    }

    /** Bytes of page p as the file holds them. */
    ghost function PageBytes(p: nat): (b: seq<byte>)
      requires p >= 1
      reads this
      ensures |b| == pageSize
    {
      ReadAt(file, Start(p, pageSize), pageSize)
    }

    ghost function Contents(): (m: Pages)
      reads this
    {
      map p: nat | 1 <= p <= nPages :: PageBytes(p)
    }

    constructor (pageSize: u16)
      requires pageSize >= 1
      ensures Valid() && nPages == 1 && this.pageSize == pageSize
      ensures Contents() == map[1 := Zeros(pageSize)]
    {
      this.pageSize := pageSize;
      nPages := 1;
      file := [];
      new;
      assert PageBytes(1) == Zeros(pageSize);
    }

    /** A new last page.  Nothing is written, so it reads as zeros until it is. */
    method AllocatePage() returns (npage: nat)
      requires Valid()
      requires nPages * pageSize < FILE_SPAN
      modifies this`nPages
      ensures Valid()
      ensures npage == nPages == old(nPages) + 1
      ensures Contents() == old(Contents())[npage := Zeros(pageSize)]
    {
      BeyondReadsZeros(file, nPages, pageSize);
      nPages := nPages + 1;
      npage := nPages;
    }

    method ReadPage(npage: nat) returns (status: Status, page: MemPage?)
      requires Valid()
      ensures status == if 1 <= npage <= nPages then Ok else PageNo
      ensures status.Ok? ==> page != null && fresh(page) && fresh(page.data)
      ensures status.Ok? ==> page.npage == npage && page.data[..] == PageBytes(npage)
    {
      if npage > nPages || npage <= 0 {
        return PageNo, null;
      }
      page := new MemPage(npage, pageSize);
      var start := Start(npage, pageSize);
      var available := if start + pageSize <= |file| then pageSize else if start <= |file| then |file| - start else 0;
      if available > 0 {
        Blit(page.data, 0, file[start..start + available]);
      }
      assert page.data[..] == PageBytes(npage);
      status := Ok;
    }

    method WritePage(page: MemPage) returns (status: Status)
      requires Valid() && page.npage >= 1 && page.data.Length == pageSize
      modifies this`file
      ensures Valid()
      ensures status == if page.npage <= nPages then Ok else PageNo
      ensures status.Ok? ==> PageBytes(page.npage) == page.data[..]
      ensures status.Ok? ==> Contents() == old(Contents())[page.npage := page.data[..]]
      ensures status.PageNo? ==> file == old(file)
    {
      if page.npage > nPages {
        return PageNo;
      }
      file := WriteAt(file, Start(page.npage, pageSize), page.data[..]);
      status := Ok;
      WriteIsLocal(old(file), page.npage, nPages, pageSize, page.data[..]);
      WriteStays(old(file), page.npage, nPages, pageSize, page.data[..]);
      assert Contents() == old(Contents())[page.npage := page.data[..]];
    }
  }

  /** Writing page p replaces page p and leaves every other page as it was. */
  lemma WriteIsLocal(file: seq<byte>, p: nat, n: nat, size: u16, b: seq<byte>)
    requires 1 <= p <= n && (n - 1) * size < FILE_SPAN && |b| == size
    ensures ReadAt(WriteAt(file, Start(p, size), b), Start(p, size), size) == b
    ensures forall q :: 1 <= q <= n && q != p ==>
              ReadAt(WriteAt(file, Start(p, size), b), Start(q, size), size) == ReadAt(file, Start(q, size), size)
  {
    ReadBack(file, Start(p, size), b);
    forall q | 1 <= q <= n && q != p
      ensures ReadAt(WriteAt(file, Start(p, size), b), Start(q, size), size) == ReadAt(file, Start(q, size), size)
    {
      if p < q { StartApart(p, q, n, size); } else { StartApart(q, p, n, size); }
      ReadElsewhere(file, Start(p, size), b, Start(q, size), size);
    }
  }

  /** The page behind the last one reads as zeros. */
  lemma BeyondReadsZeros(file: seq<byte>, n: nat, size: u16)
    requires size >= 1 && n * size < FILE_SPAN && |file| <= n * size
    ensures ReadAt(file, Start(n + 1, size), size) == Zeros(size)
    ensures |file| <= (n + 1) * size
  {
    StartExact(n + 1, n + 1, size);
    Products(n, n + 1, size);
  }

  /** A write to a page in use puts nothing behind the last page. */
  lemma WriteStays(file: seq<byte>, p: nat, n: nat, size: u16, b: seq<byte>)
    requires 1 <= p <= n && (n - 1) * size < FILE_SPAN && |b| == size && |file| <= n * size
    ensures |WriteAt(file, Start(p, size), b)| <= n * size
  {
    StartExact(p, n, size);
    Products(p - 1, n, size);
  }
}
