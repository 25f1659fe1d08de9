/** In-memory B-tree nodes over their page bytes (db/src/libchidb/btree.c:60-87, 221-305,
    325-491, 613-631). */
module Nodes {
  import opened Bytes
  import opened Common
  import opened Paging
  import opened Layout

  /** Two adjacent writes are one. */
  lemma SpliceJoin(s: seq<byte>, at: nat, a: seq<byte>, b: seq<byte>)
    requires at + |a| + |b| <= |s|
    ensures Splice(Splice(s, at + |a|, b), at, a) == Splice(s, at, a + b)
  {
  }

  method LayTableInternal(buf: array<byte>, end: nat, key: u32, child: u32)
    requires 8 <= end <= buf.Length
    modifies buf
    ensures buf[..] == Splice(old(buf[..]), end - 8, Enc4(child) + EncVar(key))
  {
    ghost var s := buf[..];
    PutVar(buf, end - 4, key);
    Put4(buf, end - 8, child);
    SpliceJoin(s, end - 8, Enc4(child), EncVar(key));
  }

  method LayTableLeaf(buf: array<byte>, end: nat, key: u32, data: seq<byte>)
    requires |data| + 8 <= end <= buf.Length && |data| < VARINT_LIMIT
    modifies buf
    ensures buf[..] == Splice(old(buf[..]), end - |data| - 8, EncVar(|data|) + EncVar(key) + data)
  {
    ghost var s := buf[..];
    Blit(buf, end - |data|, data);
    PutVar(buf, end - |data| - 4, key);
    SpliceJoin(s, end - |data| - 4, EncVar(key), data);
    PutVar(buf, end - |data| - 8, |data|);
    SpliceJoin(s, end - |data| - 8, EncVar(|data|), EncVar(key) + data);
    assert EncVar(|data|) + (EncVar(key) + data) == EncVar(|data|) + EncVar(key) + data;
  }

  method LayIndexLeaf(buf: array<byte>, end: nat, key: u32, keyPk: u32)
    requires 12 <= end <= buf.Length
    modifies buf
    ensures buf[..] == Splice(old(buf[..]), end - 12, INDEX_HEADER + Enc4(key) + Enc4(keyPk))
  {
    ghost var s := buf[..];
    Put4(buf, end - 4, keyPk);
    Put4(buf, end - 8, key);
    SpliceJoin(s, end - 8, Enc4(key), Enc4(keyPk));
    ghost var s1 := buf[..];
    buf[end - 9] := 0x04;
    buf[end - 10] := 0x04;
    buf[end - 11] := 0x03;
    buf[end - 12] := 0x0B;
    assert buf[..] == Splice(s1, end - 12, INDEX_HEADER);
    SpliceJoin(s, end - 12, INDEX_HEADER, Enc4(key) + Enc4(keyPk));
    assert INDEX_HEADER + (Enc4(key) + Enc4(keyPk)) == INDEX_HEADER + Enc4(key) + Enc4(keyPk);
  }

  method LayIndexInternal(buf: array<byte>, end: nat, key: u32, keyPk: u32, child: u32)
    requires 16 <= end <= buf.Length
    modifies buf
    ensures buf[..] == Splice(old(buf[..]), end - 16, Enc4(child) + INDEX_HEADER + Enc4(key) + Enc4(keyPk))
  {
    ghost var s := buf[..];
    LayIndexLeaf(buf, end, key, keyPk);
    Put4(buf, end - 16, child);
    ghost var rest := INDEX_HEADER + Enc4(key) + Enc4(keyPk);
    SpliceJoin(s, end - 16, Enc4(child), rest);
    assert Enc4(child) + rest == Enc4(child) + INDEX_HEADER + Enc4(key) + Enc4(keyPk);
  }

  /** The cell written just below position end. */
  method LayCell(buf: array<byte>, end: nat, cell: Cell)
    requires cell.Sized() && cell.Size() <= end <= buf.Length
    modifies buf
    ensures buf[..] == Splice(old(buf[..]), end - cell.Size(), Encode(cell))
  {
    match cell
    case TableInternalCell(key, child) => LayTableInternal(buf, end, key, child);
    case IndexInternalCell(key, keyPk, child) => LayIndexInternal(buf, end, key, keyPk, child);
    case TableLeafCell(key, data) => LayTableLeaf(buf, end, key, data);
    case IndexLeafCell(key, keyPk) => LayIndexLeaf(buf, end, key, keyPk);
  }

  /** The entries of the offset array between at and free move up by one and top goes to at. */
  method LayOffset(buf: array<byte>, at: nat, free: nat, top: u16)
    requires at <= free && free + 2 <= buf.Length
    modifies buf
    ensures buf[..] == Splice(Splice(old(buf[..]), at + 2, old(buf[at..free])), at, Enc2(top))
  {
    Blit(buf, at + 2, buf[at..free]);
    Put2(buf, at, top);
  }

  /** The write of the cell, the move of the later offsets and the write of the new one. */
  lemma ThreeWrites(s: seq<byte>, free: nat, area: nat, at: nat, cell: seq<byte>)
    requires at <= free && free + 2 + |cell| <= area <= |s| < 0x1_0000
    ensures var laid := Splice(s, area - |cell|, cell);
            Splice(Splice(laid, at + 2, laid[at..free]), at, Enc2(area - |cell|)) == LayDown(s, free, area, at, cell)
  {
  }

  method LayCellAndOffset(buf: array<byte>, at: nat, free: nat, area: nat, cell: Cell)
    requires cell.Sized() && at <= free && free + 2 + cell.Size() <= area <= buf.Length < 0x1_0000
    modifies buf
    ensures buf[..] == LayDown(old(buf[..]), free, area, at, Encode(cell))
  {
    ghost var bytes := Encode(cell);
    LayCell(buf, area, cell);
    LayOffset(buf, at, free, area - cell.Size());
    ThreeWrites(old(buf[..]), free, area, at, bytes);
  }

  lemma AddCellLaw(r: Raw, k: nat, c: Cell)
    requires r.Valid() && k <= r.nCells && c.Type() == r.typ && c.Sized()
    requires r.freeOffset + 2 + c.Size() <= r.cellsOffset
    ensures AddCell(r, k, c).Valid() && AddCell(r, k, c).Cells() == InsertedAt(r.Cells(), k, c.Stored())
  {
    AddCellBytes(r, k, c);
    AddCellInserts(r, k, c, AddCell(r, k, c));
  }

  class BTreeNode {
    const page: MemPage
    var typ: PageType
    var freeOffset: nat
    var nCells: nat
    var cellsOffset: nat
    var rightPage: u32
    var cellArray: nat  // index in page.data of the cell-offset array

    ghost function Value(): Raw
      reads this, page.data
    {
      Raw(page.npage, typ, freeOffset, nCells, cellsOffset, rightPage, page.data[..])
    }

    ghost predicate Valid()
      reads this, page.data
    {
      Value() in VALID && cellArray == Value().Base()
    }

    /** chidb_Btree_createNode: an empty node on a zeroed page. */
    constructor Create(npage: nat, pageSize: u16, t: PageType)
      requires MIN_PAGE <= pageSize && t.Known()
      ensures fresh(page) && fresh(page.data)
      ensures Valid() && Value() == EmptyNode(npage, t, Zeros(pageSize)) && Value().Cells() == []
      ensures freeOffset == (if npage == 1 then 100 else 0) + (if t == TableLeaf || t == IndexLeaf then 8 else 12)
      ensures nCells == 0 && cellsOffset == pageSize
    {
      page := new MemPage(npage, pageSize);
      typ := t;
      freeOffset := HeaderAt(npage) + if t.TableLeaf? || t.IndexLeaf? then 8 else 12;
      nCells := 0;
      cellsOffset := pageSize;
      rightPage := 0;  // the page is zeroed
      cellArray := HeaderAt(npage) + if t.Internal() then 12 else 8;
      new;
      assert Value() == EmptyNode(npage, t, Zeros(pageSize));
    }

    /** chidb_Btree_getNodeByPage: the fields as the header of the page gives them. */
    constructor FromPage(page: MemPage)
      requires page.data.Length >= HeaderAt(page.npage) + 12
      ensures this.page == page
      ensures Value() == Load(page.npage, page.data[..]) && cellArray == Value().Base()
      ensures HeaderIn(page.data[..], page.npage, Named(typ), freeOffset, nCells, cellsOffset)
    {
      LoadPlaces(page.npage, page.data[..]);
      this.page := page;
      var h := HeaderAt(page.npage);
      var t := TypeOfByte(page.data[h]);
      typ := t;
      freeOffset := Dec2(page.data[..], h + 1);
      nCells := Dec2(page.data[..], h + 3);
      cellsOffset := Dec2(page.data[..], h + 5);
      rightPage := if t.Internal() then Dec4(page.data[..], h + 8) else 0;
      cellArray := if t.Internal() then h + 12 else h + 8;
    }

    /** The code accepts ncell == n_cells as well and then reads whatever follows the array. */
    method GetCell(ncell: nat) returns (status: Status, cell: Cell)
      requires Valid() && ncell != nCells
      ensures status == if ncell < nCells then Ok else CellNo
      ensures status.Ok? ==> cell == Value().Cells()[ncell]
    {
      if ncell > nCells {
        return CellNo, IndexLeafCell(0, 0);
      }
      assert Value().CellOk(ncell);
      var cellOffset := Dec2(page.data[..], cellArray + ncell * 2);
      cell := Decode(page.data[cellOffset..], typ);
      status := Ok;
    }

    method PutCell(ncell: nat, cell: Cell)
      requires Value().Shaped() && cellArray == Value().Base()
      requires cell.Type() == typ && cell.Sized() && ncell <= nCells
      requires freeOffset + 2 + cell.Size() <= cellsOffset
      modifies this, page.data
      ensures cellArray == old(cellArray)
      ensures Value() == AddCell(old(Value()), ncell, cell)
    {
      LayCellAndOffset(page.data, cellArray + 2 * ncell, freeOffset, cellsOffset, cell);
      cellsOffset := cellsOffset - cell.Size();
      nCells := nCells + 1;
      freeOffset := freeOffset + 2;
    }

    /** chidb_Btree_insertCell.  The caller has checked that the cell fits; the code also lets
        ncell == n_cells + 1 through, where the array length underflows. */
    method InsertCell(ncell: nat, cell: Cell) returns (status: Status)
      requires Valid() && cell.Type() == typ && cell.Sized() && ncell != nCells + 1
      requires freeOffset + 2 + cell.Size() <= cellsOffset
      modifies this, page.data
      ensures Valid()
      ensures status == if ncell <= old(nCells) then Ok else CellNo
      ensures status.CellNo? ==> Value() == old(Value())
      ensures status.Ok? ==> Value() == AddCell(old(Value()), ncell, cell)
      ensures status.Ok? ==> Value().Cells() == InsertedAt(old(Value().Cells()), ncell, cell.Stored())
    {
      if ncell > nCells + 1 {
        return CellNo;
      }
      ghost var r := Value();
      PutCell(ncell, cell);
      AddCellLaw(r, ncell, cell);
      status := Ok;
    }

    /** chidb_Btree_syncNode */
    method Sync()
      requires Valid()
      modifies page.data
      ensures page.data[..] == Synced(old(Value()))
      ensures HeaderIn(page.data[..], page.npage, Named(typ), freeOffset, nCells, cellsOffset)
    {
      HeaderPlaces(Value());
      var h := HeaderAt(page.npage);
      page.data[h] := TypeByte(typ);
      assert page.data[..] == Splice(old(page.data[..]), h, [TypeByte(typ)]);
      Put2(page.data, h + 1, freeOffset);
      Put2(page.data, h + 3, nCells);
      Put2(page.data, h + 5, cellsOffset);
      if typ.Internal() {
        Put4(page.data, h + 8, rightPage);
      }
    }

    /** is_insertable: an index leaf cell is charged sixteen bytes, an internal index cell none. */
    method IsInsertable(cell: Cell) returns (fits: bool)
      requires Valid()
      ensures fits == (cellsOffset - freeOffset >= Need(cell))
    {
      var available := cellsOffset - freeOffset;
      var needed := 2;
      match cell {
        case TableLeafCell(_, data) => needed := needed + 8 + |data|;
        case TableInternalCell(_, _) => needed := needed + 8;
        case IndexLeafCell(_, _) => needed := needed + 16;
        case IndexInternalCell(_, _, _) =>
      }
      fits := available >= needed;
    }
  }

  function Need(cell: Cell): nat {
    match cell
    case TableLeafCell(_, data) => 10 + |data|
    case TableInternalCell(_, _) => 10
    case IndexLeafCell(_, _) => 18
    case IndexInternalCell(_, _, _) => 2
  }

  /** What is_insertable demands is enough, for every cell but an internal index cell: what a table
      cell takes, 4 bytes more than an index leaf cell takes, and nothing for an internal index cell
      but its offset. */
  lemma NeedIsEnough(cell: Cell)
    ensures 2 + cell.Size() <= Need(cell) <==> !cell.IndexInternalCell?
    ensures cell.TableLeafCell? || cell.TableInternalCell? ==> Need(cell) == 2 + cell.Size()
    ensures cell.IndexLeafCell? ==> Need(cell) == 4 + 2 + cell.Size()
    ensures cell.IndexInternalCell? ==> Need(cell) == 2
  {
  }

  method GetNodeByPage(pager: Pager, npage: nat) returns (status: Status, node: BTreeNode?)
    requires pager.Valid() && pager.pageSize >= MIN_PAGE
    ensures status == if 1 <= npage <= pager.nPages then Ok else PageNo
    ensures status.Ok? ==> node != null && fresh(node) && fresh(node.page) && fresh(node.page.data)
    ensures status.Ok? ==> node.Value() == Load(npage, pager.PageBytes(npage)) && node.cellArray == node.Value().Base()
  {
    var page: MemPage?;
    status, page := pager.ReadPage(npage);
    if status != Ok {
      return status, null;
    }
    node := new BTreeNode.FromPage(page);
  }

  /** Writing a node makes its page load as that node and changes no other page. */
  method WriteNode(pager: Pager, node: BTreeNode) returns (status: Status)
    requires pager.Valid() && node.Valid() && node.page.npage >= 1 && node.page.data.Length == pager.pageSize
    modifies pager`file, node.page.data
    ensures pager.Valid()
    ensures status == if node.page.npage <= pager.nPages then Ok else PageNo
    ensures status.Ok? ==> pager.Contents() == old(pager.Contents())[node.page.npage := Synced(old(node.Value()))]
    ensures status.PageNo? ==> pager.file == old(pager.file)
  {
    node.Sync();
    status := pager.WritePage(node.page);
  }

  /** chidb_Btree_initEmptyNode */
  method InitEmptyNode(pager: Pager, npage: nat, t: PageType) returns (status: Status)
    requires pager.Valid() && pager.pageSize >= MIN_PAGE && npage >= 1 && t.Known()
    modifies pager`file
    ensures pager.Valid()
    ensures status == if npage <= pager.nPages then Ok else PageNo
    ensures status.Ok? ==>
      pager.Contents() == old(pager.Contents())[npage := Synced(EmptyNode(npage, t, Zeros(pager.pageSize)))]
    ensures status.Ok? ==>
      HeaderIn(pager.Contents()[npage], npage, Named(t),
               (if npage == 1 then 100 else 0) + (if t == TableLeaf || t == IndexLeaf then 8 else 12),
               0, pager.pageSize)
  {
    EmptyPlaces(npage, t, pager.pageSize);
    assert Zeros(pager.pageSize) == seq(pager.pageSize, _ => 0);
    var node := new BTreeNode.Create(npage, pager.pageSize, t);
    status := WriteNode(pager, node);
  }

  /** chidb_Btree_newNode */
  method NewNode(pager: Pager, t: PageType) returns (status: Status, npage: nat)
    requires pager.Valid() && pager.pageSize >= MIN_PAGE && t.Known()
    requires pager.nPages * pager.pageSize < FILE_SPAN
    modifies pager
    ensures pager.Valid() && status == Ok
    ensures npage == pager.nPages == old(pager.nPages) + 1
    ensures pager.Contents() == old(pager.Contents())[npage := Synced(EmptyNode(npage, t, Zeros(pager.pageSize)))]
  {
    npage := pager.AllocatePage();
    status := InitEmptyNode(pager, npage, t);
  }
}
