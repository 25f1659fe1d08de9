/** The byte layout of a B-tree page (db/src/libchidb/btree.h:46-84): a header, an array of
    two-byte cell offsets growing up, and a cell area growing down from the end of the page. */
module Layout {
  import opened Bytes
  import opened Common

  datatype PageType = TableInternal | TableLeaf | IndexInternal | IndexLeaf | Unknown(code: byte)
  {
    predicate Internal() { TableInternal? || IndexInternal? }
    predicate Known() { !Unknown? }
  }

  function TypeByte(t: PageType): byte {
    match t
    case TableInternal => 0x05
    case TableLeaf => 0x0D
    case IndexInternal => 0x02
    case IndexLeaf => 0x0A
    case Unknown(code) => code
  }

  function TypeOfByte(b: byte): (t: PageType)
    ensures TypeByte(t) == b
  {
    if b == 0x05 then TableInternal
    else if b == 0x0D then TableLeaf
    else if b == 0x02 then IndexInternal
    else if b == 0x0A then IndexLeaf
    else Unknown(b)
  }

  datatype Cell =
    | TableInternalCell(key: u32, child: u32)
    | TableLeafCell(key: u32, data: seq<byte>)
    | IndexInternalCell(key: u32, keyPk: u32, child: u32)
    | IndexLeafCell(key: u32, keyPk: u32)
  {
    function Type(): PageType {
      match this
      case TableInternalCell(_, _) => TableInternal
      case TableLeafCell(_, _) => TableLeaf
      case IndexInternalCell(_, _, _) => IndexInternal
      case IndexLeafCell(_, _) => IndexLeaf
    }

    /** Bytes the cell takes in the cell area. */
    function Size(): nat {
      match this
      case TableInternalCell(_, _) => 8
      case TableLeafCell(_, data) => 8 + |data|
      case IndexInternalCell(_, _, _) => 16
      case IndexLeafCell(_, _) => 12
    }

    /** The data size travels as a varint. */
    predicate Sized() { TableLeafCell? ==> |data| < VARINT_LIMIT }

    /** The cell as it reads back: a table key keeps its low 28 bits, an index key all 32. */
    function Stored(): Cell {
      match this
      case TableInternalCell(key, child) => TableInternalCell(key % VARINT_LIMIT, child)
      case TableLeafCell(key, data) => TableLeafCell(key % VARINT_LIMIT, data)
      case _ => this
    }
  }

  const INDEX_HEADER: seq<byte> := [0x0B, 0x03, 0x04, 0x04]

  function Encode(c: Cell): (b: seq<byte>)
    requires c.Sized()
    ensures |b| == c.Size()
  {
    match c
    case TableInternalCell(key, child) => Enc4(child) + EncVar(key)
    case TableLeafCell(key, data) => EncVar(|data|) + EncVar(key) + data
    case IndexInternalCell(key, keyPk, child) => Enc4(child) + INDEX_HEADER + Enc4(key) + Enc4(keyPk)
    case IndexLeafCell(key, keyPk) => INDEX_HEADER + Enc4(key) + Enc4(keyPk)
  }

  /** A whole cell of type t starts at the front of b. */
  predicate Decodable(b: seq<byte>, t: PageType) {
    match t
    case TableInternal => |b| >= 8
    case TableLeaf => |b| >= 8 && |b| >= 8 + DecVar(b, 0)
    case IndexInternal => |b| >= 16
    case IndexLeaf => |b| >= 12
    case Unknown(_) => false
  }

  function Decode(b: seq<byte>, t: PageType): (c: Cell)
    requires Decodable(b, t)
    ensures c.Type() == t && c.Sized() && c.Size() <= |b|
  {
    match t
    case TableInternal => TableInternalCell(DecVar(b, 4), Dec4(b, 0))
    case TableLeaf => TableLeafCell(DecVar(b, 4), b[8..8 + DecVar(b, 0)])
    case IndexInternal => IndexInternalCell(Dec4(b, 8), Dec4(b, 12), Dec4(b, 0))
    case IndexLeaf => IndexLeafCell(Dec4(b, 4), Dec4(b, 8))
  }

  /** What was read is stored as it is. */
  lemma DecodeStored(b: seq<byte>, t: PageType)
    requires Decodable(b, t)
    ensures Decode(b, t).Stored() == Decode(b, t)
  {
    hide DecVar, Dec4;
  }

  lemma DecodeTableInternal(child: seq<byte>, key: seq<byte>, rest: seq<byte>)
    requires |child| == 4 && |key| == 4
    ensures var b := child + key + rest;
            Decode(b, TableInternal) == TableInternalCell(DecVar(key, 0), Dec4(child, 0))
  {
    var b := child + key + rest;
    assert b[0..4] == child && b[4..8] == key;
    DecLocal(b, 0, child);
    DecLocal(b, 4, key);
  }

  lemma DecodeTableLeaf(size: seq<byte>, key: seq<byte>, data: seq<byte>, rest: seq<byte>)
    requires |size| == 4 && |key| == 4 && DecVar(size, 0) == |data|
    ensures var b := size + key + data + rest;
            Decodable(b, TableLeaf) && Decode(b, TableLeaf) == TableLeafCell(DecVar(key, 0), data)
  {
    var b := size + key + data + rest;
    assert b[0..4] == size && b[4..8] == key && b[8..8 + |data|] == data;
    DecLocal(b, 0, size);
    DecLocal(b, 4, key);
  }

  lemma DecodeIndexInternal(child: seq<byte>, key: seq<byte>, pk: seq<byte>, rest: seq<byte>)
    requires |child| == 4 && |key| == 4 && |pk| == 4
    ensures var b := child + INDEX_HEADER + key + pk + rest;
            Decode(b, IndexInternal) == IndexInternalCell(Dec4(key, 0), Dec4(pk, 0), Dec4(child, 0))
  {
    var b := child + INDEX_HEADER + key + pk + rest;
    assert b[0..4] == child && b[8..12] == key && b[12..16] == pk;
    DecLocal(b, 0, child);
    DecLocal(b, 8, key);
    DecLocal(b, 12, pk);
  }

  lemma DecodeIndexLeaf(key: seq<byte>, pk: seq<byte>, rest: seq<byte>)
    requires |key| == 4 && |pk| == 4
    ensures var b := INDEX_HEADER + key + pk + rest;
            Decode(b, IndexLeaf) == IndexLeafCell(Dec4(key, 0), Dec4(pk, 0))
  {
    var b := INDEX_HEADER + key + pk + rest;
    assert b[4..8] == key && b[8..12] == pk;
    DecLocal(b, 4, key);
    DecLocal(b, 8, pk);
  }

  /** Decoding what was encoded gives the stored cell, whatever follows it in the page. */
  lemma DecodeEncode(c: Cell, rest: seq<byte>)
    requires c.Sized()
    ensures Decodable(Encode(c) + rest, c.Type())
    ensures Decode(Encode(c) + rest, c.Type()) == c.Stored()
  {
    match c
    case TableInternalCell(key, child) =>
      DecodeTableInternal(Enc4(child), EncVar(key), rest);
      Dec4Enc4(child);
      DecVarEncVar(key);
    case TableLeafCell(key, data) =>
      DecVarEncVar(|data|);
      DecodeTableLeaf(EncVar(|data|), EncVar(key), data, rest);
      DecVarEncVar(key);
    case IndexInternalCell(key, keyPk, child) =>
      DecodeIndexInternal(Enc4(child), Enc4(key), Enc4(keyPk), rest);
      Dec4Enc4(child);
      Dec4Enc4(key);
      Dec4Enc4(keyPk);
    case IndexLeafCell(key, keyPk) =>
      DecodeIndexLeaf(Enc4(key), Enc4(keyPk), rest);
      Dec4Enc4(key);
      Dec4Enc4(keyPk);
  }

  const MIN_PAGE := 130  // room on page 1 for an internal header and its largest cell

  /** Page 1 begins with the 100-byte file header. */
  function HeaderAt(npage: nat): nat { if npage == 1 then 100 else 0 }

  /** Where the cell-offset array begins. */
  function ArrayAt(npage: nat, t: PageType): nat {
    HeaderAt(npage) + if t.Internal() then 12 else 8
  }

  /** The value of a BTreeNode: its counters and the bytes of its in-memory page. */
  datatype Raw = Raw(npage: nat, typ: PageType, freeOffset: nat, nCells: nat, cellsOffset: nat,
                     rightPage: u32, data: seq<byte>)
  {
    function Base(): nat { ArrayAt(npage, typ) }

    /** The offset array lies between the header and the cell area. */
    predicate Shaped() {
      && typ.Known()
      && MIN_PAGE <= |data| < 0x1_0000
      && freeOffset == Base() + 2 * nCells <= cellsOffset <= |data|
    }

    function Off(i: nat): u16
      requires Shaped() && i < nCells
    {
      Dec2(data, Base() + 2 * i)
    }

    /** Entry i of the offset array points to a whole cell inside the cell area. */
    predicate CellOk(i: nat)
      requires Shaped() && i < nCells
    {
      cellsOffset <= Off(i) <= |data| && Decodable(data[Off(i)..], typ)
    }

    function Cell(i: nat): Cell
      requires Shaped() && i < nCells && CellOk(i)
    {
      Decode(data[Off(i)..], typ)
    }

    predicate CellsOk() {
      Shaped() && forall i :: 0 <= i < nCells ==> CellOk(i)
    }

    function Cells(): (cs: seq<Cell>)
      requires CellsOk()
      ensures |cs| == nCells
      ensures forall i :: 0 <= i < nCells ==> cs[i] == Cell(i)
    {
      seq(nCells, i requires 0 <= i < nCells => Cell(i))
    }

    function Offs(): (os: seq<nat>)
      requires Shaped()
      ensures |os| == nCells
      ensures forall i :: 0 <= i < nCells ==> os[i] == Off(i)
    {
      seq(nCells, i requires 0 <= i < nCells => Off(i))
    }

    /** What every page written by this code satisfies: whole cells that share no byte. */
    ghost predicate Valid() {
      CellsOk() && Disjoint(Offs(), Cells()) && Total(Cells()) <= |data| - cellsOffset
    }
  }

  ghost const VALID: iset<Raw> := iset r: Raw | r.Valid()

  predicate Apart(off: nat, c: Cell, off': nat, c': Cell) {
    off + c.Size() <= off' || off' + c'.Size() <= off
  }

  /** Cells at these offsets share no byte. */
  predicate Disjoint(offs: seq<nat>, cells: seq<Cell>) {
    && |offs| == |cells|
    && forall i, j :: 0 <= i < j < |offs| ==> Apart(offs[i], cells[i], offs[j], cells[j])
  }

  /** Bytes a run of cells takes in the cell area. */
  function Total(cs: seq<Cell>): nat {
    if cs == [] then 0 else cs[0].Size() + Total(cs[1..])
  }

  lemma {:induction false} TotalConcat(a: seq<Cell>, b: seq<Cell>)
    ensures Total(a + b) == Total(a) + Total(b)
  {
    if a == [] {
      assert a + b == b;
    } else {
      assert (a + b)[1..] == a[1..] + b;
      TotalConcat(a[1..], b);
    }
  }

  lemma InsertParts<T>(s: seq<T>, k: nat, x: T)
    requires k <= |s|
    ensures InsertedAt(s, k, x) == (s[..k] + [x]) + s[k..] && s == s[..k] + s[k..]
  {
  }

  lemma TotalInsert(s: seq<Cell>, k: nat, c: Cell)
    requires k <= |s|
    ensures Total(InsertedAt(s, k, c)) == Total(s) + c.Size()
  {
    TotalOne(c);
    InsertParts(s, k, c);
    hide Total, InsertedAt;
    var a, b := s[..k], s[k..];
    TotalConcat(a + [c], b);
    TotalConcat(a, [c]);
    TotalConcat(a, b);
  }

  lemma TotalOne(c: Cell)
    ensures Total([c]) == c.Size()
  {
  }

  /** Page bytes after a cell is put at the end of the gap between the offset array, which ends at
      free, and the cell area, which starts at area; its offset goes to position at of the array,
      whose later entries move up by one. */
  function LayDown(s: seq<byte>, free: nat, area: nat, at: nat, cell: seq<byte>): (d: seq<byte>)
    requires at <= free && free + 2 + |cell| <= area <= |s| < 0x1_0000
    ensures |d| == |s|
  {
    var top := area - |cell|;
    seq(|s|, x requires 0 <= x < |s| =>
      if at <= x < at + 2 then Enc2(top)[x - at]
      else if at + 2 <= x < free + 2 then s[x - 2]
      else if top <= x < area then cell[x - top]
      else s[x])
  }

  lemma LayDownBytes(s: seq<byte>, free: nat, area: nat, at: nat, cell: seq<byte>)
    requires at <= free && free + 2 + |cell| <= area <= |s| < 0x1_0000
    ensures var d := LayDown(s, free, area, at, cell);
            && (forall x :: 0 <= x < at ==> d[x] == s[x])
            && (forall x :: at + 2 <= x < free + 2 ==> d[x] == s[x - 2])
            && Dec2(d, at) == area - |cell|
            && d[area - |cell|..] == cell + s[area..]
  {
    Dec2At(LayDown(s, free, area, at, cell), at, area - |cell|);
  }

  /** The node after cell c is laid down below the cell area and its offset put at position k. */
  function AddCell(r: Raw, k: nat, c: Cell): Raw
    requires r.Shaped() && k <= r.nCells && c.Type() == r.typ && c.Sized()
    requires r.freeOffset + 2 + c.Size() <= r.cellsOffset
  {
    r.(data := LayDown(r.data, r.freeOffset, r.cellsOffset, r.Base() + 2 * k, Encode(c)),
       cellsOffset := r.cellsOffset - c.Size(), nCells := r.nCells + 1, freeOffset := r.freeOffset + 2)
  }

  /** The counters of the node after a cell of the given size is added. */
  predicate Grown(r: Raw, size: nat, a: Raw) {
    && r.Shaped() && a.Shaped()
    && a.npage == r.npage && a.typ == r.typ && a.rightPage == r.rightPage && |a.data| == |r.data|
    && a.nCells == r.nCells + 1
    && a.freeOffset == r.freeOffset + 2
    && a.cellsOffset == r.cellsOffset - size
  }

  ghost predicate ArrayShifted(r: Raw, size: nat, k: nat, a: Raw)
    requires Grown(r, size, a) && k <= r.nCells
  {
    && (forall x :: 0 <= x < r.Base() + 2 * k ==> a.data[x] == r.data[x])
    && (forall x :: r.Base() + 2 * k + 2 <= x < a.freeOffset ==> a.data[x] == r.data[x - 2])
  }

  predicate AreaGrown(r: Raw, c: Cell, a: Raw)
    requires Grown(r, c.Size(), a) && c.Sized()
  {
    a.data[a.cellsOffset..] == Encode(c) + r.data[r.cellsOffset..]
  }

  ghost predicate Added(r: Raw, k: nat, c: Cell, a: Raw) {
    && k <= r.nCells && c.Type() == r.typ && c.Sized()
    && Grown(r, c.Size(), a) && ArrayShifted(r, c.Size(), k, a) && AreaGrown(r, c, a)
    && a.Off(k) == a.cellsOffset
  }

  lemma AddCellBytes(r: Raw, k: nat, c: Cell)
    requires r.Shaped() && k <= r.nCells && c.Type() == r.typ && c.Sized()
    requires r.freeOffset + 2 + c.Size() <= r.cellsOffset
    ensures Added(r, k, c, AddCell(r, k, c))
  {
    var data := LayDown(r.data, r.freeOffset, r.cellsOffset, r.Base() + 2 * k, Encode(c));
    LayDownBytes(r.data, r.freeOffset, r.cellsOffset, r.Base() + 2 * k, Encode(c));
    AddedFrom(r, k, c, AddCell(r, k, c), data);
  }

  lemma AddedFrom(r: Raw, k: nat, c: Cell, a: Raw, data: seq<byte>)
    requires r.Shaped() && k <= r.nCells && c.Type() == r.typ && c.Sized()
    requires r.freeOffset + 2 + c.Size() <= r.cellsOffset
    requires a == r.(data := data, cellsOffset := r.cellsOffset - c.Size(), nCells := r.nCells + 1,
                     freeOffset := r.freeOffset + 2)
    requires |data| == |r.data|
    requires forall x :: 0 <= x < r.Base() + 2 * k ==> data[x] == r.data[x]
    requires Dec2(data, r.Base() + 2 * k) == a.cellsOffset
    requires forall x :: r.Base() + 2 * k + 2 <= x < r.freeOffset + 2 ==> data[x] == r.data[x - 2]
    requires data[a.cellsOffset..] == Encode(c) + r.data[r.cellsOffset..]
    ensures Added(r, k, c, a)
  {
    assert Grown(r, c.Size(), a);
    assert ArrayShifted(r, c.Size(), k, a);
  }

  /** Equal suffixes have equal shorter suffixes. */
  lemma Suffix(a: seq<byte>, b: seq<byte>, area: nat, off: nat)
    requires area <= off <= |b| == |a|
    requires a[area..] == b[area..]
    ensures a[off..] == b[off..]
  {
    assert a[area..][off - area..] == a[off..];
    assert b[area..][off - area..] == b[off..];
  }

  lemma AddedOffset(r: Raw, size: nat, k: nat, a: Raw, i: nat)
    requires Grown(r, size, a) && k <= r.nCells && ArrayShifted(r, size, k, a) && i < r.nCells
    ensures i < k ==> a.Off(i) == r.Off(i)
    ensures i >= k ==> a.Off(i + 1) == r.Off(i)
  {
    var x := r.Base() + 2 * i;
    if i < k {
      assert a.data[x] == r.data[x] && a.data[x + 1] == r.data[x + 1];
    } else {
      assert a.data[x + 2] == r.data[x] && a.data[x + 3] == r.data[x + 1];
    }
  }

  lemma AddedArea(r: Raw, c: Cell, a: Raw, off: nat)
    requires c.Sized() && Grown(r, c.Size(), a) && AreaGrown(r, c, a)
    requires r.cellsOffset <= off <= |r.data|
    ensures a.data[off..] == r.data[off..]
  {
    assert a.data[r.cellsOffset..] == a.data[a.cellsOffset..][c.Size()..];
    Suffix(a.data, r.data, r.cellsOffset, off);
  }

  /** The place in the new offset array that place i of the old one moves to. */
  function After(k: nat, i: nat): nat { if i < k then i else i + 1 }

  /** Every old cell still decodes to itself, one place further on from position k. */
  lemma AddedKeeps(r: Raw, k: nat, c: Cell, a: Raw, i: nat)
    requires Added(r, k, c, a) && i < r.nCells && r.CellOk(i)
    ensures a.Off(After(k, i)) == r.Off(i)
    ensures a.CellOk(After(k, i)) && a.Cell(After(k, i)) == r.Cell(i)
  {
    AddedOffset(r, c.Size(), k, a, i);
    AddedArea(r, c, a, r.Off(i));
  }

  lemma AddedNew(r: Raw, k: nat, c: Cell, a: Raw)
    requires Added(r, k, c, a)
    ensures a.CellOk(k) && a.Cell(k) == c.Stored()
  {
    DecodeEncode(c, r.data[r.cellsOffset..]);
  }

  /** The place in the old offset array that place j of the new one comes from. */
  function Before(k: nat, j: nat): nat
    requires j != k
  {
    if j < k then j else j - 1
  }

  lemma AddedAt(r: Raw, k: nat, c: Cell, a: Raw, j: nat)
    requires r.CellsOk() && Added(r, k, c, a) && j < a.nCells && j != k
    ensures a.CellOk(j)
    ensures a.Off(j) == r.Off(Before(k, j))
    ensures r.CellOk(Before(k, j)) && a.Cell(j) == r.Cell(Before(k, j))
  {
    var i := Before(k, j);
    assert r.CellOk(i);
    AddedKeeps(r, k, c, a, i);
    assert After(k, i) == j;
  }

  lemma AddedCells(r: Raw, k: nat, c: Cell, a: Raw)
    requires r.CellsOk() && Added(r, k, c, a)
    ensures a.CellsOk()
    ensures a.Cells() == InsertedAt(r.Cells(), k, c.Stored())
    ensures a.Offs() == InsertedAt(r.Offs(), k, a.cellsOffset)
  {
    forall j | 0 <= j < a.nCells
      ensures a.CellOk(j)
      ensures a.Off(j) == InsertedAt(r.Offs(), k, a.cellsOffset)[j]
      ensures a.Cell(j) == InsertedAt(r.Cells(), k, c.Stored())[j]
    {
      if j == k { AddedNew(r, k, c, a); } else { AddedAt(r, k, c, a, j); }
    }
  }

  lemma DisjointInsert(offs: seq<nat>, cells: seq<Cell>, k: nat, off: nat, c: Cell)
    requires Disjoint(offs, cells) && k <= |offs|
    requires forall i :: 0 <= i < |offs| ==> off + c.Size() <= offs[i]
    ensures Disjoint(InsertedAt(offs, k, off), InsertedAt(cells, k, c))
  {
    var offs', cells' := InsertedAt(offs, k, off), InsertedAt(cells, k, c);
    forall i, j | 0 <= i < j < |offs'|
      ensures Apart(offs'[i], cells'[i], offs'[j], cells'[j])
    {
      var i0, j0 := if i < k then i else i - 1, if j < k then j else j - 1;
      if i == k {
        assert offs'[j] == offs[j0];
      } else if j == k {
        assert offs'[i] == offs[i0];
      } else {
        assert Apart(offs[i0], cells[i0], offs[j0], cells[j0]);
      }
    }
  }

  lemma OffsetsInArea(r: Raw, i: nat)
    requires r.CellsOk() && i < r.nCells
    ensures r.cellsOffset <= r.Offs()[i]
  {
    assert r.CellOk(i);
  }

  /** Laying a cell down is inserting it at position k of the decoded cell sequence; no other
      cell moves or changes, no byte is shared, and the two areas stay apart. */
  lemma AddCellInserts(r: Raw, k: nat, c: Cell, a: Raw)
    requires r.Valid() && Added(r, k, c, a)
    ensures a.Valid() && a.Cells() == InsertedAt(r.Cells(), k, c.Stored())
  {
    AddedCells(r, k, c, a);
    forall i | 0 <= i < r.nCells
      ensures r.cellsOffset <= r.Offs()[i]
    {
      OffsetsInArea(r, i);
    }
    DisjointInsert(r.Offs(), r.Cells(), k, a.cellsOffset, c.Stored());
    TotalInsert(r.Cells(), k, c.Stored());
  }

  /** A fresh zeroed page set up as an empty node. */
  function EmptyNode(npage: nat, t: PageType, data: seq<byte>): Raw
    requires |data| < 0x1_0000
  {
    Raw(npage, t, ArrayAt(npage, t), 0, |data|, 0, data)
  }

  /** The counters written into the page header. */
  function Synced(r: Raw): seq<byte>
    requires HeaderAt(r.npage) + 12 <= |r.data|
    requires r.freeOffset < 0x1_0000 && r.nCells < 0x1_0000 && r.cellsOffset < 0x1_0000
  {
    var h := HeaderAt(r.npage);
    var d0 := Splice(r.data, h, [TypeByte(r.typ)]);
    var d1 := Splice(d0, h + 1, Enc2(r.freeOffset));
    var d2 := Splice(d1, h + 3, Enc2(r.nCells));
    var d3 := Splice(d2, h + 5, Enc2(r.cellsOffset));
    if r.typ.Internal() then Splice(d3, h + 8, Enc4(r.rightPage)) else d3
  }

  /** A node read from the bytes of page npage. */
  function Load(npage: nat, data: seq<byte>): Raw
    requires HeaderAt(npage) + 12 <= |data|
  {
    var h := HeaderAt(npage);
    var t := TypeOfByte(data[h]);
    Raw(npage, t, Dec2(data, h + 1), Dec2(data, h + 3), Dec2(data, h + 5),
        if t.Internal() then Dec4(data, h + 8) else 0, data)
  }

  /** A valid node written to its page and loaded again has the same type, counters, right page
      and cells, and the write touches nothing but the page header. */
  lemma LoadSynced(r: Raw)
    requires r.Valid()
    ensures var l := Load(r.npage, Synced(r));
            && l.Valid()
            && l == r.(data := Synced(r), rightPage := if r.typ.Internal() then r.rightPage else 0)
            && l.Cells() == r.Cells()
            && l.data[..HeaderAt(r.npage)] == r.data[..HeaderAt(r.npage)]
            && l.data[r.Base()..] == r.data[r.Base()..]
  {
    SyncedBytes(r);
    LoadBytes(r, Synced(r));
    SameTail(r, Load(r.npage, Synced(r)));
  }

  /** Two bytes at position i, the high one first. */
  predicate TwoAt(d: seq<byte>, i: nat, v: nat) {
    i + 2 <= |d| && (d[i] as int) * 0x100 + d[i + 1] == v
  }

  /** Four bytes at position i, the highest one first. */
  predicate FourAt(d: seq<byte>, i: nat, v: nat) {
    i + 4 <= |d| &&
    (d[i] as int) * 0x100_0000 + (d[i + 1] as int) * 0x1_0000 + (d[i + 2] as int) * 0x100 + d[i + 3] == v
  }

  /** Four groups of seven bits at position i, the highest one first, all but the last one marked. */
  predicate GroupsAt(d: seq<byte>, i: nat, v: nat) {
    && i + 4 <= |d| && d[i] >= 0x80 && d[i + 1] >= 0x80 && d[i + 2] >= 0x80 && d[i + 3] < 0x80
    && (d[i] as int - 0x80) * 0x20_0000 + (d[i + 1] as int - 0x80) * 0x4000 + (d[i + 2] as int - 0x80) * 0x80 + d[i + 3]
        == v
  }

  /** The byte in the header that names the type of a page. */
  function Named(t: PageType): byte {
    match t
    case TableInternal => 5
    case TableLeaf => 13
    case IndexInternal => 2
    case IndexLeaf => 10
    case Unknown(code) => code
  }

  /** The page header in d: 100 bytes into page 1, behind the file header, and at the front of every
      other page. */
  predicate HeaderIn(d: seq<byte>, npage: nat, typ: byte, free: nat, nCells: nat, cells: nat) {
    var h := if npage == 1 then 100 else 0;
    h < |d| && d[h] == typ && TwoAt(d, h + 1, free) && TwoAt(d, h + 3, nCells) && TwoAt(d, h + 5, cells)
  }

  /** A node written out has its header there, in front of an offset array that begins 8 bytes further
      on in a leaf and 12 in an internal page; the bytes before the header stay. */
  lemma HeaderPlaces(r: Raw)
    requires r.Valid()
    ensures var d, h := Synced(r), if r.npage == 1 then 100 else 0;
            && |d| == |r.data| && d[..h] == r.data[..h]
            && HeaderIn(d, r.npage, Named(r.typ), r.freeOffset, r.nCells, r.cellsOffset)
            && (r.typ == TableInternal || r.typ == IndexInternal ==>
                  FourAt(d, h + 8, r.rightPage) && d[h + 12..] == r.data[h + 12..])
            && (r.typ == TableLeaf || r.typ == IndexLeaf ==> d[h + 7..] == r.data[h + 7..])
            && r.freeOffset == h + 2 * r.nCells + (if r.typ == TableLeaf || r.typ == IndexLeaf then 8 else 12)
  {
    SyncedBytes(r);
    BigEndian(r.freeOffset);
    BigEndian(r.nCells);
    BigEndian(r.cellsOffset);
    BigEndian(r.rightPage);
  }

  /** A page is read from the same places. */
  lemma LoadPlaces(npage: nat, d: seq<byte>)
    requires |d| >= HeaderAt(npage) + 12
    ensures var l, h := Load(npage, d), if npage == 1 then 100 else 0;
            && l.npage == npage && l.data == d
            && HeaderIn(d, npage, Named(l.typ), l.freeOffset, l.nCells, l.cellsOffset)
            && (d[h] in {5, 13, 2, 10} <==> l.typ.Known())
            && (d[h] == 5 || d[h] == 2 ==> FourAt(d, h + 8, l.rightPage))
  {
  }

  /** A new node: nothing in its offset array, which begins right behind the header, and nothing in
      its area, which begins at the end of the page. */
  lemma EmptyPlaces(npage: nat, t: PageType, size: u16)
    requires t.Known() && size >= MIN_PAGE
    ensures var r := EmptyNode(npage, t, seq(size, _ => 0));
            && r.Valid() && r.nCells == 0 && r.cellsOffset == size
            && r.freeOffset == (if npage == 1 then 100 else 0) + (if t == TableLeaf || t == IndexLeaf then 8 else 12)
            && HeaderIn(Synced(r), npage, Named(t), r.freeOffset, 0, size)
  {
    var r := EmptyNode(npage, t, seq(size, _ => 0));
    assert r.Cells() == [] && r.Offs() == [];
    HeaderPlaces(r);
  }

  /** Entry i of the offset array, behind the header, says where cell i begins. */
  lemma OffsetPlaces(r: Raw, i: nat)
    requires r.Valid() && i < r.nCells
    ensures var first := (if r.npage == 1 then 100 else 0)
                         + if r.typ == TableLeaf || r.typ == IndexLeaf then 8 else 12;
            && TwoAt(r.data, first + 2 * i, r.Off(i)) && r.Off(i) <= |r.data|
            && r.CellOk(i) && r.Cells()[i] == Decode(r.data[r.Off(i)..], r.typ)
  {
    assert r.CellOk(i);
  }

  /** The bytes of a cell, as the chidb file format lays them out. */
  predicate CellIn(b: seq<byte>, c: Cell) {
    match c
    case TableInternalCell(key, child) => |b| == 8 && FourAt(b, 0, child) && GroupsAt(b, 4, key % 0x1000_0000)
    case TableLeafCell(key, data) =>
      |b| == 8 + |data| && GroupsAt(b, 0, |data|) && GroupsAt(b, 4, key % 0x1000_0000) && b[8..] == data
    case IndexInternalCell(key, keyPk, child) =>
      && |b| == 16 && FourAt(b, 0, child) && b[4..8] == [0x0B, 0x03, 0x04, 0x04]
      && FourAt(b, 8, key) && FourAt(b, 12, keyPk)
    case IndexLeafCell(key, keyPk) =>
      |b| == 12 && b[..4] == [0x0B, 0x03, 0x04, 0x04] && FourAt(b, 4, key) && FourAt(b, 8, keyPk)
  }

  lemma CellPlaces(c: Cell)
    requires c.Sized()
    ensures CellIn(Encode(c), c)
  {
    match c
    case TableInternalCell(key, child) =>
      BigEndian(child);
      GroupsInOrder(key);
    case TableLeafCell(key, data) =>
      GroupsInOrder(|data|);
      GroupsInOrder(key);
    case IndexInternalCell(key, keyPk, child) =>
      BigEndian(child);
      BigEndian(key);
      BigEndian(keyPk);
    case IndexLeafCell(key, keyPk) =>
      BigEndian(key);
      BigEndian(keyPk);
  }

  /** Header fields are read where they were written. */
  lemma LoadBytes(r: Raw, d: seq<byte>)
    requires r.Shaped() && HeaderBytes(r, d)
    ensures Load(r.npage, d) == r.(data := d, rightPage := if r.typ.Internal() then r.rightPage else 0)
  {
    var h := HeaderAt(r.npage);
    Dec2At(d, h + 1, r.freeOffset);
    Dec2At(d, h + 3, r.nCells);
    Dec2At(d, h + 5, r.cellsOffset);
    if r.typ.Internal() {
      assert d[h + 8..h + 12] == Enc4(r.rightPage);
      DecLocal(d, h + 8, Enc4(r.rightPage));
      Dec4Enc4(r.rightPage);
    }
  }

  lemma Dec2At(d: seq<byte>, i: nat, v: u16)
    requires i + 2 <= |d| && d[i] == Enc2(v)[0] && d[i + 1] == Enc2(v)[1]
    ensures Dec2(d, i) == v
  {
  }

  ghost predicate HeaderBytes(r: Raw, d: seq<byte>)
    requires r.Shaped()
  {
    var h := HeaderAt(r.npage);
    && |d| == |r.data|
    && d[h] == TypeByte(r.typ)
    && d[h + 1] == Enc2(r.freeOffset)[0] && d[h + 2] == Enc2(r.freeOffset)[1]
    && d[h + 3] == Enc2(r.nCells)[0] && d[h + 4] == Enc2(r.nCells)[1]
    && d[h + 5] == Enc2(r.cellsOffset)[0] && d[h + 6] == Enc2(r.cellsOffset)[1]
    && (r.typ.Internal() ==> forall k :: h + 8 <= k < h + 12 ==> d[k] == Enc4(r.rightPage)[k - h - 8])
  }

  lemma SyncedBytes(r: Raw)
    requires r.Shaped()
    ensures var d, h := Synced(r), HeaderAt(r.npage);
            && HeaderBytes(r, d)
            && d[..h] == r.data[..h]
            && d[r.Base()..] == r.data[r.Base()..]
  {
  }

  lemma SameCell(r: Raw, l: Raw, i: nat)
    requires r.CellsOk() && l.Shaped() && i < r.nCells
    requires l.npage == r.npage && l.typ == r.typ && l.nCells == r.nCells && l.cellsOffset == r.cellsOffset
    requires |l.data| == |r.data| && l.data[r.Base()..] == r.data[r.Base()..]
    ensures l.Off(i) == r.Off(i) && l.CellOk(i) && l.Cell(i) == r.Cell(i)
  {
    var x := r.Base() + 2 * i;
    assert l.data[x] == l.data[r.Base()..][2 * i] && l.data[x + 1] == l.data[r.Base()..][2 * i + 1];
    assert r.CellOk(i);
    Suffix(l.data, r.data, r.Base(), r.Off(i));
  }

  /** Nodes that agree from the offset array on hold the same cells. */
  lemma SameTail(r: Raw, l: Raw)
    requires r.Valid() && l.Shaped()
    requires l.npage == r.npage && l.typ == r.typ && l.nCells == r.nCells && l.cellsOffset == r.cellsOffset
    requires |l.data| == |r.data| && l.data[r.Base()..] == r.data[r.Base()..]
    ensures l.Valid() && l.Cells() == r.Cells()
  {
    forall i | 0 <= i < r.nCells
      ensures l.Off(i) == r.Off(i) && l.CellOk(i) && l.Cell(i) == r.Cell(i)
    {
      SameCell(r, l, i);
    }
    assert l.Cells() == r.Cells() && l.Offs() == r.Offs();
  }

  /** A never-written page reads as zeros and loads as a node of no known type. */
  lemma LoadZeros(npage: nat, data: seq<byte>)
    requires HeaderAt(npage) + 12 <= |data| && forall i :: 0 <= i < |data| ==> data[i] == 0
    ensures Load(npage, data) == Raw(npage, Unknown(0), 0, 0, 0, 0, data)
  {
  }
}
