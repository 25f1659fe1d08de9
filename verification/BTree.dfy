/** Search, insertion and traversal over the pages of a file
    (db/src/libchidb/btree.c:493-858, db/src/libchidb/util.c:123-199). */
module BTree {
  import opened Bytes
  import opened Paging
  import opened Layout
  import opened Nodes
  import opened Tree
  import opened TreeDefs
  import opened TreeStep

  /** A valid node as the tree algorithms see it; the right page of a leaf means nothing. */
  ghost function Decoded(r: Raw): Page
    requires r.Valid()
  {
    Page(r.typ, r.Cells(), if r.typ.Internal() then r.rightPage else 0, r.cellsOffset - r.freeOffset)
  }

  ghost predicate PageOk(p: nat, b: seq<byte>) {
    HeaderAt(p) + 12 <= |b| && Load(p, b).Valid()
  }

  /** The valid pages of a file, decoded. */
  ghost function View(pages: Pages): Store {
    map p: nat | p in pages && PageOk(p, pages[p]) :: Decoded(Load(p, pages[p]))
  }

  lemma ViewWrite(pages: Pages, p: nat, b: seq<byte>)
    requires PageOk(p, b)
    ensures View(pages[p := b]) == View(pages)[p := Decoded(Load(p, b))]
  {
  }

  /** A page that is allocated and not written yet loads as a node of no known type: it is no part of
      any tree. */
  lemma AllocatedIsNoNode(pages: Pages, p: nat, size: nat)
    requires size >= HeaderAt(p) + 12
    ensures Load(p, Zeros(size)) == Raw(p, Unknown(0), 0, 0, 0, 0, Zeros(size))
    ensures View(pages[p := Zeros(size)]) == View(pages) - {p}
  {
    LoadZeros(p, Zeros(size));
  }

  /** chidb_Btree_getNodeByPage on a page that holds a valid node. */
  method LoadNode(pager: Pager, p: nat) returns (node: BTreeNode)
    requires pager.Valid() && pager.pageSize >= MIN_PAGE && p in View(pager.Contents())
    ensures fresh(node) && fresh(node.page) && fresh(node.page.data)
    ensures node.Valid() && node.page.npage == p && node.page.data.Length == pager.pageSize
    ensures node.Value() == Load(p, pager.PageBytes(p))
    ensures Decoded(node.Value()) == View(pager.Contents())[p]
  {
    var _, n := GetNodeByPage(pager, p);
    node := n;
  }

  /** A cell of a node whose cells are known. */
  method ReadCell(node: BTreeNode, i: nat, ghost cells: seq<Cell>) returns (cell: Cell)
    requires node.Valid() && cells == node.Value().Cells() && i < |cells|
    ensures cell == cells[i] && cell.Type() == node.typ
  {
    var _, c := node.GetCell(i);
    assert node.Value().CellOk(i);
    cell := c;
  }

  /** The loop over the cells of a node up to the first key that is not smaller. */
  method FindSlot(node: BTreeNode, key: u32, ghost cells: seq<Cell>) returns (i: nat)
    requires node.Valid() && cells == node.Value().Cells()
    ensures i == SlotFrom(cells, key, 0)
  {
    i := 0;
    while i < node.nCells
      invariant 0 <= i <= node.nCells == |cells|
      invariant SlotFrom(cells, key, 0) == SlotFrom(cells, key, i)
    {
      var cell := ReadCell(node, i, cells);
      if key <= cell.key {
        return;
      }
      i := i + 1;
    }
  }

  /** The child to go on with, unless an index cell has the key. */
  method NextChild(node: BTreeNode, key: u32, ghost p: Page) returns (held: bool, child: nat)
    requires node.Valid() && node.typ.Internal() && p == Decoded(node.Value())
    ensures var i := Slot(p.cells, key);
            && held == (p.typ.IndexInternal? && i < |p.cells| && p.cells[i].key == key)
            && (!held ==> child == Child(p, i))
  {
    var i := FindSlot(node, key, p.cells);
    assert i == Slot(p.cells, key);
    if i == node.nCells {
      return false, node.rightPage;
    }
    var cell := ReadCell(node, i, p.cells);
    return node.typ.IndexInternal? && cell.key == key, ChildOf(cell);
  }

  method FindInLeaf(node: BTreeNode, key: u32) returns (status: Status, data: seq<byte>)
    requires node.Valid() && node.typ == TableLeaf
    ensures match Tree.Find(Entries(node.Value().Cells()), key)
            case Missing => status == NotFound
            case Hit(e) => status == Ok && e == Row(key, data)
  {
    ghost var cells := node.Value().Cells();
    var i := 0;
    while i < node.nCells
      invariant 0 <= i <= node.nCells
      invariant forall j :: 0 <= j < i ==> cells[j].key != key
    {
      var _, cell := node.GetCell(i);
      assert cell == cells[i] && cell.Type() == TableLeaf;
      if cell.key == key {
        FindAt(cells, key, i);
        return Ok, cell.data;
      }
      i := i + 1;
    }
    FindNone(cells, key);
    return NotFound, [];
  }

  /** chidb_Btree_find on pages laid out as a table, in order or not: what the descent comes to. */
  method Search(pager: Pager, nroot: nat, key: u32, ghost ns: Store, ghost sh: Shape)
    returns (status: Status, data: seq<byte>)
    requires pager.Valid() && pager.pageSize >= MIN_PAGE && View(pager.Contents()) == ns
    requires Laid(ns, Table, sh) && sh.page == nroot
    ensures match LookUp(ns, sh, key)
            case Missing => status == NotFound
            case Hit(e) => status == Ok && e == Row(key, data)
    decreases sh
  {
    hide View, Slot, Load;
    var node := LoadNode(pager, nroot);
    if node.typ == TableLeaf {
      status, data := FindInLeaf(node, key);
    } else if node.typ == TableInternal {
      var _, child := NextChild(node, key, ns[nroot]);
      status, data := Search(pager, child, key, ns, sh.kids[Slot(ns[nroot].cells, key)]);
    } else {
      return NotFound, [];
    }
  }

  /** chidb_Btree_find on a well-formed table: exactly what the traversal holds under the key. */
  method FindRow(pager: Pager, nroot: nat, key: u32, ghost sh: Shape, ghost lo: int, ghost hi: int)
    returns (status: Status, data: seq<byte>)
    requires pager.Valid() && pager.pageSize >= MIN_PAGE
    requires sh in Trees(View(pager.Contents()), Table, lo, hi) && sh.page == nroot && lo < key <= hi
    ensures match Tree.Find(Walk(View(pager.Contents()), Table, sh), key)
            case Missing => status == NotFound
            case Hit(e) => status == Ok && e == Row(key, data)
  {
    ghost var ns := View(pager.Contents());
    TreeLaid(ns, Table, sh, lo, hi);
    TreeLookUp(ns, sh, key, lo, hi);
    status, data := Search(pager, nroot, key, ns, sh);
  }

  lemma {:induction false} FindAt(cs: seq<Cell>, key: nat, i: nat)
    requires i < |cs| && cs[i].key == key && forall j :: 0 <= j < i ==> cs[j].key != key
    ensures Tree.Find(Entries(cs), key) == Hit(EntryOf(cs[i]))
  {
    if i > 0 {
      assert Entries(cs)[1..] == Entries(cs[1..]);
      FindAt(cs[1..], key, i - 1);
    }
  }

  lemma FindNone(cs: seq<Cell>, key: nat)
    requires forall j :: 0 <= j < |cs| ==> cs[j].key != key
    ensures Tree.Find(Entries(cs), key) == Missing
  {
    FindEntries(cs, key);
  }

  /** chidb_Btree_print: the entries in the order of the traversal. */
  method Print(pager: Pager, npage: nat, ghost ns: Store, ghost k: Kind, ghost sh: Shape, ghost lo: int, ghost hi: int)
    returns (out: seq<Entry>)
    requires pager.Valid() && pager.pageSize >= MIN_PAGE && View(pager.Contents()) == ns
    requires sh in Trees(ns, k, lo, hi) && sh.page == npage
    ensures out == Walk(ns, k, sh)
    ensures forall e :: e in out <==> OnPages(ns, sh, e)
    decreases sh, 3
  {
    forall e
      ensures e in Walk(ns, k, sh) <==> OnPages(ns, sh, e)
    {
      WalkShows(ns, k, sh, lo, hi, e);
    }
    var node := LoadNode(pager, npage);
    if node.typ == TableLeaf || node.typ == IndexLeaf {
      out := PrintLeaf(node);
    } else {
      out := PrintInner(pager, node, ns, k, sh, lo, hi);
    }
  }

  method PrintLeaf(node: BTreeNode) returns (out: seq<Entry>)
    requires node.Valid()
    ensures out == Entries(node.Value().Cells())
  {
    out := [];
    var i := 0;
    while i < node.nCells
      invariant 0 <= i <= node.nCells
      invariant out == Entries(node.Value().Cells())[..i]
    {
      var _, cell := node.GetCell(i);
      out := out + [EntryOf(cell)];
      i := i + 1;
    }
  }

  method PrintInner(pager: Pager, node: BTreeNode, ghost ns: Store, ghost k: Kind, ghost sh: Shape, ghost lo: int,
                    ghost hi: int)
    returns (out: seq<Entry>)
    requires pager.Valid() && pager.pageSize >= MIN_PAGE && View(pager.Contents()) == ns
    requires sh in Trees(ns, k, lo, hi) && sh.Inner?
    requires node.Valid() && Decoded(node.Value()) == ns[sh.page]
    ensures out == Walk(ns, k, sh)
    decreases sh, 2
  {
    InnerNode(ns, k, sh, lo, hi);
    out := [];
    var i := 0;
    while i < node.nCells
      invariant 0 <= i <= node.nCells == |ns[sh.page].cells|
      invariant out == WalkTo(ns, k, sh, i)
    {
      var part := PrintCell(pager, node, i, ns, k, sh, lo, hi);
      out := out + part;
      i := i + 1;
    }
    var last := PrintChild(pager, node.rightPage, ns, k, sh, i, lo, hi);
    WalkSplits(ns, k, sh, i);
    out := out + last;
  }

  /** The traversal of the children before child i, each with its separator. */
  ghost function WalkTo(ns: Store, k: Kind, sh: Shape, i: nat): seq<Entry>
    requires sh.Inner? && sh.page in ns && i <= |sh.kids|
  {
    if i == 0 then []
    else WalkTo(ns, k, sh, i - 1) + (Walk(ns, k, sh.kids[i - 1]) + Separator(ns[sh.page], k, i - 1))
  }

  lemma {:induction false} WalkSplits(ns: Store, k: Kind, sh: Shape, i: nat)
    requires sh.Inner? && sh.page in ns && i < |sh.kids|
    ensures WalkTo(ns, k, sh, i) + WalkFrom(ns, k, sh, i) == WalkFrom(ns, k, sh, 0)
    ensures i + 1 == |sh.kids| == |ns[sh.page].cells| + 1 ==>
      WalkTo(ns, k, sh, i) + Walk(ns, k, sh.kids[i]) == WalkFrom(ns, k, sh, 0)
  {
    hide Separator, Walk;
    if i > 0 {
      WalkSplits(ns, k, sh, i - 1);
      Regroup(WalkTo(ns, k, sh, i - 1), Walk(ns, k, sh.kids[i - 1]) + Separator(ns[sh.page], k, i - 1),
              WalkFrom(ns, k, sh, i));
    }
    if i + 1 == |sh.kids| == |ns[sh.page].cells| + 1 {
      LastWalk(ns, k, sh, i);
    }
  }

  /** The last child has no separator behind it. */
  lemma LastWalk(ns: Store, k: Kind, sh: Shape, i: nat)
    requires sh.Inner? && sh.page in ns && i + 1 == |sh.kids| == |ns[sh.page].cells| + 1
    ensures WalkFrom(ns, k, sh, i) == Walk(ns, k, sh.kids[i])
  {
    hide Walk;
    assert WalkFrom(ns, k, sh, i + 1) == [];
  }

  /** A cell of an internal node: the child below it, then the entry an index keeps in it. */
  method PrintCell(pager: Pager, node: BTreeNode, i: nat, ghost ns: Store, ghost k: Kind, ghost sh: Shape,
                   ghost lo: int, ghost hi: int)
    returns (out: seq<Entry>)
    requires pager.Valid() && pager.pageSize >= MIN_PAGE && View(pager.Contents()) == ns
    requires sh in Trees(ns, k, lo, hi) && sh.Inner? && i + 1 < |sh.kids|
    requires node.Valid() && i < node.nCells && Decoded(node.Value()) == ns[sh.page]
    ensures out == Walk(ns, k, sh.kids[i]) + Separator(ns[sh.page], k, i)
    decreases sh, 1
  {
    var cell := ReadCell(node, i, ns[sh.page].cells);
    out := PrintChild(pager, ChildOf(cell), ns, k, sh, i, lo, hi);
    if node.typ == IndexInternal {
      out := out + [EntryOf(cell)];
    }
  }

  lemma InnerNode(ns: Store, k: Kind, sh: Shape, lo: int, hi: int)
    requires sh in Trees(ns, k, lo, hi) && sh.Inner?
    ensures sh.page in ns && ns[sh.page].typ == k.InnerType() && |sh.kids| == |ns[sh.page].cells| + 1
    ensures Walk(ns, k, sh) == WalkFrom(ns, k, sh, 0)
  {
  }

  lemma Regroup(a: seq<Entry>, b: seq<Entry>, c: seq<Entry>)
    ensures a + b + c == a + (b + c)
  {
  }

  method PrintChild(pager: Pager, npage: nat, ghost ns: Store, ghost k: Kind, ghost sh: Shape, ghost i: nat,
                    ghost lo: int, ghost hi: int)
    returns (out: seq<Entry>)
    requires pager.Valid() && pager.pageSize >= MIN_PAGE && View(pager.Contents()) == ns
    requires sh in Trees(ns, k, lo, hi) && sh.Inner? && i < |sh.kids|
    requires npage == Child(ns[sh.page], i)
    ensures out == Walk(ns, k, sh.kids[i])
    decreases sh, 0
  {
    ghost var cells := ns[sh.page].cells;
    out := Print(pager, npage, ns, k, sh.kids[i], Low(cells, i, lo), High(k, cells, i, hi));
  }
}
