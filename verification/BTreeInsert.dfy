/** chidb_Btree_insert and chidb_Btree_insertNonFull on the pages of a file
    (db/src/libchidb/btree.c:569-610, 659-858): the code refines TreeDefs.Step. */
module BTreeInsert {
  import opened Bytes
  import opened Common
  import opened Paging
  import opened Layout
  import opened Nodes
  import opened Tree
  import opened TreeDefs
  import opened TreeStep
  import opened TreeRuns
  import opened BTree

  /** The tree sh among the pages of the file. */
  ghost function DbOf(pager: Pager, sh: Shape): Db
    reads pager
  {
    Db(View(pager.Contents()), pager.nPages, sh)
  }

  /** A node that is written reads back as itself. */
  lemma DecodedSynced(r: Raw)
    requires r.Valid() && r.npage >= 1
    ensures PageOk(r.npage, Synced(r)) && Decoded(Load(r.npage, Synced(r))) == Decoded(r)
  {
    LoadSynced(r);
  }

  /** The bytes that on page npage decode to p. */
  ghost function Images(npage: nat, p: Page): iset<seq<byte>> {
    iset b: seq<byte> | PageOk(npage, b) && Decoded(Load(npage, b)) == p
  }

  /** A valid node written out: its page decodes to it, and no other page changes. */
  method StoreNode(pager: Pager, node: BTreeNode, ghost p: Page) returns (ghost b: seq<byte>)
    requires pager.Valid() && node.Valid() && 1 <= node.page.npage <= pager.nPages && Decoded(node.Value()) == p
    requires node.page.data.Length == pager.pageSize
    modifies pager`file, node.page.data
    ensures pager.Valid() && b in Images(node.page.npage, p)
    ensures pager.Contents() == old(pager.Contents())[node.page.npage := b]
  {
    DecodedSynced(node.Value());
    b := Synced(node.Value());
    var _ := WriteNode(pager, node);
  }

  /** The loop that looks for the first larger key; an equal key before it is a duplicate. */
  method InsertionIndex(node: BTreeNode, key: u32, ghost cells: seq<Cell>) returns (found: bool, index: nat)
    requires node.Valid() && cells == node.Value().Cells() && SortedCells(cells)
    ensures found == HasKey(cells, key)
    ensures !found ==> index == GapFrom(cells, key, 0)
  {
    index := node.nCells;
    var i := 0;
    while i < node.nCells
      invariant 0 <= i <= node.nCells == |cells| == index
      invariant GapFrom(cells, key, 0) == GapFrom(cells, key, i) && forall j :: 0 <= j < i ==> cells[j].key < key
    {
      var cell := ReadCell(node, i, cells);
      if key < cell.key {
        return false, i;
      } else if key == cell.key {
        return true, i;
      }
      i := i + 1;
    }
    return false, index;
  }

  /** An internal page that takes a cell behind its last one takes over the right child too. */
  predicate TakesRight(p: Page, c: Cell) {
    p.typ.Internal() && Gap(p.cells, c.key) == |p.cells|
  }

  /** The page after insertNonFull. */
  function Accepted(p: Page, c: Cell, right: nat): Page {
    WithCell(if TakesRight(p, c) then p.(right := right) else p, Gap(p.cells, c.key), c)
  }

  /** The page after a cell goes in at position index. */
  function WithCell(p: Page, index: nat, c: Cell): Page
    requires index <= |p.cells|
  {
    p.(cells := InsertedAt(p.cells, index, c), room := p.room - Cost(c))
  }

  method InsertAndStore(pager: Pager, node: BTreeNode, index: nat, cell: Cell, ghost p: Page)
    returns (ghost b: seq<byte>)
    requires pager.Valid() && node.Valid() && 1 <= node.page.npage <= pager.nPages && Decoded(node.Value()) == p
    requires node.page.data.Length == pager.pageSize
    requires cell.Type() == node.typ && cell.Sized() && cell.Stored() == cell && Cost(cell) <= p.room
    requires index <= |p.cells|
    modifies pager`file, node, node.page.data
    ensures pager.Valid() && b in Images(node.page.npage, WithCell(p, index, cell))
    ensures pager.Contents() == old(pager.Contents())[node.page.npage := b]
  {
    var _ := node.InsertCell(index, cell);
    b := StoreNode(pager, node, WithCell(p, index, cell));
  }

  lemma RightPageFree(r: Raw, right: u32)
    requires r.Valid() && r.typ.Internal()
    ensures r.(rightPage := right).Valid()
    ensures Decoded(r.(rightPage := right)) == Decoded(r).(right := right)
  {
    SameTail(r, r.(rightPage := right));
  }

  method SetRightPage(node: BTreeNode, right: u32, ghost p: Page)
    requires node.Valid() && node.typ.Internal() && Decoded(node.Value()) == p
    modifies node`rightPage
    ensures node.Valid() && node.rightPage == right && Decoded(node.Value()) == p.(right := right)
  {
    RightPageFree(node.Value(), right);
    node.rightPage := right;
  }

  /** chidb_Btree_insertNonFull.  Where an internal node takes the cell before its last one, the code
      changes the child of a cell it has copied out of the page: no page sees that. */
  method InsertNonFull(pager: Pager, node: BTreeNode, cell: Cell, rightChild: u32, ghost p: Page)
    returns (status: Status, ghost b: seq<byte>)
    requires pager.Valid() && node.Valid() && 1 <= node.page.npage <= pager.nPages && Decoded(node.Value()) == p
    requires node.page.data.Length == pager.pageSize
    requires cell.Type() == node.typ && cell.Sized() && cell.Stored() == cell && Cost(cell) <= p.room
    requires SortedCells(p.cells)
    modifies pager`file, node, node.page.data
    ensures pager.Valid()
    ensures status == if HasKey(p.cells, cell.key) then Duplicate else Ok
    ensures status.Duplicate? ==> pager.file == old(pager.file)
    ensures status.Ok? ==> b in Images(node.page.npage, Accepted(p, cell, rightChild))
    ensures status.Ok? ==> pager.Contents() == old(pager.Contents())[node.page.npage := b]
  {
    var found, index := InsertionIndex(node, cell.key, p.cells);
    if found {
      return Duplicate, [];
    }
    assert index == Gap(p.cells, cell.key);
    if node.typ.Internal() && index == node.nCells {
      SetRightPage(node, rightChild, p);
    }
    b := InsertAndStore(pager, node, index, cell, if TakesRight(p, cell) then p.(right := rightChild) else p);
    status := Ok;
  }

  /** Cells laid down one after the other in an empty node. */
  method FillNode(node: BTreeNode, cells: seq<Cell>, ghost p: Page)
    requires node.Valid() && Decoded(node.Value()) == p && p.cells == []
    requires forall i :: 0 <= i < |cells| ==>
               cells[i].Type() == p.typ && cells[i].Sized() && cells[i].Stored() == cells[i]
    requires Costs(cells) <= p.room
    modifies node, node.page.data
    ensures node.Valid() && Decoded(node.Value()) == p.(cells := cells, room := p.room - Costs(cells))
  {
    hide InsertedAt, Costs;
    NoCosts(cells);
    var i := 0;
    while i < |cells|
      invariant 0 <= i <= |cells|
      invariant node.Valid()
      invariant Decoded(node.Value()) == p.(cells := cells[..i], room := p.room - Costs(cells[..i]))
    {
      CostsStep(cells, i);
      InsertLast(cells, i);
      var _ := node.InsertCell(i, cells[i]);
      i := i + 1;
    }
    assert cells[..i] == cells;
  }

  lemma NoCosts(cells: seq<Cell>)
    ensures cells[..0] == [] && Costs([]) == 0
  {
  }

  lemma InsertLast(cells: seq<Cell>, i: nat)
    requires i < |cells|
    ensures InsertedAt(cells[..i], i, cells[i]) == cells[..i + 1]
  {
  }

  lemma CostsStep(cells: seq<Cell>, i: nat)
    requires i < |cells|
    ensures Costs(cells[..i + 1]) == Costs(cells[..i]) + Cost(cells[i])
    ensures Costs(cells[..i + 1]) <= Costs(cells)
  {
    assert cells[..i + 1] == cells[..i] + [cells[i]];
    TotalConcat(cells[..i], [cells[i]]);
    TotalOne(cells[i]);
    assert cells == cells[..i + 1] + cells[i + 1..];
    TotalConcat(cells[..i + 1], cells[i + 1..]);
  }

  /** The cells of a page are ones that read back as themselves. */
  lemma PageCellsStored(r: Raw)
    requires r.Valid()
    ensures Sound(r.Cells(), r.typ)
  {
    forall i | 0 <= i < r.nCells
      ensures r.Cells()[i].Type() == r.typ && r.Cells()[i].Sized() && r.Cells()[i].Stored() == r.Cells()[i]
    {
      assert r.CellOk(i);
      DecodeStored(r.data[r.Off(i)..], r.typ);
    }
  }

  /** The array of the cells of the full leaf with the new one in its place. */
  method GatherOverfull(node: BTreeNode, cell: Cell, ghost cells: seq<Cell>) returns (overfull: seq<Cell>)
    requires node.Valid() && cells == node.Value().Cells()
    ensures overfull == Overfull(cells, cell)
  {
    hide Gathered, Gap, InsertedAt;
    GatherStart(cells, cell);
    var inserted := false;
    overfull := [];
    var i := 0;
    while i < node.nCells
      invariant 0 <= i <= node.nCells == |cells|
      invariant Gathered(cells, cell, i, inserted, overfull)
    {
      var btc := ReadCell(node, i, cells);
      GatherStep(cells, cell, i, inserted, overfull);
      if cell.key < btc.key && !inserted {
        inserted := true;
        overfull := overfull + [cell, btc];
      } else {
        overfull := overfull + [btc];
      }
      i := i + 1;
    }
    GatherEnd(cells, cell, inserted, overfull);
    if !inserted {
      overfull := overfull + [cell];
    }
  }

  /** The array after the first i cells have been gathered. */
  ghost predicate Gathered(cells: seq<Cell>, cell: Cell, i: nat, inserted: bool, over: seq<Cell>)
    requires i <= |cells|
  {
    if inserted then Gap(cells, cell.key) < i && over == InsertedAt(cells[..i], Gap(cells, cell.key), cell)
    else i <= Gap(cells, cell.key) && over == cells[..i]
  }

  lemma GatherStart(cells: seq<Cell>, cell: Cell)
    ensures Gathered(cells, cell, 0, false, [])
  {
  }

  lemma GatherEnd(cells: seq<Cell>, cell: Cell, inserted: bool, over: seq<Cell>)
    requires Gathered(cells, cell, |cells|, inserted, over)
    ensures Overfull(cells, cell) == if inserted then over else over + [cell]
  {
    assert cells[..|cells|] == cells;
  }

  lemma GatherStep(cells: seq<Cell>, cell: Cell, i: nat, inserted: bool, over: seq<Cell>)
    requires i < |cells| && Gathered(cells, cell, i, inserted, over)
    ensures if inserted || cell.key < cells[i].key
            then Gathered(cells, cell, i + 1, true, over + if inserted then [cells[i]] else [cell, cells[i]])
            else Gathered(cells, cell, i + 1, false, over + [cells[i]])
  {
    assert cells[..i + 1] == cells[..i] + [cells[i]];
  }

  /** A new node on page npage holding these cells, written out. */
  method BuildNode(pager: Pager, npage: nat, t: PageType, cells: seq<Cell>) returns (ghost b: seq<byte>)
    requires pager.Valid() && pager.pageSize >= MIN_PAGE && 1 <= npage <= pager.nPages && t.Known() && !t.Internal()
    requires Sound(cells, t) && Costs(cells) <= pager.pageSize - ArrayAt(npage, t)
    modifies pager`file
    ensures pager.Valid() && b in Images(npage, NewPage(npage, t, cells, 0, pager.pageSize))
    ensures pager.Contents() == old(pager.Contents())[npage := b]
  {
    var node := new BTreeNode.Create(npage, pager.pageSize, t);
    FillNode(node, cells, Page(t, [], 0, pager.pageSize - ArrayAt(npage, t)));
    b := StoreNode(pager, node, NewPage(npage, t, cells, 0, pager.pageSize));
  }

  predicate Sound(cells: seq<Cell>, t: PageType) {
    forall i :: 0 <= i < |cells| ==> cells[i].Type() == t && cells[i].Sized() && cells[i].Stored() == cells[i]
  }

  /** Two newly allocated pages made leaves with these cells. */
  method BuildLeaves(pager: Pager, t: PageType, left: seq<Cell>, right: seq<Cell>)
    returns (l: nat, r: nat, ghost bl: seq<byte>, ghost br: seq<byte>)
    requires pager.Valid() && pager.pageSize >= MIN_PAGE && (pager.nPages + 1) * pager.pageSize < FILE_SPAN
    requires t.Known() && !t.Internal() && Sound(left, t) && Sound(right, t)
    requires Costs(left) <= pager.pageSize - 8 && Costs(right) <= pager.pageSize - 8
    modifies pager
    ensures pager.Valid() && r == pager.nPages == l + 1 && l == old(pager.nPages) + 1 && r <= MAX_KEY
    ensures bl in Images(l, NewPage(l, t, left, 0, pager.pageSize))
        && br in Images(r, NewPage(r, t, right, 0, pager.pageSize))
    ensures pager.Contents() == old(pager.Contents())[l := bl][r := br]
  {
    hide Images, NewPage, Sound, Costs, Zeros;
    RoomForTwo(pager.nPages, pager.pageSize);
    l := pager.AllocatePage();
    r := pager.AllocatePage();
    bl := BuildNode(pager, l, t, left);
    br := BuildNode(pager, r, t, right);
  }

  lemma RoomForTwo(n: nat, size: nat)
    requires size >= 2 && (n + 1) * size < FILE_SPAN
    ensures n * size < FILE_SPAN && n + 2 < FILE_SPAN
  {
    assert (n + 1) * size == n * size + size;
    assert (n + 1) * size >= (n + 1) * 2;
  }

  /** The page of the full leaf rebuilt as an internal page with one cell.  The page starts out
      zeroed: on page 1 this clears the file header. */
  method BuildRoot(pager: Pager, npage: nat, k: Kind, up: Cell, right: u32) returns (ghost b: seq<byte>)
    requires pager.Valid() && pager.pageSize >= MIN_PAGE && 1 <= npage <= pager.nPages
    requires up.Type() == k.InnerType() && up.Stored() == up
    modifies pager`file
    ensures pager.Valid() && b in Images(npage, NewPage(npage, k.InnerType(), [up], right, pager.pageSize))
    ensures pager.Contents() == old(pager.Contents())[npage := b]
  {
    var root := new BTreeNode.Create(npage, pager.pageSize, k.InnerType());
    ghost var empty := Page(k.InnerType(), [], 0, pager.pageSize - ArrayAt(npage, k.InnerType()));
    OneCell(empty, up, right);
    var _, written := InsertNonFull(pager, root, up, right, empty);
    b := written;
  }

  lemma OneCell(p: Page, up: Cell, right: nat)
    requires p.typ.Internal() && p.cells == []
    ensures Accepted(p, up, right) == p.(cells := [up], right := right, room := p.room - Costs([up]))
  {
    TotalOne(up);
    assert InsertedAt([], 0, up) == [up];
  }

  lemma SoundHalves(k: Kind, cells: seq<Cell>, cell: Cell, t: PageType)
    requires Sound(cells, t) && Sound([cell], t)
    ensures Sound(LeftHalf(k, cells, cell), t) && Sound(RightHalf(cells, cell), t)
    ensures Sound([Overfull(cells, cell)[|cells| / 2]], t)
  {
    assert Sound(Overfull(cells, cell), t) by {
      assert [cell][0] == cell;
    }
  }

  /** The cells of the overfull leaf around their median. */
  method Halve(node: BTreeNode, cell: Cell, k: Kind, ghost p: Page)
    returns (left: seq<Cell>, median: Cell, right: seq<Cell>)
    requires node.Valid() && Decoded(node.Value()) == p && p.typ == k.LeafType()
    requires Sound([cell], p.typ)
    ensures left == LeftHalf(k, p.cells, cell) && right == RightHalf(p.cells, cell)
    ensures median == Overfull(p.cells, cell)[|p.cells| / 2] && Sound([median], p.typ)
    ensures Sound(left, p.typ) && Sound(right, p.typ)
  {
    var medianIndex := node.nCells / 2;
    var overfull := GatherOverfull(node, cell, p.cells);
    PageCellsStored(node.Value());
    SoundHalves(k, p.cells, cell, p.typ);
    left := if node.typ == TableLeaf then overfull[..medianIndex + 1] else overfull[..medianIndex];
    median := overfull[medianIndex];
    right := overfull[medianIndex + 1..];
  }

  lemma PromotedStored(k: Kind, median: Cell, l: nat)
    requires Sound([median], k.LeafType()) && l <= MAX_KEY
    ensures Promoted(k, median, l).Type() == k.InnerType() && Promoted(k, median, l).Stored() == Promoted(k, median, l)
  {
    assert [median][0] == median;
  }

  lemma SplitPagesAre(p: Page, k: Kind, c: Cell, npage: nat, l: nat, r: nat, pageSize: nat,
                      left: seq<Cell>, median: Cell, right: seq<Cell>)
    requires l <= MAX_KEY && p.typ == k.LeafType()
    requires left == LeftHalf(k, p.cells, c) && right == RightHalf(p.cells, c)
    requires median == Overfull(p.cells, c)[|p.cells| / 2]
    ensures NewPage(l, p.typ, left, 0, pageSize) == LeftPage(p, k, c, l, pageSize)
    ensures NewPage(r, p.typ, right, 0, pageSize) == RightPage(p, k, c, r, pageSize)
    ensures NewPage(npage, k.InnerType(), [Promoted(k, median, l)], r, pageSize) ==
        RootPage(p, k, c, npage, l, r, pageSize)
  {
  }

  /** The two leaves and the internal page over them, written out. */
  method WriteSplit(pager: Pager, npage: nat, k: Kind, left: seq<Cell>, median: Cell, right: seq<Cell>)
    returns (ghost bl: seq<byte>, ghost br: seq<byte>, ghost b: seq<byte>)
    requires pager.Valid() && pager.pageSize >= MIN_PAGE && (pager.nPages + 1) * pager.pageSize < FILE_SPAN
    requires 1 <= npage <= pager.nPages
    requires Sound(left, k.LeafType()) && Sound([median], k.LeafType()) && Sound(right, k.LeafType())
    requires Costs(left) <= pager.pageSize - 8 && Costs(right) <= pager.pageSize - 8
    modifies pager
    ensures pager.Valid() && pager.nPages == old(pager.nPages) + 2 <= MAX_KEY
    ensures bl in Images(pager.nPages - 1, NewPage(pager.nPages - 1, k.LeafType(), left, 0, pager.pageSize))
    ensures br in Images(pager.nPages, NewPage(pager.nPages, k.LeafType(), right, 0, pager.pageSize))
    ensures b in Images(npage, NewPage(npage, k.InnerType(), [Promoted(k, median, pager.nPages - 1)], pager.nPages,
        pager.pageSize))
    ensures pager.Contents() == old(pager.Contents())[pager.nPages - 1 := bl][pager.nPages := br][npage := b]
  {
    var l, r;
    l, r, bl, br := BuildLeaves(pager, k.LeafType(), left, right);
    PromotedStored(k, median, l);
    b := BuildRoot(pager, npage, k, Promoted(k, median, l), r);
  }

  /** Lines 708-800: the full leaf p becomes an internal page over two newly allocated leaves. */
  method SplitLeaf(pager: Pager, node: BTreeNode, cell: Cell, k: Kind, ghost p: Page)
    returns (ghost bl: seq<byte>, ghost br: seq<byte>, ghost b: seq<byte>)
    requires pager.Valid() && pager.pageSize >= MIN_PAGE && (pager.nPages + 1) * pager.pageSize < FILE_SPAN
    requires node.Valid() && Decoded(node.Value()) == p && 1 <= node.page.npage <= pager.nPages
    requires p.typ == k.LeafType() && Sound([cell], p.typ)
    requires SplitFits(k, p.cells, cell, pager.pageSize)
    modifies pager
    ensures pager.Valid() && pager.nPages == old(pager.nPages) + 2 <= MAX_KEY
    ensures bl in Images(pager.nPages - 1, LeftPage(p, k, cell, pager.nPages - 1, pager.pageSize))
    ensures br in Images(pager.nPages, RightPage(p, k, cell, pager.nPages, pager.pageSize))
    ensures b in Images(node.page.npage, RootPage(p, k, cell, node.page.npage, pager.nPages - 1, pager.nPages,
        pager.pageSize))
    ensures pager.Contents() == old(pager.Contents())[pager.nPages - 1 := bl][pager.nPages := br][node.page.npage := b]
  {
    hide LeftHalf, RightHalf, Overfull, NewPage, LeftPage, RightPage, RootPage, Images, InsertedAt, Sound;
    var left, median, right := Halve(node, cell, k, p);
    bl, br, b := WriteSplit(pager, node.page.npage, k, left, median, right);
    SplitPagesAre(p, k, cell, node.page.npage, pager.nPages - 1, pager.nPages, pager.pageSize, left, median, right);
  }

  /** What holds of the child the descent goes on with. */
  lemma DescendStep(ns: Store, k: Kind, sh: Shape, key: nat, lo: int, hi: int)
    requires IsTree(ns, k, sh, lo, hi) && sh.Inner? && lo < key <= hi
    ensures var p, s := ns[sh.page], Slot(ns[sh.page].cells, key);
            if k.Index? && s < |p.cells| && p.cells[s].key == key then Descend(ns, k, sh, key) == Held
            else
              && Descend(ns, k, sh, key) == Descend(ns, k, sh.kids[s], key)
              && sh.kids[s].page == Child(p, s)
              && sh.kids[s] in Trees(ns, k, Low(p.cells, s, lo), High(k, p.cells, s, hi))
              && Low(p.cells, s, lo) < key <= High(k, p.cells, s, hi)
  {
    SlotBounds(k, ns[sh.page], k.InnerType(), key, lo, hi);
  }

  /** An entry of the path from the root to the node in hand. */
  class PathEntry {
    var val: BTreeNode
    var next: PathEntry?
    var prev: PathEntry?

    constructor (val: BTreeNode)
      ensures this.val == val
    {
      this.val := val;
      next, prev := null, null;
    }
  }

  /** The next node down becomes the value of the one entry, which is linked behind itself. */
  method Enter(pager: Pager, npage: nat, current: PathEntry, tail: PathEntry) returns (node: BTreeNode)
    requires pager.Valid() && pager.pageSize >= MIN_PAGE && npage in View(pager.Contents()) && tail == current
    modifies current
    ensures fresh(node) && fresh(node.page) && fresh(node.page.data)
    ensures node.Valid() && node.page.npage == npage && node.page.data.Length == pager.pageSize
    ensures Decoded(node.Value()) == View(pager.Contents())[npage]
    ensures current.val == node
  {
    node := LoadNode(pager, npage);
    current.val := node;
    tail.next := current;
    current.prev := tail;
  }

  /** Lines 663-704: the walk down to the leaf the key belongs to.  There is one path entry only, which
      is linked to itself, so the tail of the path is always the node in hand. */
  method FindLeaf(pager: Pager, nroot: nat, key: u32, ghost ns: Store, ghost k: Kind, ghost sh: Shape)
    returns (held: bool, node: BTreeNode, tail: PathEntry)
    requires pager.Valid() && pager.pageSize >= MIN_PAGE && View(pager.Contents()) == ns
    requires sh in Trees(ns, k, -1, MAX_KEY) && sh.page == nroot
    ensures fresh(node) && fresh(node.page) && fresh(node.page.data) && tail.val == node
    ensures held ==> Descend(ns, k, sh, key) == Held
    ensures !held ==> Descend(ns, k, sh, key) == At(node.page.npage) && node.page.npage in ns
    ensures !held ==> node.Valid() && Decoded(node.Value()) == ns[node.page.npage] && node.typ == k.LeafType()
    ensures !held ==> node.page.data.Length == pager.pageSize
  {
    hide Slot, Low, High, View, Load, Child, Separator, Walk, Once, PagesOf;
    node := LoadNode(pager, nroot);
    var current := new PathEntry(node);
    tail := current;
    ghost var cur, lo: int, hi: int := sh, -1, MAX_KEY;
    while !(node.typ == TableLeaf || node.typ == IndexLeaf)
      invariant fresh(node) && fresh(node.page) && fresh(node.page.data) && node.page.data.Length == pager.pageSize
      invariant fresh(current) && tail == current && current.val == node
      invariant cur in Trees(ns, k, lo, hi) && lo < key <= hi && node.page.npage == cur.page
      invariant node.Valid() && Decoded(node.Value()) == ns[cur.page]
      invariant Descend(ns, k, sh, key) == Descend(ns, k, cur, key)
      decreases cur
    {
      DescendStep(ns, k, cur, key, lo, hi);
      var taken, child := NextChild(node, key, ns[cur.page]);
      if taken {
        return true, node, tail;
      }
      ghost var cells := ns[cur.page].cells;
      ghost var s := Slot(cells, key);
      cur, lo, hi := cur.kids[s], Low(cells, s, lo), High(k, cells, s, hi);
      node := Enter(pager, child, current, tail);
      tail := current;
    }
    held := false;
  }

  lemma ImageView(pages: Pages, npage: nat, b: seq<byte>, p: Page)
    requires b in Images(npage, p)
    ensures View(pages[npage := b]) == View(pages)[npage := p]
  {
    ViewWrite(pages, npage, b);
  }

  lemma SplitView(pages: Pages, l: nat, bl: seq<byte>, left: Page, r: nat, br: seq<byte>, right: Page,
                  p: nat, b: seq<byte>, root: Page)
    requires bl in Images(l, left) && br in Images(r, right) && b in Images(p, root)
    ensures View(pages[l := bl][r := br][p := b]) == Three(View(pages), l, left, r, right, p, root)
  {
    ImageView(pages, l, bl, left);
    ImageView(pages[l := bl], r, br, right);
    ImageView(pages[l := bl][r := br], p, b, root);
  }

  /** Where is_insertable finds room there is enough, and the cell goes in without more ado. */
  predicate LeafAccepts(p: Page, c: Cell) {
    Accepted(p, c, MAX_KEY) == Fill(p, c) && (p.room >= Need(c) ==> Cost(c) <= p.room)
  }

  /** What the code knows when it reaches the leaf. */
  lemma LeafFacts(db: Db, k: Kind, c: Cell)
    requires WellFormed(db, k) && Storable(k, c) && Descend(db.ns, k, db.sh, c.key).At?
    ensures var p := TargetPage(db, k, c.key);
            && p in db.ns && 1 <= p <= db.nPages
            && SortedCells(db.ns[p].cells) && db.ns[p].typ == k.LeafType() == c.Type()
            && Sound([c], k.LeafType())
            && LeafAccepts(db.ns[p], c)
  {
    TargetIsLeaf(db.ns, k, db.sh, c.key, -1, MAX_KEY);
    NeedIsEnough(c);
  }

  /** The node in hand is the leaf the step changes. */
  ghost predicate AtLeaf(pager: Pager, node: BTreeNode, db: Db, k: Kind, c: Cell)
    reads pager, node, node.page, node.page.data
  {
    && pager.Valid() && pager.pageSize >= MIN_PAGE
    && db.ns == View(pager.Contents()) && db.nPages == pager.nPages && db.nPages + 2 <= MAX_KEY
    && node.Valid() && node.page.data.Length == pager.pageSize
    && 1 <= node.page.npage <= pager.nPages && node.page.npage in db.ns
    && Decoded(node.Value()) == db.ns[node.page.npage]
    && node.typ == k.LeafType() == c.Type() && Sound([c], k.LeafType())
    && SortedCells(db.ns[node.page.npage].cells)
  }

  /** Every page but p is what it was, and no page is lost. */
  ghost predicate SameBut(pages: Pages, pages': Pages, p: nat) {
    forall q :: q in pages && q != p ==> q in pages' && pages'[q] == pages[q]
  }

  lemma RoomOutcome(db: Db, k: Kind, c: Cell, npage: nat, pageSize: nat, pages: Pages, b: seq<byte>)
    requires db.nPages + 2 <= MAX_KEY && npage in db.ns && db.ns == View(pages)
    requires db.ns[npage].room >= Need(c) && !HasKey(db.ns[npage].cells, c.key)
    requires b in Images(npage, Fill(db.ns[npage], c))
    ensures LeafStep(db, k, c, npage, pageSize) == (Ok, Db(View(pages[npage := b]), db.nPages, db.sh))
    ensures SameBut(pages, pages[npage := b], npage)
  {
    ImageView(pages, npage, b, Fill(db.ns[npage], c));
  }

  method InsertInRoom(pager: Pager, node: BTreeNode, cell: Cell, ghost db: Db, ghost k: Kind) returns (status: Status)
    requires AtLeaf(pager, node, db, k, cell) && db.ns[node.page.npage].room >= Need(cell)
    requires LeafAccepts(db.ns[node.page.npage], cell)
    modifies pager`file, node, node.page.data
    ensures pager.Valid()
    ensures (status, Db(View(pager.Contents()), pager.nPages, db.sh)) ==
        LeafStep(db, k, cell, node.page.npage, pager.pageSize)
    ensures status.Duplicate? ==> pager.file == old(pager.file)
    ensures SameBut(old(pager.Contents()), pager.Contents(), node.page.npage)
  {
    hide View, Images, Accepted, Fill, HasKey;
    ghost var p, pages := db.ns[node.page.npage], pager.Contents();
    assert [cell][0] == cell;
    ghost var b;
    status, b := InsertNonFull(pager, node, cell, MAX_KEY, p);
    if status.Ok? {
      RoomOutcome(db, k, cell, node.page.npage, pager.pageSize, pages, b);
    }
  }

  /** The pages after a split, decoded. */
  lemma SplitOutcome(db: Db, k: Kind, c: Cell, p: nat, pageSize: nat, pages: Pages, pages': Pages,
                     bl: seq<byte>, br: seq<byte>, b: seq<byte>)
    requires db.nPages + 2 <= MAX_KEY && p in db.ns && db.ns == View(pages) && db.ns[p].room < Need(c)
    requires bl in Images(db.nPages + 1, LeftPage(db.ns[p], k, c, db.nPages + 1, pageSize))
    requires br in Images(db.nPages + 2, RightPage(db.ns[p], k, c, db.nPages + 2, pageSize))
    requires b in Images(p, RootPage(db.ns[p], k, c, p, db.nPages + 1, db.nPages + 2, pageSize))
    requires pages' == pages[db.nPages + 1 := bl][db.nPages + 2 := br][p := b]
    ensures LeafStep(db, k, c, p, pageSize) == (Ok, Db(View(pages'), db.nPages + 2, SplitShape(db, k, c.key, p)))
  {
    hide LeftPage, RightPage, RootPage, Images, View, Graft;
    var l, r := db.nPages + 1, db.nPages + 2;
    SplitView(pages, l, bl, LeftPage(db.ns[p], k, c, l, pageSize), r, br, RightPage(db.ns[p], k, c, r, pageSize),
              p, b, RootPage(db.ns[p], k, c, p, l, r, pageSize));
  }

  /** The shape after leaf p is split over the next two pages. */
  function SplitShape(db: Db, k: Kind, key: nat, p: nat): Shape {
    Graft(db.ns, k, db.sh, key, Inner(p, [Leaf(db.nPages + 1), Leaf(db.nPages + 2)]))
  }

  lemma ThreeSameBut(pages: Pages, pages': Pages, n: nat, p: nat, bl: seq<byte>, br: seq<byte>, b: seq<byte>)
    requires forall q :: q in pages ==> q <= n
    requires pages' == pages[n + 1 := bl][n + 2 := br][p := b]
    ensures SameBut(pages, pages', p)
  {
  }

  method InsertBySplit(pager: Pager, node: BTreeNode, cell: Cell, ghost db: Db, k: Kind) returns (ghost sh': Shape)
    requires AtLeaf(pager, node, db, k, cell) && db.ns[node.page.npage].room < Need(cell)
    requires SplitFits(k, db.ns[node.page.npage].cells, cell, pager.pageSize)
    requires (pager.nPages + 1) * pager.pageSize < FILE_SPAN
    modifies pager
    ensures pager.Valid()
    ensures (Ok, Db(View(pager.Contents()), pager.nPages, sh')) ==
        LeafStep(db, k, cell, node.page.npage, pager.pageSize)
    ensures SameBut(old(pager.Contents()), pager.Contents(), node.page.npage)
  {
    hide LeftPage, RightPage, RootPage, Images, View, Graft, SameBut, Sound, LeafStep, SplitFits, SplitShape;
    ghost var npage, pages := node.page.npage, pager.Contents();
    ghost var bl, br, b := SplitLeaf(pager, node, cell, k, db.ns[npage]);
    SplitOutcome(db, k, cell, npage, pager.pageSize, pages, pager.Contents(), bl, br, b);
    ThreeSameBut(pages, pager.Contents(), db.nPages, npage, bl, br, b);
    sh' := SplitShape(db, k, cell.key, npage);
  }

  /** The loop of lines 705-807 at the leaf.  The path ends at the node in hand, so the node counts as
      the root and the loop splits at most once. */
  method InsertAtLeaf(pager: Pager, node: BTreeNode, tail: PathEntry, cell: Cell, ghost db: Db, ghost k: Kind)
    returns (status: Status, ghost sh': Shape)
    requires AtLeaf(pager, node, db, k, cell) && LeafAccepts(db.ns[node.page.npage], cell) && tail.val == node
    requires db.ns[node.page.npage].room < Need(cell) ==>
               SplitFits(k, db.ns[node.page.npage].cells, cell, pager.pageSize)
                   && (pager.nPages + 1) * pager.pageSize < FILE_SPAN
    modifies pager, node, node.page.data
    ensures pager.Valid()
    ensures (status, Db(View(pager.Contents()), pager.nPages, sh')) ==
        LeafStep(db, k, cell, node.page.npage, pager.pageSize)
    ensures status.Duplicate? ==> pager.file == old(pager.file) && pager.nPages == old(pager.nPages)
    ensures SameBut(old(pager.Contents()), pager.Contents(), node.page.npage)
  {
    hide View, Images, SameBut, Sound, Accepted, Fill, SplitFits, SortedCells, LeafStep;
    sh' := db.sh;
    var isTable := cell.TableLeafCell?;
    var insertable := node.IsInsertable(cell);
    if !insertable {
      var isRoot := tail.val == node;
      if !isRoot {
        assert false;
      }
      sh' := InsertBySplit(pager, node, cell, db, if isTable then Table else Index);
      status := Ok;
    } else {
      status := InsertInRoom(pager, node, cell, db, k);
    }
  }

  /** chidb_Btree_insert: the outcome, the pages and the shape are those of the step, and the bytes
      of every old page but the target leaf are what they were. */
  method Insert(pager: Pager, nroot: nat, cell: Cell, ghost k: Kind, ghost sh: Shape)
    returns (status: Status, ghost sh': Shape)
    requires pager.Valid() && pager.pageSize >= MIN_PAGE && sh.page == nroot
    requires WellFormed(DbOf(pager, sh), k) && Storable(k, cell)
    requires StepFits(DbOf(pager, sh), k, cell, pager.pageSize)
    modifies pager
    ensures pager.Valid()
    ensures (status, DbOf(pager, sh')) == Step(old(DbOf(pager, sh)), k, cell, pager.pageSize)
    ensures status.Duplicate? ==> pager.file == old(pager.file) && pager.nPages == old(pager.nPages)
    ensures SameBut(old(pager.Contents()), pager.Contents(), TargetPage(old(DbOf(pager, sh)), k, cell.key))
  {
    hide View, Images, LeafStep, Sound, Accepted, Fill, SplitFits, IsTree, Once, PagesOf, SortedCells, Descend,
         LeafAccepts, HasKey, Decoded, Need;
    ghost var db := DbOf(pager, sh);
    var held, node, tail := FindLeaf(pager, nroot, cell.key, db.ns, k, sh);
    if held {
      return Duplicate, sh;
    }
    LeafFacts(db, k, cell);
    status, sh' := InsertAtLeaf(pager, node, tail, cell, db, k);
  }

  /** Insertion into a table and search afterwards, on the pages of the file: the new key gives
      exactly the inserted bytes, every other key what the table held under it before. */
  method InsertThenFind(pager: Pager, nroot: nat, cell: Cell, key: u32, ghost sh: Shape)
    returns (inserted: Status, status: Status, data: seq<byte>)
    requires pager.Valid() && pager.pageSize >= MIN_PAGE && sh.page == nroot
    requires WellFormed(DbOf(pager, sh), Table) && Storable(Table, cell)
    requires StepFits(DbOf(pager, sh), Table, cell, pager.pageSize)
    requires Tree.Find(Walk(View(pager.Contents()), Table, sh), cell.key) == Missing
    modifies pager
    ensures inserted == Ok
    ensures key == cell.key ==> status == Ok && data == cell.data
    ensures key != cell.key ==> match old(Tree.Find(Walk(View(pager.Contents()), Table, sh), key))
                                case Missing => status == NotFound
                                case Hit(e) => status == Ok && e == Row(key, data)
  {
    ghost var db := DbOf(pager, sh);
    StepRefinesMap(db, Table, cell, pager.pageSize, key);
    StepInserts(db, Table, cell, pager.pageSize);
    ghost var sh';
    inserted, sh' := Insert(pager, nroot, cell, Table, sh);
    status, data := FindRow(pager, nroot, key, sh', -1, MAX_KEY);
  }

  lemma EmptyPage(npage: nat, t: PageType, size: u16)
    requires npage >= 1 && MIN_PAGE <= size && t.Known()
    ensures EmptyNode(npage, t, Zeros(size)).Valid()
    ensures Synced(EmptyNode(npage, t, Zeros(size))) in Images(npage, Page(t, [], 0, size - ArrayAt(npage, t)))
  {
    var r := EmptyNode(npage, t, Zeros(size));
    assert r.Cells() == [] && r.Offs() == [];
    DecodedSynced(r);
  }

  lemma FreshLeaf(pages: Pages, npage: nat, k: Kind, room: int)
    requires npage >= 1 && npage + 2 <= MAX_KEY && forall q :: q in pages ==> 1 <= q < npage
    ensures var ns := View(pages)[npage := Page(k.LeafType(), [], 0, room)];
            WellFormed(Db(ns, npage, Leaf(npage)), k) && Walk(ns, k, Leaf(npage)) == []
  {
  }

  /** A new leaf is a tree without entries: the state every run of insertions can start from. */
  method NewTree(pager: Pager, ghost k: Kind, t: PageType) returns (npage: nat)
    requires pager.Valid() && pager.pageSize >= MIN_PAGE && t == k.LeafType()
    requires pager.nPages * pager.pageSize < FILE_SPAN && pager.nPages + 3 <= MAX_KEY
    modifies pager
    ensures pager.Valid() && npage == pager.nPages == old(pager.nPages) + 1
    ensures WellFormed(DbOf(pager, Leaf(npage)), k) && Walk(View(pager.Contents()), k, Leaf(npage)) == []
    ensures View(pager.Contents()) ==
        View(old(pager.Contents()))[npage := Page(t, [], 0, pager.pageSize - ArrayAt(npage, t))]
  {
    hide View, Images, WellFormed, Walk, Synced, EmptyNode;
    ghost var pages := pager.Contents();
    EmptyPage(pager.nPages + 1, t, pager.pageSize);
    FreshLeaf(pages, pager.nPages + 1, k, pager.pageSize - ArrayAt(pager.nPages + 1, t));
    var _, n := NewNode(pager, t);
    npage := n;
    ImageView(pages, npage, Synced(EmptyNode(npage, t, Zeros(pager.pageSize))), Page(t, [], 0,
        pager.pageSize - ArrayAt(npage, t)));
  }
}
