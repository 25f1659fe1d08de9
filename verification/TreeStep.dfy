/** One insertion as a step on the pages of the file: what it inserts and when the pages can hold it
    (db/src/libchidb/btree.c:659-858). */
module TreeStep {
  import opened Paging
  import opened Layout
  import opened Tree
  import opened TreeDefs
  import opened TreeInsert
  import opened Nodes

  lemma FindEntries(cs: seq<Cell>, key: nat)
    ensures Find(Entries(cs), key).Hit? <==> HasKey(cs, key)
  {
    if cs != [] {
      assert Entries(cs)[1..] == Entries(cs[1..]);
      FindEntries(cs[1..], key);
      if HasKey(cs[1..], key) {
        var i :| 0 <= i < |cs[1..]| && cs[1..][i].key == key;
        assert cs[i + 1].key == key;
      }
      if HasKey(cs, key) && cs[0].key != key {
        var i :| 0 <= i < |cs| && cs[i].key == key;
        assert cs[1..][i - 1].key == key;
      }
    }
  }

  /** The whole tree holds the key if and only if the descent ends at an internal cell with it or
      at a leaf that holds it. */
  lemma {:induction false} FindAtTarget(ns: Store, k: Kind, sh: Shape, key: nat, lo: int, hi: int)
    requires IsTree(ns, k, sh, lo, hi) && lo < key <= hi
    ensures match Descend(ns, k, sh, key)
            case Held => Find(Walk(ns, k, sh), key).Hit?
            case At(p) => p in ns && Find(Walk(ns, k, sh), key) == Find(Entries(ns[p].cells), key)
    decreases sh
  {
    if sh.Inner? {
      FindDescends(ns, k, sh, key, lo, hi);
      var i := Slot(ns[sh.page].cells, key);
      SlotBounds(k, ns[sh.page], k.InnerType(), key, lo, hi);
      if Descend(ns, k, sh, key) != Held {
        FindAtTarget(ns, k, sh.kids[i], key, Low(ns[sh.page].cells, i, lo), High(k, ns[sh.page].cells, i, hi));
      } else if !(k.Index? && i < |ns[sh.page].cells| && ns[sh.page].cells[i].key == key) {
        FindAtTarget(ns, k, sh.kids[i], key, Low(ns[sh.page].cells, i, lo), High(k, ns[sh.page].cells, i, hi));
      }
    }
  }

  /** In a table the descent finds what the whole traversal holds. */
  lemma {:induction false} TreeLookUp(ns: Store, sh: Shape, key: nat, lo: int, hi: int)
    requires IsTree(ns, Table, sh, lo, hi) && lo < key <= hi
    ensures LookUp(ns, sh, key) == Find(Walk(ns, Table, sh), key)
    decreases sh
  {
    if sh.Inner? {
      FindDescends(ns, Table, sh, key, lo, hi);
      SlotBounds(Table, ns[sh.page], TableInternal, key, lo, hi);
      var cs, i := ns[sh.page].cells, Slot(ns[sh.page].cells, key);
      TreeLookUp(ns, sh.kids[i], key, Low(cs, i, lo), High(Table, cs, i, hi));
    }
  }

  lemma {:induction false} TreeLaid(ns: Store, k: Kind, sh: Shape, lo: int, hi: int)
    requires IsTree(ns, k, sh, lo, hi)
    ensures Laid(ns, k, sh)
    decreases sh
  {
    if sh.Inner? {
      forall i | 0 <= i < |sh.kids|
        ensures Laid(ns, k, sh.kids[i])
      {
        TreeLaid(ns, k, sh.kids[i], Low(ns[sh.page].cells, i, lo), High(k, ns[sh.page].cells, i, hi));
      }
    }
  }

  /** The target of a descent is a leaf page whose cells fit any bounds the key leads to. */
  lemma {:induction false} TargetIsLeaf(ns: Store, k: Kind, sh: Shape, key: nat, lo: int, hi: int)
    requires IsTree(ns, k, sh, lo, hi) && lo < key <= hi && Descend(ns, k, sh, key).At?
    ensures var p := Descend(ns, k, sh, key).page;
            p in ns && PageFits(ns[p], k.LeafType(), lo, hi)
    decreases sh
  {
    if sh.Inner? {
      var i := Slot(ns[sh.page].cells, key);
      SlotBounds(k, ns[sh.page], k.InnerType(), key, lo, hi);
      LowHigh(k, ns[sh.page], k.InnerType(), i, lo, hi);
      TargetIsLeaf(ns, k, sh.kids[i], key, Low(ns[sh.page].cells, i, lo), High(k, ns[sh.page].cells, i, hi));
    }
  }

  lemma OverfullFits(cs: seq<Cell>, c: Cell, t: PageType, lo: int, hi: int)
    requires CellsFit(cs, t, lo, hi) && !HasKey(cs, c.key) && c.Type() == t && lo < c.key <= hi
    ensures CellsFit(Overfull(cs, c), t, lo, hi)
  {
    InsertSorted(cs, c);
  }

  /** Room in the leaf: the leaf with the new cell replaces the leaf. */
  lemma FillReplaces(ns: Store, k: Kind, p: nat, c: Cell, lo: int, hi: int)
    requires p in ns && PageFits(ns[p], k.LeafType(), lo, hi) && Storable(k, c) && !HasKey(ns[p].cells, c.key)
    ensures Replaces(ns, ns[p := Fill(ns[p], c)], k, p, Leaf(p), EntryOf(c))
  {
    InsertIsPut(ns[p].cells, c);
    forall l: int, h: int | PageFits(ns[p], k.LeafType(), l, h) && l < c.key <= h
      ensures CellsFit(Overfull(ns[p].cells, c), k.LeafType(), l, h)
    {
      OverfullFits(ns[p].cells, c, k.LeafType(), l, h);
    }
  }

  /** The parts of a sorted run around position m. */
  lemma PartsFit(over: seq<Cell>, m: nat, t: PageType, lo: int, hi: int)
    requires CellsFit(over, t, lo, hi) && m < |over|
    ensures CellsFit(over[..m], t, lo, over[m].key - 1)
    ensures CellsFit(over[..m + 1], t, lo, over[m].key)
    ensures CellsFit(over[m + 1..], t, over[m].key, hi)
  {
  }

  /** The left half, the promoted median of an index, and the right half list the overfull leaf. */
  lemma HalvesList(k: Kind, cs: seq<Cell>, c: Cell, left: nat)
    requires left <= MAX_KEY && (k.Index? ==> Overfull(cs, c)[|cs| / 2].IndexLeafCell?)
    ensures var over := Overfull(cs, c);
            Entries(LeftHalf(k, cs, c))
              + (if k.Index? then [EntryOf(Promoted(k, over[|cs| / 2], left))] else [])
              + Entries(RightHalf(cs, c)) == Entries(over)
  {
  }

  lemma SplitIsTree(ns: Store, ns': Store, k: Kind, p: nat, c: Cell, l: nat, r: nat, lo: int, hi: int)
    requires SplitAt(ns, ns', k, p, c, l, r)
    requires PageFits(ns[p], k.LeafType(), lo, hi) && lo < c.key <= hi
    requires c.Type() == k.LeafType() && !HasKey(ns[p].cells, c.key)
    ensures IsTree(ns', k, Inner(p, [Leaf(l), Leaf(r)]), lo, hi)
  {
    var cs := ns[p].cells;
    OverfullFits(cs, c, k.LeafType(), lo, hi);
    PartsFit(Overfull(cs, c), |cs| / 2, k.LeafType(), lo, hi);
    TwoLeaves(ns', k, p, l, r, lo, hi);
  }

  lemma TwoLeaves(ns: Store, k: Kind, p: nat, l: nat, r: nat, lo: int, hi: int)
    requires p in ns && l in ns && r in ns
    requires PageFits(ns[p], k.InnerType(), lo, hi) && |ns[p].cells| == 1
    requires ChildOf(ns[p].cells[0]) == l && ns[p].right == r
    requires PageFits(ns[l], k.LeafType(), lo, High(k, ns[p].cells, 0, hi))
    requires PageFits(ns[r], k.LeafType(), ns[p].cells[0].key, hi)
    ensures IsTree(ns, k, Inner(p, [Leaf(l), Leaf(r)]), lo, hi)
  {
    var sub := Inner(p, [Leaf(l), Leaf(r)]);
    assert IsTree(ns, k, sub.kids[0], lo, High(k, ns[p].cells, 0, hi));
    assert IsTree(ns, k, sub.kids[1], ns[p].cells[0].key, hi);
  }

  lemma SplitWalk(ns: Store, ns': Store, k: Kind, p: nat, c: Cell, l: nat, r: nat)
    requires SplitAt(ns, ns', k, p, c, l, r)
    requires k.Index? ==> forall i :: 0 <= i < |ns[p].cells| ==> ns[p].cells[i].IndexLeafCell?
    requires c.Type() == k.LeafType()
    ensures Walk(ns', k, Inner(p, [Leaf(l), Leaf(r)])) == Entries(Overfull(ns[p].cells, c))
  {
    TwoLeafWalk(ns', k, p, l, r);
    HalvesList(k, ns[p].cells, c, l);
  }

  lemma TwoLeafWalk(ns: Store, k: Kind, p: nat, l: nat, r: nat)
    requires p in ns && l in ns && r in ns && |ns[p].cells| == 1
    ensures Walk(ns, k, Inner(p, [Leaf(l), Leaf(r)])) ==
              Entries(ns[l].cells) + Separator(ns[p], k, 0) + Entries(ns[r].cells)
  {
    var sub := Inner(p, [Leaf(l), Leaf(r)]);
    assert Walk(ns, k, sub.kids[0]) == Entries(ns[l].cells);
    assert Walk(ns, k, sub.kids[1]) == Entries(ns[r].cells);
    assert WalkFrom(ns, k, sub, 2) == [];
    assert WalkFrom(ns, k, sub, 1) == Entries(ns[r].cells);
    assert WalkFrom(ns, k, sub, 0) == Entries(ns[l].cells) + Separator(ns[p], k, 0) + Entries(ns[r].cells);
  }

  /** No room: the three pages of the split replace the leaf. */
  lemma SplitReplaces(ns: Store, ns': Store, k: Kind, p: nat, c: Cell, l: nat, r: nat, lo: int, hi: int)
    requires SplitAt(ns, ns', k, p, c, l, r)
    requires PageFits(ns[p], k.LeafType(), lo, hi) && Storable(k, c) && !HasKey(ns[p].cells, c.key)
    ensures Replaces(ns, ns', k, p, Inner(p, [Leaf(l), Leaf(r)]), EntryOf(c))
  {
    forall lo': int, hi': int | PageFits(ns[p], k.LeafType(), lo', hi') && lo' < c.key <= hi'
      ensures IsTree(ns', k, Inner(p, [Leaf(l), Leaf(r)]), lo', hi')
    {
      SplitIsTree(ns, ns', k, p, c, l, r, lo', hi');
    }
    SplitWalk(ns, ns', k, p, c, l, r);
    InsertIsPut(ns[p].cells, c);
  }

  lemma PagesOfSplit(p: nat, l: nat, r: nat)
    requires l != r && l != p && r != p
    ensures var sub := Inner(p, [Leaf(l), Leaf(r)]);
            PagesOf(sub) == {p, l, r} && Once(sub)
  {
    var sub := Inner(p, [Leaf(l), Leaf(r)]);
    assert PagesOf(sub.kids[0]) == {l} && PagesOf(sub.kids[1]) == {r};
    assert l in PagesOf(sub) && r in PagesOf(sub);
  }

  lemma AbsentIsReady(db: Db, k: Kind, c: Cell)
    requires WellFormed(db, k) && Storable(k, c) && Find(Walk(db.ns, k, db.sh), c.key) == Missing
    ensures Ready(db, k, c)
  {
    FindAtTarget(db.ns, k, db.sh, c.key, -1, MAX_KEY);
    var p := TargetPage(db, k, c.key);
    FindEntries(db.ns[p].cells, c.key);
    TargetIsLeaf(db.ns, k, db.sh, c.key, -1, MAX_KEY);
    TargetInPages(db.ns, k, db.sh, c.key);
  }

  /** A part that replaces the target leaf, and brings only pages the tree does not have yet,
      inserts the entry. */
  lemma GraftStep(db: Db, ns': Store, n': nat, k: Kind, e: Entry, p: nat, sub: Shape)
    requires IsTree(db.ns, k, db.sh, -1, MAX_KEY) && Once(db.sh) && e.key <= MAX_KEY
    requires Descend(db.ns, k, db.sh, e.key) == At(p)
    requires Replaces(db.ns, ns', k, p, sub, e) && Agree(db.ns, ns', PagesOf(db.sh) - {p})
    requires Once(sub) && PagesOf(sub) * PagesOf(db.sh) == {p}
    ensures Inserted(db, Db(ns', n', Graft(db.ns, k, db.sh, e.key, sub)), k, e)
    ensures PagesOf(Graft(db.ns, k, db.sh, e.key, sub)) == PagesOf(db.sh) + PagesOf(sub)
  {
    GraftInserts(db.ns, ns', k, db.sh, e, sub, -1, MAX_KEY);
    GraftOnce(db.ns, k, db.sh, e.key, sub);
  }

  lemma FillInserts(db: Db, k: Kind, c: Cell)
    requires Ready(db, k, c)
    ensures Inserted(db, Filled(db, c, TargetPage(db, k, c.key)), k, EntryOf(c))
  {
    var p := TargetPage(db, k, c.key);
    FillReplaces(db.ns, k, p, c, -1, MAX_KEY);
    GraftStep(db, db.ns[p := Fill(db.ns[p], c)], db.nPages, k, EntryOf(c), p, Leaf(p));
    GraftSame(db.ns, k, db.sh, c.key);
  }

  /** The three pages of a split replace the leaf. */
  lemma PagesReplace(ns: Store, k: Kind, c: Cell, p: nat, l: nat, r: nat, left: Page, right: Page, root: Page)
    requires p in ns && l <= MAX_KEY && l != r && l != p && r != p
    requires SplitInto(ns[p], k, c, l, r, left, right, root)
    requires PageFits(ns[p], k.LeafType(), -1, MAX_KEY) && Storable(k, c) && !HasKey(ns[p].cells, c.key)
    ensures Replaces(ns, Three(ns, l, left, r, right, p, root), k, p, Inner(p, [Leaf(l), Leaf(r)]), EntryOf(c))
  {
    assert SplitAt(ns, Three(ns, l, left, r, right, p, root), k, p, c, l, r);
    SplitReplaces(ns, Three(ns, l, left, r, right, p, root), k, p, c, l, r, -1, MAX_KEY);
  }

  /** A split step inserts the entry. */
  lemma SplitStep(db: Db, k: Kind, c: Cell, left: Page, right: Page, root: Page)
    requires db.nPages + 2 <= MAX_KEY && TargetPage(db, k, c.key) in db.ns
    ensures Ready(db, k, c)
      && SplitInto(db.ns[TargetPage(db, k, c.key)], k, c, db.nPages + 1, db.nPages + 2, left, right, root)
      ==> Inserted(db, ReplaceLeaf(db, k, c.key, TargetPage(db, k, c.key), left, right, root), k, EntryOf(c))
  {
    if Ready(db, k, c)
      && SplitInto(db.ns[TargetPage(db, k, c.key)], k, c, db.nPages + 1, db.nPages + 2, left, right, root) {
      var p := TargetPage(db, k, c.key);
      PagesReplace(db.ns, k, c, p, db.nPages + 1, db.nPages + 2, left, right, root);
      SplitInserts(db, k, EntryOf(c), p, left, right, root);
    }
  }

  lemma SplitInserts(db: Db, k: Kind, e: Entry, p: nat, left: Page, right: Page, root: Page)
    requires IsTree(db.ns, k, db.sh, -1, MAX_KEY) && Once(db.sh) && e.key <= MAX_KEY
    requires forall q :: q in PagesOf(db.sh) ==> 1 <= q <= db.nPages
    requires Descend(db.ns, k, db.sh, e.key) == At(p)
    requires var l, r := db.nPages + 1, db.nPages + 2;
             Replaces(db.ns, Three(db.ns, l, left, r, right, p, root), k, p, Inner(p, [Leaf(l), Leaf(r)]), e)
    ensures Inserted(db, ReplaceLeaf(db, k, e.key, p, left, right, root), k, e)
  {
    hide IsTree, Once, PagesOf, Replaces, Agree, Inserted, Graft, Descend, Three, Walk;
    var l, r := db.nPages + 1, db.nPages + 2;
    TargetInPages(db.ns, k, db.sh, e.key);
    FreshSplit(db.sh, db.nPages, p);
    ThreeAgree(db.ns, l, left, r, right, p, root, PagesOf(db.sh) - {p});
    GraftStep(db, Three(db.ns, l, left, r, right, p, root), r, k, e, p, Inner(p, [Leaf(l), Leaf(r)]));
  }

  lemma FreshSplit(sh: Shape, n: nat, p: nat)
    requires (forall q :: q in PagesOf(sh) ==> 1 <= q <= n) && p in PagesOf(sh)
    ensures n + 1 !in PagesOf(sh) && n + 2 !in PagesOf(sh)
    ensures var sub := Inner(p, [Leaf(n + 1), Leaf(n + 2)]);
            Once(sub) && PagesOf(sub) * PagesOf(sh) == {p} && PagesOf(sub) == {p, n + 1, n + 2}
  {
    PagesOfSplit(p, n + 1, n + 2);
  }

  lemma ThreeAgree(ns: Store, l: nat, left: Page, r: nat, right: Page, p: nat, root: Page, ps: set<nat>)
    requires l !in ps && r !in ps && p !in ps
    ensures Agree(ns, Three(ns, l, left, r, right, p, root), ps)
  {
  }

  lemma {:induction false} GraftSame(ns: Store, k: Kind, sh: Shape, key: nat)
    requires Descend(ns, k, sh, key).At?
    ensures Graft(ns, k, sh, key, Leaf(Descend(ns, k, sh, key).page)) == sh
    decreases sh
  {
    if sh.Inner? {
      GraftSame(ns, k, sh.kids[Slot(ns[sh.page].cells, key)], key);
    }
  }

  lemma PagesAreSplit(p: Page, k: Kind, c: Cell, npage: nat, l: nat, r: nat, pageSize: nat)
    requires l <= MAX_KEY
    ensures SplitInto(p, k, c, l, r, LeftPage(p, k, c, l, pageSize), RightPage(p, k, c, r, pageSize),
                      RootPage(p, k, c, npage, l, r, pageSize))
  {
  }

  lemma LeafSplitInserts(db: Db, k: Kind, c: Cell, pageSize: nat)
    requires Ready(db, k, c)
    ensures Inserted(db, Splitted(db, k, c, TargetPage(db, k, c.key), pageSize), k, EntryOf(c))
  {
    hide Inserted, LeftPage, RightPage, RootPage, SplitInto, Graft, Three, LeftHalf, RightHalf;
    var p := TargetPage(db, k, c.key);
    PagesAreSplit(db.ns[p], k, c, p, db.nPages + 1, db.nPages + 2, pageSize);
    SplitStep(db, k, c, LeftPage(db.ns[p], k, c, db.nPages + 1, pageSize),
              RightPage(db.ns[p], k, c, db.nPages + 2, pageSize),
              RootPage(db.ns[p], k, c, p, db.nPages + 1, db.nPages + 2, pageSize));
  }

  /** A page built from an empty one holds its cells exactly when they fit. */
  lemma NewPageOk(q: nat, t: PageType, cs: seq<Cell>, right: nat, pageSize: nat)
    ensures RoomOk(q, NewPage(q, t, cs, right, pageSize), pageSize) <==> Costs(cs) <= pageSize - ArrayAt(q, t)
  {
  }

  /** The internal page over the halves holds one cell, which always fits. */
  lemma RootPageOk(p: Page, k: Kind, c: Cell, npage: nat, l: nat, r: nat, pageSize: nat)
    requires l <= MAX_KEY && pageSize >= MIN_PAGE
    ensures RoomOk(npage, RootPage(p, k, c, npage, l, r, pageSize), pageSize)
  {
    hide Overfull, NewPage;
    TotalOne(RootCell(p, k, c, l));
    NewPageOk(npage, k.InnerType(), [RootCell(p, k, c, l)], r, pageSize);
  }

  lemma FillOk(q: nat, p: Page, c: Cell, pageSize: nat)
    requires RoomOk(q, p, pageSize) && p.room >= Need(c) && !c.IndexInternalCell?
    ensures RoomOk(q, Fill(p, c), pageSize)
  {
    NeedIsEnough(c);
    TotalInsert(p.cells, Gap(p.cells, c.key), c);
  }

  lemma ThreeOk(ns: Store, l: nat, left: Page, r: nat, right: Page, p: nat, root: Page, pageSize: nat)
    requires PagesFit(ns, pageSize) && l != r && l != p && r != p
    ensures PagesFit(Three(ns, l, left, r, right, p, root), pageSize) <==>
        RoomOk(l, left, pageSize) && RoomOk(r, right, pageSize) && RoomOk(p, root, pageSize)
  {
    hide RoomOk;
    var ns' := Three(ns, l, left, r, right, p, root);
    assert ns'[l] == left && ns'[r] == right && ns'[p] == root;
  }

  lemma SplitOk(db: Db, k: Kind, c: Cell, p: nat, pageSize: nat)
    requires PagesFit(db.ns, pageSize) && pageSize >= MIN_PAGE && p in db.ns && 1 <= p <= db.nPages
    requires db.nPages + 2 <= MAX_KEY
    ensures PagesFit(Splitted(db, k, c, p, pageSize).ns, pageSize) <==> SplitFits(k, db.ns[p].cells, c, pageSize)
  {
    hide RoomOk, Three, Overfull, NewPage, LeftHalf, RightHalf, RootPage, Graft, Costs;
    var page, l, r := db.ns[p], db.nPages + 1, db.nPages + 2;
    NewPageOk(l, k.LeafType(), LeftHalf(k, page.cells, c), 0, pageSize);
    NewPageOk(r, k.LeafType(), RightHalf(page.cells, c), 0, pageSize);
    RootPageOk(page, k, c, p, l, r, pageSize);
    ThreeOk(db.ns, l, LeftPage(page, k, c, l, pageSize), r, RightPage(page, k, c, r, pageSize),
            p, RootPage(page, k, c, p, l, r, pageSize), pageSize);
  }

  /** No cell area is run into an offset array if and only if both halves of a split fit. */
  lemma OverrunIff(db: Db, k: Kind, c: Cell, pageSize: nat)
    requires WellFormed(db, k) && Storable(k, c) && PagesFit(db.ns, pageSize) && pageSize >= MIN_PAGE
    ensures PagesFit(Step(db, k, c, pageSize).1.ns, pageSize) <==> HalvesFit(db, k, c, pageSize)
  {
    hide IsTree, Once, PagesOf, Graft, Descend, Splitted, Fill, RoomOk, SplitFits, Need;
    var t := Descend(db.ns, k, db.sh, c.key);
    if t.At? && t.page in db.ns {
      if db.ns[t.page].room < Need(c) {
        SplitOk(db, k, c, t.page, pageSize);
      } else {
        FillOk(t.page, db.ns[t.page], c, pageSize);
      }
    }
  }

  /** Inserting an absent key keeps the tree well formed and its root page, and puts exactly the
      new entry into the traversal.  The pages hold the outcome if and only if the halves fit. */
  lemma StepInserts(db: Db, k: Kind, c: Cell, pageSize: nat)
    requires WellFormed(db, k) && Storable(k, c)
    requires Find(Walk(db.ns, k, db.sh), c.key) == Missing
    ensures Step(db, k, c, pageSize).0 == Ok
    ensures Inserted(db, Step(db, k, c, pageSize).1, k, EntryOf(c))
    ensures PagesFit(db.ns, pageSize) && pageSize >= MIN_PAGE ==>
        (PagesFit(Step(db, k, c, pageSize).1.ns, pageSize) <==> HalvesFit(db, k, c, pageSize))
  {
    hide PagesFit, HalvesFit, Inserted, IsTree, Once, Walk, PagesOf, Storable, Splitted, Fill;
    if PagesFit(db.ns, pageSize) && pageSize >= MIN_PAGE {
      OverrunIff(db, k, c, pageSize);
    }
    AbsentIsReady(db, k, c);
    if db.ns[TargetPage(db, k, c.key)].room >= Need(c) {
      FillInserts(db, k, c);
    } else {
      LeafSplitInserts(db, k, c, pageSize);
    }
  }
}
