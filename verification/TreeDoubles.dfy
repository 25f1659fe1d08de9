/** What becomes of a key that is in the tree already and meets a full leaf, where it is not looked for
    (db/src/libchidb/btree.c:705-807): it is stored twice, and find goes on as before. */
module TreeDoubles {
  import opened Common
  import opened Paging
  import opened Layout
  import opened Tree
  import opened TreeDefs
  import opened TreeInsert
  import opened TreeStep
  import opened Nodes

  /** Putting in an entry whose key is there already changes no lookup: the first one is found. */
  lemma {:induction false} FindPutHeld(es: seq<Entry>, e: Entry, key: nat)
    requires Sorted(es) && Find(es, e.key).Hit?
    ensures Find(Put(es, e), key) == Find(es, key)
  {
    if es[0].key != e.key {
      FindIn(es[1..], e.key);
      var i :| 0 <= i < |es[1..]| && es[1..][i].key == e.key;
      assert es[0].key < es[i + 1].key;
      FindPutHeld(es[1..], e, key);
    } else if es[0].key != key {
      FindPutAhead(es[1..], e, key);
    }
  }

  lemma {:induction false} FindIn(es: seq<Entry>, key: nat)
    requires Find(es, key).Hit?
    ensures exists i :: 0 <= i < |es| && es[i].key == key
  {
    if es[0].key != key {
      FindIn(es[1..], key);
      var i :| 0 <= i < |es[1..]| && es[1..][i].key == key;
      assert es[i + 1].key == key;
    }
  }

  lemma {:induction false} FindPutAhead(es: seq<Entry>, e: Entry, key: nat)
    requires key != e.key
    ensures Find(Put(es, e), key) == Find(es, key)
  {
    if es != [] && es[0].key <= e.key {
      FindPutAhead(es[1..], e, key);
    } else {
      assert es != [] ==> ([e] + es)[1..] == es;
      assert es == [] ==> [e][1..] == es;
    }
  }

  /** At a full leaf every key goes in, present or not.  The pages can hold the outcome if and only if
      both halves fit. */
  lemma FullLeafPuts(db: Db, k: Kind, c: Cell, pageSize: nat)
    requires WellFormed(db, k) && Storable(k, c) && c.key <= MAX_KEY
    requires var t := Descend(db.ns, k, db.sh, c.key);
             t.At? && t.page in db.ns && db.ns[t.page].room < Need(c)
    ensures var (rc, db') := Step(db, k, c, pageSize);
            && rc == Ok && db'.sh.page == db.sh.page
            && Walk(db'.ns, k, db'.sh) == Put(Walk(db.ns, k, db.sh), EntryOf(c))
            && (PagesFit(db.ns, pageSize) && pageSize >= MIN_PAGE ==>
                  (PagesFit(db'.ns, pageSize) <==> HalvesFit(db, k, c, pageSize)))
  {
    hide IsTree, Once, PagesOf, Graft, Descend, Three, Walk, Put, LeftPage, RightPage, RootPage, Storable,
         SplitInto, PageFits, SplitAt, PagesFit, HalvesFit;
    if PagesFit(db.ns, pageSize) && pageSize >= MIN_PAGE {
      OverrunIff(db, k, c, pageSize);
    }
    var p, l, r := Descend(db.ns, k, db.sh, c.key).page, db.nPages + 1, db.nPages + 2;
    var left, right := LeftPage(db.ns[p], k, c, l, pageSize), RightPage(db.ns[p], k, c, r, pageSize);
    var root := RootPage(db.ns[p], k, c, p, l, r, pageSize);
    TargetInPages(db.ns, k, db.sh, c.key);
    TargetIsLeaf(db.ns, k, db.sh, c.key, -1, MAX_KEY);
    PagesAreSplit(db.ns[p], k, c, p, l, r, pageSize);
    SplitPuts(db.ns, k, c, p, l, r, left, right, root);
    FreshSplit(db.sh, db.nPages, p);
    ThreeAgree(db.ns, l, left, r, right, p, root, PagesOf(db.sh) - {p});
    GraftPuts(db.ns, Three(db.ns, l, left, r, right, p, root), k, db.sh, EntryOf(c), Inner(p, [Leaf(l), Leaf(r)]),
              -1, MAX_KEY);
    GraftPage(db.ns, k, db.sh, c.key, Inner(p, [Leaf(l), Leaf(r)]));
  }

  lemma GraftPage(ns: Store, k: Kind, sh: Shape, key: nat, sub: Shape)
    requires Descend(ns, k, sh, key).At? && sub.page == Descend(ns, k, sh, key).page
    ensures Graft(ns, k, sh, key, sub).page == sh.page
  {
  }

  lemma SplitPuts(ns: Store, k: Kind, c: Cell, p: nat, l: nat, r: nat, left: Page, right: Page, root: Page)
    requires p in ns && l <= MAX_KEY && l != r && l != p && r != p
    requires SplitInto(ns[p], k, c, l, r, left, right, root)
    requires PageFits(ns[p], k.LeafType(), -1, MAX_KEY) && Storable(k, c)
    ensures Walk(Three(ns, l, left, r, right, p, root), k, Inner(p, [Leaf(l), Leaf(r)])) ==
        Put(Entries(ns[p].cells), EntryOf(c))
  {
    hide Walk, Put, SplitInto;
    var ns' := Three(ns, l, left, r, right, p, root);
    assert SplitAt(ns, ns', k, p, c, l, r);
    SplitWalk(ns, ns', k, p, c, l, r);
    InsertIsPut(ns[p].cells, c);
  }

  /** A key that is in a full leaf already is inserted a second time: the outcome is Ok and not
      Duplicate, the traversal has one entry more and two under this key, the first entry under every
      key is what it was, and the pages are no search tree any more.  They can hold this outcome if and
      only if both halves fit. */
  lemma DuplicateStored(db: Db, k: Kind, c: Cell, pageSize: nat, key: nat)
    requires WellFormed(db, k) && Storable(k, c) && c.key <= MAX_KEY
    requires Find(Walk(db.ns, k, db.sh), c.key).Hit?
    requires var t := Descend(db.ns, k, db.sh, c.key);
             t.At? && t.page in db.ns && db.ns[t.page].room < Need(c)
    ensures var (rc, db') := Step(db, k, c, pageSize);
            && rc == Ok
            && Walk(db'.ns, k, db'.sh) == Put(Walk(db.ns, k, db.sh), EntryOf(c))
            && Find(Walk(db'.ns, k, db'.sh), key) == Find(Walk(db.ns, k, db.sh), key)
            && !IsTree(db'.ns, k, db'.sh, -1, MAX_KEY)
            && (PagesFit(db.ns, pageSize) && pageSize >= MIN_PAGE ==>
                  (PagesFit(db'.ns, pageSize) <==> HalvesFit(db, k, c, pageSize)))
  {
    hide Walk, Put, Step, Descend, Storable, Once, PagesOf, PagesFit, HalvesFit;
    var db' := Step(db, k, c, pageSize).1;
    var es := Walk(db.ns, k, db.sh);
    FullLeafPuts(db, k, c, pageSize);
    WalkSorted(db.ns, k, db.sh, -1, MAX_KEY);
    FindPutHeld(es, EntryOf(c), key);
    PutTwice(es, EntryOf(c));
    if IsTree(db'.ns, k, db'.sh, -1, MAX_KEY) {
      WalkSorted(db'.ns, k, db'.sh, -1, MAX_KEY);
    }
  }

  lemma {:induction false} PutTwice(es: seq<Entry>, e: Entry)
    requires Sorted(es) && Find(es, e.key).Hit?
    ensures !Sorted(Put(es, e))
  {
    var r := Put(es, e);
    if es[0].key == e.key {
      var tail := Put(es[1..], e);
      assert r == [es[0]] + tail;
      assert tail[0] == e by {
        assert es[1..] != [] ==> e.key < es[1..][0].key;
      }
      assert r[0] == es[0] && r[1] == e;
      assert !(r[0].key < r[1].key);
    } else {
      FindIn(es[1..], e.key);
      var i :| 0 <= i < |es[1..]| && es[1..][i].key == e.key;
      assert es[0].key < es[i + 1].key;
      PutTwice(es[1..], e);
      assert r[1..] == Put(es[1..], e);
    }
  }

  /** For example: a page of 1024 bytes with one row of 500 bytes, and a new row of 600 bytes under
      the same key.  Both halves fit, and both rows are kept. */
  lemma DuplicateExample()
    ensures var row, c := TableLeafCell(1, Zeros(500)), TableLeafCell(1, Zeros(600));
            var db := Db(map[2 := Page(TableLeaf, [row], 0, 506)], 2, Leaf(2));
            var (rc, db') := Step(db, Table, c, 1024);
            && WellFormed(db, Table) && PagesFit(db.ns, 1024) && StepFits(db, Table, c, 1024)
            && rc == Ok
            && Walk(db'.ns, Table, db'.sh) == [Row(1, Zeros(500)), Row(1, Zeros(600))]
            && !IsTree(db'.ns, Table, db'.sh, -1, MAX_KEY)
  {
    var row, c := TableLeafCell(1, Zeros(500)), TableLeafCell(1, Zeros(600));
    var page := Page(TableLeaf, [row], 0, 506);
    var db := Db(map[2 := page], 2, Leaf(2));
    TotalOne(row);
    TotalOne(c);
    assert Gap([row], 1) == 1;
    assert Overfull([row], c) == [row, c];
    assert LeftHalf(Table, [row], c) == [row] && RightHalf([row], c) == [c];
    assert Walk(db.ns, Table, db.sh) == Entries([row]) == [Row(1, Zeros(500))];
    assert Put([Row(1, Zeros(500))], EntryOf(c)) == [Row(1, Zeros(500)), Row(1, Zeros(600))];
    DuplicateStored(db, Table, c, 1024, 1);
  }

  predicate WeaklySorted(es: seq<Entry>) {
    forall i, j :: 0 <= i < j < |es| ==> es[i].key <= es[j].key
  }

  lemma OverfullWeak(cs: seq<Cell>, c: Cell)
    requires SortedCells(cs)
    ensures WeaklySorted(Entries(Overfull(cs, c))) && |Overfull(cs, c)| == |cs| + 1
  {
    var g, over := Gap(cs, c.key), Overfull(cs, c);
    assert forall j :: g <= j < |cs| ==> c.key < cs[j].key;
    forall i, j | 0 <= i < j < |over|
      ensures over[i].key <= over[j].key
    {
    }
  }

  lemma {:induction false} FindOccurs(es: seq<Entry>, i: nat)
    requires i < |es|
    ensures Find(es, es[i].key).Hit?
  {
    if i > 0 && es[0].key != es[i].key {
      FindOccurs(es[1..], i - 1);
    }
  }

  /** Where entries are split in two, the first one under a key is on the side the search takes. */
  lemma FindSplit(es: seq<Entry>, m: nat, key: nat)
    requires m < |es| && WeaklySorted(es)
    ensures Find(es, key) == if key <= es[m].key then Find(es[..m + 1], key) else Find(es[m + 1..], key)
  {
    hide Find;
    assert es == es[..m + 1] + es[m + 1..];
    FindConcat(es[..m + 1], es[m + 1..], key);
    if key > es[m].key {
      FindWithin(es[..m + 1], key, -1, es[m].key);
    } else if key < es[m].key {
      FindWithin(es[m + 1..], key, es[m].key - 1, es[|es| - 1].key);
    } else {
      FindOccurs(es[..m + 1], m);
    }
  }

  lemma EntriesParts(cs: seq<Cell>, m: nat)
    requires m < |cs|
    ensures Entries(cs)[..m + 1] == Entries(cs[..m + 1]) && Entries(cs)[m + 1..] == Entries(cs[m + 1..])
  {
  }

  /** A descent through the three pages of a split finds what the overfull leaf holds. */
  lemma SplitLookUp(ns: Store, ns': Store, p: nat, c: Cell, l: nat, r: nat, key: nat)
    requires SplitAt(ns, ns', Table, p, c, l, r) && SortedCells(ns[p].cells)
    ensures Laid(ns', Table, Inner(p, [Leaf(l), Leaf(r)]))
    ensures LookUp(ns', Inner(p, [Leaf(l), Leaf(r)]), key) == Find(Entries(Overfull(ns[p].cells, c)), key)
  {
    hide Find, Overfull;
    var sub, over, m := Inner(p, [Leaf(l), Leaf(r)]), Overfull(ns[p].cells, c), |ns[p].cells| / 2;
    OverfullWeak(ns[p].cells, c);
    FindSplit(Entries(over), m, key);
    EntriesParts(over, m);
    assert Laid(ns', Table, sub.kids[0]) && Laid(ns', Table, sub.kids[1]);
    assert Slot(ns'[p].cells, key) == if key <= over[m].key then 0 else 1;
    assert Descend(ns', Table, sub.kids[0], key) == At(l) && Descend(ns', Table, sub.kids[1], key) == At(r);
  }

  lemma {:induction false} LookUpFrame(ns: Store, ns': Store, sh: Shape, key: nat)
    requires Laid(ns, Table, sh) && Agree(ns, ns', PagesOf(sh))
    ensures Laid(ns', Table, sh) && LookUp(ns', sh, key) == LookUp(ns, sh, key)
    decreases sh
  {
    assert sh.page in PagesOf(sh);
    if sh.Inner? {
      forall i | 0 <= i < |sh.kids|
        ensures Laid(ns', Table, sh.kids[i]) && LookUp(ns', sh.kids[i], key) == LookUp(ns, sh.kids[i], key)
      {
        assert PagesOf(sh.kids[i]) <= PagesOf(sh);
        LookUpFrame(ns, ns', sh.kids[i], key);
      }
    }
  }

  /** Replacing the leaf a descent reaches by pages on which every lookup gives what the leaf gave
      changes no lookup. */
  lemma {:induction false} GraftLookUp(ns: Store, ns': Store, sh: Shape, key: nat, sub: Shape, other: nat, lo: int,
                                       hi: int)
    requires IsTree(ns, Table, sh, lo, hi) && Once(sh) && lo < key <= hi
    requires Descend(ns, Table, sh, key).At?
    requires var p := Descend(ns, Table, sh, key).page;
             && p in ns && sub.page == p && Agree(ns, ns', PagesOf(sh) - {p})
             && Laid(ns', Table, sub) && LookUp(ns', sub, other) == Find(Entries(ns[p].cells), other)
    ensures var sh' := Graft(ns, Table, sh, key, sub);
            Laid(ns', Table, sh') && LookUp(ns', sh', other) == LookUp(ns, sh, other)
    decreases sh
  {
    if sh.Inner? {
      hide Find;
      var cs, s := ns[sh.page].cells, Slot(ns[sh.page].cells, key);
      GraftDown(ns, ns', Table, sh, key, lo, hi);
      GraftLookUp(ns, ns', sh.kids[s], key, sub, other, Low(cs, s, lo), High(Table, cs, s, hi));
      GraftPage(ns, Table, sh.kids[s], key, sub);
      OthersLookUp(ns, ns', sh, key, other, lo, hi);
      KidsLookUp(ns, ns', sh, Graft(ns, Table, sh, key, sub), other);
    }
  }

  lemma OthersLookUp(ns: Store, ns': Store, sh: Shape, key: nat, other: nat, lo: int, hi: int)
    requires IsTree(ns, Table, sh, lo, hi) && Once(sh) && sh.Inner?
    requires Descend(ns, Table, sh, key).At?
    requires Agree(ns, ns', PagesOf(sh) - {Descend(ns, Table, sh, key).page})
    ensures forall j :: 0 <= j < |sh.kids| && j != Slot(ns[sh.page].cells, key) ==>
              Laid(ns', Table, sh.kids[j]) && LookUp(ns', sh.kids[j], other) == LookUp(ns, sh.kids[j], other)
  {
    var cs, s := ns[sh.page].cells, Slot(ns[sh.page].cells, key);
    TargetInPages(ns, Table, sh.kids[s], key);
    forall j | 0 <= j < |sh.kids| && j != s
      ensures Laid(ns', Table, sh.kids[j]) && LookUp(ns', sh.kids[j], other) == LookUp(ns, sh.kids[j], other)
    {
      assert PagesOf(sh.kids[j]) <= PagesOf(sh);
      assert PagesOf(sh.kids[j]) !! PagesOf(sh.kids[s]);
      TreeLaid(ns, Table, sh.kids[j], Low(cs, j, lo), High(Table, cs, j, hi));
      LookUpFrame(ns, ns', sh.kids[j], other);
    }
  }

  /** A page over children on which the lookup gives what it gave gives what it gave. */
  lemma KidsLookUp(ns: Store, ns': Store, sh: Shape, sh': Shape, key: nat)
    requires sh.Inner? && sh'.Inner? && sh'.page == sh.page
    requires sh.page in ns && sh.page in ns' && ns'[sh.page] == ns[sh.page]
    requires ns[sh.page].typ == TableInternal && |sh'.kids| == |sh.kids| == |ns[sh.page].cells| + 1
    requires forall j :: 0 <= j < |sh.kids| ==>
               && sh'.kids[j].page == sh.kids[j].page == Child(ns[sh.page], j)
               && Laid(ns', Table, sh'.kids[j]) && LookUp(ns', sh'.kids[j], key) == LookUp(ns, sh.kids[j], key)
    ensures Laid(ns', Table, sh') && LookUp(ns', sh', key) == LookUp(ns, sh, key)
  {
    hide Find;
  }

  /** Find goes on as before: although the pages are no search tree any more, every descent finds what
      the table held under its key before. */
  lemma DuplicateLookUp(db: Db, c: Cell, pageSize: nat, key: nat)
    requires WellFormed(db, Table) && Storable(Table, c) && c.key <= MAX_KEY && key <= MAX_KEY
    requires Find(Walk(db.ns, Table, db.sh), c.key).Hit?
    requires var t := Descend(db.ns, Table, db.sh, c.key);
             t.At? && t.page in db.ns && db.ns[t.page].room < Need(c)
    ensures var db' := Step(db, Table, c, pageSize).1;
            && Laid(db'.ns, Table, db'.sh) && db'.sh.page == db.sh.page
            && LookUp(db'.ns, db'.sh, key) == Find(Walk(db.ns, Table, db.sh), key)
  {
    hide IsTree, Once, PagesOf, Graft, Descend, Walk, Put, LeftPage, RightPage, RootPage, Storable, SplitInto, PageFits,
         Find, LookUp, Laid, Overfull;
    var p, l, r := Descend(db.ns, Table, db.sh, c.key).page, db.nPages + 1, db.nPages + 2;
    var left, right := LeftPage(db.ns[p], Table, c, l, pageSize), RightPage(db.ns[p], Table, c, r, pageSize);
    var root := RootPage(db.ns[p], Table, c, p, l, r, pageSize);
    var ns', sub := Three(db.ns, l, left, r, right, p, root), Inner(p, [Leaf(l), Leaf(r)]);
    TargetInPages(db.ns, Table, db.sh, c.key);
    TargetSorted(db, c.key);
    PagesAreSplit(db.ns[p], Table, c, p, l, r, pageSize);
    SplitLookUp(db.ns, ns', p, c, l, r, key);
    InsertIsPut(db.ns[p].cells, c);
    InsertedUnfolds(db.ns[p].cells, c);
    FindAtTarget(db.ns, Table, db.sh, c.key, -1, MAX_KEY);
    FindPutHeld(Entries(db.ns[p].cells), EntryOf(c), key);
    FreshSplit(db.sh, db.nPages, p);
    ThreeAgree(db.ns, l, left, r, right, p, root, PagesOf(db.sh) - {p});
    GraftLookUp(db.ns, ns', db.sh, c.key, sub, key, -1, MAX_KEY);
    GraftPage(db.ns, Table, db.sh, c.key, sub);
    TreeLookUp(db.ns, db.sh, key, -1, MAX_KEY);
  }

  lemma InsertedUnfolds(cs: seq<Cell>, c: Cell)
    ensures Overfull(cs, c) == InsertedAt(cs, Gap(cs, c.key), c)
  {
  }

  lemma TargetSorted(db: Db, key: nat)
    requires IsTree(db.ns, Table, db.sh, -1, MAX_KEY) && key <= MAX_KEY && Descend(db.ns, Table, db.sh, key).At?
    ensures var p := Descend(db.ns, Table, db.sh, key).page;
            p in db.ns && SortedCells(db.ns[p].cells) && Sorted(Entries(db.ns[p].cells))
  {
    TargetIsLeaf(db.ns, Table, db.sh, key, -1, MAX_KEY);
  }
}
