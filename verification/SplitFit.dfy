/** When both halves of a split leaf fit in an empty leaf page (db/src/libchidb/btree.c:708-762):
    the split goes by the number of cells, not by their size.  So which insertions, and which whole runs
    of them, overrun no page. */
module SplitFit {
  import opened Common
  import opened Paging
  import opened Layout
  import opened Nodes
  import opened Tree
  import opened TreeDefs
  import opened TreeInsert
  import opened TreeStep
  import opened TreeRuns
  import opened BTree

  predicate CostsIn(cs: seq<Cell>, lo: nat, hi: nat) {
    forall i :: 0 <= i < |cs| ==> lo <= Cost(cs[i]) <= hi
  }

  lemma CostsConcat(a: seq<Cell>, b: seq<Cell>)
    ensures Costs(a + b) == Costs(a) + Costs(b)
  {
    TotalConcat(a, b);
  }

  lemma CostsInsert(cs: seq<Cell>, k: nat, c: Cell)
    requires k <= |cs|
    ensures Costs(InsertedAt(cs, k, c)) == Costs(cs) + Cost(c)
  {
    TotalInsert(cs, k, c);
  }

  lemma {:induction false} CostsAtLeast(cs: seq<Cell>, lo: nat)
    requires forall i :: 0 <= i < |cs| ==> lo <= Cost(cs[i])
    ensures Costs(cs) >= |cs| * lo
  {
    if cs != [] {
      CostsAtLeast(cs[1..], lo);
      assert Costs(cs) == Cost(cs[0]) + Costs(cs[1..]);
      assert |cs| * lo == lo + |cs[1..]| * lo;
    }
  }

  /** The first m cells of the overfull leaf: m of the old ones, or m - 1 and the new one. */
  lemma FrontCosts(cs: seq<Cell>, c: Cell, m: nat)
    requires m <= |cs|
    ensures Costs(Overfull(cs, c)[..m]) <= if Gap(cs, c.key) < m then Costs(cs[..m - 1]) + Cost(c) else Costs(cs[..m])
  {
    var g := Gap(cs, c.key);
    if g < m {
      assert Overfull(cs, c)[..m] == InsertedAt(cs[..m - 1], g, c);
      CostsInsert(cs[..m - 1], g, c);
    } else {
      assert Overfull(cs, c)[..m] == cs[..m];
    }
  }

  lemma BackCosts(cs: seq<Cell>, c: Cell, m: nat)
    requires 1 <= m <= |cs|
    ensures Costs(Overfull(cs, c)[m..]) == if Gap(cs, c.key) < m then Costs(cs[m - 1..]) else Costs(cs[m..]) + Cost(c)
  {
    var g := Gap(cs, c.key);
    if g < m {
      assert Overfull(cs, c)[m..] == cs[m - 1..];
    } else {
      assert Overfull(cs, c)[m..] == InsertedAt(cs[m..], g - m, c);
      CostsInsert(cs[m..], g - m, c);
    }
  }

  /** What is left of a total when a run of j cells is set aside. */
  lemma PartCosts(cs: seq<Cell>, m: nat, lo: nat)
    requires m <= |cs| && forall i :: 0 <= i < |cs| ==> lo <= Cost(cs[i])
    ensures Costs(cs[..m]) + (|cs| - m) * lo <= Costs(cs) && Costs(cs[m..]) + m * lo <= Costs(cs)
  {
    assert cs == cs[..m] + cs[m..];
    CostsConcat(cs[..m], cs[m..]);
    CostsAtLeast(cs[..m], lo);
    CostsAtLeast(cs[m..], lo);
  }

  lemma LeftFits(cs: seq<Cell>, c: Cell, lo: nat, hi: nat, m: nat, rest: nat, cap: nat)
    requires CostsIn(cs, lo, hi) && Cost(c) <= hi && Costs(cs) <= cap
    requires 1 <= m <= |cs| && rest == |cs| - m + 1 && hi <= rest * lo
    ensures Costs(Overfull(cs, c)[..m]) <= cap
  {
    hide Costs, Overfull, Gap, Cost;
    FrontCosts(cs, c, m);
    PartCosts(cs, m - 1, lo);
    PartCosts(cs, m, lo);
    Products(0, |cs| - m, lo);
  }

  lemma RightFits(cs: seq<Cell>, c: Cell, lo: nat, hi: nat, m: nat, least: nat, cap: nat)
    requires CostsIn(cs, lo, hi) && Cost(c) <= hi && Costs(cs) <= cap
    requires 1 <= least <= m <= |cs| && hi <= least * lo
    ensures Costs(Overfull(cs, c)[m..]) <= cap
  {
    hide Costs, Overfull, Gap, Cost;
    BackCosts(cs, c, m);
    PartCosts(cs, m - 1, lo);
    PartCosts(cs, m, lo);
    Products(least, m, lo);
    Products(0, m - 1, lo);
  }

  /** Both halves of a split table leaf fit if no cell outweighs half of the old cells. */
  lemma TableSplitFits(cs: seq<Cell>, c: Cell, lo: nat, hi: nat, pageSize: nat)
    requires CostsIn(cs, lo, hi) && lo <= Cost(c) <= hi <= pageSize - 8 && Costs(cs) <= pageSize - 8
    requires cs != [] ==> hi <= (|cs| + 1) / 2 * lo
    ensures SplitFits(Table, cs, c, pageSize)
  {
    if cs == [] {
      TotalOne(c);
      assert LeftHalf(Table, cs, c) == [c] && RightHalf(cs, c) == [];
    } else {
      LeftFits(cs, c, lo, hi, |cs| / 2 + 1, (|cs| + 1) / 2, pageSize - 8);
      RightFits(cs, c, lo, hi, |cs| / 2 + 1, (|cs| + 1) / 2, pageSize - 8);
    }
  }

  /** In particular when all cells have the same size. */
  lemma EqualSplitFits(cs: seq<Cell>, c: Cell, pageSize: nat)
    requires CostsIn(cs, Cost(c), Cost(c)) && Cost(c) <= pageSize - 8 && Costs(cs) <= pageSize - 8
    ensures SplitFits(Table, cs, c, pageSize)
  {
    if cs != [] {
      Products(1, (|cs| + 1) / 2, Cost(c));
    }
    TableSplitFits(cs, c, Cost(c), Cost(c), pageSize);
  }

  /** Index cells all have one size, and the median leaves the page. */
  lemma IndexSplitFits(cs: seq<Cell>, c: Cell, pageSize: nat)
    requires c.IndexLeafCell? && (forall i :: 0 <= i < |cs| ==> cs[i].IndexLeafCell?)
    requires Costs(cs) <= pageSize - 8
    ensures SplitFits(Index, cs, c, pageSize)
  {
    var n := |cs|;
    if cs == [] {
      assert LeftHalf(Index, cs, c) == [] && RightHalf(cs, c) == [];
    } else {
      FrontCosts(cs, c, n / 2);
      BackCosts(cs, c, n / 2 + 1);
      PartCosts(cs, n / 2, 14);
      PartCosts(cs, n / 2 + 1, 14);
      if n / 2 >= 1 { PartCosts(cs, n / 2 - 1, 14); }
    }
  }

  /** The condition is needed: three cells of 500, 10 and 10 bytes on a page of 1024, and a new one
      of 510 bytes between the first two, make a left half that is larger than a page.  The step runs
      its cell area into its offset array. */
  lemma SplitCanOverflow()
    ensures var cs := [TableLeafCell(1, Zeros(500)), TableLeafCell(3, Zeros(10)), TableLeafCell(4, Zeros(10))];
            var c, db := TableLeafCell(2, Zeros(510)), Db(map[2 := Page(TableLeaf, cs, 0, 466)], 2, Leaf(2));
            && WellFormed(db, Table) && PagesFit(db.ns, 1024) && Storable(Table, c) && Cost(c) <= 1024 - 8
            && !SplitFits(Table, cs, c, 1024)
            && !PagesFit(Step(db, Table, c, 1024).1.ns, 1024)
  {
    var first := TableLeafCell(1, Zeros(500));
    var cs := [first, TableLeafCell(3, Zeros(10)), TableLeafCell(4, Zeros(10))];
    var c := TableLeafCell(2, Zeros(510));
    assert GapFrom(cs, 2, 1) == 1;
    assert Gap(cs, 2) == 1;
    assert LeftHalf(Table, cs, c) == [first, c];
    assert Total([first, c]) == 508 + Total([c]);
    assert Total(cs) == 508 + Total(cs[1..]) && Total(cs[1..]) == 18 + Total(cs[2..]) && Total(cs[2..]) == 18;
    OverrunIff(Db(map[2 := Page(TableLeaf, cs, 0, 466)], 2, Leaf(2)), Table, c, 1024);
  }

  /** The valid pages of a file are within their bounds. */
  lemma ViewFits(pages: Pages, pageSize: nat)
    requires forall q :: q in pages ==> |pages[q]| == pageSize
    ensures PagesFit(View(pages), pageSize)
  {
    hide RoomOk;
    forall q | q in View(pages)
      ensures RoomOk(q, View(pages)[q], pageSize)
    {
      PageRoom(Load(q, pages[q]));
    }
  }

  lemma PageRoom(r: Raw)
    requires r.Valid()
    ensures RoomOk(r.npage, Decoded(r), |r.data|)
  {
  }

  lemma LeafRoom(ns: Store, p: nat, t: PageType, pageSize: nat)
    requires PagesFit(ns, pageSize) && p in ns && ns[p].typ == t
    ensures Costs(ns[p].cells) <= pageSize - 8
  {
    assert RoomOk(p, ns[p], pageSize);
  }

  /** An insertion into a table of cells that are not too uneven never overruns a page. */
  lemma EvenCellsFit(db: Db, c: Cell, pageSize: nat, lo: nat, hi: nat)
    requires WellFormed(db, Table) && PagesFit(db.ns, pageSize)
    requires Storable(Table, c) && c.key <= MAX_KEY && (db.nPages + 1) * pageSize < FILE_SPAN
    requires lo <= Cost(c) <= hi <= pageSize - 8
    requires var p := TargetPage(db, Table, c.key);
             p in db.ns ==>
               CostsIn(db.ns[p].cells, lo, hi) && (db.ns[p].cells != [] ==> hi <= (|db.ns[p].cells| + 1) / 2 * lo)
    ensures StepFits(db, Table, c, pageSize)
  {
    hide IsTree, Once, PagesOf, PagesFit, SplitFits, Descend, Need;
    var p := TargetPage(db, Table, c.key);
    if Descend(db.ns, Table, db.sh, c.key).At? && p in db.ns && db.ns[p].room < Need(c) {
      LeafRoom(db.ns, p, db.ns[p].typ, pageSize);
      TableSplitFits(db.ns[p].cells, c, lo, hi, pageSize);
    }
  }

  /** An insertion into an index never overruns a page. */
  lemma IndexCellsFit(db: Db, c: Cell, pageSize: nat)
    requires WellFormed(db, Index) && PagesFit(db.ns, pageSize)
    requires Storable(Index, c) && (db.nPages + 1) * pageSize < FILE_SPAN
    ensures StepFits(db, Index, c, pageSize)
  {
    hide IsTree, Once, PagesOf, PagesFit, SplitFits, Descend, Need;
    var p := TargetPage(db, Index, c.key);
    if Descend(db.ns, Index, db.sh, c.key).At? && p in db.ns {
      TargetIsLeaf(db.ns, Index, db.sh, c.key, -1, MAX_KEY);
      LeafRoom(db.ns, p, db.ns[p].typ, pageSize);
      IndexSplitFits(db.ns[p].cells, c, pageSize);
    }
  }

  /** A run of insertions into an index never overruns a page: the file only has to have room for two
      pages more per entry. */
  lemma {:induction false} IndexRunFits(db: Db, cs: seq<Cell>, pageSize: nat)
    requires WellFormed(db, Index) && PagesFit(db.ns, pageSize) && pageSize >= MIN_PAGE
    requires AllStorable(Index, cs) && NewKeys(Walk(db.ns, Index, db.sh), cs)
    requires (db.nPages + 2 * |cs| - 1) * pageSize < FILE_SPAN
    ensures RunFits(db, Index, cs, pageSize)
    decreases |cs|
  {
    hide IsTree, Once, PagesOf, Walk, PagesFit, Step, AllStorable, NewKeys, StepFits;
    if cs != [] {
      RestStorable(Index, cs);
      SpanLeft(db, Index, cs, pageSize);
      IndexCellsFit(db, cs[0], pageSize);
      RunStep(db, Index, cs, pageSize);
      IndexRunFits(Step(db, Index, cs[0], pageSize).1, cs[1..], pageSize);
    }
  }

  /** The entries are rows that cost between lo and hi each. */
  predicate RowsIn(es: seq<Entry>, lo: nat, hi: nat) {
    forall e :: e in es ==> e.Row? && lo <= |e.data| + 10 <= hi
  }

  lemma {:induction false} RowsPut(es: seq<Entry>, e: Entry, lo: nat, hi: nat)
    requires RowsIn(es, lo, hi) && RowsIn([e], lo, hi)
    ensures RowsIn(Put(es, e), lo, hi)
  {
    assert e in [e];
    if es != [] && es[0].key <= e.key {
      assert RowsIn(es[1..], lo, hi);
      RowsPut(es[1..], e, lo, hi);
    }
  }

  /** The cells of the leaf a descent ends at are listed by the traversal. */
  lemma {:induction false} TargetListed(ns: Store, k: Kind, sh: Shape, key: nat)
    requires Descend(ns, k, sh, key).At? && Descend(ns, k, sh, key).page in ns
    ensures forall e :: e in Entries(ns[Descend(ns, k, sh, key).page].cells) ==> e in Walk(ns, k, sh)
    decreases sh
  {
    if sh.Inner? {
      var i := Slot(ns[sh.page].cells, key);
      TargetListed(ns, k, sh.kids[i], key);
      KidListed(ns, k, sh, 0, i);
    }
  }

  lemma {:induction false} KidListed(ns: Store, k: Kind, sh: Shape, i: nat, s: nat)
    requires sh.Inner? && sh.page in ns && i <= s < |sh.kids|
    ensures forall e :: e in Walk(ns, k, sh.kids[s]) ==> e in WalkFrom(ns, k, sh, i)
    decreases s - i
  {
    if i < s {
      KidListed(ns, k, sh, i + 1, s);
    }
  }

  /** So in a table of such rows every leaf has cells of these costs. */
  lemma LeafCosts(db: Db, key: nat, lo: nat, hi: nat)
    requires IsTree(db.ns, Table, db.sh, -1, MAX_KEY) && key <= MAX_KEY && Descend(db.ns, Table, db.sh, key).At?
    requires RowsIn(Walk(db.ns, Table, db.sh), lo, hi)
    ensures var p := TargetPage(db, Table, key);
            p in db.ns && CostsIn(db.ns[p].cells, lo, hi)
  {
    hide Walk, Descend;
    TargetIsLeaf(db.ns, Table, db.sh, key, -1, MAX_KEY);
    TargetListed(db.ns, Table, db.sh, key);
    var cells := db.ns[TargetPage(db, Table, key)].cells;
    forall i | 0 <= i < |cells|
      ensures lo <= Cost(cells[i]) <= hi
    {
      assert Entries(cells)[i] in Entries(cells);
    }
  }

  /** A run of insertions of rows of one size into a table of such rows never overruns a page. */
  lemma {:induction false} EqualRunFits(db: Db, cs: seq<Cell>, size: nat, pageSize: nat)
    requires WellFormed(db, Table) && PagesFit(db.ns, pageSize) && pageSize >= MIN_PAGE
    requires AllStorable(Table, cs) && NewKeys(Walk(db.ns, Table, db.sh), cs)
    requires (db.nPages + 2 * |cs| - 1) * pageSize < FILE_SPAN
    requires size <= pageSize - 8 && RowsIn(Walk(db.ns, Table, db.sh), size, size) && CostsIn(cs, size, size)
    ensures RunFits(db, Table, cs, pageSize)
    decreases |cs|
  {
    hide IsTree, Once, PagesOf, Walk, PagesFit, Step, AllStorable, NewKeys, StepFits, RowsIn, Put;
    if cs != [] {
      RestStorable(Table, cs);
      SpanLeft(db, Table, cs, pageSize);
      EqualStepFits(db, cs[0], size, pageSize);
      RunStep(db, Table, cs, pageSize);
      OneRow(cs[0], size, size);
      RowsPut(Walk(db.ns, Table, db.sh), EntryOf(cs[0]), size, size);
      EqualRunFits(Step(db, Table, cs[0], pageSize).1, cs[1..], size, pageSize);
    }
  }

  lemma OneRow(c: Cell, lo: nat, hi: nat)
    requires c.TableLeafCell? && lo <= Cost(c) <= hi
    ensures RowsIn([EntryOf(c)], lo, hi)
  {
  }

  lemma EqualStepFits(db: Db, c: Cell, size: nat, pageSize: nat)
    requires WellFormed(db, Table) && PagesFit(db.ns, pageSize)
    requires Storable(Table, c) && (db.nPages + 1) * pageSize < FILE_SPAN
    requires size <= pageSize - 8 && RowsIn(Walk(db.ns, Table, db.sh), size, size) && Cost(c) == size
    ensures StepFits(db, Table, c, pageSize)
  {
    hide IsTree, Once, PagesOf, PagesFit, SplitFits, Descend, Need, Walk, RowsIn;
    var p := TargetPage(db, Table, c.key);
    if Descend(db.ns, Table, db.sh, c.key).At? && p in db.ns {
      LeafCosts(db, c.key, size, size);
      LeafRoom(db.ns, p, db.ns[p].typ, pageSize);
      EqualSplitFits(db.ns[p].cells, c, pageSize);
    }
  }

  /** Cells and gap make up all of page q behind its header, as on every page the code builds. */
  predicate Tight(q: nat, p: Page, pageSize: nat) {
    match p
    case Page(typ, cells, _, room) => Costs(cells) + room == pageSize - ArrayAt(q, typ)
  }

  ghost predicate Packed(db: Db, pageSize: nat) {
    forall q :: q in PagesOf(db.sh) && q in db.ns ==> Tight(q, db.ns[q], pageSize)
  }

  lemma FillTight(q: nat, p: Page, c: Cell, pageSize: nat)
    requires Tight(q, p, pageSize)
    ensures Tight(q, Fill(p, c), pageSize)
  {
    CostsInsert(p.cells, Gap(p.cells, c.key), c);
  }

  /** The pages after a step: old ones as they were, the target with the cell in it, or three that
      were built. */
  lemma StepTight(db: Db, k: Kind, c: Cell, pageSize: nat, q: nat)
    requires WellFormed(db, k) && Storable(k, c) && q in Step(db, k, c, pageSize).1.ns
    requires q in db.ns ==> Tight(q, db.ns[q], pageSize)
    ensures Tight(q, Step(db, k, c, pageSize).1.ns[q], pageSize)
  {
    hide IsTree, Once, PagesOf, Graft, Descend, Fill, LeftHalf, RightHalf, RootCell, Need, HasKey, Costs;
    if q in db.ns {
      FillTight(q, db.ns[q], c, pageSize);
    }
  }

  /** Every step keeps a packed tree packed. */
  lemma StepPacked(db: Db, k: Kind, c: Cell, pageSize: nat)
    requires WellFormed(db, k) && Storable(k, c) && Packed(db, pageSize)
    ensures Packed(Step(db, k, c, pageSize).1, pageSize)
  {
    hide IsTree, Once, PagesOf, Step, Tight;
    var db' := Step(db, k, c, pageSize).1;
    StepIsLocal(db, k, c, pageSize);
    StepPages(db, k, c, pageSize);
    forall q | q in PagesOf(db'.sh) && q in db'.ns
      ensures Tight(q, db'.ns[q], pageSize)
    {
      StepTight(db, k, c, pageSize, q);
    }
  }

  /** Rows of at least lo and at most hi bytes, hi small against the page, split evenly enough. */
  predicate Balanced(lo: nat, hi: nat, pageSize: nat) {
    1 <= lo <= hi && 108 + hi <= pageSize && 2 * hi * hi <= (pageSize - 108 - hi) * lo
  }

  lemma {:induction false} CostsAtMost(cs: seq<Cell>, hi: nat)
    requires forall i :: 0 <= i < |cs| ==> Cost(cs[i]) <= hi
    ensures Costs(cs) <= |cs| * hi
  {
    if cs != [] {
      CostsAtMost(cs[1..], hi);
      assert Costs(cs) == Cost(cs[0]) + Costs(cs[1..]);
      assert |cs| * hi == hi + |cs[1..]| * hi;
    }
  }

  lemma Cancel(a: nat, b: nat, x: nat)
    requires x >= 1 && a * x <= b * x
    ensures a <= b
  {
    if b < a {
      Products(b, a, x);
    }
  }

  /** A leaf with no room for a row has so many that half of them outweigh any one. */
  lemma ManyRows(n: nat, lo: nat, hi: nat, pageSize: nat)
    requires Balanced(lo, hi, pageSize) && n * hi >= pageSize - 108 - hi
    ensures hi <= (n + 1) / 2 * lo
  {
    var m := (n + 1) / 2;
    Products(n, 2 * m, hi);
    Products(pageSize - 108 - hi, 2 * m * hi, lo);
    assert 2 * m * hi * lo == (m * lo) * (2 * hi);
    Cancel(hi, m * lo, 2 * hi);
  }

  lemma EvenStepFits(db: Db, c: Cell, lo: nat, hi: nat, pageSize: nat)
    requires WellFormed(db, Table) && PagesFit(db.ns, pageSize) && Packed(db, pageSize)
    requires Storable(Table, c) && (db.nPages + 1) * pageSize < FILE_SPAN
    requires Balanced(lo, hi, pageSize) && RowsIn(Walk(db.ns, Table, db.sh), lo, hi) && lo <= Cost(c) <= hi
    ensures StepFits(db, Table, c, pageSize)
  {
    hide IsTree, Once, PagesOf, PagesFit, SplitFits, Descend, Walk, RowsIn, Costs, Balanced;
    var p := TargetPage(db, Table, c.key);
    if Descend(db.ns, Table, db.sh, c.key).At? && p in db.ns && db.ns[p].room < Need(c) {
      LeafCosts(db, c.key, lo, hi);
      LeafRoom(db.ns, p, db.ns[p].typ, pageSize);
      TargetInPages(db.ns, Table, db.sh, c.key);
      assert Tight(p, db.ns[p], pageSize);
      TargetIsLeaf(db.ns, Table, db.sh, c.key, -1, MAX_KEY);
      CostsAtMost(db.ns[p].cells, hi);
      ManyRows(|db.ns[p].cells|, lo, hi, pageSize);
      HiFits(lo, hi, pageSize);
      TableSplitFits(db.ns[p].cells, c, lo, hi, pageSize);
    }
  }

  lemma HiFits(lo: nat, hi: nat, pageSize: nat)
    requires Balanced(lo, hi, pageSize)
    ensures hi <= pageSize - 8
  {
  }

  /** A run of insertions of rows of different sizes never overruns a page either, as long as the
      sizes are balanced: whatever the order of the keys, wherever the splits fall. */
  lemma {:induction false} EvenRunFits(db: Db, cs: seq<Cell>, lo: nat, hi: nat, pageSize: nat)
    requires WellFormed(db, Table) && PagesFit(db.ns, pageSize) && Packed(db, pageSize) && pageSize >= MIN_PAGE
    requires AllStorable(Table, cs) && NewKeys(Walk(db.ns, Table, db.sh), cs)
    requires (db.nPages + 2 * |cs| - 1) * pageSize < FILE_SPAN
    requires Balanced(lo, hi, pageSize) && RowsIn(Walk(db.ns, Table, db.sh), lo, hi) && CostsIn(cs, lo, hi)
    ensures RunFits(db, Table, cs, pageSize)
    decreases |cs|
  {
    hide IsTree, Once, PagesOf, Walk, PagesFit, Packed, Step, AllStorable, NewKeys, StepFits, RowsIn, Put, Balanced;
    if cs != [] {
      RestStorable(Table, cs);
      SpanLeft(db, Table, cs, pageSize);
      EvenStepFits(db, cs[0], lo, hi, pageSize);
      RunStep(db, Table, cs, pageSize);
      StepPacked(db, Table, cs[0], pageSize);
      OneRow(cs[0], lo, hi);
      RowsPut(Walk(db.ns, Table, db.sh), EntryOf(cs[0]), lo, hi);
      EvenRunFits(Step(db, Table, cs[0], pageSize).1, cs[1..], lo, hi, pageSize);
    }
  }
}
