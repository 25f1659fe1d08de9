/** What one insertion means for lookups, when duplicates are reported, and what every run of insertions
    keeps (db/src/libchidb/btree.c:659-858). */
module TreeRuns {
  import opened Paging
  import opened Layout
  import opened Tree
  import opened TreeDefs
  import opened TreeInsert
  import opened TreeStep
  import opened Nodes

  /** Putting in an entry with a new key changes the lookup of that key and of no other. */
  lemma {:induction false} FindPut(es: seq<Entry>, e: Entry, key: nat)
    requires Find(es, e.key) == Missing
    ensures Find(Put(es, e), key) == if key == e.key then Hit(e) else Find(es, key)
  {
    if es != [] && es[0].key <= e.key {
      FindPut(es[1..], e, key);
    } else {
      assert es != [] ==> ([e] + es)[1..] == es;
      assert es == [] ==> [e][1..] == es;
    }
  }

  /** The step extends the file by nothing or by two pages, and touches only the target leaf and
      those two. */
  lemma StepIsLocal(db: Db, k: Kind, c: Cell, pageSize: nat)
    requires WellFormed(db, k) && Storable(k, c)
    ensures var db', t := Step(db, k, c, pageSize).1, Descend(db.ns, k, db.sh, c.key);
            && (db'.nPages == db.nPages || db'.nPages == db.nPages + 2)
            && (t.Held? ==> db' == db)
            && (forall q: nat :: q <= db.nPages && t != At(q) ==>
                  (q in db'.ns <==> q in db.ns) && (q in db.ns ==> db'.ns[q] == db.ns[q]))
            && (forall q :: q in db'.ns ==> 1 <= q <= db'.nPages)
  {
    hide IsTree, Once, PagesOf, Graft, Descend, Fill, LeftPage, RightPage, RootPage, HasKey, Need;
  }

  /** The pages the step reaches afterwards. */
  lemma StepPages(db: Db, k: Kind, c: Cell, pageSize: nat)
    requires Once(db.sh) && db.nPages + 2 <= MAX_KEY
    requires forall q :: q in PagesOf(db.sh) ==> 1 <= q <= db.nPages
    ensures var db' := Step(db, k, c, pageSize).1;
            PagesOf(db'.sh) == PagesOf(db.sh) + if db'.nPages == db.nPages then {} else {db.nPages + 1, db.nPages + 2}
  {
    hide Once, PagesOf, Graft, Descend, Fill, LeftPage, RightPage, RootPage, HasKey, Need, Three;
    var t := Descend(db.ns, k, db.sh, c.key);
    if t.At? && t.page in db.ns && db.ns[t.page].room < Need(c) {
      SplitReaches(db.ns, k, db.sh, c.key, t.page, db.nPages);
    }
  }

  lemma SplitReaches(ns: Store, k: Kind, sh: Shape, key: nat, p: nat, n: nat)
    requires Once(sh) && Descend(ns, k, sh, key) == At(p) && forall q :: q in PagesOf(sh) ==> 1 <= q <= n
    ensures PagesOf(Graft(ns, k, sh, key, Inner(p, [Leaf(n + 1), Leaf(n + 2)]))) == PagesOf(sh) + {n + 1, n + 2}
  {
    TargetInPages(ns, k, sh, key);
    FreshSplit(sh, n, p);
    GraftOnce(ns, k, sh, key, Inner(p, [Leaf(n + 1), Leaf(n + 2)]));
  }

  /** A step leaves a database that more steps can be made on. */
  lemma StepWellFormed(db: Db, k: Kind, c: Cell, pageSize: nat)
    requires WellFormed(db, k) && Storable(k, c)
    requires Find(Walk(db.ns, k, db.sh), c.key) == Missing
    requires Step(db, k, c, pageSize).1.nPages + 2 <= MAX_KEY
    ensures WellFormed(Step(db, k, c, pageSize).1, k)
  {
    hide IsTree, Once, Walk, Put, Step, PagesOf, Descend;
    StepInserts(db, k, c, pageSize);
    StepIsLocal(db, k, c, pageSize);
    StepPages(db, k, c, pageSize);
  }

  /** One insertion of an absent key: the tree stays well formed, every lookup of another key gives
      what it gave before, and the lookup of this key gives the new entry.  No page is overrun if and
      only if both halves of a split fit. */
  lemma StepRefinesMap(db: Db, k: Kind, c: Cell, pageSize: nat, key: nat)
    requires WellFormed(db, k) && Storable(k, c)
    requires Find(Walk(db.ns, k, db.sh), c.key) == Missing
    ensures var (rc, db') := Step(db, k, c, pageSize);
            && rc == Ok
            && db'.sh.page == db.sh.page
            && (db'.nPages + 2 <= MAX_KEY ==> WellFormed(db', k))
            && (PagesFit(db.ns, pageSize) && pageSize >= MIN_PAGE ==>
                  (PagesFit(db'.ns, pageSize) <==> HalvesFit(db, k, c, pageSize)))
            && Find(Walk(db'.ns, k, db'.sh), key) ==
                 if key == c.key then Hit(EntryOf(c)) else Find(Walk(db.ns, k, db.sh), key)
  {
    hide IsTree, Once, Walk, Put, Step, PagesOf, Descend, PagesFit, HalvesFit, Storable;
    StepInserts(db, k, c, pageSize);
    if Step(db, k, c, pageSize).1.nPages + 2 <= MAX_KEY {
      StepWellFormed(db, k, c, pageSize);
    }
    FindPut(Walk(db.ns, k, db.sh), EntryOf(c), key);
  }

  /** An existing key is reported, and the pages left alone, exactly when the descent meets it in an
      internal index cell or its leaf still has room: a full leaf is split without looking. */
  lemma DuplicateIff(db: Db, k: Kind, c: Cell, pageSize: nat)
    requires WellFormed(db, k) && Storable(k, c) && c.key <= MAX_KEY
    ensures var (rc, db') := Step(db, k, c, pageSize);
            var t := Descend(db.ns, k, db.sh, c.key);
            && (rc == Duplicate <==>
                  Find(Walk(db.ns, k, db.sh), c.key).Hit?
                  && (t.Held? || (t.page in db.ns && db.ns[t.page].room >= Need(c))))
            && (rc == Duplicate ==> db' == db)
            && (rc == Duplicate || rc == Ok)
  {
    FindAtTarget(db.ns, k, db.sh, c.key, -1, MAX_KEY);
    var t := Descend(db.ns, k, db.sh, c.key);
    if t.At? {
      FindEntries(db.ns[t.page].cells, c.key);
    }
  }

  /** A tree that shares no page with this one, among the pages in use, is left as it was. */
  lemma OtherTreesKept(db: Db, k: Kind, c: Cell, pageSize: nat, k2: Kind, sh2: Shape, lo: int, hi: int)
    requires WellFormed(db, k) && Storable(k, c)
    requires IsTree(db.ns, k2, sh2, lo, hi) && PagesOf(sh2) !! PagesOf(db.sh)
    requires forall q :: q in PagesOf(sh2) ==> q <= db.nPages
    ensures var db' := Step(db, k, c, pageSize).1;
            IsTree(db'.ns, k2, sh2, lo, hi) && Walk(db'.ns, k2, sh2) == Walk(db.ns, k2, sh2)
  {
    var db' := Step(db, k, c, pageSize).1;
    StepIsLocal(db, k, c, pageSize);
    if Descend(db.ns, k, db.sh, c.key).At? {
      TargetInPages(db.ns, k, db.sh, c.key);
    }
    assert Agree(db.ns, db'.ns, PagesOf(sh2));
    Frame(db.ns, db'.ns, k2, sh2, lo, hi);
  }

  /** A run of insertions, one after the other, as long as two more page numbers are left. */
  function Run(db: Db, k: Kind, cs: seq<Cell>, pageSize: nat): Db
    decreases |cs|
  {
    if cs == [] || db.nPages + 2 > MAX_KEY then db
    else Run(Step(db, k, cs[0], pageSize).1, k, cs[1..], pageSize)
  }

  /** Whenever the run splits a leaf, both halves fit and the file can take two more pages. */
  predicate RunFits(db: Db, k: Kind, cs: seq<Cell>, pageSize: nat)
    decreases |cs|
  {
    cs != [] ==>
      && db.nPages + 2 <= MAX_KEY
      && StepFits(db, k, cs[0], pageSize)
      && RunFits(Step(db, k, cs[0], pageSize).1, k, cs[1..], pageSize)
  }

  predicate AllStorable(k: Kind, cs: seq<Cell>) {
    forall i :: 0 <= i < |cs| ==> Storable(k, cs[i])
  }

  lemma RestStorable(k: Kind, cs: seq<Cell>)
    requires cs != [] && AllStorable(k, cs)
    ensures Storable(k, cs[0]) && AllStorable(k, cs[1..])
  {
  }

  /** A file that can take two more pages has page numbers left after that. */
  lemma StepLeavesNumbers(db: Db, k: Kind, c: Cell, pageSize: nat)
    requires db.nPages + 2 <= MAX_KEY && StepFits(db, k, c, pageSize) && pageSize >= MIN_PAGE
    ensures Step(db, k, c, pageSize).1.nPages + 2 <= MAX_KEY
  {
    hide Descend, SplitFits, Need, LeftPage, RightPage, RootPage, Graft;
    if (db.nPages + 1) * pageSize < FILE_SPAN {
      Products(MIN_PAGE, pageSize, db.nPages + 1);
    }
  }

  /** The same entries put in one after the other. */
  function PutAll(es: seq<Entry>, cs: seq<Cell>): seq<Entry>
    decreases |cs|
  {
    if cs == [] then es else PutAll(Put(es, EntryOf(cs[0])), cs[1..])
  }

  predicate NewKeys(es: seq<Entry>, cs: seq<Cell>) {
    && (forall i :: 0 <= i < |cs| ==> Find(es, cs[i].key) == Missing)
    && (forall i, j :: 0 <= i < j < |cs| ==> cs[i].key != cs[j].key)
  }

  /** What one step of a run keeps. */
  lemma RunStep(db: Db, k: Kind, cs: seq<Cell>, pageSize: nat)
    requires WellFormed(db, k) && PagesFit(db.ns, pageSize) && pageSize >= MIN_PAGE && cs != []
    requires AllStorable(k, cs) && NewKeys(Walk(db.ns, k, db.sh), cs) && StepFits(db, k, cs[0], pageSize)
    ensures var db' := Step(db, k, cs[0], pageSize).1;
            && WellFormed(db', k) && PagesFit(db'.ns, pageSize)
            && db'.sh.page == db.sh.page
            && Walk(db'.ns, k, db'.sh) == Put(Walk(db.ns, k, db.sh), EntryOf(cs[0]))
            && AllStorable(k, cs[1..]) && NewKeys(Walk(db'.ns, k, db'.sh), cs[1..])
  {
    hide IsTree, Once, PagesOf, Walk, Put, PagesFit, Step, AllStorable;
    RestStorable(k, cs);
    StepInserts(db, k, cs[0], pageSize);
    StepLeavesNumbers(db, k, cs[0], pageSize);
    StepWellFormed(db, k, cs[0], pageSize);
    StillNew(Walk(db.ns, k, db.sh), cs);
  }

  /** Every run of insertions of new distinct keys whose splits fit keeps the tree well formed with
      its root page in place and every page within its bounds, and its traversal is the old one with
      the new entries put in, in increasing order. */
  lemma {:induction false} RunKeepsTree(db: Db, k: Kind, cs: seq<Cell>, pageSize: nat)
    requires WellFormed(db, k) && PagesFit(db.ns, pageSize) && pageSize >= MIN_PAGE
    requires AllStorable(k, cs) && NewKeys(Walk(db.ns, k, db.sh), cs) && RunFits(db, k, cs, pageSize)
    ensures var db' := Run(db, k, cs, pageSize);
            && WellFormed(db', k) && PagesFit(db'.ns, pageSize)
            && db'.sh.page == db.sh.page
            && Walk(db'.ns, k, db'.sh) == PutAll(Walk(db.ns, k, db.sh), cs)
            && Sorted(Walk(db'.ns, k, db'.sh))
    decreases |cs|
  {
    hide IsTree, Once, PagesOf, Walk, Put, PagesFit, Step, AllStorable, NewKeys, StepFits;
    if cs == [] {
      WalkSorted(db.ns, k, db.sh, -1, MAX_KEY);
    } else {
      RunStep(db, k, cs, pageSize);
      RunKeepsTree(Step(db, k, cs[0], pageSize).1, k, cs[1..], pageSize);
    }
  }

  /** A file that can take two pages more for every cell can do so after a step for those left. */
  lemma SpanLeft(db: Db, k: Kind, cs: seq<Cell>, pageSize: nat)
    requires WellFormed(db, k) && AllStorable(k, cs) && cs != [] && (db.nPages + 2 * |cs| - 1) * pageSize < FILE_SPAN
    ensures (Step(db, k, cs[0], pageSize).1.nPages + 2 * |cs[1..]| - 1) * pageSize < FILE_SPAN
    ensures (db.nPages + 1) * pageSize < FILE_SPAN
  {
    hide IsTree, Once, PagesOf, Step;
    RestStorable(k, cs);
    StepIsLocal(db, k, cs[0], pageSize);
    var n := Step(db, k, cs[0], pageSize).1.nPages + 2 * |cs[1..]|;
    if n >= 1 {
      Products(n - 1, db.nPages + 2 * |cs| - 1, pageSize);
    }
    Products(db.nPages + 1, db.nPages + 2 * |cs| - 1, pageSize);
  }

  /** Every state of the run, the first and the last included, has its pages within their bounds. */
  ghost predicate NeverOverrun(db: Db, k: Kind, cs: seq<Cell>, pageSize: nat)
    decreases |cs|
  {
    && PagesFit(db.ns, pageSize)
    && (cs != [] && db.nPages + 2 <= MAX_KEY ==> NeverOverrun(Step(db, k, cs[0], pageSize).1, k, cs[1..], pageSize))
  }

  /** The condition is exact: while the file can grow, a run overruns no page if and only if it
      fits. */
  lemma {:induction false} RunFitsIff(db: Db, k: Kind, cs: seq<Cell>, pageSize: nat)
    requires WellFormed(db, k) && PagesFit(db.ns, pageSize) && pageSize >= MIN_PAGE
    requires AllStorable(k, cs) && NewKeys(Walk(db.ns, k, db.sh), cs)
    requires (db.nPages + 2 * |cs| - 1) * pageSize < FILE_SPAN
    ensures RunFits(db, k, cs, pageSize) <==> NeverOverrun(db, k, cs, pageSize)
    decreases |cs|
  {
    hide IsTree, Once, PagesOf, Walk, Put, PagesFit, Step, AllStorable, NewKeys, SplitFits, Descend, Need;
    if cs != [] {
      RestStorable(k, cs);
      SpanLeft(db, k, cs, pageSize);
      OverrunIff(db, k, cs[0], pageSize);
      if StepFits(db, k, cs[0], pageSize) {
        var db' := Step(db, k, cs[0], pageSize).1;
        RunStep(db, k, cs, pageSize);
        RunFitsIff(db', k, cs[1..], pageSize);
      }
    }
  }

  lemma StillNew(es: seq<Entry>, cs: seq<Cell>)
    requires cs != [] && NewKeys(es, cs)
    ensures NewKeys(Put(es, EntryOf(cs[0])), cs[1..])
  {
    forall i | 0 <= i < |cs[1..]|
      ensures Find(Put(es, EntryOf(cs[0])), cs[1..][i].key) == Missing
    {
      FindPut(es, EntryOf(cs[0]), cs[i + 1].key);
    }
  }

  /** Nothing is lost and nothing doubled: a lookup after the run gives the inserted entry, or what
      it gave before. */
  lemma {:induction false} FindPutAll(es: seq<Entry>, cs: seq<Cell>, key: nat)
    requires NewKeys(es, cs)
    ensures |PutAll(es, cs)| == |es| + |cs|
    ensures forall i :: 0 <= i < |cs| && cs[i].key == key ==> Find(PutAll(es, cs), key) == Hit(EntryOf(cs[i]))
    ensures (forall i :: 0 <= i < |cs| ==> cs[i].key != key) ==> Find(PutAll(es, cs), key) == Find(es, key)
    decreases |cs|
  {
    if cs != [] {
      var es' := Put(es, EntryOf(cs[0]));
      StillNew(es, cs);
      FindPut(es, EntryOf(cs[0]), key);
      FindPutAll(es', cs[1..], key);
      assert forall i :: 0 < i < |cs| ==> cs[i] == cs[1..][i - 1];
    }
  }
}
