/** Runs of insertions on the pages of a file, and what find and print give afterwards
    (db/src/libchidb/btree.c:511-858, db/src/libchidb/util.c:123-199). */
module FileRuns {
  import opened Bytes
  import opened Paging
  import opened Layout
  import opened Tree
  import opened TreeDefs
  import opened TreeInsert
  import opened TreeStep
  import opened TreeRuns
  import opened TreeDoubles
  import opened Nodes
  import opened BTree
  import opened BTreeInsert
  import opened SplitFit

  /** A file that runs of insertions can be made on. */
  ghost predicate Open(pager: Pager, k: Kind, sh: Shape)
    reads pager
  {
    pager.Valid() && pager.pageSize >= MIN_PAGE && WellFormed(DbOf(pager, sh), k)
  }

  /** The entries of the tree, in order. */
  ghost function Listed(pager: Pager, k: Kind, sh: Shape): seq<Entry>
    reads pager
  {
    Walk(View(pager.Contents()), k, sh)
  }

  lemma FileFits(pager: Pager)
    ensures PagesFit(View(pager.Contents()), pager.pageSize)
  {
    ViewFits(pager.Contents(), pager.pageSize);
  }

  /** Every page that is not among ps is what it was, and no page is lost. */
  ghost predicate SameOutside(pages: Pages, pages': Pages, ps: set<nat>) {
    forall q :: q in pages && q !in ps ==> q in pages' && pages'[q] == pages[q]
  }

  /** One step and then a run leave the pages outside the tree alone. */
  lemma OutsideKept(db: Db, k: Kind, c: Cell, pageSize: nat, pages: Pages, mid: Pages, pages': Pages)
    requires WellFormed(db, k) && Storable(k, c) && db.ns == View(pages)
    requires forall q :: q in pages ==> q <= db.nPages
    requires SameBut(pages, mid, TargetPage(db, k, c.key)) && 0 !in pages
    requires SameOutside(mid, pages', PagesOf(Step(db, k, c, pageSize).1.sh))
    ensures SameOutside(pages, pages', PagesOf(db.sh))
  {
    hide IsTree, Once, PagesOf, Step, View, Descend;
    StepPages(db, k, c, pageSize);
    StepIsLocal(db, k, c, pageSize);
    if Descend(db.ns, k, db.sh, c.key).At? {
      TargetInPages(db.ns, k, db.sh, c.key);
    }
  }

  /** chidb_Btree_insert once for every cell.  The root stays on its page, the traversal is the old
      one with all entries put in, and the pages outside the tree keep their bytes. */
  method InsertAll(pager: Pager, nroot: nat, cells: seq<Cell>, ghost k: Kind, ghost sh: Shape)
    returns (ghost sh': Shape)
    requires Open(pager, k, sh) && sh.page == nroot
    requires AllStorable(k, cells) && NewKeys(Listed(pager, k, sh), cells)
    requires RunFits(DbOf(pager, sh), k, cells, pager.pageSize)
    modifies pager
    ensures Open(pager, k, sh') && sh'.page == nroot
    ensures DbOf(pager, sh') == Run(old(DbOf(pager, sh)), k, cells, pager.pageSize)
    ensures Listed(pager, k, sh') == PutAll(old(Listed(pager, k, sh)), cells)
    ensures Sorted(Listed(pager, k, sh'))
    ensures SameOutside(old(pager.Contents()), pager.Contents(), PagesOf(sh))
    decreases |cells|
  {
    hide View, IsTree, Once, PagesOf, Step, Walk, StepFits, AllStorable, NewKeys, Sorted, Put;
    ghost var db, pages := DbOf(pager, sh), pager.Contents();
    FileFits(pager);
    if cells == [] {
      WalkSorted(db.ns, k, sh, -1, MAX_KEY);
      return sh;
    }
    RunStep(db, k, cells, pager.pageSize);
    RestStorable(k, cells);
    var _, next := Insert(pager, nroot, cells[0], k, sh);
    ghost var mid := pager.Contents();
    sh' := InsertAll(pager, nroot, cells[1..], k, next);
    OutsideKept(db, k, cells[0], pager.pageSize, pages, mid, pager.Contents());
  }

  /** A key that is there already: whether it is reported, or stored a second time because its leaf is
      full, every search afterwards gives what it gave before. */
  method InsertAgainThenFind(pager: Pager, nroot: nat, cell: Cell, key: u32, ghost sh: Shape)
    returns (inserted: Status, status: Status, data: seq<byte>)
    requires Open(pager, Table, sh) && sh.page == nroot && Storable(Table, cell)
    requires StepFits(DbOf(pager, sh), Table, cell, pager.pageSize)
    requires Tree.Find(Listed(pager, Table, sh), cell.key).Hit?
    modifies pager
    ensures inserted == if HasRoom(old(DbOf(pager, sh)), Table, cell) then Duplicate else Ok
    ensures inserted == Duplicate ==> pager.file == old(pager.file) && pager.nPages == old(pager.nPages)
    ensures match old(Tree.Find(Listed(pager, Table, sh), key))
            case Missing => status == NotFound
            case Hit(e) => status == Ok && e == Row(key, data)
  {
    hide View, Once, PagesOf, Walk, IsTree, Step, Storable, Tree.Find, StepFits, HasRoom;
    ghost var db := DbOf(pager, sh);
    ghost var sh';
    AgainFinds(db, cell, pager.pageSize, key);
    inserted, sh' := Insert(pager, nroot, cell, Table, sh);
    status, data := Search(pager, nroot, key, View(pager.Contents()), sh');
  }

  /** The descent ends at a leaf with room for the cell. */
  predicate HasRoom(db: Db, k: Kind, c: Cell) {
    match Descend(db.ns, k, db.sh, c.key)
    case Held => true
    case At(p) => p in db.ns && db.ns[p].room >= Need(c)
  }

  lemma AgainFinds(db: Db, c: Cell, pageSize: nat, key: nat)
    requires WellFormed(db, Table) && Storable(Table, c) && c.key <= MAX_KEY && key <= MAX_KEY
    requires Tree.Find(Walk(db.ns, Table, db.sh), c.key).Hit?
    ensures var (rc, db') := Step(db, Table, c, pageSize);
            && rc == (if HasRoom(db, Table, c) then Duplicate else Ok)
            && Laid(db'.ns, Table, db'.sh) && db'.sh.page == db.sh.page
            && LookUp(db'.ns, db'.sh, key) == Tree.Find(Walk(db.ns, Table, db.sh), key)
  {
    hide Walk, Storable, Once, PagesOf, Tree.Find, Laid, LookUp, IsTree;
    FindAtTarget(db.ns, Table, db.sh, c.key, -1, MAX_KEY);
    DuplicateIff(db, Table, c, pageSize);
    if HasRoom(db, Table, c) {
      TreeLaid(db.ns, Table, db.sh, -1, MAX_KEY);
      TreeLookUp(db.ns, db.sh, key, -1, MAX_KEY);
    } else {
      DuplicateLookUp(db, c, pageSize, key);
    }
  }

  /** A run on a table and a search: every inserted key gives exactly its own bytes, every other key
      what the table held under it before. */
  method InsertAllThenFind(pager: Pager, nroot: nat, cells: seq<Cell>, key: u32, ghost sh: Shape)
    returns (status: Status, data: seq<byte>)
    requires Open(pager, Table, sh) && sh.page == nroot
    requires AllStorable(Table, cells) && NewKeys(Listed(pager, Table, sh), cells)
    requires RunFits(DbOf(pager, sh), Table, cells, pager.pageSize)
    modifies pager
    ensures forall i :: 0 <= i < |cells| && cells[i].key == key ==>
        status == Ok && EntryOf(cells[i]) == Row(key, data)
    ensures (forall i :: 0 <= i < |cells| ==> cells[i].key != key) ==>
        match old(Tree.Find(Listed(pager, Table, sh), key))
        case Missing => status == NotFound
        case Hit(e) => status == Ok && e == Row(key, data)
  {
    hide View, Once, PagesOf, Walk, AllStorable, NewKeys, Sorted, RunFits, PutAll, Run, SameOutside, Tree.Find;
    ghost var es := Listed(pager, Table, sh);
    ghost var sh' := InsertAll(pager, nroot, cells, Table, sh);
    FindPutAll(es, cells, key);
    status, data := FindRow(pager, nroot, key, sh', -1, MAX_KEY);
  }

  /** A run and the recursive print: the old entries and the new ones, each once, in increasing order
      of their keys. */
  method InsertAllThenPrint(pager: Pager, nroot: nat, cells: seq<Cell>, ghost k: Kind, ghost sh: Shape)
    returns (out: seq<Entry>)
    requires Open(pager, k, sh) && sh.page == nroot
    requires AllStorable(k, cells) && NewKeys(Listed(pager, k, sh), cells)
    requires RunFits(DbOf(pager, sh), k, cells, pager.pageSize)
    modifies pager
    ensures Sorted(out) && multiset(out) == multiset(old(Listed(pager, k, sh)) + Entries(cells))
    ensures out == PutAll(old(Listed(pager, k, sh)), cells)
    ensures |out| == old(|Listed(pager, k, sh)|) + |cells|
    ensures forall e :: e in out <==> old(OnPages(View(pager.Contents()), sh, e)) || Given(cells, e)
  {
    hide View, Once, PagesOf, Walk, AllStorable, NewKeys, Sorted, RunFits, PutAll, Run, SameOutside;
    ghost var es, ns := Listed(pager, k, sh), View(pager.Contents());
    ghost var sh' := InsertAll(pager, nroot, cells, k, sh);
    PutAllShows(ns, k, sh, cells);
    PutAllKeeps(es, cells);
    out := Print(pager, nroot, View(pager.Contents()), k, sh', -1, MAX_KEY);
  }

  /** One of the cells says e. */
  predicate Given(cells: seq<Cell>, e: Entry) {
    exists i :: 0 <= i < |cells| && Shows(cells[i], e)
  }

  /** After a run the traversal lists what the pages said before and what the new cells say. */
  lemma PutAllShows(ns: Store, k: Kind, sh: Shape, cells: seq<Cell>)
    requires IsTree(ns, k, sh, -1, MAX_KEY) && AllStorable(k, cells)
    ensures var out := PutAll(Walk(ns, k, sh), cells);
            && |out| == |Walk(ns, k, sh)| + |cells|
            && forall e :: e in out <==> OnPages(ns, sh, e) || Given(cells, e)
  {
    hide Walk, PutAll, OnPages, IsTree;
    var es, out := Walk(ns, k, sh), PutAll(Walk(ns, k, sh), cells);
    PutAllKeeps(es, cells);
    assert |out| == |multiset(out)| == |es + Entries(cells)|;
    forall e
      ensures e in out <==> OnPages(ns, sh, e) || Given(cells, e)
    {
      assert e in out <==> e in multiset(es + Entries(cells));
      WalkShows(ns, k, sh, -1, MAX_KEY, e);
      GivenEntries(k, cells, e);
    }
  }

  lemma GivenEntries(k: Kind, cells: seq<Cell>, e: Entry)
    requires AllStorable(k, cells)
    ensures e in Entries(cells) <==> Given(cells, e)
  {
    forall i | 0 <= i < |cells|
      ensures e == Entries(cells)[i] <==> Shows(cells[i], e)
    {
      assert Storable(k, cells[i]);
    }
  }

  lemma {:induction false} PutKeeps(es: seq<Entry>, e: Entry)
    ensures multiset(Put(es, e)) == multiset(es) + multiset{e}
  {
    if es != [] && es[0].key <= e.key {
      PutKeeps(es[1..], e);
      assert es == [es[0]] + es[1..];
    }
  }

  /** The entries after a run are the old ones and the new ones. */
  lemma {:induction false} PutAllKeeps(es: seq<Entry>, cs: seq<Cell>)
    ensures multiset(PutAll(es, cs)) == multiset(es + Entries(cs))
    decreases |cs|
  {
    if cs == [] {
      assert es + Entries(cs) == es;
    } else {
      PutKeeps(es, EntryOf(cs[0]));
      PutAllKeeps(Put(es, EntryOf(cs[0])), cs[1..]);
      assert Entries(cs) == [EntryOf(cs[0])] + Entries(cs[1..]);
    }
  }

  lemma IndexFilled(cells: seq<Cell>, out: seq<Entry>)
    requires AllStorable(Index, cells) && multiset(out) == multiset(Entries(cells))
    ensures |out| == |cells| && forall i :: 0 <= i < |out| ==> out[i].Ref?
    ensures forall key: u32, keyPk: u32 :: Ref(key, keyPk) in out <==> IndexLeafCell(key, keyPk) in cells
  {
    SameMembers(out, Entries(cells));
    forall i | 0 <= i < |cells|
      ensures cells[i].IndexLeafCell? && Entries(cells)[i] == Ref(cells[i].key, cells[i].keyPk)
    {
      assert Storable(Index, cells[i]);
    }
    assert forall i :: 0 <= i < |out| ==> out[i] in out && out[i] in Entries(cells);
    forall key: u32, keyPk: u32
      ensures Ref(key, keyPk) in Entries(cells) <==> IndexLeafCell(key, keyPk) in cells
    {
      assert forall i :: 0 <= i < |cells| ==>
          (Entries(cells)[i] == Ref(key, keyPk) <==> cells[i] == IndexLeafCell(key, keyPk));
    }
  }

  lemma TableFilled(cells: seq<Cell>, out: seq<Entry>)
    requires AllStorable(Table, cells) && multiset(out) == multiset(Entries(cells))
    ensures |out| == |cells| && forall i :: 0 <= i < |out| ==> out[i].Row?
    ensures forall key: u32, data: seq<byte> :: Row(key, data) in out <==> TableLeafCell(key, data) in cells
  {
    SameMembers(out, Entries(cells));
    forall i | 0 <= i < |cells|
      ensures cells[i].TableLeafCell? && Entries(cells)[i] == Row(cells[i].key, cells[i].data)
    {
      assert Storable(Table, cells[i]);
    }
    assert forall i :: 0 <= i < |out| ==> out[i] in out && out[i] in Entries(cells);
    forall key: u32, data: seq<byte>
      ensures Row(key, data) in Entries(cells) <==> TableLeafCell(key, data) in cells
    {
      assert forall i :: 0 <= i < |cells| ==>
          (Entries(cells)[i] == Row(key, data) <==> cells[i] == TableLeafCell(key, data));
    }
  }

  lemma SameMembers(a: seq<Entry>, b: seq<Entry>)
    requires multiset(a) == multiset(b)
    ensures |a| == |b| && forall e :: e in a <==> e in b
  {
    assert |multiset(a)| == |a| && |multiset(b)| == |b|;
    forall e
      ensures e in a <==> e in b
    {
      assert e in multiset(a) <==> e in multiset(b);
    }
  }

  /** A new index, filled with entries of distinct keys in any order and printed, gives them in
      order.  All it takes is a file that stays below the span of a 32-bit offset. */
  method FillIndex(pager: Pager, cells: seq<Cell>) returns (npage: nat, out: seq<Entry>)
    requires pager.Valid() && pager.pageSize >= MIN_PAGE && AllStorable(Index, cells) && NewKeys([], cells)
    requires (pager.nPages + 2 * |cells|) * pager.pageSize < FILE_SPAN
    modifies pager
    ensures npage == old(pager.nPages) + 1
    ensures Sorted(out) && multiset(out) == multiset(Entries(cells))
    ensures |out| == |cells| && forall i :: 0 <= i < |out| ==> out[i].Ref?
    ensures forall key: u32, keyPk: u32 :: Ref(key, keyPk) in out <==> IndexLeafCell(key, keyPk) in cells
  {
    hide View, Once, PagesOf, Walk, AllStorable, NewKeys, Sorted, RunFits, PutAll, WellFormed;
    Products(pager.nPages, pager.nPages + 2 * |cells|, pager.pageSize);
    npage := NewTree(pager, Index, IndexLeaf);
    ghost var db := DbOf(pager, Leaf(npage));
    FileFits(pager);
    IndexRunFits(db, cells, pager.pageSize);
    out := InsertAllThenPrint(pager, npage, cells, Index, Leaf(npage));
    assert [] + Entries(cells) == Entries(cells);
    IndexFilled(cells, out);
  }

  /** An empty leaf is tight, and a table of no rows has rows of any size. */
  lemma EmptyTable(ns: Store, npage: nat, pageSize: nat, lo: nat, hi: nat)
    requires npage in ns && ns[npage] == Page(TableLeaf, [], 0, pageSize - ArrayAt(npage, TableLeaf))
    ensures Packed(Db(ns, npage, Leaf(npage)), pageSize) && RowsIn([], lo, hi)
  {
  }

  /** A new table, filled with rows of distinct keys in any order and printed, gives them in order,
      if the rows are all of one size, or of sizes that are balanced. */
  method FillTable(pager: Pager, cells: seq<Cell>, ghost lo: nat, ghost hi: nat) returns (npage: nat, out: seq<Entry>)
    requires pager.Valid() && pager.pageSize >= MIN_PAGE && AllStorable(Table, cells) && NewKeys([], cells)
    requires (pager.nPages + 2 * |cells|) * pager.pageSize < FILE_SPAN
    requires CostsIn(cells, lo, hi) && (Balanced(lo, hi, pager.pageSize) || lo == hi <= pager.pageSize - 8)
    modifies pager
    ensures npage == old(pager.nPages) + 1
    ensures Sorted(out) && multiset(out) == multiset(Entries(cells))
    ensures |out| == |cells| && forall i :: 0 <= i < |out| ==> out[i].Row?
    ensures forall key: u32, data: seq<byte> :: Row(key, data) in out <==> TableLeafCell(key, data) in cells
  {
    hide View, Once, PagesOf, Walk, AllStorable, NewKeys, Sorted, RunFits, PutAll, WellFormed, Packed, RowsIn, Balanced,
         CostsIn;
    Products(pager.nPages, pager.nPages + 2 * |cells|, pager.pageSize);
    npage := NewTree(pager, Table, TableLeaf);
    ghost var db := DbOf(pager, Leaf(npage));
    FileFits(pager);
    EmptyTable(db.ns, npage, pager.pageSize, lo, hi);
    if Balanced(lo, hi, pager.pageSize) {
      EvenRunFits(db, cells, lo, hi, pager.pageSize);
    } else {
      EqualRunFits(db, cells, lo, pager.pageSize);
    }
    out := InsertAllThenPrint(pager, npage, cells, Table, Leaf(npage));
    assert [] + Entries(cells) == Entries(cells);
    TableFilled(cells, out);
  }
}
