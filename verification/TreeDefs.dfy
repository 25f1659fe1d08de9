/** What an insertion does: to the traversal, to the pages of a tree, and to the file
    (db/src/libchidb/btree.c:659-858). */
module TreeDefs {
  import opened Bytes
  import opened Common
  import opened Paging
  import opened Layout
  import opened Tree
  import opened Nodes

  /** e put in front of the first entry with a larger key. */
  function Put(es: seq<Entry>, e: Entry): (r: seq<Entry>)
    ensures |r| == |es| + 1
  {
    if es == [] then [e]
    else if e.key < es[0].key then [e] + es
    else [es[0]] + Put(es[1..], e)
  }

  predicate Below(es: seq<Entry>, key: int) {
    forall i :: 0 <= i < |es| ==> es[i].key < key
  }

  predicate Beyond(es: seq<Entry>, key: int) {
    forall i :: 0 <= i < |es| ==> key < es[i].key
  }

  /** The first cell from i on whose key exceeds key, or the number of cells. */
  function GapFrom(cs: seq<Cell>, key: nat, i: nat): nat
    requires i <= |cs|
    decreases |cs| - i
  {
    if i == |cs| || key < cs[i].key then i else GapFrom(cs, key, i + 1)
  }

  lemma {:induction false} GapFromIs(cs: seq<Cell>, key: nat, i: nat)
    requires i <= |cs|
    ensures var g := GapFrom(cs, key, i);
            && i <= g <= |cs|
            && (forall j :: i <= j < g ==> cs[j].key <= key)
            && (g < |cs| ==> key < cs[g].key)
    decreases |cs| - i
  {
    if i < |cs| && cs[i].key <= key {
      GapFromIs(cs, key, i + 1);
    }
  }

  /** The first cell whose key exceeds key, or the number of cells. */
  function Gap(cs: seq<Cell>, key: nat): (i: nat)
    ensures i <= |cs|
    ensures forall j :: 0 <= j < i ==> cs[j].key <= key
    ensures i < |cs| ==> key < cs[i].key
  {
    GapFromIs(cs, key, 0);
    GapFrom(cs, key, 0)
  }

  predicate HasKey(cs: seq<Cell>, key: nat) {
    exists i :: 0 <= i < |cs| && cs[i].key == key
  }

  /** Where the descent for key ends: at a leaf page, or at an internal index cell with that key. */
  datatype Target = Held | At(page: nat)

  function Descend(ns: Store, k: Kind, sh: Shape, key: nat): Target
    decreases sh
  {
    match sh
    case Leaf(p) => At(p)
    case Inner(p, kids) =>
      if p !in ns then Held else
      var cs := ns[p].cells;
      var i := Slot(cs, key);
      if (k.Index? && i < |cs| && cs[i].key == key) || i >= |kids| then Held
      else Descend(ns, k, kids[i], key)
  }

  /** What a descent for the key finds in the leaf of a table it ends at. */
  function LookUp(ns: Store, sh: Shape, key: nat): Lookup {
    match Descend(ns, Table, sh, key)
    case Held => Missing
    case At(p) => if p in ns then Find(Entries(ns[p].cells), key) else Missing
  }

  /** The pages of ns are laid out as sh; of the order of their keys nothing is said. */
  ghost predicate Laid(ns: Store, k: Kind, sh: Shape)
    decreases sh
  {
    match sh
    case Leaf(p) => p in ns && ns[p].typ == k.LeafType()
    case Inner(p, kids) =>
      && p in ns && ns[p].typ == k.InnerType()
      && |kids| == |ns[p].cells| + 1
      && forall i :: 0 <= i < |kids| ==> kids[i].page == Child(ns[p], i) && Laid(ns, k, kids[i])
  }

  /** sh with the leaf the descent reaches replaced by sub. */
  function Graft(ns: Store, k: Kind, sh: Shape, key: nat, sub: Shape): (r: Shape)
    decreases sh
  {
    match sh
    case Leaf(p) => sub
    case Inner(p, kids) =>
      if p !in ns then sh else
      var i := Slot(ns[p].cells, key);
      if i >= |kids| then sh else Inner(p, kids[i := Graft(ns, k, kids[i], key, sub)])
  }

  ghost predicate Agree(ns: Store, ns': Store, ps: set<nat>) {
    forall q :: q in ps ==> (q in ns <==> q in ns') && (q in ns ==> ns[q] == ns'[q])
  }

  /** What replaces the target leaf is a tree under any bounds that hold the leaf and the new key,
      and lists the leaf with the entry put in. */
  ghost predicate Replaces(ns: Store, ns': Store, k: Kind, p: nat, sub: Shape, e: Entry) {
    && p in ns
    && sub.page == p
    && (forall l: int, h: int :: PageFits(ns[p], k.LeafType(), l, h) && l < e.key <= h ==> IsTree(ns', k, sub, l, h))
    && Walk(ns', k, sub) == Put(Entries(ns[p].cells), e)
  }

  const MAX_KEY := 0xFFFF_FFFF

  /** What a cell takes out of the gap: its bytes and its entry in the offset array. */
  function Cost(c: Cell): nat { c.Size() + 2 }

  function Costs(cs: seq<Cell>): nat { Total(cs) + 2 * |cs| }

  /** A page newly built from an empty one. */
  function NewPage(npage: nat, t: PageType, cs: seq<Cell>, right: nat, pageSize: nat): Page {
    Page(t, cs, right, pageSize - ArrayAt(npage, t) - Costs(cs))
  }

  /** The cells of an overfull leaf: the old ones and the new one, in key order. */
  function Overfull(cs: seq<Cell>, c: Cell): seq<Cell> {
    InsertedAt(cs, Gap(cs, c.key), c)
  }

  /** In a table the median stays in the left leaf; in an index it moves up. */
  function LeftHalf(k: Kind, cs: seq<Cell>, c: Cell): seq<Cell> {
    Overfull(cs, c)[..if k.Table? then |cs| / 2 + 1 else |cs| / 2]
  }

  function RightHalf(cs: seq<Cell>, c: Cell): seq<Cell> {
    Overfull(cs, c)[|cs| / 2 + 1..]
  }

  function Promoted(k: Kind, median: Cell, left: nat): Cell
    requires left <= MAX_KEY
  {
    if k.Table? then TableInternalCell(median.key, left)
    else IndexInternalCell(median.key, if median.IndexLeafCell? then median.keyPk else 0, left)
  }

  /** The key of the median goes up with its page, in an index together with its primary key. */
  lemma PromotedFields(key: u32, keyPk: u32, data: seq<byte>, left: nat)
    requires left <= MAX_KEY
    ensures Promoted(Index, IndexLeafCell(key, keyPk), left) == IndexInternalCell(key, keyPk, left)
    ensures Promoted(Table, TableLeafCell(key, data), left) == TableInternalCell(key, left)
  {
  }

  /** Neither half runs its cell area into its offset array. */
  predicate SplitFits(k: Kind, cs: seq<Cell>, c: Cell, pageSize: nat) {
    && Costs(LeftHalf(k, cs, c)) <= pageSize - 8
    && Costs(RightHalf(cs, c)) <= pageSize - 8
  }

  function Fill(p: Page, c: Cell): Page {
    p.(cells := Overfull(p.cells, c), room := p.room - Cost(c))
  }

  /** The two new leaves and the internal page that takes the place of the full leaf p. */
  function LeftPage(p: Page, k: Kind, c: Cell, l: nat, pageSize: nat): Page {
    NewPage(l, k.LeafType(), LeftHalf(k, p.cells, c), 0, pageSize)
  }

  function RightPage(p: Page, k: Kind, c: Cell, r: nat, pageSize: nat): Page {
    NewPage(r, k.LeafType(), RightHalf(p.cells, c), 0, pageSize)
  }

  function RootCell(p: Page, k: Kind, c: Cell, l: nat): Cell
    requires l <= MAX_KEY
  {
    Promoted(k, Overfull(p.cells, c)[|p.cells| / 2], l)
  }

  function RootPage(p: Page, k: Kind, c: Cell, npage: nat, l: nat, r: nat, pageSize: nat): Page
    requires l <= MAX_KEY
  {
    NewPage(npage, k.InnerType(), [RootCell(p, k, c, l)], r, pageSize)
  }

  /** The pages in use, their contents, and the shape of one tree among them. */
  datatype Db = Db(ns: Store, nPages: nat, sh: Shape)

  ghost predicate WellFormed(db: Db, k: Kind) {
    match db
    case Db(ns, nPages, sh) =>
      && IsTree(ns, k, sh, -1, MAX_KEY)
      && Once(sh)
      && (forall q :: q in PagesOf(sh) ==> 1 <= q <= nPages)
      && (forall q :: q in ns ==> 1 <= q <= nPages)
      && nPages + 2 <= MAX_KEY
  }

  /** A cell of the right type that reads back as it was written. */
  predicate Storable(k: Kind, c: Cell) {
    c.Type() == k.LeafType() && c.Sized() && c.Stored() == c
  }

  /** The outcome of chidb_Btree_insert and the pages after it. */
  function Step(db: Db, k: Kind, c: Cell, pageSize: nat): (Status, Db)
    requires db.nPages + 2 <= MAX_KEY
  {
    match Descend(db.ns, k, db.sh, c.key)
    case Held => (Duplicate, db)
    case At(p) => if p !in db.ns then (PageNo, db) else LeafStep(db, k, c, p, pageSize)
  }

  /** At the leaf: a duplicate is looked for only where there is room. */
  function LeafStep(db: Db, k: Kind, c: Cell, p: nat, pageSize: nat): (Status, Db)
    requires db.nPages + 2 <= MAX_KEY && p in db.ns
  {
    if db.ns[p].room < Need(c) then (Ok, Splitted(db, k, c, p, pageSize))
    else if HasKey(db.ns[p].cells, c.key) then (Duplicate, db)
    else (Ok, Filled(db, c, p))
  }

  /** The cell added to leaf p. */
  function Filled(db: Db, c: Cell, p: nat): Db
    requires p in db.ns
  {
    db.(ns := db.ns[p := Fill(db.ns[p], c)])
  }

  /** The full leaf p split over the next two pages of the file. */
  function Splitted(db: Db, k: Kind, c: Cell, p: nat, pageSize: nat): Db
    requires db.nPages + 2 <= MAX_KEY && p in db.ns
  {
    ReplaceLeaf(db, k, c.key, p,
                LeftPage(db.ns[p], k, c, db.nPages + 1, pageSize),
                RightPage(db.ns[p], k, c, db.nPages + 2, pageSize),
                RootPage(db.ns[p], k, c, p, db.nPages + 1, db.nPages + 2, pageSize))
  }

  function Three(ns: Store, l: nat, left: Page, r: nat, right: Page, p: nat, root: Page): Store {
    ns[l := left][r := right][p := root]
  }

  function ReplaceLeaf(db: Db, k: Kind, key: nat, p: nat, left: Page, right: Page, root: Page): Db {
    var l, r := db.nPages + 1, db.nPages + 2;
    Db(Three(db.ns, l, left, r, right, p, root), r, Graft(db.ns, k, db.sh, key, Inner(p, [Leaf(l), Leaf(r)])))
  }

  /** The three pages hold what a split of p over pages l and r gives. */
  predicate SplitInto(p: Page, k: Kind, c: Cell, l: nat, r: nat, left: Page, right: Page, root: Page)
    requires l <= MAX_KEY
  {
    match root
    case Page(typ, cells, rightmost, _) =>
      && left.typ == right.typ == k.LeafType() && typ == k.InnerType()
      && left.cells == LeftHalf(k, p.cells, c)
      && right.cells == RightHalf(p.cells, c)
      && cells == [RootCell(p, k, c, l)]
      && rightmost == r
  }

  ghost predicate SplitAt(ns: Store, ns': Store, k: Kind, p: nat, c: Cell, l: nat, r: nat) {
    && p in ns && l <= MAX_KEY && l != r && l != p && r != p
    && l in ns' && r in ns' && p in ns'
    && SplitInto(ns[p], k, c, l, r, ns'[l], ns'[r], ns'[p])
  }

  ghost predicate Inserted(db: Db, db': Db, k: Kind, e: Entry) {
    match db'
    case Db(ns, _, sh) =>
      && sh.page == db.sh.page
      && IsTree(ns, k, sh, -1, MAX_KEY)
      && Once(sh)
      && Walk(ns, k, sh) == Put(Walk(db.ns, k, db.sh), e)
  }

  /** The descent for a new key ends at a leaf of the tree that does not hold it. */
  ghost predicate Ready(db: Db, k: Kind, c: Cell) {
    match Descend(db.ns, k, db.sh, c.key)
    case Held => false
    case At(p) =>
      && WellFormed(db, k) && Storable(k, c)
      && p in db.ns && p in PagesOf(db.sh)
      && PageFits(db.ns[p], k.LeafType(), -1, MAX_KEY)
      && !HasKey(db.ns[p].cells, c.key)
  }

  function TargetPage(db: Db, k: Kind, key: nat): nat {
    match Descend(db.ns, k, db.sh, key)
    case Held => 0
    case At(p) => p
  }

  /** If the insertion comes to a split, both halves fit. */
  predicate HalvesFit(db: Db, k: Kind, c: Cell, pageSize: nat) {
    match Descend(db.ns, k, db.sh, c.key)
    case Held => true
    case At(p) => p in db.ns && db.ns[p].room < Need(c) ==> SplitFits(k, db.ns[p].cells, c, pageSize)
  }

  /** And the file can take two more pages. */
  predicate StepFits(db: Db, k: Kind, c: Cell, pageSize: nat) {
    match Descend(db.ns, k, db.sh, c.key)
    case Held => true
    case At(p) =>
      p in db.ns && db.ns[p].room < Need(c) ==>
        SplitFits(k, db.ns[p].cells, c, pageSize) && (db.nPages + 1) * pageSize < FILE_SPAN
  }

  /** On page q the cell area has not run into the offset array. */
  predicate RoomOk(q: nat, p: Page, pageSize: nat) {
    match p
    case Page(typ, cells, _, room) => room >= 0 && Costs(cells) + room <= pageSize - ArrayAt(q, typ)
  }

  ghost predicate PagesFit(ns: Store, pageSize: nat) {
    forall q :: q in ns ==> RoomOk(q, ns[q], pageSize)
  }
}
