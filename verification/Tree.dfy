/** Search trees over decoded pages: what a well-formed tree is and what it holds. */
module Tree {
  import opened Layout

  datatype Kind = Table | Index
  {
    function LeafType(): PageType { if Table? then TableLeaf else IndexLeaf }
    function InnerType(): PageType { if Table? then TableInternal else IndexInternal }
  }

  /** A page as the tree algorithms see it; room is the gap between the two areas. */
  datatype Page = Page(typ: PageType, cells: seq<Cell>, right: nat, room: int)

  type Store = map<nat, Page>

  /** What a tree stores: a row of a table, or an index entry. */
  datatype Entry = Row(key: nat, data: seq<int>) | Ref(key: nat, keyPk: nat)

  /** Which page is a leaf and which is internal, with the children in key order. */
  datatype Shape = Leaf(page: nat) | Inner(page: nat, kids: seq<Shape>)

  function EntryOf(c: Cell): Entry {
    match c
    case TableInternalCell(key, _) => Ref(key, 0)  // holds no entry of its own; never asked for
    case TableLeafCell(key, data) => Row(key, data)
    case IndexInternalCell(key, keyPk, _) => Ref(key, keyPk)
    case IndexLeafCell(key, keyPk) => Ref(key, keyPk)
  }

  function Entries(cs: seq<Cell>): (es: seq<Entry>)
    ensures |es| == |cs|
    ensures forall i :: 0 <= i < |cs| ==> es[i] == EntryOf(cs[i]) && es[i].key == cs[i].key
  {
    seq(|cs|, i requires 0 <= i < |cs| => EntryOf(cs[i]))
  }

  predicate SortedCells(cs: seq<Cell>) {
    forall i, j :: 0 <= i < j < |cs| ==> cs[i].key < cs[j].key
  }

  predicate Sorted(es: seq<Entry>) {
    forall i, j :: 0 <= i < j < |es| ==> es[i].key < es[j].key
  }

  predicate Within(es: seq<Entry>, lo: int, hi: int) {
    forall i :: 0 <= i < |es| ==> lo < es[i].key <= hi
  }

  /** Keys under child i lie in (Low(i), High(i)].  In an index the cell key itself is stored in the
      internal page, so it is excluded below. */
  function Low(cs: seq<Cell>, i: nat, lo: int): int
    requires i <= |cs|
  {
    if i == 0 then lo else cs[i - 1].key
  }

  function High(k: Kind, cs: seq<Cell>, i: nat, hi: int): int
    requires i <= |cs|
  {
    if i == |cs| then hi else if k.Table? then cs[i].key else cs[i].key - 1
  }

  function ChildOf(c: Cell): nat {
    match c
    case TableInternalCell(_, child) => child
    case IndexInternalCell(_, _, child) => child
    case _ => 0
  }

  function Child(p: Page, i: nat): nat
    requires i <= |p.cells|
  {
    if i < |p.cells| then ChildOf(p.cells[i]) else p.right
  }

  ghost predicate CellsFit(cs: seq<Cell>, t: PageType, lo: int, hi: int) {
    && (forall i :: 0 <= i < |cs| ==> cs[i].Type() == t)
    && SortedCells(cs)
    && (forall i :: 0 <= i < |cs| ==> lo < cs[i].key <= hi)
  }

  ghost predicate PageFits(p: Page, t: PageType, lo: int, hi: int) {
    match p
    case Page(typ, cells, _, _) => typ == t && CellsFit(cells, t, lo, hi)
  }

  /** The pages of ns laid out as sh form a search tree with keys in (lo, hi]. */
  ghost predicate IsTree(ns: Store, k: Kind, sh: Shape, lo: int, hi: int)
    decreases sh
  {
    match sh
    case Leaf(p) => p in ns && PageFits(ns[p], k.LeafType(), lo, hi)
    case Inner(p, kids) =>
      && p in ns
      && PageFits(ns[p], k.InnerType(), lo, hi)
      && |kids| == |ns[p].cells| + 1
      && forall i :: 0 <= i < |kids| ==>
           && kids[i].page == Child(ns[p], i)
           && IsTree(ns, k, kids[i], Low(ns[p].cells, i, lo), High(k, ns[p].cells, i, hi))
  }

  /** The shapes under which the pages of ns form a search tree with keys in (lo, hi]. */
  ghost function Trees(ns: Store, k: Kind, lo: int, hi: int): iset<Shape> {
    iset sh: Shape | IsTree(ns, k, sh, lo, hi)
  }

  /** The pages of a shape. */
  ghost function PagesOf(sh: Shape): set<nat>
    decreases sh
  {
    match sh
    case Leaf(p) => {p}
    case Inner(p, kids) => {p} + set i, q | 0 <= i < |kids| && q in PagesOf(kids[i]) :: q
  }

  /** Every page is reached once: no cycle and no sharing. */
  ghost predicate Once(sh: Shape)
    decreases sh
  {
    match sh
    case Leaf(_) => true
    case Inner(p, kids) =>
      && (forall i :: 0 <= i < |kids| ==> Once(kids[i]) && p !in PagesOf(kids[i]))
      && (forall i, j :: 0 <= i < j < |kids| ==> PagesOf(kids[i]) !! PagesOf(kids[j]))
  }

  /** The in-order traversal. */
  function Walk(ns: Store, k: Kind, sh: Shape): seq<Entry>
    decreases sh, if sh.Inner? then |sh.kids| + 1 else 0
  {
    if sh.page !in ns then [] else
    match sh
    case Leaf(p) => Entries(ns[p].cells)
    case Inner(p, kids) => WalkFrom(ns, k, sh, 0)
  }

  /** The traversal from child i on. */
  function WalkFrom(ns: Store, k: Kind, sh: Shape, i: nat): seq<Entry>
    requires sh.Inner? && sh.page in ns && i <= |sh.kids|
    decreases sh, |sh.kids| - i
  {
    if i == |sh.kids| then [] else
    Walk(ns, k, sh.kids[i]) + Separator(ns[sh.page], k, i) + WalkFrom(ns, k, sh, i + 1)
  }

  /** The entry an index keeps in the internal page between children i and i + 1. */
  function Separator(p: Page, k: Kind, i: nat): seq<Entry> {
    if k.Index? && i < |p.cells| then [EntryOf(p.cells[i])] else []
  }

  lemma SortedConcat(a: seq<Entry>, b: seq<Entry>, lo: int, mid: int, hi: int)
    requires Sorted(a) && Sorted(b) && Within(a, lo, mid) && Within(b, mid, hi) && lo <= mid <= hi
    ensures Sorted(a + b) && Within(a + b, lo, hi)
  {
  }

  lemma EntriesSorted(p: Page, t: PageType, lo: int, hi: int)
    requires PageFits(p, t, lo, hi)
    ensures Sorted(Entries(p.cells)) && Within(Entries(p.cells), lo, hi)
  {
  }

  lemma LowHigh(k: Kind, p: Page, t: PageType, i: nat, lo: int, hi: int)
    requires PageFits(p, t, lo, hi) && lo <= hi && i <= |p.cells|
    ensures lo <= Low(p.cells, i, lo) <= High(k, p.cells, i, hi) <= hi
    ensures i < |p.cells| ==> High(k, p.cells, i, hi) <= Low(p.cells, i + 1, lo) == p.cells[i].key
    ensures i < |p.cells| && k.Index? ==> High(k, p.cells, i, hi) == p.cells[i].key - 1
  {
  }

  /** The traversal lists the keys in strictly increasing order, inside the bounds. */
  lemma {:induction false} WalkSorted(ns: Store, k: Kind, sh: Shape, lo: int, hi: int)
    requires IsTree(ns, k, sh, lo, hi) && lo <= hi
    ensures Sorted(Walk(ns, k, sh)) && Within(Walk(ns, k, sh), lo, hi)
    decreases sh, if sh.Inner? then |sh.kids| + 1 else 0
  {
    match sh
    case Leaf(p) => EntriesSorted(ns[p], k.LeafType(), lo, hi);
    case Inner(p, kids) => WalkFromSorted(ns, k, sh, 0, lo, hi);
  }

  lemma {:induction false} WalkFromSorted(ns: Store, k: Kind, sh: Shape, i: nat, lo: int, hi: int)
    requires IsTree(ns, k, sh, lo, hi) && lo <= hi && sh.Inner? && i <= |sh.kids|
    ensures Sorted(WalkFrom(ns, k, sh, i))
    ensures Within(WalkFrom(ns, k, sh, i), if i < |sh.kids| then Low(ns[sh.page].cells, i, lo) else hi, hi)
    decreases sh, |sh.kids| - i
  {
    if i < |sh.kids| {
      var p := ns[sh.page];
      LowHigh(k, p, k.InnerType(), i, lo, hi);
      var l, h := Low(p.cells, i, lo), High(k, p.cells, i, hi);
      WalkSorted(ns, k, sh.kids[i], l, h);
      WalkFromSorted(ns, k, sh, i + 1, lo, hi);
      var m := if i < |p.cells| then p.cells[i].key else hi;
      SortedConcat(Walk(ns, k, sh.kids[i]), Separator(p, k, i), l, h, m);
      SortedConcat(Walk(ns, k, sh.kids[i]) + Separator(p, k, i), WalkFrom(ns, k, sh, i + 1), l, m, hi);
    }
  }

  /** The entry with this key, if there is one. */
  datatype Lookup = Missing | Hit(entry: Entry)

  function Find(es: seq<Entry>, key: nat): Lookup {
    if es == [] then Missing else if es[0].key == key then Hit(es[0]) else Find(es[1..], key)
  }

  lemma {:induction false} FindConcat(a: seq<Entry>, b: seq<Entry>, key: nat)
    ensures Find(a + b, key) == if Find(a, key).Hit? then Find(a, key) else Find(b, key)
  {
    if a == [] {
      assert a + b == b;
    } else {
      assert (a + b)[1..] == a[1..] + b;
      FindConcat(a[1..], b, key);
    }
  }

  lemma {:induction false} FindWithin(es: seq<Entry>, key: nat, lo: int, hi: int)
    requires Within(es, lo, hi) && !(lo < key <= hi)
    ensures Find(es, key) == Missing
  {
    if es != [] {
      assert es[0].key != key;
      assert forall i :: 0 <= i < |es[1..]| ==> es[1..][i] == es[i + 1];
      FindWithin(es[1..], key, lo, hi);
    }
  }

  /** The first cell from i on whose key is at least key, or the number of cells. */
  function SlotFrom(cs: seq<Cell>, key: nat, i: nat): nat
    requires i <= |cs|
    decreases |cs| - i
  {
    if i == |cs| || key <= cs[i].key then i else SlotFrom(cs, key, i + 1)
  }

  lemma {:induction false} SlotFromIs(cs: seq<Cell>, key: nat, i: nat)
    requires i <= |cs|
    ensures var s := SlotFrom(cs, key, i);
            && i <= s <= |cs|
            && (forall j :: i <= j < s ==> cs[j].key < key)
            && (s < |cs| ==> key <= cs[s].key)
    decreases |cs| - i
  {
    if i < |cs| && cs[i].key < key {
      SlotFromIs(cs, key, i + 1);
    }
  }

  /** The first cell whose key is at least key, or the number of cells. */
  function Slot(cs: seq<Cell>, key: nat): (i: nat)
    ensures i <= |cs|
    ensures forall j :: 0 <= j < i ==> cs[j].key < key
    ensures i < |cs| ==> key <= cs[i].key
  {
    SlotFromIs(cs, key, 0);
    SlotFrom(cs, key, 0)
  }

  lemma SlotBounds(k: Kind, p: Page, t: PageType, key: nat, lo: int, hi: int)
    requires PageFits(p, t, lo, hi) && lo < key <= hi
    ensures var i := Slot(p.cells, key);
            && Low(p.cells, i, lo) < key
            && (key <= High(k, p.cells, i, hi) || (k.Index? && i < |p.cells| && p.cells[i].key == key))
  {
  }

  /** Only the child at the slot can hold the key. */
  lemma FindAtSlot(ns: Store, k: Kind, sh: Shape, key: nat, lo: int, hi: int)
    requires IsTree(ns, k, sh, lo, hi) && lo < key <= hi && sh.Inner?
    ensures var p, i := ns[sh.page], Slot(ns[sh.page].cells, key);
            && i < |sh.kids|
            && Find(WalkFrom(ns, k, sh, i + 1), key) == Missing
            && (k.Index? && i < |p.cells| && p.cells[i].key == key ==> Find(Walk(ns, k, sh.kids[i]), key) == Missing)
  {
    var p, i := ns[sh.page], Slot(ns[sh.page].cells, key);
    LowHigh(k, p, k.InnerType(), i, lo, hi);
    if i < |p.cells| {
      WalkFromSorted(ns, k, sh, i + 1, lo, hi);
      FindWithin(WalkFrom(ns, k, sh, i + 1), key, p.cells[i].key, hi);
      if k.Index? && p.cells[i].key == key {
        WalkSorted(ns, k, sh.kids[i], Low(p.cells, i, lo), High(k, p.cells, i, hi));
        FindWithin(Walk(ns, k, sh.kids[i]), key, Low(p.cells, i, lo), High(k, p.cells, i, hi));
      }
    }
  }

  lemma FindBeforeSlot(ns: Store, k: Kind, sh: Shape, key: nat, i: nat, lo: int, hi: int)
    requires IsTree(ns, k, sh, lo, hi) && lo < key <= hi && sh.Inner?
    requires i < Slot(ns[sh.page].cells, key)
    ensures i < |sh.kids| && Find(Walk(ns, k, sh.kids[i]), key) == Missing
    ensures Find(Separator(ns[sh.page], k, i), key) == Missing
  {
    var p := ns[sh.page];
    LowHigh(k, p, k.InnerType(), i, lo, hi);
    WalkSorted(ns, k, sh.kids[i], Low(p.cells, i, lo), High(k, p.cells, i, hi));
    assert p.cells[i].key < key;
    FindWithin(Walk(ns, k, sh.kids[i]), key, Low(p.cells, i, lo), High(k, p.cells, i, hi));
  }

  /** When no child and no separator before child s holds the key, nor anything after it. */
  lemma {:induction false} FindFrom(ns: Store, k: Kind, sh: Shape, key: nat, i: nat, s: nat)
    requires sh.Inner? && sh.page in ns && i <= s < |sh.kids|
    requires forall j :: i <= j < s ==> Find(Walk(ns, k, sh.kids[j]), key) == Missing
    requires forall j :: i <= j < s ==> Find(Separator(ns[sh.page], k, j), key) == Missing
    requires Find(WalkFrom(ns, k, sh, s + 1), key) == Missing
    ensures Find(WalkFrom(ns, k, sh, i), key) == Find(Walk(ns, k, sh.kids[s]) + Separator(ns[sh.page], k, s), key)
    decreases s - i
  {
    FindConcat(Walk(ns, k, sh.kids[i]) + Separator(ns[sh.page], k, i), WalkFrom(ns, k, sh, i + 1), key);
    if i < s {
      FindConcat(Walk(ns, k, sh.kids[i]), Separator(ns[sh.page], k, i), key);
      FindFrom(ns, k, sh, key, i + 1, s);
    }
  }

  /** Searching the child the slot points to is searching the whole subtree. */
  lemma FindDescends(ns: Store, k: Kind, sh: Shape, key: nat, lo: int, hi: int)
    requires IsTree(ns, k, sh, lo, hi) && lo < key <= hi && sh.Inner?
    ensures var i := Slot(ns[sh.page].cells, key);
            && i < |sh.kids|
            && Find(Walk(ns, k, sh), key) ==
               if k.Index? && i < |ns[sh.page].cells| && ns[sh.page].cells[i].key == key
               then Hit(EntryOf(ns[sh.page].cells[i]))
               else Find(Walk(ns, k, sh.kids[i]), key)
  {
    var s := Slot(ns[sh.page].cells, key);
    forall j | 0 <= j < s
      ensures Find(Walk(ns, k, sh.kids[j]), key) == Missing && Find(Separator(ns[sh.page], k, j), key) == Missing
    {
      FindBeforeSlot(ns, k, sh, key, j, lo, hi);
    }
    FindAtSlot(ns, k, sh, key, lo, hi);
    FindFrom(ns, k, sh, key, 0, s);
    FindConcat(Walk(ns, k, sh.kids[s]), Separator(ns[sh.page], k, s), key);
  }

  /** What a cell says: a row, or an index key with the primary key it stands for.  The cells of an
      internal table page only lead on. */
  predicate Shows(c: Cell, e: Entry) {
    match c
    case TableInternalCell(_, _) => false
    case TableLeafCell(key, data) => e == Row(key, data)
    case IndexInternalCell(key, keyPk, _) => e == Ref(key, keyPk)
    case IndexLeafCell(key, keyPk) => e == Ref(key, keyPk)
  }

  predicate OnPage(p: Page, e: Entry) {
    exists i :: 0 <= i < |p.cells| && Shows(p.cells[i], e)
  }

  ghost predicate OnPages(ns: Store, sh: Shape, e: Entry) {
    exists q :: q in PagesOf(sh) && q in ns && OnPage(ns[q], e)
  }

  lemma {:induction false} InWalkFrom(ns: Store, k: Kind, sh: Shape, i: nat, e: Entry)
    requires sh.Inner? && sh.page in ns && i <= |sh.kids|
    ensures e in WalkFrom(ns, k, sh, i) <==>
            exists j :: i <= j < |sh.kids| && (e in Walk(ns, k, sh.kids[j]) || e in Separator(ns[sh.page], k, j))
    decreases |sh.kids| - i
  {
    hide Walk, Separator;
    if i < |sh.kids| {
      InWalkFrom(ns, k, sh, i + 1, e);
    }
  }

  lemma InnerShows(p: Page, k: Kind, lo: int, hi: int, e: Entry)
    requires PageFits(p, k.InnerType(), lo, hi)
    ensures OnPage(p, e) <==> exists j :: 0 <= j < |p.cells| && e in Separator(p, k, j)
  {
    forall j | 0 <= j < |p.cells|
      ensures e in Separator(p, k, j) <==> Shows(p.cells[j], e)
    {
    }
  }

  lemma LeafShows(p: Page, k: Kind, lo: int, hi: int, e: Entry)
    requires PageFits(p, k.LeafType(), lo, hi)
    ensures OnPage(p, e) <==> e in Entries(p.cells)
  {
    forall j | 0 <= j < |p.cells|
      ensures e == Entries(p.cells)[j] <==> Shows(p.cells[j], e)
    {
    }
  }

  /** The traversal lists exactly what the cells on the pages of the tree say. */
  lemma {:induction false} WalkShows(ns: Store, k: Kind, sh: Shape, lo: int, hi: int, e: Entry)
    requires IsTree(ns, k, sh, lo, hi)
    ensures e in Walk(ns, k, sh) <==> OnPages(ns, sh, e)
    decreases sh
  {
    hide OnPage;
    match sh
    case Leaf(p) =>
      LeafShows(ns[p], k, lo, hi, e);
      assert p in PagesOf(sh);
    case Inner(p, kids) =>
      InWalkFrom(ns, k, sh, 0, e);
      InnerShows(ns[p], k, lo, hi, e);
      forall j | 0 <= j < |kids|
        ensures e in Walk(ns, k, kids[j]) <==> OnPages(ns, kids[j], e)
      {
        WalkShows(ns, k, kids[j], Low(ns[p].cells, j, lo), High(k, ns[p].cells, j, hi), e);
      }
      InnerPages(ns, sh, e);
  }

  lemma InnerPages(ns: Store, sh: Shape, e: Entry)
    requires sh.Inner? && sh.page in ns
    ensures OnPages(ns, sh, e) <==>
            OnPage(ns[sh.page], e) || exists j :: 0 <= j < |sh.kids| && OnPages(ns, sh.kids[j], e)
  {
    hide OnPage;
    assert sh.page in PagesOf(sh);
    if OnPages(ns, sh, e) && !OnPage(ns[sh.page], e) {
      var q :| q in PagesOf(sh) && q in ns && OnPage(ns[q], e);
      var j :| 0 <= j < |sh.kids| && q in PagesOf(sh.kids[j]);
      assert OnPages(ns, sh.kids[j], e);
    }
    if j :| 0 <= j < |sh.kids| && OnPages(ns, sh.kids[j], e) {
      var q :| q in PagesOf(sh.kids[j]) && q in ns && OnPage(ns[q], e);
      assert q in PagesOf(sh);
    }
  }
}
