/** What an insertion does to the pages of a tree, and that it is an insertion into the traversal. */
module TreeInsert {
  import opened Common
  import opened Layout
  import opened Tree
  import opened TreeDefs

  lemma {:induction false} PutPast(a: seq<Entry>, b: seq<Entry>, e: Entry)
    requires Below(a, e.key)
    ensures Put(a + b, e) == a + Put(b, e)
  {
    if a == [] {
      assert a + b == b;
    } else {
      assert (a + b)[1..] == a[1..] + b;
      PutPast(a[1..], b, e);
    }
  }

  lemma {:induction false} PutBefore(a: seq<Entry>, b: seq<Entry>, e: Entry)
    requires Beyond(b, e.key)
    ensures Put(a + b, e) == Put(a, e) + b
  {
    if a == [] {
      assert a + b == b;
    } else if a[0].key <= e.key {
      assert (a + b)[1..] == a[1..] + b;
      PutBefore(a[1..], b, e);
    } else {
      assert [e] + (a + b) == [e] + a + b;
    }
  }

  /** Putting a cell into its gap is putting its entry into the entries. */
  lemma InsertIsPut(cs: seq<Cell>, c: Cell)
    requires SortedCells(cs)
    ensures Entries(InsertedAt(cs, Gap(cs, c.key), c)) == Put(Entries(cs), EntryOf(c))
  {
    var g, e, es := Gap(cs, c.key), EntryOf(c), Entries(cs);
    assert es == es[..g] + es[g..];
    PutAtGap(es[..g], es[g..], e);
    EntriesInsert(cs, g, c);
  }

  lemma EntriesInsert(cs: seq<Cell>, g: nat, c: Cell)
    requires g <= |cs|
    ensures Entries(InsertedAt(cs, g, c)) == Entries(cs)[..g] + [EntryOf(c)] + Entries(cs)[g..]
  {
  }

  lemma {:induction false} PutAtGap(a: seq<Entry>, b: seq<Entry>, e: Entry)
    requires forall i :: 0 <= i < |a| ==> a[i].key <= e.key
    requires b != [] ==> e.key < b[0].key
    ensures Put(a + b, e) == a + [e] + b
  {
    if a == [] {
      assert a + b == b;
      assert a + [e] + b == [e] + b;
    } else {
      assert (a + b)[1..] == a[1..] + b;
      PutAtGap(a[1..], b, e);
      assert [a[0]] + (a[1..] + [e] + b) == a + [e] + b;
    }
  }

  lemma InsertSorted(cs: seq<Cell>, c: Cell)
    requires SortedCells(cs) && !HasKey(cs, c.key)
    ensures SortedCells(InsertedAt(cs, Gap(cs, c.key), c))
  {
    var g := Gap(cs, c.key);
    assert forall j :: 0 <= j < g ==> cs[j].key < c.key;
    assert forall j :: g <= j < |cs| ==> c.key < cs[j].key;
  }

  lemma {:induction false} TargetInPages(ns: Store, k: Kind, sh: Shape, key: nat)
    requires Descend(ns, k, sh, key).At?
    ensures Descend(ns, k, sh, key).page in PagesOf(sh)
    decreases sh
  {
    if sh.Inner? {
      TargetInPages(ns, k, sh.kids[Slot(ns[sh.page].cells, key)], key);
    }
  }

  /** A tree depends on its own pages only. */
  lemma {:induction false} Frame(ns: Store, ns': Store, k: Kind, sh: Shape, lo: int, hi: int)
    requires IsTree(ns, k, sh, lo, hi) && Agree(ns, ns', PagesOf(sh))
    ensures IsTree(ns', k, sh, lo, hi) && Walk(ns', k, sh) == Walk(ns, k, sh)
    decreases sh, if sh.Inner? then |sh.kids| + 1 else 0
  {
    assert sh.page in PagesOf(sh);
    if sh.Inner? {
      forall i | 0 <= i < |sh.kids|
        ensures IsTree(ns', k, sh.kids[i], Low(ns[sh.page].cells, i, lo), High(k, ns[sh.page].cells, i, hi))
        ensures Walk(ns', k, sh.kids[i]) == Walk(ns, k, sh.kids[i])
      {
        assert PagesOf(sh.kids[i]) <= PagesOf(sh);
        Frame(ns, ns', k, sh.kids[i], Low(ns[sh.page].cells, i, lo), High(k, ns[sh.page].cells, i, hi));
      }
      SameWalks(ns, ns', k, sh, 0);
    }
  }

  lemma {:induction false} SameWalks(ns: Store, ns': Store, k: Kind, sh: Shape, i: nat)
    requires sh.Inner? && sh.page in ns && sh.page in ns' && ns[sh.page] == ns'[sh.page] && i <= |sh.kids|
    requires forall j :: i <= j < |sh.kids| ==> Walk(ns', k, sh.kids[j]) == Walk(ns, k, sh.kids[j])
    ensures WalkFrom(ns', k, sh, i) == WalkFrom(ns, k, sh, i)
    decreases |sh.kids| - i
  {
    if i < |sh.kids| {
      SameWalks(ns, ns', k, sh, i + 1);
    }
  }

  /** Replacing child s by one with e put into its traversal puts e into the whole traversal. */
  lemma {:induction false} PutFrom(ns: Store, ns': Store, k: Kind, sh: Shape, sh': Shape, e: Entry, i: nat, s: nat)
    requires sh.Inner? && sh'.Inner? && sh'.page == sh.page && |sh'.kids| == |sh.kids|
    requires sh.page in ns && sh.page in ns' && ns[sh.page] == ns'[sh.page] && s < |sh.kids| && i <= |sh.kids|
    requires forall j :: i <= j < |sh.kids| && j != s ==> Walk(ns', k, sh'.kids[j]) == Walk(ns, k, sh.kids[j])
    requires Walk(ns', k, sh'.kids[s]) == Put(Walk(ns, k, sh.kids[s]), e)
    requires forall j :: i <= j < s ==>
               Below(Walk(ns, k, sh.kids[j]), e.key) && Below(Separator(ns[sh.page], k, j), e.key)
    requires Beyond(Separator(ns[sh.page], k, s), e.key) && Beyond(WalkFrom(ns, k, sh, s + 1), e.key)
    ensures WalkFrom(ns', k, sh', i) == if i <= s then Put(WalkFrom(ns, k, sh, i), e) else WalkFrom(ns, k, sh, i)
    decreases |sh.kids| - i
  {
    hide Put, Walk, Separator;
    if i < |sh.kids| {
      PutFrom(ns, ns', k, sh, sh', e, i + 1, s);
      var here, sep, rest := Walk(ns, k, sh.kids[i]), Separator(ns[sh.page], k, i), WalkFrom(ns, k, sh, i + 1);
      if i < s {
        PutPast(here + sep, rest, e);
      } else if i == s {
        PutBefore(here + sep, rest, e);
        PutBefore(here, sep, e);
      }
    }
  }

  /** The keys on either side of the slot. */
  lemma Sides(ns: Store, k: Kind, sh: Shape, key: nat, j: nat, lo: int, hi: int)
    requires IsTree(ns, k, sh, lo, hi) && lo < key <= hi && sh.Inner? && j < Slot(ns[sh.page].cells, key)
    ensures j < |sh.kids| && Below(Walk(ns, k, sh.kids[j]), key) && Below(Separator(ns[sh.page], k, j), key)
  {
    var p := ns[sh.page];
    LowHigh(k, p, k.InnerType(), j, lo, hi);
    WalkSorted(ns, k, sh.kids[j], Low(p.cells, j, lo), High(k, p.cells, j, hi));
    assert p.cells[j].key < key;
  }

  lemma FarSide(ns: Store, k: Kind, sh: Shape, key: nat, lo: int, hi: int)
    requires IsTree(ns, k, sh, lo, hi) && lo < key <= hi && sh.Inner?
    requires var s, cs := Slot(ns[sh.page].cells, key), ns[sh.page].cells;
             !(k.Index? && s < |cs| && cs[s].key == key)
    ensures var s := Slot(ns[sh.page].cells, key);
            && s < |sh.kids|
            && Beyond(Separator(ns[sh.page], k, s), key) && Beyond(WalkFrom(ns, k, sh, s + 1), key)
  {
    var s := Slot(ns[sh.page].cells, key);
    if s < |ns[sh.page].cells| {
      WalkFromSorted(ns, k, sh, s + 1, lo, hi);
    }
  }

  /** Replacing the leaf the descent reaches by a part that lists one entry more, be it a tree or not,
      puts that entry into the whole traversal. */
  lemma {:induction false} GraftPuts(ns: Store, ns': Store, k: Kind, sh: Shape, e: Entry, sub: Shape, lo: int, hi: int)
    requires IsTree(ns, k, sh, lo, hi) && Once(sh) && lo < e.key <= hi
    requires Descend(ns, k, sh, e.key).At?
    requires var p := Descend(ns, k, sh, e.key).page;
             && p in ns && Walk(ns', k, sub) == Put(Entries(ns[p].cells), e)
             && Agree(ns, ns', PagesOf(sh) - {p})
    ensures Walk(ns', k, Graft(ns, k, sh, e.key, sub)) == Put(Walk(ns, k, sh), e)
    decreases sh
  {
    if sh.Inner? {
      var s := Slot(ns[sh.page].cells, e.key);
      GraftDown(ns, ns', k, sh, e.key, lo, hi);
      GraftPuts(ns, ns', k, sh.kids[s], e, sub, Low(ns[sh.page].cells, s, lo), High(k, ns[sh.page].cells, s, hi));
      GraftOthers(ns, ns', k, sh, e.key, lo, hi);
      GraftWalk(ns, ns', k, sh, Graft(ns, k, sh, e.key, sub), e, lo, hi);
    }
  }

  /** Replacing the leaf by a tree with one entry more inserts the entry into the whole tree. */
  lemma {:induction false} GraftInserts(ns: Store, ns': Store, k: Kind, sh: Shape, e: Entry, sub: Shape, lo: int,
                                        hi: int)
    requires IsTree(ns, k, sh, lo, hi) && Once(sh) && lo < e.key <= hi
    requires Descend(ns, k, sh, e.key).At?
    requires var p := Descend(ns, k, sh, e.key).page;
             Replaces(ns, ns', k, p, sub, e) && Agree(ns, ns', PagesOf(sh) - {p})
    ensures var sh' := Graft(ns, k, sh, e.key, sub);
            && sh'.page == sh.page
            && IsTree(ns', k, sh', lo, hi)
            && Walk(ns', k, sh') == Put(Walk(ns, k, sh), e)
    decreases sh
  {
    GraftPuts(ns, ns', k, sh, e, sub, lo, hi);
    if sh.Inner? {
      hide Walk, Put;
      var s := Slot(ns[sh.page].cells, e.key);
      GraftDown(ns, ns', k, sh, e.key, lo, hi);
      GraftInserts(ns, ns', k, sh.kids[s], e, sub, Low(ns[sh.page].cells, s, lo), High(k, ns[sh.page].cells, s, hi));
      GraftOthers(ns, ns', k, sh, e.key, lo, hi);
      GraftTree(ns, ns', k, sh, Graft(ns, k, sh, e.key, sub), s, lo, hi);
    }
  }

  /** What holds of the subtree the descent enters. */
  lemma GraftDown(ns: Store, ns': Store, k: Kind, sh: Shape, key: nat, lo: int, hi: int)
    requires IsTree(ns, k, sh, lo, hi) && Once(sh) && lo < key <= hi && sh.Inner?
    requires Descend(ns, k, sh, key).At?
    requires Agree(ns, ns', PagesOf(sh) - {Descend(ns, k, sh, key).page})
    ensures var s, cs, p := Slot(ns[sh.page].cells, key), ns[sh.page].cells, Descend(ns, k, sh, key).page;
            && IsTree(ns, k, sh.kids[s], Low(cs, s, lo), High(k, cs, s, hi)) && Once(sh.kids[s])
            && Low(cs, s, lo) < key <= High(k, cs, s, hi)
            && Descend(ns, k, sh.kids[s], key) == At(p)
            && Agree(ns, ns', PagesOf(sh.kids[s]) - {p})
            && sh.page in ns' && ns'[sh.page] == ns[sh.page]
  {
    var s := Slot(ns[sh.page].cells, key);
    SlotBounds(k, ns[sh.page], k.InnerType(), key, lo, hi);
    TargetInPages(ns, k, sh.kids[s], key);
    assert PagesOf(sh.kids[s]) <= PagesOf(sh);
    assert sh.page in PagesOf(sh);
  }

  lemma GraftTree(ns: Store, ns': Store, k: Kind, sh: Shape, sh': Shape, s: nat, lo: int, hi: int)
    requires IsTree(ns, k, sh, lo, hi) && sh.Inner? && s < |sh.kids|
    requires sh.page in ns' && ns'[sh.page] == ns[sh.page]
    requires sh'.Inner? && s < |sh'.kids|
    requires sh' == Inner(sh.page, sh.kids[s := sh'.kids[s]]) && sh'.kids[s].page == sh.kids[s].page
    requires IsTree(ns', k, sh'.kids[s], Low(ns[sh.page].cells, s, lo), High(k, ns[sh.page].cells, s, hi))
    requires forall j :: 0 <= j < |sh.kids| && j != s ==>
               IsTree(ns', k, sh.kids[j], Low(ns[sh.page].cells, j, lo), High(k, ns[sh.page].cells, j, hi))
    ensures IsTree(ns', k, sh', lo, hi)
  {
    forall i | 0 <= i < |sh'.kids|
      ensures sh'.kids[i].page == Child(ns[sh.page], i)
      ensures IsTree(ns', k, sh'.kids[i], Low(ns[sh.page].cells, i, lo), High(k, ns[sh.page].cells, i, hi))
    {
      if i != s {
        assert sh'.kids[i] == sh.kids[i];
      }
    }
  }

  /** The children off the path are untouched. */
  lemma GraftOthers(ns: Store, ns': Store, k: Kind, sh: Shape, key: nat, lo: int, hi: int)
    requires IsTree(ns, k, sh, lo, hi) && Once(sh) && sh.Inner?
    requires Descend(ns, k, sh, key).At?
    requires Agree(ns, ns', PagesOf(sh) - {Descend(ns, k, sh, key).page})
    ensures forall j :: 0 <= j < |sh.kids| && j != Slot(ns[sh.page].cells, key) ==>
              && IsTree(ns', k, sh.kids[j], Low(ns[sh.page].cells, j, lo), High(k, ns[sh.page].cells, j, hi))
              && Walk(ns', k, sh.kids[j]) == Walk(ns, k, sh.kids[j])
  {
    var s := Slot(ns[sh.page].cells, key);
    TargetInPages(ns, k, sh.kids[s], key);
    forall j | 0 <= j < |sh.kids| && j != s
      ensures IsTree(ns', k, sh.kids[j], Low(ns[sh.page].cells, j, lo), High(k, ns[sh.page].cells, j, hi))
      ensures Walk(ns', k, sh.kids[j]) == Walk(ns, k, sh.kids[j])
    {
      assert PagesOf(sh.kids[j]) <= PagesOf(sh);
      assert PagesOf(sh.kids[j]) !! PagesOf(sh.kids[s]);
      Frame(ns, ns', k, sh.kids[j], Low(ns[sh.page].cells, j, lo), High(k, ns[sh.page].cells, j, hi));
    }
  }

  lemma GraftWalk(ns: Store, ns': Store, k: Kind, sh: Shape, sh': Shape, e: Entry, lo: int, hi: int)
    requires IsTree(ns, k, sh, lo, hi) && lo < e.key <= hi && sh.Inner?
    requires sh'.Inner? && sh'.page == sh.page && |sh'.kids| == |sh.kids|
    requires sh.page in ns && sh.page in ns' && ns'[sh.page] == ns[sh.page] && |sh.kids| == |ns[sh.page].cells| + 1
    requires var s, cs := Slot(ns[sh.page].cells, e.key), ns[sh.page].cells;
             && !(k.Index? && s < |cs| && cs[s].key == e.key)
             && (forall j :: 0 <= j < |sh.kids| && j != s ==> Walk(ns', k, sh'.kids[j]) == Walk(ns, k, sh.kids[j]))
             && Walk(ns', k, sh'.kids[s]) == Put(Walk(ns, k, sh.kids[s]), e)
    ensures Walk(ns', k, sh') == Put(Walk(ns, k, sh), e)
  {
    hide Put, Separator, Below, Beyond, IsTree;
    var s := Slot(ns[sh.page].cells, e.key);
    forall j | 0 <= j < s
      ensures Below(Walk(ns, k, sh.kids[j]), e.key) && Below(Separator(ns[sh.page], k, j), e.key)
    {
      Sides(ns, k, sh, e.key, j, lo, hi);
    }
    FarSide(ns, k, sh, e.key, lo, hi);
    PutFrom(ns, ns', k, sh, sh', e, 0, s);
  }

  /** The grafted shape reaches the old pages and those of the new part, each once. */
  lemma {:induction false} GraftOnce(ns: Store, k: Kind, sh: Shape, key: nat, sub: Shape)
    requires Once(sh) && Once(sub) && Descend(ns, k, sh, key).At?
    requires sub.page == Descend(ns, k, sh, key).page && PagesOf(sub) * PagesOf(sh) == {sub.page}
    ensures Once(Graft(ns, k, sh, key, sub))
    ensures PagesOf(Graft(ns, k, sh, key, sub)) == PagesOf(sh) + PagesOf(sub)
    decreases sh
  {
    if sh.Inner? {
      var s := Slot(ns[sh.page].cells, key);
      TargetInPages(ns, k, sh.kids[s], key);
      KidPages(sh, s);
      assert sub.page in PagesOf(sub);
      GraftOnce(ns, k, sh.kids[s], key, sub);
      var sh' := Graft(ns, k, sh, key, sub);
      GraftPages(sh, sh', s, PagesOf(sub));
      NewKidOnce(sh, s, sh'.kids[s], PagesOf(sub));
    } else {
      assert sub.page in PagesOf(sub);
    }
  }

  lemma KidPages(sh: Shape, s: nat)
    requires sh.Inner? && s < |sh.kids|
    ensures PagesOf(sh.kids[s]) <= PagesOf(sh) && sh.page in PagesOf(sh)
  {
  }

  /** A child may take in pages that no other part of the shape reaches. */
  lemma NewKidOnce(sh: Shape, s: nat, kid: Shape, more: set<nat>)
    requires sh.Inner? && s < |sh.kids| && Once(sh) && Once(kid)
    requires PagesOf(kid) == PagesOf(sh.kids[s]) + more && more * PagesOf(sh) <= PagesOf(sh.kids[s])
    ensures Once(Inner(sh.page, sh.kids[s := kid]))
  {
    var kids := sh.kids[s := kid];
    KidPages(sh, s);
    forall j | 0 <= j < |kids|
      ensures Once(kids[j]) && sh.page !in PagesOf(kids[j])
      ensures j != s ==> PagesOf(kids[j]) !! PagesOf(kid)
    {
      KidPages(sh, j);
      if j < s {
        assert PagesOf(sh.kids[j]) !! PagesOf(sh.kids[s]);
      } else if j > s {
        assert PagesOf(sh.kids[s]) !! PagesOf(sh.kids[j]);
      }
    }
    forall i, j | 0 <= i < j < |kids|
      ensures PagesOf(kids[i]) !! PagesOf(kids[j])
    {
      if i != s && j != s {
        assert PagesOf(sh.kids[i]) !! PagesOf(sh.kids[j]);
      }
    }
  }

  lemma GraftPages(sh: Shape, sh': Shape, s: nat, more: set<nat>)
    requires sh.Inner? && s < |sh.kids| && sh'.Inner? && sh'.page == sh.page && |sh'.kids| == |sh.kids|
    requires forall j :: 0 <= j < |sh.kids| && j != s ==> sh'.kids[j] == sh.kids[j]
    requires PagesOf(sh'.kids[s]) == PagesOf(sh.kids[s]) + more
    ensures PagesOf(sh') == PagesOf(sh) + more
  {
    forall q | q in PagesOf(sh')
      ensures q in PagesOf(sh) + more
    {
      if q != sh.page {
        var i :| 0 <= i < |sh'.kids| && q in PagesOf(sh'.kids[i]);
        assert i != s ==> q in PagesOf(sh.kids[i]);
        assert i == s ==> q in PagesOf(sh.kids[s]) + more;
      }
    }
    forall q | q in PagesOf(sh) + more
      ensures q in PagesOf(sh')
    {
      if q in PagesOf(sh) && q != sh.page {
        var i :| 0 <= i < |sh.kids| && q in PagesOf(sh.kids[i]);
        assert q in PagesOf(sh'.kids[i]);
      } else if q in more {
        assert q in PagesOf(sh'.kids[s]);
      }
    }
  }
}
