/** The in-place sort of SimCList: quicksort down to short runs, selection sort below
    (db/src/simclist/simclist.c:766-936).  Nodes keep their links, data move between them. */
module ListSort {
  import opened ListEntries

  const MIN_QUICKSORT := 24

  /** A comparator and the direction to sort in; the comparator is negative when its first argument
      is the larger one. */
  datatype Order = Order(cmp: (Address, Address) -> int, versus: int)
  {
    function Weight(a: Address, b: Address): int {
      cmp(a, b) * -versus
    }

    predicate Le(a: Address, b: Address) {
      Weight(a, b) <= 0
    }

    /** The comparator orders all data, ties allowed. */
    ghost predicate Total() {
      && (forall a, b :: Weight(a, b) >= 0 <==> Weight(b, a) <= 0)
      && (forall a, b, c :: Le(a, b) && Le(b, c) ==> Le(a, c))
    }

    /** d is in order from position a up to b. */
    predicate Ordered(d: seq<Address>, a: nat, b: nat)
      requires b <= |d|
    {
      forall i, j :: a <= i < j < b ==> Le(d[i], d[j])
    }

    predicate AllBelow(d: seq<Address>, a: nat, b: nat, x: Address)
      requires b <= |d|
    {
      forall i :: a <= i < b ==> Le(d[i], x)
    }

    predicate AllAbove(d: seq<Address>, a: nat, b: nat, x: Address)
      requires b <= |d|
    {
      forall i :: a <= i < b ==> Le(x, d[i])
    }
  }

  ghost const TOTAL: iset<Order> := iset o: Order | o.Total()

  ghost predicate Preorder(cmp: (Address, Address) -> int) {
    && (forall a, b :: cmp(a, b) >= 0 <==> cmp(b, a) <= 0)
    && (forall a, b, c :: cmp(a, b) >= 0 && cmp(b, c) >= 0 ==> cmp(a, c) >= 0)
  }

  /** A positive direction sorts small to big, a negative one big to small; zero leaves all data
      equal. */
  lemma Directions(o: Order)
    requires Preorder(o.cmp)
    ensures o.Total()
    ensures forall a, b :: o.Le(a, b) <==> (o.versus > 0 ==> o.cmp(a, b) >= 0) && (o.versus < 0 ==> o.cmp(b, a) >= 0)
  {
    forall a, b
      ensures o.Le(a, b) <==> (o.versus > 0 ==> o.cmp(a, b) >= 0) && (o.versus < 0 ==> o.cmp(b, a) >= 0)
      ensures o.Weight(a, b) >= 0 <==> o.Weight(b, a) <= 0
    {
      Sign(o.cmp(a, b), o.versus);
      Sign(o.cmp(b, a), o.versus);
    }
    hide Order.Weight;
  }

  lemma Sign(x: int, v: int)
    ensures x * -v <= 0 <==> (v > 0 ==> x >= 0) && (v < 0 ==> x <= 0)
    ensures x * -v >= 0 <==> (v > 0 ==> x <= 0) && (v < 0 ==> x >= 0)
  {
    if v == 0 {
      assert x * -v == 0;
    } else if v > 0 {
      if x > 0 { assert x * v > 0; } else if x < 0 { assert -x * v > 0; }
    } else {
      if x > 0 { assert x * -v > 0; } else if x < 0 { assert -x * -v > 0; }
    }
  }

  function Swap(d: seq<Address>, i: nat, j: nat): (r: seq<Address>)
    requires i < |d| && j < |d|
    ensures |r| == |d|
  {
    d[i := d[j]][j := d[i]]
  }

  /** e holds the same data as d, and the same ones between positions a and b; elsewhere nothing moved. */
  ghost predicate Shuffled(d: seq<Address>, e: seq<Address>, a: nat, b: nat) {
    && |e| == |d| && a <= b <= |d|
    && (forall i :: 0 <= i < |d| && !(a <= i < b) ==> e[i] == d[i])
    && multiset(e[a..b]) == multiset(d[a..b])
  }

  ghost function Shuffles(d: seq<Address>, a: nat, b: nat): iset<seq<Address>> {
    iset e | Shuffled(d, e, a, b)
  }

  lemma SwapShuffles(d: seq<Address>, i: nat, j: nat, a: nat, b: nat)
    requires a <= i < b <= |d| && a <= j < b
    ensures Swap(d, i, j) in Shuffles(d, a, b)
  {
    var s, i0, j0 := d[a..b], i - a, j - a;
    assert Swap(d, i, j)[a..b] == s[i0 := s[j0]][j0 := s[i0]];
  }

  /** Members of a shuffled range were members before. */
  lemma ShuffledMember(d: seq<Address>, e: seq<Address>, a: nat, b: nat, i: nat)
    requires e in Shuffles(d, a, b) && a <= i < b
    ensures exists j :: a <= j < b && e[i] == d[j]
  {
    assert e[i] == e[a..b][i - a];
    assert e[i] in multiset(e[a..b]);
    assert e[i] in d[a..b];
  }

  lemma ShuffledBounds(o: Order, d: seq<Address>, e: seq<Address>, a: nat, b: nat, x: Address)
    requires e in Shuffles(d, a, b)
    ensures o.AllBelow(d, a, b, x) ==> o.AllBelow(e, a, b, x)
    ensures o.AllAbove(d, a, b, x) ==> o.AllAbove(e, a, b, x)
  {
    forall i | a <= i < b
      ensures o.AllBelow(d, a, b, x) ==> o.Le(e[i], x)
      ensures o.AllAbove(d, a, b, x) ==> o.Le(x, e[i])
    {
      ShuffledMember(d, e, a, b, i);
    }
  }

  lemma ShuffledWider(d: seq<Address>, e: seq<Address>, a: nat, b: nat, a': nat, b': nat)
    requires e in Shuffles(d, a, b) && a' <= a && b <= b' <= |d|
    ensures e in Shuffles(d, a', b')
  {
    assert d[a'..b'] == d[a'..a] + d[a..b] + d[b..b'];
    assert e[a'..b'] == d[a'..a] + e[a..b] + d[b..b'];
  }

  /** A sorted part, a pivot and a sorted part. */
  lemma OrderedJoin(o: Order, d: seq<Address>, a: nat, p: nat, b: nat)
    requires o in TOTAL && a <= p < b <= |d|
    requires o.Ordered(d, a, p) && o.Ordered(d, p + 1, b)
    requires o.AllBelow(d, a, p, d[p]) && o.AllAbove(d, p + 1, b, d[p])
    ensures o.Ordered(d, a, b)
  {
    hide Order.Weight, Order.Le;
  }

  /** Two nodes of a chain exchange their data. */
  method Exchange(a: Entry, b: Entry, ghost c: seq<Entry>, ghost i: nat, ghost j: nat)
    requires Linked(c) && i < |c| && j < |c| && a == c[i] && b == c[j]
    modifies a`data, b`data
    ensures Datas(c) == Swap(old(Datas(c)), i, j)
  {
    Others(c, i);
    Others(c, j);
    hide Distinct;
    var tmpdata := a.data;
    a.data := b.data;
    b.data := tmpdata;
  }

  /** The data after a datum, the pivot and the neighbour of the pivot have moved round. */
  function Turned(d: seq<Address>, i: nat, j: nat, p: nat): (e: seq<Address>)
    requires i < |d| && j < |d| && p < |d|
    ensures |e| == |d|
  {
    Swap(Swap(d, i, p), i, j)
  }

  /** The data of a, b and p move round: a takes that of b, b that of p, p that of a. */
  method Rotate(a: Entry, b: Entry, p: Entry, ghost c: seq<Entry>, ghost i: nat, ghost j: nat, ghost k: nat)
    requires Linked(c) && i < |c| && j < |c| && k < |c| && i != k && j != k
    requires a == c[i] && b == c[j] && p == c[k]
    modifies a`data, b`data, p`data
    ensures Datas(c) == Turned(old(Datas(c)), i, j, k)
  {
    Others(c, i);
    Others(c, j);
    Others(c, k);
    hide Distinct;
    var tmpdata := a.data;
    a.data := b.data;
    b.data := p.data;
    p.data := tmpdata;
  }

  /** The position of the smallest datum from u on. */
  method Smallest(o: Order, start: Entry, lel: Entry, ghost c: seq<Entry>, ghost u: nat, ghost h: nat)
    returns (toswap: Entry, ghost m: nat)
    requires Linked(c) && o in TOTAL && u < h && h + 1 < |c| && start == c[u] && lel == c[h]
    ensures u <= m <= h && toswap == c[m]
    ensures o.AllAbove(Datas(c), u, h + 1, Datas(c)[m])
  {
    toswap, m := start, u;
    var cursor := start.next;
    ghost var i := u + 1;
    ghost var d := Datas(c);
    while cursor != lel.next
      invariant u < i <= h + 1 && cursor == c[i]
      invariant u <= m <= h && toswap == c[m]
      invariant o.AllAbove(d, u, i, d[m])
      decreases h + 1 - i
    {
      if o.Weight(toswap.data, cursor.data) > 0 {
        toswap, m := cursor, i;
      }
      cursor := cursor.next;
      i := i + 1;
    }
  }

  /** One round: the smallest of the unsorted data changes places with the first of them. */
  method SelectOne(o: Order, firstunsorted: Entry, lel: Entry, ghost c: seq<Entry>, ghost a: nat, ghost u: nat,
                   ghost h: nat)
    requires Linked(c) && o in TOTAL && a <= u < h && h + 1 < |c| && firstunsorted == c[u] && lel == c[h]
    requires Datas(c) in Selections(o, a, u, h + 1)
    modifies c`data
    ensures Datas(c) in Selections(o, a, u + 1, h + 1) && Datas(c) in Shuffles(old(Datas(c)), a, h + 1)
  {
    ghost var d := Datas(c);
    var toswap, m := Smallest(o, firstunsorted, lel, c, u, h);
    SwapShuffles(d, u, m, a, h + 1);
    SelectedMore(o, d, a, u, m, h + 1);
    hide Selections, Shuffles, Order.Total, Order.AllAbove;
    if toswap != firstunsorted {
      Exchange(firstunsorted, toswap, c, u, m);
    }
  }

  method SelectionSort(o: Order, first: nat, fel: Entry, last: nat, lel: Entry, ghost c: seq<Entry>)
    requires o in TOTAL && Linked(c)
    requires first <= last && last + 3 <= |c| && fel == c[first + 1] && lel == c[last + 1]
    modifies c`data
    ensures Datas(c) in Shuffles(old(Datas(c)), first + 1, last + 2) && o.Ordered(Datas(c), first + 1, last + 2)
  {
    hide Selections, Shuffles, Datas, Linked, Order.Total, Order.Ordered;
    ghost var d := Datas(c);
    ShuffledSelf(d, first + 1, last + 2);
    SelectedFirst(o, d, first + 1, last + 2);
    if last <= first {
      SelectedAll(o, d, first + 1, last + 2);
      return;
    }
    SamePlace(c, first + 1, last + 1);
    var firstunsorted := fel;
    ghost var u := first + 1;
    while firstunsorted != lel
      invariant first + 1 <= u <= last + 1 && firstunsorted == c[u] && (firstunsorted == lel <==> u == last + 1)
      invariant Datas(c) in Shuffles(d, first + 1, last + 2)
      invariant Datas(c) in Selections(o, first + 1, u, last + 2)
      decreases last + 1 - u
    {
      ghost var e := Datas(c);
      SelectOne(o, firstunsorted, lel, c, first + 1, u, last + 1);
      ShuffledTrans(d, e, Datas(c), first + 1, last + 2);
      Follows(c, u);
      SamePlace(c, u + 1, last + 1);
      firstunsorted := firstunsorted.next;
      u := u + 1;
    }
    SelectedAll(o, Datas(c), first + 1, last + 2);
  }

  lemma SelectedFirst(o: Order, d: seq<Address>, a: nat, b: nat)
    requires a <= b <= |d|
    ensures d in Selections(o, a, a, b)
  {
  }

  lemma SelectedAll(o: Order, d: seq<Address>, a: nat, b: nat)
    requires a < b <= |d| && d in Selections(o, a, b - 1, b)
    ensures o.Ordered(d, a, b)
  {
  }

  lemma ShuffledSelf(d: seq<Address>, a: nat, b: nat)
    requires a <= b <= |d|
    ensures d in Shuffles(d, a, b)
  {
  }

  lemma ShuffledTrans(d: seq<Address>, e: seq<Address>, f: seq<Address>, a: nat, b: nat)
    requires e in Shuffles(d, a, b) && f in Shuffles(e, a, b)
    ensures f in Shuffles(d, a, b)
  {
  }

  /** Positions a up to u are in order and not above anything from u up to b. */
  ghost predicate Selected(o: Order, d: seq<Address>, a: nat, u: nat, b: nat) {
    a <= u <= b <= |d| && o.Ordered(d, a, u) && forall i :: a <= i < u ==> o.AllAbove(d, u, b, d[i])
  }

  ghost function Selections(o: Order, a: nat, u: nat, b: nat): iset<seq<Address>> {
    iset d | Selected(o, d, a, u, b)
  }

  lemma SelectedMore(o: Order, d: seq<Address>, a: nat, u: nat, m: nat, b: nat)
    requires o in TOTAL && d in Selections(o, a, u, b) && u <= m < b <= |d| && o.AllAbove(d, u, b, d[m])
    ensures Swap(d, u, m) in Selections(o, a, u + 1, b)
  {
  }

  /** Everything before position l is at most the pivot at p, everything behind position r at least. */
  ghost predicate Parted(o: Order, d: seq<Address>, a: nat, l: nat, p: nat, r: nat, h: nat) {
    && a <= l <= p <= r <= h < |d|
    && o.AllBelow(d, a, l, d[p]) && o.AllAbove(d, r + 1, h + 1, d[p])
  }

  ghost function Parts(o: Order, a: nat, l: nat, p: nat, r: nat, h: nat): iset<seq<Address>> {
    iset d | Parted(o, d, a, l, p, r, h)
  }

  lemma PartedSwap(o: Order, d: seq<Address>, a: nat, l: nat, p: nat, r: nat, h: nat)
    requires o in TOTAL && d in Parts(o, a, l, p, r, h) && l < p < r
    requires o.Weight(d[l], d[p]) > 0 && o.Weight(d[r], d[p]) < 0
    ensures Swap(d, l, r) in Parts(o, a, l + 1, p, r - 1, h) && Swap(d, l, r) in Shuffles(d, a, h + 1)
  {
    SwapShuffles(d, l, r, a, h + 1);
  }

  lemma TurnedShuffles(d: seq<Address>, i: nat, j: nat, p: nat, a: nat, b: nat)
    requires a <= i < b <= |d| && a <= j < b && a <= p < b
    ensures Turned(d, i, j, p) in Shuffles(d, a, b)
  {
    SwapShuffles(d, i, p, a, b);
    SwapShuffles(Swap(d, i, p), i, j, a, b);
    ShuffledTrans(d, Swap(d, i, p), Turned(d, i, j, p), a, b);
  }

  lemma TurnedAt(d: seq<Address>, i: nat, j: nat, p: nat)
    requires i < |d| && j < |d| && p < |d| && i != p && j != p
    ensures var e := Turned(d, i, j, p);
            e[j] == d[p] && e[p] == d[i] && AgreeBut(d, e, i, j, p)
  {
  }

  lemma Bigger(o: Order, x: Address, y: Address)
    requires o in TOTAL && o.Weight(x, y) > 0
    ensures o.Le(y, x)
  {
  }

  /** d and e agree outside i, j and p. */
  ghost predicate AgreeBut(d: seq<Address>, e: seq<Address>, i: nat, j: nat, p: nat) {
    |e| == |d| && forall x {:trigger e[x]} :: 0 <= x < |d| && x != i && x != j && x != p ==> e[x] == d[x]
  }

  lemma PivotLeft(o: Order, d: seq<Address>, e: seq<Address>, a: nat, l: nat, p: nat, h: nat)
    requires Parted(o, d, a, l, p, p, h) && l < p && AgreeBut(d, e, l, p - 1, p)
    requires o.Le(d[p], d[l]) && e[p - 1] == d[p] && e[p] == d[l]
    ensures Parted(o, e, a, l, p - 1, p - 1, h)
  {
    hide Order.Le;
  }

  lemma PivotRight(o: Order, d: seq<Address>, e: seq<Address>, a: nat, p: nat, r: nat, h: nat)
    requires Parted(o, d, a, p, p, r, h) && p < r && AgreeBut(d, e, r, p + 1, p)
    requires o.Le(d[r], d[p]) && e[p + 1] == d[p] && e[p] == d[r]
    ensures Parted(o, e, a, p + 1, p + 1, r, h)
  {
    hide Order.Le;
  }

  lemma TurnedLeft(o: Order, d: seq<Address>, a: nat, l: nat, p: nat, h: nat)
    requires o in TOTAL && d in Parts(o, a, l, p, p, h) && l < p <= h < |d| && o.Weight(d[l], d[p]) > 0
    ensures Turned(d, l, p - 1, p) in Parts(o, a, l, p - 1, p - 1, h)
  {
    hide Turned, Parted;
    TurnedAt(d, l, p - 1, p);
    Bigger(o, d[l], d[p]);
    PivotLeft(o, d, Turned(d, l, p - 1, p), a, l, p, h);
  }

  lemma TurnedRight(o: Order, d: seq<Address>, a: nat, p: nat, r: nat, h: nat)
    requires o in TOTAL && d in Parts(o, a, p, p, r, h) && p < r <= h < |d| && o.Weight(d[r], d[p]) < 0
    ensures Turned(d, r, p + 1, p) in Parts(o, a, p + 1, p + 1, r, h)
  {
    hide Turned, Parted;
    TurnedAt(d, r, p + 1, p);
    PivotRight(o, d, Turned(d, r, p + 1, p), a, p, r, h);
  }

  /** The first datum from l on that is bigger than the pivot, or the pivot. */
  method ScanUp(o: Order, start: Entry, pivot: Entry, ghost c: seq<Entry>, ghost a: nat, ghost l: nat,
                ghost p: nat, ghost r: nat, ghost h: nat)
    returns (left: Entry, ghost l': nat)
    requires Linked(c) && l <= p < |c| && start == c[l] && pivot == c[p] && Datas(c) in Parts(o, a, l, p, r, h)
    ensures l <= l' <= p && left == c[l'] && Datas(c) in Parts(o, a, l', p, r, h)
    ensures left == pivot <==> l' == p
    ensures l' < p ==> o.Weight(left.data, pivot.data) > 0
  {
    left, l' := start, l;
    while left != pivot && o.Weight(left.data, pivot.data) <= 0
      invariant l <= l' <= p && left == c[l'] && Datas(c) in Parts(o, a, l', p, r, h)
      decreases p - l'
    {
      left := left.next;
      l' := l' + 1;
    }
  }

  method ScanDown(o: Order, start: Entry, pivot: Entry, ghost c: seq<Entry>, ghost a: nat, ghost l: nat,
                  ghost p: nat, ghost r: nat, ghost h: nat)
    returns (right: Entry, ghost r': nat)
    requires o in TOTAL && Linked(c) && p <= r < |c| && start == c[r] && pivot == c[p]
        && Datas(c) in Parts(o, a, l, p, r, h)
    ensures p <= r' <= r && right == c[r'] && Datas(c) in Parts(o, a, l, p, r', h)
    ensures right == pivot <==> r' == p
    ensures p < r' ==> o.Weight(right.data, pivot.data) < 0
  {
    right, r' := start, r;
    while right != pivot && o.Weight(right.data, pivot.data) >= 0
      invariant p <= r' <= r && right == c[r'] && Datas(c) in Parts(o, a, l, p, r', h)
      decreases r' - p
    {
      right := right.prev;
      r' := r' - 1;
    }
  }

  /** Lines 850-868: left and right walk towards the pivot and swap what is on the wrong side. */
  method Meet(o: Order, fel: Entry, lel: Entry, pivot: Entry, ghost c: seq<Entry>, ghost a: nat, ghost p: nat,
              ghost h: nat)
    returns (left: Entry, right: Entry, ghost l: nat, ghost r: nat)
    requires o in TOTAL && Linked(c) && a <= p <= h && h + 1 < |c| && fel == c[a] && pivot == c[p] && lel == c[h]
    modifies c`data
    ensures a <= l <= p <= r <= h && (l == p || r == p) && left == c[l] && right == c[r]
    ensures Datas(c) in Parts(o, a, l, p, r, h) && Datas(c) in Shuffles(old(Datas(c)), a, h + 1)
  {
    hide Parts, Shuffles, Linked, Datas, Order.Total;
    left, right, l, r := fel, lel, a, h;
    ghost var d := Datas(c);
    PartedFirst(o, d, a, p, h);
    ShuffledSelf(d, a, h + 1);
    SamePlace(c, l, p);
    SamePlace(c, r, p);
    while left != pivot && right != pivot
      invariant a <= l <= p <= r <= h && left == c[l] && right == c[r]
      invariant (left == pivot <==> l == p) && (right == pivot <==> r == p)
      invariant Datas(c) in Parts(o, a, l, p, r, h) && Datas(c) in Shuffles(d, a, h + 1)
      decreases r - l
    {
      ghost var e := Datas(c);
      left, right, l, r := Round(o, left, right, pivot, c, a, l, p, r, h);
      ShuffledTrans(d, e, Datas(c), a, h + 1);
    }
  }

  /** One turn of the loop. */
  method Round(o: Order, left: Entry, right: Entry, pivot: Entry, ghost c: seq<Entry>, ghost a: nat, ghost l: nat,
               ghost p: nat, ghost r: nat, ghost h: nat)
    returns (left': Entry, right': Entry, ghost l': nat, ghost r': nat)
    requires o in TOTAL && Linked(c) && a <= l < p < r <= h && h + 1 < |c| && Datas(c) in Parts(o, a, l, p, r, h)
    requires left == c[l] && pivot == c[p] && right == c[r]
    modifies c`data
    ensures a <= l' <= p <= r' <= h && r' - l' < r - l && left' == c[l'] && right' == c[r']
    ensures (left' == pivot <==> l' == p) && (right' == pivot <==> r' == p)
    ensures Datas(c) in Parts(o, a, l', p, r', h) && Datas(c) in Shuffles(old(Datas(c)), a, h + 1)
  {
    hide Parts, Shuffles, Linked, Datas, Order.Total;
    SamePlace(c, l, p);
    SamePlace(c, r, p);
    ShuffledSelf(Datas(c), a, h + 1);
    left', l' := ScanUp(o, left, pivot, c, a, l, p, r, h);
    right', r' := ScanDown(o, right, pivot, c, a, l', p, r, h);
    if left' != pivot && right' != pivot {
      left', right' := SwapStep(o, left', right', pivot, c, a, l', p, r', h);
      l', r' := l' + 1, r' - 1;
    }
  }

  /** The two data change places and both sides move on. */
  method SwapStep(o: Order, left: Entry, right: Entry, pivot: Entry, ghost c: seq<Entry>, ghost a: nat,
                  ghost l: nat, ghost p: nat, ghost r: nat, ghost h: nat)
    returns (left': Entry, right': Entry)
    requires o in TOTAL && Linked(c) && a <= l < p < r <= h && h + 1 < |c| && Datas(c) in Parts(o, a, l, p, r, h)
    requires left == c[l] && pivot == c[p] && right == c[r]
    requires o.Weight(left.data, pivot.data) > 0 && o.Weight(right.data, pivot.data) < 0
    modifies left`data, right`data
    ensures left' == c[l + 1] && right' == c[r - 1]
    ensures (left' == pivot <==> l + 1 == p) && (right' == pivot <==> r - 1 == p)
    ensures Datas(c) in Parts(o, a, l + 1, p, r - 1, h) && Datas(c) in Shuffles(old(Datas(c)), a, h + 1)
  {
    hide Parts, Parted, Shuffles, Datas, Linked, Order.Total;
    PartedSwap(o, Datas(c), a, l, p, r, h);
    Follows(c, l);
    Follows(c, r - 1);
    SamePlace(c, l + 1, p);
    SamePlace(c, r - 1, p);
    Exchange(left, right, c, l, r);
    left', right' := left.next, right.prev;
  }

  lemma PartedFirst(o: Order, d: seq<Address>, a: nat, p: nat, h: nat)
    requires a <= p <= h < |d|
    ensures d in Parts(o, a, a, p, h, h)
  {
  }

  /** Lines 871-884: the pivot moves down past what is bigger on its left. */
  method SettleLeft(o: Order, start: Entry, from: Entry, id: nat, ghost c: seq<Entry>, ghost a: nat, ghost l0: nat,
                    ghost p0: nat, ghost h: nat)
    returns (pivot: Entry, pivotid: nat, ghost p: nat)
    requires o in TOTAL && Linked(c) && a <= l0 <= p0 <= h && h + 1 < |c| && Datas(c) in Parts(o, a, l0, p0, p0, h)
    requires start == c[l0] && from == c[p0] && id == p0 - a
    modifies c`data
    ensures a <= p <= h && pivot == c[p] && pivotid == p - a
    ensures Datas(c) in Parts(o, a, p, p, p, h) && Datas(c) in Shuffles(old(Datas(c)), a, h + 1)
  {
    hide Parts, Shuffles, Linked, Datas, Turned, Swap, Order.Total;
    pivot, pivotid, p := from, id, p0;
    var left := start;
    ghost var l := l0;
    ghost var d := Datas(c);
    ShuffledSelf(d, a, h + 1);
    SamePlace(c, l, p);
    while left != pivot
      invariant a <= l <= p <= h && left == c[l] && pivot == c[p] && pivotid == p - a && (left == pivot <==> l == p)
      invariant Datas(c) in Parts(o, a, l, p, p, h) && Datas(c) in Shuffles(d, a, h + 1)
      decreases p - l
    {
      ghost var e := Datas(c);
      if o.Weight(left.data, pivot.data) > 0 {
        pivot := PivotDown(o, left, pivot, c, a, l, p, h);
        pivotid, p := pivotid - 1, p - 1;
        ShuffledTrans(d, e, Datas(c), a, h + 1);
        SamePlace(c, l, p);
        if pivot == left { break; }
      } else {
        PartedUp(o, e, a, l, p, h);
        Follows(c, l);
        SamePlace(c, l + 1, p);
        left, l := left.next, l + 1;
      }
    }
  }

  lemma PartedUp(o: Order, d: seq<Address>, a: nat, l: nat, p: nat, h: nat)
    requires d in Parts(o, a, l, p, p, h) && l < p && h < |d| && p <= h && o.Weight(d[l], d[p]) <= 0
    ensures d in Parts(o, a, l + 1, p, p, h)
  {
  }

  method PivotDown(o: Order, left: Entry, pivot: Entry, ghost c: seq<Entry>, ghost a: nat, ghost l: nat,
                   ghost p: nat, ghost h: nat)
    returns (before: Entry)
    requires o in TOTAL && Linked(c) && a <= l < p <= h && h + 1 < |c| && Datas(c) in Parts(o, a, l, p, p, h)
    requires left == c[l] && pivot == c[p] && o.Weight(left.data, pivot.data) > 0
    modifies c`data
    ensures before == c[p - 1]
    ensures Datas(c) in Parts(o, a, l, p - 1, p - 1, h) && Datas(c) in Shuffles(old(Datas(c)), a, h + 1)
  {
    hide Parts, Shuffles, Linked, Datas, Turned, Order.Total;
    TurnedShuffles(Datas(c), l, p - 1, p, a, h + 1);
    TurnedLeft(o, Datas(c), a, l, p, h);
    Follows(c, p - 1);
    before := pivot.prev;
    Rotate(left, before, pivot, c, l, p - 1, p);
  }

  /** Lines 885-900: the pivot moves up past what is smaller on its right. */
  method SettleRight(o: Order, start: Entry, from: Entry, id: nat, ghost c: seq<Entry>, ghost a: nat,
                     ghost p0: nat, ghost r0: nat, ghost h: nat)
    returns (pivot: Entry, pivotid: nat, ghost p: nat)
    requires o in TOTAL && Linked(c) && a <= p0 <= r0 <= h && h + 1 < |c| && Datas(c) in Parts(o, a, p0, p0, r0, h)
    requires start == c[r0] && from == c[p0] && id == p0 - a
    modifies c`data
    ensures a <= p <= h && pivot == c[p] && pivotid == p - a
    ensures Datas(c) in Parts(o, a, p, p, p, h) && Datas(c) in Shuffles(old(Datas(c)), a, h + 1)
  {
    hide Parts, Shuffles, Linked, Datas, Turned, Swap, Order.Total;
    pivot, pivotid, p := from, id, p0;
    var right := start;
    ghost var r := r0;
    ghost var d := Datas(c);
    ShuffledSelf(d, a, h + 1);
    SamePlace(c, r, p);
    while right != pivot
      invariant a <= p <= r <= h && right == c[r] && pivot == c[p] && pivotid == p - a && (right == pivot <==> r == p)
      invariant Datas(c) in Parts(o, a, p, p, r, h) && Datas(c) in Shuffles(d, a, h + 1)
      decreases r - p
    {
      ghost var e := Datas(c);
      if o.Weight(right.data, pivot.data) < 0 {
        pivot := PivotUp(o, right, pivot, c, a, p, r, h);
        pivotid, p := pivotid + 1, p + 1;
        ShuffledTrans(d, e, Datas(c), a, h + 1);
        SamePlace(c, r, p);
        if pivot == right { break; }
      } else {
        PartedDown(o, e, a, p, r, h);
        Follows(c, r - 1);
        SamePlace(c, r - 1, p);
        right, r := right.prev, r - 1;
      }
    }
  }

  lemma PartedDown(o: Order, d: seq<Address>, a: nat, p: nat, r: nat, h: nat)
    requires o in TOTAL && d in Parts(o, a, p, p, r, h) && p < r <= h < |d| && o.Weight(d[r], d[p]) >= 0
    ensures d in Parts(o, a, p, p, r - 1, h)
  {
  }

  method PivotUp(o: Order, right: Entry, pivot: Entry, ghost c: seq<Entry>, ghost a: nat, ghost p: nat,
                 ghost r: nat, ghost h: nat)
    returns (after: Entry)
    requires o in TOTAL && Linked(c) && a <= p < r <= h && h + 1 < |c| && Datas(c) in Parts(o, a, p, p, r, h)
    requires right == c[r] && pivot == c[p] && o.Weight(right.data, pivot.data) < 0
    modifies c`data
    ensures after == c[p + 1]
    ensures Datas(c) in Parts(o, a, p + 1, p + 1, r, h) && Datas(c) in Shuffles(old(Datas(c)), a, h + 1)
  {
    hide Parts, Shuffles, Linked, Datas, Turned, Order.Total;
    TurnedShuffles(Datas(c), r, p + 1, p, a, h + 1);
    TurnedRight(o, Datas(c), a, p, r, h);
    Follows(c, p);
    after := pivot.next;
    Rotate(right, after, pivot, c, r, p + 1, p);
  }

  /** One run of the chain around a pivot that is picked by number: afterwards the pivot has
      nothing bigger before it and nothing smaller behind it. */
  method Partition(o: Order, fel: Entry, lel: Entry, picked: Entry, id: nat, ghost c: seq<Entry>, ghost a: nat,
                   ghost h: nat)
    returns (pivot: Entry, pivotid: nat)
    requires o in TOTAL && Linked(c) && a <= h && h + 1 < |c| && fel == c[a] && lel == c[h]
    requires id <= h - a && picked == c[a + id]
    modifies c`data
    ensures pivotid <= h - a && pivot == c[a + pivotid]
    ensures Datas(c) in Parts(o, a, a + pivotid, a + pivotid, a + pivotid, h)
        && Datas(c) in Shuffles(old(Datas(c)), a, h + 1)
  {
    hide Parts, Shuffles, Linked, Datas, Order.Total;
    ghost var d := Datas(c);
    var left, right, l, r := Meet(o, fel, lel, picked, c, a, a + id, h);
    ghost var e := Datas(c);
    ghost var p;
    if right == picked {
      SamePlace(c, r, a + id);
      pivot, pivotid, p := SettleLeft(o, left, picked, id, c, a, l, a + id, h);
    } else {
      pivot, pivotid, p := SettleRight(o, right, picked, id, c, a, a + id, r, h);
    }
    ShuffledTrans(d, e, Datas(c), a, h + 1);
  }

  /** The node with this number in the run, counted from the nearer end. */
  method Pick(fel: Entry, lel: Entry, count: nat, id: nat, ghost c: seq<Entry>, ghost a: nat) returns (pivot: Entry)
    requires Linked(c) && id <= count && a + count < |c| && fel == c[a] && lel == c[a + count]
    ensures pivot == c[a + id]
  {
    if id < (count + 1) / 2 {
      pivot := fel;
      for i := 0 to id
        invariant pivot == c[a + i]
      {
        pivot := pivot.next;
      }
    } else {
      pivot := lel;
      for i := count downto id
        invariant pivot == c[a + i]
      {
        pivot := pivot.prev;
      }
    }
  }

  /** Whatever the random numbers, the run ends up in order and keeps its data. */
  method QuickSort(o: Order, first: nat, fel: Entry, last: nat, lel: Entry, ghost c: seq<Entry>)
    requires o in TOTAL && Linked(c)
    requires first <= last && last + 3 <= |c| && fel == c[first + 1] && lel == c[last + 1]
    modifies c`data
    ensures Datas(c) in Shuffles(old(Datas(c)), first + 1, last + 2) && o.Ordered(Datas(c), first + 1, last + 2)
    decreases last - first, 1
  {
    hide Parts, Shuffles, Linked, Datas, Order.Total, Order.Ordered;
    ghost var d := Datas(c);
    if last <= first {
      ShuffledSelf(d, first + 1, last + 2);
      OneOrdered(o, d, first + 1);
      return;
    }
    if last - first + 1 <= MIN_QUICKSORT {
      SelectionSort(o, first, fel, last, lel, c);
      return;
    }
    var random: nat := *;
    var pivotid := random % (last - first + 1);
    var pivot := Pick(fel, lel, last - first, pivotid, c, first + 1);
    pivot, pivotid := Partition(o, fel, lel, pivot, pivotid, c, first + 1, last + 1);
    ghost var e := Datas(c);
    SortSides(o, first, fel, last, lel, pivot, pivotid, c);
    ShuffledTrans(d, e, Datas(c), first + 1, last + 2);
  }

  method SortSides(o: Order, first: nat, fel: Entry, last: nat, lel: Entry, pivot: Entry, pivotid: nat,
                   ghost c: seq<Entry>)
    requires o in TOTAL && Linked(c)
    requires first < last && last + 3 <= |c| && fel == c[first + 1] && lel == c[last + 1]
    requires pivotid <= last - first && pivot == c[first + 1 + pivotid]
    requires Datas(c) in Parts(o, first + 1, first + 1 + pivotid, first + 1 + pivotid, first + 1 + pivotid, last + 1)
    modifies c`data
    ensures Datas(c) in Shuffles(old(Datas(c)), first + 1, last + 2) && o.Ordered(Datas(c), first + 1, last + 2)
    decreases last - first, 0
  {
    hide Parts, Shuffles, Linked, Datas, Order.Total, Order.Ordered;
    ghost var p := first + 1 + pivotid;
    ghost var d := Datas(c);
    if pivotid > 0 {
      Follows(c, p - 1);
      QuickSort(o, first, fel, first + pivotid - 1, pivot.prev, c);
    } else {
      ShuffledSelf(d, first + 1, p);
      NoneOrdered(o, d, p);
    }
    ghost var e := Datas(c);
    LeftSorted(o, d, e, first + 1, p, last + 1);
    if first + pivotid < last {
      Follows(c, p);
      QuickSort(o, first + pivotid + 1, pivot.next, last, lel, c);
    } else {
      ShuffledSelf(e, p + 1, last + 2);
      NoneOrdered(o, e, p + 1);
    }
    BothSorted(o, e, Datas(c), first + 1, p, last + 1);
    ShuffledTrans(d, e, Datas(c), first + 1, last + 2);
  }

  lemma NoneOrdered(o: Order, d: seq<Address>, a: nat)
    requires a <= |d|
    ensures o.Ordered(d, a, a)
  {
  }

  /** Sorting the left side keeps both sides apart. */
  lemma LeftSorted(o: Order, d: seq<Address>, e: seq<Address>, a: nat, p: nat, h: nat)
    requires a <= p <= h < |d| == |e| && d in Parts(o, a, p, p, p, h)
    requires e in Shuffles(d, a, p)
    ensures e in Parts(o, a, p, p, p, h) && e in Shuffles(d, a, h + 1)
  {
    ShuffledBounds(o, d, e, a, p, d[p]);
    ShuffledWider(d, e, a, p, a, h + 1);
  }

  lemma BothSorted(o: Order, d: seq<Address>, e: seq<Address>, a: nat, p: nat, h: nat)
    requires o in TOTAL && a <= p <= h < |d| == |e| && d in Parts(o, a, p, p, p, h) && o.Ordered(d, a, p)
    requires e in Shuffles(d, p + 1, h + 1) && o.Ordered(e, p + 1, h + 1)
    ensures o.Ordered(e, a, h + 1) && e in Shuffles(d, a, h + 1)
  {
    hide Order.Weight, Order.Le;
    ShuffledBounds(o, d, e, p + 1, h + 1, d[p]);
    ShuffledWider(d, e, p + 1, h + 1, a, h + 1);
    OrderedJoin(o, e, a, p, h + 1);
  }

  lemma OneOrdered(o: Order, d: seq<Address>, a: nat)
    requires a < |d|
    ensures o.Ordered(d, a, a + 1)
  {
  }
}
