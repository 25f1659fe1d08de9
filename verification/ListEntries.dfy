/** The nodes of a doubly linked list and chains of them (db/src/simclist/simclist.h). */
module ListEntries {
  import opened Common

  /** A user datum is a pointer the list never looks behind. */
  type Address = nat

  const NULL: Address := 0

  class Entry {
    var data: Address
    var next: Entry?
    var prev: Entry?

    constructor ()
      ensures data == NULL && next == null && prev == null
    {
      data, next, prev := NULL, null, null;
    }
  }

  ghost predicate Forward(c: seq<Entry>)
    reads c`next
  {
    forall i {:trigger c[i].next} :: 0 <= i < |c| - 1 ==> c[i].next == c[i + 1]
  }

  ghost predicate Backward(c: seq<Entry>)
    reads c`prev
  {
    forall i {:trigger c[i].prev} :: 0 < i < |c| ==> c[i].prev == c[i - 1]
  }

  predicate Distinct(c: seq<Entry>) {
    forall i, j :: 0 <= i < j < |c| ==> c[i] != c[j]
  }

  predicate Apart(c: seq<Entry>, d: seq<Entry>) {
    forall i, j :: 0 <= i < |c| && 0 <= j < |d| ==> c[i] != d[j]
  }

  /** At most limit spare nodes, each once and none of them in the chain. */
  predicate Kept(c: seq<Entry>, spare: seq<Entry>, limit: nat) {
    |spare| <= limit && Distinct(spare) && Apart(c, spare)
  }

  /** A chain between two sentinels, linked in both directions, each node once. */
  ghost predicate Linked(c: seq<Entry>)
    reads c`next, c`prev
  {
    && |c| >= 2 && c[0].prev == null && c[|c| - 1].next == null
    && Forward(c) && Backward(c) && Distinct(c)
  }

  ghost function Datas(c: seq<Entry>): (d: seq<Address>)
    reads c`data
    ensures |d| == |c|
    ensures forall i :: 0 <= i < |c| ==> d[i] == c[i].data
  {
    if c == [] then [] else Datas(c[..|c| - 1]) + [c[|c| - 1].data]
  }

  /** s without its elements from position k up to m. */
  function Cut<T>(s: seq<T>, k: nat, m: nat): (r: seq<T>)
    requires k <= m <= |s|
    ensures |r| == |s| - (m - k)
  {
    seq(|s| - (m - k), i requires 0 <= i < |s| - (m - k) => if i < k then s[i] else s[i + (m - k)])
  }

  lemma Neighbours(c: seq<Entry>, p: nat)
    requires Linked(c) && 0 < p < |c| - 1
    ensures c[p].prev == c[p - 1] && c[p].next == c[p + 1] && Distinct(c)
  {
  }

  lemma Follows(c: seq<Entry>, p: nat)
    requires Linked(c) && p + 1 < |c|
    ensures c[p].next == c[p + 1] && c[p + 1].prev == c[p]
  {
  }

  lemma SamePlace(c: seq<Entry>, i: nat, j: nat)
    requires Linked(c) && i < |c| && j < |c|
    ensures c[i] == c[j] <==> i == j
  {
  }

  lemma Others(c: seq<Entry>, k: nat)
    requires Distinct(c) && k < |c|
    ensures forall i {:trigger c[i]} :: 0 <= i < |c| && i != k ==> c[i] != c[k]
  {
  }

  lemma DistinctInserted(c: seq<Entry>, k: nat, e: Entry)
    requires Distinct(c) && k <= |c| && e !in c
    ensures Distinct(InsertedAt(c, k, e))
  {
  }

  lemma DistinctCut(c: seq<Entry>, k: nat, m: nat)
    requires Distinct(c) && k <= m <= |c|
    ensures Distinct(Cut(c, k, m))
  {
  }

  /** A node put into a chain behind node p. */
  method Link(lent: Entry, prec: Entry, ghost c: seq<Entry>, ghost p: nat, ghost after: Entry)
    requires Linked(c) && p + 1 < |c| && prec == c[p] && after == c[p + 1] && lent !in c
    modifies prec`next, lent`next, lent`prev, after`prev
    ensures Linked(InsertedAt(c, p + 1, lent))
    ensures Datas(c) == old(Datas(c))
  {
    Others(c, p);
    Others(c, p + 1);
    DistinctInserted(c, p + 1, lent);
    hide Distinct;
    var succ := prec.next;
    prec.next := lent;
    lent.prev := prec;
    lent.next := succ;
    succ.prev := lent;
  }

  /** What lies between the sentinels. */
  function Middle(d: seq<Address>): (m: seq<Address>)
    requires |d| >= 2
    ensures |m| == |d| - 2
    ensures forall i :: 0 <= i < |m| ==> m[i] == d[i + 1]
  {
    d[1..|d| - 1]
  }

  lemma MiddleOf(first: seq<Address>, a: seq<Address>, b: seq<Address>, last: Address)
    requires |first| == 1
    ensures Middle(first + a + b + [last]) == a + b
  {
  }

  lemma MiddleInserted(d: seq<Address>, k: nat, x: Address)
    requires 1 <= k < |d|
    ensures Middle(InsertedAt(d, k, x)) == InsertedAt(Middle(d), k - 1, x)
  {
  }

  lemma KeptInserted(c: seq<Entry>, spare: seq<Entry>, limit: nat, k: nat, x: Entry)
    requires Kept(c, spare, limit) && k <= |c| && x !in spare
    ensures Kept(InsertedAt(c, k, x), spare, limit)
  {
  }

  lemma DatasInserted(c: seq<Entry>, k: nat, e: Entry)
    requires k <= |c|
    ensures Datas(InsertedAt(c, k, e)) == InsertedAt(Datas(c), k, e.data)
  {
    hide Datas, InsertedAt;
  }

  lemma DatasCut(c: seq<Entry>, k: nat, m: nat)
    requires k <= m <= |c|
    ensures Datas(Cut(c, k, m)) == Cut(Datas(c), k, m)
  {
    hide Datas;
  }

  lemma MiddleCut(d: seq<Address>, k: nat, m: nat)
    requires 1 <= k <= m < |d|
    ensures Middle(Cut(d, k, m)) == Cut(Middle(d), k - 1, m - 1)
  {
  }

  /** Node k - 1 is followed by node m, and every other node by the next one. */
  ghost predicate Bridged(c: seq<Entry>, k: nat, m: nat)
    requires 1 <= k <= m < |c|
    reads c`next, c`prev
  {
    && c[0].prev == null && c[|c| - 1].next == null
    && (forall i {:trigger c[i].next} :: 0 <= i < |c| - 1 ==> c[i].next == if i == k - 1 then c[m] else c[i + 1])
    && (forall i {:trigger c[i].prev} :: 0 < i < |c| ==> c[i].prev == if i == m then c[k - 1] else c[i - 1])
  }

  lemma BridgedIsLinked(c: seq<Entry>, k: nat, m: nat)
    requires 1 <= k <= m < |c| && Bridged(c, k, m) && Distinct(c)
    ensures Linked(Cut(c, k, m))
  {
    var r := Cut(c, k, m);
    DistinctCut(c, k, m);
    hide Distinct, Cut;
    forall i | 0 < i < |r|
      ensures r[i - 1].next == r[i] && r[i].prev == r[i - 1]
    {
      assert r[i] == c[if i < k then i else i + (m - k)];
      assert r[i - 1] == c[if i - 1 < k then i - 1 else i - 1 + (m - k)];
    }
    assert Forward(r) by {
      forall i | 0 <= i < |r| - 1
        ensures r[i].next == r[i + 1]
      {
        assert r[i + 1 - 1].next == r[i + 1];
      }
    }
  }

  /** The nodes of a chain from k up to m are taken out of it. */
  method Bridge(left: Entry, right: Entry, ghost c: seq<Entry>, ghost k: nat, ghost m: nat)
    requires Linked(c) && 1 <= k <= m < |c| && left == c[k - 1] && right == c[m]
    modifies left`next, right`prev
    ensures Linked(Cut(c, k, m))
    ensures Datas(c) == old(Datas(c))
  {
    Others(c, k - 1);
    Others(c, m);
    hide Distinct, Cut;
    left.next := right;
    right.prev := left;
    BridgedIsLinked(c, k, m);
  }

  /** Removed nodes are kept as long as there is room for them. */
  function Pooled(spare: seq<Entry>, limit: nat, removed: seq<Entry>): (r: seq<Entry>)
    ensures |r| <= if |spare| <= limit then limit else |spare|
    decreases |removed|
  {
    if removed == [] || |spare| >= limit then spare else Pooled(spare + [removed[0]], limit, removed[1..])
  }

  lemma {:induction false} PooledOne(spare: seq<Entry>, limit: nat, removed: seq<Entry>, e: Entry)
    ensures Pooled(spare, limit, removed + [e]) ==
            var r := Pooled(spare, limit, removed); if |r| < limit then r + [e] else r
    decreases |removed|
  {
    if removed == [] {
      assert removed + [e] == [e];
    } else if |spare| < limit {
      assert (removed + [e])[1..] == removed[1..] + [e];
      PooledOne(spare + [removed[0]], limit, removed[1..], e);
    }
  }

  lemma PooledStep(spare: seq<Entry>, limit: nat, c: seq<Entry>, k: nat, i: nat)
    requires k <= i < |c|
    ensures Pooled(spare, limit, c[k..i + 1]) ==
            var r := Pooled(spare, limit, c[k..i]); if |r| < limit then r + [c[i]] else r
  {
    assert c[k..i + 1] == c[k..i] + [c[i]];
    PooledOne(spare, limit, c[k..i], c[i]);
  }

  lemma PooledNone(spare: seq<Entry>, limit: nat, c: seq<Entry>, k: nat)
    requires k <= |c|
    ensures Pooled(spare, limit, c[k..k]) == spare
  {
  }

  lemma CutAll(c: seq<Entry>)
    requires |c| >= 2
    ensures Cut(c, 1, |c| - 1) == [c[0], c[|c| - 1]]
  {
  }

  lemma PooledSingle(spare: seq<Entry>, limit: nat, e: Entry)
    ensures Pooled(spare, limit, [e]) == if |spare| < limit then spare + [e] else spare
  {
    PooledOne(spare, limit, [], e);
    assert [] + [e] == [e];
  }

  /** A node taken out of a chain may join the pool. */
  lemma KeptOne(c: seq<Entry>, spare: seq<Entry>, limit: nat, k: nat)
    requires Distinct(c) && Kept(c, spare, limit) && k < |c|
    ensures Kept(Cut(c, k, k + 1), spare, limit)
    ensures |spare| < limit ==> Kept(Cut(c, k, k + 1), spare + [c[k]], limit)
  {
  }

  lemma CutOneMore(c: seq<Entry>, k: nat, m: nat)
    requires k < m <= |c|
    ensures Cut(c, k, m) == Cut(Cut(c, k, m - 1), k, k + 1) && Cut(c, k, m - 1)[k] == c[m - 1]
  {
  }

  /** A pool of nodes that the rest of a chain does not hold. */
  lemma {:induction false} PooledKept(c: seq<Entry>, spare: seq<Entry>, limit: nat, k: nat, m: nat)
    requires Distinct(c) && Kept(c, spare, limit) && k <= m <= |c|
    ensures Kept(Cut(c, k, m), Pooled(spare, limit, c[k..m]), limit)
    decreases m - k
  {
    hide Distinct, Kept;
    if k < m {
      PooledKept(c, spare, limit, k, m - 1);
      assert c[k..m] == c[k..m - 1] + [c[m - 1]];
      PooledOne(spare, limit, c[k..m - 1], c[m - 1]);
      DistinctCut(c, k, m - 1);
      CutOneMore(c, k, m);
      KeptOne(Cut(c, k, m - 1), Pooled(spare, limit, c[k..m - 1]), limit, k);
    } else {
      assert Cut(c, k, m) == c;
    }
  }

  lemma CutForgets(d: seq<Address>, k: nat, x: Address)
    requires k < |d|
    ensures Cut(d[k := x], k, k + 1) == Cut(d, k, k + 1)
  {
  }
}
