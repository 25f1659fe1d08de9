/** The list with sentinels, cached middle and spare nodes (db/src/simclist/simclist.c). */
module SimCList {
  import opened Common
  import opened ListEntries
  import opened ListSort

  const MAX_SPARE := 5

  datatype Comparator = NoComparator | Compare(cmp: (Address, Address) -> int)

  class List {
    const head: Entry
    const tail: Entry
    var mid: Entry?
    var numels: nat
    var spare: seq<Entry>
    var iterActive: bool
    var iterPos: nat
    var iterEntry: Entry?
    var comparator: Comparator
    ghost var chain: seq<Entry>  // the sentinels and what lies between them

    /** list_repOk, and that no node is both linked and spare. */
    ghost predicate Valid()
      reads this, chain`next, chain`prev
    {
      ValidFor(numels)
    }

    /** The list is in order once numels is n. */
    ghost predicate ValidFor(n: nat)
      reads this, chain`next, chain`prev
    {
      && |chain| == n + 2
      && chain[0] == head && chain[n + 1] == tail
      && Linked(chain)
      && mid == (if n == 0 then null else chain[1 + (n - 1) / 2])
      && Kept(chain, spare, MAX_SPARE)
    }

    ghost function Contents(): (d: seq<Address>)
      requires |chain| >= 2
      reads this`chain, chain`data
      ensures |d| == |chain| - 2
    {
      Middle(Datas(chain))
    }

    /** list_init */
    constructor ()
      ensures Valid() && Contents() == [] && !iterActive && spare == []
      ensures fresh(head) && fresh(tail)
    {
      head := new Entry();
      tail := new Entry();
      mid := null;
      numels := 0;
      spare := [];
      iterActive := false;
      iterPos := 0;
      iterEntry := null;
      comparator := NoComparator;
      new;
      head.next := tail;
      tail.prev := head;
      chain := [head, tail];
    }

    /** list_findpos: the walk starts at whichever of head, mid and tail is near; positions -1 and
        numels are the sentinels.  The quotient (pos + 1) / numels is exact here; with no element
        it is not a number or infinite, and every comparison with it fails. */
    method FindPos(pos: int) returns (entry: Entry?)
      requires Valid()
      ensures entry == if -1 <= pos <= numels then chain[pos + 1] else null
    {
      if pos < -1 || pos > numels {
        return null;
      }
      if numels > 0 && 4 * (pos + 1) <= numels {
        entry := Ahead(head, 0, pos + 1);
      } else if numels > 0 && 2 * (pos + 1) < numels {
        entry := Back(mid, 1 + (numels - 1) / 2, pos + 1);
      } else if numels > 0 && 4 * (pos + 1) <= 3 * numels {
        entry := Ahead(mid, 1 + (numels - 1) / 2, pos + 1);
      } else {
        entry := Back(tail, numels + 1, pos + 1);
      }
    }

    method Ahead(start: Entry, i: nat, target: nat) returns (entry: Entry)
      requires Linked(chain) && i <= target < |chain| && start == chain[i]
      ensures entry == chain[target]
    {
      entry := start;
      for j := i to target
        invariant entry == chain[j]
      {
        entry := entry.next;
      }
    }

    method Back(start: Entry, i: nat, target: nat) returns (entry: Entry)
      requires Linked(chain) && target <= i < |chain| && start == chain[i]
      ensures entry == chain[target]
    {
      entry := start;
      for j := i downto target
        invariant entry == chain[j]
      {
        entry := entry.prev;
      }
    }

    /** A node for a new element: a spare one if there is one. */
    method TakeEntry(data: Address) returns (lent: Entry)
      requires Valid()
      modifies this`spare, spare
      ensures Valid() && lent !in chain && lent !in spare && lent.data == data
      ensures lent in old(spare) || fresh(lent)
      ensures forall e :: e in spare ==> e in old(spare)
      ensures Contents() == old(Contents())
    {
      hide Datas, Linked, Contents;
      if |spare| > 0 {
        lent := spare[|spare| - 1];
        spare := spare[..|spare| - 1];
      } else {
        lent := new Entry();
      }
      lent.data := data;
    }

    /** The middle of the chain with lent inserted behind node pos. */
    method MidAfterInsert(lent: Entry, pos: nat, ghost before: seq<Entry>) returns (m: Entry)
      requires numels >= 1 && |before| == numels + 1 && pos + 1 < |before| && Linked(InsertedAt(before, pos + 1, lent))
      requires mid == (if numels == 1 then null else before[1 + (numels - 2) / 2])
      ensures m == InsertedAt(before, pos + 1, lent)[1 + (numels - 1) / 2]
    {
      if numels == 1 {
        return lent;
      }
      m := mid;
      assert m == InsertedAt(before, pos + 1, lent)[if (numels - 2) / 2 < pos then 1 + (numels - 2) / 2
          else 2 + (numels - 2) / 2];
      if numels % 2 == 1 {
        if pos >= (numels - 1) / 2 { m := m.next; }
      } else {
        if pos <= (numels - 1) / 2 { m := m.prev; }
      }
    }

    /** The chain and the data with a node linked in behind position k. */
    method LinkIn(lent: Entry, prec: Entry, ghost k: nat)
      requires Linked(chain) && k + 1 < |chain| && prec == chain[k] && lent !in chain
      modifies this`chain, lent`next, lent`prev, chain
      ensures chain == InsertedAt(old(chain), k + 1, lent) && Linked(chain) && chain[k + 1] == lent
      ensures chain[0] == old(chain)[0] && chain[|chain| - 1] == old(chain)[|old(chain)| - 1]
      ensures Contents() == InsertedAt(old(Contents()), k, lent.data)
    {
      hide Linked, Distinct, Datas, Middle;
      ghost var before := chain;
      Link(lent, prec, before, k, before[k + 1]);
      DatasInserted(before, k + 1, lent);
      MiddleInserted(Datas(before), k + 1, lent.data);
      chain := InsertedAt(before, k + 1, lent);
    }

    /** The chain and the data without the nodes k up to m. */
    method LinkOut(left: Entry, right: Entry, ghost k: nat, ghost m: nat)
      requires Linked(chain) && 1 <= k <= m < |chain| && left == chain[k - 1] && right == chain[m]
      modifies this`chain, left`next, right`prev
      ensures chain == Cut(old(chain), k, m) && Linked(chain)
      ensures chain[0] == old(chain)[0] && chain[|chain| - 1] == old(chain)[|old(chain)| - 1]
      ensures Contents() == Cut(old(Contents()), k - 1, m - 1)
    {
      hide Linked, Distinct, Datas, Middle;
      ghost var before := chain;
      Bridge(left, right, before, k, m);
      DatasCut(before, k, m);
      MiddleCut(Datas(before), k, m);
      chain := Cut(before, k, m);
    }

    /** Lines 501-519: the node goes in at pos and the middle follows. */
    method Attach(lent: Entry, pos: nat)
      requires Valid() && pos <= numels && lent !in chain && lent !in spare
      modifies this`mid, this`numels, this`chain, lent`next, lent`prev, chain
      ensures Valid() && chain == InsertedAt(old(chain), pos + 1, lent) && chain[pos + 1] == lent
      ensures Contents() == InsertedAt(old(Contents()), pos, lent.data)
    {
      hide Linked, Kept, Distinct, Datas, Middle, InsertedAt, Contents;
      ghost var before := chain;
      var prec := FindPos(pos - 1);
      KeptInserted(before, spare, MAX_SPARE, pos + 1, lent);
      LinkIn(lent, prec, pos);
      numels := numels + 1;
      mid := MidAfterInsert(lent, pos, before);
    }

    method InsertAt(data: Address, pos: nat) returns (ok: bool)
      requires Valid()
      modifies this`mid, this`numels, this`spare, this`chain, chain, spare
      ensures Valid()
      ensures ok == (!iterActive && pos <= old(numels))
      ensures Contents() == if ok then InsertedAt(old(Contents()), pos, data) else old(Contents())
      ensures ok ==> chain == InsertedAt(old(chain), pos + 1, chain[pos + 1])
      ensures ok ==> (fresh(chain[pos + 1]) || chain[pos + 1] in old(spare))
      ensures forall e :: e in spare ==> e in old(spare)
    {
      hide Linked, Kept, Distinct, Datas, Middle, Contents, InsertedAt;
      if iterActive || pos > numels {
        return false;
      }
      var lent := TakeEntry(data);
      Attach(lent, pos);
      ok := true;
    }

    /** list_drop_elem: the caller counts the element out. */
    method DropElem(entry: Entry, pos: nat)
      requires Valid() && pos < numels && entry == chain[pos + 1]
      modifies this`mid, this`spare, this`chain, chain
      ensures ValidFor(numels - 1)
      ensures chain == Cut(old(chain), pos + 1, pos + 2)
      ensures Contents() == Cut(old(Contents()), pos, pos + 1)
      ensures spare == Pooled(old(spare), MAX_SPARE, [entry]) == old(spare) + if |old(spare)| < 5 then [entry] else []
    {
      hide Linked, Kept, Distinct, Datas, Middle, Cut, Pooled, Contents;
      ghost var k, e := pos + 1, pos + 2;
      mid := MidAfterDrop(pos);
      Neighbours(chain, k);
      PooledSingle(spare, MAX_SPARE, entry);
      PooledKept(chain, spare, MAX_SPARE, k, e);
      assert chain[k..e] == [entry];
      LinkOut(entry.prev, entry.next, k, e);
      if |spare| < MAX_SPARE {
        spare := spare + [entry];
      }
    }

    /** The middle once the element at pos is gone. */
    method MidAfterDrop(pos: nat) returns (m: Entry?)
      requires Valid() && pos < numels
      ensures m == if numels == 1 then null else Cut(chain, pos + 1, pos + 2)[1 + (numels - 2) / 2]
    {
      m := mid;
      if numels % 2 == 1 {
        if numels == 1 { m := null; }
        else if pos >= numels / 2 { m := m.prev; }
      } else {
        if pos < numels / 2 { m := m.next; }
      }
    }

    method DeleteAt(pos: nat) returns (ok: bool)
      requires Valid()
      modifies this`mid, this`numels, this`spare, this`chain, chain
      ensures Valid()
      ensures ok == (!iterActive && pos < old(numels))
      ensures Contents() == if ok then Cut(old(Contents()), pos, pos + 1) else old(Contents())
      ensures chain == if ok then Cut(old(chain), pos + 1, pos + 2) else old(chain)
      ensures spare == if ok then Pooled(old(spare), MAX_SPARE, [old(chain)[pos + 1]]) else old(spare)
    {
      hide Linked, Kept, Distinct, Datas, Middle, Cut, Contents;
      if iterActive || pos >= numels {
        return false;
      }
      var entry := FindPos(pos);
      DropElem(entry, pos);
      numels := numels - 1;
      ok := true;
    }

    /** The pointer of a node about to be dropped is cleared, so that nothing frees what it points to. */
    method Blank(entry: Entry, pos: nat) returns (data: Address)
      requires Valid() && pos < numels && entry == chain[pos + 1]
      modifies entry`data
      ensures Valid() && data == old(Contents())[pos]
      ensures Contents() == old(Contents())[pos := NULL]
    {
      data := entry.data;
      entry.data := NULL;
    }

    method ExtractAt(pos: nat) returns (data: Address)
      requires Valid()
      modifies this`mid, this`numels, this`spare, this`chain, chain
      ensures Valid()
      ensures data == if !iterActive && pos < old(numels) then old(Contents())[pos] else NULL
      ensures Contents() == if !iterActive
          && pos < old(numels) then Cut(old(Contents()), pos, pos + 1) else old(Contents())
      ensures chain == if !iterActive && pos < old(numels) then Cut(old(chain), pos + 1, pos + 2) else old(chain)
      ensures spare == if !iterActive
          && pos < old(numels) then Pooled(old(spare), MAX_SPARE, [old(chain)[pos + 1]]) else old(spare)
    {
      hide Linked, Kept, Distinct, Datas, Middle, Cut, Contents;
      if iterActive || pos >= numels {
        return NULL;
      }
      var entry := FindPos(pos);
      CutForgets(Contents(), pos, NULL);
      data := Blank(entry, pos);
      DropElem(entry, pos);
      numels := numels - 1;
    }

    /** The middle of what is left when the elements posstart..posend go. */
    method MidAfterRange(posstart: nat, posend: nat) returns (m: Entry?)
      requires Valid() && posstart <= posend < numels && posend - posstart + 1 < numels
      ensures m == Cut(chain, posstart + 1, posend + 2)[1 + (numels - 1 - (posend - posstart + 1)) / 2]
    {
      var numdel := posend - posstart + 1;
      var midposafter := (numels - 1 - numdel) / 2;
      midposafter := if midposafter < posstart then midposafter else midposafter + numdel;
      var movedx := midposafter - (numels - 1) / 2;
      if movedx > 0 {
        m := Ahead(mid, 1 + (numels - 1) / 2, 1 + (numels - 1) / 2 + movedx);
      } else {
        m := Back(mid, 1 + (numels - 1) / 2, 1 + (numels - 1) / 2 + movedx);
      }
    }

    /** Nodes k up to m go to the spare pool while it has room. */
    method PoolRange(first: Entry, k: nat, m: nat) returns (after: Entry)
      requires Valid() && 1 <= k <= m < |chain| && first == chain[k]
      modifies this`spare
      ensures after == chain[m]
      ensures spare == Pooled(old(spare), MAX_SPARE, chain[k..m])
    {
      hide Pooled, Kept;
      PooledNone(spare, MAX_SPARE, chain, k);
      after := first;
      var i := k;
      while i < m
        invariant k <= i <= m && after == chain[i]
        invariant spare == Pooled(old(spare), MAX_SPARE, chain[k..i])
      {
        PooledStep(old(spare), MAX_SPARE, chain, k, i);
        if |spare| < MAX_SPARE {
          spare := spare + [after];
        }
        after := after.next;
        i := i + 1;
      }
    }

    /** The chain closed over the gap, with its new middle; n elements are left. */
    method Relink(left: Entry, right: Entry, m: Entry?, n: nat, ghost k: nat, ghost e: nat)
      requires Linked(chain) && |chain| >= 2 && chain[0] == head && chain[|chain| - 1] == tail
      requires 1 <= k <= e < |chain| && left == chain[k - 1] && right == chain[e] && n == |chain| - 2 - (e - k)
      requires m == (if n == 0 then null else Cut(chain, k, e)[1 + (n - 1) / 2])
      requires Kept(Cut(chain, k, e), spare, MAX_SPARE)
      modifies this`mid, this`chain, left`next, right`prev
      ensures ValidFor(n) && chain == Cut(old(chain), k, e)
      ensures Contents() == Cut(old(Contents()), k - 1, e - 1)
    {
      hide Linked, Kept, Distinct, Datas, Middle, Cut, Contents;
      mid := m;
      LinkOut(left, right, k, e);
    }

    /** Lines 570-616: not all elements go. */
    method DropRange(posstart: nat, posend: nat)
      requires Valid() && posstart <= posend < numels && posend - posstart + 1 < numels
      modifies this`mid, this`numels, this`spare, this`chain, chain
      ensures Valid()
      ensures Contents() == Cut(old(Contents()), posstart, posend + 1)
      ensures chain == Cut(old(chain), posstart + 1, posend + 2)
      ensures spare == Pooled(old(spare), MAX_SPARE, old(chain)[posstart + 1..posend + 2])
    {
      hide Linked, Kept, Distinct, Datas, Middle, Cut, Pooled, Contents;
      ghost var k, e := posstart + 1, posend + 2;
      var tmp := FindPos(posstart);
      Neighbours(chain, k);
      var lastvalid := tmp.prev;
      var m := MidAfterRange(posstart, posend);
      PooledKept(chain, spare, MAX_SPARE, k, e);
      tmp := PoolRange(tmp, posstart + 1, posend + 2);
      Relink(lastvalid, tmp, m, numels - (posend - posstart + 1), k, e);
      numels := numels - (posend - posstart + 1);
    }

    method DeleteRange(posstart: nat, posend: nat) returns (deleted: int)
      requires Valid()
      modifies this`mid, this`numels, this`spare, this`chain, chain
      ensures Valid()
      ensures deleted == if !iterActive && posstart <= posend < old(numels) then posend - posstart + 1 else -1
      ensures Contents() == if deleted < 0 then old(Contents()) else Cut(old(Contents()), posstart, posend + 1)
      ensures deleted >= 0 ==> chain == Cut(old(chain), posstart + 1, posend + 2)
      ensures deleted >= 0 ==> spare == Pooled(old(spare), MAX_SPARE, old(chain)[posstart + 1..posend + 2])
    {
      hide Linked, Kept, Distinct, Datas, Middle, Pooled;
      if iterActive || posend < posstart || posend >= numels {
        return -1;
      }
      var numdel := posend - posstart + 1;
      if numdel == numels {
        deleted := Clear();
      } else {
        DropRange(posstart, posend);
        deleted := numdel;
      }
    }

    method Clear() returns (deleted: int)
      requires Valid()
      modifies this`mid, this`numels, this`spare, this`chain, chain
      ensures Valid()
      ensures deleted == if iterActive then -1 else old(numels)
      ensures Contents() == if deleted < 0 then old(Contents()) else []
      ensures chain == if deleted < 0 then old(chain) else [head, tail]
      ensures spare == if deleted < 0 then old(spare) else Pooled(old(spare), MAX_SPARE, old(chain)[1..old(numels) + 1])
    {
      hide Kept, Distinct, Datas, Middle, Pooled;
      deleted := numels;
      if iterActive {
        return -1;
      }
      PooledKept(chain, spare, MAX_SPARE, 1, numels + 1);
      FillPool();
      CutAll(chain);
      LinkOut(head, tail, 1, numels + 1);
      numels := 0;
      mid := null;
    }

    /** Nodes move to the spare pool until it is full; the remaining ones are freed. */
    method FillPool()
      requires Valid()
      modifies this`spare
      ensures spare == Pooled(old(spare), MAX_SPARE, chain[1..numels + 1])
    {
      hide Pooled, Kept;
      PooledNone(spare, MAX_SPARE, chain, 1);
      var s := head.next;
      ghost var i := 1;
      while |spare| < MAX_SPARE && s != tail
        invariant 1 <= i <= numels + 1 && s == chain[i]
        invariant spare == Pooled(old(spare), MAX_SPARE, chain[1..i])
        decreases numels + 1 - i
      {
        PooledStep(old(spare), MAX_SPARE, chain, 1, i);
        spare := spare + [s];
        s := s.next;
        i := i + 1;
      }
      while s != tail
        invariant 1 <= i <= numels + 1 && s == chain[i]
        invariant s == tail || |spare| >= MAX_SPARE
        invariant spare == Pooled(old(spare), MAX_SPARE, chain[1..i])
        decreases numels + 1 - i
      {
        PooledStep(old(spare), MAX_SPARE, chain, 1, i);
        s := s.next;
        i := i + 1;
      }
    }

    /** list_sort: only data move, so links, middle, count and spare nodes stay as they are. */
    method Sort(versus: int) returns (ok: bool)
      requires Valid() && (comparator.Compare? ==> Preorder(comparator.cmp))
      modifies chain`data
      ensures Valid() && ok == (!iterActive && comparator.Compare?)
      ensures !ok ==> Contents() == old(Contents())
      ensures ok ==> multiset(Contents()) == multiset(old(Contents()))
      ensures ok ==> Order(comparator.cmp, versus).Ordered(Contents(), 0, numels)
      ensures ok ==> InDirection(comparator.cmp, versus, Contents())
    {
      hide Linked, Kept, Middle, Datas, Contents, Shuffles, Order.Ordered, Order.Total;
      if iterActive || comparator.NoComparator? {
        return false;
      }
      var o := Order(comparator.cmp, versus);
      ghost var d := Datas(chain);
      Directions(o);
      if numels <= 1 {
        ShuffledSelf(d, 1, numels + 1);
        FewOrdered(o, d, numels);
      } else {
        Ends(chain);
        QuickSort(o, 0, head.next, numels - 1, tail.prev, chain);
      }
      MiddleSorted(o, d, Datas(chain), numels);
      ContentsIs();
      SortedRuns(comparator.cmp, versus, Contents());
      ok := true;
    }

    twostate lemma ContentsIs()
      requires |old(chain)| >= 2 && chain == old(chain)
      ensures Contents() == Middle(Datas(chain)) && old(Contents()) == Middle(old(Datas(chain)))
    {
    }

    /** An active iteration stands at element iterPos; no edit can move it, for all are refused. */
    ghost predicate Iterating()
      reads this, chain`next, chain`prev
    {
      Valid() && iterActive && iterPos <= numels && iterEntry == chain[iterPos + 1]
    }

    method IteratorStart() returns (ok: bool)
      requires Valid()
      modifies this`iterActive, this`iterPos, this`iterEntry
      ensures Valid() && ok == !old(iterActive)
      ensures if ok then Iterating() && iterPos == 0 else unchanged(this)
    {
      if iterActive {
        return false;
      }
      iterPos := 0;
      iterActive := true;
      Ends(chain);
      iterEntry := head.next;
      ok := true;
    }

    /** Behind the last element the code would hand out the tail sentinel and then run off the list. */
    method IteratorNext() returns (data: Address)
      requires Iterating() && iterPos < numels
      modifies this`iterPos, this`iterEntry
      ensures Iterating() && iterPos == old(iterPos) + 1 && data == Contents()[old(iterPos)]
    {
      data := iterEntry.data;
      Follows(chain, iterPos + 1);
      iterEntry := iterEntry.next;
      iterPos := iterPos + 1;
    }

    method IteratorHasNext() returns (more: bool)
      ensures more == (iterActive && iterPos < numels)
    {
      more := iterActive && iterPos < numels;
    }

    method IteratorStop() returns (ok: bool)
      requires Valid()
      modifies this`iterActive, this`iterPos
      ensures Valid() && ok == old(iterActive) && !iterActive
    {
      ok := iterActive;
      if ok {
        iterPos := 0;
        iterActive := false;
      }
    }

    /** The self-check the library runs after every operation: it passes on every valid list. */
    method RepOk() returns (ok: bool)
      requires Valid()
      ensures ok
    {
      ok := head != tail && head.prev == null && tail.next == null
            && (numels > 0 || (mid == null && head.next == tail && tail.prev == head))
            && |spare| <= MAX_SPARE;
      if !ok || numels < 1 {
        return;
      }
      var i, s := -1, head;
      while i < (numels - 1) / 2 && s.next != null && s.next.prev == s
        invariant -1 <= i <= (numels - 1) / 2 && s == chain[i + 1]
      {
        i, s := i + 1, s.next;
      }
      if !(i == (numels - 1) / 2 && mid == s) {
        return false;
      }
      while s.next != null && s.next.prev == s
        invariant -1 <= i <= numels && s == chain[i + 1]
        decreases numels - i
      {
        i, s := i + 1, s.next;
      }
      ok := i == numels && s == tail;
    }

    /** list_concat into a list that is new.  The two sources may be the same list. */
    static method Concat(l1: List, l2: List) returns (dest: List)
      requires l1.Valid() && l2.Valid()
      ensures fresh(dest) && dest.Valid() && dest.numels == l1.numels + l2.numels
      ensures dest.Contents() == l1.Contents() + l2.Contents()
    {
      hide List.Contents, Open, Datas, Linked, Middle;
      dest := new List();
      if l1.numels + l2.numels == 0 {
        return;
      }
      var middle := dest.CopyBoth(l1, l2);
      dest.numels := l1.numels + l2.numels;
      dest.mid := middle;
      dest.FixMid(l1.numels, l2.numels);
    }

    /** Lines 728-749: copies of both lists between the sentinels of an empty one. */
    method CopyBoth(l1: List, l2: List) returns (middle: Entry)
      requires l1.Valid() && l2.Valid() && Valid() && numels == 0
      requires head !in l1.chain && tail !in l1.chain && head !in l2.chain && tail !in l2.chain
      modifies this`chain, head, tail
      ensures Linked(chain) && |chain| == l1.numels + l2.numels + 2
      ensures chain[0] == head && chain[|chain| - 1] == tail && middle == chain[l1.numels]
      ensures Contents() == l1.Contents() + l2.Contents()
    {
      hide Datas, Linked, Kept, Contents, Open, Middle;
      ghost var c := [head];
      StartOpen();
      middle, c := CopyBehind(head, l1, c, tail);
      var el;
      el, c := CopyBehind(middle, l2, c, tail);
      Close(el, c, l1.Contents(), l2.Contents());
    }

    lemma StartOpen()
      requires Valid()
      ensures Open([head]) && Datas([head]) == [head.data] && tail.next == null && tail != head
    {
    }

    /** The tail sentinel goes behind the last node. */
    method Close(last: Entry, ghost c: seq<Entry>, ghost a: seq<Address>, ghost b: seq<Address>)
      requires |c| >= 1 && Open(c) && last == c[|c| - 1] && tail !in c && tail.next == null
      requires Datas(c) == [c[0].data] + a + b
      modifies last`next, tail`prev, this`chain
      ensures chain == c + [tail] && Linked(chain) && Contents() == a + b
    {
      hide Middle;
      MiddleOf([c[0].data], a, b, tail.data);
      last.next := tail;
      tail.prev := last;
      chain := c + [tail];
      assert Datas(chain) == [c[0].data] + a + b + [tail.data];
    }

    /** The middle, first left at the last element of the first list, moves to its place. */
    method FixMid(n1: nat, n2: nat)
      requires n1 + n2 > 0 && |chain| == n1 + n2 + 2 && Linked(chain) && mid == chain[n1]
      modifies this`mid
      ensures mid == chain[1 + (n1 + n2 - 1) / 2]
    {
      var err := n2 - n1;
      if Half(err + 1) > 0 {
        mid := Ahead(mid, n1, n1 + Half(err + 1));
      } else if Half(err) < 0 {
        mid := Back(mid, n1, n1 - Half(-err));
      }
    }

    /** The nodes c from the head on are linked; element after element of src is copied behind them. */
    method CopyBehind(last: Entry, src: List, ghost c: seq<Entry>, ghost other: Entry)
      returns (el: Entry, ghost longer: seq<Entry>)
      requires src.Valid() && |c| >= 1 && Open(c) && last == c[|c| - 1] && last !in src.chain && other !in c
      modifies last`next
      ensures |longer| == |c| + src.numels && Open(longer) && el == longer[|longer| - 1]
      ensures longer[0] == c[0] && longer[|c| - 1] == last && other !in longer
      ensures el == last || fresh(el)
      ensures Datas(longer) == old(Datas(c)) + src.Contents()
    {
      hide Open, Datas;
      el, longer := last, c;
      var srcel := src.head.next;
      ghost var i := 0;
      while srcel != src.tail
        invariant 0 <= i <= src.numels && srcel == src.chain[i + 1]
        invariant src.Valid() && src.Contents() == old(src.Contents())
        invariant |longer| == |c| + i && Open(longer) && el == longer[|longer| - 1] && (el == last || fresh(el))
        invariant longer[0] == c[0] && longer[|c| - 1] == last
        invariant other !in longer
        invariant Datas(longer) == old(Datas(c)) + src.Contents()[..i]
        decreases src.numels - i
      {
        assert src.Contents()[..i + 1] == src.Contents()[..i] + [srcel.data];
        el := AddBehind(el, srcel.data, longer);
        longer := longer + [el];
        srcel := srcel.next;
        i := i + 1;
      }
    }
  }

  /** No earlier element is bigger than a later one, or none is smaller, as the direction asks; the
      comparator is negative when its first argument is the bigger one. */
  predicate InDirection(cmp: (Address, Address) -> int, versus: int, d: seq<Address>) {
    forall i, j :: 0 <= i < j < |d| ==>
      (versus > 0 ==> cmp(d[i], d[j]) >= 0) && (versus < 0 ==> cmp(d[j], d[i]) >= 0)
  }

  lemma SortedRuns(cmp: (Address, Address) -> int, versus: int, d: seq<Address>)
    requires Preorder(cmp) && Order(cmp, versus).Ordered(d, 0, |d|)
    ensures InDirection(cmp, versus, d)
  {
    hide Order.Weight, Order.Le;
    Directions(Order(cmp, versus));
  }

  lemma FewOrdered(o: Order, d: seq<Address>, n: nat)
    requires n <= 1 && n + 1 < |d|
    ensures o.Ordered(d, 1, n + 1)
  {
  }

  /** What the sort of the whole chain means for the list. */
  lemma MiddleSorted(o: Order, d: seq<Address>, e: seq<Address>, n: nat)
    requires |d| == n + 2 && |e| == n + 2 && e in Shuffles(d, 1, n + 1) && o.Ordered(e, 1, n + 1)
    ensures multiset(Middle(e)) == multiset(Middle(d)) && o.Ordered(Middle(e), 0, n)
  {
    assert Middle(e) == e[1..n + 1] && Middle(d) == d[1..n + 1];
  }

  lemma Ends(c: seq<Entry>)
    requires Linked(c)
    ensures c[0].next == c[1] && c[|c| - 1].prev == c[|c| - 2]
  {
  }

  /** Halves round towards zero. */
  function Half(x: int): int {
    if x >= 0 then x / 2 else -(-x / 2)
  }

  /** Nodes linked from a head sentinel on, with no end yet. */
  ghost predicate Open(c: seq<Entry>)
    reads c`next, c`prev
  {
    |c| >= 1 && c[0].prev == null && Forward(c) && Backward(c) && Distinct(c)
  }

  method AddBehind(last: Entry, data: Address, ghost c: seq<Entry>) returns (el: Entry)
    requires Open(c) && last == c[|c| - 1]
    modifies last`next
    ensures fresh(el) && Open(c + [el]) && Datas(c + [el]) == old(Datas(c)) + [data]
  {
    el := new Entry();
    last.next := el;
    el.prev := last;
    el.data := data;
  }
}
