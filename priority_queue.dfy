/**
 * The open list of the search: a binary min-heap of states ordered by f,
 * stored from slot 1 of an array that grows threefold when full, with a
 * linear lookup by key and removal of an arbitrary slot.
 */
module PriorityQueue {
  import opened States

  /** Removing slot p by moving the last element into it loses exactly the element at p. */
  lemma MoveLastInto<T>(c: seq<T>, p: int)
    requires 0 <= p < |c|
    ensures multiset(c[p := c[|c| - 1]][..|c| - 1]) == multiset(c) - multiset{c[p]}
  {
    var n := |c|;
    var d := c[p := c[n - 1]];
    assert d == d[..n - 1] + [c[n - 1]];
    calc {
      multiset(d[..n - 1]);
      multiset(d) - multiset{c[n - 1]};
      multiset(c) - multiset{c[p]} + multiset{c[n - 1]} - multiset{c[n - 1]};
      multiset(c) - multiset{c[p]};
    }
  }

  /** Moving slot n into slot p and clearing slot n loses exactly the state at p from slots 1..n. */
  lemma RemoveSlot(a: seq<State?>, n: int, p: int)
    requires Filled(a, n) && 1 <= p <= n
    ensures Filled(a[p := a[n]][n := null], n - 1)
    ensures multiset(Slots(a[p := a[n]][n := null], n - 1)) == multiset(Slots(a, n)) - multiset{a[p]}
  {
    var c := Slots(a, n);
    var d := c[p - 1 := c[|c| - 1]][..|c| - 1];
    var e := Slots(a[p := a[n]][n := null], n - 1);
    forall i | 0 <= i < n - 1 ensures e[i] == d[i] {
    }
    assert e == d;
    MoveLastInto(c, p - 1);
  }

  // Heap order on the slots 1..n of a snapshot a of the storage array.

  /** x has the least f among the states of c, none of which is null. */
  ghost predicate Least(x: State, c: seq<State?>) {
    forall s :: s in c ==> s != null && x.CostF <= s.CostF
  }

  /** Slots 1..n are in range and occupied. */
  ghost predicate Filled(a: seq<State?>, n: int) {
    0 <= n < |a| && forall i :: 1 <= i <= n ==> a[i] != null
  }

  /** Slot c is a child of slot p: c is 2p or 2p + 1. */
  ghost predicate ChildSlot(p: int, c: int) {
    1 <= p && (c == 2 * p || c == 2 * p + 1)
  }

  /** No child slot up to n holds a smaller f than its parent slot. */
  ghost predicate Ordered(a: seq<State?>, n: int)
    requires Filled(a, n)
  {
    forall p, c {:trigger ChildSlot(p, c)} :: ChildSlot(p, c) && c <= n ==> a[p].CostF <= a[c].CostF
  }

  /** Order may fail only between slot k and its parent, and k's parent is below k's children. */
  ghost predicate SwimReady(a: seq<State?>, n: int, k: int)
    requires Filled(a, n)
  {
    && (forall p, c {:trigger ChildSlot(p, c)} :: ChildSlot(p, c) && c <= n && c != k ==> a[p].CostF <= a[c].CostF)
    && (forall c {:trigger ChildSlot(k, c)} :: ChildSlot(k, c) && c <= n && k >= 2 ==> a[k / 2].CostF <= a[c].CostF)
  }

  /** Order may fail only between slot k and its children, and k's parent is below k's children. */
  ghost predicate SinkReady(a: seq<State?>, n: int, k: int)
    requires Filled(a, n)
  {
    && (forall p, c {:trigger ChildSlot(p, c)} :: ChildSlot(p, c) && c <= n && p != k ==> a[p].CostF <= a[c].CostF)
    && (forall c {:trigger ChildSlot(k, c)} :: ChildSlot(k, c) && c <= n && k >= 2 ==> a[k / 2].CostF <= a[c].CostF)
  }

  /** The state of a sift-up, one level higher, after k is exchanged with a larger parent. */
  lemma SwimStep(a: seq<State?>, n: int, k: int)
    requires Filled(a, n) && 2 <= k <= n && SwimReady(a, n, k)
    requires a[k].CostF < a[k / 2].CostF
    ensures Filled(a[k := a[k / 2]][k / 2 := a[k]], n)
    ensures SwimReady(a[k := a[k / 2]][k / 2 := a[k]], n, k / 2)
  {
    var q := k / 2;
    var b := a[k := a[q]][q := a[k]];
    assert ChildSlot(q, k);
    forall p, c | ChildSlot(p, c) && c <= n && c != q
      ensures b[p].CostF <= b[c].CostF
    {
      if c == k {
        assert p == q;
      } else if p == k {
        assert b[p] == a[q] && b[c] == a[c];
      } else if p == q {
        assert b[p] == a[k] && b[c] == a[c];
        assert a[q].CostF <= a[c].CostF;
      } else {
        assert b[p] == a[p] && b[c] == a[c];
      }
    }
    forall c | ChildSlot(q, c) && c <= n && q >= 2
      ensures b[q / 2].CostF <= b[c].CostF
    {
      assert ChildSlot(q / 2, q);
      assert b[q / 2] == a[q / 2];
      assert a[q / 2].CostF <= a[q].CostF;
      if c != k {
        assert b[c] == a[c];
        assert a[q].CostF <= a[c].CostF;
      }
    }
  }

  /** A sift-up that stops at the root or below a parent that is not larger leaves the heap ordered. */
  lemma SwimDone(a: seq<State?>, n: int, k: int)
    requires Filled(a, n) && 1 <= k <= n && SwimReady(a, n, k)
    requires k / 2 == 0 || a[k / 2].CostF <= a[k].CostF
    ensures Ordered(a, n)
  {
    forall p, c | ChildSlot(p, c) && c <= n ensures a[p].CostF <= a[c].CostF {
      if c == k {
        assert p == k / 2;
      }
    }
  }

  /** The child a sift-down at k moves to: the right one only when it is strictly smaller than the left. */
  ghost function SinkChild(a: seq<State?>, n: int, k: int): int
    requires Filled(a, n) && 1 <= k && 2 * k <= n
  {
    if 2 * k + 1 <= n && a[2 * k + 1].CostF < a[2 * k].CostF then 2 * k + 1 else 2 * k
  }

  /** The chosen child is a child of k with the least f among k's children. */
  lemma SinkChildLeast(a: seq<State?>, n: int, k: int)
    requires Filled(a, n) && 1 <= k && 2 * k <= n
    ensures ChildSlot(k, SinkChild(a, n, k)) && SinkChild(a, n, k) <= n
    ensures forall d {:trigger ChildSlot(k, d)} :: ChildSlot(k, d) && d <= n ==> a[SinkChild(a, n, k)].CostF <= a[d].CostF
  {
  }

  /** The state of a sift-down, one level lower, after k is exchanged with its smaller child when that child is smaller than k. */
  lemma SinkStep(a: seq<State?>, n: int, k: int)
    requires Filled(a, n) && 1 <= k && 2 * k <= n && SinkReady(a, n, k)
    requires a[SinkChild(a, n, k)].CostF < a[k].CostF
    ensures Filled(a[k := a[SinkChild(a, n, k)]][SinkChild(a, n, k) := a[k]], n)
    ensures SinkReady(a[k := a[SinkChild(a, n, k)]][SinkChild(a, n, k) := a[k]], n, SinkChild(a, n, k))
  {
    var c := SinkChild(a, n, k);
    SinkChildLeast(a, n, k);
    var b := a[k := a[c]][c := a[k]];
    forall p, d | ChildSlot(p, d) && d <= n && p != c
      ensures b[p].CostF <= b[d].CostF
    {
      if p == k && d == c {
      } else if p == k {
        assert b[p] == a[c] && b[d] == a[d];
      } else if d == k {
        assert p == k / 2 && k >= 2;
        assert b[p] == a[p] && b[d] == a[c];
      } else {
        assert b[p] == a[p] && b[d] == a[d];
      }
    }
    forall d | ChildSlot(c, d) && d <= n && c >= 2
      ensures b[c / 2].CostF <= b[d].CostF
    {
      assert c / 2 == k;
      assert b[k] == a[c] && b[d] == a[d];
      assert a[c].CostF <= a[d].CostF;
    }
  }

  /** Exchanging k with its smaller child keeps the slots filled and the states the same, and moves a pending sift-down one level lower. */
  lemma SinkSwap(a: seq<State?>, n: int, k: int)
    requires Filled(a, n) && 1 <= k && 2 * k <= n
    ensures var c := SinkChild(a, n, k);
      && Filled(a[k := a[c]][c := a[k]], n)
      && multiset(Slots(a[k := a[c]][c := a[k]], n)) == multiset(Slots(a, n))
      && (SinkReady(a, n, k) && a[c].CostF < a[k].CostF ==> SinkReady(a[k := a[c]][c := a[k]], n, c))
  {
    SinkChildLeast(a, n, k);
    SwapSlots(a, n, k, SinkChild(a, n, k));
    if SinkReady(a, n, k) && a[SinkChild(a, n, k)].CostF < a[k].CostF {
      SinkStep(a, n, k);
    }
  }

  /** A sift-down that stops at a leaf or above children that are not smaller leaves the heap ordered. */
  lemma SinkDone(a: seq<State?>, n: int, k: int)
    requires Filled(a, n) && 1 <= k && SinkReady(a, n, k)
    requires 2 * k <= n ==> a[k].CostF <= a[SinkChild(a, n, k)].CostF
    ensures Ordered(a, n)
  {
    forall p, c | ChildSlot(p, c) && c <= n ensures a[p].CostF <= a[c].CostF {
      if p == k {
        SinkChildLeast(a, n, k);
      }
    }
  }

  /** Moving the last slot of an ordered heap into slot 1 leaves only slot 1 to sift down. */
  lemma MoveLastToRootReady(a: seq<State?>, n: int)
    requires Filled(a, n) && 1 <= n && Ordered(a, n)
    ensures Filled(a[1 := a[n]][n := null], n - 1)
    ensures SinkReady(a[1 := a[n]][n := null], n - 1, 1)
  {
  }

  /** In an ordered heap slot 1 holds a least f. */
  lemma {:induction false} RootBelow(a: seq<State?>, n: int, i: int)
    requires Filled(a, n) && Ordered(a, n) && 1 <= i <= n
    ensures a[1].CostF <= a[i].CostF
    decreases i
  {
    if i > 1 {
      RootBelow(a, n, i / 2);
      assert ChildSlot(i / 2, i);
    }
  }

  /** The queued states of a snapshot: slots 1..n. */
  ghost function Slots(a: seq<State?>, n: int): seq<State?>
    requires 0 <= n < |a|
  {
    a[1..n + 1]
  }

  /** Filling slot n + 1 adds exactly item to the queued states, and only the new slot may need sifting up. */
  lemma AppendSlot(a: seq<State?>, n: int, item: State)
    requires Filled(a, n) && n + 1 < |a|
    ensures Filled(a[n + 1 := item], n + 1)
    ensures Slots(a[n + 1 := item], n + 1) == Slots(a, n) + [item]
    ensures Ordered(a, n) ==> SwimReady(a[n + 1 := item], n + 1, n + 1)
  {
  }

  /** Exchanging two queued slots keeps the same queued states. */
  lemma SwapSlots(a: seq<State?>, n: int, i: int, j: int)
    requires Filled(a, n) && 1 <= i <= n && 1 <= j <= n
    ensures Filled(a[i := a[j]][j := a[i]], n)
    ensures multiset(Slots(a[i := a[j]][j := a[i]], n)) == multiset(Slots(a, n))
  {
    var c := Slots(a, n);
    assert Slots(a[i := a[j]][j := a[i]], n) == c[i - 1 := c[j - 1]][j - 1 := c[i - 1]];
  }

  /** Two snapshots that agree on slots 1..n hold the same queue, in the same order. */
  lemma SameSlots(a: seq<State?>, b: seq<State?>, n: int)
    requires Filled(a, n) && n < |b|
    requires forall i :: 1 <= i <= n ==> b[i] == a[i]
    ensures Filled(b, n) && Slots(b, n) == Slots(a, n)
    ensures Ordered(b, n) <==> Ordered(a, n)
  {
    assert Slots(b, n) == Slots(a, n);
  }

  /** In a non-empty ordered heap slot 1 holds a state of least f among the queued ones. */
  lemma RootIsLeast(a: seq<State?>, n: int)
    requires Filled(a, n) && Ordered(a, n) && 1 <= n
    ensures Least(a[1], Slots(a, n))
  {
    forall s | s in Slots(a, n) ensures s != null && a[1].CostF <= s.CostF {
      var k :| 0 <= k < n && Slots(a, n)[k] == s;
      RootBelow(a, n, k + 1);
    }
  }

  /** After slot n is moved into slot k, the moved state must go up: it is smaller than k's parent. */
  ghost predicate MovesUp(a: seq<State?>, n: int, k: int)
    requires Filled(a, n) && 1 <= k <= n
  {
    2 <= k < n && a[n].CostF < a[k / 2].CostF
  }

  /**
   * Moving the last slot n of an ordered heap into slot k (and clearing slot n)
   * leaves one sift to do from k: up when the moved state is smaller than k's
   * parent, down otherwise.
   */
  lemma MoveLastIntoReady(a: seq<State?>, n: int, k: int)
    requires Filled(a, n) && Ordered(a, n) && 1 <= k <= n
    ensures Filled(a[k := a[n]][n := null], n - 1)
    ensures MovesUp(a, n, k) ==> SwimReady(a[k := a[n]][n := null], n - 1, k)
    ensures !MovesUp(a, n, k) ==> SinkReady(a[k := a[n]][n := null], n - 1, k)
  {
    if MovesUp(a, n, k) {
      MovedUpReady(a, n, k);
    } else {
      MovedDownReady(a, n, k);
    }
  }

  /** The swim case of MoveLastIntoReady: the moved state is below everything under k. */
  lemma MovedUpReady(a: seq<State?>, n: int, k: int)
    requires Filled(a, n) && Ordered(a, n) && 1 <= k <= n && MovesUp(a, n, k)
    ensures Filled(a[k := a[n]][n := null], n - 1)
    ensures SwimReady(a[k := a[n]][n := null], n - 1, k)
  {
    assert ChildSlot(k / 2, k);
  }

  /** The sink case of MoveLastIntoReady: the moved state is not below k's parent. */
  lemma MovedDownReady(a: seq<State?>, n: int, k: int)
    requires Filled(a, n) && Ordered(a, n) && 1 <= k <= n && !MovesUp(a, n, k)
    ensures Filled(a[k := a[n]][n := null], n - 1)
    ensures SinkReady(a[k := a[n]][n := null], n - 1, k)
  {
    if 2 <= k {
      assert ChildSlot(k / 2, k);
    }
  }

  /**
   * The heap and the removal that the source's Remove gets wrong: f values
   * 1, 5, 2, 6, 7, 3 in slots 1..6 are in heap order, but moving slot 6 into
   * slot 4 puts f 3 below f 5, and slot 4 has no children left, so sinking
   * from it changes nothing.
   */
  lemma RemoveCanBreakOrder(a: seq<State?>)
    requires |a| == 7 && Filled(a, 6)
    requires a[1].CostF == 1 && a[2].CostF == 5 && a[3].CostF == 2
    requires a[4].CostF == 6 && a[5].CostF == 7 && a[6].CostF == 3
    ensures Ordered(a, 6)
    ensures 2 * 4 > 6 - 1 && !Ordered(a[4 := a[6]][6 := null], 6 - 1)
  {
    forall p, c | ChildSlot(p, c) && c <= 6 ensures a[p].CostF <= a[c].CostF {
      assert p == 1 || p == 2 || p == 3;
    }
    assert ChildSlot(2, 4);
  }

  class MinPriorityQueue {
    var mArray: array<State?>
    var mCount: nat

    /** Slot 0 is unused; slots 1..mCount hold the queued states. */
    ghost predicate Valid()
      reads this, mArray
    {
      Filled(mArray[..], mCount)
    }

    /** The queued states, slot 1 first. */
    ghost function Contents(): (c: seq<State?>)
      reads this, mArray
      requires Valid()
      ensures |c| == mCount && null !in c
    {
      Slots(mArray[..], mCount)
    }

    /** No slot holds a state with a smaller f than its parent slot i / 2. */
    ghost predicate HeapOrdered()
      reads this, mArray
      requires Valid()
    {
      Ordered(mArray[..], mCount)
    }

    constructor (capacity: nat)
      ensures Valid() && fresh(mArray) && mArray.Length == capacity + 1
      ensures Contents() == []
    {
      mArray := new State?[capacity + 1];
      mCount := 0;
    }

    /** Copies the queued states into a fresh array of capacity + 1 slots. */
    method Expand(capacity: nat)
      requires Valid() && mCount <= capacity
      modifies this, mArray
      ensures Valid() && fresh(mArray) && mArray.Length == capacity + 1
      ensures mCount == old(mCount)
      ensures Contents() == old(Contents())
      ensures HeapOrdered() == old(HeapOrdered())
    {
      var temp := new State?[capacity + 1];
      var i := 1;
      while i <= mCount
        invariant 1 <= i <= mCount + 1
        invariant mArray == old(mArray) && mCount == old(mCount)
        invariant forall j :: 1 <= j < i ==> temp[j] == old(mArray[j])
        invariant forall j :: i <= j <= mCount ==> mArray[j] == old(mArray[j])
      {
        temp[i] := mArray[i];
        mArray[i] := null;
        i := i + 1;
      }
      assert forall j :: 1 <= j <= mCount ==> temp[..][j] == old(mArray[..])[j];
      SameSlots(old(mArray[..]), temp[..], mCount);
      mArray := temp;
    }

    /** Slot i holds a state of strictly smaller f than slot j. */
    predicate Less(i: int, j: int)
      reads this, mArray
      requires Valid() && 1 <= i <= mCount && 1 <= j <= mCount
      ensures Less(i, j) <==> mArray[..][i].CostF < mArray[..][j].CostF
    {
      mArray[i].CompareTo(mArray[j]) < 0
    }

    /** Exchanges two queued slots. */
    method Swap(i: int, j: int)
      requires Valid() && 1 <= i <= mCount && 1 <= j <= mCount
      modifies mArray
      ensures mArray[..] == old(mArray[..])[i := old(mArray[j])][j := old(mArray[i])]
    {
      var temp := mArray[j];
      mArray[j] := mArray[i];
      mArray[i] := temp;
    }

    /** Moves the state at slot index down while it is larger than its smaller child. */
    method Sink(index: int)
      requires Valid() && 1 <= index
      modifies mArray
      ensures Valid()
      ensures multiset(Contents()) == old(multiset(Contents()))
      ensures old(SinkReady(mArray[..], mCount, index)) ==> HeapOrdered()
      ensures 2 * index > mCount ==> mArray[..] == old(mArray[..])
    {
      var k := index;
      ghost var ready := SinkReady(mArray[..], mCount, k);
      ghost var m := multiset(Slots(mArray[..], mCount));
      ghost var leaf := 2 * index > mCount;
      while k * 2 <= mCount
        invariant Filled(mArray[..], mCount) && 1 <= k
        invariant leaf ==> k == index && mArray[..] == old(mArray[..])
        invariant multiset(Slots(mArray[..], mCount)) == m
        invariant ready ==> SinkReady(mArray[..], mCount, k)
        decreases mCount - k
      {
        ghost var a := mArray[..];
        var child := k * 2;
        if child + 1 <= mCount && Less(child + 1, child) {
          child := child + 1;
        }
        assert child == SinkChild(a, mCount, k);
        if !Less(child, k) {
          if ready {
            SinkDone(a, mCount, k);
          }
          break;
        }
        SinkSwap(a, mCount, k);
        Swap(k, child);
        k := child;
      }
      assert ready && k * 2 > mCount ==> Ordered(mArray[..], mCount) by {
        if ready && k * 2 > mCount {
          SinkDone(mArray[..], mCount, k);
        }
      }
    }

    /** Moves the state at slot index up while it is smaller than its parent. */
    method Swim(index: int)
      requires Valid() && 1 <= index <= mCount
      modifies mArray
      ensures Valid()
      ensures multiset(Contents()) == old(multiset(Contents()))
      ensures old(SwimReady(mArray[..], mCount, index)) ==> HeapOrdered()
    {
      var k := index;
      ghost var ready := SwimReady(mArray[..], mCount, k);
      ghost var m := multiset(Slots(mArray[..], mCount));
      while k / 2 > 0
        invariant Filled(mArray[..], mCount) && 1 <= k <= mCount
        invariant multiset(Slots(mArray[..], mCount)) == m
        invariant ready ==> SwimReady(mArray[..], mCount, k)
      {
        ghost var a := mArray[..];
        var parent := k / 2;
        if !Less(k, parent) {
          if ready {
            SwimDone(a, mCount, k);
          }
          break;
        }
        Swap(k, parent);
        SwapSlots(a, mCount, k, parent);
        if ready {
          SwimStep(a, mCount, k);
        }
        k := parent;
      }
      if ready && k / 2 == 0 {
        SwimDone(mArray[..], mCount, k);
      }
    }

    function IsEmpty(): (r: bool)
      reads this, mArray
      requires Valid()
      ensures r <==> Contents() == []
    {
      mCount == 0
    }

    /** Adds item, growing the array to three times its length first when it is full. */
    method Enqueue(item: State)
      requires Valid()
      modifies this, mArray
      ensures Valid()
      ensures mCount == old(mCount) + 1
      ensures multiset(Contents()) == old(multiset(Contents())) + multiset{item}
      ensures old(HeapOrdered()) ==> HeapOrdered()
      ensures old(mCount) == old(mArray.Length) - 1 ==> fresh(mArray) && mArray.Length == 3 * old(mArray.Length) + 1
      ensures old(mCount) < old(mArray.Length) - 1 ==> mArray == old(mArray)
    {
      Append(item);
      Swim(mCount);
    }

    /**
     * The first half of Enqueue: grows the array when it is full and puts
     * item in the slot after the last, ready to swim up.
     */
    method Append(item: State)
      requires Valid()
      modifies this, mArray
      ensures Valid() && mCount == old(mCount) + 1
      ensures Contents() == old(Contents()) + [item]
      ensures old(HeapOrdered()) ==> SwimReady(mArray[..], mCount, mCount)
      ensures old(mCount) == old(mArray.Length) - 1 ==> fresh(mArray) && mArray.Length == 3 * old(mArray.Length) + 1
      ensures old(mCount) < old(mArray.Length) - 1 ==> mArray == old(mArray)
    {
      ghost var ordered := HeapOrdered();
      ghost var c := Contents();
      if mCount == mArray.Length - 1 {
        Expand(mArray.Length * 3);
      }
      assert ordered == HeapOrdered() && c == Contents();
      ghost var a := mArray[..];
      mCount := mCount + 1;
      mArray[mCount] := item;
      assert mArray[..] == a[mCount := item];
      AppendSlot(a, mCount - 1, item);
    }

    /** Removes and returns the state in slot 1, or returns null when the queue is empty. */
    method Dequeue() returns (item: State?)
      requires Valid()
      modifies this, mArray
      ensures Valid() && mArray == old(mArray)
      ensures old(mCount) == 0 ==> item == null && mCount == 0 && mArray[..] == old(mArray[..])
      ensures old(mCount) > 0 ==>
        && item != null && item == old(mArray[1])
        && mCount == old(mCount) - 1
        && multiset(Contents()) == old(multiset(Contents())) - multiset{item}
      ensures old(mCount) > 0 && old(HeapOrdered()) ==>
        && HeapOrdered()
        && Least(item, old(Contents()))
    {
      if !IsEmpty() {
        ghost var a := mArray[..];
        ghost var n := mCount;
        ghost var c := Contents();
        ghost var ordered := HeapOrdered();
        assert ordered ==> Least(a[1], c) by {
          if ordered {
            RootIsLeast(a, n);
          }
        }
        item := mArray[1];
        mArray[1] := mArray[mCount];
        mArray[mCount] := null;
        mCount := mCount - 1;
        assert Valid() && multiset(Contents()) == multiset(c) - multiset{item}
            && (ordered ==> SinkReady(mArray[..], mCount, 1)) by {
          assert mArray[..] == a[1 := a[n]][n := null];
          RemoveSlot(a, n, 1);
          if ordered {
            MoveLastToRootReady(a, n);
          }
        }
        Sink(1);
        assert multiset(Contents()) == multiset(c) - multiset{item};
        return;
      }
      item := null;
    }

    /** The first slot, from 1, holding a state equal to item; index -1 and null when there is none. */
    method Find(item: State) returns (found: State?, index: int)
      requires Valid()
      ensures index == -1 <==> found == null
      ensures index == -1 ==> forall k :: 1 <= k <= mCount ==> mArray[k].Nodes != item.Nodes
      ensures index == -1 ==> forall s :: s in Contents() ==> s.Nodes != item.Nodes
      ensures index != -1 ==>
        && 1 <= index <= mCount && found == mArray[index] && found.Nodes == item.Nodes
        && found in Contents()
        && forall k :: 1 <= k < index ==> mArray[k].Nodes != item.Nodes
    {
      index := -1;
      if !IsEmpty() {
        var i := 1;
        while i <= mCount
          invariant 1 <= i <= mCount + 1
          invariant forall k :: 1 <= k < i ==> mArray[k].Nodes != item.Nodes
        {
          if mArray[i].Equals(item) {
            index := i;
            assert mArray[i] == Contents()[i - 1];
            return mArray[i], index;
          }
          i := i + 1;
        }
      }
      found := null;
      forall s | s in Contents() ensures s.Nodes != item.Nodes {
        var k :| 0 <= k < |Contents()| && Contents()[k] == s;
        assert s == mArray[k + 1];
      }
    }

    /**
     * Evicts the state at slot index (1..mCount) and sinks the state moved into
     * it; otherwise nothing. When the slot has no children left the moved state
     * stays where it was put, whatever its parent holds.
     */
    method Remove(index: int)
      requires Valid()
      modifies this, mArray
      ensures Valid() && mArray == old(mArray)
      ensures !(0 < index <= old(mCount)) ==> mCount == old(mCount) && mArray[..] == old(mArray[..])
      ensures 0 < index <= old(mCount) ==>
        && mCount == old(mCount) - 1
        && multiset(Contents()) == old(multiset(Contents())) - multiset{old(mArray[index])}
      ensures 0 < index <= old(mCount) && 2 * index > mCount ==>
        mArray[..] == old(mArray[..])[index := old(mArray[mCount])][old(mCount) := null]
    {
      if index > 0 && index <= mCount {
        FillFromLast(index);
        Sink(index);
      }
    }

    /**
     * The first half of Remove: the last queued state is moved into slot index
     * and the last slot is cleared, which loses exactly the state at index.
     */
    method FillFromLast(index: int)
      requires Valid() && 1 <= index <= mCount
      modifies this, mArray
      ensures Valid() && mArray == old(mArray) && mCount == old(mCount) - 1
      ensures mArray[..] == old(mArray[..])[index := old(mArray[mCount])][old(mCount) := null]
      ensures multiset(Contents()) == old(multiset(Contents())) - multiset{old(mArray[index])}
    {
      ghost var a := mArray[..];
      ghost var n := mCount;
      mArray[index] := mArray[mCount];
      mArray[mCount] := null;
      mCount := mCount - 1;
      assert mArray[..] == a[index := a[n]][n := null];
      RemoveSlot(a, n, index);
    }

    /**
     * The second half of the corrected removal: after slot n of the snapshot a
     * was moved into slot index, the moved state swims up when it is smaller
     * than its new parent and sinks otherwise, which restores heap order.
     */
    method Resift(index: int, ghost a: seq<State?>, ghost n: int)
      requires Valid() && Filled(a, n) && 1 <= index <= n && mCount == n - 1
      requires mArray[..] == a[index := a[n]][n := null]
      modifies mArray
      ensures Valid() && multiset(Contents()) == old(multiset(Contents()))
      ensures Ordered(a, n) ==> HeapOrdered()
    {
      if Ordered(a, n) {
        MoveLastIntoReady(a, n, index);
      }
      if 2 <= index <= mCount && Less(index, index / 2) {
        assert MovesUp(a, n, index);
        Swim(index);
      } else {
        assert !MovesUp(a, n, index);
        Sink(index);
      }
    }

    /**
     * Remove with the heap order kept: the state moved into slot index swims up
     * when it is smaller than its new parent and sinks otherwise.
     */
    method RemoveOrdered(index: int)
      requires Valid()
      modifies this, mArray
      ensures Valid() && mArray == old(mArray)
      ensures !(0 < index <= old(mCount)) ==> mCount == old(mCount) && mArray[..] == old(mArray[..])
      ensures 0 < index <= old(mCount) ==>
        && mCount == old(mCount) - 1
        && multiset(Contents()) == old(multiset(Contents())) - multiset{old(mArray[index])}
      ensures old(HeapOrdered()) ==> HeapOrdered()
    {
      if index > 0 && index <= mCount {
        ghost var a := mArray[..];
        ghost var n := mCount;
        FillFromLast(index);
        Resift(index, a, n);
      }
    }
  }
}
