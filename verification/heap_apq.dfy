/**
 `HeapAPQ` exactly as written (src/priority_queue.py, lines 96-175): a 0-based binary
 min-heap whose elements record their own slot.

 Two defects are kept, not repaired, and exhibited by the counterexample lemmas at the end:
 `_bubble_down` takes `n = length - 1` and then tests `l >= n` / `r >= n`, so it ignores a
 lone left child in the last slot and, when the right child is in the last slot, compares
 with that child only; `remove` swaps the target to the end but never pops it.
 */
module HeapApq {
  import opened Priorities
  import opened Results
  import opened Seqs
  import opened Queues
  import opened HeapOrder

  /** `_bubble_up(i)`: while `i > 0` and the parent is strictly greater, swap with the parent
      and record both new slots. Returns the final slot of the element that started at `i`.
      (Python evaluates `queue[(i-1)//2]` before `i != 0`; at `i == 0` that reads
      `queue[-1]`, which exists and is harmless, so the guard is taken first here.) */
  function BubbleUp<V>(q: Queue<V>, i: nat): (r: (Queue<V>, nat))
    requires Shaped(q) && i < |q.slots|
    ensures Shaped(r.0) && Rearranged(q, r.0) && IndicesInRangeKept(q, r.0) && Entries(r.0) == Entries(q)
    ensures r.1 <= i && r.0.slots[r.1] == q.slots[i]
    ensures r.1 == i ==> r.0 == q
    ensures r.1 == 0 || Le(Keys(r.0)[Parent(r.1)], Keys(r.0)[r.1])
    ensures FaithfulExcept(q, i) ==> FaithfulExcept(r.0, r.1)
    ensures FaithfulExcept(q, i) && r.1 != i ==> Faithful(r.0)
    ensures Faithful(q) ==> Faithful(r.0)
    ensures HeapExceptUp(Keys(q), i) ==> HeapOrdered(Keys(r.0))
    ensures HeapOrdered(Keys(q)) ==> r.0 == q
    decreases i
  {
    if i > 0 && Less(KeyAt(q, i), KeyAt(q, Parent(i))) then
      var p := Parent(i);
      var q1 := SwapFix(q, i, p);
      SwapUp(q, i);
      var r := BubbleUp(q1, p);
      RearrangedTrans(q, q1, r.0);
      r
    else
      StopUp(q, i);
      (q, i)
  }

  /** One swap of `_bubble_up` moves the upward defect to the parent and records both
      slots, and it only happens where the heap was out of order. */
  lemma SwapUp<V>(q: Queue<V>, i: nat)
    requires Shaped(q) && 0 < i < |q.slots| && Less(KeyAt(q, i), KeyAt(q, Parent(i)))
    ensures var q1 := SwapFix(q, i, Parent(i));
            && (HeapExceptUp(Keys(q), i) ==> HeapExceptUp(Keys(q1), Parent(i)))
            && (FaithfulExcept(q, i) ==> Faithful(q1))
            && !HeapOrdered(Keys(q))
  {
    var p := Parent(i);
    var q1 := SwapFix(q, i, p);
    assert Keys(q1) == Exchange(Keys(q), i, p);
    if HeapExceptUp(Keys(q), i) {
      SiftUpStep(Keys(q), i);
    }
    if FaithfulExcept(q, i) {
      SwapFixRepairs(q, i, p, i);
    }
    assert !Le(Keys(q)[Parent(i)], Keys(q)[i]);
  }

  /** Where `_bubble_up` stops, the parent is no larger and an upward defect is repaired. */
  lemma StopUp<V>(q: Queue<V>, i: nat)
    requires Shaped(q) && i < |q.slots| && !(i > 0 && Less(KeyAt(q, i), KeyAt(q, Parent(i))))
    ensures i == 0 || Le(Keys(q)[Parent(i)], Keys(q)[i])
    ensures HeapExceptUp(Keys(q), i) ==> HeapOrdered(Keys(q))
  {
    if HeapExceptUp(Keys(q), i) {
      SiftUpDone(Keys(q), i);
    }
  }

  /** `_bubble_down(i)` as written, with `n = length - 1`. The left/right comparisons and the
      strict `<` that ends the loop are the source's; on equal keys it swaps. */
  function BubbleDown<V>(q: Queue<V>, i: nat): (r: Queue<V>)
    requires Shaped(q)
    ensures Shaped(r) && Rearranged(q, r) && IndicesInRangeKept(q, r) && Entries(r) == Entries(q)
    ensures Faithful(q) ==> Faithful(r)
    decreases |q.slots| - i, 1
  {
    var n := |q.slots| - 1;
    var l, rt := 2 * i + 1, 2 * i + 2;
    if l >= n then q
    else if rt >= n then
      if Less(KeyAt(q, i), KeyAt(q, rt)) then q else SwapThenBubbleDown(q, i, rt)
    else if Less(KeyAt(q, l), KeyAt(q, rt)) then
      if Less(KeyAt(q, i), KeyAt(q, l)) then q else SwapThenBubbleDown(q, i, l)
    else if Less(KeyAt(q, i), KeyAt(q, rt)) then q
    else SwapThenBubbleDown(q, i, rt)
  }

  /** One swap of `_bubble_down` followed by the rest of the loop from the child's slot. */
  function SwapThenBubbleDown<V>(q: Queue<V>, i: nat, c: nat): (r: Queue<V>)
    requires Shaped(q) && i < c < |q.slots|
    ensures Shaped(r) && Rearranged(q, r) && IndicesInRangeKept(q, r) && Entries(r) == Entries(q)
    ensures Faithful(q) ==> Faithful(r)
    decreases |q.slots| - i, 0
  {
    var q1 := SwapFix(q, i, c);
    assert Faithful(q) ==> Faithful(q1) by {
      if Faithful(q) {
        SwapFixRepairs(q, i, c, -1);
      }
    }
    var r := BubbleDown(q1, c);
    RearrangedTrans(q, q1, r);
    r
  }

  /** `min`: the value in slot 0; `queue[0]` raises `IndexError` on an empty queue. */
  function Min<V>(q: Queue<V>): (r: Result<V, QueueError>)
    requires Shaped(q)
    ensures r.Err? <==> |q.slots| == 0
    ensures r.Ok? ==> q.slots[0] in Entries(q) && r.value == Entries(q)[q.slots[0]].1
  {
    if |q.slots| == 0 then Err(EmptyQueue) else Ok(q.objs[q.slots[0]].value)
  }

  /** `add`: append a fresh element, bubble it up, then store the slot `_bubble_up` returned. */
  function Add<V>(q: Queue<V>, k: Key, v: V): (r: (Queue<V>, Handle))
    requires WellFormed(q)
    ensures WellFormed(r.0) && |r.0.slots| == |q.slots| + 1 && r.0.next == q.next + 1
    ensures r.1 !in q.objs && r.1 !in Entries(q) && Entries(r.0) == Entries(q)[r.1 := (k, v)]
    ensures HeapOrdered(Keys(q)) ==> HeapOrdered(Keys(r.0))
  {
    var h := q.next;
    var q1 := Append(q, k, v, 0);
    assert HeapOrdered(Keys(q)) ==> HeapExceptUp(Keys(q1), |q.slots|) by {
      if HeapOrdered(Keys(q)) {
        AppendedKeySiftsUp(Keys(q), k);
      }
    }
    var up := BubbleUp(q1, |q.slots|);
    SetIndexRepairs(up.0, up.1);
    (SetIndex(up.0, h, up.1), h)
  }

  /** `remove_min`: `IndexError` on an empty queue; otherwise pop the root and bubble down. */
  function RemoveMin<V>(q: Queue<V>): (r: Result<(Queue<V>, V), QueueError>)
    requires WellFormed(q)
    ensures r.Err? <==> |q.slots| == 0
    ensures r.Ok? ==>
              && WellFormed(r.value.0) && |r.value.0.slots| == |q.slots| - 1 && r.value.0.next == q.next
              && q.slots[0] in Entries(q)
              && Entries(r.value.0) == Entries(q) - {q.slots[0]}
              && r.value.1 == Entries(q)[q.slots[0]].1
  {
    if |q.slots| < 1 then Err(EmptyQueue)
    else
      var (q1, top) := DetachAt(q, 0);
      Ok((BubbleDown(q1, 0), q1.objs[top].value))
  }

  /** `update_key`: set the key, then bubble up if it decreased and bubble down otherwise. */
  function UpdateKey<V>(q: Queue<V>, h: Handle, k: Key): (r: Queue<V>)
    requires WellFormed(q) && h in q.slots
    ensures WellFormed(r) && |r.slots| == |q.slots| && r.next == q.next
    ensures h in Entries(q) && Entries(r) == Entries(q)[h := (k, Entries(q)[h].1)]
    ensures HeapOrdered(Keys(q)) && Less(k, Entries(q)[h].0) ==> HeapOrdered(Keys(r))
  {
    SlotOfHandle(q, h);
    var i := q.objs[h].index;
    var oldKey := q.objs[h].key;
    var q1 := SetKey(q, h, k);
    assert Keys(q1) == Keys(q)[i := k];
    if Less(k, oldKey) then
      assert HeapOrdered(Keys(q)) ==> HeapExceptUp(Keys(q1), i) by {
        if HeapOrdered(Keys(q)) {
          DecreasedKeySiftsUp(Keys(q), i, k);
        }
      }
      BubbleUp(q1, i).0
    else
      BubbleDown(q1, i)
  }

  /** `remove` as written: swap the target with the last slot (no `.index` updates), bubble
      down from the target's recorded slot, bubble up from wherever the target's `.index`
      now says, and return its key and value. Nothing is popped, so the abstract contents
      and the length are unchanged. */
  function Remove<V>(q: Queue<V>, h: Handle): (r: Result<(Queue<V>, (Key, V)), QueueError>)
    requires WellFormed(q) && (|q.slots| > 0 ==> h in q.slots)
    ensures r.Err? <==> |q.slots| == 0
    ensures r.Ok? ==>
              && h in Entries(q) && r.value.1 == Entries(q)[h]
              && Shaped(r.value.0) && |r.value.0.slots| == |q.slots|
              && h in r.value.0.slots && Entries(r.value.0) == Entries(q)
  {
    if |q.slots| < 1 then Err(EmptyQueue)
    else
      var n := |q.slots| - 1;
      SlotOfHandle(q, h);
      var k := q.objs[h].index;
      var q1 := Swap(q, k, n);
      var q2 := BubbleDown(q1, k);
      var q3 := BubbleUp(q2, q2.objs[h].index).0;
      Ok((q3, (q3.objs[h].key, q3.objs[h].value)))
  }

  function Empty<V>(): (q: Queue<V>)
    ensures WellFormed(q) && Entries(q) == map[]
  {
    Queue([], map[], 0)
  }

  /** The queues that adding keys 1, 2 and 3 (each with itself as value) to an empty heap
      goes through; `AddsOne`, `AddsTwo` and `AddsThree` show that `Add` produces them. */
  function OneKey(): Queue<int> {
    Queue([0], map[0 := Elem(Fin(1), 1, 0)], 1)
  }

  function TwoKeys(): Queue<int> {
    Queue([0, 1], map[0 := Elem(Fin(1), 1, 0), 1 := Elem(Fin(2), 2, 1)], 2)
  }

  function ThreeKeys(): Queue<int> {
    Queue([0, 1, 2], map[0 := Elem(Fin(1), 1, 0), 1 := Elem(Fin(2), 2, 1), 2 := Elem(Fin(3), 3, 2)], 3)
  }

  lemma AddsOne()
    ensures Add(Empty<int>(), Fin(1), 1) == (OneKey(), 0)
  {
    var a := Append(Empty<int>(), Fin(1), 1, 0);
    assert a == OneKey();
    assert BubbleUp(a, 0) == (a, 0);
    assert SetIndex(a, 0, 0) == a;
  }

  lemma AddsTwo()
    ensures Add(OneKey(), Fin(2), 2) == (TwoKeys(), 1)
  {
    hide BubbleDown, SwapThenBubbleDown, SwapFix, Append, BubbleUp, SetIndex, Keys;
    var a := Queue([0, 1], map[0 := Elem(Fin(1), 1, 0), 1 := Elem(Fin(2), 2, 0)], 2);
    SecondAppended(a);
    SecondStaysPut(a);
  }

  lemma SecondAppended(a: Queue<int>)
    requires a == Queue([0, 1], map[0 := Elem(Fin(1), 1, 0), 1 := Elem(Fin(2), 2, 0)], 2)
    ensures WellFormed(OneKey()) && Append(OneKey(), Fin(2), 2, 0) == a
    ensures Shaped(a) && SetIndex(a, 1, 1) == TwoKeys()
  {
    hide BubbleDown, SwapThenBubbleDown, SwapFix, BubbleUp, Keys;
    assert a.slots[0] == 0 && a.slots[1] == 1;
    assert Distinct(a.slots);
  }

  lemma SecondStaysPut(a: Queue<int>)
    requires a == Queue([0, 1], map[0 := Elem(Fin(1), 1, 0), 1 := Elem(Fin(2), 2, 0)], 2)
    ensures Shaped(a) && BubbleUp(a, 1) == (a, 1)
  {
    hide BubbleDown, SwapThenBubbleDown, SwapFix;
    assert a.slots[0] == 0 && a.slots[1] == 1;
    assert Distinct(a.slots);
    assert KeyAt(a, 1) == Fin(2) && KeyAt(a, 0) == Fin(1);
  }

  lemma AddsThree()
    ensures Add(TwoKeys(), Fin(3), 3) == (ThreeKeys(), 2)
  {
    hide BubbleDown, SwapThenBubbleDown, SwapFix, Append, BubbleUp, SetIndex, Keys;
    TwoKeysWellFormed();
    var a := Queue([0, 1, 2], map[0 := Elem(Fin(1), 1, 0), 1 := Elem(Fin(2), 2, 1), 2 := Elem(Fin(3), 3, 0)], 3);
    ThirdAppended(a);
    ThirdStaysPut(a);
  }

  lemma ThirdAppended(a: Queue<int>)
    requires a == Queue([0, 1, 2], map[0 := Elem(Fin(1), 1, 0), 1 := Elem(Fin(2), 2, 1), 2 := Elem(Fin(3), 3, 0)], 3)
    ensures WellFormed(TwoKeys()) && Append(TwoKeys(), Fin(3), 3, 0) == a
    ensures Shaped(a) && SetIndex(a, 2, 2) == ThreeKeys()
  {
    hide BubbleDown, SwapThenBubbleDown, SwapFix, BubbleUp, Keys;
    TwoKeysWellFormed();
    assert a.slots[0] == 0 && a.slots[1] == 1 && a.slots[2] == 2;
    assert Distinct(a.slots);
  }

  lemma ThirdStaysPut(a: Queue<int>)
    requires a == Queue([0, 1, 2], map[0 := Elem(Fin(1), 1, 0), 1 := Elem(Fin(2), 2, 1), 2 := Elem(Fin(3), 3, 0)], 3)
    ensures Shaped(a) && BubbleUp(a, 2) == (a, 2)
  {
    hide BubbleDown, SwapThenBubbleDown, SwapFix;
    assert a.slots[0] == 0 && a.slots[1] == 1 && a.slots[2] == 2;
    assert Distinct(a.slots);
    assert Parent(2) == 0;
    assert KeyAt(a, 2) == Fin(3) && KeyAt(a, 0) == Fin(1);
  }

  lemma TwoKeysWellFormed()
    ensures WellFormed(TwoKeys())
  {
    var q := TwoKeys();
    assert q.slots[0] == 0 && q.slots[1] == 1;
    assert Distinct(q.slots);
  }

  lemma ThreeKeysWellFormed()
    ensures WellFormed(ThreeKeys()) && HeapOrdered(Keys(ThreeKeys()))
  {
    var q := ThreeKeys();
    assert q.slots[0] == 0 && q.slots[1] == 1 && q.slots[2] == 2;
    assert Distinct(q.slots);
    assert Keys(q) == [Fin(1), Fin(2), Fin(3)];
  }

  /** `ThreeKeys()` after its root has been detached: element 2 (key 3) is now in slot 0. */
  function TopDetached(): Queue<int> {
    Queue([2, 1], map[0 := Elem(Fin(1), 1, 0), 1 := Elem(Fin(2), 2, 1), 2 := Elem(Fin(3), 3, 0)], 3)
  }

  lemma DetachesTop()
    ensures WellFormed(ThreeKeys()) && DetachAt(ThreeKeys(), 0) == (TopDetached(), 0)
  {
    hide BubbleDown, BubbleUp, SwapThenBubbleDown, SwapFix, UpdateKey, Append;
    ThreeKeysWellFormed();
    var q := ThreeKeys();
    var q1 := Swap(q, 0, 2);
    assert q1 == Queue([2, 1, 0], q.objs, 3);
    var q2 := SetIndex(q1, 2, 0);
    assert q2 == Queue([2, 1, 0], TopDetached().objs, 3);
    assert q2.slots[..2] == [2, 1];
  }

  lemma TopDetachedStaysPut()
    ensures WellFormed(TopDetached()) && BubbleDown(TopDetached(), 0) == TopDetached()
  {
    var q := TopDetached();
    assert q.slots[0] == 2 && q.slots[1] == 1;
    assert Distinct(q.slots);
  }

  /** Adding keys 1, 2 and 3 to an empty heap gives the heap-ordered `ThreeKeys()`. */
  lemma AddsOneTwoThree()
    ensures Add(Add(Add(Empty<int>(), Fin(1), 1).0, Fin(2), 2).0, Fin(3), 3).0 == ThreeKeys()
    ensures WellFormed(ThreeKeys()) && HeapOrdered(Keys(ThreeKeys()))
  {
    AddsOne();
    AddsTwo();
    AddsThree();
    ThreeKeysWellFormed();
  }

  /** Removing the minimum from `ThreeKeys()` leaves keys `[3, 2]`: the lone left child in
      the last slot is never compared, so heap order is lost and `min()` then returns 3. */
  lemma RemoveMinLosesHeapOrder()
    ensures WellFormed(ThreeKeys()) && RemoveMin(ThreeKeys()) == Ok((TopDetached(), 1))
    ensures Keys(TopDetached()) == [Fin(3), Fin(2)] && !HeapOrdered(Keys(TopDetached()))
    ensures Min(TopDetached()) == Ok(3)
  {
    DetachesTop();
    TopDetachedStaysPut();
    assert Keys(TopDetached()) == [Fin(3), Fin(2)];
    assert !Le(Keys(TopDetached())[Parent(1)], Keys(TopDetached())[1]);
  }

  /** `ThreeKeys()` after `update_key` raised the root's key from 1 to 5: the root was
      compared with the right child only and swapped with it. */
  function RootRaised(): Queue<int> {
    Queue([2, 1, 0], map[0 := Elem(Fin(5), 1, 2), 1 := Elem(Fin(2), 2, 1), 2 := Elem(Fin(3), 3, 0)], 3)
  }

  /** `ThreeKeys()` with the root's key set to 5, before any sifting. */
  function RootKeySet(): Queue<int> {
    Queue([0, 1, 2], map[0 := Elem(Fin(5), 1, 0), 1 := Elem(Fin(2), 2, 1), 2 := Elem(Fin(3), 3, 2)], 3)
  }

  lemma RootKeySetWellFormed()
    ensures WellFormed(RootKeySet()) && KeyAt(RootKeySet(), 0) == Fin(5) && KeyAt(RootKeySet(), 2) == Fin(3)
  {
    var q := RootKeySet();
    assert q.slots[0] == 0 && q.slots[1] == 1 && q.slots[2] == 2;
    assert Distinct(q.slots);
  }

  lemma RootKeySetSwaps()
    requires Shaped(RootKeySet())
    ensures SwapFix(RootKeySet(), 0, 2) == RootRaised()
  {
    hide BubbleDown, BubbleUp, SwapThenBubbleDown, Keys, Entries, Swap;
    var q := RootKeySet();
    SwapRootKeySet();
    var s := Queue([2, 1, 0], q.objs, 3);
    var o1 := s.objs[s.slots[0] := s.objs[s.slots[0]].(index := 0)];
    var o2 := o1[s.slots[2] := o1[s.slots[2]].(index := 2)];
    assert o2 == RootRaised().objs;
  }

  lemma SwapRootKeySet()
    ensures Shaped(RootKeySet()) && Swap(RootKeySet(), 0, 2) == Queue([2, 1, 0], RootKeySet().objs, 3)
  {
    hide BubbleDown, BubbleUp, SwapThenBubbleDown, Keys, Entries, SwapFix;
    var q := RootKeySet();
    assert q.slots[0] == 0 && q.slots[1] == 1 && q.slots[2] == 2;
    assert Distinct(q.slots);
  }

  lemma RootRaisedStaysPut()
    ensures Shaped(RootRaised()) && BubbleDown(RootRaised(), 2) == RootRaised()
  {
    hide BubbleUp, SwapThenBubbleDown;
    var q := RootRaised();
    assert q.slots[0] == 2 && q.slots[1] == 1 && q.slots[2] == 0;
    assert Distinct(q.slots);
  }

  lemma RootKeySetSiftsOnce()
    ensures WellFormed(RootKeySet()) && BubbleDown(RootKeySet(), 0) == RootRaised()
  {
    hide BubbleUp, SwapFix;
    RootKeySetWellFormed();
    RootKeySetSwaps();
    RootRaisedStaysPut();
    assert BubbleDown(RootKeySet(), 0) == SwapThenBubbleDown(RootKeySet(), 0, 2);
  }

  lemma RaisesRoot()
    ensures WellFormed(ThreeKeys()) && 0 in ThreeKeys().slots
    ensures UpdateKey(ThreeKeys(), 0, Fin(5)) == RootRaised()
  {
    hide BubbleUp, BubbleDown;
    ThreeKeysWellFormed();
    assert SetKey(ThreeKeys(), 0, Fin(5)) == RootKeySet();
    RootKeySetSiftsOnce();
  }

  /** Raising the root's key from 1 to 5 in `ThreeKeys()` yields keys `[3, 2, 5]`: the left
      child 2 is smaller than its new parent 3, and `min()` returns 3. */
  lemma IncreaseKeyLosesHeapOrder()
    ensures WellFormed(ThreeKeys()) && 0 in ThreeKeys().slots
    ensures UpdateKey(ThreeKeys(), 0, Fin(5)) == RootRaised()
    ensures Keys(RootRaised()) == [Fin(3), Fin(2), Fin(5)] && !HeapOrdered(Keys(RootRaised()))
    ensures Min(RootRaised()) == Ok(3)
  {
    hide UpdateKey, BubbleUp, BubbleDown, SwapThenBubbleDown, SwapFix, SetKey, Append, SetIndex, Keys, Min;
    RaisesRoot();
    RootRaisedOutOfOrder();
  }

  lemma RootRaisedOutOfOrder()
    ensures Shaped(RootRaised())
    ensures Keys(RootRaised()) == [Fin(3), Fin(2), Fin(5)] && !HeapOrdered(Keys(RootRaised()))
    ensures Min(RootRaised()) == Ok(3)
  {
    hide UpdateKey, BubbleUp, BubbleDown, SwapThenBubbleDown, SwapFix, SetKey, Append, SetIndex;
    var q := RootRaised();
    assert q.slots[0] == 2 && q.slots[1] == 1 && q.slots[2] == 0;
    assert Distinct(q.slots);
    assert Keys(q) == [Fin(3), Fin(2), Fin(5)];
    assert !Le(Keys(q)[Parent(1)], Keys(q)[1]);
  }

  /** `TwoKeys()` after `remove` of its root: the slots are swapped, no `.index` is updated
      and nothing is popped. */
  function RootNotRemoved(): Queue<int> {
    Queue([1, 0], TwoKeys().objs, 2)
  }

  lemma RemovesRootAsWritten()
    ensures WellFormed(TwoKeys()) && 0 in TwoKeys().slots
    ensures Remove(TwoKeys(), 0) == Ok((RootNotRemoved(), (Fin(1), 1)))
  {
    TwoKeysWellFormed();
    var q := TwoKeys();
    var q1 := Swap(q, 0, 1);
    assert q1 == RootNotRemoved();
    assert BubbleDown(q1, 0) == q1;
    assert q1.objs[0].index == 0;
    assert BubbleUp(q1, 0) == (q1, 0);
  }

  /** Removing the root of the two-element heap `[1, 2]` returns `(1, 1)` but keeps both
      elements: the length stays 2, the "removed" element is still in the last slot, each
      swapped element records the other's slot, and heap order is lost. */
  lemma RemoveKeepsTheElement()
    ensures WellFormed(TwoKeys()) && 0 in TwoKeys().slots
    ensures Remove(TwoKeys(), 0) == Ok((RootNotRemoved(), (Fin(1), 1)))
    ensures Length(RootNotRemoved()) == Length(TwoKeys()) == 2 && 0 in Entries(RootNotRemoved())
    ensures !Faithful(RootNotRemoved()) && !HeapOrdered(Keys(RootNotRemoved()))
  {
    RemovesRootAsWritten();
    var r := RootNotRemoved();
    assert r.objs[r.slots[0]].index != 0;
    assert Keys(r) == [Fin(2), Fin(1)];
    assert !Le(Keys(r)[Parent(1)], Keys(r)[1]);
  }
}
