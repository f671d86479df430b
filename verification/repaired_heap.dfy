/**
 `HeapAPQ` with its two defects repaired: `_bubble_down` takes `n = length` and swaps with
 the left child when it is the only one, and `remove` records the moved element's slot and
 pops the target before sifting. `add`, `min` and `_bubble_up` are the originals.
 With these, every operation keeps the heap ordered and the root is a minimum entry.
 */
module RepairedHeap {
  import opened Priorities
  import opened Results
  import opened Seqs
  import opened Queues
  import opened HeapOrder
  import HeapApq

  /** The child of `i` that the loop compares against: the left child when it is the only
      one or strictly smaller than the right, else the right. It is a smallest child. */
  function SmallerChild<V>(q: Queue<V>, i: nat): (c: nat)
    requires Shaped(q) && 2 * i + 1 < |q.slots|
    ensures i < c < |q.slots| && Parent(c) == i
    ensures forall d :: 0 < d < |q.slots| && Parent(d) == i ==> Le(Keys(q)[c], Keys(q)[d])
  {
    var n := |q.slots|;
    var l, rt := 2 * i + 1, 2 * i + 2;
    var ks := Keys(q);
    forall d | 0 < d < n && Parent(d) == i
      ensures d == l || d == rt
    {
      ParentOfChild(i, d);
    }
    ParentOfChild(i, l);
    if rt >= n then l
    else
      ParentOfChild(i, rt);
      LessIsStrictTotalOrder(ks[l], ks[rt], ks[l]);
      if Less(KeyAt(q, l), KeyAt(q, rt)) then l else rt
  }

  /** The repaired `_bubble_down(i)`: stop when there is no child or `i` is strictly smaller
      than its smaller child, else swap with that child and continue from there. */
  function BubbleDown<V>(q: Queue<V>, i: nat): (r: Queue<V>)
    requires Shaped(q)
    ensures Shaped(r) && Rearranged(q, r) && IndicesInRangeKept(q, r) && Entries(r) == Entries(q)
    ensures Faithful(q) ==> Faithful(r)
    ensures HeapExceptDown(Keys(q), i) ==> HeapOrdered(Keys(r))
    ensures i < |q.slots| && (forall c :: 0 < c < |q.slots| && Parent(c) == i ==> Less(Keys(q)[i], Keys(q)[c]))
            ==> r == q
    decreases |q.slots| - i, 1
  {
    if 2 * i + 1 >= |q.slots| then
      assert HeapExceptDown(Keys(q), i) ==> HeapOrdered(Keys(q)) by {
        if HeapExceptDown(Keys(q), i) {
          forall c | 0 < c < |q.slots|
            ensures Parent(c) != i
          {
            ParentOfChild(i, c);
          }
          SiftDownDone(Keys(q), i);
        }
      }
      q
    else
      var c := SmallerChild(q, i);
      if Less(KeyAt(q, i), KeyAt(q, c)) then
        assert HeapExceptDown(Keys(q), i) ==> HeapOrdered(Keys(q)) by {
          if HeapExceptDown(Keys(q), i) {
            SmallestChildAbove(Keys(q), i, c);
          }
        }
        q
      else
        SwapThenBubbleDown(q, i, c)
  }

  /** One swap of the repaired `_bubble_down` with a smallest child `c` that is no larger
      than `i`, then the rest of the loop from `c`. */
  function SwapThenBubbleDown<V>(q: Queue<V>, i: nat, c: nat): (r: Queue<V>)
    requires Shaped(q) && i < c < |q.slots|
    ensures Shaped(r) && Rearranged(q, r) && IndicesInRangeKept(q, r) && Entries(r) == Entries(q)
    ensures Faithful(q) ==> Faithful(r)
    ensures && HeapExceptDown(Keys(q), i) && Parent(c) == i && Le(Keys(q)[c], Keys(q)[i])
            && (forall d :: 0 < d < |q.slots| && Parent(d) == i ==> Le(Keys(q)[c], Keys(q)[d]))
            ==> HeapOrdered(Keys(r))
    decreases |q.slots| - i, 0
  {
    var q1 := SwapFix(q, i, c);
    assert Faithful(q) ==> Faithful(q1) by {
      if Faithful(q) {
        SwapFixRepairs(q, i, c, -1);
      }
    }
    assert Keys(q1) == Exchange(Keys(q), i, c);
    assert && HeapExceptDown(Keys(q), i) && Parent(c) == i && Le(Keys(q)[c], Keys(q)[i])
           && (forall d :: 0 < d < |q.slots| && Parent(d) == i ==> Le(Keys(q)[c], Keys(q)[d]))
           ==> HeapExceptDown(Keys(q1), c) by {
      if && HeapExceptDown(Keys(q), i) && Parent(c) == i && Le(Keys(q)[c], Keys(q)[i])
         && (forall d :: 0 < d < |q.slots| && Parent(d) == i ==> Le(Keys(q)[c], Keys(q)[d])) {
        SiftDownStep(Keys(q), i, c);
      }
    }
    var r := BubbleDown(q1, c);
    RearrangedTrans(q, q1, r);
    r
  }

  /** In a heap-ordered queue the root holds a minimum entry, so `min` (unchanged from the
      original) returns the value of an entry with the smallest key. */
  lemma MinIsMinimum<V>(q: Queue<V>)
    requires WellFormed(q) && HeapOrdered(Keys(q))
    ensures HeapApq.Min(q).Ok? <==> |q.slots| > 0
    ensures HeapApq.Min(q).Ok? ==> IsMinEntry(q, q.slots[0]) && HeapApq.Min(q).value == Entries(q)[q.slots[0]].1
  {
    if |q.slots| > 0 {
      forall g | g in Entries(q)
        ensures Le(Entries(q)[q.slots[0]].0, Entries(q)[g].0)
      {
        var j :| 0 <= j < |q.slots| && q.slots[j] == g;
        RootIsMinimum(Keys(q), j);
      }
    }
  }

  /** `remove_min` with the repaired sift: removes and returns a minimum entry, keeps the
      heap ordered, and fails exactly on the empty queue. */
  function RemoveMin<V>(q: Queue<V>): (r: Result<(Queue<V>, V), QueueError>)
    requires WellFormed(q)
    ensures r.Err? <==> |q.slots| == 0
    ensures r.Ok? ==>
              && WellFormed(r.value.0) && |r.value.0.slots| == |q.slots| - 1 && r.value.0.next == q.next
              && q.slots[0] in Entries(q)
              && Entries(r.value.0) == Entries(q) - {q.slots[0]}
              && r.value.1 == Entries(q)[q.slots[0]].1
    ensures r.Ok? && HeapOrdered(Keys(q)) ==> IsMinEntry(q, q.slots[0]) && HeapOrdered(Keys(r.value.0))
  {
    if |q.slots| < 1 then Err(EmptyQueue)
    else
      var (q1, top) := DetachAt(q, 0);
      assert HeapOrdered(Keys(q)) ==> IsMinEntry(q, q.slots[0]) && HeapExceptDown(Keys(q1), 0) by {
        if HeapOrdered(Keys(q)) {
          DetachedRootSiftsDown(q, q1);
        }
      }
      Ok((BubbleDown(q1, 0), q1.objs[top].value))
  }

  /** Moving the last key of a heap to the root and dropping the last slot leaves a defect
      only downward from the root, and the detached root was a minimum entry. */
  lemma DetachedRootSiftsDown<V>(q: Queue<V>, q1: Queue<V>)
    requires WellFormed(q) && |q.slots| > 0 && HeapOrdered(Keys(q)) && Shaped(q1)
    requires Keys(q1) == Keys(q)[0 := Keys(q)[|q.slots| - 1]][..|q.slots| - 1]
    ensures IsMinEntry(q, q.slots[0]) && HeapExceptDown(Keys(q1), 0)
  {
    hide Entries;
    MinIsMinimum(q);
    var n := |q.slots| - 1;
    ReplacedRootSiftsDown(Keys(q), Keys(q)[n]);
    PrefixIsHeapExceptDown(Keys(q)[0 := Keys(q)[n]], n, 0);
  }

  /** `update_key` with the repaired sift: changes exactly the one key and keeps the heap
      ordered whichever way the key moved. */
  function UpdateKey<V>(q: Queue<V>, h: Handle, k: Key): (r: Queue<V>)
    requires WellFormed(q) && h in q.slots
    ensures WellFormed(r) && |r.slots| == |q.slots| && r.next == q.next
    ensures h in Entries(q) && Entries(r) == Entries(q)[h := (k, Entries(q)[h].1)]
    ensures HeapOrdered(Keys(q)) ==> HeapOrdered(Keys(r))
  {
    SlotOfHandle(q, h);
    var i := q.objs[h].index;
    var oldKey := q.objs[h].key;
    var q1 := SetKey(q, h, k);
    assert Keys(q1) == Keys(q)[i := k];
    if Less(k, oldKey) then
      assert HeapOrdered(Keys(q)) ==> HeapExceptUp(Keys(q1), i) by {
        if HeapOrdered(Keys(q)) {
          DecreasedKeySiftsUp(Keys(q), i, k);
        }
      }
      HeapApq.BubbleUp(q1, i).0
    else
      assert HeapOrdered(Keys(q)) ==> HeapExceptDown(Keys(q1), i) by {
        if HeapOrdered(Keys(q)) {
          IncreasedKeySiftsDown(Keys(q), i, k);
        }
      }
      BubbleDown(q1, i)
  }

  /** The repaired `remove`: move the last element into the target's slot and record that
      slot, pop the target, then sift the moved element down and up. Removes exactly the
      target, returns its key and value, and keeps the heap ordered. */
  function Remove<V>(q: Queue<V>, h: Handle): (r: Result<(Queue<V>, (Key, V)), QueueError>)
    requires WellFormed(q) && (|q.slots| > 0 ==> h in q.slots)
    ensures r.Err? <==> |q.slots| == 0
    ensures r.Ok? ==>
              && h in Entries(q) && r.value.1 == Entries(q)[h]
              && WellFormed(r.value.0) && |r.value.0.slots| == |q.slots| - 1 && r.value.0.next == q.next
              && Entries(r.value.0) == Entries(q) - {h}
    ensures r.Ok? && HeapOrdered(Keys(q)) ==> HeapOrdered(Keys(r.value.0))
  {
    if |q.slots| < 1 then Err(EmptyQueue)
    else
      SlotOfHandle(q, h);
      var k := q.objs[h].index;
      Ok((RemoveAt(q, k), (q.objs[h].key, q.objs[h].value)))
  }

  /** The element in slot `k` leaves: the last element moves into slot `k`, the last slot
      is popped, and the moved element is sifted down and then up. */
  function RemoveAt<V>(q: Queue<V>, k: nat): (r: Queue<V>)
    requires WellFormed(q) && k < |q.slots|
    ensures WellFormed(r) && |r.slots| == |q.slots| - 1 && r.next == q.next
    ensures Entries(r) == Entries(q) - {q.slots[k]}
    ensures HeapOrdered(Keys(q)) ==> HeapOrdered(Keys(r))
  {
    var (q1, _) := DetachAt(q, k);
    var q2 := if k < |q1.slots| then SiftMoved(q, q1, k) else q1;
    assert HeapOrdered(Keys(q)) ==> HeapOrdered(Keys(q2)) by {
      if HeapOrdered(Keys(q)) && k == |q1.slots| {
        LastDetachedKeepsHeap(q, q1);
      }
    }
    q2
  }

  /** Detaching the last slot of a heap leaves a heap. */
  lemma LastDetachedKeepsHeap<V>(q: Queue<V>, q1: Queue<V>)
    requires Shaped(q) && |q.slots| > 0 && HeapOrdered(Keys(q)) && Shaped(q1)
    requires |q1.slots| == |q.slots| - 1
    requires Keys(q1) == Keys(q)[|q1.slots| := Keys(q)[|q.slots| - 1]][..|q.slots| - 1]
    ensures HeapOrdered(Keys(q1))
  {
    var k := |q1.slots|;
    PrefixIsHeap(Keys(q), k);
    assert Keys(q1) == Keys(q)[..k];
  }

  /** The sifting half of the repaired `remove`: `q1` is `q` with slot `k` refilled from the
      last slot and the last slot popped; bubble down from `k`, then up from `k`. */
  function SiftMoved<V>(q: Queue<V>, q1: Queue<V>, k: nat): (r: Queue<V>)
    requires WellFormed(q) && WellFormed(q1) && k < |q1.slots| == |q.slots| - 1
    requires Keys(q1) == Keys(q)[k := Keys(q)[|q.slots| - 1]][..|q.slots| - 1]
    ensures WellFormed(r) && |r.slots| == |q1.slots| && r.next == q1.next && Entries(r) == Entries(q1)
    ensures HeapOrdered(Keys(q)) ==> HeapOrdered(Keys(r))
  {
    var q2 := BubbleDown(q1, k);
    var q3 := HeapApq.BubbleUp(q2, k);
    assert HeapOrdered(Keys(q)) ==> HeapOrdered(Keys(q3.0)) by {
      if HeapOrdered(Keys(q)) {
        SiftMovedOrders(q, q1, k);
      }
    }
    q3.0
  }

  /** Sifting the moved key down and then up restores heap order: by `MovedLastKeySifts`
      exactly one of the two sifts has anything to do. */
  lemma SiftMovedOrders<V>(q: Queue<V>, q1: Queue<V>, k: nat)
    requires WellFormed(q) && WellFormed(q1) && k < |q1.slots| == |q.slots| - 1
    requires Keys(q1) == Keys(q)[k := Keys(q)[|q.slots| - 1]][..|q.slots| - 1]
    requires HeapOrdered(Keys(q))
    ensures HeapOrdered(Keys(HeapApq.BubbleUp(BubbleDown(q1, k), k).0))
  {
    hide HeapApq.BubbleUp, BubbleDown, Keys, HeapExceptUp, HeapExceptDown, HeapOrdered, Less, Parent;
    var ks, n := Keys(q), |q.slots| - 1;
    MovedLastKeySifts(ks, k);
    if Less(ks[n], ks[k]) {
      MovedUp(q1, k);
    } else {
      MovedDown(q1, k);
    }
  }

  /** The moved key shrank: bubbling down leaves it in place, bubbling up repairs the heap. */
  lemma MovedUp<V>(q1: Queue<V>, k: nat)
    requires WellFormed(q1) && k < |q1.slots| && HeapExceptUp(Keys(q1), k)
    requires forall c :: 0 < c < |q1.slots| && Parent(c) == k ==> Less(Keys(q1)[k], Keys(q1)[c])
    ensures HeapOrdered(Keys(HeapApq.BubbleUp(BubbleDown(q1, k), k).0))
  {
    assert BubbleDown(q1, k) == q1;
  }

  /** The moved key grew: bubbling down repairs the heap, and bubbling up leaves it alone. */
  lemma MovedDown<V>(q1: Queue<V>, k: nat)
    requires WellFormed(q1) && k < |q1.slots| && HeapExceptDown(Keys(q1), k)
    ensures HeapOrdered(Keys(HeapApq.BubbleUp(BubbleDown(q1, k), k).0))
  {
    assert HeapOrdered(Keys(BubbleDown(q1, k)));
  }
}
