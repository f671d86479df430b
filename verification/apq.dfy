/**
 The `APQ` interface as `prim` uses it, dispatched over the concrete queue it is handed:
 `HeapAPQ` as written, `UnsortedListAPQ`, or the heap with the two repairs described in
 `RepairedHeap`. All three keep the abstract contents exact; only the last two also keep the
 promise of `remove_min` that the removed entry has a smallest key.
 */
module Apqs {
  import opened Priorities
  import opened Results
  import opened Queues
  import opened HeapOrder
  import HeapApq
  import RepairedHeap
  import UnsortedApq

  datatype Impl = Heap | UnsortedList | CorrectedHeap

  /** What each implementation keeps between calls. */
  ghost predicate Inv<V>(impl: Impl, q: Queue<V>) {
    WellFormed(q) && (impl == CorrectedHeap ==> HeapOrdered(Keys(q)))
  }

  /** `HeapAPQ()` / `UnsortedListAPQ()`: an empty queue. */
  method Empty<V>(impl: Impl) returns (q: Queue<V>)
    ensures Inv(impl, q) && Entries(q) == map[] && |q.slots| == 0
  {
    q := HeapApq.Empty();
  }

  /** `apq.length()`: the number of slots, which is zero exactly when nothing is queued. */
  method Length<V>(impl: Impl, q: Queue<V>) returns (n: nat)
    requires Inv(impl, q)
    ensures n == |q.slots| && n == |Entries(q)|
    ensures n == 0 <==> Entries(q) == map[]
  {
    n := Queues.Length(q);
  }

  /** `apq.get_key(element)`: the key of a queued element. */
  method GetKey<V>(impl: Impl, q: Queue<V>, h: Handle) returns (k: Key)
    requires Inv(impl, q) && h in Entries(q)
    ensures k == Entries(q)[h].0
  {
    k := Queues.GetKey(q, h);
  }

  /** `apq.add(key, value)`: a fresh element holding exactly the new entry. */
  method Add<V>(impl: Impl, q: Queue<V>, k: Key, v: V) returns (r: Queue<V>, h: Handle)
    requires Inv(impl, q)
    ensures Inv(impl, r) && |r.slots| == |q.slots| + 1 && r.next == q.next + 1
    ensures h !in q.objs && h !in Entries(q) && h in r.slots
    ensures Entries(r) == Entries(q)[h := (k, v)]
  {
    match impl {
      case UnsortedList => r, h := UnsortedApq.Add(q, k, v).0, UnsortedApq.Add(q, k, v).1;
      case _ => r, h := HeapApq.Add(q, k, v).0, HeapApq.Add(q, k, v).1;
    }
  }

  /** `apq.remove_min()`: `IndexError` on an empty queue; otherwise exactly one entry, `h`,
      leaves the queue and its value is returned. The repaired heap and the unsorted list
      guarantee that `h` has a smallest key; the heap as written does not. */
  method RemoveMin<V>(impl: Impl, q: Queue<V>) returns (r: Result<(Queue<V>, V), QueueError>, ghost h: Handle)
    requires Inv(impl, q)
    ensures r.Err? <==> |q.slots| == 0
    ensures r.Ok? ==>
              && h in Entries(q) && r.value.1 == Entries(q)[h].1
              && Inv(impl, r.value.0) && |r.value.0.slots| == |q.slots| - 1 && r.value.0.next == q.next
              && Entries(r.value.0) == Entries(q) - {h}
    ensures r.Ok? && impl != Heap ==> IsMinEntry(q, h)
  {
    h := 0;
    match impl {
      case Heap =>
        r := HeapApq.RemoveMin(q);
        if r.Ok? {
          h := q.slots[0];
        }
      case CorrectedHeap =>
        r := RepairedHeap.RemoveMin(q);
        if r.Ok? {
          h := q.slots[0];
        }
      case UnsortedList =>
        r := UnsortedApq.RemoveMin(q);
        if r.Ok? {
          ghost var m: nat :| UnsortedApq.FirstMinimum(Keys(q), m) && IsMinEntry(q, q.slots[m])
                              && r.value.0.slots == q.slots[m := q.slots[|q.slots| - 1]][..|q.slots| - 1]
                              && Entries(r.value.0) == Entries(q) - {q.slots[m]}
                              && r.value.1 == Entries(q)[q.slots[m]].1;
          h := q.slots[m];
        }
    }
  }

  /** `apq.update_key(element, key)`: the element's key, and nothing else, changes. */
  method UpdateKey<V>(impl: Impl, q: Queue<V>, h: Handle, k: Key) returns (r: Queue<V>)
    requires Inv(impl, q) && h in Entries(q)
    ensures Inv(impl, r) && |r.slots| == |q.slots| && r.next == q.next
    ensures Entries(r) == Entries(q)[h := (k, Entries(q)[h].1)]
  {
    match impl {
      case Heap => r := HeapApq.UpdateKey(q, h, k);
      case UnsortedList => r := UnsortedApq.UpdateKey(q, h, k);
      case CorrectedHeap => r := RepairedHeap.UpdateKey(q, h, k);
    }
  }

  /** `element.value = ...` written through a handle: only that entry's value changes, and
      no implementation's invariant depends on values. */
  method SetValue<V>(impl: Impl, q: Queue<V>, h: Handle, v: V) returns (r: Queue<V>)
    requires Inv(impl, q) && h in Entries(q)
    ensures Inv(impl, r) && |r.slots| == |q.slots| && r.next == q.next
    ensures Entries(r) == Entries(q)[h := (Entries(q)[h].0, v)]
  {
    r := Queues.SetValue(q, h, v);
  }
}
