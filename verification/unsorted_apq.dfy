/**
 `UnsortedListAPQ` (src/priority_queue.py, lines 178-216): elements are appended in arrival
 order; `min` and `remove_min` scan for the first element no other element is strictly
 smaller than, and removal moves the last element into the vacated slot.
 */
module UnsortedApq {
  import opened Priorities
  import opened Results
  import opened Seqs
  import opened Queues

  /** Slot `m` holds the first minimum of `ks`: no key is smaller, and every earlier key is
      strictly larger. This is the element a left-to-right scan with strict `<` settles on. */
  ghost predicate FirstMinimum(ks: seq<Key>, m: nat) {
    && m < |ks|
    && (forall j :: 0 <= j < |ks| ==> Le(ks[m], ks[j]))
    && (forall j :: 0 <= j < m ==> Less(ks[m], ks[j]))
  }

  /** At most one slot is the first minimum. */
  lemma FirstMinimumUnique(ks: seq<Key>, m: nat, m': nat)
    requires FirstMinimum(ks, m) && FirstMinimum(ks, m')
    ensures m == m'
  {
    LessIsStrictTotalOrder(ks[m], ks[m'], ks[m]);
  }

  /** The scan shared by `min` and `remove_min`: start from slot 0 and keep the current
      element unless a later one is strictly smaller. */
  method ScanMin<V>(q: Queue<V>) returns (m: nat)
    requires Shaped(q) && |q.slots| > 0
    ensures FirstMinimum(Keys(q), m)
  {
    var ks := Keys(q);
    m := 0;
    var i := 0;
    while i < |q.slots|
      invariant 0 <= i <= |q.slots| && m < |q.slots| && (i == 0 ==> m == 0) && (i > 0 ==> m < i)
      invariant forall j :: 0 <= j < i ==> Le(ks[m], ks[j])
      invariant forall j :: 0 <= j < m ==> Less(ks[m], ks[j])
    {
      if Less(KeyAt(q, i), KeyAt(q, m)) {
        forall j | 0 <= j < i
          ensures Less(ks[i], ks[j])
        {
          LessIsStrictTotalOrder(ks[i], ks[m], ks[j]);
        }
        m := i;
      }
      LessIsStrictTotalOrder(ks[m], ks[i], ks[m]);
      i := i + 1;
    }
  }

  /** The first minimum's handle is a minimum entry of the queue. */
  lemma FirstMinimumIsMinEntry<V>(q: Queue<V>, m: nat)
    requires Shaped(q) && FirstMinimum(Keys(q), m)
    ensures IsMinEntry(q, q.slots[m])
  {
    forall g | g in Entries(q)
      ensures Le(Entries(q)[q.slots[m]].0, Entries(q)[g].0)
    {
      var j :| 0 <= j < |q.slots| && q.slots[j] == g;
      assert Keys(q)[j] == Entries(q)[g].0;
    }
  }

  /** `add`: append a fresh element recording the current length as its slot. */
  function Add<V>(q: Queue<V>, k: Key, v: V): (r: (Queue<V>, Handle))
    requires WellFormed(q)
    ensures WellFormed(r.0) && r.0.slots == q.slots + [r.1] && r.0.next == q.next + 1
    ensures r.1 !in q.objs && r.1 !in Entries(q) && Entries(r.0) == Entries(q)[r.1 := (k, v)]
  {
    (Append(q, k, v, |q.slots|), q.next)
  }

  /** `min`: `IndexError` on an empty queue, else the value of the first minimum. */
  method Min<V>(q: Queue<V>) returns (r: Result<V, QueueError>)
    requires WellFormed(q)
    ensures r.Err? <==> |q.slots| == 0
    ensures r.Ok? ==> exists m: nat :: FirstMinimum(Keys(q), m) && r.value == Entries(q)[q.slots[m]].1
    ensures r.Ok? ==> exists h :: IsMinEntry(q, h) && r.value == Entries(q)[h].1
  {
    if |q.slots| == 0 {
      return Err(EmptyQueue);
    }
    var m := ScanMin(q);
    FirstMinimumIsMinEntry(q, m);
    return Ok(q.objs[q.slots[m]].value);
  }

  /** `remove_min`: `IndexError` on an empty queue; else swap the first minimum with the last
      element, record the moved element's slot, pop, and return the popped value. */
  method RemoveMin<V>(q: Queue<V>) returns (r: Result<(Queue<V>, V), QueueError>)
    requires WellFormed(q)
    ensures r.Err? <==> |q.slots| == 0
    ensures r.Ok? ==> exists m: nat ::
              && FirstMinimum(Keys(q), m) && IsMinEntry(q, q.slots[m])
              && WellFormed(r.value.0) && r.value.0.next == q.next
              && r.value.0.slots == q.slots[m := q.slots[|q.slots| - 1]][..|q.slots| - 1]
              && Entries(r.value.0) == Entries(q) - {q.slots[m]}
              && r.value.1 == Entries(q)[q.slots[m]].1
  {
    if |q.slots| < 1 {
      return Err(EmptyQueue);
    }
    var m := ScanMin(q);
    FirstMinimumIsMinEntry(q, m);
    var (q1, e) := DetachAt(q, m);
    return Ok((q1, q1.objs[e].value));
  }

  /** `update_key`: overwrite the key; the element stays where it is. */
  function UpdateKey<V>(q: Queue<V>, h: Handle, k: Key): (r: Queue<V>)
    requires WellFormed(q) && h in q.slots
    ensures WellFormed(r) && r.slots == q.slots && r.next == q.next
    ensures h in Entries(q) && Entries(r) == Entries(q)[h := (k, Entries(q)[h].1)]
  {
    SetKey(q, h, k)
  }

  /** `remove`: `IndexError` on an empty queue; else swap the element with the last one,
      record the moved element's slot, pop, and return the popped key and value. */
  function Remove<V>(q: Queue<V>, h: Handle): (r: Result<(Queue<V>, (Key, V)), QueueError>)
    requires WellFormed(q) && (|q.slots| > 0 ==> h in q.slots)
    ensures r.Err? <==> |q.slots| == 0
    ensures r.Ok? ==>
              && h in Entries(q) && r.value.1 == Entries(q)[h]
              && WellFormed(r.value.0) && r.value.0.next == q.next
              && r.value.0.slots == q.slots[q.objs[h].index := q.slots[|q.slots| - 1]][..|q.slots| - 1]
              && Entries(r.value.0) == Entries(q) - {h}
  {
    if |q.slots| < 1 then Err(EmptyQueue)
    else
      SlotOfHandle(q, h);
      var (q1, e) := DetachAt(q, q.objs[h].index);
      Ok((q1, (q1.objs[e].key, q1.objs[e].value)))
  }
}
