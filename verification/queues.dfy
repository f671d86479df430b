/**
 The state shared by both adaptable priority queues (the `APQ` base class and its `Element`).

 Python's `_queue` is a list of references to mutable `Element` objects, and the caller keeps
 a reference to the same object as its handle. The model keeps the two apart: `slots` is the
 list of references and `objs` is the store of objects, keyed by object identity (a `Handle`).
 A stale `.index` field is therefore representable, and an object popped from the list keeps
 existing in `objs` just as the Python object outlives its slot.
 */
module Queues {
  import opened Priorities
  import opened Seqs

  /** Identity of an `Element` object; `add` hands out `next` and bumps it. */
  type Handle = nat

  /** `Element(key, value, index)`; only `key` takes part in comparisons. */
  datatype Elem<V> = Elem(key: Key, value: V, index: nat)

  datatype Queue<V> = Queue(slots: seq<Handle>, objs: map<Handle, Elem<V>>, next: Handle)

  datatype QueueError = EmptyQueue

  /** The dataclass's generated `<` (`order=True`, `value`/`index` declared `compare=False`). */
  predicate ElemLess<V>(a: Elem<V>, b: Elem<V>) {
    Less(a.key, b.key)
  }

  /** The dataclass's generated `==`. */
  predicate ElemEq<V>(a: Elem<V>, b: Elem<V>) {
    a.key == b.key
  }

  /** Comparisons see the key only: equality is exactly incomparability under `<`,
      and rewriting `value` or `index` never changes the outcome of a comparison. */
  lemma ElementComparisonIsByKey<V>(a: Elem<V>, b: Elem<V>, v: V, i: nat)
    ensures ElemEq(a, b) <==> !ElemLess(a, b) && !ElemLess(b, a)
    ensures ElemLess(a, b) <==> ElemLess(a.(value := v, index := i), b)
    ensures ElemEq(a, b) <==> ElemEq(a.(value := v, index := i), b)
    ensures ElemEq(Elem(Fin(1), v, 1), Elem(Fin(1), v, 2)) && ElemLess(Elem(Fin(1), v, 2), Elem(Fin(2), v, 3))
  {
    LessIsStrictTotalOrder(a.key, b.key, a.key);
  }

  /** Structural sanity: every slot refers to a distinct live object, and `next` is fresh. */
  ghost predicate Shaped<V>(q: Queue<V>) {
    && Distinct(q.slots)
    && (forall i :: 0 <= i < |q.slots| ==> q.slots[i] in q.objs)
    && (forall h :: h in q.objs ==> h < q.next)
  }

  /** Slot fidelity, `queue[i].index == i`, for every slot other than `skip`. */
  ghost predicate FaithfulExcept<V>(q: Queue<V>, skip: int)
    requires Shaped(q)
  {
    forall i :: 0 <= i < |q.slots| && i != skip ==> q.objs[q.slots[i]].index == i
  }

  ghost predicate Faithful<V>(q: Queue<V>)
    requires Shaped(q)
  {
    FaithfulExcept(q, -1)
  }

  ghost predicate WellFormed<V>(q: Queue<V>) {
    Shaped(q) && Faithful(q)
  }

  /** The abstract contents of the queue: each live handle with its current key and value. */
  function Entries<V>(q: Queue<V>): map<Handle, (Key, V)> {
    map h | h in q.slots && h in q.objs :: (q.objs[h].key, q.objs[h].value)
  }

  /** `h` is live and no live entry has a smaller key: what `min` and `remove_min` promise. */
  ghost predicate IsMinEntry<V>(q: Queue<V>, h: Handle) {
    h in Entries(q) && forall g :: g in Entries(q) ==> Le(Entries(q)[h].0, Entries(q)[g].0)
  }

  function KeyAt<V>(q: Queue<V>, i: nat): Key
    requires Shaped(q) && i < |q.slots|
  {
    q.objs[q.slots[i]].key
  }

  /** The keys in slot order. */
  function Keys<V>(q: Queue<V>): (ks: seq<Key>)
    requires Shaped(q)
    ensures |ks| == |q.slots|
    ensures forall i :: 0 <= i < |ks| ==> ks[i] == q.objs[q.slots[i]].key
  {
    seq(|q.slots|, i requires 0 <= i < |q.slots| => q.objs[q.slots[i]].key)
  }

  /** `APQ.length`: the number of live entries. */
  function Length<V>(q: Queue<V>): (n: nat)
    requires Shaped(q)
    ensures n == |Entries(q)|
  {
    EntriesSize(q);
    |q.slots|
  }

  /** `APQ.get_key`: the key the handle's object currently holds. */
  function GetKey<V>(q: Queue<V>, h: Handle): (k: Key)
    requires Shaped(q) && h in q.slots
    ensures h in Entries(q) && k == Entries(q)[h].0
  {
    q.objs[h].key
  }

  /** Prim's direct write `locs[w].value = ...`, which bypasses the APQ interface. */
  function SetValue<V>(q: Queue<V>, h: Handle, v: V): (r: Queue<V>)
    requires Shaped(q) && h in q.slots
    ensures Shaped(r) && r.slots == q.slots && Keys(r) == Keys(q)
    ensures Faithful(q) ==> Faithful(r)
    ensures Entries(r) == Entries(q)[h := (Entries(q)[h].0, v)]
  {
    var r := q.(objs := q.objs[h := q.objs[h].(value := v)]);
    assert Entries(r) == Entries(q)[h := (Entries(q)[h].0, v)];
    r
  }

  /** A handle in a faithful queue sits at the slot its object records. */
  lemma SlotOfHandle<V>(q: Queue<V>, h: Handle)
    requires WellFormed(q) && h in q.slots
    ensures q.objs[h].index < |q.slots| && q.slots[q.objs[h].index] == h
  {
    var j :| 0 <= j < |q.slots| && q.slots[j] == h;
    assert q.objs[q.slots[j]].index == j;
  }

  /** `|Entries|` is the number of slots, because slots are distinct. */
  lemma EntriesSize<V>(q: Queue<V>)
    requires Shaped(q)
    ensures |Entries(q)| == |q.slots|
  {
    DistinctCard(q.slots);
    assert Entries(q).Keys == Elems(q.slots);
  }

  /** The relation between two queue states produced by swaps and `.index` rewrites only:
      same objects with the same keys and values, same set of referenced handles. */
  ghost predicate Rearranged<V>(q: Queue<V>, r: Queue<V>) {
    && r.next == q.next
    && |r.slots| == |q.slots|
    && (forall h :: h in r.slots <==> h in q.slots)
    && r.objs.Keys == q.objs.Keys
    && (forall h :: h in q.objs ==> r.objs[h].key == q.objs[h].key && r.objs[h].value == q.objs[h].value)
  }

  lemma RearrangedEntries<V>(q: Queue<V>, r: Queue<V>)
    requires Rearranged(q, r)
    ensures Entries(r) == Entries(q)
  {
  }

  lemma RearrangedTrans<V>(a: Queue<V>, b: Queue<V>, c: Queue<V>)
    requires Rearranged(a, b) && Rearranged(b, c)
    ensures Rearranged(a, c)
    ensures IndicesInRangeKept(a, b) && IndicesInRangeKept(b, c) ==> IndicesInRangeKept(a, c)
  {
  }

  /** Every object index that pointed at a slot still does. */
  ghost predicate IndicesInRangeKept<V>(q: Queue<V>, r: Queue<V>)
    requires q.objs.Keys == r.objs.Keys
  {
    forall h :: h in q.objs && q.objs[h].index < |q.slots| ==> r.objs[h].index < |q.slots|
  }

  /** Exchange the references in slots `a` and `b` without touching any object. */
  function Swap<V>(q: Queue<V>, a: nat, b: nat): (r: Queue<V>)
    requires Shaped(q) && a < |q.slots| && b < |q.slots|
    ensures Shaped(r) && Rearranged(q, r) && r.objs == q.objs && Entries(r) == Entries(q)
    ensures r.slots == q.slots[a := q.slots[b]][b := q.slots[a]]
    ensures Keys(r) == Keys(q)[a := Keys(q)[b]][b := Keys(q)[a]]
  {
    var s := q.slots[a := q.slots[b]][b := q.slots[a]];
    SwapMembers(q.slots, a, b);
    Queue(s, q.objs, q.next)
  }

  /** Exchange slots `a` and `b` and record each moved object's new slot, as every swap
      inside `_bubble_up` and `_bubble_down` does. */
  function SwapFix<V>(q: Queue<V>, a: nat, b: nat): (r: Queue<V>)
    requires Shaped(q) && a < |q.slots| && b < |q.slots|
    ensures Shaped(r) && Rearranged(q, r) && IndicesInRangeKept(q, r) && Entries(r) == Entries(q)
    ensures r.slots == q.slots[a := q.slots[b]][b := q.slots[a]]
    ensures Keys(r) == Keys(q)[a := Keys(q)[b]][b := Keys(q)[a]]
    ensures r.objs[r.slots[a]].index == a && r.objs[r.slots[b]].index == b
    ensures forall i :: 0 <= i < |q.slots| && i != a && i != b ==> r.objs[r.slots[i]] == q.objs[q.slots[i]]
    ensures forall h :: h in q.objs && h != q.slots[a] && h != q.slots[b] ==> r.objs[h] == q.objs[h]
  {
    var s := Swap(q, a, b);
    var o1 := s.objs[s.slots[a] := s.objs[s.slots[a]].(index := a)];
    var o2 := o1[s.slots[b] := o1[s.slots[b]].(index := b)];
    SwapFixShape(q, s, Queue(s.slots, o2, q.next), a, b);
    Queue(s.slots, o2, q.next)
  }

  lemma SwapFixShape<V>(q: Queue<V>, s: Queue<V>, r: Queue<V>, a: nat, b: nat)
    requires Shaped(q) && a < |q.slots| && b < |q.slots|
    requires Shaped(s) && s.objs == q.objs && s.next == q.next
    requires s.slots == q.slots[a := q.slots[b]][b := q.slots[a]] && (forall h :: h in s.slots <==> h in q.slots)
    requires r.slots == s.slots && r.next == q.next
    requires r.objs == s.objs[s.slots[a] := s.objs[s.slots[a]].(index := a)][s.slots[b] := s.objs[s.slots[b]].(index := b)]
    ensures Shaped(r) && Rearranged(q, r) && IndicesInRangeKept(q, r) && Entries(r) == Entries(q)
    ensures Keys(r) == Keys(q)[a := Keys(q)[b]][b := Keys(q)[a]]
    ensures r.objs[r.slots[a]].index == a && r.objs[r.slots[b]].index == b
    ensures forall i :: 0 <= i < |q.slots| && i != a && i != b ==> r.objs[r.slots[i]] == q.objs[q.slots[i]]
    ensures forall h :: h in q.objs && h != q.slots[a] && h != q.slots[b] ==> r.objs[h] == q.objs[h]
  {
    assert Rearranged(q, r);
    RearrangedEntries(q, r);
    forall i | 0 <= i < |q.slots| && i != a && i != b
      ensures r.objs[r.slots[i]] == q.objs[q.slots[i]]
    {
      assert r.slots[i] == q.slots[i] && q.slots[i] != q.slots[a] && q.slots[i] != q.slots[b];
    }
  }

  /** `element.index = j`: rewrites one object's recorded slot and nothing else. */
  function SetIndex<V>(q: Queue<V>, h: Handle, j: nat): (r: Queue<V>)
    requires Shaped(q) && h in q.objs
    ensures Shaped(r) && Rearranged(q, r) && r.slots == q.slots && Keys(r) == Keys(q) && Entries(r) == Entries(q)
    ensures r.objs[h].index == j && forall g :: g in q.objs && g != h ==> r.objs[g] == q.objs[g]
  {
    q.(objs := q.objs[h := q.objs[h].(index := j)])
  }

  /** Recording the true slot of the one element whose slot was wrong restores fidelity. */
  lemma SetIndexRepairs<V>(q: Queue<V>, j: nat)
    requires Shaped(q) && j < |q.slots| && FaithfulExcept(q, j)
    ensures Faithful(SetIndex(q, q.slots[j], j))
  {
    var r := SetIndex(q, q.slots[j], j);
    forall i | 0 <= i < |q.slots| && i != j
      ensures r.objs[r.slots[i]].index == i
    {
      assert q.slots[i] != q.slots[j];
    }
  }

  /** `element.key = k`: rewrites one object's key and nothing else. */
  function SetKey<V>(q: Queue<V>, h: Handle, k: Key): (r: Queue<V>)
    requires Shaped(q) && h in q.slots
    ensures Shaped(r) && r.slots == q.slots && r.next == q.next && r.objs.Keys == q.objs.Keys
    ensures r.objs[h].key == k && r.objs[h].value == q.objs[h].value && r.objs[h].index == q.objs[h].index
    ensures forall g :: g in q.objs && g != h ==> r.objs[g] == q.objs[g]
    ensures Faithful(q) ==> Faithful(r)
    ensures Entries(r) == Entries(q)[h := (k, Entries(q)[h].1)]
  {
    var r := q.(objs := q.objs[h := q.objs[h].(key := k)]);
    assert Entries(r) == Entries(q)[h := (k, Entries(q)[h].1)];
    r
  }

  /** `e = Element(k, v, index); queue.append(e)`: a fresh object referenced from a new last slot. */
  function Append<V>(q: Queue<V>, k: Key, v: V, index: nat): (r: Queue<V>)
    requires WellFormed(q)
    ensures Shaped(r) && r.slots == q.slots + [q.next] && r.next == q.next + 1
    ensures q.next !in q.objs && q.next !in Entries(q) && q.next in r.objs && r.objs[q.next] == Elem(k, v, index)
    ensures forall g :: g in q.objs ==> g in r.objs && r.objs[g] == q.objs[g]
    ensures Keys(r) == Keys(q) + [k] && Entries(r) == Entries(q)[q.next := (k, v)]
    ensures FaithfulExcept(r, |q.slots|)
    ensures index == |q.slots| ==> Faithful(r)
  {
    var h := q.next;
    var r := Queue(q.slots + [h], q.objs[h := Elem(k, v, index)], q.next + 1);
    assert h !in q.objs;
    assert h !in q.slots;
    AppendShaped(q, r, h);
    assert Keys(r) == Keys(q) + [k];
    assert Entries(r) == Entries(q)[h := (k, v)];
    r
  }

  lemma AppendShaped<V>(q: Queue<V>, r: Queue<V>, h: Handle)
    requires WellFormed(q) && h == q.next && h !in q.slots && h in r.objs
    requires r.slots == q.slots + [h] && r.next == h + 1
    requires forall g :: g in q.objs ==> g in r.objs && r.objs[g] == q.objs[g]
    requires forall g :: g in r.objs ==> g in q.objs || g == h
    ensures Shaped(r) && FaithfulExcept(r, |q.slots|)
  {
    forall i, j | 0 <= i < j < |r.slots|
      ensures r.slots[i] != r.slots[j]
    {
      if j == |q.slots| {
        assert r.slots[i] == q.slots[i];
      }
    }
    forall i | 0 <= i < |q.slots|
      ensures r.slots[i] == q.slots[i] && r.objs[r.slots[i]] == q.objs[q.slots[i]]
    {
    }
  }

  /** After `SwapFix`, fidelity that failed only at `a` or only at `b` holds everywhere. */
  lemma SwapFixRepairs<V>(q: Queue<V>, a: nat, b: nat, skip: int)
    requires Shaped(q) && a < |q.slots| && b < |q.slots| && a != b
    requires FaithfulExcept(q, skip) && (skip == a || skip == b || skip == -1)
    ensures Faithful(SwapFix(q, a, b))
  {
  }

  lemma SwapMembers<T>(s: seq<T>, a: nat, b: nat)
    requires a < |s| && b < |s|
    ensures forall x :: x in s[a := s[b]][b := s[a]] <==> x in s
    ensures Distinct(s) ==> Distinct(s[a := s[b]][b := s[a]])
  {
    var t := s[a := s[b]][b := s[a]];
    forall x | x in s
      ensures x in t
    {
      var i :| 0 <= i < |s| && s[i] == x;
      if i == a {
        assert t[b] == x;
      } else if i == b {
        assert t[a] == x;
      } else {
        assert t[i] == x;
      }
    }
  }

  /** Dropping the last slot removes exactly that handle from the abstract contents. */
  lemma PopEntries<V>(q: Queue<V>, r: Queue<V>)
    requires Shaped(q) && |q.slots| > 0
    requires r.slots == q.slots[..|q.slots| - 1] && r.objs.Keys == q.objs.Keys
    requires forall h :: h in q.objs ==> r.objs[h].key == q.objs[h].key && r.objs[h].value == q.objs[h].value
    ensures Entries(r) == Entries(q) - {q.slots[|q.slots| - 1]}
  {
    var last := q.slots[|q.slots| - 1];
    forall h | h in q.slots && h != last
      ensures h in r.slots
    {
      var i :| 0 <= i < |q.slots| && q.slots[i] == h;
      assert r.slots[i] == h;
    }
    assert last !in r.slots;
  }

  /** Swap slot `k` with the last slot, record the moved element's new slot `k`, and pop the
      last slot: `_swap_with_end(e)` followed by `pop()` in the unsorted list, and the first
      half of the heap's `remove_min` for `k == 0`. Returns the shortened queue and the
      popped handle, whose object is left as it was. */
  function DetachAt<V>(q: Queue<V>, k: nat): (r: (Queue<V>, Handle))
    requires WellFormed(q) && k < |q.slots|
    ensures WellFormed(r.0) && |r.0.slots| == |q.slots| - 1 && r.0.next == q.next
    ensures r.1 == q.slots[k] && r.1 in Entries(q) && Entries(r.0) == Entries(q) - {r.1}
    ensures r.0.objs.Keys == q.objs.Keys && r.0.objs[r.1] == q.objs[r.1]
    ensures var n := |q.slots| - 1; r.0.slots == q.slots[k := q.slots[n]][..n]
    ensures var n := |q.slots| - 1; Keys(r.0) == Keys(q)[k := Keys(q)[n]][..n]
  {
    var n := |q.slots| - 1;
    var q1 := Swap(q, k, n);
    var q2 := SetIndex(q1, q1.slots[k], k);
    var q3 := q2.(slots := q2.slots[..n]);
    PopEntries(q2, q3);
    DetachedShape(q, q1, q2, q3, k);
    (q3, q.slots[k])
  }

  lemma DetachedShape<V>(q: Queue<V>, q1: Queue<V>, q2: Queue<V>, q3: Queue<V>, k: nat)
    requires WellFormed(q) && k < |q.slots|
    requires Shaped(q1) && q1.objs == q.objs && q1.next == q.next
    requires q1.slots == q.slots[k := q.slots[|q.slots| - 1]][|q.slots| - 1 := q.slots[k]]
    requires Keys(q1) == Keys(q)[k := Keys(q)[|q.slots| - 1]][|q.slots| - 1 := Keys(q)[k]]
    requires Shaped(q2) && q2.slots == q1.slots && Keys(q2) == Keys(q1) && q2.next == q1.next
    requires q2.objs == q1.objs[q1.slots[k] := q1.objs[q1.slots[k]].(index := k)]
    requires q3 == q2.(slots := q2.slots[..|q.slots| - 1])
    ensures WellFormed(q3) && |q3.slots| == |q.slots| - 1
    ensures q3.objs[q.slots[k]] == q.objs[q.slots[k]]
    ensures Keys(q3) == Keys(q)[k := Keys(q)[|q.slots| - 1]][..|q.slots| - 1]
  {
    var n := |q.slots| - 1;
    assert Distinct(q3.slots) by {
      forall i, j | 0 <= i < j < n
        ensures q3.slots[i] != q3.slots[j]
      {
        assert q3.slots[i] == q1.slots[i] && q3.slots[j] == q1.slots[j];
      }
    }
    forall i | 0 <= i < n
      ensures q3.objs[q3.slots[i]].index == i
    {
      if i != k {
        assert q3.slots[i] == q.slots[i] && q.slots[i] != q.slots[k];
      }
    }
    assert Keys(q3) == Keys(q2)[..n];
    if k == n {
      assert q.objs[q.slots[k]].index == k;
    }
  }
}
