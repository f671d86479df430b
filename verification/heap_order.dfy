/**
 Binary min-heap order over a 0-based key sequence (children of `i` at `2i+1` and `2i+2`),
 the two "broken at one slot" states that sifting repairs, and the steps that repair them.
 */
module HeapOrder {
  import opened Priorities

  function Parent(c: nat): nat
    requires c > 0
  {
    (c - 1) / 2
  }

  lemma ParentOfChild(i: nat, c: nat)
    requires c > 0
    ensures Parent(c) == i <==> c == 2 * i + 1 || c == 2 * i + 2
    ensures Parent(c) < c
  {
  }

  /** No key is smaller than its parent's. */
  ghost predicate HeapOrdered(ks: seq<Key>) {
    forall c :: 0 < c < |ks| ==> Le(ks[Parent(c)], ks[c])
  }

  /** Ordered except that slot `i` may be smaller than its parent; `i`'s parent is still
      no larger than `i`'s children. This is what sifting up from `i` repairs. */
  ghost predicate HeapExceptUp(ks: seq<Key>, i: nat) {
    && (forall c :: 0 < c < |ks| && c != i ==> Le(ks[Parent(c)], ks[c]))
    && (0 < i < |ks| ==> forall c :: 0 < c < |ks| && Parent(c) == i ==> Le(ks[Parent(i)], ks[c]))
  }

  /** Ordered except that slot `i` may be larger than its children; `i`'s parent is still
      no larger than `i`'s children. This is what sifting down from `i` repairs. */
  ghost predicate HeapExceptDown(ks: seq<Key>, i: nat) {
    && (forall c :: 0 < c < |ks| && Parent(c) != i ==> Le(ks[Parent(c)], ks[c]))
    && (0 < i < |ks| ==> forall c :: 0 < c < |ks| && Parent(c) == i ==> Le(ks[Parent(i)], ks[c]))
  }

  function Exchange(ks: seq<Key>, a: nat, b: nat): (r: seq<Key>)
    requires a < |ks| && b < |ks|
  {
    ks[a := ks[b]][b := ks[a]]
  }

  /** One sift-up swap moves the defect from `i` to its parent. */
  lemma SiftUpStep(ks: seq<Key>, i: nat)
    requires 0 < i < |ks| && HeapExceptUp(ks, i) && Less(ks[i], ks[Parent(i)])
    ensures HeapExceptUp(Exchange(ks, i, Parent(i)), Parent(i))
  {
    var p := Parent(i);
    var r := Exchange(ks, i, p);
    forall c | 0 < c < |r| && c != p
      ensures Le(r[Parent(c)], r[c])
    {
      LessIsStrictTotalOrder(ks[i], ks[p], ks[c]);
      if c != i && Parent(c) == p {
        LessIsStrictTotalOrder(ks[i], ks[p], ks[c]);
        assert Le(ks[p], ks[c]);
      } else if Parent(c) == i {
        assert Le(ks[p], ks[c]);
      }
    }
    if 0 < p {
      forall c | 0 < c < |r| && Parent(c) == p
        ensures Le(r[Parent(p)], r[c])
      {
        var g := Parent(p);
        assert Le(ks[g], ks[p]);
        if c != i {
          LessIsStrictTotalOrder(ks[c], ks[p], ks[g]);
        }
      }
    }
  }

  /** Sifting up stops at the root or below a parent that is no larger: the heap is whole. */
  lemma SiftUpDone(ks: seq<Key>, i: nat)
    requires i < |ks| && HeapExceptUp(ks, i)
    requires i == 0 || Le(ks[Parent(i)], ks[i])
    ensures HeapOrdered(ks)
  {
  }

  /** One sift-down swap with a smallest child `m` moves the defect from `i` to `m`. */
  lemma SiftDownStep(ks: seq<Key>, i: nat, m: nat)
    requires m < |ks| && 0 < m && Parent(m) == i && HeapExceptDown(ks, i)
    requires forall c :: 0 < c < |ks| && Parent(c) == i ==> Le(ks[m], ks[c])
    requires Le(ks[m], ks[i])
    ensures HeapExceptDown(Exchange(ks, i, m), m)
  {
    var r := Exchange(ks, i, m);
    ParentOfChild(i, m);
    forall c | 0 < c < |r| && Parent(c) != m
      ensures Le(r[Parent(c)], r[c])
    {
      if c == i {
        assert Le(ks[Parent(i)], ks[m]);
      } else if Parent(c) == i && c != m {
        assert Le(ks[m], ks[c]);
      }
    }
    forall c | 0 < c < |r| && Parent(c) == m
      ensures Le(r[Parent(m)], r[c])
    {
      ParentOfChild(m, c);
      assert Le(ks[m], ks[c]);
    }
  }

  /** Sifting down stops when no child is smaller: the heap is whole. */
  lemma SiftDownDone(ks: seq<Key>, i: nat)
    requires HeapExceptDown(ks, i)
    requires forall c :: 0 < c < |ks| && Parent(c) == i ==> Le(ks[i], ks[c])
    ensures HeapOrdered(ks)
  {
  }

  /** Sifting down also stops when `i` is strictly below a smallest child `m`. */
  lemma SmallestChildAbove(ks: seq<Key>, i: nat, m: nat)
    requires m < |ks| && 0 < m && Parent(m) == i && HeapExceptDown(ks, i)
    requires forall c :: 0 < c < |ks| && Parent(c) == i ==> Le(ks[m], ks[c])
    requires Less(ks[i], ks[m])
    ensures HeapOrdered(ks)
  {
    forall c | 0 < c < |ks| && Parent(c) == i
      ensures Le(ks[i], ks[c])
    {
      LessIsStrictTotalOrder(ks[i], ks[m], ks[c]);
    }
    SiftDownDone(ks, i);
  }

  /** A heap-ordered sequence has its minimum at the root. */
  lemma {:induction false} RootIsMinimum(ks: seq<Key>, j: nat)
    requires HeapOrdered(ks) && j < |ks|
    ensures Le(ks[0], ks[j])
    decreases j
  {
    if j > 0 {
      var p := Parent(j);
      RootIsMinimum(ks, p);
      LessIsStrictTotalOrder(ks[j], ks[p], ks[0]);
    }
  }

  /** Appending a key to a heap leaves a defect only upward from the new last slot. */
  lemma AppendedKeySiftsUp(ks: seq<Key>, k: Key)
    requires HeapOrdered(ks)
    ensures HeapExceptUp(ks + [k], |ks|)
  {
    var r := ks + [k];
    forall c | 0 < c < |r| && c != |ks|
      ensures Le(r[Parent(c)], r[c])
    {
      assert r[c] == ks[c] && r[Parent(c)] == ks[Parent(c)];
    }
  }

  /** Lowering the key at `i` in a heap leaves a defect only upward from `i`. */
  lemma DecreasedKeySiftsUp(ks: seq<Key>, i: nat, k: Key)
    requires HeapOrdered(ks) && i < |ks| && Less(k, ks[i])
    ensures HeapExceptUp(ks[i := k], i)
  {
    var r := ks[i := k];
    forall c | 0 < c < |r| && c != i
      ensures Le(r[Parent(c)], r[c])
    {
      if Parent(c) == i {
        LessIsStrictTotalOrder(k, ks[i], ks[c]);
      }
    }
    if 0 < i {
      forall c | 0 < c < |r| && Parent(c) == i
        ensures Le(r[Parent(i)], r[c])
      {
        LessIsStrictTotalOrder(ks[c], ks[i], ks[Parent(i)]);
      }
    }
  }

  /** Raising (or keeping) the key at `i` in a heap leaves a defect only downward from `i`. */
  lemma IncreasedKeySiftsDown(ks: seq<Key>, i: nat, k: Key)
    requires HeapOrdered(ks) && i < |ks| && Le(ks[i], k)
    ensures HeapExceptDown(ks[i := k], i)
  {
    var r := ks[i := k];
    forall c | 0 < c < |r| && Parent(c) != i
      ensures Le(r[Parent(c)], r[c])
    {
      if c == i {
        LessIsStrictTotalOrder(k, ks[i], ks[Parent(i)]);
      }
    }
    if 0 < i {
      forall c | 0 < c < |r| && Parent(c) == i
        ensures Le(r[Parent(i)], r[c])
      {
        LessIsStrictTotalOrder(ks[c], ks[i], ks[Parent(i)]);
      }
    }
  }

  /** Overwriting slot `k` of a heap with its last key and dropping the last slot leaves a
      defect in one direction only: downward if the key grew, upward if it shrank. In the
      second case the new key is strictly below both children, so sifting down stops at once. */
  lemma MovedLastKeySifts(ks: seq<Key>, k: nat)
    requires HeapOrdered(ks) && k < |ks| - 1
    ensures var n := |ks| - 1; var r := ks[k := ks[n]][..n];
            && (Le(ks[k], ks[n]) ==> HeapExceptDown(r, k))
            && (Less(ks[n], ks[k]) ==> HeapExceptUp(r, k))
            && (Less(ks[n], ks[k]) ==> forall c :: 0 < c < n && Parent(c) == k ==> Less(r[k], r[c]))
  {
    var n := |ks| - 1;
    if Le(ks[k], ks[n]) {
      MovedLastKeyGrew(ks, k);
    } else {
      MovedLastKeyShrank(ks, k);
    }
  }

  lemma MovedLastKeyGrew(ks: seq<Key>, k: nat)
    requires HeapOrdered(ks) && k < |ks| - 1 && Le(ks[k], ks[|ks| - 1])
    ensures HeapExceptDown(ks[k := ks[|ks| - 1]][..|ks| - 1], k)
  {
    var n := |ks| - 1;
    var w := ks[k := ks[n]];
    IncreasedKeySiftsDown(ks, k, ks[n]);
    PrefixIsHeapExceptDown(w, n, k);
  }

  lemma MovedLastKeyShrank(ks: seq<Key>, k: nat)
    requires HeapOrdered(ks) && k < |ks| - 1 && Less(ks[|ks| - 1], ks[k])
    ensures var n := |ks| - 1; var r := ks[k := ks[n]][..n];
            && HeapExceptUp(r, k)
            && forall c :: 0 < c < n && Parent(c) == k ==> Less(r[k], r[c])
  {
    var n := |ks| - 1;
    var w := ks[k := ks[n]];
    var r := w[..n];
    DecreasedKeySiftsUp(ks, k, ks[n]);
    forall c | 0 < c < n && c != k
      ensures Le(r[Parent(c)], r[c])
    {
      assert r[c] == w[c] && r[Parent(c)] == w[Parent(c)];
    }
    forall c | 0 < c < n && Parent(c) == k
      ensures Less(r[k], r[c])
    {
      assert Le(ks[k], ks[c]);
      LessIsStrictTotalOrder(ks[n], ks[k], ks[c]);
    }
  }

  /** Replacing the root of a heap leaves a defect only downward from the root. */
  lemma ReplacedRootSiftsDown(ks: seq<Key>, x: Key)
    requires HeapOrdered(ks) && 0 < |ks|
    ensures HeapExceptDown(ks[0 := x], 0)
  {
    var r := ks[0 := x];
    forall c | 0 < c < |r| && Parent(c) != 0
      ensures Le(r[Parent(c)], r[c])
    {
      assert r[c] == ks[c] && r[Parent(c)] == ks[Parent(c)];
    }
  }

  /** Dropping trailing slots keeps a heap a heap. */
  lemma PrefixIsHeap(ks: seq<Key>, n: nat)
    requires HeapOrdered(ks) && n <= |ks|
    ensures HeapOrdered(ks[..n])
  {
    var r := ks[..n];
    forall c | 0 < c < n
      ensures Le(r[Parent(c)], r[c])
    {
      assert r[c] == ks[c] && r[Parent(c)] == ks[Parent(c)];
    }
  }

  /** Dropping trailing slots keeps a downward defect at `i` a downward defect. */
  lemma PrefixIsHeapExceptDown(ks: seq<Key>, n: nat, i: nat)
    requires HeapExceptDown(ks, i) && n <= |ks|
    ensures HeapExceptDown(ks[..n], i)
  {
    var r := ks[..n];
    forall c | 0 < c < n && Parent(c) != i
      ensures Le(r[Parent(c)], r[c])
    {
      assert r[c] == ks[c] && r[Parent(c)] == ks[Parent(c)];
    }
  }
}
