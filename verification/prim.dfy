/**
 `prim(g, apq)` of main.py, generic over the queue implementation, with `prim_heap` and
 `prim_unsorted_list` as its two instantiations.

 Every vertex is queued at key infinity with no edge; the loop takes the entry
 `remove_min` returns, appends its edge (if any) to the tree, and lowers each still-queued
 neighbour's key to the weight of a cheaper connecting edge, storing that edge with it.
 The ghost outputs record the run: `order` lists the vertices in the order they were taken,
 and tree edge `i` was appended when `order[at[i]]` was taken and stored while relaxing the
 edges of the earlier `order[from[i]]`.
 */
module Prim {
  import opened Priorities
  import opened Results
  import opened Seqs
  import opened Queues
  import opened Graphs
  import opened Apqs

  /** The queued value: a vertex and the edge that last lowered its key, if any. */
  type Item = (Vertex, Option<Edge>)

  /** `locs`: the element of each vertex still queued. */
  type Locs = map<Vertex, Handle>

  /** The queue's entries `es` are exactly the elements `locs` records, and each names its
      vertex. */
  ghost predicate Located(es: map<Handle, (Key, Item)>, locs: Locs) {
    && (forall v :: v in locs ==> locs[v] in es && es[locs[v]].1.0 == v)
    && (forall h :: h in es ==> es[h].1.0 in locs && locs[es[h].1.0] == h)
  }

  lemma LocatedAdd(es: map<Handle, (Key, Item)>, locs: Locs, h: Handle, k: Key, v: Vertex, d: Option<Edge>)
    requires Located(es, locs) && h !in es && v !in locs
    ensures Located(es[h := (k, (v, d))], locs[v := h])
  {
  }

  lemma LocatedSet(es: map<Handle, (Key, Item)>, locs: Locs, w: Vertex, k: Key, d: Option<Edge>)
    requires Located(es, locs) && w in locs
    ensures Located(es[locs[w] := (k, (w, d))], locs)
  {
  }

  /** Removing an entry removes the vertex it names, which `locs` mapped to it. */
  lemma LocatedRemove(es: map<Handle, (Key, Item)>, locs: Locs, h: Handle)
    requires Located(es, locs) && h in es
    ensures es[h].1.0 in locs && locs[es[h].1.0] == h
    ensures Located(es - {h}, locs - {es[h].1.0})
  {
  }

  /** Each vertex is either taken (once) or still queued, never both. */
  ghost predicate Partition(g: Graph, locs: Locs, order: seq<Vertex>) {
    && Distinct(order)
    && (forall v :: v in order ==> v in g.adj && v !in locs)
    && (forall v :: v in locs <==> v in g.adj && v !in order)
  }

  /** A queued entry is untouched, `(inf, (v, None))`, or carries the edge `d` that last
      lowered it, at the key `d.weight`; `d` is stored at the taken vertex `order[src[v]]`
      and leads from it to `v`. */
  ghost predicate Labelled(g: Graph, es: map<Handle, (Key, Item)>, locs: Locs, order: seq<Vertex>, src: map<Vertex, nat>) {
    forall v :: v in locs ==> locs[v] in es && CameFrom(g, es[locs[v]], v, order, src)
  }

  ghost predicate CameFrom(g: Graph, e: (Key, Item), v: Vertex, order: seq<Vertex>, src: map<Vertex, nat>) {
    match e.1.1
    case None => e.0 == Inf
    case Some(d) =>
      && e.0 == Fin(d.weight) && v in src && src[v] < |order|
      && Stores(g, order[src[v]], d) && Opposite(d, order[src[v]]) == v
  }

  /** `d` is one of the edges stored at `u`. */
  ghost predicate Stores(g: Graph, u: Vertex, d: Edge) {
    u in g.adj && d in g.adj[u].Values
  }

  /** Every edge stored at a taken vertex has brought the key of its queued far end down to
      at most its weight. */
  ghost predicate Bounded(g: Graph, es: map<Handle, (Key, Item)>, locs: Locs, order: seq<Vertex>) {
    forall j, d :: 0 <= j < |order| && Stores(g, order[j], d) ==> Settled(es, locs, order[j], d)
  }

  /** The tree grows by attaching each newly taken vertex to an earlier one. */
  ghost predicate Grown(g: Graph, tree: seq<Edge>, order: seq<Vertex>, from: seq<nat>, at: seq<nat>) {
    && |from| == |tree| && |at| == |tree|
    && (forall i :: 0 <= i < |tree| ==>
          && from[i] < at[i] < |order|
          && Stores(g, order[from[i]], tree[i]) && Opposite(tree[i], order[from[i]]) == order[at[i]])
    && (forall i, j :: 0 <= i < j < |tree| ==> at[i] < at[j])
  }

  /** Every queued entry is still untouched: key infinity, no edge. */
  ghost predicate Untouched(es: map<Handle, (Key, Item)>, locs: Locs) {
    forall v :: v in locs ==> locs[v] in es && es[locs[v]] == (Inf, (v, None))
  }

  lemma NothingQueued()
    ensures Located(map[], map[]) && Untouched(map[], map[])
  {
  }

  lemma UntouchedAdd(es: map<Handle, (Key, Item)>, locs: Locs, h: Handle, v: Vertex)
    requires Located(es, locs) && Untouched(es, locs) && h !in es && v !in locs
    ensures Located(es[h := (Inf, (v, None))], locs[v := h]) && Untouched(es[h := (Inf, (v, None))], locs[v := h])
  {
  }

  /** The initial loop: every vertex queued once at key infinity with no edge. */
  method Init(g: Graph, impl: Impl) returns (q: Queue<Item>, locs: Locs)
    ensures Inv(impl, q) && Located(Entries(q), locs) && locs.Keys == g.adj.Keys
    ensures Untouched(Entries(q), locs)
  {
    hide Entries, Inv, Located, Untouched;
    var vs := Vertices(g);
    q := Empty(impl);
    locs := map[];
    NothingQueued();
    for i := 0 to |vs|
      invariant Inv(impl, q) && Located(Entries(q), locs) && Untouched(Entries(q), locs)
      invariant forall v :: v in locs <==> exists j :: 0 <= j < i && vs[j] == v
    {
      var v := vs[i];
      var q', h := Add(impl, q, Inf, (v, None));
      UntouchedAdd(Entries(q), locs, h, v);
      q, locs := q', locs[v := h];
    }
    forall v | v in g.adj
      ensures v in locs
    {
      assert v in vs;
    }
  }

  /** The `for d in g.get_edges(v)` loop: each still-queued far end whose key exceeds the
      edge's weight gets that edge and that weight. Returns the queue and, as a ghost, the
      vertices whose entries were lowered. */
  method Relax(g: Graph, impl: Impl, q: Queue<Item>, locs: Locs, v: Vertex) returns (r: Queue<Item>, ghost lowered: set<Vertex>)
    requires Inv(impl, q) && Located(Entries(q), locs) && v in g.adj
    ensures Inv(impl, r) && |r.slots| == |q.slots| && r.next == q.next
    ensures Relaxed(g, Entries(q), Entries(r), locs, v, lowered)
    ensures forall d :: d in g.adj[v].Values ==> Settled(Entries(r), locs, v, d)
  {
    hide Entries, Inv, Relaxed;
    var edges, nbrs := GetEdges(g, v);
    var es := edges.value;
    r := q;
    lowered := {};
    ghost var start := Entries(q);
    NothingRelaxed(g, start, locs, v);
    for i := 0 to |es|
      invariant Inv(impl, r) && |r.slots| == |q.slots| && r.next == q.next
      invariant Relaxed(g, start, Entries(r), locs, v, lowered)
      invariant forall k :: 0 <= k < i ==> Settled(Entries(r), locs, v, es[k])
    {
      assert es[i] in g.adj[v].Values by {
        assert g.adj[v][nbrs[i]] == es[i];
      }
      ghost var before := Entries(r);
      r, lowered := RelaxEdge(g, impl, r, locs, v, es[i], start, lowered);
      forall k | 0 <= k < i + 1
        ensures Settled(Entries(r), locs, v, es[k])
      {
        if k < i {
          assert Settled(before, locs, v, es[k]);
        }
      }
    }
    forall d | d in g.adj[v].Values
      ensures Settled(Entries(r), locs, v, d)
    {
      var y :| y in g.adj[v] && g.adj[v][y] == d;
      assert y in nbrs;
      var k :| 0 <= k < |nbrs| && nbrs[k] == y;
    }
  }

  /** One pass of the loop body: `w = d.opposite(v)`; if `w` is queued and `d.weight` is
      below its key, store `(w, d)` in its element and lower its key to `d.weight`. */
  method RelaxEdge(g: Graph, impl: Impl, q: Queue<Item>, locs: Locs, v: Vertex, d: Edge,
                   ghost start: map<Handle, (Key, Item)>, ghost lowered: set<Vertex>)
    returns (r: Queue<Item>, ghost lowered': set<Vertex>)
    requires Inv(impl, q) && v in g.adj && d in g.adj[v].Values
    requires Relaxed(g, start, Entries(q), locs, v, lowered)
    ensures Inv(impl, r) && |r.slots| == |q.slots| && r.next == q.next
    ensures Relaxed(g, start, Entries(r), locs, v, lowered')
    ensures Settled(Entries(r), locs, v, d)
    ensures forall d' :: Settled(Entries(q), locs, v, d') ==> Settled(Entries(r), locs, v, d')
    ensures var w := Opposite(d, v);
            Entries(r) == if w in locs && Less(Fin(d.weight), Entries(q)[locs[w]].0)
                          then Entries(q)[locs[w] := (Fin(d.weight), (w, Some(d)))]
                          else Entries(q)
  {
    hide Entries, Inv;
    r, lowered' := q, lowered;
    var w := Opposite(d, v);
    if w in locs {
      var h := locs[w];
      var cost := d.weight;
      var key := Apqs.GetKey(impl, r, h);
      if Less(Fin(cost), key) {
        r := Apqs.SetValue(impl, r, h, (w, Some(d)));
        r := UpdateKey(impl, r, h, Fin(cost));
        assert Entries(r) == Entries(q)[h := (Fin(cost), (w, Some(d)))];
        RelaxOne(g, start, Entries(q), locs, v, lowered, d);
        lowered' := lowered + {w};
      }
    }
  }

  /** After relaxing some of `v`'s edges: the same vertices are queued, and each entry is
      either as it was in `start` or was lowered by an edge stored at `v`. */
  ghost predicate Relaxed(g: Graph, start: map<Handle, (Key, Item)>, es: map<Handle, (Key, Item)>, locs: Locs, v: Vertex, lowered: set<Vertex>) {
    && Located(start, locs) && Located(es, locs) && lowered <= locs.Keys
    && (forall y :: y in locs && y !in lowered ==> es[locs[y]] == start[locs[y]])
    && (forall y :: y in lowered ==> Lowered(g, start[locs[y]], es[locs[y]], v, y))
  }

  lemma NothingRelaxed(g: Graph, es: map<Handle, (Key, Item)>, locs: Locs, v: Vertex)
    requires Located(es, locs)
    ensures Relaxed(g, es, es, locs, v, {})
  {
  }

  /** The far end of `d` from `v`, if still queued, has a key no larger than `d`'s weight. */
  ghost predicate Settled(es: map<Handle, (Key, Item)>, locs: Locs, v: Vertex, d: Edge) {
    var w := Opposite(d, v);
    w in locs && locs[w] in es ==> Le(es[locs[w]].0, Fin(d.weight))
  }

  /** One relaxation that lowers the far end `w` of `d`: the relaxed state is kept, `d`
      becomes settled, and every key at most stays where it was. */
  lemma RelaxOne(g: Graph, start: map<Handle, (Key, Item)>, es: map<Handle, (Key, Item)>, locs: Locs, v: Vertex, lowered: set<Vertex>, d: Edge)
    requires Relaxed(g, start, es, locs, v, lowered)
    requires v in g.adj && d in g.adj[v].Values
    requires Opposite(d, v) in locs && Less(Fin(d.weight), es[locs[Opposite(d, v)]].0)
    ensures var w := Opposite(d, v); var es' := es[locs[w] := (Fin(d.weight), (w, Some(d)))];
            && Relaxed(g, start, es', locs, v, lowered + {w})
            && Settled(es', locs, v, d)
            && (forall d' :: Settled(es, locs, v, d') ==> Settled(es', locs, v, d'))
  {
    var w := Opposite(d, v);
    var es' := es[locs[w] := (Fin(d.weight), (w, Some(d)))];
    LocatedSet(es, locs, w, Fin(d.weight), Some(d));
    if w in lowered {
      LowerAgain(g, start[locs[w]], es[locs[w]], es'[locs[w]], v, w, true);
    } else {
      LowerAgain(g, start[locs[w]], es[locs[w]], es'[locs[w]], v, w, false);
    }
    forall y | y in locs && y != w
      ensures es'[locs[y]] == es[locs[y]]
    {
      assert es[locs[y]].1.0 == y;
    }
    forall d' | Settled(es, locs, v, d')
      ensures Settled(es', locs, v, d')
    {
      var u := Opposite(d', v);
      if u == w {
        LessIsStrictTotalOrder(Fin(d.weight), es[locs[w]].0, Fin(d'.weight));
      }
    }
  }

  /** Entry `b` of `y` is entry `a` lowered to the weight of an edge stored at `v` leading
      to `y`, which `b` now carries. */
  ghost predicate Lowered(g: Graph, a: (Key, Item), b: (Key, Item), v: Vertex, y: Vertex) {
    && b.1.0 == a.1.0 && b.1.1.Some? && b.0 == Fin(b.1.1.value.weight) && Less(b.0, a.0)
    && Stores(g, v, b.1.1.value) && Opposite(b.1.1.value, v) == y
  }

  /** Lowering an entry that was already lowered keeps it lowered with respect to the start. */
  lemma LowerAgain(g: Graph, a: (Key, Item), b: (Key, Item), c: (Key, Item), v: Vertex, y: Vertex, again: bool)
    requires again ==> Lowered(g, a, b, v, y)
    requires !again ==> b == a
    requires Lowered(g, b, c, v, y)
    ensures Lowered(g, a, c, v, y)
  {
    LessIsStrictTotalOrder(c.0, b.0, a.0);
  }
  /** `prim(g, apq)`. Every vertex is taken exactly once; each tree edge attaches the vertex
      taken when it was appended to an earlier one; the first vertex brings no edge, so the
      tree has fewer edges than the graph has vertices. With a queue whose `remove_min`
      returns a smallest key, on a consistent connected graph, every later vertex brings
      one: the tree has exactly one edge fewer than the graph has vertices. */
  method Run(g: Graph, impl: Impl) returns (tree: seq<Edge>, ghost order: seq<Vertex>, ghost from: seq<nat>, ghost at: seq<nat>)
    ensures Distinct(order) && (forall v :: v in order <==> v in g.adj)
    ensures Grown(g, tree, order, from, at)
    ensures |g.adj| == 0 ==> tree == []
    ensures |g.adj| > 0 ==> |tree| < |g.adj|
    ensures impl != Heap && Valid(g) && Connected(g) && |g.adj| > 0 ==> |tree| == |g.adj| - 1
  {
    hide Entries, Inv, Located, Partition, Labelled, Bounded, Grown, Relaxed, Settled, Valid, Connected;
    var q, locs := Init(g, impl);
    tree, order, from, at := [], [], [], [];
    ghost var src: map<Vertex, nat> := map[];
    Started(g, Entries(q), locs);
    var n := Apqs.Length(impl, q);
    while n > 0
      invariant Inv(impl, q) && n == |q.slots| && (n == 0 <==> Entries(q) == map[])
      invariant Located(Entries(q), locs) && Partition(g, locs, order)
      invariant Labelled(g, Entries(q), locs, order, src) && Bounded(g, Entries(q), locs, order)
      invariant Grown(g, tree, order, from, at)
      invariant |order| == 0 ==> tree == []
      invariant |order| > 0 ==> |tree| < |order|
      invariant impl != Heap && Valid(g) && Connected(g) && |order| > 0 ==> |tree| == |order| - 1
      decreases n
    {
      ghost var es := Entries(q);
      var res, h := RemoveMin(impl, q);
      var q1, c := res.value.0, res.value.1;
      var v, e := c.0, c.1;
      TakeEntry(g, es, locs, order, src, h);
      if e.Some? {
        GrownStep(g, tree, order, from, at, e.value, src[v], v);
        tree, from, at := tree + [e.value], from + [src[v]], at + [|order|];
      } else {
        GrownTake(g, tree, order, from, at, v);
        if impl != Heap && Valid(g) && Connected(g) && |order| > 0 {
          MinHasEdge(g, es, locs, order, src, h);
        }
      }
      PartitionTake(g, locs, order, v);
      var q2, lowered := Relax(g, impl, q1, locs - {v}, v);
      LabelledStep(g, es, Entries(q2), locs, v, order, src, lowered);
      BoundedStep(g, es, Entries(q2), locs, v, order, lowered);
      src := Stamp(src, lowered, |order|);
      order := order + [v];
      locs := locs - {v};
      q := q2;
      n := Apqs.Length(impl, q);
    }
    AllTaken(g, Entries(q), locs, order);
  }

  /** `prim_heap`: `prim` with the `HeapAPQ` as written. */
  method PrimHeap(g: Graph) returns (tree: seq<Edge>, ghost order: seq<Vertex>, ghost from: seq<nat>, ghost at: seq<nat>)
    ensures Distinct(order) && (forall v :: v in order <==> v in g.adj)
    ensures Grown(g, tree, order, from, at)
    ensures |g.adj| == 0 ==> tree == []
    ensures |g.adj| > 0 ==> |tree| < |g.adj|
  {
    tree, order, from, at := Run(g, Heap);
  }

  /** `prim_unsorted_list`: `prim` with the `UnsortedListAPQ`, which does span. */
  method PrimUnsortedList(g: Graph) returns (tree: seq<Edge>, ghost order: seq<Vertex>, ghost from: seq<nat>, ghost at: seq<nat>)
    ensures Distinct(order) && (forall v :: v in order <==> v in g.adj)
    ensures Grown(g, tree, order, from, at)
    ensures |g.adj| == 0 ==> tree == []
    ensures Valid(g) && Connected(g) && |g.adj| > 0 ==> |tree| == |g.adj| - 1
  {
    tree, order, from, at := Run(g, UnsortedList);
  }

  /** `prim` with the repaired heap, which spans as well. */
  method PrimCorrectedHeap(g: Graph) returns (tree: seq<Edge>, ghost order: seq<Vertex>, ghost from: seq<nat>, ghost at: seq<nat>)
    ensures Distinct(order) && (forall v :: v in order <==> v in g.adj)
    ensures Grown(g, tree, order, from, at)
    ensures |g.adj| == 0 ==> tree == []
    ensures Valid(g) && Connected(g) && |g.adj| > 0 ==> |tree| == |g.adj| - 1
  {
    tree, order, from, at := Run(g, CorrectedHeap);
  }

  /** Before the first removal nothing is taken and every entry is untouched. */
  lemma Started(g: Graph, es: map<Handle, (Key, Item)>, locs: Locs)
    requires Untouched(es, locs) && locs.Keys == g.adj.Keys
    ensures Partition(g, locs, []) && Labelled(g, es, locs, [], map[]) && Bounded(g, es, locs, [])
    ensures Grown(g, [], [], [], [])
  {
  }

  /** The removed entry `h` names a queued vertex `v`, and if it carries an edge, that edge
      is stored at an earlier taken vertex and leads to `v`. */
  lemma TakeEntry(g: Graph, es: map<Handle, (Key, Item)>, locs: Locs, order: seq<Vertex>, src: map<Vertex, nat>, h: Handle)
    requires Located(es, locs) && Labelled(g, es, locs, order, src) && h in es
    ensures var v := es[h].1.0; v in locs && locs[v] == h && Located(es - {h}, locs - {v})
    ensures var v, e := es[h].1.0, es[h].1.1;
            e.Some? ==> v in src && src[v] < |order| && Stores(g, order[src[v]], e.value)
                        && Opposite(e.value, order[src[v]]) == v
  {
    LocatedRemove(es, locs, h);
    assert CameFrom(g, es[h], es[h].1.0, order, src);
  }

  /** Taking a vertex that brings no edge leaves the tree as it was. */
  lemma GrownTake(g: Graph, tree: seq<Edge>, order: seq<Vertex>, from: seq<nat>, at: seq<nat>, v: Vertex)
    requires Grown(g, tree, order, from, at)
    ensures Grown(g, tree, order + [v], from, at)
  {
  }

  /** Taking `v` with the edge `d` stored at the earlier `order[j]` attaches `v` to it. */
  lemma GrownStep(g: Graph, tree: seq<Edge>, order: seq<Vertex>, from: seq<nat>, at: seq<nat>, d: Edge, j: nat, v: Vertex)
    requires Grown(g, tree, order, from, at)
    requires j < |order| && Stores(g, order[j], d) && Opposite(d, order[j]) == v
    ensures Grown(g, tree + [d], order + [v], from + [j], at + [|order|])
  {
    var order' := order + [v];
    assert order'[j] == order[j] && order'[|order|] == v;
  }

  /** When the queue is empty, every vertex has been taken exactly once. */
  lemma AllTaken(g: Graph, es: map<Handle, (Key, Item)>, locs: Locs, order: seq<Vertex>)
    requires Located(es, locs) && es == map[] && Partition(g, locs, order)
    ensures Distinct(order) && (forall v :: v in order <==> v in g.adj) && |order| == |g.adj|
  {
    assert forall v :: v in locs ==> locs[v] in es;
    assert forall v :: v !in locs;
    DistinctCard(order);
    assert Elems(order) == g.adj.Keys;
  }

  lemma PartitionTake(g: Graph, locs: Locs, order: seq<Vertex>, v: Vertex)
    requires Partition(g, locs, order) && v in locs
    ensures Partition(g, locs - {v}, order + [v])
  {
  }

  /** `src` with every vertex in `lowered` now labelled by the taken position `t`. */
  ghost function Stamp(src: map<Vertex, nat>, lowered: set<Vertex>, t: nat): map<Vertex, nat> {
    src + map y | y in lowered :: t
  }

  /** Taking `v` and relaxing its edges keeps every queued entry's label: entries not lowered
      keep theirs, lowered ones came from `v`, the newest taken vertex. */
  lemma LabelledStep(g: Graph, es: map<Handle, (Key, Item)>, es2: map<Handle, (Key, Item)>, locs: Locs, v: Vertex,
                     order: seq<Vertex>, src: map<Vertex, nat>, lowered: set<Vertex>)
    requires Located(es, locs) && Labelled(g, es, locs, order, src) && v in locs
    requires Relaxed(g, es - {locs[v]}, es2, locs - {v}, v, lowered)
    ensures Located(es2, locs - {v})
    ensures Labelled(g, es2, locs - {v}, order + [v], Stamp(src, lowered, |order|))
  {
    var locs', order', src' := locs - {v}, order + [v], Stamp(src, lowered, |order|);
    forall y | y in locs'
      ensures locs'[y] in es2 && CameFrom(g, es2[locs'[y]], y, order', src')
    {
      assert locs[y] != locs[v];
      if y !in lowered {
        var d := es[locs[y]].1.1;
        if d.Some? {
          assert order'[src[y]] == order[src[y]];
        }
      }
    }
  }

  /** Taking `v` and relaxing its edges keeps every taken vertex's edges settled: removal
      takes nothing from other entries, relaxation only lowers keys, and `v`'s own edges
      were just settled. */
  lemma BoundedStep(g: Graph, es: map<Handle, (Key, Item)>, es2: map<Handle, (Key, Item)>, locs: Locs, v: Vertex,
                    order: seq<Vertex>, lowered: set<Vertex>)
    requires Located(es, locs) && Bounded(g, es, locs, order) && v in locs
    requires Relaxed(g, es - {locs[v]}, es2, locs - {v}, v, lowered)
    requires forall d :: Stores(g, v, d) ==> Settled(es2, locs - {v}, v, d)
    ensures Bounded(g, es2, locs - {v}, order + [v])
  {
    var locs', order' := locs - {v}, order + [v];
    forall j, d | 0 <= j < |order'| && Stores(g, order'[j], d)
      ensures Settled(es2, locs', order'[j], d)
    {
      if j < |order| {
        var u := order[j];
        assert order'[j] == u;
        assert Settled(es, locs, u, d);
        var w := Opposite(d, u);
        if w in locs' {
          assert locs[w] != locs[v];
          assert es2[locs'[w]] == es[locs[w]] || Less(es2[locs'[w]].0, es[locs[w]].0);
          LessIsStrictTotalOrder(es2[locs'[w]].0, es[locs[w]].0, Fin(d.weight));
        }
      }
    }
  }

  /** Prim's cut argument, in the form the loop needs: once some vertex is taken, in a
      consistent connected graph some queued vertex has a finite key, so a smallest entry has
      a finite key too, and therefore carries an edge. */
  lemma MinHasEdge(g: Graph, es: map<Handle, (Key, Item)>, locs: Locs, order: seq<Vertex>, src: map<Vertex, nat>, h: Handle)
    requires Valid(g) && Connected(g) && |order| > 0
    requires Located(es, locs) && Partition(g, locs, order)
    requires Labelled(g, es, locs, order, src) && Bounded(g, es, locs, order)
    requires h in es && forall k :: k in es ==> Le(es[h].0, es[k].0)
    ensures es[h].1.1.Some?
  {
    var y := es[h].1.0;
    var j, d := CutEdge(g, locs, order, y);
    var w := Opposite(d, order[j]);
    assert Settled(es, locs, order[j], d);
    assert Le(es[h].0, es[locs[w]].0);
    LessIsStrictTotalOrder(es[h].0, es[locs[w]].0, Fin(d.weight));
    assert CameFrom(g, es[locs[y]], y, order, src);
  }

  /** In a consistent connected graph, once some vertex is taken and some vertex `y` is
      still queued, an edge stored at a taken vertex leads to a queued one. */
  lemma CutEdge(g: Graph, locs: Locs, order: seq<Vertex>, y: Vertex) returns (j: nat, d: Edge)
    requires Valid(g) && Connected(g) && |order| > 0
    requires Partition(g, locs, order) && y in locs
    ensures j < |order| && Stores(g, order[j], d) && Opposite(d, order[j]) in locs
  {
    var x := order[0];
    assert Linked(g, x, y);
    var p :| IsPath(g, p) && p[0] == x && p[|p| - 1] == y;
    var i := WalkLeaves(g, p, Elems(order));
    var u, w := p[i], p[i + 1];
    assert w in g.adj && w in locs;
    j :| 0 <= j < |order| && order[j] == u;
    d := g.adj[u][w];
  }

}
