/**
 The adjacency-map graph of src/graph.py: vertices equal by label, undirected edges equal
 by label and unordered endpoint pair, `adj[x][y]` the edge stored between `x` and `y`, and
 an edge dictionary keyed by edge equality whose values are the `(x, y)` pairs passed to
 `add_edge`.
 */
module Graphs {
  import opened Results
  import opened Seqs

  /** A vertex is its label: equality and hashing use nothing else. */
  datatype Vertex = Vertex(name: string)

  datatype Edge = Edge(v1: Vertex, v2: Vertex, name: string, weight: int)

  /** `Edge.__eq__`: same label and the same endpoints in either order; weight ignored. */
  predicate SameEdge(e: Edge, f: Edge) {
    || (e.v1, e.v2, e.name) == (f.v1, f.v2, f.name)
    || (e.v2, e.v1, e.name) == (f.v1, f.v2, f.name)
  }

  /** What `SameEdge` looks at, as a value: the unordered endpoint set and the label. */
  datatype EdgeKey = EdgeKey(ends: set<Vertex>, name: string)

  function Key(e: Edge): EdgeKey {
    EdgeKey({e.v1, e.v2}, e.name)
  }

  /** `v` is an endpoint of `e`. */
  predicate IsEnd(e: Edge, v: Vertex) {
    v == e.v1 || v == e.v2
  }

  /** `e` joins `x` and `y`, in either order. */
  predicate Joins(e: Edge, x: Vertex, y: Vertex) {
    (e.v1 == x && e.v2 == y) || (e.v1 == y && e.v2 == x)
  }

  /** Edge equality is exactly equality of keys, so dictionaries keyed by `Edge` are
      dictionaries keyed by `EdgeKey`; it is an equivalence, and weight plays no part. */
  lemma SameEdgeIsKeyEquality(e: Edge, f: Edge, w: int)
    ensures SameEdge(e, f) <==> Key(e) == Key(f)
    ensures SameEdge(e, e) && (SameEdge(e, f) ==> SameEdge(f, e))
    ensures SameEdge(e, f) <==> SameEdge(e.(weight := w), f)
  {
    if Key(e) == Key(f) {
      assert e.v1 in Key(f).ends && e.v2 in Key(f).ends;
      assert f.v1 in Key(e).ends && f.v2 in Key(e).ends;
    }
  }

  /** `Edge.opposite(v)`: `vertex_2` if `v` is `vertex_1`, else `vertex_1`. */
  function Opposite(e: Edge, v: Vertex): (w: Vertex)
    ensures IsEnd(e, v) ==> Joins(e, v, w)
    ensures !IsEnd(e, v) ==> w == e.v1
  {
    if v == e.v1 then e.v2 else e.v1
  }

  /** From either end of a non-loop edge, `opposite` leads to the other end and back. */
  lemma OppositeIsInvolution(e: Edge, v: Vertex)
    requires IsEnd(e, v) && e.v1 != e.v2
    ensures Opposite(e, v) != v && Opposite(e, Opposite(e, v)) == v
  {
  }

  /** The value `add_edge` stores under an edge: the `(x, y)` pair of the latest call. */
  datatype Stored = Stored(x: Vertex, y: Vertex)

  datatype Graph = Graph(adj: map<Vertex, map<Vertex, Edge>>, edges: map<EdgeKey, Stored>)

  /** `KeyError` from a missing dictionary key; `DoesNotExistError` raised by the graph;
      `TypeError` from hashing an edge that cannot be hashed (see `Hashable`). */
  datatype GraphError = KeyError | DoesNotExist | TypeError

  /** `Edge.__hash__` builds `frozenset((vertex_1, vertex_2, label))`. A label equal to an
      endpoint's label hashes like that vertex, so the set compares the two, and
      `Vertex.__eq__` raises `TypeError` for the string: such an edge cannot be hashed,
      and so can never be a key of the edge dictionary. */
  predicate Hashable(e: Edge) {
    e.name != e.v1.name && e.name != e.v2.name
  }

  /** Hashability as a property of the key: no end is labelled like the edge. */
  predicate KeyHashable(k: EdgeKey) {
    forall v :: v in k.ends ==> v.name != k.name
  }

  /** Hashability depends on the key only, so equal edges agree on it. */
  lemma HashableByKey(d: Edge, e: Edge)
    ensures Hashable(e) <==> KeyHashable(Key(e))
    ensures Key(d) == Key(e) ==> (Hashable(d) <==> Hashable(e))
  {
    assert e.v1 in Key(e).ends && e.v2 in Key(e).ends;
    KeySharesEnds(d, e);
    KeySharesEnds(e, d);
  }

  function EmptyGraph(): (g: Graph)
    ensures NumVertices(g) == 0 && NumEdges(g) == 0 && Valid(g)
  {
    Graph(map[], map[])
  }

  /** The consistent graphs that `add_edge` with matching endpoints builds. */
  ghost predicate Valid(g: Graph) {
    Symmetric(g) && Joined(g) && Covered(g) && Recorded(g) && Hashed(g)
  }

  /** Every key of the edge dictionary was hashed to get there. */
  ghost predicate Hashed(g: Graph) {
    forall k :: k in g.edges ==> KeyHashable(k)
  }

  /** Adjacency is closed and symmetric: `adj[y][x]` is the same edge as `adj[x][y]`. */
  ghost predicate Symmetric(g: Graph) {
    forall x, y :: x in g.adj && y in g.adj[x] ==> y in g.adj && x in g.adj[y] && g.adj[y][x] == g.adj[x][y]
  }

  /** Each stored edge joins the two distinct vertices it is stored between. */
  ghost predicate Joined(g: Graph) {
    forall x, y :: x in g.adj && y in g.adj[x] ==> x != y && Joins(g.adj[x][y], x, y)
  }

  /** Each stored edge is in the edge dictionary. */
  ghost predicate Covered(g: Graph) {
    forall x, y :: x in g.adj && y in g.adj[x] ==> Key(g.adj[x][y]) in g.edges
  }

  /** The pair recorded under each key of the edge dictionary holds an equal edge. */
  ghost predicate Recorded(g: Graph) {
    forall k {:trigger Indexed(g, k)} :: k in g.edges ==> Indexed(g, k)
  }

  /** The pair recorded under `k` is adjacent and holds an edge equal to `k`. (Quantified
      over with `Indexed` itself as the trigger, so that it is only unfolded on request.) */
  ghost predicate Indexed(g: Graph, k: EdgeKey)
    requires k in g.edges
  {
    var s := g.edges[k];
    s.x in g.adj && s.y in g.adj[s.x] && Key(g.adj[s.x][s.y]) == k
  }

  /** `vertices`: each vertex once, in an arbitrary order (insertion order is not modelled). */
  method Vertices(g: Graph) returns (vs: seq<Vertex>)
    ensures Distinct(vs) && |vs| == NumVertices(g)
    ensures forall v :: v in vs <==> v in g.adj
  {
    vs := Enumerate(g.adj.Keys);
  }

  /** `edges`: each pairwise unequal edge once, as its key, in an arbitrary order. */
  method EdgeKeys(g: Graph) returns (ks: seq<EdgeKey>)
    ensures Distinct(ks) && |ks| == NumEdges(g)
    ensures forall k :: k in ks <==> k in g.edges
  {
    ks := Enumerate(g.edges.Keys);
  }

  /** `p` is a walk: each vertex after the first is a neighbour of the one before. */
  ghost predicate IsPath(g: Graph, p: seq<Vertex>) {
    |p| > 0 && forall i :: 0 <= i < |p| - 1 ==> p[i] in g.adj && p[i + 1] in g.adj[p[i]]
  }

  /** Some walk leads from `x` to `y`. */
  ghost predicate Linked(g: Graph, x: Vertex, y: Vertex) {
    exists p :: IsPath(g, p) && p[0] == x && p[|p| - 1] == y
  }

  /** Every vertex can reach every other. */
  ghost predicate Connected(g: Graph) {
    forall x, y :: x in g.adj && y in g.adj ==> Linked(g, x, y)
  }

  /** A walk that starts inside a set of vertices and ends outside it leaves it along some
      step. */
  lemma {:induction false} WalkLeaves(g: Graph, p: seq<Vertex>, inside: set<Vertex>) returns (i: nat)
    requires IsPath(g, p) && p[0] in inside && p[|p| - 1] !in inside
    ensures i + 1 < |p| && p[i] in inside && p[i + 1] !in inside
    ensures p[i] in g.adj && p[i + 1] in g.adj[p[i]]
  {
    if p[1] !in inside {
      i := 0;
    } else {
      assert IsPath(g, p[1..]);
      var j := WalkLeaves(g, p[1..], inside);
      i := j + 1;
    }
  }

  /** `num_vertices`. */
  function NumVertices(g: Graph): nat {
    |g.adj|
  }

  /** `num_edges`: the number of pairwise unequal edges added and not removed. */
  function NumEdges(g: Graph): nat {
    |g.edges|
  }

  /** The keys of all edges stored in the adjacency maps. */
  ghost function StoredKeys(g: Graph): set<EdgeKey> {
    set x, y | x in g.adj && y in g.adj[x] :: Key(g.adj[x][y])
  }

  /** In a valid graph `num_edges` counts the pairwise unequal edges stored in the
      adjacency maps: the edge dictionary holds exactly their keys. */
  lemma NumEdgesCountsStoredEdges(g: Graph)
    requires Valid(g)
    ensures g.edges.Keys == StoredKeys(g)
    ensures NumEdges(g) == |StoredKeys(g)|
  {
    hide Symmetric, Joined, Hashed, Indexed, StoredKeys;
    StoredAreIndexed(g);
    IndexedAreStored(g);
    assert |g.edges| == |g.edges.Keys|;
  }

  lemma StoredAreIndexed(g: Graph)
    requires Covered(g)
    ensures StoredKeys(g) <= g.edges.Keys
  {
    forall k | k in StoredKeys(g)
      ensures k in g.edges
    {
      var x, y :| x in g.adj && y in g.adj[x] && Key(g.adj[x][y]) == k;
    }
  }

  lemma IndexedAreStored(g: Graph)
    requires Recorded(g)
    ensures g.edges.Keys <= StoredKeys(g)
  {
    forall k | k in g.edges
      ensures k in StoredKeys(g)
    {
      assert Indexed(g, k);
      var s := g.edges[k];
      assert Key(g.adj[s.x][s.y]) in StoredKeys(g);
    }
  }

  /** `add_vertex`: `adj[x] = {}`, also for an existing `x`, whose adjacency is reset. */
  function AddVertex(g: Graph, x: Vertex): (r: Graph)
    ensures x in r.adj && r.adj[x] == map[] && r.edges == g.edges
    ensures forall u :: u != x ==> (u in r.adj <==> u in g.adj) && (u in g.adj ==> r.adj[u] == g.adj[u])
    ensures NumVertices(r) == NumVertices(g) + (if x in g.adj then 0 else 1)
  {
    var r := g.(adj := g.adj[x := map[]]);
    assert x !in g.adj ==> r.adj.Keys == g.adj.Keys + {x};
    assert x in g.adj ==> r.adj.Keys == g.adj.Keys;
    r
  }

  /** `add_edge(x, y, e)`: `KeyError` unless both vertices exist (`x` is looked up first);
      `TypeError` when `e` cannot be hashed; else store `e` both ways and record `(x, y)`
      under `e`. */
  function AddEdge(g: Graph, x: Vertex, y: Vertex, e: Edge): (r: Result<Graph, GraphError>)
    ensures r == Err(KeyError) <==> x !in g.adj || y !in g.adj
    ensures r == Err(TypeError) <==> x in g.adj && y in g.adj && !Hashable(e)
    ensures r.Ok? <==> x in g.adj && y in g.adj && Hashable(e)
    ensures r.Ok? ==> var h := r.value;
              && h.adj.Keys == g.adj.Keys && y in h.adj[x] && x in h.adj[y]
              && h.adj[x][y] == e && h.adj[y][x] == e
              && Key(e) in h.edges && h.edges[Key(e)].x == x && h.edges[Key(e)].y == y
              && (forall k :: k != Key(e) ==> (k in h.edges <==> k in g.edges) && (k in g.edges ==> h.edges[k] == g.edges[k]))
              && NumEdges(h) == NumEdges(g) + (if Key(e) in g.edges then 0 else 1)
  {
    if x !in g.adj || y !in g.adj then Err(KeyError)
    else if !Hashable(e) then Err(TypeError)
    else
      var adj1 := g.adj[x := g.adj[x][y := e]];
      var adj2 := adj1[y := adj1[y][x := e]];
      var k := Key(e);
      var edges := g.edges[k := Stored(x, y)];
      assert k !in g.edges ==> edges.Keys == g.edges.Keys + {k};
      assert k in g.edges ==> edges.Keys == g.edges.Keys;
      Ok(Graph(adj2, edges))
  }

  /** A successful `add_edge` changes no adjacency entry other than the two between `x`
      and `y`. */
  lemma AddEdgeKeepsOthers(g: Graph, x: Vertex, y: Vertex, e: Edge)
    requires AddEdge(g, x, y, e).Ok?
    ensures var h := AddEdge(g, x, y, e).value;
            && (forall u, w :: u in g.adj && w in h.adj[u] && (u, w) != (x, y) && (u, w) != (y, x)
                  ==> w in g.adj[u] && h.adj[u][w] == g.adj[u][w])
            && (forall u, w :: u in g.adj && w in g.adj[u] && (u, w) != (x, y) && (u, w) != (y, x)
                  ==> w in h.adj[u])
  {
  }

  /** `degree(x)`: `KeyError` for a missing vertex, else the number of distinct neighbours. */
  function Degree(g: Graph, x: Vertex): (r: Result<nat, GraphError>)
    ensures r.Err? <==> x !in g.adj
    ensures r.Err? ==> r.error == KeyError
    ensures r.Ok? ==> r.value == |g.adj[x].Keys|
  {
    if x !in g.adj then Err(KeyError) else Ok(|g.adj[x]|)
  }

  /** In a valid graph `degree(x)` counts the pairwise unequal edges stored at `x`, and
      equally the vertices that list `x` as a neighbour. */
  lemma DegreeCountsEdges(g: Graph, x: Vertex)
    requires Valid(g) && x in g.adj
    ensures Degree(g, x).value == |IncidentKeys(g, x)|
    ensures Degree(g, x).value == |set y | y in g.adj && x in g.adj[y]|
  {
    var m := g.adj[x];
    ValidIsDeletable(g, x);
    ListersAreNeighbours(g, x);
    hide Valid, Deletable, HashableAt, RemoveVertexOutcome;
    KeysAtCard(m, m.Keys);
    assert |m| == |m.Keys|;
  }

  /** With symmetric adjacency, the vertices listing `x` are exactly `x`'s neighbours. */
  lemma ListersAreNeighbours(g: Graph, x: Vertex)
    requires Symmetric(g) && x in g.adj
    ensures (set y | y in g.adj && x in g.adj[y]) == g.adj[x].Keys
  {
  }

  /** Distinct neighbours holding pairwise unequal edges give as many keys as neighbours. */
  lemma {:induction false} KeysAtCard(m: map<Vertex, Edge>, ys: set<Vertex>)
    requires ys <= m.Keys
    requires forall y, z :: y in ys && z in ys && y != z ==> Key(m[y]) != Key(m[z])
    ensures |KeysAt(m, ys)| == |ys|
    decreases ys
  {
    if ys == {} {
      KeysAtNone(m);
    } else {
      var y :| y in ys;
      var rest := ys - {y};
      KeysAtCard(m, rest);
      forall k | k in KeysAt(m, rest)
        ensures k != Key(m[y])
      {
        var z := KeysAtWitness(m, rest, k);
      }
      KeysAtAdd(m, rest, y);
      assert rest + {y} == ys;
    }
  }

  /** `get_edge(x, y)`: `KeyError` for a missing `x`, `DoesNotExistError` when `y` is not a
      neighbour of `x`, else the edge stored between them. */
  function GetEdge(g: Graph, x: Vertex, y: Vertex): (r: Result<Edge, GraphError>)
    ensures r == Err(KeyError) <==> x !in g.adj
    ensures r == Err(DoesNotExist) <==> x in g.adj && y !in g.adj[x]
    ensures r.Ok? ==> x in g.adj && y in g.adj[x] && r.value == g.adj[x][y]
  {
    if x !in g.adj then Err(KeyError)
    else if y !in g.adj[x] then Err(DoesNotExist)
    else Ok(g.adj[x][y])
  }

  /** In a valid graph `get_edge` is symmetric and returns an edge joining its arguments. */
  lemma GetEdgeSymmetric(g: Graph, x: Vertex, y: Vertex)
    requires Valid(g) && x in g.adj && y in g.adj
    ensures GetEdge(g, x, y) == GetEdge(g, y, x)
    ensures GetEdge(g, x, y).Ok? ==> Joins(GetEdge(g, x, y).value, x, y) && x != y
  {
  }

  /** `get_edges(x)`: `KeyError` for a missing vertex, else the edges stored at `x`, one per
      neighbour; `nbrs` lists the neighbours in the order used. Dictionary order is not
      modelled, so the method picks neighbours in an arbitrary order. */
  method GetEdges(g: Graph, x: Vertex) returns (r: Result<seq<Edge>, GraphError>, ghost nbrs: seq<Vertex>)
    ensures r.Err? <==> x !in g.adj
    ensures r.Err? ==> r.error == KeyError
    ensures r.Ok? ==>
              && |r.value| == |nbrs| == |g.adj[x]|
              && Distinct(nbrs) && (forall y :: y in nbrs <==> y in g.adj[x])
              && (forall i :: 0 <= i < |nbrs| ==> nbrs[i] in g.adj[x] && r.value[i] == g.adj[x][nbrs[i]])
  {
    nbrs := [];
    if x !in g.adj {
      return Err(KeyError), nbrs;
    }
    var m := g.adj[x];
    var rest := m.Keys;
    var out: seq<Edge> := [];
    while rest != {}
      invariant rest <= m.Keys && |out| == |nbrs| && Distinct(nbrs)
      invariant forall y :: y in nbrs <==> y in m.Keys && y !in rest
      invariant forall i :: 0 <= i < |nbrs| ==> nbrs[i] in m && out[i] == m[nbrs[i]]
      invariant |nbrs| + |rest| == |m.Keys|
      decreases |rest|
    {
      var y :| y in rest;
      out := out + [m[y]];
      nbrs := nbrs + [y];
      rest := rest - {y};
    }
    assert |m.Keys| == |m|;
    return Ok(out), nbrs;
  }

  /** `remove_edge(e)`: `TypeError` when `e` cannot be hashed (the membership test hashes
      it); `DoesNotExistError` for an edge that is not a key; else delete the key, then
      `adj[e.vertex_1][e.vertex_2]`, then `adj[e.vertex_2][e.vertex_1]`, each deletion
      raising `KeyError` if its entry is missing (a self-loop fails at the second). */
  function RemoveEdge(g: Graph, e: Edge): (r: Result<Graph, GraphError>)
    ensures r == Err(TypeError) <==> !Hashable(e)
    ensures r == Err(DoesNotExist) <==> Hashable(e) && Key(e) !in g.edges
    ensures r.Ok? ==> && Hashable(e) && Key(e) in g.edges && r.value.edges == g.edges - {Key(e)}
                      && r.value.adj.Keys == g.adj.Keys && NumEdges(r.value) == NumEdges(g) - 1
  {
    var k := Key(e);
    if !Hashable(e) then Err(TypeError)
    else if k !in g.edges then Err(DoesNotExist)
    else
      var edges := g.edges - {k};
      if e.v1 !in g.adj || e.v2 !in g.adj[e.v1] then Err(KeyError)
      else
        var adj1 := g.adj[e.v1 := g.adj[e.v1] - {e.v2}];
        if e.v2 !in adj1 || e.v1 !in adj1[e.v2] then Err(KeyError)
        else
          var adj2 := adj1[e.v2 := adj1[e.v2] - {e.v1}];
          assert edges.Keys + {k} == g.edges.Keys;
          Ok(Graph(adj2, edges))
  }

  /** A successful `remove_edge` deletes both adjacency entries between the ends of `e`,
      which must be distinct and adjacent both ways, and keeps every other entry. */
  lemma RemoveEdgeUnlinks(g: Graph, e: Edge)
    requires RemoveEdge(g, e).Ok?
    ensures var h := RemoveEdge(g, e).value;
            && e.v1 != e.v2 && e.v1 in g.adj && e.v2 in g.adj[e.v1] && e.v2 in g.adj && e.v1 in g.adj[e.v2]
            && e.v2 !in h.adj[e.v1] && e.v1 !in h.adj[e.v2]
            && (forall u, w :: u in g.adj && w in g.adj[u] && (u, w) != (e.v1, e.v2) && (u, w) != (e.v2, e.v1)
                  ==> w in h.adj[u] && h.adj[u][w] == g.adj[u][w])
            && (forall u, w :: u in h.adj && w in h.adj[u] ==> w in g.adj[u])
  {
  }

  /** Equal edges join the same pair. */
  lemma EqualEdgesJoin(d: Edge, e: Edge, x: Vertex, y: Vertex)
    requires Key(d) == Key(e) && Joins(d, x, y)
    ensures Joins(e, x, y)
  {
    SameEdgeIsKeyEquality(d, e, e.weight);
  }

  /** In a valid graph an indexed edge joins two distinct adjacent vertices, and the
      adjacency entry between them holds an equal edge. */
  lemma IndexedEdgeIsAdjacent(g: Graph, e: Edge)
    requires Valid(g) && Key(e) in g.edges
    ensures e.v1 != e.v2 && e.v1 in g.adj && e.v2 in g.adj[e.v1] && e.v2 in g.adj && e.v1 in g.adj[e.v2]
    ensures Key(g.adj[e.v1][e.v2]) == Key(e)
  {
    assert Indexed(g, Key(e));
    var s := g.edges[Key(e)];
    var x, y := s.x, s.y;
    assert x in g.adj && y in g.adj[x];
    var d := g.adj[x][y];
    assert Key(d) == Key(e) && Joins(d, x, y) && x != y;
    assert y in g.adj && x in g.adj[y] && g.adj[y][x] == d;
    EqualEdgesJoin(d, e, x, y);
    if e.v1 == x {
      assert e.v2 == y;
    } else {
      assert e.v1 == y && e.v2 == x;
    }
  }

  /** The graph left by deleting an indexed edge of a valid graph is valid. */
  lemma UnlinkedIsValid(g: Graph, e: Edge, h: Graph)
    requires Valid(g) && Key(e) in g.edges
    requires e.v1 != e.v2 && e.v1 in g.adj && e.v2 in g.adj[e.v1] && e.v2 in g.adj && e.v1 in g.adj[e.v2]
    requires Key(g.adj[e.v1][e.v2]) == Key(e)
    requires h.adj == g.adj[e.v1 := g.adj[e.v1] - {e.v2}][e.v2 := g.adj[e.v2] - {e.v1}]
    requires h.edges == g.edges - {Key(e)}
    ensures Valid(h)
  {
    UnlinkedSymmetric(g, e, h);
    UnlinkedCovered(g, e, h);
    UnlinkedRecorded(g, e, h);
  }

  lemma UnlinkedSymmetric(g: Graph, e: Edge, h: Graph)
    requires Symmetric(g) && Joined(g)
    requires e.v1 in g.adj && e.v2 in g.adj
    requires h.adj == g.adj[e.v1 := g.adj[e.v1] - {e.v2}][e.v2 := g.adj[e.v2] - {e.v1}]
    ensures Symmetric(h) && Joined(h)
  {
    forall x, y | x in h.adj && y in h.adj[x]
      ensures y in h.adj && x in h.adj[y] && h.adj[y][x] == h.adj[x][y]
    {
      UnlinkedEntry(g, e, h, x, y);
      UnlinkedKeeps(g, e, h, y, x);
    }
    forall x, y | x in h.adj && y in h.adj[x]
      ensures x != y && Joins(h.adj[x][y], x, y)
    {
      UnlinkedEntry(g, e, h, x, y);
    }
  }

  /** An entry left after unlinking was there before, between another pair. */
  lemma UnlinkedEntry(g: Graph, e: Edge, h: Graph, x: Vertex, y: Vertex)
    requires e.v1 in g.adj && e.v2 in g.adj
    requires h.adj == g.adj[e.v1 := g.adj[e.v1] - {e.v2}][e.v2 := g.adj[e.v2] - {e.v1}]
    requires x in h.adj && y in h.adj[x]
    ensures x in g.adj && y in g.adj[x] && h.adj[x][y] == g.adj[x][y]
    ensures (x, y) != (e.v1, e.v2) && (x, y) != (e.v2, e.v1)
  {
  }

  /** An entry between another pair survives unlinking. */
  lemma UnlinkedKeeps(g: Graph, e: Edge, h: Graph, x: Vertex, y: Vertex)
    requires e.v1 in g.adj && e.v2 in g.adj
    requires h.adj == g.adj[e.v1 := g.adj[e.v1] - {e.v2}][e.v2 := g.adj[e.v2] - {e.v1}]
    requires x in g.adj && y in g.adj[x] && (x, y) != (e.v1, e.v2) && (x, y) != (e.v2, e.v1)
    ensures x in h.adj && y in h.adj[x] && h.adj[x][y] == g.adj[x][y]
  {
  }

  lemma UnlinkedCovered(g: Graph, e: Edge, h: Graph)
    requires Covered(g) && Joined(g)
    requires e.v1 in g.adj && e.v2 in g.adj
    requires h.adj == g.adj[e.v1 := g.adj[e.v1] - {e.v2}][e.v2 := g.adj[e.v2] - {e.v1}]
    requires h.edges == g.edges - {Key(e)}
    ensures Covered(h)
  {
    forall x, y | x in h.adj && y in h.adj[x]
      ensures Key(h.adj[x][y]) in h.edges
    {
      assert h.adj[x][y] == g.adj[x][y];
      if Key(g.adj[x][y]) == Key(e) {
        SameEdgeIsKeyEquality(g.adj[x][y], e, e.weight);
        assert false;
      }
    }
  }

  lemma UnlinkedRecorded(g: Graph, e: Edge, h: Graph)
    requires Symmetric(g) && Recorded(g)
    requires e.v1 in g.adj && e.v2 in g.adj[e.v1] && Key(g.adj[e.v1][e.v2]) == Key(e)
    requires h.adj == g.adj[e.v1 := g.adj[e.v1] - {e.v2}][e.v2 := g.adj[e.v2] - {e.v1}]
    requires h.edges == g.edges - {Key(e)}
    ensures Recorded(h)
  {
    forall k' | k' in h.edges
      ensures Indexed(h, k')
    {
      assert Indexed(g, k');
      var t := g.edges[k'];
      assert g.adj[e.v2][e.v1] == g.adj[e.v1][e.v2];
      assert (t.x, t.y) != (e.v1, e.v2) && (t.x, t.y) != (e.v2, e.v1);
    }
  }

  /** `remove_edge` keeps a graph valid, and on a valid graph it fails exactly for an edge
      that is not there: with `TypeError` if that edge cannot be hashed, else with
      `DoesNotExistError` (an indexed edge is always hashable). */
  lemma RemoveEdgePreservesValid(g: Graph, e: Edge)
    requires Valid(g)
    ensures RemoveEdge(g, e).Err? <==> Key(e) !in g.edges
    ensures RemoveEdge(g, e).Ok? ==> Valid(RemoveEdge(g, e).value)
  {
    HashableByKey(e, e);
    if Key(e) in g.edges {
      assert KeyHashable(Key(e));
      IndexedEdgeIsAdjacent(g, e);
      var h := Graph(g.adj[e.v1 := g.adj[e.v1] - {e.v2}][e.v2 := g.adj[e.v2] - {e.v1}], g.edges - {Key(e)});
      assert RemoveEdge(g, e) == Ok(h);
      UnlinkedIsValid(g, e, h);
    }
  }

  /** Storing `e` between distinct `x` and `y` of a valid graph, when `e` joins them and
      they are not already joined by an unequal edge, gives a valid graph. */
  lemma LinkedIsValid(g: Graph, x: Vertex, y: Vertex, e: Edge, h: Graph)
    requires Valid(g) && x in g.adj && y in g.adj && x != y && Joins(e, x, y) && Hashable(e)
    requires y in g.adj[x] ==> Key(g.adj[x][y]) == Key(e)
    requires h.adj == g.adj[x := g.adj[x][y := e]][y := g.adj[y][x := e]]
    requires h.edges == g.edges[Key(e) := Stored(x, y)]
    ensures Valid(h)
  {
    LinkedSymmetric(g, x, y, e, h);
    LinkedJoined(g, x, y, e, h);
    LinkedCovered(g, x, y, e, h);
    LinkedRecorded(g, x, y, e, h);
    HashableByKey(e, e);
  }

  /** The symmetry part of `LinkedIsValid`. */
  lemma LinkedSymmetric(g: Graph, x: Vertex, y: Vertex, e: Edge, h: Graph)
    requires Symmetric(g)
    requires x in g.adj && y in g.adj && x != y && Joins(e, x, y)
    requires h.adj == g.adj[x := g.adj[x][y := e]][y := g.adj[y][x := e]]
    requires h.edges == g.edges[Key(e) := Stored(x, y)]
    ensures Symmetric(h)
  {
    forall u, w | u in h.adj && w in h.adj[u]
      ensures w in h.adj && u in h.adj[w] && h.adj[w][u] == h.adj[u][w]
    {
      if (u, w) != (x, y) && (u, w) != (y, x) {
        assert w in g.adj[u] && h.adj[u][w] == g.adj[u][w];
      }
    }
  }

  /** The endpoints part of `LinkedIsValid`. */
  lemma LinkedJoined(g: Graph, x: Vertex, y: Vertex, e: Edge, h: Graph)
    requires Symmetric(g) && Joined(g)
    requires x in g.adj && y in g.adj && x != y && Joins(e, x, y)
    requires h.adj == g.adj[x := g.adj[x][y := e]][y := g.adj[y][x := e]]
    requires h.edges == g.edges[Key(e) := Stored(x, y)]
    ensures Joined(h)
  {
    forall u, w | u in h.adj && w in h.adj[u]
      ensures u != w && Joins(h.adj[u][w], u, w)
    {
      if (u, w) != (x, y) && (u, w) != (y, x) {
        assert w in g.adj[u] && h.adj[u][w] == g.adj[u][w];
      }
    }
  }

  /** The coverage part of `LinkedIsValid`. */
  lemma LinkedCovered(g: Graph, x: Vertex, y: Vertex, e: Edge, h: Graph)
    requires Symmetric(g) && Covered(g)
    requires x in g.adj && y in g.adj && x != y && Joins(e, x, y)
    requires h.adj == g.adj[x := g.adj[x][y := e]][y := g.adj[y][x := e]]
    requires h.edges == g.edges[Key(e) := Stored(x, y)]
    ensures Covered(h)
  {
    forall u, w | u in h.adj && w in h.adj[u]
      ensures Key(h.adj[u][w]) in h.edges
    {
      if (u, w) != (x, y) && (u, w) != (y, x) {
        assert w in g.adj[u] && h.adj[u][w] == g.adj[u][w];
      }
    }
  }

  /** The edge-dictionary half of `LinkedIsValid`. */
  lemma LinkedRecorded(g: Graph, x: Vertex, y: Vertex, e: Edge, h: Graph)
    requires Symmetric(g) && Recorded(g)
    requires x in g.adj && y in g.adj && x != y && Joins(e, x, y)
    requires y in g.adj[x] ==> Key(g.adj[x][y]) == Key(e)
    requires h.adj == g.adj[x := g.adj[x][y := e]][y := g.adj[y][x := e]]
    requires h.edges == g.edges[Key(e) := Stored(x, y)]
    ensures Recorded(h)
  {
    forall k | k in h.edges
      ensures Indexed(h, k)
    {
      if k != Key(e) {
        assert Indexed(g, k);
        var t := g.edges[k];
        assert (t.x, t.y) != (x, y) && (t.x, t.y) != (y, x);
      }
    }
  }

  /** `add_edge(x, y, e)` with `e` joining `x` and `y` succeeds exactly for a hashable `e`
      and keeps a graph valid, provided the two vertices are distinct and not already
      joined by an unequal edge. */
  lemma AddEdgePreservesValid(g: Graph, x: Vertex, y: Vertex, e: Edge)
    requires Valid(g) && x in g.adj && y in g.adj && x != y && Joins(e, x, y)
    requires y in g.adj[x] ==> Key(g.adj[x][y]) == Key(e)
    ensures AddEdge(g, x, y, e).Ok? <==> Hashable(e)
    ensures AddEdge(g, x, y, e).Ok? ==> Valid(AddEdge(g, x, y, e).value)
  {
    if !Hashable(e) {
      return;
    }
    var h := Graph(g.adj[x := g.adj[x][y := e]][y := g.adj[y][x := e]], g.edges[Key(e) := Stored(x, y)]);
    assert AddEdge(g, x, y, e) == Ok(h);
    LinkedIsValid(g, x, y, e, h);
  }

  /** The specified outcome of `remove_vertex(x)`: `DoesNotExistError` for a missing vertex;
      `TypeError` if an edge stored at `x` cannot be hashed; `KeyError` if deleting the keys
      of the edges stored at `x`, one per neighbour, meets a key that is already gone; else
      those keys and `adj[x]` are gone and every other adjacency map, including the
      neighbours' entries for `x`, is left alone. (When both errors are possible, which one
      is raised depends on dictionary order; see `RemoveVertex`.) */
  ghost function RemoveVertexOutcome(g: Graph, x: Vertex): Result<Graph, GraphError> {
    if x !in g.adj then Err(DoesNotExist)
    else if !HashableAt(g, x) then Err(TypeError)
    else if !Deletable(g, x) then Err(KeyError)
    else Ok(Graph(g.adj - {x}, g.edges - IncidentKeys(g, x)))
  }

  /** The keys of the edges stored at `x`. */
  ghost function IncidentKeys(g: Graph, x: Vertex): set<EdgeKey>
    requires x in g.adj
  {
    KeysAt(g.adj[x], g.adj[x].Keys)
  }

  /** The keys of the edges that `m` holds for the vertices `ys`. */
  ghost function KeysAt(m: map<Vertex, Edge>, ys: set<Vertex>): set<EdgeKey> {
    set y | y in ys && y in m :: Key(m[y])
  }

  lemma KeysAtNone(m: map<Vertex, Edge>)
    ensures KeysAt(m, {}) == {}
  {
  }

  lemma KeysAtWitness(m: map<Vertex, Edge>, ys: set<Vertex>, k: EdgeKey) returns (y: Vertex)
    requires k in KeysAt(m, ys)
    ensures y in ys && y in m && Key(m[y]) == k
  {
    y :| y in ys && y in m && Key(m[y]) == k;
  }

  lemma KeysAtHas(m: map<Vertex, Edge>, ys: set<Vertex>, y: Vertex)
    requires y in ys && y in m
    ensures Key(m[y]) in KeysAt(m, ys)
  {
  }

  lemma KeysAtAdd(m: map<Vertex, Edge>, ys: set<Vertex>, y: Vertex)
    requires y in m
    ensures KeysAt(m, ys + {y}) == KeysAt(m, ys) + {Key(m[y])}
  {
  }

  /** Every edge stored at `x` can be hashed. */
  ghost predicate HashableAt(g: Graph, x: Vertex)
    requires x in g.adj
  {
    forall y :: y in g.adj[x] ==> Hashable(g.adj[x][y])
  }

  /** Every edge stored at `x` is indexed, and no two neighbours hold equal edges (the
      second deletion of a key would fail). */
  ghost predicate Deletable(g: Graph, x: Vertex)
    requires x in g.adj
  {
    && (forall y :: y in g.adj[x] ==> Key(g.adj[x][y]) in g.edges)
    && (forall y, z :: y in g.adj[x] && z in g.adj[x] && y != z ==> Key(g.adj[x][y]) != Key(g.adj[x][z]))
  }

  /** `remove_vertex(x)`: delete the key of each edge stored at `x`, then `adj[x]`. The
      neighbours are visited in an arbitrary order, so when an unhashable edge and a missing
      key are both there, either error may come first. */
  method RemoveVertex(g: Graph, x: Vertex) returns (r: Result<Graph, GraphError>)
    ensures || r == RemoveVertexOutcome(g, x)
            || (x in g.adj && !HashableAt(g, x) && !Deletable(g, x) && r == Err(KeyError))
  {
    if x !in g.adj {
      return Err(DoesNotExist);
    }
    hide Dropped, Deletable, HashableAt, RemoveVertexOutcome, KeysAt;
    OutcomeOfPresent(g, x);
    var m := g.adj[x];
    var rest := m.Keys;
    var edges := g.edges;
    ghost var gone: set<Vertex> := {};
    DroppedNone(g, x);
    while rest != {}
      invariant rest <= m.Keys && gone == m.Keys - rest
      invariant Dropped(g, x, gone, edges)
      decreases |rest|
    {
      var y :| y in rest;
      if !Hashable(m[y]) {
        UnhashableAt(g, x, y);
        return Err(TypeError);
      }
      var k := Key(m[y]);
      if k !in edges {
        DroppedBlocked(g, x, gone, edges, y);
        return Err(KeyError);
      }
      DroppedStep(g, x, gone, edges, y);
      edges := edges - {k};
      rest := rest - {y};
      gone := gone + {y};
    }
    DroppedAll(g, x, gone, edges);
    return Ok(Graph(g.adj - {x}, edges));
  }

  lemma OutcomeOfPresent(g: Graph, x: Vertex)
    requires x in g.adj
    ensures !HashableAt(g, x) ==> RemoveVertexOutcome(g, x) == Err(TypeError)
    ensures HashableAt(g, x) && !Deletable(g, x) ==> RemoveVertexOutcome(g, x) == Err(KeyError)
    ensures HashableAt(g, x) && Deletable(g, x) ==>
              RemoveVertexOutcome(g, x) == Ok(Graph(g.adj - {x}, g.edges - KeysAt(g.adj[x], g.adj[x].Keys)))
  {
  }

  lemma UnhashableAt(g: Graph, x: Vertex, y: Vertex)
    requires x in g.adj && y in g.adj[x] && !Hashable(g.adj[x][y])
    ensures !HashableAt(g, x)
  {
  }

  /** The loop of `remove_vertex` has deleted the keys of the edges stored at `x` for the
      neighbours `gone`, and each deletion found its key. */
  ghost predicate Dropped(g: Graph, x: Vertex, gone: set<Vertex>, edges: map<EdgeKey, Stored>) {
    && x in g.adj && gone <= g.adj[x].Keys
    && edges == g.edges - KeysAt(g.adj[x], gone)
    && (forall y :: y in gone ==> Key(g.adj[x][y]) in g.edges && Hashable(g.adj[x][y]))
    && (forall y, z :: y in gone && z in gone && y != z ==> Key(g.adj[x][y]) != Key(g.adj[x][z]))
  }

  lemma DroppedNone(g: Graph, x: Vertex)
    requires x in g.adj
    ensures Dropped(g, x, {}, g.edges)
  {
    KeysAtNone(g.adj[x]);
  }

  lemma DroppedStep(g: Graph, x: Vertex, gone: set<Vertex>, edges: map<EdgeKey, Stored>, y: Vertex)
    requires Dropped(g, x, gone, edges) && y in g.adj[x] && y !in gone && Key(g.adj[x][y]) in edges
    requires Hashable(g.adj[x][y])
    ensures Dropped(g, x, gone + {y}, edges - {Key(g.adj[x][y])})
  {
    var m := g.adj[x];
    forall z | z in gone
      ensures Key(m[z]) != Key(m[y])
    {
      KeysAtHas(m, gone, z);
    }
    KeysAtAdd(m, gone, y);
  }

  /** A key the loop does not find makes `del` raise: either it was never indexed, or an
      earlier neighbour held an equal edge and its deletion already took the key. */
  lemma DroppedBlocked(g: Graph, x: Vertex, gone: set<Vertex>, edges: map<EdgeKey, Stored>, y: Vertex)
    requires Dropped(g, x, gone, edges) && y in g.adj[x] && y !in gone && Key(g.adj[x][y]) !in edges
    ensures !Deletable(g, x)
  {
    var m := g.adj[x];
    var k := Key(m[y]);
    if k in g.edges {
      var z := KeysAtWitness(m, gone, k);
      assert y != z && Key(m[z]) == Key(m[y]);
    }
  }

  lemma DroppedAll(g: Graph, x: Vertex, gone: set<Vertex>, edges: map<EdgeKey, Stored>)
    requires Dropped(g, x, gone, edges) && gone == g.adj[x].Keys
    ensures Deletable(g, x) && HashableAt(g, x) && edges == g.edges - KeysAt(g.adj[x], g.adj[x].Keys)
  {
  }

  /** A one-edge graph between `a` and `b`, built through the public operations; the
      edge's label differs from both vertex labels, so it can be hashed. */
  function Pair(a: Vertex, b: Vertex, name: string, w: int): Graph
    requires a != b && name != a.name && name != b.name
  {
    var g := AddVertex(AddVertex(EmptyGraph(), a), b);
    AddEdge(g, a, b, Edge(a, b, name, w)).value
  }

  lemma PairIsValid(a: Vertex, b: Vertex, name: string, w: int)
    requires a != b && name != a.name && name != b.name
    ensures Valid(Pair(a, b, name, w)) && b in Pair(a, b, name, w).adj[a]
  {
    var g := AddVertex(AddVertex(EmptyGraph(), a), b);
    assert g.adj == map[a := map[], b := map[]];
    AddEdgePreservesValid(g, a, b, Edge(a, b, name, w));
  }

  /** `remove_vertex` breaks the symmetric-adjacency invariant: after removing `a` from
      the graph with the single edge `a`-`b`, `b` still lists `a` as a neighbour though
      `a` is no longer a vertex. */
  lemma RemoveVertexBreaksSymmetry(a: Vertex, b: Vertex, name: string, w: int)
    requires a != b && name != a.name && name != b.name
    ensures Valid(Pair(a, b, name, w))
    ensures RemoveVertexOutcome(Pair(a, b, name, w), a).Ok?
    ensures var h := RemoveVertexOutcome(Pair(a, b, name, w), a).value;
            a !in h.adj && b in h.adj && a in h.adj[b] && !Valid(h)
  {
    PairIsValid(a, b, name, w);
    var g := Pair(a, b, name, w);
    assert g.adj[a].Keys == {b};
  }

  /** Re-running `add_vertex` on an existing vertex breaks the invariant too: `a` loses its
      neighbour while `b` keeps `a` and the edge stays indexed. */
  lemma AddVertexAgainBreaksSymmetry(a: Vertex, b: Vertex, name: string, w: int)
    requires a != b && name != a.name && name != b.name
    ensures Valid(Pair(a, b, name, w))
    ensures var h := AddVertex(Pair(a, b, name, w), a);
            h.adj[a] == map[] && a in h.adj[b] && NumEdges(h) == 1 && !Valid(h)
  {
    PairIsValid(a, b, name, w);
    PairShape(a, b, name, w);
    hide Pair, AddEdge, Valid;
    var g := Pair(a, b, name, w);
    var h := AddVertex(g, a);
    assert b in h.adj && a in h.adj[b] && b !in h.adj[a];
    assert !Symmetric(h);
  }

  /** The pair graph holds one edge, stored at both ends and indexed once. */
  lemma PairShape(a: Vertex, b: Vertex, name: string, w: int)
    requires a != b && name != a.name && name != b.name
    ensures var g, e := Pair(a, b, name, w), Edge(a, b, name, w);
            && a in g.adj && b in g.adj && b in g.adj[a] && a in g.adj[b]
            && g.edges == map[Key(e) := Stored(a, b)] && NumEdges(g) == 1
  {
    var g, e := Pair(a, b, name, w), Edge(a, b, name, w);
    PairIsValid(a, b, name, w);
    assert g.edges == map[Key(e) := Stored(a, b)];
  }

  /** `add_edge` between two vertices already joined by an unequal edge replaces the stored
      edge but leaves the old edge's dictionary entry: `a` still has one neighbour, yet
      `num_edges` reports two edges and the graph is not valid. */
  lemma AddEdgeRelabelOvercounts(a: Vertex, b: Vertex, name: string, other: string, w: int, w': int)
    requires a != b && name != a.name && name != b.name
    requires other != name && other != a.name && other != b.name
    ensures Valid(Pair(a, b, name, w))
    ensures var r := AddEdge(Pair(a, b, name, w), a, b, Edge(a, b, other, w'));
            && r.Ok? && r.value.adj[a].Keys == {b} && r.value.adj[a][b].name == other
            && NumEdges(r.value) == 2 && !Valid(r.value)
  {
    PairIsValid(a, b, name, w);
    PairShape(a, b, name, w);
    var g, e, f := Pair(a, b, name, w), Edge(a, b, name, w), Edge(a, b, other, w');
    forall y | y in g.adj[a] ensures y == b {
      assert Key(g.adj[a][y]) in g.edges.Keys;
    }
    hide Pair, Valid;
    assert Key(e) != Key(f);
    Relabelled(g, a, b, e, f);
  }

  /** The relabelling step of `AddEdgeRelabelOvercounts`, on any graph of that shape. */
  lemma Relabelled(g: Graph, a: Vertex, b: Vertex, e: Edge, f: Edge)
    requires a != b && a in g.adj && b in g.adj && g.adj[a].Keys == {b}
    requires g.edges == map[Key(e) := Stored(a, b)]
    requires Key(e) != Key(f) && Hashable(f)
    ensures var r := AddEdge(g, a, b, f);
            && r.Ok? && r.value.adj[a].Keys == {b} && r.value.adj[a][b] == f
            && NumEdges(r.value) == 2 && !Valid(r.value)
  {
    var h := Graph(g.adj[a := g.adj[a][b := f]][b := g.adj[b][a := f]], g.edges[Key(f) := Stored(a, b)]);
    assert AddEdge(g, a, b, f) == Ok(h);
    hide AddEdge;
    assert h.edges.Keys == {Key(e), Key(f)};
    assert !Indexed(h, Key(e));
  }

  /** `add_edge(a, a, e)` stores a self-loop, which the invariant excludes. */
  lemma AddEdgeSelfLoopIsInvalid(a: Vertex, name: string, w: int)
    requires name != a.name
    ensures var r := AddEdge(AddVertex(EmptyGraph(), a), a, a, Edge(a, a, name, w));
            r.Ok? && r.value.adj[a].Keys == {a} && NumEdges(r.value) == 1 && !Valid(r.value)
  {
    var h := AddEdge(AddVertex(EmptyGraph(), a), a, a, Edge(a, a, name, w)).value;
    assert h.adj[a].Keys == {a};
    assert !Joined(h);
  }

  /** In a valid graph no two neighbours of `x` hold equal edges and every stored edge is
      indexed, hence hashable, so `remove_vertex` raises neither `KeyError` nor `TypeError`
      there. */
  lemma ValidIsDeletable(g: Graph, x: Vertex)
    requires Valid(g) && x in g.adj
    ensures Deletable(g, x) && HashableAt(g, x)
    ensures RemoveVertexOutcome(g, x) == Ok(Graph(g.adj - {x}, g.edges - IncidentKeys(g, x)))
  {
    var m := g.adj[x];
    forall y | y in m
      ensures Hashable(m[y])
    {
      assert KeyHashable(Key(m[y]));
      HashableByKey(m[y], m[y]);
    }
    forall y, z | y in m && z in m && y != z
      ensures Key(m[y]) != Key(m[z])
    {
      KeySharesEnds(m[y], m[z]);
    }
  }

  /** Equal edges have the same two ends. */
  lemma KeySharesEnds(d: Edge, e: Edge)
    ensures Key(d) == Key(e) ==> IsEnd(e, d.v1) && IsEnd(e, d.v2)
  {
    if Key(d) == Key(e) {
      assert d.v1 in Key(e).ends && d.v2 in Key(e).ends;
    }
  }

  /** `remove_vertex` with the neighbours' entries for `x` deleted as well. */
  ghost function RemoveVertexDetached(g: Graph, x: Vertex): (r: Result<Graph, GraphError>)
    ensures r.Err? <==> RemoveVertexOutcome(g, x).Err?
    ensures r.Ok? ==> && r.value.adj.Keys == g.adj.Keys - {x}
                      && r.value.edges == RemoveVertexOutcome(g, x).value.edges
                      && (forall u :: u in r.value.adj ==> x !in r.value.adj[u])
                      && (forall u, w :: u in r.value.adj && w != x ==>
                            (w in r.value.adj[u] <==> w in g.adj[u]) && (w in g.adj[u] ==> r.value.adj[u][w] == g.adj[u][w]))
  {
    if x !in g.adj then Err(DoesNotExist)
    else if !HashableAt(g, x) then Err(TypeError)
    else if !Deletable(g, x) then Err(KeyError)
    else
      var adj := map u | u in g.adj && u != x :: g.adj[u] - {x};
      assert adj.Keys == g.adj.Keys - {x};
      Ok(Graph(adj, g.edges - IncidentKeys(g, x)))
  }

  /** Removing a vertex together with every adjacency entry that names it keeps a valid
      graph valid, and on a valid graph it fails only for a missing vertex. */
  lemma RemoveVertexDetachedIsValid(g: Graph, x: Vertex)
    requires Valid(g)
    ensures RemoveVertexDetached(g, x).Err? <==> x !in g.adj
    ensures RemoveVertexDetached(g, x).Ok? ==> Valid(RemoveVertexDetached(g, x).value)
  {
    if x in g.adj {
      ValidIsDeletable(g, x);
      var h := RemoveVertexDetached(g, x).value;
      DetachedSymmetric(g, x, h);
      DetachedCovered(g, x, h);
      DetachedRecorded(g, x, h);
      assert Hashed(h);
    }
  }

  lemma DetachedSymmetric(g: Graph, x: Vertex, h: Graph)
    requires Valid(g) && x in g.adj
    requires h.adj == map u | u in g.adj && u != x :: g.adj[u] - {x}
    ensures Symmetric(h) && Joined(h)
  {
    hide Covered, Recorded;
    forall u, w | u in h.adj && w in h.adj[u]
      ensures w in h.adj && u in h.adj[w] && h.adj[w][u] == h.adj[u][w]
      ensures u != w && Joins(h.adj[u][w], u, w)
    {
      assert u != x && h.adj[u] == g.adj[u] - {x};
      assert w != x && w in g.adj[u] && h.adj[u][w] == g.adj[u][w];
      assert w in g.adj && u in g.adj[w] && g.adj[w][u] == g.adj[u][w];
      assert h.adj[w] == g.adj[w] - {x};
    }
  }

  /** An edge stored between `u` and `w`, neither of them `x`, is not one of `x`'s. */
  lemma NotIncident(g: Graph, x: Vertex, u: Vertex, w: Vertex)
    requires Valid(g) && x in g.adj && u in g.adj && w in g.adj[u] && u != x && w != x
    ensures Key(g.adj[u][w]) !in IncidentKeys(g, x)
  {
    var m := g.adj[x];
    forall y | y in m
      ensures Key(m[y]) != Key(g.adj[u][w])
    {
      KeySharesEnds(m[y], g.adj[u][w]);
    }
  }

  lemma DetachedCovered(g: Graph, x: Vertex, h: Graph)
    requires Valid(g) && x in g.adj
    requires h.adj == map u | u in g.adj && u != x :: g.adj[u] - {x}
    requires h.edges == g.edges - IncidentKeys(g, x)
    ensures Covered(h)
  {
    forall u, w | u in h.adj && w in h.adj[u]
      ensures Key(h.adj[u][w]) in h.edges
    {
      NotIncident(g, x, u, w);
    }
  }

  lemma DetachedRecorded(g: Graph, x: Vertex, h: Graph)
    requires Valid(g) && x in g.adj
    requires h.adj == map u | u in g.adj && u != x :: g.adj[u] - {x}
    requires h.edges == g.edges - IncidentKeys(g, x)
    ensures Recorded(h)
  {
    var m := g.adj[x];
    forall k | k in h.edges
      ensures Indexed(h, k)
    {
      assert Indexed(g, k);
      var s := g.edges[k];
      if s.x == x {
        KeysAtHas(m, m.Keys, s.y);
      } else if s.y == x {
        KeysAtHas(m, m.Keys, s.x);
      }
    }
  }

  /** `add_vertex` that leaves an existing vertex as it is. */
  function AddVertexIfAbsent(g: Graph, x: Vertex): (r: Graph)
    ensures x in r.adj && r.edges == g.edges
    ensures x in g.adj ==> r == g
    ensures x !in g.adj ==> r == AddVertex(g, x)
  {
    if x in g.adj then g else AddVertex(g, x)
  }

  /** Adding a vertex only when it is absent keeps a valid graph valid. */
  lemma AddVertexIfAbsentIsValid(g: Graph, x: Vertex)
    requires Valid(g)
    ensures Valid(AddVertexIfAbsent(g, x))
  {
    if x !in g.adj {
      FreshVertexIsValid(g, x, AddVertex(g, x));
    }
  }

  lemma FreshVertexIsValid(g: Graph, x: Vertex, h: Graph)
    requires Valid(g) && x !in g.adj
    requires h.adj == g.adj[x := map[]] && h.edges == g.edges
    ensures Valid(h)
  {
    hide AddVertex, AddVertexIfAbsent, Recorded;
    FreshVertexLinks(g, x, h);
    FreshVertexRecorded(g, x, h);
  }

  lemma FreshVertexLinks(g: Graph, x: Vertex, h: Graph)
    requires Valid(g) && x !in g.adj
    requires h.adj == g.adj[x := map[]] && h.edges == g.edges
    ensures Symmetric(h) && Joined(h) && Covered(h)
  {
    hide AddVertex, AddVertexIfAbsent, Recorded;
    forall u, w | u in h.adj && w in h.adj[u]
      ensures w in h.adj && u in h.adj[w] && h.adj[w][u] == h.adj[u][w]
      ensures u != w && Joins(h.adj[u][w], u, w) && Key(h.adj[u][w]) in h.edges
    {
      FreshVertexKeeps(g, x, h, u, w);
    }
  }

  /** Each adjacency entry of the graph with a fresh vertex is one of the old graph's. */
  lemma FreshVertexKeeps(g: Graph, x: Vertex, h: Graph, u: Vertex, w: Vertex)
    requires Valid(g) && x !in g.adj
    requires h.adj == g.adj[x := map[]] && h.edges == g.edges
    requires u in h.adj && w in h.adj[u]
    ensures w in h.adj && u in h.adj[w] && h.adj[w][u] == h.adj[u][w]
    ensures u != w && Joins(h.adj[u][w], u, w) && Key(h.adj[u][w]) in h.edges
  {
    hide AddVertex, AddVertexIfAbsent, Recorded;
    assert u != x && h.adj[u] == g.adj[u];
    assert w in g.adj && w != x && h.adj[w] == g.adj[w];
  }

  lemma FreshVertexRecorded(g: Graph, x: Vertex, h: Graph)
    requires Valid(g) && x !in g.adj
    requires h.adj == g.adj[x := map[]] && h.edges == g.edges
    ensures Recorded(h)
  {
    hide AddVertex, AddVertexIfAbsent, Symmetric, Joined, Covered;
    forall k | k in h.edges
      ensures Indexed(h, k)
    {
      assert Indexed(g, k);
      var s := g.edges[k];
      assert s.x != x && h.adj[s.x] == g.adj[s.x];
    }
  }
}
