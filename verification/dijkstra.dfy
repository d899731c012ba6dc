/**
 * `dijkstra` of assignment-2/question-7.cpp: single-source shortest paths
 * over an adjacency map from `char` vertices to lists of (neighbour, weight)
 * edges, with a distance table initialised to `INT_MAX`, a visited set, and
 * a min-heap of (distance, vertex) pairs with lazy deletion of stale entries.
 */
module Dijkstra {
  import opened Wrappers

  type Vertex = char

  /** An edge `(neighbour, weight)`. */
  type Edge = (Vertex, int)

  /** `Graph`: each vertex key with its outgoing edges, in list order. */
  type Graph = map<Vertex, seq<Edge>>

  /** A heap entry `(distance, vertex)`. */
  type Entry = (int, Vertex)

  /** `std::numeric_limits<int>::max()`, the distance of a vertex not reached. */
  const IntMax: int := 0x7FFF_FFFF

  /** `g.at(u)` on a vertex that is not a key of `g` throws `std::out_of_range`. */
  datatype DijkstraError = MissingVertex(u: Vertex)

  // ---------------------------------------------------------------------------
  // Graphs and paths
  // ---------------------------------------------------------------------------

  ghost predicate NonNegative(g: Graph)
  {
    forall u, i :: u in g && 0 <= i < |g[u]| ==> g[u][i].1 >= 0
  }

  /** Every neighbour named in an edge list is itself a key of the graph. */
  ghost predicate Closed(g: Graph)
  {
    forall u, i :: u in g && 0 <= i < |g[u]| ==> g[u][i].0 in g
  }

  /** Every vertex the algorithm can meet: the keys, the start, and every neighbour. */
  ghost function Universe(g: Graph, start: Vertex): set<Vertex>
  {
    g.Keys + {start} + set u, i | u in g && 0 <= i < |g[u]| :: g[u][i].0
  }

  /** The vertex reached from `s` after the first `i` edges of `p`. */
  function Reached(s: Vertex, p: seq<Edge>, i: nat): Vertex
    requires i <= |p|
  {
    if i == 0 then s else p[i - 1].0
  }

  function End(s: Vertex, p: seq<Edge>): Vertex
  {
    Reached(s, p, |p|)
  }

  /** The total weight of the edges of `p`. */
  function Weight(p: seq<Edge>): int
  {
    if p == [] then 0 else Weight(p[..|p| - 1]) + p[|p| - 1].1
  }

  /** `p` is a walk in `g` from `s`: each edge is in the list of the vertex it leaves. */
  ghost predicate IsPath(g: Graph, s: Vertex, p: seq<Edge>)
    decreases |p|
  {
    p == [] || (var q := p[..|p| - 1]; IsPath(g, s, q) && End(s, q) in g && p[|p| - 1] in g[End(s, q)])
  }

  /** Some walk from `s` ends at `v` with total weight `d`. */
  ghost predicate Reaches(g: Graph, s: Vertex, v: Vertex, d: int)
  {
    exists p :: IsPath(g, s, p) && End(s, p) == v && Weight(p) == d
  }

  /**
   * What a correct result states: one entry per vertex of `g`, no entry
   * above `INT_MAX`, no entry above the weight of any walk from `start` to
   * its vertex, and every entry below `INT_MAX` the weight of such a walk.
   * So each entry is the least walk weight, capped at `INT_MAX`.
   */
  ghost predicate ShortestDistances(g: Graph, start: Vertex, dist: map<Vertex, int>)
  {
    && dist.Keys == g.Keys
    && (forall v :: v in dist ==> dist[v] <= IntMax)
    && (forall p :: IsPath(g, start, p) && End(start, p) in dist ==> dist[End(start, p)] <= Weight(p))
    && (forall v :: v in dist && dist[v] < IntMax ==> Reaches(g, start, v, dist[v]))
  }

  /** Extending a walk by an edge of its end vertex. */
  lemma PathSnoc(g: Graph, s: Vertex, p: seq<Edge>, e: Edge)
    requires IsPath(g, s, p) && End(s, p) in g && e in g[End(s, p)]
    ensures IsPath(g, s, p + [e]) && End(s, p + [e]) == e.0 && Weight(p + [e]) == Weight(p) + e.1
  {
    var q := p + [e];
    assert q[..|q| - 1] == p;
  }

  // ---------------------------------------------------------------------------
  // The priority queue
  // ---------------------------------------------------------------------------

  /**
   * Distance first, then vertex in Dafny's (unsigned) `char` order. This is
   * `std::greater<>` on `std::pair<int, char>` except for ties between
   * vertex bytes of 0x80 and above, which a signed `char` puts first.
   */
  predicate EntryLe(a: Entry, b: Entry)
  {
    a.0 < b.0 || (a.0 == b.0 && a.1 <= b.1)
  }

  /**
   * `pq.top()` then `pq.pop()`: the least entry of the heap, and the heap
   * holding every other entry, as many times as before.
   */
  method PopMin(h: seq<Entry>) returns (top: Entry, rest: seq<Entry>)
    requires h != []
    ensures top in h && forall e :: e in h ==> EntryLe(top, e)
    ensures multiset(rest) + multiset{top} == multiset(h)
    ensures forall e :: e in rest ==> e in h
    ensures forall e :: e in h && e != top ==> e in rest
    ensures |rest| + 1 == |h|
  {
    var m := 0;
    for i := 1 to |h|
      invariant 0 <= m < |h|
      invariant forall j :: 0 <= j < i ==> EntryLe(h[m], h[j])
    {
      if !EntryLe(h[m], h[i]) {
        m := i;
      }
    }
    top := h[m];
    rest := h[..m] + h[m + 1..];
    assert h == h[..m] + [top] + h[m + 1..];
    forall e | e in h && e != top ensures e in rest {
      var j :| 0 <= j < |h| && h[j] == e;
      if j < m {
        assert rest[j] == e;
      } else {
        assert rest[j - 1] == e;
      }
    }
  }

  // ---------------------------------------------------------------------------
  // Loop invariants
  // ---------------------------------------------------------------------------

  /** The inputs for which the algorithm computes shortest distances. */
  ghost predicate Good(g: Graph, start: Vertex)
  {
    start in g && NonNegative(g) && Closed(g)
  }

  /** Every heap entry and every visited vertex lies in the finite universe. */
  ghost predicate Bounded(U: set<Vertex>, visited: set<Vertex>, pq: seq<Entry>)
  {
    visited <= U && forall e :: e in pq ==> e.1 in U
  }

  /** `U` holds `start` and every vertex an edge leads to. */
  ghost predicate Covers(g: Graph, start: Vertex, U: set<Vertex>)
  {
    start in U && forall u, i :: u in g && 0 <= i < |g[u]| ==> g[u][i].0 in U
  }

  lemma UniverseCovers(g: Graph, start: Vertex)
    ensures Covers(g, start, Universe(g, start))
  {
    forall u, i | u in g && 0 <= i < |g[u]| ensures g[u][i].0 in Universe(g, start) {
      InUniverse(g, start, u, i);
    }
  }

  /**
   * With non-negative weights and `start` a key: every table entry is
   * non-negative, a vertex that is not a key of `g` has distance 0 (the value
   * `distances[v]` default-inserts), and every heap entry is a key of `g`
   * with a non-negative distance.
   */
  ghost predicate SafeState(g: Graph, start: Vertex, dist: map<Vertex, int>, pq: seq<Entry>)
  {
    && g.Keys <= dist.Keys
    && (forall v :: v in dist ==> dist[v] >= 0)
    && (forall v :: v in dist && v !in g ==> dist[v] == 0)
    && (forall e :: e in pq ==> e.0 >= 0 && e.1 in g)
  }

  /** The edges out of `x` are relaxed: no neighbour is farther than `x` plus the edge's weight. */
  ghost predicate EdgesRelaxed(g: Graph, dist: map<Vertex, int>, x: Vertex)
    requires x in g
  {
    x in dist && forall i :: 0 <= i < |g[x]| ==> g[x][i].0 in dist && dist[g[x][i].0] <= dist[x] + g[x][i].1
  }

  /** Every edge out of a vertex of `done` is relaxed. */
  ghost predicate Relaxed(g: Graph, dist: map<Vertex, int>, done: set<Vertex>)
  {
    forall x :: x in done && x in g ==> EdgesRelaxed(g, dist, x)
  }

  /** The first `i` edges of `u`, left at distance `d`, are relaxed. */
  ghost predicate FirstRelaxed(g: Graph, dist: map<Vertex, int>, u: Vertex, d: int, i: nat)
    requires u in g && i <= |g[u]|
  {
    forall j :: 0 <= j < i ==> g[u][j].0 in dist && dist[g[u][j].0] <= d + g[u][j].1
  }

  /** The level `lvl` separates the visited vertices from the others: none of the first is farther, none of the second nearer. */
  ghost predicate Frontier(dist: map<Vertex, int>, visited: set<Vertex>, lvl: int)
  {
    && (forall x :: x in visited && x in dist ==> dist[x] <= lvl)
    && (forall y :: y in dist && y !in visited ==> lvl <= dist[y])
  }

  /**
   * Heap entries are no nearer than the table says and below `INT_MAX`, and
   * every unvisited vertex with a finite distance has an entry carrying it.
   */
  ghost predicate HeapOk(dist: map<Vertex, int>, visited: set<Vertex>, pq: seq<Entry>)
  {
    && (forall e :: e in pq ==> e.1 in dist && dist[e.1] <= e.0 < IntMax)
    && (forall v :: v in dist && v !in visited && dist[v] < IntMax ==> (dist[v], v) in pq)
  }

  /** Every finite distance is the weight of a recorded walk from `start`. */
  ghost predicate Witnessed(g: Graph, start: Vertex, dist: map<Vertex, int>, paths: map<Vertex, seq<Edge>>)
  {
    forall v :: v in dist && dist[v] < IntMax ==>
      v in paths && IsPath(g, start, paths[v]) && End(start, paths[v]) == v && Weight(paths[v]) == dist[v]
  }

  /** The invariant of the main loop for good inputs, apart from relaxation. */
  ghost predicate Core(g: Graph, start: Vertex, dist: map<Vertex, int>, visited: set<Vertex>,
                       pq: seq<Entry>, paths: map<Vertex, seq<Edge>>, lvl: int)
  {
    && dist.Keys == g.Keys && start in dist && dist[start] == 0
    && (forall v :: v in dist ==> 0 <= dist[v] <= IntMax)
    && visited <= dist.Keys
    && Frontier(dist, visited, lvl)
    && HeapOk(dist, visited, pq)
    && Witnessed(g, start, dist, paths)
  }

  /** The invariant of the main loop for good inputs. */
  ghost predicate Inv(g: Graph, start: Vertex, dist: map<Vertex, int>, visited: set<Vertex>,
                      pq: seq<Entry>, paths: map<Vertex, seq<Edge>>, lvl: int)
  {
    Core(g, start, dist, visited, pq, paths, lvl) && Relaxed(g, dist, visited)
  }

  /**
   * The state while the edges of the vertex `u` just visited at distance
   * `d` are relaxed: `u` is the farthest visited vertex, edges out of the
   * other visited vertices are relaxed, and so are the first `i` edges of `u`.
   */
  ghost predicate Relaxing(g: Graph, start: Vertex, dist: map<Vertex, int>, visited: set<Vertex>,
                           pq: seq<Entry>, paths: map<Vertex, seq<Edge>>, u: Vertex, d: int, i: nat)
  {
    && u in visited && u in g && u in dist && d == dist[u] && i <= |g[u]|
    && Core(g, start, dist, visited, pq, paths, d)
    && Relaxed(g, dist, visited - {u})
    && FirstRelaxed(g, dist, u, d, i)
  }

  /**
   * The invariant of the main loop for every input: the table covers the
   * keys and `start`; before the first pop the heap holds only `(0, start)`;
   * with non-negative weights and `start` a key the state is safe; for good
   * inputs the shortest-path invariant holds.
   */
  ghost predicate MainLoop(g: Graph, start: Vertex, U: set<Vertex>, dist: map<Vertex, int>, visited: set<Vertex>,
                           pq: seq<Entry>, paths: map<Vertex, seq<Edge>>, lvl: int)
  {
    && start in dist && g.Keys <= dist.Keys
    && Covers(g, start, U) && Bounded(U, visited, pq)
    && (visited == {} ==> pq == [(0, start)])
    && (start !in g ==> visited == {})
    && (start in g && NonNegative(g) ==> SafeState(g, start, dist, pq))
    && (Good(g, start) ==> Inv(g, start, dist, visited, pq, paths, lvl))
  }

  /** The invariant of the inner loop after the first `i` edges of the vertex `u` popped at distance `d`. */
  ghost predicate RelaxLoop(g: Graph, start: Vertex, U: set<Vertex>, u: Vertex, d: int, dist: map<Vertex, int>,
                            visited: set<Vertex>, pq: seq<Entry>, paths: map<Vertex, seq<Edge>>, i: nat)
  {
    && start in g && u in g && u in visited && i <= |g[u]|
    && g.Keys <= dist.Keys
    && Covers(g, start, U) && Bounded(U, visited, pq)
    && (NonNegative(g) ==> d >= 0 && SafeState(g, start, dist, pq))
    && (Good(g, start) ==> Relaxing(g, start, dist, visited, pq, paths, u, d, i))
  }

  // ---------------------------------------------------------------------------
  // Steps of the main loop
  // ---------------------------------------------------------------------------

  /** Popping a stale entry of a visited vertex keeps the invariant. */
  lemma SkipStep(g: Graph, start: Vertex, dist: map<Vertex, int>, visited: set<Vertex>,
                 pq: seq<Entry>, paths: map<Vertex, seq<Edge>>, lvl: int, top: Entry, rest: seq<Entry>)
    requires Inv(g, start, dist, visited, pq, paths, lvl)
    requires top.1 in visited
    requires forall e :: e in rest ==> e in pq
    requires forall e :: e in pq && e != top ==> e in rest
    ensures Inv(g, start, dist, visited, rest, paths, lvl)
  {
  }

  /** The main loop's invariant survives skipping a visited vertex. */
  lemma SkipOk(g: Graph, start: Vertex, U: set<Vertex>, dist: map<Vertex, int>, visited: set<Vertex>,
               pq: seq<Entry>, paths: map<Vertex, seq<Edge>>, lvl: int, top: Entry, rest: seq<Entry>)
    requires MainLoop(g, start, U, dist, visited, pq, paths, lvl)
    requires top.1 in visited
    requires forall e :: e in rest ==> e in pq
    requires forall e :: e in pq && e != top ==> e in rest
    ensures MainLoop(g, start, U, dist, visited, rest, paths, lvl)
  {
    if Good(g, start) {
      SkipStep(g, start, dist, visited, pq, paths, lvl, top, rest);
    }
  }

  /**
   * The least entry of an unvisited vertex carries that vertex's distance,
   * which is no smaller than that of any visited vertex and no larger than
   * that of any unvisited one.
   */
  lemma VisitFrontier(dist: map<Vertex, int>, visited: set<Vertex>, pq: seq<Entry>, lvl: int, top: Entry)
    requires Frontier(dist, visited, lvl) && HeapOk(dist, visited, pq)
    requires forall v :: v in dist ==> dist[v] <= IntMax
    requires top in pq && (forall e :: e in pq ==> EntryLe(top, e)) && top.1 !in visited
    ensures top.1 in dist && dist[top.1] == top.0
    ensures Frontier(dist, visited + {top.1}, top.0)
  {
    var d, u := top.0, top.1;
    assert (dist[u], u) in pq;
    forall y | y in dist && y !in visited && dist[y] < IntMax ensures d <= dist[y] {
      assert (dist[y], y) in pq;
    }
  }

  /** Popping the entry of an unvisited vertex and visiting it keeps the heap's invariant. */
  lemma VisitHeap(dist: map<Vertex, int>, visited: set<Vertex>, pq: seq<Entry>, top: Entry, rest: seq<Entry>)
    requires HeapOk(dist, visited, pq)
    requires forall e :: e in rest ==> e in pq
    requires forall e :: e in pq && e != top ==> e in rest
    ensures HeapOk(dist, visited + {top.1}, rest)
  {
  }

  /**
   * Popping the least entry of an unvisited vertex: its distance is the
   * table's, no smaller than any other unvisited distance, and visiting it
   * starts the relaxation of its edges.
   */
  lemma VisitStep(g: Graph, start: Vertex, dist: map<Vertex, int>, visited: set<Vertex>,
                  pq: seq<Entry>, paths: map<Vertex, seq<Edge>>, lvl: int, top: Entry, rest: seq<Entry>)
    requires Good(g, start) && Inv(g, start, dist, visited, pq, paths, lvl)
    requires top in pq && forall e :: e in pq ==> EntryLe(top, e)
    requires top.1 !in visited
    requires forall e :: e in rest ==> e in pq
    requires forall e :: e in pq && e != top ==> e in rest
    ensures Relaxing(g, start, dist, visited + {top.1}, rest, paths, top.1, top.0, 0)
  {
    VisitFrontier(dist, visited, pq, lvl, top);
    VisitHeap(dist, visited, pq, top, rest);
    assert (visited + {top.1}) - {top.1} == visited;
  }

  /** Visiting the popped vertex sets up the inner loop. */
  lemma VisitOk(g: Graph, start: Vertex, U: set<Vertex>, dist: map<Vertex, int>, visited: set<Vertex>,
                pq: seq<Entry>, paths: map<Vertex, seq<Edge>>, lvl: int, top: Entry, rest: seq<Entry>)
    requires MainLoop(g, start, U, dist, visited, pq, paths, lvl)
    requires top in pq && forall e :: e in pq ==> EntryLe(top, e)
    requires top.1 !in visited && top.1 in g
    requires forall e :: e in rest ==> e in pq
    requires forall e :: e in pq && e != top ==> e in rest
    ensures top.1 in U
    ensures RelaxLoop(g, start, U, top.1, top.0, dist, visited + {top.1}, rest, paths, 0)
  {
    if Good(g, start) {
      VisitStep(g, start, dist, visited, pq, paths, lvl, top, rest);
    }
  }

  /** Relaxing edge `i` of `u` when it shortens the way to an unvisited neighbour. */
  lemma RelaxEdge(g: Graph, start: Vertex, dist: map<Vertex, int>, visited: set<Vertex>,
                  pq: seq<Entry>, paths: map<Vertex, seq<Edge>>, u: Vertex, d: int, i: nat)
    requires Relaxing(g, start, dist, visited, pq, paths, u, d, i) && i < |g[u]| && g[u][i].1 >= 0
    requires g[u][i].0 !in visited && g[u][i].0 in dist && d + g[u][i].1 < dist[g[u][i].0] && u in paths
    ensures var e := g[u][i];
      Relaxing(g, start, dist[e.0 := d + e.1], visited, pq + [(d + e.1, e.0)], paths[e.0 := paths[u] + [e]], u, d, i + 1)
  {
    var e := g[u][i];
    var dist', pq', paths' := dist[e.0 := d + e.1], pq + [(d + e.1, e.0)], paths[e.0 := paths[u] + [e]];
    RelaxCore(g, start, dist, visited, pq, paths, u, d, e, dist', pq', paths');
    RelaxRest(g, dist, visited, u, d, i, dist');
  }

  /** Lowering the distance of an unvisited neighbour keeps the edges seen so far relaxed. */
  lemma RelaxRest(g: Graph, dist: map<Vertex, int>, visited: set<Vertex>, u: Vertex, d: int, i: nat,
                  dist': map<Vertex, int>)
    requires u in g && i < |g[u]| && u in visited && g[u][i].0 !in visited
    requires g[u][i].0 in dist && d + g[u][i].1 < dist[g[u][i].0]
    requires Relaxed(g, dist, visited - {u}) && FirstRelaxed(g, dist, u, d, i)
    requires dist' == dist[g[u][i].0 := d + g[u][i].1]
    ensures Relaxed(g, dist', visited - {u}) && FirstRelaxed(g, dist', u, d, i + 1)
  {
    RelaxedUpdate(g, dist, visited - {u}, g[u][i].0, d + g[u][i].1);
    PartialUpdate(g, u, d, i, dist, g[u][i].0, d + g[u][i].1);
  }

  /** Storing and pushing a shorter distance for an unvisited neighbour keeps the core invariant. */
  lemma RelaxCore(g: Graph, start: Vertex, dist: map<Vertex, int>, visited: set<Vertex>,
                  pq: seq<Entry>, paths: map<Vertex, seq<Edge>>, u: Vertex, d: int, e: Edge,
                  dist': map<Vertex, int>, pq': seq<Entry>, paths': map<Vertex, seq<Edge>>)
    requires Core(g, start, dist, visited, pq, paths, d)
    requires u in visited && u in g && e in g[u] && u in dist && d == dist[u] && e.1 >= 0
    requires e.0 !in visited && e.0 in dist && d + e.1 < dist[e.0]
    requires dist' == dist[e.0 := d + e.1] && pq' == pq + [(d + e.1, e.0)]
    requires paths' == paths[e.0 := paths[u] + [e]]
    ensures Core(g, start, dist', visited, pq', paths', d)
  {
    var v, nd := e.0, d + e.1;
    assert d < IntMax;
    assert Frontier(dist', visited, d) by {
      FrontierUpdate(dist, visited, v, nd, d, dist');
    }
    assert HeapOk(dist', visited, pq') by {
      HeapUpdate(dist, visited, pq, v, nd, dist', pq');
    }
    assert Witnessed(g, start, dist', paths') by {
      WitnessUpdate(g, start, dist, paths, u, e, nd, dist', paths');
    }
    RangeUpdate(dist, v, nd, dist');
    assert v != start && dist'.Keys == dist.Keys;
  }

  lemma RangeUpdate(dist: map<Vertex, int>, v: Vertex, nd: int, dist': map<Vertex, int>)
    requires forall x :: x in dist ==> 0 <= dist[x] <= IntMax
    requires 0 <= nd <= IntMax && dist' == dist[v := nd]
    ensures forall x :: x in dist' ==> 0 <= dist'[x] <= IntMax
  {
  }

  lemma FrontierUpdate(dist: map<Vertex, int>, visited: set<Vertex>, v: Vertex, nd: int, d: int,
                       dist': map<Vertex, int>)
    requires Frontier(dist, visited, d) && v !in visited && v in dist && d <= nd
    requires dist' == dist[v := nd]
    ensures Frontier(dist', visited, d)
  {
  }

  lemma HeapUpdate(dist: map<Vertex, int>, visited: set<Vertex>, pq: seq<Entry>, v: Vertex, nd: int,
                   dist': map<Vertex, int>, pq': seq<Entry>)
    requires HeapOk(dist, visited, pq) && v in dist && nd < dist[v] <= IntMax
    requires dist' == dist[v := nd] && pq' == pq + [(nd, v)]
    ensures HeapOk(dist', visited, pq')
  {
    forall e | e in pq' ensures e.1 in dist' && dist'[e.1] <= e.0 < IntMax {
      if e != (nd, v) {
        assert e in pq;
      }
    }
    forall x | x in dist' && x !in visited && dist'[x] < IntMax ensures (dist'[x], x) in pq' {
      if x != v {
        assert (dist[x], x) in pq;
      } else {
        assert pq'[|pq|] == (nd, v);
      }
    }
  }

  lemma WitnessUpdate(g: Graph, start: Vertex, dist: map<Vertex, int>, paths: map<Vertex, seq<Edge>>,
                      u: Vertex, e: Edge, nd: int, dist': map<Vertex, int>, paths': map<Vertex, seq<Edge>>)
    requires Witnessed(g, start, dist, paths)
    requires u in g && u in paths && IsPath(g, start, paths[u]) && End(start, paths[u]) == u
    requires e in g[u] && nd == Weight(paths[u]) + e.1
    requires dist' == dist[e.0 := nd] && paths' == paths[e.0 := paths[u] + [e]]
    ensures Witnessed(g, start, dist', paths')
  {
    PathSnoc(g, start, paths[u], e);
    forall x | x in dist' && dist'[x] < IntMax
      ensures x in paths' && IsPath(g, start, paths'[x]) && End(start, paths'[x]) == x && Weight(paths'[x]) == dist'[x]
    {
      if x != e.0 {
        assert dist'[x] == dist[x] && paths'[x] == paths[x];
      }
    }
  }

  lemma RelaxedUpdate(g: Graph, dist: map<Vertex, int>, done: set<Vertex>, v: Vertex, nd: int)
    requires Relaxed(g, dist, done) && v !in done && v in dist && nd < dist[v]
    ensures Relaxed(g, dist[v := nd], done)
  {
    forall x | x in done && x in g ensures EdgesRelaxed(g, dist[v := nd], x) {
      assert EdgesRelaxed(g, dist, x);
    }
  }

  lemma PartialUpdate(g: Graph, u: Vertex, d: int, i: nat, dist: map<Vertex, int>, v: Vertex, nd: int)
    requires u in g && i < |g[u]| && g[u][i].0 == v && nd == d + g[u][i].1
    requires v in dist && nd < dist[v]
    requires FirstRelaxed(g, dist, u, d, i)
    ensures FirstRelaxed(g, dist[v := nd], u, d, i + 1)
  {
  }

  /** Passing over edge `i` of `u` when it does not shorten anything keeps the relaxation state. */
  lemma KeepEdge(g: Graph, start: Vertex, dist: map<Vertex, int>, visited: set<Vertex>,
                 pq: seq<Entry>, paths: map<Vertex, seq<Edge>>, u: Vertex, d: int, i: nat)
    requires Relaxing(g, start, dist, visited, pq, paths, u, d, i) && i < |g[u]| && g[u][i].1 >= 0
    requires g[u][i].0 in dist && (g[u][i].0 in visited || d + g[u][i].1 >= dist[g[u][i].0])
    ensures Relaxing(g, start, dist, visited, pq, paths, u, d, i + 1)
  {
  }

  /** Once every edge of `u` is relaxed, the main loop's invariant holds again. */
  lemma RelaxDone(g: Graph, start: Vertex, dist: map<Vertex, int>, visited: set<Vertex>,
                  pq: seq<Entry>, paths: map<Vertex, seq<Edge>>, u: Vertex, d: int)
    requires u in g && Relaxing(g, start, dist, visited, pq, paths, u, d, |g[u]|)
    ensures Inv(g, start, dist, visited, pq, paths, d)
  {
    assert EdgesRelaxed(g, dist, u);
    assert (visited - {u}) + {u} == visited;
  }

  /** The vertex an edge leads to is one the algorithm can meet. */
  lemma InUniverse(g: Graph, start: Vertex, u: Vertex, i: nat)
    requires u in g && i < |g[u]|
    ensures g[u][i].0 in Universe(g, start)
  {
  }

  /** `distances[v]`: the table's entry, or the 0 that reading an absent key inserts. */
  function DistanceOf(dist: map<Vertex, int>, v: Vertex): int
  {
    if v in dist then dist[v] else 0
  }

  /** The edge `e` out of a vertex popped at distance `d` leads to an unvisited vertex and shortens its distance. */
  predicate Shortens(dist: map<Vertex, int>, visited: set<Vertex>, d: int, e: Edge)
  {
    e.0 !in visited && d + e.1 < DistanceOf(dist, e.0)
  }

  /**
   * The body of the inner loop for the edge `e = (v, weight)` of a vertex
   * popped at distance `d`: a visited `v` is passed over; otherwise
   * `distances[v]` is read, inserting 0 when absent, and a smaller
   * `d + weight` is stored and pushed.
   */
  function EdgeStep(dist: map<Vertex, int>, visited: set<Vertex>, pq: seq<Entry>, d: int, e: Edge)
    : (r: (map<Vertex, int>, seq<Entry>))
    ensures r.0.Keys == if e.0 in visited then dist.Keys else dist.Keys + {e.0}
    ensures forall x :: x in dist && x != e.0 ==> r.0[x] == dist[x]
    ensures e.0 in dist ==> e.0 in r.0 && r.0[e.0] <= dist[e.0]
    ensures r.1 == pq || (e.0 in r.0 && r.1 == pq + [(d + e.1, e.0)] && r.0[e.0] == d + e.1)
    ensures e.0 in visited ==> r == (dist, pq)
    ensures e.0 in dist && r.0[e.0] != dist[e.0] ==> r.0[e.0] == d + e.1 && r.1 == pq + [(d + e.1, e.0)]
    ensures e.0 !in visited && e.0 !in dist ==> r.0[e.0] == if d + e.1 < 0 then d + e.1 else 0
  {
    if e.0 in visited then (dist, pq)
    else if Shortens(dist, visited, d, e) then (dist[e.0 := d + e.1], pq + [(d + e.1, e.0)])
    else (dist[e.0 := DistanceOf(dist, e.0)], pq)
  }

  /** A step along an edge that shortens stores and pushes the new distance. */
  lemma StepShortens(dist: map<Vertex, int>, visited: set<Vertex>, pq: seq<Entry>, d: int, e: Edge,
                     dist': map<Vertex, int>, pq': seq<Entry>)
    requires (dist', pq') == EdgeStep(dist, visited, pq, d, e) && Shortens(dist, visited, d, e)
    ensures dist' == dist[e.0 := d + e.1] && pq' == pq + [(d + e.1, e.0)]
  {
    assert EdgeStep(dist, visited, pq, d, e) == (dist[e.0 := d + e.1], pq + [(d + e.1, e.0)]);
  }

  /** A step along an edge that does not shorten changes nothing once its neighbour is in the table. */
  lemma StepKeeps(dist: map<Vertex, int>, visited: set<Vertex>, pq: seq<Entry>, d: int, e: Edge,
                  dist': map<Vertex, int>, pq': seq<Entry>)
    requires (dist', pq') == EdgeStep(dist, visited, pq, d, e) && !Shortens(dist, visited, d, e) && e.0 in dist
    ensures dist' == dist && pq' == pq
  {
  }

  /** The safety part of one step of the inner loop. */
  lemma EdgeStepSafe(g: Graph, start: Vertex, U: set<Vertex>, u: Vertex, d: int, i: nat, dist: map<Vertex, int>,
                     visited: set<Vertex>, pq: seq<Entry>, dist': map<Vertex, int>, pq': seq<Entry>)
    requires start in g && u in g && i < |g[u]| && g.Keys <= dist.Keys && Bounded(U, visited, pq)
    requires g[u][i].0 in U
    requires NonNegative(g) ==> d >= 0 && SafeState(g, start, dist, pq)
    requires (dist', pq') == EdgeStep(dist, visited, pq, d, g[u][i])
    ensures g.Keys <= dist'.Keys && Bounded(U, visited, pq')
    ensures NonNegative(g) ==> SafeState(g, start, dist', pq')
  {
    if NonNegative(g) {
      assert g[u][i].1 >= 0;
    }
  }

  /** One step of the inner loop keeps its invariant. */
  lemma EdgeStepOk(g: Graph, start: Vertex, U: set<Vertex>, u: Vertex, d: int, i: nat, dist: map<Vertex, int>,
                   visited: set<Vertex>, pq: seq<Entry>, paths: map<Vertex, seq<Edge>>,
                   dist': map<Vertex, int>, pq': seq<Entry>, paths': map<Vertex, seq<Edge>>)
    requires RelaxLoop(g, start, U, u, d, dist, visited, pq, paths, i) && i < |g[u]|
    requires (dist', pq') == EdgeStep(dist, visited, pq, d, g[u][i])
    requires paths' == if Shortens(dist, visited, d, g[u][i]) && u in paths
                       then paths[g[u][i].0 := paths[u] + [g[u][i]]] else paths
    ensures RelaxLoop(g, start, U, u, d, dist', visited, pq', paths', i + 1)
  {
    EdgeStepSafe(g, start, U, u, d, i, dist, visited, pq, dist', pq');
    if Good(g, start) {
      assert g[u][i].0 in g && g[u][i].1 >= 0;
      EdgeStepGood(g, start, u, d, i, dist, visited, pq, paths, dist', pq', paths');
    }
  }

  /** With the edge's neighbour in the table and its weight non-negative, one step of the inner loop keeps the relaxation state. */
  lemma EdgeStepGood(g: Graph, start: Vertex, u: Vertex, d: int, i: nat, dist: map<Vertex, int>,
                     visited: set<Vertex>, pq: seq<Entry>, paths: map<Vertex, seq<Edge>>,
                     dist': map<Vertex, int>, pq': seq<Entry>, paths': map<Vertex, seq<Edge>>)
    requires Relaxing(g, start, dist, visited, pq, paths, u, d, i) && i < |g[u]|
    requires g[u][i].0 in dist && g[u][i].1 >= 0
    requires (dist', pq') == EdgeStep(dist, visited, pq, d, g[u][i])
    requires paths' == if Shortens(dist, visited, d, g[u][i]) && u in paths
                       then paths[g[u][i].0 := paths[u] + [g[u][i]]] else paths
    ensures Relaxing(g, start, dist', visited, pq', paths', u, d, i + 1)
  {
    var e := g[u][i];
    if Shortens(dist, visited, d, e) {
      assert u in paths by {
        assert Witnessed(g, start, dist, paths) && dist[u] == d;
        assert d < IntMax;
      }
      StepShortens(dist, visited, pq, d, e, dist', pq');
      RelaxEdge(g, start, dist, visited, pq, paths, u, d, i);
    } else {
      StepKeeps(dist, visited, pq, d, e, dist', pq');
      KeepEdge(g, start, dist, visited, pq, paths, u, d, i);
    }
  }

  /** Leaving the inner loop restores the main loop's invariant. */
  lemma RelaxLoopDone(g: Graph, start: Vertex, U: set<Vertex>, u: Vertex, d: int, dist: map<Vertex, int>,
                      visited: set<Vertex>, pq: seq<Entry>, paths: map<Vertex, seq<Edge>>)
    requires u in g && RelaxLoop(g, start, U, u, d, dist, visited, pq, paths, |g[u]|)
    ensures MainLoop(g, start, U, dist, visited, pq, paths, d)
  {
    if Good(g, start) {
      RelaxDone(g, start, dist, visited, pq, paths, u, d);
    }
  }

  /**
   * A popped unvisited vertex that is not a key: this happens for `start`
   * when it is not a key, and never with non-negative weights and `start` a
   * key.
   */
  lemma MissingOk(g: Graph, start: Vertex, U: set<Vertex>, dist: map<Vertex, int>, visited: set<Vertex>,
                  pq: seq<Entry>, paths: map<Vertex, seq<Edge>>, lvl: int, top: Entry)
    requires MainLoop(g, start, U, dist, visited, pq, paths, lvl)
    requires top in pq && top.1 !in visited && top.1 !in g
    ensures start !in g ==> top.1 == start
    ensures !(start in g && NonNegative(g))
  {
  }

  /** The state before the main loop. */
  lemma InitOk(g: Graph, start: Vertex, U: set<Vertex>, dist: map<Vertex, int>)
    requires dist == (map v | v in g :: IntMax)[start := 0] && Covers(g, start, U)
    ensures MainLoop(g, start, U, dist, {}, [(0, start)], map[start := []], 0)
  {
    assert Weight([]) == 0;
    assert IsPath(g, start, []);
  }

  /** What the table states when the heap runs empty. */
  lemma ExitOk(g: Graph, start: Vertex, U: set<Vertex>, dist: map<Vertex, int>, visited: set<Vertex>,
               paths: map<Vertex, seq<Edge>>, lvl: int)
    requires MainLoop(g, start, U, dist, visited, [], paths, lvl)
    ensures start in g && g.Keys <= dist.Keys && start in dist
    ensures NonNegative(g) ==> forall v :: v in dist && v !in g ==> dist[v] == 0
    ensures Good(g, start) ==> ShortestDistances(g, start, dist)
  {
    if Good(g, start) {
      Finish(g, start, dist, visited, paths, lvl);
    }
  }

  /** A walk without its last edge is a walk, ending where that edge starts. */
  lemma PathPrefix(g: Graph, s: Vertex, p: seq<Edge>)
    requires IsPath(g, s, p) && p != []
    ensures var q := p[..|p| - 1];
      && IsPath(g, s, q) && End(s, q) in g && p[|p| - 1] in g[End(s, q)]
      && End(s, p) == p[|p| - 1].0 && Weight(p) == Weight(q) + p[|p| - 1].1
  {
  }

  /**
   * With every finite distance that of a visited vertex and every visited
   * vertex's edges relaxed, no walk from `start` is lighter than the
   * distance of its end.
   */
  lemma {:induction false} LowerBound(g: Graph, start: Vertex, dist: map<Vertex, int>, visited: set<Vertex>, p: seq<Edge>)
    requires NonNegative(g) && g.Keys <= dist.Keys && start in dist && dist[start] == 0
    requires forall v :: v in dist ==> dist[v] <= IntMax
    requires forall v :: v in dist && dist[v] < IntMax ==> v in visited
    requires Relaxed(g, dist, visited)
    requires IsPath(g, start, p) && End(start, p) in dist
    ensures dist[End(start, p)] <= Weight(p)
    decreases |p|
  {
    if p != [] {
      var q, e := p[..|p| - 1], p[|p| - 1];
      PathPrefix(g, start, p);
      var x := End(start, q);
      LowerBound(g, start, dist, visited, q);
      var k :| 0 <= k < |g[x]| && g[x][k] == e;
      assert e.1 >= 0;
      if dist[x] < IntMax {
        assert EdgesRelaxed(g, dist, x);
      }
    }
  }

  /** At the end of the main loop the table holds the shortest distances. */
  lemma Finish(g: Graph, start: Vertex, dist: map<Vertex, int>, visited: set<Vertex>,
               paths: map<Vertex, seq<Edge>>, lvl: int)
    requires Good(g, start) && Inv(g, start, dist, visited, [], paths, lvl)
    ensures ShortestDistances(g, start, dist)
  {
    forall p | IsPath(g, start, p) && End(start, p) in dist ensures dist[End(start, p)] <= Weight(p) {
      LowerBound(g, start, dist, visited, p);
    }
    forall v | v in dist && dist[v] < IntMax ensures Reaches(g, start, v, dist[v]) {
      assert IsPath(g, start, paths[v]) && End(start, paths[v]) == v && Weight(paths[v]) == dist[v];
    }
  }

  // ---------------------------------------------------------------------------
  // The algorithm
  // ---------------------------------------------------------------------------

  /**
   * `dijkstra(g, start)`. Every key of `g` starts at `INT_MAX`, `start` at 0
   * (inserted even when it is not a key) and on the heap; each popped vertex
   * not yet visited is marked visited and its edges relaxed, `g.at(u)`
   * failing for a vertex that is not a key. With non-negative weights and
   * `start` a key it never fails, and a neighbour that is not a key is
   * reported at distance 0, the value `distances[v]` inserts; when every
   * neighbour is a key the result is the shortest-distance table.
   */
  method Dijkstra(g: Graph, start: Vertex) returns (r: Result<map<Vertex, int>, DijkstraError>)
    ensures start !in g ==> r == Failure(MissingVertex(start))
    ensures r.Failure? ==> r.error.u !in g
    ensures r.Success? ==> g.Keys <= r.value.Keys && start in r.value
    ensures start in g && NonNegative(g) ==>
      r.Success? && forall v :: v in r.value && v !in g ==> r.value[v] == 0
    ensures Good(g, start) ==> r.Success? && ShortestDistances(g, start, r.value)
  {
    var dist: map<Vertex, int> := map v | v in g :: IntMax;
    dist := dist[start := 0];
    var visited: set<Vertex> := {};
    var pq: seq<Entry> := [(0, start)];
    ghost var paths: map<Vertex, seq<Edge>> := map[start := []];
    ghost var lvl := 0;
    ghost var U := Universe(g, start);
    UniverseCovers(g, start);
    InitOk(g, start, U, dist);
    while pq != []
      invariant MainLoop(g, start, U, dist, visited, pq, paths, lvl)
      decreases |U - visited|, |pq|
    {
      var missing;
      missing, dist, visited, pq, paths, lvl := Step(g, start, U, dist, visited, pq, paths, lvl);
      if missing.Some? {
        return Failure(MissingVertex(missing.value));
      }
    }
    ExitOk(g, start, U, dist, visited, paths, lvl);
    return Success(dist);
  }

  /**
   * One pass of the main loop: pop the least entry; pass over a vertex
   * already visited; report a vertex that is not a key (`g.at(u)` throws);
   * otherwise visit it.
   */
  method Step(g: Graph, ghost start: Vertex, ghost U: set<Vertex>, dist0: map<Vertex, int>,
              visited0: set<Vertex>, pq0: seq<Entry>, ghost paths0: map<Vertex, seq<Edge>>, ghost lvl0: int)
    returns (missing: Option<Vertex>, dist: map<Vertex, int>, visited: set<Vertex>, pq: seq<Entry>,
             ghost paths: map<Vertex, seq<Edge>>, ghost lvl: int)
    requires pq0 != [] && MainLoop(g, start, U, dist0, visited0, pq0, paths0, lvl0)
    ensures missing.Some? ==> missing.value !in g && (start !in g ==> missing.value == start)
    ensures missing.Some? ==> !(start in g && NonNegative(g))
    ensures missing.None? ==> MainLoop(g, start, U, dist, visited, pq, paths, lvl)
    ensures missing.None? ==> |U - visited| < |U - visited0| || (visited == visited0 && |pq| < |pq0|)
  {
    var top, rest := PopMin(pq0);
    var u := top.1;
    if u in visited0 {
      SkipOk(g, start, U, dist0, visited0, pq0, paths0, lvl0, top, rest);
      return None, dist0, visited0, rest, paths0, lvl0;
    }
    if u !in g {
      MissingOk(g, start, U, dist0, visited0, pq0, paths0, lvl0, top);
      return Some(u), dist0, visited0, pq0, paths0, lvl0;
    }
    dist, visited, pq, paths := Visit(g, start, U, top, rest, dist0, visited0, pq0, paths0, lvl0);
    assert U - visited == (U - visited0) - {u};
    missing, lvl := None, top.0;
  }

  /**
   * A popped vertex `u` that is unvisited and a key: mark it visited and
   * relax its edges.
   */
  method Visit(g: Graph, ghost start: Vertex, ghost U: set<Vertex>, top: Entry, rest: seq<Entry>,
               dist0: map<Vertex, int>, visited0: set<Vertex>, ghost pq0: seq<Entry>,
               ghost paths0: map<Vertex, seq<Edge>>, ghost lvl: int)
    returns (dist: map<Vertex, int>, visited: set<Vertex>, pq: seq<Entry>, ghost paths: map<Vertex, seq<Edge>>)
    requires MainLoop(g, start, U, dist0, visited0, pq0, paths0, lvl)
    requires top in pq0 && forall e :: e in pq0 ==> EntryLe(top, e)
    requires top.1 !in visited0 && top.1 in g
    requires forall e :: e in rest ==> e in pq0
    requires forall e :: e in pq0 && e != top ==> e in rest
    ensures visited == visited0 + {top.1} && top.1 in U
    ensures MainLoop(g, start, U, dist, visited, pq, paths, top.0)
  {
    VisitOk(g, start, U, dist0, visited0, pq0, paths0, lvl, top, rest);
    visited := visited0 + {top.1};
    dist, pq, paths := Relax(g, start, U, top.1, top.0, dist0, visited, rest, paths0);
  }

  /**
   * The inner loop: each edge `(v, weight)` of `g.at(u)`, in list order,
   * goes through `EdgeStep`.
   */
  method Relax(g: Graph, ghost start: Vertex, ghost U: set<Vertex>, u: Vertex, d: int, dist0: map<Vertex, int>,
               visited: set<Vertex>, pq0: seq<Entry>, ghost paths0: map<Vertex, seq<Edge>>)
    returns (dist: map<Vertex, int>, pq: seq<Entry>, ghost paths: map<Vertex, seq<Edge>>)
    requires RelaxLoop(g, start, U, u, d, dist0, visited, pq0, paths0, 0)
    ensures MainLoop(g, start, U, dist, visited, pq, paths, d)
    ensures forall x :: x in dist0 ==> x in dist && dist[x] <= dist0[x]
    ensures |pq0| <= |pq| && pq[..|pq0|] == pq0
  {
    dist, pq, paths := dist0, pq0, paths0;
    var edges := g[u];
    for i := 0 to |edges|
      invariant RelaxLoop(g, start, U, u, d, dist, visited, pq, paths, i)
      invariant forall x :: x in dist0 ==> x in dist && dist[x] <= dist0[x]
      invariant |pq0| <= |pq| && pq[..|pq0|] == pq0
    {
      var e := edges[i];
      var step := EdgeStep(dist, visited, pq, d, e);
      ghost var paths' := if Shortens(dist, visited, d, e) && u in paths then paths[e.0 := paths[u] + [e]] else paths;
      EdgeStepOk(g, start, U, u, d, i, dist, visited, pq, paths, step.0, step.1, paths');
      dist, pq, paths := step.0, step.1, paths';
    }
    RelaxLoopDone(g, start, U, u, d, dist, visited, pq, paths);
  }
}
