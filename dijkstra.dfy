/**
 * `dijkstra(graph, start)`: single-source shortest distances with a binary
 * heap and lazy deletion.
 *
 * The graph maps each node to its adjacency list of `(neighbour, weight)`
 * pairs. Distances are `Some(d)`, or `None` for the source's `float('inf')`.
 * The heap is a multiset of `(distance, node)` entries from which the
 * loop removes an entry of least distance; which of several equal entries
 * `heapq` would return is left open.
 */
module Dijkstra {
  import opened Wrappers
  import opened Seqs

  type Node = string
  /** An adjacency entry: the neighbour and the weight of the edge to it. */
  type Edge = (Node, nat)
  type Graph = map<Node, seq<Edge>>
  type Dist = map<Node, Option<nat>>
  /** A heap entry: a tentative distance and its node. */
  type Entry = (nat, Node)

  /** Every edge leads to a node of the graph. */
  ghost predicate Closed(g: Graph) {
    forall u, k :: u in g && 0 <= k < |g[u]| ==> g[u][k].0 in g
  }

  /** The edges out of `u`, when it is a node, lead to nodes of the graph. */
  ghost predicate EdgesInGraph(g: Graph, u: Node) {
    u in g ==> forall k :: 0 <= k < |g[u]| ==> g[u][k].0 in g
  }

  /** Every edge out of a node reachable from `s` leads to a node of the
      graph. `dijkstra` reads `distances[v]` only for the edges of the nodes
      it pops, which are the reachable ones, so this is exactly when it
      raises no `KeyError`; edges out of unreachable nodes may lead anywhere. */
  ghost predicate ReachClosed(g: Graph, s: Node) {
    forall p: seq<Edge> :: IsWalk(g, s, p) ==> EdgesInGraph(g, End(s, p))
  }

  //////////////////////////////////////////////////////////////////////
  // Walks
  //////////////////////////////////////////////////////////////////////

  /** The node a walk from `s` along the edges `p` ends at. */
  function End(s: Node, p: seq<Edge>): Node {
    if p == [] then s else p[|p| - 1].0
  }

  /** The total weight of the edges of a walk. */
  function Weight(p: seq<Edge>): nat {
    if p == [] then 0 else Weight(p[..|p| - 1]) + p[|p| - 1].1
  }

  /** `p` is a walk from `s`: each edge is an adjacency entry of the node
      the walk has reached. */
  ghost predicate IsWalk(g: Graph, s: Node, p: seq<Edge>)
    decreases |p|
  {
    s in g &&
    (p == [] ||
     (IsWalk(g, s, p[..|p| - 1]) && End(s, p[..|p| - 1]) in g && p[|p| - 1] in g[End(s, p[..|p| - 1])]))
  }

  /** Some walk from `s` ends at `v`. */
  ghost predicate Reachable(g: Graph, s: Node, v: Node) {
    exists p: seq<Edge> :: IsWalk(g, s, p) && End(s, p) == v
  }

  /** No walk from `s` to `v` weighs less than `d`. */
  ghost predicate LowerBound(g: Graph, s: Node, v: Node, d: nat) {
    forall p: seq<Edge> :: IsWalk(g, s, p) && End(s, p) == v ==> d <= Weight(p)
  }

  /** `d` is the weight of a shortest walk from `s` to `v`. */
  ghost predicate IsShortest(g: Graph, s: Node, v: Node, d: nat) {
    (exists p: seq<Edge> :: IsWalk(g, s, p) && End(s, p) == v && Weight(p) == d) && LowerBound(g, s, v, d)
  }

  /** Extending a walk by an adjacency entry of its last node. */
  lemma WalkExtend(g: Graph, s: Node, p: seq<Edge>, e: Edge)
    requires IsWalk(g, s, p) && End(s, p) in g && e in g[End(s, p)]
    ensures IsWalk(g, s, p + [e]) && End(s, p + [e]) == e.0 && Weight(p + [e]) == Weight(p) + e.1
  {
    assert (p + [e])[..|p|] == p;
  }

  //////////////////////////////////////////////////////////////////////
  // Loop invariants
  //////////////////////////////////////////////////////////////////////

  /** `nd < distances[v]`, with `None` above every number. */
  predicate Improves(nd: nat, dv: Option<nat>) {
    dv.None? || nd < dv.value
  }

  /** `a <= b`, with `None` above every number. */
  predicate NoWorse(a: Option<nat>, b: Option<nat>) {
    b.None? || (a.Some? && a.value <= b.value)
  }

  /** No distance of `D` is above the one in `D0`. */
  ghost predicate Lower(g: Graph, D: Dist, D0: Dist)
    requires forall v :: v in g ==> v in D && v in D0
  {
    forall v :: v in g ==> NoWorse(D[v], D0[v])
  }

  /** Every finite distance is the weight of the walk recorded for its node. */
  ghost predicate Witnessed(g: Graph, s: Node, D: Dist, paths: map<Node, seq<Edge>>) {
    forall v {:trigger D[v]} :: v in D && D[v].Some? ==>
      v in paths && IsWalk(g, s, paths[v]) && End(s, paths[v]) == v && Weight(paths[v]) == D[v].value
  }

  /** Every heap entry is at least the current distance of its node. */
  ghost predicate QueueSound(D: Dist, Q: multiset<Entry>) {
    forall e: Entry :: e in Q ==> e.1 in D && D[e.1].Some? && D[e.1].value <= e.0
  }

  /** An unvisited node with a finite distance has that distance in the heap. */
  ghost predicate QueueComplete(g: Graph, D: Dist, V: set<Node>, Q: multiset<Entry>)
    requires forall v :: v in D <==> v in g
  {
    forall v {:trigger D[v]} :: v in g && v !in V && D[v].Some? ==> (D[v].value, v) in Q
  }

  /** A visited node's distance is final: no walk to it is shorter. */
  ghost predicate SettledOptimal(g: Graph, s: Node, D: Dist, V: set<Node>)
    requires forall v :: v in D <==> v in g
  {
    forall v :: v in V ==> v in g && D[v].Some? && LowerBound(g, s, v, D[v].value)
  }

  /** Every edge out of a node of `U` has been relaxed. */
  ghost predicate RelaxedFrom(g: Graph, D: Dist, U: set<Node>)
    requires forall v :: v in D <==> v in g
  {
    forall u, e: Edge {:trigger e in g[u]} :: u in U && u in g && D[u].Some? && e in g[u] ==>
      e.0 in D && D[e.0].Some? && D[e.0].value <= D[u].value + e.1
  }

  /** Visited distances are at most `d`. */
  ghost predicate SettledBelow(D: Dist, V: set<Node>, d: nat)
    requires forall v :: v in V ==> v in D
  {
    forall v :: v in V ==> D[v].Some? && D[v].value <= d
  }

  /** The part of the invariant the key lemma below rests on. */
  ghost predicate Frontier(g: Graph, s: Node, D: Dist, V: set<Node>, Q: multiset<Entry>) {
    && s in g
    && (forall v :: v in D <==> v in g)
    && D[s] == Some(0)
    && QueueComplete(g, D, V, Q)
    && SettledOptimal(g, s, D, V)
    && RelaxedFrom(g, D, V)
  }

  /** The invariant of the outer `while pq` loop. */
  ghost predicate Inv(g: Graph, s: Node, D: Dist, V: set<Node>, Q: multiset<Entry>) {
    && V <= g.Keys
    && QueueSound(D, Q)
    && Frontier(g, s, D, V, Q)
    && (forall e: Entry :: e in Q ==> SettledBelow(D, V, e.0))
  }

  /** The invariant of the inner loop over the `i`-th first edges of `u`,
      which has been popped at distance `d` and marked visited (besides
      `Witnessed`). */
  ghost predicate Expanding(g: Graph, s: Node, D: Dist, V: set<Node>, Q: multiset<Entry>,
                            u: Node, d: nat, i: nat) {
    && s in g
    && (forall v :: v in D <==> v in g)
    && D[s] == Some(0)
    && V <= g.Keys && u in V && EdgesInGraph(g, u)
    && D[u] == Some(d) && i <= |g[u]|
    && QueueSound(D, Q)
    && QueueComplete(g, D, V, Q)
    && SettledOptimal(g, s, D, V)
    && RelaxedFrom(g, D, V - {u})
    && (forall k :: 0 <= k < i ==> D[g[u][k].0].Some? && D[g[u][k].0].value <= d + g[u][k].1)
    && SettledBelow(D, V, d)
    && (forall e: Entry :: e in Q ==> d <= e.0)
  }

  //////////////////////////////////////////////////////////////////////
  // The key lemma: the heap holds an entry no heavier than any walk to an
  // unvisited node
  //////////////////////////////////////////////////////////////////////

  lemma {:induction false} FrontierBound(g: Graph, s: Node, D: Dist, V: set<Node>, Q: multiset<Entry>, p: seq<Edge>)
    requires Frontier(g, s, D, V, Q) && IsWalk(g, s, p)
    ensures End(s, p) !in V ==> exists e: Entry :: e in Q && e.0 <= Weight(p)
    decreases |p|
  {
    if p == [] {
      if s !in V {
        assert (0, s) in Q;
      }
    } else {
      var q, e := p[..|p| - 1], p[|p| - 1];
      var y := End(s, q);
      FrontierBound(g, s, D, V, Q, q);
      assert Weight(p) == Weight(q) + e.1;
      if y in V && e.0 !in V {
        assert D[y].value <= Weight(q);
        assert D[e.0].Some? && D[e.0].value <= D[y].value + e.1;
        assert (D[e.0].value, e.0) in Q;
      }
    }
  }

  /** Popping a least entry `(d, u)` of an unvisited node: `d` is the
      distance of `u`, and it is final. */
  lemma PopSettles(g: Graph, s: Node, D: Dist, V: set<Node>, Q: multiset<Entry>, d: nat, u: Node)
    requires Frontier(g, s, D, V, Q) && QueueSound(D, Q)
    requires (d, u) in Q && (forall e: Entry :: e in Q ==> d <= e.0) && u !in V
    ensures u in g && D[u] == Some(d) && LowerBound(g, s, u, d)
  {
    assert (D[u].value, u) in Q;
    forall p: seq<Edge> | IsWalk(g, s, p) && End(s, p) == u ensures d <= Weight(p) {
      FrontierBound(g, s, D, V, Q, p);
    }
  }

  //////////////////////////////////////////////////////////////////////
  // One step of each loop keeps its invariant
  //////////////////////////////////////////////////////////////////////

  /** The initial state: every distance infinite but the source's, which is
      0, nothing visited, and the heap holding `(0, start)`. */
  lemma Initial(g: Graph, s: Node)
    requires s in g
    ensures Inv(g, s, (map v | v in g :: None)[s := Some(0)], {}, multiset{(0, s)})
    ensures Witnessed(g, s, (map v | v in g :: None)[s := Some(0)], map[s := []])
  {
  }

  /** A stale entry (its node already visited) is dropped. */
  lemma PopStale(g: Graph, s: Node, D: Dist, V: set<Node>, Q: multiset<Entry>, d: nat, u: Node)
    requires Inv(g, s, D, V, Q) && (d, u) in Q && u in V
    ensures Inv(g, s, D, V, Q - multiset{(d, u)})
  {
    var Q' := Q - multiset{(d, u)};
    forall v | v in g && v !in V && D[v].Some? ensures (D[v].value, v) in Q' {
      assert (D[v].value, v) in Q;
    }
  }

  /** A least entry of an unvisited node starts the expansion of that node. */
  lemma PopFresh(g: Graph, s: Node, D: Dist, V: set<Node>, Q: multiset<Entry>, d: nat, u: Node)
    requires Inv(g, s, D, V, Q) && EdgesInGraph(g, u)
    requires (d, u) in Q && (forall e: Entry :: e in Q ==> d <= e.0) && u !in V
    ensures Expanding(g, s, D, V + {u}, Q - multiset{(d, u)}, u, d, 0)
  {
    PopSettles(g, s, D, V, Q, d, u);
    var Q' := Q - multiset{(d, u)};
    var V' := V + {u};
    forall v | v in g && v !in V' && D[v].Some? ensures (D[v].value, v) in Q' {
      assert (D[v].value, v) in Q;
    }
    assert SettledBelow(D, V, d);
    forall e: Entry | e in Q' ensures d <= e.0 {
      assert e in Q;
    }
  }

  /** Relaxing the `i`-th edge of `u` when it improves the distance of its
      target: the new distance is recorded and pushed. */
  lemma RelaxUpdate(g: Graph, s: Node, D: Dist, V: set<Node>, Q: multiset<Entry>,
                    u: Node, d: nat, i: nat, v: Node, w: nat, nd: nat)
    requires Expanding(g, s, D, V, Q, u, d, i) && i < |g[u]| && g[u][i] == (v, w) && nd == d + w
    requires Improves(nd, D[v])
    ensures Expanding(g, s, D[v := Some(nd)], V, Q + multiset{(nd, v)}, u, d, i + 1)
  {
    var D', Q' := D[v := Some(nd)], Q + multiset{(nd, v)};
    assert g[u][i] in g[u];
    assert v in g && v !in V && v != s;
    UpdateQueue(g, D, V, Q, v, nd);
    UpdateSettled(g, s, D, V, v, nd);
    UpdateRelaxed(g, D, V - {u}, v, nd);
    assert forall k :: 0 <= k < i + 1 ==> D'[g[u][k].0].Some? && D'[g[u][k].0].value <= d + g[u][k].1;
    assert SettledBelow(D', V, d);
    assert forall e: Entry :: e in Q' ==> d <= e.0;
  }

  /** Lowering the distance of `v` to `d + w` through its in-edge `(v, w)`
      from `u` records the walk to `u` extended by that edge. */
  lemma UpdateWitnessed(g: Graph, s: Node, D: Dist, paths: map<Node, seq<Edge>>, u: Node, d: nat, v: Node, w: nat)
    requires Witnessed(g, s, D, paths) && u in D && D[u] == Some(d) && u in g && (v, w) in g[u]
    ensures Witnessed(g, s, D[v := Some(d + w)], paths[v := paths[u] + [(v, w)]])
  {
    WalkExtend(g, s, paths[u], (v, w));
  }

  /** Lowering a distance keeps the table below an earlier one, and pushing
      keeps the earlier heap entries. */
  lemma UpdateLower(g: Graph, D0: Dist, D: Dist, Q0: multiset<Entry>, Q: multiset<Entry>, v: Node, nd: nat)
    requires (forall x :: x in g ==> x in D && x in D0) && v in D
    requires Lower(g, D, D0) && Improves(nd, D[v]) && Q0 <= Q
    ensures Lower(g, D[v := Some(nd)], D0)
    ensures Q0 <= Q + multiset{(nd, v)} && |Q + multiset{(nd, v)}| == |Q| + 1
  {
  }

  /** Lowering the distance of `v` to `nd` and pushing `(nd, v)` keeps the
      heap sound and complete. */
  lemma UpdateQueue(g: Graph, D: Dist, V: set<Node>, Q: multiset<Entry>, v: Node, nd: nat)
    requires (forall x :: x in D <==> x in g) && v in g
    requires Improves(nd, D[v]) && QueueSound(D, Q) && QueueComplete(g, D, V, Q)
    ensures QueueSound(D[v := Some(nd)], Q + multiset{(nd, v)})
    ensures QueueComplete(g, D[v := Some(nd)], V, Q + multiset{(nd, v)})
  {
    var D', Q' := D[v := Some(nd)], Q + multiset{(nd, v)};
    forall e: Entry | e in Q' ensures e.1 in D' && D'[e.1].Some? && D'[e.1].value <= e.0 {
      if e != (nd, v) {
        assert e in Q;
      }
    }
    forall x | x in g && x !in V && D'[x].Some? ensures (D'[x].value, x) in Q' {
      if x != v {
        assert (D[x].value, x) in Q;
      }
    }
  }

  /** Lowering the distance of an unvisited node keeps the visited ones final. */
  lemma UpdateSettled(g: Graph, s: Node, D: Dist, V: set<Node>, v: Node, nd: nat)
    requires (forall x :: x in D <==> x in g) && v in g && v !in V
    requires SettledOptimal(g, s, D, V)
    ensures SettledOptimal(g, s, D[v := Some(nd)], V)
  {
    var D' := D[v := Some(nd)];
    forall x | x in V ensures x in g && D'[x].Some? && LowerBound(g, s, x, D'[x].value) {
      assert D'[x] == D[x];
    }
  }

  /** Lowering the distance of a node keeps relaxed the edges out of the
      nodes `U` (which do not include it). */
  lemma UpdateRelaxed(g: Graph, D: Dist, U: set<Node>, v: Node, nd: nat)
    requires (forall x :: x in D <==> x in g) && v in g && v !in U
    requires Improves(nd, D[v])
    requires RelaxedFrom(g, D, U)
    ensures RelaxedFrom(g, D[v := Some(nd)], U)
  {
    var D' := D[v := Some(nd)];
    forall x, e: Edge | x in U && x in g && D'[x].Some? && e in g[x]
      ensures e.0 in D' && D'[e.0].Some? && D'[e.0].value <= D'[x].value + e.1
    {
      assert D'[x] == D[x];
    }
  }

  /** Relaxing an edge that does not improve its target changes nothing. */
  lemma RelaxKeep(g: Graph, s: Node, D: Dist, V: set<Node>, Q: multiset<Entry>, u: Node, d: nat, i: nat)
    requires Expanding(g, s, D, V, Q, u, d, i) && i < |g[u]|
    requires !Improves(d + g[u][i].1, D[g[u][i].0])
    ensures Expanding(g, s, D, V, Q, u, d, i + 1)
  {
    assert g[u][i] in g[u];
  }

  /** With all edges of `u` relaxed the outer invariant holds again. */
  lemma ExpandDone(g: Graph, s: Node, D: Dist, V: set<Node>, Q: multiset<Entry>, u: Node, d: nat)
    requires u in g && Expanding(g, s, D, V, Q, u, d, |g[u]|)
    ensures Inv(g, s, D, V, Q)
  {
    forall x, e: Edge | x in V && x in g && D[x].Some? && e in g[x]
      ensures e.0 in D && D[e.0].Some? && D[e.0].value <= D[x].value + e.1
    {
      if x == u {
        var k :| 0 <= k < |g[u]| && g[u][k] == e;
      }
    }
  }

  /** At the end of the loop (empty heap): the visited nodes are exactly the
      reachable ones, their distances are shortest, every other distance is
      infinite, and every finite distance satisfies the triangle inequality. */
  lemma Final(g: Graph, s: Node, D: Dist, V: set<Node>, paths: map<Node, seq<Edge>>)
    requires Inv(g, s, D, V, multiset{}) && Witnessed(g, s, D, paths)
    ensures forall v :: v in D <==> v in g
    ensures forall v :: v in g ==> (D[v].Some? <==> v in V)
    ensures forall v :: v in g ==> (v in V <==> Reachable(g, s, v))
    ensures forall v :: v in g && D[v].Some? ==> IsShortest(g, s, v, D[v].value)
    ensures forall u, e: Edge {:trigger e in g[u]} :: u in g && D[u].Some? && e in g[u] ==>
              e.0 in D && D[e.0].Some? && D[e.0].value <= D[u].value + e.1
  {
    forall v | v in g && Reachable(g, s, v) ensures v in V {
      var p :| IsWalk(g, s, p) && End(s, p) == v;
      FrontierBound(g, s, D, V, multiset{}, p);
    }
    forall v | v in g && D[v].Some? ensures Reachable(g, s, v) && IsShortest(g, s, v, D[v].value) {
      assert IsWalk(g, s, paths[v]) && End(s, paths[v]) == v;
    }
  }

  //////////////////////////////////////////////////////////////////////
  // The algorithm
  //////////////////////////////////////////////////////////////////////

  /** `heapq.heappop`: removes an entry of least distance. */
  method PopMin(Q: multiset<Entry>) returns (e: Entry, Q': multiset<Entry>)
    requires Q != multiset{}
    ensures e in Q && Q' == Q - multiset{e}
    ensures forall x: Entry :: x in Q ==> e.0 <= x.0
  {
    MinExists(Q);
    e :| e in Q && forall x: Entry :: x in Q ==> e.0 <= x.0;
    Q' := Q - multiset{e};
  }

  /** A non-empty heap has an entry of least distance. */
  lemma MinExists<T>(Q: multiset<(nat, T)>)
    requires Q != multiset{}
    ensures exists e: (nat, T) :: e in Q && forall x: (nat, T) :: x in Q ==> e.0 <= x.0
  {
    var y: (nat, T) :| y in Q;
    var ds := set x: (nat, T) | x in Q :: x.0;
    assert y.0 in ds;
    var m := MinNat(ds);
    var e: (nat, T) :| e in Q && e.0 == m;
    forall x: (nat, T) | x in Q ensures e.0 <= x.0 {
      assert x.0 in ds;
    }
  }

  /** A non-empty set of numbers has a least element. */
  lemma {:induction false} MinNat(S: set<nat>) returns (m: nat)
    requires S != {}
    ensures m in S && forall x :: x in S ==> m <= x
    decreases |S|
  {
    var y :| y in S;
    if S == {y} {
      m := y;
    } else {
      var r := MinNat(S - {y});
      m := if r < y then r else y;
      forall x | x in S ensures m <= x {
        if x != y {
          assert x in S - {y};
        }
      }
    }
  }

  /** The number of adjacency entries of the nodes `xs`. */
  function SumAdj(g: Graph, xs: seq<Node>): nat
    requires forall x :: x in xs ==> x in g
  {
    if xs == [] then 0 else SumAdj(g, xs[..|xs| - 1]) + |g[xs[|xs| - 1]]|
  }

  lemma SumAdjAppend(g: Graph, xs: seq<Node>, x: Node)
    requires (forall y :: y in xs ==> y in g) && x in g
    ensures SumAdj(g, xs + [x]) == SumAdj(g, xs) + |g[x]|
  {
    assert (xs + [x])[..|xs|] == xs;
  }

  /** The `for v, weight in graph[u]` loop: relaxes every edge out of `u`,
      which has just been popped at distance `dist_u` and marked visited.
      Returns the updated table and heap, and counts the pushes. */
  method RelaxEdges(graph: Graph, start: Node, u: Node, dist_u: nat, visited: set<Node>,
                    distances0: Dist, pq0: multiset<Entry>, ghost paths0: map<Node, seq<Edge>>)
    returns (distances: Dist, pq: multiset<Entry>, ghost paths: map<Node, seq<Edge>>, ghost pushed: nat)
    requires Expanding(graph, start, distances0, visited, pq0, u, dist_u, 0)
    requires Witnessed(graph, start, distances0, paths0)
    ensures Inv(graph, start, distances, visited, pq)
    ensures Witnessed(graph, start, distances, paths)
    ensures pushed <= |graph[u]|
    // distances only decrease, and each push adds one entry to the heap
    ensures Lower(graph, distances, distances0)
    ensures pq0 <= pq && |pq| == |pq0| + pushed
  {
    distances, pq, paths, pushed := distances0, pq0, paths0, 0;
    var adj := graph[u];
    for i := 0 to |adj|
      invariant Expanding(graph, start, distances, visited, pq, u, dist_u, i)
      invariant Witnessed(graph, start, distances, paths)
      invariant pushed <= i
      invariant Lower(graph, distances, distances0)
      invariant pq0 <= pq && |pq| == |pq0| + pushed
    {
      var (v, weight) := adj[i];
      var new_dist := dist_u + weight;
      if Improves(new_dist, distances[v]) {
        assert adj[i] in graph[u];
        RelaxUpdate(graph, start, distances, visited, pq, u, dist_u, i, v, weight, new_dist);
        UpdateWitnessed(graph, start, distances, paths, u, dist_u, v, weight);
        UpdateLower(graph, distances0, distances, pq0, pq, v, new_dist);
        distances := distances[v := Some(new_dist)];
        pq := pq + multiset{(new_dist, v)};
        paths := paths[v := paths[u] + [(v, weight)]];
        pushed := pushed + 1;
      } else {
        RelaxKeep(graph, start, distances, visited, pq, u, dist_u, i);
      }
    }
    ExpandDone(graph, start, distances, visited, pq, u, dist_u);
  }

  /** `dijkstra(graph, start)`. Alongside the distances it returns, as
      ghost results, the nodes in the order they were expanded and the
      number of heap pushes. */
  method Dijkstra(graph: Graph, start: Node)
      returns (distances: Dist, ghost expanded: seq<Node>, ghost pushes: nat, ghost pops: nat)
    requires start in graph && ReachClosed(graph, start)
    ensures forall v :: v in distances <==> v in graph
    ensures distances[start] == Some(0)
    ensures forall v :: v in graph ==> (distances[v] == None <==> !Reachable(graph, start, v))
    ensures forall v :: v in graph && distances[v].Some? ==> IsShortest(graph, start, v, distances[v].value)
    ensures forall u, e: Edge {:trigger e in graph[u]} :: u in graph && distances[u].Some? && e in graph[u] ==>
              e.0 in distances && distances[e.0].Some? && distances[e.0].value <= distances[u].value + e.1
    // each adjacency list is scanned at most once, by the reachable nodes only
    ensures Distinct(expanded) && forall v :: v in expanded <==> v in graph && Reachable(graph, start, v)
    // every entry pushed on the heap is popped, and there are at most one
    // push for the start and one for each adjacency entry scanned
    ensures pops == pushes <= 1 + SumAdj(graph, expanded)
  {
    distances := map v | v in graph :: None;
    distances := distances[start := Some(0)];
    var pq := multiset{(0, start)};
    var visited: set<Node> := {};
    expanded, pushes, pops := [], 1, 0;
    ghost var paths: map<Node, seq<Edge>> := map[start := []];
    Initial(graph, start);
    while pq != multiset{}
      invariant Inv(graph, start, distances, visited, pq)
      invariant Witnessed(graph, start, distances, paths)
      invariant Distinct(expanded) && (forall v :: v in expanded <==> v in visited)
      invariant pushes <= 1 + SumAdj(graph, expanded)
      invariant pushes == |pq| + pops
      decreases |graph.Keys - visited|, |pq|
    {
      var entry, rest := PopMin(pq);
      var (dist_u, u) := entry;
      pops := pops + 1;
      if u in visited {
        PopStale(graph, start, distances, visited, pq, dist_u, u);
        pq := rest;
        continue;
      }
      // `u` has a finite distance, so a walk reaches it and its edges stay in the graph
      assert IsWalk(graph, start, paths[u]) && End(start, paths[u]) == u;
      PopFresh(graph, start, distances, visited, pq, dist_u, u);
      ProperSubsetCard(graph.Keys - (visited + {u}), graph.Keys - visited);
      visited := visited + {u};
      ghost var pushed;
      distances, pq, paths, pushed := RelaxEdges(graph, start, u, dist_u, visited, distances, rest, paths);
      SumAdjAppend(graph, expanded, u);
      DistinctAppend(expanded, u);
      expanded, pushes := expanded + [u], pushes + pushed;
    }
    Final(graph, start, distances, visited, paths);
  }

  //////////////////////////////////////////////////////////////////////
  // The example of `main`
  //////////////////////////////////////////////////////////////////////

  /** A table that no edge improves on and that is 0 at `s`. */
  ghost predicate Feasible(g: Graph, s: Node, phi: map<Node, nat>) {
    && Closed(g)
    && (forall v :: v in g ==> v in phi)
    && s in phi && phi[s] == 0
    && forall u, k :: u in g && 0 <= k < |g[u]| ==> phi[g[u][k].0] <= phi[u] + g[u][k].1
  }

  /** A feasible table bounds the weight of every walk from below. */
  lemma {:induction false} FeasibleBound(g: Graph, s: Node, phi: map<Node, nat>, p: seq<Edge>)
    requires Feasible(g, s, phi) && IsWalk(g, s, p)
    ensures End(s, p) in phi && phi[End(s, p)] <= Weight(p)
    decreases |p|
  {
    if p != [] {
      var q, e := p[..|p| - 1], p[|p| - 1];
      FeasibleBound(g, s, phi, q);
      var y := End(s, q);
      var k :| 0 <= k < |g[y]| && g[y][k] == e;
    }
  }

  /** So a shortest distance that some walk of weight `phi[v]` attains is `phi[v]`. */
  lemma ShortestIsFeasible(g: Graph, s: Node, phi: map<Node, nat>, v: Node, d: nat, p: seq<Edge>)
    requires Feasible(g, s, phi) && IsShortest(g, s, v, d)
    requires IsWalk(g, s, p) && End(s, p) == v && Weight(p) == phi[v]
    ensures d == phi[v]
  {
    var q: seq<Edge> :| IsWalk(g, s, q) && End(s, q) == v && Weight(q) == d;
    FeasibleBound(g, s, phi, q);
  }

  /** `par` gives every node but `s` a predecessor whose table entry is
      smaller by the weight of an edge from it. */
  ghost predicate Tree(g: Graph, s: Node, phi: map<Node, nat>, par: map<Node, Node>) {
    && s in g && s in phi && phi[s] == 0 && s !in par
    && forall v :: v in par ==>
         && v in g && v in phi && par[v] in g && par[v] in phi && (par[v] in par || par[v] == s)
         && phi[par[v]] < phi[v] && (v, phi[v] - phi[par[v]]) in g[par[v]]
  }

  /** The walk from `s` to `v` that follows the predecessors back. */
  ghost function TreeWalk(g: Graph, s: Node, phi: map<Node, nat>, par: map<Node, Node>, v: Node): seq<Edge>
    requires Tree(g, s, phi, par) && v in phi
    decreases phi[v]
  {
    if v in par then TreeWalk(g, s, phi, par, par[v]) + [(v, phi[v] - phi[par[v]])] else []
  }

  /** The predecessor walk to `v` weighs `phi[v]`. */
  lemma {:induction false} TreeWalkOk(g: Graph, s: Node, phi: map<Node, nat>, par: map<Node, Node>, v: Node)
    requires Tree(g, s, phi, par) && (v in par || v == s)
    ensures IsWalk(g, s, TreeWalk(g, s, phi, par, v)) && End(s, TreeWalk(g, s, phi, par, v)) == v
    ensures Weight(TreeWalk(g, s, phi, par, v)) == phi[v]
    decreases phi[v]
  {
    if v in par {
      var u := par[v];
      var e := (v, phi[v] - phi[u]);
      TreeWalkOk(g, s, phi, par, u);
      WalkExtend(g, s, TreeWalk(g, s, phi, par, u), e);
    }
  }

  /** The undirected weighted graph of `main`, each edge listed at both ends. */
  function ExampleGraph(): Graph {
    map[
      "A" := [("B", 4), ("C", 2)],
      "B" := [("A", 4), ("C", 1), ("D", 5)],
      "C" := [("A", 2), ("B", 1), ("D", 8), ("E", 10)],
      "D" := [("B", 5), ("C", 8), ("E", 2), ("Z", 6)],
      "E" := [("C", 10), ("D", 2), ("Z", 3)],
      "Z" := [("D", 6), ("E", 3)]
    ]
  }

  /** The shortest distances from `A` in the example graph. */
  function ExampleDistances(): map<Node, nat> {
    map["A" := 0, "B" := 3, "C" := 2, "D" := 8, "E" := 10, "Z" := 13]
  }

  /** The predecessor of each node on a shortest walk from `A`. */
  function ExampleParents(): map<Node, Node> {
    map["C" := "A", "B" := "C", "D" := "B", "E" := "D", "Z" := "E"]
  }

  lemma ExampleTree()
    ensures Tree(ExampleGraph(), "A", ExampleDistances(), ExampleParents())
  {
  }

  /** A graph with no edge leaving it satisfies `ReachClosed` from any node. */
  lemma ClosedReachClosed(g: Graph, s: Node)
    requires Closed(g)
    ensures ReachClosed(g, s)
  {
  }

  /** An edge to a missing node out of a node that cannot be reached raises
      nothing: from `A` only `A` is reached, so the graph is accepted. */
  lemma DanglingUnreachable()
    ensures !Closed(map["A" := [], "B" := [("X", 1)]])
    ensures ReachClosed(map["A" := [], "B" := [("X", 1)]], "A")
  {
    var g: Graph := map["A" := [], "B" := [("X", 1)]];
    assert g["B"][0].0 !in g;
    forall p: seq<Edge> | IsWalk(g, "A", p) ensures EdgesInGraph(g, End("A", p)) {
      OnlyStart(g, p);
    }
  }

  /** In that graph the only walk from `A` is the empty one. */
  lemma {:induction false} OnlyStart(g: Graph, p: seq<Edge>)
    requires g == map["A" := [], "B" := [("X", 1)]] && IsWalk(g, "A", p)
    ensures p == []
    decreases |p|
  {
    if p != [] {
      OnlyStart(g, p[..|p| - 1]);
      assert false;
    }
  }

  lemma ExampleClosed()
    ensures Closed(ExampleGraph())
  {
  }

  lemma ExampleFeasible()
    ensures Feasible(ExampleGraph(), "A", ExampleDistances())
  {
    ExampleClosed();
  }

  /** Any table with the properties `Dijkstra` promises is, on the example
      graph from `A`, the one `main` prints. */
  lemma ExampleResult(D: Dist)
    requires forall v :: v in D <==> v in ExampleGraph()
    requires forall v :: v in ExampleGraph() ==> (D[v] == None <==> !Reachable(ExampleGraph(), "A", v))
    requires forall v :: v in ExampleGraph() && D[v].Some? ==> IsShortest(ExampleGraph(), "A", v, D[v].value)
    ensures D == map v | v in ExampleDistances() :: Some(ExampleDistances()[v])
  {
    var g, phi := ExampleGraph(), ExampleDistances();
    ExampleFeasible();
    ExampleTree();
    forall v | v in g ensures D[v] == Some(phi[v]) {
      TreeWalkOk(g, "A", phi, ExampleParents(), v);
      var p := TreeWalk(g, "A", phi, ExampleParents(), v);
      assert Reachable(g, "A", v);
      ShortestIsFeasible(g, "A", phi, v, D[v].value, p);
    }
  }

  /** `main` without the printing: an unknown start node is reported (here
      `None`); otherwise the distances from it are computed. */
  method ExampleFrom(start: Node) returns (r: Option<Dist>)
    ensures r.None? <==> start !in ExampleGraph()
    ensures r.Some? ==> forall v :: v in r.value <==> v in ExampleGraph()
    ensures r.Some? ==> forall v :: v in ExampleGraph() && r.value[v].Some? ==>
              IsShortest(ExampleGraph(), start, v, r.value[v].value)
    ensures start == "A" ==> r == Some(map v | v in ExampleDistances() :: Some(ExampleDistances()[v]))
  {
    var graph := ExampleGraph();
    if start !in graph {
      return None;
    }
    ExampleClosed();
    ClosedReachClosed(graph, start);
    var distances, _, _, _ := Dijkstra(graph, start);
    if start == "A" {
      ExampleResult(distances);
    }
    r := Some(distances);
  }
}
