/**
 * Traversal of an array heap drawn as a tree: the parent/child index
 * structure that `build_heap_graph` creates, and the breadth-first
 * (`bfs_order`) and depth-first (`dfs_order`) traversals over it.
 *
 * The graph library's `successors(i)` is replaced by `Children(n, i)`, and
 * `BuildHeapGraph` proves that the graph built by the source has exactly
 * those successor lists.
 */
module HeapTraversal {
  import opened Seqs

  /** The successors of node `i` in the heap tree over `0..n-1`: `2i+1`,
      then `2i+2`, each only when it is below `n`. */
  function Children(n: nat, i: nat): (cs: seq<nat>)
    ensures forall c :: c in cs <==> c < n && (c == 2 * i + 1 || c == 2 * i + 2)
    ensures |cs| <= 2 && (|cs| == 2 ==> cs == [2 * i + 1, 2 * i + 2])
    ensures |cs| >= 1 ==> cs[0] == 2 * i + 1
  {
    (if 2 * i + 1 < n then [2 * i + 1] else []) + (if 2 * i + 2 < n then [2 * i + 2] else [])
  }

  /** Each non-root node below `n` has exactly one parent, `(c - 1) / 2`. */
  lemma ChildIffParent(n: nat, i: nat, c: nat)
    ensures c in Children(n, i) <==> 0 < c < n && (c - 1) / 2 == i
  {
  }

  /** `j` lies in the subtree rooted at `s`: walking up from `j` reaches `s`. */
  predicate Descends(j: nat, s: nat)
    decreases j
  {
    j == s || (j > s && Descends((j - 1) / 2, s))
  }

  lemma {:induction false} DescendsAbove(j: nat, s: nat)
    requires Descends(j, s)
    ensures s <= j
  {
  }

  /** A child of a node of the subtree of `s` is in the subtree of `s`. */
  lemma ChildDescends(n: nat, p: nat, c: nat, s: nat)
    requires Descends(p, s) && c in Children(n, p)
    ensures Descends(c, s)
  {
    DescendsAbove(p, s);
    ChildIffParent(n, p, c);
  }

  /** Every node of the tree lies in the subtree of the root `0`. */
  lemma {:induction false} AllDescendFromRoot(j: nat)
    ensures Descends(j, 0)
  {
    if j > 0 {
      AllDescendFromRoot((j - 1) / 2);
    }
  }

  /** The two children of one node have disjoint subtrees, neither containing the parent. */
  lemma {:induction false} SiblingsDisjoint(i: nat, j: nat)
    ensures Descends(j, 2 * i + 1) ==> !Descends(j, 2 * i + 2) && j != i
  {
    if Descends(j, 2 * i + 1) {
      DescendsAbove(j, 2 * i + 1);
      if j != 2 * i + 1 {
        SiblingsDisjoint(i, (j - 1) / 2);
      }
    }
  }

  lemma SubtreeOf(n: nat, i: nat, j: nat)
    requires Descends(j, i) && j != i
    ensures Descends(j, 2 * i + 1) || Descends(j, 2 * i + 2)
  {
    var p := (j - 1) / 2;
    if p == i {
    } else {
      SubtreeOf(n, i, p);
      if Descends(p, 2 * i + 1) {
        DescendsAbove(p, 2 * i + 1);
      } else {
        DescendsAbove(p, 2 * i + 2);
      }
    }
  }

  //////////////////////////////////////////////////////////////////////
  // build_heap_graph: the directed graph with its successor lists
  //////////////////////////////////////////////////////////////////////

  /** The successor map with node `i` present; an existing node keeps its
      successors. */
  function WithNode(m: map<nat, seq<nat>>, i: nat): (r: map<nat, seq<nat>>)
    ensures forall j :: j in r <==> j in m || j == i
    ensures forall j :: j in m ==> r[j] == m[j]
    ensures i !in m ==> r[i] == []
  {
    if i in m then m else m[i := []]
  }

  /** The successor map with the edge `u -> v`: both ends become nodes and
      `v` is appended to the successors of `u` unless it is there already. */
  function WithEdge(m: map<nat, seq<nat>>, u: nat, v: nat): (r: map<nat, seq<nat>>)
    ensures forall j :: j in r <==> j in m || j == u || j == v
    ensures forall j :: j in m && j != u && j != v ==> r[j] == m[j]
    ensures var su := if u in m then m[u] else [];
            r[u] == if v in su then su else su + [v]
    ensures u != v ==> r[v] == if v in m then m[v] else []
  {
    var m' := WithNode(WithNode(m, u), v);
    if v in m'[u] then m' else m'[u := m'[u] + [v]]
  }

  /** The part of a directed graph the traversals use: each node with its
      successor list, in edge-insertion order. */
  class DiGraph {
    var succ: map<nat, seq<nat>>

    constructor ()
      ensures succ == map[]
    {
      succ := map[];
    }

    /** `add_node(i)`. */
    method AddNode(i: nat)
      modifies this
      ensures succ == WithNode(old(succ), i)
    {
      if i !in succ {
        succ := succ[i := []];
      }
    }

    /** `add_edge(u, v)`. */
    method AddEdge(u: nat, v: nat)
      modifies this
      ensures succ == WithEdge(old(succ), u, v)
    {
      AddNode(u);
      AddNode(v);
      if v !in succ[u] {
        succ := succ[u := succ[u] + [v]];
      }
    }
  }

  /** The nodes of the subtree of `i` inside the heap of size `n`. */
  function Subtree(n: nat, i: nat): (t: set<nat>)
    ensures forall j :: j in t ==> i <= j < n
  {
    set j: nat | j < n && Descends(j, i)
  }

  /** The subtree of a node below `n` is the node and the two subtrees of its
      children, the three parts disjoint; above `n` it is empty. */
  lemma SubtreeSplit(n: nat, i: nat)
    ensures i >= n ==> Subtree(n, i) == {}
    ensures i < n ==> Subtree(n, i) == {i} + Subtree(n, 2 * i + 1) + Subtree(n, 2 * i + 2)
    ensures i !in Subtree(n, 2 * i + 1) + Subtree(n, 2 * i + 2)
    ensures Subtree(n, 2 * i + 1) !! Subtree(n, 2 * i + 2)
  {
    ChildSubtrees(i);
    forall j: nat | j < n && Descends(j, i) && j != i
      ensures Descends(j, 2 * i + 1) || Descends(j, 2 * i + 2)
    {
      SubtreeOf(n, i, j);
    }
  }

  /** `m` is `m0` with the nodes of `t` present with their heap successors
      and every other entry kept. */
  ghost predicate AddedSubtree(m0: map<nat, seq<nat>>, m: map<nat, seq<nat>>, n: nat, t: set<nat>) {
    && (forall j :: j in m <==> j in m0 || j in t)
    && (forall j :: j in t ==> m[j] == Children(n, j))
    && (forall j :: j in m0 && j !in t ==> m[j] == m0[j])
  }

  /** No node of `t` has successors in `m` yet. */
  ghost predicate SubtreeBare(m: map<nat, seq<nat>>, t: set<nat>) {
    forall j :: j in t && j in m ==> m[j] == []
  }

  /** The recursive `_add(i, ...)` of `build_heap_graph`, without the layout
      positions: adds the subtree of `i` below `n` to `g`. */
  method Add(g: DiGraph, n: nat, i: nat)
    requires SubtreeBare(g.succ, Subtree(n, i))
    modifies g
    decreases n - i
    ensures AddedSubtree(old(g.succ), g.succ, n, Subtree(n, i))
  {
    ghost var m0 := g.succ;
    SubtreeSplit(n, i);
    if i >= n {
      return;
    }
    g.AddNode(i);
    var left, right := 2 * i + 1, 2 * i + 2;
    ghost var t, l, r := Subtree(n, i), Subtree(n, left), Subtree(n, right);
    if left < n {
      g.AddEdge(i, left);
      ghost var m2 := g.succ;
      LeftEdgeStep(m0, m2, n, i, t, l, r);
      Add(g, n, left);
      ghost var m3 := g.succ;
      if right < n {
        g.AddEdge(i, right);
        ghost var m4 := g.succ;
        RightEdgeStep(m0, m2, m3, m4, n, i, t, l, r);
        Add(g, n, right);
        BothChildrenStep(m0, m2, m3, m4, g.succ, n, i, t, l, r);
      } else {
        SubtreeSplit(n, right);
        LeftChildStep(m0, m2, m3, n, i, t, l);
      }
    } else {
      SubtreeSplit(n, left);
      SubtreeSplit(n, right);
    }
  }

  /** The map bookkeeping of one call of `Add` at node `i < n` with subtree
      `t` and child subtrees `l` and `r`, at each of its stages: after
      `add_edge(i, 2i+1)`, after `add_edge(i, 2i+2)`, and at the end. */
  lemma LeftEdgeStep(m0: map<nat, seq<nat>>, m2: map<nat, seq<nat>>,
                     n: nat, i: nat, t: set<nat>, l: set<nat>, r: set<nat>)
    requires t == {i} + l + r && i !in l + r && l !! r
    requires SubtreeBare(m0, t)
    requires m2 == WithEdge(WithNode(m0, i), i, 2 * i + 1)
    ensures SubtreeBare(m2, l) && m2[i] == [2 * i + 1]
  {
  }

  lemma RightEdgeStep(m0: map<nat, seq<nat>>, m2: map<nat, seq<nat>>, m3: map<nat, seq<nat>>,
                      m4: map<nat, seq<nat>>, n: nat, i: nat, t: set<nat>, l: set<nat>, r: set<nat>)
    requires t == {i} + l + r && i !in l + r && l !! r && 2 * i + 1 in l && 2 * i + 2 in r
    requires SubtreeBare(m0, t)
    requires m2 == WithEdge(WithNode(m0, i), i, 2 * i + 1) && m2[i] == [2 * i + 1]
    requires AddedSubtree(m2, m3, n, l)
    requires m4 == WithEdge(m3, i, 2 * i + 2)
    ensures SubtreeBare(m4, r) && m4[i] == [2 * i + 1, 2 * i + 2]
  {
    assert m3[i] == [2 * i + 1];
    forall j | j in r && j in m4 ensures m4[j] == [] {
      if j != 2 * i + 2 {
        assert m4[j] == m3[j] == m2[j];
      }
    }
  }

  lemma BothChildrenStep(m0: map<nat, seq<nat>>, m2: map<nat, seq<nat>>, m3: map<nat, seq<nat>>,
                         m4: map<nat, seq<nat>>, m5: map<nat, seq<nat>>,
                         n: nat, i: nat, t: set<nat>, l: set<nat>, r: set<nat>)
    requires 2 * i + 2 < n
    requires t == {i} + l + r && i !in l + r && l !! r && 2 * i + 1 in l && 2 * i + 2 in r
    requires m2 == WithEdge(WithNode(m0, i), i, 2 * i + 1)
    requires AddedSubtree(m2, m3, n, l)
    requires m4 == WithEdge(m3, i, 2 * i + 2) && m4[i] == [2 * i + 1, 2 * i + 2]
    requires AddedSubtree(m4, m5, n, r)
    ensures AddedSubtree(m0, m5, n, t)
  {
    BothChildrenInside(m2, m3, m4, m5, n, l, r);
    assert m5[i] == m4[i] == Children(n, i);
    forall j | j in t ensures m5[j] == Children(n, j) {
      if j != i && j !in r {
        assert j in l;
      }
    }
    BothChildrenOutside(m0, m2, m3, m4, m5, n, i, t, l, r);
  }

  lemma BothChildrenInside(m2: map<nat, seq<nat>>, m3: map<nat, seq<nat>>,
                           m4: map<nat, seq<nat>>, m5: map<nat, seq<nat>>, n: nat, l: set<nat>, r: set<nat>)
    requires l !! r
    requires AddedSubtree(m2, m3, n, l)
    requires forall j :: j in m3 && j in l ==> j in m4 && m4[j] == m3[j]
    requires AddedSubtree(m4, m5, n, r)
    ensures forall j :: j in l ==> m5[j] == Children(n, j)
  {
    forall j | j in l ensures m5[j] == Children(n, j) {
      assert m5[j] == m4[j] == m3[j];
    }
  }

  lemma BothChildrenOutside(m0: map<nat, seq<nat>>, m2: map<nat, seq<nat>>, m3: map<nat, seq<nat>>,
                            m4: map<nat, seq<nat>>, m5: map<nat, seq<nat>>,
                            n: nat, i: nat, t: set<nat>, l: set<nat>, r: set<nat>)
    requires t == {i} + l + r
    requires m2 == WithEdge(WithNode(m0, i), i, 2 * i + 1)
    requires AddedSubtree(m2, m3, n, l)
    requires m4 == WithEdge(m3, i, 2 * i + 2)
    requires AddedSubtree(m4, m5, n, r)
    ensures forall j :: j in m0 && j !in t ==> m5[j] == m0[j]
  {
    forall j | j in m0 && j !in t ensures m5[j] == m0[j] {
      assert m5[j] == m4[j] == m3[j] == m2[j];
    }
  }

  lemma LeftChildStep(m0: map<nat, seq<nat>>, m2: map<nat, seq<nat>>, m3: map<nat, seq<nat>>,
                      n: nat, i: nat, t: set<nat>, l: set<nat>)
    requires 2 * i + 1 < n <= 2 * i + 2
    requires t == {i} + l && i !in l && 2 * i + 1 in l
    requires m2 == WithEdge(WithNode(m0, i), i, 2 * i + 1) && m2[i] == [2 * i + 1]
    requires AddedSubtree(m2, m3, n, l)
    ensures AddedSubtree(m0, m3, n, t)
  {
    LeftChildOutside(m0, m2, m3, n, i, t, l);
    assert m3[i] == m2[i] == Children(n, i);
    forall j | j in t ensures m3[j] == Children(n, j) {
      if j != i {
        assert j in l;
      }
    }
    forall j ensures j in m3 <==> j in m0 || j in t {
      assert j in m2 <==> j in m0 || j == i || j == 2 * i + 1;
    }
  }

  lemma LeftChildOutside(m0: map<nat, seq<nat>>, m2: map<nat, seq<nat>>, m3: map<nat, seq<nat>>,
                         n: nat, i: nat, t: set<nat>, l: set<nat>)
    requires t == {i} + l
    requires m2 == WithEdge(WithNode(m0, i), i, 2 * i + 1)
    requires AddedSubtree(m2, m3, n, l)
    ensures forall j :: j in m0 && j !in t ==> m3[j] == m0[j]
  {
    forall j | j in m0 && j !in t ensures m3[j] == m0[j] {
      assert m3[j] == m2[j];
    }
  }

  /** Nodes below a child of `i` are below `i`, are not `i`, and are not
      below the other child. */
  lemma ChildSubtrees(i: nat)
    ensures forall j: nat :: Descends(j, 2 * i + 1) ==> Descends(j, i) && j != i && !Descends(j, 2 * i + 2)
    ensures forall j: nat :: Descends(j, 2 * i + 2) ==> Descends(j, i) && j != i && !Descends(j, 2 * i + 1)
  {
    forall j: nat ensures Descends(j, 2 * i + 1) ==> Descends(j, i) && j != i && !Descends(j, 2 * i + 2) {
      LeftSubtree(i, j);
    }
    forall j: nat ensures Descends(j, 2 * i + 2) ==> Descends(j, i) && j != i && !Descends(j, 2 * i + 1) {
      RightSubtree(i, j);
    }
  }

  lemma LeftSubtree(i: nat, j: nat)
    ensures Descends(j, 2 * i + 1) ==> Descends(j, i) && j != i && !Descends(j, 2 * i + 2)
  {
    SiblingsDisjoint(i, j);
    if Descends(j, 2 * i + 1) {
      SubtreeParentUp(i, 2 * i + 1, j);
    }
  }

  lemma RightSubtree(i: nat, j: nat)
    ensures Descends(j, 2 * i + 2) ==> Descends(j, i) && j != i && !Descends(j, 2 * i + 1)
  {
    SiblingsDisjoint(i, j);
    if Descends(j, 2 * i + 2) {
      DescendsAbove(j, 2 * i + 2);
      SubtreeParentUp(i, 2 * i + 2, j);
    }
  }

  /** A node below a child of `i` is below `i`. */
  lemma SubtreeParentUp(i: nat, c: nat, j: nat)
    requires c == 2 * i + 1 || c == 2 * i + 2
    requires Descends(j, c)
    ensures Descends(j, i)
  {
    ChildDescends(c + 1, i, c, i);
    DescendsTrans(j, c, i);
  }

  lemma {:induction false} DescendsTrans(j: nat, c: nat, i: nat)
    requires Descends(j, c) && Descends(c, i)
    ensures Descends(j, i)
  {
    if j != c {
      DescendsAbove(c, i);
      DescendsTrans((j - 1) / 2, c, i);
    }
  }

  /** `build_heap_graph(heap)` for a heap of `n` elements: the nodes are
      `0..n-1` and node `i` has the successors `Children(n, i)`. */
  method BuildHeapGraph(n: nat) returns (g: DiGraph)
    ensures fresh(g)
    ensures forall j: nat :: j in g.succ <==> j < n
    ensures forall j: nat :: j < n ==> g.succ[j] == Children(n, j)
  {
    g := new DiGraph();
    forall j: nat ensures Descends(j, 0) { AllDescendFromRoot(j); }
    Add(g, n, 0);
    assert forall j: nat :: j in Subtree(n, 0) <==> j < n;
  }

  //////////////////////////////////////////////////////////////////////
  // bfs_order and dfs_order
  //////////////////////////////////////////////////////////////////////

  /** Which end of the frontier a traversal takes from: the front of a
      queue (`deque.popleft`) or the top of a stack (`list.pop`). */
  datatype Policy = Fifo | Lifo

  /** A traversal in progress: the visited set, the order so far and the
      frontier (the queue or the stack, newest entry last). */
  datatype State = State(visited: set<nat>, order: seq<nat>, frontier: seq<nat>)

  /** `visited = {start}`, `order = [start]`, frontier `[start]`. */
  function Start(s: nat): State {
    State({s}, [s], [s])
  }

  /** The successors of `u` in the order a traversal looks at them: as
      listed for BFS, reversed for DFS. The ensures gives only their set;
      the order is fixed by this body, which `Traversal` and the loops of
      `BfsOrder` and `DfsOrder` follow. */
  function Scan(p: Policy, n: nat, u: nat): (cs: seq<nat>)
    ensures forall c :: c in cs <==> c in Children(n, u)
  {
    var cs := Children(n, u);
    if p == Fifo then cs
    else
      assert forall c :: c in Reverse(cs) <==> c in cs by {
        forall c ensures c in Reverse(cs) <==> c in cs {
          if c in cs {
            var k :| 0 <= k < |cs| && cs[k] == c;
            assert Reverse(cs)[|cs| - 1 - k] == c;
          }
        }
      }
      Reverse(cs)
  }

  /** The inner loop over the successors `cs`: each one not yet visited is
      marked visited and appended to both the order and the frontier. */
  function Visit(cs: seq<nat>, st: State): State
  {
    if cs == [] then st
    else if cs[0] in st.visited then Visit(cs[1..], st)
    else Visit(cs[1..], State(st.visited + {cs[0]}, st.order + [cs[0]], st.frontier + [cs[0]]))
  }

  /** The inner loop only adds: every successor ends up visited, nothing
      else is newly visited, and the order and the frontier both grow by
      exactly the newly visited nodes, each once. */
  lemma {:induction false} VisitFacts(cs: seq<nat>, st: State)
    ensures var r := Visit(cs, st);
      && st.visited <= r.visited
      && (forall v :: v in r.visited ==> v in st.visited || v in cs)
      && (forall c :: c in cs ==> c in r.visited)
      && |st.frontier| <= |r.frontier| && r.frontier[..|st.frontier|] == st.frontier
      && r.order == st.order + r.frontier[|st.frontier|..]
      && (forall v :: v in r.frontier[|st.frontier|..] <==> v in r.visited && v !in st.visited)
      && Distinct(r.frontier[|st.frontier|..])
      && (r.visited == st.visited ==> r == st)
  {
    if cs != [] {
      if cs[0] in st.visited {
        VisitFacts(cs[1..], st);
      } else {
        var st' := State(st.visited + {cs[0]}, st.order + [cs[0]], st.frontier + [cs[0]]);
        VisitFacts(cs[1..], st');
        var r := Visit(cs[1..], st');
        assert r.frontier[|st.frontier|..] == [cs[0]] + r.frontier[|st'.frontier|..];
      }
    }
  }

  /** What holds of the traversal from `s` before each turn of its loop. */
  ghost predicate Inv(n: nat, s: nat, st: State) {
    && st.visited <= Subtree(n, s)
    && (forall v :: v in st.visited <==> v in st.order)
    && Distinct(st.order) && |st.order| >= 1 && st.order[0] == s
    && (forall v :: v in st.frontier ==> v in st.visited)
    && Distinct(st.frontier)
    // a visited node that has left the frontier has all its successors visited
    && (forall u, c :: u in st.visited && u !in st.frontier && c in Children(n, u) ==> c in st.visited)
  }

  /** Taking the next node off the frontier: the front for a queue, the
      top for a stack. */
  function Pop(p: Policy, f: seq<nat>): (r: (nat, seq<nat>))
    requires f != []
    ensures |r.1| == |f| - 1
    ensures if p == Fifo then f == [r.0] + r.1 else f == r.1 + [r.0]
  {
    if p == Fifo then (f[0], f[1..]) else (f[|f| - 1], f[..|f| - 1])
  }

  /** One turn of the outer loop. */
  function Step(p: Policy, n: nat, st: State): State
    requires st.frontier != []
  {
    var (u, rest) := Pop(p, st.frontier);
    Visit(Scan(p, n, u), State(st.visited, st.order, rest))
  }

  /** A turn keeps the invariant and extends the order. */
  lemma StepKeeps(p: Policy, n: nat, s: nat, st: State)
    requires Inv(n, s, st) && st.frontier != []
    ensures var st' := Step(p, n, st);
      && Inv(n, s, st')
      && |st.order| <= |st'.order| && st'.order[..|st.order|] == st.order
  {
    var (u, rest) := Pop(p, st.frontier);
    var st' := Step(p, n, st);
    StepShape(p, n, s, st);
    var nw := st'.frontier[|rest|..];
    StepDistinct(st.order, st.visited, nw);
    StepDistinct(rest, st.visited, nw);
  }

  /** The frontier and the order of a turn both grow by the same new nodes. */
  lemma StepShape(p: Policy, n: nat, s: nat, st: State)
    requires Inv(n, s, st) && st.frontier != []
    ensures |Pop(p, st.frontier).1| <= |Step(p, n, st).frontier|
    ensures var (u, rest) := Pop(p, st.frontier);
      var st' := Step(p, n, st);
      var nw := st'.frontier[|rest|..];
      && (st'.visited == st.visited ==> st'.frontier == rest)
      && u in st.visited && Distinct(rest) && u !in rest
      && (forall v :: v in rest ==> v in st.visited)
      && st'.frontier == rest + nw && st'.order == st.order + nw
      && (forall v :: v in nw <==> v in st'.visited && v !in st.visited)
      && Distinct(nw)
      && st.visited <= st'.visited <= Subtree(n, s)
      && (forall c :: c in Children(n, u) ==> c in st'.visited)
  {
    var (u, rest) := Pop(p, st.frontier);
    var cs := Scan(p, n, u);
    VisitFacts(cs, State(st.visited, st.order, rest));
    assert u in st.frontier;
    assert Distinct(rest) && u !in rest by {
      if p == Fifo { assert rest == st.frontier[1..]; } else { assert rest == st.frontier[..|st.frontier| - 1]; }
    }
    forall c | c in cs ensures c in Subtree(n, s) {
      ChildDescends(n, u, c, s);
    }
  }

  /** Appending new elements, none of them in `seen` and none repeated, to a
      sequence of elements of `seen` without repetitions keeps it so. */
  lemma StepDistinct(a: seq<nat>, seen: set<nat>, nw: seq<nat>)
    requires Distinct(a) && Distinct(nw)
    requires forall v :: v in a ==> v in seen
    requires forall v :: v in nw ==> v !in seen
    ensures Distinct(a + nw)
  {
    var c := a + nw;
    forall i, j | 0 <= i < j < |c| ensures c[i] != c[j] {
      if j >= |a| && i < |a| {
        assert c[i] in a;
        assert c[j] in nw;
      }
    }
  }

  /** All nodes seen so far are nodes of the heap tree of size `n`. */
  ghost predicate Bounded(n: nat, st: State) {
    && (forall v :: v in st.visited ==> v < n)
    && (forall v :: v in st.frontier ==> v < n)
  }

  /** A turn stays inside the tree and either visits a new node or shrinks
      the frontier, so the outer loop ends. */
  lemma StepMeasure(p: Policy, n: nat, st: State)
    requires Bounded(n, st) && st.frontier != []
    ensures var st' := Step(p, n, st);
      && Bounded(n, st')
      && |st.visited| <= n && |st'.visited| <= n
      && (|st.visited| < |st'.visited| || (|st'.visited| == |st.visited| && |st'.frontier| < |st.frontier|))
  {
    var (u, rest) := Pop(p, st.frontier);
    var st' := Step(p, n, st);
    VisitFacts(Scan(p, n, u), State(st.visited, st.order, rest));
    assert st'.frontier == rest + st'.frontier[|rest|..];
    assert forall v :: v in rest ==> v in st.frontier;
    BoundedCard(st.visited, n);
    BoundedCard(st'.visited, n);
    if st'.visited != st.visited {
      ProperSubsetCard(st.visited, st'.visited);
    }
  }

  /** The outer loop, run to the end: returns the final order. */
  function Run(p: Policy, n: nat, st: State): seq<nat>
    requires Bounded(n, st)
    decreases n - |st.visited|, |st.frontier|
  {
    BoundedCard(st.visited, n);
    if st.frontier == [] then st.order
    else
      StepMeasure(p, n, st);
      Run(p, n, Step(p, n, st))
  }

  /** A turn of the loop leaves the loop's final result unchanged. */
  lemma RunStep(p: Policy, n: nat, st: State)
    requires Bounded(n, st) && st.frontier != []
    ensures var st' := Step(p, n, st);
      && Bounded(n, st') && Run(p, n, st) == Run(p, n, st')
      && |st'.visited| <= n && |st.visited| <= n
      && (|st.visited| < |st'.visited| || (|st'.visited| == |st.visited| && |st'.frontier| < |st.frontier|))
  {
    StepMeasure(p, n, st);
  }

  /** The order a traversal from `s` produces on the heap tree of size `n`. */
  function Traversal(p: Policy, n: nat, s: nat): seq<nat>
    requires s < n
  {
    Run(p, n, Start(s))
  }

  /** With an empty frontier every node of the subtree of `s` has been visited. */
  lemma {:induction false} ClosedCoversSubtree(n: nat, s: nat, st: State, j: nat)
    requires Inv(n, s, st) && st.frontier == []
    requires j < n && Descends(j, s)
    ensures j in st.visited
  {
    if j != s {
      var q := (j - 1) / 2;
      ClosedCoversSubtree(n, s, st, q);
      ChildIffParent(n, q, j);
    }
  }

  /** The loop's result extends the order it started from, contains every
      node of the subtree of `s` exactly once, and nothing else. */
  lemma {:induction false} RunCorrect(p: Policy, n: nat, s: nat, st: State)
    requires Inv(n, s, st)
    ensures Bounded(n, st)
    ensures var r := Run(p, n, st);
      && |st.order| <= |r| && r[..|st.order|] == st.order
      && Distinct(r)
      && (forall j :: j in r <==> j in Subtree(n, s))
    decreases n - |st.visited|, |st.frontier|
  {
    BoundedCard(st.visited, n);
    if st.frontier == [] {
      forall j | j in Subtree(n, s) ensures j in st.visited {
        ClosedCoversSubtree(n, s, st, j);
      }
    } else {
      StepKeeps(p, n, s, st);
      StepMeasure(p, n, st);
      var st' := Step(p, n, st);
      RunCorrect(p, n, s, st');
      var r := Run(p, n, st');
      assert r[..|st'.order|][..|st.order|] == r[..|st.order|];
    }
  }

  /** Both traversals from `s` list the nodes of the subtree of `s`, each
      exactly once, starting with `s`. */
  lemma TraversalCorrect(p: Policy, n: nat, s: nat)
    requires s < n
    ensures var r := Traversal(p, n, s);
      && |r| >= 1 && r[0] == s
      && Distinct(r)
      && (forall j: nat :: j in r <==> j < n && Descends(j, s))
  {
    RunCorrect(p, n, s, Start(s));
  }

  /** From the root, both traversals are permutations of `0..n-1`: every
      index is found, and there are exactly `n` of them. */
  lemma TraversalFromRoot(p: Policy, n: nat)
    requires n >= 1
    ensures var r := Traversal(p, n, 0);
      && |r| == n && Distinct(r) && (forall j: nat :: j in r <==> j < n)
  {
    var r := Traversal(p, n, 0);
    TraversalCorrect(p, n, 0);
    forall j: nat ensures Descends(j, 0) { AllDescendFromRoot(j); }
    DistinctCard(r);
    assert Elems(r) == Below(n);
    BelowCard(n);
  }

  /** A breadth-first traversal from the root after `h` nodes have left the
      queue: with `k = min(n, 2h+1)`, the order is `0..k-1`, the queue holds
      `h..k-1` and the visited set is `{0..k-1}`. */
  ghost predicate Levels(n: nat, h: nat, st: State) {
    var k := if n < 2 * h + 1 then n else 2 * h + 1;
    h <= k && st.order == Iota(k) && st.frontier == st.order[h..] && st.visited == Below(k)
  }

  lemma {:induction false} BfsLevels(n: nat, h: nat, st: State)
    requires Bounded(n, st) && Levels(n, h, st)
    ensures Run(Fifo, n, st) == Iota(n)
    decreases n - |st.visited|, |st.frontier|
  {
    if st.frontier == [] {
      LevelsDone(n, h, st);
    } else {
      var st' := Step(Fifo, n, st);
      RunStep(Fifo, n, st);
      LevelsStep(n, h, st);
      BfsLevels(n, h + 1, st');
    }
  }

  /** When the queue is empty, every node has been listed. */
  lemma LevelsDone(n: nat, h: nat, st: State)
    requires Levels(n, h, st) && st.frontier == []
    ensures st.order == Iota(n)
  {
  }

  /** One turn of the breadth-first loop from the root moves from level
      state `h` to level state `h + 1`. */
  lemma LevelsStep(n: nat, h: nat, st: State)
    requires Levels(n, h, st) && st.frontier != []
    ensures Levels(n, h + 1, Step(Fifo, n, st))
  {
    assert st.frontier[0] == h;
    var mid := State(st.visited, st.order, st.frontier[1..]);
    assert Step(Fifo, n, st) == Visit(Children(n, h), mid);
    if 2 * h + 2 < n {
      LevelsTwoChildren(n, h, mid);
    } else if 2 * h + 1 < n {
      LevelsOneChild(n, h, mid);
    } else {
      assert Children(n, h) == [];
    }
  }

  /** The level step for a node with two children. */
  lemma LevelsTwoChildren(n: nat, h: nat, mid: State)
    requires 2 * h + 2 < n
    requires mid.order == Iota(2 * h + 1) && mid.frontier == mid.order[h + 1..] && mid.visited == Below(2 * h + 1)
    ensures Levels(n, h + 1, Visit(Children(n, h), mid))
  {
    var k := 2 * h + 1;
    assert Children(n, h) == [k, k + 1];
    assert k !in mid.visited;
    var mid1 := State(mid.visited + {k}, mid.order + [k], mid.frontier + [k]);
    assert Visit([k, k + 1], mid) == Visit([k + 1], mid1);
    assert k + 1 !in mid1.visited;
    var mid2 := State(mid1.visited + {k + 1}, mid1.order + [k + 1], mid1.frontier + [k + 1]);
    assert Visit([k + 1], mid1) == Visit([], mid2) == mid2;
    assert Iota(k + 2) == Iota(k) + [k] + [k + 1];
    assert mid2.frontier == mid2.order[h + 1..];
    assert Below(k + 2) == Below(k) + {k} + {k + 1};
  }

  /** The level step for a node with only a left child. */
  lemma LevelsOneChild(n: nat, h: nat, mid: State)
    requires 2 * h + 1 < n <= 2 * h + 2
    requires mid.order == Iota(2 * h + 1) && mid.frontier == mid.order[h + 1..] && mid.visited == Below(2 * h + 1)
    ensures Levels(n, h + 1, Visit(Children(n, h), mid))
  {
    var k := 2 * h + 1;
    assert Children(n, h) == [k];
    assert k !in mid.visited;
    var mid1 := State(mid.visited + {k}, mid.order + [k], mid.frontier + [k]);
    assert Visit([k], mid) == Visit([], mid1) == mid1;
    assert Iota(k + 1) == Iota(k) + [k];
    assert mid1.frontier == mid1.order[h + 1..];
    assert Below(k + 1) == Below(k) + {k};
  }

  /** On the heap tree, breadth-first order from the root is `0, 1, ..., n-1`:
      the tree level by level. */
  lemma BfsFromRoot(n: nat)
    requires n >= 1
    ensures Traversal(Fifo, n, 0) == Iota(n)
  {
    assert Start(0).order == Iota(1);
    BfsLevels(n, 0, Start(0));
  }

  /** For the default heap of six elements the depth-first order is
      `0, 2, 1, 4, 3, 5`: children are pushed in reversed order and recorded
      when pushed, so this is not a preorder. */
  lemma DfsDefaultHeap()
    ensures Traversal(Lifo, 6, 0) == [0, 2, 1, 4, 3, 5]
  {
    DfsDefaultFrom(0);
  }

  /** The state of the depth-first loop on the default heap before turn `i`. */
  function DfsDefaultState(i: nat): State
    requires i <= 6
  {
    match i
    case 0 => Start(0)
    case 1 => State({0, 1, 2}, [0, 2, 1], [2, 1])
    case 2 => State({0, 1, 2, 3, 4}, [0, 2, 1, 4, 3], [2, 4, 3])
    case 3 => State({0, 1, 2, 3, 4}, [0, 2, 1, 4, 3], [2, 4])
    case 4 => State({0, 1, 2, 3, 4}, [0, 2, 1, 4, 3], [2])
    case 5 => State({0, 1, 2, 3, 4, 5}, [0, 2, 1, 4, 3, 5], [5])
    case 6 => State({0, 1, 2, 3, 4, 5}, [0, 2, 1, 4, 3, 5], [])
  }

  /** The loop on the default heap from turn `i` on ends with the order
      `0, 2, 1, 4, 3, 5`. */
  lemma {:induction false} DfsDefaultFrom(i: nat)
    requires i <= 6 && Bounded(6, DfsDefaultState(i))
    ensures Run(Lifo, 6, DfsDefaultState(i)) == [0, 2, 1, 4, 3, 5]
    decreases 6 - i
  {
    if i < 6 {
      DfsDefaultTurn(i);
      RunStep(Lifo, 6, DfsDefaultState(i));
      DfsDefaultFrom(i + 1);
    }
  }

  /** Turn `i` of the loop on the default heap. */
  lemma DfsDefaultTurn(i: nat)
    requires i < 6
    ensures DfsDefaultState(i).frontier != [] && Step(Lifo, 6, DfsDefaultState(i)) == DfsDefaultState(i + 1)
  {
    var v, o := {0, 1, 2, 3, 4}, [0, 2, 1, 4, 3];
    match i
    case 0 => DfsTurnRoot();
    case 1 => DfsTurnLeft();
    case 2 => DfsTurnLeaf(3, [2, 4], v, o);
    case 3 => DfsTurnLeaf(4, [2], v, o);
    case 4 => DfsTurnRight();
    case 5 => DfsTurnLeaf(5, [], v + {5}, o + [5]);
  }

  /** Turn one on the default heap: the root pushes 2 and then 1. */
  lemma DfsTurnRoot()
    ensures Step(Lifo, 6, Start(0)) == State({0, 1, 2}, [0, 2, 1], [2, 1])
  {
    assert Scan(Lifo, 6, 0) == [2, 1] by { assert Children(6, 0) == [1, 2]; assert Reverse([1, 2]) == [2, 1]; }
    assert Visit([2, 1], State({0}, [0], [])) == Visit([1], State({0, 2}, [0, 2], [2]));
  }

  /** Turn two: node 1 pushes 4 and then 3. */
  lemma DfsTurnLeft()
    ensures Step(Lifo, 6, State({0, 1, 2}, [0, 2, 1], [2, 1]))
         == State({0, 1, 2, 3, 4}, [0, 2, 1, 4, 3], [2, 4, 3])
  {
    assert Scan(Lifo, 6, 1) == [4, 3] by { assert Children(6, 1) == [3, 4]; assert Reverse([3, 4]) == [4, 3]; }
    assert [2, 1][..1] == [2];
    assert Visit([4, 3], State({0, 1, 2}, [0, 2, 1], [2])) == Visit([3], State({0, 1, 2, 4}, [0, 2, 1, 4], [2, 4]));
    assert Visit([3], State({0, 1, 2, 4}, [0, 2, 1, 4], [2, 4])) == Visit([], State({0, 1, 2, 3, 4}, [0, 2, 1, 4, 3], [2, 4, 3]));
  }

  /** Turn five: node 2 pushes its only child 5. */
  lemma DfsTurnRight()
    ensures Step(Lifo, 6, State({0, 1, 2, 3, 4}, [0, 2, 1, 4, 3], [2]))
         == State({0, 1, 2, 3, 4, 5}, [0, 2, 1, 4, 3, 5], [5])
  {
    assert Scan(Lifo, 6, 2) == [5] by { assert Children(6, 2) == [5]; assert Reverse([5]) == [5]; }
    assert Pop(Lifo, [2]) == (2, []);
    assert 5 !in {0, 1, 2, 3, 4};
  }

  /** The other turns pop a leaf (3, 4, then 5) and push nothing. */
  lemma DfsTurnLeaf(u: nat, rest: seq<nat>, v: set<nat>, o: seq<nat>)
    requires 3 <= u
    ensures Step(Lifo, 6, State(v, o, rest + [u])) == State(v, o, rest)
  {
    assert Scan(Lifo, 6, u) == [];
    assert Pop(Lifo, rest + [u]) == (u, rest);
  }

  /** The graph's successor map is that of the heap tree of size `n`. */
  ghost predicate HeapShaped(m: map<nat, seq<nat>>, n: nat) {
    && (forall j: nat :: j in m <==> j < n)
    && (forall j: nat :: j < n ==> m[j] == Children(n, j))
  }

  /** The inner loop of both traversals: every successor not yet visited is
      marked visited and appended to the order and to the frontier. */
  method VisitAll(succ: seq<nat>, visited0: set<nat>, order0: seq<nat>, frontier0: seq<nat>)
    returns (visited: set<nat>, order: seq<nat>, frontier: seq<nat>)
    ensures State(visited, order, frontier) == Visit(succ, State(visited0, order0, frontier0))
  {
    visited, order, frontier := visited0, order0, frontier0;
    for i := 0 to |succ|
      invariant Visit(succ[i..], State(visited, order, frontier)) == Visit(succ, State(visited0, order0, frontier0))
    {
      var v := succ[i];
      assert succ[i..][1..] == succ[i + 1..];
      if v !in visited {
        visited := visited + {v};
        order := order + [v];
        frontier := frontier + [v];
      }
    }
  }

  /** `bfs_order(G, start)` on the graph `BuildHeapGraph(n)` builds. */
  method BfsOrder(g: DiGraph, ghost n: nat, start: nat) returns (order: seq<nat>)
    requires HeapShaped(g.succ, n) && start in g.succ
    ensures order == Traversal(Fifo, n, start)
    ensures |order| >= 1 && order[0] == start && Distinct(order)
    ensures forall j: nat :: j in order <==> j < n && Descends(j, start)
  {
    var visited := {start};
    order := [start];
    var queue := [start];
    while queue != []
      invariant Bounded(n, State(visited, order, queue))
      invariant Run(Fifo, n, State(visited, order, queue)) == Traversal(Fifo, n, start)
      decreases n - |visited|, |queue|
    {
      ghost var st := State(visited, order, queue);
      var u := queue[0];
      assert u in st.frontier;
      queue := queue[1..];
      var succ := g.succ[u];
      visited, order, queue := VisitAll(succ, visited, order, queue);
      RunStep(Fifo, n, st);
    }
    TraversalCorrect(Fifo, n, start);
  }

  /** `dfs_order(G, start)` on the graph `BuildHeapGraph(n)` builds. */
  method DfsOrder(g: DiGraph, ghost n: nat, start: nat) returns (order: seq<nat>)
    requires HeapShaped(g.succ, n) && start in g.succ
    ensures order == Traversal(Lifo, n, start)
    ensures |order| >= 1 && order[0] == start && Distinct(order)
    ensures forall j: nat :: j in order <==> j < n && Descends(j, start)
  {
    var visited := {start};
    order := [start];
    var stack := [start];
    while stack != []
      invariant Bounded(n, State(visited, order, stack))
      invariant Run(Lifo, n, State(visited, order, stack)) == Traversal(Lifo, n, start)
      decreases n - |visited|, |stack|
    {
      ghost var st := State(visited, order, stack);
      var u := stack[|stack| - 1];
      assert u in st.frontier;
      stack := stack[..|stack| - 1];
      var succ := Reverse(g.succ[u]);
      assert succ == Scan(Lifo, n, u);
      visited, order, stack := VisitAll(succ, visited, order, stack);
      RunStep(Lifo, n, st);
    }
    TraversalCorrect(Lifo, n, start);
  }
}
