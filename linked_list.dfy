/**
 * Singly linked lists of integers and the algorithms on them: in-place
 * reversal, a stable merge of two sorted lists through a dummy node, merge
 * sort with a slow/fast-pointer split, and the conversions from and to a
 * sequence of values.
 *
 * A list is a chain of `ListNode` objects. Its shape is described by a ghost
 * sequence `ns` of the nodes in list order: `IsList(head, ns)` says that
 * `head` is the first of them (or `null` for the empty list), that each
 * node's `next` is the following one and the last node's `next` is `null`,
 * and that no node occurs twice, so the chain has no cycle.
 *
 * Inside `IsList` "no node occurs twice" is written recursively, as
 * `Unique`, rather than as the pairwise `Distinct` of `Seqs`: the two are
 * proved equal (`UniqueDistinct`), and the recursive form keeps the
 * verifier from comparing every pair of nodes in sight in the methods
 * that juggle several lists.
 */
module LinkedList {
  import opened Seqs

  /** A node: its value, which none of the algorithms changes, and the
      pointer they rewire. */
  class ListNode {
    const val: int
    var next: ListNode?

    constructor (val: int, next: ListNode?)
      ensures this.val == val && this.next == next
    {
      this.val := val;
      this.next := next;
    }
  }

  /** The first node of `ns`, or `null`. */
  function Head(ns: seq<ListNode>): ListNode? {
    if ns == [] then null else ns[0]
  }

  /** Each node of `ns` but the last points to the next one. */
  ghost predicate Linked(ns: seq<ListNode>)
    reads ns
  {
    forall k {:trigger ns[k].next} :: 0 <= k < |ns| - 1 ==> ns[k].next == ns[k + 1]
  }

  /** No node occurs twice, stated one node at a time. */
  ghost predicate Unique(ns: seq<ListNode>) {
    ns == [] || (ns[0] !in ns[1..] && Unique(ns[1..]))
  }

  lemma {:induction false} UniqueDistinct(ns: seq<ListNode>)
    ensures Unique(ns) <==> Distinct(ns)
  {
    if ns != [] {
      UniqueDistinct(ns[1..]);
      if Distinct(ns) {
        assert Distinct(ns[1..]);
      }
      if Unique(ns) {
        forall i, j | 0 <= i < j < |ns| ensures ns[i] != ns[j] {
          if i == 0 {
            assert ns[j] == ns[1..][j - 1];
          } else {
            assert ns[i] == ns[1..][i - 1] && ns[j] == ns[1..][j - 1];
          }
        }
      }
    }
  }

  /** `head` starts a null-terminated list whose nodes are `ns`. */
  ghost predicate IsList(head: ListNode?, ns: seq<ListNode>)
    reads ns
  {
    && Unique(ns)
    && head == Head(ns)
    && Linked(ns)
    && (ns != [] ==> ns[|ns| - 1].next == null)
  }

  /** The values of the nodes `ns`, in order: what `list_to_py` returns. */
  function Values(ns: seq<ListNode>): (vs: seq<int>)
    ensures |vs| == |ns| && forall i :: 0 <= i < |ns| ==> vs[i] == ns[i].val
  {
    if ns == [] then [] else [ns[0].val] + Values(ns[1..])
  }

  predicate Sorted(s: seq<int>) {
    forall i, j :: 0 <= i < j < |s| ==> s[i] <= s[j]
  }

  //////////////////////////////////////////////////////////////////////
  // build_list and list_to_py
  //////////////////////////////////////////////////////////////////////

  /** `build_list(values)`: prepends a fresh node for each value, last
      value first. */
  method BuildList(values: seq<int>) returns (head: ListNode?, ghost ns: seq<ListNode>)
    ensures IsList(head, ns) && Values(ns) == values
    ensures forall n :: n in ns ==> fresh(n)
  {
    head, ns := null, [];
    var i := |values|;
    while i > 0
      invariant 0 <= i <= |values|
      invariant IsList(head, ns) && Values(ns) == values[i..]
      invariant forall n :: n in ns ==> fresh(n)
    {
      i := i - 1;
      head := new ListNode(values[i], head);
      assert ([head] + ns)[1..] == ns;
      LinkedCons(head, ns);
      ns := [head] + ns;
    }
  }

  /** A node pointing to the head of a chain extends it at the front. */
  lemma LinkedCons(n: ListNode, ns: seq<ListNode>)
    requires Linked(ns) && n.next == Head(ns)
    ensures Linked([n] + ns)
  {
    var ms := [n] + ns;
    forall k | 0 <= k < |ms| - 1 ensures ms[k].next == ms[k + 1] {
      if k > 0 {
        assert ms[k] == ns[k - 1] && ms[k + 1] == ns[k];
      }
    }
  }

  /** `list_to_py(head)`: the values from the head to the end. */
  method ListToPy(head: ListNode?, ghost ns: seq<ListNode>) returns (out: seq<int>)
    requires IsList(head, ns)
    ensures out == Values(ns)
  {
    out := [];
    var curr := head;
    ghost var k := 0;
    while curr != null
      invariant 0 <= k <= |ns| && curr == Head(ns[k..])
      invariant out == Values(ns[..k])
      decreases |ns| - k
    {
      assert ns[..k + 1] == ns[..k] + [ns[k]];
      ValuesAppend(ns[..k], [ns[k]]);
      out := out + [curr.val];
      curr := curr.next;
      k := k + 1;
    }
    assert ns[..k] == ns;
  }

  lemma ValuesAppend(xs: seq<ListNode>, ys: seq<ListNode>)
    ensures Values(xs + ys) == Values(xs) + Values(ys)
  {
  }

  /** Building a list and reading it back gives the values back. */
  method RoundTrip(values: seq<int>) returns (out: seq<int>)
    ensures out == values
  {
    var head, ns := BuildList(values);
    out := ListToPy(head, ns);
  }

  //////////////////////////////////////////////////////////////////////
  // reverse_list
  //////////////////////////////////////////////////////////////////////

  lemma ReverseDistinct<T>(s: seq<T>)
    requires Distinct(s)
    ensures Distinct(Reverse(s))
  {
  }

  /** `reverse_list(head)`: turns every `next` pointer around; the nodes
      are the same, in the opposite order. */
  method ReverseList(head: ListNode?, ghost ns: seq<ListNode>) returns (r: ListNode?)
    requires IsList(head, ns)
    modifies Elems(ns)
    ensures IsList(r, Reverse(ns))
    ensures |ns| <= 1 ==> r == head
  {
    var prev: ListNode? := null;
    var curr := head;
    ghost var k := 0;
    UniqueDistinct(ns);
    while curr != null
      invariant 0 <= k <= |ns| && Distinct(ns)
      invariant curr == Head(ns[k..]) && prev == (if k == 0 then null else ns[k - 1])
      invariant k > 0 ==> ns[0].next == null
      invariant forall i :: 0 < i < k ==> ns[i].next == ns[i - 1]
      invariant forall i :: k <= i < |ns| - 1 ==> ns[i].next == ns[i + 1]
      invariant ns != [] ==> k == |ns| || ns[|ns| - 1].next == null
      decreases |ns| - k
    {
      assert k < |ns| && curr == ns[k];
      var nxt := curr.next;
      assert nxt == Head(ns[k + 1..]);
      assert forall i :: 0 <= i < |ns| && i != k ==> ns[i] != curr;
      curr.next := prev;
      prev := curr;
      curr := nxt;
      k := k + 1;
    }
    r := prev;
    ReversedLinks(ns, r);
  }

  /** Once every link of `ns` points backwards, the last node heads the
      reversed list. */
  lemma ReversedLinks(ns: seq<ListNode>, r: ListNode?)
    requires Distinct(ns) && r == (if ns == [] then null else ns[|ns| - 1])
    requires ns != [] ==> ns[0].next == null
    requires forall i :: 0 < i < |ns| ==> ns[i].next == ns[i - 1]
    ensures IsList(r, Reverse(ns))
  {
    ReverseDistinct(ns);
    UniqueDistinct(Reverse(ns));
    var rs := Reverse(ns);
    forall j | 0 <= j < |rs| - 1 ensures rs[j].next == rs[j + 1] {
      assert rs[j] == ns[|ns| - 1 - j] && rs[j + 1] == ns[|ns| - 2 - j];
    }
  }

  /** What `reverse_list` promises about the values. */
  lemma ValuesReverse(ns: seq<ListNode>)
    ensures Values(Reverse(ns)) == Reverse(Values(ns))
  {
    var a, b := Values(Reverse(ns)), Reverse(Values(ns));
    assert |a| == |b|;
    forall i | 0 <= i < |a| ensures a[i] == b[i] {
      assert a[i] == Reverse(ns)[i].val == ns[|ns| - 1 - i].val;
    }
  }

  //////////////////////////////////////////////////////////////////////
  // merge_two_sorted
  //////////////////////////////////////////////////////////////////////

  /** The order in which `merge_two_sorted` links the nodes of `xs` and
      `ys`: the head of `xs` goes first unless the head of `ys` is strictly
      smaller, and once one list is used up the rest of the other follows. */
  function Merge(xs: seq<ListNode>, ys: seq<ListNode>): (zs: seq<ListNode>)
    ensures |zs| == |xs| + |ys|
    decreases |xs| + |ys|
  {
    if xs == [] then ys
    else if ys == [] then xs
    else if xs[0].val <= ys[0].val then [xs[0]] + Merge(xs[1..], ys)
    else [ys[0]] + Merge(xs, ys[1..])
  }

  /** The nodes of a list are its first `h` nodes and the rest. */
  lemma NodesSplit(ns: seq<ListNode>, h: nat)
    requires h <= |ns|
    ensures multiset(ns) == multiset(ns[..h]) + multiset(ns[h..])
  {
    assert ns == ns[..h] + ns[h..];
  }

  /** One step of `MergePermutes`: putting the head of `r` in front of a
      merge `t` of the rest of `r` and `o` gives the nodes of `r` and `o`. */
  lemma NodesFront(r: seq<ListNode>, o: seq<ListNode>, t: seq<ListNode>)
    requires r != [] && multiset(t) == multiset(r[1..]) + multiset(o)
    ensures multiset([r[0]] + t) == multiset(r) + multiset(o)
  {
    assert r == [r[0]] + r[1..];
  }

  /** The merge holds the nodes of both lists, each as often as there. */
  lemma {:induction false} MergePermutes(xs: seq<ListNode>, ys: seq<ListNode>)
    ensures multiset(Merge(xs, ys)) == multiset(xs) + multiset(ys)
    decreases |xs| + |ys|
  {
    if xs != [] && ys != [] {
      if xs[0].val <= ys[0].val {
        MergePermutes(xs[1..], ys);
        NodesFront(xs, ys, Merge(xs[1..], ys));
      } else {
        MergePermutes(xs, ys[1..]);
        NodesFront(ys, xs, Merge(xs, ys[1..]));
      }
    }
  }

  /** A node is in the merge exactly when it is in one of the lists. */
  lemma MergeElems(xs: seq<ListNode>, ys: seq<ListNode>)
    ensures forall z :: z in Merge(xs, ys) <==> z in xs || z in ys
  {
    MergePermutes(xs, ys);
    forall z ensures z in Merge(xs, ys) <==> z in xs || z in ys {
      assert z in Merge(xs, ys) <==> z in multiset(Merge(xs, ys));
    }
  }

  /** Merging lists without a node in common repeats no node. */
  lemma {:induction false} MergeDistinct(xs: seq<ListNode>, ys: seq<ListNode>)
    requires Distinct(xs) && Distinct(ys) && Elems(xs) !! Elems(ys)
    ensures Distinct(Merge(xs, ys))
    decreases |xs| + |ys|
  {
    if xs != [] && ys != [] {
      if xs[0].val <= ys[0].val {
        var t := xs[1..];
        assert Elems(t) <= Elems(xs);
        assert xs[0] in Elems(xs);
        assert xs[0] !in t && xs[0] !in ys;
        MergeDistinct(t, ys);
        MergeElems(t, ys);
        DistinctCons(xs[0], Merge(t, ys));
      } else {
        var t := ys[1..];
        assert Elems(t) <= Elems(ys);
        assert ys[0] in Elems(ys);
        assert ys[0] !in xs && ys[0] !in t;
        MergeDistinct(xs, t);
        MergeElems(xs, t);
        DistinctCons(ys[0], Merge(xs, t));
      }
    }
  }

  /** Merging sorted lists gives a sorted list. */
  lemma {:induction false} MergeSorted(xs: seq<ListNode>, ys: seq<ListNode>)
    requires Sorted(Values(xs)) && Sorted(Values(ys))
    ensures Sorted(Values(Merge(xs, ys)))
    decreases |xs| + |ys|
  {
    if xs != [] && ys != [] {
      var zs := Merge(xs, ys);
      if xs[0].val <= ys[0].val {
        MergeSorted(xs[1..], ys);
        MergeBelow(xs[0].val, xs[1..], ys);
      } else {
        MergeSorted(xs, ys[1..]);
        MergeBelow(ys[0].val, xs, ys[1..]);
      }
    }
  }

  /** A value at most every value of two sorted lists is at most every
      value of their merge. */
  lemma MergeBelow(v: int, xs: seq<ListNode>, ys: seq<ListNode>)
    requires forall i :: 0 <= i < |xs| ==> v <= xs[i].val
    requires forall i :: 0 <= i < |ys| ==> v <= ys[i].val
    ensures forall i :: 0 <= i < |Merge(xs, ys)| ==> v <= Merge(xs, ys)[i].val
  {
    MergePermutes(xs, ys);
    forall i | 0 <= i < |Merge(xs, ys)| ensures v <= Merge(xs, ys)[i].val {
      var z := Merge(xs, ys)[i];
      assert z in multiset(xs) + multiset(ys);
    }
  }

  /** What a step of the merge loop needs to know about its nodes, with
      `p` nodes of the merge `zs` linked behind the dummy and `rx`, `ry`
      left: the last node linked is neither earlier in the chain nor in
      what is left, and is the dummy or a node of one of the lists. */
  lemma MergeApart(xs: seq<ListNode>, ys: seq<ListNode>, dummy: ListNode, zs: seq<ListNode>, chain: seq<ListNode>,
                   p: nat, rx: seq<ListNode>, ry: seq<ListNode>)
    requires Distinct(xs) && Distinct(ys) && Elems(xs) !! Elems(ys) && dummy !in xs && dummy !in ys
    requires zs == Merge(xs, ys) && chain == [dummy] + zs
    requires p <= |zs| && zs[p..] == Merge(rx, ry)
    ensures forall k :: 0 <= k < p ==> chain[k] != chain[p]
    ensures chain[p] !in rx && chain[p] !in ry
    ensures chain[p] == dummy || chain[p] in xs || chain[p] in ys
  {
    var rest := Merge(rx, ry);
    var tail := chain[p];
    MergeDistinct(xs, ys);
    MergeElems(xs, ys);
    forall k | 0 <= k < p ensures chain[k] != tail {
      if k > 0 {
        assert chain[k] == zs[k - 1] && tail == zs[p - 1];
      }
    }
    if p > 0 {
      assert tail == zs[p - 1] && tail in zs;
    }
    forall t | 0 <= t < |rest| ensures rest[t] != tail {
      assert rest[t] == zs[p + t] && rest[t] in zs;
      if p > 0 {
        assert tail == zs[p - 1];
      }
    }
    MergeElems(rx, ry);
  }

  /** One step of the merge order, seen from the `p` nodes already linked. */
  lemma MergeStep(zs: seq<ListNode>, p: nat, rx: seq<ListNode>, ry: seq<ListNode>)
    requires p <= |zs| && zs[p..] == Merge(rx, ry) && rx != [] && ry != []
    ensures p < |zs|
    ensures rx[0].val <= ry[0].val ==> zs[p] == rx[0] && zs[p + 1..] == Merge(rx[1..], ry)
    ensures rx[0].val > ry[0].val ==> zs[p] == ry[0] && zs[p + 1..] == Merge(rx, ry[1..])
  {
    assert zs[p] == zs[p..][0];
    assert zs[p + 1..] == zs[p..][1..];
  }

  /** A chain from the dummy through `m` that ends in `null` makes `m` a
      list the dummy points to. */
  lemma ChainList(dummy: ListNode, m: seq<ListNode>)
    requires Distinct(m) && Linked([dummy] + m) && ([dummy] + m)[|m|].next == null
    ensures IsList(dummy.next, m)
  {
    UniqueDistinct(m);
    var chain := [dummy] + m;
    assert chain[0] == dummy;
    if m != [] {
      assert chain[1] == m[0];
    }
    forall k | 0 <= k < |m| - 1 ensures m[k].next == m[k + 1] {
      assert chain[k + 1] == m[k] && chain[k + 2] == m[k + 1];
    }
  }

  /** Linking the last node of the first `p` links of the chain to the
      rest of the merge closes the chain, and makes the merge a list. */
  lemma CloseChain(dummy: ListNode, zs: seq<ListNode>, chain: seq<ListNode>, p: nat, rest: seq<ListNode>)
    requires Distinct(zs) && chain == [dummy] + zs && p <= |zs| && zs[p..] == rest
    requires forall k :: 0 <= k < p ==> chain[k].next == chain[k + 1]
    requires chain[p].next == Head(rest)
    requires Linked(rest) && (rest != [] ==> rest[|rest| - 1].next == null)
    ensures IsList(dummy.next, zs)
  {
    forall k | 0 <= k < |chain| - 1 ensures chain[k].next == chain[k + 1] {
      if k == p {
        assert chain[k + 1] == zs[p];
      } else if k > p {
        assert chain[k] == rest[k - 1 - p] && chain[k + 1] == rest[k - p];
      }
    }
    if rest != [] {
      assert chain[|zs|] == rest[|rest| - 1];
    }
    ChainList(dummy, zs);
  }

  /** The state of the loop of `merge_two_sorted`: the first `p` links of
      `chain` are in place, `tail` is the last node linked, and `a`, `b`
      head the nodes `rx`, `ry` still to link. */
  ghost predicate MergeState(zs: seq<ListNode>, chain: seq<ListNode>, tail: ListNode, a: ListNode?, b: ListNode?,
                             p: nat, rx: seq<ListNode>, ry: seq<ListNode>)
    reads chain, rx, ry
  {
    && p <= |zs| && zs[p..] == Merge(rx, ry) && |chain| == |zs| + 1 && tail == chain[p]
    && (forall k :: 0 <= k < p ==> chain[k].next == chain[k + 1])
    && a == Head(rx) && Linked(rx) && (rx != [] ==> rx[|rx| - 1].next == null)
    && b == Head(ry) && Linked(ry) && (ry != [] ==> ry[|ry| - 1].next == null)
  }

  /** Links the first node of `r` behind `tail`, the last node of the
      first `p` links of `chain`; the order of `r`'s other nodes and of
      those of `o` is left alone. */
  method LinkFront(tail: ListNode, n: ListNode, ghost chain: seq<ListNode>, ghost p: nat, ghost r: seq<ListNode>, ghost o: seq<ListNode>)
    requires p + 1 < |chain| && tail == chain[p] && r != [] && n == r[0] && chain[p + 1] == n
    requires forall k :: 0 <= k < p ==> chain[k] != tail
    requires tail !in r && tail !in o
    requires forall k :: 0 <= k < p ==> chain[k].next == chain[k + 1]
    requires Linked(r) && r[|r| - 1].next == null
    requires Linked(o) && (o != [] ==> o[|o| - 1].next == null)
    modifies tail
    ensures tail.next == n && n.next == Head(r[1..])
    ensures forall k :: 0 <= k < p + 1 ==> chain[k].next == chain[k + 1]
    ensures Linked(r[1..]) && (r[1..] != [] ==> r[|r| - 1].next == null)
    ensures Linked(o) && (o != [] ==> o[|o| - 1].next == null)
  {
    assert Linked(r[1..]);
    tail.next := n;
  }

  /** One turn of the loop of `merge_two_sorted`: links behind `tail` the
      node `Merge` takes next and moves on. */
  method MergeLink(ghost xs: seq<ListNode>, ghost ys: seq<ListNode>, dummy: ListNode, ghost zs: seq<ListNode>,
                   ghost chain: seq<ListNode>, tail: ListNode, a: ListNode, b: ListNode,
                   ghost p: nat, ghost rx: seq<ListNode>, ghost ry: seq<ListNode>)
    returns (tail': ListNode, a': ListNode?, b': ListNode?, ghost p': nat, ghost rx': seq<ListNode>, ghost ry': seq<ListNode>)
    requires Distinct(xs) && Distinct(ys) && Elems(xs) !! Elems(ys) && dummy !in xs && dummy !in ys
    requires zs == Merge(xs, ys) && chain == [dummy] + zs
    requires MergeState(zs, chain, tail, a, b, p, rx, ry)
    modifies tail
    ensures MergeState(zs, chain, tail', a', b', p', rx', ry') && p' == p + 1
  {
    MergeApart(xs, ys, dummy, zs, chain, p, rx, ry);
    MergeStep(zs, p, rx, ry);
    p' := p + 1;
    if a.val <= b.val {
      LinkFront(tail, a, chain, p, rx, ry);
      tail', a', b', rx', ry' := a, a.next, b, rx[1..], ry;
    } else {
      LinkFront(tail, b, chain, p, ry, rx);
      tail', a', b', rx', ry' := b, a, b.next, rx, ry[1..];
    }
  }

  /** The loop of `merge_two_sorted`: runs while both lists have nodes
      left, and leaves one of them empty. */
  method MergeLoop(l1: ListNode?, ghost xs: seq<ListNode>, l2: ListNode?, ghost ys: seq<ListNode>,
                   dummy: ListNode, ghost zs: seq<ListNode>, ghost chain: seq<ListNode>)
    returns (tail: ListNode, a: ListNode?, b: ListNode?, ghost p: nat, ghost rx: seq<ListNode>, ghost ry: seq<ListNode>)
    requires IsList(l1, xs) && IsList(l2, ys) && Elems(xs) !! Elems(ys) && dummy !in xs && dummy !in ys
    requires zs == Merge(xs, ys) && chain == [dummy] + zs
    modifies Elems(xs), Elems(ys), dummy
    ensures MergeState(zs, chain, tail, a, b, p, rx, ry) && (a == null || b == null)
  {
    UniqueDistinct(xs);
    UniqueDistinct(ys);
    tail, a, b := dummy, l1, l2;
    p, rx, ry := 0, xs, ys;
    while a != null && b != null
      invariant MergeState(zs, chain, tail, a, b, p, rx, ry)
      decreases |zs| - p
    {
      MergeApart(xs, ys, dummy, zs, chain, p, rx, ry);
      tail, a, b, p, rx, ry := MergeLink(xs, ys, dummy, zs, chain, tail, a, b, p, rx, ry);
    }
  }

  /** `merge_two_sorted(l1, l2)`: links the nodes of both lists, through a
      fresh dummy head, in the order `Merge` gives; the dummy itself is not
      part of the result. */
  method MergeTwoSorted(l1: ListNode?, ghost xs: seq<ListNode>, l2: ListNode?, ghost ys: seq<ListNode>)
    returns (r: ListNode?, ghost zs: seq<ListNode>)
    requires IsList(l1, xs) && IsList(l2, ys) && Elems(xs) !! Elems(ys)
    modifies Elems(xs), Elems(ys)
    ensures zs == Merge(xs, ys) && IsList(r, zs)
  {
    var dummy := new ListNode(0, null);
    zs := Merge(xs, ys);
    // the chain the loop builds: the dummy, then the merge
    ghost var chain := [dummy] + zs;
    var tail, a, b, p, rx, ry := MergeLoop(l1, xs, l2, ys, dummy, zs, chain);
    UniqueDistinct(xs);
    UniqueDistinct(ys);
    MergeApart(xs, ys, dummy, zs, chain, p, rx, ry);
    MergeFinish(xs, ys, dummy, zs, chain, tail, a, b, p, rx, ry);
    r := dummy.next;
  }

  /** `tail.next = l1 if l1 else l2`: once one list is used up, links the
      rest of the other behind `tail`, which makes the merge a list. */
  method MergeFinish(ghost xs: seq<ListNode>, ghost ys: seq<ListNode>, dummy: ListNode, ghost zs: seq<ListNode>,
                     ghost chain: seq<ListNode>, tail: ListNode, a: ListNode?, b: ListNode?,
                     ghost p: nat, ghost rx: seq<ListNode>, ghost ry: seq<ListNode>)
    requires Distinct(xs) && Distinct(ys) && Elems(xs) !! Elems(ys) && dummy !in xs && dummy !in ys
    requires zs == Merge(xs, ys) && chain == [dummy] + zs
    requires MergeState(zs, chain, tail, a, b, p, rx, ry) && (a == null || b == null)
    modifies tail
    ensures IsList(dummy.next, zs)
  {
    ghost var rest := if a != null then rx else ry;
    assert zs[p..] == rest;
    MergeApart(xs, ys, dummy, zs, chain, p, rx, ry);
    LinkRest(tail, if a != null then a else b, chain, p, rest);
    MergeDistinct(xs, ys);
    CloseChain(dummy, zs, chain, p, rest);
  }

  /** Links the list `rest` behind `tail`, the last node of the first `p`
      links of `chain`, leaving those links and the links of `rest` alone. */
  method LinkRest(tail: ListNode, n: ListNode?, ghost chain: seq<ListNode>, ghost p: nat, ghost rest: seq<ListNode>)
    requires p < |chain| && tail == chain[p] && n == Head(rest)
    requires forall k :: 0 <= k < p ==> chain[k] != tail
    requires tail !in rest
    requires forall k :: 0 <= k < p ==> chain[k].next == chain[k + 1]
    requires Linked(rest) && (rest != [] ==> rest[|rest| - 1].next == null)
    modifies tail
    ensures chain[p].next == Head(rest)
    ensures forall k :: 0 <= k < p ==> chain[k].next == chain[k + 1]
    ensures Linked(rest) && (rest != [] ==> rest[|rest| - 1].next == null)
  {
    tail.next := n;
  }

  //////////////////////////////////////////////////////////////////////
  // stability of the merge
  //////////////////////////////////////////////////////////////////////

  /** The nodes of `zs` that occur in `s`, in their order in `zs`. */
  function Keep(zs: seq<ListNode>, s: seq<ListNode>): (ks: seq<ListNode>)
    ensures |ks| <= |zs|
    ensures forall n :: n in ks ==> n in zs && n in s
    ensures forall n :: n in zs && n in s ==> n in ks
  {
    if zs == [] then []
    else if zs[0] in s then [zs[0]] + Keep(zs[1..], s)
    else Keep(zs[1..], s)
  }

  lemma KeepFront(n: ListNode, zs: seq<ListNode>, s: seq<ListNode>)
    ensures Keep([n] + zs, s) == if n in s then [n] + Keep(zs, s) else Keep(zs, s)
  {
    assert ([n] + zs)[1..] == zs;
  }

  /** Keeping by two sequences that agree on the nodes of `zs` gives the
      same nodes. */
  lemma {:induction false} KeepSame(zs: seq<ListNode>, s: seq<ListNode>, t: seq<ListNode>)
    requires forall n :: n in zs ==> (n in s <==> n in t)
    ensures Keep(zs, s) == Keep(zs, t)
  {
    if zs != [] {
      KeepSame(zs[1..], s, t);
    }
  }

  /** Keeping from `xs` the nodes of `xs` gives `xs`; keeping the nodes of
      a sequence disjoint from it gives nothing. */
  lemma {:induction false} KeepAll(xs: seq<ListNode>)
    ensures Keep(xs, xs) == xs
  {
    if xs != [] {
      KeepSame(xs[1..], xs, xs[1..]);
      KeepAll(xs[1..]);
    }
  }

  lemma {:induction false} KeepNone(xs: seq<ListNode>, s: seq<ListNode>)
    requires forall n :: n in xs ==> n !in s
    ensures Keep(xs, s) == []
  {
    if xs != [] {
      KeepNone(xs[1..], s);
    }
  }

  /** The merge keeps the order of each list: taking from it the nodes of
      `xs` gives `xs`, and the nodes of `ys` gives `ys`. */
  lemma {:induction false} MergeKeepsOrder(xs: seq<ListNode>, ys: seq<ListNode>)
    requires forall n :: n in xs ==> n !in ys
    ensures Keep(Merge(xs, ys), xs) == xs && Keep(Merge(xs, ys), ys) == ys
    decreases |xs| + |ys|
  {
    if xs == [] {
      KeepNone(ys, xs);
      KeepAll(ys);
    } else if ys == [] {
      KeepAll(xs);
      KeepNone(xs, ys);
    } else if xs[0].val <= ys[0].val {
      var t := xs[1..];
      MergeKeepsOrder(t, ys);
      MergeElems(t, ys);
      KeepSame(Merge(t, ys), t, xs);
      KeepFront(xs[0], Merge(t, ys), xs);
      KeepFront(xs[0], Merge(t, ys), ys);
      assert xs == [xs[0]] + t;
    } else {
      var t := ys[1..];
      MergeKeepsOrder(xs, t);
      MergeElems(xs, t);
      KeepSame(Merge(xs, t), t, ys);
      KeepFront(ys[0], Merge(xs, t), xs);
      KeepFront(ys[0], Merge(xs, t), ys);
      assert ys == [ys[0]] + t;
    }
  }

  /** Ties go to the first list: when the first list is sorted, a node of
      the second list comes before a node of the first only if its value
      is strictly smaller. */
  lemma {:induction false} MergeTiesFirst(xs: seq<ListNode>, ys: seq<ListNode>, i: nat, j: nat)
    requires Sorted(Values(xs)) && Elems(xs) !! Elems(ys)
    requires i < j < |Merge(xs, ys)| && Merge(xs, ys)[i] in ys && Merge(xs, ys)[j] in xs
    ensures Merge(xs, ys)[i].val < Merge(xs, ys)[j].val
    decreases |xs| + |ys|
  {
    var zs := Merge(xs, ys);
    assert zs[i] in Elems(ys) && zs[j] in Elems(xs);
    if xs[0].val <= ys[0].val {
      var t := xs[1..];
      assert zs == [xs[0]] + Merge(t, ys);
      assert xs[0] in Elems(xs);
      MergeElems(t, ys);
      assert zs[j] == Merge(t, ys)[j - 1];
      SortedTail(xs);
      MergeTiesFirst(t, ys, i - 1, j - 1);
    } else {
      var t := ys[1..];
      assert zs == [ys[0]] + Merge(xs, t);
      MergeElems(xs, t);
      if i == 0 {
        var q :| 0 <= q < |xs| && xs[q] == zs[j];
        assert Values(xs)[0] <= Values(xs)[q];
      } else {
        assert zs[i] == Merge(xs, t)[i - 1] && zs[i] !in xs;
        MergeTiesFirst(xs, t, i - 1, j - 1);
      }
    }
  }

  lemma SortedTail(xs: seq<ListNode>)
    requires xs != [] && Sorted(Values(xs))
    ensures Sorted(Values(xs[1..]))
  {
    forall a, b | 0 <= a < b < |xs| - 1 ensures Values(xs[1..])[a] <= Values(xs[1..])[b] {
      assert Values(xs)[a + 1] <= Values(xs)[b + 1];
    }
  }

  /** The merge holds the values of both lists, each as often as there. */
  lemma {:induction false} MergeValues(xs: seq<ListNode>, ys: seq<ListNode>)
    ensures multiset(Values(Merge(xs, ys))) == multiset(Values(xs)) + multiset(Values(ys))
    decreases |xs| + |ys|
  {
    if xs != [] && ys != [] {
      if xs[0].val <= ys[0].val {
        MergeValues(xs[1..], ys);
        ValuesFront(xs[0], xs[1..], ys, Merge(xs[1..], ys));
      } else {
        MergeValues(xs, ys[1..]);
        ValuesFront(ys[0], ys[1..], xs, Merge(xs, ys[1..]));
      }
    }
  }

  /** One step of `MergeValues`: putting `n` in front of a merge `t` of `r`
      and `o` gives the values of `[n] + r` and of `o`. */
  lemma ValuesFront(n: ListNode, r: seq<ListNode>, o: seq<ListNode>, t: seq<ListNode>)
    requires multiset(Values(t)) == multiset(Values(r)) + multiset(Values(o))
    ensures multiset(Values([n] + t)) == multiset(Values([n] + r)) + multiset(Values(o))
  {
    assert ([n] + t)[1..] == t;
    assert ([n] + r)[1..] == r;
  }

  //////////////////////////////////////////////////////////////////////
  // sort_list
  //////////////////////////////////////////////////////////////////////

  /** The slow/fast walk of `sort_list`: `slow` starts at the head and
      `fast` one node further; while `fast` and the node after it exist,
      `slow` moves one node and `fast` two. `slow` stops at the last node
      of the first half, which gets the extra node when the length is odd. */
  method Middle(head: ListNode, ghost ns: seq<ListNode>) returns (slow: ListNode, ghost k: nat)
    requires IsList(head, ns) && |ns| >= 2
    ensures k == (|ns| - 1) / 2 && slow == ns[k]
    ensures k + 1 == (|ns| + 1) / 2 && |ns| - (k + 1) == |ns| / 2
  {
    slow := head;
    var fast := head.next;
    k := 0;
    ghost var f := 1;
    while fast != null && fast.next != null
      invariant f == 2 * k + 1 && f <= |ns| && slow == ns[k]
      invariant fast == (if f < |ns| then ns[f] else null)
      decreases |ns| - f
    {
      slow := slow.next;
      fast := fast.next.next;
      k, f := k + 1, f + 2;
    }
  }

  /** `mid = slow.next; slow.next = None`: cuts the list after its `k`th
      node into two lists. */
  method Cut(slow: ListNode, ghost ns: seq<ListNode>, ghost k: nat) returns (mid: ListNode?)
    requires IsList(Head(ns), ns) && k < |ns| && slow == ns[k]
    modifies slow
    ensures IsList(Head(ns), ns[..k + 1]) && IsList(mid, ns[k + 1..])
  {
    UniqueDistinct(ns);
    UniqueDistinct(ns[..k + 1]);
    UniqueDistinct(ns[k + 1..]);
    mid := slow.next;
    assert forall i :: 0 <= i < |ns| && i != k ==> ns[i] != slow;
    slow.next := null;
  }

  /** Where `sort_list` cuts a list of `n >= 2` nodes: after the first
      `(n + 1) / 2`, which `Middle` finds. */
  function Half(n: nat): nat {
    (n + 1) / 2
  }

  /** The order in which `sort_list` leaves the nodes of `ns`: a list of
      fewer than two nodes as it is; a longer one cut after `Half(|ns|)`
      nodes, both parts sorted, and the results merged. */
  function MergeSort(ns: seq<ListNode>): (ms: seq<ListNode>)
    ensures |ms| == |ns|
    decreases |ns|
  {
    if |ns| <= 1 then ns
    else Merge(MergeSort(ns[..Half(|ns|)]), MergeSort(ns[Half(|ns|)..]))
  }

  /** The merge sort rearranges the nodes: each occurs as often as before. */
  lemma {:induction false} MergeSortPermutes(ns: seq<ListNode>)
    ensures multiset(MergeSort(ns)) == multiset(ns)
    decreases |ns|
  {
    if |ns| > 1 {
      var h := Half(|ns|);
      var left, right := ns[..h], ns[h..];
      assert MergeSort(ns) == Merge(MergeSort(left), MergeSort(right));
      MergeSortPermutes(left);
      MergeSortPermutes(right);
      MergePermutes(MergeSort(left), MergeSort(right));
      NodesSplit(ns, h);
    }
  }

  /** The values of the merge sort are sorted. */
  lemma {:induction false} MergeSortSorted(ns: seq<ListNode>)
    ensures Sorted(Values(MergeSort(ns)))
    decreases |ns|
  {
    if |ns| > 1 {
      var h := Half(|ns|);
      MergeSortSorted(ns[..h]);
      MergeSortSorted(ns[h..]);
      MergeSorted(MergeSort(ns[..h]), MergeSort(ns[h..]));
    }
  }

  /** The merge sort keeps the values, each as often as before. */
  lemma {:induction false} MergeSortValues(ns: seq<ListNode>)
    ensures multiset(Values(MergeSort(ns))) == multiset(Values(ns))
    decreases |ns|
  {
    if |ns| > 1 {
      var h := Half(|ns|);
      var left, right := ns[..h], ns[h..];
      assert MergeSort(ns) == Merge(MergeSort(left), MergeSort(right));
      MergeSortValues(left);
      MergeSortValues(right);
      MergeValues(MergeSort(left), MergeSort(right));
      ValuesSplit(ns, h);
    }
  }

  lemma ValuesCons(n: ListNode, ns: seq<ListNode>)
    ensures Values([n] + ns) == [n.val] + Values(ns)
  {
    assert ([n] + ns)[1..] == ns;
  }

  /** The values of a list are those of its first `h` nodes and those of the rest. */
  lemma ValuesSplit(ns: seq<ListNode>, h: nat)
    requires h <= |ns|
    ensures multiset(Values(ns)) == multiset(Values(ns[..h])) + multiset(Values(ns[h..]))
  {
    assert ns == ns[..h] + ns[h..];
    ValuesAppend(ns[..h], ns[h..]);
  }

  /** A node is in the merge sort of `ns` exactly when it is in `ns`. */
  lemma MergeSortNodes(ns: seq<ListNode>)
    ensures forall n :: n in MergeSort(ns) ==> n in ns
    ensures forall n :: n in ns ==> n in MergeSort(ns)
  {
    MergeSortPermutes(ns);
    forall n | n in ns ensures n in MergeSort(ns) {
      assert n in multiset(ns);
    }
    forall n | n in MergeSort(ns) ensures n in ns {
      assert n in multiset(MergeSort(ns));
    }
  }

  /** `sort_list(head)`: lists of fewer than two nodes are returned as they
      are; longer ones are cut after the middle node, both halves are
      sorted, and the sorted halves are merged, which puts the nodes in
      the order `MergeSort` gives. */
  method SortList(head: ListNode?, ghost ns: seq<ListNode>) returns (r: ListNode?, ghost ms: seq<ListNode>)
    requires IsList(head, ns)
    modifies Elems(ns)
    ensures ms == MergeSort(ns) && IsList(r, ms)
    ensures |ns| <= 1 ==> r == head
    decreases |ns|, 2
  {
    if head == null || head.next == null {
      LinkedFirst(ns);
      return head, ns;
    }
    var slow, k := Middle(head, ns);
    var mid := Cut(slow, ns, k);
    assert k + 1 == Half(|ns|);
    r, ms := SortHalves(head, mid, ns, k + 1);
  }

  /** The recursive part of `sort_list`, once the list `ns` is cut into
      its first `m` nodes, headed by `head`, and the rest, headed by `mid`:
      sorts the first half, then hands over to `SortSecond`. */
  method SortHalves(head: ListNode?, mid: ListNode?, ghost ns: seq<ListNode>, ghost m: nat)
    returns (r: ListNode?, ghost ms: seq<ListNode>)
    requires 0 < m < |ns| && Unique(ns) && IsList(head, ns[..m]) && IsList(mid, ns[m..])
    modifies Elems(ns)
    ensures ms == Merge(MergeSort(ns[..m]), MergeSort(ns[m..])) && IsList(r, ms)
    decreases |ns|, 1
  {
    ghost var left, right := ns[..m], ns[m..];
    SplitApart(ns, m);
    assert forall n :: n in right ==> allocated(n);
    label Before:
    var l, lms := SortList(head, left);
    assert forall n :: n in right ==> n.next == old@Before(n.next);
    r, ms := SortSecond(l, lms, mid, ns, m);
  }

  /** The rest of `sort_list`, with the first half already sorted into the
      list `lms` headed by `l`: sorts the second half and merges the two. */
  method SortSecond(l: ListNode?, ghost lms: seq<ListNode>, mid: ListNode?, ghost ns: seq<ListNode>, ghost m: nat)
    returns (r: ListNode?, ghost ms: seq<ListNode>)
    requires 0 < m < |ns| && Unique(ns) && IsList(mid, ns[m..])
    requires IsList(l, lms) && lms == MergeSort(ns[..m])
    modifies Elems(ns)
    ensures ms == Merge(lms, MergeSort(ns[m..])) && IsList(r, ms)
    decreases |ns|, 0
  {
    ghost var left, right := ns[..m], ns[m..];
    SplitApart(ns, m);
    MergeSortNodes(left);
    assert forall n :: n in lms ==> allocated(n) && n !in right;
    label Before:
    var rr, rms := SortList(mid, right);
    assert forall n :: n in lms ==> n.next == old@Before(n.next);
    MergeSortNodes(right);
    assert forall n :: n in lms ==> n in ns;
    assert forall n :: n in rms ==> n !in lms && n in ns;
    assert Elems(lms) !! Elems(rms);
    r, ms := MergeTwoSorted(l, lms, rr, rms);
  }

  /** In a linked sequence of two or more nodes the first links to the second. */
  lemma LinkedFirst(ns: seq<ListNode>)
    requires Linked(ns)
    ensures |ns| >= 2 ==> ns[0].next == ns[1]
  {
  }

  /** The two parts of a list cut at `m` have no node in common. */
  lemma SplitApart(ns: seq<ListNode>, m: nat)
    requires Unique(ns) && m <= |ns|
    ensures forall n :: n in ns[m..] ==> n !in ns[..m]
    ensures forall n :: n in ns[..m] ==> n !in ns[m..]
  {
    UniqueDistinct(ns);
  }

  //////////////////////////////////////////////////////////////////////
  // the examples of the program
  //////////////////////////////////////////////////////////////////////

  /** `Merge` on the values alone: which node goes first depends only on
      the values at the heads. */
  function MergeInts(a: seq<int>, b: seq<int>): seq<int>
    decreases |a| + |b|
  {
    if a == [] then b
    else if b == [] then a
    else if a[0] <= b[0] then [a[0]] + MergeInts(a[1..], b)
    else [b[0]] + MergeInts(a, b[1..])
  }

  /** The values of a merge are the merge of the values. */
  lemma {:induction false} ValuesMerge(xs: seq<ListNode>, ys: seq<ListNode>)
    ensures Values(Merge(xs, ys)) == MergeInts(Values(xs), Values(ys))
    decreases |xs| + |ys|
  {
    if xs != [] && ys != [] {
      assert Values(xs)[1..] == Values(xs[1..]) && Values(ys)[1..] == Values(ys[1..]);
      if xs[0].val <= ys[0].val {
        ValuesMerge(xs[1..], ys);
        ValuesCons(xs[0], Merge(xs[1..], ys));
      } else {
        ValuesMerge(xs, ys[1..]);
        ValuesCons(ys[0], Merge(xs, ys[1..]));
      }
    }
  }

  /** The first example: the list `[1, 2, 3, 4, 5]` reads back as it was
      built, and reversed reads `[5, 4, 3, 2, 1]`. */
  method ReverseExample() returns (before: seq<int>, after: seq<int>)
    ensures before == [1, 2, 3, 4, 5] && after == [5, 4, 3, 2, 1]
  {
    var head, ns := BuildList([1, 2, 3, 4, 5]);
    before := ListToPy(head, ns);
    var rev := ReverseList(head, ns);
    after := ListToPy(rev, Reverse(ns));
    ValuesReverse(ns);
  }

  /** The second example, with the random values as a parameter: the
      list built from them reads back sorted, with the same values. */
  method SortExample(values: seq<int>) returns (before: seq<int>, after: seq<int>)
    ensures before == values
    ensures Sorted(after) && multiset(after) == multiset(values)
  {
    var head, ns := BuildList(values);
    before := ListToPy(head, ns);
    var sorted, ms := SortList(head, ns);
    after := ListToPy(sorted, ms);
    MergeSortSorted(ns);
    MergeSortValues(ns);
  }

  /** The third example: merging `[1, 4, 6, 8]` and `[2, 3, 5, 7, 9]`
      reads `[1, 2, ..., 9]`. */
  method MergeExample() returns (out: seq<int>)
    ensures out == [1, 2, 3, 4, 5, 6, 7, 8, 9]
  {
    var a, xs := BuildList([1, 4, 6, 8]);
    var b, ys := BuildList([2, 3, 5, 7, 9]);
    var m, zs := MergeTwoSorted(a, xs, b, ys);
    out := ListToPy(m, zs);
    ValuesMerge(xs, ys);
    MergeInts9();
  }

  lemma MergeInts9()
    ensures MergeInts([1, 4, 6, 8], [2, 3, 5, 7, 9]) == [1, 2, 3, 4, 5, 6, 7, 8, 9]
  {
    MergeIntsStep([8], [9], [9]);
    MergeIntsStep([8], [7, 9], [8, 9]);
    MergeIntsStep([6, 8], [7, 9], [7, 8, 9]);
    MergeIntsStep([6, 8], [5, 7, 9], [6, 7, 8, 9]);
    MergeIntsStep([4, 6, 8], [5, 7, 9], [5, 6, 7, 8, 9]);
    MergeIntsStep([4, 6, 8], [3, 5, 7, 9], [4, 5, 6, 7, 8, 9]);
    MergeIntsStep([4, 6, 8], [2, 3, 5, 7, 9], [3, 4, 5, 6, 7, 8, 9]);
    MergeIntsStep([1, 4, 6, 8], [2, 3, 5, 7, 9], [2, 3, 4, 5, 6, 7, 8, 9]);
  }

  /** One unfolding of `MergeInts` on non-empty sequences, given the merge
      of what is left. */
  lemma MergeIntsStep(a: seq<int>, b: seq<int>, rest: seq<int>)
    requires a != [] && b != []
    requires rest == if a[0] <= b[0] then MergeInts(a[1..], b) else MergeInts(a, b[1..])
    ensures MergeInts(a, b) == (if a[0] <= b[0] then [a[0]] else [b[0]]) + rest
  {
  }
}
