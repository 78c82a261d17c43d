/**
  Budgeted food selection: a greedy choice by calories per cost, and the
  0/1 knapsack table with its reconstruction.

  The table of foods, a dictionary from names to costs and calories, is a
  sequence of `Item`s in the dictionary's order, with no name twice. The
  selections the two algorithms return are dictionaries from names to
  counts; `Dict` keeps their keys in insertion order, as Python does.
*/
module Knapsack {
  import opened Seqs

  datatype Item = Item(name: string, cost: int, calories: int)

  //////////////////////////////////////////////////////////////////////
  // items and sums
  //////////////////////////////////////////////////////////////////////

  function Names(s: seq<Item>): (ns: seq<string>)
    ensures |ns| == |s| && forall i :: 0 <= i < |s| ==> ns[i] == s[i].name
  {
    if s == [] then [] else [s[0].name] + Names(s[1..])
  }

  function SumCost(s: seq<Item>): int {
    if s == [] then 0 else s[0].cost + SumCost(s[1..])
  }

  function SumCal(s: seq<Item>): int {
    if s == [] then 0 else s[0].calories + SumCal(s[1..])
  }

  lemma {:induction false} SumAppend(a: seq<Item>, b: seq<Item>)
    ensures SumCost(a + b) == SumCost(a) + SumCost(b)
    ensures SumCal(a + b) == SumCal(a) + SumCal(b)
  {
    if a != [] {
      assert (a + b)[0] == a[0] && (a + b)[1..] == a[1..] + b;
      SumAppend(a[1..], b);
    } else {
      assert a + b == b;
    }
  }

  /** With no negative cost, a selection never costs less than nothing. */
  lemma {:induction false} SumCostNonNegative(s: seq<Item>)
    requires forall it :: it in s ==> it.cost >= 0
    ensures SumCost(s) >= 0
  {
    if s != [] {
      assert s[0] in s;
      SumCostNonNegative(s[1..]);
    }
  }

  //////////////////////////////////////////////////////////////////////
  // dictionaries from names to counts
  //////////////////////////////////////////////////////////////////////

  /** A dictionary: its keys in insertion order, and its entries. */
  datatype Dict = Dict(keys: seq<string>, entries: map<string, int>)

  /** What every dictionary satisfies: each key once, and the keys are
      exactly those of the entries. */
  ghost predicate DictOk(d: Dict) {
    Distinct(d.keys) && forall k :: k in d.keys <==> k in d.entries
  }

  /** `d.get(k, default)` */
  function Get(d: Dict, k: string, default: int): int {
    if k in d.entries then d.entries[k] else default
  }

  /** `d[k] = v`: a new key goes at the end of the order, an old one stays
      where it was. */
  function Put(d: Dict, k: string, v: int): Dict {
    Dict(if k in d.entries then d.keys else d.keys + [k], d.entries[k := v])
  }

  /** Storing keeps a dictionary well-formed; afterwards `k` maps to `v`
      and every other key keeps its entry. */
  lemma PutOk(d: Dict, k: string, v: int)
    requires DictOk(d)
    ensures DictOk(Put(d, k, v))
    ensures k in Put(d, k, v).entries && Put(d, k, v).entries[k] == v
    ensures forall j :: j != k ==> (j in Put(d, k, v).entries <==> j in d.entries)
    ensures forall j :: j != k && j in d.entries ==> Put(d, k, v).entries[j] == d.entries[j]
  {
    if k !in d.entries {
      DistinctAppend(d.keys, k);
    }
  }

  /** `selection[name] = selection.get(name, 0) + 1`, once for each item of
      `s` in order. */
  function Tally(s: seq<Item>): Dict {
    if s == [] then Dict([], map[])
    else
      var d := Tally(s[..|s| - 1]);
      Put(d, s[|s| - 1].name, Get(d, s[|s| - 1].name, 0) + 1)
  }

  /** A tally is a well-formed dictionary. */
  lemma {:induction false} TallyOk(s: seq<Item>)
    ensures DictOk(Tally(s))
  {
    if s != [] {
      var init, x := s[..|s| - 1], s[|s| - 1];
      TallyOk(init);
      var d := Tally(init);
      PutOk(d, x.name, Get(d, x.name, 0) + 1);
      assert Tally(s) == Put(d, x.name, Get(d, x.name, 0) + 1);
    }
  }

  /** No name occurs twice, as in the keys of a dictionary. */
  predicate UniqueNames(s: seq<Item>) {
    forall i, j :: 0 <= i < j < |s| ==> s[i].name != s[j].name
  }

  /** An item of `s` whose name is that of its first item is that item. */
  lemma UniqueNamesFirst(s: seq<Item>, y: Item)
    requires UniqueNames(s) && s != [] && y in s[1..]
    ensures y.name != s[0].name && UniqueNames(s[1..])
  {
    var j :| 0 <= j < |s[1..]| && s[1..][j] == y;
    assert s[j + 1] == y;
    assert forall i, k :: 0 <= i < k < |s| - 1 ==> s[1..][i] == s[i + 1] && s[1..][k] == s[k + 1];
  }

  /** When no name occurs twice in `s`, every count is 1 and the keys are
      the names of `s` in order. */
  lemma {:induction false} TallyDistinct(s: seq<Item>)
    requires UniqueNames(s)
    ensures Tally(s).keys == Names(s)
    ensures forall k :: k in Tally(s).entries ==> Tally(s).entries[k] == 1
  {
    if s != [] {
      var init, x := s[..|s| - 1], s[|s| - 1];
      assert Names(s) == Names(init) + [x.name];
      assert UniqueNames(init) by {
        assert forall i :: 0 <= i < |init| ==> init[i] == s[i];
      }
      assert x.name !in Names(init) by {
        forall k | 0 <= k < |init| ensures Names(init)[k] != x.name {
          assert init[k] == s[k];
        }
      }
      TallyDistinct(init);
      TallyOk(init);
      var d := Tally(init);
      assert x.name !in d.entries;
      assert Tally(s) == Dict(d.keys + [x.name], d.entries[x.name := 1]);
    }
  }

  //////////////////////////////////////////////////////////////////////
  // sorted(items.items(), key=calories/cost, reverse=True)
  //////////////////////////////////////////////////////////////////////

  predicate PositiveCosts(s: seq<Item>) {
    forall it :: it in s ==> it.cost > 0
  }

  /** The ratio of `a` is at least that of `b`: `a.calories / a.cost >=
      b.calories / b.cost`, compared by cross-multiplication. */
  predicate RatioAtLeast(a: Item, b: Item) {
    a.calories * b.cost >= b.calories * a.cost
  }

  predicate SameRatio(a: Item, b: Item) {
    RatioAtLeast(a, b) && RatioAtLeast(b, a)
  }

  lemma MulMono(x: int, y: int, k: int)
    requires k > 0
    ensures x <= y <==> x * k <= y * k
  {
    if x <= y {
      assert y * k - x * k == (y - x) * k;
    } else {
      assert x * k - y * k == (x - y) * k;
    }
  }

  /** With positive costs, comparing ratios is transitive. */
  lemma RatioTrans(a: Item, b: Item, c: Item)
    requires a.cost > 0 && b.cost > 0 && c.cost > 0
    requires RatioAtLeast(a, b) && RatioAtLeast(b, c)
    ensures RatioAtLeast(a, c)
  {
    MulMono(b.calories * a.cost, a.calories * b.cost, c.cost);
    MulMono(c.calories * b.cost, b.calories * c.cost, a.cost);
    assert b.calories * a.cost * c.cost == b.calories * c.cost * a.cost;
    assert (c.calories * a.cost) * b.cost == c.calories * b.cost * a.cost;
    assert (a.calories * c.cost) * b.cost == a.calories * b.cost * c.cost;
    MulMono(c.calories * a.cost, a.calories * c.cost, b.cost);
  }

  /** With positive costs, a strictly larger ratio than one of the same
      ratio as `c` is strictly larger than that of `c`. */
  lemma RatioAboveSame(a: Item, b: Item, c: Item)
    requires a.cost > 0 && b.cost > 0 && c.cost > 0
    requires !RatioAtLeast(b, a) && SameRatio(b, c)
    ensures !RatioAtLeast(c, a)
  {
    if RatioAtLeast(c, a) {
      RatioTrans(b, c, a);
    }
  }

  /** Puts `x` in front of the first item whose ratio is at most its own. */
  function Insert(x: Item, s: seq<Item>): seq<Item> {
    if s == [] || RatioAtLeast(x, s[0]) then [x] + s
    else [s[0]] + Insert(x, s[1..])
  }

  lemma {:induction false} InsertPermutes(x: Item, s: seq<Item>)
    ensures multiset(Insert(x, s)) == multiset(s) + multiset{x}
  {
    if s != [] && !RatioAtLeast(x, s[0]) {
      assert s == [s[0]] + s[1..];
      InsertPermutes(x, s[1..]);
    }
  }

  /** The stable sort by non-increasing ratio: each item goes in front of
      the items after it in `s` that have no larger ratio. */
  function SortByRatio(s: seq<Item>): seq<Item> {
    if s == [] then [] else Insert(s[0], SortByRatio(s[1..]))
  }

  /** The sort rearranges the items and nothing more. */
  lemma {:induction false} SortByRatioPermutes(s: seq<Item>)
    ensures multiset(SortByRatio(s)) == multiset(s)
  {
    if s != [] {
      assert s == [s[0]] + s[1..];
      SortByRatioPermutes(s[1..]);
      InsertPermutes(s[0], SortByRatio(s[1..]));
    }
  }

  /** Inserting an item whose name is new keeps the names unique. */
  lemma {:induction false} InsertUnique(x: Item, s: seq<Item>)
    requires UniqueNames(s) && forall y :: y in s ==> y.name != x.name
    ensures UniqueNames(Insert(x, s))
  {
    if s != [] && !RatioAtLeast(x, s[0]) {
      var t := s[1..];
      if |s| > 1 {
        UniqueNamesFirst(s, s[1]);
      } else {
        assert t == [];
      }
      assert forall y :: y in t ==> y in s;
      InsertUnique(x, t);
      InsertPermutes(x, t);
      forall y | y in Insert(x, t) ensures y.name != s[0].name {
        assert y in multiset(Insert(x, t));
        if y != x {
          UniqueNamesFirst(s, y);
        }
      }
      UniqueCons(s[0], Insert(x, t));
    } else {
      UniqueCons(x, s);
    }
  }

  /** The sort keeps the names unique: the dictionary's items stay
      distinctly named after `sorted`. */
  lemma {:induction false} SortByRatioUnique(s: seq<Item>)
    requires UniqueNames(s)
    ensures UniqueNames(SortByRatio(s))
  {
    if s != [] {
      var t := s[1..];
      if |s| > 1 {
        UniqueNamesFirst(s, s[1]);
      } else {
        assert t == [];
      }
      SortByRatioUnique(t);
      SortByRatioPermutes(t);
      forall y | y in SortByRatio(t) ensures y.name != s[0].name {
        assert y in multiset(SortByRatio(t));
        UniqueNamesFirst(s, y);
      }
      InsertUnique(s[0], SortByRatio(t));
    }
  }

  /** Positive costs survive any rearrangement. */
  lemma PositiveCostsPerm(s: seq<Item>, t: seq<Item>)
    requires PositiveCosts(s) && multiset(t) == multiset(s)
    ensures PositiveCosts(t)
  {
    forall it | it in t ensures it.cost > 0 {
      assert it in multiset(t);
      assert it in s;
    }
  }

  /** Non-increasing ratios. */
  predicate ByRatio(s: seq<Item>) {
    forall i, j :: 0 <= i < j < |s| ==> RatioAtLeast(s[i], s[j])
  }

  /** An item whose ratio is at least that of every item of an ordered
      sequence can go in front of it. */
  lemma ConsByRatio(y: Item, t: seq<Item>)
    requires ByRatio(t) && forall j :: 0 <= j < |t| ==> RatioAtLeast(y, t[j])
    ensures ByRatio([y] + t)
  {
    var r := [y] + t;
    forall i, j | 0 <= i < j < |r| ensures RatioAtLeast(r[i], r[j]) {
      assert r[j] == t[j - 1];
      if i > 0 {
        assert r[i] == t[i - 1];
      }
    }
  }

  lemma ByRatioTail(s: seq<Item>)
    requires s != [] && ByRatio(s)
    ensures ByRatio(s[1..])
  {
    forall i, j | 0 <= i < j < |s| - 1 ensures RatioAtLeast(s[1..][i], s[1..][j]) {
      assert s[1..][i] == s[i + 1] && s[1..][j] == s[j + 1];
    }
  }

  lemma {:induction false} InsertByRatio(x: Item, s: seq<Item>)
    requires x.cost > 0 && PositiveCosts(s) && ByRatio(s)
    ensures ByRatio(Insert(x, s))
  {
    if s == [] {
    } else if RatioAtLeast(x, s[0]) {
      forall j | 0 <= j < |s| ensures RatioAtLeast(x, s[j]) {
        if j > 0 {
          assert s[0] in s && s[j] in s;
          RatioTrans(x, s[0], s[j]);
        }
      }
      ConsByRatio(x, s);
    } else {
      var t := Insert(x, s[1..]);
      ByRatioTail(s);
      assert forall it :: it in s[1..] ==> it in s;
      InsertByRatio(x, s[1..]);
      InsertPermutes(x, s[1..]);
      forall j | 0 <= j < |t| ensures RatioAtLeast(s[0], t[j]) {
        assert t[j] in multiset(s[1..]) + multiset{x};
        if t[j] != x {
          var k :| 0 <= k < |s[1..]| && s[1..][k] == t[j];
          assert s[k + 1] == t[j];
        }
      }
      ConsByRatio(s[0], t);
    }
  }

  /** The sort puts the items in non-increasing order of ratio. */
  lemma {:induction false} SortByRatioOrdered(s: seq<Item>)
    requires PositiveCosts(s)
    ensures ByRatio(SortByRatio(s))
  {
    if s != [] {
      assert s[0] in s;
      SortByRatioOrdered(s[1..]);
      SortByRatioPermutes(s[1..]);
      PositiveCostsPerm(s[1..], SortByRatio(s[1..]));
      InsertByRatio(s[0], SortByRatio(s[1..]));
    }
  }

  /** The items of `s` with the same ratio as `x`, in their order in `s`. */
  function Tied(s: seq<Item>, x: Item): (r: seq<Item>)
    ensures |r| <= |s|
  {
    if s == [] then []
    else if SameRatio(s[0], x) then [s[0]] + Tied(s[1..], x)
    else Tied(s[1..], x)
  }

  lemma {:induction false} InsertTied(y: Item, s: seq<Item>, x: Item)
    requires y.cost > 0 && x.cost > 0 && PositiveCosts(s)
    ensures Tied(Insert(y, s), x) == if SameRatio(y, x) then [y] + Tied(s, x) else Tied(s, x)
  {
    if s == [] || RatioAtLeast(y, s[0]) {
      assert ([y] + s)[1..] == s;
    } else {
      assert s[0] in s;
      InsertTied(y, s[1..], x);
      var r := Insert(y, s);
      assert r[1..] == Insert(y, s[1..]);
      if SameRatio(y, x) {
        RatioAboveSame(s[0], y, x);
      }
    }
  }

  /** The sort is stable: the items of any one ratio keep their order. */
  lemma {:induction false} SortByRatioStable(s: seq<Item>, x: Item)
    requires PositiveCosts(s) && x.cost > 0
    ensures Tied(SortByRatio(s), x) == Tied(s, x)
  {
    if s != [] {
      assert s[0] in s;
      SortByRatioStable(s[1..], x);
      SortByRatioPermutes(s[1..]);
      PositiveCostsPerm(s[1..], SortByRatio(s[1..]));
      InsertTied(s[0], SortByRatio(s[1..]), x);
    }
  }

  //////////////////////////////////////////////////////////////////////
  // greedy_algorithm
  //////////////////////////////////////////////////////////////////////

  /** The items the greedy loop takes from `s` when `spent` is already
      spent: each one that still fits is taken, each one that does not is
      skipped, and the loop goes on either way. */
  function Greedy(s: seq<Item>, budget: int, spent: int): seq<Item> {
    if s == [] then []
    else if spent + s[0].cost <= budget then [s[0]] + Greedy(s[1..], budget, spent + s[0].cost)
    else Greedy(s[1..], budget, spent)
  }

  /** Starting within the budget, the greedy choice stays within it. */
  lemma {:induction false} GreedyWithinBudget(s: seq<Item>, budget: int, spent: int)
    requires spent <= budget
    ensures spent + SumCost(Greedy(s, budget, spent)) <= budget
  {
    if s != [] {
      if spent + s[0].cost <= budget {
        GreedyWithinBudget(s[1..], budget, spent + s[0].cost);
      } else {
        GreedyWithinBudget(s[1..], budget, spent);
      }
    }
  }

  /** With positive costs and a negative budget nothing is taken. */
  lemma {:induction false} GreedyNegativeBudget(s: seq<Item>, budget: int)
    requires PositiveCosts(s) && budget < 0
    ensures Greedy(s, budget, 0) == []
  {
    if s != [] {
      assert s[0] in s;
      assert forall it :: it in s[1..] ==> it in s;
      GreedyNegativeBudget(s[1..], budget);
    }
  }

  /** The greedy choice takes items of `s`, each at most as often as it
      occurs there. */
  lemma {:induction false} GreedySubsequence(s: seq<Item>, budget: int, spent: int)
    ensures multiset(Greedy(s, budget, spent)) <= multiset(s)
  {
    if s != [] {
      assert s == [s[0]] + s[1..];
      GreedySubsequence(s[1..], budget, spent + s[0].cost);
      GreedySubsequence(s[1..], budget, spent);
    }
  }

  /** Skipping is final: with no negative cost, every item of `s` the
      greedy choice leaves out would overrun the budget even on top of the
      items it took. */
  lemma {:induction false} GreedyMaximal(s: seq<Item>, budget: int, spent: int)
    requires forall it :: it in s ==> it.cost >= 0
    ensures forall x :: x in s && x !in Greedy(s, budget, spent) ==>
              spent + SumCost(Greedy(s, budget, spent)) + x.cost > budget
  {
    if s != [] {
      var t := s[1..];
      assert forall it :: it in t ==> it in s;
      var g := Greedy(s, budget, spent);
      if spent + s[0].cost <= budget {
        GreedyMaximal(t, budget, spent + s[0].cost);
        assert g == [s[0]] + Greedy(t, budget, spent + s[0].cost);
        forall x | x in s && x !in g ensures spent + SumCost(g) + x.cost > budget {
          assert x in t;
        }
      } else {
        GreedyMaximal(t, budget, spent);
        SumCostNonNegative(Greedy(t, budget, spent)) by {
          GreedySubsequence(t, budget, spent);
          forall it | it in Greedy(t, budget, spent) ensures it.cost >= 0 {
            assert it in multiset(t);
          }
        }
        assert s[0] in s;
      }
    }
  }

  /** When no name occurs twice in `s`, the greedy selection counts every
      name it takes once, and lists them in the order they were taken. */
  lemma GreedyCountsOne(s: seq<Item>, budget: int, spent: int)
    requires UniqueNames(s)
    ensures Tally(Greedy(s, budget, spent)).keys == Names(Greedy(s, budget, spent))
    ensures forall k :: k in Tally(Greedy(s, budget, spent)).entries ==>
              Tally(Greedy(s, budget, spent)).entries[k] == 1
  {
    GreedyUnique(s, budget, spent);
    TallyDistinct(Greedy(s, budget, spent));
  }

  lemma {:induction false} GreedyUnique(s: seq<Item>, budget: int, spent: int)
    requires UniqueNames(s)
    ensures UniqueNames(Greedy(s, budget, spent))
    ensures forall x :: x in Greedy(s, budget, spent) ==> x in s
  {
    if s != [] {
      var t := s[1..];
      assert forall y :: y in t ==> y in s;
      if s == [s[0]] {
        assert t == [];
      } else {
        UniqueNamesFirst(s, s[1]);
      }
      if spent + s[0].cost <= budget {
        var h := Greedy(t, budget, spent + s[0].cost);
        GreedyUnique(t, budget, spent + s[0].cost);
        forall y | y in h ensures y.name != s[0].name {
          UniqueNamesFirst(s, y);
        }
        UniqueCons(s[0], h);
      } else {
        GreedyUnique(t, budget, spent);
      }
    }
  }

  /** Putting an item of a new name in front keeps the names unique. */
  lemma UniqueCons(x: Item, s: seq<Item>)
    requires UniqueNames(s) && forall y :: y in s ==> y.name != x.name
    ensures UniqueNames([x] + s)
  {
    var r := [x] + s;
    forall i, j | 0 <= i < j < |r| ensures r[i].name != r[j].name {
      assert r[j] == s[j - 1];
      if i > 0 {
        assert r[i] == s[i - 1];
      }
    }
  }

  /** One step of the greedy loop. */
  lemma GreedyCons(x: Item, t: seq<Item>, budget: int, spent: int)
    ensures Greedy([x] + t, budget, spent)
         == if spent + x.cost <= budget then [x] + Greedy(t, budget, spent + x.cost)
            else Greedy(t, budget, spent)
  {
    assert ([x] + t)[0] == x && ([x] + t)[1..] == t;
  }

  /** One step of the greedy loop, after the items `picks`. */
  lemma GreedyStep(picks: seq<Item>, s: seq<Item>, k: nat, budget: int, spent: int)
    requires k < |s|
    ensures picks + Greedy(s[k..], budget, spent)
         == if spent + s[k].cost <= budget
            then (picks + [s[k]]) + Greedy(s[k + 1..], budget, spent + s[k].cost)
            else picks + Greedy(s[k + 1..], budget, spent)
  {
    assert s[k..] == [s[k]] + s[k + 1..];
    GreedyCons(s[k], s[k + 1..], budget, spent);
    if spent + s[k].cost <= budget {
      var rest := Greedy(s[k + 1..], budget, spent + s[k].cost);
      assert picks + ([s[k]] + rest) == (picks + [s[k]]) + rest;
    }
  }

  /** One more item counted. */
  lemma TallyAppend(s: seq<Item>, x: Item)
    ensures Tally(s + [x]) == Put(Tally(s), x.name, Get(Tally(s), x.name, 0) + 1)
  {
    assert (s + [x])[..|s|] == s;
  }

  /** One more item taken: counted, and added to both sums. */
  lemma TakeOne(s: seq<Item>, x: Item, selection: Dict, cost: int, cal: int)
    requires selection == Tally(s) && cost == SumCost(s) && cal == SumCal(s)
    ensures Put(selection, x.name, Get(selection, x.name, 0) + 1) == Tally(s + [x])
    ensures cost + x.cost == SumCost(s + [x]) && cal + x.calories == SumCal(s + [x])
  {
    TallyAppend(s, x);
    SumAppend(s, [x]);
  }

  /** The loop of `greedy_algorithm` over the sorted items `sorted`. */
  method GreedyLoop(sorted: seq<Item>, budget: int)
      returns (selection: Dict, totalCost: int, totalCal: int, ghost picks: seq<Item>)
    ensures picks == Greedy(sorted, budget, 0)
    ensures selection == Tally(picks)
    ensures totalCost == SumCost(picks) && totalCal == SumCal(picks)
  {
    selection, totalCost, totalCal, picks := Dict([], map[]), 0, 0, [];
    for k := 0 to |sorted|
      invariant picks + Greedy(sorted[k..], budget, totalCost) == Greedy(sorted, budget, 0)
      invariant selection == Tally(picks)
      invariant totalCost == SumCost(picks) && totalCal == SumCal(picks)
    {
      var it := sorted[k];
      GreedyStep(picks, sorted, k, budget, totalCost);
      if totalCost + it.cost <= budget {
        TakeOne(picks, it, selection, totalCost, totalCal);
        selection := Put(selection, it.name, Get(selection, it.name, 0) + 1);
        totalCost := totalCost + it.cost;
        totalCal := totalCal + it.calories;
        picks := picks + [it];
      }
    }
    assert sorted[|sorted|..] == [];
  }

  /** `greedy_algorithm(items, budget)`: sorts the items by non-increasing
      calories per cost and takes each one that still fits. `picks` are the
      items taken, in order. */
  method GreedyAlgorithm(items: seq<Item>, budget: int)
      returns (selection: Dict, totalCost: int, totalCal: int, ghost picks: seq<Item>)
    requires PositiveCosts(items)
    ensures picks == Greedy(SortByRatio(items), budget, 0)
    ensures selection == Tally(picks)
    ensures totalCost == SumCost(picks) && totalCal == SumCal(picks)
    ensures budget >= 0 ==> totalCost <= budget
    ensures multiset(picks) <= multiset(items)
    // the items of a dictionary have distinct names, so each is counted once
    ensures UniqueNames(items) ==>
              selection.keys == Names(picks) && forall k :: k in selection.entries ==> selection.entries[k] == 1
  {
    var sorted := SortByRatio(items);
    selection, totalCost, totalCal, picks := GreedyLoop(sorted, budget);
    if budget >= 0 {
      GreedyWithinBudget(sorted, budget, 0);
    }
    GreedySubsequence(sorted, budget, 0);
    SortByRatioPermutes(items);
    if UniqueNames(items) {
      SortByRatioUnique(items);
      GreedyCountsOne(sorted, budget, 0);
    }
  }

  //////////////////////////////////////////////////////////////////////
  // dynamic_programming
  //////////////////////////////////////////////////////////////////////

  predicate NonNegativeCosts(s: seq<Item>) {
    forall it :: it in s ==> it.cost >= 0
  }

  /** `dp[i][w]`: the most calories the table records for the first `i`
      items and the budget `w`, by the recurrence the fill loop follows. */
  function Best(items: seq<Item>, i: nat, w: int): int
    requires i <= |items|
    decreases i, 1
  {
    if i == 0 then 0
    else if Take(items, i, w) then Best(items, i - 1, w - items[i - 1].cost) + items[i - 1].calories
    else Best(items, i - 1, w)
  }

  /** `keep[i][w] == 1`: item `i-1` fits in `w`, and taking it gives
      strictly more calories than leaving it. */
  predicate Take(items: seq<Item>, i: nat, w: int)
    requires 1 <= i <= |items|
    decreases i, 0
  {
    items[i - 1].cost <= w
    && Best(items, i - 1, w - items[i - 1].cost) + items[i - 1].calories > Best(items, i - 1, w)
  }

  /** The items the walk back from `keep[i][w]` picks, in the order it
      picks them (last item first). */
  function Recon(items: seq<Item>, i: nat, w: int): seq<Item>
    requires i <= |items|
  {
    if i == 0 then []
    else if Take(items, i, w) then [items[i - 1]] + Recon(items, i - 1, w - items[i - 1].cost)
    else Recon(items, i - 1, w)
  }

  lemma PrefixSnoc(items: seq<Item>, i: nat)
    requires 1 <= i <= |items|
    ensures items[..i] == items[..i - 1] + [items[i - 1]]
    ensures multiset(items[..i]) == multiset(items[..i - 1]) + multiset{items[i - 1]}
  {
    assert items[..i] == items[..i - 1] + [items[i - 1]];
  }

  /** The walk back picks each of the first `i` items at most once, stays
      within `w`, and its calories are exactly `dp[i][w]`. */
  lemma {:induction false} ReconFeasible(items: seq<Item>, i: nat, w: int)
    requires i <= |items| && w >= 0
    ensures multiset(Recon(items, i, w)) <= multiset(items[..i])
    ensures SumCost(Recon(items, i, w)) <= w
    ensures SumCal(Recon(items, i, w)) == Best(items, i, w)
  {
    if i > 0 {
      PrefixSnoc(items, i);
      var x := items[i - 1];
      if Take(items, i, w) {
        ReconFeasible(items, i - 1, w - x.cost);
        var r := Recon(items, i - 1, w - x.cost);
        assert Recon(items, i, w) == [x] + r;
        assert multiset([x] + r) == multiset(r) + multiset{x};
      } else {
        ReconFeasible(items, i - 1, w);
      }
    }
  }

  /** When no name occurs twice among the items, none occurs twice among
      the picks, and every pick is one of the first `i` items. */
  lemma {:induction false} ReconNames(items: seq<Item>, i: nat, w: int)
    requires i <= |items| && UniqueNames(items)
    ensures UniqueNames(Recon(items, i, w))
    ensures forall x :: x in Recon(items, i, w) ==> x in items[..i]
  {
    if i > 0 {
      var x := items[i - 1];
      var next := if Take(items, i, w) then w - x.cost else w;
      ReconNames(items, i - 1, next);
      var r := Recon(items, i - 1, next);
      forall y | y in r ensures y in items[..i] && y.name != x.name {
        var j :| 0 <= j < i - 1 && items[..i - 1][j] == y;
        assert items[j] == y;
      }
      if Take(items, i, w) {
        UniqueCons(x, r);
      }
    }
  }

  /** The sums of `s` are those of `s` without its `k`-th item, plus it. */
  lemma SumRemove(s: seq<Item>, k: nat)
    requires k < |s|
    ensures SumCost(s) == SumCost(s[..k] + s[k + 1..]) + s[k].cost
    ensures SumCal(s) == SumCal(s[..k] + s[k + 1..]) + s[k].calories
  {
    assert s == s[..k] + ([s[k]] + s[k + 1..]);
    SumAppend(s[..k], [s[k]] + s[k + 1..]);
    SumAppend(s[..k], s[k + 1..]);
    assert ([s[k]] + s[k + 1..])[1..] == s[k + 1..];
  }

  /** Taking out one occurrence of `x` from a choice among `pre` and `x`
      leaves a choice among `pre`. */
  lemma RemoveOne(sel: seq<Item>, k: nat, pre: seq<Item>)
    requires k < |sel| && multiset(sel) <= multiset(pre) + multiset{sel[k]}
    ensures multiset(sel[..k] + sel[k + 1..]) <= multiset(pre)
  {
    assert sel == sel[..k] + [sel[k]] + sel[k + 1..];
    var rest := sel[..k] + sel[k + 1..];
    assert multiset(sel) == multiset(rest) + multiset{sel[k]};
    forall y ensures multiset(rest)[y] <= multiset(pre)[y] {
      assert multiset(sel)[y] <= (multiset(pre) + multiset{sel[k]})[y];
    }
  }

  /** A choice among `pre` and `x` without `x` is a choice among `pre`. */
  lemma WithoutOne(sel: seq<Item>, x: Item, pre: seq<Item>)
    requires x !in sel && multiset(sel) <= multiset(pre) + multiset{x}
    ensures multiset(sel) <= multiset(pre)
  {
    forall y ensures multiset(sel)[y] <= multiset(pre)[y] {
      if y == x {
        assert multiset(sel)[y] == 0;
      }
    }
  }

  /** `dp[i][w]` is the most calories any choice of the first `i` items,
      each taken at most once, can get for a cost of at most `w`. */
  lemma {:induction false} BestIsMax(items: seq<Item>, i: nat, w: int, sel: seq<Item>)
    requires i <= |items| && NonNegativeCosts(items)
    requires multiset(sel) <= multiset(items[..i]) && SumCost(sel) <= w
    ensures SumCal(sel) <= Best(items, i, w)
  {
    if i == 0 {
      assert |multiset(sel)| == 0;
    } else {
      PrefixSnoc(items, i);
      var x := items[i - 1];
      if x in sel {
        var k :| 0 <= k < |sel| && sel[k] == x;
        var rest := sel[..k] + sel[k + 1..];
        RemoveOne(sel, k, items[..i - 1]);
        SumRemove(sel, k);
        PrefixCostsNonNegative(items, i - 1, rest);
        BestIsMax(items, i - 1, w - x.cost, rest);
        BestAtLeastTake(items, i, w);
        assert SumCal(sel) == SumCal(rest) + x.calories <= Best(items, i - 1, w - x.cost) + x.calories;
      } else {
        WithoutOne(sel, x, items[..i - 1]);
        BestIsMax(items, i - 1, w, sel);
        BestAtLeastSkip(items, i, w);
        assert SumCal(sel) <= Best(items, i - 1, w);
      }
    }
  }

  /** A row never records less than taking its item when it fits. */
  lemma BestAtLeastTake(items: seq<Item>, i: nat, w: int)
    requires 1 <= i <= |items| && items[i - 1].cost <= w
    ensures Best(items, i, w) >= Best(items, i - 1, w - items[i - 1].cost) + items[i - 1].calories
  {
  }

  /** A row never records less than the row above it. */
  lemma BestAtLeastSkip(items: seq<Item>, i: nat, w: int)
    requires 1 <= i <= |items|
    ensures Best(items, i, w) >= Best(items, i - 1, w)
  {
  }

  lemma PrefixCostsNonNegative(items: seq<Item>, i: nat, sel: seq<Item>)
    requires i <= |items| && NonNegativeCosts(items)
    requires forall it :: it in sel ==> it in multiset(items[..i])
    ensures SumCost(sel) >= 0
  {
    forall it | it in sel ensures it.cost >= 0 {
      assert it in items[..i];
    }
    SumCostNonNegative(sel);
  }

  /** The table never does worse than the greedy choice. */
  lemma DpAtLeastGreedy(items: seq<Item>, budget: int)
    requires PositiveCosts(items) && budget >= 0
    ensures SumCal(Greedy(SortByRatio(items), budget, 0)) <= Best(items, |items|, budget)
  {
    var g := Greedy(SortByRatio(items), budget, 0);
    GreedySubsequence(SortByRatio(items), budget, 0);
    SortByRatioPermutes(items);
    GreedyWithinBudget(SortByRatio(items), budget, 0);
    assert items[..|items|] == items;
    BestIsMax(items, |items|, budget, g);
  }

  /** `items[name]['cost']` for a name of the table. */
  function CostOf(items: seq<Item>, name: string): int
    requires name in Names(items)
  {
    if items[0].name == name then items[0].cost else CostOf(items[1..], name)
  }

  /** `sum(items[name]['cost'] * cnt for name, cnt in selection.items())`
      over the keys `keys` of the selection. */
  function SelectionCost(items: seq<Item>, keys: seq<string>, counts: map<string, int>): int
    requires forall k :: k in keys ==> k in Names(items) && k in counts
  {
    if keys == [] then 0
    else CostOf(items, keys[0]) * counts[keys[0]] + SelectionCost(items, keys[1..], counts)
  }

  /** When no name occurs twice among the items, looking up the name of one
      of them finds its cost. */
  lemma {:induction false} CostOfItem(items: seq<Item>, x: Item)
    requires UniqueNames(items) && x in items
    ensures x.name in Names(items) && CostOf(items, x.name) == x.cost
  {
    if items[0] != x {
      assert x in items[1..];
      UniqueNamesFirst(items, x);
      CostOfItem(items[1..], x);
    }
  }

  /** Costing a selection of distinct items, each counted once, by their
      names gives their total cost. */
  lemma {:induction false} SelectionCostOnes(items: seq<Item>, picks: seq<Item>, counts: map<string, int>)
    requires UniqueNames(items) && forall x :: x in picks ==> x in items
    requires forall x :: x in picks ==> x.name in counts && counts[x.name] == 1
    ensures forall k :: k in Names(picks) ==> k in Names(items) && k in counts
    ensures SelectionCost(items, Names(picks), counts) == SumCost(picks)
  {
    forall k | k in Names(picks) ensures k in Names(items) && k in counts {
      var j :| 0 <= j < |picks| && Names(picks)[j] == k;
      assert picks[j] in picks;
      CostOfItem(items, picks[j]);
    }
    if picks != [] {
      assert picks[0] in picks;
      CostOfItem(items, picks[0]);
      assert forall x :: x in picks[1..] ==> x in picks;
      SelectionCostOnes(items, picks[1..], counts);
    }
  }

  /** The inner loop of the fill: row `i` of `dp` and `keep` from row
      `i - 1` of `dp`. */
  method FillRow(items: seq<Item>, dp: array2<int>, keep: array2<int>, i: nat, budget: nat)
    requires 1 <= i <= |items| && NonNegativeCosts(items) && dp != keep
    requires dp.Length0 == keep.Length0 == |items| + 1
    requires dp.Length1 == keep.Length1 == budget + 1
    requires forall r, v :: 0 <= r < i && 0 <= v <= budget ==> dp[r, v] == Best(items, r, v)
    requires forall v :: 0 <= v <= budget ==> keep[i, v] == 0
    modifies dp, keep
    ensures forall v :: 0 <= v <= budget ==>
              dp[i, v] == Best(items, i, v) && keep[i, v] == if Take(items, i, v) then 1 else 0
    ensures forall r, v :: 0 <= r <= |items| && r != i && 0 <= v <= budget ==>
              dp[r, v] == old(dp[r, v]) && keep[r, v] == old(keep[r, v])
  {
    var ci, vi := items[i - 1].cost, items[i - 1].calories;
    assert items[i - 1] in items;
    for w := 0 to budget + 1
      invariant forall v :: 0 <= v < w ==>
                  dp[i, v] == Best(items, i, v) && keep[i, v] == if Take(items, i, v) then 1 else 0
      invariant forall v :: w <= v <= budget ==> keep[i, v] == 0
      invariant forall r, v :: 0 <= r <= |items| && r != i && 0 <= v <= budget ==>
                  dp[r, v] == old(dp[r, v]) && keep[r, v] == old(keep[r, v])
    {
      dp[i, w] := dp[i - 1, w];
      if ci <= w {
        var val := dp[i - 1, w - ci] + vi;
        if val > dp[i, w] {
          dp[i, w] := val;
          keep[i, w] := 1;
        }
      }
    }
  }

  /** The fill: `dp[i][w]` is `Best(items, i, w)` and `keep[i][w]` is 1
      exactly when `Take(items, i, w)`. */
  method FillTables(items: seq<Item>, budget: nat) returns (dp: array2<int>, keep: array2<int>)
    requires NonNegativeCosts(items)
    ensures fresh(dp) && fresh(keep)
    ensures dp.Length0 == keep.Length0 == |items| + 1
    ensures dp.Length1 == keep.Length1 == budget + 1
    ensures forall r, v :: 0 <= r <= |items| && 0 <= v <= budget ==> dp[r, v] == Best(items, r, v)
    ensures forall r, v :: 1 <= r <= |items| && 0 <= v <= budget ==>
              keep[r, v] == if Take(items, r, v) then 1 else 0
  {
    var n := |items|;
    dp := new int[n + 1, budget + 1]((_, _) => 0);
    keep := new int[n + 1, budget + 1]((_, _) => 0);
    for i := 1 to n + 1
      invariant forall r, v :: 0 <= r < i && 0 <= v <= budget ==> dp[r, v] == Best(items, r, v)
      invariant forall r, v :: 1 <= r < i && 0 <= v <= budget ==>
                  keep[r, v] == if Take(items, r, v) then 1 else 0
      invariant forall r, v :: i <= r <= n && 0 <= v <= budget ==> keep[r, v] == 0
    {
      FillRow(items, dp, keep, i, budget);
    }
  }

  /** One step of the walk back, after the items `picks`. */
  lemma ReconWalk(items: seq<Item>, picks: seq<Item>, i: nat, w: int)
    requires 1 <= i <= |items|
    ensures picks + Recon(items, i, w)
         == if Take(items, i, w) then (picks + [items[i - 1]]) + Recon(items, i - 1, w - items[i - 1].cost)
            else picks + Recon(items, i - 1, w)
  {
    if Take(items, i, w) {
      var rest := Recon(items, i - 1, w - items[i - 1].cost);
      assert picks + ([items[i - 1]] + rest) == (picks + [items[i - 1]]) + rest;
    }
  }

  /** The walk back from `keep[n][budget]`, counting each item it keeps. */
  method WalkBack(items: seq<Item>, keep: array2<int>, budget: nat)
      returns (selection: Dict, ghost picks: seq<Item>)
    requires NonNegativeCosts(items)
    requires keep.Length0 == |items| + 1 && keep.Length1 == budget + 1
    requires forall r, v :: 1 <= r <= |items| && 0 <= v <= budget ==>
               keep[r, v] == if Take(items, r, v) then 1 else 0
    ensures picks == Recon(items, |items|, budget) && selection == Tally(picks)
  {
    var w := budget;
    var i := |items|;
    selection, picks := Dict([], map[]), [];
    while i > 0
      invariant 0 <= i <= |items| && 0 <= w <= budget
      invariant picks + Recon(items, i, w) == Recon(items, |items|, budget)
      invariant selection == Tally(picks)
    {
      ReconWalk(items, picks, i, w);
      if keep[i, w] != 0 {
        var it := items[i - 1];
        assert it in items;
        TallyAppend(picks, it);
        selection := Put(selection, it.name, Get(selection, it.name, 0) + 1);
        picks := picks + [it];
        w := w - it.cost;
      }
      i := i - 1;
    }
    assert picks + [] == picks;
  }

  /** `dynamic_programming(items, budget)`: fills the `dp` and `keep`
      tables, walks back from `keep[n][budget]`, and prices the selection
      by the names it holds. */
  method DynamicProgramming(items: seq<Item>, budget: int)
      returns (selection: Dict, totalCost: int, totalCal: int, ghost picks: seq<Item>)
    requires budget >= 0 && NonNegativeCosts(items) && UniqueNames(items)
    ensures picks == Recon(items, |items|, budget)
    ensures selection == Tally(picks)
    ensures selection.keys == Names(picks) && forall k :: k in selection.entries ==> selection.entries[k] == 1
    ensures totalCal == Best(items, |items|, budget) == SumCal(picks)
    ensures totalCost == SumCost(picks) <= budget
    ensures multiset(picks) <= multiset(items)
  {
    var n := |items|;
    var dp, keep := FillTables(items, budget);
    selection, picks := WalkBack(items, keep, budget);
    totalCal := dp[n, budget];
    ReconFeasible(items, n, budget);
    ReconNames(items, n, budget);
    assert items[..n] == items;
    TallyDistinct(picks);
    TallyOk(picks);
    forall x | x in picks ensures x.name in Names(picks) {
      var j :| 0 <= j < |picks| && picks[j] == x;
      assert Names(picks)[j] == x.name;
    }
    SelectionCostOnes(items, picks, selection.entries);
    totalCost := SelectionCost(items, selection.keys, selection.entries);
  }

  //////////////////////////////////////////////////////////////////////
  // the ITEMS table and a budget of 100
  //////////////////////////////////////////////////////////////////////

  const ITEMS: seq<Item> := [
    Item("pizza", 50, 300),
    Item("hamburger", 40, 250),
    Item("hot-dog", 30, 200),
    Item("pepsi", 10, 100),
    Item("cola", 15, 220),
    Item("potato", 25, 350)
  ]

  /** The costs and calories of `ITEMS`, without the names. */
  predicate FoodTable(items: seq<Item>) {
    |items| == 6
    && items[0].cost == 50 && items[0].calories == 300
    && items[1].cost == 40 && items[1].calories == 250
    && items[2].cost == 30 && items[2].calories == 200
    && items[3].cost == 10 && items[3].calories == 100
    && items[4].cost == 15 && items[4].calories == 220
    && items[5].cost == 25 && items[5].calories == 350
  }

  lemma BestRow1(items: seq<Item>)
    requires FoodTable(items)
    ensures Best(items, 1, 5) == 0 && Best(items, 1, 10) == 0 && Best(items, 1, 15) == 0
    ensures Best(items, 1, 20) == 0 && Best(items, 1, 25) == 0 && Best(items, 1, 30) == 0
    ensures Best(items, 1, 35) == 0 && Best(items, 1, 45) == 0 && Best(items, 1, 50) == 300
    ensures Best(items, 1, 55) == 300 && Best(items, 1, 60) == 300 && Best(items, 1, 65) == 300
    ensures Best(items, 1, 70) == 300 && Best(items, 1, 75) == 300 && Best(items, 1, 85) == 300
    ensures Best(items, 1, 90) == 300 && Best(items, 1, 100) == 300
  {
  }

  lemma BestRow2(items: seq<Item>)
    requires FoodTable(items)
    ensures Best(items, 2, 20) == 0 && Best(items, 2, 30) == 0 && Best(items, 2, 35) == 0
    ensures Best(items, 2, 45) == 250 && Best(items, 2, 50) == 300 && Best(items, 2, 55) == 300
    ensures Best(items, 2, 60) == 300 && Best(items, 2, 65) == 300 && Best(items, 2, 70) == 300
    ensures Best(items, 2, 75) == 300 && Best(items, 2, 85) == 300 && Best(items, 2, 90) == 550
    ensures Best(items, 2, 100) == 550
  {
    BestRow1(items);
  }

  lemma BestRow3(items: seq<Item>)
    requires FoodTable(items)
    ensures Best(items, 3, 50) == 300 && Best(items, 3, 60) == 300 && Best(items, 3, 65) == 300
    ensures Best(items, 3, 75) == 450 && Best(items, 3, 85) == 500 && Best(items, 3, 90) == 550
    ensures Best(items, 3, 100) == 550
  {
    BestRow2(items);
  }

  lemma BestRow4(items: seq<Item>)
    requires FoodTable(items)
    ensures Best(items, 4, 60) == 400 && Best(items, 4, 75) == 450 && Best(items, 4, 85) == 550
    ensures Best(items, 4, 100) == 650
  {
    BestRow3(items);
  }

  lemma BestRow5(items: seq<Item>)
    requires FoodTable(items)
    ensures Best(items, 5, 75) == 620 && Best(items, 5, 100) == 770
  {
    BestRow4(items);
  }

  lemma InsertHere(x: Item, s: seq<Item>)
    requires s == [] || RatioAtLeast(x, s[0])
    ensures Insert(x, s) == [x] + s
  {
  }

  lemma InsertPast(x: Item, y: Item, t: seq<Item>)
    requires !RatioAtLeast(x, y)
    ensures Insert(x, [y] + t) == [y] + Insert(x, t)
  {
    assert ([y] + t)[0] == y && ([y] + t)[1..] == t;
  }

  lemma SortSuffix(s: seq<Item>, k: nat)
    requires k < |s|
    ensures SortByRatio(s[k..]) == Insert(s[k], SortByRatio(s[k + 1..]))
  {
    assert s[k..][0] == s[k] && s[k..][1..] == s[k + 1..];
  }

  /** The sort puts cola, potato, pepsi, hot-dog, hamburger, pizza. */
  lemma SortItems(items: seq<Item>)
    requires FoodTable(items)
    ensures SortByRatio(items) == [items[4], items[5], items[3], items[2], items[1], items[0]]
  {
    var pizza, hamburger, hotDog, pepsi, cola, potato := items[0], items[1], items[2], items[3], items[4], items[5];
    assert items[6..] == [];
    SortSuffix(items, 5);
    InsertHere(potato, []);
    assert SortByRatio(items[5..]) == [potato];
    SortSuffix(items, 4);
    InsertHere(cola, [potato]);
    assert SortByRatio(items[4..]) == [cola] + [potato];
    SortSuffix(items, 3);
    InsertHere(pepsi, []);
    InsertPast(pepsi, potato, []);
    InsertPast(pepsi, cola, [potato]);
    ghost var s3 := [cola] + ([potato] + [pepsi]);
    assert SortByRatio(items[3..]) == s3;
    SortSuffix(items, 2);
    InsertHere(hotDog, []);
    InsertPast(hotDog, pepsi, []);
    InsertPast(hotDog, potato, [pepsi]);
    InsertPast(hotDog, cola, [potato] + [pepsi]);
    ghost var s2 := [cola] + ([potato] + ([pepsi] + [hotDog]));
    assert SortByRatio(items[2..]) == s2;
    SortSuffix(items, 1);
    InsertHere(hamburger, []);
    InsertPast(hamburger, hotDog, []);
    InsertPast(hamburger, pepsi, [hotDog]);
    InsertPast(hamburger, potato, [pepsi] + [hotDog]);
    InsertPast(hamburger, cola, [potato] + ([pepsi] + [hotDog]));
    ghost var s1 := [cola] + ([potato] + ([pepsi] + ([hotDog] + [hamburger])));
    assert SortByRatio(items[1..]) == s1;
    SortSuffix(items, 0);
    InsertHere(pizza, []);
    InsertPast(pizza, hamburger, []);
    InsertPast(pizza, hotDog, [hamburger]);
    InsertPast(pizza, pepsi, [hotDog] + [hamburger]);
    InsertPast(pizza, potato, [pepsi] + ([hotDog] + [hamburger]));
    InsertPast(pizza, cola, [potato] + ([pepsi] + ([hotDog] + [hamburger])));
    assert items[0..] == items;
  }

  /** With 100 to spend the greedy loop takes the first four sorted items
      and skips hamburger and pizza. */
  lemma GreedyItems(items: seq<Item>)
    requires FoodTable(items)
    ensures Greedy(SortByRatio(items), 100, 0) == [items[4], items[5], items[3], items[2]]
  {
    SortItems(items);
    var pizza, hamburger, hotDog, pepsi, cola, potato := items[0], items[1], items[2], items[3], items[4], items[5];
    GreedyCons(pizza, [], 100, 80);
    GreedyCons(hamburger, [pizza], 100, 80);
    GreedyCons(hotDog, [hamburger, pizza], 100, 50);
    GreedyCons(pepsi, [hotDog, hamburger, pizza], 100, 40);
    GreedyCons(potato, [pepsi, hotDog, hamburger, pizza], 100, 15);
    GreedyCons(cola, [potato, pepsi, hotDog, hamburger, pizza], 100, 0);
  }

  /** The table's answer for 100, and the walk back from it. */
  lemma DpItems(items: seq<Item>)
    requires FoodTable(items)
    ensures Best(items, 6, 100) == 970
    ensures Recon(items, 6, 100) == [items[5], items[4], items[3], items[0]]
  {
    BestRow5(items);
    BestRow4(items);
    BestRow3(items);
    BestRow2(items);
    BestRow1(items);
    assert Recon(items, 1, 50) == [items[0]];
    assert Recon(items, 2, 50) == [items[0]];
    assert Recon(items, 3, 50) == [items[0]];
    assert Recon(items, 4, 60) == [items[3], items[0]];
    assert Recon(items, 5, 75) == [items[4], items[3], items[0]];
  }

  /** The entries of `ITEMS`, one by one. */
  lemma ItemsEntries()
    ensures |ITEMS| == 6
    ensures ITEMS[0] == Item("pizza", 50, 300) && ITEMS[1] == Item("hamburger", 40, 250)
    ensures ITEMS[2] == Item("hot-dog", 30, 200) && ITEMS[3] == Item("pepsi", 10, 100)
    ensures ITEMS[4] == Item("cola", 15, 220) && ITEMS[5] == Item("potato", 25, 350)
    ensures FoodTable(ITEMS)
  {
  }

  lemma SumCons(x: Item, t: seq<Item>)
    ensures SumCost([x] + t) == x.cost + SumCost(t) && SumCal([x] + t) == x.calories + SumCal(t)
    ensures Names([x] + t) == [x.name] + Names(t)
  {
    assert ([x] + t)[0] == x && ([x] + t)[1..] == t;
  }

  /** The sums and names of four items. */
  lemma SumFour(a: Item, b: Item, c: Item, d: Item)
    ensures SumCost([a, b, c, d]) == a.cost + b.cost + c.cost + d.cost
    ensures SumCal([a, b, c, d]) == a.calories + b.calories + c.calories + d.calories
    ensures Names([a, b, c, d]) == [a.name, b.name, c.name, d.name]
  {
    SumCons(d, []);
    SumCons(c, [d]);
    SumCons(b, [c, d]);
    SumCons(a, [b, c, d]);
    assert [a] + [b, c, d] == [a, b, c, d] && [b] + [c, d] == [b, c, d] && [c] + [d] == [c, d];
  }

  /** What the greedy selection of `ITEMS` for 100 holds. */
  lemma GreedyItemsTotals(picks: seq<Item>)
    requires picks == Greedy(SortByRatio(ITEMS), 100, 0)
    ensures Names(picks) == ["cola", "potato", "pepsi", "hot-dog"]
    ensures SumCost(picks) == 80 && SumCal(picks) == 870
  {
    ItemsEntries();
    GreedyItems(ITEMS);
    SumFour(ITEMS[4], ITEMS[5], ITEMS[3], ITEMS[2]);
  }

  /** What the walk back over `ITEMS` from 100 holds. */
  lemma DpItemsTotals(picks: seq<Item>)
    requires picks == Recon(ITEMS, |ITEMS|, 100)
    ensures Names(picks) == ["potato", "cola", "pepsi", "pizza"]
    ensures SumCost(picks) == 100 && SumCal(picks) == 970
  {
    ItemsEntries();
    DpItems(ITEMS);
    SumFour(ITEMS[5], ITEMS[4], ITEMS[3], ITEMS[0]);
  }

  /** `PositiveCosts` and `UniqueNames` hold of `ITEMS`. */
  lemma ItemsValid()
    ensures PositiveCosts(ITEMS) && NonNegativeCosts(ITEMS) && UniqueNames(ITEMS)
  {
    ItemsEntries();
    var pizza, hamburger, hotDog, pepsi, cola, potato := ITEMS[0], ITEMS[1], ITEMS[2], ITEMS[3], ITEMS[4], ITEMS[5];
    assert ITEMS == [pizza, hamburger, hotDog, pepsi, cola, potato];
  }

  /** With 100 to spend, the greedy choice takes cola, potato, pepsi and
      hot-dog, for 80 and 870 calories. */
  method GreedyExample() returns (selection: Dict, totalCost: int, totalCal: int)
    ensures selection.keys == ["cola", "potato", "pepsi", "hot-dog"]
    ensures forall k :: k in selection.entries ==> selection.entries[k] == 1
    ensures totalCost == 80 && totalCal == 870
  {
    ItemsValid();
    ghost var picks;
    selection, totalCost, totalCal, picks := GreedyAlgorithm(ITEMS, 100);
    GreedyItemsTotals(picks);
  }

  /** With 100 to spend, the table finds 970 calories for exactly 100: the
      walk back keeps potato, cola, pepsi and pizza. */
  method DynamicProgrammingExample() returns (selection: Dict, totalCost: int, totalCal: int)
    ensures selection.keys == ["potato", "cola", "pepsi", "pizza"]
    ensures forall k :: k in selection.entries ==> selection.entries[k] == 1
    ensures totalCost == 100 && totalCal == 970
  {
    ItemsValid();
    ghost var picks;
    selection, totalCost, totalCal, picks := DynamicProgramming(ITEMS, 100);
    DpItemsTotals(picks);
  }
}
