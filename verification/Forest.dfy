/** The contents of the heap while the tree is being built, as a multiset of trees,
    and the merge loop as a relation that leaves every tie open. */
module Forests {
  import opened Trees

  type Forest = multiset<Tree>

  /** `t` may be what `pop` returns: no tree of the forest has a smaller frequency. */
  ghost predicate Least(t: Tree, f: Forest) {
    t in f && forall u :: u in f ==> t.frequency <= u.frequency
  }

  /** The new root put over the two trees taken out. */
  function Join(l: Tree, r: Tree): Tree {
    Node(l.frequency + r.frequency, l, r)
  }

  /** One round of the merge loop: two pops and a push. */
  ghost predicate MergeStep(f: Forest, g: Forest) {
    exists l, r :: MergeOf(f, l, r, g)
  }

  ghost predicate MergeOf(f: Forest, l: Tree, r: Tree, g: Forest) {
    && Least(l, f)
    && Least(r, f - multiset{l})
    && g == f - multiset{l} - multiset{r} + multiset{Join(l, r)}
  }

  /** Some run of the merge loop takes the forest `f` to the single tree `t`. */
  ghost predicate Merges(f: Forest, t: Tree)
    decreases |f|
  {
    || f == multiset{t}
    || (|f| >= 2 && exists g :: MergeStep(f, g) && |g| < |f| && Merges(g, t))
  }

  /** The leaves of a tree, as one-node trees. */
  function Leaves(t: Tree): Forest {
    match t
    case Leaf(_, _) => multiset{t}
    case Node(_, l, r) => Leaves(l) + Leaves(r)
  }

  /** What the merge loop is measured by, added up over a forest. */
  datatype Totals = Totals(roots: multiset<nat>, leaves: Forest, weights: multiset<nat>,
                           letters: multiset<char>, cost: nat, weight: nat)
  {
    function Add(that: Totals): Totals {
      Totals(roots + that.roots, leaves + that.leaves, weights + that.weights,
             letters + that.letters, cost + that.cost, weight + that.weight)
    }
  }

  function TotalsOfTree(t: Tree): Totals {
    Totals(multiset{t.frequency}, Leaves(t), Weights(t), multiset(Letters(t)), Cost(t), Weight(t))
  }

  ghost function TotalsOf(f: Forest): Totals
    decreases |f|
  {
    if f == multiset{} then Totals(multiset{}, multiset{}, multiset{}, multiset{}, 0, 0)
    else var t :| t in f; TotalsOfTree(t).Add(TotalsOf(f - multiset{t}))
  }

  lemma AddSwap(a: Totals, b: Totals, c: Totals)
    ensures a.Add(b.Add(c)) == b.Add(a.Add(c))
  {
    var x, y := a.Add(b.Add(c)), b.Add(a.Add(c));
    assert x.roots == y.roots;
    assert x.leaves == y.leaves;
    assert x.weights == y.weights;
    assert x.letters == y.letters;
  }

  /** The totals do not depend on the order in which the trees are added. */
  lemma {:induction false} TotalsTakeOut(f: Forest, t: Tree)
    requires t in f
    ensures TotalsOf(f) == TotalsOfTree(t).Add(TotalsOf(f - multiset{t}))
    decreases |f|
  {
    var u :| u in f && TotalsOf(f) == TotalsOfTree(u).Add(TotalsOf(f - multiset{u}));
    if u != t {
      assert f - multiset{u} - multiset{t} == f - multiset{t} - multiset{u};
      TotalsTakeOut(f - multiset{u}, t);
      TotalsTakeOut(f - multiset{t}, u);
      AddSwap(TotalsOfTree(u), TotalsOfTree(t), TotalsOf(f - multiset{u} - multiset{t}));
    }
  }

  lemma TotalsPutIn(f: Forest, t: Tree)
    ensures TotalsOf(f + multiset{t}) == TotalsOfTree(t).Add(TotalsOf(f))
  {
    PutInTakeOut(f, t);
    TotalsTakeOut(f + multiset{t}, t);
  }

  lemma PutInTakeOut<T>(m: multiset<T>, x: T)
    ensures m + multiset{x} - multiset{x} == m && x in m + multiset{x}
  {
  }

  lemma TotalsOfOne(t: Tree)
    ensures TotalsOf(multiset{t}) == TotalsOfTree(t)
  {
    TotalsTakeOut(multiset{t}, t);
    assert multiset{t} - multiset{t} == multiset{};
    AddNothing(TotalsOfTree(t));
  }

  lemma AddNothing(a: Totals)
    ensures a.Add(TotalsOf(multiset{})) == a
  {
    assert a.roots + multiset{} == a.roots;
    assert a.leaves + multiset{} == a.leaves;
    assert a.weights + multiset{} == a.weights;
    assert a.letters + multiset{} == a.letters;
  }

  /** Every root carries the sum of its leaves, at all levels. */
  ghost predicate AllWeighed(f: Forest) {
    forall t :: t in f ==> Weighed(t)
  }

  lemma Regroup<T>(a: multiset<T>, b: multiset<T>, c: multiset<T>)
    ensures a + (b + c) == (a + b) + c
  {
  }

  /** What a merge of roots `x` and `y` into a root `z` does to the totals; `others` are the roots
      it leaves alone. */
  ghost predicate TotalsAfterMerge(a: Totals, x: nat, y: nat, z: nat, others: multiset<nat>, b: Totals) {
    && z == x + y
    && b.leaves == a.leaves && b.weights == a.weights && b.letters == a.letters && b.weight == a.weight
    && b.cost == a.cost + z
    && a.roots == multiset{x} + (multiset{y} + others)
    && b.roots == multiset{z} + others
  }

  function TotalsOfThree(l: Tree, r: Tree, rest: Totals): Totals {
    TotalsOfTree(l).Add(TotalsOfTree(r).Add(rest))
  }

  lemma JoinLeaves(l: Tree, r: Tree, rest: Totals)
    ensures TotalsOfTree(Join(l, r)).Add(rest).leaves == TotalsOfThree(l, r, rest).leaves
  {
    Regroup(Leaves(l), Leaves(r), rest.leaves);
  }

  lemma JoinWeights(l: Tree, r: Tree, rest: Totals)
    ensures TotalsOfTree(Join(l, r)).Add(rest).weights == TotalsOfThree(l, r, rest).weights
  {
    Regroup(Weights(l), Weights(r), rest.weights);
  }

  lemma JoinLetters(l: Tree, r: Tree, rest: Totals)
    ensures TotalsOfTree(Join(l, r)).Add(rest).letters == TotalsOfThree(l, r, rest).letters
  {
    Regroup(multiset(Letters(l)), multiset(Letters(r)), rest.letters);
  }

  lemma JoinCost(l: Tree, r: Tree, rest: Totals)
    requires Weighed(l) && Weighed(r)
    ensures var (a, b) := (TotalsOfThree(l, r, rest), TotalsOfTree(Join(l, r)).Add(rest));
            b.weight == a.weight && b.cost == a.cost + l.frequency + r.frequency
  {
  }

  lemma JoinTotals(l: Tree, r: Tree, rest: Totals)
    requires Weighed(l) && Weighed(r)
    ensures TotalsAfterMerge(TotalsOfThree(l, r, rest), l.frequency, r.frequency, Join(l, r).frequency, rest.roots,
                             TotalsOfTree(Join(l, r)).Add(rest))
  {
    JoinLeaves(l, r, rest);
    JoinWeights(l, r, rest);
    JoinLetters(l, r, rest);
    JoinCost(l, r, rest);
  }

  lemma TotalsTakeOutTwo(f: Forest, l: Tree, r: Tree)
    requires l in f && r in f - multiset{l}
    ensures TotalsOf(f) == TotalsOfThree(l, r, TotalsOf(f - multiset{l} - multiset{r}))
  {
    TotalsTakeOut(f, l);
    TotalsTakeOut(f - multiset{l}, r);
  }

  /** One round keeps the leaves and the total frequency, shortens the forest by one, and
      charges the frequencies of the two trees to the cost. */
  lemma MergeKeeps(f: Forest, l: Tree, r: Tree, g: Forest)
    requires MergeOf(f, l, r, g) && AllWeighed(f)
    ensures |g| == |f| - 1 && AllWeighed(g)
    ensures TotalsAfterMerge(TotalsOf(f), l.frequency, r.frequency, Join(l, r).frequency,
                             TotalsOf(f - multiset{l} - multiset{r}).roots, TotalsOf(g))
  {
    var rest := f - multiset{l} - multiset{r};
    assert |g| == |f| - 1 && AllWeighed(g) && Weighed(l) && Weighed(r) by {
      assert r in f;
      forall t | t in g ensures Weighed(t) {
        assert t in rest ==> t in f;
      }
    }
    TotalsTakeOutTwo(f, l, r);
    TotalsPutIn(rest, Join(l, r));
    JoinTotals(l, r, TotalsOf(rest));
  }

  /** What no round of the merge loop changes. */
  ghost predicate Conserved(f: Forest, g: Forest) {
    && AllWeighed(g) && TotalsOf(g).leaves == TotalsOf(f).leaves && TotalsOf(g).weights == TotalsOf(f).weights
    && TotalsOf(g).letters == TotalsOf(f).letters && TotalsOf(g).weight == TotalsOf(f).weight
  }

  /** The frequency of the tree that a round puts together. */
  ghost function Merged(f: Forest, g: Forest): nat
    requires MergeStep(f, g)
  {
    var l, r :| MergeOf(f, l, r, g);
    Join(l, r).frequency
  }

  lemma RoundConserves(f: Forest, g: Forest)
    requires MergeStep(f, g) && AllWeighed(f)
    ensures Conserved(f, g) && |g| + 1 == |f|
    ensures TotalsOf(g).cost == TotalsOf(f).cost + Merged(f, g)
  {
    var l, r :| MergeOf(f, l, r, g) && Merged(f, g) == Join(l, r).frequency;
    MergeKeeps(f, l, r, g);
  }

  lemma RoundSize(f: Forest, g: Forest)
    requires MergeStep(f, g)
    ensures |g| + 1 == |f|
  {
    var l, r :| MergeOf(f, l, r, g);
    assert r in f - multiset{l};
  }

  /** The forests of a run, one after each round. */
  ghost predicate IsRun(run: seq<Forest>) {
    run != [] && forall i :: 0 < i < |run| ==> MergeStep(run[i - 1], run[i])
  }

  /** The frequencies put together in the first `n` rounds. */
  ghost function MergedIn(run: seq<Forest>, n: nat): nat
    requires IsRun(run) && n < |run|
  {
    if n == 0 then 0 else MergedIn(run, n - 1) + Merged(run[n - 1], run[n])
  }

  /** At every point of every run: leaves, letters and the total frequency are those of the start, the roots
      carry the sums of their leaves, every round has taken one tree away, and the cost has grown by the
      frequencies that were put together. */
  lemma {:induction false} RunConserves(run: seq<Forest>, n: nat)
    requires IsRun(run) && AllWeighed(run[0]) && n < |run|
    ensures Conserved(run[0], run[n]) && |run[n]| + n == |run[0]|
    ensures TotalsOf(run[n]).cost == TotalsOf(run[0]).cost + MergedIn(run, n)
  {
    if n > 0 {
      RunConserves(run, n - 1);
      RoundConserves(run[n - 1], run[n]);
    }
  }

  lemma NextRound(f: Forest, t: Tree) returns (g: Forest)
    requires Merges(f, t) && f != multiset{t}
    ensures MergeStep(f, g) && Merges(g, t) && |g| + 1 == |f|
  {
    g :| MergeStep(f, g) && |g| < |f| && Merges(g, t);
    RoundSize(f, g);
  }

  lemma ShortestRun(t: Tree) returns (run: seq<Forest>)
    ensures IsRun(run) && run == [multiset{t}] && |multiset{t}| == 1
  {
    run := [multiset{t}];
  }

  /** The tree a run ends with is reached after one round less than there are trees at the start. */
  lemma {:induction false} RunToEnd(f: Forest, t: Tree) returns (run: seq<Forest>)
    requires Merges(f, t)
    ensures IsRun(run) && run[0] == f && run[|run| - 1] == multiset{t} && |run| == |f|
    decreases |f|
  {
    if f == multiset{t} {
      run := ShortestRun(t);
    } else {
      var g := NextRound(f, t);
      var rest := RunToEnd(g, t);
      run := LongerRun(f, rest);
    }
  }

  lemma LongerRun(f: Forest, rest: seq<Forest>) returns (run: seq<Forest>)
    requires IsRun(rest) && MergeStep(f, rest[0])
    ensures IsRun(run) && run[0] == f && |run| == |rest| + 1 && run[|run| - 1] == rest[|rest| - 1]
  {
    run := [f] + rest;
    forall i | 0 < i < |run| ensures MergeStep(run[i - 1], run[i]) {
      if i > 1 { assert run[i - 1] == rest[i - 2] && run[i] == rest[i - 1]; }
    }
  }

  /** A whole run keeps them as well. */
  lemma {:induction false} MergesKeep(f: Forest, t: Tree)
    requires Merges(f, t) && AllWeighed(f)
    ensures Weighed(t)
    ensures Leaves(t) == TotalsOf(f).leaves && Weights(t) == TotalsOf(f).weights
    ensures multiset(Letters(t)) == TotalsOf(f).letters && Weight(t) == TotalsOf(f).weight
    decreases |f|
  {
    if f == multiset{t} {
      TotalsOfOne(t);
      assert t in f;
    } else {
      var g :| MergeStep(f, g) && |g| < |f| && Merges(g, t);
      var l, r :| MergeOf(f, l, r, g);
      MergeKeeps(f, l, r, g);
      MergesKeep(g, t);
    }
  }

  /** The one-node trees the heap starts with. */
  function LeafTrees(data: string, frequencies: seq<nat>): (s: seq<Tree>)
    requires |data| == |frequencies|
    ensures |s| == |data|
  {
    seq(|data|, i requires 0 <= i < |data| => Leaf(data[i], frequencies[i]))
  }

  lemma LeafTreesMember(data: string, frequencies: seq<nat>, leaf: Tree)
    requires |data| == |frequencies| && leaf in multiset(LeafTrees(data, frequencies))
    ensures exists i :: 0 <= i < |data| && leaf == Leaf(data[i], frequencies[i])
  {
    var s := LeafTrees(data, frequencies);
    assert leaf in s;
    var i :| 0 <= i < |s| && s[i] == leaf;
    assert s[i] == Leaf(data[i], frequencies[i]);
  }

  /** The totals of a forest of leaves. */
  ghost predicate LeafForest(data: string, frequencies: seq<nat>, f: Forest) {
    && AllWeighed(f)
    && TotalsOf(f).roots == TotalsOf(f).weights == multiset(frequencies)
    && TotalsOf(f).leaves == f
    && TotalsOf(f).letters == multiset(data)
    && TotalsOf(f).cost == 0
  }

  lemma LeafTotals1(leaf: Tree)
    requires leaf.Leaf?
    ensures TotalsOfTree(leaf)
         == Totals(multiset{leaf.frequency}, multiset{leaf}, multiset{leaf.frequency}, multiset{leaf.letter}, 0,
             leaf.frequency)
  {
    assert multiset([leaf.letter]) == multiset{leaf.letter};
  }

  lemma OneMoreItem<T>(s: seq<T>, x: T)
    ensures multiset(s + [x]) == multiset(s) + multiset{x}
  {
  }

  lemma Commute<T>(a: multiset<T>, b: multiset<T>)
    ensures a + b == b + a
  {
  }

  lemma LeafForestGrows(data: string, frequencies: seq<nat>, f: Forest, c: char, w: nat)
    requires LeafForest(data, frequencies, f)
    ensures LeafForest(data + [c], frequencies + [w], f + multiset{Leaf(c, w)})
  {
    var leaf := Leaf(c, w);
    TotalsPutIn(f, leaf);
    LeafTotals1(leaf);
    OneMoreItem(data, c);
    OneMoreItem(frequencies, w);
    Commute(multiset{leaf}, f);
    Commute(multiset{w}, multiset(frequencies));
    Commute(multiset{c}, multiset(data));
    assert AllWeighed(f + multiset{leaf});
  }

  lemma LeafTreesGrow(data: string, frequencies: seq<nat>, c: char, w: nat)
    requires |data| == |frequencies|
    ensures multiset(LeafTrees(data + [c], frequencies + [w]))
            == multiset(LeafTrees(data, frequencies)) + multiset{Leaf(c, w)}
  {
    assert LeafTrees(data + [c], frequencies + [w]) == LeafTrees(data, frequencies) + [Leaf(c, w)];
  }

  lemma {:induction false} LeafTotals(data: string, frequencies: seq<nat>)
    requires |data| == |frequencies|
    ensures LeafForest(data, frequencies, multiset(LeafTrees(data, frequencies)))
  {
    var n := |data|;
    if n == 0 {
      assert multiset(LeafTrees(data, frequencies)) == multiset{};
    } else {
      var ds, fs, c, w := data[..n - 1], frequencies[..n - 1], data[n - 1], frequencies[n - 1];
      assert data == ds + [c] && frequencies == fs + [w];
      LeafTotals(ds, fs);
      LeafForestGrows(ds, fs, multiset(LeafTrees(ds, fs)), c, w);
      LeafTreesGrow(ds, fs, c, w);
    }
  }

  /** `t` is a tree that the program may build for these letters and frequencies. */
  ghost predicate HuffmanTree(data: string, frequencies: seq<nat>, t: Tree) {
    |data| == |frequencies| && Merges(multiset(LeafTrees(data, frequencies)), t)
  }

  /** The leaves of the tree are the input, and the frequencies add up at every inner node. */
  lemma HuffmanTreeLeaves(data: string, frequencies: seq<nat>, t: Tree)
    requires HuffmanTree(data, frequencies, t)
    ensures Leaves(t) == multiset(LeafTrees(data, frequencies)) && Weighed(t)
    ensures Weights(t) == multiset(frequencies) && multiset(Letters(t)) == multiset(data)
  {
    LeafTotals(data, frequencies);
    MergesKeep(multiset(LeafTrees(data, frequencies)), t);
  }

  /** Over a whole run from a forest without inner nodes the cost is what has been put together. */
  lemma RunCost(data: string, frequencies: seq<nat>, f: Forest, t: Tree, run: seq<Forest>)
    requires LeafForest(data, frequencies, f) && IsRun(run) && run[0] == f && run[|run| - 1] == multiset{t}
    ensures Cost(t) == MergedIn(run, |run| - 1)
  {
    RunConserves(run, |run| - 1);
    TotalsOfOne(t);
  }

  /** The weighted path length of the tree is the sum of all frequencies that were put together. */
  lemma CostIsMerged(data: string, frequencies: seq<nat>, t: Tree) returns (run: seq<Forest>)
    requires HuffmanTree(data, frequencies, t)
    ensures IsRun(run) && run[0] == multiset(LeafTrees(data, frequencies)) && run[|run| - 1] == multiset{t}
    ensures Cost(t) == MergedIn(run, |run| - 1)
  {
    run := RunToEnd(multiset(LeafTrees(data, frequencies)), t);
    LeafTotals(data, frequencies);
    RunCost(data, frequencies, multiset(LeafTrees(data, frequencies)), t, run);
  }
}
