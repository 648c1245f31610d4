/** The tree built by always merging two least frequent trees has the least weighted path
    length of all binary trees with the same leaf frequencies. */
module Optimality {
  import opened Trees
  import opened Forests

  /** `p` leads from the root to a leaf. */
  predicate LeafPath(t: Tree, p: Bits) {
    if t.Leaf? then p == [] else p != [] && LeafPath(Child(t, p[0]), p[1..])
  }

  function WeightAt(t: Tree, p: Bits): nat
    requires LeafPath(t, p)
  {
    if t.Leaf? then t.frequency else WeightAt(Child(t, p[0]), p[1..])
  }

  /** The tree with the frequency of one leaf changed. */
  function SetWeight(t: Tree, p: Bits, w: nat): Tree
    requires LeafPath(t, p)
  {
    match t
    case Leaf(c, _) => Leaf(c, w)
    case Node(f, l, r) =>
      if p[0] then Node(f, l, SetWeight(r, p[1..], w)) else Node(f, SetWeight(l, p[1..], w), r)
  }

  lemma {:induction false} PathLength(t: Tree, p: Bits)
    requires LeafPath(t, p)
    ensures |p| <= Height(t) && WeightAt(t, p) in Weights(t)
  {
    if t.Node? { PathLength(Child(t, p[0]), p[1..]); }
  }

  lemma {:induction false} SetWeightKeepsPaths(t: Tree, p: Bits, w: nat, q: Bits)
    requires LeafPath(t, p) && LeafPath(t, q)
    ensures LeafPath(SetWeight(t, p, w), q)
    ensures WeightAt(SetWeight(t, p, w), q) == if p == q then w else WeightAt(t, q)
  {
    if t.Node? {
      assert p == [p[0]] + p[1..] && q == [q[0]] + q[1..];
      if p[0] == q[0] { SetWeightKeepsPaths(Child(t, p[0]), p[1..], w, q[1..]); }
    }
  }

  /** Carry an exchange of multiset members through a sum with `o` on either side. */
  lemma Carry<T>(x: multiset<T>, d: multiset<T>, y: multiset<T>, e: multiset<T>, o: multiset<T>)
    requires x + d == y + e
    ensures x + o + d == y + o + e && o + x + d == o + y + e
  {
    assert x + o + d == x + d + o;
    assert y + o + e == y + e + o;
    assert o + x + d == x + d + o;
    assert o + y + e == y + e + o;
  }

  lemma Cancel<T>(x: multiset<T>, y: multiset<T>, d: multiset<T>)
    requires x + d == y + d
    ensures x == y
  {
    assert x == x + d - d;
    assert y == y + d - d;
  }

  /** The multiset of frequencies, stated without subtraction. */
  lemma {:induction false} SetWeightWeights(t: Tree, p: Bits, w: nat)
    requires LeafPath(t, p)
    ensures Weights(SetWeight(t, p, w)) + multiset{WeightAt(t, p)} == Weights(t) + multiset{w}
    ensures Weight(SetWeight(t, p, w)) == Weight(t) - WeightAt(t, p) + w
  {
    if t.Node? {
      var sub := Child(t, p[0]);
      SetWeightWeights(sub, p[1..], w);
      Carry(Weights(SetWeight(sub, p[1..], w)), multiset{WeightAt(t, p)}, Weights(sub), multiset{w},
            Weights(Child(t, !p[0])));
    }
  }

  lemma {:induction false} SetWeightCost(t: Tree, p: Bits, w: nat)
    requires LeafPath(t, p)
    ensures Cost(SetWeight(t, p, w)) == Cost(t) + |p| * (w - WeightAt(t, p))
  {
    if t.Node? {
      SetWeightCost(Child(t, p[0]), p[1..], w);
      SetWeightWeights(Child(t, p[0]), p[1..], w);
      var d := w - WeightAt(t, p);
      assert |p| * d == (|p| - 1) * d + d;
    }
  }

  lemma {:induction false} FindWeight(t: Tree, w: nat) returns (p: Bits)
    requires w in Weights(t)
    ensures LeafPath(t, p) && WeightAt(t, p) == w
  {
    match t
    case Leaf(_, _) => p := [];
    case Node(_, l, r) =>
      var side := w !in Weights(l);
      p := FindWeight(Child(t, side), w);
      p := [side] + p;
  }

  /** A second leaf of frequency `w`, when there is one beside the leaf at `p`. */
  lemma FindOther(t: Tree, p: Bits, w: nat) returns (q: Bits)
    requires LeafPath(t, p) && multiset{WeightAt(t, p), w} <= Weights(t)
    ensures LeafPath(t, q) && q != p && WeightAt(t, q) == w
  {
    // Give the leaf at `p` another frequency; `w` is still there.
    var v := w + 1;
    var t' := SetWeight(t, p, v);
    SetWeightWeights(t, p, v);
    assert (Weights(t) + multiset{v})[w] >= multiset{WeightAt(t, p), w}[w];
    assert w in Weights(t');
    q := FindWeight(t', w);
    SetWeightShape(t, p, v, q);
    SetWeightKeepsPaths(t, p, v, q);
  }

  lemma {:induction false} SetWeightShape(t: Tree, p: Bits, w: nat, q: Bits)
    requires LeafPath(t, p) && LeafPath(SetWeight(t, p, w), q)
    ensures LeafPath(t, q)
  {
    if t.Node? && p[0] == q[0] { SetWeightShape(Child(t, p[0]), p[1..], w, q[1..]); }
  }

  /** Exchange the frequencies of two leaves. */
  function Swap(t: Tree, p: Bits, q: Bits): (s: Tree)
    requires LeafPath(t, p) && LeafPath(t, q)
  {
    SetWeightKeepsPaths(t, p, WeightAt(t, q), q);
    SetWeight(SetWeight(t, p, WeightAt(t, q)), q, WeightAt(t, p))
  }

  /** Moving a smaller frequency down and a larger one up does not raise the cost. */
  lemma SwapDown(t: Tree, p: Bits, q: Bits)
    requires LeafPath(t, p) && LeafPath(t, q)
    requires WeightAt(t, p) <= WeightAt(t, q) && |p| <= |q|
    ensures Cost(Swap(t, p, q)) <= Cost(t)
  {
    var x, y := WeightAt(t, p), WeightAt(t, q);
    var t1 := SetWeight(t, p, y);
    SetWeightKeepsPaths(t, p, y, q);
    SetWeightCost(t, p, y);
    SetWeightCost(t1, q, x);
    SwapCost(|p|, |q|, x, y);
  }

  lemma SwapWeights(t: Tree, p: Bits, q: Bits)
    requires LeafPath(t, p) && LeafPath(t, q)
    ensures Weights(Swap(t, p, q)) == Weights(t)
  {
    var x, y := WeightAt(t, p), WeightAt(t, q);
    SetWeightKeepsPaths(t, p, y, q);
    SetWeightWeights(t, p, y);
    SetWeightWeights(SetWeight(t, p, y), q, x);
    Cancel(Weights(Swap(t, p, q)), Weights(t), multiset{y});
  }

  lemma SwapCost(m: nat, n: nat, x: nat, y: nat)
    requires m <= n && x <= y
    ensures m * (y - x) + n * (x - y) <= 0
  {
    assert m * (y - x) + n * (x - y) == (m - n) * (y - x);
  }

  lemma SwapPaths(t: Tree, p: Bits, q: Bits, o: Bits)
    requires LeafPath(t, p) && LeafPath(t, q) && LeafPath(t, o)
    ensures LeafPath(Swap(t, p, q), o)
    ensures WeightAt(Swap(t, p, q), o)
            == if o == q then WeightAt(t, p) else if o == p then WeightAt(t, q) else WeightAt(t, o)
  {
    var t1 := SetWeight(t, p, WeightAt(t, q));
    SetWeightKeepsPaths(t, p, WeightAt(t, q), q);
    SetWeightKeepsPaths(t, p, WeightAt(t, q), o);
    SetWeightKeepsPaths(t1, q, WeightAt(t, p), o);
  }

  /** Two sibling leaves, as deep as any leaf. */
  lemma {:induction false} DeepestPair(t: Tree) returns (q: Bits)
    requires t.Node?
    ensures LeafPath(t, q + [false]) && LeafPath(t, q + [true]) && |q| + 1 == Height(t)
  {
    var side := Height(t.left) < Height(t.right);
    var sub := Child(t, side);
    if sub.Leaf? {
      q := [];
    } else {
      var s := DeepestPair(sub);
      q := [side] + s;
      assert (q + [false])[1..] == s + [false];
      assert (q + [true])[1..] == s + [true];
    }
  }

  /** The tree with the pair of leaves under `q` merged into one. */
  function Contract(t: Tree, q: Bits): Tree
    requires LeafPath(t, q + [false]) && LeafPath(t, q + [true])
    decreases |q|
  {
    if q == [] then Leaf('$', Weight(t))
    else
      assert (q + [false])[1..] == q[1..] + [false] && (q + [true])[1..] == q[1..] + [true];
      if q[0] then Node(t.frequency, t.left, Contract(t.right, q[1..]))
      else Node(t.frequency, Contract(t.left, q[1..]), t.right)
  }

  lemma PairBelow(t: Tree, q: Bits)
    requires q != [] && LeafPath(t, q + [false]) && LeafPath(t, q + [true])
    ensures t.Node?
    ensures var sub := Child(t, q[0]);
            && LeafPath(sub, q[1..] + [false]) && LeafPath(sub, q[1..] + [true])
            && WeightAt(t, q + [false]) == WeightAt(sub, q[1..] + [false])
            && WeightAt(t, q + [true]) == WeightAt(sub, q[1..] + [true])
  {
    assert (q + [false])[1..] == q[1..] + [false] && (q + [true])[1..] == q[1..] + [true];
  }

  lemma PairHere(t: Tree)
    requires LeafPath(t, [false]) && LeafPath(t, [true])
    ensures t.Node? && t.left.Leaf? && t.right.Leaf?
    ensures WeightAt(t, [false]) == t.left.frequency && WeightAt(t, [true]) == t.right.frequency
  {
  }

  lemma {:induction false} ContractCost(t: Tree, q: Bits)
    requires LeafPath(t, q + [false]) && LeafPath(t, q + [true])
    ensures Weight(Contract(t, q)) == Weight(t)
    ensures Cost(Contract(t, q)) + WeightAt(t, q + [false]) + WeightAt(t, q + [true]) == Cost(t)
    decreases |q|
  {
    if q == [] {
      assert q + [false] == [false] && q + [true] == [true];
      PairHere(t);
    } else {
      PairBelow(t, q);
      ContractCost(Child(t, q[0]), q[1..]);
    }
  }

  lemma {:induction false} ContractWeights(t: Tree, q: Bits, a: nat, b: nat, sum: nat)
    requires LeafPath(t, q + [false]) && LeafPath(t, q + [true])
    requires a == WeightAt(t, q + [false]) && b == WeightAt(t, q + [true]) && sum == a + b
    ensures Weights(Contract(t, q)) + (multiset{a} + multiset{b}) == Weights(t) + multiset{sum}
    decreases |q|
  {
    if q == [] {
      assert q + [false] == [false] && q + [true] == [true];
      PairHere(t);
      assert Weight(t) == Weight(t.left) + Weight(t.right) == sum;
      assert Contract(t, q) == Leaf('$', sum);
      assert Weights(t) == multiset{a} + multiset{b};
    } else {
      PairBelow(t, q);
      var sub := Child(t, q[0]);
      ContractWeights(sub, q[1..], a, b, sum);
      Carry(Weights(Contract(sub, q[1..])), multiset{a} + multiset{b}, Weights(sub), multiset{sum},
            Weights(Child(t, !q[0])));
    }
  }

  lemma {:induction false} SetWeightHeight(t: Tree, p: Bits, w: nat)
    requires LeafPath(t, p)
    ensures Height(SetWeight(t, p, w)) == Height(t)
  {
    if t.Node? { SetWeightHeight(Child(t, p[0]), p[1..], w); }
  }

  lemma SwapHeight(t: Tree, p: Bits, q: Bits)
    requires LeafPath(t, p) && LeafPath(t, q)
    ensures Height(Swap(t, p, q)) == Height(t)
  {
    SetWeightKeepsPaths(t, p, WeightAt(t, q), q);
    SetWeightHeight(t, p, WeightAt(t, q));
    SetWeightHeight(SetWeight(t, p, WeightAt(t, q)), q, WeightAt(t, p));
  }

  /** Any leaf beside one of frequency `a` carries at least `b`. */
  lemma SecondLeast(t: Tree, p: Bits, q: Bits, a: nat, b: nat, others: multiset<nat>)
    requires Weights(t) == multiset{a} + (multiset{b} + others)
    requires a <= b && forall w :: w in others ==> b <= w
    requires LeafPath(t, p) && LeafPath(t, q) && p != q && WeightAt(t, p) == a
    ensures b <= WeightAt(t, q)
  {
    // Raise the leaf at `p` out of the way; what is left at `q` is `b` or one of the others.
    var v := WeightAt(t, q) + 1;
    var t' := SetWeight(t, p, v);
    SetWeightWeights(t, p, v);
    SetWeightKeepsPaths(t, p, v, q);
    PathLength(t', q);
    assert Weights(t') == multiset{b} + others + multiset{v} by {
      assert Weights(t') + multiset{a} == multiset{b} + others + multiset{v} + multiset{a};
      assert Weights(t') == Weights(t') + multiset{a} - multiset{a};
    }
  }

  /** Exchange the frequencies at `p` and at a deepest leaf `q`. */
  lemma BringDown(u: Tree, p: Bits, q: Bits, o: Bits) returns (v: Tree)
    requires LeafPath(u, p) && LeafPath(u, q) && LeafPath(u, o) && o != q
    requires |q| == Height(u) && WeightAt(u, p) <= WeightAt(u, q)
    ensures Weights(v) == Weights(u) && Cost(v) <= Cost(u) && Height(v) == Height(u)
    ensures LeafPath(v, q) && WeightAt(v, q) == WeightAt(u, p)
    ensures LeafPath(v, o) && (o != p ==> WeightAt(v, o) == WeightAt(u, o))
  {
    v := Swap(u, p, q);
    PathLength(u, p);
    SwapDown(u, p, q);
    SwapWeights(u, p, q);
    SwapHeight(u, p, q);
    SwapPaths(u, p, q, q);
    SwapPaths(u, p, q, o);
  }

  lemma TwoLeaves(u: Tree, a: nat, b: nat, others: multiset<nat>)
    requires Weights(u) == multiset{a} + (multiset{b} + others)
    ensures u.Node? && multiset{a, b} <= Weights(u)
  {
    assert |multiset{a} + (multiset{b} + others)| >= 2;
  }

  /** Some rearrangement of `u`, no dearer, has the two least frequencies on sibling leaves. */
  lemma LeastPairDown(u: Tree, a: nat, b: nat, others: multiset<nat>) returns (v: Tree, q: Bits)
    requires Weights(u) == multiset{a} + (multiset{b} + others)
    requires a <= b && forall w :: w in others ==> b <= w
    ensures Weights(v) == Weights(u) && Cost(v) <= Cost(u)
    ensures LeafPath(v, q + [false]) && LeafPath(v, q + [true])
    ensures WeightAt(v, q + [false]) == a && WeightAt(v, q + [true]) == b
  {
    TwoLeaves(u, a, b, others);
    q := DeepestPair(u);
    var q0, q1 := q + [false], q + [true];
    assert q0[|q|] != q1[|q|];
    var p := FindWeight(u, a);
    PathLength(u, q0);
    v := BringDown(u, p, q0, q1);
    var o := FindOther(v, q0, b);
    SecondLeast(v, q0, q1, a, b, others);
    v := BringDown(v, o, q1, q0);
  }

  lemma CancelPair<T>(v: multiset<T>, a: multiset<T>, b: multiset<T>, sum: multiset<T>, others: multiset<T>)
    requires v + (a + b) == a + (b + others) + sum
    ensures v == sum + others
  {
    assert v + (a + b) == sum + others + (a + b);
    Cancel(v, sum + others, a + b);
  }

  /** The exchange argument: when `a` and `b` are two least frequencies of `u`, some tree has
      them merged and costs at least their sum less. */
  lemma Exchange(u: Tree, a: nat, b: nat, sum: nat, others: multiset<nat>) returns (v: Tree)
    requires Weights(u) == multiset{a} + (multiset{b} + others) && sum == a + b
    requires a <= b && forall w :: w in others ==> b <= w
    ensures Weights(v) == multiset{sum} + others
    ensures Cost(v) + sum <= Cost(u)
  {
    var s, q := LeastPairDown(u, a, b, others);
    v := Contract(s, q);
    ContractCost(s, q);
    ContractWeights(s, q, a, b, sum);
    CancelPair(Weights(v), multiset{a}, multiset{b}, multiset{sum}, others);
  }

  /** Optimality over any forest: what the merges add to the cost is at most the cost of any
      tree whose leaf frequencies are the root frequencies of the forest. */
  lemma {:induction false} MergesOptimal(f: Forest, t: Tree, u: Tree)
    requires Merges(f, t) && AllWeighed(f)
    requires Weights(u) == TotalsOf(f).roots
    ensures Cost(t) - TotalsOf(f).cost <= Cost(u)
    decreases |f|
  {
    if f == multiset{t} {
      TotalsOfOne(t);
    } else {
      var g :| MergeStep(f, g) && |g| < |f| && Merges(g, t);
      var l, r :| MergeOf(f, l, r, g);
      MergeKeeps(f, l, r, g);
      var others := TotalsOf(f - multiset{l} - multiset{r}).roots;
      OthersNotLess(f, l, r, g);
      var v := Exchange(u, l.frequency, r.frequency, Join(l, r).frequency, others);
      MergesOptimal(g, t, v);
    }
  }

  /** The two trees taken out come in order, and before everything that stays. */
  lemma OthersNotLess(f: Forest, l: Tree, r: Tree, g: Forest)
    requires MergeOf(f, l, r, g)
    ensures l.frequency <= r.frequency
    ensures forall w :: w in TotalsOf(f - multiset{l} - multiset{r}).roots ==> r.frequency <= w
  {
    var rest := f - multiset{l} - multiset{r};
    assert r in f;
    RootsOf(rest);
    forall w | w in TotalsOf(rest).roots ensures r.frequency <= w {
      var t :| t in rest && t.frequency == w;
      assert t in f - multiset{l};
    }
  }

  lemma {:induction false} RootsOf(f: Forest)
    ensures forall w :: w in TotalsOf(f).roots ==> exists t :: t in f && t.frequency == w
    decreases |f|
  {
    if f != multiset{} {
      var t :| t in f;
      TotalsTakeOut(f, t);
      RootsOf(f - multiset{t});
      forall w | w in TotalsOf(f).roots ensures exists s :: s in f && s.frequency == w {
        if w == t.frequency {
        } else {
          assert w in TotalsOf(f - multiset{t}).roots;
          var s :| s in f - multiset{t} && s.frequency == w;
          assert s in f;
        }
      }
    }
  }

  /** Huffman's theorem for the program's own merge loop, however ties fall. */
  lemma HuffmanOptimal(data: string, frequencies: seq<nat>, t: Tree, u: Tree)
    requires HuffmanTree(data, frequencies, t)
    requires Weights(u) == multiset(frequencies)
    ensures Cost(t) <= Cost(u)
  {
    LeafTotals(data, frequencies);
    MergesOptimal(multiset(LeafTrees(data, frequencies)), t, u);
  }
}
