/** Huffman trees as values: leaves, cost, and the codes read off the paths. */
module Trees {
  import opened Alphabet

  datatype Option<+T> = None | Some(value: T)

  /** `false` is the code digit 0 (go left), `true` is 1 (go right). */
  type Bits = seq<bool>

  /** An `HF_Node`. It is filled in when it is created and never changes afterwards.
      The letter of an inner node is always '$' and is never looked at. */
  datatype Tree =
    | Leaf(letter: char, frequency: nat)
    | Node(frequency: nat, left: Tree, right: Tree)

  /** The letters of the leaves, from left to right. */
  function Letters(t: Tree): (s: string)
    ensures |s| > 0
  {
    match t
    case Leaf(c, _) => [c]
    case Node(_, l, r) => Letters(l) + Letters(r)
  }

  /** The frequencies found on the leaves. */
  function Weights(t: Tree): multiset<nat> {
    match t
    case Leaf(_, w) => multiset{w}
    case Node(_, l, r) => Weights(l) + Weights(r)
  }

  /** The sum of the leaf frequencies. */
  function Weight(t: Tree): nat {
    match t
    case Leaf(_, w) => w
    case Node(_, l, r) => Weight(l) + Weight(r)
  }

  /** The weighted path length: each leaf frequency times the depth of that leaf. */
  function Cost(t: Tree): nat {
    match t
    case Leaf(_, _) => 0
    case Node(_, l, r) => Cost(l) + Cost(r) + Weight(l) + Weight(r)
  }

  function Height(t: Tree): nat {
    match t
    case Leaf(_, _) => 0
    case Node(_, l, r) => 1 + if Height(l) < Height(r) then Height(r) else Height(l)
  }

  /** Every inner node carries the sum of the frequencies below it. */
  predicate Weighed(t: Tree) {
    t.frequency == Weight(t) && (t.Node? ==> Weighed(t.left) && Weighed(t.right))
  }

  function Child(t: Tree, side: bool): Tree
    requires t.Node?
  {
    if side then t.right else t.left
  }

  /** The path to the leaf of letter `c`. */
  function Code(t: Tree, c: char): Bits
    requires c in Letters(t)
  {
    match t
    case Leaf(_, _) => []
    case Node(_, l, r) =>
      if c in Letters(l) then [false] + Code(l, c) else [true] + Code(r, c)
  }

  /** Follow the bits down from the root: the letter reached and the bits left over. */
  function Walk(t: Tree, bits: Bits): (r: Option<(char, Bits)>)
    ensures r.Some? && t.Node? ==> |r.value.1| < |bits|
    ensures r.Some? ==> |r.value.1| <= |bits|
  {
    match t
    case Leaf(c, _) => Some((c, bits))
    case Node(_, l, r) =>
      if bits == [] then None
      else Walk(Child(t, bits[0]), bits[1..])
  }

  lemma DistinctParts<T>(a: seq<T>, b: seq<T>)
    requires Distinct(a + b)
    ensures Distinct(a) && Distinct(b)
    ensures forall x :: x in a ==> x !in b
  {
    forall i, j | 0 <= i < j < |a| ensures a[i] != a[j] {
      assert a[i] == (a + b)[i] && a[j] == (a + b)[j];
    }
    forall i, j | 0 <= i < j < |b| ensures b[i] != b[j] {
      assert b[i] == (a + b)[|a| + i] && b[j] == (a + b)[|a| + j];
    }
    forall x | x in a ensures x !in b {
      var i :| 0 <= i < |a| && a[i] == x;
      forall j | 0 <= j < |b| ensures b[j] != x {
        assert (a + b)[i] == x && (a + b)[|a| + j] == b[j];
      }
    }
  }

  lemma {:induction false} WalkCode(t: Tree, c: char, rest: Bits)
    requires c in Letters(t)
    ensures Walk(t, Code(t, c) + rest) == Some((c, rest))
  {
    match t
    case Leaf(_, _) =>
      assert [] + rest == rest;
    case Node(_, l, r) =>
      var side := c !in Letters(l);
      WalkCode(Child(t, side), c, rest);
      assert (Code(t, c) + rest)[1..] == Code(Child(t, side), c) + rest;
  }

  lemma CodeOfChild(t: Tree, side: bool, c: char)
    requires t.Node? && Distinct(Letters(t)) && c in Letters(Child(t, side))
    ensures c in Letters(t) && Code(t, c) == [side] + Code(Child(t, side), c)
  {
    DistinctParts(Letters(t.left), Letters(t.right));
  }

  lemma Prepend(bits: Bits, code: Bits, rest: Bits)
    requires bits != [] && bits[1..] == code + rest
    ensures bits == [bits[0]] + code + rest
  {
    assert bits == [bits[0]] + bits[1..];
  }

  /** A walk that arrives has consumed exactly the code of the letter it reached. */
  lemma {:induction false} WalkFinds(t: Tree, bits: Bits)
    requires Distinct(Letters(t)) && Walk(t, bits).Some?
    ensures var (c, rest) := Walk(t, bits).value; c in Letters(t) && bits == Code(t, c) + rest
  {
    match t
    case Leaf(_, _) =>
      assert [] + bits == bits;
    case Node(_, l, r) =>
      var sub := Child(t, bits[0]);
      DistinctParts(Letters(l), Letters(r));
      WalkFinds(sub, bits[1..]);
      var (c, rest) := Walk(sub, bits[1..]).value;
      CodeOfChild(t, bits[0], c);
      Prepend(bits, Code(sub, c), rest);
  }

  lemma {:induction false} WalkArrives(t: Tree, bits: Bits)
    requires |bits| >= Height(t)
    ensures Walk(t, bits).Some?
  {
    match t
    case Leaf(_, _) =>
    case Node(_, l, r) =>
      WalkArrives(Child(t, bits[0]), bits[1..]);
  }

  lemma {:induction false} CodeBounds(t: Tree, c: char)
    requires c in Letters(t)
    ensures |Code(t, c)| <= Height(t) <= |Letters(t)| - 1
    ensures t.Node? ==> |Code(t, c)| >= 1
  {
    match t
    case Leaf(_, _) =>
    case Node(_, l, r) =>
      CodeBounds(l, if c in Letters(l) then c else Letters(l)[0]);
      CodeBounds(r, if c in Letters(l) then Letters(r)[0] else c);
  }

  /** No code is a prefix of another letter's code. */
  lemma PrefixFree(t: Tree, c: char, d: char)
    requires c in Letters(t) && d in Letters(t) && c != d
    ensures !(Code(t, c) <= Code(t, d))
  {
    var a, b := Code(t, c), Code(t, d);
    if a <= b {
      assert b + [] == b;
      assert a + b[|a|..] == b;
      WalkCode(t, d, []);
      WalkCode(t, c, b[|a|..]);
    }
  }

  /** Every long enough bit string starts with the code of one letter, and of one only. */
  lemma Complete(t: Tree, bits: Bits) returns (c: char)
    requires Distinct(Letters(t)) && |bits| >= Height(t)
    ensures c in Letters(t) && Code(t, c) <= bits
    ensures forall d :: d in Letters(t) && Code(t, d) <= bits ==> d == c
  {
    WalkArrives(t, bits);
    WalkFinds(t, bits);
    c := Walk(t, bits).value.0;
    forall d | d in Letters(t) && Code(t, d) <= bits ensures d == c {
      WalkCode(t, d, bits[|Code(t, d)|..]);
      assert bits == Code(t, d) + bits[|Code(t, d)|..];
    }
  }

  /** 2 to the power -n. */
  function Half(n: nat): (h: real)
    ensures h > 0.0
  {
    if n == 0 then 1.0 else Half(n - 1) / 2.0
  }

  /** The Kraft sum of the codes of the given leaves. */
  ghost function KraftSum(t: Tree, cs: string): real
    requires forall c :: c in cs ==> c in Letters(t)
  {
    if cs == [] then 0.0
    else Half(|Code(t, cs[0])|) + KraftSum(t, cs[1..])
  }

  lemma {:induction false} KraftSumConcat(t: Tree, a: string, b: string)
    requires forall c :: c in a + b ==> c in Letters(t)
    ensures (forall c :: c in a ==> c in Letters(t)) && (forall c :: c in b ==> c in Letters(t))
    ensures KraftSum(t, a + b) == KraftSum(t, a) + KraftSum(t, b)
  {
    forall c | c in a ensures c in Letters(t) { assert c in a + b; }
    forall c | c in b ensures c in Letters(t) { assert c in a + b; }
    if a == [] {
      assert a + b == b;
    } else {
      assert (a + b)[1..] == a[1..] + b;
      KraftSumConcat(t, a[1..], b);
    }
  }

  /** Putting a subtree under a new root halves what its letters contribute. */
  lemma {:induction false} KraftSumUnderRoot(t: Tree, side: bool, cs: string)
    requires t.Node? && Distinct(Letters(t))
    requires forall c :: c in cs ==> c in Letters(Child(t, side))
    ensures (forall c :: c in cs ==> c in Letters(t)) && KraftSum(t, cs) == KraftSum(Child(t, side), cs) / 2.0
  {
    if cs != [] {
      CodeOfChild(t, side, cs[0]);
      KraftSumUnderRoot(t, side, cs[1..]);
    }
  }

  lemma {:induction false} KraftEquality(t: Tree)
    requires Distinct(Letters(t))
    ensures KraftSum(t, Letters(t)) == 1.0
  {
    match t
    case Leaf(c, _) =>
      assert Letters(t) == [c] && Letters(t)[1..] == [];
    case Node(_, l, r) =>
      DistinctParts(Letters(l), Letters(r));
      KraftEquality(l);
      KraftEquality(r);
      KraftSumUnderRoot(t, false, Letters(l));
      KraftSumUnderRoot(t, true, Letters(r));
      KraftSumConcat(t, Letters(l), Letters(r));
  }
}
