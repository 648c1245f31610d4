/** What encoding and decoding mean, one symbol at a time. */
module Coding {
  import opened Alphabet
  import opened Trees
  import opened Bytes

  /** The leaves of `t` are the 56 letters, each once. */
  ghost predicate AlphabetTree(t: Tree) {
    multiset(Letters(t)) == multiset(LETTERS)
  }

  lemma CountsOfDistinct(s: string, c: char)
    requires Distinct(s)
    ensures multiset(s)[c] <= 1
  {
    if s != [] {
      var n := |s| - 1;
      assert s == s[..n] + [s[n]];
      CountsOfDistinct(s[..n], c);
      if c == s[n] { assert c !in s[..n]; }
    }
  }

  lemma DistinctFromCounts(s: string)
    requires forall c :: multiset(s)[c] <= 1
    ensures Distinct(s)
  {
    forall i, j | 0 <= i < j < |s| ensures s[i] != s[j] {
      assert s == s[..j] + s[j..];
      assert multiset(s)[s[j]] == multiset(s[..j])[s[j]] + multiset(s[j..])[s[j]];
      assert s[j..][0] == s[j] && s[..j][i] == s[i];
      assert s[i] in multiset(s[..j]);
    }
  }

  lemma AlphabetTreeLetters(t: Tree)
    requires AlphabetTree(t)
    ensures Distinct(Letters(t)) && |Letters(t)| == LETTER_COUNT && t.Node? && Height(t) <= 55
    ensures forall c :: c in Letters(t) <==> c in LETTERS
  {
    LetterTable();
    forall c ensures multiset(Letters(t))[c] <= 1 { CountsOfDistinct(LETTERS, c); }
    DistinctFromCounts(Letters(t));
    assert |multiset(Letters(t))| == |Letters(t)|;
    forall c ensures c in Letters(t) <==> c in LETTERS {
      assert c in multiset(Letters(t)) <==> c in multiset(LETTERS);
    }
    CodeBounds(t, Letters(t)[0]);
  }

  /** The codes of a text, one after the other. */
  function EncodeBits(t: Tree, text: string): Bits
    requires forall i :: 0 <= i < |text| ==> text[i] in Letters(t)
  {
    if text == [] then []
    else EncodeBits(t, text[..|text| - 1]) + Code(t, text[|text| - 1])
  }

  /** Walk the tree from the root again and again: the letters met. */
  function Symbols(t: Tree, bits: Bits): string
    requires t.Node?
    decreases |bits|
  {
    match Walk(t, bits)
    case None => []
    case Some((c, rest)) => [c] + Symbols(t, rest)
  }

  /** The bits left when a walk does not reach a leaf. */
  function Residue(t: Tree, bits: Bits): Bits
    requires t.Node?
    decreases |bits|
  {
    match Walk(t, bits)
    case None => bits
    case Some((_, rest)) => Residue(t, rest)
  }

  lemma {:induction false} WalkAppend(t: Tree, a: Bits, b: Bits)
    requires Walk(t, a).Some?
    ensures Walk(t, a + b) == Some((Walk(t, a).value.0, Walk(t, a).value.1 + b))
  {
    if t.Node? {
      assert (a + b)[1..] == a[1..] + b;
      WalkAppend(Child(t, a[0]), a[1..], b);
    }
  }

  /** Decoding in pieces: more bits only concern the residue. */
  lemma {:induction false} DecodeAppend(t: Tree, a: Bits, b: Bits)
    requires t.Node?
    ensures Symbols(t, a + b) == Symbols(t, a) + Symbols(t, Residue(t, a) + b)
    ensures Residue(t, a + b) == Residue(t, Residue(t, a) + b)
    decreases |a|
  {
    if Walk(t, a).Some? {
      WalkAppend(t, a, b);
      DecodeAppend(t, Walk(t, a).value.1, b);
    } else {
      assert Symbols(t, a) == [];
    }
  }

  /** A code at the front decodes to its letter. */
  lemma DecodeCode(t: Tree, c: char, rest: Bits)
    requires t.Node? && c in Letters(t)
    ensures Symbols(t, Code(t, c) + rest) == [c] + Symbols(t, rest)
    ensures Residue(t, Code(t, c) + rest) == Residue(t, rest)
  {
    WalkCode(t, c, rest);
  }

  /** The residue is shorter than the longest code. */
  lemma {:induction false} ResidueShort(t: Tree, bits: Bits)
    requires t.Node?
    ensures |Residue(t, bits)| < Height(t)
    decreases |bits|
  {
    if Walk(t, bits).Some? {
      ResidueShort(t, Walk(t, bits).value.1);
    } else if |bits| >= Height(t) {
      WalkArrives(t, bits);
    }
  }

  /** When no code starts the string, there is nothing to decode. */
  lemma NoCodeStarts(t: Tree, bits: Bits)
    requires t.Node? && Distinct(Letters(t))
    requires forall c :: c in Letters(t) ==> !(Code(t, c) <= bits)
    ensures Symbols(t, bits) == [] && Residue(t, bits) == bits
  {
    if Walk(t, bits).Some? {
      WalkFinds(t, bits);
    }
  }

  lemma Associate<T>(a: seq<T>, b: seq<T>, c: seq<T>)
    ensures (a + b) + c == a + (b + c)
  {
  }

  /** Decoding an encoded text gives the text, then whatever follows it. */
  lemma {:induction false} DecodeEncoded(t: Tree, text: string, rest: Bits)
    requires t.Node? && forall i :: 0 <= i < |text| ==> text[i] in Letters(t)
    ensures Symbols(t, EncodeBits(t, text) + rest) == text + Symbols(t, rest)
    ensures Residue(t, EncodeBits(t, text) + rest) == Residue(t, rest)
  {
    if text == [] {
      assert EncodeBits(t, text) + rest == rest;
    } else {
      var n := |text| - 1;
      var front, last := text[..n], text[n];
      var code := Code(t, last);
      Associate(EncodeBits(t, front), code, rest);
      DecodeEncoded(t, front, code + rest);
      DecodeCode(t, last, rest);
      Associate(front, [last], Symbols(t, rest));
      assert text == front + [last];
    }
  }

  /** The leaf reached by going left all the way, and its depth. */
  function LeftmostLetter(t: Tree): char {
    if t.Leaf? then t.letter else LeftmostLetter(t.left)
  }

  function LeftmostDepth(t: Tree): (d: nat)
    ensures t.Node? ==> d >= 1
  {
    if t.Leaf? then 0 else 1 + LeftmostDepth(t.left)
  }

  lemma {:induction false} WalkZeros(t: Tree, n: nat)
    ensures Walk(t, Zeros(n))
         == if n < LeftmostDepth(t) then None else Some((LeftmostLetter(t), Zeros(n - LeftmostDepth(t))))
  {
    if t.Node? && n > 0 {
      assert Zeros(n)[1..] == Zeros(n - 1);
      WalkZeros(t.left, n - 1);
    }
  }

  function Repeat(c: char, n: nat): (s: string)
    ensures |s| == n
  {
    seq(n, _ => c)
  }

  /** Padding decodes to copies of the leftmost letter: as many as its depth fits into it. */
  lemma {:induction false} DecodeZeros(t: Tree, n: nat)
    requires t.Node?
    ensures Symbols(t, Zeros(n)) == Repeat(LeftmostLetter(t), n / LeftmostDepth(t))
    decreases n
  {
    WalkZeros(t, n);
    var c, d := LeftmostLetter(t), LeftmostDepth(t);
    if n < d {
      SmallQuotient(n, d);
    } else {
      DecodeZeros(t, n - d);
      StepQuotient(n, d);
      assert [c] + Repeat(c, (n - d) / d) == Repeat(c, n / d);
    }
  }

  lemma SmallQuotient(n: nat, d: nat)
    requires n < d
    ensures n / d == 0
  {
  }

  lemma AtLeastOnce(d: nat, k: nat)
    requires k >= 1
    ensures d * k >= d
  {
    assert d * k == d * (k - 1) + d;
  }

  lemma QuotientIs(n: nat, d: nat, q: nat, r: nat)
    requires r < d && n == d * q + r
    ensures n / d == q
  {
    var m, s := n / d, n % d;
    assert n == d * m + s;
    assert d * (q - m) == d * q - d * m;
    assert d * (m - q) == d * m - d * q;
    if m < q {
      AtLeastOnce(d, q - m);
    } else if q < m {
      AtLeastOnce(d, m - q);
    }
  }

  lemma StepQuotient(n: nat, d: nat)
    requires 0 < d <= n
    ensures n / d == (n - d) / d + 1
  {
    var q, r := (n - d) / d, (n - d) % d;
    assert d * (q + 1) == d * q + d;
    QuotientIs(n, d, q + 1, r);
  }
}
