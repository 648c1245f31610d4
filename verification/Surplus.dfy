/** The surplus letters of the decoder against the one spare slot of its output buffer. */
module SurplusLetters {
  import opened Alphabet
  import opened Trees
  import opened Forests
  import opened Bytes
  import opened CodeTables
  import opened Coding
  import opened FileFormat
  import opened Limits
  import opened Compress
  import opened Decompress

  /** How many zeros decode to at most one letter. */
  lemma AtMostOne(n: nat, d: nat)
    requires d >= 1
    ensures n / d <= 1 <==> n < 2 * d
  {
    var q, r := n / d, n % d;
    assert n == d * q + r && r < d;
    if q >= 2 { assert d * q == 2 * d + d * (q - 2); }
  }

  /** The decoder stays inside its output buffer exactly when the zeros behind the codes are fewer than two
      codes of the leftmost letter. */
  lemma ZerosFit(t: Tree, text: string, file: seq<Byte>, zeros: nat)
    requires t.Node? && DecodesTo(file, |text|, text + Surplus(t, zeros))
    ensures StoresInside(file) <==> zeros < 2 * LeftmostDepth(t)
  {
    AtMostOne(zeros, LeftmostDepth(t));
  }

  /** For files of the compressor the zeros are the padding of the last byte. */
  lemma OutputBufferSuffices(t: Tree, text: string, file: seq<Byte>)
    requires CompressedWith(t, text, file)
    ensures ValidFile(file)
    ensures StoresInside(file) <==> PadLength(EncodeBits(t, text)) < 2 * LeftmostDepth(t)
  {
    AlphabetTreeLetters(t);
    RoundTrip(t, text, file);
    ZerosFit(t, text, file, PadLength(EncodeBits(t, text)));
  }

  // Texts of three letters.

  /** Some trees of frequency 0, and others that occur. */
  ghost predicate ZerosAnd(f: Forest, zeros: Forest, others: Forest) {
    && f == zeros + others && |zeros| >= 1
    && (forall z :: z in zeros ==> z.frequency == 0 && Weighed(z))
    && (forall u :: u in others ==> u.frequency > 0)
  }

  /** Three leaves, of which the third is rarest, and the other two differ by less than it counts. */
  ghost predicate Trio(a: Tree, b: Tree, c: Tree) {
    && a.Leaf? && b.Leaf? && c.Leaf? && a != b && 0 < c.frequency
    && c.frequency < a.frequency < b.frequency + c.frequency
    && c.frequency < b.frequency < a.frequency + c.frequency
  }

  /** Two of them next to the root: the more frequent one on the left at depth 1, the other at depth 2. */
  ghost predicate Lopsided(t: Tree, x: Tree, y: Tree, z: Tree, c: Tree) {
    y.frequency <= x.frequency && z.frequency == 0 && Weighed(z) && t == Join(x, Join(Join(z, c), y))
  }

  lemma AnyOf(f: Forest) returns (t: Tree)
    requires |f| >= 1
    ensures t in f
  {
    t :| t in f;
  }

  lemma OnlyOne(f: Forest) returns (t: Tree)
    requires |f| == 1
    ensures f == multiset{t}
  {
    t := AnyOf(f);
    assert |f - multiset{t}| == 0;
    assert f == (f - multiset{t}) + multiset{t};
  }

  /** As long as two zeros are left they are merged. */
  lemma ZerosMerged(f: Forest, zeros: Forest, others: Forest, l: Tree, r: Tree, g: Forest) returns (fewer: Forest)
    requires ZerosAnd(f, zeros, others) && |zeros| >= 2 && MergeOf(f, l, r, g)
    ensures ZerosAnd(g, fewer, others) && |fewer| == |zeros| - 1
  {
    LeastIsZero(f, zeros, others, l);
    var rest := zeros - multiset{l};
    TakenFromFirst(zeros, others, l);
    LeastIsZero(f - multiset{l}, rest, others, r);
    TakenFromFirst(rest, others, r);
    fewer := rest - multiset{r} + multiset{Join(l, r)};
    JoinedFirst(rest - multiset{r}, others, multiset{Join(l, r)});
  }

  lemma JoinedFirst(a: Forest, b: Forest, c: Forest)
    ensures a + b + c == a + c + b
  {
  }

  lemma LeastIsZero(f: Forest, zeros: Forest, others: Forest, l: Tree)
    requires ZerosAnd(f, zeros, others) && Least(l, f)
    ensures l in zeros
  {
    var z := AnyOf(zeros);
    assert z in f;
  }

  lemma TakenFromFirst(a: Forest, b: Forest, x: Tree)
    requires x in a
    ensures a + b - multiset{x} == a - multiset{x} + b
  {
  }

  /** The tree that is rarer than all the others comes out first, and so goes to the left. */
  lemma FirstOut(x: Tree, others: Forest, g: Forest) returns (r: Tree)
    requires forall u :: u in others ==> x.frequency < u.frequency
    requires MergeStep(multiset{x} + others, g)
    ensures Least(r, others) && g == others - multiset{r} + multiset{Join(x, r)}
  {
    var f := multiset{x} + others;
    var l, q :| MergeOf(f, l, q, g);
    assert x in f && l == x;
    assert f - multiset{x} == others;
    r := q;
  }

  lemma GoOn(f: Forest, t: Tree) returns (g: Forest)
    requires Merges(f, t) && |f| >= 2
    ensures MergeStep(f, g) && Merges(g, t) && |g| + 1 == |f|
  {
    assert |multiset{t}| == 1;
    g := NextRound(f, t);
  }

  lemma TakeOutOne<T>(x: T, m: multiset<T>)
    ensures multiset{x} + m - multiset{x} == m && |multiset{x} + m| == 1 + |m|
  {
  }

  /** The last zero goes with the rarest leaf. */
  lemma ThirdLast(z: Tree, c: Tree, two: Forest, g: Forest)
    requires z.frequency == 0 < c.frequency && forall u :: u in two ==> c.frequency < u.frequency
    requires MergeStep(multiset{z} + (multiset{c} + two), g)
    ensures g == multiset{Join(z, c)} + two
  {
    var three := multiset{c} + two;
    TakeOutOne(c, two);
    assert c in three;
    var r := FirstOut(z, three, g);
    Commute(two, multiset{Join(z, c)});
  }

  /** Their tree goes with the rarer of the other two. */
  lemma SecondLast(p: Tree, a: Tree, b: Tree, two: Forest, g: Forest) returns (x: Tree, y: Tree)
    requires p.frequency < a.frequency && p.frequency < b.frequency && two == multiset{a} + multiset{b}
    requires MergeStep(multiset{p} + two, g)
    ensures ((x == a && y == b) || (x == b && y == a)) && y.frequency <= x.frequency
    ensures g == multiset{x} + multiset{Join(p, y)}
  {
    TakeOutOne(a, multiset{b});
    TakeOutOne(b, multiset{a});
    Commute(multiset{a}, multiset{b});
    y := FirstOut(p, two, g);
    x := if y == a then b else a;
    assert two - multiset{y} == multiset{x};
  }

  lemma Last(x: Tree, q: Tree, g: Forest)
    requires x.frequency < q.frequency && MergeStep(multiset{x} + multiset{q}, g)
    ensures g == multiset{Join(x, q)}
  {
    var r := FirstOut(x, multiset{q}, g);
  }

  lemma OneLeft(x: Tree, f: Forest, t: Tree)
    requires f == multiset{x} && Merges(f, t)
    ensures t == x
  {
    assert |f| == 1;
    assert f == multiset{t};
    assert x in f;
  }

  /** The last three rounds. */
  lemma FromFour(z: Tree, a: Tree, b: Tree, c: Tree, two: Forest, f: Forest, t: Tree) returns (x: Tree, y: Tree)
    requires z.frequency == 0 && Weighed(z) && Trio(a, b, c) && two == multiset{a} + multiset{b}
    requires f == multiset{z} + (multiset{c} + two) && Merges(f, t)
    ensures ((x == a && y == b) || (x == b && y == a)) && Lopsided(t, x, y, z, c)
  {
    OfTwo(a, b, c, two);
    var g := AfterThirdLast(z, c, two, f, t);
    x, y := FromThree(z, Join(z, c), a, b, c, two, g, t);
  }

  lemma OfTwo(a: Tree, b: Tree, c: Tree, two: Forest)
    requires Trio(a, b, c) && two == multiset{a} + multiset{b}
    ensures forall u :: u in two ==> c.frequency < u.frequency
  {
    forall u | u in two ensures c.frequency < u.frequency {
      assert u == a || u == b;
    }
  }

  lemma AfterThirdLast(z: Tree, c: Tree, two: Forest, f: Forest, t: Tree) returns (g: Forest)
    requires z.frequency == 0 < c.frequency && forall u :: u in two ==> c.frequency < u.frequency
    requires f == multiset{z} + (multiset{c} + two) && Merges(f, t)
    ensures g == multiset{Join(z, c)} + two && Merges(g, t)
  {
    TakeOutOne(z, multiset{c} + two);
    TakeOutOne(c, two);
    g := GoOn(f, t);
    ThirdLast(z, c, two, g);
  }

  lemma FromThree(z: Tree, p: Tree, a: Tree, b: Tree, c: Tree, two: Forest, g: Forest, t: Tree)
    returns (x: Tree, y: Tree)
    requires z.frequency == 0 && Weighed(z) && Trio(a, b, c) && p == Join(z, c) && two == multiset{a} + multiset{b}
    requires g == multiset{p} + two && Merges(g, t)
    ensures ((x == a && y == b) || (x == b && y == a)) && Lopsided(t, x, y, z, c)
  {
    TakeOutOne(p, two);
    TakeOutOne(a, multiset{b});
    var h := GoOn(g, t);
    x, y := SecondLast(p, a, b, two, h);
    var q := Join(p, y);
    TakeOutOne(x, multiset{q});
    var i := GoOn(h, t);
    Last(x, q, i);
    OneLeft(Join(x, q), i, t);
  }

  lemma OneRound(f: Forest, zeros: Forest, others: Forest, t: Tree) returns (g: Forest, fewer: Forest)
    requires ZerosAnd(f, zeros, others) && |zeros| >= 2 && Merges(f, t)
    ensures ZerosAnd(g, fewer, others) && |fewer| == |zeros| - 1 && Merges(g, t)
  {
    assert |f| == |zeros| + |others|;
    g := GoOn(f, t);
    var l, r :| MergeOf(f, l, r, g);
    fewer := ZerosMerged(f, zeros, others, l, r, g);
  }

  /** However ties fall, the zeros are merged first. */
  lemma {:induction false} ZerosFirst(f: Forest, zeros: Forest, others: Forest, t: Tree) returns (z: Tree)
    requires ZerosAnd(f, zeros, others) && Merges(f, t)
    ensures z.frequency == 0 && Weighed(z) && Merges(multiset{z} + others, t)
    decreases |zeros|
  {
    if |zeros| == 1 {
      z := OnlyOne(zeros);
      assert z in zeros;
    } else {
      var g, fewer := OneRound(f, zeros, others, t);
      z := ZerosFirst(g, fewer, others, t);
    }
  }

  /** Only the first three letters of the table occur. */
  predicate ThreeLetters(text: string) {
    forall i :: 0 <= i < |text| ==> text[i] == 'A' || text[i] == 'B' || text[i] == 'C'
  }

  /** How often a letter occurs, as a leaf. */
  function CountLeaf(text: string, c: char): Tree {
    Leaf(c, multiset(text)[c])
  }

  lemma FirstThree(text: string, s: seq<Tree>)
    requires ThreeLetters(text) && s == LeafTrees(LETTERS, Counts(text, LETTERS))
    ensures OverAlphabet(text)
    ensures forall i :: 3 <= i < LETTER_COUNT ==> s[i].frequency == 0 && Weighed(s[i])
    ensures s[0] == CountLeaf(text, 'A') && s[1] == CountLeaf(text, 'B') && s[2] == CountLeaf(text, 'C')
  {
    LetterTable();
    assert LETTERS[0] == 'A' && LETTERS[1] == 'B' && LETTERS[2] == 'C';
    forall i | 3 <= i < LETTER_COUNT ensures s[i].frequency == 0 && Weighed(s[i]) {
      assert LETTERS[i] !in text;
    }
  }

  /** The one-node trees for such a text. */
  lemma StartOfThree(text: string, s: seq<Tree>, a: Tree, b: Tree, c: Tree, two: Forest) returns (zeros: Forest)
    requires ThreeLetters(text) && s == LeafTrees(LETTERS, Counts(text, LETTERS)) && two == multiset{a} + multiset{b}
    requires a == CountLeaf(text, 'A') && b == CountLeaf(text, 'B') && c == CountLeaf(text, 'C') && Trio(a, b, c)
    ensures ZerosAnd(multiset(s), zeros, multiset{c} + two)
  {
    FirstThree(text, s);
    zeros := multiset(s[3..]);
    StartSplit(s, a, b, c);
    assert |zeros| == |s[3..]|;
    forall z | z in zeros ensures z.frequency == 0 && Weighed(z) {
      var i :| 3 <= i < LETTER_COUNT && s[i] == z;
    }
  }

  lemma StartSplit<T>(s: seq<T>, a: T, b: T, c: T)
    requires |s| >= 3 && s[0] == a && s[1] == b && s[2] == c
    ensures multiset(s) == multiset(s[3..]) + (multiset{c} + (multiset{a} + multiset{b}))
  {
    assert s == [a, b, c] + s[3..];
    assert multiset([a, b, c]) == multiset{c} + (multiset{a} + multiset{b});
  }

  lemma {:induction false} NothingCosts(t: Tree)
    requires Weight(t) == 0
    ensures Cost(t) == 0
  {
    if t.Node? {
      NothingCosts(t.left);
      NothingCosts(t.right);
    }
  }

  lemma LopsidedCost(t: Tree, x: Tree, y: Tree, z: Tree, c: Tree)
    requires x.Leaf? && y.Leaf? && c.Leaf? && Lopsided(t, x, y, z, c)
    ensures Cost(t) == x.frequency + 2 * y.frequency + 3 * c.frequency && LeftmostDepth(t) == 1
  {
    NothingCosts(z);
    var p := Join(z, c);
    assert Weight(p) == c.frequency && Cost(p) == c.frequency;
    var q := Join(p, y);
    assert Weight(q) == c.frequency + y.frequency && Cost(q) == 2 * c.frequency + y.frequency;
    assert t == Join(x, q);
    assert LeftmostDepth(x) == 0;
  }

  /** The cost of codes of one, two and three bits, the longer ones for the rarer letters. */
  function ThreeLetterCost(a: nat, b: nat, c: nat): nat {
    a + b + (if a < b then a else b) + 3 * c
  }

  /** However ties fall, the tree of a text of three letters, of which one is rarest and the other two differ by
      less than it counts, has a letter with a code of one bit on the left, and codes of one, two and three bits. */
  lemma ThreeLetterTree(text: string, t: Tree)
    requires ThreeLetters(text) && Trio(CountLeaf(text, 'A'), CountLeaf(text, 'B'), CountLeaf(text, 'C'))
    requires TreeFor(t, text)
    ensures Cost(t) == ThreeLetterCost(multiset(text)['A'], multiset(text)['B'], multiset(text)['C'])
    ensures LeftmostDepth(t) == 1
  {
    var a, b, c := CountLeaf(text, 'A'), CountLeaf(text, 'B'), CountLeaf(text, 'C');
    var s := LeafTrees(LETTERS, Counts(text, LETTERS));
    var two := multiset{a} + multiset{b};
    var zeros := StartOfThree(text, s, a, b, c, two);
    var z := ZerosFirst(multiset(s), zeros, multiset{c} + two, t);
    var x, y := FromFour(z, a, b, c, two, multiset{z} + (multiset{c} + two), t);
    LopsidedCost(t, x, y, z, c);
  }

  /** The counts of the letters of a text. */
  ghost predicate HasCounts(text: string, a: nat, b: nat, c: nat) {
    ThreeLetters(text) && multiset(text)['A'] == a && multiset(text)['B'] == b && multiset(text)['C'] == c
  }

  // A text for which the buffer is too short.

  const EXAMPLE: string := "AABBC"

  lemma ExampleCounts()
    ensures HasCounts(EXAMPLE, 2, 2, 1) && |EXAMPLE| == 5
  {
    assert EXAMPLE == ['A', 'A', 'B', 'B', 'C'];
  }

  lemma BitsOfText(t: Tree, text: string)
    requires TreeFor(t, text)
    ensures t.Node? && Encodable(t, text) && |EncodeBits(t, text)| == Cost(t)
  {
    TreeForText(t, text);
    AlphabetTreeLetters(t);
  }

  /** Under a leftmost leaf at depth 1 every zero is a letter. */
  lemma EveryZeroCounts(t: Tree, text: string, file: seq<Byte>, zeros: nat)
    requires t.Node? && DecodesTo(file, |text|, text + Surplus(t, zeros)) && LeftmostDepth(t) == 1
    ensures |Decoded(file)| == |text| + zeros
  {
    assert zeros / 1 == zeros;
  }

  /** All padding bits of the file of a text are surplus letters if the leftmost leaf is at depth 1. */
  lemma PaddingCounts(t: Tree, text: string, file: seq<Byte>)
    requires CompressedWith(t, text, file) && LeftmostDepth(t) == 1
    ensures t.Node? && Encodable(t, text) && |EncodeBits(t, text)| == Cost(t)
    ensures ValidFile(file) && TextField(file) == |text|
    ensures |Decoded(file)| == |text| + PadLength(EncodeBits(t, text))
  {
    BitsOfText(t, text);
    RoundTrip(t, text, file);
    EveryZeroCounts(t, text, file, PadLength(EncodeBits(t, text)));
  }

  lemma PadOfNine(bits: Bits)
    requires |bits| == 9
    ensures PadLength(bits) == 7
  {
  }

  lemma SomeFile(text: string) returns (t: Tree, file: seq<Byte>)
    requires OverAlphabet(text) && |text| < 0x8000_0000
    ensures CompressedWith(t, text, file)
  {
    t := SomeTree(text);
    TotalLengthFits(text, t);
    file := FileOf(t, text);
  }

  lemma NineBits(text: string, u: Tree, f: seq<Byte>)
    requires HasCounts(text, 2, 2, 1) && |text| == 5 && CompressedWith(u, text, f)
    ensures ValidFile(f) && |Decoded(f)| == 12 && !StoresInside(f)
  {
    ThreeLetterTree(text, u);
    PaddingCounts(u, text, f);
    PadOfNine(EncodeBits(u, text));
  }

  lemma AllOverrun(text: string)
    requires HasCounts(text, 2, 2, 1) && |text| == 5
    ensures OverAlphabet(text)
    ensures forall u, f :: CompressedWith(u, text, f) ==> ValidFile(f) && |Decoded(f)| == 12 && !StoresInside(f)
  {
    FirstThree(text, LeafTrees(LETTERS, Counts(text, LETTERS)));
    forall u, f | CompressedWith(u, text, f) ensures ValidFile(f) && |Decoded(f)| == 12 && !StoresInside(f) {
      NineBits(text, u, f);
    }
  }

  /** Seven surplus letters do occur: there is a file of this text, and in every file that the compressor may
      write for it, however ties fall, the decoder stores twelve letters into a buffer of six. */
  lemma OutputBufferOverrun() returns (t: Tree, file: seq<Byte>)
    ensures CompressedWith(t, EXAMPLE, file)
    ensures forall u, f :: CompressedWith(u, EXAMPLE, f) ==> ValidFile(f) && |Decoded(f)| == 12 && !StoresInside(f)
  {
    ExampleCounts();
    AllOverrun(EXAMPLE);
    t, file := SomeFile(EXAMPLE);
  }
}
