/** How large the output gets, and that it could not be smaller. */
module Limits {
  import opened Alphabet
  import opened Trees
  import opened Forests
  import opened Optimality
  import opened PrefixCodes
  import opened Bytes
  import opened CodeTables
  import opened Coding
  import opened FileFormat

  /** The tree with the letter counts of a text on its leaves. */
  function Reweigh(t: Tree, text: string): Tree {
    match t
    case Leaf(c, _) => Leaf(c, multiset(text)[c])
    case Node(f, l, r) => Node(f, Reweigh(l, text), Reweigh(r, text))
  }

  /** One more letter costs the length of its code. */
  lemma {:induction false} ReweighGrow(t: Tree, text: string, c: char)
    requires Distinct(Letters(t))
    ensures Weight(Reweigh(t, text + [c])) == Weight(Reweigh(t, text)) + if c in Letters(t) then 1 else 0
    ensures Cost(Reweigh(t, text + [c])) == Cost(Reweigh(t, text)) + if c in Letters(t) then |Code(t, c)| else 0
  {
    match t
    case Leaf(d, _) =>
      assert multiset(text + [c]) == multiset(text) + multiset{c};
    case Node(_, l, r) =>
      DistinctParts(Letters(l), Letters(r));
      ReweighGrow(l, text, c);
      ReweighGrow(r, text, c);
  }

  lemma {:induction false} ReweighEmpty(t: Tree)
    ensures Weight(Reweigh(t, [])) == 0 && Cost(Reweigh(t, [])) == 0
  {
    if t.Node? {
      ReweighEmpty(t.left);
      ReweighEmpty(t.right);
    }
  }

  /** The length of an encoded text is the cost of the tree weighed with that text. */
  lemma {:induction false} EncodedLength(t: Tree, text: string)
    requires Distinct(Letters(t)) && Encodable(t, text)
    ensures |EncodeBits(t, text)| == Cost(Reweigh(t, text))
  {
    if text == [] {
      ReweighEmpty(t);
    } else {
      var n := |text| - 1;
      assert text == text[..n] + [text[n]];
      EncodedLength(t, text[..n]);
      ReweighGrow(t, text[..n], text[n]);
    }
  }

  lemma {:induction false} ReweighSame(t: Tree, text: string)
    requires forall leaf :: leaf in Leaves(t) ==> leaf.Leaf? && leaf.frequency == multiset(text)[leaf.letter]
    ensures Cost(Reweigh(t, text)) == Cost(t) && Weight(Reweigh(t, text)) == Weight(t)
  {
    match t
    case Leaf(_, _) =>
      assert t in Leaves(t);
    case Node(_, l, r) =>
      assert forall leaf :: leaf in Leaves(l) ==> leaf in Leaves(t);
      assert forall leaf :: leaf in Leaves(r) ==> leaf in Leaves(t);
      ReweighSame(l, text);
      ReweighSame(r, text);
  }

  /** The trees the compressor may build for a text. */
  ghost predicate TreeFor(t: Tree, text: string) {
    OverAlphabet(text) && HuffmanTree(LETTERS, Counts(text, LETTERS), t)
  }

  lemma LeavesCounted(letters: string, t: Tree, text: string)
    requires HuffmanTree(letters, Counts(text, letters), t)
    ensures multiset(Letters(t)) == multiset(letters)
    ensures forall leaf :: leaf in Leaves(t) ==> leaf.Leaf? && leaf.frequency == multiset(text)[leaf.letter]
  {
    var counts := Counts(text, letters);
    HuffmanTreeLeaves(letters, counts, t);
    forall leaf | leaf in Leaves(t) ensures leaf.Leaf? && leaf.frequency == multiset(text)[leaf.letter] {
      LeafCounted(letters, text, leaf);
    }
  }

  lemma LeafCounted(letters: string, text: string, leaf: Tree)
    requires leaf in multiset(LeafTrees(letters, Counts(text, letters)))
    ensures leaf.Leaf? && leaf.frequency == multiset(text)[leaf.letter]
  {
    LeafTreesMember(letters, Counts(text, letters), leaf);
  }

  lemma TreeForText(t: Tree, text: string)
    requires TreeFor(t, text)
    ensures AlphabetTree(t) && Encodable(t, text)
    ensures |Print(t)| == 167
    ensures |EncodeBits(t, text)| == Cost(t)
  {
    LeavesCounted(LETTERS, t, text);
    AlphabetTreeLetters(t);
    EncodedLength(t, text);
    ReweighSame(t, text);
  }

  lemma {:induction false} TextWeight(t: Tree, text: string)
    requires Distinct(Letters(t)) && Encodable(t, text)
    ensures Weight(Reweigh(t, text)) == |text|
  {
    if text == [] {
      ReweighEmpty(t);
    } else {
      var n := |text| - 1;
      assert text == text[..n] + [text[n]];
      TextWeight(t, text[..n]);
      ReweighGrow(t, text[..n], text[n]);
    }
  }

  /** No node of the tree counts more than `n`. */
  predicate CountsAtMost(t: Tree, n: nat) {
    t.frequency <= n && (t.Node? ==> CountsAtMost(t.left, n) && CountsAtMost(t.right, n))
  }

  lemma {:induction false} WeighedAtMost(t: Tree, n: nat)
    requires Weighed(t) && t.frequency <= n
    ensures CountsAtMost(t, n)
  {
    if t.Node? {
      WeighedAtMost(t.left, n);
      WeighedAtMost(t.right, n);
    }
  }

  /** The root counts every letter of the text, and no node counts more: the sums fit whatever type can hold
      the length of the text. */
  lemma FrequenciesFit(t: Tree, text: string)
    requires TreeFor(t, text)
    ensures t.frequency == |text| && CountsAtMost(t, |text|)
  {
    TreeForText(t, text);
    AlphabetTreeLetters(t);
    HuffmanTreeLeaves(LETTERS, Counts(text, LETTERS), t);
    LeavesCounted(LETTERS, t, text);
    ReweighSame(t, text);
    TextWeight(t, text);
    WeighedAtMost(t, |text|);
  }

  /** The codes of the letters of the table, in table order. */
  function CodeList(t: Tree, letters: string): (codes: seq<Bits>)
    requires forall c :: c in letters ==> c in Letters(t)
    ensures |codes| == |letters|
  {
    seq(|letters|, i requires 0 <= i < |letters| => Code(t, letters[i]))
  }

  lemma {:induction false} BitsSpentGrow(frequencies: seq<nat>, codes: seq<Bits>, j: nat)
    requires |frequencies| == |codes| && j < |codes|
    ensures BitsSpent(Words(frequencies[j := frequencies[j] + 1], codes))
         == BitsSpent(Words(frequencies, codes)) + |codes[j]|
  {
    var more := frequencies[j := frequencies[j] + 1];
    assert Words(more, codes)[1..] == Words(more[1..], codes[1..]);
    assert Words(frequencies, codes)[1..] == Words(frequencies[1..], codes[1..]);
    if j == 0 {
      assert more[1..] == frequencies[1..];
      assert (frequencies[0] + 1) * |codes[0]| == frequencies[0] * |codes[0]| + |codes[0]|;
    } else {
      assert more[1..] == frequencies[1..][j - 1 := frequencies[1..][j - 1] + 1];
      BitsSpentGrow(frequencies[1..], codes[1..], j - 1);
    }
  }

  lemma {:induction false} BitsSpentNothing(frequencies: seq<nat>, codes: seq<Bits>)
    requires |frequencies| == |codes| && forall i :: 0 <= i < |codes| ==> frequencies[i] == 0
    ensures BitsSpent(Words(frequencies, codes)) == 0
  {
    if codes != [] {
      assert Words(frequencies, codes)[1..] == Words(frequencies[1..], codes[1..]);
      BitsSpentNothing(frequencies[1..], codes[1..]);
    }
  }

  /** The number of bits is the sum over the letters of occurrences times code length. */
  lemma {:induction false} EncodedLengthIsSum(t: Tree, text: string, letters: string)
    requires Distinct(letters) && forall c :: c in letters ==> c in Letters(t)
    requires forall i :: 0 <= i < |text| ==> text[i] in letters
    ensures Encodable(t, text)
    ensures |EncodeBits(t, text)| == BitsSpent(Words(Counts(text, letters), CodeList(t, letters)))
  {
    if text == [] {
      BitsSpentNothing(Counts(text, letters), CodeList(t, letters));
    } else {
      var n := |text| - 1;
      assert text == text[..n] + [text[n]];
      EncodedLengthIsSum(t, text[..n], letters);
      var j :| 0 <= j < |letters| && letters[j] == text[n];
      CountsGrow(text[..n], letters, j);
      BitsSpentGrow(Counts(text[..n], letters), CodeList(t, letters), j);
    }
  }

  /** The payload takes exactly that many bits, rounded up to whole bytes, and no prefix-free
      code for the 56 letters gives fewer bytes. */
  lemma PayloadExactAndMinimal(t: Tree, text: string, codes: seq<Bits>)
    requires TreeFor(t, text)
    requires |codes| == |LETTERS| && PrefixFreeWords(Words(Counts(text, LETTERS), codes))
    ensures Encodable(t, text) && forall c :: c in LETTERS ==> c in Letters(t)
    ensures |Payload(t, text)| == (BitsSpent(Words(Counts(text, LETTERS), CodeList(t, LETTERS))) + 7) / 8
    ensures |Payload(t, text)| <= (BitsSpent(Words(Counts(text, LETTERS), codes)) + 7) / 8
  {
    LetterTable();
    TreeForText(t, text);
    AlphabetTreeLetters(t);
    EncodedLengthIsSum(t, text, LETTERS);
    UnpackPack(EncodeBits(t, text));
    NoPrefixCodeIsShorter(LETTERS, Counts(text, LETTERS), t, codes);
  }

  // The upper bound: a particular tree of depth six.

  function Sum(ws: seq<nat>): nat {
    if ws == [] then 0 else Sum(ws[..|ws| - 1]) + ws[|ws| - 1]
  }

  lemma {:induction false} SumConcat(a: seq<nat>, b: seq<nat>)
    ensures Sum(a + b) == Sum(a) + Sum(b)
  {
    if b == [] {
      assert a + b == a;
    } else {
      var n := |b| - 1;
      assert (a + b)[..|a + b| - 1] == a + b[..n];
      SumConcat(a, b[..n]);
    }
  }

  lemma {:induction false} SumIncrement(ws: seq<nat>, j: nat)
    requires j < |ws|
    ensures Sum(ws[j := ws[j] + 1]) == Sum(ws) + 1
  {
    var n := |ws| - 1;
    if j < n {
      assert ws[j := ws[j] + 1][..n] == ws[..n][j := ws[..n][j] + 1];
      SumIncrement(ws[..n], j);
    } else {
      assert ws[j := ws[j] + 1][..n] == ws[..n];
    }
  }

  lemma {:induction false} SumZero(ws: seq<nat>)
    requires forall i :: 0 <= i < |ws| ==> ws[i] == 0
    ensures Sum(ws) == 0
  {
    if ws != [] { SumZero(ws[..|ws| - 1]); }
  }

  /** All letters of the text are counted, once. */
  lemma {:induction false} CountsSum(text: string, letters: string)
    requires Distinct(letters) && forall i :: 0 <= i < |text| ==> text[i] in letters
    ensures Sum(Counts(text, letters)) == |text|
  {
    if text == [] {
      SumZero(Counts(text, letters));
    } else {
      var n := |text| - 1;
      CountsSum(text[..n], letters);
      var j :| 0 <= j < |letters| && letters[j] == text[n];
      assert text == text[..n] + [letters[j]];
      CountsGrow(text[..n], letters, j);
      SumIncrement(Counts(text[..n], letters), j);
    }
  }

  /** A tree with all leaves at depth `k`. */
  function Perfect(ws: seq<nat>, k: nat): Tree
    requires |ws| == Pow2(k)
  {
    if k == 0 then Leaf('$', ws[0])
    else Node(0, Perfect(ws[..Pow2(k - 1)], k - 1), Perfect(ws[Pow2(k - 1)..], k - 1))
  }

  lemma {:induction false} PerfectWeights(ws: seq<nat>, k: nat)
    requires |ws| == Pow2(k)
    ensures Weights(Perfect(ws, k)) == multiset(ws)
  {
    if k == 0 {
      assert ws == [ws[0]];
      assert multiset([ws[0]]) == multiset{ws[0]};
    } else {
      var h := Pow2(k - 1);
      PerfectWeights(ws[..h], k - 1);
      PerfectWeights(ws[h..], k - 1);
      assert ws == ws[..h] + ws[h..];
    }
  }

  lemma OneMoreEach(k: nat, x: nat, y: nat)
    requires k > 0
    ensures (k - 1) * x + (k - 1) * y + x + y == k * (x + y)
  {
  }

  lemma {:induction false} PerfectCost(ws: seq<nat>, k: nat)
    requires |ws| == Pow2(k)
    ensures Weight(Perfect(ws, k)) == Sum(ws) && Cost(Perfect(ws, k)) == k * Sum(ws)
  {
    if k == 0 {
      assert ws[..0] == [];
    } else {
      var h := Pow2(k - 1);
      PerfectCost(ws[..h], k - 1);
      PerfectCost(ws[h..], k - 1);
      SumConcat(ws[..h], ws[h..]);
      assert ws == ws[..h] + ws[h..];
      OneMoreEach(k, Sum(ws[..h]), Sum(ws[h..]));
    }
  }

  /** Eight leaves at depth five and forty-eight at depth six. */
  function SixLevels(group: seq<nat>, rest: seq<nat>): Tree
    requires |group| == 8 && |rest| == 48
  {
    Powers();
    Node(0,
      Node(0, Perfect(group, 3), Perfect(rest[..16], 4)),
      Node(0, Perfect(rest[16..32], 4), Perfect(rest[32..], 4)))
  }

  lemma Powers()
    ensures Pow2(3) == 8 && Pow2(4) == 16
  {
    assert Pow2(3) == 2 * Pow2(2) == 4 * Pow2(1) == 8;
  }

  lemma SixLevelsWeights(group: seq<nat>, rest: seq<nat>)
    requires |group| == 8 && |rest| == 48
    ensures Weights(SixLevels(group, rest)) == multiset(group) + multiset(rest)
  {
    Powers();
    var a, b, c := rest[..16], rest[16..32], rest[32..];
    PerfectWeights(group, 3);
    PerfectWeights(a, 4);
    PerfectWeights(b, 4);
    PerfectWeights(c, 4);
    assert rest == a + (b + c);
    Regroup(multiset(group), multiset(a), multiset(b) + multiset(c));
  }

  lemma SixLevelsCost(group: seq<nat>, rest: seq<nat>)
    requires |group| == 8 && |rest| == 48
    ensures Cost(SixLevels(group, rest)) == 5 * Sum(group) + 6 * Sum(rest)
  {
    Powers();
    var a, b, c := rest[..16], rest[16..32], rest[32..];
    PerfectCost(group, 3);
    PerfectCost(a, 4);
    PerfectCost(b, 4);
    PerfectCost(c, 4);
    assert rest == a + (b + c);
    SumConcat(b, c);
    SumConcat(a, b + c);
  }

  /** One of the seven groups of eight holds at least a seventh of the total. */
  lemma HeavyGroup(ws: seq<nat>) returns (g: nat)
    requires |ws| == 56
    ensures g < 7 && 7 * Sum(ws[8 * g..8 * g + 8]) >= Sum(ws)
  {
    var total := Sum(ws);
    g := 0;
    while g < 6 && 7 * Sum(ws[8 * g..8 * g + 8]) < total
      invariant g <= 6 && 7 * Sum(ws[..8 * g]) <= g * total
    {
      PrefixSum(ws, 8 * g);
      g := g + 1;
    }
    if g == 6 {
      PrefixSum(ws, 48);
      assert ws[..56] == ws;
    }
  }

  lemma PrefixSum(ws: seq<nat>, n: nat)
    requires n + 8 <= |ws|
    ensures Sum(ws[..n + 8]) == Sum(ws[..n]) + Sum(ws[n..n + 8])
  {
    assert ws[..n + 8] == ws[..n] + ws[n..n + 8];
    SumConcat(ws[..n], ws[n..n + 8]);
  }

  /** Some tree for 56 frequencies costs at most 41/7 of their sum. */
  lemma CheapTree(ws: seq<nat>) returns (u: Tree)
    requires |ws| == 56
    ensures Weights(u) == multiset(ws) && 7 * Cost(u) <= 41 * Sum(ws)
  {
    var g := HeavyGroup(ws);
    var group, front, back := ws[8 * g..8 * g + 8], ws[..8 * g], ws[8 * g + 8..];
    u := SixLevels(group, front + back);
    SixLevelsWeights(group, front + back);
    SixLevelsCost(group, front + back);
    assert ws == front + (group + back);
    SumConcat(front, back);
    SumConcat(group, back);
    SumConcat(front, group + back);
    MiddleFirst(multiset(front), multiset(group), multiset(back));
  }

  lemma MiddleFirst<T>(a: multiset<T>, b: multiset<T>, c: multiset<T>)
    ensures a + (b + c) == b + (a + c)
  {
  }

  /** No text takes more than 41/7 bits a letter. */
  lemma AverageBound(t: Tree, text: string)
    requires TreeFor(t, text)
    ensures 7 * Cost(t) <= 41 * |text|
  {
    var ws := Counts(text, LETTERS);
    CountsSum(text, LETTERS) by { LetterTable(); }
    var u := CheapTree(ws);
    HuffmanOptimal(LETTERS, ws, t, u);
  }

  /** All three length fields can hold their values. */
  lemma TotalLengthFits(text: string, t: Tree)
    requires TreeFor(t, text) && |text| < 0x8000_0000
    ensures AlphabetTree(t) && LengthsFit(t, text)
  {
    TreeForText(t, text);
    AverageBound(t, text);
    UnpackPack(EncodeBits(t, text));
  }

  // The lower bound: no tree serves an evenly mixed text well.

  /** The chord of 2 to the power -d through d = 5 and d = 6 lies below the curve. */
  lemma Chord(d: nat)
    ensures d as real >= 7.0 - 64.0 * Half(d)
    ensures 2.0 * d as real >= 12.0 - 64.0 * Half(d)
  {
    if d <= 7 {
      assert Half(7) * 128.0 == Half(6) * 64.0 == Half(5) * 32.0 == Half(4) * 16.0
          == Half(3) * 8.0 == Half(2) * 4.0 == Half(1) * 2.0 == 1.0;
    }
  }

  /** The lengths of the codes of some letters, from below, with a bonus for a short one. */
  lemma {:induction false} LengthsFromBelow(t: Tree, cs: string, c: char)
    requires Encodable(t, cs) && forall x :: x in cs ==> x in Letters(t)
    ensures |EncodeBits(t, cs)| as real >= 7.0 * |cs| as real - 64.0 * KraftSum(t, cs)
    ensures c in cs ==>
              |EncodeBits(t, cs)| as real >= 7.0 * |cs| as real - 64.0 * KraftSum(t, cs) + 5.0 - |Code(t, c)| as real
  {
    if cs != [] {
      var n := |cs| - 1;
      var front, last := cs[..n], cs[n];
      assert cs == front + [last];
      LengthsFromBelow(t, front, c);
      KraftSumConcat(t, front, [last]);
      assert KraftSum(t, [last]) == Half(|Code(t, last)|) by { assert [last][1..] == []; }
      Chord(|Code(t, last)|);
    }
  }

  /** The encoded length only depends on how often each letter occurs. */
  lemma SameLetters(t: Tree, a: string, b: string)
    requires Distinct(Letters(t)) && Encodable(t, a) && Encodable(t, b)
    requires multiset(a) == multiset(b)
    ensures |EncodeBits(t, a)| == |EncodeBits(t, b)|
  {
    EncodedLength(t, a);
    EncodedLength(t, b);
    ReweighByMultiset(t, a, b);
  }

  lemma {:induction false} ReweighByMultiset(t: Tree, a: string, b: string)
    requires multiset(a) == multiset(b)
    ensures Reweigh(t, a) == Reweigh(t, b)
  {
    if t.Node? {
      ReweighByMultiset(t.left, a, b);
      ReweighByMultiset(t.right, a, b);
    }
  }

  /** The whole alphabet takes at least 328 bits, more if some code is shorter than five. */
  lemma AlphabetCost(t: Tree, c: char)
    requires AlphabetTree(t) && c in LETTERS
    ensures Encodable(t, LETTERS) && c in Letters(t)
    ensures |EncodeBits(t, LETTERS)| >= 328 && |EncodeBits(t, LETTERS)| + |Code(t, c)| >= 333
  {
    AlphabetTreeLetters(t);
    SameLetters(t, LETTERS, Letters(t));
    KraftEquality(t);
    LengthsFromBelow(t, Letters(t), c);
  }

  function Copies(n: nat): (s: string)
    ensures |s| == LETTER_COUNT * n && OverAlphabet(s)
  {
    if n == 0 then [] else Copies(n - 1) + LETTERS
  }

  lemma {:induction false} EncodeConcat(t: Tree, a: string, b: string)
    requires Encodable(t, a) && Encodable(t, b)
    ensures Encodable(t, a + b) && EncodeBits(t, a + b) == EncodeBits(t, a) + EncodeBits(t, b)
  {
    if b == [] {
      assert a + b == a;
    } else {
      var n := |b| - 1;
      assert (a + b)[..|a + b| - 1] == a + b[..n];
      EncodeConcat(t, a, b[..n]);
      Associate(EncodeBits(t, a), EncodeBits(t, b[..n]), Code(t, b[n]));
    }
  }

  lemma {:induction false} CopiesCost(t: Tree, n: nat)
    requires Encodable(t, LETTERS)
    ensures Encodable(t, Copies(n)) && |EncodeBits(t, Copies(n))| == n * |EncodeBits(t, LETTERS)|
  {
    if n > 0 {
      CopiesCost(t, n - 1);
      OneMoreCopy(t, Copies(n - 1), LETTERS, n);
    }
  }

  lemma OneMoreCopy(t: Tree, a: string, b: string, n: nat)
    requires n > 0 && Encodable(t, a) && Encodable(t, b)
    requires |EncodeBits(t, a)| == (n - 1) * |EncodeBits(t, b)|
    ensures Encodable(t, a + b) && |EncodeBits(t, a + b)| == n * |EncodeBits(t, b)|
  {
    EncodeConcat(t, a, b);
  }

  /** 1594 copies of the alphabet, its first five letters once more, and filling. */
  function MixedText(n: nat): (s: string)
    requires n >= 89269
    ensures |s| == n && OverAlphabet(s)
  {
    (Copies(1594) + LETTERS[..5]) + Repeat(LETTERS[0], n - 89269)
  }

  /** With the alphabet at its cheapest, every code has at least five bits. */
  lemma {:induction false} FirstLetters(t: Tree, k: nat)
    requires AlphabetTree(t) && k <= LETTER_COUNT
    requires Encodable(t, LETTERS) && |EncodeBits(t, LETTERS)| == 328
    ensures |EncodeBits(t, LETTERS[..k])| >= 5 * k
  {
    if k > 0 {
      FirstLetters(t, k - 1);
      AlphabetCost(t, LETTERS[k - 1]);
      assert LETTERS[..k][..k - 1] == LETTERS[..k - 1];
    }
  }

  lemma MixedTextCost(t: Tree, n: nat)
    requires AlphabetTree(t) && n >= 89269
    ensures Encodable(t, MixedText(n)) && |EncodeBits(t, MixedText(n))| >= 522857
  {
    AlphabetCost(t, LETTERS[0]);
    CopiesCost(t, 1594);
    if |EncodeBits(t, LETTERS)| == 328 { FirstLetters(t, 5); }
    EncodeConcat(t, Copies(1594), LETTERS[..5]);
    EncodeConcat(t, Copies(1594) + LETTERS[..5], Repeat(LETTERS[0], n - 89269));
  }

  /** The output buffer of the server. */
  const BUFFER_SIZE: nat := 65536

  /** The whole file fits the output buffer. */
  ghost predicate FitsBuffer(t: Tree, text: string) {
    Encodable(t, text) && TotalLength(t, text) <= BUFFER_SIZE
  }

  lemma FitsWhenShort(t: Tree, text: string)
    requires TreeFor(t, text) && |text| <= 89268
    ensures FitsBuffer(t, text)
  {
    TreeForText(t, text);
    AverageBound(t, text);
    UnpackPack(EncodeBits(t, text));
  }

  /** Every text of a given length fits the buffer if and only if the length is at most 89268. */
  lemma ExactBufferBound(n: nat)
    ensures (forall text: string, t: Tree :: |text| == n && TreeFor(t, text) ==> FitsBuffer(t, text)) <==> n <= 89268
  {
    if n <= 89268 {
      forall text: string, t: Tree | |text| == n && TreeFor(t, text) ensures FitsBuffer(t, text) {
        FitsWhenShort(t, text);
      }
    } else {
      var text := MixedText(n);
      var t := SomeTree(text);
      TreeForText(t, text);
      MixedTextCost(t, n);
      UnpackPack(EncodeBits(t, text));
      assert !FitsBuffer(t, text);
    }
  }

  lemma SomeTree(text: string) returns (t: Tree)
    requires OverAlphabet(text)
    ensures TreeFor(t, text)
  {
    LetterTable();
    var leaves := LeafTrees(LETTERS, Counts(text, LETTERS));
    assert leaves[0] in multiset(leaves);
    t := SomeMerge(multiset(leaves));
  }

  /** The merge loop can always go on until one tree is left. */
  lemma {:induction false} SomeMerge(f: Forest) returns (t: Tree)
    requires |f| >= 1
    ensures Merges(f, t)
    decreases |f|
  {
    if |f| == 1 {
      t := SomeLeast(f);
      assert |f - multiset{t}| == 0;
      assert f == multiset{t};
    } else {
      var g := SomeStep(f);
      t := SomeMerge(g);
    }
  }

  lemma SomeStep(f: Forest) returns (g: Forest)
    requires |f| >= 2
    ensures MergeStep(f, g) && |g| == |f| - 1
  {
    var l := SomeLeast(f);
    var r := SomeLeast(f - multiset{l});
    g := f - multiset{l} - multiset{r} + multiset{Join(l, r)};
    assert MergeOf(f, l, r, g);
  }

  lemma {:induction false} SomeLeast(f: Forest) returns (l: Tree)
    requires |f| >= 1
    ensures Least(l, f)
    decreases |f|
  {
    var t :| t in f;
    var rest := f - multiset{t};
    assert f == rest + multiset{t};
    if |f| == 1 {
      assert |rest| == 0;
      l := t;
    } else {
      var m := SomeLeast(rest);
      l := if m.frequency < t.frequency then m else t;
      forall u | u in f ensures l.frequency <= u.frequency {
        if u != t { assert u in rest; }
      }
    }
  }
}
