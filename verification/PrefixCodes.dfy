/** No prefix-free code whatsoever encodes a text in fewer bits than the Huffman tree. */
module PrefixCodes {
  import opened Trees
  import opened Forests
  import opened Optimality

  /** A code word with the number of times it is used. */
  datatype Word = Word(weight: nat, bits: Bits)

  predicate Apart(a: Bits, b: Bits) {
    !(a <= b) && !(b <= a)
  }

  /** No word is a prefix of a word at another place. */
  ghost predicate PrefixFreeWords(ws: seq<Word>) {
    forall i, j :: 0 <= i < j < |ws| ==> Apart(ws[i].bits, ws[j].bits)
  }

  /** The number of bits spent by all uses of all words. */
  function BitsSpent(ws: seq<Word>): nat {
    if ws == [] then 0 else ws[0].weight * |ws[0].bits| + BitsSpent(ws[1..])
  }

  function WordWeights(ws: seq<Word>): multiset<nat> {
    if ws == [] then multiset{} else multiset{ws[0].weight} + WordWeights(ws[1..])
  }

  function WordWeight(ws: seq<Word>): nat {
    if ws == [] then 0 else ws[0].weight + WordWeight(ws[1..])
  }

  /** The digits of all words together; what the construction below shortens. */
  function Digits(ws: seq<Word>): nat {
    if ws == [] then 0 else |ws[0].bits| + Digits(ws[1..])
  }

  ghost predicate NonEmptyWords(ws: seq<Word>) {
    forall w :: w in ws ==> w.bits != []
  }

  /** The words that start with `b`, with that digit taken off. */
  ghost function Select(ws: seq<Word>, b: bool): (r: seq<Word>)
    requires NonEmptyWords(ws)
    ensures forall w :: w in r ==> Word(w.weight, [b] + w.bits) in ws
  {
    if ws == [] then []
    else
      var tail := Select(ws[1..], b);
      if ws[0].bits[0] == b then
        assert ws[0] == Word(ws[0].weight, [b] + ws[0].bits[1..]);
        [Word(ws[0].weight, ws[0].bits[1..])] + tail
      else tail
  }

  lemma {:induction false} SelectCounts(ws: seq<Word>)
    requires NonEmptyWords(ws)
    ensures var (f, t) := (Select(ws, false), Select(ws, true));
            && Digits(f) + Digits(t) + |ws| == Digits(ws)
            && WordWeight(f) + WordWeight(t) == WordWeight(ws)
  {
    if ws != [] {
      SelectCounts(ws[1..]);
      assert Select(ws, ws[0].bits[0])[1..] == Select(ws[1..], ws[0].bits[0]);
    }
  }

  lemma {:induction false} SelectSpends(ws: seq<Word>)
    requires NonEmptyWords(ws)
    ensures BitsSpent(Select(ws, false)) + BitsSpent(Select(ws, true)) + WordWeight(ws) == BitsSpent(ws)
  {
    if ws != [] {
      SelectSpends(ws[1..]);
      var w := ws[0];
      assert Select(ws, w.bits[0])[1..] == Select(ws[1..], w.bits[0]);
      OneDigitLess(w.weight, |w.bits|);
    }
  }

  lemma OneDigitLess(w: nat, n: nat)
    requires n > 0
    ensures w * n == w * (n - 1) + w
  {
  }

  lemma {:induction false} SelectWeights(ws: seq<Word>)
    requires NonEmptyWords(ws)
    ensures WordWeights(Select(ws, false)) + WordWeights(Select(ws, true)) == WordWeights(ws)
  {
    if ws != [] {
      SelectWeights(ws[1..]);
      var w := ws[0];
      var taken := Select(ws, w.bits[0]);
      assert taken[1..] == Select(ws[1..], w.bits[0]);
      Regroup(multiset{w.weight}, WordWeights(Select(ws[1..], false)), WordWeights(Select(ws[1..], true)));
      var x, f, t := multiset{w.weight}, WordWeights(Select(ws[1..], false)), WordWeights(Select(ws[1..], true));
      assert f + (x + t) == x + (f + t);
    }
  }

  lemma PrefixUnderDigit(b: bool, x: Bits, y: Bits)
    ensures x <= y <==> [b] + x <= [b] + y
  {
    assert ([b] + x)[1..] == x && ([b] + y)[1..] == y;
  }

  lemma HeadApart(ws: seq<Word>, v: Word)
    requires ws != [] && NonEmptyWords(ws) && PrefixFreeWords(ws)
    requires v in Select(ws[1..], ws[0].bits[0])
    ensures Apart(ws[0].bits[1..], v.bits)
  {
    var b := ws[0].bits[0];
    var full := Word(v.weight, [b] + v.bits);
    var k :| 0 <= k < |ws[1..]| && ws[1..][k] == full;
    assert ws[k + 1] == full;
    assert Apart(ws[0].bits, full.bits);
    ApartUnderDigit(ws[0].bits, b, v.bits);
  }

  lemma ApartUnderDigit(x: Bits, b: bool, y: Bits)
    requires x != [] && x[0] == b && Apart(x, [b] + y)
    ensures Apart(x[1..], y)
  {
    assert x == [b] + x[1..];
    PrefixUnderDigit(b, x[1..], y);
    PrefixUnderDigit(b, y, x[1..]);
  }

  lemma {:induction false} SelectPrefixFree(ws: seq<Word>, b: bool)
    requires NonEmptyWords(ws) && PrefixFreeWords(ws)
    ensures PrefixFreeWords(Select(ws, b))
  {
    if ws != [] {
      var tail := Select(ws[1..], b);
      assert PrefixFreeWords(ws[1..]);
      SelectPrefixFree(ws[1..], b);
      if ws[0].bits[0] == b {
        forall v | v in tail ensures Apart(ws[0].bits[1..], v.bits) {
          HeadApart(ws, v);
        }
        PrefixFreeCons(Word(ws[0].weight, ws[0].bits[1..]), tail);
      }
    }
  }

  lemma PrefixFreeCons(w: Word, ws: seq<Word>)
    requires PrefixFreeWords(ws) && forall v :: v in ws ==> Apart(w.bits, v.bits)
    ensures PrefixFreeWords([w] + ws)
  {
    var r := [w] + ws;
    forall i, j | 0 <= i < j < |r| ensures Apart(r[i].bits, r[j].bits) {
      assert r[j] == ws[j - 1] && r[j] in ws;
      if i > 0 { assert r[i] == ws[i - 1]; }
    }
  }

  /** With two words or more, none is empty. */
  lemma NoEmptyWord(ws: seq<Word>)
    requires |ws| >= 2 && PrefixFreeWords(ws)
    ensures NonEmptyWords(ws)
  {
    forall i | 0 <= i < |ws| ensures ws[i].bits != [] {
      assert Apart(ws[0].bits, ws[if i == 0 then 1 else i].bits);
    }
  }

  /** The weights of a full tree are those of the words, and its cost is at most what they spend. */
  ghost predicate Fits(u: Tree, ws: seq<Word>) {
    Weights(u) == WordWeights(ws) && Weight(u) == WordWeight(ws) && Cost(u) <= BitsSpent(ws)
  }

  /** Joining the trees of the two halves of a code. */
  lemma FitsTogether(ws: seq<Word>, l: Tree, r: Tree)
    requires NonEmptyWords(ws)
    requires Fits(l, Select(ws, false)) && Fits(r, Select(ws, true))
    ensures Fits(Node(0, l, r), ws)
  {
    SelectCounts(ws);
    SelectSpends(ws);
    SelectWeights(ws);
  }

  lemma AddEmpty(m: multiset<nat>)
    ensures multiset{} + m == m && m + multiset{} == m
  {
  }

  /** When all words start with the same digit, that digit is wasted. */
  lemma FitsAlone(ws: seq<Word>, b: bool, u: Tree)
    requires NonEmptyWords(ws) && Select(ws, !b) == []
    requires Fits(u, Select(ws, b))
    ensures Fits(u, ws)
  {
    SelectCounts(ws);
    SelectSpends(ws);
    SelectWeights(ws);
    AddEmpty(WordWeights(Select(ws, b)));
  }

  /** Every prefix-free code can be drawn as a full tree that is no dearer. */
  lemma {:induction false} TreeOfWords(ws: seq<Word>) returns (u: Tree)
    requires ws != [] && PrefixFreeWords(ws)
    ensures Fits(u, ws)
    decreases Digits(ws)
  {
    if |ws| == 1 {
      u := Leaf('$', ws[0].weight);
      assert ws[1..] == [];
      assert WordWeights(ws) == multiset{ws[0].weight} + multiset{};
    } else {
      NoEmptyWord(ws);
      var f, t := Select(ws, false), Select(ws, true);
      SelectCounts(ws);
      SelectPrefixFree(ws, false);
      SelectPrefixFree(ws, true);
      if f == [] {
        u := TreeOfWords(t);
        FitsAlone(ws, true, u);
      } else if t == [] {
        u := TreeOfWords(f);
        FitsAlone(ws, false, u);
      } else {
        var l := TreeOfWords(f);
        var r := TreeOfWords(t);
        FitsTogether(ws, l, r);
        u := Node(0, l, r);
      }
    }
  }

  /** The words used for the given frequencies. */
  function Words(frequencies: seq<nat>, codes: seq<Bits>): (ws: seq<Word>)
    requires |frequencies| == |codes|
    ensures |ws| == |codes|
  {
    seq(|codes|, i requires 0 <= i < |codes| => Word(frequencies[i], codes[i]))
  }

  lemma {:induction false} WordWeightsAre(frequencies: seq<nat>, codes: seq<Bits>)
    requires |frequencies| == |codes|
    ensures WordWeights(Words(frequencies, codes)) == multiset(frequencies)
  {
    if codes != [] {
      WordWeightsAre(frequencies[1..], codes[1..]);
      assert Words(frequencies, codes)[1..] == Words(frequencies[1..], codes[1..]);
      assert frequencies == [frequencies[0]] + frequencies[1..];
    }
  }

  /** The Huffman tree spends no more bits than any prefix-free code for the same frequencies. */
  lemma NoPrefixCodeIsShorter(data: string, frequencies: seq<nat>, t: Tree, codes: seq<Bits>)
    requires HuffmanTree(data, frequencies, t)
    requires |codes| == |frequencies| > 0 && PrefixFreeWords(Words(frequencies, codes))
    ensures Cost(t) <= BitsSpent(Words(frequencies, codes))
  {
    var u := TreeOfWords(Words(frequencies, codes));
    WordWeightsAre(frequencies, codes);
    HuffmanOptimal(data, frequencies, t, u);
  }
}
