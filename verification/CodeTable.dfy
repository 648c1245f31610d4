/** The table of codes, the text form of the tree, and the frequency count. */
module CodeTables {
  import opened Alphabet
  import opened Trees
  import opened Bytes

  /** `codes[i]` is the printed code of `data[i]`, for every letter in the tree. */
  ghost predicate IsCodeTable(t: Tree, data: string, codes: seq<string>) {
    |codes| == |data| && forall i :: 0 <= i < |data| && data[i] in Letters(t) ==> codes[i] == Str(Code(t, data[i]))
  }

  /** The digits on the way down: `arr[k]` is 0 or 1 as `path[k]` says. */
  ghost predicate HoldsPath(arr: seq<int>, path: Bits) {
    |path| <= |arr| && forall k :: 0 <= k < |path| ==> arr[k] == if path[k] then 1 else 0
  }

  /** `sprintf` with "%d" for a single digit. */
  function PrintDigit(d: int): char
    requires 0 <= d <= 9
  {
    ('0' as int + d) as char
  }

  /** What the table holds once the codes below `t`, reached by `path`, are written. */
  ghost predicate Written(t: Tree, path: Bits, data: string, was: seq<string>, codes: seq<string>) {
    && |codes| == |data| == |was|
    && forall i :: 0 <= i < |data| ==>
         codes[i] == if data[i] in Letters(t) then Str(path + Code(t, data[i])) else was[i]
  }

  /** One entry of the table, before the left subtree, between, and after the right one. */
  lemma WrittenOne(t: Tree, path: Bits, c: char, was: string, mid: string, code: string)
    requires t.Node? && Distinct(Letters(t))
    requires mid == if c in Letters(t.left) then Str(path + [false] + Code(t.left, c)) else was
    requires code == if c in Letters(t.right) then Str(path + [true] + Code(t.right, c)) else mid
    ensures code == if c in Letters(t) then Str(path + Code(t, c)) else was
  {
    DistinctParts(Letters(t.left), Letters(t.right));
    if c in Letters(t.left) {
      PathToChild(t, path, false, c);
    } else if c in Letters(t.right) {
      PathToChild(t, path, true, c);
    }
  }

  lemma PathToChild(t: Tree, path: Bits, side: bool, c: char)
    requires t.Node? && Distinct(Letters(t)) && c in Letters(Child(t, side))
    ensures c in Letters(t) && path + [side] + Code(Child(t, side), c) == path + Code(t, c)
  {
    CodeOfChild(t, side, c);
    assert path + ([side] + Code(Child(t, side), c)) == path + [side] + Code(Child(t, side), c);
  }

  lemma WrittenBoth(t: Tree, path: Bits, data: string, was: seq<string>, mid: seq<string>, codes: seq<string>)
    requires t.Node? && Distinct(Letters(t))
    requires Written(t.left, path + [false], data, was, mid)
    requires Written(t.right, path + [true], data, mid, codes)
    ensures Written(t, path, data, was, codes)
  {
    forall i | 0 <= i < |data|
      ensures codes[i] == if data[i] in Letters(t) then Str(path + Code(t, data[i])) else was[i]
    {
      WrittenOne(t, path, data[i], was[i], mid[i], codes[i]);
    }
  }

  /** Write the code of every leaf below `root` into the table; `path` leads to `root`. */
  method GetCodes(root: Tree, arr: array<int>, top: nat, data: string, codes: array<string>, ghost path: Bits)
    requires codes.Length == |data| && Distinct(data)
    requires Distinct(Letters(root)) && forall c :: c in Letters(root) ==> c in data
    requires top == |path| && HoldsPath(arr[..], path) && top + Height(root) <= arr.Length
    modifies arr, codes
    ensures HoldsPath(arr[..], path)
    ensures Written(root, path, data, old(codes[..]), codes[..])
    decreases root
  {
    ghost var was := codes[..];
    match root
    case Node(_, left, right) =>
      DistinctParts(Letters(left), Letters(right));
      arr[top] := 0;
      GetCodes(left, arr, top + 1, data, codes, path + [false]);
      ghost var mid := codes[..];
      arr[top] := 1;
      GetCodes(right, arr, top + 1, data, codes, path + [true]);
      WrittenBoth(root, path, data, was, mid, codes[..]);
    case Leaf(letter, _) =>
      var i := FindLetter(letter, data);
      var code := PrintPath(arr, top, path);
      assert path + Code(root, letter) == path;
      codes[i] := code;
  }

  /** Append the first `top` entries of `arr`, printed with "%d", to an empty string. */
  method PrintPath(arr: array<int>, top: nat, ghost path: Bits) returns (code: string)
    requires top == |path| && HoldsPath(arr[..], path)
    ensures code == Str(path)
  {
    code := "";
    for j := 0 to top
      invariant code == Str(path[..j])
    {
      StrConcat(path[..j], [path[j]]);
      assert path[..j + 1] == path[..j] + [path[j]];
      code := code + [PrintDigit(arr[j])];
    }
    assert path[..top] == path;
  }

  /** Postorder, a leaf as '1' and its letter, an inner node as '0'. */
  function Print(t: Tree): (s: string)
    ensures |s| == 3 * |Letters(t)| - 1
  {
    match t
    case Leaf(c, _) => ['1', c]
    case Node(_, l, r) => Print(l) + Print(r) + ['0']
  }

  /** What a text is made of: the letters of the leaves in order, and how many joins. */
  datatype Tokens = Malformed | Tokens(leaves: string, joins: nat)

  /** Read a printed tree without building it: '1' and a letter are a leaf, '0' joins two of the trees read so far,
      and nothing else may occur. */
  function Scan(s: string, leaves: string, joins: nat): Tokens
    decreases |s|
  {
    if s == [] then Tokens(leaves, joins)
    else if s[0] == '1' then if |s| >= 2 then Scan(s[2..], leaves + [s[1]], joins) else Malformed
    else if s[0] == '0' && joins + 2 <= |leaves| then Scan(s[1..], leaves, joins + 1)
    else Malformed
  }

  lemma ScanJoin(rest: string, leaves: string, joins: nat)
    requires joins + 2 <= |leaves|
    ensures Scan(['0'] + rest, leaves, joins) == Scan(rest, leaves, joins + 1)
  {
    assert (['0'] + rest)[1..] == rest;
  }

  /** A printed tree reads as its letters from left to right, with a join for every leaf but one, and never joins
      before there are two trees to join. */
  lemma {:induction false} PrintScans(t: Tree, s: string, rest: string, leaves: string, joins: nat,
                                      allLeaves: string, allJoins: nat)
    requires s == Print(t) + rest && joins <= |leaves|
    requires allLeaves == leaves + Letters(t) && allJoins == joins + |Letters(t)| - 1
    ensures Scan(s, leaves, joins) == Scan(rest, allLeaves, allJoins)
    decreases t
  {
    match t
    case Leaf(c, _) =>
      ScanLeaf(c, rest, leaves, joins);
    case Node(_, l, r) =>
      var after := ['0'] + rest;
      var next := Print(r) + after;
      var ll, lj := leaves + Letters(l), joins + |Letters(l)| - 1;
      ThreeTexts(Print(l), Print(r), rest);
      PrintScans(l, s, next, leaves, joins, ll, lj);
      PrintScans(r, next, after, ll, lj, allLeaves, allJoins - 1);
      ScanJoin(rest, allLeaves, allJoins - 1);
  }

  lemma ScanLeaf(c: char, rest: string, leaves: string, joins: nat)
    ensures Scan(['1', c] + rest, leaves, joins) == Scan(rest, leaves + [c], joins)
  {
    assert (['1', c] + rest)[2..] == rest;
  }

  lemma ThreeTexts(left: string, right: string, rest: string)
    ensures (left + right + ['0']) + rest == left + (right + (['0'] + rest))
  {
  }

  lemma PrintedScan(t: Tree)
    ensures Scan(Print(t), [], 0) == Tokens(Letters(t), |Letters(t)| - 1)
  {
    WholeText(Print(t));
    WholeText(Letters(t));
    PrintScans(t, Print(t), [], [], 0, Letters(t), |Letters(t)| - 1);
    ScanNothing(Letters(t), |Letters(t)| - 1);
  }

  lemma WholeText(s: string)
    ensures s + [] == s && [] + s == s
  {
  }

  lemma ScanNothing(leaves: string, joins: nat)
    ensures Scan([], leaves, joins) == Tokens(leaves, joins)
  {
  }

  /** The first digit of a printed leaf and the last one of a printed inner node. */
  lemma PrintedDigits(t: Tree)
    ensures t.Leaf? ==> Print(t) == ['1', t.letter]
    ensures t.Node? ==> Print(t)[|Print(t)| - 1] == '0'
  {
    if t.Node? { LastOf(Print(t.left) + Print(t.right), '0'); }
  }

  lemma LastOf<T>(s: seq<T>, x: T)
    ensures (s + [x])[|s + [x]| - 1] == x
  {
  }

  /** Two printed subtrees side by side, and a '0' behind them; the rest of the buffer stays. */
  lemma ThreePieces(s0: string, s1: string, s2: string, s3: string, i: nat, m: nat, n: nat, left: string, right: string)
    requires i <= m <= n < |s0| == |s1| == |s2| && s3 == s2[n := '0']
    requires s1[i..m] == left && s1[..i] == s0[..i] && s1[m..] == s0[m..]
    requires s2[m..n] == right && s2[..m] == s1[..m] && s2[n..] == s1[n..]
    ensures s3[i..n + 1] == left + right + ['0']
    ensures s3[..i] == s0[..i] && s3[n + 1..] == s0[n + 1..]
  {
    assert s2[i..m] == s2[..m][i..] == s1[..m][i..] == s1[i..m];
    assert s3[i..n + 1] == s2[i..m] + s2[m..n] + ['0'];
    assert s3[..i] == s2[..m][..i] == s1[..m][..i];
    assert s3[n + 1..] == s2[n..][1..] == s1[m..][n - m..][1..] == s0[m..][n - m..][1..];
  }

  /** Print the tree into the buffer at position `i`; the new position. Read back on its own, the text is made of
      the letters in order and one join less. */
  method TreeToString(node: Tree, str: array<char>, i: nat) returns (end: nat)
    requires i + |Print(node)| <= str.Length
    modifies str
    ensures end == i + |Print(node)| && str[i..end] == Print(node)
    ensures Scan(str[i..end], [], 0) == Tokens(Letters(node), |Letters(node)| - 1)
    ensures node.Leaf? ==> str[i..end] == ['1', node.letter]
    ensures node.Node? ==> str[end - 1] == '0'
    ensures str[..i] == old(str[..i]) && str[end..] == old(str[end..])
  {
    end := PrintAt(node, str, i);
    PrintedScan(node);
    PrintedDigits(node);
    assert node.Node? ==> str[i..end][end - i - 1] == '0';
  }

  method PrintAt(node: Tree, str: array<char>, i: nat) returns (end: nat)
    requires i + |Print(node)| <= str.Length
    modifies str
    ensures end == i + |Print(node)| && str[i..end] == Print(node)
    ensures str[..i] == old(str[..i]) && str[end..] == old(str[end..])
    decreases node
  {
    ghost var s0 := str[..];
    match node
    case Leaf(c, _) =>
      str[i] := '1';
      str[i + 1] := c;
      end := i + 2;
      assert str[i..end] == ['1', c];
    case Node(_, l, r) =>
      var m := PrintAt(l, str, i);
      ghost var s1 := str[..];
      var n := PrintAt(r, str, m);
      ghost var s2 := str[..];
      str[n] := '0';
      end := n + 1;
      ThreePieces(s0, s1, s2, str[..], i, m, n, Print(l), Print(r));
  }

  /** The tree without its frequencies, which the text form does not carry. */
  function Strip(t: Tree): (s: Tree)
    ensures Letters(s) == Letters(t) && Height(s) == Height(t) && s.Node? == t.Node?
  {
    match t
    case Leaf(c, _) => Leaf(c, 0)
    case Node(_, l, r) => Node(0, Strip(l), Strip(r))
  }

  /** The stack slots of the parser. */
  const STACK_SIZE: nat := 112

  /** The text can be parsed from a stack of the given depth: every '1' has a letter after it,
      every other character finds two nodes to join, and the stack does not overflow. */
  predicate Parsable(s: string, depth: nat)
    decreases |s|
  {
    if s == [] || s[0] == NUL then depth >= 1
    else if s[0] == '1' then |s| >= 2 && depth < STACK_SIZE && Parsable(s[2..], depth + 1)
    else depth >= 2 && Parsable(s[1..], depth - 1)
  }

  /** The stack after parsing a text, bottom first. */
  function Parse(s: string, stack: seq<Tree>): (result: seq<Tree>)
    requires Parsable(s, |stack|)
    ensures |result| >= 1
    decreases |s|
  {
    if s == [] || s[0] == NUL then stack
    else if s[0] == '1' then Parse(s[2..], stack + [Leaf(s[1], 0)])
    else
      var n := |stack|;
      Parse(s[1..], stack[..n - 2] + [Node(0, stack[n - 2], stack[n - 1])])
  }

  /** The stack machine. `s` is bounded by its length as well as by a terminator. */
  method RebuildTree(s: string) returns (root: Tree)
    requires Parsable(s, 0)
    ensures root == Parse(s, [])[0]
  {
    var stack := new Tree[STACK_SIZE](_ => Leaf(NUL, 0));
    var index := 0;
    var k := 0;
    while k < |s| && s[k] != NUL
      invariant 0 <= k <= |s| && 0 <= index <= STACK_SIZE
      invariant Parsable(s[k..], index)
      invariant Parse(s[k..], stack[..index]) == Parse(s, [])
      decreases |s| - k
    {
      ghost var before := stack[..index];
      if s[k] == '1' {
        stack[index] := Leaf(s[k + 1], 0);
        index := index + 1;
        assert stack[..index] == before + [Leaf(s[k + 1], 0)];
        assert s[k..][2..] == s[k + 2..];
        k := k + 2;
      } else {
        index := index - 1;
        var right := stack[index];
        index := index - 1;
        var left := stack[index];
        stack[index] := Node(0, left, right);
        index := index + 1;
        assert stack[..index] == before[..index - 1] + [Node(0, left, right)];
        assert s[k..][1..] == s[k + 1..];
        k := k + 1;
      }
    }
    root := stack[0];
  }

  /** Two texts with the same leaves at the same places, whatever characters stand for the joins. */
  predicate SameTokens(a: string, b: string)
    decreases |a|
  {
    if a == [] || b == [] || a[0] == NUL || b[0] == NUL then (a == [] || a[0] == NUL) && (b == [] || b[0] == NUL)
    else if a[0] == '1' || b[0] == '1' then
      a[0] == b[0] && (|a| >= 2 <==> |b| >= 2) && (|a| >= 2 ==> a[1] == b[1] && |b| >= 2 && SameTokens(a[2..], b[2..]))
    else SameTokens(a[1..], b[1..])
  }

  /** Every character other than '1' and the terminator joins. */
  lemma {:induction false} AnyCharacterJoins(a: string, b: string, stack: seq<Tree>)
    requires SameTokens(a, b)
    ensures Parsable(a, |stack|) == Parsable(b, |stack|)
    ensures Parsable(a, |stack|) ==> Parse(a, stack) == Parse(b, stack)
    decreases |a|
  {
    if a != [] && b != [] && a[0] != NUL && b[0] != NUL {
      if a[0] == '1' {
        if |a| >= 2 { AnyCharacterJoins(a[2..], b[2..], stack + [Leaf(a[1], 0)]); }
      } else if |stack| >= 2 {
        var n := |stack|;
        AnyCharacterJoins(a[1..], b[1..], stack[..n - 2] + [Node(0, stack[n - 2], stack[n - 1])]);
      }
    }
  }

  /** A printed subtree inside any longer text pushes exactly one node: the tree it was printed
      from. On the way the stack grows by at most the number of leaves. */
  lemma {:induction false} ParsePrinted(t: Tree, rest: string, stack: seq<Tree>)
    requires |stack| + |Letters(t)| <= STACK_SIZE && Parsable(rest, |stack| + 1)
    ensures Parsable(Print(t) + rest, |stack|)
    ensures Parse(Print(t) + rest, stack) == Parse(rest, stack + [Strip(t)])
    decreases t
  {
    match t
    case Leaf(c, _) =>
      ParseLeaf(c, rest, stack);
    case Node(_, l, r) =>
      var left, right, after := Print(l), Print(r), ['0'] + rest;
      ThreeTexts(left, right, rest);
      ParseJoin(rest, stack, Strip(l), Strip(r));
      ParsePrinted(r, after, stack + [Strip(l)]);
      ParsePrinted(l, right + after, stack);
  }

  lemma ParseLeaf(c: char, rest: string, stack: seq<Tree>)
    requires |stack| < STACK_SIZE && Parsable(rest, |stack| + 1)
    ensures Parsable(['1', c] + rest, |stack|)
    ensures Parse(['1', c] + rest, stack) == Parse(rest, stack + [Leaf(c, 0)])
  {
    assert (['1', c] + rest)[2..] == rest;
  }

  lemma ParseJoin(rest: string, stack: seq<Tree>, l: Tree, r: Tree)
    requires Parsable(rest, |stack| + 1)
    ensures Parsable(['0'] + rest, |stack| + 2)
    ensures Parse(['0'] + rest, stack + [l] + [r]) == Parse(rest, stack + [Node(0, l, r)])
  {
    var two := stack + [l] + [r];
    assert (['0'] + rest)[1..] == rest;
    assert two[..|two| - 2] == stack;
  }

  /** The largest number of stack slots in use while a text is parsed. */
  function StackPeak(s: string, depth: nat): (peak: nat)
    ensures depth <= peak
    decreases |s|
  {
    if s == [] || s[0] == NUL then depth
    else if s[0] == '1' then if |s| >= 2 then StackPeak(s[2..], depth + 1) else depth
    else if depth == 0 then depth
    else
      var after := StackPeak(s[1..], depth - 1);
      if after < depth then depth else after
  }

  /** Parsing a printed tree never holds more nodes than there were before and the tree has leaves, unless what
      follows does. */
  lemma {:induction false} PrintedPeak(t: Tree, s: string, rest: string, depth: nat, bound: nat)
    requires s == Print(t) + rest && StackPeak(rest, depth + 1) <= bound && depth + |Letters(t)| <= bound
    ensures StackPeak(s, depth) <= bound
    decreases t
  {
    match t
    case Leaf(c, _) =>
      assert s[0] == '1' && s[2..] == rest;
    case Node(_, l, r) =>
      var after := ['0'] + rest;
      var next := Print(r) + after;
      ThreeTexts(Print(l), Print(r), rest);
      JoinPeak(rest, depth, bound);
      PrintedPeak(r, next, after, depth + 1, bound);
      PrintedPeak(l, s, next, depth, bound);
  }

  lemma JoinPeak(rest: string, depth: nat, bound: nat)
    requires StackPeak(rest, depth + 1) <= bound && depth + 2 <= bound
    ensures StackPeak(['0'] + rest, depth + 2) <= bound
  {
    assert (['0'] + rest)[1..] == rest;
  }

  /** Printing and parsing back gives a tree of the same shape with the same letters. */
  lemma PrintThenParse(t: Tree)
    requires |Letters(t)| <= STACK_SIZE
    ensures Parsable(Print(t), 0) && Parse(Print(t), []) == [Strip(t)]
    ensures StackPeak(Print(t), 0) <= |Letters(t)|
  {
    PeakOfPrinted(t);
    ParsePrinted(t, [], []);
    WholeText(Print(t));
    assert [] + [Strip(t)] == [Strip(t)];
  }

  lemma PeakOfPrinted(t: Tree)
    ensures StackPeak(Print(t), 0) <= |Letters(t)|
  {
    WholeText(Print(t));
    NothingPeaks();
    PrintedPeak(t, Print(t), [], 0, |Letters(t)|);
  }

  lemma NothingPeaks()
    ensures StackPeak([], 1) == 1
  {
  }

  /** Count the letters of a text. */
  method PrepareFrequencies(text: string, letters: string, frequencies: array<nat>)
    requires frequencies.Length == |letters| && Distinct(letters)
    requires forall i :: 0 <= i < |text| ==> text[i] in letters
    modifies frequencies
    ensures frequencies[..] == Counts(text, letters)
  {
    for i := 0 to |letters|
      invariant forall k :: 0 <= k < i ==> frequencies[k] == 0
    {
      frequencies[i] := 0;
    }
    var index := 0;
    while index < |text|
      invariant 0 <= index <= |text|
      invariant frequencies[..] == Counts(text[..index], letters)
    {
      var j := FindLetter(text[index], letters);
      CountsGrow(text[..index], letters, j);
      assert text[..index + 1] == text[..index] + [letters[j]];
      frequencies[j] := frequencies[j] + 1;
      index := index + 1;
    }
    assert text[..index] == text;
  }

  /** How often each letter occurs. */
  function Counts(text: string, letters: string): (r: seq<nat>)
    ensures |r| == |letters|
  {
    seq(|letters|, i requires 0 <= i < |letters| => multiset(text)[letters[i]])
  }

  lemma CountsGrow(text: string, letters: string, j: nat)
    requires Distinct(letters) && j < |letters|
    ensures Counts(text + [letters[j]], letters) == Counts(text, letters)[j := Counts(text, letters)[j] + 1]
  {
    assert multiset(text + [letters[j]]) == multiset(text) + multiset{letters[j]};
  }

  /** The linear search for a letter. */
  method FindLetter(c: char, letters: string) returns (j: nat)
    requires c in letters
    ensures j < |letters| && letters[j] == c && c !in letters[..j]
  {
    j := 0;
    while letters[j] != c
      invariant 0 <= j < |letters|
      invariant c !in letters[..j]
      decreases |letters| - j
    {
      assert letters == letters[..j] + [letters[j]] + letters[j + 1..];
      j := j + 1;
    }
  }
}
