/** The command line compressor. */
module Compress {
  import opened Alphabet
  import opened Trees
  import opened Forests
  import opened Heaps
  import opened Bytes
  import opened CStrings
  import opened CodeTables
  import opened Coding
  import opened FileFormat
  import opened Limits

  /** The size of the working string, in both coders. */
  const WORKING_SIZE: nat := 64

  /** The codes that a coder may assume: one printed code for each of the 56 letters. */
  ghost predicate CoderTable(t: Tree, codes: seq<string>) {
    AlphabetTree(t) && IsCodeTable(t, LETTERS, codes)
  }

  lemma CoderTableCode(t: Tree, codes: seq<string>, j: nat)
    requires CoderTable(t, codes) && j < |codes|
    ensures LETTERS[j] in Letters(t) && codes[j] == Str(Code(t, LETTERS[j]))
    ensures NUL !in codes[j] && 1 <= |codes[j]| <= Height(t) <= 55
  {
    AlphabetTreeLetters(t);
    CodeBounds(t, LETTERS[j]);
  }

  /** Build the tree; return its printed form and the table of codes. */
  method HuffmanCodes(data: string, frequencies: seq<nat>)
    returns (printed: string, codes: array<string>, ghost t: Tree)
    requires data == LETTERS && |frequencies| == LETTER_COUNT
    ensures fresh(codes)
    ensures HuffmanTree(data, frequencies, t) && CoderTable(t, codes[..])
    ensures printed == Print(t) && |printed| == 167
  {
    var root := BuildTree(data, frequencies);
    BuiltTree(frequencies, root);
    t := root;
    codes := AllCodes(root);
    printed := PrintTree(root);
  }

  lemma BuiltTree(frequencies: seq<nat>, t: Tree)
    requires HuffmanTree(LETTERS, frequencies, t)
    ensures AlphabetTree(t) && |Print(t)| == 167
    ensures forall c :: c in Letters(t) ==> c != NUL
  {
    HuffmanTreeLeaves(LETTERS, frequencies, t);
    AlphabetTreeLetters(t);
    LetterTable();
  }

  /** The table of all codes, with `arr` as the scratch array for the path. */
  method AllCodes(root: Tree) returns (codes: array<string>)
    requires AlphabetTree(root)
    ensures fresh(codes) && CoderTable(root, codes[..])
  {
    LetterTable();
    AlphabetTreeLetters(root);
    var arr := new int[256];
    codes := new string[56](_ => "");
    GetCodes(root, arr, 0, LETTERS, codes, []);
    forall i | 0 <= i < |LETTERS| ensures codes[i] == Str(Code(root, LETTERS[i])) {
      assert [] + Code(root, LETTERS[i]) == Code(root, LETTERS[i]);
    }
  }

  /** Print a tree into a buffer of 256 characters and measure the result. */
  method PrintTree(root: Tree) returns (printed: string)
    requires |Print(root)| < 256 && forall c :: c in Letters(root) ==> c != NUL
    ensures printed == Print(root)
  {
    var strRep := new char[256](_ => NUL);
    var end := TreeToString(root, strRep, 0);
    PrintHasNoNul(root);
    assert strRep[end] == NUL by { assert strRep[end..][0] == NUL; }
    assert strRep[..end] == strRep[0..end];
    var n := StrLen(strRep, Print(root));
    printed := strRep[..n];
  }

  lemma {:induction false} PrintHasNoNul(t: Tree)
    requires forall c :: c in Letters(t) ==> c != NUL
    ensures NUL !in Print(t)
    decreases t
  {
    match t
    case Leaf(c, _) =>
      assert c in Letters(t);
    case Node(_, l, r) =>
      assert forall c :: c in Letters(l) || c in Letters(r) ==> c in Letters(t);
      PrintHasNoNul(l);
      PrintHasNoNul(r);
  }

  /** Take whole bytes off the front of the working string as long as there are any. */
  method DrainBytes(working: array<char>, offset: nat, ghost pending: Bits) returns (bytes: seq<Byte>, left: nat)
    requires Holds(working[..], Str(pending)) && offset == |pending|
    modifies working
    ensures bytes == FullBytes(pending)
    ensures Holds(working[..], Str(Rest(pending))) && left == |Rest(pending)|
  {
    bytes := [];
    left := offset;
    ghost var now := pending;
    var length := StrLen(working, Str(now));
    while length >= 8
      invariant Holds(working[..], Str(now)) && left == |now| == length
      invariant bytes + FullBytes(now) == FullBytes(pending) && Rest(now) == Rest(pending)
      decreases length
    {
      var b := FirstByte(working, now);
      bytes := bytes + [b];
      assert Str(now)[8..] == Str(now[8..]);
      ShiftDown(working, 8, Str(now));
      left := left - 8;
      now := now[8..];
      length := StrLen(working, Str(now));
    }
  }

  /** The first eight characters of the working string as a byte. */
  method FirstByte(working: array<char>, ghost pending: Bits) returns (b: Byte)
    requires Holds(working[..], Str(pending)) && |pending| >= 8
    ensures b == ByteOf(pending[..8])
  {
    var str8 := working[..8];
    assert str8 == Str(pending[..8]);
    StrOnes(pending[..8]);
    assert str8[..8] == str8;
    b := StrToByte(str8);
  }

  /** The rest of the working string, followed by zeros, as the last byte. */
  method LastByte(working: array<char>, ghost pending: Bits) returns (b: Byte)
    requires Holds(working[..], Str(pending)) && |pending| < 8
    ensures b == ByteOf(pending + Zeros(8 - |pending|))
  {
    var length := StrLen(working, Str(pending));
    var padded := working[..length] + seq(8 - length, _ => NUL);
    assert Ones(padded) == pending + Zeros(8 - length);
    assert padded[..8] == padded;
    b := StrToByte(padded);
  }

  /** Append the code of a letter to the working string. */
  method AppendCode(working: array<char>, offset: nat, c: char, codes: array<string>, ghost t: Tree,
                    ghost pending: Bits)
    returns (end: nat)
    requires CoderTable(t, codes[..]) && c in LETTERS && c in Letters(t)
    requires working.Length == WORKING_SIZE
    requires Holds(working[..], Str(pending)) && offset == |pending| < 8
    modifies working
    ensures Holds(working[..], Str(pending + Code(t, c))) && end == |pending + Code(t, c)|
  {
    var j := FindLetter(c, LETTERS);
    CoderTableCode(t, codes[..], j);
    StrConcat(pending, Code(t, c));
    var code := codes[j];
    StrCpyAt(working, offset, code, Str(pending));
    end := offset + |code|;
  }

  /** One round of the coding loop; `bits` are those of the text so far. */
  method EncodeLetter(working: array<char>, offset: nat, c: char, codes: array<string>, ghost t: Tree, ghost bits: Bits)
    returns (bytes: seq<Byte>, end: nat)
    requires CoderTable(t, codes[..]) && c in LETTERS && c in Letters(t)
    requires working.Length == WORKING_SIZE
    requires Holds(working[..], Str(Rest(bits))) && offset == |Rest(bits)|
    modifies working
    ensures FullBytes(bits) + bytes == FullBytes(bits + Code(t, c))
    ensures Holds(working[..], Str(Rest(bits + Code(t, c)))) && end == |Rest(bits + Code(t, c))|
  {
    StreamAppend(bits, Code(t, c));
    end := AppendCode(working, offset, c, codes, t, Rest(bits));
    bytes, end := DrainBytes(working, end, Rest(bits) + Code(t, c));
  }

  lemma OverTree(t: Tree, text: string)
    requires AlphabetTree(t) && OverAlphabet(text)
    ensures Encodable(t, text)
  {
    AlphabetTreeLetters(t);
  }

  /** Write the codes of the text through the working string, a byte at a time. */
  method EncodeText(text: string, codes: array<string>, ghost t: Tree) returns (output: seq<Byte>)
    requires OverAlphabet(text) && CoderTable(t, codes[..])
    ensures Encodable(t, text) && output == Payload(t, text)
  {
    OverTree(t, text);
    output := [];
    var working := new char[WORKING_SIZE](_ => NUL);
    var offset := 0;
    ghost var bits: Bits := [];
    ghost var table := codes[..];
    for i := 0 to |text|
      invariant fresh(working) && working.Length == WORKING_SIZE && codes[..] == table
      invariant bits == EncodeBits(t, text[..i]) && output == FullBytes(bits)
      invariant Holds(working[..], Str(Rest(bits))) && offset == |Rest(bits)|
    {
      var bytes;
      bytes, offset := EncodeLetter(working, offset, text[i], codes, t, bits);
      output := output + bytes;
      NextBits(t, text, i);
      bits := bits + Code(t, text[i]);
    }
    assert text[..|text|] == text;
    var bytes := LastBytes(working, bits);
    output := output + bytes;
  }

  lemma NextBits(t: Tree, text: string, i: nat)
    requires Encodable(t, text) && i < |text|
    ensures EncodeBits(t, text[..i + 1]) == EncodeBits(t, text[..i]) + Code(t, text[i])
  {
    assert text[..i + 1][..i] == text[..i];
  }

  /** One more byte, if anything is left in the working string. */
  method LastBytes(working: array<char>, ghost bits: Bits) returns (bytes: seq<Byte>)
    requires Holds(working[..], Str(Rest(bits)))
    ensures FullBytes(bits) + bytes == Pack(bits)
  {
    bytes := [];
    var length := StrLen(working, Str(Rest(bits)));
    if length > 0 {
      var b := LastByte(working, Rest(bits));
      bytes := [b];
    }
  }

  /** What the compressor produces for a text: the file of some Huffman tree of its letter counts. */
  ghost predicate CompressedWith(t: Tree, text: string, file: seq<Byte>) {
    && TreeFor(t, text)
    && AlphabetTree(t)
    && LengthsFit(t, text)
    && file == FileOf(t, text)
  }

  /** Where every byte of the file comes from. */
  lemma CompressedLayout(t: Tree, text: string, file: seq<Byte>)
    requires CompressedWith(t, text, file)
    ensures Layout(file, Print(t), |text|, Payload(t, text))
    ensures LengthAt(file, 0, |file|) && LengthAt(file, 4, 167) && LengthAt(file, 8, |text|)
  {
    AlphabetTreeLetters(t);
    PrintedEightBit(t);
    AssembledLayout(t, |text|, Payload(t, text));
  }

  lemma PrintedEightBit(t: Tree)
    requires AlphabetTree(t)
    ensures EightBit(Print(t))
  {
    AlphabetTreeLetters(t);
    LetterTable();
    PrintEightBit(t);
  }

  lemma {:induction false} PrintEightBit(t: Tree)
    requires forall c :: c in Letters(t) ==> c as int < 256
    ensures EightBit(Print(t))
    decreases t
  {
    match t
    case Leaf(c, _) =>
      assert c in Letters(t);
    case Node(_, l, r) =>
      assert forall c :: c in Letters(l) || c in Letters(r) ==> c in Letters(t);
      PrintEightBit(l);
      PrintEightBit(r);
  }

  /** From the text of the input file to the bytes of the output file. The three lengths at the start are written
      low byte first. */
  method CompressFile(text: string) returns (file: seq<Byte>)
    requires OverAlphabet(text) && |text| < 0x8000_0000
    ensures exists t :: CompressedWith(t, text, file)
    ensures LengthAt(file, 0, |file|) && LengthAt(file, 4, 167) && LengthAt(file, 8, |text|)
  {
    var frequencies := new nat[56](_ => 0);
    LetterTable();
    PrepareFrequencies(text, LETTERS, frequencies);
    ghost var counts := frequencies[..];
    var printed, codes, t := HuffmanCodes(LETTERS, frequencies[..]);
    assert counts == Counts(text, LETTERS);
    TotalLengthFits(text, t);
    var payload := EncodeText(text, codes, t);
    file := AssembleFile(printed, |text|, payload, text, t);
    assert CompressedWith(t, text, file);
    CompressedLayout(t, text, file);
  }

  /** Write the header with an unknown total length, the payload, and then the length again. */
  method AssembleFile(printed: string, textLength: nat, payload: seq<Byte>, ghost text: string, ghost t: Tree)
    returns (file: seq<Byte>)
    requires LengthsFit(t, text)
    requires printed == Print(t) && textLength == |text| && payload == Payload(t, text)
    ensures file == FileOf(t, text)
  {
    var headerLength := |printed|;
    var rest := Word(headerLength) + Word(textLength) + CharBytes(printed) + payload;
    file := Word(0) + rest;
    var totalLength := 12 + headerLength + |payload|;
    assert file[4..] == rest;
    file := Word(totalLength) + file[4..];
  }
}
