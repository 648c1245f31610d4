/** The decompressor, and that it undoes the compressor. */
module Decompress {
  import opened Alphabet
  import opened Trees
  import opened Bytes
  import opened CStrings
  import opened CodeTables
  import opened Coding
  import opened FileFormat
  import opened Compress

  /** What is true of the bits in the working string while they are being decoded: together with
      the symbols found so far they decode to the same thing as the bits `all` at the start. */
  ghost predicate Decoding(t: Tree, all: Bits, found: string, pending: Bits)
    requires t.Node?
  {
    && |pending| <= |all|
    && found + Symbols(t, pending) == Symbols(t, all)
    && Residue(t, pending) == Residue(t, all)
  }

  /** Taking off one code is one step of decoding. */
  lemma DecodingStep(t: Tree, all: Bits, found: string, pending: Bits, c: char)
    requires t.Node? && Decoding(t, all, found, pending)
    requires c in Letters(t) && Code(t, c) <= pending
    ensures Decoding(t, all, found + [c], pending[|Code(t, c)|..])
  {
    var rest := pending[|Code(t, c)|..];
    assert pending == Code(t, c) + rest;
    DecodeCode(t, c, rest);
    Associate(found, [c], Symbols(t, rest));
  }

  /** The output buffer after the letters `decoded` have been stored one after the other: those that have a
      slot are in place. The C program stores the others behind the buffer; what is there is not modelled. */
  ghost predicate Stored(buffer: seq<char>, decoded: string) {
    if |decoded| <= |buffer| then buffer[..|decoded|] == decoded else buffer == decoded[..|buffer|]
  }

  /** Store one letter; a store behind the end of the buffer only counts. */
  method StoreLetter(buffer: array<char>, index: nat, c: char, ghost decoded: string)
    requires Stored(buffer[..], decoded) && index == |decoded|
    modifies buffer
    ensures Stored(buffer[..], decoded + [c])
  {
    if index < buffer.Length {
      buffer[index] := c;
    }
  }

  /** One pass over the code table. Every code found at the front of the working string is taken off
      on the spot, so one pass may find several, in any order the table happens to have. */
  method Sweep(working: array<char>, offset: nat, codes: array<string>, buffer: array<char>, index: nat,
               ghost t: Tree, ghost pending: Bits, ghost decoded: string)
    returns (matches: bool, left: nat, end: nat, ghost symbols: string, ghost rest: Bits)
    requires CoderTable(t, codes[..]) && t.Node? && working != buffer
    requires working.Length == WORKING_SIZE && Holds(working[..], Str(pending)) && offset == |pending|
    requires Stored(buffer[..], decoded) && index == |decoded|
    modifies working, buffer
    ensures Holds(working[..], Str(rest)) && left == |rest|
    ensures Stored(buffer[..], decoded + symbols) && end == |decoded + symbols|
    ensures Decoding(t, pending, symbols, rest)
    ensures matches ==> |rest| < |pending|
    ensures !matches ==> rest == pending && symbols == []
    ensures !matches ==> forall c :: c in LETTERS ==> c in Letters(t) && !(Code(t, c) <= pending)
  {
    matches, left, end, symbols, rest := false, offset, index, [], pending;
    ghost var table := codes[..];
    assert decoded + [] == decoded;
    for j := 0 to 56
      invariant codes[..] == table
      invariant Holds(working[..], Str(rest)) && left == |rest|
      invariant Stored(buffer[..], decoded + symbols) && end == |decoded + symbols|
      invariant Decoding(t, pending, symbols, rest)
      invariant matches ==> |rest| < |pending|
      invariant !matches ==> rest == pending && symbols == []
      invariant !matches ==> forall k :: 0 <= k < j ==> LETTERS[k] in Letters(t) && !(Code(t, LETTERS[k]) <= pending)
    {
      CoderTableCode(t, table, j);
      ghost var code := Code(t, LETTERS[j]);
      var found := CodeAtFront(working, codes[j], rest, code);
      if found {
        matches := true;
        StoreLetter(buffer, end, LETTERS[j], decoded + symbols);
        end := end + 1;
        Associate(decoded, symbols, [LETTERS[j]]);
        DecodingStep(t, pending, symbols, rest, LETTERS[j]);
        symbols := symbols + [LETTERS[j]];
        assert Str(rest)[|code|..] == Str(rest[|code|..]);
        ShiftDown(working, |codes[j]|, Str(rest));
        left := left - |codes[j]|;
        rest := rest[|code|..];
      }
    }
  }

  /** The comparison of the raw buffer with a code. */
  method CodeAtFront(working: array<char>, printed: string, ghost pending: Bits, ghost code: Bits) returns (found: bool)
    requires Holds(working[..], Str(pending)) && printed == Str(code) && |code| <= working.Length
    ensures found == (code <= pending)
  {
    found := MemEqual(working, printed);
    MemEqualIsPrefix(working[..], Str(pending), printed);
    StrPrefix(code, pending);
  }

  /** Add one byte of the payload to the working string and decode as much as possible. */
  method DecodeByte(working: array<char>, offset: nat, b: Byte, codes: array<string>, buffer: array<char>, index: nat,
                    ghost t: Tree, ghost before: Bits, ghost decoded: string)
    returns (left: nat, end: nat)
    requires CoderTable(t, codes[..]) && t.Node? && working != buffer
    requires working.Length == WORKING_SIZE && Holds(working[..], Str(before)) && offset == |before| < Height(t)
    requires Stored(buffer[..], decoded) && index == |decoded|
    modifies working, buffer
    ensures var symbols := Symbols(t, before + BitsOf(b));
            Stored(buffer[..], decoded + symbols) && end == |decoded + symbols|
    ensures Holds(working[..], Str(Residue(t, before + BitsOf(b)))) && left == |Residue(t, before + BitsOf(b))|
  {
    AlphabetTreeLetters(t);
    ghost var table := codes[..];
    ghost var all := before + BitsOf(b);
    var digits := ByteToStr(b);
    StrConcat(before, BitsOf(b));
    StrCpyAt(working, offset, digits, Str(before));
    left, end := offset + 8, index;
    ghost var pending, symbols := all, [];
    assert decoded + [] == decoded;
    var matches := true;
    while matches
      invariant codes[..] == table
      invariant Holds(working[..], Str(pending)) && left == |pending|
      invariant Stored(buffer[..], decoded + symbols) && end == |decoded + symbols|
      invariant Decoding(t, all, symbols, pending)
      invariant !matches ==> forall c :: c in Letters(t) ==> !(Code(t, c) <= pending)
      decreases |pending|, matches
    {
      ghost var was := pending;
      ghost var more;
      matches, left, end, more, pending := Sweep(working, left, codes, buffer, end, t, was, decoded + symbols);
      Associate(decoded, symbols, more);
      Associate(symbols, more, Symbols(t, pending));
      symbols := symbols + more;
    }
    NoCodeStarts(t, pending);
  }

  /** The decoding loop over all bytes of the payload, storing letter after letter. */
  method DecodePayload(payload: seq<Byte>, codes: array<string>, buffer: array<char>, ghost t: Tree) returns (end: nat)
    requires CoderTable(t, codes[..]) && t.Node?
    modifies buffer
    ensures Stored(buffer[..], Symbols(t, Unpack(payload))) && end == |Symbols(t, Unpack(payload))|
  {
    end := 0;
    var working := new char[WORKING_SIZE](_ => NUL);
    var offset := 0;
    ghost var bits: Bits, table := [], codes[..];
    NothingToDecode(t);
    for i := 0 to |payload|
      invariant fresh(working) && working.Length == WORKING_SIZE && codes[..] == table
      invariant bits == Unpack(payload[..i])
      invariant Stored(buffer[..], Symbols(t, bits)) && end == |Symbols(t, bits)|
      invariant Holds(working[..], Str(Residue(t, bits))) && offset == |Residue(t, bits)|
    {
      ResidueShort(t, bits);
      DecodeAppend(t, bits, BitsOf(payload[i]));
      UnpackOne(payload, i);
      offset, end := DecodeByte(working, offset, payload[i], codes, buffer, end, t, Residue(t, bits), Symbols(t, bits));
      bits := bits + BitsOf(payload[i]);
    }
    assert payload[..|payload|] == payload;
  }

  lemma NothingToDecode(t: Tree)
    requires t.Node?
    ensures Symbols(t, []) == [] && Residue(t, []) == []
  {
  }

  lemma UnpackOne(payload: seq<Byte>, i: nat)
    requires i < |payload|
    ensures Unpack(payload[..i + 1]) == Unpack(payload[..i]) + BitsOf(payload[i])
  {
    assert payload[..i + 1] == payload[..i] + [payload[i]];
    UnpackConcat(payload[..i], [payload[i]]);
    assert Unpack([payload[i]]) == BitsOf(payload[i]) + [];
  }

  /** A file the decompressor can read: the lengths agree, the tree text parses to a tree with the
      56 letters, and the payload yields as many letters as announced. */
  ghost predicate ValidFile(file: seq<Byte>) {
    && WellSized(file)
    && Parsable(TreeText(file), 0)
    && AlphabetTree(FileTree(file))
    && FileTree(file).Node?
    && TextField(file) <= |Decoded(file)|
  }

  ghost function FileTree(file: seq<Byte>): Tree
    requires WellSized(file) && Parsable(TreeText(file), 0)
  {
    Parse(TreeText(file), [])[0]
  }

  /** All letters the payload decodes to, the surplus included. */
  ghost function Decoded(file: seq<Byte>): string
    requires WellSized(file) && Parsable(TreeText(file), 0) && FileTree(file).Node?
  {
    Symbols(FileTree(file), Unpack(PayloadOf(file)))
  }

  /** No store of the decoder leaves its output buffer. */
  ghost predicate StoresInside(file: seq<Byte>)
    requires ValidFile(file)
  {
    |Decoded(file)| <= TextField(file) + 1
  }

  /** From the bytes of the file to the text that is printed. The output buffer has one slot more than the
      text has letters; `end` counts the stores, so they all stay inside if and only if it is no more than
      the length of the buffer. */
  method DecompressFile(file: seq<Byte>) returns (buffer: array<char>, end: nat, printed: string)
    requires ValidFile(file)
    ensures fresh(buffer) && buffer.Length == TextField(file) + 1
    ensures end == |Decoded(file)| && (end <= buffer.Length <==> StoresInside(file))
    ensures buffer[..] == Decoded(file)[..TextField(file)] + [NUL]
    ensures printed == Decoded(file)[..TextField(file)]
  {
    var totalLength := ReadWord(file[0..4]);
    var headerLength := ReadWord(file[4..8]);
    var uncompressedLength := ReadWord(file[8..12]);
    var treeString := ByteChars(file[12..12 + headerLength]);
    var rebuilt := RebuildTree(treeString);
    var codes := AllCodes(rebuilt);
    buffer := new char[uncompressedLength + 1](_ => NUL);
    end := DecodePayload(file[12 + headerLength..totalLength], codes, buffer, rebuilt);
    buffer[uncompressedLength] := NUL;
    printed := buffer[..uncompressedLength];
    assert buffer[..] == printed + [NUL];
  }

  // The inverse.

  lemma {:induction false} SymbolsStripped(t: Tree, bits: Bits)
    requires t.Node?
    ensures Symbols(Strip(t), bits) == Symbols(t, bits)
    decreases |bits|
  {
    WalkStripped(t, bits);
    if Walk(t, bits).Some? {
      SymbolsStripped(t, Walk(t, bits).value.1);
    }
  }

  lemma {:induction false} WalkStripped(t: Tree, bits: Bits)
    ensures Walk(Strip(t), bits) == Walk(t, bits)
  {
    if t.Node? && bits != [] {
      WalkStripped(Child(t, bits[0]), bits[1..]);
    }
  }

  /** The decompressor accepts the file, takes `n` as the text length, and decodes `decoded`. */
  ghost predicate DecodesTo(file: seq<Byte>, n: nat, decoded: string) {
    ValidFile(file) && TextField(file) == n && Decoded(file) == decoded
  }

  /** The letters that a number of padding bits turns into. */
  function Surplus(t: Tree, zeros: nat): string {
    if t.Leaf? then [] else Repeat(LeftmostLetter(t), zeros / LeftmostDepth(t))
  }

  lemma AssembledTree(t: Tree, textLength: nat, payload: seq<Byte>)
    requires AlphabetTree(t)
    requires 12 + |Print(t)| + |payload| < 0x1_0000_0000 && textLength < 0x1_0000_0000
    ensures var file := Assemble(t, textLength, payload);
            && WellSized(file) && TextField(file) == textLength && PayloadOf(file) == payload
            && Parsable(TreeText(file), 0) && FileTree(file) == Strip(t)
  {
    AlphabetTreeLetters(t);
    PrintedEightBit(t);
    AssembledFields(t, textLength, payload);
    PrintThenParse(t);
  }

  /** A file whose payload unpacks to the codes of the text and some zeros is valid, and decodes to
      the text followed by copies of the leftmost letter. */
  lemma AssembledDecodes(t: Tree, text: string, payload: seq<Byte>, zeros: nat)
    requires AlphabetTree(t) && Encodable(t, text)
    requires 12 + |Print(t)| + |payload| < 0x1_0000_0000 && |text| < 0x1_0000_0000
    requires Unpack(payload) == EncodeBits(t, text) + Zeros(zeros)
    ensures DecodesTo(Assemble(t, |text|, payload), |text|, text + Surplus(t, zeros))
  {
    AlphabetTreeLetters(t);
    AssembledTree(t, |text|, payload);
    SymbolsStripped(t, Unpack(payload));
    DecodeEncoded(t, text, Zeros(zeros));
    DecodeZeros(t, zeros);
  }

  /** Lossless: whatever tree the compressor built, the decompressor accepts its file and finds the
      text. After the text come at most seven letters, all of them the leftmost letter of the tree, as
      many as fit into the padding. */
  lemma RoundTrip(t: Tree, text: string, file: seq<Byte>)
    requires CompressedWith(t, text, file)
    ensures DecodesTo(file, |text|, text + Surplus(t, PadLength(EncodeBits(t, text))))
    ensures |Surplus(t, PadLength(EncodeBits(t, text)))| <= 7
  {
    UnpackPack(EncodeBits(t, text));
    AlphabetTreeLetters(t);
    AssembledDecodes(t, text, Payload(t, text), PadLength(EncodeBits(t, text)));
    QuotientSmall(PadLength(EncodeBits(t, text)), LeftmostDepth(t));
  }

  /** What the decompressor prints is the text that was compressed. */
  lemma Lossless(text: string, file: seq<Byte>)
    requires exists t :: CompressedWith(t, text, file)
    ensures ValidFile(file) && Decoded(file)[..TextField(file)] == text
  {
    var t :| CompressedWith(t, text, file);
    RoundTrip(t, text, file);
  }

  lemma QuotientSmall(n: nat, d: nat)
    requires d >= 1
    ensures n / d <= n
  {
    var q := n / d;
    assert n == d * q + n % d;
    if q >= 1 { assert d * q == q + (d - 1) * q; }
  }
}
