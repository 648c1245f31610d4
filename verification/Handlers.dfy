/** The server's compressor, which works into a buffer of fixed size. */
module Handlers {
  import opened Alphabet
  import opened Trees
  import opened Bytes
  import opened CStrings
  import opened CodeTables
  import opened Coding
  import opened FileFormat
  import opened Limits
  import opened Compress

  /** A buffer that starts with `prefix` and is zero from there on. */
  function Image(prefix: seq<Byte>, size: nat): (image: seq<Byte>)
    requires |prefix| <= size
    ensures |image| == size
  {
    prefix + seq(size - |prefix|, _ => 0)
  }

  lemma ImageGrows(prefix: seq<Byte>, size: nat, bytes: seq<Byte>)
    requires |prefix| + |bytes| <= size
    ensures Image(prefix, size)[..|prefix|] + bytes + Image(prefix, size)[|prefix| + |bytes|..]
        == Image(prefix + bytes, size)
  {
  }

  /** `memcpy` into a byte buffer. */
  method CopyBytes(dst: array<Byte>, at: nat, bytes: seq<Byte>)
    requires at + |bytes| <= dst.Length
    modifies dst
    ensures dst[..] == old(dst[..at]) + bytes + old(dst[at + |bytes|..])
  {
    for i := 0 to |bytes|
      invariant dst[..at] == old(dst[..at]) && dst[at..at + i] == bytes[..i]
      invariant dst[at + i..] == old(dst[at + i..])
    {
      dst[at + i] := bytes[i];
    }
    assert dst[..] == dst[..at] + dst[at..at + |bytes|] + dst[at + |bytes|..];
  }

  /** Store one byte behind `prefix`. */
  method StoreByte(encoded: array<Byte>, at: nat, b: Byte, ghost prefix: seq<Byte>)
    requires at == |prefix| < encoded.Length && encoded[..] == Image(prefix, encoded.Length)
    modifies encoded
    ensures encoded[..] == Image(prefix + [b], encoded.Length)
  {
    ImageGrows(prefix, encoded.Length, [b]);
    assert encoded[..at] == encoded[..][..at] && encoded[at + 1..] == encoded[..][at + 1..];
    CopyBytes(encoded, at, [b]);
  }

  /** Take whole bytes off the working string and store them behind `prefix`. */
  method DrainInto(working: array<char>, offset: nat, encoded: array<Byte>, base: nat, written: nat,
                   ghost pending: Bits, ghost prefix: seq<Byte>)
    returns (left: nat, total: nat)
    requires Holds(working[..], Str(pending)) && offset == |pending|
    requires base + written == |prefix| && |prefix| + |FullBytes(pending)| <= encoded.Length
    requires encoded[..] == Image(prefix, encoded.Length)
    modifies working, encoded
    ensures Holds(working[..], Str(Rest(pending))) && left == |Rest(pending)|
    ensures total == written + |FullBytes(pending)|
    ensures encoded[..] == Image(prefix + FullBytes(pending), encoded.Length)
  {
    left, total := offset, written;
    ghost var now, stored := pending, prefix;
    var length := StrLen(working, Str(now));
    while length >= 8
      invariant Holds(working[..], Str(now)) && left == |now| == length
      invariant stored + FullBytes(now) == prefix + FullBytes(pending) && Rest(now) == Rest(pending)
      invariant base + total == |stored| <= encoded.Length && encoded[..] == Image(stored, encoded.Length)
      decreases length
    {
      var b := FirstByte(working, now);
      assert |stored + FullBytes(now)| <= encoded.Length;
      StoreByte(encoded, base + total, b, stored);
      stored := stored + [b];
      total := total + 1;
      assert Str(now)[8..] == Str(now[8..]);
      ShiftDown(working, 8, Str(now));
      left := left - 8;
      now := now[8..];
      length := StrLen(working, Str(now));
    }
  }

  lemma {:induction false} BytesSoFar(t: Tree, text: string, i: nat)
    requires Encodable(t, text) && i <= |text|
    ensures |FullBytes(EncodeBits(t, text[..i]))| <= |Payload(t, text)|
    decreases |text| - i
  {
    if i == |text| {
      assert text[..i] == text;
    } else {
      BytesSoFar(t, text, i + 1);
      assert text[..i + 1][..i] == text[..i];
      StreamAppend(EncodeBits(t, text[..i]), Code(t, text[i]));
    }
  }

  /** One round of the coding loop: append the code of a letter, store the complete bytes. */
  method EncodeLetterInto(working: array<char>, offset: nat, c: char, codes: array<string>, encoded: array<Byte>,
                          base: nat, written: nat, ghost t: Tree, ghost header: seq<Byte>, ghost bits: Bits)
    returns (left: nat, total: nat)
    requires CoderTable(t, codes[..]) && c in LETTERS && c in Letters(t)
    requires working.Length == WORKING_SIZE
    requires Holds(working[..], Str(Rest(bits))) && offset == |Rest(bits)|
    requires base == |header| && written == |FullBytes(bits)|
    requires |header| + |FullBytes(bits + Code(t, c))| <= encoded.Length
    requires |header + FullBytes(bits)| <= encoded.Length
        && encoded[..] == Image(header + FullBytes(bits), encoded.Length)
    modifies working, encoded
    ensures Holds(working[..], Str(Rest(bits + Code(t, c)))) && left == |Rest(bits + Code(t, c))|
    ensures total == |FullBytes(bits + Code(t, c))|
    ensures encoded[..] == Image(header + FullBytes(bits + Code(t, c)), encoded.Length)
  {
    ghost var code := Code(t, c);
    StreamAppend(bits, code);
    Associate(header, FullBytes(bits), FullBytes(Rest(bits) + code));
    left := AppendCode(working, offset, c, codes, t, Rest(bits));
    left, total := DrainInto(working, left, encoded, base, written, Rest(bits) + code, header + FullBytes(bits));
  }

  /** The coding loop, storing the payload behind `header`. */
  method EncodeInto(text: string, codes: array<string>, encoded: array<Byte>, base: nat, ghost t: Tree,
                    ghost header: seq<Byte>)
    returns (written: nat)
    requires OverAlphabet(text) && CoderTable(t, codes[..]) && Encodable(t, text)
    requires base == |header| && |header| + |Payload(t, text)| <= encoded.Length
    requires encoded[..] == Image(header, encoded.Length)
    modifies encoded
    ensures written == |Payload(t, text)|
    ensures encoded[..] == Image(header + Payload(t, text), encoded.Length)
  {
    written := 0;
    var working := new char[WORKING_SIZE](_ => NUL);
    var offset := 0;
    ghost var bits: Bits := [];
    ghost var table := codes[..];
    assert header + FullBytes(bits) == header;
    for i := 0 to |text|
      invariant fresh(working) && working.Length == WORKING_SIZE && codes[..] == table
      invariant bits == EncodeBits(t, text[..i]) && written == |FullBytes(bits)|
      invariant |header + FullBytes(bits)| <= encoded.Length
      invariant encoded[..] == Image(header + FullBytes(bits), encoded.Length)
      invariant Holds(working[..], Str(Rest(bits))) && offset == |Rest(bits)|
    {
      BytesSoFar(t, text, i + 1);
      assert text[..i + 1][..i] == text[..i];
      offset, written := EncodeLetterInto(working, offset, text[i], codes, encoded, base, written, t, header, bits);
      bits := bits + Code(t, text[i]);
    }
    assert text[..|text|] == text;
    written := StoreLast(working, encoded, base, written, header, bits);
  }

  /** Pad what is left in the working string and store it, if there is anything. */
  method StoreLast(working: array<char>, encoded: array<Byte>, base: nat, written: nat, ghost header: seq<Byte>,
                   ghost bits: Bits)
    returns (total: nat)
    requires Holds(working[..], Str(Rest(bits)))
    requires base == |header| && written == |FullBytes(bits)| && |header| + |Pack(bits)| <= encoded.Length
    requires |header + FullBytes(bits)| <= encoded.Length
        && encoded[..] == Image(header + FullBytes(bits), encoded.Length)
    modifies encoded
    ensures total == |Pack(bits)| && encoded[..] == Image(header + Pack(bits), encoded.Length)
  {
    total := written;
    var length := StrLen(working, Str(Rest(bits)));
    if length > 0 {
      var b := LastByte(working, Rest(bits));
      assert Pack(bits) == FullBytes(bits) + [b];
      Associate(header, FullBytes(bits), [b]);
      StoreByte(encoded, base + written, b, header + FullBytes(bits));
      total := total + 1;
    } else {
      assert Pack(bits) == FullBytes(bits);
    }
  }

  lemma {:induction false} AtLeastABitEach(t: Tree, text: string)
    requires t.Node? && Encodable(t, text)
    ensures |text| <= |EncodeBits(t, text)|
  {
    if text != [] {
      AtLeastABitEach(t, text[..|text| - 1]);
      CodeBounds(t, text[|text| - 1]);
    }
  }

  lemma FittingLengths(t: Tree, text: string)
    requires TreeFor(t, text) && FitsBuffer(t, text)
    ensures AlphabetTree(t) && LengthsFit(t, text)
  {
    TreeForText(t, text);
    AlphabetTreeLetters(t);
    AtLeastABitEach(t, text);
    UnpackPack(EncodeBits(t, text));
  }

  lemma LengthsInBuffer(buffer: seq<Byte>, size: nat, n: nat)
    requires 12 <= size <= |buffer| && LengthAt(buffer[..size], 0, size)
    requires LengthAt(buffer[..size], 4, 167) && LengthAt(buffer[..size], 8, n)
    ensures LengthAt(buffer, 0, size) && LengthAt(buffer, 4, 167) && LengthAt(buffer, 8, n)
  {
  }

  /** The compressor of the server. It does not check its buffer: the file of the text has to fit. */
  method CompressToBuffer(text: string) returns (encoded: array<Byte>, totalLength: nat)
    requires OverAlphabet(text)
    requires forall t :: TreeFor(t, text) ==> FitsBuffer(t, text)
    ensures fresh(encoded) && totalLength <= encoded.Length == BUFFER_SIZE
    ensures exists t :: CompressedWith(t, text, encoded[..totalLength])
    ensures LengthAt(encoded[..], 0, totalLength) && LengthAt(encoded[..], 4, 167) && LengthAt(encoded[..], 8, |text|)
    ensures forall k :: totalLength <= k < encoded.Length ==> encoded[k] == 0
  {
    var frequencies := new nat[56](_ => 0);
    LetterTable();
    PrepareFrequencies(text, LETTERS, frequencies);
    ghost var counts := frequencies[..];
    var printed, codes, t := HuffmanCodes(LETTERS, frequencies[..]);
    assert counts == Counts(text, LETTERS);
    assert TreeFor(t, text);
    FittingLengths(t, text);
    encoded, totalLength := FillBuffer(text, printed, codes, t);
    assert CompressedWith(t, text, encoded[..totalLength]);
    CompressedLayout(t, text, encoded[..totalLength]);
    LengthsInBuffer(encoded[..], totalLength, |text|);
  }

  /** Header, payload, and at last the total length in front. */
  method FillBuffer(text: string, printed: string, codes: array<string>, ghost t: Tree)
    returns (encoded: array<Byte>, totalLength: nat)
    requires OverAlphabet(text) && CoderTable(t, codes[..]) && printed == Print(t)
    requires LengthsFit(t, text) && FitsBuffer(t, text)
    ensures fresh(encoded) && encoded.Length == BUFFER_SIZE && totalLength == TotalLength(t, text)
    ensures encoded[..totalLength] == FileOf(t, text)
    ensures forall k :: totalLength <= k < encoded.Length ==> encoded[k] == 0
  {
    encoded := new Byte[65536](_ => 0);
    var written := FillBody(text, printed, codes, encoded, t);
    totalLength := 12 + |printed| + written;
    ghost var rest := TotalAndRest(t, text);
    WriteTotal(encoded, totalLength, rest);
  }

  /** The file as a total length and the rest. */
  lemma TotalAndRest(t: Tree, text: string) returns (rest: seq<Byte>)
    requires LengthsFit(t, text)
    ensures rest == AfterTotal(Print(t), |text|, Payload(t, text)) && |rest| + 4 == TotalLength(t, text)
    ensures FileOf(t, text) == Word(TotalLength(t, text)) + rest
  {
    rest := AfterTotal(Print(t), |text|, Payload(t, text));
  }

  /** Store the total length in front of the rest of the file. */
  method WriteTotal(encoded: array<Byte>, totalLength: nat, ghost rest: seq<Byte>)
    requires totalLength == 4 + |rest| <= encoded.Length && totalLength < 0x1_0000_0000
    requires encoded[..] == Image(Word(0) + rest, encoded.Length)
    modifies encoded
    ensures encoded[..totalLength] == Word(totalLength) + rest
    ensures forall k :: totalLength <= k < encoded.Length ==> encoded[k] == 0
  {
    ReplaceLength(Word(0), rest, Word(totalLength), encoded.Length);
    assert encoded[4..] == encoded[..][4..];
    CopyBytes(encoded, 0, Word(totalLength));
    ImageParts(encoded[..], Word(totalLength) + rest, encoded.Length);
  }

  lemma ImageParts(image: seq<Byte>, prefix: seq<Byte>, size: nat)
    requires |prefix| <= size && image == Image(prefix, size)
    ensures image[..|prefix|] == prefix
    ensures forall k :: |prefix| <= k < size ==> image[k] == 0
  {
  }

  /** Everything but the total length. */
  method FillBody(text: string, printed: string, codes: array<string>, encoded: array<Byte>, ghost t: Tree)
    returns (written: nat)
    requires OverAlphabet(text) && CoderTable(t, codes[..]) && printed == Print(t)
    requires LengthsFit(t, text) && FitsBuffer(t, text)
    requires encoded.Length == BUFFER_SIZE && forall k :: 0 <= k < encoded.Length ==> encoded[k] == 0
    modifies encoded
    ensures written == |Payload(t, text)|
    ensures encoded[..] == Image(Word(0) + AfterTotal(printed, |text|, Payload(t, text)), BUFFER_SIZE)
  {
    ghost var table := codes[..];
    assert encoded[..] == Image([], encoded.Length);
    WriteHeader(encoded, printed, |text|);
    assert codes[..] == table;
    ghost var header := Word(0) + AfterTotal(printed, |text|, []);
    written := EncodeInto(text, codes, encoded, 12 + |printed|, t, header);
    HeaderAndPayload(printed, |text|, Payload(t, text));
  }

  lemma HeaderAndPayload(printed: string, textLength: nat, payload: seq<Byte>)
    requires |printed| < 0x1_0000_0000 && textLength < 0x1_0000_0000
    ensures Word(0) + AfterTotal(printed, textLength, []) + payload
         == Word(0) + AfterTotal(printed, textLength, payload)
  {
  }

  lemma ReplaceLength(a: seq<Byte>, rest: seq<Byte>, b: seq<Byte>, size: nat)
    requires |a| == |b| == 4 && 4 + |rest| <= size
    ensures b + Image(a + rest, size)[4..] == Image(b + rest, size)
  {
  }

  /** The two lengths known in advance, and the tree. */
  method WriteHeader(encoded: array<Byte>, printed: string, textLength: nat)
    requires encoded[..] == Image([], encoded.Length)
    requires 12 + |printed| <= encoded.Length && |printed| < 0x1_0000_0000 && textLength < 0x1_0000_0000
    modifies encoded
    ensures encoded[..] == Image(Word(0) + AfterTotal(printed, textLength, []), encoded.Length)
  {
    ghost var size := encoded.Length;
    ghost var p0, p1, p2 := HeaderParts(printed, textLength, size);
    CopyBytes(encoded, 4, Word(|printed|));
    CopyBytes(encoded, 8, Word(textLength));
    CopyBytes(encoded, 12, CharBytes(printed));
  }

  /** The contents of the buffer as the header is written. */
  lemma HeaderParts(printed: string, textLength: nat, size: nat) returns (p0: seq<Byte>, p1: seq<Byte>, p2: seq<Byte>)
    requires 12 + |printed| <= size && |printed| < 0x1_0000_0000 && textLength < 0x1_0000_0000
    ensures |p0| == 4 && |p1| == 8 && |p2| == 12
    ensures Image(p0, size) == Image([], size)
    ensures Image(p0, size)[..4] + Word(|printed|) + Image(p0, size)[8..] == Image(p1, size)
    ensures Image(p1, size)[..8] + Word(textLength) + Image(p1, size)[12..] == Image(p2, size)
    ensures Image(p2, size)[..12] + CharBytes(printed) + Image(p2, size)[12 + |printed|..]
         == Image(Word(0) + AfterTotal(printed, textLength, []), size)
  {
    p0 := Word(0);
    p1 := p0 + Word(|printed|);
    p2 := p1 + Word(textLength);
    ImageGrows(p0, size, Word(|printed|));
    ImageGrows(p1, size, Word(textLength));
    ImageGrows(p2, size, CharBytes(printed));
    assert Word(0) + AfterTotal(printed, textLength, []) == p2 + CharBytes(printed);
  }
}
