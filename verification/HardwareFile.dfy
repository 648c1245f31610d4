/** How the file of the hardware compares with that of the software. */
module HardwareFiles {
  import opened Alphabet
  import opened Trees
  import opened Forests
  import opened Bytes
  import opened CodeTables
  import opened Coding
  import opened FileFormat
  import opened Avalon
  import opened Limits
  import opened Decompress
  import opened SurplusLetters
  import opened HardwareResult

  /** The two payloads are equal exactly when the codes do not fill whole bytes; otherwise the hardware writes
      one byte of zeros more. */
  lemma HardwareAgainstSoftware(t: Tree, text: string)
    requires Encodable(t, text)
    ensures HardwarePayload(t, text) == Payload(t, text) <==> |EncodeBits(t, text)| % 8 != 0
    ensures HardwarePayload(t, text) == Payload(t, text) + if |EncodeBits(t, text)| % 8 == 0 then [0] else []
  {
    EightZeros(EncodeBits(t, text));
  }

  lemma EightZeros(bits: Bits)
    ensures FullBytes(bits + Zeros(8)) == Pack(bits) + if |bits| % 8 == 0 then [0] else []
  {
    RestLength(bits);
    StreamAppend(bits, Zeros(8));
    if Rest(bits) == [] {
      NothingLeft(bits, Rest(bits), FullBytes(bits));
    } else {
      SomethingLeft(bits, Rest(bits), FullBytes(bits));
    }
  }

  lemma NothingLeft(bits: Bits, r: Bits, whole: seq<Byte>)
    requires whole == FullBytes(bits) && r == Rest(bits) == []
    ensures whole + FullBytes(r + Zeros(8)) == Pack(bits) + [0]
  {
    assert r + Zeros(8) == Zeros(8);
    ZeroByte();
    assert whole + [] == whole;
  }

  lemma SomethingLeft(bits: Bits, r: Bits, whole: seq<Byte>)
    requires whole == FullBytes(bits) && r == Rest(bits) != []
    ensures whole + FullBytes(r + Zeros(8)) == Pack(bits) + []
  {
    PaddedRest(r);
    var last := [ByteOf(r + Zeros(8 - |r|))];
    assert whole + last + [] == whole + last;
  }

  lemma PaddedRest(r: Bits)
    requires 1 <= |r| < 8
    ensures FullBytes(r + Zeros(8)) == [ByteOf(r + Zeros(8 - |r|))]
  {
    assert (r + Zeros(8))[..8] == r + Zeros(8 - |r|);
    assert FullBytes((r + Zeros(8))[8..]) == [];
  }

  lemma ZeroByte()
    ensures FullBytes(Zeros(8)) == [0]
  {
    assert Zeros(8)[..8] == Zeros(8) && Zeros(8)[8..] == [];
    assert FullBytes([]) == [];
    ZeroValue(8);
  }

  lemma {:induction false} ZeroValue(n: nat)
    ensures Value(Zeros(n)) == 0
  {
    if n > 0 {
      assert Zeros(n)[..n - 1] == Zeros(n - 1);
      ZeroValue(n - 1);
    }
  }

  /** The empty text is one for which they differ. */
  lemma EmptyTextDiffers(t: Tree)
    ensures HardwarePayload(t, "") == [0] && Payload(t, "") == []
  {
    HardwareAgainstSoftware(t, "");
    UnpackPack([]);
  }

  /** The zeros behind the codes in the hardware's payload. */
  function HardwareZeros(t: Tree, text: string): (zeros: nat)
    requires Encodable(t, text)
    ensures 1 <= zeros <= 8
  {
    8 - |EncodeBits(t, text)| % 8
  }

  /** All letters that the hardware's file decodes to. */
  function HardwareLetters(t: Tree, text: string): string
    requires Encodable(t, text)
  {
    text + Surplus(t, HardwareZeros(t, text))
  }

  /** What the decoder makes of the hardware's file: the text, and what the zeros behind the codes decode to; and
      when it stays inside its output buffer. */
  ghost predicate HardwareDecodes(t: Tree, text: string, file: seq<Byte>)
    requires Encodable(t, text)
  {
    && DecodesTo(file, |text|, HardwareLetters(t, text))
    && (StoresInside(file) <==> HardwareZeros(t, text) < 2 * LeftmostDepth(t))
  }

  lemma IsNode(t: Tree)
    requires AlphabetTree(t)
    ensures t.Node?
  {
    AlphabetTreeLetters(t);
  }

  lemma HardwareFileLetters(t: Tree, text: string)
    requires AlphabetTree(t) && Encodable(t, text) && |text| < SPACE
    requires 12 + |Print(t)| + |HardwarePayload(t, text)| < SPACE
    ensures DecodesTo(Assemble(t, |text|, HardwarePayload(t, text)), |text|, HardwareLetters(t, text))
  {
    HardwareUnpacks(t, text);
    AssembledDecodes(t, text, HardwarePayload(t, text), HardwareZeros(t, text));
  }

  /** A file with the hardware's payload decodes to the same text. The surplus comes from the zeros behind the
      codes, one to eight of them; the decoder stays inside its output buffer exactly when they are fewer than
      two codes of the leftmost letter. */
  lemma HardwareFileDecodes(t: Tree, text: string)
    requires AlphabetTree(t) && Encodable(t, text) && |text| < SPACE
    requires 12 + |Print(t)| + |HardwarePayload(t, text)| < SPACE
    ensures HardwareDecodes(t, text, Assemble(t, |text|, HardwarePayload(t, text)))
  {
    IsNode(t);
    HardwareFileLetters(t, text);
    ZerosFit(t, text, Assemble(t, |text|, HardwarePayload(t, text)), HardwareZeros(t, text));
  }

  /** The same for the software's file. */
  ghost predicate SoftwareDecodes(t: Tree, text: string, file: seq<Byte>)
    requires Encodable(t, text)
  {
    var zeros := PadLength(EncodeBits(t, text));
    && DecodesTo(file, |text|, text + Surplus(t, zeros))
    && (StoresInside(file) <==> zeros < 2 * LeftmostDepth(t))
  }

  lemma SoftwareFileDecodes(t: Tree, text: string)
    requires AlphabetTree(t) && Encodable(t, text) && |text| < SPACE
    requires 12 + |Print(t)| + |Payload(t, text)| < SPACE
    ensures SoftwareDecodes(t, text, Assemble(t, |text|, Payload(t, text)))
  {
    var zeros := PadLength(EncodeBits(t, text));
    UnpackPack(EncodeBits(t, text));
    AssembledDecodes(t, text, Payload(t, text), zeros);
    AlphabetTreeLetters(t);
    ZerosFit(t, text, Assemble(t, |text|, Payload(t, text)), zeros);
  }

  lemma WholeBytes(t: Tree, text: string, hardware: seq<Byte>, software: seq<Byte>)
    requires t.Node? && Encodable(t, text) && |EncodeBits(t, text)| % 8 == 0
    requires HardwareDecodes(t, text, hardware) && SoftwareDecodes(t, text, software)
    ensures StoresInside(software) && (StoresInside(hardware) <==> 5 <= LeftmostDepth(t))
  {
  }

  /** What the additional byte does to the decoder: if the codes fill whole bytes, the software's file has no
      surplus at all, and the hardware's overruns the output buffer unless the leftmost leaf is at depth five or
      more; otherwise the files are the same. */
  lemma AdditionalByte(t: Tree, text: string)
    requires AlphabetTree(t) && Encodable(t, text) && |text| < SPACE
    requires 12 + |Print(t)| + |HardwarePayload(t, text)| < SPACE
    ensures |Payload(t, text)| <= |HardwarePayload(t, text)|
    ensures var hardware := Assemble(t, |text|, HardwarePayload(t, text));
            var software := Assemble(t, |text|, Payload(t, text));
            && ValidFile(hardware) && ValidFile(software)
            && (|EncodeBits(t, text)| % 8 != 0 ==> hardware == software)
            && (|EncodeBits(t, text)| % 8 == 0 ==>
                  StoresInside(software) && (StoresInside(hardware) <==> 5 <= LeftmostDepth(t)))
  {
    HardwareAgainstSoftware(t, text);
    HardwareFileDecodes(t, text);
    SoftwareFileDecodes(t, text);
    AlphabetTreeLetters(t);
    if |EncodeBits(t, text)| % 8 == 0 {
      WholeBytes(t, text, Assemble(t, |text|, HardwarePayload(t, text)), Assemble(t, |text|, Payload(t, text)));
    }
  }

  const HARMED: string := "AAAABBBCC"

  lemma HarmedCounts()
    ensures HasCounts(HARMED, 4, 3, 2) && |HARMED| == 9
  {
    assert HARMED == ['A', 'A', 'A', 'A', 'B', 'B', 'B', 'C', 'C'];
  }

  /** The software's file keeps the decoder inside its buffer, the hardware's does not. */
  ghost predicate OnlyHardwareOverruns(t: Tree, text: string)
    requires Encodable(t, text)
  {
    && 12 + |Print(t)| + |Payload(t, text)| < SPACE && |text| < SPACE
    && 12 + |Print(t)| + |HardwarePayload(t, text)| < SPACE
    && var hardware := Assemble(t, |text|, HardwarePayload(t, text));
       var software := Assemble(t, |text|, Payload(t, text));
       ValidFile(software) && StoresInside(software) && ValidFile(hardware) && !StoresInside(hardware)
  }

  lemma SixteenBits(t: Tree, text: string)
    requires HasCounts(text, 4, 3, 2) && |text| == 9 && TreeFor(t, text)
    ensures Encodable(t, text) && OnlyHardwareOverruns(t, text)
  {
    ThreeLetterTree(text, t);
    BitsOfText(t, text);
    TreeForText(t, text);
    AdditionalByte(t, text);
  }

  lemma AllHarmed(text: string)
    requires HasCounts(text, 4, 3, 2) && |text| == 9
    ensures OverAlphabet(text)
    ensures forall t :: TreeFor(t, text) ==> Encodable(t, text) && OnlyHardwareOverruns(t, text)
  {
    FirstThree(text, LeafTrees(LETTERS, Counts(text, LETTERS)));
    forall t | TreeFor(t, text) ensures Encodable(t, text) && OnlyHardwareOverruns(t, text) {
      SixteenBits(t, text);
    }
  }

  /** There are such texts: this one takes sixteen bits, however ties fall, and the additional byte makes eight
      surplus letters. */
  lemma AdditionalByteHarms() returns (t: Tree)
    ensures TreeFor(t, HARMED)
    ensures forall u :: TreeFor(u, HARMED) ==> Encodable(u, HARMED) && OnlyHardwareOverruns(u, HARMED)
  {
    HarmedCounts();
    AllHarmed(HARMED);
    t := SomeTree(HARMED);
  }

  lemma HardwareUnpacks(t: Tree, text: string)
    requires Encodable(t, text)
    ensures var bits := EncodeBits(t, text);
            Unpack(HardwarePayload(t, text)) == bits + Zeros(HardwareZeros(t, text))
  {
    var bits := EncodeBits(t, text);
    var all, payload := bits + Zeros(8), HardwarePayload(t, text);
    UnpackFullBytes(all);
    RestLength(all);
    UnpackLength(payload);
    assert Unpack(payload) == all[..8 * |payload|];
    assert all[..8 * |payload|] == bits + Zeros(8 - |bits| % 8);
  }

  lemma {:induction false} UnpackLength(bytes: seq<Byte>)
    ensures |Unpack(bytes)| == 8 * |bytes|
  {
    if bytes != [] { UnpackLength(bytes[1..]); }
  }
}
