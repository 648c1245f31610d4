/** The layout of a compressed file: three lengths, the printed tree, the packed codes. */
module FileFormat {
  import opened Trees
  import opened Bytes
  import opened CodeTables
  import opened Coding

  /** An `unsigned int` in memory, low byte first. */
  function Word(n: nat): (bytes: seq<Byte>)
    requires n < 0x1_0000_0000
    ensures |bytes| == 4
  {
    [n % 256, n / 0x100 % 256, n / 0x1_0000 % 256, n / 0x100_0000]
  }

  function ReadWord(bytes: seq<Byte>): (n: nat)
    requires |bytes| == 4
    ensures n < 0x1_0000_0000
  {
    (bytes[0] as int) + 0x100 * (bytes[1] as int) + 0x1_0000 * (bytes[2] as int) + 0x100_0000 * (bytes[3] as int)
  }

  lemma WordRoundTrip(n: nat)
    requires n < 0x1_0000_0000
    ensures ReadWord(Word(n)) == n
  {
    assert n / 0x1_0000 == n / 0x100 / 256;
    assert n / 0x100_0000 == n / 0x1_0000 / 256;
  }

  /** The other way round: no two words read the same. */
  lemma ReadWordRoundTrip(bytes: seq<Byte>)
    requires |bytes| == 4
    ensures Word(ReadWord(bytes)) == bytes
  {
    var m3 := bytes[3] as int;
    var m2 := bytes[2] as int + 256 * m3;
    var m1 := bytes[1] as int + 256 * m2;
    var n := bytes[0] as int + 256 * m1;
    assert n == ReadWord(bytes);
    LowByte(bytes[0], m1);
    LowByte(bytes[1], m2);
    LowByte(bytes[2], m3);
    assert n / 0x1_0000 == n / 0x100 / 256;
    assert n / 0x100_0000 == n / 0x1_0000 / 256;
  }

  lemma LowByte(b: Byte, m: nat)
    ensures (b as int + 256 * m) % 256 == b && (b as int + 256 * m) / 256 == m
  {
  }

  /** A string of 8-bit characters as bytes. */
  function CharBytes(s: string): (bytes: seq<Byte>)
    ensures |bytes| == |s|
  {
    seq(|s|, i requires 0 <= i < |s| => s[i] as int % 256)
  }

  function ByteChars(bytes: seq<Byte>): (s: string)
    ensures |s| == |bytes|
  {
    seq(|bytes|, i requires 0 <= i < |bytes| => bytes[i] as char)
  }

  predicate EightBit(s: string) {
    forall i :: 0 <= i < |s| ==> s[i] as int < 256
  }

  lemma CharsRoundTrip(s: string)
    requires EightBit(s)
    ensures ByteChars(CharBytes(s)) == s
  {
  }

  /** A text that can be written with the tree. */
  ghost predicate Encodable(t: Tree, text: string) {
    forall i :: 0 <= i < |text| ==> text[i] in Letters(t)
  }

  function Payload(t: Tree, text: string): seq<Byte>
    requires Encodable(t, text)
  {
    Pack(EncodeBits(t, text))
  }

  /** The size of the whole file. */
  function TotalLength(t: Tree, text: string): nat
    requires Encodable(t, text)
  {
    12 + |Print(t)| + |Payload(t, text)|
  }

  /** All lengths fit their 32-bit fields. */
  ghost predicate LengthsFit(t: Tree, text: string) {
    Encodable(t, text) && TotalLength(t, text) < 0x1_0000_0000 && |text| < 0x1_0000_0000
  }

  /** A file with the given tree, text length and payload. */
  function Assemble(t: Tree, textLength: nat, payload: seq<Byte>): (file: seq<Byte>)
    requires 12 + |Print(t)| + |payload| < 0x1_0000_0000 && textLength < 0x1_0000_0000
    ensures |file| == 12 + |Print(t)| + |payload|
  {
    Word(12 + |Print(t)| + |payload|) + AfterTotal(Print(t), textLength, payload)
  }

  /** Everything after the total length. */
  function AfterTotal(printed: string, textLength: nat, payload: seq<Byte>): (bytes: seq<Byte>)
    requires |printed| < 0x1_0000_0000 && textLength < 0x1_0000_0000
    ensures |bytes| == 8 + |printed| + |payload|
  {
    Word(|printed|) + Word(textLength) + CharBytes(printed) + payload
  }

  /** The file that the compressor writes when `t` is its tree. */
  function FileOf(t: Tree, text: string): (file: seq<Byte>)
    requires LengthsFit(t, text)
    ensures |file| == TotalLength(t, text)
  {
    Assemble(t, |text|, Payload(t, text))
  }

  // Reading a file.

  function TotalField(file: seq<Byte>): nat
    requires |file| >= 12
  {
    ReadWord(file[0..4])
  }

  function HeaderField(file: seq<Byte>): nat
    requires |file| >= 12
  {
    ReadWord(file[4..8])
  }

  function TextField(file: seq<Byte>): nat
    requires |file| >= 12
  {
    ReadWord(file[8..12])
  }

  /** The lengths are consistent with each other and with the size of the file. */
  predicate WellSized(file: seq<Byte>) {
    |file| >= 12 && 12 + HeaderField(file) <= TotalField(file) <= |file|
  }

  function TreeText(file: seq<Byte>): string
    requires WellSized(file)
  {
    ByteChars(file[12..12 + HeaderField(file)])
  }

  function PayloadOf(file: seq<Byte>): seq<Byte>
    requires WellSized(file)
  {
    file[12 + HeaderField(file)..TotalField(file)]
  }

  /** Every field of an assembled file reads back. */
  lemma AssembledFields(t: Tree, textLength: nat, payload: seq<Byte>)
    requires 12 + |Print(t)| + |payload| < 0x1_0000_0000 && textLength < 0x1_0000_0000
    requires EightBit(Print(t))
    ensures var file := Assemble(t, textLength, payload);
            && WellSized(file) && TextField(file) == textLength
            && TreeText(file) == Print(t) && PayloadOf(file) == payload
  {
    var file := Assemble(t, textLength, payload);
    var total, header := 12 + |Print(t)| + |payload|, |Print(t)|;
    assert file[0..4] == Word(total);
    assert file[4..8] == Word(header);
    assert file[8..12] == Word(textLength);
    WordRoundTrip(total);
    WordRoundTrip(header);
    WordRoundTrip(textLength);
    assert file[12..12 + header] == CharBytes(Print(t));
    CharsRoundTrip(Print(t));
    assert file[12 + header..total] == payload;
  }

  /** A length in a file, low byte first. */
  predicate LengthAt(file: seq<Byte>, at: nat, n: nat) {
    && at + 4 <= |file|
    && (file[at] as int) + 256 * (file[at + 1] as int)
       + 65536 * (file[at + 2] as int) + 16777216 * (file[at + 3] as int) == n
  }

  /** Every byte of a file, by position. */
  ghost predicate Layout(file: seq<Byte>, printed: string, textLength: nat, payload: seq<Byte>) {
    && |file| == 12 + |printed| + |payload|
    && LengthAt(file, 0, |file|) && LengthAt(file, 4, |printed|) && LengthAt(file, 8, textLength)
    && (forall k :: 0 <= k < |printed| ==> file[12 + k] == printed[k] as int)
    && (forall k :: 0 <= k < |payload| ==> file[12 + |printed| + k] == payload[k])
  }

  /** An assembled file is laid out so. */
  lemma AssembledLayout(t: Tree, textLength: nat, payload: seq<Byte>)
    requires 12 + |Print(t)| + |payload| < 0x1_0000_0000 && textLength < 0x1_0000_0000
    requires EightBit(Print(t))
    ensures Layout(Assemble(t, textLength, payload), Print(t), textLength, payload)
  {
    LayoutOfParts(Assemble(t, textLength, payload), Print(t), textLength, payload);
  }

  lemma LayoutOfParts(file: seq<Byte>, printed: string, textLength: nat, payload: seq<Byte>)
    requires 12 + |printed| + |payload| < 0x1_0000_0000 && textLength < 0x1_0000_0000 && EightBit(printed)
    requires file == Word(12 + |printed| + |payload|) + AfterTotal(printed, textLength, payload)
    ensures Layout(file, printed, textLength, payload)
  {
    var size := 12 + |printed| + |payload|;
    FileParts(file, Word(size), Word(|printed|), Word(textLength), CharBytes(printed), payload);
    PlainBytes(printed);
    LengthOfWord(file, 0, size);
    LengthOfWord(file, 4, |printed|);
    LengthOfWord(file, 8, textLength);
  }

  lemma PlainBytes(s: string)
    requires EightBit(s)
    ensures forall k :: 0 <= k < |s| ==> CharBytes(s)[k] == s[k] as int
  {
  }

  lemma FileParts(file: seq<Byte>, total: seq<Byte>, header: seq<Byte>, length: seq<Byte>, chars: seq<Byte>,
                  payload: seq<Byte>)
    requires |total| == 4 && |header| == 4 && |length| == 4
    requires file == total + (header + length + chars + payload)
    ensures file[0..4] == total && file[4..8] == header && file[8..12] == length
    ensures forall k :: 0 <= k < |chars| ==> file[12 + k] == chars[k]
    ensures forall k :: 0 <= k < |payload| ==> file[12 + |chars| + k] == payload[k]
  {
  }

  lemma LengthOfWord(file: seq<Byte>, at: nat, n: nat)
    requires at + 4 <= |file| && n < 0x1_0000_0000 && file[at..at + 4] == Word(n)
    ensures LengthAt(file, at, n)
  {
    var w := file[at..at + 4];
    WordRoundTrip(n);
    assert w[0] == file[at] && w[1] == file[at + 1] && w[2] == file[at + 2] && w[3] == file[at + 3];
  }
}
