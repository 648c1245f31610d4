/** From the image that the processor writes to the output of the FPGA. */
module HardwareImage {
  import opened Alphabet
  import opened Trees
  import opened Bytes
  import opened Coding
  import opened CodeTables
  import opened FileFormat
  import opened Avalon
  import opened TextHandlers
  import opened HardwarePath
  import opened HardwareResult
  import opened HardwareFiles
  import opened Decompress
  import opened Encoders
  import opened EncoderPath
  import opened EncoderResult
  import opened Compress
  import H = Hardware
  import R = CodeReaders

  /** The image for a tree and a text, seen from the FPGA. */
  ghost predicate ImageFor(t: Tree, text: string, image: seq<Byte>, cds: seq<string>, treeOffset: nat,
                           textOffset: nat)
  {
    && AlphabetTree(t) && IsCodeTable(t, LETTERS, cds)
    && |image| <= SPACE
    && H.CodesWritten(image, cds, 56)
    && H.CodeOffset(cds, 56) <= textOffset && treeOffset + |Print(t)| <= textOffset
    && StringAt(image, treeOffset, CharBytes(Print(t)))
    && StringAt(image, textOffset, CharBytes(text))
  }

  lemma CodesStorable(t: Tree, cds: seq<string>)
    requires CoderTable(t, cds)
    ensures |cds| == 56 && forall i :: 0 <= i < 56 ==> H.Storable(cds[i])
  {
    LetterTable();
    forall i | 0 <= i < 56 ensures H.Storable(cds[i]) {
      CoderTableCode(t, cds, i);
    }
  }

  lemma TreeStorable(t: Tree)
    requires AlphabetTree(t)
    ensures H.Storable(Print(t))
  {
    LetterTable();
    AlphabetTreeLetters(t);
    PrintedEightBit(t);
    PrintHasNoNul(t);
  }

  lemma TextStorable(text: string)
    requires OverAlphabet(text) && |text| < 0x400_0000
    ensures H.Storable(text)
  {
    forall i | 0 <= i < |text| ensures 0 < text[i] as int < 256 {
      LetterIsByte(text[i]);
    }
  }

  /** The processor writes codes, tree and text, and then the addresses, as the FPGA sees them, to the registers
      of the encoder. */
  method WriteImage(g: H.GlobalAddrs, cds: seq<string>, tree: string, text: string) returns (addresses: Addresses)
    requires g.Valid() && |cds| == 56 && (forall i :: 0 <= i < 56 ==> H.Storable(cds[i]))
    requires H.Storable(tree) && H.Storable(text)
    requires H.CodeOffset(cds, 56) + 7 + |tree| + |text| + 4 < g.memory.Length
    modifies g, g.memory
    ensures g.Valid() && H.CodesWritten(g.memory[..], cds, 56)
    ensures addresses.codes == 0 && H.CodeOffset(cds, 56) + 3 == addresses.tree
    ensures addresses.tree + |tree| + 4 == addresses.text
    ensures StringAt(g.memory[..], addresses.tree, CharBytes(tree))
    ensures StringAt(g.memory[..], addresses.text, CharBytes(text))
    ensures addresses.text + |text| + 4 == addresses.dst == g.dstAddr - g.encoderMemory
  {
    g.WriteCodesToMem(cds);
    g.WriteTreeToMem(tree, cds);
    g.WriteTextToMem(text, tree, cds);
    addresses := Addresses(g.codes - g.encoderMemory, g.treeStr - g.encoderMemory,
                           g.textSrc - g.encoderMemory, g.dstAddr - g.encoderMemory);
  }

  /** What the processor writes for a text and its tree is an image that the hardware can work from. */
  method PrepareImage(g: H.GlobalAddrs, cds: seq<string>, tree: string, text: string, ghost t: Tree)
    returns (addresses: Addresses)
    requires g.Valid() && CoderTable(t, cds) && tree == Print(t) && OverAlphabet(text) && |text| < 0x400_0000
    requires H.CodeOffset(cds, 56) + 7 + |tree| + |text| + 4 < g.memory.Length
    modifies g, g.memory
    ensures g.Valid() && ImageFor(t, text, g.memory[..], cds, addresses.tree, addresses.text)
    ensures addresses.codes == 0 && addresses.text + |text| + 4 == addresses.dst == g.dstAddr - g.encoderMemory
    ensures addresses.text == H.CodeOffset(cds, 56) + 7 + |tree|
  {
    CodesStorable(t, cds);
    TreeStorable(t);
    TextStorable(text);
    addresses := WriteImage(g, cds, tree, text);
  }

  /** A string of the image, seen from the FPGA. */
  lemma StringSeen(image: seq<Byte>, mem: Memory, at: nat, s: seq<Byte>)
    requires StringAt(image, at, s) && |image| <= SPACE && mem[..|image|] == image
    ensures StringAt(mem, at, s)
  {
    assert image[..|image|] == image;
    SliceKept(image, mem, |image|, at, at + |s|);
  }

  /** A word of the image, seen from the FPGA. */
  lemma WordSeen(image: seq<Byte>, mem: Memory, at: nat)
    requires at + 4 <= |image| <= SPACE && mem[..|image|] == image
    ensures mem[at..at + 4] == image[at..at + 4]
  {
    assert image[..|image|] == image;
    SliceKept(image, mem, |image|, at, at + 4);
  }

  /** An entry of the image is a code that the reader can read. */
  lemma EntryIsCode(image: seq<Byte>, cds: seq<string>, mem: Memory, i: nat, code: Bits, slot: Address)
    requires i < |cds| && H.Entry(image, cds, i) && cds[i] == Str(code) && |code| < 64
    requires |image| <= SPACE && mem[..|image|] == image && slot == 4 * i
    ensures R.CodeAt(mem, slot, code) && ReadWord(mem[slot..slot + 4]) == H.CodeOffset(cds, i)
  {
    WordSeen(image, mem, slot);
    StringSeen(image, mem, H.CodeOffset(cds, i), CharBytes(Str(code)));
  }

  lemma LetterCode(t: Tree, i: nat)
    requires AlphabetTree(t) && i < LETTER_COUNT
    ensures LETTERS[i] in Letters(t) && |Code(t, LETTERS[i])| <= 55
  {
    AlphabetTreeLetters(t);
    CodeBounds(t, LETTERS[i]);
  }

  /** What the image says of one letter. */
  lemma ImageCode(t: Tree, text: string, image: seq<Byte>, cds: seq<string>, treeOffset: nat, textOffset: nat, i: nat)
    returns (code: Bits)
    requires i < 56 && ImageFor(t, text, image, cds, treeOffset, textOffset)
    ensures LETTERS[i] in Letters(t) && code == Code(t, LETTERS[i]) && |code| <= 55
    ensures i < |cds| && H.Entry(image, cds, i) && cds[i] == Str(code)
    ensures H.CodeOffset(cds, i) + |code| < textOffset && 256 <= textOffset
  {
    LetterCode(t, i);
    code := Code(t, LETTERS[i]);
    H.CodeOffsetGrows(cds, i, 56);
  }

  lemma ImageEntry(j: Job, image: seq<Byte>, cds: seq<string>, mem: Memory, i: nat, treeOffset: nat)
    requires i < 56 && ImageFor(j.t, j.text, image, cds, treeOffset, j.textAddr)
    requires mem[..|image|] == image && j.codesBase == 0 && j.textAddr < j.dst
    ensures TableEntry(j, mem, i)
  {
    var code := ImageCode(j.t, j.text, image, cds, treeOffset, j.textAddr, i);
    CodeSeen(j, image, cds, mem, i, code);
  }

  lemma CodeSeen(j: Job, image: seq<Byte>, cds: seq<string>, mem: Memory, i: nat, code: Bits)
    requires i < 56 && LETTERS[i] in Letters(j.t) && code == Code(j.t, LETTERS[i]) && |code| <= 55
    requires i < |cds| && H.Entry(image, cds, i) && cds[i] == Str(code)
    requires H.CodeOffset(cds, i) + |code| < j.textAddr < j.dst && 256 <= j.textAddr && j.codesBase == 0
    requires |image| <= SPACE && mem[..|image|] == image
    ensures TableEntry(j, mem, i)
  {
    var slot := 4 * i;
    EntryIsCode(image, cds, mem, i, code, slot);
    EntryAt(j, mem, i, code, slot, H.CodeOffset(cds, i));
  }

  lemma EntryAt(j: Job, mem: Memory, i: nat, code: Bits, slot: Address, at: nat)
    requires i < 56 && slot == j.codesBase + 4 * i && slot + 4 <= j.dst
    requires LETTERS[i] in Letters(j.t) && code == Code(j.t, LETTERS[i])
    requires R.CodeAt(mem, slot, code) && ReadWord(mem[slot..slot + 4]) == at && at + |code| < j.dst
    ensures TableEntry(j, mem, i)
  {
  }

  /** The image meets what the text handler needs. */
  lemma ImagePrepares(j: Job, image: seq<Byte>, cds: seq<string>, mem: Memory, treeOffset: nat)
    requires ImageFor(j.t, j.text, image, cds, treeOffset, j.textAddr)
    requires mem[..|image|] == image && j.codesBase == 0 && j.dst == j.textAddr + |j.text| + 4
    ensures Prepared(j, mem)
  {
    forall i | 0 <= i < LETTER_COUNT ensures TableEntry(j, mem, i) {
      ImageEntry(j, image, cds, mem, i, treeOffset);
    }
    SliceKept(image, mem, |image|, j.textAddr, j.textAddr + |j.text|);
  }

  /** The one byte that only the hardware writes. */
  function ZeroByteIf(t: Tree, text: string): seq<Byte>
    requires Encodable(t, text)
  {
    if |EncodeBits(t, text)| % 8 == 0 then [0] else []
  }

  /** The payload of the software with that byte. */
  function WithZeroByte(t: Tree, text: string): seq<Byte>
    requires Encodable(t, text)
  {
    Payload(t, text) + ZeroByteIf(t, text)
  }

  /** The software's payload, with at most one more byte, its size, and the length of the text. */
  ghost predicate TextDone(j: Job, end: Chip)
    requires j.Valid()
  {
    var payload := WithZeroByte(j.t, j.text);
    && j.Base() + |payload| <= SPACE && end.mem[j.Base()..j.Base() + |payload|] == payload
    && end.w.size == |payload|
    && end.mem[j.dst + 8..j.dst + 12] == Word(|j.text|)
  }

  lemma DoneAsInSoftware(j: Job, end: Chip)
    requires j.Valid() && JobDone(j, end)
    ensures TextDone(j, end)
  {
    HardwareAgainstSoftware(j.t, j.text);
  }

  /** The text handler against the software. For every image the processor prepares and every behaviour
      of the bus, the handler finishes once the slave has responded often enough, and then the bytes from the
      header on are those of the software packing loop, followed by one byte of zeros exactly when the codes
      fill whole bytes; nothing outside the output is changed. */
  lemma HardwareMatchesSoftware(j: Job, s: Chip, image: seq<Byte>, cds: seq<string>, treeOffset: nat,
                                first: BusCycle, cycles: seq<BusCycle>)
    returns (n: nat)
    requires j.Valid() && AtRest(j, s)
    requires ImageFor(j.t, j.text, image, cds, treeOffset, j.textAddr) && s.mem[..|image|] == image
    requires j.codesBase == 0 && j.dst == j.textAddr + |j.text| + 4
    requires Responses(cycles) >= 200 * |j.text| + 63
    ensures n <= |cycles|
    ensures var end := Run(Clock(s, StartSignal(), first), cycles[..n]);
            end.h.state == Idle && TextDone(j, end) && Elsewhere(j, s.mem, end.mem)
  {
    ImagePrepares(j, image, cds, s.mem, treeOffset);
    n := HardwareFinishes(j, s, first, cycles);
    DoneAsInSoftware(j, Run(Clock(s, StartSignal(), first), cycles[..n]));
  }

  function TaskFor(t: Tree, text: string, a: Addresses): Task
    requires |Print(t)| < SPACE
  {
    Task(Job(t, text, a.codes, a.text, a.dst, |Print(t)|), a.tree)
  }

  /** The encoder at rest, with the addresses in its registers and the image in its memory. */
  ghost predicate EncoderLoaded(t: Tree, text: string, m: Machine, image: seq<Byte>, cds: seq<string>) {
    && var a := m.e.addresses;
    && ImageFor(t, text, image, cds, a.tree, a.text) && m.Mem()[..|image|] == image
    && a.codes == 0 && a.dst == a.text + |text| + 4
    && MachineRests(m)
  }

  lemma PrintedNonZero(t: Tree)
    requires AlphabetTree(t)
    ensures |Print(t)| == 167 && forall k :: 0 <= k < |Print(t)| ==> CharBytes(Print(t))[k] != 0
  {
    AlphabetTreeLetters(t);
    TreeStorable(t);
  }

  lemma ImageLoads(t: Tree, text: string, m: Machine, image: seq<Byte>, cds: seq<string>)
    requires EncoderLoaded(t, text, m, image, cds) && OverAlphabet(text) && Encodable(t, text)
    requires m.e.addresses.dst + 12 + |Print(t)| + |EncodeBits(t, text) + Zeros(8)| / 8 < SPACE
    ensures |Print(t)| == 167 && TaskLoaded(TaskFor(t, text, m.e.addresses), m)
  {
    PrintedNonZero(t);
    var x := TaskFor(t, text, m.e.addresses);
    ImagePrepares(x.j, image, cds, m.Mem(), x.treeAddr);
    StringSeen(image, m.Mem(), x.treeAddr, x.Printed());
  }

  /** At `dst` there is the file, and everything else is as before. */
  ghost predicate Delivered(before: Memory, after: Memory, dst: Address, file: seq<Byte>) {
    && dst + |file| <= SPACE && after[dst..dst + |file|] == file
    && forall a :: 0 <= a < SPACE && !(dst <= a < dst + |file|) ==> after[a] == before[a]
  }

  lemma TaskPayload(t: Tree, text: string)
    requires Encodable(t, text)
    ensures HardwarePayload(t, text) == WithZeroByte(t, text)
  {
    HardwareAgainstSoftware(t, text);
  }

  lemma TaskFile(x: Task, before: Memory, after: Memory) returns (file: seq<Byte>)
    requires x.Valid() && FileDone(x, after) && FileOnly(x, before, after)
    ensures 12 + |Print(x.j.t)| + |x.Payload()| < SPACE && |x.j.text| < SPACE
    ensures file == Assemble(x.j.t, |x.j.text|, x.Payload()) && Delivered(before, after, x.j.dst, file)
  {
    file := Assemble(x.j.t, |x.j.text|, x.Payload());
    assert |file| == x.Size();
  }

  lemma EncoderDelivers(t: Tree, text: string, m: Machine, image: seq<Byte>, cds: seq<string>,
                        first: MachineCycle, cycles: seq<MachineCycle>)
    returns (n: nat, x: Task)
    requires EncoderLoaded(t, text, m, image, cds) && OverAlphabet(text) && Encodable(t, text)
    requires m.e.addresses.dst + 12 + |Print(t)| + |EncodeBits(t, text) + Zeros(8)| / 8 < SPACE
    requires MachineResponses(cycles) >= 200 * |text| + 1259
    ensures n <= |cycles| && x.j.t == t && x.j.text == text && x.j.dst == m.e.addresses.dst && x.Valid()
    ensures var end := RunMachine(Tick(m, false, true, first), cycles[..n]);
            end.e.state == Resting && FileDone(x, end.Mem()) && FileOnly(x, m.Mem(), end.Mem())
  {
    ImageLoads(t, text, m, image, cds);
    x := TaskFor(t, text, m.e.addresses);
    n := EncoderFinishes(x, m, first, cycles);
  }

  /** The file of the hardware: that of the software for the same tree, but for the byte of zeros. */
  lemma FileAsInSoftware(t: Tree, text: string)
    requires AlphabetTree(t) && Encodable(t, text) && |text| < SPACE
    requires 12 + |Print(t)| + |HardwarePayload(t, text)| < SPACE
    ensures HardwarePayload(t, text) == WithZeroByte(t, text)
    ensures HardwareDecodes(t, text, Assemble(t, |text|, HardwarePayload(t, text)))
  {
    TaskPayload(t, text);
    HardwareFileDecodes(t, text);
  }

  /** The file that the software assembles, but for the byte of zeros. */
  ghost predicate SoftwareFile(t: Tree, text: string, file: seq<Byte>)
    requires Encodable(t, text)
  {
    && 12 + |Print(t)| + |WithZeroByte(t, text)| < SPACE && |text| < SPACE
    && file == Assemble(t, |text|, WithZeroByte(t, text))
  }

  /** The whole hardware against the software. For every image the processor prepares and every behaviour of the
      bus, the encoder finishes, and then there is a complete file at the output address: the one that the
      software assembles for the same tree, but for one byte of zeros at the end if the codes fill whole bytes.
      It decodes to the text and the letters that the zeros behind the codes make, which fit the decoder's buffer
      under the stated condition. Nothing else in memory is changed. */
  lemma EncoderMatchesSoftware(t: Tree, text: string, m: Machine, image: seq<Byte>, cds: seq<string>,
                               first: MachineCycle, cycles: seq<MachineCycle>)
    returns (n: nat, file: seq<Byte>)
    requires EncoderLoaded(t, text, m, image, cds) && OverAlphabet(text) && Encodable(t, text)
    requires m.e.addresses.dst + 12 + |Print(t)| + |EncodeBits(t, text) + Zeros(8)| / 8 < SPACE
    requires MachineResponses(cycles) >= 200 * |text| + 1259
    ensures n <= |cycles|
    ensures var end := RunMachine(Tick(m, false, true, first), cycles[..n]);
            end.e.state == Resting && Delivered(m.Mem(), end.Mem(), m.e.addresses.dst, file)
    ensures SoftwareFile(t, text, file)
    ensures HardwareDecodes(t, text, file)
  {
    var x;
    n, x := EncoderDelivers(t, text, m, image, cds, first, cycles);
    file := TaskFile(x, m.Mem(), RunMachine(Tick(m, false, true, first), cycles[..n]).Mem());
    FileAsInSoftware(t, text);
  }

  /** A part of the memory. */
  function Segment(memory: seq<Byte>, at: nat, n: nat): seq<Byte> {
    if at + n <= |memory| then memory[at..at + n] else []
  }

  /** The processor fetches the file: its length from its first word, then its bytes. */
  method FetchFile(g: H.GlobalAddrs, dst: nat, ghost at: nat, ghost file: seq<Byte>) returns (encoded: array<Byte>)
    requires g.Valid() && dst == g.encoderMemory + at
    requires Segment(g.memory[..], at, |file|) == file
    requires |file| >= 4 && ReadWord(file[..4]) == |file|
    ensures fresh(encoded) && encoded[..] == file
  {
    ghost var memory := g.memory[..];
    assert memory[at..at + 4] == memory[at..at + |file|][..4];
    var totalLength := g.LoadWord(dst);
    encoded := new Byte[totalLength](_ => 0);
    for i := 0 to totalLength
      invariant encoded[..i] == file[..i]
    {
      assert memory[at..at + |file|][i] == file[i];
      encoded[i] := g.memory[dst + i - g.encoderMemory];
    }
    assert encoded[..] == encoded[..totalLength] && file == file[..totalLength];
  }
}
