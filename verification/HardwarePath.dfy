/** The FPGA encodes a text as the software does, for every behaviour of the bus. */
module HardwarePath {
  import opened Alphabet
  import opened Trees
  import opened Bytes
  import opened Coding
  import opened FileFormat
  import opened Avalon
  import opened TextHandlers
  import R = CodeReaders
  import W = CodeWriters

  /** What the text handler is asked to do, and where everything is. */
  datatype Job = Job(t: Tree, text: string, codesBase: Address, textAddr: Address, dst: Address, header: Address)
  {
    /** Where the payload goes. */
    function Base(): nat { dst + 12 + header }

    ghost predicate Valid() {
      && AlphabetTree(t) && OverAlphabet(text) && Encodable(t, text)
      && Base() + |AllBits()| / 8 < SPACE && |text| < SPACE
    }

    /** The bits handed to the writer once `k` letters are done. */
    ghost function Handed(k: nat): Bits
      requires k <= |text| && Encodable(t, text)
    {
      EncodeBits(t, text[..k])
    }

    /** All bits: the codes, and a byte of zeros. */
    ghost function AllBits(): Bits
      requires Encodable(t, text)
    {
      EncodeBits(t, text) + Zeros(8)
    }
  }

  /** The code of letter `i`, below the output. */
  ghost predicate TableEntry(j: Job, mem: Memory, i: nat)
    requires i < LETTER_COUNT
  {
    var slot := j.codesBase + 4 * i;
    && LETTERS[i] in Letters(j.t) && slot + 4 <= j.dst
    && R.CodeAt(mem, slot, Code(j.t, LETTERS[i]))
    && ReadWord(mem[slot..slot + 4]) + |Code(j.t, LETTERS[i])| < j.dst
  }

  /** The memory as the processor has prepared it: the table of codes and the text, below the output. */
  ghost predicate Prepared(j: Job, mem: Memory) {
    && (forall i :: 0 <= i < LETTER_COUNT ==> TableEntry(j, mem, i))
    && j.textAddr + |j.text| < j.dst && StringAt(mem, j.textAddr, CharBytes(j.text))
  }

  lemma SliceKept(mem: seq<Byte>, after: seq<Byte>, n: nat, p: nat, q: nat)
    requires p <= q <= n <= |mem| && n <= |after| && after[..n] == mem[..n]
    ensures after[p..q] == mem[p..q]
    ensures q < n ==> after[q] == mem[q]
  {
    assert after[p..q] == after[..n][p..q];
    assert mem[p..q] == mem[..n][p..q];
    assert q < n ==> after[q] == after[..n][q] && mem[q] == mem[..n][q];
  }

  lemma EntryKept(j: Job, mem: Memory, after: Memory, i: nat)
    requires i < LETTER_COUNT && TableEntry(j, mem, i) && after[..j.dst] == mem[..j.dst]
    ensures TableEntry(j, after, i)
  {
    var slot := j.codesBase + 4 * i;
    var p := ReadWord(mem[slot..slot + 4]);
    SliceKept(mem, after, j.dst, slot, slot + 4);
    SliceKept(mem, after, j.dst, p, p + |Code(j.t, LETTERS[i])|);
  }

  /** Writes at or above the output leave the preparation alone. */
  lemma PreparedKept(j: Job, mem: Memory, after: Memory)
    requires Prepared(j, mem) && after[..j.dst] == mem[..j.dst]
    ensures Prepared(j, after)
  {
    forall i | 0 <= i < LETTER_COUNT ensures TableEntry(j, after, i) {
      EntryKept(j, mem, after, i);
    }
    SliceKept(mem, after, j.dst, j.textAddr, j.textAddr + |j.text|);
  }

  /** The memory still has everything outside the two output areas: the length of the text and the payload. */
  ghost predicate Elsewhere(j: Job, before: Memory, mem: Memory)
    requires j.Valid()
  {
    forall a :: 0 <= a < SPACE && !(j.dst + 8 <= a < j.dst + 12) && !(j.Base() <= a < j.Base() + |j.AllBits()| / 8)
      ==> mem[a] == before[a]
  }

  /** The writer is idle, has cleared its done signal, and has packed `bits`. */
  ghost predicate Ready(j: Job, w: W.Writer, mem: Memory, bits: Bits)
    requires j.Valid()
  {
    W.Writing(w, mem, j.Base(), bits) && w.state == W.Idle && !w.done
  }

  /** The writer is busy with the last of `bits`, or is just announcing that it has finished. */
  ghost predicate Busy(j: Job, w: W.Writer, mem: Memory, bits: Bits)
    requires j.Valid()
  {
    && W.Writing(w, mem, j.Base(), bits)
    && (if w.state == W.Idle then w.done && w.size == w.dstOffset else !w.done)
  }

  /** The payload is complete, and so are the first `n` bytes of the text length. */
  ghost predicate Stored(j: Job, w: W.Writer, mem: Memory, n: nat)
    requires j.Valid() && n <= 4
  {
    && w.Typed() && w.state == W.Idle && !w.write
    && w.size == |FullBytes(j.AllBits())|
    && mem[j.Base()..j.Base() + |FullBytes(j.AllBits())|] == FullBytes(j.AllBits())
    && mem[j.dst + 8..j.dst + 8 + n] == Word(|j.text|)[..n]
  }

  /** The place of a letter in the table. */
  lemma IndexOfLetter(c: char)
    requires c in LETTERS
    ensures c as int < 256 && LETTERS[LetterIndex(c as int)] == c && c as int != 0
  {
    var i :| 0 <= i < LETTER_COUNT && LETTERS[i] == c;
    assert LETTERS[i] == LetterAt(i);
  }

  /** Letters are bytes other than the terminator. */
  lemma LetterIsByte(c: char)
    requires c in LETTERS
    ensures 0 < c as int < 256
  {
    LetterTable();
  }

  /** The table slot of a letter. */
  function Slot(j: Job, letter: Byte): int {
    j.codesBase + 4 * LetterIndex(letter)
  }

  /** The registers that do not change during a job. */
  ghost predicate Configured(j: Job, h: Registers)
    requires j.Base() < SPACE
  {
    h.Typed() && h.cfg == Settings(j.codesBase, j.textAddr, j.dst, j.header, j.Base())
  }

  /** The code in the registers for the writer. */
  ghost predicate Offered(h: Registers, code: Bits) {
    h.wrLen == |code| < 64 && h.wrCode == code + Zeros(64 - |code|)
  }

  /** The letter register holds the letter before offset `k` of the text. */
  ghost predicate HasLetter(j: Job, h: Registers)
    requires j.Valid()
  {
    1 <= h.textOffset <= |j.text| && j.text[h.textOffset - 1] as int == h.letter
  }

  ghost function CurrentCode(j: Job, k: nat): Bits
    requires j.Valid() && 1 <= k <= |j.text|
  {
    Code(j.t, j.text[k - 1])
  }

  /** The invariant over all runs of a job. */
  ghost predicate Invariant(j: Job, s: Chip) {
    Context(j, s) && Prepared(j, s.mem) && At(j, s)
  }

  ghost predicate Context(j: Job, s: Chip) {
    j.Valid() && s.Typed() && Configured(j, s.h)
  }

  ghost predicate AtIdle(j: Job, s: Chip)
    requires j.Valid()
  {
    var k := s.h.textOffset;
    && s.h.state == Idle
    && k == |j.text| && Finishing(j, s) && !s.h.bus.write && Stored(j, s.w, s.mem, 4)
  }

  ghost predicate AtSetRdAddr(j: Job, s: Chip)
    requires j.Valid()
  {
    && s.h.state == SetRdAddr
    && OnText(j, s) && !s.h.bus.read && Starting(j, s)
  }

  ghost predicate AtReadWait(j: Job, s: Chip)
    requires j.Valid()
  {
    var k := s.h.textOffset;
    && s.h.state == ReadWait
    && OnText(j, s) && s.h.bus.read && s.h.bus.address == j.textAddr + k && Waiting(j, s, k)
  }

  ghost predicate AtCheckEnd(j: Job, s: Chip)
    requires j.Valid()
  {
    var k := s.h.textOffset;
    && s.h.state == CheckEnd
    && OnText(j, s) && !s.h.bus.read && Waiting(j, s, k)
    && s.h.letter == if k < |j.text| then j.text[k] as int else 0
  }

  ghost predicate AtReadCode(j: Job, s: Chip)
    requires j.Valid()
  {
    var k := s.h.textOffset;
    && s.h.state == ReadCode
    && OnCode(j, s) && Waiting(j, s, k - 1)
  }

  ghost predicate AtReadCodeStart(j: Job, s: Chip)
    requires j.Valid()
  {
    var k := s.h.textOffset;
    && s.h.state == ReadCodeStart
    && OnCode(j, s) && Waiting(j, s, k - 1) && s.h.currCodeAddr == Slot(j, s.h.letter)
  }

  ghost predicate AtReadCodeWait(j: Job, s: Chip)
    requires j.Valid()
  {
    && s.h.state == ReadCodeWait
    && OnCode(j, s) && Fetching(j, s)
  }

  ghost predicate AtWriteCode(j: Job, s: Chip)
    requires j.Valid()
  {
    var k := s.h.textOffset;
    && s.h.state == WriteCode
    && HasLetter(j, s.h) && OnWriter(j, s) && Offered(s.h, CurrentCode(j, k)) && Waiting(j, s, k - 1)
  }

  ghost predicate AtWriteCodeWait(j: Job, s: Chip)
    requires j.Valid()
  {
    && s.h.state == WriteCodeWait
    && HasLetter(j, s.h) && OnWriter(j, s) && Appending(j, s)
  }

  ghost predicate AtAddPadding(j: Job, s: Chip)
    requires j.Valid()
  {
    var k := s.h.textOffset;
    && s.h.state == AddPadding
    && k == |j.text| && OnText(j, s) && !s.h.bus.read && Waiting(j, s, k)
  }

  ghost predicate AtWaitPadding(j: Job, s: Chip)
    requires j.Valid()
  {
    var k := s.h.textOffset;
    && s.h.state == WaitPadding
    && k == |j.text| && OnWriter(j, s) && Padding(j, s)
  }

  ghost predicate AtWrLen(j: Job, s: Chip, n: nat)
    requires j.Valid()
  {
    && s.h.state == WrLen(n) && 1 <= n <= 4
    && s.h.textOffset == |j.text| && Finishing(j, s) && !s.h.bus.write && Stored(j, s.w, s.mem, n - 1)
  }

  ghost predicate AtWrLenWait(j: Job, s: Chip, n: nat)
    requires j.Valid()
  {
    && s.h.state == WrLenWait(n) && 1 <= n <= 4
    && s.h.textOffset == |j.text| && Finishing(j, s) && Stored(j, s.w, s.mem, n - 1)
    && s.h.bus.write && s.h.bus.address == j.dst + 7 + n && s.h.bus.data == Word(|j.text|)[n - 1]
  }

  /** What holds in each state of the handler. */
  ghost predicate At(j: Job, s: Chip)
    requires j.Valid()
  {
    match s.h.state
    case Idle => AtIdle(j, s)
    case SetRdAddr => AtSetRdAddr(j, s)
    case ReadWait => AtReadWait(j, s)
    case CheckEnd => AtCheckEnd(j, s)
    case ReadCode => AtReadCode(j, s)
    case ReadCodeStart => AtReadCodeStart(j, s)
    case ReadCodeWait => AtReadCodeWait(j, s)
    case WriteCode => AtWriteCode(j, s)
    case WriteCodeWait => AtWriteCodeWait(j, s)
    case AddPadding => AtAddPadding(j, s)
    case WaitPadding => AtWaitPadding(j, s)
    case WrLen(n) => AtWrLen(j, s, n)
    case WrLenWait(n) => AtWrLenWait(j, s, n)
  }

  /** The handler is not using the bus for itself. */
  predicate NoRequests(h: Registers) {
    !h.bus.read && !h.bus.write && !h.setWriter
  }

  /** The handler has the bus, for reading the text. */
  ghost predicate OnText(j: Job, s: Chip) {
    s.h.mux == Handler && !s.h.bus.write && !s.h.startReader && !s.h.startWriter && R.Quiet(s.r)
  }

  /** A letter has been read and its code is to be fetched. */
  ghost predicate OnCode(j: Job, s: Chip)
    requires j.Valid()
  {
    HasLetter(j, s.h) && s.h.mux == CodeRd && NoRequests(s.h) && !s.h.startWriter
    && (s.h.state != ReadCodeWait ==> !s.h.startReader && R.Quiet(s.r))
  }

  ghost predicate OnWriter(j: Job, s: Chip) {
    s.h.mux == CodeWr && NoRequests(s.h) && !s.h.startReader && R.Quiet(s.r)
  }

  /** The writer has nothing to do and has packed the first `k` letters. */
  ghost predicate Waiting(j: Job, s: Chip, k: int)
    requires j.Valid()
  {
    0 <= k <= |j.text| && !s.h.setWriter && !s.h.startWriter && Ready(j, s.w, s.mem, j.Handed(k))
  }

  /** At the very start the writer still has to be told where to write. */
  ghost predicate Starting(j: Job, s: Chip)
    requires j.Valid()
  {
    if s.h.setWriter then s.h.textOffset == 0 && !s.h.startWriter && s.w.state == W.Idle && !s.w.done && !s.w.write
    else s.h.textOffset <= |j.text| && Waiting(j, s, s.h.textOffset)
  }

  /** The reader is about to start, is reading, or has just finished. */
  ghost predicate Fetching(j: Job, s: Chip)
    requires j.Valid() && HasLetter(j, s.h)
  {
    var slot := Slot(j, s.h.letter);
    && s.h.currCodeAddr == slot && Waiting(j, s, s.h.textOffset - 1)
    && if s.h.startReader then R.Quiet(s.r)
       else
         || R.Reading(s.r, s.mem, slot, CurrentCode(j, s.h.textOffset))
         || R.Finished(s.r, CurrentCode(j, s.h.textOffset))
  }

  /** The writer is about to take the code of the current letter, or is writing it. */
  ghost predicate Appending(j: Job, s: Chip)
    requires j.Valid() && HasLetter(j, s.h)
  {
    var k := s.h.textOffset;
    if s.h.startWriter then Offered(s.h, CurrentCode(j, k)) && Ready(j, s.w, s.mem, j.Handed(k - 1))
    else Busy(j, s.w, s.mem, j.Handed(k))
  }

  ghost predicate Padding(j: Job, s: Chip)
    requires j.Valid()
  {
    if s.h.startWriter then Offered(s.h, Zeros(8)) && Ready(j, s.w, s.mem, EncodeBits(j.t, j.text))
    else Busy(j, s.w, s.mem, j.AllBits())
  }

  ghost predicate Finishing(j: Job, s: Chip) {
    s.h.mux == Handler && !s.h.bus.read && !s.h.setWriter && !s.h.startReader && !s.h.startWriter && R.Quiet(s.r)
  }

  /** Control inputs while a job is running. */
  predicate HandsOff(c: Control) {
    !c.write && !c.start
  }

  // One clock edge.

  /** Whenever the bus writes, it writes into one of the two output areas. */
  lemma WritesInside(j: Job, s: Chip)
    requires Invariant(j, s) && s.Outputs().write
    ensures var a := s.Outputs().address;
            j.dst + 8 <= a < j.dst + 12 || j.Base() <= a < j.Base() + |j.AllBits()| / 8
  {
    match s.h.state
    case WriteCodeWait =>
      HandedLength(j, s.h.textOffset);
    case WaitPadding =>
    case WrLenWait(n) =>
    case _ =>
  }

  lemma HandedLength(j: Job, k: nat)
    requires j.Valid() && k <= |j.text|
    ensures |j.Handed(k)| + 8 <= |j.AllBits()|
    decreases |j.text| - k
  {
    if k == |j.text| {
      assert j.text[..k] == j.text;
    } else {
      HandedLength(j, k + 1);
      HandedGrows(j, k + 1);
    }
  }

  lemma HandedGrows(j: Job, k: nat)
    requires j.Valid() && 1 <= k <= |j.text|
    ensures j.Handed(k) == j.Handed(k - 1) + CurrentCode(j, k)
  {
    assert j.text[..k][..k - 1] == j.text[..k - 1];
  }

  /** What one clock edge does to the memory. */
  lemma MemoryKept(j: Job, s: Chip, b: BusCycle, before: Memory)
    requires Invariant(j, s)
    ensures Prepared(j, AfterCycle(s.mem, s.Outputs(), b.wait))
    ensures Elsewhere(j, before, s.mem) ==> Elsewhere(j, before, AfterCycle(s.mem, s.Outputs(), b.wait))
  {
    var bus := s.Outputs();
    var after := AfterCycle(s.mem, bus, b.wait);
    if bus.write { WritesInside(j, s); }
    assert after[..j.dst] == s.mem[..j.dst];
    PreparedKept(j, s.mem, after);
  }

  /** A quiet reader without a start signal stays quiet. */
  lemma QuietStays(s: Chip, b: BusCycle)
    requires s.Typed() && R.Quiet(s.r) && !s.h.startReader
    ensures R.Quiet(ReaderNext(s, b))
  {
  }

  /** An idle writer without a start signal stays as it is. */
  lemma WaitingStays(j: Job, s: Chip, b: BusCycle, k: int)
    requires j.Valid() && s.Typed() && Waiting(j, s, k)
    requires AfterCycle(s.mem, s.Outputs(), b.wait) == s.mem
    ensures Ready(j, WriterNext(s, b), s.mem, j.Handed(k))
  {
    W.WritingIdles(s.w, s.mem, j.Base(), j.Handed(k), s.h.WriterInputs(),
        if s.h.mux == CodeWr then b.wait else b.writerWait);
  }

  lemma FromSetRdAddr(j: Job, s: Chip, c: Control, b: BusCycle)
    requires Context(j, s) && HandsOff(c) && AtSetRdAddr(j, s)
    requires j.textAddr + |j.text| < SPACE
    ensures AtReadWait(j, Clock(s, c, b))
  {
    QuietStays(s, b);
    ReadyToRead(j, s, b);
  }

  lemma ReadyToRead(j: Job, s: Chip, b: BusCycle)
    requires Context(j, s) && AtSetRdAddr(j, s)
    ensures s.h.textOffset <= |j.text| && Ready(j, WriterNext(s, b), s.mem, j.Handed(s.h.textOffset))
  {
    if s.h.setWriter {
      SettingWriter(j, s, b);
    } else {
      WaitingStays(j, s, b, s.h.textOffset);
    }
  }

  /** The writer learns where to write. */
  lemma SettingWriter(j: Job, s: Chip, b: BusCycle)
    requires Context(j, s) && AtSetRdAddr(j, s) && s.h.setWriter
    ensures Ready(j, WriterNext(s, b), s.mem, j.Handed(0))
  {
    assert j.text[..0] == [];
    W.WritingBegins(s.w, s.mem, s.h.WriterInputs(), b.writerWait);
  }

  /** The byte of the text at an offset. */
  lemma TextByte(j: Job, mem: Memory, k: nat)
    requires j.Valid() && StringAt(mem, j.textAddr, CharBytes(j.text)) && k <= |j.text|
    ensures mem[j.textAddr + k] == if k < |j.text| then j.text[k] as int else 0
  {
    if k < |j.text| {
      LetterIsByte(j.text[k]);
      assert mem[j.textAddr..j.textAddr + |j.text|][k] == CharBytes(j.text)[k];
    }
  }

  lemma FromReadWait(j: Job, s: Chip, c: Control, b: BusCycle)
    requires Context(j, s) && HandsOff(c) && AtReadWait(j, s)
    requires s.h.textOffset <= |j.text| && j.textAddr + |j.text| < SPACE
    requires s.mem[j.textAddr + s.h.textOffset]
        == if s.h.textOffset < |j.text| then j.text[s.h.textOffset] as int else 0
    ensures var n := Clock(s, c, b); AtReadWait(j, n) || AtCheckEnd(j, n)
  {
    QuietStays(s, b);
    WaitingStays(j, s, b, s.h.textOffset);
  }

  lemma FromCheckEnd(j: Job, s: Chip, c: Control, b: BusCycle)
    requires Context(j, s) && HandsOff(c) && AtCheckEnd(j, s)
    ensures var n := Clock(s, c, b); AtReadCode(j, n) || AtAddPadding(j, n)
  {
    if s.h.textOffset < |j.text| { MoreText(j, s, c, b); } else { EndOfText(j, s, c, b); }
  }

  lemma MoreText(j: Job, s: Chip, c: Control, b: BusCycle)
    requires Context(j, s) && HandsOff(c) && AtCheckEnd(j, s) && s.h.textOffset < |j.text|
    ensures AtReadCode(j, Clock(s, c, b))
  {
    QuietStays(s, b);
    WaitingStays(j, s, b, s.h.textOffset);
    LetterIsByte(j.text[s.h.textOffset]);
  }

  lemma EndOfText(j: Job, s: Chip, c: Control, b: BusCycle)
    requires Context(j, s) && HandsOff(c) && AtCheckEnd(j, s) && s.h.textOffset == |j.text|
    ensures AtAddPadding(j, Clock(s, c, b))
  {
    QuietStays(s, b);
    WaitingStays(j, s, b, s.h.textOffset);
  }

  lemma FromReadCode(j: Job, s: Chip, c: Control, b: BusCycle)
    requires Context(j, s) && HandsOff(c) && AtReadCode(j, s)
    requires Slot(j, s.h.letter) < SPACE
    ensures AtReadCodeStart(j, Clock(s, c, b))
  {
    QuietStays(s, b);
    WaitingStays(j, s, b, s.h.textOffset - 1);
  }

  lemma FromReadCodeStart(j: Job, s: Chip, c: Control, b: BusCycle)
    requires Context(j, s) && HandsOff(c) && AtReadCodeStart(j, s)
    ensures AtReadCodeWait(j, Clock(s, c, b))
  {
    QuietStays(s, b);
    WaitingStays(j, s, b, s.h.textOffset - 1);
  }

  lemma SlotHoldsCode(j: Job, s: Chip)
    requires j.Valid() && Prepared(j, s.mem) && HasLetter(j, s.h)
    ensures 0 <= Slot(j, s.h.letter) < SPACE
    ensures R.CodeAt(s.mem, Slot(j, s.h.letter), CurrentCode(j, s.h.textOffset))
  {
    IndexOfLetter(j.text[s.h.textOffset - 1]);
    assert TableEntry(j, s.mem, LetterIndex(s.h.letter));
  }

  /** The reader starts, goes on reading, or is done and seen to be done. */
  lemma ReaderWorks(j: Job, s: Chip, b: BusCycle, slot: Address, code: Bits)
    requires s.Typed() && s.h.mux == CodeRd && s.h.currCodeAddr == slot && R.CodeAt(s.mem, slot, code)
    requires if s.h.startReader then R.Quiet(s.r) else R.Reading(s.r, s.mem, slot, code) || R.Finished(s.r, code)
    ensures var next := ReaderNext(s, b);
            if R.Finished(s.r, code) then R.Quiet(next)
            else R.Reading(next, s.mem, slot, code) || R.Finished(next, code)
  {
    if s.h.startReader {
      R.ReadingStarts(s.r, s.mem, slot, code, b.wait, Data(s, b));
    } else if !R.Finished(s.r, code) {
      R.ReadingStep(s.r, s.mem, slot, code, false, s.h.currCodeAddr, Cycle(b.wait, b.junk));
    }
  }

  lemma FromReadCodeWait(j: Job, s: Chip, c: Control, b: BusCycle)
    requires Context(j, s) && HandsOff(c) && AtReadCodeWait(j, s)
    requires 0 <= Slot(j, s.h.letter) < SPACE
    requires R.CodeAt(s.mem, Slot(j, s.h.letter), CurrentCode(j, s.h.textOffset))
    ensures var n := Clock(s, c, b); AtReadCodeWait(j, n) || AtWriteCode(j, n)
  {
    ReaderWorks(j, s, b, Slot(j, s.h.letter), CurrentCode(j, s.h.textOffset));
    if !s.h.startReader && R.Finished(s.r, CurrentCode(j, s.h.textOffset)) {
      CodeFetched(j, s, c, b);
    } else {
      CodeAwaited(j, s, c, b);
    }
  }

  lemma CodeFetched(j: Job, s: Chip, c: Control, b: BusCycle)
    requires Context(j, s) && HandsOff(c) && AtReadCodeWait(j, s)
    requires !s.h.startReader && R.Finished(s.r, CurrentCode(j, s.h.textOffset))
    requires R.Quiet(ReaderNext(s, b))
    ensures AtWriteCode(j, Clock(s, c, b))
  {
    WaitingStays(j, s, b, s.h.textOffset - 1);
    assert s.r.done;
  }

  lemma CodeAwaited(j: Job, s: Chip, c: Control, b: BusCycle)
    requires Context(j, s) && HandsOff(c) && AtReadCodeWait(j, s) && !s.r.done
    requires R.Reading(ReaderNext(s, b), s.mem, Slot(j, s.h.letter), CurrentCode(j, s.h.textOffset))
          || R.Finished(ReaderNext(s, b), CurrentCode(j, s.h.textOffset))
    ensures AtReadCodeWait(j, Clock(s, c, b))
  {
    WaitingStays(j, s, b, s.h.textOffset - 1);
    assert HandlerNext(s, c, b) == s.h.(startReader := false);
  }

  lemma FromWriteCode(j: Job, s: Chip, c: Control, b: BusCycle)
    requires Context(j, s) && HandsOff(c) && AtWriteCode(j, s)
    ensures AtWriteCodeWait(j, Clock(s, c, b))
  {
    QuietStays(s, b);
    WaitingStays(j, s, b, s.h.textOffset - 1);
  }

  /** The writer takes the offered code, goes on writing, or is done and seen to be done. */
  lemma WriterWorks(j: Job, s: Chip, b: BusCycle, before: Bits, code: Bits, after: Bits)
    requires j.Valid() && s.Typed() && s.h.mux == CodeWr && !s.h.setWriter
    requires after == before + code && |code| <= 57 && j.Base() + |after| / 8 < SPACE
    requires if s.h.startWriter then Offered(s.h, code) && Ready(j, s.w, s.mem, before) else Busy(j, s.w, s.mem, after)
    ensures var mem := AfterCycle(s.mem, s.w.Outputs(), b.wait);
            if !s.h.startWriter && s.w.state == W.Idle
            then Ready(j, WriterNext(s, b), mem, after) && WriterNext(s, b).size == s.w.size && s.w.done
            else Busy(j, WriterNext(s, b), mem, after) && !s.w.done
  {
    var i := s.h.WriterInputs();
    if s.h.startWriter {
      assert i.code[..i.codeLen] == code;
      W.WritingAccepts(s.w, s.mem, j.Base(), before, i, b.wait);
    } else if s.w.state == W.Idle {
      W.WritingIdles(s.w, s.mem, j.Base(), after, i, b.wait);
    } else {
      W.WritingStep(s.w, s.mem, j.Base(), after, i, b.wait);
    }
  }

  /** The code handed over next, and that there is room for it. */
  lemma NextCode(j: Job, k: nat)
    requires j.Valid() && 1 <= k <= |j.text|
    ensures j.Handed(k) == j.Handed(k - 1) + CurrentCode(j, k) && |CurrentCode(j, k)| <= 57
    ensures j.Base() + |j.Handed(k)| / 8 < SPACE
  {
    HandedGrows(j, k);
    HandedLength(j, k);
    AlphabetTreeLetters(j.t);
    CodeBounds(j.t, j.text[k - 1]);
  }

  lemma FromWriteCodeWait(j: Job, s: Chip, c: Control, b: BusCycle)
    requires Context(j, s) && HandsOff(c) && AtWriteCodeWait(j, s)
    ensures var n := Clock(s, c, b); AtWriteCodeWait(j, n) || AtSetRdAddr(j, n)
  {
    var k := s.h.textOffset;
    NextCode(j, k);
    WriterWorks(j, s, b, j.Handed(k - 1), CurrentCode(j, k), j.Handed(k));
    if !s.h.startWriter && s.w.state == W.Idle {
      CodeAppended(j, s, c, b);
    } else {
      CodeBeingAppended(j, s, c, b);
    }
  }

  lemma CodeAppended(j: Job, s: Chip, c: Control, b: BusCycle)
    requires Context(j, s) && HandsOff(c) && AtWriteCodeWait(j, s) && !s.h.startWriter && s.w.done
    requires Ready(j, WriterNext(s, b), AfterCycle(s.mem, s.w.Outputs(), b.wait), j.Handed(s.h.textOffset))
    ensures AtSetRdAddr(j, Clock(s, c, b))
  {
    QuietStays(s, b);
    assert HandlerNext(s, c, b) == s.h.(startWriter := false, state := SetRdAddr, mux := Handler);
  }

  lemma CodeBeingAppended(j: Job, s: Chip, c: Control, b: BusCycle)
    requires Context(j, s) && HandsOff(c) && AtWriteCodeWait(j, s) && !s.w.done
    requires Busy(j, WriterNext(s, b), AfterCycle(s.mem, s.w.Outputs(), b.wait), j.Handed(s.h.textOffset))
    ensures AtWriteCodeWait(j, Clock(s, c, b))
  {
    QuietStays(s, b);
    assert HandlerNext(s, c, b) == s.h.(startWriter := false);
  }

  lemma FromAddPadding(j: Job, s: Chip, c: Control, b: BusCycle)
    requires Context(j, s) && HandsOff(c) && AtAddPadding(j, s)
    ensures AtWaitPadding(j, Clock(s, c, b))
  {
    QuietStays(s, b);
    WaitingStays(j, s, b, |j.text|);
    assert j.text[..|j.text|] == j.text;
    assert Zeros(64) == Zeros(8) + Zeros(56);
  }

  lemma FromWaitPadding(j: Job, s: Chip, c: Control, b: BusCycle)
    requires Context(j, s) && HandsOff(c) && AtWaitPadding(j, s)
    ensures var n := Clock(s, c, b); AtWaitPadding(j, n) || AtWrLen(j, n, 1)
  {
    QuietStays(s, b);
    WriterWorks(j, s, b, EncodeBits(j.t, j.text), Zeros(8), j.AllBits());
    if !s.h.startWriter && s.w.state == W.Idle {
      PayloadStored(j, s, b);
    }
  }

  lemma PayloadStored(j: Job, s: Chip, b: BusCycle)
    requires Context(j, s) && AtWaitPadding(j, s) && !s.h.startWriter && s.w.state == W.Idle
    ensures s.w.done && AfterCycle(s.mem, s.w.Outputs(), b.wait) == s.mem
    ensures Stored(j, WriterNext(s, b), s.mem, 0)
  {
    W.IdleIsPacked(s.w, s.mem, j.Base(), j.AllBits());
    assert Word(|j.text|)[..0] == [];
  }

  lemma FromWrLen(j: Job, s: Chip, c: Control, b: BusCycle, n: nat)
    requires Context(j, s) && HandsOff(c) && AtWrLen(j, s, n)
    ensures AtWrLenWait(j, Clock(s, c, b), n)
  {
    QuietStays(s, b);
    StoredStays(j, s, b, n - 1);
  }

  /** The writer does nothing while the length is written. */
  lemma StoredStays(j: Job, s: Chip, b: BusCycle, n: nat)
    requires j.Valid() && s.Typed() && n <= 4 && Finishing(j, s) && Stored(j, s.w, s.mem, n)
    ensures Stored(j, WriterNext(s, b), s.mem, n)
  {
  }

  /** Storing one byte of the length. */
  lemma StoredGrows(j: Job, w: W.Writer, mem: Memory, n: nat)
    requires j.Valid() && 1 <= n <= 4 && Stored(j, w, mem, n - 1)
    ensures Stored(j, w, mem[j.dst + 7 + n := Word(|j.text|)[n - 1]], n)
  {
    var after := mem[j.dst + 7 + n := Word(|j.text|)[n - 1]];
    var a, len := j.Base(), |FullBytes(j.AllBits())|;
    assert after[a..a + len] == mem[a..a + len];
    assert after[j.dst + 8..j.dst + 8 + n] == mem[j.dst + 8..j.dst + 8 + n - 1] + [Word(|j.text|)[n - 1]];
    assert Word(|j.text|)[..n] == Word(|j.text|)[..n - 1] + [Word(|j.text|)[n - 1]];
  }

  lemma FromWrLenWait(j: Job, s: Chip, c: Control, b: BusCycle, n: nat)
    requires Context(j, s) && HandsOff(c) && AtWrLenWait(j, s, n)
    ensures var next := Clock(s, c, b);
            AtWrLenWait(j, next, n) || (n == 4 && AtIdle(j, next)) || (n < 4 && AtWrLen(j, next, n + 1))
  {
    QuietStays(s, b);
    StoredStays(j, s, b, n - 1);
    StoredGrows(j, WriterNext(s, b), s.mem, n);
  }

  lemma FromIdle(j: Job, s: Chip, c: Control, b: BusCycle)
    requires Context(j, s) && HandsOff(c) && AtIdle(j, s)
    ensures AtIdle(j, Clock(s, c, b))
  {
    QuietStays(s, b);
    StoredStays(j, s, b, 4);
  }

  lemma ConfiguredKept(j: Job, h: Registers, c: Control, r: R.Reader, w: W.Writer, wait: bool, data: Byte)
    requires j.Base() < SPACE && Configured(j, h) && HandsOff(c) && r.Typed()
    ensures Configured(j, Step(h, c, r, w, wait, data))
  {
  }

  lemma ContextKept(j: Job, s: Chip, c: Control, b: BusCycle)
    requires Context(j, s) && HandsOff(c)
    ensures Context(j, Clock(s, c, b))
  {
    ConfiguredKept(j, s.h, c, s.r, s.w, b.wait, Data(s, b));
    ConfiguredKept(j, s.h, c, s.r, s.w, b.handler.wait, b.handler.data);
  }

  /** The letter that is on the bus when it is read. */
  lemma TextKept(j: Job, s: Chip, c: Control, b: BusCycle)
    requires Context(j, s) && Prepared(j, s.mem) && AtReadWait(j, s) && HandsOff(c)
    ensures var n := Clock(s, c, b); AtReadWait(j, n) || AtCheckEnd(j, n)
  {
    TextInReach(j, s.mem);
    TextByte(j, s.mem, s.h.textOffset);
    FromReadWait(j, s, c, b);
  }

  lemma RequestKept(j: Job, s: Chip, c: Control, b: BusCycle)
    requires Context(j, s) && Prepared(j, s.mem) && AtSetRdAddr(j, s) && HandsOff(c)
    ensures AtReadWait(j, Clock(s, c, b))
  {
    TextInReach(j, s.mem);
    FromSetRdAddr(j, s, c, b);
  }

  lemma ReadingKept(j: Job, s: Chip, c: Control, b: BusCycle)
    requires Context(j, s) && Prepared(j, s.mem) && At(j, s) && HandsOff(c)
    requires s.h.state.SetRdAddr? || s.h.state.ReadWait? || s.h.state.CheckEnd?
    ensures At(j, Clock(s, c, b))
  {
    if s.h.state.SetRdAddr? {
      RequestKept(j, s, c, b);
    } else if s.h.state.ReadWait? {
      TextKept(j, s, c, b);
    } else {
      FromCheckEnd(j, s, c, b);
    }
  }

  lemma TextInReach(j: Job, mem: Memory)
    requires Prepared(j, mem)
    ensures j.textAddr + |j.text| < SPACE && StringAt(mem, j.textAddr, CharBytes(j.text))
  {
  }

  lemma FetchingKept(j: Job, s: Chip, c: Control, b: BusCycle)
    requires Context(j, s) && Prepared(j, s.mem) && At(j, s) && HandsOff(c)
    requires s.h.state.ReadCode? || s.h.state.ReadCodeStart? || s.h.state.ReadCodeWait?
    ensures At(j, Clock(s, c, b))
  {
    SlotHoldsCode(j, s);
    match s.h.state
    case ReadCode => FromReadCode(j, s, c, b);
    case ReadCodeStart => FromReadCodeStart(j, s, c, b);
    case ReadCodeWait => FromReadCodeWait(j, s, c, b);
  }

  lemma AppendingKept(j: Job, s: Chip, c: Control, b: BusCycle)
    requires Context(j, s) && At(j, s) && HandsOff(c)
    requires s.h.state.WriteCode? || s.h.state.WriteCodeWait? || s.h.state.AddPadding? || s.h.state.WaitPadding?
    ensures At(j, Clock(s, c, b))
  {
    match s.h.state
    case WriteCode => FromWriteCode(j, s, c, b);
    case WriteCodeWait => FromWriteCodeWait(j, s, c, b);
    case AddPadding => FromAddPadding(j, s, c, b);
    case WaitPadding => FromWaitPadding(j, s, c, b);
  }

  lemma FinishingKept(j: Job, s: Chip, c: Control, b: BusCycle)
    requires Context(j, s) && At(j, s) && HandsOff(c)
    requires s.h.state.Idle? || s.h.state.WrLen? || s.h.state.WrLenWait?
    ensures At(j, Clock(s, c, b))
  {
    match s.h.state
    case Idle => FromIdle(j, s, c, b);
    case WrLen(n) => FromWrLen(j, s, c, b, n);
    case WrLenWait(n) => FromWrLenWait(j, s, c, b, n);
  }

  /** The invariant holds after every clock edge, whatever the bus does. */
  lemma InvariantKept(j: Job, s: Chip, c: Control, b: BusCycle)
    requires Invariant(j, s) && HandsOff(c)
    ensures Invariant(j, Clock(s, c, b))
  {
    ContextKept(j, s, c, b);
    MemoryKept(j, s, b, s.mem);
    if s.h.state.SetRdAddr? || s.h.state.ReadWait? || s.h.state.CheckEnd? {
      ReadingKept(j, s, c, b);
    } else if s.h.state.ReadCode? || s.h.state.ReadCodeStart? || s.h.state.ReadCodeWait? {
      FetchingKept(j, s, c, b);
    } else if s.h.state.Idle? || s.h.state.WrLen? || s.h.state.WrLenWait? {
      FinishingKept(j, s, c, b);
    } else {
      AppendingKept(j, s, c, b);
    }
  }
}
