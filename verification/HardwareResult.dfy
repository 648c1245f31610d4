/** Whole runs of the text handler. */
module HardwareResult {
  import opened Trees
  import opened Bytes
  import opened Coding
  import opened FileFormat
  import opened Avalon
  import opened TextHandlers
  import opened HardwarePath
  import R = CodeReaders
  import W = CodeWriters

  const NO_CONTROL: Control := Control(false, false, 0, 0, 0, 0)

  function StartSignal(): Control {
    NO_CONTROL.(start := true)
  }

  /** Nothing is going on in the chip. */
  ghost predicate Rests(s: Chip) {
    && s.Typed()
    && s.h.state == Idle && NoRequests(s.h) && !s.h.startReader && !s.h.startWriter
    && R.Quiet(s.r) && s.w.state == W.Idle && !s.w.done && !s.w.write
  }

  /** The chip with its addresses loaded and everything idle. */
  ghost predicate AtRest(j: Job, s: Chip) {
    && Rests(s) && s.h.textOffset == 0
    && s.h.cfg == Settings(j.codesBase, j.textAddr, j.dst, j.header, s.h.cfg.writerDst)
  }

  /** The chip with a job loaded, before the start signal. */
  ghost predicate Loaded(j: Job, s: Chip) {
    j.Valid() && AtRest(j, s) && Prepared(j, s.mem)
  }

  lemma Starts(j: Job, s: Chip, b: BusCycle)
    requires Loaded(j, s)
    ensures Invariant(j, Clock(s, StartSignal(), b)) && Clock(s, StartSignal(), b).mem == s.mem
  {
    QuietStays(s, b);
    var next := Clock(s, StartSignal(), b);
    assert !s.Outputs().write;
    assert next.h == s.h.(state := SetRdAddr, mux := Handler, setWriter := true,
        cfg := s.h.cfg.(writerDst := j.Base()));
    assert AtSetRdAddr(j, next);
  }

  /** The chip after some clock cycles without control signals. */
  function Run(s: Chip, cycles: seq<BusCycle>): Chip
    requires s.Typed()
    decreases |cycles|
  {
    if cycles == [] then s else Run(Clock(s, NO_CONTROL, cycles[0]), cycles[1..])
  }

  /** The payload as the hardware writes it: always a byte of zeros more, then whole bytes only. */
  function HardwarePayload(t: Tree, text: string): seq<Byte>
    requires Encodable(t, text)
  {
    FullBytes(EncodeBits(t, text) + Zeros(8))
  }

  /** The job is done: payload, its size, and the length of the text are in place. */
  ghost predicate JobDone(j: Job, s: Chip)
    requires j.Valid()
  {
    var payload := HardwarePayload(j.t, j.text);
    && j.Base() + |payload| <= SPACE && s.mem[j.Base()..j.Base() + |payload|] == payload
    && s.w.size == |payload|
    && s.mem[j.dst + 8..j.dst + 12] == Word(|j.text|)
  }

  lemma {:induction false} RunKeeps(j: Job, s: Chip, cycles: seq<BusCycle>, before: Memory)
    requires Invariant(j, s) && Elsewhere(j, before, s.mem)
    ensures Invariant(j, Run(s, cycles)) && Elsewhere(j, before, Run(s, cycles).mem)
    decreases |cycles|
  {
    if cycles != [] {
      var b := cycles[0];
      InvariantKept(j, s, NO_CONTROL, b);
      MemoryKept(j, s, b, before);
      RunKeeps(j, Clock(s, NO_CONTROL, b), cycles[1..], before);
    }
  }

  lemma IdleIsDone(j: Job, s: Chip)
    requires Invariant(j, s) && s.h.state == Idle
    ensures JobDone(j, s)
  {
    assert AtIdle(j, s);
    assert Word(|j.text|)[..4] == Word(|j.text|);
  }

  /** Safety over all runs: started on a prepared job, under every behaviour of the bus, whenever the handler
      is idle again the output is complete; and at no time is anything else in memory touched. */
  lemma HardwareEncodes(j: Job, s: Chip, first: BusCycle, cycles: seq<BusCycle>)
    requires Loaded(j, s)
    ensures var end := Run(Clock(s, StartSignal(), first), cycles);
            && (end.h.state == Idle ==> JobDone(j, end))
            && Elsewhere(j, s.mem, end.mem)
  {
    Starts(j, s, first);
    var started := Clock(s, StartSignal(), first);
    RunKeeps(j, started, cycles, s.mem);
    var end := Run(started, cycles);
    if end.h.state == Idle { IdleIsDone(j, end); }
  }

  // Progress.

  /** An upper bound on the responses of the slave that are still needed, given what the reader and the
      writer need for themselves. */
  function Left(letters: nat, h: Registers, reader: int, writer: int): int {
    var rest := 200 * (letters - h.textOffset) + 63;
    match h.state
    case Idle => 0
    case SetRdAddr => rest
    case ReadWait => rest - 1
    case CheckEnd => rest - 2
    case ReadCode => rest + 195
    case ReadCodeStart => rest + 194
    case ReadCodeWait => if h.startReader then rest + 193 else rest + 51 + reader
    case WriteCode => rest + 50
    case WriteCodeWait => if h.startWriter then rest + 49 else rest + 1 + writer
    case AddPadding => 60
    case WaitPadding => if h.startWriter then 59 else 9 + writer
    case WrLen(n) => 2 * (5 - n)
    case WrLenWait(n) => 2 * (5 - n) - 1
  }

  /** What the reader still needs for the current letter. */
  ghost function ReaderLeft(j: Job, h: Registers, r: R.Reader): int
    requires j.Valid()
  {
    if r.state == R.Idle || !HasLetter(j, h) then 0 else R.CyclesLeft(r, CurrentCode(j, h.textOffset))
  }

  ghost function ResponsesLeft(j: Job, s: Chip): int
    requires j.Valid()
  {
    Left(|j.text|, s.h, ReaderLeft(j, s.h, s.r), W.CyclesLeft(s.w))
  }

  /** States that need nothing of the reader and the writer. */
  lemma SimpleStep(n: nat, h: Registers, r: R.Reader, w: W.Writer, wait: bool, data: Byte, x: int, y: int, x': int,
                   y': int)
    requires h.Typed() && r.Typed()
    requires h.state.SetRdAddr? || h.state.ReadWait? || h.state.ReadCode? || h.state.ReadCodeStart?
          || h.state.WriteCode? || h.state.AddPadding? || h.state.WrLen? || h.state.WrLenWait?
    ensures Left(n, Step(h, NO_CONTROL, r, w, wait, data), x', y') <= Left(n, h, x, y) - if wait then 0 else 1
    ensures h.state != ReadWait && !h.state.WrLenWait? ==>
        Left(n, Step(h, NO_CONTROL, r, w, wait, data), x', y') < Left(n, h, x, y)
  {
  }

  /** The writer's own bound while it is busy. */
  lemma WriterBound(j: Job, w: W.Writer, mem: Memory, bits: Bits)
    requires j.Valid() && Busy(j, w, mem, bits)
    ensures 0 <= W.CyclesLeft(w) <= 40
  {
  }

  lemma ReaderBound(r: R.Reader, mem: Memory, slot: Address, code: Bits)
    requires R.Reading(r, mem, slot, code)
    ensures 1 <= R.CyclesLeft(r, code) <= 2 * |code| + 11 <= 137
  {
  }

  lemma SimpleProgress(j: Job, s: Chip, b: BusCycle)
    requires Context(j, s)
    requires s.h.state.SetRdAddr? || s.h.state.ReadCode? || s.h.state.ReadCodeStart? || s.h.state.WriteCode?
          || s.h.state.AddPadding? || s.h.state.WrLen?
          || ((s.h.state.ReadWait? || s.h.state.WrLenWait?) && s.h.mux == Handler)
    ensures ResponsesLeft(j, Clock(s, NO_CONTROL, b)) <= ResponsesLeft(j, s) - if b.wait then 0 else 1
  {
    var next := Clock(s, NO_CONTROL, b);
    var x, y := ReaderLeft(j, s.h, s.r), W.CyclesLeft(s.w);
    var x', y' := ReaderLeft(j, next.h, next.r), W.CyclesLeft(next.w);
    SimpleStep(|j.text|, s.h, s.r, s.w, b.wait, Data(s, b), x, y, x', y');
    SimpleStep(|j.text|, s.h, s.r, s.w, b.handler.wait, b.handler.data, x, y, x', y');
  }

  lemma CheckProgress(j: Job, s: Chip, b: BusCycle)
    requires Context(j, s) && AtCheckEnd(j, s)
    ensures ResponsesLeft(j, Clock(s, NO_CONTROL, b)) < ResponsesLeft(j, s)
  {
    if s.h.textOffset < |j.text| { LetterIsByte(j.text[s.h.textOffset]); }
  }

  lemma FetchProgress(j: Job, s: Chip, b: BusCycle)
    requires Invariant(j, s) && s.h.state == ReadCodeWait
    ensures ResponsesLeft(j, Clock(s, NO_CONTROL, b)) <= ResponsesLeft(j, s) - if b.wait then 0 else 1
  {
    if !s.h.startReader && s.r.state == R.Idle {
      FetchedProgress(j, s, b);
    } else {
      ReaderProgress(j, s, b);
      assert HandlerNext(s, NO_CONTROL, b) == s.h.(startReader := false);
    }
  }

  lemma FetchedProgress(j: Job, s: Chip, b: BusCycle)
    requires Context(j, s) && AtReadCodeWait(j, s) && !s.h.startReader && s.r.state == R.Idle
    ensures ResponsesLeft(j, Clock(s, NO_CONTROL, b)) < ResponsesLeft(j, s)
  {
    assert s.r.done;
    assert HandlerNext(s, NO_CONTROL, b).state == WriteCode;
    assert HandlerNext(s, NO_CONTROL, b).textOffset == s.h.textOffset;
  }

  /** What the reader contributes to the bound. */
  lemma ReaderProgress(j: Job, s: Chip, b: BusCycle)
    requires Invariant(j, s) && s.h.state == ReadCodeWait && (s.h.startReader || s.r.state != R.Idle)
    ensures !s.r.done && ReaderLeft(j, s.h, ReaderNext(s, b)) <= 137
    ensures !s.h.startReader ==>
              ReaderLeft(j, s.h, ReaderNext(s, b)) <= ReaderLeft(j, s.h, s.r) - if b.wait then 0 else 1
  {
    var code, slot := CurrentCode(j, s.h.textOffset), Slot(j, s.h.letter);
    SlotHoldsCode(j, s);
    ReaderWorks(j, s, b, slot, code);
    if !s.h.startReader {
      R.ReadingProgress(s.r, s.mem, slot, code, Zeros(64), s.h.currCodeAddr, Cycle(b.wait, b.junk));
    }
    if R.Reading(ReaderNext(s, b), s.mem, slot, code) {
      ReaderBound(ReaderNext(s, b), s.mem, slot, code);
    }
  }

  /** The states in which the handler waits for the writer. */
  lemma WritingStepProgress(n: nat, h: Registers, r: R.Reader, w: W.Writer, wait: bool, data: Byte, x: int, y: int,
                            x': int, y': int)
    requires h.Typed() && r.Typed() && (h.state == WriteCodeWait || h.state == WaitPadding)
    requires w.done <==> !h.startWriter && w.state == W.Idle
    requires h.startWriter ==> y' <= 40
    requires !h.startWriter && w.state == W.Idle ==> y == 0
    ensures h.startWriter || w.state == W.Idle ==>
        Left(n, Step(h, NO_CONTROL, r, w, wait, data), x', y') < Left(n, h, x, y)
    ensures !h.startWriter && w.state != W.Idle ==>
        Left(n, Step(h, NO_CONTROL, r, w, wait, data), x', y') == Left(n, h, x, y) - y + y'
  {
  }

  lemma AppendProgress(j: Job, s: Chip, b: BusCycle)
    requires Invariant(j, s) && (s.h.state == WriteCodeWait || s.h.state == WaitPadding)
    ensures ResponsesLeft(j, Clock(s, NO_CONTROL, b)) <= ResponsesLeft(j, s) - if b.wait then 0 else 1
  {
    WriterProgress(j, s, b);
    var next := Clock(s, NO_CONTROL, b);
    WritingStepProgress(|j.text|, s.h, s.r, s.w, b.handler.wait, b.handler.data,
                        ReaderLeft(j, s.h, s.r), W.CyclesLeft(s.w),
                        ReaderLeft(j, next.h, next.r), W.CyclesLeft(next.w));
  }

  /** What the writer contributes to the bound. */
  lemma WriterProgress(j: Job, s: Chip, b: BusCycle)
    requires Invariant(j, s) && (s.h.state == WriteCodeWait || s.h.state == WaitPadding)
    ensures !s.h.startWriter && s.w.state == W.Idle ==> s.w.done
    ensures s.h.startWriter || s.w.state != W.Idle ==> !s.w.done
    ensures s.h.startWriter ==> W.CyclesLeft(WriterNext(s, b)) <= 40
    ensures !s.h.startWriter && s.w.state != W.Idle ==>
              W.CyclesLeft(WriterNext(s, b)) <= W.CyclesLeft(s.w) - if b.wait then 0 else 1
  {
    if s.h.state == WriteCodeWait {
      var k := s.h.textOffset;
      NextCode(j, k);
      WriterWorks(j, s, b, j.Handed(k - 1), CurrentCode(j, k), j.Handed(k));
      if s.h.startWriter { WriterBound(j, WriterNext(s, b), AfterCycle(s.mem, s.w.Outputs(), b.wait), j.Handed(k)); }
    } else {
      WriterWorks(j, s, b, EncodeBits(j.t, j.text), Zeros(8), j.AllBits());
      if s.h.startWriter { WriterBound(j, WriterNext(s, b), AfterCycle(s.mem, s.w.Outputs(), b.wait), j.AllBits()); }
    }
    if !s.h.startWriter && s.w.state != W.Idle {
      W.WritingProgress(s.w, s.h.WriterInputs(), b.wait);
    }
  }

  lemma Progress(j: Job, s: Chip, b: BusCycle)
    requires Invariant(j, s) && s.h.state != Idle
    ensures ResponsesLeft(j, Clock(s, NO_CONTROL, b)) <= ResponsesLeft(j, s) - if b.wait then 0 else 1
  {
    match s.h.state {
      case CheckEnd => CheckProgress(j, s, b);
      case ReadCodeWait => FetchProgress(j, s, b);
      case WriteCodeWait => AppendProgress(j, s, b);
      case WaitPadding => AppendProgress(j, s, b);
      case _ => SimpleProgress(j, s, b);
    }
  }

  lemma StillNeeded(j: Job, s: Chip)
    requires Invariant(j, s) && s.h.state != Idle
    ensures ResponsesLeft(j, s) >= 1
  {
    match s.h.state {
      case WriteCodeWait =>
        if !s.h.startWriter { WriterBound(j, s.w, s.mem, j.Handed(s.h.textOffset)); }
      case WaitPadding =>
        if !s.h.startWriter { WriterBound(j, s.w, s.mem, j.AllBits()); }
      case ReadCodeWait =>
        if !s.h.startReader && s.r.state != R.Idle {
          ReaderBound(s.r, s.mem, Slot(j, s.h.letter), CurrentCode(j, s.h.textOffset));
        }
      case _ =>
    }
  }

  /** The cycles in which the slave does not ask to wait. */
  function Responses(cycles: seq<BusCycle>): nat
    decreases |cycles|
  {
    if cycles == [] then 0 else (if cycles[0].wait then 0 else 1) + Responses(cycles[1..])
  }

  lemma RunFromFirst(s: Chip, cycles: seq<BusCycle>, k: nat)
    requires s.Typed() && k < |cycles|
    ensures Run(s, cycles[..k + 1]) == Run(Clock(s, NO_CONTROL, cycles[0]), cycles[1..][..k])
  {
    assert cycles[..k + 1][1..] == cycles[1..][..k];
  }

  lemma NextClock(j: Job, s: Chip, cycles: seq<BusCycle>)
    requires Invariant(j, s) && s.h.state != Idle && Responses(cycles) >= ResponsesLeft(j, s)
    ensures cycles != []
    ensures var next := Clock(s, NO_CONTROL, cycles[0]);
            Invariant(j, next) && Responses(cycles[1..]) >= ResponsesLeft(j, next)
  {
    StillNeeded(j, s);
    Progress(j, s, cycles[0]);
    InvariantKept(j, s, NO_CONTROL, cycles[0]);
  }

  lemma {:induction false} EventuallyIdle(j: Job, s: Chip, cycles: seq<BusCycle>) returns (n: nat)
    requires Invariant(j, s) && Responses(cycles) >= ResponsesLeft(j, s)
    ensures n <= |cycles| && Run(s, cycles[..n]).h.state == Idle
    decreases |cycles|
  {
    if s.h.state == Idle {
      n := 0;
    } else {
      NextClock(j, s, cycles);
      var k := EventuallyIdle(j, Clock(s, NO_CONTROL, cycles[0]), cycles[1..]);
      n := k + 1;
      RunFromFirst(s, cycles, k);
    }
  }

  /** Liveness: however the slave delays, the job is done once it has responded 200 times for each letter
      and 63 times more. */
  lemma HardwareFinishes(j: Job, s: Chip, first: BusCycle, cycles: seq<BusCycle>) returns (n: nat)
    requires Loaded(j, s) && Responses(cycles) >= 200 * |j.text| + 63
    ensures n <= |cycles|
    ensures var end := Run(Clock(s, StartSignal(), first), cycles[..n]);
            end.h.state == Idle && JobDone(j, end) && Elsewhere(j, s.mem, end.mem)
  {
    Starts(j, s, first);
    var started := Clock(s, StartSignal(), first);
    n := EventuallyIdle(j, started, cycles);
    HardwareEncodes(j, s, first, cycles[..n]);
  }
}
