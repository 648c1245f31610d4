/** Whole runs of the encoder. */
module EncoderResult {
  import opened Bytes
  import opened Avalon
  import opened TextHandlers
  import opened HardwarePath
  import opened HardwareResult
  import opened Encoders
  import opened EncoderPath
  import T = TreeHandlers
  import R = CodeReaders
  import W = CodeWriters

  /** Nothing is going on in the encoder. */
  ghost predicate MachineRests(m: Machine) {
    && m.Typed() && m.e.state == Resting && m.e.master == NoMaster && NoOrders(m.e) && !m.e.bus.write
    && TreeRests(m.t) && TextRests(m.text)
  }

  /** The encoder at rest, with everything it needs in its address registers and in memory. */
  ghost predicate TaskLoaded(x: Task, m: Machine) {
    MachineRests(m) && x.Valid() && m.e.addresses == x.Inputs() && TaskPrepared(x, m.Mem())
  }

  lemma TaskStarts(x: Task, m: Machine, c: MachineCycle)
    requires TaskLoaded(x, m)
    ensures var next := Tick(m, false, true, c);
            FileInvariant(x, next) && next.e.state == TreeWrInput && next.Mem() == m.Mem()
  {
    TreeStays(x, m, c);
    TextStays(m, c);
  }

  /** An encoder at rest ignores everything but a start signal, and a reset ignores the start signal too: it stays
      ready, the bus is quiet, and the done signal of an earlier task goes down. */
  lemma LoadedStays(x: Task, m: Machine, reset: bool, start: bool, c: MachineCycle)
    requires TaskLoaded(x, m) && (reset || !start)
    ensures var next := Tick(m, reset, start, c);
            && TaskLoaded(x, next) && next.Mem() == m.Mem() && next.t.size == m.t.size
            && next.e.done == (reset && m.e.done)
    ensures !m.Outputs().write
  {
    TreeStays(x, m, c);
    TextStays(m, c);
  }

  /** A reset in the middle of a run brings only the encoder's own process to rest. The whole encoder is at rest
      after it if and only if neither handler has been told anything yet. */
  lemma ResetInRun(x: Task, m: Machine, start: bool, c: MachineCycle)
    requires FileInvariant(x, m)
    ensures Tick(m, true, start, c).e.state == Resting
    ensures MachineRests(Tick(m, true, start, c)) <==> m.e.state == Resting || m.e.state == TreeWrInput
  {
    if m.e.state == Resting || m.e.state == TreeWrInput {
      TreeStays(x, m, c);
      TextStays(m, c);
    }
  }

  /** The machine after some clock cycles without a start signal. */
  function RunMachine(m: Machine, cycles: seq<MachineCycle>): Machine
    requires m.Typed()
    decreases |cycles|
  {
    if cycles == [] then m else RunMachine(Tick(m, false, false, cycles[0]), cycles[1..])
  }

  lemma {:induction false} RunMachineKeeps(x: Task, m: Machine, cycles: seq<MachineCycle>, before: Memory)
    requires FileInvariant(x, m) && FileOnly(x, before, m.Mem())
    ensures FileInvariant(x, RunMachine(m, cycles)) && FileOnly(x, before, RunMachine(m, cycles).Mem())
    decreases |cycles|
  {
    if cycles != [] {
      FileInvariantKept(x, m, cycles[0]);
      OutsideKept(x, m, cycles[0], before);
      RunMachineKeeps(x, Tick(m, false, false, cycles[0]), cycles[1..], before);
    }
  }

  /** Safety over all runs: started on a prepared task, under every behaviour of the bus, whenever the encoder
      is at rest again, and so whenever it reports that it is done, the whole file is in memory; and at no time
      is anything outside the file touched. */
  lemma EncoderWritesFile(x: Task, m: Machine, first: MachineCycle, cycles: seq<MachineCycle>)
    requires TaskLoaded(x, m)
    ensures var end := RunMachine(Tick(m, false, true, first), cycles);
            && (end.e.done ==> end.e.state == Resting)
            && (end.e.state == Resting ==> FileDone(x, end.Mem()))
            && FileOnly(x, m.Mem(), end.Mem())
  {
    TaskStarts(x, m, first);
    RunMachineKeeps(x, Tick(m, false, true, first), cycles, m.Mem());
  }

  // Progress.

  /** An upper bound on the responses of the slave that are still needed, given what the handlers need. */
  function StageLeft(e: EncoderRegisters, letters: nat, header: nat, tree: int, text: int): int {
    var forText := 200 * letters + 63;
    match e.state
    case Resting => 0
    case TreeWrInput => forText + 7 * header + 27
    case TreeStart => forText + 7 * header + 26
    case TreeWait => if e.startTree then forText + 7 * header + 25 else forText + 13 + tree
    case TextWrInput => forText + 12
    case TextStart => forText + 11
    case TextWait => if e.startText then forText + 10 else 9 + text
    case WrTotal(n) => 2 * (5 - n)
    case WrTotalWait(n) => 2 * (5 - n) - 1
  }

  ghost function TaskLeft(x: Task, m: Machine): int
    requires x.Valid()
  {
    StageLeft(m.e, |x.j.text|, |x.Printed()|, T.CyclesLeft(m.t, |x.Printed()|),
              if m.text.h.state == Idle then 0 else ResponsesLeft(x.j, m.text))
  }

  /** The stages in which the encoder waits for nobody else. */
  lemma OwnStep(e: EncoderRegisters, r: Reports, wait: bool, letters: nat, header: nat, t: int, u: int, t': int,
                u': int)
    requires e.Typed() && e.state != Resting && e.state != TreeWait && e.state != TextWait
    ensures var next := EncoderStep(e, false, false, r, wait);
            && StageLeft(next, letters, header, t', u') <= StageLeft(e, letters, header, t, u) - (if wait then 0 else 1)
            && (!e.state.WrTotalWait? ==>
                  StageLeft(next, letters, header, t', u') < StageLeft(e, letters, header, t, u))
  {
  }

  lemma OwnProgress(x: Task, m: Machine, c: MachineCycle)
    requires x.Valid() && m.Typed() && m.e.state != Resting && m.e.state != TreeWait && m.e.state != TextWait
    requires m.e.state.WrTotalWait? ==> m.e.master == Own
    ensures TaskLeft(x, Tick(m, false, false, c)) <= TaskLeft(x, m) - if c.bus.wait then 0 else 1
  {
    var next := Tick(m, false, false, c);
    OwnStep(m.e, m.Heard(), if m.e.master == Own then c.bus.wait else c.ownWait, |x.j.text|, |x.Printed()|,
            T.CyclesLeft(m.t, |x.Printed()|), if m.text.h.state == Idle then 0 else ResponsesLeft(x.j, m.text),
            T.CyclesLeft(next.t, |x.Printed()|),
            if next.text.h.state == Idle then 0 else ResponsesLeft(x.j, next.text));
  }

  lemma TreeProgress(x: Task, m: Machine, c: MachineCycle)
    requires FileInvariant(x, m) && m.e.state == TreeWait
    ensures TaskLeft(x, Tick(m, false, false, c)) <= TaskLeft(x, m) - if c.bus.wait then 0 else 1
  {
    var data := DataIn(m.Mem(), m.t.bus, c.bus.wait, c.bus.junk);
    if m.e.startTree {
      T.CopyingStarts(x.Copy(), m.t, m.Mem(), m.e.TreeInputs(), c.bus.wait, data);
    } else if m.t.state != T.Idle {
      T.CopyingProgress(x.Copy(), m.t, m.Mem(), m.e.TreeInputs(), c.bus.wait, data);
    }
  }

  lemma TextProgress(x: Task, m: Machine, c: MachineCycle)
    requires FileInvariant(x, m) && m.e.state == TextWait && !m.e.startText && m.text.h.state != Idle
    ensures var next := TextNext(m, c);
            Invariant(x.j, next) && ResponsesLeft(x.j, next) <= ResponsesLeft(x.j, m.text) - if c.bus.wait then 0 else 1
  {
    ControlOnly(m.text, m.e.TextInputs(m.t.size), c.bus);
    Progress(x.j, m.text, c.bus);
    RunningText(x, m, c);
  }

  lemma TextStartProgress(x: Task, m: Machine, c: MachineCycle)
    requires FileInvariant(x, m) && m.e.state == TextWait && m.e.startText
    ensures ResponsesLeft(x.j, TextNext(m, c)) == 200 * |x.j.text| + 63
  {
    ControlOnly(m.text, m.e.TextInputs(m.t.size), c.bus);
  }

  lemma TextWaitProgress(x: Task, m: Machine, c: MachineCycle)
    requires FileInvariant(x, m) && m.e.state == TextWait
    ensures TaskLeft(x, Tick(m, false, false, c)) <= TaskLeft(x, m) - if c.bus.wait then 0 else 1
  {
    if m.e.startText {
      StartingText(x, m, c);
      TextStartProgress(x, m, c);
    } else if m.text.h.state != Idle {
      TextProgress(x, m, c);
      assert OwnNext(m, false, false, c) == m.e;
    } else {
      assert OwnNext(m, false, false, c).state == WrTotal(1);
    }
  }

  lemma TaskProgress(x: Task, m: Machine, c: MachineCycle)
    requires FileInvariant(x, m) && m.e.state != Resting
    ensures TaskLeft(x, Tick(m, false, false, c)) <= TaskLeft(x, m) - if c.bus.wait then 0 else 1
  {
    if m.e.state == TreeWait {
      TreeProgress(x, m, c);
    } else if m.e.state == TextWait {
      TextWaitProgress(x, m, c);
    } else {
      OwnProgress(x, m, c);
    }
  }

  lemma TaskNeeds(x: Task, m: Machine)
    requires FileInvariant(x, m) && m.e.state != Resting
    ensures TaskLeft(x, m) >= 1
  {
    if m.e.state == TextWait && !m.e.startText && m.text.h.state != Idle {
      StillNeeded(x.j, m.text);
    }
  }

  /** The cycles in which the slave does not ask to wait. */
  function MachineResponses(cycles: seq<MachineCycle>): nat
    decreases |cycles|
  {
    if cycles == [] then 0 else (if cycles[0].bus.wait then 0 else 1) + MachineResponses(cycles[1..])
  }

  lemma TicksFromFirst(m: Machine, cycles: seq<MachineCycle>, k: nat)
    requires m.Typed() && k < |cycles|
    ensures RunMachine(m, cycles[..k + 1]) == RunMachine(Tick(m, false, false, cycles[0]), cycles[1..][..k])
  {
    assert cycles[..k + 1][1..] == cycles[1..][..k];
  }

  lemma NextTick(x: Task, m: Machine, cycles: seq<MachineCycle>)
    requires FileInvariant(x, m) && m.e.state != Resting && MachineResponses(cycles) >= TaskLeft(x, m)
    ensures cycles != []
    ensures var next := Tick(m, false, false, cycles[0]);
            FileInvariant(x, next) && MachineResponses(cycles[1..]) >= TaskLeft(x, next)
  {
    TaskNeeds(x, m);
    TaskProgress(x, m, cycles[0]);
    FileInvariantKept(x, m, cycles[0]);
  }

  /** An encoder that comes to rest says so, and says nothing before. */
  lemma RestIsReported(m: Machine, c: MachineCycle)
    requires m.Typed() && m.e.state != Resting && !m.e.done
    ensures var e := OwnNext(m, false, false, c); e.state == Resting <==> e.done
  {
  }

  lemma {:induction false} EventuallyResting(x: Task, m: Machine, cycles: seq<MachineCycle>) returns (n: nat)
    requires FileInvariant(x, m) && MachineResponses(cycles) >= TaskLeft(x, m)
    requires m.e.state == Resting <==> m.e.done
    ensures n <= |cycles| && RunMachine(m, cycles[..n]).e.state == Resting && RunMachine(m, cycles[..n]).e.done
    decreases |cycles|
  {
    if m.e.state == Resting {
      n := 0;
    } else {
      NextTick(x, m, cycles);
      RestIsReported(m, cycles[0]);
      var k := EventuallyResting(x, Tick(m, false, false, cycles[0]), cycles[1..]);
      n := k + 1;
      TicksFromFirst(m, cycles, k);
    }
  }

  /** Liveness: however the slave delays, the encoder reports that it is done, with the file complete, once the
      slave has responded 200 times for each letter of the text, 7 times for each character of the printed tree,
      and 90 times more. */
  lemma EncoderFinishes(x: Task, m: Machine, first: MachineCycle, cycles: seq<MachineCycle>) returns (n: nat)
    requires TaskLoaded(x, m) && MachineResponses(cycles) >= 200 * |x.j.text| + 7 * |x.Printed()| + 90
    ensures n <= |cycles|
    ensures var end := RunMachine(Tick(m, false, true, first), cycles[..n]);
            && end.e.state == Resting && end.e.done
            && FileDone(x, end.Mem()) && FileOnly(x, m.Mem(), end.Mem())
  {
    TaskStarts(x, m, first);
    n := EventuallyResting(x, Tick(m, false, true, first), cycles);
    EncoderWritesFile(x, m, first, cycles[..n]);
  }

  /** When the file is complete the encoder is ready for any other task. */
  lemma EncoderRestarts(x: Task, m: Machine, y: Task, mem: Memory)
    requires FileInvariant(x, m) && m.e.state == Resting
    requires y.Valid() && TaskPrepared(y, mem)
    ensures TaskLoaded(y, m.(e := m.e.(addresses := y.Inputs()), text := m.text.(mem := mem)))
  {
  }

  /** What the asynchronous reset leaves in the five processes; all other registers may hold anything. */
  ghost predicate AfterReset(m: Machine) {
    var silent := Bus(0, false, false, 0);
    && m.Typed()
    && m.e == m.e.(state := Resting, master := NoMaster, writeTree := false, startTree := false, done := false)
    && m.t == m.t.(state := T.Idle, bus := silent, done := false)
    && m.text.h == m.text.h.(state := Idle, mux := Nobody, startReader := false, setWriter := false,
                             startWriter := false, bus := silent, done := false)
    && m.text.r == m.text.r.(state := R.Idle, done := false, read := false, address := 0, codeReg := Zeros(64))
    && m.text.w == m.text.w.(state := W.Idle, done := false, size := 0, wipIdx := 63, wipReg := Zeros(64),
                             address := 0, write := false, data := 0)
  }

  /** After a reset, with the three signals low that no reset sets, the encoder is at rest: it takes any task
      whose addresses are written into its registers and whose image is in memory. */
  lemma ResetLoads(m: Machine, x: Task, mem: Memory)
    requires AfterReset(m) && !m.e.writeText && !m.e.startText && !m.e.bus.write
    requires x.Valid() && TaskPrepared(x, mem)
    ensures MachineRests(m)
    ensures TaskLoaded(x, m.(e := m.e.(addresses := x.Inputs()), text := m.text.(mem := mem)))
  {
  }
}
