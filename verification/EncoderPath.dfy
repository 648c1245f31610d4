/** The encoder writes the whole file, for every behaviour of the bus. */
module EncoderPath {
  import opened Bytes
  import opened CodeTables
  import opened FileFormat
  import opened Avalon
  import opened TextHandlers
  import opened HardwarePath
  import opened HardwareResult
  import opened Encoders
  import T = TreeHandlers
  import R = CodeReaders
  import W = CodeWriters

  /** What the encoder is asked to do: a job for the text handler, and the address of the printed tree. */
  datatype Task = Task(j: Job, treeAddr: Address)
  {
    function Printed(): seq<Byte> {
      CharBytes(Print(j.t))
    }

    ghost predicate Valid() {
      j.Valid() && j.header == |Print(j.t)| && Copy().Valid()
    }

    function Copy(): T.Copy {
      T.Copy(treeAddr, j.dst, Printed())
    }

    function Payload(): seq<Byte>
      requires Encodable(j.t, j.text)
    {
      HardwarePayload(j.t, j.text)
    }

    /** The size of the file. */
    function Size(): nat
      requires Encodable(j.t, j.text)
    {
      12 + |Print(j.t)| + |Payload()|
    }

    function Inputs(): Addresses {
      Addresses(j.codesBase, treeAddr, j.textAddr, j.dst)
    }
  }

  /** Everything the encoder is to read, below the output. */
  ghost predicate TaskPrepared(x: Task, mem: Memory) {
    Prepared(x.j, mem) && StringAt(mem, x.treeAddr, x.Printed())
  }

  /** The memory still has everything outside the file. */
  ghost predicate FileOnly(x: Task, before: Memory, mem: Memory)
    requires x.Valid()
  {
    forall a :: 0 <= a < SPACE && !(x.j.dst <= a < x.j.dst + x.Size()) ==> mem[a] == before[a]
  }

  /** The tree and its length are in place. */
  ghost predicate HeaderDone(x: Task, m: Machine)
    requires x.Valid()
  {
    TreeRests(m.t) && m.t.size == |x.Printed()| && x.Copy().Counted(m.Mem(), 4)
  }

  /** Everything but the total length is in place. */
  ghost predicate BodyDone(x: Task, mem: Memory)
    requires x.Valid()
  {
    mem[x.j.dst + 4..x.j.dst + x.Size()] == AfterTotal(Print(x.j.t), |x.j.text|, x.Payload())
  }

  /** So are the first `n` bytes of the total length. */
  ghost predicate TotalDone(x: Task, mem: Memory, n: nat)
    requires x.Valid()
  {
    n <= 4 && BodyDone(x, mem) && mem[x.j.dst..x.j.dst + n] == Word(x.Size())[..n]
  }

  /** The file is in place. */
  ghost predicate FileDone(x: Task, mem: Memory)
    requires x.Valid()
  {
    mem[x.j.dst..x.j.dst + x.Size()] == Assemble(x.j.t, |x.j.text|, x.Payload())
  }

  ghost predicate TreeRests(t: T.Registers) {
    t.Typed() && t.state == T.Idle && !t.done && !t.bus.read && !t.bus.write
  }

  ghost predicate TextRests(s: Chip) {
    Rests(s) && !s.h.done
  }

  /** No handler is given addresses or started. */
  predicate NoOrders(e: EncoderRegisters) {
    !e.writeTree && !e.startTree && !e.writeText && !e.startText
  }

  /** The tree handler is about to start, is copying, or has just finished. */
  ghost predicate CopyingTree(x: Task, m: Machine)
    requires x.Valid()
  {
    && m.e.master == Tree && !m.e.writeTree && !m.e.writeText && !m.e.startText && TextRests(m.text)
    && if m.e.startTree then T.Loaded(x.Copy(), m.t)
       else T.Copying(x.Copy(), m.t, m.Mem()) && (m.t.done <==> m.t.state == T.Idle)
  }

  /** The text handler is about to start, is encoding, or has just finished. */
  ghost predicate EncodingText(x: Task, m: Machine)
    requires x.Valid()
  {
    && m.e.master == Text && !m.e.writeTree && !m.e.startTree && !m.e.writeText && HeaderDone(x, m)
    && if m.e.startText then AtRest(x.j, m.text) && !m.text.h.done
       else Invariant(x.j, m.text) && (m.text.h.done <==> m.text.h.state == Idle)
  }

  ghost predicate WritingTotal(x: Task, m: Machine, n: nat)
    requires x.Valid()
  {
    && m.e.master == Own && NoOrders(m.e) && TreeRests(m.t) && TextRests(m.text)
    && m.e.total == x.Size() && 1 <= n <= 4 && TotalDone(x, m.Mem(), n - 1)
  }

  /** What holds in each state of the encoder. */
  ghost predicate Stage(x: Task, m: Machine)
    requires x.Valid()
  {
    match m.e.state
    case Resting =>
      m.e.master == NoMaster && NoOrders(m.e) && TreeRests(m.t) && TextRests(m.text) && FileDone(x, m.Mem())
    case TreeWrInput => m.e.master == NoMaster && NoOrders(m.e) && TreeRests(m.t) && TextRests(m.text)
    case TreeStart =>
      && m.e.master == NoMaster && NoOrders(m.e.(writeTree := false)) && m.e.writeTree
      && TreeRests(m.t) && TextRests(m.text)
    case TreeWait => CopyingTree(x, m)
    case TextWrInput => m.e.master == Text && NoOrders(m.e) && HeaderDone(x, m) && TextRests(m.text)
    case TextStart =>
      && m.e.master == Text && NoOrders(m.e.(writeText := false)) && m.e.writeText
      && HeaderDone(x, m) && TextRests(m.text)
    case TextWait => EncodingText(x, m)
    case WrTotal(n) => WritingTotal(x, m, n)
    case WrTotalWait(n) =>
      && WritingTotal(x, m, n) && m.e.bus.write
      && m.e.bus.address == x.j.dst + n - 1 && m.e.bus.data == Word(x.Size())[n - 1]
  }

  ghost predicate TaskContext(x: Task, m: Machine) {
    && x.Valid() && m.Typed() && m.e.addresses == x.Inputs() && TaskPrepared(x, m.Mem())
    && (m.e.bus.write ==> m.e.state.WrTotalWait?) && (m.e.done ==> m.e.state == Resting)
  }

  /** The invariant over all runs of a task. */
  ghost predicate FileInvariant(x: Task, m: Machine) {
    TaskContext(x, m) && Stage(x, m)
  }

  // One clock edge: the memory.

  /** Whenever the bus writes, it writes into the file. */
  lemma WritesIntoFile(x: Task, m: Machine)
    requires FileInvariant(x, m) && m.Outputs().write
    ensures x.j.dst <= m.Outputs().address < x.j.dst + x.Size()
  {
    match m.e.state
    case TreeWait =>
      if !m.e.startTree { T.CopyingStaysInside(x.Copy(), m.t, m.Mem()); }
    case TextWait =>
      if !m.e.startText { WritesInside(x.j, m.text); }
    case _ =>
  }

  /** What one clock edge does to the memory. */
  lemma OutsideKept(x: Task, m: Machine, c: MachineCycle, before: Memory)
    requires FileInvariant(x, m)
    ensures var after := AfterCycle(m.Mem(), m.Outputs(), c.bus.wait);
            TaskPrepared(x, after) && (FileOnly(x, before, m.Mem()) ==> FileOnly(x, before, after))
  {
    var after := AfterCycle(m.Mem(), m.Outputs(), c.bus.wait);
    if m.Outputs().write { WritesIntoFile(x, m); }
    assert after[..x.j.dst] == m.Mem()[..x.j.dst];
    PreparedKept(x.j, m.Mem(), after);
    SliceKept(m.Mem(), after, x.j.dst, x.treeAddr, x.treeAddr + |x.Printed()|);
  }

  // One clock edge: the parts that are not at work.

  lemma TreeStays(x: Task, m: Machine, c: MachineCycle)
    requires m.Typed() && !m.e.writeTree && !m.e.startTree && m.t.state == T.Idle
    ensures TreeNext(m, c) == m.t.(done := false)
  {
  }

  lemma TextStays(m: Machine, c: MachineCycle)
    requires m.Typed() && TextRests(m.text) && !m.e.startText
    ensures TextRests(TextNext(m, c))
  {
    assert R.Quiet(TextNext(m, c).r);
  }

  lemma AtRestOutputs(m: Machine)
    requires Rests(m.text)
    ensures !m.text.Outputs().write
  {
  }

  lemma HeaderStays(x: Task, m: Machine, reset: bool, start: bool, c: MachineCycle)
    requires x.Valid() && m.Typed() && !m.e.writeTree && !m.e.startTree && HeaderDone(x, m)
    requires m.Outputs().write ==>
               x.j.dst + 8 <= m.Outputs().address < x.j.dst + 12 || x.j.Base() <= m.Outputs().address
    ensures HeaderDone(x, Tick(m, reset, start, c))
  {
    TreeStays(x, m, c);
    var after := AfterCycle(m.Mem(), m.Outputs(), c.bus.wait);
    var dst := x.j.dst;
    assert after[dst + 4..dst + 8] == m.Mem()[dst + 4..dst + 8];
    assert after[dst + 12..dst + 12 + |x.Printed()|] == m.Mem()[dst + 12..dst + 12 + |x.Printed()|];
  }

  // One clock edge: the tree.

  lemma FromTreeWrInput(x: Task, m: Machine, c: MachineCycle)
    requires TaskContext(x, m) && m.e.state == TreeWrInput && Stage(x, m)
    ensures Stage(x, Tick(m, false, false, c))
  {
    TextStays(m, c);
    TreeStays(x, m, c);
  }

  lemma FromTreeStart(x: Task, m: Machine, c: MachineCycle)
    requires TaskContext(x, m) && m.e.state == TreeStart && Stage(x, m)
    ensures Stage(x, Tick(m, false, false, c))
  {
    TextStays(m, c);
  }

  lemma FromTreeWait(x: Task, m: Machine, c: MachineCycle)
    requires TaskContext(x, m) && m.e.state == TreeWait && Stage(x, m)
    ensures Stage(x, Tick(m, false, false, c))
  {
    TextStays(m, c);
    var data := DataIn(m.Mem(), m.t.bus, c.bus.wait, c.bus.junk);
    if m.e.startTree {
      T.CopyingStarts(x.Copy(), m.t, m.Mem(), m.e.TreeInputs(), c.bus.wait, data);
    } else {
      T.CopyingKept(x.Copy(), m.t, m.Mem(), m.e.TreeInputs(), c.bus.wait, c.bus.junk);
      if m.t.state != T.Idle {
        T.DoneWhenIdle(x.Copy(), m.t, m.Mem(), m.e.TreeInputs(), c.bus.wait, data);
      }
    }
  }

  // One clock edge: the text.

  lemma FromTextWrInput(x: Task, m: Machine, c: MachineCycle)
    requires TaskContext(x, m) && m.e.state == TextWrInput && Stage(x, m)
    ensures Stage(x, Tick(m, false, false, c))
  {
    TextStays(m, c);
    AtRestOutputs(m);
    HeaderStays(x, m, false, false, c);
  }

  lemma FromTextStart(x: Task, m: Machine, c: MachineCycle)
    requires TaskContext(x, m) && m.e.state == TextStart && Stage(x, m)
    ensures Stage(x, Tick(m, false, false, c))
  {
    TextStays(m, c);
    AtRestOutputs(m);
    HeaderStays(x, m, false, false, c);
  }

  /** With neither of the control signals the other control inputs do not matter, and the start signal alone
      is the start signal. */
  lemma ControlOnly(s: Chip, c: Control, b: BusCycle)
    requires s.Typed() && !c.write
    ensures Clock(s, c, b) == Clock(s, if c.start then StartSignal() else NO_CONTROL, b)
  {
  }

  lemma StartingText(x: Task, m: Machine, c: MachineCycle)
    requires TaskContext(x, m) && EncodingText(x, m) && m.e.startText
    ensures Invariant(x.j, TextNext(m, c)) && !TextNext(m, c).h.done && TextNext(m, c).h.state != Idle
    ensures TextNext(m, c).mem == m.Mem()
  {
    ControlOnly(m.text, m.e.TextInputs(m.t.size), c.bus);
    Starts(x.j, m.text, c.bus);
  }

  lemma HandlerDone(h: Registers, c: Control, r: R.Reader, w: W.Writer, wait: bool, data: Byte)
    requires h.Typed() && r.Typed() && !c.write && !h.done && h.state != Idle
    ensures var next := Step(h, c, r, w, wait, data); next.done <==> next.state == Idle
  {
  }

  /** The done signal of the text handler comes with the end of the job. */
  lemma TextDoneWhenIdle(s: Chip, c: Control, b: BusCycle)
    requires s.Typed() && !c.write && !s.h.done && s.h.state != Idle
    ensures var next := HandlerNext(s, c, b); next.done <==> next.state == Idle
  {
    HandlerDone(s.h, c, s.r, s.w, b.wait, Data(s, b));
    HandlerDone(s.h, c, s.r, s.w, b.handler.wait, b.handler.data);
  }

  lemma RunningText(x: Task, m: Machine, c: MachineCycle)
    requires TaskContext(x, m) && EncodingText(x, m) && !m.e.startText && !m.text.h.done
    ensures var next := TextNext(m, c); Invariant(x.j, next) && (next.h.done <==> next.h.state == Idle)
  {
    InvariantKept(x.j, m.text, m.e.TextInputs(m.t.size), c.bus);
    TextDoneWhenIdle(m.text, m.e.TextInputs(m.t.size), c.bus);
  }

  lemma TextStarted(x: Task, m: Machine, c: MachineCycle)
    requires TaskContext(x, m) && m.e.state == TextWait && EncodingText(x, m) && m.e.startText
    ensures Stage(x, Tick(m, false, false, c))
  {
    AtRestOutputs(m);
    HeaderStays(x, m, false, false, c);
    StartingText(x, m, c);
  }

  lemma TextGoesOn(x: Task, m: Machine, c: MachineCycle)
    requires TaskContext(x, m) && m.e.state == TextWait && EncodingText(x, m) && !m.e.startText && !m.text.h.done
    ensures Stage(x, Tick(m, false, false, c))
  {
    if m.text.Outputs().write { WritesInside(x.j, m.text); }
    HeaderStays(x, m, false, false, c);
    RunningText(x, m, c);
  }

  lemma Concat3<D>(s: seq<D>, a: nat, b: nat, c: nat, d: nat, e: nat, p: seq<D>, q: seq<D>, r: seq<D>, t: seq<D>)
    requires a <= b <= c <= d <= e <= |s|
    requires s[a..b] == p && s[b..c] == q && s[c..d] == r && s[d..e] == t
    ensures s[a..e] == p + q + r + t
  {
  }

  lemma TextComesToRest(x: Task, m: Machine, c: MachineCycle)
    requires TaskContext(x, m) && EncodingText(x, m) && !m.e.startText && m.text.h.done
    ensures !m.text.Outputs().write && TextRests(TextNext(m, c))
  {
    assert AtIdle(x.j, m.text);
    QuietStays(m.text, c.bus);
  }

  lemma BodyFromParts(x: Task, m: Machine)
    requires x.Valid() && HeaderDone(x, m) && JobDone(x.j, m.text)
    ensures BodyDone(x, m.Mem())
  {
    var word := Word(|x.Printed()|);
    assert word[..4] == word;
    FourParts(x, m.Mem());
  }

  lemma FourParts(x: Task, mem: Memory)
    requires x.Valid()
    requires mem[x.j.dst + 4..x.j.dst + 8] == Word(|x.Printed()|) && mem[x.j.dst + 8..x.j.dst + 12] == Word(|x.j.text|)
    requires mem[x.j.dst + 12..x.j.Base()] == x.Printed() && mem[x.j.Base()..x.j.dst + x.Size()] == x.Payload()
    ensures BodyDone(x, mem)
  {
    var dst := x.j.dst;
    Concat3(mem, dst + 4, dst + 8, dst + 12, x.j.Base(), dst + x.Size(),
            Word(|x.Printed()|), Word(|x.j.text|), x.Printed(), x.Payload());
  }

  lemma TotalBegins(x: Task, m: Machine)
    requires TaskContext(x, m) && EncodingText(x, m) && !m.e.startText && m.text.h.done
    ensures TotalDone(x, m.Mem(), 0) && 12 + m.t.size + m.text.w.size == x.Size()
  {
    IdleIsDone(x.j, m.text);
    BodyFromParts(x, m);
    assert m.Mem()[x.j.dst..x.j.dst] == Word(x.Size())[..0];
  }

  lemma TextFinished(x: Task, m: Machine, c: MachineCycle)
    requires TaskContext(x, m) && m.e.state == TextWait && EncodingText(x, m) && !m.e.startText && m.text.h.done
    ensures Stage(x, Tick(m, false, false, c))
  {
    TreeStays(x, m, c);
    TextComesToRest(x, m, c);
    TotalBegins(x, m);
  }

  lemma FromTextWait(x: Task, m: Machine, c: MachineCycle)
    requires TaskContext(x, m) && m.e.state == TextWait && Stage(x, m)
    ensures Stage(x, Tick(m, false, false, c))
  {
    if m.e.startText {
      TextStarted(x, m, c);
    } else if m.text.h.done {
      TextFinished(x, m, c);
    } else {
      TextGoesOn(x, m, c);
    }
  }

  // One clock edge: the total length.

  lemma FromWrTotal(x: Task, m: Machine, c: MachineCycle)
    requires TaskContext(x, m) && m.e.state.WrTotal? && Stage(x, m)
    ensures Stage(x, Tick(m, false, false, c))
  {
    TreeStays(x, m, c);
    TextStays(m, c);
  }

  lemma NextStored(mem: Memory, at: nat, word: seq<Byte>, n: nat)
    requires |word| == 4 && 1 <= n <= 4 && at + 4 <= SPACE && mem[at..at + n - 1] == word[..n - 1]
    ensures mem[at + n - 1 := word[n - 1]][at..at + n] == word[..n]
  {
    assert mem[at + n - 1 := word[n - 1]][at..at + n] == mem[at..at + n - 1] + [word[n - 1]];
    assert word[..n] == word[..n - 1] + [word[n - 1]];
  }

  lemma TotalGrows(x: Task, mem: Memory, n: nat)
    requires x.Valid() && 1 <= n <= 4 && TotalDone(x, mem, n - 1)
    ensures TotalDone(x, mem[x.j.dst + n - 1 := Word(x.Size())[n - 1]], n)
  {
    var dst, total := x.j.dst, Word(x.Size());
    NextStored(mem, dst, total, n);
    assert mem[dst + n - 1 := total[n - 1]][dst + 4..dst + x.Size()] == mem[dst + 4..dst + x.Size()];
  }

  lemma Concat2<D>(s: seq<D>, a: nat, b: nat, c: nat, p: seq<D>, q: seq<D>)
    requires a <= b <= c <= |s| && s[a..b] == p && s[b..c] == q
    ensures s[a..c] == p + q
  {
  }

  lemma FileFromParts(x: Task, mem: Memory)
    requires x.Valid() && TotalDone(x, mem, 4)
    ensures FileDone(x, mem)
  {
    var total := Word(x.Size());
    assert total[..4] == total;
    Concat2(mem, x.j.dst, x.j.dst + 4, x.j.dst + x.Size(), total, AfterTotal(Print(x.j.t), |x.j.text|, x.Payload()));
  }

  lemma FromWrTotalWait(x: Task, m: Machine, c: MachineCycle)
    requires TaskContext(x, m) && m.e.state.WrTotalWait? && Stage(x, m)
    ensures Stage(x, Tick(m, false, false, c))
  {
    TreeStays(x, m, c);
    TextStays(m, c);
    if c.bus.wait {
      ByteDelayed(x, m, c);
    } else {
      ByteStored(x, m);
      ByteOfTotal(x, m, c);
    }
  }

  lemma ByteStored(x: Task, m: Machine)
    requires TaskContext(x, m) && m.e.state.WrTotalWait? && Stage(x, m)
    ensures TotalDone(x, AfterCycle(m.Mem(), m.e.bus, false), m.e.state.n)
  {
    TotalGrows(x, m.Mem(), m.e.state.n);
  }

  lemma ByteDelayed(x: Task, m: Machine, c: MachineCycle)
    requires TaskContext(x, m) && m.e.state.WrTotalWait? && Stage(x, m) && c.bus.wait
    requires TreeRests(TreeNext(m, c)) && TextRests(TextNext(m, c))
    ensures Stage(x, Tick(m, false, false, c))
  {
    assert OwnNext(m, false, false, c) == m.e;
  }

  lemma ByteOfTotal(x: Task, m: Machine, c: MachineCycle)
    requires TaskContext(x, m) && m.e.state.WrTotalWait? && Stage(x, m) && !c.bus.wait
    requires TotalDone(x, AfterCycle(m.Mem(), m.e.bus, c.bus.wait), m.e.state.n)
    requires TreeRests(TreeNext(m, c)) && TextRests(TextNext(m, c))
    ensures Stage(x, Tick(m, false, false, c))
  {
    if m.e.state.n == 4 { FileFromParts(x, AfterCycle(m.Mem(), m.e.bus, c.bus.wait)); }
  }

  lemma FromResting(x: Task, m: Machine, c: MachineCycle)
    requires TaskContext(x, m) && m.e.state == Resting && Stage(x, m)
    ensures Stage(x, Tick(m, false, false, c))
  {
    TreeStays(x, m, c);
    TextStays(m, c);
  }

  lemma StageKept(x: Task, m: Machine, c: MachineCycle)
    requires FileInvariant(x, m)
    ensures Stage(x, Tick(m, false, false, c))
  {
    match m.e.state
    case Resting => FromResting(x, m, c);
    case TreeWrInput => FromTreeWrInput(x, m, c);
    case TreeStart => FromTreeStart(x, m, c);
    case TreeWait => FromTreeWait(x, m, c);
    case TextWrInput => FromTextWrInput(x, m, c);
    case TextStart => FromTextStart(x, m, c);
    case TextWait => FromTextWait(x, m, c);
    case WrTotal(_) => FromWrTotal(x, m, c);
    case WrTotalWait(_) => FromWrTotalWait(x, m, c);
  }

  /** The invariant holds after every clock edge, whatever the bus does. */
  lemma FileInvariantKept(x: Task, m: Machine, c: MachineCycle)
    requires FileInvariant(x, m)
    ensures FileInvariant(x, Tick(m, false, false, c))
  {
    OutsideKept(x, m, c, m.Mem());
    StageKept(x, m, c);
  }
}
