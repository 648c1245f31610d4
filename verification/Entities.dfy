/** The entities as objects: the text handler with its reader and writer, and the encoder with both handlers.
    The connections between them are those of the port maps and of the two multiplexers. */
module Entities {
  import opened Bytes
  import opened Avalon
  import opened TextHandlers
  import opened HardwarePath
  import opened Encoders
  import opened EncoderPath
  import opened EncoderResult
  import T = TreeHandlers
  import R = CodeReaders
  import W = CodeWriters

  /** The code fits the register of the writer. */
  predicate CodeFits(w: W.Writer) {
    w.state == W.AddCode ==> w.codeLen - 1 <= w.wipIdx <= 63
  }

  /** The three steps with what each process sees. */
  function ThreeSteps(s: Chip, c: Control, h: Latch, r: Latch, writerWait: bool, after: Memory): Chip
    requires s.Typed()
  {
    Chip(Step(s.h, c, s.r, s.w, h.wait, h.data), R.Step(s.r, s.h.startReader, s.h.currCodeAddr, r.wait, r.data),
      W.Step(s.w, s.h.WriterInputs(), writerWait), after)
  }

  /** What a process of the text handler sees. */
  function Seen(s: Chip, who: Mux, on: bool, now: Latch, last: Latch): Latch {
    if on && s.h.mux == who then now else last
  }

  /** The multiplexers together. */
  lemma StepsTogether(s: Chip, c: Control, on: bool, data: Byte, b: BusCycle, after: Memory)
    requires s.Typed() && (on ==> data == Data(s, b) && after == AfterCycle(s.mem, s.Outputs(), b.wait))
    ensures ThreeSteps(s, c, Seen(s, Handler, on, Latch(b.wait, data), b.handler),
                       Seen(s, CodeRd, on, Latch(b.wait, data), b.reader),
                       Seen(s, CodeWr, on, Latch(b.wait, data), Latch(b.writerWait, 0)).wait, after)
         == (if on then Clock(s, c, b) else Aside(s, c, b, after))
  {
  }

  class TextEntity {
    const handler: TextHandler
    const reader: R.CodeReader
    const writer: W.CodeWriter

    constructor (handler: TextHandler, reader: R.CodeReader, writer: W.CodeWriter)
      ensures this.handler == handler && this.reader == reader && this.writer == writer
    {
      this.handler, this.reader, this.writer := handler, reader, writer;
    }

    /** The registers of the three processes, with the memory they see. */
    ghost function Contents(mem: Memory): Chip
      reads handler, reader, writer, writer.wipReg
    {
      Chip(handler.Contents(), reader.Registers(), writer.Registers(), mem)
    }

    function Outputs(): Bus
      reads handler, reader, writer
    {
      match handler.mux
      case Nobody => Bus(0, false, false, 0)
      case Handler => handler.bus
      case CodeRd => Bus(reader.address, reader.read, false, 0)
      case CodeWr => Bus(writer.address, false, writer.write, writer.data)
    }

    lemma OutputsAgree(mem: Memory)
      ensures Outputs() == Contents(mem).Outputs()
    {
    }

    /** One rising clock edge of all three processes, which all read the values from before the edge. `on` says
        whether the encoder gives the bus to this entity; the multiplexer passes it on to one process. */
    method RisingEdge(c: Control, on: bool, data: Byte, b: BusCycle, ghost mem: Memory, ghost after: Memory)
      requires Contents(mem).Typed() && CodeFits(writer.Registers())
      requires on ==> data == Data(Contents(mem), b) && after == AfterCycle(mem, Outputs(), b.wait)
      modifies handler, reader, writer, writer.wipReg
      ensures Contents(after) == if on then Clock(old(Contents(mem)), c, b) else Aside(old(Contents(mem)), c, b, after)
    {
      var h, r, w := handler.Contents(), reader.Registers(), writer.Registers();
      var now := Latch(b.wait, data);
      var forHandler := if on && h.mux == Handler then now else b.handler;
      var forReader := if on && h.mux == CodeRd then now else b.reader;
      var forWriter := if on && h.mux == CodeWr then b.wait else b.writerWait;
      ghost var s := Contents(mem);
      Edges(c, h, r, w, forHandler, forReader, forWriter, mem, after);
      StepsTogether(s, c, on, data, b, after);
    }

    method Edges(c: Control, h: Registers, r: R.Reader, w: W.Writer, forHandler: Latch, forReader: Latch,
                 forWriter: bool, ghost mem: Memory, ghost after: Memory)
      requires Contents(mem) == Chip(h, r, w, mem) && Contents(mem).Typed() && CodeFits(w)
      modifies handler, reader, writer, writer.wipReg
      ensures Contents(after) == ThreeSteps(old(Contents(mem)), c, forHandler, forReader, forWriter, after)
    {
      handler.RisingEdge(c, r, w, forHandler.wait, forHandler.data);
      reader.RisingEdge(h.startReader, h.currCodeAddr, forReader.wait, forReader.data);
      writer.RisingEdge(h.WriterInputs(), forWriter);
    }
  }

  /** While a text is being encoded, the code fits whenever the writer takes one in. */
  lemma WorkingCodeFits(x: Task, m: Machine)
    requires FileInvariant(x, m)
    ensures CodeFits(m.text.w)
  {
    if m.e.state == TextWait && !m.e.startText {
      RunningCodeFits(x.j, m.text);
    }
  }

  lemma RunningCodeFits(j: Job, s: Chip)
    requires Invariant(j, s)
    ensures CodeFits(s.w)
  {
    if s.h.state == WriteCodeWait {
      assert Appending(j, s);
    } else if s.h.state == WaitPadding {
      assert Padding(j, s);
    }
  }

  /** The invariant of writing the file; nothing else is written, and at rest the file is complete. */
  ghost predicate Working(x: Task, before: Memory, m: Machine) {
    FileInvariant(x, m) && FileOnly(x, before, m.Mem()) && (m.e.state == Resting ==> FileDone(x, m.Mem()))
  }

  /** What one edge of the whole encoder keeps. */
  lemma EdgeKeeps(x: Task, m: Machine, reset: bool, start: bool, c: MachineCycle)
    requires TaskLoaded(x, m) || (FileInvariant(x, m) && !reset && !start)
    ensures TaskLoaded(x, m) && (reset || !start) ==>
              TaskLoaded(x, Tick(m, reset, start, c)) && Tick(m, reset, start, c).Mem() == m.Mem()
    ensures !reset && (if start then TaskLoaded(x, m) else FileInvariant(x, m)) ==>
              Working(x, m.Mem(), Tick(m, reset, start, c))
  {
    if TaskLoaded(x, m) && (reset || !start) {
      LoadedStays(x, m, reset, start, c);
    }
    if !reset && start {
      TaskStarts(x, m, c);
    } else if !reset && FileInvariant(x, m) {
      FileInvariantKept(x, m, c);
      OutsideKept(x, m, c, m.Mem());
    }
  }

  class EncoderEntity {
    const encoder: Encoder
    const tree: T.TreeHandler
    const text: TextEntity

    constructor (encoder: Encoder, tree: T.TreeHandler, text: TextEntity)
      ensures this.encoder == encoder && this.tree == tree && this.text == text
    {
      this.encoder, this.tree, this.text := encoder, tree, text;
    }

    ghost function Contents(mem: Memory): Machine
      reads encoder, tree, text.handler, text.reader, text.writer, text.writer.wipReg
    {
      Machine(encoder.Contents(), tree.Contents(), text.Contents(mem))
    }

    function Outputs(): Bus
      reads encoder, tree, text.handler, text.reader, text.writer
    {
      match encoder.master
      case NoMaster => Bus(0, false, false, 0)
      case Own => encoder.bus
      case Tree => tree.bus
      case Text => text.Outputs()
    }

    /** The processor has written the address registers. */
    method LoadAddresses(a: Addresses, ghost mem: Memory)
      modifies encoder
      ensures Contents(mem) == old(Contents(mem)).(e := old(encoder.Contents()).(addresses := a))
    {
      encoder.addresses := a;
    }

    /** One rising clock edge of the whole encoder, with a memory on the other side of the bus that answers with
        `data`. A loaded encoder stays loaded and leaves the memory alone until a start signal without a reset;
        from then on the invariant of writing the file holds at every edge. */
    method RisingEdge(reset: bool, start: bool, data: Byte, c: MachineCycle, ghost x: Task, ghost mem: Memory)
      requires TaskLoaded(x, Contents(mem)) || (FileInvariant(x, Contents(mem)) && !reset && !start)
      requires data == DataIn(mem, Outputs(), c.bus.wait, c.bus.junk)
      modifies encoder, tree, text.handler, text.reader, text.writer, text.writer.wipReg
      ensures Contents(AfterCycle(mem, old(Outputs()), c.bus.wait)) == Tick(old(Contents(mem)), reset, start, c)
      ensures old(TaskLoaded(x, Contents(mem))) && (reset || !start) ==>
                TaskLoaded(x, Contents(mem)) && AfterCycle(mem, old(Outputs()), c.bus.wait) == mem
      ensures !reset && (if start then old(TaskLoaded(x, Contents(mem))) else old(FileInvariant(x, Contents(mem)))) ==>
                Working(x, mem, Contents(AfterCycle(mem, old(Outputs()), c.bus.wait)))
    {
      ghost var m := Contents(mem);
      if !TaskLoaded(x, m) { WorkingCodeFits(x, m); }
      OutputsAgree(mem);
      Edge(reset, start, data, c, m);
      EdgeKeeps(x, m, reset, start, c);
    }

    method Edge(reset: bool, start: bool, data: Byte, c: MachineCycle, ghost m: Machine)
      requires m.Typed() && CodeFits(m.text.w) && Contents(m.Mem()) == m && Outputs() == m.Outputs()
      requires data == DataIn(m.Mem(), m.Outputs(), c.bus.wait, c.bus.junk)
      modifies encoder, tree, text.handler, text.reader, text.writer, text.writer.wipReg
      ensures Contents(AfterCycle(m.Mem(), m.Outputs(), c.bus.wait)) == Tick(m, reset, start, c)
    {
      var e, t := encoder.Contents(), tree.Contents();
      var reports := Reports(t.done, t.size, text.handler.done, text.writer.size);
      TextEdge(e, t.size, data, c, m);
      TreeEdge(e, data, c, m);
      encoder.RisingEdge(reset, start, reports, if e.master == Own then c.bus.wait else c.ownWait);
    }

    method TextEdge(e: EncoderRegisters, treeSize: Address, data: Byte, c: MachineCycle, ghost m: Machine)
      requires m.Typed() && CodeFits(m.text.w) && e == m.e && treeSize == m.t.size && text.Contents(m.Mem()) == m.text
      requires data == DataIn(m.Mem(), m.Outputs(), c.bus.wait, c.bus.junk)
      modifies text.handler, text.reader, text.writer, text.writer.wipReg
      ensures text.Contents(AfterCycle(m.Mem(), m.Outputs(), c.bus.wait)) == TextNext(m, c)
    {
      text.OutputsAgree(m.Mem());
      text.RisingEdge(e.TextInputs(treeSize), e.master == Text, data, c.bus,
                      m.Mem(), AfterCycle(m.Mem(), m.Outputs(), c.bus.wait));
    }

    method TreeEdge(e: EncoderRegisters, data: Byte, c: MachineCycle, ghost m: Machine)
      requires m.Typed() && e == m.e && tree.Contents() == m.t
      requires data == DataIn(m.Mem(), m.Outputs(), c.bus.wait, c.bus.junk)
      modifies tree
      ensures tree.Contents() == TreeNext(m, c)
    {
      var seen := if e.master == Tree then Latch(c.bus.wait, data) else c.tree;
      tree.RisingEdge(e.TreeInputs(), seen.wait, seen.data);
    }

    lemma OutputsAgree(mem: Memory)
      ensures Outputs() == Contents(mem).Outputs()
    {
    }
  }

  /** The whole encoder as it comes out of the reset. What the reset does not set may hold anything, except that
      three signals have to be low. */
  method PowerUp(e: EncoderRegisters, t: T.Registers, h: Registers, r: R.Reader, w: W.Writer, ghost mem: Memory)
    returns (entity: EncoderEntity)
    requires e.Typed() && t.Typed() && h.Typed() && r.Typed() && w.Typed()
    requires !e.writeText && !e.startText && !e.bus.write
    ensures fresh(entity) && fresh(entity.encoder) && fresh(entity.tree) && fresh(entity.text)
    ensures fresh(entity.text.handler) && fresh(entity.text.reader)
    ensures fresh(entity.text.writer) && fresh(entity.text.writer.wipReg)
    ensures AfterReset(entity.Contents(mem)) && MachineRests(entity.Contents(mem))
  {
    var encoder := new Encoder(e);
    var tree := new T.TreeHandler(t);
    var handler := new TextHandler(h);
    var reader := new R.CodeReader(r.addr, r.offset, r.codeAddr, r.length, r.bitRep);
    var writer := new W.CodeWriter(w.dstAddr, w.dstOffset, w.code, w.codeLen);
    var text := new TextEntity(handler, reader, writer);
    entity := new EncoderEntity(encoder, tree, text);
  }
}
