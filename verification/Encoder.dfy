/** The encoder: it lets the tree handler and the text handler write their parts of the file one after the
    other, and then stores the total length. */
module Encoders {
  import opened FileFormat
  import opened Avalon
  import opened TextHandlers
  import T = TreeHandlers
  import R = CodeReaders
  import W = CodeWriters

  datatype EncoderState =
    | Resting
    | TreeWrInput | TreeStart | TreeWait
    | TextWrInput | TextStart | TextWait
    | WrTotal(n: nat)       // n = 1 .. 4
    | WrTotalWait(n: nat)

  /** Whose outputs are on the bus of the encoder. */
  datatype Master = NoMaster | Own | Tree | Text

  /** The addresses that the processor has written. */
  datatype Addresses = Addresses(codes: Address, tree: Address, text: Address, dst: Address)

  datatype EncoderRegisters = EncoderRegisters(
    state: EncoderState, master: Master, addresses: Addresses,
    writeTree: bool, startTree: bool, writeText: bool, startText: bool,
    total: Address, bus: Bus, done: bool)
  {
    predicate Typed() {
      state.WrTotal? || state.WrTotalWait? ==> 1 <= state.n <= 4
    }

    function TreeInputs(): T.Inputs {
      T.Inputs(writeTree, startTree, addresses.tree, addresses.dst)
    }

    function TextInputs(treeSize: Address): Control {
      Control(writeText, startText, addresses.codes, addresses.text, addresses.dst, treeSize)
    }
  }

  /** What the handlers report. */
  datatype Reports = Reports(treeDone: bool, treeSize: Address, textDone: bool, textSize: Address)

  /** One rising clock edge of the encoder's own process. */
  function EncoderStep(e: EncoderRegisters, reset: bool, start: bool, r: Reports, wait: bool): (next: EncoderRegisters)
    requires e.Typed()
    ensures next.Typed()
  {
    if reset then e.(state := Resting)
    else match e.state
      case Resting =>
        e.(state := if start then TreeWrInput else Resting, done := false)
      case TreeWrInput =>
        e.(writeTree := true, state := TreeStart)
      case TreeStart =>
        e.(master := Tree, writeTree := false, startTree := true, state := TreeWait)
      case TreeWait =>
        if r.treeDone then e.(startTree := false, state := TextWrInput, master := Text)
        else e.(startTree := false)
      case TextWrInput =>
        e.(writeText := true, state := TextStart)
      case TextStart =>
        e.(writeText := false, startText := true, state := TextWait)
      case TextWait =>
        if r.textDone then
          e.(startText := false, master := Own, state := WrTotal(1), total := Plus(Plus(12, r.treeSize), r.textSize))
        else e.(startText := false)
      case WrTotal(n) =>
        e.(bus := Bus(Plus(e.addresses.dst, n - 1), e.bus.read, true, Word(e.total)[n - 1]), state := WrTotalWait(n))
      case WrTotalWait(n) =>
        if wait then e
        else if n == 4 then e.(bus := e.bus.(write := false), state := Resting, done := true, master := NoMaster)
        else e.(bus := e.bus.(write := false), state := WrTotal(n + 1))
  }

  /** The process itself: the registers are updated in place at every rising edge. */
  class Encoder {
    var state: EncoderState
    var master: Master
    var addresses: Addresses
    var writeTree: bool
    var startTree: bool
    var writeText: bool
    var startText: bool
    var total: Address
    var bus: Bus
    var done: bool

    function Contents(): EncoderRegisters
      reads this
    {
      EncoderRegisters(state, master, addresses, writeTree, startTree, writeText, startText, total, bus, done)
    }

    /** Asynchronous reset; the registers that it does not set may hold anything. */
    constructor (any: EncoderRegisters)
      ensures Contents() == any.(state := Resting, master := NoMaster, writeTree := false, startTree := false,
          done := false)
    {
      state, master, writeTree, startTree, done := Resting, NoMaster, false, false, false;
      addresses, writeText, startText, total, bus := any.addresses, any.writeText, any.startText, any.total, any.bus;
    }

    method RisingEdge(reset: bool, start: bool, r: Reports, wait: bool)
      requires Contents().Typed()
      modifies this
      ensures Contents() == EncoderStep(old(Contents()), reset, start, r, wait)
    {
      if reset {
        state := Resting;
      } else if state.WrTotal? || state.WrTotalWait? {
        TotalEdge(reset, start, r, wait);
      } else {
        HandlerEdge(reset, start, r, wait);
      }
    }

    /** The states in which the handlers work. */
    method HandlerEdge(ghost reset: bool, start: bool, r: Reports, ghost wait: bool)
      requires Contents().Typed() && !reset && !state.WrTotal? && !state.WrTotalWait?
      modifies this
      ensures Contents() == EncoderStep(old(Contents()), reset, start, r, wait)
    {
      match state
      case Resting =>
        if start {
          state := TreeWrInput;
        }
        done := false;
      case TreeWrInput =>
        writeTree := true;
        state := TreeStart;
      case TreeStart =>
        master := Tree;
        writeTree := false;
        startTree := true;
        state := TreeWait;
      case TreeWait =>
        startTree := false;
        if r.treeDone {
          state := TextWrInput;
          master := Text;
        }
      case TextWrInput =>
        writeText := true;
        state := TextStart;
      case TextStart =>
        writeText := false;
        startText := true;
        state := TextWait;
      case TextWait =>
        startText := false;
        if r.textDone {
          master := Own;
          state := WrTotal(1);
          total := Plus(Plus(12, r.treeSize), r.textSize);
        }
    }

    /** The states in which the encoder itself writes. */
    method TotalEdge(ghost reset: bool, ghost start: bool, ghost r: Reports, wait: bool)
      requires Contents().Typed() && !reset && (state.WrTotal? || state.WrTotalWait?)
      modifies this
      ensures Contents() == EncoderStep(old(Contents()), reset, start, r, wait)
    {
      match state
      case WrTotal(n) =>
        bus := Bus(Plus(addresses.dst, n - 1), bus.read, true, Word(total)[n - 1]);
        state := WrTotalWait(n);
      case WrTotalWait(n) =>
        if !wait {
          bus := bus.(write := false);
          if n == 4 {
            state := Resting;
            done := true;
            master := NoMaster;
          } else {
            state := WrTotal(n + 1);
          }
        }
    }
  }

  /** The encoder with both handlers, and the memory on the other side of the bus. */
  datatype Machine = Machine(e: EncoderRegisters, t: T.Registers, text: Chip)
  {
    predicate Typed() {
      e.Typed() && t.Typed() && text.Typed()
    }

    function Outputs(): Bus {
      match e.master
      case NoMaster => Bus(0, false, false, 0)
      case Own => e.bus
      case Tree => t.bus
      case Text => text.Outputs()
    }

    function Mem(): Memory {
      text.mem
    }

    function Heard(): Reports {
      Reports(t.done, t.size, text.h.done, text.w.size)
    }
  }

  /** What the slave does in one cycle, and what the parts see that are not on the bus. */
  datatype MachineCycle = MachineCycle(bus: BusCycle, tree: Latch, ownWait: bool)

  function TreeNext(m: Machine, c: MachineCycle): (next: T.Registers)
    requires m.Typed()
    ensures next.Typed()
  {
    if m.e.master == Tree then
      T.Step(m.t, m.e.TreeInputs(), c.bus.wait, DataIn(m.Mem(), m.t.bus, c.bus.wait, c.bus.junk))
    else T.Step(m.t, m.e.TreeInputs(), c.tree.wait, c.tree.data)
  }

  /** The text handler with its parts while another master has the bus. */
  function Aside(s: Chip, c: Control, b: BusCycle, mem: Memory): (next: Chip)
    requires s.Typed()
    ensures next.Typed()
  {
    Chip(Step(s.h, c, s.r, s.w, b.handler.wait, b.handler.data),
      R.Step(s.r, s.h.startReader, s.h.currCodeAddr, b.reader.wait, b.reader.data),
      W.Step(s.w, s.h.WriterInputs(), b.writerWait), mem)
  }

  function TextNext(m: Machine, c: MachineCycle): (next: Chip)
    requires m.Typed()
    ensures next.Typed() && next.mem == AfterCycle(m.Mem(), m.Outputs(), c.bus.wait)
  {
    if m.e.master == Text then Clock(m.text, m.e.TextInputs(m.t.size), c.bus)
    else Aside(m.text, m.e.TextInputs(m.t.size), c.bus, AfterCycle(m.Mem(), m.Outputs(), c.bus.wait))
  }

  function OwnNext(m: Machine, reset: bool, start: bool, c: MachineCycle): (next: EncoderRegisters)
    requires m.Typed()
    ensures next.Typed()
  {
    EncoderStep(m.e, reset, start, m.Heard(), if m.e.master == Own then c.bus.wait else c.ownWait)
  }

  /** One rising clock edge of everything. */
  function Tick(m: Machine, reset: bool, start: bool, c: MachineCycle): (next: Machine)
    requires m.Typed()
    ensures next.Typed() && next.Mem() == AfterCycle(m.Mem(), m.Outputs(), c.bus.wait)
  {
    Machine(OwnNext(m, reset, start, c), TreeNext(m, c), TextNext(m, c))
  }
}
