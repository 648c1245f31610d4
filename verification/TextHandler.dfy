/** The text handler: it reads the text letter by letter, has the code reader fetch the code and the
    code writer append it, pads, and records the length of the text. All three are clocked together and
    share one bus. */
module TextHandlers {
  import opened Alphabet
  import opened Trees
  import opened Bytes
  import opened FileFormat
  import opened Avalon
  import R = CodeReaders
  import W = CodeWriters

  datatype HandlerState =
    | Idle
    | SetRdAddr | ReadWait | CheckEnd
    | ReadCode | ReadCodeStart | ReadCodeWait
    | WriteCode | WriteCodeWait
    | AddPadding | WaitPadding
    | WrLen(n: nat)       // n = 1 .. 4
    | WrLenWait(n: nat)

  /** Whose outputs are on the bus. */
  datatype Mux = Nobody | Handler | CodeRd | CodeWr

  /** The addresses the encoder has loaded, and the one handed on to the code writer. */
  datatype Settings = Settings(codesBase: Address, textAddr: Address, dstAddr: Address, headerSize: Address,
                               writerDst: Address)

  datatype Registers = Registers(
    state: HandlerState, mux: Mux, letter: Byte,
    startReader: bool, setWriter: bool, startWriter: bool,
    cfg: Settings, textOffset: Address, currCodeAddr: Address,
    wrCode: Bits, wrLen: nat, bus: Bus, done: bool)
  {
    predicate Typed() {
      && |wrCode| == 64 && wrLen < 64
      && (state.WrLen? || state.WrLenWait? ==> 1 <= state.n <= 4)
    }

    function WriterInputs(): W.Inputs {
      W.Inputs(setWriter, startWriter, cfg.writerDst, wrCode, wrLen)
    }
  }

  /** The combinational table from a letter to its place; 0 for anything else. */
  function LetterIndex(letter: Byte): (i: nat)
    ensures i < LETTER_COUNT
  {
    if 0x41 <= letter <= 0x5a then letter - 0x41
    else if 0x61 <= letter <= 0x7a then letter - 0x61 + 26
    else if letter == 0x20 then 52
    else if letter == 0x2c then 53
    else if letter == 0x2e then 54
    else if letter == 0x0a then 55
    else 0
  }

  /** What the encoder puts on the control inputs. */
  datatype Control = Control(write: bool, start: bool, codesBase: Address, textAddr: Address, dstAddr: Address,
                             headerSize: Address)

  /** One rising clock edge of the handler's own process. */
  function Step(h: Registers, c: Control, r: R.Reader, w: W.Writer, wait: bool, data: Byte): (next: Registers)
    requires h.Typed() && r.Typed()
    ensures next.Typed()
  {
    if c.write then
      h.(cfg := Settings(c.codesBase, c.textAddr, c.dstAddr, c.headerSize, h.cfg.writerDst), textOffset := 0,
          currCodeAddr := 0)
    else match h.state
      case Idle =>
        if c.start then
          h.(state := SetRdAddr, mux := Handler, setWriter := true,
             cfg := h.cfg.(writerDst := Plus(Plus(h.cfg.dstAddr, 12), h.cfg.headerSize)))
        else h.(done := false, startReader := false, setWriter := false, startWriter := false)
      case SetRdAddr =>
        h.(bus := h.bus.(address := Plus(h.cfg.textAddr, h.textOffset), read := true), setWriter := false,
            state := ReadWait)
      case ReadWait =>
        if wait then h else h.(letter := data, bus := h.bus.(read := false), state := CheckEnd)
      case CheckEnd =>
        if h.letter == 0 then h.(state := AddPadding)
        else h.(textOffset := Plus(h.textOffset, 1), state := ReadCode, mux := CodeRd)
      case ReadCode =>
        h.(currCodeAddr := Plus(h.cfg.codesBase, LetterIndex(h.letter) * 4), state := ReadCodeStart)
      case ReadCodeStart =>
        h.(startReader := true, state := ReadCodeWait)
      case ReadCodeWait =>
        if r.done then
          h.(startReader := false, state := WriteCode, mux := CodeWr, wrCode := r.bitRep, wrLen := r.length)
        else h.(startReader := false)
      case WriteCode =>
        h.(startWriter := true, state := WriteCodeWait)
      case WriteCodeWait =>
        if w.done then h.(startWriter := false, state := SetRdAddr, mux := Handler)
        else h.(startWriter := false)
      case AddPadding =>
        h.(wrCode := Zeros(64), wrLen := 8, startWriter := true, mux := CodeWr, state := WaitPadding)
      case WaitPadding =>
        if w.done then h.(startWriter := false, state := WrLen(1), mux := Handler)
        else h.(startWriter := false)
      case WrLen(n) =>
        h.(bus := h.bus.(address := Plus(h.cfg.dstAddr, 7 + n), data := Word(h.textOffset)[n - 1], write := true),
            state := WrLenWait(n))
      case WrLenWait(n) =>
        if wait then h
        else if n == 4 then h.(bus := h.bus.(write := false), done := true, state := Idle)
        else h.(bus := h.bus.(write := false), state := WrLen(n + 1))
  }

  /** The handler's own process: the registers are updated in place at every rising edge. */
  class TextHandler {
    var state: HandlerState
    var mux: Mux
    var letter: Byte
    var startReader: bool
    var setWriter: bool
    var startWriter: bool
    var cfg: Settings
    var textOffset: Address
    var currCodeAddr: Address
    var wrCode: Bits
    var wrLen: nat
    var bus: Bus
    var done: bool

    function Contents(): Registers
      reads this
    {
      Registers(state, mux, letter, startReader, setWriter, startWriter, cfg, textOffset, currCodeAddr, wrCode, wrLen,
          bus, done)
    }

    /** Asynchronous reset; the registers that it does not set may hold anything. */
    constructor (any: Registers)
      requires any.Typed()
      ensures Contents() == any.(state := Idle, mux := Nobody, startReader := false, setWriter := false,
                                 startWriter := false, bus := Bus(0, false, false, 0), done := false)
    {
      state, mux, startReader, setWriter, startWriter, done := Idle, Nobody, false, false, false, false;
      bus := Bus(0, false, false, 0);
      letter, cfg, textOffset, currCodeAddr := any.letter, any.cfg, any.textOffset, any.currCodeAddr;
      wrCode, wrLen := any.wrCode, any.wrLen;
    }

    method RisingEdge(c: Control, r: R.Reader, w: W.Writer, wait: bool, data: Byte)
      requires Contents().Typed() && r.Typed()
      modifies this
      ensures Contents() == Step(old(Contents()), c, r, w, wait, data)
    {
      if c.write {
        cfg := Settings(c.codesBase, c.textAddr, c.dstAddr, c.headerSize, cfg.writerDst);
        textOffset := 0;
        currCodeAddr := 0;
        return;
      }
      if state.Idle? || state.SetRdAddr? || state.ReadWait? || state.CheckEnd? {
        LetterEdge(c, r, w, wait, data);
      } else if state.ReadCode? || state.ReadCodeStart? || state.ReadCodeWait? {
        FetchEdge(c, r, w, wait, data);
      } else if state.WrLen? || state.WrLenWait? {
        LengthEdge(c, r, w, wait, data);
      } else {
        AppendEdge(c, r, w, wait, data);
      }
    }

    /** The states in which a letter is read. */
    method LetterEdge(c: Control, ghost r: R.Reader, ghost w: W.Writer, wait: bool, data: Byte)
      requires Contents().Typed() && r.Typed() && !c.write
      requires state.Idle? || state.SetRdAddr? || state.ReadWait? || state.CheckEnd?
      modifies this
      ensures Contents() == Step(old(Contents()), c, r, w, wait, data)
    {
      match state
      case Idle =>
        if c.start {
          state := SetRdAddr;
          mux := Handler;
          cfg := cfg.(writerDst := Plus(Plus(cfg.dstAddr, 12), cfg.headerSize));
          setWriter := true;
        } else {
          done := false;
          startReader := false;
          setWriter := false;
          startWriter := false;
        }
      case SetRdAddr =>
        bus := bus.(address := Plus(cfg.textAddr, textOffset), read := true);
        setWriter := false;
        state := ReadWait;
      case ReadWait =>
        if !wait {
          letter := data;
          bus := bus.(read := false);
          state := CheckEnd;
        }
      case CheckEnd =>
        if letter == 0 {
          state := AddPadding;
        } else {
          textOffset := Plus(textOffset, 1);
          state := ReadCode;
          mux := CodeRd;
        }
    }

    /** The states in which the reader fetches the code. */
    method FetchEdge(ghost c: Control, r: R.Reader, ghost w: W.Writer, ghost wait: bool, ghost data: Byte)
      requires Contents().Typed() && r.Typed() && !c.write
      requires state.ReadCode? || state.ReadCodeStart? || state.ReadCodeWait?
      modifies this
      ensures Contents() == Step(old(Contents()), c, r, w, wait, data)
    {
      match state
      case ReadCode =>
        currCodeAddr := Plus(cfg.codesBase, LetterIndex(letter) * 4);
        state := ReadCodeStart;
      case ReadCodeStart =>
        startReader := true;
        state := ReadCodeWait;
      case ReadCodeWait =>
        if r.done {
          state := WriteCode;
          mux := CodeWr;
          wrCode := r.bitRep;
          wrLen := r.length;
        }
        startReader := false;
    }

    /** The states in which the writer appends the code or the padding. */
    method AppendEdge(ghost c: Control, ghost r: R.Reader, w: W.Writer, ghost wait: bool, ghost data: Byte)
      requires Contents().Typed() && r.Typed() && !c.write
      requires state.WriteCode? || state.WriteCodeWait? || state.AddPadding? || state.WaitPadding?
      modifies this
      ensures Contents() == Step(old(Contents()), c, r, w, wait, data)
    {
      match state
      case WriteCode =>
        startWriter := true;
        state := WriteCodeWait;
      case WriteCodeWait =>
        startWriter := false;
        if w.done {
          state := SetRdAddr;
          mux := Handler;
        }
      case AddPadding =>
        wrCode := Zeros(64);
        wrLen := 8;
        startWriter := true;
        mux := CodeWr;
        state := WaitPadding;
      case WaitPadding =>
        startWriter := false;
        if w.done {
          state := WrLen(1);
          mux := Handler;
        }
    }

    /** The states in which the length of the text is stored. */
    method LengthEdge(ghost c: Control, ghost r: R.Reader, ghost w: W.Writer, wait: bool, ghost data: Byte)
      requires Contents().Typed() && r.Typed() && !c.write
      requires state.WrLen? || state.WrLenWait?
      modifies this
      ensures Contents() == Step(old(Contents()), c, r, w, wait, data)
    {
      match state
      case WrLen(n) =>
        bus := bus.(address := Plus(cfg.dstAddr, 7 + n), data := Word(textOffset)[n - 1], write := true);
        state := WrLenWait(n);
      case WrLenWait(n) =>
        if !wait {
          bus := bus.(write := false);
          if n == 4 {
            done := true;
            state := Idle;
          } else {
            state := WrLen(n + 1);
          }
        }
    }
  }

  /** The three processes and the memory. */
  datatype Chip = Chip(h: Registers, r: R.Reader, w: W.Writer, mem: Memory)
  {
    predicate Typed() {
      h.Typed() && r.Typed() && w.Typed()
    }

    function Outputs(): Bus {
      match h.mux
      case Nobody => Bus(0, false, false, 0)
      case Handler => h.bus
      case CodeRd => r.Outputs()
      case CodeWr => w.Outputs()
    }
  }

  /** The wait request and the data that a process saw last when it was on the bus. */
  datatype Latch = Latch(wait: bool, data: Byte)

  /** What the slave does in one cycle, and what each process sees if it is not on the bus in that cycle, which
      may be anything. The writer never looks at the data. */
  datatype BusCycle = BusCycle(wait: bool, junk: Byte, handler: Latch, reader: Latch, writerWait: bool)

  /** The read data of this cycle. */
  function Data(s: Chip, b: BusCycle): Byte {
    DataIn(s.mem, s.Outputs(), b.wait, b.junk)
  }

  function HandlerNext(s: Chip, c: Control, b: BusCycle): (next: Registers)
    requires s.Typed()
    ensures next.Typed()
  {
    if s.h.mux == Handler then Step(s.h, c, s.r, s.w, b.wait, Data(s, b))
    else Step(s.h, c, s.r, s.w, b.handler.wait, b.handler.data)
  }

  function ReaderNext(s: Chip, b: BusCycle): (next: R.Reader)
    requires s.Typed()
    ensures next.Typed()
  {
    if s.h.mux == CodeRd then R.Step(s.r, s.h.startReader, s.h.currCodeAddr, b.wait, Data(s, b))
    else R.Step(s.r, s.h.startReader, s.h.currCodeAddr, b.reader.wait, b.reader.data)
  }

  function WriterNext(s: Chip, b: BusCycle): (next: W.Writer)
    requires s.Typed()
    ensures next.Typed()
  {
    W.Step(s.w, s.h.WriterInputs(), if s.h.mux == CodeWr then b.wait else b.writerWait)
  }

  /** One rising clock edge of everything. */
  function Clock(s: Chip, c: Control, b: BusCycle): (next: Chip)
    requires s.Typed()
    ensures next.Typed()
  {
    Chip(HandlerNext(s, c, b), ReaderNext(s, b), WriterNext(s, b), AfterCycle(s.mem, s.Outputs(), b.wait))
  }
}
