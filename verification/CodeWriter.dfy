/** The clocked process of the code writer. */
module CodeWriters {
  import opened Trees
  import opened Bytes
  import opened Avalon

  datatype WriterState = Idle | AddCode | WriteCode | WriteCodeExtra | WriteCodeWait | Done

  /** The registers. Bit 63 of `wipReg` and `code` is element 0, so the `63 - wipIdx` bits at the top are
      the first elements. */
  datatype Writer = Writer(
    state: WriterState, code: Bits, codeLen: nat, wipReg: Bits, wipIdx: int,
    dstAddr: Address, dstOffset: Address, done: bool, size: Address,
    address: Address, write: bool, data: Byte)
  {
    predicate Typed() {
      |code| == 64 && |wipReg| == 64 && codeLen < 64
    }

    function Outputs(): Bus {
      Bus(address, false, write, data)
    }

    /** The bits waiting at the top of the register. */
    function Pending(): Bits
      requires Typed() && -1 <= wipIdx <= 63
    {
      wipReg[..63 - wipIdx]
    }
  }

  /** The inputs of one cycle. */
  datatype Inputs = Inputs(writeIn: bool, start: bool, dst: Address, code: Bits, codeLen: nat)
  {
    predicate Typed() {
      |code| == 64 && codeLen < 64
    }
  }

  /** The register with `len` bits of the code put in from position `idx` downwards. */
  function Inserted(reg: Bits, idx: int, code: Bits, len: nat): (r: Bits)
    requires |reg| == |code| == 64 && len < 64
    ensures |r| == 64
  {
    seq(64, k requires 0 <= k < 64 => if 0 <= k - (63 - idx) < len then code[k - (63 - idx)] else reg[k])
  }

  /** Shift left by eight; the low eight bits stay. */
  function Shifted(reg: Bits): (r: Bits)
    requires |reg| == 64
    ensures |r| == 64
  {
    reg[8..] + reg[56..]
  }

  /** One rising clock edge. */
  function Step(w: Writer, i: Inputs, wait: bool): (next: Writer)
    requires w.Typed() && i.Typed()
    ensures next.Typed()
  {
    match w.state
    case Idle =>
      if i.writeIn then w.(dstAddr := i.dst, dstOffset := 0, wipReg := Zeros(64), wipIdx := 63)
      else if i.start then w.(code := i.code, codeLen := i.codeLen, state := AddCode)
      else w.(done := false, address := 0, write := false, data := 0)
    case AddCode =>
      w.(wipReg := Inserted(w.wipReg, w.wipIdx, w.code, w.codeLen), wipIdx := w.wipIdx - w.codeLen, state := WriteCode)
    case WriteCode =>
      if w.wipIdx < 56 then
        w.(address := Plus(w.dstAddr, w.dstOffset), data := ByteOf(w.wipReg[..8]), write := true,
            state := WriteCodeExtra)
      else w.(state := Done)
    case WriteCodeExtra => w.(state := WriteCodeWait)
    case WriteCodeWait =>
      if wait then w
      else w.(write := false, dstOffset := Plus(w.dstOffset, 1), wipReg := Shifted(w.wipReg), wipIdx := w.wipIdx + 8,
          state := WriteCode)
    case Done => w.(size := w.dstOffset, done := true, state := Idle)
  }

  /** The process itself. The register is an array of single bits; every assignment of a loop reads
      the values from before the clock edge. */
  class CodeWriter {
    var state: WriterState
    var code: Bits
    var codeLen: nat
    const wipReg: array<bool>
    var wipIdx: int
    var dstAddr: Address
    var dstOffset: Address
    var done: bool
    var size: Address
    var address: Address
    var write: bool
    var data: Byte

    function Registers(): Writer
      reads this, wipReg
    {
      Writer(state, code, codeLen, wipReg[..], wipIdx, dstAddr, dstOffset, done, size, address, write, data)
    }

    /** Asynchronous reset; the registers that it does not set may hold anything. */
    constructor (anyAddress: Address, anyOffset: Address, anyCode: Bits, anyLen: nat)
      requires |anyCode| == 64 && anyLen < 64
      ensures fresh(wipReg) && Registers().Typed()
      ensures state == Idle && !done && !write && wipIdx == 63 && wipReg[..] == Zeros(64)
      ensures size == 0 && address == 0 && data == 0
    {
      state, done, wipIdx, size, address, write, data := Idle, false, 63, 0, 0, false, 0;
      dstAddr, dstOffset, code, codeLen := anyAddress, anyOffset, anyCode, anyLen;
      wipReg := new bool[64](_ => false);
    }

    /** If bits are being written before the edge, they are being written after it, or have been written. */
    method RisingEdge(i: Inputs, wait: bool)
      requires Registers().Typed() && i.Typed()
      requires state == AddCode ==> codeLen - 1 <= wipIdx <= 63
      modifies this, wipReg
      ensures Registers() == Step(old(Registers()), i, wait)
      ensures old(state) != Idle ==>
                forall mem: Memory, dst, bits :: old(Writing(Registers(), mem, dst, bits)) ==>
                  Writing(Registers(), AfterCycle(mem, old(Registers()).Outputs(), wait), dst, bits)
    {
      ghost var before := Registers();
      Edge(i, wait);
      if before.state != Idle {
        forall mem: Memory, dst, bits | Writing(before, mem, dst, bits)
          ensures Writing(Registers(), AfterCycle(mem, before.Outputs(), wait), dst, bits)
        {
          WritingStep(before, mem, dst, bits, i, wait);
        }
      }
    }

    method Edge(i: Inputs, wait: bool)
      requires Registers().Typed() && i.Typed()
      requires state == AddCode ==> codeLen - 1 <= wipIdx <= 63
      modifies this, wipReg
      ensures Registers() == Step(old(Registers()), i, wait)
    {
      match state
      case Idle =>
        if i.writeIn {
          dstAddr := i.dst;
          dstOffset := 0;
          ClearRegister();
          wipIdx := 63;
        } else if i.start {
          code := i.code;
          codeLen := i.codeLen;
          state := AddCode;
        } else {
          done := false;
          address := 0;
          write := false;
          data := 0;
        }
      case AddCode =>
        InsertCode();
        wipIdx := wipIdx - codeLen;
        state := WriteCode;
      case WriteCode =>
        if wipIdx < 56 {
          address := Plus(dstAddr, dstOffset);
          data := ByteOf(wipReg[..8]);
          assert wipReg[..][..8] == wipReg[..8];
          write := true;
          state := WriteCodeExtra;
        } else {
          state := Done;
        }
      case WriteCodeExtra =>
        state := WriteCodeWait;
      case WriteCodeWait =>
        if !wait {
          write := false;
          dstOffset := Plus(dstOffset, 1);
          ShiftRegister();
          wipIdx := wipIdx + 8;
          state := WriteCode;
        }
      case Done =>
        size := dstOffset;
        done := true;
        state := Idle;
    }

    method ClearRegister()
      requires wipReg.Length == 64
      modifies wipReg
      ensures wipReg[..] == Zeros(64)
    {
      for k := 0 to 64
        invariant forall j :: 0 <= j < k ==> !wipReg[j]
      {
        wipReg[k] := false;
      }
    }

    /** `WIP_Reg(WIP_Idx - i) <= Code(63 - i)` for every `i` below the code length. */
    method InsertCode()
      requires wipReg.Length == 64 && |code| == 64 && codeLen < 64
      requires codeLen - 1 <= wipIdx <= 63
      modifies wipReg
      ensures wipReg[..] == Inserted(old(wipReg[..]), wipIdx, code, codeLen)
    {
      for i := 0 to 64
        invariant forall k :: 0 <= k < 64 ==>
                    wipReg[k] == if 0 <= k - (63 - wipIdx) < codeLen && k - (63 - wipIdx) < i
                                 then code[k - (63 - wipIdx)] else old(wipReg[k])
      {
        if i < codeLen {
          wipReg[63 - wipIdx + i] := code[i];
        }
      }
    }

    /** `WIP_Reg(i) <= WIP_Reg(i - 8)` from the top down to bit 8. */
    method ShiftRegister()
      requires wipReg.Length == 64
      modifies wipReg
      ensures wipReg[..] == Shifted(old(wipReg[..]))
    {
      for k := 0 to 56
        invariant forall j :: 0 <= j < k ==> wipReg[j] == old(wipReg[j + 8])
        invariant forall j :: k <= j < 64 ==> wipReg[j] == old(wipReg[j])
      {
        wipReg[k] := wipReg[k + 8];
      }
      assert forall j :: 56 <= j < 64 ==> Shifted(old(wipReg[..]))[j] == old(wipReg[j]);
    }
  }

  /** The bytes of `bits` that have been stored are those up to `dstOffset`, and the register holds the
      bits that follow. `bits` is everything handed over since the destination was set, including the code
      that is being added. */
  ghost predicate Writing(w: Writer, mem: Memory, dst: Address, bits: Bits) {
    && w.Typed() && -1 <= w.wipIdx <= 63
    && w.dstAddr == dst && dst + |bits| / 8 < SPACE
    && 8 * w.dstOffset <= |bits| && w.dstOffset <= |FullBytes(bits)|
    && mem[dst..dst + w.dstOffset] == FullBytes(bits)[..w.dstOffset]
    && var waiting := bits[8 * w.dstOffset..];
       match w.state
       case AddCode =>
         && !w.write && |w.Pending()| < 8 && |w.Pending()| + w.codeLen <= 64
         && w.Pending() + w.code[..w.codeLen] == waiting
       case WriteCode =>
         !w.write && w.Pending() == waiting
       case WriteCodeExtra =>
         && w.write && w.Pending() == waiting && |waiting| >= 8
         && w.address == dst + w.dstOffset && w.data == ByteOf(waiting[..8])
       case WriteCodeWait =>
         && w.write && w.Pending() == waiting && |waiting| >= 8
         && w.address == dst + w.dstOffset && w.data == ByteOf(waiting[..8])
       case _ =>
         !w.write && w.Pending() == waiting && |waiting| < 8
  }

  lemma StoredPrefix(a: Bits, b: Bits, m: nat)
    requires m <= |FullBytes(a)|
    ensures m <= |FullBytes(a + b)| && FullBytes(a + b)[..m] == FullBytes(a)[..m]
  {
    StreamAppend(a, b);
  }

  /** Accepting a code. */
  lemma WritingAccepts(w: Writer, mem: Memory, dst: Address, bits: Bits, i: Inputs, wait: bool)
    requires Writing(w, mem, dst, bits) && w.state == Idle
    requires i.Typed() && i.start && !i.writeIn && i.codeLen <= 57
    requires dst + |bits + i.code[..i.codeLen]| / 8 < SPACE
    ensures Writing(Step(w, i, wait), AfterCycle(mem, w.Outputs(), wait), dst, bits + i.code[..i.codeLen])
  {
    var all := bits + i.code[..i.codeLen];
    StoredPrefix(bits, i.code[..i.codeLen], w.dstOffset);
    assert all[8 * w.dstOffset..] == bits[8 * w.dstOffset..] + i.code[..i.codeLen];
  }

  lemma NextByte(bits: Bits, m: nat)
    requires 8 * m + 8 <= |bits|
    ensures m < |FullBytes(bits)| && ByteOf(bits[8 * m..][..8]) == FullBytes(bits)[m]
  {
    FullByteAt(bits, m);
    assert bits[8 * m..][..8] == bits[8 * m..8 * m + 8];
  }

  lemma InsertedPending(w: Writer)
    requires w.Typed() && 0 <= 63 - w.wipIdx && 63 - w.wipIdx + w.codeLen <= 64
    ensures Inserted(w.wipReg, w.wipIdx, w.code, w.codeLen)[..63 - w.wipIdx + w.codeLen]
         == w.wipReg[..63 - w.wipIdx] + w.code[..w.codeLen]
  {
  }

  /** One clock edge while a code is being written, for any inputs and any behaviour of the slave. */
  lemma WritingStep(w: Writer, mem: Memory, dst: Address, bits: Bits, i: Inputs, wait: bool)
    requires Writing(w, mem, dst, bits) && w.state != Idle && i.Typed()
    ensures Writing(Step(w, i, wait), AfterCycle(mem, w.Outputs(), wait), dst, bits)
  {
    RestLength(bits);
    var m := w.dstOffset;
    match w.state
    case AddCode =>
      InsertedPending(w);
    case WriteCode =>
      if w.wipIdx < 56 {
        WriteStarts(w, mem, dst, bits, i, wait);
      }
    case WriteCodeExtra =>
      NextByte(bits, m);
    case WriteCodeWait =>
      WriteEnds(w, mem, dst, bits, i, wait);
    case Done =>
  }

  lemma WriteStarts(w: Writer, mem: Memory, dst: Address, bits: Bits, i: Inputs, wait: bool)
    requires Writing(w, mem, dst, bits) && w.state == WriteCode && w.wipIdx < 56 && i.Typed()
    ensures Writing(Step(w, i, wait), AfterCycle(mem, w.Outputs(), wait), dst, bits)
  {
    var m := w.dstOffset;
    NextByte(bits, m);
    RestLength(bits);
    assert w.Pending()[..8] == w.wipReg[..8];
  }

  lemma StoredOneMore(mem: Memory, after: Memory, dst: Address, bits: Bits, m: nat)
    requires 8 * m + 8 <= |bits| && dst + m < SPACE && m < |FullBytes(bits)|
    requires mem[dst..dst + m] == FullBytes(bits)[..m]
    requires after == mem[dst + m := FullBytes(bits)[m]]
    ensures after[dst..dst + m + 1] == FullBytes(bits)[..m + 1]
  {
    assert after[dst..dst + m + 1] == mem[dst..dst + m] + [FullBytes(bits)[m]];
  }

  lemma ShiftedPending(reg: Bits, p: nat)
    requires |reg| == 64 && 8 <= p <= 64
    ensures Shifted(reg)[..p - 8] == reg[..p][8..]
  {
  }

  lemma DropEight(bits: Bits, m: nat)
    requires 8 * m + 8 <= |bits|
    ensures bits[8 * m..][8..] == bits[8 * (m + 1)..]
  {
  }

  lemma WriteEnds(w: Writer, mem: Memory, dst: Address, bits: Bits, i: Inputs, wait: bool)
    requires Writing(w, mem, dst, bits) && w.state == WriteCodeWait && i.Typed()
    ensures Writing(Step(w, i, wait), AfterCycle(mem, w.Outputs(), wait), dst, bits)
  {
    if !wait {
      var m: nat := w.dstOffset;
      NextByte(bits, m);
      StoredOneMore(mem, AfterCycle(mem, w.Outputs(), wait), dst, bits, m);
      ShiftedPending(w.wipReg, 63 - w.wipIdx);
      DropEight(bits, m);
      assert Step(w, i, wait)
          == w.(write := false, dstOffset := m + 1, wipReg := Shifted(w.wipReg), wipIdx := w.wipIdx + 8,
              state := WriteCode);
    }
  }

  /** Idle cycles change nothing that matters. */
  lemma WritingIdles(w: Writer, mem: Memory, dst: Address, bits: Bits, i: Inputs, wait: bool)
    requires Writing(w, mem, dst, bits) && w.state == Idle && i.Typed() && !i.start && !i.writeIn
    ensures Writing(Step(w, i, wait), AfterCycle(mem, w.Outputs(), wait), dst, bits)
  {
  }

  /** Setting the destination starts an empty payload. */
  lemma WritingBegins(w: Writer, mem: Memory, i: Inputs, wait: bool)
    requires w.Typed() && w.state == Idle && !w.write && i.Typed() && i.writeIn
    ensures Writing(Step(w, i, wait), AfterCycle(mem, w.Outputs(), wait), i.dst, [])
  {
  }

  /** An idle writer has done exactly what the packing loop of the software has done: all complete bytes are
      in memory, `dstOffset` counts them, between 0 and 7 bits are left, at the top of the register. */
  lemma IdleIsPacked(w: Writer, mem: Memory, dst: Address, bits: Bits)
    requires Writing(w, mem, dst, bits) && w.state == Idle
    ensures 56 <= w.wipIdx <= 63
    ensures w.dstOffset == |FullBytes(bits)| && mem[dst..dst + w.dstOffset] == FullBytes(bits)
    ensures w.wipReg[..63 - w.wipIdx] == Rest(bits)
  {
    RestLength(bits);
    assert w.dstOffset == |bits| / 8;
    assert FullBytes(bits)[..w.dstOffset] == FullBytes(bits);
  }

  /** The number of responses of the slave, or of cycles, that writing still takes at most. */
  function CyclesLeft(w: Writer): int {
    match w.state
    case Idle => 0
    case AddCode => 4 * (9 - (w.wipIdx - w.codeLen + 1) / 8) + 4
    case WriteCode => 4 * (9 - (w.wipIdx + 1) / 8) + 3
    case WriteCodeExtra => 4 * (9 - (w.wipIdx + 1) / 8) + 2
    case WriteCodeWait => 4 * (9 - (w.wipIdx + 1) / 8) + 1
    case Done => 1
  }

  lemma WritingProgress(w: Writer, i: Inputs, wait: bool)
    requires w.Typed() && i.Typed() && -1 <= w.wipIdx <= 63 && w.state != Idle
    requires w.state == AddCode ==> w.codeLen - 1 <= w.wipIdx
    requires w.state == WriteCodeExtra || w.state == WriteCodeWait ==> w.wipIdx < 56
    ensures 0 <= CyclesLeft(Step(w, i, wait)) <= CyclesLeft(w) - if wait && w.state == WriteCodeWait then 0 else 1
  {
  }

  // Runs with inputs of any kind.

  /** The writer with its memory, and what it was asked to write since the destination was last set. */
  datatype System = System(w: Writer, mem: Memory, dst: Address, bits: Bits)

  /** Everything the environment does in one cycle. */
  datatype Event = Event(inputs: Inputs, wait: bool)

  predicate Typed(events: seq<Event>) {
    forall k :: 0 <= k < |events| ==> events[k].inputs.Typed()
  }

  function SystemStep(s: System, e: Event): System
    requires s.w.Typed() && e.inputs.Typed()
  {
    var i := e.inputs;
    System(Step(s.w, i, e.wait), AfterCycle(s.mem, s.w.Outputs(), e.wait),
      if s.w.state == Idle && i.writeIn then i.dst else s.dst,
      if s.w.state != Idle then s.bits
      else if i.writeIn then []
      else if i.start then s.bits + i.code[..i.codeLen]
      else s.bits)
  }

  function SystemRun(s: System, events: seq<Event>): (r: System)
    requires s.w.Typed() && Typed(events)
    ensures r.w.Typed()
    decreases |events|
  {
    if events == [] then s
    else SystemRun(SystemStep(s, events[0]), events[1..])
  }

  /** What the environment has to respect: codes of at most 57 bits, and room for the payload. */
  ghost predicate Respects(s: System, events: seq<Event>)
    requires s.w.Typed() && Typed(events)
    decreases |events|
  {
    events == [] ||
    (var e := events[0];
     var next := SystemStep(s, e);
     && (s.w.state == Idle && e.inputs.start && !e.inputs.writeIn ==>
           e.inputs.codeLen <= 57 && next.dst + |next.bits| / 8 < SPACE)
     && Respects(next, events[1..]))
  }

  /** An idle writer is where the packing loop of the software is: same bytes stored, same bits left. */
  ghost predicate AgreesWithPacking(s: System)
    requires s.w.Typed()
  {
    s.w.state == Idle ==>
      && 56 <= s.w.wipIdx <= 63 && s.w.dstOffset == |FullBytes(s.bits)| && s.dst + s.w.dstOffset <= SPACE
      && s.mem[s.dst..s.dst + s.w.dstOffset] == FullBytes(s.bits)
      && s.w.wipReg[..63 - s.w.wipIdx] == Rest(s.bits)
  }

  /** After every sequence of start, write and wait signals the writer agrees with the packing loop. */
  lemma {:induction false} WriterRefinesPacking(s: System, events: seq<Event>)
    requires Writing(s.w, s.mem, s.dst, s.bits) && Typed(events) && Respects(s, events)
    ensures AgreesWithPacking(SystemRun(s, events))
    decreases |events|
  {
    if events == [] {
      if s.w.state == Idle { IdleIsPacked(s.w, s.mem, s.dst, s.bits); }
    } else {
      SystemKeeps(s, events[0]);
      WriterRefinesPacking(SystemStep(s, events[0]), events[1..]);
    }
  }

  lemma SystemKeeps(s: System, e: Event)
    requires Writing(s.w, s.mem, s.dst, s.bits) && e.inputs.Typed()
    requires s.w.state == Idle && e.inputs.start && !e.inputs.writeIn ==>
               e.inputs.codeLen <= 57 && s.dst + |s.bits + e.inputs.code[..e.inputs.codeLen]| / 8 < SPACE
    ensures var n := SystemStep(s, e); Writing(n.w, n.mem, n.dst, n.bits)
  {
    if s.w.state != Idle {
      WritingStep(s.w, s.mem, s.dst, s.bits, e.inputs, e.wait);
    } else if e.inputs.writeIn {
      WritingBegins(s.w, s.mem, e.inputs, e.wait);
    } else if e.inputs.start {
      WritingAccepts(s.w, s.mem, s.dst, s.bits, e.inputs, e.wait);
    } else {
      WritingIdles(s.w, s.mem, s.dst, s.bits, e.inputs, e.wait);
    }
  }
}
