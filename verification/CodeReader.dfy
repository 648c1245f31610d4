/** The clocked process of the code reader. */
module CodeReaders {
  import opened Trees
  import opened Bytes
  import opened FileFormat
  import opened Avalon

  datatype ReaderState =
    | Idle
    | RdCodeAddr(n: nat)      // n = 1 .. 4
    | RdCodeAddrWait(n: nat)
    | SetRdAddr
    | ReadWait
    | Last

  /** The registers. Bit 63 of `codeReg` and `bitRep` is element 0; `codeAddr` is kept as its four
      bytes, low byte first. */
  datatype Reader = Reader(
    state: ReaderState, addr: Address, codeAddr: seq<Byte>, offset: Address, codeReg: Bits,
    done: bool, length: nat, bitRep: Bits, address: Address, read: bool)
  {
    predicate Typed() {
      && |codeAddr| == 4 && |codeReg| == 64 && |bitRep| == 64 && length < 64
      && (state.RdCodeAddr? || state.RdCodeAddrWait? ==> 1 <= state.n <= 4)
    }

    function Outputs(): Bus {
      Bus(address, read, false, 0)
    }
  }

  const CHAR_0: Byte := 0x30
  const CHAR_1: Byte := 0x31

  /** One rising clock edge. */
  function Step(r: Reader, start: bool, codeAddrIn: Address, wait: bool, data: Byte): (next: Reader)
    requires r.Typed()
    ensures next.Typed()
  {
    match r.state
    case Idle =>
      if start then r.(addr := codeAddrIn, offset := 0, state := RdCodeAddr(1))
      else r.(done := false, codeReg := Zeros(64), address := 0, read := false)
    case RdCodeAddr(n) =>
      r.(address := Plus(r.addr, n - 1), read := true, state := RdCodeAddrWait(n))
    case RdCodeAddrWait(n) =>
      if wait then r
      else r.(codeAddr := r.codeAddr[n - 1 := data], read := false,
              state := if n == 4 then SetRdAddr else RdCodeAddr(n + 1))
    case SetRdAddr =>
      r.(address := Plus(ReadWord(r.codeAddr), r.offset), read := true, state := ReadWait)
    case ReadWait =>
      if wait then r
      else if data == CHAR_0 || data == CHAR_1 then
        r.(read := false, offset := Plus(r.offset, 1), state := SetRdAddr,
           codeReg := if r.offset < 64 then r.codeReg[r.offset := data == CHAR_1] else r.codeReg)
      else r.(read := false, state := Last)
    case Last =>
      r.(length := r.offset % 64, bitRep := r.codeReg, done := true, state := Idle)
  }

  /** The process itself: the registers are updated in place at every rising edge. */
  class CodeReader {
    var state: ReaderState
    var addr: Address
    var codeAddr: seq<Byte>
    var offset: Address
    var codeReg: Bits
    var done: bool
    var length: nat
    var bitRep: Bits
    var address: Address
    var read: bool

    function Registers(): Reader
      reads this
    {
      Reader(state, addr, codeAddr, offset, codeReg, done, length, bitRep, address, read)
    }

    /** Asynchronous reset. Registers that it does not set may hold anything. */
    constructor (anyAddr: Address, anyOffset: Address, anyBytes: seq<Byte>, anyLength: nat, anyBits: Bits)
      requires |anyBytes| == 4 && |anyBits| == 64 && anyLength < 64
      ensures Registers().Typed() && Quiet(Registers()) && address == 0
    {
      state, done, read, address, codeReg := Idle, false, false, 0, Zeros(64);
      addr, offset, codeAddr, length, bitRep := anyAddr, anyOffset, anyBytes, anyLength, anyBits;
    }

    /** If a code is being read before the edge, it is being read after it, or has been read. */
    method RisingEdge(start: bool, codeAddrIn: Address, wait: bool, data: Byte)
      requires Registers().Typed()
      modifies this
      ensures Registers() == Step(old(Registers()), start, codeAddrIn, wait, data)
      ensures forall mem: Memory, slot, code ::
                old(Reading(Registers(), mem, slot, code)) && (old(read) && !wait ==> data == mem[old(address)]) ==>
                  Reading(Registers(), mem, slot, code) || Finished(Registers(), code)
    {
      ghost var before := Registers();
      Edge(start, codeAddrIn, wait, data);
      forall mem: Memory, slot, code
        | Reading(before, mem, slot, code) && (before.read && !wait ==> data == mem[before.address])
        ensures Reading(Registers(), mem, slot, code) || Finished(Registers(), code)
      {
        ReadingStep(before, mem, slot, code, start, codeAddrIn, Cycle(wait, data));
      }
    }

    method Edge(start: bool, codeAddrIn: Address, wait: bool, data: Byte)
      requires Registers().Typed()
      modifies this
      ensures Registers() == Step(old(Registers()), start, codeAddrIn, wait, data)
    {
      match state
      case Idle =>
        if start {
          addr := codeAddrIn;
          offset := 0;
          state := RdCodeAddr(1);
        } else {
          done := false;
          codeReg := Zeros(64);
          address := 0;
          read := false;
        }
      case RdCodeAddr(n) =>
        address := Plus(addr, n - 1);
        read := true;
        state := RdCodeAddrWait(n);
      case RdCodeAddrWait(n) =>
        if !wait {
          codeAddr := codeAddr[n - 1 := data];
          read := false;
          state := if n == 4 then SetRdAddr else RdCodeAddr(n + 1);
        }
      case SetRdAddr =>
        address := Plus(ReadWord(codeAddr), offset);
        read := true;
        state := ReadWait;
      case ReadWait =>
        if !wait {
          read := false;
          if data == CHAR_0 || data == CHAR_1 {
            if offset < 64 {
              codeReg := codeReg[offset := data == CHAR_1];
            }
            offset := Plus(offset, 1);
            state := SetRdAddr;
          } else {
            state := Last;
          }
        }
      case Last =>
        length := offset % 64;
        bitRep := codeReg;
        done := true;
        state := Idle;
    }
  }

  /** The digits of a code, and behind them any byte that is not a digit. */
  ghost predicate DigitsAt(mem: Memory, at: nat, code: Bits) {
    && at + |code| < SPACE && mem[at..at + |code|] == CharBytes(Str(code))
    && mem[at + |code|] != CHAR_0 && mem[at + |code|] != CHAR_1
  }

  /** A printed code and the pointer to it. */
  ghost predicate CodeAt(mem: Memory, slot: Address, code: Bits) {
    slot + 4 <= SPACE && |code| < 64 && DigitsAt(mem, ReadWord(mem[slot..slot + 4]), code)
  }

  /** Idle for at least one cycle. */
  ghost predicate Quiet(r: Reader) {
    r.Typed() && r.state == Idle && !r.done && !r.read && r.codeReg == Zeros(64)
  }

  /** `n` bits of the code have been put in from the left; the rest of the register is what it was. */
  ghost predicate HoldsBits(reg: Bits, was: Bits, code: Bits, n: nat) {
    |was| == 64 && n <= |code| < 64 && reg == code[..n] + was[n..]
  }

  /** Reading the code in a table slot is under way, in a register that held `was` at the start. */
  ghost predicate ReadingOver(r: Reader, mem: Memory, slot: Address, code: Bits, was: Bits) {
    && r.Typed() && r.addr == slot && CodeAt(mem, slot, code)
    && match r.state
       case Idle => false
       case RdCodeAddr(n) =>
         && (r.read ==> n == 1) && r.offset == 0 && HoldsBits(r.codeReg, was, code, 0)
         && r.codeAddr[..n - 1] == mem[slot..slot + n - 1]
       case RdCodeAddrWait(n) =>
         && r.read && r.address == slot + n - 1
         && r.offset == 0 && HoldsBits(r.codeReg, was, code, 0) && r.codeAddr[..n - 1] == mem[slot..slot + n - 1]
       case SetRdAddr =>
         !r.read && r.codeAddr == mem[slot..slot + 4] && HoldsBits(r.codeReg, was, code, r.offset)
       case ReadWait =>
         && r.read && r.codeAddr == mem[slot..slot + 4] && HoldsBits(r.codeReg, was, code, r.offset)
         && r.address == ReadWord(r.codeAddr) + r.offset
       case Last =>
         !r.read && r.offset == |code| && HoldsBits(r.codeReg, was, code, |code|)
  }

  /** The outputs are the length of the code and its bits, with old bits behind them. */
  ghost predicate FinishedOver(r: Reader, code: Bits, was: Bits) {
    && r.Typed() && r.state == Idle && r.done && !r.read
    && |was| == 64 && r.length == |code| < 64 && r.bitRep == code + was[|code|..]
  }

  /** Reading from a quiet state: the register was empty, and nothing is announced meanwhile. */
  ghost predicate Reading(r: Reader, mem: Memory, slot: Address, code: Bits) {
    !r.done && ReadingOver(r, mem, slot, code, Zeros(64))
  }

  /** The outputs are the length and the left-aligned bits of the code. */
  ghost predicate Finished(r: Reader, code: Bits) {
    && r.Typed() && r.state == Idle && r.done && !r.read
    && r.length == |code| < 64 && r.bitRep == code + Zeros(64 - |code|)
  }

  /** The outputs are right exactly when the old bits behind the code are zeros. */
  lemma FinishedOverZeros(r: Reader, code: Bits, was: Bits)
    requires FinishedOver(r, code, was)
    ensures Finished(r, code) <==> was[|code|..] == Zeros(64 - |code|)
  {
    assert r.bitRep[|code|..] == was[|code|..];
    assert (code + Zeros(64 - |code|))[|code|..] == Zeros(64 - |code|);
  }

  lemma ReadingOverStarts(r: Reader, mem: Memory, slot: Address, code: Bits, wait: bool, data: Byte)
    requires r.Typed() && r.state == Idle && CodeAt(mem, slot, code)
    ensures ReadingOver(Step(r, true, slot, wait, data), mem, slot, code, r.codeReg)
    ensures Step(r, true, slot, wait, data).done == r.done
  {
    assert code[..0] + r.codeReg[0..] == r.codeReg;
  }

  lemma ReadingStarts(r: Reader, mem: Memory, slot: Address, code: Bits, wait: bool, data: Byte)
    requires Quiet(r) && CodeAt(mem, slot, code)
    ensures Reading(Step(r, true, slot, wait, data), mem, slot, code)
  {
    ReadingOverStarts(r, mem, slot, code, wait, data);
  }

  lemma NextBit(reg: Bits, was: Bits, code: Bits, n: nat, b: bool)
    requires n < |code| && HoldsBits(reg, was, code, n) && b == code[n]
    ensures HoldsBits(reg[n := b], was, code, n + 1)
  {
    assert was[n..][1..] == was[n + 1..];
  }

  /** The byte of the string that the reader looks at. */
  lemma CodeByte(mem: Memory, slot: Address, code: Bits, k: nat)
    requires CodeAt(mem, slot, code) && k <= |code|
    ensures var p := ReadWord(mem[slot..slot + 4]);
            && p + k < SPACE
            && (k < |code| ==> mem[p + k] == if code[k] then CHAR_1 else CHAR_0)
            && (k == |code| ==> mem[p + k] != CHAR_0 && mem[p + k] != CHAR_1)
  {
    var p := ReadWord(mem[slot..slot + 4]);
    if k < |code| {
      assert mem[p..p + |code|][k] == CharBytes(Str(code))[k];
    }
  }

  function NextState(r: Reader, mem: Memory, start: bool, at: Address, cycle: Cycle): Reader
    requires r.Typed()
  {
    Step(r, start, at, cycle.wait, DataIn(mem, r.Outputs(), cycle.wait, cycle.junk))
  }

  lemma PointerStep(r: Reader, mem: Memory, slot: Address, code: Bits, was: Bits, start: bool, at: Address,
      cycle: Cycle)
    requires ReadingOver(r, mem, slot, code, was) && (r.state.RdCodeAddr? || r.state.RdCodeAddrWait?)
    ensures ReadingOver(NextState(r, mem, start, at, cycle), mem, slot, code, was)
  {
    var n := r.state.n;
    var next := NextState(r, mem, start, at, cycle);
    if r.state.RdCodeAddr? {
      assert next == r.(address := slot + n - 1, read := true, state := RdCodeAddrWait(n));
    } else if !cycle.wait {
      PointerByte(mem, slot, r.codeAddr, n);
      assert next == r.(codeAddr := r.codeAddr[n - 1 := mem[slot + n - 1]], read := false,
                        state := if n == 4 then SetRdAddr else RdCodeAddr(n + 1));
    }
  }

  lemma PointerByte(mem: Memory, slot: Address, bytes: seq<Byte>, n: nat)
    requires |bytes| == 4 && 1 <= n <= 4 && slot + 4 <= SPACE && bytes[..n - 1] == mem[slot..slot + n - 1]
    ensures var next := bytes[n - 1 := mem[slot + n - 1]];
            next[..n] == mem[slot..slot + n] && (n == 4 ==> next == mem[slot..slot + 4])
  {
    var next := bytes[n - 1 := mem[slot + n - 1]];
    assert next[..n] == bytes[..n - 1] + [mem[slot + n - 1]];
    assert mem[slot..slot + n] == mem[slot..slot + n - 1] + [mem[slot + n - 1]];
    assert n == 4 ==> next[..4] == next;
  }

  lemma AddressStep(r: Reader, mem: Memory, slot: Address, code: Bits, was: Bits, start: bool, at: Address,
      cycle: Cycle)
    requires ReadingOver(r, mem, slot, code, was) && r.state.SetRdAddr?
    ensures ReadingOver(NextState(r, mem, start, at, cycle), mem, slot, code, was)
  {
    CodeByte(mem, slot, code, r.offset);
    var next := NextState(r, mem, start, at, cycle);
    assert next == r.(address := ReadWord(r.codeAddr) + r.offset, read := true, state := ReadWait);
  }

  lemma CharacterStep(r: Reader, mem: Memory, slot: Address, code: Bits, was: Bits, start: bool, at: Address,
      cycle: Cycle)
    requires ReadingOver(r, mem, slot, code, was) && r.state.ReadWait?
    ensures ReadingOver(NextState(r, mem, start, at, cycle), mem, slot, code, was)
  {
    var k := r.offset;
    CodeByte(mem, slot, code, k);
    var next := NextState(r, mem, start, at, cycle);
    if cycle.wait {
      assert next == r;
    } else if k < |code| {
      NextBit(r.codeReg, was, code, k, code[k]);
      assert next == r.(read := false, offset := k + 1, state := SetRdAddr, codeReg := r.codeReg[k := code[k]]);
    } else {
      assert next == r.(read := false, state := Last);
    }
  }

  /** One clock edge while reading, for any behaviour of the slave and of the start input. Until the end the done
      signal stays as it is. */
  lemma ReadingOverStep(r: Reader, mem: Memory, slot: Address, code: Bits, was: Bits, start: bool, at: Address,
      cycle: Cycle)
    requires ReadingOver(r, mem, slot, code, was)
    ensures var next := NextState(r, mem, start, at, cycle);
            if r.state == Last then FinishedOver(next, code, was)
            else ReadingOver(next, mem, slot, code, was) && next.done == r.done
  {
    if r.state.RdCodeAddr? || r.state.RdCodeAddrWait? {
      PointerStep(r, mem, slot, code, was, start, at, cycle);
    } else if r.state.SetRdAddr? {
      AddressStep(r, mem, slot, code, was, start, at, cycle);
    } else if r.state.ReadWait? {
      CharacterStep(r, mem, slot, code, was, start, at, cycle);
    } else {
      assert code[..|code|] == code;
    }
  }

  /** The same from a quiet state. */
  lemma ReadingStep(r: Reader, mem: Memory, slot: Address, code: Bits, start: bool, at: Address, cycle: Cycle)
    requires Reading(r, mem, slot, code)
    ensures Reading(NextState(r, mem, start, at, cycle), mem, slot, code)
        || Finished(NextState(r, mem, start, at, cycle), code)
  {
    ReadingOverStep(r, mem, slot, code, Zeros(64), start, at, cycle);
    if r.state == Last {
      FinishedOverZeros(NextState(r, mem, start, at, cycle), code, Zeros(64));
    }
  }

  /** The state after a number of clock cycles without a start signal. */
  function Run(r: Reader, mem: Memory, cycles: seq<Cycle>): (last: Reader)
    requires r.Typed()
    ensures last.Typed()
    decreases |cycles|
  {
    if cycles == [] then r
    else Run(NextState(r, mem, false, 0, cycles[0]), mem, cycles[1..])
  }

  /** The number of cycles without wait that reading still takes at most. */
  function CyclesLeft(r: Reader, code: Bits): int
  {
    match r.state
    case Idle => 0
    case RdCodeAddr(n) => 2 * (5 - n) + 2 * |code| + 3
    case RdCodeAddrWait(n) => 2 * (5 - n) - 1 + 2 * |code| + 3
    case SetRdAddr => 2 * (|code| - r.offset) + 3
    case ReadWait => 2 * (|code| - r.offset) + 2
    case Last => 1
  }

  /** The cycles in which the slave does not ask to wait. */
  function Responses(cycles: seq<Cycle>): nat
    decreases |cycles|
  {
    if cycles == [] then 0
    else (if cycles[0].wait then 0 else 1) + Responses(cycles[1..])
  }

  /** Under every schedule of waits, a run from the middle of reading is either still reading or has passed
      through the cycle in which the outputs are announced; and it has done so once the slave has responded often
      enough. Up to that cycle the done signal stays as it is. */
  lemma {:induction false} ReadingRun(r: Reader, mem: Memory, slot: Address, code: Bits, was: Bits, cycles: seq<Cycle>)
    returns (n: nat)
    requires ReadingOver(r, mem, slot, code, was)
    ensures n <= |cycles| && ReadingOver(Run(r, mem, cycles[..n]), mem, slot, code, was)
    ensures forall k :: 0 <= k <= n ==> Run(r, mem, cycles[..k]).done == r.done
    ensures if n == |cycles| then Responses(cycles) < CyclesLeft(r, code)
            else FinishedOver(Run(r, mem, cycles[..n + 1]), code, was)
    decreases |cycles|
  {
    HoldsAtMost(r, mem, slot, code, was);
    if cycles == [] {
      n := 0;
    } else if r.state == Last {
      n := 0;
      ReadingOverStep(r, mem, slot, code, was, false, 0, cycles[0]);
      RunFromFirst(r, mem, cycles, 0);
    } else {
      ReadingOverStep(r, mem, slot, code, was, false, 0, cycles[0]);
      ReadingProgress(r, mem, slot, code, was, 0, cycles[0]);
      var m := ReadingRun(NextState(r, mem, false, 0, cycles[0]), mem, slot, code, was, cycles[1..]);
      n := m + 1;
      forall k | 0 <= k <= n ensures Run(r, mem, cycles[..k]).done == r.done {
        if k > 0 { RunFromFirst(r, mem, cycles, k - 1); }
      }
      RunFromFirst(r, mem, cycles, m);
      if n < |cycles| { RunFromFirst(r, mem, cycles, m + 1); }
    }
  }

  lemma RunFromFirst(r: Reader, mem: Memory, cycles: seq<Cycle>, k: nat)
    requires r.Typed() && k < |cycles|
    ensures Run(r, mem, cycles[..k + 1]) == Run(NextState(r, mem, false, 0, cycles[0]), mem, cycles[1..][..k])
  {
    assert cycles[..k + 1][1..] == cycles[1..][..k];
  }

  lemma HoldsAtMost(r: Reader, mem: Memory, slot: Address, code: Bits, was: Bits)
    requires ReadingOver(r, mem, slot, code, was)
    ensures CyclesLeft(r, code) >= 1
  {
  }

  /** Every response brings the end closer; waiting changes nothing or moves on as well. */
  lemma ReadingProgress(r: Reader, mem: Memory, slot: Address, code: Bits, was: Bits, at: Address, c: Cycle)
    requires ReadingOver(r, mem, slot, code, was)
    ensures var next := NextState(r, mem, false, at, c);
            CyclesLeft(next, code) <= CyclesLeft(r, code) - if c.wait then 0 else 1
  {
    if r.state == ReadWait {
      CodeByte(mem, slot, code, r.offset);
    }
  }

  /** The reader from any idle state: started at a table slot, under every schedule of waits, at the latest after
      2 * length + 12 responses of the slave, it has put out the length and the bits of the code in that slot,
      with the old bits of the register behind them. So the output is the left-aligned code exactly when those
      old bits are zeros, as they are after an idle cycle. Until then the done signal is what it was at the
      start: it announces the code only if the reader had been idle for a cycle. */
  lemma ReaderDelivers(r: Reader, mem: Memory, slot: Address, code: Bits, first: Cycle, cycles: seq<Cycle>)
    returns (n: nat)
    requires r.Typed() && r.state == Idle && CodeAt(mem, slot, code)
    requires Responses(cycles) >= 2 * |code| + 12
    ensures n < |cycles|
    ensures var started := Step(r, true, slot, first.wait, first.junk);
            && (forall k :: 0 <= k <= n ==> Run(started, mem, cycles[..k]).done == r.done)
            && FinishedOver(Run(started, mem, cycles[..n + 1]), code, r.codeReg)
            && (Finished(Run(started, mem, cycles[..n + 1]), code) <==> r.codeReg[|code|..] == Zeros(64 - |code|))
  {
    ReadingOverStarts(r, mem, slot, code, first.wait, first.junk);
    var started := Step(r, true, slot, first.wait, first.junk);
    n := ReadingRun(started, mem, slot, code, r.codeReg, cycles);
    FinishedOverZeros(Run(started, mem, cycles[..n + 1]), code, r.codeReg);
  }
}
