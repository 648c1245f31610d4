/** The tree handler: it copies the printed tree behind the place for the three lengths of the file, and then
    stores the length of the tree. */
module TreeHandlers {
  import opened Bytes
  import opened FileFormat
  import opened Avalon

  datatype TreeState =
    | Idle
    | SetRdAddr | ReadWait | CheckEnd
    | SetWrAddr | WriteWaitExtra | WriteWait | Increment
    | WrLen(n: nat)       // n = 1 .. 4
    | WrLenWait(n: nat)

  datatype Registers = Registers(
    state: TreeState, treeAddr: Address, dstAddr: Address, offset: Address, letter: Byte,
    bus: Bus, done: bool, size: Address)
  {
    predicate Typed() {
      state.WrLen? || state.WrLenWait? ==> 1 <= state.n <= 4
    }
  }

  /** What the encoder puts on the inputs. */
  datatype Inputs = Inputs(write: bool, start: bool, treeAddr: Address, dstAddr: Address)

  /** One rising clock edge. */
  function Step(h: Registers, i: Inputs, wait: bool, data: Byte): (next: Registers)
    requires h.Typed()
    ensures next.Typed()
  {
    if i.write then h.(treeAddr := i.treeAddr, dstAddr := i.dstAddr, offset := 0)
    else match h.state
      case Idle =>
        h.(state := if i.start then SetRdAddr else Idle, done := false)
      case SetRdAddr =>
        h.(bus := h.bus.(address := Plus(h.treeAddr, h.offset), read := true), state := ReadWait)
      case ReadWait =>
        if wait then h else h.(letter := data, bus := h.bus.(read := false), state := CheckEnd)
      case CheckEnd =>
        h.(state := if h.letter == 0 then WrLen(1) else SetWrAddr)
      case SetWrAddr =>
        h.(bus := h.bus.(address := Plus(Plus(h.dstAddr, 12), h.offset), data := h.letter, write := true),
            state := WriteWaitExtra)
      case WriteWaitExtra =>
        h.(state := WriteWait)
      case WriteWait =>
        if wait then h else h.(bus := h.bus.(write := false), state := Increment)
      case Increment =>
        h.(offset := Plus(h.offset, 1), state := SetRdAddr)
      case WrLen(n) =>
        h.(bus := h.bus.(address := Plus(h.dstAddr, 3 + n), data := Word(h.offset)[n - 1], write := true),
            state := WrLenWait(n))
      case WrLenWait(n) =>
        if wait then h
        else if n == 4 then h.(bus := h.bus.(write := false), done := true, size := h.offset, state := Idle)
        else h.(bus := h.bus.(write := false), state := WrLen(n + 1))
  }

  /** The process itself: the registers are updated in place at every rising edge. */
  class TreeHandler {
    var state: TreeState
    var treeAddr: Address
    var dstAddr: Address
    var offset: Address
    var letter: Byte
    var bus: Bus
    var done: bool
    var size: Address

    function Contents(): Registers
      reads this
    {
      Registers(state, treeAddr, dstAddr, offset, letter, bus, done, size)
    }

    /** Asynchronous reset; the registers that it does not set may hold anything. */
    constructor (any: Registers)
      ensures Contents() == any.(state := Idle, bus := Bus(0, false, false, 0), done := false)
    {
      state, bus, done := Idle, Bus(0, false, false, 0), false;
      treeAddr, dstAddr, offset, letter, size := any.treeAddr, any.dstAddr, any.offset, any.letter, any.size;
    }

    /** If the handler is copying before the edge, it is copying after it, or has finished. */
    method RisingEdge(i: Inputs, wait: bool, data: Byte)
      requires Contents().Typed()
      modifies this
      ensures Contents() == Step(old(Contents()), i, wait, data)
      ensures !i.write && !i.start ==>
                forall c, mem: Memory ::
                  (old(bus).read && !wait ==> data == mem[old(bus).address]) && old(Copying(c, Contents(), mem)) ==>
                    Copying(c, Contents(), AfterCycle(mem, old(bus), wait))
    {
      ghost var before := Contents();
      Edge(i, wait, data);
      if !i.write && !i.start {
        forall c, mem: Memory | Copying(c, before, mem)
            && (before.bus.read && !wait ==> data == mem[before.bus.address])
          ensures Copying(c, Contents(), AfterCycle(mem, before.bus, wait))
        {
          CopyingKept(c, before, mem, i, wait, data);
        }
      }
    }

    method Edge(i: Inputs, wait: bool, data: Byte)
      requires Contents().Typed()
      modifies this
      ensures Contents() == Step(old(Contents()), i, wait, data)
    {
      if i.write {
        treeAddr := i.treeAddr;
        dstAddr := i.dstAddr;
        offset := 0;
        return;
      }
      match state
      case Idle =>
        if i.start {
          state := SetRdAddr;
        }
        done := false;
      case SetRdAddr =>
        bus := bus.(address := Plus(treeAddr, offset), read := true);
        state := ReadWait;
      case ReadWait =>
        if !wait {
          letter := data;
          bus := bus.(read := false);
          state := CheckEnd;
        }
      case CheckEnd =>
        if letter == 0 {
          state := WrLen(1);
        } else {
          state := SetWrAddr;
        }
      case SetWrAddr =>
        bus := bus.(address := Plus(Plus(dstAddr, 12), offset), data := letter, write := true);
        state := WriteWaitExtra;
      case WriteWaitExtra =>
        state := WriteWait;
      case WriteWait =>
        if !wait {
          bus := bus.(write := false);
          state := Increment;
        }
      case Increment =>
        offset := Plus(offset, 1);
        state := SetRdAddr;
      case WrLen(n) =>
        bus := bus.(address := Plus(dstAddr, 3 + n), data := Word(offset)[n - 1], write := true);
        state := WrLenWait(n);
      case WrLenWait(n) =>
        if !wait {
          bus := bus.(write := false);
          if n == 4 {
            done := true;
            size := offset;
            state := Idle;
          } else {
            state := WrLen(n + 1);
          }
        }
    }
  }

  /** A string to be copied from below the output into the header of the output. */
  datatype Copy = Copy(src: Address, dst: Address, bytes: seq<Byte>)
  {
    ghost predicate Valid() {
      && src + |bytes| < dst && dst + 12 + |bytes| < SPACE
      && forall k :: 0 <= k < |bytes| ==> bytes[k] != 0
    }

    /** The first `k` bytes have been copied. */
    ghost predicate Copied(mem: Memory, k: nat) {
      k <= |bytes| && dst + 12 + k <= SPACE && mem[dst + 12..dst + 12 + k] == bytes[..k]
    }

    /** All bytes have been copied, and `n` bytes of their number have been stored. */
    ghost predicate Counted(mem: Memory, n: nat)
      requires |bytes| < SPACE
    {
      n <= 4 && Copied(mem, |bytes|) && mem[dst + 4..dst + 4 + n] == Word(|bytes|)[..n]
    }
  }

  /** What holds in each state while the handler copies. */
  ghost predicate At(c: Copy, h: Registers, mem: Memory)
    requires c.Valid()
  {
    var k := h.offset;
    match h.state
    case Idle => k == |c.bytes| && c.Counted(mem, 4) && h.size == k && !h.bus.read && !h.bus.write
    case SetRdAddr => c.Copied(mem, k) && !h.bus.read && !h.bus.write
    case ReadWait => c.Copied(mem, k) && h.bus.read && !h.bus.write && h.bus.address == c.src + k
    case CheckEnd =>
      && c.Copied(mem, k) && !h.bus.read && !h.bus.write
      && h.letter == if k < |c.bytes| then c.bytes[k] else 0
    case SetWrAddr => k < |c.bytes| && c.Copied(mem, k) && !h.bus.read && !h.bus.write && h.letter == c.bytes[k]
    case WriteWaitExtra => k < |c.bytes| && c.Copied(mem, k) && StoringByte(c, h)
    case WriteWait => k < |c.bytes| && c.Copied(mem, k) && StoringByte(c, h)
    case Increment => k < |c.bytes| && c.Copied(mem, k + 1) && !h.bus.read && !h.bus.write
    case WrLen(n) => k == |c.bytes| && 1 <= n <= 4 && c.Counted(mem, n - 1) && !h.bus.read && !h.bus.write
    case WrLenWait(n) => k == |c.bytes| && 1 <= n <= 4 && c.Counted(mem, n - 1) && StoringLength(c, h, n)
  }

  /** The byte at the offset is on the bus. */
  ghost predicate StoringByte(c: Copy, h: Registers)
    requires c.Valid() && h.offset < |c.bytes|
  {
    h.bus == Bus(c.dst + 12 + h.offset, false, true, c.bytes[h.offset])
  }

  ghost predicate StoringLength(c: Copy, h: Registers, n: nat)
    requires c.Valid() && 1 <= n <= 4
  {
    h.bus == Bus(c.dst + 3 + n, false, true, Word(|c.bytes|)[n - 1])
  }

  /** The invariant of copying, from the start to the end and after it. The done signal is up in the first
      idle cycle only. */
  ghost predicate Copying(c: Copy, h: Registers, mem: Memory) {
    && c.Valid() && h.Typed() && StringAt(mem, c.src, c.bytes)
    && h.treeAddr == c.src && h.dstAddr == c.dst && h.offset <= |c.bytes|
    && (h.done ==> h.state == Idle)
    && At(c, h, mem)
  }

  /** While the handler is copying it writes into the header only: the length of the tree, and the tree. */
  lemma CopyingStaysInside(c: Copy, h: Registers, mem: Memory)
    requires Copying(c, h, mem) && h.bus.write
    ensures c.dst + 4 <= h.bus.address < c.dst + 8 || c.dst + 12 <= h.bus.address < c.dst + 12 + |c.bytes|
  {
  }

  lemma SourceKept(c: Copy, h: Registers, mem: Memory, wait: bool)
    requires Copying(c, h, mem)
    ensures StringAt(AfterCycle(mem, h.bus, wait), c.src, c.bytes)
  {
    if h.bus.write { CopyingStaysInside(c, h, mem); }
    var after := AfterCycle(mem, h.bus, wait);
    assert after[c.src..c.src + |c.bytes|] == mem[c.src..c.src + |c.bytes|];
  }

  /** The byte that is read. */
  lemma SourceByte(c: Copy, mem: Memory, k: nat)
    requires c.Valid() && StringAt(mem, c.src, c.bytes) && k <= |c.bytes|
    ensures mem[c.src + k] == if k < |c.bytes| then c.bytes[k] else 0
  {
    if k < |c.bytes| {
      assert mem[c.src..c.src + |c.bytes|][k] == c.bytes[k];
    }
  }

  lemma OneMoreCopied(c: Copy, mem: Memory, k: nat)
    requires c.Valid() && k < |c.bytes| && c.Copied(mem, k)
    ensures var after := mem[c.dst + 12 + k := c.bytes[k]]; c.Copied(after, k) && c.Copied(after, k + 1)
  {
    var after := mem[c.dst + 12 + k := c.bytes[k]];
    assert after[c.dst + 12..c.dst + 12 + k] == mem[c.dst + 12..c.dst + 12 + k];
    assert after[c.dst + 12..c.dst + 12 + k + 1] == after[c.dst + 12..c.dst + 12 + k] + [c.bytes[k]];
    assert c.bytes[..k + 1] == c.bytes[..k] + [c.bytes[k]];
  }

  lemma OneMoreCounted(c: Copy, mem: Memory, n: nat)
    requires c.Valid() && 1 <= n <= 4 && c.Counted(mem, n - 1)
    ensures c.Counted(mem[c.dst + 3 + n := Word(|c.bytes|)[n - 1]], n)
  {
    var after := mem[c.dst + 3 + n := Word(|c.bytes|)[n - 1]];
    assert after[c.dst + 12..c.dst + 12 + |c.bytes|] == mem[c.dst + 12..c.dst + 12 + |c.bytes|];
    assert after[c.dst + 4..c.dst + 4 + n] == mem[c.dst + 4..c.dst + 4 + n - 1] + [Word(|c.bytes|)[n - 1]];
    assert Word(|c.bytes|)[..n] == Word(|c.bytes|)[..n - 1] + [Word(|c.bytes|)[n - 1]];
  }

  lemma ReadingKept(c: Copy, h: Registers, mem: Memory, i: Inputs, wait: bool, junk: Byte)
    requires Copying(c, h, mem) && !i.write && (h.state.SetRdAddr? || h.state.ReadWait? || h.state.CheckEnd?)
    ensures At(c, Step(h, i, wait, DataIn(mem, h.bus, wait, junk)), mem)
  {
    SourceByte(c, mem, h.offset);
  }

  lemma StoringKept(c: Copy, h: Registers, mem: Memory, i: Inputs, wait: bool, data: Byte)
    requires Copying(c, h, mem) && !i.write
    requires h.state.SetWrAddr? || h.state.WriteWaitExtra? || h.state.WriteWait? || h.state.Increment?
    ensures At(c, Step(h, i, wait, data), AfterCycle(mem, h.bus, wait))
  {
    if h.state.WriteWaitExtra? || h.state.WriteWait? {
      OneMoreCopied(c, mem, h.offset);
    }
  }

  lemma CountingKept(c: Copy, h: Registers, mem: Memory, i: Inputs, wait: bool, data: Byte)
    requires Copying(c, h, mem) && !i.write && !i.start && (h.state.Idle? || h.state.WrLen? || h.state.WrLenWait?)
    ensures At(c, Step(h, i, wait, data), AfterCycle(mem, h.bus, wait))
  {
    if h.state.WrLenWait? {
      OneMoreCounted(c, mem, h.state.n);
    }
  }

  /** The invariant of copying is kept by every clock edge, whatever the slave does. */
  lemma CopyingKept(c: Copy, h: Registers, mem: Memory, i: Inputs, wait: bool, junk: Byte)
    requires Copying(c, h, mem) && !i.write && !i.start
    ensures Copying(c, Step(h, i, wait, DataIn(mem, h.bus, wait, junk)), AfterCycle(mem, h.bus, wait))
  {
    SourceKept(c, h, mem, wait);
    if h.state.SetRdAddr? || h.state.ReadWait? || h.state.CheckEnd? {
      ReadingKept(c, h, mem, i, wait, junk);
    } else if h.state.Idle? || h.state.WrLen? || h.state.WrLenWait? {
      CountingKept(c, h, mem, i, wait, DataIn(mem, h.bus, wait, junk));
    } else {
      StoringKept(c, h, mem, i, wait, DataIn(mem, h.bus, wait, junk));
    }
  }

  /** The handler with its addresses loaded, idle for at least a cycle. */
  ghost predicate Loaded(c: Copy, h: Registers) {
    && h.Typed() && h.state == Idle && !h.done && !h.bus.read && !h.bus.write
    && h.treeAddr == c.src && h.dstAddr == c.dst && h.offset == 0
  }

  lemma CopyingStarts(c: Copy, h: Registers, mem: Memory, i: Inputs, wait: bool, data: Byte)
    requires c.Valid() && Loaded(c, h) && StringAt(mem, c.src, c.bytes) && i.start && !i.write
    ensures Copying(c, Step(h, i, wait, data), mem) && Step(h, i, wait, data).state == SetRdAddr
  {
    assert mem[c.dst + 12..c.dst + 12] == c.bytes[..0];
  }

  /** An upper bound on the responses of the slave that are still needed. */
  function CyclesLeft(h: Registers, length: nat): int {
    var rest := 7 * (length - h.offset) + 11;
    match h.state
    case Idle => 0
    case SetRdAddr => rest
    case ReadWait => rest - 1
    case CheckEnd => rest - 2
    case SetWrAddr => rest - 3
    case WriteWaitExtra => rest - 4
    case WriteWait => rest - 5
    case Increment => rest - 6
    case WrLen(n) => 2 * (5 - n)
    case WrLenWait(n) => 2 * (5 - n) - 1
  }

  /** Every response of the slave brings the end closer. */
  lemma CopyingProgress(c: Copy, h: Registers, mem: Memory, i: Inputs, wait: bool, data: Byte)
    requires Copying(c, h, mem) && !i.write && !i.start && h.state != Idle
    ensures 0 <= CyclesLeft(Step(h, i, wait, data), |c.bytes|) <= CyclesLeft(h, |c.bytes|) - if wait then 0 else 1
  {
  }

  /** The handler announces the end in the cycle in which it becomes idle. */
  lemma DoneWhenIdle(c: Copy, h: Registers, mem: Memory, i: Inputs, wait: bool, data: Byte)
    requires Copying(c, h, mem) && !i.write && !i.start && h.state != Idle
    ensures var next := Step(h, i, wait, data); next.done <==> next.state == Idle
  {
  }
}
