/** The memory behind the Avalon bus, as a master sees it. */
module Avalon {
  import opened Bytes

  const SPACE: nat := 0x1_0000_0000

  /** An `unsigned(31 downto 0)`. */
  type Address = a: int | 0 <= a < 0x1_0000_0000

  /** All addressable bytes. */
  type Memory = m: seq<Byte> | |m| == 0x1_0000_0000 ghost witness seq(0x1_0000_0000, _ => 0)

  /** Addition of 32-bit numbers, which wraps around. */
  function Plus(a: Address, n: Address): Address {
    if a + n < 0x1_0000_0000 then a + n else a + n - 0x1_0000_0000
  }

  lemma PlusWraps(a: Address, n: Address)
    ensures Plus(a, n) == (a + n) % 0x1_0000_0000
  {
  }

  /** The registered outputs of a master. */
  datatype Bus = Bus(address: Address, read: bool, write: bool, data: Byte)

  /** A write takes place in every cycle in which it is asserted and the slave does not ask to wait. */
  function AfterCycle(mem: Memory, bus: Bus, wait: bool): Memory {
    if bus.write && !wait then mem[bus.address := bus.data] else mem
  }

  /** The read data are those of the memory in the cycle in which the slave stops asking to wait,
      and anything at all in every other cycle. */
  function DataIn(mem: Memory, bus: Bus, wait: bool, junk: Byte): Byte {
    if bus.read && !wait then mem[bus.address] else junk
  }

  /** What the slave contributes to one clock cycle. */
  datatype Cycle = Cycle(wait: bool, junk: Byte)

  /** A C string in memory, with its terminator. */
  ghost predicate StringAt(mem: seq<Byte>, at: nat, s: seq<Byte>) {
    at + |s| < |mem| && mem[at..at + |s|] == s && mem[at + |s|] == 0
  }
}
