/** Bytes, 64-bit addresses and the byte memory every other module works on. */
module Bytes {
  datatype Option<+T> = None | Some(value: T)

  const ADDRESS_MAX: int := 0xFFFF_FFFF_FFFF_FFFF

  type Byte = b: int | 0 <= b < 256
  type Address = a: int | 0 <= a <= ADDRESS_MAX

  /** Readable memory: the keys are the readable addresses. */
  type Memory = map<int, Byte>

  predicate Mapped(memory: Memory, address: int, size: nat) {
    forall a :: address <= a < address + size ==> a in memory
  }

  function Slice(memory: Memory, address: int, size: nat): (bytes: seq<Byte>)
    requires Mapped(memory, address, size)
    ensures |bytes| == size
    ensures forall i :: 0 <= i < size ==> bytes[i] == memory[address + i]
  {
    seq(size, i requires 0 <= i < size => memory[address + i])
  }

  /** `memory` with `bytes` laid over it from `address` on; unmapped addresses stay unmapped. */
  function Overlay(memory: Memory, address: int, bytes: seq<Byte>): (after: Memory)
    ensures after.Keys == memory.Keys
    ensures forall a :: a in memory ==>
      after[a] == if address <= a < address + |bytes| then bytes[a - address] else memory[a]
  {
    map a | a in memory :: if address <= a < address + |bytes| then bytes[a - address] else memory[a]
  }
}
