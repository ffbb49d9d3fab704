/** The 4096-byte memory: the bounded copy every write goes through, and the
    big-endian instruction fetch. */
module Memory {
  import opened Util

  const RAM_SIZE: nat := 4096

  /** `new Uint8Array(4096)`: addresses 0x000 to 0xFFF, one byte each. */
  type Ram = r: seq<Byte> | |r| == RAM_SIZE witness seq(RAM_SIZE, _ => 0)

  /** `MemCpy(ram, address, buffer)`: a buffer that does not fit between the
      address and the end of memory is refused and memory is left as it was;
      otherwise exactly the cells address .. address + |buffer| - 1 receive the
      buffer and every other cell keeps its value. */
  function MemCpy(ram: Ram, address: nat, buffer: seq<Byte>): (r: Ram)
    ensures |buffer| > RAM_SIZE - address ==> r == ram
    ensures |buffer| <= RAM_SIZE - address ==>
      forall a :: 0 <= a < RAM_SIZE ==>
        r[a] == if address <= a < address + |buffer| then buffer[a - address] else ram[a]
  {
    if |buffer| > RAM_SIZE - address then ram
    else CopyFrom(ram, address, buffer, 0)
  }

  /** The copy loop from index i on: `ram[address + i] = buffer[i]`, one cell
      per iteration. Cells before address + i are never touched again, so
      they keep what earlier iterations wrote. */
  function CopyFrom(ram: Ram, address: nat, buffer: seq<Byte>, i: nat): (r: Ram)
    requires |buffer| <= RAM_SIZE - address && i <= |buffer|
    ensures forall a :: 0 <= a < RAM_SIZE ==>
      r[a] == if address + i <= a < address + |buffer| then buffer[a - address] else ram[a]
    decreases |buffer| - i
  {
    if i == |buffer| then ram
    else CopyFrom(ram[address + i := buffer[i]], address, buffer, i + 1)
  }

  /** A read where the interpreter only feeds the value to `<<`, `|` or `>>`:
      past the end of memory the typed array yields `undefined`, which those
      operators turn into 0. */
  function ReadOr0(ram: Ram, a: nat): Byte
  {
    if a < RAM_SIZE then ram[a] else 0
  }

  /** The instruction word `ram[pc] << 8 | ram[pc + 1]`: the byte at pc is the
      high half and the byte at pc + 1 the low half. */
  function Fetch(ram: Ram, pc: nat): (w: nat)
    ensures w == ReadOr0(ram, pc) * 256 + ReadOr0(ram, pc + 1)
  {
    var hi := ReadOr0(ram, pc);
    var lo := ReadOr0(ram, pc + 1);
    assert Pow2(8) == 256 && Pow2(16) == 0x10000;
    OrShifted(hi, lo, 8, 16);
    Bitwise(OrOp, hi * 256, lo, 16)
  }
}
