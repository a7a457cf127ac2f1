/** The device's flash memory and the effect of page erases and sector writes on it. */
module Flash {
  import opened Bytes

  const ERASE_SIZE: nat := 1024
  const WRITE_SIZE: nat := 64
  const ERASED: byte := 0xFF

  type Sector = s: seq<byte> | |s| == WRITE_SIZE witness seq(WRITE_SIZE, _ => ERASED)

  /** One call of `ImageProgrammer::erase` or `ImageProgrammer::write`. */
  datatype Action = Erase(address: nat) | Write(address: nat, data: Sector)

  /** What programming a cell does: the emulated target overwrites it, a real flash
      can only clear bits. */
  datatype Cell = Overwriting | BitClearing {
    function Program(old_: byte, new_: byte): byte {
      match this
      case Overwriting => new_
      case BitClearing => And8(old_, new_, 8)
    }
  }

  /** Bitwise conjunction of the low `bits` bits. */
  function And8(a: nat, b: nat, bits: nat): (r: nat)
    ensures r <= a && r <= b
  {
    if bits == 0 then 0
    else 2 * And8(a / 2, b / 2, bits - 1) + (if a % 2 == 1 && b % 2 == 1 then 1 else 0)
  }

  function EraseAt(flash: seq<byte>, address: nat): (r: seq<byte>)
    ensures |r| == |flash|
  {
    seq(|flash|, i requires 0 <= i < |flash| =>
      if address <= i < address + ERASE_SIZE then ERASED else flash[i])
  }

  function WriteAt(cell: Cell, flash: seq<byte>, address: nat, data: Sector): (r: seq<byte>)
    ensures |r| == |flash|
  {
    seq(|flash|, i requires 0 <= i < |flash| =>
      if address <= i < address + WRITE_SIZE then cell.Program(flash[i], data[i - address]) else flash[i])
  }

  function Perform(cell: Cell, flash: seq<byte>, act: Action): (r: seq<byte>)
    ensures |r| == |flash|
  {
    match act
    case Erase(address) => EraseAt(flash, address)
    case Write(address, data) => WriteAt(cell, flash, address, data)
  }

  /** The flash after a trace of actions. */
  function Run(cell: Cell, flash: seq<byte>, trace: seq<Action>): (r: seq<byte>)
    ensures |r| == |flash|
    decreases |trace|
  {
    if trace == [] then flash
    else Perform(cell, Run(cell, flash, trace[..|trace| - 1]), trace[|trace| - 1])
  }

  lemma RunAppend(cell: Cell, flash: seq<byte>, trace: seq<Action>, act: Action)
    ensures Run(cell, flash, trace + [act]) == Perform(cell, Run(cell, flash, trace), act)
  {
  }

  /** Clearing bits of an erased cell stores the byte exactly. */
  lemma ErasedCellTakesByte(cell: Cell, b: byte)
    ensures cell.Program(ERASED, b) == b
  {
    AndAllOnes(b, 8, 256);
  }

  lemma {:induction false} AndAllOnes(b: nat, bits: nat, power: nat)
    requires power == Power2(bits) && b < power
    ensures And8(power - 1, b, bits) == b
  {
    if bits > 0 {
      assert (power - 1) / 2 == power / 2 - 1 && (power - 1) % 2 == 1;
      assert power / 2 == Power2(bits - 1) && b / 2 < power / 2;
      AndAllOnes(b / 2, bits - 1, power / 2);
      hide Power2;
      assert And8(power - 1, b, bits) == 2 * (b / 2) + (if b % 2 == 1 then 1 else 0);
    }
  }

  /** Bit `i` of a number. */
  function Bit(a: nat, i: nat): nat {
    if i == 0 then a % 2 else Bit(a / 2, i - 1)
  }

  /** A bit of the conjunction is set exactly when it is set in both. */
  lemma {:induction false} AndBits(a: nat, b: nat, bits: nat, i: nat)
    requires i < bits
    ensures Bit(And8(a, b, bits), i) == Bit(a, i) * Bit(b, i)
  {
    var rest := And8(a / 2, b / 2, bits - 1);
    assert And8(a, b, bits) / 2 == rest;
    if i > 0 {
      AndBits(a / 2, b / 2, bits - 1, i - 1);
    }
  }

  function Power2(n: nat): nat {
    if n == 0 then 1 else 2 * Power2(n - 1)
  }
}
