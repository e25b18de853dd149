/** The GPIO driver (RPi4GPIO.cpp) over the registers of the chip: three function-select bits a pin, ten
    pins a register, and one output bit a pin, which writing ones to GPSET sets and writing ones to
    GPCLR clears. */
module Gpio {

  const INPUT: bv32 := 0
  const OUTPUT: bv32 := 1

  /** The header exposes pins 0 to 53. */
  type Pin = p: bv6 | p < 54

  /** Clears the bits of the field that the mode lacks, then sets those it has. */
  function Select(reg: bv32, offset: bv5, mode: bv32): bv32
  {
    (reg & !((7 & !mode) << offset)) | ((7 & mode) << offset)
  }

  function Field(reg: bv32, offset: bv5): bv32
  {
    (reg >> offset) & 7
  }

  function BitOf(reg: bv32, offset: bv5): bool
  {
    (reg >> offset) & 1 == 1
  }

  /** Where a pin's field begins in its register: ten pins share one. */
  function FieldOffset(pin: Pin): bv5
  {
    ((pin % 10) * 3) as bv5
  }

  /** Where a pin's bit stands in its register. */
  function BitOffset(pin: Pin): bv5
  {
    (pin % 32) as bv5
  }

  /** Selecting a function for a pin sets its own three bits to the mode and leaves those of the other
      pins of the register alone. */
  lemma SelectIs(reg: bv32, p: Pin, q: Pin, mode: bv32)
    requires p / 10 == q / 10
    ensures Field(Select(reg, FieldOffset(p), mode), FieldOffset(q)) ==
            if p == q then mode & 7 else Field(reg, FieldOffset(q))
  {
  }

  /** What a write of one bit to GPSET, or to GPCLR, makes of a latch. */
  function Written(reg: bv32, offset: bv5, val: bool): bv32
  {
    if val then reg | (1 << offset) else reg & !(1 << offset)
  }

  lemma WrittenIs(reg: bv32, p: Pin, q: Pin, val: bool)
    requires p / 32 == q / 32
    ensures BitOf(Written(reg, BitOffset(p), val), BitOffset(q)) ==
            if p == q then val else BitOf(reg, BitOffset(q))
  {
  }

  /** The bits k to k + 2 of the register, k three times the last digit of the pin, become the mode. */
  lemma SelectBits(reg: bv32, pin: Pin, k: bv5, mode: bv32)
    requires k == ((pin % 10) * 3) as bv5
    ensures Select(reg, FieldOffset(pin), mode) == (reg & !(7 << k)) | ((mode & 7) << k)
  {
    assert FieldOffset(pin) == k;
    hide FieldOffset;
    SelectAt(reg, k, mode);
    hide Select;
  }

  lemma SelectAt(reg: bv32, k: bv5, mode: bv32)
    ensures Select(reg, k, mode) == (reg & !(7 << k)) | ((mode & 7) << k)
  {
  }

  /** The bit k of the latch, k the pin modulo 32, becomes the level. */
  lemma WrittenBits(reg: bv32, pin: Pin, k: bv5, val: bool)
    requires k == (pin % 32) as bv5
    ensures Written(reg, BitOffset(pin), val) == if val then reg | (1 << k) else reg & !(1 << k)
  {
    assert BitOffset(pin) == k;
    hide BitOffset;
    WrittenAt(reg, k, val);
    hide Written;
  }

  lemma WrittenAt(reg: bv32, k: bv5, val: bool)
    ensures Written(reg, k, val) == if val then reg | (1 << k) else reg & !(1 << k)
  {
  }

  class Registers {
    var gpfsel: seq<bv32>
    /** What GPSET and GPCLR have left in the output latches. */
    var latch: seq<bv32>

    ghost predicate Valid()
      reads this
    {
      |gpfsel| == 6 && |latch| == 2
    }

    function Mode(pin: Pin): bv32
      reads this
      requires Valid()
    {
      Field(gpfsel[(pin / 10) as int], FieldOffset(pin))
    }

    function Level(pin: Pin): bool
      reads this
      requires Valid()
    {
      BitOf(latch[(pin / 32) as int], BitOffset(pin))
    }

    method PinMode(pin: Pin, mode: bv32)
      requires Valid()
      modifies this`gpfsel
      ensures Valid() && Mode(pin) == mode & 7
      ensures forall q: Pin :: q != pin ==> Mode(q) == old(Mode(q))
      ensures var i := (pin / 10) as int; gpfsel == old(gpfsel)[i := Select(old(gpfsel)[i], FieldOffset(pin), mode)]
    {
      hide Field, FieldOffset, Select;
      var reg := (pin / 10) as int;
      forall q: Pin | q / 10 == pin / 10
        ensures Field(Select(gpfsel[reg], FieldOffset(pin), mode), FieldOffset(q)) ==
                if pin == q then mode & 7 else Field(gpfsel[reg], FieldOffset(q))
      {
        SelectIs(gpfsel[reg], pin, q, mode);
      }
      gpfsel := gpfsel[reg := Select(gpfsel[reg], FieldOffset(pin), mode)];
    }

    method DigitalWrite(pin: Pin, val: bool)
      requires Valid()
      modifies this`latch
      ensures Valid() && Level(pin) == val
      ensures forall q: Pin :: q != pin ==> Level(q) == old(Level(q))
      ensures var i := (pin / 32) as int; latch == old(latch)[i := Written(old(latch)[i], BitOffset(pin), val)]
    {
      hide BitOf, BitOffset, Written;
      var reg := (pin / 32) as int;
      forall q: Pin | q / 32 == pin / 32
        ensures BitOf(Written(latch[reg], BitOffset(pin), val), BitOffset(q)) ==
                if pin == q then val else BitOf(latch[reg], BitOffset(q))
      {
        WrittenIs(latch[reg], pin, q, val);
      }
      latch := latch[reg := Written(latch[reg], BitOffset(pin), val)];
    }
  }
}
