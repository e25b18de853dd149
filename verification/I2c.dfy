/** The bit-banged I2C master (RPi4I2C.cpp), the trace it leaves on the two wires, and the slave's view of
    that trace (NXP UM10204, sections 3.1.3 to 3.1.6). */
module I2c {
  import opened Words
  import opened Gpio

  // ----- the wires as a slave sees them -----

  datatype Sample = Sample(scl: bool, sda: bool)

  /** A change of SDA while SCL is high is a START or a STOP; a rising SCL clocks a bit. */
  datatype Event = Start | Stop | Bit(b: bool)

  function EventOf(p: Sample, q: Sample): seq<Event>
  {
    if p.scl && q.scl && p.sda && !q.sda then [Start]
    else if p.scl && q.scl && !p.sda && q.sda then [Stop]
    else if !p.scl && q.scl then [Bit(q.sda)]
    else []
  }

  function Events(trace: seq<Sample>): seq<Event>
  {
    if |trace| < 2 then []
    else Events(trace[..|trace| - 1]) + EventOf(trace[|trace| - 2], trace[|trace| - 1])
  }

  lemma EventsSnoc(trace: seq<Sample>, s: Sample)
    requires trace != []
    ensures Events(trace + [s]) == Events(trace) + EventOf(trace[|trace| - 1], s)
  {
    assert (trace + [s])[..|trace|] == trace;
  }

  function BitEvents(bits: seq<bool>): (events: seq<Event>)
    ensures |events| == |bits| && forall i :: 0 <= i < |bits| ==> events[i] == Bit(bits[i])
  {
    seq(|bits|, i requires 0 <= i < |bits| => Bit(bits[i]))
  }

  lemma BitEventsSnoc(bits: seq<bool>, b: bool)
    ensures BitEvents(bits + [b]) == BitEvents(bits) + [Bit(b)]
  {
  }

  /** The bit the write loop puts on the wire in turn i. */
  lemma ShiftedBit(data: Byte, i: nat)
    requires i < 8
    ensures (BitAnd(Up(data, i), 0x80) != 0) == Bits(data, 8)[i]
  {
    hide Up, Down, BitAnd, Bits, Low;
    var d := Down(data, 7 - i);
    UpSmall(1);
    BitAndShifted(Up(data, i), 1, 7);
    DownOfUp(data, i, 7);
    BitAndLow(d, 1);
    LowOne(d);
    UpSmall(d % 2);
    BitsSplit(data, 8, i + 1);
    LastBit(d, i + 1);
    assert Bits(data, 8)[i] == Bits(data, 8)[..i + 1][i];
  }

  lemma LowOne(d: nat)
    ensures Low(d, 1) == d % 2
  {
  }

  lemma LastBit(d: nat, n: nat)
    requires n > 0
    ensures Bits(d, n)[n - 1] == (d % 2 == 1)
  {
  }

  lemma {:induction false} DownOfUp(a: nat, i: nat, k: nat)
    requires i <= k
    ensures Down(Up(a, i), k) == Down(a, k - i)
  {
    if i > 0 {
      DownOfUp(a, i - 1, k - 1);
    }
  }

  const SDA: Pin := 2
  const SCL: Pin := 3

  // ----- the driver -----

  class Driver {
    const gpio: Registers
    /** What the slave will put on SDA for each clock pulse at which the master listens. */
    const answer: nat -> bool
    var asked: nat
    var line: bool
    ghost var trace: seq<Sample>

    ghost predicate Valid()
      reads this, gpio
    {
      && gpio.Valid() && gpio.Mode(SCL) == OUTPUT && (gpio.Mode(SDA) == OUTPUT || gpio.Mode(SDA) == INPUT)
      && trace != [] && trace[|trace| - 1] == Sample(Scl(), Sda())
    }

    function Scl(): bool
      reads this, gpio
      requires gpio.Valid()
    {
      gpio.Level(SCL)
    }

    /** Whether the master drives SDA. */
    function Driving(): bool
      reads this, gpio
      requires gpio.Valid()
    {
      gpio.Mode(SDA) == OUTPUT
    }

    function Sda(): bool
      reads this, gpio
      requires gpio.Valid()
    {
      if Driving() then gpio.Level(SDA) else line
    }

    ghost function Log(): seq<Event>
      reads this
    {
      Events(trace)
    }

    ghost predicate Idle()
      reads this, gpio
    {
      Valid() && Driving() && Scl() && Sda()
    }

    /** Between two clock pulses of a transfer. */
    ghost predicate Busy()
      reads this, gpio
    {
      Valid() && Driving() && !Scl()
    }

    /** The pins as the board leaves them are arbitrary; init drives both wires high. */
    constructor (gpio: Registers, answer: nat -> bool, line: bool)
      requires gpio.Valid()
      modifies gpio
      ensures this.gpio == gpio && this.answer == answer && asked == 0
      ensures Idle() && Log() == []
    {
      this.gpio, this.answer, asked, this.line := gpio, answer, 0, line;
      new;
      gpio.PinMode(SDA, OUTPUT);
      gpio.PinMode(SCL, OUTPUT);
      gpio.DigitalWrite(SDA, true);
      gpio.DigitalWrite(SCL, true);
      trace := [Sample(true, true)];
    }

    method SetSda(val: bool)
      requires Valid()
      modifies this`trace, gpio
      ensures Valid() && Driving() == old(Driving()) && Scl() == old(Scl())
      ensures Driving() ==> Sda() == val
      ensures Log() == old(Log()) + EventOf(Sample(old(Scl()), old(Sda())), Sample(Scl(), Sda()))
    {
      gpio.DigitalWrite(SDA, val);
      EventsSnoc(trace, Sample(Scl(), Sda()));
      trace := trace + [Sample(Scl(), Sda())];
    }

    method SetScl(val: bool)
      requires Valid()
      modifies this`trace, gpio
      ensures Valid() && Driving() == old(Driving()) && Scl() == val && Sda() == old(Sda())
      ensures Log() == old(Log()) + EventOf(Sample(old(Scl()), old(Sda())), Sample(Scl(), Sda()))
    {
      gpio.DigitalWrite(SCL, val);
      EventsSnoc(trace, Sample(Scl(), Sda()));
      trace := trace + [Sample(Scl(), Sda())];
    }

    method SetMode(mode: bv32)
      requires Valid() && (mode == INPUT || mode == OUTPUT)
      modifies this`trace, gpio
      ensures Valid() && Driving() == (mode == OUTPUT) && Scl() == old(Scl()) && (!Driving() ==> Sda() == line)
      ensures Log() == old(Log()) + EventOf(Sample(old(Scl()), old(Sda())), Sample(Scl(), Sda()))
    {
      gpio.PinMode(SDA, mode);
      EventsSnoc(trace, Sample(Scl(), Sda()));
      trace := trace + [Sample(Scl(), Sda())];
    }

    /** The slave's turn, while SCL is low: it puts its next bit on SDA. */
    method SlaveDrives()
      requires Valid() && !Driving() && !Scl()
      modifies this`trace, this`asked, this`line
      ensures Valid() && !Driving() && !Scl() && Sda() == answer(old(asked)) && asked == old(asked) + 1
      ensures Log() == old(Log())
    {
      line := answer(asked);
      asked := asked + 1;
      EventsSnoc(trace, Sample(Scl(), Sda()));
      trace := trace + [Sample(Scl(), Sda())];
    }

    method SendStart()
      requires Idle()
      modifies this`trace, gpio
      ensures Busy() && Log() == old(Log()) + [Start]
    {
      hide Events;
      SetSda(true);
      SetScl(true);
      SetSda(false);
      SetScl(false);
    }

    /** The rising clock before a STOP looks like one more bit; a slave drops it. */
    method SendStop()
      requires Busy()
      modifies this`trace, gpio
      ensures Idle() && Log() == old(Log()) + [Bit(false), Stop]
    {
      hide Events;
      SetSda(false);
      SetScl(true);
      SetSda(true);
    }

    method SendNack()
      requires Busy()
      modifies this`trace, gpio
      ensures Busy() && Log() == old(Log()) + [Bit(true)]
    {
      hide Events;
      SetSda(true);
      SetScl(true);
      SetScl(false);
      SetSda(false);
    }

    /** One turn of the write loop. */
    method ClockOut(b: bool)
      requires Busy()
      modifies this`trace, gpio
      ensures Busy() && Log() == old(Log()) + [Bit(b)]
    {
      hide Events;
      if b {
        SetSda(true);
      } else {
        SetSda(false);
      }
      SetScl(true);
      SetScl(false);
    }

    /** One clock pulse at which the master listens: the level of SDA while SCL is high. */
    method ClockIn() returns (b: bool)
      requires Valid() && !Driving() && !Scl()
      modifies this`trace, this`asked, this`line, gpio
      ensures Valid() && !Driving() && !Scl() && asked == old(asked) + 1 && b == answer(old(asked))
      ensures Log() == old(Log()) + [Bit(b)]
    {
      hide Events;
      SlaveDrives();
      SetScl(true);
      b := Sda();
      SetScl(false);
    }

    /** The eight bits of `data`, then the slave's acknowledge bit; the result is 1 for an ACK. */
    method Write(data: Byte) returns (ack: int)
      requires Busy()
      modifies this`trace, this`asked, this`line, gpio
      ensures Busy() && asked == old(asked) + 1
      ensures Log() == old(Log()) + BitEvents(Bits(data, 8) + [answer(old(asked))])
      ensures ack == if answer(old(asked)) then 0 else 1
    {
      hide Events, BitEvents, Bits, Up, BitAnd;
      NoBits();
      assert Bits(data, 8)[..0] == [];
      for i := 0 to 8
        invariant Busy() && asked == old(asked)
        invariant Log() == old(Log()) + BitEvents(Bits(data, 8)[..i])
      {
        ShiftedBit(data, i);
        ClockOut(BitAnd(Up(data, i), 0x80) != 0);
        assert Bits(data, 8)[..i + 1] == Bits(data, 8)[..i] + [Bits(data, 8)[i]];
        BitEventsSnoc(Bits(data, 8)[..i], Bits(data, 8)[i]);
      }
      assert Bits(data, 8)[..8] == Bits(data, 8);
      SetMode(INPUT);
      var level := ClockIn();
      ack := if level then 0 else 1;
      SetMode(OUTPUT);
      BitEventsSnoc(Bits(data, 8), answer(old(asked)));
    }

    /** Eight bits from the slave. */
    method Read() returns (data: Byte)
      requires Busy()
      modifies this`trace, this`asked, this`line, gpio
      ensures Busy() && asked == old(asked) + 8
      ensures Log() == old(Log()) + BitEvents(Answers(answer, old(asked), 8))
      ensures data == Value(Answers(answer, old(asked), 8))
    {
      hide Events, BitEvents, Answers, Value;
      NoBits();
      AnswersSnoc(answer, asked, 0);
      data := 0;
      SetMode(INPUT);
      for i := 0 to 8
        invariant Valid() && !Driving() && !Scl() && asked == old(asked) + i
        invariant Log() == old(Log()) + BitEvents(Answers(answer, old(asked), i))
        invariant data == Value(Answers(answer, old(asked), i)) < Pow2(i)
      {
        AnswersSnoc(answer, old(asked), i);
        BitEventsSnoc(Answers(answer, old(asked), i), answer(old(asked) + i));
        ShiftIn(data, i);
        var level := ClockIn();
        data := 2 * data % 256;
        if level {
          data := BitOr(data, 1);
        }
      }
      SetMode(OUTPUT);
    }
  }

  lemma NoBits()
    ensures BitEvents([]) == []
  {
  }

  function Answers(answer: nat -> bool, from: nat, n: nat): (bits: seq<bool>)
    ensures |bits| == n
  {
    if n == 0 then [] else Answers(answer, from, n - 1) + [answer(from + n - 1)]
  }

  lemma AnswersSnoc(answer: nat -> bool, from: nat, n: nat)
    ensures Answers(answer, from, n + 1) == Answers(answer, from, n) + [answer(from + n)]
    ensures Value(Answers(answer, from, n + 1)) ==
            2 * Value(Answers(answer, from, n)) + (if answer(from + n) then 1 else 0)
    ensures Answers(answer, from, 0) == [] && Value([]) == 0 && Pow2(0) == 1
  {
    var a := Answers(answer, from, n);
    assert (a + [answer(from + n)])[..n] == a;
  }

  lemma SmallPower(i: nat)
    requires i <= 8
    ensures Pow2(i) <= 256
  {
    hide Up;
    UpSmall(1);
  }

  /** Up to the eighth bit nothing is shifted out. */
  lemma ShiftIn(data: nat, i: nat)
    requires data < Pow2(i) && i < 8
    ensures 2 * data % 256 == 2 * data && BitOr(2 * data, 1) == 2 * data + 1 && 2 * data + 1 < Pow2(i + 1)
    ensures 2 * data + 1 < 256
  {
    hide Up, Low, BitOr;
    LowOne(2 * data);
    Pow2Values();
    BitOrIsAdd(2 * data, 1, 1);
    UpStep(1, i + 1);
    UpUp(1, i + 1, 8 - (i + 1));
    SmallPower(i + 1);
  }
}
