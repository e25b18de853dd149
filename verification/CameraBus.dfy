/** The register transactions of the camera (Camera.cpp) over the I2C master, as a slave decodes them
    from the wires. */
module CameraBus {
  import opened Words
  import opened I2c

  // ----- an ideal slave -----

  datatype Entry = Begin | Octet(value: Byte, ack: bool) | End | Broken

  /** What a slave has heard: whether it is between START and STOP, the bits of the octet under way, and
      the log.  A STOP may cut off one bit, the clock pulse it needs itself, and no more. */
  datatype Slave = Slave(active: bool, bits: seq<bool>, log: seq<Entry>)

  const SILENT := Slave(false, [], [])

  function Hear(s: Slave, e: Event): Slave
  {
    match e
    case Start => Slave(true, [], s.log + [if |s.bits| == 0 then Begin else Broken])
    case Stop => Slave(false, [], s.log + [if s.active && |s.bits| <= 1 then End else Broken])
    case Bit(b) =>
      if !s.active then s
      else if |s.bits| < 8 then s.(bits := s.bits + [b])
      else Slave(true, [], s.log + [Octet(Value(s.bits) % 256, !b)])
  }

  function HearAll(s: Slave, events: seq<Event>): Slave
  {
    if events == [] then s else Hear(HearAll(s, events[..|events| - 1]), events[|events| - 1])
  }

  lemma HearSnoc(s: Slave, events: seq<Event>, e: Event)
    ensures HearAll(s, events + [e]) == Hear(HearAll(s, events), e)
  {
    assert (events + [e])[..|events|] == events;
  }

  lemma {:induction false} HearConcat(s: Slave, a: seq<Event>, b: seq<Event>)
    ensures HearAll(s, a + b) == HearAll(HearAll(s, a), b)
  {
    if b == [] {
      assert a + b == a;
    } else {
      var n := |b| - 1;
      HearConcat(s, a, b[..n]);
      HearSnoc(s, a + b[..n], b[n]);
      assert a + b[..n] + [b[n]] == a + b;
    }
  }

  lemma HearNothing(s: Slave)
    ensures HearAll(s, []) == s
  {
  }

  lemma EarlyBit(s: Slave, b: bool)
    requires s.active && |s.bits| < 8
    ensures Hear(s, Bit(b)) == s.(bits := s.bits + [b])
  {
  }

  lemma {:induction false} HearBits(s: Slave, bits: seq<bool>)
    requires s.active && s.bits == [] && |bits| <= 8
    ensures HearAll(s, BitEvents(bits)) == s.(bits := bits)
  {
    hide HearAll, BitEvents, Hear;
    if bits == [] {
      HearNothing(s);
      NoBits();
    } else {
      var n := |bits| - 1;
      HearBits(s, bits[..n]);
      EarlyBit(s.(bits := bits[..n]), bits[n]);
      assert bits == bits[..n] + [bits[n]];
      BitEventsSnoc(bits[..n], bits[n]);
      HearSnoc(s, BitEvents(bits[..n]), Bit(bits[n]));
    }
  }

  /** Nine clock pulses are one octet and its acknowledge bit. */
  lemma HearOctet(s: Slave, bits: seq<bool>, nack: bool)
    requires s.active && s.bits == [] && |bits| == 8
    ensures Value(bits) < 256
    ensures HearAll(s, BitEvents(bits + [nack])) == s.(log := s.log + [Octet(Value(bits), !nack)])
  {
    hide HearAll, BitEvents, Value, Up, Hear;
    Pow2Values();
    HearBits(s, bits);
    BitEventsSnoc(bits, nack);
    HearSnoc(s, BitEvents(bits), Bit(nack));
    NinthBit(s.(bits := bits), nack);
  }

  lemma NinthBit(s: Slave, nack: bool)
    requires s.active && |s.bits| == 8 && Value(s.bits) < 256
    ensures Hear(s, Bit(nack)) == Slave(true, [], s.log + [Octet(Value(s.bits), !nack)])
  {
    hide Value;
  }

  // ----- transactions -----

  const ADDRESS: Byte := 0x78

  /** Octets sent until one is not acknowledged; `answer(from + i)` is SDA at the i-th acknowledge bit, low
      for an ACK. */
  function Octets(bytes: seq<Byte>, answer: nat -> bool, from: nat): seq<Entry>
  {
    if bytes == [] then []
    else [Octet(bytes[0], !answer(from))] + (if answer(from) then [] else Octets(bytes[1..], answer, from + 1))
  }

  predicate AllAcked(n: nat, answer: nat -> bool, from: nat)
  {
    forall i :: from <= i < from + n ==> !answer(i)
  }

  /** How many octets are sent. */
  function Asked(n: nat, answer: nat -> bool, from: nat): nat
  {
    if n == 0 then 0 else if answer(from) then 1 else 1 + Asked(n - 1, answer, from + 1)
  }

  function AddressBytes(reg: nat): seq<Byte>
  {
    [ADDRESS, reg / 256 % 256, reg % 256]
  }

  function WriteBytes(reg: nat, val: nat): seq<Byte>
  {
    [ADDRESS, reg / 256 % 256, reg % 256, val % 256]
  }

  function WriteEntries(reg: nat, val: nat, answer: nat -> bool, from: nat): seq<Entry>
  {
    [Begin] + Octets(WriteBytes(reg, val), answer, from) + [End]
  }

  /** One octet from the slave, which the master refuses so that the slave stops sending. */
  function ReadBackEntries(answer: nat -> bool, from: nat): seq<Entry>
  {
    [Begin, Octet(ADDRESS + 1, !answer(from))] +
    (if answer(from) then [] else [Octet(Value(Answers(answer, from + 1, 8)) % 256, false)]) + [End]
  }

  /** Setting the register address in one transfer; if that is acknowledged, reading in a second. */
  function ReadEntries(reg: nat, answer: nat -> bool, from: nat): seq<Entry>
  {
    [Begin] + Octets(AddressBytes(reg), answer, from) + [End] +
    (if AllAcked(3, answer, from) then ReadBackEntries(answer, from + 3) else [])
  }

  class Camera {
    const driver: Driver

    constructor (driver: Driver)
      ensures this.driver == driver
    {
      this.driver := driver;
    }

    ghost function Heard(): Slave
      reads driver
    {
      HearAll(SILENT, driver.Log())
    }

    ghost predicate Idle()
      reads driver, driver.gpio
    {
      driver.Idle() && !Heard().active && Heard().bits == []
    }

    ghost predicate Busy()
      reads driver, driver.gpio
    {
      driver.Busy() && Heard().active && Heard().bits == []
    }

    method SendStart()
      requires Idle()
      modifies driver`trace, driver.gpio
      ensures Busy() && Heard().log == old(Heard()).log + [Begin]
    {
      ghost var log := driver.Log();
      driver.SendStart();
      HearSnoc(SILENT, log, Start);
    }

    method SendStop()
      requires Busy()
      modifies driver`trace, driver.gpio
      ensures Idle() && Heard().log == old(Heard()).log + [End]
    {
      ghost var log := driver.Log();
      driver.SendStop();
      HearSnoc(SILENT, log, Bit(false));
      HearSnoc(SILENT, log + [Bit(false)], Stop);
      assert log + [Bit(false), Stop] == log + [Bit(false)] + [Stop];
    }

    method Write(data: Byte) returns (ack: int)
      requires Busy()
      modifies driver`trace, driver`asked, driver`line, driver.gpio
      ensures Busy() && driver.asked == old(driver.asked) + 1
      ensures ack == if driver.answer(old(driver.asked)) then 0 else 1
      ensures Heard().log == old(Heard()).log + [Octet(data, ack == 1)]
    {
      ghost var log, nack := driver.Log(), driver.answer(driver.asked);
      ack := driver.Write(data);
      HearConcat(SILENT, log, BitEvents(Bits(data, 8) + [nack]));
      HearOctet(old(Heard()), Bits(data, 8), nack);
      Pow2Values();
      ValueOfBits(data, 8);
    }

    /** An octet from the slave, refused. */
    method ReadNack() returns (data: Byte)
      requires Busy()
      modifies driver`trace, driver`asked, driver`line, driver.gpio
      ensures Busy() && driver.asked == old(driver.asked) + 8
      ensures data == Value(Answers(driver.answer, old(driver.asked), 8))
      ensures Heard().log == old(Heard()).log + [Octet(data, false)]
    {
      ghost var log, bits := driver.Log(), Answers(driver.answer, driver.asked, 8);
      data := driver.Read();
      driver.SendNack();
      BitEventsSnoc(bits, true);
      assert log + BitEvents(bits) + [Bit(true)] == log + BitEvents(bits + [true]);
      HearConcat(SILENT, log, BitEvents(bits + [true]));
      HearOctet(old(Heard()), bits, true);
    }

    /** The steps both transactions begin with, written out in the source: send octets in turn; at the
        first one refused, send a STOP and give up. */
    method SendOctets(bytes: seq<Byte>) returns (ok: bool)
      requires Busy()
      modifies driver`trace, driver`asked, driver`line, driver.gpio
      ensures ok == AllAcked(|bytes|, driver.answer, old(driver.asked)) && (if ok then Busy() else Idle())
      ensures driver.asked == old(driver.asked) + Asked(|bytes|, driver.answer, old(driver.asked))
      ensures Heard().log ==
              old(Heard()).log + Octets(bytes, driver.answer, old(driver.asked)) + (if ok then [] else [End])
    {
      hide Heard, Octets, Asked;
      ghost var start, log := driver.asked, Heard().log;
      var i := 0;
      OctetsFrom(bytes, 0, driver.answer, start, log);
      while i < |bytes|
        invariant 0 <= i <= |bytes| && Busy()
        invariant driver.asked == start + i && AllAcked(i, driver.answer, start)
        invariant Heard().log + Octets(bytes[i..], driver.answer, start + i) ==
                  log + Octets(bytes, driver.answer, start)
        invariant Asked(|bytes|, driver.answer, start) == i + Asked(|bytes| - i, driver.answer, start + i)
      {
        OctetsFrom(bytes, i, driver.answer, start, Heard().log);
        var ack := Write(bytes[i]);
        if ack == 0 {
          SendStop();
          return false;
        }
        i := i + 1;
      }
      OctetsFrom(bytes, i, driver.answer, start, Heard().log);
      return true;
    }

    /** wrSensorReg16_8: whatever the slave acknowledges, it hears a START, the octets up to the first one
        it refuses, and a STOP; the result is 1 exactly when it refused none. */
    method WrSensorReg16_8(regID: nat, regDat: nat) returns (ok: int)
      requires Idle()
      modifies driver`trace, driver`asked, driver`line, driver.gpio
      ensures Idle() && driver.asked == old(driver.asked) + Asked(4, driver.answer, old(driver.asked))
      ensures Heard().log == old(Heard()).log + WriteEntries(regID, regDat, driver.answer, old(driver.asked))
      ensures ok == if AllAcked(4, driver.answer, old(driver.asked)) then 1 else 0
    {
      hide Heard, Octets, Asked, AllAcked;
      SendStart();
      var acked := SendOctets([ADDRESS, regID / 256 % 256, regID % 256, regDat % 256]);
      if !acked {
        return 0;
      }
      SendStop();
      return 1;
    }

    /** rdSensorReg16_8: the register address in one transfer, then its value in another; `data` is what
        the slave put on the wire.  For the device d behind the wires that is the register asked for. */
    method RdSensorReg16_8(regID: nat, ghost d: Device) returns (ok: int, data: Byte)
      requires Idle()
      modifies driver`trace, driver`asked, driver`line, driver.gpio
      ensures Idle()
      ensures Heard().log == old(Heard()).log + ReadEntries(regID, driver.answer, old(driver.asked))
      ensures ok == if AllAcked(4, driver.answer, old(driver.asked)) then 1 else 0
      ensures ok == 1 ==> data == Value(Answers(driver.answer, old(driver.asked) + 4, 8))
      ensures old(Heard()).log <= Heard().log
      ensures Reads(d, Heard().log[|old(Heard()).log|..], regID, ok, data)
    {
      hide Heard, Idle, Busy, Octets, Answers, Value, AllAcked, Asked;
      hide ReadBackEntries, ReadEntries, AddressBytes, Reads;
      data := 0;
      ghost var from, log := driver.asked, Heard().log;
      ghost var entries := ReadEntries(regID, driver.answer, from);
      assert (log + entries)[|log|..] == entries;
      ReadEntriesAre(regID, driver.answer, from, log);
      AskedThree(driver.answer, from);
      SendStart();
      var acked := SendOctets([ADDRESS, regID / 256 % 256, regID % 256]);
      if !acked {
        ReadsIf(d, regID, driver.answer, from, 0, data);
        return 0, data;
      }
      SendStop();
      ok, data := ReadBack();
      ReadsIf(d, regID, driver.answer, from, ok, data);
    }

    /** The second transfer of rdSensorReg16_8. */
    method ReadBack() returns (ok: int, data: Byte)
      requires Idle()
      modifies driver`trace, driver`asked, driver`line, driver.gpio
      ensures Idle() && Heard().log == old(Heard()).log + ReadBackEntries(driver.answer, old(driver.asked))
      ensures ok == if driver.answer(old(driver.asked)) then 0 else 1
      ensures ok == 1 ==> data == Value(Answers(driver.answer, old(driver.asked) + 1, 8))
    {
      hide Heard, Idle, Busy, Answers, Value;
      data := 0;
      SendStart();
      var ack := Write(ADDRESS + 1);
      if ack == 0 {
        SendStop();
        return 0, data;
      }
      data := ReadNack();
      SendStop();
      return 1, data;
    }
  }

  /** What is still to be heard from octet i on. */
  lemma OctetsFrom(bytes: seq<Byte>, i: nat, answer: nat -> bool, start: nat, log: seq<Entry>)
    requires i <= |bytes|
    ensures bytes[0..] == bytes
    ensures i < |bytes| ==>
              && Octets(bytes[i..], answer, start + i) ==
                 [Octet(bytes[i], !answer(start + i))] +
                 (if answer(start + i) then [] else Octets(bytes[i + 1..], answer, start + i + 1))
              && log + Octets(bytes[i..], answer, start + i) ==
                 log + [Octet(bytes[i], !answer(start + i))] +
                 (if answer(start + i) then [] else Octets(bytes[i + 1..], answer, start + i + 1))
              && Asked(|bytes| - i, answer, start + i) ==
                 if answer(start + i) then 1 else 1 + Asked(|bytes| - i - 1, answer, start + i + 1)
    ensures i == |bytes| ==> Octets(bytes[i..], answer, start + i) == [] && Asked(0, answer, start + i) == 0
  {
    if i < |bytes| {
      assert bytes[i..][1..] == bytes[i + 1..];
    }
  }

  /** The log of a read behind what was logged before, with and without the second transfer. */
  lemma ReadEntriesAre(reg: nat, answer: nat -> bool, from: nat, log: seq<Entry>)
    ensures AddressBytes(reg) == [ADDRESS, reg / 256 % 256, reg % 256]
    ensures log + ReadEntries(reg, answer, from) ==
            log + [Begin] + Octets(AddressBytes(reg), answer, from) + [End] +
            (if AllAcked(3, answer, from) then ReadBackEntries(answer, from + 3) else [])
  {
    hide Octets, AllAcked, ReadBackEntries;
  }

  lemma AskedThree(answer: nat -> bool, from: nat)
    ensures AllAcked(3, answer, from) ==> Asked(3, answer, from) == 3
    ensures AllAcked(4, answer, from) == (AllAcked(3, answer, from) && !answer(from + 3))
  {
    if AllAcked(3, answer, from) {
      AskedAll(3, answer, from);
    }
  }

  lemma {:induction false} AskedAll(n: nat, answer: nat -> bool, from: nat)
    requires AllAcked(n, answer, from)
    ensures Asked(n, answer, from) == n
  {
    if n > 0 {
      AskedAll(n - 1, answer, from + 1);
    }
  }

  // ----- register lists -----

  datatype SensorReg = SensorReg(reg: nat, val: nat)

  const SENTINEL := SensorReg(0xffff, 0xff)

  /** The list up to and including its first sentinel. */
  function UpToSentinel(list: seq<SensorReg>): (r: seq<SensorReg>)
    requires SENTINEL in list
    ensures r <= list && r != [] && r[|r| - 1] == SENTINEL && forall i :: 0 <= i < |r| - 1 ==> r[i] != SENTINEL
  {
    if list[0] == SENTINEL then [list[0]] else [list[0]] + UpToSentinel(list[1..])
  }

  /** What the slave hears of a list, entry after entry, and how many answers it gives. */
  function ListEntries(list: seq<SensorReg>, answer: nat -> bool, from: nat): seq<Entry>
  {
    if list == [] then []
    else
      var n := |list| - 1;
      ListEntries(list[..n], answer, from) +
      WriteEntries(list[n].reg, list[n].val, answer, from + ListAsked(list[..n], answer, from))
  }

  function ListAsked(list: seq<SensorReg>, answer: nat -> bool, from: nat): nat
  {
    if list == [] then 0
    else
      var n := |list| - 1;
      var k := ListAsked(list[..n], answer, from);
      k + Asked(4, answer, from + k)
  }

  predicate ListAcked(list: seq<SensorReg>, answer: nat -> bool, from: nat)
  {
    list == [] ||
    var n := |list| - 1;
    ListAcked(list[..n], answer, from) && AllAcked(4, answer, from + ListAsked(list[..n], answer, from))
  }

  lemma ListNothing(list: seq<SensorReg>, answer: nat -> bool, from: nat)
    ensures ListEntries(list[..0], answer, from) == [] && ListAsked(list[..0], answer, from) == 0
    ensures ListAcked(list[..0], answer, from)
  {
  }

  lemma ListSnoc(list: seq<SensorReg>, n: nat, answer: nat -> bool, from: nat)
    requires n < |list|
    ensures var k := from + ListAsked(list[..n], answer, from);
            && ListEntries(list[..n + 1], answer, from)
               == ListEntries(list[..n], answer, from) + WriteEntries(list[n].reg, list[n].val, answer, k)
            && from + ListAsked(list[..n + 1], answer, from) == k + Asked(4, answer, k)
            && ListAcked(list[..n + 1], answer, from) == (ListAcked(list[..n], answer, from) && AllAcked(4, answer, k))
  {
    hide WriteEntries, Asked, AllAcked;
    assert list[..n + 1][..n] == list[..n];
  }

  /** wrSensorRegs16_8: every entry is written up to and including the sentinel, which is written too;
      the result is 1 exactly when everything was acknowledged. */
  method WrSensorRegs16_8(camera: Camera, list: seq<SensorReg>) returns (err: int)
    requires camera.Idle() && SENTINEL in list
    modifies camera.driver`trace, camera.driver`asked, camera.driver`line, camera.driver.gpio
    ensures camera.Idle()
    ensures var all := UpToSentinel(list); var from := old(camera.driver.asked); var answer := camera.driver.answer;
            && camera.Heard().log == old(camera.Heard()).log + ListEntries(all, answer, from)
            && err == (if ListAcked(all, answer, from) then 1 else 0)
  {
    hide Camera.Heard, Asked, AllAcked, WriteEntries, ListEntries, ListAsked, ListAcked, UpToSentinel;
    ghost var all, from, answer := UpToSentinel(list), camera.driver.asked, camera.driver.answer;
    err := 1;
    var regAddress, regValue := 0, 0;
    var next := 0;
    ListNothing(all, answer, from);
    while regAddress != 0xffff || regValue != 0xff
      invariant 0 <= next <= |all| && camera.Idle()
      invariant next == 0 ==> regAddress == 0
      invariant next > 0 ==> all[next - 1] == SensorReg(regAddress, regValue)
      invariant camera.driver.asked == from + ListAsked(all[..next], answer, from)
      invariant camera.Heard().log == old(camera.Heard()).log + ListEntries(all[..next], answer, from)
      invariant err == (if ListAcked(all[..next], answer, from) then 1 else 0)
      decreases |all| - next
    {
      ListSnoc(all, next, answer, from);
      regAddress, regValue := list[next].reg, list[next].val;
      var ok := camera.WrSensorReg16_8(regAddress, regValue);
      err := if err == 1 && ok == 1 then 1 else 0;
      next := next + 1;
    }
    assert all[..next] == all;
  }

  // ----- the slave's registers -----

  /** A slave at address 78 (hex) with 8-bit registers: the two acknowledged octets behind its address, high byte
      first, set its register pointer, and the octet behind them is stored there.  Address 79 asks for the register
      that was set. */
  datatype Device = Device(octets: seq<Byte>, pointer: nat, regs: map<nat, Byte>)

  function Obey(d: Device, e: Entry): Device
  {
    match e
    case Begin => d.(octets := [])
    case Octet(v, ack) =>
      if !ack then d
      else if d.octets == [] || d.octets[0] != 0x78 then d.(octets := d.octets + [v])
      else if |d.octets| == 2 then Device(d.octets + [v], (d.octets[1] as int) * 256 + v, d.regs)
      else if |d.octets| == 3 then Device(d.octets + [v], d.pointer, d.regs[d.pointer := v])
      else d.(octets := d.octets + [v])
    case End => d.(octets := [])
    case Broken => d
  }

  function ObeyAll(d: Device, log: seq<Entry>): Device
  {
    if log == [] then d else Obey(ObeyAll(d, log[..|log| - 1]), log[|log| - 1])
  }

  /** The device acknowledges its two addresses and every octet sent to it. */
  predicate Willing(d: Device, e: Entry)
  {
    match e
    case Octet(v, ack) => (if d.octets == [] then v == 0x78 || v == 0x79 else d.octets[0] == 0x78) ==> ack
    case _ => true
  }

  /** An octet that the device is asked for holds the bits of the register under its pointer. */
  predicate Truthful(d: Device, e: Entry)
  {
    match e
    case Octet(v, _) => d.octets != [] && d.octets[0] == 0x79 && d.pointer in d.regs ==> v == d.regs[d.pointer]
    case _ => true
  }

  ghost predicate AllWilling(d: Device, log: seq<Entry>)
  {
    forall k :: 0 <= k < |log| ==> Willing(ObeyAll(d, log[..k]), log[k])
  }

  ghost predicate AllTruthful(d: Device, log: seq<Entry>)
  {
    forall k :: 0 <= k < |log| ==> Truthful(ObeyAll(d, log[..k]), log[k])
  }

  lemma {:induction false} ObeyConcat(d: Device, a: seq<Entry>, b: seq<Entry>)
    ensures ObeyAll(d, a + b) == ObeyAll(ObeyAll(d, a), b)
  {
    if b == [] {
      assert a + b == a;
    } else {
      var n := |b| - 1;
      ObeyConcat(d, a, b[..n]);
      assert (a + b)[..|a + b| - 1] == a + b[..n];
    }
  }

  lemma ObeySnoc(d: Device, log: seq<Entry>, e: Entry)
    ensures ObeyAll(d, log + [e]) == Obey(ObeyAll(d, log), e)
  {
    assert (log + [e])[..|log|] == log;
  }

  lemma ObeyNothing(d: Device)
    ensures ObeyAll(d, []) == d
  {
  }

  lemma ThreeObeyed(d: Device, a: Byte, b: Byte)
    requires d.octets == []
    ensures Obey(d, Octet(0x78, true)) == d.(octets := [0x78])
    ensures Obey(d.(octets := [0x78]), Octet(a, true)) == d.(octets := [0x78, a])
    ensures Obey(d.(octets := [0x78, a]), Octet(b, true)) == Device([0x78, a, b], (a as int) * 256 + b, d.regs)
  {
    assert [0x78] + [a] == [0x78, a] && [0x78, a] + [b] == [0x78, a, b];
  }

  /** The first octets of either transaction, as far as they are acknowledged. */
  lemma AddressObeyed(d: Device, a: Byte, b: Byte)
    ensures var log := [Begin, Octet(0x78, true), Octet(a, true), Octet(b, true)];
            && ObeyAll(d, log[..1]) == d.(octets := [])
            && ObeyAll(d, log[..2]) == d.(octets := [0x78])
            && ObeyAll(d, log[..3]) == d.(octets := [0x78, a])
            && ObeyAll(d, log) == Device([0x78, a, b], (a as int) * 256 + b, d.regs)
  {
    var log := [Begin, Octet(0x78, true), Octet(a, true), Octet(b, true)];
    BeginAndEnd(d);
    hide ObeyAll, Obey;
    ObeyNothing(d);
    ObeySnoc(d, [], Begin);
    assert [] + [Begin] == log[..1];
    ThreeObeyed(d.(octets := []), a, b);
    ObeySnoc(d, log[..1], log[1]);
    assert log[..1] + [log[1]] == log[..2];
    ObeySnoc(d, log[..2], log[2]);
    assert log[..2] + [log[2]] == log[..3];
    ObeySnoc(d, log[..3], log[3]);
    assert log[..3] + [log[3]] == log;
  }

  lemma BeginAndEnd(d: Device)
    ensures Obey(d, Begin) == d.(octets := []) && Obey(d, End) == d.(octets := [])
  {
  }

  lemma AddressIs(reg: nat)
    ensures reg / 256 % 256 * 256 + reg % 256 == reg % 0x1_0000
  {
    var a, b, c := reg / 256 / 256, reg / 256 % 256, reg % 256;
    assert reg / 256 == 256 * a + b && reg == 0x1_0000 * a + (256 * b + c);
  }

  lemma ValueObeyed(a: Byte, b: Byte, p: nat, regs: map<nat, Byte>, v: Byte)
    ensures Obey(Device([0x78, a, b], p, regs), Octet(v, true)).(octets := []) == Device([], p, regs[p := v])
  {
  }

  /** An acknowledged write changes the one register it names, by the two bytes sent. */
  lemma WriteObeyed(d: Device, reg: nat, val: nat, answer: nat -> bool, from: nat)
    requires AllAcked(4, answer, from)
    ensures ObeyAll(d, WriteEntries(reg, val, answer, from)) ==
            Device([], reg % 0x1_0000, d.regs[reg % 0x1_0000 := val % 256])
  {
    var b := WriteBytes(reg, val);
    FourOctets(b, answer, from);
    var first := [Begin, Octet(0x78, true), Octet(b[1], true), Octet(b[2], true)];
    var all := first + [Octet(b[3], true)];
    assert WriteEntries(reg, val, answer, from) == all + [End];
    hide ObeyAll, Obey, Octets, WriteEntries;
    AddressObeyed(d, b[1], b[2]);
    AddressIs(reg);
    ObeySnoc(d, first, Octet(b[3], true));
    ObeySnoc(d, all, End);
    ValueObeyed(b[1], b[2], reg % 0x1_0000, d.regs, b[3]);
    BeginAndEnd(ObeyAll(d, all));
  }

  lemma FourOctets(b: seq<Byte>, answer: nat -> bool, from: nat)
    requires |b| == 4 && AllAcked(4, answer, from)
    ensures Octets(b, answer, from) == [Octet(b[0], true), Octet(b[1], true), Octet(b[2], true), Octet(b[3], true)]
  {
    assert b[1..][1..] == b[2..] && b[2..][1..] == b[3..] && b[3..][1..] == [];
    assert Octets(b[3..], answer, from + 3) == [Octet(b[3], true)];
    assert Octets(b[2..], answer, from + 2) == [Octet(b[2], true)] + Octets(b[3..], answer, from + 3);
    assert Octets(b[1..], answer, from + 1) == [Octet(b[1], true)] + Octets(b[2..], answer, from + 2);
  }

  /** The transfer that names the register, and the device behind it. */
  lemma PointerSet(d: Device, reg: nat)
    ensures var b := AddressBytes(reg);
            var log := [Begin, Octet(0x78, true), Octet(b[1], true), Octet(b[2], true), End, Begin];
            ObeyAll(d, log) == Device([], reg % 0x1_0000, d.regs)
  {
    var b := AddressBytes(reg);
    var first := [Begin, Octet(0x78, true), Octet(b[1], true), Octet(b[2], true)];
    BeginAndEnd(ObeyAll(d, first));
    BeginAndEnd(ObeyAll(d, first + [End]));
    hide ObeyAll, Obey;
    AddressObeyed(d, b[1], b[2]);
    AddressIs(reg);
    ObeySnoc(d, first, End);
    ObeySnoc(d, first + [End], Begin);
    assert first + [End] + [Begin] == [Begin, Octet(0x78, true), Octet(b[1], true), Octet(b[2], true), End, Begin];
  }

  lemma ReadAsked(d: Device)
    requires d.octets == []
    ensures Obey(d, Octet(0x79, true)) == d.(octets := [0x79])
  {
  }

  /** A read that is acknowledged asks for the register it names: what a truthful device puts on the wire is that
      register. */
  lemma ReadIsRegister(d: Device, reg: nat, answer: nat -> bool, from: nat)
    requires AllAcked(4, answer, from) && AllTruthful(d, ReadEntries(reg, answer, from))
    ensures reg % 0x1_0000 in d.regs ==> Value(Answers(answer, from + 4, 8)) % 256 == d.regs[reg % 0x1_0000]
  {
    hide ObeyAll, Obey, Octets, Value, Answers;
    var b, v := AddressBytes(reg), Value(Answers(answer, from + 4, 8)) % 256;
    var log := ReadEntries(reg, answer, from);
    ThreeOctets(b, answer, from);
    var front := [Begin, Octet(0x78, true), Octet(b[1], true), Octet(b[2], true), End, Begin];
    assert log == front + [Octet(0x79, true)] + [Octet(v, false), End];
    PointerSet(d, reg);
    ObeySnoc(d, front, Octet(0x79, true));
    ReadAsked(ObeyAll(d, front));
    assert log[..7] == front + [Octet(0x79, true)] && log[7] == Octet(v, false);
    assert Truthful(ObeyAll(d, log[..7]), log[7]);
  }

  lemma WillingAt(d: Device, front: seq<Entry>, v: Byte, ack: bool, rest: seq<Entry>)
    requires AllWilling(d, front + [Octet(v, ack)] + rest)
    requires var b := ObeyAll(d, front).octets; if b == [] then v == 0x78 || v == 0x79 else b[0] == 0x78
    ensures ack
  {
    hide ObeyAll;
    var log := front + [Octet(v, ack)] + rest;
    assert log[..|front|] == front && log[|front|] == Octet(v, ack);
    assert Willing(ObeyAll(d, log[..|front|]), log[|front|]);
  }

  lemma StaysAddressed(d: Device, v: Byte)
    requires if d.octets == [] then v == 0x78 else d.octets[0] == 0x78
    ensures var s := Obey(d, Octet(v, true)).octets; s != [] && s[0] == 0x78
  {
  }

  /** A willing device acknowledges whatever is sent behind its address. */
  lemma {:induction false} OctetsAcked(d: Device, front: seq<Entry>, bytes: seq<Byte>, answer: nat -> bool, from: nat,
                                       rest: seq<Entry>)
    requires AllWilling(d, front + Octets(bytes, answer, from) + rest)
    requires var o := ObeyAll(d, front).octets; bytes != [] ==> if o == [] then bytes[0] == 0x78 else o[0] == 0x78
    ensures AllAcked(|bytes|, answer, from)
    decreases |bytes|
  {
    hide ObeyAll, Obey, Octets, AllWilling;
    if bytes != [] {
      var x, more := Octet(bytes[0], !answer(from)), bytes[1..];
      assert bytes == [bytes[0]] + more;
      OctetsCons(bytes[0], more, answer, from);
      var all := Octets(bytes, answer, from);
      assert front + all + rest == front + [x] + (all[1..] + rest);
      WillingAt(d, front, bytes[0], !answer(from), all[1..] + rest);
      assert front + all + rest == front + [x] + Octets(more, answer, from + 1) + rest;
      ObeySnoc(d, front, x);
      StaysAddressed(ObeyAll(d, front), bytes[0]);
      OctetsAcked(d, front + [x], more, answer, from + 1, rest);
    }
  }

  lemma OctetsCons(v: Byte, b: seq<Byte>, answer: nat -> bool, from: nat)
    ensures Octets([v] + b, answer, from) ==
            [Octet(v, !answer(from))] + (if answer(from) then [] else Octets(b, answer, from + 1))
  {
    assert ([v] + b)[1..] == b;
  }

  /** A device that acknowledges what is sent to it acknowledges a read. */
  lemma ReadIsAcked(d: Device, reg: nat, answer: nat -> bool, from: nat)
    requires AllWilling(d, ReadEntries(reg, answer, from))
    ensures AllAcked(4, answer, from)
  {
    hide ObeyAll, Obey, Octets, Willing, AllWilling, ReadBackEntries;
    var b, log := AddressBytes(reg), ReadEntries(reg, answer, from);
    var rest := [End] + (if AllAcked(3, answer, from) then ReadBackEntries(answer, from + 3) else []);
    assert log == [Begin] + Octets(b, answer, from) + rest;
    ObeyNothing(d);
    ObeySnoc(d, [], Begin);
    BeginAndEnd(d);
    assert [] + [Begin] == [Begin];
    OctetsAcked(d, [Begin], b, answer, from, rest);
    ThreeOctets(b, answer, from);
    ReadBackFront(answer, from + 3);
    PointerSet(d, reg);
    var back := ReadBackEntries(answer, from + 3);
    var front := [Begin, Octet(0x78, true), Octet(b[1], true), Octet(b[2], true), End, Begin];
    assert log == front + [Octet(0x79, !answer(from + 3))] + back[2..];
    WillingAt(d, front, 0x79, !answer(from + 3), back[2..]);
  }

  /** What a read means to the device that has heard it: if the device acknowledges what is sent to it the read
      succeeds, and a read that succeeds finds the register named, as far as the device holds one. */
  ghost predicate Reads(d: Device, heard: seq<Entry>, reg: nat, ok: int, data: Byte)
  {
    && (AllWilling(d, heard) ==> ok == 1)
    && (ok == 1 && AllTruthful(d, heard) && reg % 0x1_0000 in d.regs ==> data == d.regs[reg % 0x1_0000])
  }

  lemma ReadsIf(d: Device, reg: nat, answer: nat -> bool, from: nat, ok: int, data: Byte)
    requires ok == if AllAcked(4, answer, from) then 1 else 0
    requires ok == 1 ==> data == Value(Answers(answer, from + 4, 8))
    ensures Reads(d, ReadEntries(reg, answer, from), reg, ok, data)
  {
    hide ReadEntries, AllAcked, AllWilling, AllTruthful, Value, Answers;
    if AllWilling(d, ReadEntries(reg, answer, from)) {
      ReadIsAcked(d, reg, answer, from);
    }
    if ok == 1 && AllTruthful(d, ReadEntries(reg, answer, from)) {
      ReadIsRegister(d, reg, answer, from);
    }
  }

  lemma ReadBackFront(answer: nat -> bool, from: nat)
    ensures var r := ReadBackEntries(answer, from);
            |r| >= 3 && r[0] == Begin && r[1] == Octet(0x79, !answer(from))
  {
    hide Value, Answers;
  }

  lemma ThreeOctets(b: seq<Byte>, answer: nat -> bool, from: nat)
    requires |b| == 3 && AllAcked(3, answer, from)
    ensures Octets(b, answer, from) == [Octet(b[0], true), Octet(b[1], true), Octet(b[2], true)]
  {
    OctetsCons(b[2], [], answer, from + 2);
    OctetsCons(b[1], [b[2]], answer, from + 1);
    OctetsCons(b[0], [b[1], b[2]], answer, from);
    assert b == [b[0]] + [b[1], b[2]] && [b[1], b[2]] == [b[1]] + [b[2]] && [b[2]] == [b[2]] + [];
    assert !answer(from) && !answer(from + 1) && !answer(from + 2);
  }

  /** Reading a register behind an acknowledged write gives back the low byte of what was written. */
  lemma ReadAfterWrite(d: Device, reg: nat, val: nat, answer: nat -> bool, from: nat, later: nat)
    requires AllAcked(4, answer, from) && AllAcked(4, answer, later)
    requires AllTruthful(ObeyAll(d, WriteEntries(reg, val, answer, from)), ReadEntries(reg, answer, later))
    ensures Value(Answers(answer, later + 4, 8)) % 256 == val % 256
  {
    hide ObeyAll, WriteEntries, ReadEntries, AllTruthful, AllAcked, Value, Answers;
    WriteObeyed(d, reg, val, answer, from);
    ReadIsRegister(ObeyAll(d, WriteEntries(reg, val, answer, from)), reg, answer, later);
  }

  /** Later entries of a list overwrite earlier ones. */
  function LastWriterWins(regs: map<nat, Byte>, list: seq<SensorReg>): map<nat, Byte>
  {
    if list == [] then regs
    else LastWriterWins(regs, list[..|list| - 1])[list[|list| - 1].reg % 0x1_0000 := list[|list| - 1].val % 256]
  }

  /** When the slave acknowledges everything, its registers end up as the list says, the sentinel
      included. */
  lemma {:induction false} ListObeyed(d: Device, list: seq<SensorReg>, answer: nat -> bool, from: nat)
    requires ListAcked(list, answer, from)
    ensures ObeyAll(d, ListEntries(list, answer, from)).regs == LastWriterWins(d.regs, list)
  {
    hide ObeyAll, WriteEntries, Asked, AllAcked;
    if list == [] {
      ObeyNothing(d);
    } else {
      var n := |list| - 1;
      var k := ListAsked(list[..n], answer, from);
      ListObeyed(d, list[..n], answer, from);
      ObeyConcat(d, ListEntries(list[..n], answer, from), WriteEntries(list[n].reg, list[n].val, answer, from + k));
      WriteObeyed(ObeyAll(d, ListEntries(list[..n], answer, from)), list[n].reg, list[n].val, answer, from + k);
    }
  }

  /** wrSensorRegs16_8 and the device behind the wires: result 1 means that the device, fed with what the slave has
      heard of this call, holds the list up to its sentinel, the last writer of a register winning. */
  method WriteSensor(camera: Camera, list: seq<SensorReg>, ghost d: Device) returns (err: int)
    requires camera.Idle() && SENTINEL in list
    modifies camera.driver`trace, camera.driver`asked, camera.driver`line, camera.driver.gpio
    ensures camera.Idle() && old(camera.Heard()).log <= camera.Heard().log
    ensures err == 1 ==>
              ObeyAll(d, camera.Heard().log[|old(camera.Heard()).log|..]).regs ==
              LastWriterWins(d.regs, UpToSentinel(list))
  {
    hide ObeyAll, LastWriterWins, Camera.Heard, UpToSentinel, ListEntries, ListAcked;
    ghost var all, from, answer := UpToSentinel(list), camera.driver.asked, camera.driver.answer;
    ghost var before := camera.Heard().log;
    err := WrSensorRegs16_8(camera, list);
    ghost var heard := ListEntries(all, answer, from);
    assert (before + heard)[|before|..] == heard;
    if err == 1 {
      ListObeyed(d, all, answer, from);
    }
  }
}
