/** The DS1307 real-time clock driver: BCD time registers, the 12/24-hour
    conversions, range guards and the battery-backed RAM.

    The driver keeps a one-byte `buffer` that every register read goes through
    and two cached flags, `mode12` and `clockHalt`; the setters consult the
    cache, the getters refresh it. Register values are bytes; the driver's
    `uint8_t` arithmetic is `bv8` arithmetic here, wrapping included. */
module DS1307 {
  import opened Bits
  import opened Registers
  import opened I2Cdev

  const RaSeconds: nat := 0x00
  const RaMinutes: nat := 0x01
  const RaHours: nat := 0x02
  const RaDay: nat := 0x03
  const RaDate: nat := 0x04
  const RaMonth: nat := 0x05
  const RaYear: nat := 0x06
  const RaRam: nat := 0x08

  const ChBit: bv8 := 7      // clock halt, in SECONDS
  const ModeBit: bv8 := 6    // 12-hour mode, in HOURS
  const AmPmBit: bv8 := 5    // PM in 12-hour mode, in HOURS
  const DayBit: bv8 := 2     // day of week field, bits 2..0 of DAY
  const DayLength: bv8 := 3

  /** The driver: its bus, its buffer and its cached flags. */
  datatype Rtc = Rtc(bus: Bus<bv8>, buffer: bv8, mode12: bool, clockHalt: bool)

  /** A getter's value together with the driver after the call. */
  datatype Got<T> = Got(value: T, rtc: Rtc)

  /** `((v / 10) << 4) + (v % 10)`: two BCD digits in one byte, the tens in
      the high nibble and the units in the low one. */
  function Bcd(v: bv8): (b: bv8)
    ensures v <= 99 ==> b >> 4 == v / 10 && b & 0x0F == v % 10
  {
    ((v / 10) << 4) + v % 10
  }

  /** `(b & 0x0F) + ((b & tens) >> 4) * 10`: the BCD byte read back, with the tens
      digit taken from the bits of `tens`. */
  function Digits(b: bv8, tens: bv8): bv8
  {
    (b & 0x0F) + ((b & tens) >> 4) * 10
  }

  /** Two-digit BCD decodes back to the number for every width of tens digit the
      registers use, as long as the tens digit fits. */
  lemma BcdRoundTrip(v: bv8)
    ensures v <= 79 ==> Digits(Bcd(v), 0x70) == v && Bcd(v) & 0x80 == 0
    ensures v <= 39 ==> Digits(Bcd(v), 0x30) == v && Bcd(v) & 0xC0 == 0
    ensures v <= 19 ==> Digits(Bcd(v), 0x10) == v && Bcd(v) & 0xE0 == 0
    ensures v <= 99 ==> Digits(Bcd(v), 0xF0) == v
  {
  }

  /** Reads register `reg` into the buffer: it changes only when a byte arrives. */
  function ReadIntoBuffer(rtc: Rtc, reg: nat): Rtc
  {
    var rd := ReadByte(rtc.bus, reg, rtc.buffer);
    rtc.(bus := rd.bus, buffer := rd.data)
  }

  function WriteRegister(rtc: Rtc, reg: nat, v: bv8): Rtc
  {
    rtc.(bus := WriteByte(rtc.bus, reg, v).bus)
  }

  /** testConnection: a read of SECONDS returns count 1. */
  function TestConnection(rtc: Rtc): (g: Got<bool>)
    ensures g.value <==> Outcome(rtc.bus) == Delivers
    ensures g.rtc.bus.log == rtc.bus.log + [ReadAccess(RaSeconds)]
  {
    var rd := ReadByte(rtc.bus, RaSeconds, rtc.buffer);
    Got(rd.count == 1, rtc.(bus := rd.bus, buffer := rd.data))
  }

  /** getClockRunning: reads the CH bit through readBit, caches it, and reports
      the clock running when it is clear. */
  function GetClockRunning(rtc: Rtc): (g: Got<bool>)
    ensures g.value == !g.rtc.clockHalt
    ensures Outcome(rtc.bus) == Delivers ==> g.rtc.clockHalt == Bit8(Value(rtc.bus, RaSeconds), ChBit)
    ensures g.rtc.mode12 == rtc.mode12
    ensures g.rtc.bus.log == rtc.bus.log + [ReadAccess(RaSeconds)]
  {
    var rd := ReadBit(rtc.bus, RaSeconds, ChBit);
    Got(rd.data == 0, rtc.(bus := rd.bus, buffer := rd.data, clockHalt := rd.data != 0))
  }

  /** setClockRunning: writes CH as `!running`; the cached flag is not updated. */
  function SetClockRunning(rtc: Rtc, running: bool): (r: Rtc)
    ensures rtc.bus.stores ==> Bit8(Value(r.bus, RaSeconds), ChBit) == !running
    ensures rtc.bus.stores ==> Value(r.bus, RaSeconds) & 0x7F == Fetched(rtc.bus, RaSeconds) & 0x7F
    ensures forall other | other != RaSeconds :: Value(r.bus, other) == Value(rtc.bus, other)
    ensures r.clockHalt == rtc.clockHalt && r.mode12 == rtc.mode12
  {
    var w := WriteBit(rtc.bus, RaSeconds, ChBit, if running then 0 else 1);
    assert !((1 as bv8) << ChBit) == 0x7F;
    rtc.(bus := w.bus)
  }

  /** On a faithful bus, getClockRunning after setClockRunning reports the state
      written and caches it; the seconds bits of SECONDS are as they were. */
  lemma ClockRunningRoundTrip(rtc: Rtc, running: bool)
    requires Faithful(rtc.bus)
    ensures var r := SetClockRunning(rtc, running);
            var g := GetClockRunning(r);
            && g.value == running && g.rtc.clockHalt == !running
            && Value(r.bus, RaSeconds) & 0x7F == Value(rtc.bus, RaSeconds) & 0x7F
  {
    var r := SetClockRunning(rtc, running);
    assert Outcome(rtc.bus) == Delivers && Fetched(rtc.bus, RaSeconds) == Value(rtc.bus, RaSeconds);
    assert Outcome(r.bus) == Delivers;
  }

  /** getSeconds: the BCD seconds; bit 7 refreshes the cached clock-halt flag. */
  function GetSeconds(rtc: Rtc): (g: Got<bv8>)
    ensures g.value <= 85
    ensures g.value == Digits(g.rtc.buffer, 0x70)
    ensures g.rtc.clockHalt == (g.rtc.buffer & 0x80 != 0)
    ensures Outcome(rtc.bus) == Delivers ==> g.rtc.buffer == Value(rtc.bus, RaSeconds)
    ensures Outcome(rtc.bus) != Delivers ==> g.rtc.buffer == rtc.buffer
  {
    var r := ReadIntoBuffer(rtc, RaSeconds);
    Got(Digits(r.buffer, 0x70), r.(clockHalt := r.buffer & 0x80 != 0))
  }

  /** setSeconds: ignores values above 59; otherwise writes them in BCD with the
      cached clock-halt flag in bit 7. */
  function SetSeconds(rtc: Rtc, seconds: bv8): (r: Rtc)
    ensures seconds > 59 ==> r == rtc
    ensures seconds <= 59 ==>
              r.bus.log == rtc.bus.log + [WriteAccess(RaSeconds, (if rtc.clockHalt then 0x80 else 0) + Bcd(seconds))]
  {
    if seconds > 59 then rtc
    else WriteRegister(rtc, RaSeconds, (if rtc.clockHalt then 0x80 else 0x00) + Bcd(seconds))
  }

  /** On a faithful bus, getSeconds after setSeconds of 0..59 returns the seconds,
      and the halt bit read back is the cached flag. */
  lemma SecondsRoundTrip(rtc: Rtc, seconds: bv8)
    requires Faithful(rtc.bus) && seconds <= 59
    ensures var g := GetSeconds(SetSeconds(rtc, seconds));
            g.value == seconds && g.rtc.clockHalt == rtc.clockHalt
  {
    BcdRoundTrip(seconds);
  }

  /** getMinutes: the BCD minutes. */
  function GetMinutes(rtc: Rtc): (g: Got<bv8>)
    ensures g.value <= 85
    ensures g.value == Digits(g.rtc.buffer, 0x70)
    ensures Outcome(rtc.bus) == Delivers ==> g.rtc.buffer == Value(rtc.bus, RaMinutes)
    ensures Outcome(rtc.bus) != Delivers ==> g.rtc.buffer == rtc.buffer
  {
    var r := ReadIntoBuffer(rtc, RaMinutes);
    Got(Digits(r.buffer, 0x70), r)
  }

  /** setMinutes: ignores values above 59. */
  function SetMinutes(rtc: Rtc, minutes: bv8): (r: Rtc)
    ensures minutes > 59 ==> r == rtc
    ensures minutes <= 59 ==> r.bus.log == rtc.bus.log + [WriteAccess(RaMinutes, Bcd(minutes))]
  {
    if minutes > 59 then rtc else WriteRegister(rtc, RaMinutes, Bcd(minutes))
  }

  /** getMinutes after setMinutes of 0..59 on a faithful bus returns the minutes. */
  lemma MinutesRoundTrip(rtc: Rtc, minutes: bv8)
    requires Faithful(rtc.bus) && minutes <= 59
    ensures GetMinutes(SetMinutes(rtc, minutes)).value == minutes
  {
    BcdRoundTrip(minutes);
  }

  /** getMode as written: the mode bit through readBit, so 0x40 rather than 1 in
      12-hour mode; the cached flag is whether it is nonzero. */
  function GetModeAsWritten(rtc: Rtc): (g: Got<bv8>)
    ensures g.value == 0 || g.value == 0x40
    ensures g.rtc.mode12 == (g.value != 0)
    ensures Outcome(rtc.bus) == Delivers ==> (g.value != 0 <==> Bit8(Value(rtc.bus, RaHours), ModeBit))
  {
    var rd := ReadBit(rtc.bus, RaHours, ModeBit);
    Got(rd.data, rtc.(bus := rd.bus, buffer := rd.data, mode12 := rd.data != 0))
  }

  /** getMode as documented (0-1): 1 in 12-hour mode, 0 in 24-hour mode. */
  function GetMode(rtc: Rtc): (g: Got<bv8>)
    ensures g.value == 0 || g.value == 1
    ensures g.rtc.mode12 == (g.value == 1)
    ensures Outcome(rtc.bus) == Delivers ==> (g.value == 1 <==> Bit8(Value(rtc.bus, RaHours), ModeBit))
  {
    var g := GetModeAsWritten(rtc);
    Got(if g.value != 0 then 1 else 0, g.rtc)
  }

  /** A register in 12-hour mode makes getMode return 0x40, outside its documented 0-1. */
  lemma GetModeReturns0x40(rtc: Rtc)
    requires Outcome(rtc.bus) == Delivers && Value(rtc.bus, RaHours) == 0x52    // 12-hour mode, 12 AM
    ensures GetModeAsWritten(rtc).value == 0x40
    ensures GetMode(rtc).value == 1
  {
  }

  /** setMode: writes the mode bit; the cached flag is not updated. */
  function SetMode(rtc: Rtc, mode: bv8): (r: Rtc)
    ensures rtc.bus.stores ==> Bit8(Value(r.bus, RaHours), ModeBit) == (mode != 0)
    ensures rtc.bus.stores ==> Value(r.bus, RaHours) & 0xBF == Fetched(rtc.bus, RaHours) & 0xBF
    ensures forall other | other != RaHours :: Value(r.bus, other) == Value(rtc.bus, other)
    ensures r.mode12 == rtc.mode12 && r.clockHalt == rtc.clockHalt
  {
    var w := WriteBit(rtc.bus, RaHours, ModeBit, mode);
    assert !((1 as bv8) << ModeBit) == 0xBF;
    rtc.(bus := w.bus)
  }

  /** On a faithful bus, getMode (corrected) after setMode reports 1 exactly when
      a non-zero mode was written and caches it; the other bits of HOURS are as
      they were. */
  lemma ModeRoundTrip(rtc: Rtc, mode: bv8)
    requires Faithful(rtc.bus)
    ensures var r := SetMode(rtc, mode);
            var g := GetMode(r);
            && g.value == (if mode != 0 then 1 else 0) && g.rtc.mode12 == (mode != 0)
            && Value(r.bus, RaHours) & 0xBF == Value(rtc.bus, RaHours) & 0xBF
  {
    var r := SetMode(rtc, mode);
    assert Outcome(rtc.bus) == Delivers && Fetched(rtc.bus, RaHours) == Value(rtc.bus, RaHours);
    assert Outcome(r.bus) == Delivers;
  }

  /** getAMPM as written: the PM bit through readBit, so 0x20 rather than 1 for PM. */
  function GetAmPmAsWritten(rtc: Rtc): (g: Got<bv8>)
    ensures g.value == 0 || g.value == 0x20
    ensures Outcome(rtc.bus) == Delivers ==> (g.value != 0 <==> Bit8(Value(rtc.bus, RaHours), AmPmBit))
  {
    var rd := ReadBit(rtc.bus, RaHours, AmPmBit);
    Got(rd.data, rtc.(bus := rd.bus, buffer := rd.data))
  }

  /** getAMPM as documented (0-1). */
  function GetAmPm(rtc: Rtc): (g: Got<bv8>)
    ensures g.value == 0 || g.value == 1
    ensures Outcome(rtc.bus) == Delivers ==> (g.value == 1 <==> Bit8(Value(rtc.bus, RaHours), AmPmBit))
  {
    var g := GetAmPmAsWritten(rtc);
    Got(if g.value != 0 then 1 else 0, g.rtc)
  }

  /** A PM register makes getAMPM return 0x20. */
  lemma GetAmPmReturns0x20(rtc: Rtc)
    requires Outcome(rtc.bus) == Delivers && Value(rtc.bus, RaHours) == 0x61    // 12-hour mode, 1 PM
    ensures GetAmPmAsWritten(rtc).value == 0x20
    ensures GetAmPm(rtc).value == 1
  {
  }

  /** setAMPM: writes the PM bit. */
  function SetAmPm(rtc: Rtc, ampm: bv8): (r: Rtc)
    ensures rtc.bus.stores ==> Bit8(Value(r.bus, RaHours), AmPmBit) == (ampm != 0)
    ensures rtc.bus.stores ==> Value(r.bus, RaHours) & 0xDF == Fetched(rtc.bus, RaHours) & 0xDF
    ensures forall other | other != RaHours :: Value(r.bus, other) == Value(rtc.bus, other)
    ensures r.mode12 == rtc.mode12 && r.clockHalt == rtc.clockHalt
  {
    var w := WriteBit(rtc.bus, RaHours, AmPmBit, ampm);
    assert !((1 as bv8) << AmPmBit) == 0xDF;
    rtc.(bus := w.bus)
  }

  /** On a faithful bus, getAMPM (corrected) after setAMPM reports 1 exactly when
      a non-zero flag was written; the other bits of HOURS are as they were. */
  lemma AmPmRoundTrip(rtc: Rtc, ampm: bv8)
    requires Faithful(rtc.bus)
    ensures var r := SetAmPm(rtc, ampm);
            && GetAmPm(r).value == (if ampm != 0 then 1 else 0)
            && Value(r.bus, RaHours) & 0xDF == Value(rtc.bus, RaHours) & 0xDF
  {
    var r := SetAmPm(rtc, ampm);
    assert Outcome(rtc.bus) == Delivers && Fetched(rtc.bus, RaHours) == Value(rtc.bus, RaHours);
    assert Outcome(r.bus) == Delivers;
  }

  /** The hour 0..23 a 12-hour clock hour 1..12 and an AM/PM flag stand for. */
  function To24(hours: bv8, pm: bool): (h: bv8)
    requires 1 <= hours <= 12
  {
    if pm then (if hours == 12 then 12 else hours + 12) else (if hours == 12 then 0 else hours)
  }

  /** The 12-hour clock hour of an hour 0..23: 12 for 0 and 12, `h - 12` after noon. */
  function To12(h: bv8): (hours: bv8)
    requires h <= 23
  {
    if h == 0 then 12 else if h > 12 then h - 12 else h
  }

  /** To24 and To12 are inverse: each 12-hour reading names a distinct hour. */
  lemma ClockConversions(hours: bv8, pm: bool, h: bv8)
    ensures 1 <= hours <= 12 ==> To24(hours, pm) <= 23 && To12(To24(hours, pm)) == hours && (To24(hours, pm) >= 12 <==> pm)
    ensures h <= 23 ==> 1 <= To12(h) <= 12 && To24(To12(h), h >= 12) == h
  {
  }

  /** getHours12: in 12-hour mode the BCD hour of bits 4..0; in 24-hour mode the
      BCD hour of bits 5..0 converted, 0 to 12 and 13..23 to `h - 12`. */
  function GetHours12(rtc: Rtc): (g: Got<bv8>)
    ensures g.rtc.mode12 == (g.rtc.buffer & 0x40 != 0)
    ensures g.rtc.mode12 ==> g.value == Digits(g.rtc.buffer, 0x10)
    ensures !g.rtc.mode12 && Digits(g.rtc.buffer, 0x30) <= 23 ==>
              1 <= g.value <= 12 && g.value % 12 == Digits(g.rtc.buffer, 0x30) % 12
    ensures g.rtc.bus.log == rtc.bus.log + [ReadAccess(RaHours)]
    ensures Outcome(rtc.bus) == Delivers ==> g.rtc.buffer == Value(rtc.bus, RaHours)
    ensures Outcome(rtc.bus) != Delivers ==> g.rtc.buffer == rtc.buffer
  {
    var r := ReadIntoBuffer(rtc, RaHours);
    var b := r.buffer;
    var mode12 := b & 0x40 != 0;
    var hours :=
      if mode12 then Digits(b, 0x10)
      else
        var h := Digits(b, 0x30);
        if h > 12 then h - 12 else if h == 0 then 12 else h;
    Got(hours, r.(mode12 := mode12))
  }

  /** getHours24: in 12-hour mode the hour converted with the PM bit (12 AM is 0,
      PM adds 12 below 12); in 24-hour mode the BCD hour of bits 5..0. */
  function GetHours24(rtc: Rtc): (g: Got<bv8>)
    ensures g.rtc.mode12 == (g.rtc.buffer & 0x40 != 0)
    ensures !g.rtc.mode12 ==> g.value == Digits(g.rtc.buffer, 0x30)
    ensures g.rtc.mode12 && 1 <= Digits(g.rtc.buffer, 0x10) <= 12 ==>
              g.value == To24(Digits(g.rtc.buffer, 0x10), g.rtc.buffer & 0x20 != 0)
    ensures g.rtc.bus.log == rtc.bus.log + [ReadAccess(RaHours)]
    ensures Outcome(rtc.bus) == Delivers ==> g.rtc.buffer == Value(rtc.bus, RaHours)
    ensures Outcome(rtc.bus) != Delivers ==> g.rtc.buffer == rtc.buffer
  {
    var r := ReadIntoBuffer(rtc, RaHours);
    var b := r.buffer;
    var mode12 := b & 0x40 != 0;
    var hours :=
      if mode12 then
        var h := Digits(b, 0x10);
        if b & 0x20 != 0 then (if h < 12 then h + 12 else h) else (if h == 12 then 0 else h)
      else Digits(b, 0x30);
    Got(hours, r.(mode12 := mode12))
  }

  /** setHours24: ignores hours above 23; in the cached 12-hour mode writes the
      mode bit, the PM bit for 12..23 and the 12-hour clock hour, otherwise the
      BCD hour. */
  function SetHours24(rtc: Rtc, hours: bv8): (r: Rtc)
    ensures hours > 23 ==> r == rtc
    ensures hours <= 23 && rtc.mode12 ==>
              r.bus.log == rtc.bus.log + [WriteAccess(RaHours, 0x40 + (if hours > 11 then 0x20 else 0) + Bcd(To12(hours)))]
    ensures hours <= 23 && !rtc.mode12 ==> r.bus.log == rtc.bus.log + [WriteAccess(RaHours, Bcd(hours))]
  {
    if hours > 23 then rtc
    else if rtc.mode12 then
      var ampm: bv8 := if hours > 11 then 0x20 else 0;
      var h := if hours > 12 then hours - 12 else if hours == 0 then 12 else hours;
      WriteRegister(rtc, RaHours, 0x40 + ampm + Bcd(h))
    else WriteRegister(rtc, RaHours, Bcd(hours))
  }

  /** getHours24 after setHours24 of 0..23 on a faithful bus returns the hour,
      whichever mode is cached; getHours12 then returns its 12-hour clock hour. */
  lemma Hours24RoundTrip(rtc: Rtc, hours: bv8)
    requires Faithful(rtc.bus) && hours <= 23
    ensures GetHours24(SetHours24(rtc, hours)).value == hours
    ensures GetHours12(SetHours24(rtc, hours)).value == To12(hours)
  {
    BcdRoundTrip(hours);
    if hours <= 23 {
      BcdRoundTrip(To12(hours));
    }
  }

  /** setHours12 as written: ignores hours outside 1..12; in the cached 12-hour
      mode writes the mode bit, the PM bit when `ampm > 0` and the hour; in
      24-hour mode adds 12 for PM, maps 24 to 12, and leaves 12 AM as 12. */
  function SetHours12AsWritten(rtc: Rtc, hours: bv8, ampm: bv8): (r: Rtc)
    ensures hours > 12 || hours < 1 ==> r == rtc
    ensures 1 <= hours <= 12 && rtc.mode12 ==>
              r.bus.log == rtc.bus.log + [WriteAccess(RaHours, 0x40 + (if ampm > 0 then 0x20 else 0) + Bcd(hours))]
    ensures 1 <= hours <= 12 && !rtc.mode12 ==>
              r.bus.log == rtc.bus.log + [WriteAccess(RaHours, Bcd(if ampm > 0 && hours < 12 then hours + 12 else hours))]
  {
    if hours > 12 || hours < 1 then rtc
    else if rtc.mode12 then
      var pm: bv8 := if ampm > 0 then 0x20 else ampm;
      WriteRegister(rtc, RaHours, 0x40 + pm + Bcd(hours))
    else
      var h := if ampm > 0 then hours + 12 else hours;
      var h' := if h == 0 then 12 else if h == 24 then 12 else h;
      WriteRegister(rtc, RaHours, Bcd(h'))
  }

  /** In 24-hour mode setHours12(12, AM) stores 12, which reads back as noon. */
  lemma MidnightBecomesNoon(rtc: Rtc)
    requires Faithful(rtc.bus) && !rtc.mode12
    ensures GetHours24(SetHours12AsWritten(rtc, 12, 0)).value == 12
    ensures To24(12, false) == 0
  {
    BcdRoundTrip(12);
  }

  /** setHours12 with 12 AM stored as hour 0 in 24-hour mode. */
  function SetHours12(rtc: Rtc, hours: bv8, ampm: bv8): (r: Rtc)
    ensures hours > 12 || hours < 1 ==> r == rtc
    ensures 1 <= hours <= 12 && rtc.mode12 ==> r == SetHours12AsWritten(rtc, hours, ampm)
    ensures 1 <= hours <= 12 && !rtc.mode12 ==> r.bus.log == rtc.bus.log + [WriteAccess(RaHours, Bcd(To24(hours, ampm > 0)))]
  {
    if hours > 12 || hours < 1 then rtc
    else if rtc.mode12 then SetHours12AsWritten(rtc, hours, ampm)
    else WriteRegister(rtc, RaHours, Bcd(To24(hours, ampm > 0)))
  }

  /** On a faithful bus, setHours12 of 1..12 reads back through getHours12 as the
      hour and through getHours24 as the hour it stands for, in either mode; in
      12-hour mode the PM bit is set exactly when `ampm > 0`. */
  lemma Hours12RoundTrip(rtc: Rtc, hours: bv8, ampm: bv8)
    requires Faithful(rtc.bus) && 1 <= hours <= 12
    ensures GetHours12(SetHours12(rtc, hours, ampm)).value == hours
    ensures GetHours24(SetHours12(rtc, hours, ampm)).value == To24(hours, ampm > 0)
    ensures rtc.mode12 ==> Bit8(Value(SetHours12(rtc, hours, ampm).bus, RaHours), AmPmBit) == (ampm > 0)
  {
    BcdRoundTrip(hours);
    BcdRoundTrip(To24(hours, ampm > 0));
  }

  /** getDayOfWeek: the day field through readBits, into the buffer. */
  function GetDayOfWeek(rtc: Rtc): (g: Got<bv8>)
    ensures Outcome(rtc.bus) != NoData ==> g.value <= 7
    ensures Outcome(rtc.bus) == NoData ==> g.value == rtc.buffer
    ensures Outcome(rtc.bus) == Delivers ==> g.value == ExtractField8(Value(rtc.bus, RaDay), DayBit, DayLength)
  {
    var rd := ReadBits(rtc.bus, RaDay, DayBit, DayLength, rtc.buffer);
    assert rd.count != 0 ==> rd.data <= 7 by {
      if rd.count != 0 {
        assert rd.data & !LowMask8(DayLength) == 0;
      }
    }
    Got(rd.data, rtc.(bus := rd.bus, buffer := rd.data))
  }

  /** setDayOfWeek: ignores values outside 1..7; otherwise writes the day field. */
  function SetDayOfWeek(rtc: Rtc, dow: bv8): (r: Rtc)
    ensures dow < 1 || dow > 7 ==> r == rtc
    ensures 1 <= dow <= 7 ==> r.bus == WriteBits(rtc.bus, RaDay, DayBit, DayLength, dow).bus
  {
    if dow < 1 || dow > 7 then rtc
    else rtc.(bus := WriteBits(rtc.bus, RaDay, DayBit, DayLength, dow).bus)
  }

  /** getDayOfWeek after setDayOfWeek of 1..7 on a faithful bus returns the day,
      and the other bits of DAY are kept. */
  lemma DayOfWeekRoundTrip(rtc: Rtc, dow: bv8)
    requires Faithful(rtc.bus) && 1 <= dow <= 7
    ensures GetDayOfWeek(SetDayOfWeek(rtc, dow)).value == dow
    ensures Value(SetDayOfWeek(rtc, dow).bus, RaDay) & !FieldMask8(DayBit, DayLength)
            == Value(rtc.bus, RaDay) & !FieldMask8(DayBit, DayLength)
  {
  }

  /** getDay: the BCD date of bits 5..0. */
  function GetDay(rtc: Rtc): (g: Got<bv8>)
    ensures g.value <= 45
    ensures g.value == Digits(g.rtc.buffer, 0x30)
    ensures g.rtc.bus.log == rtc.bus.log + [ReadAccess(RaDate)]
    ensures Outcome(rtc.bus) == Delivers ==> g.rtc.buffer == Value(rtc.bus, RaDate)
    ensures Outcome(rtc.bus) != Delivers ==> g.rtc.buffer == rtc.buffer
  {
    var r := ReadIntoBuffer(rtc, RaDate);
    Got(Digits(r.buffer, 0x30), r)
  }

  /** setDay: no range check; the BCD byte wraps like the driver's `uint8_t`. */
  function SetDay(rtc: Rtc, day: bv8): (r: Rtc)
    ensures r.bus.log == rtc.bus.log + [WriteAccess(RaDate, Bcd(day))]
  {
    WriteRegister(rtc, RaDate, Bcd(day))
  }

  /** getDay after setDay returns the day for 0..39 (every date of a month), and
      a day the register cannot hold is written anyway: 45 reads back as 5. */
  lemma DayRoundTrip(rtc: Rtc, day: bv8)
    requires Faithful(rtc.bus)
    ensures day <= 39 ==> GetDay(SetDay(rtc, day)).value == day
    ensures day == 45 ==> GetDay(SetDay(rtc, day)).value == 5
  {
    BcdRoundTrip(day);
  }

  /** getMonth: the BCD month of bits 4..0. */
  function GetMonth(rtc: Rtc): (g: Got<bv8>)
    ensures g.value <= 25
    ensures g.value == Digits(g.rtc.buffer, 0x10)
    ensures g.rtc.bus.log == rtc.bus.log + [ReadAccess(RaMonth)]
    ensures Outcome(rtc.bus) == Delivers ==> g.rtc.buffer == Value(rtc.bus, RaMonth)
    ensures Outcome(rtc.bus) != Delivers ==> g.rtc.buffer == rtc.buffer
  {
    var r := ReadIntoBuffer(rtc, RaMonth);
    Got(Digits(r.buffer, 0x10), r)
  }

  /** setMonth: ignores values outside 1..12. */
  function SetMonth(rtc: Rtc, month: bv8): (r: Rtc)
    ensures month < 1 || month > 12 ==> r == rtc
    ensures 1 <= month <= 12 ==> r.bus.log == rtc.bus.log + [WriteAccess(RaMonth, Bcd(month))]
  {
    if month < 1 || month > 12 then rtc else WriteRegister(rtc, RaMonth, Bcd(month))
  }

  /** getMonth after setMonth of 1..12 on a faithful bus returns the month. */
  lemma MonthRoundTrip(rtc: Rtc, month: bv8)
    requires Faithful(rtc.bus) && 1 <= month <= 12
    ensures GetMonth(SetMonth(rtc, month)).value == month
  {
    BcdRoundTrip(month);
  }

  /** getYear: 2000 plus the two BCD digits of YEAR. */
  function GetYear(rtc: Rtc): (g: Got<bv16>)
    ensures 2000 <= g.value <= 2165
    ensures g.value == 2000 + Digits(g.rtc.buffer, 0xF0) as bv16
    ensures g.rtc.bus.log == rtc.bus.log + [ReadAccess(RaYear)]
    ensures Outcome(rtc.bus) == Delivers ==> g.rtc.buffer == Value(rtc.bus, RaYear)
    ensures Outcome(rtc.bus) != Delivers ==> g.rtc.buffer == rtc.buffer
  {
    var r := ReadIntoBuffer(rtc, RaYear);
    Got(2000 + Digits(r.buffer, 0xF0) as bv16, r)
  }

  /** The byte setYear writes for years from 2000 on: the BCD of `year - 2000`,
      computed in 16 bits and truncated to the register's 8. */
  function YearByte(year: bv16): (b: bv8)
    requires year >= 2000
    ensures year <= 2099 ==> b as bv16 >> 4 == (year - 2000) / 10 && b as bv16 & 0x0F == (year - 2000) % 10
  {
    var y := year - 2000;
    ((((y / 10) << 4) + y % 10) & 0xFF) as bv8
  }

  /** setYear: ignores years before 2000. */
  function SetYear(rtc: Rtc, year: bv16): (r: Rtc)
    ensures year < 2000 ==> r == rtc
    ensures year >= 2000 ==> r.bus.log == rtc.bus.log + [WriteAccess(RaYear, YearByte(year))]
  {
    if year < 2000 then rtc else WriteRegister(rtc, RaYear, YearByte(year))
  }

  /** For 2000..2099 the year byte is the BCD of the year's last two digits. */
  lemma YearByteIsBcd(year: bv16)
    requires 2000 <= year <= 2099
    ensures YearByte(year) == Bcd((year - 2000) as bv8)
  {
  }

  /** getYear after setYear of 2000..2099 on a faithful bus returns the year. */
  lemma YearRoundTrip(rtc: Rtc, year: bv16)
    requires Faithful(rtc.bus) && 2000 <= year <= 2099
    ensures GetYear(SetYear(rtc, year)).value == year
  {
    YearByteIsBcd(year);
    BcdRoundTrip((year - 2000) as bv8);
  }

  /** getMemoryByte: offsets above 55 read as 0 without touching the bus; others
      read register 0x08 + offset into the buffer. */
  function GetMemoryByte(rtc: Rtc, offset: bv8): (g: Got<bv8>)
    ensures offset > 55 ==> g == Got(0, rtc)
    ensures offset <= 55 ==> g.rtc.bus.log == rtc.bus.log + [ReadAccess(RaRam + offset as nat)]
    ensures offset <= 55 && Outcome(rtc.bus) == Delivers ==> g.value == Value(rtc.bus, RaRam + offset as nat)
    ensures offset <= 55 && Outcome(rtc.bus) != Delivers ==> g.value == rtc.buffer
  {
    if offset > 55 then Got(0, rtc)
    else
      var r := ReadIntoBuffer(rtc, RaRam + offset as nat);
      Got(r.buffer, r)
  }

  /** setMemoryByte: offsets above 55 are ignored; others write register 0x08 + offset. */
  function SetMemoryByte(rtc: Rtc, offset: bv8, value: bv8): (r: Rtc)
    ensures offset > 55 ==> r == rtc
    ensures offset <= 55 ==> r.bus.log == rtc.bus.log + [WriteAccess(RaRam + offset as nat, value)]
    ensures forall reg | reg != RaRam + offset as nat :: Value(r.bus, reg) == Value(rtc.bus, reg)
  {
    if offset > 55 then rtc else WriteRegister(rtc, RaRam + offset as nat, value)
  }

  /** RAM bytes written at offsets 0..55 read back on a faithful bus, and the
      time registers 0x00..0x07 are never touched by them. */
  lemma MemoryRoundTrip(rtc: Rtc, offset: bv8, value: bv8, reg: nat)
    requires Faithful(rtc.bus) && offset <= 55
    ensures GetMemoryByte(SetMemoryByte(rtc, offset, value), offset).value == value
    ensures reg < RaRam ==> Value(SetMemoryByte(rtc, offset, value).bus, reg) == Value(rtc.bus, reg)
  {
  }

  /** initialize: getMode then getClockRunning, which load both cached flags. */
  function Initialize(rtc: Rtc): (r: Rtc)
    ensures Outcome(rtc.bus) == Delivers ==> r.mode12 == Bit8(Value(rtc.bus, RaHours), ModeBit)
    ensures rtc.bus.answers(|rtc.bus.log| + 1) == Delivers ==> r.clockHalt == Bit8(Value(rtc.bus, RaSeconds), ChBit)
    ensures r.bus.log == rtc.bus.log + [ReadAccess(RaHours), ReadAccess(RaSeconds)]
  {
    GetClockRunning(GetModeAsWritten(rtc).rtc).rtc
  }
}
