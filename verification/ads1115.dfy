/** The ADS1115 analog-to-digital converter driver: the CONFIG register's fields,
    single-shot conversions (trigger, poll, read), and the three settings the
    driver caches — multiplexer, gain and operating mode.

    The registers are 16 bits wide and are reached through the word-register
    operations of I2Cdev. The conversion itself runs on the device's clock, so
    it is an input: `done(i)` says whether the conversion has finished by the
    `i`-th readiness check of a poll. */
module ADS1115 {
  import opened Bits
  import opened Registers
  import opened I2Cdev

  const RaConversion: nat := 0x00
  const RaConfig: nat := 0x01

  const OsBit: bv8 := 15
  const MuxBit: bv8 := 14
  const MuxLength: bv8 := 3
  const PgaBit: bv8 := 11
  const PgaLength: bv8 := 3
  const ModeBit: bv8 := 8
  const DrBit: bv8 := 7
  const DrLength: bv8 := 3
  const CompModeBit: bv8 := 4
  const CompPolBit: bv8 := 3
  const CompLatBit: bv8 := 2
  const CompQueBit: bv8 := 1
  const CompQueLength: bv8 := 2

  const MuxP0N1: bv8 := 0x00
  const Pga2P048: bv8 := 0x02
  const ModeContinuous: bool := false
  const ModeSingleshot: bool := true
  const Rate128: bv8 := 0x04
  const CompQueDisable: bv8 := 0x03

  /** I2Cdev's default read timeout, which getConversion passes as the retry count. */
  const DefaultReadTimeout: nat := 1000

  /** The driver: its bus, the word `buffer` every read goes through, and the
      cached operating mode, multiplexer and gain. */
  datatype Adc = Adc(bus: Bus<bv16>, buffer: bv16, devMode: bool, muxMode: bv8, pgaMode: bv8)

  /** A call's result together with the driver after it. */
  datatype Answer<T> = Answer(value: T, adc: Adc)

  /** The constructor: continuous mode, multiplexer 0 and gain 0 are cached
      whatever the device holds, and no access is made; the buffer is
      uninitialised, so what it holds is an input. */
  function Create(bus: Bus<bv16>, buffer: bv16): (adc: Adc)
    ensures adc.bus == bus && adc.buffer == buffer
    ensures adc.devMode == ModeContinuous && adc.muxMode == MuxP0N1 && adc.pgaMode == 0
  {
    Adc(bus, buffer, ModeContinuous, 0, 0)
  }

  /** `int16_t` of a register word: two's complement. */
  function ToInt16(w: bv16): (v: int)
    ensures -0x8000 <= v < 0x8000
  {
    var x := w as int;
    if x < 0x8000 then x else x - 0x1_0000
  }

  /** The device's side of a conversion: the OS bit of CONFIG reads 1 once it
      has finished. */
  function Settle(bus: Bus<bv16>, finished: bool): Bus<bv16>
  {
    bus.(regs := bus.regs[RaConfig := PutBit16(Value(bus, RaConfig), OsBit, finished)])
  }

  /** What a readiness check made as access `at` sees: the device's OS bit when
      the read delivers the word or at least its most significant byte, which
      holds the OS bit; otherwise the bit of the uninitialised word readBitW
      masks. */
  predicate SeesReady(bus: Bus<bv16>, at: nat, finished: bool)
  {
    if bus.answers(at) == Delivers || bus.halves(at) then finished else Bit16(bus.junks(at), OsBit)
  }

  /** isConversionReady: readBitW of the OS bit into the buffer. It reads
      CONFIG once and answers what that check sees; the bus behaves as before
      and the cache is untouched. */
  function IsConversionReady(adc: Adc, finished: bool): (r: Answer<bool>)
    ensures r.value == SeesReady(adc.bus, |adc.bus.log|, finished)
    ensures r.adc.bus.log == adc.bus.log + [ReadAccess(RaConfig)]
    ensures r.adc.bus.answers == adc.bus.answers && r.adc.bus.halves == adc.bus.halves
    ensures r.adc.bus.junks == adc.bus.junks
    ensures r.adc.devMode == adc.devMode && r.adc.muxMode == adc.muxMode && r.adc.pgaMode == adc.pgaMode
  {
    var b := Settle(adc.bus, finished);
    assert Value(b, RaConfig) == PutBit16(Value(adc.bus, RaConfig), OsBit, finished);
    var rd := ReadBitW(b, RaConfig, OsBit);
    Answer(rd.data != 0, adc.(bus := rd.bus, buffer := rd.data))
  }

  /** The checks of a poll that are still to come, from check `i` on. */
  function Poll(adc: Adc, maxRetries: nat, done: nat -> bool, i: nat): Answer<bool>
    requires i <= maxRetries
    decreases maxRetries - i
  {
    if i == maxRetries then Answer(false, adc)
    else
      var check := IsConversionReady(adc, done(i));
      if check.value then check else Poll(check.adc, maxRetries, done, i + 1)
  }

  /** pollConversion: up to `maxRetries` (a `uint16_t`) readiness checks. */
  function PollConversion(adc: Adc, maxRetries: nat, done: nat -> bool): (r: Answer<bool>)
    requires maxRetries < 0x1_0000
    ensures maxRetries == 0 ==> r == Answer(false, adc)
    ensures r.value == SomeCheckSees(adc.bus, |adc.bus.log|, maxRetries, done, 0)
    ensures |adc.bus.log| <= |r.adc.bus.log| <= |adc.bus.log| + maxRetries
  {
    PollSome(adc, maxRetries, done, 0);
    PollLog(adc, maxRetries, done, 0);
    ChecksMadeFirst(adc.bus, |adc.bus.log|, maxRetries, done, 0);
    Poll(adc, maxRetries, done, 0)
  }

  /** `n` reads of CONFIG. */
  function ConfigReads(n: nat): (s: seq<Access<bv16>>)
  {
    seq(n, _ => ReadAccess(RaConfig))
  }

  /** One step of a poll: a check that sees the conversion finished ends it,
      any other check is followed by the rest of the poll. */
  lemma PollStep(adc: Adc, maxRetries: nat, done: nat -> bool, i: nat)
    requires i < maxRetries
    ensures var c := IsConversionReady(adc, done(i));
            Poll(adc, maxRetries, done, i) == if c.value then c else Poll(c.adc, maxRetries, done, i + 1)
  {
  }

  /** The number of checks a poll from check `i` on makes when check `i` is
      access `at`, defined from what each check sees: up to and including the
      first that sees the conversion finished, or all that remain. */
  function ChecksMade(bus: Bus<bv16>, at: nat, maxRetries: nat, done: nat -> bool, i: nat): nat
    requires i <= maxRetries
    decreases maxRetries - i
  {
    if i == maxRetries then 0
    else if SeesReady(bus, at, done(i)) then 1
    else 1 + ChecksMade(bus, at + 1, maxRetries, done, i + 1)
  }

  /** The count stops at the first check that sees the conversion finished. */
  lemma {:induction false} ChecksMadeFirst(bus: Bus<bv16>, at: nat, maxRetries: nat, done: nat -> bool, i: nat)
    requires i <= maxRetries
    ensures ChecksMade(bus, at, maxRetries, done, i) <= maxRetries - i
    ensures forall j | i <= j < i + ChecksMade(bus, at, maxRetries, done, i) - 1 :: !SeesReady(bus, at + (j - i), done(j))
    ensures ChecksMade(bus, at, maxRetries, done, i) < maxRetries - i ==>
              var n := ChecksMade(bus, at, maxRetries, done, i);
              SeesReady(bus, at + n - 1, done(i + n - 1))
    decreases maxRetries - i
  {
    if i < maxRetries && !SeesReady(bus, at, done(i)) {
      ChecksMadeFirst(bus, at + 1, maxRetries, done, i + 1);
    }
  }

  /** A poll makes exactly those checks, each a read of CONFIG, and answers
      true exactly when the last one saw the conversion finished. */
  lemma PollChecks(adc: Adc, maxRetries: nat, done: nat -> bool, i: nat)
    requires i <= maxRetries
    ensures var k := |adc.bus.log|;
            var n := ChecksMade(adc.bus, k, maxRetries, done, i);
            && Poll(adc, maxRetries, done, i).adc.bus.log == adc.bus.log + ConfigReads(n)
            && (Poll(adc, maxRetries, done, i).value <==> n > 0 && SeesReady(adc.bus, k + n - 1, done(i + n - 1)))
  {
    PollLog(adc, maxRetries, done, i);
    PollValue(adc, maxRetries, done, i);
  }

  /** The accesses of a poll: one read of CONFIG per check made. */
  lemma {:induction false} PollLog(adc: Adc, maxRetries: nat, done: nat -> bool, i: nat)
    requires i <= maxRetries
    ensures Poll(adc, maxRetries, done, i).adc.bus.log
              == adc.bus.log + ConfigReads(ChecksMade(adc.bus, |adc.bus.log|, maxRetries, done, i))
    decreases maxRetries - i
  {
    var k := |adc.bus.log|;
    if i == maxRetries {
      assert adc.bus.log + ConfigReads(0) == adc.bus.log;
    } else {
      var check := IsConversionReady(adc, done(i));
      PollStep(adc, maxRetries, done, i);
      if check.value {
        assert ConfigReads(1) == [ReadAccess(RaConfig)];
      } else {
        PollLog(check.adc, maxRetries, done, i + 1);
        var n := ChecksMade(adc.bus, k + 1, maxRetries, done, i + 1);
        SameSight(adc.bus, check.adc.bus, k + 1, maxRetries, done, i + 1);
        assert ConfigReads(1) + ConfigReads(n) == ConfigReads(n + 1);
      }
    }
  }

  /** Whether some check from check `i` (access `at`) on sees the conversion finished. */
  predicate SomeCheckSees(bus: Bus<bv16>, at: nat, maxRetries: nat, done: nat -> bool, i: nat)
    requires i <= maxRetries
    decreases maxRetries - i
  {
    i < maxRetries && (SeesReady(bus, at, done(i)) || SomeCheckSees(bus, at + 1, maxRetries, done, i + 1))
  }

  /** A poll answers true exactly when one of its checks sees the conversion finished. */
  lemma {:induction false} PollSome(adc: Adc, maxRetries: nat, done: nat -> bool, i: nat)
    requires i <= maxRetries
    ensures Poll(adc, maxRetries, done, i).value == SomeCheckSees(adc.bus, |adc.bus.log|, maxRetries, done, i)
    decreases maxRetries - i
  {
    if i < maxRetries {
      var check := IsConversionReady(adc, done(i));
      PollStep(adc, maxRetries, done, i);
      if !check.value {
        PollSome(check.adc, maxRetries, done, i + 1);
        SomeSame(adc.bus, check.adc.bus, |adc.bus.log| + 1, maxRetries, done, i + 1);
      }
    }
  }

  /** Which checks see the conversion finished depends only on what the bus does with each access. */
  lemma {:induction false} SomeSame(b1: Bus<bv16>, b2: Bus<bv16>, at: nat, maxRetries: nat, done: nat -> bool, i: nat)
    requires i <= maxRetries
    requires b1.answers == b2.answers && b1.halves == b2.halves && b1.junks == b2.junks
    ensures SomeCheckSees(b1, at, maxRetries, done, i) == SomeCheckSees(b2, at, maxRetries, done, i)
    decreases maxRetries - i
  {
    if i < maxRetries {
      SameSeen(b1, b2, at, done(i));
      SomeSame(b1, b2, at + 1, maxRetries, done, i + 1);
    }
  }

  /** Some check sees the conversion finished exactly when the last one counted does. */
  lemma {:induction false} SomeIsLast(bus: Bus<bv16>, at: nat, maxRetries: nat, done: nat -> bool, i: nat)
    requires i <= maxRetries
    ensures var n := ChecksMade(bus, at, maxRetries, done, i);
            SomeCheckSees(bus, at, maxRetries, done, i) <==> n > 0 && SeesReady(bus, at + n - 1, done(i + n - 1))
    decreases maxRetries - i
  {
    if i < maxRetries && !SeesReady(bus, at, done(i)) {
      SomeIsLast(bus, at + 1, maxRetries, done, i + 1);
    }
  }

  /** The answer of a poll: whether its last check saw the conversion finished. */
  lemma PollValue(adc: Adc, maxRetries: nat, done: nat -> bool, i: nat)
    requires i <= maxRetries
    ensures var k := |adc.bus.log|;
            var n := ChecksMade(adc.bus, k, maxRetries, done, i);
            Poll(adc, maxRetries, done, i).value <==> n > 0 && SeesReady(adc.bus, k + n - 1, done(i + n - 1))
  {
    PollSome(adc, maxRetries, done, i);
    SomeIsLast(adc.bus, |adc.bus.log|, maxRetries, done, i);
  }

  /** What one check sees depends only on what the bus does with that access. */
  lemma SameSeen(b1: Bus<bv16>, b2: Bus<bv16>, at: nat, finished: bool)
    requires b1.answers == b2.answers && b1.halves == b2.halves && b1.junks == b2.junks
    ensures SeesReady(b1, at, finished) == SeesReady(b2, at, finished)
  {
  }

  /** What the checks see depends only on what the bus does with each access. */
  lemma {:induction false} SameSight(b1: Bus<bv16>, b2: Bus<bv16>, at: nat, maxRetries: nat, done: nat -> bool, i: nat)
    requires i <= maxRetries
    requires b1.answers == b2.answers && b1.halves == b2.halves && b1.junks == b2.junks
    ensures ChecksMade(b1, at, maxRetries, done, i) == ChecksMade(b2, at, maxRetries, done, i)
    decreases maxRetries - i
  {
    if i < maxRetries {
      SameSight(b1, b2, at + 1, maxRetries, done, i + 1);
    }
  }

  /** Two buses that behave alike access by access and agree on every register but CONFIG. */
  ghost predicate SameDevice(a: Bus<bv16>, b: Bus<bv16>)
  {
    && a.answers == b.answers && a.halves == b.halves && a.acks == b.acks && a.stores == b.stores
    && a.junks == b.junks && a.blank == b.blank
    && (forall reg | reg != RaConfig :: Value(a, reg) == Value(b, reg))
  }

  /** The bits of `v` that `mask` selects. */
  function Masked(v: bv16, mask: bv16): bv16
  {
    v & mask
  }

  /** A CONFIG word without its OS bit: the settings it holds. */
  function BelowOs(v: bv16): bv16
  {
    v & 0x7FFF
  }

  /** Setting or clearing the OS bit leaves the settings as they were. */
  lemma OsBitAside(v: bv16, on: bool)
    ensures BelowOs(PutBit16(v, OsBit, on)) == BelowOs(v)
  {
  }

  /** `a` is `b` up to the access log and the OS bit of CONFIG: same bus
      behaviour, same cache, same registers otherwise. */
  ghost predicate SameSettings(a: Adc, b: Adc)
  {
    && SameDevice(a.bus, b.bus)
    && a.devMode == b.devMode && a.muxMode == b.muxMode && a.pgaMode == b.pgaMode
    && BelowOs(Value(a.bus, RaConfig)) == BelowOs(Value(b.bus, RaConfig))
  }

  /** Polling changes nothing but the log and the OS bit the device sets. */
  lemma {:induction false} PollKeeps(adc: Adc, maxRetries: nat, done: nat -> bool, i: nat)
    requires i <= maxRetries
    ensures SameSettings(Poll(adc, maxRetries, done, i).adc, adc)
    decreases maxRetries - i
  {
    if i < maxRetries {
      var check := IsConversionReady(adc, done(i));
      OsBitAside(Value(adc.bus, RaConfig), done(i));
      assert SameSettings(check.adc, adc);
      if !check.value {
        PollKeeps(check.adc, maxRetries, done, i + 1);
      }
    }
  }

  /** triggerConversion: writeBitW sets the OS bit, which starts a single conversion. */
  function TriggerConversion(adc: Adc): (r: Adc)
    ensures r.bus.log == adc.bus.log + BitWrite(FetchedW(adc.bus, RaConfig), OsBit, true)
    ensures adc.bus.stores ==> Bit16(Value(r.bus, RaConfig), OsBit)
    ensures r.buffer == adc.buffer && r.devMode == adc.devMode && r.muxMode == adc.muxMode && r.pgaMode == adc.pgaMode
  {
    adc.(bus := WriteBitW(adc.bus, RaConfig, OsBit, 1).bus)
  }

  /** Whether getConversion triggers and polls: only when asked and only in
      single-shot mode. */
  predicate Triggers(adc: Adc, triggerAndPoll: bool)
  {
    triggerAndPoll && adc.devMode == ModeSingleshot
  }

  /** The part of getConversion before the read: trigger and poll when asked
      and in single-shot mode, otherwise nothing. */
  function Prepare(adc: Adc, triggerAndPoll: bool, done: nat -> bool): Adc
  {
    if Triggers(adc, triggerAndPoll) then PollConversion(TriggerConversion(adc), DefaultReadTimeout, done).adc else adc
  }

  /** getConversion: trigger and poll (up to the default timeout's worth of
      checks) when asked and in single-shot mode, then read CONVERSION into the
      buffer and return it as a signed value. */
  function GetConversion(adc: Adc, triggerAndPoll: bool, done: nat -> bool): (r: Answer<int>)
    ensures r.adc.devMode == adc.devMode && r.adc.muxMode == adc.muxMode && r.adc.pgaMode == adc.pgaMode
    ensures -0x8000 <= r.value < 0x8000
  {
    var a := Prepare(adc, triggerAndPoll, done);
    PrepareCache(adc, triggerAndPoll, done);
    var rd := ReadWord(a.bus, RaConversion, a.buffer);
    Answer(ToInt16(rd.data), a.(bus := rd.bus, buffer := rd.data))
  }

  /** The accesses of a writeBitW on CONFIG that started from the word `v`. */
  function BitWrite(v: bv16, bit: bv8, on: bool): seq<Access<bv16>>
    requires bit < 16
  {
    [ReadAccess(RaConfig), WriteAccess(RaConfig, PutBit16(v, bit, on))]
  }

  /** The accesses of one getConversion on `bus`: when it triggers, the OS-bit
      read-modify-write, the readiness checks, then the read of CONVERSION;
      otherwise that read alone. */
  function ConversionLog(bus: Bus<bv16>, triggered: bool, done: nat -> bool): seq<Access<bv16>>
  {
    if triggered then
      BitWrite(FetchedW(bus, RaConfig), OsBit, true) + ConfigReads(ChecksMade(bus, |bus.log| + 2, DefaultReadTimeout, done, 0))
        + [ReadAccess(RaConversion)]
    else [ReadAccess(RaConversion)]
  }

  /** getConversion triggers and polls only when asked and in single-shot mode,
      then reads CONVERSION once. */
  lemma GetConversionLog(adc: Adc, triggerAndPoll: bool, done: nat -> bool)
    ensures GetConversion(adc, triggerAndPoll, done).adc.bus.log
              == adc.bus.log + ConversionLog(adc.bus, Triggers(adc, triggerAndPoll), done)
  {
    if Triggers(adc, triggerAndPoll) {
      var t := TriggerConversion(adc);
      PollChecks(t, DefaultReadTimeout, done, 0);
      SameSight(adc.bus, t.bus, |t.bus.log|, DefaultReadTimeout, done, 0);
    }
  }

  /** getConversion leaves the cache alone, and when its last access, the read
      of CONVERSION, delivers, it returns that register as a signed value and
      leaves it in the buffer. */
  lemma GetConversionSpec(adc: Adc, triggerAndPoll: bool, done: nat -> bool)
    ensures var r := GetConversion(adc, triggerAndPoll, done);
            var last := |r.adc.bus.log| - 1;
            && |r.adc.bus.log| > |adc.bus.log|
            && r.adc.devMode == adc.devMode && r.adc.muxMode == adc.muxMode && r.adc.pgaMode == adc.pgaMode
            && (adc.bus.answers(last) == Delivers ==>
                  r.value == ToInt16(Value(adc.bus, RaConversion)) && r.adc.buffer == Value(adc.bus, RaConversion))
  {
    var a := Prepare(adc, triggerAndPoll, done);
    PrepareDevice(adc, triggerAndPoll, done);
    PrepareCache(adc, triggerAndPoll, done);
    var rd := ReadWord(a.bus, RaConversion, a.buffer);
    assert GetConversion(adc, triggerAndPoll, done) == Answer(ToInt16(rd.data), a.(bus := rd.bus, buffer := rd.data));
  }

  /** Triggering and polling leave the cache alone and only add accesses. */
  lemma PrepareCache(adc: Adc, triggerAndPoll: bool, done: nat -> bool)
    ensures var a := Prepare(adc, triggerAndPoll, done);
            && a.devMode == adc.devMode && a.muxMode == adc.muxMode && a.pgaMode == adc.pgaMode
            && |a.bus.log| >= |adc.bus.log|
  {
    if Triggers(adc, triggerAndPoll) {
      var t := TriggerConversion(adc);
      PollKeeps(t, DefaultReadTimeout, done, 0);
      PollChecks(t, DefaultReadTimeout, done, 0);
    }
  }

  lemma SameSettingsTrans(a: Adc, b: Adc, c: Adc)
    requires SameSettings(a, b) && SameSettings(b, c)
    ensures SameSettings(a, c)
  {
  }

  /** A read changes nothing but the log and the buffer. */
  lemma ReadKeeps(adc: Adc, reg: nat)
    ensures var rd := ReadWord(adc.bus, reg, adc.buffer);
            SameSettings(adc.(bus := rd.bus, buffer := rd.data), adc)
  {
    var rd := ReadWord(adc.bus, reg, adc.buffer);
    var b := adc.(bus := rd.bus, buffer := rd.data);
    assert b.bus.regs == adc.bus.regs && b.bus.blank == adc.bus.blank;
    assert forall r :: Value(b.bus, r) == Value(adc.bus, r);
  }

  /** On a delivering bus getConversion changes no setting: the trigger rewrites
      CONFIG with only the OS bit set. */
  lemma GetConversionKeeps(adc: Adc, triggerAndPoll: bool, done: nat -> bool)
    requires Outcome(adc.bus) == Delivers
    ensures SameSettings(GetConversion(adc, triggerAndPoll, done).adc, adc)
  {
    var a := Prepare(adc, triggerAndPoll, done);
    PrepareKeeps(adc, triggerAndPoll, done);
    ReadKeeps(a, RaConversion);
    var rd := ReadWord(a.bus, RaConversion, a.buffer);
    SameSettingsTrans(a.(bus := rd.bus, buffer := rd.data), a, adc);
  }

  /** Triggering and polling on a delivering bus keep the settings. */
  lemma PrepareKeeps(adc: Adc, triggerAndPoll: bool, done: nat -> bool)
    requires Outcome(adc.bus) == Delivers
    ensures SameSettings(Prepare(adc, triggerAndPoll, done), adc)
  {
    if Triggers(adc, triggerAndPoll) {
      var t := TriggerConversion(adc);
      OsBitAside(Value(adc.bus, RaConfig), true);
      assert SameSettings(t, adc);
      PollKeeps(t, DefaultReadTimeout, done, 0);
      SameSettingsTrans(Prepare(adc, triggerAndPoll, done), t, adc);
    }
  }

  /** The CONFIG register as the device holds it. */
  function Config(adc: Adc): bv16
  {
    Value(adc.bus, RaConfig)
  }

  /** A read-modify-write of CONFIG that leaves bit `bit` equal to `on`. */
  predicate SetsBit(a: seq<Access<bv16>>, bit: bv8, on: bool)
    requires bit < 16
  {
    && |a| == 2 && a[0] == ReadAccess(RaConfig)
    && a[1].WriteAccess? && a[1].reg == RaConfig && Bit16(a[1].value, bit) == on
  }

  /** Such a write sets the bit it names. */
  lemma BitWriteSets(v: bv16, bit: bv8, on: bool)
    requires bit < 16
    ensures SetsBit(BitWrite(v, bit, on), bit, on)
  {
  }

  /** setMode: writeBitW of the MODE bit; the cached mode follows only a write
      that reports success. */
  function SetMode(adc: Adc, mode: bool): (r: Adc)
    ensures r.devMode == mode || r.devMode == adc.devMode
    ensures r.muxMode == adc.muxMode && r.pgaMode == adc.pgaMode && r.buffer == adc.buffer
  {
    var w := WriteBitW(adc.bus, RaConfig, ModeBit, if mode then 1 else 0);
    if w.ok then adc.(bus := w.bus, devMode := mode) else adc.(bus := w.bus)
  }

  /** setMode sends one read-modify-write of CONFIG setting the MODE bit, and
      the cache follows the acknowledgement. */
  lemma SetModeSpec(adc: Adc, mode: bool)
    ensures var r := SetMode(adc, mode);
            && r.devMode == (if adc.bus.acks(|adc.bus.log| + 1) then mode else adc.devMode)
            && r.muxMode == adc.muxMode && r.pgaMode == adc.pgaMode && r.buffer == adc.buffer
            && r.bus.log == adc.bus.log + BitWrite(FetchedW(adc.bus, RaConfig), ModeBit, mode)
  {
  }

  /** setMode touches no register but CONFIG, and a faithful device ends up
      holding the new MODE bit with the rest of CONFIG as it was. */
  lemma SetModeKeeps(adc: Adc, mode: bool)
    ensures SameDevice(SetMode(adc, mode).bus, adc.bus)
    ensures Faithful(adc.bus) ==> Config(SetMode(adc, mode)) == PutBit16(Config(adc), ModeBit, mode)
  {
  }

  /** The accesses of one getConversion starting at access `at`: when it
      triggers, the OS-bit write, the readiness checks the poll makes, then the
      read of CONVERSION; otherwise that read alone. */
  predicate Converts(a: seq<Access<bv16>>, bus: Bus<bv16>, at: nat, triggered: bool, done: nat -> bool)
  {
    var n := ChecksMade(bus, at + 2, DefaultReadTimeout, done, 0);
    if triggered then
      |a| == n + 3 && SetsBit(a[..2], OsBit, true) && a[2..n + 2] == ConfigReads(n) && a[n + 2] == ReadAccess(RaConversion)
    else a == [ReadAccess(RaConversion)]
  }

  /** The stop/start setMultiplexer and setGain force in continuous mode:
      single-shot mode, one conversion, continuous mode again. */
  function StopStart(adc: Adc, done: nat -> bool): Adc
  {
    var single := SetMode(adc, ModeSingleshot);
    var converted := GetConversion(single, true, done).adc;
    SetMode(converted, ModeContinuous)
  }

  /** The stop/start runs only when the cached mode is continuous. */
  function Restart(adc: Adc, done: nat -> bool): Adc
  {
    if adc.devMode == ModeContinuous then StopStart(adc, done) else adc
  }

  /** A getConversion log has the shape `Converts` describes. */
  lemma ConversionLogConverts(bus: Bus<bv16>, triggered: bool, done: nat -> bool)
    ensures Converts(ConversionLog(bus, triggered, done), bus, |bus.log|, triggered, done)
  {
    if triggered {
      var n := ChecksMade(bus, |bus.log| + 2, DefaultReadTimeout, done, 0);
      var w := BitWrite(FetchedW(bus, RaConfig), OsBit, true);
      BitWriteSets(FetchedW(bus, RaConfig), OsBit, true);
      var a := ConversionLog(bus, triggered, done);
      assert a == w + ConfigReads(n) + [ReadAccess(RaConversion)];
      assert a[..2] == w;
      assert a[2..n + 2] == ConfigReads(n);
    }
  }

  /** Cutting a log made of four consecutive parts gives the parts back. */
  lemma Parts(L: seq<Access<bv16>>, a: seq<Access<bv16>>, b: seq<Access<bv16>>, c: seq<Access<bv16>>, d: seq<Access<bv16>>)
    requires L == a + b + c + d && |b| == 2 && |d| == 2
    ensures |L| >= |a| + 4
    ensures L[..|a|] == a && L[|a|..|a| + 2] == b && L[|a| + 2..|L| - 2] == c && L[|L| - 2..] == d
  {
    assert L == (a + b) + c + d;
  }

  lemma SameDeviceTrans(a: Bus<bv16>, b: Bus<bv16>, c: Bus<bv16>)
    requires SameDevice(a, b) && SameDevice(b, c)
    ensures SameDevice(a, c)
  {
  }

  /** Whatever the bus answers, getConversion writes no register but CONFIG
      and leaves the bus's behaviour as it was. */
  lemma GetConversionDevice(adc: Adc, triggerAndPoll: bool, done: nat -> bool)
    ensures SameDevice(GetConversion(adc, triggerAndPoll, done).adc.bus, adc.bus)
  {
    var a := Prepare(adc, triggerAndPoll, done);
    PrepareDevice(adc, triggerAndPoll, done);
    ReadKeeps(a, RaConversion);
    var rd := ReadWord(a.bus, RaConversion, a.buffer);
    SameDeviceTrans(rd.bus, a.bus, adc.bus);
  }

  /** Triggering and polling write no register but CONFIG. */
  lemma PrepareDevice(adc: Adc, triggerAndPoll: bool, done: nat -> bool)
    ensures SameDevice(Prepare(adc, triggerAndPoll, done).bus, adc.bus)
  {
    if Triggers(adc, triggerAndPoll) {
      var t := TriggerConversion(adc);
      assert SameDevice(t.bus, adc.bus);
      PollKeeps(t, DefaultReadTimeout, done, 0);
      SameDeviceTrans(Prepare(adc, triggerAndPoll, done).bus, t.bus, adc.bus);
    }
  }

  /** Restart keeps the cached multiplexer and gain. The cached mode ends as it
      began unless, in continuous mode, the switch to single-shot (the write
      after the next access) is acknowledged and the switch back (the last
      access) is not: then the cache is left saying single-shot. */
  lemma RestartCache(adc: Adc, done: nat -> bool)
    ensures adc.devMode != ModeContinuous ==> Restart(adc, done) == adc
    ensures var r := Restart(adc, done);
            && r.muxMode == adc.muxMode && r.pgaMode == adc.pgaMode
            && r.devMode == (if adc.devMode == ModeContinuous && adc.bus.acks(|adc.bus.log| + 1)
                                && !adc.bus.acks(|r.bus.log| - 1)
                             then ModeSingleshot else adc.devMode)
  {
    if adc.devMode == ModeContinuous {
      var single := SetMode(adc, ModeSingleshot);
      SetModeStep(adc, ModeSingleshot);
      var converted := GetConversion(single, true, done).adc;
      GetConversionAcks(single, true, done);
      SetModeStep(converted, ModeContinuous);
    }
  }

  /** What one setMode does to the cache and to the length of the log: the
      cached mode follows the acknowledgement of its write, the access after
      the read. */
  lemma SetModeStep(adc: Adc, mode: bool)
    ensures var r := SetMode(adc, mode);
            && r.devMode == (if adc.bus.acks(|adc.bus.log| + 1) then mode else adc.devMode)
            && r.muxMode == adc.muxMode && r.pgaMode == adc.pgaMode
            && |r.bus.log| == |adc.bus.log| + 2 && r.bus.acks == adc.bus.acks
  {
    SetModeSpec(adc, mode);
  }

  /** getConversion leaves the acknowledgements of later writes as they were. */
  lemma GetConversionAcks(adc: Adc, triggerAndPoll: bool, done: nat -> bool)
    ensures GetConversion(adc, triggerAndPoll, done).adc.bus.acks == adc.bus.acks
  {
    GetConversionDevice(adc, triggerAndPoll, done);
  }

  /** In continuous mode the bus sees the switch to single-shot, one
      getConversion (which triggers exactly when that switch was acknowledged)
      and the switch back. */
  lemma RestartLog(adc: Adc, done: nat -> bool)
    requires adc.devMode == ModeContinuous
    ensures var L := Restart(adc, done).bus.log;
            var k := |adc.bus.log|;
            && |L| >= k + 5 && L[..k] == adc.bus.log
            && SetsBit(L[k..k + 2], ModeBit, ModeSingleshot)
            && Converts(L[k + 2..|L| - 2], adc.bus, k + 2, adc.bus.acks(k + 1), done)
            && SetsBit(L[|L| - 2..], ModeBit, ModeContinuous)
  {
    var k := |adc.bus.log|;
    var single := SetMode(adc, ModeSingleshot);
    SetModeSpec(adc, ModeSingleshot);
    SetModeKeeps(adc, ModeSingleshot);
    var w1 := BitWrite(FetchedW(adc.bus, RaConfig), ModeBit, ModeSingleshot);
    BitWriteSets(FetchedW(adc.bus, RaConfig), ModeBit, ModeSingleshot);
    var converted := GetConversion(single, true, done).adc;
    GetConversionLog(single, true, done);
    var c := ConversionLog(single.bus, adc.bus.acks(k + 1), done);
    ConversionLogConverts(single.bus, adc.bus.acks(k + 1), done);
    SameSight(adc.bus, single.bus, k + 4, DefaultReadTimeout, done, 0);
    SetModeSpec(converted, ModeContinuous);
    var w2 := BitWrite(FetchedW(converted.bus, RaConfig), ModeBit, ModeContinuous);
    BitWriteSets(FetchedW(converted.bus, RaConfig), ModeBit, ModeContinuous);
    Parts(Restart(adc, done).bus.log, adc.bus.log, w1, c, w2);
  }

  /** Words that agree below the OS bit agree on the MODE bit and on the rest. */
  lemma SplitBelowOs(x: bv16, y: bv16)
    requires BelowOs(x) == BelowOs(y)
    ensures Masked(x, 0x7EFF) == Masked(y, 0x7EFF)
    ensures Bit16(x, ModeBit) == Bit16(y, ModeBit)
  {
  }

  /** Drivers with the same settings agree on the MODE bit, on the rest of
      CONFIG below the OS bit, and on whether the device is faithful. */
  lemma SettingsSplit(a: Adc, b: Adc)
    requires SameSettings(a, b)
    ensures Masked(Config(a), 0x7EFF) == Masked(Config(b), 0x7EFF)
    ensures Bit16(Config(a), ModeBit) == Bit16(Config(b), ModeBit)
    ensures Faithful(a.bus) == Faithful(b.bus)
  {
    SplitBelowOs(Config(a), Config(b));
  }

  /** Changing the MODE bit keeps the other bits below the OS bit. */
  lemma PutModeKeeps(x: bv16, on: bool)
    ensures Masked(PutBit16(x, ModeBit, on), 0x7EFF) == Masked(x, 0x7EFF)
  {
  }

  /** On a faithful device setMode changes the MODE bit of CONFIG and nothing else. */
  lemma SetModeFaithful(adc: Adc, mode: bool)
    requires Faithful(adc.bus)
    ensures Faithful(SetMode(adc, mode).bus)
    ensures Masked(Config(SetMode(adc, mode)), 0x7EFF) == Masked(Config(adc), 0x7EFF)
    ensures Bit16(Config(SetMode(adc, mode)), ModeBit) == mode
    ensures SameDevice(SetMode(adc, mode).bus, adc.bus)
  {
    SetModeKeeps(adc, mode);
    PutModeKeeps(Config(adc), mode);
  }

  /** On a faithful device getConversion keeps every setting in CONFIG. */
  lemma GetConversionFaithful(adc: Adc, triggerAndPoll: bool, done: nat -> bool)
    requires Faithful(adc.bus)
    ensures Faithful(GetConversion(adc, triggerAndPoll, done).adc.bus)
    ensures Masked(Config(GetConversion(adc, triggerAndPoll, done).adc), 0x7EFF) == Masked(Config(adc), 0x7EFF)
    ensures Bit16(Config(GetConversion(adc, triggerAndPoll, done).adc), ModeBit) == Bit16(Config(adc), ModeBit)
    ensures SameDevice(GetConversion(adc, triggerAndPoll, done).adc.bus, adc.bus)
  {
    var r := GetConversion(adc, triggerAndPoll, done).adc;
    GetConversionKeeps(adc, triggerAndPoll, done);
    SettingsSplit(r, adc);
  }

  /** The stop/start on a faithful device: CONFIG ends in continuous mode with
      every other setting as it was (the OS bit aside), and no other register
      changes. */
  lemma StopStartFaithful(adc: Adc, done: nat -> bool)
    requires Faithful(adc.bus)
    ensures Masked(Config(StopStart(adc, done)), 0x7EFF) == Masked(Config(adc), 0x7EFF)
    ensures !Bit16(Config(StopStart(adc, done)), ModeBit)
    ensures SameDevice(StopStart(adc, done).bus, adc.bus)
  {
    var single := SetMode(adc, ModeSingleshot);
    SetModeFaithful(adc, ModeSingleshot);
    var converted := GetConversion(single, true, done).adc;
    GetConversionFaithful(single, true, done);
    SetModeFaithful(converted, ModeContinuous);
    SameDeviceTrans(converted.bus, single.bus, adc.bus);
    SameDeviceTrans(SetMode(converted, ModeContinuous).bus, converted.bus, adc.bus);
  }

  /** setMultiplexer: writeBitsW of the MUX field; when the write reports
      success the cache takes `mux` and, in continuous mode, the stop/start
      makes the device pick the new input up. */
  function SetMultiplexer(adc: Adc, mux: bv8, done: nat -> bool): (r: Adc)
    ensures r.muxMode == (if FieldWriteOk(adc.bus) then mux else adc.muxMode) && r.pgaMode == adc.pgaMode
  {
    var w := WriteBitsW(adc.bus, RaConfig, MuxBit, MuxLength, mux as bv16);
    FieldWriteShape(adc.bus, MuxBit, MuxLength, mux as bv16);
    if w.ok then
      var a := adc.(bus := w.bus, muxMode := mux);
      RestartCache(a, done);
      Restart(a, done)
    else adc.(bus := w.bus)
  }

  /** setGain: the same for the PGA field and the cached gain. */
  function SetGain(adc: Adc, gain: bv8, done: nat -> bool): (r: Adc)
    ensures r.pgaMode == (if FieldWriteOk(adc.bus) then gain else adc.pgaMode) && r.muxMode == adc.muxMode
  {
    var w := WriteBitsW(adc.bus, RaConfig, PgaBit, PgaLength, gain as bv16);
    FieldWriteShape(adc.bus, PgaBit, PgaLength, gain as bv16);
    if w.ok then
      var a := adc.(bus := w.bus, pgaMode := gain);
      RestartCache(a, done);
      Restart(a, done)
    else adc.(bus := w.bus)
  }

  /** Whether a writeBitsW on this bus reports success: the fetch delivered a
      nonzero count and the write was acknowledged. */
  predicate FieldWriteOk(bus: Bus<bv16>)
  {
    Count(Outcome(bus)) != 0 && bus.acks(|bus.log| + 1)
  }

  /** Whether the stop/start that follows a successful field write on `bus`,
      ending with the bus `after`, leaves the cached mode saying single-shot:
      the switch to single-shot (access `|log| + 3`) is acknowledged and the
      switch back (the last access) is not. */
  predicate StuckSingle(bus: Bus<bv16>, after: Bus<bv16>)
  {
    bus.acks(|bus.log| + 3) && |after.log| > 0 && !bus.acks(|after.log| - 1)
  }

  /** A writeBitsW of CONFIG reports success exactly as `FieldWriteOk` says,
      makes at most two accesses (two when it succeeds) and leaves the bus's
      answers to later writes as they were. */
  lemma FieldWriteShape(bus: Bus<bv16>, bitStart: bv8, length: bv8, data: bv16)
    requires ValidField16(bitStart, length)
    ensures var w := WriteBitsW(bus, RaConfig, bitStart, length, data);
            && w.ok == FieldWriteOk(bus)
            && |bus.log| < |w.bus.log| <= |bus.log| + 2
            && (w.ok ==> |w.bus.log| == |bus.log| + 2)
            && w.bus.acks == bus.acks
  {
  }

  /** Two accesses later, with the same answers to writes, the stop/start's
      condition is `StuckSingle`. */
  lemma StuckShift(bus: Bus<bv16>, later: Bus<bv16>, after: Bus<bv16>)
    requires |later.log| == |bus.log| + 2 && later.acks == bus.acks && |after.log| > 0
    ensures (later.acks(|later.log| + 1) && !later.acks(|after.log| - 1)) == StuckSingle(bus, after)
  {
  }

  /** The cached multiplexer follows a successful write only; the stop/start
      runs exactly when the write succeeded in continuous mode, and the cached
      mode ends as it began unless that stop/start's two mode writes got
      different answers. */
  lemma SetMultiplexerSpec(adc: Adc, mux: bv8, done: nat -> bool)
    ensures var r := SetMultiplexer(adc, mux, done);
            var restarted := FieldWriteOk(adc.bus) && adc.devMode == ModeContinuous;
            && r.muxMode == (if FieldWriteOk(adc.bus) then mux else adc.muxMode)
            && r.pgaMode == adc.pgaMode
            && r.devMode == (if restarted && StuckSingle(adc.bus, r.bus) then ModeSingleshot else adc.devMode)
            && (|r.bus.log| > |adc.bus.log| + 2 <==> restarted)
  {
    var w := WriteBitsW(adc.bus, RaConfig, MuxBit, MuxLength, mux as bv16);
    FieldWriteShape(adc.bus, MuxBit, MuxLength, mux as bv16);
    if w.ok {
      var a := adc.(bus := w.bus, muxMode := mux);
      RestartCache(a, done);
      RestartLength(a, done);
      StuckShift(adc.bus, a.bus, Restart(a, done).bus);
    }
  }

  /** The same for the cached gain. */
  lemma SetGainSpec(adc: Adc, gain: bv8, done: nat -> bool)
    ensures var r := SetGain(adc, gain, done);
            var restarted := FieldWriteOk(adc.bus) && adc.devMode == ModeContinuous;
            && r.pgaMode == (if FieldWriteOk(adc.bus) then gain else adc.pgaMode)
            && r.muxMode == adc.muxMode
            && r.devMode == (if restarted && StuckSingle(adc.bus, r.bus) then ModeSingleshot else adc.devMode)
            && (|r.bus.log| > |adc.bus.log| + 2 <==> restarted)
  {
    var w := WriteBitsW(adc.bus, RaConfig, PgaBit, PgaLength, gain as bv16);
    FieldWriteShape(adc.bus, PgaBit, PgaLength, gain as bv16);
    if w.ok {
      var a := adc.(bus := w.bus, pgaMode := gain);
      RestartCache(a, done);
      RestartLength(a, done);
      StuckShift(adc.bus, a.bus, Restart(a, done).bus);
    }
  }

  /** The stop/start makes at least five accesses; without it there are none. */
  lemma RestartLength(adc: Adc, done: nat -> bool)
    ensures var n := |Restart(adc, done).bus.log| - |adc.bus.log|;
            if adc.devMode == ModeContinuous then n >= 5 else n == 0
  {
    if adc.devMode == ModeContinuous {
      var single := SetMode(adc, ModeSingleshot);
      SetModeSpec(adc, ModeSingleshot);
      var converted := GetConversion(single, true, done).adc;
      GetConversionSpec(single, true, done);
      SetModeSpec(converted, ModeContinuous);
    }
  }

  /** On a faithful device a writeBitsW of a CONFIG field succeeds and
      replaces the field, and nothing else on the bus changes. */
  lemma FieldWriteFaithful(bus: Bus<bv16>, bitStart: bv8, length: bv8, data: bv16)
    requires ValidField16(bitStart, length) && Faithful(bus)
    ensures var w := WriteBitsW(bus, RaConfig, bitStart, length, data);
            && w.ok && Value(w.bus, RaConfig) == InsertField16(Value(bus, RaConfig), bitStart, length, data)
            && SameDevice(w.bus, bus)
  {
  }

  /** Whatever the bus answers, the stop/start writes no register but CONFIG. */
  lemma RestartDevice(adc: Adc, done: nat -> bool)
    ensures SameDevice(Restart(adc, done).bus, adc.bus)
  {
    if adc.devMode == ModeContinuous {
      var single := SetMode(adc, ModeSingleshot);
      SetModeKeeps(adc, ModeSingleshot);
      var converted := GetConversion(single, true, done).adc;
      GetConversionDevice(single, true, done);
      SetModeKeeps(converted, ModeContinuous);
      SameDeviceTrans(converted.bus, single.bus, adc.bus);
      SameDeviceTrans(SetMode(converted, ModeContinuous).bus, converted.bus, adc.bus);
    }
  }

  /** On a faithful device the stop/start, when it runs, clears the MODE bit
      and keeps the rest of CONFIG below the OS bit. */
  lemma RestartFaithful(adc: Adc, done: nat -> bool)
    requires Faithful(adc.bus)
    ensures Masked(Config(Restart(adc, done)), 0x7EFF) == Masked(Config(adc), 0x7EFF)
    ensures Bit16(Config(Restart(adc, done)), ModeBit) == (adc.devMode != ModeContinuous && Bit16(Config(adc), ModeBit))
    ensures SameDevice(Restart(adc, done).bus, adc.bus)
  {
    if adc.devMode == ModeContinuous {
      StopStartFaithful(adc, done);
    }
  }

  /** CONFIG after a write of the MUX field: the field holds the low three
      bits of `mux`, every bit outside the MUX field, the MODE bit and the OS
      bit is kept, and the MODE bit is cleared when the stop/start ran. */
  predicate MuxReplaced(before: bv16, after: bv16, mux: bv16, restarted: bool)
  {
    && ExtractField16(after, MuxBit, MuxLength) == mux & 7
    && Masked(after, 0x0EFF) == Masked(before, 0x0EFF)
    && Bit16(after, ModeBit) == (!restarted && Bit16(before, ModeBit))
  }

  /** The same for the PGA field, whose outside is 0x70FF. */
  predicate PgaReplaced(before: bv16, after: bv16, gain: bv16, restarted: bool)
  {
    && ExtractField16(after, PgaBit, PgaLength) == gain & 7
    && Masked(after, 0x70FF) == Masked(before, 0x70FF)
    && Bit16(after, ModeBit) == (!restarted && Bit16(before, ModeBit))
  }

  /** The MUX field written, then a stop/start that keeps the rest. */
  lemma MuxFieldAfter(v: bv16, y: bv16, d: bv16, restarted: bool)
    requires Masked(y, 0x7EFF) == Masked(InsertField16(v, MuxBit, MuxLength, d), 0x7EFF)
    requires Bit16(y, ModeBit) == (!restarted && Bit16(InsertField16(v, MuxBit, MuxLength, d), ModeBit))
    ensures MuxReplaced(v, y, d, restarted)
  {
  }

  /** The PGA field written, then a stop/start that keeps the rest. */
  lemma PgaFieldAfter(v: bv16, y: bv16, d: bv16, restarted: bool)
    requires Masked(y, 0x7EFF) == Masked(InsertField16(v, PgaBit, PgaLength, d), 0x7EFF)
    requires Bit16(y, ModeBit) == (!restarted && Bit16(InsertField16(v, PgaBit, PgaLength, d), ModeBit))
    ensures PgaReplaced(v, y, d, restarted)
  {
  }

  /** On a faithful device setMultiplexer leaves the low three bits of `mux` in
      the MUX field and every other setting but the MODE bit as it was; the
      stop/start, run in continuous mode, leaves the device in continuous mode. */
  lemma SetMultiplexerFaithful(adc: Adc, mux: bv8, done: nat -> bool)
    requires Faithful(adc.bus)
    ensures MuxReplaced(Config(adc), Config(SetMultiplexer(adc, mux, done)), mux as bv16, adc.devMode == ModeContinuous)
  {
    var a := adc.(bus := WriteBitsW(adc.bus, RaConfig, MuxBit, MuxLength, mux as bv16).bus, muxMode := mux);
    FieldWriteFaithful(adc.bus, MuxBit, MuxLength, mux as bv16);
    SetMultiplexerRestarts(adc, mux, done);
    MuxRestartFaithful(adc, a, mux, done);
  }

  /** On a faithful device setMultiplexer is the field write followed by the restart. */
  lemma SetMultiplexerRestarts(adc: Adc, mux: bv8, done: nat -> bool)
    requires Faithful(adc.bus)
    ensures SetMultiplexer(adc, mux, done)
              == Restart(adc.(bus := WriteBitsW(adc.bus, RaConfig, MuxBit, MuxLength, mux as bv16).bus, muxMode := mux), done)
  {
  }

  /** The restart after a faithful write of the MUX field keeps what the write did. */
  lemma MuxRestartFaithful(adc: Adc, a: Adc, mux: bv8, done: nat -> bool)
    requires Faithful(a.bus) && a.devMode == adc.devMode
    requires Config(a) == InsertField16(Config(adc), MuxBit, MuxLength, mux as bv16)
    ensures MuxReplaced(Config(adc), Config(Restart(a, done)), mux as bv16, adc.devMode == ModeContinuous)
  {
    RestartFaithful(a, done);
    MuxFieldAfter(Config(adc), Config(Restart(a, done)), mux as bv16, adc.devMode == ModeContinuous);
  }

  /** Whatever the bus answers, setMultiplexer writes no register but CONFIG. */
  lemma SetMultiplexerDevice(adc: Adc, mux: bv8, done: nat -> bool)
    ensures SameDevice(SetMultiplexer(adc, mux, done).bus, adc.bus)
  {
    var w := WriteBitsW(adc.bus, RaConfig, MuxBit, MuxLength, mux as bv16);
    if w.ok {
      var a := adc.(bus := w.bus, muxMode := mux);
      RestartDevice(a, done);
      SameDeviceTrans(Restart(a, done).bus, a.bus, adc.bus);
    }
  }

  /** The same for the PGA field. */
  lemma SetGainFaithful(adc: Adc, gain: bv8, done: nat -> bool)
    requires Faithful(adc.bus)
    ensures PgaReplaced(Config(adc), Config(SetGain(adc, gain, done)), gain as bv16, adc.devMode == ModeContinuous)
  {
    var a := adc.(bus := WriteBitsW(adc.bus, RaConfig, PgaBit, PgaLength, gain as bv16).bus, pgaMode := gain);
    FieldWriteFaithful(adc.bus, PgaBit, PgaLength, gain as bv16);
    SetGainRestarts(adc, gain, done);
    PgaRestartFaithful(adc, a, gain, done);
  }

  /** On a faithful device setGain is the field write followed by the restart. */
  lemma SetGainRestarts(adc: Adc, gain: bv8, done: nat -> bool)
    requires Faithful(adc.bus)
    ensures SetGain(adc, gain, done)
              == Restart(adc.(bus := WriteBitsW(adc.bus, RaConfig, PgaBit, PgaLength, gain as bv16).bus, pgaMode := gain), done)
  {
  }

  /** The restart after a faithful write of the PGA field keeps what the write did. */
  lemma PgaRestartFaithful(adc: Adc, a: Adc, gain: bv8, done: nat -> bool)
    requires Faithful(a.bus) && a.devMode == adc.devMode
    requires Config(a) == InsertField16(Config(adc), PgaBit, PgaLength, gain as bv16)
    ensures PgaReplaced(Config(adc), Config(Restart(a, done)), gain as bv16, adc.devMode == ModeContinuous)
  {
    RestartFaithful(a, done);
    PgaFieldAfter(Config(adc), Config(Restart(a, done)), gain as bv16, adc.devMode == ModeContinuous);
  }

  /** Whatever the bus answers, setGain writes no register but CONFIG. */
  lemma SetGainDevice(adc: Adc, gain: bv8, done: nat -> bool)
    ensures SameDevice(SetGain(adc, gain, done).bus, adc.bus)
  {
    var w := WriteBitsW(adc.bus, RaConfig, PgaBit, PgaLength, gain as bv16);
    if w.ok {
      var a := adc.(bus := w.bus, pgaMode := gain);
      RestartDevice(a, done);
      SameDeviceTrans(Restart(a, done).bus, a.bus, adc.bus);
    }
  }
}
