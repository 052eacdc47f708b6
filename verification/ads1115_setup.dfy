/** The rest of the ADS1115 driver: the CONFIG settings it does not cache
    (data rate and comparator), the getters that read CONFIG fields back, the
    threshold registers, `initialize`, the per-channel conversions and the
    connection test. */
module ADS1115Setup {
  import opened Bits
  import opened Registers
  import opened I2Cdev
  import opened ADS1115

  const RaLoThresh: nat := 0x02
  const RaHiThresh: nat := 0x03

  /** A writeBitsW of a CONFIG field the driver does not cache; a `uint8_t`
      argument is widened to the word writeBitsW takes. */
  function SetField(adc: Adc, bitStart: bv8, length: bv8, data: bv8): Adc
    requires ValidField16(bitStart, length)
  {
    adc.(bus := WriteBitsW(adc.bus, RaConfig, bitStart, length, data as bv16).bus)
  }

  /** A writeBitW of a CONFIG flag the driver does not cache; a `bool` argument
      arrives as 0 or 1. */
  function SetFlag(adc: Adc, bit: bv8, on: bool): Adc
    requires bit < 16
  {
    adc.(bus := WriteBitW(adc.bus, RaConfig, bit, if on then 1 else 0).bus)
  }

  function SetRate(adc: Adc, rate: bv8): (r: Adc)
    ensures r.devMode == adc.devMode && r.muxMode == adc.muxMode && r.pgaMode == adc.pgaMode && r.buffer == adc.buffer
    ensures Faithful(adc.bus) ==> ExtractField16(Config(r), DrBit, DrLength) == (rate as bv16) & LowMask16(DrLength)
  {
    SetFieldSpec(adc, DrBit, DrLength, rate);
    SetField(adc, DrBit, DrLength, rate)
  }

  function SetComparatorMode(adc: Adc, mode: bool): (r: Adc)
    ensures r.devMode == adc.devMode && r.muxMode == adc.muxMode && r.pgaMode == adc.pgaMode && r.buffer == adc.buffer
    ensures Faithful(adc.bus) ==> Bit16(Config(r), CompModeBit) == mode
  {
    SetFlagSpec(adc, CompModeBit, mode);
    SetFlag(adc, CompModeBit, mode)
  }

  function SetComparatorPolarity(adc: Adc, polarity: bool): (r: Adc)
    ensures r.devMode == adc.devMode && r.muxMode == adc.muxMode && r.pgaMode == adc.pgaMode && r.buffer == adc.buffer
    ensures Faithful(adc.bus) ==> Bit16(Config(r), CompPolBit) == polarity
  {
    SetFlagSpec(adc, CompPolBit, polarity);
    SetFlag(adc, CompPolBit, polarity)
  }

  function SetComparatorLatchEnabled(adc: Adc, enabled: bool): (r: Adc)
    ensures r.devMode == adc.devMode && r.muxMode == adc.muxMode && r.pgaMode == adc.pgaMode && r.buffer == adc.buffer
    ensures Faithful(adc.bus) ==> Bit16(Config(r), CompLatBit) == enabled
  {
    SetFlagSpec(adc, CompLatBit, enabled);
    SetFlag(adc, CompLatBit, enabled)
  }

  function SetComparatorQueueMode(adc: Adc, mode: bv8): (r: Adc)
    ensures r.devMode == adc.devMode && r.muxMode == adc.muxMode && r.pgaMode == adc.pgaMode && r.buffer == adc.buffer
    ensures Faithful(adc.bus) ==> ExtractField16(Config(r), CompQueBit, CompQueLength) == (mode as bv16) & LowMask16(CompQueLength)
  {
    SetFieldSpec(adc, CompQueBit, CompQueLength, mode);
    SetField(adc, CompQueBit, CompQueLength, mode)
  }

  /** An uncached field write keeps the cache and the buffer and touches no
      register but CONFIG; on a faithful device the field takes the low
      `length` bits of `data` and every other bit of CONFIG is kept. */
  lemma SetFieldSpec(adc: Adc, bitStart: bv8, length: bv8, data: bv8)
    requires ValidField16(bitStart, length)
    ensures var r := SetField(adc, bitStart, length, data);
            && r.devMode == adc.devMode && r.muxMode == adc.muxMode && r.pgaMode == adc.pgaMode
            && r.buffer == adc.buffer
            && SameDevice(r.bus, adc.bus)
            && (Faithful(adc.bus) ==> Config(r) == InsertField16(Config(adc), bitStart, length, data as bv16))
  {
  }

  /** An uncached flag write: the same, with the one bit set or cleared. */
  lemma SetFlagSpec(adc: Adc, bit: bv8, on: bool)
    requires bit < 16
    ensures var r := SetFlag(adc, bit, on);
            && r.devMode == adc.devMode && r.muxMode == adc.muxMode && r.pgaMode == adc.pgaMode
            && r.buffer == adc.buffer
            && SameDevice(r.bus, adc.bus)
            && (Faithful(adc.bus) ==> Config(r) == PutBit16(Config(adc), bit, on))
  {
  }

  /** The `uint8_t` a getter makes of the buffer word: its low byte. */
  function LowByte(w: bv16): bv8
  {
    (w & 0xFF) as bv8
  }

  /** readBitsW of a CONFIG field into the buffer, returned as a `uint8_t`.
      When the read count is 0 the buffer keeps whatever the last call left
      there, and that is what comes back. */
  function GetField(adc: Adc, bitStart: bv8, length: bv8): Answer<bv8>
    requires ValidField16(bitStart, length)
  {
    var rd := ReadBitsW(adc.bus, RaConfig, bitStart, length, adc.buffer);
    Answer(LowByte(rd.data), adc.(bus := rd.bus, buffer := rd.data))
  }

  /** readBitW of a CONFIG flag into the buffer; the getter's `bool` is
      whether the masked word is nonzero. */
  function GetFlag(adc: Adc, bit: bv8): Answer<bool>
    requires bit < 16
  {
    var rd := ReadBitW(adc.bus, RaConfig, bit);
    Answer(rd.data != 0, adc.(bus := rd.bus, buffer := rd.data))
  }

  /** getMultiplexer: the MUX field, which also replaces the cached multiplexer. */
  function GetMultiplexer(adc: Adc): (r: Answer<bv8>)
    ensures Count(Outcome(adc.bus)) != 0 ==> r.value as bv16 == ExtractField16(FetchedW(adc.bus, RaConfig), MuxBit, MuxLength)
    ensures Count(Outcome(adc.bus)) == 0 ==> r.value == LowByte(adc.buffer)
    ensures r.adc.muxMode == r.value && r.adc.pgaMode == adc.pgaMode && r.adc.devMode == adc.devMode
  {
    GetFieldSpec(adc, MuxBit, MuxLength);
    var f := GetField(adc, MuxBit, MuxLength);
    Answer(f.value, f.adc.(muxMode := f.value))
  }

  /** getGain: the PGA field, which also replaces the cached gain. */
  function GetGain(adc: Adc): (r: Answer<bv8>)
    ensures Count(Outcome(adc.bus)) != 0 ==> r.value as bv16 == ExtractField16(FetchedW(adc.bus, RaConfig), PgaBit, PgaLength)
    ensures Count(Outcome(adc.bus)) == 0 ==> r.value == LowByte(adc.buffer)
    ensures r.adc.pgaMode == r.value && r.adc.muxMode == adc.muxMode && r.adc.devMode == adc.devMode
  {
    GetFieldSpec(adc, PgaBit, PgaLength);
    var f := GetField(adc, PgaBit, PgaLength);
    Answer(f.value, f.adc.(pgaMode := f.value))
  }

  /** getMode: the MODE bit, which also replaces the cached mode. */
  function GetMode(adc: Adc): (r: Answer<bool>)
    ensures r.value == Bit16(FetchedW(adc.bus, RaConfig), ModeBit)
    ensures r.adc.devMode == r.value && r.adc.muxMode == adc.muxMode && r.adc.pgaMode == adc.pgaMode
  {
    GetFlagSpec(adc, ModeBit);
    var f := GetFlag(adc, ModeBit);
    Answer(f.value, f.adc.(devMode := f.value))
  }

  function GetRate(adc: Adc): (r: Answer<bv8>)
    ensures Count(Outcome(adc.bus)) != 0 ==> r.value as bv16 == ExtractField16(FetchedW(adc.bus, RaConfig), DrBit, DrLength)
    ensures Count(Outcome(adc.bus)) == 0 ==> r.value == LowByte(adc.buffer)
    ensures r.adc.devMode == adc.devMode && r.adc.muxMode == adc.muxMode && r.adc.pgaMode == adc.pgaMode
  {
    GetFieldSpec(adc, DrBit, DrLength);
    GetField(adc, DrBit, DrLength)
  }

  function GetComparatorMode(adc: Adc): (r: Answer<bool>)
    ensures r.value == Bit16(FetchedW(adc.bus, RaConfig), CompModeBit)
    ensures r.adc.devMode == adc.devMode && r.adc.muxMode == adc.muxMode && r.adc.pgaMode == adc.pgaMode
  {
    GetFlagSpec(adc, CompModeBit);
    GetFlag(adc, CompModeBit)
  }

  function GetComparatorPolarity(adc: Adc): (r: Answer<bool>)
    ensures r.value == Bit16(FetchedW(adc.bus, RaConfig), CompPolBit)
    ensures r.adc.devMode == adc.devMode && r.adc.muxMode == adc.muxMode && r.adc.pgaMode == adc.pgaMode
  {
    GetFlagSpec(adc, CompPolBit);
    GetFlag(adc, CompPolBit)
  }

  function GetComparatorLatchEnabled(adc: Adc): (r: Answer<bool>)
    ensures r.value == Bit16(FetchedW(adc.bus, RaConfig), CompLatBit)
    ensures r.adc.devMode == adc.devMode && r.adc.muxMode == adc.muxMode && r.adc.pgaMode == adc.pgaMode
  {
    GetFlagSpec(adc, CompLatBit);
    GetFlag(adc, CompLatBit)
  }

  function GetComparatorQueueMode(adc: Adc): (r: Answer<bv8>)
    ensures Count(Outcome(adc.bus)) != 0 ==> r.value as bv16 == ExtractField16(FetchedW(adc.bus, RaConfig), CompQueBit, CompQueLength)
    ensures Count(Outcome(adc.bus)) == 0 ==> r.value == LowByte(adc.buffer)
    ensures r.adc.devMode == adc.devMode && r.adc.muxMode == adc.muxMode && r.adc.pgaMode == adc.pgaMode
  {
    GetFieldSpec(adc, CompQueBit, CompQueLength);
    GetField(adc, CompQueBit, CompQueLength)
  }

  /** A field getter reads CONFIG once and returns the right-aligned field of
      the fetched word, or, when the count is 0, the low byte of the stale
      buffer; the cache is not touched. */
  lemma GetFieldSpec(adc: Adc, bitStart: bv8, length: bv8)
    requires ValidField16(bitStart, length) && length <= 8
    ensures var r := GetField(adc, bitStart, length);
            && (Count(Outcome(adc.bus)) != 0 ==> r.value as bv16 == ExtractField16(FetchedW(adc.bus, RaConfig), bitStart, length))
            && (Count(Outcome(adc.bus)) == 0 ==> r.value == LowByte(adc.buffer))
            && r.adc.bus == adc.bus.(log := adc.bus.log + [ReadAccess(RaConfig)])
            && r.adc.devMode == adc.devMode && r.adc.muxMode == adc.muxMode && r.adc.pgaMode == adc.pgaMode
  {
    if Count(Outcome(adc.bus)) != 0 {
      ByteWide(ExtractField16(FetchedW(adc.bus, RaConfig), bitStart, length), length);
    }
  }

  /** A word with no bit above the low `length <= 8` is its own low byte. */
  lemma ByteWide(w: bv16, length: bv8)
    requires length <= 8 && w & !LowMask16(length) == 0
    ensures LowByte(w) as bv16 == w
  {
  }

  /** A flag getter answers the bit of the fetched word. */
  lemma GetFlagSpec(adc: Adc, bit: bv8)
    requires bit < 16
    ensures var r := GetFlag(adc, bit);
            && r.value == Bit16(FetchedW(adc.bus, RaConfig), bit)
            && r.adc.bus == adc.bus.(log := adc.bus.log + [ReadAccess(RaConfig)])
            && r.adc.devMode == adc.devMode && r.adc.muxMode == adc.muxMode && r.adc.pgaMode == adc.pgaMode
  {
  }

  /** On a faithful device an uncached field getter returns the low `length`
      bits of what the matching setter wrote. */
  lemma FieldRoundTrip(adc: Adc, bitStart: bv8, length: bv8, data: bv8)
    requires ValidField16(bitStart, length) && length <= 8
    requires Faithful(adc.bus)
    ensures GetField(SetField(adc, bitStart, length, data), bitStart, length).value == data & LowMask8(length)
  {
    SetFieldSpec(adc, bitStart, length, data);
    LowByteOfField(data, length);
  }

  /** The low byte of a word field of at most 8 bits is the byte field. */
  lemma LowByteOfField(data: bv8, length: bv8)
    requires length <= 8
    ensures LowByte((data as bv16) & LowMask16(length)) == data & LowMask8(length)
  {
  }

  /** On a faithful device an uncached flag getter returns what the matching
      setter wrote. */
  lemma FlagRoundTrip(adc: Adc, bit: bv8, on: bool)
    requires bit < 16
    requires Faithful(adc.bus)
    ensures GetFlag(SetFlag(adc, bit, on), bit).value == on
  {
    SetFlagSpec(adc, bit, on);
  }

  /** On a faithful device getMultiplexer after setMultiplexer reads back the
      low three bits of `mux`; setMultiplexer cached `mux` itself, and the
      getter replaces the cache with what it read. */
  lemma MultiplexerRoundTrip(adc: Adc, mux: bv8, done: nat -> bool)
    requires Faithful(adc.bus)
    ensures var s := SetMultiplexer(adc, mux, done);
            && s.muxMode == mux
            && GetMultiplexer(s).value == mux & 7
            && GetMultiplexer(s).adc.muxMode == mux & 7
  {
    SetMultiplexerSpec(adc, mux, done);
    SetMultiplexerFaithful(adc, mux, done);
    SetMultiplexerDevice(adc, mux, done);
    var s := SetMultiplexer(adc, mux, done);
    GetFieldSpec(s, MuxBit, MuxLength);
    NarrowField(GetMultiplexer(s).value, mux);
  }

  /** The same for getGain after setGain. */
  lemma GainRoundTrip(adc: Adc, gain: bv8, done: nat -> bool)
    requires Faithful(adc.bus)
    ensures var s := SetGain(adc, gain, done);
            && s.pgaMode == gain
            && GetGain(s).value == gain & 7
            && GetGain(s).adc.pgaMode == gain & 7
  {
    SetGainSpec(adc, gain, done);
    SetGainFaithful(adc, gain, done);
    SetGainDevice(adc, gain, done);
    var s := SetGain(adc, gain, done);
    GetFieldSpec(s, PgaBit, PgaLength);
    NarrowField(GetGain(s).value, gain);
  }

  /** A byte whose word is the low three bits of `d` is the low three bits of `d`. */
  lemma NarrowField(v: bv8, d: bv8)
    requires v as bv16 == (d as bv16) & 7
    ensures v == d & 7
  {
  }

  /** On a faithful device getMode after setMode reads back the mode written,
      and both calls leave it cached. */
  lemma ModeRoundTrip(adc: Adc, mode: bool)
    requires Faithful(adc.bus)
    ensures SetMode(adc, mode).devMode == mode
    ensures GetMode(SetMode(adc, mode)).value == mode
    ensures GetMode(SetMode(adc, mode)).adc.devMode == mode
  {
    SetModeSpec(adc, mode);
    SetModeFaithful(adc, mode);
    GetFlagSpec(SetMode(adc, mode), ModeBit);
  }

  /** getLowThreshold and getHighThreshold: readWord into the buffer, returned
      as an `int16_t`; a failed read returns the stale buffer. */
  function GetThreshold(adc: Adc, reg: nat): (r: Answer<int>)
    ensures Outcome(adc.bus) == Delivers ==> r.value == ToInt16(Value(adc.bus, reg)) && r.adc.buffer == Value(adc.bus, reg)
    ensures Outcome(adc.bus) != Delivers && !Half(adc.bus) ==> r.value == ToInt16(adc.buffer)
    ensures r.adc.bus.log == adc.bus.log + [ReadAccess(reg)]
    ensures r.adc.devMode == adc.devMode && r.adc.muxMode == adc.muxMode && r.adc.pgaMode == adc.pgaMode
  {
    var rd := ReadWord(adc.bus, reg, adc.buffer);
    Answer(ToInt16(rd.data), adc.(bus := rd.bus, buffer := rd.data))
  }

  /** setLowThreshold and setHighThreshold: writeWord of the threshold's
      two's-complement bit pattern, which is what the `int16_t` is passed as. */
  function SetThreshold(adc: Adc, reg: nat, threshold: bv16): (r: Adc)
    ensures adc.bus.stores ==> Value(r.bus, reg) == threshold
    ensures forall other | other != reg :: Value(r.bus, other) == Value(adc.bus, other)
    ensures r.devMode == adc.devMode && r.muxMode == adc.muxMode && r.pgaMode == adc.pgaMode && r.buffer == adc.buffer
  {
    adc.(bus := WriteWord(adc.bus, reg, threshold).bus)
  }

  function GetLowThreshold(adc: Adc): (r: Answer<int>)
    ensures Outcome(adc.bus) == Delivers ==> r.value == ToInt16(Value(adc.bus, RaLoThresh)) && r.adc.buffer == Value(adc.bus, RaLoThresh)
    ensures Outcome(adc.bus) != Delivers && !Half(adc.bus) ==> r.value == ToInt16(adc.buffer)
    ensures r.adc.bus.log == adc.bus.log + [ReadAccess(RaLoThresh)]
    ensures r.adc.devMode == adc.devMode && r.adc.muxMode == adc.muxMode && r.adc.pgaMode == adc.pgaMode
  {
    GetThreshold(adc, RaLoThresh)
  }

  function SetLowThreshold(adc: Adc, threshold: bv16): (r: Adc)
    ensures adc.bus.stores ==> Value(r.bus, RaLoThresh) == threshold
    ensures forall other | other != RaLoThresh :: Value(r.bus, other) == Value(adc.bus, other)
    ensures r.devMode == adc.devMode && r.muxMode == adc.muxMode && r.pgaMode == adc.pgaMode && r.buffer == adc.buffer
  {
    SetThreshold(adc, RaLoThresh, threshold)
  }

  function GetHighThreshold(adc: Adc): (r: Answer<int>)
    ensures Outcome(adc.bus) == Delivers ==> r.value == ToInt16(Value(adc.bus, RaHiThresh)) && r.adc.buffer == Value(adc.bus, RaHiThresh)
    ensures Outcome(adc.bus) != Delivers && !Half(adc.bus) ==> r.value == ToInt16(adc.buffer)
    ensures r.adc.bus.log == adc.bus.log + [ReadAccess(RaHiThresh)]
    ensures r.adc.devMode == adc.devMode && r.adc.muxMode == adc.muxMode && r.adc.pgaMode == adc.pgaMode
  {
    GetThreshold(adc, RaHiThresh)
  }

  function SetHighThreshold(adc: Adc, threshold: bv16): (r: Adc)
    ensures adc.bus.stores ==> Value(r.bus, RaHiThresh) == threshold
    ensures forall other | other != RaHiThresh :: Value(r.bus, other) == Value(adc.bus, other)
    ensures r.devMode == adc.devMode && r.muxMode == adc.muxMode && r.pgaMode == adc.pgaMode && r.buffer == adc.buffer
  {
    SetThreshold(adc, RaHiThresh, threshold)
  }

  /** On a faithful device a threshold reads back as written, and writing one
      threshold changes neither the other nor CONFIG. */
  lemma ThresholdRoundTrip(adc: Adc, reg: nat, threshold: bv16)
    requires reg == RaLoThresh || reg == RaHiThresh
    requires Faithful(adc.bus)
    ensures GetThreshold(SetThreshold(adc, reg, threshold), reg).value == ToInt16(threshold)
    ensures forall other | other != reg :: Value(SetThreshold(adc, reg, threshold).bus, other) == Value(adc.bus, other)
  {
  }

  /** setConversionReadyPinMode: the MSB of the high threshold set, that of
      the low threshold cleared, comparator polarity active-low and the
      comparator queue at "assert after one conversion". */
  function SetConversionReadyPinMode(adc: Adc): (r: Adc)
    ensures r.devMode == adc.devMode && r.muxMode == adc.muxMode && r.pgaMode == adc.pgaMode && r.buffer == adc.buffer
    ensures Faithful(adc.bus) ==>
              && Bit16(Value(r.bus, RaHiThresh), 15)
              && !Bit16(Value(r.bus, RaLoThresh), 15)
              && !Bit16(Config(r), CompPolBit)
              && ExtractField16(Config(r), CompQueBit, CompQueLength) == 0
              && Masked(Config(r), 0xFFF4) == Masked(Config(adc), 0xFFF4)
  {
    var hi := WriteBitW(adc.bus, RaHiThresh, 15, 1);
    var lo := WriteBitW(hi.bus, RaLoThresh, 15, 0);
    var a := adc.(bus := lo.bus);
    assert Faithful(adc.bus) ==> Faithful(a.bus) && Config(a) == Config(adc);
    var p := SetComparatorPolarity(a, false);
    SetFlagSpec(a, CompPolBit, false);
    SetFieldSpec(p, CompQueBit, CompQueLength, 0);
    var q := SetComparatorQueueMode(p, 0);
    PinModeConfig(Config(adc), Config(q));
    q
  }

  /** The polarity bit cleared, then the queue field zeroed. */
  lemma PinModeConfig(x: bv16, y: bv16)
    ensures y == InsertField16(PutBit16(x, CompPolBit, false), CompQueBit, CompQueLength, 0) ==>
              && !Bit16(y, CompPolBit)
              && ExtractField16(y, CompQueBit, CompQueLength) == 0
              && Masked(y, 0xFFF4) == Masked(x, 0xFFF4)
  {
  }

  /** The first three calls of initialize, which move the cached settings:
      multiplexer P0/N1, gain 2.048 V, single-shot mode. */
  function InitializeCached(adc: Adc, done: nat -> bool): Adc
  {
    SetMode(SetGain(SetMultiplexer(adc, MuxP0N1, done), Pga2P048, done), ModeSingleshot)
  }

  /** The remaining five, on fields the driver does not cache: 128 samples per
      second, hysteresis comparator, active low, non-latching, comparator off. */
  function InitializeUncached(adc: Adc): Adc
  {
    var rate := SetRate(adc, Rate128);
    var cmp := SetComparatorMode(rate, false);
    var pol := SetComparatorPolarity(cmp, false);
    var lat := SetComparatorLatchEnabled(pol, false);
    SetComparatorQueueMode(lat, CompQueDisable)
  }

  /** initialize: every CONFIG setting to the device's power-on default. */
  function Initialize(adc: Adc, done: nat -> bool): (r: Adc)
    ensures Faithful(adc.bus) ==> Faithful(r.bus)
    ensures Faithful(adc.bus) ==> r.muxMode == MuxP0N1 && r.pgaMode == Pga2P048 && r.devMode == ModeSingleshot
    ensures Faithful(adc.bus) ==> Masked(Config(r), 0x7FFF) == 0x0583
  {
    var cached := InitializeCached(adc, done);
    var r := InitializeUncached(cached);
    assert Faithful(adc.bus) ==>
             && Faithful(r.bus)
             && r.muxMode == MuxP0N1 && r.pgaMode == Pga2P048 && r.devMode == ModeSingleshot
             && Masked(Config(r), 0x7FFF) == 0x0583
    by {
      if Faithful(adc.bus) {
        InitializeCachedFaithful(adc, done);
        InitializeUncachedFaithful(cached);
      }
    }
    r
  }

  /** A zero MUX field: bits 14..12 clear. */
  lemma MuxCleared(x: bv16)
    requires ExtractField16(x, MuxBit, MuxLength) == 0
    ensures Masked(x, 0x7000) == 0
  {
  }

  /** The gain written after a zero MUX field: bits 14..9 are 000 010. */
  lemma GainStep(x: bv16, y: bv16)
    requires Masked(x, 0x7000) == 0
    requires PgaReplaced(x, y, Pga2P048 as bv16, false) || PgaReplaced(x, y, Pga2P048 as bv16, true)
    ensures Masked(y, 0x7E00) == 0x0400
  {
  }

  /** The MODE bit set next: bits 14..8 are 000 010 1. */
  lemma ModeStep(x: bv16, y: bv16)
    requires Masked(x, 0x7E00) == 0x0400
    requires Masked(y, 0x7EFF) == Masked(x, 0x7EFF) && Bit16(y, ModeBit)
    ensures Masked(y, 0x7F00) == 0x0500
  {
  }

  /** On a faithful device the cached part of initialize leaves the cache at
      P0/N1, 2.048 V, single-shot, and CONFIG bits 14..8 at 000 010 1. */
  lemma InitializeCachedFaithful(adc: Adc, done: nat -> bool)
    requires Faithful(adc.bus)
    ensures var r := InitializeCached(adc, done);
            && Faithful(r.bus)
            && r.muxMode == MuxP0N1 && r.pgaMode == Pga2P048 && r.devMode == ModeSingleshot
            && Masked(Config(r), 0x7F00) == 0x0500
  {
    var a1 := SetMultiplexer(adc, MuxP0N1, done);
    SetMultiplexerSpec(adc, MuxP0N1, done);
    SetMultiplexerFaithful(adc, MuxP0N1, done);
    SetMultiplexerDevice(adc, MuxP0N1, done);
    MuxCleared(Config(a1));
    var a2 := SetGain(a1, Pga2P048, done);
    SetGainSpec(a1, Pga2P048, done);
    SetGainFaithful(a1, Pga2P048, done);
    SetGainDevice(a1, Pga2P048, done);
    GainStep(Config(a1), Config(a2));
    SetModeSpec(a2, ModeSingleshot);
    SetModeFaithful(a2, ModeSingleshot);
    ModeStep(Config(a2), Config(SetMode(a2, ModeSingleshot)));
  }

  /** The rate field written: bits 14..5 are 000 010 1 100. */
  lemma RateStep(x: bv16, y: bv16)
    requires Masked(x, 0x7F00) == 0x0500
    requires y == InsertField16(x, DrBit, DrLength, Rate128 as bv16)
    ensures Masked(y, 0x7FE0) == 0x0580
  {
  }

  /** The three comparator flags cleared: bits 14..2 are 000 010 1 100 000. */
  lemma ComparatorFlagsStep(x: bv16, y: bv16)
    requires Masked(x, 0x7FE0) == 0x0580
    requires y == PutBit16(PutBit16(PutBit16(x, CompModeBit, false), CompPolBit, false), CompLatBit, false)
    ensures Masked(y, 0x7FFC) == 0x0580
  {
  }

  /** The queue field written: bits 14..0 are 000 010 1 100 000 11. */
  lemma QueueStep(x: bv16, y: bv16)
    requires Masked(x, 0x7FFC) == 0x0580
    requires y == InsertField16(x, CompQueBit, CompQueLength, CompQueDisable as bv16)
    ensures Masked(y, 0x7FFF) == 0x0583
  {
  }

  /** On a faithful device the uncached part of initialize completes CONFIG
      below the OS bit and leaves the cache alone. */
  lemma InitializeUncachedFaithful(adc: Adc)
    requires Faithful(adc.bus) && Masked(Config(adc), 0x7F00) == 0x0500
    ensures var r := InitializeUncached(adc);
            && Faithful(r.bus)
            && r.muxMode == adc.muxMode && r.pgaMode == adc.pgaMode && r.devMode == adc.devMode
            && Masked(Config(r), 0x7FFF) == 0x0583
  {
    var rate := SetRate(adc, Rate128);
    SetFieldSpec(adc, DrBit, DrLength, Rate128);
    RateStep(Config(adc), Config(rate));
    var cmp := SetComparatorMode(rate, false);
    SetFlagSpec(rate, CompModeBit, false);
    var pol := SetComparatorPolarity(cmp, false);
    SetFlagSpec(cmp, CompPolBit, false);
    var lat := SetComparatorLatchEnabled(pol, false);
    SetFlagSpec(pol, CompLatBit, false);
    ComparatorFlagsStep(Config(rate), Config(lat));
    SetFieldSpec(lat, CompQueBit, CompQueLength, CompQueDisable);
    QueueStep(Config(lat), Config(InitializeUncached(adc)));
  }

  /** The default word field by field. */
  lemma DefaultFields(x: bv16)
    requires Masked(x, 0x7FFF) == 0x0583
    ensures ExtractField16(x, MuxBit, MuxLength) == MuxP0N1 as bv16
    ensures ExtractField16(x, PgaBit, PgaLength) == Pga2P048 as bv16
    ensures Bit16(x, ModeBit) == ModeSingleshot
    ensures ExtractField16(x, DrBit, DrLength) == Rate128 as bv16
    ensures !Bit16(x, CompModeBit) && !Bit16(x, CompPolBit) && !Bit16(x, CompLatBit)
    ensures ExtractField16(x, CompQueBit, CompQueLength) == CompQueDisable as bv16
  {
  }

  /** After initialize on a faithful device the getters read back the
      defaults: MUX 0, PGA 2, MODE 1, DR 4, comparator flags 0, queue 3. */
  lemma InitializeReadsBack(adc: Adc, done: nat -> bool)
    requires Faithful(adc.bus)
    ensures var r := Initialize(adc, done);
            && GetMultiplexer(r).value == MuxP0N1 && GetGain(r).value == Pga2P048
            && GetMode(r).value == ModeSingleshot && GetRate(r).value == Rate128
            && !GetComparatorMode(r).value && !GetComparatorPolarity(r).value
            && !GetComparatorLatchEnabled(r).value
            && GetComparatorQueueMode(r).value == CompQueDisable
  {
    var r := Initialize(adc, done);
    DefaultFields(Config(r));
    GetFieldSpec(r, MuxBit, MuxLength);
    GetFieldSpec(r, PgaBit, PgaLength);
    GetFieldSpec(r, DrBit, DrLength);
    GetFieldSpec(r, CompQueBit, CompQueLength);
    GetFlagSpec(r, ModeBit);
    GetFlagSpec(r, CompModeBit);
    GetFlagSpec(r, CompPolBit);
    GetFlagSpec(r, CompLatBit);
  }

  /** getConversionP0N1 … getConversionP3GND, one per MUX code `mux` (0 to 7
      in the driver): the multiplexer is set only when the cached one differs,
      then getConversion triggers and polls. */
  function GetConversionChannel(adc: Adc, mux: bv8, done: nat -> bool): (r: Answer<int>)
    ensures r.adc.muxMode == (if adc.muxMode != mux && !FieldWriteOk(adc.bus) then adc.muxMode else mux)
    ensures r.adc.pgaMode == adc.pgaMode
    ensures -0x8000 <= r.value < 0x8000
  {
    var switched := if adc.muxMode != mux then SetMultiplexer(adc, mux, done) else adc;
    GetConversion(switched, true, done)
  }

  /** The stop/start only appends to the log. */
  lemma RestartExtends(adc: Adc, done: nat -> bool)
    ensures |Restart(adc, done).bus.log| >= |adc.bus.log|
    ensures Restart(adc, done).bus.log[..|adc.bus.log|] == adc.bus.log
  {
    RestartCache(adc, done);
    if adc.devMode == ModeContinuous {
      RestartLog(adc, done);
    }
  }

  /** setMultiplexer starts with its writeBitsW of the MUX field. */
  lemma SetMultiplexerStarts(adc: Adc, mux: bv8, done: nat -> bool)
    ensures var L := SetMultiplexer(adc, mux, done).bus.log;
            var w := WriteBitsW(adc.bus, RaConfig, MuxBit, MuxLength, mux as bv16);
            |L| >= |w.bus.log| && L[..|w.bus.log|] == w.bus.log
  {
    var w := WriteBitsW(adc.bus, RaConfig, MuxBit, MuxLength, mux as bv16);
    if w.ok {
      RestartExtends(adc.(bus := w.bus, muxMode := mux), done);
    }
  }

  /** When the cached multiplexer already matches, no CONFIG field is
      written: the bus sees exactly one getConversion. */
  lemma ChannelCached(adc: Adc, mux: bv8, done: nat -> bool)
    requires adc.muxMode == mux
    ensures GetConversionChannel(adc, mux, done).adc.bus.log
              == adc.bus.log + ConversionLog(adc.bus, adc.devMode == ModeSingleshot, done)
  {
    GetConversionLog(adc, true, done);
  }

  /** The write setMultiplexer sends: the fetched CONFIG word with the MUX
      field replaced. */
  function MuxWrite(bus: Bus<bv16>, mux: bv8): Access<bv16>
  {
    WriteAccess(RaConfig, InsertField16(FetchedW(bus, RaConfig), MuxBit, MuxLength, mux as bv16))
  }

  /** The accesses of setMultiplexer's writeBitsW. */
  lemma MuxWriteLog(bus: Bus<bv16>, mux: bv8)
    ensures var w := WriteBitsW(bus, RaConfig, MuxBit, MuxLength, mux as bv16);
            w.bus.log == bus.log + if Count(Outcome(bus)) != 0 then [ReadAccess(RaConfig), MuxWrite(bus, mux)] else [ReadAccess(RaConfig)]
  {
  }

  /** A log that starts with `p + t` starts with `p + [t[0]]`, and holds `t[1]`
      next when there is one. */
  lemma PrefixHead<T>(L: seq<T>, p: seq<T>, t: seq<T>)
    requires |t| >= 1 && |L| >= |p + t| && L[..|p + t|] == p + t
    ensures |L| > |p| && L[..|p| + 1] == p + [t[0]]
    ensures |t| >= 2 ==> L[|p| + 1] == t[1]
  {
    assert L[..|p| + 1] == (p + t)[..|p| + 1];
    if |t| >= 2 {
      assert L[|p| + 1] == (p + t)[|p| + 1];
    }
  }

  /** A prefix of a log stays a prefix when the log grows. */
  lemma PrefixExtends<T>(S: seq<T>, C: seq<T>, W: seq<T>)
    requires |S| >= |W| && S[..|W|] == W
    ensures |S + C| >= |W| && (S + C)[..|W|] == W
  {
    assert (S + C)[..|W|] == S[..|W|];
  }

  /** When it differs, the call starts with setMultiplexer's read-modify-write
      of the MUX field. */
  lemma ChannelSwitches(adc: Adc, mux: bv8, done: nat -> bool)
    requires adc.muxMode != mux
    ensures var L := GetConversionChannel(adc, mux, done).adc.bus.log;
            var k := |adc.bus.log|;
            && |L| > k && L[..k + 1] == adc.bus.log + [ReadAccess(RaConfig)]
            && (Count(Outcome(adc.bus)) != 0 ==> |L| > k + 1 && L[k + 1] == MuxWrite(adc.bus, mux))
  {
    var s := SetMultiplexer(adc, mux, done);
    var w := WriteBitsW(adc.bus, RaConfig, MuxBit, MuxLength, mux as bv16);
    SetMultiplexerStarts(adc, mux, done);
    GetConversionLog(s, true, done);
    PrefixExtends(s.bus.log, ConversionLog(s.bus, Triggers(s, true), done), w.bus.log);
    MuxWriteLog(adc.bus, mux);
    var L := GetConversionChannel(adc, mux, done).adc.bus.log;
    if Count(Outcome(adc.bus)) != 0 {
      PrefixHead(L, adc.bus.log, [ReadAccess(RaConfig), MuxWrite(adc.bus, mux)]);
    } else {
      PrefixHead(L, adc.bus.log, [ReadAccess(RaConfig)]);
    }
  }

  /** Words that agree below the OS bit have the same MUX field. */
  lemma MuxBelowOs(x: bv16, y: bv16)
    requires BelowOs(x) == BelowOs(y)
    ensures ExtractField16(x, MuxBit, MuxLength) == ExtractField16(y, MuxBit, MuxLength)
  {
  }

  /** On a faithful device a channel conversion leaves the channel cached,
      leaves the low three bits of `mux` in the MUX field whenever it had to
      switch, and returns the CONVERSION register as it stood. */
  lemma ChannelFaithful(adc: Adc, mux: bv8, done: nat -> bool)
    requires Faithful(adc.bus)
    ensures var r := GetConversionChannel(adc, mux, done);
            && Faithful(r.adc.bus)
            && r.adc.muxMode == mux
            && (adc.muxMode != mux ==> ExtractField16(Config(r.adc), MuxBit, MuxLength) == (mux as bv16) & 7)
            && r.value == ToInt16(Value(adc.bus, RaConversion))
  {
    var s := if adc.muxMode != mux then SetMultiplexer(adc, mux, done) else adc;
    if adc.muxMode != mux {
      SetMultiplexerSpec(adc, mux, done);
      SetMultiplexerFaithful(adc, mux, done);
      SetMultiplexerDevice(adc, mux, done);
    }
    assert Faithful(s.bus) && s.muxMode == mux;
    assert Value(s.bus, RaConversion) == Value(adc.bus, RaConversion);
    GetConversionSpec(s, true, done);
    GetConversionFaithful(s, true, done);
    GetConversionKeeps(s, true, done);
    MuxBelowOs(Config(GetConversion(s, true, done).adc), Config(s));
  }

  /** testConnection: a readWord of CONVERSION into the buffer counting 1. */
  function TestConnection(adc: Adc): (r: Answer<bool>)
    ensures r.value <==> Outcome(adc.bus) == Delivers
    ensures r.adc.bus.log == adc.bus.log + [ReadAccess(RaConversion)]
  {
    var rd := ReadWord(adc.bus, RaConversion, adc.buffer);
    Answer(rd.count == 1, adc.(bus := rd.bus, buffer := rd.data))
  }

  /** The connection test passes exactly when reads deliver; it reads
      CONVERSION once, and a pass leaves that register in the buffer. */
  lemma TestConnectionSpec(adc: Adc)
    ensures var r := TestConnection(adc);
            && (r.value <==> Outcome(adc.bus) == Delivers)
            && r.adc.bus.log == adc.bus.log + [ReadAccess(RaConversion)]
            && (r.value ==> r.adc.buffer == Value(adc.bus, RaConversion))
            && (!r.value && !Half(adc.bus) ==> r.adc.buffer == adc.buffer)
            && (!r.value && Half(adc.bus) ==>
                  r.adc.buffer >> 8 == Value(adc.bus, RaConversion) >> 8 && r.adc.buffer & 0xFF == 0)
            && r.adc.devMode == adc.devMode && r.adc.muxMode == adc.muxMode && r.adc.pgaMode == adc.pgaMode
  {
  }
}
