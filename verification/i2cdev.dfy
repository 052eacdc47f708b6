/** The register operations of I2CdevT: single-register reads and writes and the
    bit and bit-field read-modify-writes built on them, for 8-bit and 16-bit
    registers. */
module I2Cdev {
  import opened Bits
  import opened Registers
  import SoftWire
  import SoftWireWords

  /** readByte: `readBytes` with length 1. */
  function ReadByte(bus: Bus<bv8>, reg: nat, data: bv8): (r: RegRead<bv8>)
    ensures r.count == 1 || r.count == 0 || r.count == -1
    ensures r.count == 1 <==> Outcome(bus) == Delivers
    ensures r.count == 1 ==> r.data == Value(bus, reg)
    ensures r.count != 1 ==> r.data == data
    ensures r.bus == bus.(log := bus.log + [ReadAccess(reg)])
  {
    Read(bus, reg, data)
  }

  /** readWord: `readWords` with length 1. A word arriving whole gives count 1
      and the register's value. Otherwise the count is 0 or -1, and the caller's
      word is left alone unless the most significant byte alone arrived: that
      byte is stored shifted into the high half with the low half cleared. */
  function ReadWord(bus: Bus<bv16>, reg: nat, data: bv16): (r: RegRead<bv16>)
    ensures r.count == 1 || r.count == 0 || r.count == -1
    ensures r.count == 1 <==> Outcome(bus) == Delivers
    ensures r.count == 1 ==> r.data == Value(bus, reg)
    ensures r.count != 1 && Half(bus) ==> r.data >> 8 == Value(bus, reg) >> 8 && r.data & 0xFF == 0
    ensures r.count != 1 && !Half(bus) ==> r.data == data
    ensures r.bus == bus.(log := bus.log + [ReadAccess(reg)])
  {
    var rd := Read(bus, reg, data);
    if rd.count != 1 && Half(bus) then rd.(data := SoftWireWords.Shifted((Value(bus, reg) >> 8) as bv8)) else rd
  }

  /** The word a read-modify-write of a word register starts from: what the
      read stored into the caller's uninitialised local. */
  function FetchedW(bus: Bus<bv16>, reg: nat): bv16
  {
    ReadWord(bus, reg, Junk(bus)).data
  }

  /** writeByte: `writeBytes` with length 1. */
  function WriteByte(bus: Bus<bv8>, reg: nat, v: bv8): (r: RegWrite<bv8>)
    ensures r.ok == Ack(bus)
    ensures r.bus.log == bus.log + [WriteAccess(reg, v)]
    ensures bus.stores ==> Value(r.bus, reg) == v
    ensures forall other | other != reg :: Value(r.bus, other) == Value(bus, other)
  {
    Write(bus, reg, v)
  }

  /** writeWord: `writeWords` with length 1. */
  function WriteWord(bus: Bus<bv16>, reg: nat, v: bv16): (r: RegWrite<bv16>)
    ensures r.ok == Ack(bus)
    ensures r.bus.log == bus.log + [WriteAccess(reg, v)]
    ensures bus.stores ==> Value(r.bus, reg) == v
    ensures forall other | other != reg :: Value(r.bus, other) == Value(bus, other)
  {
    Write(bus, reg, v)
  }

  /** The three outcomes a register read is abstracted to are exactly those of
      the transport's readBytes with length 1: one byte arriving in time gives
      count 1 and that byte; otherwise the caller's byte is untouched and the
      count is -1 when the timeout has expired at the end, 0 when not. */
  lemma ReadOneByteOutcomes(dev: bv8, reg: SoftWire.RegAddr, b: bv8, timeout: nat, device: SoftWire.Device,
                            elapsed: nat -> nat, atEnd: nat)
    ensures var r := SoftWire.ReadBytes(dev, reg, 1, [b], timeout, device, elapsed, atEnd);
            var offered := SoftWire.Offer(device, SoftWire.AddressBytes(reg), 1, 0);
            && (r.count == 1 <==> |offered| == 1 && SoftWire.TimeLeft(timeout, elapsed(0)))
            && (r.count == 1 ==> r.data == offered)
            && (r.count != 1 ==> r.data == [b])
            && (r.count == -1 <==> r.count != 1 && timeout > 0 && atEnd >= timeout)
            && (r.count == 0 <==> r.count != 1 && !(timeout > 0 && atEnd >= timeout))
  {
    var addr := SoftWire.AddressBytes(reg);
    var offered := SoftWire.Offer(device, addr, 1, 0);
    var got := SoftWire.ChunkReceived(device, addr, 1, timeout, elapsed, 0, 0);
    SoftWire.ChunkReceivedBound(device, addr, 1, timeout, elapsed, 0, 0);
    assert SoftWire.Received(device, addr, 1, timeout, elapsed, 1, 1, |got|) == [];
    assert SoftWire.Received(device, addr, 1, timeout, elapsed, 0, 0, 0) == got + [];
    if |offered| == 1 && SoftWire.TimeLeft(timeout, elapsed(0)) {
      assert SoftWire.Taken(1, 0, timeout, elapsed) == 1;
      assert got == offered;
    } else {
      assert got == [];
    }
  }

  /** The same for readWords with length 1: two bytes arriving in time give
      count 1 and the word they make, most significant byte first; one byte
      arriving in time leaves that byte shifted into the high half; otherwise
      the caller's word is untouched. The count is then -1 when the timeout has
      expired at the end, 0 when not. */
  lemma ReadOneWordOutcomes(dev: bv8, reg: bv8, b: bv16, timeout: nat, device: SoftWire.Device,
                            elapsed: nat -> nat, atEnd: nat)
    ensures var r := SoftWireWords.ReadWords(dev, reg, 1, [b], timeout, device, elapsed, atEnd);
            var offered := SoftWireWords.WordOffer(device, reg, 1, 0);
            var first := |offered| >= 1 && SoftWire.TimeLeft(timeout, elapsed(0));
            && (r.count == 1 <==> first && |offered| == 2 && SoftWire.TimeLeft(timeout, elapsed(1)))
            && (r.count == 1 ==> r.data == [SoftWireWords.Word(offered[0], offered[1])])
            && (r.count != 1 && first ==> r.data == [SoftWireWords.Shifted(offered[0])])
            && (r.count != 1 && !first ==> r.data == [b])
            && (r.count == -1 <==> r.count != 1 && timeout > 0 && atEnd >= timeout)
            && (r.count == 0 <==> r.count != 1 && !(timeout > 0 && atEnd >= timeout))
  {
    var s := SoftWireWords.WordState(0, [b], 0);
    var offered := SoftWireWords.WordOffer(device, reg, 1, 0);
    SoftWireWords.OneChunk(device, reg, 1, timeout, elapsed, s);
    assert |offered| <= 2;
    if |offered| >= 1 && SoftWire.TimeLeft(timeout, elapsed(0)) {
      var s1 := SoftWireWords.StoreMsb(s, offered[0]);
      assert SoftWireWords.WordDrain(offered, 0, true, 1, s, timeout, elapsed)
             == SoftWireWords.WordDrain(offered, 1, false, 1, s1, timeout, elapsed);
      if |offered| == 2 && SoftWire.TimeLeft(timeout, elapsed(1)) {
        var s2 := SoftWireWords.StoreWord(s, offered[0], offered[1]);
        assert SoftWireWords.WordDrain(offered, 1, false, 1, s1, timeout, elapsed)
               == SoftWireWords.WordDrain(offered, 2, true, 1, s2, timeout, elapsed);
      }
    }
  }

  /** readBit: the byte with every bit but `bitNum` cleared, so 0 or `1 << bitNum`
      rather than 0 or 1; it is stored whatever the count. */
  function ReadBit(bus: Bus<bv8>, reg: nat, bitNum: bv8): (r: RegRead<bv8>)
    requires bitNum < 8
    ensures r.count == Count(Outcome(bus))
    ensures r.data == 0 || r.data == 1 << bitNum
    ensures r.data != 0 <==> Bit8(Fetched(bus, reg), bitNum)
    ensures Outcome(bus) == Delivers ==> (r.data != 0 <==> Bit8(Value(bus, reg), bitNum))
    ensures r.bus == bus.(log := bus.log + [ReadAccess(reg)])
  {
    var rd := ReadByte(bus, reg, Junk(bus));
    RegRead(rd.count, TestBit8(rd.data, bitNum), rd.bus)
  }

  /** readBitW: the word with every bit but `bitNum` cleared. */
  function ReadBitW(bus: Bus<bv16>, reg: nat, bitNum: bv8): (r: RegRead<bv16>)
    requires bitNum < 16
    ensures r.count == Count(Outcome(bus))
    ensures r.data == 0 || r.data == 1 << (bitNum as bv16)
    ensures r.data != 0 <==> Bit16(FetchedW(bus, reg), bitNum)
    ensures Outcome(bus) == Delivers ==> (r.data != 0 <==> Bit16(Value(bus, reg), bitNum))
    ensures Outcome(bus) != Delivers && Half(bus) ==> (r.data != 0 <==> bitNum >= 8 && Bit16(Value(bus, reg), bitNum))
    ensures Outcome(bus) != Delivers && !Half(bus) ==> (r.data != 0 <==> Bit16(Junk(bus), bitNum))
    ensures r.bus == bus.(log := bus.log + [ReadAccess(reg)])
  {
    var rd := ReadWord(bus, reg, Junk(bus));
    RegRead(rd.count, TestBit16(rd.data, bitNum), rd.bus)
  }

  /** readBits: when the count is nonzero (a timeout's -1 included) the caller's
      byte becomes the right-aligned field, below `1 << length`; when it is 0
      the caller's byte is left alone. */
  function ReadBits(bus: Bus<bv8>, reg: nat, bitStart: bv8, length: bv8, data: bv8): (r: RegRead<bv8>)
    requires ValidField8(bitStart, length)
    ensures r.count == Count(Outcome(bus))
    ensures r.count == 0 ==> r.data == data
    ensures r.count != 0 ==> r.data == ExtractField8(Fetched(bus, reg), bitStart, length)
    ensures r.count != 0 ==> r.data & !LowMask8(length) == 0
    ensures r.bus == bus.(log := bus.log + [ReadAccess(reg)])
  {
    var rd := ReadByte(bus, reg, Junk(bus));
    if rd.count != 0 then RegRead(rd.count, ExtractField8(rd.data, bitStart, length), rd.bus)
    else RegRead(rd.count, data, rd.bus)
  }

  /** readBitsW: the same for a word register. */
  function ReadBitsW(bus: Bus<bv16>, reg: nat, bitStart: bv8, length: bv8, data: bv16): (r: RegRead<bv16>)
    requires ValidField16(bitStart, length)
    ensures r.count == Count(Outcome(bus))
    ensures r.count == 0 ==> r.data == data
    ensures r.count != 0 ==> r.data == ExtractField16(FetchedW(bus, reg), bitStart, length)
    ensures r.count != 0 ==> r.data & !LowMask16(length) == 0
    ensures r.bus == bus.(log := bus.log + [ReadAccess(reg)])
  {
    var rd := ReadWord(bus, reg, Junk(bus));
    if rd.count != 0 then RegRead(rd.count, ExtractField16(rd.data, bitStart, length), rd.bus)
    else RegRead(rd.count, data, rd.bus)
  }

  /** writeBit: reads the byte without looking at the count, sets bit `bitNum`
      when `data` is nonzero and clears it otherwise, and writes the byte back. */
  function WriteBit(bus: Bus<bv8>, reg: nat, bitNum: bv8, data: bv8): (r: RegWrite<bv8>)
    requires bitNum < 8
    ensures r.ok == bus.acks(|bus.log| + 1)
    ensures r.bus.log == bus.log + [ReadAccess(reg), WriteAccess(reg, PutBit8(Fetched(bus, reg), bitNum, data != 0))]
    ensures bus.stores ==> Bit8(Value(r.bus, reg), bitNum) == (data != 0)
    ensures bus.stores ==> Value(r.bus, reg) & !(1 << bitNum) == Fetched(bus, reg) & !(1 << bitNum)
    ensures forall other | other != reg :: Value(r.bus, other) == Value(bus, other)
  {
    var rd := ReadByte(bus, reg, Junk(bus));
    WriteByte(rd.bus, reg, PutBit8(rd.data, bitNum, data != 0))
  }

  /** writeBitW: the same for a word register. */
  function WriteBitW(bus: Bus<bv16>, reg: nat, bitNum: bv8, data: bv16): (r: RegWrite<bv16>)
    requires bitNum < 16
    ensures r.ok == bus.acks(|bus.log| + 1)
    ensures r.bus.log == bus.log + [ReadAccess(reg), WriteAccess(reg, PutBit16(FetchedW(bus, reg), bitNum, data != 0))]
    ensures bus.stores ==> Bit16(Value(r.bus, reg), bitNum) == (data != 0)
    ensures bus.stores ==> Others16(Value(r.bus, reg), bitNum) == Others16(FetchedW(bus, reg), bitNum)
    ensures forall other | other != reg :: Value(r.bus, other) == Value(bus, other)
  {
    var rd := ReadWord(bus, reg, Junk(bus));
    PutBit16Keeps(rd.data, bitNum, data != 0);
    WriteWord(rd.bus, reg, PutBit16(rd.data, bitNum, data != 0))
  }

  /** writeBits: with a zero read count nothing is written and the result is
      false; with any other count, a timeout's -1 included, the field of the
      fetched byte is replaced by the low `length` bits of `data` and the byte is
      written back. */
  function WriteBits(bus: Bus<bv8>, reg: nat, bitStart: bv8, length: bv8, data: bv8): (r: RegWrite<bv8>)
    requires ValidField8(bitStart, length)
    ensures Count(Outcome(bus)) == 0 ==> !r.ok && r.bus == bus.(log := bus.log + [ReadAccess(reg)])
    ensures Count(Outcome(bus)) != 0 ==>
              && r.ok == bus.acks(|bus.log| + 1)
              && r.bus.log == bus.log + [ReadAccess(reg), WriteAccess(reg, InsertField8(Fetched(bus, reg), bitStart, length, data))]
    ensures Count(Outcome(bus)) != 0 && bus.stores ==>
              && ExtractField8(Value(r.bus, reg), bitStart, length) == data & LowMask8(length)
              && Value(r.bus, reg) & !FieldMask8(bitStart, length) == Fetched(bus, reg) & !FieldMask8(bitStart, length)
    ensures forall other | other != reg :: Value(r.bus, other) == Value(bus, other)
  {
    var rd := ReadByte(bus, reg, Junk(bus));
    if rd.count != 0 then WriteByte(rd.bus, reg, InsertField8(rd.data, bitStart, length, data))
    else RegWrite(false, rd.bus)
  }

  /** writeBitsW: the same for a word register. */
  function WriteBitsW(bus: Bus<bv16>, reg: nat, bitStart: bv8, length: bv8, data: bv16): (r: RegWrite<bv16>)
    requires ValidField16(bitStart, length)
    ensures Count(Outcome(bus)) == 0 ==> !r.ok && r.bus == bus.(log := bus.log + [ReadAccess(reg)])
    ensures Count(Outcome(bus)) != 0 ==>
              && r.ok == bus.acks(|bus.log| + 1)
              && r.bus.log == bus.log + [ReadAccess(reg), WriteAccess(reg, InsertField16(FetchedW(bus, reg), bitStart, length, data))]
    ensures Count(Outcome(bus)) != 0 && bus.stores ==>
              && ExtractField16(Value(r.bus, reg), bitStart, length) == data & LowMask16(length)
              && Value(r.bus, reg) & !FieldMask16(bitStart, length) == FetchedW(bus, reg) & !FieldMask16(bitStart, length)
    ensures forall other | other != reg :: Value(r.bus, other) == Value(bus, other)
  {
    var rd := ReadWord(bus, reg, Junk(bus));
    if rd.count != 0 then WriteWord(rd.bus, reg, InsertField16(rd.data, bitStart, length, data))
    else RegWrite(false, rd.bus)
  }

  /** On a faithful register file, readBits after writeBits of the same field
      returns the low `length` bits of what was written, and the other bits of
      the register are those it had. */
  lemma BitsRoundTrip(bus: Bus<bv8>, reg: nat, bitStart: bv8, length: bv8, data: bv8, x: bv8)
    requires ValidField8(bitStart, length)
    requires Faithful(bus)
    ensures var w := WriteBits(bus, reg, bitStart, length, data);
            && w.ok
            && ReadBits(w.bus, reg, bitStart, length, x) == RegRead(1, data & LowMask8(length), ReadByte(w.bus, reg, x).bus)
            && Value(w.bus, reg) & !FieldMask8(bitStart, length) == Value(bus, reg) & !FieldMask8(bitStart, length)
  {
    var w := WriteBits(bus, reg, bitStart, length, data);
    assert Outcome(bus) == Delivers && bus.acks(|bus.log| + 1);
    assert Fetched(bus, reg) == Value(bus, reg);
    assert Outcome(w.bus) == Delivers;
  }

  /** The same for word registers. */
  lemma BitsWRoundTrip(bus: Bus<bv16>, reg: nat, bitStart: bv8, length: bv8, data: bv16, x: bv16)
    requires ValidField16(bitStart, length)
    requires Faithful(bus)
    ensures var w := WriteBitsW(bus, reg, bitStart, length, data);
            && w.ok
            && ReadBitsW(w.bus, reg, bitStart, length, x) == RegRead(1, data & LowMask16(length), ReadWord(w.bus, reg, x).bus)
            && Value(w.bus, reg) & !FieldMask16(bitStart, length) == Value(bus, reg) & !FieldMask16(bitStart, length)
  {
    var w := WriteBitsW(bus, reg, bitStart, length, data);
    assert Outcome(bus) == Delivers && bus.acks(|bus.log| + 1);
    assert FetchedW(bus, reg) == Value(bus, reg);
    assert Outcome(w.bus) == Delivers;
    assert FetchedW(w.bus, reg) == Value(w.bus, reg);
  }

  /** On a faithful register file, readBit after writeBit sees the bit written. */
  lemma BitRoundTrip(bus: Bus<bv8>, reg: nat, bitNum: bv8, data: bv8)
    requires bitNum < 8
    requires Faithful(bus)
    ensures (ReadBit(WriteBit(bus, reg, bitNum, data).bus, reg, bitNum).data != 0) == (data != 0)
  {
  }
}
