/** The AT24C32 serial EEPROM driver: 4096 bytes behind 16-bit register
    addresses, reached through the I2Cdev byte primitives. The driver adds a
    connection test that writes and restores the last byte of the memory, and
    otherwise passes its calls through to the transport. */
module AT24C32 {
  import opened Registers
  import opened I2Cdev
  import opened SoftWire
  import SoftWireWrites

  /** The default device address (A2..A0 low). */
  const DefaultAddress: bv8 := 0x50

  /** The last byte of the 4 KiB memory, the one the connection test probes. */
  const LastAddress: nat := 0xFFF

  /** The pattern the connection test flips the stored byte with. */
  const Probe: bv8 := 0xAA

  /** Register addresses are `uint16_t`. */
  predicate Address(reg: nat)
  {
    reg < 0x1_0000
  }

  /** readByte: the byte at `reg`, read into an uninitialised local, so the
      local's junk comes back when no byte arrives. */
  function ReadByteAt(bus: Bus<bv8>, reg: nat): (r: RegRead<bv8>)
    requires Address(reg)
    ensures Outcome(bus) == Delivers ==> r.data == Value(bus, reg)
    ensures Outcome(bus) != Delivers ==> r.data == Junk(bus)
    ensures r.bus.regs == bus.regs && r.bus.log == bus.log + [ReadAccess(reg)]
  {
    ReadByte(bus, reg, Junk(bus))
  }

  /** writeByte: the transport's status comes back unchanged; `useBuiltinDelay`
      only decides whether `delay(1)` runs afterwards. */
  function WriteByteAt(bus: Bus<bv8>, reg: nat, data: bv8, useBuiltinDelay: bool): (r: RegWrite<bv8>)
    requires Address(reg)
    ensures r.ok == Ack(bus)
    ensures r.bus.log == bus.log + [WriteAccess(reg, data)]
    ensures Value(r.bus, reg) == if bus.stores then data else Value(bus, reg)
    ensures forall other | other != reg :: Value(r.bus, other) == Value(bus, other)
  {
    WriteByte(bus, reg, data)
  }

  /** What the connection test hands back: its verdict and the bus. */
  datatype Probed = Probed(ok: bool, bus: Bus<bv8>)

  /** The byte the connection test's first read leaves in its local: the last
      byte when the read delivers, the local's junk otherwise. */
  function FirstRead(bus: Bus<bv8>): bv8
  {
    if Outcome(bus) == Delivers then Value(bus, LastAddress) else Junk(bus)
  }

  /** testConnection: read the last byte, write it back flipped by 0xAA, read it
      again, restore the byte first read, and report whether the second read
      saw the flipped byte. The four accesses are numbered from `|bus.log|`:
      the reads are the first and third, the writes the second and fourth. */
  function TestConnection(bus: Bus<bv8>): (r: Probed)
    ensures bus.answers(|bus.log| + 2) == Delivers ==>
              (r.ok <==> bus.stores || Value(bus, LastAddress) == FirstRead(bus) ^ Probe)
    ensures bus.answers(|bus.log| + 2) != Delivers ==> (r.ok <==> bus.junks(|bus.log| + 2) == FirstRead(bus) ^ Probe)
  {
    var before := ReadByteAt(bus, LastAddress);
    var replace := before.data ^ Probe;
    var w1 := WriteByteAt(before.bus, LastAddress, replace, true);
    var verify := ReadByteAt(w1.bus, LastAddress);
    var w2 := WriteByteAt(verify.bus, LastAddress, before.data, true);
    assert before.data == FirstRead(bus);
    assert Outcome(w1.bus) == bus.answers(|bus.log| + 2) && Junk(w1.bus) == bus.junks(|bus.log| + 2);
    Probed(replace == verify.data, w2.bus)
  }

  /** The last byte ends as the first read left the local: restored when that
      read delivered, overwritten with junk otherwise; a memory that ignores
      writes is left as it was. */
  lemma TestConnectionLastByte(bus: Bus<bv8>)
    ensures bus.stores ==> Value(TestConnection(bus).bus, LastAddress) == FirstRead(bus)
    ensures !bus.stores ==> TestConnection(bus).bus.regs == bus.regs
  {
  }

  /** The probe byte always differs from the byte it replaces. */
  lemma ProbeDiffers(b: bv8)
    ensures b ^ Probe != b
  {
  }

  /** The connection test accesses only the last byte: read, write the flipped
      byte, read, write the first byte back; the device's answers do not
      change which accesses are made. */
  lemma TestConnectionLog(bus: Bus<bv8>)
    ensures var b := ReadByteAt(bus, LastAddress).data;
            TestConnection(bus).bus.log
            == bus.log + [ReadAccess(LastAddress), WriteAccess(LastAddress, b ^ Probe),
                          ReadAccess(LastAddress), WriteAccess(LastAddress, b)]
  {
  }

  /** Every other byte of the memory keeps its value. */
  lemma TestConnectionKeepsOthers(bus: Bus<bv8>, other: nat)
    requires other != LastAddress
    ensures Value(TestConnection(bus).bus, other) == Value(bus, other)
  {
  }

  /** On a memory that answers reads and keeps writes the test passes and the
      last byte ends as it started. */
  lemma TestConnectionRestores(bus: Bus<bv8>)
    requires Faithful(bus)
    ensures TestConnection(bus).ok
    ensures Value(TestConnection(bus).bus, LastAddress) == Value(bus, LastAddress)
  {
  }

  /** On a memory that ignores writes the memory is as it was, and the test
      fails whenever both reads deliver. */
  lemma TestConnectionIgnoredWrites(bus: Bus<bv8>)
    requires !bus.stores
    ensures TestConnection(bus).bus.regs == bus.regs
    ensures bus.answers(|bus.log|) == Delivers && bus.answers(|bus.log| + 2) == Delivers ==> !TestConnection(bus).ok
  {
    ProbeDiffers(Value(bus, LastAddress));
  }

  /** A memory that ignores writes still passes when its first read delivers
      nothing and the local it leaves behind is the stored byte flipped: the
      flipped junk and the unchanged byte then agree. */
  lemma TestConnectionFalsePass(bus: Bus<bv8>)
    requires !bus.stores && Outcome(bus) == NoData && bus.answers(|bus.log| + 2) == Delivers
    requires Junk(bus) == Value(bus, LastAddress) ^ Probe
    ensures TestConnection(bus).ok
  {
    assert Junk(bus) ^ Probe == Value(bus, LastAddress);
  }

  /** When the first read delivers nothing but writes are kept, the byte
      "restored" is the junk of the uninitialised local, so the last byte is
      overwritten; the test still passes when the third access delivers. */
  lemma TestConnectionClobbers(bus: Bus<bv8>)
    requires bus.stores && Outcome(bus) != Delivers
    ensures Value(TestConnection(bus).bus, LastAddress) == Junk(bus)
    ensures bus.answers(|bus.log| + 2) == Delivers ==> TestConnection(bus).ok
  {
  }

  /** The two bytes that select a 16-bit address, high byte first. */
  function AddressPair(reg: bv16): (s: seq<bv8>)
    ensures |s| == 2 && ((s[0] as bv16) << 8) | (s[1] as bv16) == reg
  {
    AddressBytesMsbFirst(Addr16(reg));
    AddressBytes(Addr16(reg))
  }

  /** writeBytes: one transmission of the two address bytes and `data[0..length)`;
      the transport's status comes back unchanged whether or not the delay runs. */
  method WriteBytesAt(dev: bv8, reg: bv16, length: nat, data: seq<bv8>, status: bv8, useBuiltinDelay: bool)
    returns (ok: bool, events: seq<Event>)
    requires length <= 255 && |data| >= length
    ensures ok <==> status == 0
    ensures events == [Begin(dev)] + Sends(AddressPair(reg)) + Sends(data[..length]) + [End]
  {
    ok, events := SoftWireWrites.WriteBytes(dev, Addr16(reg), length, data, status);
  }

  /** readBytes: the transport's count and buffer come back unchanged, -1
      included. A read of at most 32 bytes, which covers the 30 the driver
      documents, is one chunk: the two address bytes, then one request. */
  function ReadBytesAt(dev: bv8, reg: bv16, length: nat, buf: seq<bv8>, timeout: nat,
                       device: Device, elapsed: nat -> nat, atEnd: nat): (r: ReadResult)
    requires length <= 127 && |buf| >= length
    ensures -1 <= r.count <= length
    ensures timeout == 0 ==> r.count >= 0
    ensures r == ReadBytes(dev, Addr16(reg), length, buf, timeout, device, elapsed, atEnd)
    ensures 0 < length <= BufferLength ==>
              r.events == [Begin(dev)] + Sends(AddressPair(reg)) + [End, Begin(dev), Request(dev, length)]
  {
    var r := ReadBytes(dev, Addr16(reg), length, buf, timeout, device, elapsed, atEnd);
    if 0 < length <= BufferLength then
      assert ChunkLog(dev, AddressBytes(Addr16(reg)), length, Step(length)) == [];
      r
    else
      r
  }
}
