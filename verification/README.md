# i2cdevlib core in Dafny

This project models the core of i2cdevlib, a library of Arduino device drivers.
Each driver talks to its chip through `I2CdevT`, a register-level transport that
runs over a two-wire bus.

It models four layers:

- **I2Cdev bit fields** (`bits.dfy`, `i2cdev.dfy`, on the register bus of
  `registers.dfy`). These are the single-bit and multi-bit read-modify-write
  operations on 8-bit and 16-bit registers, and the count-1 byte and word
  wrappers they are built on.
- **SoftWire framing** (`softwire.dfy`, `softwire_words.dfy`,
  `softwire_writes.dfy`, `memory_reads.dfy`). This layer covers:
  - how `readBytes`, `readWords`, `writeBytes` and `writeWords` put the register
    address and the data on the wire;
  - how long reads are cut into `BUFFER_LENGTH` (32) byte requests;
  - how words are assembled MSB first;
  - how the count becomes -1 on a timeout.
- **Device drivers**, each on top of the transport:
  - the DS1307 real-time clock: BCD registers, 12/24-hour hours, range guards
    and battery-backed RAM (`ds1307.dfy`);
  - the ADS1115 converter: CONFIG fields, the cached multiplexer, gain and mode,
    single-shot conversions with polling, and the mask helpers
    (`ads1115.dfy`, `ads1115_setup.dfy`, `ads1115_masks.dfy`);
  - the AT24C32 EEPROM: the write/verify/restore connection probe and the
    pass-throughs (`at24c32.dfy`).
- **The DS1307 `DateTime` calendar** (`calendar.dfy`). This covers days since
  2000-01-01, Unix time to fields and back, the day of the week, and parsing of
  the compiler's `__DATE__`/`__TIME__` strings.

Two abstractions of the bus are used.

**The register bus (`Registers.Bus`)** is used by the register-level operations.
Accesses are numbered in the order they are made. What happens to each access
is an input indexed by its number, so one access may succeed while the next
fails. The bus holds:

- a map from register address to value;
- for each access, how a read goes: `Delivers` for count 1, `NoData` for
  count 0, `TimesOut` for count -1;
- for each access, whether a word read that fails still received its most
  significant byte;
- for each access, whether a write is acknowledged;
- for each access, the value the caller's uninitialised local happens to hold;
- whether the device keeps writes;
- a log of every access.

A `Faithful` bus delivers reads, acknowledges writes and keeps them.
`I2Cdev.ReadOneByteOutcomes` ties the three read outcomes to the SoftWire-level
`readBytes` of one byte, and `I2Cdev.ReadOneWordOutcomes` ties the word read,
half-read word included, to `readWords` of one word.

**The SoftWire level** models the wire as a log of events: begin, send a byte,
end, and request `n` bytes. What the device offers for each request is a
function argument, and so is the clock. `elapsed(i)` is the time seen by the
check made with `i` bytes stored, and `atEnd` is the time seen by the final
timeout test.

## Model

| member | source | states |
|---|---|---|
| Bits.ExtractField8 | Arduino/I2Cdev/I2Cdev.h:140-154 | the field readBits right-aligns has no bit at or above `length`, so it is below 2^length |
| Bits.ExtractField16 | Arduino/I2Cdev/I2Cdev.h:208-223 | the same for the word field of readBitsW |
| Bits.InsertField8 | Arduino/I2Cdev/I2Cdev.h:249-268 | the byte writeBits sends keeps every bit outside the field and holds the low `length` bits of `data` in it |
| Bits.InsertField16 | Arduino/I2Cdev/I2Cdev.h:316-335 | the same for the word writeBitsW sends |
| Bits.TestBit8 | Arduino/I2Cdev/I2Cdev.h:123-128 | readBit answers 0 or `1 << bitNum`, never a normalised 1, and it is nonzero exactly when the bit is set |
| Bits.TestBit16 | Arduino/I2Cdev/I2Cdev.h:191-196 | the same for readBitW |
| Bits.PutBit8 | Arduino/I2Cdev/I2Cdev.h:233-238 | writeBit's byte has the bit set iff asked and every other bit as before |
| Bits.PutBit16 | Arduino/I2Cdev/I2Cdev.h:300-305 | writeBitW's word has the bit set iff asked |
| Bits.PutBit16Keeps | Arduino/I2Cdev/I2Cdev.h:300-305 | writeBitW's word keeps every other bit |
| Bits.FieldMask8Bits | Arduino/I2Cdev/I2Cdev.h:148 | the byte mask has bit i set exactly for `bitStart - length + 1 <= i <= bitStart` |
| Bits.FieldMask16Bits | Arduino/I2Cdev/I2Cdev.h:217 | the same for the word mask |
| Bits.ExtractField8Bits | Arduino/I2Cdev/I2Cdev.h:148-151 | bit i of the extracted value is bit `low + i` of the byte |
| Bits.ExtractField16Bits | Arduino/I2Cdev/I2Cdev.h:217-219 | bit i of the extracted value is bit `low + i` of the word |
| Bits.InsertField8Bits | Arduino/I2Cdev/I2Cdev.h:259-264 | every bit of the written byte: the matching bit of `data` inside the field, the old bit outside |
| Bits.InsertField16Bits | Arduino/I2Cdev/I2Cdev.h:326-331 | every bit of the written word, inside and outside the field |
| Bits.FieldDetermines16 | Arduino/I2Cdev/I2Cdev.h:326-331 | two words that agree outside a field and on the field are equal |
| Bits.DocExamples | Arduino/I2Cdev/I2Cdev.h:140-335 | the doc-comment examples: 01101001 at (4,3) gives 010; 10101111 with 010 at (4,3) gives 10101011; the 16-bit pair at (12,3) |
| Registers.WriteThenRead | Arduino/I2Cdev/I2Cdev.h:277-290 | a kept write changes only its register, and on a faithful bus a read after it returns the value written |
| I2Cdev.ReadByte | Arduino/I2Cdev/I2Cdev.h:164-166 | count 1 exactly when the read delivers, and then the register's value; otherwise the caller's byte is untouched |
| I2Cdev.ReadWord | Arduino/I2Cdev/I2Cdev.h:178-180 | count 1 exactly when the read delivers, and then the register's word; a read that fails after the most significant byte arrived leaves that byte shifted up over a zero low byte; otherwise the caller's word is untouched |
| I2Cdev.WriteByte | Arduino/I2Cdev/I2Cdev.h:277-279 | the result is the acknowledgement, one write is logged, a kept write stores the byte and no other register changes |
| I2Cdev.WriteWord | Arduino/I2Cdev/I2Cdev.h:288-290 | the same for one word |
| I2Cdev.ReadOneByteOutcomes | Arduino/I2Cdev/I2Cdev_SoftWire_impl.h:45-93 | a one-byte readBytes counts 1 iff the byte arrived in time and stores it, -1 iff the timeout expired without it, 0 otherwise, and leaves the buffer as it was unless it counts 1 |
| I2Cdev.ReadOneWordOutcomes | Arduino/I2Cdev/I2Cdev_SoftWire_impl.h:164-224 | a one-word readWords counts 1 iff both bytes arrive in time and stores `(msb << 8) \| lsb`; when only the first byte arrived in time it stores `msb << 8`; otherwise the caller's word is kept; the count is -1 iff it is not 1 and the timeout expired |
| I2Cdev.ReadBit | Arduino/I2Cdev/I2Cdev.h:123-128 | the count is the read's, the answer is 0 or `1 << bitNum` and is nonzero iff the register's bit is set |
| I2Cdev.ReadBitW | Arduino/I2Cdev/I2Cdev.h:191-196 | the same for a word register; when the read fails the bit is taken from the half-read word, so only bits 8..15 can be set, or from the uninitialised local |
| I2Cdev.ReadBits | Arduino/I2Cdev/I2Cdev.h:140-154 | with count 0 `*data` is untouched; otherwise it is the right-aligned field of the byte fetched, below 2^length |
| I2Cdev.ReadBitsW | Arduino/I2Cdev/I2Cdev.h:208-223 | the same for a word register; when the read counts -1 the field comes from the half-read word or the uninitialised local |
| I2Cdev.WriteBit | Arduino/I2Cdev/I2Cdev.h:233-238 | always writes back after its read, whatever the count: the bit becomes `data != 0` and every other bit is as fetched, which is the uninitialised local's when the read delivered nothing; no other register changes; the result is the acknowledgement |
| I2Cdev.WriteBitW | Arduino/I2Cdev/I2Cdev.h:300-305 | the same for a word register, where a failed read fetches the half-read word or the uninitialised local |
| I2Cdev.WriteBits | Arduino/I2Cdev/I2Cdev.h:249-268 | with read count 0 no write and false; with count 1 or -1 a write of the merged byte whose field holds `data` mod 2^length and whose other bits are as fetched |
| I2Cdev.WriteBitsW | Arduino/I2Cdev/I2Cdev.h:316-335 | the same for a word register, where a failed read fetches the half-read word or the uninitialised local |
| I2Cdev.BitsRoundTrip | Arduino/I2Cdev/I2Cdev.h:140-154 | on a faithful bus readBits after writeBits returns `data` mod 2^length with count 1, and the rest of the register is as before |
| I2Cdev.BitsWRoundTrip | Arduino/I2Cdev/I2Cdev.h:208-223 | the same for readBitsW after writeBitsW |
| I2Cdev.BitRoundTrip | Arduino/I2Cdev/I2Cdev.h:123-128 | on a faithful bus readBit after writeBit is nonzero iff `data` was |
| SoftWire.AddressBytesMsbFirst | Arduino/I2Cdev/I2Cdev_SoftWire_impl.h:128-129 | an 8-bit address goes out as one byte; a 16-bit one as two bytes, high byte first, that rebuild the address |
| SoftWire.Sends | Arduino/I2Cdev/I2Cdev_SoftWire_impl.h:243-256 | one send event per byte, in order |
| SoftWire.Taken | Arduino/I2Cdev/I2Cdev_SoftWire_impl.h:74-75 | a chunk's loop never stores more bytes than the device offered |
| SoftWire.TakenIsTimedPrefix | Arduino/I2Cdev/I2Cdev_SoftWire_impl.h:74-75 | a chunk stores bytes while time is left and stops at the first check that finds the timeout expired |
| SoftWire.TakenWithoutTimeout | Arduino/I2Cdev/I2Cdev_SoftWire_impl.h:74 | with timeout 0 every offered byte is stored |
| SoftWire.RequestsCover | Arduino/I2Cdev/I2Cdev_SoftWire_impl.h:67-72 | the chunk requests sum to `length` and each asks for 1 to BUFFER_LENGTH bytes |
| SoftWire.ChunkLogRequests | Arduino/I2Cdev/I2Cdev_SoftWire_impl.h:67-73 | the requests on the wire are exactly those chunk sizes, in order |
| SoftWire.ChunkReceivedBound | Arduino/I2Cdev/I2Cdev_SoftWire_impl.h:74-75 | one chunk stores at most the bytes it requested |
| SoftWire.ReceivedBound | Arduino/I2Cdev/I2Cdev_SoftWire_impl.h:67-81 | the whole read stores at most `length` bytes |
| SoftWire.OfferedUnfold | Arduino/I2Cdev/I2Cdev_SoftWire_impl.h:67-72 | what the device offers over a read is the first chunk's offer followed by the rest's |
| SoftWire.ReadWithoutTimeout | Arduino/I2Cdev/I2Cdev_SoftWire_impl.h:67-81 | with timeout 0 the read stores everything the device offers for each chunk |
| SoftWire.RequestedAppend | Arduino/I2Cdev/I2Cdev_SoftWire_impl.h:67-73 | the requests of two logs joined are the requests of each, joined |
| SoftWire.RequestedSends | Arduino/I2Cdev/I2Cdev_SoftWire_impl.h:69 | sending bytes requests nothing |
| SoftWire.RequestedChunk | Arduino/I2Cdev/I2Cdev_SoftWire_impl.h:68-72 | one chunk's events request exactly its size |
| SoftWire.Receive | Arduino/I2Cdev/I2Cdev_SoftWire_impl.h:74-75 | the receiving loop stores exactly the bytes the chunk's timed-prefix rule takes |
| SoftWire.ReadBytes | Arduino/I2Cdev/I2Cdev_SoftWire_impl.h:45-153 | bytes land at indices 0.. in arrival order with the rest of the buffer kept; the count is the number stored, or -1 iff the timeout is nonzero, expired and fewer than `length` arrived; never -1 with timeout 0; the wire sees one address (one byte, or two high byte first) and one request per chunk |
| MemoryReads.Window | Arduino/I2Cdev/I2Cdev_SoftWire_impl.h:72-75 | what an auto-incrementing memory offers from an address: consecutive bytes, wrapping at the end |
| MemoryReads.MemoryOffer | Arduino/I2Cdev/I2Cdev_SoftWire_impl.h:69-72 | a request after the address byte is answered from that address |
| MemoryReads.ChunkedReadRestarts | Arduino/I2Cdev/I2Cdev_SoftWire_impl.h:67-76 | a read of 33 to 64 bytes re-sends the same address for its second chunk, so byte 32 is the byte at the address again |
| SoftWireWords.WordBytesRoundTrip | Arduino/I2Cdev/I2Cdev_SoftWire_impl.h:315-323 | a word split MSB then LSB is rebuilt by `(msb << 8) \| lsb` |
| SoftWireWords.WordRoundTrip | Arduino/I2Cdev/I2Cdev_SoftWire_impl.h:196-205 | a word assembled from two bytes splits back into them |
| SoftWireWords.SerializeLength | Arduino/I2Cdev/I2Cdev_SoftWire_impl.h:315-323 | `n` words go out as `2n` bytes |
| SoftWireWords.SerializeBytes | Arduino/I2Cdev/I2Cdev_SoftWire_impl.h:315-323 | word j goes out as bytes 2j (MSB) and 2j+1 (LSB) |
| SoftWireWords.SerializeRoundTrip | Arduino/I2Cdev/I2Cdev_SoftWire_impl.h:193-207 | reading back the bytes of serialised words gives the words |
| SoftWireWords.WordDrain | Arduino/I2Cdev/I2Cdev_SoftWire_impl.h:193-207 | the word loop never lowers the count, never stores more than `length` words, and keeps the buffer's size |
| SoftWireWords.WordDrainMsb | Arduino/I2Cdev/I2Cdev_SoftWire_impl.h:196-199 | an even byte is kept as the next word's high byte |
| SoftWireWords.WordDrainLsb | Arduino/I2Cdev/I2Cdev_SoftWire_impl.h:200-205 | an odd byte completes the word and counts it |
| SoftWireWords.WordDrainTwoBytes | Arduino/I2Cdev/I2Cdev_SoftWire_impl.h:193-207 | two bytes in time store one word `(msb << 8) \| lsb` |
| SoftWireWords.WordDrainPairs | Arduino/I2Cdev/I2Cdev_SoftWire_impl.h:193-207 | with timeout 0, byte pairs become consecutive words after those already stored, and earlier words are kept |
| SoftWireWords.WordChunks | Arduino/I2Cdev/I2Cdev_SoftWire_impl.h:186-210 | across chunks the count never drops and stays within `length`, and the buffer keeps its size |
| SoftWireWords.ReadWords | Arduino/I2Cdev/I2Cdev_SoftWire_impl.h:164-224 | for up to 127 words, with a chunk offset that does not wrap: the count is the words stored, or -1 iff the timeout is nonzero, expired and fewer than `length` words arrived; never -1 with timeout 0; the wire sees the word chunk log |
| SoftWireWords.OneChunk | Arduino/I2Cdev/I2Cdev_SoftWire_impl.h:186-210 | up to 16 words fit one chunk of `2 * length` bytes |
| SoftWireWords.OffsetStep | Arduino/I2Cdev/I2Cdev_SoftWire_impl.h:186 | the `uint8_t` chunk offset stays below 256 after `k += min(length * 2, 32)` |
| SoftWireWords.OffsetAfterValue | Arduino/I2Cdev/I2Cdev_SoftWire_impl.h:186 | from 16 words on, the offset is `32 n` after each of the first seven chunks |
| SoftWireWords.OffsetWraps | Arduino/I2Cdev/I2Cdev_SoftWire_impl.h:186 | from 16 words on, the offset goes from 224 back to 0 on the eighth chunk |
| SoftWireWords.OffsetBounded | Arduino/I2Cdev/I2Cdev_SoftWire_impl.h:186 | from 16 words on, every offset reached is a multiple of 32 no greater than 224 |
| SoftWireWords.ReadWordsEndsIff | Arduino/I2Cdev/I2Cdev_SoftWire_impl.h:186 | the chunk loop as written leaves exactly when `length <= 112`; for 113..255 the guard `k < length * 2` holds at every offset it reaches |
| SoftWireWords.WordChunkLogFrom | Arduino/I2Cdev/I2Cdev_SoftWire_impl.h:186-210 | with an offset that does not wrap, the loop from offset `k` makes exactly the `m` chunks of 32 bytes that cover the rest of the request |
| SoftWireWords.ReadWordsLongChunks | Arduino/I2Cdev/I2Cdev_SoftWire_impl.h:186-210 | with an offset that does not wrap, readWords of 113..127 words ends after eight chunks |
| SoftWireWords.ReadWordsOneChunk | Arduino/I2Cdev/I2Cdev_SoftWire_impl.h:164-224 | with timeout 0 and a device offering enough bytes, all `length` words arrive, word j built MSB first from bytes 2j and 2j+1 |
| SoftWireWrites.SendsSnoc | Arduino/I2Cdev/I2Cdev_SoftWire_impl.h:243-256 | sending one more byte appends one send event |
| SoftWireWrites.WriteBytes | Arduino/I2Cdev/I2Cdev_SoftWire_impl.h:232-293 | one transmission: begin, the address (one byte, or two high byte first), `data[0..length)` in order, end; true iff the end status is 0 |
| SoftWireWrites.WriteWordsAsWritten | Arduino/I2Cdev/I2Cdev_SoftWire_impl.h:303-329 | as written the loop sends `data[0]`, `data[2]`, `data[4]`, …: `length` words taken at even indices, each MSB first |
| SoftWireWrites.WriteWords | Arduino/I2Cdev/I2Cdev_SoftWire_impl.h:303-329 | corrected: for every `uint8_t` length the loop ends, having sent the address, then `data[0..length)` each MSB first, in one transmission; true iff the end status is 0 |
| SoftWireWrites.PassBelowWrap | Arduino/I2Cdev/I2Cdev_SoftWire_impl.h:316-322 | a pass of the loop adds 2 to the index while it stays below 254 |
| SoftWireWrites.IndexAfterValue | Arduino/I2Cdev/I2Cdev_SoftWire_impl.h:316-322 | for the first 127 passes the index is `2 n` |
| SoftWireWrites.IndexWraps | Arduino/I2Cdev/I2Cdev_SoftWire_impl.h:316-322 | the index goes from 254 back to 0, since the `uint8_t` wraps |
| SoftWireWrites.WriteWordsEndsIff | Arduino/I2Cdev/I2Cdev_SoftWire_impl.h:316-322 | the loop as written leaves after some pass exactly when `length <= 127`; for 128..255 the guard `i < length * 2` holds at every index it reaches |
| SoftWireWrites.SerializeSnoc | Arduino/I2Cdev/I2Cdev_SoftWire_impl.h:315-323 | one more word appends its two bytes |
| SoftWireWrites.StrideSkipsWords | Arduino/I2Cdev/I2Cdev_SoftWire_impl.h:316-322 | for [0x1111, 0x2222, 0x3333] and length 2 the loop as written sends 0x1111 and 0x3333 instead of 0x1111 and 0x2222 |
| SoftWireWrites.OneWordAgrees | Arduino/I2Cdev/I2Cdev_SoftWire_impl.h:315-323 | for one word, as writeWord uses it, both versions send the MSB and then the LSB |
| SoftWireWrites.WrittenWordsReadBack | Arduino/I2Cdev/I2Cdev_SoftWire_impl.h:193-207 | the bytes the corrected writeWords sends are read back by readWords' assembly as the words written |
| DS1307.BcdRoundTrip | Arduino/DS1307/DS1307.h:266-271 | BCD of 0..99 decodes back, and fits the tens digits each register allows |
| DS1307.Bcd | Arduino/DS1307/DS1307.h:291 | for 0..99 the high nibble holds the tens digit and the low nibble the units |
| DS1307.TestConnection | Arduino/DS1307/DS1307.h:245-250 | true exactly when the SECONDS read delivers |
| DS1307.GetClockRunning | Arduino/DS1307/DS1307.h:254-258 | one read of SECONDS; the answer is the negation of the clock-halt bit, which is cached |
| DS1307.SetClockRunning | Arduino/DS1307/DS1307.h:261-263 | the device's clock-halt bit becomes `!running`, bits 6..0 of SECONDS stay as fetched and every other register is kept; the cached flags are not updated |
| DS1307.ClockRunningRoundTrip | Arduino/DS1307/DS1307.h:254-263 | on a faithful device getClockRunning after setClockRunning reports `running` and caches it, and the seconds bits are unchanged |
| DS1307.GetSeconds | Arduino/DS1307/DS1307.h:266-271 | the BCD of bits 6..0, caching bit 7 as clock halt |
| DS1307.SetSeconds | Arduino/DS1307/DS1307.h:274-278 | above 59 nothing is written; otherwise the BCD seconds with the cached halt bit |
| DS1307.SecondsRoundTrip | Arduino/DS1307/DS1307.h:266-278 | on a faithful bus getSeconds returns the seconds set, and the halt bit read back is the cached one |
| DS1307.GetMinutes | Arduino/DS1307/DS1307.h:282-286 | the BCD minutes of MINUTES, read once; the buffer holds the register when the read delivers and is kept otherwise |
| DS1307.SetMinutes | Arduino/DS1307/DS1307.h:289-293 | above 59 nothing is written; otherwise the BCD minutes |
| DS1307.MinutesRoundTrip | Arduino/DS1307/DS1307.h:282-293 | on a faithful bus getMinutes returns the minutes set |
| DS1307.GetModeAsWritten | Arduino/DS1307/DS1307.h:297-301 | as written the answer is 0 or 0x40, the masked bit |
| DS1307.GetMode | Arduino/DS1307/DS1307.h:297-301 | corrected: 1 exactly when the 12-hour bit is set, 0 otherwise; the cache follows |
| DS1307.GetModeReturns0x40 | Arduino/DS1307/DS1307.h:297-301 | a 12-hour register makes the code as written return 0x40, not 1 |
| DS1307.SetMode | Arduino/DS1307/DS1307.h:304-306 | the device's mode bit becomes `mode != 0`, every other bit of HOURS stays as fetched and every other register is kept; the cached flags are not updated |
| DS1307.ModeRoundTrip | Arduino/DS1307/DS1307.h:297-306 | on a faithful device the corrected getMode after setMode reports 1 exactly when `mode != 0` and caches it, and the rest of HOURS is unchanged |
| DS1307.GetAmPmAsWritten | Arduino/DS1307/DS1307.h:309-312 | as written the answer is 0 or 0x20 |
| DS1307.GetAmPm | Arduino/DS1307/DS1307.h:309-312 | corrected: 1 exactly when the PM bit is set |
| DS1307.GetAmPmReturns0x20 | Arduino/DS1307/DS1307.h:309-312 | a PM register makes the code as written return 0x20, not 1 |
| DS1307.SetAmPm | Arduino/DS1307/DS1307.h:315-317 | the device's PM bit becomes `ampm != 0`, every other bit of HOURS stays as fetched, every other register is kept, and the cached flags are not touched |
| DS1307.AmPmRoundTrip | Arduino/DS1307/DS1307.h:309-317 | on a faithful device the corrected getAMPM after setAMPM reports 1 exactly when `ampm != 0`, and the rest of HOURS is unchanged |
| DS1307.ClockConversions | Arduino/DS1307/DS1307.h:328-335 | the 12-hour and 24-hour clocks are inverse: 0..23 maps to 1..12 and back with the PM flag |
| DS1307.GetHours12 | Arduino/DS1307/DS1307.h:320-337 | reads HOURS once into the buffer (kept when the read fails); in 12-hour mode the BCD hour; in 24-hour mode 0 becomes 12 and 13..23 become h - 12, always in 1..12 |
| DS1307.GetHours24 | Arduino/DS1307/DS1307.h:360-382 | reads HOURS once into the buffer (kept when the read fails); in 24-hour mode the BCD hour; in 12-hour mode the hour converted with the PM bit |
| DS1307.SetHours24 | Arduino/DS1307/DS1307.h:385-402 | above 23 nothing is written; otherwise the hour in the cached mode's format |
| DS1307.Hours24RoundTrip | Arduino/DS1307/DS1307.h:360-402 | on a faithful bus getHours24 returns every hour 0..23 set, in both modes, and getHours12 its 12-hour form |
| DS1307.SetHours12AsWritten | Arduino/DS1307/DS1307.h:340-357 | as written: in 24-hour mode PM adds 12, 24 becomes 12, and 12 AM stays 12 |
| DS1307.MidnightBecomesNoon | Arduino/DS1307/DS1307.h:351-355 | in 24-hour mode setHours12(12, AM) as written stores noon |
| DS1307.SetHours12 | Arduino/DS1307/DS1307.h:340-357 | corrected: hours outside 1..12 write nothing; 12-hour mode as written; in 24-hour mode the matching 24-hour hour, 12 AM being 0 |
| DS1307.Hours12RoundTrip | Arduino/DS1307/DS1307.h:320-357 | on a faithful bus getHours12 returns every hour 1..12 set, getHours24 its 24-hour form, and in 12-hour mode the PM bit is `ampm > 0` |
| DS1307.GetDayOfWeek | Arduino/DS1307/DS1307.h:406-409 | the 3-bit field of DAY; the caller's byte when nothing was read |
| DS1307.SetDayOfWeek | Arduino/DS1307/DS1307.h:412-415 | outside 1..7 nothing is written; otherwise a writeBits of the field |
| DS1307.DayOfWeekRoundTrip | Arduino/DS1307/DS1307.h:406-415 | on a faithful bus the day set is read back and the rest of DAY is kept |
| DS1307.GetDay | Arduino/DS1307/DS1307.h:419-423 | the BCD date of DATE, read once into the buffer (kept when the read fails) |
| DS1307.SetDay | Arduino/DS1307/DS1307.h:426-429 | no range check: every value is written in BCD |
| DS1307.DayRoundTrip | Arduino/DS1307/DS1307.h:419-429 | on a faithful bus days up to 39 read back; 45 reads back as 5, since the tens digit above 3 is lost |
| DS1307.GetMonth | Arduino/DS1307/DS1307.h:433-437 | the BCD month of MONTH, read once into the buffer (kept when the read fails) |
| DS1307.SetMonth | Arduino/DS1307/DS1307.h:440-444 | outside 1..12 nothing is written; otherwise the BCD month |
| DS1307.MonthRoundTrip | Arduino/DS1307/DS1307.h:433-444 | on a faithful bus getMonth returns the month set |
| DS1307.GetYear | Arduino/DS1307/DS1307.h:448-451 | 2000 plus the BCD year of YEAR, so 2000..2165, read once into the buffer (kept when the read fails) |
| DS1307.SetYear | Arduino/DS1307/DS1307.h:454-459 | years before 2000 write nothing; otherwise the year byte |
| DS1307.YearByte | Arduino/DS1307/DS1307.h:454-459 | for 2000..2099 the byte holds the tens and units of `year - 2000` in its two nibbles |
| DS1307.YearByteIsBcd | Arduino/DS1307/DS1307.h:454-459 | for 2000..2099 the year byte is the BCD of `year - 2000` |
| DS1307.YearRoundTrip | Arduino/DS1307/DS1307.h:448-459 | on a faithful bus getYear returns every year 2000..2099 set |
| DS1307.GetMemoryByte | Arduino/DS1307/DS1307.h:497-501 | offsets above 55 read nothing and answer 0; otherwise register 0x08 + offset is read |
| DS1307.SetMemoryByte | Arduino/DS1307/DS1307.h:504-507 | offsets above 55 write nothing; otherwise only register 0x08 + offset is written |
| DS1307.MemoryRoundTrip | Arduino/DS1307/DS1307.h:497-507 | on a faithful bus the byte set is read back and no clock register changes |
| DS1307.Initialize | Arduino/DS1307/DS1307.h:235-238 | reads HOURS then SECONDS; the cached 12-hour bit is HOURS' bit when the first read delivers, the clock-halt bit SECONDS' bit when the second does |
| Calendar.DaysBeforeYearClosed | Arduino/DS1307/DS1307.cpp:51-60 | the days of the years before `yOff` are `365 yOff + (yOff + 3) / 4`, every fourth year being leap |
| Calendar.TableSumIsDaysBeforeMonth | Arduino/DS1307/DS1307.cpp:48-57 | summing the month table gives the days before a month, plus one after February in a leap year |
| Calendar.TableSumValues | Arduino/DS1307/DS1307.cpp:48 | the running sums of the month table, 0 to 365 |
| Calendar.Date2DaysCounts | Arduino/DS1307/DS1307.cpp:51-60 | date2days counts the days since 2000-01-01 while that count fits its `uint16_t` |
| Calendar.Date2DaysExamples | Arduino/DS1307/DS1307.cpp:51-60 | 2000-01-01 is day 0, also given as year 0; 2001-01-02 is day 367 |
| Calendar.Date2Days | Arduino/DS1307/DS1307.cpp:51-60 | the day count is a `uint16_t`, below 65536 |
| Calendar.YearSplitSpec | Arduino/DS1307/DS1307.cpp:80-85 | the year loop stops at the year holding the day, and the days left are inside it |
| Calendar.MonthSplitStops | Arduino/DS1307/DS1307.cpp:86-93 | the month loop stops at a month the days left fit |
| Calendar.MonthSplitCounts | Arduino/DS1307/DS1307.cpp:86-93 | the months skipped and the days left add up to the days the loop started with |
| Calendar.DateOfDaysSpec | Arduino/DS1307/DS1307.cpp:79-94 | the decomposed date is a real date whose day count is the one decomposed |
| Calendar.FromUnixRanges | Arduino/DS1307/DS1307.cpp:70-95 | month 1..12, day within the month (29 in a leap February), hour < 24, minute < 60, second < 60 |
| Calendar.FromUnixFields | Arduino/DS1307/DS1307.cpp:70-95 | the fields are the mixed-radix digits of the seconds since 2000 |
| Calendar.FromUnix | Arduino/DS1307/DS1307.cpp:70-95 | the hour is below 24 and the minute and second below 60 |
| Calendar.UnixtimeAdds | Arduino/DS1307/DS1307.cpp:143-145 | unixtime is secondstime plus the seconds from 1970 to 2000 |
| Calendar.SecondsTime | Arduino/DS1307/DS1307.cpp:147-152 | secondstime is a non-negative `long` |
| Calendar.Unixtime | Arduino/DS1307/DS1307.cpp:143-145 | unixtime fits its `uint32_t` |
| Calendar.UnixRoundTrip | Arduino/DS1307/DS1307.cpp:70-95 | unixtime undoes `DateTime(t)` for every t from 2000 on whose seconds since 2000 fit below 2^31 |
| Calendar.UnixInverse | Arduino/DS1307/DS1307.cpp:143-152 | `DateTime(t)` undoes unixtime for every valid date and time |
| Calendar.DateOfDaysAt | Arduino/DS1307/DS1307.cpp:79-94 | decomposing a real date's day count gives the date back |
| Calendar.ValidDays | Arduino/DS1307/DS1307.cpp:51-60 | a valid date's date2days is its day count, below the 2^31 seconds bound |
| Calendar.SinceEpochOfUnixtime | Arduino/DS1307/DS1307.cpp:70-72 | the constructor's subtraction recovers secondstime from unixtime |
| Calendar.MixedRadixDigits | Arduino/DS1307/DS1307.cpp:62-64 | time2long's digits are the days, hours, minutes and seconds it was given |
| Calendar.TimeToLong | Arduino/DS1307/DS1307.cpp:62-64 | the seconds fit a non-negative `long`; for a real time of day the seconds, minutes, hours and days are its mixed-radix digits |
| Calendar.DayOfWeekSpec | Arduino/DS1307/DS1307.cpp:138-141 | dayOfWeek is in 0..6 and is `(date2days + 6) mod 7` |
| Calendar.DayOfWeek | Arduino/DS1307/DS1307.cpp:138-141 | the day of the week is in 0..6 |
| Calendar.DayOfWeekExamples | Arduino/DS1307/DS1307.cpp:138-141 | 2000-01-01 is a Saturday (6), as are 2009-12-26; 2024-01-01 is a Monday (1) |
| Calendar.FromFieldsYear | Arduino/DS1307/DS1307.cpp:97-106 | years 2000..2255 survive the constructor and year(); years below 256 are read as 2000 + y; other fields are kept |
| Calendar.FromFields | Arduino/DS1307/DS1307.cpp:97-106 | the year offset fits its `uint8_t`, and a year in 2000..2255 is stored as `year - 2000` |
| Calendar.Year | Arduino/DS1307/DS1307.h:111 | year() is `2000 + yOff` for every `uint8_t` offset, and fits its `uint16_t` |
| Calendar.Conv2dDigits | Arduino/DS1307/DS1307.cpp:108-113 | two characters read as `10 a + b`, a leading space as 0 |
| Calendar.Conv2d | Arduino/DS1307/DS1307.cpp:108-113 | the value fits its `uint8_t` |
| Calendar.MonthOfNames | Arduino/DS1307/DS1307.cpp:121-130 | each of Jan..Dec maps to 1..12 |
| Calendar.MonthOf | Arduino/DS1307/DS1307.cpp:122-131 | the month is 1..12, or the value it held when the first letter starts no month name |
| Calendar.FromStringsReads | Arduino/DS1307/DS1307.cpp:118-136 | each field is read from its place in `__DATE__` and `__TIME__`, the year from its last two digits |
| Calendar.FromStrings | Arduino/DS1307/DS1307.cpp:118-136 | the month is 1..12 or unset; the year offset is below 100 when the year's last two characters are digits; every field fits its `uint8_t` |
| Calendar.FromStringsExamples | Arduino/DS1307/DS1307.cpp:118-136 | ("Dec 26 2009", "12:34:56") gives 2009-12-26 12:34:56 |
| ADS1115.ToInt16 | Arduino/ADS1115/ADS1115.h:301-308 | the `int16_t` of a register word lies in -32768..32767 |
| ADS1115.Create | Arduino/ADS1115/ADS1115.h:147-153 | continuous mode, multiplexer 0 and gain 0 are cached whatever the device holds, and no access is made |
| ADS1115.IsConversionReady | Arduino/ADS1115/ADS1115.h:495-498 | one readiness check reads CONFIG once and answers the OS bit it sees: the device's when the word or its high byte arrives, the uninitialised local's otherwise; the cache is untouched |
| ADS1115.PollConversion | Arduino/ADS1115/ADS1115.h:256-261 | 0 retries answer false with no access; otherwise true exactly when some check sees the conversion finished, with at most `max_retries` accesses |
| ADS1115.PollStep | Arduino/ADS1115/ADS1115.h:256-261 | a check that sees the conversion finished ends the poll; any other is followed by the rest of it |
| ADS1115.ChecksMadeFirst | Arduino/ADS1115/ADS1115.h:256-261 | a poll makes at most `max_retries` checks, all but the last see no result, and it stops early only at one that does |
| ADS1115.PollChecks | Arduino/ADS1115/ADS1115.h:256-261 | a poll's bus traffic is exactly those checks, and it returns true iff the last saw the conversion finished; 0 retries make no access and return false |
| ADS1115.PollLog | Arduino/ADS1115/ADS1115.h:256-261 | a poll's accesses are one read of CONFIG per check made |
| ADS1115.PollSome | Arduino/ADS1115/ADS1115.h:256-261 | a poll answers true exactly when one of its checks sees the conversion finished |
| ADS1115.SomeIsLast | Arduino/ADS1115/ADS1115.h:256-261 | some check sees the conversion finished exactly when the last one made does |
| ADS1115.PollValue | Arduino/ADS1115/ADS1115.h:256-261 | the poll's answer is what its last check saw |
| ADS1115.SameSight | Arduino/ADS1115/ADS1115.h:256-261 | the number of checks depends only on how the bus answers, not on register contents |
| ADS1115.OsBitAside | Arduino/ADS1115/ADS1115.h:506-508 | setting or clearing the OS bit leaves every setting in CONFIG alone |
| ADS1115.PollKeeps | Arduino/ADS1115/ADS1115.h:256-261 | polling changes nothing but the log and the OS bit the device sets |
| ADS1115.TriggerConversion | Arduino/ADS1115/ADS1115.h:506-508 | one read-modify-write of CONFIG setting the OS bit; a device that keeps writes holds the bit set; the cache and buffer are untouched |
| ADS1115.GetConversionLog | Arduino/ADS1115/ADS1115.h:301-308 | getConversion triggers and polls exactly when asked and in single-shot mode, then reads CONVERSION once |
| ADS1115.GetConversionSpec | Arduino/ADS1115/ADS1115.h:301-308 | the cache is untouched, and a delivering bus returns CONVERSION as a signed value |
| ADS1115.GetConversion | Arduino/ADS1115/ADS1115.h:301-308 | the cache is untouched and the answer is an `int16_t` |
| ADS1115.PrepareCache | Arduino/ADS1115/ADS1115.h:302-305 | triggering and polling leave the cache alone and only add accesses |
| ADS1115.ReadKeeps | Arduino/ADS1115/ADS1115.h:301-308 | a read changes nothing but the log and the buffer |
| ADS1115.GetConversionKeeps | Arduino/ADS1115/ADS1115.h:301-308 | on a delivering bus getConversion changes no setting |
| ADS1115.PrepareKeeps | Arduino/ADS1115/ADS1115.h:302-305 | triggering and polling on a delivering bus keep the settings |
| ADS1115.BitWriteSets | Arduino/ADS1115/ADS1115.h:506-508 | a writeBitW is a read of CONFIG and a write of it with the bit set as asked |
| ADS1115.SetMode | Arduino/ADS1115/ADS1115.h:615-619 | the cached mode ends as `mode` or as it was, and the cached multiplexer, gain and buffer are untouched |
| ADS1115.SetModeSpec | Arduino/ADS1115/ADS1115.h:615-619 | one read-modify-write of the MODE bit; the cached mode follows only an acknowledged write |
| ADS1115.SetModeKeeps | Arduino/ADS1115/ADS1115.h:615-619 | only CONFIG is written, and a faithful device holds the new MODE bit with the rest of CONFIG kept |
| ADS1115.ConversionLogConverts | Arduino/ADS1115/ADS1115.h:301-308 | a getConversion log is the trigger, the checks, then the read |
| ADS1115.GetConversionDevice | Arduino/ADS1115/ADS1115.h:301-308 | whatever the bus answers, getConversion writes no register but CONFIG |
| ADS1115.PrepareDevice | Arduino/ADS1115/ADS1115.h:302-305 | triggering and polling write no register but CONFIG |
| ADS1115.RestartCache | Arduino/ADS1115/ADS1115.h:543-548 | the stop/start runs only in continuous mode and keeps the cached multiplexer and gain; the cached mode ends continuous unless the switch to single-shot was acknowledged and the switch back was not |
| ADS1115.RestartLog | Arduino/ADS1115/ADS1115.h:543-548 | in continuous mode the bus sees single-shot, one getConversion, then continuous again |
| ADS1115.SetModeFaithful | Arduino/ADS1115/ADS1115.h:615-619 | on a faithful device setMode sets the MODE bit and keeps the other settings |
| ADS1115.GetConversionFaithful | Arduino/ADS1115/ADS1115.h:301-308 | on a faithful device getConversion keeps every setting, the MODE bit included |
| ADS1115.StopStartFaithful | Arduino/ADS1115/ADS1115.h:543-548 | the stop/start's switch to single-shot keeps the other settings |
| ADS1115.SetMultiplexerSpec | Arduino/ADS1115/ADS1115.h:540-550 | the cached multiplexer follows only a successful field write; the stop/start runs iff that write succeeded in continuous mode; the cached mode is then left single-shot exactly when the stop/start's first mode write was acknowledged and its last was not |
| ADS1115.SetGainSpec | Arduino/ADS1115/ADS1115.h:581-591 | the same for the cached gain |
| ADS1115.SetMultiplexer | Arduino/ADS1115/ADS1115.h:540-550 | the cached multiplexer becomes `mux` exactly when the field write succeeds; the cached gain is kept |
| ADS1115.SetGain | Arduino/ADS1115/ADS1115.h:581-591 | the cached gain becomes `gain` exactly when the field write succeeds; the cached multiplexer is kept |
| ADS1115.FieldWriteShape | Arduino/ADS1115/ADS1115.h:540-542 | a writeBitsW of CONFIG succeeds exactly when its read counted nonzero and its write was acknowledged, and makes one access, or two when it succeeds |
| ADS1115.RestartLength | Arduino/ADS1115/ADS1115.h:543-548 | the stop/start makes at least five accesses in continuous mode and none otherwise |
| ADS1115.FieldWriteFaithful | Arduino/ADS1115/ADS1115.h:540-542 | on a faithful device a field write succeeds, replaces the field, and changes nothing else |
| ADS1115.RestartDevice | Arduino/ADS1115/ADS1115.h:543-548 | the stop/start writes no register but CONFIG |
| ADS1115.RestartFaithful | Arduino/ADS1115/ADS1115.h:543-548 | on a faithful device the stop/start keeps the settings, and the MODE bit ends continuous when it ran |
| ADS1115.SetMultiplexerFaithful | Arduino/ADS1115/ADS1115.h:540-550 | on a faithful device the MUX field is replaced and every other setting kept |
| ADS1115.SetMultiplexerRestarts | Arduino/ADS1115/ADS1115.h:540-550 | on a faithful device setMultiplexer is the field write followed by the stop/start |
| ADS1115.SetMultiplexerDevice | Arduino/ADS1115/ADS1115.h:540-550 | setMultiplexer writes no register but CONFIG |
| ADS1115.SetGainFaithful | Arduino/ADS1115/ADS1115.h:581-591 | on a faithful device the PGA field is replaced and every other setting kept |
| ADS1115.SetGainRestarts | Arduino/ADS1115/ADS1115.h:581-591 | on a faithful device setGain is the field write followed by the stop/start |
| ADS1115.SetGainDevice | Arduino/ADS1115/ADS1115.h:581-591 | setGain writes no register but CONFIG |
| ADS1115Setup.SetFieldSpec | Arduino/ADS1115/ADS1115.h:648-650 | an uncached field setter keeps the cache, writes only CONFIG, and on a faithful device replaces just the field |
| ADS1115Setup.SetFlagSpec | Arduino/ADS1115/ADS1115.h:673-675 | an uncached flag setter keeps the cache, writes only CONFIG, and on a faithful device sets just the bit |
| ADS1115Setup.SetRate | Arduino/ADS1115/ADS1115.h:648-650 | the cache and buffer are kept; on a faithful device the DR field holds the low three bits of `rate` |
| ADS1115Setup.SetComparatorMode | Arduino/ADS1115/ADS1115.h:673-675 | the cache and buffer are kept; on a faithful device the COMP_MODE bit is `mode` |
| ADS1115Setup.SetComparatorPolarity | Arduino/ADS1115/ADS1115.h:698-700 | the cache and buffer are kept; on a faithful device the COMP_POL bit is `polarity` |
| ADS1115Setup.SetComparatorLatchEnabled | Arduino/ADS1115/ADS1115.h:723-725 | the cache and buffer are kept; on a faithful device the COMP_LAT bit is `enabled` |
| ADS1115Setup.SetComparatorQueueMode | Arduino/ADS1115/ADS1115.h:754-756 | the cache and buffer are kept; on a faithful device the COMP_QUE field holds the low two bits of `mode` |
| ADS1115Setup.GetFieldSpec | Arduino/ADS1115/ADS1115.h:628-631 | a field getter reads CONFIG once and answers the field, or the stale buffer's low byte when nothing was read |
| ADS1115Setup.GetFlagSpec | Arduino/ADS1115/ADS1115.h:660-663 | a flag getter answers the bit of the word fetched |
| ADS1115Setup.GetMultiplexer | Arduino/ADS1115/ADS1115.h:517-521 | the field of the word fetched, or the stale buffer's low byte when the read counted 0; the cached multiplexer becomes the answer and the rest of the cache is kept |
| ADS1115Setup.GetGain | Arduino/ADS1115/ADS1115.h:559-563 | the same for the PGA field and the cached gain |
| ADS1115Setup.GetMode | Arduino/ADS1115/ADS1115.h:601-605 | the MODE bit of the word fetched, which also becomes the cached mode |
| ADS1115Setup.GetRate | Arduino/ADS1115/ADS1115.h:628-631 | the field of the word fetched, or the stale buffer's low byte when the read counted 0; the cache is kept |
| ADS1115Setup.GetComparatorMode | Arduino/ADS1115/ADS1115.h:660-663 | the COMP_MODE bit of the word fetched; the cache is kept |
| ADS1115Setup.GetComparatorPolarity | Arduino/ADS1115/ADS1115.h:685-688 | the COMP_POL bit of the word fetched; the cache is kept |
| ADS1115Setup.GetComparatorLatchEnabled | Arduino/ADS1115/ADS1115.h:710-713 | the COMP_LAT bit of the word fetched; the cache is kept |
| ADS1115Setup.GetComparatorQueueMode | Arduino/ADS1115/ADS1115.h:738-741 | the field of the word fetched, or the stale buffer's low byte when the read counted 0; the cache is kept |
| ADS1115Setup.FieldRoundTrip | Arduino/ADS1115/ADS1115.h:628-650 | on a faithful device a field getter returns the low bits of what its setter wrote |
| ADS1115Setup.FlagRoundTrip | Arduino/ADS1115/ADS1115.h:660-675 | on a faithful device a flag getter returns what its setter wrote |
| ADS1115Setup.MultiplexerRoundTrip | Arduino/ADS1115/ADS1115.h:517-550 | setMultiplexer caches `mux` itself; getMultiplexer reads back and caches its low three bits |
| ADS1115Setup.GainRoundTrip | Arduino/ADS1115/ADS1115.h:559-591 | the same for the gain |
| ADS1115Setup.ModeRoundTrip | Arduino/ADS1115/ADS1115.h:601-619 | on a faithful device getMode returns and caches the mode set |
| ADS1115Setup.GetLowThreshold | Arduino/ADS1115/ADS1115.h:765-768 | reads LO_THRESH once; a delivering read returns the register as an `int16_t` and leaves it in the buffer; a read that gets nothing returns the stale buffer; the cache is kept |
| ADS1115Setup.SetLowThreshold | Arduino/ADS1115/ADS1115.h:775-777 | a device that keeps writes holds the pattern in LO_THRESH; no other register changes; the cache and buffer are kept |
| ADS1115Setup.GetHighThreshold | Arduino/ADS1115/ADS1115.h:784-787 | reads HI_THRESH once; a delivering read returns the register as an `int16_t` and leaves it in the buffer; a read that gets nothing returns the stale buffer; the cache is kept |
| ADS1115Setup.SetHighThreshold | Arduino/ADS1115/ADS1115.h:794-796 | a device that keeps writes holds the pattern in HI_THRESH; no other register changes; the cache and buffer are kept |
| ADS1115Setup.ThresholdRoundTrip | Arduino/ADS1115/ADS1115.h:765-796 | on a faithful device a threshold getter returns the signed value of the word set, and no other register changes |
| ADS1115Setup.SetConversionReadyPinMode | Arduino/ADS1115/ADS1115.h:804-809 | the cache and buffer are kept; on a faithful device the high threshold's MSB is set and the low one's cleared, the polarity bit and the queue field are cleared, and the rest of CONFIG is kept |
| ADS1115Setup.PinModeConfig | Arduino/ADS1115/ADS1115.h:804-809 | clearing polarity and the queue field touches only bits 3, 1 and 0 |
| ADS1115Setup.InitializeCachedFaithful | Arduino/ADS1115/ADS1115.h:229-233 | the first three setters leave the cache at P0/N1, 2.048 V, single-shot, and CONFIG bits 14..8 at 0000101 |
| ADS1115Setup.InitializeUncachedFaithful | Arduino/ADS1115/ADS1115.h:234-237 | the remaining setters complete CONFIG below the OS bit to 0x0583 and leave the cache alone |
| ADS1115Setup.Initialize | Arduino/ADS1115/ADS1115.h:229-238 | on a faithful device CONFIG below the OS bit ends 0x0583 and the cache agrees: P0/N1, 2.048 V, single-shot |
| ADS1115Setup.DefaultFields | Arduino/ADS1115/ADS1115.h:58-124 | 0x0583 is MUX 0, PGA 2, MODE 1, DR 4, comparator flags 0, queue 3 |
| ADS1115Setup.InitializeReadsBack | Arduino/ADS1115/ADS1115.h:229-238 | after initialize every getter reads back its default |
| ADS1115Setup.RestartExtends | Arduino/ADS1115/ADS1115.h:543-548 | the stop/start only appends to the log |
| ADS1115Setup.SetMultiplexerStarts | Arduino/ADS1115/ADS1115.h:540-542 | setMultiplexer begins with its writeBitsW of the MUX field |
| ADS1115Setup.ChannelCached | Arduino/ADS1115/ADS1115.h:318-321 | when the cached multiplexer matches, the bus sees exactly one triggered getConversion |
| ADS1115Setup.MuxWriteLog | Arduino/ADS1115/ADS1115.h:540-542 | the MUX writeBitsW is a read of CONFIG and, unless it counted 0, a write of the merged word |
| ADS1115Setup.ChannelSwitches | Arduino/ADS1115/ADS1115.h:318-412 | when the cached multiplexer differs, the call starts with setMultiplexer's read-modify-write of MUX |
| ADS1115Setup.ChannelFaithful | Arduino/ADS1115/ADS1115.h:318-412 | on a faithful device a channel conversion leaves the channel cached and in the MUX field, and returns CONVERSION as it stood |
| ADS1115Setup.GetConversionChannel | Arduino/ADS1115/ADS1115.h:318-412 | the cached multiplexer ends as `mux` unless a needed switch failed; the cached gain is kept; the answer is an `int16_t` |
| ADS1115Setup.TestConnectionSpec | Arduino/ADS1115/ADS1115.h:245-247 | passes exactly when the CONVERSION read delivers, reading it once |
| ADS1115Setup.TestConnection | Arduino/ADS1115/ADS1115.h:245-247 | passes exactly when the CONVERSION read delivers, reading it once |
| ADS1115Masks.SpanClosed | Arduino/ADS1115/ADS1115.h:812-817 | the bits a..i-1 set one by one make `(1 << i) - (1 << a)` |
| ADS1115Masks.SpanBits | Arduino/ADS1115/ADS1115.h:812-817 | that mask has bit j set exactly for `a <= j <= b` |
| ADS1115Masks.CreateMask | Arduino/ADS1115/ADS1115.h:812-817 | the mask of bits a..b inclusive, and 0 when a > b |
| ADS1115Masks.NarrowSpan | Arduino/ADS1115/ADS1115.h:812-817 | masks of bits below 16 fit in 16 bits, so a 16-bit `unsigned` gives the same masks |
| ADS1115Masks.MaskAgrees | Arduino/ADS1115/ADS1115.h:819-828 | createMask's bits cut to 16 pick the same bits as I2Cdev's field mask |
| ADS1115Masks.GetValueFromBits | Arduino/ADS1115/ADS1115.h:824-828 | extracts the same field readBitsW does |
| AT24C32.ReadByteAt | Arduino/AT24C32/AT24C32.h:115-119 | the byte at the address when the read delivers, otherwise the uninitialised local's value; memory unchanged |
| AT24C32.WriteByteAt | Arduino/AT24C32/AT24C32.h:103-108 | the transport's status comes back unchanged whether or not the delay runs; only the one byte can change |
| AT24C32.TestConnection | Arduino/AT24C32/AT24C32.h:78-94 | when the verifying read delivers, passes iff the memory keeps writes or byte 0xFFF already equals the first read's value XOR 0xAA; when it does not, passes iff the uninitialised local at that read equals that value; the first read's value is the byte when that read delivers and the local's junk otherwise |
| AT24C32.TestConnectionLastByte | Arduino/AT24C32/AT24C32.h:82-93 | a memory that keeps writes ends with byte 0xFFF holding the first read's value; one that ignores writes is unchanged |
| AT24C32.ProbeDiffers | Arduino/AT24C32/AT24C32.h:85 | the probe byte, the original XOR 0xAA, always differs from the original |
| AT24C32.TestConnectionLog | Arduino/AT24C32/AT24C32.h:78-94 | the probe makes four accesses, all at 0xFFF: read, write the flipped byte, read, write the first byte back |
| AT24C32.TestConnectionKeepsOthers | Arduino/AT24C32/AT24C32.h:81 | no byte but 0xFFF changes |
| AT24C32.TestConnectionRestores | Arduino/AT24C32/AT24C32.h:82-93 | on a faithful memory the test passes and byte 0xFFF ends as it started |
| AT24C32.TestConnectionIgnoredWrites | Arduino/AT24C32/AT24C32.h:85-93 | on a memory that ignores writes nothing changes, and the test fails when both reads deliver |
| AT24C32.TestConnectionFalsePass | Arduino/AT24C32/AT24C32.h:78-94 | on a memory that ignores writes the test passes when the first read gets nothing, the verifying read delivers, and the uninitialised local happens to be the stored byte XOR 0xAA |
| AT24C32.TestConnectionClobbers | Arduino/AT24C32/AT24C32.h:82-93 | when the first read gets nothing but writes are kept, byte 0xFFF is overwritten with the uninitialised local's value, and the test passes if the verifying read delivers |
| AT24C32.AddressPair | Arduino/I2Cdev/I2Cdev_SoftWire_impl.h:278-279 | the two address bytes go high byte first and rebuild the address |
| AT24C32.WriteBytesAt | Arduino/AT24C32/AT24C32.h:129-134 | one transmission of the two address bytes and the data; the transport's status comes back unchanged |
| AT24C32.ReadBytesAt | Arduino/AT24C32/AT24C32.h:143-145 | is the transport's readBytes with the two-byte address, so its count comes back unchanged, -1 included; up to 32 bytes are one request after the two address bytes |

## Left out

- HTU21D: its only logic is floating-point conversion formulas, NaN returns and a delay.
- ADS1115 getMilliVolts and getMvPerCount: floating-point scale factors.
- ADS1115 showConfigRegister: debug printing. Its field extraction is modelled as `ADS1115Masks.GetValueFromBits`.
- The HardWire specialisations of readBytes, readWords, writeBytes and writeWords: they repeat the SoftWire ones.
- `millis()` and `delay()`: elapsed time is an input, and the optional delays have no effect in the model.
- The Wire library itself: what the device offers for a request and the end-of-transmission status are inputs. BUFFER_LENGTH is fixed at 32.
- Serial debug output and PROGMEM access: the month-length table is a constant sequence.
- The DS1307 CONTROL register (square-wave output) and the composite date/time getters and setters built from the modelled ones.
- AT24C32 initialize: its body is empty. The constructor only stores the device address.
- Registers.Bus: whether the device keeps writes is one flag for the whole bus, not a choice per access. Read outcomes, half-read words, acknowledgements and uninitialised values are inputs per access, not derived from the electrical behaviour of the bus.
- ADS1115Setup.Initialize: the settings it leaves are stated on a faithful device only; on a failing bus each setter's own contract says what its step does.
- ADS1115.SetMode: its own contract says only that the cached mode ends as `mode` or as it was; `ADS1115.SetModeSpec` says which, by the acknowledgement.
- Concurrency: another bus master changing a register between the read and the write of a read-modify-write is not modelled.
- I2Cdev.ReadBits: only fields with `bitStart` below the register width and `length <= bitStart + 1` are modelled; a longer field needs a negative shift, which C++ leaves undefined.
- SoftWire.ReadBytes: lengths are limited to 127, because the count it returns is an `int8_t`.
- SoftWireWords.ReadWords: models the chunk loop with a byte offset `k` that does not wrap. As written, `k` is a `uint8_t` (Arduino/I2Cdev/I2Cdev_SoftWire_impl.h:186), and readWords never returns for lengths 113..255 (`SoftWireWords.ReadWordsEndsIff`). Lengths above 127 are not modelled at all: the `int8_t` count and the `(uint8_t)(length * 2)` request cannot hold them.
- SoftWireWrites.WriteWordsAsWritten: requires `2 length - 1` words of data, because the loop as written reads that far. It also requires `length <= 127`: for lengths 128..255 the loop as written never ends (`SoftWireWrites.WriteWordsEndsIff`), sending bytes forever, and a method that never returns is not modelled.
- ADS1115Masks.CreateMask: `unsigned` is modelled 32 bits wide, as on 32-bit boards, so it requires `b < 32`; for larger `b` the loop never ends or shifts by 32 or more, both undefined. On 8-bit AVR boards `unsigned` is 16 bits wide; `ADS1115Masks.NarrowSpan` shows the masks of bits below 16 are the same at both widths.
- ADS1115Masks.GetValueFromBits: takes `high` and `length` in the range of a valid 16-bit field.
- Calendar.Date2Days: requires `m <= 13`, because date2days reads the month table for every month below `m`: the table has 12 entries, `m = 13` reads the last one, and a larger month reads past its end.
- Calendar.SecondsTime: requires (through `Calendar.Countable`) seconds since 2000 below 2^31, the range of time2long's signed 32-bit `long`. That leaves out instants from 2068-01-19 03:14:08 on, although date2days is documented for 2001..2099. Calendar.TimeToLong, Calendar.Unixtime and Calendar.DayOfWeek carry the same bound.
- Calendar.UnixRoundTrip: holds for times from 2000 on whose seconds since 2000 fit below 2^31, because time2long overflows a signed 32-bit `long` past that.
- Calendar.FromUnixRanges: times before 2000 wrap around in the driver's unsigned subtraction; the model computes that wrap but states no round trip for it.
- Calendar.Date2DaysCounts: holds while the count fits the `uint16_t` result.
- ADS1115Setup.ThresholdRoundTrip: thresholds are passed as their 16-bit pattern; the signed `int16_t` interpretation is given by `ADS1115.ToInt16`.
- DS1307.SetClockRunning: does not update the cached clock-halt flag, following the code.
- DS1307.SetMode: does not update the cached 12-hour flag, following the code.

## Notes

- readBytes re-sends the same register address before every chunk of a long
  read. On a memory that advances its address as it is read, a 50-byte read
  therefore returns bytes 0..31 and then 0..17, not bytes 0..49. The model
  follows the code; `MemoryReads.ChunkedReadRestarts` states the consequence.
- setMultiplexer and setGain cache the argument as given, while the device
  keeps only its low three bits.
- The ADS1115 constructor caches continuous mode, multiplexer 0 and gain 0
  without reading the device.
- Every poll reads whether the conversion has finished from one input
  function, `done`, indexed by the readiness check.
- AT24C32 testConnection ignores the counts its reads return. When the first
  read gets nothing, the probe starts from whatever the uninitialised local
  holds, and a memory that ignores writes can then pass
  (`AT24C32.TestConnectionFalsePass`).
- The eight getConversionP0N1 … getConversionP3GND wrappers are
  `ADS1115Setup.GetConversionChannel` with the multiplexer codes 0..7.

## Findings

| source | as written | input that shows it | evidently intended | confidence | as-written member | corrected member |
|---|---|---|---|---|---|---|
| Arduino/I2Cdev/I2Cdev_SoftWire_impl.h:316-322 | the word index `i` is advanced both in the loop header and in its body, so writeWords sends `data[0]`, `data[2]`, … | `data = [0x1111, 0x2222, 0x3333]`, length 2: sends 0x1111 and 0x3333 | send `data[0..length)`, each word MSB first | not executed | SoftWireWrites.WriteWordsAsWritten, SoftWireWrites.StrideSkipsWords | SoftWireWrites.WriteWords, SoftWireWrites.WrittenWordsReadBack |
| Arduino/I2Cdev/I2Cdev_SoftWire_impl.h:316 | the `uint8_t` index advances by 2 per pass and is compared with `length * 2` in `int`, so writeWords never returns for length ≥ 128 | length 128: the index goes …, 252, 254, 0 and `i < 256` always holds | end after `length` words for every `uint8_t` length | not executed | SoftWireWrites.IndexWraps, SoftWireWrites.WriteWordsEndsIff | SoftWireWrites.WriteWords |
| Arduino/I2Cdev/I2Cdev_SoftWire_impl.h:186 | the `uint8_t` byte offset `k` advances by 32 per chunk and is compared with `length * 2` in `int`, so readWords never returns for length ≥ 113 | length 113: `k` goes 0, 32, …, 224, 0 and `k < 226` always holds | end after the chunks that cover `length * 2` bytes | not executed | SoftWireWords.OffsetWraps, SoftWireWords.ReadWordsEndsIff | SoftWireWords.ReadWords, SoftWireWords.ReadWordsLongChunks |
| Arduino/DS1307/DS1307.h:351-355 | in 24-hour mode setHours12 leaves 12 AM as 12 | setHours12(12, 0) in 24-hour mode stores 12, which getHours24 reads as noon | 12 AM is hour 0 | not executed | DS1307.SetHours12AsWritten, DS1307.MidnightBecomesNoon | DS1307.SetHours12, DS1307.Hours12RoundTrip |
| Arduino/DS1307/DS1307.h:297-301 | getMode returns the masked bit, 0 or 0x40 | HOURS = 0x52 (12-hour mode) gives 0x40 | 0 or 1, as documented | not executed | DS1307.GetModeAsWritten, DS1307.GetModeReturns0x40 | DS1307.GetMode |
| Arduino/DS1307/DS1307.h:309-312 | getAMPM returns the masked bit, 0 or 0x20 | HOURS = 0x61 (1 PM) gives 0x20 | 0 or 1, as documented | not executed | DS1307.GetAmPmAsWritten, DS1307.GetAmPmReturns0x20 | DS1307.GetAmPm |
