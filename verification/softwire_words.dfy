/** readWords of the SoftWire transport and the byte order of 16-bit words on
    the wire: most significant byte first. */
module SoftWireWords {
  import opened SoftWire

  /** `data[count] = read() << 8`: a most significant byte in place. */
  function Shifted(msb: bv8): bv16
  {
    (msb as bv16) << 8
  }

  /** `data[count] |= read()`: the least significant byte added. */
  function OrLow(w: bv16, lsb: bv8): bv16
  {
    w | lsb as bv16
  }

  /** The word a most significant byte and a least significant byte make. */
  function Word(msb: bv8, lsb: bv8): bv16
  {
    OrLow(Shifted(msb), lsb)
  }

  /** The two bytes a word goes out as: `(uint8_t)(w >> 8)`, then `(uint8_t)w`. */
  function WordBytes(w: bv16): (b: seq<bv8>)
  {
    [(w >> 8) as bv8, (w & 0xFF) as bv8]
  }

  /** Splitting a word into its bytes and putting them together again gives the word. */
  lemma WordBytesRoundTrip(w: bv16)
    ensures |WordBytes(w)| == 2 && Word(WordBytes(w)[0], WordBytes(w)[1]) == w
  {
  }

  /** ... and putting two bytes together and splitting the word gives the bytes. */
  lemma WordRoundTrip(msb: bv8, lsb: bv8)
    ensures WordBytes(Word(msb, lsb)) == [msb, lsb]
  {
  }

  /** The words `b` carries, two bytes each; a trailing odd byte makes no word. */
  function Words(b: seq<bv8>): (w: seq<bv16>)
  {
    seq(|b| / 2, j requires 0 <= j < |b| / 2 => Word(b[2 * j], b[2 * j + 1]))
  }

  /** The bytes a sequence of words goes out as. */
  function Serialize(w: seq<bv16>): (b: seq<bv8>)
  {
    if w == [] then [] else WordBytes(w[0]) + Serialize(w[1..])
  }

  lemma {:induction false} SerializeLength(w: seq<bv16>)
    ensures |Serialize(w)| == 2 * |w|
    decreases |w|
  {
    if w != [] {
      SerializeLength(w[1..]);
    }
  }

  /** Byte `2j` of the serialized words is the high byte of word `j`, byte `2j+1` its low byte. */
  lemma {:induction false} SerializeBytes(w: seq<bv16>, j: nat)
    requires j < |w|
    ensures |Serialize(w)| == 2 * |w|
    ensures Serialize(w)[2 * j] == WordBytes(w[j])[0] && Serialize(w)[2 * j + 1] == WordBytes(w[j])[1]
    decreases j
  {
    SerializeLength(w);
    if j > 0 {
      SerializeBytes(w[1..], j - 1);
      SerializeLength(w[1..]);
      assert Serialize(w) == WordBytes(w[0]) + Serialize(w[1..]);
    }
  }

  /** Reading back serialized words gives the words. */
  lemma SerializeRoundTrip(w: seq<bv16>)
    ensures Words(Serialize(w)) == w
  {
    SerializeLength(w);
    forall j | 0 <= j < |w|
      ensures Words(Serialize(w))[j] == w[j]
    {
      SerializeBytes(w, j);
      WordBytesRoundTrip(w[j]);
    }
  }

  /** Where readWords is: words stored, the caller's buffer, bytes consumed from the bus. */
  datatype WordState = WordState(count: nat, data: seq<bv16>, consumed: nat)

  /** The inner loop of readWords over the bytes available after one request,
      from index `i` on: while a byte is available, fewer than `length` words
      are stored and time is left, a most significant byte is stored shifted
      into `data[count]`, and the following byte is or-ed into it and counts
      the word. The time check is made once per byte consumed. It never
      stores more than `length` words and keeps the buffer's size. */
  function WordDrain(avail: seq<bv8>, i: nat, msb: bool, length: nat, s: WordState,
                     timeout: nat, elapsed: nat -> nat): (r: WordState)
    requires i <= |avail|
    requires s.count <= length <= |s.data|
    ensures s.count <= r.count <= length && |r.data| == |s.data|
    decreases |avail| - i
  {
    if i == |avail| || s.count >= length || !TimeLeft(timeout, elapsed(s.consumed)) then s
    else if msb then
      WordDrain(avail, i + 1, false, length,
                WordState(s.count, s.data[s.count := Shifted(avail[i])], s.consumed + 1), timeout, elapsed)
    else
      WordDrain(avail, i + 1, true, length,
                WordState(s.count + 1, s.data[s.count := OrLow(s.data[s.count], avail[i])], s.consumed + 1),
                timeout, elapsed)
  }

  /** `s` after a whole word has been stored. */
  function StoreWord(s: WordState, msb: bv8, lsb: bv8): WordState
    requires s.count < |s.data|
  {
    WordState(s.count + 1, s.data[s.count := Word(msb, lsb)], s.consumed + 2)
  }

  /** `s` after a most significant byte has been stored. */
  function StoreMsb(s: WordState, msb: bv8): WordState
    requires s.count < |s.data|
  {
    WordState(s.count, s.data[s.count := Shifted(msb)], s.consumed + 1)
  }

  lemma WordDrainMsb(avail: seq<bv8>, i: nat, length: nat, s: WordState, timeout: nat, elapsed: nat -> nat)
    requires i < |avail|
    requires s.count < length <= |s.data|
    requires timeout == 0
    ensures WordDrain(avail, i, true, length, s, timeout, elapsed)
            == WordDrain(avail, i + 1, false, length, StoreMsb(s, avail[i]), timeout, elapsed)
  {
  }

  lemma WordDrainLsb(avail: seq<bv8>, i: nat, length: nat, s: WordState, msb: bv8, timeout: nat, elapsed: nat -> nat)
    requires i < |avail|
    requires s.count < length <= |s.data|
    requires timeout == 0
    ensures WordDrain(avail, i, false, length, StoreMsb(s, msb), timeout, elapsed)
            == WordDrain(avail, i + 1, true, length, StoreWord(s, msb, avail[i]), timeout, elapsed)
  {
    var s1 := StoreMsb(s, msb);
    var s2 := WordState(s1.count + 1, s1.data[s1.count := OrLow(s1.data[s1.count], avail[i])], s1.consumed + 1);
    assert WordDrain(avail, i, false, length, s1, timeout, elapsed) == WordDrain(avail, i + 1, true, length, s2, timeout, elapsed);
    assert s2.data == s.data[s.count := Word(msb, avail[i])];
    assert s2 == StoreWord(s, msb, avail[i]);
  }

  /** Two more bytes with time left and room for a word store that word. */
  lemma WordDrainTwoBytes(avail: seq<bv8>, p: nat, length: nat, s: WordState, timeout: nat, elapsed: nat -> nat)
    requires 2 * p + 1 < |avail|
    requires s.count < length <= |s.data|
    requires timeout == 0
    ensures WordDrain(avail, 2 * p, true, length, s, timeout, elapsed)
            == WordDrain(avail, 2 * (p + 1), true, length, StoreWord(s, avail[2 * p], avail[2 * p + 1]), timeout, elapsed)
  {
    WordDrainMsb(avail, 2 * p, length, s, timeout, elapsed);
    WordDrainLsb(avail, 2 * p + 1, length, s, avail[2 * p], timeout, elapsed);
    assert 2 * p + 1 + 1 == 2 * (p + 1);
  }

  /** With the timeout disabled the inner loop pairs the available bytes, most
      significant byte first, into the next free words, until the bytes or the
      room run out; the words stored before are kept. */
  lemma {:induction false} WordDrainPairs(avail: seq<bv8>, p: nat, length: nat, s: WordState,
                                          timeout: nat, elapsed: nat -> nat)
    requires 2 * p <= |avail|
    requires s.count <= length <= |s.data|
    requires timeout == 0
    ensures var r := WordDrain(avail, 2 * p, true, length, s, timeout, elapsed);
            var w := Min((|avail| - 2 * p) / 2, length - s.count);
            && r.count == s.count + w
            && |r.data| == |s.data|
            && (forall j | 0 <= j < w :: r.data[s.count + j] == Word(avail[2 * p + 2 * j], avail[2 * p + 2 * j + 1]))
            && (forall j | 0 <= j < s.count :: r.data[j] == s.data[j])
    decreases |avail| - 2 * p
  {
    var r := WordDrain(avail, 2 * p, true, length, s, timeout, elapsed);
    if 2 * p == |avail| || s.count >= length {
      assert r == s;
    } else if 2 * p + 1 == |avail| {
      WordDrainMsb(avail, 2 * p, length, s, timeout, elapsed);
      assert r == StoreMsb(s, avail[2 * p]);
    } else {
      var s2 := StoreWord(s, avail[2 * p], avail[2 * p + 1]);
      WordDrainTwoBytes(avail, p, length, s, timeout, elapsed);
      WordDrainPairs(avail, p + 1, length, s2, timeout, elapsed);
      forall j | 0 <= j < Min((|avail| - 2 * p) / 2, length - s.count)
        ensures r.data[s.count + j] == Word(avail[2 * p + 2 * j], avail[2 * p + 2 * j + 1])
      {
        if j > 0 {
          var j' := j - 1;
          assert s.count + j == s2.count + j';
          assert 2 * p + 2 * j == 2 * (p + 1) + 2 * j';
        }
      }
    }
  }

  /** The size of every request readWords makes: `length * 2` bytes. */
  function WordRequest(length: nat): nat
  {
    2 * length
  }

  /** What the Wire library holds after a request of readWords: at most a buffer's worth. */
  function WordOffer(device: Device, reg: bv8, length: nat, chunk: nat): seq<bv8>
  {
    Take(device(chunk, [reg], WordRequest(length)), Min(WordRequest(length), BufferLength))
  }

  /** The chunk loop of readWords from byte offset `k` on: every chunk selects
      the register again, requests `length * 2` bytes and restarts the pairing
      with a most significant byte; `k` advances by `min(length * 2, 32)`.
      Across chunks the count stays within `length` and the buffer keeps its
      size. */
  function WordChunks(device: Device, reg: bv8, length: nat, timeout: nat, elapsed: nat -> nat,
                      chunk: nat, k: nat, s: WordState): (r: WordState)
    requires s.count <= length <= |s.data|
    ensures s.count <= r.count <= length && |r.data| == |s.data|
    decreases WordRequest(length) - k
  {
    if k >= WordRequest(length) then s
    else
      var avail := WordOffer(device, reg, length, chunk);
      WordChunks(device, reg, length, timeout, elapsed, chunk + 1, k + Min(WordRequest(length), BufferLength),
                 WordDrain(avail, 0, true, length, s, timeout, elapsed))
  }

  /** The bus events of one readWords chunk. */
  function WordChunkEvents(dev: bv8, reg: bv8, length: nat): seq<Event>
  {
    [Begin(dev), Send(reg), End, Begin(dev), Request(dev, WordRequest(length)), End]
  }

  /** The bus events of readWords from byte offset `k` on. */
  function WordChunkLog(dev: bv8, reg: bv8, length: nat, k: nat): seq<Event>
    decreases WordRequest(length) - k
  {
    if k >= WordRequest(length) then []
    else WordChunkEvents(dev, reg, length) + WordChunkLog(dev, reg, length, k + Min(WordRequest(length), BufferLength))
  }

  /** `k += min(length * 2, BUFFER_LENGTH)` on the `uint8_t` byte offset of the
      chunk loop as written: a sum past 255 wraps. */
  function OffsetStep(k: nat, length: nat): (j: nat)
    requires k < 256
    ensures j < 256
  {
    var sum := k + Min(WordRequest(length), BufferLength);
    if sum >= 256 then sum - 256 else sum
  }

  /** The `uint8_t` byte offset after `n` chunks. */
  function OffsetAfter(length: nat, n: nat): (k: nat)
    ensures k < 256
  {
    if n == 0 then 0 else OffsetStep(OffsetAfter(length, n - 1), length)
  }

  /** `k < length * 2`, with `length * 2` computed in `int`. */
  predicate ChunkGuard(k: nat, length: nat)
  {
    k < WordRequest(length)
  }

  /** From 16 words on, every chunk advances the offset by 32 bytes, and the
      first seven do so without wrapping. */
  lemma {:induction false} OffsetAfterValue(length: nat, n: nat)
    requires 16 <= length && n <= 7
    ensures OffsetAfter(length, n) == 32 * n
  {
    if n > 0 {
      OffsetAfterValue(length, n - 1);
    }
  }

  /** ... so the eighth chunk takes the offset from 224 back to 0. */
  lemma OffsetWraps(length: nat)
    requires 16 <= length
    ensures OffsetAfter(length, 7) == 224 && OffsetAfter(length, 8) == 0
  {
    OffsetAfterValue(length, 7);
  }

  /** From 16 words on, the offset is a multiple of 32 no greater than 224 after
      any number of chunks. */
  lemma {:induction false} OffsetBounded(length: nat, n: nat)
    requires 16 <= length
    ensures OffsetAfter(length, n) <= 224 && OffsetAfter(length, n) % 32 == 0
  {
    if n > 0 {
      OffsetBounded(length, n - 1);
    }
  }

  /** The chunk loop as written ends for a `uint8_t` length exactly when the
      length is at most 112 words: from 113 on every offset it reaches is below
      `length * 2`, so readWords never returns. */
  lemma ReadWordsEndsIff(length: nat)
    requires length < 256
    ensures (exists n: nat :: !ChunkGuard(OffsetAfter(length, n), length)) <==> length <= 112
  {
    if length == 0 {
      assert !ChunkGuard(OffsetAfter(length, 0), length);
    } else if length < 16 {
      assert OffsetAfter(length, 1) == 2 * length;
      assert !ChunkGuard(OffsetAfter(length, 1), length);
    } else if length <= 112 {
      var n: nat := if length <= 16 then 1 else if length <= 32 then 2 else if length <= 48 then 3
                    else if length <= 64 then 4 else if length <= 80 then 5 else if length <= 96 then 6 else 7;
      OffsetAfterValue(length, n);
      assert !ChunkGuard(OffsetAfter(length, n), length);
    } else {
      forall n: nat
        ensures ChunkGuard(OffsetAfter(length, n), length)
      {
        OffsetBounded(length, n);
      }
    }
  }

  /** With an offset that does not wrap, `m` chunks of 32 bytes cover the
      rest of a request of at least 16 words from offset `k`: the loop makes
      exactly `m` more chunks. */
  lemma {:induction false} WordChunkLogFrom(dev: bv8, reg: bv8, length: nat, k: nat, m: nat)
    requires 16 <= length
    requires k + 32 * m >= WordRequest(length)
    requires m == 0 || k + 32 * (m - 1) < WordRequest(length)
    ensures |WordChunkLog(dev, reg, length, k)| == |WordChunkEvents(dev, reg, length)| * m
    decreases m
  {
    if m > 0 {
      WordChunkLogFrom(dev, reg, length, k + 32, m - 1);
    }
  }

  /** The corrected loop ends for the lengths the one as written never returns
      from below 128: eight chunks of 32 bytes. */
  lemma ReadWordsLongChunks(dev: bv8, reg: bv8, length: nat, buf: seq<bv16>, timeout: nat,
                             device: Device, elapsed: nat -> nat, atEnd: nat)
    requires 113 <= length <= 127 && |buf| >= length
    ensures |ReadWords(dev, reg, length, buf, timeout, device, elapsed, atEnd).events|
            == 8 * |WordChunkEvents(dev, reg, length)|
  {
    WordChunkLogFrom(dev, reg, length, 0, 8);
  }

  /** What readWords hands back: the returned count, the caller's buffer, the bus events. */
  datatype WordReadResult = WordReadResult(count: int, data: seq<bv16>, events: seq<Event>)

  /** readWords for an 8-bit register address, with the byte offset `k` of the
      chunk loop wide enough not to wrap (`OffsetAfter` is the `uint8_t` offset
      as written, which never lets the loop end above 112 words). Lengths up to
      127 words are modelled: the returned count is an `int8_t`. */
  function ReadWords(dev: bv8, reg: bv8, length: nat, buf: seq<bv16>, timeout: nat,
                     device: Device, elapsed: nat -> nat, atEnd: nat): (r: WordReadResult)
    requires length <= 127
    requires |buf| >= length
    ensures var f := WordChunks(device, reg, length, timeout, elapsed, 0, 0, WordState(0, buf, 0));
            && f.count <= length
            && r.data == f.data
            && (r.count == -1 <==> timeout > 0 && atEnd >= timeout && f.count < length)
            && (r.count != -1 ==> r.count == f.count)
    ensures -1 <= r.count <= length && |r.data| == |buf|
    ensures timeout == 0 ==> r.count >= 0
    ensures r.events == WordChunkLog(dev, reg, length, 0)
  {
    var f := WordChunks(device, reg, length, timeout, elapsed, 0, 0, WordState(0, buf, 0));
    var count := if timeout > 0 && atEnd >= timeout && f.count < length then -1 else f.count;
    WordReadResult(count, f.data, WordChunkLog(dev, reg, length, 0))
  }

  /** A read of up to 16 words is made in one chunk. */
  lemma OneChunk(device: Device, reg: bv8, length: nat, timeout: nat, elapsed: nat -> nat, s: WordState)
    requires 0 < length <= 16
    requires s.count <= length <= |s.data|
    ensures WordChunks(device, reg, length, timeout, elapsed, 0, 0, s)
            == WordDrain(WordOffer(device, reg, length, 0), 0, true, length, s, timeout, elapsed)
  {
    var avail := WordOffer(device, reg, length, 0);
    var d := WordDrain(avail, 0, true, length, s, timeout, elapsed);
    assert WordChunks(device, reg, length, timeout, elapsed, 1, 2 * length, d) == d;
  }

  /** With the timeout disabled, a read of up to 16 words (one chunk) from a
      device that answers with at least `length * 2` bytes stores every word,
      each made of two consecutive bytes, most significant first. */
  lemma ReadWordsOneChunk(dev: bv8, reg: bv8, length: nat, buf: seq<bv16>, timeout: nat,
                          device: Device, elapsed: nat -> nat, atEnd: nat)
    requires 0 < length <= 16 && |buf| >= length
    requires timeout == 0
    requires |device(0, [reg], 2 * length)| >= 2 * length
    ensures var r := ReadWords(dev, reg, length, buf, timeout, device, elapsed, atEnd);
            var b := device(0, [reg], 2 * length);
            && r.count == length
            && forall j | 0 <= j < length :: r.data[j] == Word(b[2 * j], b[2 * j + 1])
  {
    var s := WordState(0, buf, 0);
    var avail := WordOffer(device, reg, length, 0);
    assert |avail| == 2 * length;
    WordDrainPairs(avail, 0, length, s, timeout, elapsed);
    OneChunk(device, reg, length, timeout, elapsed, s);
  }
}
