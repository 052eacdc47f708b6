/** Wire framing of the I2Cdev byte and word primitives on the SoftWire bus.

    The bus is seen through what the driver does with it: a log of `Event`s
    (begin a transmission, send a byte, end it, request bytes) and, for reads,
    a `Device` that says which bytes become available after a request. The
    elapsed time that the read loops compare with the timeout is an input:
    `elapsed(i)` is the value of `millis() - t1` at the check made after `i`
    bytes have been received, and `atEnd` its value at the final check.
 */
module SoftWire {

  /** The Wire library's receive buffer size; reads are split into requests of at
      most this many bytes. */
  const BufferLength: nat := 32

  function Min(a: nat, b: nat): nat
  {
    if a <= b then a else b
  }

  /** A register address: one byte for most devices, two for 16-bit addressed memories. */
  datatype RegAddr = Addr8(a8: bv8) | Addr16(a16: bv16)

  /** The bytes that select a register: the address itself, or its high byte then
      its low byte. */
  function AddressBytes(reg: RegAddr): (s: seq<bv8>)
  {
    match reg
    case Addr8(a) => [a]
    case Addr16(a) => [(a >> 8) as bv8, (a & 0xFF) as bv8]
  }

  /** A 16-bit address goes out most significant byte first, and the two bytes
      put back together give the address again. */
  lemma AddressBytesMsbFirst(reg: RegAddr)
    ensures reg.Addr8? ==> AddressBytes(reg) == [reg.a8]
    ensures reg.Addr16? ==> |AddressBytes(reg)| == 2
                            && ((AddressBytes(reg)[0] as bv16) << 8) | (AddressBytes(reg)[1] as bv16) == reg.a16
  {
  }

  /** One step of the driver's conversation with the bus. */
  datatype Event =
    | Begin(dev: bv8)             // beginTransmission
    | Send(b: bv8)                // write
    | End                         // endTransmission
    | Request(dev: bv8, n: nat)   // requestFrom

  /** The bytes a device makes available after the `chunk`-th request, given the
      address bytes written just before it and the number of bytes requested. */
  type Device = (nat, seq<bv8>, nat) -> seq<bv8>

  /** What the Wire library can hold after a request for `n` bytes. */
  function Take(s: seq<bv8>, n: nat): seq<bv8>
  {
    if |s| <= n then s else s[..n]
  }

  /** `_timeout == 0 || millis() - t1 < _timeout`. */
  predicate TimeLeft(timeout: nat, elapsed: nat)
  {
    timeout == 0 || elapsed < timeout
  }

  function Sends(s: seq<bv8>): (r: seq<Event>)
    ensures |r| == |s|
    ensures forall i | 0 <= i < |s| :: r[i] == Send(s[i])
  {
    if s == [] then [] else [Send(s[0])] + Sends(s[1..])
  }

  /** The events of one read chunk: select the register, then request `n` bytes. */
  function ChunkEvents(dev: bv8, addr: seq<bv8>, n: nat): seq<Event>
  {
    [Begin(dev)] + Sends(addr) + [End, Begin(dev), Request(dev, n)]
  }

  /** How many of `avail` available bytes the receive loop of readBytes takes
      when `received` bytes were stored before: it stops at the first failed time
      check, one check per byte. */
  function Taken(avail: nat, received: nat, timeout: nat, elapsed: nat -> nat): (t: nat)
    ensures t <= avail
    decreases avail
  {
    if avail == 0 || !TimeLeft(timeout, elapsed(received)) then 0
    else 1 + Taken(avail - 1, received + 1, timeout, elapsed)
  }

  /** The bytes taken form the longest prefix during which every time check
      passes: each byte taken passed its check, and the first byte left behind
      failed it. */
  lemma {:induction false} TakenIsTimedPrefix(avail: nat, received: nat, timeout: nat, elapsed: nat -> nat)
    ensures var t := Taken(avail, received, timeout, elapsed);
            && (forall j | received <= j < received + t :: TimeLeft(timeout, elapsed(j)))
            && (t < avail ==> !TimeLeft(timeout, elapsed(received + t)))
    decreases avail
  {
    if avail != 0 && TimeLeft(timeout, elapsed(received)) {
      TakenIsTimedPrefix(avail - 1, received + 1, timeout, elapsed);
    }
  }

  /** With the timeout disabled every available byte is taken. */
  lemma {:induction false} TakenWithoutTimeout(avail: nat, received: nat, timeout: nat, elapsed: nat -> nat)
    requires timeout == 0
    ensures Taken(avail, received, timeout, elapsed) == avail
    decreases avail
  {
    if avail != 0 {
      TakenWithoutTimeout(avail - 1, received + 1, timeout, elapsed);
    }
  }

  /** The bytes the receive loop stores out of those available. */
  function Drain(avail: seq<bv8>, received: nat, timeout: nat, elapsed: nat -> nat): seq<bv8>
  {
    avail[..Taken(|avail|, received, timeout, elapsed)]
  }

  /** The size of the request readBytes makes at offset `k`: `min(length - k, 32)`. */
  function ChunkSize(length: nat, k: nat): nat
    requires k <= length
  {
    Min(length - k, BufferLength)
  }

  /** How far the offset advances after each chunk: `min(length, 32)`. */
  function Step(length: nat): nat
  {
    Min(length, BufferLength)
  }

  /** The request sizes readBytes makes from offset `k` on. */
  function Requests(length: nat, k: nat): seq<nat>
    decreases length - k
  {
    if k >= length then [] else [ChunkSize(length, k)] + Requests(length, k + Step(length))
  }

  function Sum(s: seq<nat>): nat
  {
    if s == [] then 0 else s[0] + Sum(s[1..])
  }

  /** The requests cover the rest of the read exactly, each within the buffer. */
  lemma {:induction false} RequestsCover(length: nat, k: nat)
    requires k <= length
    ensures Sum(Requests(length, k)) == length - k
    ensures forall i | 0 <= i < |Requests(length, k)| :: 0 < Requests(length, k)[i] <= BufferLength
    decreases length - k
  {
    if k < length && k + Step(length) < length {
      RequestsCover(length, k + Step(length));
    }
  }

  /** The bus events of readBytes from offset `k` on. The driver's writes do not
      depend on what the device answers: every chunk sends the register address
      again (one byte, or high then low byte) and then requests its chunk. */
  function ChunkLog(dev: bv8, addr: seq<bv8>, length: nat, k: nat): (log: seq<Event>)
    decreases length - k
  {
    if k >= length then []
    else ChunkEvents(dev, addr, ChunkSize(length, k)) + ChunkLog(dev, addr, length, k + Step(length))
  }

  /** The requests in readBytes's event log are exactly the chunk sizes. */
  lemma {:induction false} ChunkLogRequests(dev: bv8, addr: seq<bv8>, length: nat, k: nat)
    ensures Requested(ChunkLog(dev, addr, length, k)) == Requests(length, k)
    decreases length - k
  {
    if k < length {
      var n := ChunkSize(length, k);
      RequestedAppend(ChunkEvents(dev, addr, n), ChunkLog(dev, addr, length, k + Step(length)));
      RequestedChunk(dev, addr, n);
      ChunkLogRequests(dev, addr, length, k + Step(length));
    }
  }

  /** The bytes available to the receive loop after the `chunk`-th request, for `n` bytes. */
  function Offer(device: Device, addr: seq<bv8>, n: nat, chunk: nat): seq<bv8>
  {
    Take(device(chunk, addr, n), n)
  }

  /** The bytes readBytes stores from its `chunk`-th request for `n` bytes, when
      `received` bytes were stored before. */
  function ChunkReceived(device: Device, addr: seq<bv8>, n: nat, timeout: nat, elapsed: nat -> nat,
                         chunk: nat, received: nat): seq<bv8>
  {
    Drain(Offer(device, addr, n, chunk), received, timeout, elapsed)
  }

  /** A chunk never stores more bytes than it requested. */
  lemma ChunkReceivedBound(device: Device, addr: seq<bv8>, n: nat, timeout: nat, elapsed: nat -> nat,
                           chunk: nat, received: nat)
    ensures |ChunkReceived(device, addr, n, timeout, elapsed, chunk, received)| <= n
  {
    assert |Offer(device, addr, n, chunk)| <= n;
  }

  /** The bytes readBytes stores from chunk `chunk` (at offset `k`) on, when
      `received` bytes were stored before. */
  function Received(device: Device, addr: seq<bv8>, length: nat, timeout: nat, elapsed: nat -> nat,
                    chunk: nat, k: nat, received: nat): seq<bv8>
    decreases length - k
  {
    if k >= length then []
    else
      var got := ChunkReceived(device, addr, ChunkSize(length, k), timeout, elapsed, chunk, received);
      got + Received(device, addr, length, timeout, elapsed, chunk + 1, k + Step(length), received + |got|)
  }

  /** readBytes never stores more bytes than it asked for. */
  lemma {:induction false} ReceivedBound(device: Device, addr: seq<bv8>, length: nat, timeout: nat, elapsed: nat -> nat,
                                         chunk: nat, k: nat, received: nat)
    requires k <= length
    ensures |Received(device, addr, length, timeout, elapsed, chunk, k, received)| <= length - k
    decreases length - k
  {
    if k < length {
      var n := ChunkSize(length, k);
      ChunkReceivedBound(device, addr, n, timeout, elapsed, chunk, received);
      var got := ChunkReceived(device, addr, n, timeout, elapsed, chunk, received);
      var rest := Received(device, addr, length, timeout, elapsed, chunk + 1, k + Step(length), received + |got|);
      assert Received(device, addr, length, timeout, elapsed, chunk, k, received) == got + rest;
      if k + Step(length) <= length {
        ReceivedBound(device, addr, length, timeout, elapsed, chunk + 1, k + Step(length), received + |got|);
        assert |rest| <= length - k - n;
      } else {
        assert rest == [];
      }
    }
  }

  /** The bytes a device offers to the read chunks from offset `k` on. */
  function Offered(device: Device, addr: seq<bv8>, length: nat, chunk: nat, k: nat): seq<bv8>
    decreases length - k
  {
    if k >= length then []
    else
      var n := ChunkSize(length, k);
      Offer(device, addr, n, chunk) + Offered(device, addr, length, chunk + 1, k + Step(length))
  }

  lemma OfferedUnfold(device: Device, addr: seq<bv8>, length: nat, chunk: nat, k: nat)
    requires k < length
    ensures Offered(device, addr, length, chunk, k)
            == Offer(device, addr, ChunkSize(length, k), chunk) + Offered(device, addr, length, chunk + 1, k + Step(length))
  {
  }

  /** With the timeout disabled readBytes stores every byte the device offers,
      chunk after chunk. */
  lemma {:induction false} ReadWithoutTimeout(device: Device, addr: seq<bv8>, length: nat, timeout: nat,
                                              elapsed: nat -> nat, chunk: nat, k: nat, received: nat)
    requires timeout == 0
    ensures Received(device, addr, length, timeout, elapsed, chunk, k, received) == Offered(device, addr, length, chunk, k)
    decreases length - k
  {
    if k < length {
      var n := ChunkSize(length, k);
      var avail := Offer(device, addr, n, chunk);
      TakenWithoutTimeout(|avail|, received, timeout, elapsed);
      var got := ChunkReceived(device, addr, n, timeout, elapsed, chunk, received);
      assert got == avail;
      var rest := Received(device, addr, length, timeout, elapsed, chunk + 1, k + Step(length), received + |got|);
      assert Received(device, addr, length, timeout, elapsed, chunk, k, received) == got + rest;
      ReadWithoutTimeout(device, addr, length, timeout, elapsed, chunk + 1, k + Step(length), received + |got|);
      OfferedUnfold(device, addr, length, chunk, k);
    }
  }

  /** The sizes of the requests in an event log. */
  function Requested(events: seq<Event>): seq<nat>
  {
    if events == [] then []
    else (if events[0].Request? then [events[0].n] else []) + Requested(events[1..])
  }

  lemma {:induction false} RequestedAppend(a: seq<Event>, b: seq<Event>)
    ensures Requested(a + b) == Requested(a) + Requested(b)
    decreases |a|
  {
    if a == [] {
      assert a + b == b;
    } else {
      assert (a + b)[0] == a[0];
      assert (a + b)[1..] == a[1..] + b;
      RequestedAppend(a[1..], b);
    }
  }

  lemma {:induction false} RequestedSends(s: seq<bv8>)
    ensures Requested(Sends(s)) == []
    decreases |s|
  {
    if s != [] {
      assert Sends(s)[1..] == Sends(s[1..]);
      RequestedSends(s[1..]);
    }
  }

  lemma RequestedChunk(dev: bv8, addr: seq<bv8>, n: nat)
    ensures Requested(ChunkEvents(dev, addr, n)) == [n]
  {
    RequestedAppend([Begin(dev)] + Sends(addr), [End, Begin(dev), Request(dev, n)]);
    RequestedAppend([Begin(dev)], Sends(addr));
    RequestedSends(addr);
    assert Requested([Begin(dev)]) == [];
    assert Requested([Request(dev, n)]) == [n] by {
      assert [Request(dev, n)][1..] == [];
    }
    assert Requested([Begin(dev), Request(dev, n)]) == [n] by {
      assert [Begin(dev), Request(dev, n)][1..] == [Request(dev, n)];
    }
    assert Requested([End, Begin(dev), Request(dev, n)]) == [n] by {
      assert [End, Begin(dev), Request(dev, n)][1..] == [Begin(dev), Request(dev, n)];
    }
  }

  /** The inner loop of readBytes: take available bytes, in order, while time is
      left; `received` bytes were stored before this chunk. */
  method Receive(avail: seq<bv8>, received: nat, timeout: nat, elapsed: nat -> nat) returns (taken: seq<bv8>)
    ensures taken == Drain(avail, received, timeout, elapsed)
  {
    var j := 0;
    while j < |avail| && TimeLeft(timeout, elapsed(received + j))
      invariant j <= |avail|
      invariant j + Taken(|avail| - j, received + j, timeout, elapsed) == Taken(|avail|, received, timeout, elapsed)
    {
      j := j + 1;
    }
    taken := avail[..j];
  }

  /** What readBytes hands back: the returned count, the caller's buffer after
      the call, and the bus events. */
  datatype ReadResult = ReadResult(count: int, data: seq<bv8>, events: seq<Event>)

  /** readBytes, for an 8-bit or a 16-bit register address. The count is an int8
      in the driver, so lengths up to 127 are modelled; `buf` is the caller's
      buffer, filled from index 0 on. */
  function ReadBytes(dev: bv8, reg: RegAddr, length: nat, buf: seq<bv8>, timeout: nat,
                     device: Device, elapsed: nat -> nat, atEnd: nat): (r: ReadResult)
    requires length <= 127
    requires |buf| >= length
    ensures var received := Received(device, AddressBytes(reg), length, timeout, elapsed, 0, 0, 0);
            && |received| <= length
            && |r.data| == |buf|
            && r.data[..|received|] == received
            && r.data[|received|..] == buf[|received|..]
            && (r.count == -1 <==> timeout > 0 && atEnd >= timeout && |received| < length)
            && (r.count != -1 ==> r.count == |received|)
    ensures -1 <= r.count <= length
    ensures timeout == 0 ==> r.count >= 0
    ensures r.events == ChunkLog(dev, AddressBytes(reg), length, 0)
  {
    var received := Received(device, AddressBytes(reg), length, timeout, elapsed, 0, 0, 0);
    ReceivedBound(device, AddressBytes(reg), length, timeout, elapsed, 0, 0, 0);
    var count := if timeout > 0 && atEnd >= timeout && |received| < length then -1 else |received|;
    ReadResult(count, received + buf[|received|..], ChunkLog(dev, AddressBytes(reg), length, 0))
  }
}
