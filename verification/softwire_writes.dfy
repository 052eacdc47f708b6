/** writeBytes and writeWords of the SoftWire transport: one transmission that
    selects the register and then sends the data, whose success is the status
    `endTransmission` reports (0 for success). */
module SoftWireWrites {
  import opened SoftWire
  import opened SoftWireWords

  /** `Sends` grows by one event when its bytes grow by one. */
  lemma SendsSnoc(s: seq<bv8>, b: bv8)
    ensures Sends(s + [b]) == Sends(s) + [Send(b)]
  {
    assert |Sends(s + [b])| == |Sends(s) + [Send(b)]|;
    forall i | 0 <= i < |s| + 1
      ensures Sends(s + [b])[i] == (Sends(s) + [Send(b)])[i]
    {
    }
  }

  /** The events of one write transmission carrying `payload` after the register address. */
  function WriteLog(dev: bv8, addr: seq<bv8>, payload: seq<bv8>): seq<Event>
  {
    [Begin(dev)] + Sends(addr) + Sends(payload) + [End]
  }

  /** writeBytes for an 8-bit or a 16-bit register address: the address byte(s),
      then `data[0..length)` in order, in one transmission; `status` is what
      `endTransmission` returns. */
  method WriteBytes(dev: bv8, reg: RegAddr, length: nat, data: seq<bv8>, status: bv8)
    returns (ok: bool, events: seq<Event>)
    requires length <= 255 && |data| >= length
    ensures events == WriteLog(dev, AddressBytes(reg), data[..length])
    ensures ok <==> status == 0
  {
    var head := [Begin(dev)] + Sends(AddressBytes(reg));
    var sent: seq<Event> := [];
    var i := 0;
    while i < length
      invariant i <= length
      invariant sent == Sends(data[..i])
    {
      SendsSnoc(data[..i], data[i]);
      assert data[..i + 1] == data[..i] + [data[i]];
      sent := sent + [Send(data[i])];
      i := i + 1;
    }
    events := head + sent + [End];
    ok := status == 0;
  }

  /** The words writeWords sends for `length` words as written: its loop
      advances its index twice per word (`i++` in the header and `data[i++]`
      in the body), so word `j` sent is `data[2 * j]`. */
  function Strided(data: seq<bv16>, length: nat): (w: seq<bv16>)
    requires length == 0 || |data| >= 2 * length - 1
  {
    seq(length, j requires 0 <= j < length => data[2 * j])
  }

  /** writeWords as written, for an 8-bit register address. The index is a
      `uint8_t` compared with `length * 2`; it ends only for lengths up to 127
      (see `WriteWordsEndsIff`), which are the lengths modelled here. The
      driver reads `data` up to index `2 * length - 2`. */
  method WriteWordsAsWritten(dev: bv8, reg: bv8, length: nat, data: seq<bv16>, status: bv8)
    returns (ok: bool, events: seq<Event>)
    requires length <= 127
    requires length == 0 || |data| >= 2 * length - 1
    ensures events == WriteLog(dev, [reg], Serialize(Strided(data, length)))
    ensures ok <==> status == 0
  {
    var sent: seq<bv8> := [];
    var i := 0;
    while i < 2 * length
      invariant i % 2 == 0 && i <= 2 * length
      invariant sent == Serialize(Strided(data, i / 2))
    {
      SerializeSnoc(Strided(data, i / 2), data[i]);
      assert Strided(data, i / 2 + 1) == Strided(data, i / 2) + [data[i]];
      sent := sent + WordBytes(data[i]);
      i := i + 2;
    }
    events := WriteLog(dev, [reg], sent);
    ok := status == 0;
  }

  /** `i++` on a `uint8_t`: 255 wraps to 0. */
  function Inc(i: nat): (j: nat)
    requires i < 256
    ensures j < 256
  {
    if i == 255 then 0 else i + 1
  }

  /** One pass of writeWords' loop as written: `data[i++]` in the body and
      `i++` in the header each increment the `uint8_t` index. */
  function Pass(i: nat): (j: nat)
    requires i < 256
    ensures j < 256
  {
    Inc(Inc(i))
  }

  /** The index after `n` passes, starting from 0. */
  function IndexAfter(n: nat): (i: nat)
    ensures i < 256
  {
    if n == 0 then 0 else Pass(IndexAfter(n - 1))
  }

  /** The loop test `i < length * 2`: both sides are promoted to `int`, so
      the product does not wrap while the index does. */
  predicate LoopGuard(i: nat, length: nat)
  {
    i < length * 2
  }

  /** Below the wrap, each pass adds 2. */
  lemma PassBelowWrap(i: nat)
    requires i < 254
    ensures Pass(i) == i + 2
  {
  }

  /** For the first 127 passes the index is `2 n`, so it never wraps there. */
  lemma {:induction false} IndexAfterValue(n: nat)
    requires n <= 127
    ensures IndexAfter(n) == 2 * n
  {
    if n > 0 {
      IndexAfterValue(n - 1);
      PassBelowWrap(2 * (n - 1));
    }
  }

  /** As written, the index goes 252, 254 and then wraps to 0. */
  lemma IndexWraps(n: nat)
    requires n == 127
    ensures IndexAfter(n) == 254 && IndexAfter(n + 1) == 0
  {
    IndexAfterValue(n);
    assert IndexAfter(n + 1) == Pass(254);
  }

  /** writeWords' loop as written leaves after some pass exactly when its
      `uint8_t` length is at most 127: for 128..255 every index the loop
      reaches is below 256, hence below `length * 2`, so the loop never ends
      and keeps sending. */
  lemma WriteWordsEndsIff(length: nat)
    requires length < 256
    ensures (exists n: nat :: !LoopGuard(IndexAfter(n), length)) <==> length <= 127
  {
    if length <= 127 {
      IndexAfterValue(length);
      assert !LoopGuard(IndexAfter(length), length);
    }
  }

  /** writeWords as evidently intended: words `data[0..length)`, each most
      significant byte first. Its index steps by one up to `length`, so it
      ends for every `uint8_t` length. */
  method WriteWords(dev: bv8, reg: bv8, length: nat, data: seq<bv16>, status: bv8)
    returns (ok: bool, events: seq<Event>)
    requires length <= 255 && |data| >= length
    ensures events == WriteLog(dev, [reg], Serialize(data[..length]))
    ensures ok <==> status == 0
  {
    var sent: seq<bv8> := [];
    var i := 0;
    while i < length
      invariant i <= length
      invariant sent == Serialize(data[..i])
    {
      SerializeSnoc(data[..i], data[i]);
      assert data[..i + 1] == data[..i] + [data[i]];
      sent := sent + WordBytes(data[i]);
      i := i + 1;
    }
    events := WriteLog(dev, [reg], sent);
    ok := status == 0;
  }

  /** `Serialize` grows by a word's two bytes when its words grow by one. */
  lemma {:induction false} SerializeSnoc(w: seq<bv16>, x: bv16)
    ensures Serialize(w + [x]) == Serialize(w) + WordBytes(x)
    decreases |w|
  {
    if w == [] {
      assert [x][1..] == [];
    } else {
      assert (w + [x])[1..] == w[1..] + [x];
      SerializeSnoc(w[1..], x);
    }
  }

  /** As written, writeWords of two words sends the first and the third word of
      the buffer: `[0x1111, 0x2222, 0x3333]` goes out as 0x1111, 0x3333. */
  lemma StrideSkipsWords(data: seq<bv16>)
    requires data == [0x1111, 0x2222, 0x3333]
    ensures Strided(data, 2) == [0x1111, 0x3333]
    ensures Serialize(Strided(data, 2)) == [0x11, 0x11, 0x33, 0x33]
    ensures Serialize(data[..2]) == [0x11, 0x11, 0x22, 0x22]
  {
    assert Strided(data, 2)[1] == data[2];
    assert data[..2] == [0x1111, 0x2222];
    assert Serialize([0x3333 as bv16]) == [0x33, 0x33];
    assert Serialize([0x2222 as bv16]) == [0x22, 0x22];
  }

  /** For a single word, as writeWord uses it, the written and the intended
      loops send the same bytes, most significant byte first. */
  lemma OneWordAgrees(data: seq<bv16>)
    requires |data| >= 1
    ensures Strided(data, 1) == data[..1]
    ensures Serialize(data[..1]) == WordBytes(data[0])
  {
    assert Serialize(data[..1])  == WordBytes(data[0]) + Serialize([]);
  }

  /** The intended writeWords sends bytes that readWords pairs back into the same words. */
  lemma WrittenWordsReadBack(data: seq<bv16>, length: nat)
    requires |data| >= length
    ensures Words(Serialize(data[..length])) == data[..length]
  {
    SerializeRoundTrip(data[..length]);
  }
}
