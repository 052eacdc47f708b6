/** readBytes against an auto-incrementing memory, the kind of device for which
    the chunking of long reads matters most. */
module MemoryReads {
  import SoftWire

  /** The register address the address bytes select, most significant byte first. */
  function AddressValue(addr: seq<bv8>): nat
  {
    if addr == [] then 0 else AddressValue(addr[..|addr| - 1]) * 256 + addr[|addr| - 1] as nat
  }

  /** `n` bytes of a memory from `start` on, wrapping at its end. */
  function Window(mem: seq<bv8>, start: nat, n: nat): (w: seq<bv8>)
    requires |mem| > 0
    ensures |w| == n
    ensures forall i | 0 <= i < n :: w[i] == mem[(start + i) % |mem|]
  {
    seq(n, i requires 0 <= i < n => mem[(start + i) % |mem|])
  }

  /** An auto-incrementing memory seen as a device: every request is answered from
      the address selected just before it. */
  function MemoryDevice(mem: seq<bv8>): SoftWire.Device
  {
    (chunk: nat, addr: seq<bv8>, n: nat) => if |mem| == 0 then [] else Window(mem, AddressValue(addr), n)
  }

  /** Each chunk of a read from the memory gets the bytes from the selected address on. */
  lemma MemoryOffer(mem: seq<bv8>, a: bv8, n: nat, chunk: nat)
    requires |mem| > 0
    ensures SoftWire.Offer(MemoryDevice(mem), [a], n, chunk) == Window(mem, a as nat, n)
  {
    assert AddressValue([a]) == a as nat by {
      assert [a][..0] == [];
    }
  }

  /** Because every chunk selects the same register again, a read of 33 to 64
      bytes from an auto-incrementing memory returns the 32 bytes from the
      address on and then the bytes from the address on again, not consecutive
      bytes: byte 32 of the result is the byte at the address. */
  lemma {:induction false} ChunkedReadRestarts(dev: bv8, mem: seq<bv8>, a: bv8, length: nat, buf: seq<bv8>,
                                              timeout: nat, elapsed: nat -> nat, atEnd: nat)
    requires |mem| > 0
    requires 32 < length <= 64 && |buf| >= length
    requires timeout == 0
    ensures var r := SoftWire.ReadBytes(dev, SoftWire.Addr8(a), length, buf, timeout, MemoryDevice(mem), elapsed, atEnd);
            && r.count == length
            && r.data[..length] == Window(mem, a as nat, 32) + Window(mem, a as nat, length - 32)
            && r.data[32] == mem[(a as nat) % |mem|]
  {
    var device := MemoryDevice(mem);
    var w1 := Window(mem, a as nat, 32);
    var w2 := Window(mem, a as nat, length - 32);
    SoftWire.ReadWithoutTimeout(device, [a], length, timeout, elapsed, 0, 0, 0);
    SoftWire.OfferedUnfold(device, [a], length, 0, 0);
    SoftWire.OfferedUnfold(device, [a], length, 1, 32);
    MemoryOffer(mem, a, 32, 0);
    MemoryOffer(mem, a, length - 32, 1);
    assert SoftWire.Offered(device, [a], length, 2, 64) == [];
    assert SoftWire.Offered(device, [a], length, 0, 0) == w1 + w2 + [];
    assert SoftWire.AddressBytes(SoftWire.Addr8(a)) == [a];
  }

}
