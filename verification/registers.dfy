/** A device seen through the I2Cdev byte and word primitives: a register file
    plus what the bus does with each access.

    Accesses are numbered from 0 in the order they are made, and what happens
    to each is an input indexed by that number, so one access may succeed while
    the next fails. `answers(n)` says what the `n`-th access returns when it is
    a single-register read: the register's value with count 1, nothing with
    count 0 (no complete value arrived), or nothing with count -1 (the timeout
    expired first). `halves(n)` says whether, on a word read that does not
    deliver, the most significant byte arrived before the bus gave up.
    `acks(n)` is whether `endTransmission` reports success when the `n`-th
    access is a write, and `junks(n)` the value the caller's uninitialised local
    holds when the `n`-th access is a read that stores nothing into it.
    `stores` says whether the device keeps what is written. Every access is
    logged, so the next access is number `|log|`. */
module Registers {

  datatype Health = Delivers | NoData | TimesOut

  /** The count readByte and readWord return for each outcome. */
  function Count(h: Health): int
  {
    match h
    case Delivers => 1
    case NoData => 0
    case TimesOut => -1
  }

  datatype Access<V> = ReadAccess(reg: nat) | WriteAccess(reg: nat, value: V)

  /** `blank` is what a register never written holds. */
  datatype Bus<V> = Bus(regs: map<nat, V>, blank: V, answers: nat -> Health, halves: nat -> bool,
                        acks: nat -> bool, stores: bool, junks: nat -> V, log: seq<Access<V>>)

  /** The outcome of the next access, were it a read. */
  function Outcome<V>(bus: Bus<V>): Health
  {
    bus.answers(|bus.log|)
  }

  /** Whether the most significant byte of the next access arrives, were it a word read that fails. */
  function Half<V>(bus: Bus<V>): bool
  {
    bus.halves(|bus.log|)
  }

  /** Whether the next access is acknowledged, were it a write. */
  function Ack<V>(bus: Bus<V>): bool
  {
    bus.acks(|bus.log|)
  }

  /** The caller's uninitialised local at the next access. */
  function Junk<V>(bus: Bus<V>): V
  {
    bus.junks(|bus.log|)
  }

  /** A register file that answers every read and keeps and acknowledges every write. */
  ghost predicate Faithful<V>(bus: Bus<V>)
  {
    && bus.stores
    && (forall n: nat :: bus.answers(n) == Delivers)
    && (forall n: nat :: bus.acks(n))
  }

  function Value<V>(bus: Bus<V>, reg: nat): V
  {
    if reg in bus.regs then bus.regs[reg] else bus.blank
  }

  /** What a one-register read hands back: the count, the caller's container, the bus. */
  datatype RegRead<V> = RegRead(count: int, data: V, bus: Bus<V>)

  /** What a write hands back: its status and the bus. */
  datatype RegWrite<V> = RegWrite(ok: bool, bus: Bus<V>)

  /** The bus after one more access. */
  function Logged<V>(bus: Bus<V>, a: Access<V>): (r: Bus<V>)
    ensures |r.log| == |bus.log| + 1
  {
    bus.(log := bus.log + [a])
  }

  /** Read one register into a container holding `data`. */
  function Read<V>(bus: Bus<V>, reg: nat, data: V): RegRead<V>
  {
    RegRead(Count(Outcome(bus)), if Outcome(bus) == Delivers then Value(bus, reg) else data,
            Logged(bus, ReadAccess(reg)))
  }

  /** Write one register. */
  function Write<V>(bus: Bus<V>, reg: nat, v: V): RegWrite<V>
  {
    RegWrite(Ack(bus), Logged(bus, WriteAccess(reg, v)).(regs := if bus.stores then bus.regs[reg := v] else bus.regs))
  }

  /** The value a read-modify-write of a byte register starts from: what the
      read stored, or the junk in the caller's local when it stored nothing. */
  function Fetched<V>(bus: Bus<V>, reg: nat): V
  {
    Read(bus, reg, Junk(bus)).data
  }

  /** A write is seen by a later read of the same register exactly when the
      device keeps writes and that read delivers; other registers keep their
      values. */
  lemma WriteThenRead<V>(bus: Bus<V>, reg: nat, v: V, other: nat, data: V)
    ensures Value(Write(bus, reg, v).bus, reg) == (if bus.stores then v else Value(bus, reg))
    ensures other != reg ==> Value(Write(bus, reg, v).bus, other) == Value(bus, other)
    ensures bus.stores && bus.answers(|bus.log| + 1) == Delivers ==> Read(Write(bus, reg, v).bus, reg, data).data == v
  {
  }
}
