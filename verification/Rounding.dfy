/** The bitmap as an over-approximation: a bit stands for eight sectors, marking out of sync
    rounds outwards, marking in sync rounds inwards. */
module Rounding {

  /** BM_SECT_PER_BIT, DRBD_MAX_DISCARD_SIZE */
  const PER_BIT: nat := 8
  const MAX_SIZE: int := 0x40_0000

  /** The bitmap, and which sectors really differ. */
  datatype Device = Device(sectors: nat, bits: set<nat>, stale: set<nat>)

  /** A request of size bytes that the code does not reject. */
  predicate Sensible(size: int) { 0 < size <= MAX_SIZE && size % 512 == 0 }

  /** The last sector, cut off at the end of the device. */
  function LastSector(d: Device, sector: nat, size: int): nat
    requires Sensible(size) && sector < d.sectors
  {
    var e := sector + size / 512 - 1;
    if e < d.sectors then e else d.sectors - 1
  }

  /** Sector x of the device is one of the request. */
  predicate Covers(d: Device, sector: nat, size: int, x: nat) {
    Sensible(size) && sector <= x < sector + size / 512 && x < d.sectors
  }

  lemma {:induction false} CoversUpToLast(d: Device, sector: nat, size: int, x: nat)
    requires Sensible(size) && sector < d.sectors
    ensures Covers(d, sector, size, x) <==> sector <= x <= LastSector(d, sector, size)
  {}

  function BitRange(lo: nat, hi: nat): (r: set<nat>)
    ensures forall b: nat :: b in r <==> lo <= b <= hi
    decreases hi + 1 - lo
  {
    if lo > hi then {} else {lo} + BitRange(lo + 1, hi)
  }

  /** __drbd_set_out_of_sync */
  function SetOutOfSync(d: Device, sector: nat, size: int): set<nat> {
    if !Sensible(size) || sector >= d.sectors then d.bits
    else d.bits + BitRange(sector / PER_BIT, LastSector(d, sector, size) / PER_BIT)
  }

  /** __drbd_set_in_sync */
  function SetInSync(d: Device, sector: nat, size: int): set<nat> {
    if !Sensible(size) || sector >= d.sectors then d.bits
    else
      var e := LastSector(d, sector, size);
      if e < PER_BIT - 1 then d.bits
      else
        var ebnr := if e == d.sectors - 1 then (d.sectors - 1) / PER_BIT else (e - (PER_BIT - 1)) / PER_BIT;
        var sbnr := (sector + PER_BIT - 1) / PER_BIT;
        d.bits - BitRange(sbnr, ebnr)
  }

  /** Sector x belongs to block b of the device; the last block may be a partial one. */
  predicate InBlock(d: Device, b: nat, x: nat) { x < d.sectors && x / PER_BIT == b }

  predicate Inside(d: Device, sector: nat, size: int, b: nat) {
    && PER_BIT * b < d.sectors && Sensible(size) && sector < d.sectors
    && sector <= PER_BIT * b
    && LastSector(d, sector, size) >= if PER_BIT * b + PER_BIT <= d.sectors
      then PER_BIT * b + PER_BIT - 1 else d.sectors - 1
  }

  /** All sectors of the block are covered, and no others count. */
  lemma {:induction false} InsideIs(d: Device, sector: nat, size: int, b: nat)
    requires PER_BIT * b < d.sectors
    ensures Inside(d, sector, size, b) <==> forall x: nat :: InBlock(d, b, x) ==> Covers(d, sector, size, x)
  {
    var first := PER_BIT * b;
    var last := if PER_BIT * b + PER_BIT <= d.sectors then PER_BIT * b + PER_BIT - 1 else d.sectors - 1;
    assert InBlock(d, b, first) && InBlock(d, b, last);
    forall x: nat | InBlock(d, b, x) ensures first <= x <= last {}
  }

  /** A clear touches exactly the blocks that are fully inside the range, the partial last one
      included; on a device smaller than a block it touches nothing. */
  lemma {:induction false} ClearExact(d: Device, sector: nat, size: int, b: nat)
    requires PER_BIT * b < d.sectors
    ensures b in SetInSync(d, sector, size) <==> b in d.bits && !(Inside(d, sector, size, b) && d.sectors >= PER_BIT)
  {}

  lemma {:induction false} SetExact(d: Device, sector: nat, size: int, b: nat)
    ensures b in SetOutOfSync(d, sector, size) <==>
      b in d.bits || exists x: nat :: InBlock(d, b, x) && Covers(d, sector, size, x)
  {
    if Sensible(size) && sector < d.sectors {
      var e := LastSector(d, sector, size);
      if sector / PER_BIT <= b <= e / PER_BIT {
        var x := if sector / PER_BIT == b then sector else PER_BIT * b;
        assert InBlock(d, b, x) && Covers(d, sector, size, x);
      }
    }
  }

  // ----- runs -----

  datatype Op = OutOfSync(sector: nat, size: int, differ: set<nat>) | InSync(sector: nat, size: int)

  /** A write that did not reach the peer makes some of its sectors differ; a resync reply or a
      write ack makes all of its sectors equal. */
  ghost function Apply(d: Device, op: Op): Device {
    match op
    case OutOfSync(sector, size, differ) =>
      d.(bits := SetOutOfSync(d, sector, size), stale := d.stale + set x | x in differ && Covers(d, sector, size, x))
    case InSync(sector, size) =>
      d.(bits := SetInSync(d, sector, size), stale := set x | x in d.stale && !Covers(d, sector, size, x))
  }

  /** A clear bit means that no sector of its block is out of sync. */
  predicate Safe(d: Device) {
    forall x :: x in d.stale ==> x < d.sectors && x / PER_BIT in d.bits
  }

  lemma {:induction false} ApplySafe(d: Device, op: Op)
    requires Safe(d)
    ensures Safe(Apply(d, op)) && Apply(d, op).sectors == d.sectors
  {}

  ghost function ApplyAll(d: Device, ops: seq<Op>): Device {
    if ops == [] then d else Apply(ApplyAll(d, ops[..|ops| - 1]), ops[|ops| - 1])
  }

  /** After any sequence of writes marked out of sync and ranges marked in sync, a clear bit
      means that the whole block is in sync. */
  lemma {:induction false} AlwaysSafe(d: Device, ops: seq<Op>)
    requires Safe(d)
    ensures Safe(ApplyAll(d, ops)) && ApplyAll(d, ops).sectors == d.sectors
  {
    if ops != [] {
      AlwaysSafe(d, ops[..|ops| - 1]);
      ApplySafe(ApplyAll(d, ops[..|ops| - 1]), ops[|ops| - 1]);
    }
  }
}
