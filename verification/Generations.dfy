/** Data generation identifiers: how they change, and the rules by which a node compares its own
    with those of its peer. */
module Generations {

  type u64 = x: nat | x < 0x1_0000_0000_0000_0000

  const JUST_CREATED: u64 := 4
  const NEW_BM_OFFSET: u64 := 0x1_0000_0000_0000

  /** x & ~1; the lowest bit tells a role and is not part of the identity. */
  function Gen(x: u64): (g: u64)
    ensures g <= x
  {
    x - x % 2
  }

  predicate Same(x: u64, y: u64) { Gen(x) == Gen(y) }

  /** UI_CURRENT, UI_BITMAP, UI_HISTORY_START, UI_HISTORY_END */
  datatype Uuids = Uuids(current: u64, bitmap: u64, h0: u64, h1: u64) {
    /** drbd_uuid_move_history, then the bitmap UUID becomes the newest history entry */
    function RetireBitmap(): Uuids { this.(h1 := h0, h0 := bitmap, bitmap := 0) }

    /** Takes back the start of a resync as source. */
    function UndoResyncStart(): Uuids { this.(bitmap := h0, h0 := h1) }

    predicate Remembers(x: u64) { Same(x, bitmap) || Same(x, h0) || Same(x, h1) }

    /** drbd_uuid_new_current */
    function NewCurrent(val: u64, primary: bool): Uuids
      requires val < 0xffff_ffff_ffff_ffff
    {
      this.(current := Gen(val) + if primary then 1 else 0, bitmap := current)
    }

    /** drbd_gen_and_send_sync_uuid on a source whose bitmap UUID is known to its peer */
    function StartResync(): Uuids {
      this.(h1 := h0, h0 := bitmap, bitmap := (bitmap + NEW_BM_OFFSET) % 0x1_0000_0000_0000_0000)
    }

    /** drbd_uuid_set_bm */
    function SetBm(val: u64): Uuids {
      if bitmap == 0 && val == 0 then this
      else if val == 0 then RetireBitmap()
      else this.(bitmap := Gen(val))
    }
  }

  /** What both nodes know besides the UUIDs: agreed protocol version, who was primary at a crash,
      and whether this node is the one with RESOLVE_CONFLICTS. */
  datatype Facts = Facts(version: nat, selfCrashed: bool, peerCrashed: bool, resolve: bool) {
    function Mirror(): Facts { Facts(version, peerCrashed, selfCrashed, !resolve) }
  }

  /** The result of drbd_uuid_compare, the rule that gave it, and the UUIDs after it. */
  datatype Outcome = Outcome(hg: int, rule: nat, self: Uuids, peer: Uuids)

  /** Rules 33 to 40: equal current UUIDs. */
  function CompareEqual(s: Uuids, p: Uuids, f: Facts): Outcome {
    if p.bitmap == 0 && s.bitmap != 0 then
      if f.version < 91 then Outcome(-1091, 30, s, p)
      else if Same(s.bitmap, p.h0) && Same(s.h0, p.h1) then Outcome(1, 34, s.RetireBitmap(), p)
      else Outcome(1, 36, s, p)
    else if s.bitmap == 0 && p.bitmap != 0 then
      if f.version < 91 then Outcome(-1091, 30, s, p)
      else if Same(s.h0, p.bitmap) && Same(s.h1, p.h0) then Outcome(-1, 35, s, p.RetireBitmap())
      else Outcome(-1, 37, s, p)
    else
      Outcome(if f.selfCrashed then if f.peerCrashed then if f.resolve then -1 else 1 else 1
              else if f.peerCrashed then -1 else 0, 40, s, p)
  }

  /** The test of rules 51 and 71 for a lost sync UUID packet; src is the node that had begun to be source. */
  predicate LostSyncUuid(tgt: Uuids, src: Uuids, version: nat) {
    if version < 96 then Same(tgt.h0, src.h1)
    else (Gen(src.h0) + NEW_BM_OFFSET) % 0x1_0000_0000_0000_0000 == Gen(src.bitmap)
  }

  /** Rules 70 to 100. */
  function CompareLater(s: Uuids, p: Uuids, f: Facts): Outcome {
    if Same(s.bitmap, p.current) then Outcome(1, 70, s, p)
    else if Same(s.h0, p.current) && LostSyncUuid(p, s, f.version) then
      if f.version < 91 then Outcome(-1091, 71, s, p) else Outcome(1, 71, s.UndoResyncStart(), p)
    else if Same(s.h0, p.current) || Same(s.h1, p.current) then Outcome(2, 80, s, p)
    else if Same(s.bitmap, p.bitmap) && Gen(s.bitmap) != 0 then Outcome(100, 90, s, p)
    else if Same(s.h0, p.h0) || Same(s.h0, p.h1) || Same(s.h1, p.h0) || Same(s.h1, p.h1) then Outcome(-100, 100, s, p)
    else Outcome(-1000, 100, s, p)
  }

  /** drbd_uuid_compare */
  function Compare(s: Uuids, p: Uuids, f: Facts): Outcome {
    var self, peer := Gen(s.current), Gen(p.current);
    if self == JUST_CREATED && peer == JUST_CREATED then Outcome(0, 10, s, p)
    else if (self == JUST_CREATED || self == 0) && peer != JUST_CREATED then Outcome(-2, 20, s, p)
    else if self != JUST_CREATED && (peer == JUST_CREATED || peer == 0) then Outcome(2, 30, s, p)
    else if self == peer then CompareEqual(s, p, f)
    else if Same(s.current, p.bitmap) then Outcome(-1, 50, s, p)
    else if Same(s.current, p.h0) && LostSyncUuid(s, p, f.version) then
      if f.version < 91 then Outcome(-1091, 51, s, p) else Outcome(-1, 51, s, p.UndoResyncStart())
    else if Same(s.current, p.h0) || Same(s.current, p.h1) then Outcome(-2, 60, s, p)
    else CompareLater(s, p, f)
  }

  // ----- the two nodes agree -----

  /** Results of both nodes that fit: opposite directions, or the same verdict. */
  predicate Fits(a: int, b: int) {
    if -2 <= a <= 2 then b == -a else b == a
  }

  /** Known to some generation, and not fresh from create-md. */
  predicate Established(x: u64) { Gen(x) != 0 && Gen(x) != JUST_CREATED }

  /** The generations are in an order that both nodes can see the same way. */
  predicate Consistent(a: Uuids, b: Uuids) {
    && !(Gen(a.current) == 0 && Gen(b.current) == 0)
    && (Established(a.current) && Established(b.current) && !Same(a.current, b.current) ==>
          !(a.Remembers(b.current) && b.Remembers(a.current)))
  }

  /** Both nodes stop at a lost sync UUID packet that their protocol version cannot repair. */
  predicate BothTooOld(a: Uuids, b: Uuids, version: nat) {
    && version < 91 && Established(a.current) && Established(b.current) && !Same(a.current, b.current)
    && !Same(a.current, b.bitmap) && Same(a.current, b.h0) && LostSyncUuid(a, b, version)
    && !Same(b.current, a.bitmap) && Same(b.current, a.h0) && LostSyncUuid(b, a, version)
  }

  lemma {:induction false} CompareRange(s: Uuids, p: Uuids, f: Facts)
    ensures var hg := Compare(s, p, f).hg; -2 <= hg <= 2 || hg == 100 || hg == -100 || hg == -1000 || hg == -1091
  {}

  /** On mirrored inputs the results are negatives of each other up to 2 and equal beyond, and
      each node's UUIDs are what the peer corrected its copy to, if and only if the generations
      are consistent or both nodes stop at rule 51 for their protocol version. */
  lemma {:induction false} CompareMirrors(a: Uuids, b: Uuids, f: Facts)
    ensures var x, y := Compare(a, b, f), Compare(b, a, f.Mirror());
      && (Fits(x.hg, y.hg) <==> Consistent(a, b) || BothTooOld(a, b, f.version))
      && (Consistent(a, b) ==> x.self == y.peer && x.peer == y.self)
  {}

  // ----- what the generations are for -----

  /** Two nodes with the same data. */
  predicate InSync(a: Uuids, b: Uuids) {
    Established(a.current) && Same(a.current, b.current)
  }

  /** A generation that nobody has seen. */
  predicate Unseen(val: u64, a: Uuids) {
    val < 0xffff_ffff_ffff_ffff && Established(val) && !Same(val, a.current) && !a.Remembers(val)
  }

  /** A node that starts a new generation alone becomes the source of a bitmap based resync. */
  lemma {:induction false} OneDiverged(a: Uuids, b: Uuids, val: u64, primary: bool, f: Facts)
    requires InSync(a, b) && Unseen(val, b)
    ensures var a' := a.NewCurrent(val, primary); Compare(a', b, f).hg == 1 && Compare(a', b, f).rule == 70
    ensures var a' := a.NewCurrent(val, primary);
      !b.Remembers(b.current) && !a.Remembers(b.current) ==> Compare(b, a', f.Mirror()).hg == -1
  {}

  lemma {:induction false} SplitBrain(a: Uuids, b: Uuids, f: Facts)
    requires Established(a.current) && Established(b.current) && !Same(a.current, b.current)
    requires !a.Remembers(b.current) && !b.Remembers(a.current) && Same(a.bitmap, b.bitmap) && Gen(a.bitmap) != 0
    ensures Compare(a, b, f).hg == 100
  {}

  /** When both do so, each of them finds a split brain that it may recover from. */
  lemma {:induction false} BothDiverged(a: Uuids, b: Uuids, va: u64, vb: u64, pa: bool, pb: bool, f: Facts)
    requires InSync(a, b) && Unseen(va, a) && Unseen(va, b) && Unseen(vb, a) && Unseen(vb, b) && !Same(va, vb)
    ensures Compare(a.NewCurrent(va, pa), b.NewCurrent(vb, pb), f).hg == 100
  {
    NewCurrentIs(a, va, pa);
    NewCurrentIs(b, vb, pb);
    SplitBrain(a.NewCurrent(va, pa), b.NewCurrent(vb, pb), f);
  }

  lemma {:induction false} NewCurrentIs(a: Uuids, val: u64, primary: bool)
    requires val < 0xffff_ffff_ffff_ffff
    ensures var a' := a.NewCurrent(val, primary);
      Same(a'.current, val) && a'.bitmap == a.current && a'.h0 == a.h0 && a'.h1 == a.h1
  {}

  /** The source missed the end of the resync: rule 34 does on it what drbd_uuid_set_bm would
      have done, and the target corrects its copy in the same way. */
  lemma {:induction false} MissedResyncFinished(a: Uuids, b: Uuids, f: Facts)
    requires Established(a.current) && Same(a.current, b.current) && a.bitmap != 0 && b.bitmap == 0 && f.version >= 91
    requires Same(a.bitmap, b.h0) && Same(a.h0, b.h1)
    ensures Compare(a, b, f) == Outcome(1, 34, a.SetBm(0), b)
    ensures Compare(b, a, f.Mirror()) == Outcome(-1, 35, b, a.SetBm(0))
  {}

  lemma {:induction false} OffsetGen(x: u64)
    ensures var y := (x + NEW_BM_OFFSET) % 0x1_0000_0000_0000_0000;
            Gen(y) == (Gen(x) + NEW_BM_OFFSET) % 0x1_0000_0000_0000_0000 && !Same(x, y)
  {}

  /** The target never got the sync UUID: both nodes take back the start of the resync, but for
      the oldest history entry, and begin it again from the bitmap. */
  lemma {:induction false} LostSyncUuidPacket(a: Uuids, b: Uuids, f: Facts)
    requires f.version >= 96 && Established(a.current) && Established(b.current) && !Same(a.current, b.current)
    requires Same(b.current, a.bitmap) && !b.Remembers(a.current)
    ensures var a' := a.StartResync();
      && Compare(b, a', f).hg == -1 && Compare(b, a', f).peer == a.(h1 := a.h0)
      && Compare(a', b, f.Mirror()).hg == 1 && Compare(a', b, f.Mirror()).self == a.(h1 := a.h0)
  {
    var a' := a.StartResync();
    OffsetGen(a.bitmap);
    assert Same(b.current, a'.h0) && !Same(b.current, a'.bitmap) && LostSyncUuid(b, a', f.version);
  }
}
