/** drbd_sync_handshake: each node decides alone who becomes the source of the resync. */
module Handshake {
  import opened Generations

  datatype Policy =
    | Disconnect | DiscardYoungerPri | DiscardOlderPri | DiscardZeroChg | DiscardLeastChg
    | DiscardLocal | DiscardRemote | Consensus | DiscardSecondary | CallHelper | Violently

  /** convert_after_sb: what the peer's setting means on this node */
  function Convert(p: Policy): Policy {
    match p
    case DiscardRemote => DiscardLocal
    case DiscardLocal => DiscardRemote
    case _ => p
  }

  /** enum drbd_disk_state, in its numeric order */
  datatype Disk = Diskless | Attaching | Failed | Negotiating | Inconsistent | Outdated | DUnknown | DConsistent
    | UpToDate
  function Rank(d: Disk): nat {
    match d
    case Diskless => 0 case Attaching => 1 case Failed => 2 case Negotiating => 3 case Inconsistent => 4
    case Outdated => 5 case DUnknown => 6 case DConsistent => 7 case UpToDate => 8
  }

  /** One node.  disk is the disk state that counts for the resync decision, rawDisk the one in
      device->state; the dry run, the rr-conflict policy and a failing bitmap write are its own affair. */
  datatype Side = Side(uuids: Uuids, disk: Disk, rawDisk: Disk, primary: bool, changes: nat, crashed: bool,
                       discard: bool, after0: Policy, after1: Policy, after2: Policy, alwaysAsbp: bool,
                       rrConflict: Policy, dryRun: bool, bitmapWriteFails: bool)

  /** net_conf flags that both nodes share, and RESOLVE_CONFLICTS of the node that looks. */
  datatype Link = Link(version: nat, resolve: bool) {
    function Mirror(): Link { Link(version, !resolve) }
  }

  const UNRESOLVED: int := -100

  /** drbd_asb_recover_0p; the UUIDs are those after the comparison */
  function Recover0(s: Side, p: Side, l: Link): int {
    var self, peer := s.uuids.bitmap % 2, p.uuids.bitmap % 2;
    match s.after0
    case DiscardYoungerPri => if self < peer then -1 else if peer < self then 1 else ByZeroChanges(s, p, l)
    case DiscardOlderPri => if self < peer then 1 else if peer < self then -1 else ByZeroChanges(s, p, l)
    case DiscardZeroChg =>
      if s.changes == 0 || p.changes == 0 then ByZeroChanges(s, p, l) else UNRESOLVED
    case DiscardLeastChg => ByChanges(s, p, l)
    case DiscardLocal => -1
    case DiscardRemote => 1
    case _ => UNRESOLVED
  }

  function ByResolve(l: Link): int { if l.resolve then -1 else 1 }

  function ByZeroChanges(s: Side, p: Side, l: Link): int {
    if p.changes == 0 && s.changes == 0 then ByResolve(l)
    else if p.changes == 0 then 1
    else if s.changes == 0 then -1
    else ByChanges(s, p, l)
  }

  function ByChanges(s: Side, p: Side, l: Link): int {
    if s.changes < p.changes then -1 else if s.changes > p.changes then 1 else ByResolve(l)
  }

  /** drbd_asb_recover_1p, drbd_asb_recover_2p, without the call-helper policies */
  function Recover1(s: Side, p: Side, l: Link): int {
    match s.after1
    case Consensus =>
      var hg := Recover0(s, p, l);
      if (hg == -1 && !s.primary) || (hg == 1 && s.primary) then hg else UNRESOLVED
    case Violently => Recover0(s, p, l)
    case DiscardSecondary => if s.primary then 1 else -1
    case _ => UNRESOLVED
  }

  function Recover2(s: Side, p: Side, l: Link): int {
    if s.after2 == Violently then Recover0(s, p, l) else UNRESOLVED
  }

  function Abs(x: int): nat { if x < 0 then -x else x }

  /** A disk that is inconsistent on one side only decides by itself. */
  function ByDisks(hg: int, mine: Disk, peer: Disk): int {
    if (mine == Inconsistent && Rank(peer) > Rank(Inconsistent))
      || (peer == Inconsistent && Rank(mine) > Rank(Inconsistent)) then
      (if Rank(mine) > Rank(Inconsistent) then 1 else -1) * (if hg == UNRESOLVED || Abs(hg) == 2 then 2 else 1)
    else hg
  }

  /** Automatic recovery from a split brain. */
  function Recover(s: Side, p: Side, l: Link): int {
    if s.primary && p.primary then Recover2(s, p, l)
    else if s.primary || p.primary then Recover1(s, p, l)
    else Recover0(s, p, l)
  }

  function ByAfterSb(hg: int, s: Side, p: Side, l: Link): int {
    if hg == 100 || (hg == UNRESOLVED && s.alwaysAsbp) then
      var r := Recover(s, p, l);
      if Abs(r) < 100 && hg == UNRESOLVED then 2 * r else r
    else hg
  }

  /** Manual recovery: discard-my-data on one side. */
  function ByDiscard(hg: int, s: Side, p: Side): int {
    if hg == UNRESOLVED && s.discard && !p.discard then -1
    else if hg == UNRESOLVED && !s.discard && p.discard then 1
    else hg
  }

  /** The verdict, before the node looks at what it can do about it; below -100 for unrelated data
      or a protocol version that is too old. */
  function Verdict(s: Side, p: Side, l: Link): int {
    var o := Compare(s.uuids, p.uuids, Facts(l.version, s.crashed, p.crashed, l.resolve));
    if o.hg <= -1000 then o.hg else Settle(o.hg, s.(uuids := o.self), p.(uuids := o.peer), l)
  }

  function Settle(hg: int, s: Side, p: Side, l: Link): int {
    ByDiscard(ByAfterSb(ByDisks(hg, s.disk, p.disk), s, p, l), s, p)
  }

  /** The connection state a node goes to, or C_MASK. */
  datatype Conn = Refuse | WFBitMapS | WFBitMapT | Connected

  function Decide(s: Side, hg: int): Conn {
    if hg <= UNRESOLVED then Refuse
    else if hg > 0 && Rank(s.disk) <= Rank(Inconsistent) then Refuse
    else if hg < 0 && s.primary && Rank(s.rawDisk) >= Rank(DConsistent)
      && s.rrConflict in {CallHelper, Disconnect} then Refuse
    else if s.dryRun then Refuse
    else if Abs(hg) >= 2 && s.bitmapWriteFails then Refuse
    else if hg > 0 then WFBitMapS
    else if hg < 0 then WFBitMapT
    else Connected
  }

  function SyncHandshake(s: Side, p: Side, l: Link): Conn {
    Decide(s, Verdict(s, p, l))
  }

  // ----- the two nodes agree -----

  /** receive_protocol: the after-split-brain settings of the two nodes mean the same. */
  predicate Compatible(a: Side, b: Side) {
    a.after0 == Convert(b.after0) && a.after1 == Convert(b.after1) && a.after2 == Convert(b.after2)
  }

  predicate NoHelper(s: Side) { s.after1 != CallHelper && s.after2 != CallHelper }

  lemma {:induction false} Recover0Mirrors(a: Side, b: Side, l: Link)
    requires Compatible(a, b)
    ensures Fits(Recover0(a, b, l), Recover0(b, a, l.Mirror())) && Recover0(a, b, l) in {-1, 1, UNRESOLVED}
  {}

  lemma {:induction false} AfterSbMirrors(a: Side, b: Side, l: Link, hg: int)
    requires Compatible(a, b) && a.alwaysAsbp == b.alwaysAsbp && (-2 <= hg <= 2 || hg == 100 || hg == UNRESOLVED)
    ensures var x := ByAfterSb(hg, a, b, l);
      (-2 <= x <= 2 || x == UNRESOLVED) && Fits(x, ByAfterSb(if Abs(hg) <= 2 then -hg else hg, b, a, l.Mirror()))
  {
    Recover0Mirrors(a, b, l);
  }

  lemma {:induction false} SettleMirrors(a: Side, b: Side, l: Link, hg: int, kg: int)
    requires Compatible(a, b) && a.alwaysAsbp == b.alwaysAsbp && (-2 <= hg <= 2 || hg == 100 || hg == UNRESOLVED)
      && Fits(hg, kg)
    ensures Fits(Settle(hg, a, b, l), Settle(kg, b, a, l.Mirror()))
    ensures -2 <= Settle(hg, a, b, l) <= 2 || Settle(hg, a, b, l) == UNRESOLVED
  {
    AfterSbMirrors(a, b, l, ByDisks(hg, a.disk, b.disk));
  }

  /** With mirrored inputs the two verdicts fit: opposite directions with the same kind of
      resync, no resync on both sides, or no agreement on both sides. */
  lemma {:induction false} VerdictsMirror(a: Side, b: Side, l: Link)
    requires Consistent(a.uuids, b.uuids) && Compatible(a, b) && NoHelper(a) && NoHelper(b)
      && a.alwaysAsbp == b.alwaysAsbp
    ensures var h := Verdict(a, b, l); Fits(h, Verdict(b, a, l.Mirror())) && (-2 <= h <= 2 || h <= UNRESOLVED)
  {
    var f := Facts(l.version, a.crashed, b.crashed, l.resolve);
    CompareMirrors(a.uuids, b.uuids, f);
    CompareRange(a.uuids, b.uuids, f);
    var x, y := Compare(a.uuids, b.uuids, f), Compare(b.uuids, a.uuids, f.Mirror());
    if x.hg > -1000 {
      SettleMirrors(a.(uuids := x.self), b.(uuids := x.peer), l, x.hg, y.hg);
    }
  }

  lemma {:induction false} DecisionsFit(a: Side, b: Side, h: int, k: int)
    requires Fits(h, k) && (-2 <= h <= 2 || h <= UNRESOLVED)
    ensures var x, y := Decide(a, h), Decide(b, k);
      && (x == WFBitMapS ==> y == WFBitMapT || y == Refuse) && (x == WFBitMapT ==> y == WFBitMapS || y == Refuse)
      && (x == Connected ==> y == Connected || y == Refuse)
  {}

  /** The nodes never both become source or both target; if neither refuses, they become source
      and target or are both connected. */
  lemma {:induction false} NeverBoth(a: Side, b: Side, l: Link)
    requires Consistent(a.uuids, b.uuids) && Compatible(a, b) && NoHelper(a) && NoHelper(b)
      && a.alwaysAsbp == b.alwaysAsbp
    ensures var x, y := SyncHandshake(a, b, l), SyncHandshake(b, a, l.Mirror());
      && (x == WFBitMapS ==> y == WFBitMapT || y == Refuse) && (x == WFBitMapT ==> y == WFBitMapS || y == Refuse)
      && (x == Connected ==> y == Connected || y == Refuse)
  {
    VerdictsMirror(a, b, l);
    var h, k := Verdict(a, b, l), Verdict(b, a, l.Mirror());
    DecisionsFit(a, b, h, k);
  }

  // ----- the conditions are needed -----

  const NEEDS_91: int := -1091

  /** Nodes that each remember the other's generation, or that both have none: unless their disks
      decide, each gets the verdict to become target, and does or refuses; below protocol version
      91 it may stop for that reason instead. */
  lemma {:induction false} InconsistentGenerations(a: Side, b: Side, l: Link)
    requires !Consistent(a.uuids, b.uuids) && (a.disk == Inconsistent <==> b.disk == Inconsistent)
    ensures Cornered(a, b, l) && Cornered(b, a, l.Mirror())
    ensures SyncHandshake(a, b, l) in {WFBitMapT, Refuse} && SyncHandshake(b, a, l.Mirror()) in {WFBitMapT, Refuse}
  {
    TargetOfMutual(a, b, l);
    TargetOfMutual(b, a, l.Mirror());
  }

  predicate Cornered(s: Side, p: Side, l: Link) {
    Verdict(s, p, l) in {-1, -2} || (l.version < 91 && Verdict(s, p, l) == NEEDS_91)
  }

  lemma {:induction false} TargetOfMutual(a: Side, b: Side, l: Link)
    requires !Consistent(a.uuids, b.uuids) && (a.disk == Inconsistent <==> b.disk == Inconsistent)
    ensures Cornered(a, b, l)
  {
    var f := Facts(l.version, a.crashed, b.crashed, l.resolve);
    var o := Compare(a.uuids, b.uuids, f);
    assert o.hg in {-1, -2} || (l.version < 91 && o.hg == NEEDS_91) by { Mutual(a.uuids, b.uuids, f); }
    var v := if o.hg <= -1000 then o.hg else Settle(o.hg, a.(uuids := o.self), b.(uuids := o.peer), l);
    assert Verdict(a, b, l) == v;
    if o.hg != NEEDS_91 { Undecided(o.hg, a.(uuids := o.self), b.(uuids := o.peer), l); }
  }

  lemma {:induction false} Undecided(hg: int, s: Side, p: Side, l: Link)
    requires hg in {-1, -2} && (s.disk == Inconsistent <==> p.disk == Inconsistent)
    ensures Settle(hg, s, p, l) == hg
  {}

  lemma {:induction false} Mutual(a: Uuids, b: Uuids, f: Facts)
    requires !Consistent(a, b)
    ensures Compare(a, b, f).hg in {-1, -2} || (f.version < 91 && Compare(a, b, f).hg == NEEDS_91)
  {}

  /** With always-asbp on one side only, both nodes may become source: one by the policy, the
      other because its peer was told to discard its data. */
  lemma {:induction false} AlwaysAsbpMustAgree() returns (a: Side, b: Side, l: Link)
    ensures Consistent(a.uuids, b.uuids) && Compatible(a, b) && NoHelper(a) && NoHelper(b)
    ensures SyncHandshake(a, b, l) == WFBitMapS && SyncHandshake(b, a, l.Mirror()) == WFBitMapS
  {
    a := Side(Uuids(10, 0, 20, 30), UpToDate, UpToDate, false, 5, false, true,
              DiscardLeastChg, Disconnect, Disconnect, true, Disconnect, false, false);
    b := Side(Uuids(12, 0, 20, 40), UpToDate, UpToDate, false, 3, false, false,
              DiscardLeastChg, Disconnect, Disconnect, false, Disconnect, false, false);
    l := Link(101, true);
    assert Compare(a.uuids, b.uuids, Facts(101, false, false, true)).hg == -100;
    assert Compare(b.uuids, a.uuids, Facts(101, false, false, false)).hg == -100;
  }

  predicate Source(verdict: int) { verdict > 0 }
  predicate Target(verdict: int) { UNRESOLVED < verdict < 0 }

  /** Neither the generations nor the disks tell which of the two has the right data. */
  predicate Ambiguous(hg: int, a: Side, b: Side) { ByDisks(hg, a.disk, b.disk) == UNRESOLVED }

  /** If they do, always-asbp does not count. */
  lemma {:induction false} AsbpDoesNotCount(hg: int, s: Side, p: Side, l: Link, on: bool)
    requires !Ambiguous(hg, s, p)
    ensures Settle(hg, s, p, l) == Settle(hg, s.(alwaysAsbp := on), p, l)
  {}

  lemma {:induction false} RecoverSame(s: Side, p: Side, l: Link, on: bool)
    ensures Recover(s, p, l) == Recover(s, p.(alwaysAsbp := on), l)
  {
    var q := p.(alwaysAsbp := on);
    assert Recover0(s, p, l) == Recover0(s, q, l);
  }

  lemma {:induction false} PeerAsbpDoesNotCount(hg: int, s: Side, p: Side, l: Link, on: bool)
    ensures Settle(hg, s, p, l) == Settle(hg, s, p.(alwaysAsbp := on), l)
  {
    RecoverSame(s, p, l, on);
    var h := ByDisks(hg, s.disk, p.disk);
    assert ByAfterSb(h, s, p, l) == ByAfterSb(h, s, p.(alwaysAsbp := on), l);
  }

  /** If they do not, the node with the setting follows its policy, the other discard-my-data. */
  lemma {:induction false} SettleAmbiguous(a: Side, b: Side, l: Link, hg: int)
    requires Compatible(a, b) && a.alwaysAsbp && !b.alwaysAsbp && Ambiguous(hg, a, b)
    ensures var h, k, r := Settle(hg, a, b, l), Settle(hg, b, a, l.Mirror()), Recover(a, b, l);
      && r in {-1, 1, UNRESOLVED} && h == (if r != UNRESOLVED then 2 * r else ByDiscard(UNRESOLVED, a, b))
      && k == ByDiscard(UNRESOLVED, b, a)
  {
    Recover0Mirrors(a, b, l);
  }

  lemma {:induction false} SettleClear(a: Side, b: Side, l: Link, hg: int, kg: int)
    requires Compatible(a, b) && a.alwaysAsbp && !b.alwaysAsbp && (-2 <= hg <= 2 || hg == 100 || hg == UNRESOLVED)
    requires Fits(hg, kg) && !Ambiguous(hg, a, b)
    ensures Fits(Settle(hg, a, b, l), Settle(kg, b, a, l.Mirror()))
    ensures -2 <= Settle(hg, a, b, l) <= 2 || Settle(hg, a, b, l) == UNRESOLVED
  {
    AsbpDoesNotCount(kg, b, a, l.Mirror(), true);
    PeerAsbpDoesNotCount(hg, a, b, l, true);
    SettleMirrors(a, b.(alwaysAsbp := true), l, hg, kg);
  }

  lemma {:induction false} SettleClash(a: Side, b: Side, l: Link, hg: int, kg: int)
    requires Compatible(a, b) && a.alwaysAsbp && !b.alwaysAsbp && (-2 <= hg <= 2 || hg == 100 || hg == UNRESOLVED)
    requires Fits(hg, kg)
    ensures var h, k, r := Settle(hg, a, b, l), Settle(kg, b, a, l.Mirror()), Recover(a, b, l);
      && (Source(h) && Source(k) <==> Ambiguous(hg, a, b) && r == 1 && a.discard && !b.discard)
      && (Target(h) && Target(k) <==> Ambiguous(hg, a, b) && r == -1 && !a.discard && b.discard)
  {
    if Ambiguous(hg, a, b) { SettleAmbiguous(a, b, l, hg); } else { SettleClear(a, b, l, hg, kg); }
  }

  /** With always-asbp on one side only, both verdicts name a source exactly when the situation is
      ambiguous, the policy of that side saves its data, and it was told to discard them; and
      both name a target exactly when its policy gives them up and the other side was told to. */
  lemma {:induction false} AlwaysAsbpExact(a: Side, b: Side, l: Link)
    requires Consistent(a.uuids, b.uuids) && Compatible(a, b) && NoHelper(a) && NoHelper(b) && a.alwaysAsbp
      && !b.alwaysAsbp
    ensures var o := Compare(a.uuids, b.uuids, Facts(l.version, a.crashed, b.crashed, l.resolve));
      var h, k := Verdict(a, b, l), Verdict(b, a, l.Mirror());
      var r := Recover(a.(uuids := o.self), b.(uuids := o.peer), l);
      && (Source(h) && Source(k) <==> Ambiguous(o.hg, a, b) && r == 1 && a.discard && !b.discard)
      && (Target(h) && Target(k) <==> Ambiguous(o.hg, a, b) && r == -1 && !a.discard && b.discard)
  {
    var f := Facts(l.version, a.crashed, b.crashed, l.resolve);
    CompareMirrors(a.uuids, b.uuids, f);
    CompareRange(a.uuids, b.uuids, f);
    var x, y := Compare(a.uuids, b.uuids, f), Compare(b.uuids, a.uuids, f.Mirror());
    if x.hg > -1000 {
      SettleClash(a.(uuids := x.self), b.(uuids := x.peer), l, x.hg, y.hg);
    }
  }
}
