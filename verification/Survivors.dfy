/** Whose data survive: the direction of every decision of the handshake. */
module Survivors {
  import opened Generations
  import opened Handshake

  // ----- generations -----

  /** With equal generations and bitmaps on both or none, the only crashed primary becomes source;
      of two, the one without RESOLVE_CONFLICTS. */
  lemma {:induction false} CrashedPrimary(a: Uuids, b: Uuids, f: Facts)
    requires InSync(a, b) && (a.bitmap == 0 <==> b.bitmap == 0)
    ensures var hg := Compare(a, b, f).hg;
      && (hg > 0 <==> f.selfCrashed && (!f.peerCrashed || !f.resolve))
      && (hg < 0 <==> f.peerCrashed && (!f.selfCrashed || f.resolve))
      && -1 <= hg <= 1
  {}

  /** With equal generations, the node that has a bitmap UUID and whose peer has none is source. */
  lemma {:induction false} OwnerOfBitmap(a: Uuids, b: Uuids, f: Facts)
    requires InSync(a, b) && a.bitmap != 0 && b.bitmap == 0 && f.version >= 91
    ensures Compare(a, b, f).hg == 1 && Compare(b, a, f.Mirror()).hg == -1
  {}

  /** A node without data takes all of its peer's. */
  lemma {:induction false} FreshNode(a: Uuids, b: Uuids, f: Facts)
    requires Gen(a.current) in {0, JUST_CREATED} && Established(b.current)
    ensures Compare(a, b, f).hg == -2 && Compare(b, a, f.Mirror()).hg == 2
  {}

  /** Two of them need nothing. */
  lemma {:induction false} TwoFreshNodes(a: Uuids, b: Uuids, f: Facts)
    requires Gen(a.current) == JUST_CREATED == Gen(b.current)
    ensures Compare(a, b, f).hg == 0
  {}

  /** A node that its peer has left behind by a generation is target of a bitmap based resync. */
  lemma {:induction false} OneBehind(a: Uuids, b: Uuids, f: Facts)
    requires Established(a.current) && Established(b.current) && !Same(a.current, b.current)
    requires Same(b.current, a.bitmap) && !b.Remembers(a.current)
    ensures Compare(a, b, f).hg == 1 && Compare(b, a, f.Mirror()).hg == -1
  {}

  /** A node whose generation is in its peer's history only is target of a full resync. */
  lemma {:induction false} FarBehind(a: Uuids, b: Uuids, f: Facts)
    requires Established(a.current) && Established(b.current) && !Same(a.current, b.current)
    requires (Same(b.current, a.h0) || Same(b.current, a.h1)) && !Same(b.current, a.bitmap) && !b.Remembers(a.current)
    requires !(Same(b.current, a.h0) && LostSyncUuid(b, a, f.version))
    ensures Compare(a, b, f).hg == 2 && Compare(b, a, f.Mirror()).hg == -2
  {}

  /** Nodes that do not know each other's generation: a split brain with a common bitmap UUID, an
      ambiguous one with common history, and otherwise unrelated data. */
  lemma {:induction false} Strangers(a: Uuids, b: Uuids, f: Facts)
    requires Established(a.current) && Established(b.current) && !Same(a.current, b.current)
    requires !a.Remembers(b.current) && !b.Remembers(a.current)
    ensures Compare(a, b, f).hg ==
      if Same(a.bitmap, b.bitmap) && Gen(a.bitmap) != 0 then 100
      else if exists x, y :: x in {a.h0, a.h1} && y in {b.h0, b.h1} && Same(x, y) then -100 else -1000
  {}

  /** A lost sync UUID packet, with the test of protocol versions below 96: the nodes share the newest
      history entry. */
  lemma {:induction false} LostSyncUuidBefore96(a: Uuids, b: Uuids, f: Facts)
    requires 91 <= f.version < 96 && Established(a.current) && Established(b.current) && !Same(a.current, b.current)
    requires Same(b.current, a.bitmap) && !b.Remembers(a.current) && Same(b.h0, a.h0)
    ensures var a' := a.StartResync();
      && Compare(b, a', f).hg == -1 && Compare(b, a', f).peer == a.(h1 := a.h0)
      && Compare(a', b, f.Mirror()).hg == 1 && Compare(a', b, f.Mirror()).self == a.(h1 := a.h0)
  {
    var a' := a.StartResync();
    OffsetGen(a.bitmap);
    assert Same(b.current, a'.h0) && !Same(b.current, a'.bitmap) && LostSyncUuid(b, a', f.version);
  }

  // ----- disks -----

  /** One disk is inconsistent, the other is better. */
  predicate OneBetter(a: Disk, b: Disk) {
    (a == Inconsistent && Rank(b) > Rank(Inconsistent)) || (b == Inconsistent && Rank(a) > Rank(Inconsistent))
  }

  /** Then the better one becomes source, whatever the generations say short of unrelated data, and
      whatever the policies are. */
  lemma {:induction false} BetterDisk(s: Side, p: Side, l: Link)
    requires OneBetter(s.disk, p.disk)
    requires Compare(s.uuids, p.uuids, Facts(l.version, s.crashed, p.crashed, l.resolve)).hg > -1000
    ensures var hg := Compare(s.uuids, p.uuids, Facts(l.version, s.crashed, p.crashed, l.resolve)).hg;
      && Abs(Verdict(s, p, l)) == (if hg in {-100, -2, 2} then 2 else 1)
      && (Verdict(s, p, l) > 0 <==> Rank(s.disk) > Rank(Inconsistent))
    ensures SyncHandshake(s, p, l) in (if s.disk == Inconsistent then {WFBitMapT, Refuse} else {WFBitMapS, Refuse})
  {
    var o := Compare(s.uuids, p.uuids, Facts(l.version, s.crashed, p.crashed, l.resolve));
    DiskSettles(o.hg, s.(uuids := o.self), p.(uuids := o.peer), l);
  }

  lemma {:induction false} DiskSettles(hg: int, s: Side, p: Side, l: Link)
    requires OneBetter(s.disk, p.disk)
    ensures Settle(hg, s, p, l) ==
      (if Rank(s.disk) > Rank(Inconsistent) then 1 else -1) * (if hg in {-100, -2, 2} then 2 else 1)
  {}

  // ----- split brain policies -----

  /** discard-local and discard-remote */
  lemma {:induction false} DiscardNamed(s: Side, p: Side, l: Link)
    ensures s.after0 == DiscardLocal ==> Recover0(s, p, l) < 0
    ensures s.after0 == DiscardRemote ==> Recover0(s, p, l) > 0
  {}

  /** Two nodes in sync, of which a was primary, and then both started a generation of their own:
      a was the older primary. */
  predicate Split(a: Side, b: Side, a0: Uuids, b0: Uuids, va: u64, vb: u64) {
    && InSync(a0, b0) && a0.current % 2 == 1 && b0.current % 2 == 0
    && va < 0xffff_ffff_ffff_ffff && vb < 0xffff_ffff_ffff_ffff
    && a.uuids == a0.NewCurrent(va, true) && b.uuids == b0.NewCurrent(vb, true)
  }

  /** discard-younger-primary keeps its data, discard-older-primary gives them up. */
  lemma {:induction false} OlderPrimary(a: Side, b: Side, a0: Uuids, b0: Uuids, va: u64, vb: u64, l: Link)
    requires Split(a, b, a0, b0, va, vb)
    ensures a.after0 == DiscardYoungerPri ==> Recover0(a, b, l) > 0
    ensures b.after0 == DiscardYoungerPri ==> Recover0(b, a, l.Mirror()) < 0
    ensures a.after0 == DiscardOlderPri ==> Recover0(a, b, l) < 0
    ensures b.after0 == DiscardOlderPri ==> Recover0(b, a, l.Mirror()) > 0
  {}

  /** The policies that count changes, and the others when the roles do not decide. */
  predicate ByCount(s: Side, p: Side) {
    || s.after0 in {DiscardZeroChg, DiscardLeastChg}
    || (s.after0 in {DiscardYoungerPri, DiscardOlderPri} && s.uuids.bitmap % 2 == p.uuids.bitmap % 2)
  }

  /** More changes win; of equal counts the node without RESOLVE_CONFLICTS does.  Only
      discard-zero-changes may leave it open, when both nodes have changes. */
  lemma {:induction false} MoreChanges(s: Side, p: Side, l: Link)
    requires ByCount(s, p)
    ensures var r := Recover0(s, p, l);
      if s.after0 == DiscardZeroChg && s.changes > 0 && p.changes > 0 then r == UNRESOLVED
      else r in {-1, 1} && (r > 0 <==> s.changes > p.changes || (s.changes == p.changes && !l.resolve))
  {}

  /** The policies for one primary keep its data, if they decide at all; discard-secondary always
      does, and consensus when the count of changes agrees. */
  lemma {:induction false} OnePrimary(s: Side, p: Side, l: Link)
    requires s.primary != p.primary && s.after1 in {Consensus, DiscardSecondary}
    ensures var r := Recover(s, p, l);
      && (r == UNRESOLVED || (r in {-1, 1} && (r > 0 <==> s.primary)))
      && (r != UNRESOLVED <==> s.after1 == DiscardSecondary || Recover0(s, p, l) == if s.primary then 1 else -1)
  {}

  /** violently-as0p does as if nobody were primary; all other settings leave it open. */
  lemma {:induction false} AsWithoutPrimary(s: Side, p: Side, l: Link)
    requires s.primary || p.primary
    ensures s.primary != p.primary && s.after1 == Violently ==> Recover(s, p, l) == Recover0(s, p, l)
    ensures s.primary && p.primary ==>
      Recover(s, p, l) == if s.after2 == Violently then Recover0(s, p, l) else UNRESOLVED
    ensures s.primary != p.primary && s.after1 !in {Consensus, DiscardSecondary, Violently} ==>
      Recover(s, p, l) == UNRESOLVED
  {}

  /** A split brain that neither disks nor policies decide: the node that alone was told to discard
      its data is target, its peer source, and without that both refuse. */
  lemma {:induction false} ToldToDiscard(hg: int, s: Side, p: Side, l: Link)
    requires Ambiguous(hg, s, p) && (!s.alwaysAsbp || Recover(s, p, l) == UNRESOLVED)
    ensures var v := Settle(hg, s, p, l);
      && (v < 0 && v != UNRESOLVED <==> s.discard && !p.discard) && (v > 0 <==> !s.discard && p.discard)
      && (v == UNRESOLVED <==> s.discard == p.discard)
  {}

  /** A split brain with a common bitmap UUID is settled by the policies; an ambiguous one is too if
      always-asbp says so, and then by a full resync. */
  lemma {:induction false} PoliciesSettle(s: Side, p: Side, l: Link)
    requires !OneBetter(s.disk, p.disk) && Recover(s, p, l) in {-1, 1}
    ensures var hg := Compare(s.uuids, p.uuids, Facts(l.version, s.crashed, p.crashed, l.resolve)).hg;
      && (hg == 100 ==> Verdict(s, p, l) == Recover(s, p, l))
      && (hg == -100 && s.alwaysAsbp ==> Verdict(s, p, l) == 2 * Recover(s, p, l))
      && (-2 <= hg <= 2 ==> Verdict(s, p, l) == hg)
  {
    var o := Compare(s.uuids, p.uuids, Facts(l.version, s.crashed, p.crashed, l.resolve));
    RecoverKept(s, p, o, l);
    SettlesBy(o.hg, s.(uuids := o.self), p.(uuids := o.peer), l);
  }

  /** A split brain corrects no UUIDs. */
  lemma {:induction false} RecoverKept(s: Side, p: Side, o: Outcome, l: Link)
    requires o == Compare(s.uuids, p.uuids, Facts(l.version, s.crashed, p.crashed, l.resolve))
    ensures o.hg in {100, -100} ==> s.(uuids := o.self) == s && p.(uuids := o.peer) == p
  {}

  lemma {:induction false} SettlesBy(hg: int, s: Side, p: Side, l: Link)
    requires !OneBetter(s.disk, p.disk)
    ensures -2 <= hg <= 2 ==> Settle(hg, s, p, l) == hg
    ensures Recover(s, p, l) in {-1, 1} && hg == 100 ==> Settle(hg, s, p, l) == Recover(s, p, l)
    ensures Recover(s, p, l) in {-1, 1} && hg == -100 && s.alwaysAsbp ==> Settle(hg, s, p, l) == 2 * Recover(s, p, l)
  {}

  // ----- what a node does about the verdict -----

  /** A node becomes source only with good data, and target only if that costs no primary its good
      data against its settings; a dry run, or a full resync whose bitmap cannot be written, ends
      with neither. */
  lemma {:induction false} DecideExact(s: Side, p: Side, l: Link)
    ensures var c, v := SyncHandshake(s, p, l), Verdict(s, p, l);
      var may := !s.dryRun && (Abs(v) >= 2 ==> !s.bitmapWriteFails);
      var risky := s.primary && s.rawDisk in {DConsistent, UpToDate} && s.rrConflict in {CallHelper, Disconnect};
      && (c == WFBitMapS <==> v > 0 && Rank(s.disk) > Rank(Inconsistent) && may)
      && (c == WFBitMapT <==> UNRESOLVED < v < 0 && !risky && may)
      && (c == Connected <==> v == 0 && may)
  {}
}
