/** What the checks of the state engine are for: which states a soft change may store, from where,
    and what sanitising makes of a request. */
module StateChecks {
  import opened StateEngine

  // ----- is_valid_state -----

  /** A state that is right by itself. */
  predicate Sane(env: Env, s: State) {
    && (s.role == R_PRIMARY && env.netConf && !env.twoPrimaries ==> s.peer != R_PRIMARY && !env.otherPeerPrimary)
    && (s.role == R_SECONDARY ==> !env.inUse)
    && (s.role == R_PRIMARY ==> s.disk == UP_TO_DATE || s.pdsk == UP_TO_DATE)
    && (s.role == R_PRIMARY && s.conn < CONNECTED ==> s.disk == UP_TO_DATE)
    && (s.role == R_PRIMARY && s.conn < CONNECTED && env.fencing != DontCare ==> s.pdsk < UNKNOWN)
    && (s.conn > CONNECTED ==> s.disk >= INCONSISTENT && s.pdsk >= INCONSISTENT)
    && (s.conn > CONNECTED ==> s.disk == UP_TO_DATE || s.pdsk == UP_TO_DATE)
    && (s.conn in {CONNECTED, WF_BITMAP_S, SYNC_SOURCE, PAUSED_SYNC_S} ==> s.disk != OUTDATED)
    && (s.conn in {VERIFY_S, VERIFY_T} ==> env.verifyAlg && env.version >= 88)
    && (s.conn >= CONNECTED ==> s.pdsk != UNKNOWN)
  }

  lemma {:induction false} ValidStateExact(env: Env, s: State)
    ensures ValidState(env, s) >= SS_SUCCESS <==> Sane(env, s)
  {}

  /** The code that is returned names a defect that is there. */
  lemma {:induction false} DefectNamed(env: Env, s: State)
    ensures match ValidState(env, s)
      case -1 => s.role == R_PRIMARY == s.peer && !env.twoPrimaries
      case -20 => s.role == R_PRIMARY && env.otherPeerPrimary && !env.twoPrimaries
      case -12 => s.role == R_SECONDARY && env.inUse
      case -2 => s.disk < UP_TO_DATE && (s.pdsk < UP_TO_DATE || s.conn < CONNECTED)
      case -7 => s.role == R_PRIMARY && s.conn < CONNECTED && env.fencing != DontCare && s.pdsk >= UNKNOWN
      case -4 => s.conn > CONNECTED && s.disk < INCONSISTENT
      case -5 => s.conn > CONNECTED && s.pdsk < INCONSISTENT
      case -6 => s.conn >= CONNECTED && (s.disk == OUTDATED || s.pdsk == UNKNOWN)
      case -14 => s.conn in {VERIFY_S, VERIFY_T} && !env.verifyAlg
      case -17 => s.conn in {VERIFY_S, VERIFY_T} && env.version < 88
      case -15 => s.conn in {STARTING_SYNC_S, STARTING_SYNC_T} && s.pdsk == UNKNOWN
      case rv => rv == SS_SUCCESS
  {}

  // ----- is_valid_soft_transition -----

  /** A change that may be asked for. */
  predicate Permitted(env: Env, os: State, ns: State) {
    // nothing comes from nothing
    && (os.disk == DISKLESS ==> ns.disk <= ATTACHING)
    && (ns.disk == OUTDATED && os.disk < OUTDATED ==> os.disk == ATTACHING)
    // no resync or verify without a connection or over a running one
    && (ns.conn in {SYNC_SOURCE, SYNC_TARGET} ==> os.conn >= WF_REPORT_PARAMS)
    && (ns.conn in {STARTING_SYNC_S, STARTING_SYNC_T} ==> os.conn == CONNECTED)
    && (ns.conn in {VERIFY_S, VERIFY_T} ==> os.conn == CONNECTED || (os.conn > CONNECTED && os.conn == ns.conn))
    // connecting and disconnecting
    && (ns.conn == WF_CONNECTION ==> os.conn >= UNCONNECTED)
    && (ns.conn == DISCONNECTING ==> os.conn != STANDALONE && os.conn != UNCONNECTED)
    && (ns.conn == DISCONNECTING && ns.pdsk == OUTDATED && os.conn < CONNECTED ==> os.pdsk <= OUTDATED)
    // after the states were exchanged, only the connection comes up
    && (env.stateSent ==> os.conn == WF_REPORT_PARAMS || (os.conn == WF_CONNECTION && ns.conn == WF_REPORT_PARAMS))
  }

  lemma {:induction false} SoftTransitionExact(env: Env, os: State, ns: State)
    ensures ValidSoftTransition(env, os, ns) >= SS_SUCCESS <==> Permitted(env, os, ns)
  {}

  // ----- is_valid_transition -----

  /** What even a forced change respects. */
  predicate Possible(os: State, ns: State) {
    && (os.disk == DISKLESS ==> ns.disk != FAILED)
    && (os.conn != ns.conn ==>
          && (os.conn == STANDALONE ==> ns.conn == UNCONNECTED)
          && (os.conn == DISCONNECTING ==> ns.conn == STANDALONE)
          && (NetworkError(os.conn) ==> ns.conn in {UNCONNECTED, DISCONNECTING})
          && (ns.conn >= CONNECTED ==> os.conn >= WF_REPORT_PARAMS))
  }

  lemma {:induction false} TransitionExact(os: State, ns: State)
    ensures ValidTransition(os, ns) >= SS_SUCCESS <==> Possible(os, ns)
  {}

  // ----- what is stored -----

  /** A request is stored as sanitised exactly when the transition is possible and, unless it is
      forced, permitted, to a state that is right or has the defect that the old one had; otherwise
      the old state stays and an error is returned. */
  lemma {:induction false} StoredExact(env: Env, os: State, req: State, hard: bool)
    ensures var (s, rv) := SetState(env, os, req, hard);
      var ns := Sanitize(env, os, req);
      var ok := Possible(os, ns) && (hard || (Permitted(env, os, ns)
        && (Sane(env, ns) || ValidState(env, ns) == ValidState(env, os))));
      if ns == os then s == os && rv == SS_NOTHING_TO_DO
      else (rv >= SS_SUCCESS <==> ok) && s == if ok then ns else os
  {
    var ns := Sanitize(env, os, req);
    TransitionExact(os, ns);
    SoftTransitionExact(env, os, ns);
    ValidStateExact(env, ns);
  }

  /** So in every run: what a soft change stores it was permitted to, and it leads to a state that
      is right or to one with the same defect as before. */
  lemma {:induction false} SoftChanges(states: seq<State>, changes: seq<Change>, k: nat)
    requires Run(states, changes) && k < |changes| && states[k + 1] != states[k]
    ensures Possible(states[k], states[k + 1])
    ensures !changes[k].hard ==> Permitted(changes[k].env, states[k], states[k + 1])
    ensures !changes[k].hard ==>
      Sane(changes[k].env, states[k + 1])
      || ValidState(changes[k].env, states[k + 1]) == ValidState(changes[k].env, states[k]) < SS_SUCCESS
  {
    assert Happens(states, changes, k);
    var c := changes[k];
    StoredExact(c.env, states[k], c.req, c.hard);
    ValidStateExact(c.env, states[k + 1]);
  }

  /** A node that a soft change makes Primary has good data on one side, and locally if it is alone,
      unless it was in the same trouble before. */
  lemma {:induction false} NewPrimary(states: seq<State>, changes: seq<Change>, k: nat)
    requires Run(states, changes) && k < |changes| && !changes[k].hard
    requires states[k].role != R_PRIMARY && states[k + 1].role == R_PRIMARY
    ensures var s := states[k + 1];
      || (s.disk == UP_TO_DATE || (s.pdsk == UP_TO_DATE && s.conn >= CONNECTED))
      || ValidState(changes[k].env, s) == ValidState(changes[k].env, states[k]) < SS_SUCCESS
  {
    SoftChanges(states, changes, k);
  }

  /** An unconnected Secondary may outdate its good disk. */
  lemma {:induction false} OutdateStored(env: Env, os: State)
    requires os.role == R_SECONDARY && os.conn < CONNECTED && os.disk == UP_TO_DATE && !env.inUse && !env.stateSent
    requires Settled(env, os)
    ensures SetState(env, os, os.(disk := OUTDATED), false) == (os.(disk := OUTDATED), SS_SUCCESS)
  {
    var ns := os.(disk := OUTDATED);
    SettledStays(env, os, ns);
    assert Suspend(env, os, ns) == ns;
    ValidStateExact(env, ns);
    assert ValidState(env, ns) == SS_SUCCESS;
  }

  /** ... and a bad one it may not. */
  lemma {:induction false} OutdateRefused(env: Env, os: State)
    requires os.conn < CONNECTED && os.disk in {DISKLESS, FAILED, INCONSISTENT} && Settled(env, os)
    ensures SetState(env, os, os.(disk := OUTDATED), false).0 == os
    ensures SetState(env, os, os.(disk := OUTDATED), false).1 < SS_SUCCESS
  {
    var ns := os.(disk := OUTDATED);
    SettledStays(env, os, ns);
    SoftTransitionExact(env, os, Suspend(env, os, ns));
    StoredExact(env, os, ns, false);
  }

  // ----- sanitize_state -----

  /** The disk states of each connection state. */
  predicate DisksFit(s: State) {
    && (s.conn < CONNECTED ==> INCONSISTENT <= s.pdsk <= UNKNOWN)
    && (s.conn in {STARTING_SYNC_S, WF_BITMAP_S, SYNC_SOURCE, PAUSED_SYNC_S, AHEAD} ==>
          s.disk == UP_TO_DATE && INCONSISTENT <= s.pdsk < UP_TO_DATE)
    && (s.conn in {STARTING_SYNC_T, WF_BITMAP_T, WF_SYNC_UUID, SYNC_TARGET, PAUSED_SYNC_T, BEHIND} ==>
          s.disk in {INCONSISTENT, OUTDATED} && s.pdsk == UP_TO_DATE)
    && (s.conn == SYNC_SOURCE ==> s.pdsk == INCONSISTENT)
    && (s.conn == SYNC_TARGET ==> s.disk == INCONSISTENT)
    && (s.conn in {VERIFY_S, VERIFY_T} ==> s.disk == UP_TO_DATE == s.pdsk)
  }

  lemma {:induction false} BoundsMean(s: State)
    ensures InBounds(s) <==> DisksFit(s)
  {}

  /** Nothing is left to correct. */
  predicate Settled(env: Env, s: State) {
    && (s.conn < CONNECTED ==> s.peer == R_UNKNOWN && !s.peerIsp)
    && (s.conn < CONNECTED && env.negotiatingLdev ==> s.disk != NEGOTIATING)
    && (s.conn == STANDALONE && s.disk == DISKLESS && s.role == R_SECONDARY ==> !s.aftrIsp)
    && (s.conn > CONNECTED ==> s.disk > FAILED && s.pdsk > FAILED)
    && Raised(s) && InBounds(s) && PausedRight(s)
  }

  lemma {:induction false} FrontStays(env: Env, ns: State)
    requires Settled(env, ns)
    ensures LoseNegotiation(env, AbortResync(Unconfigure(LosePeer(ns)))) == ns
  {}

  lemma {:induction false} ClampBack(d: Disk, lo: Disk, hi: Disk)
    requires lo <= d <= hi
    ensures Clamp(d, lo, hi) == d && ((d in {OUTDATED, CONSISTENT} ==> d == hi) ==> Clamp(Upgrade(d), lo, hi) == d)
  {}

  lemma {:induction false} ClampStays(ns: State)
    requires InBounds(ns) && Raised(ns)
    ensures ClampDisks(UpgradeDisks(ns)) == ns
  {
    var r := RangeOf(ns.conn);
    ClampBack(ns.disk, r.diskMin, r.diskMax);
    ClampBack(ns.pdsk, r.pdskMin, r.pdskMax);
    assert UpgradeDisks(ns).conn == ns.conn;
  }

  lemma {:induction false} PauseStays(s: State)
    requires PausedRight(s)
    ensures PauseOrResume(s) == s
  {}

  /** Such a state stays as it is, but for the suspension of I/O. */
  lemma {:induction false} SettledStays(env: Env, os: State, ns: State)
    requires Settled(env, ns)
    ensures Sanitize(env, os, ns) == Suspend(env, os, ns)
  {
    FrontStays(env, ns);
    ClampStays(ns);
    PauseStays(Suspend(env, os, ns));
  }

  /** The peer is lost while an attach is being negotiated. */
  predicate Negotiates(env: Env, ns: State) { ns.conn < CONNECTED && ns.disk == NEGOTIATING && env.negotiatingLdev }

  lemma {:induction false} FrontSettles(env: Env, ns: State)
    requires !Negotiates(env, ns)
    ensures var t := LoseNegotiation(env, AbortResync(Unconfigure(LosePeer(ns))));
      && (t.conn < CONNECTED ==> t.peer == R_UNKNOWN && !t.peerIsp)
      && (t.conn < CONNECTED && env.negotiatingLdev ==> t.disk != NEGOTIATING)
      && (t.conn == STANDALONE && t.disk == DISKLESS && t.role == R_SECONDARY ==> !t.aftrIsp)
  {}

  lemma {:induction false} ClampFrame(t: State)
    ensures var u := ClampDisks(UpgradeDisks(t));
      u == t.(disk := u.disk, pdsk := u.pdsk) && (t.conn < CONNECTED ==> u.disk == t.disk)
  {}

  lemma {:induction false} PauseFrame(s: State)
    ensures var t := PauseOrResume(s);
      && t == s.(conn := t.conn) && (t.conn < CONNECTED || s.conn < CONNECTED ==> t.conn == s.conn)
      && (t.conn == s.conn
          || (s.Pause() && (t.conn, s.conn) in {(PAUSED_SYNC_S, SYNC_SOURCE), (PAUSED_SYNC_T, SYNC_TARGET)})
          || (!s.Pause() && (t.conn, s.conn) in {(SYNC_SOURCE, PAUSED_SYNC_S), (SYNC_TARGET, PAUSED_SYNC_T)}))
  {}

  lemma {:induction false} BackSettles(env: Env, os: State, t: State)
    ensures var s := PauseOrResume(Suspend(env, os, ClampDisks(UpgradeDisks(t))));
      && (t.conn < CONNECTED ==> s.conn == t.conn && s.disk == t.disk)
      && s.role == t.role && s.peer == t.peer && s.peerIsp == t.peerIsp && s.aftrIsp == t.aftrIsp
      && (s.conn < CONNECTED ==> t.conn < CONNECTED)
  {
    ClampFrame(t);
    PauseFrame(Suspend(env, os, ClampDisks(UpgradeDisks(t))));
  }

  /** Good as the resync allows. */
  predicate Raised(s: State) {
    CONNECTED <= s.conn < AHEAD ==>
      && (s.disk in {OUTDATED, CONSISTENT} ==> s.disk == RangeOf(s.conn).diskMax)
      && (s.pdsk in {OUTDATED, CONSISTENT} ==> s.pdsk == RangeOf(s.conn).pdskMax)
  }

  lemma {:induction false} ClampRaises(t: State)
    ensures Raised(ClampDisks(UpgradeDisks(t)))
  {}

  lemma {:induction false} PauseRaised(s: State)
    requires Raised(s) && InBounds(s) && InBounds(PauseOrResume(s))
    ensures Raised(PauseOrResume(s))
  {
    PauseFrame(s);
    var t := PauseOrResume(s);
    if t.conn != s.conn { assert t.disk in {INCONSISTENT, UP_TO_DATE} && t.pdsk in {INCONSISTENT, UP_TO_DATE}; }
  }

  lemma {:induction false} UpgradedOrMax(env: Env, os: State, t: State)
    ensures var s := PauseOrResume(Suspend(env, os, ClampDisks(UpgradeDisks(t)))); InBounds(s) ==> Raised(s)
  {
    var u := ClampDisks(UpgradeDisks(t));
    ClampRaises(t);
    ClampBounds(t);
    var v := Suspend(env, os, u);
    if InBounds(PauseOrResume(v)) { PauseRaised(v); }
  }

  lemma {:induction false} BoundsAlive(s: State)
    requires InBounds(s) && s.conn > CONNECTED
    ensures s.disk > FAILED && s.pdsk > FAILED
  {}

  /** A settled state from its parts. */
  lemma {:induction false} PartsSettle(env: Env, t: State, s: State)
    requires InBounds(s) && PausedRight(s) && Raised(s)
    requires s.role == t.role && s.peer == t.peer && s.peerIsp == t.peerIsp && s.aftrIsp == t.aftrIsp
    requires s.conn < CONNECTED ==> s.conn == t.conn && s.disk == t.disk
    requires t.conn < CONNECTED ==> t.peer == R_UNKNOWN && !t.peerIsp
    requires t.conn < CONNECTED && env.negotiatingLdev ==> t.disk != NEGOTIATING
    requires t.conn == STANDALONE && t.disk == DISKLESS && t.role == R_SECONDARY ==> !t.aftrIsp
    ensures Settled(env, s)
  {
    if s.conn > CONNECTED { BoundsAlive(s); }
  }

  /** Sanitising settles every request, but for the exceptional family and for what comes out of a
      lost negotiation. */
  lemma {:induction false} SanitizeSettles(env: Env, os: State, ns: State)
    requires !Negotiates(env, ns)
    ensures Settled(env, Sanitize(env, os, ns)) <==> !ResumesTooGood(ns)
  {
    var t := LoseNegotiation(env, AbortResync(Unconfigure(LosePeer(ns))));
    SanitizeBounds(env, os, ns);
    FrontSettles(env, ns);
    BackSettles(env, os, t);
    UpgradedOrMax(env, os, t);
    if !ResumesTooGood(ns) { PartsSettle(env, t, Sanitize(env, os, ns)); }
  }

  /** A lost negotiation takes the disk states that attaching had found, if the generation is
      the exposed one, and else the disk away. */
  lemma {:induction false} NegotiationLost(env: Env, os: State, ns: State)
    requires Negotiates(env, ns)
    ensures Sanitize(env, os, ns).disk == if env.edUuidCurrent then env.tmpDisk else DISKLESS
    ensures env.edUuidCurrent && INCONSISTENT <= env.tmpPdsk <= UNKNOWN ==> Sanitize(env, os, ns).pdsk == env.tmpPdsk
    ensures !env.edUuidCurrent ==> Sanitize(env, os, ns).pdsk == UNKNOWN
  {
    var t := LoseNegotiation(env, AbortResync(Unconfigure(LosePeer(ns))));
    assert t.conn == ns.conn && t.disk == if env.edUuidCurrent then env.tmpDisk else DISKLESS;
    BackSettles(env, os, t);
  }

  /** What sanitising may change: the connection only to abort, pause or resume a resync, and the
      role of this node never. */
  lemma {:induction false} SanitizeFrame(env: Env, os: State, ns: State)
    ensures var s := Sanitize(env, os, ns);
      && s.role == ns.role && s.userIsp == ns.userIsp && s.susp == ns.susp
      && (s.conn == ns.conn
          || (s.conn == CONNECTED && ns.conn > CONNECTED && (ns.disk <= FAILED || ns.pdsk <= FAILED))
          || (s.Pause() && (s.conn, ns.conn) in {(PAUSED_SYNC_S, SYNC_SOURCE), (PAUSED_SYNC_T, SYNC_TARGET)})
          || (!s.Pause() && (s.conn, ns.conn) in {(SYNC_SOURCE, PAUSED_SYNC_S), (SYNC_TARGET, PAUSED_SYNC_T)}))
      && (ns.conn >= CONNECTED ==> s.peer == ns.peer && s.peerIsp == ns.peerIsp)
  {
    var t := LoseNegotiation(env, AbortResync(Unconfigure(LosePeer(ns))));
    FrontFrame(env, ns);
    ClampFrame(t);
    PauseFrame(Suspend(env, os, ClampDisks(UpgradeDisks(t))));
  }

  lemma {:induction false} LosePeerFrame(ns: State)
    ensures var a := LosePeer(ns);
      a == ns || (ns.conn < CONNECTED && a == ns.(peerIsp := false, peer := R_UNKNOWN, pdsk := a.pdsk))
  {}

  lemma {:induction false} AbortFrame(b: State)
    ensures var c := AbortResync(b);
      c == b || (b.conn > CONNECTED && (b.disk <= FAILED || b.pdsk <= FAILED) && c == b.(conn := CONNECTED))
  {}

  lemma {:induction false} NegotiationFrame(env: Env, c: State)
    ensures var d := LoseNegotiation(env, c); d == c.(disk := d.disk, pdsk := d.pdsk)
  {}

  lemma {:induction false} FrontFrame(env: Env, ns: State)
    ensures var t := LoseNegotiation(env, AbortResync(Unconfigure(LosePeer(ns))));
      && t.role == ns.role && t.userIsp == ns.userIsp
      && t.susp == ns.susp && t.suspFen == ns.suspFen && t.suspNod == ns.suspNod
      && (t.conn == ns.conn
          || (t.conn == CONNECTED && ns.conn > CONNECTED && (ns.disk <= FAILED || ns.pdsk <= FAILED)))
      && (ns.conn >= CONNECTED ==> t.peer == ns.peer && t.peerIsp == ns.peerIsp)
  {
    var a := LosePeer(ns);
    var b := Unconfigure(a);
    var c := AbortResync(b);
    LosePeerFrame(ns);
    AbortFrame(b);
    NegotiationFrame(env, c);
    assert b == a.(aftrIsp := b.aftrIsp);
  }

  /** Without a peer its disk state is kept if it may be, and else unknown. */
  lemma {:induction false} PeerDisk(env: Env, os: State, ns: State)
    requires ns.conn < CONNECTED && !Negotiates(env, ns)
    ensures Sanitize(env, os, ns).pdsk == if INCONSISTENT <= ns.pdsk <= UNKNOWN then ns.pdsk else UNKNOWN
    ensures Sanitize(env, os, ns).disk == ns.disk && Sanitize(env, os, ns).conn == ns.conn
  {
    var t := LoseNegotiation(env, AbortResync(Unconfigure(LosePeer(ns))));
    FrontAlone(env, ns);
    ClampAlone(t);
    PauseFrame(Suspend(env, os, ClampDisks(UpgradeDisks(t))));
  }

  lemma {:induction false} FrontAlone(env: Env, ns: State)
    requires ns.conn < CONNECTED && !Negotiates(env, ns)
    ensures var t := LoseNegotiation(env, AbortResync(Unconfigure(LosePeer(ns))));
      && t.conn == ns.conn && t.disk == ns.disk
      && t.pdsk == if INCONSISTENT <= ns.pdsk <= UNKNOWN then ns.pdsk else UNKNOWN
  {
    var a := LosePeer(ns);
    var b := Unconfigure(a);
    assert b == a.(aftrIsp := b.aftrIsp);
    assert AbortResync(b) == b && LoseNegotiation(env, b) == b;
  }

  lemma {:induction false} ClampAlone(t: State)
    requires t.conn < CONNECTED && INCONSISTENT <= t.pdsk <= UNKNOWN
    ensures ClampDisks(UpgradeDisks(t)) == t
  {
    ClampStays(t);
  }

  function Raise(d: Disk): Disk { if d in {OUTDATED, CONSISTENT} then UP_TO_DATE else d }
  function Nearest(d: Disk, lo: Disk, hi: Disk): Disk
    requires lo <= hi
  {
    if d <= lo then lo else if d >= hi then hi else d
  }

  /** With a peer both disks are raised and then brought to the nearest state in bounds. */
  lemma {:induction false} BothDisks(env: Env, os: State, ns: State)
    requires CONNECTED <= ns.conn < AHEAD && (ns.conn > CONNECTED ==> ns.disk > FAILED && ns.pdsk > FAILED)
    ensures var s, r := Sanitize(env, os, ns), RangeOf(ns.conn);
      && s.disk == Nearest(Raise(ns.disk), r.diskMin, r.diskMax)
      && s.pdsk == Nearest(Raise(ns.pdsk), r.pdskMin, r.pdskMax)
  {
    assert LoseNegotiation(env, AbortResync(Unconfigure(LosePeer(ns)))) == ns;
    PauseFrame(Suspend(env, os, ClampDisks(UpgradeDisks(ns))));
  }

  // ----- suspended I/O -----

  predicate PrimaryAlone(s: State) {
    s.role == R_PRIMARY && s.conn < CONNECTED && s.pdsk in {UNKNOWN, CONSISTENT, UP_TO_DATE}
  }
  predicate PrimaryBlind(s: State) { s.role == R_PRIMARY && s.disk != UP_TO_DATE && s.pdsk != UP_TO_DATE }

  /** I/O is suspended, besides on request, exactly when a Primary newly loses a peer that is not
      outdated and fencing is by stonith, or newly loses its last good disk and was told so. */
  lemma {:induction false} IoSuspended(env: Env, os: State, ns: State)
    ensures var s := Sanitize(env, os, ns);
      && (s.suspFen <==> ns.suspFen || (env.fencing == Stonith && PrimaryAlone(s) && !PrimaryAlone(os)))
      && (s.suspNod <==> ns.suspNod || (env.suspendOnNoData && PrimaryBlind(s) && !PrimaryBlind(os)))
  {
    var t := LoseNegotiation(env, AbortResync(Unconfigure(LosePeer(ns))));
    FrontFrame(env, ns);
    ClampFrame(t);
    SuspendFrame(env, os, ClampDisks(UpgradeDisks(t)));
  }

  lemma {:induction false} SuspendFrame(env: Env, os: State, u: State)
    ensures var s := PauseOrResume(Suspend(env, os, u));
      && (s.suspFen <==> u.suspFen || (env.fencing == Stonith && PrimaryAlone(s) && !PrimaryAlone(os)))
      && (s.suspNod <==> u.suspNod || (env.suspendOnNoData && PrimaryBlind(s) && !PrimaryBlind(os)))
  {
    var s := PauseOrResume(Suspend(env, os, u));
    PauseFrame(Suspend(env, os, u));
    assert PrimaryAlone(s) == PeerLost(u) && PrimaryAlone(os) == PeerLost(os);
    assert PrimaryBlind(s) == NoData(u) && PrimaryBlind(os) == NoData(os);
  }
}
