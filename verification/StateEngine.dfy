/** The device state engine of drbd_state.c: every requested change is first sanitised, then
    checked, and only then stored. */
module StateEngine {

  /** enum drbd_role, enum drbd_conns, enum drbd_disk_state: their order matters */
  type Role = x: nat | x < 3
  const R_UNKNOWN: Role := 0
  const R_PRIMARY: Role := 1
  const R_SECONDARY: Role := 2

  type Conn = x: nat | x < 24
  const STANDALONE: Conn := 0
  const DISCONNECTING: Conn := 1
  const UNCONNECTED: Conn := 2
  const TIMEOUT: Conn := 3
  const TEAR_DOWN: Conn := 7
  const WF_CONNECTION: Conn := 8
  const WF_REPORT_PARAMS: Conn := 9
  const CONNECTED: Conn := 10
  const STARTING_SYNC_S: Conn := 11
  const STARTING_SYNC_T: Conn := 12
  const WF_BITMAP_S: Conn := 13
  const WF_BITMAP_T: Conn := 14
  const WF_SYNC_UUID: Conn := 15
  const SYNC_SOURCE: Conn := 16
  const SYNC_TARGET: Conn := 17
  const VERIFY_S: Conn := 18
  const VERIFY_T: Conn := 19
  const PAUSED_SYNC_S: Conn := 20
  const PAUSED_SYNC_T: Conn := 21
  const AHEAD: Conn := 22
  const BEHIND: Conn := 23

  type Disk = x: nat | x < 9
  const DISKLESS: Disk := 0
  const ATTACHING: Disk := 1
  const FAILED: Disk := 2
  const NEGOTIATING: Disk := 3
  const INCONSISTENT: Disk := 4
  const OUTDATED: Disk := 5
  const UNKNOWN: Disk := 6
  const CONSISTENT: Disk := 7
  const UP_TO_DATE: Disk := 8

  /** union drbd_state */
  datatype State = State(role: Role, peer: Role, conn: Conn, disk: Disk, pdsk: Disk,
                         aftrIsp: bool, peerIsp: bool, userIsp: bool, susp: bool, suspNod: bool, suspFen: bool) {
    predicate Pause() { aftrIsp || peerIsp || userIsp }
  }

  datatype Fencing = DontCare | Resource | Stonith

  /** What the checks read besides the states: configuration, and what attaching had found out. */
  datatype Env = Env(fencing: Fencing, suspendOnNoData: bool, negotiatingLdev: bool, edUuidCurrent: bool,
      tmpDisk: Disk, tmpPdsk: Disk,
                     netConf: bool, twoPrimaries: bool, otherPeerPrimary: bool, inUse: bool,
                     verifyAlg: bool, version: nat, stateSent: bool)

  // ----- sanitize_state -----

  function Clamp(d: Disk, lo: Disk, hi: Disk): (r: Disk)
    requires lo <= hi
    ensures lo <= r <= hi
  {
    if d > hi then hi else if d < lo then lo else d
  }

  /** disk_min, disk_max, pdsk_min, pdsk_max */
  datatype Range = Range(diskMin: Disk, diskMax: Disk, pdskMin: Disk, pdskMax: Disk) {
    predicate Holds(s: State) { diskMin <= s.disk <= diskMax && pdskMin <= s.pdsk <= pdskMax }
  }

  function RangeOf(c: Conn): (r: Range)
    ensures r.diskMin <= r.diskMax && r.pdskMin <= r.pdskMax
  {
    if c in {WF_BITMAP_T, PAUSED_SYNC_T, STARTING_SYNC_T, WF_SYNC_UUID, BEHIND} then
      Range(INCONSISTENT, OUTDATED, UP_TO_DATE, UP_TO_DATE)
    else if c in {VERIFY_S, VERIFY_T} then Range(UP_TO_DATE, UP_TO_DATE, UP_TO_DATE, UP_TO_DATE)
    else if c == CONNECTED then Range(DISKLESS, UP_TO_DATE, DISKLESS, UP_TO_DATE)
    else if c in {WF_BITMAP_S, PAUSED_SYNC_S, STARTING_SYNC_S, AHEAD} then
      Range(UP_TO_DATE, UP_TO_DATE, INCONSISTENT, CONSISTENT)
    else if c == SYNC_TARGET then Range(INCONSISTENT, INCONSISTENT, UP_TO_DATE, UP_TO_DATE)
    else if c == SYNC_SOURCE then Range(UP_TO_DATE, UP_TO_DATE, INCONSISTENT, INCONSISTENT)
    else Range(DISKLESS, UP_TO_DATE, INCONSISTENT, UNKNOWN)
  }

  function LosePeer(ns: State): State {
    if ns.conn < CONNECTED then
      ns.(peerIsp := false, peer := R_UNKNOWN,
          pdsk := if ns.pdsk > UNKNOWN || ns.pdsk < INCONSISTENT then UNKNOWN else ns.pdsk)
    else ns
  }

  function Unconfigure(ns: State): State {
    if ns.conn == STANDALONE && ns.disk == DISKLESS && ns.role == R_SECONDARY then ns.(aftrIsp := false) else ns
  }

  function AbortResync(ns: State): State {
    if ns.conn > CONNECTED && (ns.disk <= FAILED || ns.pdsk <= FAILED) then ns.(conn := CONNECTED) else ns
  }

  function LoseNegotiation(env: Env, ns: State): State {
    if ns.conn < CONNECTED && ns.disk == NEGOTIATING && env.negotiatingLdev then
      if env.edUuidCurrent then ns.(disk := env.tmpDisk, pdsk := env.tmpPdsk)
      else ns.(disk := DISKLESS, pdsk := UNKNOWN)
    else ns
  }

  function Upgrade(d: Disk): Disk { if d == CONSISTENT || d == OUTDATED then UP_TO_DATE else d }

  function UpgradeDisks(ns: State): State {
    if CONNECTED <= ns.conn < AHEAD then ns.(disk := Upgrade(ns.disk), pdsk := Upgrade(ns.pdsk)) else ns
  }

  function ClampDisks(ns: State): State {
    var r := RangeOf(ns.conn);
    ns.(disk := Clamp(ns.disk, r.diskMin, r.diskMax), pdsk := Clamp(ns.pdsk, r.pdskMin, r.pdskMax))
  }

  predicate PeerLost(s: State) { s.role == R_PRIMARY && s.conn < CONNECTED && s.pdsk > OUTDATED }
  predicate NoData(s: State) { s.role == R_PRIMARY && s.disk < UP_TO_DATE && s.pdsk < UP_TO_DATE }

  function Suspend(env: Env, os: State, ns: State): State {
    ns.(suspFen := ns.suspFen || (env.fencing == Stonith && PeerLost(ns) && !PeerLost(os)),
        suspNod := ns.suspNod || (env.suspendOnNoData && NoData(ns) && !NoData(os)))
  }

  function PauseOrResume(ns: State): State {
    if ns.Pause() then
      if ns.conn == SYNC_SOURCE then ns.(conn := PAUSED_SYNC_S)
      else if ns.conn == SYNC_TARGET then ns.(conn := PAUSED_SYNC_T)
      else ns
    else if ns.conn == PAUSED_SYNC_S then ns.(conn := SYNC_SOURCE)
    else if ns.conn == PAUSED_SYNC_T then ns.(conn := SYNC_TARGET)
    else ns
  }

  function Sanitize(env: Env, os: State, ns: State): State {
    PauseOrResume(Suspend(env, os,
      ClampDisks(UpgradeDisks(LoseNegotiation(env, AbortResync(Unconfigure(LosePeer(ns))))))))
  }

  // ----- what a sanitised state promises -----

  predicate InBounds(s: State) { RangeOf(s.conn).Holds(s) }

  /** Paused exactly when a pause bit is set during resync. */
  predicate PausedRight(s: State) {
    && (s.conn in {SYNC_SOURCE, SYNC_TARGET} ==> !s.Pause())
    && (s.conn in {PAUSED_SYNC_S, PAUSED_SYNC_T} ==> s.Pause())
  }

  predicate TooGood(s: State) {
    (s.conn == PAUSED_SYNC_T && s.disk > INCONSISTENT) || (s.conn == PAUSED_SYNC_S && s.pdsk > INCONSISTENT)
  }

  /** The request names a paused resync without a reason to pause, and the disk that is being
      synced is not inconsistent. */
  predicate ResumesTooGood(ns: State) {
    && !ns.Pause() && ns.disk > FAILED && ns.pdsk > FAILED
    && TooGood(ns)
  }

  /** Sanitising brings every request into the bounds of its connection state, with one family of
      exceptions: the bounds are taken before a paused resync is resumed. */
  lemma {:induction false} SanitizeBounds(env: Env, os: State, ns: State)
    ensures InBounds(Sanitize(env, os, ns)) <==> !ResumesTooGood(ns)
    ensures PausedRight(Sanitize(env, os, ns))
  {
    var t := LoseNegotiation(env, AbortResync(Unconfigure(LosePeer(ns))));
    BeforeClamp(env, ns);
    ClampBounds(t);
    AfterClamp(Suspend(env, os, ClampDisks(UpgradeDisks(t))));
  }

  lemma {:induction false} ClampBounds(t: State)
    ensures var u := ClampDisks(UpgradeDisks(t));
      && InBounds(u) && u.conn == t.conn && u.Pause() == t.Pause()
      && (t.conn == PAUSED_SYNC_T ==> (u.disk > INCONSISTENT <==> t.disk > INCONSISTENT))
      && (t.conn == PAUSED_SYNC_S ==> (u.pdsk > INCONSISTENT <==> t.pdsk > INCONSISTENT))
  {}

  lemma {:induction false} AfterClamp(u: State)
    requires InBounds(u)
    ensures var r := PauseOrResume(u);
      && PausedRight(r)
      && (InBounds(r) <==> u.Pause() || !TooGood(u))
  {}

  lemma {:induction false} BeforeClamp(env: Env, ns: State)
    ensures var t := LoseNegotiation(env, AbortResync(Unconfigure(LosePeer(ns))));
      && (t.conn in {PAUSED_SYNC_S, PAUSED_SYNC_T} ==>
            t.conn == ns.conn && t.disk == ns.disk && t.pdsk == ns.pdsk && t.Pause() == ns.Pause()
            && t.disk > FAILED && t.pdsk > FAILED)
      && (ns.conn in {PAUSED_SYNC_S, PAUSED_SYNC_T} && ns.disk > FAILED && ns.pdsk > FAILED ==> t.conn == ns.conn)
  {}

  /** A state that is sanitised again is always in bounds; drbd_req_state does so unless the
      change is cluster wide. */
  lemma {:induction false} SanitizeTwice(env: Env, os: State, ns: State)
    ensures InBounds(Sanitize(env, os, Sanitize(env, os, ns)))
  {
    SanitizeBounds(env, os, ns);
    SanitizeBounds(env, os, Sanitize(env, os, ns));
  }

  // ----- the checks -----

  const SS_NOTHING_TO_DO: int := 2
  const SS_SUCCESS: int := 1
  const SS_TWO_PRIMARIES: int := -1
  const SS_NO_UP_TO_DATE_DISK: int := -2
  const SS_NO_LOCAL_DISK: int := -4
  const SS_NO_REMOTE_DISK: int := -5
  const SS_CONNECTED_OUTDATES: int := -6
  const SS_PRIMARY_NOP: int := -7
  const SS_RESYNC_RUNNING: int := -8
  const SS_ALREADY_STANDALONE: int := -9
  const SS_IS_DISKLESS: int := -11
  const SS_DEVICE_IN_USE: int := -12
  const SS_NO_NET_CONFIG: int := -13
  const SS_NO_VERIFY_ALG: int := -14
  const SS_NEED_CONNECTION: int := -15
  const SS_LOWER_THAN_OUTDATED: int := -16
  const SS_NOT_SUPPORTED: int := -17
  const SS_IN_TRANSIENT_STATE: int := -18
  const SS_O_VOL_PEER_PRI: int := -20
  const SS_OUTDATE_WO_CONN: int := -21

  /** is_valid_state */
  function ValidState(env: Env, ns: State): int {
    if env.netConf && !env.twoPrimaries && ns.role == R_PRIMARY && ns.peer == R_PRIMARY then SS_TWO_PRIMARIES
    else if env.netConf && !env.twoPrimaries && ns.role == R_PRIMARY && env.otherPeerPrimary then SS_O_VOL_PEER_PRI
    else if ns.role == R_SECONDARY && env.inUse then SS_DEVICE_IN_USE
    else if ns.role == R_PRIMARY && ns.conn < CONNECTED && ns.disk < UP_TO_DATE then SS_NO_UP_TO_DATE_DISK
    else if env.fencing != DontCare && ns.role == R_PRIMARY && ns.conn < CONNECTED
      && ns.pdsk >= UNKNOWN then SS_PRIMARY_NOP
    else if ns.role == R_PRIMARY && ns.disk <= INCONSISTENT && ns.pdsk <= INCONSISTENT then SS_NO_UP_TO_DATE_DISK
    else if ns.conn > CONNECTED && ns.disk < INCONSISTENT then SS_NO_LOCAL_DISK
    else if ns.conn > CONNECTED && ns.pdsk < INCONSISTENT then SS_NO_REMOTE_DISK
    else if ns.conn > CONNECTED && ns.disk < UP_TO_DATE && ns.pdsk < UP_TO_DATE then SS_NO_UP_TO_DATE_DISK
    else if ns.conn in {CONNECTED, WF_BITMAP_S, SYNC_SOURCE, PAUSED_SYNC_S} && ns.disk == OUTDATED then
      SS_CONNECTED_OUTDATES
    else if ns.conn in {VERIFY_S, VERIFY_T} && !env.verifyAlg then SS_NO_VERIFY_ALG
    else if ns.conn in {VERIFY_S, VERIFY_T} && env.version < 88 then SS_NOT_SUPPORTED
    else if ns.role == R_PRIMARY && ns.disk < UP_TO_DATE && ns.pdsk < UP_TO_DATE then SS_NO_UP_TO_DATE_DISK
    else if ns.conn in {STARTING_SYNC_S, STARTING_SYNC_T} && ns.pdsk == UNKNOWN then SS_NEED_CONNECTION
    else if ns.conn >= CONNECTED && ns.pdsk == UNKNOWN then SS_CONNECTED_OUTDATES
    else SS_SUCCESS
  }

  /** is_valid_soft_transition; of several reasons the last one counts */
  function ValidSoftTransition(env: Env, os: State, ns: State): int {
    if ns.conn == DISCONNECTING && ns.pdsk == OUTDATED && os.conn < CONNECTED
      && os.pdsk > OUTDATED then SS_OUTDATE_WO_CONN
    else if ns.conn in {SYNC_TARGET, SYNC_SOURCE} && os.conn < WF_REPORT_PARAMS then SS_NEED_CONNECTION
    else if ns.conn in {STARTING_SYNC_S, STARTING_SYNC_T} && os.conn < CONNECTED then SS_NEED_CONNECTION
    else if ns.conn in {VERIFY_S, VERIFY_T} && ns.conn != os.conn && os.conn > CONNECTED then SS_RESYNC_RUNNING
    else if ns.conn in {VERIFY_S, VERIFY_T} && os.conn < CONNECTED then SS_NEED_CONNECTION
    else if env.stateSent
      && !(os.conn == WF_REPORT_PARAMS || (ns.conn == WF_REPORT_PARAMS && os.conn == WF_CONNECTION))
      then SS_IN_TRANSIENT_STATE
    else if ns.conn == DISCONNECTING && os.conn == UNCONNECTED then SS_IN_TRANSIENT_STATE
    else if ns.disk == OUTDATED && os.disk < OUTDATED && os.disk != ATTACHING then SS_LOWER_THAN_OUTDATED
    else if ns.conn == WF_CONNECTION && os.conn < UNCONNECTED then SS_NO_NET_CONFIG
    else if ns.disk > ATTACHING && os.disk == DISKLESS then SS_IS_DISKLESS
    else if ns.conn == DISCONNECTING && os.conn == STANDALONE then SS_ALREADY_STANDALONE
    else if ns.conn in {STARTING_SYNC_T, STARTING_SYNC_S} && os.conn > CONNECTED then SS_RESYNC_RUNNING
    else SS_SUCCESS
  }

  /** is_valid_conn_transition */
  function ValidConnTransition(oc: Conn, nc: Conn): int {
    if oc == nc then SS_NOTHING_TO_DO
    else if oc == STANDALONE && nc == DISCONNECTING then SS_ALREADY_STANDALONE
    else if oc == STANDALONE && nc != UNCONNECTED then SS_NEED_CONNECTION
    else if oc < WF_REPORT_PARAMS && nc >= CONNECTED then SS_NEED_CONNECTION
    else if TIMEOUT <= oc <= TEAR_DOWN && nc != UNCONNECTED && nc != DISCONNECTING then SS_IN_TRANSIENT_STATE
    else if oc == DISCONNECTING && nc != STANDALONE then SS_IN_TRANSIENT_STATE
    else SS_SUCCESS
  }

  /** is_valid_transition */
  function ValidTransition(os: State, ns: State): int {
    if ns.disk == FAILED && os.disk == DISKLESS then SS_IS_DISKLESS else ValidConnTransition(os.conn, ns.conn)
  }

  /** __drbd_set_state: the stored state and the return value */
  function SetState(env: Env, os: State, req: State, hard: bool): (r: (State, int)) {
    var ns := Sanitize(env, os, req);
    if ns == os then (os, SS_NOTHING_TO_DO)
    else
      var rv := ValidTransition(os, ns);
      if rv < SS_SUCCESS then (os, rv)
      else if hard then (ns, rv)
      else
        var vs := ValidState(env, ns);
        var soft := if vs < SS_SUCCESS && ValidState(env, os) != vs then vs else ValidSoftTransition(env, os, ns);
        if soft < SS_SUCCESS then (os, soft) else (ns, soft)
  }

  // ----- runs, with forced changes -----

  datatype Change = Change(env: Env, req: State, hard: bool)

  predicate Run(states: seq<State>, changes: seq<Change>) {
    && |states| == |changes| + 1
    && forall k :: 0 <= k < |changes| ==> Happens(states, changes, k)
  }

  predicate Happens(states: seq<State>, changes: seq<Change>, k: nat)
    requires |states| == |changes| + 1 && k < |changes|
  {
    states[k + 1] == SetState(changes[k].env, states[k], changes[k].req, changes[k].hard).0
  }

  function Initial(): State {
    State(R_SECONDARY, R_UNKNOWN, STANDALONE, DISKLESS, UNKNOWN, false, false, false, false, false, false)
  }

  /** The last change that took effect before state k was of the exceptional family. */
  predicate Tainted(states: seq<State>, changes: seq<Change>, k: nat)
    requires |states| == |changes| + 1 && k <= |changes|
  {
    k > 0 && if states[k] == states[k - 1] then Tainted(states, changes, k - 1) else ResumesTooGood(changes[k - 1].req)
  }

  /** Every stored state of every run is paused exactly when a pause bit is set, and it is in the
      bounds of its connection state unless the last change was of the exceptional family. */
  lemma {:induction false} RunBounds(states: seq<State>, changes: seq<Change>, k: nat)
    requires Run(states, changes) && states[0] == Initial() && k <= |changes|
    ensures PausedRight(states[k])
    ensures InBounds(states[k]) <==> !Tainted(states, changes, k)
  {
    if k > 0 {
      RunBounds(states, changes, k - 1);
      assert Happens(states, changes, k - 1);
      SanitizeBounds(changes[k - 1].env, states[k - 1], changes[k - 1].req);
    }
  }

  function Calm(): Env {
    Env(DontCare, false, false, false, UP_TO_DATE, UNKNOWN, true, false, false, false, false, 100, false)
  }

  function Synced(conn: Conn, pdsk: Disk, aftr: bool): State {
    State(R_SECONDARY, R_SECONDARY, conn, UP_TO_DATE, pdsk, aftr, false, false, false, false, false)
  }

  lemma {:induction false} Connects()
    returns (states: seq<State>, changes: seq<Change>)
    ensures |changes| == 5 && Run(states, changes) && states[0] == Initial()
    ensures states[5] == Synced(WF_REPORT_PARAMS, UNKNOWN, false).(peer := R_UNKNOWN)
    ensures forall k :: 0 <= k < |changes| ==> changes[k].req.conn < CONNECTED
  {
    var s0, env := Initial(), Calm();
    states, changes := [s0], [];
    states, changes := Accepted(states, changes, env, s0.(disk := ATTACHING));
    states, changes := Accepted(states, changes, env, s0.(disk := UP_TO_DATE));
    var s2 := s0.(disk := UP_TO_DATE);
    states, changes := Accepted(states, changes, env, s2.(conn := UNCONNECTED));
    states, changes := Accepted(states, changes, env, s2.(conn := WF_CONNECTION));
    states, changes := Accepted(states, changes, env, s2.(conn := WF_REPORT_PARAMS));
  }

  /** A request that is stored as it is. */
  lemma {:induction false} Accepted(states: seq<State>, changes: seq<Change>, env: Env, req: State)
    returns (states': seq<State>, changes': seq<Change>)
    requires Run(states, changes) && SetState(env, states[|changes|], req, false).0 == req
    ensures states' == states + [req] && changes' == changes + [Change(env, req, false)] && Run(states', changes')
  {
    Extended(states, changes, Change(env, req, false), req);
    states', changes' := states + [req], changes + [Change(env, req, false)];
  }

  lemma {:induction false} Extended(states: seq<State>, changes: seq<Change>, c: Change, s: State)
    requires Run(states, changes) && s == SetState(c.env, states[|changes|], c.req, c.hard).0
    ensures Run(states + [s], changes + [c])
  {
    forall k | 0 <= k < |changes + [c]| ensures Happens(states + [s], changes + [c], k) {
      if k < |changes| { assert Happens(states, changes, k); }
    }
  }

  /** A node attaches, connects and becomes the source of a resync that waits for another one;
      the peer reports that its disk is outdated; the wait is over.  The source of the running
      resync is then stored with a peer disk that is not inconsistent.  Only the last request is
      of the exceptional family, and none names a paused resync that is not already there. */
  lemma {:induction false} ResumesTooGoodHappens()
    returns (states: seq<State>, changes: seq<Change>)
    ensures Run(states, changes) && states[0] == Initial() && |changes| == 9
    ensures states[9].conn == SYNC_SOURCE && states[9].pdsk == CONSISTENT && !InBounds(states[9])
    ensures changes[8].req == states[8].(aftrIsp := false) && changes[7].req == states[7].(pdsk := OUTDATED)
    ensures forall k :: 0 <= k < 9 && changes[k].req.conn in {PAUSED_SYNC_S, PAUSED_SYNC_T} ==>
      states[k].conn == changes[k].req.conn
    ensures forall k :: 0 <= k < 8 ==> !ResumesTooGood(changes[k].req)
  {
    states, changes := Connects();
    var env := Calm();
    states, changes := Accepted(states, changes, env, Synced(WF_BITMAP_S, INCONSISTENT, false));
    var c6, s7 := Change(env, Synced(SYNC_SOURCE, INCONSISTENT, true), false),
        Synced(PAUSED_SYNC_S, INCONSISTENT, true);
    Extended(states, changes, c6, s7);
    states, changes := states + [s7], changes + [c6];
    var c7, s8 := Change(env, Synced(PAUSED_SYNC_S, OUTDATED, true), true), Synced(PAUSED_SYNC_S, CONSISTENT, true);
    Extended(states, changes, c7, s8);
    states, changes := states + [s8], changes + [c7];
    var c8, s9 := Change(env, Synced(PAUSED_SYNC_S, CONSISTENT, false), true), Synced(SYNC_SOURCE, CONSISTENT, false);
    Extended(states, changes, c8, s9);
    states, changes := states + [s9], changes + [c8];
  }

  /** A stored change passed the connection check, forced or not. */
  lemma {:induction false} StepConn(env: Env, os: State, req: State, hard: bool)
    ensures ValidConnTransition(os.conn, SetState(env, os, req, hard).0.conn) >= SS_SUCCESS
  {}

  predicate NetworkError(c: Conn) { TIMEOUT <= c <= TEAR_DOWN }

  /** The connection states of a run. */
  predicate Path(cs: seq<Conn>) {
    forall k :: 0 <= k < |cs| - 1 ==> Leads(cs, k)
  }
  predicate Leads(cs: seq<Conn>, k: nat)
    requires k < |cs| - 1
  {
    ValidConnTransition(cs[k], cs[k + 1]) >= SS_SUCCESS
  }

  function Conns(states: seq<State>): (cs: seq<Conn>)
    ensures |cs| == |states| && forall k :: 0 <= k < |cs| ==> cs[k] == states[k].conn
  {
    seq<Conn>(|states|, k requires 0 <= k < |states| => states[k].conn)
  }

  lemma {:induction false} RunPath(states: seq<State>, changes: seq<Change>)
    requires Run(states, changes)
    ensures Path(Conns(states))
  {
    forall k | 0 <= k < |states| - 1 ensures Leads(Conns(states), k) {
      var c := changes[k];
      assert Happens(states, changes, k);
      StepConn(c.env, states[k], c.req, c.hard);
    }
  }

  /** Until the connection is unconnected again, a network error leads nowhere. */
  lemma {:induction false} StuckUntilUnconnected(cs: seq<Conn>, i: nat, j: nat)
    requires Path(cs) && i <= j < |cs| && NetworkError(cs[i]) && forall u :: i <= u < j ==> cs[u] != UNCONNECTED
    ensures NetworkError(cs[j]) || cs[j] in {DISCONNECTING, STANDALONE, UNCONNECTED}
  {
    if i < j {
      StuckUntilUnconnected(cs, i, j - 1);
      assert Leads(cs, j - 1);
    }
  }

  /** The first of a path that is at least c. */
  lemma {:induction false} FirstAtLeast(cs: seq<Conn>, c: Conn, i: nat, j: nat) returns (k: nat)
    requires i <= j < |cs| && cs[j] >= c
    ensures i <= k <= j && cs[k] >= c && forall u :: i <= u < k ==> cs[u] < c
  {
    k := i;
    while cs[k] < c
      invariant i <= k <= j && forall u :: i <= u < k ==> cs[u] < c
      decreases j - k
    {
      k := k + 1;
    }
  }

  lemma {:induction false} PathInOrder(cs: seq<Conn>, i: nat, j: nat) returns (u: nat, w: nat)
    requires Path(cs) && i < j < |cs| && NetworkError(cs[i]) && cs[j] >= CONNECTED
    ensures i < u < w < j && cs[u] == UNCONNECTED && cs[w] == WF_REPORT_PARAMS
  {
    var first := FirstAtLeast(cs, CONNECTED, i, j);
    u := i;
    while u < first && cs[u] != UNCONNECTED
      invariant i <= u <= first && forall v :: i <= v < u ==> cs[v] != UNCONNECTED
    {
      u := u + 1;
    }
    StuckUntilUnconnected(cs, i, u);
    assert Leads(cs, first - 1);
    w := first - 1;
  }

  /** No run leads from a network error to Connected or above without passing Unconnected and
      after that WFReportParams. */
  lemma {:induction false} ReconnectInOrder(states: seq<State>, changes: seq<Change>, i: nat, j: nat)
    returns (u: nat, w: nat)
    requires Run(states, changes) && i < j <= |changes| && NetworkError(states[i].conn) && states[j].conn >= CONNECTED
    ensures i < u < w < j && states[u].conn == UNCONNECTED && states[w].conn == WF_REPORT_PARAMS
  {
    RunPath(states, changes);
    u, w := PathInOrder(Conns(states), i, j);
  }
}
