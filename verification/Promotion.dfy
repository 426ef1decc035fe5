/** Two connected nodes ask each other for the Primary role: requests travel on the data socket,
    replies on the meta socket, and either may overtake the other. */
module Promotion {
  import opened StateEngine

  /** waiting: inside drbd_req_state with state_mutex held; ok and fail are CL_ST_CHG_SUCCESS and
      CL_ST_CHG_FAIL. */
  datatype Node = Node(env: Env, s: State, resolve: bool, waiting: bool, ok: bool, fail: bool)

  /** A node with its requests that have not arrived, and the replies on the way to it. */
  datatype Side = Side(n: Node, requests: nat, replies: seq<bool>)

  datatype World = World(x: Side, y: Side) {
    function Swap(): World { World(y, x) }
  }

  function Promoted(s: State): State { s.(role := R_PRIMARY) }
  /** convert_state: what the peer's promotion is on this node */
  function PeerPromoted(s: State): State { s.(peer := R_PRIMARY) }

  /** cl_wide_st_chg, for a role change */
  predicate ClusterWide(os: State, ns: State) {
    os.conn >= CONNECTED && ns.conn >= CONNECTED && os.role != R_PRIMARY && ns.role == R_PRIMARY
  }

  /** The checks of drbd_req_state and _req_st_cond before the peer is asked and while it thinks. */
  predicate MayAsk(n: Node) {
    var ns := Sanitize(n.env, n.s, Promoted(n.s));
    && ValidTransition(n.s, ns) >= SS_SUCCESS && ClusterWide(n.s, ns)
    && ValidState(n.env, ns) == SS_SUCCESS && ValidSoftTransition(n.env, n.s, ns) >= SS_SUCCESS
  }

  /** drbd_req_state: sends the request */
  function Ask(w: World): World {
    w.(x := w.x.(n := w.x.n.(waiting := true), requests := w.x.requests + 1))
  }

  /** receive_req_state on the peer: y looks at a request of x */
  function Arrive(w: World): World
    requires w.x.requests > 0
  {
    var y := w.y.n;
    if y.resolve && y.waiting then World(w.x.(requests := w.x.requests - 1, replies := w.x.replies + [false]), w.y)
    else
      var (s, rv) := SetState(y.env, y.s, PeerPromoted(y.s), false);
      World(w.x.(requests := w.x.requests - 1, replies := w.x.replies + [rv >= SS_SUCCESS]), w.y.(n := y.(s := s)))
  }

  /** got_RqSReply */
  function GetReply(w: World): World
    requires w.x.replies != []
  {
    var n := w.x.n;
    w.(x := w.x.(replies := w.x.replies[1..], n := if w.x.replies[0] then n.(ok := true) else n.(fail := true)))
  }

  /** The end of the wait in drbd_req_state, for the reason that _req_st_cond finds first. */
  predicate Wakes(n: Node) { n.waiting && (n.ok || n.fail || !MayAsk(n)) }
  function Conclude(n: Node): Node {
    if n.ok then n.(ok := false, waiting := false, s := SetState(n.env, n.s, Promoted(n.s), false).0)
    else if n.fail then n.(fail := false, waiting := false)
    else n.(waiting := false)
  }

  datatype Step = Asks | Arrives | Replies | Concludes

  predicate NextX(w: World, step: Step, w': World) {
    match step
    case Asks => !w.x.n.waiting && MayAsk(w.x.n) && w' == Ask(w)
    case Arrives => w.x.requests > 0 && w' == Arrive(w)
    case Replies => w.x.replies != [] && w' == GetReply(w)
    case Concludes => Wakes(w.x.n) && w' == w.(x := w.x.(n := Conclude(w.x.n)))
  }

  /** A step of the node x, or of the node y. */
  predicate Next(w: World, ofX: bool, step: Step, w': World) {
    if ofX then NextX(w, step, w') else NextX(w.Swap(), step, w'.Swap())
  }

  // ----- what the state engine does to roles -----

  predicate Connected(n: Node) { n.s.conn >= CONNECTED && n.env.netConf && !n.env.twoPrimaries }

  lemma {:induction false} SanitizeKeepsRoles(env: Env, os: State, ns: State)
    requires ns.conn >= CONNECTED
    ensures var r := Sanitize(env, os, ns); r.role == ns.role && r.peer == ns.peer && r.conn >= CONNECTED
  {
    FrontKeepsRoles(env, ns);
    BackKeepsRoles(env, os, LoseNegotiation(env, AbortResync(Unconfigure(LosePeer(ns)))));
  }

  lemma {:induction false} FrontKeepsRoles(env: Env, ns: State)
    requires ns.conn >= CONNECTED
    ensures var r := LoseNegotiation(env, AbortResync(Unconfigure(LosePeer(ns))));
      r.role == ns.role && r.peer == ns.peer && r.conn >= CONNECTED
  {}

  lemma {:induction false} ClampKeepsRoles(ns: State)
    ensures var r := ClampDisks(UpgradeDisks(ns)); r.role == ns.role && r.peer == ns.peer && r.conn == ns.conn
  {}

  lemma {:induction false} ResumeKeepsRoles(ns: State)
    requires ns.conn >= CONNECTED
    ensures var r := PauseOrResume(ns); r.role == ns.role && r.peer == ns.peer && r.conn >= CONNECTED
  {}

  lemma {:induction false} BackKeepsRoles(env: Env, os: State, ns: State)
    requires ns.conn >= CONNECTED
    ensures var r := PauseOrResume(Suspend(env, os, ClampDisks(UpgradeDisks(ns))));
      r.role == ns.role && r.peer == ns.peer && r.conn >= CONNECTED
  {
    ClampKeepsRoles(ns);
    ResumeKeepsRoles(Suspend(env, os, ClampDisks(UpgradeDisks(ns))));
  }

  /** An accepted request is recorded, a refused one changes nothing, and neither makes the node
      see two primaries. */
  lemma {:induction false} PeerPromotion(n: Node)
    requires Connected(n) && !(n.s.role == R_PRIMARY && n.s.peer == R_PRIMARY)
    ensures var (s, rv) := SetState(n.env, n.s, PeerPromoted(n.s), false);
      && s.role == n.s.role && s.conn >= CONNECTED && !(s.role == R_PRIMARY && s.peer == R_PRIMARY)
      && (rv >= SS_SUCCESS ==> s.peer == R_PRIMARY && n.s.role != R_PRIMARY)
      && (n.s.peer == R_PRIMARY ==> s.peer == R_PRIMARY)
  {
    SanitizeKeepsRoles(n.env, n.s, PeerPromoted(n.s));
  }

  lemma {:induction false} OwnPromotion(n: Node)
    requires Connected(n) && !(n.s.role == R_PRIMARY && n.s.peer == R_PRIMARY)
    ensures var s := SetState(n.env, n.s, Promoted(n.s), false).0;
      && s.peer == n.s.peer && s.conn >= CONNECTED && !(s.role == R_PRIMARY && s.peer == R_PRIMARY)
      && (s.role == n.s.role || s.role == R_PRIMARY)
  {
    SanitizeKeepsRoles(n.env, n.s, Promoted(n.s));
  }

  /** A node that might ask and is in the same state when the answer comes gets the role. */
  lemma {:induction false} GrantedPromotion(n: Node)
    requires Connected(n) && MayAsk(n)
    ensures SetState(n.env, n.s, Promoted(n.s), false).0.role == R_PRIMARY
  {}

  // ----- safety -----

  /** Whoever is Primary, or has the peer's consent on the way, is Primary in the peer's eyes. */
  predicate Known(x: Side, y: Side) {
    && Connected(x.n) && !(x.n.s.role == R_PRIMARY && x.n.s.peer == R_PRIMARY)
    && (x.n.s.role == R_PRIMARY || x.n.ok || true in x.replies ==> y.n.s.peer == R_PRIMARY)
  }

  predicate Inv(w: World) { Known(w.x, w.y) && Known(w.y, w.x) }

  lemma {:induction false} NextXKeeps(w: World, step: Step, w': World)
    requires Inv(w) && NextX(w, step, w')
    ensures Inv(w')
  {
    match step
    case Asks =>
    case Arrives => PeerPromotion(w.y.n);
    case Replies => assert w.x.replies == [w.x.replies[0]] + w.x.replies[1..];
    case Concludes => OwnPromotion(w.x.n);
  }

  ghost predicate Run(ws: seq<World>, who: seq<bool>, steps: seq<Step>) {
    && |ws| == |steps| + 1 && |who| == |steps|
    && forall k :: 0 <= k < |steps| ==> Happens(ws, who, steps, k)
  }

  predicate Happens(ws: seq<World>, who: seq<bool>, steps: seq<Step>, k: nat)
    requires k < |steps| == |who| && |ws| == |steps| + 1
  {
    Next(ws[k], who[k], steps[k], ws[k + 1])
  }

  lemma {:induction false} RunKeeps(ws: seq<World>, who: seq<bool>, steps: seq<Step>, k: nat)
    requires Run(ws, who, steps) && Inv(ws[0]) && k <= |steps|
    ensures Inv(ws[k])
  {
    if k > 0 {
      RunKeeps(ws, who, steps, k - 1);
      var w, w', step := ws[k - 1], ws[k], steps[k - 1];
      assert Happens(ws, who, steps, k - 1);
      if who[k - 1] { NextXKeeps(w, step, w'); } else { NextXKeeps(w.Swap(), step, w'.Swap()); }
    }
  }

  /** Connected, nobody Primary, nothing on the way. */
  predicate Start(w: World) {
    && Connected(w.x.n) && Connected(w.y.n) && w.x.n.resolve != w.y.n.resolve
    && w.x.n.s.role == R_SECONDARY == w.y.n.s.role && w.x.n.s.peer == R_SECONDARY == w.y.n.s.peer
    && !w.x.n.ok && !w.x.n.fail && !w.x.n.waiting && !w.y.n.ok && !w.y.n.fail && !w.y.n.waiting
    && w.x.requests == 0 == w.y.requests && w.x.replies == [] && w.y.replies == []
  }

  /** In whatever order requests and replies arrive, the nodes are never both Primary. */
  lemma {:induction false} NeverBothPrimary(ws: seq<World>, who: seq<bool>, steps: seq<Step>)
    requires Run(ws, who, steps) && Start(ws[0])
    ensures var w := ws[|steps|]; !(w.x.n.s.role == R_PRIMARY && w.y.n.s.role == R_PRIMARY)
  {
    RunKeeps(ws, who, steps, |steps|);
  }

  // ----- when requests cross -----

  /** The node has no objection to the peer's promotion besides being Primary itself. */
  predicate Willing(n: Node) {
    n.s.role != R_PRIMARY ==> SetState(n.env, n.s, PeerPromoted(n.s), false).1 >= SS_SUCCESS
  }

  /** The answer to a request is exactly: yes, unless the node asked is the one with
      RESOLVE_CONFLICTS and waits for an answer itself, or its state engine objects; and only with
      a yes its own state changes. */
  lemma {:induction false} ReplyExact(w: World)
    requires w.x.requests > 0
    ensures var w', y := Arrive(w), w.y.n;
      var yes := !(y.resolve && y.waiting) && SetState(y.env, y.s, PeerPromoted(y.s), false).1 >= SS_SUCCESS;
      && w'.x == w.x.(requests := w.x.requests - 1, replies := w.x.replies + [yes])
      && w'.y == w.y.(n := y.(s := if yes then SetState(y.env, y.s, PeerPromoted(y.s), false).0 else y.s))
  {}

  /** y has never asked. */
  predicate Silent(y: Side) { !y.n.waiting && y.requests == 0 && y.replies == [] }

  /** Nobody is in the way of x: it is the node with RESOLVE_CONFLICTS, or its peer has not asked. */
  predicate Free(w: World) { w.x.n.resolve || Silent(w.y) }

  /** One request of x is open while it waits, and none of its answers is a refusal. */
  predicate Leads(w: World) {
    && Free(w) && w.x.n.resolve != w.y.n.resolve && !w.x.n.fail && false !in w.x.replies
    && (w.x.n.waiting ==> MayAsk(w.x.n))
    && w.x.requests + |w.x.replies| + (if w.x.n.ok then 1 else 0) == if w.x.n.waiting then 1 else 0
  }

  /** While x waits, its peer neither is Primary nor has consent on the way. */
  lemma {:induction false} PeerHeldBack(w: World)
    requires Inv(w) && Leads(w) && w.x.n.waiting
    ensures w.y.n.s.role != R_PRIMARY && !w.y.n.ok && true !in w.y.replies
  {
    SanitizeKeepsRoles(w.x.n.env, w.x.n.s, Promoted(w.x.n.s));
  }

  lemma {:induction false} LeaderStep(w: World, step: Step, w': World)
    requires Inv(w) && Leads(w) && Willing(w.y.n) && NextX(w, step, w')
    ensures Leads(w') && (w.x.n.waiting && !w'.x.n.waiting ==> w'.x.n.s.role == R_PRIMARY)
    ensures w.x.n.s.role == R_PRIMARY ==> w'.x.n.s.role == R_PRIMARY
  {
    match step
    case Asks =>
    case Arrives =>
      PeerHeldBack(w);
    case Replies =>
      assert w.x.replies[0] in w.x.replies;
    case Concludes =>
      GrantedPromotion(w.x.n);
      OwnPromotion(w.x.n);
  }

  /** A peer with RESOLVE_CONFLICTS does not ask. */
  predicate Allowed(w: World) { w.x.n.resolve || !w.y.n.waiting }

  lemma {:induction false} FollowerStep(w: World, step: Step, w': World)
    requires Inv(w) && Leads(w) && NextX(w.Swap(), step, w'.Swap()) && Allowed(w')
    ensures Leads(w') && w'.x.n.waiting == w.x.n.waiting
    ensures w.x.n.s.role == R_PRIMARY ==> w'.x.n.s.role == R_PRIMARY
  {
    if step == Arrives { PeerPromotion(w.x.n); }
  }

  /** x is on its way, or has arrived. */
  predicate Ahead(w: World) { w.x.n.waiting || w.x.n.s.role == R_PRIMARY }

  lemma {:induction false} StepLeads(w: World, ofX: bool, step: Step, w': World)
    requires Inv(w) && Leads(w) && Willing(w.y.n) && Next(w, ofX, step, w') && Allowed(w')
    ensures Inv(w') && Leads(w') && (Ahead(w) ==> Ahead(w'))
  {
    if ofX {
      NextXKeeps(w, step, w');
      LeaderStep(w, step, w');
    } else {
      NextXKeeps(w.Swap(), step, w'.Swap());
      FollowerStep(w, step, w');
    }
  }

  /** The peer never objects for other reasons, and with RESOLVE_CONFLICTS it does not ask. */
  ghost predicate AllWilling(ws: seq<World>) {
    forall i :: 0 <= i < |ws| ==> WillingAt(ws, i)
  }
  predicate WillingAt(ws: seq<World>, i: nat)
    requires i < |ws|
  {
    Willing(ws[i].y.n) && Allowed(ws[i])
  }

  predicate Fine(w: World) { Inv(w) && Leads(w) }

  lemma {:induction false} StepAt(ws: seq<World>, who: seq<bool>, steps: seq<Step>, j: nat)
    requires Run(ws, who, steps) && AllWilling(ws) && j < |steps| && Fine(ws[j])
    ensures Fine(ws[j + 1]) && (Ahead(ws[j]) ==> Ahead(ws[j + 1]))
  {
    assert Happens(ws, who, steps, j) && WillingAt(ws, j) && WillingAt(ws, j + 1);
    StepLeads(ws[j], who[j], steps[j], ws[j + 1]);
  }

  lemma {:induction false} RunLeads(ws: seq<World>, who: seq<bool>, steps: seq<Step>, k: nat, j: nat)
    requires Run(ws, who, steps) && AllWilling(ws) && k <= j <= |steps| && Fine(ws[k])
    ensures Fine(ws[j]) && (Ahead(ws[k]) ==> Ahead(ws[j]))
    decreases j
  {
    if k < j {
      RunLeads(ws, who, steps, k, j - 1);
      StepAt(ws, who, steps, j - 1);
    }
  }

  /** Once the node with RESOLVE_CONFLICTS has asked, whatever its peer asks meanwhile, it stays
      on the way to Primary or is Primary, no refusal reaches it, and its peer never becomes
      Primary. */
  lemma {:induction false} ResolverWins(ws: seq<World>, who: seq<bool>, steps: seq<Step>, k: nat, j: nat)
    requires Run(ws, who, steps) && Start(ws[0]) && ws[0].x.n.resolve && AllWilling(ws)
    requires k <= j <= |steps| && ws[k].x.n.waiting
    ensures ws[j].x.n.waiting || ws[j].x.n.s.role == R_PRIMARY
    ensures !ws[j].x.n.fail && false !in ws[j].x.replies && ws[j].y.n.s.role != R_PRIMARY
  {
    RunLeads(ws, who, steps, 0, k);
    RunLeads(ws, who, steps, k, j);
    if ws[j].x.n.waiting { PeerHeldBack(ws[j]); }
  }

  // ----- and gets there -----

  /** How many of its own steps x has before it. */
  function ToGo(x: Side): nat {
    if !x.n.waiting then 0 else if x.requests > 0 then 3 else if x.replies != [] then 2 else 1
  }

  /** While it waits, one of these steps is possible. */
  lemma {:induction false} Progress(w: World) returns (step: Step, w': World)
    requires Inv(w) && Leads(w) && w.x.n.waiting
    ensures step != Asks && NextX(w, step, w')
  {
    if w.x.requests > 0 {
      step, w' := Arrives, Arrive(w);
    } else if w.x.replies != [] {
      step, w' := Replies, GetReply(w);
    } else {
      step, w' := Concludes, w.(x := w.x.(n := Conclude(w.x.n)));
    }
  }

  lemma {:induction false} LeaderCloser(w: World, step: Step, w': World)
    requires Inv(w) && Leads(w) && Ahead(w) && NextX(w, step, w')
    ensures ToGo(w'.x) < ToGo(w.x)
  {
    if !w.x.n.waiting { SanitizeKeepsRoles(w.x.n.env, w.x.n.s, Promoted(w.x.n.s)); }
  }

  lemma {:induction false} FollowerSame(w: World, step: Step, w': World)
    requires NextX(w.Swap(), step, w'.Swap())
    ensures ToGo(w'.x) == ToGo(w.x)
  {}

  /** The steps that are about the promotion of x, from k up to j. */
  function StepsOfX(who: seq<bool>, k: nat, j: nat): nat
    requires k <= j <= |who|
    decreases j
  {
    if k == j then 0 else StepsOfX(who, k, j - 1) + if who[j - 1] then 1 else 0
  }

  lemma {:induction false} Closer(w: World, ofX: bool, step: Step, w': World)
    requires Inv(w) && Leads(w) && Ahead(w) && Next(w, ofX, step, w')
    ensures ToGo(w'.x) + (if ofX then 1 else 0) <= ToGo(w.x)
  {
    if ofX { LeaderCloser(w, step, w'); } else { FollowerSame(w, step, w'); }
  }

  /** x has asked by step k of a run from the start. */
  ghost predicate Asked(ws: seq<World>, who: seq<bool>, steps: seq<Step>, k: nat) {
    && Run(ws, who, steps) && k <= |steps| && ws[k].x.n.waiting
    && Start(ws[0]) && AllWilling(ws)
  }

  lemma {:induction false} FineSince(ws: seq<World>, who: seq<bool>, steps: seq<Step>, k: nat, j: nat)
    requires Asked(ws, who, steps, k) && k <= j <= |steps|
    ensures Fine(ws[j]) && Ahead(ws[j])
  {
    RunLeads(ws, who, steps, 0, k);
    RunLeads(ws, who, steps, k, j);
  }

  lemma {:induction false} CloserAt(ws: seq<World>, who: seq<bool>, steps: seq<Step>, k: nat, j: nat)
    requires Asked(ws, who, steps, k) && k <= j < |steps|
    ensures ToGo(ws[j + 1].x) + (if who[j] then 1 else 0) <= ToGo(ws[j].x)
  {
    FineSince(ws, who, steps, k, j);
    assert Happens(ws, who, steps, j);
    Closer(ws[j], who[j], steps[j], ws[j + 1]);
  }

  lemma {:induction false} RunCloser(ws: seq<World>, who: seq<bool>, steps: seq<Step>, k: nat, j: nat)
    requires Asked(ws, who, steps, k) && k <= j <= |steps|
    ensures ToGo(ws[j].x) + StepsOfX(who, k, j) <= ToGo(ws[k].x)
    decreases j
  {
    if k < j {
      RunCloser(ws, who, steps, k, j - 1);
      CloserAt(ws, who, steps, k, j - 1);
    }
  }

  /** The request, the reply and the end of the wait: after these three steps, in whatever steps of
      the peer they are embedded, the node that asked is Primary, be it the one with
      RESOLVE_CONFLICTS or, if that one does not ask meanwhile, the other. */
  lemma {:induction false} AskerPromoted(ws: seq<World>, who: seq<bool>, steps: seq<Step>, k: nat, j: nat)
    requires Run(ws, who, steps) && Start(ws[0]) && AllWilling(ws)
    requires k <= j <= |steps| && ws[k].x.n.waiting
    ensures StepsOfX(who, k, j) <= 3
    ensures StepsOfX(who, k, j) == 3 ==> ws[j].x.n.s.role == R_PRIMARY
    ensures ws[j].x.n.waiting ==> exists step, w' :: NextX(ws[j], step, w')
  {
    FineSince(ws, who, steps, k, j);
    RunCloser(ws, who, steps, k, j);
    if ws[j].x.n.waiting { var step, w' := Progress(ws[j]); }
  }

  /** Connected, both disks good, nothing special going on. */
  predicate Plain(n: Node) {
    && Connected(n) && n.s.conn == CONNECTED && n.s.disk == UP_TO_DATE == n.s.pdsk
    && n.s.role == R_SECONDARY == n.s.peer && !n.env.otherPeerPrimary && !n.env.stateSent && !n.env.inUse
  }

  /** Such a node may ask, and has no objection to its peer's promotion. */
  lemma {:induction false} PlainWilling(n: Node)
    requires Plain(n)
    ensures MayAsk(n) && Willing(n)
  {
    var p, q := Promoted(n.s), PeerPromoted(n.s);
    assert Sanitize(n.env, n.s, p) == p && Sanitize(n.env, n.s, q) == q;
  }
}
