/** Primary and secondary together, over a data socket that keeps packets in order and a meta
    socket that keeps acks in order. */
module BarrierProtocol {
  import opened TransferLog
  import opened BarrierSender
  import opened Epochs
  import opened EpochOrder
  import opened WriteOrder

  /** The secondary has received the first part of the primary's wire, the primary has handled
      the first p.released of the secondary's acks.  bailed: tl_release dropped the connection. */
  datatype World = World(p: Primary, n: Node, bailed: bool)

  datatype Action =
    | Submit(write: bool, net: bool) | NewEpoch | SendNext | CloseIdle
    | Deliver | Secondary(step: Step) | AckArrives

  /** The next packet on the wire, as a step of the receiver. */
  function Arrival(w: World): Step
    requires |w.n.received| < |w.p.wire|
  {
    match w.p.wire[|w.n.received|]
    case Write => RecvWrite
    case Barrier(nr) => RecvBarrier(nr)
  }

  /** Every interleaving of both nodes, failing allocations included where they do no harm. */
  predicate Next(w: World, a: Action, w': World) {
    match a
    case Submit(write, net) => w' == w.(p := w.p.Submit(write, net))
    case NewEpoch => w' == w.(p := w.p.NewEpoch())
    case SendNext => w.p.sent < |w.p.tl| && w' == w.(p := w.p.SendNext())
    case CloseIdle => w' == w.(p := w.p.CloseIdle())
    case Deliver => |w.n.received| < |w.p.wire| && Epochs.Next(w.n, Arrival(w), w'.n) && w' == w.(n := w'.n)
    case Secondary(step) =>
      && !step.RecvWrite? && !step.RecvBarrier? && Orderly(w.n, step) && Timely(w.n, step)
      && Epochs.Next(w.n, step, w'.n) && w' == w.(n := w'.n)
    case AckArrives =>
      && w.p.released < |w.n.acks|
      && (var (nr, size) := w.n.acks[w.p.released];
          if Groups(w.p.tl) != [] && Groups(w.p.tl)[0] == (nr, size)
          then w' == w.(p := w.p.(tl := Acked(w.p.tl, nr), released := w.p.released + 1))
          else w' == w.(bailed := true))
  }

  ghost predicate Inv(w: World) {
    && w.p.Valid() && w.p.InStep() && Epochs.Inv(w.n) && LogInv(w.n) && Disciplined(w.n)
    && w.n.received <= w.p.wire && w.p.released <= |w.n.acks| && !w.bailed
  }

  /** Every barrier on the wire closes at least one write. */
  lemma {:induction false} BarrierHasWrites(wire: seq<Packet>, k: nat)
    requires k < |wire| && wire[k].Barrier? && forall i :: 0 <= i < |Closed(wire)| ==> Closed(wire)[i].1 > 0
    ensures Open(wire[..k]) > 0
  {
    var q := wire[..|wire| - 1];
    if k == |wire| - 1 {
      assert Closed(wire)[|Closed(wire)| - 1] == (wire[k].nr, Open(q));
    } else {
      assert forall i :: 0 <= i < |Closed(q)| ==> Closed(q)[i] == Closed(wire)[i];
      BarrierHasWrites(q, k);
      assert q[..k] == wire[..k];
    }
  }

  /** The secondary's history is a part of the wire, so its acks are right for the log. */
  lemma {:induction false} AckExpected(w: World)
    requires Inv(w) && w.p.released < |w.n.acks|
    ensures w.p.released < |Closed(w.p.wire)| && w.n.acks[w.p.released] == Closed(w.p.wire)[w.p.released]
  {
    var k := |w.n.received|;
    assert w.n.received == w.p.wire[..k];
    ClosedPrefix(w.p.wire, k);
  }

  lemma {:induction false} NodeKeeps(n: Node, step: Step, n': Node)
    requires Epochs.Inv(n) && LogInv(n) && Disciplined(n)
    requires Epochs.Next(n, step, n') && Orderly(n, step) && Timely(n, step)
    ensures Epochs.Inv(n') && LogInv(n') && Disciplined(n') && |n.acks| <= |n'.acks|
    ensures n'.received ==
      n.received + if step.RecvWrite? then [Write] else if step.RecvBarrier? then [Barrier(step.nr)] else []
  {
    NextKeeps(n, step, n');
    NextKeepsLog(n, step, n');
    NextDisciplined(n, step, n');
  }

  lemma {:induction false} DeliverKeeps(w: World, w': World)
    requires Inv(w) && Next(w, Deliver, w')
    ensures Inv(w')
  {
    var k := |w.n.received|;
    if w.p.wire[k].Barrier? { NextHasWrites(w.p, w.n.received); }
    NodeKeeps(w.n, Arrival(w), w'.n);
    StillPrefix(w.n.received, w.p.wire);
  }

  lemma {:induction false} StillPrefix(a: seq<Packet>, b: seq<Packet>)
    requires a <= b && |a| < |b|
    ensures a + [b[|a|]] <= b
  {}

  lemma {:induction false} NextHasWrites(p: Primary, received: seq<Packet>)
    requires p.InStep() && received <= p.wire && |received| < |p.wire| && p.wire[|received|].Barrier?
    ensures Open(received) > 0
  {
    assert received == p.wire[..|received|];
    BarrierHasWrites(p.wire, |received|);
  }

  lemma {:induction false} SecondaryKeeps(w: World, step: Step, w': World)
    requires Inv(w) && Next(w, Secondary(step), w')
    ensures Inv(w')
  {
    NodeKeeps(w.n, step, w'.n);
  }

  lemma {:induction false} SendKeepsWire(p: Primary)
    requires p.sent < |p.tl|
    ensures p.wire <= p.SendNext().wire && p.SendNext().released == p.released
  {}

  /** The primary sends more, or nothing. */
  lemma {:induction false} PrimaryFrame(w: World, p: Primary)
    requires Inv(w) && p.Valid() && p.InStep() && w.p.wire <= p.wire && p.released == w.p.released
    ensures Inv(w.(p := p))
  {}

  lemma {:induction false} PrimaryKeeps(w: World, a: Action, w': World)
    requires Inv(w) && Next(w, a, w') && (a.Submit? || a.NewEpoch? || a.SendNext? || a.CloseIdle?)
    ensures Inv(w')
  {
    match a
    case Submit(write, net) => SubmitOk(w.p, write, net);
    case NewEpoch =>
    case SendNext =>
      SendNextOk(w.p);
      SendKeepsWire(w.p);
    case CloseIdle => CloseIdleOk(w.p);
    PrimaryFrame(w, w'.p);
  }

  lemma {:induction false} ReleaseKeeps(w: World, w': World)
    requires Inv(w) && Next(w, AckArrives, w')
    ensures Inv(w')
  {
    AckExpected(w);
    ReleaseOk(w.p);
  }

  lemma {:induction false} NextKeepsInv(w: World, a: Action, w': World)
    requires Inv(w) && Next(w, a, w')
    ensures Inv(w')
  {
    match a
    case Deliver => DeliverKeeps(w, w');
    case Secondary(step) => SecondaryKeeps(w, step, w');
    case AckArrives => ReleaseKeeps(w, w');
    case _ => PrimaryKeeps(w, a, w');
  }

  ghost predicate Run(ws: seq<World>, actions: seq<Action>, tleNr: nat, mode: Mode) {
    && |ws| == |actions| + 1 && ws[0] == Start(tleNr, mode)
    && forall k :: 0 <= k < |actions| ==> Happens(ws, actions, k)
  }

  predicate Happens(ws: seq<World>, actions: seq<Action>, k: nat)
    requires k < |actions| && |ws| == |actions| + 1
  {
    Next(ws[k], actions[k], ws[k + 1])
  }

  function Start(tleNr: nat, mode: Mode): World { World(BarrierSender.Init(tleNr), Epochs.Init(mode), false) }

  lemma {:induction false} StartInv(tleNr: nat, mode: Mode)
    ensures Inv(Start(tleNr, mode))
  {
    InitOk(tleNr);
    Epochs.InitInv(mode);
    InitLogInv(mode);
    InitDisciplined(mode);
  }

  lemma {:induction false} RunInv(ws: seq<World>, actions: seq<Action>, tleNr: nat, mode: Mode, k: nat)
    requires Run(ws, actions, tleNr, mode) && k <= |actions|
    ensures Inv(ws[k])
  {
    if k == 0 {
      StartInv(tleNr, mode);
    } else {
      RunInv(ws, actions, tleNr, mode, k - 1);
      assert Happens(ws, actions, k - 1);
      NextKeepsInv(ws[k - 1], actions[k - 1], ws[k]);
    }
  }

  /** In every interleaving of both nodes the acks are a prefix of the barriers received, in
      order, each once and with the number of writes of its epoch, and tl_release never bails out;
      when an ack goes out the writes of its epoch are on disk; in the ordered modes no write gets
      there before those of older epochs, and with flushes not before these are flushed. */
  lemma {:induction false} BarrierAcks(ws: seq<World>, actions: seq<Action>, tleNr: nat, mode: Mode)
    requires Run(ws, actions, tleNr, mode)
    ensures var w := ws[|actions|];
      && !w.bailed
      && w.n.acks <= Closed(w.n.received) <= Closed(w.p.wire)
      && AcksOk(w.n.mode, w.n.log, Closed(w.n.received))
      && (w.n.mode != Unordered ==> AllInTurn(w.n.log, Closed(w.n.received)))
      && (w.n.mode == Flush ==> AllFlushed(w.n.log, Closed(w.n.received)))
  {
    RunInv(ws, actions, tleNr, mode, |actions|);
    var w := ws[|actions|];
    assert w.n.received == w.p.wire[..|w.n.received|];
    ClosedPrefix(w.p.wire, |w.n.received|);
  }
}
