/** The primary's worker: it sends the requests of the transfer log in order, and a barrier
    behind every epoch that had a write in it. */
module BarrierSender {
  import opened TransferLog

  /** The epochs closed by a barrier, with the number of writes in front of it. */
  function Closed(p: seq<Packet>): seq<Group> {
    if p == [] then []
    else
      var q := p[..|p| - 1];
      match p[|p| - 1]
      case Write => Closed(q)
      case Barrier(nr) => Closed(q) + [(nr, Open(q))]
  }

  /** The number of writes since the last barrier. */
  function Open(p: seq<Packet>): nat {
    if p == [] || p[|p| - 1].Barrier? then 0 else Open(p[..|p| - 1]) + 1
  }

  lemma {:induction false} Sends(p: seq<Packet>, x: Packet)
    ensures Closed(p + [x]) == if x.Barrier? then Closed(p) + [(x.nr, Open(p))] else Closed(p)
    ensures Open(p + [x]) == if x.Barrier? then 0 else Open(p) + 1
  {}

  /** A receiver that has seen part of the stream knows part of the closed epochs. */
  lemma {:induction false} ClosedPrefix(p: seq<Packet>, n: nat)
    requires n <= |p|
    ensures Closed(p[..n]) <= Closed(p)
  {
    if n < |p| {
      ClosedPrefix(p[..|p| - 1], n);
      assert p[..|p| - 1][..n] == p[..n];
    } else {
      assert p[..n] == p;
    }
  }

  /** nr and writes are those of connection->send, sent is how far the worker got in the log. */
  datatype Primary = Primary(tl: seq<Req>, tleNr: nat, tleWrites: nat, sent: nat,
                             seen: bool, nr: nat, writes: nat, wire: seq<Packet>, released: nat) {

    function OpenGroup(): seq<Group> { if writes > 0 then [(nr, writes)] else [] }

    predicate Valid() {
      && sent <= |tl| && LogOk(tl) && nr <= tleNr
      && (forall i :: 0 <= i < |tl| ==> tl[i].epoch <= tleNr)
      && (forall i :: sent <= i < |tl| ==> nr <= tl[i].epoch && (tl[i].write ==> !tl[i].done))
      && (forall i :: 0 <= i < |tl| && tl[i].write && tl[i].done ==> tl[i].epoch < nr)
      && (!seen ==> wire == [] && writes == 0)
    }

    /** The wire says about the log what the log says about itself. */
    predicate InStep() {
      && Open(wire) == writes && released <= |Closed(wire)| && sent <= |tl|
      && Groups(tl[..sent]) == Closed(wire)[released..] + OpenGroup()
      && (forall i :: 0 <= i < |Closed(wire)| ==> Closed(wire)[i].0 < nr && Closed(wire)[i].1 > 0)
    }

    /** __drbd_make_request and start_new_tl_epoch */
    function Submit(write: bool, net: bool): Primary {
      this.(tl := tl + [Req(write, write || net, false, tleNr)], tleWrites := tleWrites + if write then 1 else 0)
    }
    function NewEpoch(): Primary {
      if tleWrites == 0 then this else this.(tleNr := tleNr + 1, tleWrites := 0)
    }

    /** re_init_if_first_write, maybe_send_barrier */
    function ReInit(epoch: nat): Primary {
      if seen then this else this.(seen := true, nr := epoch, writes := 0)
    }
    function MaybeSendBarrier(epoch: nat): Primary {
      if !seen || nr == epoch then this
      else if writes > 0 then this.(wire := wire + [Barrier(nr)], writes := 0, nr := epoch)
      else this.(nr := epoch)
    }

    /** w_send_dblock, w_send_read_req, or nothing for a request that is served locally */
    function SendNext(): Primary
      requires sent < |tl|
    {
      var r := tl[sent];
      if r.write then
        var p := ReInit(r.epoch).MaybeSendBarrier(r.epoch);
        p.(writes := p.writes + 1, wire := p.wire + [Write], sent := sent + 1)
      else if r.net then MaybeSendBarrier(r.epoch).(sent := sent + 1)
      else this.(sent := sent + 1)
    }

    /** wait_for_work, when there is nothing else to send */
    function CloseIdle(): Primary {
      if sent == |tl| && tleNr != nr then MaybeSendBarrier(nr + 1) else this
    }
  }

  function Init(tleNr: nat): Primary {
    Primary([], tleNr, 0, 0, false, 0, 0, [], 0)
  }

  lemma {:induction false} InitOk(tleNr: nat)
    ensures Init(tleNr).Valid() && Init(tleNr).InStep()
  {}

  lemma {:induction false} SubmitLogOk(tl: seq<Req>, r: Req)
    requires LogOk(tl) && !r.done && (r.write ==> r.net) && (forall i :: 0 <= i < |tl| ==> tl[i].epoch <= r.epoch)
    requires forall i :: 0 <= i < |tl| && tl[i].write && tl[i].done ==> tl[i].epoch < r.epoch
    ensures LogOk(tl + [r])
  {}

  lemma {:induction false} SubmitOk(p: Primary, write: bool, net: bool)
    requires p.Valid() && p.InStep()
    ensures p.Submit(write, net).Valid() && p.Submit(write, net).InStep()
  {
    var q := p.Submit(write, net);
    assert q.tl[..p.sent] == p.tl[..p.sent];
    SubmitLogOk(p.tl, q.tl[|p.tl|]);
  }

  lemma {:induction false} BarrierOk(p: Primary, epoch: nat)
    requires p.Valid() && p.InStep() && p.nr <= epoch <= p.tleNr
    requires forall i :: p.sent <= i < |p.tl| ==> epoch <= p.tl[i].epoch
    ensures p.MaybeSendBarrier(epoch).Valid() && p.MaybeSendBarrier(epoch).InStep()
  {}

  lemma {:induction false} ReInitOk(p: Primary)
    requires p.Valid() && p.InStep() && p.sent < |p.tl|
    ensures p.ReInit(p.tl[p.sent].epoch).Valid() && p.ReInit(p.tl[p.sent].epoch).InStep()
  {}

  lemma {:induction false} WriteGroups(a: seq<Req>, r: Req, g: seq<Group>, writes: nat)
    requires r.Pending() && Groups(a) == g + (if writes > 0 then [(r.epoch, writes)] else [])
    requires forall i :: 0 <= i < |g| ==> g[i].0 < r.epoch
    ensures Groups(a + [r]) == g + [(r.epoch, writes + 1)]
  {
    GroupsSnoc(a, r);
    AddOpen(g, r.epoch, writes);
  }

  lemma {:induction false} WriteInStep(p: Primary)
    requires p.InStep() && p.sent < |p.tl| && p.tl[p.sent].Pending() && p.nr == p.tl[p.sent].epoch
    ensures p.(writes := p.writes + 1, wire := p.wire + [Write], sent := p.sent + 1).InStep()
  {
    var g := Closed(p.wire)[p.released..];
    forall i | 0 <= i < |g| ensures g[i].0 < p.nr { assert g[i] == Closed(p.wire)[p.released + i]; }
    Sends(p.wire, Write);
    WriteGroups(p.tl[..p.sent], p.tl[p.sent], g, p.writes);
    assert p.tl[..p.sent + 1] == p.tl[..p.sent] + [p.tl[p.sent]];
  }

  lemma {:induction false} WriteOk(p: Primary)
    requires p.Valid() && p.InStep() && p.sent < |p.tl| && p.tl[p.sent].write && p.seen && p.nr == p.tl[p.sent].epoch
    ensures var q := p.(writes := p.writes + 1, wire := p.wire + [Write], sent := p.sent + 1); q.Valid() && q.InStep()
  {
    WriteInStep(p);
  }

  lemma {:induction false} AddOpen(g: seq<Group>, nr: nat, writes: nat)
    requires forall i :: 0 <= i < |g| ==> g[i].0 < nr
    ensures Add(g + (if writes > 0 then [(nr, writes)] else []), nr) == g + [(nr, writes + 1)]
  {}

  lemma {:induction false} SkipOk(p: Primary)
    requires p.Valid() && p.InStep() && p.sent < |p.tl| && !p.tl[p.sent].write
    ensures p.(sent := p.sent + 1).Valid() && p.(sent := p.sent + 1).InStep()
  {
    GroupsSnoc(p.tl[..p.sent], p.tl[p.sent]);
    assert p.tl[..p.sent] + [p.tl[p.sent]] == p.tl[..p.sent + 1];
  }

  /** The worker is set for a write of the epoch of the next request. */
  lemma {:induction false} ReadyToWrite(p: Primary, e: nat)
    requires p.Valid() && p.InStep() && p.sent < |p.tl| && e == p.tl[p.sent].epoch
    ensures var q := p.ReInit(e).MaybeSendBarrier(e);
      q.Valid() && q.InStep() && q.tl == p.tl && q.sent == p.sent && q.nr == e && q.seen
  {
    ReInitOk(p);
    BarrierOk(p.ReInit(e), e);
  }

  lemma {:induction false} SendWriteOk(p: Primary)
    requires p.Valid() && p.InStep() && p.sent < |p.tl| && p.tl[p.sent].write
    ensures p.SendNext().Valid() && p.SendNext().InStep()
  {
    var e := p.tl[p.sent].epoch;
    ReadyToWrite(p, e);
    WriteOk(p.ReInit(e).MaybeSendBarrier(e));
  }

  /** The worker keeps the log and the wire in step. */
  lemma {:induction false} SendNextOk(p: Primary)
    requires p.Valid() && p.InStep() && p.sent < |p.tl|
    ensures p.SendNext().Valid() && p.SendNext().InStep()
  {
    var r := p.tl[p.sent];
    if r.write {
      SendWriteOk(p);
    } else if r.net {
      BarrierOk(p, r.epoch);
      SkipOk(p.MaybeSendBarrier(r.epoch));
    } else {
      SkipOk(p);
    }
  }

  lemma {:induction false} CloseIdleOk(p: Primary)
    requires p.Valid() && p.InStep()
    ensures p.CloseIdle().Valid() && p.CloseIdle().InStep()
  {}

  /** Requests of other epochs behind the first group leave it alone. */
  lemma {:induction false} GroupsFront(a: seq<Req>, b: seq<Req>)
    requires Groups(a) != [] && forall i :: 0 <= i < |b| ==> b[i].epoch != Groups(a)[0].0
    ensures Groups(a + b) != [] && Groups(a + b)[0] == Groups(a)[0]
  {
    if b == [] {
      assert a + b == a;
    } else {
      var n := |b| - 1;
      GroupsFront(a, b[..n]);
      assert a + b == (a + b[..n]) + [b[n]];
      GroupsSnoc(a + b[..n], b[n]);
    }
  }

  lemma {:induction false} ReleaseGroups(tl: seq<Req>, sent: nat, g: Group)
    requires LogOk(tl) && sent <= |tl| && Groups(tl[..sent]) != [] && Groups(tl[..sent])[0] == g
    requires forall i :: sent <= i < |tl| ==> tl[i].epoch > g.0
    ensures Groups(tl) != [] && Groups(tl)[0] == g && LogOk(Acked(tl, g.0))
    ensures Groups(Acked(tl, g.0)[..sent]) == Groups(tl[..sent])[1..]
  {
    var a, b := tl[..sent], tl[sent..];
    assert tl == a + b;
    GroupsFront(a, b);
    assert LogOk(a);
    AckedGroups(a);
    AckedOk(tl);
    assert Acked(tl, g.0)[..sent] == Acked(a, g.0);
  }

  /** The next closed epoch is the one tl_release expects, and releasing it keeps all in step. */
  lemma {:induction false} ReleaseOk(p: Primary)
    requires p.Valid() && p.InStep() && p.released < |Closed(p.wire)|
    ensures var g := Closed(p.wire)[p.released];
      && Groups(p.tl) != [] && Groups(p.tl)[0] == g
      && var q := p.(tl := Acked(p.tl, g.0), released := p.released + 1); q.Valid() && q.InStep()
  {
    var g := Closed(p.wire)[p.released];
    assert Groups(p.tl[..p.sent])[0] == g;
    ReleaseGroups(p.tl, p.sent, g);
  }

  // ----- what goes on the wire -----

  /** The next request is sent: first a barrier, if it is the first of its epoch for the peer and the
      epoch before it has writes, and then itself if it is a write. */
  lemma {:induction false} SendNextExact(p: Primary)
    requires p.Valid() && p.sent < |p.tl|
    ensures var q, r := p.SendNext(), p.tl[p.sent];
      && q.tl == p.tl && q.sent == p.sent + 1 && q.released == p.released
      && (var barrier := (r.net || r.write) && p.writes > 0 && p.nr != r.epoch;
          q.wire == p.wire + (if barrier then [Barrier(p.nr)] else []) + (if r.write then [Write] else []))
      && (r.write ==> q.nr == r.epoch)
  {}

  /** With nothing left to send, and a newer epoch begun, the barrier of the last epoch goes out by
      itself: then the wire has told the peer of every epoch in the log. */
  lemma {:induction false} IdleClosesAll(p: Primary)
    requires p.Valid() && p.InStep() && p.sent == |p.tl| && p.tleNr != p.nr
    ensures var q := p.CloseIdle();
      && q.wire == p.wire + (if p.writes > 0 then [Barrier(p.nr)] else []) && q.tl == p.tl
      && Groups(q.tl) == Closed(q.wire)[q.released..]
  {
    assert p.tl[..p.sent] == p.tl;
    if p.writes > 0 { Sends(p.wire, Barrier(p.nr)); }
  }
}
