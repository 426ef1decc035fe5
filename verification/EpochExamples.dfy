/** What goes wrong when receive_Barrier cannot allocate an epoch. */
module EpochExamples {
  import opened TransferLog
  import opened BarrierSender
  import opened Epochs
  import opened EpochOrder

  /** A node with a single epoch. */
  function One(mode: Mode, e: Epoch, r: Receiver, a: Asender, received: seq<Packet>, acks: seq<Group>,
      log: seq<Event>): Node {
    Node(mode, [e], r, a, received, acks, log)
  }

  function LogSoFar(mode: Mode): seq<Event> { if mode == Flush then [Completed(0), Flushed] else [Completed(0)] }

  /** One write and its barrier; the disk is done, the asender has the write in hand. */
  function InHand(mode: Mode): Node {
    One(mode, Epoch(0, 1, 1, 0, 7, true, true, true, false), Allocating, Waiting, [Write, Barrier(7)], [],
        LogSoFar(mode))
  }

  lemma {:induction false} FirstHalf(mode: Mode) returns (e: Node)
    requires mode != Unordered
    ensures Leads(Epochs.Init(mode), e)
    ensures e == One(mode, Epoch(0, 1, 1, 0, 7, true, true, false, false), Draining, Waiting, [Write, Barrier(7)], [],
      [Completed(0)])
  {
    var a := Epochs.Init(mode);
    Stays(a);
    var b := One(mode, Epoch(0, 1, 1, 1, 0, false, false, false, false), Ready, Waiting, [Write], [], []);
    assert GetWrite(a) == b;
    Further(a, a, RecvWrite, b);
    var c := One(mode, Epoch(0, 1, 1, 1, 7, true, false, false, false), Noting, Waiting, [Write, Barrier(7)], [], []);
    assert GetBarrier(b, 7) == c;
    Further(a, b, RecvBarrier(7), c);
    var d := One(mode, Epoch(0, 1, 1, 1, 7, true, true, false, false), Draining, Waiting, [Write, Barrier(7)], [], []);
    assert NoteIssued(c) == d;
    Further(a, c, Noted, d);
    e := One(mode, Epoch(0, 1, 1, 0, 7, true, true, false, false), Draining, Waiting, [Write, Barrier(7)], [],
        [Completed(0)]);
    assert CompleteWrite(d, 0) == e;
    Further(a, d, DiskDone(0), e);
  }

  lemma {:induction false} GetsInHand(mode: Mode)
    requires mode != Unordered
    ensures Leads(Epochs.Init(mode), InHand(mode))
  {
    var a := Epochs.Init(mode);
    var e := FirstHalf(mode);
    var f := e.(receiver := Flushing);
    Further(a, e, Drained, f);
    var g := f.(receiver := Marking, log := LogSoFar(mode));
    assert FlushDisk(f, Marking) == g;
    Further(a, f, FlushIssued, g);
    assert BarrierIsDone(g, Allocating) == InHand(mode);
    Further(a, g, Marked, InHand(mode));
  }

  // ----- the size is wrong -----

  lemma {:induction false} ClosedOnce()
    ensures Closed([Write, Barrier(7)]) == [(7, 1)] && Closed([Write, Barrier(7), Write]) == [(7, 1)]
  {
    Sends([], Write);
    assert [] + [Write] == [Write];
    Sends([Write], Barrier(7));
    assert [Write] + [Barrier(7)] == [Write, Barrier(7)];
    Sends([Write, Barrier(7)], Write);
    assert [Write, Barrier(7)] + [Write] == [Write, Barrier(7), Write];
  }

  /** A run after which the ack for barrier 7 counts two writes, where the primary sent one. */
  lemma {:induction false} WrongSize() returns (s: Node)
    ensures Leads(Epochs.Init(Drain), s) && s.acks == [(7, 2)] && Closed(s.received) == [(7, 1)]
  {
    var i := Epochs.Init(Drain);
    GetsInHand(Drain);
    var a := InHand(Drain);
    var b := a.(receiver := FailDraining(false));
    assert AllocFails(a) == b;
    Further(i, a, AllocFailed, b);
    var c := b.(receiver := FailWaiting);
    Further(i, b, FailDrained, c);
    var d := c.(receiver := Ready);
    Further(i, c, GoesOn, d);
    s := WrongAck(i, d);
    ClosedOnce();
  }

  /** One more write arrives, and the asender puts both. */
  lemma {:induction false} WrongAck(i: Node, d: Node) returns (s: Node)
    requires d == InHand(Drain).(receiver := Ready) && Leads(i, d)
    ensures Leads(i, s) && s.acks == [(7, 2)] && s.received == [Write, Barrier(7), Write]
  {
    var e := One(Drain, Epoch(0, 2, 2, 1, 7, true, true, true, false), Ready, Waiting, [Write, Barrier(7), Write], [],
        [Completed(0)]);
    assert GetWrite(d) == e;
    Further(i, d, RecvWrite, e);
    var f := e.(ring := [Epoch(0, 2, 2, 0, 7, true, true, true, false)], log := e.log + [Completed(0)]);
    assert CompleteWrite(e, 0) == f;
    Further(i, e, DiskDone(0), f);
    var g := f.(ring := [Epoch(0, 2, 1, 0, 7, true, true, true, false)]);
    assert PutWrite(f, 0) == g;
    Further(i, f, Put(0), g);
    var h := g.(ring := [Epoch(0, 2, 0, 0, 7, true, true, true, true)], asender := Sending(0, 2, false));
    assert PutWrite(g, 0) == h;
    Further(i, g, Put(0), h);
    s := SendAck(h, 0, 2).(asender := Sending(0, 2, true));
    Further(i, h, AsenderAck(0), s);
  }

  // ----- the flush is missing -----

  /** The failed allocation marks the barrier of an empty epoch done. */
  lemma {:induction false} EmptyFlushed(s: Node) returns (t: Node)
    requires Inv(s) && LogInv(s) && s.mode == Flush && s.receiver == Allocating && s.ring[s.Last()].size == 0
    ensures Leads(s, t) && s.asender == Waiting && |s.ring| == 1
    ensures t == s.(ring := [s.ring[0].(issued := true, barrierDone := true)], receiver := Ready,
      log := s.log + [Flushed])
  {
    assert Place(s, s.Last());
    Stays(s);
    var e := s.ring[0];
    var b := s.(ring := [e.(issued := true)], receiver := FailDraining(true));
    assert AllocFails(s) == b;
    Further(s, s, AllocFailed, b);
    var c := b.(receiver := FailFlushing);
    Further(s, b, FailDrained, c);
    var d := c.(receiver := FailMarking, log := s.log + [Flushed]);
    Further(s, c, FailFlushed, d);
    var f := d.(ring := [e.(issued := true, barrierDone := true)], receiver := FailWaiting);
    assert BarrierIsDone(d, FailWaiting) == f;
    Further(s, d, FailMarked, f);
    t := f.(receiver := Ready);
    Further(s, f, GoesOn, t);
  }

  /** The next epoch is then acked as soon as it has its barrier. */
  lemma {:induction false} AckedAtOnce(s: Node, t: Node, nr: nat) returns (u: Node)
    requires Leads(s, t) && t.ring != [] && t.mode == Flush && t.receiver == Ready && t.asender == Waiting
    requires var e := t.ring[0];
      t.ring == [e] && e.size == 0 && e.active == 0 && e.inFlight == 0 && !e.haveNr && !e.finishing && e.barrierDone
    ensures Leads(s, u) && u.mode == Flush && u.received == t.received + [Write, Barrier(nr)]
    ensures u.log == t.log + [Completed(t.ring[0].gen), Acking(t.ring[0].gen)]
  {
    var e := t.ring[0];
    var a := t.(ring := [e.(size := 1, active := 1, inFlight := 1)], received := t.received + [Write]);
    assert GetWrite(t) == a;
    Further(s, t, RecvWrite, a);
    var b := a.(ring := [e.(size := 1, active := 1)], log := t.log + [Completed(e.gen)]);
    assert CompleteWrite(a, 0) == b;
    Further(s, a, DiskDone(0), b);
    var c := b.(ring := [e.(size := 1)]);
    assert PutWrite(b, 0) == c;
    Further(s, b, Put(0), c);
    var d := c.(ring := [e.(size := 1, nr := nr, haveNr := true, finishing := true)],
        received := c.received + [Barrier(nr)],
                receiver := Ack(e.gen, 1, false, false, false));
    assert GetBarrier(c, nr) == d;
    Further(s, c, RecvBarrier(nr), d);
    u := SendAck(d, 0, 1).(receiver := d.receiver.(sent := true));
    Further(s, d, ReceiverAck(0), u);
    assert u.received == t.received + [Write, Barrier(nr)] && u.log == t.log + [Completed(e.gen), Acking(e.gen)];
  }

  /** Whenever an allocation fails in flush mode after the current epoch was recycled, a run goes
      on from there to an ack without a flush after the writes it is for. */
  lemma {:induction false} FlushMissing(s: Node, nr: nat) returns (u: Node)
    requires Inv(s) && LogInv(s) && s.mode == Flush && s.receiver == Allocating && s.ring[s.Last()].size == 0
    ensures Leads(s, u) && u.mode == Flush && !AcksOk(u.mode, u.log, Closed(u.received))
  {
    var t := EmptyFlushed(s);
    assert Place(s, 0) && Tracked(s, 0);
    u := AckedAtOnce(s, t, nr);
    NotCovered(s, u, nr);
  }

  lemma {:induction false} NotCovered(s: Node, u: Node, nr: nat)
    requires Inv(s) && LogInv(s) && |s.ring| == 1 && s.receiver != Ready && s.ring[0].size == 0
      && s.mode == Flush == u.mode
    requires u.received == s.received + [Write, Barrier(nr)]
    requires u.log == s.log + [Flushed] + [Completed(s.ring[0].gen), Acking(s.ring[0].gen)]
    ensures !AcksOk(u.mode, u.log, Closed(u.received))
  {
    var g, n := s.ring[0].gen, |s.log|;
    assert Place(s, 0) && Tracked(s, 0);
    LastGroup(s.received, nr);
    var a := n + 2;
    assert u.log[a] == Acking(g) && u.log[..a] == s.log + [Flushed] + [Completed(g)];
    forall f | 0 <= f < a && u.log[f] == Flushed ensures Count(u.log[..a][..f], g) == 0 {
      assert u.log[..a][..f] == (s.log + [Flushed])[..f];
      CountMonotone(s.log + [Flushed], f, g);
      CountSnoc(s.log, Flushed, g);
    }
    assert !Covered(u.log[..a], g, 1);
    assert !AckOk(u.mode, u.log, a, Closed(u.received));
  }

  lemma {:induction false} LastGroup(received: seq<Packet>, nr: nat)
    requires Open(received) == 0
    ensures var p := received + [Write, Barrier(nr)]; Closed(p) == Closed(received) + [(nr, 1)]
  {
    Sends(received, Write);
    Sends(received + [Write], Barrier(nr));
    assert received + [Write] + [Barrier(nr)] == received + [Write, Barrier(nr)];
  }

  lemma {:induction false} CountMonotone(log: seq<Event>, f: nat, g: nat)
    requires f <= |log|
    ensures Count(log[..f], g) <= Count(log, g)
    decreases |log|
  {
    if f < |log| {
      var n := |log| - 1;
      CountMonotone(log[..n], f, g);
      assert log[..n][..f] == log[..f];
    } else {
      assert log[..f] == log;
    }
  }

  /** A finishing epoch that is alone: the ack goes out, and the epoch is recycled. */
  lemma {:induction false} AckAndRecycle(i: Node, b: Node) returns (s: Node)
    requires Leads(i, b) && |b.ring| == 1 && b.asender.Sending? && !b.asender.sent && b.asender.gen == b.ring[0].gen
    ensures Leads(i, s)
    ensures s == b.(ring := [Recycled(b.ring[0])], asender := Waiting, log := b.log + [Acking(b.ring[0].gen)],
                    acks := b.acks + [(b.ring[0].nr, b.asender.size)])
  {
    var c := SendAck(b, 0, b.asender.size).(asender := b.asender.(sent := true));
    Further(i, b, AsenderAck(0), c);
    s := c.(ring := [Recycled(c.ring[0])], asender := Waiting);
    assert RetireBySender(c, 0) == s;
    Further(i, c, AsenderRelock(0), s);
  }

  /** Such a state is reached. */
  lemma {:induction false} RecycledBeforeTest() returns (s: Node)
    ensures Leads(Epochs.Init(Flush), s)
    ensures s == RecycledNode()
  {
    var i := Epochs.Init(Flush);
    GetsInHand(Flush);
    var a := InHand(Flush);
    var b := a.(ring := [Epoch(0, 1, 0, 0, 7, true, true, true, true)], asender := Sending(0, 1, false));
    assert PutWrite(a, 0) == b;
    Further(i, a, Put(0), b);
    s := AckAndRecycle(i, b);
  }

  function RecycledNode(): Node {
    One(Flush, Empty(1).(nr := 7), Allocating, Waiting, [Write, Barrier(7)], [(7, 1)],
        [Completed(0), Flushed, Acking(0)])
  }

  lemma {:induction false} RecycledPlaces(s: Node)
    requires s == RecycledNode()
    ensures Inv(s)
  {
    ClosedOnce();
    OpenOnce();
    assert Closed(s.received) == [(7, 1)];
    assert Place(s, 0);
  }

  lemma {:induction false} OpenOnce()
    ensures Open([Write, Barrier(7)]) == 0
  {
    Sends([Write], Barrier(7));
    assert [Write] + [Barrier(7)] == [Write, Barrier(7)];
  }

  lemma {:induction false} RecycledAcks(log: seq<Event>, closed: seq<Group>)
    requires log == [Completed(0), Flushed, Acking(0)] && closed == [(7, 1)]
    ensures AcksOk(Flush, log, closed)
  {
    CountsOf(log);
    var before := log[..2];
    assert before[1] == Flushed && before[..1] == log[..1];
    assert Covered(before, 0, 1);
    forall a | 0 <= a < |log| && log[a].Acking? ensures AckOk(Flush, log, a, closed) { assert a == 2; }
  }

  lemma {:induction false} RecycledOrder(s: Node)
    requires s == RecycledNode()
    ensures LogInv(s)
  {
    ClosedOnce();
    RecycledAcks(s.log, Closed(s.received));
    CountsOf(s.log);
    assert Tracked(s, 0);
    assert FlushOk(s);
  }

  lemma {:induction false} CountsOf(log: seq<Event>)
    requires log == [Completed(0), Flushed, Acking(0)]
    ensures Count(log[..1], 0) == 1 && Count(log[..2], 0) == 1 && forall g: nat :: g > 0 ==> Count(log, g) == 0
  {
    forall g: nat
      ensures Count(log[..1], g) == (if g == 0 then 1 else 0)
      ensures Count(log[..2], g) == Count(log[..1], g) == Count(log, g)
    {
      CountSnoc([], Completed(0), g);
      assert [] + [Completed(0)] == log[..1];
      CountSnoc(log[..1], Flushed, g);
      assert log[..1] + [Flushed] == log[..2];
      CountSnoc(log[..2], Acking(0), g);
      assert log[..2] + [Acking(0)] == log;
    }
  }

  /** A run in flush mode whose second ack has no flush after the write it is for. */
  lemma {:induction false} MissingFlush() returns (u: Node)
    ensures Leads(Epochs.Init(Flush), u) && u.mode == Flush && !AcksOk(u.mode, u.log, Closed(u.received))
  {
    var s := RecycledBeforeTest();
    RecycledPlaces(s);
    RecycledOrder(s);
    u := FlushMissing(s, 8);
    LeadsOn(Epochs.Init(Flush), s, u);
  }
}
