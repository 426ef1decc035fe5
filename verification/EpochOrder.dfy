/** No barrier ack before the disk is done: what the order of completions, flushes and acks is
    in every run of the secondary. */
module EpochOrder {
  import opened TransferLog
  import opened BarrierSender
  import opened Epochs

  /** How many writes of a generation have completed. */
  function Count(log: seq<Event>, g: nat): nat {
    if log == [] then 0 else Count(log[..|log| - 1], g) + if log[|log| - 1] == Completed(g) then 1 else 0
  }

  lemma {:induction false} CountSnoc(log: seq<Event>, e: Event, g: nat)
    ensures Count(log + [e], g) == Count(log, g) + if e == Completed(g) then 1 else 0
  {}

  /** A flush was issued when n writes of the generation had completed. */
  predicate Covered(log: seq<Event>, g: nat, n: nat) {
    exists f :: 0 <= f < |log| && log[f] == Flushed && Count(log[..f], g) == n
  }

  lemma {:induction false} CoveredStays(log: seq<Event>, more: seq<Event>, g: nat, n: nat)
    requires Covered(log, g, n)
    ensures Covered(log + more, g, n)
  {
    var f :| 0 <= f < |log| && log[f] == Flushed && Count(log[..f], g) == n;
    assert (log + more)[..f] == log[..f];
  }

  /** When the ack at a went out, all writes of its epoch had completed; with flushes, one was
      issued after the last of them. */
  predicate AckOk(mode: Mode, log: seq<Event>, a: nat, closed: seq<Group>)
    requires a < |log| && log[a].Acking?
  {
    var g := log[a].gen;
    g < |closed| && Count(log[..a], g) == closed[g].1 && (mode == Flush ==> Covered(log[..a], g, closed[g].1))
  }

  predicate AcksOk(mode: Mode, log: seq<Event>, closed: seq<Group>) {
    forall a :: 0 <= a < |log| && log[a].Acking? ==> AckOk(mode, log, a, closed)
  }

  predicate Tracked(s: Node, i: nat)
    requires i < |s.ring|
  {
    var e := s.ring[i];
    && Count(s.log, e.gen) == e.size - e.inFlight
    && (s.mode == Flush && e.barrierDone ==> Covered(s.log, e.gen, e.size))
  }

  /** With flushes: until its barrier is done nobody can finish the current epoch, and the barrier
      is never marked done for an epoch that is still empty. */
  predicate FlushOk(s: Node)
    requires s.ring != []
  {
    var e, r := s.ring[s.Last()], s.receiver;
    && (!e.haveNr ==> !e.barrierDone)
    && (r in {Noting, Draining, Flushing, Marking} ==> e.haveNr && !e.finishing && !e.barrierDone)
    && (r in {Flushing, Marking} ==> Idle(s))
    && (r == Marking ==> Covered(s.log, e.gen, e.size))
    && (r in {Draining, Flushing, Marking, Allocating} && e.haveNr ==> e.issued)
    && (r == Allocating && !e.haveNr ==> !e.issued)
    && r != FailFlushing && r != FailMarking && (r.FailDraining? ==> !r.flush)
  }

  ghost predicate LogInv(s: Node) {
    && s.ring != []
    && (forall i :: 0 <= i < |s.ring| ==> Tracked(s, i))
    && (forall g: nat :: g > s.ring[s.Last()].gen ==> Count(s.log, g) == 0)
    && (s.mode == Flush ==> FlushOk(s))
    && AcksOk(s.mode, s.log, Closed(s.received))
  }

  lemma {:induction false} AcksStay(mode: Mode, log: seq<Event>, e: Event, closed: seq<Group>, closed': seq<Group>)
    requires AcksOk(mode, log, closed) && closed <= closed'
    requires e.Acking? ==>
      e.gen < |closed'| && Count(log, e.gen) == closed'[e.gen].1
      && (mode == Flush ==> Covered(log, e.gen, closed'[e.gen].1))
    ensures AcksOk(mode, log + [e], closed')
  {
    forall a | 0 <= a < |log + [e]| && (log + [e])[a].Acking? ensures AckOk(mode, log + [e], a, closed') {
      assert (log + [e])[..a] == log[..a];
      if a < |log| { assert AckOk(mode, log, a, closed); } else { assert log[..a] == log; }
    }
  }

  lemma {:induction false} MoreClosed(mode: Mode, log: seq<Event>, closed: seq<Group>, closed': seq<Group>)
    requires AcksOk(mode, log, closed) && closed <= closed'
    ensures AcksOk(mode, log, closed')
  {}

  // ----- steps that leave the log alone -----

  /** The epoch has the same completed writes as before, and a barrier that is done was so
      before, or is covered by now. */
  predicate Similar(s: Node, e: Epoch, e': Epoch) {
    && e'.gen == e.gen && e'.size - e'.inFlight == e.size - e.inFlight
    && (s.mode == Flush && e'.barrierDone ==> (e.barrierDone && e'.size == e.size) || Covered(s.log, e.gen, e'.size))
  }

  lemma {:induction false} LogFrame(s: Node, s': Node)
    requires LogInv(s) && s'.log == s.log && s'.mode == s.mode && Closed(s.received) <= Closed(s'.received)
    requires |s.ring| <= |s'.ring| <= |s.ring| + 1
    requires forall i :: 0 <= i < |s.ring| ==> Similar(s, s.ring[i], s'.ring[i])
    requires |s'.ring| > |s.ring| ==> s'.ring[|s.ring|] == Empty(s.ring[s.Last()].gen + 1)
    requires s'.mode == Flush ==> FlushOk(s')
    ensures LogInv(s')
  {
    MoreClosed(s.mode, s.log, Closed(s.received), Closed(s'.received));
    forall i | 0 <= i < |s'.ring| ensures Tracked(s', i) {
      if i < |s.ring| { assert Tracked(s, i) && Similar(s, s.ring[i], s'.ring[i]); }
    }
    assert Similar(s, s.ring[s.Last()], s'.ring[s.Last()]);
  }

  /** A failed allocation meets an epoch whose flush was issued, if there are flushes. */
  predicate Timely(s: Node, step: Step) {
    step.AllocFailed? && s.mode == Flush && s.ring != [] ==> s.ring[s.Last()].size != 0
  }

  lemma {:induction false} ReceivesLog(s: Node, step: Step, s': Node)
    requires Inv(s) && LogInv(s) && Next(s, step, s') && (step.RecvWrite? || step.RecvBarrier?)
    ensures LogInv(s')
  {
    Sends(s.received, if step.RecvWrite? then Write else Barrier(step.nr));
    assert Place(s, s.Last());
    forall i | 0 <= i < |s.ring| ensures Similar(s, s.ring[i], s'.ring[i]) { assert Tracked(s, i); }
    LogFrame(s, s');
  }

  lemma {:induction false} ReceiverLog(s: Node, step: Step, s': Node)
    requires Inv(s) && LogInv(s) && Next(s, step, s') && Orderly(s, step) && Timely(s, step)
    requires step.Noted? || step.Drained? || step.Marked? || step.Allocated? || step.AllocFailed? || step.FailDrained?
      || step.FailMarked? || step.GoesOn?
    ensures LogInv(s')
  {
    assert Place(s, s.Last());
    forall i | 0 <= i < |s.ring| ensures Similar(s, s.ring[i], s'.ring[i]) { assert Tracked(s, i); }
    LogFrame(s, s');
  }

  lemma {:induction false} PutFlushOk(s: Node, i: nat)
    requires s.mode == Flush && i < |s.ring| && s.ring[i].active > 0 && FlushOk(s)
    ensures FlushOk(PutWrite(s, i))
  {
    var t := PutWrite(s, i);
    assert Idle(s) ==> Idle(t);
  }

  lemma {:induction false} PutSimilar(s: Node, i: nat, j: nat)
    requires i < |s.ring| && s.ring[i].active > 0 && j < |s.ring| && Tracked(s, j)
    ensures Similar(s, s.ring[j], PutWrite(s, i).ring[j])
  {}

  lemma {:induction false} PutLog(s: Node, i: nat, s': Node)
    requires LogInv(s) && Next(s, Put(i), s')
    ensures LogInv(s')
  {
    forall j | 0 <= j < |s.ring| ensures Similar(s, s.ring[j], s'.ring[j]) { PutSimilar(s, i, j); }
    if s.mode == Flush { PutFlushOk(s, i); }
    LogFrame(s, s');
  }

  // ----- steps that extend it -----

  /** One more event that completes nothing. */
  lemma {:induction false} EventLogged(s: Node, s': Node, e: Event)
    requires LogInv(s) && s'.ring == s.ring && s'.log == s.log + [e] && !e.Completed? && s'.received == s.received
      && s'.mode == s.mode
    requires AcksOk(s.mode, s'.log, Closed(s.received)) && (s'.mode == Flush ==> FlushOk(s'))
    ensures LogInv(s')
  {
    forall h: nat ensures Count(s'.log, h) == Count(s.log, h) { CountSnoc(s.log, e, h); }
    forall j | 0 <= j < |s'.ring| ensures Tracked(s', j) {
      assert Tracked(s, j);
      if s.ring[j].barrierDone && s.mode == Flush { CoveredStays(s.log, [e], s.ring[j].gen, s.ring[j].size); }
    }
  }

  lemma {:induction false} DiskKeepsLog(s: Node, i: nat)
    requires Inv(s) && LogInv(s) && i < |s.ring| && s.ring[i].inFlight > 0
    ensures LogInv(CompleteWrite(s, i))
  {
    var t := CompleteWrite(s, i);
    var e := Completed(s.ring[i].gen);
    AcksStay(s.mode, s.log, e, Closed(s.received), Closed(s.received));
    assert Place(s, i) && Place(s, s.Last());
    forall g: nat ensures Count(t.log, g) == Count(s.log, g) + if g == s.ring[i].gen then 1 else 0 {
      CountSnoc(s.log, e, g);
    }
    forall j | 0 <= j < |t.ring| ensures Tracked(t, j) {
      assert Tracked(s, j) && Place(s, j) && Tracked(s, i);
      if s.ring[j].barrierDone && s.mode == Flush { CoveredStays(s.log, [e], s.ring[j].gen, s.ring[j].size); }
    }
  }

  lemma {:induction false} FlushKeepsLog(s: Node, next: Receiver)
    requires Inv(s) && LogInv(s)
    requires (s.receiver == Flushing && next == Marking) || (s.receiver == FailFlushing && next == FailMarking)
    ensures LogInv(FlushDisk(s, next))
  {
    var t := FlushDisk(s, next);
    if s.mode == Flush {
      AcksStay(s.mode, s.log, Flushed, Closed(s.received), Closed(s.received));
      assert Tracked(s, s.Last());
      assert t.log[|s.log|] == Flushed && t.log[..|s.log|] == s.log;
      EventLogged(s, t, Flushed);
    } else {
      forall j | 0 <= j < |t.ring| ensures Tracked(t, j) { assert Tracked(s, j); }
    }
  }

  /** An epoch that is being finished has completed, and was flushed if need be. */
  lemma {:induction false} AckDue(s: Node)
    requires Inv(s) && LogInv(s) && s.ring[0].finishing
    ensures var e, closed := s.ring[0], Closed(s.received);
      && e.gen < |closed| && Count(s.log, e.gen) == closed[e.gen].1
      && (s.mode == Flush ==> Covered(s.log, e.gen, closed[e.gen].1))
  {
    assert Place(s, 0) && Tracked(s, 0);
  }

  lemma {:induction false} AckLogged(s: Node, s': Node, e: Event)
    requires LogInv(s) && e.Acking? && s'.ring == s.ring && s'.log == s.log + [e] && s'.received == s.received
      && s'.mode == s.mode
    requires s'.receiver == s.receiver || s'.receiver.Ack?
    requires AcksOk(s.mode, s'.log, Closed(s.received))
    ensures LogInv(s')
  {
    if s.receiver == Marking && s.mode == Flush {
      CoveredStays(s.log, [e], s.ring[s.Last()].gen, s.ring[s.Last()].size);
    }
    EventLogged(s, s', e);
  }

  lemma {:induction false} AckKeepsLog(s: Node, s': Node, i: nat)
    requires Inv(s) && LogInv(s) && (Next(s, ReceiverAck(i), s') || Next(s, AsenderAck(i), s'))
    ensures LogInv(s')
  {
    assert Place(s, i) && Place(s, 0);
    AckDue(s);
    var e := Acking(s.ring[0].gen);
    AcksStay(s.mode, s.log, e, Closed(s.received), Closed(s.received));
    AckLogged(s, s', e);
  }

  lemma {:induction false} RecycleKeepsLog(s: Node, s': Node)
    requires Inv(s) && LogInv(s) && |s.ring| == 1 && s.ring[0].finishing && s'.ring == [Recycled(s.ring[0])]
    requires s'.log == s.log && s'.mode == s.mode && s'.received == s.received
      && (s'.receiver == Ready || s'.receiver == s.receiver)
    ensures LogInv(s')
  {
    assert Place(s, 0);
    assert Tracked(s', 0);
  }

  lemma {:induction false} RemoveKeepsLog(s: Node, s': Node)
    requires Inv(s) && LogInv(s) && |s.ring| > 1 && |s'.ring| == |s.ring| - 1
    requires forall j :: 0 <= j < |s'.ring| ==> s'.ring[j] == s.ring[j + 1].(finishing := s'.ring[j].finishing)
    requires s'.log == s.log && s'.mode == s.mode && s'.received == s.received && s'.receiver == s.receiver
    requires s'.ring[s'.Last()].finishing ==> s.ring[s.Last()].barrierDone || s.mode == Unordered
    ensures LogInv(s')
  {
    forall j | 0 <= j < |s'.ring| ensures Tracked(s', j) { assert Tracked(s, j + 1); }
  }

  lemma {:induction false} ShiftedRing(s: Node)
    requires Inv(s) && |s.ring| > 1
    ensures var t := Shifted(s);
      && |t.ring| == |s.ring| - 1
      && (t.ring[t.Last()].finishing ==> s.ring[s.Last()].barrierDone || s.mode == Unordered)
      && forall j :: 0 <= j < |t.ring| ==> t.ring[j] == s.ring[j + 1].(finishing := t.ring[j].finishing)
  {
    assert Place(s, s.Last());
  }

  lemma {:induction false} RelockKeepsLog(s: Node, s': Node, i: nat)
    requires Inv(s) && LogInv(s) && (Next(s, ReceiverRelock(i), s') || Next(s, AsenderRelock(i), s'))
    ensures LogInv(s')
  {
    RelockFirst(s, s', i);
    if |s.ring| == 1 {
      RelockOne(s, s');
      RecycleKeepsLog(s, s');
    } else {
      RelockMore(s, s', i);
      RetireShifts(s);
      ShiftedRing(s);
      RemoveKeepsLog(s, s');
    }
  }

  /** Every step keeps the order. */
  lemma {:induction false} NextKeepsLog(s: Node, step: Step, s': Node)
    requires Inv(s) && LogInv(s) && Next(s, step, s') && Orderly(s, step) && Timely(s, step)
    ensures LogInv(s')
  {
    match step
    case DiskDone(i) => DiskKeepsLog(s, i);
    case FlushIssued => FlushKeepsLog(s, Marking);
    case FailFlushed => FlushKeepsLog(s, FailMarking);
    case ReceiverAck(i) => AckKeepsLog(s, s', i);
    case AsenderAck(i) => AckKeepsLog(s, s', i);
    case ReceiverRelock(i) => RelockKeepsLog(s, s', i);
    case AsenderRelock(i) => RelockKeepsLog(s, s', i);
    case Put(i) => PutLog(s, i, s');
    case RecvWrite => ReceivesLog(s, step, s');
    case RecvBarrier(_) => ReceivesLog(s, step, s');
    case _ => ReceiverLog(s, step, s');
  }

  lemma {:induction false} InitLogInv(mode: Mode)
    ensures LogInv(Epochs.Init(mode))
  {}

  /** A failed allocation keeps the order of flushes and acks exactly when the current epoch was
      not recycled before it, or there are no flushes.  Otherwise its flush is for an empty epoch. */
  lemma {:induction false} AllocFailureExact(s: Node)
    requires Inv(s) && LogInv(s) && s.receiver == Allocating
    ensures LogInv(AllocFails(s)) <==> s.mode != Flush || s.ring[s.Last()].size != 0
  {
    var t := AllocFails(s);
    assert Place(s, s.Last());
    if s.mode != Flush || s.ring[s.Last()].size != 0 {
      ReceiverLog(s, AllocFailed, t);
    }
  }
}
