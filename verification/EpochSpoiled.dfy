/** When the receiver goes on without a new epoch although the current one was not recycled: from
    every such state the acks go wrong. */
module EpochSpoiled {
  import opened TransferLog
  import opened BarrierSender
  import opened Epochs

  // ----- what holds besides Epochs.Inv -----

  predicate Done(s: Node, e: Epoch) { e.barrierDone || s.mode == Unordered }

  /** An epoch that has its barrier is done with it, unless the receiver is still about it. */
  predicate Passed(s: Node, i: nat)
    requires i < |s.ring|
  {
    s.ring[i].haveNr ==> Done(s, s.ring[i]) || (i == s.Last() && s.receiver in {Noting, Draining, Flushing, Marking})
  }

  /** Nobody overlooks that the oldest epoch may finish. */
  predicate Prompt(s: Node) {
    && s.ring != [] && !MayFinish(s, 0)
    && forall i :: 0 <= i < |s.ring| ==> Passed(s, i)
  }

  lemma {:induction false} PromptReceiver(s: Node, step: Step, s': Node)
    requires Inv(s) && Prompt(s) && Next(s, step, s')
    requires !step.DiskDone? && !step.Put? && !step.ReceiverAck? && !step.AsenderAck? && !step.ReceiverRelock?
      && !step.AsenderRelock?
    ensures Prompt(s')
  {
    assert Passed(s, s.Last());
    forall i | 0 <= i < |s'.ring| ensures Passed(s', i) {
      if i < |s.ring| { assert Passed(s, i); }
    }
  }

  lemma {:induction false} PromptOther(s: Node, step: Step, s': Node)
    requires Inv(s) && Prompt(s) && Next(s, step, s')
    requires step.DiskDone? || step.Put? || step.ReceiverAck? || step.AsenderAck?
    ensures Prompt(s')
  {
    assert Place(s, 0);
    forall i | 0 <= i < |s'.ring| ensures Passed(s', i) { assert Passed(s, i); }
  }

  lemma {:induction false} PromptShifted(s: Node)
    requires Prompt(s) && |s.ring| > 1
    ensures Prompt(Shifted(s))
  {
    var t := Shifted(s);
    assert Passed(s, s.Last());
    forall j | 0 <= j < |t.ring| ensures Passed(t, j) { assert Passed(s, j + 1); }
  }

  lemma {:induction false} PromptRelock(s: Node, i: nat, s': Node)
    requires Inv(s) && Prompt(s) && (Next(s, ReceiverRelock(i), s') || Next(s, AsenderRelock(i), s'))
    ensures Prompt(s')
  {
    RelockFirst(s, s', i);
    if |s.ring| == 1 {
      RelockOne(s, s');
    } else {
      RelockMore(s, s', i);
      RetireShifts(s);
      PromptShifted(s);
    }
  }

  lemma {:induction false} PromptKept(s: Node, step: Step, s': Node)
    requires Inv(s) && Prompt(s) && Next(s, step, s')
    ensures Prompt(s')
  {
    match step
    case ReceiverRelock(i) => PromptRelock(s, i, s');
    case AsenderRelock(i) => PromptRelock(s, i, s');
    case DiskDone(_) => PromptOther(s, step, s');
    case Put(_) => PromptOther(s, step, s');
    case ReceiverAck(_) => PromptOther(s, step, s');
    case AsenderAck(_) => PromptOther(s, step, s');
    case _ => PromptReceiver(s, step, s');
  }

  predicate Good(s: Node) { Inv(s) && Prompt(s) }

  lemma {:induction false} PathGood(ns: seq<Node>, steps: seq<Step>, k: nat)
    requires Path(ns, steps, true) && Good(ns[0]) && k <= |steps|
    ensures Good(ns[k])
  {
    if k > 0 {
      PathGood(ns, steps, k - 1);
      assert Happens(ns, steps, k - 1, true);
      NextKeeps(ns[k - 1], steps[k - 1], ns[k]);
      PromptKept(ns[k - 1], steps[k - 1], ns[k]);
    }
  }

  /** Every run of orderly steps keeps both. */
  lemma {:induction false} StaysGood(s: Node, t: Node)
    requires Good(s) && Leads(s, t, true)
    ensures Good(t)
  {
    var ns, steps :| Path(ns, steps, true) && ns[0] == s && ns[|steps|] == t;
    PathGood(ns, steps, |steps|);
  }

  lemma {:induction false} InitGood(mode: Mode)
    ensures Good(Epochs.Init(mode))
  {
    InitInv(mode);
  }

  // ----- the current epoch is not being finished: its ack counts one write too many -----

  predicate Sound(s: Node, i: nat)
    requires i < |s.ring|
  {
    var e := s.ring[i];
    && e.gen == s.ring[0].gen + i && e.inFlight <= e.active
    && (i < s.Last() ==> e.haveNr && e.size > 0 && Done(s, e))
    && (i > 0 ==> !e.finishing)
  }

  /** The asender can finish the older epochs one by one, and then the current one with n writes. */
  predicate Doomed(s: Node, g: nat, nr: nat, n: nat) {
    && s.ring != [] && s.receiver == Ready && !MayFinish(s, 0)
    && (forall i :: 0 <= i < |s.ring| ==> Sound(s, i))
    && (s.asender.Sending? <==> s.ring[0].finishing)
    && (s.asender.Sending? ==> s.asender.gen == s.ring[0].gen)
    && |s.acks| == s.ring[0].gen + (if s.asender.Sending? && s.asender.sent then 1 else 0)
    && (var e := s.ring[s.Last()];
        e.gen == g && e.nr == nr && e.haveNr && e.size == n > 0 && e.active > 0 && !e.finishing && Done(s, e))
  }

  lemma {:induction false} DoomedDisk(s: Node, g: nat, nr: nat, n: nat)
    requires Doomed(s, g, nr, n) && s.ring[0].inFlight > 0
    ensures Doomed(CompleteWrite(s, 0), g, nr, n)
  {
    var t := CompleteWrite(s, 0);
    forall i | 0 <= i < |t.ring| ensures Sound(t, i) { assert Sound(s, i); }
  }

  lemma {:induction false} DoomedPut(s: Node, g: nat, nr: nat, n: nat)
    requires Doomed(s, g, nr, n) && s.asender == Waiting && s.ring[0].inFlight == 0 && s.ring[0].active > 0
    requires |s.ring| > 1 || s.ring[0].active > 1
    ensures Doomed(PutWrite(s, 0), g, nr, n)
  {
    var t := PutWrite(s, 0);
    forall i | 0 <= i < |t.ring| ensures Sound(t, i) { assert Sound(s, i); }
  }

  lemma {:induction false} DoomedAck(s: Node, g: nat, nr: nat, n: nat)
    requires Doomed(s, g, nr, n) && s.asender.Sending? && !s.asender.sent
    ensures Doomed(SendAck(s, 0, s.asender.size).(asender := s.asender.(sent := true)), g, nr, n)
  {
    var t := SendAck(s, 0, s.asender.size).(asender := s.asender.(sent := true));
    forall i | 0 <= i < |t.ring| ensures Sound(t, i) { assert Sound(s, i); }
  }

  lemma {:induction false} DoomedShift(s: Node, g: nat, nr: nat, n: nat)
    requires Doomed(s, g, nr, n) && s.asender.Sending? && s.asender.sent
    ensures |s.ring| > 1 && Doomed(Shifted(s), g, nr, n)
  {
    var r := s.ring[1..];
    var t := s.(ring := r, asender := Waiting);
    assert Sound(s, 1) && r[|r| - 1] == s.ring[s.Last()];
    forall i | 0 <= i < |r| ensures Sound(t, i) && !r[i].finishing { assert Sound(s, i + 1); }
    if MayFinish(t, 0) {
      forall i | 0 <= i < |r| ensures Sound(Shifted(s), i) { assert Sound(t, i); }
    }
  }

  function Phase(a: Asender): nat { if a == Waiting then 2 else if !a.sent then 1 else 0 }

  /** The last put on the last epoch, and the ack. */
  lemma {:induction false} DoomedEnds(x: Node, s: Node, g: nat, nr: nat, n: nat) returns (u: Node)
    requires Leads(x, s, true) && Doomed(s, g, nr, n) && s.asender == Waiting
    requires |s.ring| == 1 && s.ring[0].inFlight == 0 && s.ring[0].active == 1
    ensures Leads(x, u, true) && u.received == s.received && u.acks == s.acks + [(nr, n)] && |s.acks| == g
  {
    var e := s.ring[0];
    var t := s.(ring := [e.(active := 0, finishing := true)], asender := Sending(g, n, false));
    assert PutWrite(s, 0) == t;
    Further(x, s, Put(0), t, true);
    u := SendAck(t, 0, n).(asender := Sending(g, n, true));
    Further(x, t, AsenderAck(0), u, true);
  }

  lemma {:induction false} DoomedRuns(x: Node, s: Node, g: nat, nr: nat, n: nat) returns (u: Node)
    requires Leads(x, s, true) && Doomed(s, g, nr, n)
    ensures Leads(x, u, true) && u.received == s.received && |u.acks| == g + 1 && u.acks[g] == (nr, n)
    decreases |s.ring|, Phase(s.asender), s.ring[0].active + s.ring[0].inFlight
  {
    assert Sound(s, 0);
    var e := s.ring[0];
    var t;
    if s.asender.Sending? && s.asender.sent {
      DoomedShift(s, g, nr, n);
      RetireShifts(s);
      t := Shifted(s);
      Further(x, s, AsenderRelock(0), t, true);
      u := DoomedRuns(x, t, g, nr, n);
    } else if s.asender.Sending? {
      DoomedAck(s, g, nr, n);
      t := SendAck(s, 0, s.asender.size).(asender := s.asender.(sent := true));
      Further(x, s, AsenderAck(0), t, true);
      u := DoomedRuns(x, t, g, nr, n);
    } else if e.inFlight > 0 {
      DoomedDisk(s, g, nr, n);
      t := CompleteWrite(s, 0);
      Further(x, s, DiskDone(0), t, true);
      u := DoomedRuns(x, t, g, nr, n);
    } else if |s.ring| > 1 || e.active > 1 {
      DoomedPut(s, g, nr, n);
      t := PutWrite(s, 0);
      Further(x, s, Put(0), t, true);
      u := DoomedRuns(x, t, g, nr, n);
    } else {
      u := DoomedEnds(x, s, g, nr, n);
    }
  }

  /** The receiver has gone on, and a write has come in. */
  lemma {:induction false} WriteDooms(s: Node)
    requires Good(s) && s.receiver == FailWaiting && s.ring[s.Last()].size != 0 && !s.ring[s.Last()].finishing
    ensures var e := s.ring[s.Last()]; Doomed(GetWrite(s.(receiver := Ready)), e.gen, e.nr, e.size + 1)
  {
    var t := GetWrite(s.(receiver := Ready));
    assert Place(s, s.Last()) && Passed(s, s.Last()) && Place(s, 0);
    forall i | 0 <= i < |t.ring| ensures Sound(t, i) { assert Place(s, i) && Passed(s, i); }
  }

  lemma {:induction false} OneTooMany(s: Node) returns (u: Node)
    requires Good(s) && s.receiver == FailWaiting && s.ring[s.Last()].size != 0 && !s.ring[s.Last()].finishing
    ensures Leads(s.(receiver := Ready), u, true) && !(u.acks <= Closed(u.received))
  {
    var x, e := s.(receiver := Ready), s.ring[s.Last()];
    Stays(x, true);
    var t := GetWrite(x);
    Further(x, x, RecvWrite, t, true);
    WriteDooms(s);
    u := DoomedRuns(x, t, e.gen, e.nr, e.size + 1);
    Sends(s.received, Write);
    assert Place(s, s.Last());
  }

  // ----- it is: the next ack counts one write too few -----

  /** The epoch is recycled with the write still open. */
  lemma {:induction false} Leftover(s: Node) returns (t: Node)
    requires Good(s) && s.receiver == FailWaiting && s.ring[s.Last()].finishing
    ensures Leads(s.(receiver := Ready), t, true)
    ensures |s.ring| == 1 && t.mode == s.mode && t.receiver == Ready && t.asender == Waiting
    ensures var e := s.ring[0];
      t.ring == [Epoch(e.gen + 1, 0, 1, 1, e.nr, false, false, false, false)] && |t.acks| == e.gen + 1
    ensures t.received == s.received + [Write]
  {
    var x, e := s.(receiver := Ready), s.ring[s.Last()];
    assert Place(s, s.Last());
    Stays(x, true);
    var a := x.(ring := [e.(size := e.size + 1, active := 1, inFlight := 1)], received := s.received + [Write]);
    assert GetWrite(x) == a;
    Further(x, x, RecvWrite, a, true);
    var b := a;
    if !s.asender.sent {
      b := SendAck(a, 0, s.asender.size).(asender := s.asender.(sent := true));
      Further(x, a, AsenderAck(0), b, true);
    }
    t := b.(ring := [Recycled(b.ring[0])], asender := Waiting);
    assert RetireBySender(b, 0) == t;
    Further(x, b, AsenderRelock(0), t, true);
  }

  /** Another write joins, and both are done. */
  lemma {:induction false} BothWritten(x: Node, s: Node) returns (t: Node)
    requires Leads(x, s, true) && s.receiver == Ready && s.asender == Waiting && |s.ring| == 1
    requires var e := s.ring[0]; e.size == 0 && e.active == 1 == e.inFlight && !e.haveNr && !e.finishing
    ensures Leads(x, t, true) && t.received == s.received + [Write]
    ensures t == s.(ring := [s.ring[0].(size := 1, active := 0, inFlight := 0)], received := t.received, log := t.log)
  {
    var e := s.ring[0];
    var a := s.(ring := [e.(size := 1, active := 2, inFlight := 2)], received := s.received + [Write]);
    assert GetWrite(s) == a;
    Further(x, s, RecvWrite, a, true);
    var b := a.(ring := [e.(size := 1, active := 2, inFlight := 1)], log := a.log + [Completed(e.gen)]);
    assert CompleteWrite(a, 0) == b;
    Further(x, a, DiskDone(0), b, true);
    var c := b.(ring := [e.(size := 1, active := 2, inFlight := 0)], log := b.log + [Completed(e.gen)]);
    assert CompleteWrite(b, 0) == c;
    Further(x, b, DiskDone(0), c, true);
    var d := c.(ring := [e.(size := 1, active := 1, inFlight := 0)]);
    assert PutWrite(c, 0) == d;
    Further(x, c, Put(0), d, true);
    t := d.(ring := [e.(size := 1, active := 0, inFlight := 0)]);
    assert PutWrite(d, 0) == t;
    Further(x, d, Put(0), t, true);
  }

  /** A barrier for a single epoch without open writes: the receiver is about to ack it. */
  lemma {:induction false} BarrierActs(x: Node, s: Node, nr: nat) returns (t: Node)
    requires Leads(x, s, true) && s.receiver == Ready && s.asender == Waiting && |s.ring| == 1 && Open(s.received) > 0
    requires var e := s.ring[0]; e.size > 0 && e.active == 0 == e.inFlight && !e.finishing && !e.barrierDone
    ensures Leads(x, t, true) && t.received == s.received + [Barrier(nr)] && t.acks == s.acks
    ensures |t.ring| == 1 && t.ring[0].gen == s.ring[0].gen && t.ring[0].nr == nr
    ensures t.receiver == Ack(s.ring[0].gen, s.ring[0].size, false, false, false)
  {
    var e := s.ring[0].(nr := nr, haveNr := true);
    var act := Ack(e.gen, e.size, false, false, false);
    if s.mode == Unordered {
      t := s.(ring := [e.(finishing := true)], receiver := act, received := s.received + [Barrier(nr)]);
      assert GetBarrier(s, nr) == t;
      Further(x, s, RecvBarrier(nr), t, true);
    } else {
      var a := s.(ring := [e], receiver := Noting, received := s.received + [Barrier(nr)]);
      assert GetBarrier(s, nr) == a;
      Further(x, s, RecvBarrier(nr), a, true);
      t := MarkingActs(x, a);
    }
  }

  lemma {:induction false} MarkingActs(x: Node, a: Node) returns (t: Node)
    requires Leads(x, a, true) && a.receiver == Noting && a.mode != Unordered && |a.ring| == 1
    requires var e := a.ring[0]; e.size > 0 && e.active == 0 == e.inFlight && !e.finishing && e.haveNr
    ensures Leads(x, t, true) && t.received == a.received && t.acks == a.acks
    ensures |t.ring| == 1 && t.ring[0].gen == a.ring[0].gen && t.ring[0].nr == a.ring[0].nr
    ensures t.receiver == Ack(a.ring[0].gen, a.ring[0].size, false, false, false)
  {
    var e := a.ring[0];
    var b := a.(ring := [e.(issued := true)], receiver := Draining);
    assert NoteIssued(a) == b;
    Further(x, a, Noted, b, true);
    var c := b.(receiver := Flushing);
    Further(x, b, Drained, c, true);
    var d := FlushDisk(c, Marking);
    Further(x, c, FlushIssued, d, true);
    t := d.(ring := [e.(issued := true, barrierDone := true, finishing := true)],
            receiver := Ack(e.gen, e.size, false, false, false));
    assert BarrierIsDone(d, Allocating) == t;
    Further(x, d, Marked, t, true);
  }

  lemma {:induction false} TwoWrites(p: seq<Packet>, nr: nat)
    ensures var q := p + [Write] + [Write];
      Open(q) == Open(p) + 2 && Closed(q + [Barrier(nr)]) == Closed(p) + [(nr, Open(p) + 2)]
  {
    Sends(p, Write);
    Sends(p + [Write], Write);
    Sends(p + [Write] + [Write], Barrier(nr));
  }

  lemma {:induction false} NextAck(x: Node, b: Node, nr: nat) returns (u: Node)
    requires Leads(x, b, true) && b.receiver == Ready && b.asender == Waiting && |b.ring| == 1 && Open(b.received) > 0
    requires var e := b.ring[0]; e.size > 0 && e.active == 0 == e.inFlight && !e.finishing && !e.barrierDone
    ensures Leads(x, u, true) && u.received == b.received + [Barrier(nr)] && u.acks == b.acks + [(nr, b.ring[0].size)]
  {
    var c := BarrierActs(x, b, nr);
    u := SendAck(c, 0, b.ring[0].size).(receiver := c.receiver.(sent := true));
    Further(x, c, ReceiverAck(0), u, true);
  }

  lemma {:induction false} OneTooFew(s: Node, nr: nat) returns (u: Node)
    requires Good(s) && s.receiver == FailWaiting && s.ring[s.Last()].finishing
    ensures Leads(s.(receiver := Ready), u, true) && !(u.acks <= Closed(u.received))
  {
    var x, g := s.(receiver := Ready), s.ring[s.Last()].gen;
    assert |Closed(s.received)| == g + 1 && Open(s.received) == 0 by { assert Place(s, s.Last()); }
    var a := Leftover(s);
    var b := BothWritten(x, a);
    TwoWrites(s.received, nr);
    u := NextAck(x, b, nr);
    assert u.acks[g + 1] == (nr, 1) && Closed(u.received)[g + 1] == (nr, 2);
  }

  // ----- exactly when going on is right -----

  /** All acks of all orderly runs from s on are those that the primary expects. */
  ghost predicate AcksRight(s: Node) {
    forall u :: Leads(s, u, true) ==> u.acks <= Closed(u.received)
  }

  lemma {:induction false} GoodAcks(s: Node)
    requires Good(s)
    ensures AcksRight(s)
  {
    forall u | Leads(s, u, true) ensures u.acks <= Closed(u.received) { StaysGood(s, u); }
  }

  lemma {:induction false} GoesOnIff(s: Node)
    requires Good(s) && s.receiver == FailWaiting
    ensures AcksRight(s.(receiver := Ready)) <==> s.ring[s.Last()].size == 0
  {
    var t, u := s.(receiver := Ready), s;
    if s.ring[s.Last()].size == 0 {
      GoesOnKeeps(s);
      PromptKept(s, GoesOn, t);
      GoodAcks(t);
    } else if s.ring[s.Last()].finishing {
      u := OneTooFew(s, 0);
      assert !AcksRight(t);
    } else {
      u := OneTooMany(s);
      assert !AcksRight(t);
    }
  }

  /** In every state that is reached in order and in which the receiver could not allocate an epoch
      and has waited: going on with the current one is right exactly when that was recycled by
      then. */
  lemma {:induction false} GoesOnExact(mode: Mode, s: Node)
    requires Leads(Epochs.Init(mode), s, true) && s.receiver == FailWaiting
    ensures s.ring != [] && (AcksRight(s.(receiver := Ready)) <==> s.ring[s.Last()].size == 0)
  {
    InitGood(mode);
    StaysGood(Epochs.Init(mode), s);
    GoesOnIff(s);
  }
}
