/** The secondary's side of the barrier protocol: a ring of write epochs that the receiver fills
    and closes, and that the receiver and the asender finish, dropping epoch_lock while a barrier
    ack goes out.  Each step is one section under epoch_lock, or one action outside of it. */
module Epochs {
  import opened TransferLog
  import opened BarrierSender

  /** WO_none, WO_drain_io, WO_bdev_flush */
  datatype Mode = Unordered | Drain | Flush

  /** A drbd_epoch.  gen numbers its successive uses; inFlight counts the writes that the disk
      has not completed, active those that the asender has not put. */
  datatype Epoch = Epoch(gen: nat, size: nat, active: nat, inFlight: nat,
                         nr: nat, haveNr: bool, issued: bool, barrierDone: bool, finishing: bool)

  function Empty(gen: nat): Epoch { Epoch(gen, 0, 0, 0, 0, false, false, false, false) }

  /** Size and flags are reset for the next use, the counters of open writes are not. */
  function Recycled(e: Epoch): Epoch {
    e.(gen := e.gen + 1, size := 0, haveNr := false, issued := false, barrierDone := false, finishing := false)
  }

  /** What happened to the disk and on the wire, in order. */
  datatype Event = Completed(gen: nat) | Flushed | Acking(gen: nat)

  /** Where the receiver is in receive_Barrier.  Ack is the unlocked part of drbd_may_finish_epoch;
      destroyed tells that an epoch was removed from the ring in the same call.  The last four are
      the path it takes when it cannot allocate the next epoch; failed tells an Ack on that path. */
  datatype Receiver =
    | Ready | Noting | Draining | Flushing | Marking | Allocating
    | Ack(gen: nat, size: nat, sent: bool, destroyed: bool, failed: bool)
    | FailDraining(flush: bool) | FailFlushing | FailMarking | FailWaiting
  datatype Asender = Waiting | Sending(gen: nat, size: nat, sent: bool)

  datatype Node = Node(mode: Mode, ring: seq<Epoch>, receiver: Receiver, asender: Asender,
                       received: seq<Packet>, acks: seq<Group>, log: seq<Event>) {
    function Last(): nat
      requires ring != []
    {
      |ring| - 1
    }
    function Set(i: nat, e: Epoch): Node
      requires i < |ring|
    {
      this.(ring := ring[i := e])
    }
  }

  /** The condition in drbd_may_finish_epoch; only the oldest epoch of the ring may finish. */
  predicate MayFinish(s: Node, i: nat)
    requires i < |s.ring|
  {
    var e := s.ring[i];
    e.size != 0 && e.active == 0 && e.haveNr && i == 0 && !e.finishing && (e.barrierDone || s.mode == Unordered)
  }

  function MarkFinishing(s: Node, i: nat): Node
    requires i < |s.ring|
  {
    s.Set(i, s.ring[i].(finishing := true))
  }

  // ----- the receiver -----

  /** receive_Data */
  function GetWrite(s: Node): Node
    requires s.ring != []
  {
    var e := s.ring[s.Last()];
    s.Set(s.Last(), e.(size := e.size + 1, active := e.active + 1, inFlight := e.inFlight + 1))
      .(received := s.received + [Write])
  }

  /** The receiver's side of a drbd_may_finish_epoch on the current epoch. */
  function TryFinish(s: Node, next: Receiver): Node
    requires s.ring != []
  {
    var e := s.ring[s.Last()];
    if MayFinish(s, s.Last()) then
      MarkFinishing(s, s.Last()).(receiver := Ack(e.gen, e.size, false, false, next == FailWaiting))
    else s.(receiver := next)
  }

  /** The beginning of receive_Barrier, with EV_GOT_BARRIER_NR */
  function GetBarrier(s: Node, nr: nat): Node
    requires s.ring != []
  {
    TryFinish(s.Set(s.Last(), s.ring[s.Last()].(nr := nr, haveNr := true)).(received := s.received + [Barrier(nr)]),
              if s.mode == Unordered then Allocating else Noting)
  }

  /** The ordered modes note that a flush is due. */
  function NoteIssued(s: Node): Node
    requires s.ring != []
  {
    s.Set(s.Last(), s.ring[s.Last()].(issued := true)).(receiver := Draining)
  }

  /** drbd_flush_after_epoch: the flush, then EV_BARRIER_DONE */
  function FlushDisk(s: Node, next: Receiver): Node {
    s.(receiver := next, log := if s.mode == Flush then s.log + [Flushed] else s.log)
  }
  function BarrierIsDone(s: Node, next: Receiver): Node
    requires s.ring != []
  {
    TryFinish(s.Set(s.Last(), s.ring[s.Last()].(barrierDone := true)), next)
  }

  /** The end of receive_Barrier: a new epoch, unless the current one was recycled meanwhile. */
  function NewCurrent(s: Node): Node
    requires s.ring != []
  {
    if s.ring[s.Last()].size != 0 then s.(ring := s.ring + [Empty(s.ring[s.Last()].gen + 1)], receiver := Ready)
    else s.(receiver := Ready)
  }

  /** There is no memory for it: the current epoch will have to do.  Unless a flush was issued for
      it, there is a flush and EV_BARRIER_DONE now. */
  function AllocFails(s: Node): Node
    requires s.ring != []
  {
    var e := s.ring[s.Last()];
    s.Set(s.Last(), e.(issued := true)).(receiver := FailDraining(!e.issued))
  }

  /** No write is with the disk. */
  predicate Idle(s: Node) { forall i :: 0 <= i < |s.ring| ==> s.ring[i].inFlight == 0 }

  // ----- disk and asender -----

  function CompleteWrite(s: Node, i: nat): Node
    requires i < |s.ring| && s.ring[i].inFlight > 0
  {
    s.Set(i, s.ring[i].(inFlight := s.ring[i].inFlight - 1)).(log := s.log + [Completed(s.ring[i].gen)])
  }

  /** The end of e_end_block, with EV_PUT */
  function PutWrite(s: Node, i: nat): Node
    requires i < |s.ring| && s.ring[i].active > 0
  {
    var t := s.Set(i, s.ring[i].(active := s.ring[i].active - 1));
    if MayFinish(t, i) then MarkFinishing(t, i).(asender := Sending(t.ring[i].gen, t.ring[i].size, false)) else t
  }

  // ----- both, outside the lock and after it is taken again -----

  /** drbd_send_b_ack on the epoch at i */
  function SendAck(s: Node, i: nat, size: nat): Node
    requires i < |s.ring|
  {
    s.(acks := s.acks + [(s.ring[i].nr, size)], log := s.log + [Acking(s.ring[i].gen)])
  }

  /** The current epoch is recycled, any other one leaves the ring. */
  function Retire(s: Node, i: nat): Node
    requires i < |s.ring|
  {
    if i == s.Last() then s.Set(i, Recycled(s.ring[i])) else s.(ring := s.ring[..i] + s.ring[i + 1..])
  }

  /** Retire the epoch, then look at its successor with EV_BECAME_LAST. */
  function RetireBySender(s: Node, i: nat): Node
    requires i < |s.ring|
  {
    var t := Retire(s, i);
    if i != s.Last() && MayFinish(t, i) then
      MarkFinishing(t, i).(asender := Sending(t.ring[i].gen, t.ring[i].size, false))
    else t.(asender := Waiting)
  }

  function RetireByReceiver(s: Node, i: nat, destroyed: bool, failed: bool): Node
    requires i < |s.ring|
  {
    var t := Retire(s, i);
    if i != s.Last() && MayFinish(t, i) then
      MarkFinishing(t, i).(receiver := Ack(t.ring[i].gen, t.ring[i].size, false, true, failed))
    else t.(receiver := if i == s.Last() && !destroyed then Ready else if failed then FailWaiting else Allocating)
  }

  datatype Step =
    | RecvWrite | RecvBarrier(nr: nat) | Noted | Drained | FlushIssued | Marked | Allocated
    | AllocFailed | FailDrained | FailFlushed | FailMarked | GoesOn
    | DiskDone(i: nat) | Put(i: nat)
    | ReceiverAck(i: nat) | ReceiverRelock(i: nat) | AsenderAck(i: nat) | AsenderRelock(i: nat)

  predicate Next(s: Node, step: Step, s': Node) {
    s.ring != [] &&
    match step
    case RecvWrite => s.receiver == Ready && s' == GetWrite(s)
    case RecvBarrier(nr) => s.receiver == Ready && s' == GetBarrier(s, nr)
    case Noted => s.receiver == Noting && s' == NoteIssued(s)
    case Drained => s.receiver == Draining && Idle(s) && s' == s.(receiver := Flushing)
    case FlushIssued => s.receiver == Flushing && s' == FlushDisk(s, Marking)
    case Marked => s.receiver == Marking && s' == BarrierIsDone(s, Allocating)
    case Allocated => s.receiver == Allocating && s' == NewCurrent(s)
    case AllocFailed => s.receiver == Allocating && s' == AllocFails(s)
    case FailDrained =>
      s.receiver.FailDraining? && Idle(s)
      && s' == s.(receiver := if s.receiver.flush then FailFlushing else FailWaiting)
    case FailFlushed => s.receiver == FailFlushing && s' == FlushDisk(s, FailMarking)
    case FailMarked => s.receiver == FailMarking && s' == BarrierIsDone(s, FailWaiting)
    // done_ee is empty as soon as the asender has its writes in hand, put or not
    case GoesOn => s.receiver == FailWaiting && s' == s.(receiver := Ready)
    case DiskDone(i) => i < |s.ring| && s.ring[i].inFlight > 0 && s' == CompleteWrite(s, i)
    case Put(i) => s.asender == Waiting && i < |s.ring| && s.ring[i].active > s.ring[i].inFlight && s' == PutWrite(s, i)
    case ReceiverAck(i) =>
      && s.receiver.Ack? && !s.receiver.sent && i < |s.ring| && s.ring[i].gen == s.receiver.gen
      && s' == SendAck(s, i, s.receiver.size).(receiver := s.receiver.(sent := true))
    case ReceiverRelock(i) =>
      && s.receiver.Ack? && s.receiver.sent && i < |s.ring| && s.ring[i].gen == s.receiver.gen
      && s' == RetireByReceiver(s, i, s.receiver.destroyed, s.receiver.failed)
    case AsenderAck(i) =>
      && s.asender.Sending? && !s.asender.sent && i < |s.ring| && s.ring[i].gen == s.asender.gen
      && s' == SendAck(s, i, s.asender.size).(asender := s.asender.(sent := true))
    case AsenderRelock(i) =>
      && s.asender.Sending? && s.asender.sent && i < |s.ring| && s.ring[i].gen == s.asender.gen
      && s' == RetireBySender(s, i)
  }

  // ----- the invariant -----

  /** Some thread is between setting DE_IS_FINISHING and taking the lock again; sent tells
      whether the ack is out. */
  predicate Gap(s: Node, sent: bool) {
    (s.receiver.Ack? && s.receiver.sent == sent) || (s.asender.Sending? && s.asender.sent == sent)
  }

  /** What the epoch at i stands for: all writes between two barriers, or those since the last. */
  predicate Place(s: Node, i: nat)
    requires i < |s.ring|
  {
    var e, closed := s.ring[i], Closed(s.received);
    && e.gen == s.ring[0].gen + i
    && e.inFlight <= e.active <= e.size
    && (e.haveNr ==> e.gen < |closed| && closed[e.gen] == (e.nr, e.size) && e.size > 0)
    && (!e.haveNr ==> i == s.Last() && e.gen == |closed| && e.size == Open(s.received) && !e.finishing)
    && (e.finishing ==> i == 0 && e.active == 0 && (e.barrierDone || s.mode == Unordered))
  }

  /** The receiver is inside receive_Barrier: the current epoch has its barrier, or was recycled since. */
  predicate Busy(s: Node)
    requires s.ring != []
  {
    var e := s.ring[s.Last()];
    && (e.haveNr ==> s.receiver != Ready && e.gen == |Closed(s.received)| - 1)
    && (s.receiver != Ready ==> Open(s.received) == 0)
    && (s.receiver != Ready && !e.haveNr ==> |s.ring| == 1)
  }

  /** At most one thread is in the gap, on the oldest epoch, and it has that epoch's size. */
  predicate GapOk(s: Node)
    requires s.ring != []
  {
    var e := s.ring[0];
    && (e.finishing <==> s.receiver.Ack? || s.asender.Sending?)
    && (s.receiver.Ack? ==> |s.ring| == 1 && !s.receiver.destroyed && s.asender == Waiting)
    && (s.receiver.Ack? ==> s.receiver.gen == e.gen && s.receiver.size == e.size)
    && (s.asender.Sending? ==> s.asender.gen == e.gen && s.asender.size == e.size)
    && s.acks <= Closed(s.received) && |s.acks| == e.gen + if Gap(s, true) then 1 else 0
  }

  predicate Inv(s: Node) {
    && s.ring != []
    && (forall i :: 0 <= i < |s.ring| ==> Place(s, i))
    && Busy(s) && GapOk(s)
  }

  // ----- every step keeps it -----

  lemma {:induction false} WriteKeeps(s: Node)
    requires Inv(s) && s.receiver == Ready
    ensures Inv(GetWrite(s))
  {
    var t := GetWrite(s);
    Sends(s.received, Write);
    assert Place(s, s.Last());
    forall i | 0 <= i < |t.ring| ensures Place(t, i) { assert Place(s, i) && Place(s, 0); }
  }

  /** Any step of the receiver on the current epoch that may finish it. */
  lemma {:induction false} TryFinishKeeps(s: Node, next: Receiver)
    requires s.ring != [] && (forall i :: 0 <= i < |s.ring| ==> Place(s, i)) && !s.receiver.Ack? && GapOk(s)
    requires if s.ring[s.Last()].haveNr then s.ring[s.Last()].gen == |Closed(s.received)| - 1 else |s.ring| == 1
    requires Open(s.received) == 0 && !next.Ack? && next != Ready
    ensures Inv(TryFinish(s, next))
  {
    var t := TryFinish(s, next);
    forall i | 0 <= i < |t.ring| ensures Place(t, i) { assert Place(s, i) && Place(s, 0); }
  }

  /** Flags of the current epoch other than haveNr and finishing. */
  lemma {:induction false} FlagsKeep(s: Node, issued: bool, barrierDone: bool)
    requires Inv(s) && !s.receiver.Ack? && (s.ring[s.Last()].barrierDone ==> barrierDone)
    ensures Inv(s.Set(s.Last(), s.ring[s.Last()].(issued := issued, barrierDone := barrierDone)))
  {
    var t := s.Set(s.Last(), s.ring[s.Last()].(issued := issued, barrierDone := barrierDone));
    forall i | 0 <= i < |t.ring| ensures Place(t, i) { assert Place(s, i) && Place(s, 0); }
  }

  lemma {:induction false} ReceiverKeeps(s: Node, r: Receiver, log: seq<Event>)
    requires Inv(s) && !s.receiver.Ack? && !r.Ack? && s.receiver != Ready && r != Ready
    ensures Inv(s.(receiver := r, log := log))
  {
    var t := s.(receiver := r, log := log);
    forall i | 0 <= i < |t.ring| ensures Place(t, i) { assert Place(s, i); }
  }

  lemma {:induction false} BarrierPlaces(s: Node, nr: nat, t: Node)
    requires Inv(s) && s.receiver == Ready && Open(s.received) > 0
    requires t == s.Set(s.Last(), s.ring[s.Last()].(nr := nr, haveNr := true)).(received := s.received + [Barrier(nr)])
    ensures (forall i :: 0 <= i < |t.ring| ==> Place(t, i)) && GapOk(t)
    ensures t.ring[t.Last()].gen == |Closed(t.received)| - 1 && Open(t.received) == 0
  {
    Sends(s.received, Barrier(nr));
    forall i | 0 <= i < |t.ring| ensures Place(t, i) { assert Place(s, i) && Place(s, 0); }
    assert Place(s, s.Last()) && Place(s, 0);
  }

  lemma {:induction false} BarrierKeeps(s: Node, nr: nat)
    requires Inv(s) && s.receiver == Ready && Open(s.received) > 0
    ensures Inv(GetBarrier(s, nr))
  {
    var t := s.Set(s.Last(), s.ring[s.Last()].(nr := nr, haveNr := true)).(received := s.received + [Barrier(nr)]);
    BarrierPlaces(s, nr, t);
    TryFinishKeeps(t, if s.mode == Unordered then Allocating else Noting);
  }

  lemma {:induction false} NotedKeeps(s: Node, next: Receiver)
    requires Inv(s) && s.receiver != Ready && !s.receiver.Ack? && !next.Ack? && next != Ready
    ensures Inv(s.Set(s.Last(), s.ring[s.Last()].(issued := true)).(receiver := next))
  {
    FlagsKeep(s, true, s.ring[s.Last()].barrierDone);
    var t := s.Set(s.Last(), s.ring[s.Last()].(issued := true));
    ReceiverKeeps(t, next, t.log);
  }

  lemma {:induction false} MarkedKeeps(s: Node, next: Receiver)
    requires Inv(s) && s.receiver != Ready && !s.receiver.Ack? && !next.Ack? && next != Ready
    ensures Inv(BarrierIsDone(s, next))
  {
    FlagsKeep(s, s.ring[s.Last()].issued, true);
    TryFinishKeeps(s.Set(s.Last(), s.ring[s.Last()].(barrierDone := true)), next);
  }

  lemma {:induction false} AllocatedKeeps(s: Node)
    requires Inv(s) && s.receiver == Allocating
    ensures Inv(NewCurrent(s))
  {
    var t, n := NewCurrent(s), s.Last();
    assert Place(s, n) && Place(s, 0);
    forall i | 0 <= i < |t.ring| ensures Place(t, i) { if i <= n { assert Place(s, i); } }
  }

  lemma {:induction false} DiskKeeps(s: Node, i: nat)
    requires Inv(s) && i < |s.ring| && s.ring[i].inFlight > 0
    ensures Inv(CompleteWrite(s, i))
  {
    var t := CompleteWrite(s, i);
    assert Place(s, i);
    forall j | 0 <= j < |t.ring| ensures Place(t, j) { assert Place(s, j) && Place(s, 0); }
  }

  lemma {:induction false} PutKeeps(s: Node, i: nat)
    requires Inv(s) && s.asender == Waiting && i < |s.ring| && s.ring[i].active > s.ring[i].inFlight
    ensures Inv(PutWrite(s, i))
  {
    var t := PutWrite(s, i);
    assert Place(s, i) && Place(s, 0);
    forall j | 0 <= j < |t.ring| ensures Place(t, j) { assert Place(s, j); }
  }

  /** The ack that goes out is the next one due. */
  lemma {:induction false} AckKeeps(s: Node, s': Node, i: nat)
    requires Inv(s) && (Next(s, ReceiverAck(i), s') || Next(s, AsenderAck(i), s'))
    ensures Inv(s')
  {
    assert Place(s, i) && Place(s, 0);
    assert i == 0;
    forall j | 0 <= j < |s'.ring| ensures Place(s', j) { assert Place(s, j); }
  }

  /** Whoever takes the lock again is about the oldest epoch. */
  lemma {:induction false} RelockFirst(s: Node, s': Node, i: nat)
    requires Inv(s) && (Next(s, ReceiverRelock(i), s') || Next(s, AsenderRelock(i), s'))
    ensures i == 0 && s.ring[0].finishing
  {
    assert Place(s, i);
  }

  /** The only epoch is recycled. */
  lemma {:induction false} RelockOne(s: Node, s': Node)
    requires Inv(s) && |s.ring| == 1 && (Next(s, ReceiverRelock(0), s') || Next(s, AsenderRelock(0), s'))
    ensures s'.receiver == if s.receiver.Ack? then Ready else s.receiver
    ensures s' == s.(ring := [Recycled(s.ring[0])], receiver := s'.receiver, asender := Waiting)
  {}

  /** The asender, when it takes an older epoch off the ring. */
  function Shifted(s: Node): Node
    requires |s.ring| > 1
  {
    var t := s.(ring := s.ring[1..], asender := Waiting);
    if MayFinish(t, 0) then MarkFinishing(t, 0).(asender := Sending(t.ring[0].gen, t.ring[0].size, false)) else t
  }

  lemma {:induction false} RetireShifts(s: Node)
    requires |s.ring| > 1
    ensures RetireBySender(s, 0) == Shifted(s)
  {
    assert Retire(s, 0).ring == s.ring[1..];
  }

  /** With older epochs in the ring it is the asender that takes the lock again. */
  lemma {:induction false} RelockMore(s: Node, s': Node, i: nat)
    requires Inv(s) && |s.ring| > 1 && (Next(s, ReceiverRelock(i), s') || Next(s, AsenderRelock(i), s'))
    ensures s.asender.Sending? && s.asender.sent && s' == RetireBySender(s, i)
  {
    assert !s.receiver.Ack?;
  }

  lemma {:induction false} RecycleKeeps(s: Node, s': Node)
    requires Inv(s) && |s.ring| == 1 && (Next(s, ReceiverRelock(0), s') || Next(s, AsenderRelock(0), s'))
    ensures Inv(s')
  {
    assert Place(s, 0);
    RelockOne(s, s');
    assert Place(s', 0);
  }

  lemma {:induction false} ShiftPlaces(s: Node, t: Node)
    requires Inv(s) && |s.ring| > 1 && s.asender.Sending? && t == s.(ring := s.ring[1..], asender := Waiting)
    ensures forall j :: 0 <= j < |t.ring| ==> Place(t, j) && !t.ring[j].finishing
  {
    assert Place(s, 0) && Place(s, 1);
    forall j | 0 <= j < |t.ring| ensures Place(t, j) && !t.ring[j].finishing {
      assert Place(s, j + 1) && t.ring[j] == s.ring[j + 1];
    }
  }

  /** The oldest epoch leaves the ring. */
  lemma {:induction false} ShiftKeeps(s: Node, t: Node)
    requires Inv(s) && |s.ring| > 1 && s.asender.Sending? && s.asender.sent
      && t == s.(ring := s.ring[1..], asender := Waiting)
    ensures Inv(t)
  {
    ShiftPlaces(s, t);
    assert Place(s, 0) && Place(s, 1);
    assert t.ring[t.Last()] == s.ring[s.Last()];
    assert forall j :: 0 <= j < |t.ring| ==> t.ring[j] == s.ring[j + 1];
  }

  /** Its successor became the oldest one and may be due as well. */
  lemma {:induction false} BecameLastKeeps(t: Node, u: Node)
    requires Inv(t) && t.asender == Waiting && !t.receiver.Ack? && MayFinish(t, 0)
    requires u == MarkFinishing(t, 0).(asender := Sending(t.ring[0].gen, t.ring[0].size, false))
    ensures Inv(u)
  {
    forall j | 0 <= j < |u.ring| ensures Place(u, j) { assert Place(t, j) && Place(t, 0); }
  }

  lemma {:induction false} RemoveKeeps(s: Node)
    requires Inv(s) && |s.ring| > 1 && s.asender.Sending? && s.asender.sent
    ensures Inv(Shifted(s))
  {
    var t := s.(ring := s.ring[1..], asender := Waiting);
    ShiftKeeps(s, t);
    if MayFinish(t, 0) { BecameLastKeeps(t, Shifted(s)); }
  }

  lemma {:induction false} RelockKeeps(s: Node, s': Node, i: nat)
    requires Inv(s) && (Next(s, ReceiverRelock(i), s') || Next(s, AsenderRelock(i), s'))
    ensures Inv(s')
  {
    RelockFirst(s, s', i);
    if |s.ring| == 1 {
      RecycleKeeps(s, s');
    } else {
      RelockMore(s, s', i);
      RetireShifts(s);
      RemoveKeeps(s);
    }
  }

  /** Barriers close at least one write, and the receiver goes on without a new epoch only after
      the current one was recycled. */
  predicate Orderly(s: Node, step: Step) {
    && (step.RecvBarrier? ==> Open(s.received) > 0)
    && (step.GoesOn? && s.ring != [] ==> s.ring[s.Last()].size == 0)
  }

  lemma {:induction false} GoesOnKeeps(s: Node)
    requires Inv(s) && s.receiver == FailWaiting && s.ring[s.Last()].size == 0
    ensures Inv(s.(receiver := Ready))
  {
    var t := s.(receiver := Ready);
    assert Place(s, s.Last());
    forall i | 0 <= i < |t.ring| ensures Place(t, i) { assert Place(s, i); }
  }

  lemma {:induction false} ReceiverStepKeeps(s: Node, step: Step, s': Node)
    requires Inv(s) && Next(s, step, s') && Orderly(s, step)
    requires !step.DiskDone? && !step.Put? && !step.ReceiverAck? && !step.AsenderAck? && !step.ReceiverRelock?
      && !step.AsenderRelock?
    ensures Inv(s')
  {
    match step
    case RecvWrite => WriteKeeps(s);
    case RecvBarrier(nr) => BarrierKeeps(s, nr);
    case Marked => MarkedKeeps(s, Allocating);
    case Allocated => AllocatedKeeps(s);
    case Noted => NotedKeeps(s, Draining);
    case AllocFailed => NotedKeeps(s, s'.receiver);
    case FailMarked => MarkedKeeps(s, FailWaiting);
    case GoesOn => GoesOnKeeps(s);
    case _ => ReceiverKeeps(s, s'.receiver, s'.log);
  }

  /** Every interleaving of receiver, disk and asender keeps the ring in order. */
  lemma {:induction false} NextKeeps(s: Node, step: Step, s': Node)
    requires Inv(s) && Next(s, step, s') && Orderly(s, step)
    ensures Inv(s')
  {
    match step
    case DiskDone(i) => DiskKeeps(s, i);
    case Put(i) => PutKeeps(s, i);
    case ReceiverAck(i) => AckKeeps(s, s', i);
    case AsenderAck(i) => AckKeeps(s, s', i);
    case ReceiverRelock(i) => RelockKeeps(s, s', i);
    case AsenderRelock(i) => RelockKeeps(s, s', i);
    case _ => ReceiverStepKeeps(s, step, s');
  }

  function Init(mode: Mode): Node {
    Node(mode, [Empty(0)], Ready, Waiting, [], [], [])
  }

  lemma {:induction false} InitInv(mode: Mode)
    ensures Inv(Init(mode))
  {
    assert Place(Init(mode), 0);
  }

  // ----- runs -----

  predicate Happens(ns: seq<Node>, steps: seq<Step>, k: nat, orderly: bool := false)
    requires k < |steps| && |ns| == |steps| + 1
  {
    Next(ns[k], steps[k], ns[k + 1]) && (orderly ==> Orderly(ns[k], steps[k]))
  }

  predicate Path(ns: seq<Node>, steps: seq<Step>, orderly: bool := false) {
    && |ns| == |steps| + 1
    && forall k :: 0 <= k < |steps| ==> Happens(ns, steps, k, orderly)
  }

  /** Some run, or some run of orderly steps, goes from s to t. */
  ghost predicate Leads(s: Node, t: Node, orderly: bool := false) {
    exists ns, steps :: Path(ns, steps, orderly) && ns[0] == s && ns[|steps|] == t
  }

  lemma {:induction false} Stays(s: Node, orderly: bool := false)
    ensures Leads(s, s, orderly)
  {
    assert Path([s], [], orderly);
  }

  lemma {:induction false} Further(s: Node, t: Node, step: Step, u: Node, orderly: bool := false)
    requires Leads(s, t, orderly) && Next(t, step, u) && (orderly ==> Orderly(t, step))
    ensures Leads(s, u, orderly)
  {
    var ns, steps :| Path(ns, steps, orderly) && ns[0] == s && ns[|steps|] == t;
    var ns', steps' := ns + [u], steps + [step];
    forall k | 0 <= k < |steps'| ensures Happens(ns', steps', k, orderly) {
      if k < |steps| { assert Happens(ns, steps, k, orderly); }
    }
    assert Path(ns', steps', orderly) && ns'[0] == s && ns'[|steps'|] == u;
  }

  lemma {:induction false} LeadsOn(s: Node, t: Node, u: Node)
    requires Leads(s, t) && Leads(t, u)
    ensures Leads(s, u)
  {
    var ns, steps :| Path(ns, steps) && ns[0] == t && ns[|steps|] == u;
    LeadsAlong(s, ns, steps, |steps|);
  }

  lemma {:induction false} LeadsAlong(s: Node, ns: seq<Node>, steps: seq<Step>, k: nat)
    requires Path(ns, steps) && k <= |steps| && Leads(s, ns[0])
    ensures Leads(s, ns[k])
  {
    if k > 0 {
      LeadsAlong(s, ns, steps, k - 1);
      assert Happens(ns, steps, k - 1);
      Further(s, ns[k - 1], steps[k - 1], ns[k]);
    }
  }
}
