/** What the drain in receive_Barrier is for: in the ordered modes no write reaches the disk before
    all writes in front of the barriers between them have. */
module WriteOrder {
  import opened TransferLog
  import opened BarrierSender
  import opened Epochs
  import opened EpochOrder
  import opened EpochSpoiled

  /** The log has all completions: those of the epochs in the ring, and all of the older ones. */
  ghost predicate Counted(s: Node) {
    && s.ring != []
    && (forall i :: 0 <= i < |s.ring| ==> CountedAt(s, i))
    && (forall g: nat :: g > s.ring[s.Last()].gen ==> Count(s.log, g) == 0)
    && (forall g: nat :: g < s.ring[0].gen ==> Complete(s.log, Closed(s.received), g))
  }

  predicate CountedAt(s: Node, i: nat)
    requires i < |s.ring|
  {
    Count(s.log, s.ring[i].gen) == s.ring[i].size - s.ring[i].inFlight
  }

  /** All writes of a closed epoch have completed. */
  predicate Complete(log: seq<Event>, closed: seq<Group>, g: nat) {
    g < |closed| && Count(log, g) == closed[g].1
  }

  /** Only the current epoch has writes with the disk, and none while a new one is on its way. */
  predicate Drained(s: Node) {
    && s.ring != []
    && (s.mode != Unordered ==>
          && (forall i :: 0 <= i < s.Last() ==> s.ring[i].inFlight == 0)
          && (s.receiver in {Ready, Noting, Draining} || Idle(s)))
  }

  /** The write that completed at f had all writes of older epochs before it. */
  predicate InTurn(log: seq<Event>, closed: seq<Group>, f: nat)
    requires f < |log| && log[f].Completed?
  {
    forall g: nat :: g < log[f].gen ==> Complete(log[..f], closed, g)
  }

  predicate AllInTurn(log: seq<Event>, closed: seq<Group>) {
    forall f :: 0 <= f < |log| && log[f].Completed? ==> InTurn(log, closed, f)
  }

  ghost predicate Sequenced(s: Node) {
    Counted(s) && Drained(s) && (s.mode != Unordered ==> AllInTurn(s.log, Closed(s.received)))
  }

  // ----- the parts -----

  lemma {:induction false} CompleteStays(log: seq<Event>, closed: seq<Group>, closed': seq<Group>, g: nat)
    requires Complete(log, closed, g) && closed <= closed'
    ensures Complete(log, closed', g)
  {}

  lemma {:induction false} TurnsStay(log: seq<Event>, more: seq<Event>, closed: seq<Group>, closed': seq<Group>)
    requires AllInTurn(log, closed) && closed <= closed' && forall k :: 0 <= k < |more| ==> !more[k].Completed?
    ensures AllInTurn(log + more, closed')
  {
    var all := log + more;
    forall f | 0 <= f < |all| && all[f].Completed? ensures InTurn(all, closed', f) {
      assert f < |log| && all[..f] == log[..f] && InTurn(log, closed, f);
      forall g: nat | g < all[f].gen ensures Complete(all[..f], closed', g) {
        CompleteStays(log[..f], closed, closed', g);
      }
    }
  }

  lemma {:induction false} OneMoreTurn(log: seq<Event>, closed: seq<Group>, h: nat)
    requires AllInTurn(log, closed) && forall g: nat :: g < h ==> Complete(log, closed, g)
    ensures AllInTurn(log + [Completed(h)], closed)
  {
    var all := log + [Completed(h)];
    forall f | 0 <= f < |all| && all[f].Completed? ensures InTurn(all, closed, f) {
      if f < |log| {
        assert all[..f] == log[..f] && InTurn(log, closed, f);
      } else {
        assert all[..f] == log;
      }
    }
  }

  // ----- steps that complete nothing -----

  /** The same epochs with the same completed writes, perhaps with a new empty one behind them. */
  lemma {:induction false} CountedFrame(s: Node, s': Node, more: seq<Event>)
    requires Counted(s) && s'.log == s.log + more && forall k :: 0 <= k < |more| ==> !more[k].Completed?
    requires Closed(s.received) <= Closed(s'.received) && |s.ring| <= |s'.ring| <= |s.ring| + 1
    requires forall i :: 0 <= i < |s.ring| ==>
      s'.ring[i].gen == s.ring[i].gen && s'.ring[i].size - s'.ring[i].inFlight == s.ring[i].size - s.ring[i].inFlight
    requires |s'.ring| > |s.ring| ==> s'.ring[|s.ring|] == Empty(s.ring[s.Last()].gen + 1)
    requires |more| <= 1
    ensures Counted(s')
  {
    forall g: nat ensures Count(s'.log, g) == Count(s.log, g) {
      if more == [] {
        assert s'.log == s.log;
      } else {
        assert s'.log == s.log + [more[0]];
        CountSnoc(s.log, more[0], g);
      }
    }
    forall i | 0 <= i < |s'.ring| ensures CountedAt(s', i) {
      if i < |s.ring| { assert CountedAt(s, i); }
    }
    forall g: nat | g < s'.ring[0].gen ensures Complete(s'.log, Closed(s'.received), g) {
      assert Complete(s.log, Closed(s.received), g);
    }
  }

  /** No step that leaves the log and the packets alone is about the counts. */
  lemma {:induction false} QuietCounts(s: Node, step: Step, s': Node)
    requires Inv(s) && Counted(s) && Next(s, step, s')
    requires step.Noted? || step.Drained? || step.Marked? || step.Allocated? || step.AllocFailed? || step.FailDrained?
      || step.FailMarked? || step.GoesOn? || step.Put?
    ensures Counted(s') && s'.log == s.log && s'.received == s.received
  {
    assert s'.log == s.log + [];
    CountedFrame(s, s', []);
  }

  lemma {:induction false} EventCounts(s: Node, step: Step, s': Node)
    requires Counted(s) && Next(s, step, s')
    requires step.FlushIssued? || step.FailFlushed? || step.ReceiverAck? || step.AsenderAck?
    ensures Counted(s') && s'.received == s.received && s.log <= s'.log
    ensures forall k :: |s.log| <= k < |s'.log| ==> !s'.log[k].Completed?
  {
    CountedFrame(s, s', s'.log[|s.log|..]);
  }

  lemma {:induction false} ArrivalCounts(s: Node, step: Step, s': Node)
    requires Counted(s) && Next(s, step, s') && (step.RecvWrite? || step.RecvBarrier?)
    ensures Counted(s') && s'.log == s.log && Closed(s.received) <= Closed(s'.received)
  {
    Sends(s.received, if step.RecvWrite? then Write else Barrier(step.nr));
    assert s'.log == s.log + [];
    CountedFrame(s, s', []);
  }

  lemma {:induction false} OtherCounts(s: Node, step: Step, s': Node)
    requires Inv(s) && Counted(s) && Next(s, step, s')
    requires !step.DiskDone? && !step.ReceiverRelock? && !step.AsenderRelock?
    ensures Counted(s') && Closed(s.received) <= Closed(s'.received)
    ensures s.log <= s'.log && forall k :: |s.log| <= k < |s'.log| ==> !s'.log[k].Completed?
  {
    if step.FlushIssued? || step.FailFlushed? || step.ReceiverAck? || step.AsenderAck? {
      EventCounts(s, step, s');
    } else if step.RecvWrite? || step.RecvBarrier? {
      ArrivalCounts(s, step, s');
    } else {
      QuietCounts(s, step, s');
    }
  }

  lemma {:induction false} ReceiverDrains(s: Node, step: Step, s': Node)
    requires Inv(s) && Drained(s) && Next(s, step, s')
    requires !step.DiskDone? && !step.ReceiverRelock? && !step.AsenderRelock?
    ensures Drained(s')
  {
    assert Place(s, s.Last());
  }

  lemma {:induction false} OtherSequenced(s: Node, step: Step, s': Node)
    requires Inv(s) && Sequenced(s) && Next(s, step, s')
    requires !step.DiskDone? && !step.ReceiverRelock? && !step.AsenderRelock?
    ensures Sequenced(s') && s'.mode == s.mode
  {
    OtherCounts(s, step, s');
    ReceiverDrains(s, step, s');
    if s.mode != Unordered {
      var more := s'.log[|s.log|..];
      assert s'.log == s.log + more;
      TurnsStay(s.log, more, Closed(s.received), Closed(s'.received));
    }
  }

  // ----- a completion -----

  /** With the disk drained, a write that completes is one of the current epoch, and all writes of
      the older ones have completed. */
  lemma {:induction false} OlderComplete(s: Node, i: nat, g: nat)
    requires Inv(s) && Counted(s) && Drained(s) && s.mode != Unordered && i < |s.ring| && s.ring[i].inFlight > 0
    requires g < s.ring[i].gen
    ensures i == s.Last() && Complete(s.log, Closed(s.received), g)
  {
    assert Place(s, i) && Place(s, 0);
    if g >= s.ring[0].gen {
      var k := g - s.ring[0].gen;
      assert Place(s, k) && CountedAt(s, k);
    }
  }

  lemma {:induction false} DiskCounts(s: Node, i: nat)
    requires Inv(s) && Counted(s) && i < |s.ring| && s.ring[i].inFlight > 0
    ensures Counted(CompleteWrite(s, i))
  {
    var t, e := CompleteWrite(s, i), Completed(s.ring[i].gen);
    assert Place(s, i) && Place(s, s.Last()) && Place(s, 0);
    forall g: nat ensures Count(t.log, g) == Count(s.log, g) + if g == s.ring[i].gen then 1 else 0 {
      CountSnoc(s.log, e, g);
    }
    forall j | 0 <= j < |t.ring| ensures CountedAt(t, j) { assert CountedAt(s, j) && Place(s, j); }
    forall g: nat | g < t.ring[0].gen ensures Complete(t.log, Closed(t.received), g) {
      assert Complete(s.log, Closed(s.received), g);
    }
  }

  lemma {:induction false} DiskSequenced(s: Node, i: nat)
    requires Inv(s) && Sequenced(s) && i < |s.ring| && s.ring[i].inFlight > 0
    ensures Sequenced(CompleteWrite(s, i))
  {
    DiskCounts(s, i);
    if s.mode != Unordered {
      forall g: nat | g < s.ring[i].gen ensures Complete(s.log, Closed(s.received), g) { OlderComplete(s, i, g); }
      OneMoreTurn(s.log, Closed(s.received), s.ring[i].gen);
    }
  }

  // ----- the end of an epoch -----

  lemma {:induction false} FirstComplete(s: Node)
    requires Inv(s) && Counted(s) && s.ring[0].finishing
    ensures Complete(s.log, Closed(s.received), s.ring[0].gen)
  {
    assert Place(s, 0) && CountedAt(s, 0);
  }

  lemma {:induction false} ShiftSequenced(s: Node)
    requires Inv(s) && Sequenced(s) && |s.ring| > 1 && s.ring[0].finishing
    ensures Sequenced(Shifted(s))
  {
    var t := Shifted(s);
    FirstComplete(s);
    assert Place(s, 1) && Place(s, 0);
    forall i | 0 <= i < |t.ring| ensures CountedAt(t, i) { assert CountedAt(s, i + 1); }
    assert Idle(s) ==> Idle(t);
  }

  lemma {:induction false} RelockSequenced(s: Node, i: nat, s': Node)
    requires Inv(s) && Sequenced(s) && (Next(s, ReceiverRelock(i), s') || Next(s, AsenderRelock(i), s'))
    ensures Sequenced(s') && s'.mode == s.mode
  {
    RelockFirst(s, s', i);
    if |s.ring| == 1 {
      RelockOne(s, s');
      FirstComplete(s);
      assert Place(s, 0);
      assert CountedAt(s', 0);
    } else {
      RelockMore(s, s', i);
      RetireShifts(s);
      ShiftSequenced(s);
    }
  }

  // ----- runs -----

  /** Every step keeps the order of completions. */
  lemma {:induction false} NextSequenced(s: Node, step: Step, s': Node)
    requires Inv(s) && Sequenced(s) && Next(s, step, s')
    ensures Sequenced(s') && s'.mode == s.mode
  {
    match step
    case DiskDone(i) => DiskSequenced(s, i);
    case ReceiverRelock(i) => RelockSequenced(s, i, s');
    case AsenderRelock(i) => RelockSequenced(s, i, s');
    case _ => OtherSequenced(s, step, s');
  }

  lemma {:induction false} InitSequenced(mode: Mode)
    ensures Sequenced(Epochs.Init(mode))
  {}

  lemma {:induction false} PathSequenced(ns: seq<Node>, steps: seq<Step>, k: nat)
    requires Path(ns, steps, true) && Inv(ns[0]) && Sequenced(ns[0]) && k <= |steps|
    ensures Inv(ns[k]) && Sequenced(ns[k]) && ns[k].mode == ns[0].mode
  {
    if k > 0 {
      PathSequenced(ns, steps, k - 1);
      assert Happens(ns, steps, k - 1, true);
      NextKeeps(ns[k - 1], steps[k - 1], ns[k]);
      NextSequenced(ns[k - 1], steps[k - 1], ns[k]);
    }
  }

  /** In every orderly run in drain or flush mode, when a write completes all writes in front of the
      barriers before it have, as many as there are; and at any time only the current epoch has
      writes with the disk. */
  lemma {:induction false} WritesInOrder(mode: Mode, s: Node)
    requires mode != Unordered && Leads(Epochs.Init(mode), s, true)
    ensures AllInTurn(s.log, Closed(s.received))
    ensures forall i :: 0 <= i < |s.ring| - 1 ==> s.ring[i].inFlight == 0
  {
    var ns, steps :| Path(ns, steps, true) && ns[0] == Epochs.Init(mode) && ns[|steps|] == s;
    InitInv(mode);
    InitSequenced(mode);
    PathSequenced(ns, steps, |steps|);
  }

  // ----- flushes -----

  predicate FlushedBefore(log: seq<Event>, closed: seq<Group>, g: nat) {
    g < |closed| && Covered(log, g, closed[g].1)
  }

  predicate FlushedTurn(log: seq<Event>, closed: seq<Group>, f: nat)
    requires f < |log| && log[f].Completed?
  {
    forall g: nat :: g < log[f].gen ==> FlushedBefore(log[..f], closed, g)
  }

  /** Before a write completes, a flush was issued after the last write of every older epoch. */
  predicate AllFlushed(log: seq<Event>, closed: seq<Group>) {
    forall f :: 0 <= f < |log| && log[f].Completed? ==> FlushedTurn(log, closed, f)
  }

  ghost predicate FlushKept(s: Node) {
    s.mode == Flush ==>
      && s.ring != [] && AllFlushed(s.log, Closed(s.received))
      && (forall g: nat :: g < s.ring[0].gen ==> FlushedBefore(s.log, Closed(s.received), g))
  }

  lemma {:induction false} FlushedStays(log: seq<Event>, more: seq<Event>, closed: seq<Group>, closed': seq<Group>,
      g: nat)
    requires FlushedBefore(log, closed, g) && closed <= closed'
    ensures FlushedBefore(log + more, closed', g)
  {
    CoveredStays(log, more, g, closed[g].1);
  }

  lemma {:induction false} AllFlushedStays(log: seq<Event>, more: seq<Event>, closed: seq<Group>, closed': seq<Group>)
    requires AllFlushed(log, closed) && closed <= closed' && forall k :: 0 <= k < |more| ==> !more[k].Completed?
    ensures AllFlushed(log + more, closed')
  {
    var all := log + more;
    forall f | 0 <= f < |all| && all[f].Completed? ensures FlushedTurn(all, closed', f) {
      assert f < |log| && all[..f] == log[..f] && FlushedTurn(log, closed, f);
      forall g: nat | g < all[f].gen ensures FlushedBefore(all[..f], closed', g) {
        FlushedStays(log[..f], [], closed, closed', g);
        assert log[..f] + [] == log[..f];
      }
    }
  }

  lemma {:induction false} OneMoreFlushed(log: seq<Event>, closed: seq<Group>, h: nat)
    requires AllFlushed(log, closed) && forall g: nat :: g < h ==> FlushedBefore(log, closed, g)
    ensures AllFlushed(log + [Completed(h)], closed)
  {
    var all := log + [Completed(h)];
    forall f | 0 <= f < |all| && all[f].Completed? ensures FlushedTurn(all, closed, f) {
      if f < |log| {
        assert all[..f] == log[..f] && FlushedTurn(log, closed, f);
      } else {
        assert all[..f] == log;
      }
    }
  }

  /** Epochs that are not the current one have had their flush. */
  lemma {:induction false} OlderFlushed(s: Node, k: nat)
    requires Inv(s) && LogInv(s) && Prompt(s) && s.mode == Flush && k < s.Last()
    ensures FlushedBefore(s.log, Closed(s.received), s.ring[k].gen)
  {
    assert Place(s, k) && Passed(s, k) && Tracked(s, k);
  }

  lemma {:induction false} DiskFlushing(s: Node, i: nat)
    requires Inv(s) && LogInv(s) && Prompt(s) && Sequenced(s) && FlushKept(s) && s.mode == Flush
    requires i < |s.ring| && s.ring[i].inFlight > 0
    ensures FlushKept(CompleteWrite(s, i))
  {
    var closed, h := Closed(s.received), s.ring[i].gen;
    assert Place(s, i) && Place(s, 0);
    forall g: nat | g < h ensures FlushedBefore(s.log, closed, g) {
      if g >= s.ring[0].gen {
        assert Place(s, g - s.ring[0].gen);
        OlderFlushed(s, g - s.ring[0].gen);
      }
    }
    OneMoreFlushed(s.log, closed, h);
    forall g: nat | g < s.ring[0].gen ensures FlushedBefore(s.log + [Completed(h)], closed, g) {
      FlushedStays(s.log, [Completed(h)], closed, closed, g);
    }
  }

  /** Steps that complete nothing: the oldest epoch stays, or it was finishing. */
  lemma {:induction false} FlushingFrame(s: Node, s': Node, more: seq<Event>)
    requires Inv(s) && LogInv(s) && FlushKept(s) && s.mode == Flush == s'.mode && s'.ring != []
    requires s'.log == s.log + more && forall k :: 0 <= k < |more| ==> !more[k].Completed?
    requires Closed(s.received) <= Closed(s'.received)
    requires s'.ring[0].gen == s.ring[0].gen || (s.ring[0].finishing && s'.ring[0].gen == s.ring[0].gen + 1)
    ensures FlushKept(s')
  {
    var closed, closed' := Closed(s.received), Closed(s'.received);
    AllFlushedStays(s.log, more, closed, closed');
    if s.ring[0].finishing { AckDue(s); }
    forall g: nat | g < s'.ring[0].gen ensures FlushedBefore(s'.log, closed', g) {
      FlushedStays(s.log, more, closed, closed', g);
    }
  }

  lemma {:induction false} RelockGen(s: Node, i: nat, s': Node)
    requires Inv(s) && (Next(s, ReceiverRelock(i), s') || Next(s, AsenderRelock(i), s'))
    ensures s.ring[0].finishing && s'.ring != [] && s'.ring[0].gen == s.ring[0].gen + 1
    ensures s'.log == s.log && s'.received == s.received && s'.mode == s.mode
  {
    RelockFirst(s, s', i);
    if |s.ring| == 1 {
      RelockOne(s, s');
    } else {
      assert Place(s, 1);
      RelockMore(s, s', i);
      RetireShifts(s);
    }
  }

  lemma {:induction false} OtherGen(s: Node, step: Step, s': Node)
    requires Next(s, step, s') && !step.DiskDone? && !step.ReceiverRelock? && !step.AsenderRelock?
    ensures s'.ring != [] && s'.ring[0].gen == s.ring[0].gen && s'.mode == s.mode
  {}

  lemma {:induction false} NextFlushing(s: Node, step: Step, s': Node)
    requires Inv(s) && LogInv(s) && Prompt(s) && Sequenced(s) && FlushKept(s) && Next(s, step, s')
    ensures FlushKept(s')
  {
    if step.DiskDone? {
      if s.mode == Flush { DiskFlushing(s, step.i); }
    } else if step.ReceiverRelock? || step.AsenderRelock? {
      RelockGen(s, step.i, s');
      assert s'.log == s.log + [];
      if s.mode == Flush { FlushingFrame(s, s', []); }
    } else {
      OtherGen(s, step, s');
      OtherCounts(s, step, s');
      assert s'.log == s.log + s'.log[|s.log|..];
      if s.mode == Flush { FlushingFrame(s, s', s'.log[|s.log|..]); }
    }
  }

  // ----- all of it -----

  ghost predicate Disciplined(s: Node) { Prompt(s) && Sequenced(s) && FlushKept(s) }

  lemma {:induction false} NextDisciplined(s: Node, step: Step, s': Node)
    requires Inv(s) && LogInv(s) && Disciplined(s) && Next(s, step, s')
    ensures Disciplined(s')
  {
    PromptKept(s, step, s');
    NextSequenced(s, step, s');
    NextFlushing(s, step, s');
  }

  lemma {:induction false} InitDisciplined(mode: Mode)
    ensures Disciplined(Epochs.Init(mode))
  {
    InitGood(mode);
    InitSequenced(mode);
  }

  // ----- no more than the mode asks for -----

  /** Without ordering a barrier waits for nothing, and only flush mode flushes. */
  predicate AsConfigured(s: Node) {
    && (s.mode == Unordered ==> s.receiver !in {Noting, Draining, Flushing, Marking})
    && (s.mode != Flush ==> forall f :: 0 <= f < |s.log| ==> s.log[f] != Flushed)
  }

  lemma {:induction false} NextAsConfigured(s: Node, step: Step, s': Node)
    requires AsConfigured(s) && Next(s, step, s')
    ensures AsConfigured(s') && s'.mode == s.mode
  {}

  lemma {:induction false} PathAsConfigured(ns: seq<Node>, steps: seq<Step>, k: nat)
    requires Path(ns, steps) && AsConfigured(ns[0]) && k <= |steps|
    ensures AsConfigured(ns[k]) && ns[k].mode == ns[0].mode
  {
    if k > 0 {
      PathAsConfigured(ns, steps, k - 1);
      assert Happens(ns, steps, k - 1);
      NextAsConfigured(ns[k - 1], steps[k - 1], ns[k]);
    }
  }

  lemma {:induction false} AlwaysAsConfigured(mode: Mode, s: Node)
    requires Leads(Epochs.Init(mode), s)
    ensures s.mode == mode && AsConfigured(s)
  {
    var ns, steps :| Path(ns, steps) && ns[0] == Epochs.Init(mode) && ns[|steps|] == s;
    PathAsConfigured(ns, steps, |steps|);
  }
}
