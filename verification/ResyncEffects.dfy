/** What the operations of the lock protocol do, besides keeping the exclusion: whose extent is
    taken, and when a lock is got. */
module ResyncEffects {
  import opened Wrappers
  import opened Lru
  import opened LruEffects
  import opened ResyncLock
  import AlBegin

  // ----- application writes -----

  predicate SameLabels(c: Cache, d: Cache) {
    && |d.elems| == |c.elems| && d.changing == c.changing
    && forall i :: 0 <= i < |c.elems| ==>
         d.elems[i].number == c.elems[i].number && d.elems[i].newNumber == c.elems[i].newNumber
  }

  /** There is an element to recycle and a slot in the next transaction. */
  predicate HasRoom(c: Cache) { !c.locked && c.Used() < |c.elems| && c.Pending() < c.maxPending }

  lemma {:induction false} HitUses(c: Cache, enr: nat, mayChange: bool)
    requires c.Valid() && enr != FREE && !c.starving && AlBegin.Hot(c, enr)
    ensures c.Get(enr, mayChange, false).0.IsUsed(enr) && SameLabels(c, c.Get(enr, mayChange, false).0)
  {
    var i := Scan(c.elems, enr).value;
    assert c.Placed(i);
    var d := c.Get(enr, mayChange, false).0;
    GetValid(c, enr, mayChange, false);
    assert d.elems[i].newNumber == enr && d.elems[i].refcnt > 0;
    AlBegin.UsedIff(d, enr);
  }

  lemma {:induction false} MissUses(c: Cache, enr: nat, mayChange: bool)
    requires c.Valid() && enr != FREE && !c.starving && !AlBegin.Hot(c, enr)
    ensures c.Get(enr, mayChange, false).0.IsUsed(enr) <==> mayChange && HasRoom(c)
    ensures !mayChange ==> c.Get(enr, mayChange, false).0 == c
  {
    var (d, r) := c.Get(enr, mayChange, false);
    GetValid(c, enr, mayChange, false);
    AlBegin.UsedIff(d, enr);
    AlBegin.StarvingFull(c);
  }

  lemma {:induction false} StarvingUses(c: Cache, enr: nat, mayChange: bool)
    requires c.Valid() && c.starving
    ensures c.Get(enr, mayChange, false).0 == c
  {}

  /** _al_get without a resync in the way.  The blocking get takes a hot extent, or a cold one if a
      change is possible; the nonblocking one takes hot extents only and changes no label.  The
      use of no other extent changes. */
  lemma {:induction false} AlGetExact(s: Dev, enr: nat, nonblock: bool)
    requires s.Sound() && enr != FREE && s.FindActive(enr).None?
    ensures var t := AlGet(s, enr, nonblock);
      && t == s.(al := t.al) && t.al.Valid()
      && (t.al.IsUsed(enr) <==>
            s.al.IsUsed(enr) || (!s.al.starving && (AlBegin.Hot(s.al, enr) || (!nonblock && HasRoom(s.al)))))
      && (nonblock ==> SameLabels(s.al, t.al))
      && forall x: nat :: x != enr ==> (t.al.IsUsed(x) <==> s.al.IsUsed(x))
  {
    var c, t := s.al, AlGet(s, enr, nonblock);
    GetValid(c, enr, !nonblock, false);
    AlBegin.UsedIff(c, enr);
    if c.starving {
      StarvingUses(c, enr, !nonblock);
    } else if AlBegin.Hot(c, enr) {
      HitUses(c, enr, !nonblock);
    } else {
      MissUses(c, enr, !nonblock);
    }
    forall x: nat | x != enr ensures t.al.IsUsed(x) <==> s.al.IsUsed(x) {
      AlBegin.GetUses(c, enr, !nonblock, false, x);
    }
  }

  /** Resync in the way: the write leaves the log alone and asks resync to step aside. */
  lemma {:induction false} AlGetBlocked(s: Dev, enr: nat, nonblock: bool)
    requires s.Sound() && s.FindActive(enr).Some?
    ensures var t, i := AlGet(s, enr, nonblock), s.FindActive(enr).value;
      && t == s.(flags := t.flags) && |t.flags| == |s.flags| && s.rs.elems[i].newNumber == enr / PER_RESYNC
      && t.flags[i] == s.flags[i].(priority := true) && s.flags[i].noWrites
      && forall j :: 0 <= j < |s.flags| && j != i ==> t.flags[j] == s.flags[j]
  {}

  /** drbd_al_begin_io_nonblock: without room nothing happens; with resync in the way of an extent,
      the first such one is asked to step aside; else all extents are taken, unless a transaction
      holds the cache and one of them is cold, and no others. */
  lemma {:induction false} AlNonblockExact(s: Dev, first: nat, end: nat)
    requires s.Sound() && first <= end <= FREE
    ensures var t, active := AlBeginNonblock(s, first, end), FirstActive(s, first, end);
      if AlBegin.Room(s.al) < end - first then t == s
      else if active.Some? then t == s.(flags := s.flags[active.value := s.flags[active.value].(priority := true)])
      else
        && t == s.(al := t.al)
        && (!s.al.locked || (forall x :: first <= x < end ==> AlBegin.Hot(s.al, x)) ==>
              forall x :: first <= x < end ==> t.al.IsUsed(x))
        && (forall x: nat :: !(first <= x < end) ==> (t.al.IsUsed(x) <==> s.al.IsUsed(x)))
  {
    if AlBegin.Room(s.al) >= end - first && FirstActive(s, first, end).None? {
      AlBegin.AllSucceed(s.al, first, end, 0);
      var t := AlBeginNonblock(s, first, end);
      if !s.al.locked || forall x :: first <= x < end ==> AlBegin.Hot(s.al, x) {
        forall x | first <= x < end ensures t.al.IsUsed(x) { AlBegin.AllTaken(s.al, first, end, 0, x); }
      }
      forall x: nat | !(first <= x < end) ensures t.al.IsUsed(x) <==> s.al.IsUsed(x) {
        AlBegin.GetAllUses(s.al, first, end, 0, x);
      }
    }
  }

  /** The extent found there is the first of the range that keeps writes away. */
  lemma {:induction false} FirstActiveIs(s: Dev, first: nat, end: nat) returns (x: nat)
    requires |s.flags| == |s.rs.elems| && first <= end && FirstActive(s, first, end).Some?
    ensures first <= x < end && s.FindActive(x) == FirstActive(s, first, end) && FirstActive(s, first, x).None?
  {
    x := first;
    while s.FindActive(x).None?
      invariant first <= x < end && FirstActive(s, x, end) == FirstActive(s, first, end)
      invariant FirstActive(s, first, x).None?
      decreases end - x
    {
      x := x + 1;
    }
  }

  // ----- resync target -----

  predicate Locked(s: Dev, enr: nat) { |s.flags| == |s.rs.elems| && ViewOf(s).HasLock(enr) }
  predicate Claimed(s: Dev, enr: nat) { |s.flags| == |s.rs.elems| && ViewOf(s).HasClaim(enr) }
  function Begun(s: Dev, enr: nat): nat { if enr in s.begun then s.begun[enr] else 0 }

  /** One more begin on an extent that is locked then. */
  ghost predicate Got(s: Dev, t: Dev, enr: nat) {
    && Locked(t, enr) && t.wenr == FREE && t.al == s.al && Begun(t, enr) == Begun(s, enr) + 1
    && forall x: nat :: x != enr ==> Begun(t, x) == Begun(s, x)
  }

  /** The extent keeps writes away, and the next attempt finds it remembered. */
  predicate Waits(s: Dev, t: Dev, enr: nat) {
    Claimed(t, enr) && t.wenr == enr && t.al == s.al && t.begun == s.begun
  }

  lemma {:induction false} LockIfIdleIs(s: Dev, u: Dev, enr: nat, i: nat)
    requires enr != FREE && i < |u.flags| == |u.rs.elems| && Idx(u.rs.elems, enr) == Some(i)
    requires u.flags[i].noWrites && !u.flags[i].locked && u.al == s.al && u.begun == s.begun
    ensures var (t, ok) := LockIfIdle(u, enr, i);
      (ok <==> !InAl(s.al, enr)) && if ok then Got(s, t, enr) else Waits(s, t, enr)
  {}

  lemma {:induction false} HitIdx(c: Cache, d: Cache, i: nat, e: Elem)
    requires Calm(c) && Differs(c, d, i, e) && e.newNumber != FREE
    ensures Idx(d.elems, e.newNumber) == Some(i)
  {
    ScanUnique(d, i);
  }

  lemma {:induction false} Found(s: Dev, enr: nat, i: nat)
    requires Safe(s, true) && enr != FREE && !s.rs.starving && Idx(s.rs.elems, enr) == Some(i)
    ensures s.Sound() && ViewOf(s).Ok(i) && s.rs.Get(enr, false, false) == (s.rs.Touch(i), Some(i))
    ensures Idx(s.rs.Touch(i).elems, enr) == Some(i)
  {
    SafeSound(s, true);
    HitEffect(s.rs, i);
    HitIdx(s.rs, s.rs.Touch(i), i, s.rs.elems[i].(refcnt := s.rs.elems[i].refcnt + 1));
    AllCommitted(s.rs, i);
  }

  lemma {:induction false} TryFound(s: Dev, enr: nat, i: nat)
    requires Safe(s, true) && enr != FREE && !s.rs.starving && Idx(s.rs.elems, enr) == Some(i)
    requires s.wenr == FREE || s.wenr == enr
    ensures s.Sound()
    ensures var (t, ok) := TryBeginRest(s, enr);
      (ok <==> s.flags[i].locked || !InAl(s.al, enr)) && if ok then Got(s, t, enr) else Waits(s, t, enr)
  {
    Found(s, enr, i);
    if s.flags[i].locked {
      assert Got(s, s.(rs := s.rs.Touch(i), wenr := FREE).Begin(enr), enr);
    } else if s.flags[i].noWrites {
      RetryIs(s, enr, i);
      UndoEffect(s.rs, i);
      assert Retried(s, i).rs.elems == s.rs.elems;
      LockIfIdleIs(s, Retried(s, i), enr, i);
    } else {
      var u := s.(rs := s.rs.Touch(i), resyncLocked := s.resyncLocked + 1)
                .SetFlags(i, s.flags[i].(noWrites := true));
      LockIfIdleIs(s, u, enr, i);
    }
  }

  lemma {:induction false} TryNew(s: Dev, enr: nat)
    requires Safe(s, true) && enr != FREE && !s.rs.starving && Idx(s.rs.elems, enr).None?
    requires s.wenr == FREE || s.wenr == enr
    ensures s.Sound()
    ensures var (t, ok) := TryBeginRest(s, enr);
      if s.resyncLocked > |s.rs.elems| - 3 then !ok && t == s
      else (ok <==> !InAl(s.al, enr)) && if ok then Got(s, t, enr) else Waits(s, t, enr)
  {
    SafeSound(s, true);
    if s.resyncLocked <= |s.rs.elems| - 3 {
      GrabEffect(s.rs, enr);
      var (d, f) := Grab(s.rs, enr);
      var i := f.value;
      assert ViewOf(s).Ok(i);
      HitIdx(s.rs, d, i, Elem(enr, enr, 1));
      var u := s.(rs := d, resyncLocked := s.resyncLocked + 1).SetFlags(i, s.flags[i].(noWrites := true));
      LockIfIdleIs(s, u, enr, i);
    }
  }

  /** An attempt of the target gets the lock exactly when the extent is locked already, or no
      application write holds a part of it and it is in the cache or may be taken in; otherwise it
      is claimed for the next attempt, or there is no room for it and nothing changes. */
  lemma {:induction false} TryBeginExact(s: Dev, enr: nat)
    requires Safe(s, true) && enr != FREE && (s.wenr == FREE || s.wenr == enr)
    ensures s.Sound()
    ensures var (t, ok) := TryBeginRest(s, enr);
      var known, room := Idx(s.rs.elems, enr).Some?, s.rs.Used() + 3 <= |s.rs.elems|;
      && (ok <==> !s.rs.starving && (Locked(s, enr) || (!InAl(s.al, enr) && (known || room))))
      && (ok ==> Got(s, t, enr))
      && (!ok && !s.rs.starving && (known || room) ==> Waits(s, t, enr))
      && (!ok && (s.rs.starving || !(known || room)) ==> t == s)
  {
    SafeSound(s, true);
    if s.rs.starving {
      AlBegin.StarvingFull(s.rs);
    } else if Idx(s.rs.elems, enr).Some? {
      TryFound(s, enr, Idx(s.rs.elems, enr).value);
    } else {
      TryNew(s, enr);
    }
  }

  /** The extent of an earlier attempt is let go, and with it the ban on writes there. */
  lemma {:induction false} DropExact(s: Dev, enr: nat)
    requires Safe(s, true)
    ensures s.Sound()
    ensures var t := DropRemembered(s, enr);
      if s.wenr == FREE || s.wenr == enr then t == s
      else t.wenr == FREE && !Claimed(t, s.wenr) && t.al == s.al && t.begun == s.begun
  {
    SafeSound(s, true);
    if s.wenr != FREE && s.wenr != enr {
      var i := s.rs.Find(s.wenr, false).value;
      assert ViewOf(s).Ok(i);
      PutEffect(s.rs, i);
      HitIdx(s.rs, s.rs.Put(i), i, s.rs.Put(i).elems[i]);
    }
  }

  // ----- resync source -----

  /** The source takes the extent as long as at most half of the elements are in use: a further
      begin if it is locked, else a claim to wait for. */
  lemma {:induction false} BmeGetExact(s: Dev, enr: nat)
    requires Safe(s, false) && enr != FREE && s.waiter.None?
    ensures s.Sound()
    ensures var t := BmeGet(s, enr);
      if s.rs.Used() > |s.rs.elems| / 2 then t == s
      else if Locked(s, enr) then Got(s, t, enr) && t.waiter.None?
      else Claimed(t, enr) && t.waiter == Some(Waiter(enr, 0)) && t.al == s.al && t.begun == s.begun
  {
    SafeSound(s, false);
    if s.rs.Used() <= |s.rs.elems| / 2 {
      GrabEffect(s.rs, enr);
      var (c, e) := Grab(s.rs, enr);
      var i := e.value;
      assert ViewOf(s).Ok(i);
      HitIdx(s.rs, c, i, c.elems[i]);
    }
  }

  /** The receiver, k times through its wait. */
  ghost function WaitFor(s: Dev, k: nat): Dev
    decreases k
  {
    if k == 0 || s.waiter.None? || !s.Sound() then s else WaitFor(WaitStep(s), k - 1)
  }

  /** It does not get past an extent in use. */
  lemma {:induction false} WaitsForWrites(s: Dev, k: nat)
    requires s.Sound() && s.waiter.Some?
    requires var w := s.waiter.value; w.idle < PER_RESYNC && s.al.IsUsed(w.enr * PER_RESYNC + w.idle)
    ensures WaitFor(s, k) == s
  {
    if k > 0 { WaitsForWrites(s, k - 1); }
  }

  lemma {:induction false} LastWait(s: Dev)
    requires Safe(s, false) && s.waiter.Some? && s.waiter.value.idle == PER_RESYNC
    ensures s.Sound() && Got(s, WaitStep(s), s.waiter.value.enr) && WaitStep(s).waiter.None?
  {
    SafeSound(s, false);
    var v, enr := ViewOf(s), s.waiter.value.enr;
    assert v.HasClaim(enr) && v.Ok(Idx(v.elems, enr).value);
  }

  lemma {:induction false} OtherWait(s: Dev)
    requires Safe(s, false) && s.waiter.Some? && !InAl(s.al, s.waiter.value.enr) && s.waiter.value.idle < PER_RESYNC
    ensures s.Sound() && Safe(WaitStep(s), false)
    ensures WaitStep(s) == s.(waiter := Some(s.waiter.value.(idle := s.waiter.value.idle + 1)))
  {
    WaitStepSafe(s);
    assert !s.al.IsUsed(s.waiter.value.enr * PER_RESYNC + s.waiter.value.idle);
  }

  lemma {:induction false} WaitOnce(s: Dev, k: nat)
    requires s.Sound() && s.waiter.Some? && k > 0
    ensures WaitFor(s, k) == WaitFor(WaitStep(s), k - 1)
  {}

  lemma {:induction false} GotAfter(s: Dev, u: Dev, t: Dev, enr: nat)
    requires Got(u, t, enr) && u == s.(waiter := u.waiter)
    ensures Got(s, t, enr)
  {}

  /** With no extent in use, looking at each of them once and then locking is all it does. */
  lemma {:induction false} WaitLocks(s: Dev, k: nat)
    requires Safe(s, false) && s.waiter.Some? && !InAl(s.al, s.waiter.value.enr)
    requires k >= 1 && s.waiter.value.idle + k == PER_RESYNC + 1
    ensures var t := WaitFor(s, k); Got(s, t, s.waiter.value.enr) && t.waiter.None?
    decreases k
  {
    if k == 1 {
      LastWait(s);
      WaitOnce(s, k);
    } else {
      OtherWait(s);
      WaitOnce(s, k);
      WaitLocks(WaitStep(s), k - 1);
      GotAfter(s, WaitStep(s), WaitFor(WaitStep(s), k - 1), s.waiter.value.enr);
    }
  }

  // ----- the end of a request -----

  /** The last complete unlocks, an earlier one does not. */
  lemma {:induction false} CompleteExact(s: Dev, enr: nat, target: bool)
    requires Safe(s, target) && enr in s.begun
    ensures s.Sound()
    ensures var t := Complete(s, enr);
      && Begun(t, enr) == Begun(s, enr) - 1 && t.al == s.al
      && (forall x: nat :: x != enr ==> Begun(t, x) == Begun(s, x))
      && (Locked(t, enr) <==> Begun(s, enr) > 1) && !Claimed(t, enr)
  {
    SafeSound(s, target);
    var v := ViewOf(s);
    assert v.HasLock(enr);
    var i := Idx(v.elems, enr).value;
    assert v.Ok(i);
    PutEffect(s.rs, i);
    HitIdx(s.rs, s.rs.Put(i), i, s.rs.Put(i).elems[i]);
  }

  /** Stepping aside gives the claim up. */
  lemma {:induction false} GiveUpExact(s: Dev)
    requires Safe(s, false) && s.waiter.Some?
    ensures s.Sound()
    ensures var t := GiveUp(s);
      && t.waiter.None? && t.al == s.al && t.begun == s.begun
      && !Claimed(t, s.waiter.value.enr) && !Locked(t, s.waiter.value.enr)
  {
    SafeSound(s, false);
    var v, enr := ViewOf(s), s.waiter.value.enr;
    assert v.HasClaim(enr);
    var i := Idx(v.elems, enr).value;
    assert v.Ok(i);
    PutEffect(s.rs, i);
    HitIdx(s.rs, s.rs.Put(i), i, s.rs.Put(i).elems[i]);
  }

  /** After a cancel nothing is locked, claimed or waited for. */
  lemma {:induction false} CancelExact(s: Dev, enr: nat)
    requires s.Usable()
    ensures var t := CancelAll(s);
      t.wenr == FREE && t.waiter.None? && t.begun == map[] && t.al == s.al && !Locked(t, enr) && !Claimed(t, enr)
  {}

  /** Noting a cleared bit makes the extent known, if an element can be had for it, and changes no
      lock, no claim and no count. */
  lemma {:induction false} NoteClearedExact(s: Dev, enr: nat, target: bool)
    requires Safe(s, target) && enr != FREE && s.rs.Used() < |s.rs.elems|
    ensures s.Sound()
    ensures var t := NoteCleared(s, enr);
      && Idx(t.rs.elems, enr).Some? && t.al == s.al && t.begun == s.begun && t.wenr == s.wenr && t.waiter == s.waiter
      && (Locked(t, enr) <==> Locked(s, enr)) && (Claimed(t, enr) <==> Claimed(s, enr))
      && t.rs.Used() == s.rs.Used()
  {
    SafeSound(s, target);
    GrabEffect(s.rs, enr);
    var (c, e) := Grab(s.rs, enr);
    var i := e.value;
    assert ViewOf(s).Ok(i);
    PutEffect(c, i);
    HitIdx(c, c.Put(i), i, c.Put(i).elems[i]);
  }
}
