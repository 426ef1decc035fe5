/** The lock protocol between application writes, which hold 4 MiB activity log extents, and
    resync, which locks 16 MiB extents of its own LRU cache.  Every step is one section under
    al_lock.  A node resyncs either as target, from the worker that retries
    drbd_try_rs_begin_io, or as source, from the receiver that sleeps in drbd_rs_begin_io. */
module ResyncLock {
  import opened Wrappers
  import opened Lru
  import opened LruEffects
  import AlBegin

  /** AL_EXT_PER_BM_SECT */
  const PER_RESYNC: nat := 4

  /** BME_NO_WRITES, BME_LOCKED, BME_PRIORITY */
  datatype Flags = Flags(noWrites: bool, locked: bool, priority: bool)
  const NO_FLAGS := Flags(false, false, false)

  /** The receiver inside drbd_rs_begin_io: its extent and how many activity log extents it saw idle. */
  datatype Waiter = Waiter(enr: nat, idle: nat)

  /** begun counts, per resync extent, the successful begins that were not completed yet. */
  datatype Dev = Dev(al: Cache, rs: Cache, flags: seq<Flags>, wenr: nat, resyncLocked: int,
                     waiter: Option<Waiter>, begun: map<nat, nat>) {

    predicate Usable() {
      al.Valid() && rs.Valid() && |flags| == |rs.elems|
    }

    /** What the code relies on to not run into a BUG_ON. */
    predicate Sound() {
      && Usable()
      && (wenr != FREE ==> Held(wenr))
      && (waiter.Some? ==> Held(waiter.value.enr))
    }

    predicate Held(enr: nat) {
      var e := rs.Find(enr, false);
      e.Some? && rs.elems[e.value].refcnt > 0
    }

    function SetFlags(i: nat, f: Flags): Dev
      requires i < |flags|
    {
      this.(flags := flags[i := f])
    }

    function Begin(enr: nat): Dev {
      this.(begun := begun[enr := 1 + if enr in begun then begun[enr] else 0])
    }

    /** find_active_resync_extent */
    function FindActive(enr: nat): (r: Option<nat>)
      requires |flags| == |rs.elems|
      ensures r.Some? ==> r.value < |flags|
    {
      var e := rs.Find(enr / PER_RESYNC, false);
      if e.Some? && flags[e.value].noWrites then e else None
    }

  }

  /** Some of the activity log extents inside resync extent enr is used, or about to be. */
  predicate InAl(al: Cache, enr: nat) {
    exists x :: enr * PER_RESYNC <= x < (enr + 1) * PER_RESYNC && al.IsUsed(x)
  }

  // ----- application writes -----

  /** _al_get */
  function AlGet(s: Dev, enr: nat, nonblock: bool): Dev
    requires s.Sound()
  {
    var e := s.FindActive(enr);
    if e.Some? then s.SetFlags(e.value, s.flags[e.value].(priority := true))
    else s.(al := s.al.Get(enr, !nonblock, false).0)
  }

  /** drbd_al_begin_io_nonblock for the extents from first up to end. */
  function AlBeginNonblock(s: Dev, first: nat, end: nat): Dev
    requires s.Sound() && first <= end <= FREE
  {
    if AlBegin.Room(s.al) < end - first then s
    else
      match FirstActive(s, first, end)
      case Some(i) => s.SetFlags(i, s.flags[i].(priority := true))
      case None => s.(al := AlBegin.GetAll(s.al, first, end).0)
  }

  /** The first extent in the range that resync keeps writes away from. */
  function FirstActive(s: Dev, first: nat, end: nat): (r: Option<nat>)
    requires |s.flags| == |s.rs.elems| && first <= end
    ensures r.Some? ==> r.value < |s.flags| && s.flags[r.value].noWrites
    ensures r.None? <==> forall x :: first <= x < end ==> s.FindActive(x).None?
    decreases end - first
  {
    if first == end then None
    else if s.FindActive(first).Some? then s.FindActive(first)
    else FirstActive(s, first + 1, end)
  }

  // ----- resync target -----

  /** The first part of drbd_try_rs_begin_io: forget the extent of an earlier attempt. */
  function DropRemembered(s: Dev, enr: nat): (t: Dev)
    requires s.Sound()
    ensures t.Usable()
  {
    if s.wenr == FREE || s.wenr == enr then s
    else
      var i := s.rs.Find(s.wenr, false).value;
      PutValid(s.rs, i);
      s.SetFlags(i, s.flags[i].(noWrites := false))
       .(wenr := FREE, rs := s.rs.Put(i), resyncLocked := s.resyncLocked - if s.rs.elems[i].refcnt == 1 then 1 else 0)
  }

  /** check_al */
  function LockIfIdle(s: Dev, enr: nat, i: nat): (r: (Dev, bool))
    requires i < |s.flags|
  {
    if InAl(s.al, enr) then (s.(wenr := enr), false)
    else (s.SetFlags(i, s.flags[i].(locked := true)).(wenr := FREE).Begin(enr), true)
  }

  /** drbd_try_rs_begin_io after the remembered extent is settled: true for success, false for -EAGAIN */
  function TryBeginRest(s: Dev, enr: nat): (r: (Dev, bool))
    requires s.Usable()
  {
    var (c, e) := s.rs.Get(enr, false, false);
    if e.Some? then
      var i := e.value;
      if s.flags[i].locked then (s.(rs := c, wenr := FREE).Begin(enr), true)
      else if !s.flags[i].noWrites then
        LockIfIdle(s.(rs := c, resyncLocked := s.resyncLocked + 1).SetFlags(i, s.flags[i].(noWrites := true)), enr, i)
      else
        LockIfIdle(s.(rs := c.SetElem(i, c.elems[i].(refcnt := c.elems[i].refcnt - 1))), enr, i)
    else if s.resyncLocked > |s.rs.elems| - 3 then (s.(rs := c), false)
    else
      var (d, f) := Grab(s.rs, enr);
      if f.None? then (s.(rs := d), false)
      else
        var i := f.value;
        LockIfIdle(s.(rs := d, resyncLocked := s.resyncLocked + 1).SetFlags(i, s.flags[i].(noWrites := true)), enr, i)
  }

  // ----- resync source -----

  /** _bme_get and the test that follows it in drbd_rs_begin_io */
  function BmeGet(s: Dev, enr: nat): Dev
    requires s.Sound()
  {
    if s.resyncLocked > |s.rs.elems| / 2 then s
    else
      var (c, e) := Grab(s.rs, enr);
      if e.None? then s.(rs := c)
      else
        var i := e.value;
        var t := s.(rs := c, resyncLocked := s.resyncLocked + if c.elems[i].refcnt == 1 then 1 else 0)
                  .SetFlags(i, s.flags[i].(noWrites := true));
        if s.flags[i].locked then t.Begin(enr) else t.(waiter := Some(Waiter(enr, 0)))
  }

  /** The wait for one more activity log extent or, after the last one, the lock itself. */
  function WaitStep(s: Dev): Dev
    requires s.Sound() && s.waiter.Some?
  {
    var w := s.waiter.value;
    var i := s.rs.Find(w.enr, false).value;
    if w.idle == PER_RESYNC then s.SetFlags(i, s.flags[i].(locked := true)).(waiter := None).Begin(w.enr)
    else if s.al.IsUsed(w.enr * PER_RESYNC + w.idle) then s
    else s.(waiter := Some(w.(idle := w.idle + 1)))
  }

  /** lc_put with the clean-up that its callers do for the last reference. */
  function Release(s: Dev, i: nat): Dev
    requires i < |s.rs.elems| == |s.flags| && s.rs.elems[i].refcnt > 0
  {
    var t := s.(rs := s.rs.Put(i));
    if s.rs.elems[i].refcnt > 1 then t else t.SetFlags(i, NO_FLAGS).(resyncLocked := s.resyncLocked - 1)
  }

  /** The receiver steps aside, or is interrupted. */
  function GiveUp(s: Dev): Dev
    requires s.Sound() && s.waiter.Some?
  {
    Release(s, s.rs.Find(s.waiter.value.enr, false).value).(waiter := None)
  }

  // ----- both -----

  /** drbd_rs_complete_io */
  function Complete(s: Dev, enr: nat): Dev
    requires s.Sound()
  {
    var e := s.rs.Find(enr, false);
    if e.None? || s.rs.elems[e.value].refcnt == 0 then s
    else
      Release(s, e.value).(begun := if enr in s.begun && s.begun[enr] > 1
        then s.begun[enr := s.begun[enr] - 1] else s.begun - {enr})
  }

  /** The part of drbd_try_clear_on_disk_bm that touches the resync cache. */
  function NoteCleared(s: Dev, enr: nat): Dev
    requires s.Sound()
  {
    var (c, e) := Grab(s.rs, enr);
    if e.None? then s.(rs := c)
    else s.(rs := c.Put(e.value)).SetFlags(e.value, if Scan(s.rs.elems, enr).None? then NO_FLAGS else s.flags[e.value])
  }

  /** drbd_rs_cancel_all */
  function CancelAll(s: Dev): Dev {
    s.(rs := Fresh(|s.rs.elems|, s.rs.maxPending), flags := seq(|s.flags|, _ => NO_FLAGS), wenr := FREE,
        resyncLocked := 0,
       waiter := None, begun := map[])
  }

  // ----- what the operations do to the use of an activity log extent -----

  lemma {:induction false} PutUses(c: Cache, i: nat, x: nat)
    requires c.Valid() && i < |c.elems| && c.elems[i].Committed() && c.elems[i].refcnt > 0
    ensures c.Put(i).IsUsed(x) ==> c.IsUsed(x)
  {
    PutValid(c, i);
    AlBegin.UsesFrame(c, c.Put(i), x);
  }

  lemma {:induction false} CommitUses(c: Cache, x: nat)
    requires c.Valid()
    ensures c.Commit().IsUsed(x) ==> c.IsUsed(x)
  {
    CommitValid(c);
    AlBegin.UsesFrame(c, c.Commit(), x);
  }

  // ----- the invariant -----

  /** Where an extent is, when every element is committed. */
  function Idx(elems: seq<Elem>, enr: nat): (r: Option<nat>) {
    if enr == FREE then None else Scan(elems, enr)
  }

  predicate Uniq(elems: seq<Elem>) {
    && (forall i :: 0 <= i < |elems| ==> elems[i].Committed() && (elems[i].refcnt > 0 ==> elems[i].number != FREE))
    && (forall i, j :: 0 <= i < j < |elems| ==> Apart(elems, i, j))
  }

  predicate Apart(elems: seq<Elem>, i: nat, j: nat)
    requires i < |elems| && j < |elems|
  {
    elems[i].number == elems[j].number ==> elems[i].number == FREE
  }

  lemma {:induction false} IdxAt(elems: seq<Elem>, i: nat)
    requires Uniq(elems) && i < |elems| && elems[i].number != FREE
    ensures Idx(elems, elems[i].number) == Some(i)
    ensures forall j :: 0 <= j < |elems| && j != i ==> elems[j].number != elems[i].number
  {
    forall j | 0 <= j < |elems| && j != i ensures elems[j].number != elems[i].number {
      assert if j < i then Apart(elems, j, i) else Apart(elems, i, j);
    }
  }

  lemma {:induction false} UniqPut(elems: seq<Elem>, i: nat, e: Elem)
    requires Uniq(elems) && i < |elems| && e.Committed() && e.number != FREE
    requires Idx(elems, e.number).None? || Idx(elems, e.number) == Some(i)
    ensures Uniq(elems[i := e])
  {
    var es := elems[i := e];
    forall j, k | 0 <= j < k < |es| ensures Apart(es, j, k) {
      assert Apart(elems, j, k);
      if Idx(elems, e.number) == Some(i) { IdxAt(elems, i); }
    }
  }

  /** The part of the device that the exclusion is about. */
  datatype View = View(elems: seq<Elem>, flags: seq<Flags>, al: Cache, wenr: nat, waiter: Option<Waiter>,
      begun: map<nat, nat>) {
    /** The extent that keeps writes away but is not locked: the worker remembers it, or the
        receiver waits for it. */
    predicate Claimed(enr: nat) {
      enr == wenr || (waiter.Some? && enr == waiter.value.enr)
    }

    /** A locked extent keeps writes away, is referenced once per outstanding resync request and
        shares no block with an application write; an extent that only keeps writes away is claimed. */
    predicate Ok(i: nat)
      requires |flags| == |elems| && i < |flags|
    {
      var f, e := flags[i], elems[i];
      && (e.refcnt > 0 <==> f.noWrites)
      && (f.locked ==> f.noWrites && e.number in begun && begun[e.number] == e.refcnt && !InAl(al, e.number))
      && (f.noWrites && !f.locked ==> e.refcnt == 1 && e.number !in begun && Claimed(e.number))
    }

    predicate HasClaim(enr: nat)
      requires |flags| == |elems|
    {
      var i := Idx(elems, enr);
      i.Some? && flags[i.value].noWrites && !flags[i.value].locked
    }

    predicate HasLock(enr: nat)
      requires |flags| == |elems|
    {
      var i := Idx(elems, enr);
      i.Some? && flags[i.value].locked
    }

    /** What the receiver has checked so far. */
    predicate Idle(w: Waiter) {
      && w.idle <= PER_RESYNC
      && forall x :: w.enr * PER_RESYNC <= x < w.enr * PER_RESYNC + w.idle ==> !al.IsUsed(x)
    }

    predicate Core(target: bool) {
      && Uniq(elems) && |flags| == |elems|
      && (if target then waiter.None? else wenr == FREE)
      && (forall i :: 0 <= i < |flags| ==> Ok(i))
      && (forall e :: e in begun ==> HasLock(e))
      && (wenr != FREE ==> HasClaim(wenr))
      && (waiter.Some? ==> HasClaim(waiter.value.enr) && Idle(waiter.value))
    }

    predicate Unclaimed() { wenr == FREE && waiter.None? }

    function Claim(enr: nat, target: bool): View {
      if target then this.(wenr := enr, waiter := None) else this.(wenr := FREE, waiter := Some(Waiter(enr, 0)))
    }

    function Put(i: nat, e: Elem, f: Flags): View
      requires i < |elems| == |flags|
    {
      this.(elems := elems[i := e], flags := flags[i := f])
    }
  }

  // ----- the exclusion, step by step -----

  /** Taking an idle element for an extent keeps writes away from it. */
  lemma {:induction false} ClaimNew(v: View, enr: nat, i: nat, priority: bool, target: bool)
    requires v.Core(target) && v.Unclaimed() && enr != FREE && i < |v.flags| && !v.flags[i].noWrites
    requires Idx(v.elems, enr).None? || Idx(v.elems, enr) == Some(i)
    ensures v.Put(i, Elem(enr, enr, 1), Flags(true, false, priority)).Claim(enr, target).Core(target)
  {
    var w := v.Put(i, Elem(enr, enr, 1), Flags(true, false, priority)).Claim(enr, target);
    assert v.Ok(i);
    assert enr !in v.begun by { assert enr in v.begun ==> v.HasLock(enr); }
    UniqPut(v.elems, i, Elem(enr, enr, 1));
    forall j | 0 <= j < |w.flags| ensures w.Ok(j) { assert v.Ok(j); }
    LocksStay(v, w, i);
    IdxAt(w.elems, i);
  }

  /** Locks of elements other than i are found again. */
  lemma {:induction false} LocksStay(v: View, w: View, i: nat)
    requires Uniq(v.elems) && Uniq(w.elems) && |v.flags| == |v.elems| == |w.flags| == |w.elems| && i < |v.flags|
    requires forall j :: 0 <= j < |v.flags| && j != i ==> w.elems[j] == v.elems[j] && w.flags[j] == v.flags[j]
    ensures forall e :: v.HasLock(e) && Idx(v.elems, e) != Some(i) ==> w.HasLock(e)
    ensures forall e :: v.HasClaim(e) && Idx(v.elems, e) != Some(i) ==> w.HasClaim(e)
  {
    forall e | Idx(v.elems, e).Some? && Idx(v.elems, e) != Some(i) ensures Idx(w.elems, e) == Idx(v.elems, e) {
      IdxAt(w.elems, Idx(v.elems, e).value);
    }
  }

  /** A claimed extent without application writes may be locked. */
  lemma {:induction false} LockClaimed(v: View, enr: nat, i: nat, target: bool)
    requires v.Core(target) && v.HasClaim(enr) && Idx(v.elems, enr) == Some(i) && !InAl(v.al, enr)
    ensures v.(flags := v.flags[i := v.flags[i].(locked := true)], wenr := FREE, waiter := None,
      begun := v.begun[enr := 1]).Core(target)
  {
    var w := v.(flags := v.flags[i := v.flags[i].(locked := true)], wenr := FREE, waiter := None,
        begun := v.begun[enr := 1]);
    assert v.Ok(i);
    forall j | 0 <= j < |w.flags| ensures w.Ok(j) {
      assert v.Ok(j);
      if v.flags[j].noWrites { IdxAt(v.elems, j); }
    }
    LocksStay(v, w, i);
  }

  /** A further request on a locked extent, or the end of one that is not the last. */
  lemma {:induction false} Recount(v: View, i: nat, refs: nat, target: bool)
    requires v.Core(target) && i < |v.flags| && v.flags[i].locked && refs > 0
    ensures v.elems[i].number in v.begun && v.begun[v.elems[i].number] == v.elems[i].refcnt
    ensures v.Put(i, v.elems[i].(refcnt := refs), v.flags[i]).(begun := v.begun[v.elems[i].number := refs]).Core(target)
  {
    assert v.Ok(i);
    var enr := v.elems[i].number;
    var w := v.Put(i, v.elems[i].(refcnt := refs), v.flags[i]).(begun := v.begun[enr := refs]);
    assert w.flags == v.flags;
    IdxAt(v.elems, i);
    UniqPut(v.elems, i, w.elems[i]);
    IdxAt(w.elems, i);
    forall j | 0 <= j < |w.flags| ensures w.Ok(j) { assert v.Ok(j); }
    LocksStay(v, w, i);
    forall e | e in w.begun ensures w.HasLock(e) { if e != enr { assert v.HasLock(e); } }
  }

  /** The end of the last request on a locked extent. */
  lemma {:induction false} Unlock(v: View, i: nat, target: bool)
    requires v.Core(target) && i < |v.flags| && v.flags[i].locked
    ensures v.elems[i].number in v.begun && v.begun[v.elems[i].number] == v.elems[i].refcnt
    ensures v.Put(i, v.elems[i].(refcnt := 0), NO_FLAGS).(begun := v.begun - {v.elems[i].number}).Core(target)
  {
    assert v.Ok(i);
    var enr := v.elems[i].number;
    var w := v.Put(i, v.elems[i].(refcnt := 0), NO_FLAGS).(begun := v.begun - {enr});
    IdxAt(v.elems, i);
    UniqPut(v.elems, i, v.elems[i].(refcnt := 0));
    forall j | 0 <= j < |w.flags| ensures w.Ok(j) { assert v.Ok(j); }
    LocksStay(v, w, i);
    forall e | e in w.begun ensures w.HasLock(e) { assert v.HasLock(e); }
  }

  /** Giving up a claim. */
  lemma {:induction false} Unclaim(v: View, enr: nat, i: nat, priority: bool, target: bool)
    requires v.Core(target) && v.Claimed(enr) && enr != FREE && Idx(v.elems, enr) == Some(i)
    ensures v.elems[i].refcnt == 1 && v.flags[i].noWrites && !v.flags[i].locked && enr !in v.begun
    ensures v.Put(i, v.elems[i].(refcnt := 0), Flags(false, false, priority)).(wenr := FREE,
      waiter := None).Core(target)
  {
    assert v.Ok(i);
    var w := v.Put(i, v.elems[i].(refcnt := 0), Flags(false, false, priority)).(wenr := FREE, waiter := None);
    UniqPut(v.elems, i, v.elems[i].(refcnt := 0));
    forall j | 0 <= j < |w.flags| ensures w.Ok(j) {
      assert v.Ok(j);
      if v.flags[j].noWrites { IdxAt(v.elems, j); }
    }
    LocksStay(v, w, i);
  }

  /** Relabelling an element that nobody holds. */
  lemma {:induction false} Relabel(v: View, i: nat, enr: nat, target: bool)
    requires v.Core(target) && i < |v.flags| && v.elems[i].refcnt == 0 && enr != FREE && Idx(v.elems, enr).None?
    ensures v.Put(i, Elem(enr, enr, 0), NO_FLAGS).Core(target)
  {
    assert v.Ok(i);
    var w := v.Put(i, Elem(enr, enr, 0), NO_FLAGS);
    UniqPut(v.elems, i, Elem(enr, enr, 0));
    forall j | 0 <= j < |w.flags| ensures w.Ok(j) { assert v.Ok(j); }
    LocksStay(v, w, i);
  }

  /** Writes may come up wherever no extent keeps them away. */
  lemma {:induction false} AlChange(v: View, al: Cache, target: bool)
    requires v.Core(target)
    requires forall x: nat, i: nat :: al.IsUsed(x) && !v.al.IsUsed(x) && Idx(v.elems, x / PER_RESYNC) == Some(i) ==>
      !v.flags[i].noWrites
    ensures v.(al := al).Core(target)
  {
    var w := v.(al := al);
    forall j | 0 <= j < |w.flags| ensures w.Ok(j) {
      assert v.Ok(j);
      if v.flags[j].locked {
        var n := v.elems[j].number;
        IdxAt(v.elems, j);
        forall x | n * PER_RESYNC <= x < (n + 1) * PER_RESYNC ensures !al.IsUsed(x) { assert x / PER_RESYNC == n; }
      }
    }
    if v.waiter.Some? {
      var n := v.waiter.value.enr;
      forall x | n * PER_RESYNC <= x < n * PER_RESYNC + v.waiter.value.idle ensures !al.IsUsed(x) {
        assert x / PER_RESYNC == n;
      }
    }
  }

  lemma {:induction false} Prioritize(v: View, i: nat, target: bool)
    requires v.Core(target) && i < |v.flags|
    ensures v.(flags := v.flags[i := v.flags[i].(priority := true)]).Core(target)
  {
    var w := v.(flags := v.flags[i := v.flags[i].(priority := true)]);
    forall j | 0 <= j < |w.flags| ensures w.Ok(j) { assert v.Ok(j); }
  }

  lemma {:induction false} Progress(v: View, target: bool)
    requires v.Core(target) && v.waiter.Some? && v.waiter.value.idle < PER_RESYNC
    requires !v.al.IsUsed(v.waiter.value.enr * PER_RESYNC + v.waiter.value.idle)
    ensures v.(waiter := Some(v.waiter.value.(idle := v.waiter.value.idle + 1))).Core(target)
  {
    var w := v.(waiter := Some(v.waiter.value.(idle := v.waiter.value.idle + 1)));
    forall j | 0 <= j < |w.flags| ensures w.Ok(j) { assert v.Ok(j); }
  }

  // ----- every step keeps the device safe -----

  function ViewOf(s: Dev): View {
    View(s.rs.elems, s.flags, s.al, s.wenr, s.waiter, s.begun)
  }

  predicate Safe(s: Dev, target: bool) {
    && Calm(s.rs) && s.al.Valid() && |s.rs.elems| >= 3
    && s.resyncLocked == s.rs.Used()
    && ViewOf(s).Core(target)
  }

  lemma {:induction false} FindIdx(c: Cache)
    requires Calm(c)
    ensures Uniq(c.elems) && forall enr: nat :: c.Find(enr, false) == Idx(c.elems, enr)
  {
    forall i | 0 <= i < |c.elems| ensures c.elems[i].Committed()
      && (c.elems[i].refcnt > 0 ==> c.elems[i].number != FREE) {
      assert c.Placed(i);
    }
    forall i, j | 0 <= i < j < |c.elems| ensures Apart(c.elems, i, j) { assert c.NoClash(i, j); }
  }

  lemma {:induction false} SafeSound(s: Dev, target: bool)
    requires Safe(s, target)
    ensures s.Sound()
    ensures forall enr: nat :: s.rs.Find(enr, false) == Idx(s.rs.elems, enr)
  {
    FindIdx(s.rs);
    var v := ViewOf(s);
    if s.wenr != FREE { assert v.HasClaim(s.wenr) && v.Ok(Idx(v.elems, s.wenr).value); }
    if s.waiter.Some? { assert v.HasClaim(s.waiter.value.enr) && v.Ok(Idx(v.elems, s.waiter.value.enr).value); }
  }

  lemma {:induction false} AlGetAnySafe(s: Dev, enr: nat, mayChange: bool, mayUse: bool, target: bool)
    requires Safe(s, target) && enr != FREE && |s.flags| == |s.rs.elems| && s.FindActive(enr).None?
    ensures Safe(s.(al := s.al.Get(enr, mayChange, mayUse).0), target)
  {
    SafeSound(s, target);
    GetValid(s.al, enr, mayChange, mayUse);
    var al := s.al.Get(enr, mayChange, mayUse).0;
    forall x: nat ensures x != enr && al.IsUsed(x) ==> s.al.IsUsed(x) {
      if x != enr { AlBegin.GetUses(s.al, enr, mayChange, mayUse, x); }
    }
    AlChange(ViewOf(s), al, target);
  }

  lemma {:induction false} AlGetSafe(s: Dev, enr: nat, nonblock: bool, target: bool)
    requires Safe(s, target) && enr != FREE
    ensures s.Sound() && Safe(AlGet(s, enr, nonblock), target)
  {
    SafeSound(s, target);
    var e := s.FindActive(enr);
    if e.Some? { Prioritize(ViewOf(s), e.value, target); } else { AlGetAnySafe(s, enr, !nonblock, false, target); }
  }

  lemma {:induction false} AlPutSafe(s: Dev, i: nat, target: bool)
    requires Safe(s, target) && i < |s.al.elems| && s.al.elems[i].Committed() && s.al.elems[i].refcnt > 0
    ensures Safe(s.(al := s.al.Put(i)), target)
  {
    PutValid(s.al, i);
    forall x: nat ensures s.al.Put(i).IsUsed(x) ==> s.al.IsUsed(x) { PutUses(s.al, i, x); }
    AlChange(ViewOf(s), s.al.Put(i), target);
  }

  lemma {:induction false} AlCommitSafe(s: Dev, target: bool)
    requires Safe(s, target)
    ensures Safe(s.(al := s.al.Commit()), target)
  {
    CommitValid(s.al);
    forall x: nat ensures s.al.Commit().IsUsed(x) ==> s.al.IsUsed(x) { CommitUses(s.al, x); }
    AlChange(ViewOf(s), s.al.Commit(), target);
  }

  lemma {:induction false} AlFlagsSafe(s: Dev, dirty: bool, locked: bool, target: bool)
    requires Safe(s, target)
    ensures Safe(s.(al := s.al.(dirty := dirty, locked := locked)), target)
  {
    FlagsValid(s.al, dirty, locked, s.al.starving);
    AlChange(ViewOf(s), s.al.(dirty := dirty, locked := locked), target);
  }

  /** The D_ASSERTs on the remembered extent hold, and it is always found. */
  lemma {:induction false} DropSafe(s: Dev, enr: nat)
    requires Safe(s, true)
    ensures s.Sound() && Safe(DropRemembered(s, enr), true)
    ensures DropRemembered(s, enr).wenr == FREE || DropRemembered(s, enr).wenr == enr
    ensures s.wenr != FREE ==>
      var i := s.rs.Find(s.wenr, false).value;
      !s.flags[i].locked && s.flags[i].noWrites && s.rs.elems[i].refcnt == 1
  {
    SafeSound(s, true);
    if s.wenr != FREE {
      var i := s.rs.Find(s.wenr, false).value;
      Unclaim(ViewOf(s), s.wenr, i, s.flags[i].priority, true);
      PutEffect(s.rs, i);
    }
  }

  /** From a fresh claim, check_al either remembers the extent or locks it. */
  lemma {:induction false} LockIfIdleSafe(s: Dev, enr: nat, i: nat)
    requires Calm(s.rs) && s.al.Valid() && |s.rs.elems| >= 3 && s.resyncLocked == s.rs.Used() && s.waiter.None?
    requires ViewOf(s).Claim(enr, true).Core(true) && i < |s.flags| && Idx(s.rs.elems, enr) == Some(i)
      && enr !in s.begun
    ensures Safe(LockIfIdle(s, enr, i).0, true)
  {
    if !InAl(s.al, enr) { LockClaimed(ViewOf(s).Claim(enr, true), enr, i, true); }
  }

  /** A further request on an extent that is locked already. */
  lemma {:induction false} AgainSafe(s: Dev, i: nat, c: Cache, target: bool)
    requires Safe(s, target) && i < |s.flags| == |s.rs.elems| && s.flags[i].locked
    requires Differs(s.rs, c, i, s.rs.elems[i].(refcnt := s.rs.elems[i].refcnt + 1))
    requires c.Used() == s.rs.Used() + if s.rs.elems[i].refcnt == 0 then 1 else 0
    ensures Safe(s.(rs := c).Begin(s.rs.elems[i].number), target)
  {
    var v := ViewOf(s);
    assert v.Ok(i);
    Recount(v, i, s.rs.elems[i].refcnt + 1, target);
    assert v.flags[i := v.flags[i]] == v.flags;
  }

  /** Taking an idle or recycled element for enr. */
  lemma {:induction false} TakeCore(s: Dev, enr: nat, i: nat, c: Cache, target: bool)
    requires Safe(s, target) && enr != FREE && s.wenr == FREE && s.waiter.None?
    requires i < |s.flags| == |s.rs.elems| && s.rs.elems[i].refcnt == 0
    requires Idx(s.rs.elems, enr).None? || Idx(s.rs.elems, enr) == Some(i)
    requires Differs(s.rs, c, i, Elem(enr, enr, 1))
    ensures var t := s.(rs := c).SetFlags(i, s.flags[i].(noWrites := true));
            ViewOf(t).Claim(enr, target).Core(target) && Idx(c.elems, enr) == Some(i) && enr !in s.begun
  {
    var v := ViewOf(s);
    assert v.Ok(i);
    ClaimNew(v, enr, i, s.flags[i].priority, target);
    var t := s.(rs := c).SetFlags(i, s.flags[i].(noWrites := true));
    assert ViewOf(t) == v.Put(i, Elem(enr, enr, 1), Flags(true, false, s.flags[i].priority));
    IdxAt(c.elems, i);
    assert ViewOf(t).Claim(enr, target).Ok(i);
  }

  lemma {:induction false} TryLockedSafe(s: Dev, enr: nat, i: nat)
    requires Safe(s, true) && !s.rs.starving && Idx(s.rs.elems, enr) == Some(i) && s.flags[i].locked
    requires s.wenr == FREE || s.wenr == enr
    ensures s.Sound() && Safe(TryBeginRest(s, enr).0, true)
  {
    SafeSound(s, true);
    HitEffect(s.rs, i);
    AgainSafe(s, i, s.rs.Touch(i), true);
  }

  /** An extent that is claimed already: the reference is given back at once. */
  function Retried(s: Dev, i: nat): Dev
    requires i < |s.rs.elems|
  {
    s.(rs := s.rs.Touch(i).SetElem(i, s.rs.elems[i]))
  }

  lemma {:induction false} RetryIs(s: Dev, enr: nat, i: nat)
    requires s.Usable() && !s.rs.starving && Calm(s.rs) && enr != FREE
    requires Scan(s.rs.elems, enr) == Some(i) && s.flags[i].noWrites && !s.flags[i].locked
    ensures TryBeginRest(s, enr) == LockIfIdle(Retried(s, i), enr, i)
  {
    AllCommitted(s.rs, i);
    assert s.rs.Get(enr, false, false) == (s.rs.Touch(i), Some(i));
  }

  lemma {:induction false} TryRetrySafe(s: Dev, enr: nat, i: nat)
    requires Safe(s, true) && !s.rs.starving && Idx(s.rs.elems, enr) == Some(i) && s.flags[i].noWrites
      && !s.flags[i].locked
    ensures s.Sound() && Safe(TryBeginRest(s, enr).0, true)
  {
    SafeSound(s, true);
    RetryIs(s, enr, i);
    var v, t := ViewOf(s), Retried(s, i);
    assert v.Ok(i);
    UndoEffect(s.rs, i);
    assert t.rs.elems == s.rs.elems && ViewOf(t) == v;
    LockIfIdleSafe(t, enr, i);
  }

  lemma {:induction false} TryIdleSafe(s: Dev, enr: nat, i: nat)
    requires Safe(s, true) && enr != FREE && !s.rs.starving && Idx(s.rs.elems, enr) == Some(i) && !s.flags[i].noWrites
      && !s.flags[i].locked
    requires s.wenr == FREE || s.wenr == enr
    ensures s.Sound() && Safe(TryBeginRest(s, enr).0, true)
  {
    SafeSound(s, true);
    assert ViewOf(s).Ok(i);
    HitEffect(s.rs, i);
    TakeCore(s, enr, i, s.rs.Touch(i), true);
    LockIfIdleSafe(s.(rs := s.rs.Touch(i), resyncLocked := s.resyncLocked + 1)
                    .SetFlags(i, s.flags[i].(noWrites := true)), enr, i);
  }

  lemma {:induction false} TryMissSafe(s: Dev, enr: nat)
    requires Safe(s, true) && enr != FREE && (s.wenr == FREE || s.wenr == enr)
    requires s.rs.starving || Idx(s.rs.elems, enr).None?
    ensures s.Sound() && Safe(TryBeginRest(s, enr).0, true)
  {
    SafeSound(s, true);
    AlBegin.StarvingFull(s.rs);
    if s.resyncLocked <= |s.rs.elems| - 3 {
      GrabEffect(s.rs, enr);
      var (c, e) := Grab(s.rs, enr);
      TakeCore(s, enr, e.value, c, true);
      LockIfIdleSafe(s.(rs := c, resyncLocked := s.resyncLocked + 1)
                      .SetFlags(e.value, s.flags[e.value].(noWrites := true)), enr, e.value);
    }
  }

  /** drbd_try_rs_begin_io as a whole. */
  lemma {:induction false} TryBeginSafe(s: Dev, enr: nat)
    requires Safe(s, true) && enr != FREE
    ensures s.Sound() && Safe(TryBeginRest(DropRemembered(s, enr), enr).0, true)
  {
    DropSafe(s, enr);
    var t := DropRemembered(s, enr);
    var e := Idx(t.rs.elems, enr);
    if t.rs.starving || e.None? {
      TryMissSafe(t, enr);
    } else if t.flags[e.value].locked {
      TryLockedSafe(t, enr, e.value);
    } else if t.flags[e.value].noWrites {
      TryRetrySafe(t, enr, e.value);
    } else {
      TryIdleSafe(t, enr, e.value);
    }
  }

  lemma {:induction false} BmeGetSafe(s: Dev, enr: nat)
    requires Safe(s, false) && enr != FREE && s.waiter.None?
    ensures s.Sound() && Safe(BmeGet(s, enr), false)
  {
    SafeSound(s, false);
    if s.resyncLocked <= |s.rs.elems| / 2 {
      GrabEffect(s.rs, enr);
      var (c, e) := Grab(s.rs, enr);
      var i := e.value;
      assert ViewOf(s).Ok(i);
      if s.flags[i].locked {
        AgainSafe(s, i, c, false);
        assert s.flags[i := s.flags[i].(noWrites := true)] == s.flags;
      } else {
        TakeCore(s, enr, i, c, false);
      }
    }
  }

  lemma {:induction false} WaitStepSafe(s: Dev)
    requires Safe(s, false) && s.waiter.Some?
    ensures s.Sound() && Safe(WaitStep(s), false)
  {
    SafeSound(s, false);
    var v, w := ViewOf(s), s.waiter.value;
    var i := Idx(v.elems, w.enr).value;
    assert v.Ok(i);
    if w.idle == PER_RESYNC {
      LockClaimed(v, w.enr, i, false);
    } else if !s.al.IsUsed(w.enr * PER_RESYNC + w.idle) {
      Progress(v, false);
    }
  }

  lemma {:induction false} GiveUpSafe(s: Dev)
    requires Safe(s, false) && s.waiter.Some?
    ensures s.Sound() && Safe(GiveUp(s), false)
  {
    SafeSound(s, false);
    var i := Idx(s.rs.elems, s.waiter.value.enr).value;
    Unclaim(ViewOf(s), s.waiter.value.enr, i, false, false);
    PutEffect(s.rs, i);
  }

  lemma {:induction false} CompleteSafe(s: Dev, enr: nat, target: bool)
    requires Safe(s, target) && enr in s.begun
    ensures s.Sound() && Safe(Complete(s, enr), target)
  {
    SafeSound(s, target);
    var v := ViewOf(s);
    assert v.HasLock(enr);
    var i := Idx(v.elems, enr).value;
    assert v.Ok(i);
    PutEffect(s.rs, i);
    if s.rs.elems[i].refcnt > 1 {
      Recount(v, i, s.rs.elems[i].refcnt - 1, target);
      assert v.flags[i := v.flags[i]] == v.flags;
    } else {
      Unlock(v, i, target);
    }
  }

  /** Completing an extent that was cancelled meanwhile changes nothing. */
  lemma {:induction false} CompleteNothing(s: Dev, enr: nat, target: bool)
    requires Safe(s, target) && s.Sound()
      && (s.rs.Find(enr, false).None? || s.rs.elems[s.rs.Find(enr, false).value].refcnt == 0)
    ensures Complete(s, enr) == s
  {}

  /** A reference taken on a known extent and given back at once. */
  lemma {:induction false} NoteHit(c: Cache, enr: nat, i: nat)
    requires Calm(c) && enr != FREE && !c.starving && Idx(c.elems, enr) == Some(i)
    ensures Grab(c, enr) == (c.Touch(i), Some(i)) && c.Touch(i).elems[i].refcnt > 0
    ensures c.Touch(i).Put(i).Used() == c.Used() && Differs(c, c.Touch(i).Put(i), i, c.elems[i])
  {
    AllCommitted(c, i);
    HitEffect(c, i);
    PutEffect(c.Touch(i), i);
  }

  /** The same on an extent that takes over an idle element. */
  lemma {:induction false} NoteMiss(c: Cache, enr: nat)
    requires Calm(c) && enr != FREE && Idx(c.elems, enr).None? && c.Used() < |c.elems|
    ensures var (d, r) := Grab(c, enr);
            && r.Some? && d.Put(r.value).Used() == c.Used()
            && c.elems[r.value].refcnt == 0 && Differs(c, d.Put(r.value), r.value, Elem(enr, enr, 0))
  {
    GrabEffect(c, enr);
    PutEffect(Grab(c, enr).0, Grab(c, enr).1.value);
  }

  lemma {:induction false} NoteRoomSafe(s: Dev, enr: nat, target: bool)
    requires Safe(s, target) && enr != FREE && !s.rs.starving
      && (Idx(s.rs.elems, enr).Some? || s.rs.Used() < |s.rs.elems|)
    ensures s.Sound() && Safe(NoteCleared(s, enr), target)
  {
    SafeSound(s, target);
    if Idx(s.rs.elems, enr).Some? { NoteHit(s.rs, enr, Idx(s.rs.elems, enr).value); } else { NoteMiss(s.rs, enr); }
    var t, i := NoteCleared(s, enr), Grab(s.rs, enr).1.value;
    if Idx(s.rs.elems, enr).Some? {
      assert t.rs.elems == s.rs.elems && t.flags == s.flags;
      assert ViewOf(t) == ViewOf(s);
    } else {
      Relabel(ViewOf(s), i, enr, target);
      assert ViewOf(t) == ViewOf(s).Put(i, Elem(enr, enr, 0), NO_FLAGS);
    }
  }

  lemma {:induction false} NoteClearedSafe(s: Dev, enr: nat, target: bool)
    requires Safe(s, target) && enr != FREE
    ensures s.Sound() && Safe(NoteCleared(s, enr), target)
  {
    SafeSound(s, target);
    AlBegin.StarvingFull(s.rs);
    if !s.rs.starving {
      if Idx(s.rs.elems, enr).Some? || s.rs.Used() < |s.rs.elems| {
        NoteRoomSafe(s, enr, target);
      } else {
        FlagsValid(s.rs, true, s.rs.locked, true);
        assert NoteCleared(s, enr) == s.(rs := s.rs.(dirty := true, starving := true));
      }
    }
  }

  lemma {:induction false} CancelAllSafe(s: Dev, target: bool)
    requires Safe(s, target)
    ensures Safe(CancelAll(s), target)
  {
    FreshValid(|s.rs.elems|, s.rs.maxPending);
    FindIdx(CancelAll(s).rs);
  }

  // ----- runs -----

  datatype Step =
    | GetAl(enr: nat, nonblock: bool)
    | NonblockAl(first: nat, end: nat)
    | PutAl(i: nat)
    | CommitAl
    | FlagAl(dirty: bool, locked: bool)
    | TryBegin(enr: nat)
    | Begin(enr: nat)
    | Wait
    | StepAside
    | End(enr: nat)
    | Note(enr: nat)
    | Reset

  /** What callers respect: completions answer begins, the node is either target or source,
      its receiver runs one drbd_rs_begin_io at a time, and a reset waits for it to be over. */
  predicate Enabled(s: Dev, step: Step, target: bool) {
    match step
    case GetAl(enr, _) => enr != FREE
    case NonblockAl(first, end) => first <= end <= FREE
    case PutAl(i) => i < |s.al.elems| && s.al.elems[i].Committed() && s.al.elems[i].refcnt > 0
    case CommitAl => true
    case FlagAl(_, _) => true
    case TryBegin(enr) => target && enr != FREE
    case Begin(enr) => !target && enr != FREE && s.waiter.None?
    case Wait => s.waiter.Some?
    case StepAside => s.waiter.Some?
    case End(enr) =>
      enr in s.begun || s.rs.Find(enr, false).None? || s.rs.elems[s.rs.Find(enr, false).value].refcnt == 0
    case Note(enr) => enr != FREE
    case Reset => s.waiter.None?
  }

  function Apply(s: Dev, step: Step, target: bool): Dev
    requires s.Sound() && Enabled(s, step, target)
  {
    match step
    case GetAl(enr, nonblock) => AlGet(s, enr, nonblock)
    case NonblockAl(first, end) => AlBeginNonblock(s, first, end)
    case PutAl(i) => s.(al := s.al.Put(i))
    case CommitAl => s.(al := s.al.Commit())
    case FlagAl(dirty, locked) => s.(al := s.al.(dirty := dirty, locked := locked))
    case TryBegin(enr) => TryBeginRest(DropRemembered(s, enr), enr).0
    case Begin(enr) => BmeGet(s, enr)
    case Wait => WaitStep(s)
    case StepAside => GiveUp(s)
    case End(enr) => Complete(s, enr)
    case Note(enr) => NoteCleared(s, enr)
    case Reset => CancelAll(s)
  }

  lemma {:induction false} AlNonblockSafe(s: Dev, first: nat, end: nat, target: bool)
    requires Safe(s, target) && s.Sound() && first <= end <= FREE
    ensures Safe(AlBeginNonblock(s, first, end), target)
  {
    SafeSound(s, target);
    var r := FirstActive(s, first, end);
    if AlBegin.Room(s.al) >= end - first {
      if r.Some? {
        Prioritize(ViewOf(s), r.value, target);
      } else {
        var al := AlBegin.GetAll(s.al, first, end).0;
        forall x: nat ensures al.IsUsed(x) && !s.al.IsUsed(x) ==> first <= x < end {
          if !(first <= x < end) { AlBegin.GetAllUses(s.al, first, end, 0, x); }
        }
        forall x: nat, i: nat | al.IsUsed(x) && !s.al.IsUsed(x) && Idx(s.rs.elems, x / PER_RESYNC) == Some(i)
          ensures !s.flags[i].noWrites
        {
          assert s.FindActive(x).None?;
        }
        AlChange(ViewOf(s), al, target);
      }
    }
  }

  /** Every step of a node in one role keeps the exclusion. */
  lemma {:induction false} StepSafe(s: Dev, step: Step, target: bool)
    requires Safe(s, target) && s.Sound() && Enabled(s, step, target)
    ensures Safe(Apply(s, step, target), target) && Apply(s, step, target).Sound()
  {
    match step {
      case GetAl(enr, nonblock) => AlGetSafe(s, enr, nonblock, target);
      case NonblockAl(first, end) => AlNonblockSafe(s, first, end, target);
      case PutAl(i) => AlPutSafe(s, i, target);
      case CommitAl => AlCommitSafe(s, target);
      case FlagAl(dirty, locked) => AlFlagsSafe(s, dirty, locked, target);
      case TryBegin(enr) => TryBeginSafe(s, enr);
      case Begin(enr) => BmeGetSafe(s, enr);
      case Wait => WaitStepSafe(s);
      case StepAside => GiveUpSafe(s);
      case End(enr) => if enr in s.begun { CompleteSafe(s, enr, target); } else { CompleteNothing(s, enr, target); }
      case Note(enr) => NoteClearedSafe(s, enr, target);
      case Reset => CancelAllSafe(s, target);
    }
    SafeSound(Apply(s, step, target), target);
  }

  function Init(alSlots: nat, alPending: nat, rsSlots: nat): Dev {
    Dev(Fresh(alSlots, alPending), Fresh(rsSlots, 1), seq(rsSlots, _ => NO_FLAGS), FREE, 0, None, map[])
  }

  lemma {:induction false} InitSafe(alSlots: nat, alPending: nat, rsSlots: nat, target: bool)
    requires alSlots > 0 && rsSlots >= 3
    ensures Safe(Init(alSlots, alPending, rsSlots), target) && Init(alSlots, alPending, rsSlots).Sound()
  {
    var s := Init(alSlots, alPending, rsSlots);
    FreshValid(alSlots, alPending);
    FreshValid(rsSlots, 1);
    FindIdx(s.rs);
    SafeSound(s, target);
  }

  predicate Run(states: seq<Dev>, steps: seq<Step>, target: bool) {
    && |states| == |steps| + 1
    && forall k :: 0 <= k < |steps| ==> Happens(states[k], steps[k], states[k + 1], target)
  }

  predicate Happens(s: Dev, step: Step, s': Dev, target: bool) {
    s.Sound() && Enabled(s, step, target) && s' == Apply(s, step, target)
  }

  lemma {:induction false} RunSafe(states: seq<Dev>, steps: seq<Step>, target: bool, k: nat)
    requires Run(states, steps, target) && k < |states| && Safe(states[0], target) && states[0].Sound()
    ensures Safe(states[k], target) && states[k].Sound()
  {
    if k > 0 {
      RunSafe(states, steps, target, k - 1);
      assert Happens(states[k - 1], steps[k - 1], states[k], target);
      StepSafe(states[k - 1], steps[k - 1], target);
    }
  }

  /** In every reachable state a locked resync extent keeps writes away, is referenced once per
      resync request in flight and so cannot be recycled, and none of its activity log extents
      is in use or about to be; resync_locked counts the extents in use. */
  lemma {:induction false} Exclusion(alSlots: nat, alPending: nat, rsSlots: nat, states: seq<Dev>, steps: seq<Step>,
      target: bool, i: nat)
    requires alSlots > 0 && rsSlots >= 3
    requires Run(states, steps, target) && states[0] == Init(alSlots, alPending, rsSlots)
    ensures var s := states[|steps|];
      && s.resyncLocked == s.rs.Used()
      && |s.flags| == |s.rs.elems|
      && (i < |s.flags| && s.flags[i].locked ==>
            var enr := s.rs.elems[i].number;
            && s.flags[i].noWrites && i in s.rs.inUse && s.rs.Find(enr, false) == Some(i)
            && enr in s.begun && s.begun[enr] == s.rs.elems[i].refcnt > 0
            && forall x :: enr * PER_RESYNC <= x < (enr + 1) * PER_RESYNC ==> !s.al.IsUsed(x))
      && (i < |s.flags| && s.flags[i].noWrites ==> i !in s.rs.free && i !in s.rs.lru)
  {
    InitSafe(alSlots, alPending, rsSlots, target);
    RunSafe(states, steps, target, |steps|);
    var s := states[|steps|];
    SafeSound(s, target);
    if i < |s.flags| {
      assert ViewOf(s).Ok(i) && s.rs.Placed(i);
      if s.flags[i].noWrites { IdxAt(s.rs.elems, i); }
    }
  }

  /** Locks do happen: on an idle device the first attempt succeeds, and keeps writes away. */
  lemma {:induction false} LockHappens(alSlots: nat, alPending: nat, rsSlots: nat, enr: nat)
    requires alSlots > 0 && rsSlots >= 3 && enr != FREE
    ensures var s := Init(alSlots, alPending, rsSlots); s.Sound() && DropRemembered(s, enr) == s
    ensures var (t, ok) := TryBeginRest(Init(alSlots, alPending, rsSlots), enr);
      ok && Idx(t.rs.elems, enr).Some?
      && t.flags[Idx(t.rs.elems, enr).value].locked && t.flags[Idx(t.rs.elems, enr).value].noWrites
  {
    var s := Init(alSlots, alPending, rsSlots);
    InitSafe(alSlots, alPending, rsSlots, true);
    GrabEffect(s.rs, enr);
    var (c, e) := Grab(s.rs, enr);
    ScanUnique(c, e.value);
    forall x: nat ensures !s.al.IsUsed(x) { AlBegin.UsedIff(s.al, x); }
  }
}
