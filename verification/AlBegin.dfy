/** drbd_al_begin_io_nonblock: one check for room, then one cumulative get per extent. */
module AlBegin {
  import opened Wrappers
  import opened Lru
  import opened LruObject

  /** available_update_slots */
  function Room(c: Cache): int {
    var cold, slots := |c.elems| - c.Used(), c.maxPending - c.Pending();
    if cold < slots then cold else slots
  }

  /** The cache after a cumulative get of the extents from first up to end, and how many gets
      failed so far. */
  function GetAll(c: Cache, first: nat, end: nat, missed: nat := 0): (r: (Cache, nat))
    requires c.Valid() && first <= end <= FREE
    ensures r.0.Valid() && r.1 >= missed
    decreases end - first
  {
    if first == end then (c, missed)
    else
      GetValid(c, first, true, true);
      var (d, hit) := c.Get(first, true, true);
      GetAll(d, first + 1, end, missed + if hit.Some? then 0 else 1)
  }

  predicate Hot(c: Cache, enr: nat) { Scan(c.elems, enr).Some? }

  lemma {:induction false} UsedIff(c: Cache, x: nat)
    requires c.Valid()
    ensures c.IsUsed(x) <==>
      x != FREE && exists i :: 0 <= i < |c.elems| && c.elems[i].newNumber == x && c.elems[i].refcnt > 0
  {
    if x != FREE {
      forall i | 0 <= i < |c.elems| && c.elems[i].newNumber == x ensures Scan(c.elems, x) == Some(i) {
        ScanUnique(c, i);
      }
    }
  }

  lemma {:induction false} UsesFrame(c: Cache, d: Cache, x: nat)
    requires c.Valid() && d.Valid() && |d.elems| == |c.elems|
    requires forall i :: 0 <= i < |c.elems| && d.elems[i].newNumber == x && d.elems[i].refcnt > 0 ==>
                           c.elems[i].newNumber == x && c.elems[i].refcnt > 0
    ensures d.IsUsed(x) ==> c.IsUsed(x)
  {
    UsedIff(c, x);
    UsedIff(d, x);
  }

  /** A get leaves the use of every other extent alone. */
  lemma {:induction false} GetUses(c: Cache, enr: nat, mayChange: bool, mayUse: bool, x: nat)
    requires c.Valid() && enr != FREE && x != enr
    ensures c.Get(enr, mayChange, mayUse).0.IsUsed(x) <==> c.IsUsed(x)
  {
    var d := c.Get(enr, mayChange, mayUse).0;
    GetValid(c, enr, mayChange, mayUse);
    GetElems(c, enr, mayChange, mayUse);
    UsesFrame(c, d, x);
    UsesFrame(d, c, x);
  }

  lemma {:induction false} GetAllUses(c: Cache, first: nat, end: nat, missed: nat, x: nat)
    requires c.Valid() && first <= end <= FREE && !(first <= x < end)
    ensures GetAll(c, first, end, missed).0.IsUsed(x) <==> c.IsUsed(x)
    decreases end - first
  {
    if first < end {
      GetValid(c, first, true, true);
      GetUses(c, first, true, true, x);
      var (d, hit) := c.Get(first, true, true);
      GetAllUses(d, first + 1, end, missed + if hit.Some? then 0 else 1, x);
    }
  }

  /** One get takes at most one slot, and with a slot to spare it can only fail on a cold
      extent of a locked cache. */
  lemma {:induction false} GetRoom(c: Cache, enr: nat)
    requires c.Valid() && enr != FREE && Room(c) > 0
    ensures var (d, r) := c.Get(enr, true, true);
            && d.Valid() && Room(d) >= Room(c) - 1 && d.locked == c.locked
            && (r.Some? <==> !c.locked || Hot(c, enr))
  {
    GetValid(c, enr, true, true);
    var (d, r) := c.Get(enr, true, true);
    match Scan(c.elems, enr)
    case Some(i) =>
      assert c.Placed(i);
      if c.elems[i].Committed() { TouchUsed(c, i); }
    case None =>
      if !c.locked { PrepareUsed(c, enr); }
  }

  lemma {:induction false} GetTakes(c: Cache, enr: nat)
    requires c.Valid() && enr != FREE && c.Get(enr, true, true).1.Some?
    ensures c.Get(enr, true, true).0.Valid() && c.Get(enr, true, true).0.IsUsed(enr)
  {
    GetValid(c, enr, true, true);
    UsedIff(c.Get(enr, true, true).0, enr);
  }

  /** Under the transaction lock no get changes which extents are hot. */
  lemma {:induction false} LockedHot(c: Cache, enr: nat)
    requires c.Valid() && c.locked
    ensures forall x :: Hot(c.Get(enr, true, true).0, x) <==> Hot(c, x)
  {
    var d := c.Get(enr, true, true).0;
    assert forall i :: 0 <= i < |c.elems| ==> d.elems[i].newNumber == c.elems[i].newNumber;
  }

  /** Once the check for room has passed, all gets of the loop succeed for any number of
      extents, if and only if no transaction holds the cache or every extent is hot. */
  lemma {:induction false} AllSucceed(c: Cache, first: nat, end: nat, missed: nat)
    requires c.Valid() && first <= end <= FREE && end - first <= Room(c)
    ensures GetAll(c, first, end, missed).1 == missed <==> !c.locked || forall x :: first <= x < end ==> Hot(c, x)
    decreases end - first
  {
    if first < end {
      GetRoom(c, first);
      if c.locked { LockedHot(c, first); }
      var (d, hit) := c.Get(first, true, true);
      AllSucceed(d, first + 1, end, missed + if hit.Some? then 0 else 1);
    }
  }

  /** The extents that are neither there nor on their way. */
  function Cold(c: Cache, first: nat, end: nat): set<nat> {
    set x | first <= x < end && !Hot(c, x)
  }

  /** A get makes no other extent hot, and if it makes its own hot that costs a slot. */
  lemma {:induction false} GetCosts(c: Cache, enr: nat)
    requires c.Valid() && enr != FREE
    ensures var (d, r) := c.Get(enr, true, true);
      && (forall x :: x != enr && !Hot(c, x) ==> !Hot(d, x))
      && Room(d) <= Room(c)
      && (r.Some? && !Hot(c, enr) ==> Room(c) > 0 && Room(d) == Room(c) - 1)
  {
    var (d, r) := c.Get(enr, true, true);
    StarvingFull(c);
    match Scan(c.elems, enr)
    case Some(i) =>
      assert c.Placed(i);
      if c.elems[i].Committed() { TouchUsed(c, i); }
    case None =>
      if r.Some? { PrepareUsed(c, enr); }
  }

  lemma {:induction false} ColdEmpty(c: Cache, first: nat)
    ensures |Cold(c, first, first)| == 0
  {
    assert Cold(c, first, first) == {};
  }

  lemma {:induction false} RoomLeft(c: Cache)
    requires c.Valid()
    ensures Room(c) >= 0
  {}

  lemma {:induction false} StillShort(c: Cache, first: nat, end: nat)
    requires c.Valid() && first < end <= FREE && |Cold(c, first, end)| > Room(c) && c.Get(first, true, true).1.Some?
    ensures var d := c.Get(first, true, true).0; d.Valid() && |Cold(d, first + 1, end)| > Room(d)
  {
    GetValid(c, first, true, true);
    GetCosts(c, first);
    ColdLeft(c, c.Get(first, true, true).0, first, end);
  }

  lemma {:induction false} GetAllFront(c: Cache, first: nat, end: nat, missed: nat)
    requires c.Valid() && first < end <= FREE
    ensures var (d, hit) := c.Get(first, true, true);
      d.Valid() && GetAll(c, first, end, missed) == GetAll(d, first + 1, end, missed + if hit.Some? then 0 else 1)
  {
    GetValid(c, first, true, true);
  }

  /** With fewer slots than cold extents some get fails, so the check for room is no stricter than
      it has to be. */
  lemma {:induction false} SomeFail(c: Cache, first: nat, end: nat, missed: nat)
    requires c.Valid() && first <= end <= FREE && |Cold(c, first, end)| > Room(c)
    ensures GetAll(c, first, end, missed).1 > missed
    decreases end - first
  {
    RoomLeft(c);
    ColdEmpty(c, first);
    GetAllFront(c, first, end, missed);
    var (d, hit) := c.Get(first, true, true);
    if hit.Some? {
      StillShort(c, first, end);
      SomeFail(d, first + 1, end, missed);
    }
  }

  lemma {:induction false} ColdLeft(c: Cache, d: Cache, first: nat, end: nat)
    requires first < end && forall x :: x != first && !Hot(c, x) ==> !Hot(d, x)
    ensures |Cold(d, first + 1, end)| >= |Cold(c, first, end)| - if Hot(c, first) then 0 else 1
  {
    var before, after := Cold(c, first, end), Cold(d, first + 1, end);
    assert before - {first} <= after;
    Subset(before - {first}, after);
  }

  lemma {:induction false} Subset(a: set<nat>, b: set<nat>)
    requires a <= b
    ensures |a| <= |b|
  {
    assert b == a + (b - a);
  }

  /** ... and then every extent is in use, or about to be. */
  lemma {:induction false} AllTaken(c: Cache, first: nat, end: nat, missed: nat, x: nat)
    requires c.Valid() && first <= x < end <= FREE && GetAll(c, first, end, missed).1 == missed
    ensures GetAll(c, first, end, missed).0.IsUsed(x)
    decreases end - first
  {
    GetTakes(c, first);
    var d := c.Get(first, true, true).0;
    if x == first {
      GetAllUses(d, first + 1, end, missed, x);
    } else {
      AllTaken(d, first + 1, end, missed, x);
    }
  }

  /** LC_STARVING says that every element is referenced; with room for one change it is clear. */
  lemma {:induction false} StarvingFull(c: Cache)
    requires c.Valid()
    ensures c.Used() < |c.elems| <==> c.free != [] || c.lru != []
    ensures c.starving ==> Room(c) == 0 && forall i :: 0 <= i < |c.elems| ==> c.elems[i].refcnt > 0
  {
    forall i | 0 <= i < |c.elems| && c.starving ensures c.elems[i].refcnt > 0 { assert c.Placed(i); }
  }

  /** The caches that the loop goes through, and the number of failed gets before each round. */
  ghost predicate Trace(cs: seq<Cache>, missed: seq<nat>, first: nat) {
    && |cs| == |missed| > 0
    && forall k :: 0 <= k < |cs| - 1 ==> Round(cs, missed, first, k)
  }

  ghost predicate Round(cs: seq<Cache>, missed: seq<nat>, first: nat, k: nat)
    requires k + 1 < |cs| == |missed|
  {
    && cs[k].Valid()
    && cs[k].Get(first + k, true, true).0 == cs[k + 1]
    && missed[k + 1] == missed[k] + if cs[k].Get(first + k, true, true).1.Some? then 0 else 1
  }

  lemma {:induction false} TraceGetsAll(cs: seq<Cache>, missed: seq<nat>, first: nat, k: nat)
    requires Trace(cs, missed, first) && k < |cs| && first + |cs| - 1 <= FREE && cs[k].Valid()
    ensures GetAll(cs[k], first + k, first + |cs| - 1, missed[k]) == (cs[|cs| - 1], missed[|cs| - 1])
    decreases |cs| - k
  {
    if k < |cs| - 1 {
      assert Round(cs, missed, first, k);
      GetValid(cs[k], first + k, true, true);
      TraceGetsAll(cs, missed, first, k + 1);
    }
  }

  lemma {:induction false} TraceResult(cs: seq<Cache>, missed: seq<nat>, c: Cache, first: nat, end: nat)
    requires Trace(cs, missed, first) && cs[0] == c && missed[0] == 0 && c.Valid()
    requires first + |cs| == end + 1 && end <= FREE
    ensures GetAll(c, first, end) == (cs[|cs| - 1], missed[|cs| - 1])
  {
    TraceGetsAll(cs, missed, first, 0);
  }

  lemma {:induction false} TraceGrows(cs: seq<Cache>, missed: seq<nat>, first: nat, d: Cache, m: nat)
    requires Trace(cs, missed, first) && var n := |cs| - 1; Round([cs[n], d], [missed[n], m], first + n, 0)
    ensures Trace(cs + [d], missed + [m], first)
  {
    var cs', missed' := cs + [d], missed + [m];
    forall k | 0 <= k < |cs'| - 1 ensures Round(cs', missed', first, k) {
      if k < |cs| - 1 { assert Round(cs, missed, first, k); }
    }
  }

  /** The trace goes from c, with no get failed, to where the object and its count are. */
  ghost predicate Follows(al: LruCache, bugs: nat, cs: seq<Cache>, missed: seq<nat>, c: Cache, first: nat, enr: nat)
    reads al
  {
    && Trace(cs, missed, first) && cs[0] == c && missed[0] == 0
    && first + |cs| == enr + 1 && cs[|cs| - 1] == al.Abs() && missed[|cs| - 1] == bugs
  }

  method GetOne(al: LruCache, enr: nat, bugs: nat, ghost cs: seq<Cache>, ghost missed: seq<nat>, ghost c: Cache,
      ghost first: nat)
    returns (bugs': nat, ghost cs': seq<Cache>, ghost missed': seq<nat>)
    requires al.Valid() && enr != FREE && Follows(al, bugs, cs, missed, c, first, enr)
    modifies al
    ensures al.Valid() && Follows(al, bugs', cs', missed', c, first, enr + 1)
  {
    var r := al.Get(enr, true, true);
    bugs' := bugs + if r.Some? then 0 else 1;
    TraceGrows(cs, missed, first, al.Abs(), bugs');
    cs', missed' := cs + [al.Abs()], missed + [bugs'];
  }

  /** The final loop of drbd_al_begin_io_nonblock, counting the gets that are reported as a logic bug. */
  method GetEach(al: LruCache, first: nat, end: nat) returns (bugs: nat)
    requires al.Valid() && first <= end <= FREE
    modifies al
    ensures al.Valid() && (al.Abs(), bugs) == GetAll(old(al.Abs()), first, end)
  {
    bugs := 0;
    ghost var c := al.Abs();
    ghost var cs, missed := [c], [0];
    var enr := first;
    while enr < end
      invariant enr <= end && al.Valid() && Follows(al, bugs, cs, missed, c, first, enr)
    {
      bugs, cs, missed := GetOne(al, enr, bugs, cs, missed, c, first);
      enr := enr + 1;
    }
    TraceResult(cs, missed, c, first, end);
  }

  /** With room for every extent the loop reports no bug, if and only if no transaction holds the
      cache or every extent is hot; it then holds a reference on each of them. */
  method CheckOut(al: LruCache, first: nat, end: nat) returns (bugs: nat)
    requires al.Valid() && first <= end <= FREE && end - first <= Room(al.Abs())
    modifies al
    ensures al.Valid() && al.Abs() == GetAll(old(al.Abs()), first, end).0
    ensures bugs == 0 <==> !old(al.locked) || forall x :: first <= x < end ==> Hot(old(al.Abs()), x)
    ensures bugs == 0 ==> forall x :: first <= x < end ==> al.Abs().IsUsed(x)
  {
    ghost var c := al.Abs();
    AllSucceed(c, first, end, 0);
    bugs := GetEach(al, first, end);
    forall x | bugs == 0 && first <= x < end ensures al.Abs().IsUsed(x) { AllTaken(c, first, end, 0, x); }
  }
}
