/** The LRU cache of lru_cache.c as a value: four lists, two-phase labels, reference counts
    and flag bits.  Lookup is a linear scan here; LruCache.dfy refines it with hash chains. */
module Lists {

  predicate NoDup(s: seq<nat>) {
    forall i, j :: 0 <= i < j < |s| ==> s[i] != s[j]
  }

  /** list_del: takes the first occurrence of x out of s. */
  function Remove(s: seq<nat>, x: nat): (r: seq<nat>)
    ensures x !in s ==> r == s
    ensures forall y :: y in r ==> y in s
    ensures forall y :: y in s && y != x ==> y in r
    ensures |r| == if x in s then |s| - 1 else |s|
    ensures NoDup(s) ==> NoDup(r) && x !in r
  {
    if s == [] then []
    else if s[0] == x then assert s == [x] + s[1..]; s[1..]
    else
      var t := Remove(s[1..], x);
      assert s == [s[0]] + s[1..];
      assert NoDup(s) ==> s[0] !in s[1..];
      assert NoDup(s) ==> NoDup(s[1..]);
      [s[0]] + t
  }

  function Reverse(s: seq<nat>): (r: seq<nat>)
    ensures |r| == |s|
    ensures forall x :: x in r <==> x in s
    ensures NoDup(s) ==> NoDup(r)
  {
    if s == [] then []
    else
      assert s == [s[0]] + s[1..];
      assert NoDup(s) ==> s[0] !in s[1..] && NoDup(s[1..]);
      Reverse(s[1..]) + [s[0]]
  }

  /** n-1, ..., 1, 0: the order in which lc_create leaves the free list. */
  function Countdown(n: nat): (r: seq<nat>)
    ensures |r| == n && NoDup(r)
    ensures forall x: nat :: x in r <==> x < n
  {
    if n == 0 then []
    else
      assert n - 1 !in Countdown(n - 1);
      [n - 1] + Countdown(n - 1)
  }
}

module Lru {
  import opened Wrappers
  import opened Lists

  /** LC_FREE, the label of an element that tracks nothing. */
  const FREE: nat := 0xffff_ffff

  /** An element is committed when both labels agree; otherwise it waits for a transaction. */
  datatype Elem = Elem(number: nat, newNumber: nat, refcnt: nat) {
    predicate Committed() { number == newNumber }
  }

  /** The first element whose new label is enr, by a linear scan from k. */
  function Scan(elems: seq<Elem>, enr: nat, k: nat := 0): (r: Option<nat>)
    requires k <= |elems|
    ensures r.Some? ==> k <= r.value < |elems| && elems[r.value].newNumber == enr
    ensures r.Some? ==> forall j :: k <= j < r.value ==> elems[j].newNumber != enr
    ensures r.None? ==> forall j :: k <= j < |elems| ==> elems[j].newNumber != enr
    decreases |elems| - k
  {
    if k == |elems| then None
    else if elems[k].newNumber == enr then Some(k)
    else Scan(elems, enr, k + 1)
  }

  datatype Cache = Cache(elems: seq<Elem>,
                         free: seq<nat>, lru: seq<nat>, inUse: seq<nat>, changing: seq<nat>,
                         maxPending: nat, dirty: bool, locked: bool, starving: bool) {

    /** Every element is on exactly one list, once, and the list tells its labels and refcount. */
    predicate ListsOk() {
      && NoDup(free) && NoDup(lru) && NoDup(inUse) && NoDup(changing)
      && (forall x :: x in free ==> x < |elems|)
      && (forall x :: x in lru ==> x < |elems|)
      && (forall x :: x in inUse ==> x < |elems|)
      && (forall x :: x in changing ==> x < |elems|)
      && (forall i :: 0 <= i < |elems| ==> Placed(i))
      && |free| + |lru| + |inUse| + |changing| == |elems|
    }

    predicate Placed(i: nat)
      requires i < |elems|
    {
      var e := elems[i];
      && (i in free ==> e.Committed() && e.number == FREE && e.refcnt == 0)
      && (i in lru ==> e.Committed() && e.refcnt == 0 && i !in free)
      && (i in inUse <==> e.Committed() && e.refcnt > 0)
      && (i in changing <==> !e.Committed())
      && (e.Committed() && e.refcnt == 0 ==> i in free || i in lru)
      && (e.refcnt > 0 ==> e.newNumber != FREE)
      && (!e.Committed() ==> e.refcnt > 0)
    }

    /** Unlabelled elements are on the free list.  Only drbd_noblock_compleate_io breaks this. */
    predicate NoStale() {
      forall i :: 0 <= i < |elems| && i in lru ==> elems[i].number != FREE
    }

    /** No label is held twice, neither as things are nor as they will be after the commit. */
    predicate LabelsOk() {
      forall i, j :: 0 <= i < j < |elems| ==> NoClash(i, j)
    }

    predicate NoClash(i: nat, j: nat)
      requires i < |elems| && j < |elems|
    {
      && (elems[i].number == elems[j].number ==> elems[i].number == FREE)
      && (elems[i].newNumber == elems[j].newNumber ==> elems[i].newNumber == FREE)
    }

    predicate Valid() {
      && elems != []
      && ListsOk()
      && LabelsOk()
      && |changing| <= maxPending
      && (starving ==> free == [] && lru == [])
    }

    /** lc->used, lc->pending_changes */
    function Used(): nat { |inUse| + |changing| }
    function Pending(): nat { |changing| }

    /** __lc_find */
    function Find(enr: nat, includeChanging: bool): (r: Option<nat>)
      ensures r.Some? ==>
        r.value < |elems| && elems[r.value].newNumber == enr && (includeChanging || elems[r.value].Committed())
    {
      if enr == FREE then None
      else
        match Scan(elems, enr)
        case None => None
        case Some(i) => if elems[i].Committed() || includeChanging then Some(i) else None
    }

    /** lc_is_used: referenced now, or about to be. */
    predicate IsUsed(enr: nat) {
      var r := Find(enr, true);
      r.Some? && elems[r.value].refcnt > 0
    }

    function SetElem(i: nat, e: Elem): Cache
      requires i < |elems|
    {
      this.(elems := elems[i := e])
    }

    function AddRef(i: nat): Cache
      requires i < |elems|
    {
      SetElem(i, elems[i].(refcnt := elems[i].refcnt + 1))
    }

    /** The head of the free list, else the least recently released element. */
    function Victim(): (i: nat)
      requires Valid() && (free != [] || lru != [])
      ensures i < |elems| && elems[i].Committed() && elems[i].refcnt == 0
      ensures (i in free && i !in lru) || (i in lru && i !in free && free == [])
    {
      if free != [] then assert free[0] in free && Placed(free[0]); free[0]
      else assert lru[|lru| - 1] in lru && Placed(lru[|lru| - 1]); lru[|lru| - 1]
    }

    /** lc_prepare_for_change of the victim i, with the reference its caller takes. */
    function Prepare(i: nat, enr: nat): Cache
      requires i < |elems| && (free != [] || lru != [])
    {
      SetElem(i, Elem(elems[i].number, enr, elems[i].refcnt + 1))
        .(free := if free != [] then free[1..] else free,
          lru := if free != [] then lru else lru[..|lru| - 1],
          changing := [i] + changing)
    }

    /** The element moves to the front of the in-use list. */
    function Touch(i: nat): Cache
      requires i < |elems|
    {
      AddRef(i).(lru := Remove(lru, i), inUse := [i] + Remove(inUse, i))
    }

    /** __lc_get: the new cache and the element handed out, if any. */
    function Get(enr: nat, mayChange: bool, mayUseUncommitted: bool): (r: (Cache, Option<nat>))
      requires Valid()
      ensures |r.0.elems| == |elems|
      ensures r.1.Some? ==>
        r.1.value < |elems| && r.0.elems[r.1.value].newNumber == enr && r.0.elems[r.1.value].refcnt > 0
    {
      if starving then (this, None)
      else
        match Scan(elems, enr)
        case Some(i) =>
          if elems[i].Committed() then (Touch(i), Some(i))
          else if mayUseUncommitted then (AddRef(i), Some(i))
          else (this, None)
        case None =>
          if !mayChange then (this, None)
          else if locked then (this.(dirty := true), None)
          else if free == [] && lru == [] then (this.(dirty := true, starving := true), None)
          else if |changing| >= maxPending then (this.(dirty := true), None)
          else (Prepare(Victim(), enr).(dirty := true, starving := false), Some(Victim()))
    }

    /** lc_put; callable on a committed, referenced element. */
    function Put(i: nat): Cache
      requires i < |elems| && elems[i].refcnt > 0
    {
      var c := SetElem(i, elems[i].(refcnt := elems[i].refcnt - 1));
      if elems[i].refcnt > 1 then c
      else c.(inUse := Remove(inUse, i), lru := [i] + lru, starving := false)
    }

    /** lc_committed: every waiting element takes its new label. */
    function Commit(): (c: Cache)
      ensures |c.elems| == |elems|
    {
      this.(elems := seq(|elems|, i requires 0 <= i < |elems| => elems[i].(number := elems[i].newNumber)),
            inUse := Reverse(changing) + inUse, changing := [])
    }

    /** lc_del; callable on an unreferenced element. */
    function Del(i: nat): Cache
      requires i < |elems|
    {
      SetElem(i, Elem(FREE, FREE, elems[i].refcnt)).(free := [i] + Remove(free, i), lru := Remove(lru, i))
    }
  }

  /** lc_create, lc_reset */
  function Fresh(n: nat, maxPending: nat): Cache {
    Cache(seq(n, _ => Elem(FREE, FREE, 0)), Countdown(n), [], [], [], maxPending, false, false, false)
  }

  // ----- every operation keeps Valid -----

  lemma {:induction false} FreshValid(n: nat, maxPending: nat)
    requires n > 0
    ensures Fresh(n, maxPending).Valid() && Fresh(n, maxPending).NoStale()
  {
    var c := Fresh(n, maxPending);
    forall j, k | 0 <= j < k < n ensures c.NoClash(j, k) {}
    forall j | 0 <= j < n ensures c.Placed(j) {}
  }

  lemma {:induction false} LabelsFrame(c: Cache, d: Cache)
    requires c.LabelsOk() && |d.elems| == |c.elems|
    requires forall i :: 0 <= i < |c.elems| ==>
      d.elems[i].number == c.elems[i].number && d.elems[i].newNumber == c.elems[i].newNumber
    ensures d.LabelsOk()
  {
    forall i, j | 0 <= i < j < |d.elems| ensures d.NoClash(i, j) { assert c.NoClash(i, j); }
  }

  /** Labels are unique, so the scan stops at the one element that holds the label. */
  lemma {:induction false} ScanUnique(c: Cache, i: nat)
    requires c.Valid() && i < |c.elems| && c.elems[i].newNumber != FREE
    ensures Scan(c.elems, c.elems[i].newNumber) == Some(i)
  {
    var k := Scan(c.elems, c.elems[i].newNumber);
    assert k.Some? && k.value <= i;
    assert k.value < i ==> c.NoClash(k.value, i);
  }

  lemma {:induction false} TouchValid(c: Cache, i: nat)
    requires c.Valid() && i < |c.elems| && c.elems[i].Committed() && c.elems[i].number != FREE && !c.starving
    ensures c.Touch(i).Valid() && (c.NoStale() ==> c.Touch(i).NoStale())
  {
    var d := c.Touch(i);
    assert c.Placed(i);
    assert d.free == c.free && d.changing == c.changing;
    LabelsFrame(c, d);
    forall j | 0 <= j < |d.elems| ensures d.Placed(j) {
      assert c.Placed(j) && c.Placed(i);
    }
  }

  lemma {:induction false} AddRefValid(c: Cache, i: nat)
    requires c.Valid() && i < |c.elems| && c.elems[i].refcnt > 0
    ensures c.AddRef(i).Valid() && (c.NoStale() ==> c.AddRef(i).NoStale())
  {
    var d := c.AddRef(i);
    LabelsFrame(c, d);
    forall j | 0 <= j < |d.elems| ensures d.Placed(j) {
      assert c.Placed(j) && c.Placed(i);
    }
  }

  lemma {:induction false} PrepareLabels(c: Cache, i: nat, enr: nat)
    requires c.LabelsOk() && i < |c.elems| && Scan(c.elems, enr).None? && (c.free != [] || c.lru != [])
    ensures c.Prepare(i, enr).LabelsOk()
  {
    var d := c.Prepare(i, enr);
    forall j, k | 0 <= j < k < |d.elems| ensures d.NoClash(j, k) { assert c.NoClash(j, k); }
  }

  /** Taking the victim off its list. */
  lemma {:induction false} PrepareLists(c: Cache, enr: nat)
    requires c.Valid() && (c.free != [] || c.lru != [])
    ensures var d, i := c.Prepare(c.Victim(), enr), c.Victim();
            && NoDup(d.free) && NoDup(d.lru) && |d.free| + |d.lru| == |c.free| + |c.lru| - 1
            && i !in d.free && i !in d.lru
            && (forall x :: x in d.free <==> x in c.free && x != i)
            && (forall x :: x in d.lru <==> x in c.lru && x != i)
  {
    if c.free != [] {
      assert c.free == [c.free[0]] + c.free[1..];
    } else {
      assert c.lru == c.lru[..|c.lru| - 1] + [c.lru[|c.lru| - 1]];
    }
  }

  lemma {:induction false} PrepareValid(c: Cache, enr: nat)
    requires c.Valid() && (c.free != [] || c.lru != []) && |c.changing| < c.maxPending
    requires enr != FREE && Scan(c.elems, enr).None?
    ensures c.Prepare(c.Victim(), enr).Valid() && (c.NoStale() ==> c.Prepare(c.Victim(), enr).NoStale())
  {
    var i := c.Victim();
    var d := c.Prepare(i, enr);
    assert c.Placed(i);
    PrepareLabels(c, i, enr);
    PrepareLists(c, enr);
    forall j | 0 <= j < |d.elems| ensures d.Placed(j) {
      assert c.Placed(j);
    }
  }

  /** Whatever branch __lc_get takes, the cache stays valid; the BUG_ONs in it cannot fire. */
  lemma {:induction false} GetValid(c: Cache, enr: nat, mayChange: bool, mayUse: bool)
    requires c.Valid() && enr != FREE
    ensures c.Get(enr, mayChange, mayUse).0.Valid() && (c.NoStale() ==> c.Get(enr, mayChange, mayUse).0.NoStale())
  {
    if !c.starving {
      match Scan(c.elems, enr)
      case Some(i) =>
        assert c.Placed(i);
        if c.elems[i].Committed() { TouchValid(c, i); }
        else if mayUse { AddRefValid(c, i); }
      case None =>
        if mayChange && !c.locked && (c.free != [] || c.lru != []) && |c.changing| < c.maxPending {
          PrepareValid(c, enr);
          var d := c.Prepare(c.Victim(), enr);
          FlagsValid(d, true, d.locked, false);
        } else {
          if mayChange && !c.locked && c.free == [] && c.lru == [] {
            FlagsValid(c, true, c.locked, true);
          } else {
            FlagsValid(c, true, c.locked, c.starving);
          }
        }
    }
  }

  lemma {:induction false} FlagsValid(c: Cache, dirty: bool, locked: bool, starving: bool)
    requires c.Valid() && (starving ==> c.free == [] && c.lru == [])
    ensures c.(dirty := dirty, locked := locked, starving := starving).Valid()
      && (c.NoStale() ==> c.(dirty := dirty, locked := locked, starving := starving).NoStale())
  {
    var d := c.(dirty := dirty, locked := locked, starving := starving);
    LabelsFrame(c, d);
    forall j | 0 <= j < |d.elems| ensures d.Placed(j) { assert c.Placed(j); }
  }

  lemma {:induction false} PutLastValid(c: Cache, i: nat)
    requires c.Valid() && i < |c.elems| && c.elems[i].Committed() && c.elems[i].refcnt == 1
    ensures c.Put(i).Valid() && (c.NoStale() ==> c.Put(i).NoStale())
  {
    var d := c.Put(i);
    assert c.Placed(i);
    assert d.lru == [i] + c.lru && d.free == c.free && d.changing == c.changing && d.inUse == Remove(c.inUse, i);
    LabelsFrame(c, d);
    forall j | 0 <= j < |d.elems| ensures d.Placed(j) {
      assert c.Placed(j);
    }
  }

  lemma {:induction false} PutValid(c: Cache, i: nat)
    requires c.Valid() && i < |c.elems| && c.elems[i].Committed() && c.elems[i].refcnt > 0
    ensures c.Put(i).Valid() && (c.NoStale() ==> c.Put(i).NoStale())
  {
    if c.elems[i].refcnt == 1 {
      PutLastValid(c, i);
    } else {
      var d := c.Put(i);
      LabelsFrame(c, d);
      forall j | 0 <= j < |d.elems| ensures d.Placed(j) {
        assert c.Placed(j);
      }
    }
  }

  lemma {:induction false} CommitValid(c: Cache)
    requires c.Valid()
    ensures c.Commit().Valid() && (c.NoStale() ==> c.Commit().NoStale())
  {
    var d := c.Commit();
    forall j, k | 0 <= j < k < |d.elems| ensures d.NoClash(j, k) { assert c.NoClash(j, k); }
    forall j | 0 <= j < |d.elems| ensures d.Placed(j) {
      assert c.Placed(j);
    }
    forall i | 0 <= i < |d.elems| && i in d.lru && c.NoStale() ensures d.elems[i].number != FREE {
      assert c.Placed(i);
    }
    var r := Reverse(c.changing);
    forall i, j | 0 <= i < j < |d.inUse| ensures d.inUse[i] != d.inUse[j] {
      if i < |r| <= j {
        assert d.inUse[i] in c.changing && d.inUse[j] in c.inUse;
        assert c.Placed(d.inUse[i]);
      }
    }
  }

  lemma {:induction false} DelValid(c: Cache, i: nat)
    requires c.Valid() && i < |c.elems| && c.elems[i].refcnt == 0
    ensures c.Del(i).Valid() && (c.NoStale() ==> c.Del(i).NoStale())
  {
    var d := c.Del(i);
    assert c.Placed(i);
    assert d.inUse == c.inUse && d.changing == c.changing;
    forall j, k | 0 <= j < k < |d.elems| ensures d.NoClash(j, k) { assert c.NoClash(j, k); }
    forall j | 0 <= j < |d.elems| ensures d.Placed(j) {
      assert c.Placed(j);
    }
  }

  // ----- lc->used and lc->pending_changes as counters -----

  lemma {:induction false} TouchUsed(c: Cache, i: nat)
    requires c.Valid() && i < |c.elems| && c.elems[i].Committed()
    ensures c.Touch(i).Used() == c.Used() + (if c.elems[i].refcnt == 0 then 1 else 0)
    ensures c.Touch(i).Pending() == c.Pending()
  {
    assert c.Placed(i);
  }

  lemma {:induction false} PrepareUsed(c: Cache, enr: nat)
    requires c.Valid() && (c.free != [] || c.lru != [])
    ensures c.Prepare(c.Victim(), enr).Used() == c.Used() + 1
    ensures c.Prepare(c.Victim(), enr).Pending() == c.Pending() + 1
  {
    assert c.Placed(c.Victim());
  }

  lemma {:induction false} PutUsed(c: Cache, i: nat)
    requires c.Valid() && i < |c.elems| && c.elems[i].Committed() && c.elems[i].refcnt > 0
    ensures c.Put(i).Used() == c.Used() - (if c.elems[i].refcnt == 1 then 1 else 0)
    ensures c.Put(i).Pending() == c.Pending()
  {
    assert c.Placed(i);
  }

  /** A get touches no element but the one that ends up with the label asked for. */
  lemma {:induction false} GetElems(c: Cache, enr: nat, mayChange: bool, mayUse: bool)
    requires c.Valid()
    ensures var d := c.Get(enr, mayChange, mayUse).0;
            forall i :: 0 <= i < |c.elems| ==> d.elems[i] == c.elems[i] || d.elems[i].newNumber == enr
  {}
}
