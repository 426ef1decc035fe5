/** drbd_noblock_begin_io and drbd_noblock_compleate_io: an LRU cache used as a bounded map from
    extents to outstanding requests.  A released element loses its label in place and stays on
    its old hash chain. */
module Noblock {
  import opened Wrappers
  import opened Lists
  import opened Lru
  import opened LruEffects
  import opened LruObject

  /** What the cache stands for.  starving blocks every begin until some extent is released. */
  datatype Log = Log(counts: map<nat, nat>, starving: bool)

  function BeginOne(l: Log, capacity: nat, enr: nat): (Log, bool) {
    if l.starving then (l, false)
    else if enr in l.counts then (l.(counts := l.counts[enr := l.counts[enr] + 1]), true)
    else if |l.counts| < capacity then (l.(counts := l.counts[enr := 1]), true)
    else (l.(starving := true), false)
  }

  function EndOne(l: Log, enr: nat, clean: bool): (Log, bool) {
    if enr !in l.counts then (l, false)
    else if clean || l.counts[enr] <= 1 then (Log(l.counts - {enr}, false), true)
    else (l.(counts := l.counts[enr := l.counts[enr] - 1]), true)
  }

  // ----- the code, on the cache -----

  function Start(c: Cache, enr: nat): (r: (Cache, bool))
    requires c.Valid()
  {
    var (d, e) := Grab(c, enr);
    (d, e.Some?)
  }

  function Finish(c: Cache, enr: nat, clean: bool): (r: (Cache, bool))
    ensures |r.0.elems| == |c.elems|
  {
    match c.Find(enr, false)
    case None => (c, false)
    case Some(i) =>
      if c.elems[i].refcnt == 0 then (c, true)
      else
        var d := (if clean then c.SetElem(i, c.elems[i].(refcnt := 1)) else c).Put(i);
        (if d.elems[i].refcnt == 0 then Forget(d, i) else d, true)
  }

  // ----- refinement -----

  /** Only referenced elements are labelled. */
  predicate Shed(c: Cache, i: nat)
    requires i < |c.elems|
  {
    c.elems[i].refcnt == 0 ==> c.elems[i].number == FREE
  }

  predicate Counted(c: Cache, m: map<nat, nat>, i: nat)
    requires i < |c.elems|
  {
    c.elems[i].refcnt > 0 ==> c.elems[i].number in m && m[c.elems[i].number] == c.elems[i].refcnt
  }

  predicate Present(c: Cache, enr: nat) {
    enr != FREE && Scan(c.elems, enr).Some?
  }

  predicate Tracks(c: Cache, l: Log) {
    && Calm(c) && c.starving == l.starving && c.Used() == |l.counts|
    && (forall i :: 0 <= i < |c.elems| ==> Shed(c, i) && Counted(c, l.counts, i))
    && (forall x :: x in l.counts ==> Present(c, x))
  }

  lemma {:induction false} FreshTracks(n: nat, maxPending: nat)
    requires n > 0 && maxPending > 0
    ensures Tracks(Fresh(n, maxPending), Log(map[], false))
  {
    FreshValid(n, maxPending);
    var c := Fresh(n, maxPending);
    forall i | 0 <= i < n ensures Shed(c, i) && Counted(c, map[], i) {}
  }

  /** The extents tracked are those of the referenced elements. */
  lemma {:induction false} Lookup(c: Cache, l: Log, enr: nat)
    requires Tracks(c, l) && enr != FREE
    ensures enr in l.counts <==> Scan(c.elems, enr).Some?
    ensures enr in l.counts ==>
      var i := Scan(c.elems, enr).value;
      && c.elems[i].Committed() && c.elems[i].refcnt == l.counts[enr] > 0 && c.Find(enr, false) == Some(i)
    ensures enr !in l.counts ==> c.Find(enr, false).None?
    ensures l.starving ==> |l.counts| == |c.elems|
  {
    var r := Scan(c.elems, enr);
    if r.Some? {
      AllCommitted(c, r.value);
      assert Shed(c, r.value) && Counted(c, l.counts, r.value);
    }
    if enr in l.counts { assert Present(c, enr); }
  }

  lemma {:induction false} UpdateCounted(c: Cache, l: Log, d: Cache, i: nat, enr: nat, refs: nat)
    requires Tracks(c, l) && enr != FREE && refs > 0 && Differs(c, d, i, Elem(enr, enr, refs))
    ensures forall j :: 0 <= j < |d.elems| ==> Shed(d, j) && Counted(d, l.counts[enr := refs], j)
  {
    var m := l.counts[enr := refs];
    forall j | 0 <= j < |d.elems| ensures Shed(d, j) && Counted(d, m, j) {
      assert Shed(c, j) && Counted(c, l.counts, j);
      if j != i { if i < j { assert d.NoClash(i, j); } else { assert d.NoClash(j, i); } }
    }
  }

  lemma {:induction false} UpdatePresent(c: Cache, l: Log, d: Cache, i: nat, enr: nat, refs: nat)
    requires Tracks(c, l) && enr != FREE && refs > 0 && Differs(c, d, i, Elem(enr, enr, refs))
    requires if enr in l.counts then Scan(c.elems, enr) == Some(i) else c.elems[i].refcnt == 0
    ensures forall x :: x in l.counts[enr := refs] ==> Present(d, x)
  {
    ScanUnique(d, i);
    forall x | x in l.counts[enr := refs] ensures Present(d, x) {
      if x != enr {
        assert Present(c, x);
        Lookup(c, l, x);
        var k := Scan(c.elems, x).value;
        assert d.elems[k] == c.elems[k];
      }
    }
  }

  /** Changing the count of one tracked extent, or tracking a new one, in both worlds. */
  lemma {:induction false} Update(c: Cache, l: Log, d: Cache, i: nat, enr: nat, refs: nat)
    requires Tracks(c, l) && enr != FREE && refs > 0 && Differs(c, d, i, Elem(enr, enr, refs))
    requires if enr in l.counts then Scan(c.elems, enr) == Some(i) else c.elems[i].refcnt == 0
    requires d.Used() == c.Used() + if enr in l.counts then 0 else 1
    ensures Tracks(d, Log(l.counts[enr := refs], d.starving))
  {
    UpdateCounted(c, l, d, i, enr, refs);
    UpdatePresent(c, l, d, i, enr, refs);
    KeysCard(l.counts, l.counts[enr := refs], enr);
    var m := Log(l.counts[enr := refs], d.starving);
    assert d.Used() == |m.counts| && d.starving == m.starving && Calm(d);
    assert forall j :: 0 <= j < |d.elems| ==> Shed(d, j) && Counted(d, m.counts, j);
    assert forall x :: x in m.counts ==> Present(d, x);
  }

  lemma {:induction false} BeginRefines(c: Cache, l: Log, enr: nat)
    requires Tracks(c, l) && enr != FREE
    ensures |Start(c, enr).0.elems| == |c.elems| && Start(c, enr).1 == BeginOne(l, |c.elems|, enr).1
    ensures Tracks(Start(c, enr).0, BeginOne(l, |c.elems|, enr).0)
  {
    Lookup(c, l, enr);
    if !l.starving {
      if enr in l.counts {
        var i := Scan(c.elems, enr).value;
        GrabHit(c, enr, i);
        HitEffect(c, i);
        Update(c, l, c.Touch(i), i, enr, l.counts[enr] + 1);
      } else if |l.counts| < |c.elems| {
        GrabEffect(c, enr);
        MissEffect(c, enr);
        Update(c, l, Grab(c, enr).0, Grab(c, enr).1.value, enr, 1);
      } else {
        GrabFull(c, enr);
        StillTracks(c, l, Grab(c, enr).0);
      }
    }
  }

  lemma {:induction false} StillTracks(c: Cache, l: Log, d: Cache)
    requires Tracks(c, l) && Calm(d) && d.elems == c.elems && d.Used() == c.Used()
    ensures Tracks(d, l.(starving := d.starving))
  {
    forall j | 0 <= j < |d.elems| ensures Shed(d, j) && Counted(d, l.counts, j) {
      assert Shed(c, j) && Counted(c, l.counts, j);
    }
    forall x | x in l.counts ensures Present(d, x) { assert Present(c, x); }
  }

  /** Dropping an extent from both worlds. */
  lemma {:induction false} Drop(c: Cache, l: Log, d: Cache, i: nat, enr: nat)
    requires Tracks(c, l) && enr in l.counts && enr != FREE && Scan(c.elems, enr) == Some(i)
    requires Differs(c, d, i, Elem(FREE, FREE, 0)) && d.Used() == c.Used() - 1
    ensures Tracks(d, Log(l.counts - {enr}, d.starving))
  {
    var m := l.counts - {enr};
    forall j | 0 <= j < |d.elems| ensures Shed(d, j) && Counted(d, m, j) {
      assert Shed(c, j) && Counted(c, l.counts, j);
      assert c.Placed(i) && c.Placed(j);
      assert i < j ==> c.NoClash(i, j);
      assert j < i ==> c.NoClash(j, i);
    }
    forall x | x in m ensures Present(d, x) {
      assert Present(c, x);
      Lookup(c, l, x);
      var k := Scan(c.elems, x).value;
      assert d.elems[k] == c.elems[k];
    }
    assert |m| == |l.counts| - 1 by {
      assert l.counts.Keys == m.Keys + {enr};
      assert |m.Keys| == |m| && |l.counts.Keys| == |l.counts|;
    }
  }

  /** A cache with the count of one referenced element changed. */
  lemma {:induction false} RefsEffect(c: Cache, i: nat, refs: nat)
    requires Calm(c) && i < |c.elems| && c.elems[i].refcnt > 0 && refs > 0
    ensures var d := c.SetElem(i, c.elems[i].(refcnt := refs));
      Differs(c, d, i, c.elems[i].(refcnt := refs)) && d.Used() == c.Used()
  {
    var d := c.SetElem(i, c.elems[i].(refcnt := refs));
    LabelsFrame(c, d);
    forall j | 0 <= j < |d.elems| ensures d.Placed(j) { assert c.Placed(j); }
  }

  lemma {:induction false} LastPut(c: Cache, i: nat)
    requires Calm(c) && i < |c.elems| && c.elems[i].refcnt == 1
    ensures var d := Forget(c.Put(i), i);
            Differs(c, d, i, Elem(FREE, FREE, 0)) && d.Used() == c.Used() - 1 && !d.starving
  {
    PutEffect(c, i);
    ForgetEffect(c.Put(i), i);
  }

  lemma {:induction false} CleanRefines(c: Cache, l: Log, enr: nat)
    requires Tracks(c, l) && enr != FREE && enr in l.counts
    ensures Finish(c, enr, true).1 && Tracks(Finish(c, enr, true).0, Log(l.counts - {enr}, false))
  {
    Lookup(c, l, enr);
    var i := Scan(c.elems, enr).value;
    var b := c.SetElem(i, c.elems[i].(refcnt := 1));
    RefsEffect(c, i, 1);
    LastPut(b, i);
    var d := Forget(b.Put(i), i);
    assert Differs(c, d, i, Elem(FREE, FREE, 0));
    Drop(c, l, d, i, enr);
  }

  lemma {:induction false} LastRefines(c: Cache, l: Log, enr: nat)
    requires Tracks(c, l) && enr != FREE && enr in l.counts && l.counts[enr] == 1
    ensures Finish(c, enr, false).1 && Tracks(Finish(c, enr, false).0, Log(l.counts - {enr}, false))
  {
    Lookup(c, l, enr);
    var i := Scan(c.elems, enr).value;
    LastPut(c, i);
    Drop(c, l, Forget(c.Put(i), i), i, enr);
  }

  lemma {:induction false} PutRefines(c: Cache, l: Log, enr: nat)
    requires Tracks(c, l) && enr != FREE && enr in l.counts && l.counts[enr] > 1
    ensures Finish(c, enr, false).1 && Tracks(Finish(c, enr, false).0, l.(counts := l.counts[enr := l.counts[enr] - 1]))
  {
    Lookup(c, l, enr);
    var i := Scan(c.elems, enr).value;
    PutEffect(c, i);
    Update(c, l, c.Put(i), i, enr, l.counts[enr] - 1);
  }

  lemma {:induction false} EndRefines(c: Cache, l: Log, enr: nat, clean: bool)
    requires Tracks(c, l) && enr != FREE
    ensures Finish(c, enr, clean).1 == EndOne(l, enr, clean).1
    ensures Tracks(Finish(c, enr, clean).0, EndOne(l, enr, clean).0)
  {
    Lookup(c, l, enr);
    if enr in l.counts {
      if clean {
        CleanRefines(c, l, enr);
      } else if l.counts[enr] == 1 {
        LastRefines(c, l, enr);
      } else {
        PutRefines(c, l, enr);
      }
    }
  }

  // ----- whole requests, which may cover several extents -----

  function BeginAll(l: Log, capacity: nat, first: nat, end: nat): (Log, bool)
    requires first <= end
    decreases end - first
  {
    if first == end then (l, true)
    else
      var (l1, ok) := BeginOne(l, capacity, first);
      var (l2, rest) := BeginAll(l1, capacity, first + 1, end);
      (l2, ok && rest)
  }

  function EndAll(l: Log, first: nat, end: nat, clean: bool): (Log, bool)
    requires first <= end
    decreases end - first
  {
    if first == end then (l, true)
    else
      var (l1, ok) := EndOne(l, first, clean);
      var (l2, rest) := EndAll(l1, first + 1, end, clean);
      (l2, ok && rest)
  }

  /** What is done so far and what is still to do: one more extent changes nothing. */
  lemma {:induction false} BeginNext(l: Log, capacity: nat, first: nat, end: nat, ok: bool)
    requires first < end
    ensures var (l1, got) := BeginOne(l, capacity, first);
      (BeginAll(l1, capacity, first + 1, end).0, ok && got && BeginAll(l1, capacity, first + 1, end).1)
        == (BeginAll(l, capacity, first, end).0, ok && BeginAll(l, capacity, first, end).1)
  {}

  lemma {:induction false} EndNext(l: Log, first: nat, end: nat, clean: bool, ok: bool)
    requires first < end
    ensures var (l1, got) := EndOne(l, first, clean);
      (EndAll(l1, first + 1, end, clean).0, ok && got && EndAll(l1, first + 1, end, clean).1)
        == (EndAll(l, first, end, clean).0, ok && EndAll(l, first, end, clean).1)
  {}

  /** A complete takes one request, or all of them, off every extent it covers, and reports
      whether every one of them was present. */
  lemma {:induction false} EndExact(l: Log, first: nat, end: nat, clean: bool)
    requires first <= end
    ensures EndAll(l, first, end, clean).1 <==> forall x :: first <= x < end ==> x in l.counts
    ensures EndAll(l, first, end, clean).0.counts ==
      map x | x in l.counts && !(first <= x < end && (clean || l.counts[x] <= 1)) ::
        if first <= x < end then l.counts[x] - 1 else l.counts[x]
    decreases end - first
  {
    if first < end {
      var l1 := EndOne(l, first, clean).0;
      assert forall x: nat :: x != first ==> (x in l1.counts <==> x in l.counts);
      EndExact(l1, first + 1, end, clean);
    }
  }

  /** The extents of a request that are not tracked yet. */
  function Missing(l: Log, first: nat, end: nat): set<nat> {
    set x | first <= x < end && x !in l.counts
  }

  lemma {:induction false} BeginRoom(l: Log, capacity: nat, first: nat, end: nat)
    requires first < end
    ensures var (l1, ok) := BeginOne(l, capacity, first);
      ok ==> |l1.counts| + |Missing(l1, first + 1, end)| == |l.counts| + |Missing(l, first, end)|
  {
    var (l1, ok) := BeginOne(l, capacity, first);
    if ok {
      var m, m1 := Missing(l, first, end), Missing(l1, first + 1, end);
      assert forall x: nat :: x != first ==> (x in l1.counts <==> x in l.counts);
      assert forall x: nat :: x in m1 <==> x in m && x != first;
      KeysCard(l.counts, l1.counts, first);
      if first in l.counts {
        assert first !in m;
        assert m == m1;
      } else {
        assert first in m;
        assert m == m1 + {first};
      }
    }
  }

  lemma {:induction false} KeysCard(m: map<nat, nat>, m': map<nat, nat>, x: nat)
    requires x in m' && forall y: nat :: y != x ==> (y in m' <==> y in m)
    ensures |m'| == |m| + if x in m then 0 else 1
  {
    var k: set<nat> := m.Keys;
    if x in m {
      assert m'.Keys == k;
    } else {
      assert m'.Keys == k + {x} && |k + {x}| == |k| + 1;
    }
    assert |m.Keys| == |m| && |m'.Keys| == |m'|;
  }

  /** A begin succeeds if and only if no earlier failure blocks the cache and there is room for
      the extents that are new. */
  lemma {:induction false} BeginSucceeds(l: Log, capacity: nat, first: nat, end: nat)
    requires first < end && |l.counts| <= capacity
    ensures BeginAll(l, capacity, first, end).1 <==> !l.starving && |l.counts| + |Missing(l, first, end)| <= capacity
    decreases end - first
  {
    var (l1, ok) := BeginOne(l, capacity, first);
    BeginRoom(l, capacity, first, end);
    if ok && first + 1 < end {
      BeginSucceeds(l1, capacity, first + 1, end);
    } else if ok {
      assert Missing(l1, first + 1, end) == {};
    } else if !l.starving {
      assert first in Missing(l, first, end);
    }
  }

  /** ... and then adds one request to every extent it covers. */
  lemma {:induction false} BeginAdds(l: Log, capacity: nat, first: nat, end: nat, x: nat)
    requires first <= end && BeginAll(l, capacity, first, end).1
    ensures var m := BeginAll(l, capacity, first, end).0.counts;
      && (x in m <==> x in l.counts || first <= x < end)
      && (x in m ==> m[x] == (if x in l.counts then l.counts[x] else 0) + (if first <= x < end then 1 else 0))
    decreases end - first
  {
    if first < end { BeginAdds(BeginOne(l, capacity, first).0, capacity, first + 1, end, x); }
  }

  // ----- the code, on the object -----

  /** A get on a cache without pending changes leaves at most the new element to commit. */
  lemma {:induction false} OneChange(c: Cache, enr: nat)
    requires Calm(c) && enr != FREE
    ensures var (d, r) := c.Get(enr, true, false);
      && d.Valid()
      && (r.Some? && d.elems[r.value].number == enr ==> d.changing == [])
      && (r.Some? && d.elems[r.value].number != enr ==>
            && d.changing == [r.value]
            && d.Commit() == d.(elems := d.elems[r.value := d.elems[r.value].(number := enr)],
                inUse := [r.value] + d.inUse, changing := []))
  {
    GetValid(c, enr, true, false);
    var (d, r) := c.Get(enr, true, false);
    if r.Some? && d.elems[r.value].number != enr {
      var i := r.value;
      assert d.changing == [i];
      assert Reverse([i]) == [i];
      forall j | 0 <= j < |d.elems| ensures d.Commit().elems[j] == d.elems[i := d.elems[i].(number := enr)][j] {
        assert d.Placed(j);
      }
    }
  }

  /** The hand-written commit of one element. */
  method Promote(lc: LruCache, i: nat)
    requires lc.Valid() && lc.changing == [i] && i < |lc.elems|
    requires lc.Abs().Commit() ==
      lc.Abs().(elems := lc.elems[i := lc.elems[i].(number := lc.elems[i].newNumber)], inUse := [i] + lc.inUse,
          changing := [])
    modifies lc
    ensures lc.Valid() && lc.Abs() == old(lc.Abs()).Commit()
  {
    CommitValid(lc.Abs());
    HashFrame(lc.elems, lc.Abs().Commit().elems, lc.slots);
    lc.elems := lc.elems[i := lc.elems[i].(number := lc.elems[i].newNumber)];
    lc.inUse, lc.changing := [i] + lc.inUse, [];
    lc.pending := lc.pending - 1;
  }

  /** One round of drbd_noblock_begin_io. */
  method StartOne(lc: LruCache, enr: nat) returns (ok: bool)
    requires lc.Valid() && Calm(lc.Abs()) && enr != FREE
    modifies lc
    ensures lc.Valid() && lc.Abs() == Start(old(lc.Abs()), enr).0 && ok == Start(old(lc.Abs()), enr).1
  {
    OneChange(lc.Abs(), enr);
    var r := lc.Get(enr, true, false);
    if r.Some? && lc.elems[r.value].number != enr {
      Promote(lc, r.value);
    }
    ok := r.Some?;
  }

  /** The object has n elements and stands for the map. */
  ghost predicate Models(lc: LruCache, n: nat, l: Log)
    reads lc
  {
    lc.Valid() && |lc.elems| == n && Tracks(lc.Abs(), l)
  }

  method BeginStep(lc: LruCache, enr: nat, ghost n: nat, ghost l: Log) returns (ok: bool, ghost l': Log)
    requires Models(lc, n, l) && enr != FREE
    modifies lc
    ensures Models(lc, n, l') && (l', ok) == BeginOne(l, n, enr)
  {
    BeginRefines(lc.Abs(), l, enr);
    ok := StartOne(lc, enr);
    l' := BeginOne(l, n, enr).0;
  }

  /** drbd_noblock_begin_io */
  method BeginIo(lc: LruCache, first: nat, end: nat, ghost n: nat, ghost l: Log) returns (ok: bool)
    requires Models(lc, n, l) && first <= end <= FREE
    modifies lc
    ensures Models(lc, n, BeginAll(l, n, first, end).0) && ok == BeginAll(l, n, first, end).1
  {
    ghost var now, goal := l, BeginAll(l, n, first, end);
    ok := true;
    var enr := first;
    while enr < end
      invariant enr <= end && Models(lc, n, now)
      invariant goal == (BeginAll(now, n, enr, end).0, ok && BeginAll(now, n, enr, end).1)
    {
      var got;
      BeginNext(now, n, enr, end, ok);
      got, now := BeginStep(lc, enr, n, now);
      ok := ok && got;
      enr := enr + 1;
    }
  }

  /** Unlabelling an element leaves it on its chain, where no lookup can return it. */
  lemma {:induction false} ForgetHash(elems: seq<Elem>, slots: seq<seq<nat>>, i: nat)
    requires HashOk(elems, slots) && i < |elems|
    ensures HashOk(elems[i := Elem(FREE, FREE, 0)], slots)
  {
    var es := elems[i := Elem(FREE, FREE, 0)];
    forall x, s | 0 <= x < |es| && 0 <= s < |slots| ensures Hashed(es, x, s) ==> x in slots[s]
      ensures x in slots[s] ==> es[x].newNumber == FREE || Hashed(es, x, s)
    {
      assert x != i ==> (Hashed(es, x, s) <==> Hashed(elems, x, s));
    }
  }

  method Unlabel(lc: LruCache, i: nat)
    requires lc.Valid() && Calm(lc.Abs()) && i < |lc.elems| && lc.elems[i].refcnt == 0
    modifies lc
    ensures lc.Valid() && lc.Abs() == Forget(old(lc.Abs()), i)
  {
    ForgetEffect(lc.Abs(), i);
    ForgetHash(lc.elems, lc.slots, i);
    lc.elems := lc.elems[i := Elem(FREE, FREE, 0)];
  }

  method Collapse(lc: LruCache, i: nat)
    requires lc.Valid() && Calm(lc.Abs()) && i < |lc.elems| && lc.elems[i].refcnt > 0
    modifies lc
    ensures lc.Valid() && lc.Abs() == old(lc.Abs().SetElem(i, lc.elems[i].(refcnt := 1))) && Calm(lc.Abs())
  {
    RefsEffect(lc.Abs(), i, 1);
    HashFrame(lc.elems, lc.elems[i := lc.elems[i].(refcnt := 1)], lc.slots);
    lc.elems := lc.elems[i := lc.elems[i].(refcnt := 1)];
  }

  method PutAndUnlabel(lc: LruCache, i: nat)
    requires lc.Valid() && Calm(lc.Abs()) && i < |lc.elems| && lc.elems[i].refcnt > 0
    modifies lc
    ensures lc.Valid()
    ensures var d := old(lc.Abs()).Put(i); lc.Abs() == if d.elems[i].refcnt == 0 then Forget(d, i) else d
  {
    PutEffect(lc.Abs(), i);
    AllCommitted(lc.Abs(), i);
    var refs := lc.Put(i);
    if refs == 0 {
      Unlabel(lc, i);
    }
  }

  /** One round of drbd_noblock_compleate_io. */
  method FinishOne(lc: LruCache, enr: nat, clean: bool) returns (ok: bool)
    requires lc.Valid() && Calm(lc.Abs())
    modifies lc
    ensures lc.Valid() && lc.Abs() == Finish(old(lc.Abs()), enr, clean).0 && ok == Finish(old(lc.Abs()), enr, clean).1
  {
    var e := lc.FindIn(enr, false);
    ok := e.Some?;
    if e.Some? && lc.elems[e.value].refcnt > 0 {
      if clean {
        Collapse(lc, e.value);
      }
      PutAndUnlabel(lc, e.value);
    }
  }

  method EndStep(lc: LruCache, enr: nat, clean: bool, ghost n: nat, ghost l: Log) returns (ok: bool, ghost l': Log)
    requires Models(lc, n, l) && enr != FREE
    modifies lc
    ensures Models(lc, n, l') && (l', ok) == EndOne(l, enr, clean)
  {
    EndRefines(lc.Abs(), l, enr, clean);
    ok := FinishOne(lc, enr, clean);
    l' := EndOne(l, enr, clean).0;
  }

  /** drbd_noblock_compleate_io */
  method EndIo(lc: LruCache, first: nat, end: nat, clean: bool, ghost n: nat, ghost l: Log) returns (ok: bool)
    requires Models(lc, n, l) && first <= end <= FREE
    modifies lc
    ensures Models(lc, n, EndAll(l, first, end, clean).0) && ok == EndAll(l, first, end, clean).1
  {
    ghost var now, goal := l, EndAll(l, first, end, clean);
    ok := true;
    var enr := first;
    while enr < end
      invariant enr <= end && Models(lc, n, now)
      invariant goal == (EndAll(now, enr, end, clean).0, ok && EndAll(now, enr, end, clean).1)
    {
      var got;
      EndNext(now, enr, end, clean, ok);
      got, now := EndStep(lc, enr, clean, n, now);
      ok := ok && got;
      enr := enr + 1;
    }
  }
}
