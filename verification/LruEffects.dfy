/** What the operations do to a cache whose changes are committed at once. */
module LruEffects {
  import opened Wrappers
  import opened Lru

  /** lc_get with the immediate commit of a new label, as the resync and noblock caches use it. */
  function Grab(rs: Cache, enr: nat): (r: (Cache, Option<nat>))
    requires rs.Valid()
    ensures |r.0.elems| == |rs.elems|
    ensures r.1.Some? ==>
      r.1.value < |rs.elems| && r.0.elems[r.1.value].newNumber == enr && r.0.elems[r.1.value].refcnt > 0
  {
    var (c, e) := rs.Get(enr, true, false);
    if e.Some? && c.elems[e.value].number != enr then (c.Commit(), e) else (c, e)
  }

  /** Between operations of a cache whose changes are committed at once. */
  predicate Calm(c: Cache) {
    c.Valid() && c.changing == [] && c.maxPending > 0 && !c.locked
  }

  /** Both caches agree but for element i. */
  predicate Differs(c: Cache, d: Cache, i: nat, e: Elem) {
    Calm(d) && i < |c.elems| && d.elems == c.elems[i := e]
  }

  lemma {:induction false} AllCommitted(c: Cache, i: nat)
    requires c.Valid() && c.changing == [] && i < |c.elems|
    ensures c.elems[i].Committed()
  {
    assert c.Placed(i);
  }

  lemma {:induction false} HitEffect(c: Cache, i: nat)
    requires Calm(c) && !c.starving && i < |c.elems| && c.elems[i].newNumber != FREE
    ensures Differs(c, c.Touch(i), i, c.elems[i].(refcnt := c.elems[i].refcnt + 1))
    ensures c.Touch(i).Used() == c.Used() + if c.elems[i].refcnt == 0 then 1 else 0
  {
    AllCommitted(c, i);
    TouchValid(c, i);
    TouchUsed(c, i);
    assert c.Placed(i);
  }

  /** The cache after a recycled element was committed at once. */
  function Recycled(c: Cache, enr: nat): Cache
    requires c.Valid() && (c.free != [] || c.lru != [])
  {
    c.Prepare(c.Victim(), enr).(dirty := true, starving := false).Commit()
  }

  lemma {:induction false} RecycledElems(c: Cache, enr: nat)
    requires c.Valid() && c.changing == [] && (c.free != [] || c.lru != [])
    ensures Recycled(c, enr).elems == c.elems[c.Victim() := Elem(enr, enr, 1)]
  {
    var d := Recycled(c, enr);
    forall j | 0 <= j < |c.elems| ensures d.elems[j] == c.elems[c.Victim() := Elem(enr, enr, 1)][j] {
      AllCommitted(c, j);
    }
  }

  lemma {:induction false} RecycledValid(c: Cache, enr: nat)
    requires Calm(c) && enr != FREE && Scan(c.elems, enr).None? && (c.free != [] || c.lru != [])
    ensures Calm(Recycled(c, enr)) && Recycled(c, enr).Used() == c.Used() + 1
  {
    PrepareValid(c, enr);
    PrepareUsed(c, enr);
    var p := c.Prepare(c.Victim(), enr);
    FlagsValid(p, true, p.locked, false);
    CommitValid(p.(dirty := true, starving := false));
  }

  lemma {:induction false} MissEffect(c: Cache, enr: nat)
    requires Calm(c) && enr != FREE && Scan(c.elems, enr).None? && c.Used() < |c.elems|
    ensures c.free != [] || c.lru != []
    ensures c.elems[c.Victim()].refcnt == 0
    ensures Grab(c, enr) == (Recycled(c, enr), Some(c.Victim()))
  {}

  /** The result of Grab on a cache with room. */
  lemma {:induction false} GrabEffect(c: Cache, enr: nat)
    requires Calm(c) && enr != FREE && c.Used() < |c.elems|
    ensures var (d, r) := Grab(c, enr);
            && r.Some?
            && d.Used() == c.Used() + (if c.elems[r.value].refcnt == 0 then 1 else 0)
            && (match Scan(c.elems, enr)
                case Some(i) => r.value == i && Differs(c, d, i, c.elems[i].(refcnt := c.elems[i].refcnt + 1))
                case None => c.elems[r.value].refcnt == 0 && Differs(c, d, r.value, Elem(enr, enr, 1)))
  {
    match Scan(c.elems, enr)
    case Some(i) =>
      AllCommitted(c, i);
      HitEffect(c, i);
    case None =>
      MissEffect(c, enr);
      RecycledElems(c, enr);
      RecycledValid(c, enr);
  }

  lemma {:induction false} PutEffect(c: Cache, i: nat)
    requires Calm(c) && i < |c.elems| && c.elems[i].refcnt > 0
    ensures Differs(c, c.Put(i), i, c.elems[i].(refcnt := c.elems[i].refcnt - 1))
    ensures c.Put(i).Used() == c.Used() - if c.elems[i].refcnt == 1 then 1 else 0
  {
    AllCommitted(c, i);
    PutValid(c, i);
    PutUsed(c, i);
    assert c.Placed(i);
  }

  /** Taking the extra reference back by hand, as drbd_try_rs_begin_io does on a retry. */
  lemma {:induction false} UndoEffect(c: Cache, i: nat)
    requires Calm(c) && !c.starving && i < |c.elems| && c.elems[i].refcnt > 0
    ensures Differs(c, c.Touch(i).SetElem(i, c.elems[i]), i, c.elems[i])
    ensures c.Touch(i).SetElem(i, c.elems[i]).Used() == c.Used()
  {
    assert c.Placed(i);
    HitEffect(c, i);
    var t := c.Touch(i);
    var d := t.SetElem(i, c.elems[i]);
    assert d.elems == c.elems;
    LabelsFrame(c, d);
    forall j | 0 <= j < |d.elems| ensures d.Placed(j) { assert t.Placed(j); }
  }

  /** drbd_noblock_compleate_io unlabels an element that it has just released. */
  function Forget(c: Cache, i: nat): Cache
    requires i < |c.elems|
  {
    c.SetElem(i, Elem(FREE, FREE, 0))
  }

  lemma {:induction false} ForgetEffect(c: Cache, i: nat)
    requires Calm(c) && i < |c.elems| && c.elems[i].refcnt == 0
    ensures Differs(c, Forget(c, i), i, Elem(FREE, FREE, 0)) && Forget(c, i).Used() == c.Used()
  {
    var d := Forget(c, i);
    assert c.Placed(i);
    forall j, k | 0 <= j < k < |d.elems| ensures d.NoClash(j, k) { assert c.NoClash(j, k); }
    forall j | 0 <= j < |d.elems| ensures d.Placed(j) { assert c.Placed(j); }
  }

  /** A label that a hit finds. */
  lemma {:induction false} GrabHit(c: Cache, enr: nat, i: nat)
    requires Calm(c) && enr != FREE && !c.starving && Scan(c.elems, enr) == Some(i)
    ensures Grab(c, enr) == (c.Touch(i), Some(i))
  {
    AllCommitted(c, i);
  }

  /** No element is left to recycle. */
  lemma {:induction false} GrabFull(c: Cache, enr: nat)
    requires Calm(c) && Scan(c.elems, enr).None? && !c.starving && c.Used() == |c.elems|
    ensures Grab(c, enr) == (c.(dirty := true, starving := true), None) && Calm(Grab(c, enr).0)
  {
    FlagsValid(c, true, c.locked, true);
  }
}
