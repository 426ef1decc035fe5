/** Every sequence of LRU operations. */
module LruRuns {
  import opened Lists
  import opened Lru

  datatype Op =
    | Get(enr: nat, mayChange: bool, mayUse: bool)
    | Put(i: nat)
    | Committed
    | Del(i: nat)
    | TryLock
    | Unlock
    | Reset

  /** The BUG_ONs of lc_put and lc_del, and the one label that must not be asked for. */
  predicate Enabled(c: Cache, op: Op) {
    match op
    case Get(enr, _, _) => enr != FREE
    case Put(i) => i < |c.elems| && c.elems[i].Committed() && c.elems[i].refcnt > 0
    case Del(i) => i < |c.elems| && c.elems[i].refcnt == 0
    case _ => true
  }

  function Apply(c: Cache, op: Op): Cache
    requires c.Valid() && Enabled(c, op)
  {
    match op
    case Get(enr, mayChange, mayUse) => c.Get(enr, mayChange, mayUse).0
    case Put(i) => c.Put(i)
    case Committed => c.Commit()
    case Del(i) => c.Del(i)
    case TryLock => c.(locked := true)
    case Unlock => c.(dirty := false, locked := false)
    case Reset => Fresh(|c.elems|, c.maxPending)
  }

  lemma {:induction false} ApplyValid(c: Cache, op: Op)
    requires c.Valid() && c.NoStale() && Enabled(c, op)
    ensures Apply(c, op).Valid() && Apply(c, op).NoStale()
  {
    match op
    case Get(enr, mayChange, mayUse) => GetValid(c, enr, mayChange, mayUse);
    case Put(i) => PutValid(c, i);
    case Committed => CommitValid(c);
    case Del(i) => DelValid(c, i);
    case TryLock => FlagsValid(c, c.dirty, true, c.starving);
    case Unlock => FlagsValid(c, false, false, c.starving);
    case Reset => FreshValid(|c.elems|, c.maxPending);
  }

  predicate Happens(caches: seq<Cache>, ops: seq<Op>, k: nat)
    requires k < |ops| && |caches| == |ops| + 1
  {
    caches[k].Valid() && Enabled(caches[k], ops[k]) && caches[k + 1] == Apply(caches[k], ops[k])
  }

  predicate Run(caches: seq<Cache>, ops: seq<Op>) {
    && |caches| == |ops| + 1
    && forall k :: 0 <= k < |ops| ==> Happens(caches, ops, k)
  }

  /** Every sequence of operations on a new cache keeps its lists, labels and limits in order. */
  lemma {:induction false} RunValid(n: nat, maxPending: nat, caches: seq<Cache>, ops: seq<Op>, k: nat)
    requires n > 0 && Run(caches, ops) && caches[0] == Fresh(n, maxPending) && k <= |ops|
    ensures caches[k].Valid() && caches[k].NoStale()
  {
    if k == 0 {
      FreshValid(n, maxPending);
    } else {
      RunValid(n, maxPending, caches, ops, k - 1);
      assert Happens(caches, ops, k - 1);
      ApplyValid(caches[k - 1], ops[k - 1]);
    }
  }

  lemma {:induction false} NoDupCard(s: seq<nat>, a: set<nat>)
    requires NoDup(s) && forall x :: x in a <==> x in s
    ensures |a| == |s|
  {
    if s == [] {
      assert a == {};
    } else {
      var n := |s| - 1;
      var t := s[..n];
      assert s == t + [s[n]];
      assert forall i :: 0 <= i < n ==> t[i] == s[i];
      NoDupCard(t, a - {s[n]});
    }
  }

  /** lc->used counts the referenced elements, lc->pending_changes the uncommitted ones. */
  lemma {:induction false} CountersExact(c: Cache)
    requires c.Valid()
    ensures c.Used() == |set i: nat | i < |c.elems| && c.elems[i].refcnt > 0|
    ensures c.Pending() == |set i: nat | i < |c.elems| && !c.elems[i].Committed()| <= c.maxPending
  {
    var a := set i: nat | i < |c.elems| && i in c.inUse;
    var b := set i: nat | i < |c.elems| && i in c.changing;
    NoDupCard(c.inUse, a);
    NoDupCard(c.changing, b);
    forall i: nat | i < |c.elems|
      ensures (c.elems[i].refcnt > 0 <==> i in a + b) && (!c.elems[i].Committed() <==> i in b) && !(i in a && i in b)
    {
      assert c.Placed(i);
    }
    assert (set i: nat | i < |c.elems| && c.elems[i].refcnt > 0) == a + b;
    assert (set i: nat | i < |c.elems| && !c.elems[i].Committed()) == b;
    assert a * b == {};
  }
}
