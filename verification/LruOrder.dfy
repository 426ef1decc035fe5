/** The cache recycles the element that has been released for the longest time. */
module LruOrder {
  import opened Wrappers
  import opened Lists
  import opened Lru
  import opened LruRuns

  // ----- what a get does -----

  /** An element can be recycled for a new label. */
  predicate CanChange(c: Cache) { !c.locked && (c.free != [] || c.lru != []) && |c.changing| < c.maxPending }

  /** A get hands out an element exactly when the cache is not starving and the label is there, or
      on its way and that will do, or may be taken in; then it takes one reference on it and
      touches no other element, and otherwise it touches none. */
  lemma {:induction false} GetExact(c: Cache, enr: nat, mayChange: bool, mayUse: bool)
    requires c.Valid() && enr != FREE
    ensures var (d, r), hit := c.Get(enr, mayChange, mayUse), Scan(c.elems, enr);
      && (r.Some? <==>
            !c.starving && if hit.Some? then c.elems[hit.value].Committed() || mayUse else mayChange && CanChange(c))
      && (r.None? ==> d.elems == c.elems)
      && (d.starving <==> c.starving || (hit.None? && mayChange && !c.locked && c.free == [] && c.lru == []))
      && (d.dirty <==> c.dirty || (!c.starving && hit.None? && mayChange))
      && (r.Some? ==>
            && (hit.Some? ==> r == hit) && r.value < |c.elems|
            && d.elems == c.elems[r.value := Elem(c.elems[r.value].number, enr, c.elems[r.value].refcnt + 1)])
  {}

  // ----- order -----

  /** How long element i has been on the lru list, at state k of a run. */
  function Unused(caches: seq<Cache>, k: nat, i: nat): nat
    requires k < |caches|
  {
    if i !in caches[k].lru then 0 else if k == 0 then 1 else 1 + Unused(caches, k - 1, i)
  }

  /** The list has the longest unused element last. */
  ghost predicate Sorted(caches: seq<Cache>, k: nat)
    requires k < |caches|
  {
    forall x, y :: Before(caches[k].lru, x, y) ==> Unused(caches, k, x) < Unused(caches, k, y)
  }

  predicate Before(s: seq<nat>, x: nat, y: nat) {
    exists p, q :: 0 <= p < q < |s| && s[p] == x && s[q] == y
  }

  /** Nothing is added and the order stays. */
  ghost predicate Thinned(s: seq<nat>, t: seq<nat>) {
    && (forall x :: x in t ==> x in s)
    && (forall x, y :: Before(t, x, y) ==> Before(s, x, y))
  }

  lemma {:induction false} RemoveThins(s: seq<nat>, x: nat)
    ensures Thinned(s, Remove(s, x))
  {
    var t := Remove(s, x);
    if s != [] && s[0] == x {
      TailThins(s);
    } else if s != [] {
      RemoveThins(s[1..], x);
      var u := Remove(s[1..], x);
      assert t == [s[0]] + u;
      forall a, b | Before(t, a, b) ensures Before(s, a, b) {
        var p, q :| 0 <= p < q < |t| && t[p] == a && t[q] == b;
        if p > 0 {
          assert u[p - 1] == a && u[q - 1] == b && Before(u, a, b);
          var p', q' :| 0 <= p' < q' < |s[1..]| && s[1..][p'] == a && s[1..][q'] == b;
          assert s[p' + 1] == a && s[q' + 1] == b;
        } else {
          assert u[q - 1] == b && b in u;
          var q' :| 0 <= q' < |s[1..]| && s[1..][q'] == b;
          assert s[0] == a && s[q' + 1] == b;
        }
      }
    }
  }

  lemma {:induction false} TailThins(s: seq<nat>)
    requires s != []
    ensures Thinned(s, s[1..]) && Thinned(s, s[..|s| - 1])
  {
    forall a, b | Before(s[1..], a, b) ensures Before(s, a, b) {
      var p, q :| 0 <= p < q < |s[1..]| && s[1..][p] == a && s[1..][q] == b;
      assert s[p + 1] == a && s[q + 1] == b;
    }
    forall a, b | Before(s[..|s| - 1], a, b) ensures Before(s, a, b) {
      var p, q :| 0 <= p < q < |s| - 1 && s[..|s| - 1][p] == a && s[..|s| - 1][q] == b;
      assert s[p] == a && s[q] == b;
    }
  }

  /** Every operation takes elements off the list, or puts one in front of it. */
  lemma {:induction false} ListStep(c: Cache, op: Op)
    requires c.Valid() && Enabled(c, op)
    ensures var d := Apply(c, op);
      Thinned(c.lru, d.lru) || (op.Put? && op.i !in c.lru && d.lru == [op.i] + c.lru)
  {
    match op
    case Get(enr, mayChange, mayUse) =>
      var hit := Scan(c.elems, enr);
      if hit.Some? { RemoveThins(c.lru, hit.value); }
      if c.lru != [] { TailThins(c.lru); }
    case Put(i) => assert c.Placed(i);
    case Del(i) => RemoveThins(c.lru, i);
    case _ =>
  }

  lemma {:induction false} UnusedGrows(caches: seq<Cache>, k: nat, x: nat)
    requires k + 1 < |caches| && x in caches[k + 1].lru
    ensures Unused(caches, k + 1, x) == 1 + Unused(caches, k, x)
    ensures x in caches[k].lru ==> Unused(caches, k, x) > 0
  {}

  lemma {:induction false} SortedThinned(caches: seq<Cache>, k: nat, t: seq<nat>)
    requires k + 1 < |caches| && Sorted(caches, k) && t == caches[k + 1].lru && Thinned(caches[k].lru, t)
    ensures Sorted(caches, k + 1)
  {
    forall x, y | Before(t, x, y) ensures Unused(caches, k + 1, x) < Unused(caches, k + 1, y) {
      UnusedGrows(caches, k, x);
      UnusedGrows(caches, k, y);
      assert Before(caches[k].lru, x, y);
    }
  }

  lemma {:induction false} SortedPut(caches: seq<Cache>, k: nat, t: seq<nat>, i: nat)
    requires k + 1 < |caches| && Sorted(caches, k) && t == caches[k + 1].lru
    requires i !in caches[k].lru && t == [i] + caches[k].lru
    ensures Sorted(caches, k + 1)
  {
    var s := caches[k].lru;
    forall x, y | Before(t, x, y) ensures Unused(caches, k + 1, x) < Unused(caches, k + 1, y) {
      UnusedGrows(caches, k, x);
      UnusedGrows(caches, k, y);
      var p, q :| 0 <= p < q < |t| && t[p] == x && t[q] == y;
      assert y == s[q - 1];
      if p > 0 { assert x == s[p - 1] && Before(s, x, y); }
    }
  }

  lemma {:induction false} ListAt(caches: seq<Cache>, ops: seq<Op>, k: nat)
    requires Run(caches, ops) && k < |ops| && caches[k].Valid()
    ensures var s, t := caches[k].lru, caches[k + 1].lru;
      Thinned(s, t) || (ops[k].Put? && ops[k].i !in s && t == [ops[k].i] + s)
  {
    assert Happens(caches, ops, k);
    ListStep(caches[k], ops[k]);
  }

  lemma {:induction false} SortedStep(n: nat, maxPending: nat, caches: seq<Cache>, ops: seq<Op>, k: nat)
    requires n > 0 && Run(caches, ops) && caches[0] == Fresh(n, maxPending) && k < |ops| && Sorted(caches, k)
    ensures Sorted(caches, k + 1)
  {
    RunValid(n, maxPending, caches, ops, k);
    ListAt(caches, ops, k);
    var t := caches[k + 1].lru;
    if Thinned(caches[k].lru, t) { SortedThinned(caches, k, t); } else { SortedPut(caches, k, t, ops[k].i); }
  }

  lemma {:induction false} RunSorted(n: nat, maxPending: nat, caches: seq<Cache>, ops: seq<Op>, k: nat)
    requires n > 0 && Run(caches, ops) && caches[0] == Fresh(n, maxPending) && k <= |ops|
    ensures Sorted(caches, k)
  {
    if k > 0 {
      RunSorted(n, maxPending, caches, ops, k - 1);
      SortedStep(n, maxPending, caches, ops, k - 1);
    }
  }

  /** In every run: a get that recycles a labelled element takes the one that has been unused for
      longer than any other, and it does so only when no element is free. */
  lemma {:induction false} LongestUnused(n: nat, maxPending: nat, caches: seq<Cache>, ops: seq<Op>, k: nat, v: nat)
    requires n > 0 && Run(caches, ops) && caches[0] == Fresh(n, maxPending) && k < |ops| && ops[k].Get?
    requires var c, d := caches[k], caches[k + 1];
      v < |c.elems| && |d.elems| == |c.elems| && d.elems[v].newNumber != c.elems[v].newNumber
    ensures var c := caches[k];
      if v in c.lru then
        c.free == [] && forall j :: j in c.lru && j != v ==> Unused(caches, k, j) < Unused(caches, k, v)
      else v in c.free
  {
    var c := caches[k];
    RunValid(n, maxPending, caches, ops, k);
    RunSorted(n, maxPending, caches, ops, k);
    assert Happens(caches, ops, k);
    assert v == c.Victim();
    if v in c.lru {
      forall j | j in c.lru && j != v ensures Before(c.lru, j, v) {
        var p :| 0 <= p < |c.lru| && c.lru[p] == j;
        assert c.lru[|c.lru| - 1] == v;
      }
    }
  }
}
