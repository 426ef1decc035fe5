/** lru_cache.c as it is built: an object whose collision hash finds labels, whose counters
    replace list lengths, and whose operations update everything in place.  Each method is
    proved against the linear-scan cache of module Lru. */
module LruObject {
  import opened Wrappers
  import opened Lists
  import opened Lru

  predicate Hashed(elems: seq<Elem>, i: nat, s: nat)
    requires i < |elems|
  {
    elems[i].newNumber != FREE && elems[i].newNumber % |elems| == s
  }

  /** The chains hold every labelled element, in the slot of its new label.  Besides those they
      may only hold released elements that lost their label; each element is hashed at most once. */
  predicate HashOk(elems: seq<Elem>, slots: seq<seq<nat>>) {
    && |slots| == |elems|
    && (forall s, x :: 0 <= s < |slots| && x in slots[s] ==> x < |elems|)
    && (forall s :: 0 <= s < |slots| ==> NoDup(slots[s]))
    && (forall s, t, x :: 0 <= s < |slots| && 0 <= t < |slots| && x in slots[s] && x in slots[t] ==> s == t)
    && (forall i, s :: 0 <= i < |elems| && 0 <= s < |slots| && Hashed(elems, i, s) ==> i in slots[s])
    && (forall i, s :: 0 <= i < |elems| && 0 <= s < |slots| && i in slots[s] ==>
      elems[i].newNumber == FREE || Hashed(elems, i, s))
  }

  /** ... and in ordinary use they hold no others. */
  predicate NoStaleHash(elems: seq<Elem>, slots: seq<seq<nat>>) {
    && |slots| == |elems|
    && forall i, s :: 0 <= i < |elems| && 0 <= s < |slots| && i in slots[s] ==> elems[i].newNumber != FREE
  }

  /** __hlist_del: takes x off the chain it is on, if any. */
  function Unhash(slots: seq<seq<nat>>, x: nat): (r: seq<seq<nat>>)
    ensures |r| == |slots|
    ensures forall s :: 0 <= s < |r| ==> r[s] == Remove(slots[s], x)
  {
    seq(|slots|, s requires 0 <= s < |slots| => Remove(slots[s], x))
  }

  function Rehash(slots: seq<seq<nat>>, x: nat, enr: nat): (r: seq<seq<nat>>)
    requires slots != []
    ensures |r| == |slots|
  {
    var u := Unhash(slots, x);
    var s := enr % |slots|;
    u[s := [x] + u[s]]
  }

  /** Relabelling one element and moving it to the chain of its new label keeps the chains right. */
  lemma {:induction false} RehashOk(elems: seq<Elem>, slots: seq<seq<nat>>, i: nat, e: Elem)
    requires HashOk(elems, slots) && i < |elems| && e.newNumber != FREE
    ensures HashOk(elems[i := e], Rehash(slots, i, e.newNumber))
    ensures NoStaleHash(elems, slots) ==> NoStaleHash(elems[i := e], Rehash(slots, i, e.newNumber))
  {
    var es, ss := elems[i := e], Rehash(slots, i, e.newNumber);
    var h := e.newNumber % |slots|;
    assert forall s :: 0 <= s < |ss| ==> ss[s] == if s == h then [i] + Remove(slots[s], i) else Remove(slots[s], i);
    assert forall x, s :: 0 <= s < |ss| && x != i ==> (x in ss[s] <==> x in slots[s]);
    assert forall s :: 0 <= s < |ss| ==> (i in ss[s] <==> s == h);
    forall x, s | 0 <= x < |es| && 0 <= s < |ss| ensures Hashed(es, x, s) ==> x in ss[s]
      ensures x in ss[s] ==> es[x].newNumber == FREE || Hashed(es, x, s)
    {
      assert x != i ==> (Hashed(es, x, s) <==> Hashed(elems, x, s));
    }
  }

  lemma {:induction false} UnhashOk(elems: seq<Elem>, slots: seq<seq<nat>>, i: nat, e: Elem)
    requires HashOk(elems, slots) && i < |elems| && e.newNumber == FREE
    ensures HashOk(elems[i := e], Unhash(slots, i))
    ensures NoStaleHash(elems, slots) ==> NoStaleHash(elems[i := e], Unhash(slots, i))
  {
    var es, ss := elems[i := e], Unhash(slots, i);
    assert forall x, s :: 0 <= s < |ss| && x != i ==> (x in ss[s] <==> x in slots[s]);
    assert forall s :: 0 <= s < |ss| ==> i !in ss[s];
    forall x, s | 0 <= x < |es| && 0 <= s < |ss| ensures Hashed(es, x, s) ==> x in ss[s]
      ensures x in ss[s] ==> es[x].newNumber == FREE || Hashed(es, x, s)
    {
      assert x != i ==> (Hashed(es, x, s) <==> Hashed(elems, x, s));
    }
  }

  /** Chains depend on the new labels alone. */
  lemma {:induction false} HashFrame(elems: seq<Elem>, elems': seq<Elem>, slots: seq<seq<nat>>)
    requires HashOk(elems, slots) && |elems'| == |elems|
    requires forall i :: 0 <= i < |elems| ==> elems'[i].newNumber == elems[i].newNumber
    ensures HashOk(elems', slots) && (NoStaleHash(elems, slots) ==> NoStaleHash(elems', slots))
  {
    forall x, s | 0 <= x < |elems| && 0 <= s < |slots| ensures Hashed(elems', x, s) == Hashed(elems, x, s) {}
  }

  /** The whole representation invariant, on values. */
  predicate Good(c: Cache, slots: seq<seq<nat>>, used: nat, pending: nat) {
    c.Valid() && HashOk(c.elems, slots) && used == c.Used() && pending == c.Pending()
  }

  /** Neither the lru list nor the chains hold an unlabelled element. */
  predicate Tidy(c: Cache, slots: seq<seq<nat>>) {
    c.NoStale() && NoStaleHash(c.elems, slots)
  }

  lemma {:induction false} HitGood(c: Cache, slots: seq<seq<nat>>, i: nat)
    requires c.Valid() && HashOk(c.elems, slots) && i < |c.elems| && c.elems[i].newNumber != FREE && !c.starving
    requires c.elems[i].Committed() || c.elems[i].refcnt > 0
    ensures var d := if c.elems[i].Committed() then c.Touch(i) else c.AddRef(i);
            && Good(d, slots, c.Used() + (if c.elems[i].refcnt == 0 then 1 else 0), c.Pending())
            && (Tidy(c, slots) ==> Tidy(d, slots))
  {
    assert c.Placed(i);
    HashFrame(c.elems, c.AddRef(i).elems, slots);
    if c.elems[i].Committed() {
      TouchValid(c, i);
      TouchUsed(c, i);
    } else {
      AddRefValid(c, i);
    }
  }

  lemma {:induction false} MissGood(c: Cache, slots: seq<seq<nat>>, enr: nat)
    requires c.Valid() && HashOk(c.elems, slots) && enr != FREE && Scan(c.elems, enr).None?
    requires (c.free != [] || c.lru != []) && |c.changing| < c.maxPending
    ensures var d := c.Prepare(c.Victim(), enr).(dirty := true, starving := false);
            && Good(d, Rehash(slots, c.Victim(), enr), c.Used() + 1, c.Pending() + 1)
            && (Tidy(c, slots) ==> Tidy(d, Rehash(slots, c.Victim(), enr)))
  {
    var i := c.Victim();
    PrepareValid(c, enr);
    PrepareUsed(c, enr);
    var d := c.Prepare(i, enr);
    FlagsValid(d, true, d.locked, false);
    RehashOk(c.elems, slots, i, d.elems[i]);
  }

  lemma {:induction false} DelGood(c: Cache, slots: seq<seq<nat>>, i: nat)
    requires c.Valid() && HashOk(c.elems, slots) && i < |c.elems| && c.elems[i].refcnt == 0
    ensures Good(c.Del(i), Unhash(slots, i), c.Used(), c.Pending())
    ensures Tidy(c, slots) ==> Tidy(c.Del(i), Unhash(slots, i))
  {
    DelValid(c, i);
    assert c.Placed(i);
    UnhashOk(c.elems, slots, i, Elem(FREE, FREE, 0));
  }

  /** The cache after the first k rounds of the loop in lc_committed. */
  ghost function CommitPrefix(c: Cache, k: nat): (d: Cache)
    requires k <= |c.changing|
    ensures |d.elems| == |c.elems|
  {
    c.(elems := seq(|c.elems|, i requires 0 <= i < |c.elems| =>
                      if i in c.changing[..k] then c.elems[i].(number := c.elems[i].newNumber) else c.elems[i]),
       changing := c.changing[k..], inUse := Reverse(c.changing[..k]) + c.inUse)
  }

  lemma {:induction false} CommitPrefixZero(c: Cache)
    ensures CommitPrefix(c, 0) == c
  {}

  lemma {:induction false} CommitPrefixElems(c: Cache, k: nat)
    requires k < |c.changing| && c.changing[k] < |c.elems|
    ensures var d, e := CommitPrefix(c, k), c.changing[k];
            NoDup(c.changing) ==>
              CommitPrefix(c, k + 1).elems == d.elems[e := d.elems[e].(number := d.elems[e].newNumber)]
  {}

  lemma {:induction false} CommitPrefixLists(c: Cache, k: nat)
    requires k < |c.changing|
    ensures Remove(c.changing[k..], c.changing[k]) == c.changing[k + 1..]
    ensures Reverse(c.changing[..k + 1]) == [c.changing[k]] + Reverse(c.changing[..k])
  {
    var e := c.changing[k];
    assert c.changing[k..] == [e] + c.changing[k + 1..];
    assert c.changing[..k + 1] == c.changing[..k] + [e];
    ReverseSnoc(c.changing[..k], e);
  }

  lemma {:induction false} CommitPrefixStep(c: Cache, k: nat)
    requires NoDup(c.changing) && k < |c.changing| && c.changing[k] < |c.elems|
    ensures var d, e := CommitPrefix(c, k), c.changing[k];
            CommitPrefix(c, k + 1) == d.(elems := d.elems[e := d.elems[e].(number := d.elems[e].newNumber)],
                                         changing := Remove(d.changing, e), inUse := [e] + d.inUse)
  {
    var d, e, next := CommitPrefix(c, k), c.changing[k], CommitPrefix(c, k + 1);
    CommitPrefixElems(c, k);
    CommitPrefixLists(c, k);
    assert next.changing == Remove(d.changing, e);
    assert next.inUse == [e] + d.inUse;
  }

  lemma {:induction false} CommitPrefixAll(c: Cache)
    requires c.Valid()
    ensures CommitPrefix(c, |c.changing|) == c.Commit()
  {
    assert c.changing[..|c.changing|] == c.changing;
    var d := CommitPrefix(c, |c.changing|);
    forall i | 0 <= i < |c.elems| ensures d.elems[i] == c.Commit().elems[i] {
      assert c.Placed(i);
    }
  }

  function NoChains(n: nat): seq<seq<nat>> { seq(n, _ => []) }

  lemma {:induction false} FreshGood(n: nat, maxPending: nat)
    requires n > 0
    ensures Good(Fresh(n, maxPending), NoChains(n), 0, 0) && Tidy(Fresh(n, maxPending), NoChains(n))
  {
    FreshValid(n, maxPending);
  }

  /** The loop of lc_reset. */
  method Blank(elems: seq<Elem>) returns (es: seq<Elem>, list: seq<nat>)
    ensures es == Fresh(|elems|, 0).elems && list == Fresh(|elems|, 0).free
  {
    es, list := elems, [];
    for i := 0 to |elems|
      invariant |es| == |elems| && list == Countdown(i)
      invariant forall j :: 0 <= j < i ==> es[j] == Elem(FREE, FREE, 0)
    {
      es := es[i := Elem(FREE, FREE, 0)];
      list := [i] + list;
    }
  }

  class LruCache {
    const maxPending: nat
    var elems: seq<Elem>
    var free: seq<nat>
    var lru: seq<nat>
    var inUse: seq<nat>
    var changing: seq<nat>
    /** lc_slot: one collision chain per hash value */
    var slots: seq<seq<nat>>
    var used: nat
    var pending: nat
    var dirty: bool
    var locked: bool
    var starving: bool

    ghost function Abs(): Cache
      reads this
    {
      Cache(elems, free, lru, inUse, changing, maxPending, dirty, locked, starving)
    }

    ghost predicate Valid()
      reads this
    {
      Good(Abs(), slots, used, pending)
    }

    constructor (n: nat, maxPending: nat)
      requires n > 0
      ensures Valid() && Tidy(Abs(), slots) && Abs() == Fresh(n, maxPending)
    {
      this.maxPending := maxPending;
      elems := seq(n, _ => Elem(FREE, FREE, 0));
      free := Countdown(n);
      lru, inUse, changing := [], [], [];
      slots := NoChains(n);
      used, pending := 0, 0;
      dirty, locked, starving := false, false, false;
      new;
      FreshGood(n, maxPending);
    }

    /** __lc_find: walks one collision chain and agrees with the linear scan. */
    method FindIn(enr: nat, includeChanging: bool) returns (r: Option<nat>)
      requires Valid()
      ensures r == Abs().Find(enr, includeChanging)
    {
      if enr == FREE {
        return None;
      }
      var s := enr % |elems|;
      var chain := slots[s];
      var k := 0;
      while k < |chain|
        invariant 0 <= k <= |chain|
        invariant forall j :: 0 <= j < k ==> chain[j] in slots[s] && elems[chain[j]].newNumber != enr
      {
        assert chain[k] in slots[s];
        var e := chain[k];
        if elems[e].newNumber == enr {
          ScanUnique(Abs(), e);
          return if elems[e].Committed() || includeChanging then Some(e) else None;
        }
        k := k + 1;
      }
      ghost var hit := Scan(elems, enr);
      assert hit.Some? ==> Hashed(elems, hit.value, s);
      r := None;
    }

    /** lc_is_used */
    method IsUsed(enr: nat) returns (r: bool)
      requires Valid()
      ensures r == Abs().IsUsed(enr)
    {
      var e := FindIn(enr, true);
      r := e.Some? && elems[e.value].refcnt > 0;
    }

    /** The part of lc_prepare_for_change that is about lists and labels. */
    method Requeue(i: nat, enr: nat)
      requires i < |elems| && (free != [] || lru != [])
      modifies this`elems, this`free, this`lru, this`changing, this`dirty, this`starving
      ensures Abs() == old(Abs()).Prepare(i, enr).(dirty := true, starving := false)
    {
      if free != [] {
        free := free[1..];
      } else {
        lru := lru[..|lru| - 1];
      }
      elems := elems[i := Elem(elems[i].number, enr, elems[i].refcnt + 1)];
      changing := [i] + changing;
      dirty, starving := true, false;
    }

    method PrepareForChange(i: nat, enr: nat)
      requires i < |elems| && slots != [] && (free != [] || lru != [])
      modifies this
      ensures Abs() == old(Abs()).Prepare(i, enr).(dirty := true, starving := false)
      ensures slots == old(Rehash(slots, i, enr))
      ensures used == old(used) + 1 && pending == old(pending) + 1
    {
      slots := Rehash(slots, i, enr);
      used := used + 1;
      pending := pending + 1;
      Requeue(i, enr);
    }

    /** The hit branches of __lc_get. */
    method TakeRef(i: nat)
      requires i < |elems|
      modifies this`elems, this`lru, this`inUse, this`used
      ensures Abs() == if old(elems[i].Committed()) then old(Abs()).Touch(i) else old(Abs()).AddRef(i)
      ensures slots == old(slots) && pending == old(pending)
      ensures used == old(used) + if old(elems[i].Committed() && elems[i].refcnt == 0) then 1 else 0
    {
      if elems[i].Committed() {
        if elems[i].refcnt == 0 {
          used := used + 1;
        }
        lru, inUse := Remove(lru, i), [i] + Remove(inUse, i);
      }
      elems := elems[i := elems[i].(refcnt := elems[i].refcnt + 1)];
    }

    /** The miss branches of __lc_get that lc_get may take. */
    method Admit(enr: nat) returns (r: Option<nat>)
      requires Valid() && enr != FREE && !starving && Scan(elems, enr).None?
      modifies this
      ensures Valid() && (old(Tidy(Abs(), slots)) ==> Tidy(Abs(), slots))
      ensures Abs() == old(Abs()).Get(enr, true, false).0 && r == old(Abs()).Get(enr, true, false).1
    {
      ghost var c := Abs();
      if locked || (free == [] && lru == []) || pending >= maxPending {
        FlagsValid(c, true, c.locked, !c.locked && c.free == [] && c.lru == []);
        dirty := true;
        if !locked && free == [] && lru == [] {
          starving := true;
        }
        return None;
      }
      MissGood(c, slots, enr);
      var i := if free != [] then free[0] else lru[|lru| - 1];
      assert i == c.Victim();
      PrepareForChange(i, enr);
      r := Some(i);
    }

    /** __lc_get, and through its two flags lc_get, lc_get_cumulative and lc_try_get. */
    method Get(enr: nat, mayChange: bool, mayUseUncommitted: bool) returns (r: Option<nat>)
      requires Valid() && enr != FREE
      modifies this
      ensures Valid() && (old(Tidy(Abs(), slots)) ==> Tidy(Abs(), slots))
      ensures Abs() == old(Abs()).Get(enr, mayChange, mayUseUncommitted).0
      ensures r == old(Abs()).Get(enr, mayChange, mayUseUncommitted).1
    {
      if starving {
        return None;
      }
      var found := FindIn(enr, true);
      if found.Some? {
        var i := found.value;
        if !elems[i].Committed() && !mayUseUncommitted {
          return None;
        }
        assert Abs().Placed(i);
        HitGood(Abs(), slots, i);
        TakeRef(i);
        return found;
      }
      if !mayChange {
        return None;
      }
      r := Admit(enr);
    }

    method DropRef(i: nat) returns (refs: nat)
      requires i < |elems| && elems[i].refcnt > 0 && used > 0
      modifies this`elems, this`lru, this`inUse, this`used, this`starving
      ensures Abs() == old(Abs()).Put(i) && refs == elems[i].refcnt
      ensures slots == old(slots) && pending == old(pending)
      ensures used == old(used) - if old(elems[i].refcnt) == 1 then 1 else 0
    {
      refs := elems[i].refcnt - 1;
      elems := elems[i := elems[i].(refcnt := refs)];
      if refs == 0 {
        inUse, lru := Remove(inUse, i), [i] + lru;
        used := used - 1;
        starving := false;
      }
    }

    /** lc_put: returns the new count. */
    method Put(i: nat) returns (refs: nat)
      requires Valid() && i < |elems| && elems[i].Committed() && elems[i].refcnt > 0
      modifies this
      ensures Valid() && (old(Tidy(Abs(), slots)) ==> Tidy(Abs(), slots))
      ensures Abs() == old(Abs()).Put(i) && refs == elems[i].refcnt
      ensures slots == old(slots)
    {
      PutValid(Abs(), i);
      PutUsed(Abs(), i);
      assert Abs().Placed(i) && |inUse| > 0;
      HashFrame(elems, Abs().Put(i).elems, slots);
      refs := DropRef(i);
    }

    /** lc_del */
    method Del(i: nat)
      requires Valid() && i < |elems| && elems[i].refcnt == 0
      modifies this
      ensures Valid() && (old(Tidy(Abs(), slots)) ==> Tidy(Abs(), slots))
      ensures Abs() == old(Abs()).Del(i)
    {
      DelGood(Abs(), slots, i);
      elems := elems[i := Elem(FREE, FREE, 0)];
      slots := Unhash(slots, i);
      free, lru := [i] + Remove(free, i), Remove(lru, i);
    }

    /** The loop of lc_committed. */
    /** One round of the loop in lc_committed. */
    method RelabelOne(e: nat, ghost c: Cache, ghost k: nat)
      requires NoDup(c.changing) && k < |c.changing| && c.changing[k] == e < |c.elems| && Abs() == CommitPrefix(c, k)
      modifies this`elems, this`changing, this`inUse
      ensures Abs() == CommitPrefix(c, k + 1)
    {
      CommitPrefixStep(c, k);
      elems := elems[e := elems[e].(number := elems[e].newNumber)];
      changing := Remove(changing, e);
      inUse := [e] + inUse;
    }

    method Relabel()
      requires NoDup(changing) && (forall x :: x in changing ==> x < |elems|)
      modifies this`elems, this`changing, this`inUse
      ensures Abs() == CommitPrefix(old(Abs()), old(|changing|))
      ensures slots == old(slots) && used == old(used) && pending == old(pending)
    {
      ghost var c := Abs();
      var list := changing;
      var k := 0;
      CommitPrefixZero(c);
      while k < |list|
        invariant 0 <= k <= |list| && list == c.changing
        invariant Abs() == CommitPrefix(c, k)
      {
        var e := list[k];
        assert e in c.changing;
        RelabelOne(e, c, k);
        k := k + 1;
      }
    }

    /** lc_committed: walks to_be_changed. */
    method Committed()
      requires Valid()
      modifies this
      ensures Valid() && (old(Tidy(Abs(), slots)) ==> Tidy(Abs(), slots))
      ensures Abs() == old(Abs()).Commit()
      ensures slots == old(slots)
    {
      CommitValid(Abs());
      HashFrame(elems, Abs().Commit().elems, slots);
      CommitPrefixAll(Abs());
      Relabel();
      pending := 0;
    }

    /** lc_reset: works from any state. */
    method Reset()
      requires elems != []
      modifies this
      ensures Valid() && Tidy(Abs(), slots) && Abs() == Fresh(old(|elems|), maxPending)
    {
      var n := |elems|;
      FreshGood(n, maxPending);
      elems, free := Blank(elems);
      slots := NoChains(n);
      lru, inUse, changing := [], [], [];
      used, pending := 0, 0;
      dirty, locked, starving := false, false, false;
    }

    /** lc_try_lock_for_transaction */
    method TryLockForTransaction() returns (ok: bool)
      requires Valid()
      modifies this
      ensures Valid() && (old(Tidy(Abs(), slots)) ==> Tidy(Abs(), slots))
      ensures Abs() == old(Abs()).(locked := true) && ok == !old(locked)
    {
      FlagsValid(Abs(), dirty, true, starving);
      ok := !locked;
      locked := true;
    }

    /** lc_unlock */
    method Unlock()
      requires Valid()
      modifies this
      ensures Valid() && (old(Tidy(Abs(), slots)) ==> Tidy(Abs(), slots))
      ensures Abs() == old(Abs()).(dirty := false, locked := false)
    {
      FlagsValid(Abs(), false, false, starving);
      dirty, locked := false, false;
    }
  }

  lemma {:induction false} ReverseSnoc(s: seq<nat>, x: nat)
    ensures Reverse(s + [x]) == [x] + Reverse(s)
  {
    if s == [] {
      assert s + [x] == [x];
    } else {
      assert (s + [x])[1..] == s[1..] + [x];
      ReverseSnoc(s[1..], x);
    }
  }
}
