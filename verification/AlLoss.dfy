/** What is lost when the log is not replayable: runs of the machine that get there, and with them
    the exact condition for crash safety. */
module AlLoss {
  import opened Lru
  import opened AlRing
  import opened AlReplay
  import opened AlWrap
  import opened ActivityLog

  // ----- reachable states -----

  ghost predicate Reached(conf: Conf, s: State)
    requires conf.Valid()
  {
    exists steps, states :: Run(conf, steps, states) && states[|steps|] == s
  }

  lemma {:induction false} Starts(conf: Conf)
    requires conf.Valid()
    ensures Reached(conf, Init(conf))
  {
    assert Run(conf, [], [Init(conf)]);
  }

  lemma {:induction false} Then(conf: Conf, s: State, step: Step, s': State)
    requires conf.Valid() && Reached(conf, s) && Next(conf, s, step, s')
    ensures Reached(conf, s')
  {
    var steps, states :| Run(conf, steps, states) && states[|steps|] == s;
    Extend(conf, steps, states, step, s');
    var steps', states' := steps + [step], states + [s'];
    assert Run(conf, steps', states') && states'[|steps'|] == s';
  }

  lemma {:induction false} ReachedInv(conf: Conf, s: State)
    requires conf.Valid() && Reached(conf, s)
    ensures Inv(conf, s)
  {
    var steps, states :| Run(conf, steps, states) && states[|steps|] == s;
    RunKeepsInv(conf, steps, states, |steps|);
  }

  // ----- one transaction with one change -----

  /** Nothing goes on, and no bit is set. */
  predicate Quiet(s: State) {
    && s.phase.Idle? && !s.c.locked && !s.c.starving && s.c.changing == []
    && s.memory == {} && s.onDisk == {}
  }

  predicate Unused(c: Cache, enr: nat) {
    enr != FREE && forall i :: 0 <= i < |c.elems| ==> c.elems[i].newNumber != enr
  }

  lemma {:induction false} Assembled(conf: Conf, s: State, enr: nat) returns (t: State, v: nat)
    requires conf.Valid() && Reached(conf, s) && Inv(conf, s) && Quiet(s) && Unused(s.c, enr)
      && (s.c.free != [] || s.c.lru != [])
    ensures Reached(conf, t) && v == s.c.Victim() && t.c == s.c.Prepare(v, enr).(dirty := true, locked := true)
    ensures t.phase.Built? && t.phase.buf.updates == [(v, enr)] && t.hist == s.hist && t.memory == {} == t.onDisk
    ensures t.phase.pages == EvictedPages(t.c)
  {
    v := s.c.Victim();
    assert Scan(s.c.elems, enr).None?;
    GetValid(s.c, enr, true, false);
    var s1 := s.(c := s.c.Get(enr, true, false).0);
    Then(conf, s, Get(enr, true, false), s1);
    ReachedInv(conf, s1);
    var s2 := s1.(c := s1.c.(locked := true), phase := Locked);
    Then(conf, s1, Lock, s2);
    ReachedInv(conf, s2);
    ExtentsFit(conf);
    t := s2.(phase := Built(Transaction(conf, s2.c, |s2.hist|, s2.cycle), EvictedPages(s2.c)),
        cycle := NextCycle(conf, s2.cycle));
    assert s2.c.changing == [v];
    Then(conf, s2, Build, t);
  }

  /** Without bits in the bitmap there is nothing to write to its pages. */
  lemma {:induction false} PagesWritten(conf: Conf, s: State) returns (t: State)
    requires conf.Valid() && Reached(conf, s) && s.phase.Built? && s.memory == {} == s.onDisk
    requires |s.c.changing| == 1 && s.c.Valid() && s.phase.pages == EvictedPages(s.c)
    ensures Reached(conf, t) && t == s.(phase := s.phase.(pages := {}))
  {
    var x := s.c.changing[0];
    assert s.c.changing == [x] && x in s.c.changing;
    var page := ExtentPage(s.c.elems[x].number);
    assert s.phase.pages <= {page};
    t := FlushPage(s, page);
    assert OnePage({}, page) == {} && t.onDisk == {} && s.phase.pages - {page} == {};
    Then(conf, s, WritePage(page), t);
    assert t == s.(phase := s.phase.(pages := {}));
  }

  lemma {:induction false} Begun(conf: Conf, s: State, enr: nat) returns (t: State, v: nat)
    requires conf.Valid() && Reached(conf, s) && Inv(conf, s) && Quiet(s) && Unused(s.c, enr)
      && (s.c.free != [] || s.c.lru != [])
    ensures Reached(conf, t) && v == s.c.Victim() && t.c == s.c.Prepare(v, enr).(dirty := true, locked := true)
    ensures t.phase.Writing? && t.phase.buf.updates == [(v, enr)] && t.hist == s.hist && t.memory == {} == t.onDisk
  {
    var a, b;
    a, v := Assembled(conf, s, enr);
    ReachedInv(conf, a);
    b := PagesWritten(conf, a);
    ReachedInv(conf, b);
    StripeBijection(conf.Place(|b.hist|), conf.stripes, conf.stripeSize);
    t := b.(phase := Writing(b.phase.buf), disk := b.disk[conf.OnDisk(|b.hist|) := Torn]);
    Then(conf, b, StartWrite, t);
  }

  lemma {:induction false} Ended(conf: Conf, s: State) returns (t: State)
    requires conf.Valid() && Reached(conf, s) && s.phase.Writing? && s.memory == {} == s.onDisk && !s.c.starving
    ensures Reached(conf, t) && Quiet(t) && t.hist == s.hist + [s.phase.buf]
    ensures t.c == s.c.Commit().(locked := false, dirty := false)
  {
    ReachedInv(conf, s);
    StripeBijection(conf.Place(|s.hist|), conf.stripes, conf.stripeSize);
    var a := s.(phase := Phase.Logged, hist := s.hist + [s.phase.buf],
        disk := s.disk[conf.OnDisk(|s.hist|) := Written(s.phase.buf)]);
    Then(conf, s, FinishWrite, a);
    var b := a.(phase := Committed, c := a.c.Commit());
    Then(conf, a, Commit, b);
    t := b.(phase := Idle, c := b.c.(locked := false, dirty := false));
    Then(conf, b, Unlock, t);
  }

  lemma {:induction false} Transacted(conf: Conf, s: State, enr: nat) returns (t: State, v: nat)
    requires conf.Valid() && Reached(conf, s) && Inv(conf, s) && Quiet(s) && Unused(s.c, enr)
      && (s.c.free != [] || s.c.lru != [])
    ensures Reached(conf, t) && Inv(conf, t) && Quiet(t) && v == s.c.Victim()
    ensures |t.hist| == |s.hist| + 1 && t.hist[..|s.hist|] == s.hist && t.hist[|s.hist|].updates == [(v, enr)]
    ensures t.c.elems == s.c.elems[v := Elem(enr, enr, 1)]
    ensures t.c.free == (if s.c.free != [] then s.c.free[1..] else [])
      && t.c.lru == (if s.c.free != [] then s.c.lru else s.c.lru[..|s.c.lru| - 1])
  {
    var a;
    a, v := Begun(conf, s, enr);
    t := Ended(conf, a);
    ReachedInv(conf, t);
    forall i | 0 <= i < |s.c.elems| ensures t.c.elems[i] == s.c.elems[v := Elem(enr, enr, 1)][i] {
      assert s.c.Placed(i);
    }
  }

  lemma {:induction false} Released(conf: Conf, s: State, i: nat) returns (t: State)
    requires conf.Valid() && Reached(conf, s) && Inv(conf, s) && Quiet(s) && i < |s.c.elems| && s.c.elems[i].refcnt == 1
    ensures Reached(conf, t) && Inv(conf, t) && Quiet(t) && t.hist == s.hist && t.c.free == s.c.free
    ensures t.c.lru == [i] + s.c.lru && t.c.elems == s.c.elems[i := s.c.elems[i].(refcnt := 0)]
  {
    assert s.c.Placed(i);
    t := s.(c := s.c.Put(i));
    Then(conf, s, Put(i), t);
    ReachedInv(conf, t);
  }

  // ----- all slots but one are held -----

  /** The first transactions take free slots. */
  predicate Filled(c: Cache, t: nat) {
    && t <= |c.elems| && |c.free| == |c.elems| - t && c.lru == []
    && forall i :: 0 <= i < |c.elems| ==> FilledSlot(c.elems[i], t)
  }

  predicate FilledSlot(e: Elem, t: nat) {
    e.Committed() && if e.refcnt == 0 then e.number == FREE else e.refcnt == 1 && e.number < t
  }

  lemma {:induction false} FillUp(conf: Conf, t: nat, j: nat, s: nat, v: nat) returns (x: State)
    requires conf.Valid() && t <= conf.slots <= j && conf.slots <= v
    ensures Reached(conf, x) && Inv(conf, x) && Quiet(x) && |x.hist| == t && Filled(x.c, t) && Alone(x.hist, j, s, v)
  {
    if t == 0 {
      Starts(conf);
      InitInv(conf);
      x := Init(conf);
    } else {
      var y := FillUp(conf, t - 1, j, s, v);
      forall i | 0 <= i < |y.c.elems| ensures y.c.elems[i].newNumber != t - 1 {
        assert FilledSlot(y.c.elems[i], t - 1);
      }
      var i;
      x, i := Transacted(conf, y, t - 1);
      forall k | 0 <= k < |x.c.elems| ensures FilledSlot(x.c.elems[k], t) { assert FilledSlot(y.c.elems[k], t - 1); }
      StillAlone(y.hist, x.hist, j, s, v);
    }
  }

  lemma {:induction false} StillAlone(h: seq<Block>, h': seq<Block>, j: nat, s: nat, v: nat)
    requires Alone(h, j, s, v) && |h'| == |h| + 1 && h'[..|h|] == h
    requires if |h| == j then h'[j].updates == [(s, v)] else Lacks(h'[|h|].updates, v)
    ensures Alone(h', j, s, v)
  {
    forall t | 0 <= t < |h'| ensures if t == j then h'[t].updates == [(s, v)] else Lacks(h'[t].updates, v) {
      if t < |h| { assert h'[t] == h'[..|h|][t]; }
    }
  }

  /** Slot f alone can be evicted; it is used for two labels in turn. */
  predicate Pinned(c: Cache, f: nat) {
    && f < |c.elems| && c.free == [] && c.lru == [f] && c.elems[f].Committed()
    && forall i :: 0 <= i < |c.elems| && i != f ==> Held(c.elems[i], |c.elems|)
  }

  predicate Held(e: Elem, n: nat) { e.Committed() && e.refcnt == 1 && e.number != n && e.number != n + 1 }

  /** The label that slot f gets next. */
  function Turn(c: Cache, f: nat): nat
    requires f < |c.elems|
  {
    if c.elems[f].number == |c.elems| then |c.elems| + 1 else |c.elems|
  }

  lemma {:induction false} PinAll(conf: Conf, f: nat, j: nat, s: nat, v: nat) returns (x: State)
    requires conf.Valid() && conf.slots <= j && v == conf.slots + 2 && f < conf.slots
    ensures Reached(conf, x) && Inv(conf, x) && Quiet(x) && |x.hist| == conf.slots && Alone(x.hist, j, s, v)
    ensures Pinned(x.c, f) && Unused(x.c, v)
  {
    var y := FillUp(conf, conf.slots, j, s, v);
    NoneFree(y.c);
    forall i | 0 <= i < |y.c.elems| ensures y.c.elems[i].refcnt == 1 { assert FilledSlot(y.c.elems[i], conf.slots); }
    x := Released(conf, y, f);
    forall i | 0 <= i < |x.c.elems| ensures x.c.elems[i].Committed() && x.c.elems[i].number < conf.slots {
      assert FilledSlot(y.c.elems[i], conf.slots);
    }
  }

  lemma {:induction false} NoneFree(c: Cache)
    requires c.Valid() && c.free == [] && c.lru == []
    ensures forall i :: 0 <= i < |c.elems| ==> c.elems[i].refcnt > 0
  {
    forall i | 0 <= i < |c.elems| ensures c.elems[i].refcnt > 0 { assert c.Placed(i); }
  }

  lemma {:induction false} Again(conf: Conf, x: State, f: nat) returns (y: State)
    requires conf.Valid() && Reached(conf, x) && Inv(conf, x) && Quiet(x) && Pinned(x.c, f)
    ensures Reached(conf, y) && Inv(conf, y) && Quiet(y) && Pinned(y.c, f)
    ensures |y.hist| == |x.hist| + 1 && y.hist[..|x.hist|] == x.hist && y.hist[|x.hist|].updates == [(f, Turn(x.c, f))]
    ensures y.c.elems == x.c.elems[f := Elem(Turn(x.c, f), Turn(x.c, f), 0)]
  {
    var z, v := Transacted(conf, x, Turn(x.c, f));
    y := Released(conf, z, f);
  }

  /** Only slot f changes, and label slots + 2 does not come up. */
  predicate SameBut(c: Cache, d: Cache, f: nat) {
    && |d.elems| == |c.elems| && (forall i :: 0 <= i < |c.elems| && i != f ==> d.elems[i] == c.elems[i])
    && (Unused(c, |c.elems| + 2) ==> Unused(d, |c.elems| + 2))
  }

  lemma {:induction false} AgainOne(conf: Conf, x: State, f: nat, j: nat, s: nat) returns (y: State)
    requires conf.Valid() && Reached(conf, x) && Inv(conf, x) && Quiet(x) && Pinned(x.c, f)
    requires |x.hist| != j && Alone(x.hist, j, s, conf.slots + 2)
    ensures Reached(conf, y) && Inv(conf, y) && Quiet(y) && Pinned(y.c, f) && Alone(y.hist, j, s, conf.slots + 2)
    ensures |y.hist| == |x.hist| + 1 && SameBut(x.c, y.c, f)
  {
    y := Again(conf, x, f);
    StillAlone(x.hist, y.hist, j, s, conf.slots + 2);
  }

  /** So the history grows with all other slots as they are. */
  lemma {:induction false} AgainUntil(conf: Conf, x: State, f: nat, count: nat, j: nat, s: nat) returns (y: State)
    requires conf.Valid() && Reached(conf, x) && Inv(conf, x) && Quiet(x) && Pinned(x.c, f)
    requires |x.hist| <= count && !(|x.hist| <= j < count) && Alone(x.hist, j, s, conf.slots + 2)
    ensures Reached(conf, y) && Inv(conf, y) && Quiet(y) && Pinned(y.c, f) && Alone(y.hist, j, s, conf.slots + 2)
    ensures |y.hist| == count && SameBut(x.c, y.c, f)
    decreases count
  {
    if |x.hist| == count {
      y := x;
    } else {
      var z := AgainUntil(conf, x, f, count - 1, j, s);
      y := AgainOne(conf, z, f, j, s);
    }
  }

  /** Slot f is in use again. */
  lemma {:induction false} Retaken(conf: Conf, x: State, f: nat) returns (y: State)
    requires conf.Valid() && Reached(conf, x) && Inv(conf, x) && Quiet(x) && Pinned(x.c, f)
    ensures Reached(conf, y) && Quiet(y) && y.hist == x.hist && y.c.free == [] == y.c.lru
    ensures y.c.elems == x.c.elems[f := x.c.elems[f].(refcnt := 1)]
  {
    var enr := x.c.elems[f].number;
    assert x.c.Placed(f) && f in x.c.lru;
    ScanUnique(x.c, f);
    y := x.(c := x.c.Touch(f));
    assert x.c.Get(enr, false, false).0 == x.c.Touch(f);
    Then(conf, x, Get(enr, false, false), y);
  }

  /** Slot s can be evicted instead of slot f. */
  lemma {:induction false} Swapped(conf: Conf, x: State, f: nat, s: nat) returns (y: State)
    requires conf.Valid() && Reached(conf, x) && Inv(conf, x) && Quiet(x) && Pinned(x.c, f) && s < |x.c.elems| && s != f
    ensures Reached(conf, y) && Inv(conf, y) && Quiet(y) && y.hist == x.hist && y.c.free == [] && y.c.lru == [s]
    ensures y.c.elems == x.c.elems[f := x.c.elems[f].(refcnt := 1)][s := x.c.elems[s].(refcnt := 0)]
  {
    var z := Retaken(conf, x, f);
    ReachedInv(conf, z);
    assert Held(x.c.elems[s], |x.c.elems|);
    y := Released(conf, z, s);
  }

  lemma {:induction false} Placed(conf: Conf, x: State, f: nat, s: nat, v: nat) returns (y: State)
    requires conf.Valid() && Reached(conf, x) && Inv(conf, x) && Quiet(x) && Pinned(x.c, f) && s < |x.c.elems| && s != f
    requires v == conf.slots + 2 && Unused(x.c, v) && Alone(x.hist, |x.hist|, s, v)
    ensures Reached(conf, y) && Inv(conf, y) && Quiet(y) && Pinned(y.c, f) && Alone(y.hist, |x.hist|, s, v)
    ensures |y.hist| == |x.hist| + 1 && y.c.elems[s] == Elem(v, v, 1)
  {
    var a := Swapped(conf, x, f, s);
    var b, i := Transacted(conf, a, v);
    StillAlone(x.hist, b.hist, |x.hist|, s, v);
    y := Released(conf, b, f);
  }

  /** Any number of transactions, of which transaction j alone puts label slots + 2 into slot s. */
  lemma {:induction false} Marked(conf: Conf, count: nat, j: nat, s: nat) returns (x: State, f: nat)
    requires conf.Valid() && conf.slots <= j < count && s < conf.slots
    ensures Reached(conf, x) && Inv(conf, x) && Quiet(x) && |x.hist| == count && Alone(x.hist, j, s, conf.slots + 2)
    ensures Pinned(x.c, f) && f != s && s < |x.c.elems| && x.c.elems[s] == Elem(conf.slots + 2, conf.slots + 2, 1)
  {
    f := if s == 0 then 1 else 0;
    var a := PinAll(conf, f, j, s, conf.slots + 2);
    var b := AgainUntil(conf, a, f, j, j, s);
    var c := Placed(conf, b, f, s, conf.slots + 2);
    x := AgainUntil(conf, c, f, count, j, s);
  }

  // ----- what is lost -----

  /** The bit may be lost: its extent is open for writing, and the replay does not return it. */
  lemma {:induction false} Lost(conf: Conf, count: nat, torn: bool) returns (x: State)
    requires conf.Valid() && !Replayable(conf, count, torn)
    ensures Reached(conf, x) && |x.hist| == count && x.phase.Writing? == torn
    ensures AtRisk(x) == {1024 * (conf.slots + 2)} && Writable(x.c, conf.slots + 2)
    ensures conf.slots + 2 !in ReplayOf(conf, x.hist, torn)
  {
    var j, s := SomeMissed(conf, count, torn);
    var v := conf.slots + 2;
    var a, f := Marked(conf, count, j, s);
    var b := a;
    if torn {
      var i;
      b, i := Begun(conf, a, Turn(a.c, f));
    }
    ReachedInv(conf, b);
    ReplayMisses(conf, b.hist, torn, j, s, v);
    assert b.c.elems[s] == Elem(v, v, 1) && Extent(1024 * v) == v;
    x := b.(memory := b.memory + {1024 * v});
    Then(conf, b, SetBits({1024 * v}), x);
    assert x.c.elems[s] == Elem(v, v, 1);
  }

  /** For instance: 72 blocks, the default number of extents, and one transaction after the wrap. */
  lemma {:induction false} LostForExample() returns (conf: Conf, x: State)
    ensures conf == Conf(1, 72, 1237) && conf.Valid() && Reached(conf, x) && |x.hist| == U32 + 1
    ensures !x.phase.Writing? && Writable(x.c, 1239) && 1239 !in ReplayOf(conf, x.hist, false)
  {
    conf := Conf(1, 72, 1237);
    assert conf.Blocks() == 72 && conf.Rounds() == 2 && U32 % 72 == 40 && (U32 + 1) % U32 == 1;
    x := Lost(conf, U32 + 1, false);
  }

  /** Every bit that never reached the on-disk bitmap lies in an extent that the replay returns. */
  predicate Safe(conf: Conf, s: State)
    requires conf.Valid()
  {
    forall b :: b in AtRisk(s) ==> Extent(b) in ReplayOf(conf, s.hist, s.phase.Writing?)
  }

  /** Crash safety, exactly: with so many transactions on disk, and the write of the next one
      begun or not, all states that the machine can be in are safe if and only if the log is
      replayable. */
  lemma {:induction false} SafeExactly(conf: Conf, count: nat, torn: bool)
    requires conf.Valid()
    ensures (forall s :: Reached(conf, s) && |s.hist| == count && s.phase.Writing? == torn ==> Safe(conf, s))
       <==> Replayable(conf, count, torn)
  {
    if Replayable(conf, count, torn) {
      forall s | Reached(conf, s) && |s.hist| == count && s.phase.Writing? == torn ensures Safe(conf, s) {
        ReachedInv(conf, s);
        TableProtects(conf, s);
        ReplayableGood(conf, s.hist, torn);
      }
    } else {
      var x := Lost(conf, count, torn);
      assert 1024 * (conf.slots + 2) in AtRisk(x);
      assert !Safe(conf, x);
    }
  }

  predicate Rebuilds(conf: Conf, hist: seq<Block>, torn: bool)
    requires conf.Valid()
  {
    ReplayOf(conf, hist, torn) == TableAt(hist, conf.slots, |hist|)
  }

  /** ... and if and only if it is replayable, the replay of every such history gives the table of
      the last complete transaction. */
  lemma {:induction false} RebuildsExactly(conf: Conf, count: nat, torn: bool)
    requires conf.Valid()
    ensures (forall hist :: |hist| == count && WellLogged(conf, hist) ==> Rebuilds(conf, hist, torn))
       <==> Replayable(conf, count, torn)
  {
    if Replayable(conf, count, torn) {
      forall hist | |hist| == count && WellLogged(conf, hist) ensures Rebuilds(conf, hist, torn) {
        ReplayableGood(conf, hist, torn);
      }
    } else {
      var x := Lost(conf, count, torn);
      ReachedInv(conf, x);
      TableProtects(conf, x);
      assert !Rebuilds(conf, x.hist, torn);
    }
  }
}
