/** The activity log as a running system: the LRU cache of extents, the bitmap in memory and on
    disk, and the on-disk ring.  Each step is one atomic section of the code; a crash may follow
    any step. */
module ActivityLog {
  import opened Arith
  import opened Lru
  import opened AlRing
  import opened AlReplay
  import opened AlWrap

  /** 4 KiB per bit, 4 MiB per activity log extent, 4096 * 8 bits per bitmap page */
  function Extent(bit: nat): nat { bit / 1024 }
  function BitPage(bit: nat): nat { bit / 32768 }
  /** al_extent_to_bm_page */
  function ExtentPage(enr: nat): nat { enr / 32 }

  /** Where drbd_al_begin_io_commit stands, if anyone runs it. */
  datatype Phase =
    | Idle
    | Locked                                  // lc_try_lock_for_transaction succeeded
    | Built(buf: Block, pages: set<nat>)      // transaction assembled, bitmap pages still to be written
    | Writing(buf: Block)                     // the block is on its way, readable or not
    | Logged                                  // written, not yet committed in memory
    | Committed

  /** hist lists the transactions on disk so far; al_tr_number is its length, in 32 bits. */
  datatype State = State(c: Cache, memory: set<nat>, onDisk: set<nat>,
                         disk: seq<DiskBlock>, cycle: nat, phase: Phase, hist: seq<Block>)

  datatype Step =
    | Get(enr: nat, mayChange: bool, mayUse: bool)
    | Put(i: nat)
    | SetBits(bits: set<nat>)
    | ClearBits(bits: set<nat>)
    | WritePage(page: nat)
    | Lock
    | Build
    | StartWrite
    | FinishWrite
    | Commit
    | Unlock

  /** The labels of all slots, and those they will have after the commit. */
  function Numbers(c: Cache): Table { seq(|c.elems|, i requires 0 <= i < |c.elems| => c.elems[i].number) }
  function NewNumbers(c: Cache): Table { seq(|c.elems|, i requires 0 <= i < |c.elems| => c.elems[i].newNumber) }

  /** The changes in list order, as _al_write_transaction copies them. */
  function Changes(c: Cache, list: seq<nat>): (u: seq<(nat, nat)>)
    requires forall x :: x in list ==> x < |c.elems|
    ensures |u| == |list|
  {
    seq(|list|, k requires 0 <= k < |list| => assert list[k] in list; (list[k], c.elems[list[k]].newNumber))
  }

  /** The bitmap pages of the extents that the transaction drops. */
  function EvictedPages(c: Cache): set<nat>
    requires forall x :: x in c.changing ==> x < |c.elems|
  {
    set x | x in c.changing && c.elems[x].number != FREE :: ExtentPage(c.elems[x].number)
  }

  function Transaction(conf: Conf, c: Cache, count: nat, cycle: nat): Block
    requires c.Valid() && |c.elems| == conf.slots && cycle <= conf.slots
  {
    Block(count % U32, Changes(c, c.changing), cycle,
          Numbers(c)[cycle..(if cycle + CONTEXT < conf.slots then cycle + CONTEXT else conf.slots)])
  }

  function NextCycle(conf: Conf, cycle: nat): nat {
    if cycle + CONTEXT >= conf.slots then 0 else cycle + CONTEXT
  }

  /** An extent is open for writes while a committed element holds a reference to it. */
  predicate Writable(c: Cache, enr: nat) {
    exists i :: 0 <= i < |c.elems| && c.elems[i].Committed() && c.elems[i].number == enr && c.elems[i].refcnt > 0
  }

  function OnePage(bits: set<nat>, page: nat): set<nat> {
    set b | b in bits && BitPage(b) == page
  }

  function Init(conf: Conf): State {
    State(Fresh(conf.slots, UPDATES), {}, {}, seq(conf.Blocks(), _ => Initialized), 0, Idle, [])
  }

  /** One page of the bitmap goes to disk. */
  function FlushPage(s: State, page: nat): State {
    s.(onDisk := (s.onDisk - OnePage(s.onDisk, page)) + OnePage(s.memory, page),
       phase := if s.phase.Built? then s.phase.(pages := s.phase.pages - {page}) else s.phase)
  }

  ghost predicate Next(conf: Conf, s: State, step: Step, s': State)
    requires conf.Valid()
  {
    match step
    case Get(enr, mayChange, mayUse) =>
      s.c.Valid() && enr != FREE && s' == s.(c := s.c.Get(enr, mayChange, mayUse).0)
    case Put(i) =>
      i < |s.c.elems| && s.c.elems[i].Committed() && s.c.elems[i].refcnt > 0 && s' == s.(c := s.c.Put(i))
    case SetBits(bits) =>
      (forall b :: b in bits ==> Writable(s.c, Extent(b))) && s' == s.(memory := s.memory + bits)
    case ClearBits(bits) =>
      s' == s.(memory := s.memory - bits)
    case WritePage(page) =>
      s' == FlushPage(s, page)
    case Lock =>
      s.phase.Idle? && s' == s.(c := s.c.(locked := true), phase := Locked)
    case Build =>
      && s.phase.Locked? && s.c.Valid() && s.c.changing != [] && |s.c.elems| == conf.slots && s.cycle <= conf.slots
      && s' == s.(phase := Built(Transaction(conf, s.c, |s.hist|, s.cycle), EvictedPages(s.c)),
                  cycle := NextCycle(conf, s.cycle))
    case StartWrite =>
      && s.phase.Built? && s.phase.pages == {} && conf.OnDisk(|s.hist|) < |s.disk|
      && s' == s.(phase := Writing(s.phase.buf), disk := s.disk[conf.OnDisk(|s.hist|) := Torn])
    case FinishWrite =>
      && s.phase.Writing? && conf.OnDisk(|s.hist|) < |s.disk|
      && s' == s.(phase := Phase.Logged, hist := s.hist + [s.phase.buf],
                  disk := s.disk[conf.OnDisk(|s.hist|) := Written(s.phase.buf)])
    case Commit =>
      s.phase == Phase.Logged && s' == s.(phase := Committed, c := s.c.Commit())
    case Unlock =>
      && (s.phase.Committed? || (s.phase.Locked? && s.c.changing == []))
      && s' == s.(phase := Idle, c := s.c.(locked := false, dirty := false))
  }

  // ----- the invariant -----

  /** Bits that a crash would lose unless their extent is resynced. */
  function AtRisk(s: State): set<nat> { s.memory - s.onDisk }

  predicate Exposed(s: State, enr: nat) {
    exists b :: b in AtRisk(s) && Extent(b) == enr
  }

  /** The transaction in flight is exactly the pending change, and nothing can change it. */
  predicate InFlight(conf: Conf, s: State, buf: Block)
    requires conf.Valid() && s.c.Valid()
  {
    && s.c.locked
    && buf.updates == Changes(s.c, s.c.changing)
    && AlRing.Logged(conf, s.hist + [buf], |s.hist|)
  }

  predicate CacheOk(conf: Conf, s: State) {
    && s.c.Valid() && s.c.NoStale()
    && |s.c.elems| == conf.slots && s.c.maxPending == UPDATES
    && (s.phase.Idle? || s.c.locked)
  }

  /** Every bit at risk lies in an active extent; extents that a transaction drops are clean
      on disk before the transaction is. */
  predicate Covered(s: State) {
    && (forall b :: b in AtRisk(s) ==> Extent(b) != FREE && Extent(b) in Numbers(s.c))
    && (s.phase.Built? ==>
          forall i :: 0 <= i < |s.c.elems| && !s.c.elems[i].Committed() && Exposed(s, s.c.elems[i].number) ==>
                        ExtentPage(s.c.elems[i].number) in s.phase.pages)
    && (s.phase.Writing? || s.phase.Logged? ==>
          forall i :: 0 <= i < |s.c.elems| && !s.c.elems[i].Committed() ==> !Exposed(s, s.c.elems[i].number))
  }

  predicate LogOk(conf: Conf, s: State)
    requires conf.Valid() && s.c.Valid()
  {
    && WellLogged(conf, s.hist)
    && RingHolds(conf, s.disk, s.hist, s.phase.Writing?)
    && TableAt(s.hist, conf.slots, |s.hist|) == (if s.phase.Logged? then NewNumbers(s.c) else Numbers(s.c))
    && s.cycle == CONTEXT * ((|s.hist| + (if s.phase.Built? || s.phase.Writing? then 1 else 0)) % conf.Rounds())
    && (s.phase.Built? ==> InFlight(conf, s, s.phase.buf))
    && (s.phase.Writing? ==> InFlight(conf, s, s.phase.buf))
  }

  predicate Inv(conf: Conf, s: State)
    requires conf.Valid()
  {
    CacheOk(conf, s) && Covered(s) && LogOk(conf, s)
  }

  // ----- what one operation of the cache leaves alone -----

  predicate SameLabels(c: Cache, d: Cache) {
    && |d.elems| == |c.elems|
    && (forall i :: 0 <= i < |c.elems| ==>
      d.elems[i].number == c.elems[i].number && d.elems[i].newNumber == c.elems[i].newNumber)
    && d.changing == c.changing
  }

  lemma {:induction false} GetLabels(c: Cache, enr: nat, mayChange: bool, mayUse: bool)
    requires c.Valid() && enr != FREE
    ensures var d := c.Get(enr, mayChange, mayUse).0;
            && |d.elems| == |c.elems| && Numbers(d) == Numbers(c)
            && d.locked == c.locked && d.maxPending == c.maxPending
            && (c.locked ==> SameLabels(c, d))
  {}

  /** A step that keeps all labels, or that runs while no transaction does and keeps the
      committed ones, keeps the invariant. */
  lemma {:induction false} CacheFrame(conf: Conf, s: State, d: Cache)
    requires conf.Valid() && Inv(conf, s)
    requires d.Valid() && d.NoStale() && d.maxPending == s.c.maxPending && d.locked == s.c.locked
    requires |d.elems| == |s.c.elems| && Numbers(d) == Numbers(s.c)
    requires s.c.locked ==> SameLabels(s.c, d)
    ensures Inv(conf, s.(c := d))
  {
    var s' := s.(c := d);
    assert AtRisk(s') == AtRisk(s);
    if s.c.locked {
      assert NewNumbers(d) == NewNumbers(s.c);
      forall k | 0 <= k < |d.changing| ensures Changes(d, d.changing)[k] == Changes(s.c, s.c.changing)[k] {
        assert d.changing[k] in d.changing;
      }
      forall i | 0 <= i < |d.elems| && !d.elems[i].Committed() ensures !s.c.elems[i].Committed() {}
    }
  }

  lemma {:induction false} GetKeeps(conf: Conf, s: State, enr: nat, mayChange: bool, mayUse: bool)
    requires conf.Valid() && Inv(conf, s) && enr != FREE
    ensures Inv(conf, s.(c := s.c.Get(enr, mayChange, mayUse).0))
  {
    GetValid(s.c, enr, mayChange, mayUse);
    GetLabels(s.c, enr, mayChange, mayUse);
    CacheFrame(conf, s, s.c.Get(enr, mayChange, mayUse).0);
  }

  lemma {:induction false} PutLabels(c: Cache, i: nat)
    requires c.Valid() && i < |c.elems| && c.elems[i].Committed() && c.elems[i].refcnt > 0
    ensures SameLabels(c, c.Put(i)) && Numbers(c.Put(i)) == Numbers(c)
    ensures c.Put(i).maxPending == c.maxPending && c.Put(i).locked == c.locked
  {}

  lemma {:induction false} PutKeeps(conf: Conf, s: State, i: nat)
    requires conf.Valid() && Inv(conf, s)
    requires i < |s.c.elems| && s.c.elems[i].Committed() && s.c.elems[i].refcnt > 0
    ensures Inv(conf, s.(c := s.c.Put(i)))
  {
    PutValid(s.c, i);
    PutLabels(s.c, i);
    var d := s.c.Put(i);
    CacheFrame(conf, s, d);
  }

  // ----- the bitmap -----

  /** Fewer bits at risk, same cache, same log. */
  lemma {:induction false} RiskFrame(conf: Conf, s: State, s': State)
    requires conf.Valid() && Inv(conf, s)
    requires s' == s.(memory := s'.memory, onDisk := s'.onDisk) && AtRisk(s') <= AtRisk(s)
    ensures Inv(conf, s')
  {}

  /** A committed reference and a pending eviction never concern the same extent. */
  lemma {:induction false} SetBitsKeeps(conf: Conf, s: State, bits: set<nat>)
    requires conf.Valid() && Inv(conf, s) && (forall b :: b in bits ==> Writable(s.c, Extent(b)))
    ensures Inv(conf, s.(memory := s.memory + bits))
  {
    var s' := s.(memory := s.memory + bits);
    forall b | b in AtRisk(s') ensures Extent(b) != FREE && Extent(b) in Numbers(s.c) {
      if b in bits { WritableActive(s.c, Extent(b)); }
    }
    forall i | 0 <= i < |s.c.elems| && !s.c.elems[i].Committed() && Exposed(s', s.c.elems[i].number)
      ensures Exposed(s, s.c.elems[i].number)
    {
      var b :| b in AtRisk(s') && Extent(b) == s.c.elems[i].number;
      if b !in AtRisk(s) { WritableActive(s.c, Extent(b)); }
    }
  }

  lemma {:induction false} WritableActive(c: Cache, enr: nat)
    requires c.Valid() && Writable(c, enr)
    ensures enr != FREE && enr in Numbers(c) && enr in NewNumbers(c)
    ensures forall j :: 0 <= j < |c.elems| && c.elems[j].number == enr ==> c.elems[j].Committed()
  {
    var i :| 0 <= i < |c.elems| && c.elems[i].Committed() && c.elems[i].number == enr && c.elems[i].refcnt > 0;
    assert c.Placed(i);
    assert Numbers(c)[i] == enr && NewNumbers(c)[i] == enr;
    forall j | 0 <= j < |c.elems| && c.elems[j].number == enr ensures j == i {
      assert j < i ==> c.NoClash(j, i);
      assert i < j ==> c.NoClash(i, j);
    }
  }

  lemma {:induction false} FlushKeeps(conf: Conf, s: State, page: nat)
    requires conf.Valid() && Inv(conf, s)
    ensures Inv(conf, FlushPage(s, page))
  {}

  // ----- the transaction -----

  lemma {:induction false} CycleStep(conf: Conf, t: nat)
    requires conf.Valid()
    ensures CONTEXT * (t % conf.Rounds()) < conf.slots
    ensures NextCycle(conf, CONTEXT * (t % conf.Rounds())) == CONTEXT * ((t + 1) % conf.Rounds())
  {
    var r := conf.Rounds();
    ModShift(t, 1, r);
    if t % r + 1 < r { DivModUnique(0, r, t % r + 1); } else { DivModUnique(1, r, 0); }
  }

  lemma {:induction false} ChangesApplied(c: Cache, tbl: Table, list: seq<nat>, s: nat)
    requires |tbl| == |c.elems| && s < |tbl| && (forall x :: x in list ==> x < |c.elems|)
    ensures ApplyUpdates(tbl, Changes(c, list))[s] == if s in list then c.elems[s].newNumber else tbl[s]
    decreases |list|
  {
    if list != [] {
      var u := Changes(c, list);
      assert list[0] in list && forall x :: x in list[1..] ==> x in list;
      assert u[1..] == Changes(c, list[1..]);
      assert list == [list[0]] + list[1..];
      ChangesApplied(c, tbl[list[0] := c.elems[list[0]].newNumber], list[1..], s);
    }
  }

  lemma {:induction false} ChangesGiveNewNumbers(c: Cache)
    requires c.Valid()
    ensures ApplyUpdates(Numbers(c), Changes(c, c.changing)) == NewNumbers(c)
  {
    forall s | 0 <= s < |c.elems|
      ensures ApplyUpdates(Numbers(c), Changes(c, c.changing))[s] == NewNumbers(c)[s]
    {
      assert c.Placed(s);
      ChangesApplied(c, Numbers(c), c.changing, s);
    }
  }

  lemma {:induction false} BuildKeeps(conf: Conf, s: State, s': State)
    requires conf.Valid() && Inv(conf, s) && Next(conf, s, Build, s')
    ensures Inv(conf, s')
  {
    var t := |s.hist|;
    CycleStep(conf, t);
    TablePrefix(s.hist, s'.phase.buf, conf.slots, t);
    assert AtRisk(s') == AtRisk(s);
    forall i | 0 <= i < |s.c.elems| && !s.c.elems[i].Committed() && Exposed(s', s.c.elems[i].number)
      ensures ExtentPage(s.c.elems[i].number) in s'.phase.pages
    {
      assert s.c.Placed(i);
    }
  }

  lemma {:induction false} StartWriteKeeps(conf: Conf, s: State, s': State)
    requires conf.Valid() && Inv(conf, s) && Next(conf, s, StartWrite, s')
    ensures Inv(conf, s')
  {
    var t, n := |s.hist|, conf.Blocks();
    assert AtRisk(s') == AtRisk(s);
    forall p | 0 <= p < n ensures At(conf, s'.disk, p) == Expected(conf, s'.hist, true, p) {
      WriteAt(conf, s.disk, conf.Place(t), Torn, p);
      assert At(conf, s.disk, p) == Expected(conf, s.hist, false, p);
    }
    forall enr: nat | Exposed(s', enr) ensures Exposed(s, enr) {}
  }

  lemma {:induction false} FinishWriteKeeps(conf: Conf, s: State, s': State)
    requires conf.Valid() && Inv(conf, s) && Next(conf, s, FinishWrite, s')
    ensures Inv(conf, s')
  {
    var t, n, buf := |s.hist|, conf.Blocks(), s.phase.buf;
    assert AtRisk(s') == AtRisk(s);
    forall p | 0 <= p < n ensures At(conf, s'.disk, p) == Expected(conf, s'.hist, false, p) {
      WriteAt(conf, s.disk, conf.Place(t), Written(buf), p);
      assert At(conf, s.disk, p) == Expected(conf, s.hist, true, p);
    }
    forall u | 0 <= u < |s'.hist| ensures AlRing.Logged(conf, s'.hist, u) {
      TablePrefix(s.hist, buf, conf.slots, u);
      if u < t { assert AlRing.Logged(conf, s.hist, u); }
    }
    TablePrefix(s.hist, buf, conf.slots, t);
    ChangesGiveNewNumbers(s.c);
    forall enr: nat | Exposed(s', enr) ensures Exposed(s, enr) {}
  }

  lemma {:induction false} CommitKeeps(conf: Conf, s: State, s': State)
    requires conf.Valid() && Inv(conf, s) && Next(conf, s, Commit, s')
    ensures Inv(conf, s')
  {
    CommitValid(s.c);
    assert Numbers(s'.c) == NewNumbers(s.c);
    forall b | b in AtRisk(s') ensures Extent(b) in Numbers(s'.c) {
      var i :| 0 <= i < |s.c.elems| && Numbers(s.c)[i] == Extent(b);
      assert b in AtRisk(s) && Exposed(s, s.c.elems[i].number);
      assert NewNumbers(s.c)[i] == Extent(b);
    }
  }

  lemma {:induction false} UnlockKeeps(conf: Conf, s: State, s': State)
    requires conf.Valid() && Inv(conf, s) && (Next(conf, s, Unlock, s') || Next(conf, s, Lock, s'))
    ensures Inv(conf, s')
  {
    FlagsValid(s.c, s'.c.dirty, s'.c.locked, s.c.starving);
    assert Numbers(s'.c) == Numbers(s.c) && AtRisk(s') == AtRisk(s);
  }

  /** What every step keeps. */
  lemma {:induction false} NextKeepsInv(conf: Conf, s: State, step: Step, s': State)
    requires conf.Valid() && Inv(conf, s) && Next(conf, s, step, s')
    ensures Inv(conf, s')
  {
    match step
    case Get(enr, mayChange, mayUse) => GetKeeps(conf, s, enr, mayChange, mayUse);
    case Put(i) => PutKeeps(conf, s, i);
    case SetBits(bits) => SetBitsKeeps(conf, s, bits);
    case ClearBits(bits) => RiskFrame(conf, s, s');
    case WritePage(page) => FlushKeeps(conf, s, page);
    case Lock => UnlockKeeps(conf, s, s');
    case Build => BuildKeeps(conf, s, s');
    case StartWrite => StartWriteKeeps(conf, s, s');
    case FinishWrite => FinishWriteKeeps(conf, s, s');
    case Commit => CommitKeeps(conf, s, s');
    case Unlock => UnlockKeeps(conf, s, s');
  }

  lemma {:induction false} InitInv(conf: Conf)
    requires conf.Valid()
    ensures Inv(conf, Init(conf))
  {
    var s := Init(conf);
    FreshValid(conf.slots, UPDATES);
    ExtentsFit(conf);
    forall p | 0 <= p < conf.Blocks() ensures At(conf, s.disk, p) == Expected(conf, [], false, p) {
      StripeBijection(p, conf.stripes, conf.stripeSize);
    }
    DivModUnique(0, conf.Rounds(), 0);
    assert Numbers(s.c) == FreeTable(conf.slots);
    assert LogOk(conf, s) && AtRisk(s) == {};
  }

  // ----- runs -----

  ghost predicate Run(conf: Conf, steps: seq<Step>, states: seq<State>)
    requires conf.Valid()
  {
    && |states| == |steps| + 1 && states[0] == Init(conf)
    && forall k :: 0 <= k < |steps| ==> Happens(conf, steps, states, k)
  }

  ghost predicate Happens(conf: Conf, steps: seq<Step>, states: seq<State>, k: nat)
    requires conf.Valid() && k < |steps| && |states| == |steps| + 1
  {
    Next(conf, states[k], steps[k], states[k + 1])
  }

  lemma {:induction false} RunKeepsInv(conf: Conf, steps: seq<Step>, states: seq<State>, k: nat)
    requires conf.Valid() && Run(conf, steps, states) && k < |states|
    ensures Inv(conf, states[k])
  {
    if k == 0 {
      InitInv(conf);
    } else {
      RunKeepsInv(conf, steps, states, k - 1);
      assert Happens(conf, steps, states, k - 1);
      NextKeepsInv(conf, states[k - 1], steps[k - 1], states[k]);
    }
  }

  /** The table of the last complete transaction has every extent with a bit that never reached
      the on-disk bitmap, and every extent open for writing. */
  lemma {:induction false} TableProtects(conf: Conf, s: State)
    requires conf.Valid() && Inv(conf, s)
    ensures forall b :: b in AtRisk(s) ==> Extent(b) in TableAt(s.hist, conf.slots, |s.hist|)
    ensures forall enr :: Writable(s.c, enr) ==> enr in TableAt(s.hist, conf.slots, |s.hist|)
  {
    var tbl := TableAt(s.hist, conf.slots, |s.hist|);
    forall b | b in AtRisk(s) ensures Extent(b) in tbl {
      var i :| 0 <= i < |s.c.elems| && Numbers(s.c)[i] == Extent(b);
      assert Exposed(s, s.c.elems[i].number);
      assert s.phase.Logged? ==> NewNumbers(s.c)[i] == Extent(b);
    }
    forall enr: nat | Writable(s.c, enr) ensures enr in tbl { WritableActive(s.c, enr); }
  }

  /** Crash safety: wherever a run is cut off with a replayable log, replaying the log that is then
      on disk returns every extent with a bit that never reached the on-disk bitmap, and every
      extent open for writing.  The BUG_ON of _al_write_transaction cannot fire. */
  method Recover(conf: Conf, ghost steps: seq<Step>, ghost states: seq<State>, s: State) returns (hot: Table)
    requires conf.Valid() && Run(conf, steps, states) && s == states[|steps|]
    ensures hot == ReplayOf(conf, s.hist, s.phase.Writing?)
    ensures Replayable(conf, |s.hist|, s.phase.Writing?) ==>
      && (forall b :: b in AtRisk(s) ==> Extent(b) in hot)
      && (forall enr :: Writable(s.c, enr) ==> enr in hot)
    ensures |s.c.changing| <= UPDATES
  {
    RunKeepsInv(conf, steps, states, |steps|);
    hot := Replay(conf, s.disk, s.hist, s.phase.Writing?);
    TableProtects(conf, s);
    if Replayable(conf, |s.hist|, s.phase.Writing?) { ReplayableGood(conf, s.hist, s.phase.Writing?); }
  }

  // ----- the machine runs -----

  /** The first get on a new cache. */
  lemma {:induction false} FirstGet(n: nat, enr: nat) returns (c: Cache, v: nat)
    requires n > 0 && enr != FREE
    ensures c == Fresh(n, UPDATES).Get(enr, true, false).0 && c.Valid() && !c.starving
    ensures |c.elems| == n && c.changing == [v] && v < n && c.elems[v] == Elem(FREE, enr, 1)
  {
    var f := Fresh(n, UPDATES);
    FreshValid(n, UPDATES);
    GetValid(f, enr, true, false);
    assert Scan(f.elems, enr).None? && f.free != [];
    c, v := f.Get(enr, true, false).0, f.Victim();
  }

  lemma {:induction false} FirstPlace(conf: Conf)
    requires conf.Valid()
    ensures conf.OnDisk(0) < conf.Blocks()
  {
    DivModUnique(0, U32, 0);
    DivModUnique(0, conf.Blocks(), 0);
    StripeBijection(0, conf.stripes, conf.stripeSize);
  }

  /** The transaction that activates an extent on a new device. */
  lemma {:induction false} FirstTransaction(conf: Conf, enr: nat) returns (states: seq<State>, v: nat)
    requires conf.Valid() && enr != FREE
    ensures |states| == 6 && states[0] == Init(conf)
    ensures Next(conf, states[0], Get(enr, true, false), states[1]) && Next(conf, states[1], Lock, states[2])
    ensures Next(conf, states[2], Build, states[3]) && Next(conf, states[3], StartWrite, states[4])
      && Next(conf, states[4], FinishWrite, states[5])
    ensures states[5].phase == Phase.Logged && states[5].memory == {} == states[5].onDisk
    ensures v < |states[5].c.elems| && states[5].c.elems[v] == Elem(FREE, enr, 1)
  {
    ExtentsFit(conf);
    FirstPlace(conf);
    var s0 := Init(conf);
    var c;
    c, v := FirstGet(conf.slots, enr);
    var s1 := s0.(c := c);
    FlagsValid(c, c.dirty, true, c.starving);
    var s2 := s1.(c := c.(locked := true), phase := Locked);
    var b := Transaction(conf, s2.c, 0, 0);
    assert EvictedPages(s2.c) == {};
    var s3 := s2.(phase := Built(b, {}), cycle := NextCycle(conf, 0));
    var s4 := s3.(phase := Writing(b), disk := s3.disk[conf.OnDisk(0) := Torn]);
    var s5 := s4.(phase := Phase.Logged, hist := s4.hist + [b], disk := s4.disk[conf.OnDisk(0) := Written(b)]);
    states := [s0, s1, s2, s3, s4, s5];
  }

  lemma {:induction false} Extend(conf: Conf, steps: seq<Step>, states: seq<State>, step: Step, s: State)
    requires conf.Valid() && Run(conf, steps, states) && Next(conf, states[|steps|], step, s)
    ensures Run(conf, steps + [step], states + [s])
  {
    forall k | 0 <= k < |steps| + 1 ensures Happens(conf, steps + [step], states + [s], k) {
      if k < |steps| { assert Happens(conf, steps, states, k); }
    }
  }

  lemma {:induction false} FirstRun(conf: Conf, enr: nat) returns (steps: seq<Step>, states: seq<State>, v: nat)
    requires conf.Valid() && enr != FREE
    ensures Run(conf, steps, states)
    ensures var s := states[|steps|];
      s.phase == Phase.Logged && s.memory == {} == s.onDisk && v < |s.c.elems| && s.c.elems[v] == Elem(FREE, enr, 1)
  {
    var t;
    t, v := FirstTransaction(conf, enr);
    Extend(conf, [], [t[0]], Get(enr, true, false), t[1]);
    steps, states := [] + [Get(enr, true, false)], [t[0]] + [t[1]];
    Extend(conf, steps, states, Lock, t[2]);
    steps, states := steps + [Lock], states + [t[2]];
    Extend(conf, steps, states, Build, t[3]);
    steps, states := steps + [Build], states + [t[3]];
    Extend(conf, steps, states, StartWrite, t[4]);
    steps, states := steps + [StartWrite], states + [t[4]];
    Extend(conf, steps, states, FinishWrite, t[5]);
    steps, states := steps + [FinishWrite], states + [t[5]];
  }

  /** A first write activates its extent in one transaction and sets a bit: runs get to where a
      crash would lose something. */
  lemma {:induction false} RiskHappens(conf: Conf, enr: nat) returns (steps: seq<Step>, states: seq<State>)
    requires conf.Valid() && enr != FREE
    ensures Run(conf, steps, states) && AtRisk(states[|steps|]) == {1024 * enr} && Writable(states[|steps|].c, enr)
  {
    var v;
    steps, states, v := FirstRun(conf, enr);
    var s5 := states[|steps|];
    var s6 := s5.(phase := Committed, c := s5.c.Commit());
    Extend(conf, steps, states, Commit, s6);
    steps, states := steps + [Commit], states + [s6];
    var s7 := s6.(phase := Idle, c := s6.c.(locked := false, dirty := false));
    Extend(conf, steps, states, Unlock, s7);
    steps, states := steps + [Unlock], states + [s7];
    assert s7.c.elems[v] == Elem(enr, enr, 1) && Extent(1024 * enr) == enr;
    var s8 := s7.(memory := s7.memory + {1024 * enr});
    Extend(conf, steps, states, SetBits({1024 * enr}), s8);
    steps, states := steps + [SetBits({1024 * enr})], states + [s8];
  }
}
