/** The activity log on disk: a ring of transaction blocks, each carrying the label changes of
    one transaction and a rotating window of the labels before it, and the replay that
    drbdmeta runs over the ring after a crash. */
module AlRing {
  import opened Arith
  import opened Lru

  /** AL_CONTEXT_PER_TRANSACTION, AL_UPDATES_PER_TRANSACTION, DRBD_AL_EXTENTS_MIN, DRBD_AL_EXTENTS_MAX */
  const CONTEXT: nat := 919
  const UPDATES: nat := 64
  const EXTENTS_MIN: nat := 7
  const EXTENTS_MAX: nat := 0xfffe
  /** al_tr_number and the tr_number on disk are 32 bits wide. */
  const U32: nat := 0x1_0000_0000

  type Table = seq<nat>

  /** A block with good magic and checksum.  The padding of both arrays is left away. */
  datatype Block = Block(tr: nat, updates: seq<(nat, nat)>, start: nat, context: seq<nat>)

  datatype DiskBlock = Initialized | Torn | Written(block: Block)

  /** al_stripes, al_stripe_size_4k and the number of slots. */
  datatype Conf = Conf(stripes: nat, stripeSize: nat, slots: nat) {
    function Blocks(): nat { stripes * stripeSize }

    predicate Valid() {
      && stripes > 0 && stripeSize > 0
      && 2 <= Blocks() <= 0x4000_0000
      && EXTENTS_MIN <= slots <= AlExtentsMax(Blocks())
    }

    /** How many transactions it takes to write every slot once as context. */
    function Rounds(): nat { (slots + CONTEXT - 1) / CONTEXT }

    /** The place of a transaction in the ring, from its 32-bit number. */
    function Place(t: nat): (p: nat)
      requires Blocks() > 0
      ensures p < Blocks()
    {
      t % U32 % Blocks()
    }

    /** al_tr_number_to_on_disk_sector, in 4k blocks from the start of the log */
    function OnDisk(t: nat): nat
      requires Blocks() > 0 && stripes > 0
    {
      Stripe(Place(t), stripes, stripeSize)
    }
  }

  /** drbd_al_extents_max */
  function AlExtentsMax(blocks: nat): nat {
    var sufficient := (EXTENTS_MAX + CONTEXT - 1) / CONTEXT;
    if blocks > sufficient then EXTENTS_MAX
    else if blocks == 0 then 0
    else (blocks - 1) * CONTEXT
  }

  function Stripe(p: nat, stripes: nat, stripeSize: nat): nat
    requires stripes > 0
  {
    (p % stripes) * stripeSize + p / stripes
  }

  function Unstripe(x: nat, stripes: nat, stripeSize: nat): nat
    requires stripeSize > 0
  {
    (x % stripeSize) * stripes + x / stripeSize
  }

  /** Striping is a bijection on the ring: the inverse is explicit. */
  lemma {:induction false} StripeBijection(p: nat, stripes: nat, stripeSize: nat)
    requires stripes > 0 && stripeSize > 0 && p < stripes * stripeSize
    ensures Stripe(p, stripes, stripeSize) < stripes * stripeSize
    ensures Unstripe(Stripe(p, stripes, stripeSize), stripes, stripeSize) == p
  {
    var q, r := p / stripes, p % stripes;
    DivBound(p, stripes, stripeSize);
    assert p == q * stripes + r by { assert p == (p / stripes) * stripes + p % stripes; }
    DivModUnique(r, stripeSize, q);
    MulBound(stripes - r, stripeSize);
    assert (stripes - r) * stripeSize == stripes * stripeSize - r * stripeSize;
  }

  /** The limit on al-extents leaves room for one lost block: all slots fit the context of the others. */
  lemma {:induction false} ExtentsFit(conf: Conf)
    requires conf.Valid()
    ensures 0 < conf.Rounds() <= conf.Blocks() - 1
  {}

  /** ... and it leaves out none that would fit, up to the largest number of extents there may be. */
  lemma {:induction false} ExtentsTight(blocks: nat, slots: nat)
    requires blocks > 0
    ensures slots <= AlExtentsMax(blocks) <==> slots <= EXTENTS_MAX && slots <= (blocks - 1) * CONTEXT
  {}

  predicate Collide(conf: Conf, t: nat, d: nat)
    requires conf.Blocks() > 0 && conf.stripes > 0
  {
    conf.OnDisk(t) == conf.OnDisk(t + d)
  }

  lemma {:induction false} NoCollision(conf: Conf, t: nat, d: nat)
    requires conf.stripes > 0 && conf.stripeSize > 0 && 0 < d < conf.Blocks() && U32 % conf.Blocks() == 0
    ensures !Collide(conf, t, d)
  {
    var n := conf.Blocks();
    ModMod(t, U32, n);
    ModMod(t + d, U32, n);
    ModDistinct(t, t + d, n);
    StripeBijection(t % n, conf.stripes, conf.stripeSize);
    StripeBijection((t + d) % n, conf.stripes, conf.stripeSize);
  }

  /** The last block before the wrap shares its place with a block written less than one round later. */
  lemma {:induction false} WrapCollides(conf: Conf) returns (d: nat)
    requires conf.stripes > 0 && conf.stripeSize > 0 && conf.Blocks() >= 2 && U32 % conf.Blocks() != 0
    ensures 0 < d < conf.Blocks() && Collide(conf, U32 - 1, d)
  {
    var n := conf.Blocks();
    d := WrapDistance(n);
    var r := d - 1;
    DivModUnique(0, U32, U32 - 1);
    DivModUnique(1, U32, r);
    DivModUnique(0, n, r);
    assert U32 - 1 + d == 1 * U32 + r;
  }

  lemma {:induction false} WrapDistance(n: nat) returns (d: nat)
    requires n >= 2 && U32 % n != 0
    ensures 0 < d < n && d - 1 == (U32 - 1) % n && d - 1 < U32
  {
    var q, r := (U32 - 1) / n, (U32 - 1) % n;
    assert U32 - 1 == q * n + r;
    assert q * n >= 0;
    assert r != n - 1 by {
      DivModUnique(q + 1, n, 0);
      assert (q + 1) * n == q * n + n;
    }
    d := r + 1;
  }

  /** Any n consecutive transactions occupy n different blocks, for every counter value,
      if and only if the ring size divides 2^32. */
  lemma {:induction false} RingPositions(conf: Conf)
    requires conf.stripes > 0 && conf.stripeSize > 0 && conf.Blocks() >= 2
    ensures (forall t: nat, d: nat :: 0 < d < conf.Blocks() ==> !Collide(conf, t, d)) <==> U32 % conf.Blocks() == 0
  {
    if U32 % conf.Blocks() == 0 {
      forall t: nat, d: nat | 0 < d < conf.Blocks() ensures !Collide(conf, t, d) {
        NoCollision(conf, t, d);
      }
    } else {
      var d := WrapCollides(conf);
    }
  }

  // ----- tables, blocks and replay -----

  function FreeTable(n: nat): Table { seq(n, _ => FREE) }

  function ApplyUpdates(tbl: Table, u: seq<(nat, nat)>): (r: Table)
    ensures |r| == |tbl|
    decreases |u|
  {
    if u == [] then tbl
    else ApplyUpdates(if u[0].0 < |tbl| then tbl[u[0].0 := u[0].1] else tbl, u[1..])
  }

  function ApplyContext(tbl: Table, start: nat, context: seq<nat>): (r: Table)
    ensures |r| == |tbl|
  {
    seq(|tbl|, i requires 0 <= i < |tbl| => if start <= i < start + |context| then context[i - start] else tbl[i])
  }

  /** The body of the replay loop: the context first, then the updates. */
  function ApplyBlock(tbl: Table, b: Block): (r: Table)
    ensures |r| == |tbl|
  {
    ApplyUpdates(ApplyContext(tbl, b.start, b.context), b.updates)
  }

  /** The slot-to-extent table after the first t transactions. */
  function TableAt(hist: seq<Block>, slots: nat, t: nat): (r: Table)
    requires t <= |hist|
    ensures |r| == slots
  {
    if t == 0 then FreeTable(slots) else ApplyUpdates(TableAt(hist, slots, t - 1), hist[t - 1].updates)
  }

  /** What replaying transactions lo, ..., t-1 makes of a table. */
  function ReplayRange(hist: seq<Block>, tbl: Table, lo: nat, t: nat): (r: Table)
    requires lo <= t <= |hist|
    ensures |r| == |tbl|
    decreases t - lo
  {
    if t == lo then tbl else ApplyBlock(ReplayRange(hist, tbl, lo, t - 1), hist[t - 1])
  }

  /** Block t is what _al_write_transaction builds as transaction number t. */
  predicate Logged(conf: Conf, hist: seq<Block>, t: nat)
    requires t < |hist| && conf.slots > 0
  {
    var b, start := hist[t], CONTEXT * (t % conf.Rounds());
    && b.tr == t % U32
    && 0 < |b.updates| <= UPDATES
    && b.start == start < conf.slots
    && b.context == TableAt(hist, conf.slots, t)
        [start..(if start + CONTEXT < conf.slots then start + CONTEXT else conf.slots)]
  }

  predicate WellLogged(conf: Conf, hist: seq<Block>)
    requires conf.slots > 0
  {
    forall t :: 0 <= t < |hist| ==> Logged(conf, hist, t)
  }

  /** Updates settle the slots they name and leave the others alone. */
  lemma {:induction false} UpdatesAgree(x: Table, y: Table, u: seq<(nat, nat)>, s: nat)
    requires |x| == |y| && s < |x| && x[s] == y[s]
    ensures ApplyUpdates(x, u)[s] == ApplyUpdates(y, u)[s]
    decreases |u|
  {
    if u != [] {
      var k := u[0].0;
      if k < |x| {
        UpdatesAgree(x[k := u[0].1], y[k := u[0].1], u[1..], s);
      } else {
        UpdatesAgree(x, y, u[1..], s);
      }
    }
  }

  /** Once a context has covered slot s, or if nothing is missing, the replay agrees with the table. */
  lemma {:induction false} ReplaySlot(conf: Conf, hist: seq<Block>, tbl: Table, lo: nat, j: nat, t: nat, s: nat)
    requires conf.slots > 0 && WellLogged(conf, hist) && s < conf.slots == |tbl|
    requires lo <= j <= t <= |hist|
    requires (lo == j == 0 && tbl == FreeTable(conf.slots)) || (lo <= j < t && j % conf.Rounds() == s / CONTEXT)
    ensures ReplayRange(hist, tbl, lo, t)[s] == TableAt(hist, conf.slots, t)[s]
    decreases t - j
  {
    if t > 0 {
      var before, b := ReplayRange(hist, tbl, lo, t - 1), hist[t - 1];
      var now := TableAt(hist, conf.slots, t - 1);
      assert Logged(conf, hist, t - 1);
      if !(t - 1 == j && j % conf.Rounds() == s / CONTEXT) {
        ReplaySlot(conf, hist, tbl, lo, j, t - 1, s);
      }
      UpdatesAgree(ApplyContext(before, b.start, b.context), now, b.updates, s);
    }
  }

  /** Replaying all transactions, or enough of the latest ones on whatever table, rebuilds the
      table exactly. */
  lemma {:induction false} ReplayExact(conf: Conf, hist: seq<Block>, tbl: Table, lo: nat)
    requires conf.Valid() && WellLogged(conf, hist) && lo <= |hist| && |tbl| == conf.slots
    requires (lo == 0 && tbl == FreeTable(conf.slots)) || |hist| - lo >= conf.Rounds()
    ensures ReplayRange(hist, tbl, lo, |hist|) == TableAt(hist, conf.slots, |hist|)
  {
    ExtentsFit(conf);
    forall s | 0 <= s < conf.slots
      ensures ReplayRange(hist, tbl, lo, |hist|)[s] == TableAt(hist, conf.slots, |hist|)[s]
    {
      if lo == 0 && tbl == FreeTable(conf.slots) {
        ReplaySlot(conf, hist, tbl, 0, 0, |hist|, s);
      } else {
        var j := ModHit(lo, conf.Rounds(), s / CONTEXT);
        ReplaySlot(conf, hist, tbl, lo, j, |hist|, s);
      }
    }
  }

  lemma {:induction false} TablePrefix(hist: seq<Block>, b: Block, slots: nat, t: nat)
    requires t <= |hist|
    ensures TableAt(hist + [b], slots, t) == TableAt(hist, slots, t)
  {
    if t > 0 { TablePrefix(hist, b, slots, t - 1); }
  }
}
