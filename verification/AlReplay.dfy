/** Finding the oldest and the newest block of the ring and replaying between them. */
module AlReplay {
  import opened Wrappers
  import opened Arith
  import opened AlRing

  /** The last transaction before number count that was written to ring place p. */
  function Latest(conf: Conf, count: nat, p: nat): (r: Option<nat>)
    requires conf.Blocks() > 0
    ensures r.Some? ==> r.value < count && conf.Place(r.value) == p
  {
    if count == 0 then None
    else if conf.Place(count - 1) == p then Some(count - 1)
    else Latest(conf, count - 1, p)
  }

  /** The transaction that can be read at place p after count transactions; with torn, the write of
      the next one has begun and its block is unreadable. */
  function Tenant(conf: Conf, count: nat, torn: bool, p: nat): (r: Option<nat>)
    requires conf.Blocks() > 0
    ensures r.Some? ==> r.value < count && conf.Place(r.value) == p
  {
    if torn && p == conf.Place(count) then None else Latest(conf, count, p)
  }

  function Expected(conf: Conf, hist: seq<Block>, torn: bool, p: nat): DiskBlock
    requires conf.Blocks() > 0
  {
    if torn && p == conf.Place(|hist|) then Torn
    else
      match Latest(conf, |hist|, p)
      case None => Initialized
      case Some(t) => Written(hist[t])
  }

  predicate RingHolds(conf: Conf, disk: seq<DiskBlock>, hist: seq<Block>, torn: bool)
    requires conf.Valid()
  {
    && |disk| == conf.Blocks()
    && (forall p :: 0 <= p < conf.Blocks() ==> At(conf, disk, p) == Expected(conf, hist, torn, p))
  }

  /** The block at ring place p, wherever striping puts it. */
  function At(conf: Conf, disk: seq<DiskBlock>, p: nat): DiskBlock
    requires conf.Valid() && |disk| == conf.Blocks() && p < conf.Blocks()
  {
    StripeBijection(p, conf.stripes, conf.stripeSize);
    disk[Stripe(p, conf.stripes, conf.stripeSize)]
  }

  /** Writing one block changes one place of the ring and no other. */
  lemma {:induction false} WriteAt(conf: Conf, disk: seq<DiskBlock>, q: nat, b: DiskBlock, p: nat)
    requires conf.Valid() && |disk| == conf.Blocks() && p < conf.Blocks() && q < conf.Blocks()
    ensures Stripe(q, conf.stripes, conf.stripeSize) < |disk|
    ensures At(conf, disk[Stripe(q, conf.stripes, conf.stripeSize) := b], p) == if p == q then b else At(conf, disk, p)
  {
    StripeBijection(p, conf.stripes, conf.stripeSize);
    StripeBijection(q, conf.stripes, conf.stripeSize);
  }

  // ----- how old a tenant can be -----

  /** Between two wraps of the counter, places follow one another. */
  lemma {:induction false} PlaceFrom(conf: Conf, base: nat, t: nat)
    requires conf.Blocks() > 0 && base % U32 == 0 && base <= t < base + U32
    ensures conf.Place(t) == (t - base) % conf.Blocks()
  {
    assert base == (base / U32) * U32;
    DivModUnique(base / U32, U32, t - base);
  }

  lemma {:induction false} LatestAfter(conf: Conf, count: nat, t: nat)
    requires conf.Blocks() > 0 && t < count
    ensures var r := Latest(conf, count, conf.Place(t)); r.Some? && r.value >= t
  {
    if conf.Place(count - 1) != conf.Place(t) { LatestAfter(conf, count - 1, t); }
  }

  /** A stretch of n transactions without a wrap visits every place. */
  lemma {:induction false} Visited(conf: Conf, base: nat, from: nat, p: nat) returns (t: nat)
    requires conf.Blocks() > 0 && base % U32 == 0 && base <= from && from + conf.Blocks() <= base + U32
    requires p < conf.Blocks()
    ensures from <= t < from + conf.Blocks() && conf.Place(t) == p
  {
    var j := ModHit(from - base, conf.Blocks(), p);
    t := base + j;
    PlaceFrom(conf, base, t);
  }

  /** ... and among any 2n transactions there is such a stretch. */
  lemma {:induction false} VisitedTwice(conf: Conf, from: nat, p: nat) returns (t: nat)
    requires conf.Valid() && p < conf.Blocks()
    ensures from <= t < from + 2 * conf.Blocks() && conf.Place(t) == p
  {
    var base := from - from % U32;
    assert base == (from / U32) * U32;
    DivModUnique(from / U32, U32, 0);
    if from + conf.Blocks() <= base + U32 {
      t := Visited(conf, base, from, p);
    } else {
      DivModUnique(from / U32 + 1, U32, 0);
      t := Visited(conf, base + U32, base + U32, p);
    }
  }

  lemma {:induction false} LatestRecent(conf: Conf, count: nat, p: nat)
    requires conf.Valid() && p < conf.Blocks() && Latest(conf, count, p).Some?
    ensures count <= Latest(conf, count, p).value + 2 * conf.Blocks()
  {
    var n := conf.Blocks();
    if count > 2 * n {
      var t := VisitedTwice(conf, count - 2 * n, p);
      LatestAfter(conf, count, t);
    }
  }

  // ----- the specification of the replay -----

  /** The places of the oldest and of the newest tenant among the first b places. */
  function Extremes(conf: Conf, count: nat, torn: bool, b: nat): (r: Option<(nat, nat)>)
    requires conf.Blocks() > 0
    ensures r.Some? ==> r.value.0 < b && Tenant(conf, count, torn, r.value.0).Some?
    ensures r.Some? ==> r.value.1 < b && Tenant(conf, count, torn, r.value.1).Some?
  {
    if b == 0 then None
    else
      var before, t := Extremes(conf, count, torn, b - 1), Tenant(conf, count, torn, b - 1);
      if t.None? then before
      else if before.None? then Some((b - 1, b - 1))
      else
        var (o, w) := before.value;
        Some((if t.value < Tenant(conf, count, torn, o).value then b - 1 else o,
              if t.value > Tenant(conf, count, torn, w).value then b - 1 else w))
  }

  predicate Oldest(conf: Conf, count: nat, torn: bool, b: nat, p: nat)
    requires conf.Blocks() > 0
  {
    && p < b && Tenant(conf, count, torn, p).Some?
    && forall q :: 0 <= q < b && Tenant(conf, count, torn, q).Some? ==>
         Tenant(conf, count, torn, p).value <= Tenant(conf, count, torn, q).value
  }

  predicate Newest(conf: Conf, count: nat, torn: bool, b: nat, p: nat)
    requires conf.Blocks() > 0
  {
    && p < b && Tenant(conf, count, torn, p).Some?
    && forall q :: 0 <= q < b && Tenant(conf, count, torn, q).Some? ==>
         Tenant(conf, count, torn, q).value <= Tenant(conf, count, torn, p).value
  }

  lemma {:induction false} NoExtremes(conf: Conf, count: nat, torn: bool, b: nat)
    requires conf.Blocks() > 0 && Extremes(conf, count, torn, b).None?
    ensures forall q :: 0 <= q < b ==> Tenant(conf, count, torn, q).None?
  {
    if b > 0 { NoExtremes(conf, count, torn, b - 1); }
  }

  lemma {:induction false} OldestIs(conf: Conf, count: nat, torn: bool, b: nat)
    requires conf.Blocks() > 0 && Extremes(conf, count, torn, b).Some?
    ensures Oldest(conf, count, torn, b, Extremes(conf, count, torn, b).value.0)
  {
    if Extremes(conf, count, torn, b - 1).Some? {
      OldestIs(conf, count, torn, b - 1);
    } else {
      NoExtremes(conf, count, torn, b - 1);
    }
  }

  lemma {:induction false} NewestIs(conf: Conf, count: nat, torn: bool, b: nat)
    requires conf.Blocks() > 0 && Extremes(conf, count, torn, b).Some?
    ensures Newest(conf, count, torn, b, Extremes(conf, count, torn, b).value.1)
  {
    if Extremes(conf, count, torn, b - 1).Some? {
      NewestIs(conf, count, torn, b - 1);
    } else {
      NoExtremes(conf, count, torn, b - 1);
    }
  }

  /** Applying the readable blocks at k places, starting at place o and going round. */
  function Walk(conf: Conf, hist: seq<Block>, torn: bool, o: nat, k: nat): (r: Table)
    requires conf.Blocks() > 0
    ensures |r| == conf.slots
  {
    if k == 0 then FreeTable(conf.slots)
    else
      AtPlace(conf, hist, torn, (o + k - 1) % conf.Blocks(), Walk(conf, hist, torn, o, k - 1))
  }

  function AtPlace(conf: Conf, hist: seq<Block>, torn: bool, p: nat, before: Table): (r: Table)
    requires conf.Blocks() > 0
    ensures |r| == |before|
  {
    match Tenant(conf, |hist|, torn, p)
    case None => before
    case Some(t) => ApplyBlock(before, hist[t])
  }

  /** How many places there are from o to w, both included. */
  function Span(o: nat, w: nat, n: nat): nat
    requires o < n
  {
    if w < o then w + n - o + 1 else w - o + 1
  }

  /** The table that replaying the ring gives, from the history that the ring was written with. */
  function ReplayOf(conf: Conf, hist: seq<Block>, torn: bool): (r: Table)
    requires conf.Blocks() > 0
    ensures |r| == conf.slots
  {
    match Extremes(conf, |hist|, torn, conf.Blocks())
    case None => FreeTable(conf.slots)
    case Some(ow) => Walk(conf, hist, torn, ow.0, Span(ow.0, ow.1, conf.Blocks()))
  }

  // ----- the code -----

  /** (int)x - (int)y on 32-bit transaction numbers */
  function SignedDiff(x: nat, y: nat): int {
    (x - y + 0x8000_0000) % U32 - 0x8000_0000
  }

  lemma {:induction false} SignedDiffIsDistance(t: nat, u: nat)
    requires -0x8000_0000 <= t - u < 0x8000_0000
    ensures SignedDiff(t % U32, u % U32) == t - u
  {
    var k := t / U32 - u / U32;
    assert t % U32 - u % U32 + 0x8000_0000 == -k * U32 + (t - u + 0x8000_0000);
    DivModUnique(-k, U32, t - u + 0x8000_0000);
  }

  /** Some transaction that may be in the ring. */
  predicate Recent(conf: Conf, count: nat, t: nat) { t < count <= t + 2 * conf.Blocks() }

  lemma {:induction false} Compared(conf: Conf, count: nat, t: nat, u: nat)
    requires conf.Valid() && Recent(conf, count, t) && Recent(conf, count, u)
    ensures SignedDiff(t % U32, u % U32) == t - u
  {
    SignedDiffIsDistance(t, u);
  }

  /** Reading place p. */
  method Read(conf: Conf, disk: seq<DiskBlock>, ghost hist: seq<Block>, ghost torn: bool, p: nat) returns (d: DiskBlock)
    requires conf.Valid() && WellLogged(conf, hist) && RingHolds(conf, disk, hist, torn) && p < conf.Blocks()
    ensures d.Written? <==> Tenant(conf, |hist|, torn, p).Some?
    ensures d.Written? ==>
      var t := Tenant(conf, |hist|, torn, p).value;
      d.block == hist[t] && d.block.tr == t % U32 && Recent(conf, |hist|, t)
  {
    d := At(conf, disk, p);
    assert d == Expected(conf, hist, torn, p);
    if d.Written? {
      LatestRecent(conf, |hist|, p);
      assert Logged(conf, hist, Latest(conf, |hist|, p).value);
    }
  }

  /** Transaction number tr was read at place p. */
  ghost predicate Cursor(conf: Conf, count: nat, torn: bool, p: nat, tr: nat)
    requires conf.Blocks() > 0
  {
    var t := Tenant(conf, count, torn, p);
    t.Some? && tr == t.value % U32 && Recent(conf, count, t.value)
  }

  /** The first loop of replay_al_84: the extreme transaction numbers among readable blocks. */
  method FindRange(conf: Conf, disk: seq<DiskBlock>, ghost hist: seq<Block>, ghost torn: bool)
    returns (found: nat, oldest: nat, newest: nat)
    requires conf.Valid() && WellLogged(conf, hist) && RingHolds(conf, disk, hist, torn)
    ensures (found > 0) == Extremes(conf, |hist|, torn, conf.Blocks()).Some?
    ensures found > 0 ==> Extremes(conf, |hist|, torn, conf.Blocks()) == Some((oldest, newest))
  {
    var n := conf.Blocks();
    found, oldest, newest := 0, 0, 0;
    var oldestTr, newestTr := 0, 0;
    var b := 0;
    while b < n
      invariant 0 <= b <= n
      invariant (found > 0) == Extremes(conf, |hist|, torn, b).Some?
      invariant found > 0 ==> Extremes(conf, |hist|, torn, b) == Some((oldest, newest))
      invariant found > 0 ==>
        Cursor(conf, |hist|, torn, oldest, oldestTr) && Cursor(conf, |hist|, torn, newest, newestTr)
    {
      var d := Read(conf, disk, hist, torn, b);
      if d.Written? {
        found := found + 1;
        if found == 1 {
          oldest, oldestTr, newest, newestTr := b, d.block.tr, b, d.block.tr;
        } else {
          ghost var t := Tenant(conf, |hist|, torn, b).value;
          Compared(conf, |hist|, t, Tenant(conf, |hist|, torn, oldest).value);
          Compared(conf, |hist|, t, Tenant(conf, |hist|, torn, newest).value);
          if SignedDiff(d.block.tr, oldestTr) < 0 {
            oldest, oldestTr := b, d.block.tr;
          }
          if SignedDiff(d.block.tr, newestTr) > 0 {
            newest, newestTr := b, d.block.tr;
          }
        }
      }
      b := b + 1;
    }
  }

  /** The body of its second loop */
  method ReplayBlock(conf: Conf, disk: seq<DiskBlock>, ghost hist: seq<Block>, ghost torn: bool, p: nat, before: Table)
    returns (hot: Table)
    requires conf.Valid() && WellLogged(conf, hist) && RingHolds(conf, disk, hist, torn) && p < conf.Blocks()
    ensures hot == AtPlace(conf, hist, torn, p, before)
  {
    hot := before;
    var d := Read(conf, disk, hist, torn, p);
    if d.Written? {
      hot := ApplyBlock(hot, d.block);
    }
  }

  /** The second loop of replay_al_84, from one place to another */
  method ReplayFrom(conf: Conf, disk: seq<DiskBlock>, ghost hist: seq<Block>, ghost torn: bool, oldest: nat,
      newest: nat)
    returns (hot: Table)
    requires conf.Valid() && WellLogged(conf, hist) && RingHolds(conf, disk, hist, torn) && oldest <= newest + 1
    ensures hot == Walk(conf, hist, torn, oldest, newest + 1 - oldest)
  {
    hot := FreeTable(conf.slots);
    var b := oldest;
    while b <= newest
      invariant oldest <= b <= newest + 1
      invariant hot == Walk(conf, hist, torn, oldest, b - oldest)
    {
      ghost var k := b - oldest;
      hot := ReplayBlock(conf, disk, hist, torn, b % conf.Blocks(), hot);
      assert hot == Walk(conf, hist, torn, oldest, k + 1);
      b := b + 1;
    }
  }

  /** replay_al_84: after any number of transactions, with the next block torn or not. */
  method Replay(conf: Conf, disk: seq<DiskBlock>, ghost hist: seq<Block>, ghost torn: bool) returns (hot: Table)
    requires conf.Valid() && WellLogged(conf, hist) && RingHolds(conf, disk, hist, torn)
    ensures hot == ReplayOf(conf, hist, torn)
  {
    var found, oldest, newest := FindRange(conf, disk, hist, torn);
    if found == 0 {
      return FreeTable(conf.slots);
    }
    if newest < oldest {
      newest := newest + conf.Blocks();
    }
    hot := ReplayFrom(conf, disk, hist, torn, oldest, newest);
  }
}
