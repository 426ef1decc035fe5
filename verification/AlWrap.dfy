/** The activity log after its 32-bit transaction counter has wrapped: exactly when replaying the
    ring still gives the table of the last complete transaction. */
module AlWrap {
  import opened Wrappers
  import opened Arith
  import opened Lru
  import opened AlRing
  import opened AlReplay

  /** The ring size divides 2^32, or the counter has not wrapped, or since the last wrap every slot
      was written once as context, or the counter is at a wrap and either no write has begun or
      the place it tears lies far enough back. */
  predicate Replayable(conf: Conf, count: nat, torn: bool)
    requires conf.Blocks() > 0
  {
    var rest, since := U32 % conf.Blocks(), count % U32;
    rest == 0 || count < U32 || since >= conf.Rounds() || (since == 0 && (!torn || rest > conf.Rounds()))
  }

  // ----- when it does -----

  /** Transaction t can be read, as many places after transaction lo as it was written after it. */
  predicate Follows(conf: Conf, count: nat, torn: bool, lo: nat, t: nat)
    requires conf.Blocks() > 0 && lo <= t
  {
    Tenant(conf, count, torn, conf.Place(t)) == Some(t) && conf.Place(t) == (conf.Place(lo) + (t - lo)) % conf.Blocks()
  }

  predicate Tail(conf: Conf, count: nat, torn: bool, lo: nat)
    requires conf.Blocks() > 0
  {
    lo < count <= lo + conf.Blocks() && forall t :: lo <= t < count ==> Follows(conf, count, torn, lo, t)
  }

  lemma {:induction false} TailEnds(conf: Conf, count: nat, torn: bool, lo: nat) returns (o: nat, w: nat)
    requires conf.Blocks() > 0 && Tail(conf, count, torn, lo)
    ensures Extremes(conf, count, torn, conf.Blocks()) == Some((o, w)) && o < conf.Blocks()
    ensures w == conf.Place(count - 1)
    ensures Tenant(conf, count, torn, o).Some? && Tenant(conf, count, torn, o).value <= lo
  {
    var n := conf.Blocks();
    assert Follows(conf, count, torn, lo, lo) && Follows(conf, count, torn, lo, count - 1);
    if Extremes(conf, count, torn, n).None? { NoExtremes(conf, count, torn, n); }
    OldestIs(conf, count, torn, n);
    NewestIs(conf, count, torn, n);
    o, w := Extremes(conf, count, torn, n).value.0, Extremes(conf, count, torn, n).value.1;
  }

  lemma {:induction false} SpanMod(o: nat, w: nat, n: nat)
    requires o < n && w < n
    ensures 1 <= Span(o, w, n) <= n && (o + Span(o, w, n) - 1) % n == w
  {
    DivModUnique(0, n, w);
    DivModUnique(1, n, w);
  }

  /** The walk is long enough to end with the whole tail, and is the tail if it begins there. */
  lemma {:induction false} SpanCovers(conf: Conf, count: nat, torn: bool, lo: nat, o: nat, w: nat)
    requires conf.Blocks() > 0 && Tail(conf, count, torn, lo) && o < conf.Blocks() && w == conf.Place(count - 1)
    requires Tenant(conf, count, torn, o).Some? && Tenant(conf, count, torn, o).value <= lo
    ensures Span(o, w, conf.Blocks()) >= count - lo
    ensures o == conf.Place(lo) ==> Span(o, w, conf.Blocks()) == count - lo
  {
    var n, a, l := conf.Blocks(), conf.Place(lo), count - lo;
    var k := Span(o, w, n);
    SpanMod(o, w, n);
    assert Follows(conf, count, torn, lo, count - 1);
    if k < l {
      assert Follows(conf, count, torn, lo, count - k);
      ModCancel(a + (l - k), o, k - 1, n);
      DivModUnique(0, n, o);
    }
    if o == a && k > l { ModDistinct(a + l - 1, a + k - 1, n); }
  }

  lemma {:induction false} TailPlaces(conf: Conf, count: nat, torn: bool, lo: nat, o: nat, w: nat, i: nat)
    requires conf.Blocks() > 0 && Tail(conf, count, torn, lo) && o < conf.Blocks() && w == conf.Place(count - 1)
    requires Span(o, w, conf.Blocks()) >= count - lo > i
    ensures Tenant(conf, count, torn, (o + Span(o, w, conf.Blocks()) - (count - lo) + i) % conf.Blocks()) ==
      Some(lo + i)
  {
    var n, a, l := conf.Blocks(), conf.Place(lo), count - lo;
    var k := Span(o, w, n);
    SpanMod(o, w, n);
    assert Follows(conf, count, torn, lo, count - 1) && Follows(conf, count, torn, lo, lo + i);
    ModCancel(o + k - l + i, a + i, l - 1 - i, n);
  }

  /** The i-th place from p on holds transaction lo + i. */
  predicate Lies(conf: Conf, count: nat, torn: bool, p: nat, lo: nat, i: nat)
    requires conf.Blocks() > 0
  {
    Tenant(conf, count, torn, (p + i) % conf.Blocks()) == Some(lo + i)
  }

  lemma {:induction false} WalkTail(conf: Conf, hist: seq<Block>, torn: bool, o: nat, k: nat, p: nat, lo: nat, l: nat)
    requires conf.Blocks() > 0 && lo + l <= |hist| && p == o + k
    requires forall i :: 0 <= i < l ==> Lies(conf, |hist|, torn, p, lo, i)
    ensures Walk(conf, hist, torn, o, k + l) == ReplayRange(hist, Walk(conf, hist, torn, o, k), lo, lo + l)
    decreases l
  {
    if l > 0 {
      WalkTail(conf, hist, torn, o, k, p, lo, l - 1);
      assert Lies(conf, |hist|, torn, p, lo, l - 1);
      assert p + (l - 1) == o + (k + l) - 1;
    }
  }

  /** The walk ends with the tail. */
  lemma {:induction false} TailLies(conf: Conf, count: nat, torn: bool, lo: nat) returns (o: nat, w: nat, k: nat)
    requires conf.Blocks() > 0 && Tail(conf, count, torn, lo)
    ensures Extremes(conf, count, torn, conf.Blocks()) == Some((o, w)) && o < conf.Blocks()
    ensures Span(o, w, conf.Blocks()) == k + (count - lo) && (lo == 0 ==> k == 0)
    ensures var p := o + k; forall i :: 0 <= i < count - lo ==> Lies(conf, count, torn, p, lo, i)
  {
    o, w := TailEnds(conf, count, torn, lo);
    SpanCovers(conf, count, torn, lo, o, w);
    k := Span(o, w, conf.Blocks()) - (count - lo);
    var p := o + k;
    forall i | 0 <= i < count - lo ensures Lies(conf, count, torn, p, lo, i) {
      TailPlaces(conf, count, torn, lo, o, w, i);
    }
  }

  lemma {:induction false} ReplayIsWalk(conf: Conf, hist: seq<Block>, torn: bool, o: nat, w: nat, k: nat)
    requires conf.Blocks() > 0 && o < conf.Blocks() && k == Span(o, w, conf.Blocks())
    requires Extremes(conf, |hist|, torn, conf.Blocks()) == Some((o, w))
    ensures ReplayOf(conf, hist, torn) == Walk(conf, hist, torn, o, k)
  {}

  lemma {:induction false} EndsWithTail(conf: Conf, hist: seq<Block>, torn: bool, lo: nat) returns (o: nat, k: nat)
    requires conf.Blocks() > 0 && Tail(conf, |hist|, torn, lo)
    ensures lo == 0 ==> k == 0
    ensures ReplayOf(conf, hist, torn) == ReplayRange(hist, Walk(conf, hist, torn, o, k), lo, |hist|)
  {
    var w;
    o, w, k := TailLies(conf, |hist|, torn, lo);
    var l := |hist| - lo;
    var all := Walk(conf, hist, torn, o, k + l);
    assert ReplayOf(conf, hist, torn) == all by { ReplayIsWalk(conf, hist, torn, o, w, k + l); }
    assert all == ReplayRange(hist, Walk(conf, hist, torn, o, k), lo, lo + l) by {
      WalkTail(conf, hist, torn, o, k, o + k, lo, l);
    }
  }

  lemma {:induction false} TailSuffices(conf: Conf, hist: seq<Block>, torn: bool, lo: nat)
    requires conf.Valid() && WellLogged(conf, hist) && Tail(conf, |hist|, torn, lo)
    requires lo == 0 || |hist| - lo >= conf.Rounds()
    ensures ReplayOf(conf, hist, torn) == TableAt(hist, conf.slots, |hist|)
  {
    var o, k := EndsWithTail(conf, hist, torn, lo);
    ReplayExact(conf, hist, Walk(conf, hist, torn, o, k), lo);
  }

  // ----- which transactions make up a tail -----

  lemma {:induction false} LatestIs(conf: Conf, count: nat, t: nat)
    requires conf.Blocks() > 0 && t < count && forall u :: t < u < count ==> conf.Place(u) != conf.Place(t)
    ensures Latest(conf, count, conf.Place(t)) == Some(t)
  {
    if t < count - 1 { LatestIs(conf, count - 1, t); }
  }

  lemma {:induction false} StraightTail(conf: Conf, count: nat, torn: bool, base: nat, lo: nat)
    requires conf.Blocks() > 0 && base <= lo < count <= lo + conf.Blocks()
    requires forall t :: lo <= t < count ==> conf.Place(t) == (t - base) % conf.Blocks()
    requires torn ==> forall t :: lo <= t < count ==> conf.Place(t) != conf.Place(count)
    ensures Tail(conf, count, torn, lo)
  {
    var n := conf.Blocks();
    forall t | lo <= t < count ensures Follows(conf, count, torn, lo, t) {
      forall u | t < u < count ensures conf.Place(u) != conf.Place(t) { ModDistinct(t - base, u - base, n); }
      LatestIs(conf, count, t);
      ModShift(lo - base, t - lo, n);
    }
  }

  lemma {:induction false} UntornTail(conf: Conf, count: nat, torn: bool, base: nat, lo: nat)
    requires conf.Blocks() > 0 && base <= lo < count < lo + conf.Blocks()
    requires forall t :: lo <= t <= count ==> conf.Place(t) == (t - base) % conf.Blocks()
    ensures Tail(conf, count, torn, lo)
  {
    forall t | lo <= t < count ensures conf.Place(t) != conf.Place(count) {
      ModDistinct(t - base, count - base, conf.Blocks());
    }
    StraightTail(conf, count, torn, base, lo);
  }

  /** The last time the counter was zero. */
  function WrapAt(count: nat): (q: nat)
    ensures q % U32 == 0 && q <= count < q + U32
  {
    DivModUnique(count / U32, U32, 0);
    count - count % U32
  }

  lemma {:induction false} NeverWrapped(conf: Conf, hist: seq<Block>, torn: bool)
    requires conf.Valid() && WellLogged(conf, hist) && hist != []
    requires U32 % conf.Blocks() == 0 || |hist| < U32
    ensures ReplayOf(conf, hist, torn) == TableAt(hist, conf.slots, |hist|)
  {
    ExtentsFit(conf);
    var n := conf.Blocks();
    var lo := if |hist| < n then 0 else |hist| - (n - 1);
    forall t | lo <= t <= |hist| ensures conf.Place(t) == (t - 0) % n { ModMod(t, U32, n); }
    UntornTail(conf, |hist|, torn, 0, lo);
    TailSuffices(conf, hist, torn, lo);
  }

  lemma {:induction false} LongAfterWrap(conf: Conf, hist: seq<Block>, torn: bool)
    requires conf.Valid() && WellLogged(conf, hist) && |hist| % U32 >= conf.Rounds()
    ensures ReplayOf(conf, hist, torn) == TableAt(hist, conf.slots, |hist|)
  {
    ExtentsFit(conf);
    var n, base, since := conf.Blocks(), WrapAt(|hist|), |hist| % U32;
    var lo := if since < n then base else |hist| - (n - 1);
    forall t | lo <= t <= |hist| ensures conf.Place(t) == (t - base) % n { PlaceFrom(conf, base, t); }
    UntornTail(conf, |hist|, torn, base, lo);
    TailSuffices(conf, hist, torn, lo);
  }

  lemma {:induction false} AtWrap(conf: Conf, hist: seq<Block>, torn: bool)
    requires conf.Valid() && WellLogged(conf, hist) && |hist| >= U32 && |hist| % U32 == 0
    requires U32 % conf.Blocks() != 0 && (torn ==> U32 % conf.Blocks() > conf.Rounds())
    ensures ReplayOf(conf, hist, torn) == TableAt(hist, conf.slots, |hist|)
  {
    ExtentsFit(conf);
    var n, rest, count := conf.Blocks(), U32 % conf.Blocks(), |hist|;
    var base := count - U32;
    assert base % U32 == 0 by { DivModUnique(count / U32 - 1, U32, 0); }
    var lo := if torn then count - (rest - 1) else count - (n - 1);
    forall t | lo <= t < count ensures conf.Place(t) == (t - base) % n { PlaceFrom(conf, base, t); }
    if torn {
      PlaceFrom(conf, count, count);
      forall t | lo <= t < count ensures conf.Place(t) != conf.Place(count) { BeforeWrap(conf, count, t); }
    }
    StraightTail(conf, count, torn, base, lo);
    TailSuffices(conf, hist, torn, lo);
  }

  /** The last transactions before a wrap lie at the first places of the ring. */
  lemma {:induction false} BeforeWrap(conf: Conf, q: nat, t: nat)
    requires conf.Valid() && q >= U32 && q % U32 == 0 && U32 % conf.Blocks() > 0 && q - U32 % conf.Blocks() <= t < q
    ensures conf.Place(t) == t - (q - U32 % conf.Blocks())
  {
    var n, base := conf.Blocks(), q - U32;
    var rest := U32 % n;
    assert base % U32 == 0 by { DivModUnique(q / U32 - 1, U32, 0); }
    PlaceFrom(conf, base, t);
    assert U32 == (U32 / n) * n + rest;
    DivModUnique(U32 / n, n, t - (q - rest));
  }

  /** A replayable log gives the table of the last complete transaction. */
  lemma {:induction false} ReplayableGood(conf: Conf, hist: seq<Block>, torn: bool)
    requires conf.Valid() && WellLogged(conf, hist) && Replayable(conf, |hist|, torn)
    ensures ReplayOf(conf, hist, torn) == TableAt(hist, conf.slots, |hist|)
  {
    if hist == [] {
      var e := Extremes(conf, 0, torn, conf.Blocks());
      assert e.None?;
    } else if U32 % conf.Blocks() == 0 || |hist| < U32 {
      NeverWrapped(conf, hist, torn);
    } else if |hist| % U32 >= conf.Rounds() {
      LongAfterWrap(conf, hist, torn);
    } else {
      AtWrap(conf, hist, torn);
    }
  }

  // ----- when it does not -----

  /** Replaying transaction t tells nothing of what transaction j put into slot s. */
  predicate Ignorant(conf: Conf, j: nat, s: nat, t: nat)
    requires conf.slots > 0
  {
    t < j || (t > j && t % conf.Rounds() != s / CONTEXT)
  }

  /** No place that the replay visits tells of it. */
  predicate Missed(conf: Conf, count: nat, torn: bool, j: nat, s: nat)
    requires conf.Blocks() > 0 && conf.slots > 0
  {
    var ends, n := Extremes(conf, count, torn, conf.Blocks()), conf.Blocks();
    ends.Some? ==>
      forall i: nat :: i < Span(ends.value.0, ends.value.1, n) ==> MissedAt(conf, count, torn, j, s, ends.value.0, i)
  }

  predicate MissedAt(conf: Conf, count: nat, torn: bool, j: nat, s: nat, o: nat, i: nat)
    requires conf.Blocks() > 0 && conf.slots > 0
  {
    var t := Tenant(conf, count, torn, (o + i) % conf.Blocks());
    t.Some? ==> Ignorant(conf, j, s, t.value)
  }

  lemma {:induction false} SlotOf(conf: Conf, t: nat) returns (s: nat)
    requires conf.Valid()
    ensures s < conf.slots && s / CONTEXT == t % conf.Rounds()
  {
    ExtentsFit(conf);
    s := CONTEXT * (t % conf.Rounds());
  }

  /** The first write after a wrap tears the place of a transaction that is still needed. */
  lemma {:induction false} TornMissed(conf: Conf, count: nat) returns (j: nat, s: nat)
    requires conf.Valid() && count >= U32 && count % U32 == 0 && 0 < U32 % conf.Blocks() <= conf.Rounds()
    ensures U32 / 2 <= j < count && s < conf.slots && Missed(conf, count, true, j, s)
  {
    var rest := U32 % conf.Blocks();
    j := count - rest;
    s := SlotOf(conf, j);
    PlaceFrom(conf, count, count);
    BeforeWrap(conf, count, j);
    forall p | 0 <= p < conf.Blocks() && Tenant(conf, count, true, p).Some?
      ensures Ignorant(conf, j, s, Tenant(conf, count, true, p).value)
    {
      var t := Tenant(conf, count, true, p).value;
      if t > j { ModDistinct(j, t, conf.Rounds()); }
    }
  }

  /** Soon after a wrap, places below since hold the new transactions, ... */
  lemma {:induction false} NewPlace(conf: Conf, count: nat, torn: bool, p: nat)
    requires conf.Valid() && count >= U32 && p < count % U32 < conf.Blocks()
    ensures var t := Tenant(conf, count, torn, p); t.Some? && t.value >= WrapAt(count)
  {
    var q := WrapAt(count);
    SincePlace(conf, count, p);
    SincePlace(conf, count, count % U32);
    LatestAfter(conf, count, q + p);
  }

  /** ... those up to rest the last ones before the wrap, ... */
  lemma {:induction false} MiddlePlace(conf: Conf, count: nat, torn: bool, p: nat)
    requires conf.Valid() && count >= U32 && count % U32 <= p < U32 % conf.Blocks()
    ensures var t := Tenant(conf, count, torn, p); t.Some? ==> t.value >= WrapAt(count) - U32 % conf.Blocks()
  {
    var q := WrapAt(count);
    BeforeWrap(conf, q, q - U32 % conf.Blocks() + p);
    LatestAfter(conf, count, q - U32 % conf.Blocks() + p);
  }

  /** ... and the next one a transaction from before these. */
  lemma {:induction false} OldPlace(conf: Conf, count: nat, torn: bool)
    requires conf.Valid() && count >= U32 && 0 < count % U32 < U32 % conf.Blocks()
    ensures Tenant(conf, count, torn, U32 % conf.Blocks()) == Some(WrapAt(count) - conf.Blocks())
  {
    var q, n := WrapAt(count), conf.Blocks();
    var rest, base := U32 % n, q - U32;
    assert base % U32 == 0 by { DivModUnique(q / U32 - 1, U32, 0); }
    PlaceFrom(conf, base, q - n);
    assert U32 == (U32 / n) * n + rest;
    assert (U32 / n - 1) * n == (U32 / n) * n - n;
    DivModUnique(U32 / n - 1, n, rest);
    forall u | q - n < u < count ensures conf.Place(u) != rest {
      if u < q {
        PlaceFrom(conf, base, u);
        ModDistinct(U32 - n, u - base, n);
      } else {
        PlaceFrom(conf, q, u);
        DivModUnique(0, n, u - q);
      }
    }
    LatestIs(conf, count, q - n);
    PlaceFrom(conf, q, count);
    DivModUnique(0, n, count - q);
  }

  /** Going round from o to w passes no place between them. */
  lemma {:induction false} AroundTheEnd(o: nat, w: nat, n: nat, i: nat, rest: nat)
    requires w < rest <= o < n && i < Span(o, w, n)
    ensures (o + i) % n <= w || (o + i) % n >= rest
  {
    if o + i < n { DivModUnique(0, n, o + i); } else { DivModUnique(1, n, o + i - n); }
  }

  /** So the replay goes from there to the new transactions, past the last ones before the wrap. */
  lemma {:induction false} WalkSkips(conf: Conf, count: nat, torn: bool, o: nat, w: nat, i: nat)
    requires conf.Valid() && count >= U32 && 0 < count % U32 < conf.Blocks()
    requires Extremes(conf, count, torn, conf.Blocks()) == Some((o, w)) && i < Span(o, w, conf.Blocks())
    ensures !(count % U32 <= (o + i) % conf.Blocks() < U32 % conf.Blocks())
  {
    var n, since, rest := conf.Blocks(), count % U32, U32 % conf.Blocks();
    if since < rest {
      OldestIs(conf, count, torn, n);
      NewestIs(conf, count, torn, n);
      OldPlace(conf, count, torn);
      if o < since { NewPlace(conf, count, torn, o); }
      if since <= o < rest { MiddlePlace(conf, count, torn, o); }
      assert o >= rest;
      NewestPlace(conf, count, torn, w);
      AroundTheEnd(o, w, n, i, rest);
    }
  }

  lemma {:induction false} NewestIsLast(conf: Conf, count: nat, torn: bool, w: nat)
    requires conf.Blocks() > 0 && count > 0 && conf.Place(count) != conf.Place(count - 1)
    requires Newest(conf, count, torn, conf.Blocks(), w)
    ensures w == conf.Place(count - 1)
  {
    assert Tenant(conf, count, torn, conf.Place(count - 1)) == Some(count - 1);
  }

  lemma {:induction false} NewestPlace(conf: Conf, count: nat, torn: bool, w: nat)
    requires conf.Valid() && count >= U32 && 0 < count % U32 < conf.Blocks()
      && Newest(conf, count, torn, conf.Blocks(), w)
    ensures w == count % U32 - 1
  {
    SincePlace(conf, count, count % U32 - 1);
    SincePlace(conf, count, count % U32);
    NewestIsLast(conf, count, torn, w);
  }

  lemma {:induction false} SincePlace(conf: Conf, count: nat, p: nat)
    requires conf.Valid() && p <= count % U32 < conf.Blocks()
    ensures conf.Place(WrapAt(count) + p) == p
  {
    PlaceFrom(conf, WrapAt(count), WrapAt(count) + p);
    DivModUnique(0, conf.Blocks(), p);
  }

  lemma {:induction false} SoonMissed(conf: Conf, count: nat, torn: bool) returns (j: nat, s: nat)
    requires conf.Valid() && count >= U32 && 0 < count % U32 < conf.Rounds() && 0 < U32 % conf.Blocks()
    ensures U32 / 2 <= j < count && s < conf.slots && Missed(conf, count, torn, j, s)
  {
    ExtentsFit(conf);
    var q, rest, n := WrapAt(count), U32 % conf.Blocks(), conf.Blocks();
    j := q - rest;
    s := SlotOf(conf, count);
    var ends := Extremes(conf, count, torn, n);
    if ends.Some? {
      var (o, w) := ends.value;
      forall i: nat | i < Span(o, w, n) ensures MissedAt(conf, count, torn, j, s, o, i) {
        WalkSkips(conf, count, torn, o, w, i);
        if Tenant(conf, count, torn, (o + i) % n).Some? { SoonIgnorant(conf, count, torn, (o + i) % n, s); }
      }
    }
  }

  lemma {:induction false} SoonIgnorant(conf: Conf, count: nat, torn: bool, p: nat, s: nat)
    requires conf.Valid() && count >= U32 && 0 < count % U32 < conf.Rounds() && 0 < U32 % conf.Blocks()
    requires p < conf.Blocks() && !(count % U32 <= p < U32 % conf.Blocks()) && Tenant(conf, count, torn, p).Some?
    requires s / CONTEXT == count % conf.Rounds()
    ensures Ignorant(conf, WrapAt(count) - U32 % conf.Blocks(), s, Tenant(conf, count, torn, p).value)
  {
    ExtentsFit(conf);
    var t := Tenant(conf, count, torn, p).value;
    if t >= WrapAt(count) {
      ModDistinct(t, count, conf.Rounds());
    } else {
      BeforeMiddle(conf, count, torn, p);
    }
  }

  lemma {:induction false} BeforeMiddle(conf: Conf, count: nat, torn: bool, p: nat)
    requires conf.Valid() && count >= U32 && 0 < count % U32 < conf.Blocks() && 0 < U32 % conf.Blocks()
    requires p < conf.Blocks() && !(count % U32 <= p < U32 % conf.Blocks())
    requires Tenant(conf, count, torn, p).Some? && Tenant(conf, count, torn, p).value < WrapAt(count)
    ensures Tenant(conf, count, torn, p).value < WrapAt(count) - U32 % conf.Blocks()
  {
    var q, rest, t := WrapAt(count), U32 % conf.Blocks(), Tenant(conf, count, torn, p).value;
    if t >= q - rest {
      BeforeWrap(conf, q, t);
      assert p == conf.Place(t) < rest;
      assert p < count % U32;
      NewPlace(conf, count, torn, p);
    }
  }

  /** In a log that is not replayable, some transaction is missed. */
  lemma {:induction false} SomeMissed(conf: Conf, count: nat, torn: bool) returns (j: nat, s: nat)
    requires conf.Valid() && !Replayable(conf, count, torn)
    ensures U32 / 2 <= j < count && s < conf.slots && Missed(conf, count, torn, j, s)
  {
    if count % U32 == 0 {
      j, s := TornMissed(conf, count);
    } else {
      j, s := SoonMissed(conf, count, torn);
    }
  }

  /** Transaction j alone gives label v, to slot s. */
  predicate Alone(hist: seq<Block>, j: nat, s: nat, v: nat) {
    forall t :: 0 <= t < |hist| ==> if t == j then hist[t].updates == [(s, v)] else Lacks(hist[t].updates, v)
  }

  predicate Lacks(u: seq<(nat, nat)>, v: nat) { forall k :: 0 <= k < |u| ==> u[k].1 != v }

  lemma {:induction false} UpdatesLack(tbl: Table, u: seq<(nat, nat)>, v: nat, x: nat)
    requires Lacks(u, v) && x < |tbl| && ApplyUpdates(tbl, u)[x] == v
    ensures tbl[x] == v
    decreases |u|
  {
    if u != [] {
      UpdatesLack(if u[0].0 < |tbl| then tbl[u[0].0 := u[0].1] else tbl, u[1..], v, x);
      assert u[0].1 != v;
    }
  }

  /** The label is in no table up to then, and afterwards in that slot only. */
  lemma {:induction false} OnlyThere(hist: seq<Block>, slots: nat, j: nat, s: nat, v: nat, t: nat, x: nat)
    requires Alone(hist, j, s, v) && v != FREE && t <= |hist| && x < slots && TableAt(hist, slots, t)[x] == v
    ensures t > j && x == s
  {
    if t > 0 {
      var u, before := hist[t - 1].updates, TableAt(hist, slots, t - 1);
      if t - 1 != j {
        UpdatesLack(before, u, v, x);
        OnlyThere(hist, slots, j, s, v, t - 1, x);
      } else if x != s {
        assert u[1..] == [];
        assert ApplyUpdates(before, u)[x] == before[x];
        OnlyThere(hist, slots, j, s, v, t - 1, x);
      }
    }
  }

  lemma {:induction false} IgnorantBlock(conf: Conf, hist: seq<Block>, j: nat, s: nat, v: nat, t: nat, tbl: Table)
    requires conf.Valid() && WellLogged(conf, hist) && Alone(hist, j, s, v) && v != FREE && s < conf.slots
    requires t < |hist| && Ignorant(conf, j, s, t) && |tbl| == conf.slots && v !in tbl
    ensures v !in ApplyBlock(tbl, hist[t])
  {
    var b := hist[t];
    assert Logged(conf, hist, t);
    var mid := ApplyContext(tbl, b.start, b.context);
    forall x | 0 <= x < conf.slots ensures ApplyBlock(tbl, b)[x] != v {
      if ApplyBlock(tbl, b)[x] == v {
        UpdatesLack(mid, b.updates, v, x);
        assert TableAt(hist, conf.slots, t)[x] == v;
        OnlyThere(hist, conf.slots, j, s, v, t, x);
      }
    }
  }

  lemma {:induction false} WalkMisses(conf: Conf, hist: seq<Block>, torn: bool, j: nat, s: nat, v: nat, o: nat, k: nat)
    requires conf.Valid() && WellLogged(conf, hist) && Alone(hist, j, s, v) && v != FREE && s < conf.slots
    requires forall i: nat :: i < k ==> MissedAt(conf, |hist|, torn, j, s, o, i)
    ensures v !in Walk(conf, hist, torn, o, k)
  {
    if k > 0 {
      WalkMisses(conf, hist, torn, j, s, v, o, k - 1);
      assert MissedAt(conf, |hist|, torn, j, s, o, k - 1);
      var t := Tenant(conf, |hist|, torn, (o + k - 1) % conf.Blocks());
      if t.Some? { IgnorantBlock(conf, hist, j, s, v, t.value, Walk(conf, hist, torn, o, k - 1)); }
    }
  }

  /** A label that only a missed transaction gives does not come up in the replay. */
  lemma {:induction false} ReplayMisses(conf: Conf, hist: seq<Block>, torn: bool, j: nat, s: nat, v: nat)
    requires conf.Valid() && WellLogged(conf, hist) && Alone(hist, j, s, v) && v != FREE && s < conf.slots
    requires Missed(conf, |hist|, torn, j, s)
    ensures v !in ReplayOf(conf, hist, torn)
  {
    var ends := Extremes(conf, |hist|, torn, conf.Blocks());
    if ends.Some? {
      WalkMisses(conf, hist, torn, j, s, v, ends.value.0, Span(ends.value.0, ends.value.1, conf.Blocks()));
    }
  }
}
