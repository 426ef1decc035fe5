/** drbd_vli.h: the variable length integer code for run lengths, for any table of levels that
    is decisive, and the table in use. */
module Vli {
  import opened Wrappers
  import opened Arith
  import opened Bits

  /** Total number of bits, number of prefix bits, prefix. */
  datatype Level = Level(total: nat, prefix: nat, tag: nat) {
    /** How many values the level holds. */
    function Room(): nat
      requires prefix <= total
    {
      Shl(1, total - prefix)
    }
  }

  type Table = t: seq<Level> | Sized(t) witness []

  predicate Sized(t: seq<Level>) {
    forall k :: 0 <= k < |t| ==> t[k].prefix < t[k].total <= 64 && t[k].tag < Pow2(t[k].prefix)
  }

  const LEVELS: Table := [
    Level(2, 1, 0x00), Level(3, 2, 0x01), Level(5, 3, 0x03), Level(7, 4, 0x07), Level(10, 5, 0x0f),
    Level(14, 6, 0x1f), Level(21, 8, 0x3f), Level(29, 8, 0x7f), Level(42, 8, 0xbf), Level(64, 8, 0xff)]

  /** vli_decode_bits: the value and the number of bits consumed.  None stands for BUG(). */
  function Decode(t: Table, w: nat, k: nat := 0, adj: nat := 1): (r: Option<(nat, nat)>)
    requires k <= |t|
    ensures r.Some? ==> 0 < r.value.1 <= 64
    decreases |t| - k
  {
    if k == |t| then None
    else
      var l := t[k];
      if Mask(w, l.prefix) == l.tag then Some((Shr(Mask(w, l.total), l.prefix) + adj, l.total))
      else Decode(t, w, k + 1, adj + l.Room())
  }

  /** __vli_encode_bits: the code word and its length.  None stands for the error returns. */
  function Encode(t: Table, v: nat): Option<(nat, nat)> {
    if v == 0 then None else EncodeFrom(t, v, 0, 0, 1)
  }

  function EncodeFrom(t: Table, v: nat, k: nat, max: nat, adj: nat): Option<(nat, nat)>
    requires k <= |t| && adj <= v
    decreases |t| - k
  {
    if k == |t| then None
    else
      var l := t[k];
      var max' := max + l.Room();
      if v <= max' then Some((Or(Shl(v - adj, l.prefix), l.tag), l.total))
      else EncodeFrom(t, v, k + 1, max', max' + 1)
  }

  // ----- what the code means -----

  /** The first value of a level. */
  function Base(t: Table, k: nat): (r: nat)
    requires k <= |t|
    ensures r > 0
  {
    if k == 0 then 1 else Base(t, k - 1) + t[k - 1].Room()
  }

  /** One more than the largest value that can be encoded. */
  function Limit(t: Table): nat { Base(t, |t|) }

  predicate Matches(t: Table, w: nat, k: nat)
    requires k < |t|
  {
    Mask(w, t[k].prefix) == t[k].tag
  }

  /** The word starts with the prefix of level k and of no other. */
  predicate Only(t: Table, w: nat, k: nat) {
    k < |t| && Matches(t, w, k) && forall i :: 0 <= i < |t| && Matches(t, w, i) ==> i == k
  }

  /** Every word belongs to exactly one level. */
  ghost predicate Decisive(t: Table) {
    forall w: nat :: HasLevel(t, w)
  }

  ghost predicate HasLevel(t: Table, w: nat) {
    exists k: nat :: Only(t, w, k)
  }

  lemma {:induction false} DecodeAt(t: Table, w: nat, k: nat, j: nat)
    requires j <= k && Only(t, w, k)
    ensures Decode(t, w, j, Base(t, j)) == Some((Shr(Mask(w, t[k].total), t[k].prefix) + Base(t, k), t[k].total))
    decreases k - j
  {
    if j < k {
      assert !Matches(t, w, j);
      DecodeAt(t, w, k, j + 1);
    }
  }

  lemma {:induction false} BaseGrows(t: Table, j: nat, k: nat)
    requires j <= k <= |t|
    ensures Base(t, j) <= Base(t, k)
  {
    if j < k { BaseGrows(t, j, k - 1); }
  }

  lemma {:induction false} EncodeAt(t: Table, v: nat, k: nat, j: nat)
    requires j <= k < |t| && Base(t, k) <= v < Base(t, k + 1)
    ensures Base(t, j) <= v
    ensures EncodeFrom(t, v, j, Base(t, j) - 1, Base(t, j)) ==
      Some((Or(Shl(v - Base(t, k), t[k].prefix), t[k].tag), t[k].total))
    decreases k - j
  {
    BaseGrows(t, j, k);
    if j < k {
      EncodeAt(t, v, k, j + 1);
      BaseGrows(t, j + 1, k);
    }
  }

  lemma {:induction false} LevelOf(t: Table, v: nat) returns (k: nat)
    requires 0 < v < Limit(t)
    ensures k < |t| && Base(t, k) <= v < Base(t, k + 1)
  {
    k := 0;
    while v >= Base(t, k + 1)
      invariant k < |t| && Base(t, k) <= v
      decreases |t| - k
    {
      k := k + 1;
    }
  }

  /** The code word of a value at level k. */
  lemma {:induction false} WordAt(t: Table, v: nat, k: nat)
    requires k < |t| && Base(t, k) <= v < Base(t, k + 1)
    ensures var l := t[k]; var c := Shl(v - Base(t, k), l.prefix) + l.tag;
            Encode(t, v) == Some((c, l.total)) && c < Pow2(l.total) && Mask(c, l.prefix) == l.tag
            && Shr(c, l.prefix) == v - Base(t, k)
  {
    var l := t[k];
    EncodeAt(t, v, k, 0);
    Glue(v - Base(t, k), l.tag, l.prefix);
    ShlOne(l.total - l.prefix);
    ShlBound(v - Base(t, k), l.prefix, l.total - l.prefix);
  }

  /** Decoding inverts encoding, whatever bits follow the code word. */
  lemma {:induction false} DecodeEncode(t: Table, v: nat, w: nat)
    requires Decisive(t) && 0 < v < Limit(t)
    ensures Encode(t, v).Some?
    ensures var (c, n) := Encode(t, v).value;
      0 < n <= 64 && c < Pow2(n) && (Mask(w, n) == c ==> Decode(t, w) == Some((v, n)))
  {
    var k := LevelOf(t, v);
    WordAt(t, v, k);
    var (c, n) := Encode(t, v).value;
    if Mask(w, n) == c {
      MaskMask(w, n, t[k].prefix);
      assert HasLevel(t, w);
      var j: nat :| Only(t, w, j);
      assert Matches(t, w, k);
      DecodeAt(t, w, k, 0);
    }
  }

  lemma {:induction false} WordOfLevel(t: Table, w: nat, k: nat)
    requires k < |t| && Matches(t, w, k)
    ensures var l := t[k]; var v := Shr(Mask(w, l.total), l.prefix) + Base(t, k);
            v < Base(t, k + 1) && Encode(t, v) == Some((Mask(w, l.total), l.total))
  {
    var l := t[k];
    var x := Mask(w, l.total);
    ShlOne(l.total - l.prefix);
    ShrBound(x, l.prefix, l.total - l.prefix);
    WordAt(t, Shr(x, l.prefix) + Base(t, k), k);
    Unglue(x, l.prefix);
    MaskMask(w, l.total, l.prefix);
  }

  /** Every 64-bit word decodes, and encoding the value again gives back the bits consumed. */
  lemma {:induction false} EncodeDecode(t: Table, w: nat)
    requires Decisive(t)
    ensures Decode(t, w).Some?
    ensures var (v, n) := Decode(t, w).value; 0 < v < Limit(t) && n <= 64 && Encode(t, v) == Some((Mask(w, n), n))
  {
    assert HasLevel(t, w);
    var k: nat :| Only(t, w, k);
    DecodeAt(t, w, k, 0);
    BaseGrows(t, k + 1, |t|);
    WordOfLevel(t, w, k);
  }

  /** No code word is the beginning of another. */
  lemma {:induction false} PrefixFree(t: Table, u: nat, v: nat)
    requires Decisive(t) && 0 < u < Limit(t) && 0 < v < Limit(t)
    requires Encode(t, u).Some? && Encode(t, v).Some?
      && Mask(Encode(t, v).value.0, Encode(t, u).value.1) == Encode(t, u).value.0
    ensures u == v
  {
    var w := Encode(t, v).value.0;
    DecodeEncode(t, u, w);
    DecodeEncode(t, v, w);
    MaskSmall(w, Encode(t, v).value.1);
  }

  lemma {:induction false} EncodeTooBig(t: Table, v: nat, j: nat)
    requires j <= |t| && v >= Limit(t)
    ensures Base(t, j) <= v && EncodeFrom(t, v, j, Base(t, j) - 1, Base(t, j)) == None
    decreases |t| - j
  {
    BaseGrows(t, j, |t|);
    if j < |t| {
      BaseGrows(t, j + 1, |t|);
      EncodeTooBig(t, v, j + 1);
    }
  }

  /** Exactly the values from 1 to the limit have a code word. */
  lemma {:induction false} Encodable(t: Table, v: nat)
    requires Decisive(t)
    ensures Encode(t, v).Some? <==> 0 < v < Limit(t)
  {
    if v >= Limit(t) { EncodeTooBig(t, v, 0); } else if v > 0 { DecodeEncode(t, v, 0); }
  }

  // ----- code words as bit strings -----

  function Code(t: Table, v: nat): (b: seq<bool>)
    requires Encode(t, v).Some?
  {
    Field(Encode(t, v).value.0, Encode(t, v).value.1)
  }

  /** A decoder that looks at any string starting with a code word reads its value. */
  lemma {:induction false} DecodeCode(t: Table, v: nat, rest: seq<bool>)
    requires Decisive(t) && 0 < v < Limit(t)
    ensures Encode(t, v).Some? && 0 < |Code(t, v)| <= 64 && Decode(t, Val(Code(t, v) + rest)) == Some((v, |Code(t, v)|))
  {
    DecodeEncode(t, v, 0);
    var b := Code(t, v) + rest;
    var (c, n) := Encode(t, v).value;
    MaskVal(b, n);
    assert b[..n] == Code(t, v);
    ValField(c, n);
    MaskSmall(c, n);
    DecodeEncode(t, v, Val(b));
  }

  // ----- the table in use -----

  lemma {:induction false} ModPow(w: nat, n: nat)
    ensures Mask(w, n) == w % Pow2(n)
  {
    if n > 0 {
      ModPow(w / 2, n - 1);
      var p, h := Pow2(n - 1), w / 2;
      assert h == (h / p) * p + h % p;
      assert w == (h / p) * (2 * p) + (2 * (h % p) + w % 2);
      DivModUnique(h / p, 2 * p, 2 * (h % p) + w % 2);
    }
  }

  lemma {:induction false} MaskMod(w: nat, n: nat, p: nat)
    requires p == Pow2(n)
    ensures Mask(w, n) == w % p
  {
    ModPow(w, n);
  }

  /** The level of a word, by its low byte. */
  function LevelOfByte(b: nat): nat {
    if b % 2 == 0 then 0 else if b % 4 == 1 then 1 else if b % 8 == 3 then 2 else if b % 16 == 7 then 3
    else if b % 32 == 15 then 4 else if b % 64 == 31 then 5 else if b == 63 then 6
    else if b == 127 then 7 else if b == 191 then 8 else 9
  }

  lemma {:induction false} LowByte(w: nat)
    ensures var b := w % 256;
            && w % 2 == b % 2 && w % 4 == b % 4 && w % 8 == b % 8 && w % 16 == b % 16
            && w % 32 == b % 32 && w % 64 == b % 64
  {
    var q, b := w / 256, w % 256;
    assert w == 256 * q + b;
    ModPlus(b, 128 * q, 2);
    ModPlus(b, 64 * q, 4);
    ModPlus(b, 32 * q, 8);
    ModPlus(b, 16 * q, 16);
    ModPlus(b, 8 * q, 32);
    ModPlus(b, 4 * q, 64);
  }

  lemma {:induction false} ModPlus(b: nat, k: nat, m: nat)
    requires m > 0
    ensures (m * k + b) % m == b % m
  {
    assert b == (b / m) * m + b % m;
    assert m * k + b == (k + b / m) * m + b % m;
    DivModUnique(k + b / m, m, b % m);
  }

  /** A remainder by twice as much is the same, or m more. */
  lemma {:induction false} Twice(b: nat, m: nat)
    requires m > 0
    ensures b % (2 * m) == b % m || b % (2 * m) == b % m + m
  {
    var q, r := b / (2 * m), b % (2 * m);
    assert b == q * (2 * m) + r;
    assert q * (2 * m) == m * (2 * q);
    ModPlus(r, 2 * q, m);
    if r < m { DivModUnique(0, m, r); } else { DivModUnique(1, m, r - m); }
  }

  lemma {:induction false} ByteLevels(b: nat)
    requires b < 256
    ensures var k := LevelOfByte(b);
            && (b % 2 == 0 <==> k == 0) && (b % 4 == 1 <==> k == 1) && (b % 8 == 3 <==> k == 2)
            && (b % 16 == 7 <==> k == 3)
            && (b % 32 == 15 <==> k == 4) && (b % 64 == 31 <==> k == 5)
            && (b == 63 <==> k == 6) && (b == 127 <==> k == 7) && (b == 191 <==> k == 8) && (b == 255 <==> k == 9)
  {
    Twice(b, 2);
    Twice(b, 4);
    Twice(b, 8);
    Twice(b, 16);
    Twice(b, 32);
    Twice(b, 64);
    Twice(b, 128);
  }

  lemma {:induction false} LevelMatches(w: nat, k: nat, l: Level)
    requires k < |LEVELS| && l == LEVELS[k]
    ensures Mask(w, l.prefix) == l.tag <==> k == LevelOfByte(w % 256)
  {
    LowByte(w);
    ByteLevels(w % 256);
    var n := l.prefix;
    assert Pow2(1) == 2 && Pow2(2) == 4 && Pow2(3) == 8 && Pow2(4) == 16 && Pow2(5) == 32 && Pow2(6) == 64
      && Pow2(8) == 256;
    if k == 0 { MaskMod(w, n, 2); }
    else if k == 1 { MaskMod(w, n, 4); }
    else if k == 2 { MaskMod(w, n, 8); }
    else if k == 3 { MaskMod(w, n, 16); }
    else if k == 4 { MaskMod(w, n, 32); }
    else if k == 5 { MaskMod(w, n, 64); }
    else { MaskMod(w, n, 256); }
  }

  /** The ten levels split the words among them: the code is prefix-free and complete. */
  lemma {:induction false} LevelsDecisive()
    ensures Decisive(LEVELS)
  {
    forall w: nat ensures HasLevel(LEVELS, w) {
      forall k | 0 <= k < |LEVELS| ensures Matches(LEVELS, w, k) <==> k == LevelOfByte(w % 256) {
        LevelMatches(w, k, LEVELS[k]);
      }
      assert Only(LEVELS, w, LevelOfByte(w % 256));
    }
  }

  // ----- the table in numbers -----

  lemma {:induction false} PowersOfTwo()
    ensures Pow2(1) == 2 && Pow2(2) == 4 && Pow2(3) == 8 && Pow2(5) == 32 && Pow2(8) == 256 && Pow2(13) == 0x2000
    ensures Pow2(21) == 0x20_0000 && Pow2(34) == 0x4_0000_0000 && Pow2(56) == 0x100_0000_0000_0000
  {
    Pow2Sum(8, 13);
    Pow2Sum(13, 21);
    Pow2Sum(21, 34);
    Pow2Sum(1, 55);
    Pow2Sum(34, 21);
  }

  lemma {:induction false} Pow2Sum(a: nat, b: nat)
    ensures Pow2(a + b) == Pow2(a) * Pow2(b)
  {
    if a > 0 { Pow2Sum(a - 1, b); }
  }

  lemma {:induction false} ShlOne(n: nat)
    ensures Shl(1, n) == Pow2(n)
  {
    if n > 0 { ShlOne(n - 1); }
  }

  lemma {:induction false} NextBase(k: nat, data: nat)
    requires k < |LEVELS| && LEVELS[k].total == LEVELS[k].prefix + data
    ensures Base(LEVELS, k + 1) == Base(LEVELS, k) + Pow2(data)
  {
    ShlOne(data);
  }

  /** The number of data bits behind each prefix, and with it the largest value of each level. */
  lemma {:induction false} LevelValues()
    ensures |LEVELS| == 10 && Base(LEVELS, 1) == 0x2 + 1 && Base(LEVELS, 2) == 0x4 + 1 && Base(LEVELS, 3) == 0x8 + 1
    ensures Base(LEVELS, 4) == 0x10 + 1 && Base(LEVELS, 5) == 0x30 + 1 && Base(LEVELS, 6) == 0x130 + 1
    ensures Base(LEVELS, 7) == 0x2130 + 1 && Base(LEVELS, 8) == 0x20_2130 + 1
    ensures Base(LEVELS, 9) == 0x4_0020_2130 + 1 && Limit(LEVELS) == 0x100_0004_0020_2130 + 1
  {
    PowersOfTwo();
    NextBase(0, 1);
    NextBase(1, 1);
    NextBase(2, 2);
    NextBase(3, 3);
    NextBase(4, 5);
    NextBase(5, 8);
    NextBase(6, 13);
    NextBase(7, 21);
    NextBase(8, 34);
    NextBase(9, 56);
  }

  /** A run length of one takes two bits, and the largest possible one 64. */
  lemma {:induction false} CodeLengths()
    ensures Encode(LEVELS, 1) == Some((0, 2)) && Encode(LEVELS, 2) == Some((2, 2))
    ensures Encode(LEVELS, Limit(LEVELS) - 1).Some? && Encode(LEVELS, Limit(LEVELS) - 1).value.1 == 64
  {
    LevelValues();
    EncodeAt(LEVELS, Limit(LEVELS) - 1, 9, 0);
  }
}
