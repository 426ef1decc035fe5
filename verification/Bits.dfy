/** Bit operations on unsigned numbers, and bit strings with the least significant bit first. */
module Bits {

  function Bit(x: nat, j: nat): bool {
    if j == 0 then x % 2 == 1 else Bit(x / 2, j - 1)
  }

  function Pow2(n: nat): (r: nat)
    ensures r > 0
  {
    if n == 0 then 1 else 2 * Pow2(n - 1)
  }

  /** x << n */
  function Shl(x: nat, n: nat): nat {
    if n == 0 then x else 2 * Shl(x, n - 1)
  }

  /** x >> n */
  function Shr(x: nat, n: nat): nat {
    if n == 0 then x else Shr(x / 2, n - 1)
  }

  /** The n low bits of x. */
  function Mask(x: nat, n: nat): (r: nat)
    ensures r < Pow2(n)
  {
    if n == 0 then 0 else x % 2 + 2 * Mask(x / 2, n - 1)
  }

  /** x | y */
  function Or(x: nat, y: nat): nat {
    if x == 0 then y else (if x % 2 == 1 || y % 2 == 1 then 1 else 0) + 2 * Or(x / 2, y / 2)
  }

  lemma {:induction false} BitZero(j: nat)
    ensures !Bit(0, j)
  {
    if j > 0 { BitZero(j - 1); }
  }

  lemma {:induction false} BitShr(x: nat, n: nat, j: nat)
    ensures Bit(Shr(x, n), j) == Bit(x, n + j)
  {
    if n > 0 { BitShr(x / 2, n - 1, j); }
  }

  lemma {:induction false} BitShl(x: nat, n: nat, j: nat)
    ensures Bit(Shl(x, n), j) == (j >= n && Bit(x, j - n))
  {
    if n > 0 && j > 0 {
      BitShl(x, n - 1, j - 1);
      assert 2 * Shl(x, n - 1) / 2 == Shl(x, n - 1);
    }
  }

  lemma {:induction false} BitMask(x: nat, n: nat, j: nat)
    ensures Bit(Mask(x, n), j) == (j < n && Bit(x, j))
  {
    if n == 0 {
      BitZero(j);
    } else if j > 0 {
      BitMask(x / 2, n - 1, j - 1);
    }
  }

  lemma {:induction false} BitOr(x: nat, y: nat, j: nat)
    ensures Bit(Or(x, y), j) == (Bit(x, j) || Bit(y, j))
  {
    if x == 0 {
      BitZero(j);
    } else if j > 0 {
      BitOr(x / 2, y / 2, j - 1);
    }
  }

  lemma {:induction false} MaskSmall(x: nat, n: nat)
    requires x < Pow2(n)
    ensures Mask(x, n) == x
  {
    if n > 0 { MaskSmall(x / 2, n - 1); }
  }

  lemma {:induction false} MaskMask(x: nat, n: nat, m: nat)
    requires m <= n
    ensures Mask(Mask(x, n), m) == Mask(x, m)
  {
    if m > 0 { MaskMask(x / 2, n - 1, m - 1); }
  }

  lemma {:induction false} OrZero(x: nat)
    ensures Or(x, 0) == x
  {
    if x > 0 { OrZero(x / 2); }
  }

  /** A low and a high part. */
  lemma {:induction false} Glue(hi: nat, lo: nat, n: nat)
    requires lo < Pow2(n)
    ensures Mask(Shl(hi, n) + lo, n) == lo && Shr(Shl(hi, n) + lo, n) == hi
    ensures Or(Shl(hi, n), lo) == Shl(hi, n) + lo
  {
    if n == 0 {
      OrZero(hi);
    } else {
      Glue(hi, lo / 2, n - 1);
      var x := Shl(hi, n) + lo;
      assert x == 2 * (Shl(hi, n - 1) + lo / 2) + lo % 2;
    }
  }

  lemma {:induction false} Unglue(x: nat, n: nat)
    ensures x == Shl(Shr(x, n), n) + Mask(x, n)
  {
    if n > 0 { Unglue(x / 2, n - 1); }
  }

  lemma {:induction false} ShlBound(x: nat, n: nat, m: nat)
    requires x < Pow2(m)
    ensures Shl(x, n) + Pow2(n) <= Pow2(n + m)
  {
    if n == 0 {} else { ShlBound(x, n - 1, m); }
  }

  lemma {:induction false} ShrBound(x: nat, n: nat, m: nat)
    requires x < Pow2(n + m)
    ensures Shr(x, n) < Pow2(m)
  {
    if n > 0 { ShrBound(x / 2, n - 1, m); }
  }

  lemma {:induction false} ShlOne(n: nat)
    ensures Shl(1, n) == Pow2(n)
  {
    if n > 0 { ShlOne(n - 1); }
  }

  // ----- bit strings -----

  function Val(b: seq<bool>): (r: nat)
    ensures r < Pow2(|b|)
  {
    if b == [] then 0 else (if b[0] then 1 else 0) + 2 * Val(b[1..])
  }

  function Field(x: nat, n: nat): (b: seq<bool>)
    ensures |b| == n
    ensures forall j :: 0 <= j < n ==> b[j] == Bit(x, j)
  {
    seq(n, j requires 0 <= j => Bit(x, j))
  }

  lemma {:induction false} BitVal(b: seq<bool>, j: nat)
    ensures Bit(Val(b), j) == (j < |b| && b[j])
  {
    if b == [] {
      BitZero(j);
    } else if j > 0 {
      BitVal(b[1..], j - 1);
    }
  }

  /** A number is its bits. */
  lemma {:induction false} SameBits(x: nat, y: nat)
    requires forall j: nat :: Bit(x, j) == Bit(y, j)
    ensures x == y
    decreases x + y
  {
    if x + y > 0 {
      assert Bit(x, 0) == Bit(y, 0);
      forall j: nat ensures Bit(x / 2, j) == Bit(y / 2, j) { assert Bit(x, j + 1) == Bit(y, j + 1); }
      SameBits(x / 2, y / 2);
    }
  }

  lemma {:induction false} ValField(x: nat, n: nat)
    ensures Val(Field(x, n)) == Mask(x, n)
  {
    forall j: nat ensures Bit(Val(Field(x, n)), j) == Bit(Mask(x, n), j) {
      BitVal(Field(x, n), j);
      BitMask(x, n, j);
    }
    SameBits(Val(Field(x, n)), Mask(x, n));
  }

  lemma {:induction false} FieldVal(b: seq<bool>)
    ensures Field(Val(b), |b|) == b
  {
    forall j | 0 <= j < |b| ensures Field(Val(b), |b|)[j] == b[j] { BitVal(b, j); }
  }

  /** The low bits of a string's value. */
  lemma {:induction false} MaskVal(b: seq<bool>, n: nat)
    requires n <= |b|
    ensures Mask(Val(b), n) == Val(b[..n])
  {
    forall j: nat ensures Bit(Mask(Val(b), n), j) == Bit(Val(b[..n]), j) {
      BitMask(Val(b), n, j);
      BitVal(b, j);
      BitVal(b[..n], j);
    }
    SameBits(Mask(Val(b), n), Val(b[..n]));
  }

  lemma {:induction false} ShrVal(b: seq<bool>, n: nat)
    requires n <= |b|
    ensures Shr(Val(b), n) == Val(b[n..])
    decreases n
  {
    if n > 0 {
      ShrVal(b[1..], n - 1);
      assert b[1..][n - 1..] == b[n..];
    } else {
      assert b[n..] == b;
    }
  }

  lemma {:induction false} OrVal(a: seq<bool>, b: seq<bool>)
    ensures Or(Val(a), Shl(Val(b), |a|)) == Val(a + b)
  {
    var x := Or(Val(a), Shl(Val(b), |a|));
    forall j: nat ensures Bit(x, j) == Bit(Val(a + b), j) {
      BitOr(Val(a), Shl(Val(b), |a|), j);
      BitShl(Val(b), |a|, j);
      BitVal(a, j);
      if j >= |a| { BitVal(b, j - |a|); }
      BitVal(a + b, j);
    }
    SameBits(x, Val(a + b));
  }
}
