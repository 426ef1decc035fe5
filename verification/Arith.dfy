/** Division and remainder by a variable, which the verifier does not know on its own. */
module Arith {

  lemma {:induction false} MulBound(d: int, n: nat)
    requires n > 0
    ensures d >= 1 ==> d * n >= n
    ensures d <= -1 ==> d * n <= -1 * n
    ensures d == 0 ==> d * n == 0
  {}

  lemma {:induction false} DivModUnique(q: int, n: nat, r: nat)
    requires r < n
    ensures (q * n + r) / n == q && (q * n + r) % n == r
  {
    var x := q * n + r;
    assert x == (x / n) * n + x % n;
    var d := x / n - q;
    assert d * n == r - x % n;
    MulBound(d, n);
  }

  /** n consecutive numbers have n different remainders. */
  lemma {:induction false} ModDistinct(a: nat, b: nat, n: nat)
    requires n > 0 && a < b < a + n
    ensures a % n != b % n
  {
    assert a == (a / n) * n + a % n && b == (b / n) * n + b % n;
    var d := b / n - a / n;
    assert b - a == d * n + (b % n - a % n);
    MulBound(d, n);
  }

  /** ... and so each remainder occurs among them. */
  lemma {:induction false} ModHit(lo: nat, n: nat, r: nat) returns (j: nat)
    requires r < n
    ensures lo <= j < lo + n && j % n == r
  {
    var q := lo / n;
    assert lo == q * n + lo % n;
    if r >= lo % n {
      j := q * n + r;
      DivModUnique(q, n, r);
    } else {
      j := (q + 1) * n + r;
      DivModUnique(q + 1, n, r);
    }
  }

  lemma {:induction false} DivBound(p: nat, a: nat, b: nat)
    requires a > 0 && p < a * b
    ensures p / a < b
  {}

  /** A remainder taken in two steps, when the outer modulus divides the inner one or never acts. */
  lemma {:induction false} ModMod(t: nat, w: nat, n: nat)
    requires n > 0 && w > 0 && (w % n == 0 || t < w)
    ensures t % w % n == t % n
  {
    if t < w {
      DivModUnique(0, w, t);
    } else {
      var k, r := t / w, t % w;
      var m, q, s := w / n, r / n, r % n;
      assert t == k * w + r && w == m * n && r == q * n + s;
      assert k * (m * n) == (k * m) * n;
      assert (k * m + q) * n == (k * m) * n + q * n;
      DivModUnique(k * m + q, n, s);
    }
  }

  lemma {:induction false} ModShift(a: nat, k: nat, n: nat)
    requires n > 0
    ensures (a % n + k) % n == (a + k) % n
  {
    var q := a / n;
    assert a == q * n + a % n;
    var r := a % n + k;
    assert r == (r / n) * n + r % n;
    assert a + k == (q + r / n) * n + r % n;
    DivModUnique(q + r / n, n, r % n);
  }

  lemma {:induction false} ModCancel(a: nat, b: nat, d: nat, n: nat)
    requires n > 0 && (a + d) % n == (b + d) % n
    ensures a % n == b % n
  {
    var x, y := a + d, b + d;
    assert x == (x / n) * n + x % n && y == (y / n) * n + y % n;
    var q := y / n - x / n;
    assert b - a == q * n;
    assert b == (b / n) * n + b % n;
    assert a == (b / n - q) * n + b % n;
    DivModUnique(b / n - q, n, b % n);
  }
}
