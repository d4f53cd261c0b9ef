/** Division and powers of two, shared by the page tables, the buddy allocator and the clock. */
module Arithmetic {

  const U32: nat := 0x1_0000_0000
  const U64: nat := 0x1_0000_0000_0000_0000

  function AlignUp(x: nat, to: nat): nat
    requires to > 0
  {
    if x % to == 0 then x else x - x % to + to
  }

  lemma MulNonNegative(x: int, y: int)
    requires x >= 0 && y >= 0
    ensures x * y >= 0
  {
  }

  lemma MulLessEqual(x: nat, y: nat, c: nat)
    requires x <= y
    ensures x * c <= y * c
  {
    MulNonNegative(y - x, c);
    assert (y - x) * c == y * c - x * c;
  }

  lemma NoSmallMultiple(d: int, c: int)
    requires c > 0 && -c < d * c < c
    ensures d == 0
  {
    if d > 0 {
      MulNonNegative(d - 1, c);
    } else if d < 0 {
      MulNonNegative(-d - 1, c);
    }
  }

  /** Quotient and remainder are determined by the sum they make up. */
  lemma DivUnique(x: int, c: int, q: int, r: int)
    requires c > 0 && 0 <= r < c && x == q * c + r
    ensures x / c == q && x % c == r
  {
    var k, m := x / c, x % c;
    assert x == k * c + m;
    assert (q - k) * c == q * c - k * c;
    NoSmallMultiple(q - k, c);
  }

  function Pow2(n: nat): (r: nat)
    ensures r > 0
  {
    if n == 0 then 1 else 2 * Pow2(n - 1)
  }

  predicate IsPow2(x: nat) {
    x == 1 || (x != 0 && x % 2 == 0 && IsPow2(x / 2))
  }

  lemma {:induction false} IsPow2Iff(x: nat)
    ensures IsPow2(x) <==> exists n: nat :: x == Pow2(n)
  {
    if x == 1 {
      assert x == Pow2(0);
    } else if IsPow2(x) {
      IsPow2Iff(x / 2);
      var n: nat :| x / 2 == Pow2(n);
      assert x == Pow2(n + 1);
    } else if n: nat :| x == Pow2(n) {
      assert x / 2 == Pow2(n - 1);
      IsPow2Iff(x / 2);
    }
  }

  lemma {:induction false} Pow2Add(a: nat, b: nat)
    ensures Pow2(a + b) == Pow2(a) * Pow2(b)
    decreases a
  {
    if a > 0 { Pow2Add(a - 1, b); }
  }

  lemma {:induction false} Pow2Monotone(a: nat, b: nat)
    requires a <= b
    ensures Pow2(a) <= Pow2(b)
    decreases b
  {
    if a < b { Pow2Monotone(a, b - 1); }
  }

  lemma {:induction false} MulMonotone(a: nat, b: nat)
    requires a <= b
    ensures a * a <= b * b
  {
    MulNonNegative(a, b - a);
    MulNonNegative(b, b - a);
    assert a * (b - a) == a * b - a * a && b * (b - a) == b * b - a * b;
  }

  /** Dividing what is left modulo a multiple of the divisor: the quotient loses a multiple, the remainder nothing. */
  lemma LowDiv(x: nat, c: nat, m: nat)
    requires c > 0 && m > 0 && c * m > 0
    ensures x / c == x / (c * m) * m + x % (c * m) / c && x % (c * m) % c == x % c
  {
    var a := c * m;
    var d, v := x / a, x % a;
    var s, o := v / c, v % c;
    assert x == d * a + v && v == s * c + o;
    assert (d * m + s) * c + o == d * a + v by { assert d * m * c == d * (c * m); }
    DivUnique(x, c, d * m + s, o);
  }

  lemma LowMod(q: nat, m: nat, s: nat, e: nat)
    requires e > 0
    ensures (q * (e * m) + s) % e == s % e
  {
    assert q * (e * m) + s == (q * m + s / e) * e + s % e by { assert q * (e * m) == q * m * e; }
    DivUnique(q * (e * m) + s, e, q * m + s / e, s % e);
  }

  lemma StepBelow(s: nat, c: nat, m: nat)
    requires s * c < c * m && c > 0
    ensures s + 1 <= m && (s + 1 < m ==> s * c + c < c * m) && (s + 1 == m ==> s * c + c == c * m)
  {
    if s >= m {
      MulNonNegative(s - m, c);
    } else if s + 1 < m {
      MulNonNegative(m - s - 2, c);
      assert (m - s - 2) * c == c * m - s * c - 2 * c;
    }
  }

  /** A block that does not end at a multiple of a larger size lies with its end between two of them. */
  lemma BlockBetween(v: nat, c: nat, m: nat, a: nat)
    requires c > 0 && m > 0 && a == c * m > 0 && v % c == 0 && (v + c) % a != 0
    ensures v / a == (v + c) / a
  {
    var q, r := v / a, v % a;
    assert r % c == 0 by { LowDiv(v, c, m); }
    MultipleFits(r, c, m);
    BlockEnds(v, c, a, q, r);
  }

  lemma MultipleFits(r: nat, c: nat, m: nat)
    requires c > 0 && r < c * m && r % c == 0
    ensures r + c <= c * m
  {
    var s := r / c;
    assert r == s * c;
    StepBelow(s, c, m);
  }

  lemma BlockEnds(v: nat, c: nat, a: nat, q: nat, r: nat)
    requires a > 0 && v == q * a + r && r + c <= a && 0 < c && (v + c) % a != 0
    ensures (v + c) / a == q
  {
    if r + c == a {
      assert (q + 1) * a == q * a + a;
      DivUnique(v + c, a, q + 1, 0);
    } else {
      DivUnique(v + c, a, q, r + c);
    }
  }
}
