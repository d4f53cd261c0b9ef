/** Size-aligned blocks of page frames (src/kernel/mm/malloc/page_allocator/page_allocator.c:73-82). */
module BuddyBlocks {
  import opened Arithmetic

  predicate Aligned(i: nat, o: nat) {
    i % Pow2(o) == 0
  }

  /** `i ^ (1 << o)`, for an index aligned to order `o`. */
  function BuddyOf(i: nat, o: nat): nat {
    if Aligned(i, o + 1) then i + Pow2(o) else if i < Pow2(o) then 0 else i - Pow2(o)
  }

  /** `i & ~((1 << o) - 1)`. */
  function ParentAtOrder(i: nat, o: nat): nat {
    RemainderBound(i, Pow2(o));
    i - i % Pow2(o)
  }

  lemma RemainderBound(i: nat, c: nat)
    requires c > 0
    ensures i % c <= i && i == c * (i / c) + i % c
  {
    MulNonNegative(c, i / c);
  }

  lemma ParentHolds(i: nat, o: nat)
    ensures var p := ParentAtOrder(i, o);
            Aligned(p, o) && p <= i < p + Pow2(o)
  {
    DivUnique(i - i % Pow2(o), Pow2(o), i / Pow2(o), 0);
  }

  lemma MulLess(c: int, x: int, y: int)
    requires c > 0 && c * x < c * y
    ensures x < y
  {
    if y <= x { MulNonNegative(c, x - y); }
  }

  lemma NestedMultiples(c: nat, x: int, k: nat, b: int, g: nat, h: nat, w: nat)
    requires c > 0 && g == c * x && h == c * b && w == c * k
    requires h < g + w && g < h + c
    ensures g <= h && h + c <= g + w
  {
    assert c * (b + 1) == c * b + c && c * (x + k) == c * x + c * k;
    MulLess(c, x, b + 1);
    MulLess(c, b, x + k);
    MulNonNegative(c, b - x);
    MulNonNegative(c, x + k - b - 1);
  }

  lemma MultipleOf(h: nat, o: nat, q: nat) returns (x: nat)
    requires Aligned(h, q) && o <= q
    ensures h == Pow2(o) * x
  {
    hide Pow2;
    Pow2Add(o, q - o);
    var c, k, a := Pow2(o), Pow2(q - o), h / Pow2(q);
    Associates(c, k, a);
    x := k * a;
  }

  lemma Associates(x: int, y: int, z: int)
    ensures x * (y * z) == (x * y) * z
  {
  }

  /** Two aligned blocks that meet are nested. */
  lemma Nested(h: nat, o: nat, g: nat, q: nat)
    requires Aligned(h, o) && Aligned(g, q) && o <= q
    requires h < g + Pow2(q) && g < h + Pow2(o)
    ensures g <= h && h + Pow2(o) <= g + Pow2(q)
  {
    hide Pow2, Aligned;
    var x := MultipleOf(g, o, q);
    var b := MultipleOf(h, o, o);
    Pow2Add(o, q - o);
    NestedMultiples(Pow2(o), x, Pow2(q - o), b, g, h, Pow2(q));
  }

  lemma AlignedHalves(h: nat, o: nat)
    requires Aligned(h, o + 1)
    ensures Aligned(h, o) && Aligned(h + Pow2(o), o) && Pow2(o + 1) == Pow2(o) + Pow2(o)
  {
    var c, a := Pow2(o), h / Pow2(o + 1);
    assert h == (2 * c) * a == c * (2 * a);
    DivUnique(h, c, 2 * a, 0);
    DivUnique(h + c, c, 2 * a + 1, 0);
  }

  lemma {:induction false} AlignedDown(h: nat, o: nat, q: nat)
    requires Aligned(h, q) && o <= q
    ensures Aligned(h, o)
    decreases q
  {
    if o < q {
      AlignedHalves(h, q - 1);
      AlignedDown(h, o, q - 1);
    }
  }

  lemma AlignedEnd(h: nat, o: nat)
    requires Aligned(h, o)
    ensures Aligned(h + Pow2(o), o)
  {
    DivUnique(h + Pow2(o), Pow2(o), h / Pow2(o) + 1, 0);
  }

  /** The two buddies are the halves of the aligned block one order up. */
  lemma BuddyHalves(i: nat, o: nat)
    requires Aligned(i, o)
    ensures var b := BuddyOf(i, o);
            var left := if i < b then i else b;
            && Aligned(b, o) && b != i && BuddyOf(b, o) == i
            && Aligned(left, o + 1) && i + b == left + left + Pow2(o)
            && left == ParentAtOrder(i, o + 1) && (left == i <==> Aligned(i, o + 1))
  {
    var c := Pow2(o);
    assert Pow2(o + 1) == 2 * c;
    hide Pow2;
    EvenOdd(i, c);
    RemainderBound(i, 2 * c);
    if i % (2 * c) == 0 {
      AlignedHalves(i, o);
      EvenOdd(i + c, c);
      DivUnique(i + c, 2 * c, i / (2 * c), c);
    } else {
      DivUnique(i - c, 2 * c, i / (2 * c), 0);
      AlignedHalves(i - c, o);
    }
  }

  lemma EvenOdd(i: nat, c: nat)
    requires c > 0 && i % c == 0
    ensures i % (2 * c) == 0 || i % (2 * c) == c
  {
    var a := i / c;
    assert i == c * a;
    if a % 2 == 0 {
      Associates(c, 2, a / 2);
      DivUnique(i, 2 * c, a / 2, 0);
    } else {
      Associates(c, 2, a / 2);
      assert c * (2 * (a / 2) + 1) == c * (2 * (a / 2)) + c;
      DivUnique(i, 2 * c, a / 2, c);
    }
  }

  function Log2Floor(x: nat): nat {
    if x <= 1 then 0 else 1 + Log2Floor(x / 2)
  }

  lemma {:induction false} Log2FloorBounds(x: nat)
    requires x > 0
    ensures Pow2(Log2Floor(x)) <= x < Pow2(Log2Floor(x) + 1)
  {
    if x > 1 { Log2FloorBounds(x / 2); }
  }

  lemma {:induction false} Pow2Below(a: nat, b: nat)
    requires Pow2(a) < Pow2(b)
    ensures a < b
  {
    if b <= a { Pow2Monotone(b, a); }
  }

  lemma {:induction false} AlignedBlockFits(i: nat, o: nat, m: nat)
    requires Aligned(i, o) && o <= m && i < Pow2(m)
    ensures i + Pow2(o) <= Pow2(m)
  {
    Nested(i, o, 0, m);
  }

  /**
   * `try_merge` reads the node of the buddy of every block below the largest order (page_allocator.c:259-263). The
   * buddy is inside the node array, for every block the allocator can hold, exactly when the page count is a power of
   * two.
   */
  lemma BuddyInRangeIff(n: nat)
    requires n > 0
    ensures (forall i: nat, o: nat {:trigger BuddyOf(i, o)} |
               o < Log2Floor(n) && Aligned(i, o) && i + Pow2(o) <= n :: BuddyOf(i, o) < n)
            <==> n == Pow2(Log2Floor(n))
  {
    var m := Log2Floor(n);
    Log2FloorBounds(n);
    if n == Pow2(m) {
      forall i: nat, o: nat {:trigger BuddyOf(i, o)} | o < m && Aligned(i, o) && i + Pow2(o) <= n
        ensures BuddyOf(i, o) < n
      {
        BuddyHalves(i, o);
        if Aligned(i, o + 1) {
          AlignedBlockFits(i, o + 1, m);
        }
      }
    } else {
      var i, o := LastBlock(n);
      assert BuddyOf(i, o) >= n;
    }
  }

  /** The last, smallest block made by `page_allocator_init` when the page count is not a power of two has no buddy. */
  lemma {:induction false} LastBlock(n: nat) returns (i: nat, o: nat)
    requires n > 0 && n != Pow2(Log2Floor(n))
    ensures o < Log2Floor(n) && Aligned(i, o) && i + Pow2(o) == n && BuddyOf(i, o) >= n
  {
    var m := Log2Floor(n);
    Log2FloorBounds(n);
    if n % 2 == 1 {
      i, o := n - 1, 0;
      assert Pow2(0) == 1 && Pow2(1) == 2;
      assert m > 0;
      BuddyHalves(i, o);
    } else {
      var i', o' := LastBlock(n / 2);
      i, o := 2 * i', o' + 1;
      DoubledAligned(i', o');
      DoubledAligned(i', o' + 1);
      BuddyHalves(i', o');
      BuddyHalves(i, o);
    }
  }

  lemma DoubledAligned(i: nat, o: nat)
    ensures Aligned(2 * i, o + 1) <==> Aligned(i, o)
  {
    var c := Pow2(o);
    if Aligned(i, o) {
      assert 2 * i == (2 * c) * (i / c);
      DivUnique(2 * i, 2 * c, i / c, 0);
    } else {
      assert 2 * i == (2 * c) * (i / c) + 2 * (i % c);
      DivUnique(2 * i, 2 * c, i / c, 2 * (i % c));
    }
  }
}
