/** Ticks and nanoseconds by multiply and shift (src/kernel/time/time.h:38-75, src/kernel/time/timer.c:25-44). */
module Clock {
  import opened Arithmetic

  const NS: nat := 1_000_000_000

  lemma DivLess(x: nat, b: nat, c: nat)
    requires b > 0
    ensures x / b < c <==> x < c * b
  {
    var q, r := x / b, x % b;
    assert x == q * b + r;
    if q < c {
      MulNonNegative(c - 1 - q, b);
      assert (c - 1 - q) * b == c * b - b - q * b;
    } else {
      MulNonNegative(q - c, b);
      assert (q - c) * b == q * b - c * b;
    }
  }

  lemma Doubled(a: nat, shift: nat)
    ensures a * Pow2(shift + 1) == 2 * (a * Pow2(shift))
  {
  }

  lemma Pow34()
    ensures Pow2(0) == 1 && Pow2(34) == 4 * U32 && Pow2(35) == 8 * U32
  {
    assert Pow2(8) == 256;
    Pow2Add(8, 8);
    Pow2Add(16, 16);
    Pow2Add(32, 2);
    Pow2Add(32, 3);
  }

  /** The shift is tried at `shift + 1` by the loop: all smaller shifts leave a multiplier below 2^32. */
  ghost predicate Tried(a: nat, b: nat, shift: nat)
    requires b > 0
  {
    forall j: nat {:trigger Pow2(j)} | 1 <= j <= shift :: a * Pow2(j) / b < U32
  }

  /** No left shift of the loop leaves 64 bits. */
  ghost predicate NoOverflow(a: nat, b: nat)
    requires b > 0
  {
    forall k: nat {:trigger Tried(a, b, k)} | Tried(a, b, k) :: a * Pow2(k + 1) < U64
  }

  /** The loop of `compute_mult_shift` for the ratio `a / b`: the largest shift whose multiplier fits 32 bits. */
  method Scale(a: nat, b: nat) returns (mult: nat, shift: nat)
    requires 0 < a < U32 * b && NoOverflow(a, b)
    ensures mult == a * Pow2(shift) / b && mult < U32 && U32 <= a * Pow2(shift + 1) / b
  {
    Pow34();
    hide Pow2, NoOverflow, Tried;
    shift := 0;
    DivLess(a, b, U32);
    NothingTried(a, b);
    ghost var x := a;
    while a * Pow2(shift + 1) / b < U32
      invariant Tried(a, b, shift) && x == a * Pow2(shift) && x < U32 * b && x > 0
      decreases U32 * b - x
    {
      Doubled(a, shift);
      DivLess(2 * x, b, U32);
      TriedNext(a, b, shift);
      shift := shift + 1;
      x := 2 * x;
    }
    mult := a * Pow2(shift) / b;
    DivLess(x, b, U32);
  }

  lemma NothingTried(a: nat, b: nat)
    requires b > 0
    ensures Tried(a, b, 0)
  {
  }

  lemma TriedNext(a: nat, b: nat, shift: nat)
    requires b > 0 && Tried(a, b, shift) && a * Pow2(shift + 1) / b < U32
    ensures Tried(a, b, shift + 1)
  {
  }

  /** Nanoseconds per tick can be computed in 64 bits exactly when the frequency is at most 4 GHz. */
  lemma NsOverflowIff(freq: nat)
    requires freq > 0
    ensures NoOverflow(NS, freq) <==> freq <= 4 * NS
  {
    Pow34();
    if freq <= 4 * NS {
      forall k: nat {:trigger Tried(NS, freq, k)} | Tried(NS, freq, k) ensures NS * Pow2(k + 1) < U64 {
        if k >= 34 {
          assert NS * Pow2(34) / freq < U32;
          DivLess(NS * (4 * U32), freq, U32);
        } else {
          Pow2Monotone(k + 1, 34);
        }
      }
    } else {
      forall j: nat {:trigger Pow2(j)} | 1 <= j <= 34 ensures NS * Pow2(j) / freq < U32 {
        Pow2Monotone(j, 34);
        DivLess(NS * Pow2(j), freq, U32);
      }
      assert Tried(NS, freq, 34) && NS * Pow2(34 + 1) >= U64;
    }
  }

  /** Ticks per nanosecond never overflow: the loop stops before 2^63. */
  lemma TicksNoOverflow(freq: nat)
    requires 0 < freq < U64 / 2
    ensures NoOverflow(freq, NS)
  {
    forall k: nat {:trigger Tried(freq, NS, k)} | Tried(freq, NS, k) ensures freq * Pow2(k + 1) < U64 {
      if k > 0 {
        assert freq * Pow2(k) / NS < U32;
        DivLess(freq * Pow2(k), NS, U32);
        Doubled(freq, k);
      } else {
        assert Pow2(1) == 2 * Pow2(0);
      }
    }
  }

  /** `compute_mult_shift`. Both multipliers fit 32 bits and round down, and neither shift could be one larger. */
  method ComputeMultShift(freq: nat) returns (mult: nat, shift: nat, invMult: nat, invShift: nat)
    requires 0 < freq <= 4 * NS
    ensures mult < U32 && invMult < U32
    ensures Scales(NS, freq, mult, shift) && Scales(freq, NS, invMult, invShift)
    ensures U32 <= NS * Pow2(shift + 1) / freq && U32 <= freq * Pow2(invShift + 1) / NS
  {
    NsOverflowIff(freq);
    TicksNoOverflow(freq);
    hide Pow2, NoOverflow, Scales;
    mult, shift := Scale(NS, freq);
    invMult, invShift := Scale(freq, NS);
    ScaleRounds(NS, freq, mult, shift);
    ScaleRounds(freq, NS, invMult, invShift);
  }

  /** Multiply and shift, before the result is cut to 64 bits. */
  function Convert(x: nat, mult: nat, shift: nat): nat {
    Quotient(x * mult, Pow2(shift));
    x * mult / Pow2(shift)
  }

  lemma Quotient(x: nat, c: nat)
    requires c > 0
    ensures x / c >= 0
  {
    DivLess(x, c, 0);
  }

  /** The scale for a ratio rounds down: `mult / 2^shift <= a / b`, by less than one unit of the last place. */
  ghost predicate Scales(a: nat, b: nat, mult: nat, shift: nat) {
    mult * b <= a * Pow2(shift) < (mult + 1) * b
  }

  lemma ScaleRounds(a: nat, b: nat, mult: nat, shift: nat)
    requires b > 0 && mult == a * Pow2(shift) / b
    ensures Scales(a, b, mult, shift)
  {
    var x := a * Pow2(shift);
    assert x == mult * b + x % b;
    assert (mult + 1) * b == mult * b + b;
  }

  /** Conversion is monotone. */
  lemma ConversionMonotone(x: nat, y: nat, mult: nat, shift: nat)
    requires x <= y
    ensures Convert(x, mult, shift) <= Convert(y, mult, shift)
  {
    hide Pow2;
    MulNonNegative(y - x, mult);
    assert (y - x) * mult == y * mult - x * mult;
    var p := Pow2(shift);
    DivLess(y * mult, p, y * mult / p + 1);
    DivLess(x * mult, p, y * mult / p + 1);
  }

  lemma CancelLessEqual(x: nat, y: nat, c: nat)
    requires c > 0 && x * c <= y * c
    ensures x <= y
  {
    if x > y { MulLessEqual(y + 1, x, c); }
  }

  /** A conversion never exceeds the exact ratio, and is short of it by less than one unit plus one part in 2^shift. */
  lemma ConversionError(x: nat, a: nat, b: nat, mult: nat, shift: nat)
    requires b > 0 && Scales(a, b, mult, shift)
    ensures var y := Convert(x, mult, shift);
            y * b <= x * a && x * a * Pow2(shift) <= (y + 1) * Pow2(shift) * b + x * b
  {
    hide Pow2;
    var p := Pow2(shift);
    var y, r := x * mult / p, x * mult % p;
    assert x * mult == y * p + r;
    ErrorBound(x, a, b, mult, p, y, r);
  }

  lemma ErrorBound(x: nat, a: nat, b: nat, mult: nat, p: nat, y: nat, r: nat)
    requires p > 0 && b > 0 && mult * b <= a * p < (mult + 1) * b && x * mult == y * p + r && r < p
    ensures y * b <= x * a && x * a * p <= (y + 1) * p * b + x * b
  {
    MulLessEqual(mult * b, a * p, x);
    assert mult * b * x == (x * mult) * b && a * p * x == (x * a) * p by { Shuffle(mult, b, x); Shuffle(a, p, x); }
    MulLessEqual(y * p, x * mult, b);
    assert (y * p) * b == (y * b) * p by { Shuffle(y, p, b); }
    CancelLessEqual(y * b, x * a, p);
    MulLessEqual(a * p, (mult + 1) * b, x);
    assert (mult + 1) * b * x == (x * mult) * b + x * b by { Shuffle(mult + 1, b, x); Distribute(x, mult, b); }
    MulLessEqual(x * mult, (y + 1) * p, b) by { assert (y + 1) * p == y * p + p; }
  }

  lemma Shuffle(a: nat, b: nat, c: nat)
    ensures a * b * c == (c * a) * b && a * b * c == (a * c) * b
  {
  }

  lemma Distribute(x: nat, m: nat, b: nat)
    ensures (x * (m + 1)) * b == (x * m) * b + x * b
  {
    assert x * (m + 1) == x * m + x;
  }

  // The casts to 64 bits

  /** A number cut to 64 bits and read with a sign. */
  function Signed(x: nat): int {
    if x % U64 < U64 / 2 then x % U64 else x % U64 - U64
  }

  /** `tick_to_ns`. */
  function TickToNs(ticks: nat, mult: nat, shift: nat): int {
    Signed(Convert(ticks, mult, shift))
  }

  /** `ns_to_tick`: the difference is read without a sign. */
  function NsToTick(ns: int, invMult: nat, invShift: nat): nat {
    Convert(ns % U64, invMult, invShift) % U64
  }

  lemma SignedIs(x: nat)
    ensures Signed(x) <= x && (Signed(x) == x <==> x < U64 / 2)
    ensures U64 / 2 <= x < U64 ==> Signed(x) < 0
  {
    if x < U64 { DivUnique(x, U64, 0, x); }
  }

  /** One more tick adds at most the multiplier. */
  lemma NextTick(x: nat, mult: nat, shift: nat)
    ensures Convert(x + 1, mult, shift) <= Convert(x, mult, shift) + mult
  {
    hide Pow2;
    var p := Pow2(shift);
    var y := x * mult / p;
    assert x * mult < (y + 1) * p by { DivLess(x * mult, p, y + 1); }
    MulNonNegative(mult, p - 1);
    assert (y + 1 + mult) * p == (y + 1) * p + mult * p && mult * (p - 1) == mult * p - mult;
    assert (x + 1) * mult == x * mult + mult;
    DivLess((x + 1) * mult, p, y + 1 + mult);
  }

  lemma {:induction false} FirstPast(y: nat, mult: nat, shift: nat) returns (x: nat)
    requires Convert(y, mult, shift) >= U64 / 2 && mult < U32
    ensures x <= y && U64 / 2 <= Convert(x, mult, shift) < U64 / 2 + U32
    decreases y
  {
    hide Pow2;
    assert y > 0 by { if y == 0 { DivUnique(0, Pow2(shift), 0, 0); } }
    if Convert(y - 1, mult, shift) >= U64 / 2 {
      x := FirstPast(y - 1, mult, shift);
    } else {
      NextTick(y - 1, mult, shift);
      x := y;
    }
  }

  /** The clock is monotone up to a tick exactly when its nanoseconds have not passed 2^63 by then. */
  lemma MonotoneIff(y: nat, mult: nat, shift: nat)
    requires mult < U32
    ensures (forall x, x': nat {:trigger TickToNs(x, mult, shift), TickToNs(x', mult, shift)} | 0 <= x <= x' <= y ::
               TickToNs(x, mult, shift) <= TickToNs(x', mult, shift))
            <==> Convert(y, mult, shift) < U64 / 2
  {
    hide Convert, Signed;
    if Convert(y, mult, shift) < U64 / 2 {
      forall x, x': nat {:trigger TickToNs(x, mult, shift), TickToNs(x', mult, shift)} | 0 <= x <= x' <= y
        ensures TickToNs(x, mult, shift) <= TickToNs(x', mult, shift)
      {
        ConversionMonotone(x, x', mult, shift);
        ConversionMonotone(x', y, mult, shift);
        SignedIs(Convert(x, mult, shift));
        SignedIs(Convert(x', mult, shift));
      }
    } else {
      var x := FirstPast(y, mult, shift);
      SignedIs(Convert(x, mult, shift));
      StartsAtZero(mult, shift);
      SignedIs(0);
      assert TickToNs(x, mult, shift) < TickToNs(0, mult, shift);
    }
  }

  lemma StartsAtZero(mult: nat, shift: nat)
    ensures Convert(0, mult, shift) == 0
  {
    hide Pow2;
    DivUnique(0, Pow2(shift), 0, 0);
  }

  /**
   * The tick for a time is never later than a tick at which the clock reads at or past it, as long as both scales round
   * down.
   */
  lemma ArmedEarly(ns: nat, freq: nat, mult: nat, shift: nat, invMult: nat, invShift: nat, tick: nat)
    requires freq > 0 && Scales(NS, freq, mult, shift) && Scales(freq, NS, invMult, invShift)
    requires Convert(tick, mult, shift) >= ns
    ensures Convert(ns, invMult, invShift) <= tick
  {
    var reading, armed := Convert(tick, mult, shift), Convert(ns, invMult, invShift);
    ConversionError(tick, NS, freq, mult, shift);
    ConversionError(ns, freq, NS, invMult, invShift);
    MulLessEqual(ns, reading, freq);
    assert armed * NS <= ns * freq <= reading * freq <= tick * NS;
    CancelLessEqual(armed, tick, NS);
  }

  /**
   * The tick that `setup_head_timer` arms, for an event that expires `d` nanoseconds after the clock's offset, is never
   * later than the first tick at which the event has expired; but for an event that expires before the offset it is,
   * unless it happens to be 0.
   */
  lemma ArmedInTimeIff(d: int, freq: nat, mult: nat, shift: nat, invMult: nat, invShift: nat)
    requires freq > 0 && Scales(NS, freq, mult, shift) && Scales(freq, NS, invMult, invShift)
    requires -(U64 / 2) <= d < U64 / 2
    ensures (forall tick: nat {:trigger TickToNs(tick, mult, shift)} | TickToNs(tick, mult, shift) >= d ::
               NsToTick(d, invMult, invShift) <= tick)
            <==> d >= 0 || NsToTick(d, invMult, invShift) == 0
  {
    hide Convert, Signed, Scales;
    if d >= 0 {
      DivUnique(d, U64, 0, d);
      forall tick: nat {:trigger TickToNs(tick, mult, shift)} | TickToNs(tick, mult, shift) >= d
        ensures NsToTick(d, invMult, invShift) <= tick
      {
        SignedIs(Convert(tick, mult, shift));
        ArmedEarly(d, freq, mult, shift, invMult, invShift, tick);
        CutLess(Convert(d, invMult, invShift));
      }
    } else {
      StartsAtZero(mult, shift);
      SignedIs(0);
      assert TickToNs(0, mult, shift) == 0;
    }
  }

  lemma CutLess(x: nat)
    ensures x % U64 <= x
  {
  }

  /** Up to 1 GHz an event before the offset is armed at least 2^32 ticks after the start of the device. */
  lemma ArmedLate(d: int, freq: nat, invMult: nat, invShift: nat)
    requires 0 < freq <= NS && Scales(freq, NS, invMult, invShift) && invMult < U32
    requires U32 <= freq * Pow2(invShift + 1) / NS
    requires -(U64 / 2) <= d < 0
    ensures NsToTick(d, invMult, invShift) >= U32
  {
    var p, z := Pow2(invShift), d + U64;
    DivUnique(d, U64, -1, z);
    assert Pow2(invShift + 1) == 2 * p;
    hide Pow2;
    ScaleSize(freq, invMult, p);
    LateBounds(z, invMult, p);
    var y := z * invMult / p;
    DivLess(z * invMult, p, U32);
    DivLess(z * invMult, p, U64);
    DivUnique(y, U64, 0, y);
  }

  /**
   * With the scales of a clock of at most 1 GHz, the tick that is armed is in time exactly for the events that do not
   * expire before the offset.
   */
  lemma InTimeIffNotBeforeOffset(d: int, freq: nat, mult: nat, shift: nat, invMult: nat, invShift: nat)
    requires 0 < freq <= NS && Scales(NS, freq, mult, shift) && Scales(freq, NS, invMult, invShift)
    requires invMult < U32 <= freq * Pow2(invShift + 1) / NS
    requires -(U64 / 2) <= d < U64 / 2
    ensures (forall tick: nat {:trigger TickToNs(tick, mult, shift)} | TickToNs(tick, mult, shift) >= d ::
               NsToTick(d, invMult, invShift) <= tick)
            <==> d >= 0
  {
    ArmedInTimeIff(d, freq, mult, shift, invMult, invShift);
    if d < 0 { ArmedLate(d, freq, invMult, invShift); }
  }

  lemma ScaleSize(freq: nat, m: nat, p: nat)
    requires 0 < freq <= NS && p > 0 && m * NS <= freq * p < (m + 1) * NS && m < U32 && U32 <= freq * (2 * p) / NS
    ensures U32 / 2 <= m <= p < U32 * NS
  {
    DivLess(freq * (2 * p), NS, U32);
    assert freq * (2 * p) == 2 * (freq * p);
    MulLessEqual(freq, NS, p);
    MulLessEqual(1, freq, p);
    CancelLessEqual(m, p, NS) by { assert NS * p == p * NS; }
    MulLessEqual(m + 1, U32, NS);
  }

  lemma LateBounds(z: nat, m: nat, p: nat)
    requires U64 / 2 <= z < U64 && U32 / 2 <= m <= p < U32 * NS
    ensures U32 * p <= z * m < U64 * p
  {
    MulLessEqual(U64 / 2, z, m);
    MulLessEqual(m, p, z);
    assert z * m == m * z && z * p == p * z;
    MulLessEqual(z, U64 - 1, p);
  }
}
