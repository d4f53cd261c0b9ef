/** The slabs of one object size, and the hint to a free slot (src/kernel/mm/malloc/cache_malloc/cache_malloc.c). */
module SlabCaches {
  import opened Arithmetic
  import opened Descriptors
  import opened Sequences

  const BITS: nat := 64

  /** A 64-bit word of a bitmap, bit by bit. */
  type Bits = w: seq<bool> | |w| == BITS witness seq(BITS, _ => false)

  datatype Layout = Layout(size: nat, entries: nat, pages: nat)

  function Words(y: Layout): nat {
    (y.entries + BITS - 1) / BITS
  }

  function SlabBytes(y: Layout): nat {
    y.pages * PAGE_SIZE
  }

  /** Objects, bitmap, two links and the identifying word share the pages. */
  predicate LayoutOk(y: Layout) {
    y.size > 0 && y.entries > 0 && y.pages > 0 && y.entries * y.size + Words(y) * 8 + 24 <= SlabBytes(y)
  }

  /** `CACHE_PAGES` and `CACHE_ENTRIES`. */
  const LAYOUTS := [Layout(8, 2013, 4), Layout(16, 1014, 4), Layout(32, 509, 4), Layout(64, 255, 4),
                    Layout(128, 127, 4), Layout(256, 63, 4), Layout(512, 31, 4), Layout(1024, 31, 8),
                    Layout(2048, 15, 8)]

  lemma LayoutsOk()
    ensures forall y | y in LAYOUTS :: LayoutOk(y)
  {
  }

  datatype Slab = Slab(base: nat, reserved: seq<Bits>)

  predicate Taken(c: Slab, e: nat) {
    e / BITS < |c.reserved| && c.reserved[e / BITS][e % BITS]
  }

  /** The bits past the last entry are never set. */
  ghost predicate SlabOk(y: Layout, c: Slab) {
    && LayoutOk(y) && |c.reserved| == Words(y) && c.base % SlabBytes(y) == 0
    && forall e: nat {:trigger Taken(c, e)} | Taken(c, e) :: e < y.entries
  }

  ghost predicate Used(c: Slab) {
    exists e: nat :: Taken(c, e)
  }

  ghost predicate Full(y: Layout, c: Slab) {
    forall e: nat {:trigger Taken(c, e)} | e < y.entries :: Taken(c, e)
  }

  function WithBit(c: Slab, e: nat, v: bool): Slab
    requires e / BITS < |c.reserved|
  {
    c.(reserved := c.reserved[e / BITS := c.reserved[e / BITS][e % BITS := v]])
  }

  lemma BitSet(c: Slab, e: nat, v: bool)
    requires e / BITS < |c.reserved|
    ensures forall x: nat {:trigger Taken(WithBit(c, e, v), x)} ::
              Taken(WithBit(c, e, v), x) <==> if x == e then v else Taken(c, x)
  {
    forall x: nat {:trigger Taken(WithBit(c, e, v), x)}
      ensures Taken(WithBit(c, e, v), x) <==> if x == e then v else Taken(c, x)
    {
      if x / BITS == e / BITS && x % BITS == e % BITS { assert x == e; }
    }
  }

  lemma InWords(y: Layout, e: nat)
    requires e < y.entries
    ensures e / BITS < Words(y)
  {
  }

  // find_empty_slot

  /** The valid bits of a word. */
  function EntriesIn(y: Layout, n: nat): (k: nat)
    ensures k <= BITS
  {
    if n < y.entries / BITS then BITS else y.entries % BITS
  }

  lemma EntryInWord(y: Layout, n: nat, i: nat)
    requires n < Words(y) && i < BITS
    ensures i < EntriesIn(y, n) <==> n * BITS + i < y.entries
    ensures (n * BITS + i) / BITS == n && (n * BITS + i) % BITS == i
  {
    DivUnique(n * BITS + i, BITS, n, i);
  }

  ghost predicate TakenFrom(y: Layout, c: Slab, lo: nat, hi: nat) {
    forall e: nat {:trigger Taken(c, e)} | lo <= e < hi && e < y.entries :: Taken(c, e)
  }

  lemma FullWord(y: Layout, c: Slab, n: nat)
    requires SlabOk(y, c) && n < Words(y) && c.reserved[n] == seq(BITS, i => i < EntriesIn(y, n))
    ensures TakenFrom(y, c, n * BITS, (n + 1) * BITS)
  {
    forall e: nat {:trigger Taken(c, e)} | n * BITS <= e < (n + 1) * BITS && e < y.entries ensures Taken(c, e) {
      EntryInWord(y, n, e - n * BITS);
    }
  }

  /**
   * `find_empty_slot`: the first free slot from a place on. Whole words that are full are passed over without a look at
   * their bits.
   */
  method FindEmptySlot(y: Layout, c: Slab, n0: nat, i0: nat) returns (found: bool, n: nat, i: nat)
    requires SlabOk(y, c) && i0 <= BITS
    ensures found ==>
              && n < Words(y) && i < BITS && n0 * BITS + i0 <= n * BITS + i < y.entries
              && !Taken(c, n * BITS + i) && TakenFrom(y, c, n0 * BITS + i0, n * BITS + i)
    ensures !found ==> TakenFrom(y, c, n0 * BITS + i0, y.entries)
  {
    n, i := n0, i0;
    ghost var from := n0 * BITS + i0;
    while n < Words(y)
      invariant n >= n0 && (n == n0 || (from <= n * BITS && TakenFrom(y, c, from, n * BITS)))
      decreases Words(y) - n
    {
      var first := n == n0;
      if c.reserved[n] == seq(BITS, j => j < EntriesIn(y, n)) {
        FullWord(y, c, n);
      } else {
        i := if first then i0 else 0;
        while i < EntriesIn(y, n)
          invariant i <= BITS && from <= n * BITS + i && TakenFrom(y, c, from, n * BITS + i)
        {
          EntryInWord(y, n, i);
          if !c.reserved[n][i] {
            return true, n, i;
          }
          i := i + 1;
        }
        WordDone(y, c, from, n, i);
      }
      n := n + 1;
    }
    PastWords(y, c, from, n);
    found := false;
  }

  lemma WordDone(y: Layout, c: Slab, lo: nat, n: nat, i: nat)
    requires n < Words(y) && EntriesIn(y, n) <= i <= BITS && TakenFrom(y, c, lo, n * BITS + i)
    ensures TakenFrom(y, c, lo, (n + 1) * BITS)
  {
    forall e: nat {:trigger Taken(c, e)} | lo <= e < (n + 1) * BITS && e < y.entries ensures Taken(c, e) {
      if e >= n * BITS + i { EntryInWord(y, n, e - n * BITS); }
    }
  }

  lemma PastWords(y: Layout, c: Slab, lo: nat, n: nat)
    requires n >= Words(y) && (lo >= n * BITS || TakenFrom(y, c, lo, n * BITS))
    ensures TakenFrom(y, c, lo, y.entries)
  {
  }

  // Objects

  function Address(y: Layout, c: Slab, e: nat): nat {
    c.base + e * y.size
  }

  /** `align_down_pt`. */
  function SlabOf(y: Layout, p: nat): nat
    requires LayoutOk(y)
  {
    p - p % SlabBytes(y)
  }

  function EntryAt(y: Layout, p: nat): nat
    requires LayoutOk(y)
  {
    p % SlabBytes(y) / y.size
  }

  /** The pointer is to an entry of its slab. */
  predicate IsEntry(y: Layout, p: nat)
    requires LayoutOk(y)
  {
    p % SlabBytes(y) % y.size == 0 && EntryAt(y, p) < y.entries
  }

  lemma PlaceInBlock(base: nat, b: nat, e: nat, s: nat, n: nat, rest: nat)
    requires b > 0 && s > 0 && base % b == 0 && e < n && n * s + rest <= b
    ensures var p := base + e * s;
            p - p % b == base && p % b % s == 0 && p % b / s == e && p + s + rest <= base + b
  {
    var q := base / b;
    assert base == q * b;
    MulLessEqual(e + 1, n, s);
    assert (e + 1) * s == e * s + s;
    MulNonNegative(e, s);
    DivUnique(base + e * s, b, q, e * s);
    DivUnique(e * s, s, e, 0);
  }

  /** A pointer to an entry gives its slab and its entry back, and the entry ends before the bitmap. */
  lemma AddressParts(y: Layout, c: Slab, e: nat)
    requires SlabOk(y, c) && e < y.entries
    ensures var p := Address(y, c, e);
            && SlabOf(y, p) == c.base && IsEntry(y, p) && EntryAt(y, p) == e
            && p + y.size + Words(y) * 8 + 24 <= c.base + SlabBytes(y)
  {
    PlaceInBlock(c.base, SlabBytes(y), e, y.size, y.entries, Words(y) * 8 + 24);
  }

  lemma EntryBound(y: Layout, p: nat)
    requires LayoutOk(y) && IsEntry(y, p)
    ensures EntryAt(y, p) < y.entries
  {
  }

  lemma EntryAddress(y: Layout, c: Slab, p: nat)
    requires LayoutOk(y) && c.base == SlabOf(y, p) && IsEntry(y, p)
    ensures p == Address(y, c, EntryAt(y, p))
  {
    var at := p % SlabBytes(y);
    assert at == at / y.size * y.size + at % y.size;
  }

  ghost predicate LiveAt(y: Layout, l: seq<Slab>, k: nat, e: nat, p: nat) {
    k < |l| && Taken(l[k], e) && p == Address(y, l[k], e)
  }

  /** An object that was handed out and not yet freed. */
  ghost predicate Live(y: Layout, l: seq<Slab>, p: nat) {
    exists k: nat, e: nat :: LiveAt(y, l, k, e, p)
  }

  ghost predicate SlabsOk(y: Layout, l: seq<Slab>) {
    && (forall k {:trigger l[k]} | 0 <= k < |l| :: SlabOk(y, l[k]) && Used(l[k]))
    && (forall j, k | 0 <= j < k < |l| :: l[j].base != l[k].base)
  }

  /** Live objects do not overlap, and none reaches the bitmap of its slab. */
  lemma LiveApart(y: Layout, l: seq<Slab>, j: nat, d: nat, p: nat, k: nat, e: nat, q: nat)
    requires SlabsOk(y, l) && LiveAt(y, l, j, d, p) && LiveAt(y, l, k, e, q)
    ensures p == q <==> j == k && d == e
    ensures p != q ==> p + y.size <= q || q + y.size <= p
    ensures p + y.size <= l[j].base + SlabBytes(y) - Words(y) * 8 - 24
  {
    assert SlabOk(y, l[j]) && SlabOk(y, l[k]);
    AddressParts(y, l[j], d);
    AddressParts(y, l[k], e);
    if j == k {
      if d < e { MulLessEqual(d + 1, e, y.size); } else if e < d { MulLessEqual(e + 1, d, y.size); }
      assert (d + 1) * y.size == d * y.size + y.size && (e + 1) * y.size == e * y.size + y.size;
    } else {
      BlocksApart(l[j].base, l[k].base, SlabBytes(y));
    }
  }

  lemma BlocksApart(x: nat, z: nat, b: nat)
    requires b > 0 && x % b == 0 && z % b == 0 && x != z
    ensures x + b <= z || z + b <= x
  {
    var u, v := x / b, z / b;
    assert x == u * b && z == v * b;
    if u < v { MulLessEqual(u + 1, v, b); } else { MulLessEqual(v + 1, u, b); }
    assert (u + 1) * b == u * b + b && (v + 1) * b == v * b + b;
  }

  // The hint

  datatype Hint = NoHint | At(base: nat, n: nat, i: nat)

  ghost predicate HintAt(y: Layout, c: Slab, h: Hint) {
    h.At? && c.base == h.base && h.i < BITS && h.n * BITS + h.i < y.entries && !Taken(c, h.n * BITS + h.i)
  }

  /** A hint names a free slot of a slab, and there is none exactly when all slabs are full. */
  ghost predicate HintOk(y: Layout, l: seq<Slab>, h: Hint) {
    if h == NoHint then forall k {:trigger l[k]} | 0 <= k < |l| :: Full(y, l[k])
    else exists k {:trigger l[k]} :: 0 <= k < |l| && HintAt(y, l[k], h)
  }

  /** The scan of all slabs, from the first on. */
  method Rescan(y: Layout, l: seq<Slab>) returns (h: Hint)
    requires SlabsOk(y, l)
    ensures HintOk(y, l, h)
  {
    for k := 0 to |l|
      invariant forall j {:trigger l[j]} | 0 <= j < k :: Full(y, l[j])
    {
      assert SlabOk(y, l[k]);
      var found, n, i := FindEmptySlot(y, l[k], 0, 0);
      if found {
        assert HintAt(y, l[k], At(l[k].base, n, i));
        return At(l[k].base, n, i);
      }
    }
    h := NoHint;
  }

  // One bit changes

  /** All slabs are sound, and all but the `k`-th hold an object. */
  ghost predicate SlabsBut(y: Layout, l: seq<Slab>, k: nat) {
    && (forall j {:trigger l[j]} | 0 <= j < |l| :: SlabOk(y, l[j]) && (j != k ==> Used(l[j])))
    && (forall i, j | 0 <= i < j < |l| :: l[i].base != l[j].base)
  }

  lemma SamePlace(y: Layout, l: seq<Slab>, k: nat, e: nat, j: nat, d: nat)
    requires SlabsBut(y, l, k) && k < |l| && j < |l| && e < y.entries && d < y.entries
    requires Address(y, l[k], e) == Address(y, l[j], d)
    ensures j == k && d == e
  {
    assert SlabOk(y, l[j]) && SlabOk(y, l[k]);
    AddressParts(y, l[k], e);
    AddressParts(y, l[j], d);
  }

  lemma SlotSet(y: Layout, l: seq<Slab>, k: nat, e: nat, v: bool)
    requires k < |l| && SlabsBut(y, l, k) && e < y.entries && e / BITS < |l[k].reserved|
    ensures var l', p := l[k := WithBit(l[k], e, v)], Address(y, l[k], e);
            && SlabsBut(y, l', k) && l'[k].base == l[k].base && (Live(y, l, p) <==> Taken(l[k], e))
            && forall q: nat {:trigger Live(y, l', q)} :: Live(y, l', q) <==> if q == p then v else Live(y, l, q)
  {
    var l', p := l[k := WithBit(l[k], e, v)], Address(y, l[k], e);
    BitSet(l[k], e, v);
    assert l'[k].base == l[k].base;
    hide WithBit;
    forall j {:trigger l'[j]} | 0 <= j < |l'| ensures SlabOk(y, l'[j]) && (j != k ==> Used(l'[j])) {
      assert SlabOk(y, l[j]);
    }
    if Taken(l[k], e) { assert LiveAt(y, l, k, e, p); }
    if v { assert LiveAt(y, l', k, e, p); }
    SlotAlone(y, l, k, e);
    SlotAlone(y, l', k, e);
    forall q: nat {:trigger Live(y, l', q)} | q != p ensures Live(y, l', q) <==> Live(y, l, q) {
      if Live(y, l, q) {
        var j: nat, d: nat :| LiveAt(y, l, j, d, q);
        assert LiveAt(y, l', j, d, q);
      }
      if Live(y, l', q) {
        var j: nat, d: nat :| LiveAt(y, l', j, d, q);
        assert LiveAt(y, l, j, d, q);
      }
    }
  }

  lemma SlotAlone(y: Layout, l: seq<Slab>, k: nat, e: nat)
    requires k < |l| && SlabsBut(y, l, k) && e < y.entries
    ensures Live(y, l, Address(y, l[k], e)) ==> Taken(l[k], e)
  {
    var p := Address(y, l[k], e);
    if Live(y, l, p) {
      var j: nat, d: nat :| LiveAt(y, l, j, d, p);
      assert SlabOk(y, l[j]);
      SamePlace(y, l, k, e, j, d);
    }
  }

  lemma SlabGone(y: Layout, l: seq<Slab>, k: nat)
    requires k < |l| && SlabsBut(y, l, k) && !Used(l[k])
    ensures SlabsOk(y, Without(l, k))
    ensures forall q: nat {:trigger Live(y, Without(l, k), q)} :: Live(y, Without(l, k), q) <==> Live(y, l, q)
  {
    var l' := Without(l, k);
    forall j {:trigger l'[j]} | 0 <= j < |l'| ensures SlabOk(y, l'[j]) && Used(l'[j]) {
      var x := if j < k then j else j + 1;
      assert l'[j] == l[x];
    }
    forall q: nat {:trigger Live(y, l', q)} ensures Live(y, l', q) <==> Live(y, l, q) {
      if Live(y, l, q) {
        var j: nat, d: nat :| LiveAt(y, l, j, d, q);
        assert LiveAt(y, l', if j < k then j else j - 1, d, q);
      }
      if Live(y, l', q) {
        var j: nat, d: nat :| LiveAt(y, l', j, d, q);
        assert LiveAt(y, l, if j < k then j else j + 1, d, q);
      }
    }
  }

  /** `BadPointer` stands for the assertions on the place of a pointer in its slab. */
  datatype FreeOutcome = Freed(released: bool) | DoubleFree | BadPointer | NoSlab

  lemma NewSlab(y: Layout, l: seq<Slab>, c: Slab)
    requires SlabsOk(y, l) && SlabOk(y, c) && !Used(c) && forall k {:trigger l[k]} | 0 <= k < |l| :: l[k].base != c.base
    ensures SlabsBut(y, l + [c], |l|)
    ensures forall q: nat {:trigger Live(y, l + [c], q)} :: Live(y, l + [c], q) <==> Live(y, l, q)
  {
    var l' := l + [c];
    assert forall k | 0 <= k < |l| :: l'[k] == l[k];
    forall q: nat {:trigger Live(y, l', q)} ensures Live(y, l', q) <==> Live(y, l, q) {
      if Live(y, l, q) {
        var j: nat, d: nat :| LiveAt(y, l, j, d, q);
        assert LiveAt(y, l', j, d, q);
      }
      if Live(y, l', q) {
        var j: nat, d: nat :| LiveAt(y, l', j, d, q);
        assert LiveAt(y, l, j, d, q);
      }
    }
  }

  ghost predicate AllFull(y: Layout, l: seq<Slab>) {
    forall k {:trigger l[k]} | 0 <= k < |l| :: Full(y, l[k])
  }

  function HintAddress(y: Layout, h: Hint): nat
    requires h.At?
  {
    h.base + (h.n * BITS + h.i) * y.size
  }

  lemma HintMeans(y: Layout, l: seq<Slab>, h: Hint)
    requires HintOk(y, l, h)
    ensures h == NoHint <==> AllFull(y, l)
  {
  }

  lemma SlabAt(y: Layout, l: seq<Slab>, k: nat)
    requires k < |l| && SlabsBut(y, l, k)
    ensures SlabOk(y, l[k]) && |l[k].reserved| == Words(y)
  {
  }

  lemma NowUsed(y: Layout, l: seq<Slab>, k: nat, e: nat)
    requires k < |l| && e / BITS < |l[k].reserved| && SlabsBut(y, l[k := WithBit(l[k], e, true)], k)
    ensures SlabsOk(y, l[k := WithBit(l[k], e, true)])
  {
    BitSet(l[k], e, true);
    assert Taken(WithBit(l[k], e, true), e);
  }

  ghost predicate InSlab(y: Layout, l: seq<Slab>, p: nat)
    requires LayoutOk(y)
  {
    exists k {:trigger l[k]} :: 0 <= k < |l| && l[k].base == SlabOf(y, p)
  }

  /** The slab that a pointer falls into decides whether it is live. */
  lemma LiveIff(y: Layout, l: seq<Slab>, p: nat, k: nat)
    requires LayoutOk(y) && SlabsOk(y, l) && k < |l| && l[k].base == SlabOf(y, p)
    ensures InSlab(y, l, p) && (Live(y, l, p) <==> IsEntry(y, p) && Taken(l[k], EntryAt(y, p)))
    ensures IsEntry(y, p) ==> p == Address(y, l[k], EntryAt(y, p))
  {
    if IsEntry(y, p) { EntryAddress(y, l[k], p); }
    hide LayoutOk, SlabOf, IsEntry, EntryAt, Address;
    if Live(y, l, p) { var d := EntryOf(y, l, k, p); }
    if IsEntry(y, p) && Taken(l[k], EntryAt(y, p)) { assert LiveAt(y, l, k, EntryAt(y, p), p); }
  }

  lemma NotLive(y: Layout, l: seq<Slab>, p: nat)
    requires LayoutOk(y) && SlabsOk(y, l) && !InSlab(y, l, p)
    ensures !Live(y, l, p)
  {
    hide LayoutOk, SlabOf, IsEntry, EntryAt, Address;
    if Live(y, l, p) {
      var j: nat, d: nat :| LiveAt(y, l, j, d, p);
      assert SlabOk(y, l[j]);
      AddressParts(y, l[j], d);
    }
  }

  /** No other live object is in the slab. */
  ghost predicate LastOf(y: Layout, l: seq<Slab>, p: nat)
    requires LayoutOk(y)
  {
    forall q: nat {:trigger Live(y, l, q)} | Live(y, l, q) && q != p :: SlabOf(y, q) != SlabOf(y, p)
  }

  lemma LastIff(y: Layout, l: seq<Slab>, k: nat, e: nat)
    requires SlabsOk(y, l) && k < |l| && Taken(l[k], e)
    ensures LayoutOk(y) && e / BITS < |l[k].reserved|
    ensures !Used(WithBit(l[k], e, false)) <==> LastOf(y, l, Address(y, l[k], e))
  {
    var p, c := Address(y, l[k], e), WithBit(l[k], e, false);
    assert SlabOk(y, l[k]);
    BitSet(l[k], e, false);
    hide WithBit, LayoutOk, SlabOf, IsEntry, EntryAt, Address;
    AddressParts(y, l[k], e);
    if Used(c) {
      var d: nat :| Taken(c, d);
      OtherInSlab(y, l, k, e, d);
    }
    forall q: nat {:trigger Live(y, l, q)} | Live(y, l, q) && q != p && SlabOf(y, q) == SlabOf(y, p)
      ensures Used(c)
    {
      var d := EntryOf(y, l, k, q);
      assert Taken(c, d);
    }
  }

  lemma OtherInSlab(y: Layout, l: seq<Slab>, k: nat, e: nat, d: nat)
    requires SlabsOk(y, l) && k < |l| && Taken(l[k], e) && Taken(l[k], d) && d != e
    ensures LayoutOk(y) && !LastOf(y, l, Address(y, l[k], e))
  {
    hide LayoutOk, SlabOf, IsEntry, EntryAt, Address;
    assert SlabOk(y, l[k]);
    AddressParts(y, l[k], e);
    AddressParts(y, l[k], d);
    assert LiveAt(y, l, k, d, Address(y, l[k], d));
    assert Live(y, l, Address(y, l[k], d));
  }

  lemma EntryOf(y: Layout, l: seq<Slab>, k: nat, q: nat) returns (d: nat)
    requires SlabsOk(y, l) && k < |l| && LayoutOk(y) && Live(y, l, q) && SlabOf(y, q) == l[k].base
    ensures Taken(l[k], d) && q == Address(y, l[k], d) && IsEntry(y, q) && EntryAt(y, q) == d
  {
    hide LayoutOk, SlabOf, IsEntry, EntryAt, Address;
    var j: nat, x: nat :| LiveAt(y, l, j, x, q);
    assert SlabOk(y, l[j]);
    AddressParts(y, l[j], x);
    d := x;
  }

  /** A hint stays good when a slot is freed. */
  lemma HintKept(y: Layout, l: seq<Slab>, h: Hint, k: nat, e: nat)
    requires HintOk(y, l, h) && h.At? && k < |l| && e / BITS < |l[k].reserved|
    ensures HintOk(y, l[k := WithBit(l[k], e, false)], h)
  {
    var l' := l[k := WithBit(l[k], e, false)];
    BitSet(l[k], e, false);
    var j :| 0 <= j < |l| && HintAt(y, l[j], h);
    assert HintAt(y, l'[j], h);
  }

  lemma HintMade(y: Layout, l: seq<Slab>, k: nat, e: nat)
    requires k < |l| && e / BITS < |l[k].reserved| && e < y.entries
    ensures HintOk(y, l[k := WithBit(l[k], e, false)], At(l[k].base, e / BITS, e % BITS))
  {
    var l', h := l[k := WithBit(l[k], e, false)], At(l[k].base, e / BITS, e % BITS);
    BitSet(l[k], e, false);
    assert e / BITS * BITS + e % BITS == e;
    assert HintAt(y, l'[k], h);
  }

  /** A hint stays good when another slab goes. */
  lemma HintOther(y: Layout, l: seq<Slab>, h: Hint, k: nat)
    requires HintOk(y, l, h) && h.At? && k < |l| && h.base != l[k].base
    ensures HintOk(y, Without(l, k), h)
  {
    var j :| 0 <= j < |l| && HintAt(y, l[j], h);
    var j' := if j < k then j else j - 1;
    assert Without(l, k)[j'] == l[j];
  }

  lemma StillUsed(y: Layout, l: seq<Slab>, k: nat)
    requires k < |l| && SlabsBut(y, l, k) && Used(l[k])
    ensures SlabsOk(y, l)
  {
  }

  lemma AllUsed(y: Layout, l: seq<Slab>, k: nat)
    requires k < |l| && SlabsOk(y, l)
    ensures SlabsBut(y, l, k) && SlabOk(y, l[k]) && |l[k].reserved| == Words(y)
  {
  }

  class SizeClass {
    const y: Layout
    var slabs: seq<Slab>
    var hint: Hint

    ghost predicate Valid()
      reads this
    {
      LayoutOk(y) && SlabsOk(y, slabs) && HintOk(y, slabs, hint)
    }

    constructor (layout: Layout)
      requires LayoutOk(layout)
      ensures Valid() && y == layout && slabs == [] && hint == NoHint
    {
      y, slabs, hint := layout, [], NoHint;
    }

    method Find(base: nat) returns (k: nat)
      ensures k <= |slabs| && (k < |slabs| ==> slabs[k].base == base)
      ensures k == |slabs| ==> forall j {:trigger slabs[j]} | 0 <= j < |slabs| :: slabs[j].base != base
    {
      k := 0;
      while k < |slabs| && slabs[k].base != base
        invariant k <= |slabs| && forall j {:trigger slabs[j]} | 0 <= j < k :: slabs[j].base != base
      {
        k := k + 1;
      }
    }

    /** The slab to take a slot of, and where to look in it; `page` is what `raw_kmalloc` gives. */
    method Choose(page: nat) returns (k: nat, n: nat, i: nat)
      requires Valid() && page % SlabBytes(y) == 0
      requires forall j {:trigger slabs[j]} | 0 <= j < |slabs| :: slabs[j].base != page
      modifies this`slabs
      ensures k < |slabs| && SlabsBut(y, slabs, k) && i < BITS && n * BITS + i < y.entries
      ensures !Taken(slabs[k], n * BITS + i)
      ensures if hint == NoHint then slabs == old(slabs) + [slabs[k]] && slabs[k].base == page && n == i == 0
              else slabs == old(slabs) && hint == At(slabs[k].base, n, i)
      ensures forall q: nat {:trigger Live(y, slabs, q)} :: Live(y, slabs, q) <==> Live(y, old(slabs), q)
    {
      if hint.At? {
        k := Find(hint.base);
        n, i := hint.n, hint.i;
      } else {
        var c := Slab(page, seq(Words(y), _ => seq(BITS, _ => false)));
        NewSlab(y, slabs, c);
        k := |slabs|;
        slabs := slabs + [c];
        n, i := 0, 0;
      }
    }

    /** The hint after a slot was taken: the next free one of the slab, or the first of all slabs. */
    method SetHint(k: nat, n: nat, i: nat)
      requires SlabsOk(y, slabs) && k < |slabs| && i <= BITS
      modifies this`hint
      ensures HintOk(y, slabs, hint)
    {
      var found, n', i' := FindEmptySlot(y, slabs[k], n, i);
      if found {
        hint := At(slabs[k].base, n', i');
        assert HintAt(y, slabs[k], hint);
      } else {
        hint := Rescan(y, slabs);
      }
    }

    /**
     * `cache_malloc`. The slot search never fails, a new slab is taken exactly when all slabs are full, and the object
     * is one that no one has.
     */
    method Malloc(page: nat) returns (p: nat)
      requires Valid() && page % SlabBytes(y) == 0
      requires forall j {:trigger slabs[j]} | 0 <= j < |slabs| :: slabs[j].base != page
      modifies this
      ensures Valid() && !Live(y, old(slabs), p)
      ensures forall q: nat {:trigger Live(y, slabs, q)} :: Live(y, slabs, q) <==> Live(y, old(slabs), q) || q == p
      ensures if AllFull(y, old(slabs)) then |slabs| == |old(slabs)| + 1 && p == slabs[|old(slabs)|].base == page
              else |slabs| == |old(slabs)| && old(hint).At? && p == HintAddress(y, old(hint))
    {
      hide SlabsOk, SlabOk, LayoutOk, SlabsBut, Live, WithBit, HintOk, AllFull;
      HintMeans(y, slabs, hint);
      var k, n, i := Choose(page);
      ghost var l := slabs;
      var e := n * BITS + i;
      SlabAt(y, l, k);
      var found;
      found, n, i := FindEmptySlot(y, slabs[k], n, i);
      assert found && n * BITS + i == e;
      EntryInWord(y, n, i);
      SlotSet(y, l, k, e, true);
      SlotAlone(y, l, k, e);
      p := slabs[k].base + e * y.size;
      slabs := slabs[k := WithBit(slabs[k], e, true)];
      NowUsed(y, l, k, e);
      SetHint(k, n, i);
    }

    /** The test for an empty bitmap. */
    static method IsEmpty(c: Slab) returns (empty: bool)
      ensures empty <==> !Used(c)
    {
      for j := 0 to |c.reserved|
        invariant forall e: nat {:trigger Taken(c, e)} | e / BITS < j :: !Taken(c, e)
      {
        if c.reserved[j] != seq(BITS, _ => false) {
          ghost var i: nat :| i < BITS && c.reserved[j][i];
          DivUnique(j * BITS + i, BITS, j, i);
          assert Taken(c, j * BITS + i);
          return false;
        }
      }
      empty := true;
    }

    /** A slab without objects goes, and with it a hint into it. */
    method DropSlab(k: nat)
      requires k < |slabs| && SlabsBut(y, slabs, k) && !Used(slabs[k]) && (hint.At? ==> HintOk(y, slabs, hint))
      modifies this
      ensures slabs == Without(old(slabs), k) && SlabsOk(y, slabs) && HintOk(y, slabs, hint)
      ensures forall q: nat {:trigger Live(y, slabs, q)} :: Live(y, slabs, q) <==> Live(y, old(slabs), q)
    {
      hide SlabsOk, SlabOk, SlabsBut, Live, HintOk, Used;
      SlabGone(y, slabs, k);
      var base := slabs[k].base;
      if hint.At? && hint.base != base { HintOther(y, slabs, hint, k); }
      slabs := Without(slabs, k);
      if hint.At? && hint.base == base {
        hint := NoHint;
      }
      if hint == NoHint {
        hint := Rescan(y, slabs);
      }
    }

    /** The slab and the entry that a pointer stands for. */
    method Locate(p: nat) returns (r: FreeOutcome, k: nat, e: nat)
      requires Valid()
      ensures (r.Freed? <==> Live(y, slabs, p)) && (r == NoSlab <==> !InSlab(y, slabs, p))
      ensures r == DoubleFree <==> InSlab(y, slabs, p) && IsEntry(y, p) && !Live(y, slabs, p)
      ensures r.Freed? ==> k < |slabs| && e < y.entries && Taken(slabs[k], e) && p == Address(y, slabs[k], e)
    {
      hide LayoutOk, SlabsOk, SlabOk, Live, HintOk, SlabOf, IsEntry, EntryAt, Address;
      k := Find(SlabOf(y, p));
      if k == |slabs| {
        NotLive(y, slabs, p);
        return NoSlab, 0, 0;
      }
      LiveIff(y, slabs, p, k);
      if !IsEntry(y, p) {
        return BadPointer, 0, 0;
      }
      e := EntryAt(y, p);
      AllUsed(y, slabs, k);
      EntryBound(y, p);
      InWords(y, e);
      r := if slabs[k].reserved[e / BITS][e % BITS] then Freed(false) else DoubleFree;
    }

    /** `cache_free`. Exactly the live objects can be freed; a slab goes back when its last object does. */
    method Free(p: nat) returns (r: FreeOutcome)
      requires Valid()
      modifies this
      ensures Valid() && (r.Freed? <==> Live(y, old(slabs), p))
      ensures !r.Freed? ==> slabs == old(slabs) && hint == old(hint)
      ensures r == NoSlab <==> !InSlab(y, old(slabs), p)
      ensures r == DoubleFree <==> InSlab(y, old(slabs), p) && IsEntry(y, p) && !Live(y, old(slabs), p)
      ensures r.Freed? ==>
                forall q: nat {:trigger Live(y, slabs, q)} :: Live(y, slabs, q) <==> Live(y, old(slabs), q) && q != p
      ensures r.Freed? ==> |slabs| == |old(slabs)| - if r.released then 1 else 0
      ensures r.Freed? ==> (r.released <==> LastOf(y, old(slabs), p))
    {
      hide SlabsOk, SlabOk, SlabsBut, Live, WithBit, HintOk, Used, LastOf, Taken, InSlab, IsEntry,
        LayoutOk, Address;
      var k, e;
      r, k, e := Locate(p);
      if !r.Freed? {
        return;
      }
      ghost var l := slabs;
      AllUsed(y, l, k);
      InWords(y, e);
      SlotSet(y, l, k, e, false);
      LastIff(y, l, k, e);
      slabs := slabs[k := WithBit(slabs[k], e, false)];
      if hint.At? { HintKept(y, l, hint, k, e); }
      var empty := IsEmpty(slabs[k]);
      if !empty {
        StillUsed(y, slabs, k);
        if hint == NoHint {
          HintMade(y, l, k, e);
          hint := At(slabs[k].base, e / BITS, e % BITS);
        }
        return Freed(false);
      }
      DropSlab(k);
      r := Freed(true);
    }
  }
}
