/**
 * At which levels a request leaves the translations that it makes, and when a later `mmu_unmap` of the same range gets
 * by without tripping an assertion or splitting a block (src/arm/mmu/mmu.c:101-326).
 */
module MmuLevels {
  import opened Arithmetic
  import opened Descriptors
  import opened PageTable
  import opened MmuMeaning
  import opened UnmapMeaning

  /** The slot of an address lies in the range. */
  predicate Whole(v: nat, size: nat, a: nat, level: nat) {
    v <= Slot(a, level) * Cover(level) && Slot(a, level) * Cover(level) + Cover(level) <= v + size
  }

  /**
   * A block above the last level serves the address: its level 2 slot is asked for whole, and both addresses are
   * aligned alike.
   */
  predicate Large(v: nat, pa: nat, size: nat, a: nat) {
    Offset(v, 2) == Offset(pa, 2) && Whole(v, size, a, 2)
  }

  /** A block of the level can serve the address: its slot is asked for whole, and both addresses are aligned alike. */
  predicate Serves(v: nat, pa: nat, size: nat, a: nat, level: nat) {
    Offset(v, level) == Offset(pa, level) && Whole(v, size, a, level)
  }

  function BestLevel(v: nat, pa: nat, size: nat, a: nat): nat {
    if Serves(v, pa, size, a, 1) then 1 else if Serves(v, pa, size, a, 2) then 2 else 3
  }

  /** An address outside the range shares a level 2 slot with it. */
  predicate Beside(v: nat, size: nat, a: nat) {
    size > 0 && Slot(a, 2) == if a < v then Slot(v, 2) else Slot(v + size - 1, 2)
  }

  predicate LeafInside(h: Hit, v: nat, size: nat, a: nat) {
    h.Leaf? && 1 <= h.level <= MAX_LEVEL && Whole(v, size, a, h.level)
  }

  /**
   * Outside the range translations stay, at their level or split; new last-level pages appear only beside the range.
   */
  ghost predicate LevelsKept(mem: Memory, mem': Memory, root: nat, v: nat, size: nat) {
    forall a: nat {:trigger Resolve(mem', root, a)} | a < ADDRESS_SPACE && !(v <= a < v + size) ::
      var h, h' := Resolve(mem, root, a), Resolve(mem', root, a);
      Deeper(h, h') && PagesKept(h, h', Beside(v, size, a))
  }

  /** The range is served by blocks that lie in it, above the last level wherever one fits. */
  ghost predicate LevelsInside(mem: Memory, root: nat, v: nat, pa: nat, size: nat) {
    forall a: nat {:trigger Resolve(mem, root, a)} | a < ADDRESS_SPACE && v <= a < v + size ::
      var h := Resolve(mem, root, a);
      LeafInside(h, v, size, a) && (LastLevelPage(h) <==> !Large(v, pa, size, a))
  }

  /** Every address of the range is served by the largest block that can serve it. */
  ghost predicate LargestBlocks(mem: Memory, root: nat, v: nat, pa: nat, size: nat) {
    forall a: nat {:trigger Resolve(mem, root, a)} | a < ADDRESS_SPACE && v <= a < v + size ::
      Resolve(mem, root, a).Leaf? && Resolve(mem, root, a).level == BestLevel(v, pa, size, a)
  }

  // `mmu_map`

  /** The next round does not start in the middle of a slot that a block of the level would serve. */
  predicate StartsAt(v: nat, pa: nat, size: nat, u: nat, level: nat) {
    Offset(u, level) != 0 ==> !Serves(v, pa, size, u, level)
  }

  predicate BestLeaf(h: Hit, v: nat, pa: nat, size: nat, a: nat) {
    LeafInside(h, v, size, a) && h.level == BestLevel(v, pa, size, a)
  }

  /** The levels after `done` bytes. */
  ghost predicate LevelsProgress(mem: Memory, mem': Memory, root: nat, v: nat, pa: nat, size: nat, done: nat) {
    && StartsAt(v, pa, size, v + done, 1) && StartsAt(v, pa, size, v + done, 2)
    && forall a: nat {:trigger Resolve(mem', root, a)} | a < ADDRESS_SPACE ::
         var h, h' := Resolve(mem, root, a), Resolve(mem', root, a);
         && (v <= a < v + done ==> BestLeaf(h', v, pa, size, a))
         && (a < v ==> PagesKept(h, h', Slot(a, 2) == Slot(v, 2)))
  }

  lemma {:induction false} LevelsStart(mem: Memory, root: nat, v: nat, pa: nat, size: nat)
    ensures LevelsProgress(mem, mem, root, v, pa, size, 0)
  {
    SlotIs(v, 1);
    SlotIs(v, 2);
  }

  lemma {:induction false} SameSlotServes(v: nat, pa: nat, size: nat, a: nat, u: nat, level: nat)
    requires Slot(a, level) == Slot(u, level)
    ensures Serves(v, pa, size, a, level) <==> Serves(v, pa, size, u, level)
  {
  }

  lemma SameRemainder(x: nat, y: nat, d: nat, m: nat)
    requires m > 0 && (x + d) % m == 0
    ensures (y + d) % m == 0 <==> x % m == y % m
  {
    var k := (x + d) / m;
    assert x + d == k * m;
    if x % m == y % m {
      assert y + d == (k + y / m - x / m) * m by { assert (k + y / m - x / m) * m == k * m + y / m * m - x / m * m; }
      DivUnique(y + d, m, k + y / m - x / m, 0);
    }
    if (y + d) % m == 0 {
      var j := (y + d) / m;
      assert y + d == j * m;
      assert x == (k - j + y / m) * m + y % m by { assert (k - j + y / m) * m == k * m - j * m + y / m * m; }
      DivUnique(x, m, k - j + y / m, y % m);
    }
  }

  /** The level of a round is the best one for every address of its block. */
  lemma {:induction false} RoundBest(v: nat, pa: nat, size: nat, done: nat, level: nat, a: nat)
    requires done < size && PageAligned(v + done, pa + done, size - done)
    requires level == TargetLevel(size - done, v + done, pa + done)
    requires StartsAt(v, pa, size, v + done, 1) && StartsAt(v, pa, size, v + done, 2)
    requires v + done <= a < v + done + Cover(level) <= v + size
    ensures Whole(v, size, a, level) && level == BestLevel(v, pa, size, a)
  {
    var u := v + done;
    assert Offset(u, level) == 0 && Offset(pa + done, level) == 0 && 1 <= level <= 3;
    hide Slot, Offset, TargetLevel, Whole;
    BlockWhole(v, size, u, level, a);
    if level <= 1 { RoundServes(v, pa, size, done, level, a, 1); } else { RoundMisses(v, pa, size, done, level, a, 1); }
    if level <= 2 { RoundServes(v, pa, size, done, level, a, 2); } else { RoundMisses(v, pa, size, done, level, a, 2); }
  }

  lemma {:induction false} BlockWhole(v: nat, size: nat, u: nat, level: nat, a: nat)
    requires level <= MAX_LEVEL && Offset(u, level) == 0 && v <= u <= a < u + Cover(level) <= v + size
    ensures Whole(v, size, a, level)
  {
    SlotHolds(u, level, a);
    SlotIs(u, level);
  }

  lemma {:induction false} OffsetAlike(v: nat, pa: nat, done: nat, level: nat)
    requires Offset(v + done, level) == 0
    ensures Offset(pa + done, level) == 0 <==> Offset(v, level) == Offset(pa, level)
  {
    SlotIs(v, level);
    SlotIs(pa, level);
    SlotIs(v + done, level);
    SlotIs(pa + done, level);
    hide Offset, Slot, Cover;
    SameRemainder(v, pa, done, Cover(level));
  }

  lemma {:induction false} RoundMisses(v: nat, pa: nat, size: nat, done: nat, level: nat, a: nat, l: nat)
    requires done < size && level == TargetLevel(size - done, v + done, pa + done)
    requires 1 <= l < level <= MAX_LEVEL && Offset(v + done, level) == 0 && StartsAt(v, pa, size, v + done, l)
    requires v + done <= a < v + done + Cover(level)
    ensures !Serves(v, pa, size, a, l)
  {
    var u := v + done;
    assert !Fits(size - done, u, pa + done, l);
    hide Slot, Offset, TargetLevel;
    SlotHolds(u, level, a);
    SlotsAbove(a, u, level, l);
    SameSlotServes(v, pa, size, a, u, l);
    if Offset(u, l) == 0 {
      OffsetAlike(v, pa, done, l);
      SlotIs(u, l);
    }
  }

  lemma {:induction false} RoundServes(v: nat, pa: nat, size: nat, done: nat, level: nat, a: nat, l: nat)
    requires 1 <= level <= l <= 2 && Offset(v + done, level) == 0 && Offset(pa + done, level) == 0
    requires v + done <= a < v + done + Cover(level) <= v + size
    ensures Serves(v, pa, size, a, l)
  {
    hide Slot, Offset;
    var u := v + done;
    FinerAligned(u, level, l);
    FinerAligned(pa + done, level, l);
    OffsetAlike(v, pa, done, l);
    NextAligned(u, level);
    FinerAligned(u + Cover(level), level, l);
    SlotsBetween(u, a, u + Cover(level), l);
  }

  lemma {:induction false} SlotsBetween(u: nat, a: nat, e: nat, level: nat)
    requires Offset(u, level) == 0 && Offset(e, level) == 0 && u <= a < e
    ensures u <= Slot(a, level) * Cover(level) && Slot(a, level) * Cover(level) + Cover(level) <= e
  {
    SlotIs(u, level);
    SlotIs(a, level);
    SlotIs(e, level);
    hide Slot, Offset, Cover;
    MultipleBetween(Slot(u, level), Slot(a, level), Slot(e, level), Cover(level), Offset(a, level));
  }

  lemma MultipleBetween(x: nat, y: nat, z: nat, c: nat, r: nat)
    requires x * c <= y * c + r < z * c && r < c
    ensures x * c <= y * c && y * c + c <= z * c
  {
    MultipleOrder(x, y, c, r);
    if z <= y { MulNonNegative(y - z, c); }
    MulNonNegative(y - x, c);
    MulNonNegative(z - y - 1, c);
    assert (y - x) * c == y * c - x * c && (z - y - 1) * c == z * c - y * c - c;
  }

  lemma MultipleOrder(x: nat, y: nat, c: nat, r: nat)
    requires x * c <= y * c + r && r < c
    ensures x <= y
  {
    if y < x { MulNonNegative(x - y - 1, c); }
  }

  lemma {:induction false} LevelsStep(m0: Memory, m1: Memory, m2: Memory, root: nat, v: nat, pa: nat, size: nat,
                                      done: nat, level: nat, cfg: PageCfg)
    requires done < size && PageAligned(v + done, pa + done, size - done)
    requires level == TargetLevel(size - done, v + done, pa + done)
    requires Cover(level) <= size - done && Offset(v + done, level) == 0
    requires LevelsProgress(m0, m1, root, v, pa, size, done)
    requires BlockMapped(m1, m2, root, v + done, pa + done, level, cfg)
    ensures LevelsProgress(m0, m2, root, v, pa, size, done + Cover(level))
  {
    hide ResolveFrom, Truncated, Slot, Offset, Serves, Whole, BestLevel, StartsAt, TargetLevel;
    var u := v + done;
    LevelBounds(size - done, u, pa + done);
    forall a: nat {:trigger Resolve(m2, root, a)} | a < ADDRESS_SPACE
      ensures var h, h' := Resolve(m0, root, a), Resolve(m2, root, a);
              && (v <= a < u + Cover(level) ==> BestLeaf(h', v, pa, size, a))
              && (a < v ==> PagesKept(h, h', Slot(a, 2) == Slot(v, 2)))
    {
      var h1 := Resolve(m1, root, a);
      SlotRange(u, level, a);
      if u <= a < u + Cover(level) {
        RoundBest(v, pa, size, done, level, a);
      } else if v <= a < u {
        LeafDepth(m2, root, 0, a);
        EarlierLeaf(h1, Resolve(m2, root, a), v, pa, size, u, a);
      } else if a < v {
        SlotMiddle(a, v, u);
      }
    }
    RoundEnd(v, pa, size, done, level, 1);
    RoundEnd(v, pa, size, done, level, 2);
  }

  lemma {:induction false} LevelBounds(size: nat, va: nat, pa: nat)
    ensures 1 <= TargetLevel(size, va, pa) <= MAX_LEVEL
  {
  }

  lemma {:induction false} LeafDepth(mem: Memory, t: nat, level: nat, v: nat)
    requires level <= MAX_LEVEL && ResolveFrom(mem, t, level, v).Leaf?
    ensures level <= ResolveFrom(mem, t, level, v).level <= MAX_LEVEL
    decreases MAX_LEVEL - level
  {
    var w := mem[t][Index(v, level)];
    if IsTable(w, level) { LeafDepth(mem, w.frame, level + 1, v); }
  }

  lemma {:induction false} SlotMiddle(a: nat, v: nat, u: nat)
    requires a <= v <= u
    ensures Slot(a, 2) == Slot(u, 2) ==> Slot(a, 2) == Slot(v, 2)
  {
  }

  /** A block that was written earlier does not reach to the next round, and is not split by it. */
  lemma {:induction false} EarlierLeaf(h1: Hit, h2: Hit, v: nat, pa: nat, size: nat, u: nat, a: nat)
    requires v <= a < u && BestLeaf(h1, v, pa, size, a) && StartsAt(v, pa, size, u, 1) && StartsAt(v, pa, size, u, 2)
    requires Deeper(h1, h2) && h2.level <= MAX_LEVEL && (h2 != h1 ==> SharesBlock(h1, a, u))
    ensures h2 == h1
  {
    var l := h1.level;
    if h2 != h1 {
      assert l == 1 || l == 2;
      SameSlotServes(v, pa, size, a, u, l);
      SlotIs(a, l);
      SlotIs(u, l);
    }
  }

  lemma {:induction false} FinerWhole(v: nat, size: nat, a: nat, level: nat, finer: nat)
    requires level <= finer <= MAX_LEVEL && Whole(v, size, a, level)
    ensures Whole(v, size, a, finer)
  {
    var m := CoverRatio(level, finer);
    SlotIs(a, level);
    SlotIs(a, finer);
    hide Slot, Offset, Cover;
    LowDiv(a, Cover(finer), m);
    FinerEnds(a, Cover(finer), m, Cover(level));
  }

  lemma FinerEnds(a: nat, c: nat, m: nat, b: nat)
    requires c > 0 && m > 0 && b == c * m > 0
    ensures a / b * b <= a / c * c && a / c * c + c <= a / b * b + b
  {
    var q, r := a / b, a % b;
    LowDiv(a, c, m);
    var s := r / c;
    assert a / c == q * m + s;
    assert a / c * c == q * b + s * c by {
      assert (q * m + s) * c == q * m * c + s * c; assert q * m * c == q * (c * m);
    }
    MulNonNegative(s, c);
    assert s * c <= r;
    StepBelow(s, c, m);
  }

  lemma {:induction false} RoundEnd(v: nat, pa: nat, size: nat, done: nat, level: nat, l: nat)
    requires done < size && level == TargetLevel(size - done, v + done, pa + done)
    requires 1 <= l <= 2 && 1 <= level <= MAX_LEVEL && Offset(v + done, level) == 0
    requires StartsAt(v, pa, size, v + done, l)
    ensures StartsAt(v, pa, size, v + done + Cover(level), l)
  {
    hide Slot, Offset, Serves, Whole, TargetLevel;
    var u := v + done;
    var e := u + Cover(level);
    if Offset(e, l) != 0 {
      if level <= l {
        NextAligned(u, level);
        FinerAligned(e, level, l);
      } else {
        CoarserSlot(u, l, level);
        RoundMisses(v, pa, size, done, level, u, l);
        SameSlotServes(v, pa, size, e, u, l);
      }
    }
  }

  /** What a coarse block can serve a finer one can. */
  lemma {:induction false} FinerServes(v: nat, pa: nat, size: nat, a: nat)
    requires Serves(v, pa, size, a, 1)
    ensures Serves(v, pa, size, a, 2)
  {
    FinerWhole(v, size, a, 1, 2);
    SlotIs(v, 1);
    SlotIs(pa, 1);
    SlotIs(v, 2);
    SlotIs(pa, 2);
    hide Slot, Offset, Whole;
    LowDiv(v, Cover(2), 512);
    LowDiv(pa, Cover(2), 512);
  }

  lemma {:induction false} BestIsLast(v: nat, pa: nat, size: nat, a: nat)
    ensures BestLevel(v, pa, size, a) == MAX_LEVEL <==> !Large(v, pa, size, a)
  {
    if Serves(v, pa, size, a, 1) { FinerServes(v, pa, size, a); }
  }

  lemma {:induction false} LevelsMapped(mem: Memory, mem': Memory, root: nat, v: nat, pa: nat, size: nat, cfg: PageCfg)
    requires LevelsProgress(mem, mem', root, v, pa, size, size) && MapProgress(mem, mem', root, v, pa, size, cfg)
    requires size == 0 ==> mem' == mem
    ensures LevelsKept(mem, mem', root, v, size) && LevelsInside(mem', root, v, pa, size)
    ensures LargestBlocks(mem', root, v, pa, size)
  {
    hide ResolveFrom, Truncated, Large, Whole, BestLevel, StartsAt;
    forall a: nat {:trigger Resolve(mem', root, a)} | a < ADDRESS_SPACE && v <= a < v + size
      ensures var h := Resolve(mem', root, a);
              LeafInside(h, v, size, a) && (LastLevelPage(h) <==> !Large(v, pa, size, a))
    {
      BestIsLast(v, pa, size, a);
    }
    forall a: nat {:trigger Resolve(mem', root, a)} | a < ADDRESS_SPACE && !(v <= a < v + size)
      ensures var h, h' := Resolve(mem, root, a), Resolve(mem', root, a);
              Deeper(h, h') && PagesKept(h, h', Beside(v, size, a))
    {
      if v + size <= a && size > 0 { SlotBefore(v + size, a); }
    }
  }

  lemma {:induction false} SlotBefore(e: nat, a: nat)
    requires 0 < e <= a
    ensures Slot(a, 2) == Slot(e, 2) && Offset(e, 2) != 0 ==> Slot(a, 2) == Slot(e - 1, 2)
  {
  }

  // `mmu_unmap`

  /** Below the range, last-level pages appear only beside it. */
  ghost predicate PagesBefore(mem: Memory, mem': Memory, root: nat, v: nat) {
    forall a: nat {:trigger Resolve(mem', root, a)} | a < v && a < ADDRESS_SPACE ::
      PagesKept(Resolve(mem, root, a), Resolve(mem', root, a), Slot(a, 2) == Slot(v, 2))
  }

  lemma {:induction false} NothingBefore(mem: Memory, root: nat, v: nat)
    ensures PagesBefore(mem, mem, root, v)
  {
  }

  lemma {:induction false} PagesBeforeStep(m0: Memory, m1: Memory, m2: Memory, root: nat, v: nat, u: nat, level: nat)
    requires 1 <= level <= MAX_LEVEL && v <= u && Offset(u, level) == 0 && PagesBefore(m0, m1, root, v)
    requires BlockCleared(m1, m2, root, u, level)
    ensures PagesBefore(m0, m2, root, v)
  {
    hide ResolveFrom, Slot, Offset;
    forall a: nat {:trigger Resolve(m2, root, a)} | a < v && a < ADDRESS_SPACE
      ensures PagesKept(Resolve(m0, root, a), Resolve(m2, root, a), Slot(a, 2) == Slot(v, 2))
    {
      SlotMiddle(a, v, u);
      SlotRange(u, level, a);
    }
  }

  lemma {:induction false} LevelsUnmapped(mem: Memory, mem': Memory, root: nat, v: nat, size: nat, gone: iset<nat>)
    requires UnmapProgress(mem, mem', root, v + size, gone) && PagesBefore(mem, mem', root, v)
    requires forall a: nat | a in gone :: Cleared(mem, root, v, size, a)
    requires size == 0 ==> mem' == mem
    ensures LevelsKept(mem, mem', root, v, size)
  {
    hide ResolveFrom, Cleared;
    forall a: nat {:trigger Resolve(mem', root, a)} | a < ADDRESS_SPACE && !(v <= a < v + size)
      ensures var h, h' := Resolve(mem, root, a), Resolve(mem', root, a);
              Deeper(h, h') && PagesKept(h, h', Beside(v, size, a))
    {
      if a in gone { ClearedInside(mem, root, v, size, a); }
      if v + size <= a && size > 0 { SlotBefore(v + size, a); }
    }
  }

  // Unmapping a range that one request mapped

  ghost predicate HoldsSlot(v: nat, size: nat) {
    exists b: nat {:trigger Offset(b, 2)} :: Offset(b, 2) == 0 && v <= b && b + Cover(2) <= v + size
  }

  /** A range of last-level pages trips the assertion exactly when it holds a level 2 slot whole. */
  lemma {:induction false} PagesUnmapIff(mem: Memory, root: nat, v: nat, size: nat)
    requires v % PAGE_SIZE == 0 && size % PAGE_SIZE == 0 && v + size <= ADDRESS_SPACE
    requires forall a: nat {:trigger Resolve(mem, root, a)} | v <= a < v + size :: LastLevelPage(Resolve(mem, root, a))
    ensures UnmapFails(mem, root, v, size) <==> HoldsSlot(v, size)
    decreases size
  {
    hide Resolve, Slot, Offset, HoldsSlot, ClearFails, RoundBytes, RoundSkips, PagesInSlot, UnmapFails, TargetLevel,
      Cleared, NeedsSplit, SplitsHere;
    if size >= PAGE_SIZE {
      assert LastLevelPage(Resolve(mem, root, v));
      UnmapRound(mem, root, v, size);
      if Offset(v, 2) == 0 && size >= Cover(2) {
        SlotHere(mem, root, v, size);
      } else {
        LastClear(mem, root, v, size);
        RoundAdvance(v, size, PAGE_SIZE);
        PagesUnmapIff(mem, root, v + PAGE_SIZE, size - PAGE_SIZE);
        NoSlotHere(v, size);
      }
    } else {
      TooSmall(v, size);
      assert !UnmapFails(mem, root, v, size) by { NothingLeft(mem, root, v, size); }
    }
  }

  lemma {:induction false} NothingLeft(mem: Memory, root: nat, v: nat, size: nat)
    requires size < PAGE_SIZE
    ensures !UnmapFails(mem, root, v, size)
  {
  }

  lemma {:induction false} TooSmall(v: nat, size: nat)
    requires size < Cover(2)
    ensures !HoldsSlot(v, size)
  {
  }

  lemma {:induction false} LastClear(mem: Memory, root: nat, v: nat, size: nat)
    requires LastLevelPage(Resolve(mem, root, v)) && size >= PAGE_SIZE && (Offset(v, 2) != 0 || size < Cover(2))
    ensures TargetLevel(size, v, 0) == MAX_LEVEL && !ClearFails(mem, root, v, MAX_LEVEL)
    ensures RoundBytes(mem, root, v, size) == PAGE_SIZE
  {
    hide Resolve;
    if Offset(v, 1) == 0 { FinerAligned(v, 1, 2); }
  }

  lemma {:induction false} SlotHere(mem: Memory, root: nat, v: nat, size: nat)
    requires v < ADDRESS_SPACE && LastLevelPage(Resolve(mem, root, v)) && Offset(v, 2) == 0 && size >= Cover(2)
    ensures HoldsSlot(v, size) && ClearFails(mem, root, v, TargetLevel(size, v, 0)) && !RoundSkips(mem, root, v, size)
  {
    hide Resolve;
    var l := TargetLevel(size, v, 0);
    assert Slot(v, l) == Slot(v, l) && PagesInSlot(mem, root, v, l);
  }

  lemma {:induction false} NoSlotHere(v: nat, size: nat)
    requires v % PAGE_SIZE == 0 && size >= PAGE_SIZE && (Offset(v, 2) != 0 || size < Cover(2))
    ensures HoldsSlot(v, size) <==> HoldsSlot(v + PAGE_SIZE, size - PAGE_SIZE)
  {
    if HoldsSlot(v, size) {
      var b: nat :| Offset(b, 2) == 0 && v <= b && b + Cover(2) <= v + size;
      FinerAligned(b, 2, 3);
      assert v + PAGE_SIZE <= b;
    }
  }

  /** Where va and pa are aligned alike, every round above the last level finds blocks only. */
  lemma {:induction false} AlikeUnmaps(mem: Memory, root: nat, v0: nat, pa: nat, size0: nat, v: nat, size: nat)
    requires LevelsInside(mem, root, v0, pa, size0) && Offset(v0, 2) == Offset(pa, 2) && v0 + size0 <= ADDRESS_SPACE
    requires v % PAGE_SIZE == 0 && size % PAGE_SIZE == 0 && v0 <= v && v + size == v0 + size0
    ensures !UnmapFails(mem, root, v, size)
    decreases size
  {
    hide Resolve, Slot, Offset, ClearFails, RoundBytes, RoundSkips, PagesInSlot, UnmapFails, TargetLevel, Cleared,
      NeedsSplit, SplitsHere, LevelsInside;
    if size >= PAGE_SIZE {
      var l := TargetLevel(size, v, 0);
      UnmapRound(mem, root, v, size);
      RoundFits(v, size, l);
      AlikeClear(mem, root, v0, pa, size0, v, size);
      AlikeUnmaps(mem, root, v0, pa, size0, v + Cover(l), size - Cover(l));
    } else {
      NothingLeft(mem, root, v, size);
    }
  }

  lemma {:induction false} AlikeClear(mem: Memory, root: nat, v0: nat, pa: nat, size0: nat, v: nat, size: nat)
    requires LevelsInside(mem, root, v0, pa, size0) && Offset(v0, 2) == Offset(pa, 2) && v0 + size0 <= ADDRESS_SPACE
    requires v % PAGE_SIZE == 0 && size % PAGE_SIZE == 0 && size >= PAGE_SIZE && v0 <= v && v + size == v0 + size0
    ensures var l := TargetLevel(size, v, 0);
            !ClearFails(mem, root, v, l) && RoundBytes(mem, root, v, size) == Cover(l)
  {
    hide Resolve, Slot, Offset, TargetLevel;
    var l := TargetLevel(size, v, 0);
    RoundFits(v, size, l);
    assert Resolve(mem, root, v).Leaf?;
    if l < MAX_LEVEL && PagesInSlot(mem, root, v, l) {
      var a: nat :| a < ADDRESS_SPACE && Slot(a, l) == Slot(v, l) && LastLevelPage(Resolve(mem, root, a));
      SlotRange(v, l, a);
      FinerAligned(v, l, 2);
      NextAligned(v, l);
      FinerAligned(v + Cover(l), l, 2);
      SlotsBetween(v, a, v + Cover(l), 2);
    }
  }

  /**
   * Unmapping a range that one request has mapped trips an assertion exactly when the range holds a level 2 slot whole
   * and its virtual and physical addresses are not aligned alike; it never has to split a block.
   */
  lemma {:induction false} UnmapMappedIff(mem: Memory, root: nat, v: nat, pa: nat, size: nat)
    requires LevelsInside(mem, root, v, pa, size) && PageAligned(v, pa, size) && v + size <= ADDRESS_SPACE
    ensures UnmapFails(mem, root, v, size) <==> HoldsSlot(v, size) && Offset(v, 2) != Offset(pa, 2)
    ensures !NeedsSplit(mem, root, v, size)
  {
    hide Resolve, Slot, Offset, UnmapFails, NeedsSplit;
    if Offset(v, 2) == Offset(pa, 2) {
      AlikeUnmaps(mem, root, v, pa, size, v, size);
    } else {
      PagesUnmapIff(mem, root, v, size);
    }
    forall l | 1 <= l <= 2 && Offset(v, l) != 0 ensures !Whole(v, size, v, l) { SlotIs(v, l); }
    NoSplit(mem, root, v, size, v, size);
  }

  /** A request elsewhere leaves the levels of a mapped range as they are. */
  lemma {:induction false} LevelsSurvive(mem: Memory, mem': Memory, root: nat, v: nat, pa: nat, size: nat, x: nat,
                                         bytes: nat)
    requires LevelsInside(mem, root, v, pa, size) && LevelsKept(mem, mem', root, x, bytes)
    requires v + size <= x || x + bytes <= v
    ensures LevelsInside(mem', root, v, pa, size)
  {
    hide ResolveFrom, Slot, Offset, Large, Beside;
    forall a: nat {:trigger Resolve(mem', root, a)} | a < ADDRESS_SPACE && v <= a < v + size
      ensures var h := Resolve(mem', root, a);
              LeafInside(h, v, size, a) && (LastLevelPage(h) <==> !Large(v, pa, size, a))
    {
      var h, h' := Resolve(mem, root, a), Resolve(mem', root, a);
      assert Deeper(h, h') && PagesKept(h, h', Beside(x, bytes, a));
      LeafDepth(mem', root, 0, a);
      FinerWhole(v, size, a, h.level, h'.level);
      if Large(v, pa, size, a) { NotBeside(v, pa, size, x, bytes, a); }
    }
  }

  lemma {:induction false} NotBeside(v: nat, pa: nat, size: nat, x: nat, bytes: nat, a: nat)
    requires Large(v, pa, size, a) && v <= a < v + size && (v + size <= x || x + bytes <= v)
    ensures !Beside(x, bytes, a)
  {
    SlotIs(a, 2);
    SlotIs(x, 2);
    if bytes > 0 { SlotIs(x + bytes - 1, 2); }
    hide Slot, Offset;
  }

  /** Where every block lies in the range, no round finds one larger than what it clears. */
  lemma {:induction false} NoSplit(mem: Memory, root: nat, v0: nat, size0: nat, v: nat, size: nat)
    requires v % PAGE_SIZE == 0 && size % PAGE_SIZE == 0 && v0 <= v && v + size == v0 + size0
    requires forall a: nat {:trigger Resolve(mem, root, a)} | v0 <= a < v0 + size0 ::
               LeafInside(Resolve(mem, root, a), v0, size0, a)
    requires forall l | 1 <= l <= 2 && Offset(v, l) != 0 :: !Whole(v0, size0, v, l)
    ensures !NeedsSplit(mem, root, v, size)
    decreases size
  {
    hide ResolveFrom, Offset, Slot, Whole;
    if size >= PAGE_SIZE {
      var h, t := Resolve(mem, root, v), TargetLevel(size, v, 0);
      assert LeafInside(h, v0, size0, v);
      RoundFits(v, size, t);
      if h.level < t { WholeFits(v0, size0, v, size, h.level); }
      forall l {:trigger Offset(v + Cover(t), l)} | 1 <= l <= 2 && Offset(v + Cover(t), l) != 0
        ensures !Whole(v0, size0, v + Cover(t), l)
      {
        NextWhole(v0, size0, v, size, t, l);
      }
      NoSplit(mem, root, v0, size0, v + Cover(t), size - Cover(t));
    }
  }

  lemma {:induction false} RoundFits(v: nat, size: nat, t: nat)
    requires v % PAGE_SIZE == 0 && size % PAGE_SIZE == 0 && size >= PAGE_SIZE && t == TargetLevel(size, v, 0)
    ensures 1 <= t <= 3 && Cover(t) <= size && Offset(v, t) == 0
    ensures (v + Cover(t)) % PAGE_SIZE == 0 && (size - Cover(t)) % PAGE_SIZE == 0
    ensures forall l | 1 <= l < t :: !(Offset(v, l) == 0 && Cover(l) <= size)
  {
    AddCover(v, t);
    AddCover(size - Cover(t), t);
  }

  /** A slot that lies in the range and starts at `v` fits into what is left. */
  lemma {:induction false} WholeFits(v0: nat, size0: nat, v: nat, size: nat, l: nat)
    requires v + size == v0 + size0 && Offset(v, l) == 0 && Whole(v0, size0, v, l)
    ensures Cover(l) <= size
  {
    SlotIs(v, l);
  }

  lemma {:induction false} NextWhole(v0: nat, size0: nat, v: nat, size: nat, t: nat, l: nat)
    requires 1 <= l <= 2 && 1 <= t <= 3 && v + size == v0 + size0 && Offset(v, t) == 0 && Cover(t) <= size
    requires forall k | 1 <= k < t :: !(Offset(v, k) == 0 && Cover(k) <= size)
    requires Offset(v, l) != 0 ==> !Whole(v0, size0, v, l)
    requires Offset(v + Cover(t), l) != 0
    ensures !Whole(v0, size0, v + Cover(t), l)
  {
    hide Offset, Slot, Cover;
    if t <= l {
      NextAligned(v, t);
      FinerAligned(v + Cover(t), t, l);
    } else {
      CoarserSlot(v, l, t);
      if Offset(v, l) == 0 && Whole(v0, size0, v, l) { WholeFits(v0, size0, v, size, l); }
    }
  }
}
