/** What `mmu_unmap` does to the meaning of a translation tree (src/arm/mmu/mmu.c:204-326).

The rounds of a request are fixed by the tree it starts from: a round either clears the block of its
target level, or, when it meets an absent entry above that level, steps forward by a whole entry.
*/
module UnmapMeaning {
  import opened Arithmetic
  import opened Descriptors
  import opened PageTable
  import opened MmuMeaning

  /** The bytes of the round at `v`, and whether it is stepped over because of an absent entry. */
  ghost function RoundSkips(mem: Memory, root: nat, v: nat, size: nat): bool {
    var h := Resolve(mem, root, v);
    h.Hole? && h.level < TargetLevel(size, v, 0)
  }

  ghost function RoundBytes(mem: Memory, root: nat, v: nat, size: nat): (n: nat)
    ensures size >= PAGE_SIZE ==> 0 < n <= size
  {
    if RoundSkips(mem, root, v, size) then Min(size, Cover(Resolve(mem, root, v).level))
    else Cover(TargetLevel(size, v, 0))
  }

  function Min(x: nat, y: nat): nat {
    if x < y then x else y
  }

  /** The addresses that the request makes untranslated. */
  ghost predicate Cleared(mem: Memory, root: nat, v: nat, size: nat, a: nat)
    decreases size
  {
    size >= PAGE_SIZE &&
    var n := RoundBytes(mem, root, v, size);
    if v <= a < v + n then !RoundSkips(mem, root, v, size) else Cleared(mem, root, v + n, size - n, a)
  }

  /**
   * Clearing the block at `v` trips an assertion: an absent last-level entry, or live last-level pages under a block.
   */
  ghost predicate ClearFails(mem: Memory, root: nat, v: nat, level: nat) {
    if level == MAX_LEVEL then Resolve(mem, root, v) == Hole(MAX_LEVEL) else PagesInSlot(mem, root, v, level)
  }

  ghost predicate UnmapFails(mem: Memory, root: nat, v: nat, size: nat)
    decreases size
  {
    size >= PAGE_SIZE &&
    var n := RoundBytes(mem, root, v, size);
    || (!RoundSkips(mem, root, v, size) && ClearFails(mem, root, v, TargetLevel(size, v, 0)))
    || UnmapFails(mem, root, v + n, size - n)
  }

  /** The round at `v` finds a block that is larger than what it clears, and has to split it. */
  ghost predicate SplitsHere(mem: Memory, root: nat, v: nat, size: nat) {
    var h := Resolve(mem, root, v);
    h.Leaf? && h.level < TargetLevel(size, v, 0)
  }

  ghost predicate NeedsSplit(mem: Memory, root: nat, v: nat, size: nat)
    decreases size
  {
    size >= PAGE_SIZE &&
    var n := RoundBytes(mem, root, v, size);
    SplitsHere(mem, root, v, size) || NeedsSplit(mem, root, v + n, size - n)
  }

  /** The tree read as a flat map: the cleared addresses are untranslated, all else is as before. */
  ghost predicate UnmapsFlat(mem: Memory, mem': Memory, root: nat, v: nat, size: nat) {
    forall a: nat | a < ADDRESS_SPACE ::
      Translate(Resolve(mem', root, a)) ==
      if Cleared(mem, root, v, size, a) then Unmapped else Translate(Resolve(mem, root, a))
  }

  // One round

  ghost predicate BlockCleared(mem: Memory, mem': Memory, root: nat, v: nat, level: nat) {
    forall a: nat | a < ADDRESS_SPACE ::
      var h, h' := Resolve(mem, root, a), Resolve(mem', root, a);
      if Slot(a, level) == Slot(v, level) then h' == Hole(level)
      else SplitOnly(h, h') && PagesKept(h, h', level == MAX_LEVEL && Slot(a, 2) == Slot(v, 2))
  }

  lemma {:induction false} BlockErased(m0: Memory, m1: Memory, m2: Memory, root: nat, v: nat, level: nat, p: Place,
                                       i: nat)
    requires 1 <= level <= MAX_LEVEL
    requires Descended(m0, m1, root, v, level) && HolesKept(m0, m1, root) && p.level == level && InEntry(p, i, v)
    requires OnlyEntryChanged(m1, m2, root, p, i)
    requires forall a: nat | InEntry(p, i, a) :: Resolve(m2, root, a) == HitAt(NULL_WORD, level, a)
    ensures BlockCleared(m0, m2, root, v, level)
  {
    hide ResolveFrom, Slot;
    forall a: nat | a < ADDRESS_SPACE
      ensures var h, h' := Resolve(m0, root, a), Resolve(m2, root, a);
              if Slot(a, level) == Slot(v, level) then h' == Hole(level)
              else SplitOnly(h, h') && PagesKept(h, h', level == MAX_LEVEL && Slot(a, 2) == Slot(v, 2))
    {
      var h, h1 := Resolve(m0, root, a), Resolve(m1, root, a);
      assert Deeper(h, h1);
    }
  }

  // All rounds so far

  predicate Within(a: nat, v: nat, n: nat) {
    v <= a < v + n
  }

  ghost function Stretch(v: nat, n: nat): iset<nat> {
    iset a: nat | Within(a, v, n)
  }

  /** `gone` is what the rounds before `v` cleared. */
  ghost predicate UnmapProgress(mem: Memory, mem': Memory, root: nat, v: nat, gone: iset<nat>) {
    forall a: nat | a < ADDRESS_SPACE ::
      var h, h' := Resolve(mem, root, a), Resolve(mem', root, a);
      if a in gone then h'.Hole? && a < v
      else SplitOnly(h, h') && (v <= a ==> PagesKept(h, h', Slot(a, 2) == Slot(v, 2) && Offset(v, 2) != 0))
  }

  lemma {:induction false} ClearStep(m0: Memory, m1: Memory, m2: Memory, root: nat, v: nat, level: nat, gone: iset<nat>)
    requires 1 <= level <= MAX_LEVEL && Offset(v, level) == 0
    requires UnmapProgress(m0, m1, root, v, gone) && BlockCleared(m1, m2, root, v, level)
    ensures UnmapProgress(m0, m2, root, v + Cover(level), gone + Stretch(v, Cover(level)))
  {
    hide ResolveFrom, Slot, Offset;
    var gone' := gone + Stretch(v, Cover(level));
    var v' := v + Cover(level);
    forall a: nat | a < ADDRESS_SPACE
      ensures var h, h' := Resolve(m0, root, a), Resolve(m2, root, a);
              if a in gone' then h'.Hole? && a < v'
              else SplitOnly(h, h') && (v' <= a ==> PagesKept(h, h', Slot(a, 2) == Slot(v', 2) && Offset(v', 2) != 0))
    {
      SlotRange(v, level, a);
      SlotBetween(v, v', a);
      var h, h1, h2 := Resolve(m0, root, a), Resolve(m1, root, a), Resolve(m2, root, a);
    }
  }

  lemma {:induction false} SkipStep(m0: Memory, m1: Memory, root: nat, v: nat, n: nat, gone: iset<nat>)
    requires UnmapProgress(m0, m1, root, v, gone) && n > 0
    ensures UnmapProgress(m0, m1, root, v + n, gone)
  {
    hide ResolveFrom, Slot, Offset;
    forall a: nat | a < ADDRESS_SPACE
      ensures var h, h' := Resolve(m0, root, a), Resolve(m1, root, a);
              if a in gone then h'.Hole? && a < v + n
              else SplitOnly(h, h') &&
                   (v + n <= a ==> PagesKept(h, h', Slot(a, 2) == Slot(v + n, 2) && Offset(v + n, 2) != 0))
    {
      SlotBetween(v, v + n, a);
    }
  }

  lemma {:induction false} UnmapNothing(mem: Memory, place: Places, root: nat, v: nat)
    requires WellFormed(mem, place, root)
    ensures UnmapProgress(mem, mem, root, v, iset{})
  {
    NothingDescended(mem, place, root, v);
  }

  /** A round may look at the current tree as well as at the original one. */
  lemma {:induction false} RoundKept(m0: Memory, m1: Memory, root: nat, v: nat, size: nat, gone: iset<nat>)
    requires UnmapProgress(m0, m1, root, v, gone) && v < ADDRESS_SPACE && size >= PAGE_SIZE
    requires v % PAGE_SIZE == 0
    ensures RoundSkips(m0, root, v, size) <==> RoundSkips(m1, root, v, size)
    ensures RoundBytes(m0, root, v, size) == RoundBytes(m1, root, v, size)
    ensures ClearFails(m0, root, v, TargetLevel(size, v, 0)) <==> ClearFails(m1, root, v, TargetLevel(size, v, 0))
    ensures SplitsHere(m1, root, v, size) ==> SplitsHere(m0, root, v, size)
  {
    hide ResolveFrom, PagesInSlot, Slot;
    var h, h1 := Resolve(m0, root, v), Resolve(m1, root, v);
    assert SplitOnly(h, h1);
    var level := TargetLevel(size, v, 0);
    if level < MAX_LEVEL { SlotPagesSame(m0, m1, root, v, level, gone); }
  }

  lemma {:induction false} SlotPagesSame(m0: Memory, m1: Memory, root: nat, v: nat, level: nat, gone: iset<nat>)
    requires 1 <= level < MAX_LEVEL && Offset(v, level) == 0 && UnmapProgress(m0, m1, root, v, gone)
    ensures PagesInSlot(m0, root, v, level) <==> PagesInSlot(m1, root, v, level)
  {
    hide ResolveFrom, Slot;
    AlignedBelow(v, level);
    forall a: nat | a < ADDRESS_SPACE && Slot(a, level) == Slot(v, level)
      ensures LastLevelPage(Resolve(m0, root, a)) <==> LastLevelPage(Resolve(m1, root, a))
    {
      SlotRange(v, level, a);
    }
  }

  lemma {:induction false} UnmapMeans(m0: Memory, m1: Memory, root: nat, v: nat, size: nat, gone: iset<nat>, end: nat)
    requires UnmapProgress(m0, m1, root, end, gone)
    requires forall a: nat :: Cleared(m0, root, v, size, a) <==> a in gone
    ensures UnmapsFlat(m0, m1, root, v, size)
  {
    hide ResolveFrom, Cleared;
  }

  lemma {:induction false} ClearedInside(mem: Memory, root: nat, v: nat, size: nat, a: nat)
    requires Cleared(mem, root, v, size, a)
    ensures v <= a < v + size
    decreases size
  {
    hide RoundBytes, RoundSkips;
    var n := RoundBytes(mem, root, v, size);
    if !(v <= a < v + n) { ClearedInside(mem, root, v + n, size - n, a); }
  }

  // When a request clears its whole range

  /** Where a walk finds a hole, it finds one for the whole slot. */
  lemma {:induction false} HoleFillsSlot(mem: Memory, t: nat, level: nat, v: nat, a: nat)
    requires level <= MAX_LEVEL && ResolveFrom(mem, t, level, v).Hole?
    requires ResolveFrom(mem, t, level, v).level <= MAX_LEVEL
    requires var l := ResolveFrom(mem, t, level, v).level; Slot(a, l) == Slot(v, l)
    ensures ResolveFrom(mem, t, level, a) == ResolveFrom(mem, t, level, v)
    decreases MAX_LEVEL - level
  {
    var l := ResolveFrom(mem, t, level, v).level;
    HoleDepth(mem, t, level, v);
    SlotsAbove(v, a, l, level);
    var w := mem[t][Index(v, level)];
    if IsTable(w, level) { HoleFillsSlot(mem, w.frame, level + 1, v, a); }
  }

  lemma {:induction false} HoleDepth(mem: Memory, t: nat, level: nat, v: nat)
    requires level <= MAX_LEVEL && ResolveFrom(mem, t, level, v).Hole?
    ensures level <= ResolveFrom(mem, t, level, v).level <= MAX_LEVEL
    decreases MAX_LEVEL - level
  {
    var w := mem[t][Index(v, level)];
    if IsTable(w, level) { HoleDepth(mem, w.frame, level + 1, v); }
  }

  lemma {:induction false} SlotsAbove(v: nat, a: nat, l: nat, level: nat)
    requires level <= l <= MAX_LEVEL && Slot(a, l) == Slot(v, l)
    ensures Slot(a, level) == Slot(v, level)
    decreases l
  {
    if level < l {
      SlotInRegion(v, l);
      SlotInRegion(a, l);
      SlotsAbove(v, a, l - 1, level);
    }
  }

  /** The address lies in an absent entry, and not at its start. */
  ghost predicate InsideHole(mem: Memory, root: nat, v: nat) {
    var h := Resolve(mem, root, v);
    h.Hole? && Offset(v, h.level) != 0
  }

  /**
   * A range that starts inside an absent entry is stepped over in strides of that entry's size. A stride reaches past
   * the end of the entry, over translated addresses perhaps, and may end inside an absent entry again.
   */
  ghost predicate StepsOver(mem: Memory, root: nat, v: nat, size: nat)
    decreases size
  {
    size >= PAGE_SIZE && InsideHole(mem, root, v) &&
    var n := Min(size, Cover(Resolve(mem, root, v).level));
    || (exists a: nat :: v <= a < v + n && Resolve(mem, root, a).Leaf?)
    || StepsOver(mem, root, v + n, size - n)
  }

  /** Only a range that starts inside an absent entry is skipped past the entry's end. */
  lemma {:induction false} InsideSkips(mem: Memory, root: nat, v: nat, size: nat)
    requires v % PAGE_SIZE == 0 && size >= PAGE_SIZE && InsideHole(mem, root, v)
    ensures RoundSkips(mem, root, v, size)
  {
    hide ResolveFrom;
    var h, t := Resolve(mem, root, v), TargetLevel(size, v, 0);
    assert h.level <= MAX_LEVEL by { HoleDepth(mem, root, 0, v); }
    if t <= h.level { FinerAligned(v, t, h.level); }
  }

  /**
   * A round that does not start inside an absent entry leaves nothing translated behind, and the next does not start
   * inside one either.
   */
  lemma {:induction false} StartsOutside(mem: Memory, root: nat, v: nat, size: nat)
    requires v % PAGE_SIZE == 0 && size >= PAGE_SIZE && !InsideHole(mem, root, v)
    ensures var n := RoundBytes(mem, root, v, size);
            && (n < size ==> !InsideHole(mem, root, v + n))
            && (RoundSkips(mem, root, v, size) ==>
                  forall a: nat | v <= a < v + n :: Resolve(mem, root, a) == Resolve(mem, root, v))
  {
    hide ResolveFrom, Slot, Offset;
    var h := Resolve(mem, root, v);
    var l := if RoundSkips(mem, root, v, size) then h.level else TargetLevel(size, v, 0);
    if h.Hole? { HoleDepth(mem, root, 0, v); }
    assert Offset(v, l) == 0 by { StartAligned(mem, root, v, size); }
    if RoundSkips(mem, root, v, size) {
      forall a: nat | v <= a < v + RoundBytes(mem, root, v, size) ensures Resolve(mem, root, a) == h {
        SlotHolds(v, l, a);
        HoleFillsSlot(mem, root, 0, v, a);
      }
    }
    if RoundBytes(mem, root, v, size) == Cover(l) { NextOutside(mem, root, v, size, l); }
  }

  lemma {:induction false} StartAligned(mem: Memory, root: nat, v: nat, size: nat)
    requires v % PAGE_SIZE == 0
    ensures Offset(v, TargetLevel(size, v, 0)) == 0
  {
  }

  lemma {:induction false} SlotHolds(v: nat, level: nat, a: nat)
    requires level <= MAX_LEVEL && Offset(v, level) == 0 && v <= a < v + Cover(level)
    ensures Slot(a, level) == Slot(v, level)
  {
    SlotIs(v, level);
    SlotIs(a, level);
    hide Slot, Offset, Cover;
    DivUnique(a, Cover(level), Slot(v, level), a - v);
  }

  lemma {:induction false} NextOutside(mem: Memory, root: nat, v: nat, size: nat, l: nat)
    requires l <= MAX_LEVEL && Offset(v, l) == 0
    requires l == if RoundSkips(mem, root, v, size) then Resolve(mem, root, v).level else TargetLevel(size, v, 0)
    ensures !InsideHole(mem, root, v + Cover(l))
  {
    hide ResolveFrom, Slot, Offset, TargetLevel;
    var v' := v + Cover(l);
    var h' := Resolve(mem, root, v');
    if InsideHole(mem, root, v') {
      HoleDepth(mem, root, 0, v');
      if l <= h'.level {
        NextAligned(v, l);
        FinerAligned(v', l, h'.level);
      } else {
        CoarserSlot(v, h'.level, l);
        HoleFillsSlot(mem, root, 0, v', v);
      }
    }
  }

  lemma {:induction false} NextAligned(v: nat, level: nat)
    requires Offset(v, level) == 0
    ensures Offset(v + Cover(level), level) == 0
  {
    SlotIs(v, level);
    SlotIs(v + Cover(level), level);
    hide Slot, Offset, Cover;
    DivUnique(v + Cover(level), Cover(level), Slot(v, level) + 1, 0);
  }

  /**
   * A request that does not start inside an absent entry, whatever else its range holds, steps over nothing translated.
   */
  lemma {:induction false} CompleteFromOutside(mem: Memory, root: nat, v: nat, size: nat, a: nat)
    requires v % PAGE_SIZE == 0 && size % PAGE_SIZE == 0 && !InsideHole(mem, root, v) && v <= a < v + size
    requires Resolve(mem, root, a).Leaf?
    ensures Cleared(mem, root, v, size, a)
    decreases size
  {
    hide Resolve, RoundBytes, InsideHole, TargetLevel;
    var n := RoundBytes(mem, root, v, size);
    StartsOutside(mem, root, v, size);
    RoundAligned(mem, root, v, size);
    if !(v <= a < v + n) {
      RoundAdvance(v, size, n);
      CompleteFromOutside(mem, root, v + n, size - n, a);
    }
  }

  /**
   * Nothing translated is left in the range exactly when it does not start inside an absent entry from which a stride
   * leads over translated addresses.
   */
  lemma {:induction false} UnmapCompleteIff(mem: Memory, root: nat, v: nat, size: nat)
    requires v % PAGE_SIZE == 0 && size % PAGE_SIZE == 0
    ensures (forall a: nat | v <= a < v + size :: Cleared(mem, root, v, size, a) || !Resolve(mem, root, a).Leaf?)
            <==> !StepsOver(mem, root, v, size)
    decreases size
  {
    hide Resolve, Slot, RoundBytes, TargetLevel, InsideHole, Offset;
    if size >= PAGE_SIZE {
      if InsideHole(mem, root, v) {
        StrideRound(mem, root, v, size);
        var n := RoundBytes(mem, root, v, size);
        RoundAligned(mem, root, v, size);
        RoundAdvance(v, size, n);
        UnmapCompleteIff(mem, root, v + n, size - n);
      } else {
        forall a: nat | v <= a < v + size && Resolve(mem, root, a).Leaf? ensures Cleared(mem, root, v, size, a) {
          CompleteFromOutside(mem, root, v, size, a);
        }
      }
    }
  }

  lemma {:induction false} StrideRound(mem: Memory, root: nat, v: nat, size: nat)
    requires v % PAGE_SIZE == 0 && size >= PAGE_SIZE && InsideHole(mem, root, v)
    ensures RoundSkips(mem, root, v, size) && Resolve(mem, root, v).Hole?
    ensures RoundBytes(mem, root, v, size) == Min(size, Cover(Resolve(mem, root, v).level))
  {
    InsideSkips(mem, root, v, size);
  }

  lemma {:induction false} RoundAligned(mem: Memory, root: nat, v: nat, size: nat)
    requires size >= PAGE_SIZE && size % PAGE_SIZE == 0
    ensures RoundBytes(mem, root, v, size) % PAGE_SIZE == 0
  {
    hide ResolveFrom;
  }

  /** A range that is translated throughout is cleared throughout. */
  lemma {:induction false} UnmapFullyMapped(mem: Memory, root: nat, v: nat, size: nat, a: nat)
    requires size % PAGE_SIZE == 0 && v <= a < v + size
    requires forall x: nat | v <= x < v + size :: Resolve(mem, root, x).Leaf?
    ensures Cleared(mem, root, v, size, a)
    decreases size
  {
    hide ResolveFrom;
    var n := RoundBytes(mem, root, v, size);
    RoundAligned(mem, root, v, size);
    assert !RoundSkips(mem, root, v, size);
    if !(v <= a < v + n) { UnmapFullyMapped(mem, root, v + n, size - n, a); }
  }

  /** Mapping a range that was not translated and unmapping it again restores every translation. */
  lemma {:induction false} MapThenUnmap(m0: Memory, m1: Memory, m2: Memory, root: nat, v: nat, pa: nat, size: nat,
                                        cfg: PageCfg)
    requires size % PAGE_SIZE == 0 && v + size <= ADDRESS_SPACE
    requires forall a: nat | v <= a < v + size :: Translate(Resolve(m0, root, a)) == Unmapped
    requires MapsFlat(m0, m1, root, v, pa, size, cfg) && UnmapsFlat(m1, m2, root, v, size)
    ensures forall a: nat | a < ADDRESS_SPACE :: Translate(Resolve(m2, root, a)) == Translate(Resolve(m0, root, a))
  {
    hide ResolveFrom, Cleared, Truncated;
    forall a: nat | v <= a < v + size ensures Cleared(m1, root, v, size, a) {
      forall x: nat | v <= x < v + size ensures Resolve(m1, root, x).Leaf? {
        assert Translate(Resolve(m1, root, x)).Mapped?;
      }
      UnmapFullyMapped(m1, root, v, size, a);
    }
    forall a: nat | a < ADDRESS_SPACE && Cleared(m1, root, v, size, a) ensures v <= a < v + size {
      ClearedInside(m1, root, v, size, a);
    }
  }

  lemma {:induction false} NothingToUnmap(mem: Memory, root: nat, v: nat)
    ensures !UnmapFails(mem, root, v, 0)
    ensures forall a: nat :: !Cleared(mem, root, v, 0, a)
  {
  }

  lemma {:induction false} UnmapRound(mem: Memory, root: nat, v: nat, size: nat)
    requires size >= PAGE_SIZE
    ensures var n := RoundBytes(mem, root, v, size);
            && (UnmapFails(mem, root, v, size) <==>
                || (!RoundSkips(mem, root, v, size) && ClearFails(mem, root, v, TargetLevel(size, v, 0)))
                || UnmapFails(mem, root, v + n, size - n))
            && (SplitsHere(mem, root, v, size) || NeedsSplit(mem, root, v + n, size - n) ==>
                  NeedsSplit(mem, root, v, size))
            && (forall a: nat :: Cleared(mem, root, v, size, a) <==>
                  if Within(a, v, n) then !RoundSkips(mem, root, v, size) else Cleared(mem, root, v + n, size - n, a))
  {
    hide ResolveFrom, ClearFails, RoundBytes, RoundSkips, SplitsHere;
  }

  /** What the arithmetic and the original tree say of the next round. */
  lemma {:induction false} NextRound(m0: Memory, m1: Memory, root: nat, va: nat, size: nat, done: nat, gone: iset<nat>)
    requires va % ADDRESS_SPACE + size <= ADDRESS_SPACE && done < size && PageAligned(va + done, 0, size - done)
    requires UnmapProgress(m0, m1, root, va % ADDRESS_SPACE + done, gone)
    ensures var u, rest := va % ADDRESS_SPACE + done, size - done;
            var n := RoundBytes(m0, root, u, rest);
            && (va + done) % ADDRESS_SPACE == u
            && rest >= PAGE_SIZE && 0 < n <= rest
            && PageAligned(va + done + n, 0, rest - n)
            && Offset(u, TargetLevel(rest, u, 0)) == 0
            && (RoundSkips(m0, root, u, rest) <==> RoundSkips(m1, root, u, rest))
            && n == RoundBytes(m1, root, u, rest)
            && (ClearFails(m0, root, u, TargetLevel(rest, u, 0)) <==> ClearFails(m1, root, u, TargetLevel(rest, u, 0)))
            && (UnmapFails(m0, root, u, rest) <==>
                || (!RoundSkips(m0, root, u, rest) && ClearFails(m0, root, u, TargetLevel(rest, u, 0)))
                || UnmapFails(m0, root, u + n, rest - n))
            && (SplitsHere(m1, root, u, rest) || NeedsSplit(m0, root, u + n, rest - n) ==>
                  NeedsSplit(m0, root, u, rest))
  {
    hide ResolveFrom, Slot, Offset, UnmapProgress, ClearFails, UnmapFails, RoundSkips, RoundBytes, TargetLevel, Cover,
      SplitsHere, NeedsSplit;
    var u, rest := va % ADDRESS_SPACE + done, size - done;
    RoundPlace(va, size, done);
    TargetAligned(rest, va + done, 0);
    RoundAligned(m0, root, u, rest);
    RoundAdvance(va + done, rest, RoundBytes(m0, root, u, rest));
    RoundKept(m0, m1, root, u, rest, gone);
    UnmapRound(m0, root, u, rest);
  }

  lemma {:induction false} RoundPlace(va: nat, size: nat, done: nat)
    requires va % ADDRESS_SPACE + size <= ADDRESS_SPACE && done < size && PageAligned(va + done, 0, size - done)
    ensures (va + done) % ADDRESS_SPACE == va % ADDRESS_SPACE + done && (va % ADDRESS_SPACE + done) % PAGE_SIZE == 0
  {
    var u := va % ADDRESS_SPACE + done;
    DivUnique(va + done, ADDRESS_SPACE, va / ADDRESS_SPACE, u);
    LowIndex(va + done, 3);
  }

  lemma RoundAdvance(v: nat, rest: nat, n: nat)
    requires PageAligned(v, 0, rest) && n % PAGE_SIZE == 0 && n <= rest
    ensures PageAligned(v + n, 0, rest - n)
  {
    DivUnique(v + n, PAGE_SIZE, v / PAGE_SIZE + n / PAGE_SIZE, 0);
    DivUnique(rest - n, PAGE_SIZE, rest / PAGE_SIZE - n / PAGE_SIZE, 0);
  }

  /** What the round at `u` adds to the addresses that are gone. */
  lemma {:induction false} AfterRound(m0: Memory, m1: Memory, m2: Memory, root: nat, u: nat, rest: nat, gone: iset<nat>)
    returns (gone': iset<nat>)
    requires rest >= PAGE_SIZE && UnmapProgress(m0, m1, root, u, gone)
    requires Offset(u, TargetLevel(rest, u, 0)) == 0
    requires if RoundSkips(m0, root, u, rest) then m2 == m1 else BlockCleared(m1, m2, root, u, TargetLevel(rest, u, 0))
    ensures var n := RoundBytes(m0, root, u, rest);
            && n <= rest
            && UnmapProgress(m0, m2, root, u + n, gone')
            && forall a: nat ::
                 (a in gone || Cleared(m0, root, u, rest, a)) <==> (a in gone' || Cleared(m0, root, u + n, rest - n, a))
  {
    hide ResolveFrom, Slot, Offset, UnmapProgress, ClearFails, UnmapFails, BlockCleared, Cleared;
    var n := RoundBytes(m0, root, u, rest);
    UnmapRound(m0, root, u, rest);
    if RoundSkips(m0, root, u, rest) {
      gone' := gone;
      SkipStep(m0, m1, root, u, n, gone);
    } else {
      gone' := gone + Stretch(u, n);
      ClearStep(m0, m1, m2, root, u, TargetLevel(rest, u, 0), gone);
    }
    forall a: nat | Cleared(m0, root, u + n, rest - n, a) ensures !Within(a, u, n) {
      ClearedInside(m0, root, u + n, rest - n, a);
    }
  }

  /** A found table means the round does not skip, and tells whether clearing fails. */
  lemma {:induction false} FoundRound(m0: Memory, m1: Memory, place: Places, root: nat, t: nat, i: nat, v: nat,
                                      size: nat)
    requires WellFormed(m1, place, root) && t in m1 && v < ADDRESS_SPACE && i < ENTRIES
    requires place[t].level == TargetLevel(size, v, 0) && Covers(place[t], v) && InEntry(place[t], i, v)
    requires Descended(m0, m1, root, v, place[t].level) && HolesKept(m0, m1, root)
    ensures !RoundSkips(m0, root, v, size)
    ensures place[t].level == MAX_LEVEL ==>
              (KindAt(m1[t][i], MAX_LEVEL) == BadType <==> ClearFails(m0, root, v, MAX_LEVEL))
    ensures place[t].level < MAX_LEVEL ==>
              (PagesBelow(m1, root, place[t], i) <==> ClearFails(m0, root, v, place[t].level))
    ensures KindAt(m1[t][i], place[t].level) == BadType ==> place[t].level == MAX_LEVEL
  {
    hide ResolveFrom, Slot, PagesInSlot, PagesBelow;
    NoFaults(m1, place, root, t, v);
    WalkReaches(m1, place, root, t, v);
    PagesBelowSlot(m0, m1, root, v, place[t].level, place[t], i);
    if place[t].level == MAX_LEVEL {
      assert EntryOk(m1, place, t, i);
      TerminalHit(m1, place, root, t, i, v);
    }
  }
}
