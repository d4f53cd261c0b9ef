/** What the requests of src/arm/mmu/mmu.c do to the meaning of a translation tree, as relations between trees. */
module MmuMeaning {
  import opened Arithmetic
  import opened Descriptors
  import opened PageTable

  // Requests

  datatype MapResult = MapOk | NotInRange | AssertionFailed | OutOfFrames
  datatype UnmapResult = UnmapOk | UnmapErr | UnmapAssertionFailed | UnmapOutOfFrames
  datatype Half = Lo | Hi

  const HALF_SPACE: nat := 0x8000_0000_0000

  predicate Canonical(va: nat) {
    if va / HALF_SPACE % 2 == 1 then va - va % ADDRESS_SPACE == U64 - ADDRESS_SPACE else va - va % ADDRESS_SPACE == 0
  }

  /** `is_in_range` for a 48-bit mapping; the end address wraps like the 64-bit sum of the source. */
  predicate IsInRange(half: Half, va: nat, size: nat) {
    && size != 0
    && Canonical(va)
    && var end := (va + size - 1) % U64;
    && end >= va
    && Canonical(end)
    && var isHi := va / HALF_SPACE % 2 == 1;
    && isHi == (end / HALF_SPACE % 2 == 1)
    && isHi == half.Hi?
  }

  /** The bit tests accept exactly the non-empty ranges that lie within the mapping's half. */
  lemma {:induction false} InRangeIff(half: Half, va: nat, size: nat)
    requires va < U64 && size < U64
    ensures IsInRange(half, va, size) <==>
            size > 0 && match half
                        case Lo => va + size <= HALF_SPACE
                        case Hi => U64 - HALF_SPACE <= va && va + size <= U64
  {
    CanonicalIff(va);
    if size > 0 {
      var end := (va + size - 1) % U64;
      if va + size <= U64 {
        DivUnique(va + size - 1, U64, 0, va + size - 1);
      } else {
        DivUnique(va + size - 1, U64, 1, va + size - 1 - U64);
      }
      CanonicalIff(end);
    }
    hide Canonical;
  }

  lemma CanonicalIff(va: nat)
    requires va < U64
    ensures Canonical(va) <==> va < HALF_SPACE || U64 - HALF_SPACE <= va
    ensures va < HALF_SPACE ==> va / HALF_SPACE % 2 == 0
    ensures U64 - HALF_SPACE <= va ==> va / HALF_SPACE % 2 == 1
  {
    var h, r := va / HALF_SPACE, va % HALF_SPACE;
    var q, b := h / 2, h % 2;
    DivUnique(va, ADDRESS_SPACE, q, b * HALF_SPACE + r);
    if U64 - HALF_SPACE <= va { DivUnique(va, HALF_SPACE, 0x1_FFFF, va - 0x1_FFFF * HALF_SPACE); }
  }

  lemma {:induction false} LowAddress(half: Half, va: nat, size: nat)
    requires va < U64 && size < U64 && IsInRange(half, va, size)
    ensures va + size <= U64
    ensures va % ADDRESS_SPACE + size <= ADDRESS_SPACE
  {
    InRangeIff(half, va, size);
  }

  predicate PageAligned(va: nat, pa: nat, size: nat) {
    va % PAGE_SIZE == 0 && pa % PAGE_SIZE == 0 && size % PAGE_SIZE == 0
  }

  predicate Fits(size: nat, va: nat, pa: nat, level: nat) {
    size >= Cover(level) && Offset(va, level) == 0 && Offset(pa, level) == 0
  }

  /** The level of the largest block that starts a request. */
  function TargetLevel(size: nat, va: nat, pa: nat): nat {
    if Fits(size, va, pa, 1) then 1 else if Fits(size, va, pa, 2) then 2 else 3
  }

  /** A walk ignores the address bits above the 48 that it indexes with. */
  lemma {:induction false} LowIndex(va: nat, level: nat)
    requires level <= MAX_LEVEL
    ensures Index(va, level) == Index(va % ADDRESS_SPACE, level)
    ensures Offset(va, level) == Offset(va % ADDRESS_SPACE, level)
  {
    hide Index;
    var d, s := va / ADDRESS_SPACE, Slot(va % ADDRESS_SPACE, level);
    if level == 0 {
      LowDiv(va, 0x80_0000_0000, 0x200);
      LowEntry(va, level, d, 1, s);
    } else if level == 1 {
      LowDiv(va, 0x4000_0000, 0x4_0000);
      LowEntry(va, level, d, 0x200, s);
    } else if level == 2 {
      LowDiv(va, 0x20_0000, 0x800_0000);
      LowEntry(va, level, d, 0x4_0000, s);
    } else {
      LowDiv(va, 0x1000, 0x10_0000_0000);
      LowEntry(va, level, d, 0x800_0000, s);
    }
  }

  lemma {:induction false} LowEntry(va: nat, level: nat, d: nat, m: nat, s: nat)
    requires Slot(va, level) == d * (ENTRIES * m) + s && s == Slot(va % ADDRESS_SPACE, level)
    ensures Index(va, level) == Index(va % ADDRESS_SPACE, level)
  {
    hide Slot;
    LowMod(d, m, s, ENTRIES);
  }

  /** Cutting an aligned output address to the 48 bits of the descriptor keeps it aligned. */
  lemma {:induction false} CutAligned(pa: nat, level: nat)
    requires 1 <= level <= MAX_LEVEL && Offset(pa, level) == 0
    ensures pa / PAGE_SIZE % FRAMES * PAGE_SIZE == pa % ADDRESS_SPACE
    ensures Offset(pa % ADDRESS_SPACE, level) == 0 && Offset(pa, 3) == 0
    ensures pa % ADDRESS_SPACE + Cover(level) <= ADDRESS_SPACE
  {
    LowIndex(pa, level);
    var m := pa % ADDRESS_SPACE;
    if level == 1 {
      DivUnique(pa, PAGE_SIZE, pa / 0x4000_0000 * 0x4_0000, 0);
    } else if level == 2 {
      DivUnique(pa, PAGE_SIZE, pa / 0x20_0000 * 0x200, 0);
    }
    DivUnique(pa / PAGE_SIZE, FRAMES, pa / ADDRESS_SPACE, m / PAGE_SIZE);
  }

  /**
   * A leaf for an aligned output address puts every address of its slot at its offset, modulo the 48-bit output width.
   */
  lemma {:induction false} LeafAddress(cfg: PageCfg, pa: nat, level: nat, v: nat, a: nat)
    requires 1 <= level <= MAX_LEVEL && Offset(pa, level) == 0 && Offset(v, level) == 0
    requires Slot(a, level) == Slot(v, level)
    ensures v <= a < v + Cover(level)
    ensures var w := BlockDescriptor(cfg, pa, level);
            && Terminal(w, level)
            && HitAt(w, level, a) == Leaf(level, Truncated(cfg), (pa + (a - v)) % ADDRESS_SPACE)
  {
    hide BlockDescriptor, CfgOf, Truncated;
    BlockDescriptorHeader(cfg, pa, level);
    BlockDescriptorCfg(cfg, pa, level);
    CutAligned(pa, level);
    assert v <= a < v + Cover(level) && Offset(a, level) == a - v;
    DivUnique(pa + (a - v), ADDRESS_SPACE, pa / ADDRESS_SPACE, pa % ADDRESS_SPACE + (a - v));
  }

  /** A block's offset is the base of the sub-block in it plus the sub-block's offset. */
  lemma {:induction false} OffsetSplits(a: nat, level: nat)
    requires level < MAX_LEVEL
    ensures Offset(a, level) == Index(a, level + 1) * Cover(level + 1) + Offset(a, level + 1)
  {
    SlotInRegion(a, level + 1);
    if level == 0 {
    } else if level == 1 {
    } else {
    }
  }

  lemma {:induction false} SubBlock(w: Word, cfg: PageCfg, level: nat, j: nat)
    requires 1 <= level < MAX_LEVEL && j < ENTRIES && Offset(OutputAddress(w), level) == 0 && Truncated(cfg) == cfg
    ensures var b := BlockDescriptor(cfg, OutputAddress(w) + j * Cover(level + 1), level + 1);
            && Terminal(b, level + 1) && Valid(b)
            && OutputAddress(b) == OutputAddress(w) + j * Cover(level + 1)
            && CfgOf(b) == cfg
  {
    hide BlockDescriptor, CfgOf, Truncated;
    var base := OutputAddress(w);
    var pa := base + j * Cover(level + 1);
    BlockDescriptorHeader(cfg, pa, level + 1);
    BlockDescriptorCfg(cfg, pa, level + 1);
    if level == 1 {
      DivUnique(pa, 0x20_0000, Slot(base, 1) * 512 + j, 0);
    } else {
      DivUnique(pa, 0x1000, Slot(base, 2) * 512 + j, 0);
    }
    CutAligned(base, level);
    CutAligned(pa, level + 1);
  }

  // What a descent may do to a walk

  /** The same translation, found at the same level or further down. */
  predicate Deeper(h: Hit, h': Hit) {
    match h
    case Hole(l) => h'.Hole? && h'.level >= l
    case Leaf(l, cfg, pa) => h'.Leaf? && h'.level >= l && h'.cfg == cfg && h'.pa == pa
    case Fault => false
  }

  /** As `Deeper`, and holes stay where they are. */
  predicate SplitOnly(h: Hit, h': Hit) {
    Deeper(h, h') && (h.Hole? ==> h' == h)
  }

  /** The words that split the block `w` of level `l`: its attributes, and its addresses in order. */
  ghost predicate SplitsBlock(w: Word, l: nat, es: Entries) {
    forall k | 0 <= k < ENTRIES ::
      && Terminal(es[k], l + 1) && Valid(es[k]) && CfgOf(es[k]) == CfgOf(w)
      && OutputAddress(es[k]) == OutputAddress(w) + k * Cover(l + 1)
  }

  /** Every address of the entry is found one level down, translated as before; all others are found as before. */
  ghost predicate SplitAt(mem: Memory, mem': Memory, root: nat, p: Place, i: nat) {
    forall a: nat | a < ADDRESS_SPACE ::
      if InEntry(p, i, a) then
        var h := Resolve(mem, root, a);
        h.Leaf? && h.level == p.level && Resolve(mem', root, a) == h.(level := p.level + 1)
      else Resolve(mem', root, a) == Resolve(mem, root, a)
  }

  lemma {:induction false} SplitHit(mem: Memory, place: Places, root: nat, t: nat, i: nat, es: Entries, a: nat)
    requires WellFormed(mem, place, root) && t in mem && i < ENTRIES && place[t].level < MAX_LEVEL
    requires Valid(mem[t][i]) && KindAt(mem[t][i], place[t].level) == Block
    requires SplitsBlock(mem[t][i], place[t].level, es)
    requires InEntry(place[t], i, a)
    ensures Resolve(mem, root, a).Leaf? && Resolve(mem, root, a).level == place[t].level
    ensures HitAt(es[Index(a, place[t].level + 1)], place[t].level + 1, a)
         == Resolve(mem, root, a).(level := place[t].level + 1)
  {
    hide Slot, CfgOf;
    var p := place[t];
    assert PlaceOk(mem, place, root, t);
    SlotInRegion(a, p.level);
    WalkReaches(mem, place, root, t, a);
    OffsetSplits(a, p.level);
  }

  /** `split_block` preserves meaning. */
  lemma {:induction false} SplitMeaning(mem: Memory, place: Places, root: nat, t: nat, i: nat, f: nat, es: Entries)
    requires Linkable(mem, place, root, t, i, f, es)
    requires Valid(mem[t][i]) && KindAt(mem[t][i], place[t].level) == Block
    requires SplitsBlock(mem[t][i], place[t].level, es)
    ensures WellFormed(Linked(mem, t, i, f, es), LinkedPlaces(place, t, i, f), root)
    ensures SplitAt(mem, Linked(mem, t, i, f, es), root, place[t], i)
  {
    hide Slot, CfgOf, HitAt, Linked, KindAt, Valid;
    LinkTable(mem, place, root, t, i, f, es);
    forall a: nat | a < ADDRESS_SPACE && InEntry(place[t], i, a)
      ensures Resolve(mem, root, a).Leaf? && Resolve(mem, root, a).level == place[t].level
      ensures Resolve(Linked(mem, t, i, f, es), root, a) == Resolve(mem, root, a).(level := place[t].level + 1)
    {
      SplitHit(mem, place, root, t, i, es, a);
    }
  }

  /** Every address of the entry is absent one level further down; all others are found as before. */
  ghost predicate FilledAt(mem: Memory, mem': Memory, root: nat, p: Place, i: nat) {
    forall a: nat | a < ADDRESS_SPACE ::
      if InEntry(p, i, a) then Resolve(mem, root, a) == Hole(p.level) && Resolve(mem', root, a) == Hole(p.level + 1)
      else Resolve(mem', root, a) == Resolve(mem, root, a)
  }

  /** Linking an empty table below an absent entry translates nothing new. */
  lemma {:induction false} FillMeaning(mem: Memory, place: Places, root: nat, t: nat, i: nat, f: nat)
    requires Linkable(mem, place, root, t, i, f, EmptyTable()) && !Valid(mem[t][i])
    ensures WellFormed(Linked(mem, t, i, f, EmptyTable()), LinkedPlaces(place, t, i, f), root)
    ensures FilledAt(mem, Linked(mem, t, i, f, EmptyTable()), root, place[t], i)
  {
    LinkTable(mem, place, root, t, i, f, EmptyTable());
    forall a: nat | a < ADDRESS_SPACE && InEntry(place[t], i, a)
      ensures Resolve(mem, root, a) == Hole(place[t].level)
    {
      assert PlaceOk(mem, place, root, t);
      SlotInRegion(a, place[t].level);
      WalkReaches(mem, place, root, t, a);
    }
  }

  function EmptyTable(): Entries {
    seq(ENTRIES, _ => NULL_WORD)
  }

  /** The block that served the address, if any, also served `v`. */
  predicate SharesBlock(h: Hit, a: nat, v: nat) {
    h.Leaf? ==> Slot(a, h.level) == Slot(v, h.level)
  }

  /** What the descent to level `l` for address `v` does to the meaning of the tree: it splits blocks around `v`. */
  ghost predicate Descended(mem: Memory, mem': Memory, root: nat, v: nat, l: nat) {
    forall a: nat | a < ADDRESS_SPACE ::
      var h, h' := Resolve(mem, root, a), Resolve(mem', root, a);
      && Deeper(h, h') && (h' != h ==> h'.level <= l && (h'.level == MAX_LEVEL ==> Slot(a, 2) == Slot(v, 2)))
      && (h' != h ==> SharesBlock(h, a, v))
  }

  ghost predicate HolesKept(mem: Memory, mem': Memory, root: nat) {
    forall a: nat | a < ADDRESS_SPACE && Resolve(mem, root, a).Hole? :: Resolve(mem', root, a) == Resolve(mem, root, a)
  }

  lemma {:induction false} RootCovers(mem: Memory, place: Places, root: nat, v: nat)
    requires WellFormed(mem, place, root) && v < ADDRESS_SPACE
    ensures place[root].level == 0 && Covers(place[root], v)
  {
    assert PlaceOk(mem, place, root, root);
  }

  /**
   * The entry that `va` selects in a table that covers it: its word is terminal or refers to a table that covers it
   * too.
   */
  lemma {:induction false} EntryOnWalk(mem: Memory, place: Places, root: nat, t: nat, va: nat)
    requires WellFormed(mem, place, root) && t in mem && Covers(place[t], va % ADDRESS_SPACE)
    ensures place[t].level <= MAX_LEVEL
    ensures var l, i := place[t].level, Index(va, place[t].level);
            && InEntry(place[t], i, va % ADDRESS_SPACE)
            && (if IsTable(mem[t][i], l)
                then mem[t][i].frame in mem && mem[t][i].frame in place && l < MAX_LEVEL &&
                     place[mem[t][i].frame] == Place(l + 1, place[t].region * ENTRIES + i, t, i)
                else Terminal(mem[t][i], l))
  {
    assert PlaceOk(mem, place, root, t);
    LowIndex(va, place[t].level);
    SlotInRegion(va % ADDRESS_SPACE, place[t].level);
    assert EntryOk(mem, place, t, Index(va, place[t].level));
  }

  lemma {:induction false} NothingDescended(mem: Memory, place: Places, root: nat, v: nat)
    requires WellFormed(mem, place, root)
    ensures Descended(mem, mem, root, v, 0) && HolesKept(mem, mem, root)
  {
    forall a: nat | a < ADDRESS_SPACE ensures !Resolve(mem, root, a).Fault? {
      assert PlaceOk(mem, place, root, root);
      NoFaults(mem, place, root, root, a);
    }
  }

  lemma {:induction false} DescendedFurther(m0: Memory, m1: Memory, m2: Memory, root: nat, v: nat, p: Place, i: nat)
    requires Descended(m0, m1, root, v, p.level) && p.level < MAX_LEVEL && InEntry(p, i, v)
    requires SplitAt(m1, m2, root, p, i) || FilledAt(m1, m2, root, p, i) || m2 == m1
    ensures Descended(m0, m2, root, v, p.level + 1)
    ensures SplitAt(m1, m2, root, p, i) && HolesKept(m0, m1, root) ==> HolesKept(m0, m2, root)
  {
    hide ResolveFrom, Slot;
    forall a: nat | a < ADDRESS_SPACE
      ensures var h, h' := Resolve(m0, root, a), Resolve(m2, root, a);
              && Deeper(h, h')
              && (h' != h ==> h'.level <= p.level + 1 && (h'.level == MAX_LEVEL ==> Slot(a, 2) == Slot(v, 2)))
              && (h' != h ==> SharesBlock(h, a, v))
    {
      var h, h1, h2 := Resolve(m0, root, a), Resolve(m1, root, a), Resolve(m2, root, a);
      assert Deeper(h, h1);
      if h2 != h1 { assert InEntry(p, i, a); }
    }
  }

  // Whole requests on the meaning of the tree

  /** Some address of the slot of `v` is translated by a last-level page. */
  ghost predicate PagesInSlot(mem: Memory, root: nat, v: nat, level: nat) {
    exists a: nat :: a < ADDRESS_SPACE && Slot(a, level) == Slot(v, level) && LastLevelPage(Resolve(mem, root, a))
  }

  /** Some block that a request will write covers live last-level pages. */
  ghost predicate Obstructed(mem: Memory, root: nat, v: nat, pa: nat, size: nat)
    decreases size
  {
    size >= PAGE_SIZE &&
    var level := TargetLevel(size, v, pa);
    || (level < MAX_LEVEL && PagesInSlot(mem, root, v, level))
    || Obstructed(mem, root, v + Cover(level), pa + Cover(level), size - Cover(level))
  }

  /** Last-level pages are kept; new ones appear only next to `v`, in its level 2 slot. */
  predicate PagesKept(h: Hit, h': Hit, near: bool) {
    (LastLevelPage(h) ==> LastLevelPage(h')) && (LastLevelPage(h') ==> LastLevelPage(h) || near)
  }

  /** The meaning of writing one block: its slot is translated as asked, everything else as before. */
  ghost predicate BlockMapped(mem: Memory, mem': Memory, root: nat, v: nat, pa: nat, level: nat, cfg: PageCfg) {
    forall a: nat | a < ADDRESS_SPACE ::
      var h, h' := Resolve(mem, root, a), Resolve(mem', root, a);
      if Slot(a, level) == Slot(v, level)
      then v <= a && h' == Leaf(level, Truncated(cfg), (pa + (a - v)) % ADDRESS_SPACE)
      else Deeper(h, h') && PagesKept(h, h', level == MAX_LEVEL && Slot(a, 2) == Slot(v, 2)) &&
           (h' != h ==> SharesBlock(h, a, v))
  }

  /** The meaning of a request of which `done` bytes are mapped. */
  ghost predicate MapProgress(mem: Memory, mem': Memory, root: nat, v: nat, pa: nat, done: nat, cfg: PageCfg) {
    forall a: nat | a < ADDRESS_SPACE ::
      var h, h' := Resolve(mem, root, a), Resolve(mem', root, a);
      if v <= a < v + done then Translate(h') == Mapped(Truncated(cfg), (pa + (a - v)) % ADDRESS_SPACE)
      else Deeper(h, h') &&
           (v + done <= a ==> PagesKept(h, h', Slot(a, 2) == Slot(v + done, 2) && Offset(v + done, 2) != 0))
  }

  /** The tree read as a flat map: the range is translated to the consecutive output addresses, all else as before. */
  ghost predicate MapsFlat(mem: Memory, mem': Memory, root: nat, v: nat, pa: nat, size: nat, cfg: PageCfg) {
    forall a: nat | a < ADDRESS_SPACE ::
      Translate(Resolve(mem', root, a)) ==
      if v <= a < v + size then Mapped(Truncated(cfg), (pa + (a - v)) % ADDRESS_SPACE)
      else Translate(Resolve(mem, root, a))
  }

  lemma {:induction false} PagesBelowSlot(m0: Memory, m1: Memory, root: nat, v: nat, level: nat, p: Place, i: nat)
    requires p.level == level < MAX_LEVEL ==> Descended(m0, m1, root, v, level)
    requires p.level == level && InEntry(p, i, v)
    ensures level < MAX_LEVEL ==> (PagesBelow(m1, root, p, i) <==> PagesInSlot(m0, root, v, level))
  {
    hide ResolveFrom, Slot;
    if level < MAX_LEVEL {
      forall a: nat | a < ADDRESS_SPACE
        ensures LastLevelPage(Resolve(m1, root, a)) <==> LastLevelPage(Resolve(m0, root, a))
      {
      }
    }
  }

  lemma {:induction false} BlockWritten(m0: Memory, m1: Memory, m2: Memory, root: nat, v: nat, pa: nat, level: nat,
                                        cfg: PageCfg, p: Place, i: nat)
    requires 1 <= level <= MAX_LEVEL && Offset(v, level) == 0 && Offset(pa, level) == 0
    requires Descended(m0, m1, root, v, level) && p.level == level && InEntry(p, i, v)
    requires OnlyEntryChanged(m1, m2, root, p, i)
    requires forall a: nat | InEntry(p, i, a) ::
               Resolve(m2, root, a) == HitAt(BlockDescriptor(cfg, pa, level), level, a)
    ensures BlockMapped(m0, m2, root, v, pa, level, cfg)
  {
    hide ResolveFrom, Slot, BlockDescriptor, Truncated, HitAt;
    forall a: nat | a < ADDRESS_SPACE
      ensures var h, h' := Resolve(m0, root, a), Resolve(m2, root, a);
              if Slot(a, level) == Slot(v, level)
              then v <= a && h' == Leaf(level, Truncated(cfg), (pa + (a - v)) % ADDRESS_SPACE)
              else Deeper(h, h') && PagesKept(h, h', level == MAX_LEVEL && Slot(a, 2) == Slot(v, 2)) &&
                   (h' != h ==> SharesBlock(h, a, v))
    {
      var h, h1 := Resolve(m0, root, a), Resolve(m1, root, a);
      if Slot(a, level) == Slot(v, level) { LeafAddress(cfg, pa, level, v, a); }
    }
  }

  lemma {:induction false} MapNothing(mem: Memory, place: Places, root: nat, v: nat, pa: nat, cfg: PageCfg)
    requires WellFormed(mem, place, root)
    ensures MapProgress(mem, mem, root, v, pa, 0, cfg)
  {
    NothingDescended(mem, place, root, v);
  }

  /** In every round, the obstruction test may look at the current tree as well as at the original one. */
  lemma {:induction false} MapRound(m0: Memory, m1: Memory, root: nat, va: nat, pa: nat, size: nat, done: nat,
                                    cfg: PageCfg, target: nat)
    requires va % ADDRESS_SPACE + size <= ADDRESS_SPACE && done < size
    requires PageAligned(va + done, pa + done, size - done) && target == TargetLevel(size - done, va + done, pa + done)
    requires MapProgress(m0, m1, root, va % ADDRESS_SPACE, pa, done, cfg)
    ensures var v := va % ADDRESS_SPACE;
            && (va + done) % ADDRESS_SPACE == v + done
            && Cover(target) <= size - done && Offset(v + done, target) == 0
            && target == TargetLevel(size - done, v + done, pa + done) && PageAligned(v + done, pa + done, size - done)
            && PageAligned(va + done + Cover(target), pa + done + Cover(target), size - done - Cover(target))
            && (Obstructed(m0, root, v + done, pa + done, size - done) <==>
                || (target < MAX_LEVEL && PagesInSlot(m1, root, v + done, target))
                || Obstructed(m0, root, v + done + Cover(target), pa + done + Cover(target),
                              size - done - Cover(target)))
  {
    hide ResolveFrom, PagesInSlot, PageAligned, MapProgress, Offset;
    var v := va % ADDRESS_SPACE;
    var u := v + done;
    DivUnique(va + done, ADDRESS_SPACE, va / ADDRESS_SPACE, u);
    TargetAligned(size - done, va + done, pa + done);
    assert PageAligned(u, pa + done, size - done) by { LowPage(va + done, pa + done, size - done); }
    if target < MAX_LEVEL { SlotPagesKept(m0, m1, root, v, pa, done, cfg, target); }
  }

  lemma {:induction false} LowPage(va: nat, pa: nat, size: nat)
    requires PageAligned(va, pa, size)
    ensures PageAligned(va % ADDRESS_SPACE, pa, size)
  {
    LowIndex(va, 3);
  }

  lemma {:induction false} NothingObstructed(mem: Memory, root: nat, v: nat, pa: nat)
    ensures !Obstructed(mem, root, v, pa, 0)
  {
  }

  lemma {:induction false} TargetAligned(size: nat, va: nat, pa: nat)
    requires size > 0 && PageAligned(va, pa, size)
    ensures size >= PAGE_SIZE
    ensures var l := TargetLevel(size, va, pa);
            && Cover(l) <= size && l == TargetLevel(size, va % ADDRESS_SPACE, pa) && Offset(va % ADDRESS_SPACE, l) == 0
            && PageAligned(va + Cover(l), pa + Cover(l), size - Cover(l))
  {
    assert Offset(va, 3) == 0 && size >= Cover(3);
    hide Offset, Index, Slot;
    LowIndex(va, 1);
    LowIndex(va, 2);
    LowIndex(va, 3);
    var l := TargetLevel(size, va, pa);
    AddCover(va, l);
    AddCover(pa, l);
    AddCover(size - Cover(l), l);
  }

  lemma AddCover(x: nat, level: nat)
    ensures (x + Cover(level)) % PAGE_SIZE == x % PAGE_SIZE
  {
    var q, r := x / PAGE_SIZE, x % PAGE_SIZE;
    DivUnique(x + Cover(level), PAGE_SIZE, q + Cover(level) / PAGE_SIZE, r);
  }

  lemma {:induction false} SlotPagesKept(m0: Memory, m1: Memory, root: nat, v: nat, pa: nat, done: nat, cfg: PageCfg,
                                         level: nat)
    requires 1 <= level < MAX_LEVEL && Offset(v + done, level) == 0
    requires MapProgress(m0, m1, root, v, pa, done, cfg)
    ensures PagesInSlot(m0, root, v + done, level) <==> PagesInSlot(m1, root, v + done, level)
  {
    hide ResolveFrom, Slot;
    AlignedBelow(v + done, level);
    forall a: nat | a < ADDRESS_SPACE && Slot(a, level) == Slot(v + done, level)
      ensures LastLevelPage(Resolve(m0, root, a)) <==> LastLevelPage(Resolve(m1, root, a))
    {
      SlotRange(v + done, level, a);
    }
  }

  lemma {:induction false} AlignedBelow(u: nat, level: nat)
    requires 1 <= level < MAX_LEVEL && Offset(u, level) == 0
    ensures Offset(u, 2) == 0
  {
    if level == 1 { DivUnique(u, 0x20_0000, u / 0x4000_0000 * 512, 0); }
  }

  lemma {:induction false} MapMeans(mem: Memory, mem': Memory, root: nat, v: nat, pa: nat, size: nat, cfg: PageCfg)
    requires MapProgress(mem, mem', root, v, pa, size, cfg)
    ensures MapsFlat(mem, mem', root, v, pa, size, cfg)
  {
    hide ResolveFrom, Truncated;
  }

  lemma {:induction false} MapProgressStep(m0: Memory, m1: Memory, m2: Memory, root: nat, v: nat, pa: nat, done: nat,
                                           level: nat, cfg: PageCfg)
    requires 1 <= level <= MAX_LEVEL && Offset(v + done, level) == 0
    requires MapProgress(m0, m1, root, v, pa, done, cfg)
    requires BlockMapped(m1, m2, root, v + done, pa + done, level, cfg)
    ensures MapProgress(m0, m2, root, v, pa, done + Cover(level), cfg)
  {
    hide ResolveFrom, Truncated, Slot, Offset;
    var u := v + done;
    forall a: nat | a < ADDRESS_SPACE
      ensures var h, h' := Resolve(m0, root, a), Resolve(m2, root, a);
              if v <= a < u + Cover(level) then Translate(h') == Mapped(Truncated(cfg), (pa + (a - v)) % ADDRESS_SPACE)
              else Deeper(h, h') &&
                   (u + Cover(level) <= a ==>
                      PagesKept(h, h', Slot(a, 2) == Slot(u + Cover(level), 2) && Offset(u + Cover(level), 2) != 0))
    {
      SlotRange(u, level, a);
      SlotBetween(u, u + Cover(level), a);
      var h0, h1, h2 := Resolve(m0, root, a), Resolve(m1, root, a), Resolve(m2, root, a);
    }
  }

  /** An aligned slot is a range of addresses. */
  lemma {:induction false} SlotRange(u: nat, level: nat, a: nat)
    requires 1 <= level <= MAX_LEVEL && Offset(u, level) == 0
    ensures Slot(a, level) == Slot(u, level) <==> u <= a < u + Cover(level)
  {
  }

  lemma {:induction false} SlotBetween(u: nat, m: nat, a: nat)
    ensures u < m <= a && Slot(a, 2) == Slot(u, 2) ==> Slot(a, 2) == Slot(m, 2) && Offset(m, 2) != 0
  {
  }

  /** The walk of some address of the entry ends at a last-level page. */
  ghost predicate PagesBelow(mem: Memory, root: nat, p: Place, i: nat) {
    exists a: nat :: a < ADDRESS_SPACE && InEntry(p, i, a) && LastLevelPage(Resolve(mem, root, a))
  }

  lemma {:induction false} PagesBelowIff(mem: Memory, place: Places, root: nat, t: nat, i: nat)
    requires WellFormed(mem, place, root) && t in mem && i < ENTRIES && place[t].level < MAX_LEVEL
    ensures PagesBelow(mem, root, place[t], i) <==>
            IsTable(mem[t][i], place[t].level) && mem[t][i].frame in place && LivePageUnder(mem, place, mem[t][i].frame)
  {
    hide ResolveFrom;
    var p := place[t];
    assert EntryOk(mem, place, t, i);
    if IsTable(mem[t][i], p.level) {
      var d := mem[t][i].frame;
      LivePageIff(mem, place, root, d);
      forall a: nat ensures Covers(place[d], a) <==> InEntry(p, i, a) {
      }
      forall a: nat | Covers(place[d], a) ensures a < ADDRESS_SPACE {
        WalkReaches(mem, place, root, d, a);
      }
    } else {
      forall a: nat | InEntry(p, i, a) ensures !LastLevelPage(Resolve(mem, root, a)) {
        TerminalHit(mem, place, root, t, i, a);
      }
    }
  }

  lemma {:induction false} TerminalHit(mem: Memory, place: Places, root: nat, t: nat, i: nat, a: nat)
    requires WellFormed(mem, place, root) && t in mem && i < ENTRIES && InEntry(place[t], i, a)
    requires !IsTable(mem[t][i], place[t].level)
    ensures Resolve(mem, root, a) == HitAt(mem[t][i], place[t].level, a)
  {
    assert PlaceOk(mem, place, root, t);
    assert EntryOk(mem, place, t, i);
    SlotInRegion(a, place[t].level);
    WalkReaches(mem, place, root, t, a);
  }

  /** No live page hangs from the entries of `t` before `i`, nor stands in them. */
  ghost predicate QuietBefore(mem: Memory, place: Places, t: nat, i: nat)
    requires t in place && place.Keys <= mem.Keys
  {
    && (forall x, j | x in UnderBefore(place, t, i) && place[x].level == MAX_LEVEL && 0 <= j < ENTRIES ::
          !Valid(mem[x][j]))
    && (place[t].level == MAX_LEVEL ==> forall j | 0 <= j < i && j < ENTRIES :: !Valid(mem[t][j]))
  }

  lemma {:induction false} QuietStep(mem: Memory, place: Places, root: nat, t: nat, i: nat)
    requires WellFormed(mem, place, root) && t in mem && i < ENTRIES && QuietBefore(mem, place, t, i)
    requires IsTable(mem[t][i], place[t].level) ==>
               mem[t][i].frame in place && !LivePageUnder(mem, place, mem[t][i].frame)
    requires place[t].level == MAX_LEVEL ==> !Valid(mem[t][i])
    ensures QuietBefore(mem, place, t, i + 1)
  {
    UnderBeforeStep(mem, place, root, t, i);
  }

  lemma {:induction false} QuietEnds(mem: Memory, place: Places, root: nat, t: nat)
    requires WellFormed(mem, place, root) && t in mem && QuietBefore(mem, place, t, ENTRIES)
    ensures !LivePageUnder(mem, place, t)
  {
    UnderBeforeEnds(mem, place, root, t);
  }

  lemma {:induction false} LiveChild(mem: Memory, place: Places, root: nat, t: nat, i: nat)
    requires WellFormed(mem, place, root) && t in mem && i < ENTRIES && IsTable(mem[t][i], place[t].level)
    requires mem[t][i].frame in place && LivePageUnder(mem, place, mem[t][i].frame)
    ensures LivePageUnder(mem, place, t)
  {
    var d := mem[t][i].frame;
    assert EntryOk(mem, place, t, i);
    var x, j :| x in Under(place, d) && place[x].level == MAX_LEVEL && 0 <= j < ENTRIES && Valid(mem[x][j]);
    UpStep(place[x].region, place[x].level - place[t].level - 1);
    assert x in Under(place, t);
  }
}
