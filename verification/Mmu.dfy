/** Mapping, unmapping and walking a translation tree in place (src/arm/mmu/mmu.c, src/arm/mmu/mmu_tbl_ctrl.h).

A mapping owns the frames that hold its tables; `pool` is the frames its table allocator can still hand out.
A panic of the source ends the run, so the results `AssertionFailed` and `OutOfFrames` promise no usable tree.
*/
module Mmu {
  import opened Arithmetic
  import opened Descriptors
  import opened PageTable
  import opened MmuMeaning
  import opened UnmapMeaning
  import opened MmuLevels

  method GetTargetLevel(size: nat, va: nat, pa: nat) returns (target: nat, cover: nat)
    requires size > 0 && PageAligned(va, pa, size)
    ensures 1 <= target <= MAX_LEVEL && cover == Cover(target)
    ensures Fits(size, va, pa, target)
    ensures forall l | 1 <= l < target :: !Fits(size, va, pa, l)
    ensures target == TargetLevel(size, va, pa)
  {
    cover := 0;
    target := 1;
    while target <= MAX_LEVEL
      invariant 1 <= target <= MAX_LEVEL
      invariant forall l | 1 <= l < target :: !Fits(size, va, pa, l)
    {
      cover := Cover(target);
      if size >= cover && Offset(va, target) == 0 && Offset(pa, target) == 0 {
        return;
      }
      target := target + 1;
    }
  }

  method SplitEntries(w: Word, l: nat) returns (es: Entries)
    requires 1 <= l < MAX_LEVEL && Offset(OutputAddress(w), l) == 0
    ensures SplitsBlock(w, l, es)
  {
    var cfg, pa := CfgOf(w), OutputAddress(w);
    ReadCfgInWidth(w);
    var s: seq<Word> := [];
    for j := 0 to ENTRIES
      invariant |s| == j
      invariant forall k | 0 <= k < j ::
                  && Terminal(s[k], l + 1) && Valid(s[k]) && CfgOf(s[k]) == cfg
                  && OutputAddress(s[k]) == pa + k * Cover(l + 1)
    {
      SubBlock(w, cfg, l, j);
      s := s + [BlockDescriptor(cfg, pa + j * Cover(l + 1), l + 1)];
    }
    es := s;
  }

  class Mapping {
    const root: nat
    const half: Half
    var mem: Memory
    var pool: set<nat>
    ghost var place: Places

    ghost predicate Valid()
      reads this
    {
      && WellFormed(mem, place, root)
      && pool !! mem.Keys
      && forall f | f in pool :: f < FRAMES
    }

    /** A mapping starts with one empty table, which translates nothing (`mmu_mapping_new`). */
    constructor (half: Half, root: nat, pool: set<nat>)
      requires root < FRAMES && root !in pool && forall f | f in pool :: f < FRAMES
      ensures Valid() && this.half == half && this.root == root && this.pool == pool && mem.Keys == {root}
      ensures forall a: nat :: Translate(At(a)) == Unmapped
    {
      this.half, this.root, this.pool := half, root, pool;
      mem := map[root := EmptyTable()];
      place := map[root := Place(0, 0, 0, 0)];
    }

    /** Where the walk of a 48-bit address stops. */
    ghost function At(a: nat): Hit
      reads this
    {
      Resolve(mem, root, a)
    }

    /** Divides the block in an entry into a table of next-level leaves; no address changes its translation. */
    method SplitBlock(t: nat, i: nat, l: nat) returns (ok: bool, f: nat)
      requires Valid() && t in mem && place[t].level == l < MAX_LEVEL && i < ENTRIES
      requires Descriptors.Valid(mem[t][i]) && KindAt(mem[t][i], l) == Block
      modifies this
      ensures !ok ==> pool == {} && mem.Keys + pool == old(mem.Keys + pool)
      ensures ok ==>
                && Valid() && f in mem && place[f] == Place(l + 1, old(place[t]).region * ENTRIES + i, t, i)
                && mem.Keys + pool == old(mem.Keys + pool)
                && SplitAt(old(mem), mem, root, old(place[t]), i)
    {
      assert EntryOk(mem, place, t, i);
      if pool == {} {
        return false, 0;
      }
      var f' :| f' in pool;
      f := f';
      var w := mem[t][i];
      var es := SplitEntries(w, l);
      SplitMeaning(mem, place, root, t, i, f, es);
      place := LinkedPlaces(place, t, i, f);
      mem := Linked(mem, t, i, f, es);
      pool := pool - {f};
      ok := true;
    }

    /** Puts a fresh empty table below an absent entry. */
    method LinkEmpty(t: nat, i: nat, l: nat) returns (ok: bool, f: nat)
      requires Valid() && t in mem && place[t].level == l < MAX_LEVEL && i < ENTRIES
      requires !Descriptors.Valid(mem[t][i])
      modifies this
      ensures !ok ==> pool == {} && mem.Keys + pool == old(mem.Keys + pool)
      ensures ok ==>
                && Valid() && f in mem && place[f] == Place(l + 1, old(place[t]).region * ENTRIES + i, t, i)
                && mem.Keys + pool == old(mem.Keys + pool)
                && FilledAt(old(mem), mem, root, old(place[t]), i)
    {
      if pool == {} {
        return false, 0;
      }
      var f' :| f' in pool;
      f := f';
      FillMeaning(mem, place, root, t, i, f);
      place := LinkedPlaces(place, t, i, f);
      mem := Linked(mem, t, i, f, EmptyTable());
      pool := pool - {f};
      ok := true;
    }

    /** Finds or makes the table of the target level on the walk of `va` (the inner loop of `mmu_map`). */
    method Descend(va: nat, target: nat) returns (ok: bool, t: nat)
      requires Valid() && 1 <= target <= MAX_LEVEL
      modifies this
      ensures !ok ==> pool == {} && mem.Keys + pool == old(mem.Keys + pool)
      ensures ok ==>
                && Valid() && t in mem && place[t].level == target && Covers(place[t], va % ADDRESS_SPACE)
                && mem.Keys + pool == old(mem.Keys + pool)
                && Descended(old(mem), mem, root, va % ADDRESS_SPACE, target)
    {
      hide Slot, ResolveFrom, EntryOk, PlaceOk, Deeper;
      ghost var v := va % ADDRESS_SPACE;
      t := root;
      var l := 0;
      NothingDescended(mem, place, root, v);
      RootCovers(mem, place, root, v);
      while l < target
        invariant 0 <= l <= target
        invariant Valid() && t in mem && place[t].level == l && Covers(place[t], v)
        invariant mem.Keys + pool == old(mem.Keys + pool)
        invariant Descended(old(mem), mem, root, v, l)
      {
        var i := Index(va, l);
        EntryOnWalk(mem, place, root, t, va);
        ghost var m1, p := mem, place[t];
        var w := mem[t][i];
        if !Descriptors.Valid(w) {
          ok, t := LinkEmpty(t, i, l);
          if !ok {
            return;
          }
        } else if KindAt(w, l) == Block {
          ok, t := SplitBlock(t, i, l);
          if !ok {
            return;
          }
        } else {
          t := w.frame;
        }
        DescendedFurther(old(mem), m1, mem, root, v, p, i);
        l := l + 1;
      }
      ok := true;
    }

    /** Frees the subtree of `t`, a table of level `l + 1` that no entry refers to any more.

    As in the source, `l` is one less than the level of `t`, so a live page of a last-level table is
    taken for a table and trips the assertion in `tbl_from_td`. */
    method FreeTable(t: nat, l: nat, ghost mem0: Memory, ghost place0: Places) returns (ok: bool)
      requires WellFormed(mem0, place0, root) && t in mem0 && place0[t].level == l + 1 <= MAX_LEVEL
      requires forall x | x in Under(place0, t) :: x in mem && mem[x] == mem0[x]
      modifies this`mem, this`pool
      decreases MAX_LEVEL - l
      ensures ok <==> !LivePageUnder(mem0, place0, t)
      ensures ok ==> mem == old(mem) - Under(place0, t) && pool == old(pool) + Under(place0, t)
    {
      UnderBeforeEnds(mem0, place0, root, t);
      var i := 0;
      while i < ENTRIES
        invariant 0 <= i <= ENTRIES
        invariant mem == old(mem) - UnderBefore(place0, t, i) && pool == old(pool) + UnderBefore(place0, t, i)
        invariant QuietBefore(mem0, place0, t, i)
      {
        assert t in Under(place0, t) && t in mem;
        UnderBeforeStep(mem0, place0, root, t, i);
        assert EntryOk(mem0, place0, t, i);
        var w := mem[t][i];
        if Descriptors.Valid(w) && KindAt(w, l) == Table {
          if KindAt(w, l + 1) != Table {
            assert t in Under(place0, t) && place0[t].level == MAX_LEVEL;
            return false;
          }
          ok := FreeTable(w.frame, l + 1, mem0, place0);
          if !ok {
            LiveChild(mem0, place0, root, t, i);
            return;
          }
        }
        QuietStep(mem0, place0, root, t, i);
        i := i + 1;
      }
      QuietEnds(mem0, place0, root, t);
      mem := mem - {t};
      pool := pool + {t};
      ok := true;
    }

    /** Writes a terminal word over an entry and frees the subtree it held. */
    method Replace(t: nat, i: nat, l: nat, w: Word) returns (ok: bool)
      requires Valid() && t in mem && place[t].level == l && 1 <= l <= MAX_LEVEL && i < ENTRIES && Terminal(w, l)
      modifies this
      ensures ok <==> l == MAX_LEVEL || !PagesBelow(old(mem), root, old(place[t]), i)
      ensures ok ==>
                && Valid() && mem.Keys + pool == old(mem.Keys + pool)
                && OnlyEntryChanged(old(mem), mem, root, old(place[t]), i)
                && forall a: nat | InEntry(old(place[t]), i, a) :: At(a) == HitAt(w, l, a)
    {
      hide ResolveFrom, Slot, CfgOf, Offset, PagesBelow, LivePageUnder;
      assert EntryOk(mem, place, t, i);
      if l < MAX_LEVEL { PagesBelowIff(mem, place, root, t, i); }
      var old' := mem[t][i];
      if Descriptors.Valid(old') && KindAt(old', l) == Table {
        ghost var m0, p0 := mem, place;
        DropSubtree(mem, place, root, t, i, w);
        mem := SetEntry(mem, t, i, w);
        ok := FreeTable(old'.frame, l, m0, p0);
        if ok {
          place := p0 - Under(p0, old'.frame);
          assert mem == SetEntry(m0 - Under(p0, old'.frame), t, i, w);
          forall x | x in Under(p0, old'.frame) ensures x < FRAMES {
            assert PlaceOk(m0, p0, root, x);
          }
        }
      } else {
        SetTerminal(mem, place, root, t, i, w);
        mem := SetEntry(mem, t, i, w);
        ok := true;
      }
    }

    /** One round of the loop of `mmu_map`: the block of the target level that starts at `va`. */
    method MapBlock(va: nat, pa: nat, cfg: PageCfg, target: nat) returns (r: MapResult)
      requires Valid() && 1 <= target <= MAX_LEVEL && Offset(va, target) == 0 && Offset(pa, target) == 0
      modifies this
      ensures r == MapOk || r == AssertionFailed || r == OutOfFrames
      ensures r == OutOfFrames ==> pool == {} && mem.Keys + pool == old(mem.Keys + pool)
      ensures r == AssertionFailed ==> target < MAX_LEVEL && PagesInSlot(old(mem), root, va % ADDRESS_SPACE, target)
      ensures r == MapOk ==>
                && Valid() && mem.Keys + pool == old(mem.Keys + pool)
                && (target < MAX_LEVEL ==> !PagesInSlot(old(mem), root, va % ADDRESS_SPACE, target))
                && BlockMapped(old(mem), mem, root, va % ADDRESS_SPACE, pa, target, cfg)
    {
      hide ResolveFrom, Slot, CfgOf, BlockDescriptor, PagesInSlot, PagesBelow, Descended, BlockMapped, OnlyEntryChanged;
      ghost var v := va % ADDRESS_SPACE;
      var ok, t := Descend(va, target);
      if !ok {
        return OutOfFrames;
      }
      var i := Index(va, target);
      EntryOnWalk(mem, place, root, t, va);
      LowIndex(va, target);
      LeafAddress(cfg, pa, target, v, v);
      ghost var m1, p := mem, place[t];
      PagesBelowSlot(old(mem), m1, root, v, target, p, i);
      ok := Replace(t, i, target, BlockDescriptor(cfg, pa, target));
      if !ok {
        return AssertionFailed;
      }
      BlockWritten(old(mem), m1, mem, root, v, pa, target, cfg, p, i);
      r := MapOk;
    }

    /** Maps `size` bytes at `va` to `pa` (`mmu_map`). The sums `va + cover` and `pa + cover` are kept unwrapped: a
    request that passes the range test wraps at most once, when it is finished. */
    method Map(va: nat, pa: nat, size: nat, cfg: PageCfg) returns (r: MapResult)
      requires Valid() && va < U64 && size < U64
      modifies this
      ensures r == NotInRange <==> size != 0 && !IsInRange(half, va, size)
      ensures r == NotInRange || size == 0 ==> unchanged(this)
      ensures r == OutOfFrames ==> pool == {} && mem.Keys + pool == old(mem.Keys + pool)
      ensures r == AssertionFailed ==>
                !PageAligned(va, pa, size) || Obstructed(old(mem), root, va % ADDRESS_SPACE, pa, size)
      ensures r == MapOk && size > 0 ==>
                && PageAligned(va, pa, size) && !Obstructed(old(mem), root, va % ADDRESS_SPACE, pa, size)
      ensures r == MapOk ==>
                && Valid() && mem.Keys + pool == old(mem.Keys + pool)
                && MapsFlat(old(mem), mem, root, va % ADDRESS_SPACE, pa, size, cfg)
                && LevelsKept(old(mem), mem, root, va % ADDRESS_SPACE, size)
                && LevelsInside(mem, root, va % ADDRESS_SPACE, pa, size)
                && LargestBlocks(mem, root, va % ADDRESS_SPACE, pa, size)
    {
      hide LargestBlocks, LevelsKept, LevelsInside, LevelsProgress, ResolveFrom, Slot, WellFormed, BlockMapped,
        PagesInSlot, Truncated, MapsFlat, MapProgress, Resolve, Obstructed, PageAligned, TargetLevel, IsInRange, Offset;
      MapNothing(mem, place, root, va % ADDRESS_SPACE, pa, cfg);
      LevelsStart(mem, root, va % ADDRESS_SPACE, pa, size);
      if size == 0 {
        MapMeans(mem, mem, root, va % ADDRESS_SPACE, pa, 0, cfg);
        LevelsMapped(mem, mem, root, va % ADDRESS_SPACE, pa, 0, cfg);
        return MapOk;
      }
      if !IsInRange(half, va, size) {
        return NotInRange;
      }
      LowAddress(half, va, size);
      ghost var v := va % ADDRESS_SPACE;
      var rest: nat, cur, out := size, va, pa;
      ghost var done := 0;
      while rest > 0
        invariant done + rest == size && cur == va + done && out == pa + done
        invariant Valid() && mem.Keys + pool == old(mem.Keys + pool)
        invariant done == 0 || (PageAligned(va, pa, size) && PageAligned(cur, out, rest))
        invariant Obstructed(old(mem), root, v, pa, size) <==> Obstructed(old(mem), root, v + done, out, rest)
        invariant MapProgress(old(mem), mem, root, v, pa, done, cfg)
        invariant LevelsProgress(old(mem), mem, root, v, pa, size, done)
      {
        if !PageAligned(cur, out, rest) {
          return AssertionFailed;
        }
        var target, cover := GetTargetLevel(rest, cur, out);
        ghost var m1 := mem;
        MapRound(old(mem), mem, root, va, pa, size, done, cfg, target);
        r := MapBlock(cur, out, cfg, target);
        if r != MapOk {
          return;
        }
        MapProgressStep(old(mem), m1, mem, root, v, pa, done, target, cfg);
        LevelsStep(old(mem), m1, mem, root, v, pa, size, done, target, cfg);
        rest := rest - cover;
        out := out + cover;
        cur := cur + cover;
        done := done + cover;
      }
      MapMeans(old(mem), mem, root, v, pa, size, cfg);
      LevelsMapped(old(mem), mem, root, v, pa, size, cfg);
      NothingObstructed(old(mem), root, v + done, out);
      r := MapOk;
    }

    /**
     * Finds the table of the target level on the walk of `va`, or the level at which the walk meets an absent entry.
     */
    method Seek(va: nat, target: nat) returns (ok: bool, found: bool, t: nat, l: nat)
      requires Valid() && 1 <= target <= MAX_LEVEL
      modifies this
      ensures !ok ==> pool == {} && mem.Keys + pool == old(mem.Keys + pool)
      ensures !ok ==> old(At(va % ADDRESS_SPACE)).Leaf? && old(At(va % ADDRESS_SPACE)).level < target
      ensures ok ==> Valid() && mem.Keys + pool == old(mem.Keys + pool)
      ensures ok && !found ==> l < target && old(At(va % ADDRESS_SPACE)) == Hole(l) && mem == old(mem)
      ensures ok && found ==>
                && t in mem && place[t].level == target && Covers(place[t], va % ADDRESS_SPACE)
                && Descended(old(mem), mem, root, va % ADDRESS_SPACE, target) && HolesKept(old(mem), mem, root)
    {
      hide Slot, ResolveFrom, EntryOk, PlaceOk, Deeper, Descended, HolesKept;
      ghost var v := va % ADDRESS_SPACE;
      t := root;
      l := 0;
      NothingDescended(mem, place, root, v);
      RootCovers(mem, place, root, v);
      while l < target
        invariant 0 <= l <= target
        invariant Valid() && t in mem && place[t].level == l && Covers(place[t], v)
        invariant mem.Keys + pool == old(mem.Keys + pool)
        invariant Descended(old(mem), mem, root, v, l) && HolesKept(old(mem), mem, root)
        invariant mem == old(mem) || (At(v).Leaf? && old(At(v)).Leaf? && old(At(v)).level < target)
      {
        var i := Index(va, l);
        EntryOnWalk(mem, place, root, t, va);
        ghost var m1, p := mem, place[t];
        var w := mem[t][i];
        if !Descriptors.Valid(w) {
          TerminalHit(mem, place, root, t, i, v);
          return true, false, t, l;
        }
        if KindAt(w, l) == Block {
          TerminalHit(mem, place, root, t, i, v);
          ok, t := SplitBlock(t, i, l);
          if !ok {
            found := false;
            return;
          }
        } else {
          t := w.frame;
        }
        DescendedFurther(old(mem), m1, mem, root, v, p, i);
        l := l + 1;
      }
      ok, found := true, true;
    }

    /** One round of the loop of `mmu_unmap` at `va`; `n` is the bytes it moves forward. */
    method UnmapBlock(va: nat, size: nat) returns (r: UnmapResult, n: nat)
      requires Valid() && size > 0 && PageAligned(va, 0, size)
      modifies this
      ensures r == UnmapOk || r == UnmapAssertionFailed || r == UnmapOutOfFrames
      ensures var v := va % ADDRESS_SPACE;
              var skips, level := RoundSkips(old(mem), root, v, size), TargetLevel(size, v, 0);
              && (r == UnmapOutOfFrames ==>
                    pool == {} && mem.Keys + pool == old(mem.Keys + pool) && SplitsHere(old(mem), root, v, size))
              && (r == UnmapAssertionFailed ==> !skips && ClearFails(old(mem), root, v, level))
              && (r == UnmapOk ==>
                    && Valid() && mem.Keys + pool == old(mem.Keys + pool) && n == RoundBytes(old(mem), root, v, size)
                    && (skips ==> mem == old(mem))
                    && (!skips ==>
                          !ClearFails(old(mem), root, v, level) && BlockCleared(old(mem), mem, root, v, level)))
    {
      hide ResolveFrom, Slot, CfgOf, PagesInSlot, PagesBelow, Descended, BlockCleared, OnlyEntryChanged, HolesKept,
        Offset;
      ghost var v := va % ADDRESS_SPACE;
      TargetAligned(size, va, 0);
      var target, cover := GetTargetLevel(size, va, 0);
      var ok, found, t, l := Seek(va, target);
      if !ok {
        return UnmapOutOfFrames, 0;
      }
      if !found {
        return UnmapOk, Min(size, Cover(l));
      }
      var i := Index(va, target);
      EntryOnWalk(mem, place, root, t, va);
      ghost var m1, p := mem, place[t];
      var w := mem[t][i];
      FoundRound(old(mem), m1, place, root, t, i, v, size);
      if KindAt(w, target) == BadType {
        return UnmapAssertionFailed, 0;
      }
      ok := Replace(t, i, target, NULL_WORD);
      if !ok {
        return UnmapAssertionFailed, 0;
      }
      BlockErased(old(mem), m1, mem, root, v, target, p, i);
      return UnmapOk, cover;
    }

    /** Unmaps `size` bytes at `va` (`mmu_unmap`). The source does not test the range; one that stays inside the
    48-bit space is assumed. */
    method Unmap(va: nat, size: nat) returns (r: UnmapResult)
      requires Valid() && va % ADDRESS_SPACE + size <= ADDRESS_SPACE
      modifies this
      ensures r == UnmapErr <==> !PageAligned(va, 0, size) && size > 0
      ensures r == UnmapErr ==> mem == old(mem) && pool == old(pool)
      ensures r == UnmapOutOfFrames ==> pool == {} && mem.Keys + pool == old(mem.Keys + pool)
      ensures r == UnmapOutOfFrames ==> NeedsSplit(old(mem), root, va % ADDRESS_SPACE, size)
      ensures r == UnmapAssertionFailed ==> UnmapFails(old(mem), root, va % ADDRESS_SPACE, size)
      ensures r == UnmapOk ==>
                && Valid() && mem.Keys + pool == old(mem.Keys + pool)
                && !UnmapFails(old(mem), root, va % ADDRESS_SPACE, size)
                && UnmapsFlat(old(mem), mem, root, va % ADDRESS_SPACE, size)
                && LevelsKept(old(mem), mem, root, va % ADDRESS_SPACE, size)
    {
      hide LevelsKept, PagesBefore, SplitsHere, NeedsSplit, ResolveFrom, Resolve, Slot, WellFormed, BlockCleared,
        UnmapsFlat, UnmapFails, Cleared, ClearFails, RoundSkips, RoundBytes, Offset, UnmapProgress, PageAligned;
      ghost var v := va % ADDRESS_SPACE;
      UnmapNothing(mem, place, root, v);
      assert PagesBefore(mem, mem, root, v) by { NothingBefore(mem, root, v); }
      var rest: nat, cur := size, va;
      ghost var done: nat, gone: iset<nat> := 0, iset{};
      while rest > 0
        invariant done + rest == size && cur == va + done
        invariant Valid() && mem.Keys + pool == old(mem.Keys + pool)
        invariant done == 0 ==> mem == old(mem) && pool == old(pool)
        invariant done == 0 || (PageAligned(va, 0, size) && PageAligned(cur, 0, rest))
        invariant NeedsSplit(old(mem), root, v + done, rest) ==> NeedsSplit(old(mem), root, v, size)
        invariant PagesBefore(old(mem), mem, root, v)
        invariant UnmapFails(old(mem), root, v, size) <==> UnmapFails(old(mem), root, v + done, rest)
        invariant forall a: nat :: Cleared(old(mem), root, v, size, a) <==>
                    a in gone || Cleared(old(mem), root, v + done, rest, a)
        invariant UnmapProgress(old(mem), mem, root, v + done, gone)
      {
        if !PageAligned(cur, 0, rest) {
          return UnmapErr;
        }
        ghost var m1, u := mem, v + done;
        NextRound(old(mem), m1, root, va, size, done, gone);
        var n;
        r, n := UnmapBlock(cur, rest);
        if r != UnmapOk {
          return;
        }
        if !RoundSkips(old(mem), root, u, rest) {
          PagesBeforeStep(old(mem), m1, mem, root, v, u, TargetLevel(rest, u, 0));
        }
        gone := AfterRound(old(mem), m1, mem, root, u, rest, gone);
        rest := rest - n;
        cur := cur + n;
        done := done + n;
      }
      NothingToUnmap(old(mem), root, v + done);
      UnmapMeans(old(mem), mem, root, v, size, gone, v + done);
      LevelsUnmapped(old(mem), mem, root, v, size, gone);
      r := UnmapOk;
    }

    /** Walks one page (`mmu_walk_page`). */
    method WalkPage(va: nat) returns (result: Translation)
      requires Valid()
      ensures result == Translate(At(va % ADDRESS_SPACE)) && result != Panic
    {
      ghost var v := va % ADDRESS_SPACE;
      RootCovers(mem, place, root, v);
      var t, l := root, 0;
      while l <= MAX_LEVEL
        invariant 0 <= l <= MAX_LEVEL && t in mem && place[t].level == l && Covers(place[t], v)
      {
        EntryOnWalk(mem, place, root, t, va);
        var i := Index(va, l);
        var w := mem[t][i];
        if !Descriptors.Valid(w) {
          TerminalHit(mem, place, root, t, i, v);
          return Unmapped;
        }
        if KindAt(w, l) != Table {
          TerminalHit(mem, place, root, t, i, v);
          LowIndex(va, l);
          return Mapped(CfgOf(w), OutputAddress(w) + Offset(va, l));
        }
        t := w.frame;
        l := l + 1;
      }
    }
  }
}
