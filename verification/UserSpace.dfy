/**
 * A task's user memory: regions, physical blocks from the buddy allocator, page tables and the bytes behind them
 * (src/kernel/mm/malloc/uregion.c).
 */
module UserSpace {
  import opened Arithmetic
  import opened Descriptors
  import opened PageTable
  import opened MmuMeaning
  import opened UnmapMeaning
  import opened BuddyBlocks
  import opened BuddyTiling
  import opened FreeLists
  import opened BuddyNodes
  import opened MmuLevels
  import opened UserRegions
  import opened UserBlocks
  import opened UserAddresses
  import opened Sequences
  import Mmu
  import PageAllocator

  datatype FreeOutcome = RegionFreed | NoSuchRegion | FreePanic

  const USER_PAGE := PageData("commited user page", false, false)

  class UserSpace {
    const mapping: Mmu.Mapping
    const alloc: PageAllocator.Allocator
    const ram: array<bv8>
    var regions: seq<Region>

    /** The blocks of the allocator that this task does not own. */
    ghost function Others(): map<nat, nat>
      reads this, alloc
    {
      Foreign(regions, Allocated(alloc.blocks))
    }

    ghost predicate Machine()
      reads mapping, alloc, alloc.nodes, alloc.freeLists
    {
      && mapping.Valid() && mapping.half == Lo && alloc.Valid() && alloc.n <= NULL_IDX &&
      alloc.n * PAGE_SIZE <= ram.Length
      && ram as object != alloc.nodes && ram as object != alloc.freeLists
    }

    /** Regions are apart, and tables, blocks and regions agree; commit bits aside. */
    ghost predicate Mapped()
      reads this, mapping, alloc, alloc.nodes
    {
      && Shapes(regions) && Settled(regions, mapping.mem, mapping.root, alloc.nodes[..])
      && Agrees(regions, mapping.mem, mapping.root) && PhysOk(regions, Allocated(alloc.blocks))
    }

    ghost predicate Valid()
      reads this, mapping, alloc, alloc.nodes, alloc.freeLists
    {
      Machine() && Mapped() && forall i | 0 <= i < |regions| :: RegionOk(regions[i])
    }

    /** A new task: no regions, and a mapping that translates nothing. */
    constructor (mapping: Mmu.Mapping, alloc: PageAllocator.Allocator, ram: array<bv8>)
      requires mapping.Valid() && mapping.half == Lo && alloc.Valid() && alloc.n <= NULL_IDX
      requires alloc.n * PAGE_SIZE <= ram.Length
      requires ram as object != alloc.nodes && ram as object != alloc.freeLists
      requires forall a: nat :: Translate(mapping.At(a)) == Unmapped
      ensures Valid() && regions == [] && this.mapping == mapping && this.alloc == alloc && this.ram == ram
    {
      this.mapping, this.alloc, this.ram := mapping, alloc, ram;
      regions := [];
      new;
      forall u: nat {:trigger Resolve(mapping.mem, mapping.root, u)} | u < ADDRESS_SPACE
        ensures Translate(Resolve(mapping.mem, mapping.root, u)) == Unmapped
      {
        assert mapping.At(u) == Resolve(mapping.mem, mapping.root, u);
      }
    }

    /** One turn of the loop of `map_user_region`: a buddy block is put behind `Pow2(order)` pages and mapped. */
    method MapBlock(i: nat, ua: nat, order: nat) returns (ok: bool)
      requires Machine() && Mapped() && i < |regions| && order <= alloc.maxOrder
      requires var r := regions[i];
               ua % PAGE_SIZE == 0 && r.start <= ua && ua + Pow2(order) * PAGE_SIZE <= RegionEnd(r) &&
               Unbacked(r, ua, ua + Pow2(order) * PAGE_SIZE)
      modifies this, mapping, alloc, alloc.nodes, alloc.freeLists
      ensures ok ==>
                Machine() && Mapped() && MoreBacked(old(regions), regions, i, ua, ua + Pow2(order) * PAGE_SIZE) &&
                Others() == old(Others())
      ensures !ok ==>
        || CfgFromFlags(old(regions)[i].perms).BadFlags? || mapping.pool == {} ||
        OrderStarved(alloc.blocks, alloc.maxOrder, order)
                      || USER_END < ua + Pow2(order) * PAGE_SIZE
    {
      hide Foreign, Settled, Agrees, PhysOk, RegionShape, RegionEnd, Tiled, Merged, Allocated, MapsFlat, Obstructed,
        FreeRun, Unbacked, Backed, IsInRange, Pow2, CfgFromFlags, Links, BuddyNodes.Shows, WellFormed, DataSetAt,
        Shapes, MoreBacked;
      ghost var rs, mem, b, ns := regions, mapping.mem, alloc.blocks, alloc.nodes[..];
      var idx;
      ok, idx := alloc.PageMalloc(order, USER_PAGE);
      if !ok {
        return;
      }
      var flags := CfgFromFlags(regions[i].perms);
      if flags.BadFlags? {
        return false;
      }
      var n := Phys(idx * PAGE_SIZE, ua, Pow2(order));
      RegionHigh(rs, i);
      RunBytes(b, alloc.n, alloc.maxOrder, idx, order, ua, RegionEnd(rs[i]));
      if ua + n.count * PAGE_SIZE <= USER_END {
        MapReady(rs, i, n, mem, mapping.root, b, alloc.n, alloc.maxOrder, idx, order);
      } else {
        NotInUserRange(ua, n.count * PAGE_SIZE);
      }
      regions := regions[i := WithNode(regions[i], n)];
      ghost var ns1 := alloc.nodes[..];
      var r := mapping.Map(ua, n.pa, n.count * PAGE_SIZE, flags.cfg);
      if r != MapOk {
        return false;
      }
      MapDone(rs, i, n, mem, mapping.mem, mapping.root, Allocated(b), idx, order);
      NewNode(rs, i, n, Allocated(b));
      SettledAdded(rs, i, n, mem, mapping.mem, mapping.root, ns, ns1, idx, USER_PAGE);
    }

    /** `map_user_region`: the range is backed by the largest buddy blocks that fit in what remains. */
    method MapUserRegion(i: nat, va: nat, pages: nat) returns (ok: bool)
      requires Machine() && Mapped() && i < |regions|
      requires var r := regions[i];
               va % PAGE_SIZE == 0 && r.start <= va && va + pages * PAGE_SIZE <= RegionEnd(r) &&
               Unbacked(r, va, va + pages * PAGE_SIZE)
      modifies this, mapping, alloc, alloc.nodes, alloc.freeLists
      ensures ok ==>
                Machine() && Mapped() && MoreBacked(old(regions), regions, i, va, va + pages * PAGE_SIZE) &&
                Others() == old(Others())
      ensures !ok ==>
                Starved(old(regions)[i].perms, mapping.pool, alloc.blocks, alloc.maxOrder, pages,
                        va + pages * PAGE_SIZE)
    {
      hide Foreign, Settled, Agrees, PhysOk, RegionShape, Tiled, Merged, Allocated, Unbacked, Backed, Pow2, Links,
        BuddyNodes.Shows, WellFormed, Shapes, MoreBacked;
      var rem: nat := pages;
      ghost var rs := regions;
      NothingMore(rs, i, va);
      while rem > 0
        invariant Others() == old(Others())
        invariant rem <= pages && Machine() && Mapped()
        invariant MoreBacked(rs, regions, i, va, va + (pages - rem) * PAGE_SIZE)
      {
        var order := Log2Floor(rem);
        Log2FloorBounds(rem);
        if order > alloc.maxOrder {
          assert OrderStarved(alloc.blocks, alloc.maxOrder, order);
          return false;
        }
        var ua := va + (pages - rem) * PAGE_SIZE;
        ghost var rs1 := regions;
        RestUnbacked(rs, rs1, i, va, ua, va + pages * PAGE_SIZE);
        SameEnd(rs, rs1, i, va, ua);
        FirstUnbacked(rs1[i], ua, ua + Pow2(order) * PAGE_SIZE, va + pages * PAGE_SIZE);
        ok := MapBlock(i, ua, order);
        if !ok {
          return;
        }
        MoreBackedTrans(rs, rs1, regions, i, va, ua, ua + Pow2(order) * PAGE_SIZE);
        rem := rem - Pow2(order);
      }
      ok := true;
    }

    /** `committed_set`. */
    method CommittedSet(bits: seq<bool>, k: nat, pages: nat) returns (bits': seq<bool>)
      requires k + pages <= |bits|
      ensures BitsSet(bits, bits', k, pages)
    {
      bits' := bits;
      for i := 0 to pages
        invariant BitsSet(bits, bits', k, i)
      {
        bits' := bits'[k + i := true];
      }
    }

    /** The population count of `get_commited_state`. */
    method CountCommitted(bits: seq<bool>) returns (total: nat)
      ensures total == CountSet(bits)
    {
      total := 0;
      for i := 0 to |bits|
        invariant total == CountSet(bits[..i])
      {
        assert bits[..i + 1][..i] == bits[..i];
        if bits[i] {
          total := total + 1;
        }
      }
      assert bits[..|bits|] == bits;
    }

    /** `commit`: pages of a region get physical memory, and are marked. */
    method Commit(i: nat, va: nat, pages: nat) returns (ok: bool)
      requires Valid() && i < |regions| && va % PAGE_SIZE == 0 && regions[i].start <= va
      requires Unbacked(regions[i], va, va + pages * PAGE_SIZE)
      modifies this, mapping, alloc, alloc.nodes, alloc.freeLists
      ensures ok ==>
                Valid() && Committed(old(regions), regions, i, va, va + pages * PAGE_SIZE) && Others() == old(Others())
      ensures !ok && va + pages * PAGE_SIZE <= RegionEnd(old(regions)[i]) && pages > 0 ==>
                Starved(old(regions)[i].perms, mapping.pool, alloc.blocks, alloc.maxOrder, pages,
                        va + pages * PAGE_SIZE)
    {
      hide Foreign, Settled, Agrees, PhysOk, RegionShape, Tiled, Merged, Allocated, Unbacked, Backed, Pow2, Links,
        BuddyNodes.Shows, WellFormed, MoreBacked, RegionOk, BitsSet, Marked, CommitsExcept, CfgFromFlags, Shapes;
      ghost var rs, r := regions, regions[i];
      OkShape(r);
      if va + pages * PAGE_SIZE > RegionEnd(regions[i]) {
        return false;
      }
      if !regions[i].hasPhys {
        ShapeFlagged(r);
        Reflagged(regions, i, r.(hasPhys := true), mapping.mem, mapping.root, Allocated(alloc.blocks));
        regions := regions[i := regions[i].(hasPhys := true)];
      }
      ghost var rs1 := regions;
      ForeignSame(rs, rs1, Allocated(alloc.blocks));
      SettledSame(rs, rs1, mapping.mem, mapping.root, alloc.nodes[..]);
      UnbackedFlag(r, rs1[i], va, va + pages * PAGE_SIZE);
      ok := MapUserRegion(i, va, pages);
      if !ok {
        return;
      }
      SameEnd(rs1, regions, i, va, va + pages * PAGE_SIZE);
      PageIndex(r.start, va, pages, r.pages);
      var k := (va - regions[i].start) / PAGE_SIZE;
      var bits := CommittedSet(regions[i].committed, k, pages);
      var total := CountCommitted(bits);
      if total == 0 {
        if pages > 0 { SomeSet(rs[i].committed, bits, k, pages); }
        return false;
      }
      CountSetFull(bits);
      ghost var rs2 := regions;
      CommitStep(rs, rs1, rs2, i, k, pages, bits, total == |bits|);
      Reflagged(regions, i, rs2[i].(committed := bits, hasPhys := true, full := total == |bits|), mapping.mem,
                mapping.root, Allocated(alloc.blocks));
      assert regions[i].hasPhys;
      regions := regions[i := regions[i].(committed := bits, full := total == |bits|)];
      ForeignSame(rs2, regions, Allocated(alloc.blocks));
      SettledSame(rs2, regions, mapping.mem, mapping.root, alloc.nodes[..]);
    }

    /** `region_find_usrva`. */
    method FindRegion(u: nat) returns (found: bool, i: nat)
      requires Shapes(regions)
      ensures found ==> i < |regions| && Inside(regions[i], u)
      ensures !found ==> forall j | 0 <= j < |regions| :: !Inside(regions[j], u)
    {
      i := 0;
      while i < |regions|
        invariant i <= |regions| && forall j | 0 <= j < i :: !Inside(regions[j], u)
      {
        ShapeFacts(regions[i]);
        FoundIff(regions[i], u);
        if Seek(u, regions[i]) == Equal {
          return true, i;
        }
        i := i + 1;
      }
      found := false;
    }

    /** Where the tree insertion puts a region, or that it meets one it takes to overlap. */
    method Place(rs: seq<Region>, node: Region) returns (k: nat, equal: bool)
      requires Shapes(rs) && node.start < U64 && node.pages < U32
      ensures k <= |rs| && (equal <==> RegionEnd(node) < U64 && exists j | 0 <= j < |rs| :: Overlap(node, rs[j]))
      ensures !equal && RegionEnd(node) < U64 ==>
                (forall j | 0 <= j < k :: RegionEnd(rs[j]) <= node.start) &&
                (forall j | k <= j < |rs| :: RegionEnd(node) <= rs[j].start)
    {
      hide RegionShape, Compare;
      k := 0;
      while k < |rs| && Compare(node, rs[k]) == Greater
        invariant k <= |rs|
        invariant RegionEnd(node) < U64 ==> forall j | 0 <= j < k :: RegionEnd(rs[j]) <= node.start
      {
        ShapeFacts(rs[k]);
        if RegionEnd(node) < U64 { PlainCompares(node, rs[k]); }
        k := k + 1;
      }
      equal := k < |rs| && Compare(node, rs[k]) == Equal;
      if k < |rs| {
        ShapeFacts(rs[k]);
        if RegionEnd(node) < U64 { PlainCompares(node, rs[k]); } else { WrappedCompares(node, rs[k]); }
      }
    }

    /**
     * `uregion_reserve`: refused exactly when the range overlaps a region and its end does not wrap. A region whose end
     * wraps is let in, and ends the agreement of tree and regions.
     */
    method Reserve(start: nat, pages: nat, perms: set<Perm>) returns (ok: bool, k: nat)
      requires Valid() && start % PAGE_SIZE == 0 && start < U64 && pages < U32
      modifies this
      ensures ok <==>
              U64 <= start + pages * PAGE_SIZE ||
              forall j | 0 <= j < |old(regions)| :: !Overlap(NewRegion(start, pages, perms), old(regions)[j])
      ensures ok ==> k <= |old(regions)| && regions == Inserted(old(regions), k, NewRegion(start, pages, perms))
      ensures !ok ==> regions == old(regions)
      ensures Valid() <==> !ok || start + pages * PAGE_SIZE < U64
      ensures Others() == old(Others())
    {
      hide Foreign, Agrees, PhysOk, RegionShape, Tiled, Merged, Allocated, Links, BuddyNodes.Shows, WellFormed,
        RegionOk, Settled, Compare;
      var node := NewRegion(start, pages, perms);
      var rs := regions;
      var equal;
      k, equal := Place(rs, node);
      if equal {
        return false, k;
      }
      ForeignInserted(rs, k, node, Allocated(alloc.blocks));
      regions := regions[..k] + [node] + regions[k..];
      ok := true;
      if RegionEnd(node) < U64 {
        Reserved(rs, k, start, pages, perms);
      } else {
        TooHigh(rs, k, node);
      }
    }

    /** A region let in between its neighbours keeps the invariant. */
    lemma Reserved(rs: seq<Region>, k: nat, start: nat, pages: nat, perms: set<Perm>)
      requires Machine() && k <= |rs| && regions == Inserted(rs, k, NewRegion(start, pages, perms))
      requires Shapes(rs) && Settled(rs, mapping.mem, mapping.root, alloc.nodes[..])
      requires (forall i | 0 <= i < |rs| :: RegionOk(rs[i]))
      requires Agrees(rs, mapping.mem, mapping.root) && PhysOk(rs, Allocated(alloc.blocks))
      requires start % PAGE_SIZE == 0 && pages < U32 && start + pages * PAGE_SIZE < U64
      requires (forall j | 0 <= j < k :: RegionEnd(rs[j]) <= start)
      requires (forall j | k <= j < |rs| :: start + pages * PAGE_SIZE <= rs[j].start)
      ensures Valid()
    {
      hide Foreign, Agrees, PhysOk, RegionShape, Tiled, Merged, Allocated, Links, BuddyNodes.Shows, WellFormed,
        RegionOk, Settled;
      var node := NewRegion(start, pages, perms);
      NewRegionOk(start, pages, perms);
      OkShape(node);
      InsertedShapes(rs, k, node);
      InsertedAgrees(rs, k, node, mapping.mem, mapping.root);
      InsertedPhys(rs, k, node, Allocated(alloc.blocks));
      SettledInserted(rs, k, node, mapping.mem, mapping.root, alloc.nodes[..]);
      InsertedAt(rs, k, node);
    }

    /** `uregion_is_committed` on a chunk of one region. */
    method ChunkCommitted(i: nat, start: nat, size: nat) returns (r: bool)
      requires i < |regions| && RegionOk(regions[i]) && regions[i].start <= start
      requires start + size <= RegionEnd(regions[i])
      requires start % PAGE_SIZE == 0 && size % PAGE_SIZE == 0 && size > 0
      ensures r <==> CommittedRange(regions[i], start, start + size)
    {
      var region := regions[i];
      PageIndex(region.start, start, size / PAGE_SIZE, region.pages);
      var first, count := (start - region.start) / PAGE_SIZE, size / PAGE_SIZE;
      ChunkBits(region, start, size, first, count);
      if region.full {
        return true;
      }
      if !region.hasPhys {
        assert !region.committed[first];
        return false;
      }
      for j := 0 to count
        invariant forall l | first <= l < first + j :: region.committed[l]
      {
        if !region.committed[first + j] {
          return false;
        }
      }
      r := true;
    }

    /** The first pass of `uregions_check_access`. */
    method CheckPass(lo: nat, hi: nat, required: set<Perm>, forbidden: set<Perm>, onDemand: bool)
      returns (r: Access, todo: seq<Area>, ghost at: nat)
      requires Valid() && lo % PAGE_SIZE == 0 && hi % PAGE_SIZE == 0
      ensures r != AccessPanic && r != AccessReplaces && !CopyFault(r)
      ensures (r != AccessOk ==> lo <= at < hi && AllGranted(regions, todo, required, forbidden, lo, at))
      ensures r != AccessOk ==> !AllAccess(regions, required, forbidden, lo, hi)
      ensures r == NotReserved ==> forall j | 0 <= j < |regions| :: !Inside(regions[j], at)
      ensures r == NoPermission ==>
                exists j: nat :: j < |regions| && Inside(regions[j], at) && !Allowed(regions[j], required, forbidden)
      ensures r == NotCommitted ==> !onDemand
      ensures r == AccessOk ==>
                && AllGranted(regions, todo, required, forbidden, lo, hi) && (!onDemand ==> todo == [])
                && (forall k | 0 <= k < |todo| :: AreaOk(regions, todo[k], lo, hi))
                && (forall a, b | 0 <= a < b < |todo| :: todo[a].i != todo[b].i)
    {
      hide Foreign, Settled, Agrees, PhysOk, Tiled, Merged, Allocated, Links, BuddyNodes.Shows, WellFormed, AllGranted,
        AreaOk, Unbacked, Allowed, CommittedRange, NoneStraddles, Shapes, RegionShape, CommitsExcept, AllAccess, Sorted,
        Collected;
      ShapesSorted(regions);
      todo := [];
      var cursor := lo;
      at := lo;
      NothingGranted(regions, required, forbidden, lo);
      assert Collected(regions, [], lo, hi, lo) by { NothingCollected(regions, lo, hi); }
      assert NoneStraddles(regions, lo, cursor) by { StraddlesStart(regions, lo); }
      while cursor < hi
        invariant lo <= cursor && cursor % PAGE_SIZE == 0 && (lo <= hi ==> cursor <= hi) && at == cursor
        invariant AllGranted(regions, todo, required, forbidden, lo, cursor) && (!onDemand ==> todo == [])
        invariant cursor < hi ==> NoneStraddles(regions, lo, cursor)
        invariant Collected(regions, todo, lo, hi, cursor)
      {
        var found, i := FindRegion(cursor);
        if !found {
          RangeRefused(regions, required, forbidden, lo, hi, cursor);
          return NotReserved, todo, at;
        }
        OkShape(regions[i]);
        if !Allowed(regions[i], required, forbidden) {
          NotAccessible(regions, required, forbidden, i, cursor);
          RangeRefused(regions, required, forbidden, lo, hi, cursor);
          return NoPermission, todo, at;
        }
        RegionAligned(regions[i]);
        var end := if hi < RegionEnd(regions[i]) then hi else RegionEnd(regions[i]);
        AlignedDifference(end, cursor);
        var committed := ChunkCommitted(i, cursor, end - cursor);
        ghost var before := todo;
        if !committed {
          if !onDemand {
            ChunkRefused(regions, required, forbidden, lo, cursor, end, hi, i);
            return NotCommitted, todo, at;
          }
          AreaStart(regions, lo, cursor, i);
          NewArea(regions, lo, hi, i, cursor, end);
          CollectedMore(regions, todo, lo, hi, cursor, end, Area(i, cursor, (end - cursor) / PAGE_SIZE));
          todo := todo + [Area(i, cursor, (end - cursor) / PAGE_SIZE)];
        } else {
          CollectedKept(regions, todo, lo, hi, cursor, end);
        }
        ChunkGranted(regions, before, todo, required, forbidden, lo, cursor, end, i, committed);
        StraddlesNext(regions, lo, i, end);
        cursor, at := end, end;
      }
      NothingAbove(regions, todo, required, forbidden, lo, cursor, hi);
      CollectedMeans(regions, todo, lo, hi, cursor);
      r := AccessOk;
    }

    /** Whether a page of the area has a block already. */
    method AnyCommitted(i: nat, ua: nat, pages: nat) returns (r: bool)
      requires i < |regions| && RegionOk(regions[i]) && regions[i].start <= ua
      requires ua + pages * PAGE_SIZE <= RegionEnd(regions[i]) && ua % PAGE_SIZE == 0
      ensures !r <==> Unbacked(regions[i], ua, ua + pages * PAGE_SIZE)
    {
      hide Unbacked, CommitsExcept;
      OkShape(regions[i]);
      PageIndex(regions[i].start, ua, pages, regions[i].pages);
      var first := (ua - regions[i].start) / PAGE_SIZE;
      UnbackedIff(regions[i], first, pages);
      r := exists j | first <= j < first + pages :: regions[i].committed[j];
    }

    /**
     * `uregions_check_access`, committing missing pages on demand. Committing takes a chunk whole: where a chunk is
     * partly committed, the source puts new blocks behind committed pages too, or trips an assertion. `AccessReplaces`
     * stands for both.
     */
    method CheckAccess(start: nat, size: nat, required: set<Perm>, forbidden: set<Perm>, onDemand: bool)
      returns (r: Access)
      requires Valid() && start < U64 && size < U64
      modifies this, mapping, alloc, alloc.nodes, alloc.freeLists
      ensures !CopyFault(r)
      ensures var lo, hi := AlignDown(start), RangeEnd(start, size);
              && (r != AccessPanic && r != AccessReplaces ==>
                    Valid() && CommitsWithin(old(regions), regions, lo, hi) && Others() == old(Others()))
              && (r == AccessOk ==>
                    AllAccess(regions, required, forbidden, lo, hi) &&
                    TranslationsKept(old(mapping.mem), mapping.mem, mapping.root, lo, hi))
              && (r == AccessOk && onDemand ==> AllOrNothing(old(regions), lo, hi))
              && (r == AccessReplaces ==> onDemand && !AllOrNothing(old(regions), lo, hi))
              && (r == NotReserved || r == NotCommitted || r == NoPermission ==>
                    !AllAccess(old(regions), required, forbidden, lo, hi))
      ensures r == NotReserved || r == NotCommitted || r == NoPermission || !onDemand ==>
                regions == old(regions) && mapping.mem == old(mapping.mem)
      ensures !onDemand ==>
                (r == AccessOk <==> AllAccess(regions, required, forbidden, AlignDown(start), RangeEnd(start, size)))
      ensures r == AccessPanic ==>
                onDemand && exists i: nat, pages, end ::
                              i < |old(regions)| &&
                              Starved(old(regions)[i].perms, mapping.pool, alloc.blocks, alloc.maxOrder, pages, end)
    {
      hide Foreign, Agrees, PhysOk, Tiled, Merged, Allocated, Links, BuddyNodes.Shows, WellFormed, AllGranted, AreaOk,
        Unbacked, AllOrNothing, Allowed, RegionOk, CommittedAreas, Committed, Shapes, AllAccess, CommitsWithin,
        TranslationsKept, Starved, Settled, RangeEnd;
      var lo, hi := AlignDown(start), RangeEnd(start, size);
      BoundsAligned(start, size);
      var todo;
      ghost var at;
      ghost var rs, mem := regions, mapping.mem;
      r, todo, at := CheckPass(lo, hi, required, forbidden, onDemand);
      CommitsNothing(rs, lo, hi);
      if r != AccessOk {
        return;
      }
      NothingCommitted(rs, todo);
      for k := 0 to |todo|
        invariant Others() == old(Others())
        invariant Valid() && CommittedAreas(rs, regions, todo, k)
        invariant (|todo| == 0 ==> regions == rs && mapping.mem == mem)
        invariant forall m | 0 <= m < k :: UnbackedArea(rs, todo[m])
      {
        AreaKept(rs, regions, todo, k, lo, hi);
        ghost var rs1 := regions;
        var again := AnyCommitted(todo[k].i, todo[k].ua, todo[k].pages);
        if again {
          MixedArea(rs, todo[k], lo, hi);
          return AccessReplaces;
        }
        var ok := Commit(todo[k].i, todo[k].ua, todo[k].pages);
        if !ok {
          AreaPages(rs1, todo[k], lo, hi);
          assert Starved(rs[todo[k].i].perms, mapping.pool, alloc.blocks, alloc.maxOrder, todo[k].pages,
                         todo[k].ua + todo[k].pages * PAGE_SIZE);
          return AccessPanic;
        }
        AreaCommitted(rs, rs1, regions, todo, k);
      }
      AllAccessible(rs, regions, todo, required, forbidden, lo, hi);
      AreasUnmixed(rs, todo, required, forbidden, lo, hi) by { ShapesSorted(rs); }
      CommitsAreas(rs, regions, todo, lo, hi);
      SameCount(rs, regions, lo, hi);
      CommitsKeep(rs, regions, mem, mapping.mem, mapping.root, lo, hi);
      r := AccessOk;
    }

    ghost function Target(u: nat): nat
      reads mapping
    {
      PhysAt(mapping.mem, mapping.root, u)
    }

    /** `memcpy` into physical memory. */
    method Blit(pa: nat, src: seq<bv8>, off: nat, chunk: nat)
      requires pa + chunk <= ram.Length && off + chunk <= |src|
      modifies ram
      ensures forall p | 0 <= p < ram.Length ::
                ram[p] == if pa <= p < pa + chunk then src[off + (p - pa)] else old(ram[p])
    {
      for k := 0 to chunk
        invariant forall p | 0 <= p < ram.Length ::
                    ram[p] == if pa <= p < pa + k then src[off + (p - pa)] else old(ram[p])
      {
        ram[pa + k] := src[off + k];
      }
    }

    /** `memcpy` out of physical memory. */
    method BlitOut(dst: array<bv8>, off: nat, pa: nat, chunk: nat)
      requires pa + chunk <= ram.Length && off + chunk <= dst.Length && dst != ram
      modifies dst
      ensures forall j | 0 <= j < dst.Length ::
                dst[j] == if off <= j < off + chunk then ram[pa + (j - off)] else old(dst[j])
    {
      for k := 0 to chunk
        invariant forall j | 0 <= j < dst.Length ::
                    dst[j] == if off <= j < off + k then ram[pa + (j - off)] else old(dst[j])
      {
        dst[off + k] := ram[pa + k];
      }
    }

    /** The block behind an address, by the two tree searches of `umemcpy`; it exists behind every accessible one. */
    method FindBlock(u: nat, ghost required: set<Perm>, ghost forbidden: set<Perm>)
      returns (r: Lookup, n: Phys, ghost i: nat)
      requires Valid()
      ensures r == Found ==> Backs(regions, i, n, u) && NodeOk(regions[i], n) && Target(u) == n.pa + (u - n.ua)
      ensures r == Found ==> n.pa + n.count * PAGE_SIZE <= ram.Length
      ensures (r == NoRegion <==> InNoRegion(regions, u)) && (r == NoBlock <==> InUncommitted(regions, u))
      ensures Accessible(regions, required, forbidden, u) ==> r == Found
    {
      hide Foreign, Agrees, PhysOk, Tiled, Merged, Allocated, Links, BuddyNodes.Shows, WellFormed, RegionOk, Resolve,
        Accessible, PhysAt, Settled, InUncommitted;
      n, i := Phys(0, 0, 0), 0;
      var inRegion, k := FindRegion(u);
      if !inRegion {
        r := NoRegion;
        NotUncommitted(regions, u);
      } else if exists m | m in regions[k].phys :: Holds(m, u) {
        r := Found;
        n :| n in regions[k].phys && Holds(n, u);
        i := k;
        CommittedHere(regions, k, u);
        BlockTranslates(regions, mapping.mem, mapping.root, k, n, u);
        FrameBelow(regions, alloc.blocks, alloc.n, alloc.maxOrder, k, n, u);
      } else {
        r := NoBlock;
        CommittedHere(regions, k, u);
      }
      if Accessible(regions, required, forbidden, u) {
        ghost var j, m := AccessibleBacked(regions, mapping.mem, mapping.root, required, forbidden, u);
        if inRegion { OnlyRegion(regions, j, k, u); }
      }
    }

    /**
     * The copy loop of `umemcpy` towards user memory. It ends at the first address without a block; a range whose end
     * wraps holds one.
     */
    method CopyIn(dst: nat, src: seq<bv8>, ghost required: set<Perm>, ghost forbidden: set<Perm>)
      returns (r: Lookup, ghost at: nat)
      requires Valid() && dst < U64
      modifies ram
      ensures r == Found ==> src == [] || dst + |src| <= USER_END
      ensures r != Found ==> dst <= at < dst + |src| && at < U64
      ensures (r == NoRegion ==> InNoRegion(regions, at)) && (r == NoBlock ==> InUncommitted(regions, at))
      ensures AllAccess(regions, required, forbidden, dst, dst + |src|) ==>
                r == Found && CopiedIn(mapping.mem, mapping.root, dst, src, |src|, old(ram[..]), ram[..])
    {
      hide Foreign, Agrees, PhysOk, Tiled, Merged, Allocated, Links, BuddyNodes.Shows, WellFormed, RegionOk, Resolve,
        Accessible, Shapes, PhysAt, InCopy, CopiedIn, Settled, InNoRegion, InUncommitted;
      var off: nat := 0;
      ghost var all := AllAccess(regions, required, forbidden, dst, dst + |src|);
      NothingCopied(mapping.mem, mapping.root, dst, src, ram[..]);
      while off < |src|
        invariant off <= |src| && Valid() && (off == 0 || dst + off <= USER_END)
        invariant all ==> CopiedIn(mapping.mem, mapping.root, dst, src, off, old(ram[..]), ram[..])
      {
        var u := (dst + off) % U64;
        DivUnique(dst + off, U64, 0, dst + off);
        if all { assert Accessible(regions, required, forbidden, u); }
        var n;
        ghost var i;
        r, n, i := FindBlock(u, required, forbidden);
        if r != Found {
          return r, u;
        }
        var nodeOffset := u - n.ua;
        var remain := n.count * PAGE_SIZE - nodeOffset;
        var chunk := if remain < |src| - off then remain else |src| - off;
        ChunkFrames(regions, mapping.mem, mapping.root, i, n, u, chunk);
        ghost var before := ram[..];
        Blit(n.pa + nodeOffset, src, off, chunk);
        if all {
          CopyStep(regions, mapping.mem, mapping.root, alloc.blocks, alloc.n, alloc.maxOrder, required, forbidden, dst,
                   src, off, chunk,
                   n.pa + nodeOffset, old(ram[..]), before, ram[..]);
        }
        off := off + chunk;
      }
      r, at := Found, dst;
    }

    /** The copy loop of `umemcpy` from user memory. */
    method CopyOut(dst: array<bv8>, src: nat, ghost required: set<Perm>, ghost forbidden: set<Perm>)
      returns (r: Lookup, ghost at: nat)
      requires Valid() && src < U64
      requires dst != ram && dst as object != alloc.nodes && dst as object != alloc.freeLists
      modifies dst
      ensures r == Found ==> dst.Length == 0 || src + dst.Length <= USER_END
      ensures r == Found ==> CopiedOut(mapping.mem, mapping.root, src, dst.Length, ram[..], dst[..])
      ensures r != Found ==> src <= at < src + dst.Length && at < U64
      ensures (r == NoRegion ==> InNoRegion(regions, at)) && (r == NoBlock ==> InUncommitted(regions, at))
      ensures AllAccess(regions, required, forbidden, src, src + dst.Length) ==> r == Found
    {
      hide Foreign, Agrees, PhysOk, Tiled, Merged, Allocated, Links, BuddyNodes.Shows, WellFormed, RegionOk, Resolve,
        Accessible, Shapes, PhysAt, Contiguous, Settled, CopiedOut, InNoRegion, InUncommitted;
      var off: nat := 0;
      NothingCopiedOut(mapping.mem, mapping.root, src, ram[..], dst[..]);
      while off < dst.Length
        invariant off <= dst.Length && Valid() && (off == 0 || src + off <= USER_END)
        invariant CopiedOut(mapping.mem, mapping.root, src, off, ram[..], dst[..])
      {
        var u := (src + off) % U64;
        DivUnique(src + off, U64, 0, src + off);
        if AllAccess(regions, required, forbidden, src, src + dst.Length) {
          assert Accessible(regions, required, forbidden, u);
        }
        var n;
        ghost var i;
        r, n, i := FindBlock(u, required, forbidden);
        if r != Found {
          return r, u;
        }
        var nodeOffset := u - n.ua;
        var remain := n.count * PAGE_SIZE - nodeOffset;
        var chunk := if remain < dst.Length - off then remain else dst.Length - off;
        ChunkFrames(regions, mapping.mem, mapping.root, i, n, u, chunk);
        ghost var before := dst[..];
        BlitOut(dst, off, n.pa + nodeOffset, chunk);
        CopyOutStep(mapping.mem, mapping.root, src, off, chunk, n.pa + nodeOffset, ram[..], before, dst[..]);
        off := off + chunk;
      }
      r, at := Found, src;
    }

    /** `umemcpy` from a kernel buffer: a flat byte copy through translation, unless the range wraps. */
    method CopyToUser(dst: nat, src: seq<bv8>, required: set<Perm>, forbidden: set<Perm>, onDemand: bool)
      returns (r: Access, ghost at: nat)
      requires Valid() && dst < U64 && |src| < U64
      modifies this, mapping, alloc, alloc.nodes, alloc.freeLists, ram
      ensures r != AccessPanic && r != AccessReplaces ==>
                Valid() && CommitsWithin(old(regions), regions, AlignDown(dst), RangeEnd(dst, |src|))
      ensures r != AccessPanic && r != AccessReplaces ==> Others() == old(Others())
      ensures r == AccessOk || CopyFault(r) ==>
                TranslationsKept(old(mapping.mem), mapping.mem, mapping.root, AlignDown(dst), RangeEnd(dst, |src|))
      ensures r == AccessOk ==> CopiedIn(mapping.mem, mapping.root, dst, src, |src|, old(ram[..]), ram[..])
      ensures r == AccessOk ==> AllAccess(regions, required, forbidden, dst, dst + |src|)
      ensures CopyFault(r) ==> Wraps(dst, |src|) && dst <= at < dst + |src| && at < U64
      ensures (r == NullRegion ==> InNoRegion(regions, at)) && (r == StaleBlock ==> InUncommitted(regions, at))
      ensures r == AccessOk && src != [] ==> !Wraps(dst, |src|)
      ensures r != AccessOk && !CopyFault(r) ==> ram[..] == old(ram[..])
    {
      hide Foreign, Agrees, PhysOk, Tiled, Merged, Allocated, Links, BuddyNodes.Shows, WellFormed, RegionOk, Resolve,
        Accessible, Shapes, PhysAt, InCopy, AllAccess, CommitsWithin, TranslationsKept, AllOrNothing, Starved, CopiedIn,
        AlignDown, AlignUp, RangeEnd, Settled, InNoRegion, InUncommitted;
      at := dst;
      r := CheckAccess(dst, |src|, required, forbidden, onDemand);
      if r != AccessOk {
        return;
      }
      CheckedRange(regions, required, forbidden, dst, |src|);
      NothingCopied(mapping.mem, mapping.root, dst, src, ram[..]);
      var end;
      end, at := CopyIn(dst, src, required, forbidden);
      r := match end case Found => AccessOk case NoRegion => NullRegion case NoBlock => StaleBlock;
    }

    /** `umemcpy` to a kernel buffer. */
    method CopyFromUser(dst: array<bv8>, src: nat, required: set<Perm>, forbidden: set<Perm>, onDemand: bool)
      returns (r: Access, ghost at: nat)
      requires Valid() && src < U64 && dst.Length < U64
      requires dst != ram && dst as object != alloc.nodes && dst as object != alloc.freeLists
      modifies this, mapping, alloc, alloc.nodes, alloc.freeLists, dst
      ensures r != AccessPanic && r != AccessReplaces ==>
                Valid() && CommitsWithin(old(regions), regions, AlignDown(src), RangeEnd(src, dst.Length))
      ensures r != AccessPanic && r != AccessReplaces ==> Others() == old(Others())
      ensures r == AccessOk || CopyFault(r) ==>
                TranslationsKept(old(mapping.mem), mapping.mem, mapping.root, AlignDown(src), RangeEnd(src, dst.Length))
      ensures r == AccessOk ==> CopiedOut(mapping.mem, mapping.root, src, dst.Length, ram[..], dst[..])
      ensures r == AccessOk ==> AllAccess(regions, required, forbidden, src, src + dst.Length)
      ensures CopyFault(r) ==> Wraps(src, dst.Length) && src <= at < src + dst.Length && at < U64
      ensures (r == NullRegion ==> InNoRegion(regions, at)) && (r == StaleBlock ==> InUncommitted(regions, at))
      ensures r == AccessOk && dst.Length > 0 ==> !Wraps(src, dst.Length)
      ensures r != AccessOk && !CopyFault(r) ==> dst[..] == old(dst[..])
    {
      hide Foreign, Agrees, PhysOk, Tiled, Merged, Allocated, Links, BuddyNodes.Shows, WellFormed, RegionOk, Resolve,
        Accessible, Shapes, PhysAt, InCopy, AllAccess, CommitsWithin, TranslationsKept, AllOrNothing, Starved,
        CopiedOut, AlignDown, AlignUp, RangeEnd, Settled, InNoRegion, InUncommitted;
      at := src;
      r := CheckAccess(src, dst.Length, required, forbidden, onDemand);
      if r != AccessOk {
        return;
      }
      CheckedRange(regions, required, forbidden, src, dst.Length);
      var end;
      end, at := CopyOut(dst, src, required, forbidden);
      r := match end case Found => AccessOk case NoRegion => NullRegion case NoBlock => StaleBlock;
    }

    /**
     * `uregion_find_free`: the highest room of the size below the user limit, and none only when there is none; but
     * once the last region ends above the limit, the first gap wraps, and the pages below the limit are handed out
     * whether taken or not.
     */
    method FindFree(pages: nat) returns (found: bool, out: nat)
      requires Shapes(regions) && pages < U32
      ensures pages == 0 ==> !found
      ensures !High(regions) && found ==> HighestRoom(regions, out, pages)
      ensures !High(regions) && pages > 0 && !found ==> forall a: nat :: !Room(regions, a, pages)
      ensures High(regions) && pages > 0 ==> found && out == USER_END - pages * PAGE_SIZE
      ensures found ==>
                (HighestRoom(regions, out, pages) <==>
                 High(regions) ==> Room(regions, USER_END - pages * PAGE_SIZE, pages))
    {
      hide RegionShape;
      out := 0;
      if pages == 0 {
        return false, out;
      }
      var size := pages * PAGE_SIZE;
      var prevStart: nat := USER_END;
      var j := |regions|;
      if !High(regions) { LastEnds(regions); }
      while j > 0
        invariant 0 <= j <= |regions| && prevStart <= USER_END && prevStart % PAGE_SIZE == 0
        invariant High(regions) ==> j == |regions| && prevStart == USER_END
        invariant !High(regions) ==> forall k | 0 <= k < j :: RegionEnd(regions[k]) <= prevStart
        invariant !High(regions) ==> forall k | j <= k < |regions| :: prevStart <= regions[k].start
        invariant !High(regions) ==> forall a: nat | Room(regions, a, pages) :: a + size <= prevStart
      {
        j := j - 1;
        ShapeFacts(regions[j]);
        if High(regions) {
          GapWraps(RegionEnd(regions[j]), pages);
        } else {
          GapPlain(prevStart, RegionEnd(regions[j]));
        }
        var gap := (prevStart - RegionEnd(regions[j])) % U64;
        if gap >= size {
          AlignedRoom(prevStart, pages);
          out := AlignDown(prevStart - size);
          return true, out;
        }
        prevStart := regions[j].start;
      }
      if prevStart >= size {
        AlignedRoom(prevStart, pages);
        out := AlignDown(prevStart - size);
        return true, out;
      }
      found := false;
    }

    /**
     * An anonymous `mmap` without an address: the reservation of what was found succeeds exactly when the search was
     * right.
     */
    method ReserveAnywhere(pages: nat, perms: set<Perm>) returns (found: bool, ok: bool, at: nat, k: nat)
      requires Valid() && pages < U32
      modifies this
      ensures Valid() && Others() == old(Others()) && (ok ==> found)
      ensures pages > 0 && !High(old(regions)) ==> (found <==> exists a: nat :: Room(old(regions), a, pages))
      ensures found ==> (ok <==> High(old(regions)) ==> Room(old(regions), USER_END - pages * PAGE_SIZE, pages))
      ensures found && !High(old(regions)) ==> ok
      ensures ok ==>
                HighestRoom(old(regions), at, pages) && k <= |old(regions)| &&
                regions == Inserted(old(regions), k, NewRegion(at, pages, perms))
      ensures !ok ==> regions == old(regions)
    {
      hide Foreign, Agrees, PhysOk, RegionShape, Tiled, Merged, Allocated, Links, BuddyNodes.Shows, WellFormed,
        RegionOk, Settled;
      k := 0;
      found, at := FindFree(pages);
      ok := false;
      if found {
        FoundAddress(regions, at, pages, perms);
        ok, k := Reserve(at, pages, perms);
      }
    }

    /** `uregion_reserve_static`: reserved and committed at once. */
    method ReserveStatic(start: nat, pages: nat, perms: set<Perm>) returns (ok: bool, panicked: bool, k: nat)
      requires Valid() && start % PAGE_SIZE == 0 && start < U64 && pages < U32
      modifies this, mapping, alloc, alloc.nodes, alloc.freeLists
      ensures !panicked ==> Valid() && Others() == old(Others())
      ensures panicked ==> Starved(perms, mapping.pool, alloc.blocks, alloc.maxOrder, pages, start + pages * PAGE_SIZE)
      ensures !panicked && !ok ==>
                regions == old(regions) &&
                exists j | 0 <= j < |regions| :: Overlap(NewRegion(start, pages, perms), regions[j])
      ensures ok ==> !panicked && k <= |old(regions)| &&
                     Committed(Inserted(old(regions), k, NewRegion(start, pages, perms)), regions, k, start,
                               start + pages * PAGE_SIZE)
    {
      hide Foreign, Settled, Agrees, PhysOk, RegionShape, Tiled, Merged, Allocated, Unbacked, Backed, Links,
        BuddyNodes.Shows, WellFormed, MoreBacked, RegionOk, BitsSet, Marked, CommitsExcept, CfgFromFlags, Shapes,
        NewRegion, Committed;
      panicked := false;
      ghost var rs0 := regions;
      ok, k := Reserve(start, pages, perms);
      if !ok {
        return;
      }
      if U64 <= start + pages * PAGE_SIZE {
        // The first block lies above the user limit, which `mmu_map` refuses.
        return false, true, k;
      }
      NewAt(rs0, k, start, pages, perms);
      ghost var rs := regions;
      NewUnbacked(start, pages, perms);
      ok := MapUserRegion(k, start, pages);
      if !ok {
        panicked := true;
        return;
      }
      SameEnd(rs, regions, k, start, start + pages * PAGE_SIZE);
      var bits := CommittedSet(regions[k].committed, 0, pages);
      ghost var rs2 := regions;
      AllBits(rs[k].committed, bits, pages);
      CommitStep(rs, rs, rs2, k, 0, pages, bits, true);
      Reflagged(rs2, k, rs2[k].(committed := bits, hasPhys := true, full := true), mapping.mem, mapping.root,
                Allocated(alloc.blocks));
      regions := regions[k := regions[k].(committed := bits, hasPhys := true, full := true)];
      ForeignSame(rs2, regions, Allocated(alloc.blocks));
      SettledSame(rs2, regions, mapping.mem, mapping.root, alloc.nodes[..]);
    }

    /** `physdata_destroy`: the block goes back to the allocator and its user range is unmapped, unless it is stuck. */
    method DestroyBlock(i: nat, n: Phys) returns (ok: bool)
      requires Machine() && Mapped() && i < |regions| && n in regions[i].phys
      modifies this, mapping, alloc, alloc.nodes, alloc.freeLists
      ensures ok <==> !Stuck(n)
      ensures ok ==> Machine() && Mapped() && regions == old(regions)[i := WithoutNode(old(regions)[i], n)]
      ensures ok ==>
                Allocated(alloc.blocks) == old(Allocated(alloc.blocks)) - {n.pa / PAGE_SIZE} &&
                Others() == old(Others())
    {
      hide Foreign, Settled, Agrees, PhysOk, RegionShape, Tiled, Merged, Allocated, Links, BuddyNodes.Shows, WellFormed,
        Shapes, CfgFromFlags, UnmapsFlat, UnmapFails, FreePage, SameData, NeedsSplit, LevelsKept, LevelsInside, Stuck;
      ghost var rs, mem, a, ns := regions, mapping.mem, Allocated(alloc.blocks), alloc.nodes[..];
      PhysDropped(rs, a, i, n);
      NodeInSpace(rs, i, n);
      AllocatedHead(alloc.blocks, alloc.n, alloc.maxOrder, n.pa / PAGE_SIZE);
      BlockUnmapIff(rs, i, n, mem, mapping.root, ns, alloc.blocks, alloc.n, alloc.maxOrder);
      var freed := alloc.PageFree(n.pa / PAGE_SIZE);
      assert freed == PageAllocator.Freed;
      var r := mapping.Unmap(n.ua, n.count * PAGE_SIZE);
      if r != UnmapOk {
        return false;
      }
      AgreesDropped(rs, i, n, mem, mapping.mem, mapping.root);
      NodeDropped(rs, i, n);
      ForeignDropped(rs, i, n, a);
      SettledDropped(rs, i, n, mem, mapping.mem, mapping.root, ns, alloc.nodes[..]);
      regions := regions[i := WithoutNode(regions[i], n)];
      ok := true;
    }

    /** `rbt_destroy` over the blocks of a region. */
    method DestroyBlocks(k: nat) returns (ok: bool)
      requires Machine() && Mapped() && k < |regions|
      modifies this, mapping, alloc, alloc.nodes, alloc.freeLists
      ensures ok <==> forall n | n in old(regions)[k].phys :: !Stuck(n)
      ensures ok ==>
                Machine() && Mapped() && regions == old(regions)[k := old(regions)[k].(phys := {})] &&
                Others() == old(Others())
    {
      hide Foreign, Agrees, PhysOk, RegionShape, Tiled, Merged, Allocated, Links, BuddyNodes.Shows, WellFormed, Shapes,
        Settled, Stuck;
      ghost var rs0 := regions;
      while regions[k].phys != {}
        invariant Machine() && Mapped() && k < |regions| == |rs0|
        invariant regions == rs0[k := rs0[k].(phys := regions[k].phys)]
        invariant Others() == old(Others()) && regions[k].phys <= rs0[k].phys
        invariant forall n | n in rs0[k].phys && n !in regions[k].phys :: !Stuck(n)
        decreases regions[k].phys
      {
        var n :| n in regions[k].phys;
        ok := DestroyBlock(k, n);
        if !ok {
          return;
        }
      }
      ok := true;
    }

    /**
     * `region_destroy`: the region and its blocks are gone, and its range is untranslated, unless a block is stuck or
     * the bitmap that is freed was never allocated.
     */
    method DestroyRegion(k: nat) returns (ok: bool)
      requires Valid() && k < |regions|
      modifies this, mapping, alloc, alloc.nodes, alloc.freeLists
      ensures ok <==> Freeable(old(regions)[k])
      ensures ok ==> Valid() && Others() == old(Others()) && regions == Without(old(regions), k)
      ensures ok ==>
                forall u: nat | Inside(old(regions)[k], u) && u < ADDRESS_SPACE :: Translate(mapping.At(u)) == Unmapped
    {
      hide Foreign, Agrees, PhysOk, RegionShape, Tiled, Merged, Allocated, Links, BuddyNodes.Shows, WellFormed, Shapes,
        CfgFromFlags, RegionOk, Resolve, Stuck, Without, Settled;
      ghost var rs0 := regions;
      ok := DestroyBlocks(k);
      if !ok {
        return;
      }
      if !HasBitmap(regions[k]) {
        return false;
      }
      ghost var rs1 := regions;
      RemovedOk(rs1, k, mapping.mem, mapping.root, Allocated(alloc.blocks));
      FreedRange(rs1, k, mapping.mem, mapping.root);
      RemovedEmptied(rs0, rs1, k);
      ForeignInserted(Without(rs1, k), k, rs1[k], Allocated(alloc.blocks));
      SettledInserted(Without(rs1, k), k, rs1[k], mapping.mem, mapping.root, alloc.nodes[..]);
      regions := regions[..k] + regions[k + 1..];
    }

    /**
     * `uregion_free`: only whole regions can be freed; anything else inside a region panics, and so does a region that
     * `region_destroy` does not get through. The end of the range wraps as in the source.
     */
    method Free(usrva: nat, pages: nat) returns (r: FreeOutcome, ghost i: nat)
      requires Valid() && usrva < U64 && pages < U32
      modifies this, mapping, alloc, alloc.nodes, alloc.freeLists
      ensures r != FreePanic ==> Valid() && Others() == old(Others())
      ensures r == NoSuchRegion <==>
              forall j | 0 <= j < |old(regions)| ::
                !(Inside(old(regions)[j], usrva) && (usrva + pages * PAGE_SIZE) % U64 <= RegionEnd(old(regions)[j]))
      ensures r == NoSuchRegion ==> regions == old(regions) && mapping.mem == old(mapping.mem)
      ensures r != NoSuchRegion ==>
                && i < |old(regions)| && Inside(old(regions)[i], usrva)
                && (r == RegionFreed <==>
                      usrva == old(regions)[i].start && pages == old(regions)[i].pages && Freeable(old(regions)[i]))
      ensures r == RegionFreed ==>
                && regions == Without(old(regions), i)
                && (forall u: nat | usrva <= u < usrva + pages * PAGE_SIZE && u < ADDRESS_SPACE ::
                      Translate(mapping.At(u)) == Unmapped)
    {
      hide Foreign, Agrees, PhysOk, RegionShape, Tiled, Merged, Allocated, Links, BuddyNodes.Shows, WellFormed, Shapes,
        CfgFromFlags, RegionOk, Resolve, Freeable, Without, Settled;
      i := 0;
      var found, k := FindRegion(usrva);
      if !found {
        return NoSuchRegion, i;
      }
      i := k;
      var region := regions[k];
      forall j | 0 <= j < |regions| && Inside(regions[j], usrva)
        ensures j == k
      {
        ShapesSorted(regions);
        OnlyRegion(regions, j, k, usrva);
      }
      var end := (usrva + pages * PAGE_SIZE) % U64;
      FreeEnd(region, usrva, pages) by { OkShape(region); }
      if end > RegionEnd(region) {
        return NoSuchRegion, i;
      }
      if !(usrva == region.start && end == RegionEnd(region)) {
        return FreePanic, i;
      }
      var ok := DestroyRegion(k);
      if !ok {
        return FreePanic, i;
      }
      r := RegionFreed;
    }
  }
}
