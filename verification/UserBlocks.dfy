/**
 * How the physical blocks of a task are mapped: at which levels, and what that means for unmapping one of them
 * (src/kernel/mm/malloc/uregion.c:370-424, 559-592).
 */
module UserBlocks {
  import opened Arithmetic
  import opened Descriptors
  import opened PageTable
  import opened MmuMeaning
  import opened UnmapMeaning
  import opened MmuLevels
  import opened BuddyBlocks
  import opened BuddyTiling
  import opened BuddyNodes
  import FreeLists
  import opened UserRegions
  import opened Sequences

  predicate Level2Aligned(n: Phys) {
    n.ua % 0x20_0000 == 0
  }

  /** A block that `physdata_destroy` cannot unmap: its pages are mapped one by one, and hold a level 2 slot whole. */
  predicate Stuck(n: Phys) {
    n.count >= 1024 && !Level2Aligned(n)
  }

  /**
   * The bitmap of a region of more than 64 pages is allocated by its first commit. `region_destroy` frees it in any
   * case, and freeing a null bitmap trips an assertion, or runs past the end of the list of reserved ranges.
   */
  predicate HasBitmap(r: Region) {
    r.pages <= 64 || r.hasPhys
  }

  /** What `region_destroy` gets through. */
  ghost predicate Freeable(r: Region) {
    HasBitmap(r) && forall n {:trigger Stuck(n)} | n in r.phys :: !Stuck(n)
  }

  /** A region that was reserved and never committed can be freed exactly when it has at most 64 pages. */
  lemma UntouchedFreeableIff(start: nat, pages: nat, perms: set<Perm>)
    requires start % PAGE_SIZE == 0 && pages < U32 && start + pages * PAGE_SIZE < U64
    ensures RegionOk(NewRegion(start, pages, perms))
    ensures Freeable(NewRegion(start, pages, perms)) <==> pages <= 64
  {
    NewRegionOk(start, pages, perms);
  }

  /** Each block was mapped by one request, and its pages may be freed. */
  ghost predicate Settled(rs: seq<Region>, mem: Memory, root: nat, ns: FreeLists.Nodes) {
    forall i: nat, n {:trigger n in rs[i].phys} | i < |rs| && n in rs[i].phys ::
      LevelsInside(mem, root, n.ua, n.pa, n.count * PAGE_SIZE) && n.pa / PAGE_SIZE < |ns| &&
      !ns[n.pa / PAGE_SIZE].data.permanent
  }

  lemma SettledAdded(rs: seq<Region>, i: nat, n: Phys, mem: Memory, mem': Memory, root: nat, ns: FreeLists.Nodes,
                     ns': FreeLists.Nodes, idx: nat, data: FreeLists.PageData)
    requires Settled(rs, mem, root, ns) && i < |rs| && n !in rs[i].phys && Shapes(rs[i := WithNode(rs[i], n)])
    requires LevelsKept(mem, mem', root, n.ua, n.count * PAGE_SIZE)
    requires LevelsInside(mem', root, n.ua, n.pa, n.count * PAGE_SIZE)
    requires DataSetAt(ns, ns', idx, data) && !data.permanent && idx < |ns| && n.pa == idx * PAGE_SIZE
    ensures Settled(rs[i := WithNode(rs[i], n)], mem', root, ns')
  {
    hide LevelsKept, LevelsInside, Shapes;
    var rs' := rs[i := WithNode(rs[i], n)];
    DivUnique(n.pa, PAGE_SIZE, idx, 0);
    assert n in rs'[i].phys;
    forall j: nat, m {:trigger m in rs'[j].phys} | j < |rs'| && m in rs'[j].phys
      ensures LevelsInside(mem', root, m.ua, m.pa, m.count * PAGE_SIZE) && m.pa / PAGE_SIZE < |ns'|
      ensures !ns'[m.pa / PAGE_SIZE].data.permanent
    {
      if m != n || j != i {
        assert m in rs[j].phys;
        BlocksApart(rs', i, n, j, m);
        LevelsSurvive(mem, mem', root, m.ua, m.pa, m.count * PAGE_SIZE, n.ua, n.count * PAGE_SIZE);
      }
    }
  }

  lemma BlocksApart(rs: seq<Region>, i: nat, n: Phys, j: nat, m: Phys)
    requires Shapes(rs) && i < |rs| && n in rs[i].phys && j < |rs| && m in rs[j].phys && (i != j || n != m)
    ensures m.ua + m.count * PAGE_SIZE <= n.ua || n.ua + n.count * PAGE_SIZE <= m.ua
  {
    assert RegionShape(rs[i]) && RegionShape(rs[j]) && NodeOk(rs[i], n) && NodeOk(rs[j], m);
    if i == j { assert NodesApart(n, m); }
  }

  lemma SettledDropped(rs: seq<Region>, i: nat, n: Phys, mem: Memory, mem': Memory, root: nat, ns: FreeLists.Nodes,
                       ns': FreeLists.Nodes)
    requires Settled(rs, mem, root, ns) && i < |rs| && n in rs[i].phys && Shapes(rs)
    requires LevelsKept(mem, mem', root, n.ua, n.count * PAGE_SIZE) && SameData(ns, ns')
    ensures Settled(rs[i := WithoutNode(rs[i], n)], mem', root, ns')
  {
    hide LevelsKept, LevelsInside, Shapes;
    var rs' := rs[i := WithoutNode(rs[i], n)];
    forall j: nat, m {:trigger m in rs'[j].phys} | j < |rs'| && m in rs'[j].phys
      ensures LevelsInside(mem', root, m.ua, m.pa, m.count * PAGE_SIZE) && m.pa / PAGE_SIZE < |ns'|
      ensures !ns'[m.pa / PAGE_SIZE].data.permanent
    {
      assert m in rs[j].phys;
      BlocksApart(rs, i, n, j, m);
      LevelsSurvive(mem, mem', root, m.ua, m.pa, m.count * PAGE_SIZE, n.ua, n.count * PAGE_SIZE);
    }
  }

  lemma SettledSame(rs: seq<Region>, rs': seq<Region>, mem: Memory, root: nat, ns: FreeLists.Nodes)
    requires Settled(rs, mem, root, ns) && |rs'| == |rs| && forall j | 0 <= j < |rs| :: rs'[j].phys == rs[j].phys
    ensures Settled(rs', mem, root, ns)
  {
    hide LevelsInside;
    forall j: nat, m {:trigger m in rs'[j].phys} | j < |rs'| && m in rs'[j].phys
      ensures LevelsInside(mem, root, m.ua, m.pa, m.count * PAGE_SIZE) && m.pa / PAGE_SIZE < |ns|
      ensures !ns[m.pa / PAGE_SIZE].data.permanent
    {
      assert m in rs[j].phys;
    }
  }

  lemma SettledInserted(rs: seq<Region>, k: nat, r: Region, mem: Memory, root: nat, ns: FreeLists.Nodes)
    requires k <= |rs| && r.phys == {}
    ensures Settled(Inserted(rs, k, r), mem, root, ns) <==> Settled(rs, mem, root, ns)
  {
    hide LevelsInside;
    var rs' := Inserted(rs, k, r);
    if Settled(rs, mem, root, ns) {
      forall j: nat, m {:trigger m in rs'[j].phys} | j < |rs'| && m in rs'[j].phys
        ensures LevelsInside(mem, root, m.ua, m.pa, m.count * PAGE_SIZE) && m.pa / PAGE_SIZE < |ns|
        ensures !ns[m.pa / PAGE_SIZE].data.permanent
      {
        assert m in rs[if j < k then j else j - 1].phys;
      }
    }
    if Settled(rs', mem, root, ns) {
      forall j: nat, m {:trigger m in rs[j].phys} | j < |rs| && m in rs[j].phys
        ensures LevelsInside(mem, root, m.ua, m.pa, m.count * PAGE_SIZE) && m.pa / PAGE_SIZE < |ns|
        ensures !ns[m.pa / PAGE_SIZE].data.permanent
      {
        assert m in rs'[if j < k then j else j + 1].phys;
      }
    }
  }

  lemma NewNode(rs: seq<Region>, i: nat, n: Phys, a: map<nat, nat>)
    requires PhysOk(rs, a) && i < |rs| && n.pa / PAGE_SIZE !in a
    ensures n !in rs[i].phys
  {
  }

  lemma RegionHigh(rs: seq<Region>, i: nat)
    requires Shapes(rs) && i < |rs|
    ensures RegionEnd(rs[i]) < U64
  {
  }

  lemma RunBytes(b: Blocks, n: nat, max: nat, idx: nat, order: nat, ua: nat, end: nat)
    requires Tiled(b, n, max) && n < U32 && FreeRun(b, idx, order) && n < Pow2(max + 1)
    requires ua + Pow2(order) * PAGE_SIZE <= end < U64
    ensures idx < n && Pow2(order) * PAGE_SIZE < U64 && ua < U64 && idx * PAGE_SIZE / PAGE_SIZE == idx
  {
    FreeRunFits(b, n, max, idx, order);
    DivUnique(idx * PAGE_SIZE, PAGE_SIZE, idx, 0);
  }

  lemma NotInUserRange(ua: nat, size: nat)
    requires ua < U64 && size < U64 && USER_END < ua + size
    ensures !IsInRange(Lo, ua, size)
  {
    InRangeIff(Lo, ua, size);
  }

  lemma NotUncommitted(rs: seq<Region>, u: nat)
    requires InNoRegion(rs, u)
    ensures !InUncommitted(rs, u)
  {
  }

  /** The only region around an address says whether it is committed. */
  lemma CommittedHere(rs: seq<Region>, k: nat, u: nat)
    requires Shapes(rs) && k < |rs| && RegionOk(rs[k]) && Inside(rs[k], u)
    ensures InUncommitted(rs, u) <==> forall n | n in rs[k].phys :: !Holds(n, u)
    ensures !InNoRegion(rs, u)
  {
    OkShape(rs[k]);
    assert Backed(rs[k], u) <==> CommitBit(rs[k], u);
    forall j: nat | j < |rs| && Inside(rs[j], u) ensures j == k { OnlyRegion(rs, j, k, u); }
  }

  /** What the tables say of an address that a block holds. */
  lemma BlockTranslates(rs: seq<Region>, mem: Memory, root: nat, k: nat, n: Phys, u: nat)
    requires Shapes(rs) && Agrees(rs, mem, root) && k < |rs| && n in rs[k].phys && Holds(n, u)
    ensures Backs(rs, k, n, u) && NodeOk(rs[k], n) && PhysAt(mem, root, u) == n.pa + (u - n.ua)
  {
    hide Resolve, CfgFromFlags, Truncated;
    assert RegionShape(rs[k]) && NodeOk(rs[k], n) && Backs(rs, k, n, u);
  }

  // Unmapping a block

  lemma LargeOrders(o: nat)
    ensures Pow2(o) >= 512 ==> o >= 9
    ensures Pow2(9) == 512 && Pow2(10) == 1024 && (o > 9 ==> Pow2(o) >= 1024)
  {
    Powers();
    if o < 9 { Pow2Monotone(o, 8); }
    if o > 9 { Pow2Monotone(10, o); }
  }

  lemma Powers()
    ensures Pow2(8) == 256 && Pow2(9) == 512 && Pow2(10) == 1024
  {
    assert Pow2(4) == 16;
    Pow2Add(4, 4);
    assert Pow2(9) == 2 * Pow2(8) && Pow2(10) == 2 * Pow2(9);
  }

  /** A buddy block of 2 MiB or more is physically aligned to 2 MiB. */
  lemma LargeBlockAligned(h: nat, o: nat)
    requires Aligned(h, o) && Pow2(o) >= 512
    ensures h * PAGE_SIZE % 0x20_0000 == 0
  {
    LargeOrders(o);
    AlignedDown(h, 9, o);
    hide Pow2;
    DivUnique(h * PAGE_SIZE, 0x20_0000, h / 512, 0);
  }

  /**
   * A range that does not start at a level 2 slot holds one whole exactly when it is long enough for the rest of its
   * own as well.
   */
  lemma {:induction false} HoldsSlotIff(v: nat, size: nat)
    requires v % 0x20_0000 != 0 && size % 0x20_0000 == 0
    ensures HoldsSlot(v, size) <==> size >= 0x40_0000
  {
    var q, r := v / 0x20_0000, v % 0x20_0000;
    var b := (q + 1) * 0x20_0000;
    DivUnique(b, 0x20_0000, q + 1, 0);
    if size >= 0x40_0000 {
      assert Offset(b, 2) == 0;
    }
    if HoldsSlot(v, size) {
      var c: nat :| Offset(c, 2) == 0 && v <= c && c + Cover(2) <= v + size;
      assert c == c / 0x20_0000 * 0x20_0000 && size == size / 0x20_0000 * 0x20_0000;
    }
  }

  /** Unmapping a block of a region fails exactly when the block is stuck, and never needs a frame. */
  lemma BlockUnmapIff(rs: seq<Region>, i: nat, n: Phys, mem: Memory, root: nat, ns: FreeLists.Nodes, b: Blocks,
                      pages: nat, max: nat)
    requires Shapes(rs) && i < |rs| && n in rs[i].phys && Settled(rs, mem, root, ns) && PhysOk(rs, Allocated(b))
    requires Tiled(b, pages, max)
    ensures UnmapFails(mem, root, n.ua, n.count * PAGE_SIZE) <==> Stuck(n)
    ensures !NeedsSplit(mem, root, n.ua, n.count * PAGE_SIZE)
    ensures n.pa / PAGE_SIZE < |ns| && !ns[n.pa / PAGE_SIZE].data.permanent
  {
    hide LevelsInside, UnmapFails, NeedsSplit, Tiled, Pow2, HoldsSlot;
    var size := n.count * PAGE_SIZE;
    NodeInSpace(rs, i, n);
    assert AllocatedNode(Allocated(b), n);
    UnmapMappedIff(mem, root, n.ua, n.pa, size);
    BlockSlots(n, b, pages, max);
  }

  lemma BlockSlots(n: Phys, b: Blocks, pages: nat, max: nat)
    requires AllocatedNode(Allocated(b), n) && Tiled(b, pages, max)
    ensures HoldsSlot(n.ua, n.count * PAGE_SIZE) && Offset(n.ua, 2) != Offset(n.pa, 2) <==> Stuck(n)
  {
    hide Pow2, HoldsSlot;
    var h := n.pa / PAGE_SIZE;
    var o := b[h].order;
    assert BlockOk(b, pages, max, h) && n.count == Pow2(o) && n.pa == h * PAGE_SIZE;
    LargeOrders(o);
    if n.count < 512 {
      TooSmall(n.ua, n.count * PAGE_SIZE);
    } else {
      LargeBlockAligned(h, o);
      LargeCount(o, n.count);
      if !Level2Aligned(n) { HoldsSlotIff(n.ua, n.count * PAGE_SIZE); }
    }
  }

  lemma LargeCount(o: nat, count: nat)
    requires count == Pow2(o) >= 512
    ensures count * PAGE_SIZE % 0x20_0000 == 0 && (count == 512 || count >= 1024)
  {
    LargeOrders(o);
    Pow2Add(9, o - 9);
    DivUnique(count * PAGE_SIZE, 0x20_0000, Pow2(o - 9), 0);
  }
}
