/** Regions, with the page tables behind them, on which src/kernel/mm/malloc/uregion.c does not do what it promises. */
module UserExamples {
  import opened Arithmetic
  import opened Descriptors
  import opened PageTable
  import opened MmuMeaning
  import opened UnmapMeaning
  import opened MmuLevels
  import opened BuddyBlocks
  import opened UserRegions
  import opened UserBlocks

  /** Consecutive pages [lo, hi) of the first 6 MiB, mapped one by one to the frames from `frame` on. */
  datatype Run = Run(cfg: PageCfg, lo: nat, hi: nat, frame: nat)

  predicate RunOk(m: Run) {
    InWidth(m.cfg) && m.lo <= m.hi <= 3 * ENTRIES && m.frame + 3 * ENTRIES <= FRAMES
  }

  function PageWord(m: Run, page: nat): Word {
    if m.lo <= page < m.hi then BlockDescriptor(m.cfg, (m.frame + (page - m.lo)) * PAGE_SIZE, 3) else NULL_WORD
  }

  function LastTable(m: Run, k: nat): Entries {
    var words := seq(ENTRIES, (i: nat) => PageWord(m, k * ENTRIES + i));
    assert |words| == ENTRIES;
    words
  }

  function LastTables(): Entries {
    EmptyTable()[0 := TableDescriptor(4 * PAGE_SIZE)][1 := TableDescriptor(5 * PAGE_SIZE)]
      [2 := TableDescriptor(6 * PAGE_SIZE)]
  }

  function Tables(m: Run): Memory {
    map[1 := EmptyTable()[0 := TableDescriptor(2 * PAGE_SIZE)],
        2 := EmptyTable()[0 := TableDescriptor(3 * PAGE_SIZE)],
        3 := LastTables(),
        4 := LastTable(m, 0), 5 := LastTable(m, 1), 6 := LastTable(m, 2)]
  }

  function TablePlaces(): Places {
    map[1 := Place(0, 0, 0, 0), 2 := Place(1, 0, 1, 0), 3 := Place(2, 0, 2, 0),
        4 := Place(3, 0, 3, 0), 5 := Place(3, 1, 3, 1), 6 := Place(3, 2, 3, 2)]
  }

  lemma PageWordIs(m: Run, page: nat)
    requires RunOk(m)
    ensures var w := PageWord(m, page);
            && (m.lo <= page < m.hi ==>
                  && Valid(w) && KindAt(w, 3) == Page && CfgOf(w) == m.cfg
                  && OutputAddress(w) == (m.frame + (page - m.lo)) * PAGE_SIZE)
            && (!(m.lo <= page < m.hi) ==> w == NULL_WORD && !Valid(w))
    ensures Terminal(PageWord(m, page), 3)
  {
    if m.lo <= page < m.hi {
      var f := m.frame + (page - m.lo);
      BlockDescriptorHeader(m.cfg, f * PAGE_SIZE, 3);
      BlockDescriptorCfg(m.cfg, f * PAGE_SIZE, 3);
      StoredCfgExact(m.cfg, f * PAGE_SIZE, 3);
      DivUnique(f * PAGE_SIZE, PAGE_SIZE, f, 0);
      DivUnique(f, FRAMES, 0, f);
    }
  }

  lemma Links()
    ensures forall t: nat {:trigger TableDescriptor(t * PAGE_SIZE)} | 2 <= t <= 6 ::
              var w := TableDescriptor(t * PAGE_SIZE);
              Valid(w) && w.frame == t && KindAt(w, 0) == Table && KindAt(w, 1) == Table && KindAt(w, 2) == Table
  {
    forall t: nat {:trigger TableDescriptor(t * PAGE_SIZE)} | 2 <= t <= 6
      ensures var w := TableDescriptor(t * PAGE_SIZE);
              Valid(w) && w.frame == t && KindAt(w, 0) == Table && KindAt(w, 1) == Table && KindAt(w, 2) == Table
    {
      TableDescriptorHeader(t, 0);
      TableDescriptorHeader(t, 1);
      TableDescriptorHeader(t, 2);
    }
  }

  lemma TablesWellFormed(m: Run)
    requires RunOk(m)
    ensures WellFormed(Tables(m), TablePlaces(), 1)
  {
    var mem, place := Tables(m), TablePlaces();
    Links();
    hide TableDescriptor, BlockDescriptor, PageWord, LastTable, Terminal;
    forall t | t in mem ensures PlaceOk(mem, place, 1, t) {
    }
    hide PlaceOk;
    forall t, i | t in mem && 0 <= i < ENTRIES ensures EntryOk(mem, place, t, i) {
      TablesEntry(m, t, i);
    }
  }

  lemma TablesEntry(m: Run, t: nat, i: nat)
    requires RunOk(m) && t in Tables(m) && i < ENTRIES
    ensures EntryOk(Tables(m), TablePlaces(), t, i)
  {
    Links();
    if t >= 4 { PageWordIs(m, (t - 4) * ENTRIES + i); }
    hide TableDescriptor, BlockDescriptor, PageWord;
  }

  lemma LowResolve(m: Run, a: nat)
    requires RunOk(m) && a < 0x60_0000
    ensures Resolve(Tables(m), 1, a) == ResolveFrom(Tables(m), 4 + a / 0x20_0000, 3, a)
    ensures Tables(m)[4 + a / 0x20_0000][Index(a, 3)] == PageWord(m, a / PAGE_SIZE)
  {
    var mem, k := Tables(m), a / 0x20_0000;
    Links();
    hide TableDescriptor, PageWord;
    assert a / PAGE_SIZE == k * ENTRIES + Index(a, 3);
    assert ResolveFrom(mem, 3, 2, a) == ResolveFrom(mem, 4 + k, 3, a);
    assert ResolveFrom(mem, 2, 1, a) == ResolveFrom(mem, 3, 2, a);
  }

  lemma HighResolve(m: Run, a: nat)
    requires RunOk(m) && 0x60_0000 <= a < ADDRESS_SPACE
    ensures Resolve(Tables(m), 1, a).Hole?
  {
    var mem := Tables(m);
    Links();
    hide TableDescriptor, PageWord;
    if a < 0x4000_0000 {
      assert ResolveFrom(mem, 3, 2, a) == Hole(2);
    } else if a < 0x80_0000_0000 {
      assert ResolveFrom(mem, 2, 1, a) == Hole(1);
    }
  }

  /** What the tables mean, address by address. */
  lemma TablesResolve(m: Run, a: nat)
    requires RunOk(m) && a < ADDRESS_SPACE
    ensures var h, page := Resolve(Tables(m), 1, a), a / PAGE_SIZE;
            if m.lo <= page < m.hi then h == Leaf(3, m.cfg, (m.frame + (page - m.lo)) * PAGE_SIZE + a % PAGE_SIZE)
            else h.Hole?
  {
    if a < 0x60_0000 {
      LowResolve(m, a);
      PageWordIs(m, a / PAGE_SIZE);
      hide PageWord;
    } else {
      HighResolve(m, a);
    }
  }

  function BlockOf(m: Run): Phys
    requires m.lo <= m.hi
  {
    Phys(m.frame * PAGE_SIZE, m.lo * PAGE_SIZE, m.hi - m.lo)
  }

  /** The tables of a region that has the pages as its one block. */
  lemma TablesAgree(m: Run, r: Region)
    requires RunOk(m) && CfgFromFlags(r.perms) == Cfg(m.cfg) && r.phys == {BlockOf(m)}
    ensures Agrees([r], Tables(m), 1)
  {
    hide Tables, Resolve, CfgFromFlags;
    var rs, mem, n := [r], Tables(m), BlockOf(m);
    ReadBack(m.cfg);
    forall u: nat {:trigger Resolve(mem, 1, u)} | u < ADDRESS_SPACE
      ensures Translate(Resolve(mem, 1, u)) == if Holds(n, u) then Mapped(m.cfg, n.pa + (u - n.ua)) else Unmapped
    {
      TablesResolve(m, u);
    }
    forall i: nat, n', u: nat {:trigger Backs(rs, i, n', u)} | Backs(rs, i, n', u) ensures i == 0 && n' == n {
    }
    forall u: nat | Holds(n, u) ensures BackedBy(rs, u) {
      assert Backs(rs, 0, n, u);
    }
  }

  lemma ReadBack(cfg: PageCfg)
    requires InWidth(cfg)
    ensures Truncated(cfg) == cfg
  {
    BlockDescriptorCfg(cfg, 0, 3);
    StoredCfgExact(cfg, 0, 3);
  }

  lemma OneBlockOk(r: Region, n: Phys)
    requires r == Region(n.ua, n.count, {Read, Write}, seq(n.count, _ => true), {n}, true, true)
    requires n.ua % PAGE_SIZE == 0 && 0 < n.count < U32 && RegionEnd(r) <= USER_END
    ensures RegionOk(r)
  {
    assert NodeOk(r, n);
    forall u: nat {:trigger Inside(r, u)} | Inside(r, u) ensures Backed(r, u) && CommitBit(r, u) {
      assert Holds(n, u);
    }
  }

  /** A region of 4 MiB, one page above a level 2 boundary, with one block: destroying it trips the assertion. */
  lemma StuckRegion()
    ensures var n := Phys(0x40_0000, 0x1000, 1024);
            var r := Region(0x1000, 1024, {Read, Write}, seq(1024, _ => true), {n}, true, true);
            var mem := Tables(Run(CfgFromFlags({Read, Write}).cfg, 1, 1025, 1024));
            && RegionOk(r) && AllocatedNode(map[1024 := 10], n)
            && WellFormed(mem, TablePlaces(), 1) && Agrees([r], mem, 1)
            && UnmapFails(mem, 1, n.ua, n.count * PAGE_SIZE) && !Freeable(r)
  {
    var n := Phys(0x40_0000, 0x1000, 1024);
    var r := Region(0x1000, 1024, {Read, Write}, seq(1024, _ => true), {n}, true, true);
    var m := Run(CfgFromFlags({Read, Write}).cfg, 1, 1025, 1024);
    Powers();
    TablesWellFormed(m);
    TablesAgree(m, r);
    TablesInside(m);
    hide LevelsInside, UnmapFails, NeedsSplit, WellFormed, Agrees, Tables, TablePlaces, RegionOk;
    OneBlockOk(r, n);
    assert n in r.phys && Stuck(n);
    UnmapMappedIff(Tables(m), 1, 0x1000, 0x40_0000, 0x40_0000);
    HoldsSlotIff(0x1000, 0x40_0000);
  }

  /** The block is off the boundary that its frames are on, so it is served page by page. */
  lemma TablesInside(m: Run)
    requires RunOk(m) && m.lo == 1 && m.frame == 1024
    ensures LevelsInside(Tables(m), 1, 0x1000, 0x40_0000, (m.hi - m.lo) * PAGE_SIZE)
  {
    hide Tables, Resolve;
    forall a: nat {:trigger Resolve(Tables(m), 1, a)} | a < ADDRESS_SPACE && 0x1000 <= a < m.hi * PAGE_SIZE
      ensures Resolve(Tables(m), 1, a).Leaf? && Resolve(Tables(m), 1, a).level == 3
      ensures Whole(0x1000, (m.hi - m.lo) * PAGE_SIZE, a, 3)
    {
      TablesResolve(m, a);
    }
  }

  /** One of two pages is committed, so on demand the chunk is partly committed. */
  lemma HalfCommitted(m: Run, r: Region)
    requires RunOk(m) && m.hi == m.lo + 1 <= 2 && m.cfg == CfgFromFlags({Read}).cfg
    requires r == Region(0, 2, {Read}, [m.lo == 0, m.lo == 1], {BlockOf(m)}, true, false)
    ensures RegionOk(r) && WellFormed(Tables(m), TablePlaces(), 1) && Agrees([r], Tables(m), 1)
    ensures !AllOrNothing([r], 0, 2 * PAGE_SIZE) && !Unbacked(r, 0, 2 * PAGE_SIZE)
  {
    TablesWellFormed(m);
    assert CfgFromFlags({Read}).Cfg?;
    TablesAgree(m, r);
    hide WellFormed, Agrees, Tables, TablePlaces;
    var n := BlockOf(m);
    assert r.phys == {n} && NodeOk(r, n);
    forall u: nat {:trigger Inside(r, u)} | Inside(r, u) ensures Backed(r, u) <==> CommitBit(r, u) {
      assert Backed(r, u) <==> Holds(n, u);
    }
    assert Holds(n, n.ua) && Backed(r, n.ua);
    assert Inside(r, 0) && Inside(r, PAGE_SIZE) && CommitBit(r, 0) != CommitBit(r, PAGE_SIZE);
    assert [r][0] == r && !Unmixed(r, 0, 2 * PAGE_SIZE);
  }

  /** Of two pages the second is committed: the block that the commit adds for both overlaps it unnoticed. */
  lemma MixedChunk()
    ensures var m := Run(CfgFromFlags({Read}).cfg, 1, 2, 1024);
            var r := Region(0, 2, {Read}, [false, true], {Phys(0x40_0000, PAGE_SIZE, 1)}, true, false);
            && RegionOk(r) && WellFormed(Tables(m), TablePlaces(), 1) && Agrees([r], Tables(m), 1)
            && !AllOrNothing([r], 0, 2 * PAGE_SIZE) && !Unbacked(r, 0, 2 * PAGE_SIZE)
            && forall n | n in r.phys :: n.ua != 0
  {
    var m := Run(CfgFromFlags({Read}).cfg, 1, 2, 1024);
    HalfCommitted(m, Region(0, 2, {Read}, [false, true], {BlockOf(m)}, true, false));
  }

  /** Of two pages the first is committed: its block starts where the new one does, and the insertion asserts. */
  lemma SameStart()
    ensures var m := Run(CfgFromFlags({Read}).cfg, 0, 1, 1024);
            var r := Region(0, 2, {Read}, [true, false], {Phys(0x40_0000, 0, 1)}, true, false);
            && RegionOk(r) && WellFormed(Tables(m), TablePlaces(), 1) && Agrees([r], Tables(m), 1)
            && !AllOrNothing([r], 0, 2 * PAGE_SIZE) && !Unbacked(r, 0, 2 * PAGE_SIZE)
            && forall n | n in r.phys :: n.ua == 0
  {
    var m := Run(CfgFromFlags({Read}).cfg, 0, 1, 1024);
    HalfCommitted(m, Region(0, 2, {Read}, [true, false], {BlockOf(m)}, true, false));
  }
}
