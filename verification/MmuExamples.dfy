/** Trees on which `mmu_map` and `mmu_unmap` do not do what a flat map would. */
module MmuExamples {
  import opened Descriptors
  import opened PageTable
  import opened MmuMeaning
  import opened UnmapMeaning

  const CFG := PageCfg(0, 0, 0, false, true, false, false, 0)

  /** One gibibyte block at 1 GiB; the entry before it is absent. */
  function GigabyteBlock(): Memory {
    map[1 := EmptyTable()[0 := TableDescriptor(2 * PAGE_SIZE)],
        2 := EmptyTable()[1 := BlockDescriptor(CFG, 0, 1)]]
  }

  /** Unmapping the last page before the block and the block's first page leaves the block's page translated. */
  lemma SkippedPageStaysMapped()
    ensures WellFormed(GigabyteBlock(), map[1 := Place(0, 0, 0, 0), 2 := Place(1, 0, 1, 0)], 1)
    ensures var v, size := 0x3FFF_F000, 0x2000;
            && !UnmapFails(GigabyteBlock(), 1, v, size)
            && Resolve(GigabyteBlock(), 1, v + PAGE_SIZE) == Leaf(1, CFG, 0)
            && !Cleared(GigabyteBlock(), 1, v, size, v + PAGE_SIZE)
  {
    var mem, place := GigabyteBlock(), map[1 := Place(0, 0, 0, 0), 2 := Place(1, 0, 1, 0)];
    TableDescriptorHeader(2, 0);
    BlockDescriptorHeader(CFG, 0, 1);
    BlockDescriptorCfg(CFG, 0, 1);
    forall t | t in mem ensures PlaceOk(mem, place, 1, t) {
    }
    forall t, i | t in mem && 0 <= i < ENTRIES ensures EntryOk(mem, place, t, i) {
    }
    var v, size := 0x3FFF_F000, 0x2000;
    assert ResolveFrom(mem, 2, 1, v) == Hole(1);
    assert Resolve(mem, 1, v) == Hole(1);
    assert ResolveFrom(mem, 2, 1, v + PAGE_SIZE) == Leaf(1, CFG, 0);
    assert RoundSkips(mem, 1, v, size) && RoundBytes(mem, 1, v, size) == size;
  }

  /** A single last-level page at address 0. */
  function OnePage(): Memory {
    map[1 := EmptyTable()[0 := TableDescriptor(2 * PAGE_SIZE)],
        2 := EmptyTable()[0 := TableDescriptor(3 * PAGE_SIZE)],
        3 := EmptyTable()[0 := TableDescriptor(4 * PAGE_SIZE)],
        4 := EmptyTable()[0 := BlockDescriptor(CFG, 0, 3)]]
  }

  function OnePagePlaces(): map<nat, Place> {
    map[1 := Place(0, 0, 0, 0), 2 := Place(1, 0, 1, 0), 3 := Place(2, 0, 2, 0), 4 := Place(3, 0, 3, 0)]
  }

  lemma OnePageEntries(t: nat, i: nat)
    requires t in OnePage() && i < ENTRIES
    ensures EntryOk(OnePage(), OnePagePlaces(), t, i)
  {
    TableDescriptorHeader(2, 0);
    TableDescriptorHeader(3, 1);
    TableDescriptorHeader(4, 2);
    BlockDescriptorHeader(CFG, 0, 3);
  }

  lemma OnePageWellFormed()
    ensures WellFormed(OnePage(), OnePagePlaces(), 1)
  {
    var mem, place := OnePage(), OnePagePlaces();
    TableDescriptorHeader(2, 0);
    TableDescriptorHeader(3, 1);
    TableDescriptorHeader(4, 2);
    hide TableDescriptor, BlockDescriptor;
    forall t | t in mem ensures PlaceOk(mem, place, 1, t) {
    }
    hide PlaceOk, EntryOk;
    forall t, i | t in mem && 0 <= i < ENTRIES ensures EntryOk(mem, place, t, i) {
      OnePageEntries(t, i);
    }
  }

  /** Mapping or unmapping the 2 MiB block around a live last-level page trips the assertion. */
  lemma LivePageObstructs()
    ensures WellFormed(OnePage(), OnePagePlaces(), 1)
    ensures Obstructed(OnePage(), 1, 0, 0, 0x20_0000)
    ensures UnmapFails(OnePage(), 1, 0, 0x20_0000)
  {
    OnePageWellFormed();
    hide WellFormed;
    var mem := OnePage();
    TableDescriptorHeader(2, 0);
    TableDescriptorHeader(3, 1);
    TableDescriptorHeader(4, 2);
    BlockDescriptorHeader(CFG, 0, 3);
    BlockDescriptorCfg(CFG, 0, 3);
    assert ResolveFrom(mem, 4, 3, 0) == Leaf(3, CFG, 0);
    assert ResolveFrom(mem, 3, 2, 0) == Leaf(3, CFG, 0);
    assert ResolveFrom(mem, 2, 1, 0) == Leaf(3, CFG, 0);
    assert Resolve(mem, 1, 0) == Leaf(3, CFG, 0);
    assert LastLevelPage(Resolve(mem, 1, 0));
    assert PagesInSlot(mem, 1, 0, 2);
  }
}
