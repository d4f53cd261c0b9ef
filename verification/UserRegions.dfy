/**
 * The regions of a task, the physical blocks behind them and the translation they stand for
 * (src/kernel/mm/malloc/uregion.c).
 */
module UserRegions {
  import opened Arithmetic
  import opened Descriptors
  import opened PageTable
  import opened MmuMeaning
  import opened UnmapMeaning
  import opened BuddyBlocks
  import opened BuddyTiling
  import opened BuddyNodes
  import opened Sequences

  /** `USR_ADDRSPACE_END`. */
  const USER_END: nat := 0x8000_0000_0000


  datatype Perm = Read | Write | Exec

  datatype CfgResult = Cfg(cfg: PageCfg) | BadFlags

  /** `usr_mmu_cfg_from_flags`; `BadFlags` stands for its panic. */
  function CfgFromFlags(perms: set<Perm>): CfgResult {
    if perms == {Read, Write} then Cfg(PageCfg(0, 1, 3, false, true, true, true, 0))
    else if perms == {Read} then Cfg(PageCfg(0, 3, 3, false, true, true, true, 0))
    else if perms == {Read, Exec} then Cfg(PageCfg(0, 3, 3, false, true, true, false, 0))
    else BadFlags
  }

  /** User memory is never executable by the kernel, and writable user memory is executable by nobody. */
  lemma NoWriteExec(perms: set<Perm>)
    requires CfgFromFlags(perms).Cfg?
    ensures var cfg := CfgFromFlags(perms).cfg;
            && InWidth(cfg) && cfg.pxn && cfg.accessFlag && (cfg.ap == 1 <==> Write in perms) &&
            (cfg.uxn <==> Exec !in perms)
            && (Write in perms ==> cfg.uxn)
  {
    assert {Read, Write} != {Read, Exec} by { assert Write in {Read, Write} && Write !in {Read, Exec}; }
  }

  /** `physdata_t`: physically contiguous pages behind contiguous user pages. */
  datatype Phys = Phys(pa: nat, ua: nat, count: nat)

  predicate Holds(n: Phys, u: nat) {
    n.ua <= u < n.ua + n.count * PAGE_SIZE
  }

  /** `uregion_t`, its tree of physical blocks as a set. */
  datatype Region = Region(start: nat, pages: nat, perms: set<Perm>, committed: seq<bool>, phys: set<Phys>,
                           hasPhys: bool, full: bool)

  function RegionEnd(r: Region): nat {
    r.start + r.pages * PAGE_SIZE
  }

  predicate Inside(r: Region, u: nat) {
    r.start <= u < RegionEnd(r)
  }

  predicate NodeOk(r: Region, n: Phys) {
    && n.count > 0 && n.ua % PAGE_SIZE == 0 && r.start <= n.ua
    && n.ua + n.count * PAGE_SIZE <= RegionEnd(r) && n.ua + n.count * PAGE_SIZE <= USER_END
  }

  predicate NodesApart(n: Phys, n': Phys) {
    n == n' || n.ua + n.count * PAGE_SIZE <= n'.ua || n'.ua + n'.count * PAGE_SIZE <= n.ua
  }

  ghost predicate Backed(r: Region, u: nat) {
    exists n {:trigger Holds(n, u)} :: n in r.phys && Holds(n, u)
  }

  predicate CommitBit(r: Region, u: nat)
    requires Inside(r, u) && |r.committed| == r.pages
  {
    var i := (u - r.start) / PAGE_SIZE;
    i < r.pages && r.committed[i]
  }

  ghost predicate RegionShape(r: Region) {
    && r.start % PAGE_SIZE == 0 && r.pages < U32 && RegionEnd(r) < U64 && |r.committed| == r.pages
    && (forall n {:trigger NodeOk(r, n)} | n in r.phys :: NodeOk(r, n))
    && (forall n, n' {:trigger NodesApart(n, n')} | n in r.phys && n' in r.phys :: NodesApart(n, n'))
    && (r.phys != {} ==> CfgFromFlags(r.perms).Cfg?)
    && (r.full ==> forall i | 0 <= i < r.pages :: r.committed[i])
    && (!r.hasPhys ==> forall i | 0 <= i < r.pages :: !r.committed[i])
  }

  /** Commit bits agree with the physical blocks, but for [lo, hi), which is backed and not yet marked. */
  ghost predicate CommitsExcept(r: Region, lo: nat, hi: nat)
    requires |r.committed| == r.pages
  {
    forall u: nat {:trigger Inside(r, u)} | Inside(r, u) ::
      if lo <= u < hi then Backed(r, u) && !CommitBit(r, u) else Backed(r, u) <==> CommitBit(r, u)
  }

  /** A page of the region is marked exactly when a physical block lies behind it. */
  ghost predicate RegionOk(r: Region) {
    RegionShape(r) && CommitsExcept(r, 0, 0)
  }

  ghost predicate Sorted(rs: seq<Region>) {
    forall i, j | 0 <= i < j < |rs| :: RegionEnd(rs[i]) <= rs[j].start
  }

  // Translation

  ghost predicate Backs(rs: seq<Region>, i: nat, n: Phys, u: nat) {
    i < |rs| && n in rs[i].phys && Holds(n, u)
  }

  ghost predicate BackedBy(rs: seq<Region>, u: nat) {
    exists i: nat, n {:trigger Backs(rs, i, n, u)} :: Backs(rs, i, n, u)
  }

  /** The page tables translate the backed user addresses, with the permissions of their region, and no others. */
  ghost predicate Agrees(rs: seq<Region>, mem: Memory, root: nat) {
    && (forall i: nat, n, u: nat {:trigger Backs(rs, i, n, u)} | Backs(rs, i, n, u) ::
          CfgFromFlags(rs[i].perms).Cfg? &&
          Translate(Resolve(mem, root, u)) == Mapped(Truncated(CfgFromFlags(rs[i].perms).cfg), n.pa + (u - n.ua)))
    && (forall u: nat {:trigger Resolve(mem, root, u)} | u < ADDRESS_SPACE && !BackedBy(rs, u) ::
          Translate(Resolve(mem, root, u)) == Unmapped)
  }

  lemma BackedRegion(rs: seq<Region>, i: nat, u: nat)
    requires i < |rs| && Sorted(rs) && (forall j | 0 <= j < |rs| :: RegionShape(rs[j])) && Inside(rs[i], u)
    ensures BackedBy(rs, u) <==> Backed(rs[i], u)
  {
    if BackedBy(rs, u) {
      var j: nat, n :| Backs(rs, j, n, u);
      assert RegionShape(rs[j]) && NodeOk(rs[j], n);
      assert i == j;
    }
    if Backed(rs[i], u) {
      var n :| n in rs[i].phys && Holds(n, u);
      assert Backs(rs, i, n, u);
    }
  }

  // A new block behind an unbacked part of a region

  function WithNode(r: Region, n: Phys): Region {
    r.(phys := r.phys + {n})
  }

  ghost predicate Unbacked(r: Region, lo: nat, hi: nat) {
    forall u: nat {:trigger Backed(r, u)} | lo <= u < hi :: !Backed(r, u)
  }

  lemma NodeAdded(r: Region, n: Phys)
    requires RegionShape(r) && NodeOk(r, n) && CfgFromFlags(r.perms).Cfg?
    requires Unbacked(r, n.ua, n.ua + n.count * PAGE_SIZE)
    ensures RegionShape(WithNode(r, n)) && n !in r.phys
    ensures forall u: nat {:trigger Backed(WithNode(r, n), u)} ::
              Backed(WithNode(r, n), u) <==> Backed(r, u) || Holds(n, u)
  {
    var r' := WithNode(r, n);
    forall m | m in r.phys ensures NodesApart(n, m) && NodesApart(m, n) && m != n {
      assert NodeOk(r, m);
      if m.ua < n.ua + n.count * PAGE_SIZE && n.ua < m.ua + m.count * PAGE_SIZE {
        var u := if m.ua < n.ua then n.ua else m.ua;
        assert Holds(m, u) && Backed(r, u);
      }
    }
    forall m {:trigger NodeOk(r', m)} | m in r'.phys ensures NodeOk(r', m) { assert m != n ==> NodeOk(r, m); }
    forall m, m' {:trigger NodesApart(m, m')} | m in r'.phys && m' in r'.phys ensures NodesApart(m, m') { }
    forall u: nat {:trigger Backed(r', u)} ensures Backed(r', u) <==> Backed(r, u) || Holds(n, u) {
      if Backed(r, u) { var m :| m in r.phys && Holds(m, u); assert m in r'.phys; }
      if Holds(n, u) { assert n in r'.phys; }
    }
  }

  lemma BackedMore(rs: seq<Region>, i: nat, n: Phys, u: nat)
    requires i < |rs|
    ensures BackedBy(rs, u) || Holds(n, u) ==> BackedBy(rs[i := WithNode(rs[i], n)], u)
  {
    var rs' := rs[i := WithNode(rs[i], n)];
    if BackedBy(rs, u) {
      var j: nat, m :| Backs(rs, j, m, u);
      assert Backs(rs', j, m, u);
    } else if Holds(n, u) {
      assert Backs(rs', i, n, u);
    }
  }

  /** Mapping the block's user range to it keeps the agreement. */
  lemma AgreesAdded(rs: seq<Region>, i: nat, n: Phys, mem: Memory, mem': Memory, root: nat)
    requires i < |rs| && Agrees(rs, mem, root) && CfgFromFlags(rs[i].perms).Cfg?
    requires n.ua + n.count * PAGE_SIZE <= ADDRESS_SPACE && n.pa + n.count * PAGE_SIZE <= ADDRESS_SPACE
    requires forall u: nat {:trigger BackedBy(rs, u)} | Holds(n, u) :: !BackedBy(rs, u)
    requires forall j: nat, m, u: nat {:trigger Backs(rs, j, m, u)} | Backs(rs, j, m, u) :: u < ADDRESS_SPACE
    requires MapsFlat(mem, mem', root, n.ua, n.pa, n.count * PAGE_SIZE, CfgFromFlags(rs[i].perms).cfg)
    ensures Agrees(rs[i := WithNode(rs[i], n)], mem', root)
  {
    hide Resolve, Truncated, CfgFromFlags;
    var rs' := rs[i := WithNode(rs[i], n)];
    forall j: nat, m, u: nat {:trigger Backs(rs', j, m, u)} | Backs(rs', j, m, u)
      ensures CfgFromFlags(rs'[j].perms).Cfg?
      ensures Translate(Resolve(mem', root, u)) == Mapped(Truncated(CfgFromFlags(rs'[j].perms).cfg), m.pa + (u - m.ua))
    {
      if j == i && m == n {
      } else {
        assert Backs(rs, j, m, u);
        assert !Holds(n, u) by { assert BackedBy(rs, u); }
      }
    }
    forall u: nat {:trigger Resolve(mem', root, u)} | u < ADDRESS_SPACE && !BackedBy(rs', u)
      ensures Translate(Resolve(mem', root, u)) == Unmapped
    {
      BackedMore(rs, i, n, u);
      assert Translate(Resolve(mem, root, u)) == Unmapped;
    }
  }

  /** Where nothing is translated no block to be written covers live pages. */
  lemma {:induction false} UnmappedFree(mem: Memory, root: nat, v: nat, pa: nat, size: nat)
    requires PageAligned(v, pa, size) && v + size <= ADDRESS_SPACE
    requires forall a: nat {:trigger Resolve(mem, root, a)} | v <= a < v + size :: !LastLevelPage(Resolve(mem, root, a))
    ensures !Obstructed(mem, root, v, pa, size)
    decreases size
  {
    if size >= PAGE_SIZE {
      hide Resolve, LastLevelPage;
      TargetAligned(size, v, pa);
      var l := TargetLevel(size, v, pa);
      assert v % ADDRESS_SPACE == v;
      if l < MAX_LEVEL && PagesInSlot(mem, root, v, l) {
        var a: nat :| a < ADDRESS_SPACE && Slot(a, l) == Slot(v, l) && LastLevelPage(Resolve(mem, root, a));
        SlotRange(v, l, a);
      }
      UnmappedFree(mem, root, v + Cover(l), pa + Cover(l), size - Cover(l));
    }
  }

  // Physical blocks

  predicate AllocatedNode(a: map<nat, nat>, n: Phys) {
    n.pa % PAGE_SIZE == 0 && n.pa / PAGE_SIZE in a && n.count == Pow2(a[n.pa / PAGE_SIZE])
  }

  /** Each physical block is an allocated buddy block, and belongs to one node of one region. */
  ghost predicate PhysOk(rs: seq<Region>, a: map<nat, nat>) {
    && (forall i: nat, n {:trigger n in rs[i].phys} | i < |rs| && n in rs[i].phys :: AllocatedNode(a, n))
    && (forall i: nat, n, j: nat, m {:trigger n in rs[i].phys, m in rs[j].phys} |
          i < |rs| && n in rs[i].phys && j < |rs| && m in rs[j].phys && n.pa == m.pa :: i == j && n == m)
  }

  lemma PhysAdded(rs: seq<Region>, a: map<nat, nat>, i: nat, n: Phys, order: nat)
    requires i < |rs| && PhysOk(rs, a) && n.pa % PAGE_SIZE == 0 && n.pa / PAGE_SIZE !in a && n.count == Pow2(order)
    ensures PhysOk(rs[i := WithNode(rs[i], n)], a[n.pa / PAGE_SIZE := order])
  {
    hide Pow2;
    var rs', a' := rs[i := WithNode(rs[i], n)], a[n.pa / PAGE_SIZE := order];
    forall j: nat, m {:trigger m in rs'[j].phys} | j < |rs'| && m in rs'[j].phys ensures AllocatedNode(a', m) {
      if j != i || m != n { assert m in rs[j].phys; assert AllocatedNode(a, m); }
    }
    forall j: nat, m, k: nat, l {:trigger m in rs'[j].phys, l in rs'[k].phys} |
      j < |rs'| && m in rs'[j].phys && k < |rs'| && l in rs'[k].phys && m.pa == l.pa
      ensures j == k && m == l
    {
      assert (j == i && m == n) || m in rs[j].phys;
      assert (k == i && l == n) || l in rs[k].phys;
      assert m in rs[j].phys ==> AllocatedNode(a, m);
      assert l in rs[k].phys ==> AllocatedNode(a, l);
    }
  }

  lemma BlockBytes(b: Blocks, n: nat, max: nat, m: Phys)
    requires Tiled(b, n, max) && AllocatedNode(Allocated(b), m)
    ensures m.pa + m.count * PAGE_SIZE <= n * PAGE_SIZE
  {
    hide Pow2;
    assert BlockOk(b, n, max, m.pa / PAGE_SIZE);
  }

  /** No two user addresses share a byte of memory. */
  lemma PhysApart(rs: seq<Region>, b: Blocks, n: nat, max: nat, i: nat, m: Phys, u: nat, j: nat, l: Phys, v: nat)
    requires Tiled(b, n, max) && PhysOk(rs, Allocated(b)) && Backs(rs, i, m, u) && Backs(rs, j, l, v)
    requires m.pa + (u - m.ua) == l.pa + (v - l.ua)
    ensures i == j && m == l && u == v
  {
    hide Pow2;
    assert m in rs[i].phys && l in rs[j].phys;
    assert AllocatedNode(Allocated(b), m) && AllocatedNode(Allocated(b), l);
    var g, h := m.pa / PAGE_SIZE, l.pa / PAGE_SIZE;
    assert Apart(b, g, h) && Apart(b, h, g);
  }

  // Blocks of others

  ghost predicate Owned(rs: seq<Region>, x: nat) {
    exists j: nat, n {:trigger n in rs[j].phys} :: j < |rs| && n in rs[j].phys && n.pa / PAGE_SIZE == x
  }

  /** The allocated blocks that no region of the task owns. */
  ghost function Foreign(rs: seq<Region>, a: map<nat, nat>): map<nat, nat> {
    map x | x in a && !Owned(rs, x) :: a[x]
  }

  lemma ForeignAdded(rs: seq<Region>, i: nat, n: Phys, a: map<nat, nat>, idx: nat, order: nat)
    requires i < |rs| && idx !in a && n.pa == idx * PAGE_SIZE
    ensures Foreign(rs[i := WithNode(rs[i], n)], a[idx := order]) == Foreign(rs, a)
  {
    var rs' := rs[i := WithNode(rs[i], n)];
    DivUnique(n.pa, PAGE_SIZE, idx, 0);
    assert n in rs'[i].phys;
    forall x | x in a ensures Owned(rs', x) <==> Owned(rs, x) {
      if Owned(rs, x) {
        var j: nat, m :| j < |rs| && m in rs[j].phys && m.pa / PAGE_SIZE == x;
        assert m in rs'[j].phys;
      }
      if Owned(rs', x) {
        var j: nat, m :| j < |rs'| && m in rs'[j].phys && m.pa / PAGE_SIZE == x;
        assert m in rs[j].phys;
      }
    }
  }

  lemma ForeignDropped(rs: seq<Region>, i: nat, n: Phys, a: map<nat, nat>)
    requires i < |rs| && n in rs[i].phys
    ensures Foreign(rs[i := WithoutNode(rs[i], n)], a - {n.pa / PAGE_SIZE}) == Foreign(rs, a)
  {
    var rs' := rs[i := WithoutNode(rs[i], n)];
    forall x | x in a && x != n.pa / PAGE_SIZE ensures Owned(rs', x) <==> Owned(rs, x) {
      if Owned(rs, x) {
        var j: nat, m :| j < |rs| && m in rs[j].phys && m.pa / PAGE_SIZE == x;
        assert m in rs'[j].phys;
      }
      if Owned(rs', x) {
        var j: nat, m :| j < |rs'| && m in rs'[j].phys && m.pa / PAGE_SIZE == x;
        assert m in rs[j].phys;
      }
    }
  }

  lemma ForeignSame(rs: seq<Region>, rs': seq<Region>, a: map<nat, nat>)
    requires |rs'| == |rs| && forall j | 0 <= j < |rs| :: rs'[j].phys == rs[j].phys
    ensures Foreign(rs', a) == Foreign(rs, a)
  {
    forall x | x in a ensures Owned(rs', x) <==> Owned(rs, x) {
      if Owned(rs, x) {
        var j: nat, m :| j < |rs| && m in rs[j].phys && m.pa / PAGE_SIZE == x;
        assert m in rs'[j].phys;
      }
      if Owned(rs', x) {
        var j: nat, m :| j < |rs'| && m in rs'[j].phys && m.pa / PAGE_SIZE == x;
        assert m in rs[j].phys;
      }
    }
  }

  lemma ForeignInserted(rs: seq<Region>, k: nat, r: Region, a: map<nat, nat>)
    requires k <= |rs| && r.phys == {}
    ensures Foreign(Inserted(rs, k, r), a) == Foreign(rs, a)
  {
    var rs' := Inserted(rs, k, r);
    forall x | x in a ensures Owned(rs', x) <==> Owned(rs, x) {
      if Owned(rs, x) {
        var j: nat, m :| j < |rs| && m in rs[j].phys && m.pa / PAGE_SIZE == x;
        assert m in rs'[if j < k then j else j + 1].phys;
      }
      if Owned(rs', x) {
        var j: nat, m :| j < |rs'| && m in rs'[j].phys && m.pa / PAGE_SIZE == x;
        assert m in rs[if j < k then j else j - 1].phys;
      }
    }
  }

  /** A task that owned no block and owns none again has left the allocator exactly as it was. */
  lemma NothingLeaks(rs: seq<Region>, rs': seq<Region>, b: Blocks, b': Blocks, n: nat, max: nat)
    requires Tiled(b, n, max) && Merged(b, max) && Tiled(b', n, max) && Merged(b', max)
    requires (forall r | r in rs :: r.phys == {}) && (forall r | r in rs' :: r.phys == {})
    requires Foreign(rs', Allocated(b')) == Foreign(rs, Allocated(b))
    ensures b' == b
  {
    assert Foreign(rs, Allocated(b)) == Allocated(b) by { NoneOwned(rs, Allocated(b)); }
    assert Foreign(rs', Allocated(b')) == Allocated(b') by { NoneOwned(rs', Allocated(b')); }
    AllocatedDetermines(b, b', n, max);
  }

  lemma NoneOwned(rs: seq<Region>, a: map<nat, nat>)
    requires forall r | r in rs :: r.phys == {}
    ensures Foreign(rs, a) == a
  {
    forall x | x in a ensures !Owned(rs, x) {
      assert forall j: nat | j < |rs| :: rs[j] in rs;
    }
  }

  // One block of `map_user_region`

  ghost predicate OrderStarved(b: Blocks, max: nat, o: nat) {
    o > max || forall h: nat :: !FreeRun(b, h, o)
  }

  /**
   * Why pages up to `end` cannot be backed: the user limit, bad flags, no frame for a table, or no free run of an order
   * to be asked for.
   */
  ghost predicate Starved(perms: set<Perm>, pool: set<nat>, b: Blocks, max: nat, pages: nat, end: nat) {
    USER_END < end || CfgFromFlags(perms).BadFlags? || pool == {} ||
    exists o: nat {:trigger OrderStarved(b, max, o)} :: Pow2(o) <= pages && OrderStarved(b, max, o)
  }

  /** The same regions, but that [lo, hi) of region `i` is backed now. */
  ghost predicate MoreBacked(rs: seq<Region>, rs': seq<Region>, i: nat, lo: nat, hi: nat) {
    && i < |rs| == |rs'| && rs' == rs[i := rs[i].(phys := rs'[i].phys)] && rs[i].phys <= rs'[i].phys
    && forall u: nat {:trigger Backed(rs'[i], u)} :: Backed(rs'[i], u) <==> Backed(rs[i], u) || lo <= u < hi
  }

  ghost predicate Shapes(rs: seq<Region>) {
    Sorted(rs) && forall i | 0 <= i < |rs| :: RegionShape(rs[i])
  }

  lemma BackedLow(rs: seq<Region>, i: nat, n: Phys, u: nat)
    requires Shapes(rs) && Backs(rs, i, n, u)
    ensures Inside(rs[i], u) && u < ADDRESS_SPACE
  {
    assert RegionShape(rs[i]) && NodeOk(rs[i], n);
  }

  lemma MapReady(rs: seq<Region>, i: nat, n: Phys, mem: Memory, root: nat, b: Blocks, pages: nat, max: nat, idx: nat,
                 order: nat)
    requires Shapes(rs) && i < |rs| && Agrees(rs, mem, root) && CfgFromFlags(rs[i].perms).Cfg?
    requires Tiled(b, pages, max) && pages < 0x1_0000_0000 && FreeRun(b, idx, order)
    requires n == Phys(idx * PAGE_SIZE, n.ua, Pow2(order))
    requires n.ua % PAGE_SIZE == 0 && rs[i].start <= n.ua && n.ua + n.count * PAGE_SIZE <= RegionEnd(rs[i])
    requires Unbacked(rs[i], n.ua, n.ua + n.count * PAGE_SIZE) && pages < Pow2(max + 1)
    requires n.ua + n.count * PAGE_SIZE <= USER_END
    ensures NodeOk(rs[i], n) && n.pa + n.count * PAGE_SIZE <= ADDRESS_SPACE
    ensures IsInRange(Lo, n.ua, n.count * PAGE_SIZE) && PageAligned(n.ua, n.pa, n.count * PAGE_SIZE)
    ensures !Obstructed(mem, root, n.ua, n.pa, n.count * PAGE_SIZE)
    ensures forall u: nat {:trigger BackedBy(rs, u)} | Holds(n, u) :: !BackedBy(rs, u)
  {
    FreeRunFits(b, pages, max, idx, order);
    hide Pow2, Obstructed, IsInRange, Agrees, Backed, CfgFromFlags, Tiled, FreeRun, Resolve;
    assert RegionShape(rs[i]);
    DivUnique(n.pa, PAGE_SIZE, idx, 0);
    DivUnique(n.count * PAGE_SIZE, PAGE_SIZE, n.count, 0);
    InRangeIff(Lo, n.ua, n.count * PAGE_SIZE);
    forall u: nat {:trigger BackedBy(rs, u)} | Holds(n, u) ensures !BackedBy(rs, u) {
      BackedRegion(rs, i, u);
      assert !Backed(rs[i], u);
    }
    forall a: nat {:trigger Resolve(mem, root, a)} | n.ua <= a < n.ua + n.count * PAGE_SIZE
      ensures !LastLevelPage(Resolve(mem, root, a))
    {
      assert Holds(n, a) && !BackedBy(rs, a);
      UntranslatedHole(rs, mem, root, a);
    }
    UnmappedFree(mem, root, n.ua, n.pa, n.count * PAGE_SIZE);
  }

  lemma UntranslatedHole(rs: seq<Region>, mem: Memory, root: nat, a: nat)
    requires Agrees(rs, mem, root) && a < ADDRESS_SPACE && !BackedBy(rs, a)
    ensures !LastLevelPage(Resolve(mem, root, a))
  {
    assert Translate(Resolve(mem, root, a)) == Unmapped;
  }

  lemma MapDone(rs: seq<Region>, i: nat, n: Phys, mem: Memory, mem': Memory, root: nat, a: map<nat, nat>, idx: nat,
                order: nat)
    requires Shapes(rs) && i < |rs| && Agrees(rs, mem, root) && PhysOk(rs, a) && CfgFromFlags(rs[i].perms).Cfg?
    requires NodeOk(rs[i], n)
    requires n == Phys(idx * PAGE_SIZE, n.ua, Pow2(order)) && idx !in a
    requires n.ua + n.count * PAGE_SIZE <= USER_END && n.pa + n.count * PAGE_SIZE <= ADDRESS_SPACE
    requires Unbacked(rs[i], n.ua, n.ua + n.count * PAGE_SIZE)
    requires forall u: nat {:trigger BackedBy(rs, u)} | Holds(n, u) :: !BackedBy(rs, u)
    requires MapsFlat(mem, mem', root, n.ua, n.pa, n.count * PAGE_SIZE, CfgFromFlags(rs[i].perms).cfg)
    ensures var rs' := rs[i := WithNode(rs[i], n)];
            && Shapes(rs') && Agrees(rs', mem', root) && PhysOk(rs', a[idx := order])
            && MoreBacked(rs, rs', i, n.ua, n.ua + n.count * PAGE_SIZE) &&
            Foreign(rs', a[idx := order]) == Foreign(rs, a)
  {
    hide Pow2, MapsFlat, CfgFromFlags, PhysOk, Agrees, Backed, BackedBy, Foreign;
    ForeignAdded(rs, i, n, a, idx, order);
    assert RegionShape(rs[i]);
    NodeAdded(rs[i], n);
    DivUnique(n.pa, PAGE_SIZE, idx, 0);
    PhysAdded(rs, a, i, n, order);
    forall j: nat, m, u: nat {:trigger Backs(rs, j, m, u)} | Backs(rs, j, m, u)
      ensures u < ADDRESS_SPACE
    {
      BackedLow(rs, j, m, u);
    }
    AgreesAdded(rs, i, n, mem, mem', root);
  }

  /**
   * The insertion of a block detects an overlap only with a block of the same start that its search meets, and then an
   * assertion fails. Where it goes through, regions and tables agree exactly when no page of the range was backed.
   */
  lemma MapAgreesIff(rs: seq<Region>, i: nat, n: Phys, mem: Memory, mem': Memory, root: nat, a: map<nat, nat>,
                     b': Blocks, pages: nat, max: nat, idx: nat, order: nat)
    requires Shapes(rs) && i < |rs| && Agrees(rs, mem, root) && PhysOk(rs, a) && CfgFromFlags(rs[i].perms).Cfg?
    requires NodeOk(rs[i], n)
    requires n == Phys(idx * PAGE_SIZE, n.ua, Pow2(order)) && idx !in a && Tiled(b', pages, max)
    requires Allocated(b') == a[idx := order]
    requires n.ua + n.count * PAGE_SIZE <= USER_END && n.pa + n.count * PAGE_SIZE <= ADDRESS_SPACE
    requires MapsFlat(mem, mem', root, n.ua, n.pa, n.count * PAGE_SIZE, CfgFromFlags(rs[i].perms).cfg)
    ensures Agrees(rs[i := WithNode(rs[i], n)], mem', root) <==> Unbacked(rs[i], n.ua, n.ua + n.count * PAGE_SIZE)
  {
    hide Pow2, MapsFlat, CfgFromFlags, PhysOk, Agrees, BackedBy, Tiled, Allocated, Resolve, Shapes, RegionShape;
    if Unbacked(rs[i], n.ua, n.ua + n.count * PAGE_SIZE) {
      forall u: nat {:trigger BackedBy(rs, u)} | Holds(n, u) ensures !BackedBy(rs, u) { UnbackedBy(rs, i, n, u); }
      MapDone(rs, i, n, mem, mem', root, a, idx, order);
    } else {
      var u: nat :| n.ua <= u < n.ua + n.count * PAGE_SIZE && Backed(rs[i], u);
      var m :| m in rs[i].phys && Holds(m, u);
      Replaced(rs, i, n, m, mem, mem', root, a, b', pages, max, idx, order, u);
    }
  }

  lemma UnbackedBy(rs: seq<Region>, i: nat, n: Phys, u: nat)
    requires Shapes(rs) && i < |rs| && NodeOk(rs[i], n) && Holds(n, u)
    requires Unbacked(rs[i], n.ua, n.ua + n.count * PAGE_SIZE)
    ensures !BackedBy(rs, u)
  {
    BackedRegion(rs, i, u);
    assert !Backed(rs[i], u);
  }

  /** A page that had a block is translated to the new one. */
  lemma Replaced(rs: seq<Region>, i: nat, n: Phys, m: Phys, mem: Memory, mem': Memory, root: nat, a: map<nat, nat>,
                 b': Blocks, pages: nat, max: nat, idx: nat, order: nat, u: nat)
    requires i < |rs| && PhysOk(rs, a) && CfgFromFlags(rs[i].perms).Cfg? && Backs(rs, i, m, u) && Holds(n, u)
    requires u < ADDRESS_SPACE
    requires n == Phys(idx * PAGE_SIZE, n.ua, Pow2(order)) && idx !in a && Tiled(b', pages, max)
    requires Allocated(b') == a[idx := order]
    requires n.ua + n.count * PAGE_SIZE <= ADDRESS_SPACE && n.pa + n.count * PAGE_SIZE <= ADDRESS_SPACE
    requires MapsFlat(mem, mem', root, n.ua, n.pa, n.count * PAGE_SIZE, CfgFromFlags(rs[i].perms).cfg)
    ensures !Agrees(rs[i := WithNode(rs[i], n)], mem', root)
  {
    hide Pow2, CfgFromFlags, Tiled, Allocated, Resolve, Truncated;
    var rs' := rs[i := WithNode(rs[i], n)];
    DivUnique(n.pa, PAGE_SIZE, idx, 0);
    PhysAdded(rs, a, i, n, order);
    assert m in rs[i].phys && AllocatedNode(a, m);
    assert Backs(rs', i, m, u) && Backs(rs', i, n, u);
    if n.pa + (u - n.ua) == m.pa + (u - m.ua) {
      PhysApart(rs', b', pages, max, i, n, u, i, m, u);
    }
  }

  lemma MoreBackedTrans(rs: seq<Region>, rs1: seq<Region>, rs2: seq<Region>, i: nat, lo: nat, mid: nat, hi: nat)
    requires MoreBacked(rs, rs1, i, lo, mid) && MoreBacked(rs1, rs2, i, mid, hi) && lo <= mid <= hi
    ensures MoreBacked(rs, rs2, i, lo, hi)
  {
    assert rs2 == rs[i := rs[i].(phys := rs2[i].phys)];
    forall u: nat {:trigger Backed(rs2[i], u)} ensures Backed(rs2[i], u) <==> Backed(rs[i], u) || lo <= u < hi {
      assert Backed(rs1[i], u) <==> Backed(rs[i], u) || lo <= u < mid;
    }
  }

  lemma RestUnbacked(rs: seq<Region>, rs1: seq<Region>, i: nat, lo: nat, mid: nat, hi: nat)
    requires MoreBacked(rs, rs1, i, lo, mid) && Unbacked(rs[i], lo, hi) && lo <= mid <= hi
    ensures Unbacked(rs1[i], mid, hi)
  {
    forall u: nat {:trigger Backed(rs1[i], u)} | mid <= u < hi ensures !Backed(rs1[i], u) {
      assert !Backed(rs[i], u);
    }
  }

  lemma FirstUnbacked(r: Region, lo: nat, mid: nat, hi: nat)
    requires Unbacked(r, lo, hi) && mid <= hi
    ensures Unbacked(r, lo, mid)
  {
  }

  lemma SameEnd(rs: seq<Region>, rs1: seq<Region>, i: nat, lo: nat, hi: nat)
    requires MoreBacked(rs, rs1, i, lo, hi)
    ensures i < |rs1| && rs1[i] == rs[i].(phys := rs1[i].phys) && RegionEnd(rs1[i]) == RegionEnd(rs[i])
  {
  }

  lemma NothingMore(rs: seq<Region>, i: nat, lo: nat)
    requires i < |rs|
    ensures MoreBacked(rs, rs, i, lo, lo)
  {
    assert rs == rs[i := rs[i].(phys := rs[i].phys)];
  }

  // Commit bits

  function CountSet(bits: seq<bool>): nat {
    if bits == [] then 0 else CountSet(bits[..|bits| - 1]) + if bits[|bits| - 1] then 1 else 0
  }

  lemma {:induction false} CountSetFull(bits: seq<bool>)
    ensures CountSet(bits) <= |bits| && (CountSet(bits) == |bits| <==> forall i | 0 <= i < |bits| :: bits[i])
    ensures CountSet(bits) == 0 <==> forall i | 0 <= i < |bits| :: !bits[i]
    decreases |bits|
  {
    if bits != [] {
      var n := |bits| - 1;
      CountSetFull(bits[..n]);
      if forall i | 0 <= i < n :: bits[..n][i] { assert forall i | 0 <= i < n :: bits[i]; }
      if forall i | 0 <= i < |bits| :: bits[i] { assert forall i | 0 <= i < n :: bits[..n][i]; }
      if forall i | 0 <= i < |bits| :: !bits[i] { assert forall i | 0 <= i < n :: !bits[..n][i]; }
    }
  }

  /** The bits of pages [k, k + pages) are set, the others kept. */
  ghost predicate BitsSet(bits: seq<bool>, bits': seq<bool>, k: nat, pages: nat) {
    |bits'| == |bits| && forall i | 0 <= i < |bits| :: bits'[i] == (bits[i] || k <= i < k + pages)
  }

  lemma SomeSet(bits: seq<bool>, bits': seq<bool>, k: nat, pages: nat)
    requires BitsSet(bits, bits', k, pages) && pages > 0 && k + pages <= |bits|
    ensures CountSet(bits') > 0
  {
    CountSetFull(bits');
    assert bits'[k];
  }

  /** What `commit` leaves of a region. */
  ghost predicate Marked(r: Region, r': Region, lo: nat, hi: nat)
    requires |r.committed| == r.pages && |r'.committed| == r'.pages
  {
    && r'.start == r.start && r'.pages == r.pages && r'.perms == r.perms && r.phys <= r'.phys
    && forall u: nat {:trigger Inside(r', u)} | Inside(r', u) ::
         Inside(r, u) && (CommitBit(r', u) <==> CommitBit(r, u) || lo <= u < hi)
  }

  lemma PageOf(start: nat, k: nat, pages: nat, u: nat)
    requires u >= start
    ensures k <= (u - start) / PAGE_SIZE < k + pages <==> start + k * PAGE_SIZE <= u < start + (k + pages) * PAGE_SIZE
  {
    var q, o := (u - start) / PAGE_SIZE, (u - start) % PAGE_SIZE;
    assert u == start + q * PAGE_SIZE + o;
  }

  lemma CommitMarked(rs: seq<Region>, i: nat, rs1: seq<Region>, k: nat, pages: nat, bits: seq<bool>, full: bool)
    requires i < |rs| && RegionOk(rs[i]) && i < |rs1|
    requires RegionShape(rs1[i].(hasPhys := rs[i].hasPhys, full := rs[i].full))
    requires rs1[i] == rs[i].(phys := rs1[i].phys, hasPhys := rs1[i].hasPhys, full := rs1[i].full)
    requires rs[i].phys <= rs1[i].phys
    requires var lo, hi := rs[i].start + k * PAGE_SIZE, rs[i].start + (k + pages) * PAGE_SIZE;
             && hi <= RegionEnd(rs[i])
             && (forall u: nat {:trigger Backed(rs1[i], u)} :: Backed(rs1[i], u) <==> Backed(rs[i], u) || lo <= u < hi)
    requires BitsSet(rs[i].committed, bits, k, pages) && (full ==> forall j | 0 <= j < |bits| :: bits[j])
    ensures var r' := rs1[i].(committed := bits, hasPhys := true, full := full);
            RegionOk(r') && Marked(rs[i], r', rs[i].start + k * PAGE_SIZE, rs[i].start + (k + pages) * PAGE_SIZE)
  {
    var r, r' := rs[i], rs1[i].(committed := bits, hasPhys := true, full := full);
    var lo, hi := r.start + k * PAGE_SIZE, r.start + (k + pages) * PAGE_SIZE;
    forall n {:trigger NodeOk(r', n)} | n in r'.phys
      ensures NodeOk(r', n)
    {
      assert NodeOk(rs1[i].(hasPhys := rs[i].hasPhys, full := rs[i].full), n);
    }
    forall u: nat {:trigger Inside(r', u)} | Inside(r', u)
      ensures Inside(r, u) && (CommitBit(r', u) <==> CommitBit(r, u) || lo <= u < hi)
      ensures (Backed(r', u) <==> CommitBit(r', u))
    {
      assert Inside(r, u);
      PageOf(r.start, k, pages, u);
      SameBacked(rs1[i], r', u);
    }
  }

  lemma SameBacked(r: Region, r': Region, u: nat)
    requires r'.phys == r.phys
    ensures Backed(r', u) <==> Backed(r, u)
  {
    if Backed(r, u) { var n :| n in r.phys && Holds(n, u); assert n in r'.phys; }
    if Backed(r', u) { var n :| n in r'.phys && Holds(n, u); assert n in r.phys; }
  }

  /** Agreement speaks only of blocks and permissions. */
  lemma SameBacking(rs: seq<Region>, rs': seq<Region>, mem: Memory, root: nat, a: map<nat, nat>)
    requires Agrees(rs, mem, root) && PhysOk(rs, a) && |rs'| == |rs|
    requires forall j | 0 <= j < |rs| :: rs'[j].phys == rs[j].phys && rs'[j].perms == rs[j].perms
    ensures Agrees(rs', mem, root) && PhysOk(rs', a)
  {
    hide Resolve, CfgFromFlags, Truncated;
    forall i: nat, n, u: nat {:trigger Backs(rs', i, n, u)} | Backs(rs', i, n, u)
      ensures CfgFromFlags(rs'[i].perms).Cfg?
      ensures Translate(Resolve(mem, root, u)) == Mapped(Truncated(CfgFromFlags(rs'[i].perms).cfg), n.pa + (u - n.ua))
    {
      assert rs'[i].phys == rs[i].phys && Backs(rs, i, n, u);
    }
    forall u: nat {:trigger Resolve(mem, root, u)} | u < ADDRESS_SPACE && !BackedBy(rs', u)
      ensures Translate(Resolve(mem, root, u)) == Unmapped
    {
      SameBackedBy(rs, rs', u);
    }
    forall i: nat, n {:trigger n in rs'[i].phys} | i < |rs'| && n in rs'[i].phys ensures AllocatedNode(a, n) {
      assert rs'[i].phys == rs[i].phys && n in rs[i].phys;
    }
    forall i: nat, n, j: nat, m {:trigger n in rs'[i].phys, m in rs'[j].phys} |
      i < |rs'| && n in rs'[i].phys && j < |rs'| && m in rs'[j].phys && n.pa == m.pa
      ensures i == j && n == m
    {
      assert rs'[i].phys == rs[i].phys && rs'[j].phys == rs[j].phys;
      assert n in rs[i].phys && m in rs[j].phys;
    }
  }

  lemma SameBackedBy(rs: seq<Region>, rs': seq<Region>, u: nat)
    requires |rs'| == |rs| && forall j | 0 <= j < |rs| :: rs'[j].phys == rs[j].phys
    ensures BackedBy(rs, u) ==> BackedBy(rs', u)
  {
    if BackedBy(rs, u) {
      var i: nat, n :| Backs(rs, i, n, u);
      assert rs'[i].phys == rs[i].phys && Backs(rs', i, n, u);
    }
  }

  /** Bits and flags of one region are rewritten. */
  lemma Reflagged(rs: seq<Region>, i: nat, r': Region, mem: Memory, root: nat, a: map<nat, nat>)
    requires Shapes(rs) && Agrees(rs, mem, root) && PhysOk(rs, a) && i < |rs| && RegionShape(r')
    requires r' == rs[i].(committed := r'.committed, hasPhys := r'.hasPhys, full := r'.full)
    ensures Shapes(rs[i := r']) && Agrees(rs[i := r'], mem, root) && PhysOk(rs[i := r'], a)
  {
    hide Agrees, PhysOk, RegionShape;
    SameBacking(rs, rs[i := r'], mem, root, a);
  }

  lemma ShapeFlagged(r: Region)
    requires RegionShape(r)
    ensures RegionShape(r.(hasPhys := true))
  {
    var r' := r.(hasPhys := true);
    forall n {:trigger NodeOk(r', n)} | n in r'.phys ensures NodeOk(r', n) { assert NodeOk(r, n); }
  }

  lemma PageIndex(start: nat, va: nat, pages: nat, all: nat)
    requires start % PAGE_SIZE == 0 && va % PAGE_SIZE == 0 && start <= va
    requires va + pages * PAGE_SIZE <= start + all * PAGE_SIZE
    ensures var k := (va - start) / PAGE_SIZE;
            start + k * PAGE_SIZE == va && start + (k + pages) * PAGE_SIZE == va + pages * PAGE_SIZE && k + pages <= all
  {
    DivUnique(va - start, PAGE_SIZE, va / PAGE_SIZE - start / PAGE_SIZE, 0);
  }

  lemma OkShape(r: Region)
    requires RegionOk(r)
    ensures RegionShape(r) && |r.committed| == r.pages && r.start % PAGE_SIZE == 0
  {
  }

  lemma UnbackedFlag(r: Region, r': Region, lo: nat, hi: nat)
    requires Unbacked(r, lo, hi) && r'.phys == r.phys
    ensures Unbacked(r', lo, hi)
  {
    forall u: nat {:trigger Backed(r', u)} | lo <= u < hi
      ensures !Backed(r', u)
    {
      SameBacked(r, r', u);
      assert !Backed(r, u);
    }
  }

  /** Only region `i` changed: [lo, hi) of it is committed now. */
  ghost predicate Committed(rs: seq<Region>, rs': seq<Region>, i: nat, lo: nat, hi: nat) {
    && i < |rs| == |rs'| && rs' == rs[i := rs'[i]]
    && |rs[i].committed| == rs[i].pages && |rs'[i].committed| == rs'[i].pages && Marked(rs[i], rs'[i], lo, hi)
  }

  lemma CommitStep(rs: seq<Region>, rs1: seq<Region>, rs2: seq<Region>, i: nat, k: nat, pages: nat, bits: seq<bool>,
                   full: bool)
    requires i < |rs| == |rs1| && RegionOk(rs[i]) && rs1 == rs[i := rs[i].(hasPhys := rs1[i].hasPhys)]
    requires Shapes(rs2) && MoreBacked(rs1, rs2, i, rs[i].start + k * PAGE_SIZE, rs[i].start + (k + pages) * PAGE_SIZE)
    requires rs[i].start + (k + pages) * PAGE_SIZE <= RegionEnd(rs[i])
    requires BitsSet(rs[i].committed, bits, k, pages) && (full ==> forall j | 0 <= j < |bits| :: bits[j])
    ensures var r' := rs2[i].(committed := bits, hasPhys := true, full := full);
            && RegionShape(r') && RegionOk(r') && |r'.committed| == r'.pages
            && Committed(rs, rs2[i := r'], i, rs[i].start + k * PAGE_SIZE, rs[i].start + (k + pages) * PAGE_SIZE)
  {
    var r' := rs2[i].(committed := bits, hasPhys := true, full := full);
    assert RegionShape(rs2[i]);
    var lo, hi := rs[i].start + k * PAGE_SIZE, rs[i].start + (k + pages) * PAGE_SIZE;
    forall u: nat {:trigger Backed(rs2[i], u)} ensures Backed(rs2[i], u) <==> Backed(rs[i], u) || lo <= u < hi {
      SameBacked(rs[i], rs1[i], u);
    }
    ShapeBack(rs2[i], rs[i]);
    CommitMarked(rs, i, rs2, k, pages, bits, full);
  }

  lemma ShapeBack(r: Region, was: Region)
    requires RegionShape(r) && RegionShape(was) && r.committed == was.committed && r.pages == was.pages
    ensures RegionShape(r.(hasPhys := was.hasPhys, full := was.full))
  {
    var r' := r.(hasPhys := was.hasPhys, full := was.full);
    forall n {:trigger NodeOk(r', n)} | n in r'.phys ensures NodeOk(r', n) { assert NodeOk(r, n); }
  }

  // Reserving

  predicate Overlap(r: Region, r': Region) {
    !(RegionEnd(r) <= r'.start) && !(r.start >= RegionEnd(r'))
  }

  function NewRegion(start: nat, pages: nat, perms: set<Perm>): Region {
    Region(start, pages, perms, seq(pages, _ => false), {}, false, false)
  }

  lemma NewRegionOk(start: nat, pages: nat, perms: set<Perm>)
    requires start % PAGE_SIZE == 0 && pages < U32 && start + pages * PAGE_SIZE < U64
    ensures RegionOk(NewRegion(start, pages, perms))
  {
    var r := NewRegion(start, pages, perms);
    forall u: nat {:trigger Inside(r, u)} | Inside(r, u) ensures !Backed(r, u) && !CommitBit(r, u) { }
  }

  lemma InsertedAt(rs: seq<Region>, k: nat, r: Region)
    requires k <= |rs|
    ensures |Inserted(rs, k, r)| == |rs| + 1
    ensures forall j | 0 <= j < |rs| + 1 ::
              Inserted(rs, k, r)[j] == if j < k then rs[j] else if j == k then r else rs[j - 1]
  {
  }

  lemma InsertedShapes(rs: seq<Region>, k: nat, r: Region)
    requires Shapes(rs) && k <= |rs| && RegionShape(r)
    requires (forall j | 0 <= j < k :: RegionEnd(rs[j]) <= r.start)
    requires (forall j | k <= j < |rs| :: RegionEnd(r) <= rs[j].start)
    ensures Shapes(Inserted(rs, k, r))
  {
    hide RegionShape;
    InsertedAt(rs, k, r);
  }

  lemma InsertedAgrees(rs: seq<Region>, k: nat, r: Region, mem: Memory, root: nat)
    requires Agrees(rs, mem, root) && k <= |rs| && r.phys == {}
    ensures Agrees(Inserted(rs, k, r), mem, root)
  {
    hide Resolve, CfgFromFlags, Truncated;
    InsertedAt(rs, k, r);
    var rs' := Inserted(rs, k, r);
    hide Inserted;
    forall i: nat, n, u: nat {:trigger Backs(rs', i, n, u)} | Backs(rs', i, n, u)
      ensures CfgFromFlags(rs'[i].perms).Cfg?
      ensures Translate(Resolve(mem, root, u)) == Mapped(Truncated(CfgFromFlags(rs'[i].perms).cfg), n.pa + (u - n.ua))
    {
      assert Backs(rs, if i < k then i else i - 1, n, u);
    }
    forall u: nat {:trigger Resolve(mem, root, u)} | u < ADDRESS_SPACE && !BackedBy(rs', u)
      ensures Translate(Resolve(mem, root, u)) == Unmapped
    {
      InsertedBacked(rs, k, r, u);
    }
  }

  lemma InsertedPhys(rs: seq<Region>, k: nat, r: Region, a: map<nat, nat>)
    requires PhysOk(rs, a) && k <= |rs| && r.phys == {}
    ensures PhysOk(Inserted(rs, k, r), a)
  {
    InsertedAt(rs, k, r);
    var rs' := Inserted(rs, k, r);
    hide Inserted, AllocatedNode;
    forall i: nat, n {:trigger n in rs'[i].phys} | i < |rs'| && n in rs'[i].phys ensures AllocatedNode(a, n) {
      assert n in rs[if i < k then i else i - 1].phys;
    }
    forall i: nat, n, j: nat, m {:trigger n in rs'[i].phys, m in rs'[j].phys} |
      i < |rs'| && n in rs'[i].phys && j < |rs'| && m in rs'[j].phys && n.pa == m.pa
      ensures i == j && n == m
    {
      assert n in rs[if i < k then i else i - 1].phys && m in rs[if j < k then j else j - 1].phys;
    }
  }

  lemma InsertedBacked(rs: seq<Region>, k: nat, r: Region, u: nat)
    requires k <= |rs|
    ensures BackedBy(rs, u) ==> BackedBy(Inserted(rs, k, r), u)
  {
    if BackedBy(rs, u) {
      var i: nat, n :| Backs(rs, i, n, u);
      var j := if i < k then i else i + 1;
      assert Inserted(rs, k, r)[j] == rs[i];
      assert Backs(Inserted(rs, k, r), j, n, u);
    }
  }

  // Access

  predicate Allowed(r: Region, required: set<Perm>, forbidden: set<Perm>) {
    required <= r.perms && r.perms !! forbidden
  }

  /** The address is in a region that allows the access and is committed there. */
  ghost predicate Accessible(rs: seq<Region>, required: set<Perm>, forbidden: set<Perm>, u: nat) {
    exists i: nat {:trigger rs[i]} ::
      i < |rs| && Inside(rs[i], u) && Allowed(rs[i], required, forbidden) && |rs[i].committed| == rs[i].pages &&
      CommitBit(rs[i], u)
  }

  function AlignDown(x: nat): nat {
    x - x % PAGE_SIZE
  }

  /** The physical block behind a committed address, and what the tables say of it. */
  lemma CommittedBlock(rs: seq<Region>, mem: Memory, root: nat, i: nat, u: nat) returns (n: Phys)
    requires i < |rs| && Shapes(rs) && RegionOk(rs[i]) && Agrees(rs, mem, root) && Inside(rs[i], u)
    requires CommitBit(rs[i], u)
    ensures n in rs[i].phys && Backs(rs, i, n, u) && NodeOk(rs[i], n)
    ensures Translate(Resolve(mem, root, u)).Mapped? && Translate(Resolve(mem, root, u)).pa == n.pa + (u - n.ua)
  {
    assert Backed(rs[i], u);
    n :| n in rs[i].phys && Holds(n, u);
    assert Backs(rs, i, n, u) && NodeOk(rs[i], n);
  }

  // Access checks and commit on demand

  /**
   * At `NullRegion` a copy meets an address in no region, and the source follows a null link; at `StaleBlock` it meets
   * one without a block, and the source copies on with the block of an earlier address.
   */
  datatype Access = AccessOk | NotReserved | NotCommitted | NoPermission | AccessPanic | AccessReplaces
                  | NullRegion | StaleBlock

  /** How the search for the block behind an address ends. */
  datatype Lookup = Found | NoRegion | NoBlock

  predicate CopyFault(r: Access) {
    r == NullRegion || r == StaleBlock
  }

  ghost predicate InNoRegion(rs: seq<Region>, u: nat) {
    forall j | 0 <= j < |rs| :: !Inside(rs[j], u)
  }

  /** The address is in a region, and not committed there. */
  ghost predicate InUncommitted(rs: seq<Region>, u: nat) {
    exists j: nat {:trigger rs[j]} ::
      j < |rs| && Inside(rs[j], u) && |rs[j].committed| == rs[j].pages && !CommitBit(rs[j], u)
  }

  /** `uma_t`: pages of one region to commit. */
  datatype Area = Area(i: nat, ua: nat, pages: nat)

  predicate InArea(e: Area, i: nat, u: nat) {
    e.i == i && e.ua <= u < e.ua + e.pages * PAGE_SIZE
  }

  /** The part of a region in [lo, hi), and not committed throughout. */
  ghost predicate AreaOk(rs: seq<Region>, e: Area, lo: nat, hi: nat) {
    && e.i < |rs| && |rs[e.i].committed| == rs[e.i].pages && e.ua % PAGE_SIZE == 0
    && e.ua == (if rs[e.i].start < lo then lo else rs[e.i].start)
    && e.ua + e.pages * PAGE_SIZE == (if hi < RegionEnd(rs[e.i]) then hi else RegionEnd(rs[e.i]))
    && !CommittedRange(rs[e.i], e.ua, e.ua + e.pages * PAGE_SIZE)
  }

  /** The areas of the regions that end by `cursor`, in different regions. */
  ghost predicate Collected(rs: seq<Region>, todo: seq<Area>, lo: nat, hi: nat, cursor: nat) {
    && (forall k | 0 <= k < |todo| ::
          AreaOk(rs, todo[k], lo, hi) && todo[k].i < |rs| && (RegionEnd(rs[todo[k].i]) <= cursor || hi <= cursor))
    && (forall a, b | 0 <= a < b < |todo| :: todo[a].i != todo[b].i)
  }

  lemma NothingCollected(rs: seq<Region>, lo: nat, hi: nat)
    ensures Collected(rs, [], lo, hi, lo)
  {
  }

  lemma CollectedKept(rs: seq<Region>, todo: seq<Area>, lo: nat, hi: nat, cursor: nat, end: nat)
    requires Collected(rs, todo, lo, hi, cursor) && cursor <= end
    ensures Collected(rs, todo, lo, hi, end)
  {
    hide AreaOk;
  }

  lemma CollectedMore(rs: seq<Region>, todo: seq<Area>, lo: nat, hi: nat, cursor: nat, end: nat, x: Area)
    requires Collected(rs, todo, lo, hi, cursor) && AreaOk(rs, x, lo, hi) && x.i < |rs|
    requires cursor < hi && cursor < RegionEnd(rs[x.i]) && cursor <= end && (end == hi || end == RegionEnd(rs[x.i]))
    ensures Collected(rs, todo + [x], lo, hi, end)
  {
    hide AreaOk;
  }

  lemma CollectedMeans(rs: seq<Region>, todo: seq<Area>, lo: nat, hi: nat, cursor: nat)
    requires Collected(rs, todo, lo, hi, cursor)
    ensures forall k | 0 <= k < |todo| :: AreaOk(rs, todo[k], lo, hi)
    ensures forall a, b | 0 <= a < b < |todo| :: todo[a].i != todo[b].i
  {
  }

  predicate InAreas(todo: seq<Area>, i: nat, u: nat) {
    exists k | 0 <= k < |todo| :: InArea(todo[k], i, u)
  }

  /** Allowed, and committed or about to be. */
  ghost predicate Granted(rs: seq<Region>, todo: seq<Area>, required: set<Perm>, forbidden: set<Perm>, u: nat) {
    exists i: nat {:trigger rs[i]} ::
      i < |rs| && Inside(rs[i], u) && Allowed(rs[i], required, forbidden) && |rs[i].committed| == rs[i].pages &&
      (CommitBit(rs[i], u) || InAreas(todo, i, u))
  }

  /** The range holds only committed or only uncommitted pages of the region. */
  ghost predicate Unmixed(r: Region, lo: nat, hi: nat) {
    |r.committed| == r.pages &&
    ((forall u: nat {:trigger Inside(r, u)} | lo <= u < hi && Inside(r, u) :: CommitBit(r, u)) ||
     (forall u: nat {:trigger Inside(r, u)} | lo <= u < hi && Inside(r, u) :: !CommitBit(r, u)))
  }

  ghost predicate AllOrNothing(rs: seq<Region>, lo: nat, hi: nat) {
    forall i: nat {:trigger rs[i]} | i < |rs| :: Unmixed(rs[i], lo, hi)
  }

  ghost predicate AllGranted(rs: seq<Region>, todo: seq<Area>, required: set<Perm>, forbidden: set<Perm>, lo: nat,
                             hi: nat) {
    forall u: nat {:trigger Granted(rs, todo, required, forbidden, u)} | lo <= u < hi ::
      Granted(rs, todo, required, forbidden, u)
  }

  lemma GrantChunk(rs: seq<Region>, todo: seq<Area>, todo': seq<Area>, required: set<Perm>, forbidden: set<Perm>,
                   lo: nat, mid: nat, hi: nat, i: nat)
    requires AllGranted(rs, todo, required, forbidden, lo, mid) && todo <= todo' && i < |rs|
    requires Allowed(rs[i], required, forbidden)
    requires rs[i].start <= mid <= hi <= RegionEnd(rs[i]) && |rs[i].committed| == rs[i].pages
    requires forall u: nat {:trigger Inside(rs[i], u)} | mid <= u < hi ::
               Inside(rs[i], u) && (CommitBit(rs[i], u) || InAreas(todo', i, u))
    ensures AllGranted(rs, todo', required, forbidden, lo, hi)
  {
    forall u: nat {:trigger Granted(rs, todo', required, forbidden, u)} | lo <= u < hi
      ensures Granted(rs, todo', required, forbidden, u)
    {
      if u < mid {
        assert Granted(rs, todo, required, forbidden, u);
        var j: nat :| j < |rs| && Inside(rs[j], u) && Allowed(rs[j], required, forbidden) &&
        |rs[j].committed| == rs[j].pages &&
                      (CommitBit(rs[j], u) || InAreas(todo, j, u));
        if InAreas(todo, j, u) {
          var k :| 0 <= k < |todo| && InArea(todo[k], j, u);
          assert InArea(todo'[k], j, u);
        }
      } else {
        assert Inside(rs[i], u);
      }
    }
  }

  /** Unless it is where the range starts, no region reaches over the cursor. */
  ghost predicate NoneStraddles(rs: seq<Region>, lo: nat, cursor: nat) {
    cursor == lo || forall j | 0 <= j < |rs| && rs[j].start < cursor :: RegionEnd(rs[j]) <= cursor
  }

  lemma StraddlesStart(rs: seq<Region>, lo: nat)
    ensures NoneStraddles(rs, lo, lo)
  {
  }

  lemma StraddlesNext(rs: seq<Region>, lo: nat, i: nat, end: nat)
    requires Sorted(rs) && i < |rs|
    ensures end == RegionEnd(rs[i]) ==> NoneStraddles(rs, lo, end)
  {
  }

  lemma AreaStart(rs: seq<Region>, lo: nat, cursor: nat, i: nat)
    requires NoneStraddles(rs, lo, cursor) && lo <= cursor && i < |rs| && Inside(rs[i], cursor)
    ensures cursor == if rs[i].start < lo then lo else rs[i].start
  {
  }

  lemma NewArea(rs: seq<Region>, lo: nat, hi: nat, i: nat, cursor: nat, end: nat)
    requires i < |rs| && RegionOk(rs[i]) && cursor < end && cursor % PAGE_SIZE == 0 && end % PAGE_SIZE == 0
    requires cursor == (if rs[i].start < lo then lo else rs[i].start)
    requires end == (if hi < RegionEnd(rs[i]) then hi else RegionEnd(rs[i]))
    requires !CommittedRange(rs[i], cursor, end)
    ensures var e := Area(i, cursor, (end - cursor) / PAGE_SIZE);
            AreaOk(rs, e, lo, hi) && e.ua + e.pages * PAGE_SIZE == end
  {
    DivUnique(end - cursor, PAGE_SIZE, end / PAGE_SIZE - cursor / PAGE_SIZE, 0);
  }

  /** What the second pass has done after `k` areas. */
  ghost predicate CommittedAreas(rs0: seq<Region>, rs: seq<Region>, todo: seq<Area>, k: nat) {
    && |rs| == |rs0| && k <= |todo|
    && (forall j | 0 <= j < |rs| :: |rs0[j].committed| == rs0[j].pages && |rs[j].committed| == rs[j].pages)
    && (forall j: nat {:trigger rs[j]} | j < |rs| && (forall m | 0 <= m < k :: todo[m].i != j) :: rs[j] == rs0[j])
    && (forall m | 0 <= m < k ::
          todo[m].i < |rs| && Marked(rs0[todo[m].i], rs[todo[m].i], todo[m].ua, todo[m].ua + todo[m].pages * PAGE_SIZE))
  }

  lemma AreaCommitted(rs0: seq<Region>, rs: seq<Region>, rs': seq<Region>, todo: seq<Area>, k: nat)
    requires CommittedAreas(rs0, rs, todo, k) && k < |todo| && todo[k].i < |rs|
    requires forall a, b | 0 <= a < b < |todo| :: todo[a].i != todo[b].i
    requires Committed(rs, rs', todo[k].i, todo[k].ua, todo[k].ua + todo[k].pages * PAGE_SIZE)
    ensures CommittedAreas(rs0, rs', todo, k + 1)
  {
    var i := todo[k].i;
    assert rs[i] == rs0[i];
    forall j: nat {:trigger rs'[j]} | j < |rs'| && (forall m | 0 <= m < k + 1 :: todo[m].i != j)
      ensures rs'[j] == rs0[j]
    {
      assert todo[k].i != j && rs'[j] == rs[j];
    }
    forall m | 0 <= m < k + 1
      ensures todo[m].i < |rs'|
      ensures Marked(rs0[todo[m].i], rs'[todo[m].i], todo[m].ua, todo[m].ua + todo[m].pages * PAGE_SIZE)
    {
      if m < k { assert rs'[todo[m].i] == rs[todo[m].i]; }
    }
  }

  lemma AllAccessible(rs0: seq<Region>, rs: seq<Region>, todo: seq<Area>, required: set<Perm>, forbidden: set<Perm>,
                      lo: nat, hi: nat)
    requires CommittedAreas(rs0, rs, todo, |todo|) && AllGranted(rs0, todo, required, forbidden, lo, hi)
    ensures AllAccess(rs, required, forbidden, lo, hi)
  {
    forall u: nat {:trigger Accessible(rs, required, forbidden, u)} | lo <= u < hi
      ensures Accessible(rs, required, forbidden, u)
    {
      assert Granted(rs0, todo, required, forbidden, u);
      var i: nat :| i < |rs0| && Inside(rs0[i], u) && Allowed(rs0[i], required, forbidden) &&
      |rs0[i].committed| == rs0[i].pages &&
                    (CommitBit(rs0[i], u) || InAreas(todo, i, u));
      if m :| 0 <= m < |todo| && todo[m].i == i {
        assert Marked(rs0[i], rs[i], todo[m].ua, todo[m].ua + todo[m].pages * PAGE_SIZE);
        assert Inside(rs[i], u);
        if InAreas(todo, i, u) {
          var k :| 0 <= k < |todo| && InArea(todo[k], i, u);
          assert Marked(rs0[i], rs[i], todo[k].ua, todo[k].ua + todo[k].pages * PAGE_SIZE);
        }
      } else {
        assert rs[i] == rs0[i];
      }
    }
  }

  ghost predicate CommittedRange(r: Region, lo: nat, hi: nat)
    requires |r.committed| == r.pages
  {
    forall u: nat {:trigger Inside(r, u)} | lo <= u < hi :: Inside(r, u) && CommitBit(r, u)
  }

  lemma ChunkSet(r: Region, start: nat, size: nat, first: nat, count: nat, u: nat)
    requires |r.committed| == r.pages && first + count <= r.pages && start == r.start + first * PAGE_SIZE
    requires size == count * PAGE_SIZE
    requires (forall j | first <= j < first + count :: r.committed[j]) && start <= u < start + size
    ensures Inside(r, u) && CommitBit(r, u)
  {
    PageOf(r.start, first, count, u);
    assert r.committed[(u - r.start) / PAGE_SIZE];
  }

  lemma ChunkUnset(r: Region, start: nat, size: nat, first: nat, count: nat, j: nat)
    requires |r.committed| == r.pages && first + count <= r.pages && start == r.start + first * PAGE_SIZE
    requires size == count * PAGE_SIZE
    requires first <= j < first + count && !r.committed[j]
    ensures !CommittedRange(r, start, start + size)
  {
    var u := r.start + j * PAGE_SIZE;
    DivUnique(u - r.start, PAGE_SIZE, j, 0);
    assert Inside(r, u) && !CommitBit(r, u);
  }

  /** Addresses of a chunk are committed exactly when the bits of its pages are set. */
  lemma ChunkBits(r: Region, start: nat, size: nat, first: nat, count: nat)
    requires |r.committed| == r.pages && first + count <= r.pages && start == r.start + first * PAGE_SIZE
    requires size == count * PAGE_SIZE
    ensures CommittedRange(r, start, start + size) <==> forall j | first <= j < first + count :: r.committed[j]
  {
    if j: nat :| first <= j < first + count && !r.committed[j] {
      ChunkUnset(r, start, size, first, count, j);
    } else {
      forall u: nat {:trigger Inside(r, u)} {:trigger CommitBit(r, u)} | start <= u < start + size
        ensures Inside(r, u) && CommitBit(r, u)
      {
        ChunkSet(r, start, size, first, count, u);
      }
    }
  }

  lemma NothingGranted(rs: seq<Region>, required: set<Perm>, forbidden: set<Perm>, lo: nat)
    ensures AllGranted(rs, [], required, forbidden, lo, lo)
  {
  }

  lemma NothingAbove(rs: seq<Region>, todo: seq<Area>, required: set<Perm>, forbidden: set<Perm>, lo: nat, cursor: nat,
                     hi: nat)
    requires AllGranted(rs, todo, required, forbidden, lo, cursor) && hi <= cursor
    ensures AllGranted(rs, todo, required, forbidden, lo, hi)
  {
  }

  lemma RegionAligned(r: Region)
    requires RegionShape(r)
    ensures RegionEnd(r) % PAGE_SIZE == 0
  {
    DivUnique(RegionEnd(r), PAGE_SIZE, r.start / PAGE_SIZE + r.pages, 0);
  }

  lemma AlignedDifference(a: nat, b: nat)
    requires a % PAGE_SIZE == 0 && b % PAGE_SIZE == 0 && b <= a
    ensures (a - b) % PAGE_SIZE == 0
  {
    DivUnique(a - b, PAGE_SIZE, a / PAGE_SIZE - b / PAGE_SIZE, 0);
  }

  lemma ChunkGranted(rs: seq<Region>, todo: seq<Area>, todo': seq<Area>, required: set<Perm>, forbidden: set<Perm>,
                     lo: nat, mid: nat, hi: nat, i: nat, committed: bool)
    requires AllGranted(rs, todo, required, forbidden, lo, mid) && i < |rs| && Allowed(rs[i], required, forbidden)
    requires |rs[i].committed| == rs[i].pages
    requires rs[i].start <= mid <= hi <= RegionEnd(rs[i])
    requires if committed then todo' == todo && CommittedRange(rs[i], mid, hi)
             else todo' == todo + [Area(i, mid, (hi - mid) / PAGE_SIZE)] &&
                  mid + (hi - mid) / PAGE_SIZE * PAGE_SIZE == hi
    ensures AllGranted(rs, todo', required, forbidden, lo, hi)
  {
    forall u: nat {:trigger Inside(rs[i], u)} | mid <= u < hi
      ensures Inside(rs[i], u) && (CommitBit(rs[i], u) || InAreas(todo', i, u))
    {
      assert Inside(rs[i], u);
      if !committed { assert InArea(todo'[|todo|], i, u); }
    }
    GrantChunk(rs, todo, todo', required, forbidden, lo, mid, hi, i);
  }

  ghost predicate AllAccess(rs: seq<Region>, required: set<Perm>, forbidden: set<Perm>, lo: nat, hi: nat) {
    forall u: nat {:trigger Accessible(rs, required, forbidden, u)} | lo <= u < hi ::
      Accessible(rs, required, forbidden, u)
  }

  /** The same regions, with their blocks, of which only pages in [lo, hi) are newly committed. */
  ghost predicate CommitsWithin(rs: seq<Region>, rs': seq<Region>, lo: nat, hi: nat) {
    && |rs'| == |rs|
    && forall j: nat {:trigger rs'[j]} | j < |rs| ::
         && rs'[j].start == rs[j].start && rs'[j].pages == rs[j].pages && rs'[j].perms == rs[j].perms &&
         rs[j].phys <= rs'[j].phys
         && |rs[j].committed| == |rs'[j].committed| == rs[j].pages
         && forall u: nat {:trigger Inside(rs'[j], u)} | Inside(rs'[j], u) && !(lo <= u < hi) ::
              Inside(rs[j], u) && (CommitBit(rs'[j], u) <==> CommitBit(rs[j], u))
  }

  lemma CommitsNothing(rs: seq<Region>, lo: nat, hi: nat)
    requires forall j | 0 <= j < |rs| :: RegionOk(rs[j])
    ensures CommitsWithin(rs, rs, lo, hi)
  {
    forall j: nat {:trigger rs[j]} | j < |rs| ensures |rs[j].committed| == rs[j].pages { OkShape(rs[j]); }
  }

  lemma CommitsAreas(rs0: seq<Region>, rs: seq<Region>, todo: seq<Area>, lo: nat, hi: nat)
    requires CommittedAreas(rs0, rs, todo, |todo|) && forall k | 0 <= k < |todo| :: AreaOk(rs0, todo[k], lo, hi)
    ensures CommitsWithin(rs0, rs, lo, hi)
  {
    forall j: nat {:trigger rs[j]} | j < |rs|
      ensures rs[j].start == rs0[j].start && rs[j].pages == rs0[j].pages && rs[j].perms == rs0[j].perms
      ensures rs0[j].phys <= rs[j].phys
      ensures |rs0[j].committed| == |rs[j].committed| == rs0[j].pages
      ensures forall u: nat {:trigger Inside(rs[j], u)} | Inside(rs[j], u) && !(lo <= u < hi) ::
                Inside(rs0[j], u) && (CommitBit(rs[j], u) <==> CommitBit(rs0[j], u))
    {
      if m :| 0 <= m < |todo| && todo[m].i == j {
        assert AreaOk(rs0, todo[m], lo, hi);
        assert Marked(rs0[j], rs[j], todo[m].ua, todo[m].ua + todo[m].pages * PAGE_SIZE);
      } else {
        assert rs[j] == rs0[j];
      }
    }
  }

  /** Translated addresses keep their translation, and outside [lo, hi) untranslated ones stay so. */
  ghost predicate TranslationsKept(mem: Memory, mem': Memory, root: nat, lo: nat, hi: nat) {
    forall u: nat {:trigger Resolve(mem', root, u)} |
      u < ADDRESS_SPACE && (Translate(Resolve(mem, root, u)) != Unmapped || !(lo <= u < hi)) ::
      Translate(Resolve(mem', root, u)) == Translate(Resolve(mem, root, u))
  }

  lemma CommitsKeep(rs: seq<Region>, rs': seq<Region>, mem: Memory, mem': Memory, root: nat, lo: nat, hi: nat)
    requires Shapes(rs') && Agrees(rs, mem, root) && Agrees(rs', mem', root) && CommitsWithin(rs, rs', lo, hi)
    requires forall j | 0 <= j < |rs| :: RegionOk(rs[j]) && RegionOk(rs'[j])
    ensures TranslationsKept(mem, mem', root, lo, hi)
  {
    hide Resolve, CfgFromFlags, Truncated, Backed, RegionShape, Shapes;
    forall u: nat {:trigger Resolve(mem', root, u)} |
      u < ADDRESS_SPACE && (Translate(Resolve(mem, root, u)) != Unmapped || !(lo <= u < hi))
      ensures Translate(Resolve(mem', root, u)) == Translate(Resolve(mem, root, u))
    {
      if BackedBy(rs, u) {
        var i: nat, n :| Backs(rs, i, n, u);
        assert rs[i].phys <= rs'[i].phys;
        assert Backs(rs', i, n, u);
      } else if BackedBy(rs', u) {
        var i: nat, n :| Backs(rs', i, n, u);
        StillUnbacked(rs, rs', i, n, u, lo, hi);
      }
    }
  }

  lemma StillUnbacked(rs: seq<Region>, rs': seq<Region>, i: nat, n: Phys, u: nat, lo: nat, hi: nat)
    requires Shapes(rs') && CommitsWithin(rs, rs', lo, hi) && Backs(rs', i, n, u) && !(lo <= u < hi)
    requires RegionOk(rs[i]) && RegionOk(rs'[i])
    ensures BackedBy(rs, u)
  {
    BackedLow(rs', i, n, u);
    assert Backed(rs'[i], u);
    assert CommitBit(rs'[i], u) && Inside(rs[i], u) && CommitBit(rs[i], u);
    assert Backed(rs[i], u);
    var m :| m in rs[i].phys && Holds(m, u);
    assert Backs(rs, i, m, u);
  }

  lemma Rounded(start: nat, size: nat)
    ensures AlignDown(start) % PAGE_SIZE == 0 && AlignUp(start + size, PAGE_SIZE) % PAGE_SIZE == 0
    ensures AlignDown(start) <= start && start + size <= AlignUp(start + size, PAGE_SIZE)
  {
    DivUnique(AlignDown(start), PAGE_SIZE, start / PAGE_SIZE, 0);
    var x := start + size;
    if x % PAGE_SIZE != 0 { DivUnique(AlignUp(x, PAGE_SIZE), PAGE_SIZE, x / PAGE_SIZE + 1, 0); }
  }

  lemma NothingCommitted(rs: seq<Region>, todo: seq<Area>)
    requires forall j | 0 <= j < |rs| :: RegionOk(rs[j])
    ensures CommittedAreas(rs, rs, todo, 0)
  {
  }

  /** An area that is still to come is untouched. */
  lemma AreaKept(rs0: seq<Region>, rs: seq<Region>, todo: seq<Area>, k: nat, lo: nat, hi: nat)
    requires CommittedAreas(rs0, rs, todo, k) && k < |todo| && AreaOk(rs0, todo[k], lo, hi)
    requires forall a, b | 0 <= a < b < |todo| :: todo[a].i != todo[b].i
    ensures AreaOk(rs, todo[k], lo, hi) && todo[k].i < |rs0| == |rs| && rs[todo[k].i] == rs0[todo[k].i]
    ensures var e := todo[k];
            rs[e.i].start <= e.ua && e.ua % PAGE_SIZE == 0 && e.ua + e.pages * PAGE_SIZE <= RegionEnd(rs[e.i])
  {
    assert rs[todo[k].i] == rs0[todo[k].i];
  }

  /** A region is unbacked in a range of its pages exactly when none of them is marked. */
  lemma UnbackedIff(r: Region, first: nat, count: nat)
    requires RegionOk(r) && first + count <= r.pages
    ensures Unbacked(r, r.start + first * PAGE_SIZE, r.start + (first + count) * PAGE_SIZE) <==>
            forall j | first <= j < first + count :: !r.committed[j]
  {
    hide Backed, RegionShape;
    var lo, hi := r.start + first * PAGE_SIZE, r.start + (first + count) * PAGE_SIZE;
    assert |r.committed| == r.pages by { OkShape(r); }
    if forall j | first <= j < first + count :: !r.committed[j] {
      forall u: nat {:trigger Backed(r, u)} | lo <= u < hi ensures !Backed(r, u) {
        PageOf(r.start, first, count, u);
        assert Inside(r, u);
        assert !r.committed[(u - r.start) / PAGE_SIZE];
      }
    } else {
      var j :| first <= j < first + count && r.committed[j];
      var u := r.start + j * PAGE_SIZE;
      DivUnique(u - r.start, PAGE_SIZE, j, 0);
      assert Inside(r, u) && CommitBit(r, u);
      assert Backed(r, u);
    }
  }

  ghost predicate UnbackedArea(rs: seq<Region>, e: Area) {
    e.i < |rs| && Unbacked(rs[e.i], e.ua, e.ua + e.pages * PAGE_SIZE)
  }

  lemma AreaPages(rs: seq<Region>, e: Area, lo: nat, hi: nat)
    requires AreaOk(rs, e, lo, hi)
    ensures e.pages > 0 && e.ua + e.pages * PAGE_SIZE <= RegionEnd(rs[e.i])
  {
  }

  lemma SameCount(rs: seq<Region>, rs': seq<Region>, lo: nat, hi: nat)
    requires CommitsWithin(rs, rs', lo, hi)
    ensures |rs| == |rs'|
  {
  }

  /** An area with a marked page mixes committed and uncommitted pages. */
  lemma MixedArea(rs: seq<Region>, e: Area, lo: nat, hi: nat)
    requires AreaOk(rs, e, lo, hi) && RegionOk(rs[e.i]) && !Unbacked(rs[e.i], e.ua, e.ua + e.pages * PAGE_SIZE)
    ensures !AllOrNothing(rs, lo, hi)
  {
    hide Backed, RegionShape;
    assert !Unmixed(rs[e.i], lo, hi) by {
      var r, end := rs[e.i], e.ua + e.pages * PAGE_SIZE;
      var u: nat :| e.ua <= u < end && Backed(r, u);
      assert Inside(r, u) && CommitBit(r, u);
      var v: nat :| e.ua <= v < end && !(Inside(r, v) && CommitBit(r, v));
      assert Inside(r, v) && !CommitBit(r, v);
    }
  }

  lemma RegionUnmixed(rs: seq<Region>, todo: seq<Area>, required: set<Perm>, forbidden: set<Perm>, lo: nat, hi: nat,
                      i: nat)
    requires Sorted(rs) && i < |rs| && RegionOk(rs[i]) && AllGranted(rs, todo, required, forbidden, lo, hi)
    requires forall k | 0 <= k < |todo| :: AreaOk(rs, todo[k], lo, hi) && UnbackedArea(rs, todo[k])
    ensures Unmixed(rs[i], lo, hi)
  {
    hide Backed, RegionShape, CommittedRange, Sorted, Allowed;
    OkShape(rs[i]);
    if k :| 0 <= k < |todo| && todo[k].i == i {
      assert AreaOk(rs, todo[k], lo, hi) && UnbackedArea(rs, todo[k]);
      forall u: nat {:trigger Inside(rs[i], u)} | lo <= u < hi && Inside(rs[i], u) ensures !CommitBit(rs[i], u) {
        assert !Backed(rs[i], u);
      }
    } else {
      forall u: nat {:trigger Inside(rs[i], u)} | lo <= u < hi && Inside(rs[i], u) ensures CommitBit(rs[i], u) {
        assert Granted(rs, todo, required, forbidden, u);
        var j: nat :| j < |rs| && Inside(rs[j], u) && |rs[j].committed| == rs[j].pages &&
                      (CommitBit(rs[j], u) || InAreas(todo, j, u));
        OnlyRegion(rs, i, j, u);
        assert i == j;
        assert !InAreas(todo, j, u);
      }
    }
  }

  /** When every area was unbacked no region mixes. */
  lemma AreasUnmixed(rs: seq<Region>, todo: seq<Area>, required: set<Perm>, forbidden: set<Perm>, lo: nat, hi: nat)
    requires Sorted(rs) && (forall j | 0 <= j < |rs| :: RegionOk(rs[j]))
    requires AllGranted(rs, todo, required, forbidden, lo, hi)
    requires forall k | 0 <= k < |todo| :: AreaOk(rs, todo[k], lo, hi) && UnbackedArea(rs, todo[k])
    ensures AllOrNothing(rs, lo, hi)
  {
    hide RegionOk, AllGranted, AreaOk, UnbackedArea, Unmixed, Sorted;
    forall i: nat {:trigger rs[i]} | i < |rs| ensures Unmixed(rs[i], lo, hi) {
      RegionUnmixed(rs, todo, required, forbidden, lo, hi, i);
    }
  }

  lemma OnlyRegion(rs: seq<Region>, i: nat, j: nat, u: nat)
    requires Sorted(rs) && i < |rs| && j < |rs| && Inside(rs[i], u) && Inside(rs[j], u)
    ensures i == j
  {
  }

  /** An address of a region that does not allow the access, or is not committed there, is not accessible. */
  lemma NotAccessible(rs: seq<Region>, required: set<Perm>, forbidden: set<Perm>, i: nat, u: nat)
    requires Sorted(rs) && i < |rs| && Inside(rs[i], u) && |rs[i].committed| == rs[i].pages
    requires !Allowed(rs[i], required, forbidden) || !CommitBit(rs[i], u)
    ensures !Accessible(rs, required, forbidden, u)
  {
    if Accessible(rs, required, forbidden, u) {
      var j: nat :| j < |rs| && Inside(rs[j], u) && Allowed(rs[j], required, forbidden) &&
                    |rs[j].committed| == rs[j].pages && CommitBit(rs[j], u);
      OnlyRegion(rs, i, j, u);
    }
  }

  lemma RangeRefused(rs: seq<Region>, required: set<Perm>, forbidden: set<Perm>, lo: nat, hi: nat, at: nat)
    requires lo <= at < hi && !Accessible(rs, required, forbidden, at)
    ensures !AllAccess(rs, required, forbidden, lo, hi)
  {
  }

  lemma ChunkRefused(rs: seq<Region>, required: set<Perm>, forbidden: set<Perm>, lo: nat, cursor: nat, end: nat,
                     hi: nat, i: nat)
    requires Sorted(rs) && i < |rs| && |rs[i].committed| == rs[i].pages && rs[i].start <= cursor
    requires end <= RegionEnd(rs[i])
    requires lo <= cursor && end <= hi && !CommittedRange(rs[i], cursor, end)
    ensures !AllAccess(rs, required, forbidden, lo, hi)
  {
    var v: nat :| cursor <= v < end && !(Inside(rs[i], v) && CommitBit(rs[i], v));
    assert Inside(rs[i], v);
    NotAccessible(rs, required, forbidden, i, v);
    RangeRefused(rs, required, forbidden, lo, hi, v);
  }

  // Copying through translation

  /** The physical address a user address is translated to. */
  ghost function PhysAt(mem: Memory, root: nat, u: nat): nat {
    match Translate(Resolve(mem, root, u))
    case Mapped(_, pa) => pa
    case _ => 0
  }

  lemma AccessibleBacked(rs: seq<Region>, mem: Memory, root: nat, required: set<Perm>, forbidden: set<Perm>, u: nat)
    returns (i: nat, n: Phys)
    requires Shapes(rs) && (forall j | 0 <= j < |rs| :: RegionOk(rs[j])) && Agrees(rs, mem, root)
    requires Accessible(rs, required, forbidden, u)
    ensures Backs(rs, i, n, u) && NodeOk(rs[i], n) && Inside(rs[i], u) && Translate(Resolve(mem, root, u)).Mapped?
    ensures PhysAt(mem, root, u) == n.pa + (u - n.ua)
  {
    i :| i < |rs| && Inside(rs[i], u) && Allowed(rs[i], required, forbidden) &&
         |rs[i].committed| == rs[i].pages && CommitBit(rs[i], u);
    n := CommittedBlock(rs, mem, root, i, u);
  }

  /** The addresses [u, u + chunk) are translated to [pa, pa + chunk), in order. */
  ghost predicate Contiguous(mem: Memory, root: nat, u: nat, chunk: nat, pa: nat) {
    forall v: nat {:trigger PhysAt(mem, root, v)} | u <= v < u + chunk :: PhysAt(mem, root, v) == pa + (v - u)
  }

  /** The block found for an address holds `chunk` bytes from there on, in physical order. */
  lemma ChunkFrames(rs: seq<Region>, mem: Memory, root: nat, i: nat, n: Phys, u: nat, chunk: nat)
    requires Agrees(rs, mem, root) && Backs(rs, i, n, u) && u + chunk <= n.ua + n.count * PAGE_SIZE
    ensures Contiguous(mem, root, u, chunk, n.pa + (u - n.ua))
  {
    hide Resolve, CfgFromFlags, Truncated;
    forall v: nat {:trigger PhysAt(mem, root, v)} | u <= v < u + chunk
      ensures PhysAt(mem, root, v) == n.pa + (u - n.ua) + (v - u)
    {
      assert Backs(rs, i, n, v);
    }
  }

  /** Distinct accessible addresses have distinct bytes. */
  lemma FramesDiffer(rs: seq<Region>, mem: Memory, root: nat, b: Blocks, pages: nat, max: nat, required: set<Perm>,
                     forbidden: set<Perm>, u: nat, v: nat)
    requires Shapes(rs) && (forall j | 0 <= j < |rs| :: RegionOk(rs[j])) && Agrees(rs, mem, root)
    requires Tiled(b, pages, max) && PhysOk(rs, Allocated(b)) && u != v
    requires Accessible(rs, required, forbidden, u) && Accessible(rs, required, forbidden, v)
    ensures PhysAt(mem, root, u) != PhysAt(mem, root, v)
  {
    var i, n := AccessibleBacked(rs, mem, root, required, forbidden, u);
    var j, m := AccessibleBacked(rs, mem, root, required, forbidden, v);
    if n.pa + (u - n.ua) == m.pa + (v - m.ua) { PhysApart(rs, b, pages, max, i, n, u, j, m, v); }
  }

  lemma FrameBelow(rs: seq<Region>, b: Blocks, pages: nat, max: nat, i: nat, n: Phys, u: nat)
    requires Tiled(b, pages, max) && PhysOk(rs, Allocated(b)) && Backs(rs, i, n, u)
    ensures n.pa + n.count * PAGE_SIZE <= pages * PAGE_SIZE
  {
    assert n in rs[i].phys;
    BlockBytes(b, pages, max, n);
  }

  lemma SameNode(rs: seq<Region>, i: nat, n: Phys, m: Phys, u: nat)
    requires Shapes(rs) && Backs(rs, i, n, u) && Backs(rs, i, m, u)
    ensures n == m
  {
    assert RegionShape(rs[i]) && NodesApart(n, m);
  }

  /** The first `off` bytes are where their user addresses are translated to; no other byte of memory changed. */
  ghost predicate CopiedIn(mem: Memory, root: nat, dst: nat, src: seq<bv8>, off: nat, ram: seq<bv8>, ram': seq<bv8>) {
    && off <= |src| && |ram'| == |ram|
    && (forall v: nat {:trigger PhysAt(mem, root, v)} | dst <= v < dst + off ::
          PhysAt(mem, root, v) < |ram| && ram'[PhysAt(mem, root, v)] == src[v - dst])
    && (forall p: nat {:trigger ram'[p]} | p < |ram| && ram'[p] != ram[p] :: InCopy(mem, root, dst, off, p))
  }

  ghost predicate InCopy(mem: Memory, root: nat, dst: nat, size: nat, p: nat) {
    exists v: nat {:trigger PhysAt(mem, root, v)} :: dst <= v < dst + size && PhysAt(mem, root, v) == p
  }

  lemma CopyStep(rs: seq<Region>, mem: Memory, root: nat, b: Blocks, pages: nat, max: nat, required: set<Perm>,
                 forbidden: set<Perm>, dst: nat, src: seq<bv8>, off: nat, chunk: nat, pa: nat, ram: seq<bv8>,
                 ram1: seq<bv8>, ram2: seq<bv8>)
    requires Shapes(rs) && (forall j | 0 <= j < |rs| :: RegionOk(rs[j])) && Agrees(rs, mem, root)
    requires Tiled(b, pages, max) && PhysOk(rs, Allocated(b)) && AllAccess(rs, required, forbidden, dst, dst + |src|)
    requires CopiedIn(mem, root, dst, src, off, ram, ram1) && off + chunk <= |src| && pa + chunk <= |ram| &&
    |ram2| == |ram|
    requires Contiguous(mem, root, dst + off, chunk, pa)
    requires forall p: nat {:trigger ram2[p]} | p < |ram| ::
               ram2[p] == if pa <= p < pa + chunk then src[off + (p - pa)] else ram1[p]
    ensures CopiedIn(mem, root, dst, src, off + chunk, ram, ram2)
  {
    hide PhysAt, Shapes, RegionOk, Agrees, Tiled, PhysOk, Allocated, Accessible;
    forall v: nat {:trigger PhysAt(mem, root, v)} | dst <= v < dst + off + chunk
      ensures PhysAt(mem, root, v) < |ram| && ram2[PhysAt(mem, root, v)] == src[v - dst]
    {
      if v < dst + off {
        var p := PhysAt(mem, root, v);
        assert ram1[p] == src[v - dst];
        if pa <= p < pa + chunk {
          var w := dst + off + (p - pa);
          assert Accessible(rs, required, forbidden, v) && Accessible(rs, required, forbidden, w);
          FramesDiffer(rs, mem, root, b, pages, max, required, forbidden, v, w);
        }
      }
    }
    forall p: nat {:trigger ram2[p]} | p < |ram| && ram2[p] != ram[p] ensures InCopy(mem, root, dst, off + chunk, p) {
      if pa <= p < pa + chunk {
        var w := dst + off + (p - pa);
        assert PhysAt(mem, root, w) == p;
      } else {
        assert ram1[p] != ram[p];
        var w: nat :| dst <= w < dst + off && PhysAt(mem, root, w) == p;
      }
    }
  }

  lemma NothingCopied(mem: Memory, root: nat, dst: nat, src: seq<bv8>, ram: seq<bv8>)
    ensures CopiedIn(mem, root, dst, src, 0, ram, ram)
  {
  }

  /** The kernel buffer holds the first `off` bytes that the user addresses are translated to. */
  ghost predicate CopiedOut(mem: Memory, root: nat, src: nat, off: nat, ram: seq<bv8>, dst: seq<bv8>) {
    && off <= |dst|
    && forall v: nat {:trigger PhysAt(mem, root, v)} | src <= v < src + off ::
         PhysAt(mem, root, v) < |ram| && dst[v - src] == ram[PhysAt(mem, root, v)]
  }

  lemma NothingCopiedOut(mem: Memory, root: nat, src: nat, ram: seq<bv8>, dst: seq<bv8>)
    ensures CopiedOut(mem, root, src, 0, ram, dst)
  {
  }

  lemma CopyOutStep(mem: Memory, root: nat, src: nat, off: nat, chunk: nat, pa: nat, ram: seq<bv8>, dst: seq<bv8>,
                    dst': seq<bv8>)
    requires CopiedOut(mem, root, src, off, ram, dst) && off + chunk <= |dst| == |dst'| && pa + chunk <= |ram|
    requires Contiguous(mem, root, src + off, chunk, pa)
    requires forall k: nat {:trigger dst'[k]} | k < |dst| ::
               dst'[k] == if off <= k < off + chunk then ram[pa + (k - off)] else dst[k]
    ensures CopiedOut(mem, root, src, off + chunk, ram, dst')
  {
    hide PhysAt;
  }

  /** Copying to user memory and back gives the same bytes. */
  lemma CopyRoundTrip(mem: Memory, root: nat, u: nat, src: seq<bv8>, ram: seq<bv8>, ram': seq<bv8>, dst: seq<bv8>)
    requires CopiedIn(mem, root, u, src, |src|, ram, ram') && |dst| == |src|
    requires CopiedOut(mem, root, u, |src|, ram', dst)
    ensures dst == src
  {
    hide PhysAt;
    forall k | 0 <= k < |src| ensures dst[k] == src[k] {
      var v := u + k;
      assert ram'[PhysAt(mem, root, v)] == src[v - u];
    }
  }

  // Freeing

  function WithoutNode(r: Region, n: Phys): Region {
    r.(phys := r.phys - {n})
  }

  lemma NodeDropped(rs: seq<Region>, i: nat, n: Phys)
    requires Shapes(rs) && i < |rs| && n in rs[i].phys
    ensures Shapes(rs[i := WithoutNode(rs[i], n)])
  {
    var r, r' := rs[i], WithoutNode(rs[i], n);
    assert RegionShape(r);
    forall m {:trigger NodeOk(r', m)} | m in r'.phys ensures NodeOk(r', m) { assert NodeOk(r, m); }
    forall m, m' {:trigger NodesApart(m, m')} | m in r'.phys && m' in r'.phys
      ensures NodesApart(m, m')
    {
      assert m in r.phys && m' in r.phys;
    }
  }

  lemma PhysDropped(rs: seq<Region>, a: map<nat, nat>, i: nat, n: Phys)
    requires PhysOk(rs, a) && i < |rs| && n in rs[i].phys
    ensures n.pa % PAGE_SIZE == 0 && n.pa / PAGE_SIZE in a
    ensures PhysOk(rs[i := WithoutNode(rs[i], n)], a - {n.pa / PAGE_SIZE})
  {
    hide Pow2;
    assert AllocatedNode(a, n);
    var rs', a' := rs[i := WithoutNode(rs[i], n)], a - {n.pa / PAGE_SIZE};
    forall j: nat, m {:trigger m in rs'[j].phys} | j < |rs'| && m in rs'[j].phys ensures AllocatedNode(a', m) {
      assert m in rs[j].phys && AllocatedNode(a, m);
      assert m != n || j != i;
      assert m.pa / PAGE_SIZE != n.pa / PAGE_SIZE;
    }
    forall j: nat, m, k: nat, l {:trigger m in rs'[j].phys, l in rs'[k].phys} |
      j < |rs'| && m in rs'[j].phys && k < |rs'| && l in rs'[k].phys && m.pa == l.pa
      ensures j == k && m == l
    {
      assert m in rs[j].phys && l in rs[k].phys;
    }
  }

  /** A translated range is cleared throughout when it is unmapped, and nothing else is. */
  lemma ClearedExactly(rs: seq<Region>, i: nat, n: Phys, mem: Memory, root: nat, a: nat)
    requires Shapes(rs) && Agrees(rs, mem, root) && i < |rs| && n in rs[i].phys
    ensures Cleared(mem, root, n.ua, n.count * PAGE_SIZE, a) <==> Holds(n, a)
  {
    hide Resolve, Cleared, CfgFromFlags, Truncated;
    assert RegionShape(rs[i]) && NodeOk(rs[i], n);
    var size := n.count * PAGE_SIZE;
    DivUnique(size, PAGE_SIZE, n.count, 0);
    if Cleared(mem, root, n.ua, size, a) { ClearedInside(mem, root, n.ua, size, a); }
    forall x: nat | n.ua <= x < n.ua + size ensures Resolve(mem, root, x).Leaf? {
      assert Backs(rs, i, n, x);
    }
    if Holds(n, a) { UnmapFullyMapped(mem, root, n.ua, size, a); }
  }

  lemma AgreesDropped(rs: seq<Region>, i: nat, n: Phys, mem: Memory, mem': Memory, root: nat)
    requires Shapes(rs) && Agrees(rs, mem, root) && i < |rs| && n in rs[i].phys
    requires UnmapsFlat(mem, mem', root, n.ua, n.count * PAGE_SIZE)
    ensures Agrees(rs[i := WithoutNode(rs[i], n)], mem', root)
  {
    hide Resolve, CfgFromFlags, Truncated, Cleared;
    var rs' := rs[i := WithoutNode(rs[i], n)];
    forall j: nat, m, u: nat {:trigger Backs(rs', j, m, u)} | Backs(rs', j, m, u)
      ensures CfgFromFlags(rs'[j].perms).Cfg?
      ensures Translate(Resolve(mem', root, u)) == Mapped(Truncated(CfgFromFlags(rs'[j].perms).cfg), m.pa + (u - m.ua))
    {
      assert Backs(rs, j, m, u);
      BackedLow(rs, j, m, u);
      ClearedExactly(rs, i, n, mem, root, u);
      assert !Holds(n, u) by { NotBoth(rs, i, n, j, m, u); }
    }
    forall u: nat {:trigger Resolve(mem', root, u)} | u < ADDRESS_SPACE && !BackedBy(rs', u)
      ensures Translate(Resolve(mem', root, u)) == Unmapped
    {
      ClearedExactly(rs, i, n, mem, root, u);
      if !Holds(n, u) {
        StillBacked(rs, i, n, u);
        assert Translate(Resolve(mem, root, u)) == Unmapped;
      }
    }
  }

  lemma NotBoth(rs: seq<Region>, i: nat, n: Phys, j: nat, m: Phys, u: nat)
    requires Shapes(rs) && i < |rs| && n in rs[i].phys && Backs(rs, j, m, u) && (i != j || n != m)
    ensures !Holds(n, u)
  {
    assert RegionShape(rs[i]) && NodeOk(rs[i], n) && RegionShape(rs[j]) && NodeOk(rs[j], m);
    if i == j { assert NodesApart(n, m); }
  }

  lemma StillBacked(rs: seq<Region>, i: nat, n: Phys, u: nat)
    requires i < |rs| && !Holds(n, u)
    ensures BackedBy(rs, u) ==> BackedBy(rs[i := WithoutNode(rs[i], n)], u)
  {
    if BackedBy(rs, u) {
      var j: nat, m :| Backs(rs, j, m, u);
      assert Backs(rs[i := WithoutNode(rs[i], n)], j, m, u);
    }
  }

  lemma RegionRemoved(rs: seq<Region>, i: nat)
    requires i < |rs|
    ensures |Without(rs, i)| == |rs| - 1 && Inserted(Without(rs, i), i, rs[i]) == rs
    ensures forall j | 0 <= j < |rs| - 1 :: Without(rs, i)[j] == if j < i then rs[j] else rs[j + 1]
  {
  }

  lemma RemovedEmptied(rs: seq<Region>, rs1: seq<Region>, i: nat)
    requires i < |rs| && rs1 == rs[i := rs[i].(phys := {})]
    ensures Without(rs1, i) == Without(rs, i) == rs1[..i] + rs1[i + 1..] && Inserted(Without(rs1, i), i, rs1[i]) == rs1
    ensures forall j | 0 <= j < |rs| - 1 :: Without(rs, i)[j] == if j < i then rs[j] else rs[j + 1]
  {
    RegionRemoved(rs1, i);
    RegionRemoved(rs, i);
  }

  lemma RemovedOk(rs: seq<Region>, i: nat, mem: Memory, root: nat, a: map<nat, nat>)
    requires Shapes(rs) && Agrees(rs, mem, root) && PhysOk(rs, a) && i < |rs| && rs[i].phys == {}
    ensures Shapes(Without(rs, i)) && Agrees(Without(rs, i), mem, root) && PhysOk(Without(rs, i), a)
  {
    hide Resolve, CfgFromFlags, Truncated, RegionShape;
    RegionRemoved(rs, i);
    var rs' := Without(rs, i);
    forall j: nat, n, u: nat {:trigger Backs(rs', j, n, u)} | Backs(rs', j, n, u)
      ensures CfgFromFlags(rs'[j].perms).Cfg?
      ensures Translate(Resolve(mem, root, u)) == Mapped(Truncated(CfgFromFlags(rs'[j].perms).cfg), n.pa + (u - n.ua))
    {
      assert Backs(rs, if j < i then j else j + 1, n, u);
    }
    forall u: nat {:trigger Resolve(mem, root, u)} | u < ADDRESS_SPACE && !BackedBy(rs', u)
      ensures Translate(Resolve(mem, root, u)) == Unmapped
    {
      RemovedBacked(rs, i, u);
    }
    RemovedPhys(rs, i, a);
  }

  lemma RemovedBacked(rs: seq<Region>, i: nat, u: nat)
    requires i < |rs| && rs[i].phys == {}
    ensures BackedBy(rs, u) ==> BackedBy(Without(rs, i), u)
  {
    RegionRemoved(rs, i);
    if BackedBy(rs, u) {
      var j: nat, n :| Backs(rs, j, n, u);
      assert Backs(Without(rs, i), if j < i then j else j - 1, n, u);
    }
  }

  lemma RemovedPhys(rs: seq<Region>, i: nat, a: map<nat, nat>)
    requires PhysOk(rs, a) && i < |rs|
    ensures PhysOk(Without(rs, i), a)
  {
    RegionRemoved(rs, i);
    var rs' := Without(rs, i);
    hide Without, AllocatedNode;
    forall j: nat, n {:trigger n in rs'[j].phys} | j < |rs'| && n in rs'[j].phys ensures AllocatedNode(a, n) {
      assert n in rs[if j < i then j else j + 1].phys;
    }
    forall j: nat, n, k: nat, m {:trigger n in rs'[j].phys, m in rs'[k].phys} |
      j < |rs'| && n in rs'[j].phys && k < |rs'| && m in rs'[k].phys && n.pa == m.pa
      ensures j == k && n == m
    {
      assert n in rs[if j < i then j else j + 1].phys && m in rs[if k < i then k else k + 1].phys;
    }
  }

  lemma ShapeFacts(r: Region)
    requires RegionShape(r)
    ensures r.start % PAGE_SIZE == 0 && r.pages < U32 && RegionEnd(r) < U64 && r.start <= RegionEnd(r)
  {
  }

  lemma InnerAccess(rs: seq<Region>, required: set<Perm>, forbidden: set<Perm>, lo: nat, hi: nat, lo': nat, hi': nat)
    requires AllAccess(rs, required, forbidden, lo, hi) && lo <= lo' && hi' <= hi
    ensures AllAccess(rs, required, forbidden, lo', hi')
  {
  }

  lemma NewAt(rs: seq<Region>, k: nat, start: nat, pages: nat, perms: set<Perm>)
    requires k <= |rs|
    ensures var r := NewRegion(start, pages, perms);
            k < |Inserted(rs, k, r)| && Inserted(rs, k, r)[k] == r && r.start == start && r.pages == pages &&
            |r.committed| == pages && RegionEnd(r) == start + pages * PAGE_SIZE
  {
  }

  lemma NewUnbacked(start: nat, pages: nat, perms: set<Perm>)
    ensures Unbacked(NewRegion(start, pages, perms), start, start + pages * PAGE_SIZE)
    ensures NewRegion(start, pages, perms).perms == perms
  {
  }

  lemma AllBits(bits: seq<bool>, bits': seq<bool>, pages: nat)
    requires BitsSet(bits, bits', 0, pages) && |bits| == pages
    ensures forall j | 0 <= j < |bits'| :: bits'[j]
  {
  }

  lemma NodeInSpace(rs: seq<Region>, i: nat, n: Phys)
    requires Shapes(rs) && i < |rs| && n in rs[i].phys
    ensures n.ua + n.count * PAGE_SIZE <= USER_END && PageAligned(n.ua, 0, n.count * PAGE_SIZE)
  {
    assert RegionShape(rs[i]) && NodeOk(rs[i], n);
    DivUnique(n.count * PAGE_SIZE, PAGE_SIZE, n.count, 0);
  }

  lemma AllocatedHead(b: Blocks, n: nat, max: nat, h: nat)
    requires Tiled(b, n, max) && h in Allocated(b)
    ensures h in b && h < n && !FreePage(b, h)
  {
    assert BlockOk(b, n, max, h);
    assert BuddyTiling.Covers(b, h, h);
    FreeOwner(b, n, max, h, h);
  }

  lemma ShapesSorted(rs: seq<Region>)
    requires Shapes(rs)
    ensures Sorted(rs)
  {
  }

  /** A region without blocks is untranslated. */
  lemma FreedRange(rs: seq<Region>, i: nat, mem: Memory, root: nat)
    requires Shapes(rs) && Agrees(rs, mem, root) && i < |rs| && rs[i].phys == {}
    ensures forall u: nat | Inside(rs[i], u) && u < ADDRESS_SPACE :: Translate(Resolve(mem, root, u)) == Unmapped
  {
    forall u: nat | Inside(rs[i], u) && u < ADDRESS_SPACE ensures Translate(Resolve(mem, root, u)) == Unmapped {
      BackedRegion(rs, i, u);
      assert RegionShape(rs[i]);
    }
  }

  /** Commit bit, physical block and translation of a page say the same. */
  lemma CommitBitMeans(rs: seq<Region>, mem: Memory, root: nat, i: nat, u: nat)
    requires Shapes(rs) && i < |rs| && RegionOk(rs[i]) && Agrees(rs, mem, root) && Inside(rs[i], u)
    ensures CommitBit(rs[i], u) <==>
            exists n {:trigger Holds(n, u)} ::
              n in rs[i].phys && Holds(n, u) &&
              forall m {:trigger Holds(m, u)} | m in rs[i].phys && Holds(m, u) :: m == n
    ensures CommitBit(rs[i], u) <==> u < ADDRESS_SPACE && Translate(Resolve(mem, root, u)).Mapped?
    ensures CommitBit(rs[i], u) ==>
              CfgFromFlags(rs[i].perms).Cfg? &&
              Translate(Resolve(mem, root, u)).cfg == Truncated(CfgFromFlags(rs[i].perms).cfg)
  {
    BackedRegion(rs, i, u);
    assert Backed(rs[i], u) <==> CommitBit(rs[i], u);
    if CommitBit(rs[i], u) {
      var n := CommittedBlock(rs, mem, root, i, u);
      forall m {:trigger Holds(m, u)} | m in rs[i].phys && Holds(m, u) ensures m == n { SameNode(rs, i, m, n, u); }
    }
  }
}
