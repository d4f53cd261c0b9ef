/** Tilings of the page frames by buddy blocks, and why the free blocks follow from the allocated ones. */
module BuddyTiling {
  import opened Arithmetic
  import opened BuddyBlocks

  datatype Block = Block(order: nat, free: bool)

  /** The blocks by their first page. */
  type Blocks = map<nat, Block>

  function End(b: Blocks, h: nat): nat
    requires h in b
  {
    h + Pow2(b[h].order)
  }

  predicate BlockOk(b: Blocks, n: nat, max: nat, h: nat)
    requires h in b
  {
    Aligned(h, b[h].order) && b[h].order <= max && End(b, h) <= n
  }

  predicate Apart(b: Blocks, g: nat, h: nat)
    requires g in b && h in b
  {
    g < h ==> End(b, g) <= h
  }

  predicate Covers(b: Blocks, h: nat, j: nat) {
    h in b && h <= j < End(b, h)
  }

  ghost predicate Covered(b: Blocks, j: nat) {
    exists h :: Covers(b, h, j)
  }

  /** Size-aligned blocks, each of order at most `max`, that tile the pages [0, n). */
  ghost predicate Tiled(b: Blocks, n: nat, max: nat) {
    && (forall h {:trigger BlockOk(b, n, max, h)} | h in b :: BlockOk(b, n, max, h))
    && (forall g, h {:trigger Apart(b, g, h)} | g in b && h in b :: Apart(b, g, h))
    && (forall j: nat {:trigger Covered(b, j)} | j < n :: Covered(b, j))
  }

  ghost predicate FreePage(b: Blocks, j: nat) {
    exists h :: Covers(b, h, j) && b[h].free
  }

  predicate FreeBuddies(b: Blocks, max: nat, h: nat)
    requires h in b
  {
    var o := b[h].order;
    b[h].free && o < max && BuddyOf(h, o) in b && b[BuddyOf(h, o)] == Block(o, true)
  }

  /** Every merge has been done. */
  ghost predicate Merged(b: Blocks, max: nat) {
    forall h {:trigger FreeBuddies(b, max, h)} | h in b :: !FreeBuddies(b, max, h)
  }

  /** The allocated blocks with their orders. */
  ghost function Allocated(b: Blocks): map<nat, nat> {
    map h | h in b && !b[h].free :: b[h].order
  }

  ghost predicate Taken(a: map<nat, nat>, j: nat) {
    exists h {:trigger a[h]} :: h in a && h <= j < h + Pow2(a[h])
  }

  ghost predicate AllFree(b: Blocks, lo: nat, hi: nat) {
    forall j: nat {:trigger FreePage(b, j)} | lo <= j < hi :: FreePage(b, j)
  }

  lemma UniqueOwner(b: Blocks, n: nat, max: nat, g: nat, h: nat, j: nat)
    requires Tiled(b, n, max) && Covers(b, g, j) && Covers(b, h, j)
    ensures g == h
  {
    assert Apart(b, g, h) && Apart(b, h, g);
  }

  lemma OwnerOf(b: Blocks, n: nat, max: nat, j: nat) returns (h: nat)
    requires Tiled(b, n, max) && j < n
    ensures Covers(b, h, j)
  {
    assert Covered(b, j);
    h :| Covers(b, h, j);
  }

  lemma FreeOwner(b: Blocks, n: nat, max: nat, h: nat, j: nat)
    requires Tiled(b, n, max) && Covers(b, h, j)
    ensures FreePage(b, j) <==> b[h].free
  {
    if FreePage(b, j) {
      var g :| Covers(b, g, j) && b[g].free;
      UniqueOwner(b, n, max, g, h, j);
    }
  }

  /** The free pages are those outside the allocated blocks. */
  lemma FreeIffNotTaken(b: Blocks, n: nat, max: nat, j: nat)
    requires Tiled(b, n, max) && j < n
    ensures FreePage(b, j) <==> !Taken(Allocated(b), j)
  {
    hide Pow2;
    var h := OwnerOf(b, n, max, j);
    FreeOwner(b, n, max, h, j);
    if !b[h].free {
      assert h in Allocated(b) && Allocated(b)[h] == b[h].order;
    } else if Taken(Allocated(b), j) {
      var g :| g in Allocated(b) && g <= j < g + Pow2(Allocated(b)[g]);
      UniqueOwner(b, n, max, g, h, j);
    }
  }

  /** An aligned run of free pages lies inside one free block: no run is lost to fragmentation below its own order. */
  lemma {:induction false} RunInBlock(b: Blocks, n: nat, max: nat, h: nat, o: nat) returns (g: nat)
    requires Tiled(b, n, max) && Merged(b, max)
    requires Aligned(h, o) && o <= max && AllFree(b, h, h + Pow2(o))
    ensures g in b && b[g].free && b[g].order >= o && g <= h && h + Pow2(o) <= End(b, g)
    decreases o
  {
    if o == 0 {
      assert FreePage(b, h);
      g :| Covers(b, g, h) && b[g].free;
      Pow2Monotone(0, b[g].order);
    } else {
      var c := Pow2(o - 1);
      AlignedHalves(h, o - 1);
      hide Pow2, FreePage, AllFree, Tiled;
      assert AllFree(b, h, h + c) && AllFree(b, h + c, h + c + c) by { HalfFree(b, h, c); }
      g := RunInBlock(b, n, max, h, o - 1);
      var g' := RunInBlock(b, n, max, h + c, o - 1);
      HalvesInBlock(b, n, max, h, o, g, g');
      if b[g].order < o { g := g'; }
    }
  }

  lemma HalfFree(b: Blocks, h: nat, c: nat)
    requires AllFree(b, h, h + c + c)
    ensures AllFree(b, h, h + c) && AllFree(b, h + c, h + c + c)
  {
  }

  lemma LoneHalf(b: Blocks, max: nat, h: nat, o: nat)
    requires Merged(b, max) && o < max && Aligned(h, o + 1) && h in b && b[h] == Block(o, true)
    ensures h + Pow2(o) in b ==> b[h + Pow2(o)] != Block(o, true)
  {
    assert !FreeBuddies(b, max, h);
  }

  /** Two free halves are not both blocks of their own, so one of the blocks around them spans both. */
  lemma HalvesInBlock(b: Blocks, n: nat, max: nat, h: nat, o: nat, g: nat, g': nat)
    requires Tiled(b, n, max) && Merged(b, max) && 0 < o <= max && Aligned(h, o)
    requires g in b && b[g].free && b[g].order >= o - 1 && g <= h && h + Pow2(o - 1) <= End(b, g)
    requires g' in b && b[g'].free && b[g'].order >= o - 1 && g' <= h + Pow2(o - 1) && h + Pow2(o) <= End(b, g')
    ensures b[g].order >= o ==> h + Pow2(o) <= End(b, g)
    ensures b[g].order < o ==> b[g'].order >= o && g' <= h
  {
    AlignedHalves(h, o - 1);
    hide Pow2, Aligned;
    assert BlockOk(b, n, max, g) && BlockOk(b, n, max, g');
    if b[g].order >= o {
      Nested(h, o, g, b[g].order);
    } else {
      assert g == h && b[h] == Block(o - 1, true);
      LoneHalf(b, max, h, o - 1);
      assert b[g'].order >= o;
      Nested(h, o, g', b[g'].order);
    }
  }

  lemma BlockRun(b: Blocks, n: nat, max: nat, h: nat)
    requires Tiled(b, n, max) && h in b
    ensures BlockOk(b, n, max, h)
    ensures b[h].free ==> AllFree(b, h, End(b, h))
  {
    if b[h].free {
      forall j: nat {:trigger FreePage(b, j)} | h <= j < End(b, h) ensures FreePage(b, j) {
        assert Covers(b, h, j);
      }
    }
  }

  /** The same pages are free. */
  ghost predicate SameFree(b: Blocks, b': Blocks, n: nat) {
    forall j: nat {:trigger FreePage(b, j)} {:trigger FreePage(b', j)} | j < n :: FreePage(b, j) <==> FreePage(b', j)
  }

  lemma RunFree(b: Blocks, b': Blocks, n: nat, lo: nat, hi: nat)
    requires SameFree(b, b', n) && AllFree(b, lo, hi) && hi <= n
    ensures AllFree(b', lo, hi)
  {
    hide FreePage;
  }

  /** A free block of one merged tiling is a block of every other in which the same pages are free. */
  lemma SameFreeBlock(b: Blocks, b': Blocks, n: nat, max: nat, h: nat)
    requires Tiled(b, n, max) && Tiled(b', n, max) && Merged(b, max) && Merged(b', max)
    requires SameFree(b, b', n) && h in b && b[h].free
    ensures h in b' && b'[h] == b[h]
  {
    hide Tiled, Merged, FreePage, AllFree, Pow2, Aligned, SameFree;
    BlockRun(b, n, max, h);
    RunFree(b, b', n, h, End(b, h));
    var g := RunInBlock(b', n, max, h, b[h].order);
    BlockRun(b', n, max, g);
    assert SameFree(b', b, n) by { SameFreeTurned(b, b', n); }
    RunFree(b', b, n, g, End(b', g));
    var f := RunInBlock(b, n, max, g, b'[g].order);
    UniqueOwner(b, n, max, f, h, h);
  }

  lemma SameFreeTurned(b: Blocks, b': Blocks, n: nat)
    requires SameFree(b, b', n)
    ensures SameFree(b', b, n)
  {
    hide FreePage;
  }

  function FreeBlocks(b: Blocks): map<nat, nat> {
    map h | h in b && b[h].free :: b[h].order
  }

  /**
   * The free pages alone determine the free blocks: neither the history of splits and merges nor the way in which the
   * other pages are cut into allocated blocks makes a difference.
   */
  lemma FreePagesDetermine(b: Blocks, b': Blocks, n: nat, max: nat)
    requires Tiled(b, n, max) && Tiled(b', n, max) && Merged(b, max) && Merged(b', max)
    ensures SameFree(b, b', n) <==> FreeBlocks(b) == FreeBlocks(b')
  {
    hide Tiled, Merged, SameFree, FreePage;
    if SameFree(b, b', n) {
      SameFreeTurned(b, b', n);
      forall h | h in b && b[h].free ensures h in b' && b'[h] == b[h] {
        SameFreeBlock(b, b', n, max, h);
      }
      forall h | h in b' && b'[h].free ensures h in b && b'[h] == b[h] {
        SameFreeBlock(b', b, n, max, h);
      }
    }
    if FreeBlocks(b) == FreeBlocks(b') {
      SameBlocksFree(b, b', n);
    }
  }

  lemma SameBlocksFree(b: Blocks, b': Blocks, n: nat)
    requires FreeBlocks(b) == FreeBlocks(b')
    ensures SameFree(b, b', n)
  {
    forall j: nat {:trigger FreePage(b, j)} {:trigger FreePage(b', j)} | j < n
      ensures FreePage(b, j) <==> FreePage(b', j)
    {
      if FreePage(b, j) { BlocksFree(b, b', j); }
      if FreePage(b', j) { BlocksFree(b', b, j); }
    }
  }

  lemma BlocksFree(b: Blocks, b': Blocks, j: nat)
    requires FreeBlocks(b) == FreeBlocks(b') && FreePage(b, j)
    ensures FreePage(b', j)
  {
    var h :| Covers(b, h, j) && b[h].free;
    assert h in FreeBlocks(b) && FreeBlocks(b')[h] == b[h].order;
    assert Covers(b', h, j);
  }

  /** The allocated blocks determine the whole tiling. */
  lemma AllocatedDetermines(b: Blocks, b': Blocks, n: nat, max: nat)
    requires Tiled(b, n, max) && Tiled(b', n, max) && Merged(b, max) && Merged(b', max)
    requires Allocated(b) == Allocated(b')
    ensures b == b'
  {
    hide Tiled, Merged, FreePage, Taken;
    forall j: nat {:trigger FreePage(b, j)} {:trigger FreePage(b', j)} | j < n
      ensures FreePage(b, j) <==> FreePage(b', j)
    {
      FreeIffNotTaken(b, n, max, j);
      FreeIffNotTaken(b', n, max, j);
    }
    FreePagesDetermine(b, b', n, max);
    BlocksEqual(b, b');
  }

  lemma BlocksEqual(b: Blocks, b': Blocks)
    requires FreeBlocks(b) == FreeBlocks(b') && Allocated(b) == Allocated(b')
    ensures b == b'
  {
    forall h | h in b ensures h in b' && b'[h] == b[h] {
      if b[h].free {
        assert FreeBlocks(b')[h] == FreeBlocks(b)[h];
      } else {
        assert Allocated(b')[h] == Allocated(b)[h];
      }
    }
    forall h | h in b' ensures h in b {
      if b'[h].free { assert h in FreeBlocks(b); } else { assert h in Allocated(b); }
    }
  }

  // Steps between tilings

  function SetFree(b: Blocks, h: nat, free: bool): Blocks
    requires h in b
  {
    b[h := b[h].(free := free)]
  }

  lemma SetFreeTiled(b: Blocks, n: nat, max: nat, h: nat, free: bool)
    requires Tiled(b, n, max) && h in b
    ensures Tiled(SetFree(b, h, free), n, max)
    ensures free ==> Allocated(SetFree(b, h, free)) == Allocated(b) - {h}
    ensures !free ==> Allocated(SetFree(b, h, free)) == Allocated(b)[h := b[h].order]
  {
    hide Pow2, Aligned;
    var b' := SetFree(b, h, free);
    forall g {:trigger BlockOk(b', n, max, g)} | g in b'
      ensures BlockOk(b', n, max, g)
    {
      assert BlockOk(b, n, max, g);
    }
    forall f, g {:trigger Apart(b', f, g)} | f in b' && g in b' ensures Apart(b', f, g) { assert Apart(b, f, g); }
    forall j: nat {:trigger Covered(b', j)} | j < n ensures Covered(b', j) {
      var g := OwnerOf(b, n, max, j);
      assert Covers(b', g, j);
    }
  }

  /** Taking a block off its list makes no pair of free buddies. */
  lemma TakenMerged(b: Blocks, max: nat, h: nat)
    requires Merged(b, max) && h in b
    ensures Merged(SetFree(b, h, false), max)
  {
    var b' := SetFree(b, h, false);
    forall g {:trigger FreeBuddies(b', max, g)} | g in b' ensures !FreeBuddies(b', max, g) {
      assert !FreeBuddies(b, max, g);
    }
  }

  predicate BuddyFree(b: Blocks, max: nat, h: nat)
    requires h in b
  {
    var o := b[h].order;
    o < max && BuddyOf(h, o) in b && b[BuddyOf(h, o)] == Block(o, true)
  }

  lemma FreedMerged(b: Blocks, n: nat, max: nat, h: nat)
    requires Tiled(b, n, max) && h in b && Merged(SetFree(b, h, false), max) && !BuddyFree(b, max, h)
    ensures Merged(SetFree(b, h, true), max)
  {
    hide Pow2, Aligned, BuddyOf;
    var b0, b' := SetFree(b, h, false), SetFree(b, h, true);
    assert BlockOk(b, n, max, h);
    BuddyHalves(h, b[h].order);
    forall g {:trigger FreeBuddies(b', max, g)} | g in b' ensures !FreeBuddies(b', max, g) {
      assert !FreeBuddies(b0, max, g) && BlockOk(b, n, max, g);
      BuddyHalves(g, b[g].order);
    }
  }

  function Joined(b: Blocks, left: nat, right: nat): Blocks
    requires left in b
  {
    (b - {right})[left := Block(b[left].order + 1, false)]
  }

  ghost predicate Joinable(b: Blocks, n: nat, max: nat, left: nat, right: nat) {
    && Tiled(b, n, max) && left in b && right in b && b[left] == b[right] && !b[left].free
    && right == End(b, left) && b[left].order < max && Aligned(left, b[left].order + 1)
  }

  lemma JoinedTiled(b: Blocks, n: nat, max: nat, left: nat, right: nat)
    requires Joinable(b, n, max, left, right)
    ensures Tiled(Joined(b, left, right), n, max)
    ensures Allocated(Joined(b, left, right)) == (Allocated(b) - {right})[left := b[left].order + 1]
  {
    var o, b' := b[left].order, Joined(b, left, right);
    assert Pow2(o + 1) == Pow2(o) + Pow2(o);
    hide Pow2, Aligned;
    forall g {:trigger BlockOk(b', n, max, g)} | g in b' ensures BlockOk(b', n, max, g) {
      assert BlockOk(b, n, max, g) && BlockOk(b, n, max, right);
    }
    forall f, g {:trigger Apart(b', f, g)} | f in b' && g in b' ensures Apart(b', f, g) {
      assert Apart(b, f, g) && Apart(b, right, g) && Apart(b, left, g) && Apart(b, g, right);
    }
    forall j: nat {:trigger Covered(b', j)} | j < n ensures Covered(b', j) {
      var g := OwnerOf(b, n, max, j);
      assert Covers(b', if g == right then left else g, j);
    }
  }

  lemma JoinedMerged(b: Blocks, n: nat, max: nat, left: nat, right: nat)
    requires Joinable(b, n, max, left, right) && Merged(b, max)
    ensures Merged(Joined(b, left, right), max)
  {
    var b' := Joined(b, left, right);
    forall g {:trigger FreeBuddies(b', max, g)} | g in b' ensures !FreeBuddies(b', max, g) {
      assert !FreeBuddies(b, max, g);
    }
  }

  function Halved(b: Blocks, h: nat): Blocks
    requires h in b && b[h].order > 0
  {
    var o := b[h].order - 1;
    b[h := Block(o, false)][h + Pow2(o) := Block(o, false)]
  }

  lemma HalvedTiled(b: Blocks, n: nat, max: nat, h: nat)
    requires Tiled(b, n, max) && h in b && b[h].order > 0 && !b[h].free
    ensures var o := b[h].order - 1;
            && h + Pow2(o) !in b && h + Pow2(o) < n
            && Allocated(Halved(b, h)) == Allocated(b)[h := o][h + Pow2(o) := o]
    ensures Tiled(Halved(b, h), n, max)
  {
    var o, b' := b[h].order - 1, Halved(b, h);
    var right := h + Pow2(o);
    assert BlockOk(b, n, max, h);
    AlignedHalves(h, o);
    hide Pow2, Aligned;
    assert right in b ==> Apart(b, h, right);
    forall g {:trigger BlockOk(b', n, max, g)} | g in b' ensures BlockOk(b', n, max, g) {
      assert g != right ==> BlockOk(b, n, max, g);
    }
    forall f, g {:trigger Apart(b', f, g)} | f in b' && g in b' ensures Apart(b', f, g) {
      assert f != right && g != right ==> Apart(b, f, g);
      assert f == right && g != right ==> Apart(b, h, g);
      assert f != right && g == right ==> Apart(b, f, h) && Apart(b, h, f);
    }
    forall j: nat {:trigger Covered(b', j)} | j < n ensures Covered(b', j) {
      var g := OwnerOf(b, n, max, j);
      assert Covers(b', if g == h && right <= j then right else g, j);
    }
  }

  lemma HalvedMerged(b: Blocks, max: nat, h: nat)
    requires Merged(b, max) && h in b && b[h].order > 0 && h + Pow2(b[h].order - 1) !in b
    ensures Merged(Halved(b, h), max)
  {
    var b', right := Halved(b, h), h + Pow2(b[h].order - 1);
    forall g {:trigger FreeBuddies(b', max, g)} | g in b' ensures !FreeBuddies(b', max, g) {
      assert g != right ==> !FreeBuddies(b, max, g);
    }
  }
}
