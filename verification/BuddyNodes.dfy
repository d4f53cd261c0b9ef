/** How the node array stores a tiling, and what each write to it means. */
module BuddyNodes {
  import opened Arithmetic
  import opened BuddyBlocks
  import opened BuddyTiling
  import opened FreeLists

  predicate Shown(ns: Nodes, b: Blocks, j: nat)
    requires j < |ns|
  {
    && (ns[j].free <==> j in b && b[j].free)
    && (j in b ==> ns[j].order == b[j].order)
    && Aligned(j, ns[j].order)
  }

  /** The node of a block's first page holds its order and free bit; every other node keeps an old, aligned order. */
  ghost predicate Shows(ns: Nodes, b: Blocks) {
    forall j: nat {:trigger Shown(ns, b, j)} | j < |ns| :: Shown(ns, b, j)
  }

  ghost predicate SameData(ns: Nodes, ns': Nodes) {
    |ns| == |ns'| && forall j: nat {:trigger ns'[j]} | j < |ns| :: ns'[j].data == ns[j].data
  }

  function WithOrder(ns: Nodes, i: nat, o: nat): Nodes
    requires i < |ns|
  {
    ns[i := ns[i].(order := o)]
  }

  /** The order kept by a page inside a block is below the order of the block. */
  lemma StaleOrder(ns: Nodes, b: Blocks, max: nat, h: nat, j: nat)
    requires Tiled(b, |ns|, max) && Shows(ns, b) && Covers(b, h, j) && j != h
    ensures j < |ns| && ns[j].order < b[h].order && !ns[j].free
  {
    hide Pow2, Aligned;
    assert BlockOk(b, |ns|, max, h);
    assert Shown(ns, b, j);
    if b[h].order <= ns[j].order {
      Nested(h, b[h].order, j, ns[j].order);
    }
    if j in b {
      UniqueOwner(b, |ns|, max, h, j, j);
    }
  }

  lemma ShowsFreeBit(ns: Nodes, ns': Nodes, b: Blocks, i: nat, free: bool)
    requires Shows(ns, b) && FreeBitSet(ns, ns', i, free) && i in b
    ensures Shows(ns', SetFree(b, i, free)) && SameData(ns, ns')
  {
    hide Aligned;
    var b' := SetFree(b, i, free);
    forall j: nat {:trigger Shown(ns', b', j)} | j < |ns'| ensures Shown(ns', b', j) {
      assert Shown(ns, b, j) && ns'[j].order == ns[j].order;
    }
  }

  lemma ShowsJoined(ns: Nodes, b: Blocks, max: nat, left: nat, right: nat)
    requires Joinable(b, |ns|, max, left, right) && Shows(ns, b)
    ensures left < |ns| && Shows(WithOrder(ns, left, b[left].order + 1), Joined(b, left, right))
  {
    assert BlockOk(b, |ns|, max, left);
    hide Aligned, Pow2;
    var ns', b' := WithOrder(ns, left, b[left].order + 1), Joined(b, left, right);
    forall j: nat {:trigger Shown(ns', b', j)} | j < |ns'| ensures Shown(ns', b', j) {
      assert Shown(ns, b, j);
    }
  }

  lemma ShowsHalved(ns: Nodes, b: Blocks, max: nat, h: nat)
    requires Tiled(b, |ns|, max) && Shows(ns, b) && h in b && b[h].order > 0 && !b[h].free
    ensures var o := b[h].order - 1;
            var right := h + Pow2(o);
            && h < right < |ns| && !ns[right].free && !ns[h].free
            && Shows(WithOrder(WithOrder(ns, right, o), h, o), Halved(b, h))
  {
    HalvedTiled(b, |ns|, max, h);
    var o := b[h].order - 1;
    var right := h + Pow2(o);
    assert BlockOk(b, |ns|, max, h);
    AlignedHalves(h, o);
    hide Aligned, Pow2;
    assert Shown(ns, b, right) && Shown(ns, b, h);
    var ns', b' := WithOrder(WithOrder(ns, right, o), h, o), Halved(b, h);
    forall j: nat {:trigger Shown(ns', b', j)} | j < |ns'| ensures Shown(ns', b', j) {
      assert Shown(ns, b, j);
    }
  }

  lemma BlockNode(ns: Nodes, b: Blocks, max: nat, i: nat)
    requires Tiled(b, |ns|, max) && Shows(ns, b) && i in b
    ensures i < |ns| && ns[i].order == b[i].order <= max && ns[i].free == b[i].free
  {
    assert BlockOk(b, |ns|, max, i);
    assert Shown(ns, b, i);
  }

  /** What the node of a block's buddy tells about it. */
  lemma BuddyRead(ns: Nodes, b: Blocks, max: nat, i: nat)
    requires Tiled(b, |ns|, max) && Shows(ns, b) && i in b && b[i].order < max
    ensures var o := b[i].order;
            var y := BuddyOf(i, o);
            BuddyFree(b, max, i) <==> y < |ns| && ns[y].free && ns[y].order == o
  {
    hide Aligned, Pow2;
    var y := BuddyOf(i, b[i].order);
    assert BlockOk(b, |ns|, max, i);
    if y < |ns| { assert Shown(ns, b, y); }
    if y in b { assert BlockOk(b, |ns|, max, y); }
  }

  /** Two free buddies, once off their lists, are the halves of one block. */
  lemma BuddiesJoinable(b: Blocks, n: nat, max: nat, i: nat)
    requires Tiled(b, n, max) && i in b && b[i].free && BuddyFree(b, max, i)
    ensures var y := BuddyOf(i, b[i].order);
            var left, right := if i < y then i else y, if i < y then y else i;
            y != i && y in b && b[y] == b[i] && Joinable(SetFree(SetFree(b, i, false), y, false), n, max, left, right)
  {
    assert BlockOk(b, n, max, i);
    BuddyHalves(i, b[i].order);
    hide Aligned, Pow2, BuddyOf;
    var y := BuddyOf(i, b[i].order);
    SetFreeTiled(b, n, max, i, false);
    SetFreeTiled(SetFree(b, i, false), n, max, y, false);
  }

  // Runs of free pages

  ghost predicate FreeRun(b: Blocks, h: nat, o: nat) {
    Aligned(h, o) && AllFree(b, h, h + Pow2(o))
  }

  lemma FreePageBelow(b: Blocks, n: nat, max: nat, j: nat)
    requires Tiled(b, n, max) && FreePage(b, j)
    ensures j < n
  {
    var h :| Covers(b, h, j) && b[h].free;
    assert BlockOk(b, n, max, h);
  }

  lemma FreeRunFits(b: Blocks, n: nat, max: nat, h: nat, o: nat)
    requires Tiled(b, n, max) && FreeRun(b, h, o) && n < Pow2(max + 1)
    ensures h + Pow2(o) <= n && o <= max
  {
    assert FreePage(b, h + Pow2(o) - 1);
    FreePageBelow(b, n, max, h + Pow2(o) - 1);
    Pow2Below(o, max + 1);
  }

  /** A free block holds an aligned run of each smaller order at each aligned index inside it. */
  lemma BlockHoldsRun(b: Blocks, n: nat, max: nat, g: nat, i: nat, o: nat)
    requires Tiled(b, n, max) && g in b && b[g].free && o <= b[g].order && Aligned(i, o) && g <= i < End(b, g)
    ensures FreeRun(b, i, o) && i + Pow2(o) <= End(b, g)
  {
    hide Aligned, Pow2;
    assert BlockOk(b, n, max, g);
    Nested(i, o, g, b[g].order);
    BlockRun(b, n, max, g);
    hide FreePage;
  }

  /** The first block found above an index is the free block that owns it. */
  lemma ParentBlock(b: Blocks, n: nat, max: nat, i: nat, o: nat, k: nat)
    requires Tiled(b, n, max) && Aligned(i, o) && o <= k
    requires ParentAtOrder(i, k) in b && b[ParentAtOrder(i, k)] == Block(k, true)
    ensures FreeRun(b, i, o)
  {
    ParentHolds(i, k);
    BlockHoldsRun(b, n, max, ParentAtOrder(i, k), i, o);
  }

  /** Conversely a wholly free aligned run is found at some order. */
  lemma RunHasParent(b: Blocks, n: nat, max: nat, i: nat, o: nat) returns (k: nat)
    requires Tiled(b, n, max) && Merged(b, max) && FreeRun(b, i, o) && o <= max
    ensures o <= k <= max && ParentAtOrder(i, k) in b && b[ParentAtOrder(i, k)] == Block(k, true)
  {
    var g := RunInBlock(b, n, max, i, o);
    k := b[g].order;
    assert BlockOk(b, n, max, g);
    ParentIs(g, k, i);
  }

  lemma ParentIs(g: nat, k: nat, i: nat)
    requires Aligned(g, k) && g <= i < g + Pow2(k)
    ensures ParentAtOrder(i, k) == g
  {
    ParentHolds(i, k);
    hide Pow2, Aligned, ParentAtOrder;
    Nested(ParentAtOrder(i, k), k, g, k);
  }

  lemma ParentParent(i: nat, a: nat, c: nat)
    requires a <= c
    ensures ParentAtOrder(ParentAtOrder(i, a), c) == ParentAtOrder(i, c)
  {
    ParentHolds(i, a);
    ParentHolds(i, c);
    hide Pow2, Aligned, ParentAtOrder;
    Nested(ParentAtOrder(i, a), a, ParentAtOrder(i, c), c);
    ParentIs(ParentAtOrder(i, c), c, ParentAtOrder(i, a));
  }

  // Where `page_free` is called

  ghost predicate InnerOfFree(ns: Nodes, b: Blocks, max: nat, i: nat)
    requires i < |ns|
  {
    exists t {:trigger ParentAtOrder(i, t)} ::
      ns[i].order < t <= max && ParentAtOrder(i, t) in b && b[ParentAtOrder(i, t)] == Block(t, true)
  }

  /** `is_inner_idx` answers whether the index lies inside, and not at the start of, a free block. */
  lemma InnerIff(ns: Nodes, b: Blocks, max: nat, i: nat)
    requires Tiled(b, |ns|, max) && Shows(ns, b) && i < |ns|
    ensures InnerOfFree(ns, b, max, i) <==> FreePage(b, i) && i !in b
  {
    var h := OwnerOf(b, |ns|, max, i);
    FreeOwner(b, |ns|, max, h, i);
    assert Shown(ns, b, i) && BlockOk(b, |ns|, max, h);
    if InnerOfFree(ns, b, max, i) {
      var t :| ns[i].order < t <= max && ParentAtOrder(i, t) in b && b[ParentAtOrder(i, t)] == Block(t, true);
      ParentHolds(i, t);
      UniqueOwner(b, |ns|, max, h, ParentAtOrder(i, t), i);
      if i in b { UniqueOwner(b, |ns|, max, i, h, i); }
    } else if FreePage(b, i) && i !in b {
      StaleOrder(ns, b, max, h, i);
      ParentIs(h, b[h].order, i);
    }
  }

  /** The buddy read when freeing a page inside an allocated block is in the same block, so no merge starts. */
  lemma InsideAllocated(ns: Nodes, b: Blocks, max: nat, h: nat, i: nat)
    requires Tiled(b, |ns|, max) && Shows(ns, b) && Covers(b, h, i) && i != h && !b[h].free
    ensures i < |ns| && ns[i].order < max
    ensures var y := BuddyOf(i, ns[i].order);
            y < |ns| && y != i && !ns[y].free
  {
    StaleOrder(ns, b, max, h, i);
    assert Shown(ns, b, i) && BlockOk(b, |ns|, max, h);
    var o := ns[i].order;
    var y := BuddyOf(i, o);
    BuddyHalves(i, o);
    AlignedHalves(if i < y then i else y, o);
    hide Aligned, Pow2, BuddyOf, ParentAtOrder;
    Nested(if i < y then i else y, o + 1, h, b[h].order);
    assert Covers(b, h, y);
    if y != h { StaleOrder(ns, b, max, h, y); } else { assert Shown(ns, b, h); }
  }

  /** After a page inside an allocated block is put on a list, no tiling explains the nodes. */
  lemma NoTiling(ns: Nodes, b: Blocks, ns': Nodes, max: nat, h: nat, i: nat, b': Blocks)
    requires Tiled(b, |ns|, max) && Shows(ns, b) && Covers(b, h, i) && i != h
    requires FreeBitSet(ns, ns', i, true) && Tiled(b', |ns'|, max)
    ensures !Shows(ns', b')
  {
    assert BlockOk(b, |ns|, max, h);
    if Shows(ns', b') {
      assert Shown(ns', b', i);
      var g := OwnerOf(b', |ns|, max, h);
      assert BlockOk(b', |ns|, max, g) && BlockOk(b', |ns|, max, i);
      assert Shown(ns', b', g) && Shown(ns, b, g) && ns'[g].order == ns[g].order;
      var f := OwnerOf(b, |ns|, max, g);
      assert BlockOk(b, |ns|, max, f);
      hide Aligned, Pow2;
      if f != g {
        StaleOrder(ns, b, max, f, g);
        Nested(g, ns[g].order, f, b[f].order);
      }
      UniqueOwner(b, |ns|, max, f, h, h);
      assert g == h;
      UniqueOwner(b', |ns|, max, h, i, i);
    }
  }

  /** Two pages in one allocated block: freeing the second leaves nodes that no tiling explains. */
  lemma InnerPageFreed()
    ensures var ns := [PageNode(NULL_IDX, NULL_IDX, 1, false, NO_DATA),
                       PageNode(NULL_IDX, NULL_IDX, 0, false, NO_DATA)];
            var b := map[0 := Block(1, false)];
            && Tiled(b, 2, 1) && Merged(b, 1) && Shows(ns, b) && Links(ns, [NULL_IDX, NULL_IDX], [[], []])
            && forall b' | Tiled(b', 2, 1) :: !Shows(ns[1 := ns[1].(free := true)], b')
  {
    var ns := [PageNode(NULL_IDX, NULL_IDX, 1, false, NO_DATA), PageNode(NULL_IDX, NULL_IDX, 0, false, NO_DATA)];
    var b := map[0 := Block(1, false)];
    assert Pow2(0) == 1 && Pow2(1) == 2;
    assert BlockOk(b, 2, 1, 0) && Covers(b, 0, 0) && Covers(b, 0, 1);
    forall j: nat | j < 2 ensures Covered(b, j) { assert Covers(b, 0, j); }
    forall b' | Tiled(b', 2, 1) ensures !Shows(ns[1 := ns[1].(free := true)], b') {
      NoTiling(ns, b, ns[1 := ns[1].(free := true)], 1, 0, 1, b');
    }
  }

  // Giving one half of a block back

  /** The nodes show the tiling once the order of `i`, written last, is read as `o`. */
  ghost predicate ShowsWith(ns: Nodes, b: Blocks, max: nat, i: nat, o: nat) {
    && i < |ns| && !ns[i].free && Shows(WithOrder(ns, i, o), b)
    && Tiled(b, |ns|, max) && i in b && b[i] == Block(o, false)
  }

  function Given(b: Blocks, h: nat, give: nat): Blocks
    requires h in b && b[h].order > 0 && give in Halved(b, h)
  {
    SetFree(Halved(b, h), give, true)
  }

  ghost predicate Halves(h: nat, o: nat, keep: nat, give: nat) {
    (keep == h && give == h + Pow2(o)) || (give == h && keep == h + Pow2(o))
  }

  lemma GivenBlocks(b: Blocks, n: nat, max: nat, h: nat, o: nat, keep: nat, give: nat, a0: map<nat, nat>)
    requires Tiled(b, n, max) && Merged(b, max) && h in b && b[h] == Block(o + 1, false) && Halves(h, o, keep, give)
    requires Allocated(b) == a0[h := o + 1] && h !in a0
    ensures var b' := Given(b, h, give);
            && Tiled(b', n, max) && Merged(b', max) && keep in b' && b'[keep] == Block(o, false)
            && Allocated(b') == a0[keep := o] && keep !in a0
  {
    HalvedTiled(b, n, max, h);
    HalvedMerged(b, max, h);
    var b1, right := Halved(b, h), h + Pow2(o);
    assert BlockOk(b, n, max, h);
    BuddyHalves(h, o) by { AlignedHalves(h, o); }
    assert BuddyOf(give, o) == keep;
    hide Pow2, Tiled, Merged, BuddyOf, Aligned;
    assert right !in Allocated(b);
    SetFreeTiled(b1, n, max, give, true);
    assert SetFree(b1, give, false) == b1;
    FreedMerged(b1, n, max, give);
    assert a0[h := o + 1][h := o][right := o] - {give} == a0[keep := o];
  }

  lemma GivenNodes(ns: Nodes, b: Blocks, ns': Nodes, max: nat, h: nat, o: nat, keep: nat, give: nat)
    requires ShowsWith(ns, b, max, h, o + 1) && Halves(h, o, keep, give) && keep < |ns| && give < |ns|
    requires FreeBitSet(WithOrder(ns, give, o), ns', give, true)
    ensures !ns'[keep].free && Shows(WithOrder(ns', keep, o), Given(b, h, give)) && SameData(ns, ns')
    ensures ns'[keep].order == ns[keep].order
  {
    var v := WithOrder(ns, h, o + 1);
    ShowsHalved(v, b, max, h);
    var w := WithOrder(WithOrder(v, h + Pow2(o), o), h, o);
    assert w == WithOrder(WithOrder(ns, give, o), keep, o);
    ShowsFreeBit(w, WithOrder(ns', keep, o), Halved(b, h), give, true);
  }

  lemma HalvesBelow(ns: Nodes, b: Blocks, max: nat, h: nat, o: nat)
    requires ShowsWith(ns, b, max, h, o + 1)
    ensures o < max && h + Pow2(o) < |ns| && !ns[h + Pow2(o)].free && h + Pow2(o) != h && Aligned(h, o + 1)
  {
    assert BlockOk(b, |ns|, max, h);
    ShowsHalved(WithOrder(ns, h, o + 1), b, max, h);
  }

  lemma RightBuddy(i: nat, o: nat)
    requires Aligned(i, o + 1)
    ensures BuddyOf(i, o) == i + Pow2(o)
  {
  }

  lemma FreeNotAllocated(b: Blocks, i: nat)
    requires i in b && b[i].free
    ensures i !in Allocated(b)
  {
  }

  lemma SplitStarts(ns: Nodes, b: Blocks, max: nat, i: nat, o: nat)
    requires Tiled(b, |ns|, max) && Shows(ns, b) && i in b && b[i] == Block(o, false)
    ensures i < |ns| && !ns[i].free && ns[i].order == o <= max
    ensures forall t :: ShowsWith(WithOrder(ns, i, t), b, max, i, o)
    ensures forall t :: SameData(ns, WithOrder(ns, i, t))
  {
    BlockNode(ns, b, max, i);
    forall t ensures ShowsWith(WithOrder(ns, i, t), b, max, i, o) {
      assert WithOrder(WithOrder(ns, i, t), i, o) == ns;
    }
  }

  lemma SameDataTrans(a: Nodes, b: Nodes, c: Nodes)
    requires SameData(a, b) && SameData(b, c)
    ensures SameData(a, c)
  {
    forall j: nat {:trigger c[j]} | j < |a| ensures c[j].data == a[j].data {
      assert b[j].data == a[j].data;
    }
  }

  // List heads and page data

  lemma ListHead(ns: Nodes, fl: seq<nat>, ls: seq<seq<nat>>, b: Blocks, o: nat)
    requires Links(ns, fl, ls) && Shows(ns, b) && o < |ls|
    ensures |fl| == |ls| && (fl[o] != NULL_IDX ==> fl[o] < |ns| && fl[o] in b && b[fl[o]] == Block(o, true))
    ensures fl[o] == NULL_IDX ==> forall h | h in b && h < |ns| :: b[h] != Block(o, true)
  {
    assert Chain(ns, fl[o], ls[o]);
    if ls[o] != [] {
      assert Cell(ns, ls[o], 0) && ls[o][0] in ls[o];
      assert Listed(ns, ls, ls[o][0]) && Shown(ns, b, ls[o][0]);
    }
    forall h | fl[o] == NULL_IDX && h in b && h < |ns| ensures b[h] != Block(o, true) {
      assert Listed(ns, ls, h) && Shown(ns, b, h);
    }
  }

  lemma OnList(ns: Nodes, fl: seq<nat>, ls: seq<seq<nat>>, b: Blocks, i: nat, o: nat)
    requires Links(ns, fl, ls) && Shows(ns, b) && o < |ls| && i < |ns|
    ensures i in ls[o] <==> i in b && b[i] == Block(o, true)
  {
    assert Listed(ns, ls, i) && Shown(ns, b, i);
  }

  lemma DataSet(ns: Nodes, fl: seq<nat>, ls: seq<seq<nat>>, b: Blocks, i: nat, data: PageData)
    requires Links(ns, fl, ls) && Shows(ns, b) && i < |ns|
    ensures var ns' := ns[i := ns[i].(data := data)];
            Links(ns', fl, ls) && Shows(ns', b)
  {
    var ns' := ns[i := ns[i].(data := data)];
    forall o: nat {:trigger Chain(ns', fl[o], ls[o])} | o < |ls| ensures Chain(ns', fl[o], ls[o]) {
      assert Chain(ns, fl[o], ls[o]);
      forall k: nat {:trigger Cell(ns', ls[o], k)} | k < |ls[o]| ensures Cell(ns', ls[o], k) {
        assert Cell(ns, ls[o], k);
      }
    }
    forall j: nat {:trigger Listed(ns', ls, j)} | j < |ns'| ensures Listed(ns', ls, j) { assert Listed(ns, ls, j); }
    forall j: nat {:trigger Shown(ns', b, j)} | j < |ns'| ensures Shown(ns', b, j) { assert Shown(ns, b, j); }
  }

  /** With every list from `order` up empty there is no free run of that order. */
  lemma NoRun(ns: Nodes, fl: seq<nat>, ls: seq<seq<nat>>, b: Blocks, order: nat)
    requires Links(ns, fl, ls) && Shows(ns, b) && |ls| > 0 && Tiled(b, |ns|, |ls| - 1) && Merged(b, |ls| - 1)
    requires order < |ls| && forall q | order <= q < |ls| :: fl[q] == NULL_IDX
    ensures forall h :: !FreeRun(b, h, order)
  {
    forall h ensures !FreeRun(b, h, order) {
      if FreeRun(b, h, order) {
        var g := RunInBlock(b, |ns|, |ls| - 1, h, order);
        BlockNode(ns, b, |ls| - 1, g);
        ListHead(ns, fl, ls, b, b[g].order);
      }
    }
  }

  lemma HeadRun(b: Blocks, n: nat, max: nat, i: nat, o: nat)
    requires Tiled(b, n, max) && i in b && b[i].free && o <= b[i].order
    ensures FreeRun(b, i, o)
  {
    assert BlockOk(b, n, max, i);
    AlignedDown(i, o, b[i].order);
    BlockHoldsRun(b, n, max, i, i, o);
  }

  lemma OnlyData(ns: Nodes, ns1: Nodes, i: nat, data: PageData)
    requires SameData(ns, ns1) && i < |ns|
    ensures var ns2 := ns1[i := ns1[i].(data := data)];
            DataSetAt(ns, ns2, i, data)
  {
  }

  /** The page data of `i` is `data`, that of the other pages is kept. */
  ghost predicate DataSetAt(ns: Nodes, ns': Nodes, i: nat, data: PageData) {
    |ns| == |ns'| && forall j: nat {:trigger ns'[j]} | j < |ns| :: ns'[j].data == if j == i then data else ns[j].data
  }

  lemma SameDataRefl(ns: Nodes)
    ensures SameData(ns, ns)
  {
  }

  /** What `try_merge` reads of a free block, and what holds when it stops. */
  lemma MergeRead(ns: Nodes, b: Blocks, max: nat, i: nat)
    requires Tiled(b, |ns|, max) && Shows(ns, b) && i in b && b[i].free && Merged(SetFree(b, i, false), max)
    ensures i < |ns| && ns[i].order == b[i].order <= max
    ensures BuddyFree(b, max, i) <==>
              var y := BuddyOf(i, ns[i].order);
              ns[i].order < max && y < |ns| && ns[y].free && ns[y].order == ns[i].order
    ensures !BuddyFree(b, max, i) ==> Merged(b, max)
  {
    BlockNode(ns, b, max, i);
    if b[i].order < max { BuddyRead(ns, b, max, i); }
    if !BuddyFree(b, max, i) {
      FreedMerged(b, |ns|, max, i);
      assert SetFree(b, i, true) == b;
    }
  }

  lemma OwnParent(ns: Nodes, fl: seq<nat>, ls: seq<seq<nat>>, b: Blocks, i: nat)
    requires Links(ns, fl, ls) && Shows(ns, b) && i < |ns|
    ensures ns[i].order < |ls| && ParentAtOrder(i, ns[i].order) == i
  {
    assert Listed(ns, ls, i) && Shown(ns, b, i);
    ParentIs(i, ns[i].order, i);
  }

  lemma OwnNode(ns: Nodes, b: Blocks, max: nat, i: nat, h: nat)
    requires Tiled(b, |ns|, max) && Shows(ns, b) && Covers(b, h, i)
    ensures i < |ns| && (i in b <==> i == h) && (ns[i].free <==> i in b && b[i].free)
  {
    BlockNode(ns, b, max, h);
    assert BlockOk(b, |ns|, max, h);
    if i in b { UniqueOwner(b, |ns|, max, i, h, i); }
    assert Shown(ns, b, i);
  }

  lemma StillInert(ns: Nodes, ns': Nodes, i: nat)
    requires FreeBitSet(ns, ns', i, true) && i < |ns| && BuddyOf(i, ns[i].order) < |ns| && BuddyOf(i, ns[i].order) != i
    requires !ns[BuddyOf(i, ns[i].order)].free
    ensures ns'[i].order == ns[i].order && !ns'[BuddyOf(i, ns'[i].order)].free
  {
  }

  // Reserving

  lemma NodeOf(ns: Nodes, b: Blocks, j: nat, k: nat)
    requires Shows(ns, b) && j < |ns|
    ensures j in b && b[j] == Block(k, true) <==> ns[j].free && ns[j].order == k
  {
    assert Shown(ns, b, j);
  }

  lemma NotARun(b: Blocks, i: nat, o: nat)
    requires !Aligned(i, o)
    ensures !FreeRun(b, i, o)
  {
  }

  lemma NoParent(b: Blocks, n: nat, max: nat, i: nat, o: nat)
    requires Tiled(b, n, max) && Merged(b, max) && n < Pow2(max + 1)
    requires forall q {:trigger ParentAtOrder(i, q)} | o <= q <= max ::
               !(ParentAtOrder(i, q) in b && b[ParentAtOrder(i, q)] == Block(q, true))
    ensures !FreeRun(b, i, o)
  {
    if FreeRun(b, i, o) {
      FreeRunFits(b, n, max, i, o);
      var k := RunHasParent(b, n, max, i, o);
    }
  }

  /** The part kept at the end of the halving is the one asked for. */
  lemma KeptIs(ns: Nodes, b: Blocks, max: nat, cur: nat, o: nat, i: nat)
    requires ShowsWith(ns, b, max, cur, o) && cur <= i < cur + Pow2(o) && Aligned(i, o)
    ensures cur == i && o <= max && SameData(ns, WithOrder(ns, i, o))
  {
    hide Pow2, Aligned;
    assert BlockOk(b, |ns|, max, cur);
    Nested(cur, o, i, o);
  }

  // Reserving regions

  /** Of the free pages exactly those in [lo, hi) were taken, and the blocks allocated before are kept. */
  ghost predicate Reserved(b: Blocks, b': Blocks, n: nat, lo: nat, hi: nat) {
    && (forall x: nat {:trigger FreePage(b', x)} | x < n :: FreePage(b', x) <==> FreePage(b, x) && !(lo <= x < hi))
    && Keeps(Allocated(b), Allocated(b'))
  }

  predicate Keeps(a: map<nat, nat>, a': map<nat, nat>) {
    forall h {:trigger h in a'} | h in a :: h in a' && a'[h] == a[h]
  }

  /** The blocks allocated since carry `data`; the other pages keep theirs. */
  ghost predicate Tagged(ns: Nodes, a: map<nat, nat>, ns': Nodes, a': map<nat, nat>, data: PageData) {
    |ns| == |ns'| &&
    forall j: nat {:trigger ns'[j]} | j < |ns| :: ns'[j].data == if j in a' && j !in a then data else ns[j].data
  }

  lemma ReservedNothing(b: Blocks, n: nat, max: nat, lo: nat, ns: Nodes, data: PageData)
    requires Tiled(b, n, max)
    ensures AllFree(b, lo, lo) && Reserved(b, b, n, lo, lo) && Tagged(ns, Allocated(b), ns, Allocated(b), data)
  {
  }

  lemma SmallerOrder(j: nat, o: nat)
    requires !Aligned(j, o)
    ensures o > 0 && Pow2(o) == 2 * Pow2(o - 1)
  {
  }

  /** A run past what was reserved so far is free now exactly when it was free at the start. */
  lemma ReservedRun(b0: Blocks, b1: Blocks, n: nat, max: nat, lo: nat, j: nat, o: nat)
    requires Reserved(b0, b1, n, lo, j) && lo <= j && j + Pow2(o) <= n && Aligned(j, o)
    ensures FreeRun(b1, j, o) <==> AllFree(b0, j, j + Pow2(o))
  {
    hide FreePage, Pow2, Aligned;
    if AllFree(b0, j, j + Pow2(o)) {
      forall x: nat {:trigger FreePage(b1, x)} | j <= x < j + Pow2(o)
        ensures FreePage(b1, x)
      {
        assert FreePage(b0, x);
      }
    }
    if FreeRun(b1, j, o) {
      forall x: nat {:trigger FreePage(b0, x)} | j <= x < j + Pow2(o)
        ensures FreePage(b0, x)
      {
        assert FreePage(b1, x);
      }
    }
  }

  lemma PartNotFree(b: Blocks, lo: nat, p: nat, q: nat, hi: nat)
    requires lo <= p <= q <= hi && !AllFree(b, p, q)
    ensures !AllFree(b, lo, hi)
  {
  }

  lemma TakenPut(a: map<nat, nat>, i: nat, o: nat, x: nat)
    requires i !in a
    ensures Taken(a[i := o], x) <==> Taken(a, x) || i <= x < i + Pow2(o)
  {
    hide Pow2;
    var a' := a[i := o];
    if Taken(a, x) {
      var h :| h in a && h <= x < h + Pow2(a[h]);
      assert a'[h] == a[h];
    }
    if i <= x < i + Pow2(o) { assert a'[i] == o; }
    if Taken(a', x) {
      var h :| h in a' && h <= x < h + Pow2(a'[h]);
      assert h != i ==> a[h] == a'[h];
    }
  }

  lemma ReservedPiece(b0: Blocks, b1: Blocks, b2: Blocks, n: nat, max: nat, lo: nat, j: nat, o: nat)
    requires Reserved(b0, b1, n, lo, j) && lo <= j && j + Pow2(o) <= n && AllFree(b0, lo, j)
    requires AllFree(b0, j, j + Pow2(o))
    requires Tiled(b1, n, max) && Tiled(b2, n, max) && j !in Allocated(b1) && Allocated(b2) == Allocated(b1)[j := o]
    ensures Reserved(b0, b2, n, lo, j + Pow2(o)) && AllFree(b0, lo, j + Pow2(o))
  {
    hide FreePage, Pow2, Aligned, Allocated, Tiled, Taken;
    forall x: nat {:trigger FreePage(b2, x)} | x < n
      ensures FreePage(b2, x) <==> FreePage(b0, x) && !(lo <= x < j + Pow2(o))
    {
      FreeIffNotTaken(b1, n, max, x);
      FreeIffNotTaken(b2, n, max, x);
      TakenPut(Allocated(b1), j, o, x);
      assert FreePage(b1, x) <==> FreePage(b0, x) && !(lo <= x < j);
    }
    assert Keeps(Allocated(b0), Allocated(b2));
  }

  lemma ReservedKeeps(b: Blocks, b': Blocks, n: nat, lo: nat, hi: nat)
    requires Reserved(b, b', n, lo, hi)
    ensures Keeps(Allocated(b), Allocated(b'))
  {
  }

  lemma TaggedPiece(ns0: Nodes, a0: map<nat, nat>, ns1: Nodes, a1: map<nat, nat>, ns2: Nodes, ns3: Nodes,
                    a3: map<nat, nat>, j: nat, o: nat, data: PageData)
    requires Tagged(ns0, a0, ns1, a1, data) && SameData(ns1, ns2) && j < |ns2| && ns3 == ns2[j := ns2[j].(data := data)]
    requires a3 == a1[j := o] && j !in a1 && Keeps(a0, a1)
    ensures Tagged(ns0, a0, ns3, a3, data)
  {
    forall x: nat {:trigger ns3[x]} | x < |ns0|
      ensures ns3[x].data == if x in a3 && x !in a0 then data else ns0[x].data
    {
      assert ns1[x].data == if x in a1 && x !in a0 then data else ns0[x].data;
      assert x != j ==> ns2[x].data == ns1[x].data;
      assert j in a0 ==> j in a1;
    }
  }

  // Initial blocks

  /** The blocks so far all are free and of order at least `last`, and what remains is smaller than that. */
  ghost predicate Descending(b: Blocks, i: nat, remaining: nat, max: nat, last: nat) {
    && last <= max + 1 && remaining < Pow2(last) && Aligned(i, last)
    && forall h | h in b :: b[h].order >= last && b[h].free
  }

  lemma InitStarts(ns: Nodes, fl: seq<nat>, ls: seq<seq<nat>>, max: nat)
    requires 0 < |ns| <= NULL_IDX && |ns| < Pow2(max + 1) && |fl| == |ls| == max + 1
    requires forall j | 0 <= j < |ns| :: ns[j] == PageNode(NULL_IDX, NULL_IDX, 0, false, NO_DATA)
    requires forall o | 0 <= o < |fl| :: fl[o] == NULL_IDX && ls[o] == []
    ensures Links(ns, fl, ls) && Shows(ns, map[])
    ensures Tiled(map[], 0, max) && Merged(map[], max) && Descending(map[], 0, |ns|, max, max + 1)
  {
    forall o: nat {:trigger Chain(ns, fl[o], ls[o])} | o < |ls| ensures Chain(ns, fl[o], ls[o]) { assert ls[o] == []; }
    forall j: nat {:trigger Listed(ns, ls, j)} | j < |ns| ensures Listed(ns, ls, j) {
      assert forall o | 0 <= o < |ls| :: j !in ls[o] by {
        forall o | 0 <= o < |ls| ensures j !in ls[o] { assert ls[o] == []; }
      }
    }
    assert Pow2(0) == 1;
  }

  lemma InitBlock(ns: Nodes, b: Blocks, max: nat, i: nat, remaining: nat, last: nat)
    requires remaining > 0 && i + remaining == |ns| && Shows(ns, b)
    requires Tiled(b, i, max) && Merged(b, max) && Descending(b, i, remaining, max, last)
    ensures var o := Log2Floor(remaining);
            var b' := b[i := Block(o, true)];
            && o <= max && Pow2(o) <= remaining && !ns[i].free && Aligned(i, o) && i !in b
            && Tiled(b', i + Pow2(o), max) && Merged(b', max) &&
            Descending(b', i + Pow2(o), remaining - Pow2(o), max, o)
  {
    var o := Log2Floor(remaining);
    Log2FloorBounds(remaining);
    Pow2Below(o, last);
    AlignedDown(i, o, last);
    AlignedEnd(i, o);
    assert Pow2(o + 1) == 2 * Pow2(o);
    hide Pow2, Aligned, Log2Floor;
    assert i in b ==> BlockOk(b, i, max, i);
    assert Shown(ns, b, i);
    InitTiled(b, max, i, o);
    InitMerged(b, i, max, i, o);
  }

  lemma InitTiled(b: Blocks, max: nat, i: nat, o: nat)
    requires Tiled(b, i, max) && o <= max && Aligned(i, o) && i !in b
    ensures Tiled(b[i := Block(o, true)], i + Pow2(o), max)
  {
    hide Pow2, Aligned;
    var b', n' := b[i := Block(o, true)], i + Pow2(o);
    forall h {:trigger BlockOk(b', n', max, h)} | h in b'
      ensures BlockOk(b', n', max, h)
    {
      assert h != i ==> BlockOk(b, i, max, h);
    }
    forall g, h {:trigger Apart(b', g, h)} | g in b' && h in b' ensures Apart(b', g, h) {
      assert g != i ==> BlockOk(b, i, max, g);
      assert h != i ==> BlockOk(b, i, max, h);
      assert g != i && h != i ==> Apart(b, g, h);
    }
    forall j: nat {:trigger Covered(b', j)} | j < n' ensures Covered(b', j) {
      if j < i {
        var h := OwnerOf(b, i, max, j);
        assert Covers(b', h, j);
      } else {
        assert Covers(b', i, j);
      }
    }
  }

  lemma InitMerged(b: Blocks, n: nat, max: nat, i: nat, o: nat)
    requires Tiled(b, n, max) && Merged(b, max) && i !in b && forall h | h in b :: b[h].order > o
    ensures Merged(b[i := Block(o, true)], max)
  {
    hide Pow2, Aligned, BuddyOf;
    var b' := b[i := Block(o, true)];
    forall h {:trigger FreeBuddies(b', max, h)} | h in b' ensures !FreeBuddies(b', max, h) {
      assert h != i ==> !FreeBuddies(b, max, h);
      NotOwnBuddy(h, b'[h].order);
    }
  }

  lemma NotOwnBuddy(i: nat, o: nat)
    ensures BuddyOf(i, o) != i
  {
    if i < Pow2(o) && i == 0 { DivUnique(0, Pow2(o + 1), 0, 0); }
  }

  lemma InitShows(ns: Nodes, ns': Nodes, b: Blocks, i: nat, o: nat)
    requires Shows(ns, b) && i < |ns| && i !in b && Aligned(i, o) && FreeBitSet(WithOrder(ns, i, o), ns', i, true)
    ensures Shows(ns', b[i := Block(o, true)]) && SameData(ns, ns')
  {
    hide Aligned;
    var b' := b[i := Block(o, true)];
    forall j: nat {:trigger Shown(ns', b', j)} | j < |ns'| ensures Shown(ns', b', j) {
      assert Shown(ns, b, j) && ns'[j].order == WithOrder(ns, i, o)[j].order;
    }
  }

  lemma InitData(ns: Nodes, ns': Nodes, b: Blocks, max: nat)
    requires SameData(ns, ns') && (forall j | 0 <= j < |ns| :: ns[j].data == NO_DATA)
    requires (forall h | h in b :: b[h].free)
    ensures (forall j | 0 <= j < |ns'| :: ns'[j].data == NO_DATA) && Allocated(b) == map[]
  {
  }

  /** With the same pages free, every list holds the same blocks. */
  lemma ListsDetermined(ns: Nodes, fl: seq<nat>, ls: seq<seq<nat>>, b: Blocks, ns': Nodes, fl': seq<nat>,
                        ls': seq<seq<nat>>, b': Blocks, max: nat, o: nat, j: nat)
    requires Tiled(b, |ns|, max) && Merged(b, max) && Shows(ns, b) && Links(ns, fl, ls)
    requires Tiled(b', |ns|, max) && Merged(b', max) && Shows(ns', b') && Links(ns', fl', ls') && |ns'| == |ns|
    requires SameFree(b, b', |ns|) && o < |ls| && o < |ls'| && j < |ns|
    ensures j in ls[o] <==> j in ls'[o]
  {
    hide Tiled, Merged, SameFree, Chain;
    FreePagesDetermine(b, b', |ns|, max);
    assert Shown(ns, b, j) && Shown(ns', b', j) && Listed(ns, ls, j) && Listed(ns', ls', j);
    assert j in FreeBlocks(b) <==> j in FreeBlocks(b');
    if j in FreeBlocks(b) { assert FreeBlocks(b)[j] == FreeBlocks(b')[j]; }
  }

  /** Freeing what was just allocated gives back exactly the same blocks. */
  lemma MallocThenFree(b: Blocks, b1: Blocks, b2: Blocks, n: nat, max: nat, i: nat, o: nat)
    requires Tiled(b, n, max) && Merged(b, max) && Tiled(b2, n, max) && Merged(b2, max) && i !in Allocated(b)
    requires Allocated(b1) == Allocated(b)[i := o] && Allocated(b2) == Allocated(b1) - {i}
    ensures b2 == b
  {
    hide Tiled, Merged, Allocated;
    assert Allocated(b)[i := o] - {i} == Allocated(b);
    AllocatedDetermines(b, b2, n, max);
  }
}
