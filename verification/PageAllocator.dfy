/** The buddy page allocator of src/kernel/mm/malloc/page_allocator/page_allocator.c, updated in place. */
module PageAllocator {
  import opened Arithmetic
  import opened BuddyBlocks
  import opened BuddyTiling
  import opened FreeLists
  import opened BuddyNodes
  import opened Sequences

  datatype FreeResult = Freed | Permanent | DoubleFree | InvalidPa

  /** `early_memreg`, with the address as a page index. */
  datatype MemReg = MemReg(page: nat, pages: nat, free: bool, data: PageData)

  predicate InReg(r: MemReg, x: nat) {
    !r.free && r.page <= x < r.page + r.pages
  }

  ghost predicate InRegs(regs: seq<MemReg>, k: nat, x: nat) {
    exists i: nat {:trigger regs[i]} :: i < k && i < |regs| && InReg(regs[i], x)
  }

  /** Every page of the first `k` regions is free, and no two of them meet. */
  ghost predicate Reservable(b: Blocks, regs: seq<MemReg>, k: nat)
    requires k <= |regs|
  {
    forall i: nat, x: nat {:trigger InReg(regs[i], x)} | i < k && InReg(regs[i], x) ::
      FreePage(b, x) && !InRegs(regs, i, x)
  }

  /** Exactly the pages of the first `k` regions were taken. */
  ghost predicate TookRegions(b: Blocks, b': Blocks, n: nat, regs: seq<MemReg>, k: nat) {
    && (forall x: nat {:trigger FreePage(b', x)} | x < n :: FreePage(b', x) <==> FreePage(b, x) && !InRegs(regs, k, x))
    && Keeps(Allocated(b), Allocated(b'))
  }

  lemma InRegsNext(regs: seq<MemReg>, k: nat, x: nat)
    requires k < |regs|
    ensures InRegs(regs, k + 1, x) <==> InRegs(regs, k, x) || InReg(regs[k], x)
  {
    if InRegs(regs, k, x) {
      var i: nat :| i < k && i < |regs| && InReg(regs[i], x);
      assert InRegs(regs, k + 1, x);
    }
  }

  lemma RegionsStart(b: Blocks, n: nat, regs: seq<MemReg>)
    ensures TookRegions(b, b, n, regs, 0) && Reservable(b, regs, 0)
  {
  }

  lemma FreeRegion(b0: Blocks, b: Blocks, n: nat, regs: seq<MemReg>, i: nat)
    requires i < |regs| && regs[i].free && TookRegions(b0, b, n, regs, i) && Reservable(b0, regs, i)
    ensures TookRegions(b0, b, n, regs, i + 1) && Reservable(b0, regs, i + 1)
  {
    hide FreePage, InRegs;
    forall x: nat {:trigger FreePage(b, x)} | x < n
      ensures FreePage(b, x) <==> FreePage(b0, x) && !InRegs(regs, i + 1, x)
    {
      InRegsNext(regs, i, x);
    }
  }

  /** The next region is free now exactly when it was free at the start and meets no earlier one. */
  lemma RegionFree(b0: Blocks, b1: Blocks, n: nat, regs: seq<MemReg>, i: nat)
    requires i < |regs| && !regs[i].free && regs[i].page + regs[i].pages <= n && TookRegions(b0, b1, n, regs, i)
    ensures AllFree(b1, regs[i].page, regs[i].page + regs[i].pages) <==>
            forall x: nat {:trigger InReg(regs[i], x)} | InReg(regs[i], x) :: FreePage(b0, x) && !InRegs(regs, i, x)
  {
    hide FreePage, InRegs;
    var r := regs[i];
    if AllFree(b1, r.page, r.page + r.pages) {
      forall x: nat {:trigger InReg(regs[i], x)} | InReg(regs[i], x)
        ensures FreePage(b0, x) && !InRegs(regs, i, x)
      {
        assert FreePage(b1, x);
      }
    } else {
      var x: nat :| r.page <= x < r.page + r.pages && !FreePage(b1, x);
      assert InReg(regs[i], x);
    }
  }

  lemma NotReservable(b: Blocks, regs: seq<MemReg>, i: nat)
    requires i < |regs|
    requires !(forall x: nat {:trigger InReg(regs[i], x)} | InReg(regs[i], x) :: FreePage(b, x) && !InRegs(regs, i, x))
    ensures !Reservable(b, regs, |regs|)
  {
  }

  lemma RegionTaken(b0: Blocks, b1: Blocks, b2: Blocks, n: nat, regs: seq<MemReg>, i: nat)
    requires i < |regs| && !regs[i].free && TookRegions(b0, b1, n, regs, i) && Reservable(b0, regs, i)
    requires Reserved(b1, b2, n, regs[i].page, regs[i].page + regs[i].pages)
    requires forall x: nat {:trigger InReg(regs[i], x)} | InReg(regs[i], x) :: FreePage(b0, x) && !InRegs(regs, i, x)
    ensures TookRegions(b0, b2, n, regs, i + 1) && Reservable(b0, regs, i + 1)
  {
    hide FreePage, InRegs;
    forall x: nat {:trigger FreePage(b2, x)} | x < n
      ensures FreePage(b2, x) <==> FreePage(b0, x) && !InRegs(regs, i + 1, x)
    {
      InRegsNext(regs, i, x);
      assert FreePage(b1, x) <==> FreePage(b0, x) && !InRegs(regs, i, x);
    }
  }

  /** The largest aligned block that starts at `j` and fits. */
  method LargestPiece(j: nat, remaining: nat) returns (o: nat)
    requires remaining > 0
    ensures Aligned(j, o) && Pow2(o) <= remaining
    ensures forall q: nat | Aligned(j, q) && Pow2(q) <= remaining :: q <= o
  {
    hide Aligned;
    o := Log2Floor(remaining);
    Log2FloorBounds(remaining);
    forall q: nat | Pow2(q) <= remaining ensures q <= o {
      Pow2Below(q, o + 1);
    }
    hide Pow2;
    while !Aligned(j, o)
      invariant Pow2(o) <= remaining
      invariant forall q: nat | Aligned(j, q) && Pow2(q) <= remaining :: q <= o
      decreases o
    {
      SmallerOrder(j, o);
      o := o - 1;
    }
  }

  class Allocator {
    const n: nat
    const maxOrder: nat
    const nodes: array<PageNode>
    const freeLists: array<nat>
    ghost var blocks: Blocks
    ghost var lists: seq<seq<nat>>

    ghost predicate Lists()
      reads this, nodes, freeLists
    {
      && nodes.Length == n && freeLists.Length == |lists| == maxOrder + 1 && n < Pow2(maxOrder + 1)
      && Links(nodes[..], freeLists[..], lists)
    }

    /** Blocks tile the pages, and the lists hold exactly the free ones. */
    ghost predicate Structure()
      reads this, nodes, freeLists
    {
      Lists() && Shows(nodes[..], blocks) && Tiled(blocks, n, maxOrder)
    }

    ghost predicate Valid()
      reads this, nodes, freeLists
    {
      Structure() && Merged(blocks, maxOrder)
    }

    /** `page_allocator_init`: the pages in blocks of strictly falling order. */
    constructor (pages: nat)
      requires 0 < pages <= NULL_IDX
      ensures n == pages && maxOrder == Log2Floor(pages) && fresh(nodes) && fresh(freeLists)
      ensures Valid() && Allocated(blocks) == map[]
      ensures forall j | 0 <= j < n :: nodes[j].data == NO_DATA
    {
      n := pages;
      maxOrder := Log2Floor(pages);
      nodes := new PageNode[pages](_ => PageNode(NULL_IDX, NULL_IDX, 0, false, NO_DATA));
      freeLists := new nat[Log2Floor(pages) + 1](_ => NULL_IDX);
      blocks, lists := map[], seq(Log2Floor(pages) + 1, _ => []);
      new;
      hide Pow2, Log2Floor, Aligned, Tiled, Merged, Links, Shows, FreeBitSet, SameData;
      Log2FloorBounds(pages);
      InitStarts(nodes[..], freeLists[..], lists, maxOrder);
      ghost var ns0 := nodes[..];
      SameDataRefl(ns0);
      var i: nat, remaining: nat := 0, n;
      ghost var last: nat := maxOrder + 1;
      while remaining > 0
        invariant i + remaining == n && Lists() && Shows(nodes[..], blocks) && SameData(ns0, nodes[..])
        invariant Tiled(blocks, i, maxOrder) && Merged(blocks, maxOrder)
        invariant Descending(blocks, i, remaining, maxOrder, last)
      {
        var o := Log2Floor(remaining);
        InitBlock(nodes[..], blocks, maxOrder, i, remaining, last);
        ghost var ns1 := nodes[..];
        SetOrder(i, o);
        ghost var ns2 := nodes[..];
        PushToList(i);
        InitShows(ns1, nodes[..], blocks, i, o);
        SameDataTrans(ns0, ns1, nodes[..]);
        blocks := blocks[i := Block(o, true)];
        last := o;
        i := i + Pow2(o);
        remaining := remaining - Pow2(o);
      }
      InitData(ns0, nodes[..], blocks, maxOrder);
    }

    method PushToList(i: nat)
      requires Lists() && i < n && !nodes[i].free
      modifies nodes, freeLists, this`lists
      ensures Lists() && FreeBitSet(old(nodes[..]), nodes[..], i, true)
    {
      hide Links, FreeBitSet, Pow2;
      PushedLinks(nodes[..], freeLists[..], lists, i);
      var o := nodes[i].order;
      var head := freeLists[o];
      nodes[i] := nodes[i].(prev := NULL_IDX);
      nodes[i] := nodes[i].(next := head);
      if head != NULL_IDX {
        nodes[head] := nodes[head].(prev := i);
      }
      freeLists[o] := i;
      nodes[i] := nodes[i].(free := true);
      lists := lists[o := [i] + lists[o]];
      assert nodes[..] == Pushed(old(nodes[..]), i, head);
    }

    method RemoveFromList(i: nat)
      requires Lists() && i < n && nodes[i].free
      modifies nodes, freeLists, this`lists
      ensures Lists() && FreeBitSet(old(nodes[..]), nodes[..], i, false)
    {
      hide Links, FreeBitSet, Pow2;
      ghost var k := RemovedLinks(nodes[..], freeLists[..], lists, i);
      var o := nodes[i].order;
      if nodes[i].prev == NULL_IDX {
        freeLists[o] := nodes[i].next;
        if nodes[i].next != NULL_IDX {
          nodes[nodes[i].next] := nodes[nodes[i].next].(prev := NULL_IDX);
        }
      } else {
        nodes[nodes[i].prev] := nodes[nodes[i].prev].(next := nodes[i].next);
        if nodes[i].next != NULL_IDX {
          nodes[nodes[i].next] := nodes[nodes[i].next].(prev := nodes[i].prev);
        }
      }
      nodes[i] := nodes[i].(next := NULL_IDX);
      nodes[i] := nodes[i].(prev := NULL_IDX);
      nodes[i] := nodes[i].(free := false);
      lists := lists[o := Without(lists[o], k)];
      assert nodes[..] == Removed(old(nodes[..]), i);
    }

    method SetOrder(i: nat, o: nat)
      requires Lists() && i < n && !nodes[i].free && o <= maxOrder
      modifies nodes
      ensures Lists() && nodes[..] == WithOrder(old(nodes[..]), i, o)
    {
      hide Links, Pow2;
      OrderSet(nodes[..], freeLists[..], lists, i, o);
      nodes[i] := nodes[i].(order := o);
      assert nodes[..] == WithOrder(old(nodes[..]), i, o);
    }

    /** A block goes on its list. */
    method Release(i: nat)
      requires Structure() && i in blocks && !blocks[i].free
      modifies nodes, freeLists, this
      ensures Structure() && blocks == SetFree(old(blocks), i, true)
      ensures SameData(old(nodes[..]), nodes[..]) && Allocated(blocks) == old(Allocated(blocks)) - {i}
    {
      hide Links, FreeBitSet, Pow2, Tiled, Shows, Allocated;
      BlockNode(nodes[..], blocks, maxOrder, i);
      PushToList(i);
      ShowsFreeBit(old(nodes[..]), nodes[..], blocks, i, true);
      SetFreeTiled(blocks, n, maxOrder, i, true);
      blocks := SetFree(blocks, i, true);
    }

    /** A block leaves its list. */
    method Take(i: nat)
      requires Structure() && i in blocks && blocks[i].free
      modifies nodes, freeLists, this
      ensures Structure() && blocks == SetFree(old(blocks), i, false)
      ensures SameData(old(nodes[..]), nodes[..])
      ensures Allocated(blocks) == old(Allocated(blocks))[i := old(blocks)[i].order]
    {
      hide Links, FreeBitSet, Pow2, Tiled, Shows, Allocated;
      BlockNode(nodes[..], blocks, maxOrder, i);
      RemoveFromList(i);
      ShowsFreeBit(old(nodes[..]), nodes[..], blocks, i, false);
      SetFreeTiled(blocks, n, maxOrder, i, false);
      blocks := SetFree(blocks, i, false);
    }

    /** One half of the block at the smaller of `keep` and `give` goes on its list, the other is kept. */
    method GiveHalf(keep: nat, give: nat, o: nat, ghost h: nat, ghost a0: map<nat, nat>)
      requires Lists() && ShowsWith(nodes[..], blocks, maxOrder, h, o + 1) && Halves(h, o, keep, give)
      requires Merged(blocks, maxOrder)
      requires Allocated(blocks) == a0[h := o + 1] && h !in a0
      modifies nodes, freeLists, this
      ensures Lists() && ShowsWith(nodes[..], blocks, maxOrder, keep, o) && Merged(blocks, maxOrder)
      ensures Allocated(blocks) == a0[keep := o] && keep !in a0
      ensures SameData(old(nodes[..]), nodes[..]) && keep < n && nodes[keep].order == old(nodes[keep].order)
    {
      hide Links, FreeBitSet, Pow2, Tiled, Shows, Allocated, Merged, SameData, SetFree;
      HalvesBelow(nodes[..], blocks, maxOrder, h, o);
      GivenBlocks(blocks, n, maxOrder, h, o, keep, give, a0);
      SetOrder(give, o);
      PushToList(give);
      GivenNodes(old(nodes[..]), blocks, nodes[..], maxOrder, h, o, keep, give);
      blocks := Given(blocks, h, give);
    }

    method SplitToOrderAndPop(i: nat, target: nat)
      requires Valid() && i in blocks && blocks[i].free && blocks[i].order > target
      modifies nodes, freeLists, this
      ensures Valid() && Allocated(blocks) == old(Allocated(blocks))[i := target] && i < n
      ensures SameData(old(nodes[..]), nodes[..])
    {
      hide Links, FreeBitSet, Pow2, Tiled, Shows, Allocated, Merged, SameData, BuddyOf, Aligned;
      BlockNode(nodes[..], blocks, maxOrder, i);
      var o := nodes[i].order;
      ghost var a0 := Allocated(blocks);
      FreeNotAllocated(blocks, i);
      TakenMerged(blocks, maxOrder, i);
      Take(i);
      ghost var ns := nodes[..];
      SplitStarts(ns, blocks, maxOrder, i, o);
      SetOrder(i, target);
      SameDataTrans(old(nodes[..]), ns, nodes[..]);
      while o > target
        invariant Lists() && target <= o && ShowsWith(nodes[..], blocks, maxOrder, i, o) && Merged(blocks, maxOrder)
        invariant Allocated(blocks) == a0[i := o] && i !in a0
        invariant SameData(old(nodes[..]), nodes[..]) && nodes[i].order == target
      {
        o := o - 1;
        HalvesBelow(nodes[..], blocks, maxOrder, i, o);
        var b := BuddyOf(i, o);
        ghost var before := nodes[..];
        assert b == i + Pow2(o) by { RightBuddy(i, o); }
        GiveHalf(i, b, o, i, a0);
        SameDataTrans(old(nodes[..]), before, nodes[..]);
      }
      assert WithOrder(nodes[..], i, target) == nodes[..];
    }

    /** Two allocated halves become one allocated block. */
    method Join(left: nat, ghost right: nat, o: nat)
      requires Structure() && Joinable(blocks, n, maxOrder, left, right) && blocks[left].order == o
      modifies nodes, this`blocks
      ensures Structure() && blocks == Joined(old(blocks), left, right) && SameData(old(nodes[..]), nodes[..])
    {
      hide Links, Pow2, Tiled, Shows, Aligned;
      BlockNode(nodes[..], blocks, maxOrder, left);
      ShowsJoined(nodes[..], blocks, maxOrder, left, right);
      JoinedTiled(blocks, n, maxOrder, left, right);
      SetOrder(left, o + 1);
      blocks := Joined(blocks, left, right);
    }

    /** The block at `i` is free and may have a free buddy; no other block does. */
    ghost predicate Unmerged(i: nat)
      reads this, nodes, freeLists
    {
      Structure() && i in blocks && blocks[i].free && Merged(SetFree(blocks, i, false), maxOrder)
    }

    /** The buddy that will be read is not free. */
    ghost predicate Inert(i: nat)
      reads this, nodes, freeLists
    {
      Lists() && i < n && nodes[i].order < maxOrder && BuddyOf(i, nodes[i].order) < n &&
      !nodes[BuddyOf(i, nodes[i].order)].free
    }

    /** One turn of the loop of `try_merge`: the block and its free buddy become one free block. */
    method MergeWith(i: nat, b: nat, o: nat) returns (left: nat)
      requires Unmerged(i) && BuddyFree(blocks, maxOrder, i) && o == blocks[i].order && b == BuddyOf(i, o)
      modifies nodes, freeLists, this
      ensures Unmerged(left) && blocks[left].order == o + 1
      ensures Allocated(blocks) == old(Allocated(blocks)) && SameData(old(nodes[..]), nodes[..])
    {
      hide Links, FreeBitSet, Pow2, Tiled, Shows, Allocated, Merged, SameData, BuddyOf, Aligned;
      ghost var b0, ns0 := blocks, nodes[..];
      BuddiesJoinable(blocks, n, maxOrder, i);
      FreeNotAllocated(blocks, i);
      FreeNotAllocated(blocks, b);
      Take(i);
      TakenMerged(blocks, maxOrder, b);
      ghost var ns1 := nodes[..];
      Take(b);
      ghost var ns2 := nodes[..];
      left := if i < b then i else b;
      ghost var right := if i < b then b else i;
      JoinedMerged(blocks, n, maxOrder, left, right);
      JoinedTiled(blocks, n, maxOrder, left, right);
      Join(left, right, o);
      ghost var b3, ns3 := blocks, nodes[..];
      Release(left);
      assert SetFree(blocks, left, false) == b3;
      SameDataTrans(ns0, ns1, ns2);
      SameDataTrans(ns0, ns2, ns3);
      SameDataTrans(ns0, ns3, nodes[..]);
    }

    /**
     * `try_merge`. A buddy past the last page counts as not free; `BuddyInRangeIff` says when there is one.
     * With `inert` the page is not the start of a block, and the first buddy read ends the loop.
     */
    method TryMerge(start: nat, ghost inert: bool)
      requires if inert then Inert(start) else Unmerged(start)
      modifies nodes, freeLists, this
      ensures inert ==>
                nodes[..] == old(nodes[..]) && freeLists[..] == old(freeLists[..]) && lists == old(lists) &&
                blocks == old(blocks)
      ensures !inert ==> Valid() && Allocated(blocks) == old(Allocated(blocks)) && SameData(old(nodes[..]), nodes[..])
    {
      hide Links, FreeBitSet, Pow2, Tiled, Shows, Allocated, Merged, SameData, BuddyOf, Aligned, SetFree;
      var i: nat := start;
      SameDataRefl(nodes[..]);
      if !inert { BlockNode(nodes[..], blocks, maxOrder, i); }
      while true
        invariant inert ==>
                    Inert(i) && nodes[..] == old(nodes[..]) && freeLists[..] == old(freeLists[..]) &&
                    lists == old(lists) && blocks == old(blocks)
        invariant !inert ==>
                    Unmerged(i) && Allocated(blocks) == old(Allocated(blocks)) && SameData(old(nodes[..]), nodes[..])
        invariant i < n && nodes[i].order <= maxOrder
        decreases maxOrder - nodes[i].order
      {
        if !inert { MergeRead(nodes[..], blocks, maxOrder, i); }
        var o := nodes[i].order;
        if o == maxOrder {
          return;
        }
        var b := BuddyOf(i, o);
        if b >= n || !nodes[b].free || nodes[b].order != o {
          return;
        }
        ghost var before := nodes[..];
        i := MergeWith(i, b, o);
        SameDataTrans(old(nodes[..]), before, nodes[..]);
        BlockNode(nodes[..], blocks, maxOrder, i);
      }
    }

    method SetData(i: nat, data: PageData)
      requires Valid() && i < n
      modifies nodes
      ensures Valid() && nodes[..] == old(nodes[..])[i := old(nodes[i]).(data := data)]
    {
      hide Links, Pow2, Tiled, Shows, Merged;
      DataSet(nodes[..], freeLists[..], lists, blocks, i, data);
      nodes[i] := nodes[i].(data := data);
      assert nodes[..] == old(nodes[..])[i := old(nodes[i]).(data := data)];
    }

    /** `page_malloc`: fails, as the source panics, exactly when no aligned run of the order is free. */
    method PageMalloc(order: nat, data: PageData) returns (ok: bool, i: nat)
      requires Valid() && order <= maxOrder
      modifies nodes, freeLists, this
      ensures ok <==> exists h :: FreeRun(old(blocks), h, order)
      ensures ok ==>
                Valid() && FreeRun(old(blocks), i, order) && Allocated(blocks) == old(Allocated(blocks))[i := order]
      ensures ok ==> i !in old(Allocated(blocks)) && DataSetAt(old(nodes[..]), nodes[..], i, data)
      ensures !ok ==>
                nodes[..] == old(nodes[..]) && freeLists[..] == old(freeLists[..]) && lists == old(lists) &&
                blocks == old(blocks)
    {
      hide Links, Pow2, Tiled, Shows, Merged, Allocated, FreeRun, SameData, DataSetAt;
      i := freeLists[order];
      ListHead(nodes[..], freeLists[..], lists, blocks, order);
      if i == NULL_IDX {
        for o := order to maxOrder + 1
          invariant freeLists[..] == old(freeLists[..]) && nodes[..] == old(nodes[..]) && lists == old(lists)
          invariant blocks == old(blocks)
          invariant forall q | order <= q < o :: freeLists[..][q] == NULL_IDX
        {
          i := freeLists[o];
          ListHead(nodes[..], freeLists[..], lists, blocks, o);
          if i != NULL_IDX {
            HeadRun(blocks, n, maxOrder, i, order);
            FreeNotAllocated(blocks, i);
            SplitToOrderAndPop(i, order);
            OnlyData(old(nodes[..]), nodes[..], i, data);
            SetData(i, data);
            return true, i;
          }
        }
        NoRun(nodes[..], freeLists[..], lists, blocks, order);
        return false, i;
      }
      HeadRun(blocks, n, maxOrder, i, order);
      FreeNotAllocated(blocks, i);
      TakenMerged(blocks, maxOrder, i);
      Take(i);
      OnlyData(old(nodes[..]), nodes[..], i, data);
      SetData(i, data);
      ok := true;
    }

    method IsInOrderFreeList(i: nat, o: nat) returns (r: bool)
      requires Lists() && i < n && o <= maxOrder
      ensures r <==> i in lists[o]
    {
      hide Pow2, Listed;
      ghost var l := lists[o];
      assert Chain(nodes[..], freeLists[..][o], l);
      var j := freeLists[o];
      if j == NULL_IDX {
        assert l != [] ==> Cell(nodes[..], l, 0);
        return false;
      }
      ghost var k := 0;
      while true
        invariant 0 <= k < |l| && j == l[k] && i !in l[..k]
        decreases |l| - k
      {
        if i == j {
          return true;
        }
        assert Cell(nodes[..], l, k);
        if nodes[j].next != NULL_IDX {
          j := nodes[j].next;
          k := k + 1;
        } else {
          assert k + 1 < |l| ==> Cell(nodes[..], l, k + 1);
          assert l == l[..k] + [l[k]];
          return false;
        }
      }
    }

    /** `is_inner_idx`: the index lies inside a free block, and is not its start. */
    method IsInnerIdx(start: nat) returns (r: bool)
      requires Structure() && start < n
      ensures r <==> FreePage(blocks, start) && start !in blocks
    {
      hide Links, Pow2, Tiled, Shows, Aligned, FreePage, ParentAtOrder;
      InnerIff(nodes[..], blocks, maxOrder, start);
      OwnParent(nodes[..], freeLists[..], lists, blocks, start);
      var i := start;
      for t := nodes[start].order + 1 to maxOrder + 1
        invariant i == ParentAtOrder(start, t - 1) && i <= start
        invariant forall q {:trigger ParentAtOrder(start, q)} | nodes[start].order < q < t ::
                    !(ParentAtOrder(start, q) in blocks && blocks[ParentAtOrder(start, q)] == Block(q, true))
      {
        ParentParent(start, t - 1, t);
        ParentHolds(start, t);
        i := ParentAtOrder(i, t);
        var found := IsInOrderFreeList(i, t);
        OnList(nodes[..], freeLists[..], lists, blocks, i, t);
        if found {
          return true;
        }
      }
      r := false;
    }

    /**
     * `page_free`. A page of a free block is refused. For any other page that is not permanent the page goes on a list:
     * that is right when the page starts an allocated block, and otherwise leaves nodes that no tiling explains.
     */
    method PageFree(i: nat) returns (r: FreeResult)
      requires Valid() && i < n
      modifies nodes, freeLists, this
      ensures r == Permanent <==> old(nodes[i].data.permanent)
      ensures r == DoubleFree <==> !old(nodes[i].data.permanent) && i in old(blocks) && old(blocks)[i].free
      ensures r == InvalidPa <==> !old(nodes[i].data.permanent) && FreePage(old(blocks), i) && i !in old(blocks)
      ensures r == Freed <==> !old(nodes[i].data.permanent) && !FreePage(old(blocks), i)
      ensures r != Freed ==>
                nodes[..] == old(nodes[..]) && freeLists[..] == old(freeLists[..]) && lists == old(lists) &&
                blocks == old(blocks)
      ensures r == Freed && i in old(blocks) ==>
                Valid() && Allocated(blocks) == old(Allocated(blocks)) - {i} && SameData(old(nodes[..]), nodes[..])
      ensures r == Freed && i !in old(blocks) ==> forall b | Tiled(b, n, maxOrder) :: !Shows(nodes[..], b)
    {
      hide Links, Pow2, Tiled, Shows, Aligned, FreePage, Merged, Allocated, SameData, BuddyOf, FreeBitSet;
      ghost var h := OwnerOf(blocks, n, maxOrder, i);
      FreeOwner(blocks, n, maxOrder, h, i);
      OwnNode(nodes[..], blocks, maxOrder, i, h);
      if nodes[i].data.permanent {
        return Permanent;
      }
      if nodes[i].free {
        return DoubleFree;
      }
      var inner := IsInnerIdx(i);
      if inner {
        return InvalidPa;
      }
      ghost var b0, ns := blocks, nodes[..];
      if i !in blocks { InsideAllocated(nodes[..], blocks, maxOrder, h, i); }
      PushToList(i);
      ghost var ns1 := nodes[..];
      if i in blocks {
        ShowsFreeBit(ns, ns1, blocks, i, true);
        SetFreeTiled(blocks, n, maxOrder, i, true);
        blocks := SetFree(blocks, i, true);
        assert SetFree(blocks, i, false) == b0;
      } else {
        StillInert(ns, ns1, i);
      }
      TryMerge(i, i !in b0);
      if i in b0 {
        SameDataTrans(ns, ns1, nodes[..]);
      } else {
        forall b | Tiled(b, n, maxOrder) ensures !Shows(nodes[..], b) {
          NoTiling(ns, b0, nodes[..], maxOrder, h, i, b);
        }
      }
      r := Freed;
    }

    /** The search loop of `reserve`: the smallest free block above the index, if there is one. */
    method FindParent(i: nat, o: nat) returns (k: nat, base: nat)
      requires Valid() && i < n
      ensures k <= maxOrder ==>
                o <= k && base == ParentAtOrder(i, k) && base in blocks && blocks[base] == Block(k, true)
      ensures k > maxOrder ==> forall q {:trigger ParentAtOrder(i, q)} | o <= q <= maxOrder ::
                                 !(ParentAtOrder(i, q) in blocks && blocks[ParentAtOrder(i, q)] == Block(q, true))
    {
      hide Links, Pow2, Tiled, Shows, Aligned, Merged, ParentAtOrder;
      k, base := o, 0;
      while k <= maxOrder
        invariant o <= k && (k <= maxOrder || k == maxOrder + 1 || k == o)
        invariant forall q {:trigger ParentAtOrder(i, q)} | o <= q < k ::
                    !(ParentAtOrder(i, q) in blocks && blocks[ParentAtOrder(i, q)] == Block(q, true))
      {
        base := ParentAtOrder(i, k);
        ParentHolds(i, k);
        NodeOf(nodes[..], blocks, base, k);
        if nodes[base].free && nodes[base].order == k {
          return;
        }
        k := k + 1;
      }
    }

    /**
     * `reserve`: takes one aligned run out of the free blocks; refused, as the source panics, exactly when it is not
     * wholly free.
     */
    method Reserve(i: nat, o: nat) returns (ok: bool)
      requires Valid() && i < n
      modifies nodes, freeLists, this
      ensures ok <==> FreeRun(old(blocks), i, o)
      ensures ok ==> Valid() && Allocated(blocks) == old(Allocated(blocks))[i := o] && i !in old(Allocated(blocks))
      ensures ok ==> SameData(old(nodes[..]), nodes[..])
      ensures !ok ==>
                nodes[..] == old(nodes[..]) && freeLists[..] == old(freeLists[..]) && lists == old(lists) &&
                blocks == old(blocks)
    {
      hide Links, Pow2, Tiled, Shows, Aligned, Merged, ParentAtOrder, Allocated, FreeRun, SameData, FreeBitSet, Given;
      if !Aligned(i, o) {
        NotARun(blocks, i, o);
        return false;
      }
      var k, base := FindParent(i, o);
      if k > maxOrder {
        NoParent(blocks, n, maxOrder, i, o);
        return false;
      }
      ParentBlock(blocks, n, maxOrder, i, o, k);
      ParentHolds(i, k);
      ghost var a0, ns0 := Allocated(blocks), nodes[..];
      FreeNotAllocated(blocks, base);
      TakenMerged(blocks, maxOrder, base);
      Take(base);
      var cur: nat, curO: nat := base, k;
      SplitStarts(nodes[..], blocks, maxOrder, cur, curO);
      assert WithOrder(nodes[..], cur, curO) == nodes[..];
      while curO > o
        invariant Lists() && o <= curO && ShowsWith(nodes[..], blocks, maxOrder, cur, curO) && Merged(blocks, maxOrder)
        invariant Allocated(blocks) == a0[cur := curO] && cur !in a0 && SameData(ns0, nodes[..])
        invariant cur <= i < cur + Pow2(curO)
      {
        curO := curO - 1;
        HalvesBelow(nodes[..], blocks, maxOrder, cur, curO);
        AlignedHalves(cur, curO);
        var left, right := cur, cur + Pow2(curO);
        ghost var before := nodes[..];
        if i < right {
          GiveHalf(left, right, curO, left, a0);
          cur := left;
        } else {
          GiveHalf(right, left, curO, left, a0);
          cur := right;
        }
        SameDataTrans(ns0, before, nodes[..]);
      }
      KeptIs(nodes[..], blocks, maxOrder, cur, o, i);
      ghost var before := nodes[..];
      SetOrder(cur, o);
      SameDataTrans(ns0, before, nodes[..]);
      ok := true;
    }

    /** The inner loop of `page_allocator_update_memregs`: one region in aligned pieces. */
    method ReserveRegion(page: nat, pages: nat, data: PageData) returns (ok: bool)
      requires Valid() && page + pages <= n
      modifies nodes, freeLists, this
      ensures ok <==> AllFree(old(blocks), page, page + pages)
      ensures ok ==> Valid() && Reserved(old(blocks), blocks, n, page, page + pages)
      ensures ok ==> Tagged(old(nodes[..]), old(Allocated(blocks)), nodes[..], Allocated(blocks), data)
    {
      hide Links, Pow2, Tiled, Shows, Aligned, Merged, Allocated, FreeRun, SameData, AllFree, Reserved, Tagged,
        FreePage, Log2Floor;
      var remaining: nat, j: nat := pages, page;
      ghost var b0, ns0, a0 := blocks, nodes[..], Allocated(blocks);
      ReservedNothing(b0, n, maxOrder, page, ns0, data);
      while remaining > 0
        invariant j + remaining == page + pages && page <= j
        invariant Valid() && AllFree(b0, page, j) && Reserved(b0, blocks, n, page, j)
        invariant Tagged(ns0, a0, nodes[..], Allocated(blocks), data)
      {
        var o := LargestPiece(j, remaining);
        ghost var b1, ns1, a1 := blocks, nodes[..], Allocated(blocks);
        ok := Reserve(j, o);
        ReservedRun(b0, b1, n, maxOrder, page, j, o);
        if !ok {
          PartNotFree(b0, page, j, j + Pow2(o), page + pages);
          return;
        }
        ReservedPiece(b0, b1, blocks, n, maxOrder, page, j, o);
        ghost var ns2 := nodes[..];
        SetData(j, data);
        assert Keeps(a0, a1) by { ReservedKeeps(b0, b1, n, page, j); }
        TaggedPiece(ns0, a0, ns1, a1, ns2, nodes[..], Allocated(blocks), j, o, data);
        remaining := remaining - Pow2(o);
        j := j + Pow2(o);
      }
      ok := true;
    }

    /**
     * `page_allocator_update_memregs`. It succeeds exactly when every page of every region to reserve is free and in no
     * earlier one, and then takes exactly those pages.
     */
    method UpdateMemregs(regs: seq<MemReg>) returns (ok: bool)
      requires Valid() && forall r | r in regs && !r.free :: r.page + r.pages <= n
      modifies nodes, freeLists, this
      ensures ok <==> Reservable(old(blocks), regs, |regs|)
      ensures ok ==> Valid() && TookRegions(old(blocks), blocks, n, regs, |regs|)
    {
      hide Links, Pow2, Tiled, Shows, Aligned, Merged, Allocated, FreePage, AllFree, Reserved, Tagged, TookRegions,
        Reservable;
      ghost var b0 := blocks;
      RegionsStart(b0, n, regs);
      for i := 0 to |regs|
        invariant Valid() && TookRegions(b0, blocks, n, regs, i) && Reservable(b0, regs, i)
      {
        var e := regs[i];
        if e.free {
          FreeRegion(b0, blocks, n, regs, i);
        } else {
          ghost var b1 := blocks;
          ok := ReserveRegion(e.page, e.pages, e.data);
          RegionFree(b0, b1, n, regs, i);
          if !ok {
            NotReservable(b0, regs, i);
            return;
          }
          RegionTaken(b0, b1, blocks, n, regs, i);
        }
      }
      ok := true;
    }
  }
}
