/** One of the two pairs of free and reserved lists of src/kernel/mm/malloc/vmalloc/vmalloc.c, updated in place. */
module Vmalloc {
  import opened Arithmetic
  import opened Descriptors
  import opened VirtualRanges

  const PAGE_L2: nat := 0x20_0000
  const PAGE_L1: nat := 0x4000_0000

  datatype AddrInfo = IsFree(span: Span) | IsReserved(span: Span) | Unregistered

  /** `NotReserved` and `IsPermanent` are failed assertions; at `NullLink` the search runs past the end of its list. */
  datatype FreeResult = Freed | NotReserved | IsPermanent | NullLink

  /** `dynamic_fits_page_aligned`. */
  predicate FitsAligned(align: nat, bytes: nat, s: Span)
    requires align > 0
  {
    AlignUp(s.start, align) < End(s) && AlignUp(s.start, align) + bytes <= End(s)
  }

  /** The alignment that is looked for first. */
  function Wanted(bytes: nat): (align: nat)
    ensures align == PAGE_SIZE || align == PAGE_L2 || align == PAGE_L1
  {
    if bytes >= PAGE_L1 then PAGE_L1 else if bytes >= PAGE_L2 then PAGE_L2 else PAGE_SIZE
  }

  predicate FitsWell(s: Span, bytes: nat) {
    bytes <= s.size && s.size >= PAGE_SIZE && FitsAligned(Wanted(bytes), bytes, s)
  }

  /**
   * The range comes from the first span that fits with the wanted alignment, or, if there is none, from the first that
   * fits.
   */
  ghost predicate Chosen(l: seq<Span>, bytes: nat, i: nat, va: nat) {
    && i < |l|
    && if exists j :: 0 <= j < |l| && FitsWell(l[j], bytes)
       then
         && FitsWell(l[i], bytes) && (forall j | 0 <= j < i :: !FitsWell(l[j], bytes))
         && va == AlignUp(l[i].start, PAGE_SIZE)
       else bytes <= l[i].size && (forall j | 0 <= j < i :: l[j].size < bytes) && va == l[i].start
  }

  lemma SmallestAlignment(x: nat, align: nat)
    requires align == PAGE_SIZE || align == PAGE_L2 || align == PAGE_L1
    ensures x <= AlignUp(x, PAGE_SIZE) < x + PAGE_SIZE && AlignUp(x, PAGE_SIZE) <= AlignUp(x, align)
  {
    var y, q := AlignUp(x, align), x / align + if x % align == 0 then 0 else 1;
    assert y == align * q;
    DivUnique(y, PAGE_SIZE, align / PAGE_SIZE * q, 0);
    NextMultiple(x, y);
  }

  lemma NextMultiple(x: nat, y: nat)
    requires x <= y && y % PAGE_SIZE == 0
    ensures x <= AlignUp(x, PAGE_SIZE) < x + PAGE_SIZE && AlignUp(x, PAGE_SIZE) <= y
  {
    var p, r, q := x / PAGE_SIZE, x % PAGE_SIZE, y / PAGE_SIZE;
    assert x == p * PAGE_SIZE + r && y == q * PAGE_SIZE;
  }

  lemma AlignedFits(s: Span, bytes: nat)
    requires FitsWell(s, bytes)
    ensures s.start <= AlignUp(s.start, PAGE_SIZE) && AlignUp(s.start, PAGE_SIZE) + bytes <= End(s)
  {
    SmallestAlignment(s.start, Wanted(bytes));
  }

  class RangeLists {
    const lo: nat
    const hi: nat
    var free: seq<Span>
    var reserved: seq<Span>
    var permanent: set<nat>

    /** The free spans are the maximal intervals of the free addresses; free and reserved spans partition [lo, hi). */
    ghost predicate Valid()
      reads this
    {
      && Maximal(free) && Ordered(reserved) && lo <= hi && Bytes(free) + Bytes(reserved) == hi - lo
      && Partition(free, reserved, lo, hi)
    }

    /** `vmalloc_init`. */
    constructor (lo: nat, hi: nat)
      requires lo < hi
      ensures Valid() && this.lo == lo && this.hi == hi && free == [Span(lo, hi - lo)] && reserved == []
    {
      this.lo, this.hi := lo, hi;
      free, reserved, permanent := [Span(lo, hi - lo)], [], {};
      new;
      OneBytes(Span(lo, hi - lo));
      forall a: nat {:trigger InList(free, a)}
        ensures InList(free, a) <==> lo <= a < hi
      {
        OneIn(Span(lo, hi - lo), a);
      }
    }

    /** `reserve_from_fva_node`. */
    method ReserveFrom(i: nat, va: nat, bytes: nat)
      requires Maximal(free) && i < |free| && free[i].start <= va && va + bytes <= End(free[i]) && bytes > 0
      modifies this`free
      ensures Took(old(free), free, va, bytes)
      ensures forall a: nat {:trigger InList(old(free), a)} | va <= a < va + bytes :: InList(old(free), a)
    {
      hide Maximal, Took, InList;
      TakenOut(free, i, va, bytes);
      var cur := free[i];
      var end := cur.start + cur.size;
      if va == cur.start && bytes == cur.size {
        free := free[..i] + free[i + 1..];
      } else if va == cur.start {
        free := free[i := Span(cur.start + bytes, cur.size - bytes)];
      } else if va + bytes == end {
        free := free[i := Span(cur.start, va - cur.start)];
      } else {
        free := free[..i] + [Span(cur.start, va - cur.start), Span(va + bytes, end - (va + bytes))] + free[i + 1..];
      }
      assert free == Splice(old(free), i, i + 1, Left(cur, va, bytes));
    }

    /** `pop_fva` on the fixed list: exactly the asked range, which must be free. */
    method PopAt(va: nat, bytes: nat) returns (ok: bool)
      requires Maximal(free) && bytes > 0
      modifies this`free
      ensures ok <==> forall a: nat {:trigger InList(old(free), a)} | va <= a < va + bytes :: InList(old(free), a)
      ensures ok ==> Took(old(free), free, va, bytes)
      ensures !ok ==> free == old(free)
    {
      hide Maximal, Took, InList;
      RunInSpan(free, va, bytes);
      for i := 0 to |free|
        invariant free == old(free) && forall j | 0 <= j < i :: !(free[j].start <= va && va + bytes <= End(free[j]))
      {
        if free[i].start <= va && End(free[i]) >= va + bytes {
          ReserveFrom(i, va, bytes);
          return true;
        }
      }
      ok := false;
    }

    /** `pop_fva` on the dynamic list. */
    method PopAny(bytes: nat) returns (ok: bool, va: nat, ghost at: nat)
      requires Maximal(free) && bytes > 0
      modifies this`free
      ensures ok <==> exists i :: 0 <= i < |old(free)| && bytes <= old(free)[i].size
      ensures ok ==> Took(old(free), free, va, bytes) && Chosen(old(free), bytes, at, va)
      ensures ok ==> forall a: nat {:trigger InList(old(free), a)} | va <= a < va + bytes :: InList(old(free), a)
      ensures !ok ==> free == old(free)
    {
      hide Maximal, Took, InList, FitsAligned, AlignUp;
      va, at := 0, 0;
      var unaligned, found := 0, false;
      for i := 0 to |free|
        invariant free == old(free) && forall j | 0 <= j < i :: !FitsWell(free[j], bytes)
        invariant found ==>
                    unaligned < i && bytes <= free[unaligned].size &&
                    forall j | 0 <= j < unaligned :: free[j].size < bytes
        invariant !found ==> forall j | 0 <= j < i :: free[j].size < bytes
      {
        if bytes <= free[i].size {
          if free[i].size >= PAGE_SIZE && FitsAligned(Wanted(bytes), bytes, free[i]) {
            va, at := AlignUp(free[i].start, PAGE_SIZE), i;
            AlignedFits(free[i], bytes);
            ReserveFrom(i, va, bytes);
            return true, va, at;
          }
          if !found {
            found, unaligned := true, i;
          }
        }
      }
      if found {
        va, at := free[unaligned].start, unaligned;
        ReserveFrom(unaligned, va, bytes);
        return true, va, at;
      }
      ok := false;
    }

    /** The first free span that does not start below `va`. */
    method PlaceOf(va: nat) returns (k: nat)
      ensures k <= |free| && (forall j | 0 <= j < k :: free[j].start < va) && (k < |free| ==> va <= free[k].start)
    {
      k := 0;
      while k < |free| && free[k].start < va
        invariant k <= |free| && forall j | 0 <= j < k :: free[j].start < va
      {
        k := k + 1;
      }
    }

    /** The range joins the span before it, the span after it, both, or neither. */
    method JoinAt(k: nat, va: nat, bytes: nat)
      requires k <= |free|
      modifies this`free
      ensures free == Given(old(free), k, va, bytes)
    {
      hide Splice;
      ghost var l := free;
      if k > 0 && free[k - 1].start + free[k - 1].size == va {
        var prev := free[k - 1];
        free := free[k - 1 := Span(prev.start, prev.size + bytes)];
        if k < |free| && va + bytes == free[k].start {
          JoinIsSplice(l, k - 1, Span(prev.start, prev.size + bytes),
                       Span(prev.start, prev.size + bytes + free[k].size));
          free := free[..k - 1] + [Span(prev.start, prev.size + bytes + free[k].size)] + free[k + 1..];
        } else {
          WriteIsSplice(l, k - 1, Span(prev.start, prev.size + bytes));
        }
      } else if k < |free| && va + bytes == free[k].start {
        WriteIsSplice(l, k, Span(va, free[k].size + bytes));
        free := free[k := Span(va, free[k].size + bytes)];
      } else {
        InsertIsSplice(l, k, Span(va, bytes));
        free := free[..k] + [Span(va, bytes)] + free[k..];
      }
    }

    /** `push_fva`. */
    method PushFree(va: nat, bytes: nat)
      requires Maximal(free) && bytes > 0
      requires forall a: nat {:trigger InList(free, a)} | va <= a < va + bytes :: !InList(free, a)
      modifies this`free
      ensures Gave(old(free), free, va, bytes)
    {
      hide Maximal, Gave, InList, PlaceFor, Given;
      var k := PlaceOf(va);
      FreePlace(free, k, va, bytes);
      GivenBack(free, k, va, bytes);
      JoinAt(k, va, bytes);
    }

    /** `push_rva`: the list stays in address order. */
    method PushReserved(start: nat, bytes: nat) returns (ghost k: nat)
      requires Ordered(reserved) && bytes > 0
      requires forall a: nat {:trigger InList(reserved, a)} | start <= a < start + bytes :: !InList(reserved, a)
      modifies this`reserved
      ensures k <= |old(reserved)| && reserved == Splice(old(reserved), k, k, [Span(start, bytes)]) && Ordered(reserved)
      ensures Bytes(reserved) == Bytes(old(reserved)) + bytes
      ensures forall a: nat {:trigger InList(reserved, a)} ::
                InList(reserved, a) <==> InList(old(reserved), a) || start <= a < start + bytes
    {
      var j: nat := 0;
      while j < |reserved| && reserved[j].start < start
        invariant j <= |reserved| && reserved == old(reserved) && forall i | 0 <= i < j :: reserved[i].start < start
      {
        j := j + 1;
      }
      k := j;
      ReservedPlace(reserved, j, start, bytes);
      ghost var l := reserved;
      reserved := reserved[..j] + [Span(start, bytes)] + reserved[j..];
      assert reserved == Splice(l, j, j, [Span(start, bytes)]);
      InsertedIn(l, j, Span(start, bytes));
    }

    /** `pop_rva`. The search of `find_rva` ends only at the start it looks for, unless the list is empty. */
    method PopReserved(start: nat) returns (r: FreeResult, bytes: nat, ghost k: nat)
      requires Ordered(reserved)
      modifies this`reserved
      ensures var known := exists i :: 0 <= i < |old(reserved)| && old(reserved)[i].start == start;
              && (r == NotReserved <==> old(reserved) == []) && (r == NullLink <==> old(reserved) != [] && !known)
              && (r == IsPermanent <==> known && start in permanent) && (r == Freed <==> known && start !in permanent)
      ensures r != Freed ==> reserved == old(reserved)
      ensures r == Freed ==>
                k < |old(reserved)| && old(reserved)[k] == Span(start, bytes) &&
                reserved == Splice(old(reserved), k, k + 1, [])
      ensures r == Freed ==> Ordered(reserved) && bytes > 0 && Bytes(reserved) + bytes == Bytes(old(reserved))
      ensures r == Freed ==>
                forall a: nat {:trigger InList(reserved, a)} ::
                  InList(reserved, a) <==> InList(old(reserved), a) && !(start <= a < start + bytes)
      ensures r == Freed ==>
                forall a: nat {:trigger InList(old(reserved), a)} | start <= a < start + bytes ::
                  InList(old(reserved), a)
    {
      hide InList, Bytes;
      bytes, k := 0, 0;
      if reserved == [] {
        return NotReserved, 0, 0;
      }
      var j: nat := 0;
      while j < |reserved| && reserved[j].start != start
        invariant j <= |reserved| && reserved == old(reserved) && forall i | 0 <= i < j :: reserved[i].start != start
      {
        j := j + 1;
      }
      if j == |reserved| {
        return NullLink, 0, 0;
      }
      if start in permanent {
        return IsPermanent, 0, 0;
      }
      bytes := reserved[j].size;
      k := j;
      ghost var l := reserved;
      DroppedIn(l, j);
      reserved := reserved[..j] + reserved[j + 1..];
      assert reserved == Splice(l, j, j + 1, []);
      r := Freed;
    }

    /**
     * `vmalloc` at a fixed address: succeeds exactly when the number of pages is a power of two, the range is to be
     * assigned and it is free.
     */
    method VmallocAt(va: nat, pages: nat, assignPa: bool, isPermanent: bool) returns (ok: bool)
      requires Valid()
      modifies this
      ensures Valid()
      ensures ok <==>
              && IsPow2(pages) && assignPa
              && forall a: nat {:trigger InList(old(free), a)} | va <= a < va + pages * PAGE_SIZE ::
                InList(old(free), a)
      ensures !ok ==> free == old(free) && reserved == old(reserved) && permanent == old(permanent)
      ensures ok ==>
                && Took(old(free), free, va, pages * PAGE_SIZE)
                && permanent == old(permanent) + if isPermanent then {va} else {}
      ensures ok ==>
                exists k: nat {:trigger Splice(old(reserved), k, k, [Span(va, pages * PAGE_SIZE)])} ::
                  && k <= |old(reserved)|
                  && reserved == Splice(old(reserved), k, k, [Span(va, pages * PAGE_SIZE)])
    {
      hide Maximal, InList, Ordered, Took, Bytes, Splice, Partition;
      if !IsPow2(pages) || !assignPa {
        return false;
      }
      var bytes := pages * PAGE_SIZE;
      ghost var f, r := free, reserved;
      ok := PopAt(va, bytes);
      if !ok {
        return;
      }
      TookMeans(f, free, va, bytes);
      VirtualRanges.NotReserved(f, r, va, bytes, lo, hi);
      ghost var k := PushReserved(va, bytes);
      PartitionTake(f, free, r, reserved, va, bytes, lo, hi);
      if isPermanent {
        permanent := permanent + {va};
      }
    }

    /** `vmalloc` anywhere: succeeds exactly when some free span is large enough. */
    method VmallocAny(bytes: nat, isPermanent: bool) returns (ok: bool, va: nat, ghost at: nat)
      requires Valid() && bytes > 0
      modifies this
      ensures Valid() && (ok <==> exists i :: 0 <= i < |old(free)| && bytes <= old(free)[i].size)
      ensures !ok ==> free == old(free) && reserved == old(reserved) && permanent == old(permanent)
      ensures ok ==>
                exists k: nat {:trigger Splice(old(reserved), k, k, [Span(va, bytes)])} ::
                  k <= |old(reserved)| && reserved == Splice(old(reserved), k, k, [Span(va, bytes)])
      ensures ok ==> Took(old(free), free, va, bytes) && permanent == old(permanent) + if isPermanent then {va} else {}
      ensures ok ==> Chosen(old(free), bytes, at, va)
      ensures ok ==> forall a: nat {:trigger InList(old(free), a)} | va <= a < va + bytes :: InList(old(free), a)
    {
      hide Chosen, Maximal, InList, Ordered, Took, Bytes, Splice, Partition;
      ghost var f, r := free, reserved;
      ok, va, at := PopAny(bytes);
      if !ok {
        return;
      }
      TookMeans(f, free, va, bytes);
      VirtualRanges.NotReserved(f, r, va, bytes, lo, hi);
      ghost var k := PushReserved(va, bytes);
      PartitionTake(f, free, r, reserved, va, bytes, lo, hi);
      if isPermanent {
        permanent := permanent + {va};
      }
    }

    /** `vfree`: the range joins the free ranges around it. */
    method Vfree(va: nat) returns (result: FreeResult, bytes: nat)
      requires Valid()
      modifies this
      ensures Valid() && permanent == old(permanent)
      ensures var known := exists i :: 0 <= i < |old(reserved)| && old(reserved)[i].start == va;
              && (result == NotReserved <==> old(reserved) == []) &&
              (result == NullLink <==> old(reserved) != [] && !known)
              && (result == IsPermanent <==> known && va in permanent) &&
              (result == Freed <==> known && va !in permanent)
      ensures result != Freed ==> free == old(free) && reserved == old(reserved)
      ensures result == Freed ==>
                exists k: nat {:trigger Splice(old(reserved), k, k + 1, [])} ::
                  k < |old(reserved)| && old(reserved)[k] == Span(va, bytes) &&
                  reserved == Splice(old(reserved), k, k + 1, [])
      ensures result == Freed ==> Gave(old(free), free, va, bytes)
    {
      hide Maximal, InList, Ordered, Gave, Bytes, Splice, Partition;
      ghost var f, r := free, reserved;
      ghost var k;
      result, bytes, k := PopReserved(va);
      if result != Freed {
        return;
      }
      VirtualRanges.NotReserved(f, r, va, bytes, lo, hi);
      PushFree(va, bytes);
      GaveMeans(f, free, va, bytes);
      PartitionGive(f, free, r, reserved, va, bytes, lo, hi);
    }

    /** `vmalloc_get_addr_info`: every address of the lists is in one span, free or reserved. */
    method GetAddrInfo(a: nat) returns (info: AddrInfo)
      requires Valid()
      ensures info.IsFree? <==> InList(free, a)
      ensures info.IsReserved? <==> InList(reserved, a)
      ensures info.IsFree? ==> info.span in free && In(info.span, a)
      ensures info.IsReserved? ==> info.span in reserved && In(info.span, a)
      ensures info.Unregistered? <==> !(lo <= a < hi)
    {
      var i := 0;
      while i < |free| && free[i].start <= a
        invariant 0 <= i <= |free| && forall j | 0 <= j < i :: !In(free[j], a)
      {
        if End(free[i]) > a {
          assert InList(free, a);
          return IsFree(free[i]);
        }
        i := i + 1;
      }
      assert !InList(free, a);
      i := 0;
      while i < |reserved| && reserved[i].start <= a
        invariant 0 <= i <= |reserved| && forall j | 0 <= j < i :: !In(reserved[j], a)
      {
        if End(reserved[i]) > a {
          assert InList(reserved, a);
          return IsReserved(reserved[i]);
        }
        i := i + 1;
      }
      assert !InList(reserved, a);
      info := Unregistered;
    }
  }
}
