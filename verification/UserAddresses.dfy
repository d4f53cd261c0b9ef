/**
 * The 64-bit address arithmetic of user regions: ends that wrap, and what the access check, the reservation and the
 * search for room make of them (src/kernel/mm/malloc/uregion.c:208-220, 745-854).
 */
module UserAddresses {
  import opened Arithmetic
  import opened Descriptors
  import opened MmuMeaning
  import opened Sequences
  import opened UserRegions

  // Access checks

  /** `align_up(start + size, PAGE_ALIGN)`. */
  function RangeEnd(start: nat, size: nat): nat {
    AlignDown(((start + size) % U64 + PAGE_SIZE - 1) % U64)
  }

  predicate Wraps(start: nat, size: nat) {
    start + size + PAGE_SIZE - 1 >= U64
  }

  lemma AlignDownUp(x: nat)
    ensures AlignDown(x + PAGE_SIZE - 1) == AlignUp(x, PAGE_SIZE)
  {
    var q, r := x / PAGE_SIZE, x % PAGE_SIZE;
    if r == 0 {
      DivUnique(x + PAGE_SIZE - 1, PAGE_SIZE, q, PAGE_SIZE - 1);
    } else {
      DivUnique(x + PAGE_SIZE - 1, PAGE_SIZE, q + 1, r - 1);
    }
  }

  lemma RangeEndUnwrapped(start: nat, size: nat)
    requires !Wraps(start, size)
    ensures RangeEnd(start, size) == AlignUp(start + size, PAGE_SIZE)
  {
    DivUnique(start + size, U64, 0, start + size);
    DivUnique(start + size + PAGE_SIZE - 1, U64, 0, start + size + PAGE_SIZE - 1);
    AlignDownUp(start + size);
  }

  /** A wrapped end leaves at most the first page to be checked. */
  lemma RangeEndWrapped(start: nat, size: nat)
    requires start < U64 && size < U64 && Wraps(start, size)
    ensures RangeEnd(start, size) <= AlignDown(start) || RangeEnd(start, size) == AlignDown(start) + PAGE_SIZE
    ensures start + size < U64 ==> RangeEnd(start, size) == 0
  {
    var x := start + size;
    var y := if x < U64 then x else x - U64;
    DivUnique(x, U64, if x < U64 then 0 else 1, y);
    if x < U64 {
      DivUnique(x + PAGE_SIZE - 1, U64, 1, x + PAGE_SIZE - 1 - U64);
      DivUnique(x + PAGE_SIZE - 1 - U64, PAGE_SIZE, 0, x + PAGE_SIZE - 1 - U64);
    } else {
      var z := (y + PAGE_SIZE - 1) % U64;
      assert z <= y + PAGE_SIZE - 1;
      DownBelow(z, start);
    }
  }

  lemma DownBelow(z: nat, start: nat)
    requires z < start + PAGE_SIZE
    ensures AlignDown(z) <= AlignDown(start) || AlignDown(z) == AlignDown(start) + PAGE_SIZE
  {
    var p, q := z / PAGE_SIZE, start / PAGE_SIZE;
    assert p <= q + 1;
  }

  lemma BoundsAligned(start: nat, size: nat)
    ensures AlignDown(start) % PAGE_SIZE == 0 && RangeEnd(start, size) % PAGE_SIZE == 0
  {
    DownAligned(start);
    DownAligned(((start + size) % U64 + PAGE_SIZE - 1) % U64);
  }

  lemma DownAligned(x: nat)
    ensures AlignDown(x) % PAGE_SIZE == 0
  {
    DivUnique(AlignDown(x), PAGE_SIZE, x / PAGE_SIZE, 0);
  }

  /** What passing the check says of the bytes. */
  lemma CheckedRange(rs: seq<Region>, required: set<Perm>, forbidden: set<Perm>, start: nat, size: nat)
    requires AllAccess(rs, required, forbidden, AlignDown(start), RangeEnd(start, size))
    ensures !Wraps(start, size) || size == 0 ==> AllAccess(rs, required, forbidden, start, start + size)
    ensures size > 0 && start + size <= USER_END ==> !Wraps(start, size)
  {
    hide AllAccess, RangeEnd, AlignDown, AlignUp;
    if !Wraps(start, size) {
      RangeEndUnwrapped(start, size);
      Rounded(start, size);
      InnerAccess(rs, required, forbidden, AlignDown(start), AlignUp(start + size, PAGE_SIZE), start, start + size);
    } else if size == 0 {
      NoBytes(rs, required, forbidden, start);
    }
  }

  lemma NoBytes(rs: seq<Region>, required: set<Perm>, forbidden: set<Perm>, start: nat)
    ensures AllAccess(rs, required, forbidden, start, start)
  {
  }

  /** Passing the check means that the bytes of the range are accessible, in whatever state. */
  ghost predicate CheckSound(start: nat, size: nat) {
    forall rs, required, forbidden {:trigger AllAccess(rs, required, forbidden, AlignDown(start),
                                                       RangeEnd(start, size))} |
      Shapes(rs) && (forall j | 0 <= j < |rs| :: RegionOk(rs[j])) &&
      AllAccess(rs, required, forbidden, AlignDown(start), RangeEnd(start, size)) ::
      AllAccess(rs, required, forbidden, start, start + size)
  }

  /** The first page is checked although the end wraps, and no region can have it committed. */
  predicate AboveLimit(start: nat, size: nat) {
    AlignDown(start) < RangeEnd(start, size) && USER_END <= AlignDown(start)
  }

  /**
   * The check is sound exactly for empty ranges and for those whose rounded end does not wrap, the case above the user
   * limit aside.
   */
  lemma CheckSoundIff(start: nat, size: nat)
    requires start < U64 && size < U64
    ensures CheckSound(start, size) <==> size == 0 || !Wraps(start, size) || AboveLimit(start, size)
  {
    hide Shapes, RegionOk, RangeEnd;
    if size == 0 {
    } else if !Wraps(start, size) {
      SoundUnwrapped(start, size);
    } else if AboveLimit(start, size) {
      SoundAbove(start, size);
    } else {
      RangeEndWrapped(start, size);
      if RangeEnd(start, size) <= AlignDown(start) {
        UnsoundEmpty(start, size);
      } else {
        UnsoundPage(start, size);
      }
    }
  }

  lemma SoundUnwrapped(start: nat, size: nat)
    requires !Wraps(start, size)
    ensures CheckSound(start, size)
  {
    hide Shapes, RegionOk, RangeEnd, AllAccess, AlignDown, AlignUp;
    RangeEndUnwrapped(start, size);
    Rounded(start, size);
    forall rs, required, forbidden {:trigger AllAccess(rs, required, forbidden, AlignDown(start),
                                                       RangeEnd(start, size))} |
      AllAccess(rs, required, forbidden, AlignDown(start), RangeEnd(start, size))
      ensures AllAccess(rs, required, forbidden, start, start + size)
    {
      InnerAccess(rs, required, forbidden, AlignDown(start), AlignUp(start + size, PAGE_SIZE), start, start + size);
    }
  }

  lemma SoundAbove(start: nat, size: nat)
    requires AboveLimit(start, size)
    ensures CheckSound(start, size)
  {
    hide RangeEnd, AlignDown;
    var lo := AlignDown(start);
    forall rs, required, forbidden {:trigger AllAccess(rs, required, forbidden, lo, RangeEnd(start, size))} |
      (forall j | 0 <= j < |rs| :: RegionOk(rs[j])) && AllAccess(rs, required, forbidden, lo, RangeEnd(start, size))
      ensures false
    {
      assert Accessible(rs, required, forbidden, lo);
      NotAbove(rs, required, forbidden, lo);
    }
  }

  /** Blocks lie below the user limit, and so do committed pages. */
  lemma NotAbove(rs: seq<Region>, required: set<Perm>, forbidden: set<Perm>, u: nat)
    requires (forall j | 0 <= j < |rs| :: RegionOk(rs[j])) && Accessible(rs, required, forbidden, u)
    ensures u < USER_END
  {
    var i: nat :| i < |rs| && Inside(rs[i], u) && |rs[i].committed| == rs[i].pages && CommitBit(rs[i], u);
    assert Backed(rs[i], u);
    var n :| n in rs[i].phys && Holds(n, u);
    assert NodeOk(rs[i], n);
  }

  lemma UnsoundEmpty(start: nat, size: nat)
    requires size > 0 && RangeEnd(start, size) <= AlignDown(start)
    ensures !CheckSound(start, size)
  {
    hide RangeEnd;
    var rs: seq<Region> := [];
    assert AllAccess(rs, {}, {}, AlignDown(start), RangeEnd(start, size));
    assert !Accessible(rs, {}, {}, start);
  }

  /** One committed page, and nothing behind it. */
  function OnePageRegion(lo: nat): Region {
    Region(lo, 1, {Read}, [true], {Phys(0, lo, 1)}, true, true)
  }

  lemma OnePageOk(lo: nat)
    requires lo % PAGE_SIZE == 0 && lo + PAGE_SIZE <= USER_END
    ensures RegionOk(OnePageRegion(lo)) && Shapes([OnePageRegion(lo)])
    ensures forall u: nat | lo <= u < lo + PAGE_SIZE :: Accessible([OnePageRegion(lo)], {}, {}, u)
    ensures !Accessible([OnePageRegion(lo)], {}, {}, lo + PAGE_SIZE)
  {
    var r := OnePageRegion(lo);
    var n := Phys(0, lo, 1);
    assert r.phys == {n} && NodeOk(r, n);
    forall u: nat {:trigger Inside(r, u)} | Inside(r, u) ensures Backed(r, u) && CommitBit(r, u) { assert Holds(n, u); }
    forall u: nat | lo <= u < lo + PAGE_SIZE ensures Accessible([r], {}, {}, u) {
      assert [r][0] == r && Inside(r, u);
    }
  }

  lemma UnsoundPage(start: nat, size: nat)
    requires size >= 2 * PAGE_SIZE && RangeEnd(start, size) == AlignDown(start) + PAGE_SIZE
    requires AlignDown(start) + PAGE_SIZE <= USER_END
    ensures !CheckSound(start, size)
  {
    hide RangeEnd, Shapes, RegionOk, OnePageRegion, Accessible;
    var lo := AlignDown(start);
    var rs := [OnePageRegion(lo)];
    OnePageOk(lo);
    assert AllAccess(rs, {}, {}, lo, RangeEnd(start, size));
    assert start <= lo + PAGE_SIZE < start + size;
  }

  /** The last page of the 64-bit space: nothing is checked, whatever the state, and nothing is accessible there. */
  lemma LastPageUnchecked(rs: seq<Region>, required: set<Perm>, forbidden: set<Perm>)
    requires forall j | 0 <= j < |rs| :: RegionOk(rs[j])
    ensures var start, size := U64 - PAGE_SIZE, PAGE_SIZE;
            && AllAccess(rs, required, forbidden, AlignDown(start), RangeEnd(start, size))
            && !AllAccess(rs, required, forbidden, start, start + size)
  {
    var start, size := U64 - PAGE_SIZE, PAGE_SIZE;
    assert RangeEnd(start, size) == 0;
    if Accessible(rs, required, forbidden, start) { NotAbove(rs, required, forbidden, start); }
  }

  // Reservations

  datatype Order = Less | Equal | Greater

  /** `insert_region_condition`. */
  function Compare(a: Region, b: Region): Order {
    if RegionEnd(a) % U64 <= b.start then Less else if a.start >= RegionEnd(b) % U64 then Greater else Equal
  }

  /** `find_region_condition`. */
  function Seek(u: nat, r: Region): Order {
    if u < r.start then Less else if u >= RegionEnd(r) % U64 then Greater else Equal
  }

  /** A region whose end wraps is found for no address; any other for exactly its own. */
  lemma FoundIff(r: Region, u: nat)
    requires r.start < U64 && r.pages < U32
    ensures Seek(u, r) == Equal <==> RegionEnd(r) < U64 && Inside(r, u)
  {
    if RegionEnd(r) < U64 {
      DivUnique(RegionEnd(r), U64, 0, RegionEnd(r));
    } else {
      DivUnique(RegionEnd(r), U64, 1, RegionEnd(r) - U64);
    }
  }

  /** A region whose end wraps is never taken to overlap another one. */
  lemma WrappedCompares(a: Region, b: Region)
    requires a.start < U64 && a.pages < U32 && U64 <= RegionEnd(a) && RegionShape(b)
    ensures Compare(a, b) != Equal
  {
    DivUnique(RegionEnd(a), U64, 1, RegionEnd(a) - U64);
    DivUnique(RegionEnd(b), U64, 0, RegionEnd(b));
  }

  lemma TooHigh(rs: seq<Region>, k: nat, r: Region)
    requires k <= |rs| && U64 <= RegionEnd(r)
    ensures !Shapes(Inserted(rs, k, r))
  {
    InsertedAt(rs, k, r);
    assert !RegionShape(Inserted(rs, k, r)[k]);
  }

  lemma PlainCompares(a: Region, b: Region)
    requires RegionEnd(a) < U64 && RegionEnd(b) < U64
    ensures Compare(a,
                    b) == if RegionEnd(a) <= b.start then Less else if a.start >= RegionEnd(b) then Greater else Equal
    ensures Compare(a, b) == Equal <==> Overlap(a, b)
  {
    DivUnique(RegionEnd(a), U64, 0, RegionEnd(a));
    DivUnique(RegionEnd(b), U64, 0, RegionEnd(b));
  }

  // Finding room

  /** A range of whole pages below the user limit that meets no region. */
  ghost predicate Room(rs: seq<Region>, a: nat, pages: nat) {
    a % PAGE_SIZE == 0 && a + pages * PAGE_SIZE <= USER_END &&
    forall j | 0 <= j < |rs| :: !Overlap(NewRegion(a, pages, {}), rs[j])
  }

  ghost predicate HighestRoom(rs: seq<Region>, a: nat, pages: nat) {
    Room(rs, a, pages) && forall b: nat | Room(rs, b, pages) :: b <= a
  }

  /** The last region ends above the user limit, which makes the first gap wrap. */
  predicate High(rs: seq<Region>) {
    |rs| > 0 && RegionEnd(rs[|rs| - 1]) > USER_END
  }

  lemma AlignedRoom(top: nat, pages: nat)
    requires top % PAGE_SIZE == 0 && pages * PAGE_SIZE <= top
    ensures (top - pages * PAGE_SIZE) % PAGE_SIZE == 0 && AlignDown(top - pages * PAGE_SIZE) == top - pages * PAGE_SIZE
  {
    DivUnique(top - pages * PAGE_SIZE, PAGE_SIZE, top / PAGE_SIZE - pages, 0);
  }

  lemma GapWraps(end: nat, pages: nat)
    requires USER_END < end < U64 && pages < U32
    ensures (USER_END - end) % U64 >= pages * PAGE_SIZE && pages * PAGE_SIZE <= USER_END
  {
    DivUnique(USER_END - end, U64, -1, USER_END - end + U64);
  }

  lemma GapPlain(top: nat, end: nat)
    requires end <= top < U64
    ensures (top - end) % U64 == top - end
  {
    DivUnique(top - end, U64, 0, top - end);
  }

  lemma LastEnds(rs: seq<Region>)
    requires Shapes(rs) && !High(rs)
    ensures forall j | 0 <= j < |rs| :: RegionEnd(rs[j]) <= USER_END
  {
    forall j | 0 <= j < |rs| ensures RegionEnd(rs[j]) <= USER_END {
      if j < |rs| - 1 { assert RegionEnd(rs[j]) <= rs[|rs| - 1].start; }
    }
  }

  lemma FoundAddress(rs: seq<Region>, at: nat, pages: nat, perms: set<Perm>)
    requires pages < U32
    requires (High(rs) && at == USER_END - pages * PAGE_SIZE) || Room(rs, at, pages)
    ensures at % PAGE_SIZE == 0 && at + pages * PAGE_SIZE <= USER_END
    ensures Room(rs, at, pages) <==> forall j | 0 <= j < |rs| :: !Overlap(NewRegion(at, pages, perms), rs[j])
  {
    if at == USER_END - pages * PAGE_SIZE { AlignedRoom(USER_END, pages); }
    forall j | 0 <= j < |rs|
      ensures Overlap(NewRegion(at, pages, perms), rs[j]) <==> Overlap(NewRegion(at, pages, {}), rs[j])
    {
    }
  }

  lemma FreeEnd(r: Region, u: nat, pages: nat)
    requires RegionShape(r) && Inside(r, u) && pages < U32
    ensures (u + pages * PAGE_SIZE) % U64 == RegionEnd(r) && u == r.start <==> u == r.start && pages == r.pages
  {
    var end := u + pages * PAGE_SIZE;
    if end < U64 { DivUnique(end, U64, 0, end); } else { DivUnique(end, U64, 1, end - U64); }
  }

  /** A region above the limit: the page below the limit is handed out although it is taken. */
  lemma TakenPageFound()
    ensures var rs := [NewRegion(USER_END - PAGE_SIZE, 1, {Read}), NewRegion(USER_END, 1, {Read})];
            Shapes(rs) && High(rs) && !Room(rs, USER_END - PAGE_SIZE, 1)
  {
    NewRegionOk(USER_END - PAGE_SIZE, 1, {Read});
    NewRegionOk(USER_END, 1, {Read});
    var rs := [NewRegion(USER_END - PAGE_SIZE, 1, {Read}), NewRegion(USER_END, 1, {Read})];
    assert Overlap(NewRegion(USER_END - PAGE_SIZE, 1, {}), rs[0]);
  }
}
