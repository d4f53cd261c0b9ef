/** The tree of translation tables as a value, and what it means.

Physical memory that holds tables is a map from frame number to 512 descriptor words. The meaning of
a tree is `Resolve`: where the walk of an address stops, and what it finds there. `WellFormed` is
stated locally, table by table, through a ghost `Place` per table: its level, which stretch of addresses it
translates, and the one entry that refers to it.
*/
module PageTable {
  import opened Arithmetic
  import opened Descriptors

  const ENTRIES: nat := 512

  type Entries = s: seq<Word> | |s| == ENTRIES witness seq(ENTRIES, _ => NULL_WORD)
  type Memory = map<nat, Entries>

  datatype Place = Place(level: nat, region: nat, parent: nat, index: nat)
  type Places = map<nat, Place>

  /** Bytes translated by one entry of a table at this level (`dc_cover_bytes`). */
  function Cover(level: nat): nat {
    if level == 0 then 0x80_0000_0000
    else if level == 1 then 0x4000_0000
    else if level == 2 then 0x20_0000
    else 0x1000
  }

  /** The number of the entry-sized slot that holds an address, counted over the whole address space. */
  function Slot(a: nat, level: nat): nat {
    if level == 0 then a / 0x80_0000_0000
    else if level == 1 then a / 0x4000_0000
    else if level == 2 then a / 0x20_0000
    else a / 0x1000
  }

  /** The byte offset of an address in its slot. */
  function Offset(a: nat, level: nat): nat {
    if level == 0 then a % 0x80_0000_0000
    else if level == 1 then a % 0x4000_0000
    else if level == 2 then a % 0x20_0000
    else a % 0x1000
  }

  /** The number of the table-sized stretch that holds an address. */
  function Region(a: nat, level: nat): nat {
    if level == 0 then a / ADDRESS_SPACE else Slot(a, level - 1)
  }

  function Index(va: nat, level: nat): (i: nat)
    ensures i < ENTRIES
  {
    Slot(va, level) % ENTRIES
  }

  lemma {:induction false} SlotIs(a: nat, level: nat)
    ensures Slot(a, level) == a / Cover(level) && Offset(a, level) == a % Cover(level)
    ensures a == Slot(a, level) * Cover(level) + Offset(a, level) && Offset(a, level) < Cover(level)
  {
  }

  lemma {:induction false} CoverRatio(level: nat, finer: nat) returns (m: nat)
    requires level <= finer <= MAX_LEVEL
    ensures m > 0 && Cover(level) == Cover(finer) * m
  {
    m := Cover(level) / Cover(finer);
  }

  /** What is aligned for a level is aligned for the finer ones. */
  lemma {:induction false} FinerAligned(v: nat, level: nat, finer: nat)
    requires level <= finer <= MAX_LEVEL && Offset(v, level) == 0
    ensures Offset(v, finer) == 0
  {
    var m := CoverRatio(level, finer);
    SlotIs(v, level);
    SlotIs(v, finer);
    hide Cover, Slot, Offset;
    LowDiv(v, Cover(finer), m);
  }

  /** An aligned block ends at the start of a coarser slot, or inside the one that holds it. */
  lemma {:induction false} CoarserSlot(v: nat, level: nat, finer: nat)
    requires level <= finer <= MAX_LEVEL && Offset(v, finer) == 0 && Offset(v + Cover(finer), level) != 0
    ensures Slot(v, level) == Slot(v + Cover(finer), level)
  {
    var m := CoverRatio(level, finer);
    SlotIs(v, level);
    SlotIs(v, finer);
    SlotIs(v + Cover(finer), level);
    hide Cover, Slot, Offset;
    BlockBetween(v, Cover(finer), m, Cover(level));
  }

  lemma {:induction false} SlotInRegion(a: nat, level: nat)
    requires level <= MAX_LEVEL
    ensures Slot(a, level) == Region(a, level) * ENTRIES + Index(a, level)
  {
    if level == 0 {
    } else if level == 1 {
    } else if level == 2 {
    } else {
    }
  }

  // Meaning

  datatype Hit = Hole(level: nat) | Leaf(level: nat, cfg: PageCfg, pa: nat) | Fault

  datatype Translation = Unmapped | Mapped(cfg: PageCfg, pa: nat) | Panic

  function Translate(h: Hit): Translation {
    match h
    case Hole(_) => Unmapped
    case Leaf(_, cfg, pa) => Mapped(cfg, pa)
    case Fault => Panic
  }

  function ResolveFrom(mem: Memory, t: nat, level: nat, a: nat): Hit
    requires level <= MAX_LEVEL
    decreases MAX_LEVEL - level
  {
    if t !in mem then Fault
    else
      var w := mem[t][Index(a, level)];
      if !Valid(w) then Hole(level)
      else match KindAt(w, level)
        case Table => ResolveFrom(mem, w.frame, level + 1, a)
        case BadType => Fault
        case _ => Leaf(level, CfgOf(w), OutputAddress(w) + Offset(a, level))
  }

  function Resolve(mem: Memory, root: nat, a: nat): Hit {
    ResolveFrom(mem, root, 0, a)
  }

  // Well-formed trees

  predicate IsTable(w: Word, level: nat) {
    Valid(w) && KindAt(w, level) == Table
  }

  /** A word that may stand at this level without referring to a table. Level 0 holds no blocks. */
  predicate Terminal(w: Word, level: nat) {
    if !Valid(w) then w == NULL_WORD
    else level > 0 && (KindAt(w, level) == Block || KindAt(w, level) == Page) && Offset(OutputAddress(w), level) == 0
  }

  ghost predicate EntryOk(mem: Memory, place: Places, t: nat, i: nat)
    requires t in mem && t in place && i < ENTRIES
  {
    var w, p := mem[t][i], place[t];
    if IsTable(w, p.level) then
      w.frame in mem && w.frame in place &&
      place[w.frame] == Place(p.level + 1, p.region * ENTRIES + i, t, i)
    else
      Terminal(w, p.level)
  }

  ghost predicate PlaceOk(mem: Memory, place: Places, root: nat, t: nat)
    requires t in place
  {
    var p := place[t];
    && p.level <= MAX_LEVEL
    && t < FRAMES
    && (t == root ==> p.level == 0 && p.region == 0)
    && (t != root ==>
          && p.parent in mem && p.parent in place && p.index < ENTRIES
          && p.level == place[p.parent].level + 1
          && IsTable(mem[p.parent][p.index], place[p.parent].level)
          && mem[p.parent][p.index].frame == t)
  }

  ghost predicate WellFormed(mem: Memory, place: Places, root: nat) {
    && mem.Keys == place.Keys
    && root in mem
    && (forall t {:trigger PlaceOk(mem, place, root, t)} | t in mem :: PlaceOk(mem, place, root, t))
    && (forall t, i {:trigger EntryOk(mem, place, t, i)} | t in mem && 0 <= i < ENTRIES :: EntryOk(mem, place, t, i))
  }

  predicate Covers(p: Place, a: nat) {
    Region(a, p.level) == p.region
  }

  /** The addresses translated through entry `i` of a table at place `p`. */
  predicate InEntry(p: Place, i: nat, a: nat) {
    Slot(a, p.level) == p.region * ENTRIES + i
  }

  // Locality of the walk

  /** A walk passes through every table that covers the address. */
  lemma {:induction false} WalkReaches(mem: Memory, place: Places, root: nat, t: nat, a: nat)
    requires WellFormed(mem, place, root) && t in mem && Covers(place[t], a)
    ensures PlaceOk(mem, place, root, t)
    ensures Resolve(mem, root, a) == ResolveFrom(mem, t, place[t].level, a)
    ensures a < ADDRESS_SPACE
    decreases place[t].level
  {
    assert PlaceOk(mem, place, root, t);
    if t != root {
      var p := place[t];
      var q := place[p.parent];
      assert PlaceOk(mem, place, root, p.parent);
      assert EntryOk(mem, place, p.parent, p.index);
      assert InEntry(q, p.index, a);
      SlotInRegion(a, q.level);
      WalkReaches(mem, place, root, p.parent, a);
    }
  }

  /** A walk depends only on the cells that the address selects in the tables that cover it. */
  lemma {:induction false} WalkFrame(mem: Memory, mem': Memory, place: Places, root: nat, t: nat, a: nat)
    requires WellFormed(mem, place, root) && t in mem && Covers(place[t], a)
    requires forall x | x in mem && Covers(place[x], a) ::
               x in mem' && mem'[x][Index(a, place[x].level)] == mem[x][Index(a, place[x].level)]
    ensures PlaceOk(mem, place, root, t)
    ensures ResolveFrom(mem', t, place[t].level, a) == ResolveFrom(mem, t, place[t].level, a)
    decreases MAX_LEVEL - place[t].level
  {
    var p := place[t];
    assert PlaceOk(mem, place, root, t);
    var i := Index(a, p.level);
    var w := mem[t][i];
    SlotInRegion(a, p.level);
    assert EntryOk(mem, place, t, i);
    if IsTable(w, p.level) {
      WalkFrame(mem, mem', place, root, w.frame, a);
    }
  }

  lemma {:induction false} NoFaults(mem: Memory, place: Places, root: nat, t: nat, a: nat)
    requires WellFormed(mem, place, root) && t in mem && Covers(place[t], a)
    ensures PlaceOk(mem, place, root, t)
    ensures !ResolveFrom(mem, t, place[t].level, a).Fault?
    ensures ResolveFrom(mem, t, place[t].level, a).level >= place[t].level
    ensures ResolveFrom(mem, t, place[t].level, a).level <= MAX_LEVEL
    decreases MAX_LEVEL - place[t].level
  {
    var p := place[t];
    assert PlaceOk(mem, place, root, t);
    var i := Index(a, p.level);
    SlotInRegion(a, p.level);
    assert EntryOk(mem, place, t, i);
    if IsTable(mem[t][i], p.level) {
      NoFaults(mem, place, root, mem[t][i].frame, a);
    }
  }

  // Writing one entry

  function SetEntry(mem: Memory, t: nat, i: nat, w: Word): Memory
    requires t in mem && i < ENTRIES
  {
    mem[t := mem[t][i := w]]
  }

  /** What a walk finds at a terminal word. */
  function HitAt(w: Word, level: nat, a: nat): Hit {
    if !Valid(w) then Hole(level) else Leaf(level, CfgOf(w), OutputAddress(w) + Offset(a, level))
  }

  /** `mem'` is `mem` with the addresses of one entry resolved anew and every other walk unchanged. */
  ghost predicate OnlyEntryChanged(mem: Memory, mem': Memory, root: nat, p: Place, i: nat) {
    forall a: nat | a < ADDRESS_SPACE && !InEntry(p, i, a) :: Resolve(mem', root, a) == Resolve(mem, root, a)
  }

  ghost predicate Settable(mem: Memory, place: Places, root: nat, t: nat, i: nat, w: Word) {
    && WellFormed(mem, place, root) && t in mem && i < ENTRIES
    && !IsTable(mem[t][i], place[t].level) && Terminal(w, place[t].level)
  }

  lemma {:induction false} SetTerminal(mem: Memory, place: Places, root: nat, t: nat, i: nat, w: Word)
    requires Settable(mem, place, root, t, i, w)
    ensures WellFormed(SetEntry(mem, t, i, w), place, root)
    ensures OnlyEntryChanged(mem, SetEntry(mem, t, i, w), root, place[t], i)
    ensures forall a: nat | InEntry(place[t], i, a) ::
              Resolve(SetEntry(mem, t, i, w), root, a) == HitAt(w, place[t].level, a)
  {
    var mem' := SetEntry(mem, t, i, w);
    SetWellFormed(mem, place, root, t, i, w);
    forall a: nat | a < ADDRESS_SPACE && !InEntry(place[t], i, a)
      ensures Resolve(mem', root, a) == Resolve(mem, root, a)
    {
      SetFrame(mem, place, root, t, i, w, a);
    }
    forall a: nat | InEntry(place[t], i, a) ensures Resolve(mem', root, a) == HitAt(w, place[t].level, a) {
      assert PlaceOk(mem, place, root, t);
      SlotInRegion(a, place[t].level);
      WalkReaches(mem', place, root, t, a);
    }
  }

  lemma {:induction false} SetWellFormed(mem: Memory, place: Places, root: nat, t: nat, i: nat, w: Word)
    requires Settable(mem, place, root, t, i, w)
    ensures WellFormed(SetEntry(mem, t, i, w), place, root)
  {
    var mem' := SetEntry(mem, t, i, w);
    forall x | x in mem' ensures PlaceOk(mem', place, root, x) {
      assert PlaceOk(mem, place, root, x);
    }
    forall x, j | x in mem' && 0 <= j < ENTRIES ensures EntryOk(mem', place, x, j) {
      assert EntryOk(mem, place, x, j);
    }
  }

  lemma {:induction false} SetFrame(mem: Memory, place: Places, root: nat, t: nat, i: nat, w: Word, a: nat)
    requires Settable(mem, place, root, t, i, w)
    requires a < ADDRESS_SPACE && !InEntry(place[t], i, a)
    ensures Resolve(SetEntry(mem, t, i, w), root, a) == Resolve(mem, root, a)
  {
    assert PlaceOk(mem, place, root, t);
    assert PlaceOk(mem, place, root, root);
    SlotInRegion(a, place[t].level);
    WalkFrame(mem, SetEntry(mem, t, i, w), place, root, root, a);
  }

  // Linking a fresh table of terminal words

  /** The memory and places after entry `i` of `t` is made to refer to a new table `f` holding `es`. */
  function Linked(mem: Memory, t: nat, i: nat, f: nat, es: Entries): Memory
    requires t in mem && i < ENTRIES
  {
    SetEntry(mem[f := es], t, i, TableDescriptor(f * PAGE_SIZE))
  }

  function LinkedPlaces(place: Places, t: nat, i: nat, f: nat): Places
    requires t in place
  {
    place[f := Place(place[t].level + 1, place[t].region * ENTRIES + i, t, i)]
  }

  ghost predicate Linkable(mem: Memory, place: Places, root: nat, t: nat, i: nat, f: nat, es: Entries) {
    && WellFormed(mem, place, root) && t in mem && i < ENTRIES && place[t].level < MAX_LEVEL
    && !IsTable(mem[t][i], place[t].level)
    && f !in mem && f < FRAMES
    && forall j | 0 <= j < ENTRIES :: Terminal(es[j], place[t].level + 1)
  }

  lemma {:induction false} LinkTable(mem: Memory, place: Places, root: nat, t: nat, i: nat, f: nat, es: Entries)
    requires Linkable(mem, place, root, t, i, f, es)
    ensures var mem' := Linked(mem, t, i, f, es);
            && WellFormed(mem', LinkedPlaces(place, t, i, f), root)
            && OnlyEntryChanged(mem, mem', root, place[t], i)
            && forall a: nat | InEntry(place[t], i, a) ::
                 Resolve(mem', root, a) == HitAt(es[Index(a, place[t].level + 1)], place[t].level + 1, a)
  {
    LinkWellFormed(mem, place, root, t, i, f, es);
    var mem' := Linked(mem, t, i, f, es);
    forall a: nat | a < ADDRESS_SPACE && !InEntry(place[t], i, a)
      ensures Resolve(mem', root, a) == Resolve(mem, root, a)
    {
      LinkFrame(mem, place, root, t, i, f, es, a);
    }
    forall a: nat | InEntry(place[t], i, a)
      ensures Resolve(mem', root, a) == HitAt(es[Index(a, place[t].level + 1)], place[t].level + 1, a)
    {
      LinkHit(mem, place, root, t, i, f, es, a);
    }
  }

  lemma {:induction false} LinkWellFormed(mem: Memory, place: Places, root: nat, t: nat, i: nat, f: nat, es: Entries)
    requires Linkable(mem, place, root, t, i, f, es)
    ensures WellFormed(Linked(mem, t, i, f, es), LinkedPlaces(place, t, i, f), root)
  {
    var mem', place' := Linked(mem, t, i, f, es), LinkedPlaces(place, t, i, f);
    TableDescriptorHeader(f, place[t].level);
    forall x | x in mem' ensures PlaceOk(mem', place', root, x) {
      if x != f { assert PlaceOk(mem, place, root, x); }
    }
    forall x, j | x in mem' && 0 <= j < ENTRIES ensures EntryOk(mem', place', x, j) {
      if x != f { assert EntryOk(mem, place, x, j); }
    }
  }

  lemma {:induction false} LinkFrame(mem: Memory, place: Places, root: nat, t: nat, i: nat, f: nat, es: Entries, a: nat)
    requires Linkable(mem, place, root, t, i, f, es)
    requires a < ADDRESS_SPACE && !InEntry(place[t], i, a)
    ensures Resolve(Linked(mem, t, i, f, es), root, a) == Resolve(mem, root, a)
  {
    assert PlaceOk(mem, place, root, t);
    assert PlaceOk(mem, place, root, root);
    SlotInRegion(a, place[t].level);
    WalkFrame(mem, Linked(mem, t, i, f, es), place, root, root, a);
  }

  lemma {:induction false} LinkHit(mem: Memory, place: Places, root: nat, t: nat, i: nat, f: nat, es: Entries, a: nat)
    requires Linkable(mem, place, root, t, i, f, es) && InEntry(place[t], i, a)
    ensures Resolve(Linked(mem, t, i, f, es), root, a)
         == HitAt(es[Index(a, place[t].level + 1)], place[t].level + 1, a)
  {
    LinkWellFormed(mem, place, root, t, i, f, es);
    WalkReaches(Linked(mem, t, i, f, es), LinkedPlaces(place, t, i, f), root, f, a);
    assert Linked(mem, t, i, f, es)[f] == es;
  }

  // Subtrees

  function Up(region: nat, k: nat): nat {
    if k == 0 then region else Up(region / ENTRIES, k - 1)
  }

  predicate Below(p: Place, q: Place) {
    p.level >= q.level && Up(p.region, p.level - q.level) == q.region
  }

  /** The tables of the subtree rooted at table `d`. */
  function Under(place: Places, d: nat): set<nat>
    requires d in place
  {
    set x | x in place && Below(place[x], place[d])
  }

  lemma {:induction false} PlaceUnique(mem: Memory, place: Places, root: nat, x: nat, y: nat)
    requires WellFormed(mem, place, root) && x in mem && y in mem
    requires place[x].level == place[y].level && place[x].region == place[y].region
    ensures x == y
    decreases place[x].level
  {
    assert PlaceOk(mem, place, root, x) && PlaceOk(mem, place, root, y);
    var p, q := place[x], place[y];
    if x != root && y != root {
      assert EntryOk(mem, place, p.parent, p.index) && EntryOk(mem, place, q.parent, q.index);
      assert p.region / ENTRIES == place[p.parent].region && q.region / ENTRIES == place[q.parent].region;
      PlaceUnique(mem, place, root, p.parent, q.parent);
    }
  }

  lemma {:induction false} CoveredUp(a: nat, level: nat, k: nat)
    requires k <= level <= MAX_LEVEL
    ensures Up(Region(a, level), k) == Region(a, level - k)
    decreases k
  {
    if k > 0 {
      SlotInRegion(a, level - 1);
      CoveredUp(a, level - 1, k - 1);
    }
  }

  /** A table of the subtree that covers an address lies in the stretch of the subtree's root. */
  lemma {:induction false} BelowCovers(p: Place, q: Place, a: nat)
    requires p.level <= MAX_LEVEL && Below(p, q) && Covers(p, a)
    ensures Covers(q, a)
  {
    CoveredUp(a, p.level, p.level - q.level);
  }

  /** The children of a table are below it, and only a child of a table below `d`, or `d` itself, is below `d`. */
  lemma {:induction false} ChildBelow(mem: Memory, place: Places, root: nat, d: nat, x: nat, j: nat)
    requires WellFormed(mem, place, root) && d in mem && x in mem && j < ENTRIES
    requires IsTable(mem[x][j], place[x].level)
    ensures mem[x][j].frame in place
    ensures Below(place[x], place[d]) ==> Below(place[mem[x][j].frame], place[d])
    ensures Below(place[mem[x][j].frame], place[d]) ==> Below(place[x], place[d]) || mem[x][j].frame == d
  {
    assert EntryOk(mem, place, x, j);
    var y := mem[x][j].frame;
    assert place[y].region / ENTRIES == place[x].region;
    if Below(place[y], place[d]) && place[y].level == place[d].level {
      PlaceUnique(mem, place, root, y, d);
    }
  }

  // Replacing a subtree by a terminal word

  lemma {:induction false} DropSubtree(mem: Memory, place: Places, root: nat, t: nat, i: nat, w: Word)
    requires Droppable(mem, place, root, t, i, w)
    ensures mem[t][i].frame in place
    ensures var u := Under(place, mem[t][i].frame);
            && t !in u
            && var mem' := SetEntry(mem - u, t, i, w);
            && WellFormed(mem', place - u, root)
            && OnlyEntryChanged(mem, mem', root, place[t], i)
            && forall a: nat | InEntry(place[t], i, a) :: Resolve(mem', root, a) == HitAt(w, place[t].level, a)
  {
    assert EntryOk(mem, place, t, i);
    assert PlaceOk(mem, place, root, t);
    var p, d := place[t], mem[t][i].frame;
    var u := Under(place, d);
    var mem', place' := SetEntry(mem - u, t, i, w), place - u;
    DropWellFormed(mem, place, root, t, i, w);
    forall a: nat | a < ADDRESS_SPACE && !InEntry(p, i, a) ensures Resolve(mem', root, a) == Resolve(mem, root, a) {
      DropFrame(mem, place, root, t, i, w, a);
    }
    forall a: nat | InEntry(p, i, a) ensures Resolve(mem', root, a) == HitAt(w, p.level, a) {
      SlotInRegion(a, p.level);
      WalkReaches(mem', place', root, t, a);
    }
  }

  /** The cell holds a table, and `w` is a terminal word that may replace it. */
  ghost predicate Droppable(mem: Memory, place: Places, root: nat, t: nat, i: nat, w: Word) {
    && WellFormed(mem, place, root) && t in mem && i < ENTRIES
    && IsTable(mem[t][i], place[t].level) && Terminal(w, place[t].level)
  }

  lemma {:induction false} DropKeeps(mem: Memory, place: Places, root: nat, t: nat, i: nat, w: Word)
    requires Droppable(mem, place, root, t, i, w)
    ensures mem[t][i].frame in place
    ensures t !in Under(place, mem[t][i].frame) && root !in Under(place, mem[t][i].frame)
  {
    assert EntryOk(mem, place, t, i);
    assert PlaceOk(mem, place, root, root);
  }

  lemma {:induction false} DropPlaceOk(mem: Memory, place: Places, root: nat, t: nat, i: nat, w: Word, u: set<nat>,
                                       x: nat)
    requires Droppable(mem, place, root, t, i, w)
    requires mem[t][i].frame in place && u == Under(place, mem[t][i].frame) && t !in u && x in mem && x !in u
    ensures PlaceOk(SetEntry(mem - u, t, i, w), place - u, root, x)
  {
    assert PlaceOk(mem, place, root, x);
    if x != root { ChildBelow(mem, place, root, mem[t][i].frame, place[x].parent, place[x].index); }
  }

  lemma {:induction false} DropEntryOk(mem: Memory, place: Places, root: nat, t: nat, i: nat, w: Word, u: set<nat>,
                                       x: nat, j: nat)
    requires Droppable(mem, place, root, t, i, w)
    requires mem[t][i].frame in place && u == Under(place, mem[t][i].frame) && t !in u
    requires x in mem && x !in u && j < ENTRIES
    ensures EntryOk(SetEntry(mem - u, t, i, w), place - u, x, j)
  {
    assert EntryOk(mem, place, x, j) && EntryOk(mem, place, t, i);
    if IsTable(mem[x][j], place[x].level) { ChildBelow(mem, place, root, mem[t][i].frame, x, j); }
  }

  lemma {:induction false} DropWellFormed(mem: Memory, place: Places, root: nat, t: nat, i: nat, w: Word)
    requires Droppable(mem, place, root, t, i, w)
    ensures mem[t][i].frame in place
    ensures var u := Under(place, mem[t][i].frame);
            t !in u && WellFormed(SetEntry(mem - u, t, i, w), place - u, root)
  {
    DropKeeps(mem, place, root, t, i, w);
    var u := Under(place, mem[t][i].frame);
    var mem', place' := SetEntry(mem - u, t, i, w), place - u;
    forall x | x in mem' ensures PlaceOk(mem', place', root, x) {
      DropPlaceOk(mem, place, root, t, i, w, u, x);
    }
    forall x, j | x in mem' && 0 <= j < ENTRIES ensures EntryOk(mem', place', x, j) {
      DropEntryOk(mem, place, root, t, i, w, u, x, j);
    }
  }

  lemma {:induction false} DropFrame(mem: Memory, place: Places, root: nat, t: nat, i: nat, w: Word, a: nat)
    requires Droppable(mem, place, root, t, i, w)
    requires a < ADDRESS_SPACE && !InEntry(place[t], i, a)
    ensures mem[t][i].frame in place && t !in Under(place, mem[t][i].frame)
    ensures Resolve(SetEntry(mem - Under(place, mem[t][i].frame), t, i, w), root, a) == Resolve(mem, root, a)
  {
    assert EntryOk(mem, place, t, i);
    assert PlaceOk(mem, place, root, t);
    assert PlaceOk(mem, place, root, root);
    var p, d := place[t], mem[t][i].frame;
    var mem' := SetEntry(mem - Under(place, d), t, i, w);
    SlotInRegion(a, p.level);
    forall x | x in mem && Covers(place[x], a)
      ensures x in mem' && mem'[x][Index(a, place[x].level)] == mem[x][Index(a, place[x].level)]
    {
      assert PlaceOk(mem, place, root, x);
      if Below(place[x], place[d]) { BelowCovers(place[x], place[d], a); }
    }
    WalkFrame(mem, mem', place, root, root, a);
  }

  // Pages at the last level

  predicate LastLevelPage(h: Hit) {
    h.Leaf? && h.level == MAX_LEVEL
  }

  /** Some table of the subtree rooted at `d` holds a valid last-level descriptor. */
  ghost predicate LivePageUnder(mem: Memory, place: Places, d: nat)
    requires d in place && place.Keys <= mem.Keys
  {
    exists x, j :: x in Under(place, d) && place[x].level == MAX_LEVEL && 0 <= j < ENTRIES && Valid(mem[x][j])
  }

  lemma {:induction false} LastLevelTable(mem: Memory, place: Places, root: nat, t: nat, a: nat) returns (x: nat)
    requires WellFormed(mem, place, root) && t in mem && Covers(place[t], a)
    requires PlaceOk(mem, place, root, t) && LastLevelPage(ResolveFrom(mem, t, place[t].level, a))
    ensures x in mem && place[x].level == MAX_LEVEL && Covers(place[x], a) && Valid(mem[x][Index(a, MAX_LEVEL)])
    ensures Below(place[x], place[t])
    decreases MAX_LEVEL - place[t].level
  {
    var p := place[t];
    if p.level == MAX_LEVEL {
      x := t;
    } else {
      var i := Index(a, p.level);
      SlotInRegion(a, p.level);
      assert EntryOk(mem, place, t, i);
      assert PlaceOk(mem, place, root, mem[t][i].frame);
      x := LastLevelTable(mem, place, root, mem[t][i].frame, a);
      CoveredUp(a, MAX_LEVEL, MAX_LEVEL - p.level);
    }
  }

  lemma {:induction false} LivePageWalks(mem: Memory, place: Places, root: nat, d: nat, x: nat, j: nat) returns (a: nat)
    requires WellFormed(mem, place, root) && d in mem
    requires x in mem && Below(place[x], place[d]) && place[x].level == MAX_LEVEL && j < ENTRIES && Valid(mem[x][j])
    ensures Covers(place[d], a) && LastLevelPage(Resolve(mem, root, a))
  {
    a := (place[x].region * ENTRIES + j) * 0x1000;
    assert Slot(a, MAX_LEVEL) == place[x].region * ENTRIES + j;
    SlotInRegion(a, MAX_LEVEL);
    WalkReaches(mem, place, root, x, a);
    assert EntryOk(mem, place, x, j);
    BelowCovers(place[x], place[d], a);
  }

  /** A subtree holds a live page exactly when some address of its stretch walks to a last-level page. */
  lemma {:induction false} LivePageIff(mem: Memory, place: Places, root: nat, d: nat)
    requires WellFormed(mem, place, root) && d in mem
    ensures LivePageUnder(mem, place, d) <==>
            exists a: nat :: Covers(place[d], a) && LastLevelPage(Resolve(mem, root, a))
  {
    assert PlaceOk(mem, place, root, d);
    if LivePageUnder(mem, place, d) {
      var x, j :| x in Under(place, d) && place[x].level == MAX_LEVEL && 0 <= j < ENTRIES && Valid(mem[x][j]);
      var a := LivePageWalks(mem, place, root, d, x, j);
    }
    if a: nat :| Covers(place[d], a) && LastLevelPage(Resolve(mem, root, a)) {
      WalkReaches(mem, place, root, d, a);
      var x := LastLevelTable(mem, place, root, d, a);
      assert x in Under(place, d);
    }
  }

  // Children of a table, in entry order

  lemma {:induction false} UpStep(region: nat, k: nat)
    ensures Up(region, k + 1) == Up(region, k) / ENTRIES
  {
    if k > 0 { UpStep(region / ENTRIES, k - 1); }
  }

  /** Every table below `t` descends from the table that covers its stretch one level below `t`. */
  lemma {:induction false} ChildAbove(mem: Memory, place: Places, root: nat, t: nat, x: nat) returns (y: nat)
    requires WellFormed(mem, place, root) && t in mem && x in mem
    requires Below(place[x], place[t]) && x != t
    ensures y in mem && place[y].level == place[t].level + 1 && place[y].parent == t && place[y].index < ENTRIES
    ensures IsTable(mem[t][place[y].index], place[t].level) && mem[t][place[y].index].frame == y
    ensures place[y].region == place[t].region * ENTRIES + place[y].index
    ensures Below(place[x], place[y])
    decreases place[x].level
  {
    assert PlaceOk(mem, place, root, x) && PlaceOk(mem, place, root, t);
    if place[x].level == place[t].level { PlaceUnique(mem, place, root, x, t); }
    var p := place[x].parent;
    assert EntryOk(mem, place, p, place[x].index);
    assert place[x].region / ENTRIES == place[p].region;
    if place[p].level == place[t].level {
      assert Up(place[x].region, 1) == Up(place[x].region / ENTRIES, 0);
      PlaceUnique(mem, place, root, p, t);
      y := x;
    } else {
      y := ChildAbove(mem, place, root, t, p);
    }
  }

  /** The tables below `t` that hang from its entries before `i`. */
  ghost function UnderBefore(place: Places, t: nat, i: nat): set<nat>
    requires t in place
  {
    set x | x in place && x != t && Below(place[x], place[t]) && place[x].level > place[t].level &&
            Up(place[x].region, place[x].level - place[t].level - 1) < place[t].region * ENTRIES + i
  }

  lemma {:induction false} UnderBeforeStep(mem: Memory, place: Places, root: nat, t: nat, i: nat)
    requires WellFormed(mem, place, root) && t in mem && i < ENTRIES
    ensures IsTable(mem[t][i], place[t].level) ==>
              && mem[t][i].frame in place
              && UnderBefore(place, t, i + 1) == UnderBefore(place, t, i) + Under(place, mem[t][i].frame)
              && UnderBefore(place, t, i) !! Under(place, mem[t][i].frame)
              && t !in Under(place, mem[t][i].frame)
    ensures !IsTable(mem[t][i], place[t].level) ==> UnderBefore(place, t, i + 1) == UnderBefore(place, t, i)
  {
    assert EntryOk(mem, place, t, i);
    forall x | x in UnderBefore(place, t, i + 1) && x !in UnderBefore(place, t, i)
      ensures IsTable(mem[t][i], place[t].level) && x in Under(place, mem[t][i].frame)
    {
      var y := ChildAbove(mem, place, root, t, x);
    }
    if IsTable(mem[t][i], place[t].level) {
      forall x | x in Under(place, mem[t][i].frame)
        ensures x in UnderBefore(place, t, i + 1) && x !in UnderBefore(place, t, i)
      {
        UpStep(place[x].region, place[x].level - place[t].level - 1);
      }
    }
  }

  lemma {:induction false} UnderBeforeEnds(mem: Memory, place: Places, root: nat, t: nat)
    requires WellFormed(mem, place, root) && t in mem
    ensures UnderBefore(place, t, 0) == {}
    ensures Under(place, t) == UnderBefore(place, t, ENTRIES) + {t}
    ensures t !in UnderBefore(place, t, ENTRIES)
  {
    forall x | x in place && x != t && Below(place[x], place[t])
      ensures place[x].level > place[t].level
      ensures place[t].region * ENTRIES <= Up(place[x].region,
                                              place[x].level - place[t].level - 1) < place[t].region * ENTRIES + ENTRIES
    {
      var y := ChildAbove(mem, place, root, t, x);
    }
  }
}
