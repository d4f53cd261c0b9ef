/** Insertion and its rebalancing loop (src/lib/data_structures/rbtree.c:156-191, 269-358, 527-546). */
module RbInsert {
  import opened RbShape
  import opened RbMemory
  import opened RbRotate

  // One round of the rebalancing loop, for a red node below a red parent below a black grandparent

  /** The node that is red and may have a red parent; everything else obeys the rules. */
  ghost predicate RedFocus(path: Path, t: Tree) {
    t.T? && t.c == Red && Balanced(t) && NoRedRed(t) && PathOk(path, BlackHeight(t))
  }

  /** Uncle red: parent and uncle turn black, the grandparent red. */
  function Recolored(s: Side, parent: Tree, g: Ptr, gk: nat, uncle: Tree): Tree
    requires parent.T? && uncle.T?
  {
    Mk(s, parent.(c := Black), g, Red, gk, uncle.(c := Black))
  }

  lemma {:induction false} RecolorRules(path: Path, t: Tree)
    requires RedFocus(path, t) && path.Down? && path.c == Red && path.up.other.T? && path.up.other.c == Red
    ensures var parent, up := Mk(path.side, t, path.p, Red, path.k, path.other), path.up;
            && parent.T?
            && RedFocus(up.up, Recolored(up.side, parent, up.p, up.k, up.other))
            && Items(Recolored(up.side, parent, up.p, up.k, up.other)) ==
               Items(Mk(up.side, parent, up.p, Black, up.k, up.other))
  {
    hide PathOk, Mk, Items;
    var parent, up := Mk(path.side, t, path.p, Red, path.k, path.other), path.up;
    PathOkDown(path, BlackHeight(t));
    PathOkDown(up, BlackHeight(t));
    MkRules(path.side, t, path.p, Red, path.k, path.other);
    Blackened(parent);
    Blackened(up.other);
    MkRules(up.side, parent.(c := Black), up.p, Red, up.k, up.other.(c := Black));
    MkItems(up.side, parent, up.p, Black, up.k, up.other);
    MkItems(up.side, parent.(c := Black), up.p, Red, up.k, up.other.(c := Black));
  }

  /** Uncle black, node on the outer side: the parent is lifted above the grandparent. */
  lemma {:induction false} OuterRules(path: Path, t: Tree)
    requires RedFocus(path, t) && path.Down? && path.c == Red && IsBlack(path.up.other) && path.side == path.up.side
    ensures var s, up := path.side, path.up;
            var t' := Mk(s, t, path.p, Black, path.k, Mk(s, path.other, up.p, Red, up.k, up.other));
            RedBlack(Zip(up.up, t')) && Items(Zip(up.up, t')) == Items(Zip(path, t))
  {
    hide PathOk, Mk, Items;
    var s, up := path.side, path.up;
    PathOkDown(path, BlackHeight(t));
    PathOkDown(up, BlackHeight(t));
    var g' := Mk(s, path.other, up.p, Red, up.k, up.other);
    var t' := Mk(s, t, path.p, Black, path.k, g');
    MkRules(s, path.other, up.p, Red, up.k, up.other);
    MkRules(s, t, path.p, Black, path.k, g');
    ZipRedBlack(up.up, t');
    RotateItems(s, t, path.p, Red, path.k, path.other, up.p, Black, up.k, up.other, Black, Red);
    ZipSameItems(up.up, Mk(s, Mk(s, t, path.p, Red, path.k, path.other), up.p, Black, up.k, up.other), t');
  }

  /** Uncle black, node on the inner side: the node is lifted above both. */
  lemma {:induction false} InnerRules(path: Path, t: Tree, n1: Tree, n2: Tree)
    requires RedFocus(path, t) && path.Down? && path.c == Red && IsBlack(path.up.other)
    requires path.side == Other(path.up.side)
    requires t == Mk(path.up.side, n1, t.p, Red, t.k, n2)
    ensures var s, up := path.up.side, path.up;
            var t' := Mk(s, Mk(s, path.other, path.p, Red, path.k, n1), t.p, Black, t.k,
                         Mk(s, n2, up.p, Red, up.k, up.other));
            RedBlack(Zip(up.up, t')) && Items(Zip(up.up, t')) == Items(Zip(path, t))
  {
    hide PathOk, Mk, Items;
    PathOkDown(path, BlackHeight(t));
    var s, up := path.up.side, path.up;
    PathOkDown(up, BlackHeight(t));
    MkRules(s, n1, t.p, Red, t.k, n2);
    var p' := Mk(s, path.other, path.p, Red, path.k, n1);
    var g' := Mk(s, n2, up.p, Red, up.k, up.other);
    var t' := Mk(s, p', t.p, Black, t.k, g');
    MkRules(s, path.other, path.p, Red, path.k, n1);
    MkRules(s, n2, up.p, Red, up.k, up.other);
    MkRules(s, p', t.p, Black, t.k, g');
    ZipRedBlack(up.up, t');
    MkOther(s, t, path.p, Red, path.k, path.other);
    RotateInnerItems(s, path.other, path.p, Red, path.k, n1, t.p, Red, t.k, n2, up.p, Black, up.k, up.other, Red, Black,
                     Red);
    ZipSameItems(up.up, Mk(s, Mk(path.side, t, path.p, Red, path.k, path.other), up.p, Black, up.k, up.other), t');
  }

  lemma {:induction false} Blackened(t: Tree)
    requires t.T? && t.c == Red && Balanced(t) && NoRedRed(t.l) && NoRedRed(t.r)
    ensures var t' := t.(c := Black);
            Balanced(t') && NoRedRed(t') && BlackHeight(t') == BlackHeight(t) + 1 && Items(t') == Items(t)
  {
  }

  lemma {:induction false} PathOkDown(path: Path, h: nat)
    requires PathOk(path, h) && path.Down?
    ensures Balanced(path.other) && NoRedRed(path.other) && BlackHeight(path.other) == h
    ensures path.c == Red ==> IsBlack(path.other) && path.up.Down? && path.up.c == Black
    ensures PathOk(path.up, h + Weight(path.c))
  {
  }

  // Memory after each round

  lemma {:induction false} RecolorView(mem: Memory, root: Ptr, up: Path, s: Side, parent: Tree, g: Ptr, gk: nat,
                                       uncle: Tree)
    requires parent.T? && uncle.T? && View(mem, root, up, Mk(s, parent, g, Black, gk, uncle))
    ensures g in mem && parent.p in mem && uncle.p in mem
    ensures var m1 := mem[uncle.p := SetParentColor(mem[uncle.p], g, Black)];
            var m2 := m1[parent.p := SetParentColor(m1[parent.p], g, Black)];
            var m3 := m2[g := SetParentColor(m2[g], PathPtr(up), Red)];
            View(m3, root, up, Recolored(s, parent, g, gk, uncle))
  {
    hide Mk;
    RepMk(mem, PathPtr(up), s, parent, g, Black, gk, uncle);
    RepIds(mem, PathPtr(up), Mk(s, parent, g, Black, gk, uncle));
    var m1 := mem[uncle.p := SetParentColor(mem[uncle.p], g, Black)];
    var m2 := m1[parent.p := SetParentColor(m1[parent.p], g, Black)];
    var m3 := m2[g := SetParentColor(m2[g], PathPtr(up), Red)];
    var parent', uncle' := parent.(c := Black), uncle.(c := Black);
    Recolor(mem, m3, g, parent);
    Recolor(mem, m3, g, uncle);
    RepMk(m3, PathPtr(up), s, parent', g, Red, gk, uncle');
    ReplacedInPlace(mem, root, up, Mk(s, parent, g, Black, gk, uncle), m3, Mk(s, parent', g, Red, gk, uncle'));
  }

  // Memory after the rotations

  /** What `gparent->s = tmp; top->o = gparent; ...; rotate_set_parents(gparent, top, color)` writes. */
  ghost predicate LiftedOver(mem: Memory, root: Ptr, mem': Memory, root': Ptr, top: Ptr, g: Ptr, tmp: Ptr, s: Side,
                             color: Color)
    requires top in mem && g in mem
  {
    var q := GetParent(mem[g]);
    && OnlyWrites(mem, mem', {g, top} + NonNull(q) + NonNull(tmp))
    && mem'[top] == SetColor(SetParent(SetChild(mem[top], Other(s), g), q), GetColor(mem[g]))
    && mem'[g] == SetParentColor(SetChild(mem[g], s, tmp), top, color)
    && (tmp != 0 ==> tmp in mem && mem'[tmp] == SetParentColor(mem[tmp], g, Black))
    && root' == (if q == 0 then top else root)
    && (q != 0 ==> q in mem && mem'[q] == if mem[q].left == g then mem[q].(left := top) else mem[q].(right := top))
  }

  /** What putting the inner node above its parent writes. */
  ghost predicate LoweredParent(mem: Memory, mem': Memory, node: Ptr, parent: Ptr, s: Side)
    requires node in mem && parent in mem
  {
    var t1 := Child(mem[node], s);
    && OnlyWrites(mem, mem', {node, parent} + NonNull(t1))
    && mem'[parent] == SetParentColor(SetChild(mem[parent], Other(s), t1), node, Red)
    && mem'[node] == SetChild(mem[node], s, parent)
    && (t1 != 0 ==> t1 in mem && mem'[t1] == SetParentColor(mem[t1], parent, Black))
  }

  function NonNull(p: Ptr): set<Ptr> {
    if p == 0 then {} else {p}
  }

  /** The words of a subtree two nodes deep, as the source reads them. */
  lemma {:induction false} LiftFacts(mem: Memory, root: Ptr, up: Path, s: Side,
                  a: Tree, p: Ptr, pc: Color, pk: nat, b: Tree, g: Ptr, gc: Color, gk: nat, u: Tree)
    requires View(mem, root, up, Mk(s, Mk(s, a, p, pc, pk, b), g, gc, gk, u))
    ensures p in mem && g in mem && p != g && p != 0 && g != 0
    ensures Child(mem[p], s) == Root(a) && Child(mem[p], Other(s)) == Root(b) && Child(mem[g], s) == p
    ensures Child(mem[g], Other(s)) == Root(u)
    ensures a.T? ==> a.p in mem && a.p != 0 && GetColor(mem[a.p]) == a.c && a.p != g && a.p != p
    ensures b.T? ==> b.p in mem && b.p != 0 && GetColor(mem[b.p]) == b.c && b.p != g && b.p != p && b.p != Root(a)
    ensures u.T? ==>
              u.p in mem && u.p != 0 && GetColor(mem[u.p]) == u.c && u.p != g && u.p != p && u.p != Root(a) &&
              u.p != Root(b)
    ensures GetParent(mem[g]) == PathPtr(up) && GetColor(mem[g]) == gc && GetColor(mem[p]) == pc
    ensures GetParent(mem[p]) == g
    ensures var q := PathPtr(up); q != 0 ==>
              q in mem && q != p && q != g && q != Root(b) && q != Root(a) && q != Root(u)
  {
    hide Mk, Rep, RepPath, Distinct, DistinctPath, Ids, PathIds, View, GetParent, GetColor, MkNode, Child;
    TwoNodes(mem, root, up, s, a, p, pc, pk, b, g, gc, gk, u);
    LinkSide(mem, root, up, Mk(s, Mk(s, a, p, pc, pk, b), g, gc, gk, u));
    RepMkColor(mem, PathPtr(up), s, p, g, gc, gk, Root(u));
    RepMkColor(mem, g, s, Root(a), p, pc, pk, Root(b));
    NodeSides(s, Root(a), Root(b), g + ColorBit(pc), pk, 0);
    NodeSides(s, p, Root(u), PathPtr(up) + ColorBit(gc), gk, 0);
    RootColor(mem, p, a);
    RootColor(mem, p, b);
    RootColor(mem, g, u);
  }

  lemma {:induction false} RepMkColor(mem: Memory, q: Ptr, s: Side, a: Ptr, p: Ptr, c: Color, k: nat, b: Ptr)
    requires p in mem && mem[p] == MkNode(s, a, b, q + ColorBit(c), k) && q % 2 == 0
    ensures GetColor(mem[p]) == c && GetParent(mem[p]) == q
  {
    Packed(q, c, mem[p]);
  }

  lemma {:induction false} LiftedView(mem: Memory, root: Ptr, mem': Memory, root': Ptr, up: Path, s: Side,
                   a: Tree, p: Ptr, pc: Color, pk: nat, b: Tree, g: Ptr, gc: Color, gk: nat, u: Tree, color: Color)
    requires View(mem, root, up, Mk(s, Mk(s, a, p, pc, pk, b), g, gc, gk, u)) && IsBlack(b)
    requires p in mem && g in mem && LiftedOver(mem, root, mem', root', p, g, Root(b), s, color)
    ensures View(mem', root', up, Mk(s, a, p, gc, pk, Mk(s, b, g, color, gk, u)))
    ensures OnlyWrites(mem, mem', Ids(Zip(up, Mk(s, Mk(s, a, p, pc, pk, b), g, gc, gk, u))))
  {
    hide Mk, Rep, RepPath, Distinct, DistinctPath, Ids, PathIds, View, GetParent, GetColor, MkNode, Child,
      SetParent, SetParentColor, SetColor, Zip;
    TwoNodes(mem, root, up, s, a, p, pc, pk, b, g, gc, gk, u);
    ZipIds(up, Mk(s, Mk(s, a, p, pc, pk, b), g, gc, gk, u));
    PathPtrIn(up);
    LiftFacts(mem, root, up, s, a, p, pc, pk, b, g, gc, gk, u);
    LinkSide(mem, root, up, Mk(s, Mk(s, a, p, pc, pk, b), g, gc, gk, u));
    RepMk(mem, PathPtr(up), s, Mk(s, a, p, pc, pk, b), g, gc, gk, u);
    if b.T? { BlackReparent(mem[b.p], g); }
    assert Rotates(mem, root, mem', root', up, s, p, g, b, color);
    RotateView(mem, root, mem', root', up, s, a, p, pc, pk, b, g, gc, gk, u, color);
  }

  lemma {:induction false} InnerWrites(mem: Memory, root: Ptr, m1: Memory, mem': Memory, root': Ptr, up: Path, s: Side,
                    p: Ptr, n: Ptr, g: Ptr, n1: Tree, n2: Tree, color: Color)
    requires p in mem && n in mem && g in mem && LoweredParent(mem, m1, n, p, s)
    requires n in m1 && g in m1 && LiftedOver(m1, root, mem', root', n, g, Root(n2), s, color)
    requires g != p && g != n && p != n && Child(mem[n], s) == Root(n1) && GetParent(mem[g]) == PathPtr(up)
    requires n1.T? ==>
               n1.p in mem && n1.p != 0 && GetColor(mem[n1.p]) == Black && n1.p !in {g, p, n, Root(n2), PathPtr(up)}
    requires n2.T? ==> n2.p in mem && n2.p != 0 && GetColor(mem[n2.p]) == Black && n2.p !in {g, p, n, PathPtr(up)}
    requires up.Down? ==> up.p !in {0, g, p, n} && up.p in mem && (mem[up.p].left == g <==> up.side == Left)
    ensures RotatesInner(mem, root, mem', root', up, s, p, n, g, n1, n2, Red, color)
  {
    hide GetParent, GetColor, SetParent, SetParentColor, SetColor, Child, SetChild;
    var a, b := {n, p} + NonNull(Root(n1)), {g, n} + NonNull(PathPtr(up)) + NonNull(Root(n2));
    assert OnlyWrites(mem, m1, a);
    Unwritten(mem, m1, a, g);
    assert OnlyWrites(m1, mem', b);
    hide OnlyWrites;
    WritesBoth(mem, m1, mem', a, b, {g, p, n, PathPtr(up)} + RootSet(n1) + RootSet(n2));
    Unwritten(m1, mem', b, p);
    if up.Down? {
      Unwritten(mem, m1, a, up.p);
      SideLink(mem[up.p], up.side, g, n);
    }
    if n1.T? {
      Unwritten(m1, mem', b, n1.p);
      BlackReparent(mem[n1.p], p);
    }
    if n2.T? {
      Unwritten(mem, m1, a, n2.p);
      BlackReparent(mem[n2.p], g);
    }
  }

  lemma {:induction false} LiftedInnerView(mem: Memory, root: Ptr, m1: Memory, mem': Memory, root': Ptr, up: Path,
                                           s: Side, a: Tree, p: Ptr, pc: Color, pk: nat, n1: Tree, n: Ptr, nc: Color,
                                           nk: nat, n2: Tree, g: Ptr, gc: Color, gk: nat, u: Tree, color: Color)
    requires View(mem, root, up, Mk(s, Mk(s, a, p, pc, pk, Mk(s, n1, n, nc, nk, n2)), g, gc, gk, u)) && IsBlack(n1)
    requires IsBlack(n2)
    requires p in mem && n in mem && g in mem && LoweredParent(mem, m1, n, p, s)
    requires n in m1 && g in m1 && LiftedOver(m1, root, mem', root', n, g, Root(n2), s, color)
    ensures View(mem', root', up, Mk(s, Mk(s, a, p, Red, pk, n1), n, gc, nk, Mk(s, n2, g, color, gk, u)))
    ensures OnlyWrites(mem, mem', Ids(Zip(up, Mk(s, Mk(s, a, p, pc, pk, Mk(s, n1, n, nc, nk, n2)), g, gc, gk, u))))
  {
    hide Mk, Rep, RepPath, Distinct, DistinctPath, Ids, PathIds, View, GetParent, GetColor, MkNode, Child,
      SetParent, SetParentColor, SetColor, Zip;
    ZipIds(up, Mk(s, Mk(s, a, p, pc, pk, Mk(s, n1, n, nc, nk, n2)), g, gc, gk, u));
    PathPtrIn(up);
    ThreeNodes(mem, root, up, s, a, p, pc, pk, n1, n, nc, nk, n2, g, gc, gk, u);
    LinkSide(mem, root, up, Mk(s, Mk(s, a, p, pc, pk, Mk(s, n1, n, nc, nk, n2)), g, gc, gk, u));
    RepMk(mem, PathPtr(up), s, Mk(s, a, p, pc, pk, Mk(s, n1, n, nc, nk, n2)), g, gc, gk, u);
    NodeSides(s, Root(n1), Root(n2), p + ColorBit(nc), nk, p);
    RootColor(mem, n, n1);
    RootColor(mem, n, n2);
    InnerWrites(mem, root, m1, mem', root', up, s, p, n, g, n1, n2, color);
    RotateInnerView(mem, root, mem', root', up, s, a, p, pc, pk, n1, n, nc, nk, n2, g, gc, gk, u, Red, color);
  }

  lemma {:induction false} MkSubs(s: Side, t: Tree)
    requires t.T?
    ensures t == Mk(s, Sub(t, s), t.p, t.c, t.k, Sub(t, Other(s)))
  {
  }

  /** The words of a subtree three nodes deep, as the source reads them. */
  lemma {:induction false} InnerFacts(mem: Memory, root: Ptr, up: Path, s: Side,
                   a: Tree, p: Ptr, pc: Color, pk: nat, n1: Tree, n: Ptr, nc: Color, nk: nat, n2: Tree,
                   g: Ptr, gc: Color, gk: nat, u: Tree)
    requires View(mem, root, up, Mk(s, Mk(s, a, p, pc, pk, Mk(s, n1, n, nc, nk, n2)), g, gc, gk, u))
    ensures p in mem && g in mem && n in mem && p != g && p != n && g != n && n != 0 && g != 0
    ensures Child(mem[n], s) == Root(n1) && Child(mem[n], Other(s)) == Root(n2) && Child(mem[p], Other(s)) == n
    ensures Root(n1) != 0 ==> Root(n1) in mem && Root(n1) !in {g, p, n, Root(n2), PathPtr(up)}
    ensures Root(n2) != 0 ==> Root(n2) in mem && Root(n2) !in {g, p, n, PathPtr(up)}
    ensures GetParent(mem[g]) == PathPtr(up)
    ensures PathPtr(up) != 0 ==> PathPtr(up) in mem && PathPtr(up) !in {g, p, n}
  {
    hide Mk, Rep, RepPath, Distinct, DistinctPath, Ids, PathIds, View, GetParent, GetColor, MkNode, Child, RootSet;
    LiftFacts(mem, root, up, s, a, p, pc, pk, Mk(s, n1, n, nc, nk, n2), g, gc, gk, u);
    ThreeNodes(mem, root, up, s, a, p, pc, pk, n1, n, nc, nk, n2, g, gc, gk, u);
    RepMk(mem, p, s, n1, n, nc, nk, n2);
    NodeSides(s, Root(n1), Root(n2), p + ColorBit(nc), nk, 0);
    RootColor(mem, n, n1);
    RootColor(mem, n, n2);
  }

  /** Between the two rotations the words that the second one reads are as before. */
  lemma {:induction false} InnerMiddle(mem: Memory, m1: Memory, n: Ptr, p: Ptr, g: Ptr, s: Side, t2: Ptr, q: Ptr)
    requires p in mem && g in mem && n in mem && p != g && p != n && g != n && LoweredParent(mem, m1, n, p, s)
    requires Child(mem[n], s) != g && (t2 != 0 ==> t2 in mem && t2 !in {g, p, n, q}) && GetParent(mem[g]) == q
    requires q != 0 ==> q in mem && q !in {g, p, n}
    ensures g in m1 && n in m1 && m1[g] == mem[g] && (t2 != 0 ==> t2 in m1) && (q != 0 ==> q in m1)
  {
    hide SetChild, Child, SetParentColor;
  }

  lemma {:induction false} PathPtrIn(path: Path)
    ensures NonNull(PathPtr(path)) <= PathIds(path) && (path.Down? ==> path.p in PathIds(path))
  {
  }

  lemma {:induction false} RootColor(mem: Memory, parent: Ptr, t: Tree)
    requires Rep(mem, parent, t) && parent % 2 == 0
    ensures t.T? ==> t.p in mem && t.p != 0 && t.p in Ids(t) && GetColor(mem[t.p]) == t.c
  {
    if t.T? { Packed(parent, t.c, mem[t.p]); }
  }

  lemma {:induction false} BlackReparent(n: Node, p: Ptr)
    requires GetColor(n) == Black
    ensures SetParentColor(n, p, Black) == SetParent(n, p)
  {
  }

  // Reading the loop's variables off the shape

  lemma {:induction false} NoWrites(mem: Memory, ids: set<Ptr>)
    ensures OnlyWrites(mem, mem, ids)
  {
  }

  lemma {:induction false} WritesCompose(m0: Memory, m1: Memory, m2: Memory, ids: set<Ptr>)
    requires OnlyWrites(m0, m1, ids) && OnlyWrites(m1, m2, ids)
    ensures OnlyWrites(m0, m2, ids)
  {
  }

  lemma {:induction false} BlackenRoot(mem: Memory, root: Ptr, t: Tree)
    requires View(mem, root, Top, t) && RedFocus(Top, t) && t.p in mem
    ensures var t', mem' := t.(c := Black), mem[t.p := SetParentColor(mem[t.p], 0, Black)];
            && View(mem', root, Top, t') && RedBlack(t') && Items(t') == Items(t) && Ids(t') == Ids(t)
            && OnlyWrites(mem, mem', Ids(t)) && Zip(Top, t) == t
  {
    var mem' := mem[t.p := SetParentColor(mem[t.p], 0, Black)];
    RepIds(mem, 0, t);
    Recolor(mem, mem', 0, t);
    Blackened(t);
  }

  /** What one round of the loop reads. */
  lemma {:induction false} RoundFacts(mem: Memory, root: Ptr, path: Path, t: Tree)
    requires View(mem, root, path, t) && RedFocus(path, t)
    ensures path.Top? <==> PathPtr(path) == 0
    ensures path.Down? ==>
              path.p in mem && GetColor(mem[path.p]) == path.c && GetParent(mem[path.p]) == PathPtr(path.up)
    ensures path.Down? && path.c == Red ==>
              && path.up.Down? && path.up.c == Black
              && var g, s, u := path.up.p, path.up.side, path.up.other;
              && g in mem && (mem[g].right != path.p <==> s == Left) && Child(mem[g], Other(s)) == Root(u)
              && (u.T? <==> Root(u) != 0) && (u.T? ==> u.p in mem && GetColor(mem[u.p]) == u.c)
              && (t.p == Child(mem[path.p], Other(s)) <==> path.side == Other(s))
  {
    if path.Down? {
      PathOkDown(path, BlackHeight(t));
      FocusUp(mem, root, path, t);
      var pt := Mk(path.side, t, path.p, path.c, path.k, path.other);
      LinkSide(mem, root, path.up, pt);
      if path.c == Red {
        FocusUp(mem, root, path.up, pt);
        RoundNodes(mem, root, path, t);
      }
    }
  }

  lemma {:induction false} RoundNodes(mem: Memory, root: Ptr, path: Path, t: Tree)
    requires View(mem, root, path, t) && t.T? && path.Down? && path.up.Down?
    ensures var g, s, u := path.up.p, path.up.side, path.up.other;
            && g in mem && path.p in mem && (mem[g].right != path.p <==> s == Left) &&
            Child(mem[g], Other(s)) == Root(u)
            && (u.T? <==> Root(u) != 0) && (u.T? ==> u.p in mem && GetColor(mem[u.p]) == u.c)
            && (t.p == Child(mem[path.p], Other(s)) <==> path.side == Other(s))
  {
    var up := path.up;
    assert RepPath(mem, root, path.p, up) && RepPath(mem, root, up.p, up.up) && Rep(mem, up.p, up.other);
    RepIds(mem, path.p, t);
    RepIds(mem, path.p, path.other);
    RootColor(mem, up.p, up.other);
    assert up.p % 2 == 0 && path.p in PathIds(path) && up.p in PathIds(up);
    if path.other.T? { assert path.other.p in Ids(path.other); }
    if up.other.T? { assert up.other.p in PathIds(up); }
    assert t.p in Ids(t);
  }

  /** A recolouring round, in memory and by the rules. */
  lemma {:induction false} RecolorStep(mem: Memory, root: Ptr, path: Path, t: Tree)
    requires View(mem, root, path, t) && RedFocus(path, t) && path.Down? && path.c == Red && path.up.Down?
    requires path.up.c == Black
    requires path.up.other.T? && path.up.other.c == Red
    ensures var pt, up, u := Mk(path.side, t, path.p, Red, path.k, path.other), path.up, path.up.other;
            var t' := Recolored(up.side, pt, up.p, up.k, u);
            && pt.T? && pt.p == path.p && up.p in mem && path.p in mem && u.p in mem && up.p != path.p && up.p != u.p &&
            u.p != path.p
            && RedFocus(up.up, t') && t'.p == up.p
            && Items(Zip(up.up, t')) == Items(Zip(path, t)) && Ids(Zip(up.up, t')) == Ids(Zip(path, t))
            && GetParent(mem[up.p]) == PathPtr(up.up)
            && var m1 := mem[u.p := SetParentColor(mem[u.p], up.p, Black)];
            var m2 := m1[path.p := SetParentColor(m1[path.p], up.p, Black)];
            var m3 := m2[up.p := SetParentColor(m2[up.p], PathPtr(up.up), Red)];
            && View(m3, root, up.up, t')
            && OnlyWrites(mem, m3, Ids(Zip(path, t)))
  {
    hide PathOk, Items;
    PathOkDown(path, BlackHeight(t));
    var pt, up, u := Mk(path.side, t, path.p, Red, path.k, path.other), path.up, path.up.other;
    FocusUp(mem, root, path, t);
    FocusUp(mem, root, up, pt);
    RecolorRules(path, t);
    MkRules(path.side, t, path.p, Red, path.k, path.other);
    RecolorView(mem, root, up.up, up.side, pt, up.p, up.k, u);
    RecolorNodes(mem, root, up.up, up.side, pt, up.p, up.k, u);
    var t' := Recolored(up.side, pt, up.p, up.k, u);
    ZipSameItems(up.up, Mk(up.side, pt, up.p, Black, up.k, u), t');
    ZipIds(path, t);
    ZipIds(up.up, t');
    ZipIds(up.up, Mk(up.side, pt, up.p, Black, up.k, u));
  }

  lemma {:induction false} RecolorNodes(mem: Memory, root: Ptr, up: Path, s: Side, parent: Tree, g: Ptr, gk: nat,
                                        uncle: Tree)
    requires parent.T? && uncle.T? && View(mem, root, up, Mk(s, parent, g, Black, gk, uncle))
    ensures g in mem && parent.p in mem && uncle.p in mem && g != parent.p && g != uncle.p && parent.p != uncle.p
    ensures GetParent(mem[g]) == PathPtr(up)
    ensures Recolored(s, parent, g, gk, uncle).p == g
    ensures Ids(Recolored(s, parent, g, gk, uncle)) == Ids(Mk(s, parent, g, Black, gk, uncle))
    ensures g in Ids(Mk(s, parent, g, Black, gk, uncle)) && parent.p in Ids(Mk(s, parent, g, Black, gk, uncle))
    ensures uncle.p in Ids(Mk(s, parent, g, Black, gk, uncle))
  {
    LinkSide(mem, root, up, Mk(s, parent, g, Black, gk, uncle));
    RepMk(mem, PathPtr(up), s, parent, g, Black, gk, uncle);
    RepMk(mem, PathPtr(up), s, parent.(c := Black), g, Red, gk, uncle.(c := Black));
  }
}
