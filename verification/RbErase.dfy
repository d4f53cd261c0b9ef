/** The rules behind removal: the four cases of `erase_color` (src/lib/data_structures/rbtree.c:360-464). */
module RbErase {
  import opened RbShape
  import opened RbMemory
  import opened RbRotate
  import opened RbInsert

  /** The hole is filled by a subtree that is one black node too low; everything else obeys the rules. */
  ghost predicate Deficient(path: Path, x: Tree) {
    path.Down? && PathOk(path, BlackHeight(x) + 1) && Balanced(x) && NoRedRed(x) && IsBlack(x)
  }

  lemma {:induction false} HasSibling(path: Path, x: Tree)
    requires Deficient(path, x)
    ensures path.other.T?
    ensures path.other.c == Red ==>
              path.c == Black && path.other.l.T? && path.other.r.T? && IsBlack(path.other.l) && IsBlack(path.other.r)
  {
  }

  /** Case 1, red sibling: it is lifted, and the parent turns red below it. */
  function RedSiblingPath(path: Path): Path
    requires path.Down? && path.other.T?
  {
    var s, sib := path.side, path.other;
    Down(s, path.p, Red, path.k, Sub(sib, s), Down(s, sib.p, Black, sib.k, Sub(sib, Other(s)), path.up))
  }

  lemma {:induction false} RedSiblingRules(path: Path, x: Tree)
    requires Deficient(path, x) && path.other.T? && path.other.c == Red
    ensures var path' := RedSiblingPath(path);
            && Deficient(path', x) && IsBlack(path'.other) && path'.other.T?
            && Items(Zip(path', x)) == Items(Zip(path, x))
  {
    hide PathOk, Mk, Items;
    var s, sib := path.side, path.other;
    var o, a, b := Other(s), Sub(sib, Other(s)), Sub(sib, s);
    PathOkDown(path, BlackHeight(x) + 1);
    HasSibling(path, x);
    MkSubs(o, sib);
    MkRules(o, a, sib.p, Red, sib.k, b);
    assert path.c == Black;
    PathOkUp(Down(s, sib.p, Black, sib.k, a, path.up), BlackHeight(x) + 1);
    PathOkUp(RedSiblingPath(path), BlackHeight(x) + 1);
    MkOther(s, sib, path.p, Black, path.k, x);
    MkOther(s, b, path.p, Red, path.k, x);
    MkOther(s, a, sib.p, Black, sib.k, Mk(s, x, path.p, Red, path.k, b));
    RotateItems(o, a, sib.p, Red, sib.k, b, path.p, Black, path.k, x, Black, Red);
    ZipSameItems(path.up, Mk(s, x, path.p, Black, path.k, sib),
                 Mk(s, Mk(s, x, path.p, Red, path.k, b), sib.p, Black, sib.k, a));
  }

  lemma {:induction false} PathOkUp(path: Path, h: nat)
    requires path.Down? && Balanced(path.other) && NoRedRed(path.other) && BlackHeight(path.other) == h
    requires path.c == Red ==> IsBlack(path.other) && path.up.Down? && path.up.c == Black
    requires PathOk(path.up, h + Weight(path.c))
    ensures PathOk(path, h)
  {
  }

  /** Case 2, black sibling with black children: the sibling turns red, and the deficiency moves up or is made good. */
  lemma {:induction false} BlackSiblingRules(path: Path, x: Tree)
    requires Deficient(path, x) && path.other.T? && path.other.c == Black && IsBlack(path.other.l)
    requires IsBlack(path.other.r)
    ensures var t' := Mk(path.side, x, path.p, Black, path.k, path.other.(c := Red));
            && Items(Zip(path.up, t')) == Items(Zip(path, x))
            && (path.c == Red || path.up.Top? ==> RedBlack(Zip(path.up, t')))
            && (path.c == Black && path.up.Down? ==> Deficient(path.up, t'))
  {
    hide PathOk, Mk, Items;
    var sib' := path.other.(c := Red);
    PathOkDown(path, BlackHeight(x) + 1);
    SiblingReddened(path.other);
    var t' := Mk(path.side, x, path.p, Black, path.k, sib');
    MkRules(path.side, x, path.p, Black, path.k, sib');
    MkItems(path.side, x, path.p, Black, path.k, sib');
    MkItems(path.side, x, path.p, path.c, path.k, path.other);
    ZipSameItems(path.up, Mk(path.side, x, path.p, path.c, path.k, path.other), t');
    if path.c == Red {
      ZipRedBlack(path.up, t');
    } else if path.up.Top? {
      TopOk(BlackHeight(t'));
      ZipRedBlack(path.up, t');
    }
  }

  lemma {:induction false} TopOk(h: nat)
    ensures PathOk(Top, h)
  {
  }

  lemma {:induction false} SiblingReddened(t: Tree)
    requires t.T? && t.c == Black && Balanced(t) && NoRedRed(t) && IsBlack(t.l) && IsBlack(t.r)
    ensures var t' := t.(c := Red);
            && Balanced(t') && NoRedRed(t') && BlackHeight(t') == BlackHeight(t) - 1 && Items(t') == Items(t)
  {
  }

  /** Case 4, black sibling with a red outer child: one rotation makes the deficiency good. */
  lemma {:induction false} OuterNephewRules(path: Path, x: Tree, a: Tree, b: Tree)
    requires Deficient(path, x) && path.other.T? && path.other.c == Black && a.T? && a.c == Red
    requires path.other == Mk(Other(path.side), a, path.other.p, Black, path.other.k, b)
    ensures var o, sib := Other(path.side), path.other;
            var t' := Mk(o, a.(c := Black), sib.p, path.c, sib.k, Mk(o, b, path.p, Black, path.k, x));
            RedBlack(Zip(path.up, t')) && Items(Zip(path.up, t')) == Items(Zip(path, x))
  {
    hide PathOk, Mk, Items;
    var s, o, sib := path.side, Other(path.side), path.other;
    PathOkDown(path, BlackHeight(x) + 1);
    MkRules(o, a, sib.p, Black, sib.k, b);
    Blackened(a);
    var p' := Mk(o, b, path.p, Black, path.k, x);
    var t' := Mk(o, a.(c := Black), sib.p, path.c, sib.k, p');
    MkRules(o, b, path.p, Black, path.k, x);
    MkRules(o, a.(c := Black), sib.p, path.c, sib.k, p');
    ZipRedBlack(path.up, t');
    MkOther(s, sib, path.p, path.c, path.k, x);
    RotateItems(o, a, sib.p, Black, sib.k, b, path.p, path.c, path.k, x, path.c, Black);
    MkItems(o, a, sib.p, path.c, sib.k, p');
    MkItems(o, a.(c := Black), sib.p, path.c, sib.k, p');
    ZipSameItems(path.up, Mk(s, x, path.p, path.c, path.k, sib), t');
  }

  /** Cases 3 and 4, black sibling with only the inner child red: two rotations. */
  lemma {:induction false} InnerNephewRules(path: Path, x: Tree, a: Tree, n: Tree, n1: Tree, n2: Tree)
    requires Deficient(path, x) && path.other.T? && path.other.c == Black && n.T? && n.c == Red && IsBlack(a)
    requires path.other == Mk(Other(path.side), a, path.other.p, Black, path.other.k, n)
    requires n == Mk(Other(path.side), n1, n.p, Red, n.k, n2)
    ensures var o, sib := Other(path.side), path.other;
            var t' := Mk(o, Mk(o, a, sib.p, Black, sib.k, n1), n.p, path.c, n.k, Mk(o, n2, path.p, Black, path.k, x));
            RedBlack(Zip(path.up, t')) && Items(Zip(path.up, t')) == Items(Zip(path, x))
  {
    hide PathOk, Mk, Items;
    var s, o, sib := path.side, Other(path.side), path.other;
    PathOkDown(path, BlackHeight(x) + 1);
    MkRules(o, a, sib.p, Black, sib.k, n);
    MkRules(o, n1, n.p, Red, n.k, n2);
    var s', p' := Mk(o, a, sib.p, Black, sib.k, n1), Mk(o, n2, path.p, Black, path.k, x);
    var t' := Mk(o, s', n.p, path.c, n.k, p');
    MkRules(o, a, sib.p, Black, sib.k, n1);
    MkRules(o, n2, path.p, Black, path.k, x);
    MkRules(o, s', n.p, path.c, n.k, p');
    ZipRedBlack(path.up, t');
    MkOther(s, sib, path.p, path.c, path.k, x);
    RotateInnerItems(o, a, sib.p, Black, sib.k, n1, n.p, Red, n.k, n2, path.p, path.c, path.k, x, Black, path.c, Black);
    ZipSameItems(path.up, Mk(s, x, path.p, path.c, path.k, sib), t');
  }

  // Memory

  /** What lines 402-409 and their mirror image write: `top` is lifted above `g`, its outer child and `g` turn black. */
  ghost predicate LiftedBlack(mem: Memory, root: Ptr, mem': Memory, root': Ptr, top: Ptr, g: Ptr, outer: Ptr, tmp: Ptr,
                              s: Side)
    requires top in mem && g in mem && outer in mem
  {
    var q := GetParent(mem[g]);
    && OnlyWrites(mem, mem', {g, top, outer} + NonNull(q) + NonNull(tmp))
    && mem'[top] == SetColor(SetParent(SetChild(mem[top], Other(s), g), q), GetColor(mem[g]))
    && mem'[g] == SetParentColor(SetChild(mem[g], s, tmp), top, Black)
    && mem'[outer] == SetParentColor(mem[outer], top, Black)
    && (tmp != 0 ==> tmp in mem && mem'[tmp] == SetParent(mem[tmp], g))
    && root' == (if q == 0 then top else root)
    && (q != 0 ==> q in mem && mem'[q] == if mem[q].left == g then mem[q].(left := top) else mem[q].(right := top))
  }

  /** The writes of lines 402-408: `top` takes `g` as inner child, `g` the child `tmp`. */
  ghost predicate HungBlack(mem: Memory, mem': Memory, top: Ptr, g: Ptr, outer: Ptr, tmp: Ptr, s: Side)
    requires top in mem && g in mem && outer in mem
  {
    && OnlyWrites(mem, mem', {g, top, outer} + NonNull(tmp))
    && mem'[top] == SetChild(mem[top], Other(s), g) && mem'[g] == SetChild(mem[g], s, tmp)
    && mem'[outer] == SetParentColor(mem[outer], top, Black)
    && (tmp != 0 ==> tmp in mem && mem'[tmp] == SetParent(mem[tmp], g))
  }

  /** What lines 392-397 and their mirror image write: the inner nephew `n` is put above the sibling. */
  ghost predicate RaisedInner(mem: Memory, mem': Memory, g: Ptr, sib: Ptr, n: Ptr, s: Side)
    requires n in mem && sib in mem && g in mem
  {
    var t1 := Child(mem[n], s);
    && OnlyWrites(mem, mem', {n, sib, g} + NonNull(t1))
    && mem'[sib] == SetChild(mem[sib], Other(s), t1)
    && mem'[n] == SetChild(mem[n], s, sib)
    && mem'[g] == SetChild(mem[g], s, n)
    && (t1 != 0 ==> t1 in mem && mem'[t1] == SetParentColor(mem[t1], sib, Black))
  }

  lemma {:induction false} OuterBlackened(mem: Memory, root: Ptr, up: Path, s: Side,
                       a: Tree, p: Ptr, pc: Color, pk: nat, b: Tree, g: Ptr, gc: Color, gk: nat, u: Tree)
    requires View(mem, root, up, Mk(s, Mk(s, a, p, pc, pk, b), g, gc, gk, u)) && a.T? && a.p in mem
    ensures View(mem[a.p := SetParentColor(mem[a.p], p, Black)], root, up,
                 Mk(s, Mk(s, a.(c := Black), p, pc, pk, b), g, gc, gk, u))
  {
    hide Mk, Rep, RepPath, Distinct, DistinctPath, Ids, PathIds, View, MkNode, SetParentColor;
    var mem' := mem[a.p := SetParentColor(mem[a.p], p, Black)];
    TwoNodes(mem, root, up, s, a, p, pc, pk, b, g, gc, gk, u);
    RepIds(mem, p, a);
    RepIds(mem, p, b);
    RepIds(mem, g, u);
    RootIn(a);
    Recolor(mem, mem', p, a);
    RepFrame(mem, mem', p, b);
    RepFrame(mem, mem', g, u);
    RepMk(mem', g, s, a.(c := Black), p, pc, pk, b);
    RepMk(mem', PathPtr(up), s, Mk(s, a.(c := Black), p, pc, pk, b), g, gc, gk, u);
    RepMk(mem, PathPtr(up), s, Mk(s, a, p, pc, pk, b), g, gc, gk, u);
    ReplacedInPlace(mem, root, up, Mk(s, Mk(s, a, p, pc, pk, b), g, gc, gk, u), mem',
                    Mk(s, Mk(s, a.(c := Black), p, pc, pk, b), g, gc, gk, u));
  }

  lemma {:induction false} LiftedBlackView(mem: Memory, root: Ptr, mem': Memory, root': Ptr, up: Path, s: Side,
                        a: Tree, p: Ptr, pc: Color, pk: nat, b: Tree, g: Ptr, gc: Color, gk: nat, u: Tree)
    requires View(mem, root, up, Mk(s, Mk(s, a, p, pc, pk, b), g, gc, gk, u)) && a.T?
    requires p in mem && g in mem && a.p in mem && LiftedBlack(mem, root, mem', root', p, g, a.p, Root(b), s)
    ensures View(mem', root', up, Mk(s, a.(c := Black), p, gc, pk, Mk(s, b, g, Black, gk, u)))
    ensures OnlyWrites(mem, mem', Ids(Zip(up, Mk(s, Mk(s, a, p, pc, pk, b), g, gc, gk, u))))
  {
    hide Mk, Rep, RepPath, Distinct, DistinctPath, Ids, PathIds, View, GetParent, GetColor, MkNode, Child,
      SetParent, SetParentColor, SetColor, Zip;
    var t := Mk(s, Mk(s, a, p, pc, pk, b), g, gc, gk, u);
    TwoNodes(mem, root, up, s, a, p, pc, pk, b, g, gc, gk, u);
    ZipIds(up, t);
    PathPtrIn(up);
    RootIn(a);
    LiftFacts(mem, root, up, s, a, p, pc, pk, b, g, gc, gk, u);
    LinkSide(mem, root, up, t);
    RepMk(mem, PathPtr(up), s, Mk(s, a, p, pc, pk, b), g, gc, gk, u);
    OuterBlackened(mem, root, up, s, a, p, pc, pk, b, g, gc, gk, u);
    var m1 := mem[a.p := SetParentColor(mem[a.p], p, Black)];
    assert Rotates(m1, root, mem', root', up, s, p, g, b, Black);
    RotateView(m1, root, mem', root', up, s, a.(c := Black), p, pc, pk, b, g, gc, gk, u, Black);
  }

  lemma {:induction false} InnerNephewWrites(mem: Memory, root: Ptr, m1: Memory, mem': Memory, root': Ptr, up: Path,
                                             s: Side, sib: Ptr, n: Ptr, g: Ptr, n1: Tree, n2: Tree)
    requires sib in mem && n in mem && g in mem && RaisedInner(mem, m1, g, sib, n, s)
    requires n in m1 && g in m1 && sib in m1 && LiftedBlack(m1, root, mem', root', n, g, sib, Root(n2), s)
    requires g != sib && g != n && sib != n && Child(mem[n], s) == Root(n1) && GetParent(mem[g]) == PathPtr(up)
    requires n1.T? ==>
               n1.p in mem && n1.p != 0 && GetColor(mem[n1.p]) == Black && n1.p !in {g, sib, n, Root(n2), PathPtr(up)}
    requires n2.T? ==> n2.p in mem && n2.p != 0 && n2.p !in {g, sib, n, PathPtr(up)}
    requires up.Down? ==> up.p !in {0, g, sib, n} && up.p in mem && (mem[up.p].left == g <==> up.side == Left)
    ensures RotatesInner(mem, root, mem', root', up, s, sib, n, g, n1, n2, Black, Black)
  {
    hide SetParent, SetColor, SetParentColor, GetParent, GetColor, Child, SetChild;
    if n1.T? { BlackReparent(mem[n1.p], sib); }
    var a, b := {n, sib, g} + NonNull(Root(n1)), {g, n, sib} + NonNull(PathPtr(up)) + NonNull(Root(n2));
    assert OnlyWrites(mem, m1, a);
    hide OnlyWrites;
    ChildKeeps(mem[g], s, n);
    assert OnlyWrites(m1, mem', b);
    WritesBoth(mem, m1, mem', a, b, {g, sib, n, PathPtr(up)} + RootSet(n1) + RootSet(n2));
    if up.Down? {
      Unwritten(mem, m1, a, up.p);
      SideLink(mem[up.p], up.side, g, n);
    }
    if n1.T? { Unwritten(m1, mem', b, n1.p); }
    if n2.T? { Unwritten(mem, m1, a, n2.p); }
    ChildTwice(mem[g], s, n, Root(n2));
  }

  lemma {:induction false} InnerNephewView(mem: Memory, root: Ptr, m1: Memory, mem': Memory, root': Ptr, up: Path,
                                           s: Side, a: Tree, p: Ptr, pc: Color, pk: nat, n1: Tree, n: Ptr, nc: Color,
                                           nk: nat, n2: Tree, g: Ptr, gc: Color, gk: nat, u: Tree)
    requires View(mem, root, up, Mk(s, Mk(s, a, p, pc, pk, Mk(s, n1, n, nc, nk, n2)), g, gc, gk, u)) && IsBlack(n1)
    requires p in mem && n in mem && g in mem && RaisedInner(mem, m1, g, p, n, s)
    requires n in m1 && g in m1 && p in m1 && LiftedBlack(m1, root, mem', root', n, g, p, Root(n2), s)
    ensures View(mem', root', up, Mk(s, Mk(s, a, p, Black, pk, n1), n, gc, nk, Mk(s, n2, g, Black, gk, u)))
    ensures OnlyWrites(mem, mem', Ids(Zip(up, Mk(s, Mk(s, a, p, pc, pk, Mk(s, n1, n, nc, nk, n2)), g, gc, gk, u))))
  {
    hide Mk, Rep, RepPath, Distinct, DistinctPath, Ids, PathIds, View, GetParent, GetColor, MkNode, Child,
      SetParent, SetParentColor, SetColor, Zip;
    ZipIds(up, Mk(s, Mk(s, a, p, pc, pk, Mk(s, n1, n, nc, nk, n2)), g, gc, gk, u));
    PathPtrIn(up);
    ThreeNodes(mem, root, up, s, a, p, pc, pk, n1, n, nc, nk, n2, g, gc, gk, u);
    LinkSide(mem, root, up, Mk(s, Mk(s, a, p, pc, pk, Mk(s, n1, n, nc, nk, n2)), g, gc, gk, u));
    RepMk(mem, PathPtr(up), s, Mk(s, a, p, pc, pk, Mk(s, n1, n, nc, nk, n2)), g, gc, gk, u);
    NodeSides(s, Root(n1), Root(n2), p + ColorBit(nc), nk, p);
    RootColor(mem, n, n1);
    RootColor(mem, n, n2);
    InnerNephewWrites(mem, root, m1, mem', root', up, s, p, n, g, n1, n2);
    RotateInnerView(mem, root, mem', root', up, s, a, p, pc, pk, n1, n, nc, nk, n2, g, gc, gk, u, Black, Black);
  }

  lemma {:induction false} FlipCells(mem: Memory, q: Ptr, s: Side, x: Ptr, p: Ptr, c: Color, k: nat, sib: Ptr)
    requires p in mem && sib in mem && p != sib && mem[p] == MkNode(s, x, sib, q + ColorBit(c), k) && q % 2 == 0
    ensures var m1 := mem[sib := SetParentColor(mem[sib], p, Red)];
            && GetColor(m1[p]) == c && GetParent(m1[p]) == q
            && var m2 := if c == Red then m1[p := SetColor(m1[p], Black)] else m1;
            && m2[p] == MkNode(s, x, sib, q + ColorBit(Black), k) && m2[sib] == SetParentColor(mem[sib], p, Red)
            && OnlyWrites(mem, m2, {p, sib})
  {
    Packed(q, c, mem[p]);
    NodeSides(s, x, sib, q + ColorBit(c), k, 0);
  }

  /** The sibling turns red, and a red parent black. */
  lemma {:induction false} FlipView(mem: Memory, root: Ptr, path: Path, x: Tree)
    requires View(mem, root, path, x) && path.Down? && path.other.T? && path.other.c == Black
    ensures path.p in mem && path.other.p in mem && path.p != path.other.p && IsNode(path.p)
    ensures path.up.Top? <==> PathPtr(path.up) == 0
    ensures var m1 := mem[path.other.p := SetParentColor(mem[path.other.p], path.p, Red)];
            && GetColor(m1[path.p]) == path.c && GetParent(m1[path.p]) == PathPtr(path.up)
            && var m2 := if path.c == Red then m1[path.p := SetColor(m1[path.p], Black)] else m1;
            var t' := Mk(path.side, x, path.p, Black, path.k, path.other.(c := Red));
            && View(m2, root, path.up, t') && OnlyWrites(mem, m2, Ids(Zip(path, x)))
            && Ids(Zip(path.up, t')) == Ids(Zip(path, x)) && t'.T? && t'.p == path.p
  {
    var s, p, sib := path.side, path.p, path.other;
    var t := Mk(s, x, p, path.c, path.k, sib);
    FocusUp(mem, root, path, x);
    hide Mk, Rep, RepPath, Distinct, DistinctPath, Ids, PathIds, View, MkNode, Zip, SetColor, SetParentColor, GetColor,
      GetParent;
    RepMk(mem, PathPtr(path.up), s, x, p, path.c, path.k, sib);
    LinkSide(mem, root, path.up, t);
    RepIds(mem, p, x);
    RepIds(mem, p, sib);
    RootIn(sib);
    FlipCells(mem, PathPtr(path.up), s, Root(x), p, path.c, path.k, sib.p);
    var m1 := mem[sib.p := SetParentColor(mem[sib.p], p, Red)];
    var m2 := if path.c == Red then m1[p := SetColor(m1[p], Black)] else m1;
    RepFrame(mem, m2, p, x);
    Redden(mem, m2, p, sib);
    RepMk(m2, PathPtr(path.up), s, x, p, Black, path.k, sib.(c := Red));
    ReplacedInPlace(mem, root, path.up, t, m2, Mk(s, x, p, Black, path.k, sib.(c := Red)));
    ZipIds(path, x);
    ZipIds(path.up, t);
    ZipIds(path.up, Mk(s, x, p, Black, path.k, sib.(c := Red)));
    ZipUnfold(path, x);
  }

  lemma {:induction false} ZipUnfold(path: Path, x: Tree)
    requires path.Down?
    ensures Zip(path, x) == Zip(path.up, Mk(path.side, x, path.p, path.c, path.k, path.other))
  {
  }

  lemma {:induction false} Redden(mem: Memory, mem': Memory, parent: Ptr, t: Tree)
    requires t.T? && Rep(mem, parent, t) && Distinct(t) && parent % 2 == 0
    requires Agree(mem, mem', Ids(t) - {t.p})
    requires t.p in mem' && mem'[t.p] == SetParentColor(mem[t.p], parent, Red)
    ensures Rep(mem', parent, t.(c := Red)) && Distinct(t.(c := Red)) && Ids(t.(c := Red)) == Ids(t)
  {
    RepFrame(mem, mem', t.p, t.l);
    RepFrame(mem, mem', t.p, t.r);
  }

  /** What one round of `erase_color` reads. */
  lemma {:induction false} EraseFacts(mem: Memory, root: Ptr, path: Path, x: Tree)
    requires View(mem, root, path, x) && Deficient(path, x)
    ensures path.p in mem && path.other.T? && GetColor(mem[path.p]) == path.c
    ensures mem[path.p].right != Root(x) <==> path.side == Left
    ensures Child(mem[path.p], Other(path.side)) == path.other.p
    ensures SiblingFacts(mem, path)
  {
    HasSibling(path, x);
    RootColor(mem, path.p, path.other);
    if x.T? { assert x.p in Ids(x); }
    assert path.other.p in PathIds(path);
    assert RepPath(mem, root, path.p, path.up);
    Packed(PathPtr(path.up), path.c, mem[path.p]);
    SiblingRead(mem, path);
  }

  ghost predicate SiblingFacts(mem: Memory, path: Path)
    requires path.Down? && path.other.T?
  {
    var sib := path.other;
    && sib.p in mem && sib.p != 0 && GetColor(mem[sib.p]) == sib.c
    && mem[sib.p].left == Root(sib.l) && mem[sib.p].right == Root(sib.r)
    && (sib.l.T? <==> Root(sib.l) != 0) && (sib.r.T? <==> Root(sib.r) != 0)
    && (sib.l.T? ==> sib.l.p in mem && GetColor(mem[sib.l.p]) == sib.l.c)
    && (sib.r.T? ==> sib.r.p in mem && GetColor(mem[sib.r.p]) == sib.r.c)
  }

  lemma {:induction false} SiblingRead(mem: Memory, path: Path)
    requires path.Down? && path.other.T? && Rep(mem, path.p, path.other) && path.p % 2 == 0
    ensures SiblingFacts(mem, path)
  {
    var sib := path.other;
    RootColor(mem, path.p, sib);
    RootColor(mem, sib.p, sib.l);
    RootColor(mem, sib.p, sib.r);
  }

  /** The rotated shape of case 1, seen from the hole. */
  lemma {:induction false} RedSiblingFocus(mem: Memory, root: Ptr, path: Path, x: Tree)
    requires path.Down? && path.other.T? && path.c == Black
    requires var o, sib := Other(path.side), path.other;
             View(mem, root, path.up,
                  Mk(o, Sub(sib, o), sib.p, Black, sib.k, Mk(o, Sub(sib, path.side), path.p, Red, path.k, x)))
    ensures View(mem, root, RedSiblingPath(path), x) && Ids(Zip(RedSiblingPath(path), x)) == Ids(Zip(path, x))
  {
    var s, sib := path.side, path.other;
    var o, path' := Other(s), RedSiblingPath(path);
    MkOther(s, Sub(sib, s), path.p, Red, path.k, x);
    MkOther(s, Sub(sib, o), sib.p, Black, sib.k, Mk(s, x, path.p, Red, path.k, Sub(sib, s)));
    FocusUp(mem, root, path', x);
    FocusUp(mem, root, path'.up, Mk(s, x, path.p, Red, path.k, Sub(sib, s)));
    ZipIds(path, x);
    ZipIds(path', x);
  }

  lemma {:induction false} RedSiblingShape(path: Path)
    requires path.Down? && path.other.T?
    ensures var path' := RedSiblingPath(path);
            path'.Down? && path'.p == path.p && path'.side == path.side && path'.c == Red &&
            path'.other == Sub(path.other, path.side)
  {
  }

  lemma {:induction false} InnerNephewBlack(path: Path, x: Tree, a: Tree, n: Tree, n1: Tree, n2: Tree)
    requires Deficient(path, x) && path.other.T? && n.T? && n.c == Red
    requires path.other == Mk(Other(path.side), a, path.other.p, Black, path.other.k, n)
    requires n == Mk(Other(path.side), n1, n.p, Red, n.k, n2)
    ensures IsBlack(n1) && IsBlack(n2)
  {
    hide Mk;
    PathOkDown(path, BlackHeight(x) + 1);
    MkRules(Other(path.side), a, path.other.p, Black, path.other.k, n);
    MkRules(Other(path.side), n1, n.p, Red, n.k, n2);
  }

  /** Between the two rotations the words that the second one reads are as before. */
  lemma {:induction false} RaisedMiddle(mem: Memory, m1: Memory, g: Ptr, sib: Ptr, n: Ptr, s: Side, t2: Ptr, q: Ptr)
    requires sib in mem && g in mem && n in mem && sib != g && sib != n && g != n && RaisedInner(mem, m1, g, sib, n, s)
    requires Child(mem[n], Other(s)) == t2 && (t2 != 0 ==> t2 in mem && t2 !in {g, sib, n, q}) && GetParent(mem[g]) == q
    requires q != 0 ==> q in mem && q !in {g, sib, n}
    requires Child(mem[n], s) != 0 ==> Child(mem[n], s) !in {g, sib, n, t2, q}
    ensures g in m1 && n in m1 && sib in m1 && GetParent(m1[g]) == q && Child(m1[n], Other(s)) == t2
    ensures (t2 != 0 ==> t2 in m1) && (q != 0 ==> q in m1)
  {
    hide SetParentColor;
  }
}
