/** Rotations in memory: which words change, and which shape the memory then holds. */
module RbRotate {
  import opened RbShape
  import opened RbMemory

  lemma {:induction false} Packed(q: Ptr, c: Color, n: Node)
    requires q % 2 == 0 && n.packed == q + ColorBit(c)
    ensures GetParent(n) == q && GetColor(n) == c
    ensures forall p: Ptr | p % 2 == 0 :: SetParent(n, p).packed == p + ColorBit(c)
    ensures forall d: Color :: SetColor(n, d).packed == q + ColorBit(d)
  {
  }

  /** A subtree whose root hangs below another node, with the same colour. */
  lemma {:induction false} Rehung(mem: Memory, mem': Memory, parent: Ptr, parent': Ptr, t: Tree)
    requires Rep(mem, parent, t) && Distinct(t) && parent % 2 == 0 && parent' % 2 == 0
    requires Agree(mem, mem', Ids(t) - RootSet(t))
    requires t.T? ==> t.p in mem' && mem'[t.p] == SetParent(mem[t.p], parent')
    ensures Rep(mem', parent', t)
  {
    if t.T? {
      Packed(parent, t.c, mem[t.p]);
      RepFrame(mem, mem', t.p, t.l);
      RepFrame(mem, mem', t.p, t.r);
    }
  }

  /** The link to a subtree, as the source finds it. */
  lemma {:induction false} LinkSide(mem: Memory, root: Ptr, up: Path, t: Tree)
    requires View(mem, root, up, t)
    ensures PathPtr(up) % 2 == 0
    ensures up.Top? ==> root == Root(t)
    ensures up.Down? ==>
              && up.p in mem && IsNode(up.p) && up.p !in Ids(t) && Child(mem[up.p], up.side) == Root(t)
              && (t.T? ==> (mem[up.p].left == t.p <==> up.side == Left))
    ensures t.T? ==> IsNode(t.p) && t.p in mem && GetParent(mem[t.p]) == PathPtr(up) && GetColor(mem[t.p]) == t.c
  {
    if t.T? { Packed(PathPtr(up), t.c, mem[t.p]); }
    if up.Down? {
      RepIds(mem, up.p, up.other);
      if up.other.T? { assert up.other.p in PathIds(up); }
      if t.T? { assert t.p in Ids(t); }
    }
  }

  /** A subtree two nodes deep, taken apart. */
  lemma {:induction false} TwoNodes(mem: Memory, root: Ptr, up: Path, s: Side,
                 a: Tree, p: Ptr, pc: Color, pk: nat, b: Tree, g: Ptr, gc: Color, gk: nat, u: Tree)
    requires View(mem, root, up, Mk(s, Mk(s, a, p, pc, pk, b), g, gc, gk, u))
    ensures g in mem && mem[g] == MkNode(s, p, Root(u), PathPtr(up) + ColorBit(gc), gk)
    ensures p in mem && mem[p] == MkNode(s, Root(a), Root(b), g + ColorBit(pc), pk)
    ensures Rep(mem, p, a) && Rep(mem, p, b) && Rep(mem, g, u)
    ensures Distinct(a) && Distinct(b) && Distinct(u) && g != p && IsNode(g) && IsNode(p)
    ensures Ids(a) !! Ids(b) && Ids(a) !! Ids(u) && Ids(b) !! Ids(u)
    ensures g !in Ids(a) && g !in Ids(b) && g !in Ids(u) && p !in Ids(a) && p !in Ids(b) && p !in Ids(u)
    ensures var t := Mk(s, Mk(s, a, p, pc, pk, b), g, gc, gk, u);
            t.T? && t.p == g && Ids(t) == {g, p} + Ids(a) + Ids(b) + Ids(u)
    ensures PathPtr(up) % 2 == 0 && PathPtr(up) !in Ids(Mk(s, Mk(s, a, p, pc, pk, b), g, gc, gk, u))
    ensures RootSet(a) <= Ids(a) && RootSet(b) <= Ids(b)
  {
    hide Mk, MkNode, Rep, Distinct, RepPath, DistinctPath, PathIds;
    RepMk(mem, PathPtr(up), s, Mk(s, a, p, pc, pk, b), g, gc, gk, u);
    RepMk(mem, g, s, a, p, pc, pk, b);
    PathHead(mem, root, up, Mk(s, Mk(s, a, p, pc, pk, b), g, gc, gk, u));
  }

  lemma {:induction false} PathHead(mem: Memory, root: Ptr, up: Path, t: Tree)
    requires View(mem, root, up, t)
    ensures PathPtr(up) % 2 == 0 && PathPtr(up) !in Ids(t)
  {
    RepIds(mem, PathPtr(up), t);
  }

  /**
   * The words that change when `p`, the child of `g` on side `s`, is lifted above `g`; `b` is the inner subtree of `p`.
   */
  ghost predicate Rotates(mem: Memory, root: Ptr, mem': Memory, root': Ptr, up: Path, s: Side, p: Ptr, g: Ptr, b: Tree,
                          color: Color)
    requires p in mem && g in mem
  {
    && OnlyWrites(mem, mem', {g, p, PathPtr(up)} + RootSet(b))
    && mem'[p] == SetColor(SetParent(SetChild(mem[p], Other(s), g), PathPtr(up)), GetColor(mem[g]))
    && mem'[g] == SetParentColor(SetChild(mem[g], s, Root(b)), p, color)
    && (b.T? ==> b.p in mem && mem'[b.p] == SetParent(mem[b.p], g))
    && LinksTo(mem, root, mem', root', up, p)
  }

  ghost predicate LinksTo(mem: Memory, root: Ptr, mem': Memory, root': Ptr, up: Path, x: Ptr) {
    && (up.Top? ==> root' == x)
    && (up.Down? ==> root' == root && up.p in mem && up.p in mem' && mem'[up.p] == SetChild(mem[up.p], up.side, x))
  }

  lemma {:induction false} SideLink(n: Node, s: Side, g: Ptr, x: Ptr)
    requires n.left == g <==> s == Left
    ensures SetChild(n, s, x) == if n.left == g then n.(left := x) else n.(right := x)
  {
  }

  /** Lifting the outer child: the order of the nodes stays, `p` takes the colour of `g`, and `g` the given colour. */
  lemma {:induction false} RotateView(mem: Memory, root: Ptr, mem': Memory, root': Ptr, up: Path, s: Side,
                   a: Tree, p: Ptr, pc: Color, pk: nat, b: Tree, g: Ptr, gc: Color, gk: nat, u: Tree, color: Color)
    requires View(mem, root, up, Mk(s, Mk(s, a, p, pc, pk, b), g, gc, gk, u))
    requires p in mem && g in mem && Rotates(mem, root, mem', root', up, s, p, g, b, color)
    ensures View(mem', root', up, Mk(s, a, p, gc, pk, Mk(s, b, g, color, gk, u)))
  {
    hide Mk, MkNode, Child, SetChild, Rep, RepPath, Distinct, DistinctPath, Ids, PathIds, View,
      GetParent, GetColor, SetParent, SetColor;
    var q := PathPtr(up);
    TwoNodes(mem, root, up, s, a, p, pc, pk, b, g, gc, gk, u);
    RepIds(mem, p, a);
    RepIds(mem, p, b);
    RepIds(mem, g, u);
    RotateCells(mem, mem', root, root', up, s, Root(a), p, pc, pk, b, g, gc, gk, Root(u), color);
    RepFrame(mem, mem', p, a);
    RepFrame(mem, mem', g, u);
    Rehung(mem, mem', p, g, b);
    RepMk(mem', p, s, b, g, color, gk, u);
    RepMk(mem', q, s, a, p, gc, pk, Mk(s, b, g, color, gk, u));
    ReplacedBelow(mem, root, up, Mk(s, Mk(s, a, p, pc, pk, b), g, gc, gk, u), mem', root',
                  Mk(s, a, p, gc, pk, Mk(s, b, g, color, gk, u)));
  }

  lemma {:induction false} RotateCells(mem: Memory, mem': Memory, root: Ptr, root': Ptr, up: Path, s: Side,
                    a: Ptr, p: Ptr, pc: Color, pk: nat, b: Tree, g: Ptr, gc: Color, gk: nat, u: Ptr, color: Color)
    requires p in mem && g in mem && Rotates(mem, root, mem', root', up, s, p, g, b, color)
    requires mem[g] == MkNode(s, p, u, PathPtr(up) + ColorBit(gc), gk)
    requires mem[p] == MkNode(s, a, Root(b), g + ColorBit(pc), pk)
    requires g % 2 == 0 && p % 2 == 0 && PathPtr(up) % 2 == 0
    ensures p in mem' && mem'[p] == MkNode(s, a, g, PathPtr(up) + ColorBit(gc), pk)
    ensures g in mem' && mem'[g] == MkNode(s, Root(b), u, p + ColorBit(color), gk)
  {
  }

  /** The words that change when `n`, the inner grandchild of `g`, is lifted above `p` and `g`. */
  ghost predicate RotatesInner(mem: Memory, root: Ptr, mem': Memory, root': Ptr, up: Path, s: Side,
                               p: Ptr, n: Ptr, g: Ptr, n1: Tree, n2: Tree, pcolor: Color, color: Color)
    requires p in mem && g in mem && n in mem
  {
    && OnlyWrites(mem, mem', {g, p, n, PathPtr(up)} + RootSet(n1) + RootSet(n2))
    && mem'[p] == SetParentColor(SetChild(mem[p], Other(s), Root(n1)), n, pcolor)
    && mem'[n] == SetColor(SetParent(SetChild(SetChild(mem[n], s, p), Other(s), g), PathPtr(up)), GetColor(mem[g]))
    && mem'[g] == SetParentColor(SetChild(mem[g], s, Root(n2)), n, color)
    && (n1.T? ==> n1.p in mem && mem'[n1.p] == SetParent(mem[n1.p], p))
    && (n2.T? ==> n2.p in mem && mem'[n2.p] == SetParent(mem[n2.p], g))
    && LinksTo(mem, root, mem', root', up, n)
  }

  /** What redirecting children and packing parent and colour makes of a node. */
  lemma {:induction false} RewrittenNode(s: Side, a: Ptr, b: Ptr, w: nat, k: nat, x: Ptr, y: Ptr, q: Ptr, c: Color)
    requires q % 2 == 0
    ensures SetParentColor(SetChild(MkNode(s, a, b, w, k), s, x), q, c) == MkNode(s, x, b, q + ColorBit(c), k)
    ensures SetParentColor(SetChild(MkNode(s, a, b, w, k), Other(s), y), q, c) == MkNode(s, a, y, q + ColorBit(c), k)
    ensures SetColor(SetParent(SetChild(SetChild(MkNode(s, a, b, w, k), s, x), Other(s), y), q), c) ==
            MkNode(s, x, y, q + ColorBit(c), k)
  {
  }

  lemma {:induction false} RotateInnerCells(mem: Memory, mem': Memory, root: Ptr, root': Ptr, up: Path, s: Side,
                         a: Ptr, p: Ptr, pc: Color, pk: nat, n1: Tree, n: Ptr, nc: Color, nk: nat, n2: Tree,
                         g: Ptr, gc: Color, gk: nat, u: Ptr, pcolor: Color, color: Color)
    requires p in mem && g in mem && n in mem
    requires RotatesInner(mem, root, mem', root', up, s, p, n, g, n1, n2, pcolor, color)
    requires mem[g] == MkNode(s, p, u, PathPtr(up) + ColorBit(gc), gk)
    requires mem[p] == MkNode(s, a, n, g + ColorBit(pc), pk)
    requires mem[n] == MkNode(s, Root(n1), Root(n2), p + ColorBit(nc), nk)
    requires g % 2 == 0 && p % 2 == 0 && n % 2 == 0 && PathPtr(up) % 2 == 0
    ensures p in mem' && mem'[p] == MkNode(s, a, Root(n1), n + ColorBit(pcolor), pk)
    ensures n in mem' && mem'[n] == MkNode(s, p, g, PathPtr(up) + ColorBit(gc), nk)
    ensures g in mem' && mem'[g] == MkNode(s, Root(n2), u, n + ColorBit(color), gk)
  {
    RewrittenNode(s, a, n, g + ColorBit(pc), pk, 0, Root(n1), n, pcolor);
    RewrittenNode(s, Root(n1), Root(n2), p + ColorBit(nc), nk, p, g, PathPtr(up), gc);
    RewrittenNode(s, p, u, PathPtr(up) + ColorBit(gc), gk, Root(n2), 0, n, color);
    assert mem[g].packed == PathPtr(up) + ColorBit(gc);
    Packed(PathPtr(up), gc, mem[g]);
    hide SetParentColor, SetParent, SetColor, SetChild, MkNode, GetColor, GetParent;
  }

  /** A subtree three nodes deep, taken apart. */
  lemma {:induction false} ThreeNodes(mem: Memory, root: Ptr, up: Path, s: Side,
                   a: Tree, p: Ptr, pc: Color, pk: nat, n1: Tree, n: Ptr, nc: Color, nk: nat, n2: Tree,
                   g: Ptr, gc: Color, gk: nat, u: Tree)
    requires View(mem, root, up, Mk(s, Mk(s, a, p, pc, pk, Mk(s, n1, n, nc, nk, n2)), g, gc, gk, u))
    ensures g in mem && mem[g] == MkNode(s, p, Root(u), PathPtr(up) + ColorBit(gc), gk)
    ensures p in mem && mem[p] == MkNode(s, Root(a), n, g + ColorBit(pc), pk)
    ensures n in mem && mem[n] == MkNode(s, Root(n1), Root(n2), p + ColorBit(nc), nk)
    ensures Rep(mem, p, a) && Rep(mem, n, n1) && Rep(mem, n, n2) && Rep(mem, g, u)
    ensures Distinct(a) && Distinct(n1) && Distinct(n2) && Distinct(u) && IsNode(g) && IsNode(p) && IsNode(n)
    ensures g != p && g != n && p != n
    ensures {g, p, n} !! Ids(a) && {g, p, n} !! Ids(n1) && {g, p, n} !! Ids(n2) && {g, p, n} !! Ids(u)
    ensures Ids(a) !! Ids(n1) && Ids(a) !! Ids(n2) && Ids(a) !! Ids(u) && Ids(n1) !! Ids(n2) && Ids(n1) !! Ids(u)
    ensures Ids(n2) !! Ids(u)
    ensures Ids(Mk(s, Mk(s, a, p, pc, pk, Mk(s, n1, n, nc, nk, n2)), g, gc, gk, u))
         == {g, p, n} + Ids(a) + Ids(n1) + Ids(n2) + Ids(u)
    ensures PathPtr(up) % 2 == 0 && PathPtr(up) !in {g, p, n} + Ids(a) + Ids(n1) + Ids(n2) + Ids(u)
    ensures RootSet(n1) <= Ids(n1) && RootSet(n2) <= Ids(n2)
  {
    hide Mk, MkNode, Rep, RepPath, Distinct, DistinctPath, Ids, PathIds, View;
    TwoNodes(mem, root, up, s, a, p, pc, pk, Mk(s, n1, n, nc, nk, n2), g, gc, gk, u);
    RepMk(mem, p, s, n1, n, nc, nk, n2);
    RootIn(n1);
    RootIn(n2);
  }

  lemma {:induction false} RotateInnerPieces(mem: Memory, root: Ptr, mem': Memory, root': Ptr, up: Path, s: Side,
                        a: Tree, p: Ptr, pc: Color, pk: nat, n1: Tree, n: Ptr, nc: Color, nk: nat, n2: Tree,
                        g: Ptr, gc: Color, gk: nat, u: Tree, pcolor: Color, color: Color)
    requires View(mem, root, up, Mk(s, Mk(s, a, p, pc, pk, Mk(s, n1, n, nc, nk, n2)), g, gc, gk, u))
    requires p in mem && g in mem && n in mem
    requires RotatesInner(mem, root, mem', root', up, s, p, n, g, n1, n2, pcolor, color)
    ensures Rep(mem', p, a) && Rep(mem', g, u) && Rep(mem', p, n1) && Rep(mem', g, n2)
  {
    hide Mk, MkNode, Child, SetChild, Rep, RepPath, Distinct, DistinctPath, Ids, PathIds, View,
      GetParent, GetColor, SetParent, SetColor, SetParentColor;
    ThreeNodes(mem, root, up, s, a, p, pc, pk, n1, n, nc, nk, n2, g, gc, gk, u);
    RepIds(mem, p, a);
    RepIds(mem, n, n1);
    RepIds(mem, n, n2);
    RepIds(mem, g, u);
    RepFrame(mem, mem', p, a);
    RepFrame(mem, mem', g, u);
    Rehung(mem, mem', n, p, n1);
    Rehung(mem, mem', n, g, n2);
  }

  /** Lifting the inner grandchild: it takes the colour of `g`; `p` and `g` hang below it with the given colours. */
  lemma {:induction false} RotateInnerView(mem: Memory, root: Ptr, mem': Memory, root': Ptr, up: Path, s: Side,
                        a: Tree, p: Ptr, pc: Color, pk: nat, n1: Tree, n: Ptr, nc: Color, nk: nat, n2: Tree,
                        g: Ptr, gc: Color, gk: nat, u: Tree, pcolor: Color, color: Color)
    requires View(mem, root, up, Mk(s, Mk(s, a, p, pc, pk, Mk(s, n1, n, nc, nk, n2)), g, gc, gk, u))
    requires p in mem && g in mem && n in mem
    requires RotatesInner(mem, root, mem', root', up, s, p, n, g, n1, n2, pcolor, color)
    ensures View(mem', root', up, Mk(s, Mk(s, a, p, pcolor, pk, n1), n, gc, nk, Mk(s, n2, g, color, gk, u)))
  {
    hide Mk, MkNode, Child, SetChild, Rep, RepPath, Distinct, DistinctPath, Ids, PathIds, View,
      GetParent, GetColor, SetParent, SetColor, SetParentColor;
    ThreeNodes(mem, root, up, s, a, p, pc, pk, n1, n, nc, nk, n2, g, gc, gk, u);
    RotateInnerPieces(mem, root, mem', root', up, s, a, p, pc, pk, n1, n, nc, nk, n2, g, gc, gk, u, pcolor, color);
    RotateInnerCells(mem, mem', root, root', up, s, Root(a), p, pc, pk, n1, n, nc, nk, n2, g, gc, gk, Root(u), pcolor,
                     color);
    var pt, gt := Mk(s, a, p, pcolor, pk, n1), Mk(s, n2, g, color, gk, u);
    RepMk(mem', n, s, a, p, pcolor, pk, n1);
    RepMk(mem', n, s, n2, g, color, gk, u);
    RepMk(mem', PathPtr(up), s, pt, n, gc, nk, gt);
    ReplacedBelow(mem, root, up, Mk(s, Mk(s, a, p, pc, pk, Mk(s, n1, n, nc, nk, n2)), g, gc, gk, u), mem', root',
                  Mk(s, pt, n, gc, nk, gt));
  }

  lemma {:induction false} RootIn(t: Tree)
    ensures RootSet(t) <= Ids(t)
  {
  }
}
