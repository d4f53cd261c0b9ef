/**
 * Orders in which the nodes are visited, and how high the tree can be (src/lib/data_structures/rbtree.c:466-504,
 * 589-609, 710-740).
 */
module RbWalk {
  import opened Arithmetic
  import opened RbShape
  import opened RbMemory
  import opened RbRotate
  import opened RbSearch

  // In-order walks towards side `s`: `Right` is the order of the keys, `Left` its reverse

  function Walk(s: Side, t: Tree): seq<Item>
    decreases t
  {
    match t
    case Nil => []
    case T(_, p, _, k, _) => Walk(s, Sub(t, Other(s))) + [(p, k)] + Walk(s, Sub(t, s))
  }

  function Rest(s: Side, path: Path): seq<Item> {
    match path
    case Top => []
    case Down(side, p, _, k, o, up) => if side == s then Rest(s, up) else [(p, k)] + Walk(s, o) + Rest(s, up)
  }

  function Reversed(s: seq<Item>): seq<Item> {
    if s == [] then [] else Reversed(s[1..]) + [s[0]]
  }

  lemma {:induction false} ReversedConcat(a: seq<Item>, b: seq<Item>)
    ensures Reversed(a + b) == Reversed(b) + Reversed(a)
    decreases |a|
  {
    if a == [] {
      assert a + b == b;
    } else {
      assert (a + b)[1..] == a[1..] + b;
      ReversedConcat(a[1..], b);
    }
  }

  /** The two walks are the in-order sequence and its reverse. */
  lemma {:induction false} WalkOrders(t: Tree)
    ensures Walk(Right, t) == Items(t) && Walk(Left, t) == Reversed(Items(t))
  {
    if t.T? {
      WalkOrders(t.l);
      WalkOrders(t.r);
      ReversedConcat(Items(t.l), [(t.p, t.k)]);
      ReversedConcat(Items(t.l) + [(t.p, t.k)], Items(t.r));
    }
  }

  /** What a visitor sees: the nodes in order, up to and including the first one it refuses. */
  function Visited(s: seq<Item>, visit: Ptr -> bool): seq<Ptr> {
    if s == [] then [] else if visit(s[0].0) then [s[0].0] + Visited(s[1..], visit) else [s[0].0]
  }

  lemma {:induction false} VisitStep(x: Item, rest: seq<Item>, visit: Ptr -> bool)
    ensures Visited([x] + rest, visit) == if visit(x.0) then [x.0] + Visited(rest, visit) else [x.0]
  {
    assert ([x] + rest)[0] == x && ([x] + rest)[1..] == rest;
  }

  lemma {:induction false} VisitNothing(visit: Ptr -> bool)
    ensures Visited([], visit) == []
  {
  }

  /**
   * A visitor's view: a prefix of the order, all of it accepted but perhaps the last, and the last refused unless it is
   * the whole order.
   */
  ghost predicate SeesPrefix(s: seq<Item>, visit: Ptr -> bool, v: seq<Ptr>) {
    && |v| <= |s| && (forall i | 0 <= i < |v| :: v[i] == s[i].0)
    && (forall i | 0 <= i < |v| - 1 :: visit(v[i])) && (|v| < |s| ==> v != [] && !visit(v[|v| - 1]))
  }

  lemma {:induction false} VisitedPrefix(s: seq<Item>, visit: Ptr -> bool)
    ensures SeesPrefix(s, visit, Visited(s, visit))
    decreases |s|
  {
    if s != [] && visit(s[0].0) { VisitedPrefix(s[1..], visit); }
  }

  /** Climbing from the far side of a node does not change what is left to visit. */
  lemma {:induction false} RestUp(s: Side, path: Path, t: Tree)
    requires path.Down?
    ensures path.side == s ==> Rest(s, path) == Rest(s, path.up)
    ensures path.side != s ==>
              var t' := Mk(path.side, t, path.p, path.c, path.k, path.other);
              Sub(t', s) == path.other && Rest(s, path) == [(path.p, path.k)] + (Walk(s, path.other) + Rest(s, path.up))
  {
    if path.side != s {
      assert [(path.p, path.k)] + Walk(s, path.other) + Rest(s, path.up) ==
             [(path.p, path.k)] + (Walk(s, path.other) + Rest(s, path.up));
    }
  }

  /** Descending away from `s` keeps what is left to visit, the subtree included. */
  lemma {:induction false} RestDown(s: Side, path: Path, t: Tree)
    requires t.T?
    ensures var path' := Down(Other(s), t.p, t.c, t.k, Sub(t, s), path);
            Walk(s, t) + Rest(s, path) == Walk(s, Sub(t, Other(s))) + Rest(s, path')
  {
    var a, x, b, c := Walk(s, Sub(t, Other(s))), [(t.p, t.k)], Walk(s, Sub(t, s)), Rest(s, path);
    assert (a + x + b) + c == a + (x + b + c);
  }

  // Post-order

  function PostOrder(t: Tree): seq<Ptr> {
    match t
    case Nil => []
    case T(l, p, _, _, r) => PostOrder(l) + PostOrder(r) + [p]
  }

  /** What remains to be freed above the focus, when everything to the left of the path is gone. */
  function PostRest(path: Path): seq<Ptr> {
    match path
    case Top => []
    case Down(Left, p, _, _, o, up) => PostOrder(o) + [p] + PostRest(up)
    case Down(Right, p, _, _, _, up) => [p] + PostRest(up)
  }

  predicate LeftGone(path: Path) {
    path.Down? ==> (path.side == Right ==> path.other.Nil?) && LeftGone(path.up)
  }

  function Size(t: Tree): nat {
    match t
    case Nil => 0
    case T(l, _, _, _, r) => Size(l) + 1 + Size(r)
  }

  lemma {:induction false} ZipSize(path: Path, t: Tree, t': Tree)
    requires Size(t') < Size(t)
    ensures Size(Zip(path, t')) < Size(Zip(path, t))
    decreases path
  {
    if path.Down? {
      ZipSize(path.up, Mk(path.side, t, path.p, path.c, path.k, path.other),
              Mk(path.side, t', path.p, path.c, path.k, path.other));
    }
  }

  /** Every node appears once, the root last. */
  lemma {:induction false} PostOrderOnce(t: Tree)
    requires Distinct(t)
    ensures |PostOrder(t)| == Size(t)
    ensures forall x :: x in PostOrder(t) <==> x in Ids(t)
    ensures forall i, j | 0 <= i < j < |PostOrder(t)| :: PostOrder(t)[i] != PostOrder(t)[j]
    ensures t.T? ==> PostOrder(t)[|PostOrder(t)| - 1] == t.p
  {
    if t.T? {
      PostOrderOnce(t.l);
      PostOrderOnce(t.r);
      var a, b, s := PostOrder(t.l), PostOrder(t.r), PostOrder(t);
      assert s == a + b + [t.p];
      forall i, j | 0 <= i < j < |s| ensures s[i] != s[j] {
        assert s[i] == if i < |a| then a[i] else b[i - |a|];
        assert s[j] == if j < |a| then a[j] else if j < |a| + |b| then b[j - |a|] else t.p;
        assert i < |a| ==> a[i] in Ids(t.l);
        assert i >= |a| ==> b[i - |a|] in Ids(t.r);
        assert |a| <= j < |a| + |b| ==> b[j - |a|] in Ids(t.r);
      }
    }
  }

  /** `u` is a subtree of `t`. */
  predicate Subtree(u: Tree, t: Tree) {
    u == t || (t.T? && (Subtree(u, t.l) || Subtree(u, t.r)))
  }

  lemma {:induction false} SubtreeIds(u: Tree, t: Tree)
    requires Subtree(u, t)
    ensures Ids(u) <= Ids(t)
  {
    if u != t {
      if Subtree(u, t.l) { SubtreeIds(u, t.l); } else { SubtreeIds(u, t.r); }
    }
  }

  lemma {:induction false} PostOrderAt(t: Tree, i: nat)
    requires Distinct(t) && t.T? && i < |PostOrder(t)|
    ensures var a, b := PostOrder(t.l), PostOrder(t.r);
            && |PostOrder(t)| == |a| + |b| + 1
            && (i < |a| ==> PostOrder(t)[i] == a[i] && a[i] in Ids(t.l))
            && (|a| <= i < |a| + |b| ==> PostOrder(t)[i] == b[i - |a|] && b[i - |a|] in Ids(t.r))
            && (i == |a| + |b| ==> PostOrder(t)[i] == t.p)
  {
    PostOrderOnce(t.l);
    PostOrderOnce(t.r);
    var a, b := PostOrder(t.l), PostOrder(t.r);
    assert PostOrder(t) == a + b + [t.p];
    hide PostOrder;
    assert i < |a| ==> a[i] in a;
    assert |a| <= i < |a| + |b| ==> b[i - |a|] in b;
  }

  lemma {:induction false} DistinctParts(t: Tree)
    requires Distinct(t) && t.T?
    ensures t.p !in Ids(t.l) && t.p !in Ids(t.r) && Ids(t.l) !! Ids(t.r) && Distinct(t.l) && Distinct(t.r)
  {
  }

  /** Every node is freed after all nodes below it. */
  lemma {:induction false} PostOrderBelow(t: Tree, u: Tree, i: nat, j: nat)
    requires Distinct(t) && Subtree(u, t) && u.T? && i < |PostOrder(t)| && j < |PostOrder(t)|
    requires PostOrder(t)[j] == u.p && PostOrder(t)[i] in Ids(u) && i != j
    ensures i < j
    decreases t
  {
    hide PostOrder, Distinct, Ids;
    PostOrderAt(t, i);
    PostOrderAt(t, j);
    DistinctParts(t);
    RootIn(u);
    var a := PostOrder(t.l);
    if u != t {
      if Subtree(u, t.l) {
        SubtreeIds(u, t.l);
        PostOrderBelow(t.l, u, i, j);
      } else {
        SubtreeIds(u, t.r);
        PostOrderBelow(t.r, u, i - |a|, j - |a|);
      }
    }
  }

  // Height

  function Height(t: Tree): nat {
    match t
    case Nil => 0
    case T(l, _, _, _, r) => 1 + if Height(l) > Height(r) then Height(l) else Height(r)
  }

  lemma {:induction false} BlackHeightBounds(t: Tree)
    requires Balanced(t) && NoRedRed(t)
    ensures Height(t) <= 2 * BlackHeight(t) + if IsBlack(t) then 0 else 1
    ensures Pow2(BlackHeight(t)) <= Size(t) + 1
  {
    if t.T? {
      BlackHeightBounds(t.l);
      BlackHeightBounds(t.r);
    }
  }

  /** A red-black tree of n nodes has height at most 2 log2 (n + 1). */
  lemma {:induction false} HeightBound(t: Tree)
    requires RedBlack(t)
    ensures Pow2(Height(t)) <= (Size(t) + 1) * (Size(t) + 1)
  {
    BlackHeightBounds(t);
    var h := BlackHeight(t);
    Pow2Monotone(Height(t), h + h);
    Pow2Add(h, h);
    MulMonotone(Pow2(h), Size(t) + 1);
  }

  // Reading the walk off memory

  lemma {:induction false} RestTop(s: Side, t: Tree)
    ensures Walk(s, t) + Rest(s, Top) == Walk(s, t)
  {
  }

  lemma {:induction false} RestEmpty(s: Side)
    ensures Rest(s, Top) == []
  {
  }

  lemma {:induction false} NoWalk(s: Side, t: Tree, rest: seq<Item>)
    requires t.Nil?
    ensures Walk(s, t) + rest == rest
  {
  }

  lemma {:induction false} WalkDownFacts(s: Side, path: Path, t: Tree)
    requires t.T?
    ensures Rest(s, Down(s, t.p, t.c, t.k, Sub(t, Other(s)), path)) == Rest(s, path)
  {
  }

  lemma {:induction false} WalkFacts(mem: Memory, root: Ptr, path: Path, t: Tree, s: Side)
    requires View(mem, root, path, t) && t.T?
    ensures t.p in mem && t.p != 0
    ensures Child(mem[t.p], s) == Root(Sub(t, s)) && Child(mem[t.p], Other(s)) == Root(Sub(t, Other(s)))
    ensures (Sub(t, s).T? <==> Root(Sub(t, s)) != 0) && (Sub(t, Other(s)).T? <==> Root(Sub(t, Other(s))) != 0)
    ensures View(mem, root, Down(s, t.p, t.c, t.k, Sub(t, Other(s)), path), Sub(t, s))
    ensures View(mem, root, Down(Other(s), t.p, t.c, t.k, Sub(t, s), path), Sub(t, Other(s)))
  {
    FocusUp(mem, root, Down(s, t.p, t.c, t.k, Sub(t, Other(s)), path), Sub(t, s));
    FocusUp(mem, root, Down(Other(s), t.p, t.c, t.k, Sub(t, s), path), Sub(t, Other(s)));
    RepIds(mem, t.p, t.l);
    RepIds(mem, t.p, t.r);
    RootIn(t.l);
    RootIn(t.r);
  }

  lemma {:induction false} ClimbFacts(mem: Memory, root: Ptr, up: Path, x: Tree, s: Side)
    requires View(mem, root, up, x) && x.T?
    ensures up.Down? ==> up.p in mem && (x.p == Child(mem[up.p], s) <==> up.side == s)
  {
    LinkSide(mem, root, up, x);
    if up.Down? {
      RootIn(up.other);
      RootIn(x);
    }
  }

  // Freeing the nodes from the leaves up

  lemma {:induction false} FreeBelow(mem: Memory, root: Ptr, path: Path, t: Tree, s: Side)
    requires View(mem, root, path, t) && t.T? && LeftGone(path) && Sub(t, s).T? && (s == Right ==> t.l.Nil?)
    ensures var path' := Down(s, t.p, t.c, t.k, Sub(t, Other(s)), path);
            && View(mem, root, path', Sub(t, s)) && LeftGone(path') && Zip(path', Sub(t, s)) == Zip(path, t)
            && PostOrder(t) + PostRest(path) == PostOrder(Sub(t, s)) + PostRest(path')
            && Size(Sub(t, s)) < Size(t)
  {
    hide View, PostOrder, PostRest;
    WalkFacts(mem, root, path, t, s);
    BelowOrder(path, t, s);
  }

  lemma {:induction false} BelowOrder(path: Path, t: Tree, s: Side)
    requires t.T? && (s == Right ==> t.l.Nil?)
    ensures PostOrder(t) + PostRest(path) ==
            PostOrder(Sub(t, s)) + PostRest(Down(s, t.p, t.c, t.k, Sub(t, Other(s)), path))
  {
    var l, r, p, rest := PostOrder(t.l), PostOrder(t.r), [t.p], PostRest(path);
    if s == Left {
      assert l + r + p + rest == l + (r + p + rest);
    } else {
      assert l + r + p + rest == r + (p + rest);
    }
  }

  /** The memory after the leaf at the end of `path` is unlinked and handed to the free function. */
  function Freed(mem: Memory, path: Path, node: Ptr): Memory
    requires path.Down? ==> path.p in mem
  {
    (if path.Top? then mem else mem[path.p := SetChild(mem[path.p], path.side, 0)]) - {node}
  }

  lemma {:induction false} FreedView(mem: Memory, root: Ptr, path: Path, t: Tree)
    requires View(mem, root, path, t) && t.T? && t.l.Nil? && t.r.Nil? && path.Down?
    ensures path.p in mem && path.p != t.p
    ensures View(Freed(mem, path, t.p), root, path, Nil)
  {
    hide Zip;
    PathInMemory(mem, root, t.p, path);
    Replaced(mem, root, path, t, Freed(mem, path, t.p), root, Nil);
  }

  lemma {:induction false} FreedOrder(path: Path, t: Tree)
    requires t.T? && t.l.Nil? && t.r.Nil? && LeftGone(path) && path.Down?
    ensures LeftGone(path.up)
    ensures var t' := Mk(path.side, Nil, path.p, path.c, path.k, path.other);
            PostOrder(t) + PostRest(path) == [t.p] + (PostOrder(t') + PostRest(path.up))
  {
    var t' := Mk(path.side, Nil, path.p, path.c, path.k, path.other);
    var o, a, r := PostOrder(path.other), [path.p], PostRest(path.up);
    assert PostOrder(t) == [t.p] by { assert PostOrder(t) == [] + [] + [t.p]; }
    if path.side == Left {
      assert PostOrder(t') == [] + o + a == o + a;
      assert PostRest(path) == o + a + r;
    } else {
      assert PostOrder(t') == o + [] + a == a;
      assert PostRest(path) == a + r;
    }
  }

  lemma {:induction false} FreeLeaf(mem: Memory, root: Ptr, path: Path, t: Tree)
    requires View(mem, root, path, t) && t.T? && t.l.Nil? && t.r.Nil? && LeftGone(path) && path.Down?
    ensures path.p in mem && path.p in Ids(Zip(path, t)) && path.p != t.p
    ensures var t' := Mk(path.side, Nil, path.p, path.c, path.k, path.other);
            && View(Freed(mem, path, t.p), root, path.up, t') && t'.T? && t'.p == path.p && LeftGone(path.up)
            && PostOrder(t) + PostRest(path) == [t.p] + (PostOrder(t') + PostRest(path.up))
            && Ids(Zip(path.up, t')) <= Ids(Zip(path, t)) && Size(Zip(path.up, t')) < Size(Zip(path, t))
  {
    hide View, PostOrder, PostRest, LeftGone, Distinct;
    FreedView(mem, root, path, t);
    FreedOrder(path, t);
    FocusUp(Freed(mem, path, t.p), root, path, Nil);
    ZipIds(path, t);
    ZipIds(path, Nil);
    ZipSize(path, t, Nil);
  }

  lemma {:induction false} FreeRead(mem: Memory, root: Ptr, path: Path, t: Tree)
    requires View(mem, root, path, t) && t.T?
    ensures t.p in mem && t.p != 0 && t.p in Ids(Zip(path, t)) && Size(Zip(path, t)) > 0
    ensures mem[t.p].left == Root(t.l) && mem[t.p].right == Root(t.r) && GetParent(mem[t.p]) == PathPtr(path)
    ensures (t.l.T? <==> Root(t.l) != 0) && (t.r.T? <==> Root(t.r) != 0) && (path.Top? <==> PathPtr(path) == 0)
    ensures path.Down? ==> path.p in mem && (mem[path.p].left == t.p <==> path.side == Left)
  {
    WalkFacts(mem, root, path, t, Left);
    ClimbFacts(mem, root, path, t, Left);
    SearchFacts(mem, root, path, t);
    ZipIds(path, t);
    ZipNonEmpty(path, t);
  }

  lemma {:induction false} DestroyStarts(mem: Memory, root: Ptr, t: Tree)
    requires View(mem, root, Top, t)
    ensures root == Root(t) && (root != 0 <==> t.T?) && (t.T? ==> t.p == root)
    ensures Distinct(t) && LeftGone(Top) && Zip(Top, t) == t && (t.Nil? ==> PostOrder(t) == [])
    ensures [] + (PostOrder(t) + PostRest(Top)) == PostOrder(t)
  {
    SearchFacts(mem, root, Top, t);
  }

  lemma {:induction false} LastLeaf(t: Tree)
    requires t.T? && t.l.Nil? && t.r.Nil?
    ensures PostOrder(t) + PostRest(Top) == [t.p]
  {
    assert PostOrder(t) == [] + [] + [t.p];
  }

  lemma {:induction false} EmptyTree(mem: Memory)
    ensures View(mem, 0, Top, Nil) && RedBlack(Nil) && Sorted(Items(Nil))
  {
  }

  lemma {:induction false} ZipNonEmpty(path: Path, t: Tree)
    requires t.T?
    ensures Size(Zip(path, t)) > 0
    decreases path
  {
    if path.Down? { ZipNonEmpty(path.up, Mk(path.side, t, path.p, path.c, path.k, path.other)); }
  }
}
