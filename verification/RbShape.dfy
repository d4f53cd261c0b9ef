/** Red-black trees as values: shapes, search order, colour and height rules.

A `Path` is the way from the root down to a hole, with the subtrees passed on the way. The two mirror
images of every case of the source are one case with a `side`.
*/
module RbShape {

  type Ptr = nat

  datatype Color = Black | Red
  datatype Side = Left | Right
  datatype Tree = Nil | T(l: Tree, p: Ptr, c: Color, k: nat, r: Tree)
  datatype Path = Top | Down(side: Side, p: Ptr, c: Color, k: nat, other: Tree, up: Path)

  function Other(s: Side): Side {
    if s == Left then Right else Left
  }

  /** The node `p` with subtree `a` on side `s` and subtree `b` on the other side. */
  function Mk(s: Side, a: Tree, p: Ptr, c: Color, k: nat, b: Tree): Tree {
    if s == Left then T(a, p, c, k, b) else T(b, p, c, k, a)
  }

  function Sub(t: Tree, s: Side): Tree
    requires t.T?
  {
    if s == Left then t.l else t.r
  }

  function Root(t: Tree): Ptr {
    if t.Nil? then 0 else t.p
  }

  function RootSet(t: Tree): set<Ptr> {
    if t.Nil? then {} else {t.p}
  }

  function PathPtr(path: Path): Ptr {
    if path.Top? then 0 else path.p
  }

  function Zip(path: Path, t: Tree): Tree
    decreases path
  {
    match path
    case Top => t
    case Down(s, p, c, k, o, up) => Zip(up, Mk(s, t, p, c, k, o))
  }

  // Contents

  type Item = (Ptr, nat)

  function Items(t: Tree): seq<Item> {
    match t
    case Nil => []
    case T(l, p, _, k, r) => Items(l) + [(p, k)] + Items(r)
  }

  function Before(path: Path): seq<Item> {
    match path
    case Top => []
    case Down(Left, _, _, _, _, up) => Before(up)
    case Down(Right, p, _, k, o, up) => Before(up) + Items(o) + [(p, k)]
  }

  function After(path: Path): seq<Item> {
    match path
    case Top => []
    case Down(Left, p, _, k, o, up) => [(p, k)] + Items(o) + After(up)
    case Down(Right, _, _, _, _, up) => After(up)
  }

  lemma {:induction false} ZipItems(path: Path, t: Tree)
    ensures Items(Zip(path, t)) == Before(path) + Items(t) + After(path)
    decreases path
  {
    match path
    case Top =>
    case Down(s, p, c, k, o, up) => ZipItems(up, Mk(s, t, p, c, k, o));
  }

  function Ids(t: Tree): set<Ptr> {
    match t
    case Nil => {}
    case T(l, p, _, _, r) => Ids(l) + {p} + Ids(r)
  }

  function PathIds(path: Path): set<Ptr> {
    match path
    case Top => {}
    case Down(_, p, _, _, o, up) => {p} + Ids(o) + PathIds(up)
  }

  predicate Distinct(t: Tree) {
    match t
    case Nil => true
    case T(l, p, _, _, r) => p !in Ids(l) && p !in Ids(r) && Ids(l) !! Ids(r) && Distinct(l) && Distinct(r)
  }

  predicate DistinctPath(path: Path) {
    match path
    case Top => true
    case Down(_, p, _, _, o, up) =>
      p !in Ids(o) && p !in PathIds(up) && Ids(o) !! PathIds(up) && Distinct(o) && DistinctPath(up)
  }

  // Search order

  predicate Sorted(s: seq<Item>) {
    forall i, j | 0 <= i < j < |s| :: s[i].1 < s[j].1
  }

  // Colour and height

  predicate IsBlack(t: Tree) {
    t.Nil? || t.c == Black
  }

  function Weight(c: Color): nat {
    if c == Black then 1 else 0
  }

  function BlackHeight(t: Tree): nat {
    match t
    case Nil => 0
    case T(l, _, c, _, _) => BlackHeight(l) + Weight(c)
  }

  predicate Balanced(t: Tree) {
    match t
    case Nil => true
    case T(l, _, _, _, r) => Balanced(l) && Balanced(r) && BlackHeight(l) == BlackHeight(r)
  }

  predicate NoRedRed(t: Tree) {
    match t
    case Nil => true
    case T(l, _, c, _, r) => NoRedRed(l) && NoRedRed(r) && (c == Red ==> IsBlack(l) && IsBlack(r))
  }

  predicate RedBlack(t: Tree) {
    Balanced(t) && NoRedRed(t) && IsBlack(t)
  }

  /** A subtree of black height `h` with a black root keeps the whole tree red-black when it fills the hole. */
  predicate PathOk(path: Path, h: nat) {
    match path
    case Top => true
    case Down(_, _, c, _, o, up) =>
      && Balanced(o) && NoRedRed(o) && BlackHeight(o) == h
      && (c == Red ==> IsBlack(o) && up.Down? && up.c == Black)
      && PathOk(up, h + Weight(c))
  }

  lemma {:induction false} ZipRedBlack(path: Path, t: Tree)
    requires PathOk(path, BlackHeight(t)) && Balanced(t) && NoRedRed(t)
    requires IsBlack(t) || (path.Down? && path.c == Black)
    ensures RedBlack(Zip(path, t))
    decreases path
  {
    match path
    case Top =>
    case Down(s, p, c, k, o, up) => ZipRedBlack(up, Mk(s, t, p, c, k, o));
  }

  /** Taking a red-black tree apart leaves a path that is in order. */
  lemma {:induction false} UnzipRedBlack(path: Path, t: Tree)
    requires RedBlack(Zip(path, t))
    ensures PathOk(path, BlackHeight(t)) && Balanced(t) && NoRedRed(t)
    ensures t.T? && t.c == Red ==> path.Down? && path.c == Black
    decreases path
  {
    match path
    case Top =>
    case Down(s, p, c, k, o, up) => UnzipRedBlack(up, Mk(s, t, p, c, k, o));
  }

  lemma {:induction false} ZipIds(path: Path, t: Tree)
    ensures Ids(Zip(path, t)) == PathIds(path) + Ids(t)
    decreases path
  {
    if path.Down? { ZipIds(path.up, Mk(path.side, t, path.p, path.c, path.k, path.other)); }
  }

  /** A subtree on side `s` is on the other side of the mirror image. */
  lemma {:induction false} MkOther(s: Side, a: Tree, p: Ptr, c: Color, k: nat, b: Tree)
    ensures Mk(Other(s), a, p, c, k, b) == Mk(s, b, p, c, k, a) && Other(Other(s)) == s
  {
  }

  /** The rules at one node, on either side. */
  lemma {:induction false} MkRules(s: Side, a: Tree, p: Ptr, c: Color, k: nat, b: Tree)
    ensures var t := Mk(s, a, p, c, k, b);
            && t.T? && t.c == c && t.p == p && t.k == k && Sub(t, s) == a && Sub(t, Other(s)) == b
            && (Balanced(t) <==> Balanced(a) && Balanced(b) && BlackHeight(a) == BlackHeight(b))
            && (Balanced(t) ==> BlackHeight(t) == BlackHeight(a) + Weight(c))
            && (NoRedRed(t) <==> NoRedRed(a) && NoRedRed(b) && (c == Red ==> IsBlack(a) && IsBlack(b)))
  {
  }

  /** Equal contents in the hole give equal contents of the tree. */
  lemma {:induction false} ZipSameItems(path: Path, t: Tree, t': Tree)
    requires Items(t) == Items(t')
    ensures Items(Zip(path, t)) == Items(Zip(path, t'))
  {
    ZipItems(path, t);
    ZipItems(path, t');
  }

  function Join(s: Side, a: seq<Item>, x: Item, b: seq<Item>): seq<Item> {
    if s == Left then a + [x] + b else b + [x] + a
  }

  lemma {:induction false} MkItems(s: Side, a: Tree, p: Ptr, c: Color, k: nat, b: Tree)
    ensures Items(Mk(s, a, p, c, k, b)) == Join(s, Items(a), (p, k), Items(b))
  {
  }

  lemma {:induction false} JoinAssociative(s: Side, a: seq<Item>, x: Item, b: seq<Item>, y: Item, c: seq<Item>)
    ensures Join(s, Join(s, a, x, b), y, c) == Join(s, a, x, Join(s, b, y, c))
  {
    if s == Left {
      assert (a + [x] + b) + [y] + c == a + [x] + (b + [y] + c);
    } else {
      assert c + [y] + (b + [x] + a) == (c + [y] + b) + [x] + a;
    }
  }

  lemma {:induction false} RotateItems(s: Side, a: Tree, p: Ptr, pc: Color, pk: nat, b: Tree, g: Ptr, gc: Color,
                                       gk: nat, u: Tree, pc': Color, gc': Color)
    ensures Items(Mk(s, Mk(s, a, p, pc, pk, b), g, gc, gk, u)) == Items(Mk(s, a, p, pc', pk, Mk(s, b, g, gc', gk, u)))
  {
    hide Mk, Items, Join;
    MkItems(s, Mk(s, a, p, pc, pk, b), g, gc, gk, u);
    MkItems(s, a, p, pc, pk, b);
    MkItems(s, a, p, pc', pk, Mk(s, b, g, gc', gk, u));
    MkItems(s, b, g, gc', gk, u);
    JoinAssociative(s, Items(a), (p, pk), Items(b), (g, gk), Items(u));
  }

  lemma {:induction false} RotateInnerItems(s: Side, a: Tree, p: Ptr, pc: Color, pk: nat, n1: Tree, n: Ptr, nc: Color,
                                            nk: nat, n2: Tree, g: Ptr, gc: Color, gk: nat, u: Tree, pc': Color,
                                            nc': Color, gc': Color)
    ensures Items(Mk(s, Mk(s, a, p, pc, pk, Mk(s, n1, n, nc, nk, n2)), g, gc, gk, u))
         == Items(Mk(s, Mk(s, a, p, pc', pk, n1), n, nc', nk, Mk(s, n2, g, gc', gk, u)))
  {
    hide Mk, Items, Join;
    var nt, pt', gt' := Mk(s, n1, n, nc, nk, n2), Mk(s, a, p, pc', pk, n1), Mk(s, n2, g, gc', gk, u);
    RotateItems(s, a, p, pc, pk, nt, g, gc, gk, u, pc, gc);
    MkItems(s, a, p, pc, pk, Mk(s, nt, g, gc, gk, u));
    RotateItems(s, n1, n, nc, nk, n2, g, gc, gk, u, nc, gc');
    MkItems(s, n1, n, nc, nk, gt');
    MkItems(s, pt', n, nc', nk, gt');
    MkItems(s, a, p, pc', pk, n1);
    JoinAssociative(s, Items(a), (p, pk), Items(n1), (n, nk), Items(gt'));
  }
}
