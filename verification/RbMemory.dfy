/** Tree nodes in memory (src/lib/data_structures/rbtree.c:16-92) and how they represent a shape.

Memory maps node addresses to nodes; address 0 is NULL and node addresses are even, so that bit 0 of
the parent word can hold the colour.
*/
module RbMemory {
  import opened RbShape

  datatype Node = Node(left: Ptr, right: Ptr, packed: nat, key: nat)
  type Memory = map<Ptr, Node>

  function ColorBit(c: Color): nat {
    if c == Red then 1 else 0
  }

  function GetColor(n: Node): Color {
    if n.packed % 2 == 1 then Red else Black
  }

  function GetParent(n: Node): Ptr {
    n.packed - n.packed % 2
  }

  function SetColor(n: Node, c: Color): Node {
    n.(packed := n.packed - n.packed % 2 + ColorBit(c))
  }

  function SetParent(n: Node, p: Ptr): Node {
    n.(packed := n.packed % 2 + (p - p % 2))
  }

  function SetParentColor(n: Node, p: Ptr, c: Color): Node {
    n.(packed := p - p % 2 + ColorBit(c))
  }

  function Child(n: Node, s: Side): Ptr {
    if s == Left then n.left else n.right
  }

  function SetChild(n: Node, s: Side, x: Ptr): Node {
    if s == Left then n.(left := x) else n.(right := x)
  }

  // Representation

  lemma LeftKeeps(n: Node, x: Ptr)
    ensures GetColor(n.(left := x)) == GetColor(n)
  {
  }

  lemma ChildKeeps(n: Node, s: Side, x: Ptr)
    ensures GetParent(SetChild(n, s, x)) == GetParent(n) && GetColor(SetChild(n, s, x)) == GetColor(n)
  {
  }

  lemma ChildTwice(n: Node, s: Side, x: Ptr, y: Ptr)
    ensures SetChild(SetChild(n, s, x), s, y) == SetChild(n, s, y)
  {
  }

  /** The node that stands for the root of `t` below `parent`. */
  function NodeOf(parent: Ptr, t: Tree): Node
    requires t.T?
  {
    Node(Root(t.l), Root(t.r), parent + ColorBit(t.c), t.k)
  }

  predicate IsNode(p: Ptr) {
    p != 0 && p % 2 == 0
  }

  ghost predicate Rep(mem: Memory, parent: Ptr, t: Tree)
    decreases t
  {
    match t
    case Nil => true
    case T(l, p, _, _, r) => IsNode(p) && p in mem && mem[p] == NodeOf(parent, t) && Rep(mem, p, l) && Rep(mem, p, r)
  }

  ghost predicate RepPath(mem: Memory, root: Ptr, hole: Ptr, path: Path)
    decreases path
  {
    match path
    case Top => root == hole
    case Down(s, p, c, k, o, up) =>
      && IsNode(p) && p in mem
      && mem[p] == SetChild(SetChild(Node(0, 0, PathPtr(up) + ColorBit(c), k), s, hole), Other(s), Root(o))
      && Rep(mem, p, o) && RepPath(mem, root, p, up)
  }

  /** Memory and root pointer hold the tree `Zip(path, t)`. */
  ghost predicate View(mem: Memory, root: Ptr, path: Path, t: Tree) {
    && RepPath(mem, root, Root(t), path) && Rep(mem, PathPtr(path), t)
    && Distinct(t) && DistinctPath(path) && Ids(t) !! PathIds(path)
  }

  /** Moving the focus from a child to its parent and back. */
  lemma {:induction false} FocusUp(mem: Memory, root: Ptr, path: Path, t: Tree)
    requires path.Down?
    ensures View(mem, root, path, t) <==> View(mem, root, path.up, Mk(path.side, t, path.p, path.c, path.k, path.other))
  {
  }

  lemma {:induction false} ViewZip(mem: Memory, root: Ptr, path: Path, t: Tree)
    ensures View(mem, root, path, t) <==> View(mem, root, Top, Zip(path, t))
    decreases path
  {
    if path.Down? {
      FocusUp(mem, root, path, t);
      ViewZip(mem, root, path.up, Mk(path.side, t, path.p, path.c, path.k, path.other));
    }
  }

  // Framing

  ghost predicate Agree(mem: Memory, mem': Memory, ids: set<Ptr>) {
    forall x | x in ids :: x in mem && x in mem' && mem'[x] == mem[x]
  }

  lemma {:induction false} RepIds(mem: Memory, parent: Ptr, t: Tree)
    requires Rep(mem, parent, t)
    ensures forall x | x in Ids(t) :: x in mem && IsNode(x)
    decreases t
  {
    if t.T? {
      RepIds(mem, t.p, t.l);
      RepIds(mem, t.p, t.r);
    }
  }

  lemma {:induction false} RepFrame(mem: Memory, mem': Memory, parent: Ptr, t: Tree)
    requires Rep(mem, parent, t)
    requires Agree(mem, mem', Ids(t))
    ensures Rep(mem', parent, t)
    decreases t
  {
    if t.T? {
      assert t.p in Ids(t);
      RepFrame(mem, mem', t.p, t.l);
      RepFrame(mem, mem', t.p, t.r);
    }
  }

  /** The root of a subtree made black. */
  lemma {:induction false} Recolor(mem: Memory, mem': Memory, parent: Ptr, t: Tree)
    requires t.T? && Rep(mem, parent, t) && Distinct(t)
    requires Agree(mem, mem', Ids(t) - {t.p})
    requires t.p in mem' && mem'[t.p] == SetParentColor(mem[t.p], parent, Black) && parent % 2 == 0
    ensures Rep(mem', parent, t.(c := Black)) && Distinct(t.(c := Black)) && Ids(t.(c := Black)) == Ids(t)
  {
    RepFrame(mem, mem', t.p, t.l);
    RepFrame(mem, mem', t.p, t.r);
  }

  lemma {:induction false} PathFrame(mem: Memory, mem': Memory, root: Ptr, hole: Ptr, path: Path)
    requires RepPath(mem, root, hole, path)
    requires Agree(mem, mem', PathIds(path))
    ensures RepPath(mem', root, hole, path)
    decreases path
  {
    if path.Down? {
      assert path.p in PathIds(path);
      RepFrame(mem, mem', path.p, path.other);
      PathFrame(mem, mem', root, path.p, path.up);
    }
  }

  // Replacing the subtree at the end of a path

  /** The link to the focus is redirected to `x`. */
  ghost predicate Relinked(mem: Memory, root: Ptr, mem': Memory, root': Ptr, path: Path, x: Ptr) {
    && Agree(mem, mem', PathIds(path) - {PathPtr(path)})
    && (path.Top? ==> root' == x)
    && (path.Down? ==>
          root' == root && path.p in mem && path.p in mem' && mem'[path.p] == SetChild(mem[path.p], path.side, x))
  }

  lemma {:induction false} Replaced(mem: Memory, root: Ptr, path: Path, t: Tree, mem': Memory, root': Ptr, t': Tree)
    requires View(mem, root, path, t)
    requires Relinked(mem, root, mem', root', path, Root(t'))
    requires Rep(mem', PathPtr(path), t') && Distinct(t') && Ids(t') !! PathIds(path)
    ensures View(mem', root', path, t')
  {
    if path.Down? {
      assert PathIds(path.up) <= PathIds(path) - {path.p};
      RepFrame(mem, mem', path.p, path.other);
      PathFrame(mem, mem', root, path.p, path.up);
    }
  }

  lemma {:induction false} PathInMemory(mem: Memory, root: Ptr, hole: Ptr, path: Path)
    requires RepPath(mem, root, hole, path)
    ensures forall x | x in PathIds(path) :: x in mem && IsNode(x)
    decreases path
  {
    if path.Down? {
      RepIds(mem, path.p, path.other);
      PathInMemory(mem, root, path.p, path.up);
    }
  }

  /** Nothing outside `ids` is written. */
  ghost predicate OnlyWrites(mem: Memory, mem': Memory, ids: set<Ptr>) {
    && mem.Keys == mem'.Keys
    && forall x | x in mem && x !in ids :: mem'[x] == mem[x]
  }

  lemma WritesBoth(mem: Memory, m1: Memory, mem': Memory, a: set<Ptr>, b: set<Ptr>, ids: set<Ptr>)
    requires OnlyWrites(mem, m1, a) && OnlyWrites(m1, mem', b) && a <= ids && b <= ids
    ensures OnlyWrites(mem, mem', ids)
  {
  }

  lemma Unwritten(mem: Memory, mem': Memory, ids: set<Ptr>, x: Ptr)
    requires OnlyWrites(mem, mem', ids) && x !in ids && x in mem
    ensures x in mem' && mem'[x] == mem[x]
  {
  }

  /** The subtree changed in place, below the same link. */
  lemma {:induction false} ReplacedInPlace(mem: Memory, root: Ptr, path: Path, t: Tree, mem': Memory, t': Tree)
    requires View(mem, root, path, t) && OnlyWrites(mem, mem', Ids(t))
    requires Rep(mem', PathPtr(path), t') && Distinct(t') && Ids(t') <= Ids(t) && Root(t') == Root(t)
    ensures View(mem', root, path, t')
  {
    PathInMemory(mem, root, Root(t), path);
    Replaced(mem, root, path, t, mem', root, t');
  }

  /** The subtree changed, and the link to it was redirected. */
  lemma {:induction false} ReplacedBelow(mem: Memory, root: Ptr, path: Path, t: Tree, mem': Memory, root': Ptr,
                                         t': Tree)
    requires View(mem, root, path, t) && OnlyWrites(mem, mem', Ids(t) + {PathPtr(path)})
    requires path.Top? ==> root' == Root(t')
    requires path.Down? ==> root' == root && path.p in mem && mem'[path.p] == SetChild(mem[path.p], path.side, Root(t'))
    requires Rep(mem', PathPtr(path), t') && Distinct(t') && Ids(t') <= Ids(t)
    ensures View(mem', root', path, t')
  {
    PathInMemory(mem, root, Root(t), path);
    Replaced(mem, root, path, t, mem', root', t');
  }

  // Side-independent views of a node

  function MkNode(s: Side, a: Ptr, b: Ptr, packed: nat, key: nat): Node {
    if s == Left then Node(a, b, packed, key) else Node(b, a, packed, key)
  }

  lemma {:induction false} NodeSides(s: Side, a: Ptr, b: Ptr, packed: nat, key: nat, x: Ptr)
    ensures var n := MkNode(s, a, b, packed, key);
            && Child(n, s) == a && Child(n, Other(s)) == b
            && SetChild(n, s, x) == MkNode(s, x, b, packed, key)
            && SetChild(n, Other(s), x) == MkNode(s, a, x, packed, key)
            && (forall w :: n.(packed := w) == MkNode(s, a, b, w, key))
            && n.packed == packed && n.key == key
  {
  }

  /** What a subtree with root `p` looks like in memory, on either side. */
  lemma {:induction false} RepMk(mem: Memory, q: Ptr, s: Side, a: Tree, p: Ptr, c: Color, k: nat, b: Tree)
    ensures var t := Mk(s, a, p, c, k, b);
            && t.T? && Root(t) == p && Ids(t) == Ids(a) + {p} + Ids(b)
            && (Distinct(t) <==> p !in Ids(a) && p !in Ids(b) && Ids(a) !! Ids(b) && Distinct(a) && Distinct(b))
            && (Rep(mem, q, t) <==>
                && IsNode(p) && p in mem && mem[p] == MkNode(s, Root(a), Root(b), q + ColorBit(c), k)
                && Rep(mem, p, a) && Rep(mem, p, b))
  {
  }
}
