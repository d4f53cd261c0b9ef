/** Taking a node out: the cases of `rbt_remove` (src/lib/data_structures/rbtree.c:611-708). */
module RbRemove {
  import opened RbShape
  import opened RbMemory
  import opened RbRotate
  import opened RbInsert
  import opened RbSearch
  import opened RbErase

  /** The reference for removal: the item of one node left out. */
  function RemovePtr(s: seq<Item>, n: Ptr): seq<Item> {
    if s == [] then [] else if s[0].0 == n then s[1..] else [s[0]] + RemovePtr(s[1..], n)
  }

  /** Removing a node just inserted gives back the sequence before the insertion. */
  lemma {:induction false} RemoveInserted(s: seq<Item>, x: Item)
    requires x.0 !in IdsOf(s)
    ensures RemovePtr(InsertSorted(s, x), x.0) == s
    decreases |s|
  {
    if s != [] && s[0].1 <= x.1 {
      assert s == [s[0]] + s[1..];
      RemoveInserted(s[1..], x);
    }
  }

  lemma {:induction false} RemoveAt(a: seq<Item>, x: Item, b: seq<Item>)
    requires x.0 !in IdsOf(a)
    ensures RemovePtr(a + [x] + b, x.0) == a + b
    decreases |a|
  {
    if a == [] {
      assert a + [x] + b == [x] + b && a + b == b;
    } else {
      assert (a + [x] + b)[1..] == a[1..] + [x] + b && (a + [x] + b)[0] == a[0];
      RemoveAt(a[1..], x, b);
      assert a + b == [a[0]] + (a[1..] + b);
    }
  }

  /** Every node of a tree is the root of some focus. */
  lemma {:induction false} Locate(path: Path, t: Tree, n: Ptr) returns (path': Path, t': Tree)
    requires n in Ids(t)
    ensures t'.T? && t'.p == n && Zip(path', t') == Zip(path, t)
    decreases t
  {
    if t.p == n {
      path', t' := path, t;
    } else if n in Ids(t.l) {
      path', t' := Locate(Down(Left, t.p, t.c, t.k, t.r, path), t.l, n);
    } else {
      path', t' := Locate(Down(Right, t.p, t.c, t.k, t.l, path), t.r, n);
    }
  }

  /** Left out of the tree, a node leaves exactly the other items. */
  lemma {:induction false} RemovedItems(path: Path, t: Tree, t': Tree)
    requires t.T? && Distinct(t) && DistinctPath(path) && Ids(t) !! PathIds(path) && Sorted(Items(Zip(path, t)))
    requires Items(t') == Items(t.l) + Items(t.r)
    ensures Items(Zip(path, t')) == RemovePtr(Items(Zip(path, t)), t.p)
    ensures Sorted(Items(Zip(path, t')))
    ensures Ids(Zip(path, t')) == Ids(Zip(path, t)) - {t.p}
  {
    hide Items, Before, After, Zip, Sorted, RemovePtr, IdsOf;
    var a, x, b := Before(path) + Items(t.l), (t.p, t.k), Items(t.r) + After(path);
    ItemsAround(path, t);
    ZipItems(path, t');
    assert Before(path) + (Items(t.l) + Items(t.r)) + After(path) == a + b;
    BeforeIds(path);
    ItemsIds(t.l);
    IdsOfConcat(Before(path), Items(t.l));
    RemoveAt(a, x, b);
    SortedSplit(a, x, b);
    ZipIds(path, t);
    ZipIds(path, t');
    ItemsIds(t');
    ItemsIds(t.r);
    IdsOfConcat(Items(t.l), Items(t.r));
  }

  lemma {:induction false} ItemsAround(path: Path, t: Tree)
    requires t.T?
    ensures Items(Zip(path, t)) == (Before(path) + Items(t.l)) + [(t.p, t.k)] + (Items(t.r) + After(path))
  {
    ZipItems(path, t);
    assert Items(t) == Items(t.l) + [(t.p, t.k)] + Items(t.r);
  }

  lemma {:induction false} BeforeIds(path: Path)
    ensures IdsOf(Before(path)) <= PathIds(path)
    decreases path
  {
    if path.Down? {
      BeforeIds(path.up);
      if path.side == Right {
        ItemsIds(path.other);
        IdsOfConcat(Before(path.up), Items(path.other));
        IdsOfConcat(Before(path.up) + Items(path.other), [(path.p, path.k)]);
      }
    }
  }

  // A node with at most one child

  /** The tree under a spliced-out node's only child, in the node's colour. */
  function Heir(kid: Tree, c: Color): Tree {
    if kid.Nil? then Nil else kid.(c := c)
  }

  lemma {:induction false} SpliceRules(path: Path, t: Tree, kid: Tree, none: Tree)
    requires RedBlack(Zip(path, t)) && t.T? && none.Nil?
    requires (t.l == none && t.r == kid) || (t.r == none && t.l == kid)
    ensures kid.T? ==> t.c == Black && kid.c == Red
    ensures kid.T? || t.c == Red || path.Top? ==> RedBlack(Zip(path, Heir(kid, Black)))
    ensures kid.Nil? && t.c == Black && path.Down? ==> Deficient(path, Nil)
    ensures Items(Heir(kid, Black)) == Items(t.l) + Items(t.r)
  {
    UnzipRedBlack(path, t);
    assert Items(t.l) + Items(t.r) == Items(kid);
    if kid.T? {
      assert BlackHeight(kid) == 0;
      assert kid.c == Red;
      Blackened(kid);
      ZipRedBlack(path, kid.(c := Black));
    } else if t.c == Red {
      ZipRedBlack(path, Nil);
    }
  }

  lemma {:induction false} SpliceView(mem: Memory, root: Ptr, mem': Memory, root': Ptr, path: Path, t: Tree, kid: Tree,
                                      c: Color)
    requires View(mem, root, path, t) && t.T? && (kid == t.l || kid == t.r)
    requires OnlyWrites(mem, mem', RootSet(kid) + NonNull(PathPtr(path)))
    requires LinksTo(mem, root, mem', root', path, Root(kid))
    requires kid.T? ==> kid.p in mem && mem'[kid.p] == SetParentColor(mem[kid.p], PathPtr(path), c)
    ensures View(mem', root', path, Heir(kid, c))
    ensures OnlyWrites(mem, mem', Ids(Zip(path, t)))
  {
    RepIds(mem, PathPtr(path), t);
    LinkSide(mem, root, path, t);
    PathPtrIn(path);
    RootIn(kid);
    ZipIds(path, t);
    if kid.T? { Repainted(mem, mem', t.p, PathPtr(path), kid, c); }
    assert Ids(Heir(kid, c)) == Ids(kid) && Distinct(Heir(kid, c));
    ReplacedBelow(mem, root, path, t, mem', root', Heir(kid, c));
  }

  lemma {:induction false} Repainted(mem: Memory, mem': Memory, parent: Ptr, parent': Ptr, t: Tree, c: Color)
    requires t.T? && Rep(mem, parent, t) && Distinct(t) && parent' % 2 == 0
    requires Agree(mem, mem', Ids(t) - {t.p})
    requires t.p in mem' && mem'[t.p] == SetParentColor(mem[t.p], parent', c)
    ensures Rep(mem', parent', t.(c := c)) && Distinct(t.(c := c)) && Ids(t.(c := c)) == Ids(t)
  {
    RepFrame(mem, mem', t.p, t.l);
    RepFrame(mem, mem', t.p, t.r);
  }

  // A node with two children: its successor takes its place

  function Append(ip: Path, base: Path): Path {
    match ip
    case Top => base
    case Down(s, p, c, k, o, up) => Down(s, p, c, k, o, Append(up, base))
  }

  lemma {:induction false} ZipAppend(ip: Path, base: Path, t: Tree)
    ensures Zip(Append(ip, base), t) == Zip(base, Zip(ip, t))
    ensures PathPtr(Append(ip, base)) == if ip.Top? then PathPtr(base) else ip.p
    decreases ip
  {
    if ip.Down? { ZipAppend(ip.up, base, Mk(ip.side, t, ip.p, ip.c, ip.k, ip.other)); }
  }

  lemma {:induction false} ViewAppend(mem: Memory, root: Ptr, ip: Path, base: Path, t: Tree)
    ensures View(mem, root, Append(ip, base), t) <==> View(mem, root, base, Zip(ip, t))
    decreases ip
  {
    if ip.Down? {
      FocusUp(mem, root, Append(ip, base), t);
      ViewAppend(mem, root, ip.up, base, Mk(ip.side, t, ip.p, ip.c, ip.k, ip.other));
    }
  }

  /** A path that only turns left. */
  predicate AllLeft(ip: Path) {
    ip.Down? ==> ip.side == Left && AllLeft(ip.up)
  }

  lemma {:induction false} AllLeftItems(ip: Path, t: Tree)
    requires AllLeft(ip)
    ensures Before(ip) == [] && Items(Zip(ip, t)) == Items(t) + After(ip)
    ensures t.T? || ip.Down? ==> Zip(ip, t).T?
    decreases ip
  {
    ZipItems(ip, t);
    if ip.Down? {
      AllLeftItems(ip.up, Mk(ip.side, t, ip.p, ip.c, ip.k, ip.other));
    }
  }

  /** The colours and heights do not depend on which node stands at a place. */
  lemma {:induction false} RenamedRules(path: Path, l: Tree, p: Ptr, p': Ptr, c: Color, k: nat, k': nat, r: Tree)
    requires RedBlack(Zip(path, T(l, p, c, k, r)))
    ensures RedBlack(Zip(path, T(l, p', c, k', r)))
  {
    UnzipRedBlack(path, T(l, p, c, k, r));
    ZipRedBlack(path, T(l, p', c, k', r));
  }

  /** Node `n` is replaced by the free node `m`, which takes over its place, colour and children. */
  lemma {:induction false} SubstituteView(mem: Memory, root: Ptr, mem': Memory, root': Ptr, path: Path,
                       l: Tree, n: Ptr, c: Color, k: nat, r: Tree, m: Ptr, k': nat)
    requires View(mem, root, path, T(l, n, c, k, r))
    requires IsNode(m) && m !in Ids(l) && m !in Ids(r) && m !in PathIds(path)
    requires m in mem' && mem'[m] == Node(Root(l), Root(r), PathPtr(path) + ColorBit(c), k')
    requires Agree(mem, mem', Ids(l) - RootSet(l)) && Agree(mem, mem', Ids(r) - RootSet(r))
    requires l.T? ==> l.p in mem && l.p in mem' && mem'[l.p] == SetParent(mem[l.p], m)
    requires r.T? ==> r.p in mem && r.p in mem' && mem'[r.p] == SetParent(mem[r.p], m)
    requires Agree(mem, mem', PathIds(path) - NonNull(PathPtr(path))) && LinksTo(mem, root, mem', root', path, m)
    ensures View(mem', root', path, T(l, m, c, k', r))
  {
    Rehung(mem, mem', n, m, l);
    Rehung(mem, mem', n, m, r);
    assert Rep(mem', PathPtr(path), T(l, m, c, k', r));
    PathPtrIn(path);
    Replaced(mem, root, path, T(l, n, c, k, r), mem', root', T(l, m, c, k', r));
  }

  lemma {:induction false} RootZip(ip: Path, t: Tree, t': Tree)
    requires ip.Down?
    ensures Root(Zip(ip, t)) == Root(Zip(ip, t')) && Zip(ip, t).T?
    decreases ip
  {
    var u, u' := Mk(ip.side, t, ip.p, ip.c, ip.k, ip.other), Mk(ip.side, t', ip.p, ip.c, ip.k, ip.other);
    if ip.up.Down? { RootZip(ip.up, u, u'); }
  }

  lemma {:induction false} AppendIds(ip: Path, base: Path)
    ensures PathIds(Append(ip, base)) == PathIds(ip) + PathIds(base)
    ensures DistinctPath(Append(ip, base)) ==> PathIds(ip) !! PathIds(base)
    decreases ip
  {
    if ip.Down? { AppendIds(ip.up, base); }
  }

  /** What lines 657-702 write once the successor `sp` of `n` is known; `parent` is the successor's parent. */
  ghost predicate Transplanted(mem: Memory, root: Ptr, mem': Memory, root': Ptr, n: Ptr, child: Ptr, sp: Ptr,
                               parent: Ptr)
    requires n in mem && sp in mem && child in mem && mem[n].left in mem && parent in mem
  {
    var c2, left, q := mem[sp].right, mem[n].left, GetParent(mem[n]);
    && OnlyWrites(mem, mem', {sp, left} + NonNull(q) + NonNull(c2) + if sp == child then {} else {parent, child})
    && mem'[sp] == SetParentColor(mem[sp].(left := left, right := if sp == child then c2 else child), q,
                                  GetColor(mem[n]))
    && mem'[left] == SetParent(mem[left], sp)
    && (c2 != 0 ==> c2 in mem && mem'[c2] == SetParentColor(mem[c2], if sp == child then sp else parent, Black))
    && (sp != child && parent == child ==> mem'[child] == SetParent(mem[child].(left := c2), sp))
    && (sp != child && parent != child ==>
          mem'[parent] == mem[parent].(left := c2) && mem'[child] == SetParent(mem[child], sp))
    && root' == (if q == 0 then sp else root)
    && (q != 0 ==> q in mem && mem'[q] == if mem[q].left == n then mem[q].(left := sp) else mem[q].(right := sp))
  }

  /** What lines 673-676 write: a successor deeper down is cut off its parent and takes over the node's right child. */
  ghost predicate Unhooked(mem: Memory, mem': Memory, child: Ptr, sp: Ptr, parent: Ptr)
    requires sp in mem && child in mem && parent in mem
  {
    var c2 := mem[sp].right;
    && OnlyWrites(mem, mem', {child, sp, parent})
    && mem'[sp] == mem[sp].(right := child)
    && (parent == child ==> mem'[child] == SetParent(mem[child].(left := c2), sp))
    && (parent != child ==> mem'[parent] == mem[parent].(left := c2) && mem'[child] == SetParent(mem[child], sp))
  }

  /** What lines 679-701 write: `sp` takes over the left child, the link and the colour of `n`. */
  ghost predicate PlaceTaken(mem: Memory, root: Ptr, mem': Memory, root': Ptr, n: Ptr, sp: Ptr, parent: Ptr, c2: Ptr)
    requires n in mem && sp in mem && mem[n].left in mem
  {
    var left, q := mem[n].left, GetParent(mem[n]);
    && OnlyWrites(mem, mem', {sp, left} + NonNull(q) + NonNull(c2))
    && mem'[sp] == SetParentColor(mem[sp].(left := left), q, GetColor(mem[n]))
    && mem'[left] == SetParent(mem[left], sp)
    && (c2 != 0 ==> c2 in mem && mem'[c2] == SetParentColor(mem[c2], parent, Black))
    && root' == (if q == 0 then sp else root)
    && (q != 0 ==> q in mem && mem'[q] == if mem[q].left == n then mem[q].(left := sp) else mem[q].(right := sp))
  }

  lemma {:induction false} TransplantSteps(mem: Memory, root: Ptr, m1: Memory, mem': Memory, root': Ptr, n: Ptr,
                                           child: Ptr, sp: Ptr, parent: Ptr)
    requires n in mem && sp in mem && child in mem && parent in mem && mem[n].left in mem
    requires TransplantWordsDistinct(mem, n, child, sp, parent)
    requires if sp == child then m1 == mem else Unhooked(mem, m1, child, sp, parent)
    requires n in m1 && sp in m1 && m1[n].left in m1 && PlaceTaken(m1, root, mem', root', n, sp, parent, mem[sp].right)
    ensures Transplanted(mem, root, mem', root', n, child, sp, parent)
  {
    hide SetParent, SetParentColor, GetColor, GetParent;
  }

  /** The memory in which the successor has been spliced out of its old place, before it takes the place of `n`. */
  function Spliced(mem: Memory, fp: Path, kid: Tree): Memory
    requires fp.Down? && fp.p in mem && (kid.T? ==> kid.p in mem)
  {
    var m1 := mem[fp.p := SetChild(mem[fp.p], fp.side, Root(kid))];
    if kid.Nil? then m1 else m1[kid.p := SetParentColor(mem[kid.p], fp.p, Black)]
  }

  lemma {:induction false} SplicedView(mem: Memory, root: Ptr, fp: Path, s: Tree)
    requires View(mem, root, fp, s) && s.T? && fp.Down?
    ensures fp.p in mem && (s.r.T? ==> s.r.p in mem && s.r.p != fp.p && s.r.p in Ids(s.r))
    ensures View(Spliced(mem, fp, s.r), root, fp, Heir(s.r, Black))
  {
    LinkSide(mem, root, fp, s);
    RepIds(mem, fp.p, s);
    RootIn(s.r);
    SpliceView(mem, root, Spliced(mem, fp, s.r), root, fp, s, s.r, Black);
  }

  /** The place of `n` with the way down to its successor `s`. */
  ghost predicate TwoChildren(mem: Memory, root: Ptr, path: Path, l: Tree, n: Ptr, c: Color, k: nat, ip: Path, s: Tree)
    {
    View(mem, root, path, T(l, n, c, k, Zip(ip, s))) && l.T? && s.T? && s.l.Nil? && AllLeft(ip)
  }

  lemma {:induction false} TransplantFacts(mem: Memory, root: Ptr, path: Path, l: Tree, n: Ptr, c: Color, k: nat,
                                           ip: Path, s: Tree)
    requires TwoChildren(mem, root, path, l, n, c, k, ip, s)
    ensures var fp, r, child := Append(ip, Down(Right, n, c, k, l, path)), Zip(ip, s), Root(Zip(ip, s));
            && fp.Down? && fp.side == (if ip.Top? then Right else Left) && fp.p == (if ip.Top? then n else ip.p)
            && View(mem, root, fp, s) && r.T?
            && n in mem && mem[n] == Node(l.p, child, PathPtr(path) + ColorBit(c), k)
            && s.p in mem && mem[s.p] == Node(0, Root(s.r), fp.p + ColorBit(s.c), s.k)
            && (child == s.p <==> ip.Top?) && child in mem && fp.p in mem && fp.p != 0
            && IsNode(n) && IsNode(s.p) && IsNode(l.p) && l.p in mem
            && (s.r.T? ==> s.r.p in mem && IsNode(s.r.p))
    ensures GetParent(mem[n]) == PathPtr(path) && GetColor(mem[n]) == c && GetColor(mem[s.p]) == s.c
    ensures path.Down? ==> path.p in mem && path.p != 0 && (mem[path.p].left == n <==> path.side == Left)
    ensures PathPtr(path) % 2 == 0
  {
    var base := Down(Right, n, c, k, l, path);
    var r := Zip(ip, s);
    FocusUp(mem, root, base, r);
    ViewAppend(mem, root, ip, base, s);
    ZipAppend(ip, base, s);
    AllLeftItems(ip, s);
    LinkSide(mem, root, path, T(l, n, c, k, r));
    LinkSide(mem, root, Append(ip, base), s);
    RepIds(mem, n, r);
    RepIds(mem, PathPtr(Append(ip, base)), s);
    ZipIds(ip, s);
    AppendIds(ip, base);
    if ip.Down? {
      RootZip(ip, s, Nil);
      ZipIds(ip, Nil);
      RootIn(Zip(ip, Nil));
    }
    RootIn(r);
  }

  /** Which words are distinct. */
  lemma {:induction false} TransplantDistinct(mem: Memory, root: Ptr, path: Path, l: Tree, n: Ptr, c: Color, k: nat,
                                              ip: Path, s: Tree)
    requires TwoChildren(mem, root, path, l, n, c, k, ip, s)
    ensures var r, h := Zip(ip, s), Zip(ip, Heir(s.r, Black));
            && Ids(h) == Ids(r) - {s.p} && s.p in Ids(r) && s.p !in Ids(s.r)
            && Ids(l) !! Ids(r) && n !in Ids(l) && n !in Ids(r)
            && Ids(l) !! PathIds(path) && Ids(r) !! PathIds(path) && n !in PathIds(path)
            && l.p in Ids(l) && Root(r) in Ids(r) && RootSet(s.r) <= Ids(s.r) && Ids(s.r) <= Ids(h)
            && (ip.Down? ==> ip.p in Ids(h) && ip.p !in Ids(s.r) && Root(h) == Root(r) && Root(h) !in Ids(s.r) && h.T?)
            && (ip.Top? ==> h == Heir(s.r, Black) && Root(h) == Root(s.r))
            && NonNull(PathPtr(path)) <= PathIds(path)
            && Distinct(l)
  {
    var base, r, h := Down(Right, n, c, k, l, path), Zip(ip, s), Zip(ip, Heir(s.r, Black));
    FocusUp(mem, root, base, r);
    ViewAppend(mem, root, ip, base, s);
    ZipIds(ip, s);
    ZipIds(ip, Heir(s.r, Black));
    AppendIds(ip, base);
    RootIn(s.r);
    RootIn(l);
    RootIn(r);
    PathPtrIn(path);
    AllLeftItems(ip, s);
    assert Ids(Heir(s.r, Black)) == Ids(s.r);
    if ip.Down? {
      RootZip(ip, s, Heir(s.r, Black));
      RootZip(ip, s, Nil);
      ZipIds(ip, Nil);
      RootIn(Zip(ip, Nil));
    }
  }

  /** The nodes of the right subtree, in the memory with the successor spliced out, against the final memory. */
  lemma {:induction false} TransplantRight(mem: Memory, root: Ptr, mem': Memory, root': Ptr, path: Path,
                        l: Tree, n: Ptr, c: Color, k: nat, ip: Path, s: Tree)
    requires TwoChildren(mem, root, path, l, n, c, k, ip, s)
    requires var fp, child := Append(ip, Down(Right, n, c, k, l, path)), Root(Zip(ip, s));
             && n in mem && s.p in mem && child in mem && mem[n].left in mem && fp.Down? && fp.p in mem &&
             (s.r.T? ==> s.r.p in mem)
             && Transplanted(mem, root, mem', root', n, child, s.p, if ip.Top? then s.p else ip.p)
    ensures var fp, h := Append(ip, Down(Right, n, c, k, l, path)), Zip(ip, Heir(s.r, Black));
            var m1 := Spliced(mem, fp, s.r);
            && (forall x | x in Ids(Zip(ip, s)) :: x in mem)
            && Agree(m1, mem', Ids(h) - RootSet(h))
            && (h.T? ==> h.p in m1 && h.p in mem' && mem'[h.p] == SetParent(m1[h.p], s.p))
  {
    hide View, Rep, RepPath, Distinct, DistinctPath, Ids, PathIds, Zip, Append, AllLeft;
    TransplantFacts(mem, root, path, l, n, c, k, ip, s);
    TransplantDistinct(mem, root, path, l, n, c, k, ip, s);
    RightInMemory(mem, root, path, l, n, c, k, ip, s);
  }

  lemma {:induction false} RightInMemory(mem: Memory, root: Ptr, path: Path, l: Tree, n: Ptr, c: Color, k: nat,
                                         ip: Path, s: Tree)
    requires TwoChildren(mem, root, path, l, n, c, k, ip, s)
    ensures forall x | x in Ids(Zip(ip, s)) + Ids(l) + PathIds(path) :: x in mem
  {
    RepIds(mem, n, Zip(ip, s));
    RepIds(mem, n, l);
    PathInMemory(mem, root, n, path);
  }

  lemma {:induction false} TransplantView(mem: Memory, root: Ptr, mem': Memory, root': Ptr, path: Path,
                       l: Tree, n: Ptr, c: Color, k: nat, ip: Path, s: Tree)
    requires TwoChildren(mem, root, path, l, n, c, k, ip, s)
    requires var child := Root(Zip(ip, s));
             && n in mem && s.p in mem && child in mem && mem[n].left in mem && (ip.Down? ==> ip.p in mem)
             && Transplanted(mem, root, mem', root', n, child, s.p, if ip.Top? then s.p else ip.p)
    ensures View(mem', root', path, T(l, s.p, c, s.k, Zip(ip, Heir(s.r, Black))))
    ensures OnlyWrites(mem, mem', Ids(Zip(path, T(l, n, c, k, Zip(ip, s)))))
  {
    var base, r, h := Down(Right, n, c, k, l, path), Zip(ip, s), Zip(ip, Heir(s.r, Black));
    var fp := Append(ip, base);
    TransplantFacts(mem, root, path, l, n, c, k, ip, s);
    TransplantDistinct(mem, root, path, l, n, c, k, ip, s);
    hide View, Rep, RepPath, Distinct, DistinctPath, Ids, PathIds, Zip, Append, AllLeft;
    SplicedView(mem, root, fp, s);
    var m1 := Spliced(mem, fp, s.r);
    ViewAppend(m1, root, ip, base, Heir(s.r, Black));
    FocusUp(m1, root, base, h);
    RightInMemory(mem, root, path, l, n, c, k, ip, s);
    TransplantRight(mem, root, mem', root', path, l, n, c, k, ip, s);
    TransplantLeft(mem, root, mem', root', path, l, n, c, k, ip, s);
    SubstituteView(m1, root, mem', root', path, l, n, c, k, h, s.p, s.k);
    TransplantWrites(mem, root, mem', root', path, l, n, c, k, ip, s);
  }

  lemma {:induction false} TransplantLeft(mem: Memory, root: Ptr, mem': Memory, root': Ptr, path: Path,
                       l: Tree, n: Ptr, c: Color, k: nat, ip: Path, s: Tree)
    requires TwoChildren(mem, root, path, l, n, c, k, ip, s)
    requires var fp, child := Append(ip, Down(Right, n, c, k, l, path)), Root(Zip(ip, s));
             && n in mem && s.p in mem && child in mem && mem[n].left in mem && fp.Down? && fp.p in mem &&
             (s.r.T? ==> s.r.p in mem)
             && Transplanted(mem, root, mem', root', n, child, s.p, if ip.Top? then s.p else ip.p)
    ensures var m1 := Spliced(mem, Append(ip, Down(Right, n, c, k, l, path)), s.r);
            && Agree(m1, mem', Ids(l) - RootSet(l))
            && l.p in m1 && l.p in mem' && mem'[l.p] == SetParent(m1[l.p], s.p)
            && Agree(m1, mem', PathIds(path) - NonNull(PathPtr(path)))
            && LinksTo(m1, root, mem', root', path, s.p)
            && s.p in mem' &&
            mem'[s.p] == Node(Root(l), Root(Zip(ip, Heir(s.r, Black))), PathPtr(path) + ColorBit(c), s.k)
  {
    hide View, Rep, RepPath, Distinct, DistinctPath, Ids, PathIds, Zip, Append, AllLeft;
    TransplantFacts(mem, root, path, l, n, c, k, ip, s);
    TransplantDistinct(mem, root, path, l, n, c, k, ip, s);
    RightInMemory(mem, root, path, l, n, c, k, ip, s);
    PathPtrIn(path);
  }

  lemma {:induction false} TransplantWrites(mem: Memory, root: Ptr, mem': Memory, root': Ptr, path: Path,
                         l: Tree, n: Ptr, c: Color, k: nat, ip: Path, s: Tree)
    requires TwoChildren(mem, root, path, l, n, c, k, ip, s)
    requires var child := Root(Zip(ip, s));
             && n in mem && s.p in mem && child in mem && mem[n].left in mem && (ip.Down? ==> ip.p in mem)
             && Transplanted(mem, root, mem', root', n, child, s.p, if ip.Top? then s.p else ip.p)
    ensures OnlyWrites(mem, mem', Ids(Zip(path, T(l, n, c, k, Zip(ip, s)))))
  {
    ZipIds(path, T(l, n, c, k, Zip(ip, s)));
    assert Ids(T(l, n, c, k, Zip(ip, s))) == Ids(l) + {n} + Ids(Zip(ip, s));
    hide View, Rep, RepPath, Distinct, DistinctPath, Ids, PathIds, Zip, Append, AllLeft, SetParent, SetParentColor;
    TransplantFacts(mem, root, path, l, n, c, k, ip, s);
    TransplantDistinct(mem, root, path, l, n, c, k, ip, s);
  }

  /** The colours and the contents after the successor has taken the place of `n`. */
  lemma {:induction false} TransplantRules(path: Path, l: Tree, n: Ptr, c: Color, k: nat, ip: Path, s: Tree)
    requires RedBlack(Zip(path, T(l, n, c, k, Zip(ip, s)))) && s.T? && s.l.Nil? && AllLeft(ip)
    ensures var np := Append(ip, Down(Right, s.p, c, s.k, l, path));
            && np.Down? && np.p == (if ip.Top? then s.p else ip.p)
            && (s.r.T? || s.c == Red ==> RedBlack(Zip(np, Heir(s.r, Black))))
            && (s.r.Nil? && s.c == Black ==> Deficient(np, Nil))
            && Zip(np, Heir(s.r, Black)) == Zip(path, T(l, s.p, c, s.k, Zip(ip, Heir(s.r, Black))))
            && Items(T(l, s.p, c, s.k, Zip(ip, Heir(s.r, Black)))) == Items(l) + Items(Zip(ip, s))
  {
    hide Balanced, NoRedRed, PathOk, BlackHeight, Items, RedBlack, Deficient, Zip;
    var np := Append(ip, Down(Right, s.p, c, s.k, l, path));
    RenamedRules(path, l, n, s.p, c, k, s.k, Zip(ip, s));
    ZipAppend(ip, Down(Right, s.p, c, s.k, l, path), s);
    ZipAppend(ip, Down(Right, s.p, c, s.k, l, path), Heir(s.r, Black));
    ZipUnfold(Down(Right, s.p, c, s.k, l, path), Zip(ip, s));
    ZipUnfold(Down(Right, s.p, c, s.k, l, path), Zip(ip, Heir(s.r, Black)));
    SpliceRules(np, s, s.r, s.l);
    TransplantItems(l, c, ip, s);
  }

  lemma {:induction false} TransplantItems(l: Tree, c: Color, ip: Path, s: Tree)
    requires s.T? && s.l.Nil? && AllLeft(ip)
    ensures Items(T(l, s.p, c, s.k, Zip(ip, Heir(s.r, Black)))) == Items(l) + Items(Zip(ip, s))
  {
    AllLeftItems(ip, s);
    AllLeftItems(ip, Heir(s.r, Black));
    assert Items(s) == [(s.p, s.k)] + Items(s.r);
    assert Items(Heir(s.r, Black)) == Items(s.r);
    assert Items(l) + [(s.p, s.k)] + (Items(s.r) + After(ip)) == Items(l) + (([(s.p, s.k)] + Items(s.r)) + After(ip));
  }

  lemma {:induction false} SpliceFacts(mem: Memory, root: Ptr, path: Path, t: Tree, kid: Tree)
    requires View(mem, root, path, t) && t.T? && (kid == t.l || kid == t.r)
    ensures t.p in mem && GetParent(mem[t.p]) == PathPtr(path) && GetColor(mem[t.p]) == t.c && t.p in Ids(t)
    ensures path.Top? <==> PathPtr(path) == 0
    ensures path.Down? ==>
              path.p in mem && path.p != t.p && path.p != Root(kid) && (mem[path.p].left == t.p <==> path.side == Left)
    ensures kid.T? <==> Root(kid) != 0
    ensures kid.T? ==> kid.p in mem && kid.p != t.p
  {
    LinkSide(mem, root, path, t);
    RepIds(mem, PathPtr(path), t);
    RootIn(kid);
    PathPtrIn(path);
  }

  lemma {:induction false} LeftmostNil(mem: Memory, root: Ptr, path: Path, t: Tree)
    requires View(mem, root, path, t) && t.T? && Root(t.l) == 0
    ensures t.l.Nil?
  {
    RepIds(mem, t.p, t.l);
    RootIn(t.l);
  }

  /** The words that `Transplant` treats as different are different. */
  predicate TransplantWordsDistinct(mem: Memory, n: Ptr, child: Ptr, sp: Ptr, parent: Ptr)
    requires n in mem && sp in mem && mem[n].left in mem
  {
    var c2, left, q := mem[sp].right, mem[n].left, GetParent(mem[n]);
    && n != sp && n != child && n != left && n != parent && n != q && n != c2
    && sp != left && sp != q && sp != c2 && left != child && left != parent && left != q && left != c2
    && (c2 != 0 ==> c2 in mem && c2 != parent && c2 != q && (sp != child ==> c2 != child))
    && (q != 0 ==> q in mem && q != parent && q != child)
    && (sp == child <==> parent == sp)
  }

  lemma {:induction false} TransplantReady(mem: Memory, root: Ptr, path: Path, l: Tree, n: Ptr, c: Color, k: nat,
                                           ip: Path, s: Tree)
    requires TwoChildren(mem, root, path, l, n, c, k, ip, s)
    ensures var child := Root(Zip(ip, s));
            && n in mem && s.p in mem && child in mem && mem[n].left in mem && s.p != 0 &&
            (ip.Down? ==> ip.p in mem && ip.p != 0)
            && mem[n].left == l.p && mem[n].right == child
            && TransplantWordsDistinct(mem, n, child, s.p, if ip.Top? then s.p else ip.p)
            && GetColor(mem[s.p]) == s.c && mem[s.p].right == Root(s.r) && (s.r.T? <==> Root(s.r) != 0)
  {
    hide View, Rep, RepPath, Distinct, DistinctPath, Ids, PathIds, Zip, Append, AllLeft, GetParent, GetColor;
    TransplantFacts(mem, root, path, l, n, c, k, ip, s);
    TransplantDistinct(mem, root, path, l, n, c, k, ip, s);
  }

  lemma {:induction false} UnhookedKeeps(mem: Memory, m1: Memory, n: Ptr, child: Ptr, sp: Ptr, parent: Ptr)
    requires n in mem && sp in mem && child in mem && parent in mem && mem[n].left in mem && sp != child
    requires TransplantWordsDistinct(mem, n, child, sp, parent) && Unhooked(mem, m1, child, sp, parent)
    ensures m1.Keys == mem.Keys && m1[n] == mem[n] && GetColor(m1[sp]) == GetColor(mem[sp])
  {
    hide SetParent;
  }

  lemma {:induction false} DetachFacts(mem: Memory, root: Ptr, path: Path, t: Tree)
    requires View(mem, root, path, t) && t.T?
    ensures (t.l.T? <==> Root(t.l) != 0) && (t.r.T? <==> Root(t.r) != 0)
    ensures path.Top? <==> PathPtr(path) == 0
    ensures Distinct(t) && DistinctPath(path) && Ids(t) !! PathIds(path)
    ensures View(mem, root, Down(Right, t.p, t.c, t.k, t.l, path), t.r)
  {
    SpliceFacts(mem, root, path, t, t.l);
    SpliceFacts(mem, root, path, t, t.r);
    FocusUp(mem, root, Down(Right, t.p, t.c, t.k, t.l, path), t.r);
  }
}
