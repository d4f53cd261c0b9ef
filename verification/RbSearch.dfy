/** Searching by key: what a descent from the root knows (src/lib/data_structures/rbtree.c:104-112, 156-191). */
module RbSearch {
  import opened RbShape
  import opened RbMemory
  import opened RbRotate
  import opened RbInsert

  /** The reference for insertion: `x` put into a sorted sequence. */
  function InsertSorted(s: seq<Item>, x: Item): seq<Item> {
    if s == [] || x.1 < s[0].1 then [x] + s else [s[0]] + InsertSorted(s[1..], x)
  }

  predicate AllBelow(s: seq<Item>, key: nat) {
    forall i | 0 <= i < |s| :: s[i].1 < key
  }

  predicate AllAbove(s: seq<Item>, key: nat) {
    forall i | 0 <= i < |s| :: key < s[i].1
  }

  lemma {:induction false} InsertBetween(a: seq<Item>, x: Item, b: seq<Item>)
    requires AllBelow(a, x.1) && AllAbove(b, x.1)
    ensures InsertSorted(a + b, x) == a + [x] + b
    decreases |a|
  {
    if a == [] {
      assert a + b == b;
    } else {
      assert (a + b)[1..] == a[1..] + b;
      InsertBetween(a[1..], x, b);
    }
  }

  lemma {:induction false} SortedInsert(a: seq<Item>, x: Item, b: seq<Item>)
    requires Sorted(a + b) && AllBelow(a, x.1) && AllAbove(b, x.1)
    ensures Sorted(a + [x] + b)
  {
    var s, t := a + b, a + [x] + b;
    forall i, j | 0 <= i < j < |t| ensures t[i].1 < t[j].1 {
      if i != |a| && j != |a| {
        var i', j' := if i < |a| then i else i - 1, if j < |a| then j else j - 1;
        assert t[i] == s[i'] && t[j] == s[j'] && s[i'].1 < s[j'].1;
      }
    }
  }

  lemma {:induction false} SortedSplit(a: seq<Item>, x: Item, b: seq<Item>)
    requires Sorted(a + [x] + b)
    ensures AllBelow(a, x.1) && AllAbove(b, x.1) && Sorted(a + b)
  {
    var s, t := a + b, a + [x] + b;
    assert t[|a|] == x;
    forall i | 0 <= i < |a| ensures a[i].1 < x.1 {
      assert t[i] == a[i] && t[i].1 < t[|a|].1;
    }
    forall i | 0 <= i < |b| ensures x.1 < b[i].1 {
      assert t[|a| + 1 + i] == b[i] && t[|a|].1 < t[|a| + 1 + i].1;
    }
    forall i, j | 0 <= i < j < |s| ensures s[i].1 < s[j].1 {
      var i', j' := if i < |a| then i else i + 1, if j < |a| then j else j + 1;
      assert t[i'] == s[i] && t[j'] == s[j] && t[i'].1 < t[j'].1;
    }
  }

  /** Everything outside the focus lies on the proper side of the key. */
  ghost predicate Narrowed(path: Path, key: nat) {
    && AllBelow(Before(path), key) && AllAbove(After(path), key)
    && (path.Down? ==> (key < path.k <==> path.side == Left))
  }

  lemma {:induction false} BelowConcat(a: seq<Item>, b: seq<Item>, key: nat)
    ensures AllBelow(a + b, key) <==> AllBelow(a, key) && AllBelow(b, key)
  {
    if AllBelow(a + b, key) {
      forall i | 0 <= i < |a| ensures a[i].1 < key { assert (a + b)[i] == a[i]; }
      forall i | 0 <= i < |b| ensures b[i].1 < key { assert (a + b)[|a| + i] == b[i]; }
    }
  }

  lemma {:induction false} AboveConcat(a: seq<Item>, b: seq<Item>, key: nat)
    ensures AllAbove(a + b, key) <==> AllAbove(a, key) && AllAbove(b, key)
  {
    if AllAbove(a + b, key) {
      forall i | 0 <= i < |a| ensures key < a[i].1 { assert (a + b)[i] == a[i]; }
      forall i | 0 <= i < |b| ensures key < b[i].1 { assert (a + b)[|a| + i] == b[i]; }
    }
  }

  /** The items around the root of the focus. */
  lemma {:induction false} FocusItems(path: Path, t: Tree)
    requires t.T? && Sorted(Items(Zip(path, t)))
    ensures AllBelow(Before(path) + Items(t.l), t.k) && AllAbove(Items(t.r) + After(path), t.k)
  {
    ZipItems(path, t);
    hide Before, After, Zip, Sorted, AllBelow, AllAbove;
    var l, x, r := Before(path) + Items(t.l), (t.p, t.k), Items(t.r) + After(path);
    assert Items(Zip(path, t)) == l + [x] + r;
    SortedSplit(l, x, r);
  }

  lemma {:induction false} NarrowLeft(path: Path, t: Tree, key: nat)
    requires t.T? && Narrowed(path, key) && key < t.k && AllAbove(Items(t.r) + After(path), t.k)
    ensures Narrowed(Down(Left, t.p, t.c, t.k, t.r, path), key)
  {
    hide Items;
    AboveConcat(Items(t.r), After(path), key);
    AboveConcat([(t.p, t.k)], Items(t.r) + After(path), key);
    assert [(t.p, t.k)] + Items(t.r) + After(path) == [(t.p, t.k)] + (Items(t.r) + After(path));
  }

  lemma {:induction false} NarrowRight(path: Path, t: Tree, key: nat)
    requires t.T? && Narrowed(path, key) && key > t.k && AllBelow(Before(path) + Items(t.l), t.k)
    ensures Narrowed(Down(Right, t.p, t.c, t.k, t.l, path), key)
  {
    hide Items;
    BelowConcat(Before(path) + Items(t.l), [(t.p, t.k)], key);
  }

  /** One step of the descent. */
  lemma {:induction false} NarrowStep(path: Path, t: Tree, key: nat)
    requires t.T? && Sorted(Items(Zip(path, t))) && Narrowed(path, key) && key != t.k
    ensures key < t.k ==>
              Narrowed(Down(Left, t.p, t.c, t.k, t.r, path), key) &&
              Zip(Down(Left, t.p, t.c, t.k, t.r, path), t.l) == Zip(path, t)
    ensures key > t.k ==>
              Narrowed(Down(Right, t.p, t.c, t.k, t.l, path), key) &&
              Zip(Down(Right, t.p, t.c, t.k, t.l, path), t.r) == Zip(path, t)
  {
    hide Narrowed, Sorted, Items, AllBelow, AllAbove, Before, After;
    FocusItems(path, t);
    if key < t.k { NarrowLeft(path, t, key); } else { NarrowRight(path, t, key); }
  }

  predicate HasKey(s: seq<Item>, key: nat) {
    exists i :: 0 <= i < |s| && s[i].1 == key
  }

  lemma {:induction false} FoundKey(path: Path, t: Tree)
    requires t.T?
    ensures (t.p, t.k) in Items(Zip(path, t)) && HasKey(Items(Zip(path, t)), t.k)
  {
    ZipItems(path, t);
    var s := Items(Zip(path, t));
    assert s[|Before(path)| + |Items(t.l)|] == (t.p, t.k);
  }

  lemma {:induction false} MissingKey(path: Path, key: nat)
    requires Narrowed(path, key)
    ensures !HasKey(Items(Zip(path, Nil)), key)
    ensures Items(Zip(path, Nil)) == Before(path) + After(path)
  {
    ZipItems(path, Nil);
    var s := Before(path) + After(path);
    assert Before(path) + Items(Nil) + After(path) == s;
    forall i | 0 <= i < |s| ensures s[i].1 != key {
      if i >= |Before(path)| { assert s[i] == After(path)[i - |Before(path)|]; }
    }
  }

  /** A new leaf in the empty place that the search ended in. */
  lemma {:induction false} LeafItems(path: Path, n: Ptr, c: Color, key: nat)
    requires Narrowed(path, key) && Sorted(Items(Zip(path, Nil)))
    ensures var t := T(Nil, n, c, key, Nil);
            && Items(Zip(path, t)) == InsertSorted(Items(Zip(path, Nil)), (n, key))
            && Sorted(Items(Zip(path, t)))
  {
    var t := T(Nil, n, c, key, Nil);
    MissingKey(path, key);
    ZipItems(path, t);
    assert Items(t) == [(n, key)];
    InsertBetween(Before(path), (n, key), After(path));
    SortedInsert(Before(path), (n, key), After(path));
  }

  lemma {:induction false} LeafView(mem: Memory, root: Ptr, path: Path, n: Ptr, c: Color, key: nat)
    requires View(mem, root, path, Nil) && n in mem && IsNode(n) && n !in PathIds(path)
    ensures PathPtr(path) % 2 == 0 && (path.Down? ==> path.p in mem && path.p != n)
    ensures var m1 := mem[n := Node(0, 0, PathPtr(path) + ColorBit(c), key)];
            && (path.Top? ==> View(m1, n, path, T(Nil, n, c, key, Nil)))
            && (path.Down? ==>
                  && path.p in m1
                  && View(m1[path.p := SetChild(m1[path.p], path.side, n)], root, path, T(Nil, n, c, key, Nil)))
  {
    var t' := T(Nil, n, c, key, Nil);
    PathInMemory(mem, root, 0, path);
    var m1 := mem[n := Node(0, 0, PathPtr(path) + ColorBit(c), key)];
    if path.Top? {
      Replaced(mem, root, path, Nil, m1, n, t');
    } else {
      assert path.p in PathIds(path);
      var m2 := m1[path.p := SetChild(m1[path.p], path.side, n)];
      Replaced(mem, root, path, Nil, m2, root, t');
    }
  }

  lemma {:induction false} SearchStarts(t: Tree, key: nat)
    ensures Narrowed(Top, key) && Zip(Top, t) == t
  {
  }

  /** What the descent reads at the focus. */
  lemma {:induction false} SearchFacts(mem: Memory, root: Ptr, path: Path, t: Tree)
    requires View(mem, root, path, t)
    ensures t.T? <==> Root(t) != 0
    ensures path.Top? <==> PathPtr(path) == 0
    ensures path.Top? ==> root == Root(t)
    ensures t.T? ==>
              && t.p in mem && mem[t.p].key == t.k && mem[t.p].left == Root(t.l) && mem[t.p].right == Root(t.r)
              && GetParent(mem[t.p]) == PathPtr(path) && GetColor(mem[t.p]) == t.c
              && View(mem, root, Down(Left, t.p, t.c, t.k, t.r, path), t.l)
              && View(mem, root, Down(Right, t.p, t.c, t.k, t.l, path), t.r)
    ensures path.Down? ==> path.p in mem && mem[path.p].key == path.k
  {
    if t.T? {
      LinkSide(mem, root, path, t);
      FocusUp(mem, root, Down(Left, t.p, t.c, t.k, t.r, path), t.l);
      FocusUp(mem, root, Down(Right, t.p, t.c, t.k, t.l, path), t.r);
    }
  }

  /** The state before rebalancing: the new node hangs, red, in the empty place that the search ended in. */
  lemma {:induction false} NewLeaf(mem: Memory, root: Ptr, path: Path, n: Ptr, key: nat)
    requires View(mem, root, path, Nil) && n in mem && IsNode(n) && n !in Ids(Zip(path, Nil)) && mem[n].key == key
    requires RedBlack(Zip(path, Nil)) && Sorted(Items(Zip(path, Nil))) && Narrowed(path, key)
    ensures PathPtr(path) % 2 == 0 && PathPtr(path) != n && (PathPtr(path) == 0 <==> path.Top?)
    ensures path.Down? ==> path.p in mem && mem[path.p].key == path.k && path.p in Ids(Zip(path, Nil))
    ensures var t := T(Nil, n, if path.Top? then Black else Red, key, Nil);
            && Items(Zip(path, t)) == InsertSorted(Items(Zip(path, Nil)), (n, key)) && Sorted(Items(Zip(path, t)))
            && Ids(Zip(path, t)) == Ids(Zip(path, Nil)) + {n}
            && var m1 := mem[n := Node(0, 0, PathPtr(path) + ColorBit(t.c), key)];
            && (path.Top? ==> View(m1, n, Top, t) && RedBlack(t) && Zip(path, t) == t)
            && (path.Down? ==>
                  && RedFocus(path, t) && path.p in m1
                  && View(m1[path.p := SetChild(m1[path.p], path.side, n)], root, path, t))
  {
    var t := T(Nil, n, if path.Top? then Black else Red, key, Nil);
    ZipIds(path, Nil);
    ZipIds(path, t);
    LeafItems(path, n, t.c, key);
    LeafView(mem, root, path, n, t.c, key);
    UnzipRedBlack(path, Nil);
  }

  function IdsOf(s: seq<Item>): set<Ptr> {
    if s == [] then {} else {s[0].0} + IdsOf(s[1..])
  }

  lemma {:induction false} IdsOfConcat(a: seq<Item>, b: seq<Item>)
    ensures IdsOf(a + b) == IdsOf(a) + IdsOf(b)
    decreases |a|
  {
    if a == [] {
      assert a + b == b;
    } else {
      assert (a + b)[1..] == a[1..] + b;
      IdsOfConcat(a[1..], b);
    }
  }

  lemma {:induction false} ItemsIds(t: Tree)
    ensures Ids(t) == IdsOf(Items(t))
  {
    if t.T? {
      ItemsIds(t.l);
      ItemsIds(t.r);
      IdsOfConcat(Items(t.l), [(t.p, t.k)]);
      IdsOfConcat(Items(t.l) + [(t.p, t.k)], Items(t.r));
    }
  }

  lemma {:induction false} SameItemsSameIds(t: Tree, t': Tree)
    requires Items(t) == Items(t')
    ensures Ids(t) == Ids(t')
  {
    ItemsIds(t);
    ItemsIds(t');
  }

  lemma {:induction false} WritesWithin(m0: Memory, m1: Memory, ids: set<Ptr>, ids': set<Ptr>)
    requires OnlyWrites(m0, m1, ids) && ids <= ids'
    ensures OnlyWrites(m0, m1, ids')
  {
  }
}
