/** The red-black tree of src/lib/data_structures/rbtree.c, updated in place. */
module RbTree {
  import opened Arithmetic
  import opened RbShape
  import opened RbMemory
  import opened RbRotate
  import opened RbInsert
  import opened RbSearch
  import opened RbErase
  import opened RbRemove
  import opened RbWalk

  class RbTree {
    var mem: Memory
    var root: Ptr
    ghost var shape: Tree

    /** Memory holds `shape`: right links, parent links and colours agree, and no node is reached twice. */
    ghost predicate Valid()
      reads this
    {
      View(mem, root, Top, shape) && RedBlack(shape) && Sorted(Items(shape))
    }

    method RotateSetParents(o: Ptr, n: Ptr, color: Color)
      requires o in mem && n in mem && o != n
      requires GetParent(mem[o]) != 0 ==> GetParent(mem[o]) in mem && GetParent(mem[o]) != o && GetParent(mem[o]) != n
      modifies this`mem, this`root
      ensures mem.Keys == old(mem.Keys)
      ensures var parent := GetParent(old(mem[o]));
              && mem[n] == SetColor(SetParent(old(mem[n]), parent), GetColor(old(mem[o])))
              && mem[o] == SetParentColor(old(mem[o]), n, color)
              && root == (if parent == 0 then n else old(root))
              && (parent != 0 ==> mem[parent] == if old(mem[parent]).left == o then old(mem[parent]).(left := n)
                                                 else old(mem[parent]).(right := n))
              && OnlyWrites(old(mem), mem, {o, n} + if parent == 0 then {} else {parent})
    {
      var parent := GetParent(mem[o]);
      mem := mem[n := SetParent(mem[n], parent)];
      mem := mem[n := SetColor(mem[n], GetColor(mem[o]))];
      mem := mem[o := SetParentColor(mem[o], n, color)];
      if parent != 0 {
        if mem[parent].left == o {
          mem := mem[parent := mem[parent].(left := n)];
        } else {
          mem := mem[parent := mem[parent].(right := n)];
        }
      } else {
        root := n;
      }
    }

    /** The words written by `gparent->s = tmp; top->o = gparent; ...; rotate_set_parents(gparent, top, color)`. */
    method LiftOver(top: Ptr, gparent: Ptr, tmp: Ptr, s: Side, color: Color)
      requires top in mem && gparent in mem && top != gparent
      requires (tmp != 0 ==> tmp in mem && tmp != top && tmp != gparent)
      requires var q := GetParent(mem[gparent]);
               q != 0 ==> q in mem && q != top && q != gparent && q != tmp
      modifies this`mem, this`root
      ensures LiftedOver(old(mem), old(root), mem, root, top, gparent, tmp, s, color)
    {
      mem := mem[gparent := SetChild(mem[gparent], s, tmp)];
      mem := mem[top := SetChild(mem[top], Other(s), gparent)];
      if tmp != 0 {
        mem := mem[tmp := SetParentColor(mem[tmp], gparent, Black)];
      }
      RotateSetParents(gparent, top, color);
    }

    /** The inner node is put above its parent; the links above them are left for the second rotation. */
    method LowerParent(node: Ptr, parent: Ptr, s: Side) returns (top: Ptr, tmp: Ptr)
      requires node in mem && parent in mem && node != parent
      requires Child(mem[node], s) != 0 ==>
                 Child(mem[node], s) in mem && Child(mem[node], s) != node && Child(mem[node], s) != parent
      modifies this`mem
      ensures top == node && tmp == Child(old(mem[node]), Other(s))
      ensures LoweredParent(old(mem), mem, node, parent, s)
    {
      tmp := Child(mem[node], s);
      mem := mem[parent := SetChild(mem[parent], Other(s), tmp)];
      mem := mem[node := SetChild(mem[node], s, parent)];
      if tmp != 0 {
        mem := mem[tmp := SetParentColor(mem[tmp], parent, Black)];
      }
      mem := mem[parent := SetParentColor(mem[parent], node, Red)];
      top := node;
      tmp := Child(mem[node], Other(s));
    }

    /** Node on the outer side: one rotation. `s` is the side of the parent below the grandparent. */
    method RotateOuter(parent: Ptr, gparent: Ptr, s: Side, ghost path: Path, ghost t: Tree) returns (ghost t': Tree)
      requires View(mem, root, path, t) && RedFocus(path, t) && path.Down? && path.c == Red
      requires path.up.Down? && path.up.c == Black && path.up.side == s == path.side && IsBlack(path.up.other)
      requires parent == path.p && gparent == path.up.p
      modifies this`mem, this`root
      ensures View(mem, root, Top, t') && RedBlack(t') && Items(t') == Items(Zip(path, t))
      ensures OnlyWrites(old(mem), mem, Ids(Zip(path, t)))
    {
      hide View, Rep, RepPath, Items, Ids, Distinct, DistinctPath, Mk, MkNode, PathOk, RedBlack, Balanced, NoRedRed,
        SetChild, Child, SetParent, SetColor, SetParentColor, GetParent, GetColor, LiftedOver;
      ghost var up, top2, o := path.up, path.up.up, path.other;
      ghost var pt := Mk(s, t, parent, Red, path.k, o);
      OuterRules(path, t);
      PathOkDown(path, BlackHeight(t));
      FocusUp(mem, root, path, t);
      FocusUp(mem, root, up, pt);
      LiftFacts(mem, root, top2, s, t, parent, Red, path.k, o, gparent, Black, up.k, up.other);
      var tmp := Child(mem[parent], Other(s));
      LiftOver(parent, gparent, tmp, s, Red);
      LiftedView(old(mem), old(root), mem, root, top2, s, t, parent, Red, path.k, o, gparent, Black, up.k, up.other,
                 Red);
      t' := Mk(s, t, parent, Black, path.k, Mk(s, o, gparent, Red, up.k, up.other));
      ViewZip(mem, root, top2, t');
      t' := Zip(top2, t');
    }

    /** Node on the inner side: two rotations. */
    method RotateInner(node: Ptr, parent: Ptr, gparent: Ptr, s: Side, ghost path: Path, ghost t: Tree)
      returns (ghost t': Tree)
      requires View(mem, root, path, t) && RedFocus(path, t) && path.Down? && path.c == Red
      requires path.up.Down? && path.up.c == Black && path.up.side == s == Other(path.side) && IsBlack(path.up.other)
      requires node == t.p && parent == path.p && gparent == path.up.p
      modifies this`mem, this`root
      ensures View(mem, root, Top, t') && RedBlack(t') && Items(t') == Items(Zip(path, t))
      ensures OnlyWrites(old(mem), mem, Ids(Zip(path, t)))
    {
      hide View, Rep, RepPath, Items, Ids, Distinct, DistinctPath, Mk, MkNode, PathOk, RedBlack, Balanced, NoRedRed,
        SetChild, Child, SetParent, SetColor, SetParentColor, GetParent, GetColor, LiftedOver, LoweredParent,
        OnlyWrites;
      ghost var up, top2, o := path.up, path.up.up, path.other;
      ghost var n1, n2 := Sub(t, s), Sub(t, Other(s));
      MkSubs(s, t);
      InnerRules(path, t, n1, n2);
      MkRules(s, n1, node, Red, t.k, n2);
      MkOther(s, t, parent, Red, path.k, o);
      FocusUp(mem, root, path, t);
      FocusUp(mem, root, up, Mk(s, o, parent, Red, path.k, t));
      InnerFacts(mem, root, top2, s, o, parent, Red, path.k, n1, node, Red, t.k, n2, gparent, Black, up.k, up.other);
      var top, tmp := LowerParent(node, parent, s);
      ghost var m1 := mem;
      InnerMiddle(old(mem), m1, node, parent, gparent, s, Root(n2), PathPtr(top2));
      LiftOver(top, gparent, tmp, s, Red);
      LiftedInnerView(old(mem), old(root), m1, mem, root, top2, s, o, parent, Red, path.k, n1, node, Red, t.k, n2,
                      gparent, Black, up.k, up.other, Red);
      t' := Mk(s, Mk(s, o, parent, Red, path.k, n1), node, Black, t.k, Mk(s, n2, gparent, Red, up.k, up.other));
      ViewZip(mem, root, top2, t');
      t' := Zip(top2, t');
    }

    /** `insert_rebalance`: the red node `n` may have a red parent; afterwards the whole tree obeys the rules. */
    method InsertRebalance(n: Ptr, ghost path0: Path, ghost t0: Tree) returns (ghost t': Tree)
      requires View(mem, root, path0, t0) && RedFocus(path0, t0) && n == t0.p
      modifies this`mem, this`root
      ensures View(mem, root, Top, t') && RedBlack(t') && Items(t') == Items(Zip(path0, t0))
      ensures OnlyWrites(old(mem), mem, Ids(Zip(path0, t0)))
    {
      hide View, Rep, RepPath, Items, Ids, PathIds, Distinct, DistinctPath, Zip, Mk, MkNode, PathOk, RedBlack, Balanced,
        NoRedRed, SetChild, Child, SetParent, SetColor, SetParentColor, GetParent, GetColor, Recolored, OnlyWrites;
      var node := n;
      ghost var path, t := path0, t0;
      LinkSide(mem, root, path, t);
      NoWrites(mem, Ids(Zip(path0, t0)));
      var parent := GetParent(mem[node]);
      while true
        invariant View(mem, root, path, t) && RedFocus(path, t)
        invariant node == t.p && parent == PathPtr(path)
        invariant Items(Zip(path, t)) == Items(Zip(path0, t0)) && Ids(Zip(path, t)) == Ids(Zip(path0, t0))
        invariant OnlyWrites(old(mem), mem, Ids(Zip(path0, t0)))
        decreases path
      {
        LinkSide(mem, root, path, t);
        RoundFacts(mem, root, path, t);
        if parent == 0 {
          BlackenRoot(mem, root, t);
          ghost var m0 := mem;
          mem := mem[node := SetParentColor(mem[node], 0, Black)];
          WritesCompose(old(mem), m0, mem, Ids(Zip(path0, t0)));
          t' := t.(c := Black);
          break;
        }
        if GetColor(mem[parent]) == Black {
          ZipRedBlack(path, t);
          ViewZip(mem, root, path, t);
          t' := Zip(path, t);
          break;
        }
        var gparent := GetParent(mem[parent]);
        var s := if parent != mem[gparent].right then Left else Right;
        var uncle := Child(mem[gparent], Other(s));
        if uncle != 0 && GetColor(mem[uncle]) == Red {
          ghost var m0, pt, up := mem, Mk(path.side, t, parent, Red, path.k, path.other), path.up;
          RecolorStep(mem, root, path, t);
          mem := mem[uncle := SetParentColor(mem[uncle], gparent, Black)];
          mem := mem[parent := SetParentColor(mem[parent], gparent, Black)];
          node := gparent;
          parent := GetParent(mem[node]);
          mem := mem[node := SetParentColor(mem[node], parent, Red)];
          path, t := up.up, Recolored(s, pt, gparent, up.k, up.other);
          WritesCompose(old(mem), m0, mem, Ids(Zip(path0, t0)));
        } else {
          ghost var m0 := mem;
          if node == Child(mem[parent], Other(s)) {
            t' := RotateInner(node, parent, gparent, s, path, t);
          } else {
            t' := RotateOuter(parent, gparent, s, path, t);
          }
          WritesCompose(old(mem), m0, mem, Ids(Zip(path0, t0)));
          break;
        }
      }
    }

    /** `rbt_find_u64`. */
    method FindU64(key: nat) returns (node: Ptr, ghost steps: nat)
      requires Valid()
      ensures node != 0 ==> (node, key) in Items(shape)
      ensures node == 0 <==> !HasKey(Items(shape), key)
      ensures Pow2(steps) <= (Size(shape) + 1) * (Size(shape) + 1)
    {
      hide View, Rep, RepPath, Items, Ids, PathIds, Distinct, DistinctPath, Zip, PathOk, Balanced, NoRedRed, Before,
        After, Sorted, Pow2, Size, RedBlack;
      node, steps := root, 0;
      ghost var path, t := Top, shape;
      SearchStarts(shape, key);
      SearchFacts(mem, root, path, t);
      while node != 0 && mem[node].key != key
        invariant View(mem, root, path, t) && node == Root(t) && Zip(path, t) == shape && Narrowed(path, key)
        invariant (t.T? <==> node != 0) && (node != 0 ==> node in mem && mem[node].key == t.k)
        invariant steps + Height(t) <= Height(shape)
        decreases t
      {
        SearchFacts(mem, root, path, t);
        NarrowStep(path, t, key);
        steps := steps + 1;
        if key < mem[node].key {
          node := mem[node].left;
          path, t := Down(Left, t.p, t.c, t.k, t.r, path), t.l;
        } else {
          node := mem[node].right;
          path, t := Down(Right, t.p, t.c, t.k, t.l, path), t.r;
        }
        SearchFacts(mem, root, path, t);
      }
      if node != 0 {
        FoundKey(path, t);
      } else {
        MissingKey(path, key);
      }
      Pow2Monotone(steps, Height(shape));
      HeightBound(shape);
    }

    /** `rbt_insert_u64`: the node `n`, whose key is set, is added unless its key is present. */
    method InsertU64(n: Ptr) returns (ok: bool)
      requires Valid() && n in mem && IsNode(n) && n !in Ids(shape)
      modifies this
      ensures Valid()
      ensures ok <==> !HasKey(old(Items(shape)), old(mem[n].key))
      ensures !ok ==> mem == old(mem) && root == old(root) && shape == old(shape)
      ensures ok ==> Items(shape) == InsertSorted(old(Items(shape)), (n, old(mem[n].key)))
      ensures OnlyWrites(old(mem), mem, Ids(shape) + {n})
    {
      hide View, Rep, RepPath, Items, Ids, PathIds, Distinct, DistinctPath, Zip, PathOk, Balanced, NoRedRed, Before,
        After, Sorted, RedBlack, SetParentColor, SetChild, HasKey, InsertSorted, OnlyWrites;
      var parent, cur, key := 0, root, mem[n].key;
      ghost var path, t := Top, shape;
      SearchStarts(shape, key);
      SearchFacts(mem, root, path, t);
      NoWrites(mem, Ids(shape) + {n});
      while cur != 0
        invariant View(mem, root, path, t) && cur == Root(t) && Zip(path, t) == shape && Narrowed(path, key)
        invariant parent == PathPtr(path) && (t.T? <==> cur != 0) && (cur != 0 ==> cur in mem && mem[cur].key == t.k)
        invariant mem == old(mem) && root == old(root) && shape == old(shape)
        decreases t
      {
        SearchFacts(mem, root, path, t);
        parent := cur;
        if key == mem[cur].key {
          FoundKey(path, t);
          return false;
        }
        NarrowStep(path, t, key);
        if key < mem[cur].key {
          cur := mem[cur].left;
          path, t := Down(Left, t.p, t.c, t.k, t.r, path), t.l;
        } else {
          cur := mem[cur].right;
          path, t := Down(Right, t.p, t.c, t.k, t.l, path), t.r;
        }
        SearchFacts(mem, root, path, t);
      }
      MissingKey(path, key);
      NewLeaf(mem, root, path, n, key);
      ok := true;
      AttachLeaf(n, parent, key, path);
      ghost var m1 := mem;
      if parent == 0 {
        shape := T(Nil, n, Black, key, Nil);
        WritesWithin(old(mem), mem, {n} + NonNull(parent), Ids(shape) + {n});
      } else {
        shape := InsertRebalance(n, path, T(Nil, n, Red, key, Nil));
        SameItemsSameIds(shape, Zip(path, T(Nil, n, Red, key, Nil)));
        WritesWithin(m1, mem, Ids(shape), Ids(shape) + {n});
        WritesWithin(old(mem), m1, {n} + NonNull(parent), Ids(shape) + {n});
        WritesCompose(old(mem), m1, mem, Ids(shape) + {n});
      }
    }

    /** The end of `bst_insert_unsigned`: the new node is linked below `parent`, or becomes the root. */
    method AttachLeaf(n: Ptr, parent: Ptr, key: nat, ghost path: Path)
      requires n in mem && mem[n].key == key && parent == PathPtr(path) && parent % 2 == 0 && parent != n
      requires parent == 0 <==> path.Top?
      requires path.Down? ==> parent in mem && (key < mem[parent].key <==> path.side == Left)
      modifies this`mem, this`root
      ensures var c := if path.Top? then Black else Red;
              var m1 := old(mem)[n := Node(0, 0, parent + ColorBit(c), key)];
              && (path.Top? ==> mem == m1 && root == n)
              && (path.Down? ==>
                    parent in m1 && mem == m1[parent := SetChild(m1[parent], path.side, n)] && root == old(root))
      ensures OnlyWrites(old(mem), mem, {n} + NonNull(parent))
    {
      mem := mem[n := mem[n].(left := 0, right := 0)];
      mem := mem[n := SetParentColor(mem[n], parent, Red)];
      if parent == 0 {
        root := n;
        mem := mem[n := SetColor(mem[n], Black)];
        return;
      }
      if key < mem[parent].key {
        mem := mem[parent := mem[parent].(left := n)];
      } else {
        mem := mem[parent := mem[parent].(right := n)];
      }
    }

    /** Case 1 of `erase_color`: a red sibling is lifted above the parent, which turns red. */
    method LiftRedSibling(parent: Ptr, sibling: Ptr, s: Side, ghost path: Path, ghost x: Tree) returns (sibling': Ptr)
      requires View(mem, root, path, x) && Deficient(path, x) && path.p == parent && path.side == s
      requires path.other.T? && path.other.p == sibling && path.other.c == Red
      modifies this`mem, this`root
      ensures var path' := RedSiblingPath(path);
              && View(mem, root, path', x) && sibling' == Root(path'.other)
              && Ids(Zip(path', x)) == Ids(Zip(path, x))
      ensures OnlyWrites(old(mem), mem, Ids(Zip(path, x)))
    {
      hide View, Rep, RepPath, Items, Ids, PathIds, Distinct, DistinctPath, Zip, Mk, MkNode, PathOk, Balanced, NoRedRed,
        SetChild, SetParent, SetColor, SetParentColor, GetParent, GetColor, OnlyWrites, LiftedOver;
      ghost var sib, up, o := path.other, path.up, Other(s);
      ghost var a, b := Sub(sib, o), Sub(sib, s);
      HasSibling(path, x);
      MkSubs(o, sib);
      MkOther(s, sib, parent, Black, path.k, x);
      FocusUp(mem, root, path, x);
      LiftFacts(mem, root, up, o, a, sibling, Red, sib.k, b, parent, Black, path.k, x);
      var tmp1 := Child(mem[sibling], s);
      LiftOver(sibling, parent, tmp1, Other(s), Red);
      LiftedView(old(mem), old(root), mem, root, up, o, a, sibling, Red, sib.k, b, parent, Black, path.k, x, Red);
      RedSiblingFocus(mem, root, path, x);
      ZipUnfold(path, x);
      sibling' := tmp1;
    }

    /** The child links of the last rotation of `erase_color`. */
    method HangBlack(sibling: Ptr, parent: Ptr, tmp1: Ptr, s: Side)
      requires sibling in mem && parent in mem && tmp1 in mem && sibling != parent && tmp1 != sibling && tmp1 != parent
      requires var tmp2 := Child(mem[sibling], Other(s));
               tmp2 != 0 ==> tmp2 in mem && tmp2 != sibling && tmp2 != parent && tmp2 != tmp1
      modifies this`mem
      ensures HungBlack(old(mem), mem, sibling, parent, tmp1, Child(old(mem[sibling]), Other(s)), s)
    {
      hide SetParent, SetColor, SetParentColor, SetChild, Child;
      var tmp2 := Child(mem[sibling], Other(s));
      mem := mem[parent := SetChild(mem[parent], s, tmp2)];
      mem := mem[sibling := SetChild(mem[sibling], Other(s), parent)];
      mem := mem[tmp1 := SetParentColor(mem[tmp1], sibling, Black)];
      if tmp2 != 0 {
        mem := mem[tmp2 := SetParent(mem[tmp2], parent)];
      }
    }

    /** The last rotation of `erase_color` (lines 402-409 and their mirror image). */
    method LiftBlack(sibling: Ptr, parent: Ptr, tmp1: Ptr, s: Side)
      requires sibling in mem && parent in mem && tmp1 in mem && sibling != parent && tmp1 != sibling && tmp1 != parent
      requires var tmp2 := Child(mem[sibling], Other(s));
               tmp2 != 0 ==> tmp2 in mem && tmp2 != sibling && tmp2 != parent && tmp2 != tmp1
      requires var q := GetParent(mem[parent]);
               q != 0 ==> q in mem && q != sibling && q != parent && q != tmp1 && q != Child(mem[sibling], Other(s))
      modifies this`mem, this`root
      ensures LiftedBlack(old(mem), old(root), mem, root, sibling, parent, tmp1, Child(old(mem[sibling]), Other(s)), s)
    {
      ChildKeeps(mem[parent], s, Child(mem[sibling], Other(s)));
      hide SetParent, SetColor, SetParentColor, SetChild, GetParent, GetColor, Child;
      HangBlack(sibling, parent, tmp1, s);
      RotateSetParents(parent, sibling, Black);
    }

    /** The first rotation of case 3 (lines 392-397 and their mirror image). */
    method RaiseInner(parent: Ptr, sibling: Ptr, tmp2: Ptr, s: Side)
      requires sibling in mem && parent in mem && tmp2 in mem && sibling != parent && tmp2 != sibling && tmp2 != parent
      requires var t1 := Child(mem[tmp2], s); t1 != 0 ==> t1 in mem && t1 != sibling && t1 != parent && t1 != tmp2
      modifies this`mem
      ensures RaisedInner(old(mem), mem, parent, sibling, tmp2, s)
    {
      var tmp1 := Child(mem[tmp2], s);
      mem := mem[sibling := SetChild(mem[sibling], Other(s), tmp1)];
      mem := mem[tmp2 := SetChild(mem[tmp2], s, sibling)];
      mem := mem[parent := SetChild(mem[parent], s, tmp2)];
      if tmp1 != 0 {
        mem := mem[tmp1 := SetParentColor(mem[tmp1], sibling, Black)];
      }
    }

    /** Case 4 of `erase_color`: the outer nephew is red. `s` is the side of the hole. */
    method RotateOuterNephew(parent: Ptr, sibling: Ptr, tmp1: Ptr, s: Side, ghost path: Path, ghost x: Tree)
      returns (ghost t': Tree)
      requires View(mem, root, path, x) && Deficient(path, x) && path.p == parent && path.side == s
      requires path.other.T? && path.other.p == sibling && path.other.c == Black
      requires tmp1 == Root(Sub(path.other, Other(s))) && !IsBlack(Sub(path.other, Other(s)))
      modifies this`mem, this`root
      ensures View(mem, root, Top, t') && RedBlack(t') && Items(t') == Items(Zip(path, x))
      ensures OnlyWrites(old(mem), mem, Ids(Zip(path, x)))
    {
      hide View, Rep, RepPath, Items, Ids, PathIds, Distinct, DistinctPath, Zip, Mk, MkNode, PathOk, Balanced, NoRedRed,
        SetChild, SetParent, SetColor, SetParentColor, GetParent, GetColor, OnlyWrites, LiftedBlack, RedBlack;
      ghost var sib, up, o := path.other, path.up, Other(s);
      ghost var a, b := Sub(sib, o), Sub(sib, s);
      MkSubs(o, sib);
      OuterNephewRules(path, x, a, b);
      MkOther(s, sib, parent, path.c, path.k, x);
      FocusUp(mem, root, path, x);
      ZipUnfold(path, x);
      LiftFacts(mem, root, up, o, a, sibling, Black, sib.k, b, parent, path.c, path.k, x);
      LiftBlack(sibling, parent, tmp1, Other(s));
      LiftedBlackView(old(mem), old(root), mem, root, up, o, a, sibling, Black, sib.k, b, parent, path.c, path.k, x);
      t' := Mk(o, a.(c := Black), sibling, path.c, sib.k, Mk(o, b, parent, Black, path.k, x));
      ViewZip(mem, root, up, t');
      t' := Zip(up, t');
    }

    /** Cases 3 and 4 of `erase_color`: only the inner nephew is red. */
    method RotateInnerNephew(parent: Ptr, sibling: Ptr, tmp2: Ptr, s: Side, ghost path: Path, ghost x: Tree)
      returns (ghost t': Tree)
      requires View(mem, root, path, x) && Deficient(path, x) && path.p == parent && path.side == s
      requires path.other.T? && path.other.p == sibling && path.other.c == Black && IsBlack(Sub(path.other, Other(s)))
      requires tmp2 == Root(Sub(path.other, s)) && !IsBlack(Sub(path.other, s))
      modifies this`mem, this`root
      ensures View(mem, root, Top, t') && RedBlack(t') && Items(t') == Items(Zip(path, x))
      ensures OnlyWrites(old(mem), mem, Ids(Zip(path, x)))
    {
      hide View, Rep, RepPath, Items, Ids, PathIds, Distinct, DistinctPath, Zip, Mk, MkNode, PathOk, Balanced, NoRedRed,
        SetChild, SetParent, SetColor, SetParentColor, GetParent, GetColor, OnlyWrites, LiftedBlack, RaisedInner,
        RedBlack;
      ghost var sib, up, o := path.other, path.up, Other(s);
      ghost var a, n := Sub(sib, o), Sub(sib, s);
      ghost var n1, n2 := Sub(n, o), Sub(n, s);
      MkSubs(o, sib);
      MkSubs(o, n);
      InnerNephewRules(path, x, a, n, n1, n2);
      InnerNephewBlack(path, x, a, n, n1, n2);
      MkOther(s, sib, parent, path.c, path.k, x);
      FocusUp(mem, root, path, x);
      ZipUnfold(path, x);
      InnerFacts(mem, root, up, o, a, sibling, Black, sib.k, n1, tmp2, Red, n.k, n2, parent, path.c, path.k, x);
      RaiseInner(parent, sibling, tmp2, Other(s));
      ghost var m1 := mem;
      RaisedMiddle(old(mem), m1, parent, sibling, tmp2, o, Root(n2), PathPtr(up));
      LiftBlack(tmp2, parent, sibling, Other(s));
      InnerNephewView(old(mem), old(root), m1, mem, root, up, o, a, sibling, Black, sib.k, n1, tmp2, Red, n.k, n2,
                      parent, path.c, path.k, x);
      t' := Mk(o, Mk(o, a, sibling, Black, sib.k, n1), tmp2, path.c, n.k, Mk(o, n2, parent, Black, path.k, x));
      ViewZip(mem, root, up, t');
      t' := Zip(up, t');
    }

    /** `erase_color`: below `parent` one subtree is a black node too low; afterwards the whole tree obeys the rules. */
    method EraseColor(parent0: Ptr, ghost path0: Path) returns (ghost t': Tree)
      requires View(mem, root, path0, Nil) && Deficient(path0, Nil) && parent0 == path0.p
      modifies this`mem, this`root
      ensures View(mem, root, Top, t') && RedBlack(t') && Items(t') == Items(Zip(path0, Nil))
      ensures OnlyWrites(old(mem), mem, Ids(Zip(path0, Nil)))
    {
      hide View, Rep, RepPath, Items, Ids, PathIds, Distinct, DistinctPath, Zip, Mk, MkNode, PathOk, Balanced, NoRedRed,
        SetChild, SetParent, SetColor, SetParentColor, GetParent, GetColor, OnlyWrites, RedBlack, RedSiblingPath;
      var node, parent := 0, parent0;
      ghost var path, x := path0, Nil;
      ghost var all := Ids(Zip(path0, Nil));
      NoWrites(mem, all);
      while true
        invariant path.Down? && View(mem, root, path, x) && Deficient(path, x)
        invariant node == Root(x) && parent == path.p
        invariant Items(Zip(path, x)) == Items(Zip(path0, Nil)) && Ids(Zip(path, x)) == all
        invariant OnlyWrites(old(mem), mem, all)
        decreases path
      {
        ghost var start := path;
        EraseFacts(mem, root, path, x);
        var s := if node != mem[parent].right then Left else Right;
        var sibling := Child(mem[parent], Other(s));
        if GetColor(mem[sibling]) == Red {
          ghost var m0 := mem;
          RedSiblingRules(path, x);
          sibling := LiftRedSibling(parent, sibling, s, path, x);
          path := RedSiblingPath(path);
          RedSiblingShape(start);
          WritesCompose(old(mem), m0, mem, all);
          EraseFacts(mem, root, path, x);
        }
        ghost var m0 := mem;
        var tmp1 := Child(mem[sibling], Other(s));
        if tmp1 == 0 || GetColor(mem[tmp1]) == Black {
          var tmp2 := Child(mem[sibling], s);
          if tmp2 == 0 || GetColor(mem[tmp2]) == Black {
            BlackSiblingRules(path, x);
            FlipView(mem, root, path, x);
            mem := mem[sibling := SetParentColor(mem[sibling], parent, Red)];
            ghost var t := Mk(s, x, parent, Black, path.k, path.other.(c := Red));
            if GetColor(mem[parent]) == Red {
              mem := mem[parent := SetColor(mem[parent], Black)];
            } else {
              node := parent;
              parent := GetParent(mem[node]);
              if parent != 0 {
                assert path == start;
                WritesCompose(old(mem), m0, mem, all);
                path, x := path.up, t;
                continue;
              }
            }
            WritesCompose(old(mem), m0, mem, all);
            ViewZip(mem, root, path.up, t);
            t' := Zip(path.up, t);
            break;
          }
          t' := RotateInnerNephew(parent, sibling, tmp2, s, path, x);
        } else {
          t' := RotateOuterNephew(parent, sibling, tmp1, s, path, x);
        }
        WritesCompose(old(mem), m0, mem, all);
        break;
      }
    }

    /** Redirects the link to `node` below `parent`, or the root, to `x`. */
    method Relink(parent: Ptr, node: Ptr, x: Ptr)
      requires parent != 0 ==> parent in mem
      modifies this`mem, this`root
      ensures root == if parent == 0 then x else old(root)
      ensures mem == if parent == 0 then old(mem)
                     else old(mem)[parent := if old(mem)[parent].left == node then old(mem)[parent].(left := x)
                                             else old(mem)[parent].(right := x)]
    {
      if parent != 0 {
        if mem[parent].left == node {
          mem := mem[parent := mem[parent].(left := x)];
        } else {
          mem := mem[parent := mem[parent].(right := x)];
        }
      } else {
        root := x;
      }
    }

    /** A node with at most one child is replaced by that child, which takes its colour. */
    method SpliceOut(node: Ptr, child: Ptr, ghost path: Path, ghost t: Tree, ghost kid: Tree) returns (parent: Ptr)
      requires View(mem, root, path, t) && t.T? && t.p == node && (kid == t.l || kid == t.r) && child == Root(kid)
      modifies this`mem, this`root
      ensures parent == PathPtr(path) && (parent == 0 <==> path.Top?) && node in mem && GetColor(mem[node]) == t.c
      ensures View(mem, root, path, Heir(kid, t.c))
      ensures OnlyWrites(old(mem), mem, Ids(Zip(path, t)))
    {
      hide View, Rep, RepPath, Items, PathIds, Distinct, DistinctPath, Zip, Heir;
      SpliceFacts(mem, root, path, t, kid);
      parent := GetParent(mem[node]);
      Relink(parent, node, child);
      if child != 0 {
        mem := mem[child := SetParentColor(mem[child], parent, GetColor(mem[node]))];
      }
      SpliceView(old(mem), old(root), mem, root, path, t, kid, t.c);
    }

    /** Finds the leftmost node below `child` and its parent. */
    method FindSuccessor(child: Ptr, ghost base: Path, ghost r: Tree)
      returns (parent: Ptr, successor: Ptr, ghost ip: Path, ghost s: Tree)
      requires View(mem, root, base, r) && r.T? && r.p == child
      ensures s.T? && s.l.Nil? && s.p == successor && Zip(ip, s) == r && AllLeft(ip)
      ensures parent == if ip.Top? then successor else ip.p
      ensures successor in mem && mem[successor].right == Root(s.r)
    {
      hide View, Rep, RepPath, Items, Ids, PathIds, Distinct, DistinctPath;
      successor, parent := child, child;
      ip, s := Top, r;
      ViewAppend(mem, root, ip, base, s);
      SearchFacts(mem, root, Append(ip, base), s);
      var tmp := mem[child].left;
      while tmp != 0
        invariant View(mem, root, Append(ip, base), s) && s.T? && s.p == successor && Zip(ip, s) == r && AllLeft(ip)
        invariant parent == (if ip.Top? then successor else ip.p) && successor in mem && tmp == mem[successor].left
        invariant mem[successor].right == Root(s.r) && tmp == Root(s.l)
        decreases s
      {
        SearchFacts(mem, root, Append(ip, base), s);
        parent := successor;
        successor := tmp;
        ip, s := Down(Left, s.p, s.c, s.k, s.r, ip), s.l;
        SearchFacts(mem, root, Append(ip, base), s);
        tmp := mem[tmp].left;
      }
      SearchFacts(mem, root, Append(ip, base), s);
      LeftmostNil(mem, root, Append(ip, base), s);
    }

    /** A successor deeper down is cut off its parent, and takes over the right child of the node (lines 673-676). */
    method Unhook(child: Ptr, successor: Ptr, parent: Ptr)
      requires child in mem && successor in mem && parent in mem && successor != child && successor != parent
      modifies this`mem
      ensures Unhooked(old(mem), mem, child, successor, parent)
    {
      mem := mem[parent := mem[parent].(left := mem[successor].right)];
      mem := mem[successor := mem[successor].(right := child)];
      mem := mem[child := SetParent(mem[child], successor)];
    }

    /** The successor takes over the left child, the link and the colour of `node` (lines 679-701). */
    method TakePlace(node: Ptr, successor: Ptr, parent: Ptr, child2: Ptr) returns (rebalance: Ptr)
      requires node in mem && successor in mem && mem[node].left in mem
      requires var left, q := mem[node].left, GetParent(mem[node]);
               && node != successor && node != left && node != q && node != child2
               && successor != left && successor != q && successor != child2 && left != q && left != child2
               && (child2 != 0 ==> child2 in mem && child2 != q) && (q != 0 ==> q in mem)
      modifies this`mem, this`root
      ensures PlaceTaken(old(mem), old(root), mem, root, node, successor, parent, child2)
      ensures rebalance == if child2 == 0 && GetColor(old(mem[successor])) == Black then parent else 0
    {
      LeftKeeps(mem[successor], mem[node].left);
      hide SetParent, SetParentColor, GetParent, GetColor;
      var left := mem[node].left;
      mem := mem[successor := mem[successor].(left := left)];
      mem := mem[left := SetParent(mem[left], successor)];
      var nodeParent := GetParent(mem[node]);
      Relink(nodeParent, node, successor);
      rebalance := PaintHeir(node, successor, parent, child2, nodeParent);
    }

    /** The colours after the successor has taken the place of `node`. */
    method PaintHeir(node: Ptr, successor: Ptr, parent: Ptr, child2: Ptr, nodeParent: Ptr) returns (rebalance: Ptr)
      requires node in mem && successor in mem && successor != node
      requires (child2 != 0 ==> child2 in mem && child2 != node && child2 != successor)
      modifies this`mem
      ensures var m1 := if child2 == 0 then old(mem)
                        else old(mem)[child2 := SetParentColor(old(mem[child2]), parent, Black)];
              mem == m1[successor := SetParentColor(old(mem[successor]), nodeParent, GetColor(old(mem[node])))]
      ensures rebalance == if child2 == 0 && GetColor(old(mem[successor])) == Black then parent else 0
    {
      hide SetParentColor, GetColor;
      if child2 != 0 {
        mem := mem[child2 := SetParentColor(mem[child2], parent, Black)];
        rebalance := 0;
      } else {
        rebalance := if GetColor(mem[successor]) == Black then parent else 0;
      }
      mem := mem[successor := SetParentColor(mem[successor], nodeParent, GetColor(mem[node]))];
    }

    /** The successor takes the place, the colour and the children of `node` (lines 657-702). */
    method Transplant(node: Ptr, child: Ptr, successor: Ptr, parent: Ptr) returns (rebalance: Ptr)
      requires node in mem && child in mem && successor in mem && parent in mem && mem[node].left in mem
      requires TransplantWordsDistinct(mem, node, child, successor, parent)
      modifies this`mem, this`root
      ensures Transplanted(old(mem), old(root), mem, root, node, child, successor, parent)
      ensures rebalance ==
              if old(mem[successor].right) == 0 && GetColor(old(mem[successor])) == Black then parent else 0
    {
      hide SetParent, SetParentColor, OnlyWrites, PlaceTaken, Transplanted;
      var child2 := mem[successor].right;
      if successor != child {
        Unhook(child, successor, parent);
        UnhookedKeeps(old(mem), mem, node, child, successor, parent);
      }
      ghost var m1 := mem;
      rebalance := TakePlace(node, successor, parent, child2);
      TransplantSteps(old(mem), old(root), m1, mem, root, node, child, successor, parent);
    }

    /**
     * The first part of `rbt_remove`: the node leaves the tree; `rebalance` is where a black node is missing, if
     * anywhere.
     */
    method Detach(node: Ptr, ghost path: Path, ghost t: Tree) returns (rebalance: Ptr, ghost hp: Path, ghost heir: Tree)
      requires View(mem, root, path, t) && t.T? && t.p == node && RedBlack(Zip(path, t)) && Sorted(Items(Zip(path, t)))
      modifies this`mem, this`root
      ensures View(mem, root, hp, heir)
      ensures Items(Zip(hp, heir)) == RemovePtr(Items(Zip(path, t)), node) && Sorted(Items(Zip(hp, heir)))
      ensures Ids(Zip(hp, heir)) == Ids(Zip(path, t)) - {node}
      ensures OnlyWrites(old(mem), mem, Ids(Zip(path, t)))
      ensures if rebalance == 0 then RedBlack(Zip(hp, heir)) else heir == Nil && Deficient(hp, Nil) && rebalance == hp.p
    {
      hide View, Rep, RepPath, Items, Ids, PathIds, Distinct, DistinctPath, Zip, RedBlack, Sorted, RemovePtr,
        OnlyWrites, Deficient, Transplanted, TransplantWordsDistinct, AllLeft, Append, GetColor;
      SearchFacts(mem, root, path, t);
      DetachFacts(mem, root, path, t);
      var child, tmp := mem[node].right, mem[node].left;
      if tmp == 0 {
        SpliceRules(path, t, t.r, t.l);
        var parent := SpliceOut(node, child, path, t, t.r);
        hp, heir := path, Heir(t.r, t.c);
        rebalance := if child != 0 then 0 else if GetColor(mem[node]) == Black then parent else 0;
        RemovedItems(path, t, Heir(t.r, Black));
      } else if child == 0 {
        SpliceRules(path, t, t.l, t.r);
        var parent := SpliceOut(node, tmp, path, t, t.l);
        hp, heir := path, Heir(t.l, t.c);
        rebalance := 0;
        RemovedItems(path, t, Heir(t.l, Black));
      } else {
        ghost var base := Down(Right, node, t.c, t.k, t.l, path);
        var parent, successor, ip, s := FindSuccessor(child, base, t.r);
        TransplantReady(mem, root, path, t.l, node, t.c, t.k, ip, s);
        TransplantRules(path, t.l, node, t.c, t.k, ip, s);
        rebalance := Transplant(node, child, successor, parent);
        TransplantView(old(mem), old(root), mem, root, path, t.l, node, t.c, t.k, ip, s);
        hp, heir := Append(ip, Down(Right, s.p, t.c, s.k, t.l, path)), Heir(s.r, Black);
        FocusUp(mem, root, Down(Right, s.p, t.c, s.k, t.l, path), Zip(ip, heir));
        ViewAppend(mem, root, ip, Down(Right, s.p, t.c, s.k, t.l, path), heir);
        RemovedItems(path, t, T(t.l, s.p, t.c, s.k, Zip(ip, heir)));
      }
    }

    /** `rbt_remove`. */
    method Remove(node: Ptr) returns (removed: Ptr)
      requires Valid() && node in Ids(shape)
      modifies this
      ensures Valid() && removed == node
      ensures Items(shape) == RemovePtr(old(Items(shape)), node) && Ids(shape) == old(Ids(shape)) - {node}
      ensures OnlyWrites(old(mem), mem, old(Ids(shape)))
    {
      hide View, Rep, RepPath, Items, Ids, PathIds, Distinct, DistinctPath, Zip, RedBlack, Sorted, RemovePtr,
        OnlyWrites;
      ghost var path, t := Locate(Top, shape, node);
      SearchStarts(shape, 0);
      ViewZip(mem, root, path, t);
      ghost var hp, heir;
      var rebalance;
      rebalance, hp, heir := Detach(node, path, t);
      ghost var m1 := mem;
      if rebalance != 0 {
        shape := EraseColor(rebalance, hp);
        SameItemsSameIds(shape, Zip(hp, heir));
        WritesWithin(m1, mem, Ids(Zip(hp, heir)), old(Ids(shape)));
        WritesCompose(old(mem), m1, mem, old(Ids(shape)));
      } else {
        ViewZip(mem, root, hp, heir);
        shape := Zip(hp, heir);
      }
      removed := node;
    }

    /** `rbt_leftmost` for `s == Right`, `rbt_rightmost` for `s == Left`: the first node of the walk towards `s`. */
    method First(s: Side) returns (node: Ptr, ghost path: Path, ghost t: Tree)
      requires Valid()
      ensures node == 0 <==> shape == Nil
      ensures node == 0 ==> Walk(s, shape) == []
      ensures node != 0 ==>
                && View(mem, root, path, t) && t.T? && t.p == node
                && Walk(s, shape) == [(t.p, t.k)] + (Walk(s, Sub(t, s)) + Rest(s, path))
    {
      hide View, Rep, RepPath, Items, Ids, PathIds, Distinct, DistinctPath, Zip, RedBlack, Sorted, Rest;
      node := root;
      path, t := Top, shape;
      SearchFacts(mem, root, path, t);
      if node == 0 {
        return;
      }
      RestTop(s, shape);
      path, t, node := Descend(node, s, path, t, Walk(s, shape));
    }

    /** Down the side away from `s` as far as it goes. */
    method Descend(start: Ptr, s: Side, ghost path0: Path, ghost t0: Tree, ghost todo: seq<Item>)
      returns (ghost path: Path, ghost t: Tree, node: Ptr)
      requires View(mem, root, path0, t0) && t0.T? && t0.p == start && Walk(s, t0) + Rest(s, path0) == todo
      ensures View(mem, root, path, t) && t.T? && t.p == node && node != 0
      ensures todo == [(t.p, t.k)] + (Walk(s, Sub(t, s)) + Rest(s, path))
    {
      hide View, Rep, RepPath, Items, Ids, PathIds, Distinct, DistinctPath, Zip, Rest;
      node := start;
      path, t := path0, t0;
      WalkFacts(mem, root, path, t, s);
      while Child(mem[node], Other(s)) != 0
        invariant View(mem, root, path, t) && t.T? && t.p == node && node in mem
        invariant Child(mem[node], Other(s)) == Root(Sub(t, Other(s)))
        invariant (Sub(t, Other(s)).T? <==> Root(Sub(t, Other(s))) != 0)
        invariant node != 0 && Walk(s, t) + Rest(s, path) == todo
        decreases t
      {
        WalkFacts(mem, root, path, t, s);
        RestDown(s, path, t);
        node := Child(mem[node], Other(s));
        path, t := Down(Other(s), t.p, t.c, t.k, Sub(t, s), path), Sub(t, Other(s));
        WalkFacts(mem, root, path, t, s);
      }
      assert Walk(s, t) == [] + [(t.p, t.k)] + Walk(s, Sub(t, s));
      assert Walk(s, t) + Rest(s, path) == [(t.p, t.k)] + (Walk(s, Sub(t, s)) + Rest(s, path));
    }

    /** `inorder_successor` for `s == Right`, `inorder_predecessor` for `s == Left`. */
    method Next(start: Ptr, s: Side, ghost path0: Path, ghost t0: Tree)
      returns (next: Ptr, ghost path: Path, ghost t: Tree)
      requires View(mem, root, path0, t0) && t0.T? && t0.p == start
      ensures next == 0 <==> Walk(s, Sub(t0, s)) + Rest(s, path0) == []
      ensures next != 0 ==>
                && View(mem, root, path, t) && t.T? && t.p == next
                && Walk(s, Sub(t0, s)) + Rest(s, path0) == [(t.p, t.k)] + (Walk(s, Sub(t, s)) + Rest(s, path))
    {
      hide View, Rep, RepPath, Items, Ids, PathIds, Distinct, DistinctPath, Zip, Rest, Walk, Mk;
      ghost var todo := Walk(s, Sub(t0, s)) + Rest(s, path0);
      WalkFacts(mem, root, path0, t0, s);
      path, t := path0, t0;
      if Child(mem[start], s) != 0 {
        WalkDownFacts(s, path0, t0);
        path, t, next := Descend(Child(mem[start], s), s, Down(s, t0.p, t0.c, t0.k, Sub(t0, Other(s)), path0),
                                 Sub(t0, s), todo);
        return;
      }
      NoWalk(s, Sub(t0, s), Rest(s, path0));
      var node := start;
      var parent := GetParent(mem[node]);
      ghost var up, x := path0, t0;
      SearchFacts(mem, root, up, x);
      ClimbFacts(mem, root, up, x, s);
      while parent != 0 && node == Child(mem[parent], s)
        invariant View(mem, root, up, x) && x.T? && x.p == node && parent == PathPtr(up) && Rest(s, up) == todo
        invariant (parent == 0 <==> up.Top?)
        invariant (up.Down? ==> parent in mem && (node == Child(mem[parent], s) <==> up.side == s))
        decreases up
      {
        RestUp(s, up, x);
        FocusUp(mem, root, up, x);
        MkRules(up.side, x, up.p, up.c, up.k, up.other);
        node := parent;
        x, up := Mk(up.side, x, up.p, up.c, up.k, up.other), up.up;
        SearchFacts(mem, root, up, x);
        ClimbFacts(mem, root, up, x, s);
        parent := GetParent(mem[parent]);
      }
      next := parent;
      if parent == 0 {
        RestEmpty(s);
      } else {
        RestUp(s, up, x);
        FocusUp(mem, root, up, x);
        MkRules(up.side, x, up.p, up.c, up.k, up.other);
        path, t := up.up, Mk(up.side, x, up.p, up.c, up.k, up.other);
      }
    }

    /**
     * `rbt_for_each` for `s == Right`, `rbt_for_each_rev` for `s == Left`; the visitor stops the walk by returning
     * false.
     */
    method ForEach(s: Side, visit: Ptr -> bool) returns (visited: seq<Ptr>)
      requires Valid()
      ensures var order := if s == Right then Items(shape) else Reversed(Items(shape));
              visited == Visited(order, visit) && SeesPrefix(order, visit, visited)
    {
      WalkOrders(shape);
      VisitedPrefix(Walk(s, shape), visit);
      hide SeesPrefix, Reversed, View, Rep, RepPath, Items, Ids, PathIds, Distinct, DistinctPath, Zip, RedBlack, Sorted,
        Rest, Walk, Visited;
      visited := [];
      VisitNothing(visit);
      var node, path, t := First(s);
      ghost var todo := Walk(s, shape);
      while node != 0
        invariant node == 0 <==> todo == []
        invariant node != 0 ==> View(mem, root, path, t) && t.T? && t.p == node &&
                                todo == [(t.p, t.k)] + (Walk(s, Sub(t, s)) + Rest(s, path))
        invariant visited + Visited(todo, visit) == Visited(Walk(s, shape), visit)
        decreases |todo|
      {
        ghost var rest := Walk(s, Sub(t, s)) + Rest(s, path);
        VisitStep((t.p, t.k), rest, visit);
        visited := visited + [node];
        if !visit(node) {
          return;
        }
        node, path, t := Next(node, s, path, t);
        todo := rest;
      }
    }

    /**
     * `rbt_destroy`: every node is unlinked and freed once, children first; freed nodes leave memory and are not read
     * again.
     */
    method Destroy() returns (freed: seq<Ptr>)
      requires Valid()
      modifies this
      ensures Valid() && shape == Nil && root == 0
      ensures freed == PostOrder(old(shape))
      ensures mem.Keys == old(mem.Keys) - old(Ids(shape)) && forall x | x in mem :: mem[x] == old(mem[x])
    {
      hide View, Rep, RepPath, Ids, PathIds, Distinct, DistinctPath, Zip, RedBlack, Sorted, PostOrder, PostRest, Size,
        LeftGone, Mk;
      freed := [];
      var node := root;
      ghost var path, t, all := Top, shape, Ids(shape);
      DestroyStarts(mem, root, shape);
      while node != 0
        invariant node != 0 ==>
                    && View(mem, root, path, t) && t.T? && t.p == node && LeftGone(path) && Ids(Zip(path, t)) <= all
                    && freed + (PostOrder(t) + PostRest(path)) == PostOrder(old(shape))
        invariant node == 0 ==> freed == PostOrder(old(shape))
        invariant mem.Keys == old(mem.Keys) - (set x | x in freed)
        invariant forall x | x in mem && x !in all :: mem[x] == old(mem)[x]
        decreases if node == 0 then 0 else Size(Zip(path, t)), Size(t)
      {
        FreeRead(mem, root, path, t);
        if mem[node].left != 0 {
          FreeBelow(mem, root, path, t, Left);
          node := mem[node].left;
          path, t := Down(Left, t.p, t.c, t.k, t.r, path), t.l;
        } else if mem[node].right != 0 {
          FreeBelow(mem, root, path, t, Right);
          node := mem[node].right;
          path, t := Down(Right, t.p, t.c, t.k, t.l, path), t.r;
        } else {
          var parent := GetParent(mem[node]);
          ghost var before := mem;
          if parent != 0 {
            FreeLeaf(mem, root, path, t);
            if mem[parent].left == node {
              mem := mem[parent := mem[parent].(left := 0)];
            } else {
              mem := mem[parent := mem[parent].(right := 0)];
            }
          } else {
            LastLeaf(t);
          }
          mem := mem - {node};
          assert path.Down? ==> mem == Freed(before, path, node);
          freed := freed + [node];
          node := parent;
          if path.Down? {
            path, t := path.up, Mk(path.side, Nil, path.p, path.c, path.k, path.other);
          }
        }
      }
      PostOrderOnce(old(shape));
      EmptyTree(mem);
      root, shape := 0, Nil;
    }
  }
}
