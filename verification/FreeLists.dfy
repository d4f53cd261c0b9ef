/**
 * The index-linked free lists, one per order (src/kernel/mm/malloc/page_allocator/page_allocator.c:35-40, 129-152,
 * 176-224).
 */
module FreeLists {
  import opened Sequences

  const NULL_IDX: nat := 0xFFFF_FFFF

  datatype PageData = PageData(tag: string, permanent: bool, deviceMem: bool)

  const NO_DATA := PageData("", false, false)

  datatype PageNode = PageNode(next: nat, prev: nat, order: nat, free: bool, data: PageData)

  type Nodes = seq<PageNode>

  function At(l: seq<nat>, k: int): nat {
    if 0 <= k < |l| then l[k] else NULL_IDX
  }

  predicate Cell(ns: Nodes, l: seq<nat>, k: nat)
    requires k < |l|
  {
    l[k] < |ns| && ns[l[k]].next == At(l, k + 1) && ns[l[k]].prev == At(l, k - 1)
  }

  /** The nodes reached from `head` are `l`, linked both ways, each once. */
  ghost predicate Chain(ns: Nodes, head: nat, l: seq<nat>) {
    && head == At(l, 0)
    && (forall k: nat {:trigger Cell(ns, l, k)} | k < |l| :: Cell(ns, l, k))
    && (forall a, b | 0 <= a < b < |l| :: l[a] != l[b])
  }

  /** A node is on the list of its order exactly when it is free, and on no other list. */
  predicate Listed(ns: Nodes, ls: seq<seq<nat>>, j: nat)
    requires j < |ns|
  {
    && ns[j].order < |ls|
    && (forall o | 0 <= o < |ls| :: j in ls[o] <==> ns[j].free && ns[j].order == o)
    && (!ns[j].free ==> ns[j].next == NULL_IDX && ns[j].prev == NULL_IDX)
  }

  ghost predicate Links(ns: Nodes, fl: seq<nat>, ls: seq<seq<nat>>) {
    && |fl| == |ls| && |ns| <= NULL_IDX
    && (forall o: nat {:trigger Chain(ns, fl[o], ls[o])} | o < |ls| :: Chain(ns, fl[o], ls[o]))
    && (forall j: nat {:trigger Listed(ns, ls, j)} | j < |ns| :: Listed(ns, ls, j))
  }

  /** Only the links of nodes and the free bit of `i` differ. */
  ghost predicate FreeBitSet(ns: Nodes, ns': Nodes, i: nat, free: bool) {
    && |ns| == |ns'|
    && forall j: nat {:trigger ns'[j]} | j < |ns| ::
         && ns'[j].order == ns[j].order && ns'[j].data == ns[j].data
         && ns'[j].free == if j == i then free else ns[j].free
  }

  lemma ChainFrame(ns: Nodes, ns': Nodes, head: nat, l: seq<nat>)
    requires Chain(ns, head, l) && |ns'| == |ns|
    requires forall k: nat | k < |l| && l[k] < |ns| :: ns'[l[k]] == ns[l[k]]
    ensures Chain(ns', head, l)
  {
    forall k: nat {:trigger Cell(ns', l, k)} | k < |l| ensures Cell(ns', l, k) {
      assert Cell(ns, l, k);
    }
  }

  // push_to_list

  function Pushed(ns: Nodes, i: nat, head: nat): Nodes
    requires i < |ns|
  {
    var ns1 := ns[i := ns[i].(prev := NULL_IDX, next := head, free := true)];
    if head < |ns1| then ns1[head := ns1[head].(prev := i)] else ns1
  }

  lemma PushedChain(ns: Nodes, head: nat, l: seq<nat>, i: nat)
    requires Chain(ns, head, l) && i < |ns| <= NULL_IDX && i !in l
    ensures Chain(Pushed(ns, i, head), i, [i] + l)
  {
    var ns', l' := Pushed(ns, i, head), [i] + l;
    forall k: nat {:trigger Cell(ns', l', k)} | k < |l'| ensures Cell(ns', l', k) {
      if k > 0 {
        assert Cell(ns, l, k - 1) && l'[k] == l[k - 1];
        assert k > 1 ==> l[k - 1] != l[0];
      }
    }
  }

  lemma PushedLinks(ns: Nodes, fl: seq<nat>, ls: seq<seq<nat>>, i: nat)
    requires Links(ns, fl, ls) && i < |ns| && !ns[i].free
    ensures var o := ns[i].order;
            && o < |fl| == |ls| && |ns| <= NULL_IDX && (fl[o] != NULL_IDX ==> fl[o] < |ns| && fl[o] != i)
            && Links(Pushed(ns, i, fl[o]), fl[o := i], ls[o := [i] + ls[o]])
            && FreeBitSet(ns, Pushed(ns, i, fl[o]), i, true)
  {
    assert Listed(ns, ls, i);
    var o := ns[i].order;
    var l := ls[o];
    assert Chain(ns, fl[o], l);
    assert l != [] ==> Cell(ns, l, 0) && l[0] in l;
    var ns', fl', ls' := Pushed(ns, i, fl[o]), fl[o := i], ls[o := [i] + l];
    forall q: nat {:trigger Chain(ns', fl'[q], ls'[q])} | q < |ls'| ensures Chain(ns', fl'[q], ls'[q]) {
      assert Chain(ns, fl[q], ls[q]);
      if q == o {
        PushedChain(ns, fl[o], l, i);
      } else {
        OtherChain(ns, ls, q, o, i);
        ChainFrame(ns, ns', fl[q], ls[q]);
      }
    }
    forall j: nat {:trigger Listed(ns', ls', j)} | j < |ns'| ensures Listed(ns', ls', j) {
      assert Listed(ns, ls, j);
    }
  }

  /** Nodes of one list are not on another. */
  lemma OtherChain(ns: Nodes, ls: seq<seq<nat>>, q: nat, o: nat, i: nat)
    requires forall j: nat {:trigger Listed(ns, ls, j)} | j < |ns| :: Listed(ns, ls, j)
    requires q < |ls| && o < |ls| && q != o && i < |ns| && ns[i].order == o
    ensures forall k: nat | k < |ls[q]| && ls[q][k] < |ns| :: ls[q][k] != i && ls[q][k] !in ls[o]
  {
    assert Listed(ns, ls, i);
    forall k: nat | k < |ls[q]| && ls[q][k] < |ns| ensures ls[q][k] != i && ls[q][k] !in ls[o] {
      assert Listed(ns, ls, ls[q][k]) && ls[q][k] in ls[q];
    }
  }

  // remove_from_list

  function Removed(ns: Nodes, i: nat): Nodes
    requires i < |ns|
  {
    var next, prev := ns[i].next, ns[i].prev;
    var ns1 := if prev < |ns| then ns[prev := ns[prev].(next := next)] else ns;
    var ns2 := if next < |ns| then ns1[next := ns1[next].(prev := prev)] else ns1;
    ns2[i := ns2[i].(next := NULL_IDX, prev := NULL_IDX, free := false)]
  }

  lemma RemovedChain(ns: Nodes, head: nat, l: seq<nat>, k: nat)
    requires Chain(ns, head, l) && |ns| <= NULL_IDX && k < |l| && l[k] < |ns|
    ensures Chain(Removed(ns, l[k]), if k == 0 then ns[l[k]].next else head, Without(l, k))
  {
    var i, ns', l' := l[k], Removed(ns, l[k]), Without(l, k);
    assert Cell(ns, l, k);
    assert k > 0 ==> Cell(ns, l, k - 1);
    assert k + 1 < |l| ==> Cell(ns, l, k + 1);
    forall m: nat {:trigger Cell(ns', l', m)} | m < |l'| ensures Cell(ns', l', m) {
      var m0 := if m < k then m else m + 1;
      assert l'[m] == l[m0] && Cell(ns, l, m0);
    }
  }

  lemma RemovedLinks(ns: Nodes, fl: seq<nat>, ls: seq<seq<nat>>, i: nat) returns (k: nat)
    requires Links(ns, fl, ls) && i < |ns| && ns[i].free
    ensures var o := ns[i].order;
            && o < |fl| == |ls| && |ns| <= NULL_IDX && k < |ls[o]| && ls[o][k] == i
            && (ns[i].prev == NULL_IDX <==> k == 0)
            && (ns[i].prev != NULL_IDX ==> ns[i].prev < |ns| && ns[i].prev != i)
            && (ns[i].next != NULL_IDX ==> ns[i].next < |ns| && ns[i].next != i && ns[i].next != ns[i].prev)
            && Links(Removed(ns, i), if k == 0 then fl[o := ns[i].next] else fl, ls[o := Without(ls[o], k)])
            && FreeBitSet(ns, Removed(ns, i), i, false)
  {
    assert Listed(ns, ls, i);
    var o := ns[i].order;
    var l := ls[o];
    k :| 0 <= k < |l| && l[k] == i;
    assert Chain(ns, fl[o], l) && Cell(ns, l, k);
    assert k > 0 ==> Cell(ns, l, k - 1);
    assert k + 1 < |l| ==> Cell(ns, l, k + 1);
    var ns', fl', ls' := Removed(ns, i), if k == 0 then fl[o := ns[i].next] else fl, ls[o := Without(l, k)];
    forall q: nat {:trigger Chain(ns', fl'[q], ls'[q])} | q < |ls'| ensures Chain(ns', fl'[q], ls'[q]) {
      assert Chain(ns, fl[q], ls[q]);
      if q == o {
        RemovedChain(ns, fl[o], l, k);
      } else {
        OtherChain(ns, ls, q, o, i);
        ChainFrame(ns, ns', fl[q], ls[q]);
      }
    }
    forall j: nat {:trigger Listed(ns', ls', j)} | j < |ns'| ensures Listed(ns', ls', j) {
      assert Listed(ns, ls, j);
      WithoutMembers(l, k, j);
    }
  }

  lemma WithoutMembers(l: seq<nat>, k: nat, j: nat)
    requires k < |l| && forall a, b | 0 <= a < b < |l| :: l[a] != l[b]
    ensures j in Without(l, k) <==> j in l && j != l[k]
  {
    var l' := Without(l, k);
    if j in l && j != l[k] {
      var m :| 0 <= m < |l| && l[m] == j;
      assert l'[if m < k then m else m - 1] == j;
    }
  }

  /** The order of a node that is on no list can be set freely. */
  lemma OrderSet(ns: Nodes, fl: seq<nat>, ls: seq<seq<nat>>, i: nat, order: nat)
    requires Links(ns, fl, ls) && i < |ns| && !ns[i].free && order < |ls|
    ensures Links(ns[i := ns[i].(order := order)], fl, ls)
  {
    var ns' := ns[i := ns[i].(order := order)];
    assert Listed(ns, ls, i);
    forall q: nat {:trigger Chain(ns', fl[q], ls[q])} | q < |ls| ensures Chain(ns', fl[q], ls[q]) {
      assert Chain(ns, fl[q], ls[q]);
      forall k: nat | k < |ls[q]| && ls[q][k] < |ns| ensures ns'[ls[q][k]] == ns[ls[q][k]] {
        assert ls[q][k] in ls[q];
      }
      ChainFrame(ns, ns', fl[q], ls[q]);
    }
    forall j: nat {:trigger Listed(ns', ls, j)} | j < |ns'| ensures Listed(ns', ls, j) {
      assert Listed(ns, ls, j);
    }
  }
}
