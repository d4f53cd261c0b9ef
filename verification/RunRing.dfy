/** The circular, doubly linked rings of thread nodes (src/kernel/scheduler/scheduler.c:437-486). */
module RunRing {
  import opened Sequences

  type Ptr = nat

  type TaskId = nat

  datatype ThreadState = New | Ready | Running | Sleeping | Dead

  /** `thread_node_t` with the scheduling fields of its thread. */
  datatype Thread = Thread(prev: Ptr, next: Ptr, owner: TaskId, cpu: nat, state: ThreadState)

  type Threads = map<Ptr, Thread>

  function NextIn(l: seq<Ptr>, k: nat): Ptr
    requires k < |l|
  {
    if k + 1 < |l| then l[k + 1] else l[0]
  }

  function PrevIn(l: seq<Ptr>, k: nat): Ptr
    requires k < |l|
  {
    if k > 0 then l[k - 1] else l[|l| - 1]
  }

  predicate RingCell(mem: Threads, c: nat, l: seq<Ptr>, k: nat)
    requires k < |l|
  {
    && l[k] != 0 && l[k] in mem && mem[l[k]].cpu == c
    && mem[l[k]].next == NextIn(l, k) && mem[l[k]].prev == PrevIn(l, k)
  }

  predicate NoDups(l: seq<Ptr>) {
    forall a, b | 0 <= a < b < |l| :: l[a] != l[b]
  }

  /**
   * The nodes reached from `head` are `l` and then `head` again; the links agree both ways and each node names queue
   * `c`.
   */
  ghost predicate Ring(mem: Threads, c: nat, head: Ptr, l: seq<Ptr>) {
    && head == (if l == [] then 0 else l[0]) && NoDups(l)
    && forall k: nat {:trigger RingCell(mem, c, l, k)} | k < |l| :: RingCell(mem, c, l, k)
  }

  ghost predicate Rings(mem: Threads, heads: seq<Ptr>, rings: seq<seq<Ptr>>) {
    && |heads| == |rings|
    && forall c: nat {:trigger Ring(mem, c, heads[c], rings[c])} | c < |rings| :: Ring(mem, c, heads[c], rings[c])
  }

  predicate Nowhere(rings: seq<seq<Ptr>>, p: Ptr) {
    forall q: nat {:trigger rings[q]} | q < |rings| :: p !in rings[q]
  }

  /** The node is in the ring of the queue it names. */
  predicate Linked(mem: Threads, rings: seq<seq<Ptr>>, p: Ptr) {
    p in mem && mem[p].cpu < |rings| && p in rings[mem[p].cpu]
  }

  lemma RingMember(mem: Threads, heads: seq<Ptr>, rings: seq<seq<Ptr>>, c: nat, p: Ptr) returns (k: nat)
    requires Rings(mem, heads, rings) && c < |rings| && p in rings[c]
    ensures k < |rings[c]| && rings[c][k] == p && RingCell(mem, c, rings[c], k)
    ensures p != 0 && p in mem && mem[p].cpu == c && Linked(mem, rings, p)
  {
    assert Ring(mem, c, heads[c], rings[c]);
    k :| 0 <= k < |rings[c]| && rings[c][k] == p;
    assert RingCell(mem, c, rings[c], k);
  }

  lemma RingFrame(mem: Threads, mem': Threads, c: nat, head: Ptr, l: seq<Ptr>)
    requires Ring(mem, c, head, l)
    requires forall k | 0 <= k < |l| && l[k] in mem ::
               l[k] in mem' && mem'[l[k]].prev == mem[l[k]].prev && mem'[l[k]].next == mem[l[k]].next &&
               mem'[l[k]].cpu == mem[l[k]].cpu
    ensures Ring(mem', c, head, l)
  {
    forall k: nat {:trigger RingCell(mem', c, l, k)} | k < |l| ensures RingCell(mem', c, l, k) {
      assert RingCell(mem, c, l, k);
    }
  }

  /** Only links and, for `p`, the queue differ. */
  ghost predicate SameThreads(mem: Threads, mem': Threads, p: Ptr) {
    && mem'.Keys == mem.Keys
    && forall x {:trigger mem'[x]} | x in mem ::
         mem'[x].owner == mem[x].owner && mem'[x].state == mem[x].state && (x != p ==> mem'[x].cpu == mem[x].cpu)
  }

  // runqueue_insert_node

  function LinkedLast(mem: Threads, head: Ptr, p: Ptr, c: nat): Threads
    requires p in mem && (head != 0 ==> head in mem && mem[head].prev in mem)
  {
    if head == 0 then mem[p := mem[p].(cpu := c, prev := p, next := p)]
    else
      var last := mem[head].prev;
      var m1 := mem[p := mem[p].(cpu := c, next := head, prev := last)];
      var m2 := m1[last := m1[last].(next := p)];
      m2[head := m2[head].(prev := p)]
  }

  lemma RingEnds(mem: Threads, heads: seq<Ptr>, rings: seq<seq<Ptr>>, c: nat)
    requires Rings(mem, heads, rings) && c < |rings|
    ensures rings[c] == [] <==> heads[c] == 0
    ensures rings[c] != [] ==>
              heads[c] == rings[c][0] && heads[c] in mem && mem[heads[c]].prev == rings[c][|rings[c]| - 1] &&
              mem[heads[c]].prev in mem
  {
    assert Ring(mem, c, heads[c], rings[c]);
    if rings[c] != [] {
      assert RingCell(mem, c, rings[c], 0) && RingCell(mem, c, rings[c], |rings[c]| - 1);
    }
  }

  lemma InsertedRing(mem: Threads, heads: seq<Ptr>, rings: seq<seq<Ptr>>, p: Ptr, c: nat)
    requires Rings(mem, heads, rings) && c < |rings| && p in mem && p != 0 && p !in rings[c]
    requires heads[c] != 0 ==> heads[c] in mem && mem[heads[c]].prev in mem
    ensures Ring(LinkedLast(mem, heads[c], p, c), c, if heads[c] == 0 then p else heads[c], rings[c] + [p])
  {
    RingEnds(mem, heads, rings, c);
    assert Ring(mem, c, heads[c], rings[c]);
    var l, mem' := rings[c], LinkedLast(mem, heads[c], p, c);
    var l' := l + [p];
    forall k: nat {:trigger RingCell(mem', c, l', k)} | k < |l'| ensures RingCell(mem', c, l', k) {
      if k < |l| { assert RingCell(mem, c, l, k); }
      assert 0 < k < |l| ==> l[0] != l[k];
      assert k + 1 < |l| ==> l[k] != l[|l| - 1];
    }
  }

  lemma InsertedRings(mem: Threads, heads: seq<Ptr>, rings: seq<seq<Ptr>>, p: Ptr, c: nat)
    requires Rings(mem, heads, rings) && c < |rings| && p in mem && p != 0
    requires Nowhere(rings, p)
    ensures heads[c] != 0 ==> heads[c] in mem && mem[heads[c]].prev in mem && heads[c] != p && mem[heads[c]].prev != p
    ensures Rings(LinkedLast(mem, heads[c], p, c), if heads[c] == 0 then heads[c := p] else heads,
                  rings[c := rings[c] + [p]])
    ensures SameThreads(mem, LinkedLast(mem, heads[c], p, c), p) && LinkedLast(mem, heads[c], p, c)[p].cpu == c
  {
    RingEnds(mem, heads, rings, c);
    var mem', rings' := LinkedLast(mem, heads[c], p, c), rings[c := rings[c] + [p]];
    var heads' := if heads[c] == 0 then heads[c := p] else heads;
    forall q: nat {:trigger Ring(mem', q, heads'[q], rings'[q])} | q < |rings'|
      ensures Ring(mem', q, heads'[q], rings'[q])
    {
      assert Ring(mem, q, heads[q], rings[q]);
      if q == c {
        InsertedRing(mem, heads, rings, p, c);
      } else {
        OtherRing(mem, heads, rings, q, c);
        RingFrame(mem, mem', q, heads[q], rings[q]);
      }
    }
  }

  /** A node of one ring is on no other. */
  lemma OtherRing(mem: Threads, heads: seq<Ptr>, rings: seq<seq<Ptr>>, q: nat, c: nat)
    requires Rings(mem, heads, rings) && q < |rings| && c < |rings| && q != c
    ensures forall k | 0 <= k < |rings[q]| :: rings[q][k] !in rings[c]
  {
    assert Ring(mem, q, heads[q], rings[q]) && Ring(mem, c, heads[c], rings[c]);
    forall k | 0 <= k < |rings[q]| ensures rings[q][k] !in rings[c] {
      assert RingCell(mem, q, rings[q], k);
      forall m | 0 <= m < |rings[c]| ensures rings[c][m] != rings[q][k] { assert RingCell(mem, c, rings[c], m); }
    }
  }

  // runqueue_remove_node

  function Detached(mem: Threads, p: Ptr): Threads
    requires p in mem && mem[p].prev in mem && mem[p].next in mem
  {
    if mem[p].next == p then mem
    else
      var m1 := mem[mem[p].prev := mem[mem[p].prev].(next := mem[p].next)];
      m1[m1[p].next := m1[m1[p].next].(prev := m1[p].prev)]
  }

  function DetachedHead(mem: Threads, head: Ptr, p: Ptr): Ptr
    requires p in mem
  {
    if mem[p].next == p then 0 else if head == p then mem[p].next else head
  }

  lemma WithoutMembers(l: seq<Ptr>, k: nat)
    requires k < |l| && NoDups(l)
    ensures NoDups(Without(l, k))
    ensures forall j {:trigger j in Without(l, k)} :: j in Without(l, k) <==> j in l && j != l[k]
  {
    var l' := Without(l, k);
    forall j ensures j in l' <==> j in l && j != l[k] {
      if j in l && j != l[k] {
        var m :| 0 <= m < |l| && l[m] == j;
        assert l'[if m < k then m else m - 1] == j;
      }
    }
  }

  lemma DetachedRing(mem: Threads, c: nat, head: Ptr, l: seq<Ptr>, k: nat)
    requires Ring(mem, c, head, l) && k < |l|
    ensures l[k] in mem && mem[l[k]].prev in mem && mem[l[k]].next in mem && (mem[l[k]].next == l[k] <==> |l| == 1)
    ensures Ring(Detached(mem, l[k]), c, DetachedHead(mem, head, l[k]), Without(l, k))
  {
    var p, l', n := l[k], Without(l, k), |l|;
    assert RingCell(mem, c, l, k);
    var before, after := if k > 0 then k - 1 else n - 1, if k + 1 < n then k + 1 else 0;
    assert RingCell(mem, c, l, before) && RingCell(mem, c, l, after);
    if n > 1 {
      var mem' := Detached(mem, p);
      forall m: nat {:trigger RingCell(mem', c, l', m)} | m < |l'| ensures RingCell(mem', c, l', m) {
        var m0 := if m < k then m else m + 1;
        assert l'[m] == l[m0] && RingCell(mem, c, l, m0);
        assert m0 != before ==> l[m0] != l[before];
        assert m0 != after ==> l[m0] != l[after];
      }
    }
  }

  lemma DetachedRings(mem: Threads, heads: seq<Ptr>, rings: seq<seq<Ptr>>, c: nat, p: Ptr) returns (k: nat)
    requires Rings(mem, heads, rings) && c < |rings| && p in rings[c]
    ensures k < |rings[c]| && rings[c][k] == p && p in mem && mem[p].prev in mem && mem[p].next in mem
    ensures Rings(Detached(mem, p), heads[c := DetachedHead(mem, heads[c], p)], rings[c := Without(rings[c], k)])
    ensures SameThreads(mem, Detached(mem, p), p) && Detached(mem, p)[p].cpu == mem[p].cpu == c
    ensures mem[p].next == NextIn(rings[c], k)
    ensures Nowhere(rings[c := Without(rings[c], k)], p)
  {
    k := RingMember(mem, heads, rings, c, p);
    assert Ring(mem, c, heads[c], rings[c]);
    DetachedRing(mem, c, heads[c], rings[c], k);
    WithoutMembers(rings[c], k);
    var l := rings[c];
    var mem', heads', rings' := Detached(mem, p), heads[c := DetachedHead(mem, heads[c], p)], rings[c := Without(l, k)];
    assert mem[p].prev in l && mem[p].next in l;
    forall q: nat {:trigger Ring(mem', q, heads'[q], rings'[q])} | q < |rings'|
      ensures Ring(mem', q, heads'[q], rings'[q])
    {
      assert Ring(mem, q, heads[q], rings[q]);
      if q != c {
        OtherRing(mem, heads, rings, q, c);
        RingFrame(mem, mem', q, heads[q], rings[q]);
      }
    }
    NowhereElse(mem, heads, rings, c, p, k);
  }

  lemma NowhereElse(mem: Threads, heads: seq<Ptr>, rings: seq<seq<Ptr>>, c: nat, p: Ptr, k: nat)
    requires Rings(mem, heads, rings) && c < |rings| && k < |rings[c]| && rings[c][k] == p
    ensures Nowhere(rings[c := Without(rings[c], k)], p)
  {
    assert Ring(mem, c, heads[c], rings[c]);
    WithoutMembers(rings[c], k);
    var rings' := rings[c := Without(rings[c], k)];
    forall q: nat {:trigger rings'[q]} | q < |rings'| ensures p !in rings'[q] {
      if q != c { OtherRing(mem, heads, rings, q, c); }
    }
  }

  lemma RingsLength(mem: Threads, heads: seq<Ptr>, rings: seq<seq<Ptr>>)
    requires Rings(mem, heads, rings)
    ensures |heads| == |rings|
  {
  }

  lemma RingNoDups(mem: Threads, heads: seq<Ptr>, rings: seq<seq<Ptr>>, c: nat)
    requires Rings(mem, heads, rings) && c < |rings|
    ensures NoDups(rings[c])
  {
    assert Ring(mem, c, heads[c], rings[c]);
  }

  lemma SameKeys(mem: Threads, mem': Threads, p: Ptr)
    requires SameThreads(mem, mem', p)
    ensures mem'.Keys == mem.Keys
  {
  }
}
