/** The order in which a scheduling call examines the threads of a ring. */
module ScanOrder {
  import opened RunRing
  import opened Sequences

  /** `w` is the ring `l` read from index `i` around. */
  ghost predicate Scan(l: seq<Ptr>, w: seq<Ptr>, i: nat) {
    i <= |l| && (l != [] ==> i < |l|) && w == l[i..] + l[..i]
  }

  lemma ScanHead(l: seq<Ptr>, w: seq<Ptr>, i: nat)
    requires Scan(l, w, i) && w != []
    ensures i < |l| && |w| == |l| && l[i] == w[0] && NextIn(l, i) == (if |w| > 1 then w[1] else w[0])
  {
  }

  lemma ScanMembers(l: seq<Ptr>, w: seq<Ptr>, i: nat)
    requires Scan(l, w, i)
    ensures forall x {:trigger x in w} {:trigger x in l} :: x in w <==> x in l
    ensures NoDups(l) ==> NoDups(w)
  {
    assert l == l[..i] + l[i..];
    forall x ensures x in w <==> x in l {
      assert x in w <==> x in l[i..] || x in l[..i];
      assert x in l <==> x in l[i..] || x in l[..i];
    }
  }

  lemma ScanEmpty(l: seq<Ptr>, w: seq<Ptr>, i: nat)
    requires Scan(l, w, i)
    ensures w == [] <==> l == []
  {
  }

  /** The scan from the successor of index `j`. */
  function After(l: seq<Ptr>, j: nat): seq<Ptr>
    requires j < |l|
  {
    l[j + 1..] + l[..j] + [l[j]]
  }

  lemma ScanAfter(l: seq<Ptr>, j: nat)
    requires j < |l|
    ensures Scan(l, After(l, j), if j + 1 < |l| then j + 1 else 0) && After(l, j)[0] == NextIn(l, j)
  {
    assert l[..j] + [l[j]] == l[..j + 1];
    assert After(l, j) == l[j + 1..] + l[..j + 1];
  }

  /** Once the node at `j` has left the ring, the scan starts at its successor. */
  lemma ScanPast(l: seq<Ptr>, j: nat)
    requires j < |l|
    ensures var l' := Without(l, j);
            Scan(l', l[j + 1..] + l[..j], if j < |l'| then j else 0) &&
            (|l| > 1 ==> (l[j + 1..] + l[..j])[0] == NextIn(l, j))
  {
    var l' := Without(l, j);
    if j < |l'| {
      assert l'[j..] == l[j + 1..] && l'[..j] == l[..j];
    } else {
      assert l[j + 1..] + l[..j] == l' + [];
    }
  }

  /** The first thread stays in the ring and is passed over. */
  lemma ScanPass(l: seq<Ptr>, w: seq<Ptr>, i: nat)
    requires Scan(l, w, i) && w != []
    ensures Scan(l, w[1..] + [w[0]], if i + 1 < |l| then i + 1 else 0)
    ensures (w[1..] + [w[0]])[0] == NextIn(l, i)
  {
    assert w[1..] + [w[0]] == l[i + 1..] + l[..i] + [l[i]];
    ScanAfter(l, i);
  }

  /** The first thread leaves the ring. */
  lemma ScanDrop(l: seq<Ptr>, w: seq<Ptr>, i: nat)
    requires Scan(l, w, i) && w != []
    ensures Scan(Without(l, i), w[1..], if i < |l| - 1 then i else 0)
  {
    assert w[1..] == l[i + 1..] + l[..i];
    ScanPast(l, i);
  }

  /** A thread is added at the end of the ring. */
  lemma ScanAppend(l: seq<Ptr>, w: seq<Ptr>, i: nat, x: Ptr)
    requires Scan(l, w, i)
    ensures var w' := w[..|l| - i] + [x] + w[|l| - i..];
            Scan(l + [x], w', i) && (w != [] ==> w'[0] == w[0]) && forall y :: y in w' <==> y in w || y == x
  {
    var w' := w[..|l| - i] + [x] + w[|l| - i..];
    assert (l + [x])[i..] == l[i..] + [x];
    assert w == w[..|l| - i] + w[|l| - i..];
    forall y ensures y in w' <==> y in w || y == x {
      assert y in w <==> y in w[..|l| - i] || y in w[|l| - i..];
    }
  }

  /** What is left of a sequence once some nodes are gone. */
  function Remaining(l: seq<Ptr>, gone: set<Ptr>): seq<Ptr> {
    if l == [] then []
    else
      var r := Remaining(l[..|l| - 1], gone);
      if l[|l| - 1] in gone then r else r + [l[|l| - 1]]
  }

  lemma {:induction false} RemainingMembers(l: seq<Ptr>, gone: set<Ptr>)
    ensures forall x {:trigger x in Remaining(l, gone)} :: x in Remaining(l, gone) <==> x in l && x !in gone
    decreases |l|
  {
    if l != [] {
      var n := |l| - 1;
      RemainingMembers(l[..n], gone);
      assert l == l[..n] + [l[n]];
    }
  }

  lemma {:induction false} RemainingOther(l: seq<Ptr>, gone: set<Ptr>, x: Ptr)
    requires x !in l
    ensures Remaining(l, gone + {x}) == Remaining(l, gone)
    decreases |l|
  {
    if l != [] { RemainingOther(l[..|l| - 1], gone, x); }
  }

  lemma RemainingAll(l: seq<Ptr>)
    ensures Remaining(l, {}) == l
    decreases |l|
  {
    if l != [] {
      RemainingAll(l[..|l| - 1]);
      assert l == l[..|l| - 1] + [l[|l| - 1]];
    }
  }

  lemma {:induction false} RemainingDrop(l: seq<Ptr>, gone: set<Ptr>, i: nat)
    requires NoDups(l) && i < |Remaining(l, gone)|
    ensures Remaining(l, gone + {Remaining(l, gone)[i]}) == Without(Remaining(l, gone), i)
    decreases |l|
  {
    var r, n := Remaining(l, gone), |l| - 1;
    var r0 := Remaining(l[..n], gone);
    RemainingMembers(l[..n], gone);
    if i < |r0| {
      RemainingDrop(l[..n], gone, i);
      assert r0[i] in r0 && r[i] == r0[i];
      if l[n] !in gone { assert Without(r, i) == Without(r0, i) + [l[n]]; }
    } else {
      assert r == r0 + [l[n]] && r[i] == l[n];
      RemainingOther(l[..n], gone, l[n]);
      assert Without(r, i) == r0;
    }
  }

  lemma {:induction false} RemainingSplit(a: seq<Ptr>, b: seq<Ptr>, gone: set<Ptr>)
    ensures Remaining(a + b, gone) == Remaining(a, gone) + Remaining(b, gone)
    decreases |b|
  {
    if b == [] {
      assert a + b == a;
    } else {
      var n := |b| - 1;
      assert (a + b)[..|a + b| - 1] == a + b[..n];
      RemainingSplit(a, b[..n], gone);
    }
  }

  lemma {:induction false} RemainingNone(l: seq<Ptr>, gone: set<Ptr>)
    requires forall x | x in l :: x in gone
    ensures Remaining(l, gone) == []
    decreases |l|
  {
    if l != [] { RemainingNone(l[..|l| - 1], gone); }
  }

  /** The first index from `q` on whose node is left. */
  lemma {:induction false} FirstLeft(l: seq<Ptr>, q: nat, gone: set<Ptr>) returns (p: nat)
    requires q <= |l|
    ensures q <= p <= |l| && (forall k | q <= k < p :: l[k] in gone) && (p < |l| ==> l[p] !in gone)
    ensures Remaining(l[p..], gone) == Remaining(l[q..], gone) && Remaining(l[..p], gone) == Remaining(l[..q], gone)
    decreases |l| - q
  {
    if q == |l| || l[q] !in gone {
      p := q;
    } else {
      p := FirstLeft(l, q + 1, gone);
      AtIndex(l, q, gone);
    }
  }

  lemma AtIndex(l: seq<Ptr>, q: nat, gone: set<Ptr>)
    requires q < |l|
    ensures Remaining(l[q..], gone) == (if l[q] in gone then [] else [l[q]]) + Remaining(l[q + 1..], gone)
    ensures Remaining(l[..q + 1], gone) == Remaining(l[..q], gone) + if l[q] in gone then [] else [l[q]]
  {
    assert l[q..] == [l[q]] + l[q + 1..];
    RemainingSplit([l[q]], l[q + 1..], gone);
    assert l[..q + 1] == l[..q] + [l[q]];
    RemainingSplit(l[..q], [l[q]], gone);
    assert [l[q]][..0] == [];
  }

  /** What is left of `all`, read from index `q` around. */
  function Around(all: seq<Ptr>, q: nat, gone: set<Ptr>): seq<Ptr>
    requires q <= |all|
  {
    Remaining(all[q..], gone) + Remaining(all[..q], gone)
  }

  lemma AroundScan(all: seq<Ptr>, q: nat, gone: set<Ptr>)
    requires q <= |all|
    ensures Remaining(all, gone) == Remaining(all[..q], gone) + Remaining(all[q..], gone)
    ensures Around(all, q, gone) ==
            Remaining(all, gone)[|Remaining(all[..q], gone)|..] + Remaining(all, gone)[..|Remaining(all[..q], gone)|]
  {
    assert all == all[..q] + all[q..];
    RemainingSplit(all[..q], all[q..], gone);
  }

  lemma AroundPass(all: seq<Ptr>, q: nat, gone: set<Ptr>)
    requires q < |all| && all[q] !in gone
    ensures var w := Around(all, q, gone);
            w != [] && w[0] == all[q] && Around(all, q + 1, gone) == w[1..] + [w[0]]
  {
    AtIndex(all, q, gone);
  }

  lemma AroundDrop(all: seq<Ptr>, q: nat, gone: set<Ptr>)
    requires q < |all| && all[q] !in gone && NoDups(all)
    ensures var w := Around(all, q, gone);
            w != [] && w[0] == all[q] && Around(all, q + 1, gone + {all[q]}) == w[1..]
  {
    AtIndex(all, q, gone);
    AtIndex(all, q, gone + {all[q]});
    RemainingOther(all[q + 1..], gone, all[q]);
    RemainingOther(all[..q], gone, all[q]);
  }

  lemma AroundAppend(all: seq<Ptr>, q: nat, gone: set<Ptr>, x: Ptr)
    requires q <= |all| && x !in gone
    ensures Remaining(all + [x], gone) == Remaining(all, gone) + [x]
    ensures Around(all + [x], q, gone) == Remaining(all[q..], gone) + [x] + Remaining(all[..q], gone)
  {
    assert (all + [x])[..|all + [x]| - 1] == all;
    assert (all + [x])[q..] == all[q..] + [x] && (all + [x])[..q] == all[..q];
    RemainingSplit(all[q..], [x], gone);
    assert [x][..0] == [];
  }

  /** A ring without repetition has one scan from each node. */
  lemma ScanUnique(l: seq<Ptr>, w: seq<Ptr>, i: nat, w': seq<Ptr>, i': nat)
    requires NoDups(l) && Scan(l, w, i) && Scan(l, w', i') && w != [] && w' != [] && w[0] == w'[0]
    ensures w == w'
  {
    ScanHead(l, w, i);
    ScanHead(l, w', i');
    assert i == i';
  }

  function IndexOf(w: seq<Ptr>, x: Ptr): nat {
    if w == [] || w[0] == x then 0 else 1 + IndexOf(w[1..], x)
  }

  /** Passing one thread brings every later one nearer. */
  lemma {:induction false} IndexOfPass(w: seq<Ptr>, x: Ptr)
    requires x in w && w[0] != x
    ensures IndexOf(w[1..] + [w[0]], x) < IndexOf(w, x)
  {
    IndexOfPrefix(w[1..], [w[0]], x);
  }

  lemma {:induction false} IndexOfPrefix(a: seq<Ptr>, b: seq<Ptr>, x: Ptr)
    requires x in a
    ensures IndexOf(a + b, x) == IndexOf(a, x)
    decreases |a|
  {
    if a[0] != x {
      assert (a + b)[1..] == a[1..] + b;
      IndexOfPrefix(a[1..], b, x);
    }
  }

  // Round robin

  /** The position of the running thread after `m` calls on a ring of `n` ready threads. */
  function Turn(k: nat, m: nat, n: nat): nat
    requires k < n
  {
    if m == 0 then k else
      var j := Turn(k, m - 1, n);
      if j + 1 < n then j + 1 else 0
  }

  lemma {:induction false} TurnIs(k: nat, m: nat, n: nat)
    requires k < n && m <= n
    ensures Turn(k, m, n) == (if k + m < n then k + m else k + m - n)
    decreases m
  {
    if m > 0 { TurnIs(k, m - 1, n); }
  }

  /** Every position is reached within n calls. */
  lemma EveryTurn(k: nat, j: nat, n: nat) returns (m: nat)
    requires k < n && j < n
    ensures 1 <= m <= n && Turn(k, m, n) == j
  {
    m := if j > k then j - k else j + n - k;
    TurnIs(k, m, n);
  }
}
