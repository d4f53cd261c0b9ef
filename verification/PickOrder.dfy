/**
 * Which thread a scheduling call picks, in terms of the ring it started with
 * (src/kernel/scheduler/scheduler.c:723-877).
 *
 * A call that reaps may steal threads, which are put at the end of the ring while it is being scanned. `ring0 + taken`
 * is every thread the ring has held, in ring order; the scan starts behind index `j` and stands before index `q`. `lap`
 * is 0 until the scan goes past the end of the ring, and from then on the length of that sequence when it did.
 */
module PickOrder {
  import opened RunRing
  import opened TaskAccounts
  import opened ScanOrder
  import opened SchedulerFacts
  import opened Sequences

  /** The scan has examined index `k`. */
  predicate Examined(k: nat, j: nat, q: nat, lap: nat) {
    if lap == 0 then j < k < q else j < k < lap || k < q
  }

  /** Examined, and either unlinked or still waiting. */
  predicate Passed(m0: Threads, t0: Tasks, garbage: set<Ptr>, x: Ptr) {
    if x in garbage then Gone(m0, t0, x) else Waiting(m0, t0, x)
  }

  /**
   * The ring is what is left of all threads, and `w` what is left from index `q` around; only examined threads were
   * unlinked.
   */
  ghost predicate Ordered(m0: Threads, t0: Tasks, ring0: seq<Ptr>, taken: seq<Ptr>, ring: seq<Ptr>, w: seq<Ptr>,
                          garbage: set<Ptr>, j: nat, q: nat, lap: nat) {
    var all := ring0 + taken;
    && NoDups(all) && j < |ring0| && q <= |all| && (lap == 0 || |ring0| <= lap <= |all|) && (lap == 0 ==> j < q)
    && ring == Remaining(all, garbage) && w == Around(all, q, garbage)
    && (forall x {:trigger x in garbage} | x in garbage :: x in all && Gone(m0, t0, x))
    && (forall k: nat {:trigger all[k]} | k < |all| && Examined(k, j, q, lap) :: Passed(m0, t0, garbage, all[k]))
    && (forall k: nat {:trigger all[k]} | k < |all| && !Examined(k, j, q, lap) && k != j :: all[k] !in garbage)
  }

  /** The scan stands at its next thread. */
  ghost predicate Settled(all: seq<Ptr>, w: seq<Ptr>, q: nat) {
    w != [] ==> q < |all| && all[q] == w[0]
  }

  lemma AroundMembers(all: seq<Ptr>, q: nat, garbage: set<Ptr>)
    requires q <= |all|
    ensures forall x {:trigger x in Around(all, q, garbage)} {:trigger x in all} ::
              x in Around(all, q, garbage) <==> x in all && x !in garbage
  {
    RemainingMembers(all[q..], garbage);
    RemainingMembers(all[..q], garbage);
    assert all == all[..q] + all[q..];
  }

  /** Unlinked threads ahead are skipped. */
  lemma SkipGone(m0: Threads, t0: Tasks, ring0: seq<Ptr>, taken: seq<Ptr>, ring: seq<Ptr>, w: seq<Ptr>,
                 garbage: set<Ptr>, j: nat, q: nat, lap: nat)
    returns (p: nat)
    requires Ordered(m0, t0, ring0, taken, ring, w, garbage, j, q, lap)
    ensures Ordered(m0, t0, ring0, taken, ring, w, garbage, j, p, lap)
    ensures (p < |ring0 + taken| ==> (ring0 + taken)[p] !in garbage)
  {
    hide Gone, Waiting, Remaining, NoDups;
    var all := ring0 + taken;
    p := FirstLeft(all, q, garbage);
    forall k: nat {:trigger all[k]} | k < |all| && Examined(k, j, p, lap) ensures Passed(m0, t0, garbage, all[k]) {
      if q <= k < p { assert all[k] in garbage; }
    }
  }

  lemma AllWaiting(m0: Threads, t0: Tasks, ring0: seq<Ptr>, taken: seq<Ptr>, ring: seq<Ptr>, w: seq<Ptr>,
                   garbage: set<Ptr>, j: nat, lap: nat)
    requires Ordered(m0, t0, ring0, taken, ring, w, garbage, j, |ring0 + taken|, lap) && lap != 0
    ensures forall x {:trigger x in w} | x in w :: Waiting(m0, t0, x)
  {
    hide Remaining, Gone, Waiting;
    var all := ring0 + taken;
    AroundMembers(all, |all|, garbage);
    forall x {:trigger x in w} | x in w ensures Waiting(m0, t0, x) {
      var k :| 0 <= k < |all| && all[k] == x;
      assert Examined(k, j, |all|, lap) && Passed(m0, t0, garbage, all[k]);
    }
  }

  /**
   * The scan does not go round a second time: then everything would be waiting, and something would be ahead that is
   * not.
   */
  lemma NotRound(m0: Threads, t0: Tasks, ring0: seq<Ptr>, taken: seq<Ptr>, ring: seq<Ptr>, w: seq<Ptr>,
                 garbage: set<Ptr>, j: nat, lap: nat, wit: Ptr)
    requires Ordered(m0, t0, ring0, taken, ring, w, garbage, j, |ring0 + taken|, lap) && Hopeful(m0, t0, ring0, w, wit)
    requires w != []
    ensures lap == 0
  {
    hide Remaining, Ordered;
    assert w[0] in w;
    if lap != 0 { AllWaiting(m0, t0, ring0, taken, ring, w, garbage, j, lap); }
  }

  /** Past the end of the ring the scan goes on at its start. */
  lemma Wrap(m0: Threads, t0: Tasks, ring0: seq<Ptr>, taken: seq<Ptr>, ring: seq<Ptr>, w: seq<Ptr>, garbage: set<Ptr>,
             j: nat)
    requires Ordered(m0, t0, ring0, taken, ring, w, garbage, j, |ring0 + taken|, 0)
    ensures Ordered(m0, t0, ring0, taken, ring, w, garbage, j, 0, |ring0 + taken|)
  {
    hide Gone, Waiting;
    var all := ring0 + taken;
    assert all[..|all|] == all && all[|all|..] == [] && all[0..] == all && all[..0] == [];
    forall k: nat {:trigger all[k]} | k < |all| && Examined(k, j, 0, |all|) ensures Passed(m0, t0, garbage, all[k]) {
      assert Examined(k, j, |all|, 0);
    }
    forall k: nat {:trigger all[k]} | k < |all| && !Examined(k, j, 0, |all|) && k != j ensures all[k] !in garbage {
      assert !Examined(k, j, |all|, 0);
    }
  }

  lemma Settle(m0: Threads, t0: Tasks, ring0: seq<Ptr>, taken: seq<Ptr>, ring: seq<Ptr>, w: seq<Ptr>, garbage: set<Ptr>,
               j: nat, q: nat, lap: nat, wit: Ptr)
    returns (q': nat, lap': nat)
    requires Ordered(m0, t0, ring0, taken, ring, w, garbage, j, q, lap) && Hopeful(m0, t0, ring0, w, wit)
    ensures Ordered(m0, t0, ring0, taken, ring, w, garbage, j, q', lap') && Settled(ring0 + taken, w, q')
  {
    hide Gone, Waiting, Hopeful;
    var all := ring0 + taken;
    q' := SkipGone(m0, t0, ring0, taken, ring, w, garbage, j, q, lap);
    lap' := lap;
    if w != [] && q' == |all| {
      NotRound(m0, t0, ring0, taken, ring, w, garbage, j, lap, wit);
      Wrap(m0, t0, ring0, taken, ring, w, garbage, j);
      lap' := |all|;
      q' := SkipGone(m0, t0, ring0, taken, ring, w, garbage, j, 0, lap');
      if q' == |all| { NotRound(m0, t0, ring0, taken, ring, w, garbage, j, lap', wit); }
    }
    if w != [] { AroundPass(all, q', garbage); }
  }

  lemma OrderedPass(m0: Threads, t0: Tasks, ring0: seq<Ptr>, taken: seq<Ptr>, ring: seq<Ptr>, w: seq<Ptr>,
                    garbage: set<Ptr>, j: nat, q: nat, lap: nat)
    requires Ordered(m0, t0, ring0, taken, ring, w, garbage, j, q, lap) && Settled(ring0 + taken, w, q)
    requires w != [] && w[0] !in garbage && Waiting(m0, t0, w[0])
    ensures Ordered(m0, t0, ring0, taken, ring, w[1..] + [w[0]], garbage, j, q + 1, lap)
  {
    hide Gone, Waiting;
    var all := ring0 + taken;
    AroundPass(all, q, garbage);
    forall k: nat {:trigger all[k]} | k < |all| && Examined(k, j, q + 1, lap) ensures Passed(m0, t0, garbage, all[k]) {
      assert k == q || Examined(k, j, q, lap);
    }
  }

  lemma OrderedDrop(m0: Threads, t0: Tasks, ring0: seq<Ptr>, taken: seq<Ptr>, ring: seq<Ptr>, w: seq<Ptr>, i: nat,
                    garbage: set<Ptr>, j: nat, q: nat, lap: nat)
    requires Ordered(m0, t0, ring0, taken, ring, w, garbage, j, q, lap) && Settled(ring0 + taken, w, q)
    requires Scan(ring, w, i)
    requires w != [] && Gone(m0, t0, w[0])
    ensures i < |ring| && Ordered(m0, t0, ring0, taken, Without(ring, i), w[1..], garbage + {w[0]}, j, q + 1, lap)
  {
    hide Remaining;
    var all, x, garbage' := ring0 + taken, w[0], garbage + {w[0]};
    ScanHead(ring, w, i);
    AroundMembers(all, q, garbage);
    assert x in w;
    AroundDrop(all, q, garbage);
    RemainingDrop(all, garbage, i);
    forall k: nat {:trigger all[k]} | k < |all| && Examined(k, j, q + 1, lap) ensures Passed(m0, t0, garbage', all[k]) {
      assert k == q || Examined(k, j, q, lap);
    }
    forall k: nat {:trigger all[k]} | k < |all| && !Examined(k, j, q + 1, lap) && k != j ensures all[k] !in garbage' {
      assert !Examined(k, j, q, lap) && k != q;
    }
  }

  /** A thread is put at the end of the ring behind the scan's next thread, or alone into an empty ring. */
  lemma OrderedTake(m0: Threads, t0: Tasks, ring0: seq<Ptr>, taken: seq<Ptr>, ring: seq<Ptr>, w: seq<Ptr>,
                    garbage: set<Ptr>, j: nat, q: nat, lap: nat, x: Ptr, w': seq<Ptr>, i': nat)
    returns (q': nat)
    requires Ordered(m0, t0, ring0, taken, ring, w, garbage, j, q, lap) && Settled(ring0 + taken, w, q)
    requires x !in garbage && NoDups(ring + [x]) && Scan(ring + [x], w', i') && (w != [] ==> w' != [] && w'[0] == w[0])
    requires (w == [] ==> w' == ring + [x])
    ensures Ordered(m0, t0, ring0, taken + [x], ring + [x], w', garbage, j, q', lap)
    ensures Settled(ring0 + (taken + [x]), w', q')
  {
    hide Remaining, Gone, Waiting, NoDups, Scan;
    var all := ring0 + taken;
    assert ring0 + (taken + [x]) == all + [x];
    NewThread(ring, all, garbage, x);
    if w == [] { q' := EmptyAround(m0, t0, ring0, taken, ring, w, garbage, j, q, lap); } else { q' := q; }
    AppendedScan(all, q', garbage, w, x, w', i');
    AppendedPassed(m0, t0, all, garbage, j, q', lap, x);
  }

  lemma AppendedScan(all: seq<Ptr>, q: nat, garbage: set<Ptr>, w: seq<Ptr>, x: Ptr, w': seq<Ptr>, i': nat)
    requires q <= |all| && w == Around(all, q, garbage) && x !in garbage && NoDups(Remaining(all, garbage) + [x])
    requires if w == [] then w' == Remaining(all, garbage) + [x] && q == |all|
             else q < |all| && all[q] == w[0] && w' != [] && w'[0] == w[0]
    requires Scan(Remaining(all, garbage) + [x], w', i')
    ensures Remaining(all + [x], garbage) == Remaining(all, garbage) + [x] && w' == Around(all + [x], q, garbage)
    ensures Settled(all + [x], w', q)
  {
    hide Remaining, NoDups;
    AroundAppend(all, q, garbage, x);
    AroundScan(all, q, garbage);
    if w != [] {
      StandsAt(all, q, garbage, x);
      ScanUnique(Remaining(all, garbage) + [x], w', i', Around(all + [x], q, garbage), |Remaining(all[..q], garbage)|);
    }
  }

  lemma AppendedPassed(m0: Threads, t0: Tasks, all: seq<Ptr>, garbage: set<Ptr>, j: nat, q: nat, lap: nat, x: Ptr)
    requires q <= |all| && lap <= |all| && x !in garbage
    requires forall k: nat {:trigger all[k]} | k < |all| && Examined(k, j, q, lap) :: Passed(m0, t0, garbage, all[k])
    requires forall k: nat {:trigger all[k]} | k < |all| && !Examined(k, j, q, lap) && k != j :: all[k] !in garbage
    ensures var all' := all + [x];
            && (forall k: nat {:trigger all'[k]} | k < |all'| && Examined(k, j, q, lap) ::
                  Passed(m0, t0, garbage, all'[k]))
            && (forall k: nat {:trigger all'[k]} | k < |all'| && !Examined(k, j, q, lap) && k != j ::
                  all'[k] !in garbage)
  {
    var all' := all + [x];
    forall k: nat {:trigger all'[k]} | k < |all'|
      ensures Examined(k, j, q, lap) ==> Passed(m0, t0, garbage, all'[k])
      ensures !Examined(k, j, q, lap) && k != j ==> all'[k] !in garbage
    {
      if k < |all| { assert all'[k] == all[k]; }
    }
  }

  lemma StandsAt(all: seq<Ptr>, q: nat, garbage: set<Ptr>, x: Ptr)
    requires q < |all| && Around(all, q, garbage) != [] && Around(all, q, garbage)[0] == all[q] && x !in garbage
    ensures all[q] !in garbage && Remaining(all[q..], garbage) != [] && Remaining(all[q..], garbage)[0] == all[q]
    ensures Scan(Remaining(all, garbage) + [x], Around(all + [x], q, garbage), |Remaining(all[..q], garbage)|)
  {
    hide Remaining;
    AroundMembers(all, q, garbage);
    assert Around(all, q, garbage)[0] in Around(all, q, garbage);
    AtIndex(all, q, garbage);
    AroundScan(all, q, garbage);
    AroundAppend(all, q, garbage, x);
  }

  /** When nothing is left, every thread was examined or the one the call started with. */
  lemma EmptyAround(m0: Threads, t0: Tasks, ring0: seq<Ptr>, taken: seq<Ptr>, ring: seq<Ptr>, w: seq<Ptr>,
                    garbage: set<Ptr>, j: nat, q: nat, lap: nat)
    returns (q': nat)
    requires Ordered(m0, t0, ring0, taken, ring, w, garbage, j, q, lap) && w == []
    ensures q' == |ring0 + taken| && Ordered(m0, t0, ring0, taken, ring, w, garbage, j, q', lap)
  {
    var all := ring0 + taken;
    q' := |all|;
    AroundMembers(all, q, garbage);
    assert forall x | x in all :: x in garbage;
    RemainingNone(all, garbage);
    assert all[q'..] == [] && all[..q'] == all;
  }

  lemma NewThread(ring: seq<Ptr>, all: seq<Ptr>, garbage: set<Ptr>, x: Ptr)
    requires NoDups(all) && ring == Remaining(all, garbage) && NoDups(ring + [x]) && x !in garbage
    ensures x !in all && NoDups(all + [x])
  {
    RemainingMembers(all, garbage);
    forall a | 0 <= a < |ring| ensures ring[a] != x { assert (ring + [x])[a] != (ring + [x])[|ring|]; }
    assert x !in Remaining(all, garbage);
  }

  // A whole call

  lemma OrderedStart(m0: Threads, t0: Tasks, ring: seq<Ptr>, j: nat)
    requires NoDups(ring) && j < |ring|
    ensures Ordered(m0, t0, ring, [], ring, After(ring, j), {}, j, j + 1, 0)
    ensures Scan(ring, After(ring, j), if j + 1 < |ring| then j + 1 else 0) && After(ring, j) != []
    ensures After(ring, j)[0] == NextIn(ring, j)
  {
    hide Remaining, Scan, NoDups, Gone, Waiting;
    ScanAfter(ring, j);
    assert ring + [] == ring;
    RemainingAll(ring);
    RemainingAll(ring[j + 1..]);
    RemainingAll(ring[..j + 1]);
    assert ring[..j] + [ring[j]] == ring[..j + 1];
  }

  /** The thread was killed, and is reaped first. */
  lemma OrderedFromDead(m0: Threads, t0: Tasks, ring: seq<Ptr>, j: nat)
    requires NoDups(ring) && j < |ring| && Gone(m0, t0, ring[j])
    ensures var w := FromHere(ring, j);
            && Scan(ring, w, j) && w != [] && w[0] == ring[j]
            && Ordered(m0, t0, ring, [], Without(ring, j), w[1..], {ring[j]}, j, j + 1, 0)
  {
    hide Remaining, Waiting;
    var w := FromHere(ring, j);
    assert ring + [] == ring;
    RemainingAll(ring);
    RemainingDrop(ring, {}, j);
    assert {} + {ring[j]} == {ring[j]};
    RemainingAll(ring[j..]);
    RemainingAll(ring[..j]);
    AroundDrop(ring, j, {});
  }

  /**
   * What a call did: it passed the threads up to index `p`, reaped those to be reaped among them, left the others
   * waiting.
   */
  ghost predicate PickedInOrder(mem: Threads, tasks: Tasks, ring: seq<Ptr>, taken: seq<Ptr>, j: nat, freed: seq<Ptr>,
                                s: Ptr, p: nat, lap: nat)
    requires j < |ring|
  {
    var all := ring + taken;
    && NoDups(all) && p < |all| && all[p] == s && Candidate(mem, tasks, ring[j], s)
    && (lap == 0 || |ring| <= lap <= |all|) && (lap == 0 ==> j < p)
    && (forall k: nat {:trigger all[k]} | k < |all| && Examined(k, j, p, lap) ::
          if all[k] in freed then Gone(mem, tasks, all[k]) else Waiting(mem, tasks, all[k]))
    && (forall k: nat {:trigger all[k]} | k < |all| && !Examined(k, j, p, lap) && k != j :: all[k] !in freed)
  }

  lemma OrderedPicked(mem: Threads, t0: Tasks, ring0: seq<Ptr>, taken: seq<Ptr>, j: nat, ring: seq<Ptr>, w: seq<Ptr>,
                      freed: seq<Ptr>, q: nat, lap: nat)
    requires j < |ring0| && ring0[j] in mem && ring0[j] != 0 && w != [] && Settled(ring0 + taken, w, q)
    requires Ordered(Yielded(mem, ring0[j]), t0, ring0, taken, ring, w, AsSet(freed), j, q, lap)
    requires Candidate(mem, t0, ring0[j], w[0])
    ensures PickedInOrder(mem, t0, ring0, taken, j, freed, w[0], q, lap)
  {
    var m0, all := Yielded(mem, ring0[j]), ring0 + taken;
    YieldedSame(mem, t0, ring0[j]);
    hide Gone, Waiting, Yielded, Remaining, Candidate;
    forall k: nat {:trigger all[k]} | k < |all| && Examined(k, j, q, lap)
      ensures if all[k] in freed then Gone(mem, t0, all[k]) else Waiting(mem, t0, all[k])
    {
      assert Passed(m0, t0, AsSet(freed), all[k]);
      assert Gone(m0, t0, all[k]) <==> Gone(mem, t0, all[k]);
      assert Waiting(m0, t0, all[k]) <==> Waiting(mem, t0, all[k]);
    }
    forall k: nat {:trigger all[k]} | k < |all| && !Examined(k, j, q, lap) && k != j ensures all[k] !in freed {
      assert all[k] !in AsSet(freed);
    }
  }

  lemma OrderedRing(m0: Threads, t0: Tasks, ring0: seq<Ptr>, taken: seq<Ptr>, ring: seq<Ptr>, w: seq<Ptr>,
                    garbage: set<Ptr>, j: nat, q: nat, lap: nat)
    requires Ordered(m0, t0, ring0, taken, ring, w, garbage, j, q, lap)
    ensures ring == Remaining(ring0 + taken, garbage) && NoDups(ring0 + taken)
  {
  }

  lemma CandidateStays(mem: Threads, tasks: Tasks, cur: Ptr, x: Ptr)
    ensures Candidate(mem, tasks, cur, x) ==> !Gone(mem, tasks, x) && !Waiting(mem, tasks, x)
  {
  }

  /**
   * The picked thread is the first candidate behind the current one, in the order of the old ring, or was stolen when
   * there was none.
   */
  lemma FirstCandidate(mem: Threads, tasks: Tasks, ring: seq<Ptr>, taken: seq<Ptr>, j: nat, freed: seq<Ptr>, s: Ptr,
                       p: nat, lap: nat)
    requires j < |ring| && PickedInOrder(mem, tasks, ring, taken, j, freed, s, p, lap)
    ensures s in ring ==>
              forall k | 0 <= k < IndexOf(After(ring, j), s) && k < |ring| ::
                !Candidate(mem, tasks, ring[j], After(ring, j)[k])
    ensures s in taken ==> forall k | j < k < |ring| :: !Candidate(mem, tasks, ring[j], ring[k])
  {
    hide Candidate, Gone, Waiting, NoDups;
    var all := ring + taken;
    forall k: nat {:trigger all[k]} | k < |all| && Examined(k, j, p, lap)
      ensures !Candidate(mem, tasks, ring[j], all[k])
    {
      CandidateStays(mem, tasks, ring[j], all[k]);
    }
    PlaceIn(ring, taken, s, p);
    if s in taken {
      forall k | j < k < |ring| ensures !Candidate(mem, tasks, ring[j], ring[k]) { assert all[k] == ring[k]; }
    } else {
      assert !Examined(p, j, p, lap);
      ScanAfter(ring, j);
      AfterIndex(ring, j, p);
      forall k | 0 <= k < IndexOf(After(ring, j), s) && k < |ring|
        ensures !Candidate(mem, tasks, ring[j], After(ring, j)[k])
      {
        var at := if j + 1 + k < |ring| then j + 1 + k else j + 1 + k - |ring|;
        assert After(ring, j)[k] == ring[at] == all[at];
      }
    }
  }

  lemma PlaceIn(ring: seq<Ptr>, taken: seq<Ptr>, s: Ptr, p: nat)
    requires NoDups(ring + taken) && p < |ring + taken| && (ring + taken)[p] == s
    ensures (s in ring <==> p < |ring|) && (s in taken <==> |ring| <= p) && NoDups(ring)
  {
    var all := ring + taken;
    if s in ring { var a :| 0 <= a < |ring| && ring[a] == s; assert all[a] == s; }
    if s in taken { var a :| 0 <= a < |taken| && taken[a] == s; assert all[|ring| + a] == s; }
    if p < |ring| { assert ring[p] == s; } else { assert taken[p - |ring|] == s; }
    forall a, b | 0 <= a < b < |ring| ensures ring[a] != ring[b] { assert all[a] != all[b]; }
  }

  lemma AfterIndex(ring: seq<Ptr>, j: nat, p: nat)
    requires NoDups(ring) && j < |ring| && p < |ring|
    ensures IndexOf(After(ring, j), ring[p]) == if p > j then p - j - 1 else p + |ring| - j - 1
  {
    var r, at := After(ring, j), if p > j then p - j - 1 else p + |ring| - j - 1;
    forall k | 0 <= k < at ensures r[k] != r[at] { }
    IndexIs(r, at);
  }

  lemma {:induction false} IndexIs(r: seq<Ptr>, at: nat)
    requires at < |r| && forall k | 0 <= k < at :: r[k] != r[at]
    ensures IndexOf(r, r[at]) == at
    decreases at
  {
    if at > 0 {
      assert r[1..][at - 1] == r[at];
      IndexIs(r[1..], at - 1);
    }
  }

  /** A waiting thread is passed over. */
  lemma PassStep(m0: Threads, t0: Tasks, ring0: seq<Ptr>, taken: seq<Ptr>, mem: Threads, heads: seq<Ptr>,
                 rings: seq<seq<Ptr>>, c: nat, w: seq<Ptr>, i: nat, garbage: set<Ptr>, j: nat, q: nat, lap: nat,
                 wit: Ptr)
    returns (q': nat, lap': nat)
    requires Rings(mem, heads, rings) && c < |rings| && Scan(rings[c], w, i) && w != []
    requires Hopeful(m0, t0, ring0, w, wit)
    requires Ordered(m0, t0, ring0, taken, rings[c], w, garbage, j, q, lap) && Settled(ring0 + taken, w, q)
    requires w[0] !in garbage && w[0] in m0 && m0[w[0]].state == New && !DyingOwner(m0, t0, w[0])
    ensures var w' := w[1..] + [w[0]];
            && Scan(rings[c], w', if i + 1 < |rings[c]| then i + 1 else 0)
            && wit != 0 && Hopeful(m0, t0, ring0, w', wit) && IndexOf(w', wit) < IndexOf(w, wit)
            && Ordered(m0, t0, ring0, taken, rings[c], w', garbage, j, q', lap') && Settled(ring0 + taken, w', q')
            && w[0] in mem && mem[w[0]].next == w'[0]
  {
    hide Rings, Hopeful, Ordered, Scan, IndexOf, Settled;
    MarkWaiting(m0, t0, w[0]);
    HopefulPass(m0, t0, ring0, w, wit);
    OrderedPass(m0, t0, ring0, taken, rings[c], w, garbage, j, q, lap);
    q', lap' := Settle(m0, t0, ring0, taken, rings[c], w[1..] + [w[0]], garbage, j, q + 1, lap, wit);
    ScanHead(rings[c], w, i);
    ScanPass(rings[c], w, i);
    NextPointer(mem, heads, rings, c, i);
  }

  /** The scan's next thread left the ring, and one may have been stolen. */
  lemma ReapStep(m0: Threads, t0: Tasks, ring0: seq<Ptr>, taken: seq<Ptr>, ring: seq<Ptr>, w: seq<Ptr>, i: nat,
                 garbage: set<Ptr>, j: nat, q: nat, lap: nat, wit: Ptr, stolen: Ptr, ring': seq<Ptr>, w': seq<Ptr>,
                 i': nat)
    returns (taken': seq<Ptr>, q': nat, lap': nat)
    requires Ordered(m0, t0, ring0, taken, ring, w, garbage, j, q, lap) && Settled(ring0 + taken, w, q)
    requires Scan(ring, w, i)
    requires w != [] && Gone(m0, t0, w[0]) && Hopeful(m0, t0, ring0, w, wit) && i < |ring|
    requires ScanReaped(ring, w, i, garbage + {w[0]}, stolen, ring', w', i')
    ensures Ordered(m0, t0, ring0, taken', ring', w', garbage + {w[0]}, j, q', lap') && Settled(ring0 + taken', w', q')
    ensures taken' == taken + if stolen == 0 then [] else [stolen]
  {
    hide Ordered, Gone, Hopeful, Settled;
    OrderedDrop(m0, t0, ring0, taken, ring, w, i, garbage, j, q, lap);
    HopefulTail(m0, t0, ring0, w, wit);
    q', lap' := Settle(m0, t0, ring0, taken, Without(ring, i), w[1..], garbage + {w[0]}, j, q + 1, lap, wit);
    if stolen == 0 {
      assert ring' == Without(ring, i);
      taken' := taken;
    } else {
      taken' := taken + [stolen];
      q' := OrderedTake(m0, t0, ring0, taken, Without(ring, i), w[1..], garbage + {w[0]}, j, q', lap', stolen, w', i');
    }
  }

  /** The current thread was dead and left the ring first. */
  lemma ReapCurrent(m0: Threads, t0: Tasks, ring: seq<Ptr>, j: nat, wit: Ptr, stolen: Ptr, ring': seq<Ptr>,
                    w': seq<Ptr>, i': nat)
    returns (taken: seq<Ptr>, q: nat, lap: nat)
    requires NoDups(ring) && j < |ring| && Gone(m0, t0, ring[j]) && Hopeful(m0, t0, ring, FromHere(ring, j), wit)
    requires ScanReaped(ring, FromHere(ring, j), j, {ring[j]}, stolen, ring', w', i')
    ensures Ordered(m0, t0, ring, taken, ring', w', {ring[j]}, j, q, lap) && Settled(ring + taken, w', q)
    ensures taken == if stolen == 0 then [] else [stolen]
  {
    var w := FromHere(ring, j);
    OrderedFromDead(m0, t0, ring, j);
    HopefulTail(m0, t0, ring, w, wit);
    hide Ordered, Gone, Hopeful, Settled, FromHere;
    q, lap := Settle(m0, t0, ring, [], Without(ring, j), w[1..], {ring[j]}, j, j + 1, 0, wit);
    if stolen == 0 {
      assert ring' == Without(ring, j);
      taken := [];
    } else {
      taken := [] + [stolen];
      q := OrderedTake(m0, t0, ring, [], Without(ring, j), w[1..], {ring[j]}, j, q, lap, stolen, w', i');
    }
  }

  /** The first thread reaped was in the ring when the call began. */
  lemma FirstReaped(m0: Threads, t0: Tasks, ring0: seq<Ptr>, ring: seq<Ptr>, w: seq<Ptr>, i: nat, garbage: set<Ptr>,
                    j: nat, q: nat, lap: nat)
    requires Ordered(m0, t0, ring0, [], ring, w, garbage, j, q, lap) && Scan(ring, w, i) && w != []
    ensures w[0] in ring0
  {
    assert ring0 + [] == ring0;
    ScanHead(ring, w, i);
    RemainingMembers(ring0, garbage);
    assert ring[i] in ring;
  }

  // Round robin

  ghost predicate AllCandidates(mem: Threads, tasks: Tasks, ring: seq<Ptr>, cur: Ptr) {
    forall x {:trigger Candidate(mem, tasks, cur, x)} | x in ring :: Candidate(mem, tasks, cur, x)
  }

  lemma NothingReaped(mem: Threads, tasks: Tasks, ring: seq<Ptr>, cur: Ptr, freed: seq<Ptr>)
    requires AllCandidates(mem, tasks, ring, cur) && (forall x | x in freed :: Gone(mem, tasks, x))
    requires (freed != [] ==> freed[0] in ring)
    ensures freed == []
  {
    if freed != [] { CandidateStays(mem, tasks, cur, freed[0]); }
  }

  lemma NextPicked(mem: Threads, tasks: Tasks, ring: seq<Ptr>, j: nat, s: Ptr, p: nat, lap: nat)
    requires j < |ring| && AllCandidates(mem, tasks, ring, ring[j])
    requires PickedInOrder(mem, tasks, ring, [], j, [], s, p, lap)
    ensures s == NextIn(ring, j)
  {
    hide Candidate, Gone, Waiting, NoDups;
    assert ring + [] == ring;
    var next := if j + 1 < |ring| then j + 1 else 0;
    assert ring[next] in ring && Candidate(mem, tasks, ring[j], ring[next]);
    CandidateStays(mem, tasks, ring[j], ring[next]);
    assert !Examined(next, j, p, lap);
    assert ring[p] in ring && Candidate(mem, tasks, ring[j], ring[p]);
    CandidateStays(mem, tasks, ring[j], ring[p]);
    assert !Examined(p, j, p, lap);
  }

  /** With only candidates in the ring a call reaps nothing and picks the next thread in the ring. */
  lemma RoundStep(mem: Threads, tasks: Tasks, ring: seq<Ptr>, taken: seq<Ptr>, j: nat, mem': Threads, tasks': Tasks,
                  ring': seq<Ptr>, freed: seq<Ptr>, s: Ptr, p: nat, lap: nat)
    requires j < |ring| && ring[j] != 0 && ring[j] in mem && AllCandidates(mem, tasks, ring, ring[j])
    requires forall x | x in freed :: Gone(mem, tasks, x)
    requires freed != [] ==> freed[0] in ring
    requires |taken| <= |freed| && ring' == Remaining(ring + taken, AsSet(freed)) && (s == 0 ==> ring' == [])
    requires s != 0 ==> PickedInOrder(mem, tasks, ring, taken, j, freed, s, p, lap)
    requires Decided(mem, ring[j], mem', s) && TaskStates(tasks, tasks') && mem'.Keys == mem.Keys - AsSet(freed)
    requires s != 0 ==> s in mem' && mem'[s].state == Running
    ensures freed == [] && taken == [] && ring' == ring && s == NextIn(ring, j) && AllCandidates(mem', tasks', ring, s)
  {
    hide Remaining, TaskStates, Decided, PickedInOrder, DyingOwner, Gone;
    NothingReaped(mem, tasks, ring, ring[j], freed);
    assert AsSet(freed) == {} && taken == [] && ring + taken == ring;
    RemainingAll(ring);
    NextPicked(mem, tasks, ring, j, s, p, lap);
    forall x {:trigger Candidate(mem', tasks', s, x)} | x in ring ensures Candidate(mem', tasks', s, x) {
      assert Candidate(mem, tasks, ring[j], x);
      StillCandidate(mem, tasks, ring[j], mem', tasks', s, x);
    }
  }

  lemma StillCandidate(mem: Threads, tasks: Tasks, cur: Ptr, mem': Threads, tasks': Tasks, s: Ptr, x: Ptr)
    requires cur in mem && Candidate(mem, tasks, cur, x) && Decided(mem, cur, mem', s) && TaskStates(tasks, tasks')
    requires x in mem'
    requires s in mem' && mem'[s].state == Running
    ensures Candidate(mem', tasks', s, x)
  {
    assert mem'[x].owner == mem[x].owner;
    if mem[x].owner in tasks {
      assert tasks'[mem[x].owner].state == tasks[mem[x].owner].state || tasks'[mem[x].owner].state == DeadTask;
    }
  }

  lemma CurrentCandidate(mem: Threads, tasks: Tasks, ring: seq<Ptr>, k: nat)
    requires k < |ring| && AllCandidates(mem, tasks, ring, ring[k])
    ensures ring[k] in ring && Candidate(mem, tasks, ring[k], ring[k]) && ring[k] in mem
  {
  }
}
