/** What the locked sections of the scheduler keep. */
module SchedulerFacts {
  import opened RunRing
  import opened TaskAccounts
  import opened ScanOrder
  import opened Sequences

  ghost predicate Counted(counts: seq<nat>, rings: seq<seq<Ptr>>) {
    |counts| == |rings| && forall c: nat {:trigger counts[c]} | c < |rings| :: counts[c] == |rings[c]|
  }

  /** Every node in memory is linked, or is dead, unlinked and waiting to be freed. */
  ghost predicate Kept(mem: Threads, rings: seq<seq<Ptr>>, garbage: set<Ptr>) {
    && (forall p {:trigger Linked(mem, rings, p)} | p in mem :: (Linked(mem, rings, p) <==> p !in garbage))
    && (forall p {:trigger mem[p]} | p in mem :: mem[p].state != Sleeping && (p in garbage ==> mem[p].state == Dead))
    && garbage <= mem.Keys
  }

  /** Only the current thread of a queue can be running, and the current thread is running or was killed. */
  ghost predicate CurrentOk(mem: Threads, cur: Ptr, ring: seq<Ptr>) {
    && (cur != 0 ==> cur in ring && cur in mem && (mem[cur].state == Running || mem[cur].state == Dead))
    && (forall p {:trigger mem[p]} | p in ring && p in mem && mem[p].state == Running :: p == cur)
  }

  ghost predicate CurrentsExcept(mem: Threads, current: seq<Ptr>, rings: seq<seq<Ptr>>, c: nat) {
    |current| == |rings| &&
    forall q: nat {:trigger CurrentOk(mem, current[q], rings[q])} | q < |rings| && q != c ::
      CurrentOk(mem, current[q], rings[q])
  }

  ghost predicate NoneRunning(mem: Threads, ring: seq<Ptr>) {
    forall p {:trigger mem[p]} | p in ring && p in mem :: mem[p].state != Running
  }

  /** A node that is neither running nor current anywhere else changes rings. */
  lemma CurrentsMoved(mem: Threads, rings: seq<seq<Ptr>>, mem1: Threads, rings1: seq<seq<Ptr>>, mem2: Threads,
                      rings2: seq<seq<Ptr>>, current: seq<Ptr>, p: Ptr, v: nat, k: nat, c: nat)
    requires CurrentsExcept(mem, current, rings, c) && v < |current| && current[v] != p && v != c
    requires NodeDropped(mem, rings, mem1, rings1, p, v, k) && NodeAdded(mem1, rings1, mem2, rings2, p, c)
    ensures CurrentsExcept(mem2, current, rings2, c)
  {
    WithoutMembers(rings[v], k);
    forall q: nat {:trigger CurrentOk(mem2, current[q], rings2[q])} | q < |rings2| && q != c
      ensures CurrentOk(mem2, current[q], rings2[q])
    {
      assert CurrentOk(mem, current[q], rings[q]);
      forall x | x in rings2[q] && x in mem2 && mem2[x].state == Running ensures x == current[q] {
        assert x in mem && mem[x].state == mem1[x].state;
      }
      if current[q] != 0 { assert mem2[current[q]].state == mem1[current[q]].state == mem[current[q]].state; }
    }
  }

  lemma CurrentsSame(mem: Threads, rings: seq<seq<Ptr>>, mem': Threads, rings': seq<seq<Ptr>>, current: seq<Ptr>,
                     current': seq<Ptr>, p: Ptr, c: nat)
    requires CurrentsExcept(mem, current, rings, c) && |rings'| == |rings| && |current'| == |current|
    requires SameThreads(mem, mem', p)
    requires forall q: nat {:trigger rings'[q]} | q < |rings| && q != c ::
               rings'[q] == rings[q] && current'[q] == current[q]
    ensures CurrentsExcept(mem', current', rings', c)
  {
    forall q: nat {:trigger CurrentOk(mem', current'[q], rings'[q])} | q < |rings'| && q != c
      ensures CurrentOk(mem', current'[q], rings'[q])
    {
      assert CurrentOk(mem, current[q], rings[q]) && rings'[q] == rings[q];
      forall x | x in rings'[q] && x in mem' && mem'[x].state == Running ensures x == current'[q] {
        assert x in mem && mem[x].state == Running;
      }
      if current[q] != 0 { assert mem'[current[q]].state == mem[current[q]].state; }
    }
  }

  lemma TaskShape(mem: Threads, heads: seq<Ptr>, rings: seq<seq<Ptr>>, tasks: Tasks, t: TaskId, counts: seq<nat>,
                  garbage: set<Ptr>)
    requires Rings(mem, heads, rings) && Accounts(mem, rings, tasks) && t in tasks && Counted(counts, rings)
    ensures |tasks[t].perCpu| == |rings| == |counts|
    ensures forall r | r in tasks[t].refs :: r in mem && r != 0 && mem[r].owner == t && Linked(mem, rings, r)
  {
    assert TaskOk(mem, rings, tasks[t], t);
    forall r | r in tasks[t].refs ensures r in mem && r != 0 && mem[r].owner == t {
      var k := RingMember(mem, heads, rings, mem[r].cpu, r);
    }
  }

  lemma {:induction false} SumZero(s: seq<nat>)
    ensures Sum(s) == 0 ==> forall i | 0 <= i < |s| :: s[i] == 0
    decreases |s|
  {
    if s != [] { SumZero(s[..|s| - 1]); }
  }

  /** A task with threads on a queue has a reference there. */
  lemma VictimExists(mem: Threads, heads: seq<Ptr>, rings: seq<seq<Ptr>>, tasks: Tasks, t: TaskId, v: nat, victim: Ptr)
    requires Rings(mem, heads, rings) && Accounts(mem, rings, tasks) && t in tasks && v < |rings|
    requires |tasks[t].perCpu| == |rings| && tasks[t].perCpu[v] > 0
    requires victim != 0 ==> victim in tasks[t].refs && victim in mem && mem[victim].cpu == v
    requires victim == 0 ==> forall r | r in tasks[t].refs :: r in mem && mem[r].cpu != v
    ensures victim != 0 && victim in rings[v] && mem[victim].owner == t
  {
    assert TaskOk(mem, rings, tasks[t], t);
    var own := OwnedOn(mem, rings[v], t);
    assert |own| > 0;
    var p :| p in own;
    var k := RingMember(mem, heads, rings, v, p);
    assert p in tasks[t].refs;
  }

  lemma MovedKept(mem: Threads, rings: seq<seq<Ptr>>, mem1: Threads, rings1: seq<seq<Ptr>>, mem2: Threads,
                  rings2: seq<seq<Ptr>>, garbage: set<Ptr>, p: Ptr, v: nat, k: nat, c: nat)
    requires Kept(mem, rings, garbage) && v != c
    requires NodeDropped(mem, rings, mem1, rings1, p, v, k) && NodeAdded(mem1, rings1, mem2, rings2, p, c)
    ensures Kept(mem2, rings2, garbage) && SameThreads(mem, mem2, p) && p !in rings[c]
  {
    DroppedLinked(mem, rings, mem1, rings1, p, v, k);
    AddedLinked(mem1, rings1, mem2, rings2, p, c);
    forall x {:trigger mem2[x]} | x in mem2
      ensures mem2[x].state == mem[x].state && mem2[x].owner == mem[x].owner && (x != p ==> mem2[x].cpu == mem[x].cpu)
    {
      assert mem1[x].state == mem[x].state;
    }
    forall x {:trigger Linked(mem2, rings2, x)} | x in mem2 ensures Linked(mem2, rings2, x) <==> x !in garbage {
      assert Linked(mem1, rings1, x) <==> Linked(mem, rings, x) && x != p;
    }
  }

  /** Memory holds the same nodes with the same owners and states. */
  ghost predicate SameStates(mem: Threads, mem': Threads) {
    mem'.Keys == mem.Keys &&
    forall x {:trigger mem'[x]} | x in mem :: mem'[x].owner == mem[x].owner && mem'[x].state == mem[x].state
  }

  /** A task keeps its state, or is dead. */
  ghost predicate TaskStates(tasks: Tasks, tasks': Tasks) {
    && tasks'.Keys == tasks.Keys
    && forall t {:trigger tasks'[t]} | t in tasks :: tasks'[t].state == tasks[t].state || tasks'[t].state == DeadTask
  }

  lemma UnqueueFacts(mem: Threads, heads: seq<Ptr>, rings: seq<seq<Ptr>>, tasks: Tasks, counts: seq<nat>, p: Ptr,
                     c: nat)
    requires Rings(mem, heads, rings) && Accounts(mem, rings, tasks) && Counted(counts, rings) && c < |rings|
    requires p in rings[c]
    ensures p in mem && p != 0 && mem[p].owner in tasks && p in tasks[mem[p].owner].refs
    ensures tasks[mem[p].owner].state != DeadTask
    ensures Sum(counts) > 0
  {
    var k := RingMember(mem, heads, rings, c, p);
    var t := mem[p].owner;
    assert Linked(mem, rings, p);
    assert TaskOk(mem, rings, tasks[t], t);
    SumZero(counts);
    assert counts[c] == |rings[c]|;
  }

  lemma SameOwner(mem: Threads, mem': Threads, p: Ptr)
    requires SameThreads(mem, mem', p) && p in mem
    ensures p in mem' && mem'[p].owner == mem[p].owner
  {
  }

  lemma OwnRef(mem: Threads, rings: seq<seq<Ptr>>, tasks: Tasks, p: Ptr) returns (i: nat)
    requires p in mem && mem[p].owner in tasks && p in tasks[mem[p].owner].refs
    ensures i < |tasks[mem[p].owner].refs| && tasks[mem[p].owner].refs[i] == p
  {
    i :| i < |tasks[mem[p].owner].refs| && tasks[mem[p].owner].refs[i] == p;
  }

  lemma DroppedKept(mem: Threads, rings: seq<seq<Ptr>>, mem': Threads, rings': seq<seq<Ptr>>, garbage: set<Ptr>, p: Ptr,
                    c: nat, k: nat)
    requires Kept(mem, rings, garbage) && NodeDropped(mem, rings, mem', rings', p, c, k) && mem[p].state == Dead
    ensures Kept(mem', rings', garbage + {p})
  {
    DroppedLinked(mem, rings, mem', rings', p, c, k);
    forall x {:trigger mem'[x]} | x in mem' ensures mem'[x].state == mem[x].state { }
  }

  lemma DroppedStates(mem: Threads, rings: seq<seq<Ptr>>, mem': Threads, rings': seq<seq<Ptr>>, tasks: Tasks,
                      tasks': Tasks, p: Ptr, c: nat, k: nat, i: nat)
    requires NodeDropped(mem, rings, mem', rings', p, c, k) && mem[p].owner in tasks
    requires var o := tasks[mem[p].owner];
             i < |o.refs| && c < |o.perCpu| && o.refCount > 0 && o.perCpu[c] > 0 &&
             tasks' == tasks[mem[p].owner := RefDropped(o, i, c)]
    ensures SameStates(mem, mem') && TaskStates(tasks, tasks')
  {
  }

  lemma MovedStates(mem: Threads, mem1: Threads, mem2: Threads, tasks: Tasks, tasks1: Tasks, tasks2: Tasks, t: TaskId,
                    stolen: Ptr)
    requires SameStates(mem, mem1) && TaskStates(tasks, tasks1) && t in tasks1
    requires stolen == 0 ==> mem2 == mem1 && tasks2 == tasks1
    requires stolen != 0 ==>
               SameThreads(mem1, mem2, stolen) && t in tasks2 && Evened(tasks1[t], tasks2[t]) &&
               tasks2 == tasks1[t := tasks2[t]]
    ensures SameStates(mem, mem2) && TaskStates(tasks, tasks2)
  {
    if stolen != 0 {
      forall x {:trigger mem2[x]} | x in mem ensures mem2[x].owner == mem[x].owner && mem2[x].state == mem[x].state {
        assert mem1[x].owner == mem[x].owner;
      }
      forall x {:trigger tasks2[x]} | x in tasks
        ensures tasks2[x].state == tasks[x].state || tasks2[x].state == DeadTask
      {
        assert tasks1[x].state == tasks[x].state || tasks1[x].state == DeadTask;
      }
    }
  }

  /** No queue has more than one thread of the task over queue `c`. */
  predicate EvenFor(k: Task, c: nat) {
    c < |k.perCpu| && forall i | 0 <= i < |k.perCpu| :: k.perCpu[i] <= k.perCpu[c] + 1
  }

  /** Only the spread over the queues changed, and it is strictly more even. */
  predicate Evened(k: Task, k': Task) {
    k' == k.(perCpu := k'.perCpu) && Sum(k'.perCpu) == Sum(k.perCpu) && Sum(Squares(k'.perCpu)) < Sum(Squares(k.perCpu))
  }

  // Thread states

  /** A dead thread stays dead until it is freed. */
  ghost predicate DeadStays(mem: Threads, mem': Threads) {
    forall x {:trigger mem'[x]} | x in mem && x in mem' && mem[x].state == Dead :: mem'[x].state == Dead
  }

  lemma StateSet(mem: Threads, heads: seq<Ptr>, rings: seq<seq<Ptr>>, tasks: Tasks, garbage: set<Ptr>, p: Ptr,
                 s: ThreadState)
    requires Rings(mem, heads, rings) && Accounts(mem, rings, tasks) && Kept(mem, rings, garbage)
    requires p in mem && s != Sleeping && (p in garbage ==> s == Dead)
    ensures var mem' := mem[p := mem[p].(state := s)];
            Rings(mem', heads, rings) && Accounts(mem', rings, tasks) && Kept(mem', rings, garbage)
  {
    var mem' := mem[p := mem[p].(state := s)];
    forall c: nat {:trigger Ring(mem', c, heads[c], rings[c])} | c < |rings| ensures Ring(mem', c, heads[c], rings[c]) {
      assert Ring(mem, c, heads[c], rings[c]);
      RingFrame(mem, mem', c, heads[c], rings[c]);
    }
    SameLinked(mem, mem', rings);
    RingsInMemory(mem, heads, rings);
    SameAccounts(mem, mem', rings, tasks);
  }

  ghost predicate RingsIn(rings: seq<seq<Ptr>>, mem: Threads) {
    forall c: nat {:trigger rings[c]} | c < |rings| :: forall x | x in rings[c] :: x in mem
  }

  lemma RingsInMemory(mem: Threads, heads: seq<Ptr>, rings: seq<seq<Ptr>>)
    requires Rings(mem, heads, rings)
    ensures RingsIn(rings, mem)
  {
    forall c: nat {:trigger rings[c]} | c < |rings| ensures forall x | x in rings[c] :: x in mem {
      forall x | x in rings[c] ensures x in mem { var k := RingMember(mem, heads, rings, c, x); }
    }
  }

  lemma SameLinked(mem: Threads, mem': Threads, rings: seq<seq<Ptr>>)
    requires mem'.Keys == mem.Keys && forall x {:trigger mem'[x]} | x in mem :: mem'[x].cpu == mem[x].cpu
    ensures forall x {:trigger Linked(mem', rings, x)} :: Linked(mem', rings, x) <==> Linked(mem, rings, x)
    ensures forall x {:trigger Linked(mem, rings, x)} :: Linked(mem', rings, x) <==> Linked(mem, rings, x)
  {
    forall x ensures Linked(mem', rings, x) <==> Linked(mem, rings, x) {
      if x in mem { assert mem'[x].cpu == mem[x].cpu; }
    }
  }

  lemma SameAccounts(mem: Threads, mem': Threads, rings: seq<seq<Ptr>>, tasks: Tasks)
    requires Accounts(mem, rings, tasks)
    requires forall x {:trigger Linked(mem', rings, x)} :: Linked(mem', rings, x) <==> Linked(mem, rings, x)
    requires forall x | x in mem && x in mem' :: mem'[x].owner == mem[x].owner
    requires RingsIn(rings, mem) && RingsIn(rings, mem')
    ensures Accounts(mem', rings, tasks)
  {
    forall t {:trigger TaskOk(mem', rings, tasks[t], t)} | t in tasks ensures TaskOk(mem', rings, tasks[t], t) {
      assert TaskOk(mem, rings, tasks[t], t);
      forall c: nat {:trigger tasks[t].perCpu[c]} | c < |rings|
        ensures tasks[t].perCpu[c] == |OwnedOn(mem', rings[c], t)|
      {
        assert OwnedOn(mem', rings[c], t) == OwnedOn(mem, rings[c], t);
      }
      forall p {:trigger p in tasks[t].refs}
        ensures p in tasks[t].refs <==> Linked(mem', rings, p) && mem'[p].owner == t
      {
        assert Linked(mem', rings, p) <==> Linked(mem, rings, p);
      }
    }
    forall p {:trigger Linked(mem', rings, p)} | Linked(mem', rings, p) ensures mem'[p].owner in tasks {
      assert Linked(mem, rings, p);
    }
  }

  // Spawning

  /** A node that no ring holds yet changes nothing. */
  lemma FreshNode(mem: Threads, heads: seq<Ptr>, rings: seq<seq<Ptr>>, tasks: Tasks, p: Ptr, th: Thread)
    requires Rings(mem, heads, rings) && Accounts(mem, rings, tasks) && p !in mem
    ensures Rings(mem[p := th], heads, rings) && Accounts(mem[p := th], rings, tasks)
    ensures Nowhere(rings, p) && !Linked(mem[p := th], rings, p)
  {
    var mem' := mem[p := th];
    RingsInMemory(mem, heads, rings);
    forall c: nat {:trigger rings[c]} | c < |rings| ensures p !in rings[c] { }
    forall c: nat {:trigger Ring(mem', c, heads[c], rings[c])} | c < |rings| ensures Ring(mem', c, heads[c], rings[c]) {
      assert Ring(mem, c, heads[c], rings[c]);
      RingFrame(mem, mem', c, heads[c], rings[c]);
    }
    forall x {:trigger Linked(mem', rings, x)} ensures Linked(mem', rings, x) <==> Linked(mem, rings, x) { }
    SameAccounts(mem, mem', rings, tasks);
  }

  lemma SpawnedKept(mem: Threads, rings: seq<seq<Ptr>>, mem1: Threads, mem2: Threads, rings2: seq<seq<Ptr>>,
                    current: seq<Ptr>, p: Ptr, th: Thread, c: nat)
    requires Kept(mem, rings, {}) && p !in mem && mem1 == mem[p := th] && th.state == New && !Linked(mem1, rings, p)
    requires NodeAdded(mem1, rings, mem2, rings2, p, c) && CurrentsExcept(mem, current, rings, |rings|)
    ensures Kept(mem2, rings2, {}) && CurrentsExcept(mem2, current, rings2, |rings2|)
    ensures mem2[p].state == New && mem2[p].owner == th.owner
    ensures forall x | x in mem :: x in mem2 && mem2[x].owner == mem[x].owner && mem2[x].state == mem[x].state
  {
    AddedLinked(mem1, rings, mem2, rings2, p, c);
    forall x {:trigger Linked(mem2, rings2, x)} | x in mem2 ensures Linked(mem2, rings2, x) {
      if x != p { assert Linked(mem, rings, x) && Linked(mem1, rings, x); }
    }
    forall x {:trigger mem2[x]} | x in mem2 ensures mem2[x].state == mem1[x].state && mem2[x].state != Sleeping {
      if x != p { assert mem[x].state != Sleeping; }
    }
    forall q: nat {:trigger CurrentOk(mem2, current[q], rings2[q])} | q < |rings2|
      ensures CurrentOk(mem2, current[q], rings2[q])
    {
      assert CurrentOk(mem, current[q], rings[q]) && p !in rings[q];
      forall x {:trigger mem2[x]} | x in rings2[q] && x in mem2 && mem2[x].state == Running ensures x == current[q] {
        assert x != p;
        assert mem[x].state == Running;
      }
    }
  }

  /** Moving the count of a thread that is not linked yet. */
  lemma Redirected(k: Task, p: Ptr, a: nat, c: nat)
    requires a < |k.perCpu| && c < |k.perCpu| && a != c
    ensures var k1 := RefAdded(k, p, a);
            k1.(perCpu := k1.perCpu[a := k1.perCpu[a] - 1][c := k1.perCpu[c] + 1]) == RefAdded(k, p, c)
  {
    var k1 := RefAdded(k, p, a);
    assert k1.perCpu[a := k1.perCpu[a] - 1][c := k1.perCpu[c] + 1] == k.perCpu[c := k.perCpu[c] + 1];
  }

  lemma RefAddedShape(k: Task, p: Ptr, c: nat)
    requires c < |k.perCpu|
    ensures |RefAdded(k, p, c).perCpu| == |k.perCpu| && RefAdded(k, p, c).perCpu[c] > 0
  {
  }

  /**
   * Setting the state of one thread keeps the currents, if it does not start running and a current thread is killed or
   * kept.
   */
  lemma CurrentsSet(mem: Threads, rings: seq<seq<Ptr>>, current: seq<Ptr>, p: Ptr, s: ThreadState, c: nat)
    requires CurrentsExcept(mem, current, rings, c) && p in mem && s != Running
    requires s == Dead || mem[p].state == New
    ensures CurrentsExcept(mem[p := mem[p].(state := s)], current, rings, c)
  {
    var mem' := mem[p := mem[p].(state := s)];
    forall q: nat {:trigger CurrentOk(mem', current[q], rings[q])} | q < |rings| && q != c
      ensures CurrentOk(mem', current[q], rings[q])
    {
      assert CurrentOk(mem, current[q], rings[q]);
      forall x {:trigger mem'[x]} | x in rings[q] && x in mem' && mem'[x].state == Running
        ensures x == current[q]
      {
        assert mem[x].state == Running;
      }
    }
  }

  lemma PerCpuSmall(mem: Threads, heads: seq<Ptr>, rings: seq<seq<Ptr>>, tasks: Tasks, t: TaskId)
    requires Rings(mem, heads, rings) && Accounts(mem, rings, tasks) && t in tasks
    ensures |tasks[t].perCpu| == |rings| && tasks[t].refCount <= MAX_REFS
    ensures forall i | 0 <= i < |rings| :: tasks[t].perCpu[i] <= MAX_REFS
  {
    assert TaskOk(mem, rings, tasks[t], t);
    RefCountIsSum(mem, heads, rings, tasks[t], t);
    SumBounds(tasks[t].perCpu);
  }

  lemma {:induction false} SumBounds(s: seq<nat>)
    ensures forall i | 0 <= i < |s| :: s[i] <= Sum(s)
    decreases |s|
  {
    if s != [] { SumBounds(s[..|s| - 1]); }
  }

  lemma DeadOwner(k: Task, p: Ptr, c: nat)
    requires k.state == DeadTask && c < |k.perCpu|
    ensures RefAdded(k, p, c).state == DeadTask && RefAdded(k, p, c).refs != []
  {
  }

  lemma DeadUnaccounted(mem: Threads, rings: seq<seq<Ptr>>, tasks: Tasks, t: TaskId)
    requires t in tasks && tasks[t].state == DeadTask && tasks[t].refs != []
    ensures !Accounts(mem, rings, tasks)
  {
    assert !TaskOk(mem, rings, tasks[t], t);
  }

  lemma TaskStateSet(mem: Threads, rings: seq<seq<Ptr>>, tasks: Tasks, t: TaskId, k: Task)
    requires Accounts(mem, rings, tasks) && t in tasks && k == tasks[t].(state := k.state, exitCode := k.exitCode)
    requires k.state == DeadTask ==> tasks[t].state == DeadTask
    ensures Accounts(mem, rings, tasks[t := k])
  {
    var tasks' := tasks[t := k];
    forall x {:trigger TaskOk(mem, rings, tasks'[x], x)} | x in tasks' ensures TaskOk(mem, rings, tasks'[x], x) {
      assert TaskOk(mem, rings, tasks[x], x);
      assert forall p {:trigger p in tasks'[x].refs} :: p in tasks'[x].refs <==> p in tasks[x].refs;
    }
  }

  // The scheduling decision

  predicate DyingOwner(mem: Threads, tasks: Tasks, x: Ptr)
    requires x in mem
  {
    mem[x].owner in tasks && tasks[mem[x].owner].state == Dying
  }

  /** Ready, or the thread that was running, and its task is not dying. */
  predicate Candidate(mem: Threads, tasks: Tasks, cur: Ptr, x: Ptr) {
    x in mem && (mem[x].state == Ready || (x == cur && mem[x].state == Running)) && !DyingOwner(mem, tasks, x)
  }

  /** To be reaped. */
  predicate Gone(mem: Threads, tasks: Tasks, x: Ptr) {
    x in mem && (mem[x].state == Dead || DyingOwner(mem, tasks, x))
  }

  predicate Waiting(mem: Threads, tasks: Tasks, x: Ptr) {
    x in mem && mem[x].state == New && !DyingOwner(mem, tasks, x)
  }

  /** In the ring, or of the task of a thread to be reaped from it, so that a steal can bring it there. */
  ghost predicate Reachable(mem: Threads, tasks: Tasks, ring: seq<Ptr>, x: Ptr) {
    || x in ring
    || (x in mem && exists y {:trigger Gone(mem, tasks, y)} ::
          y in ring && Gone(mem, tasks, y) && mem[y].owner == mem[x].owner)
  }

  /** No thread that a call can meet is still being set up. */
  ghost predicate NoneWaiting(mem: Threads, tasks: Tasks, ring: seq<Ptr>) {
    forall x {:trigger Waiting(mem, tasks, x)} | Reachable(mem, tasks, ring, x) :: !Waiting(mem, tasks, x)
  }

  lemma SameIndex(l: seq<Ptr>, a: nat, b: nat)
    requires NoDups(l) && a < |l| && b < |l| && l[a] == l[b]
    ensures a == b
  {
  }

  lemma RingState(mem: Threads, heads: seq<Ptr>, rings: seq<seq<Ptr>>, c: nat)
    requires Rings(mem, heads, rings) && c < |rings|
    ensures NoDups(rings[c]) && (heads[c] == 0 <==> rings[c] == []) && (rings[c] != [] ==> heads[c] == rings[c][0])
  {
    assert Ring(mem, c, heads[c], rings[c]);
    RingEnds(mem, heads, rings, c);
  }

  /** The scan after its first thread was unlinked and one may have been stolen. */
  ghost predicate ScanReaped(l: seq<Ptr>, w: seq<Ptr>, i: nat, garbage: set<Ptr>, stolen: Ptr, l': seq<Ptr>,
                             w': seq<Ptr>, i': nat)
    requires i < |l| && w != []
  {
    && l' == Without(l, i) + (if stolen == 0 then [] else [stolen]) && Scan(l', w', i') && NoDups(l')
    && (stolen == 0 ==> w' == w[1..]) && (stolen != 0 ==> stolen !in garbage)
    && (w[1..] != [] ==> w' != [] && w'[0] == w[1]) && (w[1..] == [] ==> w' == l')
  }

  lemma ReapScan(l: seq<Ptr>, w: seq<Ptr>, i: nat, garbage: set<Ptr>, stolen: Ptr, l': seq<Ptr>)
    returns (w': seq<Ptr>, i': nat)
    requires Scan(l, w, i) && w != [] && NoDups(l) && i < |l|
    requires l' == Without(l, i) + if stolen == 0 then [] else [stolen]
    requires NoDups(l') && (stolen != 0 ==> stolen !in garbage)
    ensures ScanReaped(l, w, i, garbage, stolen, l', w', i')
    ensures forall x | x in w && x != w[0] :: x in w'
    ensures forall x | x in w' :: x in w || (stolen != 0 && x == stolen)
  {
    ScanHead(l, w, i);
    ScanDrop(l, w, i);
    TailMembers(w);
    i' := if i < |l| - 1 then i else 0;
    hide Scan;
    if stolen == 0 {
      assert l' == Without(l, i);
      w' := w[1..];
    } else {
      ScanAppend(Without(l, i), w[1..], i', stolen);
      w' := w[1..][..|Without(l, i)| - i'] + [stolen] + w[1..][|Without(l, i)| - i'..];
    }
    if |w| == 1 { ScanAlone(l', w', i'); }
  }

  lemma TailMembers(w: seq<Ptr>)
    requires w != []
    ensures forall x | x in w && x != w[0] :: x in w[1..]
  {
  }

  lemma ScanAlone(l: seq<Ptr>, w: seq<Ptr>, i: nat)
    requires Scan(l, w, i) && |l| <= 1
    ensures w == l
  {
  }

  lemma ReapedIdle(mem: Threads, mem': Threads, l: seq<Ptr>, k: nat, stolen: Ptr, l': seq<Ptr>)
    requires NoneRunning(mem, l) && SameStates(mem, mem') && k < |l|
    requires l' == Without(l, k) + if stolen == 0 then [] else [stolen]
    requires stolen != 0 ==> stolen in mem' && mem'[stolen].state != Running
    ensures NoneRunning(mem', l')
  {
    forall x {:trigger mem'[x]} | x in l' && x in mem' ensures mem'[x].state != Running {
      if x != stolen { assert x in l && mem'[x].state == mem[x].state; }
    }
  }

  lemma TaskStatesTrans(a: Tasks, b: Tasks, c: Tasks)
    requires TaskStates(a, b) && TaskStates(b, c)
    ensures TaskStates(a, c)
  {
    forall t {:trigger c[t]} | t in a ensures c[t].state == a[t].state || c[t].state == DeadTask {
      assert b[t].state == a[t].state || b[t].state == DeadTask;
    }
  }

  /** The task of a linked thread has kept its state. */
  lemma LinkedTask(mem: Threads, heads: seq<Ptr>, rings: seq<seq<Ptr>>, tasks0: Tasks, tasks: Tasks, c: nat, x: Ptr)
    requires Rings(mem, heads, rings) && Accounts(mem, rings, tasks) && TaskStates(tasks0, tasks) && c < |rings|
    requires x in rings[c]
    ensures x in mem && mem[x].owner in tasks && mem[x].owner in tasks0
    ensures tasks[mem[x].owner].state == tasks0[mem[x].owner].state != DeadTask
  {
    var k := RingMember(mem, heads, rings, c, x);
    var t := mem[x].owner;
    assert Linked(mem, rings, x);
    assert TaskOk(mem, rings, tasks[t], t) && x in tasks[t].refs;
  }

  /** Freeing what was reaped. */
  lemma FreedLedger(mem: Threads, heads: seq<Ptr>, rings: seq<seq<Ptr>>, tasks: Tasks, garbage: set<Ptr>)
    requires Rings(mem, heads, rings) && Accounts(mem, rings, tasks) && Kept(mem, rings, garbage)
    ensures Rings(mem - garbage, heads, rings) && Accounts(mem - garbage, rings, tasks)
    ensures Kept(mem - garbage, rings, {})
  {
    var mem' := mem - garbage;
    RingsInMemory(mem, heads, rings);
    forall c: nat {:trigger rings[c]} | c < |rings| ensures forall x | x in rings[c] :: x in mem' {
      forall x | x in rings[c] ensures x in mem' {
        var k := RingMember(mem, heads, rings, c, x);
      }
    }
    forall c: nat {:trigger Ring(mem', c, heads[c], rings[c])} | c < |rings| ensures Ring(mem', c, heads[c], rings[c]) {
      assert Ring(mem, c, heads[c], rings[c]) && rings[c] == rings[c];
      RingFrame(mem, mem', c, heads[c], rings[c]);
    }
    forall x {:trigger Linked(mem', rings, x)} ensures Linked(mem', rings, x) <==> Linked(mem, rings, x) {
      if x in garbage { assert !Linked(mem, rings, x); }
    }
    SameAccounts(mem, mem', rings, tasks);
    forall x {:trigger mem'[x]} | x in mem' ensures mem'[x].state != Sleeping { assert mem[x].state != Sleeping; }
  }

  lemma FreedCurrents(mem: Threads, rings: seq<seq<Ptr>>, current: seq<Ptr>, garbage: set<Ptr>, c: nat, cur: Ptr)
    requires CurrentsExcept(mem, current, rings, c) && c < |rings| && RingsIn(rings, mem - garbage)
    requires CurrentOk(mem, cur, rings[c])
    ensures CurrentsExcept(mem - garbage, current[c := cur], rings, |rings|)
  {
    var mem', current' := mem - garbage, current[c := cur];
    forall q: nat {:trigger CurrentOk(mem', current'[q], rings[q])} | q < |rings|
      ensures CurrentOk(mem', current'[q], rings[q])
    {
      assert q != c ==> CurrentOk(mem, current[q], rings[q]);
      assert CurrentOk(mem, current'[q], rings[q]);
      forall x {:trigger mem'[x]} | x in rings[q] && x in mem' && mem'[x].state == Running
        ensures x == current'[q]
      {
        assert mem[x].state == Running;
      }
      assert rings[q] == rings[q];
    }
  }

  // Invariants of the scan, over the threads `m0` and tasks `t0` it started with

  /** Only reaped threads changed, and only those to be reaped were. */
  ghost predicate Steady(m0: Threads, t0: Tasks, mem: Threads, tasks: Tasks, garbage: set<Ptr>) {
    && mem.Keys == m0.Keys && TaskStates(t0, tasks)
    && (forall x {:trigger mem[x]} | x in mem ::
          mem[x].owner == m0[x].owner && (x !in garbage ==> mem[x].state == m0[x].state))
    && (forall x {:trigger x in garbage} | x in garbage :: Gone(m0, t0, x))
  }

  /** A thread that can be picked is ahead, or none is still being set up. */
  ghost predicate Hopeful(m0: Threads, t0: Tasks, ring0: seq<Ptr>, w: seq<Ptr>, wit: Ptr) {
    && (forall x {:trigger x in w} | x in w :: Reachable(m0, t0, ring0, x))
    && if wit == 0 then NoneWaiting(m0, t0, ring0) else wit in w && Candidate(m0, t0, 0, wit)
  }

  lemma SteadyReap(m0: Threads, t0: Tasks, mem: Threads, tasks: Tasks, garbage: set<Ptr>, node: Ptr, mem1: Threads,
                   mem2: Threads, tasks2: Tasks)
    requires Steady(m0, t0, mem, tasks, garbage) && Gone(m0, t0, node) && node in mem
    requires mem1 == mem[node := mem[node].(state := Dead)] && SameStates(mem1, mem2) && TaskStates(tasks, tasks2)
    ensures Steady(m0, t0, mem2, tasks2, garbage + {node})
  {
    TaskStatesTrans(t0, tasks, tasks2);
    forall x {:trigger mem2[x]} | x in mem2
      ensures mem2[x].owner == m0[x].owner && (x !in garbage + {node} ==> mem2[x].state == m0[x].state)
    {
      assert mem2[x].owner == mem1[x].owner && mem2[x].state == mem1[x].state && mem[x].owner == m0[x].owner;
    }
  }

  /** What the next thread of the scan can be. */
  lemma NextThread(m0: Threads, t0: Tasks, mem: Threads, heads: seq<Ptr>, rings: seq<seq<Ptr>>, tasks: Tasks,
                   garbage: set<Ptr>, c: nat, x: Ptr)
    requires Rings(mem, heads, rings) && Accounts(mem, rings, tasks) && Kept(mem, rings, garbage)
    requires Steady(m0, t0, mem, tasks, garbage)
    requires c < |rings| && x in rings[c] && NoneRunning(mem, rings[c])
    ensures x in mem && x in m0 && x != 0 && x !in garbage && mem[x].owner in tasks && mem[x].state == m0[x].state
    ensures (tasks[mem[x].owner].state == Dying <==> DyingOwner(m0, t0, x))
    ensures mem[x].state != Running && mem[x].state != Sleeping
  {
    var k := RingMember(mem, heads, rings, c, x);
    LinkedTask(mem, heads, rings, t0, tasks, c, x);
    assert Linked(mem, rings, x);
    assert mem[x].state != Sleeping && mem[x].owner == m0[x].owner;
  }

  lemma NextPointer(mem: Threads, heads: seq<Ptr>, rings: seq<seq<Ptr>>, c: nat, i: nat)
    requires Rings(mem, heads, rings) && c < |rings| && i < |rings[c]|
    ensures rings[c][i] in mem && mem[rings[c][i]].next == NextIn(rings[c], i)
  {
    assert Ring(mem, c, heads[c], rings[c]) && RingCell(mem, c, rings[c], i);
  }

  /** A stolen thread is of the task of the thread that was reaped. */
  lemma HopefulReap(m0: Threads, t0: Tasks, ring0: seq<Ptr>, w: seq<Ptr>, wit: Ptr, w': seq<Ptr>, stolen: Ptr)
    requires Hopeful(m0, t0, ring0, w, wit) && w != [] && Gone(m0, t0, w[0])
    requires forall x | x in w && x != w[0] :: x in w'
    requires forall x | x in w' :: x in w || (x == stolen && x in m0 && m0[x].owner == m0[w[0]].owner)
    ensures Hopeful(m0, t0, ring0, w', wit)
  {
    assert w[0] in w && Reachable(m0, t0, ring0, w[0]);
    forall x {:trigger x in w'} | x in w' ensures Reachable(m0, t0, ring0, x) {
      assert x in w || m0[x].owner == m0[w[0]].owner;
    }
  }

  lemma HopefulTail(m0: Threads, t0: Tasks, ring0: seq<Ptr>, w: seq<Ptr>, wit: Ptr)
    requires Hopeful(m0, t0, ring0, w, wit) && w != [] && Gone(m0, t0, w[0])
    ensures Hopeful(m0, t0, ring0, w[1..], wit)
  {
    HopefulReap(m0, t0, ring0, w, wit, w[1..], 0);
  }

  lemma HopefulPass(m0: Threads, t0: Tasks, ring0: seq<Ptr>, w: seq<Ptr>, wit: Ptr)
    requires Hopeful(m0, t0, ring0, w, wit) && w != [] && Waiting(m0, t0, w[0])
    ensures wit != 0 && Hopeful(m0, t0, ring0, w[1..] + [w[0]], wit)
    ensures IndexOf(w[1..] + [w[0]], wit) < IndexOf(w, wit)
  {
    assert w[0] in w && w == [w[0]] + w[1..];
    forall x {:trigger x in w[1..] + [w[0]]} | x in w[1..] + [w[0]] ensures Reachable(m0, t0, ring0, x) {
      assert x in w;
    }
    if wit != 0 { IndexOfPass(w, wit); }
  }

  /** The queue's own thread can be picked again; the others as before. */
  function Yielded(mem: Threads, cur: Ptr): Threads
    requires cur in mem
  {
    if mem[cur].state == Running then mem[cur := mem[cur].(state := Ready)] else mem
  }

  lemma YieldedSame(mem: Threads, tasks: Tasks, cur: Ptr)
    requires cur in mem && cur != 0
    ensures var m0 := Yielded(mem, cur);
            && (forall x {:trigger Gone(m0, tasks, x)} :: Gone(m0, tasks, x) <==> Gone(mem, tasks, x))
            && (forall x {:trigger Waiting(m0, tasks, x)} :: Waiting(m0, tasks, x) <==> Waiting(mem, tasks, x))
            && (forall x {:trigger Candidate(m0, tasks, 0, x)} ::
                  Candidate(m0, tasks, 0, x) && m0[x].state == Ready <==> Candidate(mem, tasks, cur, x))
  {
  }

  lemma YieldStarts(mem: Threads, heads: seq<Ptr>, rings: seq<seq<Ptr>>, tasks: Tasks, current: seq<Ptr>, c: nat)
    returns (j: nat)
    requires Rings(mem, heads, rings) && Accounts(mem, rings, tasks) && Kept(mem, rings, {})
    requires CurrentsExcept(mem, current, rings, |rings|)
    requires c < |rings| && current[c] != 0
    ensures var cur := current[c];
            && j < |rings[c]| && rings[c][j] == cur && cur in mem &&
            (mem[cur].state == Running || mem[cur].state == Dead) && NoDups(rings[c])
            && mem[cur].next == NextIn(rings[c], j)
            && var m0 := Yielded(mem, cur);
            && Rings(m0, heads, rings) && Accounts(m0, rings, tasks) && Kept(m0, rings, {}) &&
            CurrentsExcept(m0, current, rings, c)
            && NoneRunning(m0, rings[c]) && Steady(m0, tasks, m0, tasks, {})
  {
    assert CurrentOk(mem, current[c], rings[c]);
    var cur := current[c];
    j := RingMember(mem, heads, rings, c, cur);
    RingState(mem, heads, rings, c);
    var m0 := Yielded(mem, cur);
    if mem[cur].state == Running { StateSet(mem, heads, rings, tasks, {}, cur, Ready); }
    forall q: nat {:trigger CurrentOk(m0, current[q], rings[q])} | q < |rings| && q != c
      ensures CurrentOk(m0, current[q], rings[q])
    {
      assert CurrentOk(mem, current[q], rings[q]);
      OtherRing(mem, heads, rings, q, c);
      forall x {:trigger m0[x]} | x in rings[q] && x in m0 && m0[x].state == Running
        ensures x == current[q]
      {
        assert mem[x].state == Running;
      }
    }
    forall x {:trigger m0[x]} | x in rings[c] && x in m0 ensures m0[x].state != Running {
      assert mem[x].state == Running ==> x == cur;
    }
  }

  /** The picked thread, and what is left to check when the call returns it. */
  lemma PickedValid(mem: Threads, heads: seq<Ptr>, rings: seq<seq<Ptr>>, tasks: Tasks, current: seq<Ptr>,
                    garbage: set<Ptr>, c: nat, s: Ptr)
    requires Rings(mem, heads, rings) && Accounts(mem, rings, tasks) && Kept(mem, rings, garbage)
    requires CurrentsExcept(mem, current, rings, c)
    requires c < |rings| && NoneRunning(mem, rings[c]) && s in rings[c]
    ensures s in mem && s !in garbage
    ensures var mem' := mem[s := mem[s].(state := Running)] - garbage;
            && Rings(mem', heads, rings) && Accounts(mem', rings, tasks) && Kept(mem', rings, {})
            && CurrentsExcept(mem', current[c := s], rings, |rings|)
  {
    var k := RingMember(mem, heads, rings, c, s);
    var m1 := mem[s := mem[s].(state := Running)];
    StateSet(mem, heads, rings, tasks, garbage, s, Running);
    forall q: nat {:trigger CurrentOk(m1, current[q], rings[q])} | q < |rings| && q != c
      ensures CurrentOk(m1, current[q], rings[q])
    {
      assert CurrentOk(mem, current[q], rings[q]);
      OtherRing(mem, heads, rings, q, c);
      forall x {:trigger m1[x]} | x in rings[q] && x in m1 && m1[x].state == Running
        ensures x == current[q]
      {
        assert mem[x].state == Running;
      }
    }
    forall x {:trigger m1[x]} | x in rings[c] && x in m1 && m1[x].state == Running ensures x == s { }
    assert CurrentOk(m1, s, rings[c]);
    FreedLedger(m1, heads, rings, tasks, garbage);
    RingsInMemory(m1 - garbage, heads, rings);
    FreedCurrents(m1, rings, current, garbage, c, s);
  }

  lemma EmptyValid(mem: Threads, heads: seq<Ptr>, rings: seq<seq<Ptr>>, tasks: Tasks, current: seq<Ptr>,
                   garbage: set<Ptr>, c: nat)
    requires Rings(mem, heads, rings) && Accounts(mem, rings, tasks) && Kept(mem, rings, garbage)
    requires CurrentsExcept(mem, current, rings, c)
    requires c < |rings| && rings[c] == []
    ensures var mem' := mem - garbage;
            && Rings(mem', heads, rings) && Accounts(mem', rings, tasks) && Kept(mem', rings, {})
            && CurrentsExcept(mem', current[c := 0], rings, |rings|)
  {
    assert CurrentOk(mem, 0, rings[c]);
    FreedLedger(mem, heads, rings, tasks, garbage);
    RingsInMemory(mem - garbage, heads, rings);
    FreedCurrents(mem, rings, current, garbage, c, 0);
  }

  // Starting and ending a call

  lemma Witness(mem: Threads, heads: seq<Ptr>, rings: seq<seq<Ptr>>, tasks: Tasks, c: nat, cur: Ptr) returns (wit: Ptr)
    requires Rings(mem, heads, rings) && c < |rings|
    requires (exists x :: x in rings[c] && Candidate(mem, tasks, cur, x)) || NoneWaiting(mem, tasks, rings[c])
    ensures if wit == 0 then NoneWaiting(mem, tasks, rings[c]) else wit in rings[c] && Candidate(mem, tasks, cur, wit)
  {
    if x :| x in rings[c] && Candidate(mem, tasks, cur, x) {
      var k := RingMember(mem, heads, rings, c, x);
      wit := x;
    } else {
      wit := 0;
    }
  }

  lemma WitnessYielded(mem: Threads, tasks: Tasks, cur: Ptr, ring: seq<Ptr>, wit: Ptr, w: seq<Ptr>, i: nat)
    requires cur in mem && cur != 0 && Scan(ring, w, i)
    requires if wit == 0 then NoneWaiting(mem, tasks, ring) else wit in ring && Candidate(mem, tasks, cur, wit)
    ensures Hopeful(Yielded(mem, cur), tasks, ring, w, wit)
  {
    YieldedSame(mem, tasks, cur);
    ScanMembers(ring, w, i);
    var m0 := Yielded(mem, cur);
    if wit == 0 {
      forall x {:trigger Waiting(m0, tasks, x)} | Reachable(m0, tasks, ring, x) ensures !Waiting(m0, tasks, x) {
        ReachableYielded(mem, tasks, cur, ring, x);
        assert Waiting(m0, tasks, x) <==> Waiting(mem, tasks, x);
      }
    }
  }

  lemma ReachableYielded(mem: Threads, tasks: Tasks, cur: Ptr, ring: seq<Ptr>, x: Ptr)
    requires cur in mem && cur != 0 && Reachable(Yielded(mem, cur), tasks, ring, x)
    ensures Reachable(mem, tasks, ring, x)
  {
    YieldedSame(mem, tasks, cur);
    var m0 := Yielded(mem, cur);
    if x !in ring {
      var y :| y in ring && Gone(m0, tasks, y) && m0[y].owner == m0[x].owner;
      assert Gone(mem, tasks, y);
    }
  }

  function FromHere(l: seq<Ptr>, j: nat): seq<Ptr>
    requires j < |l|
  {
    l[j..] + l[..j]
  }

  lemma ScanFrom(l: seq<Ptr>, j: nat)
    requires j < |l|
    ensures Scan(l, FromHere(l, j), j) && FromHere(l, j) != [] && FromHere(l, j)[0] == l[j]
  {
  }

  lemma SteadyOwner(m0: Threads, t0: Tasks, mem: Threads, tasks: Tasks, garbage: set<Ptr>, x: Ptr)
    requires Steady(m0, t0, mem, tasks, garbage) && x in mem
    ensures x in m0 && mem[x].owner == m0[x].owner
  {
  }

  lemma SteadyKeys(m0: Threads, t0: Tasks, mem: Threads, tasks: Tasks, garbage: set<Ptr>)
    requires Steady(m0, t0, mem, tasks, garbage)
    ensures mem.Keys == m0.Keys
  {
  }

  lemma LinkedKept(mem: Threads, heads: seq<Ptr>, rings: seq<seq<Ptr>>, garbage: set<Ptr>, c: nat, x: Ptr)
    requires Rings(mem, heads, rings) && Kept(mem, rings, garbage) && c < |rings| && x in rings[c]
    ensures x !in garbage
  {
    var k := RingMember(mem, heads, rings, c, x);
    assert Linked(mem, rings, x);
  }

  /** A thread that the ring did not hold was on another one. */
  lemma TakenElsewhere(mem: Threads, heads: seq<Ptr>, rings: seq<seq<Ptr>>, cur: Ptr, c: nat, taken: seq<Ptr>)
    requires Rings(mem, heads, rings) && Kept(mem, rings, {}) && c < |rings| && NoDups(rings[c] + taken) && cur in mem
    requires forall x | x in taken :: x in Yielded(mem, cur)
    ensures forall x | x in taken :: exists v :: 0 <= v < |rings| && v != c && x in rings[v]
  {
    forall x | x in taken ensures exists v :: 0 <= v < |rings| && v != c && x in rings[v] {
      assert Linked(mem, rings, x);
      var b :| 0 <= b < |taken| && taken[b] == x;
      forall a | 0 <= a < |rings[c]|
        ensures rings[c][a] != x
      {
        assert (rings[c] + taken)[a] != (rings[c] + taken)[|rings[c]| + b];
      }
    }
  }

  lemma SetDead(mem: Threads, rings: seq<seq<Ptr>>, current: seq<Ptr>, p: Ptr, c: nat)
    requires CurrentsExcept(mem, current, rings, c) && c < |rings| && NoneRunning(mem, rings[c]) && p in mem
    ensures var mem' := mem[p := mem[p].(state := Dead)];
            CurrentsExcept(mem', current, rings, c) && NoneRunning(mem', rings[c])
  {
    CurrentsSet(mem, rings, current, p, Dead, c);
  }

  lemma FreedMore(freed: seq<Ptr>, node: Ptr)
    requires NoDups(freed) && node !in AsSet(freed)
    ensures NoDups(freed + [node]) && AsSet(freed + [node]) == AsSet(freed) + {node}
  {
  }

  lemma DeadGone(mem: Threads, tasks: Tasks, cur: Ptr)
    requires cur in mem && mem[cur].state == Dead
    ensures Yielded(mem, cur) == mem && Gone(mem, tasks, cur)
  {
  }

  lemma MarkGone(m0: Threads, t0: Tasks, x: Ptr)
    requires x in m0 && (m0[x].state == Dead || DyingOwner(m0, t0, x))
    ensures Gone(m0, t0, x)
  {
  }

  lemma MarkWaiting(m0: Threads, t0: Tasks, x: Ptr)
    requires x in m0 && m0[x].state == New && !DyingOwner(m0, t0, x)
    ensures Waiting(m0, t0, x)
  {
  }

  /** The surviving threads: the current one gave way, the picked one runs, the others are as before. */
  ghost predicate Decided(mem: Threads, cur: Ptr, mem': Threads, s: Ptr)
    requires cur in mem
  {
    forall x {:trigger mem'[x]} | x in mem' ::
      x in mem && mem'[x].owner == mem[x].owner && (x != s ==> mem'[x].state == Yielded(mem, cur)[x].state)
  }

  lemma DecideEnds(mem: Threads, cur: Ptr, t0: Tasks, mem1: Threads, tasks: Tasks, freed: seq<Ptr>, mem2: Threads,
                   s: Ptr)
    requires cur in mem && cur != 0 && Steady(Yielded(mem, cur), t0, mem1, tasks, AsSet(freed))
    requires mem2.Keys == mem1.Keys - AsSet(freed)
    requires forall x | x in mem2 ::
               mem2[x].state == (if s != 0 && x == s then Running else mem1[x].state) && mem2[x].owner == mem1[x].owner
    ensures mem2.Keys == mem.Keys - AsSet(freed) && Decided(mem, cur, mem2, s) && TaskStates(t0, tasks)
    ensures forall x | x in freed :: Gone(mem, t0, x)
  {
    YieldedSame(mem, t0, cur);
    forall x | x in freed ensures Gone(mem, t0, x) { assert x in AsSet(freed); assert Gone(Yielded(mem, cur), t0, x); }
    forall x {:trigger mem2[x]} | x in mem2
      ensures x in mem && mem2[x].owner == mem[x].owner && (x != s ==> mem2[x].state == Yielded(mem, cur)[x].state)
    {
      assert mem1[x].owner == Yielded(mem, cur)[x].owner;
    }
  }

  lemma PickedCandidate(mem: Threads, t0: Tasks, cur: Ptr, s: Ptr)
    requires cur in mem && cur != 0 && s in Yielded(mem, cur) && s != 0 && Yielded(mem, cur)[s].state == Ready
    requires !DyingOwner(Yielded(mem, cur), t0, s)
    ensures Candidate(mem, t0, cur, s)
  {
  }

  lemma NoNullNode(mem: Threads, heads: seq<Ptr>, rings: seq<seq<Ptr>>)
    requires Rings(mem, heads, rings) && Kept(mem, rings, {})
    ensures 0 !in mem
  {
    if 0 in mem {
      assert Linked(mem, rings, 0);
      var k := RingMember(mem, heads, rings, mem[0].cpu, 0);
    }
  }

  lemma DecidedDead(mem: Threads, tasks: Tasks, cur: Ptr, mem': Threads, s: Ptr)
    requires cur in mem && Decided(mem, cur, mem', s) && (s in mem' ==> Candidate(mem, tasks, cur, s))
    ensures DeadStays(mem, mem')
  {
    forall x {:trigger mem'[x]} | x in mem && x in mem' && mem[x].state == Dead ensures mem'[x].state == Dead {
      assert mem'[x].owner == mem[x].owner;
    }
  }

  // Initial state

  lemma InitQueues(heads: seq<Ptr>, current: seq<Ptr>, counts: seq<nat>, rings: seq<seq<Ptr>>)
    requires |heads| == |current| == |counts| == |rings|
    requires forall c | 0 <= c < |rings| :: heads[c] == 0 && current[c] == 0 && counts[c] == 0 && rings[c] == []
    ensures Rings(map[], heads, rings) && Counted(counts, rings) && Accounts(map[], rings, map[])
    ensures Kept(map[], rings, {})
    ensures CurrentsExcept(map[], current, rings, |rings|) && Sum(counts) == 0
  {
    forall c: nat {:trigger Ring(map[], c, heads[c], rings[c])} | c < |rings|
      ensures Ring(map[], c, heads[c], rings[c])
    {
      assert rings[c] == [];
    }
    forall q: nat {:trigger CurrentOk(map[], current[q], rings[q])} | q < |rings|
      ensures CurrentOk(map[], current[q], rings[q])
    {
      assert current[q] == 0;
    }
    ZeroSum(counts);
  }

  lemma {:induction false} ZeroSum(s: seq<nat>)
    requires forall i | 0 <= i < |s| :: s[i] == 0
    ensures Sum(s) == 0
    decreases |s|
  {
    if s != [] { ZeroSum(s[..|s| - 1]); }
  }

  lemma TaskAdded(mem: Threads, rings: seq<seq<Ptr>>, tasks: Tasks, t: TaskId, k: Task)
    requires Accounts(mem, rings, tasks) && t !in tasks
    requires k.refs == [] && k.refCount == 0 && |k.perCpu| == |rings| && forall c | 0 <= c < |rings| :: k.perCpu[c] == 0
    requires RingsIn(rings, mem)
    requires (forall c: nat, p {:trigger p in rings[c]} | c < |rings| && p in rings[c] :: Linked(mem, rings, p))
    ensures Accounts(mem, rings, tasks[t := k])
  {
    var tasks' := tasks[t := k];
    forall x {:trigger TaskOk(mem, rings, tasks'[x], x)} | x in tasks' ensures TaskOk(mem, rings, tasks'[x], x) {
      if x == t {
        forall c: nat {:trigger k.perCpu[c]} | c < |rings| ensures k.perCpu[c] == |OwnedOn(mem, rings[c], t)| {
          assert forall p | p in rings[c] :: Linked(mem, rings, p);
          assert OwnedOn(mem, rings[c], t) == {};
        }
      } else {
        assert TaskOk(mem, rings, tasks[x], x);
      }
    }
  }

  lemma AllLinked(mem: Threads, heads: seq<Ptr>, rings: seq<seq<Ptr>>)
    requires Rings(mem, heads, rings)
    ensures RingsIn(rings, mem)
    ensures forall c: nat, p {:trigger p in rings[c]} | c < |rings| && p in rings[c] :: Linked(mem, rings, p)
  {
    RingsInMemory(mem, heads, rings);
    forall c: nat, p {:trigger p in rings[c]} | c < |rings| && p in rings[c] ensures Linked(mem, rings, p) {
      var k := RingMember(mem, heads, rings, c, p);
    }
  }
}
