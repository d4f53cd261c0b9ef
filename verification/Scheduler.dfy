/**
 * Run queues, work stealing and the scheduling decision (src/kernel/scheduler/scheduler.c:437-877).
 * Each method is one section under the locks the source takes; `*` stands for the outcome of a try-lock.
 */
module Scheduler {
  import opened RunRing
  import opened TaskAccounts
  import opened ScanOrder
  import opened SchedulerFacts
  import opened PickOrder
  import opened Sequences

  const UINT32_MAX: nat := 0xFFFF_FFFF

  predicate Least(perCpu: seq<nat>, counts: seq<nat>, c: nat) {
    && c < |perCpu| == |counts|
    && (forall i | 0 <= i < |perCpu| :: perCpu[c] < perCpu[i] || (perCpu[c] == perCpu[i] && counts[c] <= counts[i]))
    && (forall i | 0 <= i < c :: perCpu[c] < perCpu[i] || (perCpu[c] == perCpu[i] && counts[c] < counts[i]))
  }

  /** The queue with the fewest threads of the task, and among those the fewest threads: the first such. */
  method LeastLoaded(perCpu: seq<nat>, counts: seq<nat>) returns (best: nat)
    requires 0 < |perCpu| == |counts| && forall i | 0 <= i < |perCpu| :: perCpu[i] < UINT32_MAX
    ensures Least(perCpu, counts, best)
  {
    best := 0;
    var tmin, gmin := UINT32_MAX, UINT32_MAX;
    for i := 0 to |perCpu|
      invariant if i == 0 then best == 0 && tmin == UINT32_MAX && gmin == UINT32_MAX
                else best < i && tmin == perCpu[best] && gmin == counts[best]
      invariant forall j | 0 <= j < i :: tmin < perCpu[j] || (tmin == perCpu[j] && gmin <= counts[j])
      invariant forall j | 0 <= j < best :: tmin < perCpu[j] || (tmin == perCpu[j] && gmin < counts[j])
    {
      var t, g := perCpu[i], counts[i];
      if t < tmin || (t == tmin && g < gmin) {
        tmin, gmin, best := t, g, i;
      }
    }
  }

  lemma LeastBelow(perCpu: seq<nat>, counts: seq<nat>, c: nat)
    requires Least(perCpu, counts, c)
    ensures c < |perCpu| == |counts|
  {
  }

  /** The queue with the most threads of the task, and among those the most threads. */
  method MostLoaded(perCpu: seq<nat>, counts: seq<nat>) returns (victim: nat, tmax: nat, total: nat)
    requires 0 < |perCpu| == |counts|
    ensures victim < |perCpu| && total == Sum(perCpu)
    ensures forall i | 0 <= i < |perCpu| :: perCpu[i] <= tmax
    ensures tmax > 0 ==>
              perCpu[victim] == tmax && forall i | 0 <= i < |perCpu| && perCpu[i] == tmax :: counts[i] <= counts[victim]
  {
    victim, tmax, total := 0, 0, 0;
    var gmax := 0;
    for i := 0 to |perCpu|
      invariant victim < |perCpu| && total == Sum(perCpu[..i])
      invariant forall j | 0 <= j < i :: perCpu[j] <= tmax
      invariant tmax > 0 ==> perCpu[victim] == tmax && gmax == counts[victim]
      invariant forall j | 0 <= j < i && perCpu[j] == tmax :: counts[j] <= gmax
    {
      var t, g := perCpu[i], counts[i];
      if t > tmax || (t == tmax && g > gmax) {
        tmax, gmax, victim := t, g, i;
      }
      total := total + t;
      assert perCpu[..i + 1][..i] == perCpu[..i];
    }
    assert perCpu[..|perCpu|] == perCpu;
  }

  class RunQueues {
    const cpus: nat
    var mem: Threads
    var heads: seq<Ptr>
    var current: seq<Ptr>
    var counts: seq<nat>
    var tasks: Tasks
    var total: nat
    ghost var rings: seq<seq<Ptr>>

    /** Rings, counters and tasks agree. */
    ghost predicate Ledger(garbage: set<Ptr>)
      reads this
    {
      && |heads| == |current| == |rings| == cpus
      && Rings(mem, heads, rings) && Counted(counts, rings) && Accounts(mem, rings, tasks) && Kept(mem, rings, garbage)
    }

    ghost predicate Valid()
      reads this
    {
      Ledger({}) && total == Sum(counts) && CurrentsExcept(mem, current, rings, cpus)
    }

    /** `scheduler_init`. */
    constructor (n: nat)
      ensures Valid() && cpus == n && mem == map[] && tasks == map[] && total == 0
    {
      cpus := n;
      mem, tasks, total := map[], map[], 0;
      heads, current, counts := seq(n, _ => 0), seq(n, _ => 0), seq(n, _ => 0);
      rings := seq(n, _ => []);
      new;
      InitQueues(heads, current, counts, rings);
    }

    /** `task_new`. */
    method AddTask(t: TaskId)
      requires Valid() && t !in tasks
      modifies this`tasks
      ensures Valid() && tasks == old(tasks)[t := Task(NewTask, 0, [], 0, seq(cpus, _ => 0))]
    {
      hide Rings, Sum, Accounts, Kept, Counted, CurrentsExcept;
      AllLinked(mem, heads, rings);
      TaskAdded(mem, rings, tasks, t, Task(NewTask, 0, [], 0, seq(cpus, _ => 0)));
      tasks := tasks[t := Task(NewTask, 0, [], 0, seq(cpus, _ => 0))];
    }

    /** The writes of `runqueue_insert_node`. */
    method LinkLast(p: Ptr, c: nat)
      requires c < |heads| && p in mem
      requires (heads[c] != 0 ==>
                  heads[c] in mem && mem[heads[c]].prev in mem && heads[c] != p && mem[heads[c]].prev != p)
      modifies this`mem, this`heads
      ensures mem == LinkedLast(old(mem), old(heads)[c], p, c)
      ensures heads == if old(heads)[c] == 0 then old(heads)[c := p] else old(heads)
    {
      mem := mem[p := mem[p].(cpu := c)];
      var first := heads[c];
      if first == 0 {
        heads := heads[c := p];
        mem := mem[p := mem[p].(prev := p)];
        mem := mem[p := mem[p].(next := p)];
      } else {
        var last := mem[first].prev;
        mem := mem[p := mem[p].(next := first)];
        mem := mem[p := mem[p].(prev := last)];
        mem := mem[last := mem[last].(next := p)];
        mem := mem[first := mem[first].(prev := p)];
      }
      assert mem == LinkedLast(old(mem), old(heads)[c], p, c);
    }

    method InsertNode(p: Ptr, c: nat)
      requires Rings(mem, heads, rings) && Counted(counts, rings) && c < |rings| && Nowhere(rings, p) && p in mem
      requires p != 0
      modifies this`mem, this`heads, this`counts, this`rings
      ensures mem.Keys == old(mem.Keys) && |heads| == old(|heads|)
      ensures NodeAdded(old(mem), old(rings), mem, rings, p, c) && Rings(mem, heads, rings) && Counted(counts, rings)
      ensures counts == old(counts)[c := old(counts)[c] + 1] && Sum(counts) == old(Sum(counts)) + 1
    {
      hide Rings, Sum, LinkedLast;
      InsertedRings(mem, heads, rings, p, c);
      RingsLength(mem, heads, rings);
      LinkLast(p, c);
      SumUpdate(counts, c, counts[c] + 1);
      counts := counts[c := counts[c] + 1];
      rings := rings[c := rings[c] + [p]];
      SameKeys(old(mem), mem, p);
    }

    method RemoveNode(p: Ptr, c: nat) returns (ghost k: nat)
      requires Rings(mem, heads, rings) && Counted(counts, rings) && c < |rings| && p in rings[c]
      modifies this`mem, this`heads, this`counts, this`rings
      ensures mem.Keys == old(mem.Keys) && |heads| == old(|heads|)
      ensures NodeDropped(old(mem), old(rings), mem, rings, p, c, k) && Rings(mem, heads, rings)
      ensures Counted(counts, rings)
      ensures old(mem)[p].next == NextIn(old(rings)[c], k)
      ensures Sum(counts) + 1 == old(Sum(counts))
    {
      hide Rings, Sum;
      k := DetachedRings(mem, heads, rings, c, p);
      RingsLength(mem, heads, rings);
      RingNoDups(mem, heads, rings, c);
      if mem[p].next == p {
        heads := heads[c := 0];
      } else {
        mem := mem[mem[p].prev := mem[mem[p].prev].(next := mem[p].next)];
        mem := mem[mem[p].next := mem[mem[p].next].(prev := mem[p].prev)];
        if heads[c] == p {
          heads := heads[c := mem[p].next];
        }
      }
      assert heads == old(heads)[c := DetachedHead(old(mem), old(heads)[c], p)];
      assert mem == Detached(old(mem), p);
      SumUpdate(counts, c, counts[c] - 1);
      counts := counts[c := counts[c] - 1];
      rings := rings[c := Without(rings[c], k)];
    }

    /** `task_get_any_thread_with_sched_cpu`: the first reference whose thread is on the queue. */
    method FindOnQueue(refs: seq<Ptr>, v: nat) returns (p: Ptr)
      requires forall r | r in refs :: r in mem && r != 0
      ensures p != 0 ==> p in refs && mem[p].cpu == v
      ensures p == 0 ==> forall r | r in refs :: mem[r].cpu != v
    {
      for i := 0 to |refs|
        invariant forall j | 0 <= j < i :: mem[refs[j]].cpu != v
      {
        if mem[refs[i]].cpu == v {
          return refs[i];
        }
      }
      p := 0;
    }

    /** `try_balance_task`. */
    method TryBalance(t: TaskId, c: nat, ghost garbage: set<Ptr>) returns (balanced: bool, stolen: Ptr)
      requires Ledger(garbage) && t in tasks && c < cpus && CurrentsExcept(mem, current, rings, c)
      modifies this`mem, this`heads, this`counts, this`rings, this`tasks
      ensures Ledger(garbage) && CurrentsExcept(mem, current, rings, c) && Sum(counts) == old(Sum(counts))
      ensures stolen == 0 ==> mem == old(mem) && rings == old(rings) && tasks == old(tasks) && heads == old(heads)
      ensures t in tasks && (stolen == 0 && balanced ==> EvenFor(tasks[t], c))
      ensures stolen != 0 ==> SameThreads(old(mem), mem, stolen) && stolen in mem && mem[stolen].state != Running
      ensures stolen != 0 ==> mem[stolen].owner == t
      ensures stolen != 0 ==> rings[c] == old(rings)[c] + [stolen] && stolen !in old(rings)[c]
      ensures stolen != 0 ==> Evened(old(tasks)[t], tasks[t]) && tasks == old(tasks)[t := tasks[t]]
    {
      hide Rings, Sum, Accounts, Kept, Counted, CurrentsExcept, Squares, SameThreads;
      stolen := 0;
      TaskShape(mem, heads, rings, tasks, t, counts, garbage);
      var task := tasks[t];
      var tmin := task.perCpu[c];
      var victimCpu, tmax, sum := MostLoaded(task.perCpu, counts);
      if tmax - tmin <= 1 || sum == 0 {
        SumZero(task.perCpu);
        return true, 0;
      }
      var locked: bool := *;
      if !locked {
        return false, 0;
      }
      var victim := FindOnQueue(task.refs, victimCpu);
      VictimExists(mem, heads, rings, tasks, t, victimCpu, victim);
      if mem[victim].state == Running || current[victimCpu] == victim {
        return false, 0;
      }
      ghost var mem0, rings0 := mem, rings;
      ghost var k := RemoveNode(victim, victimCpu);
      ghost var mem1, rings1 := mem, rings;
      InsertNode(victim, c);
      Moved(mem0, rings0, mem1, rings1, mem, rings, tasks, victim, victimCpu, k, c);
      StealLowers(task.perCpu, victimCpu, c);
      CurrentsMoved(mem0, rings0, mem1, rings1, mem, rings, current, victim, victimCpu, k, c);
      MovedKept(mem0, rings0, mem1, rings1, mem, rings, garbage, victim, victimCpu, k, c);
      var perCpu := task.perCpu[c := task.perCpu[c] + 1];
      perCpu := perCpu[victimCpu := perCpu[victimCpu] - 1];
      tasks := tasks[t := tasks[t].(perCpu := perCpu)];
      balanced, stolen := true, victim;
    }

    /** `task_try_delete_thread_ref`: the reference goes, with its counts; a task without threads is dead. */
    method DeleteRef(t: TaskId, p: Ptr) returns (ghost i: nat)
      requires t in tasks && p in tasks[t].refs && p in mem && tasks[t].state != DeadTask
      requires mem[p].cpu < |tasks[t].perCpu| && tasks[t].refCount > 0 && tasks[t].perCpu[mem[p].cpu] > 0
      modifies this`tasks
      ensures i < |old(tasks)[t].refs| && old(tasks)[t].refs[i] == p
      ensures tasks == old(tasks)[t := RefDropped(old(tasks)[t], i, mem[p].cpu)]
    {
      var node: nat := 0;
      while tasks[t].refs[node] != p
        invariant node < |tasks[t].refs| && forall j | 0 <= j < node :: tasks[t].refs[j] != p
        decreases |tasks[t].refs| - node
      {
        node := node + 1;
      }
      i := node;
      var task := tasks[t];
      task := task.(refCount := task.refCount - 1);
      task := task.(perCpu := task.perCpu[mem[p].cpu := task.perCpu[mem[p].cpu] - 1]);
      task := task.(refs := Without(task.refs, node));
      if task.refs == [] {
        task := task.(state := DeadTask);
      }
      tasks := tasks[t := task];
    }

    /** `unqueue_thread`: a dead thread leaves its ring and its task, and the task is balanced. */
    method Unqueue(p: Ptr, c: nat, ghost garbage: set<Ptr>) returns (stolen: Ptr, ghost k: nat)
      requires Ledger(garbage) && c < cpus && p in rings[c] && p in mem && mem[p].state == Dead
      requires CurrentsExcept(mem, current, rings, c) && total == Sum(counts)
      modifies this
      ensures Ledger(garbage + {p}) && CurrentsExcept(mem, current, rings, c) && total == Sum(counts)
      ensures total + 1 == old(total)
      ensures current == if old(current)[c] == p then old(current)[c := 0] else old(current)
      ensures k < |old(rings)[c]| && old(rings)[c][k] == p && old(mem)[p].next == NextIn(old(rings)[c], k)
      ensures rings[c] == Without(old(rings)[c], k) + if stolen == 0 then [] else [stolen]
      ensures stolen != 0 ==> stolen in mem && mem[stolen].state != Running && mem[stolen].owner == old(mem)[p].owner
      ensures SameStates(old(mem), mem) && TaskStates(old(tasks), tasks)
    {
      hide Rings, Sum, Accounts, Kept, Counted, CurrentsExcept, Squares, SameThreads, Evened, SameStates, TaskStates;
      ghost var mem0, rings0, tasks0, current0 := mem, rings, tasks, current;
      UnqueueFacts(mem, heads, rings, tasks, counts, p, c);
      if current[c] == p {
        current := current[c := 0];
      }
      k := RemoveNode(p, c);
      ghost var mem1, rings1 := mem, rings;
      var t := mem[p].owner;
      SameOwner(mem0, mem1, p);
      ghost var i := OwnRef(mem0, rings0, tasks, p);
      Reaped(mem0, rings0, mem1, rings1, tasks, p, c, k, i);
      i := DeleteRef(t, p);
      Reaped(mem0, rings0, mem1, rings1, tasks0, p, c, k, i);
      ghost var tasks1 := tasks;
      DroppedKept(mem0, rings0, mem1, rings1, garbage, p, c, k);
      CurrentsSame(mem0, rings0, mem1, rings1, current0, current, p, c);
      DroppedStates(mem0, rings0, mem1, rings1, tasks0, tasks1, p, c, k, i);
      var balanced;
      balanced, stolen := TryBalance(t, c, garbage + {p});
      MovedStates(mem0, mem1, mem, tasks0, tasks1, tasks, t, stolen);
      total := total - 1;
    }

    /**
     * The reference is counted on the least loaded queue, and moved to the caller's own if that queue's lock is taken.
     */
    method ChooseQueue(t: TaskId, p: Ptr, self: nat) returns (c: nat)
      requires t in tasks && self < |tasks[t].perCpu| == |counts|
      requires forall i | 0 <= i < |counts| :: tasks[t].perCpu[i] <= MAX_REFS
      modifies this`tasks
      ensures c < |old(tasks)[t].perCpu| && tasks == old(tasks)[t := RefAdded(old(tasks)[t], p, c)]
      ensures c == self || Least(old(tasks)[t].perCpu, counts, c)
    {
      hide RefAdded, Least;
      c := LeastLoaded(tasks[t].perCpu, counts);
      assert c < |counts| by { LeastBelow(tasks[t].perCpu, counts, c); }
      ghost var task0 := tasks[t];
      tasks := tasks[t := RefAdded(tasks[t], p, c)];
      var locked: bool := *;
      if !locked && c != self {
        var task := tasks[t];
        RefAddedShape(task0, p, c);
        Redirected(task0, p, c, self);
        tasks := tasks[t := task.(perCpu := task.perCpu[c := task.perCpu[c] - 1][self := task.perCpu[self] + 1])];
        c := self;
      }
    }

    /**
     * `schedule_thread`, with `self` the calling core: the thread joins the queue where its task has fewest threads, or
     * the caller's own when that queue's lock is taken. Refused, as the source panics, when the task has the largest
     * number of threads. Nothing keeps a dead task from getting a thread, which is then linked without a living task.
     */
    method Spawn(t: TaskId, startReady: bool, p: Ptr, self: nat) returns (ok: bool, c: nat)
      requires Valid() && t in tasks && p !in mem && p != 0 && self < cpus
      modifies this
      ensures (Valid() <==> !ok || old(tasks)[t].state != DeadTask) && (ok <==> old(tasks)[t].refCount < MAX_REFS)
      ensures !ok ==> mem == old(mem) && rings == old(rings) && tasks == old(tasks) && total == old(total)
      ensures ok ==> c < cpus && rings == old(rings)[c := old(rings)[c] + [p]] && total == old(total) + 1
      ensures ok ==> c == self || Least(old(tasks)[t].perCpu, old(counts), c)
      ensures ok ==> c < |old(tasks)[t].perCpu| && tasks == old(tasks)[t := RefAdded(old(tasks)[t], p, c)]
      ensures ok ==> p in mem && mem[p].owner == t && mem[p].state == (if startReady then Ready else New)
      ensures forall x | x in old(mem) ::
                x in mem && mem[x].owner == old(mem)[x].owner && mem[x].state == old(mem)[x].state
    {
      hide Rings, Sum, Accounts, Kept, CurrentsExcept, SameThreads, RefAdded;
      PerCpuSmall(mem, heads, rings, tasks, t);
      if tasks[t].refCount == MAX_REFS {
        return false, 0;
      }
      ghost var mem0, rings0, tasks0 := mem, rings, tasks;
      c := ChooseQueue(t, p, self);
      FreshNode(mem, heads, rings, tasks0, p, Thread(0, 0, t, c, New));
      mem := mem[p := Thread(0, 0, t, c, New)];
      ghost var mem1 := mem;
      InsertNode(p, c);
      if tasks0[t].state != DeadTask {
        Spawned(mem1, rings0, mem, rings, tasks0, p, c);
      } else {
        DeadOwner(tasks0[t], p, c);
      }
      SpawnedKept(mem0, rings0, mem1, mem, rings, current, p, Thread(0, 0, t, c, New), c);
      total := total + 1;
      if startReady {
        if tasks0[t].state != DeadTask { StateSet(mem, heads, rings, tasks, {}, p, Ready); }
        CurrentsSet(mem, rings, current, p, Ready, cpus);
        mem := mem[p := mem[p].(state := Ready)];
      }
      ok := true;
      if tasks0[t].state == DeadTask { DeadUnaccounted(mem, rings, tasks, t); }
    }

    /** `unschedule_thread`: an atomic exchange. */
    method Kill(p: Ptr) returns (previous: ThreadState)
      requires Valid() && p in mem
      modifies this`mem
      ensures Valid() && previous == old(mem)[p].state && mem == old(mem)[p := old(mem)[p].(state := Dead)]
      ensures DeadStays(old(mem), mem)
    {
      hide Rings, Sum, Accounts, Kept, CurrentsExcept;
      StateSet(mem, heads, rings, tasks, {}, p, Dead);
      CurrentsSet(mem, rings, current, p, Dead, cpus);
      previous := mem[p].state;
      mem := mem[p := mem[p].(state := Dead)];
    }

    /** `thread_promote_to_ready`: a compare-and-swap; refused, as the source asserts, unless the thread is new. */
    method Promote(p: Ptr) returns (ok: bool)
      requires Valid() && p in mem
      modifies this`mem
      ensures Valid() && (ok <==> old(mem)[p].state == New)
      ensures mem == if ok then old(mem)[p := old(mem)[p].(state := Ready)] else old(mem)
      ensures DeadStays(old(mem), mem)
    {
      hide Rings, Sum, Accounts, Kept, CurrentsExcept;
      ok := mem[p].state == New;
      if ok {
        StateSet(mem, heads, rings, tasks, {}, p, Ready);
        CurrentsSet(mem, rings, current, p, Ready, cpus);
        mem := mem[p := mem[p].(state := Ready)];
      }
    }

    /** `terminate_task`: the first call decides the exit code. */
    method Terminate(t: TaskId, exitCode: int)
      requires Valid() && t in tasks
      modifies this`tasks
      ensures Valid() && t in tasks && tasks == old(tasks)[t := tasks[t]]
      ensures tasks[t] == old(tasks)[t].(state := Dying,
                                         exitCode := if old(tasks)[t].state ==
                                         Dying then old(tasks)[t].exitCode else exitCode)
    {
      hide Rings, Sum, Kept, CurrentsExcept, Accounts;
      var previous := tasks[t].state;
      var task := tasks[t].(state := Dying);
      if previous != Dying {
        task := task.(exitCode := exitCode);
      }
      TaskStateSet(mem, rings, tasks, t, task);
      tasks := tasks[t := task];
    }

    /**
     * Between the steps of a scheduling call on queue `c`: the reaped nodes are not yet freed, and no thread of the
     * queue runs.
     */
    ghost predicate Deciding(c: nat, garbage: set<Ptr>)
      reads this
    {
      Ledger(garbage) && c < cpus && total == Sum(counts) && CurrentsExcept(mem, current, rings, c) &&
      NoneRunning(mem, rings[c])
    }

    /**
     * The first thread of the scan, which is dead, is unqueued; the scan goes on with `sel`, if the ring is not empty.
     */
    method ReapFirst(node: Ptr, c: nat, ghost w: seq<Ptr>, ghost i: nat, ghost garbage: set<Ptr>)
      returns (sel: Ptr, ghost w': seq<Ptr>, ghost i': nat, ghost stolen: Ptr)
      requires Deciding(c, garbage) && Scan(rings[c], w, i) && w != [] && w[0] == node && node in mem
      requires mem[node].state == Dead
      modifies this
      ensures Deciding(c, garbage + {node}) && total + 1 == old(total) && current[c := 0] == old(current)[c := 0]
      ensures SameStates(old(mem), mem) && TaskStates(old(tasks), tasks)
      ensures Scan(rings[c], w', i') && (w' == [] <==> rings[c] == []) && (w' == [] <==> heads[c] == 0)
      ensures (w' != [] ==> sel == w'[0])
      ensures i < |old(rings)[c]| && ScanReaped(old(rings)[c], w, i, garbage + {node}, stolen, rings[c], w', i')
      ensures stolen != 0 ==> stolen in mem && mem[stolen].owner == old(mem)[node].owner
      ensures forall x | x in w && x != node :: x in w'
      ensures forall x | x in w' :: x in w || (stolen != 0 && x == stolen)
    {
      hide Rings, Sum, Accounts, Kept, Counted, CurrentsExcept, SameStates, TaskStates, NoneRunning, Scan;
      ghost var l, mem0 := rings[c], mem;
      ScanHead(l, w, i);
      RingState(mem, heads, rings, c);
      var next := mem[node].next;
      ghost var k;
      stolen, k := Unqueue(node, c, garbage);
      SameIndex(l, i, k);
      RingState(mem, heads, rings, c);
      if stolen != 0 { LinkedKept(mem, heads, rings, garbage + {node}, c, stolen); }
      w', i' := ReapScan(l, w, i, garbage + {node}, stolen, rings[c]);
      ReapedIdle(mem0, mem, l, k, stolen, rings[c]);
      ScanEmpty(rings[c], w', i');
      sel := if next != node then next else heads[c];
    }

    /** The call returns: the chosen thread, if any, is current and running, and the reaped nodes are freed. */
    method Switch(s: Ptr, c: nat, freed: seq<Ptr>)
      requires Deciding(c, AsSet(freed)) && (if s == 0 then rings[c] == [] else s in rings[c])
      modifies this`mem, this`current
      ensures Valid() && current == old(current)[c := s] && mem.Keys == old(mem.Keys) - AsSet(freed)
      ensures forall x | x in mem ::
                mem[x].state == (if s != 0 && x == s then Running else old(mem)[x].state) &&
                mem[x].owner == old(mem)[x].owner
      ensures s != 0 ==> s in mem
    {
      hide Rings, Sum, Accounts, Kept, Counted, CurrentsExcept, NoneRunning, AsSet;
      if s == 0 {
        EmptyValid(mem, heads, rings, tasks, current, AsSet(freed), c);
      } else {
        PickedValid(mem, heads, rings, tasks, current, AsSet(freed), c, s);
        mem := mem[s := mem[s].(state := Running)];
      }
      current := current[c := s];
      mem := mem - AsSet(freed);
    }

    /** `Switch`, told against the state before the call. */
    method Finish(s: Ptr, c: nat, freed: seq<Ptr>, ghost mem0: Threads, ghost t0: Tasks, ghost cur: Ptr,
                  ghost current0: seq<Ptr>)
      requires Deciding(c, AsSet(freed)) && (if s == 0 then rings[c] == [] else s in rings[c])
      requires cur in mem0 && cur != 0 && Steady(Yielded(mem0, cur), t0, mem, tasks, AsSet(freed))
      requires c < |current0| && current[c := 0] == current0[c := 0]
      modifies this`mem, this`current
      ensures Valid() && current == current0[c := s] && mem.Keys == mem0.Keys - AsSet(freed)
      ensures Decided(mem0, cur, mem, s) && TaskStates(t0, tasks) && forall x | x in freed :: Gone(mem0, t0, x)
      ensures s != 0 ==> s in mem && mem[s].state == Running
    {
      hide Rings, Sum, Accounts, Kept, Counted, CurrentsExcept, NoneRunning, AsSet, TaskStates, Steady, Gone, Decided,
        Yielded;
      ghost var mem1 := mem;
      Switch(s, c, freed);
      DecideEnds(mem0, cur, t0, mem1, tasks, freed, mem, s);
      assert current == current0[c := 0][c := s] == current0[c := s];
    }

    /**
     * The scan of a scheduling call: started with threads `m0`, tasks `t0` and the ring `ring0`, it has `w` ahead and
     * has stolen `taken`.
     */
    ghost predicate Scanning(c: nat, m0: Threads, t0: Tasks, ring0: seq<Ptr>, w: seq<Ptr>, i: nat, freed: seq<Ptr>,
                             taken: seq<Ptr>, j: nat, q: nat, lap: nat, wit: Ptr)
      reads this
    {
      && Deciding(c, AsSet(freed)) && Scan(rings[c], w, i) && Steady(m0, t0, mem, tasks, AsSet(freed)) && NoDups(freed)
      && Hopeful(m0, t0, ring0, w, wit) && (freed != [] ==> freed[0] in ring0)
      && |taken| <= |freed| && (forall x | x in taken :: x in m0)
      && Ordered(m0, t0, ring0, taken, rings[c], w, AsSet(freed), j, q, lap) && Settled(ring0 + taken, w, q)
    }

    /**
     * The scan's next thread is to be reaped: it is marked dead if its task is dying, unqueued, and the scan goes on.
     */
    method ReapNext(node: Ptr, c: nat, freed: seq<Ptr>, dying: bool,
                    ghost m0: Threads, ghost t0: Tasks, ghost ring0: seq<Ptr>, ghost w: seq<Ptr>, ghost i: nat,
                    ghost taken: seq<Ptr>, ghost j: nat, ghost q: nat, ghost lap: nat, ghost wit: Ptr)
      returns (sel: Ptr, ghost w': seq<Ptr>, ghost i': nat, ghost taken': seq<Ptr>, ghost q': nat, ghost lap': nat)
      requires Scanning(c, m0, t0, ring0, w, i, freed, taken, j, q, lap, wit) && w != [] && w[0] == node
      requires node in mem && Gone(m0, t0, node) && (!dying ==> mem[node].state == Dead)
      modifies this
      ensures Scanning(c, m0, t0, ring0, w', i', freed + [node], taken', j, q', lap', wit) && total + 1 == old(total)
      ensures current[c := 0] == old(current)[c := 0]
      ensures (w' == [] <==> heads[c] == 0) && (w' == [] <==> rings[c] == []) && (w' != [] ==> sel == w'[0])
    {
      hide Rings, Sum, Accounts, Kept, Counted, CurrentsExcept, NoneRunning, AsSet, SameStates, TaskStates, Steady,
        Hopeful, Ordered, Scan, Gone, NoDups, Settled, ScanReaped;
      ghost var mem0, ring, tasks1 := mem, rings[c], tasks;
      ScanHead(ring, w, i);
      if freed == [] { FirstReaped(m0, t0, ring0, ring, w, i, AsSet(freed), j, q, lap); }
      NextThread(m0, t0, mem, heads, rings, tasks, AsSet(freed), c, node);
      StateSet(mem, heads, rings, tasks, AsSet(freed), node, Dead);
      SetDead(mem, rings, current, node, c);
      if dying {
        mem := mem[node := mem[node].(state := Dead)];
      }
      ghost var mem1 := mem;
      assert mem1 == mem0[node := mem0[node].(state := Dead)];
      ghost var stolen;
      sel, w', i', stolen := ReapFirst(node, c, w, i, AsSet(freed));
      SteadyReap(m0, t0, mem0, tasks1, AsSet(freed), node, mem1, mem, tasks);
      SteadyOwner(m0, t0, mem0, tasks1, AsSet(freed), node);
      if stolen != 0 { SteadyOwner(m0, t0, mem, tasks, AsSet(freed) + {node}, stolen); }
      HopefulReap(m0, t0, ring0, w, wit, w', stolen);
      taken', q', lap' := ReapStep(m0, t0, ring0, taken, ring, w, i, AsSet(freed), j, q, lap, wit, stolen, rings[c], w',
                                   i');
      SteadyKeys(m0, t0, mem, tasks, AsSet(freed) + {node});
      FreedMore(freed, node);
    }

    /** The first part of `runqueue_schedule`: the current thread gives way, or is reaped if it was killed. */
    method GiveWay(c: nat, ghost wit: Ptr)
      returns (sel: Ptr, skip: bool, freed: seq<Ptr>, ghost w: seq<Ptr>, ghost i: nat,
               ghost taken: seq<Ptr>, ghost j: nat, ghost q: nat, ghost lap: nat)
      requires Valid() && c < cpus && current[c] != 0
      requires if wit == 0 then NoneWaiting(mem, tasks, rings[c])
               else wit in rings[c] && Candidate(mem, tasks, current[c], wit)
      modifies this
      ensures var cur := old(current)[c];
              && cur in old(mem) && j < |old(rings)[c]| && old(rings)[c][j] == cur
              && Scanning(c, Yielded(old(mem), cur), old(tasks), old(rings)[c], w, i, freed, taken, j, q, lap, wit)
              && current[c := 0] == old(current)[c := 0]
      ensures (w == [] <==> heads[c] == 0) && (w == [] <==> rings[c] == [])
      ensures w != [] ==> if skip then sel == w[0] else sel in mem && mem[sel].next == w[0]
    {
      hide Rings, Sum, Accounts, Kept, Counted, CurrentsExcept, NoneRunning, SameStates, TaskStates, Steady, Hopeful,
        Ordered, Scan, Gone, After, Remaining, Settled, ScanReaped;
      var curr := current[c];
      ghost var ring0, mem0, tasks0 := rings[c], mem, tasks;
      j := YieldStarts(mem, heads, rings, tasks, current, c);
      ghost var m0 := Yielded(mem, curr);
      RingState(mem, heads, rings, c);
      assert AsSet([]) == {};
      if mem[curr].state == Running {
        OrderedStart(m0, tasks, ring0, j);
        w, i := After(ring0, j), if j + 1 < |ring0| then j + 1 else 0;
        WitnessYielded(mem, tasks, curr, ring0, wit, w, i);
        mem := mem[curr := mem[curr].(state := Ready)];
        sel, skip, freed, taken := curr, false, [], [];
        q, lap := Settle(m0, tasks, ring0, [], ring0, w, {}, j, j + 1, 0, wit);
      } else {
        ghost var w0 := FromHere(ring0, j);
        ScanFrom(ring0, j);
        WitnessYielded(mem, tasks, curr, ring0, wit, w0, j);
        DeadGone(mem, tasks, curr);
        ghost var stolen;
        sel, w, i, stolen := ReapFirst(curr, c, w0, j, {});
        assert mem0 == mem0[curr := mem0[curr].(state := Dead)];
        SteadyReap(m0, tasks0, mem0, tasks0, {}, curr, mem0, mem, tasks);
        SteadyOwner(m0, tasks0, mem0, tasks0, {}, curr);
        if stolen != 0 { SteadyOwner(m0, tasks0, mem, tasks, {} + {curr}, stolen); }
        HopefulReap(m0, tasks0, ring0, w0, wit, w, stolen);
        assert AsSet([curr]) == {} + {curr} == {curr};
        taken, q, lap := ReapCurrent(m0, tasks0, ring0, j, wit, stolen, rings[c], w, i);
        SteadyKeys(m0, tasks0, mem, tasks, {curr});
        freed, skip := [curr], true;
      }
    }

    /** The selection loop of `runqueue_schedule`; 0 when the ring runs empty. */
    method Select(start: Ptr, skipAdvance: bool, c: nat, reaped: seq<Ptr>,
                  ghost m0: Threads, ghost t0: Tasks, ghost ring0: seq<Ptr>, ghost w0: seq<Ptr>, ghost i0: nat,
                  ghost taken0: seq<Ptr>, ghost j: nat, ghost q0: nat, ghost lap0: nat, ghost wit: Ptr)
      returns (s: Ptr, freed: seq<Ptr>, ghost w: seq<Ptr>, ghost i: nat, ghost taken: seq<Ptr>, ghost q: nat,
               ghost lap: nat)
      requires Scanning(c, m0, t0, ring0, w0, i0, reaped, taken0, j, q0, lap0, wit) && w0 != []
      requires if skipAdvance then start == w0[0] else start in mem && mem[start].next == w0[0]
      modifies this
      ensures Scanning(c, m0, t0, ring0, w, i, freed, taken, j, q, lap, wit) && current[c := 0] == old(current)[c := 0]
      ensures s == 0 ==> rings[c] == []
      ensures s != 0 ==>
                w != [] && s == w[0] && s in rings[c] && s in m0 && m0[s].state == Ready && !DyingOwner(m0, t0, s)
    {
      hide Rings, Sum, Accounts, Kept, Counted, CurrentsExcept, NoneRunning, AsSet, SameStates, TaskStates, Steady,
        Hopeful, Ordered, Scan, Gone, Waiting, Remaining, NoDups, IndexOf, NoneWaiting, DyingOwner, Settled;
      var sel, skip := start, skipAdvance;
      freed, w, i, taken, q, lap := reaped, w0, i0, taken0, q0, lap0;
      while true
        invariant Scanning(c, m0, t0, ring0, w, i, freed, taken, j, q, lap, wit) && w != []
        invariant if skip then sel == w[0] else sel in mem && mem[sel].next == w[0]
        invariant current[c := 0] == old(current)[c := 0]
        decreases total, if wit != 0 then IndexOf(w, wit) else 0
      {
        if !skip {
          sel := mem[sel].next;
        }
        skip := false;
        ScanHead(rings[c], w, i);
        NextThread(m0, t0, mem, heads, rings, tasks, AsSet(freed), c, sel);
        if tasks[mem[sel].owner].state == Dying {
          var node := sel;
          MarkGone(m0, t0, node);
          sel, w, i, taken, q, lap := ReapNext(node, c, freed, true, m0, t0, ring0, w, i, taken, j, q, lap, wit);
          freed := freed + [node];
          if heads[c] == 0 {
            s := 0;
            return;
          }
          skip := true;
        } else {
          match mem[sel].state {
            case Ready =>
              s := sel;
              return;
            case New =>
              q, lap := PassStep(m0, t0, ring0, taken, mem, heads, rings, c, w, i, AsSet(freed), j, q, lap, wit);
              w, i := w[1..] + [w[0]], if i + 1 < |rings[c]| then i + 1 else 0;
            case Dead =>
              var node := sel;
              MarkGone(m0, t0, node);
              sel, w, i, taken, q, lap := ReapNext(node, c, freed, false, m0, t0, ring0, w, i, taken, j, q, lap, wit);
              freed := freed + [node];
              if heads[c] == 0 {
                s := 0;
                return;
              }
              skip := true;
            case Running => assert false;
            case Sleeping => assert false;
          }
        }
      }
    }

    /**
     * `runqueue_schedule`. It returns when a thread can be picked, or when no thread that it can meet is still being
     * set up; otherwise the source spins. No step of it can panic.
     */
    method Schedule(c: nat)
      returns (s: Ptr, freed: seq<Ptr>, ghost taken: seq<Ptr>, ghost j: nat, ghost p: nat, ghost lap: nat)
      requires Valid() && c < cpus && current[c] != 0
      requires (exists x :: x in rings[c] && Candidate(mem, tasks, current[c], x)) || NoneWaiting(mem, tasks, rings[c])
      modifies this
      ensures Valid() && current == old(current)[c := s]
      ensures s == 0 ==> rings[c] == []
      ensures s != 0 ==>
                s in rings[c] && s in mem && mem[s].state == Running &&
                Candidate(old(mem), old(tasks), old(current)[c], s)
      ensures NoDups(freed) && mem.Keys == old(mem.Keys) - AsSet(freed)
      ensures forall x | x in freed :: Gone(old(mem), old(tasks), x)
      ensures old(current)[c] in old(mem) && Decided(old(mem), old(current)[c], mem, s) && TaskStates(old(tasks), tasks)
      ensures DeadStays(old(mem), mem)
      ensures |taken| <= |freed| && (freed != [] ==> freed[0] in old(rings)[c])
      ensures forall x | x in taken :: exists v :: 0 <= v < |old(rings)| && v != c && x in old(rings)[v]
      ensures rings[c] == Remaining(old(rings)[c] + taken, AsSet(freed)) && NoDups(old(rings)[c] + taken)
      ensures j < |old(rings)[c]| && old(rings)[c][j] == old(current)[c]
      ensures s != 0 ==> PickedInOrder(old(mem), old(tasks), old(rings)[c], taken, j, freed, s, p, lap)
    {
      hide Rings, Sum, Accounts, Kept, Counted, CurrentsExcept, NoneRunning, AsSet, SameStates, TaskStates, Steady,
        Hopeful, Ordered, Scan, Candidate, Gone, Waiting, PickedInOrder, After, Remaining, Yielded, NoDups, IndexOf,
        NoneWaiting, Decided, DyingOwner, Settled;
      ghost var cur, ring0, mem0, t0, current0 := current[c], rings[c], mem, tasks, current;
      ghost var wit := Witness(mem, heads, rings, tasks, c, cur);
      ghost var w: seq<Ptr>, i: nat;
      ghost var heads0, rings0 := heads, rings;
      var sel, skip;
      sel, skip, freed, w, i, taken, j, p, lap := GiveWay(c, wit);
      if heads[c] == 0 {
        s := 0;
      } else {
        s, freed, w, i, taken, p, lap := Select(sel, skip, c, freed, Yielded(mem0, cur), t0, ring0, w, i, taken, j, p,
                                                lap, wit);
        if s != 0 {
          PickedCandidate(mem0, t0, cur, s);
          OrderedPicked(mem0, t0, ring0, taken, j, rings[c], w, freed, p, lap);
        }
      }
      OrderedRing(Yielded(mem0, cur), t0, ring0, taken, rings[c], w, AsSet(freed), j, p, lap);
      TakenElsewhere(mem0, heads0, rings0, cur, c, taken);
      Finish(s, c, freed, mem0, t0, cur, current0);
      NoNullNode(mem, heads, rings);
      DecidedDead(mem0, t0, cur, mem, s);
    }

    /** Calls on a queue whose threads all stay candidates: each runs in turn, in ring order. */
    method RunTurns(c: nat, calls: nat, ghost k: nat)
      requires Valid() && c < cpus && k < |rings[c]| && current[c] == rings[c][k] != 0
      requires AllCandidates(mem, tasks, rings[c], current[c])
      modifies this
      ensures Valid() && rings[c] == old(rings)[c] && current[c] == rings[c][Turn(k, calls, |rings[c]|)]
      ensures AllCandidates(mem, tasks, rings[c], current[c])
    {
      hide Rings, Sum, Accounts, Kept, Counted, CurrentsExcept, AllCandidates, Candidate, Gone, PickedInOrder,
        Remaining, NoDups, TaskStates, Decided, NoneWaiting, AsSet;
      ghost var l := rings[c];
      for i := 0 to calls
        invariant Valid() && rings[c] == l && current[c] == l[Turn(k, i, |l|)] && current[c] != 0
        invariant AllCandidates(mem, tasks, l, current[c])
      {
        ghost var mem0, t0, at := mem, tasks, Turn(k, i, |l|);
        CurrentCandidate(mem, tasks, l, at);
        RingState(mem, heads, rings, c);
        var s, freed;
        ghost var taken, j, p, lap;
        s, freed, taken, j, p, lap := Schedule(c);
        SameIndex(l, at, j);
        RoundStep(mem0, t0, l, taken, j, mem, tasks, rings[c], freed, s, p, lap);
      }
    }
  }
}
