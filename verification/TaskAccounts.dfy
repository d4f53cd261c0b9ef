/**
 * What the counters of tasks and run queues count (src/kernel/scheduler/task.c:63-137, include/kernel/task.h:14-38).
 */
module TaskAccounts {
  import opened RunRing
  import opened Sequences

  datatype TaskState = NewTask | Alive | Dying | DeadTask

  /** `task_t`: the thread references in list order, their number, and the number on each queue. */
  datatype Task = Task(state: TaskState, exitCode: int, refs: seq<Ptr>, refCount: nat, perCpu: seq<nat>)

  type Tasks = map<TaskId, Task>

  const MAX_REFS: nat := 1024

  /** The nodes of a ring that belong to a task. */
  function OwnedOn(mem: Threads, l: seq<Ptr>, t: TaskId): set<Ptr> {
    set p | p in l && p in mem && mem[p].owner == t
  }

  ghost predicate TaskOk(mem: Threads, rings: seq<seq<Ptr>>, k: Task, t: TaskId) {
    && NoDups(k.refs) && k.refCount == |k.refs| <= MAX_REFS && |k.perCpu| == |rings|
    && (k.state == DeadTask ==> k.refs == [])
    && (forall p {:trigger p in k.refs} :: p in k.refs <==> Linked(mem, rings, p) && mem[p].owner == t)
    && (forall c: nat {:trigger k.perCpu[c]} | c < |rings| :: k.perCpu[c] == |OwnedOn(mem, rings[c], t)|)
  }

  ghost predicate Accounts(mem: Threads, rings: seq<seq<Ptr>>, tasks: Tasks) {
    && (forall t {:trigger TaskOk(mem, rings, tasks[t], t)} | t in tasks :: TaskOk(mem, rings, tasks[t], t))
    && (forall p {:trigger Linked(mem, rings, p)} | Linked(mem, rings, p) :: mem[p].owner in tasks)
  }

  // One node enters or leaves a ring

  ghost predicate NodeAdded(mem: Threads, rings: seq<seq<Ptr>>, mem': Threads, rings': seq<seq<Ptr>>, p: Ptr, c: nat) {
    && c < |rings| && rings' == rings[c := rings[c] + [p]] && Nowhere(rings, p) && p in mem
    && SameThreads(mem, mem', p) && mem'[p].cpu == c
  }

  ghost predicate NodeDropped(mem: Threads, rings: seq<seq<Ptr>>, mem': Threads, rings': seq<seq<Ptr>>, p: Ptr, c: nat,
                              k: nat) {
    && c < |rings| && k < |rings[c]| && rings[c][k] == p && NoDups(rings[c]) &&
    rings' == rings[c := Without(rings[c], k)]
    && Nowhere(rings', p) && p in mem && SameThreads(mem, mem', p) && mem[p].cpu == mem'[p].cpu == c
  }

  lemma AddedOwned(mem: Threads, rings: seq<seq<Ptr>>, mem': Threads, rings': seq<seq<Ptr>>, p: Ptr, c: nat, t: TaskId,
                   q: nat)
    requires NodeAdded(mem, rings, mem', rings', p, c) && q < |rings|
    ensures |OwnedOn(mem', rings'[q], t)| == |OwnedOn(mem, rings[q], t)| + if q == c && mem[p].owner == t then 1 else 0
  {
    var s, s' := OwnedOn(mem, rings[q], t), OwnedOn(mem', rings'[q], t);
    assert p !in rings[q];
    assert s' == if q == c && mem[p].owner == t then s + {p} else s;
  }

  lemma DroppedOwned(mem: Threads, rings: seq<seq<Ptr>>, mem': Threads, rings': seq<seq<Ptr>>, p: Ptr, c: nat, k: nat,
                     t: TaskId, q: nat)
    requires NodeDropped(mem, rings, mem', rings', p, c, k) && q < |rings|
    ensures |OwnedOn(mem, rings[q], t)| == |OwnedOn(mem', rings'[q], t)| + if q == c && mem[p].owner == t then 1 else 0
  {
    var s, s' := OwnedOn(mem, rings[q], t), OwnedOn(mem', rings'[q], t);
    WithoutMembers(rings[c], k);
    assert p !in rings'[q];
    assert s == if q == c && mem[p].owner == t then s' + {p} else s';
  }

  function RefAdded(k: Task, p: Ptr, c: nat): Task
    requires c < |k.perCpu|
  {
    k.(refs := [p] + k.refs, refCount := k.refCount + 1, perCpu := k.perCpu[c := k.perCpu[c] + 1])
  }

  /** A new thread of `t` in the ring of queue `c`. */
  lemma Spawned(mem: Threads, rings: seq<seq<Ptr>>, mem': Threads, rings': seq<seq<Ptr>>, tasks: Tasks, p: Ptr, c: nat)
    requires Accounts(mem, rings, tasks) && NodeAdded(mem, rings, mem', rings', p, c) && !Linked(mem, rings, p)
    requires mem[p].owner in tasks && tasks[mem[p].owner].state != DeadTask && tasks[mem[p].owner].refCount < MAX_REFS
    ensures |tasks[mem[p].owner].perCpu| == |rings|
    ensures Accounts(mem', rings', tasks[mem[p].owner := RefAdded(tasks[mem[p].owner], p, c)])
  {
    var o := mem[p].owner;
    assert TaskOk(mem, rings, tasks[o], o);
    var tasks' := tasks[o := RefAdded(tasks[o], p, c)];
    AddedLinked(mem, rings, mem', rings', p, c);
    forall t {:trigger TaskOk(mem', rings', tasks'[t], t)} | t in tasks' ensures TaskOk(mem', rings', tasks'[t], t) {
      assert TaskOk(mem, rings, tasks[t], t) && p !in tasks[t].refs;
      forall q: nat {:trigger tasks'[t].perCpu[q]} | q < |rings'|
        ensures tasks'[t].perCpu[q] == |OwnedOn(mem', rings'[q], t)|
      {
        AddedOwned(mem, rings, mem', rings', p, c, t, q);
      }
    }
  }

  lemma AddedLinked(mem: Threads, rings: seq<seq<Ptr>>, mem': Threads, rings': seq<seq<Ptr>>, p: Ptr, c: nat)
    requires NodeAdded(mem, rings, mem', rings', p, c) && !Linked(mem, rings, p)
    ensures forall x {:trigger Linked(mem', rings', x)} :: Linked(mem', rings', x) <==> Linked(mem, rings, x) || x == p
    ensures forall x {:trigger Linked(mem, rings, x)} ::
              Linked(mem, rings, x) ==> Linked(mem', rings', x) && mem'[x].owner == mem[x].owner
  {
  }

  lemma DroppedLinked(mem: Threads, rings: seq<seq<Ptr>>, mem': Threads, rings': seq<seq<Ptr>>, p: Ptr, c: nat, k: nat)
    requires NodeDropped(mem, rings, mem', rings', p, c, k)
    ensures forall x {:trigger Linked(mem', rings', x)} :: Linked(mem', rings', x) <==> Linked(mem, rings, x) && x != p
    ensures Linked(mem, rings, p)
  {
    WithoutMembers(rings[c], k);
    assert p in rings[c];
  }

  function RefDropped(k: Task, i: nat, c: nat): Task
    requires c < |k.perCpu| && i < |k.refs| && k.refCount > 0 && k.perCpu[c] > 0
  {
    k.(refs := Without(k.refs, i), refCount := k.refCount - 1, perCpu := k.perCpu[c := k.perCpu[c] - 1],
       state := if |k.refs| == 1 then DeadTask else k.state)
  }

  /** A thread left its ring and its task; the task is dead when it was the last. */
  lemma Reaped(mem: Threads, rings: seq<seq<Ptr>>, mem': Threads, rings': seq<seq<Ptr>>, tasks: Tasks, p: Ptr, c: nat,
               k: nat, i: nat)
    requires Accounts(mem, rings, tasks) && NodeDropped(mem, rings, mem', rings', p, c, k)
    requires mem[p].owner in tasks && i < |tasks[mem[p].owner].refs| && tasks[mem[p].owner].refs[i] == p
    ensures var o := tasks[mem[p].owner];
            c < |o.perCpu| && o.refCount > 0 && o.perCpu[c] > 0 &&
            Accounts(mem', rings', tasks[mem[p].owner := RefDropped(o, i, c)])
  {
    var o := mem[p].owner;
    assert TaskOk(mem, rings, tasks[o], o);
    DroppedLinked(mem, rings, mem', rings', p, c, k);
    DroppedOwned(mem, rings, mem', rings', p, c, k, o, c);
    WithoutMembers(tasks[o].refs, i);
    var tasks' := tasks[o := RefDropped(tasks[o], i, c)];
    forall t {:trigger TaskOk(mem', rings', tasks'[t], t)} | t in tasks' ensures TaskOk(mem', rings', tasks'[t], t) {
      assert TaskOk(mem, rings, tasks[t], t);
      forall q: nat {:trigger tasks'[t].perCpu[q]} | q < |rings'|
        ensures tasks'[t].perCpu[q] == |OwnedOn(mem', rings'[q], t)|
      {
        DroppedOwned(mem, rings, mem', rings', p, c, k, t, q);
      }
    }
  }

  function MovedTask(k: Task, v: nat, c: nat): Task
    requires c < |k.perCpu| && v < |k.perCpu| && v != c && k.perCpu[v] > 0
  {
    k.(perCpu := k.perCpu[c := k.perCpu[c] + 1][v := k.perCpu[v] - 1])
  }

  /** A thread moved from queue `v` to queue `c`. */
  lemma Moved(mem: Threads, rings: seq<seq<Ptr>>, mem1: Threads, rings1: seq<seq<Ptr>>, mem2: Threads,
              rings2: seq<seq<Ptr>>, tasks: Tasks, p: Ptr, v: nat, k: nat, c: nat)
    requires Accounts(mem, rings, tasks) && NodeDropped(mem, rings, mem1, rings1, p, v, k)
    requires NodeAdded(mem1, rings1, mem2, rings2, p, c)
    requires v != c && mem[p].owner in tasks
    ensures var o := tasks[mem[p].owner];
            c < |o.perCpu| && v < |o.perCpu| && o.perCpu[v] > 0 &&
            Accounts(mem2, rings2, tasks[mem[p].owner := MovedTask(o, v, c)])
  {
    var o := mem[p].owner;
    assert TaskOk(mem, rings, tasks[o], o);
    DroppedLinked(mem, rings, mem1, rings1, p, v, k);
    DroppedOwned(mem, rings, mem1, rings1, p, v, k, o, v);
    assert !Linked(mem1, rings1, p);
    AddedLinked(mem1, rings1, mem2, rings2, p, c);
    var tasks' := tasks[o := MovedTask(tasks[o], v, c)];
    forall t {:trigger TaskOk(mem2, rings2, tasks'[t], t)} | t in tasks' ensures TaskOk(mem2, rings2, tasks'[t], t) {
      assert TaskOk(mem, rings, tasks[t], t);
      forall q: nat {:trigger tasks'[t].perCpu[q]} | q < |rings2|
        ensures tasks'[t].perCpu[q] == |OwnedOn(mem2, rings2[q], t)|
      {
        DroppedOwned(mem, rings, mem1, rings1, p, v, k, t, q);
        AddedOwned(mem1, rings1, mem2, rings2, p, c, t, q);
      }
      forall x {:trigger x in tasks'[t].refs}
        ensures x in tasks'[t].refs <==> Linked(mem2, rings2, x) && mem2[x].owner == t
      {
        assert x in tasks[t].refs <==> Linked(mem, rings, x) && mem[x].owner == t;
        assert Linked(mem1, rings1, x) <==> Linked(mem, rings, x) && x != p;
      }
    }
  }

  // Sums over the queues

  function Sum(s: seq<nat>): nat {
    if s == [] then 0 else s[|s| - 1] + Sum(s[..|s| - 1])
  }

  lemma {:induction false} SumUpdate(s: seq<nat>, i: nat, x: nat)
    requires i < |s|
    ensures Sum(s[i := x]) + s[i] == Sum(s) + x
    decreases |s|
  {
    var n := |s| - 1;
    if i == n {
      assert s[i := x][..n] == s[..n];
    } else {
      assert s[i := x][..n] == s[..n][i := x];
      SumUpdate(s[..n], i, x);
    }
  }

  function Squares(s: seq<nat>): seq<nat> {
    seq(|s|, i requires 0 <= i < |s| => s[i] * s[i])
  }

  /** Moving one thread from a queue with at least two more lowers the sum of squares. */
  lemma StealLowers(s: seq<nat>, v: nat, c: nat)
    requires v < |s| && c < |s| && s[v] >= s[c] + 2
    ensures var s' := s[c := s[c] + 1][v := s[v] - 1];
            Sum(s') == Sum(s) && Sum(Squares(s')) < Sum(Squares(s))
  {
    var a, b := s[c], s[v];
    var s1 := s[c := a + 1];
    var s' := s1[v := b - 1];
    SumUpdate(s, c, a + 1);
    SumUpdate(s1, v, b - 1);
    assert Squares(s1) == Squares(s)[c := (a + 1) * (a + 1)];
    assert Squares(s') == Squares(s1)[v := (b - 1) * (b - 1)];
    SumUpdate(Squares(s), c, (a + 1) * (a + 1));
    SumUpdate(Squares(s1), v, (b - 1) * (b - 1));
    SquareStep(a, b);
  }

  lemma SquareStep(a: nat, b: nat)
    requires b >= a + 2
    ensures (a + 1) * (a + 1) + (b - 1) * (b - 1) < a * a + b * b
  {
    assert (a + 1) * (a + 1) == a * a + 2 * a + 1 && (b - 1) * (b - 1) == b * b - 2 * b + 1;
  }

  /** The references of a task are spread over the queues: its count is the sum of its per-queue counts. */
  lemma RefCountIsSum(mem: Threads, heads: seq<Ptr>, rings: seq<seq<Ptr>>, k: Task, t: TaskId)
    requires Rings(mem, heads, rings) && TaskOk(mem, rings, k, t)
    ensures k.refCount == Sum(k.perCpu)
  {
    SeqToSet(k.refs);
    PartialSum(mem, heads, rings, k, t, |rings|);
    assert k.perCpu[..|rings|] == k.perCpu;
    assert RefsBelow(mem, k, |rings|) == AsSet(k.refs);
  }

  function AsSet(l: seq<Ptr>): set<Ptr> {
    set p | p in l
  }

  lemma {:induction false} SeqToSet(l: seq<Ptr>)
    requires NoDups(l)
    ensures |AsSet(l)| == |l|
    decreases |l|
  {
    if l == [] {
      assert AsSet(l) == {};
    } else {
      var n := |l| - 1;
      SeqToSet(l[..n]);
      assert l == l[..n] + [l[n]];
      assert l[n] !in AsSet(l[..n]);
      assert AsSet(l) == AsSet(l[..n]) + {l[n]};
    }
  }

  function RefsBelow(mem: Threads, k: Task, n: nat): set<Ptr> {
    set p | p in k.refs && p in mem && mem[p].cpu < n
  }

  lemma RefsBelowNext(mem: Threads, heads: seq<Ptr>, rings: seq<seq<Ptr>>, k: Task, t: TaskId, c: nat)
    requires Rings(mem, heads, rings) && TaskOk(mem, rings, k, t) && c < |rings|
    ensures var own := OwnedOn(mem, rings[c], t);
            RefsBelow(mem, k, c + 1) == RefsBelow(mem, k, c) + own && RefsBelow(mem, k, c) !! own
  {
    var own := OwnedOn(mem, rings[c], t);
    forall p | p in own ensures p in RefsBelow(mem, k, c + 1) && p !in RefsBelow(mem, k, c) {
      var i := RingMember(mem, heads, rings, c, p);
    }
  }

  lemma {:induction false} PartialSum(mem: Threads, heads: seq<Ptr>, rings: seq<seq<Ptr>>, k: Task, t: TaskId, n: nat)
    requires Rings(mem, heads, rings) && TaskOk(mem, rings, k, t) && n <= |rings|
    ensures |RefsBelow(mem, k, n)| == Sum(k.perCpu[..n])
    decreases n
  {
    if n == 0 {
      assert RefsBelow(mem, k, n) == {};
    } else {
      var c := n - 1;
      PartialSum(mem, heads, rings, k, t, c);
      RefsBelowNext(mem, heads, rings, k, t, c);
      assert k.perCpu[..n][..c] == k.perCpu[..c] && k.perCpu[c] == |OwnedOn(mem, rings[c], t)|;
    }
  }
}
