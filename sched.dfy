/** The task-graph scheduling simulator of src/scripts/pysched.py.

    The simulator runs a DAG of tasks on `ncpus` identical processors in discrete ticks. Every
    tick retires the tasks whose finish time has come, promotes the waiting tasks whose
    predecessors are all done, then gives each idle processor at most one ready task, chosen by
    the scheduler, for exactly one tick.

    The functions below describe one tick on a `SimState` value; the classes at the end of the file
    are the imperative simulator, and each of their methods is proved to compute these functions. */
module Sched {
  import opened Common

  /** pygraphviz node names. */
  type Task = string

  /** The graph as the simulator queries it: `nodes()` in order, and the edges (from, to). */
  datatype TaskGraph = TaskGraph(nodes: seq<Task>, edges: seq<(Task, Task)>)

  /** The sources of the edges entering `n`, in edge order (`in_neighbors`). */
  function InNeighbors(es: seq<(Task, Task)>, n: Task): (r: seq<Task>)
    ensures forall p :: p in r <==> (p, n) in es
  {
    if es == [] then [] else (if es[0].1 == n then [es[0].0] else []) + InNeighbors(es[1..], n)
  }

  /** Number of edges leaving `n` (`out_degree`). */
  function OutDegree(es: seq<(Task, Task)>, n: Task): (d: nat)
    ensures d == 0 <==> forall e | e in es :: e.0 != n
  {
    if es == [] then 0 else (if es[0].0 == n then 1 else 0) + OutDegree(es[1..], n)
  }

  /** Nodes are distinct and every edge joins two nodes. */
  ghost predicate WellFormed(g: TaskGraph) {
    Distinct(g.nodes) && forall e | e in g.edges :: e.0 in g.nodes && e.1 in g.nodes
  }

  /** `rank` numbers the nodes so that every edge goes up: a witness that `g` has no cycle. */
  ghost predicate IsRanking(g: TaskGraph, rank: map<Task, nat>) {
    (forall n | n in g.nodes :: n in rank)
    && forall e | e in g.edges :: e.0 in rank && e.1 in rank && rank[e.0] < rank[e.1]
  }

  ghost predicate Acyclic(g: TaskGraph) {
    exists rank: map<Task, nat> :: IsRanking(g, rank)
  }

  // ---------------------------------------------------------------------------------------------
  // Scheduling policy: priority = out-degree, pick the first ready task of maximal priority.
  // ---------------------------------------------------------------------------------------------

  /** The priority table built by `Scheduler.__init__`: every node gets its out-degree. */
  function Priorities(g: TaskGraph): (prio: map<Task, nat>)
    ensures prio.Keys == set n | n in g.nodes
    ensures forall n | n in g.nodes :: prio[n] == OutDegree(g.edges, n)
  {
    map n | n in g.nodes :: OutDegree(g.edges, n)
  }

  /** Index of the element Python's `max(ready, key=prio)` returns: the first one of maximal key. */
  function MaxIndex(prio: map<Task, nat>, ready: seq<Task>): (k: nat)
    requires ready != []
    requires forall t | t in ready :: t in prio
    ensures k < |ready|
    ensures forall i | 0 <= i < |ready| :: prio[ready[i]] <= prio[ready[k]]
    ensures forall i | 0 <= i < k :: prio[ready[i]] < prio[ready[k]]
    decreases |ready|
  {
    if |ready| == 1 then 0
    else
      var k := MaxIndex(prio, ready[..|ready| - 1]);
      assert ready[k] == ready[..|ready| - 1][k];
      if prio[ready[k]] < prio[ready[|ready| - 1]] then |ready| - 1 else k
  }

  /** The two postconditions of MaxIndex determine the index: the tie goes to the earliest task. */
  lemma MaxIndexUnique(prio: map<Task, nat>, ready: seq<Task>, j: nat)
    requires ready != [] && forall t | t in ready :: t in prio
    requires j < |ready|
    requires forall i | 0 <= i < |ready| :: prio[ready[i]] <= prio[ready[j]]
    requires forall i | 0 <= i < j :: prio[ready[i]] < prio[ready[j]]
    ensures j == MaxIndex(prio, ready)
  {
  }

  // ---------------------------------------------------------------------------------------------
  // Simulator state.
  // ---------------------------------------------------------------------------------------------

  /** Task statuses; the source encodes them as 0 ready, 1 executing, 2 waiting, 3 done. */
  datatype Status = Ready | Executing | Waiting | Done

  /** The order in which a task moves through the statuses: waiting, ready, executing, done. */
  function Stage(st: Status): nat {
    match st
    case Waiting => 0
    case Ready => 1
    case Executing => 2
    case Done => 3
  }

  /** One entry of `cpu_status`: the tick at which the processor is free again and its task;
      `(0, None)` is the idle entry. */
  datatype Slot = Slot(finish: nat, task: Option<Task>)

  const Idle := Slot(0, None)

  datatype SimState = SimState(
    cpus: seq<Slot>,
    ready: seq<Task>,
    executing: seq<Task>,
    others: seq<Task>,
    status: map<Task, Status>,
    time: nat)

  /** `list.remove(x)`: drop the first occurrence of `x`. */
  function RemoveFirst(s: seq<Task>, x: Task): (r: seq<Task>)
    ensures forall y :: y in r ==> y in s
    ensures Distinct(s) ==> Distinct(r) && forall y :: y in r <==> y in s && y != x
    ensures x in s ==> |r| == |s| - 1
    ensures x !in s ==> r == s
  {
    if s == [] then []
    else if s[0] == x then s[1..]
    else
      var r := [s[0]] + RemoveFirst(s[1..], x);
      assert Distinct(s) ==> Distinct(r) by {
        if Distinct(s) {
          assert forall i | 1 <= i < |s| :: s[i] != s[0];
          assert s[0] !in s[1..];
        }
      }
      r
  }

  // ---------------------------------------------------------------------------------------------
  // Initialisation (src/scripts/pysched.py:50-68).
  // ---------------------------------------------------------------------------------------------

  /** The ready list, waiting list and statuses after scanning `ns` in order. */
  function Classify(g: TaskGraph, ns: seq<Task>): (r: (seq<Task>, seq<Task>, map<Task, Status>))
    decreases |ns|
  {
    if ns == [] then ([], [], map[])
    else
      var (ready, others, status) := Classify(g, ns[..|ns| - 1]);
      var n := ns[|ns| - 1];
      if InNeighbors(g.edges, n) == [] then (ready + [n], others, status[n := Ready])
      else (ready, others + [n], status[n := Waiting])
  }

  function Init(g: TaskGraph, ncpus: nat): SimState {
    var (ready, others, status) := Classify(g, g.nodes);
    SimState(seq(ncpus, _ => Idle), ready, [], others, status, 0)
  }

  // ---------------------------------------------------------------------------------------------
  // Phase 1, retirement (src/scripts/pysched.py:75-81).
  // ---------------------------------------------------------------------------------------------

  function RetireCpu(s: SimState, i: nat): (r: SimState)
    requires i < |s.cpus|
    ensures |r.cpus| == |s.cpus|
  {
    var c := s.cpus[i];
    if c.finish == s.time && c.task.Some? then
      s.(status := s.status[c.task.value := Done],
         executing := RemoveFirst(s.executing, c.task.value),
         cpus := s.cpus[i := Idle])
    else s
  }

  /** The state after the retirement loop has examined processors 0 .. k-1. */
  function RetireUpTo(s: SimState, k: nat): (r: SimState)
    requires k <= |s.cpus|
    ensures |r.cpus| == |s.cpus|
  {
    if k == 0 then s else RetireCpu(RetireUpTo(s, k - 1), k - 1)
  }

  function Retired(s: SimState): SimState {
    RetireUpTo(s, |s.cpus|)
  }

  // ---------------------------------------------------------------------------------------------
  // Phase 2, promotion (src/scripts/pysched.py:86-96).
  // ---------------------------------------------------------------------------------------------

  /** The `for ... else` test: every in-neighbour has status done. */
  predicate AllDone(status: map<Task, Status>, preds: seq<Task>) {
    forall p | p in preds :: p in status && status[p] == Done
  }

  function PromoteTask(g: TaskGraph, s: SimState, n: Task): SimState {
    if AllDone(s.status, InNeighbors(g.edges, n)) then
      s.(status := s.status[n := Ready], others := RemoveFirst(s.others, n), ready := s.ready + [n])
    else s
  }

  /** The state after the promotion loop has examined `ns[..k]`, `ns` being the copy it iterates. */
  function PromoteUpTo(g: TaskGraph, s: SimState, ns: seq<Task>, k: nat): SimState
    requires k <= |ns|
  {
    if k == 0 then s else PromoteTask(g, PromoteUpTo(g, s, ns, k - 1), ns[k - 1])
  }

  function Promoted(g: TaskGraph, s: SimState): SimState {
    PromoteUpTo(g, s, s.others, |s.others|)
  }

  // ---------------------------------------------------------------------------------------------
  // Phase 3, dispatch (src/scripts/pysched.py:102-111).
  // ---------------------------------------------------------------------------------------------

  function DispatchCpu(prio: map<Task, nat>, s: SimState, i: nat): (r: SimState)
    requires i < |s.cpus|
    requires forall t | t in s.ready :: t in prio
    ensures |r.cpus| == |s.cpus|
    ensures forall t | t in r.ready :: t in s.ready
  {
    if s.cpus[i].finish == 0 && s.ready != [] then
      var t := s.ready[MaxIndex(prio, s.ready)];
      s.(cpus := s.cpus[i := Slot(s.time + 1, Some(t))],
         status := s.status[t := Executing],
         ready := RemoveFirst(s.ready, t),
         executing := s.executing + [t])
    else s
  }

  function DispatchUpTo(prio: map<Task, nat>, s: SimState, k: nat): (r: SimState)
    requires k <= |s.cpus|
    requires forall t | t in s.ready :: t in prio
    ensures |r.cpus| == |s.cpus|
    ensures forall t | t in r.ready :: t in s.ready
  {
    if k == 0 then s else DispatchCpu(prio, DispatchUpTo(prio, s, k - 1), k - 1)
  }

  function Dispatched(prio: map<Task, nat>, s: SimState): SimState
    requires forall t | t in s.ready :: t in prio
  {
    DispatchUpTo(prio, s, |s.cpus|)
  }

  /** One iteration of the `while` loop: the three phases, then `time += 1`. */
  function Tick(g: TaskGraph, prio: map<Task, nat>, s: SimState): SimState
    requires forall n | n in g.nodes :: n in prio
    requires forall t | t in s.ready :: t in g.nodes
    requires forall t | t in s.others :: t in g.nodes
  {
    var r := Retired(s);
    RetiredLists(s);
    var p := Promoted(g, r);
    PromotedLists(g, r);
    var d := Dispatched(prio, p);
    d.(time := s.time + 1)
  }

  /** The loop condition fails: no task is ready, waiting or executing. */
  predicate Finished(s: SimState) {
    s.ready == [] && s.others == [] && s.executing == []
  }

  lemma RetiredLists(s: SimState)
    ensures Retired(s).ready == s.ready && Retired(s).others == s.others
  {
    RetireKeepsLists(s, |s.cpus|);
  }

  lemma {:induction false} RetireKeepsLists(s: SimState, k: nat)
    requires k <= |s.cpus|
    ensures RetireUpTo(s, k).ready == s.ready && RetireUpTo(s, k).others == s.others
    ensures RetireUpTo(s, k).time == s.time
  {
    if k > 0 {
      RetireKeepsLists(s, k - 1);
    }
  }

  lemma PromotedLists(g: TaskGraph, s: SimState)
    ensures forall t | t in Promoted(g, s).ready :: t in s.ready || t in s.others
    ensures forall t | t in Promoted(g, s).others :: t in s.others
  {
    PromoteKeepsLists(g, s, s.others, |s.others|);
  }

  lemma {:induction false} PromoteKeepsLists(g: TaskGraph, s: SimState, ns: seq<Task>, k: nat)
    requires k <= |ns|
    ensures forall t | t in PromoteUpTo(g, s, ns, k).ready :: t in s.ready || t in ns
    ensures forall t | t in PromoteUpTo(g, s, ns, k).others :: t in s.others
  {
    if k > 0 {
      PromoteKeepsLists(g, s, ns, k - 1);
    }
  }

  // ---------------------------------------------------------------------------------------------
  // The simulator's invariant.
  // ---------------------------------------------------------------------------------------------

  /** The tasks held by the processors in `cs`. */
  function CpuTasks(cs: seq<Slot>): set<Task> {
    set i | 0 <= i < |cs| && cs[i].task.Some? :: cs[i].task.value
  }

  lemma CpuTasksSnoc(cs: seq<Slot>, c: Slot)
    ensures CpuTasks(cs + [c]) == CpuTasks(cs) + (if c.task.Some? then {c.task.value} else {})
  {
    var ds := cs + [c];
    assert forall i | 0 <= i < |cs| :: ds[i] == cs[i];
    assert ds[|cs|] == c;
  }

  /** The three lists partition the nodes, and `status` agrees with the list each task is in;
      every task that has left the waiting list has all its predecessors done. */
  ghost predicate Consistent(g: TaskGraph, s: SimState) {
    && Distinct(s.ready) && Distinct(s.executing) && Distinct(s.others)
    && s.status.Keys == (set n | n in g.nodes)
    && (forall t | t in s.ready :: t in s.status)
    && (forall t | t in s.executing :: t in s.status)
    && (forall t | t in s.others :: t in s.status)
    && (forall t | t in s.status ::
          && (s.status[t] == Ready <==> t in s.ready)
          && (s.status[t] == Executing <==> t in s.executing)
          && (s.status[t] == Waiting <==> t in s.others))
    && (forall t | t in s.status && s.status[t] != Waiting :: AllDone(s.status, InNeighbors(g.edges, t)))
  }

  /** Every busy processor finishes at tick `due` and holds a distinct executing task, and every
      executing task is on a processor; an idle processor has finish slot 0. */
  ghost predicate CpusAt(s: SimState, due: nat) {
    && (forall i | 0 <= i < |s.cpus| :: s.cpus[i].task.None? ==> s.cpus[i].finish == 0)
    && (forall i | 0 <= i < |s.cpus| :: s.cpus[i].task.Some? ==>
          s.cpus[i].finish == due && due > 0 && s.cpus[i].task.value in s.executing)
    && (forall i, j | 0 <= i < j < |s.cpus| && s.cpus[i].task.Some? && s.cpus[j].task.Some? ::
          s.cpus[i].task.value != s.cpus[j].task.value)
    && (forall t | t in s.executing :: t in CpuTasks(s.cpus))
  }

  /** The state at the top of the loop: busy processors finish now. */
  ghost predicate Inv(g: TaskGraph, s: SimState) {
    WellFormed(g) && Consistent(g, s) && CpusAt(s, s.time)
  }

  /** Done statuses are the same in both maps. */
  ghost predicate SameDone(a: map<Task, Status>, b: map<Task, Status>) {
    a.Keys == b.Keys && forall t | t in a :: (a[t] == Done <==> b[t] == Done)
  }

  /** No task's status goes back: stages only advance waiting -> ready -> executing -> done. */
  ghost predicate Advances(a: map<Task, Status>, b: map<Task, Status>) {
    a.Keys == b.Keys && forall t | t in a :: Stage(a[t]) <= Stage(b[t])
  }

  lemma SameDoneAllDone(a: map<Task, Status>, b: map<Task, Status>, ps: seq<Task>)
    requires SameDone(a, b)
    ensures AllDone(a, ps) <==> AllDone(b, ps)
  {
  }

  // ---------------------------------------------------------------------------------------------
  // Phase lemmas.
  // ---------------------------------------------------------------------------------------------

  /** What the retirement loop relies on: executing tasks are distinct, have a status, and are
      exactly the tasks of the busy processors, all of which finish now. */
  ghost predicate RetireReady(s: SimState) {
    Distinct(s.executing) && (forall t | t in s.executing :: t in s.status) && CpusAt(s, s.time)
  }

  lemma {:induction false} RetireUpToFacts(s: SimState, k: nat)
    requires RetireReady(s)
    requires k <= |s.cpus|
    ensures var r := RetireUpTo(s, k);
      && r.time == s.time && r.ready == s.ready && r.others == s.others
      && (forall i | 0 <= i < k :: r.cpus[i] == Idle)
      && (forall i | k <= i < |s.cpus| :: r.cpus[i] == s.cpus[i])
      && r.status.Keys == s.status.Keys
      && (forall t | t in r.status ::
            r.status[t] == if t in CpuTasks(s.cpus[..k]) then Done else s.status[t])
      && Distinct(r.executing)
      && (forall t :: t in r.executing <==> t in s.executing && t !in CpuTasks(s.cpus[..k]))
  {
    RetireCpusFacts(s, k);
    RetireTasksFacts(s, k);
  }

  lemma {:induction false} RetireCpusFacts(s: SimState, k: nat)
    requires k <= |s.cpus|
    ensures var r := RetireUpTo(s, k);
      && r.time == s.time && r.ready == s.ready && r.others == s.others
      && (forall i | k <= i < |s.cpus| :: r.cpus[i] == s.cpus[i])
      && (forall i | 0 <= i < k :: r.cpus[i] == Idle || (s.cpus[i].finish != s.time || s.cpus[i].task.None?))
  {
    if k > 0 {
      RetireCpusFacts(s, k - 1);
    }
  }

  /** The state retirement reaches from `s` after examining processors 0 .. k-1. */
  ghost predicate RetireShape(s: SimState, r: SimState, k: nat) {
    RetireSlots(s, r, k) && RetireMarks(s, r, k)
  }

  /** Processors 0 .. k-1 are idle and the others untouched. */
  ghost predicate RetireSlots(s: SimState, r: SimState, k: nat) {
    && k <= |s.cpus| && |r.cpus| == |s.cpus| && r.time == s.time
    && (forall i | 0 <= i < k :: r.cpus[i] == Idle)
    && (forall i | k <= i < |s.cpus| :: r.cpus[i] == s.cpus[i])
  }

  /** The tasks of processors 0 .. k-1 are done and no longer executing. */
  ghost predicate RetireMarks(s: SimState, r: SimState, k: nat) {
    && k <= |s.cpus|
    && r.status.Keys == s.status.Keys
    && (forall t | t in r.status :: r.status[t] == if t in CpuTasks(s.cpus[..k]) then Done else s.status[t])
    && Distinct(r.executing)
    && (forall t :: t in r.executing <==> t in s.executing && t !in CpuTasks(s.cpus[..k]))
  }

  lemma RetireShapeZero(s: SimState)
    requires Distinct(s.executing)
    ensures RetireShape(s, s, 0)
  {
    assert CpuTasks(s.cpus[..0]) == {};
  }

  lemma RetireShapeStep(s: SimState, k: nat)
    requires RetireReady(s) && 0 < k <= |s.cpus| && RetireShape(s, RetireUpTo(s, k - 1), k - 1)
    ensures RetireShape(s, RetireUpTo(s, k), k)
  {
    var r0 := RetireUpTo(s, k - 1);
    RetireSlotsStep(s, k, r0, RetireUpTo(s, k));
    RetireMarksStep(s, k, r0, RetireUpTo(s, k));
  }

  lemma RetireSlotsStep(s: SimState, k: nat, r0: SimState, r: SimState)
    requires RetireReady(s) && 0 < k <= |s.cpus| && RetireSlots(s, r0, k - 1)
    requires r == RetireCpu(r0, k - 1)
    ensures RetireSlots(s, r, k)
  {
    assert r0.cpus[k - 1] == s.cpus[k - 1];
  }

  lemma RetireMarksStep(s: SimState, k: nat, r0: SimState, r: SimState)
    requires RetireReady(s) && 0 < k <= |s.cpus| && RetireSlots(s, r0, k - 1) && RetireMarks(s, r0, k - 1)
    requires r == RetireCpu(r0, k - 1)
    ensures RetireMarks(s, r, k)
  {
    assert r0.cpus[k - 1] == s.cpus[k - 1];
    assert s.cpus[..k] == s.cpus[..k - 1] + [s.cpus[k - 1]];
    CpuTasksSnoc(s.cpus[..k - 1], s.cpus[k - 1]);
    if s.cpus[k - 1].task.Some? {
      CpuTasksDistinct(s.cpus, k - 1);
    }
  }

  lemma {:induction false} RetireTasksFacts(s: SimState, k: nat)
    requires RetireReady(s)
    requires k <= |s.cpus|
    ensures RetireShape(s, RetireUpTo(s, k), k)
  {
    if k == 0 {
      RetireShapeZero(s);
    } else {
      RetireTasksFacts(s, k - 1);
      RetireShapeStep(s, k);
    }
  }

  /** With distinct tasks on the processors, the task of processor `k` is on none before it. */
  lemma CpuTasksDistinct(cs: seq<Slot>, k: nat)
    requires forall i, j | 0 <= i < j < |cs| && cs[i].task.Some? && cs[j].task.Some? ::
      cs[i].task.value != cs[j].task.value
    requires k < |cs| && cs[k].task.Some?
    ensures cs[k].task.value !in CpuTasks(cs[..k])
  {
    var p := cs[..k];
    forall i | 0 <= i < k && p[i].task.Some? ensures p[i].task.value != cs[k].task.value {
      assert p[i] == cs[i];
    }
  }

  lemma DistinctAppend(a: seq<Task>, b: seq<Task>)
    requires Distinct(a) && Distinct(b)
    requires forall t | t in b :: t !in a
    ensures Distinct(a + b)
  {
    var c := a + b;
    forall i, j | 0 <= i < j < |c| ensures c[i] != c[j] {
      if i < |a| && j >= |a| {
        assert c[j] == b[j - |a|];
        assert c[j] in b;
      } else if i >= |a| {
        assert c[i] == b[i - |a|] && c[j] == b[j - |a|];
      }
    }
  }

  lemma EmptyIfNoMember(xs: seq<Task>)
    requires forall t :: t !in xs
    ensures xs == []
  {
    if |xs| > 0 {
      InSeq(xs, 0);
    }
  }

  lemma InSeq(xs: seq<Task>, i: nat)
    requires i < |xs|
    ensures xs[i] in xs
  {
  }

  /** After retirement every processor is idle, nothing is executing, and the tasks that were
      executing are done; nothing else changes. */
  lemma RetiredFacts(g: TaskGraph, s: SimState)
    requires Inv(g, s)
    ensures var r := Retired(s);
      && Consistent(g, r) && r.executing == []
      && (forall i | 0 <= i < |r.cpus| :: r.cpus[i] == Idle)
      && r.time == s.time && r.ready == s.ready && r.others == s.others
      && Advances(s.status, r.status)
      && (forall t | t in s.executing :: r.status[t] == Done)
      && (forall t | t in s.status && s.status[t] == Done :: r.status[t] == Done)
  {
    RetireUpToFacts(s, |s.cpus|);
    assert s.cpus[..|s.cpus|] == s.cpus;
    var r := Retired(s);
    EmptyIfNoMember(r.executing);
    forall t | t in r.status && r.status[t] != Waiting
      ensures AllDone(r.status, InNeighbors(g.edges, t))
    {
      assert s.status[t] != Waiting;
    }
  }

  /** The tasks of `ns` that pass the readiness test, in order. */
  function Promotable(g: TaskGraph, status: map<Task, Status>, ns: seq<Task>): (r: seq<Task>)
    ensures forall t | t in r :: t in ns
    ensures Distinct(ns) ==> Distinct(r)
    decreases |ns|
  {
    if ns == [] then []
    else
      var last := ns[|ns| - 1];
      var r := Promotable(g, status, ns[..|ns| - 1])
        + (if AllDone(status, InNeighbors(g.edges, last)) then [last] else []);
      assert Distinct(ns) ==> Distinct(r) by {
        if Distinct(ns) {
          assert last !in ns[..|ns| - 1];
        }
      }
      r
  }

  lemma PromotableMembers(g: TaskGraph, status: map<Task, Status>, ns: seq<Task>)
    ensures forall t :: t in Promotable(g, status, ns) <==> t in ns && AllDone(status, InNeighbors(g.edges, t))
    decreases |ns|
  {
    if ns != [] {
      PromotableMembers(g, status, ns[..|ns| - 1]);
      assert ns == ns[..|ns| - 1] + [ns[|ns| - 1]];
    }
  }

  /** The waiting list the promotion loop starts from: distinct tasks, all with status waiting. */
  ghost predicate WaitingList(s: SimState) {
    Distinct(s.others) && forall t | t in s.others :: t in s.status && s.status[t] == Waiting
  }

  /** The state promotion reaches from `s` when it has moved the tasks `q` to the ready list. */
  ghost predicate PromoteShape(s: SimState, r: SimState, q: seq<Task>) {
    && r.cpus == s.cpus && r.executing == s.executing && r.time == s.time
    && r.status == StatusAfter(s.status, q)
    && r.ready == s.ready + q
    && Distinct(r.others)
    && (forall t :: t in r.others <==> t in s.others && t !in q)
    && |r.others| + |r.ready| == |s.others| + |s.ready|
  }

  lemma PromoteShapeSnoc(g: TaskGraph, s: SimState, r: SimState, q: seq<Task>, n: Task)
    requires PromoteShape(s, r, q) && n in s.others && n !in q
    requires AllDone(r.status, InNeighbors(g.edges, n))
    ensures PromoteShape(s, PromoteTask(g, r, n), q + [n])
  {
    PromoteStep(g, r, n);
    StatusAfterSnoc(s.status, q, n);
    assert s.ready + q + [n] == s.ready + (q + [n]);
  }

  lemma {:induction false} PromoteUpToFacts(g: TaskGraph, s: SimState, k: nat)
    requires WaitingList(s)
    requires k <= |s.others|
    ensures PromoteShape(s, PromoteUpTo(g, s, s.others, k), Promotable(g, s.status, s.others[..k]))
  {
    var ns := s.others;
    if k == 0 {
      assert ns[..0] == [];
    } else {
      PromoteUpToFacts(g, s, k - 1);
      var r' := PromoteUpTo(g, s, ns, k - 1);
      var q := Promotable(g, s.status, ns[..k - 1]);
      var n := ns[k - 1];
      var c := AllDone(s.status, InNeighbors(g.edges, n));
      assert Promotable(g, s.status, ns[..k]) == q + (if c then [n] else []) by {
        assert ns[..k] == ns[..k - 1] + [n];
        assert ns[..k][..k - 1] == ns[..k - 1];
      }
      assert n !in q by {
        PromotableMembers(g, s.status, ns[..k - 1]);
        assert n !in ns[..k - 1];
      }
      assert AllDone(r'.status, InNeighbors(g.edges, n)) == c by {
        PromotableMembers(g, s.status, ns[..k - 1]);
        StatusAfterSameDone(s.status, q);
        SameDoneAllDone(r'.status, s.status, InNeighbors(g.edges, n));
      }
      if c {
        PromoteShapeSnoc(g, s, r', q, n);
      } else {
        assert q + [] == q;
        assert PromoteUpTo(g, s, ns, k) == r';
      }
    }
  }

  lemma PromoteStep(g: TaskGraph, r: SimState, n: Task)
    requires Distinct(r.others) && n in r.others
    requires AllDone(r.status, InNeighbors(g.edges, n))
    ensures var p := PromoteTask(g, r, n);
      && p.ready == r.ready + [n] && p.status == r.status[n := Ready]
      && Distinct(p.others) && (forall t :: t in p.others <==> t in r.others && t != n)
      && |p.others| + |p.ready| == |r.others| + |r.ready|
  {
  }

  /** `status` with every task of `q` set to ready. */
  function StatusAfter(status: map<Task, Status>, q: seq<Task>): (r: map<Task, Status>)
    decreases |q|
  {
    if q == [] then status
    else StatusAfter(status, q[..|q| - 1])[q[|q| - 1] := Ready]
  }

  lemma StatusAfterSnoc(status: map<Task, Status>, q: seq<Task>, n: Task)
    ensures StatusAfter(status, q + [n]) == StatusAfter(status, q)[n := Ready]
  {
    assert (q + [n])[..|q|] == q;
  }

  lemma {:induction false} StatusAfterSameDone(status: map<Task, Status>, q: seq<Task>)
    requires forall t | t in q :: t in status && status[t] == Waiting
    ensures SameDone(status, StatusAfter(status, q))
    ensures forall t | t in status :: StatusAfter(status, q)[t] == if t in q then Ready else status[t]
    decreases |q|
  {
    if q != [] {
      StatusAfterSameDone(status, q[..|q| - 1]);
      assert q == q[..|q| - 1] + [q[|q| - 1]];
    }
  }

  /** After promotion exactly the waiting tasks whose predecessors were all done have moved, in
      order, to the end of the ready list; done statuses are unchanged. */
  lemma PromotedFrame(g: TaskGraph, s: SimState)
    requires WellFormed(g) && Consistent(g, s)
    ensures var p := Promoted(g, s);
      && PromoteShape(s, p, Promotable(g, s.status, s.others))
      && p.cpus == s.cpus && p.executing == s.executing && p.time == s.time
      && p.ready == s.ready + Promotable(g, s.status, s.others)
      && SameDone(s.status, p.status) && Advances(s.status, p.status)
      && (forall t | t in s.status ::
            p.status[t] == if t in Promotable(g, s.status, s.others) then Ready else s.status[t])
      && |p.others| + |p.ready| == |s.others| + |s.ready|
  {
    var q := Promotable(g, s.status, s.others);
    var p := Promoted(g, s);
    assert PromoteShape(s, p, q) by {
      PromoteUpToFacts(g, s, |s.others|);
      assert s.others[..|s.others|] == s.others;
    }
    PromotableMembers(g, s.status, s.others);
    StatusAfterSameDone(s.status, q);
  }

  /** After promotion the state is consistent again, and no task left waiting has all its
      predecessors done. */
  lemma PromotedFacts(g: TaskGraph, s: SimState)
    requires WellFormed(g) && Consistent(g, s)
    ensures var p := Promoted(g, s);
      && Consistent(g, p)
      && (forall t | t in p.others :: !AllDone(p.status, InNeighbors(g.edges, t)))
  {
    var q := Promotable(g, s.status, s.others);
    var p := Promoted(g, s);
    PromotedFrame(g, s);
    PromotableMembers(g, s.status, s.others);
    forall t | t in p.status && p.status[t] != Waiting
      ensures AllDone(p.status, InNeighbors(g.edges, t))
    {
      SameDoneAllDone(s.status, p.status, InNeighbors(g.edges, t));
    }
    forall t | t in p.others
      ensures !AllDone(p.status, InNeighbors(g.edges, t))
    {
      SameDoneAllDone(s.status, p.status, InNeighbors(g.edges, t));
    }
    DistinctAppend(s.ready, q);
  }

  function Min(a: int, b: int): int {
    if a <= b then a else b
  }

  /** What the dispatch loop starts from: every processor idle, nothing executing, and the ready
      tasks distinct, with a status and a priority. */
  ghost predicate DispatchReady(prio: map<Task, nat>, s: SimState) {
    && s.executing == [] && (forall i | 0 <= i < |s.cpus| :: s.cpus[i] == Idle)
    && Distinct(s.ready) && (forall t | t in s.ready :: t in prio && t in s.status)
  }

  /** The state the dispatch loop reaches from `s` after examining processors 0 .. k-1: the first
      `min(k, |ready|)` processors run, in order, the tasks moved from ready to executing; every
      task still ready has a priority no higher than any task started. */
  ghost predicate DispatchShape(prio: map<Task, nat>, s: SimState, r: SimState, k: nat) {
    DispatchLists(s, r, k) && DispatchSlots(s, r, k) && DispatchStatus(s, r) && DispatchOrder(prio, r)
  }

  /** The ready tasks are split, without loss or repetition, into those still ready and the
      first `min(k, |ready|)` started ones. */
  ghost predicate DispatchLists(s: SimState, r: SimState, k: nat) {
    var m := Min(k, |s.ready|);
    && r.time == s.time && r.others == s.others
    && |r.executing| == m && |r.ready| == |s.ready| - m
    && Distinct(r.ready) && Distinct(r.executing)
    && (forall t :: t in s.ready <==> t in r.ready || t in r.executing)
    && (forall t | t in r.ready :: t !in r.executing)
  }

  /** Processor `i` runs the `i`-th started task until the next tick, or is idle. */
  ghost predicate DispatchSlots(s: SimState, r: SimState, k: nat) {
    var m := Min(k, |s.ready|);
    && |r.cpus| == |s.cpus| && |r.executing| == m
    && (forall i | 0 <= i < |r.cpus| ::
          r.cpus[i] == if i < m then Slot(s.time + 1, Some(r.executing[i])) else Idle)
  }

  /** The started tasks are marked executing; every other status is unchanged. */
  ghost predicate DispatchStatus(s: SimState, r: SimState) {
    && r.status.Keys == s.status.Keys
    && (forall t | t in s.status :: r.status[t] == if t in r.executing then Executing else s.status[t])
  }

  /** No task still ready has a higher priority than a started one. */
  ghost predicate DispatchOrder(prio: map<Task, nat>, r: SimState) {
    && (forall t | t in r.ready :: t in prio) && (forall t | t in r.executing :: t in prio)
    && (forall i, t | 0 <= i < |r.executing| && t in r.ready :: prio[t] <= prio[r.executing[i]])
  }

  /** Processor `k - 1` finds the ready list empty and stays idle. */
  lemma DispatchStepIdle(prio: map<Task, nat>, s: SimState, r: SimState, k: nat)
    requires DispatchReady(prio, s)
    requires 0 < k <= |s.cpus| && DispatchShape(prio, s, r, k - 1) && r.ready == []
    ensures DispatchShape(prio, s, DispatchCpu(prio, r, k - 1), k)
  {
    assert Min(k, |s.ready|) == Min(k - 1, |s.ready|);
  }

  /** Processor `k - 1` is idle and starts the first ready task of highest priority. */
  lemma DispatchStepStart(prio: map<Task, nat>, s: SimState, r: SimState, k: nat)
    requires DispatchReady(prio, s)
    requires 0 < k <= |s.cpus| && DispatchShape(prio, s, r, k - 1) && r.ready != []
    ensures var d := DispatchCpu(prio, r, k - 1);
      var t := r.ready[MaxIndex(prio, r.ready)];
      && r.cpus[k - 1] == Idle && Min(k, |s.ready|) == Min(k - 1, |s.ready|) + 1
      && d.executing == r.executing + [t] && d.ready == RemoveFirst(r.ready, t)
      && d.cpus == r.cpus[k - 1 := Slot(s.time + 1, Some(t))] && d.status == r.status[t := Executing]
      && d.time == r.time && d.others == r.others
  {
  }

  lemma DispatchStepLists(prio: map<Task, nat>, s: SimState, r: SimState, k: nat)
    requires DispatchReady(prio, s)
    requires 0 < k <= |s.cpus| && DispatchShape(prio, s, r, k - 1) && r.ready != []
    ensures DispatchLists(s, DispatchCpu(prio, r, k - 1), k)
  {
    DispatchStepStart(prio, s, r, k);
  }

  lemma DispatchStepSlots(prio: map<Task, nat>, s: SimState, r: SimState, k: nat)
    requires DispatchReady(prio, s)
    requires 0 < k <= |s.cpus| && DispatchShape(prio, s, r, k - 1) && r.ready != []
    ensures DispatchSlots(s, DispatchCpu(prio, r, k - 1), k)
  {
    DispatchStepStart(prio, s, r, k);
    var d := DispatchCpu(prio, r, k - 1);
    assert forall i | 0 <= i < |r.executing| :: d.executing[i] == r.executing[i];
  }

  lemma DispatchStepStatus(prio: map<Task, nat>, s: SimState, r: SimState, k: nat)
    requires DispatchReady(prio, s)
    requires 0 < k <= |s.cpus| && DispatchShape(prio, s, r, k - 1) && r.ready != []
    ensures DispatchStatus(s, DispatchCpu(prio, r, k - 1))
  {
    DispatchStepStart(prio, s, r, k);
  }

  lemma DispatchStepOrder(prio: map<Task, nat>, s: SimState, r: SimState, k: nat)
    requires DispatchReady(prio, s)
    requires 0 < k <= |s.cpus| && DispatchShape(prio, s, r, k - 1) && r.ready != []
    ensures DispatchOrder(prio, DispatchCpu(prio, r, k - 1))
  {
    DispatchStepStart(prio, s, r, k);
    var d := DispatchCpu(prio, r, k - 1);
    var t := r.ready[MaxIndex(prio, r.ready)];
    assert forall i | 0 <= i < |r.executing| :: d.executing[i] == r.executing[i];
    assert forall u | u in d.ready :: prio[u] <= prio[t];
  }

  /** One more processor examined keeps the shape of the dispatch loop. */
  lemma DispatchShapeStep(prio: map<Task, nat>, s: SimState, r: SimState, k: nat)
    requires DispatchReady(prio, s)
    requires 0 < k <= |s.cpus| && DispatchShape(prio, s, r, k - 1)
    ensures DispatchShape(prio, s, DispatchCpu(prio, r, k - 1), k)
  {
    if r.ready == [] {
      DispatchStepIdle(prio, s, r, k);
    } else {
      DispatchStepLists(prio, s, r, k);
      DispatchStepSlots(prio, s, r, k);
      DispatchStepStatus(prio, s, r, k);
      DispatchStepOrder(prio, s, r, k);
    }
  }

  lemma {:induction false} DispatchUpToFacts(prio: map<Task, nat>, s: SimState, k: nat)
    requires DispatchReady(prio, s)
    requires k <= |s.cpus|
    ensures DispatchShape(prio, s, DispatchUpTo(prio, s, k), k)
  {
    if k == 0 {
      assert Min(0, |s.ready|) == 0;
      EmptyIfNoMember(s.executing);
    } else {
      DispatchUpToFacts(prio, s, k - 1);
      DispatchShapeStep(prio, s, DispatchUpTo(prio, s, k - 1), k);
    }
  }

  // ---------------------------------------------------------------------------------------------
  // One tick.
  // ---------------------------------------------------------------------------------------------

  /** The priority table covers every node. */
  ghost predicate Covers(g: TaskGraph, prio: map<Task, nat>) {
    forall n | n in g.nodes :: n in prio
  }

  /** The state a tick hands to its dispatch loop. */
  function Undispatched(g: TaskGraph, s: SimState): SimState {
    Promoted(g, Retired(s))
  }

  /** Retirement then promotion leave a consistent state ready for dispatch. */
  lemma UndispatchedFacts(g: TaskGraph, prio: map<Task, nat>, s: SimState)
    requires Inv(g, s) && Covers(g, prio)
    ensures var r := Retired(s);
      var p := Undispatched(g, s);
      && Consistent(g, p) && DispatchReady(prio, p) && |p.cpus| == |s.cpus| && p.time == s.time
      && p.ready == s.ready + Promotable(g, r.status, s.others)
      && p.executing == [] && r.status.Keys == s.status.Keys
      && (forall t | t in s.status :: r.status[t] == if t in s.executing then Done else s.status[t])
      && SameDone(r.status, p.status) && Advances(r.status, p.status)
      && (forall t | t in s.status ::
            p.status[t] == if t in Promotable(g, r.status, s.others) then Ready else r.status[t])
      && (forall t | t in p.others :: !AllDone(p.status, InNeighbors(g.edges, t)))
      && |p.others| + |p.ready| == |s.others| + |s.ready|
  {
    var r := Retired(s);
    assert && Consistent(g, r) && r.executing == [] && r.ready == s.ready && r.others == s.others
      && (forall i | 0 <= i < |r.cpus| :: r.cpus[i] == Idle) && r.time == s.time
      && r.status.Keys == s.status.Keys
      && (forall t | t in s.status :: r.status[t] == if t in s.executing then Done else s.status[t])
    by {
      RetiredFacts(g, s);
      RetireUpToFacts(s, |s.cpus|);
      assert s.cpus[..|s.cpus|] == s.cpus;
      forall t | t in s.status ensures t in CpuTasks(s.cpus) <==> t in s.executing {
      }
    }
    PromotedFrame(g, r);
    PromotedFacts(g, r);
  }

  lemma TickUnfold(g: TaskGraph, prio: map<Task, nat>, s: SimState)
    requires Inv(g, s) && Covers(g, prio)
    ensures forall t | t in Undispatched(g, s).ready :: t in prio
    ensures Tick(g, prio, s) == Dispatched(prio, Undispatched(g, s)).(time := s.time + 1)
  {
    RetiredLists(s);
    PromotedLists(g, Retired(s));
  }

  /** A state shaped as dispatch leaves it, with the clock advanced, satisfies the invariant. */
  lemma DispatchShapeInv(g: TaskGraph, prio: map<Task, nat>, p: SimState, d: SimState, s': SimState)
    requires WellFormed(g) && Consistent(g, p)
    requires DispatchReady(prio, p) && DispatchShape(prio, p, d, |p.cpus|)
    requires s' == d.(time := p.time + 1)
    ensures Inv(g, s')
  {
    DispatchConsistent(g, prio, p, d, s');
    DispatchCpus(prio, p, d, s');
  }

  lemma DispatchConsistent(g: TaskGraph, prio: map<Task, nat>, p: SimState, d: SimState, s': SimState)
    requires WellFormed(g) && Consistent(g, p)
    requires DispatchReady(prio, p) && DispatchShape(prio, p, d, |p.cpus|)
    requires s' == d.(time := p.time + 1)
    ensures Consistent(g, s')
  {
    assert SameDone(p.status, s'.status);
    forall t | t in s'.status && s'.status[t] != Waiting
      ensures AllDone(s'.status, InNeighbors(g.edges, t))
    {
      SameDoneAllDone(p.status, s'.status, InNeighbors(g.edges, t));
    }
  }

  lemma DispatchCpus(prio: map<Task, nat>, p: SimState, d: SimState, s': SimState)
    requires DispatchReady(prio, p) && DispatchShape(prio, p, d, |p.cpus|)
    requires s' == d.(time := p.time + 1)
    ensures CpusAt(s', s'.time)
  {
    forall t | t in s'.executing ensures t in CpuTasks(s'.cpus) {
      var i :| 0 <= i < |s'.executing| && s'.executing[i] == t;
      assert s'.cpus[i].task == Some(t);
    }
  }

  /** A tick keeps the invariant and advances the clock by one. */
  lemma TickInv(g: TaskGraph, prio: map<Task, nat>, s: SimState)
    requires Inv(g, s) && Covers(g, prio)
    ensures Inv(g, Tick(g, prio, s)) && Tick(g, prio, s).time == s.time + 1
    ensures |Tick(g, prio, s).cpus| == |s.cpus|
  {
    var p := Undispatched(g, s);
    assert Consistent(g, p) && p.time == s.time by {
      UndispatchedFacts(g, prio, s);
    }
    TickShape(g, prio, s);
    DispatchShapeInv(g, prio, p, Dispatched(prio, p), Tick(g, prio, s));
  }

  /** The index of a task of least rank in `xs`. */
  function MinRankIndex(rank: map<Task, nat>, xs: seq<Task>): (k: nat)
    requires xs != [] && forall t | t in xs :: t in rank
    ensures k < |xs|
    ensures forall u | u in xs :: rank[xs[k]] <= rank[u]
    decreases |xs|
  {
    if |xs| == 1 then 0
    else
      var k := MinRankIndex(rank, xs[..|xs| - 1]);
      assert xs[k] == xs[..|xs| - 1][k];
      assert forall u | u in xs :: u in xs[..|xs| - 1] || u == xs[|xs| - 1];
      if rank[xs[|xs| - 1]] < rank[xs[k]] then |xs| - 1 else k
  }

  /** In an acyclic graph the simulator cannot stall: once retirement and promotion are done, if
      nothing is ready or executing then nothing is waiting either. A waiting task of least rank has
      all its predecessors done, so promotion would have moved it. */
  lemma NoDeadlock(g: TaskGraph, p: SimState)
    requires WellFormed(g) && Acyclic(g) && Consistent(g, p)
    requires p.executing == [] && p.ready == []
    requires forall t | t in p.others :: !AllDone(p.status, InNeighbors(g.edges, t))
    ensures p.others == []
  {
    if |p.others| > 0 {
      var rank :| IsRanking(g, rank);
      var t := p.others[MinRankIndex(rank, p.others)];
      forall u | u in InNeighbors(g.edges, t) ensures u in p.status && p.status[u] == Done {
        assert (u, t) in g.edges;
      }
      assert AllDone(p.status, InNeighbors(g.edges, t));
    }
  }

  /** A tick in terms of the state it dispatches from. */
  lemma TickShape(g: TaskGraph, prio: map<Task, nat>, s: SimState)
    requires Inv(g, s) && Covers(g, prio)
    ensures var p := Undispatched(g, s);
      && DispatchReady(prio, p) && |p.cpus| == |s.cpus|
      && |p.others| + |p.ready| == |s.others| + |s.ready| && |p.others| <= |s.others|
      && DispatchShape(prio, p, Dispatched(prio, p), |s.cpus|)
      && Tick(g, prio, s) == Dispatched(prio, p).(time := s.time + 1)
  {
    UndispatchedFacts(g, prio, s);
    TickUnfold(g, prio, s);
    var p := Undispatched(g, s);
    DispatchUpToFacts(prio, p, |p.cpus|);
  }

  /** Counts of one tick: the executing tasks leave, and at most one task per processor starts. */
  lemma TickCounts(g: TaskGraph, prio: map<Task, nat>, s: SimState)
    requires Inv(g, s) && Covers(g, prio)
    ensures var s' := Tick(g, prio, s);
      && |s'.others| + |s'.ready| + |s'.executing| == |s.others| + |s.ready|
      && |s'.others| <= |s.others|
      && |s'.executing| <= |s.cpus|
  {
    TickShape(g, prio, s);
  }

  /** The dispatch of one tick is greedy: no processor stays idle while a task is ready, and the
      tasks started have priorities at least those of the tasks left ready. */
  lemma TickGreedy(g: TaskGraph, prio: map<Task, nat>, s: SimState)
    requires Inv(g, s) && Covers(g, prio)
    ensures var s' := Tick(g, prio, s);
      && (s'.ready != [] ==> |s'.executing| == |s.cpus|)
      && (forall t | t in s'.executing :: t in prio) && (forall t | t in s'.ready :: t in prio)
      && (forall t, u | t in s'.executing && u in s'.ready :: prio[u] <= prio[t])
  {
    TickShape(g, prio, s);
    var p := Undispatched(g, s);
    var d := Dispatched(prio, p);
    forall t, u | t in d.executing && u in d.ready ensures prio[u] <= prio[t] {
      var i :| 0 <= i < |d.executing| && d.executing[i] == t;
    }
  }

  /** In an acyclic graph with a processor, some task starts whenever one is ready or waiting. */
  lemma TickProgress(g: TaskGraph, prio: map<Task, nat>, s: SimState)
    requires Inv(g, s) && Covers(g, prio) && Acyclic(g) && |s.cpus| > 0
    requires s.ready != [] || s.others != []
    ensures Tick(g, prio, s).executing != []
  {
    TickShape(g, prio, s);
    var p := Undispatched(g, s);
    if p.ready == [] {
      UndispatchedFacts(g, prio, s);
      NoDeadlock(g, p);
    }
  }

  /** The loop's variant: waiting tasks weigh 3, ready ones 2, executing ones 1. */
  function Measure(s: SimState): nat {
    3 * |s.others| + 2 * |s.ready| + |s.executing|
  }

  lemma TickDecreases(g: TaskGraph, prio: map<Task, nat>, s: SimState)
    requires Inv(g, s) && Covers(g, prio) && Acyclic(g) && |s.cpus| > 0 && !Finished(s)
    ensures Measure(Tick(g, prio, s)) < Measure(s)
  {
    TickCounts(g, prio, s);
    if s.ready != [] || s.others != [] {
      TickProgress(g, prio, s);
    }
  }

  // ---------------------------------------------------------------------------------------------
  // The whole simulation (src/scripts/pysched.py:72-116).
  // ---------------------------------------------------------------------------------------------

  /** The completion time the simulator prints when started from `s`: the clock when the loop
      stops, minus one. The loop terminates because the graph is acyclic and there is at least one
      processor (with none and a task to run, the source loops forever). */
  function Run(g: TaskGraph, prio: map<Task, nat>, s: SimState): (c: int)
    requires Inv(g, s) && Covers(g, prio) && Acyclic(g)
    requires |s.cpus| > 0 || Finished(s)
    ensures c >= s.time - 1
    ensures !Finished(s) ==> c >= s.time
    decreases Measure(s)
  {
    if Finished(s) then s.time - 1
    else
      TickInv(g, prio, s);
      TickDecreases(g, prio, s);
      Run(g, prio, Tick(g, prio, s))
  }

  /** The statuses after a tick, phase by phase: retirement marks the executing tasks done,
      promotion marks the tasks `Promotable` from the retired statuses ready, and dispatch marks
      the started tasks, all of them ready before, executing. */
  lemma TickStatusMaps(g: TaskGraph, prio: map<Task, nat>, s: SimState)
    requires Inv(g, s) && Covers(g, prio)
    ensures var r := Retired(s);
      var p := Undispatched(g, s);
      var s' := Tick(g, prio, s);
      && r.status.Keys == s.status.Keys && p.status.Keys == s.status.Keys
      && s'.status.Keys == s.status.Keys
      && (forall t | t in s.status :: r.status[t] == if t in s.executing then Done else s.status[t])
      && (forall t | t in s.status ::
            p.status[t] == if t in Promotable(g, r.status, s.others) then Ready else r.status[t])
      && (forall t | t in s.status :: s'.status[t] == if t in s'.executing then Executing else p.status[t])
      && (forall t | t in s'.executing :: t in s.status && p.status[t] == Ready)
      && (forall t | t in Promotable(g, r.status, s.others) :: t in s.status && s.status[t] == Waiting)
      && (forall t | t in s.executing :: t in s.status && s.status[t] == Executing)
  {
    TickShape(g, prio, s);
    UndispatchedFacts(g, prio, s);
    PromotableMembers(g, Retired(s).status, s.others);
  }

  /** The status facts of a tick, on the four status maps of its phases. */
  lemma StatusSteps(g: TaskGraph, st: map<Task, Status>, rt: map<Task, Status>,
                    pt: map<Task, Status>, dt: map<Task, Status>,
                    ex: seq<Task>, q: seq<Task>, started: seq<Task>)
    requires rt.Keys == st.Keys && pt.Keys == st.Keys && dt.Keys == st.Keys
    requires forall t | t in st :: rt[t] == if t in ex then Done else st[t]
    requires forall t | t in st :: pt[t] == if t in q then Ready else rt[t]
    requires forall t | t in st :: dt[t] == if t in started then Executing else pt[t]
    requires forall t | t in started :: t in st && pt[t] == Ready
    requires forall t | t in q :: t in st && st[t] == Waiting && AllDone(rt, InNeighbors(g.edges, t))
    requires forall t | t in ex :: t in st && st[t] == Executing
    ensures Advances(st, dt)
    ensures forall t | t in ex :: dt[t] == Done
    ensures forall t | t in st && Stage(st[t]) <= 1 :: dt[t] != Done
    ensures forall t, u | t in st && st[t] == Waiting && (u, t) in g.edges
              && u in st && Stage(st[u]) <= 1 :: dt[t] == Waiting
  {
    forall t, u | t in st && st[t] == Waiting && (u, t) in g.edges && u in st && Stage(st[u]) <= 1
      ensures dt[t] == Waiting
    {
      assert u in InNeighbors(g.edges, t);
      assert t !in q;
    }
  }

  /** How one tick changes statuses: no task goes back, the executing tasks are done, a task is
      done only after it has executed, and a waiting task with a predecessor not yet executing
      stays waiting. */
  lemma TickStatus(g: TaskGraph, prio: map<Task, nat>, s: SimState)
    requires Inv(g, s) && Covers(g, prio)
    ensures var s' := Tick(g, prio, s);
      && Advances(s.status, s'.status)
      && (forall t | t in s.executing :: s'.status[t] == Done)
      && (forall t | t in s.status && Stage(s.status[t]) <= 1 :: s'.status[t] != Done)
      && (forall t, u | t in s.status && s.status[t] == Waiting && (u, t) in g.edges
            && u in s.status && Stage(s.status[u]) <= 1 :: s'.status[t] == Waiting)
  {
    TickStatusMaps(g, prio, s);
    var r := Retired(s);
    var q := Promotable(g, r.status, s.others);
    PromotableMembers(g, r.status, s.others);
    var s' := Tick(g, prio, s);
    StatusSteps(g, s.status, r.status, Undispatched(g, s).status, s'.status, s.executing, q, s'.executing);
  }

  // ---------------------------------------------------------------------------------------------
  // The initial state.
  // ---------------------------------------------------------------------------------------------

  /** Scanning distinct nodes puts each one with no in-neighbour on the ready list and each one
      with an in-neighbour on the waiting list, in node order, with the matching status. */
  lemma {:induction false} ClassifyFacts(g: TaskGraph, ns: seq<Task>)
    requires Distinct(ns)
    ensures var (ready, others, status) := Classify(g, ns);
      && status.Keys == (set n | n in ns)
      && Distinct(ready) && Distinct(others)
      && (forall t :: t in ready <==> t in ns && InNeighbors(g.edges, t) == [])
      && (forall t :: t in others <==> t in ns && InNeighbors(g.edges, t) != [])
      && (forall t | t in status :: status[t] == if InNeighbors(g.edges, t) == [] then Ready else Waiting)
      && |ready| + |others| == |ns|
    decreases |ns|
  {
    if ns != [] {
      var init := ns[..|ns| - 1];
      var n := ns[|ns| - 1];
      assert ns == init + [n];
      assert n !in init;
      ClassifyFacts(g, init);
    }
  }

  /** The simulator's state before the loop: every processor idle, the sources ready. */
  lemma InitInv(g: TaskGraph, ncpus: nat)
    requires WellFormed(g)
    ensures var s := Init(g, ncpus);
      && Inv(g, s) && s.time == 0 && |s.cpus| == ncpus && s.executing == []
      && |s.ready| + |s.others| == |g.nodes|
      && (forall t :: t in s.ready <==> t in g.nodes && InNeighbors(g.edges, t) == [])
      && (forall t | t in s.status :: Stage(s.status[t]) <= 1)
  {
    ClassifyFacts(g, g.nodes);
    var s := Init(g, ncpus);
    forall t | t in s.status && s.status[t] != Waiting
      ensures AllDone(s.status, InNeighbors(g.edges, t))
    {
    }
  }

  // ---------------------------------------------------------------------------------------------
  // Completion time.
  // ---------------------------------------------------------------------------------------------

  /** What one tick of the run loop gives the proofs about the whole run: the invariant is kept,
      the measure drops, the completion time is unchanged, at most one task per processor starts,
      and some task starts while any is left. */
  lemma RunStep(g: TaskGraph, prio: map<Task, nat>, s: SimState, s': SimState)
    requires Inv(g, s) && Covers(g, prio) && Acyclic(g) && |s.cpus| > 0 && !Finished(s)
    requires s' == Tick(g, prio, s)
    ensures Inv(g, s') && |s'.cpus| == |s.cpus| && s'.time == s.time + 1
    ensures Measure(s') < Measure(s)
    ensures Run(g, prio, s) == Run(g, prio, s')
    ensures |s'.others| + |s'.ready| + |s'.executing| == |s.others| + |s.ready|
    ensures |s'.executing| <= |s.cpus|
    ensures s.ready != [] || s.others != [] ==> s'.executing != []
  {
    TickInv(g, prio, s);
    TickDecreases(g, prio, s);
    TickCounts(g, prio, s);
    if s.ready != [] || s.others != [] {
      TickProgress(g, prio, s);
    }
  }

  /** From a state with tasks left, the run ends no later than one tick per remaining task. */
  lemma {:induction false} RunUpper(g: TaskGraph, prio: map<Task, nat>, s: SimState)
    requires Inv(g, s) && Covers(g, prio) && Acyclic(g)
    requires |s.cpus| > 0 || Finished(s)
    ensures Run(g, prio, s) <= s.time + |s.others| + |s.ready|
    decreases Measure(s)
  {
    if !Finished(s) {
      var s' := Tick(g, prio, s);
      RunStep(g, prio, s, s');
      RunUpper(g, prio, s');
    }
  }

  /** How many tasks each tick of the run starts, from the first tick up to the last one that
      starts a task (the tick after it only retires). */
  ghost function Starts(g: TaskGraph, prio: map<Task, nat>, s: SimState): seq<nat>
    requires Inv(g, s) && Covers(g, prio) && Acyclic(g)
    requires |s.cpus| > 0 || Finished(s)
    decreases Measure(s)
  {
    if Finished(s) then []
    else
      TickInv(g, prio, s);
      TickDecreases(g, prio, s);
      var s' := Tick(g, prio, s);
      var first: seq<nat> := if Finished(s') then [] else [|s'.executing|];
      first + Starts(g, prio, s')
  }

  /** Sum of a sequence of counts. */
  function Sum(xs: seq<nat>): nat {
    if xs == [] then 0 else xs[0] + Sum(xs[1..])
  }

  /** Every count is at most `c`. */
  predicate AtMost(xs: seq<nat>, c: nat) {
    xs == [] || (xs[0] <= c && AtMost(xs[1..], c))
  }

  /** Counts each at most `c` sum to at most `c` times their number. */
  lemma {:induction false} SumBound(xs: seq<nat>, c: nat, len: nat)
    requires AtMost(xs, c) && len == |xs|
    ensures Sum(xs) <= c * len
  {
    if xs != [] {
      SumBound(xs[1..], c, len - 1);
      assert c * len == c * (len - 1) + c;
    }
  }

  /** The run has one entry of `Starts` per tick until the completion time. */
  lemma {:induction false} StartsLength(g: TaskGraph, prio: map<Task, nat>, s: SimState)
    requires Inv(g, s) && Covers(g, prio) && Acyclic(g) && |s.cpus| > 0 && !Finished(s)
    ensures |Starts(g, prio, s)| == Run(g, prio, s) - s.time
    decreases Measure(s)
  {
    var s' := Tick(g, prio, s);
    RunStep(g, prio, s, s');
    if !Finished(s') {
      StartsLength(g, prio, s');
    }
  }

  /** Every task left to run is started by exactly one tick. */
  lemma {:induction false} StartsSum(g: TaskGraph, prio: map<Task, nat>, s: SimState)
    requires Inv(g, s) && Covers(g, prio) && Acyclic(g) && |s.cpus| > 0
    ensures Sum(Starts(g, prio, s)) == |s.others| + |s.ready|
    decreases Measure(s)
  {
    if !Finished(s) {
      var s' := Tick(g, prio, s);
      RunStep(g, prio, s, s');
      if !Finished(s') {
        StartsSum(g, prio, s');
      }
    }
  }

  /** No tick starts more tasks than there are processors. */
  lemma {:induction false} StartsBound(g: TaskGraph, prio: map<Task, nat>, s: SimState)
    requires Inv(g, s) && Covers(g, prio) && Acyclic(g) && |s.cpus| > 0
    ensures AtMost(Starts(g, prio, s), |s.cpus|)
    decreases Measure(s)
  {
    if !Finished(s) {
      var s' := Tick(g, prio, s);
      RunStep(g, prio, s, s');
      if !Finished(s') {
        StartsBound(g, prio, s');
        var xs := [|s'.executing|] + Starts(g, prio, s');
        assert xs[1..] == Starts(g, prio, s');
      }
    }
  }

  /** The three facts about `Starts` for a run with tasks left. */
  lemma RunStarts(g: TaskGraph, prio: map<Task, nat>, s: SimState)
    requires Inv(g, s) && Covers(g, prio) && Acyclic(g) && |s.cpus| > 0 && !Finished(s)
    ensures var xs := Starts(g, prio, s);
      |xs| == Run(g, prio, s) - s.time && Sum(xs) == |s.others| + |s.ready| && AtMost(xs, |s.cpus|)
  {
    StartsLength(g, prio, s);
    StartsSum(g, prio, s);
    StartsBound(g, prio, s);
  }

  /** Consecutive tasks are joined by an edge. */
  ghost predicate IsTaskPath(g: TaskGraph, path: seq<Task>) {
    forall i | 0 <= i < |path| - 1 :: (path[i], path[i + 1]) in g.edges
  }

  /** After one tick a chain of unstarted tasks is still unstarted from its second task on, and
      its first task is unstarted, executing, or finished. */
  lemma PathTick(g: TaskGraph, prio: map<Task, nat>, s: SimState, path: seq<Task>, s': SimState)
    requires Inv(g, s) && Covers(g, prio)
    requires path != [] && IsTaskPath(g, path)
    requires forall i | 0 <= i < |path| :: path[i] in s.status && Stage(s.status[path[i]]) <= 1
    requires s' == Tick(g, prio, s)
    ensures path[0] in s'.status && s'.status[path[0]] != Done
    ensures forall i | 1 <= i < |path| :: path[i] in s'.status && Stage(s'.status[path[i]]) <= 1
  {
    TickStatus(g, prio, s);
    TickStatusMaps(g, prio, s);
    forall i | 1 <= i < |path| ensures s.status[path[i]] == Waiting && s'.status[path[i]] == Waiting {
      assert path[i - 1] in InNeighbors(g.edges, path[i]);
      assert (path[i - 1], path[i]) in g.edges;
    }
  }

  /** The chain, or its tail, is still unstarted in `st`. */
  lemma PathUnstarted(g: TaskGraph, path: seq<Task>, st: map<Task, Status>)
    requires path != [] && IsTaskPath(g, path) && path[0] in st
    requires forall i | 1 <= i < |path| :: path[i] in st && Stage(st[path[i]]) <= 1
    ensures Stage(st[path[0]]) <= 1 ==> forall i | 0 <= i < |path| :: path[i] in st && Stage(st[path[i]]) <= 1
    ensures |path| > 1 ==> IsTaskPath(g, path[1..])
    ensures |path| > 1 ==> forall i | 0 <= i < |path[1..]| :: path[1..][i] in st && Stage(st[path[1..][i]]) <= 1
  {
  }

  /** A chain of tasks none of which has started needs one tick per task, on any number of
      processors: the completion time `c` is at least the length of the critical path. */
  lemma {:induction false} RunPath(g: TaskGraph, prio: map<Task, nat>, s: SimState, path: seq<Task>, c: int)
    requires Inv(g, s) && Covers(g, prio) && Acyclic(g)
    requires |s.cpus| > 0
    requires path != [] && IsTaskPath(g, path)
    requires forall i | 0 <= i < |path| :: path[i] in s.status && Stage(s.status[path[i]]) <= 1
    requires c == Run(g, prio, s)
    ensures c >= s.time + |path|
    decreases Measure(s)
  {
    assert !Finished(s) by {
      assert path[0] in s.ready || path[0] in s.others;
    }
    var s' := Tick(g, prio, s);
    RunStep(g, prio, s, s');
    PathTick(g, prio, s, path, s');
    PathUnstarted(g, path, s'.status);
    if Stage(s'.status[path[0]]) <= 1 {
      RunPath(g, prio, s', path, c);
    } else if |path| > 1 {
      RunPath(g, prio, s', path[1..], c);
    } else {
      assert path[0] in s'.executing;
    }
  }

  /** The completion time `simulation(graph, Scheduler(graph), ncpus)` prints. */
  function Completion(g: TaskGraph, ncpus: nat): (c: int)
    requires WellFormed(g) && Acyclic(g)
    requires ncpus > 0 || g.nodes == []
    ensures c >= -1
  {
    InitInv(g, ncpus);
    Run(g, Priorities(g), Init(g, ncpus))
  }

  /** An empty graph runs no tick: the printed completion time is -1. */
  lemma CompletionEmpty(g: TaskGraph, ncpus: nat)
    requires WellFormed(g) && Acyclic(g) && g.nodes == []
    ensures Completion(g, ncpus) == -1
  {
    InitInv(g, ncpus);
  }

  /** With tasks to run, the completion time is at most the number of tasks. */
  lemma CompletionUpper(g: TaskGraph, ncpus: nat)
    requires WellFormed(g) && Acyclic(g) && ncpus > 0
    ensures Completion(g, ncpus) <= |g.nodes|
  {
    InitInv(g, ncpus);
    RunUpper(g, Priorities(g), Init(g, ncpus));
  }

  /** With tasks to run, the ticks before completion start every task, at most `ncpus` per tick. */
  lemma CompletionStarts(g: TaskGraph, ncpus: nat)
    requires WellFormed(g) && Acyclic(g) && ncpus > 0 && g.nodes != []
    ensures Inv(g, Init(g, ncpus)) && |Init(g, ncpus).cpus| == ncpus
    ensures var xs := Starts(g, Priorities(g), Init(g, ncpus));
      |xs| == Completion(g, ncpus) && Sum(xs) == |g.nodes| && AtMost(xs, ncpus)
  {
    InitInv(g, ncpus);
    var s := Init(g, ncpus);
    assert !Finished(s) by {
      assert g.nodes[0] in s.ready || g.nodes[0] in s.others;
    }
    RunStarts(g, Priorities(g), s);
  }

  /** With tasks to run, the completion time is at least `|nodes| / ncpus`. */
  lemma CompletionLower(g: TaskGraph, ncpus: nat)
    requires WellFormed(g) && Acyclic(g) && ncpus > 0 && g.nodes != []
    ensures ncpus * Completion(g, ncpus) >= |g.nodes|
  {
    CompletionStarts(g, ncpus);
    var xs := Starts(g, Priorities(g), Init(g, ncpus));
    SumBound(xs, ncpus, Completion(g, ncpus));
  }

  /** On one processor the tasks run one after the other: the completion time is the number of
      tasks. */
  lemma CompletionSequential(g: TaskGraph)
    requires WellFormed(g) && Acyclic(g) && g.nodes != []
    ensures Completion(g, 1) == |g.nodes|
  {
    CompletionUpper(g, 1);
    CompletionLower(g, 1);
  }

  /** One isolated task on one processor completes at time 1. */
  lemma CompletionSingleTask()
    ensures IsRanking(TaskGraph(["a"], []), map["a" := 0])
    ensures Completion(TaskGraph(["a"], []), 1) == 1
  {
    var g := TaskGraph(["a"], []);
    assert IsRanking(g, map["a" := 0]);
    CompletionSequential(g);
  }

  /** The chain a -> b -> c on one processor completes at time 3. */
  lemma CompletionChain()
    ensures IsRanking(TaskGraph(["a", "b", "c"], [("a", "b"), ("b", "c")]), map["a" := 0, "b" := 1, "c" := 2])
    ensures Completion(TaskGraph(["a", "b", "c"], [("a", "b"), ("b", "c")]), 1) == 3
  {
    var g := TaskGraph(["a", "b", "c"], [("a", "b"), ("b", "c")]);
    assert IsRanking(g, map["a" := 0, "b" := 1, "c" := 2]);
    CompletionSequential(g);
  }

  /** The completion time is at least the number of tasks on any path of the graph. */
  lemma CompletionCriticalPath(g: TaskGraph, ncpus: nat, path: seq<Task>)
    requires WellFormed(g) && Acyclic(g) && ncpus > 0
    requires path != [] && IsTaskPath(g, path) && forall t | t in path :: t in g.nodes
    ensures Completion(g, ncpus) >= |path|
  {
    InitInv(g, ncpus);
    var s := Init(g, ncpus);
    RunPath(g, Priorities(g), s, path, Completion(g, ncpus));
  }
}
