/** The imperative simulator of src/scripts/pysched.py: the `Scheduler` object and the
    `simulation` loop, each step proved to compute the corresponding function of module `Sched`. */
module Simulator {
  import opened Common
  import opened Spec = Sched

  /** `Scheduler`: a priority table filled once by the constructor, and the choice of a task. */
  class Scheduler {
    const data: map<Task, nat>

    /** `__init__`: every node gets its out-degree as priority. */
    constructor (g: TaskGraph)
      ensures data == Priorities(g)
    {
      var m: map<Task, nat> := map[];
      for k := 0 to |g.nodes|
        invariant m == map n | n in g.nodes[..k] :: Spec.OutDegree(g.edges, n)
      {
        assert g.nodes[..k + 1] == g.nodes[..k] + [g.nodes[k]];
        m := m[g.nodes[k] := Spec.OutDegree(g.edges, g.nodes[k])];
      }
      assert g.nodes[..|g.nodes|] == g.nodes;
      data := m;
    }

    /** `sched`: Python's `max(tasks_ready, key=...)`, which keeps the first task of maximal
        priority. */
    method Sched(ready: seq<Task>) returns (t: Task)
      requires ready != [] && forall u | u in ready :: u in data
      ensures t in ready && forall u | u in ready :: data[u] <= data[t]
      ensures t == ready[MaxIndex(data, ready)]
    {
      var k := 0;
      for i := 1 to |ready|
        invariant k < i
        invariant forall j | 0 <= j < i :: data[ready[j]] <= data[ready[k]]
        invariant forall j | 0 <= j < k :: data[ready[j]] < data[ready[k]]
      {
        if data[ready[i]] > data[ready[k]] {
          k := i;
        }
      }
      MaxIndexUnique(data, ready, k);
      t := ready[k];
    }
  }

  /** The `for father in in_neighbors(n): ... break / else` test of the promotion loop. */
  method AllPredecessorsDone(status: map<Task, Status>, preds: seq<Task>) returns (b: bool)
    ensures b <==> forall p | p in preds :: p in status && status[p] == Done
  {
    b := true;
    var j := 0;
    while j < |preds|
      invariant 0 <= j <= |preds|
      invariant b && forall i | 0 <= i < j :: preds[i] in status && status[preds[i]] == Done
    {
      if preds[j] !in status || status[preds[j]] != Done {
        b := false;
        return;
      }
      j := j + 1;
    }
  }

  /** The local state of `simulation`: `cpu_status`, the three task lists, `task_status` and
      the clock. */
  class Simulation {
    const cpus: array<Slot>
    var ready: seq<Task>
    var executing: seq<Task>
    var others: seq<Task>
    var status: map<Task, Status>
    var time: nat

    function State(): SimState
      reads this, cpus
    {
      SimState(cpus[..], ready, executing, others, status, time)
    }

    /** Every processor idle, the sources ready and the other nodes waiting, the clock at 0. */
    constructor (g: TaskGraph, ncpus: nat)
      ensures fresh(cpus)
      ensures State() == Init(g, ncpus)
    {
      var rd: seq<Task>, ot: seq<Task>, st: map<Task, Status> := [], [], map[];
      for k := 0 to |g.nodes|
        invariant (rd, ot, st) == Classify(g, g.nodes[..k])
      {
        assert g.nodes[..k + 1][..k] == g.nodes[..k];
        var n := g.nodes[k];
        if Spec.InNeighbors(g.edges, n) == [] {
          rd := rd + [n];
          st := st[n := Ready];
        } else {
          ot := ot + [n];
          st := st[n := Waiting];
        }
      }
      assert g.nodes[..|g.nodes|] == g.nodes;
      cpus := new Slot[ncpus](_ => Idle);
      ready, executing, others, status, time := rd, [], ot, st, 0;
      new;
      assert forall i | 0 <= i < ncpus :: cpus[..][i] == Idle;
    }

    /** The retirement loop: processors whose task finishes now mark it done and become idle. */
    method Retire()
      modifies this, cpus
      ensures State() == Retired(old(State())) && time == old(time)
    {
      ghost var s0 := State();
      for i := 0 to cpus.Length
        invariant State() == RetireUpTo(s0, i) && time == s0.time
      {
        if cpus[i].finish == time && cpus[i].task.Some? {
          var t := cpus[i].task.value;
          status := status[t := Done];
          executing := RemoveFirst(executing, t);
          cpus[i] := Idle;
        }
      }
    }

    /** The promotion loop over a copy of `others`: a waiting task whose predecessors are all done
        becomes ready. */
    method Promote(g: TaskGraph)
      modifies this
      ensures State() == Promoted(g, old(State())) && time == old(time)
    {
      ghost var s0 := State();
      var copy := others;
      for k := 0 to |copy|
        invariant State() == PromoteUpTo(g, s0, copy, k) && time == s0.time
      {
        var n := copy[k];
        var done := AllPredecessorsDone(status, Spec.InNeighbors(g.edges, n));
        if done {
          status := status[n := Ready];
          others := RemoveFirst(others, n);
          ready := ready + [n];
        }
      }
    }

    /** The dispatch loop: each idle processor takes the scheduler's choice among the ready tasks,
        to run until the next tick. */
    method Dispatch(sched: Scheduler)
      requires forall t | t in ready :: t in sched.data
      modifies this, cpus
      ensures State() == Dispatched(sched.data, old(State())) && time == old(time)
    {
      ghost var s0 := State();
      for i := 0 to cpus.Length
        invariant State() == DispatchUpTo(sched.data, s0, i) && time == s0.time
      {
        if cpus[i].finish == 0 && |ready| != 0 {
          DispatchOne(sched, i);
        }
      }
    }

    /** The body of the dispatch loop for an idle processor i while a task is ready. */
    method DispatchOne(sched: Scheduler, i: nat)
      requires i < cpus.Length && cpus[i].finish == 0 && |ready| != 0
      requires forall t | t in ready :: t in sched.data
      modifies this, cpus
      ensures State() == DispatchCpu(sched.data, old(State()), i)
    {
      var t := sched.Sched(ready);
      cpus[i] := Slot(time + 1, Some(t));
      status := status[t := Executing];
      ready := RemoveFirst(ready, t);
      executing := executing + [t];
    }

    /** One iteration of the `while` loop: the three phases, then the clock advances. */
    method Step(g: TaskGraph, sched: Scheduler)
      requires Covers(g, sched.data)
      requires forall t | t in ready :: t in g.nodes
      requires forall t | t in others :: t in g.nodes
      modifies this, cpus
      ensures State() == Tick(g, sched.data, old(State()))
    {
      ghost var s0 := State();
      Retire();
      RetiredLists(s0);
      ghost var r := State();
      Promote(g);
      PromotedLists(g, r);
      Dispatch(sched);
      time := time + 1;
    }
  }

  /** `simulation(graph, sched, ncpus)`: run ticks until no task is ready, waiting or executing,
      and report the clock minus one as the completion time. */
  method Simulate(g: TaskGraph, sched: Scheduler, ncpus: nat) returns (completion: int)
    requires Spec.WellFormed(g) && Acyclic(g) && Covers(g, sched.data)
    requires ncpus > 0 || g.nodes == []
    ensures Inv(g, Init(g, ncpus)) && |Init(g, ncpus).cpus| == ncpus
    ensures ncpus > 0 || Finished(Init(g, ncpus))
    ensures completion == Run(g, sched.data, Init(g, ncpus))
    ensures sched.data == Priorities(g) ==> completion == Completion(g, ncpus)
  {
    var sim := new Simulation(g, ncpus);
    InitInv(g, ncpus);
    while sim.ready != [] || sim.others != [] || sim.executing != []
      invariant fresh(sim.cpus)
      invariant Inv(g, sim.State()) && sim.cpus.Length == ncpus
      invariant ncpus > 0 || Finished(sim.State())
      invariant Run(g, sched.data, sim.State()) == Run(g, sched.data, Init(g, ncpus))
      decreases Measure(sim.State())
    {
      ghost var s := sim.State();
      sim.Step(g, sched);
      RunStep(g, sched.data, s, sim.State());
    }
    completion := sim.time - 1;
  }
}
