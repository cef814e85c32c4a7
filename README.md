# ggen core, modelled and proved in Dafny

ggen generates and analyses random and structured task graphs: directed acyclic graphs whose
vertices are tasks and whose edges are dependencies. This project models the core of the
repository in Dafny 4.11 and proves what that core promises:

- **The scheduling simulator** (`src/scripts/pysched.py`, files `sched.dfy` and
  `simulator.dfy`). A list scheduler gives every task its out-degree as priority. It then runs
  a discrete-time simulation on `ncpus` processors (`simulation`'s default of 10, which the
  script's own call uses; the model takes the count as a parameter). Each tick retires the tasks that finish
  now, promotes the waiting tasks whose predecessors are all done, gives every idle processor
  the ready task of highest priority, and advances the clock. `Sched` states one tick as a
  function on a state value and proves the invariants: the task lists partition the
  graph, statuses only move forward, dispatch is greedy and bounded per tick, and the loop ends
  on an acyclic graph. It also proves bounds on the printed completion time: at least
  `|tasks| / ncpus`, at least the critical path, at most `|tasks|`, and exactly `|tasks|` on one
  processor. `Simulator` holds the `Scheduler` and `Simulation` classes, whose loops are proved
  equal to those functions.
- **The igraph-based C library.**
  - Deterministic builders: Fibonacci, fork-join (`graph_static.dfy`), and the Cholesky,
    sparse/dense LU and Poisson2D dataflow graphs (`graph_dataflow.dfy`).
  - Source/sink transformations (`graph_transformation.dfy`) and the longest path
    (`graph_analysis.dfy`).
  - The random generators (`graph_generation.dfy`): G(n,M), G(n,p), layer-by-layer, the
    argument checks of fan-in/fan-out, and random orders.
  - The vector utilities (`vector_utils.dfy`), Hopcroft–Karp matching
    (`bipartite_matching.dfy`), and the destructor stack and error strings of `error.c`
    (`error_stack.dfy`).
  - `Common` (`common.dfy`) holds the shared model of `igraph_t`: a vertex count and an
    edge list in insertion order, with a mutable `IGraph` class for the builders.
- **The Boost-based C++ functions.**
  - `BoostGraph` (`boost_graph.dfy`) models the list-based Boost graph: opaque vertex
    descriptors in a list, and an edge list.
  - The dummy source/sink and source/sink removal functions (`transform_boost.dfy`).
  - The analyses (`analysis_boost.dfy`): degree maps, nodes per layer, longest path,
    maximal paths, and the branch-and-bound maximum independent set.

Random draws are inputs. A NULL GSL generator is `None`. A present one is a sequence of draws,
a coin function or a list of permutations, whichever the generator consumes. External sorts
are parameters too: igraph's and Boost's topological sorts arrive as an order that satisfies
the stated precondition.

Terms used below:
- `None` / `Some`: an optional value, as in an `Option` datatype.
- NIL: vertex `vg`, the matching's "unmatched" marker.
- A target: a vertex of in-degree 0 (for SOURCE) or of out-degree 0 (for SINK). igraph's
  degree in `src/graph-transformation.c` is called with `loops = 0` and does not count a
  self-loop; Boost's `in_degree` and `out_degree` in the C++ files do.

One behaviour of igraph matters for the generators. `igraph_full_citation`, which the G(n,M),
G(n,p) and layer-by-layer generators return in their "complete" cases, has its edges going
from higher to lower ids. The general cases of the same generators produce edges from lower
to higher ids. The model keeps both as written.

## Model

| member | source | states |
|---|---|---|
| Sched.Priorities | src/scripts/pysched.py:25-29 | the priority table has exactly the graph's nodes as keys and maps each one to its out-degree |
| Sched.OutDegree | src/scripts/pysched.py:28 | the out-degree is zero exactly when no edge leaves the node |
| Sched.MaxIndex | src/scripts/pysched.py:32-37 | `max(ready, key=prio)` picks a task of maximal priority, and every task before it in the ready list has strictly lower priority (ties go to the earliest) |
| Sched.MaxIndexUnique | src/scripts/pysched.py:37 | any index that is maximal and beats every earlier task is the one `max` returns |
| Sched.RemoveFirst | src/scripts/pysched.py:80 | `list.remove` on a list without repetition keeps every other element and drops exactly that one; a missing element leaves the list unchanged |
| Sched.InNeighbors | src/scripts/pysched.py:88 | a node is listed as a predecessor exactly when an edge runs from it to the task |
| Sched.Promotable | src/scripts/pysched.py:86-96 | the tasks promoted come from the waiting list, without repetition |
| Sched.PromotableMembers | src/scripts/pysched.py:86-96 | a waiting task is promoted exactly when all its predecessors are done |
| Sched.RetireCpu | src/scripts/pysched.py:76-81 | one turn of the retirement loop: a processor whose finish time is now and that holds a task marks it done, drops its first occurrence from the executing list and becomes idle; any other processor changes nothing. The processor count is kept |
| Sched.Retired | src/scripts/pysched.py:75-82 | defines the state after the retirement loop: `RetireCpu` for processors 0 .. ncpus-1, in order |
| Sched.RetireUpToFacts | src/scripts/pysched.py:75-82 | after the retirement loop has examined processors 0..k-1 those are idle, the rest unchanged, and the tasks finishing now are marked done |
| Sched.RetiredFacts | src/scripts/pysched.py:75-82 | after retirement every processor is idle, nothing is executing, every task that was executing is done, and no status goes back |
| Sched.AllDone | src/scripts/pysched.py:88-92 | defines the `for ... break / else` test: every in-neighbour has status done |
| Sched.PromoteTask | src/scripts/pysched.py:87-96 | defines one turn of the promotion loop: a task whose in-neighbours are all done becomes ready, leaves the waiting list and is appended to the ready list; otherwise nothing changes |
| Sched.Promoted | src/scripts/pysched.py:86-96 | defines the state after the promotion loop: `PromoteTask` for each task of the waiting list as it stood before the loop (`others[:]`), in order |
| Sched.PromoteUpToFacts | src/scripts/pysched.py:86-96 | after the promotion loop has examined k waiting tasks, exactly the promotable ones among them have moved, in order, to the ready list |
| Sched.PromotedFrame | src/scripts/pysched.py:86-96 | promotion appends exactly the promotable waiting tasks to the ready list, marks exactly them ready and changes nothing else |
| Sched.PromotedFacts | src/scripts/pysched.py:86-96 | after promotion the state is consistent and no task left waiting has all its predecessors done |
| Sched.DispatchCpu | src/scripts/pysched.py:103-111 | one turn of the dispatch loop: an idle processor (finish 0) with tasks ready takes the first ready task of maximal priority until time + 1, marks it executing, drops it from the ready list and appends it to the executing list; otherwise nothing changes. The processor count is kept, and no task joins the ready list |
| Sched.Dispatched | src/scripts/pysched.py:102-111 | defines the state after the dispatch loop: `DispatchCpu` for processors 0 .. ncpus-1, in order |
| Sched.DispatchStepStart | src/scripts/pysched.py:102-111 | an idle processor with tasks ready starts the scheduler's choice until the next tick, removes it from the ready list and marks it executing |
| Sched.DispatchUpToFacts | src/scripts/pysched.py:102-111 | after the dispatch loop has examined k processors, min(k, ready) tasks have started, each of priority at least that of every task left ready |
| Sched.UndispatchedFacts | src/scripts/pysched.py:75-96 | retirement then promotion give a consistent state with nothing executing, the done marks of the executing tasks, and the promoted tasks appended to the ready list |
| Sched.Tick | src/scripts/pysched.py:72-113 | defines one iteration of the `while` loop: `Retired`, then `Promoted`, then `Dispatched`, then the clock advanced by one |
| Sched.TickInv | src/scripts/pysched.py:72-113 | one iteration of the loop keeps the simulator invariant, keeps the processor count and advances the clock by one |
| Sched.NoDeadlock | src/scripts/pysched.py:72-96 | in an acyclic graph, if after retirement and promotion nothing is ready or executing, nothing is waiting either |
| Sched.TickCounts | src/scripts/pysched.py:75-111 | in one iteration the executing tasks leave, every remaining task is still ready, waiting or executing, and at most one task per processor is executing |
| Sched.TickGreedy | src/scripts/pysched.py:102-111 | no processor stays idle while a task is ready, and every task started has priority at least that of every task left ready |
| Sched.TickProgress | src/scripts/pysched.py:72-113 | in an acyclic graph with at least one processor, some task starts in every iteration that has a task ready or waiting |
| Sched.TickDecreases | src/scripts/pysched.py:72-113 | every iteration with work left lowers the termination measure, so the `while` loop stops |
| Sched.TickStatusMaps | src/scripts/pysched.py:75-111 | the statuses after each phase of an iteration: retirement marks the executing tasks done, promotion marks the promotable tasks ready, dispatch marks the started ready tasks executing |
| Sched.TickStatus | src/scripts/pysched.py:75-111 | no status goes back, executing tasks become done, a task not yet executing is not done afterwards, and a waiting task with an unstarted predecessor stays waiting |
| Sched.Classify | src/scripts/pysched.py:59-65 | defines the scan of the nodes in order: a node without in-neighbours is appended to the ready list with status ready, any other to the waiting list with status waiting |
| Sched.ClassifyFacts | src/scripts/pysched.py:59-65 | the initial scan puts the nodes without predecessors on the ready list and the others on the waiting list, in node order, with matching statuses |
| Sched.Init | src/scripts/pysched.py:50-68 | defines the state before the loop: `ncpus` idle processors (finish 0, no task), the lists and statuses `Classify` gives, nothing executing, clock 0 |
| Sched.InitInv | src/scripts/pysched.py:50-68 | the initial state keeps the invariant: clock 0, all processors idle, nothing executing, the sources ready and every node on one of the two lists |
| Sched.Run | src/scripts/pysched.py:72-116 | the completion time is at least the starting clock minus one, and at least the starting clock when work is left |
| Sched.RunUpper | src/scripts/pysched.py:72-116 | from a state with tasks left the run ends after at most one tick per remaining task |
| Sched.StartsLength | src/scripts/pysched.py:72-113 | there is one count of started tasks per tick until completion |
| Sched.StartsSum | src/scripts/pysched.py:72-113 | every task left to run is started by exactly one tick |
| Sched.StartsBound | src/scripts/pysched.py:72-113 | no tick starts more tasks than there are processors |
| Sched.RunStarts | src/scripts/pysched.py:72-113 | the number of ticks, the total of started tasks and the per-tick bound, together |
| Sched.PathTick | src/scripts/pysched.py:86-111 | after one tick a chain of unstarted tasks is unstarted from its second task on, and its first task is not done |
| Sched.RunPath | src/scripts/pysched.py:72-116 | a chain of tasks none of which has started needs one tick per task, whatever the number of processors |
| Sched.Completion | src/scripts/pysched.py:44-119 | the printed completion time is at least -1 |
| Sched.CompletionEmpty | src/scripts/pysched.py:113-119 | on a graph without nodes no tick runs and -1 is printed |
| Sched.CompletionUpper | src/scripts/pysched.py:72-119 | the completion time is at most the number of tasks |
| Sched.CompletionStarts | src/scripts/pysched.py:72-119 | the ticks before completion start every task once, at most `ncpus` per tick |
| Sched.CompletionLower | src/scripts/pysched.py:72-119 | `ncpus` times the completion time is at least the number of tasks |
| Sched.CompletionSequential | src/scripts/pysched.py:72-119 | on one processor the completion time equals the number of tasks |
| Sched.CompletionSingleTask | src/scripts/pysched.py:72-119 | one isolated task on one processor completes at time 1 |
| Sched.CompletionChain | src/scripts/pysched.py:72-119 | the chain a→b→c on one processor completes at time 3 |
| Sched.CompletionCriticalPath | src/scripts/pysched.py:72-119 | the completion time is at least the number of tasks on any path of the graph |
| Simulator.Scheduler.constructor | src/scripts/pysched.py:25-29 | the scheduler's table is the priority table: each node's out-degree |
| Simulator.Scheduler.Sched | src/scripts/pysched.py:32-37 | `sched` returns a ready task of maximal priority, the first such in the list |
| Simulator.AllPredecessorsDone | src/scripts/pysched.py:88-92 | the `for ... break / else` test answers true exactly when every predecessor is done |
| Simulator.Simulation.constructor | src/scripts/pysched.py:50-68 | the new simulation is in the initial state: processors idle, sources ready, others waiting, clock 0 |
| Simulator.Simulation.Retire | src/scripts/pysched.py:75-82 | the retirement loop leaves the state `Retired` describes, with the clock unchanged |
| Simulator.Simulation.Promote | src/scripts/pysched.py:86-96 | the promotion loop over a copy of the waiting list leaves the state `Promoted` describes |
| Simulator.Simulation.Dispatch | src/scripts/pysched.py:102-111 | the dispatch loop leaves the state `Dispatched` describes |
| Simulator.Simulation.DispatchOne | src/scripts/pysched.py:103-111 | one idle processor takes the scheduler's choice, as `DispatchCpu` describes |
| Simulator.Simulation.Step | src/scripts/pysched.py:74-113 | one iteration of the `while` loop performs one `Tick` |
| Simulator.Simulate | src/scripts/pysched.py:44-119 | the simulation loop ends and returns `Run` from the initial state, which with the out-degree scheduler is `Completion` |
| Sched.DispatchStepIdle | src/scripts/pysched.py:103-105 | an idle processor that finds the ready list empty stays idle, and the dispatch loop's shape is kept |
| Sched.RunStep | src/scripts/pysched.py:72-113 | one tick of the run keeps the invariant, lowers the measure, leaves the completion time unchanged, starts at most one task per processor and starts some task while any is left |
| GraphStatic.FibLeaf | src/graph-static.c:53 | defines when `_fibonacci_add_tasks` stops: n < 2 or n <= cutoff |
| GraphStatic.FibAdded | src/graph-static.c:53-66 | defines the number of vertices one call adds: 0 at a leaf, otherwise 2 plus those of the calls for n-1 and n-2 |
| GraphStatic.FibEdges | src/graph-static.c:61-66 | defines the edges one call appends when the graph has `base` vertices: `base → myid` and `base+1 → myid`, then the edges of n-1 under `base`, then those of n-2 under `base+1`, with the ids that follow |
| GraphStatic.FibonacciAddTasks | src/graph-static.c:48-69 | one call adds `FibAdded(n, cutoff)` vertices and appends exactly the edges `FibEdges` of its subtree (none when `n < 2` or `n <= cutoff`) |
| GraphStatic.FibEdgesCount | src/graph-static.c:48-69 | a call appends one edge per vertex it adds |
| GraphStatic.FibEdgesRange | src/graph-static.c:61-66 | every appended edge leaves a vertex the call added and enters a smaller id, either the caller's task or another added vertex |
| GraphStatic.FibEdgesOutDegree | src/graph-static.c:61-66 | every vertex a call adds has exactly one outgoing edge, and no other vertex gets one |
| GraphStatic.GenerateFibonacci | src/graph-static.c:77-99 | no graph and `GGEN_EINVAL` exactly when `cutoff > n`; otherwise success and the task tree grown from the single root task 0 |
| GraphStatic.FibonacciIsTree | src/graph-static.c:48-99 | the Fibonacci graph is a well-formed tree rooted at task 0: \|E\| = \|V\| - 1, the root has no outgoing edge, every other task exactly one, and edges go from higher to lower ids |
| GraphStatic.PhaseSource | src/graph-static.c:127 | defines the source of phase k: the loop variable `source` after k steps of `diameter + 1` |
| GraphStatic.ForkEdges | src/graph-static.c:130-136 | defines the edge cells of the first i forks of a phase, as edges: `source → source+j` and `source+j → sink` for j = 1 .. i |
| GraphStatic.ForkJoinEdges | src/graph-static.c:127-138 | defines the edges of the first p phases, in the order `igraph_add_edges` appends them |
| GraphStatic.PhaseSourceIsProduct | src/graph-static.c:118-129 | the source of phase k is vertex `k * (diameter + 1)` |
| GraphStatic.PhaseSourceMono | src/graph-static.c:127 | phase sources increase with the phase |
| GraphStatic.GenerateForkJoin | src/graph-static.c:104-144 | the graph has `1 + (diameter + 1) * phases` vertices and exactly the fork-join edges of all phases, in order |
| GraphStatic.AddPhase | src/graph-static.c:127-138 | one iteration of the phase loop appends exactly the edges of one phase and adds no vertex |
| GraphStatic.FillPhase | src/graph-static.c:130-136 | the edge vector holds the `source → fork → sink` pairs of every fork of the phase |
| GraphStatic.PutFork | src/graph-static.c:132-135 | the four cells of fork i hold its two edges, after those of the earlier forks |
| GraphStatic.ForkEdgesFacts | src/graph-static.c:130-136 | one phase has `2 * diameter` edges, each going up, between its source and its sink |
| GraphStatic.ForkEdgesForks | src/graph-static.c:130-136 | both edges of every fork of the phase are present |
| GraphStatic.ForkJoinCount | src/graph-static.c:127-138 | the fork-join graph has `2 * diameter * phases` edges |
| GraphStatic.ForkJoinRange | src/graph-static.c:127-138 | every edge goes from a lower to a higher id, and no id exceeds the last join |
| GraphStatic.ForkJoinFork | src/graph-static.c:127-138 | in phase k, fork j has its edge from the phase's source and its edge to the phase's join, which is the next phase's source |
| GraphStatic.ForkJoinWellFormed | src/graph-static.c:118-138 | the generated graph is well formed and acyclic |
| GraphStatic.ForkJoinEdgesStep | src/graph-static.c:127-138 | the edges after k + 1 phases are those after k phases followed by the edges of phase k |
| GraphDataflow.DataflowGraph.constructor | src/graph-dataflow.c:120 | `igraph_empty(g, 0, 1)`: no vertex, no edge, no attribute |
| GraphDataflow.DataflowGraph.AddTask | src/graph-dataflow.c:60-65 | `addtask` returns the old vertex count as the new vertex and changes nothing else |
| GraphDataflow.DataflowGraph.SetKernel | src/graph-dataflow.c:134 | `SETVAS(..., "kernel", ...)` sets the label of one vertex and nothing else |
| GraphDataflow.DataflowGraph.AddEdge | src/graph-dataflow.c:77 | an added edge goes at the end, with its attributes not yet set |
| GraphDataflow.DataflowGraph.SetX | src/graph-dataflow.c:79 | `SETEAN(..., "x", ...)` sets the "x" attribute of one edge and nothing else |
| GraphDataflow.DataflowGraph.SetY | src/graph-dataflow.c:97 | `SETEAN(..., "y", ...)` sets the "y" attribute of one edge and nothing else |
| GraphDataflow.AddKernelTask | src/graph-dataflow.c:133-134 | a new task gets the next id and its kernel label, and the edges are unchanged |
| GraphDataflow.Writers2D | src/graph-dataflow.c:211-213 | defines what a last-writer matrix holds after `igraph_matrix_long_fill(&lastwrite, -1)` and the later stores of task ids: every entry is -1 or a task id below the bound (the Cholesky matrix of lines 123-125 is the same) |
| GraphDataflow.Writers1D | src/graph-dataflow.c:356-361 | defines the same for the last-writer vectors `lw_old` and `lw_new` of Poisson2D: every entry is -1 or a task id below the bound |
| GraphDataflow.RawEdge1D | src/graph-dataflow.c:67-82 | `raw_edge_1d` adds nothing for a never-written cell; otherwise one edge from the cell's last writer to the task, with "x" the cell index |
| GraphDataflow.RawEdge2D | src/graph-dataflow.c:84-99 | `raw_edge_2d` adds nothing for a never-written block; otherwise one edge from the block's last writer to the task, with "x" and "y" the block coordinates |
| GraphDataflow.GemmCountClosed | src/graph-dataflow.c:147-166 | the gemm loops of one step make t(t-1)/2 tasks over t columns |
| GraphDataflow.SyrkGemmCount | src/graph-dataflow.c:147-166 | over t columns the syrk loop makes one syrk per column, t(t-1)/2 gemms and nothing else |
| GraphDataflow.CholeskyStepCount | src/graph-dataflow.c:130-167 | step k makes 1 potrf, r trsm, r syrk and r(r-1)/2 gemm tasks (r = size - k - 1) and nothing else |
| GraphDataflow.CholeskyTrsm | src/graph-dataflow.c:138-146 | the trsm loop appends one trsm task per later column, with edges only from earlier tasks, each labelled with its block |
| GraphDataflow.CholeskyGemm | src/graph-dataflow.c:156-165 | the gemm loop appends one gemm task per column between k and m, with edges only from earlier tasks |
| GraphDataflow.CholeskySyrk | src/graph-dataflow.c:147-166 | the syrk loop appends each syrk followed by its gemms, with edges only from earlier tasks |
| GraphDataflow.SyrkGemm | src/graph-dataflow.c:147-166 | defines the kernels of the syrk loop over its first t columns: each syrk followed by one gemm per earlier column of the step |
| GraphDataflow.CholeskyStep | src/graph-dataflow.c:132-166 | defines the kernels of step k: one potrf, then size-k-1 trsm, then `SyrkGemm` of size-k-1 columns |
| GraphDataflow.CholeskyKernels | src/graph-dataflow.c:130-167 | defines the kernel sequence of steps 0 .. k-1, each `CholeskyStep` in turn |
| GraphDataflow.CholeskyTasks | src/graph-dataflow.c:132-166 | step k appends the potrf, trsm, syrk and gemm tasks in the source's order |
| GraphDataflow.GenerateCholesky | src/graph-dataflow.c:108-173 | the Cholesky graph's vertices carry exactly the kernel sequence of the loops, and every edge goes from an earlier to a later task and carries both block coordinates |
| GraphDataflow.SparseNonEmpty | src/graph-dataflow.c:185-193 | defines the blocks `sparselu_genmat` marks non-empty: the diagonal and the two diagonals next to it always; any other block only when both coordinates are even and the smaller one is a multiple of 3 |
| GraphDataflow.SparseBlocks | src/graph-dataflow.c:181-195 | defines the whole matrix `sparselu_genmat` leaves, as rows of `SparseNonEmpty` flags |
| GraphDataflow.SparseGenMat | src/graph-dataflow.c:176-197 | every block is marked non-empty exactly as the seven tests decide, on unsigned coordinates |
| GraphDataflow.LuPhase | src/graph-dataflow.c:220-268 | defines the kernels of phase kk from row kk and column kk of the flags as the phase starts: one lu; one fwd per non-empty block right of the diagonal; one bdiv per non-empty block below it; and, for each non-empty block below it, one bmod per non-empty block right of it (`BmodLabels`) |
| GraphDataflow.BmodLabels | src/graph-dataflow.c:247-268 | defines the bmod kernels of phase kk for the rows up to ii: for each row whose block in column kk is non-empty, one bmod per non-empty block of row kk right of the diagonal |
| GraphDataflow.LuFwd | src/graph-dataflow.c:226-235 | the fwd loop appends one fwd task per non-empty block right of the diagonal in row kk |
| GraphDataflow.LuBdiv | src/graph-dataflow.c:236-246 | the bdiv loop appends one bdiv task per non-empty block below the diagonal in column kk |
| GraphDataflow.LuBmodTask | src/graph-dataflow.c:251-268 | one bmod task is appended and block (ii, jj) becomes non-empty, no other block changing |
| GraphDataflow.LuBmodRow | src/graph-dataflow.c:249-268 | for a row with a non-empty block in column kk, one bmod per non-empty block of row kk right of the diagonal, and exactly those blocks of the row become non-empty |
| GraphDataflow.LuBmod | src/graph-dataflow.c:247-268 | the bmod loop appends one bmod per pair of non-empty blocks in row kk and column kk and fills in exactly their product blocks |
| GraphDataflow.BmodCount | src/graph-dataflow.c:247-268 | the bmod loop makes (non-empty below) × (non-empty right) bmod tasks and nothing else |
| GraphDataflow.LuTasks | src/graph-dataflow.c:220-268 | phase kk appends the lu task, then the fwd, bdiv and bmod tasks in the source's order |
| GraphDataflow.Fill | src/graph-dataflow.c:247-256 | defines the flags after phase kk: block (i, j) with i > kk and j > kk becomes non-empty when blocks (i, kk) and (kk, j) are; every other block keeps its flag |
| GraphDataflow.MatrixAt | src/graph-dataflow.c:218-269 | defines the flags as phase k starts: `Fill` of phases 0 .. k-1 applied in turn to the flags `generate_lu` receives |
| GraphDataflow.PhaseAt | src/graph-dataflow.c:218-268 | defines the kernels of phase kk: `LuPhase` of row kk and column kk of `MatrixAt` for kk |
| GraphDataflow.LuKernels | src/graph-dataflow.c:218-269 | defines the kernel sequence of phases 0 .. k-1 of `generate_lu`, each `PhaseAt` in turn, over the filling matrix |
| GraphDataflow.LuStep | src/graph-dataflow.c:218-269 | one phase appends the kernels `LuPhase` reads off row and column kk of the matrix as it stands, and leaves the flags `Fill` gives: block (i, j) below and right of the diagonal becomes non-empty when (i, kk) and (kk, j) are |
| GraphDataflow.LuPhaseCount | src/graph-dataflow.c:218-269 | a phase makes 1 lu, one fwd per non-empty block right of the diagonal, one bdiv per non-empty block below it, one bmod per pair, and nothing else |
| GraphDataflow.LuPhaseDense | src/graph-dataflow.c:218-269 | on a dense matrix every phase is the dense phase |
| GraphDataflow.DenseLuStep | src/graph-dataflow.c:218-268 | defines phase kk on a dense matrix: one lu, r fwd, r bdiv and r² bmod, where r = size - kk - 1 |
| GraphDataflow.DenseLuKernels | src/graph-dataflow.c:307-327 | defines the kernel sequence of `ggen_generate_denselu`: `DenseLuStep` for phases 0 .. k-1 in turn |
| GraphDataflow.DenseLuStepCount | src/graph-dataflow.c:218-269 | a dense phase makes 1 lu, r fwd, r bdiv and r² bmod tasks (r = size - kk - 1) |
| GraphDataflow.GenerateLU | src/graph-dataflow.c:202-275 | the LU graph's kernel sequence is `LuKernels` of the input flags, phase by phase over the filling matrix, and the final flags are its fill-in; it has `size` lu tasks and only LU kernels, edges only go forward, the non-empty blocks only grow, and on a dense matrix the kernel sequence is the dense one |
| GraphDataflow.LuPhases | src/graph-dataflow.c:218-269 | the phase loop leaves the kernels `LuKernels` of the starting flags and the flags `MatrixAt` gives after all phases, which only grow |
| GraphDataflow.FillRows | src/graph-dataflow.c:247-268 | flags that agree entry by entry with the bmod fill-in of phase kk are `Fill` of the flags before it |
| GraphDataflow.MatrixAtDense | src/graph-dataflow.c:247-268 | a dense matrix is never changed by the fill-in |
| GraphDataflow.DensePhase | src/graph-dataflow.c:218-269 | every phase of a dense matrix is the dense phase |
| GraphDataflow.KernelsFromPhases | src/graph-dataflow.c:218-269 | when every phase is the dense phase, the kernel sequence is the dense kernel sequence |
| GraphDataflow.LuKernelsDense | src/graph-dataflow.c:218-269 | the phase-by-phase kernel sequence of a dense matrix is the dense kernel sequence |
| GraphDataflow.GenerateSparseLU | src/graph-dataflow.c:280-302 | `ggen_generate_sparselu` builds LU over the `sparselu_genmat` blocks: the kernel sequence is `LuKernels` of those flags, with `size` lu tasks and only LU kernels |
| GraphDataflow.GenerateDenseLU | src/graph-dataflow.c:307-327 | `ggen_generate_denselu` builds LU over a full matrix: exactly the dense kernel sequence |
| GraphDataflow.Interior | src/graph-dataflow.c:365 | defines the number of cells 1 .. n-2 the sweep loops visit: n - 2 for n >= 2, and 0 for n = 1 (n = 0 wraps in the source; see "## Left out") |
| GraphDataflow.PoissonKernels | src/graph-dataflow.c:363-385 | defines the kernel sequence of `it` sweeps over w interior cells: per sweep, w copy tasks, then w apply tasks |
| GraphDataflow.PoissonCopy | src/graph-dataflow.c:365-372 | the copy loop appends one copy task per interior cell; every edge names an interior cell and the border cells keep no writer |
| GraphDataflow.PoissonApplyTask | src/graph-dataflow.c:378-383 | one apply task reads cells i-1, i and i+1, and its edges name interior cells only |
| GraphDataflow.RawEdgeInterior | src/graph-dataflow.c:380-382 | a read of a cell whose last writer is known, or of a border cell, adds only edges naming interior cells |
| GraphDataflow.PoissonApply | src/graph-dataflow.c:373-384 | the apply loop appends one apply task per interior cell |
| GraphDataflow.PoissonCount | src/graph-dataflow.c:363-385 | `iter` sweeps make iter·(n-2) copy tasks, as many apply tasks, and nothing else |
| GraphDataflow.GeneratePoisson2D | src/graph-dataflow.c:333-390 | the Poisson graph's vertices carry exactly the copy/apply sequence of the sweeps, edges go forward, and each carries an interior cell as "x" |
| GraphTransform.TargetsUpTo | src/graph-transformation.c:72-75 | defines the vertices below k of degree 0, in increasing order: the cells the first loop has written after k turns |
| GraphTransform.Targets | src/graph-transformation.c:72-75 | defines the targets of the whole graph, ascending: what the first loop leaves in `vertices[0 .. ssize-1]` (also lines 135-138) |
| GraphTransform.TargetsUpToMembers | src/graph-transformation.c:72-75 | the collected targets are exactly the vertices below k of degree 0, in strictly increasing order |
| GraphTransform.TargetsUpToNoEdge | src/graph-transformation.c:66-75 | the collected targets are exactly the vertices below k that no edge from another vertex enters (SOURCE) or leaves (SINK), a self-loop not counting |
| GraphTransform.End | src/graph-transformation.c:67-68 | defines the end of an edge the degree counts: the head for IGRAPH_IN (SOURCE), the tail for IGRAPH_OUT (SINK) |
| GraphTransform.Degree | src/graph-transformation.c:67-68 | defines `igraph_degree(g, &degrees, igraph_vss_all(), mode, 0)` at one vertex (also lines 130-131): the number of edges that are not self-loops and end (SOURCE) or start (SINK) there |
| GraphTransform.DegreeZero | src/graph-transformation.c:67-68 | the degree with `loops = 0` is 0 exactly when every edge entering (SOURCE) or leaving (SINK) the vertex is a self-loop |
| GraphTransform.DegreeAppend | src/graph-transformation.c:67-68 | the degree over two edge lists is the sum of the degrees over each |
| GraphTransform.CollectTargets | src/graph-transformation.c:66-76 | the first loop leaves the targets (degree 0 with self-loops uncounted), ascending, in the first `ssize` cells of a fresh array |
| GraphTransform.Links | src/graph-transformation.c:86-98 | defines the edges the edge vector stands for: `vcount → v` for SOURCE, `v → vcount` for SINK, one per target, in target order |
| GraphTransform.LinkVector | src/graph-transformation.c:83-98 | the edge vector joins the new vertex to every target: `nv → v` for SOURCE, `v → nv` for SINK, in target order |
| GraphTransform.PutLink | src/graph-transformation.c:88-97 | one pair of cells of the edge vector gets the link of one target, after those of the earlier targets |
| GraphTransform.Added | src/graph-transformation.c:47-109 | defines the graph after `ggen_transform_add`: unchanged without targets, else one more vertex and the `Links` of every target appended |
| GraphTransform.TargetSet | src/graph-transformation.c:144-147 | defines the vertex set `igraph_delete_vertices` receives: the targets |
| GraphTransform.Removed | src/graph-transformation.c:111-155 | defines the graph after `ggen_transform_delete`: unchanged without targets, else `igraph_delete_vertices` of the targets |
| GraphTransform.TransformAdd | src/graph-transformation.c:47-109 | a NULL graph is refused with 1; otherwise 0, and the graph gains one vertex joined to every old source (or sink), a vertex whose only in-edges (out-edges) are self-loops included |
| GraphTransform.TransformDelete | src/graph-transformation.c:111-155 | a NULL graph is refused with 1; otherwise 0, and every source (or sink), self-loops not counted, is deleted with its edges, the other vertices renumbered in order |
| GraphTransform.AddedUnique | src/graph-transformation.c:78-103 | after an addition with at least one target, the new vertex is the only source (or sink), every old vertex has an edge from (to) another vertex, and the graph is well formed with one more vertex |
| GraphTransform.KeptCount | src/graph-transformation.c:141-149 | renumbering after the deletion of the targets below k gives the vertices below k the ids 0 .. k - \|targets\| - 1 |
| GraphTransform.KeptMonotone | src/graph-transformation.c:141-149 | renumbering keeps the relative order of kept vertices |
| GraphTransform.KeptEdgesExactly | src/graph-transformation.c:141-149 | an edge survives the deletion, renumbered, exactly when neither endpoint is deleted |
| GraphTransform.RemovedShape | src/graph-transformation.c:130-149 | the deletion removes exactly \|targets\| vertices, self-loop-only vertices among them, and leaves a well-formed graph |
| GraphTransform.DeleteSourcesExample | src/graph-transformation.c:111-155 | on 0→1, 0→2, 1→2, 3→1, deleting the sources 0 and 3 leaves two vertices and the edge 0→1 |
| GraphTransform.DeleteSinksExample | src/graph-transformation.c:111-155 | on 0→1, 0→2, 1→2, 1→3, deleting the sinks 2 and 3 leaves two vertices and the edge 0→1 |
| GraphTransform.SelfLoopExample | src/graph-transformation.c:66-76 | a vertex whose only edge is the loop 0→0 is a source: adding links the new vertex 1 to it, deleting removes it with its loop |
| GraphAnalysis.Permutation | src/graph-analysis.c:79-83 | an order of length \|V\| without repetition lists every vertex |
| GraphAnalysis.Later | src/graph-analysis.c:89-92 | in a topological order, an edge out of the i-th vertex ends at a vertex after it |
| GraphAnalysis.RelaxEdge | src/graph-analysis.c:103-110 | relaxing f→t changes only t's length and predecessor, leaves t at least one longer than f, keeps the predecessor links and keeps `maxv` on a longest vertex |
| GraphAnalysis.RelaxFrom | src/graph-analysis.c:89-115 | after the inner loop for the i-th vertex of the order, every edge out of the first i + 1 vertices is relaxed and the predecessor links hold |
| GraphAnalysis.PathBound | src/graph-analysis.c:89-115 | once every vertex is relaxed, a vertex's length bounds the edge count of every path ending there |
| GraphAnalysis.Reverse | src/graph-analysis.c:128 | defines `igraph_vector_reverse`: the same elements, last first |
| GraphAnalysis.Backtrack | src/graph-analysis.c:117-129 | walking `preds` back from `maxv` and reversing gives a path of the graph with `lengths[maxv]` edges ending at `maxv`, or the empty path when `maxv` is −1 |
| GraphAnalysis.LongestFromRelaxed | src/graph-analysis.c:85-129 | once every vertex is relaxed, the path walked back from `maxv` is a longest path of the graph |
| GraphAnalysis.LongestPath | src/graph-analysis.c:48-144 | NULL for a NULL graph or an order that misses a vertex (a cycle); otherwise a path of the graph no path is longer than |
| GraphAnalysis.CitationExample | src/graph-analysis.c:48-144 | the complete citation graph on 10 vertices has a longest path through all 10 vertices |
| GraphAnalysis.SmallExample | src/graph-analysis.c:48-144 | on 10 vertices with 0→1, 1→2 and 0→2 the longest path has 3 vertices |
| GraphAnalysis.RisingPath | src/graph-analysis.c:85-115 | along a path whose edges all go up, ids rise by at least one per step |
| GraphAnalysis.TrailStep | src/graph-analysis.c:118-122 | storing the current vertex extends the trail to its predecessor, which comes earlier in the topological order |
| GraphAnalysis.Store | src/graph-analysis.c:120 | `VECTOR(*res)[f++] = maxv` appends one vertex to the stored prefix |
| GraphGeneration.MaxEdges | src/graph-generation.c:62 | defines the bound `n*(n-1)/2` the C computes; for n = 0 the unsigned `n-1` wraps but is multiplied by 0, so the bound is 0 there too |
| GraphGeneration.CitationSize | src/graph-generation.c:75-79 | the complete citation graph on n vertices has n(n-1)/2 edges |
| GraphGeneration.GnmExamples | src/graph-generation.c:62-79 | on 10 vertices 100 edges exceed the bound, and 45 edges are the complete citation graph with its 45 edges |
| GraphGeneration.Adjacency | src/graph-generation.c:100 | defines the graph `igraph_adjacency(g, m, IGRAPH_ADJ_DIRECTED)` builds from a square 0/1 matrix: one vertex per row and one edge i→j per set cell, row after row and column after column |
| GraphGeneration.AdjacencyEdges | src/graph-generation.c:100 | `igraph_adjacency` of a 0/1 matrix has exactly one edge i→j per set cell and is well formed |
| GraphGeneration.Fill | src/graph-generation.c:147-153 | the double loop sets every cell of the matrix to the value the cell's test gives |
| GraphGeneration.DrawStep | src/graph-generation.c:89-96 | one draw sets cell (i, j) and counts it exactly when i < j and the cell was not set |
| GraphGeneration.ForwardDraws | src/graph-generation.c:88-96 | defines the edges the draw loop can set: the drawn pairs (i, j) with i < j |
| GraphGeneration.GnmGraph | src/graph-generation.c:83-100 | defines the result of the general case: n vertices, edges that go up, no edge twice, every edge a forward draw, at most m edges, and exactly m unless the draws hold fewer distinct forward pairs |
| GraphGeneration.DrawEdges | src/graph-generation.c:88-98 | the draw loop sets exactly the chosen forward pairs, all of them drawn, and stops with m of them |
| GraphGeneration.GenerateGnm | src/graph-generation.c:51-110 | NULL for a NULL generator or m above n(n-1)/2; the empty graph for m = 0 or n <= 1; the full citation graph for m = n(n-1)/2; otherwise m distinct drawn forward edges |
| GraphGeneration.GenerateGnp | src/graph-generation.c:114-166 | NULL for a NULL generator or p outside [0, 1]; the empty graph for p = 0, the full citation graph for p = 1; otherwise exactly the forward pairs whose coin came up, each once |
| GraphGeneration.GnpForward | src/graph-generation.c:147-153 | every G(n,p) edge drawn by coin goes from a lower to a higher id, so the graph is acyclic |
| GraphGeneration.GenerateLayered | src/graph-generation.c:168-238 | NULL for a NULL generator, p outside [0, 1], or `nbl` zero or above n; the special empty and full cases; otherwise exactly the pairs from a lower to a higher layer whose coin came up |
| GraphGeneration.LayeredPath | src/graph-generation.c:217-223 | along a path of a layer-by-layer graph the layer rises at every step, so the graph is acyclic |
| GraphGeneration.FifoAccepts | src/graph-generation.c:255-259 | `ggen_generate_fifo` goes on only with a generator and both degrees between 1 and n |
| GraphGeneration.FifoExamples | src/graph-generation.c:255-259 | the refused and accepted argument combinations of the fan-in/fan-out test program |
| GraphGeneration.Pos | src/graph-generation.c:444-449 | the position of a vertex in an order holds that vertex |
| GraphGeneration.IndexOrders | src/graph-generation.c:444-449 | the loop inverting the orders sets `index[k, v]` to the position of v in order k |
| GraphGeneration.Votes | src/graph-generation.c:454-457 | among the first k orders, at most k put a before b |
| GraphGeneration.VotesAll | src/graph-generation.c:454-457 | all k orders vote for (a, b) exactly when each of them puts a before b |
| GraphGeneration.TallyCell | src/graph-generation.c:454-457 | the innermost loop sets one cell to the number of orders putting its row before its column and leaves the other cells |
| GraphGeneration.Tally | src/graph-generation.c:452-457 | every cell of `edge_validity` counts the orders that put its row before its column |
| GraphGeneration.Select | src/graph-generation.c:460-463 | a cell becomes an edge exactly when its count equals the number of orders |
| GraphGeneration.PrecedesByIndex | src/graph-generation.c:444-457 | comparing positions from the index table is comparing positions in the orders |
| GraphGeneration.IsPermutation | src/graph-generation.c:440-441 | defines what `gsl_ran_shuffle` of `0 .. n-1` yields: n distinct ids below n |
| GraphGeneration.Precedes | src/graph-generation.c:452-463 | defines the edge test: a comes before b in every order |
| GraphGeneration.GenerateRandomOrders | src/graph-generation.c:394-491 | NULL for a NULL generator or zero orders; otherwise exactly the edges a→b with a before b in every order, each once |
| GraphGeneration.OrdersPath | src/graph-generation.c:459-463 | along a path of a random-orders graph positions rise in every order, so the graph has no cycle and no self-loop |
| Common.SortSeq | src/vector_utils.c:69 | defines the order `igraph_vector_sort` leaves, as an insertion sort; `SortSeqFacts` proves that it is an ascending permutation |
| Common.SortSeqFacts | src/vector_utils.c:69 | `igraph_vector_sort` gives an ascending permutation of the vector |
| Common.SortSeqSorted | src/vector_utils.c:69 | sorting an ascending vector changes nothing |
| VectorUtils.Dedup | src/vector_utils.c:53-62 | defines what the loop of `vector_uniq_sorted` keeps: the first element of each run of equal neighbours, in order (the one cell the source keeps for an empty vector is added by `Vector.UniqSorted`) |
| VectorUtils.DedupFacts | src/vector_utils.c:46-65 | on an ascending vector, keeping the first of each run keeps the first and last value and every value once, strictly increasing |
| VectorUtils.DedupIncreasing | src/vector_utils.c:46-65 | on a vector without equal neighbours nothing is dropped |
| Common.Without | src/vector_utils.c:77-90 | defines what `vector_diff` leaves: the elements equal to no element of `from`, in their order |
| Common.WithoutMembers | src/vector_utils.c:73-92 | after `vector_diff`, or after the vertex removals of `remove_sources`/`remove_sinks` (src/graph-transformation.cpp:136), an element survives exactly when it equals none of the removed values |
| Common.WithoutTwice | src/vector_utils.c:77-90 | removing one value after another is removing both |
| VectorUtils.RemoveStepFacts | src/vector_utils.c:83-88 | a removal at the cursor leaves the unvisited part as it was, so the element moved into place is examined next |
| VectorUtils.RemoveAll | src/vector_utils.c:79-89 | the inner loop of `vector_diff` removes every element equal to f and keeps the others in order |
| VectorUtils.Vector.constructor | src/vector_utils.c:46 | a vector holding the given elements |
| VectorUtils.Vector.Resize | src/vector_utils.c:63 | `igraph_vector_resize` gives k elements and keeps the common prefix |
| VectorUtils.Vector.UniqSorted | src/vector_utils.c:46-65 | `vector_uniq_sorted` keeps the first of each run of equal neighbours; an empty vector comes out with one cell |
| VectorUtils.Vector.Uniq | src/vector_utils.c:67-71 | `vector_uniq` sorts and then keeps each value once |
| VectorUtils.Vector.Diff | src/vector_utils.c:73-92 | `vector_diff` removes from `to` every element equal to a value of `from` and leaves `from` alone |
| VectorUtils.Vector.Union | src/vector_utils.c:94-98 | `vector_union` appends `from` to `to`, sorts and keeps each value once |
| VectorUtils.UniqFacts | src/vector_utils.c:67-71 | the result of `vector_uniq` on a non-empty vector is strictly increasing with exactly the same values |
| VectorUtils.UniqIdempotent | src/vector_utils.c:67-71 | applying `vector_uniq` twice is applying it once |
| VectorUtils.UnionFacts | src/vector_utils.c:94-98 | the result of `vector_union` is strictly increasing with exactly the values of both vectors |
| BipartiteMatching.InitLayers | src/bipartite-matching.c:66-75 | the first loop of bfs gives free left vertices layer 0 and queues them, and gives matched ones `vg` |
| BipartiteMatching.BfsStart | src/bipartite-matching.c:66-77 | after that loop and `layer[vg] = vg` the bfs state holds, with every queued vertex reached |
| BipartiteMatching.BfsStep | src/bipartite-matching.c:90-94 | giving an unreached vertex the layer after a reached one keeps the bfs state and reaches exactly one more vertex |
| BipartiteMatching.Visit | src/bipartite-matching.c:88-94 | one neighbour's partner (or NIL) gets the next layer if it was unreached, growing the reached set by it alone |
| BipartiteMatching.Explore | src/bipartite-matching.c:83-95 | exploring a popped vertex reaches exactly the vertices it queues |
| BipartiteMatching.VisitAll | src/bipartite-matching.c:86-95 | the loop over the neighbour list keeps the bfs state and reaches exactly the vertices it queues, one more per queued vertex |
| BipartiteMatching.Drain | src/bipartite-matching.c:78-97 | the queue loop keeps the bfs state and stops |
| BipartiteMatching.ReachedCard | src/bipartite-matching.c:78-97 | at most n/2 vertices are reached while a left vertex or NIL is unreached, which bounds the queue |
| BipartiteMatching.Bfs | src/bipartite-matching.c:53-105 | bfs gives exactly the free left vertices layer 0, leaves right layers alone, and reports a path exactly when NIL was reached |
| BipartiteMatching.StepBasics | src/bipartite-matching.c:122-128 | the neighbour is on the other side, its old partner is on the side of i, and the nested call left i and j alone |
| BipartiteMatching.StepMutual | src/bipartite-matching.c:127-128 | re-pairing i with j keeps every vertex but i's old partner mutually partnered along an edge |
| BipartiteMatching.StepFrame | src/bipartite-matching.c:127-128 | re-pairing stays inside dfs(i)'s frame and keeps matched vertices matched |
| BipartiteMatching.Dfs | src/bipartite-matching.c:107-134 | dfs on NIL succeeds without change; on failure the pairs are unchanged and `layer[i]` becomes `vg`; on success the matching is flipped along an augmenting path, keeping matched vertices matched |
| BipartiteMatching.Phase | src/bipartite-matching.c:158-162 | a phase keeps a valid matching, never frees a vertex, and frees fewer vertices when it augments |
| BipartiteMatching.EdgeIndex | src/bipartite-matching.c:170 | the index of the first copy of an edge, -1 exactly when the edge is absent |
| BipartiteMatching.FindEid | src/bipartite-matching.c:170 | `igraph_get_eid(g, &eid, i, pair[i], 0, 0)` on a directed graph gives an edge `i → pair[i]` when one exists; only when none does, an edge `pair[i] → i`; and -1 when neither exists |
| BipartiteMatching.FindEidExample | src/bipartite-matching.c:170 | with edges `1 → 0` then `0 → 1`, the lookup for (0, 1) gives id 1, the `0 → 1` edge, not the earlier reversed one; with only `1 → 0` it gives id 0; with no edge joining the two it gives -1 |
| BipartiteMatching.MatchingFromPairs | src/bipartite-matching.c:166-173 | the edges between distinct left vertices and their partners form a matching |
| BipartiteMatching.Convert | src/bipartite-matching.c:166-173 | the final loop appends at most n/2 edge ids that form a matching, keeping what `res` held |
| BipartiteMatching.MaximumMatching | src/bipartite-matching.c:137-177 | 1 for a missing argument or an odd vertex count, `res` untouched; otherwise 0 with the edge ids of a matching appended to `res` |
| BipartiteMatching.ReachedAtMost | src/bipartite-matching.c:78-97 | at most n/2 + 1 vertices are ever reached, one queue push each, so the queue loop ends |
| ErrorStack.Code | src/error.h:60-67 | defines the values of `ggen_error_type_t`, 0 for success up to 5 for no more memory, which index `ggen_error_msgs` |
| ErrorStack.StrError | src/error.c:67-79 | the igraph message for igraph errors, the GSL message for GSL errors, the table entry for every other code |
| ErrorStack.StrErrorDistinct | src/error.c:58-65 | different ggen codes give different messages |
| ErrorStack.Registered | src/error.c:128-130 | defines the destructor calls of the `clean` loop over slots lo .. hi-1, in registration order: all of them on failure, the unflagged ones on success |
| ErrorStack.NewestFirst | src/error.c:117-121 | defines the destructor calls of `pop` over slots lo .. hi-1: newest first |
| ErrorStack.PopReversesClean | src/error.c:115-139 | on failure `clean` runs every destructor of the frame, and `pop` runs the same ones newest first |
| ErrorStack.CleanOnSuccess | src/error.c:128-130 | on success `clean` runs exactly the destructors not flagged as return values |
| ErrorStack.ErrorState.constructor | src/error.c:54-56 | the zero-initialised static state |
| ErrorStack.ErrorState.GslHandler | src/error.c:81-84 | `ggen_gsl_handler` records the GSL error code and changes nothing else |
| ErrorStack.ErrorState.StartStack | src/error.c:86-103 | opens a frame at the stack top; the outermost frame also clears the error state and installs the GSL handler, saving the old one |
| ErrorStack.ErrorState.Finally | src/error.c:105-113 | registers a destructor, its object and its flag at the stack top |
| ErrorStack.ErrorState.Pop | src/error.c:115-123 | runs the cnt newest destructors, newest first, and drops them |
| ErrorStack.ErrorState.Clean | src/error.c:125-139 | runs the frame's destructors in registration order (on success only the unflagged ones), drops them, closes the frame and restores the saved handler once no frame is open |
| ErrorStack.ErrorState.TestClean | src/error.c:86-139 | a frame that registers `free(p)` and then fails on `GGEN_EINVAL` runs `free(p)` once, records the code and leaves the stack as it found it |
| Common.OutNeighbors | src/graph-analysis.cpp:189 | Boost's `out_edges` lists exactly the targets of the edges leaving the vertex, one per edge, in edge order |
| Common.IgraphOutNeighbors | src/graph-analysis.c:92 | `igraph_vs_adj` with `IGRAPH_OUT` lists the targets of the edges leaving the vertex, one per edge, sorted by id, and exactly those |
| Common.IgraphNeighbors | src/bipartite-matching.c:83 | `igraph_vs_adj` with `IGRAPH_ALL` lists the out- and in-neighbours, one per edge end so that a self-loop appears twice, sorted by id; a vertex is listed exactly when an edge joins it to the vertex either way |
| Common.InDegree | src/graph-analysis.cpp:148 | defines Boost's `in_degree` on list storage: the number of edges entering the vertex, a self-loop included; it is at most the edge count |
| Common.OutDegree | src/graph-analysis.cpp:138 | defines Boost's `out_degree` on list storage: the number of edges leaving the vertex, a self-loop included; it is at most the edge count |
| Common.InDegreeZero | src/graph-analysis.cpp:161 | Boost's in-degree is 0 exactly when no edge enters the vertex |
| Common.OutDegreeZero | src/graph-analysis.cpp:399 | Boost's out-degree is 0 exactly when no edge leaves the vertex |
| Common.InNeighbors | src/graph-analysis.cpp:195-197 | the sources of the in-edges of a vertex are exactly its predecessors |
| Common.Pairs | src/graph-transformation.c:100 | defines the edges an edge vector `from0, to0, from1, to1, ...` stands for: one edge per two cells |
| Common.PairsAppend | src/graph-transformation.c:100 | the edges of two concatenated edge vectors are the edges of each, in order |
| Common.Citation | src/graph-generation.c:77 | defines the edges of `igraph_full_citation(g, n, 1)`: for each vertex from 0 up, an edge to every smaller vertex, in increasing order |
| Common.CitationEdges | src/graph-generation.c:77 | `igraph_full_citation` has exactly the edges a→b with b < a |
| Common.IGraph.constructor | src/graph-static.c:92 | `igraph_empty(g, n, 1)`: n vertices and no edge |
| Common.IGraph.AddVertices | src/graph-static.c:62 | `igraph_add_vertices` adds k vertices and no edge |
| Common.IGraph.AddEdge | src/graph-static.c:63 | `igraph_add_edge` appends one edge |
| Common.IGraph.AddEdges | src/graph-static.c:137 | `igraph_add_edges` appends the edges of the vector, in order |
| Common.Kept | src/graph-transformation.c:147 | defines the id a kept vertex gets after `igraph_delete_vertices`: the number of kept vertices below it, which is at most its old id |
| Common.KeptEdges | src/graph-transformation.c:147 | defines the edges `igraph_delete_vertices` keeps: those touching no deleted vertex, renumbered by `Kept`, in their old order |
| Common.Deleted | src/graph-transformation.c:147 | defines the graph after `igraph_delete_vertices`: the `Kept` count of vertices and the `KeptEdges` |
| Common.IGraph.DeleteVertices | src/graph-transformation.c:147 | `igraph_delete_vertices` removes the vertices and their edges and renumbers the rest in order |
| BoostGraph.Graph.constructor | src/graph-transformation.cpp:58 | a new graph has no vertex, no edge and no name |
| BoostGraph.Graph.AddVertex | src/graph-transformation.cpp:75 | `add_vertex` appends a descriptor not in use, changing nothing else |
| BoostGraph.Graph.PutNodeId | src/graph-transformation.cpp:76 | `put("node_id", ...)` names one vertex and changes nothing else |
| BoostGraph.Graph.AddEdge | src/graph-transformation.cpp:80 | `add_edge` appends one edge, parallel edges allowed |
| BoostGraph.Graph.ClearVertex | src/graph-transformation.cpp:135 | `clear_vertex` drops exactly the edges touching the vertex, keeping the order of the others |
| BoostGraph.Graph.RemoveVertex | src/graph-transformation.cpp:136 | `remove_vertex` on a vertex without edges drops it from the list and leaves every other descriptor as it was |
| TransformBoost.Degree | src/graph-transformation.cpp:67 | defines the degree the Boost transformations test: `in_degree` for sources, `out_degree` for sinks (line 95), self-loops counted |
| TransformBoost.Targets | src/graph-transformation.cpp:65-71 | defines the vertices of the vertex list whose degree is 0, in list order |
| TransformBoost.TargetsMembers | src/graph-transformation.cpp:63-71 | the collected vertices are exactly the listed ones of in-degree 0 (SOURCE) or out-degree 0 (SINK), each once |
| TransformBoost.CollectTargets | src/graph-transformation.cpp:63-71 | the first loop collects the degree-0 vertices in vertex-list order |
| TransformBoost.LinkTargets | src/graph-transformation.cpp:77-81 | the second loop appends one edge between the new vertex and each target, in list order |
| TransformBoost.AddDummy | src/graph-transformation.cpp:73-82 | with at most one target nothing changes; otherwise one fresh vertex is appended, named, and linked to every target |
| TransformBoost.AddDummySource | src/graph-transformation.cpp:58-83 | `add_dummy_source` adds a named vertex with an edge to every source when there is more than one source, and otherwise changes nothing |
| TransformBoost.AddDummySink | src/graph-transformation.cpp:86-111 | `add_dummy_sink` adds a named vertex with an edge from every sink when there is more than one sink, and otherwise changes nothing |
| TransformBoost.DummyDegree | src/graph-transformation.cpp:73-82 | after linking, the new vertex has degree 0 and every other listed vertex has not |
| TransformBoost.DummyValid | src/graph-transformation.cpp:73-82 | linking the new vertex keeps the graph valid |
| TransformBoost.DummyOnlyTarget | src/graph-transformation.cpp:57-83 | after linking, the new vertex is the graph's only source (SOURCE) or only sink (SINK) |
| TransformBoost.RemoveOne | src/graph-transformation.cpp:133-137 | one removal step clears and removes one more collected vertex |
| TransformBoost.RemoveTargets | src/graph-transformation.cpp:114-138 | both removals drop exactly the vertices that were targets on entry and exactly their edges; vertices that become targets meanwhile stay |
| TransformBoost.RemoveSources | src/graph-transformation.cpp:116-138 | `remove_sources` drops exactly the sources present on entry and their edges |
| TransformBoost.RemoveSinks | src/graph-transformation.cpp:142-164 | `remove_sinks` drops exactly the sinks present on entry and their edges |
| TransformBoost.RemovedExactly | src/graph-transformation.cpp:114-138 | what is left is exactly the vertices of positive degree on entry, in list order, and the edges between two of them, and the graph is valid |
| TransformBoost.ChainSourcesExample | src/graph-transformation.cpp:116-138 | on the chain 0→1→2 removing the sources removes only 0, leaving 1→2 |
| TransformBoost.ChainSinksExample | src/graph-transformation.cpp:142-164 | removing the sinks of the same chain removes only 2 |
| BoostGraph.Untouched | src/graph-transformation.cpp:135 | defines the edges left after `clear_vertex` of each vertex of del: those touching none of them, in order |
| BoostGraph.UntouchedMembers | src/graph-transformation.cpp:135 | after the clearings, an edge is present exactly when it was present and touches no cleared vertex |
| AnalysisBoost.Decimal | src/graph-analysis.cpp:138 | defines `lexical_cast<std::string>` of a count: its decimal digits without leading zeros, never empty |
| AnalysisBoost.DecimalRoundTrip | src/graph-analysis.cpp:138 | `lexical_cast<std::string>` of a count is a string of digits, without a leading zero unless the count is 0, that reads back as the count |
| AnalysisBoost.Degree | src/graph-analysis.cpp:138 | defines the degree each analysis saves: `out_degree` for the out-degree analysis, `in_degree` (line 148) for the in-degree one |
| AnalysisBoost.DegreeStrings | src/graph-analysis.cpp:136-139 | defines the map the save loop builds: each listed vertex mapped to `Decimal` of its degree (also lines 146-149) |
| AnalysisBoost.DegreeStringsFacts | src/graph-analysis.cpp:136-139 | the degree map has one entry per vertex, and each entry reads back as that vertex's degree |
| AnalysisBoost.SaveDegrees | src/graph-analysis.cpp:136-139 | the loop of both degree analyses saves every vertex with its degree |
| AnalysisBoost.OutDegreeMap | src/graph-analysis.cpp:133-141 | `out_degree` saves every vertex with its out-degree |
| AnalysisBoost.InDegreeMap | src/graph-analysis.cpp:143-151 | `in_degree` saves every vertex with its in-degree |
| AnalysisBoost.CollectSources | src/graph-analysis.cpp:158-165 | the first loop collects exactly the vertices of in-degree 0 |
| AnalysisBoost.AllSeen | src/graph-analysis.cpp:193-205 | the innermost loop answers true exactly when every predecessor is visited or in the current layer |
| AnalysisBoost.Sources | src/graph-analysis.cpp:158-165 | defines the first layer: the listed vertices of in-degree 0 |
| AnalysisBoost.NextLayer | src/graph-analysis.cpp:187-208 | defines the next layer: the successors of the current layer whose predecessors are all visited or current |
| AnalysisBoost.Layering | src/graph-analysis.cpp:153-215 | defines what `nodes_per_layer` saves: the sources, then each `NextLayer` in turn, every one non-empty, up to the first empty one |
| AnalysisBoost.ScanComplete | src/graph-analysis.cpp:189-208 | scanning the out-neighbours of a vertex finds exactly its successors whose predecessors are all visited or current |
| AnalysisBoost.ScanSuccessors | src/graph-analysis.cpp:188-208 | the loop over the out-edges of a vertex adds exactly those successors to the next layer |
| AnalysisBoost.ProcessLayer | src/graph-analysis.cpp:180-209 | one pass over the current layer saves it as the layer, marks it visited and gathers exactly the next layer |
| AnalysisBoost.LayerTurn | src/graph-analysis.cpp:176-212 | one turn of the main loop saves the current layer, moves on to the next one and leaves fewer vertices unvisited |
| AnalysisBoost.LayerProgress | src/graph-analysis.cpp:176-212 | each turn extends the layering by its next layer and strictly shrinks the unvisited vertices, so the loop stops |
| AnalysisBoost.NodesPerLayer | src/graph-analysis.cpp:153-215 | `nodes_per_layer` appends the layering of the graph: the sources, then each layer of successors whose predecessors are all visited, up to the first empty one |
| AnalysisBoost.LayerReady | src/graph-analysis.cpp:153-215 | every vertex of layer k is listed, belongs to no earlier layer and has all its predecessors in the earlier layers |
| AnalysisBoost.LayersDisjoint | src/graph-analysis.cpp:153-215 | no vertex is saved in two layers |
| AnalysisBoost.LayersFed | src/graph-analysis.cpp:187-208 | past the first layer, every vertex has a predecessor in the layer just before |
| AnalysisBoost.ZeroLengths | src/graph-analysis.cpp:227-231 | the first loop gives every vertex length 0 |
| AnalysisBoost.Later | src/graph-analysis.cpp:243-249 | in a topological order an edge out of the i-th vertex ends at a later vertex |
| AnalysisBoost.RelaxEdge | src/graph-analysis.cpp:249-256 | relaxing f→w changes only w's length, leaves w at least one longer than f, keeps the predecessor links and keeps `maxv` on a longest vertex |
| AnalysisBoost.RelaxFrom | src/graph-analysis.cpp:247-257 | after the loop over the out-edges of the i-th vertex, every edge out of the first i + 1 vertices is relaxed |
| AnalysisBoost.PathBound | src/graph-analysis.cpp:243-258 | after the main loop a path has at most as many edges as the length of its last vertex |
| AnalysisBoost.Backtrack | src/graph-analysis.cpp:261-269 | the walk back through `pmap` gives a path of the graph ending at `maxv` with as many edges as `maxv`'s length, starting at a vertex without a predecessor entry |
| AnalysisBoost.BacktrackLongest | src/graph-analysis.cpp:243-269 | the path read back after the main loop is a longest path |
| AnalysisBoost.FindLongestPath | src/graph-analysis.cpp:217-269 | the computation of `longest_path` yields a path of the graph that no path is longer than |
| AnalysisBoost.LongestPath | src/graph-analysis.cpp:217-272 | `longest_path` saves exactly one path, a longest one |
| AnalysisBoost.Pick | src/graph-analysis.cpp:302-303 | `allowed.begin()` is an element of the set |
| AnalysisBoost.Search | src/graph-analysis.cpp:283-331 | the (corrected) search returns best unchanged or a larger set between current and current + allowed |
| AnalysisBoost.SearchIndependent | src/graph-analysis.cpp:283-331 | started from independent sets with no allowed vertex joined to current, the search ends with an independent set |
| AnalysisBoost.SearchOptimal | src/graph-analysis.cpp:283-331 | no independent set between current and current + allowed is larger than the result: the pruning cuts only branches that cannot beat best |
| AnalysisBoost.MaxIndependentSet | src/graph-analysis.cpp:333-348 | defines the intended result of `max_independent_set`: `Search` from an empty best set and an empty current set over every listed vertex |
| AnalysisBoost.MaxIndependentSetMaximum | src/graph-analysis.cpp:333-348 | the intended result of `max_independent_set` is an independent set of listed vertices no independent set is larger than |
| AnalysisBoost.SearchAsWritten | src/graph-analysis.cpp:283-331 | as written, the caller's set keeps its elements and, once deleted, stays deleted |
| AnalysisBoost.AsWrittenOutcome | src/graph-analysis.cpp:291-297 | as written, the caller's set is deleted exactly when the intended search would have improved on it, and its elements never change |
| AnalysisBoost.AsWrittenDeletesResult | src/graph-analysis.cpp:333-346 | on every graph with a vertex, `max_independent_set` as written passes `save` a deleted, empty set |
| AnalysisBoost.SinkPathsFrom | src/graph-analysis.cpp:395-416 | `maximal_paths_internal` saves at least one path |
| AnalysisBoost.SinkPathsVia | src/graph-analysis.cpp:409-414 | the loop over the out-edges saves at least one path when there is an out-edge |
| AnalysisBoost.SinkPathsFromSound | src/graph-analysis.cpp:395-416 | every saved path is the prefix, then the current vertex, then a path ending at a vertex without out-edges |
| AnalysisBoost.SinkPathsViaSound | src/graph-analysis.cpp:409-414 | every path the loop saves is the prefix followed by a path from one of the out-neighbours to a vertex without out-edges |
| AnalysisBoost.SinkPathsFromComplete | src/graph-analysis.cpp:395-416 | every path from the current vertex to a vertex without out-edges is saved after the prefix |
| AnalysisBoost.SinkPathsViaComplete | src/graph-analysis.cpp:409-414 | every path through an out-neighbour to a vertex without out-edges is saved by the loop |
| AnalysisBoost.FromSources | src/graph-analysis.cpp:428-435 | defines the saves of the loop over the first k vertices: the paths of `maximal_paths_internal` from each vertex of in-degree 0, in vertex order |
| AnalysisBoost.FromSourcesMembers | src/graph-analysis.cpp:429-435 | the paths saved from the first k vertices are exactly the source-to-sink paths starting at a source among them |
| AnalysisBoost.MaximalPathsExactly | src/graph-analysis.cpp:422-437 | `maximal_paths` saves exactly the paths from a vertex without in-edges to a vertex without out-edges |
| AnalysisBoost.SaveAll | src/graph-analysis.cpp:402 | saving paths one by one appends them in order |
| AnalysisBoost.MaximalPaths | src/graph-analysis.cpp:422-437 | `maximal_paths` appends the paths of the recursion from every vertex without in-edges, in vertex order |
| BoostGraph.VertexMap.Save | src/graph-analysis.cpp:138 | `save(key, value)` stores the value under the key |
| BoostGraph.PathList.Save | src/graph-analysis.cpp:270 | `save(path)` appends the path |
| BoostGraph.SetList.Save | src/graph-analysis.cpp:210 | `save(set)` appends the set |

## Left out

- Command-line front ends, option parsing, `main`/`usage` and the verbose trace printing of the simulator are not part of this model. The same goes for graph I/O, the pygraphviz loading and the `dump` calls of the result objects. The `save` calls are modelled as appends to a result list or map.
- Memory allocation and the initialisation calls of igraph vectors and matrices always succeed in the model. Their error branches (`goto error`, `GGEN_CHECK_ALLOC`, `GGEN_CHECK_IGRAPH`) are not modelled.
- The MST and strong-components analyses of `src/graph-analysis.cpp` are omitted. They delegate to Boost algorithms without logic of their own.
- The topological sorts of igraph and Boost are parameters. igraph's order may leave vertices out, as `igraph_topological_sorting` (src/graph-analysis.c:79) does on a graph with a cycle, and GraphAnalysis.LongestPath returns NULL for such an order, as the source does. Boost's `topological_sort` (src/graph-analysis.cpp:238) throws `not_a_dag` on a graph with a cycle. The `TopoOrder` requirement of AnalysisBoost.FindLongestPath and AnalysisBoost.LongestPath excludes that case, so the exception is not modelled. The Boost index map built for the sort is not modelled either.
- The iteration order of a `std::set` of vertex descriptors follows descriptor addresses. `AnalysisBoost.Pick` returns some element rather than the smallest address, and `AnalysisBoost.ProcessLayer` visits the layer in an order that is not modelled.
- Boost vertex descriptors are natural numbers handed out by an allocator, and `remove_vertex` leaves the `node_id` entry of the removed vertex in the property map.
- Floating-point values become exact arithmetic. The G(n,p) probability `p` is a `real`.
- VectorUtils.Vector.Diff: the igraph vectors of doubles hold vertex ids, whole non-negative numbers (`VectorUtils.Vector.elems` is a `seq<nat>`), so the `(unsigned long)` casts of `vector_diff` (src/vector_utils.c:81-82) change nothing. Vectors with fractional or negative values are not modelled.
- GraphGeneration.GenerateGnm: the draws are a finite sequence. Where the source would keep drawing until it has m edges, the model stops when the draws run out, and states the result for both cases.
- GraphGeneration.FifoAccepts: only the argument checks of `ggen_generate_fifo` are modelled. The fan-out step indexes the vertex by its position `i` in the candidate list instead of `vertices[i]`, so the construction gives no contract worth stating.
- GraphDataflow.GenerateCholesky: states the exact kernel sequence of the tasks and that every edge goes from an earlier to a later task with its block coordinates. It does not state the full edge list. The same holds for GraphDataflow.GenerateLU, GraphDataflow.GenerateSparseLU, GraphDataflow.GenerateDenseLU and GraphDataflow.GeneratePoisson2D. For LU the kernel sequence is stated phase by phase over the filling matrix (`GraphDataflow.LuKernels`).
- GraphDataflow.RawEdge1D: the attributes are set on the edge just added. `igraph_get_eid` with directed = 1 returns some edge from the writer to the task. That edge is the new one when each (writer, reader) pair is joined at most once by the builders. That uniqueness is not proved here. The same applies to GraphDataflow.RawEdge2D.
- GraphDataflow.GeneratePoisson2D: requires `n >= 1`. For `n == 0` the unsigned `n - 1` wraps around and the source reads far outside its vectors.
- Sched.Completion: requires an acyclic graph and at least one processor when there is a task. On a cycle, or with no processor and a task to run, the source loops forever.
- BipartiteMatching.MaximumMatching: requires every edge to join the left half (vertices below n/2) to the right half, the balanced bipartite graph the source's header comment assumes. It proves that the result is a matching, not that it is maximum. The model stops the phase loop when a phase augments nothing, where the source would call `bfs` again.
- BipartiteMatching.FindEid: among parallel copies of the preferred edge the model returns the one with the lowest id, while igraph returns whichever copy its index search finds. The matching that `BipartiteMatching.Convert` states holds for any copy.
- ErrorStack.ErrorState.Pop: requires `cnt <= sp`. The source would let the unsigned `sp` wrap around.
- ErrorStack.StrError: the messages of `igraph_strerror` and `gsl_strerror` are opaque values, not their texts, and destructors are names rather than function pointers that are called.
- AnalysisBoost.FindLongestPath: requires a non-empty graph and a topological order of it. On an empty graph the source dereferences `list.rbegin()` of an empty list. On a graph with a cycle `topological_sort` throws `not_a_dag` (src/graph-analysis.cpp:238) and no path is saved; the model does not cover that case. The same holds for AnalysisBoost.LongestPath.
- AnalysisBoost.SearchAsWritten: after `delete max` the caller's set is modelled as keeping its elements, although reading it is undefined behaviour in C++.
- AnalysisBoost.MaximalPaths: requires a topological order of the graph, so it speaks only of acyclic graphs; `maximal_paths` itself sorts nothing. On a cycle that no vertex of in-degree 0 reaches, the source returns normally (on vertex 0 alone plus 1→2 and 2→1 it saves only [0]); on a cycle reachable from such a vertex it recurses without end. Neither case is modelled. The same holds for AnalysisBoost.MaximalPathsExactly.
- AnalysisBoost.MaximalPathsExactly: states which paths are saved, as membership. The exact sequence, with one copy per parallel edge, is `AnalysisBoost.MaximalPaths`' contract over `FromSources`.

## Findings

| source | as written | input that shows it | evidently intended | confidence | as-written member | corrected member |
|---|---|---|---|---|---|---|
| src/graph-analysis.cpp:291-297 | `delete max; max = new std::set<Vertex>(current);` frees the caller's set and rebinds only the callee's copy of the pointer, so no improvement reaches the caller, and `max_independent_set` then saves a freed, empty set (line 346) | any graph with at least one vertex | the caller's `*max` becomes the larger independent set found, so `max_independent_set` saves a maximum independent set | not executed | AnalysisBoost.AsWrittenDeletesResult | AnalysisBoost.MaxIndependentSetMaximum |
