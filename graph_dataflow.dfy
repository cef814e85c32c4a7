/** The dataflow builders of src/graph-dataflow.c: task graphs of blocked linear-algebra and
    stencil codes, built by replaying the algorithm with a "last writer" table. Each new task gets
    an edge from the last task that wrote each block it reads, then becomes the last writer of the
    block it writes. */
module GraphDataflow {
  import opened Common

  /** The kernels a dataflow task can run; `Name` is the "kernel" attribute it gets. */
  datatype Kernel = Potrf | Trsm | Syrk | Gemm | Lu | Fwd | Bdiv | Bmod | Copy | Apply

  function Name(k: Kernel): string
  {
    match k
    case Potrf => "potrf" case Trsm => "trsm" case Syrk => "syrk" case Gemm => "gemm"
    case Lu => "lu" case Fwd => "fwd" case Bdiv => "bdiv" case Bmod => "bmod"
    case Copy => "copy" case Apply => "apply"
  }

  /** An igraph_t with the string vertex attribute "kernel" and the numeric edge attributes "x"
      and "y". As in igraph's attribute handler, attributes are vectors indexed by id: a new
      vertex gets the empty string and a new edge gets no number (NaN, here `None`). */
  class DataflowGraph {
    var n: nat
    var edges: seq<Edge>
    var kernel: seq<string>
    var x: seq<Option<nat>>
    var y: seq<Option<nat>>

    /** The attribute vectors have one entry per vertex and per edge. */
    ghost predicate Valid()
      reads this
    {
      |kernel| == n && |x| == |edges| && |y| == |edges|
    }

    /** `igraph_empty(g, 0, 1)`. */
    constructor ()
      ensures Valid() && n == 0 && edges == [] && kernel == [] && x == [] && y == []
    {
      n, edges, kernel, x, y := 0, [], [], [], [];
    }

    /** `addtask`: the new vertex is the old vertex count. */
    method AddTask() returns (task: nat)
      requires Valid()
      modifies this
      ensures Valid() && task == old(n) && n == old(n) + 1 && kernel == old(kernel) + [""]
      ensures edges == old(edges) && x == old(x) && y == old(y)
    {
      task := n;
      n := n + 1;
      kernel := kernel + [""];
    }

    /** `SETVAS(g, "kernel", v, name)`. */
    method SetKernel(v: nat, name: string)
      requires Valid() && v < n
      modifies this
      ensures Valid() && kernel == old(kernel)[v := name]
      ensures n == old(n) && edges == old(edges) && x == old(x) && y == old(y)
    {
      kernel := kernel[v := name];
    }

    /** `igraph_add_edge(g, from, to)`. */
    method AddEdge(from: nat, to: nat)
      requires Valid() && from < n && to < n
      modifies this
      ensures Valid() && edges == old(edges) + [Edge(from, to)]
      ensures x == old(x) + [None] && y == old(y) + [None]
      ensures n == old(n) && kernel == old(kernel)
    {
      edges := edges + [Edge(from, to)];
      x := x + [None];
      y := y + [None];
    }

    /** `SETEAN(g, "x", eid, value)`. */
    method SetX(eid: nat, value: nat)
      requires Valid() && eid < |edges|
      modifies this
      ensures Valid() && x == old(x)[eid := Some(value)]
      ensures n == old(n) && edges == old(edges) && kernel == old(kernel) && y == old(y)
    {
      x := x[eid := Some(value)];
    }

    /** `SETEAN(g, "y", eid, value)`. */
    method SetY(eid: nat, value: nat)
      requires Valid() && eid < |edges|
      modifies this
      ensures Valid() && y == old(y)[eid := Some(value)]
      ensures n == old(n) && edges == old(edges) && kernel == old(kernel) && x == old(x)
    {
      y := y[eid := Some(value)];
    }
  }

  /** The "kernel" attribute vector of tasks labelled `labels`. */
  function Names(labels: seq<Kernel>): seq<string>
  {
    seq(|labels|, i requires 0 <= i < |labels| => Name(labels[i]))
  }

  lemma NamesSnoc(labels: seq<Kernel>, k: Kernel)
    ensures Names(labels + [k]) == Names(labels) + [Name(k)]
  {
    assert forall i | 0 <= i < |labels| + 1 ::
      Names(labels + [k])[i] == (Names(labels) + [Name(k)])[i];
  }

  /** The graph built so far: vertex `v` is labelled `labels[v]`, every edge goes from a smaller
      to a larger existing id, and every edge carries its "x" attribute. */
  ghost predicate Sound(g: DataflowGraph, labels: seq<Kernel>)
    reads g
  {
    g.Valid() && g.n == |labels| && g.kernel == Names(labels)
    && (forall e | e in g.edges :: e.src < e.dst < g.n)
    && (forall id | 0 <= id < |g.x| :: g.x[id].Some?)
  }

  /** Every edge carries its "y" attribute (the builders over a matrix of blocks). */
  ghost predicate HasY(g: DataflowGraph)
    reads g
  {
    forall id | 0 <= id < |g.y| :: g.y[id].Some?
  }

  /** Every entry of a last-writer matrix is -1 or a task id below `bound`. */
  ghost predicate Writers2D(lw: array2<int>, bound: nat)
    reads lw
  {
    forall i, j | 0 <= i < lw.Length0 && 0 <= j < lw.Length1 :: -1 <= lw[i, j] < bound
  }

  /** Every entry of a last-writer vector is -1 or a task id below `bound`. */
  ghost predicate Writers1D(lw: array<int>, bound: nat)
    reads lw
  {
    forall i | 0 <= i < lw.Length :: -1 <= lw[i] < bound
  }

  /** `k` copies of one kernel name. */
  function Rep(name: Kernel, k: nat): seq<Kernel>
  {
    seq(k, _ => name)
  }

  lemma RepSnoc(name: Kernel, k: nat)
    ensures Rep(name, k + 1) == Rep(name, k) + [name]
  {
    assert forall i | 0 <= i < k + 1 :: Rep(name, k + 1)[i] == (Rep(name, k) + [name])[i];
  }

  lemma RepAppend(name: Kernel, a: nat, b: nat)
    ensures Rep(name, a) + Rep(name, b) == Rep(name, a + b)
  {
    assert forall i | 0 <= i < a + b :: (Rep(name, a) + Rep(name, b))[i] == Rep(name, a + b)[i];
  }

  lemma Associative3(a: seq<Kernel>, b: seq<Kernel>, c: seq<Kernel>, d: seq<Kernel>)
    ensures a + b + c + d == a + (b + c + d)
  {
    assert a + b + c + d == a + (b + c) + d == a + (b + c + d);
  }

  /** Number of tasks labelled `x`. */
  function Count(s: seq<Kernel>, x: Kernel): nat
  {
    if s == [] then 0 else (if s[0] == x then 1 else 0) + Count(s[1..], x)
  }

  lemma {:induction false} CountAppend(a: seq<Kernel>, b: seq<Kernel>, x: Kernel)
    ensures Count(a + b, x) == Count(a, x) + Count(b, x)
  {
    if a != [] {
      assert (a + b)[0] == a[0] && (a + b)[1..] == a[1..] + b;
      CountAppend(a[1..], b, x);
    } else {
      assert a + b == b;
    }
  }

  /** `Rep` holds `k` copies of its name and nothing else. */
  lemma {:induction false} RepCount(name: Kernel, k: nat, x: Kernel)
    ensures Count(Rep(name, k), x) == if x == name then k else 0
  {
    if k > 0 {
      assert Rep(name, k)[1..] == Rep(name, k - 1);
      RepCount(name, k - 1, x);
    }
  }

  /** A new vertex labelled `name`: `task = addtask(g); SETVAS(g, "kernel", task, name);`. */
  method AddKernelTask(g: DataflowGraph, name: Kernel, ghost labels: seq<Kernel>)
    returns (task: nat)
    requires Sound(g, labels)
    modifies g
    ensures task == old(g.n) && Sound(g, labels + [name])
    ensures g.edges == old(g.edges) && g.x == old(g.x) && g.y == old(g.y)
  {
    task := g.AddTask();
    g.SetKernel(task, Name(name));
    NamesSnoc(labels, name);
  }

  /** `raw_edge_2d`: an edge from the last writer of block (i, j), labelled with the block's
      coordinates, unless the block was never written. */
  method RawEdge2D(lw: array2<int>, i: nat, j: nat, g: DataflowGraph, task: nat,
                   ghost labels: seq<Kernel>)
    requires i < lw.Length0 && j < lw.Length1 && -1 <= lw[i, j] < task < g.n
    requires Sound(g, labels) && HasY(g)
    modifies g
    ensures Sound(g, labels) && HasY(g)
    ensures g.n == old(g.n) && g.kernel == old(g.kernel)
    ensures lw[i, j] == -1 ==> g.edges == old(g.edges) && g.x == old(g.x) && g.y == old(g.y)
    ensures lw[i, j] != -1 ==>
      (g.edges == old(g.edges) + [Edge(lw[i, j] as nat, task)]
       && g.x == old(g.x) + [Some(i)] && g.y == old(g.y) + [Some(j)])
  {
    var todo := lw[i, j];
    if todo != -1 {
      var from := todo as nat;
      g.AddEdge(from, task);
      var eid := |g.edges| - 1;
      g.SetX(eid, i);
      g.SetY(eid, j);
    }
  }

  /** `raw_edge_1d`: an edge from the last writer of cell i, labelled with i, unless the cell was
      never written. */
  method RawEdge1D(lw: array<int>, i: nat, g: DataflowGraph, task: nat, ghost labels: seq<Kernel>)
    requires i < lw.Length && -1 <= lw[i] < task < g.n
    requires Sound(g, labels)
    modifies g
    ensures Sound(g, labels)
    ensures g.n == old(g.n) && g.kernel == old(g.kernel)
    ensures lw[i] == -1 ==> g.edges == old(g.edges) && g.x == old(g.x) && g.y == old(g.y)
    ensures lw[i] != -1 ==>
      (g.edges == old(g.edges) + [Edge(lw[i] as nat, task)]
       && g.x == old(g.x) + [Some(i)] && g.y == old(g.y) + [None])
  {
    var todo := lw[i];
    if todo != -1 {
      var from := todo as nat;
      g.AddEdge(from, task);
      var eid := |g.edges| - 1;
      g.SetX(eid, i);
    }
  }

  // ---------------------------------------------------------------------------------------
  // Cholesky

  /** The syrk loop of a step over its first t columns: each syrk followed by one gemm per
      earlier column of the step. */
  function SyrkGemm(t: nat): seq<Kernel>
  {
    if t == 0 then [] else SyrkGemm(t - 1) + ([Syrk] + Rep(Gemm, t - 1))
  }

  /** One more syrk with its gemms extends the syrk-loop sequence by one column. */
  lemma SyrkGemmSnoc(labels: seq<Kernel>, t: nat)
    ensures labels + SyrkGemm(t) + [Syrk] + Rep(Gemm, t) == labels + SyrkGemm(t + 1)
  {
    assert SyrkGemm(t + 1) == SyrkGemm(t) + ([Syrk] + Rep(Gemm, t));
    Associative3(labels, SyrkGemm(t), [Syrk], Rep(Gemm, t));
  }

  /** The tasks of step k of a size × size block Cholesky factorization, in creation order. */
  function CholeskyStep(size: nat, k: nat): seq<Kernel>
    requires k < size
  {
    [Potrf] + Rep(Trsm, size - k - 1) + SyrkGemm(size - k - 1)
  }

  /** The tasks of steps 0 .. k-1. */
  function CholeskyKernels(size: nat, k: nat): seq<Kernel>
    requires k <= size
  {
    if k == 0 then [] else CholeskyKernels(size, k - 1) + CholeskyStep(size, k - 1)
  }

  /** t(t-1)/2, the number of gemm tasks for t columns, as a sum 0 + 1 + ... + (t-1). */
  function GemmCount(t: nat): nat
  {
    if t == 0 then 0 else GemmCount(t - 1) + (t - 1)
  }

  lemma {:induction false} GemmCountClosed(t: nat)
    ensures 2 * GemmCount(t) == t * (t - 1)
  {
    if t > 0 {
      GemmCountClosed(t - 1);
      assert (t - 1) * (t - 2) + 2 * (t - 1) == t * (t - 1);
    }
  }

  /** Over t columns, the syrk loop makes one syrk per column, t(t-1)/2 gemms and nothing else. */
  lemma {:induction false} SyrkGemmCount(t: nat, x: Kernel)
    ensures Count(SyrkGemm(t), x) == if x == Syrk then t else if x == Gemm then GemmCount(t) else 0
  {
    if t > 0 {
      SyrkGemmCount(t - 1, x);
      RepCount(Gemm, t - 1, x);
      CountAppend(SyrkGemm(t - 1), [Syrk] + Rep(Gemm, t - 1), x);
      CountAppend([Syrk], Rep(Gemm, t - 1), x);
    }
  }

  /** Step k, with r = size - k - 1, creates 1 potrf, r trsm, r syrk and r(r-1)/2 gemm tasks,
      and nothing else. */
  lemma CholeskyStepCount(size: nat, k: nat, x: Kernel)
    requires k < size
    ensures Count(CholeskyStep(size, k), x)
         == match x
            case Potrf => 1
            case Trsm => size - k - 1
            case Syrk => size - k - 1
            case Gemm => GemmCount(size - k - 1)
            case _ => 0
    ensures 2 * GemmCount(size - k - 1) == (size - k - 1) * (size - k - 2)
  {
    var r := size - k - 1;
    SyrkGemmCount(r, x);
    RepCount(Trsm, r, x);
    CountAppend([Potrf] + Rep(Trsm, r), SyrkGemm(r), x);
    CountAppend([Potrf], Rep(Trsm, r), x);
    GemmCountClosed(r);
  }

  /** The trsm loop of step k. */
  method CholeskyTrsm(g: DataflowGraph, lw: array2<int>, size: nat, k: nat, ghost labels: seq<Kernel>)
    requires lw.Length0 == size && lw.Length1 == size && k < size
    requires Sound(g, labels) && HasY(g) && Writers2D(lw, g.n)
    modifies g, lw
    ensures Sound(g, labels + Rep(Trsm, size - k - 1)) && HasY(g) && Writers2D(lw, g.n)
  {
    for m := k + 1 to size
      invariant Sound(g, labels + Rep(Trsm, m - (k + 1))) && HasY(g) && Writers2D(lw, g.n)
    {
      ghost var cur := labels + Rep(Trsm, m - (k + 1));
      var task := AddKernelTask(g, Trsm, cur);
      RawEdge2D(lw, k, k, g, task, cur + [Trsm]);
      RawEdge2D(lw, k, m, g, task, cur + [Trsm]);
      lw[k, m] := task;
      RepSnoc(Trsm, m - (k + 1));
      assert cur + [Trsm] == labels + Rep(Trsm, m + 1 - (k + 1));
    }
  }

  /** The gemm loop under the syrk of column m in step k. */
  method CholeskyGemm(g: DataflowGraph, lw: array2<int>, size: nat, k: nat, m: nat,
                      ghost labels: seq<Kernel>)
    requires lw.Length0 == size && lw.Length1 == size && k < m < size
    requires Sound(g, labels) && HasY(g) && Writers2D(lw, g.n)
    modifies g, lw
    ensures Sound(g, labels + Rep(Gemm, m - (k + 1))) && HasY(g) && Writers2D(lw, g.n)
  {
    for n := k + 1 to m
      invariant Sound(g, labels + Rep(Gemm, n - (k + 1))) && HasY(g) && Writers2D(lw, g.n)
    {
      ghost var cur := labels + Rep(Gemm, n - (k + 1));
      var task := AddKernelTask(g, Gemm, cur);
      RawEdge2D(lw, k, n, g, task, cur + [Gemm]);
      RawEdge2D(lw, k, m, g, task, cur + [Gemm]);
      RawEdge2D(lw, n, m, g, task, cur + [Gemm]);
      lw[n, m] := task;
      RepSnoc(Gemm, n - (k + 1));
      assert cur + [Gemm] == labels + Rep(Gemm, n + 1 - (k + 1));
    }
  }

  /** The syrk loop of step k, each syrk followed by its gemm loop. */
  method CholeskySyrk(g: DataflowGraph, lw: array2<int>, size: nat, k: nat, ghost labels: seq<Kernel>)
    requires lw.Length0 == size && lw.Length1 == size && k < size
    requires Sound(g, labels) && HasY(g) && Writers2D(lw, g.n)
    modifies g, lw
    ensures Sound(g, labels + SyrkGemm(size - k - 1)) && HasY(g) && Writers2D(lw, g.n)
  {
    for m := k + 1 to size
      invariant Sound(g, labels + SyrkGemm(m - (k + 1))) && HasY(g) && Writers2D(lw, g.n)
    {
      ghost var cur := labels + SyrkGemm(m - (k + 1));
      var task := AddKernelTask(g, Syrk, cur);
      RawEdge2D(lw, k, m, g, task, cur + [Syrk]);
      RawEdge2D(lw, m, m, g, task, cur + [Syrk]);
      lw[m, m] := task;
      CholeskyGemm(g, lw, size, k, m, cur + [Syrk]);
      SyrkGemmSnoc(labels, m - (k + 1));
    }
  }

  /** Step k of the outer loop: the potrf task on block (k, k), then the trsm and syrk loops. */
  method CholeskyTasks(g: DataflowGraph, lw: array2<int>, size: nat, k: nat, ghost labels: seq<Kernel>)
    requires lw.Length0 == size && lw.Length1 == size && k < size
    requires Sound(g, labels) && HasY(g) && Writers2D(lw, g.n)
    modifies g, lw
    ensures Sound(g, labels + CholeskyStep(size, k)) && HasY(g) && Writers2D(lw, g.n)
  {
    var task := AddKernelTask(g, Potrf, labels);
    RawEdge2D(lw, k, k, g, task, labels + [Potrf]);
    lw[k, k] := task;
    CholeskyTrsm(g, lw, size, k, labels + [Potrf]);
    CholeskySyrk(g, lw, size, k, labels + [Potrf] + Rep(Trsm, size - k - 1));
    Associative3(labels, [Potrf], Rep(Trsm, size - k - 1), SyrkGemm(size - k - 1));
  }

  /** `ggen_generate_cholesky`: the task graph of a size × size block Cholesky factorization. */
  method GenerateCholesky(size: nat) returns (g: DataflowGraph)
    ensures fresh(g)
    ensures Sound(g, CholeskyKernels(size, size)) && HasY(g)
  {
    g := new DataflowGraph();
    var lw := new int[size, size]((_, _) => -1);
    for k := 0 to size
      invariant fresh(g)
      invariant Sound(g, CholeskyKernels(size, k)) && HasY(g) && Writers2D(lw, g.n)
    {
      CholeskyTasks(g, lw, size, k, CholeskyKernels(size, k));
    }
  }

  // ---------------------------------------------------------------------------------------
  // LU

  /** Block (ii, jj) of the sparse matrix holds data: the diagonal and the two neighbouring
      diagonals always do; otherwise only blocks with even coordinates whose smaller coordinate
      is a multiple of 3. */
  predicate SparseNonEmpty(ii: nat, jj: nat)
  {
    ii == jj || ii + 1 == jj || jj + 1 == ii
    || (ii % 2 == 0 && jj % 2 == 0 && (if ii < jj then ii % 3 == 0 else jj % 3 == 0))
  }

  /** `sparselu_genmat`: the C tests, in their order, on unsigned coordinates (`ii == jj - 1`
      cannot hold for jj = 0, where jj - 1 wraps around). */
  method SparseGenMat(matrix: array2<bool>, size: nat)
    requires matrix.Length0 == size && matrix.Length1 == size
    modifies matrix
    ensures forall ii, jj | 0 <= ii < size && 0 <= jj < size :: matrix[ii, jj] == SparseNonEmpty(ii, jj)
  {
    for ii := 0 to size
      invariant forall i, j | 0 <= i < ii && 0 <= j < size :: matrix[i, j] == SparseNonEmpty(i, j)
    {
      for jj := 0 to size
        invariant forall i, j | 0 <= i < ii && 0 <= j < size :: matrix[i, j] == SparseNonEmpty(i, j)
        invariant forall j | 0 <= j < jj :: matrix[ii, j] == SparseNonEmpty(ii, j)
      {
        var empty := false;
        if ii < jj && ii % 3 != 0 { empty := true; }
        if ii > jj && jj % 3 != 0 { empty := true; }
        if ii % 2 == 1 { empty := true; }
        if jj % 2 == 1 { empty := true; }
        if ii == jj { empty := false; }
        if jj >= 1 && ii == jj - 1 { empty := false; }
        if ii >= 1 && ii - 1 == jj { empty := false; }
        matrix[ii, jj] := !empty;
      }
    }
  }

  /** Number of true entries among s[lo .. hi-1]. */
  function CountTrue(s: seq<bool>, lo: nat, hi: nat): nat
    requires lo <= hi <= |s|
    decreases hi - lo
  {
    if hi == lo then 0 else CountTrue(s, lo, hi - 1) + (if s[hi - 1] then 1 else 0)
  }

  /** The bmod tasks of phase kk for rows kk+1 .. ii-1: for each non-empty block of column kk,
      one per non-empty block of row kk. */
  function BmodLabels(col: seq<bool>, row: seq<bool>, kk: nat, ii: nat): seq<Kernel>
    requires kk < |row| && kk + 1 <= ii <= |col|
    decreases ii
  {
    if ii == kk + 1 then []
    else BmodLabels(col, row, kk, ii - 1)
         + (if col[ii - 1] then Rep(Bmod, CountTrue(row, kk + 1, |row|)) else [])
  }

  /** The tasks of phase kk of `generate_lu`, given row kk and column kk of the non-empty
      matrix when the phase starts (the phase does not change them). */
  function LuPhase(row: seq<bool>, col: seq<bool>, kk: nat): seq<Kernel>
    requires kk < |row| && kk < |col|
  {
    [Lu] + Rep(Fwd, CountTrue(row, kk + 1, |row|)) + Rep(Bdiv, CountTrue(col, kk + 1, |col|))
    + BmodLabels(col, row, kk, |col|)
  }

  /** The kernels of an LU graph. */
  predicate LuKernel(x: Kernel)
  {
    x == Lu || x == Fwd || x == Bdiv || x == Bmod
  }

  lemma {:induction false} BmodCount(col: seq<bool>, row: seq<bool>, kk: nat, ii: nat, x: Kernel)
    requires kk < |row| && kk + 1 <= ii <= |col|
    ensures Count(BmodLabels(col, row, kk, ii), x)
         == if x == Bmod then CountTrue(col, kk + 1, ii) * CountTrue(row, kk + 1, |row|) else 0
    decreases ii
  {
    if ii > kk + 1 {
      var r := CountTrue(row, kk + 1, |row|);
      BmodCount(col, row, kk, ii - 1, x);
      RepCount(Bmod, r, x);
      CountAppend(BmodLabels(col, row, kk, ii - 1),
                  if col[ii - 1] then Rep(Bmod, r) else [], x);
      MulSucc(CountTrue(col, kk + 1, ii - 1), r);
    }
  }

  /** A phase makes one lu task, one fwd per non-empty block right of the diagonal in row kk,
      one bdiv per non-empty block below it in column kk, one bmod per pair of those, and
      nothing else. */
  lemma LuPhaseCount(row: seq<bool>, col: seq<bool>, kk: nat, x: Kernel)
    requires kk < |row| && kk < |col|
    ensures Count(LuPhase(row, col, kk), x)
         == match x
            case Lu => 1
            case Fwd => CountTrue(row, kk + 1, |row|)
            case Bdiv => CountTrue(col, kk + 1, |col|)
            case Bmod => CountTrue(col, kk + 1, |col|) * CountTrue(row, kk + 1, |row|)
            case _ => 0
  {
    var f, b := Rep(Fwd, CountTrue(row, kk + 1, |row|)), Rep(Bdiv, CountTrue(col, kk + 1, |col|));
    CountAppend([Lu] + f + b, BmodLabels(col, row, kk, |col|), x);
    CountAppend([Lu] + f, b, x);
    CountAppend([Lu], f, x);
    RepCount(Fwd, CountTrue(row, kk + 1, |row|), x);
    RepCount(Bdiv, CountTrue(col, kk + 1, |col|), x);
    BmodCount(col, row, kk, |col|, x);
  }

  /** Phase kk of the LU of a dense size × size block matrix, r = size - kk - 1. */
  function DenseLuStep(size: nat, kk: nat): seq<Kernel>
    requires kk < size
  {
    [Lu] + Rep(Fwd, size - kk - 1) + Rep(Bdiv, size - kk - 1)
    + Rep(Bmod, (size - kk - 1) * (size - kk - 1))
  }

  /** Phases 0 .. k-1 of a dense LU. */
  function DenseLuKernels(size: nat, k: nat): seq<Kernel>
    requires k <= size
  {
    if k == 0 then [] else DenseLuKernels(size, k - 1) + DenseLuStep(size, k - 1)
  }

  lemma {:induction false} CountTrueAll(s: seq<bool>, lo: nat, hi: nat)
    requires lo <= hi <= |s| && forall i | lo <= i < hi :: s[i]
    ensures CountTrue(s, lo, hi) == hi - lo
    decreases hi - lo
  {
    if hi > lo {
      CountTrueAll(s, lo, hi - 1);
    }
  }

  lemma {:induction false} BmodDense(col: seq<bool>, row: seq<bool>, kk: nat, ii: nat)
    requires kk < |row| && kk + 1 <= ii <= |col|
    requires forall i | 0 <= i < |col| :: col[i]
    requires CountTrue(row, kk + 1, |row|) == |row| - kk - 1
    ensures BmodLabels(col, row, kk, ii) == Rep(Bmod, Product(ii - kk - 1, |row| - kk - 1))
    decreases ii
  {
    var r := |row| - kk - 1;
    if ii > kk + 1 {
      var t: nat := ii - kk - 1;
      BmodDense(col, row, kk, ii - 1);
      BmodDenseStep(col, row, kk, ii, Product(t - 1, r));
      assert Product(t, r) == Product(t - 1, r) + r;
    } else {
      assert Rep(Bmod, Product(0, r)) == [];
    }
  }

  /** Row ii - 1 of a dense column adds one bmod per non-empty block of row kk. */
  lemma BmodDenseStep(col: seq<bool>, row: seq<bool>, kk: nat, ii: nat, p: nat)
    requires kk < |row| && kk + 1 < ii <= |col| && col[ii - 1]
    requires CountTrue(row, kk + 1, |row|) == |row| - kk - 1
    requires BmodLabels(col, row, kk, ii - 1) == Rep(Bmod, p)
    ensures BmodLabels(col, row, kk, ii) == Rep(Bmod, p + (|row| - kk - 1))
  {
    RepAppend(Bmod, p, |row| - kk - 1);
  }

  /** a·b as a repeated sum, so that a proof by induction on a needs no multiplication. */
  function Product(a: nat, b: nat): nat
  {
    if a == 0 then 0 else Product(a - 1, b) + b
  }

  lemma {:induction false} ProductIsMul(a: nat, b: nat)
    ensures Product(a, b) == a * b
  {
    if a > 0 {
      ProductIsMul(a - 1, b);
      MulSucc(a - 1, b);
    }
  }

  lemma MulSucc(a: nat, b: nat)
    ensures a * b + b == (a + 1) * b
  {
  }

  /** On a dense matrix every block is non-empty, so each phase is the dense one. */
  lemma LuPhaseDense(row: seq<bool>, col: seq<bool>, kk: nat)
    requires kk < |row| == |col|
    requires (forall j | 0 <= j < |row| :: row[j]) && (forall i | 0 <= i < |col| :: col[i])
    ensures LuPhase(row, col, kk) == DenseLuStep(|row|, kk)
  {
    CountTrueAll(row, kk + 1, |row|);
    CountTrueAll(col, kk + 1, |col|);
    BmodDense(col, row, kk, |col|);
    ProductIsMul(|col| - kk - 1, |row| - kk - 1);
  }

  /** A dense phase makes 1 lu, r fwd, r bdiv and r² bmod tasks, r = size - kk - 1. */
  lemma DenseLuStepCount(size: nat, kk: nat, x: Kernel)
    requires kk < size
    ensures Count(DenseLuStep(size, kk), x)
         == match x
            case Lu => 1
            case Fwd => size - kk - 1
            case Bdiv => size - kk - 1
            case Bmod => (size - kk - 1) * (size - kk - 1)
            case _ => 0
  {
    var r := size - kk - 1;
    CountAppend([Lu] + Rep(Fwd, r) + Rep(Bdiv, r), Rep(Bmod, r * r), x);
    CountAppend([Lu] + Rep(Fwd, r), Rep(Bdiv, r), x);
    CountAppend([Lu], Rep(Fwd, r), x);
    RepCount(Fwd, r, x);
    RepCount(Bdiv, r, x);
    RepCount(Bmod, r * r, x);
  }

  /** The fwd loop of phase kk; `row` is row kk of the non-empty matrix. */
  method LuFwd(g: DataflowGraph, lw: array2<int>, ne: array2<bool>, size: nat, kk: nat,
               ghost labels: seq<Kernel>, ghost row: seq<bool>)
    requires lw.Length0 == size && lw.Length1 == size && kk < size
    requires ne.Length0 == size && ne.Length1 == size
    requires |row| == size && forall j | 0 <= j < size :: ne[kk, j] == row[j]
    requires Sound(g, labels) && HasY(g) && Writers2D(lw, g.n)
    modifies g, lw
    ensures Sound(g, labels + Rep(Fwd, CountTrue(row, kk + 1, size))) && HasY(g)
    ensures Writers2D(lw, g.n)
  {
    for jj := kk + 1 to size
      invariant Sound(g, labels + Rep(Fwd, CountTrue(row, kk + 1, jj))) && HasY(g)
      invariant Writers2D(lw, g.n)
    {
      ghost var c := CountTrue(row, kk + 1, jj);
      if ne[kk, jj] {
        var task := AddKernelTask(g, Fwd, labels + Rep(Fwd, c));
        RawEdge2D(lw, kk, kk, g, task, labels + Rep(Fwd, c) + [Fwd]);
        RawEdge2D(lw, kk, jj, g, task, labels + Rep(Fwd, c) + [Fwd]);
        lw[kk, jj] := task;
        RepSnoc(Fwd, c);
      }
    }
  }

  /** The bdiv loop of phase kk; `col` is column kk of the non-empty matrix. */
  method LuBdiv(g: DataflowGraph, lw: array2<int>, ne: array2<bool>, size: nat, kk: nat,
                ghost labels: seq<Kernel>, ghost col: seq<bool>)
    requires lw.Length0 == size && lw.Length1 == size && kk < size
    requires ne.Length0 == size && ne.Length1 == size
    requires |col| == size && forall i | 0 <= i < size :: ne[i, kk] == col[i]
    requires Sound(g, labels) && HasY(g) && Writers2D(lw, g.n)
    modifies g, lw
    ensures Sound(g, labels + Rep(Bdiv, CountTrue(col, kk + 1, size))) && HasY(g)
    ensures Writers2D(lw, g.n)
  {
    for ii := kk + 1 to size
      invariant Sound(g, labels + Rep(Bdiv, CountTrue(col, kk + 1, ii))) && HasY(g)
      invariant Writers2D(lw, g.n)
    {
      ghost var c := CountTrue(col, kk + 1, ii);
      if ne[ii, kk] {
        var task := AddKernelTask(g, Bdiv, labels + Rep(Bdiv, c));
        RawEdge2D(lw, kk, kk, g, task, labels + Rep(Bdiv, c) + [Bdiv]);
        RawEdge2D(lw, ii, kk, g, task, labels + Rep(Bdiv, c) + [Bdiv]);
        lw[ii, kk] := task;
        RepSnoc(Bdiv, c);
      }
    }
  }

  /** One bmod task: in (ii, kk) and (kk, jj), inout (ii, jj), which becomes non-empty. */
  method LuBmodTask(g: DataflowGraph, lw: array2<int>, ne: array2<bool>, size: nat, kk: nat,
                    ii: nat, jj: nat, ghost labels: seq<Kernel>)
    requires lw.Length0 == size && lw.Length1 == size && kk < size && ii < size && jj < size
    requires ne.Length0 == size && ne.Length1 == size
    requires Sound(g, labels) && HasY(g) && Writers2D(lw, g.n)
    modifies g, lw, ne
    ensures Sound(g, labels + [Bmod]) && HasY(g) && Writers2D(lw, g.n)
    ensures forall i, j | 0 <= i < size && 0 <= j < size ::
      ne[i, j] == (old(ne[i, j]) || (i == ii && j == jj))
  {
    ne[ii, jj] := true;
    var task := AddKernelTask(g, Bmod, labels);
    RawEdge2D(lw, ii, kk, g, task, labels + [Bmod]);
    RawEdge2D(lw, kk, jj, g, task, labels + [Bmod]);
    RawEdge2D(lw, ii, jj, g, task, labels + [Bmod]);
    lw[ii, jj] := task;
  }

  /** The inner bmod loop for a row ii whose block (ii, kk) is non-empty: each non-empty block
      (kk, jj) makes block (ii, jj) non-empty and adds a bmod task. */
  method LuBmodRow(g: DataflowGraph, lw: array2<int>, ne: array2<bool>, size: nat, kk: nat,
                   ii: nat, ghost labels: seq<Kernel>, ghost row: seq<bool>)
    requires lw.Length0 == size && lw.Length1 == size && kk < ii < size
    requires ne.Length0 == size && ne.Length1 == size
    requires |row| == size && forall j | 0 <= j < size :: ne[kk, j] == row[j]
    requires Sound(g, labels) && HasY(g) && Writers2D(lw, g.n)
    modifies g, lw, ne
    ensures Sound(g, labels + Rep(Bmod, CountTrue(row, kk + 1, size))) && HasY(g)
    ensures Writers2D(lw, g.n)
    ensures forall i, j | 0 <= i < size && 0 <= j < size ::
      ne[i, j] == (old(ne[i, j]) || (i == ii && kk < j && row[j]))
  {
    for jj := kk + 1 to size
      invariant Sound(g, labels + Rep(Bmod, CountTrue(row, kk + 1, jj))) && HasY(g)
      invariant Writers2D(lw, g.n)
      invariant forall i, j | 0 <= i < size && 0 <= j < size ::
        ne[i, j] == (old(ne[i, j]) || (i == ii && kk < j < jj && row[j]))
    {
      ghost var c := CountTrue(row, kk + 1, jj);
      if ne[kk, jj] {
        LuBmodTask(g, lw, ne, size, kk, ii, jj, labels + Rep(Bmod, c));
        RepSnoc(Bmod, c);
      }
    }
  }

  /** The bmod loop of phase kk; `row` and `col` are row and column kk of the non-empty
      matrix, which the loop does not change. */
  method LuBmod(g: DataflowGraph, lw: array2<int>, ne: array2<bool>, size: nat, kk: nat,
                ghost labels: seq<Kernel>, ghost row: seq<bool>, ghost col: seq<bool>)
    requires lw.Length0 == size && lw.Length1 == size && kk < size
    requires ne.Length0 == size && ne.Length1 == size
    requires |row| == size && forall j | 0 <= j < size :: ne[kk, j] == row[j]
    requires |col| == size && forall i | 0 <= i < size :: ne[i, kk] == col[i]
    requires Sound(g, labels) && HasY(g) && Writers2D(lw, g.n)
    modifies g, lw, ne
    ensures Sound(g, labels + BmodLabels(col, row, kk, size)) && HasY(g)
    ensures Writers2D(lw, g.n)
    ensures forall i, j | 0 <= i < size && 0 <= j < size ::
      ne[i, j] == (old(ne[i, j]) || (kk < i && kk < j && col[i] && row[j]))
  {
    for ii := kk + 1 to size
      invariant Sound(g, labels + BmodLabels(col, row, kk, ii)) && HasY(g)
      invariant Writers2D(lw, g.n)
      invariant forall i, j | 0 <= i < size && 0 <= j < size ::
        ne[i, j] == (old(ne[i, j]) || (kk < i < ii && kk < j && col[i] && row[j]))
    {
      ghost var done := labels + BmodLabels(col, row, kk, ii);
      if ne[ii, kk] {
        LuBmodRow(g, lw, ne, size, kk, ii, done, row);
      }
      assert done + (if col[ii] then Rep(Bmod, CountTrue(row, kk + 1, size)) else [])
          == labels + BmodLabels(col, row, kk, ii + 1);
    }
  }

  /** Phase kk of `generate_lu`: the lu task, then the fwd, bdiv and bmod loops. */
  method LuTasks(g: DataflowGraph, lw: array2<int>, ne: array2<bool>, size: nat, kk: nat,
                 ghost labels: seq<Kernel>, ghost row: seq<bool>, ghost col: seq<bool>)
    requires lw.Length0 == size && lw.Length1 == size && kk < size
    requires ne.Length0 == size && ne.Length1 == size
    requires |row| == size && forall j | 0 <= j < size :: ne[kk, j] == row[j]
    requires |col| == size && forall i | 0 <= i < size :: ne[i, kk] == col[i]
    requires Sound(g, labels) && HasY(g) && Writers2D(lw, g.n)
    modifies g, lw, ne
    ensures Sound(g, labels + LuPhase(row, col, kk)) && HasY(g)
    ensures Writers2D(lw, g.n)
    ensures forall i, j | 0 <= i < size && 0 <= j < size ::
      ne[i, j] == (old(ne[i, j]) || (kk < i && kk < j && col[i] && row[j]))
  {
    var lastlu := AddKernelTask(g, Lu, labels);
    RawEdge2D(lw, kk, kk, g, lastlu, labels + [Lu]);
    lw[kk, kk] := lastlu;
    ghost var f := Rep(Fwd, CountTrue(row, kk + 1, size));
    ghost var b := Rep(Bdiv, CountTrue(col, kk + 1, size));
    LuFwd(g, lw, ne, size, kk, labels + [Lu], row);
    LuBdiv(g, lw, ne, size, kk, labels + [Lu] + f, col);
    LuBmod(g, lw, ne, size, kk, labels + [Lu] + f + b, row, col);
    LuPhaseLabels(labels, row, col, kk, f, b);
  }

  lemma LuPhaseLabels(labels: seq<Kernel>, row: seq<bool>, col: seq<bool>, kk: nat, f: seq<Kernel>,
                      b: seq<Kernel>)
    requires kk < |row| && kk < |col|
    requires f == Rep(Fwd, CountTrue(row, kk + 1, |row|)) && b == Rep(Bdiv, CountTrue(col, kk + 1, |col|))
    ensures labels + [Lu] + f + b + BmodLabels(col, row, kk, |col|) == labels + LuPhase(row, col, kk)
  {
    Associative3(labels + [Lu], f, b, BmodLabels(col, row, kk, |col|));
    Associative3(labels, [Lu], f + b, BmodLabels(col, row, kk, |col|));
  }

  lemma LuLabelsStep(labels: seq<Kernel>, row: seq<bool>, col: seq<bool>, kk: nat)
    requires kk < |row| && kk < |col|
    requires Count(labels, Lu) == kk && forall x | !LuKernel(x) :: Count(labels, x) == 0
    ensures Count(labels + LuPhase(row, col, kk), Lu) == kk + 1
    ensures forall x | !LuKernel(x) :: Count(labels + LuPhase(row, col, kk), x) == 0
  {
    forall x
      ensures Count(labels + LuPhase(row, col, kk), x) == Count(labels, x) + Count(LuPhase(row, col, kk), x)
      ensures x == Lu ==> Count(LuPhase(row, col, kk), x) == 1
      ensures !LuKernel(x) ==> Count(LuPhase(row, col, kk), x) == 0
    {
      CountAppend(labels, LuPhase(row, col, kk), x);
      LuPhaseCount(row, col, kk, x);
    }
  }

  /** A size × size matrix of non-empty flags, as rows. */
  ghost predicate Square(m: seq<seq<bool>>, size: nat) {
    |m| == size && forall i | 0 <= i < size :: |m[i]| == size
  }

  /** The flags of an array, as rows. */
  ghost function Rows(a: array2<bool>): (m: seq<seq<bool>>)
    reads a
    ensures Square(m, a.Length0) || a.Length0 != a.Length1
  {
    seq(a.Length0, i requires 0 <= i < a.Length0 reads a =>
      seq(a.Length1, j requires 0 <= j < a.Length1 reads a => a[i, j]))
  }

  /** Column kk. */
  function Column(m: seq<seq<bool>>, kk: nat): (c: seq<bool>)
    requires forall i | 0 <= i < |m| :: kk < |m[i]|
    ensures |c| == |m|
  {
    seq(|m|, i requires 0 <= i < |m| => m[i][kk])
  }

  /** The flags after phase kk: its bmod loop fills in block (i, j), below and right of the
      diagonal, whenever blocks (i, kk) and (kk, j) are non-empty. */
  function Fill(m: seq<seq<bool>>, kk: nat): (r: seq<seq<bool>>)
    requires Square(m, |m|) && kk < |m|
    ensures Square(r, |m|)
  {
    seq(|m|, i requires 0 <= i < |m| =>
      seq(|m|, j requires 0 <= j < |m| => m[i][j] || (kk < i && kk < j && m[i][kk] && m[kk][j])))
  }

  lemma FillAt(m: seq<seq<bool>>, kk: nat, i: nat, j: nat)
    requires Square(m, |m|) && kk < |m| && i < |m| && j < |m|
    ensures Fill(m, kk)[i][j] == (m[i][j] || (kk < i && kk < j && m[i][kk] && m[kk][j]))
  {
  }

  /** The flags as phase k starts, from the flags m0 that `generate_lu` receives. */
  function MatrixAt(m0: seq<seq<bool>>, k: nat): (m: seq<seq<bool>>)
    requires Square(m0, |m0|) && k <= |m0|
    ensures Square(m, |m0|)
  {
    if k == 0 then m0 else Fill(MatrixAt(m0, k - 1), k - 1)
  }

  /** Phase kk of `generate_lu` on the flags m0, read off row and column kk of the matrix as it
      stands when the phase starts. */
  function PhaseAt(m0: seq<seq<bool>>, kk: nat): seq<Kernel>
    requires Square(m0, |m0|) && kk < |m0|
  {
    LuPhase(MatrixAt(m0, kk)[kk], Column(MatrixAt(m0, kk), kk), kk)
  }

  /** The kernels of phases 0 .. k-1 of `generate_lu` on the flags m0. */
  function LuKernels(m0: seq<seq<bool>>, k: nat): seq<Kernel>
    requires Square(m0, |m0|) && k <= |m0|
  {
    if k == 0 then [] else LuKernels(m0, k - 1) + PhaseAt(m0, k - 1)
  }

  /** Every block is non-empty. */
  ghost predicate AllBlocks(m: seq<seq<bool>>) {
    Square(m, |m|) && forall i, j | 0 <= i < |m| && 0 <= j < |m| :: m[i][j]
  }

  /** A dense matrix never changes. */
  lemma {:induction false} MatrixAtDense(m: seq<seq<bool>>, k: nat)
    requires AllBlocks(m) && k <= |m|
    ensures MatrixAt(m, k) == m
  {
    if k > 0 {
      MatrixAtDense(m, k - 1);
      DenseFixed(m, k - 1);
    }
  }

  /** Each phase of a dense matrix is the dense one. */
  lemma DensePhase(m: seq<seq<bool>>, kk: nat)
    requires AllBlocks(m) && kk < |m|
    ensures PhaseAt(m, kk) == DenseLuStep(|m|, kk)
  {
    MatrixAtDense(m, kk);
    var col := Column(m, kk);
    assert forall i | 0 <= i < |m| :: col[i];
    assert |m[kk]| == |m|;
    LuPhaseDense(m[kk], col, kk);
  }

  /** Phases 0 .. k-1 are the dense ones. */
  ghost predicate DensePhases(m: seq<seq<bool>>, k: nat)
    requires Square(m, |m|) && k <= |m|
  {
    forall kk | 0 <= kk < k :: PhaseAt(m, kk) == DenseLuStep(|m|, kk)
  }

  /** When every phase is the dense one, the kernels are the dense kernels. */
  lemma {:induction false} KernelsFromPhases(m: seq<seq<bool>>, k: nat)
    requires Square(m, |m|) && k <= |m| && DensePhases(m, k)
    ensures LuKernels(m, k) == DenseLuKernels(|m|, k)
  {
    if k > 0 {
      assert DensePhases(m, k - 1);
      KernelsFromPhases(m, k - 1);
    }
  }

  /** So the phases of a dense matrix are the dense ones. */
  lemma LuKernelsDense(m: seq<seq<bool>>, k: nat)
    requires AllBlocks(m) && k <= |m|
    ensures LuKernels(m, k) == DenseLuKernels(|m|, k)
  {
    forall kk | 0 <= kk < k
      ensures PhaseAt(m, kk) == DenseLuStep(|m|, kk)
    {
      DensePhase(m, kk);
    }
    KernelsFromPhases(m, k);
  }

  lemma DenseFixed(m: seq<seq<bool>>, kk: nat)
    requires AllBlocks(m) && kk < |m|
    ensures Fill(m, kk) == m
  {
    forall i | 0 <= i < |m|
      ensures Fill(m, kk)[i] == m[i]
    {
      forall j | 0 <= j < |m|
        ensures Fill(m, kk)[i][j] == m[i][j]
      {
        FillAt(m, kk, i, j);
      }
    }
  }

  /** The flags `sparselu_genmat` leaves. */
  function SparseBlocks(size: nat): (m: seq<seq<bool>>)
    ensures Square(m, size)
  {
    seq(size, i requires 0 <= i < size => seq(size, j requires 0 <= j < size => SparseNonEmpty(i, j)))
  }

  /** `generate_lu`: the task graph of a blocked LU factorization of a size × size matrix whose
      non-empty blocks are `nonempty`; bmod tasks fill blocks in, so the matrix only grows. */
  method GenerateLU(size: nat, nonempty: array2<bool>) returns (g: DataflowGraph, ghost labels: seq<Kernel>)
    requires nonempty.Length0 == size && nonempty.Length1 == size
    modifies nonempty
    ensures fresh(g) && Sound(g, labels) && HasY(g)
    ensures Count(labels, Lu) == size && forall x | !LuKernel(x) :: Count(labels, x) == 0
    ensures forall i, j | 0 <= i < size && 0 <= j < size :: old(nonempty[i, j]) ==> nonempty[i, j]
    ensures (forall i, j | 0 <= i < size && 0 <= j < size :: old(nonempty[i, j]))
            ==> labels == DenseLuKernels(size, size)
    ensures labels == LuKernels(old(Rows(nonempty)), size)
    ensures Rows(nonempty) == MatrixAt(old(Rows(nonempty)), size)
  {
    g := new DataflowGraph();
    var lw := new int[size, size]((_, _) => -1);
    ghost var m0 := Rows(nonempty);
    labels := LuPhases(g, lw, nonempty, size, m0);
    if forall i, j | 0 <= i < size && 0 <= j < size :: m0[i][j] {
      LuKernelsDense(m0, size);
    }
  }

  /** The phase loop of `generate_lu`: phase kk for kk = 0 .. size - 1. */
  method LuPhases(g: DataflowGraph, lw: array2<int>, nonempty: array2<bool>, size: nat,
                  ghost m0: seq<seq<bool>>) returns (ghost labels: seq<Kernel>)
    requires lw.Length0 == size && lw.Length1 == size
    requires nonempty.Length0 == size && nonempty.Length1 == size
    requires Sound(g, []) && HasY(g) && Writers2D(lw, g.n)
    requires Square(m0, size) && Rows(nonempty) == m0
    modifies g, lw, nonempty
    ensures Sound(g, labels) && HasY(g)
    ensures Count(labels, Lu) == size && forall x | !LuKernel(x) :: Count(labels, x) == 0
    ensures forall i, j | 0 <= i < size && 0 <= j < size :: old(nonempty[i, j]) ==> nonempty[i, j]
    ensures Rows(nonempty) == MatrixAt(m0, size) && labels == LuKernels(m0, size)
  {
    labels := [];
    for kk := 0 to size
      invariant Sound(g, labels) && HasY(g) && Writers2D(lw, g.n)
      invariant Count(labels, Lu) == kk && forall x | !LuKernel(x) :: Count(labels, x) == 0
      invariant forall i, j | 0 <= i < size && 0 <= j < size :: old(nonempty[i, j]) ==> nonempty[i, j]
      invariant Rows(nonempty) == MatrixAt(m0, kk) && labels == LuKernels(m0, kk)
    {
      labels := LuStep(g, lw, nonempty, size, kk, labels, m0);
    }
  }

  /** One turn of the phase loop of `generate_lu`, with row kk and column kk read off the
      matrix as the phase starts. */
  method LuStep(g: DataflowGraph, lw: array2<int>, nonempty: array2<bool>, size: nat, kk: nat,
                ghost labels: seq<Kernel>, ghost m0: seq<seq<bool>>)
    returns (ghost labels2: seq<Kernel>)
    requires lw.Length0 == size && lw.Length1 == size && kk < size
    requires nonempty.Length0 == size && nonempty.Length1 == size
    requires Sound(g, labels) && HasY(g) && Writers2D(lw, g.n)
    requires Count(labels, Lu) == kk && forall x | !LuKernel(x) :: Count(labels, x) == 0
    requires Square(m0, size) && Rows(nonempty) == MatrixAt(m0, kk) && labels == LuKernels(m0, kk)
    modifies g, lw, nonempty
    ensures Sound(g, labels2) && HasY(g) && Writers2D(lw, g.n)
    ensures Count(labels2, Lu) == kk + 1 && forall x | !LuKernel(x) :: Count(labels2, x) == 0
    ensures forall i, j | 0 <= i < size && 0 <= j < size :: old(nonempty[i, j]) ==> nonempty[i, j]
    ensures Rows(nonempty) == MatrixAt(m0, kk + 1) && labels2 == LuKernels(m0, kk + 1)
  {
    ghost var m := Rows(nonempty);
    ghost var row := m[kk];
    ghost var col := Column(m, kk);
    LuTasks(g, lw, nonempty, size, kk, labels, row, col);
    LuLabelsStep(labels, row, col, kk);
    labels2 := labels + LuPhase(row, col, kk);
    FillRows(m, Rows(nonempty), kk);
  }

  /** The flags after the phase, entry by entry, are `Fill` of the flags before it. */
  lemma FillRows(m: seq<seq<bool>>, m2: seq<seq<bool>>, kk: nat)
    requires Square(m, |m|) && Square(m2, |m|) && kk < |m|
    requires forall i, j {:trigger m2[i][j]} | 0 <= i < |m| && 0 <= j < |m| ::
      m2[i][j] == (m[i][j] || (kk < i && kk < j && m[i][kk] && m[kk][j]))
    ensures m2 == Fill(m, kk)
  {
    forall i | 0 <= i < |m|
      ensures m2[i] == Fill(m, kk)[i]
    {
      forall j | 0 <= j < |m|
        ensures m2[i][j] == Fill(m, kk)[i][j]
      {
        FillAt(m, kk, i, j);
      }
    }
  }

  /** `ggen_generate_sparselu`: LU over the blocks `sparselu_genmat` marks non-empty. */
  method GenerateSparseLU(size: nat) returns (g: DataflowGraph, ghost labels: seq<Kernel>)
    ensures fresh(g) && Sound(g, labels) && HasY(g)
    ensures Count(labels, Lu) == size && forall x | !LuKernel(x) :: Count(labels, x) == 0
    ensures labels == LuKernels(SparseBlocks(size), size)
  {
    var nonempty := new bool[size, size];
    SparseGenMat(nonempty, size);
    assert Rows(nonempty) == SparseBlocks(size) by {
      forall i | 0 <= i < size
        ensures Rows(nonempty)[i] == SparseBlocks(size)[i]
      {
      }
    }
    g, labels := GenerateLU(size, nonempty);
  }

  /** `ggen_generate_denselu`: LU with every block non-empty. */
  method GenerateDenseLU(size: nat) returns (g: DataflowGraph)
    ensures fresh(g) && Sound(g, DenseLuKernels(size, size)) && HasY(g)
  {
    var nonempty := new bool[size, size]((_, _) => true);
    ghost var labels;
    g, labels := GenerateLU(size, nonempty);
  }

  // ---------------------------------------------------------------------------------------
  // Poisson2D

  /** Cells 1 .. n-2 of a row of n grid points: the ones that get tasks. */
  function Interior(n: nat): nat
  {
    if n >= 2 then n - 2 else 0
  }

  /** The tasks of `it` sweeps over `w` interior cells: w copy tasks, then w apply tasks. */
  function PoissonKernels(w: nat, it: nat): seq<Kernel>
  {
    if it == 0 then [] else PoissonKernels(w, it - 1) + Rep(Copy, w) + Rep(Apply, w)
  }

  /** `it` sweeps make it·w copy tasks, it·w apply tasks and nothing else. */
  lemma {:induction false} PoissonCount(w: nat, it: nat, x: Kernel)
    ensures Count(PoissonKernels(w, it), x) == if x == Copy || x == Apply then Product(it, w) else 0
    ensures |PoissonKernels(w, it)| == 2 * Product(it, w)
  {
    if it > 0 {
      PoissonCount(w, it - 1, x);
      CountAppend(PoissonKernels(w, it - 1) + Rep(Copy, w), Rep(Apply, w), x);
      CountAppend(PoissonKernels(w, it - 1), Rep(Copy, w), x);
      RepCount(Copy, w, x);
      RepCount(Apply, w, x);
    }
  }

  /** The border cells 0 and n-1 are never written. */
  ghost predicate Borders(lw: array<int>)
    reads lw
  {
    lw.Length >= 1 && lw[0] == -1 && lw[lw.Length - 1] == -1
  }

  /** Every entry is a number naming an interior cell of a row of n points. */
  ghost predicate InteriorCells(xs: seq<Option<nat>>, n: nat)
  {
    forall id | 0 <= id < |xs| :: xs[id].Some? && 1 <= xs[id].value < n - 1
  }

  /** No edge has a "y" attribute, and every "x" attribute is an interior cell. */
  ghost predicate InteriorEdges(g: DataflowGraph, n: nat)
    reads g
  {
    (forall id | 0 <= id < |g.y| :: g.y[id] == None) && InteriorCells(g.x, n)
  }

  /** The copy loop of a sweep: `old[i] = new[i]` for the interior cells. */
  method PoissonCopy(g: DataflowGraph, lwOld: array<int>, lwNew: array<int>, n: nat,
                     ghost labels: seq<Kernel>)
    requires lwOld.Length == n && lwNew.Length == n && lwOld != lwNew
    requires Borders(lwOld) && Borders(lwNew)
    requires Sound(g, labels) && InteriorEdges(g, n)
    requires Writers1D(lwOld, g.n) && Writers1D(lwNew, g.n)
    modifies g, lwOld
    ensures Borders(lwOld) && Sound(g, labels + Rep(Copy, Interior(n))) && InteriorEdges(g, n)
    ensures Writers1D(lwOld, g.n) && Writers1D(lwNew, g.n)
  {
    var i := 1;
    while i < n - 1
      invariant 1 <= i <= Interior(n) + 1
      invariant Borders(lwOld) && Sound(g, labels + Rep(Copy, i - 1)) && InteriorEdges(g, n)
      invariant Writers1D(lwOld, g.n) && Writers1D(lwNew, g.n)
    {
      ghost var cur := labels + Rep(Copy, i - 1);
      var task := AddKernelTask(g, Copy, cur);
      RawEdge1D(lwNew, i, g, task, cur + [Copy]);
      lwOld[i] := task;
      RepSnoc(Copy, i - 1);
      i := i + 1;
    }
  }

  /** One apply task on interior cell i. */
  method PoissonApplyTask(g: DataflowGraph, lwOld: array<int>, lwNew: array<int>, n: nat, i: nat,
                          ghost labels: seq<Kernel>)
    requires lwOld.Length == n && lwNew.Length == n && lwOld != lwNew && 1 <= i < n - 1
    requires Borders(lwOld) && Borders(lwNew)
    requires Sound(g, labels) && InteriorEdges(g, n)
    requires Writers1D(lwOld, g.n) && Writers1D(lwNew, g.n)
    modifies g, lwNew
    ensures Borders(lwNew) && Sound(g, labels + [Apply]) && InteriorEdges(g, n)
    ensures Writers1D(lwOld, g.n) && Writers1D(lwNew, g.n)
  {
    var task := AddKernelTask(g, Apply, labels);
    RawEdgeInterior(lwOld, i - 1, g, task, labels + [Apply], n);
    RawEdgeInterior(lwOld, i, g, task, labels + [Apply], n);
    RawEdgeInterior(lwOld, i + 1, g, task, labels + [Apply], n);
    lwNew[i] := task;
  }

  /** A read of an interior cell, or of a border cell, which was never written: the edges keep
      naming interior cells only. */
  method RawEdgeInterior(lw: array<int>, i: nat, g: DataflowGraph, task: nat, ghost labels: seq<Kernel>,
                         n: nat)
    requires lw.Length == n && Borders(lw) && i < n && -1 <= lw[i] < task < g.n
    requires Sound(g, labels) && InteriorEdges(g, n)
    modifies g
    ensures Sound(g, labels) && InteriorEdges(g, n) && g.n == old(g.n)
  {
    RawEdge1D(lw, i, g, task, labels);
  }

  /** The apply loop of a sweep: `new[i] = f(old[i-1], old[i], old[i+1])`. */
  method PoissonApply(g: DataflowGraph, lwOld: array<int>, lwNew: array<int>, n: nat,
                      ghost labels: seq<Kernel>)
    requires lwOld.Length == n && lwNew.Length == n && lwOld != lwNew
    requires Borders(lwOld) && Borders(lwNew)
    requires Sound(g, labels) && InteriorEdges(g, n)
    requires Writers1D(lwOld, g.n) && Writers1D(lwNew, g.n)
    modifies g, lwNew
    ensures Borders(lwNew) && Sound(g, labels + Rep(Apply, Interior(n))) && InteriorEdges(g, n)
    ensures Writers1D(lwOld, g.n) && Writers1D(lwNew, g.n)
  {
    var i := 1;
    while i < n - 1
      invariant 1 <= i <= Interior(n) + 1
      invariant Borders(lwNew) && Sound(g, labels + Rep(Apply, i - 1)) && InteriorEdges(g, n)
      invariant Writers1D(lwOld, g.n) && Writers1D(lwNew, g.n)
    {
      PoissonApplyTask(g, lwOld, lwNew, n, i, labels + Rep(Apply, i - 1));
      RepSnoc(Apply, i - 1);
      i := i + 1;
    }
  }

  /** `ggen_generate_poisson2d`: `iter` sweeps over a row of n grid points. Every edge carries
      the interior cell it passes through as "x": the border cells never get a writer. */
  method GeneratePoisson2D(n: nat, iter: nat) returns (g: DataflowGraph)
    requires n >= 1
    ensures fresh(g) && Sound(g, PoissonKernels(Interior(n), iter)) && InteriorEdges(g, n)
  {
    g := new DataflowGraph();
    var lwOld := new int[n](_ => -1);
    var lwNew := new int[n](_ => -1);
    for it := 0 to iter
      invariant fresh(g)
      invariant Borders(lwOld) && Borders(lwNew)
      invariant Sound(g, PoissonKernels(Interior(n), it)) && InteriorEdges(g, n)
      invariant Writers1D(lwOld, g.n) && Writers1D(lwNew, g.n)
    {
      ghost var base := PoissonKernels(Interior(n), it);
      PoissonCopy(g, lwOld, lwNew, n, base);
      PoissonApply(g, lwOld, lwNew, n, base + Rep(Copy, Interior(n)));
    }
  }
}
