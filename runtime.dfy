// The pieces of `rekall/runtime.py` that decide what a parallel query
// computes: how the inputs are cut into tasks, how a failed task is recorded,
// and how two per-domain results with disjoint domains are combined. The
// worker pools, futures and progress bar themselves are not part of this model.

module Runtime {
  import opened Common
  import opened IntervalSet3DModel
  import opened Dicts
  import opened DomainCollection
  import Seqs

  // -------------------------------------------------------------------
  // _get_callback

  /**
   * The callback a task reports to: the inputs of a task that failed are
   * added to `argsWithErr`; a task that succeeded advances the progress
   * count, when there is one, by its number of inputs.
   */
  class ErrorCollector<T> {
    /** `args_with_err`, the list the callback extends. */
    var argsWithErr: seq<T>
    /** How far `pbar` has been advanced; `None` when there is no progress bar. */
    var progress: Option<nat>

    constructor (hasProgress: bool)
      ensures argsWithErr == []
      ensures progress == if hasProgress then Some(0) else None
    {
      argsWithErr := [];
      progress := if hasProgress then Some(0) else None;
    }

    /** `callback(task_args, err)`, `err == None` meaning the task succeeded. */
    method Callback<E>(taskArgs: seq<T>, err: Option<E>)
      modifies this
      ensures err.None? ==> argsWithErr == old(argsWithErr)
      ensures err.None? && old(progress).Some? ==> progress == Some(old(progress).value + |taskArgs|)
      ensures err.None? && old(progress).None? ==> progress == None
      ensures err.Some? ==> argsWithErr == old(argsWithErr) + taskArgs
      ensures err.Some? ==> progress == old(progress)
    {
      if err.None? {
        if progress.Some? {
          progress := Some(progress.value + |taskArgs|);
        }
      } else {
        argsWithErr := argsWithErr + taskArgs;
      }
    }
  }

  // -------------------------------------------------------------------
  // _create_tasks

  /**
   * `int(ceil(total / chunksize))` for a non-zero chunk size: the number of
   * tasks, zero or negative when the chunk size is negative.
   */
  function NumTasks(total: nat, chunksize: int): (n: int)
    requires chunksize != 0
    ensures chunksize > 0 ==> n >= 0 && chunksize * (n - 1) < total <= chunksize * n
    ensures chunksize < 0 ==> n <= 0
  {
    if chunksize > 0 then
      var q := (total + chunksize - 1) / chunksize;
      assert chunksize * q <= total + chunksize - 1 < chunksize * (q + 1);
      q
    else
      -(total / -chunksize)
  }

  /**
   * `_create_tasks(args, chunksize)`: the inputs cut into consecutive chunks
   * of `chunksize` elements, the last one possibly shorter. A zero chunk size
   * fails with a division by zero; a negative one gives no task at all.
   */
  method CreateTasks<T>(args: seq<T>, chunksize: int) returns (r: Result<seq<seq<T>>>)
    ensures r.Err? <==> chunksize == 0
    ensures r.Err? ==> r.error == DivisionByZero
    ensures chunksize < 0 ==> r == Ok([])
    ensures chunksize > 0 ==> r.Ok? && Seqs.Flatten(r.value) == args
    ensures chunksize > 0 ==> r.Ok? && |r.value| == NumTasks(|args|, chunksize)
    ensures chunksize > 0 ==> r.Ok? && forall i :: 0 <= i < |r.value| ==> 0 < |r.value[i]| <= chunksize
    ensures chunksize > 0 ==> r.Ok? && forall i :: 0 <= i < |r.value| - 1 ==> |r.value[i]| == chunksize
  {
    if chunksize == 0 {
      return Err(DivisionByZero);
    }
    var total := |args|;
    var numTasks := NumTasks(total, chunksize);
    var tasks: seq<seq<T>> := [];
    ghost var covered := 0;
    var taskI := 0;
    while taskI < numTasks
      invariant 0 <= taskI
      invariant numTasks <= 0 ==> taskI == 0 && tasks == [] && covered == 0
      invariant numTasks > 0 ==> TasksSoFar(args, chunksize, numTasks, taskI, tasks, covered)
      decreases numTasks - taskI
    {
      var start := chunksize * taskI;
      var end := if total < start + chunksize then total else start + chunksize;
      TaskStep(args, chunksize, numTasks, taskI, tasks, covered);
      tasks := tasks + [args[start..end]];
      covered := end;
      taskI := taskI + 1;
    }
    if chunksize > 0 {
      assert args[..covered] == args;
    }
    return Ok(tasks);
  }

  /** What the loop of `_create_tasks` has built after `taskI` rounds. */
  ghost predicate TasksSoFar<T>(args: seq<T>, chunksize: int, numTasks: int, taskI: int, tasks: seq<seq<T>>, covered: int)
  {
    && chunksize > 0 && 0 <= taskI <= numTasks && |tasks| == taskI
    && 0 <= covered <= |args|
    && (taskI < numTasks ==> covered == chunksize * taskI)
    && (taskI == numTasks ==> covered == |args|)
    && Seqs.Flatten(tasks) == args[..covered]
    && (forall i :: 0 <= i < taskI ==> 0 < |tasks[i]| <= chunksize)
    && (forall i :: 0 <= i < taskI - 1 ==> |tasks[i]| == chunksize)
    && (0 < taskI < numTasks ==> |tasks[taskI - 1]| == chunksize)
  }

  /** One round of the loop of `_create_tasks` keeps what it has built consistent. */
  lemma TaskStep<T>(args: seq<T>, chunksize: int, numTasks: int, taskI: int, tasks: seq<seq<T>>, covered: int)
    requires chunksize > 0
    requires numTasks == NumTasks(|args|, chunksize)
    requires TasksSoFar(args, chunksize, numTasks, taskI, tasks, covered)
    requires taskI < numTasks
    ensures var start := chunksize * taskI;
            var end := if |args| < start + chunksize then |args| else start + chunksize;
            0 <= start <= end <= |args| &&
            TasksSoFar(args, chunksize, numTasks, taskI + 1, tasks + [args[start..end]], end)
  {
    var start := chunksize * taskI;
    TaskBounds(|args|, chunksize, numTasks, taskI);
    var end := if |args| < start + chunksize then |args| else start + chunksize;
    assert Seqs.Flatten(tasks + [args[start..end]]) == Seqs.Flatten(tasks) + args[start..end] by {
      assert (tasks + [args[start..end]])[..|tasks|] == tasks;
    }
    assert args[..start] + args[start..end] == args[..end];
  }

  /** Every task starts inside the inputs, and only the last one reaches their end. */
  lemma TaskBounds(total: nat, chunksize: int, numTasks: int, i: int)
    requires chunksize > 0 && numTasks == NumTasks(total, chunksize)
    requires 0 <= i < numTasks
    ensures 0 <= chunksize * i < total
    ensures chunksize * (i + 1) == chunksize * i + chunksize
    ensures total <= chunksize * i + chunksize <==> i + 1 == numTasks
  {
    assert chunksize * (i + 1) == chunksize * i + chunksize;
    MulMono(chunksize, 0, i);
    if i + 1 < numTasks {
      MulMono(chunksize, i + 1, numTasks - 1);
    } else {
      assert chunksize * (numTasks - 1) == chunksize * i;
    }
  }

  lemma MulMono(c: int, a: int, b: int)
    requires c > 0 && a <= b
    ensures c * a <= c * b
  {
    assert c * b - c * a == c * (b - a);
  }

  // -------------------------------------------------------------------
  // disjoint_domain_combiner

  /**
   * `disjoint_domain_combiner(result1, result2)` on the two results' grouped
   * intervals: a runtime exception when a domain is in both; otherwise
   * `{**d1, **d2}`, every domain keeping the set of the result it came from.
   */
  function DisjointDomainCombiner<K(==,!new), P>(d1: Dict<K, IntervalSet3D<P>>, d2: Dict<K, IntervalSet3D<P>>)
    : (r: Result<Dict<K, IntervalSet3D<P>>>)
    requires d1.Valid() && d2.Valid()
    ensures r.Err? <==> exists k :: k in d1.entries && k in d2.entries
    ensures r.Err? ==> r.error == RuntimeFailure
    ensures r.Ok? ==> r.value.Valid() && r.value.keys == d1.keys + d2.keys
    ensures r.Ok? ==> forall k :: k in r.value.entries <==> k in d1.entries || k in d2.entries
    ensures r.Ok? ==> forall k :: k in d1.entries ==> r.value.entries[k] == d1.entries[k]
    ensures r.Ok? ==> forall k :: k in d2.entries ==> r.value.entries[k] == d2.entries[k]
  {
    if d1.entries.Keys !! d2.entries.Keys then
      Seqs.FilterAllPass(d2.keys, NotIn(d1));
      Ok(Dicts.Merge(d1, d2))
    else
      Err(RuntimeFailure)
  }

  /** The intervals under a list of keys only depend on the sets under those keys. */
  lemma {:induction false} AllIntervalsAgree<K(!new), P>(d: Dict<K, IntervalSet3D<P>>, e: Dict<K, IntervalSet3D<P>>, ks: seq<K>)
    requires forall k :: k in ks ==> k in d.entries && k in e.entries && d.entries[k] == e.entries[k]
    ensures AllIntervals(d, ks) == AllIntervals(e, ks)
  {
    if ks != [] {
      AllIntervalsAgree(d, e, ks[..|ks| - 1]);
    }
  }

  /** Concatenating over two lists of keys is concatenating over each. */
  lemma {:induction false} AllIntervalsAppend<K(!new), P>(d: Dict<K, IntervalSet3D<P>>, a: seq<K>, b: seq<K>)
    requires forall k :: k in a + b ==> k in d.entries
    ensures AllIntervals(d, a + b) == AllIntervals(d, a) + AllIntervals(d, b)
    decreases |b|
  {
    if b != [] {
      var n := |b| - 1;
      assert (a + b)[..|a + b| - 1] == a + b[..n];
      AllIntervalsAppend(d, a, b[..n]);
    } else {
      assert a + b == a;
    }
  }

  /**
   * Combining two results with disjoint domains loses no interval: the
   * combined result flattens to the first result's intervals followed by the
   * second's.
   */
  lemma CombinedFlattens<K(!new), P>(d1: Dict<K, IntervalSet3D<P>>, d2: Dict<K, IntervalSet3D<P>>)
    requires d1.Valid() && d2.Valid()
    requires DisjointDomainCombiner(d1, d2).Ok?
    ensures var c := DisjointDomainCombiner(d1, d2).value;
            AllIntervals(c, c.keys) == AllIntervals(d1, d1.keys) + AllIntervals(d2, d2.keys)
  {
    var c := DisjointDomainCombiner(d1, d2).value;
    AllIntervalsAppend(c, d1.keys, d2.keys);
    AllIntervalsAgree(c, d1, d1.keys);
    AllIntervalsAgree(c, d2, d2.keys);
  }
}
