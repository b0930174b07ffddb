/** multi_copy: copy from a list of sources into one destination. The
    worker count is clamped first; with fewer than two workers the sources
    are copied one after the other on the calling thread. */
module Multi {
  import opened Wrappers
  import opened Api

  /** The most worker threads multi_copy ever starts. */
  const WORKER_MAX: int := 10

  /** _calc_worker_count: the requested count, or the number of sources when
      none is requested, never above the number of sources nor WORKER_MAX.
      A request below the other two bounds (zero or negative included) is
      kept as it is. */
  function CalcWorkerCount(srcCt: nat, workerCount: Option<int>): (r: int)
    ensures r <= srcCt && r <= WORKER_MAX
    ensures workerCount.Some? ==> r <= workerCount.value
    ensures r == srcCt || r == WORKER_MAX || (workerCount.Some? && r == workerCount.value)
  {
    var requested :=
      if workerCount.None? || workerCount.value > srcCt then srcCt else workerCount.value;
    if requested > WORKER_MAX then WORKER_MAX else requested
  }

  /** The clamp is the minimum of its bounds: every common lower bound of
      the number of sources, WORKER_MAX and the request is at most the
      result. */
  lemma CalcWorkerCountIsMin(srcCt: nat, workerCount: Option<int>, c: int)
    requires c <= srcCt && c <= WORKER_MAX
    requires workerCount.Some? ==> c <= workerCount.value
    ensures c <= CalcWorkerCount(srcCt, workerCount)
  {
  }

  /** A request within both bounds is returned unchanged, and so is the
      number of sources when none is requested and there are at most
      WORKER_MAX of them. */
  lemma CalcWorkerCountKeeps(srcCt: nat, workerCount: Option<int>)
    ensures workerCount.Some? && workerCount.value <= srcCt && workerCount.value <= WORKER_MAX
      ==> CalcWorkerCount(srcCt, workerCount) == workerCount.value
    ensures workerCount.None? && srcCt <= WORKER_MAX ==> CalcWorkerCount(srcCt, workerCount) == srcCt
  {
  }

  /** Clamping a clamped count changes nothing. */
  lemma CalcWorkerCountIdempotent(srcCt: nat, workerCount: Option<int>)
    ensures CalcWorkerCount(srcCt, Some(CalcWorkerCount(srcCt, workerCount)))
      == CalcWorkerCount(srcCt, workerCount)
  {
  }

  /** multi_copy runs sequentially exactly when there are fewer than two
      sources or fewer than two workers are requested. */
  lemma SequentialWhen(srcCt: nat, workerCount: Option<int>)
    ensures CalcWorkerCount(srcCt, workerCount) < 2
      <==> srcCt < 2 || (workerCount.Some? && workerCount.value < 2)
  {
  }

  /** Every source's SCAN walk ends within its fuel. */
  predicate ScansEnd(srcs: seq<Source>, fuels: seq<nat>) {
    |fuels| == |srcs| && forall i :: 0 <= i < |srcs| ==> ScanEndsWithin(srcs[i], None, 0, fuels[i])
  }

  lemma ScansEndSlice(srcs: seq<Source>, fuels: seq<nat>, lo: nat, hi: nat)
    requires ScansEnd(srcs, fuels) && lo <= hi <= |srcs|
    ensures ScansEnd(srcs[lo..hi], fuels[lo..hi])
  {
    forall i | 0 <= i < hi - lo
      ensures ScanEndsWithin(srcs[lo..hi][i], None, 0, fuels[lo..hi][i])
    {
      assert srcs[lo..hi][i] == srcs[lo + i] && fuels[lo..hi][i] == fuels[lo + i];
    }
  }

  /** The traces one after the other. */
  function Concat(traces: seq<seq<Event>>): seq<Event>
    decreases |traces|
  {
    if traces == [] then [] else Concat(traces[..|traces| - 1]) + traces[|traces| - 1]
  }

  /** copy of each source with no key pattern, in list order. */
  function SourceTraces(srcs: seq<Source>, fuels: seq<nat>): (r: seq<seq<Event>>)
    requires ScansEnd(srcs, fuels)
    ensures |r| == |srcs|
  {
    seq(|srcs|, i requires 0 <= i < |srcs| => CopyEvents(srcs[i], None, fuels[i]))
  }

  /** The sequential branch of multi_copy: what copy does for each source,
      one source after the other. */
  function SequentialEvents(srcs: seq<Source>, fuels: seq<nat>): seq<Event>
    requires ScansEnd(srcs, fuels)
  {
    Concat(SourceTraces(srcs, fuels))
  }

  lemma {:induction false} ConcatSplit(traces: seq<seq<Event>>, k: nat)
    requires k <= |traces|
    ensures Concat(traces) == Concat(traces[..k]) + Concat(traces[k..])
    decreases |traces|
  {
    if k == |traces| {
      assert traces[..k] == traces;
      assert traces[k..] == [];
    } else {
      var n := |traces| - 1;
      ConcatSplit(traces[..n], k);
      assert traces[..n][..k] == traces[..k];
      var tail := traces[k..];
      assert tail[..|tail| - 1] == traces[..n][k..];
      assert tail[|tail| - 1] == traces[n];
    }
  }

  lemma ConcatSnoc(traces: seq<seq<Event>>, i: nat)
    requires i < |traces|
    ensures Concat(traces[..i + 1]) == Concat(traces[..i]) + traces[i]
  {
    assert traces[..i + 1][..i] == traces[..i];
  }

  lemma {:induction false} ConcatKeys(traces: seq<seq<Event>>)
    ensures forall k :: k in YieldedKeys(Concat(traces)) <==>
      exists i :: 0 <= i < |traces| && k in YieldedKeys(traces[i])
    decreases |traces|
  {
    if traces != [] {
      var n := |traces| - 1;
      ConcatKeys(traces[..n]);
      TraceAppend(Concat(traces[..n]), traces[n]);
      forall k | k in YieldedKeys(Concat(traces))
        ensures exists i :: 0 <= i < |traces| && k in YieldedKeys(traces[i])
      {
        if k !in YieldedKeys(traces[n]) {
          var i :| 0 <= i < n && k in YieldedKeys(traces[..n][i]);
          assert traces[..n][i] == traces[i];
        }
      }
      forall k, i | 0 <= i < |traces| && k in YieldedKeys(traces[i])
        ensures k in YieldedKeys(Concat(traces))
      {
        if i < n {
          assert traces[..n][i] == traces[i];
        }
      }
    }
  }

  /** One source is drained completely before the next one starts: the
      sequential trace of a list is the trace of any prefix followed by the
      trace of the rest. */
  lemma SequentialSplit(srcs: seq<Source>, fuels: seq<nat>, k: nat)
    requires ScansEnd(srcs, fuels) && k <= |srcs|
    ensures ScansEnd(srcs[..k], fuels[..k]) && ScansEnd(srcs[k..], fuels[k..])
    ensures SequentialEvents(srcs, fuels)
      == SequentialEvents(srcs[..k], fuels[..k]) + SequentialEvents(srcs[k..], fuels[k..])
  {
    ScansEndSlice(srcs, fuels, 0, k);
    ScansEndSlice(srcs, fuels, k, |srcs|);
    assert srcs[k..] == srcs[k..|srcs|] && fuels[k..] == fuels[k..|srcs|];
    var traces := SourceTraces(srcs, fuels);
    ConcatSplit(traces, k);
    assert traces[..k] == SourceTraces(srcs[..k], fuels[..k]);
    assert traces[k..] == SourceTraces(srcs[k..], fuels[k..]);
  }

  /** The keys yielded for a list of sources are those yielded for each
      source. */
  lemma SequentialKeys(srcs: seq<Source>, fuels: seq<nat>)
    requires ScansEnd(srcs, fuels)
    ensures forall k :: k in YieldedKeys(SequentialEvents(srcs, fuels)) <==>
      exists i :: 0 <= i < |srcs| && k in YieldedKeys(CopyEvents(srcs[i], None, fuels[i]))
  {
    var traces := SourceTraces(srcs, fuels);
    ConcatKeys(traces);
    assert forall i :: 0 <= i < |srcs| ==> traces[i] == CopyEvents(srcs[i], None, fuels[i]);
  }

  /** An empty source list gives no worker and a run that yields nothing. */
  lemma EmptySources(workerCount: Option<int>)
    ensures CalcWorkerCount(0, workerCount) < 2
    ensures SequentialEvents([], []) == []
  {
  }

  /** One turn of the loop in MultiCopy: the next source's trace is
      appended, and so are the batches it executed. */
  lemma SequentialStep(d0: seq<seq<Command>>, d: seq<seq<Command>>, traces: seq<seq<Event>>, i: nat,
                       events: seq<Event>, srcEvents: seq<Event>)
    requires i < |traces| && srcEvents == traces[i]
    requires events == Concat(traces[..i])
    requires d == d0 + Executions(events) + Executions(srcEvents)
    ensures events + srcEvents == Concat(traces[..i + 1])
    ensures d == d0 + Executions(events + srcEvents)
  {
    TraceAppend(events, srcEvents);
    ConcatSnoc(traces, i);
  }

  /** multi_copy with fewer than two workers: copy of every source in
      list order, each key yielded as copy yields it and every batch
      executed on the one destination. */
  method MultiCopy(srcs: seq<Source>, dst: Destination, workerCount: Option<int>, ghost fuels: seq<nat>)
    returns (events: seq<Event>)
    requires CalcWorkerCount(|srcs|, workerCount) < 2
    requires ScansEnd(srcs, fuels)
    modifies dst
    ensures events == SequentialEvents(srcs, fuels)
    ensures dst.executed == old(dst.executed) + Executions(events)
  {
    ghost var traces := SourceTraces(srcs, fuels);
    events := [];
    for i := 0 to |srcs|
      invariant dst.executed == old(dst.executed) + Executions(events)
      invariant events == Concat(traces[..i])
    {
      var srcEvents := Copy(srcs[i], dst, None, fuels[i]);
      SequentialStep(old(dst.executed), dst.executed, traces, i, events, srcEvents);
      events := events + srcEvents;
    }
    assert traces[..|srcs|] == traces;
  }
}
