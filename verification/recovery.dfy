/**
 Runs of operations against the engine, compared with a plain in-memory FIFO
 queue, and what a fresh engine opened over the same log file recovers.
 */
module Recovery {
  import opened Wrappers
  import opened QueueLog
  import opened PersistentQueue

  /** A mutating call on the queue. */
  datatype Op<E> = AddOp(element: E) | RemoveOp | ClearOp

  /** One call against the engine with every file write succeeding, and the values
      it returned (one per remove). */
  function Exec<E>(q: Queue<E>, op: Op<E>): (r: (Queue<E>, seq<Option<E>>))
  {
    match op
    case AddOp(x) => (Add(q, x, Written).queue, [])
    case RemoveOp =>
      var s := Remove(q, Written);
      (s.queue, [s.result.value])
    case ClearOp => (Clear(q, Written).queue, [])
  }

  /** A run of calls against the engine. */
  function Run<E>(q: Queue<E>, ops: seq<Op<E>>): (r: (Queue<E>, seq<Option<E>>))
    decreases |ops|
  {
    if |ops| == 0 then (q, [])
    else
      var first := Exec(q, ops[0]);
      var rest := Run(first.0, ops[1..]);
      (rest.0, first.1 + rest.1)
  }

  /** The same call against a plain first-in-first-out queue with no log at all. */
  function FifoExec<E>(s: seq<E>, op: Op<E>): (r: (seq<E>, seq<Option<E>>))
  {
    match op
    case AddOp(x) => (s + [x], [])
    case RemoveOp => if |s| == 0 then (s, [None]) else (s[1..], [Some(s[0])])
    case ClearOp => ([], [])
  }

  /** A run of calls against the plain FIFO queue. */
  function FifoRun<E>(s: seq<E>, ops: seq<Op<E>>): (r: (seq<E>, seq<Option<E>>))
    decreases |ops|
  {
    if |ops| == 0 then (s, [])
    else
      var first := FifoExec(s, ops[0]);
      var rest := FifoRun(first.0, ops[1..]);
      (rest.0, first.1 + rest.1)
  }

  /** One engine call keeps the invariant and behaves as the plain FIFO queue does. */
  lemma ExecRefinesFifo<E>(q: Queue<E>, op: Op<E>)
    requires Valid(q)
    ensures Valid(Exec(q, op).0)
    ensures Exec(q, op).0.mirror == FifoExec(q.mirror, op).0
    ensures Exec(q, op).1 == FifoExec(q.mirror, op).1
  {
    match op
    case AddOp(x) => AddPreservesValid(q, x);
    case RemoveOp =>
      if |q.mirror| > 0 {
        RemovePreservesValid(q);
      }
    case ClearOp =>
  }

  /** Any run of engine calls keeps the invariant, and its results and final list are
      those of the plain FIFO queue, whatever the log, counter and interval. */
  lemma {:induction false} RunRefinesFifo<E>(q: Queue<E>, ops: seq<Op<E>>)
    requires Valid(q)
    ensures Valid(Run(q, ops).0)
    ensures Run(q, ops).0.mirror == FifoRun(q.mirror, ops).0
    ensures Run(q, ops).1 == FifoRun(q.mirror, ops).1
    decreases |ops|
  {
    if |ops| > 0 {
      ExecRefinesFifo(q, ops[0]);
      RunRefinesFifo(Exec(q, ops[0]).0, ops[1..]);
    }
  }

  /** After any run of calls, a fresh engine opened over the log file (with any
      interval) recovers exactly the list the old engine held, with a zero counter. */
  lemma ReopenRecoversMirror<E>(q: Queue<E>, ops: seq<Op<E>>, defragmentInterval: int32, w: WriteOutcome)
    requires Valid(q)
    ensures var crashed := Run(q, ops).0;
            Open(Some(crashed.log), defragmentInterval, w)
              == Success(Queue(crashed.mirror, crashed.log, 0, defragmentInterval))
    ensures Open(Some(Run(q, ops).0.log), defragmentInterval, w).value.mirror == FifoRun(q.mirror, ops).0
  {
    RunRefinesFifo(q, ops);
  }

  /** Two valid engines holding the same list return the same values and end with the
      same list on any run, whatever their logs, counters and intervals: compaction
      is invisible to callers. */
  lemma CompactionTransparent<E>(q1: Queue<E>, q2: Queue<E>, ops: seq<Op<E>>)
    requires Valid(q1) && Valid(q2) && q1.mirror == q2.mirror
    ensures Run(q1, ops).1 == Run(q2, ops).1
    ensures Run(q1, ops).0.mirror == Run(q2, ops).0.mirror
  {
    RunRefinesFifo(q1, ops);
    RunRefinesFifo(q2, ops);
  }

  /** Running `a + b` on the plain queue runs `a` and then `b`. */
  lemma {:induction false} FifoRunConcat<E>(s: seq<E>, a: seq<Op<E>>, b: seq<Op<E>>)
    ensures FifoRun(s, a + b).0 == FifoRun(FifoRun(s, a).0, b).0
    ensures FifoRun(s, a + b).1 == FifoRun(s, a).1 + FifoRun(FifoRun(s, a).0, b).1
    decreases |a|
  {
    if |a| == 0 {
      assert a + b == b;
    } else {
      assert (a + b)[0] == a[0];
      assert (a + b)[1..] == a[1..] + b;
      FifoRunConcat(FifoExec(s, a[0]).0, a[1..], b);
    }
  }

  /** One add per element, in order. */
  function Adds<E>(xs: seq<E>): (ops: seq<Op<E>>)
    ensures |ops| == |xs|
    ensures forall i | 0 <= i < |ops| :: ops[i] == AddOp(xs[i])
  {
    seq(|xs|, i requires 0 <= i < |xs| => AddOp(xs[i]))
  }

  /** `n` removes. */
  function Removes<E>(n: nat): (ops: seq<Op<E>>)
    ensures |ops| == n
    ensures forall i | 0 <= i < n :: ops[i] == RemoveOp
  {
    seq(n, i => RemoveOp)
  }

  /** Every element wrapped as a returned value. */
  function Somes<E>(xs: seq<E>): (r: seq<Option<E>>)
    ensures |r| == |xs|
    ensures forall i | 0 <= i < |r| :: r[i] == Some(xs[i])
  {
    seq(|xs|, i requires 0 <= i < |xs| => Some(xs[i]))
  }

  lemma {:induction false} FifoAdds<E>(s: seq<E>, xs: seq<E>)
    ensures FifoRun(s, Adds(xs)) == (s + xs, [])
    decreases |xs|
  {
    if |xs| == 0 {
      assert s + xs == s;
    } else {
      assert Adds(xs)[0] == AddOp(xs[0]);
      assert Adds(xs)[1..] == Adds(xs[1..]);
      FifoAdds(s + [xs[0]], xs[1..]);
      var ops := Adds(xs);
      var rest := FifoRun(s + [xs[0]], ops[1..]);
      assert FifoRun(s, ops) == (rest.0, [] + rest.1);
      assert rest.0 == s + xs;
      assert rest.1 == [];
      assert [] + rest.1 == rest.1;
    }
  }

  lemma {:induction false} FifoRemoves<E>(s: seq<E>, n: nat)
    requires n <= |s|
    ensures FifoRun(s, Removes(n)) == (s[n..], Somes(s[..n]))
    decreases n
  {
    if n == 0 {
      assert Somes(s[..0]) == [];
    } else {
      assert Removes<E>(n)[1..] == Removes(n - 1);
      FifoRemoves(s[1..], n - 1);
      assert s[1..][n - 1..] == s[n..];
      assert [Some(s[0])] + Somes(s[1..][..n - 1]) == Somes(s[..n]);
    }
  }

  /** Adding elements to an empty queue and removing as many returns them in insertion
      order and leaves the queue empty; one more remove returns `None`. */
  lemma AddsThenRemovesIsFifo<E>(q: Queue<E>, xs: seq<E>)
    requires Valid(q) && q.mirror == []
    ensures Run(q, Adds(xs) + Removes(|xs|)).1 == Somes(xs)
    ensures Size(Run(q, Adds(xs) + Removes(|xs|)).0) == 0
    ensures Run(q, Adds(xs) + Removes(|xs| + 1)).1 == Somes(xs) + [None]
  {
    RunRefinesFifo(q, Adds(xs) + Removes(|xs|));
    RunRefinesFifo(q, Adds(xs) + Removes(|xs| + 1));
    FifoRunConcat([], Adds(xs), Removes(|xs|));
    FifoRunConcat([], Adds(xs), Removes(|xs| + 1));
    FifoAdds([], xs);
    assert [] + xs == xs;
    FifoRemoves(xs, |xs|);
    assert Removes<E>(|xs| + 1) == Removes(|xs|) + [RemoveOp];
    FifoRunConcat(xs, Removes(|xs|), [RemoveOp]);
    assert xs[..|xs|] == xs;
  }

  /** Running `a + b` on the engine runs `a` and then `b`. */
  lemma {:induction false} RunConcat<E>(q: Queue<E>, a: seq<Op<E>>, b: seq<Op<E>>)
    ensures Run(q, a + b).0 == Run(Run(q, a).0, b).0
    ensures Run(q, a + b).1 == Run(q, a).1 + Run(Run(q, a).0, b).1
    decreases |a|
  {
    if |a| == 0 {
      assert a + b == b;
    } else {
      assert (a + b)[0] == a[0];
      assert (a + b)[1..] == a[1..] + b;
      RunConcat(Exec(q, a[0]).0, a[1..], b);
    }
  }

  /** One cycle of the recovery test: two adds of `i`, then one remove. */
  function Cycle(i: int): (r: seq<Op<int>>)
  {
    [AddOp(i), AddOp(i), RemoveOp]
  }

  /** The first `k` cycles, with `i` running from 0 to `k - 1`. */
  function Cycles(k: nat): (r: seq<Op<int>>)
  {
    if k == 0 then [] else Cycles(k - 1) + Cycle(k - 1)
  }

  /** Each of 0 .. k-1 twice, in order: everything the first `k` cycles add. */
  function Doubled(k: nat): (r: seq<int>)
    ensures |r| == 2 * k
    ensures forall j | 0 <= j < |r| :: r[j] == j / 2
  {
    seq(2 * k, j => j / 2)
  }

  /** On a plain queue, one cycle appends `i` twice and drops the head. */
  lemma FifoCycle(s: seq<int>, i: int)
    ensures FifoRun(s, Cycle(i)).0 == (s + [i, i])[1..]
  {
    var c := Cycle(i);
    assert c[1..][1..][1..] == [];
    var s1 := s + [i];
    var s2 := s1 + [i];
    assert FifoRun(s2, c[1..][1..]).0 == s2[1..];
    assert FifoRun(s1, c[1..]).0 == s2[1..];
    assert s2 == s + [i, i];
  }

  /** After `k` cycles from empty, the plain queue holds what was added minus its
      first `k` elements. */
  lemma {:induction false} FifoCycles(k: nat)
    ensures FifoRun([], Cycles(k)).0 == Doubled(k)[k..]
    decreases k
  {
    if k > 0 {
      FifoCycles(k - 1);
      FifoRunConcat([], Cycles(k - 1), Cycle(k - 1));
      var s := Doubled(k - 1)[k - 1..];
      FifoCycle(s, k - 1);
      assert (s + [k - 1, k - 1])[1..] == Doubled(k)[k..];
    }
  }

  /** On a valid engine, one cycle either appends its three entries to the log and
      bumps the counter, or, when the counter reaches the interval, rewrites the log
      from the list and resets the counter. */
  lemma CycleOnEngine(q: Queue<int>, i: int)
    requires Valid(q)
    ensures var r := Run(q, Cycle(i)).0;
            && Valid(r)
            && r.mirror == (q.mirror + [i, i])[1..]
            && r.defragmentInterval == q.defragmentInterval
            && (q.removesSinceDefragment + 1 < q.defragmentInterval ==>
                  r.log == q.log + [Record(i), Record(i), Tombstone]
                  && r.removesSinceDefragment == q.removesSinceDefragment + 1)
            && (q.removesSinceDefragment + 1 >= q.defragmentInterval ==>
                  r.log == ListFile(r.mirror) && r.removesSinceDefragment == 0)
  {
    var c := Cycle(i);
    assert c[1..][1..][1..] == [];
    var q1 := Add(q, i, Written).queue;
    AddPreservesValid(q, i);
    var q2 := Add(q1, i, Written).queue;
    AddPreservesValid(q1, i);
    var q3 := Remove(q2, Written).queue;
    RemovePreservesValid(q2);
    assert Run(q2, c[1..][1..]).0 == q3;
    assert Run(q1, c[1..]).0 == q3;
    assert Run(q, c).0 == q3;
    assert q.mirror + [i] + [i] == q.mirror + [i, i];
    assert q.log + [Record(i)] + [Record(i)] + [Tombstone] == q.log + [Record(i), Record(i), Tombstone];
  }

  /** A fresh engine over no file, with defragment interval 9. */
  function Fresh9(): (q: Queue<int>)
    ensures Valid(q) && q.mirror == [] && q.log == []
  {
    Open(None, 9, Written).value
  }

  /** Up to eight cycles on a fresh interval-9 engine only append to the log. */
  lemma {:induction false} EarlyCyclesOnlyAppend(k: nat)
    requires k <= 8
    ensures var r := Run(Fresh9(), Cycles(k)).0;
            Valid(r) && r.defragmentInterval == 9
            && r.removesSinceDefragment as int == k && |r.log| == 3 * k
    decreases k
  {
    if k > 0 {
      EarlyCyclesOnlyAppend(k - 1);
      RunConcat(Fresh9(), Cycles(k - 1), Cycle(k - 1));
      CycleOnEngine(Run(Fresh9(), Cycles(k - 1)).0, k - 1);
    }
  }

  /** The ninth cycle on a fresh interval-9 engine brings the counter to the interval:
      the log is rewritten from the nine elements then queued. */
  lemma NinthCycleDefragments()
    ensures var q9 := Run(Fresh9(), Cycles(9)).0;
            && Valid(q9) && q9.defragmentInterval == 9
            && q9.removesSinceDefragment == 0
            && q9.mirror == Doubled(9)[9..]
            && q9.log == ListFile(q9.mirror)
  {
    EarlyCyclesOnlyAppend(8);
    RunConcat(Fresh9(), Cycles(8), Cycle(8));
    CycleOnEngine(Run(Fresh9(), Cycles(8)).0, 8);
    RunRefinesFifo(Fresh9(), Cycles(9));
    FifoCycles(9);
  }

  /** The elements still queued after ten cycles. */
  lemma TenCyclesLeave()
    ensures Doubled(10)[10..] == [5, 5, 6, 6, 7, 7, 8, 8, 9, 9]
  {
    var d := Doubled(10)[10..];
    assert |d| == 10;
    assert forall j | 0 <= j < 10 :: d[j] == (10 + j) / 2;
  }

  /** The tenth cycle appends its three entries to the compacted log and bumps the
      counter to 1. */
  lemma TenthCycleAppends()
    ensures var q10 := Run(Fresh9(), Cycles(10)).0;
            && Valid(q10)
            && q10.removesSinceDefragment == 1
            && q10.log == ListFile(Doubled(9)[9..]) + [Record(9), Record(9), Tombstone]
            && q10.mirror == Doubled(10)[10..]
  {
    NinthCycleDefragments();
    var q9 := Run(Fresh9(), Cycles(9)).0;
    RunConcat(Fresh9(), Cycles(9), Cycle(9));
    CycleOnEngine(q9, 9);
    RunRefinesFifo(Fresh9(), Cycles(10));
    FifoCycles(10);
  }

  /** The recovery test: with interval 9, ten cycles of (add, add, remove) defragment
      the log once, during the ninth remove, so the file ends with the nine-record
      compacted list followed by the tenth cycle's three entries; a fresh engine
      opened over it holds exactly the ten elements still queued. */
  lemma RecoveryAfterTenCycles(w: WriteOutcome)
    ensures var crashed := Run(Fresh9(), Cycles(10)).0;
            && crashed.removesSinceDefragment == 1
            && |crashed.log| == 12
            && Tombstones(crashed.log) == 1
            && Open(Some(crashed.log), 10, w).Success?
            && Open(Some(crashed.log), 10, w).value.mirror == [5, 5, 6, 6, 7, 7, 8, 8, 9, 9]
  {
    TenthCycleAppends();
    var crashed := Run(Fresh9(), Cycles(10)).0;
    var compacted := ListFile(Doubled(9)[9..]);
    var tail := [Record(9), Record(9), Tombstone];
    ListFileRoundTrip(Doubled(9)[9..]);
    TombstonesConcat(compacted, tail);
    assert Tombstones(tail) == 1;
    TenCyclesLeave();
  }

  /** The number of adds among `ops`. */
  function AddCount<E>(ops: seq<Op<E>>): (r: nat)
    decreases |ops|
  {
    if |ops| == 0 then 0 else (if ops[0].AddOp? then 1 else 0) + AddCount(ops[1..])
  }

  /** The number of returned values that are elements rather than `None`. */
  function Returned<E>(outs: seq<Option<E>>): (r: nat)
    decreases |outs|
  {
    if |outs| == 0 then 0 else (if outs[0].Some? then 1 else 0) + Returned(outs[1..])
  }

  lemma {:induction false} ReturnedConcat<E>(a: seq<Option<E>>, b: seq<Option<E>>)
    ensures Returned(a + b) == Returned(a) + Returned(b)
    decreases |a|
  {
    if |a| == 0 {
      assert a + b == b;
    } else {
      assert (a + b)[0] == a[0];
      assert (a + b)[1..] == a[1..] + b;
      ReturnedConcat(a[1..], b);
    }
  }

  lemma {:induction false} FifoSizeCounts<E>(s: seq<E>, ops: seq<Op<E>>)
    requires forall i | 0 <= i < |ops| :: !ops[i].ClearOp?
    ensures |FifoRun(s, ops).0| + Returned(FifoRun(s, ops).1) == |s| + AddCount(ops)
    decreases |ops|
  {
    if |ops| > 0 {
      var first := FifoExec(s, ops[0]);
      FifoSizeCounts(first.0, ops[1..]);
      ReturnedConcat(first.1, FifoRun(first.0, ops[1..]).1);
    }
  }

  /** Without clears, the size after a run is the size before, plus the adds, minus
      the removes that returned an element. */
  lemma SizeCountsCalls<E>(q: Queue<E>, ops: seq<Op<E>>)
    requires Valid(q)
    requires forall i | 0 <= i < |ops| :: !ops[i].ClearOp?
    ensures Size(Run(q, ops).0) == Size(q) + AddCount(ops) - Returned(Run(q, ops).1)
    ensures IsEmpty(Run(q, ops).0) <==> Size(q) + AddCount(ops) == Returned(Run(q, ops).1)
  {
    RunRefinesFifo(q, ops);
    FifoSizeCounts(q.mirror, ops);
  }

  /** A failed remove leaves the log one delete marker short, and a later successful
      remove does not make up for it: from `[a, b]`, a failed remove, a successful
      `add(x)` and a successful remove (returning `b`) leave the engine holding `[x]`
      while its log replays to `[b, x]`, so reopening brings back the element that the
      acknowledged remove returned. */
  lemma AcknowledgedRemoveUndoneAfterFailure<E>(a: E, b: E, x: E)
    ensures var q0 := Queue([a, b], [Record(a), Record(b)], 0, DefaultDefragmentInterval);
            var s1 := Remove(q0, WriteFailed);
            var s2 := Add(s1.queue, x, Written);
            var s3 := Remove(s2.queue, Written);
            && Valid(q0)
            && s1.result == Failure(IOError)
            && s2.result.Success?
            && s3.result == Success(Some(b))
            && s3.queue.mirror == [x]
            && s3.queue.log == [Record(a), Record(b), Record(x), Tombstone]
            && Replay(s3.queue.log) == Some([b, x])
  {
    var q0 := Queue([a, b], [Record(a), Record(b)], 0, DefaultDefragmentInterval);
    assert ListFile([a, b]) == [Record(a), Record(b)];
    ListFileRoundTrip([a, b]);
    assert Valid(q0);
    var s1 := Remove(q0, WriteFailed);
    assert Inc32(0) == 1;
    assert s1.queue == Queue([b], q0.log, 1, DefaultDefragmentInterval);
    var s2 := Add(s1.queue, x, Written);
    assert s2.queue.log == [Record(a), Record(b), Record(x)];
    var s3 := Remove(s2.queue, Written);
    assert Inc32(1) == 2;
    assert [b] + [x] == [b, x];
    assert s3.queue.log == [Record(a), Record(b), Record(x), Tombstone];
    ReplayAppend(q0.log, Record(x));
    assert [a, b] + [x] == [a, b, x];
    ReplayAppend(s2.queue.log, Tombstone);
    assert [a, b, x][1..] == [b, x];
  }

  /** A failed clear empties the list but leaves every cleared element in the log:
      from `[a]`, a failed clear, a successful `add(y)` and a successful remove
      (returning `y`) leave the engine empty, while its log replays to `[y]`: the
      delete marker used up `a`, and the element the acknowledged remove returned
      comes back on reopening. */
  lemma FailedClearResurrects<E>(a: E, y: E)
    ensures var q0 := Queue([a], [Record(a)], 0, DefaultDefragmentInterval);
            var s1 := Clear(q0, WriteFailed);
            var s2 := Add(s1.queue, y, Written);
            var s3 := Remove(s2.queue, Written);
            && Valid(q0)
            && s1.result == Failure(IOError)
            && s2.result.Success?
            && s3.result == Success(Some(y))
            && s3.queue.mirror == []
            && s3.queue.log == [Record(a), Record(y), Tombstone]
            && Replay(s3.queue.log) == Some([y])
  {
    var q0 := Queue([a], [Record(a)], 0, DefaultDefragmentInterval);
    assert ListFile([a]) == [Record(a)];
    ListFileRoundTrip([a]);
    assert Valid(q0);
    var s1 := Clear(q0, WriteFailed);
    assert s1.queue == Queue([], [Record(a)], 0, DefaultDefragmentInterval);
    var s2 := Add(s1.queue, y, Written);
    assert [] + [y] == [y];
    assert s2.queue.log == [Record(a), Record(y)];
    var s3 := Remove(s2.queue, Written);
    assert Inc32(0) == 1;
    assert s3.queue.log == [Record(a), Record(y), Tombstone];
    ReplayAppend([Record(a)], Record(y));
    assert [a] + [y] == [a, y];
    ReplayAppend(s2.queue.log, Tombstone);
    assert [a, y][1..] == [y];
  }
}
