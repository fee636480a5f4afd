/**
 The persistent queue engine: an in-memory list (the mirror), the log file it
 is kept consistent with, and the count of removals since the log was last
 defragmented. Each mutating operation is a state transition; the outcome of
 every durable file write is a parameter, since file I/O is outside the model.
 */
module PersistentQueue {
  import opened Wrappers
  import opened QueueLog

  /** Java's 32-bit `int`. */
  newtype int32 = x: int | -0x8000_0000 <= x < 0x8000_0000

  /** Java's `x + 1` on an `int`, wrapping around at the top of the range. */
  function Inc32(x: int32): (r: int32)
  {
    if x == 0x7fff_ffff then -0x8000_0000 else x + 1
  }

  /** Number of removals between defragmentations when none is given. */
  const DefaultDefragmentInterval: int32 := 50

  /** What the file system did with a durable write. */
  datatype WriteOutcome = Written | WriteFailed

  /** The exceptions the engine can raise. `TombstoneOnEmpty` is the unchecked
      exception of removing the head of an empty list while replaying a log. */
  datatype Fault = IOError | TombstoneOnEmpty

  /** The engine's state: the mirror, the contents of the log file, the removal
      counter and the configured defragment interval. */
  datatype Queue<E> = Queue(mirror: seq<E>, log: seq<Entry<E>>,
                            removesSinceDefragment: int32, defragmentInterval: int32)

  /** The state after an operation, together with what the operation returned or threw. */
  datatype Step<E, T> = Step(queue: Queue<E>, result: Result<T, Fault>)

  /** The engine's consistency invariant: replaying the log file gives exactly the
      mirror, and the counter lies below the interval (or is zero). */
  ghost predicate Valid<E>(q: Queue<E>)
  {
    && Replay(q.log) == Some(q.mirror)
    && 0 <= q.removesSinceDefragment
    && (q.removesSinceDefragment == 0 || q.removesSinceDefragment < q.defragmentInterval)
  }

  /** Appends one entry to the log file. */
  function AppendEntryToFile<E>(log: seq<Entry<E>>, entry: Entry<E>, w: WriteOutcome)
    : (r: Result<seq<Entry<E>>, Fault>)
    ensures w == Written ==> r == Success(log + [entry])
    ensures w == WriteFailed ==> r == Failure(IOError)
  {
    if w == Written then Success(log + [entry]) else Failure(IOError)
  }

  /** Rewrites the log file from the list: writes a temporary file and moves it over
      the original, modelled as one atomic replacement. On failure the original file
      is untouched. */
  function DefragmentFile<E>(list: seq<E>, w: WriteOutcome): (r: Result<seq<Entry<E>>, Fault>)
    ensures r.Success? <==> w == Written
    ensures r.Success? ==> Tombstones(r.value) == 0 && Replay(r.value) == Some(list)
    ensures r.Failure? ==> r.error == IOError
  {
    ListFileRoundTrip(list);
    if w == Written then Success(ListFile(list)) else Failure(IOError)
  }

  /** Opens a queue over the log file `file` (`None` when no file exists). A missing
      file is created empty; an existing one is replayed into a cleared list. */
  function Open<E>(file: Option<seq<Entry<E>>>, defragmentInterval: int32, w: WriteOutcome)
    : (r: Result<Queue<E>, Fault>)
    ensures file.None? ==> (r.Success? <==> w == Written)
    ensures file.None? && r.Success? ==> r.value.mirror == [] && r.value.log == []
    ensures file.None? && r.Failure? ==> r.error == IOError
    ensures file.Some? ==> (r.Success? <==> Replay(file.value).Some?)
    ensures file.Some? && r.Failure? ==> r.error == TombstoneOnEmpty
    ensures file.Some? && r.Success? ==> r.value.log == file.value && Replay(file.value) == Some(r.value.mirror)
    ensures r.Success? ==> Valid(r.value) && r.value.removesSinceDefragment == 0
    ensures r.Success? ==> r.value.defragmentInterval == defragmentInterval
  {
    match file
    case None =>
      if w == Written then Success(Queue([], [], 0, defragmentInterval)) else Failure(IOError)
    case Some(log) =>
      match Replay(log)
      case None => Failure(TombstoneOnEmpty)
      case Some(list) => Success(Queue(list, log, 0, defragmentInterval))
  }

  /** Opens a queue with the default defragment interval. */
  function OpenDefault<E>(file: Option<seq<Entry<E>>>, w: WriteOutcome): (r: Result<Queue<E>, Fault>)
    ensures r == Open(file, 50, w)
    ensures r.Success? ==> r.value.defragmentInterval == 50 && Valid(r.value)
  {
    Open(file, DefaultDefragmentInterval, w)
  }

  /** Replays the log one entry at a time into a cleared list, as the file reader does. */
  method ReadStateFromFile<E>(log: seq<Entry<E>>) returns (r: Result<seq<E>, Fault>)
    ensures r.Success? <==> NoOverDeletion(0, log)
    ensures r.Success? ==> Replay(log) == Some(r.value)
    ensures r.Success? ==>
              Tombstones(log) <= |Payloads(log)| && r.value == Payloads(log)[Tombstones(log)..]
    ensures r.Failure? ==> r.error == TombstoneOnEmpty
  {
    ReplayIsSurvivors(log);
    var list: seq<E> := [];
    var i := 0;
    while i < |log|
      invariant 0 <= i <= |log|
      invariant ReplayFrom(list, log[i..]) == Replay(log)
    {
      assert log[i..][0] == log[i];
      assert log[i..][1..] == log[i + 1..];
      if log[i].Tombstone? {
        if |list| == 0 {
          return Failure(TombstoneOnEmpty);
        }
        list := list[1..];
      } else {
        list := list + [log[i].element];
      }
      i := i + 1;
    }
    return Success(list);
  }

  /** Empties the list, then forces the log file to be rewritten and resets the counter. */
  function Clear<E>(q: Queue<E>, w: WriteOutcome): (s: Step<E, ()>)
    ensures s.queue.mirror == []
    ensures s.queue.defragmentInterval == q.defragmentInterval
    ensures w == Written ==> s.result.Success? && s.queue.log == [] && s.queue.removesSinceDefragment == 0
    ensures w == Written ==> Valid(s.queue)
    ensures w == WriteFailed ==>
              s.result == Failure(IOError) && s.queue.log == q.log
              && s.queue.removesSinceDefragment == q.removesSinceDefragment
  {
    match DefragmentFile([], w)
    case Success(log) => Step(q.(mirror := [], log := log, removesSinceDefragment := 0), Success(()))
    case Failure(f) => Step(q.(mirror := []), Failure(f))
  }

  /** True exactly when the queue holds no element. */
  function IsEmpty<E>(q: Queue<E>): (r: bool)
    ensures r <==> Size(q) == 0
  {
    |q.mirror| == 0
  }

  /** The number of elements in the queue. */
  function Size<E>(q: Queue<E>): (r: nat)
  {
    |q.mirror|
  }

  /** The head of the queue, or `None` when the queue is empty; changes nothing. */
  function Peek<E>(q: Queue<E>): (r: Option<E>)
    ensures r.None? <==> IsEmpty(q)
    ensures r.Some? ==> [r.value] + q.mirror[1..] == q.mirror
    ensures Remove(q, Written).result == Success(r)
  {
    if |q.mirror| != 0 then Some(q.mirror[0]) else None
  }

  /** Removes and returns the head. The head leaves the list before anything is
      written; the counter is bumped, and then either the log is defragmented and
      the counter reset, or a delete marker is appended. */
  function Remove<E>(q: Queue<E>, w: WriteOutcome): (s: Step<E, Option<E>>)
    ensures |q.mirror| == 0 ==> s == Step(q, Success(None))
    ensures |q.mirror| > 0 ==>
              && s.queue.mirror == q.mirror[1..]
              && s.queue.defragmentInterval == q.defragmentInterval
              && (s.result.Success? <==> w == Written)
              && (s.result.Success? ==> s.result.value == Some(q.mirror[0]))
              && (s.result.Failure? ==> s.result.error == IOError)
  {
    if |q.mirror| == 0 then Step(q, Success(None))
    else
      var head := q.mirror[0];
      var rest := q.mirror[1..];
      var removes := Inc32(q.removesSinceDefragment);
      if removes >= q.defragmentInterval then
        match DefragmentFile(rest, w)
        case Success(log) =>
          Step(q.(mirror := rest, log := log, removesSinceDefragment := 0), Success(Some(head)))
        case Failure(f) =>
          Step(q.(mirror := rest, removesSinceDefragment := removes), Failure(f))
      else
        match AppendEntryToFile(q.log, Tombstone, w)
        case Success(log) =>
          Step(q.(mirror := rest, log := log, removesSinceDefragment := removes), Success(Some(head)))
        case Failure(f) =>
          Step(q.(mirror := rest, removesSinceDefragment := removes), Failure(f))
  }

  /** Adds an element at the tail: the record is written to the log first, and the
      list is extended only once that write succeeded. */
  function Add<E>(q: Queue<E>, element: E, w: WriteOutcome): (s: Step<E, ()>)
    ensures w == Written ==>
              && s.result.Success?
              && s.queue.log == q.log + [Record(element)]
              && s.queue.mirror == q.mirror + [element]
              && s.queue.removesSinceDefragment == q.removesSinceDefragment
              && s.queue.defragmentInterval == q.defragmentInterval
    ensures w == WriteFailed ==> s == Step(q, Failure(IOError))
  {
    match AppendEntryToFile(q.log, Record(element), w)
    case Success(log) => Step(q.(mirror := q.mirror + [element], log := log), Success(()))
    case Failure(f) => Step(q, Failure(f))
  }

  // ---------------------------------------------------------------------------
  // Invariant preservation and the behaviour of each operation on a valid queue.

  /** A successful add keeps the log and the mirror consistent. */
  lemma AddPreservesValid<E>(q: Queue<E>, element: E)
    requires Valid(q)
    ensures Valid(Add(q, element, Written).queue)
  {
    ReplayAppend(q.log, Record(element));
  }

  /** Under the invariant, bumping the removal counter never wraps around. */
  lemma CounterNeverWraps<E>(q: Queue<E>)
    requires Valid(q)
    ensures Inc32(q.removesSinceDefragment) as int == q.removesSinceDefragment as int + 1
    ensures Inc32(q.removesSinceDefragment) >= 1
  {
  }

  /** A successful remove from a non-empty valid queue returns the old head, keeps the
      rest, and keeps the log consistent: it either rewrites the log from the remaining
      list and resets the counter, or appends one delete marker and leaves the counter
      below the interval. */
  lemma RemovePreservesValid<E>(q: Queue<E>)
    requires Valid(q) && |q.mirror| > 0
    ensures var s := Remove(q, Written);
            && s.result == Success(Some(q.mirror[0]))
            && s.queue.mirror == q.mirror[1..]
            && Valid(s.queue)
    ensures var s := Remove(q, Written);
            q.removesSinceDefragment + 1 >= q.defragmentInterval ==>
              s.queue.log == ListFile(q.mirror[1..]) && s.queue.removesSinceDefragment == 0
    ensures var s := Remove(q, Written);
            q.removesSinceDefragment + 1 < q.defragmentInterval ==>
              && s.queue.log == q.log + [Tombstone]
              && s.queue.removesSinceDefragment == q.removesSinceDefragment + 1
              && s.queue.removesSinceDefragment < s.queue.defragmentInterval
  {
    CounterNeverWraps(q);
    ReplayAppend(q.log, Tombstone);
    ListFileRoundTrip(q.mirror[1..]);
  }

  /** When the durable step of a remove fails, the element has already left the list
      but the log still holds it: reopening the file would bring it back at the head.
      The counter stays bumped; `RetriedDefragmentationHeals` shows what that means for
      the next remove after a failed defragmentation. */
  lemma RemoveFailureLeavesLogBehind<E>(q: Queue<E>)
    requires Valid(q) && |q.mirror| > 0
    ensures var s := Remove(q, WriteFailed);
            && s.result == Failure(IOError)
            && s.queue.log == q.log
            && s.queue.removesSinceDefragment as int == q.removesSinceDefragment as int + 1
            && Replay(s.queue.log) == Some([q.mirror[0]] + s.queue.mirror)
  {
    CounterNeverWraps(q);
    assert [q.mirror[0]] + q.mirror[1..] == q.mirror;
  }

  /** The size is the number of records in the log minus the number of delete markers. */
  lemma SizeMatchesLog<E>(q: Queue<E>)
    requires Valid(q)
    ensures Size(q) == |Payloads(q.log)| - Tombstones(q.log)
    ensures q.mirror == Payloads(q.log)[Tombstones(q.log)..]
  {
    ReplayIsSurvivors(q.log);
  }

  /** Opening an existing file fails exactly when some delete marker in it has no
      live element left to remove. */
  lemma OpenRejectsOverDeletion<E>(log: seq<Entry<E>>, defragmentInterval: int32, w: WriteOutcome)
    ensures Open(Some(log), defragmentInterval, w).Failure? <==> !NoOverDeletion(0, log)
  {
    ReplayIsSurvivors(log);
  }

  /** After a failed defragmentation the counter is left at or above the interval, so
      the next non-empty remove defragments again; when that succeeds, it returns the
      next element and the engine is consistent once more. This needs the interval to
      be below the largest `int`, or the next increment wraps. */
  lemma RetriedDefragmentationHeals<E>(q: Queue<E>)
    requires Valid(q) && |q.mirror| >= 2
    requires q.defragmentInterval < 0x7fff_ffff
    requires q.removesSinceDefragment + 1 >= q.defragmentInterval
    ensures var failed := Remove(q, WriteFailed).queue;
            var retried := Remove(failed, Written);
            && failed.removesSinceDefragment + 1 >= failed.defragmentInterval
            && retried.result == Success(Some(q.mirror[1]))
            && retried.queue.mirror == q.mirror[2..]
            && retried.queue.log == ListFile(q.mirror[2..])
            && Valid(retried.queue)
  {
    CounterNeverWraps(q);
    ListFileRoundTrip(q.mirror[2..]);
    assert q.mirror[1..][1..] == q.mirror[2..];
  }

  /** With the interval at the largest `int`, a failed defragmentation leaves the
      counter at that value; the next increment wraps to the smallest `int`, so the
      retry appends a delete marker instead, and the log stays one marker short. */
  lemma RetrySkippedAtLargestInterval<E>(a: E, b: E, c: E)
    ensures var q := Queue([a, b, c], [Record(a), Record(b), Record(c)], 0x7fff_fffe, 0x7fff_ffff);
            var failed := Remove(q, WriteFailed).queue;
            var retried := Remove(failed, Written);
            && Valid(q)
            && failed.removesSinceDefragment == 0x7fff_ffff
            && retried.result == Success(Some(b))
            && retried.queue.removesSinceDefragment == -0x8000_0000
            && retried.queue.log == [Record(a), Record(b), Record(c), Tombstone]
            && Replay(retried.queue.log) == Some([b, c])
            && !Valid(retried.queue)
  {
    var q := Queue([a, b, c], [Record(a), Record(b), Record(c)], 0x7fff_fffe, 0x7fff_ffff);
    assert ListFile([a, b, c]) == q.log;
    ListFileRoundTrip([a, b, c]);
    ReplayAppend(q.log, Tombstone);
    assert [a, b, c][1..] == [b, c];
    assert [b, c] != [c];
  }
}
