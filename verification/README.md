# Persistent queue: durability protocol

A Dafny model of `PersistentQueue`, a FIFO queue that survives crashes by keeping a
log file next to its in-memory `LinkedList`. The model covers the engine's three pieces
of state and the protocol that keeps them consistent:

- the in-memory list (the *mirror*), a `seq<E>`;
- the log file, abstracted as a sequence of entries, `Record(e)` for a serialized element
  and `Tombstone` for a `PersistentQueueDeleteMarker`;
- the counter `removesSinceDefragment`, a Java `int` (modelled as `int32`, with the
  increment's wrap-around written out).

`add` appends a record and then extends the list. `remove` pops the head, bumps the counter,
and then either appends a delete marker or, once the counter reaches `defragmentInterval`,
rewrites the log from the list ("defragment") and resets the counter. `clear` empties the
list and forces a rewrite. Opening a queue either creates an empty file or *replays* the
existing log into a cleared list: a record appends, a delete marker removes the head, and
a delete marker met by an empty list is an error.

The central invariant is `Replay(log) == Some(mirror)`. Every mutating operation
preserves it on success. A fresh engine opened over the file after any run of successful
calls recovers exactly the list the old engine held, provided no element is `null` or a
delete-marker instance. Runs of successful calls behave like a plain FIFO queue whatever the
interval, log or counter. Once a remove or a clear has failed, this no longer holds: the log
keeps the removed or cleared elements until the next successful defragmentation or clear.

Files:

- `wrappers.dfy`: `Option` and `Result`.
- `log.dfy` (module `QueueLog`): entries, replay, the list file written by defragmentation,
  and a closed form of replay. The mirror is the log's records minus as many elements from
  the front as there are delete markers. Replay is defined exactly when no prefix of the log
  deletes more than it wrote.
- `queue.dfy` (module `PersistentQueue`): the engine state, the operations, the replay
  loop, and the invariant-preservation lemmas.
- `encoding.dfy` (module `ObjectEncoding`): how entries are stored as Java objects, where a
  deletion is recognised only by the object's class (see "## Findings").
- `recovery.dfy` (module `Recovery`): runs of calls, the reference FIFO queue, reopening
  after a run, and the scenarios the unit tests exercise.

Each durable write takes a `WriteOutcome` parameter (`Written` or `WriteFailed`) standing
for what the file system did. A failed write raises `IOError` and leaves the file as it was.
For a defragmentation, the modelled failure is a failure while writing the temporary file; a
failed rename after the original has been deleted is not modelled (see "## Left out").

Three behaviours of the code that the model keeps:

- A partial trailing entry is not discarded on replay. The code throws, and the model has no
  partial entries at all.
- A non-positive defragment interval is accepted. Every non-empty remove then defragments,
  because the bumped counter is at least 1.
- A delete marker met by an empty list during replay surfaces as `TombstoneOnEmpty`. In the
  code this is the unchecked `IndexOutOfBoundsException` from `LinkedList.remove(0)`, not an
  `IOException`.

## Model

| member | source | states |
|---|---|---|
| PersistentQueue.Open | com/gaborcselle/persistent/PersistentQueue.java:87-102 | With no file, opening succeeds exactly when the empty file can be created, giving an empty list and log; otherwise it raises `IOError`. With a readable file, it succeeds exactly when replay is defined; the log is then the file's entries and the list is their replay. A failure to replay is `TombstoneOnEmpty`; read errors are not modelled. Success always yields a consistent engine with a zero counter and the given interval. |
| PersistentQueue.OpenDefault | com/gaborcselle/persistent/PersistentQueue.java:76-78 | The one-argument constructor is the two-argument one with interval 50, and yields a consistent engine. |
| PersistentQueue.ReadStateFromFile | com/gaborcselle/persistent/PersistentQueue.java:194-232 | The entry-by-entry loop into a cleared list succeeds exactly when no delete marker lacks a live element. It then returns the replayed list, which is the log's records with as many dropped from the front as there are markers. Otherwise it fails with `TombstoneOnEmpty`. This assumes the file can be opened and read. |
| PersistentQueue.OpenRejectsOverDeletion | com/gaborcselle/persistent/PersistentQueue.java:218-220 | Opening an existing, readable file fails exactly when some prefix of the log holds more delete markers than records. A marker on an empty list is an error, not a no-op. |
| PersistentQueue.Add | com/gaborcselle/persistent/PersistentQueue.java:173-179 | On success the log gains exactly one trailing `Record(e)`, the list becomes `list + [e]`, and the counter and interval are unchanged. Because the log is written first, a failed write changes nothing and raises `IOError`. |
| PersistentQueue.AddPreservesValid | com/gaborcselle/persistent/PersistentQueue.java:173-179 | A successful add keeps `Replay(log) == Some(list)` and the counter bounds. |
| PersistentQueue.Remove | com/gaborcselle/persistent/PersistentQueue.java:148-166 | On an empty list, remove returns `None` and changes nothing (list, log and counter), whatever the file system does. On a non-empty list, the rest of the list remains. Remove succeeds exactly when the write does, returning the old head, and otherwise raises `IOError`. |
| PersistentQueue.CounterNeverWraps | com/gaborcselle/persistent/PersistentQueue.java:156-157 | On a consistent engine the 32-bit increment of the counter never wraps and yields at least 1. |
| PersistentQueue.RemovePreservesValid | com/gaborcselle/persistent/PersistentQueue.java:155-163 | A successful remove from a non-empty consistent queue returns the old head and keeps the rest. If the bumped counter reaches the interval, the log becomes exactly one record per remaining element and the counter becomes 0. Otherwise exactly one `Tombstone` is appended and the counter, bumped by one, stays below the interval. Either way, `Replay(log) == Some(list)` still holds. |
| PersistentQueue.RemoveFailureLeavesLogBehind | com/gaborcselle/persistent/PersistentQueue.java:153-163 | If the durable step of a remove fails (a tombstone append, or writing the temporary file of a defragmentation), the head has already left the list but the log is unchanged. Replaying it would bring the element back at the head, so durable state lags the list. The counter stays bumped by one (no reset); `RetriedDefragmentationHeals` gives the consequence for the next remove. |
| PersistentQueue.RetriedDefragmentationHeals | com/gaborcselle/persistent/PersistentQueue.java:155-163 | If a remove's defragmentation fails, the counter is left at or above the interval. When the interval is below the largest `int`, the next non-empty remove then defragments again; if that succeeds, it returns the next element, the log is rewritten from the remaining list, and the engine is consistent again. |
| PersistentQueue.RetrySkippedAtLargestInterval | com/gaborcselle/persistent/PersistentQueue.java:155-163 | With the interval at the largest `int`, a failed defragmentation leaves the counter at that value. The next increment wraps to the smallest `int`, so the retry appends a marker instead of defragmenting, and the log replays to `[b, c]` while the list is `[c]`. |
| PersistentQueue.DefragmentFile | com/gaborcselle/persistent/PersistentQueue.java:266-283 | A successful defragmentation replaces the log with one that has no delete markers and replays to exactly the list. A failure while writing the temporary file raises `IOError` and leaves the log untouched. |
| PersistentQueue.Clear | com/gaborcselle/persistent/PersistentQueue.java:109-113 | The list is always empty afterwards, since it is cleared before the write. On success the log is the empty sequence (a zero-length file) and the counter is 0. On a failure while writing the temporary file it raises `IOError` and leaves the log and counter as they were. A successful clear yields a consistent engine from any state, even an inconsistent one. |
| PersistentQueue.IsEmpty | com/gaborcselle/persistent/PersistentQueue.java:119-121 | `isEmpty()` holds exactly when `size()` is 0. |
| PersistentQueue.SizeMatchesLog | com/gaborcselle/persistent/PersistentQueue.java:127-129 | On a consistent engine, `size()` equals the records in the log minus its delete markers. The list is the log's records after dropping that many from the front. |
| PersistentQueue.Peek | com/gaborcselle/persistent/PersistentQueue.java:136-141 | Peek returns `None` exactly when the queue is empty, and otherwise the head of the list. It returns exactly what a successful remove on the same state would return, and changes nothing. |
| QueueLog.ListFileRoundTrip | com/gaborcselle/persistent/PersistentQueue.java:247-263 | A defragmented log has no delete markers and replays to exactly the list it was written from. Defragmenting the replayed list again writes the same log. |
| QueueLog.ReplayFromListFile | com/gaborcselle/persistent/PersistentQueue.java:256-259 | Replaying a list file on top of any list appends the whole written list to it. |
| QueueLog.ReplayFromConcat | com/gaborcselle/persistent/PersistentQueue.java:200-229 | Replaying `a + b` replays `a`, then `b` from wherever `a` left the list. If `a` fails, the whole replay fails. |
| QueueLog.ReplayAppend | com/gaborcselle/persistent/PersistentQueue.java:218-228 | Appending one entry to a log applies exactly that entry to its replayed list: a record appends and a marker drops the head. |
| QueueLog.ReplaySurvivors | com/gaborcselle/persistent/PersistentQueue.java:218-228 | Replay from any list is defined exactly when no prefix of the log deletes more than the list plus the records written so far. It then yields the list followed by all records, minus as many elements from the front as there are markers. |
| QueueLog.ReplayIsSurvivors | com/gaborcselle/persistent/PersistentQueue.java:194-232 | Replay into a cleared list is defined exactly when no prefix over-deletes. Its length is then the number of records minus the number of markers, and it holds the surviving records in log order. |
| ObjectEncoding.MarkerElementReadsAsDeletion | com/gaborcselle/persistent/PersistentQueue.java:219-220 | Adding a delete-marker instance as an element succeeds, but its object on disk reads back as a deletion. On an empty queue, reopening then fails with `TombstoneOnEmpty`; after one element `a`, reopening yields an empty list instead of `[a, marker]`. |
| ObjectEncoding.StoredFileRoundTrip | com/gaborcselle/persistent/PersistentQueue.java:218-228 | When no element is a marker instance, reading back the stored objects reconstructs exactly the log. Reopening therefore replays the engine's own log. |
| ObjectEncoding.TaggedFileRoundTrip | com/gaborcselle/persistent/PersistentQueue.java:218-228 | With the tagged encoding, reading back the stored objects reconstructs exactly the log for every log, marker instances among the elements included. |
| ObjectEncoding.TaggedLogKeepsMarkerElements | com/gaborcselle/persistent/PersistentQueue.java:173-176 | With a tagged on-disk encoding (elements wrapped, deletions as separate objects), a marker instance added as an element is stored, read back and replayed like any other: reopening gives the old list followed by the marker. |
| Recovery.ExecRefinesFifo | com/gaborcselle/persistent/PersistentQueue.java:109-179 | One successful `add`, `remove` or `clear` on a consistent engine keeps it consistent. It returns and leaves what the same call on a plain FIFO list does. |
| Recovery.RunRefinesFifo | com/gaborcselle/persistent/PersistentQueue.java:109-179 | Any run of successful calls keeps the engine consistent. Its results and final list are those of a plain FIFO queue. |
| Recovery.ReopenRecoversMirror | com/gaborcselle/persistent/PersistentQueue.java:87-102 | After any run of successful calls, an engine opened over the log file recovers exactly the list the old engine held. It has a zero counter, and the list is the plain FIFO queue's result. |
| Recovery.AcknowledgedRemoveUndoneAfterFailure | com/gaborcselle/persistent/PersistentQueue.java:148-176 | Starting from `[a, b]`, a failed remove, a successful `add(x)` and a successful remove returning `b` leave the engine holding `[x]`. Its log `[a, b, x, marker]` replays to `[b, x]`, so reopening brings back the element the acknowledged remove returned. |
| Recovery.FailedClearResurrects | com/gaborcselle/persistent/PersistentQueue.java:109-113 | Starting from `[a]`, a failed clear, a successful `add(y)` and a successful remove returning `y` leave the engine empty. Its log `[a, y, marker]` replays to `[y]`: the marker used up `a`, and the element the acknowledged remove returned comes back on reopening. |
| Recovery.CompactionTransparent | com/gaborcselle/persistent/PersistentQueue.java:155-163 | Two consistent engines holding the same list return the same values on any run and end with the same list. This holds whatever their logs, counters and intervals. |
| Recovery.AddsThenRemovesIsFifo | com/gaborcselle/persistent/PersistentQueueTest.java:58-71 | Adding `xs` to an empty queue and removing as many returns `xs` in insertion order and leaves the queue empty. One more remove returns `None`. |
| Recovery.SizeCountsCalls | com/gaborcselle/persistent/PersistentQueueTest.java:74-90 | Without clears, the size after a run equals the size before, plus the adds, minus the removes that returned an element. The queue is empty exactly when that count is 0. |
| Recovery.CycleOnEngine | com/gaborcselle/persistent/PersistentQueueTest.java:118-122 | One cycle (add `i`, add `i`, remove) keeps the engine consistent and drops the head. It either appends `Record(i), Record(i), Tombstone` and bumps the counter, or, when the counter reaches the interval, rewrites the log from the list and resets the counter. |
| Recovery.EarlyCyclesOnlyAppend | com/gaborcselle/persistent/PersistentQueueTest.java:113-122 | On a fresh engine with interval 9, up to eight cycles only append: the counter equals the cycle count and the log holds three entries per cycle. |
| Recovery.NinthCycleDefragments | com/gaborcselle/persistent/PersistentQueueTest.java:109-122 | The ninth cycle with interval 9 forces a defragmentation. The log becomes one record per queued element and the counter returns to 0. |
| Recovery.TenthCycleAppends | com/gaborcselle/persistent/PersistentQueueTest.java:118-122 | The tenth cycle at interval 9 appends its two records and one marker to the compacted log and leaves the counter at 1. The list is everything added minus the first ten elements. |
| Recovery.RecoveryAfterTenCycles | com/gaborcselle/persistent/PersistentQueueTest.java:113-131 | After ten cycles with interval 9, the log has 12 entries with a single marker and the counter is 1. Reopening with interval 10 yields exactly `[5, 5, 6, 6, 7, 7, 8, 8, 9, 9]`. |

## Left out

- Java object serialization (stream headers, `fis.available()`, the exception conversions) is
  an opaque codec: the log is modelled as already-decoded entries, so decoding and class-cast
  errors are not modelled.
- Partially written trailing entries: a failed write is modelled as leaving the file
  unchanged. The code does not tolerate a torn tail either; it throws on reading it.
- File system primitives: `File.exists`, `createNewFile`, `delete`, `renameTo` and the
  `.temp` file name are not modelled. The file's existence is the `Option` passed to `Open`,
  and the outcome of each write is a parameter.
- PersistentQueue.DefragmentFile: the original file is deleted before the temporary file is
  renamed over it. Neither a crash between the two steps nor a failed rename (which raises
  `IOException` with no log file left, so the next open creates an empty queue) is
  modelled. Defragmentation is one atomic replacement that either succeeds or, when writing the
  temporary file fails, leaves the original file untouched.
- Elements are taken as immutable values whose serialized form round-trips exactly. The Java
  list holds the caller's references (and `peek`/`remove` hand them out), so mutating an
  element after `add` changes the list but not the bytes already in the log, and reopening
  gives the old value. This aliasing is not modelled.
- `synchronized` locking: operations are sequential state transitions.
- PersistentQueue.Open: I/O errors while opening or reading an existing file
  (`FileInputStream`, `readObject`) are not modelled. Opening such a file fails only through
  `TombstoneOnEmpty`.
- Recovery.ReopenRecoversMirror: covers only runs in which every write succeeds. After a
  failed remove or a failed clear, the log holds elements the list no longer has, and later
  successful calls do not make up for it. Reopening then brings back elements that
  acknowledged removes returned, until the next successful defragmentation or clear rewrites
  the log (shown by `AcknowledgedRemoveUndoneAfterFailure` and `FailedClearResurrects`).
  When the interval is the largest `int`, even the retried defragmentation is skipped
  (`RetrySkippedAtLargestInterval`).
- Recovery.ReopenRecoversMirror: assumes no element is `null` or an instance of the
  delete-marker class. A marker element is read back as a deletion (see "## Findings"). A `null`
  element round-trips through the file, but `peek` and `remove` then return `null` just as
  they do for an empty queue, a case `Option` keeps apart.
- PersistentQueue.Open: the race in which a file appears between `exists()` and
  `createNewFile()` is not modelled; when there is no file, creation fails only through the
  `WriteOutcome` parameter.
- PersistentQueue.Size: returns the list length as an unbounded `nat`; `LinkedList.size()`
  is a Java `int`, which a list of more than 2^31 - 1 elements would exceed.
- Recovery.RunRefinesFifo: runs assume every write succeeds. Single failed calls are
  covered by `Add`, `Remove`, `Clear` and `RemoveFailureLeavesLogBehind`.
- `PersistentQueueTestEntry` and the body of `PersistentQueueDeleteMarker` are trivial
  (the marker is the `Tombstone` constructor).

## Findings

| source | as written | input that shows it | evidently intended | confidence | as-written member | corrected member |
|---|---|---|---|---|---|---|
| com/gaborcselle/persistent/PersistentQueue.java:219-220 | replay treats any object of the delete-marker class as a deletion, and `add` writes elements as bare objects | on a queue of `Serializable`, `add(new PersistentQueueDeleteMarker())` on an empty queue, then reopen: replay throws; after `add(a)` first, reopen gives an empty queue | every added element is recovered on reopening | not executed | ObjectEncoding.MarkerElementReadsAsDeletion | ObjectEncoding.TaggedLogKeepsMarkerElements |
