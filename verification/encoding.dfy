/**
 What the log file stores: serialized Java objects. An element is written as the
 object itself and a deletion as an instance of the delete-marker class, so on
 reading, an entry is a deletion exactly when the object is a marker instance.
 The tag of `Entry` is not stored separately.
 */
module ObjectEncoding {
  import opened Wrappers
  import opened QueueLog
  import opened PersistentQueue

  /** A serialized object: an ordinary element value, or an instance of the
      delete-marker class (a legal element of a queue of `Serializable`). */
  datatype Obj<V> = Plain(value: V) | MarkerObject

  /** The object written for an entry: an element is written as itself, and a
      deletion as a fresh marker instance. */
  function WriteObject<V>(entry: Entry<Obj<V>>): (o: Obj<V>)
  {
    match entry
    case Record(x) => x
    case Tombstone => MarkerObject
  }

  /** The entry the reader sees for an object: a marker instance is a deletion,
      anything else is an element. */
  function ReadObject<V>(o: Obj<V>): (e: Entry<Obj<V>>)
  {
    if o.MarkerObject? then Tombstone else Record(o)
  }

  /** The objects on disk for a log. */
  function StoredFile<V>(log: seq<Entry<Obj<V>>>): (f: seq<Obj<V>>)
    ensures |f| == |log|
  {
    seq(|log|, i requires 0 <= i < |log| => WriteObject(log[i]))
  }

  /** The log the reader reconstructs from the objects on disk. */
  function ReadFile<V>(f: seq<Obj<V>>): (log: seq<Entry<Obj<V>>>)
    ensures |log| == |f|
  {
    seq(|f|, i requires 0 <= i < |f| => ReadObject(f[i]))
  }

  /** No element of the log is an instance of the delete-marker class. */
  ghost predicate NoMarkerElements<V>(log: seq<Entry<Obj<V>>>)
  {
    forall i | 0 <= i < |log| :: log[i].Record? ==> log[i].element.Plain?
  }

  /** As written: adding a marker instance as an element succeeds, but the object
      on disk reads back as a deletion. On an empty queue, reopening the file then
      fails; after one element `a`, reopening loses both `a` and the marker. */
  lemma MarkerElementReadsAsDeletion<V>(a: V, w: WriteOutcome)
    ensures var q := Add(Open<Obj<V>>(None, 50, Written).value, MarkerObject, Written).queue;
            && q.mirror == [MarkerObject]
            && Open(Some(ReadFile(StoredFile(q.log))), 50, w) == Failure(TombstoneOnEmpty)
    ensures var q0 := Add(Open(None, 50, Written).value, Plain(a), Written).queue;
            var q := Add(q0, MarkerObject, Written).queue;
            && q.mirror == [Plain(a), MarkerObject]
            && Open(Some(ReadFile(StoredFile(q.log))), 50, w).Success?
            && Open(Some(ReadFile(StoredFile(q.log))), 50, w).value.mirror == []
  {
    var q := Add(Open<Obj<V>>(None, 50, Written).value, MarkerObject, Written).queue;
    var read := ReadFile(StoredFile(q.log));
    assert read == [Tombstone];
    assert Replay(read) == None;
    var q0 := Add(Open(None, 50, Written).value, Plain(a), Written).queue;
    var q2 := Add(q0, MarkerObject, Written).queue;
    var read2 := ReadFile(StoredFile(q2.log));
    assert read2 == [Record(Plain(a)), Tombstone];
    assert read2[1..] == [Tombstone];
    assert [Plain(a)][1..] == [];
    assert ReplayFrom([Plain(a)], read2[1..]) == ReplayFrom([], []);
    assert [] + [Plain(a)] == [Plain(a)];
    assert ReplayFrom([], read2) == ReplayFrom([Plain(a)], read2[1..]);
    assert Replay(read2) == Some([]);
  }

  /** When no element is a marker instance, reading back what was written gives
      exactly the log, so reopening replays the engine's own log. */
  lemma StoredFileRoundTrip<V>(log: seq<Entry<Obj<V>>>)
    requires NoMarkerElements(log)
    ensures ReadFile(StoredFile(log)) == log
    ensures Replay(ReadFile(StoredFile(log))) == Replay(log)
  {
  }

  /** Corrected encoding: every element is written wrapped in an element object, and
      a deletion as a separate delete object, so the reader decides by the wrapper
      and never by the element's own class. */
  datatype TaggedObj<V> = ElementObject(inner: Obj<V>) | DeleteObject

  /** The tagged object written for an entry. */
  function WriteTagged<V>(entry: Entry<Obj<V>>): (o: TaggedObj<V>)
  {
    match entry
    case Record(x) => ElementObject(x)
    case Tombstone => DeleteObject
  }

  /** The entry the reader sees for a tagged object. */
  function ReadTagged<V>(o: TaggedObj<V>): (e: Entry<Obj<V>>)
  {
    match o
    case ElementObject(x) => Record(x)
    case DeleteObject => Tombstone
  }

  /** The tagged objects on disk for a log. */
  function StoredTaggedFile<V>(log: seq<Entry<Obj<V>>>): (f: seq<TaggedObj<V>>)
    ensures |f| == |log|
  {
    seq(|log|, i requires 0 <= i < |log| => WriteTagged(log[i]))
  }

  /** The log the reader reconstructs from tagged objects. */
  function ReadTaggedFile<V>(f: seq<TaggedObj<V>>): (log: seq<Entry<Obj<V>>>)
    ensures |log| == |f|
  {
    seq(|f|, i requires 0 <= i < |f| => ReadTagged(f[i]))
  }

  /** With the tagged encoding, reading back what was written gives exactly the log,
      marker instances among the elements included. */
  lemma TaggedFileRoundTrip<V>(log: seq<Entry<Obj<V>>>)
    ensures ReadTaggedFile(StoredTaggedFile(log)) == log
  {
    var read := ReadTaggedFile(StoredTaggedFile(log));
    forall i | 0 <= i < |log|
      ensures read[i] == log[i]
    {
      match log[i]
      case Record(x) =>
      case Tombstone =>
    }
  }

  /** Corrected: with the tagged encoding, a marker instance added as an element is
      stored, read back and replayed like any other element: reopening the file gives
      the old list followed by the marker. */
  lemma TaggedLogKeepsMarkerElements<V>(q: Queue<Obj<V>>, defragmentInterval: int32, w: WriteOutcome)
    requires Valid(q)
    ensures var added := Add(q, MarkerObject, Written).queue;
            var reopened := Open(Some(ReadTaggedFile(StoredTaggedFile(added.log))), defragmentInterval, w);
            reopened.Success? && reopened.value.mirror == q.mirror + [MarkerObject]
  {
    AddPreservesValid(q, MarkerObject);
    TaggedFileRoundTrip(Add(q, MarkerObject, Written).queue.log);
  }
}
