/**
 The on-disk log of the persistent queue, abstracted as a sequence of entries.
 Each entry is either a serialized element or a delete marker; the object
 serialization framing is treated as an opaque codec and left out.
 */
module QueueLog {
  import opened Wrappers

  /** One entry of the log file: an element, or a delete marker (`Tombstone`). */
  datatype Entry<E> = Record(element: E) | Tombstone

  /** Applies one log entry to the mirror: a record appends, a tombstone removes the head.
      A tombstone met by an empty mirror is an error (`None`). */
  function Apply<E>(mirror: seq<E>, entry: Entry<E>): (r: Option<seq<E>>)
  {
    match entry
    case Record(x) => Some(mirror + [x])
    case Tombstone => if |mirror| == 0 then None else Some(mirror[1..])
  }

  /** Replays `log` in file order starting from `mirror`. */
  function ReplayFrom<E>(mirror: seq<E>, log: seq<Entry<E>>): (r: Option<seq<E>>)
    decreases |log|
  {
    if |log| == 0 then Some(mirror)
    else
      match Apply(mirror, log[0])
      case None => None
      case Some(next) => ReplayFrom(next, log[1..])
  }

  /** Replays a whole log into an initially cleared list. */
  function Replay<E>(log: seq<Entry<E>>): (r: Option<seq<E>>)
  {
    ReplayFrom([], log)
  }

  /** The elements carried by the records of `log`, in log order. */
  function Payloads<E>(log: seq<Entry<E>>): (r: seq<E>)
    decreases |log|
  {
    if |log| == 0 then []
    else if log[0].Record? then [log[0].element] + Payloads(log[1..])
    else Payloads(log[1..])
  }

  /** The number of delete markers in `log`. */
  function Tombstones<E>(log: seq<Entry<E>>): (r: nat)
    decreases |log|
  {
    if |log| == 0 then 0
    else (if log[0].Tombstone? then 1 else 0) + Tombstones(log[1..])
  }

  /** No prefix of `log` deletes more elements than `live` plus the records it wrote:
      every delete marker has a live element to remove. */
  ghost predicate NoOverDeletion<E>(live: nat, log: seq<Entry<E>>)
  {
    forall k | 0 <= k <= |log| :: Tombstones(log[..k]) <= live + |Payloads(log[..k])|
  }

  /** The log written by `writeListFile`: one record per element, in list order. */
  function ListFile<E>(list: seq<E>): (log: seq<Entry<E>>)
    ensures |log| == |list|
    ensures forall i | 0 <= i < |log| :: log[i] == Record(list[i])
  {
    seq(|list|, i requires 0 <= i < |list| => Record(list[i]))
  }

  /** Replaying `a + b` is replaying `a` and then `b` from wherever `a` left the mirror. */
  lemma {:induction false} ReplayFromConcat<E>(mirror: seq<E>, a: seq<Entry<E>>, b: seq<Entry<E>>)
    ensures ReplayFrom(mirror, a + b) ==
              match ReplayFrom(mirror, a)
              case None => None
              case Some(m) => ReplayFrom(m, b)
    decreases |a|
  {
    if |a| == 0 {
      assert a + b == b;
    } else {
      assert (a + b)[0] == a[0];
      assert (a + b)[1..] == a[1..] + b;
      match Apply(mirror, a[0])
      case None =>
      case Some(next) => ReplayFromConcat(next, a[1..], b);
    }
  }

  /** Appending one entry to the log applies exactly that entry to the replayed mirror. */
  lemma ReplayAppend<E>(log: seq<Entry<E>>, entry: Entry<E>)
    ensures Replay(log + [entry]) ==
              match Replay(log)
              case None => None
              case Some(m) => Apply(m, entry)
  {
    ReplayFromConcat([], log, [entry]);
    match Replay(log)
    case None =>
    case Some(m) =>
      assert [entry][1..] == [];
  }

  /** Replaying a list file from `mirror` appends the whole list to `mirror`. */
  lemma {:induction false} ReplayFromListFile<E>(mirror: seq<E>, list: seq<E>)
    ensures ReplayFrom(mirror, ListFile(list)) == Some(mirror + list)
    decreases |list|
  {
    if |list| == 0 {
      assert mirror + list == mirror;
    } else {
      var log := ListFile(list);
      assert log[1..] == ListFile(list[1..]);
      ReplayFromListFile(mirror + [list[0]], list[1..]);
      assert mirror + [list[0]] + list[1..] == mirror + list;
    }
  }

  /** A defragmented log holds no delete markers, replays to exactly the list it was
      written from, and defragmenting the replayed list again writes the same log (the
      last is immediate from the second, since a defragmented log depends only on the
      list it is written from). */
  lemma ListFileRoundTrip<E>(list: seq<E>)
    ensures Tombstones(ListFile(list)) == 0
    ensures Replay(ListFile(list)) == Some(list)
    ensures ListFile(Replay(ListFile(list)).value) == ListFile(list)
  {
    ReplayFromListFile([], list);
    assert [] + list == list;
    ListFileHasNoTombstones(list);
  }

  lemma {:induction false} ListFileHasNoTombstones<E>(list: seq<E>)
    ensures Tombstones(ListFile(list)) == 0
    decreases |list|
  {
    if |list| > 0 {
      assert ListFile(list)[1..] == ListFile(list[1..]);
      ListFileHasNoTombstones(list[1..]);
    }
  }

  /** The prefix `log[..k]` of a non-empty log is its head followed by a prefix of its tail. */
  lemma PrefixCounts<E>(log: seq<Entry<E>>, k: nat)
    requires 1 <= k <= |log|
    ensures Tombstones(log[..k]) == (if log[0].Tombstone? then 1 else 0) + Tombstones(log[1..][..k - 1])
    ensures |Payloads(log[..k])| == (if log[0].Record? then 1 else 0) + |Payloads(log[1..][..k - 1])|
  {
    assert log[..k][0] == log[0];
    assert log[..k][1..] == log[1..][..k - 1];
  }

  /** Shifting the live count through the head entry: the over-deletion condition on a
      non-empty log is the one on its tail, with the live count adjusted by the head. */
  lemma NoOverDeletionStep<E>(live: nat, log: seq<Entry<E>>)
    requires |log| > 0
    requires log[0].Record? || live > 0
    ensures NoOverDeletion(live, log) <==>
              NoOverDeletion(if log[0].Record? then live + 1 else live - 1, log[1..])
  {
    var next: nat := if log[0].Record? then live + 1 else live - 1;
    if NoOverDeletion(live, log) {
      forall k | 0 <= k <= |log[1..]|
        ensures Tombstones(log[1..][..k]) <= next + |Payloads(log[1..][..k])|
      {
        assert Tombstones(log[..k + 1]) <= live + |Payloads(log[..k + 1])|;
        PrefixCounts(log, k + 1);
      }
    }
    if NoOverDeletion(next, log[1..]) {
      forall k | 0 <= k <= |log|
        ensures Tombstones(log[..k]) <= live + |Payloads(log[..k])|
      {
        if k > 0 {
          PrefixCounts(log, k);
          assert Tombstones(log[1..][..k - 1]) <= next + |Payloads(log[1..][..k - 1])|;
        } else {
          assert log[..0] == [];
        }
      }
    }
  }

  /** Replay is defined exactly when no delete marker meets an empty mirror, and then the
      mirror is the initial mirror followed by every record of the log, minus as many
      elements from the front as the log holds delete markers. */
  lemma {:induction false} ReplaySurvivors<E>(mirror: seq<E>, log: seq<Entry<E>>)
    ensures ReplayFrom(mirror, log).Some? <==> NoOverDeletion(|mirror|, log)
    ensures ReplayFrom(mirror, log).Some? ==>
              && Tombstones(log) <= |mirror| + |Payloads(log)|
              && ReplayFrom(mirror, log).value == (mirror + Payloads(log))[Tombstones(log)..]
    decreases |log|
  {
    if |log| == 0 {
      assert log[..0] == [];
      assert mirror + Payloads(log) == mirror;
    } else if log[0].Record? {
      var x := log[0].element;
      ReplaySurvivors(mirror + [x], log[1..]);
      NoOverDeletionStep(|mirror|, log);
      assert mirror + [x] + Payloads(log[1..]) == mirror + Payloads(log);
    } else if |mirror| == 0 {
      assert log[..1] == [Tombstone];
      assert Tombstones(log[..1]) == 1;
      assert Payloads(log[..1]) == [];
    } else {
      ReplaySurvivors(mirror[1..], log[1..]);
      NoOverDeletionStep(|mirror|, log);
      var p := Payloads(log[1..]);
      assert mirror[1..] + p == (mirror + p)[1..];
    }
  }

  /** Replaying a log from an empty list gives the survivors of the log's records. */
  lemma ReplayIsSurvivors<E>(log: seq<Entry<E>>)
    ensures Replay(log).Some? <==> NoOverDeletion(0, log)
    ensures Replay(log).Some? ==>
              && Tombstones(log) <= |Payloads(log)|
              && Replay(log).value == Payloads(log)[Tombstones(log)..]
              && |Replay(log).value| == |Payloads(log)| - Tombstones(log)
  {
    ReplaySurvivors([], log);
    assert [] + Payloads(log) == Payloads(log);
  }

  /** Delete markers of a concatenation add up. */
  lemma {:induction false} TombstonesConcat<E>(a: seq<Entry<E>>, b: seq<Entry<E>>)
    ensures Tombstones(a + b) == Tombstones(a) + Tombstones(b)
    decreases |a|
  {
    if |a| == 0 {
      assert a + b == b;
    } else {
      assert (a + b)[0] == a[0];
      assert (a + b)[1..] == a[1..] + b;
      TombstonesConcat(a[1..], b);
    }
  }
}
