/**
 * What the checks have in common: what they report, and how a list-valued
 * check compares this run's results with the list it stored on its previous
 * run (report the new entries, forget the entries that went away, store the
 * rest followed by the new ones).
 */
module Snapshots {
  import opened Sequences

  /** One call of the reporting helpers: a finding of type `F`, or an error with its reason. */
  datatype Event<F> = Finding(finding: F) | Error(reason: string)

  /** Each finding of `fs` reported in turn. */
  function Reported<F>(fs: seq<F>): (events: seq<Event<F>>)
    ensures |events| == |fs|
    ensures forall i :: 0 <= i < |fs| ==> events[i] == Finding(fs[i])
  {
    seq(|fs|, i requires 0 <= i < |fs| => Finding(fs[i]))
  }

  /** The current entries that are not in the stored list, in current order. */
  function Fresh<T(==)>(current: seq<T>, last: seq<T>): seq<T> {
    Filter(current, x => x !in last)
  }

  /** The stored entries that are still current, in stored order. */
  function Pruned<T(==)>(last: seq<T>, current: seq<T>): seq<T> {
    Filter(last, x => x in current)
  }

  /** The list stored after a run: the surviving stored entries, then the new ones. */
  function Persisted<T(==)>(last: seq<T>, current: seq<T>): seq<T> {
    Pruned(last, current) + Fresh(current, last)
  }

  /**
   * The three list steps of a run: collect the new entries, remove from
   * (a copy of) the stored list every entry no longer current, then extend
   * the pruned list with the new entries.
   */
  method Reconcile<T(==)>(current: seq<T>, last: seq<T>) returns (added: seq<T>, persisted: seq<T>)
    ensures added == Fresh(current, last)
    ensures persisted == Persisted(last, current)
  {
    added := [];
    var i := 0;
    while i < |current|
      invariant 0 <= i <= |current|
      invariant added == Fresh(current[..i], last)
    {
      FilterAppend(current[..i], [current[i]], x => x !in last);
      assert current[..i + 1] == current[..i] + [current[i]];
      if current[i] !in last {
        added := added + [current[i]];
      }
      i := i + 1;
    }
    assert current[..i] == current;
    var kept := RemoveRejected(last, x => x in current);
    persisted := kept + added;
  }

  /** After a run the stored list holds exactly the entries that are current. */
  lemma PersistedIsCurrent<T>(last: seq<T>, current: seq<T>)
    ensures forall x :: x in Persisted(last, current) <==> x in current
  {
    var p := Persisted(last, current);
    forall x | x in current ensures x in p {
      var i :| 0 <= i < |current| && current[i] == x;
      if x in last {
        var j :| 0 <= j < |last| && last[j] == x;
        assert x in Pruned(last, current);
      } else {
        assert x in Fresh(current, last);
      }
    }
  }

  /** Running again on unchanged data reports nothing. */
  lemma RepeatIsSilent<T>(last: seq<T>, current: seq<T>)
    ensures Fresh(current, Persisted(last, current)) == []
  {
    PersistedIsCurrent(last, current);
    FilterNone(current, x => x !in Persisted(last, current));
  }

  /** Storing again what was just stored, with the same current entries, changes nothing. */
  lemma PersistedIsStable<T>(last: seq<T>, current: seq<T>)
    ensures Persisted(Persisted(last, current), current) == Persisted(last, current)
  {
    var p := Persisted(last, current);
    PersistedIsCurrent(last, current);
    RepeatIsSilent(last, current);
    FilterAll(p, x => x in current);
  }

  /** An entry that went away on one run and comes back on the next is reported again. */
  lemma ReappearanceIsReported<T>(last: seq<T>, cleared: seq<T>, current: seq<T>, x: T)
    requires x !in cleared && x in current
    ensures x in Fresh(current, Persisted(last, cleared))
  {
    PersistedIsCurrent(last, cleared);
  }

  /** An entry is new exactly when it is current and was not stored. */
  lemma FreshMembership<T>(current: seq<T>, last: seq<T>, x: T)
    ensures x in Fresh(current, last) <==> x in current && x !in last
  {
    if x in current && x !in last {
      var i :| 0 <= i < |current| && current[i] == x;
    }
  }
}
