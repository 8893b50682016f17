/** The two-week protection rule: `canDelete` is derived from a record's
    timestamp and the current time, on load and on every periodic refresh. */
module Retention {
  import opened ThinkTypes
  import Progression

  /** Fourteen days in milliseconds. */
  const ProtectionWindowMs: int := 14 * Progression.MsPerDay

  /** A record stamped at `timestamp` may be deleted at `now` once it is
      strictly older than the protection window. */
  predicate OldEnough(timestamp: int, now: int) {
    now - timestamp > ProtectionWindowMs
  }

  /** Two records agree on everything except `canDelete`. */
  predicate SameContent(a: Evaluation, b: Evaluation) {
    && a.id == b.id
    && a.text == b.text
    && a.criteria == b.criteria
    && a.percentage == b.percentage
    && a.timestamp == b.timestamp
  }

  /** The refresh body: every record's `canDelete` becomes
      `timestamp < now - 14 days`, and nothing else about the list changes. */
  function Refresh(es: seq<Evaluation>, now: int): (r: seq<Evaluation>)
    ensures |r| == |es|
    ensures forall i :: 0 <= i < |r| ==> SameContent(r[i], es[i])
    ensures forall i :: 0 <= i < |r| ==> (r[i].canDelete <==> OldEnough(es[i].timestamp, now))
  {
    if |es| == 0 then []
    else
      var e := es[0];
      [e.(canDelete := e.timestamp < now - ProtectionWindowMs)] + Refresh(es[1..], now)
  }

  /** `loadEvaluations`: nothing stored gives an empty list; a stored list is
      refreshed against the load time, whatever flags it was stored with. */
  function LoadEvaluations(stored: Option<seq<Evaluation>>, now: int): (r: seq<Evaluation>)
    ensures stored.None? ==> r == []
    ensures stored.Some? ==> |r| == |stored.value|
    ensures stored.Some? ==> forall i :: 0 <= i < |r| ==>
      SameContent(r[i], stored.value[i]) && (r[i].canDelete <==> OldEnough(r[i].timestamp, now))
  {
    match stored
    case None => []
    case Some(es) => Refresh(es, now)
  }

  /** The flags a list carries never matter: a refresh over an already
      refreshed list gives what a single refresh at the second time gives. */
  lemma RefreshOverrides(es: seq<Evaluation>, earlier: int, now: int)
    ensures Refresh(Refresh(es, earlier), now) == Refresh(es, now)
  {
    var a, b := Refresh(Refresh(es, earlier), now), Refresh(es, now);
    assert |a| == |b|;
    forall i | 0 <= i < |a| ensures a[i] == b[i] {
      assert SameContent(a[i], b[i]);
    }
  }

  /** Protection only ever lapses: for a fixed list, a record deletable at one
      time is deletable at every later time. */
  lemma RefreshMonotone(es: seq<Evaluation>, t1: int, t2: int)
    requires t1 <= t2
    ensures forall i :: 0 <= i < |es| && Refresh(es, t1)[i].canDelete ==> Refresh(es, t2)[i].canDelete
  {
  }

  /** The boundary is strict: a record exactly fourteen days old is still
      protected, and one millisecond later it is not. */
  lemma ProtectionBoundary(e: Evaluation)
    ensures !Refresh([e], e.timestamp + ProtectionWindowMs)[0].canDelete
    ensures Refresh([e], e.timestamp + ProtectionWindowMs + 1)[0].canDelete
  {
  }
}
