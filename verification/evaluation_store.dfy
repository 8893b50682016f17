/** The evaluation store as a pure state machine: the newest-first list of
    evaluations (capped at 100) and the progression record, with save,
    clear, delete and the periodic refresh as transitions. */
module EvaluationStore {
  import opened ThinkTypes
  import opened Progression
  import opened Retention

  /** The list keeps at most this many evaluations. */
  const MaxEvaluations: int := 100

  datatype Store = Store(evaluations: seq<Evaluation>, progression: ProgressionState)

  /** The state a new installation starts with, before anything is stored. */
  function InitialStore(now: int): Store {
    Store([], Initial(now))
  }

  /** Both halves of the load: nothing stored gives an empty list; a stored
      list keeps its records and order, each protected exactly while it is at
      most 14 days old at `now`; a stored progression record is taken as it
      is, flags included, and without one the streak starts empty at `now`. */
  function Load(storedEvaluations: Option<seq<Evaluation>>, storedProgression: Option<ProgressionState>, now: int): (s: Store)
    ensures storedEvaluations.None? ==> s.evaluations == []
    ensures storedEvaluations.Some? ==> |s.evaluations| == |storedEvaluations.value|
    ensures storedEvaluations.Some? ==> forall i :: 0 <= i < |s.evaluations| ==>
      && SameContent(s.evaluations[i], storedEvaluations.value[i])
      && (s.evaluations[i].canDelete <==> OldEnough(s.evaluations[i].timestamp, now))
    ensures storedProgression.Some? ==> s.progression == storedProgression.value
    ensures storedProgression.None? ==>
      && FlagsConsistent(s.progression)
      && s.progression.consecutiveDays == 0
      && s.progression.lastActiveDate.None?
      && s.progression.startDate == now
  {
    Store(LoadEvaluations(storedEvaluations, now), LoadProgression(storedProgression, now))
  }

  /** The record as the store keeps it: the caller's id, text, criteria and
      percentage, stamped with the save time and protected. */
  function Stamp(e: Evaluation, now: int): (r: Evaluation)
    ensures r.id == e.id && r.text == e.text && r.criteria == e.criteria && r.percentage == e.percentage
    ensures r.timestamp == now && !r.canDelete
  {
    e.(timestamp := now, canDelete := false)
  }

  /** Loading with nothing stored is the state of a new installation. */
  lemma LoadNothingIsInitial(now: int)
    ensures Load(None, None, now) == InitialStore(now)
  {
  }

  function Min(a: int, b: int): int {
    if a <= b then a else b
  }

  /** `saveEvaluation`: prepend the stamped record, keep the first 100, and
      count the save as activity for the streak. */
  function Save(s: Store, e: Evaluation, now: int, zone: int): (r: Store)
    ensures |r.evaluations| == Min(MaxEvaluations, |s.evaluations| + 1)
    ensures r.evaluations[0] == Stamp(e, now)
    ensures forall i :: 1 <= i < |r.evaluations| ==> r.evaluations[i] == s.evaluations[i - 1]
    ensures r.progression == UpdateProgression(s.progression, now, zone)
  {
    var updated := [Stamp(e, now)] + s.evaluations;
    Store(updated[..Min(MaxEvaluations, |updated|)], UpdateProgression(s.progression, now, zone))
  }

  /** Below the cap nothing is dropped; at the cap exactly the oldest record is
      dropped, protected or not. */
  lemma SaveDropsOnlyAtCap(s: Store, e: Evaluation, now: int, zone: int)
    ensures |s.evaluations| < MaxEvaluations ==>
      Save(s, e, now, zone).evaluations == [Stamp(e, now)] + s.evaluations
    ensures |s.evaluations| == MaxEvaluations ==>
      Save(s, e, now, zone).evaluations == [Stamp(e, now)] + s.evaluations[..MaxEvaluations - 1]
  {
    var r := Save(s, e, now, zone).evaluations;
    if |s.evaluations| < MaxEvaluations {
      assert r == [Stamp(e, now)] + s.evaluations;
    } else if |s.evaluations| == MaxEvaluations {
      assert r == [Stamp(e, now)] + s.evaluations[..MaxEvaluations - 1];
    }
  }

  /** A sequence of saves, each record paired with the time it is saved at. */
  function SaveAll(s: Store, batch: seq<(Evaluation, int)>, zone: int): Store
    decreases |batch|
  {
    if |batch| == 0 then s
    else
      var last := batch[|batch| - 1];
      Save(SaveAll(s, batch[..|batch| - 1], zone), last.0, last.1, zone)
  }

  /** After any number of saves the list holds the most recent 100 records:
      the saved ones newest first, then the older list, cut at 100. */
  lemma {:induction false} SaveAllKeepsNewest(s: Store, batch: seq<(Evaluation, int)>, zone: int)
    requires |s.evaluations| <= MaxEvaluations
    ensures var r := SaveAll(s, batch, zone).evaluations;
      && |r| == Min(MaxEvaluations, |batch| + |s.evaluations|)
      && forall i :: 0 <= i < |r| ==>
           r[i] == if i < |batch| then Stamp(batch[|batch| - 1 - i].0, batch[|batch| - 1 - i].1)
                   else s.evaluations[i - |batch|]
    decreases |batch|
  {
    if |batch| > 0 {
      var front := batch[..|batch| - 1];
      SaveAllKeepsNewest(s, front, zone);
      var prev := SaveAll(s, front, zone);
      var last := batch[|batch| - 1];
      assert SaveAll(s, batch, zone) == Save(prev, last.0, last.1, zone);
      var r := SaveAll(s, batch, zone).evaluations;
      forall i | 1 <= i < |r|
        ensures r[i] == if i < |batch| then Stamp(batch[|batch| - 1 - i].0, batch[|batch| - 1 - i].1)
                        else s.evaluations[i - |batch|]
      {
        if i < |batch| {
          assert front[|front| - 1 - (i - 1)] == batch[|batch| - 1 - i];
        }
      }
    }
  }

  /** The order-preserving filter of the records that are still protected:
      every protected record stays as often as it occurs, every deletable one
      goes. */
  function Protected(es: seq<Evaluation>): (r: seq<Evaluation>)
    ensures |r| <= |es|
    ensures forall x: Evaluation :: multiset(r)[x] == if x.canDelete then 0 else multiset(es)[x]
  {
    if |es| == 0 then []
    else
      assert es == [es[0]] + es[1..];
      (if es[0].canDelete then [] else [es[0]]) + Protected(es[1..])
  }

  /** Filtering distributes over concatenation, so relative order is kept. */
  lemma {:induction false} ProtectedAppend(a: seq<Evaluation>, b: seq<Evaluation>)
    ensures Protected(a + b) == Protected(a) + Protected(b)
  {
    if |a| > 0 {
      var head := if a[0].canDelete then [] else [a[0]];
      ProtectedFront(a, b);
      ProtectedAppend(a[1..], b);
      AppendAssoc(head, Protected(a[1..]), Protected(b));
    } else {
      assert a + b == b;
    }
  }

  /** One step of the filter over a concatenation with a non-empty front. */
  lemma ProtectedFront(a: seq<Evaluation>, b: seq<Evaluation>)
    requires |a| > 0
    ensures var head := if a[0].canDelete then [] else [a[0]];
      && Protected(a + b) == head + Protected(a[1..] + b)
      && Protected(a) == head + Protected(a[1..])
  {
    assert (a + b)[0] == a[0];
    assert (a + b)[1..] == a[1..] + b;
  }

  lemma AppendAssoc(x: seq<Evaluation>, y: seq<Evaluation>, z: seq<Evaluation>)
    ensures x + (y + z) == (x + y) + z
  {
  }

  lemma {:induction false} ProtectedOfAllProtected(es: seq<Evaluation>)
    requires forall i :: 0 <= i < |es| ==> !es[i].canDelete
    ensures Protected(es) == es
  {
    if |es| > 0 {
      ProtectedOfAllProtected(es[1..]);
    }
  }

  /** `clearHistory`: with nothing deletable the list is left as it is;
      otherwise only the protected records remain, in their order. */
  function ClearHistory(s: Store): (r: Store)
    ensures r.progression == s.progression
    ensures (forall i :: 0 <= i < |s.evaluations| ==> !s.evaluations[i].canDelete) ==> r == s
    ensures r.evaluations == Protected(s.evaluations)
    ensures forall x: Evaluation :: multiset(r.evaluations)[x] == if x.canDelete then 0 else multiset(s.evaluations)[x]
  {
    if forall i :: 0 <= i < |s.evaluations| ==> !s.evaluations[i].canDelete then
      ProtectedOfAllProtected(s.evaluations);
      s
    else
      s.(evaluations := Protected(s.evaluations))
  }

  /** Position of the first record with id `id`, as `Array.find` meets it. */
  function FirstWithId(es: seq<Evaluation>, id: string): (r: Option<nat>)
    ensures r.None? <==> forall i :: 0 <= i < |es| ==> es[i].id != id
    ensures r.Some? ==> r.value < |es| && es[r.value].id == id
    ensures r.Some? ==> forall j :: 0 <= j < r.value ==> es[j].id != id
  {
    if |es| == 0 then None
    else if es[0].id == id then Some(0)
    else match FirstWithId(es[1..], id)
      case None => None
      case Some(k) => Some(k + 1)
  }

  /** The order-preserving filter of the records whose id is not `id`:
      exactly the records carrying the id go, the others stay as often as
      they occur. */
  function WithoutId(es: seq<Evaluation>, id: string): (r: seq<Evaluation>)
    ensures |r| <= |es|
    ensures forall x: Evaluation :: multiset(r)[x] == if x.id == id then 0 else multiset(es)[x]
  {
    if |es| == 0 then []
    else
      assert es == [es[0]] + es[1..];
      (if es[0].id == id then [] else [es[0]]) + WithoutId(es[1..], id)
  }

  /** `deleteEvaluation`: refused unless the first record with that id exists
      and is deletable; then every record with that id is removed. Whatever
      happens, no other record is touched and nothing is added. */
  function DeleteEvaluation(s: Store, id: string): (r: Store)
    ensures r.progression == s.progression
    ensures (forall i :: 0 <= i < |s.evaluations| ==> s.evaluations[i].id != id) ==> r == s
    ensures forall x: Evaluation :: multiset(r.evaluations)[x] <= multiset(s.evaluations)[x]
    ensures forall x: Evaluation :: x.id != id ==> multiset(r.evaluations)[x] == multiset(s.evaluations)[x]
  {
    match FirstWithId(s.evaluations, id)
    case None => s
    case Some(k) =>
      if !s.evaluations[k].canDelete then s
      else s.(evaluations := WithoutId(s.evaluations, id))
  }

  /** The guard looks at the first record carrying the id: if it is protected
      the delete is a no-op, otherwise every record with that id goes. */
  lemma DeleteGuard(s: Store, id: string, i: nat)
    requires i < |s.evaluations| && s.evaluations[i].id == id
    requires forall j :: 0 <= j < i ==> s.evaluations[j].id != id
    ensures !s.evaluations[i].canDelete ==> DeleteEvaluation(s, id) == s
    ensures s.evaluations[i].canDelete ==>
      DeleteEvaluation(s, id) == s.(evaluations := WithoutId(s.evaluations, id))
  {
    assert FirstWithId(s.evaluations, id) == Some(i);
  }

  /** No two records share an id (the app makes ids from the save-time clock). */
  predicate UniqueIds(es: seq<Evaluation>) {
    forall i, j :: 0 <= i < j < |es| ==> es[i].id != es[j].id
  }

  /** With unique ids, delete removes at most the one record asked for, and
      never a protected one. */
  lemma DeleteKeepsProtected(s: Store, id: string)
    requires UniqueIds(s.evaluations)
    ensures forall x: Evaluation :: !x.canDelete ==>
      multiset(DeleteEvaluation(s, id).evaluations)[x] == multiset(s.evaluations)[x]
    ensures |DeleteEvaluation(s, id).evaluations| >= |s.evaluations| - 1
  {
    var es := s.evaluations;
    var r := DeleteEvaluation(s, id).evaluations;
    match FirstWithId(es, id)
    case None =>
    case Some(k) =>
      if es[k].canDelete {
        assert forall i :: 0 <= i < |es| && i != k ==> es[i].id != id by {
          forall i | 0 <= i < |es| && i != k ensures es[i].id != id {
            if i < k { assert es[i].id != es[k].id; } else { assert es[k].id != es[i].id; }
          }
        }
        WithoutIdSplit(es, id, k);
      }
  }

  /** The only record carrying the id is the one that goes. */
  lemma WithoutIdSplit(es: seq<Evaluation>, id: string, k: nat)
    requires k < |es| && es[k].id == id
    requires forall i :: 0 <= i < |es| && i != k ==> es[i].id != id
    ensures WithoutId(es, id) == es[..k] + es[k + 1..]
  {
    var before, after := es[..k], es[k + 1..];
    assert es == before + [es[k]] + after;
    WithoutIdPrefix(es, id, k);
    WithoutIdSuffix(es, id, k + 1);
    WithoutIdDropOne(before, es[k], after, id);
  }

  /** A record carrying the id between two stretches the filter keeps whole
      is the only thing that goes. */
  lemma WithoutIdDropOne(before: seq<Evaluation>, x: Evaluation, after: seq<Evaluation>, id: string)
    requires x.id == id
    requires WithoutId(before, id) == before && WithoutId(after, id) == after
    ensures WithoutId(before + [x] + after, id) == before + after
  {
    WithoutIdAppend(before + [x], after, id);
    WithoutIdAppend(before, [x], id);
    assert WithoutId([x], id) == [] + WithoutId([], id);
    assert before + [] == before;
  }

  /** A prefix with no record carrying the id passes the filter whole. */
  lemma WithoutIdPrefix(es: seq<Evaluation>, id: string, k: nat)
    requires k <= |es|
    requires forall i :: 0 <= i < k ==> es[i].id != id
    ensures WithoutId(es[..k], id) == es[..k]
  {
    var part := es[..k];
    assert forall i :: 0 <= i < |part| ==> part[i] == es[i];
    WithoutIdNone(part, id);
  }

  /** So does a suffix with no record carrying the id. */
  lemma WithoutIdSuffix(es: seq<Evaluation>, id: string, k: nat)
    requires k <= |es|
    requires forall i :: k <= i < |es| ==> es[i].id != id
    ensures WithoutId(es[k..], id) == es[k..]
  {
    var part := es[k..];
    assert forall i :: 0 <= i < |part| ==> part[i] == es[k + i];
    WithoutIdNone(part, id);
  }

  /** Filtering distributes over concatenation, so relative order is kept. */
  lemma {:induction false} WithoutIdAppend(a: seq<Evaluation>, b: seq<Evaluation>, id: string)
    ensures WithoutId(a + b, id) == WithoutId(a, id) + WithoutId(b, id)
  {
    if |a| > 0 {
      var head := if a[0].id == id then [] else [a[0]];
      WithoutIdFront(a, b, id);
      WithoutIdAppend(a[1..], b, id);
      AppendAssoc(head, WithoutId(a[1..], id), WithoutId(b, id));
    } else {
      assert a + b == b;
    }
  }

  /** One step of the filter over a concatenation with a non-empty front. */
  lemma WithoutIdFront(a: seq<Evaluation>, b: seq<Evaluation>, id: string)
    requires |a| > 0
    ensures var head := if a[0].id == id then [] else [a[0]];
      && WithoutId(a + b, id) == head + WithoutId(a[1..] + b, id)
      && WithoutId(a, id) == head + WithoutId(a[1..], id)
  {
    assert (a + b)[0] == a[0];
    assert (a + b)[1..] == a[1..] + b;
  }

  lemma {:induction false} WithoutIdNone(es: seq<Evaluation>, id: string)
    requires forall i :: 0 <= i < |es| ==> es[i].id != id
    ensures WithoutId(es, id) == es
  {
    if |es| > 0 {
      WithoutIdNone(es[1..], id);
    }
  }

  /** Without unique ids the guard looks only at the first match: a deletable
      record followed by a protected one with the same id takes the protected
      one with it. */
  lemma DuplicateIdRemovesProtected(a: Evaluation, b: Evaluation, pr: ProgressionState)
    requires a.id == b.id && a.canDelete && !b.canDelete
    ensures DeleteEvaluation(Store([a, b], pr), a.id).evaluations == []
  {
    assert WithoutId([a, b], a.id) == [] + WithoutId([b], a.id);
  }

  /** The periodic refresh applied to the store. */
  function Tick(s: Store, now: int): (r: Store)
    ensures r.progression == s.progression
    ensures |r.evaluations| == |s.evaluations|
    ensures forall i :: 0 <= i < |r.evaluations| ==>
      SameContent(r.evaluations[i], s.evaluations[i]) && (r.evaluations[i].canDelete <==> OldEnough(s.evaluations[i].timestamp, now))
  {
    s.(evaluations := Refresh(s.evaluations, now))
  }

  /** What every state reached from a new installation satisfies. */
  predicate Valid(s: Store) {
    |s.evaluations| <= MaxEvaluations && FlagsConsistent(s.progression)
  }

  /** One call into the store. */
  datatype Op =
    | SaveOp(e: Evaluation, now: int)
    | ClearOp
    | DeleteOp(id: string)
    | TickOp(now: int)

  function Apply(s: Store, op: Op, zone: int): Store {
    match op
    case SaveOp(e, now) => Save(s, e, now, zone)
    case ClearOp => ClearHistory(s)
    case DeleteOp(id) => DeleteEvaluation(s, id)
    case TickOp(now) => Tick(s, now)
  }

  function Run(s: Store, ops: seq<Op>, zone: int): Store
    decreases |ops|
  {
    if |ops| == 0 then s else Run(Apply(s, ops[0], zone), ops[1..], zone)
  }

  /** Every operation keeps the list within 100 and the flags consistent. */
  lemma ApplyKeepsValid(s: Store, op: Op, zone: int)
    requires Valid(s)
    ensures Valid(Apply(s, op, zone))
  {
    match op
    case SaveOp(e, now) => UpdateKeepsFlagsConsistent(s.progression, now, zone);
    case ClearOp =>
    case DeleteOp(id) =>
    case TickOp(now) =>
  }

  /** Any session of operations from a new installation stays valid. */
  lemma {:induction false} RunKeepsValid(s: Store, ops: seq<Op>, zone: int)
    requires Valid(s)
    ensures Valid(Run(s, ops, zone))
    decreases |ops|
  {
    if |ops| > 0 {
      ApplyKeepsValid(s, ops[0], zone);
      RunKeepsValid(Apply(s, ops[0], zone), ops[1..], zone);
    }
  }

  lemma SessionFromInitialIsValid(now: int, ops: seq<Op>, zone: int)
    ensures Valid(Run(InitialStore(now), ops, zone))
  {
    RunKeepsValid(InitialStore(now), ops, zone);
  }
}
