/** The records shared by the evaluation store, the scoring helpers and the
    screens: the five-flag criteria set, an evaluation, the keep-to-yourself
    summary and the day-streak progression record, plus the label tables. */
module ThinkTypes {

  /** Present or absent; `None` plays the part of the app's `null`. */
  datatype Option<+T> = None | Some(value: T)

  /** The five criterion keys, in the order the TypeScript types declare them. */
  datatype Criterion = True | Helpful | Important | Necessary | Kind

  const AllCriteria: seq<Criterion> := [True, Helpful, Important, Necessary, Kind]

  /** A criteria set: exactly one boolean per criterion key. The TypeScript key
      `true` is a keyword here, so its field is called `isTrue`. */
  datatype Criteria = Criteria(isTrue: bool, helpful: bool, important: bool, necessary: bool, kind: bool)
  {
    /** The flag stored under key `k`. */
    function Get(k: Criterion): bool {
      match k
      case True => isTrue
      case Helpful => helpful
      case Important => important
      case Necessary => necessary
      case Kind => kind
    }

    /** The flags in key order, as `Object.values` lists them. */
    function Values(): (vs: seq<bool>)
      ensures |vs| == |AllCriteria|
      ensures forall i :: 0 <= i < |vs| ==> vs[i] == Get(AllCriteria[i])
    {
      [isTrue, helpful, important, necessary, kind]
    }
  }

  /** One logged evaluation. Times are milliseconds since the epoch. */
  datatype Evaluation = Evaluation(
    id: string,
    text: string,
    criteria: Criteria,
    percentage: int,
    timestamp: int,
    canDelete: bool)

  /** Direction of the keep-to-yourself rate, recent half against older half. */
  datatype Trend = Improving | Declining | Stable

  datatype KeepToYourselfStats = KeepToYourselfStats(
    totalKeepToYourself: nat,
    overallScore: int,
    recentTrend: Trend)

  /** The day-streak record. The flags are stored next to the streak length;
      nothing in the type ties them to it. */
  datatype ProgressionState = ProgressionState(
    startDate: int,
    consecutiveDays: int,
    lastActiveDate: Option<int>,
    pleaseUnlocked: bool,
    reallyUnlocked: bool)

  const CriteriaLabels: map<Criterion, string> := map[
    True := "True",
    Helpful := "Helpful",
    Important := "Important",
    Necessary := "Necessary",
    Kind := "Kind"
  ]

  const CriteriaDescriptions: map<Criterion, string> := map[
    True := "Is it factually accurate and honest?",
    Helpful := "Will it help or benefit someone?",
    Important := "Does it matter in the bigger picture?",
    Necessary := "Does it need to be said right now?",
    Kind := "Is it compassionate and considerate?"
  ]

  /** Number of satisfied criteria: the count of `true` among the values. */
  function CountTrue(bs: seq<bool>): (n: nat)
    ensures n <= |bs|
    ensures n == 0 <==> forall i :: 0 <= i < |bs| ==> !bs[i]
    ensures n == |bs| <==> forall i :: 0 <= i < |bs| ==> bs[i]
  {
    if |bs| == 0 then 0
    else (if bs[0] then 1 else 0) + CountTrue(bs[1..])
  }

  /** The count is the number of occurrences of `true`, whatever the mix. */
  lemma {:induction false} CountTrueIsMultiplicity(bs: seq<bool>)
    ensures CountTrue(bs) == multiset(bs)[true]
  {
    if |bs| > 0 {
      CountTrueIsMultiplicity(bs[1..]);
      assert bs == [bs[0]] + bs[1..];
    }
  }

  /** `Object.values(criteria).filter(Boolean).length` for a criteria set. */
  function SatisfiedCount(c: Criteria): (n: nat)
    ensures n <= 5
    ensures n == 0 <==> forall k: Criterion :: !c.Get(k)
    ensures n == 5 <==> forall k: Criterion :: c.Get(k)
    ensures n == (if c.isTrue then 1 else 0) + (if c.helpful then 1 else 0) + (if c.important then 1 else 0)
      + (if c.necessary then 1 else 0) + (if c.kind then 1 else 0)
  {
    ValuesCoverKeys(c);
    CountTrueOfFive(c.isTrue, c.helpful, c.important, c.necessary, c.kind);
    CountTrue(c.Values())
  }

  /** Counting five flags one by one. */
  lemma CountTrueOfFive(a: bool, b: bool, c: bool, d: bool, e: bool)
    ensures CountTrue([a, b, c, d, e])
      == (if a then 1 else 0) + (if b then 1 else 0) + (if c then 1 else 0) + (if d then 1 else 0) + (if e then 1 else 0)
  {
    assert [a, b, c, d, e][1..] == [b, c, d, e];
    assert [b, c, d, e][1..] == [c, d, e];
    assert [c, d, e][1..] == [d, e];
    assert [d, e][1..] == [e];
    assert [e][1..] == [];
    assert CountTrue([e]) == (if e then 1 else 0);
    assert CountTrue([d, e]) == (if d then 1 else 0) + CountTrue([e]);
    assert CountTrue([c, d, e]) == (if c then 1 else 0) + CountTrue([d, e]);
    assert CountTrue([b, c, d, e]) == (if b then 1 else 0) + CountTrue([c, d, e]);
  }

  /** Position of a key in `AllCriteria`. */
  function IndexOf(k: Criterion): (i: nat)
    ensures i < |AllCriteria| && AllCriteria[i] == k
  {
    match k
    case True => 0
    case Helpful => 1
    case Important => 2
    case Necessary => 3
    case Kind => 4
  }

  /** Every key's flag appears in the value list, at the key's position. */
  lemma ValuesCoverKeys(c: Criteria)
    ensures forall k: Criterion :: c.Values()[IndexOf(k)] == c.Get(k)
  {
  }

  /** Each label table has exactly one entry per criterion key. */
  lemma CriteriaTablesComplete()
    ensures forall k: Criterion :: k in CriteriaLabels && k in CriteriaDescriptions
    ensures CriteriaLabels.Keys == CriteriaDescriptions.Keys
    ensures |CriteriaLabels| == |AllCriteria| == |CriteriaDescriptions|
  {
    var keys := {True, Helpful, Important, Necessary, Kind};
    forall k: Criterion ensures k in keys {
      match k
      case True =>
      case Helpful =>
      case Important =>
      case Necessary =>
      case Kind =>
    }
    assert CriteriaLabels.Keys == keys;
    assert CriteriaDescriptions.Keys == keys;
    assert |keys| == 5;
  }

  /** No two keys share a label: the labels start with different letters. */
  lemma CriteriaLabelsDistinct()
    ensures forall j, k :: j in CriteriaLabels && k in CriteriaLabels && j != k ==> CriteriaLabels[j] != CriteriaLabels[k]
  {
    forall j, k | j in CriteriaLabels && k in CriteriaLabels && j != k
      ensures CriteriaLabels[j] != CriteriaLabels[k]
    {
      assert CriteriaLabels[j][0] != CriteriaLabels[k][0];
    }
  }

  /** No two keys share a description: they differ in length or in their
      ninth character. */
  lemma CriteriaDescriptionsDistinct()
    ensures forall j, k :: j in CriteriaDescriptions && k in CriteriaDescriptions && j != k ==> CriteriaDescriptions[j] != CriteriaDescriptions[k]
  {
    forall j, k | j in CriteriaDescriptions && k in CriteriaDescriptions && j != k
      ensures CriteriaDescriptions[j] != CriteriaDescriptions[k]
    {
      var a, b := CriteriaDescriptions[j], CriteriaDescriptions[k];
      assert |a| != |b| || a[8] != b[8];
    }
  }
}
