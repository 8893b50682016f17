/** The scoring helpers: the criteria-count to percentage map and the
    six-band classifier that picks a colour and a message for a percentage. */
module ThinkHelpers {
  import opened ThinkTypes

  /** The six bands, best first. */
  datatype Band = Perfect | Good | Consider | ThinkTwice | Probably | KeepIt

  /** Rank of a band: 0 for the lowest (keep it to yourself), 5 for perfect. */
  function Rank(b: Band): nat {
    match b
    case KeepIt => 0
    case Probably => 1
    case ThinkTwice => 2
    case Consider => 3
    case Good => 4
    case Perfect => 5
  }

  /** The band a percentage falls in: the guards tried top-down, first match wins. */
  function BandOf(p: int): (b: Band)
    ensures b == Perfect <==> p == 100
    ensures b == Good <==> p >= 80 && p != 100
    ensures b == Consider <==> 60 <= p < 80
    ensures b == ThinkTwice <==> 40 <= p < 60
    ensures b == Probably <==> 20 <= p < 40
    ensures b == KeepIt <==> p < 20
  {
    if p == 100 then Perfect
    else if p >= 80 then Good
    else if p >= 60 then Consider
    else if p >= 40 then ThinkTwice
    else if p >= 20 then Probably
    else KeepIt
  }

  function BandColor(b: Band): string {
    match b
    case Perfect => "#4CAF50"
    case Good => "#66BB6A"
    case Consider => "#FFA726"
    case ThinkTwice => "#FF7043"
    case Probably => "#EF5350"
    case KeepIt => "#E53935"
  }

  function BandMessage(b: Band): string {
    match b
    case Perfect => "Perfect! Say it with confidence"
    case Good => "Good to say"
    case Consider => "Consider carefully"
    case ThinkTwice => "Think twice"
    case Probably => "Probably best not to say"
    case KeepIt => "Keep it to yourself"
  }

  /** `getPercentageColor`, with its own guard sequence. */
  function PercentageColor(p: int): (c: string)
    ensures c == BandColor(BandOf(p))
  {
    if p == 100 then "#4CAF50"
    else if p >= 80 then "#66BB6A"
    else if p >= 60 then "#FFA726"
    else if p >= 40 then "#FF7043"
    else if p >= 20 then "#EF5350"
    else "#E53935"
  }

  /** `getPercentageMessage`, with its own guard sequence. */
  function PercentageMessage(p: int): (m: string)
    ensures m == BandMessage(BandOf(p))
  {
    if p == 100 then "Perfect! Say it with confidence"
    else if p >= 80 then "Good to say"
    else if p >= 60 then "Consider carefully"
    else if p >= 40 then "Think twice"
    else if p >= 20 then "Probably best not to say"
    else "Keep it to yourself"
  }

  /** The six colours are pairwise distinct, and so are the six messages: the
      colour, the message and the band each determine the other two. */
  lemma ColorAndMessageAgree(p: int, q: int)
    ensures PercentageColor(p) == PercentageColor(q) <==> BandOf(p) == BandOf(q)
    ensures PercentageMessage(p) == PercentageMessage(q) <==> BandOf(p) == BandOf(q)
    ensures PercentageColor(p) == PercentageColor(q) <==> PercentageMessage(p) == PercentageMessage(q)
  {
    var a, b := BandOf(p), BandOf(q);
    if a != b {
      assert BandColor(a) != BandColor(b) by { BandColorInjective(a, b); }
      assert BandMessage(a) != BandMessage(b) by { BandMessageInjective(a, b); }
    }
  }

  lemma BandColorInjective(a: Band, b: Band)
    requires a != b
    ensures BandColor(a) != BandColor(b)
  {
    // Characters 1 to 3 already tell the six colours apart.
    assert BandColor(a)[1] != BandColor(b)[1] || BandColor(a)[2] != BandColor(b)[2]
        || BandColor(a)[3] != BandColor(b)[3];
  }

  lemma BandMessageInjective(a: Band, b: Band)
    requires a != b
    ensures BandMessage(a) != BandMessage(b)
  {
    // The first two characters already tell the six messages apart.
    assert BandMessage(a)[0] != BandMessage(b)[0] || BandMessage(a)[1] != BandMessage(b)[1];
  }

  /** Within the intended range the band never drops as the percentage grows;
      above 100 it does, because 100 alone is perfect and 101 lands in the
      80-and-over band. */
  lemma BandMonotoneUpTo100(p: int, q: int)
    requires p <= q <= 100
    ensures Rank(BandOf(p)) <= Rank(BandOf(q))
  {
  }

  lemma AboveHundredIsGood(p: int)
    requires p > 100
    ensures BandOf(p) == Good
    ensures Rank(BandOf(p)) < Rank(BandOf(100))
  {
  }

  /** `calculatePercentage`: `(count / 5) * 100`. In doubles the product is
      exact for counts 0 to 10, which covers the 0..5 a criteria set gives, so
      the result is kept as the exact rational value, an integer. */
  function CalculatePercentage(count: int): (p: int)
    ensures p as real == (count as real / 5.0) * 100.0
  {
    assert count * 100 / 5 == 20 * count;
    assert (count as real / 5.0) * 100.0 == (20 * count) as real;
    count * 100 / 5
  }

  /** Strictly increasing in the count, and 0..5 satisfied criteria give
      exactly 0, 20, 40, 60, 80 and 100. */
  lemma {:induction false} CalculatePercentageSteps(j: int, k: int)
    requires j < k
    ensures CalculatePercentage(j) < CalculatePercentage(k)
    ensures CalculatePercentage(k) - CalculatePercentage(j) == 20 * (k - j)
  {
    assert CalculatePercentage(j) as real == j as real * 20.0;
    assert CalculatePercentage(k) as real == k as real * 20.0;
  }

  /** Each count 0..5 lands in its own band, from "Keep it to yourself" for no
      satisfied criterion to "Perfect" for all five. */
  lemma CountBands(k: int)
    requires 0 <= k <= 5
    ensures Rank(BandOf(CalculatePercentage(k))) == k
    ensures k == 0 ==> PercentageMessage(CalculatePercentage(k)) == "Keep it to yourself"
    ensures k == 5 ==> PercentageMessage(CalculatePercentage(k)) == "Perfect! Say it with confidence"
  {
    assert CalculatePercentage(k) as real == k as real * 20.0;
    assert CalculatePercentage(k) == 20 * k;
  }

  /** The percentage a criteria set earns, as the entry screen computes it. */
  function Score(c: Criteria): (p: int)
    ensures 0 <= p <= 100
    ensures p == 100 <==> forall k: Criterion :: c.Get(k)
    ensures p == 0 <==> forall k: Criterion :: !c.Get(k)
    ensures p == 20 * SatisfiedCount(c)
    ensures Rank(BandOf(p)) == SatisfiedCount(c)
  {
    var n := SatisfiedCount(c);
    CountBands(n);
    assert CalculatePercentage(n) as real == n as real * 20.0;
    CalculatePercentage(n)
  }
}
