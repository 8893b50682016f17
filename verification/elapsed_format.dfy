/** The relative-time text shown on an evaluation card ("5 minutes ago",
    "1 hour ago", "3 days ago"), as a function of the elapsed milliseconds
    `now - timestamp`. */
module ElapsedFormat {
  import Progression

  const MsPerMinute: int := 1000 * 60
  const MsPerHour: int := 1000 * 60 * 60

  datatype TimeUnit = Minute | Hour | Day

  /** A whole number of units, before it is rendered as text. */
  datatype Elapsed = Elapsed(count: int, unit: TimeUnit)

  /** `formatDate` up to rendering: whole minutes below an hour, whole hours
      below a day, whole days from then on (all rounded down). */
  function ElapsedOf(diff: int): (e: Elapsed)
    ensures e.unit == Minute <==> diff < MsPerHour
    ensures e.unit == Hour <==> MsPerHour <= diff < Progression.MsPerDay
    ensures e.unit == Day <==> Progression.MsPerDay <= diff
    ensures e.unit == Minute ==> e.count * MsPerMinute <= diff < (e.count + 1) * MsPerMinute
    ensures e.unit == Hour ==> e.count * MsPerHour <= diff < (e.count + 1) * MsPerHour
    ensures e.unit == Day ==> e.count * Progression.MsPerDay <= diff < (e.count + 1) * Progression.MsPerDay
    ensures e.unit == Minute && diff >= 0 ==> 0 <= e.count <= 59
    ensures e.unit == Hour ==> 1 <= e.count <= 23
    ensures e.unit == Day ==> e.count >= 1
  {
    var hours := diff / MsPerHour;
    if hours < 1 then Elapsed(diff / MsPerMinute, Minute)
    else if hours < 24 then Elapsed(hours, Hour)
    else
      FloorOfFloor(diff, MsPerHour, 24);
      Elapsed(hours / 24, Day)
  }

  /** Rounding down twice is rounding down once by the product. */
  lemma FloorOfFloor(x: int, m: int, n: int)
    requires m > 0 && n > 0
    ensures (x / m) / n == x / (m * n)
  {
    var q := x / m;
    var k := q / n;
    assert q * m <= x < (q + 1) * m;
    assert k * n <= q < (k + 1) * n;
    assert k * (m * n) == (k * n) * m;
    assert (k * n) * m <= q * m by { MulMonotone(k * n, q, m); }
    assert (q + 1) * m <= ((k + 1) * n) * m by { MulMonotone(q + 1, (k + 1) * n, m); }
    assert ((k + 1) * n) * m == (k + 1) * (m * n);
    DivUnique(x, m * n, k);
  }

  lemma MulMonotone(a: int, b: int, m: int)
    requires a <= b && m > 0
    ensures a * m <= b * m
  {
    assert b * m - a * m == (b - a) * m;
  }

  lemma DivUnique(x: int, d: int, k: int)
    requires d > 0 && k * d <= x < (k + 1) * d
    ensures x / d == k
  {
    var q := x / d;
    assert q * d <= x < (q + 1) * d;
    if q < k {
      MulMonotone(q + 1, k, d);
    } else if q > k {
      MulMonotone(k + 1, q, d);
    }
  }

  function UnitWord(u: TimeUnit): string {
    match u
    case Minute => "minute"
    case Hour => "hour"
    case Day => "day"
  }

  function DigitChar(d: int): char
    requires 0 <= d < 10
  {
    "0123456789"[d]
  }

  predicate IsDigit(c: char) {
    '0' <= c <= '9'
  }

  /** Decimal numeral of a natural number, as JavaScript prints it below
      10^21 (from there on it switches to exponent form); every elapsed count
      built from dates is far below that. */
  function NatToString(n: nat): (s: string)
    ensures |s| >= 1
    ensures forall i :: 0 <= i < |s| ==> IsDigit(s[i])
    ensures s[0] == '0' ==> n == 0
    ensures n == 0 ==> s == "0"
    decreases n
  {
    if n < 10 then [DigitChar(n)] else NatToString(n / 10) + [DigitChar(n % 10)]
  }

  /** Decimal numeral of an integer, with a leading minus sign when negative. */
  function IntToString(n: int): (s: string)
    ensures |s| >= 1
    ensures forall i :: 0 <= i < |s| ==> s[i] != ' '
    ensures s[0] == '-' <==> n < 0
  {
    if n < 0 then "-" + NatToString(-n) else NatToString(n)
  }

  /** Reads a numeral back. */
  function ParseNat(s: string): nat
    requires forall i :: 0 <= i < |s| ==> IsDigit(s[i])
  {
    if |s| == 0 then 0
    else
      assert IsDigit(s[|s| - 1]);
      ParseNat(s[..|s| - 1]) * 10 + ((s[|s| - 1] as int) - ('0' as int))
  }

  function ParseInt(s: string): int
    requires |s| >= 1
    requires s[0] == '-' ==> forall i :: 1 <= i < |s| ==> IsDigit(s[i])
    requires s[0] != '-' ==> forall i :: 0 <= i < |s| ==> IsDigit(s[i])
  {
    if s[0] == '-' then -(ParseNat(s[1..]) as int) else ParseNat(s)
  }

  lemma {:induction false} NatToStringRoundTrip(n: nat)
    ensures ParseNat(NatToString(n)) == n
    decreases n
  {
    var s := NatToString(n);
    if n < 10 {
      assert s[..|s| - 1] == [];
    } else {
      NatToStringRoundTrip(n / 10);
      assert s[..|s| - 1] == NatToString(n / 10);
    }
  }

  /** The numeral printed for any count reads back as that count. */
  lemma IntToStringRoundTrip(n: int)
    ensures var s := IntToString(n);
      && (s[0] == '-' ==> forall i :: 1 <= i < |s| ==> IsDigit(s[i]))
      && (s[0] != '-' ==> forall i :: 0 <= i < |s| ==> IsDigit(s[i]))
      && ParseInt(s) == n
  {
    if n < 0 {
      NegativeNumeral(n);
      NatToStringRoundTrip(-n);
    } else {
      NatToStringRoundTrip(n);
    }
  }

  /** A negative numeral is a minus sign followed by the digits of `-n`. */
  lemma NegativeNumeral(n: int)
    requires n < 0
    ensures var s := IntToString(n);
      && s[0] == '-' && s[1..] == NatToString(-n)
      && forall i :: 1 <= i < |s| ==> IsDigit(s[i])
  {
    var s, t := IntToString(n), NatToString(-n);
    assert s == "-" + t;
    assert forall i :: 1 <= i < |s| ==> s[i] == t[i - 1];
  }

  /** `${count} unit${count !== 1 ? 's' : ''} ago`. */
  function Render(e: Elapsed): (s: string)
    ensures |s| > 4 && s[|s| - 4..] == " ago"
  {
    IntToString(e.count) + " " + UnitWord(e.unit) + (if e.count != 1 then "s" else "") + " ago"
  }

  /** The unit is plural exactly when the count is not 1: the character before
      " ago" is 's' iff the count differs from 1 (no unit word ends in 's'). */
  lemma RenderPlural(e: Elapsed)
    ensures Render(e)[|Render(e)| - 5] == 's' <==> e.count != 1
  {
    var w := UnitWord(e.unit);
    assert w[|w| - 1] != 's';
  }

  /** The numeral in front of the first space is the count. */
  lemma RenderLeadsWithCount(e: Elapsed)
    ensures var s := Render(e); var k := |IntToString(e.count)|;
      && k < |s| && s[k] == ' '
      && (forall i :: 0 <= i < k ==> s[i] != ' ')
      && s[..k] == IntToString(e.count)
      && |s| == k + 1 + |UnitWord(e.unit)| + (if e.count != 1 then 1 else 0) + 4
  {
  }

  /** `formatDate` for an elapsed time of `diff` milliseconds: the text ends
      in " ago", and its unit is plural exactly when the count is not 1. */
  function FormatDate(diff: int): (s: string)
    ensures |s| > 5 && s[|s| - 4..] == " ago"
    ensures s[|s| - 5] == 's' <==> ElapsedOf(diff).count != 1
  {
    RenderPlural(ElapsedOf(diff));
    Render(ElapsedOf(diff))
  }

  /** Reading the text back: the numeral before the first space is the whole
      number of elapsed units, and the unit word follows it. */
  lemma FormatDateReadsBack(diff: int)
    ensures var s := FormatDate(diff); var e := ElapsedOf(diff); var k := |IntToString(e.count)|;
      && k < |s| && s[k] == ' '
      && (forall i :: 0 <= i < k ==> s[i] != ' ')
      && ParseInt(IntToString(e.count)) == e.count
      && s[..k] == IntToString(e.count)
      && s[k + 1..k + 1 + |UnitWord(e.unit)|] == UnitWord(e.unit)
  {
    var e := ElapsedOf(diff);
    RenderLeadsWithCount(e);
    IntToStringRoundTrip(e.count);
    var s := FormatDate(diff);
    var k := |IntToString(e.count)|;
    assert s == IntToString(e.count) + " " + UnitWord(e.unit) + (if e.count != 1 then "s" else "") + " ago";
  }

  /** Examples at the unit boundaries. */
  lemma FormatBoundaries()
    ensures ElapsedOf(MsPerHour - 1) == Elapsed(59, Minute)
    ensures ElapsedOf(MsPerHour) == Elapsed(1, Hour)
    ensures ElapsedOf(Progression.MsPerDay - 1) == Elapsed(23, Hour)
    ensures ElapsedOf(Progression.MsPerDay) == Elapsed(1, Day)
    ensures ElapsedOf(-1) == Elapsed(-1, Minute)
  {
  }
}
