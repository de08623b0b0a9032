/** Choosing one date among those an email claims: repair, plausibility, outlier removal. */
module DateSelection {
  import opened Prelude
  import opened Sorting

  // ----- dates

  const MICROS_PER_SECOND: int := 1_000_000
  const MICROS_PER_DAY: int := 86_400 * MICROS_PER_SECOND

  /** A civil date and time with its offset from UTC in seconds. */
  datatype DateTime = DateTime(year: int, month: int, day: int, micros: int, offset: int) {
    /** Microseconds on one common time line. */
    function Instant(): int {
      DayNumber(year, month, day) * MICROS_PER_DAY + micros - offset * MICROS_PER_SECOND
    }
  }

  predicate IsLeap(year: int) {
    year % 4 == 0 && (year % 100 != 0 || year % 400 == 0)
  }

  function DaysInMonth(year: int, month: int): int {
    if month == 2 then (if IsLeap(year) then 29 else 28)
    else if month == 4 || month == 6 || month == 9 || month == 11 then 30 else 31
  }

  function DaysBeforeMonth(year: int, month: int): int
    decreases month
  {
    if month <= 1 then 0 else DaysBeforeMonth(year, month - 1) + DaysInMonth(year, month - 1)
  }

  /** Days of the proleptic Gregorian calendar; only differences matter. */
  function DayNumber(year: int, month: int, day: int): int {
    var y := year - 1;
    365 * y + y / 4 - y / 100 + y / 400 + DaysBeforeMonth(year, month) + day
  }

  predicate IsCivil(year: int, month: int, day: int) {
    1 <= month <= 12 && 1 <= day <= DaysInMonth(year, month)
  }

  /** The civil day after. */
  function NextDay(year: int, month: int, day: int): (int, int, int) {
    if IsCivil(year, month, day + 1) then (year, month, day + 1)
    else if month < 12 then (year, month + 1, 1)
    else (year + 1, 1, 1)
  }

  /** The time line has no gaps and no overlaps: every civil day has the number after the one before. */
  lemma DaysAreNumbered(year: int, month: int, day: int)
    requires IsCivil(year, month, day)
    ensures var (y, m, d) := NextDay(year, month, day);
      IsCivil(y, m, d) && DayNumber(y, m, d) == DayNumber(year, month, day) + 1
  {
    hide IsLeap;
    if month == 12 && day == 31 {
      YearLength(year);
      LeapDays(year);
    }
  }

  lemma LeapDays(year: int)
    ensures var y := year - 1;
      year / 4 - year / 100 + year / 400 == y / 4 - y / 100 + y / 400 + if IsLeap(year) then 1 else 0
    ensures DaysBeforeMonth(year + 1, 1) == 0
  {
    FourthYears(year);
    HundredthYears(year);
    FourHundredthYears(year);
  }

  lemma FourthYears(year: int)
    ensures year / 4 - (year - 1) / 4 == if year % 4 == 0 then 1 else 0
  {
  }

  lemma HundredthYears(year: int)
    ensures year / 100 - (year - 1) / 100 == if year % 100 == 0 then 1 else 0
    ensures year % 100 == 0 ==> year % 4 == 0
  {
    assert year == 4 * (25 * (year / 100)) + year % 100;
  }

  lemma FourHundredthYears(year: int)
    ensures year / 400 - (year - 1) / 400 == if year % 400 == 0 then 1 else 0
    ensures year % 400 == 0 ==> year % 100 == 0
  {
    assert year == 100 * (4 * (year / 400)) + year % 400;
  }

  lemma YearLength(year: int)
    ensures DaysBeforeMonth(year, 12) + 31 == if IsLeap(year) then 366 else 365
  {
    assert DaysBeforeMonth(year, 4) == 90 + if IsLeap(year) then 1 else 0;
    assert DaysBeforeMonth(year, 7) == DaysBeforeMonth(year, 4) + 91;
    assert DaysBeforeMonth(year, 10) == DaysBeforeMonth(year, 7) + 92;
    assert DaysBeforeMonth(year, 12) == DaysBeforeMonth(year, 10) + 61;
  }

  /** The same moment told in another zone: a clock that is a second ahead shows a second more. */
  lemma ZonesAgree(d: DateTime, seconds: int)
    ensures d.(micros := d.micros + seconds * 1_000_000, offset := d.offset + seconds).Instant() == d.Instant()
    ensures d.(micros := d.micros + 86_400_000_000).Instant() == d.Instant() + 86_400_000_000
    ensures IsCivil(d.year, d.month, d.day) ==>
      var (y, m, day) := NextDay(d.year, d.month, d.day);
      d.(year := y, month := m, day := day).Instant() == d.Instant() + 86_400_000_000
  {
    hide DayNumber;
    if IsCivil(d.year, d.month, d.day) {
      DaysAreNumbered(d.year, d.month, d.day);
    }
  }

  const OLDEST_MAIL_DATE_CUTOFF: int := 1986

  /** Repairs a year stored modulo 100 or 1000, unless the result lies after the current year or is
      not a date. */
  function FixMillenniumDate(d: DateTime, now: DateTime): DateTime {
    if d.year > 1000 then d
    else
      var adjusted := if d.year < 50 then d.year + 2000 else d.year + 1900;
      if adjusted <= now.year && IsCivil(adjusted, d.month, d.day) then d.(year := adjusted) else d
  }

  predicate IsTooOld(d: DateTime) {
    d.year < OLDEST_MAIL_DATE_CUTOFF
  }

  predicate IsInFuture(d: DateTime, now: DateTime) {
    d.Instant() > now.Instant() + 3 * MICROS_PER_DAY
  }

  predicate HasIssues(d: DateTime, now: DateTime) {
    IsTooOld(d) || IsInFuture(d, now)
  }

  /** A year of one or two digits stands for the one year between 1950 and 2049 that ends in it; one
      of three digits, or 1000, counts from 1900. Both only if that year has come and has such a day;
      later years stay as they are. */
  lemma RepairedYear(d: DateTime, now: DateTime, year: int)
    ensures 0 <= d.year <= 99 && 1950 <= year <= 2049 && year % 100 == d.year ==>
      FixMillenniumDate(d, now) == if year <= now.year && IsCivil(year, d.month, d.day) then d.(year := year) else d
    ensures 100 <= d.year <= 1000 && year - d.year == 1900 ==>
      FixMillenniumDate(d, now) == if year <= now.year && IsCivil(year, d.month, d.day) then d.(year := year) else d
    ensures d.year > 1000 ==> FixMillenniumDate(d, now) == d
  {
    hide IsCivil;
  }

  /** What the repair may do: nothing, or set a year from 1900 on that is not after the current one;
      a repaired date needs no further repair, and one left below year 1001 is never accepted. */
  lemma RepairIsCautious(d: DateTime, now: DateTime)
    ensures var f := FixMillenniumDate(d, now);
      && f.month == d.month && f.day == d.day && f.micros == d.micros && f.offset == d.offset
      && (f == d || (d.year <= 1000 && f.year <= now.year && (d.year >= 0 ==> 1900 <= f.year - d.year <= 2000)))
      && (d.year >= -999 ==> FixMillenniumDate(f, now) == f)
      && (f.year <= 1000 ==> HasIssues(f, now))
  {
  }

  // ----- the statistics, on instants as numbers

  function Median(xs: seq<real>): real
    requires xs != []
  {
    var mid := |xs| / 2;
    if |xs| % 2 == 1 then xs[mid] else (xs[mid - 1] + xs[mid]) / 2.0
  }

  function Abs(x: real): real {
    if x < 0.0 then -x else x
  }

  function Deviations(xs: seq<real>, center: real): (ds: seq<real>)
    ensures |ds| == |xs|
    ensures forall i :: 0 <= i < |xs| ==> ds[i] == Abs(xs[i] - center)
  {
    seq(|xs|, i requires 0 <= i < |xs| => Abs(xs[i] - center))
  }

  function Mad(xs: seq<real>): real
    requires xs != []
  {
    Median(Sort(Deviations(xs, Median(xs))))
  }

  /** The modified z-score test, as written. */
  predicate Survives(x: real, median: real, mad: real)
    requires mad > 0.0
  {
    (0.6745 * Abs(x - median)) / mad <= 3.5
  }

  function Survivors(xs: seq<real>, median: real, mad: real): seq<real>
    requires mad > 0.0
  {
    if xs == [] then []
    else
      var older := Survivors(xs[..|xs| - 1], median, mad);
      if Survives(Last(xs), median, mad) then older + [Last(xs)] else older
  }

  const ONE_DAY: real := 86_400_000_000.0

  /** The chosen instant for safe instants in ascending order. */
  function Chosen(xs: seq<real>): real
    requires xs != []
  {
    if |xs| <= 2 || Last(xs) - xs[0] <= ONE_DAY then xs[0]
    else
      var median, mad := Median(xs), Mad(xs);
      var kept := if mad > 0.0 then Survivors(xs, median, mad) else xs;
      if |kept| < 2 then xs[0] else kept[0]
  }

  // ----- robustness

  /** How far from the median a date may lie, in units of the deviation: 3.5 / 0.6745. */
  const CUT: real := 7000.0 / 1349.0

  lemma SurvivesIffNear(x: real, median: real, mad: real)
    requires mad > 0.0
    ensures Survives(x, median, mad) <==> Abs(x - median) <= CUT * mad
  {
    var d := Abs(x - median);
    var q := (0.6745 * d) / mad;
    assert q * mad == 0.6745 * d;
    if q <= 3.5 {
      assert q * mad <= 3.5 * mad;
    } else {
      assert q * mad > 3.5 * mad;
    }
  }

  /** At most `t` away from the center. */
  lemma {:induction false} SurvivorCount(xs: seq<real>, median: real, mad: real)
    requires mad > 0.0
    ensures |Survivors(xs, median, mad)| == CountLe(Deviations(xs, median), CUT * mad)
  {
    if xs != [] {
      var older := xs[..|xs| - 1];
      SurvivorCount(older, median, mad);
      SurvivesIffNear(Last(xs), median, mad);
      assert Deviations(xs, median) == Deviations(older, median) + [Abs(Last(xs) - median)];
      CountSnoc(Deviations(older, median), Abs(Last(xs) - median), CUT * mad);
    }
  }

  lemma {:induction false} CountSnoc(s: seq<real>, x: real, t: real)
    ensures CountLe(s + [x], t) == CountLe(s, t) + if x <= t then 1 else 0
  {
    if s == [] {
      assert s + [x] == [x] && [x][1..] == [];
    } else {
      assert (s + [x])[1..] == s[1..] + [x];
      CountSnoc(s[1..], x, t);
    }
  }

  /** At least half of all values deviate by no more than the median deviation. */
  lemma HalfWithinMad(xs: seq<real>)
    requires xs != []
    ensures Mad(xs) >= 0.0
    ensures 2 * CountLe(Deviations(xs, Median(xs)), Mad(xs)) >= |xs|
  {
    var ds := Deviations(xs, Median(xs));
    var sorted := Sort(ds);
    SortSorted(ds);
    forall d | d in sorted ensures d >= 0.0 {
      assert d in ds;
    }
    var k := (|xs| + 1) / 2 - 1;
    assert sorted[k] in sorted && sorted[|xs| / 2] in sorted;
    assert sorted[k] <= Mad(xs);
    SortedCount(sorted, Mad(xs), k);
    SortCount(ds, Mad(xs));
  }

  lemma CutAboveOne(mad: real)
    requires mad >= 0.0
    ensures CUT * mad >= mad
  {
  }

  /** At least half of the dates survive the cut. With three or more dates that is at least two, so
      the fallback for a too aggressive removal is never taken. */
  lemma AtLeastHalfSurvive(xs: seq<real>)
    requires xs != [] && Mad(xs) > 0.0
    ensures 2 * |Survivors(xs, Median(xs), Mad(xs))| >= |xs|
    ensures |xs| >= 3 ==> |Survivors(xs, Median(xs), Mad(xs))| >= 2
  {
    hide Median, Mad, Survivors, CountLe;
    HalfWithinMad(xs);
    SurvivorCount(xs, Median(xs), Mad(xs));
    CutAboveOne(Mad(xs));
    CountMonotone(Deviations(xs, Median(xs)), Mad(xs), CUT * Mad(xs));
  }

  /** The survivors are a contiguous slice of the sorted dates. */
  lemma {:induction false} SurvivorsAreSlice(xs: seq<real>, median: real, mad: real) returns (a: nat, b: nat)
    requires Sorted(xs) && mad > 0.0
    ensures a <= b <= |xs| && Survivors(xs, median, mad) == xs[a..b]
    ensures forall i :: 0 <= i < |xs| ==> (a <= i < b <==> Survives(xs[i], median, mad))
  {
    hide Survives, Sorted;
    if xs == [] {
      a, b := 0, 0;
    } else {
      var n := |xs| - 1;
      var older := xs[..n];
      SortedFront(xs);
      a, b := SurvivorsAreSlice(older, median, mad);
      assert forall i :: 0 <= i < n ==> older[i] == xs[i];
      SliceOfFront(xs, a, b);
      if Survives(xs[n], median, mad) {
        if a == b {
          a := n;
        } else if b < n {
          SortedAt(xs, a, b);
          SortedAt(xs, b, n);
          BetweenSurvivors(xs[a], xs[b], xs[n], median, mad);
        }
        SliceOfFront(xs, a, n);
        b := n + 1;
      }
    }
  }

  lemma SortedFront(xs: seq<real>)
    requires Sorted(xs) && xs != []
    ensures Sorted(xs[..|xs| - 1])
  {
  }

  lemma SortedAt(xs: seq<real>, i: nat, j: nat)
    requires Sorted(xs) && i <= j < |xs|
    ensures xs[i] <= xs[j]
  {
  }

  lemma SliceOfFront(xs: seq<real>, a: nat, b: nat)
    requires a <= b < |xs|
    ensures xs[..|xs| - 1][a..b] == xs[a..b]
    ensures b == |xs| - 1 ==> xs[a..b + 1] == xs[a..b] + [xs[b]]
  {
  }

  lemma BetweenSurvivors(x: real, y: real, z: real, median: real, mad: real)
    requires mad > 0.0 && x <= y <= z && Survives(x, median, mad) && Survives(z, median, mad)
    ensures Survives(y, median, mad)
  {
    SurvivesIffNear(x, median, mad);
    SurvivesIffNear(y, median, mad);
    SurvivesIffNear(z, median, mad);
  }

  /** The largest date that is not after the median. */
  function BelowMedian(xs: seq<real>): nat
    requires xs != []
  {
    (|xs| - 1) / 2
  }

  lemma MedianBounds(xs: seq<real>)
    requires Sorted(xs) && xs != []
    ensures xs[BelowMedian(xs)] <= Median(xs) <= xs[|xs| / 2]
    ensures forall i :: 0 <= i < |xs| ==> Abs(xs[i] - Median(xs)) >= Median(xs) - xs[BelowMedian(xs)]
    ensures Median(xs) - xs[BelowMedian(xs)] == Abs(xs[BelowMedian(xs)] - Median(xs))
  {
  }

  /** That date always survives: no deviation is smaller than its own. */
  lemma CoreSurvives(xs: seq<real>)
    requires Sorted(xs) && xs != [] && Mad(xs) > 0.0
    ensures Survives(xs[BelowMedian(xs)], Median(xs), Mad(xs))
  {
    hide Median;
    var median := Median(xs);
    var delta := median - xs[BelowMedian(xs)];
    MedianBounds(xs);
    var ds := Deviations(xs, median);
    SortSorted(ds);
    forall d | d in Sort(ds) ensures d >= delta {
      assert d in ds;
    }
    MedianAtLeast(Sort(ds), delta);
    SurvivesIffNear(xs[BelowMedian(xs)], median, Mad(xs));
  }

  lemma MedianAtLeast(s: seq<real>, t: real)
    requires s != [] && forall d :: d in s ==> d >= t
    ensures Median(s) >= t
  {
    assert s[|s| / 2] in s;
    if |s| % 2 == 0 {
      assert s[|s| / 2 - 1] in s;
    }
  }

  lemma MedianAtMost(s: seq<real>, t: real)
    requires s != [] && Sorted(s) && s[|s| / 2] <= t
    ensures Median(s) <= t
  {
  }

  /** The dates are looked at more closely when there are three or more, they span more than a day,
      and they deviate from their median. */
  predicate CutsOutliers(xs: seq<real>)
    requires xs != []
  {
    |xs| >= 3 && Last(xs) - xs[0] > 86_400_000_000.0 && Mad(xs) > 0.0
  }

  /** Then the chosen date is the earliest of those within the cut of the median, and not after it;
      otherwise it is the earliest of all. */
  lemma ChosenNearMedian(xs: seq<real>)
    requires Sorted(xs) && xs != []
    ensures Chosen(xs) in xs && xs[0] <= Chosen(xs) <= Median(xs)
    ensures CutsOutliers(xs) ==> Abs(Chosen(xs) - Median(xs)) <= 7000.0 / 1349.0 * Mad(xs)
    ensures CutsOutliers(xs) ==> forall x :: x in xs && Abs(x - Median(xs)) <= 7000.0 / 1349.0 * Mad(xs) ==>
      Chosen(xs) <= x
    ensures !CutsOutliers(xs) ==> Chosen(xs) == xs[0]
  {
    hide Median, Mad, Survivors, Abs, Survives;
    MedianBounds(xs);
    if CutsOutliers(xs) {
      var median, mad := Median(xs), Mad(xs);
      AtLeastHalfSurvive(xs);
      CoreSurvives(xs);
      var a, b := SurvivorsAreSlice(xs, median, mad);
      assert Survivors(xs, median, mad)[0] == xs[a];
      assert a <= BelowMedian(xs) < b;
      SurvivesIffNear(xs[a], median, mad);
      forall x | x in xs && Abs(x - median) <= CUT * mad ensures xs[a] <= x {
        var i :| 0 <= i < |xs| && xs[i] == x;
        SurvivesIffNear(x, median, mad);
      }
    }
  }

  /** The median lies half way between the middle values, which are one for an odd number; so does the
      deviation, among the distances from the median. */
  lemma MedianIsMidpoint(xs: seq<real>)
    requires xs != []
    ensures Median(xs) - xs[(|xs| - 1) / 2] == xs[|xs| / 2] - Median(xs)
    ensures var ds := Sort(Deviations(xs, Median(xs)));
      |ds| == |xs| && Mad(xs) - ds[(|xs| - 1) / 2] == ds[|xs| / 2] - Mad(xs)
  {
    hide Sort, Abs;
    SortSorted(Deviations(xs, Median(xs)));
  }

  // ----- the breakdown bound

  /** How many values lie in [a, b]. */
  function CountIn(xs: seq<real>, a: real, b: real): (n: nat)
    ensures n <= |xs|
  {
    if xs == [] then 0 else (if a <= xs[0] <= b then 1 else 0) + CountIn(xs[1..], a, b)
  }

  lemma {:induction false} CountInSplit(xs: seq<real>, k: nat, a: real, b: real)
    requires k <= |xs|
    ensures CountIn(xs, a, b) == CountIn(xs[..k], a, b) + CountIn(xs[k..], a, b)
  {
    if k > 0 {
      CountInSplit(xs[1..], k - 1, a, b);
      assert xs[..k][1..] == xs[1..][..k - 1] && xs[k..] == xs[1..][k - 1..];
    } else {
      assert xs[..0] == [] && xs[0..] == xs;
    }
  }

  lemma {:induction false} CountInNone(xs: seq<real>, a: real, b: real)
    requires forall i :: 0 <= i < |xs| ==> xs[i] < a || b < xs[i]
    ensures CountIn(xs, a, b) == 0
  {
    if xs != [] {
      CountInNone(xs[1..], a, b);
    }
  }

  lemma BelowRange(xs: seq<real>, k: nat, a: real, b: real)
    requires Sorted(xs) && k < |xs| && xs[k] < a
    ensures CountIn(xs, a, b) <= |xs| - k - 1
  {
    CountInSplit(xs, k + 1, a, b);
    CountInNone(xs[..k + 1], a, b);
  }

  lemma AboveRange(xs: seq<real>, k: nat, a: real, b: real)
    requires Sorted(xs) && k < |xs| && b < xs[k]
    ensures CountIn(xs, a, b) <= k
  {
    CountInSplit(xs, k, a, b);
    CountInNone(xs[k..], a, b);
  }

  /** With a strict majority in [a, b], the middle of the sorted values lies there. */
  lemma MajorityHoldsMiddle(xs: seq<real>, a: real, b: real)
    requires Sorted(xs) && 2 * CountIn(xs, a, b) > |xs|
    ensures a <= xs[BelowMedian(xs)] && xs[|xs| / 2] <= b
  {
    hide CountIn, Sorted;
    if xs[BelowMedian(xs)] < a {
      BelowRange(xs, BelowMedian(xs), a, b);
    }
    if b < xs[|xs| / 2] {
      AboveRange(xs, |xs| / 2, a, b);
    }
  }

  lemma {:induction false} CloseValuesDeviateLittle(xs: seq<real>, a: real, b: real, center: real)
    requires a <= center <= b
    ensures CountLe(Deviations(xs, center), b - a) >= CountIn(xs, a, b)
  {
    if xs != [] {
      CloseValuesDeviateLittle(xs[1..], a, b, center);
      assert Deviations(xs, center)[1..] == Deviations(xs[1..], center);
    }
  }

  /** A strict majority in [a, b] bounds both the median and the median deviation. */
  lemma MajorityBounds(xs: seq<real>, a: real, b: real)
    requires Sorted(xs) && 2 * CountIn(xs, a, b) > |xs|
    ensures a <= Median(xs) <= b && Mad(xs) <= b - a
  {
    hide Median, Sorted, Sort, CountLe, CountIn, Deviations, Abs;
    MajorityHoldsMiddle(xs, a, b);
    MedianBounds(xs);
    var ds := Deviations(xs, Median(xs));
    CloseValuesDeviateLittle(xs, a, b, Median(xs));
    SortSorted(ds);
    SortCount(ds, b - a);
    SortedCount(Sort(ds), b - a, |xs| / 2);
    MedianAtMost(Sort(ds), b - a);
  }

  /** The breakdown bound, exactly. If a strict majority of the dates lie in [a, b], the chosen date
      is never after b, whatever the others are. It is at least a - (7000/1349)(b - a) whenever
      outliers are removed, and in general if and only if they are removed or the earliest date
      itself is. */
  lemma BreakdownBound(xs: seq<real>, a: real, b: real)
    requires Sorted(xs) && 2 * CountIn(xs, a, b) > |xs|
    ensures Chosen(xs) <= Median(xs) <= b
    ensures var bound := a - CUT * (b - a);
      Chosen(xs) >= bound <==>
        (|xs| >= 3 && Last(xs) - xs[0] > ONE_DAY && Mad(xs) > 0.0) || xs[0] >= bound
  {
    hide Median, Mad, Chosen, Sorted;
    MajorityBounds(xs, a, b);
    ChosenNearMedian(xs);
    ScaleCut(Mad(xs), b - a);
  }

  lemma ScaleCut(x: real, y: real)
    requires x <= y
    ensures CUT * x <= CUT * y
  {
  }

  /** When half of the dates coincide nothing is removed: two equal dates do not protect against one
      that is ten days early. */
  lemma EqualDatesKeepOutlier(x: real)
    ensures var xs := [x - 10.0 * ONE_DAY, x, x];
      Sorted(xs) && CountIn(xs, x, x) == 2 && Mad(xs) == 0.0 && Chosen(xs) == x - 10.0 * ONE_DAY
  {
    var xs := [x - 10.0 * ONE_DAY, x, x];
    assert Median(xs) == x;
    var ds := Deviations(xs, x);
    assert ds == [10.0 * ONE_DAY, 0.0, 0.0];
    assert ds[1..] == [0.0, 0.0] && ds[1..][1..] == [0.0] && ds[1..][1..][1..] == [];
    assert CountLe(ds[1..][1..], 0.0) == 1;
    SortSorted(ds);
    SortCount(ds, 0.0);
    SortedCount(Sort(ds), 0.0, 1);
    assert Sort(ds)[1] in Sort(ds);
    assert xs[1..] == [x, x] && xs[2..] == [x] && xs[1..][1..] == [x];
    assert CountIn([x], x, x) == 1;
  }

  // ----- the whole selection

  /** The repaired dates that are plausible, in the order given. */
  function SafeDates(options: seq<DateTime>, now: DateTime): seq<DateTime> {
    if options == [] then []
    else
      var older, d := SafeDates(options[..|options| - 1], now), FixMillenniumDate(Last(options), now);
      if HasIssues(d, now) then older else older + [d]
  }

  function Times(dates: seq<DateTime>): (ts: seq<real>)
    ensures |ts| == |dates|
    ensures forall i :: 0 <= i < |dates| ==> ts[i] == dates[i].Instant() as real
  {
    seq(|dates|, i requires 0 <= i < |dates| => dates[i].Instant() as real)
  }

  predicate NotLater(a: DateTime, b: DateTime) {
    a.Instant() <= b.Instant()
  }

  /** Sorting by instant; equal instants keep their order. */
  function SortDates(s: seq<DateTime>): seq<DateTime> {
    SortBy(NotLater, s)
  }

  lemma {:induction false} TimesOfInsert(d: DateTime, s: seq<DateTime>)
    ensures Times(InsertBy(NotLater, d, s)) == Insert(d.Instant() as real, Times(s))
  {
    hide DateTime.Instant;
    if s != [] {
      assert Times(s)[1..] == Times(s[1..]);
      TimesOfInsert(d, s[1..]);
    }
  }

  lemma {:induction false} TimesOfSort(s: seq<DateTime>)
    ensures Times(SortDates(s)) == Sort(Times(s))
  {
    hide DateTime.Instant;
    if s != [] {
      assert Times(s)[1..] == Times(s[1..]);
      TimesOfSort(s[1..]);
      TimesOfInsert(s[0], SortDates(s[1..]));
    }
  }

  method SelectDate(options: seq<DateTime>, now: DateTime) returns (chosen: Option<int>)
    ensures chosen.None? <==> SafeDates(options, now) == []
    ensures chosen.Some? ==> chosen.value as real == Chosen(Sort(Times(SafeDates(options, now))))
  {
    hide DateTime.Instant, HasIssues, FixMillenniumDate, Sort, SortDates, Survives;
    var safe: seq<DateTime> := [];
    for i := 0 to |options|
      invariant safe == SafeDates(options[..i], now)
    {
      assert options[..i + 1][..i] == options[..i];
      var d := FixMillenniumDate(options[i], now);
      if !HasIssues(d, now) {
        safe := safe + [d];
      }
    }
    assert options[..|options|] == options;
    if safe == [] {
      return None;
    }
    TimesOfSort(safe);
    safe := SortDates(safe);
    var timestamps := Times(safe);
    if |safe| <= 2 {
      return Some(safe[0].Instant());
    }
    var range := (safe[|safe| - 1].Instant() - safe[0].Instant()) as real;
    if range <= ONE_DAY {
      return Some(safe[0].Instant());
    }
    var median := Median(timestamps);
    var deviations := Sort(Deviations(timestamps, median));
    var mad := Median(deviations);
    var originalSafe := safe;
    if mad > 0.0 {
      safe := Retain(safe, median, mad);
    }
    if |safe| < 2 {
      safe := originalSafe;
    }
    return Some(safe[0].Instant());
  }

  /** Keeps the dates that pass the outlier test, in order. */
  method Retain(dates: seq<DateTime>, median: real, mad: real) returns (kept: seq<DateTime>)
    requires mad > 0.0
    ensures Times(kept) == Survivors(Times(dates), median, mad)
  {
    hide DateTime.Instant, Survives;
    kept := [];
    for i := 0 to |dates|
      invariant Times(kept) == Survivors(Times(dates[..i]), median, mad)
    {
      assert Times(dates[..i + 1])[..i] == Times(dates[..i]);
      if Survives(dates[i].Instant() as real, median, mad) {
        kept := kept + [dates[i]];
      }
    }
    assert dates[..|dates|] == dates;
  }

  lemma {:induction false} SafeDateOrigin(options: seq<DateTime>, now: DateTime, i: nat) returns (k: nat)
    requires i < |SafeDates(options, now)|
    ensures k < |options| && SafeDates(options, now)[i] == FixMillenniumDate(options[k], now)
    ensures !HasIssues(SafeDates(options, now)[i], now)
  {
    hide HasIssues, FixMillenniumDate;
    var older := options[..|options| - 1];
    if i < |SafeDates(older, now)| {
      k := SafeDateOrigin(older, now, i);
    } else {
      k := |options| - 1;
    }
  }

  predicate IsPlausible(d: DateTime, now: DateTime) {
    d.year >= 1986 && d.Instant() <= now.Instant() + 3 * MICROS_PER_DAY
  }

  predicate IsRepairOf(d: DateTime, now: DateTime, instant: real) {
    var repaired := FixMillenniumDate(d, now);
    IsPlausible(repaired, now) && repaired.Instant() as real == instant
  }

  lemma SafeIsPlausible(d: DateTime, now: DateTime)
    ensures HasIssues(d, now) <==> !IsPlausible(d, now)
  {
  }

  /** The chosen instant is that of one of the given dates, repaired, not before 1986 and not more
      than three days ahead. */
  lemma ChosenIsPlausible(options: seq<DateTime>, now: DateTime)
    requires SafeDates(options, now) != []
    ensures exists d :: d in options && IsRepairOf(d, now, Chosen(Sort(Times(SafeDates(options, now)))))
  {
    hide HasIssues, FixMillenniumDate, DateTime.Instant, Chosen, Sort, IsPlausible;
    var safe := SafeDates(options, now);
    var xs := Sort(Times(safe));
    SortSorted(Times(safe));
    ChosenNearMedian(xs);
    assert Chosen(xs) in Times(safe);
    var i :| 0 <= i < |safe| && Times(safe)[i] == Chosen(xs);
    var k := SafeDateOrigin(options, now, i);
    SafeIsPlausible(safe[i], now);
    assert IsRepairOf(options[k], now, Chosen(xs));
  }

  lemma {:induction false} SafeDatesPermuted(a: seq<DateTime>, b: seq<DateTime>, now: DateTime)
    requires multiset(a) == multiset(b)
    ensures multiset(SafeDates(a, now)) == multiset(SafeDates(b, now))
  {
    hide HasIssues, FixMillenniumDate;
    forall d ensures multiset(SafeDates(a, now))[d] == multiset(SafeDates(b, now))[d] {
      SafeMultiplicity(a, now, d);
      SafeMultiplicity(b, now, d);
      PreimageCount(a, b, now, d);
    }
  }

  /** How many of the dates are repaired to `d`. */
  function Preimages(options: seq<DateTime>, now: DateTime, d: DateTime): nat {
    if options == [] then 0
    else Preimages(options[..|options| - 1], now, d) + if FixMillenniumDate(Last(options), now) == d then 1 else 0
  }

  lemma {:induction false} SafeMultiplicity(options: seq<DateTime>, now: DateTime, d: DateTime)
    ensures multiset(SafeDates(options, now))[d] == if HasIssues(d, now) then 0 else Preimages(options, now, d)
  {
    hide HasIssues, FixMillenniumDate;
    if options != [] {
      SafeMultiplicity(options[..|options| - 1], now, d);
    }
  }

  lemma {:induction false} PreimageRemove(s: seq<DateTime>, k: nat, now: DateTime, d: DateTime)
    requires k < |s|
    ensures Preimages(s, now, d)
      == Preimages(s[..k] + s[k + 1..], now, d) + if FixMillenniumDate(s[k], now) == d then 1 else 0
  {
    hide FixMillenniumDate;
    var n := |s| - 1;
    if k == n {
      assert s[..k] + s[k + 1..] == s[..n];
    } else {
      PreimageRemove(s[..n], k, now, d);
      var t := s[..k] + s[k + 1..];
      assert s[k + 1..] == s[k + 1..n] + [s[n]];
      assert t == (s[..k] + s[k + 1..n]) + [s[n]];
      assert t[..|t| - 1] == s[..k] + s[k + 1..n] == s[..n][..k] + s[..n][k + 1..];
    }
  }

  lemma {:induction false} PreimageCount(a: seq<DateTime>, b: seq<DateTime>, now: DateTime, d: DateTime)
    requires multiset(a) == multiset(b)
    ensures Preimages(a, now, d) == Preimages(b, now, d)
    decreases |a|
  {
    hide FixMillenniumDate, Preimages;
    assert |multiset(a)| == |a| && |multiset(b)| == |b|;
    if a != [] {
      assert a[0] in multiset(b);
      var k :| 0 <= k < |b| && b[k] == a[0];
      PreimageRemove(a, 0, now, d);
      PreimageRemove(b, k, now, d);
      DropOne(a, 0);
      DropOne(b, k);
      PreimageCount(a[..0] + a[1..], b[..k] + b[k + 1..], now, d);
    } else {
      assert b == [];
    }
  }

  lemma DropOne(s: seq<DateTime>, k: nat)
    requires k < |s|
    ensures multiset(s[..k] + s[k + 1..]) == multiset(s) - multiset{s[k]}
  {
    assert s == s[..k] + [s[k]] + s[k + 1..];
  }

  lemma TimesWithout(s: seq<DateTime>, k: nat)
    requires k < |s|
    ensures Without(Times(s), k) == Times(s[..k] + s[k + 1..])
  {
    hide DateTime.Instant;
  }

  lemma CountWithout(s: seq<DateTime>, k: nat, t: real)
    requires k < |s|
    ensures multiset(s[..k] + s[k + 1..]) == multiset(s) - multiset{s[k]}
    ensures CountLe(Times(s), t)
      == CountLe(Times(s[..k] + s[k + 1..]), t) + if s[k].Instant() as real <= t then 1 else 0
  {
    hide DateTime.Instant, CountLe, Without, Times;
    DropOne(s, k);
    RemoveOne(Times(s), k, t);
    TimesWithout(s, k);
  }

  lemma {:induction false} TimesMultiplicity(a: seq<DateTime>, b: seq<DateTime>, t: real)
    requires multiset(a) == multiset(b)
    ensures CountLe(Times(a), t) == CountLe(Times(b), t)
    decreases |a|
  {
    hide DateTime.Instant, CountLe, Without, Times;
    assert |multiset(a)| == |a| && |multiset(b)| == |b|;
    if a != [] {
      assert a[0] in multiset(b);
      var k :| 0 <= k < |b| && b[k] == a[0];
      CountWithout(a, 0, t);
      CountWithout(b, k, t);
      TimesMultiplicity(a[..0] + a[1..], b[..k] + b[k + 1..], t);
    } else {
      assert b == [];
    }
  }

  /** The order in which the dates were found does not matter. */
  lemma SelectionIsOrderIndependent(a: seq<DateTime>, b: seq<DateTime>, now: DateTime)
    requires multiset(a) == multiset(b)
    ensures Sort(Times(SafeDates(a, now))) == Sort(Times(SafeDates(b, now)))
    ensures SafeDates(a, now) == [] <==> SafeDates(b, now) == []
  {
    hide SafeDates, Sort, CountLe;
    SafeDatesPermuted(a, b, now);
    var x, y := SafeDates(a, now), SafeDates(b, now);
    assert |multiset(x)| == |x| && |multiset(y)| == |y|;
    SortSorted(Times(x));
    SortSorted(Times(y));
    forall t ensures CountLe(Sort(Times(x)), t) == CountLe(Sort(Times(y)), t) {
      SortCount(Times(x), t);
      SortCount(Times(y), t);
      TimesMultiplicity(x, y, t);
    }
    SortedUnique(Sort(Times(x)), Sort(Times(y)));
  }
}
