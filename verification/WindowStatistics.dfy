/**
 The statistics reported for one measurement over a window of samples: mean, minimum
 and maximum of the samples inside the interquartile fences.  Values are exact reals.
*/
module WindowStatistics {

  const MAX_WINDOW_SAMPLES: nat := 64
  const IQR_MIN_SAMPLES: nat := 4
  const IQR_FACTOR: real := 1.5

  datatype Stats = Stats(mean: real, min: real, max: real)

  // ---------------------------------------------------------------- sorting

  function Insert(s: seq<real>, x: real): (r: seq<real>)
    ensures |r| == |s| + 1
  {
    if s == [] || s[|s| - 1] <= x then s + [x]
    else Insert(s[..|s| - 1], x) + [s[|s| - 1]]
  }

  /** What the library sort leaves in the copy of the window. */
  function Sorted(xs: seq<real>): (r: seq<real>)
    ensures |r| == |xs|
  {
    if xs == [] then [] else Insert(Sorted(xs[..|xs| - 1]), xs[|xs| - 1])
  }

  predicate Ascending(s: seq<real>) {
    forall i, j :: 0 <= i <= j < |s| ==> s[i] <= s[j]
  }

  lemma {:induction false} InsertKeepsValues(s: seq<real>, x: real)
    ensures multiset(Insert(s, x)) == multiset(s) + multiset{x}
  {
    if s != [] && x < s[|s| - 1] {
      var n := |s| - 1;
      InsertKeepsValues(s[..n], x);
      assert s == s[..n] + [s[n]];
    }
  }

  lemma {:induction false} InsertIsBounded(s: seq<real>, x: real, b: real)
    requires x <= b && forall i :: 0 <= i < |s| ==> s[i] <= b
    ensures forall i :: 0 <= i <= |s| ==> Insert(s, x)[i] <= b
  {
    if s != [] && x < s[|s| - 1] {
      InsertIsBounded(s[..|s| - 1], x, b);
    }
  }

  lemma {:induction false} InsertAscends(s: seq<real>, x: real)
    requires Ascending(s)
    ensures Ascending(Insert(s, x))
  {
    if s != [] && x < s[|s| - 1] {
      var n := |s| - 1;
      InsertAscends(s[..n], x);
      InsertIsBounded(s[..n], x, s[n]);
    }
  }

  /** The sorted copy is ascending and holds the same values. */
  lemma {:induction false} SortedAscends(xs: seq<real>)
    ensures Ascending(Sorted(xs)) && multiset(Sorted(xs)) == multiset(xs)
  {
    if xs != [] {
      var n := |xs| - 1;
      SortedAscends(xs[..n]);
      InsertAscends(Sorted(xs[..n]), xs[n]);
      InsertKeepsValues(Sorted(xs[..n]), xs[n]);
      assert xs == xs[..n] + [xs[n]];
    }
  }

  lemma LastBoundsMembers(s: seq<real>, x: real)
    requires Ascending(s) && x in multiset(s)
    ensures s != [] && x <= s[|s| - 1]
  {
    assert x in s;
  }

  lemma SameLast(a: seq<real>, b: seq<real>)
    requires Ascending(a) && Ascending(b) && multiset(a) == multiset(b) && a != []
    ensures b != [] && a[|a| - 1] == b[|b| - 1]
  {
    assert a[|a| - 1] in multiset(a);
    LastBoundsMembers(b, a[|a| - 1]);
    assert b[|b| - 1] in multiset(b);
    LastBoundsMembers(a, b[|b| - 1]);
  }

  lemma WithoutLast(s: seq<real>)
    requires s != []
    ensures multiset(s[..|s| - 1]) == multiset(s) - multiset{s[|s| - 1]}
  {
    assert s == s[..|s| - 1] + [s[|s| - 1]];
  }

  function Init(s: seq<real>): seq<real>
    requires s != []
  {
    s[..|s| - 1]
  }

  lemma InitAscends(s: seq<real>)
    requires Ascending(s) && s != []
    ensures Ascending(Init(s))
  {
  }

  lemma SameInit(a: seq<real>, b: seq<real>)
    requires Ascending(a) && Ascending(b) && multiset(a) == multiset(b) && a != []
    ensures b != [] && a[|a| - 1] == b[|b| - 1] && multiset(Init(a)) == multiset(Init(b))
    ensures Init(a) == Init(b) ==> a == b
  {
    SameLast(a, b);
    WithoutLast(a);
    WithoutLast(b);
    assert a == Init(a) + [a[|a| - 1]] && b == Init(b) + [b[|b| - 1]];
  }

  lemma {:induction false} AscendingIsUnique(a: seq<real>, b: seq<real>)
    requires Ascending(a) && Ascending(b) && multiset(a) == multiset(b)
    ensures a == b
    decreases |a|
  {
    hide Ascending;
    if a != [] {
      SameInit(a, b);
      InitAscends(a);
      InitAscends(b);
      AscendingIsUnique(Init(a), Init(b));
    } else if b != [] {
      SameLast(b, a);
    }
  }

  // ---------------------------------------------------------------- percentiles

  function Ceiling(x: real): int {
    -((-x).Floor)
  }

  function Interpolate(x: real, y: real, frac: real): real {
    x * (1.0 - frac) + y * frac
  }

  function Position(p: real, n: nat): real {
    p * ((n - 1) as real)
  }

  /** Linear interpolation between the neighbours of position p * (n - 1). */
  function Percentile(sorted: seq<real>, p: real): real
    requires 0.0 <= p <= 1.0
  {
    var n := |sorted|;
    if n == 0 then 0.0
    else if n == 1 then sorted[0]
    else
      var pos := Position(p, n);
      PositionInRange(p, n);
      var lo := pos.Floor;
      var hi := if Ceiling(pos) >= n then n - 1 else Ceiling(pos);
      var frac := pos - lo as real;
      Interpolate(sorted[lo], sorted[hi], frac)
  }

  lemma PositionInRange(p: real, n: nat)
    requires 0.0 <= p <= 1.0 && 2 <= n
    ensures 0.0 <= Position(p, n) <= (n - 1) as real
    ensures 0 <= Position(p, n).Floor < n && 0 <= Ceiling(Position(p, n)) < n
  {
    Scaled(p, (n - 1) as real);
    FloorInRange(Position(p, n), n - 1);
  }

  lemma Scaled(p: real, x: real)
    requires 0.0 <= p <= 1.0 && 0.0 <= x
    ensures 0.0 <= p * x <= x
  {
    NonNegative(p, x);
    NonNegative(1.0 - p, x);
  }

  lemma FloorInRange(x: real, m: int)
    requires 0.0 <= x <= m as real
    ensures 0 <= x.Floor <= m && 0 <= Ceiling(x) <= m
  {
  }

  // ---------------------------------------------------------------- accumulating

  /** What the accumulation loop holds; `min` and `max` mean something once a value is kept. */
  datatype Tally = Tally(kept: nat, sum: real, min: real, max: real)

  const NOTHING := Tally(0, 0.0, 0.0, 0.0)

  function Add(t: Tally, v: real): Tally {
    Tally(t.kept + 1, t.sum + v,
          if t.kept == 0 || v < t.min then v else t.min,
          if t.kept == 0 || v > t.max then v else t.max)
  }

  /** The range of values that are not rejected; without fences, every value. */
  datatype Fences = Everything | Between(low: real, high: real)
  {
    predicate Keeps(v: real) {
      Between? ==> low <= v <= high
    }
  }

  function TallyOf(xs: seq<real>, f: Fences): Tally {
    if xs == [] then NOTHING
    else
      var t := TallyOf(xs[..|xs| - 1], f);
      if f.Keeps(xs[|xs| - 1]) then Add(t, xs[|xs| - 1]) else t
  }

  function FencesOf(values: seq<real>): Fences {
    if |values| < IQR_MIN_SAMPLES then Everything
    else
      var q1, q3 := Percentile(Sorted(values), 0.25), Percentile(Sorted(values), 0.75);
      Between(q1 - IQR_FACTOR * (q3 - q1), q3 + IQR_FACTOR * (q3 - q1))
  }

  function Summary(t: Tally): Stats {
    if t.kept == 0 then Stats(0.0, 0.0, 0.0) else Stats(t.sum / (t.kept as real), t.min, t.max)
  }

  /** The statistics of a window, with the fallback to all samples should none be kept. */
  function WindowStats(values: seq<real>): Stats {
    var t := TallyOf(values, FencesOf(values));
    Summary(if t.kept == 0 then TallyOf(values, Everything) else t)
  }

  method ComputeIqrStats(values: seq<real>) returns (mean: real, min: real, max: real)
    requires |values| <= MAX_WINDOW_SAMPLES
    ensures Stats(mean, min, max) == WindowStats(values)
  {
    hide Percentile, Sorted;
    var n := |values|;
    var sorted := Sorted(values);
    var useFilter := n >= IQR_MIN_SAMPLES;
    var low, high := 0.0, 0.0;
    if useFilter {
      var q1 := Percentile(sorted, 0.25);
      var q3 := Percentile(sorted, 0.75);
      var iqr := q3 - q1;
      low := q1 - IQR_FACTOR * iqr;
      high := q3 + IQR_FACTOR * iqr;
    }
    ghost var f := FencesOf(values);

    var sum, minV, maxV, kept := 0.0, 0.0, 0.0, 0;
    for i := 0 to n
      invariant Tally(kept, sum, minV, maxV) == TallyOf(values[..i], f)
    {
      assert values[..i + 1][..i] == values[..i];
      var v := values[i];
      if useFilter && (v < low || v > high) {
        continue;
      }
      sum := sum + v;
      if kept == 0 || v < minV {
        minV := v;
      }
      if kept == 0 || v > maxV {
        maxV := v;
      }
      kept := kept + 1;
    }
    assert values[..n] == values;

    if kept == 0 {
      sum, minV, maxV := 0.0, 0.0, 0.0;
      for i := 0 to n
        invariant Tally(i, sum, minV, maxV) == TallyOf(values[..i], Everything)
      {
        assert values[..i + 1][..i] == values[..i];
        var v := values[i];
        sum := sum + v;
        if i == 0 || v < minV {
          minV := v;
        }
        if i == 0 || v > maxV {
          maxV := v;
        }
      }
      kept := n;
    }

    if kept == 0 {
      return 0.0, 0.0, 0.0;
    }
    return sum / (kept as real), minV, maxV;
  }

  // ---------------------------------------------------------------- order does not matter

  function Take(t: Tally, v: real, f: Fences): Tally {
    if f.Keeps(v) then Add(t, v) else t
  }

  lemma TakeCommutes(t: Tally, v: real, w: real, f: Fences)
    ensures Take(Take(t, v, f), w, f) == Take(Take(t, w, f), v, f)
  {
  }

  lemma {:induction false} TallyOfInsert(s: seq<real>, x: real, f: Fences)
    ensures TallyOf(Insert(s, x), f) == Take(TallyOf(s, f), x, f)
  {
    if s == [] || s[|s| - 1] <= x {
      assert (s + [x])[..|s|] == s;
    } else {
      var n := |s| - 1;
      TallyOfInsert(s[..n], x, f);
      assert Insert(s, x)[..|s|] == Insert(s[..n], x);
      TakeCommutes(TallyOf(s[..n], f), x, s[n], f);
    }
  }

  lemma {:induction false} TallyOfSorted(xs: seq<real>, f: Fences)
    ensures TallyOf(Sorted(xs), f) == TallyOf(xs, f)
  {
    if xs != [] {
      var n := |xs| - 1;
      TallyOfSorted(xs[..n], f);
      TallyOfInsert(Sorted(xs[..n]), xs[n], f);
    }
  }

  lemma SortedIgnoresOrder(xs: seq<real>, ys: seq<real>)
    requires multiset(xs) == multiset(ys)
    ensures Sorted(xs) == Sorted(ys) && |xs| == |ys|
  {
    SortedAscends(xs);
    SortedAscends(ys);
    hide Sorted, Ascending;
    AscendingIsUnique(Sorted(xs), Sorted(ys));
  }

  /** The reported statistics depend on the values in the window only, not on their order. */
  lemma StatsIgnoreOrder(xs: seq<real>, ys: seq<real>)
    requires multiset(xs) == multiset(ys)
    ensures WindowStats(xs) == WindowStats(ys)
  {
    hide TallyOf, Sorted, Percentile, Summary;
    SortedIgnoresOrder(xs, ys);
    assert FencesOf(xs) == FencesOf(ys);
    TallyOfSorted(xs, FencesOf(xs));
    TallyOfSorted(ys, FencesOf(ys));
    TallyOfSorted(xs, Everything);
    TallyOfSorted(ys, Everything);
  }

  // ---------------------------------------------------------------- quartiles of a sorted window

  /** A percentile lies between its two neighbours. */
  lemma PercentileBetween(s: seq<real>, p: real, lo: nat, hi: nat)
    requires Ascending(s) && 2 <= |s| && 0.0 <= p <= 1.0
    requires lo <= hi < |s| && lo as real <= Position(p, |s|) <= hi as real
    ensures s[lo] <= Percentile(s, p) <= s[hi]
  {
    hide Position, Interpolate, Ceiling;
    var n := |s|;
    var pos := Position(p, n);
    PositionInRange(p, n);
    var l, h := pos.Floor, Ceiling(pos);
    FloorMonotone(pos, lo, hi);
    var frac := pos - l as real;
    Mix(s[l], s[h], frac, s[lo], s[hi]);
  }

  lemma FloorMonotone(x: real, lo: int, hi: int)
    requires lo as real <= x <= hi as real
    ensures lo <= x.Floor <= Ceiling(x) <= hi && 0.0 <= x - x.Floor as real < 1.0
  {
  }

  lemma NonNegative(x: real, y: real)
    requires 0.0 <= x && 0.0 <= y
    ensures 0.0 <= x * y
  {
  }

  lemma Mix(x: real, y: real, frac: real, low: real, high: real)
    requires low <= x <= high && low <= y <= high && 0.0 <= frac <= 1.0
    ensures low <= Interpolate(x, y, frac) <= high
  {
    NonNegative(x - low, 1.0 - frac);
    NonNegative(y - low, frac);
    NonNegative(high - x, 1.0 - frac);
    NonNegative(high - y, frac);
  }

  /** The lower quarter of a window of n samples, rounded down and up. */
  function QuarterDown(n: nat): nat
    requires 1 <= n
  {
    (n - 1) / 4
  }

  function QuarterUp(n: nat): nat
    requires 1 <= n
  {
    (n + 2) / 4
  }

  lemma Quarters(n: nat)
    requires IQR_MIN_SAMPLES <= n
    ensures 4 * QuarterDown(n) <= n - 1 <= 4 * QuarterUp(n)
    ensures QuarterDown(n) <= QuarterUp(n) && 2 * QuarterUp(n) < n
  {
  }

  lemma QuartileNeighbours(s: seq<real>)
    requires Ascending(s) && IQR_MIN_SAMPLES <= |s|
    ensures QuarterUp(|s|) < |s| - QuarterUp(|s|)
    ensures s[QuarterDown(|s|)] <= Percentile(s, 0.25) <= s[QuarterUp(|s|)]
    ensures s[|s| - 1 - QuarterUp(|s|)] <= Percentile(s, 0.75) <= s[|s| - 1 - QuarterDown(|s|)]
  {
    var n := |s|;
    hide Percentile, QuarterDown, QuarterUp;
    Quarters(n);
    PercentileBetween(s, 0.25, QuarterDown(n), QuarterUp(n));
    PercentileBetween(s, 0.75, n - 1 - QuarterUp(n), n - 1 - QuarterDown(n));
  }

  // ---------------------------------------------------------------- what is kept

  lemma {:induction false} KeptAtMostAll(xs: seq<real>, f: Fences)
    ensures TallyOf(xs, f).kept <= |xs|
    ensures f == Everything ==> TallyOf(xs, f).kept == |xs|
  {
    if xs != [] {
      KeptAtMostAll(xs[..|xs| - 1], f);
    }
  }

  lemma {:induction false} MiddleIsKept(s: seq<real>, f: Fences, c: nat, d: nat)
    requires c <= d && forall i :: c <= i < d && i < |s| ==> f.Keeps(s[i])
    ensures TallyOf(s, f).kept >= (if |s| < d then |s| else d) - c
    decreases |s|
  {
    if s != [] {
      MiddleIsKept(s[..|s| - 1], f, c, d);
    }
  }

  lemma {:induction false} KeptIsBounded(xs: seq<real>, f: Fences, v: real)
    requires v in xs && f.Keeps(v)
    ensures 0 < TallyOf(xs, f).kept && TallyOf(xs, f).min <= v <= TallyOf(xs, f).max
  {
    var n := |xs| - 1;
    if v != xs[n] {
      assert xs == xs[..n] + [xs[n]];
      KeptIsBounded(xs[..n], f, v);
    }
  }

  /** The fences contain the quartiles, so everything between them is kept. */
  lemma FencesHoldMiddle(values: seq<real>, i: nat)
    requires IQR_MIN_SAMPLES <= |values| && QuarterUp(|values|) <= i < |values| - QuarterUp(|values|)
    ensures FencesOf(values).Keeps(Sorted(values)[i])
  {
    hide Percentile, Sorted;
    var s := Sorted(values);
    SortedAscends(values);
    QuartileNeighbours(s);
    assert s[QuarterUp(|s|)] <= s[i] <= s[|s| - 1 - QuarterUp(|s|)];
  }

  /** At least n - 2 * ceil((n - 1) / 4) samples survive, so the fallback to all samples is never taken. */
  lemma FilterKeepsMiddle(values: seq<real>)
    requires IQR_MIN_SAMPLES <= |values|
    ensures TallyOf(values, FencesOf(values)).kept >= |values| - 2 * QuarterUp(|values|) > 0
    ensures WindowStats(values) == Summary(TallyOf(values, FencesOf(values)))
  {
    hide FencesOf, TallyOf, Sorted;
    var s := Sorted(values);
    var c := QuarterUp(|s|);
    forall i | c <= i < |s| - c
      ensures FencesOf(values).Keeps(s[i])
    {
      FencesHoldMiddle(values, i);
    }
    MiddleIsKept(s, FencesOf(values), c, |s| - c);
    TallyOfSorted(values, FencesOf(values));
  }

  ghost predicate Within(t: Tally, low: real, high: real) {
    && t.kept as real * low <= t.sum <= t.kept as real * high
    && (0 < t.kept ==> low <= t.min <= t.max <= high)
  }

  lemma AddStaysWithin(t: Tally, v: real, low: real, high: real)
    requires Within(t, low, high) && low <= v <= high
    ensures Within(Add(t, v), low, high)
  {
    OneMore(t.kept, low);
    OneMore(t.kept, high);
  }

  /** Mean, minimum and maximum of kept values that all lie in an interval lie in it. */
  lemma {:induction false} TallyStaysWithin(xs: seq<real>, f: Fences, low: real, high: real)
    requires forall i :: 0 <= i < |xs| && f.Keeps(xs[i]) ==> low <= xs[i] <= high
    ensures Within(TallyOf(xs, f), low, high)
  {
    if xs != [] {
      var n := |xs| - 1;
      TallyStaysWithin(xs[..n], f, low, high);
      hide Within, Add;
      if f.Keeps(xs[n]) {
        AddStaysWithin(TallyOf(xs[..n], f), xs[n], low, high);
      }
    }
  }

  lemma OneMore(k: nat, x: real)
    ensures (k + 1) as real * x == k as real * x + x
  {
  }

  lemma MeanWithin(t: Tally, low: real, high: real)
    requires 0 < t.kept && Within(t, low, high)
    ensures low <= Summary(t).mean <= high
  {
    var k := t.kept as real;
    var m := t.sum / k;
    assert m * k == t.sum;
    if m < low {
      assert (low - m) * k > 0.0;
    }
    if m > high {
      assert (m - high) * k > 0.0;
    }
  }

  lemma {:induction false} MinMaxBoundKept(xs: seq<real>, f: Fences)
    ensures var t := TallyOf(xs, f);
      0 < t.kept ==> Within(t, t.min, t.max)
  {
    hide TallyOf;
    var t := TallyOf(xs, f);
    forall i | 0 <= i < |xs| && f.Keeps(xs[i])
      ensures t.min <= xs[i] <= t.max
    {
      KeptIsBounded(xs, f, xs[i]);
    }
    TallyStaysWithin(xs, f, t.min, t.max);
  }

  /** Whatever the window, the reported mean lies between the reported minimum and maximum. */
  lemma MeanBetweenMinAndMax(values: seq<real>)
    ensures WindowStats(values).min <= WindowStats(values).mean <= WindowStats(values).max
  {
    hide TallyOf, FencesOf;
    var t := TallyOf(values, FencesOf(values));
    var u := TallyOf(values, Everything);
    MinMaxBoundKept(values, FencesOf(values));
    MinMaxBoundKept(values, Everything);
    if t.kept > 0 {
      MeanWithin(t, t.min, t.max);
    } else if u.kept > 0 {
      MeanWithin(u, u.min, u.max);
    }
  }

  /** The middle of a window passes the filter, whatever its size. */
  lemma MiddleIsKeptAlways(values: seq<real>, i: nat)
    requires (|values| - 1) / 2 <= i <= |values| / 2 && i < |values|
    ensures FencesOf(values).Keeps(Sorted(values)[i])
  {
    if IQR_MIN_SAMPLES <= |values| {
      Quarters(|values|);
      FencesHoldMiddle(values, i);
    }
  }

  /** Whatever the window, its median lies between the reported minimum and maximum. */
  lemma MedianBetweenMinAndMax(values: seq<real>)
    ensures WindowStats(values).min <= Percentile(Sorted(values), 0.5) <= WindowStats(values).max
  {
    var s, f, n := Sorted(values), FencesOf(values), |values|;
    if n > 0 {
      hide TallyOf, FencesOf, Sorted, Percentile;
      var lo, hi := (n - 1) / 2, n / 2;
      SortedAscends(values);
      MiddleIsKeptAlways(values, lo);
      MiddleIsKeptAlways(values, hi);
      TallyOfSorted(values, f);
      KeptIsBounded(s, f, s[lo]);
      KeptIsBounded(s, f, s[hi]);
      MedianBetweenNeighbours(s);
    }
  }

  lemma MedianBetweenNeighbours(s: seq<real>)
    requires Ascending(s) && s != []
    ensures s[(|s| - 1) / 2] <= Percentile(s, 0.5) <= s[|s| / 2]
  {
    if |s| >= 2 {
      hide Percentile;
      PercentileBetween(s, 0.5, (|s| - 1) / 2, |s| / 2);
    }
  }

  // ---------------------------------------------------------------- robustness

  /** The number of values outside [a, b]. */
  function Outside(xs: seq<real>, a: real, b: real): nat {
    if xs == [] then 0
    else Outside(xs[..|xs| - 1], a, b) + if a <= xs[|xs| - 1] <= b then 0 else 1
  }

  lemma {:induction false} OutsideOfInsert(s: seq<real>, x: real, a: real, b: real)
    ensures Outside(Insert(s, x), a, b) == Outside(s, a, b) + if a <= x <= b then 0 else 1
  {
    if s == [] || s[|s| - 1] <= x {
      assert (s + [x])[..|s|] == s;
    } else {
      var n := |s| - 1;
      OutsideOfInsert(s[..n], x, a, b);
      assert Insert(s, x)[..|s|] == Insert(s[..n], x);
    }
  }

  lemma {:induction false} OutsideOfSorted(xs: seq<real>, a: real, b: real)
    ensures Outside(Sorted(xs), a, b) == Outside(xs, a, b)
  {
    if xs != [] {
      var n := |xs| - 1;
      OutsideOfSorted(xs[..n], a, b);
      OutsideOfInsert(Sorted(xs[..n]), xs[n], a, b);
    }
  }

  lemma {:induction false} ManyOutside(s: seq<real>, a: real, b: real, from: nat, to: nat)
    requires from <= to <= |s| && forall i :: from <= i < to ==> !(a <= s[i] <= b)
    ensures Outside(s, a, b) >= to - from
    decreases |s|
  {
    if s != [] {
      var n := |s| - 1;
      ManyOutside(s[..n], a, b, if from <= n then from else n, if to <= n then to else n);
    }
  }

  /** With at most k strays, all but the k lowest and k highest samples are in [a, b]. */
  lemma StraysAreAtTheEnds(s: seq<real>, a: real, b: real, k: nat)
    requires Ascending(s) && Outside(s, a, b) <= k && 2 * k < |s|
    ensures a <= s[k] && s[|s| - 1 - k] <= b
  {
    if s[k] < a {
      ManyOutside(s, a, b, 0, k + 1);
    }
    if s[|s| - 1 - k] > b {
      ManyOutside(s, a, b, |s| - 1 - k, |s|);
    }
  }

  /**
   Breakdown bound: as long as at most floor((n - 1) / 4) samples stray outside [a, b], however
   far, the reported mean, minimum and maximum stay within one and a half interval lengths of it.
  */
  lemma StraysCannotCarryStats(values: seq<real>, a: real, b: real)
    requires IQR_MIN_SAMPLES <= |values| && a <= b && Outside(values, a, b) <= QuarterDown(|values|)
    ensures var w := IQR_FACTOR * (b - a);
      var st := WindowStats(values);
      a - w <= st.min <= st.mean <= st.max <= b + w
  {
    hide TallyOf, Sorted, Percentile, Outside;
    var s := Sorted(values);
    var k := QuarterDown(|s|);
    SortedAscends(values);
    OutsideOfSorted(values, a, b);
    StraysAreAtTheEnds(s, a, b, k);
    QuartileNeighbours(s);
    var q1, q3 := Percentile(s, 0.25), Percentile(s, 0.75);
    assert a <= q1 && q3 <= b;
    var f := FencesOf(values);
    assert a - IQR_FACTOR * (b - a) <= f.low && f.high <= b + IQR_FACTOR * (b - a);
    FilterKeepsMiddle(values);
    TallyStaysWithin(values, f, f.low, f.high);
    MeanBetweenMinAndMax(values);
  }

  // ---------------------------------------------------------------- change of unit

  function Rescale(x: real, c: real, d: real): real {
    c * x + d
  }

  function RescaleAll(xs: seq<real>, c: real, d: real): (r: seq<real>)
    ensures |r| == |xs|
  {
    if xs == [] then [] else RescaleAll(xs[..|xs| - 1], c, d) + [Rescale(xs[|xs| - 1], c, d)]
  }

  lemma RescaleOrder(x: real, y: real, c: real, d: real)
    requires 0.0 < c
    ensures Rescale(x, c, d) <= Rescale(y, c, d) <==> x <= y
  {
    if x <= y {
      NonNegative(c, y - x);
      Distribute(c, y, x);
    } else {
      Positive(c, x - y);
      Distribute(c, x, y);
    }
  }

  lemma Distribute(c: real, x: real, y: real)
    ensures c * (x - y) == c * x - c * y
  {
  }

  lemma Positive(x: real, y: real)
    requires 0.0 < x && 0.0 < y
    ensures 0.0 < x * y
  {
  }

  lemma {:induction false} RescaleAt(xs: seq<real>, c: real, d: real, i: nat)
    requires i < |xs|
    ensures RescaleAll(xs, c, d)[i] == Rescale(xs[i], c, d)
  {
    hide Rescale;
    if i < |xs| - 1 {
      RescaleAt(xs[..|xs| - 1], c, d, i);
    }
  }

  lemma {:induction false} RescaleOfInsert(s: seq<real>, x: real, c: real, d: real)
    requires 0.0 < c
    ensures RescaleAll(Insert(s, x), c, d) == Insert(RescaleAll(s, c, d), Rescale(x, c, d))
  {
    hide Rescale;
    if s == [] {
      assert [x][..0] == [];
    } else {
      var n := |s| - 1;
      RescaleOrder(s[n], x, c, d);
      var rs := RescaleAll(s, c, d);
      assert rs[..n] == RescaleAll(s[..n], c, d) && rs[n] == Rescale(s[n], c, d);
      if s[n] <= x {
        assert (s + [x])[..|s|] == s;
      } else {
        RescaleOfInsert(s[..n], x, c, d);
        assert Insert(s, x)[..|s|] == Insert(s[..n], x);
      }
    }
  }

  lemma {:induction false} RescaleOfSorted(xs: seq<real>, c: real, d: real)
    requires 0.0 < c
    ensures Sorted(RescaleAll(xs, c, d)) == RescaleAll(Sorted(xs), c, d)
  {
    hide Rescale;
    if xs != [] {
      var n := |xs| - 1;
      RescaleOfSorted(xs[..n], c, d);
      RescaleOfInsert(Sorted(xs[..n]), xs[n], c, d);
      var rs := RescaleAll(xs, c, d);
      assert rs[..n] == RescaleAll(xs[..n], c, d) && rs[n] == Rescale(xs[n], c, d);
    }
  }

  lemma MixRescales(x: real, y: real, frac: real, c: real, d: real)
    ensures Interpolate(Rescale(x, c, d), Rescale(y, c, d), frac) == Rescale(Interpolate(x, y, frac), c, d)
  {
  }

  lemma PercentileRescales(s: seq<real>, p: real, c: real, d: real)
    requires 0.0 <= p <= 1.0 && s != []
    ensures Percentile(RescaleAll(s, c, d), p) == Rescale(Percentile(s, p), c, d)
  {
    hide Rescale, RescaleAll, Position, Interpolate, Ceiling;
    var n := |s|;
    if n == 1 {
      RescaleAt(s, c, d, 0);
    } else {
      var pos := Position(p, n);
      PositionInRange(p, n);
      var lo := pos.Floor;
      var hi := if Ceiling(pos) >= n then n - 1 else Ceiling(pos);
      RescaleAt(s, c, d, lo);
      RescaleAt(s, c, d, hi);
      MixRescales(s[lo], s[hi], pos - lo as real, c, d);
    }
  }

  function RescaleFences(f: Fences, c: real, d: real): Fences {
    if f == Everything then f else Between(Rescale(f.low, c, d), Rescale(f.high, c, d))
  }

  lemma FenceRescales(q1: real, q3: real, c: real, d: real)
    ensures Rescale(q1, c, d) - IQR_FACTOR * (Rescale(q3, c, d) - Rescale(q1, c, d))
         == Rescale(q1 - IQR_FACTOR * (q3 - q1), c, d)
    ensures Rescale(q3, c, d) + IQR_FACTOR * (Rescale(q3, c, d) - Rescale(q1, c, d))
         == Rescale(q3 + IQR_FACTOR * (q3 - q1), c, d)
  {
  }

  lemma FencesRescale(values: seq<real>, c: real, d: real)
    requires 0.0 < c
    ensures FencesOf(RescaleAll(values, c, d)) == RescaleFences(FencesOf(values), c, d)
  {
    hide Rescale, RescaleAll, Percentile, Sorted;
    if IQR_MIN_SAMPLES <= |values| {
      var s := Sorted(values);
      RescaleOfSorted(values, c, d);
      PercentileRescales(s, 0.25, c, d);
      PercentileRescales(s, 0.75, c, d);
      FenceRescales(Percentile(s, 0.25), Percentile(s, 0.75), c, d);
    }
  }

  function RescaleTally(t: Tally, c: real, d: real): Tally {
    if t.kept == 0 then t
    else Tally(t.kept, c * t.sum + t.kept as real * d, Rescale(t.min, c, d), Rescale(t.max, c, d))
  }

  lemma AddRescales(t: Tally, v: real, c: real, d: real)
    requires 0.0 < c && (t.kept == 0 ==> t == NOTHING)
    ensures Add(RescaleTally(t, c, d), Rescale(v, c, d)) == RescaleTally(Add(t, v), c, d)
  {
    OneMore(t.kept, d);
    RescaleOrder(t.min, v, c, d);
    RescaleOrder(v, t.max, c, d);
    assert c * (t.sum + v) == c * t.sum + c * v;
  }

  lemma KeepsRescales(f: Fences, v: real, c: real, d: real)
    requires 0.0 < c
    ensures RescaleFences(f, c, d).Keeps(Rescale(v, c, d)) <==> f.Keeps(v)
  {
    hide Rescale;
    if f.Between? {
      RescaleOrder(f.low, v, c, d);
      RescaleOrder(v, f.high, c, d);
    }
  }

  lemma {:induction false} TallyRescales(xs: seq<real>, f: Fences, c: real, d: real)
    requires 0.0 < c
    ensures TallyOf(xs, f).kept == 0 ==> TallyOf(xs, f) == NOTHING
    ensures TallyOf(RescaleAll(xs, c, d), RescaleFences(f, c, d)) == RescaleTally(TallyOf(xs, f), c, d)
  {
    hide Rescale, RescaleFences, Fences.Keeps;
    if xs != [] {
      var n := |xs| - 1;
      TallyRescales(xs[..n], f, c, d);
      KeepsRescales(f, xs[n], c, d);
      var rs := RescaleAll(xs, c, d);
      assert rs[..n] == RescaleAll(xs[..n], c, d) && rs[n] == Rescale(xs[n], c, d);
      AddRescales(TallyOf(xs[..n], f), xs[n], c, d);
    }
  }

  lemma MeanRescales(sum: real, k: real, c: real, d: real)
    requires 0.0 < k
    ensures (c * sum + k * d) / k == c * (sum / k) + d
  {
    var m := sum / k;
    assert sum == m * k;
    assert c * sum + k * d == (c * m + d) * k;
    Cancel(c * m + d, k);
  }

  lemma Cancel(x: real, k: real)
    requires 0.0 < k
    ensures (x * k) / k == x
  {
  }

  function RescaleStats(st: Stats, c: real, d: real): Stats {
    Stats(Rescale(st.mean, c, d), Rescale(st.min, c, d), Rescale(st.max, c, d))
  }

  lemma SummaryRescales(t: Tally, c: real, d: real)
    requires 0 < t.kept
    ensures Summary(RescaleTally(t, c, d)) == RescaleStats(Summary(t), c, d)
  {
    MeanRescales(t.sum, t.kept as real, c, d);
  }

  /** Filtering scaled values is the same as scaling filtered values. */
  lemma StatsRescale(values: seq<real>, c: real, d: real)
    requires 0.0 < c && values != []
    ensures WindowStats(RescaleAll(values, c, d)) == RescaleStats(WindowStats(values), c, d)
  {
    hide TallyOf, FencesOf, RescaleAll, Rescale, Summary, RescaleStats;
    var f := FencesOf(values);
    FencesRescale(values, c, d);
    TallyRescales(values, f, c, d);
    TallyRescales(values, Everything, c, d);
    KeptAtMostAll(values, Everything);
    var t := TallyOf(values, f);
    SummaryRescales(if t.kept == 0 then TallyOf(values, Everything) else t, c, d);
  }

  // ---------------------------------------------------------------- what the statistics are

  // The same quantities in the terms of a statistics textbook, without tallies and fences.

  function Total(xs: seq<real>): real {
    if xs == [] then 0.0 else Total(xs[..|xs| - 1]) + xs[|xs| - 1]
  }

  /** The elements of a window between two bounds, in order. */
  function InRange(xs: seq<real>, low: real, high: real): seq<real> {
    if xs == [] then []
    else
      var init, last := InRange(xs[..|xs| - 1], low, high), xs[|xs| - 1];
      if low <= last <= high then init + [last] else init
  }

  /** All samples of a window of fewer than four; of a larger one, those within one and a half interquartile ranges. */
  function KeptSamples(values: seq<real>): seq<real> {
    if |values| < 4 then values
    else
      var q1, q3 := Percentile(Sorted(values), 0.25), Percentile(Sorted(values), 0.75);
      InRange(values, q1 - 3.0 / 2.0 * (q3 - q1), q3 + 3.0 / 2.0 * (q3 - q1))
  }

  /** Every sample in range is taken as often as it occurs, and no other. */
  lemma {:induction false} InRangeTakes(xs: seq<real>, low: real, high: real, v: real)
    ensures multiset(InRange(xs, low, high))[v] == if low <= v <= high then multiset(xs)[v] else 0
  {
    if xs != [] {
      InRangeTakes(xs[..|xs| - 1], low, high, v);
      assert xs == xs[..|xs| - 1] + [xs[|xs| - 1]];
    }
  }

  /** The least and the greatest element of a sequence. */
  ghost predicate Bounds(xs: seq<real>, min: real, max: real) {
    min in xs && max in xs && forall i :: 0 <= i < |xs| ==> min <= xs[i] <= max
  }

  ghost predicate Tallies(t: Tally, xs: seq<real>) {
    t.kept == |xs| && t.sum == Total(xs) && (xs != [] ==> Bounds(xs, t.min, t.max))
  }

  lemma TallyOneMore(t: Tally, xs: seq<real>, v: real)
    requires Tallies(t, xs)
    ensures Tallies(Add(t, v), xs + [v])
  {
    var ys := xs + [v];
    assert ys[..|xs|] == xs && ys[|xs|] == v;
    if xs != [] {
      var i :| 0 <= i < |xs| && xs[i] == t.min;
      var j :| 0 <= j < |xs| && xs[j] == t.max;
      assert ys[i] == t.min && ys[j] == t.max;
    }
  }

  lemma {:induction false} TallyOfRange(xs: seq<real>, low: real, high: real)
    ensures Tallies(TallyOf(xs, Between(low, high)), InRange(xs, low, high))
  {
    hide Tallies;
    if xs != [] {
      var n := |xs| - 1;
      TallyOfRange(xs[..n], low, high);
      TallyOneMore(TallyOf(xs[..n], Between(low, high)), InRange(xs[..n], low, high), xs[n]);
    } else {
      EmptyTally();
    }
  }

  lemma {:induction false} TallyOfAll(xs: seq<real>)
    ensures Tallies(TallyOf(xs, Everything), xs)
  {
    hide Tallies;
    if xs != [] {
      var n := |xs| - 1;
      TallyOfAll(xs[..n]);
      TallyOneMore(TallyOf(xs[..n], Everything), xs[..n], xs[n]);
      assert xs == xs[..n] + [xs[n]];
    } else {
      EmptyTally();
    }
  }

  lemma EmptyTally()
    ensures Tallies(NOTHING, [])
  {
  }

  /**
   The reported mean times the number of kept samples is their sum, and the reported minimum and
   maximum are the least and the greatest of them.
  */
  lemma StatsAreOfKeptSamples(values: seq<real>)
    requires values != []
    ensures var k, st := KeptSamples(values), WindowStats(values);
      k != [] && st.mean * |k| as real == Total(k) && Bounds(k, st.min, st.max)
  {
    hide TallyOf, Percentile, Sorted, InRange, Total, Bounds;
    var t := TallyOf(values, FencesOf(values));
    if |values| < 4 {
      TallyOfAll(values);
    } else {
      var f := FencesOf(values);
      TallyOfRange(values, f.low, f.high);
      FilterKeepsMiddle(values);
    }
    assert t.kept > 0;
    MeanTimesCount(t.sum, t.kept as real);
  }

  lemma MeanTimesCount(sum: real, k: real)
    requires 0.0 < k
    ensures sum / k * k == sum
  {
  }

  /** Between two neighbours the percentile is the straight line through them. */
  lemma PercentileIsLinear(s: seq<real>, p: real, k: nat)
    requires 0.0 <= p <= 1.0 && k + 1 < |s|
    requires k as real <= p * (|s| - 1) as real <= (k + 1) as real
    ensures var x := p * (|s| - 1) as real;
      Percentile(s, p) == s[k] * ((k + 1) as real - x) + s[k + 1] * (x - k as real)
  {
    var x := Position(p, |s|);
    PositionInRange(p, |s|);
    FloorMonotone(x, k, k + 1);
    if x == (k + 1) as real {
      AtEnd(s[k], s[k + 1], x - k as real);
    } else if x == k as real {
      AtStart(s[k], s[k + 1], x - k as real);
    } else {
      assert x.Floor == k && Ceiling(x) == k + 1;
      Line(s[k], s[k + 1], x - k as real, (k + 1) as real - x);
    }
  }

  lemma Line(a: real, b: real, frac: real, rest: real)
    requires rest == 1.0 - frac
    ensures Interpolate(a, b, frac) == a * rest + b * frac
  {
  }

  lemma AtStart(a: real, b: real, frac: real)
    requires frac == 0.0
    ensures Interpolate(a, a, 0.0) == a == a * (1.0 - frac) + b * frac
  {
  }

  lemma AtEnd(a: real, b: real, frac: real)
    requires frac == 1.0
    ensures Interpolate(b, b, 0.0) == b == a * (1.0 - frac) + b * frac
  {
  }

  /** A single sample is its own percentile. */
  lemma PercentileOfOne(v: real, p: real)
    requires 0.0 <= p <= 1.0
    ensures Percentile([v], p) == v
  {
  }
}
