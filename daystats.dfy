/** The per-day column summary of the run-aggregation tool: a streaming
 *  (Welford) accumulator of count, sum, mean, squared deviations, minimum and
 *  maximum for one day, and the set of such accumulators ordered by day. */
module DayStatistics {
  import opened Wrappers

  /** One day's running summary. `sqDev` is the variance times `count`, the
   *  sum of squared deviations from the mean. */
  datatype DayStats = DayStats(day: int, sum: real, mean: real, sqDev: real, count: nat, min: real, max: real)

  /** One value read for a day, in the order the lines arrive. */
  datatype Sample = Sample(day: int, value: real)

  function RealMin(a: real, b: real): real
  {
    if b < a then b else a
  }

  function RealMax(a: real, b: real): real
  {
    if a < b then b else a
  }

  // ---------------------------------------------------------------------
  // The reference statistics of a sequence of values.

  function SumSq(xs: seq<real>): real
  {
    if |xs| == 0 then 0.0 else SumSq(xs[..|xs| - 1]) + xs[|xs| - 1] * xs[|xs| - 1]
  }

  /** The sum of squared deviations of `xs` from `c`. */
  function SqDev(xs: seq<real>, c: real): real
  {
    if |xs| == 0 then 0.0 else SqDev(xs[..|xs| - 1], c) + (xs[|xs| - 1] - c) * (xs[|xs| - 1] - c)
  }

  function MinOf(xs: seq<real>): real
    requires |xs| > 0
  {
    if |xs| == 1 then xs[0] else RealMin(MinOf(xs[..|xs| - 1]), xs[|xs| - 1])
  }

  function MaxOf(xs: seq<real>): real
    requires |xs| > 0
  {
    if |xs| == 1 then xs[0] else RealMax(MaxOf(xs[..|xs| - 1]), xs[|xs| - 1])
  }

  /** `ds` is the exact summary of the values `xs` read for `day`. */
  ghost predicate Summarizes(ds: DayStats, day: int, xs: seq<real>)
  {
    && |xs| > 0
    && ds.day == day
    && ds.count == |xs|
    && ds.sum == SumReals(xs)
    && ds.mean == SumReals(xs) / (|xs| as real)
    && ds.sqDev == SqDev(xs, ds.mean)
    && ds.min == MinOf(xs)
    && ds.max == MaxOf(xs)
  }

  // ---------------------------------------------------------------------
  // The accumulator.

  /** DayStats(day, value): the summary of the single value `value`. */
  function Make(day: int, value: real): (ds: DayStats)
    ensures Summarizes(ds, day, [value])
  {
    DayStats(day, value, value, 0.0, 1, value, value)
  }

  /** operator+: a new summary with `value` added by Welford's update; the
   *  receiver is left as it was. */
  function Add(ds: DayStats, value: real): (r: DayStats)
    ensures r.day == ds.day && r.count == ds.count + 1
  {
    var delta := value - ds.mean;
    var count := ds.count + 1;
    var mean := ds.mean + delta / (count as real);
    DayStats(ds.day, ds.sum + value, mean, ds.sqDev + delta * (value - mean), count,
             RealMin(ds.min, value), RealMax(ds.max, value))
  }

  /** The squared deviations about `c`, expanded into the sums of squares
   *  and of values. */
  lemma {:induction false} SqDevExpand(xs: seq<real>, c: real)
    ensures SqDev(xs, c) == SumSq(xs) - 2.0 * c * SumReals(xs) + (|xs| as real) * c * c
  {
    if |xs| > 0 {
      var p, x := xs[..|xs| - 1], xs[|xs| - 1];
      SqDevExpand(p, c);
      assert (x - c) * (x - c) == x * x - 2.0 * c * x + c * c;
      assert (|xs| as real) * c * c == (|p| as real) * c * c + c * c;
    }
  }

  /** The arithmetic of one Welford step: with `n` values of mean `m`, sum
   *  `s` and sum of squares `q`, adding `v` moves the mean to `m1` and the
   *  squared deviations by (v - m) * (v - m1). */
  lemma WelfordStep(n: real, m: real, m1: real, v: real, q: real, s: real)
    requires n >= 1.0 && s == n * m
    requires m1 == m + (v - m) / (n + 1.0)
    ensures m1 == (s + v) / (n + 1.0)
    ensures q + v * v - 2.0 * m1 * (s + v) + (n + 1.0) * m1 * m1
         == (q - 2.0 * m * s + n * m * m) + (v - m) * (v - m1)
  {
    var e := m1 - m;
    assert e * (n + 1.0) == v - m;
    assert v == m + (n + 1.0) * e;
    assert s + v == (n + 1.0) * m1;
    assert v - m1 == n * e;
    calc {
      q + v * v - 2.0 * m1 * (s + v) + (n + 1.0) * m1 * m1;
      q + v * v - (n + 1.0) * m1 * m1;
      q + (m + (n + 1.0) * e) * (m + (n + 1.0) * e) - (n + 1.0) * (m + e) * (m + e);
      q - n * m * m + n * (n + 1.0) * e * e;
      (q - 2.0 * m * s + n * m * m) + ((n + 1.0) * e) * (n * e);
    }
  }

  /** Adding a value to the summary of `xs` gives the summary of `xs + [v]`:
   *  the running mean and squared deviations stay exact. */
  lemma AddSummarizes(ds: DayStats, day: int, xs: seq<real>, v: real)
    requires Summarizes(ds, day, xs)
    ensures Summarizes(Add(ds, v), day, xs + [v])
  {
    var ys := xs + [v];
    assert ys[..|ys| - 1] == xs;
    var n := |xs| as real;
    var r := Add(ds, v);
    assert SumReals(xs) == n * ds.mean;
    WelfordStep(n, ds.mean, r.mean, v, SumSq(xs), SumReals(xs));
    SqDevExpand(xs, ds.mean);
    SqDevExpand(ys, r.mean);
  }

  /** Multiplying by a non-negative factor keeps an order. */
  lemma MulMonotone(k: real, a: real, b: real)
    requires k >= 0.0 && a <= b
    ensures k * a <= k * b
  {
    assert k * b - k * a == k * (b - a);
  }

  /** The running sum is at least `count` times the minimum. */
  lemma {:induction false} SumAboveMin(xs: seq<real>)
    requires |xs| > 0
    ensures (|xs| as real) * MinOf(xs) <= SumReals(xs)
  {
    if |xs| > 1 {
      var p, x := xs[..|xs| - 1], xs[|xs| - 1];
      var k, lo := |p| as real, MinOf(xs);
      SumAboveMin(p);
      assert SumReals(xs) == SumReals(p) + x;
      assert lo <= MinOf(p) && lo <= x;
      MulMonotone(k, lo, MinOf(p));
      assert (k + 1.0) * lo == k * lo + lo;
    }
  }

  /** The running sum is at most `count` times the maximum. */
  lemma {:induction false} SumBelowMax(xs: seq<real>)
    requires |xs| > 0
    ensures SumReals(xs) <= (|xs| as real) * MaxOf(xs)
  {
    if |xs| > 1 {
      var p, x := xs[..|xs| - 1], xs[|xs| - 1];
      var k, hi := |p| as real, MaxOf(xs);
      SumBelowMax(p);
      assert SumReals(xs) == SumReals(p) + x;
      assert MaxOf(p) <= hi && x <= hi;
      MulMonotone(k, MaxOf(p), hi);
      assert (k + 1.0) * hi == k * hi + hi;
    }
  }

  /** A quotient by a positive count keeps the bounds its numerator has
   *  when scaled by that count. */
  lemma QuotientBetween(s: real, n: real, lo: real, hi: real)
    requires n > 0.0 && n * lo <= s <= n * hi
    ensures lo <= s / n <= hi
  {
    var q := s / n;
    assert q * n == s;
    assert n * (q - lo) >= 0.0 && n * (hi - q) >= 0.0;
  }

  lemma SquareNonNegative(y: real)
    ensures y * y >= 0.0
  {
    if y < 0.0 {
      assert y * y == (-y) * (-y);
    }
  }

  lemma {:induction false} SqDevNonNegative(xs: seq<real>, c: real)
    ensures SqDev(xs, c) >= 0.0
  {
    if |xs| > 0 {
      SqDevNonNegative(xs[..|xs| - 1], c);
      SquareNonNegative(xs[|xs| - 1] - c);
    }
  }

  /** Every exact summary has min <= mean <= max and non-negative squared
   *  deviations. */
  lemma SummaryBounds(ds: DayStats, day: int, xs: seq<real>)
    requires Summarizes(ds, day, xs)
    ensures ds.min <= ds.mean <= ds.max
    ensures ds.sqDev >= 0.0
  {
    SumAboveMin(xs);
    SumBelowMax(xs);
    SqDevNonNegative(xs, ds.mean);
    QuotientBetween(SumReals(xs), |xs| as real, MinOf(xs), MaxOf(xs));
  }

  // ---------------------------------------------------------------------
  // The set of summaries, one per day.

  /** Strictly increasing days: operator< compares summaries by day alone,
   *  so a std::set of them holds at most one per day, in day order. */
  predicate SortedByDay(s: seq<DayStats>)
  {
    forall i, j :: 0 <= i < j < |s| ==> s[i].day < s[j].day
  }

  /** What a set lookup by day finds. */
  function At(s: seq<DayStats>, day: int): Option<DayStats>
  {
    if |s| == 0 then None
    else if s[0].day == day then Some(s[0])
    else At(s[1..], day)
  }

  /** The values logged for `day`, in arrival order. */
  function ValuesOf(log: seq<Sample>, day: int): seq<real>
  {
    if |log| == 0 then []
    else ValuesOf(log[..|log| - 1], day) + (if log[|log| - 1].day == day then [log[|log| - 1].value] else [])
  }

  /** The summary a day has after one more value: a fresh one for a new day,
   *  the old one with the value added otherwise. */
  function Accumulate(old_: Option<DayStats>, day: int, value: real): DayStats
  {
    match old_
    case None => Make(day, value)
    case Some(ds) => Add(ds, value)
  }

  lemma {:induction false} AtFinds(s: seq<DayStats>, i: nat)
    requires SortedByDay(s) && i < |s|
    ensures At(s, s[i].day) == Some(s[i])
  {
    if i > 0 {
      assert s[0].day < s[i].day;
      AtFinds(s[1..], i - 1);
    }
  }

  lemma {:induction false} AtFound(s: seq<DayStats>, day: int)
    requires At(s, day).Some?
    ensures At(s, day).value in s && At(s, day).value.day == day
  {
    if s[0].day != day {
      AtFound(s[1..], day);
    }
  }

  /** Inserting `x` where its day belongs changes the lookup of that day
   *  only, and keeps the days sorted. */
  lemma {:induction false} AtInsert(s: seq<DayStats>, i: nat, x: DayStats, d: int)
    requires SortedByDay(s) && i <= |s|
    requires forall j :: 0 <= j < i ==> s[j].day < x.day
    requires forall j :: i <= j < |s| ==> x.day < s[j].day
    ensures SortedByDay(s[..i] + [x] + s[i..])
    ensures At(s[..i] + [x] + s[i..], d) == if d == x.day then Some(x) else At(s, d)
  {
    var t := s[..i] + [x] + s[i..];
    if i > 0 {
      var s' := s[1..];
      assert t == [s[0]] + (s'[..i - 1] + [x] + s'[i - 1..]);
      AtInsert(s', i - 1, x, d);
      assert t[1..] == s'[..i - 1] + [x] + s'[i - 1..];
    } else {
      assert t == [x] + s;
      assert t[1..] == s;
    }
  }

  /** Replacing the entry at `i` by one of the same day changes the lookup of
   *  that day only, and keeps the days sorted. */
  lemma {:induction false} AtReplace(s: seq<DayStats>, i: nat, x: DayStats, d: int)
    requires SortedByDay(s) && i < |s| && x.day == s[i].day
    ensures SortedByDay(s[i := x])
    ensures At(s[i := x], d) == if d == x.day then Some(x) else At(s, d)
  {
    if i > 0 {
      assert s[i := x] == [s[0]] + s[1..][i - 1 := x];
      assert s[i := x][1..] == s[1..][i - 1 := x];
      AtReplace(s[1..], i - 1, x, d);
    } else {
      assert s[i := x][1..] == s[1..];
    }
  }

  lemma {:induction false} AtMissing(s: seq<DayStats>, day: int)
    requires forall j :: 0 <= j < |s| ==> s[j].day != day
    ensures At(s, day) == None
  {
    if |s| > 0 {
      AtMissing(s[1..], day);
    }
  }

  /** The entries of a set consistent with a log: one per day that has
   *  values, each summarizing exactly those values, in day order. */
  ghost predicate Consistent(entries: seq<DayStats>, log: seq<Sample>)
  {
    && SortedByDay(entries)
    && (forall d :: At(entries, d).Some? <==> |ValuesOf(log, d)| > 0)
    && (forall e :: e in entries ==> Summarizes(e, e.day, ValuesOf(log, e.day)))
  }

  /** The entries after aggregating `value` for `day`, where `i` is the first
   *  position whose day is not below `day`. */
  function Placed(s: seq<DayStats>, i: nat, day: int, value: real): seq<DayStats>
    requires i <= |s|
  {
    if i < |s| && s[i].day == day then s[i := Add(s[i], value)]
    else s[..i] + [Make(day, value)] + s[i..]
  }

  /** Aggregating changes the lookup of its own day only, to the accumulated
   *  summary, and keeps the days sorted. */
  lemma PlacedLookup(s: seq<DayStats>, i: nat, day: int, value: real, d: int)
    requires SortedByDay(s) && i <= |s|
    requires forall j :: 0 <= j < i ==> s[j].day < day
    requires i < |s| ==> day <= s[i].day
    ensures SortedByDay(Placed(s, i, day, value))
    ensures At(Placed(s, i, day, value), d) == if d == day then Some(Accumulate(At(s, day), day, value)) else At(s, d)
  {
    if i < |s| && s[i].day == day {
      AtFinds(s, i);
      AtReplace(s, i, Add(s[i], value), d);
    } else {
      forall j | i <= j < |s| ensures day < s[j].day {
        assert s[i].day <= s[j].day;
      }
      AtMissing(s, day);
      AtInsert(s, i, Make(day, value), d);
    }
  }

  /** The day's accumulated summary summarizes the day's values with the
   *  new one appended. */
  lemma AccumulateSummarizes(s: seq<DayStats>, log: seq<Sample>, day: int, value: real)
    requires Consistent(s, log)
    ensures Summarizes(Accumulate(At(s, day), day, value), day, ValuesOf(log + [Sample(day, value)], day))
  {
    var log1 := log + [Sample(day, value)];
    assert log1[..|log1| - 1] == log;
    assert ValuesOf(log1, day) == ValuesOf(log, day) + [value];
    if At(s, day).Some? {
      AtFound(s, day);
      AddSummarizes(At(s, day).value, day, ValuesOf(log, day), value);
    } else {
      assert ValuesOf(log, day) == [];
    }
  }

  /** Every entry of another day after aggregating was already there. */
  lemma PlacedKeeps(s: seq<DayStats>, i: nat, day: int, value: real, e: DayStats)
    requires i <= |s| && e in Placed(s, i, day, value) && e.day != day
    ensures e in s
  {
    var t := Placed(s, i, day, value);
    var j :| 0 <= j < |t| && t[j] == e;
    if i < |s| && s[i].day == day {
      assert e == s[j];
    } else if j < i {
      assert e == s[j];
    } else {
      assert e == s[j - 1];
    }
  }

  /** Aggregating a sample keeps the entries consistent with the log that
   *  records it. */
  lemma PlacedConsistent(s: seq<DayStats>, log: seq<Sample>, i: nat, day: int, value: real)
    requires Consistent(s, log) && i <= |s|
    requires forall j :: 0 <= j < i ==> s[j].day < day
    requires i < |s| ==> day <= s[i].day
    ensures Consistent(Placed(s, i, day, value), log + [Sample(day, value)])
  {
    var t, log1 := Placed(s, i, day, value), log + [Sample(day, value)];
    assert log1[..|log1| - 1] == log;
    forall d
      ensures At(t, d).Some? <==> |ValuesOf(log1, d)| > 0
    {
      PlacedLookup(s, i, day, value, d);
    }
    PlacedLookup(s, i, day, value, day);
    AccumulateSummarizes(s, log, day, value);
    forall e | e in t
      ensures Summarizes(e, e.day, ValuesOf(log1, e.day))
    {
      if e.day == day {
        var j :| 0 <= j < |t| && t[j] == e;
        AtFinds(t, j);
      } else {
        PlacedKeeps(s, i, day, value, e);
        assert ValuesOf(log1, e.day) == ValuesOf(log, e.day);
      }
    }
  }

  /** The entries print emits: those from `startDay` on, in their order. */
  function Shown(s: seq<DayStats>, startDay: int): seq<DayStats>
  {
    if |s| == 0 then []
    else Shown(s[..|s| - 1], startDay) + (if s[|s| - 1].day >= startDay then [s[|s| - 1]] else [])
  }

  /** print emits every entry from `startDay` on and no other, in day
   *  order. */
  lemma {:induction false} ShownExactly(s: seq<DayStats>, startDay: int)
    requires SortedByDay(s)
    ensures SortedByDay(Shown(s, startDay))
    ensures forall e :: e in Shown(s, startDay) <==> e in s && e.day >= startDay
  {
    if |s| > 0 {
      var p, x := s[..|s| - 1], s[|s| - 1];
      assert s == p + [x];
      ShownExactly(p, startDay);
      var r := Shown(p, startDay);
      forall k | 0 <= k < |r|
        ensures r[k].day < x.day
      {
        assert r[k] in p;
        var j :| 0 <= j < |p| && p[j] == r[k];
        assert s[j] == r[k];
      }
    }
  }

  /** The StatSet: the summaries held in day order, together with the log of
   *  every value aggregated so far. */
  class StatSet {
    var entries: seq<DayStats>
    ghost var log: seq<Sample>

    /** One entry per day that has values, summarizing exactly those values. */
    ghost predicate Valid()
      reads this
    {
      Consistent(entries, log)
    }

    constructor ()
      ensures Valid() && entries == [] && log == []
    {
      entries, log := [], [];
    }

    /** aggregate, for a line already split into its day and the chosen
     *  column's value: a new day gets a fresh entry, an existing day's entry
     *  is replaced by its sum with the value, and no other day changes. */
    method Aggregate(day: int, value: real)
      requires Valid()
      modifies this
      ensures Valid()
      ensures log == old(log) + [Sample(day, value)]
      ensures At(entries, day) == Some(Accumulate(old(At(entries, day)), day, value))
      ensures forall d :: d != day ==> At(entries, d) == old(At(entries, d))
    {
      var i := 0;
      while i < |entries| && entries[i].day < day
        invariant 0 <= i <= |entries|
        invariant forall j :: 0 <= j < i ==> entries[j].day < day
      {
        i := i + 1;
      }
      ghost var s := entries;
      PlacedConsistent(entries, log, i, day, value);
      forall d
        ensures At(Placed(s, i, day, value), d) == if d == day then Some(Accumulate(At(s, day), day, value)) else At(s, d)
      {
        PlacedLookup(s, i, day, value, d);
      }
      if i < |entries| && entries[i].day == day {
        entries := entries[i := Add(entries[i], value)];
      } else {
        entries := entries[..i] + [Make(day, value)] + entries[i..];
      }
      log := log + [Sample(day, value)];
    }

    /** print: the entries from `startDay` on, in day order. */
    method Rows(startDay: int) returns (rows: seq<DayStats>)
      requires Valid()
      ensures SortedByDay(rows)
      ensures forall e :: e in rows <==> e in entries && e.day >= startDay
    {
      rows := [];
      for i := 0 to |entries|
        invariant rows == Shown(entries[..i], startDay)
      {
        assert entries[..i + 1][..i] == entries[..i];
        if entries[i].day >= startDay {
          rows := rows + [entries[i]];
        }
      }
      assert entries[..|entries|] == entries;
      ShownExactly(entries, startDay);
    }
  }
}
