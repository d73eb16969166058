/** The computed settings of the simulator (Parameters.java): the date in
 *  years, the seasonal contact multiplier of a deme, and the skewing of
 *  the species fractions of a deme for sensitivity analysis. */
module ParametersModel {
  import opened Wrappers
  import opened Numerics
  import opened SpeciesModel

  /** getDate: the simulated time in years since the end of burn-in. */
  function GetDate(day: real, burnin: real): (date: real)
    ensures date * 365.0 == day - burnin
  {
    (day - burnin) / 365.0
  }

  /** A year of days is one more year of date, and burn-in ends at date 0. */
  lemma DateAdvances(day: real, burnin: real)
    ensures GetDate(day + 365.0, burnin) == GetDate(day, burnin) + 1.0
    ensures GetDate(burnin, burnin) == 0.0
  {
    calc {
      GetDate(day + 365.0, burnin) * 365.0;
      day + 365.0 - burnin;
      (GetDate(day, burnin) + 1.0) * 365.0;
    }
  }

  /** getSeasonality: the deme's baseline contact multiplier plus its
   *  seasonal amplitude times the cosine of the date (in turns) shifted by
   *  the deme's offset. Without amplitude it is the baseline, and otherwise
   *  it stays within the amplitude of the baseline. */
  function Seasonality(m: MathLib, baseline: real, amplitude: real, offset: real, date: real): (beta: real)
    ensures amplitude == 0.0 ==> beta == baseline
    ensures Sound(m) && amplitude >= 0.0 ==> baseline - amplitude <= beta <= baseline + amplitude
  {
    var t := 2.0 * m.pi * date + 2.0 * m.pi * offset;
    var swing := amplitude * m.cos(t);
    CosineScaled(m, t, amplitude, swing);
    baseline + swing
  }

  /** With a sound cosine, `a >= 0` times the cosine lies in [-a, a]. */
  lemma CosineScaled(m: MathLib, t: real, a: real, swing: real)
    requires swing == a * m.cos(t)
    ensures Sound(m) && a >= 0.0 ==> -a <= swing <= a
  {
    if Sound(m) && a >= 0.0 {
      var c := m.cos(t);
      assert m.sin(t) * m.sin(t) + c * c == 1.0;
      assert m.sin(t) * m.sin(t) >= 0.0;
      assert c * c <= 1.0;
      CosineBounds(c);
      ScaledBounds(a, c);
    }
  }

  /** A value in [-1, 1] scaled by `a >= 0` lies in [-a, a]. */
  lemma ScaledBounds(a: real, c: real)
    requires a >= 0.0 && -1.0 <= c <= 1.0
    ensures -a <= a * c <= a
  {
    MulNonNegative(a, 1.0 - c);
    MulNonNegative(a, 1.0 + c);
    assert a * (1.0 - c) == a - a * c;
    assert a * (1.0 + c) == a + a * c;
  }

  /** A value whose square is at most 1 lies in [-1, 1]. */
  lemma CosineBounds(c: real)
    requires c * c <= 1.0
    ensures -1.0 <= c <= 1.0
  {
    assert c > 1.0 ==> c * c > c * 1.0;
    assert c < -1.0 ==> c * c > (-c) * 1.0;
  }

  lemma MulNonNegative(x: real, y: real)
    requires x >= 0.0 && y >= 0.0
    ensures x * y >= 0.0
  {
  }

  /** The fractions of a species list, in order. */
  function Fractions(list: seq<Species>): (fs: seq<real>)
    ensures |fs| == |list| && forall k :: 0 <= k < |list| ==> fs[k] == list[k].fraction
  {
    if |list| == 0 then [] else Fractions(list[..|list| - 1]) + [list[|list| - 1].fraction]
  }

  /** `mi` is the first position holding the largest fraction. */
  predicate FirstMax(fs: seq<real>, mi: nat)
  {
    mi < |fs| && (forall k :: 0 <= k < |fs| ==> fs[k] <= fs[mi]) && (forall k :: 0 <= k < mi ==> fs[k] < fs[mi])
  }

  /** The position of the first largest fraction. */
  function MaxIndex(fs: seq<real>): (mi: nat)
    requires |fs| > 0
    ensures FirstMax(fs, mi)
  {
    if |fs| == 1 then 0
    else
      var m := MaxIndex(fs[..|fs| - 1]);
      assert forall k :: 0 <= k < |fs| - 1 ==> fs[k] == fs[..|fs| - 1][k];
      if fs[|fs| - 1] > fs[m] then |fs| - 1 else m
  }

  /** There is only one first largest fraction. */
  lemma FirstMaxUnique(fs: seq<real>, a: nat, b: nat)
    requires FirstMax(fs, a) && FirstMax(fs, b)
    ensures a == b
  {
    assert fs[a] <= fs[b] && fs[b] <= fs[a];
  }

  function Abs(x: real): real
  {
    if x < 0.0 then -x else x
  }

  /** Java's Math.signum. */
  function Signum(x: real): real
  {
    if x > 0.0 then 1.0 else if x < 0.0 then -1.0 else 0.0
  }

  /** The skew as applied: a skew larger in size than the top fraction is cut
   *  to that fraction, keeping its sign. */
  function ClampedSkew(skew: real, top: real): (r: real)
    ensures top >= 0.0 ==> Abs(r) <= top && Abs(r) <= Abs(skew)
    ensures top >= 0.0 ==> (skew >= 0.0 ==> r >= 0.0) && (skew <= 0.0 ==> r <= 0.0)
    ensures Abs(skew) <= top ==> r == skew
  {
    if Abs(skew) > top then top * Signum(skew) else skew
  }

  /** Math.max(0, Math.min(1.0, x)): the value clamped into [0, 1]. */
  function Clamp01(x: real): (r: real)
    ensures 0.0 <= r <= 1.0
    ensures 0.0 <= x <= 1.0 ==> r == x
    ensures x < 0.0 ==> r == 0.0
    ensures x > 1.0 ==> r == 1.0
  {
    var low := if 1.0 < x then 1.0 else x;
    if 0.0 > low then 0.0 else low
  }

  /** The rewritten fractions of a list of at least two species whose first
   *  largest fraction is at `mi`: that position gains the skew `sk`, each
   *  other position loses an equal share of it, and every result is
   *  clamped into [0, 1]. */
  function Rewritten(fs: seq<real>, mi: nat, sk: real): (nf: seq<real>)
    requires |fs| >= 2
    ensures |nf| == |fs| && forall k :: 0 <= k < |fs| ==> 0.0 <= nf[k] <= 1.0
  {
    seq(|fs|, k requires 0 <= k < |fs| => Clamp01(fs[k] + if k == mi then sk else -sk / (|fs| - 1) as real))
  }

  /** The fractions skewSpecies gives a list of at least two species. */
  function Skew(fs: seq<real>, skew: real): (nf: seq<real>)
    requires |fs| >= 2
    ensures |nf| == |fs|
  {
    var mi := MaxIndex(fs);
    Rewritten(fs, mi, ClampedSkew(skew, fs[mi]))
  }

  /** `b` is `a` with another fraction: same name, brood period and rates. */
  predicate Copied(a: Species, b: Species)
  {
    && b.name == a.name && b.broodStart == a.broodStart && b.broodEnd == a.broodEnd
    && b.birthRate == a.birthRate && b.deathRate == a.deathRate && b.broodBirthRate == a.broodBirthRate
  }

  /** The species of `list` with a positive fraction, in order. */
  function Positive(list: seq<Species>): seq<Species>
  {
    if |list| == 0 then []
    else Positive(list[..|list| - 1]) + if list[|list| - 1].fraction > 0.0 then [list[|list| - 1]] else []
  }

  /** The positive entries are kept in their original order: they sit at
   *  strictly increasing positions `kept` of `list`, which are exactly the
   *  positions with a positive fraction. */
  lemma {:induction false} PositiveIndices(list: seq<Species>) returns (kept: seq<nat>)
    ensures |kept| == |Positive(list)|
    ensures forall k :: 0 <= k < |kept| ==> kept[k] < |list| && Positive(list)[k] == list[kept[k]]
    ensures forall k, l :: 0 <= k < l < |kept| ==> kept[k] < kept[l]
    ensures forall i :: 0 <= i < |list| ==> (i in kept <==> list[i].fraction > 0.0)
  {
    if |list| == 0 {
      return [];
    }
    var init := list[..|list| - 1];
    var last := |list| - 1;
    var k0 := PositiveIndices(init);
    assert forall i :: 0 <= i < last ==> init[i] == list[i];
    if list[last].fraction > 0.0 {
      kept := k0 + [last];
    } else {
      kept := k0;
    }
  }

  /** Every entry left has a positive fraction. */
  lemma {:induction false} PositiveArePositive(list: seq<Species>)
    ensures forall k :: 0 <= k < |Positive(list)| ==> Positive(list)[k].fraction > 0.0
  {
    if |list| > 0 {
      PositiveArePositive(list[..|list| - 1]);
    }
  }

  /** `r` is what skewSpecies leaves of a list of at least two species:
   *  `rewritten` copies `list` with the skewed fractions, and `r` keeps its
   *  positive entries in order. */
  predicate SkewedVia(list: seq<Species>, skew: real, rewritten: seq<Species>, r: seq<Species>)
  {
    && |list| >= 2
    && |rewritten| == |list|
    && (forall k :: 0 <= k < |list| ==> Copied(list[k], rewritten[k]) && rewritten[k].fraction == Skew(Fractions(list), skew)[k])
    && r == Positive(rewritten)
  }

  /** skewSpecies(skew, demeNum) on the deme's species list: with fewer
   *  than two species nothing changes; otherwise the first largest fraction
   *  is found, the skew is cut to it, each entry is replaced by a copy with
   *  its rewritten fraction (`rewritten`), and the entries with a fraction
   *  of 0 or less are removed in order. `total` is the sum of the fractions
   *  left. */
  method SkewSpecies(list: seq<Species>, skew: real) returns (r: seq<Species>, total: real, ghost rewritten: seq<Species>)
    ensures |list| < 2 ==> r == list
    ensures |list| >= 2 ==> SkewedVia(list, skew, rewritten, r) && total == SumReals(Fractions(r))
  {
    if |list| < 2 {
      return list, 0.0, list;
    }
    ghost var fs := Fractions(list);
    var mi := 0;
    for i := 1 to |list|
      invariant mi < i && (forall k :: 0 <= k < i ==> fs[k] <= fs[mi]) && (forall k :: 0 <= k < mi ==> fs[k] < fs[mi])
    {
      if list[i].fraction > list[mi].fraction {
        mi := i;
      }
    }
    FirstMaxUnique(fs, mi, MaxIndex(fs));
    var sk := skew;
    if Abs(skew) > list[mi].fraction {
      sk := list[mi].fraction * Signum(skew);
    }
    assert Skew(fs, skew) == Rewritten(fs, mi, sk);
    var cur := Rewrite(list, mi, sk);
    rewritten := cur;
    r, total := Prune(cur);
  }

  /** The rewriting loop of skewSpecies: each entry in turn is replaced by a
   *  fresh copy carrying its rewritten fraction. */
  method Rewrite(list: seq<Species>, mi: nat, sk: real) returns (cur: seq<Species>)
    requires |list| >= 2
    ensures |cur| == |list|
    ensures forall k :: 0 <= k < |list| ==>
      fresh(cur[k]) && Copied(list[k], cur[k]) && cur[k].fraction == Rewritten(Fractions(list), mi, sk)[k]
  {
    ghost var nf := Rewritten(Fractions(list), mi, sk);
    var speciesCount := |list| - 1;
    cur := list;
    for i := 0 to |list|
      invariant |cur| == |list|
      invariant forall k :: 0 <= k < i ==> fresh(cur[k]) && Copied(list[k], cur[k]) && cur[k].fraction == nf[k]
      invariant forall k :: i <= k < |list| ==> cur[k] == list[k]
    {
      var speSkew := if i == mi then sk else -sk / speciesCount as real;
      var netFrac := cur[i].fraction + speSkew;
      if netFrac < 0.0 || netFrac > 1.0 {
        netFrac := Clamp01(netFrac);
      }
      assert netFrac == nf[i];
      var sp := new Species.Copy(cur[i], netFrac);
      cur := cur[i := sp];
    }
  }

  /** The removal pass of skewSpecies: walking the list with a cursor, an
   *  entry whose fraction is 0 or less is removed (the later entries shift
   *  down) and any other is added to the total and passed. */
  method Prune(list: seq<Species>) returns (r: seq<Species>, total: real)
    ensures r == Positive(list)
    ensures total == SumReals(Fractions(r))
  {
    r := list;
    total := 0.0;
    var idx := 0;
    ghost var done, rest, seen := [], list, 0;
    while idx < |r|
      invariant r == done + rest && idx == |done| && seen <= |list|
      invariant done == Positive(list[..seen]) && rest == list[seen..]
      invariant total == SumReals(Fractions(done))
      decreases |r| - idx
    {
      assert list[..seen + 1][..seen] == list[..seen];
      assert r[idx] == rest[0] == list[seen];
      assert rest == [rest[0]] + rest[1..];
      if r[idx].fraction <= 0.0 {
        assert r[..idx] == done && r[idx + 1..] == rest[1..];
        r := r[..idx] + r[idx + 1..];
      } else {
        assert (done + [rest[0]])[..idx] == done;
        assert done + rest == (done + [rest[0]]) + rest[1..];
        total := total + r[idx].fraction;
        idx := idx + 1;
        done := done + [rest[0]];
      }
      rest := rest[1..];
      seen := seen + 1;
    }
    assert rest == [] && list[..seen] == list;
  }

  /** skewSpecies(skew): every deme's species list is skewed in turn. */
  method SkewAll(lists: seq<seq<Species>>, skew: real) returns (r: seq<seq<Species>>)
    ensures |r| == |lists|
    ensures forall i :: 0 <= i < |lists| ==> |lists[i]| < 2 ==> r[i] == lists[i]
    ensures forall i :: 0 <= i < |lists| && |lists[i]| >= 2 ==> exists rewritten :: SkewedVia(lists[i], skew, rewritten, r[i])
    ensures forall i :: 0 <= i < |lists| ==> forall k :: 0 <= k < |r[i]| ==> r[i][k].fraction > 0.0 || |lists[i]| < 2
  {
    r := [];
    ghost var witnesses: seq<seq<Species>> := [];
    for i := 0 to |lists|
      invariant |r| == i && |witnesses| == i
      invariant forall j :: 0 <= j < i ==> |lists[j]| < 2 ==> r[j] == lists[j]
      invariant forall j :: 0 <= j < i && |lists[j]| >= 2 ==> SkewedVia(lists[j], skew, witnesses[j], r[j])
    {
      var skewed, _, rewritten := SkewSpecies(lists[i], skew);
      ghost var before, seen := r, witnesses;
      r := r + [skewed];
      witnesses := witnesses + [rewritten];
      assert forall j :: 0 <= j < i ==> r[j] == before[j] && witnesses[j] == seen[j];
    }
    forall i | 0 <= i < |lists| && |lists[i]| >= 2
      ensures SkewedVia(lists[i], skew, witnesses[i], r[i])
      ensures forall k :: 0 <= k < |r[i]| ==> r[i][k].fraction > 0.0
    {
      PositiveArePositive(witnesses[i]);
    }
  }

}
