/** The genealogical statistics of a deme (updateDiversity): sums over a list
 *  of sampled pairs of infections, and the statistics derived from them. */
module Diversity {
  import opened Wrappers
  import opened Numerics
  import opened Lineage

  /** The running sums of the sampling loop: branch-length distance, the
   *  largest distance seen, antigenic distance, coalescences, and the first
   *  virus's serial interval. */
  datatype Sums = Sums(dist: real, maxDist: real, antigenic: real, coalCount: real, serial: real)

  const NoSums := Sums(0.0, 0.0, 0.0, 0.0, 0.0)

  /** Both viruses of every pair are in the arena, and the first has a parent
   *  (so its serial interval exists). */
  predicate Sampleable(nodes: seq<VirusNode>, pairs: seq<(nat, nat)>)
  {
    forall i :: 0 <= i < |pairs| ==>
      pairs[i].0 < |nodes| && pairs[i].1 < |nodes| && nodes[pairs[i].0].parent.Some?
  }

  /** One round of the loop on the pair (`a`, `b`). */
  function AddPair(m: MathLib, nodes: seq<VirusNode>, window: real, acc: Sums, a: nat, b: nat): Sums
    requires WellFormed(nodes) && a < |nodes| && b < |nodes| && nodes[a].parent.Some?
  {
    var dist := Distance(nodes, a, b);
    Sums(acc.dist + dist,
         if dist > acc.maxDist then dist else acc.maxDist,
         acc.antigenic + AntigenicDistance(m, nodes, a, b),
         acc.coalCount + CoalescenceOf(nodes, a, b, window),
         acc.serial + SerialInterval(nodes, a))
  }

  /** The sums after the loop has visited `pairs` in order. */
  function SumPairs(m: MathLib, nodes: seq<VirusNode>, window: real, pairs: seq<(nat, nat)>): Sums
    requires WellFormed(nodes) && Sampleable(nodes, pairs)
  {
    if |pairs| == 0 then NoSums
    else
      var last := pairs[|pairs| - 1];
      AddPair(m, nodes, window, SumPairs(m, nodes, window, pairs[..|pairs| - 1]), last.0, last.1)
  }

  /** One more pair adds one round to the sums. */
  lemma SumPairsSnoc(m: MathLib, nodes: seq<VirusNode>, window: real, pairs: seq<(nat, nat)>, a: nat, b: nat)
    requires WellFormed(nodes) && Sampleable(nodes, pairs) && a < |nodes| && b < |nodes| && nodes[a].parent.Some?
    ensures Sampleable(nodes, pairs + [(a, b)])
    ensures SumPairs(m, nodes, window, pairs + [(a, b)]) == AddPair(m, nodes, window, SumPairs(m, nodes, window, pairs), a, b)
  {
    assert (pairs + [(a, b)])[..|pairs|] == pairs;
  }

  /** The sampling loop of updateDiversity over an already drawn list of
   *  pairs: one round per pair, in order. */
  method SumAll(m: MathLib, nodes: seq<VirusNode>, window: real, pairs: seq<(nat, nat)>) returns (sums: Sums)
    requires WellFormed(nodes) && Sampleable(nodes, pairs)
    ensures sums == SumPairs(m, nodes, window, pairs)
  {
    sums := NoSums;
    for i := 0 to |pairs|
      invariant sums == SumPairs(m, nodes, window, pairs[..i])
    {
      assert pairs[..i + 1] == pairs[..i] + [pairs[i]];
      SumPairsSnoc(m, nodes, window, pairs[..i], pairs[i].0, pairs[i].1);
      sums := AddPair(m, nodes, window, sums, pairs[i].0, pairs[i].1);
    }
    assert pairs[..|pairs|] == pairs;
  }

  /** The largest distance is at least every sampled distance, is never
   *  negative, and is either 0 or one of the sampled distances. */
  lemma {:induction false} MaxDistIsLargest(m: MathLib, nodes: seq<VirusNode>, window: real, pairs: seq<(nat, nat)>)
    requires WellFormed(nodes) && Sampleable(nodes, pairs)
    ensures var mx := SumPairs(m, nodes, window, pairs).maxDist;
      && mx >= 0.0
      && (forall i :: 0 <= i < |pairs| ==> Distance(nodes, pairs[i].0, pairs[i].1) <= mx)
      && (mx == 0.0 || exists i :: 0 <= i < |pairs| && mx == Distance(nodes, pairs[i].0, pairs[i].1))
  {
    if |pairs| > 0 {
      var init := pairs[..|pairs| - 1];
      assert Sampleable(nodes, init) by {
        forall i | 0 <= i < |init|
          ensures init[i] == pairs[i]
        {
        }
      }
      MaxDistIsLargest(m, nodes, window, init);
      var mx0 := SumPairs(m, nodes, window, init).maxDist;
      var mx := SumPairs(m, nodes, window, pairs).maxDist;
      forall i | 0 <= i < |pairs|
        ensures Distance(nodes, pairs[i].0, pairs[i].1) <= mx
      {
        if i < |init| {
          assert pairs[i] == init[i];
        }
      }
      if mx != 0.0 && mx == mx0 {
        var j :| 0 <= j < |init| && mx0 == Distance(nodes, init[j].0, init[j].1);
        assert init[j] == pairs[j];
      }
    }
  }

  /** Every coalescence test adds 0 or 1, so at most one per pair counts. */
  lemma {:induction false} CoalCountBounds(m: MathLib, nodes: seq<VirusNode>, window: real, pairs: seq<(nat, nat)>)
    requires WellFormed(nodes) && Sampleable(nodes, pairs)
    ensures 0.0 <= SumPairs(m, nodes, window, pairs).coalCount <= |pairs| as real
  {
    if |pairs| > 0 {
      var init := pairs[..|pairs| - 1];
      assert Sampleable(nodes, init) by {
        forall i | 0 <= i < |init|
          ensures init[i] == pairs[i]
        {
        }
      }
      CoalCountBounds(m, nodes, window, init);
    }
  }

  /** In a single tree with births ordered along every lineage, the sums of
   *  distances and of serial intervals are never negative, and neither (with
   *  a sound math library) is the antigenic sum. */
  lemma {:induction false} SumsNonNegative(m: MathLib, nodes: seq<VirusNode>, window: real, pairs: seq<(nat, nat)>)
    requires WellFormed(nodes) && SingleRooted(nodes) && BirthsOrdered(nodes) && Sampleable(nodes, pairs)
    ensures SumPairs(m, nodes, window, pairs).serial >= 0.0
    ensures SumPairs(m, nodes, window, pairs).dist >= 0.0
    ensures Sound(m) ==> SumPairs(m, nodes, window, pairs).antigenic >= 0.0
  {
    if |pairs| > 0 {
      var init := pairs[..|pairs| - 1];
      var last := pairs[|pairs| - 1];
      assert Sampleable(nodes, init) by {
        forall i | 0 <= i < |init|
          ensures init[i] == pairs[i]
        {
        }
      }
      SumsNonNegative(m, nodes, window, init);
      assert SerialInterval(nodes, last.0) >= 0.0;
      DistanceNonNegative(nodes, last.0, last.1);
    }
  }

  /** The five statistics of updateDiversity from the sums over
   *  `sampleCount` sampled pairs: mean distance, half the largest distance,
   *  the coalescent effective size (none when no pair coalesced: the source
   *  divides by zero), mean serial interval and mean antigenic distance. */
  datatype Stats = Stats(diversity: real, tmrca: real, netau: Option<real>, serialInterval: real, antigenicDiversity: real)

  const ZeroStats := Stats(0.0, 0.0, Some(0.0), 0.0, 0.0)

  /** The coalescence window in years, from the window in days. */
  function CoalWindow(netauWindow: real): real
  {
    netauWindow / 365.0
  }

  function StatsOf(sums: Sums, sampleCount: nat, window: real): (st: Stats)
    requires sampleCount > 0
    ensures st.netau.None? <==> sums.coalCount == 0.0
    ensures st.tmrca * 2.0 == sums.maxDist
  {
    var n := sampleCount as real;
    Stats(sums.dist / n, sums.maxDist / 2.0,
          if sums.coalCount == 0.0 then None else Some(n * window / sums.coalCount),
          sums.serial / n, sums.antigenic / n)
  }
}
