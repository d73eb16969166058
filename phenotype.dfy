/** A two-dimensional antigenic phenotype: the distance between two phenotypes,
 *  the mapping from distance to risk of infection, the scan of a host's immune
 *  history for its closest phenotype, and the geometry of a mutation step. */
module GeometricPhenotype {
  import opened Numerics

  /** A point in the two-dimensional trait space. Phenotypes are never changed
   *  once made (mutation builds a new one), so they are values here. */
  datatype Phenotype = Phenotype(traitA: real, traitB: real)

  /** The parameters of cross-immunity (defaults 0.05, 3.0 and 0.7). */
  datatype ImmunityParams = ImmunityParams(
    homologousImmunity: real,
    antigenicShape: real,
    minCrossImmunity: real)

  /** A configuration the formulas can be evaluated under: the shape divides a
   *  distance, so it must not be zero. */
  predicate ValidImmunity(q: ImmunityParams)
  {
    q.antigenicShape != 0.0
  }

  /** The cut-off below which the history scan stops early. */
  const CloseEnough: real := 0.01

  /** The starting value of the scan for the closest phenotype. */
  const NoImmunityDistance: real := 100.0

  /** The squared Euclidean distance between two phenotypes. */
  function SquaredDistance(p: Phenotype, q: Phenotype): (r: real)
    ensures r >= 0.0
  {
    Square(p.traitA - q.traitA) + Square(p.traitB - q.traitB)
  }

  /** The raw antigenic distance: the square root of the squared distance. */
  function Distance(m: MathLib, p: Phenotype, q: Phenotype): (d: real)
    ensures Sound(m) ==> d >= 0.0
  {
    m.sqrt(SquaredDistance(p, q))
  }

  lemma SquaredDistanceSymmetric(p: Phenotype, q: Phenotype)
    ensures SquaredDistance(p, q) == SquaredDistance(q, p)
  {
    assert Square(p.traitA - q.traitA) == Square(q.traitA - p.traitA);
    assert Square(p.traitB - q.traitB) == Square(q.traitB - p.traitB);
  }

  /** Distance does not depend on the order of its arguments. */
  lemma DistanceSymmetric(m: MathLib, p: Phenotype, q: Phenotype)
    ensures Distance(m, p, q) == Distance(m, q, p)
  {
    SquaredDistanceSymmetric(p, q);
  }

  /** A phenotype is at distance zero from itself. */
  lemma DistanceToSelf(m: MathLib, p: Phenotype)
    requires Sound(m)
    ensures Distance(m, p, p) == 0.0
  {
    assert SquaredDistance(p, p) == Square(0.0);
  }

  /** The mapping from a distance to a risk of infection before clamping. */
  function CrossRisk(m: MathLib, q: ImmunityParams, d: real): (r: real)
    requires ValidImmunity(q)
    ensures Sound(m) && q.minCrossImmunity >= 0.0 ==> r <= 1.0
  {
    1.0 - m.exp(-d / q.antigenicShape) * q.minCrossImmunity
  }

  /** getAntigenicDistance: the distance mapped through the cross-risk curve. */
  function AntigenicDistance(m: MathLib, q: ImmunityParams, p: Phenotype, p2: Phenotype): (r: real)
    requires ValidImmunity(q)
    ensures Sound(m) && q.minCrossImmunity >= 0.0 ==> r <= 1.0
    ensures Sound(m) && q.minCrossImmunity >= 0.0 && q.antigenicShape > 0.0 ==> r >= 1.0 - q.minCrossImmunity
  {
    var d := Distance(m, p, p2);
    var e := m.exp(-d / q.antigenicShape);
    assert Sound(m) && q.antigenicShape > 0.0 ==> -d / q.antigenicShape <= 0.0;
    assert Sound(m) && q.minCrossImmunity >= 0.0 && e <= 1.0 ==> e * q.minCrossImmunity <= q.minCrossImmunity;
    CrossRisk(m, q, d)
  }

  /** The cross-risk curve never falls as the distance grows: a farther
   *  phenotype is never less of a risk. */
  lemma CrossRiskMonotone(m: MathLib, q: ImmunityParams, d1: real, d2: real)
    requires Sound(m) && ValidImmunity(q) && q.antigenicShape > 0.0 && q.minCrossImmunity >= 0.0
    requires d1 <= d2
    ensures CrossRisk(m, q, d1) <= CrossRisk(m, q, d2)
  {
    var x1, x2 := -d1 / q.antigenicShape, -d2 / q.antigenicShape;
    assert x2 <= x1;
    var e1, e2 := m.exp(x1), m.exp(x2);
    assert e2 <= e1;
    assert e1 * q.minCrossImmunity - e2 * q.minCrossImmunity == (e1 - e2) * q.minCrossImmunity;
    assert CrossRisk(m, q, d2) - CrossRisk(m, q, d1) == (e1 - e2) * q.minCrossImmunity;
  }

  /** getAntigenicDistance is non-decreasing in the distance between the
   *  phenotypes. */
  lemma AntigenicDistanceMonotone(m: MathLib, q: ImmunityParams, p: Phenotype, p1: Phenotype, p2: Phenotype)
    requires Sound(m) && ValidImmunity(q) && q.antigenicShape > 0.0 && q.minCrossImmunity >= 0.0
    requires Distance(m, p, p1) <= Distance(m, p, p2)
    ensures AntigenicDistance(m, q, p, p1) <= AntigenicDistance(m, q, p, p2)
  {
    CrossRiskMonotone(m, q, Distance(m, p, p1), Distance(m, p, p2));
  }

  /** The closest distance found by scanning `history` from the left with
   *  running minimum `closest`, stopping after the first distance below 0.01. */
  function ScanClosest(m: MathLib, p: Phenotype, history: seq<Phenotype>, closest: real): real
    decreases |history|
  {
    if |history| == 0 then closest
    else
      var d := Distance(m, p, history[0]);
      var c := if d < closest then d else closest;
      if d < CloseEnough then c else ScanClosest(m, p, history[1..], c)
  }

  /** The closest distance from `p` to the host's immune history. */
  function ClosestDistance(m: MathLib, p: Phenotype, history: seq<Phenotype>): real
  {
    ScanClosest(m, p, history, NoImmunityDistance)
  }

  /** How many history entries the scan looks at: up to and including the first
   *  one closer than 0.01, or all of them. */
  function ScanLength(m: MathLib, p: Phenotype, history: seq<Phenotype>): (n: nat)
    ensures n <= |history|
    ensures forall i :: 0 <= i < n - 1 ==> Distance(m, p, history[i]) >= CloseEnough
    ensures n < |history| ==> n > 0 && Distance(m, p, history[n - 1]) < CloseEnough
    decreases |history|
  {
    if |history| == 0 then 0
    else if Distance(m, p, history[0]) < CloseEnough then 1
    else 1 + ScanLength(m, p, history[1..])
  }

  /** The scan computes the minimum of its starting value and the scanned
   *  distances. */
  lemma {:induction false} ScanClosestIsMinimum(m: MathLib, p: Phenotype, history: seq<Phenotype>, closest: real)
    ensures ScanClosest(m, p, history, closest) <= closest
    ensures forall i :: 0 <= i < ScanLength(m, p, history) ==>
      ScanClosest(m, p, history, closest) <= Distance(m, p, history[i])
    ensures ScanClosest(m, p, history, closest) == closest
      || exists i :: 0 <= i < ScanLength(m, p, history) && ScanClosest(m, p, history, closest) == Distance(m, p, history[i])
    decreases |history|
  {
    if |history| > 0 {
      var d := Distance(m, p, history[0]);
      var c := if d < closest then d else closest;
      if d >= CloseEnough {
        var tail := history[1..];
        ScanClosestIsMinimum(m, p, tail, c);
        var r := ScanClosest(m, p, tail, c);
        assert r == ScanClosest(m, p, history, closest);
        forall i | 0 <= i < ScanLength(m, p, history)
          ensures r <= Distance(m, p, history[i])
        {
          if i > 0 {
            assert history[i] == tail[i - 1];
          }
        }
        if r != c {
          var j :| 0 <= j < ScanLength(m, p, tail) && r == Distance(m, p, tail[j]);
          assert tail[j] == history[j + 1];
        } else if c == d {
          assert r == Distance(m, p, history[0]);
        }
      }
    }
  }

  /** With no history the scan leaves the sentinel distance 100 in place. */
  lemma EmptyHistoryClosest(m: MathLib, p: Phenotype)
    ensures ClosestDistance(m, p, []) == NoImmunityDistance
  {
  }

  /** The risk of infection for a given closest distance: the cross-risk curve,
   *  raised to at least 1 - homologousImmunity and capped at 1. */
  function Risk(m: MathLib, q: ImmunityParams, closest: real): (r: real)
    requires ValidImmunity(q)
    ensures r <= 1.0
    ensures r >= (if 1.0 - q.homologousImmunity < 1.0 then 1.0 - q.homologousImmunity else 1.0)
    ensures r == 1.0 || r == 1.0 - q.homologousImmunity || r == CrossRisk(m, q, closest)
    ensures 1.0 - q.homologousImmunity <= CrossRisk(m, q, closest) <= 1.0 ==> r == CrossRisk(m, q, closest)
  {
    var raw := CrossRisk(m, q, closest);
    var minRisk := 1.0 - q.homologousImmunity;
    var risk := if minRisk > raw then minRisk else raw;
    if 1.0 < risk then 1.0 else risk
  }

  /** The risk of infection never falls as the closest distance grows. */
  lemma RiskMonotone(m: MathLib, q: ImmunityParams, c1: real, c2: real)
    requires Sound(m) && ValidImmunity(q) && q.antigenicShape > 0.0 && q.minCrossImmunity >= 0.0
    requires c1 <= c2
    ensures Risk(m, q, c1) <= Risk(m, q, c2)
  {
    CrossRiskMonotone(m, q, c1, c2);
  }

  /** At distance zero the cross-risk curve gives 1 - minCrossImmunity, so the
   *  clamped risk is the larger of the two floors 1 - homologousImmunity and
   *  1 - minCrossImmunity. */
  lemma RiskAtZero(m: MathLib, q: ImmunityParams)
    requires Sound(m) && ValidImmunity(q)
    ensures CrossRisk(m, q, 0.0) == 1.0 - q.minCrossImmunity
    ensures 0.0 <= q.homologousImmunity <= q.minCrossImmunity ==> Risk(m, q, 0.0) == 1.0 - q.homologousImmunity
    ensures 0.0 <= q.minCrossImmunity < q.homologousImmunity ==> Risk(m, q, 0.0) == 1.0 - q.minCrossImmunity
  {
    assert -0.0 / q.antigenicShape == 0.0;
  }

  /** A host whose history meets the virus's own phenotype before any other
   *  entry closer than 0.01 has closest distance 0: its risk is the floor
   *  1 - homologousImmunity when homologousImmunity <= minCrossImmunity (as with
   *  the defaults 0.05 and 0.7), and 1 - minCrossImmunity otherwise. */
  lemma ExactPhenotypeRisk(m: MathLib, q: ImmunityParams, p: Phenotype, history: seq<Phenotype>, k: nat)
    requires Sound(m) && ValidImmunity(q)
    requires k < |history| && history[k] == p
    requires forall i :: 0 <= i < k ==> Distance(m, p, history[i]) >= CloseEnough
    ensures ClosestDistance(m, p, history) == 0.0
    ensures 0.0 <= q.homologousImmunity <= q.minCrossImmunity ==>
      Risk(m, q, ClosestDistance(m, p, history)) == 1.0 - q.homologousImmunity
    ensures 0.0 <= q.minCrossImmunity < q.homologousImmunity ==>
      Risk(m, q, ClosestDistance(m, p, history)) == 1.0 - q.minCrossImmunity
  {
    DistanceToSelf(m, p);
    assert ScanLength(m, p, history) == k + 1;
    ScanClosestIsMinimum(m, p, history, NoImmunityDistance);
    RiskAtZero(m, q);
  }

  /** A history that holds the virus's own phenotype anywhere gives a closest
   *  distance below 0.01, though not necessarily 0: the scan may stop at an
   *  earlier entry that is merely close. The risk is then at most the risk at
   *  0.01. */
  lemma ContainedPhenotypeClose(m: MathLib, q: ImmunityParams, p: Phenotype, history: seq<Phenotype>)
    requires Sound(m) && ValidImmunity(q) && q.antigenicShape > 0.0 && q.minCrossImmunity >= 0.0
    requires p in history
    ensures ClosestDistance(m, p, history) < CloseEnough
    ensures Risk(m, q, ClosestDistance(m, p, history)) <= Risk(m, q, CloseEnough)
  {
    var k :| 0 <= k < |history| && history[k] == p;
    DistanceToSelf(m, p);
    ScanClosestIsMinimum(m, p, history, NoImmunityDistance);
    var n := ScanLength(m, p, history);
    if n <= k {
      assert Distance(m, p, history[n - 1]) < CloseEnough;
    }
    RiskMonotone(m, q, ClosestDistance(m, p, history), CloseEnough);
  }

  /** riskOfInfection: scan the history for the closest phenotype, with an early
   *  exit, then clamp the cross-risk of that distance. */
  method RiskOfInfection(m: MathLib, q: ImmunityParams, p: Phenotype, history: seq<Phenotype>)
    returns (risk: real)
    requires ValidImmunity(q)
    ensures risk == Risk(m, q, ClosestDistance(m, p, history))
    ensures risk <= 1.0
    ensures risk >= (if 1.0 - q.homologousImmunity < 1.0 then 1.0 - q.homologousImmunity else 1.0)
  {
    var closestDistance := NoImmunityDistance;
    if |history| > 0 {
      var i := 0;
      while i < |history|
        invariant 0 <= i <= |history|
        invariant ScanClosest(m, p, history[i..], closestDistance) == ClosestDistance(m, p, history)
      {
        var thisDistance := Distance(m, p, history[i]);
        assert history[i..][1..] == history[i + 1..];
        if thisDistance < closestDistance {
          closestDistance := thisDistance;
        }
        if thisDistance < CloseEnough {
          break;
        }
        i := i + 1;
      }
    }
    risk := Risk(m, q, closestDistance);
  }

  /** The parameters of a mutation step (defaults: mut2D false, meanStep 0.3,
   *  sdStep 0.3, fixedStep false). */
  datatype MutationParams = MutationParams(mut2D: bool, meanStep: real, sdStep: real, fixedStep: bool)

  /** The gamma parameters are only computed when the step is not fixed. */
  predicate ValidMutation(mp: MutationParams)
  {
    !mp.fixedStep ==> mp.meanStep != 0.0 && mp.sdStep != 0.0
  }

  /** The shape of the gamma distribution of step sizes: mean^2 / sd^2. */
  function GammaShape(mp: MutationParams): (alpha: real)
    requires mp.sdStep != 0.0
    ensures alpha * (mp.sdStep * mp.sdStep) == mp.meanStep * mp.meanStep
  {
    assert mp.sdStep * mp.sdStep != 0.0;
    (mp.meanStep * mp.meanStep) / (mp.sdStep * mp.sdStep)
  }

  /** The second gamma parameter: sd^2 / mean. */
  function GammaScale(mp: MutationParams): (beta: real)
    requires mp.meanStep != 0.0
    ensures beta * mp.meanStep == mp.sdStep * mp.sdStep
  {
    (mp.sdStep * mp.sdStep) / mp.meanStep
  }

  /** The direction of a mutation: the drawn uniform angle in two dimensions,
   *  otherwise 0 or pi according to the drawn coin. */
  function MutationAngle(m: MathLib, mp: MutationParams, uniformAngle: real, heads: bool): (theta: real)
    ensures mp.mut2D ==> theta == uniformAngle
    ensures !mp.mut2D ==> theta == 0.0 || theta == m.pi
  {
    if mp.mut2D then uniformAngle else if heads then 0.0 else m.pi
  }

  /** The random draws one mutation consumes: a uniform angle in [0, 2 pi), a
   *  fair coin, and the gamma sampler (shape, scale) to draw a step size. */
  datatype MutationDraw = MutationDraw(uniformAngle: real, heads: bool, gammaSample: (real, real) -> real)

  /** The size of a mutation: meanStep when fixed, otherwise a draw of the gamma
   *  sampler at (GammaShape, GammaScale). */
  function StepSize(mp: MutationParams, gammaSample: (real, real) -> real): (r: real)
    requires ValidMutation(mp)
    ensures mp.fixedStep ==> r == mp.meanStep
    ensures !mp.fixedStep ==> r == gammaSample(GammaShape(mp), GammaScale(mp))
  {
    if mp.fixedStep then mp.meanStep
    else gammaSample(GammaShape(mp), GammaScale(mp))
  }

  /** The phenotype reached by a step of length `r` in direction `theta`. */
  function Step(m: MathLib, p: Phenotype, theta: real, r: real): Phenotype
  {
    Phenotype(p.traitA + r * m.cos(theta), p.traitB + r * m.sin(theta))
  }

  /** mutate: a new phenotype one step away; the original is a value and is
   *  not affected. The step has exactly the drawn length, and in one dimension
   *  trait B never moves. */
  function Mutate(m: MathLib, mp: MutationParams, p: Phenotype, uniformAngle: real, heads: bool,
                  gammaSample: (real, real) -> real): (mutP: Phenotype)
    requires ValidMutation(mp)
    ensures Sound(m) && StepSize(mp, gammaSample) >= 0.0 ==>
      Distance(m, p, mutP) == StepSize(mp, gammaSample)
    ensures Sound(m) && !mp.mut2D ==> mutP.traitB == p.traitB
    ensures Sound(m) && !mp.mut2D ==>
      mutP.traitA == p.traitA + StepSize(mp, gammaSample) || mutP.traitA == p.traitA - StepSize(mp, gammaSample)
  {
    var theta := MutationAngle(m, mp, uniformAngle, heads);
    var r := StepSize(mp, gammaSample);
    StepLength(m, p, theta, r);
    Step(m, p, theta, r)
  }

  /** A step of non-negative length `r` lands at distance `r`. */
  lemma StepLength(m: MathLib, p: Phenotype, theta: real, r: real)
    ensures Sound(m) && r >= 0.0 ==> Distance(m, p, Step(m, p, theta, r)) == r
  {
    if Sound(m) && r >= 0.0 {
      var c, s := m.cos(theta), m.sin(theta);
      var q := Step(m, p, theta, r);
      assert p.traitA - q.traitA == -(r * c);
      assert p.traitB - q.traitB == -(r * s);
      calc {
        SquaredDistance(p, q);
        (r * c) * (r * c) + (r * s) * (r * s);
        r * r * (s * s + c * c);
        Square(r);
      }
    }
  }
}
