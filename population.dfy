/** The host population of one deme: a list of species sharing one
 *  environment. Every distribution loop draws a flat index over one
 *  compartment of all species together and locates the species holding it by
 *  subtracting the species' counts in turn. */
module PopulationModel {
  import opened Wrappers
  import opened Numerics
  import opened Lineage
  import GeometricPhenotype
  import EnvironmentModel
  import opened HostModel
  import opened SpeciesModel
  import opened Diversity
  import opened MutationTrace

  // ---------------------------------------------------------------------
  // A compartment across species: the species' lists joined in order.

  function Concat<T>(ss: seq<seq<T>>): seq<T>
  {
    if |ss| == 0 then [] else Concat(ss[..|ss| - 1]) + ss[|ss| - 1]
  }

  lemma {:induction false} ConcatAppend<T>(a: seq<seq<T>>, b: seq<seq<T>>)
    ensures Concat(a + b) == Concat(a) + Concat(b)
    decreases |b|
  {
    if |b| == 0 {
      assert a + b == a;
    } else {
      assert (a + b)[..|a + b| - 1] == a + b[..|b| - 1];
      ConcatAppend(a, b[..|b| - 1]);
    }
  }

  lemma ConcatSingle<T>(s: seq<T>)
    ensures Concat([s]) == s
  {
    assert [s][..0] == [];
  }

  /** Two joined lists that differ only in list `k` differ in length by
   *  that list's change. */
  lemma ConcatStep<T>(ss0: seq<seq<T>>, ss1: seq<seq<T>>, k: nat)
    requires |ss0| == |ss1| && k < |ss0|
    requires forall j :: 0 <= j < |ss0| && j != k ==> ss0[j] == ss1[j]
    ensures |Concat(ss1)| == |Concat(ss0)| - |ss0[k]| + |ss1[k]|
  {
    assert ss1 == ss0[k := ss1[k]];
    ConcatUpdateLength(ss0, k, ss1[k]);
  }

  /** Joining one more list adds its length. */
  lemma ConcatPrefixStep<T>(ss: seq<seq<T>>, k: nat)
    requires k < |ss|
    ensures |Concat(ss[..k + 1])| == |Concat(ss[..k])| + |ss[k]|
  {
    assert ss[..k + 1][..k] == ss[..k];
  }

  /** Splitting the joined list around list `k`. */
  lemma {:induction false} ConcatAround<T>(ss: seq<seq<T>>, k: nat)
    requires k < |ss|
    ensures Concat(ss) == Concat(ss[..k]) + ss[k] + Concat(ss[k + 1..])
  {
    assert ss == ss[..k] + [ss[k]] + ss[k + 1..];
    ConcatAppend(ss[..k] + [ss[k]], ss[k + 1..]);
    ConcatAppend(ss[..k], [ss[k]]);
    ConcatSingle(ss[k]);
  }

  /** Replacing one list changes the joined length by the difference. */
  lemma ConcatUpdateLength<T>(ss: seq<seq<T>>, k: nat, t: seq<T>)
    requires k < |ss|
    ensures |Concat(ss[k := t])| == |Concat(ss)| - |ss[k]| + |t|
  {
    ConcatAround(ss, k);
    ConcatAround(ss[k := t], k);
    assert ss[k := t][..k] == ss[..k] && ss[k := t][k + 1..] == ss[k + 1..];
  }

  /** Joined-list prefix lengths never decrease. */
  lemma ConcatPrefixMonotone<T>(ss: seq<seq<T>>, i: nat, j: nat)
    requires i <= j <= |ss|
    ensures |Concat(ss[..i])| <= |Concat(ss[..j])|
  {
    assert ss[..j] == ss[..i] + ss[i..j];
    ConcatAppend(ss[..i], ss[i..j]);
  }

  /** Lists that each get no longer join to a list that is no longer. */
  lemma {:induction false} ConcatNoLonger<T>(ss0: seq<seq<T>>, ss1: seq<seq<T>>)
    requires |ss0| == |ss1| && forall k :: 0 <= k < |ss0| ==> |ss1[k]| <= |ss0[k]|
    ensures |Concat(ss1)| <= |Concat(ss0)|
    decreases |ss0|
  {
    if |ss0| > 0 {
      var n := |ss0| - 1;
      ConcatNoLonger(ss0[..n], ss1[..n]);
    }
  }

  /** Three families of lists whose lengths, list by list, keep their sum
   *  join to lists whose lengths keep their sum. */
  lemma {:induction false} ConcatSumKept<T>(a0: seq<seq<T>>, b0: seq<seq<T>>, c0: seq<seq<T>>,
                                           a1: seq<seq<T>>, b1: seq<seq<T>>, c1: seq<seq<T>>)
    requires |a0| == |b0| == |c0| == |a1| == |b1| == |c1|
    requires forall k :: 0 <= k < |a0| ==> |a1[k]| + |b1[k]| + |c1[k]| == |a0[k]| + |b0[k]| + |c0[k]|
    ensures |Concat(a1)| + |Concat(b1)| + |Concat(c1)| == |Concat(a0)| + |Concat(b0)| + |Concat(c0)|
    decreases |a0|
  {
    if |a0| > 0 {
      var n := |a0| - 1;
      ConcatSumKept(a0[..n], b0[..n], c0[..n], a1[..n], b1[..n], c1[..n]);
    }
  }

  /** The lists of every species before and after swap(): each I and R
   *  list drained into S on a positive draw of its own. */
  predicate Swapped(d: seq<ConversionDraws>, ls0: seq<seq<Host>>, li0: seq<seq<Host>>, lr0: seq<seq<Host>>,
                    ls1: seq<seq<Host>>, li1: seq<seq<Host>>, lr1: seq<seq<Host>>)
  {
    && |d| == |ls0| == |li0| == |lr0| == |ls1| == |li1| == |lr1|
    && forall k :: 0 <= k < |d| ==>
      && d[k].Fit(|ls0[k]|, |li0[k]|, |lr0[k]|)
      && li1[k] == (if d[k].conversionsI > 0 then [] else li0[k])
      && lr1[k] == (if d[k].conversionsR > 0 then [] else lr0[k])
      && ls1[k] == ls0[k] + (if d[k].conversionsI > 0 then Drained(li0[k], d[k].drawsI) else [])
        + (if d[k].conversionsR > 0 then Drained(lr0[k], d[k].drawsR) else [])
  }

  /** After swap(), I and R are no longer, and N is kept. */
  lemma SwapLengths(d: seq<ConversionDraws>, ls0: seq<seq<Host>>, li0: seq<seq<Host>>, lr0: seq<seq<Host>>,
                    ls1: seq<seq<Host>>, li1: seq<seq<Host>>, lr1: seq<seq<Host>>)
    requires Swapped(d, ls0, li0, lr0, ls1, li1, lr1)
    ensures |Concat(li1)| <= |Concat(li0)| && |Concat(lr1)| <= |Concat(lr0)|
    ensures |Concat(ls1)| + |Concat(li1)| + |Concat(lr1)| == |Concat(ls0)| + |Concat(li0)| + |Concat(lr0)|
  {
    ConcatNoLonger(li0, li1);
    ConcatNoLonger(lr0, lr1);
    ConcatSumKept(ls0, li0, lr0, ls1, li1, lr1);
  }

  /** The lists of every species before and after decline(): each list
   *  Declined by its own draws. */
  predicate DeclinedAll(d: seq<DeathDraws>, ls0: seq<seq<Host>>, li0: seq<seq<Host>>, lr0: seq<seq<Host>>,
                        ls1: seq<seq<Host>>, li1: seq<seq<Host>>, lr1: seq<seq<Host>>)
  {
    && |d| == |ls0| == |li0| == |lr0| == |ls1| == |li1| == |lr1|
    && forall k :: 0 <= k < |d| ==>
      && d[k].Fit(|ls0[k]|, |li0[k]|, |lr0[k]|)
      && ls1[k] == Declined(ls0[k], d[k].deathsS, d[k].drawsS)
      && li1[k] == Declined(li0[k], d[k].deathsI, d[k].drawsI)
      && lr1[k] == Declined(lr0[k], d[k].deathsR, d[k].drawsR)
  }

  /** After decline(), no compartment is longer. */
  lemma DeclinedLengths(d: seq<DeathDraws>, ls0: seq<seq<Host>>, li0: seq<seq<Host>>, lr0: seq<seq<Host>>,
                        ls1: seq<seq<Host>>, li1: seq<seq<Host>>, lr1: seq<seq<Host>>)
    requires DeclinedAll(d, ls0, li0, lr0, ls1, li1, lr1)
    ensures |Concat(ls1)| <= |Concat(ls0)| && |Concat(li1)| <= |Concat(li0)| && |Concat(lr1)| <= |Concat(lr0)|
  {
    ConcatNoLonger(ls0, ls1);
    ConcatNoLonger(li0, li1);
    ConcatNoLonger(lr0, lr1);
  }

  /** Flat index `index` of the joined list lies in list `k` at `local`. */
  predicate Located<T>(ss: seq<seq<T>>, index: nat, k: nat, local: nat)
  {
    k < |ss| && local < |ss[k]| && index == |Concat(ss[..k])| + local
  }

  /** A located position is the flat index's element of the joined list. */
  lemma LocatedElement<T>(ss: seq<seq<T>>, index: nat, k: nat, local: nat)
    requires Located(ss, index, k, local)
    ensures index < |Concat(ss)| && Concat(ss)[index] == ss[k][local]
  {
    ConcatAround(ss, k);
  }

  /** Every flat index has at most one location. */
  lemma LocatedUnique<T>(ss: seq<seq<T>>, index: nat, k1: nat, l1: nat, k2: nat, l2: nat)
    requires Located(ss, index, k1, l1) && Located(ss, index, k2, l2)
    ensures k1 == k2 && l1 == l2
  {
    LocatedBelowNext(ss, index, k1, l1);
    LocatedBelowNext(ss, index, k2, l2);
    if k1 < k2 {
      ConcatPrefixMonotone(ss, k1 + 1, k2);
    } else if k2 < k1 {
      ConcatPrefixMonotone(ss, k2 + 1, k1);
    }
  }

  lemma LocatedBelowNext<T>(ss: seq<seq<T>>, index: nat, k: nat, local: nat)
    requires Located(ss, index, k, local)
    ensures index < |Concat(ss[..k + 1])|
  {
    assert ss[..k + 1][..k] == ss[..k];
  }

  /** Every element of the joined list comes from one of the lists. */
  lemma {:induction false} ConcatMember<T>(ss: seq<seq<T>>, x: T)
    requires x in Concat(ss)
    ensures exists k :: 0 <= k < |ss| && x in ss[k]
    decreases |ss|
  {
    var init := ss[..|ss| - 1];
    if x in Concat(init) {
      ConcatMember(init, x);
      var k :| 0 <= k < |init| && x in init[k];
      assert ss[k] == init[k];
    } else {
      assert x in ss[|ss| - 1];
    }
  }

  /** The compartment `c` of every species, in species order. */
  function Lists(list: seq<Species>, c: Compartment): (r: seq<seq<Host>>)
    reads list
    ensures |r| == |list| && forall k :: 0 <= k < |list| ==> r[k] == list[k].Get(c)
  {
    seq(|list|, k requires 0 <= k < |list| reads list => list[k].Get(c))
  }

  /** `after` is `before` with `n` hosts appended. */
  predicate Extended(before: seq<Host>, after: seq<Host>, n: nat)
  {
    |after| == |before| + n && after[..|before|] == before
  }

  /** The births a species takes from its Poisson draw on `dayOfYear`:
   *  all of them strictly inside its brooding period, none outside. */
  function BroodBirths(s: Species, dayOfYear: int, births: nat): nat
  {
    if s.broodStart < dayOfYear < s.broodEnd then births else 0
  }

  /** One species' draws for decline: the Poisson number of deaths of each
   *  compartment and the uniform indices of the hosts that die. */
  datatype DeathDraws = DeathDraws(deathsS: nat, drawsS: seq<nat>, deathsI: nat, drawsI: seq<nat>,
                                   deathsR: nat, drawsR: seq<nat>)
  {
    /** Every index drawn is below the size of the list it is drawn from. */
    predicate Fit(sizeS: nat, sizeI: nat, sizeR: nat)
    {
      && DrawsFit(drawsS, sizeS, Min(deathsS, sizeS))
      && DrawsFit(drawsI, sizeI, Min(deathsI, sizeI))
      && DrawsFit(drawsR, sizeR, Min(deathsR, sizeR))
    }
  }

  /** One species' draws for makeSusceptible: the Poisson number of
   *  conversions of each compartment and the uniform indices of the I and R
   *  hosts drained. */
  datatype ConversionDraws = ConversionDraws(conversionsS: nat, conversionsI: nat, drawsI: seq<nat>,
                                             conversionsR: nat, drawsR: seq<nat>)
  {
    /** The S pass ends (S empty or no conversion; the source loops forever
     *  otherwise) and every index drawn is below the size of the list left. */
    predicate Fit(sizeS: nat, sizeI: nat, sizeR: nat)
    {
      && (conversionsS == 0 || sizeS == 0)
      && DrawsFit(drawsI, sizeI, sizeI)
      && DrawsFit(drawsR, sizeR, sizeR)
    }
  }

  /** The initial S, I and R of a deme before the species' shares are
   *  taken. */
  datatype InitialCounts = InitialCounts(s: int, i: int, r: int)

  /** One species' immunity draws for the hosts createHosts makes (each new
   *  host is given the ur-immunity when its draw comes up). */
  datatype ImmuneDraws = ImmuneDraws(s: seq<bool>, i: seq<bool>, r: seq<bool>)
  {
    predicate Fit(sp: Species, init: InitialCounts)
    {
      |s| >= sp.Share(init.s) && |i| >= sp.Share(init.i) && |r| >= sp.Share(init.r)
    }
  }

  /** The settings stepForward reads: the demography mode, the immunity
   *  mode, the time step, the per-day rates of contact (with this deme's
   *  seasonality), recovery, immunity loss, mutation and tip sampling, the
   *  simulated day and burn-in, the date in years and this deme's seasonal
   *  offset. */
  datatype StepParams = StepParams(swapDemography: bool, transcendental: bool, deltaT: real,
                                   beta: real, seasonality: real, nu: real, immunityLoss: real,
                                   muPhenotype: real, tipSamplingRate: real, tipSamplingProportional: bool,
                                   day: real, burnin: real, date: real, demeOffset: real)

  /** Draws that are all 0: a witness that uniform draws exist. */
  function Zeros(n: nat): (z: seq<nat>)
    ensures |z| == n && forall k :: 0 <= k < n ==> z[k] == 0
  {
    seq(n, _ => 0)
  }

  /** Free draws for a loop of `count` rounds: the source draws them from
   *  its random generator, so any values may come. */
  method AnyDraws(count: nat) returns (d: seq<nat>)
    ensures |d| >= count
  {
    assert |Zeros(count)| >= count;
    d :| |d| >= count;
  }

  method AnyUniforms(count: nat) returns (u: seq<real>)
    ensures |u| >= count
  {
    assert |seq(count, _ => 0.0)| >= count;
    u :| |u| >= count;
  }

  /** Free uniform indices for `count` removals from a list of `size`. */
  method AnyIndices(size: nat, count: nat) returns (d: seq<nat>)
    requires count <= size
    ensures DrawsFit(d, size, count)
  {
    assert DrawsFit(Zeros(count), size, count);
    d :| DrawsFit(d, size, count);
  }

  /** Free draws of at most `bound` each (getVirus may draw the list size). */
  method AnyBounded(count: nat, bound: nat) returns (d: seq<nat>)
    ensures |d| >= count && forall k :: 0 <= k < |d| ==> d[k] <= bound
  {
    var w := Zeros(count);
    assert |w| >= count && forall k :: 0 <= k < |w| ==> w[k] <= bound;
    d :| |d| >= count && forall k :: 0 <= k < |d| ==> d[k] <= bound;
  }

  method AnyMutationDraws(count: nat) returns (d: seq<GeometricPhenotype.MutationDraw>)
    ensures |d| >= count
  {
    assert |seq(count, _ => GeometricPhenotype.MutationDraw(0.0, false, (a, b) => 0.0))| >= count;
    d :| |d| >= count;
  }

  /** Java's `%` on ints: the remainder takes the sign of the dividend. */
  function JavaRemainder(a: int, b: int): (r: int)
    requires b > 0
    ensures a >= 0 ==> 0 <= r < b
    ensures a < 0 ==> -b < r <= 0
  {
    if a >= 0 then a % b else -((-a) % b)
  }

  /** Which Poisson draw of a deme's time step a count is: contacts,
   *  recoveries, returns to S, mutations and samples of the deme, births,
   *  deaths and swap conversions of species `species` (deaths and
   *  conversions per compartment), and the contacts of the between-deme
   *  pass for position `source`. */
  datatype PoissonDraw = Contacts | Recoveries | Returns | Mutations | Samples
                       | Births(species: nat) | Deaths(species: nat, c: Compartment)
                       | Conversions(species: nat, c: Compartment) | BetweenDeme(source: nat)

  /** The Poisson sampler (Random.nextPoisson) as a parameter of the model:
   *  the count drawn for a deme, a draw of its time step and the expected
   *  value. Distinct draws of one step may take any counts, equal rates or
   *  not; the sampler reads no state. */
  type Sampler = (int, PoissonDraw, real) -> nat

  function Poisson(poisson: Sampler, deme: int, draw: PoissonDraw, rate: real): nat
  {
    poisson(deme, draw, rate)
  }

  /** A Poisson draw with expected value 0 is 0. */
  ghost predicate ZeroMean(poisson: Sampler)
  {
    forall deme, draw :: poisson(deme, draw, 0.0) == 0
  }

  /** The viruses carried by the infected hosts of every species. */
  ghost function InfectedViruses(list: seq<Species>): set<nat>
    reads list, set k, h | 0 <= k < |list| && h in list[k].infecteds :: h
  {
    set k, v | 0 <= k < |list| && v in VirusesOf(list[k].infecteds) :: v
  }

  /** One species' round of makeTrunk after the rounds before it. */
  lemma TrunkRound(n0: seq<VirusNode>, n1: seq<VirusNode>, n2: seq<VirusNode>, roots: set<nat>,
                   sets: seq<set<nat>>, i: nat)
    requires WellFormed(n0) && WellFormed(n1) && WellFormed(n2)
    requires OnlyTrunkGrows(n0, n1) && OnlyTrunkGrows(n1, n2)
    requires i < |sets| && sets[i] <= roots
    requires MarkedFrom(n0, n1, roots) && MarkedFrom(n1, n2, sets[i])
    requires forall k :: 0 <= k < i ==> AllTrunk(n1, sets[k])
    requires AllTrunk(n2, sets[i])
    ensures OnlyTrunkGrows(n0, n2) && MarkedFrom(n0, n2, roots) && ParentsKept(n1, n2)
    ensures forall k :: 0 <= k <= i ==> AllTrunk(n2, sets[k])
  {
    MarkedFromStep(n0, n1, n2, roots, sets[i]);
    TrunkGrowsKeepsParents(n1, n2);
    forall k | 0 <= k < i
      ensures AllTrunk(n2, sets[k])
    {
      forall v | v in sets[k]
        ensures v < |n2| && n2[v].trunk
      {
        assert AllTrunk(n1, sets[k]);
        assert n1[v].trunk ==> n2[v].trunk;
      }
    }
  }

  /** The viruses carried by the infected hosts of each species. */
  ghost function VirusSets(list: seq<Species>): (r: seq<set<nat>>)
    reads list, set k, h | 0 <= k < |list| && h in list[k].infecteds :: h
    ensures |r| == |list| && forall k :: 0 <= k < |list| ==> r[k] == VirusesOf(list[k].infecteds)
  {
    seq(|list|, k requires 0 <= k < |list| reads list, set j, h | 0 <= j < |list| && h in list[j].infecteds :: h =>
      VirusesOf(list[k].infecteds))
  }

  /** The viruses of every species are those of the species one by one. */
  lemma InfectedVirusesSplit(list: seq<Species>, sets: seq<set<nat>>)
    requires |sets| == |list| && forall k :: 0 <= k < |list| ==> sets[k] == VirusesOf(list[k].infecteds)
    ensures forall k :: 0 <= k < |list| ==> sets[k] <= InfectedViruses(list)
    ensures forall v :: v in InfectedViruses(list) ==> exists k :: 0 <= k < |list| && v in sets[k]
  {
  }

  /** The Poisson draws of demography for species `k` of deme `deme`:
   *  deaths in a compartment (expected size times death rate), births
   *  (expected total size times brood birth rate) and conversions of swap
   *  in a compartment (expected size of R times birth rate), per time
   *  step. */
  function DeathCount(sp: Species, deme: int, k: nat, c: Compartment, deltaT: real, poisson: Sampler): nat
    reads sp
  {
    Poisson(poisson, deme, Deaths(k, c), |sp.Get(c)| as real * sp.deathRate * deltaT)
  }

  function BirthCount(sp: Species, deme: int, k: nat, deltaT: real, poisson: Sampler): nat
    reads sp
  {
    Poisson(poisson, deme, Births(k), sp.GetN() as real * sp.broodBirthRate * deltaT)
  }

  function ConversionCount(sp: Species, deme: int, k: nat, c: Compartment, deltaT: real, poisson: Sampler): nat
    reads sp
  {
    Poisson(poisson, deme, Conversions(k, c), |sp.recovereds| as real * sp.birthRate * deltaT)
  }

  /** `d` is a legal set of decline() draws for species `k`. */
  predicate DeathsFor(sp: Species, deme: int, k: nat, deltaT: real, poisson: Sampler, d: DeathDraws)
    reads sp
  {
    && d.Fit(|sp.susceptibles|, |sp.infecteds|, |sp.recovereds|)
    && d.deathsS == DeathCount(sp, deme, k, Susceptible, deltaT, poisson)
    && d.deathsI == DeathCount(sp, deme, k, Infected, deltaT, poisson)
    && d.deathsR == DeathCount(sp, deme, k, Recovered, deltaT, poisson)
  }

  /** `d` is a legal set of makeSusceptible() draws for species `k`: each of
   *  the S, I and R passes has its own count. */
  predicate ConversionsFor(sp: Species, deme: int, k: nat, deltaT: real, poisson: Sampler, d: ConversionDraws)
    reads sp
  {
    && d.Fit(|sp.susceptibles|, |sp.infecteds|, |sp.recovereds|)
    && d.conversionsS == ConversionCount(sp, deme, k, Susceptible, deltaT, poisson)
    && d.conversionsI == ConversionCount(sp, deme, k, Infected, deltaT, poisson)
    && d.conversionsR == ConversionCount(sp, deme, k, Recovered, deltaT, poisson)
  }

  /** The S pass of makeSusceptible() moves S into S; on a positive draw it
   *  never finishes, so swap demography needs S empty or a zero S draw. */
  predicate NoSusceptibleSwap(sp: Species, deme: int, k: nat, deltaT: real, poisson: Sampler)
    reads sp
  {
    |sp.susceptibles| == 0 || ConversionCount(sp, deme, k, Susceptible, deltaT, poisson) == 0
  }

  /** One Bernoulli immunity draw per birth of every species. */
  predicate ImmuneFit(immune: seq<seq<bool>>, births: seq<nat>)
  {
    |immune| == |births| && forall k :: 0 <= k < |births| ==> |immune[k]| >= births[k]
  }

  /** sample's Poisson rate: tipSamplingRate per time step, per infected
   *  host when sampling is proportional. */
  function SamplingRate(p: StepParams, infected: nat): real
  {
    if p.tipSamplingProportional then p.tipSamplingRate * p.deltaT * infected as real else p.tipSamplingRate * p.deltaT
  }

  /** The single-host steps of the distribution loops: recoverHost (into R
   *  under transcendental immunity, back into S otherwise), looseImmunity,
   *  vaccinate and cull. */
  datatype Transition = Recovery(transcendental: bool) | ImmunityLoss | Vaccination | Culling
  {
    /** The compartment the host is drawn from. */
    function Source(): Compartment
    {
      match this
      case Recovery(_) => Infected
      case ImmunityLoss => Recovered
      case Vaccination => Susceptible
      case Culling => Infected
    }

    /** Where the host goes; a culled host leaves the species. */
    function Target(): (t: Option<Compartment>)
      ensures t != Some(Source())
    {
      match this
      case Recovery(transcendental) => Some(if transcendental then Recovered else Susceptible)
      case ImmunityLoss => Some(Susceptible)
      case Vaccination => Some(Recovered)
      case Culling => None
    }

    /** How the size of compartment `c` changes when `n` hosts take the
     *  step: the source loses them and the target gains them. */
    function Change(c: Compartment, n: nat): int
    {
      if c == Source() then -(n as int) else if Target() == Some(c) then n else 0
    }

    /** How the total shedding count changes over `n` steps: only a recovery
     *  clears an infection (a culled host leaves with its infection). */
    function Shed(n: nat): int
    {
      if Recovery? then -(n as int) else 0
    }
  }

  /** The sizes of the three compartments over all species: getS, getI
   *  and getR. */
  datatype Counts = Counts(s: nat, i: nat, r: nat)
  {
    function Of(c: Compartment): nat
    {
      match c
      case Susceptible => s
      case Infected => i
      case Recovered => r
    }

    /** `n` hosts have taken step `tr`. */
    function After(tr: Transition, n: nat): (t: Counts)
      requires n <= Of(tr.Source())
      ensures t.s == s + tr.Change(Susceptible, n)
      ensures t.i == i + tr.Change(Infected, n)
      ensures t.r == r + tr.Change(Recovered, n)
    {
      match tr
      case Recovery(transcendental) =>
        if transcendental then Counts(s, i - n, r + n) else Counts(s + n, i - n, r)
      case ImmunityLoss => Counts(s + n, i, r - n)
      case Vaccination => Counts(s - n, i, r + n)
      case Culling => Counts(s, i - n, r)
    }

    /** The number of hosts: getN. */
    function Sum(): nat
    {
      s + i + r
    }

    /** `n` susceptible hosts have been infected. */
    function Infections(n: nat): (t: Counts)
      requires n <= s
      ensures t.s + n == s && t.i == i + n && t.r == r
    {
      Counts(s - n, i + n, r)
    }

    /** Sizes `s1`, `i1` and `r1` that moved by one step of `tr` are those
     *  after one step, which needed a host in the source compartment. */
    lemma OneStep(tr: Transition, s1: nat, i1: nat, r1: nat)
      requires s1 == s + tr.Change(Susceptible, 1) && i1 == i + tr.Change(Infected, 1) && r1 == r + tr.Change(Recovered, 1)
      ensures Of(tr.Source()) >= 1 && After(tr, 1) == Counts(s1, i1, r1)
    {
    }

    /** One more step after `n` steps is `n + 1` steps. */
    lemma AfterStep(tr: Transition, n: nat)
      requires n + 1 <= Of(tr.Source())
      ensures After(tr, n).Of(tr.Source()) >= 1 && After(tr, n).After(tr, 1) == After(tr, n + 1)
    {
    }
  }

  /** loseImmunity's Poisson draw from `recovered` hosts. */
  function Returned(recovered: nat, p: StepParams, poisson: Sampler, deme: int): nat
  {
    Poisson(poisson, deme, Returns, EventRate(recovered, p.immunityLoss, p.deltaT))
  }

  /** The ghost registry of a population: species `k` sits in slot `k`, and
   *  every host of `owned[k]` is in the footprint `repr` and owned by `k`. */
  ghost predicate Registered(list: seq<Species>, owned: seq<set<Host>>, slot: map<Species, nat>,
                             owner: map<Host, nat>, repr: set<Host>)
  {
    && |owned| == |list|
    && (forall k :: 0 <= k < |list| ==> list[k] in slot && slot[list[k]] == k)
    && (forall k, h :: 0 <= k < |owned| && h in owned[k] ==> h in repr && h in owner && owner[h] == k)
  }

  /** `n` empty host sets. */
  ghost function NoHosts(n: nat): (r: seq<set<Host>>)
    ensures |r| == n && forall k :: 0 <= k < n ==> r[k] == {}
  {
    if n == 0 then [] else NoHosts(n - 1) + [{}]
  }

  /** The position of each species of a list without duplicates. */
  ghost function SlotsOf(list: seq<Species>): (m: map<Species, nat>)
    requires NoDuplicates(list)
    ensures forall k :: 0 <= k < |list| ==> list[k] in m && m[list[k]] == k
  {
    if |list| == 0 then map[]
    else
      var init := list[..|list| - 1];
      assert forall k :: 0 <= k < |init| ==> init[k] == list[k];
      SlotsOf(init)[list[|list| - 1] := |list| - 1]
  }

  class Population {
    const deme: int
    const speciesList: seq<Species>
    const environment: EnvironmentModel.Environment
    var cases: int
    var diversity: real
    var tmrca: real
    var netau: Option<real>
    var serialInterval: real
    var antigenicDiversity: real
    var newContacts: nat
    var newRecoveries: nat
    var dayOffset: real

    /** A footprint holding every host of every species. */
    ghost var repr: set<Host>
    /** The hosts of each species, in species order. */
    ghost var owned: seq<set<Host>>
    /** The position of each species in the list. */
    ghost var slot: map<Species, nat>
    /** The position of the species owning each host. */
    ghost var owner: map<Host, nat>

    /** Each species once and valid, owning its hosts of `owned`, no host in
     *  two species, every host in the footprint, and an environment holding
     *  viruses of the arena only. */
    ghost predicate Valid(nodes: seq<VirusNode>)
      reads this`repr, this`owned, this`slot, this`owner, speciesList, repr, environment
    {
      && Registered(speciesList, owned, slot, owner, repr)
      && (forall k :: 0 <= k < |speciesList| ==> speciesList[k].hostSet <= owned[k])
      && (forall k {:trigger speciesList[k].Valid(nodes)} :: 0 <= k < |speciesList| ==> speciesList[k].Valid(nodes))
      && environment.Valid(nodes)
    }

    /** HostSpeciesPopulation(d): the deme's species list and environment
     *  (which the source looks up by deme number, throwing when either is
     *  missing), then reset(): every species is cleared and refilled with its
     *  shares of the initial counts. */
    constructor (d: int, environment: EnvironmentModel.Environment, speciesList: seq<Species>, init: InitialCounts,
                 arena: Arena, urVirus: nat, urImmunity: Phenotype, immune: seq<ImmuneDraws>, date: real)
      requires NoDuplicates(speciesList)
      requires arena.Valid() && environment.Valid(arena.nodes) && urVirus < |arena.nodes|
      requires |immune| == |speciesList| && forall k :: 0 <= k < |speciesList| ==> immune[k].Fit(speciesList[k], init)
      modifies speciesList, arena
      ensures deme == d && this.environment == environment && this.speciesList == speciesList
      ensures cases == 0 && dayOffset == 0.0
      ensures arena.Valid() && Valid(arena.nodes) && ParentsKept(old(arena.nodes), arena.nodes)
      ensures forall k :: 0 <= k < |speciesList| ==>
        var s := speciesList[k];
        |s.susceptibles| == s.Share(init.s) && |s.infecteds| == s.Share(init.i) && |s.recovereds| == s.Share(init.r)
    {
      deme := d;
      this.environment := environment;
      this.speciesList := speciesList;
      cases := 0;
      diversity, tmrca, netau, serialInterval, antigenicDiversity := 0.0, 0.0, Some(0.0), 0.0, 0.0;
      newContacts, newRecoveries := 0, 0;
      dayOffset := 0.0;
      repr, owned, slot, owner := {}, [], map[], map[];
      new;
      ClearSpecies(arena.nodes);
      Register(arena.nodes);
      Reset(init, arena, urVirus, urImmunity, immune, date);
    }

    /** The registry of a population whose species hold no hosts yet: slot
     *  `k` for species `k`, nobody owned. */
    ghost method Register(nodes: seq<VirusNode>)
      requires NoDuplicates(speciesList) && environment.Valid(nodes)
      requires forall k :: 0 <= k < |speciesList| ==> speciesList[k].hostSet == {} && speciesList[k].Valid(nodes)
      modifies this`repr, this`owned, this`slot, this`owner
      ensures Valid(nodes) && repr == {}
    {
      repr, owner := {}, map[];
      owned := NoHosts(|speciesList|);
      slot := SlotsOf(speciesList);
    }

    /** clear() on every species of the list. */
    method ClearSpecies(ghost nodes: seq<VirusNode>)
      requires NoDuplicates(speciesList)
      modifies speciesList
      ensures forall k :: 0 <= k < |speciesList| ==> speciesList[k].hostSet == {} && speciesList[k].Valid(nodes)
    {
      for i := 0 to |speciesList|
        invariant forall k :: 0 <= k < i ==> speciesList[k].hostSet == {} && speciesList[k].Valid(nodes)
      {
        speciesList[i].Clear();
      }
    }

    /** `t` holds the compartment sizes over all species. */
    ghost predicate Counted(t: Counts)
      reads speciesList
    {
      forall c {:trigger Total(c)} :: t.Of(c) == Total(c)
    }

    lemma CountedOf(t: Counts)
      requires t.s == Total(Susceptible) && t.i == Total(Infected) && t.r == Total(Recovered)
      ensures Counted(t)
    {
      forall c
        ensures t.Of(c) == Total(c)
      {
        match c
        case Susceptible =>
        case Infected =>
        case Recovered =>
      }
    }

    /** The size of compartment `c` over all species. */
    function Total(c: Compartment): nat
      reads speciesList
    {
      |Concat(Lists(speciesList, c))|
    }

    /** getS, getI and getR: the species' counts of one compartment summed
     *  in species order. */
    method Count(c: Compartment) returns (n: nat)
      ensures n == Total(c)
    {
      var lists := Lists(speciesList, c);
      n := 0;
      var k := 0;
      while k < |speciesList|
        invariant 0 <= k <= |speciesList| && n == |Concat(lists[..k])|
      {
        ConcatPrefixStep(lists, k);
        n := n + |speciesList[k].Get(c)|;
        k := k + 1;
      }
      assert lists[..k] == lists;
    }

    /** getN: the species' sizes summed; every host is counted once, in its
     *  own compartment. */
    method GetN() returns (n: nat)
      ensures n == Total(Susceptible) + Total(Infected) + Total(Recovered)
    {
      var ls, li, lr := Lists(speciesList, Susceptible), Lists(speciesList, Infected), Lists(speciesList, Recovered);
      n := 0;
      var k := 0;
      while k < |speciesList|
        invariant 0 <= k <= |speciesList|
        invariant n == |Concat(ls[..k])| + |Concat(li[..k])| + |Concat(lr[..k])|
      {
        ConcatPrefixStep(ls, k);
        ConcatPrefixStep(li, k);
        ConcatPrefixStep(lr, k);
        n := n + speciesList[k].GetN();
        k := k + 1;
      }
      assert ls[..k] == ls && li[..k] == li && lr[..k] == lr;
    }

    /** The species scan of the distribution loops: the index is compared
     *  with each species' count of `c` and reduced by it until it falls
     *  inside one species. */
    method Locate(c: Compartment, index: nat) returns (found: bool, k: nat, local: nat)
      ensures found <==> index < Total(c)
      ensures found ==> Located(Lists(speciesList, c), index, k, local)
    {
      var lists := Lists(speciesList, c);
      var rest: nat := index;
      k := 0;
      while k < |speciesList|
        invariant 0 <= k <= |speciesList| && index == |Concat(lists[..k])| + rest
      {
        ConcatPrefixStep(lists, k);
        if rest < |speciesList[k].Get(c)| {
          LocatedBelowNext(lists, index, k, rest);
          ConcatPrefixMonotone(lists, k + 1, |lists|);
          assert lists[..|lists|] == lists;
          return true, k, rest;
        }
        rest := rest - |speciesList[k].Get(c)|;
        k := k + 1;
      }
      assert lists[..k] == lists;
      return false, 0, 0;
    }

    /** getRandomHostS, getRandomHostI, getRandomHostR: the host at the drawn
     *  flat index of the compartment across species, null when the
     *  compartment is empty everywhere. I and R draw only when they are
     *  non-empty; S draws unguarded, but with no susceptible host the scan
     *  finds nothing whatever the index. */
    method RandomHost(c: Compartment, draw: nat) returns (h: Host?)
      ensures h == null <==> Total(c) == 0
      ensures h != null ==> h == Concat(Lists(speciesList, c))[draw % Total(c)]
      ensures h != null ==> exists k :: 0 <= k < |speciesList| && h in speciesList[k].Get(c)
    {
      var total := Count(c);
      var index: nat;
      if c == Susceptible {
        index := if total > 0 then draw % total else draw;
      } else if total > 0 {
        index := draw % total;
      } else {
        return null;
      }
      var found, k, local := Locate(c, index);
      if found {
        LocatedElement(Lists(speciesList, c), index, k, local);
        return speciesList[k].Get(c)[local];
      }
      return null;
    }

    /** The host at the drawn flat index of compartment `c`. */
    function HostAt(c: Compartment, draw: nat): Host
      reads speciesList
      requires Total(c) > 0
    {
      Concat(Lists(speciesList, c))[draw % Total(c)]
    }

    /** The host at a drawn flat index of I carries a virus of the arena
     *  that has a parent. */
    lemma HostAtCarries(draw: nat, nodes: seq<VirusNode>)
      requires Valid(nodes) && Total(Infected) > 0
      ensures var v := HostAt(Infected, draw).infection; v.Some? && v.value < |nodes| && nodes[v.value].parent.Some?
      ensures HostAt(Infected, draw) in repr
    {
      var lists := Lists(speciesList, Infected);
      ConcatMember(lists, HostAt(Infected, draw));
      var k :| 0 <= k < |lists| && HostAt(Infected, draw) in lists[k];
      assert speciesList[k].Valid(nodes);
      assert HostAt(Infected, draw) in speciesList[k].hostSet;
    }

    /** getRandomInfection: the virus of the host at the drawn flat index of
     *  I, none when no host is infected. */
    method RandomInfection(draw: nat, ghost nodes: seq<VirusNode>) returns (v: Option<nat>)
      requires Valid(nodes)
      ensures v.None? <==> Total(Infected) == 0
      ensures v.Some? ==> v == HostAt(Infected, draw).infection && v.value < |nodes| && nodes[v.value].parent.Some?
      ensures v.Some? ==> v == old(HostAt(Infected, draw).infection)
    {
      var h := RandomHost(Infected, draw);
      if h == null {
        return None;
      }
      var k :| 0 <= k < |speciesList| && h in speciesList[k].Get(Infected);
      assert speciesList[k].Valid(nodes);
      return h.infection;
    }

    /** Validity after a step that changed species `k` only, when the other
     *  species are still valid for the old arena. */
    lemma OthersKeep(k: nat, nodes0: seq<VirusNode>, nodes1: seq<VirusNode>)
      requires k < |speciesList| && Registered(speciesList, owned, slot, owner, repr)
      requires ParentsKept(nodes0, nodes1) && environment.Valid(nodes0)
      requires speciesList[k].hostSet <= owned[k] && speciesList[k].Valid(nodes1)
      requires forall j :: 0 <= j < |speciesList| && j != k ==> speciesList[j].hostSet <= owned[j] && speciesList[j].Valid(nodes0)
      ensures Valid(nodes1)
    {
      forall j | 0 <= j < |speciesList| && j != k
        ensures speciesList[j].Valid(nodes1)
      {
        speciesList[j].ValidKeeps(nodes0, nodes1);
      }
    }

    /** Transition `tr` on the host at `local` of compartment `tr.Source()`
     *  in species `k`: the population stays valid, species `k` changes its
     *  compartment sizes by one step of `tr`, and no other species changes. */
    method StepIn(k: nat, local: nat, tr: Transition, arena: Arena)
      requires arena.Valid() && Valid(arena.nodes) && k < |speciesList| && local < |speciesList[k].Get(tr.Source())|
      modifies speciesList[k], speciesList[k].Get(tr.Source())[local], arena
      ensures arena.Valid() && Valid(arena.nodes) && ParentsKept(old(arena.nodes), arena.nodes)
      ensures TotalShedding(arena.nodes) == TotalShedding(old(arena.nodes)) + tr.Shed(1)
      ensures |speciesList[k].susceptibles| == old(|speciesList[k].susceptibles|) + tr.Change(Susceptible, 1)
      ensures |speciesList[k].infecteds| == old(|speciesList[k].infecteds|) + tr.Change(Infected, 1)
      ensures |speciesList[k].recovereds| == old(|speciesList[k].recovereds|) + tr.Change(Recovered, 1)
      ensures forall j :: 0 <= j < |speciesList| && j != k ==>
        && speciesList[j].susceptibles == old(speciesList[j].susceptibles)
        && speciesList[j].infecteds == old(speciesList[j].infecteds)
        && speciesList[j].recovereds == old(speciesList[j].recovereds)
    {
      if tr.Recovery? {
        RecoverIn(k, local, arena, tr.transcendental);
      } else {
        MoveIn(k, local, tr, arena.nodes);
      }
    }

    /** recoverHost on the host at `local` of I in species `k`. */
    method RecoverIn(k: nat, local: nat, arena: Arena, transcendental: bool)
      requires arena.Valid() && Valid(arena.nodes) && k < |speciesList| && local < |speciesList[k].infecteds|
      modifies speciesList[k], speciesList[k].infecteds[local], arena
      ensures arena.Valid() && Valid(arena.nodes) && ParentsKept(old(arena.nodes), arena.nodes)
      ensures TotalShedding(arena.nodes) == TotalShedding(old(arena.nodes)) - 1
      ensures |speciesList[k].infecteds| == old(|speciesList[k].infecteds|) - 1
      ensures |speciesList[k].recovereds| == old(|speciesList[k].recovereds|) + (if transcendental then 1 else 0)
      ensures |speciesList[k].susceptibles| == old(|speciesList[k].susceptibles|) + (if transcendental then 0 else 1)
      ensures forall j :: 0 <= j < |speciesList| && j != k ==>
        && speciesList[j].susceptibles == old(speciesList[j].susceptibles)
        && speciesList[j].infecteds == old(speciesList[j].infecteds)
        && speciesList[j].recovereds == old(speciesList[j].recovereds)
    {
      var s := speciesList[k];
      ghost var nodes0 := arena.nodes;
      assert speciesList[k].Valid(nodes0);
      assert s.infecteds[local] in s.hostSet;
      ghost var h := s.infecteds[local];
      assert h in owned[k] && owner[h] == k;
      s.RecoverHost(local, environment, arena, transcendental);
      forall j | 0 <= j < |speciesList| && j != k
        ensures speciesList[j].Valid(nodes0) && speciesList[j].hostSet <= owned[j]
      {
        assert old(speciesList[j].Valid(nodes0));
        assert h !in owned[j];
      }
      OthersKeep(k, nodes0, arena.nodes);
    }

    /** looseImmunity, vaccinate or cull on the host at `local` of
     *  `tr.Source()` in species `k`; no host and no virus changes. */
    method MoveIn(k: nat, local: nat, tr: Transition, ghost nodes: seq<VirusNode>)
      requires !tr.Recovery? && Valid(nodes) && k < |speciesList| && local < |speciesList[k].Get(tr.Source())|
      modifies speciesList[k]
      ensures Valid(nodes)
      ensures |speciesList[k].susceptibles| == old(|speciesList[k].susceptibles|) + tr.Change(Susceptible, 1)
      ensures |speciesList[k].infecteds| == old(|speciesList[k].infecteds|) + tr.Change(Infected, 1)
      ensures |speciesList[k].recovereds| == old(|speciesList[k].recovereds|) + tr.Change(Recovered, 1)
      ensures forall j :: 0 <= j < |speciesList| && j != k ==>
        && speciesList[j].susceptibles == old(speciesList[j].susceptibles)
        && speciesList[j].infecteds == old(speciesList[j].infecteds)
        && speciesList[j].recovereds == old(speciesList[j].recovereds)
    {
      match tr {
        case ImmunityLoss => LoseImmunityIn(k, local, tr, nodes);
        case Vaccination => VaccinateIn(k, local, tr, nodes);
        case Culling => CullIn(k, local, tr, nodes);
      }
    }

    /** looseImmunity on the host at `local` of R in species `k`. */
    method LoseImmunityIn(k: nat, local: nat, tr: Transition, ghost nodes: seq<VirusNode>)
      requires tr == ImmunityLoss && Valid(nodes) && k < |speciesList| && local < |speciesList[k].Get(tr.Source())|
      modifies speciesList[k]
      ensures Valid(nodes)
      ensures |speciesList[k].susceptibles| == old(|speciesList[k].susceptibles|) + tr.Change(Susceptible, 1)
      ensures |speciesList[k].infecteds| == old(|speciesList[k].infecteds|) + tr.Change(Infected, 1)
      ensures |speciesList[k].recovereds| == old(|speciesList[k].recovereds|) + tr.Change(Recovered, 1)
      ensures forall j :: 0 <= j < |speciesList| && j != k ==>
        && speciesList[j].susceptibles == old(speciesList[j].susceptibles)
        && speciesList[j].infecteds == old(speciesList[j].infecteds)
        && speciesList[j].recovereds == old(speciesList[j].recovereds)
    {
      var s := speciesList[k];
      assert speciesList[k].Valid(nodes);
      s.LooseImmunity(local, nodes);
      forall j | 0 <= j < |speciesList| && j != k
        ensures speciesList[j].Valid(nodes) && speciesList[j].hostSet <= owned[j]
      {
        assert old(speciesList[j].Valid(nodes));
      }
      OthersKeep(k, nodes, nodes);
    }

    /** vaccinate on the host at `local` of S in species `k`. */
    method VaccinateIn(k: nat, local: nat, tr: Transition, ghost nodes: seq<VirusNode>)
      requires tr == Vaccination && Valid(nodes) && k < |speciesList| && local < |speciesList[k].Get(tr.Source())|
      modifies speciesList[k]
      ensures Valid(nodes)
      ensures |speciesList[k].susceptibles| == old(|speciesList[k].susceptibles|) + tr.Change(Susceptible, 1)
      ensures |speciesList[k].infecteds| == old(|speciesList[k].infecteds|) + tr.Change(Infected, 1)
      ensures |speciesList[k].recovereds| == old(|speciesList[k].recovereds|) + tr.Change(Recovered, 1)
      ensures forall j :: 0 <= j < |speciesList| && j != k ==>
        && speciesList[j].susceptibles == old(speciesList[j].susceptibles)
        && speciesList[j].infecteds == old(speciesList[j].infecteds)
        && speciesList[j].recovereds == old(speciesList[j].recovereds)
    {
      var s := speciesList[k];
      assert speciesList[k].Valid(nodes);
      s.Vaccinate(local, nodes);
      forall j | 0 <= j < |speciesList| && j != k
        ensures speciesList[j].Valid(nodes) && speciesList[j].hostSet <= owned[j]
      {
        assert old(speciesList[j].Valid(nodes));
      }
      OthersKeep(k, nodes, nodes);
    }

    /** cull on the host at `local` of I in species `k`. */
    method CullIn(k: nat, local: nat, tr: Transition, ghost nodes: seq<VirusNode>)
      requires tr == Culling && Valid(nodes) && k < |speciesList| && local < |speciesList[k].Get(tr.Source())|
      modifies speciesList[k]
      ensures Valid(nodes)
      ensures |speciesList[k].susceptibles| == old(|speciesList[k].susceptibles|) + tr.Change(Susceptible, 1)
      ensures |speciesList[k].infecteds| == old(|speciesList[k].infecteds|) + tr.Change(Infected, 1)
      ensures |speciesList[k].recovereds| == old(|speciesList[k].recovereds|) + tr.Change(Recovered, 1)
      ensures forall j :: 0 <= j < |speciesList| && j != k ==>
        && speciesList[j].susceptibles == old(speciesList[j].susceptibles)
        && speciesList[j].infecteds == old(speciesList[j].infecteds)
        && speciesList[j].recovereds == old(speciesList[j].recovereds)
    {
      var s := speciesList[k];
      assert speciesList[k].Valid(nodes);
      s.Cull(local, nodes);
      forall j | 0 <= j < |speciesList| && j != k
        ensures speciesList[j].Valid(nodes) && speciesList[j].hostSet <= owned[j]
      {
        assert old(speciesList[j].Valid(nodes));
      }
      OthersKeep(k, nodes, nodes);
    }

    /** StepIn seen through the compartment totals over all species. */
    method StepAt(k: nat, local: nat, tr: Transition, arena: Arena)
      requires arena.Valid() && Valid(arena.nodes) && k < |speciesList| && local < |speciesList[k].Get(tr.Source())|
      modifies speciesList[k], speciesList[k].Get(tr.Source())[local], arena
      ensures arena.Valid() && Valid(arena.nodes) && ParentsKept(old(arena.nodes), arena.nodes)
      ensures TotalShedding(arena.nodes) == TotalShedding(old(arena.nodes)) + tr.Shed(1)
      ensures Total(Susceptible) == old(Total(Susceptible)) + tr.Change(Susceptible, 1)
      ensures Total(Infected) == old(Total(Infected)) + tr.Change(Infected, 1)
      ensures Total(Recovered) == old(Total(Recovered)) + tr.Change(Recovered, 1)
    {
      ghost var ls, li, lr := Lists(speciesList, Susceptible), Lists(speciesList, Infected), Lists(speciesList, Recovered);
      ghost var s0, i0, r0 := speciesList[k].susceptibles, speciesList[k].infecteds, speciesList[k].recovereds;
      assert ls[k] == s0 && li[k] == i0 && lr[k] == r0;
      StepIn(k, local, tr, arena);
      ghost var ls1, li1, lr1 := Lists(speciesList, Susceptible), Lists(speciesList, Infected), Lists(speciesList, Recovered);
      assert ls1[k] == speciesList[k].susceptibles && li1[k] == speciesList[k].infecteds && lr1[k] == speciesList[k].recovereds;
      assert forall j :: 0 <= j < |li| && j != k ==> li[j] == li1[j] && ls[j] == ls1[j] && lr[j] == lr1[j];
      ConcatStep(ls, ls1, k);
      ConcatStep(li, li1, k);
      ConcatStep(lr, lr1, k);
    }

    /** StepAt with the compartment sizes recorded in `t`. */
    method StepCounted(k: nat, local: nat, tr: Transition, arena: Arena, ghost t: Counts)
      requires arena.Valid() && Valid(arena.nodes) && Counted(t) && k < |speciesList| && local < |speciesList[k].Get(tr.Source())|
      modifies speciesList, repr, arena
      ensures arena.Valid() && Valid(arena.nodes) && ParentsKept(old(arena.nodes), arena.nodes)
      ensures t.Of(tr.Source()) >= 1 && Counted(t.After(tr, 1))
      ensures TotalShedding(arena.nodes) == TotalShedding(old(arena.nodes)) + tr.Shed(1)
    {
      assert t.Of(Susceptible) == Total(Susceptible) && t.Of(Infected) == Total(Infected) && t.Of(Recovered) == Total(Recovered);
      assert speciesList[k].Valid(arena.nodes);
      assert speciesList[k].Get(tr.Source())[local] in owned[k];
      StepAt(k, local, tr, arena);
      t.OneStep(tr, Total(Susceptible), Total(Infected), Total(Recovered));
      CountedOf(t.After(tr, 1));
    }

    /** One round of a distribution loop: the host at the drawn flat index
     *  of `tr.Source()`, located by the species scan, takes the step. */
    method StepDrawn(index: nat, tr: Transition, arena: Arena, ghost t: Counts)
      requires arena.Valid() && Valid(arena.nodes) && Counted(t) && index < t.Of(tr.Source())
      modifies speciesList, repr, arena
      ensures arena.Valid() && Valid(arena.nodes) && ParentsKept(old(arena.nodes), arena.nodes)
      ensures Counted(t.After(tr, 1))
      ensures TotalShedding(arena.nodes) == TotalShedding(old(arena.nodes)) + tr.Shed(1)
    {
      assert t.Of(tr.Source()) == Total(tr.Source());
      var found, k, local := Locate(tr.Source(), index);
      assert Lists(speciesList, tr.Source())[k] == speciesList[k].Get(tr.Source());
      StepCounted(k, local, tr, arena, t);
    }

    /** The distribution loop shared by distributeRecoveries, loseImmunity,
     *  vaccinate and cull, from the source count it starts with: each round
     *  draws a flat index below the hosts still in `tr.Source()`, and the
     *  loop stops after `rounds` rounds or when none is left. */
    method StepsFrom(count: nat, rounds: nat, tr: Transition, arena: Arena, draws: seq<nat>, ghost c0: Counts)
      requires arena.Valid() && Valid(arena.nodes) && Counted(c0) && count == c0.Of(tr.Source())
      requires DrawsFit(draws, count, Min(rounds, count))
      modifies speciesList, repr, arena
      ensures arena.Valid() && Valid(arena.nodes) && ParentsKept(old(arena.nodes), arena.nodes)
      ensures Counted(c0.After(tr, Min(rounds, count)))
      ensures TotalShedding(arena.nodes) == TotalShedding(old(arena.nodes)) + tr.Shed(Min(rounds, count))
    {
      var left := count;
      ghost var sh0, nodes0 := TotalShedding(arena.nodes), arena.nodes;
      ghost var t := c0;
      var i: nat := 0;
      while i < rounds && left > 0
        invariant i <= rounds && i <= count && left == count - i
        invariant t == c0.After(tr, i)
        invariant arena.Valid() && Valid(arena.nodes) && Counted(t) && ParentsKept(nodes0, arena.nodes)
        invariant TotalShedding(arena.nodes) == sh0 + tr.Shed(i)
      {
        assert draws[i] < count - i;
        ghost var nodes1 := arena.nodes;
        StepDrawn(draws[i], tr, arena, t);
        ParentsKeptTransitive(nodes0, nodes1, arena.nodes);
        c0.AfterStep(tr, i);
        t := t.After(tr, 1);
        left := left - 1;
        i := i + 1;
      }
      assert i == Min(rounds, count);
    }

    /** A distribution loop over the current population: min(rounds, size of
     *  tr.Source()) hosts take the step. */
    method Distribute(tr: Transition, rounds: nat, arena: Arena, draws: seq<nat>)
      requires arena.Valid() && Valid(arena.nodes)
      requires DrawsFit(draws, Total(tr.Source()), Min(rounds, Total(tr.Source())))
      modifies speciesList, repr, arena
      ensures arena.Valid() && Valid(arena.nodes) && ParentsKept(old(arena.nodes), arena.nodes)
      ensures var n := Min(rounds, old(Total(tr.Source())));
        && Total(Susceptible) == old(Total(Susceptible)) + tr.Change(Susceptible, n)
        && Total(Infected) == old(Total(Infected)) + tr.Change(Infected, n)
        && Total(Recovered) == old(Total(Recovered)) + tr.Change(Recovered, n)
        && TotalShedding(arena.nodes) == TotalShedding(old(arena.nodes)) + tr.Shed(n)
    {
      var count := Count(tr.Source());
      ghost var c0 := Counts(Total(Susceptible), Total(Infected), Total(Recovered));
      CountedOf(c0);
      assert c0.Of(tr.Source()) == Total(tr.Source());
      StepsFrom(count, rounds, tr, arena, draws, c0);
      ghost var c1 := c0.After(tr, Min(rounds, count));
      assert Total(Susceptible) == c1.s && Total(Infected) == c1.i && Total(Recovered) == c1.r;
    }

    /** distributeRecoveries: min(newRecoveries, I) infected hosts recover,
     *  each drawn uniformly over the infected hosts still left; each clears
     *  its infection and joins R under transcendental immunity, S otherwise. */
    method DistributeRecoveries(arena: Arena, draws: seq<nat>, transcendental: bool)
      requires arena.Valid() && Valid(arena.nodes)
      requires DrawsFit(draws, Total(Infected), Min(newRecoveries, Total(Infected)))
      modifies speciesList, repr, arena
      ensures arena.Valid() && Valid(arena.nodes) && ParentsKept(old(arena.nodes), arena.nodes)
      ensures var n := Min(newRecoveries, old(Total(Infected)));
        && Total(Infected) == old(Total(Infected)) - n
        && (transcendental ==> Total(Recovered) == old(Total(Recovered)) + n && Total(Susceptible) == old(Total(Susceptible)))
        && (!transcendental ==> Total(Susceptible) == old(Total(Susceptible)) + n && Total(Recovered) == old(Total(Recovered)))
        && TotalShedding(arena.nodes) == TotalShedding(old(arena.nodes)) - n
    {
      var tr := Recovery(transcendental);
      ghost var n := Min(newRecoveries, Total(Infected));
      assert tr.Source() == Infected && tr.Change(Infected, n) == -(n as int) && tr.Shed(n) == -(n as int);
      if transcendental {
        assert tr.Change(Recovered, n) == n && tr.Change(Susceptible, n) == 0;
      } else {
        assert tr.Change(Susceptible, n) == n && tr.Change(Recovered, n) == 0;
      }
      Distribute(tr, newRecoveries, arena, draws);
    }

    /** loseImmunity, given its Poisson draw `returnCount`: min(returnCount, R)
     *  recovered hosts drawn one at a time go back to S. */
    method LoseImmunity(returnCount: nat, arena: Arena, draws: seq<nat>)
      requires arena.Valid() && Valid(arena.nodes)
      requires DrawsFit(draws, Total(Recovered), Min(returnCount, Total(Recovered)))
      modifies speciesList, repr, arena
      ensures arena.Valid() && Valid(arena.nodes) && ParentsKept(old(arena.nodes), arena.nodes)
      ensures var n := Min(returnCount, old(Total(Recovered)));
        && Total(Recovered) == old(Total(Recovered)) - n
        && Total(Susceptible) == old(Total(Susceptible)) + n
        && Total(Infected) == old(Total(Infected))
        && TotalShedding(arena.nodes) == TotalShedding(old(arena.nodes))
    {
      Distribute(ImmunityLoss, returnCount, arena, draws);
    }

    /** vaccinate: (int)(S * fraction) susceptible hosts, but never more
     *  than S, are drawn one at a time and move to R. */
    method Vaccinate(fraction: real, arena: Arena, draws: seq<nat>)
      requires arena.Valid() && Valid(arena.nodes)
      requires DrawsFit(draws, Total(Susceptible), Min(Rounds(Total(Susceptible), fraction), Total(Susceptible)))
      modifies speciesList, repr, arena
      ensures arena.Valid() && Valid(arena.nodes) && ParentsKept(old(arena.nodes), arena.nodes)
      ensures var n := Min(Rounds(old(Total(Susceptible)), fraction), old(Total(Susceptible)));
        && Total(Susceptible) == old(Total(Susceptible)) - n
        && Total(Recovered) == old(Total(Recovered)) + n
        && Total(Infected) == old(Total(Infected))
        && TotalShedding(arena.nodes) == TotalShedding(old(arena.nodes))
    {
      var vaccine := Rounds(Total(Susceptible), fraction);
      Distribute(Vaccination, vaccine, arena, draws);
    }

    /** cull: (int)(I * culling) infected hosts, but never more than I, are
     *  drawn one at a time and removed from the population. The culled
     *  host's virus keeps its shedding count: cull does not clear the
     *  infection. */
    method Cull(culling: real, arena: Arena, draws: seq<nat>)
      requires arena.Valid() && Valid(arena.nodes)
      requires DrawsFit(draws, Total(Infected), Min(Rounds(Total(Infected), culling), Total(Infected)))
      modifies speciesList, repr, arena
      ensures arena.Valid() && Valid(arena.nodes) && ParentsKept(old(arena.nodes), arena.nodes)
      ensures var n := Min(Rounds(old(Total(Infected)), culling), old(Total(Infected)));
        && Total(Infected) == old(Total(Infected)) - n
        && Total(Susceptible) == old(Total(Susceptible))
        && Total(Recovered) == old(Total(Recovered))
        && TotalShedding(arena.nodes) == TotalShedding(old(arena.nodes))
    {
      var numCull := Rounds(Total(Infected), culling);
      assert Culling.Source() == Infected && Culling.Target() == None;
      Distribute(Culling, numCull, arena, draws);
    }

    /** One mutation: the host at the drawn flat index of I (getRandomHostI)
     *  mutates its infection. No list of any species changes. */
    method MutateOne(draw: nat, arena: Arena, m: MathLib, mp: GeometricPhenotype.MutationParams,
                     mdraw: GeometricPhenotype.MutationDraw, date: real) returns (h: Host)
      requires arena.Valid() && Valid(arena.nodes) && Total(Infected) > 0 && GeometricPhenotype.ValidMutation(mp)
      modifies repr, arena
      ensures arena.Valid() && Valid(arena.nodes) && ParentsKept(old(arena.nodes), arena.nodes)
      ensures h == old(Concat(Lists(speciesList, Infected))[draw % Total(Infected)])
      ensures |arena.nodes| == |old(arena.nodes)| + 1 && h.infection == Some(|old(arena.nodes)|)
      ensures var v := old(HostAt(Infected, draw).infection);
        v.Some? && v.value < |old(arena.nodes)| && arena.nodes == WithMutant(old(arena.nodes), v.value, m, mp, mdraw, date)
      ensures MutatedFrom(old(arena.nodes), arena.nodes, m, mp, [mdraw])
      ensures TotalShedding(arena.nodes) == TotalShedding(old(arena.nodes))
      ensures ParentAt(arena.nodes, |old(arena.nodes)|) == old(HostAt(Infected, draw).infection)
      ensures var hosts, before := old(Concat(Lists(speciesList, Infected))), old(Infections(Concat(Lists(speciesList, Infected))));
        forall p :: 0 <= p < |hosts| ==> hosts[p].infection == if hosts[p] == h then Some(|old(arena.nodes)|) else before[p]
      ensures forall x :: x in old(repr) ==> x.immuneHistory == old(x.immuneHistory)
    {
      ghost var hosts := Concat(Lists(speciesList, Infected));
      ghost var before := Infections(hosts);
      var k;
      h, k := PickInfected(draw, arena.nodes);
      MutateIn(k, h, arena, m, mp, mdraw, date);
      forall p | 0 <= p < |hosts|
        ensures hosts[p].infection == if hosts[p] == h then Some(|old(arena.nodes)|) else before[p]
      {
      }
    }

    /** The infected host at the drawn flat index of I (the host
     *  getRandomHostI returns, see RandomHost), with the species owning it. */
    method PickInfected(draw: nat, ghost nodes: seq<VirusNode>) returns (h: Host, k: nat)
      requires Valid(nodes) && Total(Infected) > 0
      ensures h == Concat(Lists(speciesList, Infected))[draw % Total(Infected)]
      ensures k < |speciesList| && h in speciesList[k].infecteds && h in repr
    {
      h := HostAt(Infected, draw);
      var lists := Lists(speciesList, Infected);
      ConcatMember(lists, h);
      k :| 0 <= k < |lists| && h in lists[k];
      speciesList[k].InfectedOwned(h, nodes);
      assert h in owned[k];
    }

    /** mutate of the infected host `h` of species `k`. */
    method MutateIn(k: nat, h: Host, arena: Arena, m: MathLib, mp: GeometricPhenotype.MutationParams,
                    mdraw: GeometricPhenotype.MutationDraw, date: real)
      requires arena.Valid() && Valid(arena.nodes) && GeometricPhenotype.ValidMutation(mp)
      requires k < |speciesList| && h in speciesList[k].infecteds
      modifies h, arena
      ensures arena.Valid() && Valid(arena.nodes) && ParentsKept(old(arena.nodes), arena.nodes)
      ensures |arena.nodes| == |old(arena.nodes)| + 1
      ensures h.infection == Some(|old(arena.nodes)|) && arena.nodes[|old(arena.nodes)|].parent == old(h.infection)
      ensures old(h.infection).Some? && old(h.infection).value < |old(arena.nodes)|
      ensures arena.nodes == WithMutant(old(arena.nodes), old(h.infection).value, m, mp, mdraw, date)
      ensures h.immuneHistory == old(h.immuneHistory)
      ensures TotalShedding(arena.nodes) == TotalShedding(old(arena.nodes))
    {
      ghost var nodes0 := arena.nodes;
      assert speciesList[k].Valid(nodes0);
      assert h in owned[k] && owner[h] == k;
      speciesList[k].MutateInfected(h, environment, arena, m, mp, mdraw, date);
      forall j | 0 <= j < |speciesList| && j != k
        ensures speciesList[j].Valid(nodes0) && speciesList[j].hostSet <= owned[j]
      {
        assert old(speciesList[j].Valid(nodes0));
        assert h !in owned[j];
      }
      OthersKeep(k, nodes0, arena.nodes);
    }

    /** mutate, given its Poisson draw `mutations`: that many infected hosts,
     *  each drawn from all of I, mutate their infection; each adds one
     *  mutated child of an earlier virus to the arena, no earlier virus
     *  changes its parent or phenotype, and no host changes compartment. A positive count with
     *  no infected host would dereference null, so it is excluded (with I
     *  empty the Poisson rate, and so the count, is zero). */
    method Mutate(mutations: nat, draws: seq<nat>, arena: Arena, m: MathLib, mp: GeometricPhenotype.MutationParams,
                  mdraws: seq<GeometricPhenotype.MutationDraw>, date: real)
      requires arena.Valid() && Valid(arena.nodes) && GeometricPhenotype.ValidMutation(mp)
      requires mutations == 0 || Total(Infected) > 0
      requires |draws| >= mutations && |mdraws| >= mutations
      modifies repr, arena
      ensures arena.Valid() && Valid(arena.nodes) && ParentsKept(old(arena.nodes), arena.nodes)
      ensures |arena.nodes| == |old(arena.nodes)| + mutations
      ensures MutatedFrom(old(arena.nodes), arena.nodes, m, mp, mdraws[..mutations])
      ensures TotalShedding(arena.nodes) == TotalShedding(old(arena.nodes))
      ensures forall c :: Total(c) == old(Total(c))
      ensures var hosts, base := old(Concat(Lists(speciesList, Infected))), |old(arena.nodes)|;
        var before := old(Infections(Concat(Lists(speciesList, Infected))));
        0 < |hosts| ==>
        ParentsTraced(hosts, before, base, draws, mutations, arena.nodes)
        && InfectionsTraced(hosts, before, base, draws, mutations, Infections(hosts))
      ensures forall x :: x in old(repr) ==> x.immuneHistory == old(x.immuneHistory)
    {
      ghost var nodes0 := arena.nodes;
      ghost var hosts := Concat(Lists(speciesList, Infected));
      ghost var base := |nodes0|;
      ghost var before := Infections(hosts);
      MutatedFromNone(nodes0, m, mp);
      for i := 0 to mutations
        invariant arena.Valid() && Valid(arena.nodes) && ParentsKept(nodes0, arena.nodes)
        invariant MutatedFrom(nodes0, arena.nodes, m, mp, mdraws[..i])
        invariant TotalShedding(arena.nodes) == TotalShedding(nodes0)
        invariant Concat(Lists(speciesList, Infected)) == hosts
        invariant 0 < |hosts| ==>
          && |arena.nodes| == base + i
          && ParentsTraced(hosts, before, base, draws, i, arena.nodes)
          && InfectionsTraced(hosts, before, base, draws, i, Infections(hosts))
        invariant forall x :: x in old(repr) ==> x.immuneHistory == old(x.immuneHistory)
      {
        ghost var nodes1 := arena.nodes;
        MutateRound(i, draws, arena, m, mp, mdraws[i], date, hosts, before, base);
        MutatedFromStep(nodes0, nodes1, arena.nodes, m, mp, mdraws, i);
      }
    }

    /** Round `i` of mutate: MutateOne at `draws[i]`, which carries the
     *  record of parents and infections one round further. */
    method MutateRound(i: nat, draws: seq<nat>, arena: Arena, m: MathLib, mp: GeometricPhenotype.MutationParams,
                       mdraw: GeometricPhenotype.MutationDraw, date: real, ghost hosts: seq<Host>,
                       ghost before: seq<Option<nat>>, ghost base: nat)
      requires arena.Valid() && Valid(arena.nodes) && GeometricPhenotype.ValidMutation(mp)
      requires i < |draws| && Concat(Lists(speciesList, Infected)) == hosts && 0 < |hosts| && |arena.nodes| == base + i
      requires ParentsTraced(hosts, before, base, draws, i, arena.nodes)
      requires InfectionsTraced(hosts, before, base, draws, i, Infections(hosts))
      modifies repr, arena
      ensures arena.Valid() && Valid(arena.nodes) && ParentsKept(old(arena.nodes), arena.nodes)
      ensures MutatedFrom(old(arena.nodes), arena.nodes, m, mp, [mdraw])
      ensures TotalShedding(arena.nodes) == TotalShedding(old(arena.nodes))
      ensures Concat(Lists(speciesList, Infected)) == hosts && |arena.nodes| == base + i + 1
      ensures ParentsTraced(hosts, before, base, draws, i + 1, arena.nodes)
      ensures InfectionsTraced(hosts, before, base, draws, i + 1, Infections(hosts))
      ensures forall x :: x in old(repr) ==> x.immuneHistory == old(x.immuneHistory)
    {
      ghost var nodes1 := arena.nodes;
      ghost var inf1 := Infections(hosts);
      ghost var q := draws[i] % |hosts|;
      var h := MutateOne(draws[i], arena, m, mp, mdraw, date);
      assert old(HostAt(Infected, draws[i])) == hosts[q] == h;
      ghost var inf2 := Infections(hosts);
      ghost var child: Option<nat> := Some(base + i);
      forall p | 0 <= p < |hosts|
        ensures inf2[p] == if hosts[p] == hosts[q] then child else inf1[p]
      {
        assert inf2[p] == hosts[p].infection;
      }
      ParentsRound(hosts, before, base, draws, i, nodes1, arena.nodes, inf1);
      InfectionsRound(hosts, before, base, draws, i, inf1, inf2);
    }

    /** Hosts new to the population join species `k`'s share of the
     *  footprint, which makes the population valid again when species `k`
     *  is the only one that gained hosts. */
    ghost method Adopt(k: nat, nodes: seq<VirusNode>)
      requires k < |speciesList| && Registered(speciesList, owned, slot, owner, repr)
      requires forall j :: 0 <= j < |speciesList| && j != k ==> speciesList[j].hostSet <= owned[j]
      requires forall j {:trigger speciesList[j].Valid(nodes)} :: 0 <= j < |speciesList| ==> speciesList[j].Valid(nodes)
      requires environment.Valid(nodes)
      requires forall h :: h in speciesList[k].hostSet ==> h in owned[k] || h !in repr
      modifies this`repr, this`owned, this`owner
      ensures Valid(nodes) && repr == old(repr) + speciesList[k].hostSet
    {
      ghost var hosts := speciesList[k].hostSet;
      ghost var owned0, owner0 := owned, owner;
      repr := repr + hosts;
      owned := owned[k := owned[k] + hosts];
      owner := owner + map h | h in hosts :: k;
      forall j, h | 0 <= j < |owned| && h in owned[j]
        ensures h in repr && h in owner && owner[h] == j
      {
        if j != k {
          assert h in owned0[j] && owner0[h] == j;
          assert h !in hosts;
        }
      }
    }

    /** grow on species `k`: new naive hosts join its S strictly inside its
     *  brooding period; nothing else changes. */
    method GrowIn(k: nat, dayOfYear: int, births: nat, immune: seq<bool>, urImmunity: Phenotype, ghost nodes: seq<VirusNode>)
      requires Valid(nodes) && k < |speciesList| && |immune| >= births
      modifies this`repr, this`owned, this`owner, speciesList[k]
      ensures Valid(nodes) && fresh(repr - old(repr))
      ensures Extended(old(speciesList[k].susceptibles), speciesList[k].susceptibles, BroodBirths(speciesList[k], dayOfYear, births))
      ensures speciesList[k].infecteds == old(speciesList[k].infecteds) && speciesList[k].recovereds == old(speciesList[k].recovereds)
      ensures forall j :: 0 <= j < |speciesList| && j != k ==>
        && speciesList[j].susceptibles == old(speciesList[j].susceptibles)
        && speciesList[j].infecteds == old(speciesList[j].infecteds)
        && speciesList[j].recovereds == old(speciesList[j].recovereds)
    {
      GrowHosts(k, dayOfYear, births, immune, urImmunity, nodes);
      Adopt(k, nodes);
    }

    /** Species `k` grows; its new hosts are fresh and not yet adopted. */
    method GrowHosts(k: nat, dayOfYear: int, births: nat, immune: seq<bool>, urImmunity: Phenotype, ghost nodes: seq<VirusNode>)
      requires Valid(nodes) && k < |speciesList| && |immune| >= births
      modifies speciesList[k]
      ensures Registered(speciesList, owned, slot, owner, repr)
      ensures forall j :: 0 <= j < |speciesList| && j != k ==> speciesList[j].hostSet <= owned[j]
      ensures forall j {:trigger speciesList[j].Valid(nodes)} :: 0 <= j < |speciesList| ==> speciesList[j].Valid(nodes)
      ensures environment.Valid(nodes)
      ensures forall h :: h in speciesList[k].hostSet ==> h in owned[k] || (h !in repr && fresh(h))
      ensures Extended(old(speciesList[k].susceptibles), speciesList[k].susceptibles, BroodBirths(speciesList[k], dayOfYear, births))
      ensures speciesList[k].infecteds == old(speciesList[k].infecteds) && speciesList[k].recovereds == old(speciesList[k].recovereds)
      ensures forall j :: 0 <= j < |speciesList| && j != k ==>
        && speciesList[j].susceptibles == old(speciesList[j].susceptibles)
        && speciesList[j].infecteds == old(speciesList[j].infecteds)
        && speciesList[j].recovereds == old(speciesList[j].recovereds)
    {
      var s := speciesList[k];
      assert s.Valid(nodes);
      s.Grow(dayOfYear, births, immune, urImmunity, nodes);
      forall j | 0 <= j < |speciesList| && j != k
        ensures speciesList[j].Valid(nodes) && speciesList[j].hostSet <= owned[j]
      {
        assert old(speciesList[j].Valid(nodes));
      }
    }

    /** grow(dayOfYear): every species grows in turn, each by its own
     *  Poisson draw of births, S only. */
    method Grow(dayOfYear: int, births: seq<nat>, immune: seq<seq<bool>>, urImmunity: Phenotype, ghost nodes: seq<VirusNode>)
      requires Valid(nodes) && |births| == |speciesList| && ImmuneFit(immune, births)
      modifies this`repr, this`owned, this`owner, speciesList
      ensures Valid(nodes) && fresh(repr - old(repr))
      ensures Lists(speciesList, Infected) == old(Lists(speciesList, Infected))
      ensures Lists(speciesList, Recovered) == old(Lists(speciesList, Recovered))
      ensures forall k :: 0 <= k < |speciesList| ==>
        Extended(old(Lists(speciesList, Susceptible))[k], Lists(speciesList, Susceptible)[k], BroodBirths(speciesList[k], dayOfYear, births[k]))
    {
      ghost var ls, li, lr := Lists(speciesList, Susceptible), Lists(speciesList, Infected), Lists(speciesList, Recovered);
      for i := 0 to |speciesList|
        invariant Valid(nodes) && fresh(repr - old(repr))
        invariant forall j :: 0 <= j < |speciesList| ==>
          && speciesList[j].infecteds == li[j] && speciesList[j].recovereds == lr[j]
          && (j < i ==> Extended(ls[j], speciesList[j].susceptibles, BroodBirths(speciesList[j], dayOfYear, births[j])))
          && (i <= j ==> speciesList[j].susceptibles == ls[j])
      {
        GrowIn(i, dayOfYear, births[i], immune[i], urImmunity, nodes);
      }
      assert Lists(speciesList, Infected) == li;
      assert Lists(speciesList, Recovered) == lr;
    }

    /** decline(compartment) on compartment `c` of species `k`: its drawn
     *  number of deaths (all of it when fewer) go by swap-removal at the
     *  drawn indices; nothing else changes. */
    method DeclineIn(k: nat, c: Compartment, deaths: nat, draws: seq<nat>, ghost nodes: seq<VirusNode>)
      requires Valid(nodes) && k < |speciesList|
      requires DrawsFit(draws, |speciesList[k].Get(c)|, Min(deaths, |speciesList[k].Get(c)|))
      modifies speciesList[k]
      ensures Valid(nodes)
      ensures speciesList[k].Get(c) == Declined(old(speciesList[k].Get(c)), deaths, draws)
      ensures c != Susceptible ==> speciesList[k].susceptibles == old(speciesList[k].susceptibles)
      ensures c != Infected ==> speciesList[k].infecteds == old(speciesList[k].infecteds)
      ensures c != Recovered ==> speciesList[k].recovereds == old(speciesList[k].recovereds)
    {
      assert speciesList[k].Valid(nodes);
      DeclineCall(k, c, deaths, draws, nodes);
      forall j | 0 <= j < |speciesList| && j != k
        ensures speciesList[j].Valid(nodes) && speciesList[j].hostSet <= owned[j]
      {
        assert old(speciesList[j].Valid(nodes));
      }
      OthersKeep(k, nodes, nodes);
    }

    /** The species call of DeclineIn. */
    method DeclineCall(k: nat, c: Compartment, deaths: nat, draws: seq<nat>, ghost nodes: seq<VirusNode>)
      requires k < |speciesList| && speciesList[k].Valid(nodes)
      requires DrawsFit(draws, |speciesList[k].Get(c)|, Min(deaths, |speciesList[k].Get(c)|))
      modifies speciesList[k]
      ensures speciesList[k].Valid(nodes) && speciesList[k].hostSet <= old(speciesList[k].hostSet)
      ensures speciesList[k].Get(c) == Declined(old(speciesList[k].Get(c)), deaths, draws)
      ensures c != Susceptible ==> speciesList[k].susceptibles == old(speciesList[k].susceptibles)
      ensures c != Infected ==> speciesList[k].infecteds == old(speciesList[k].infecteds)
      ensures c != Recovered ==> speciesList[k].recovereds == old(speciesList[k].recovereds)
    {
      speciesList[k].DeclineCompartment(c, deaths, draws, nodes);
    }

    /** decline() on species `k`: S, then I, then R. */
    method DeclineSpecies(k: nat, d: DeathDraws, ghost nodes: seq<VirusNode>)
      requires Valid(nodes) && k < |speciesList|
      requires d.Fit(|speciesList[k].susceptibles|, |speciesList[k].infecteds|, |speciesList[k].recovereds|)
      modifies speciesList[k]
      ensures Valid(nodes)
      ensures speciesList[k].susceptibles == Declined(old(speciesList[k].susceptibles), d.deathsS, d.drawsS)
      ensures speciesList[k].infecteds == Declined(old(speciesList[k].infecteds), d.deathsI, d.drawsI)
      ensures speciesList[k].recovereds == Declined(old(speciesList[k].recovereds), d.deathsR, d.drawsR)
      ensures forall j :: 0 <= j < |speciesList| && j != k ==>
        && speciesList[j].susceptibles == old(speciesList[j].susceptibles)
        && speciesList[j].infecteds == old(speciesList[j].infecteds)
        && speciesList[j].recovereds == old(speciesList[j].recovereds)
    {
      DeclineIn(k, Susceptible, d.deathsS, d.drawsS, nodes);
      DeclineIn(k, Infected, d.deathsI, d.drawsI, nodes);
      DeclineIn(k, Recovered, d.deathsR, d.drawsR, nodes);
      forall j | 0 <= j < |speciesList| && j != k
        ensures && speciesList[j].susceptibles == old(speciesList[j].susceptibles)
                && speciesList[j].infecteds == old(speciesList[j].infecteds)
                && speciesList[j].recovereds == old(speciesList[j].recovereds)
      {
      }
    }

    /** decline(): every species declines in turn, each with its own draws. */
    method Decline(deaths: seq<DeathDraws>, ghost nodes: seq<VirusNode>)
      requires Valid(nodes) && |deaths| == |speciesList|
      requires forall k :: 0 <= k < |speciesList| ==>
        deaths[k].Fit(|speciesList[k].susceptibles|, |speciesList[k].infecteds|, |speciesList[k].recovereds|)
      modifies speciesList
      ensures Valid(nodes)
      ensures DeclinedAll(deaths, old(Lists(speciesList, Susceptible)), old(Lists(speciesList, Infected)), old(Lists(speciesList, Recovered)),
        Lists(speciesList, Susceptible), Lists(speciesList, Infected), Lists(speciesList, Recovered))
    {
      ghost var ls, li, lr := Lists(speciesList, Susceptible), Lists(speciesList, Infected), Lists(speciesList, Recovered);
      for i := 0 to |speciesList|
        invariant Valid(nodes)
        invariant forall j :: 0 <= j < |speciesList| ==>
          && (j < i ==> speciesList[j].susceptibles == Declined(ls[j], deaths[j].deathsS, deaths[j].drawsS))
          && (j < i ==> speciesList[j].infecteds == Declined(li[j], deaths[j].deathsI, deaths[j].drawsI))
          && (j < i ==> speciesList[j].recovereds == Declined(lr[j], deaths[j].deathsR, deaths[j].drawsR))
          && (i <= j ==> speciesList[j].susceptibles == ls[j] && speciesList[j].infecteds == li[j] && speciesList[j].recovereds == lr[j])
      {
        DeclineSpecies(i, deaths[i], nodes);
      }
      assert DeclinedAll(deaths, ls, li, lr, Lists(speciesList, Susceptible), Lists(speciesList, Infected), Lists(speciesList, Recovered));
    }

    /** makeSusceptible(compartment) on compartment `c` (I or R) of species
     *  `k`: a positive draw drains it into S, each host reset, in the drawn
     *  order; a zero draw does nothing. */
    method MakeSusceptibleIn(k: nat, c: Compartment, conversions: nat, draws: seq<nat>, ghost nodes: seq<VirusNode>)
      requires c != Susceptible && Valid(nodes) && k < |speciesList|
      requires DrawsFit(draws, |speciesList[k].Get(c)|, |speciesList[k].Get(c)|)
      modifies speciesList[k], repr
      ensures Valid(nodes)
      ensures speciesList[k].Get(c) == if conversions > 0 then [] else old(speciesList[k].Get(c))
      ensures speciesList[k].susceptibles ==
        old(speciesList[k].susceptibles) + if conversions > 0 then Drained(old(speciesList[k].Get(c)), draws) else []
      ensures forall c' :: c' != c && c' != Susceptible ==> speciesList[k].Get(c') == old(speciesList[k].Get(c'))
      ensures forall j :: 0 <= j < |speciesList| && j != k ==>
        && speciesList[j].susceptibles == old(speciesList[j].susceptibles)
        && speciesList[j].infecteds == old(speciesList[j].infecteds)
        && speciesList[j].recovereds == old(speciesList[j].recovereds)
      ensures conversions > 0 ==> forall h :: h in old(speciesList[k].Get(c)) ==> h.Naive()
      ensures forall h: Host :: h !in old(speciesList[k].Get(c)) && old(allocated(h) && h.Naive()) ==> h.Naive()
    {
      var s := speciesList[k];
      assert s.Valid(nodes);
      ghost var moved := s.Get(c);
      forall h | h in moved
        ensures h in owned[k] && owner[h] == k
      {
        assert h in s.hostSet;
      }
      MakeSusceptibleCall(k, c, conversions, draws, nodes);
      forall j | 0 <= j < |speciesList| && j != k
        ensures speciesList[j].Valid(nodes) && speciesList[j].hostSet <= owned[j]
      {
        assert forall h :: h in moved ==> h !in speciesList[j].hostSet;
        assert old(speciesList[j].Valid(nodes));
      }
      OthersKeep(k, nodes, nodes);
    }

    /** The species call of MakeSusceptibleIn. */
    method MakeSusceptibleCall(k: nat, c: Compartment, conversions: nat, draws: seq<nat>, ghost nodes: seq<VirusNode>)
      requires c != Susceptible && k < |speciesList| && speciesList[k].Valid(nodes)
      requires DrawsFit(draws, |speciesList[k].Get(c)|, |speciesList[k].Get(c)|)
      modifies speciesList[k], speciesList[k].Get(c)
      ensures speciesList[k].Valid(nodes) && speciesList[k].hostSet == old(speciesList[k].hostSet)
      ensures speciesList[k].Get(c) == if conversions > 0 then [] else old(speciesList[k].Get(c))
      ensures speciesList[k].susceptibles ==
        old(speciesList[k].susceptibles) + if conversions > 0 then Drained(old(speciesList[k].Get(c)), draws) else []
      ensures c != Infected ==> speciesList[k].infecteds == old(speciesList[k].infecteds)
      ensures c != Recovered ==> speciesList[k].recovereds == old(speciesList[k].recovereds)
      ensures conversions > 0 ==> forall h :: h in old(speciesList[k].Get(c)) ==> h.Naive()
      ensures forall h: Host :: h !in old(speciesList[k].Get(c)) && old(allocated(h) && h.Naive()) ==> h.Naive()
    {
      speciesList[k].MakeSusceptibleFrom(c, conversions, draws, nodes);
    }

    /** swap on species `k` (makeSusceptible): the S pass leaves S as it is,
     *  then I and then R are drained into S on a positive draw. */
    method SwapSpecies(k: nat, d: ConversionDraws, ghost nodes: seq<VirusNode>)
      requires Valid(nodes) && k < |speciesList|
      requires d.Fit(|speciesList[k].susceptibles|, |speciesList[k].infecteds|, |speciesList[k].recovereds|)
      modifies speciesList[k], repr
      ensures Valid(nodes)
      ensures speciesList[k].infecteds == if d.conversionsI > 0 then [] else old(speciesList[k].infecteds)
      ensures speciesList[k].recovereds == if d.conversionsR > 0 then [] else old(speciesList[k].recovereds)
      ensures speciesList[k].susceptibles == old(speciesList[k].susceptibles)
        + (if d.conversionsI > 0 then Drained(old(speciesList[k].infecteds), d.drawsI) else [])
        + (if d.conversionsR > 0 then Drained(old(speciesList[k].recovereds), d.drawsR) else [])
      ensures forall j :: 0 <= j < |speciesList| && j != k ==>
        && speciesList[j].susceptibles == old(speciesList[j].susceptibles)
        && speciesList[j].infecteds == old(speciesList[j].infecteds)
        && speciesList[j].recovereds == old(speciesList[j].recovereds)
      ensures d.conversionsI > 0 ==> forall h :: h in old(speciesList[k].infecteds) ==> h.Naive()
      ensures d.conversionsR > 0 ==> forall h :: h in old(speciesList[k].recovereds) ==> h.Naive()
      ensures forall h: Host ::
        h !in old(speciesList[k].infecteds) && h !in old(speciesList[k].recovereds) && old(allocated(h) && h.Naive()) ==> h.Naive()
    {
      ghost var s0, i0, r0 := speciesList[k].susceptibles, speciesList[k].infecteds, speciesList[k].recovereds;
      assert speciesList[k].Valid(nodes);
      assert forall h :: h in i0 ==> h !in r0;
      MakeSusceptibleIn(k, Infected, d.conversionsI, d.drawsI, nodes);
      assert speciesList[k].Get(Recovered) == r0;
      ghost var s1 := speciesList[k].susceptibles;
      MakeSusceptibleIn(k, Recovered, d.conversionsR, d.drawsR, nodes);
      assert speciesList[k].susceptibles == s1 + (if d.conversionsR > 0 then Drained(r0, d.drawsR) else []);
    }

    /** swap(): every species in turn, each with its own draws. */
    method Swap(conversions: seq<ConversionDraws>, ghost nodes: seq<VirusNode>)
      requires Valid(nodes) && |conversions| == |speciesList|
      requires forall k :: 0 <= k < |speciesList| ==>
        conversions[k].Fit(|speciesList[k].susceptibles|, |speciesList[k].infecteds|, |speciesList[k].recovereds|)
      modifies speciesList, repr
      ensures Valid(nodes)
      ensures Swapped(conversions, old(Lists(speciesList, Susceptible)), old(Lists(speciesList, Infected)), old(Lists(speciesList, Recovered)),
        Lists(speciesList, Susceptible), Lists(speciesList, Infected), Lists(speciesList, Recovered))
      ensures forall k, h :: 0 <= k < |speciesList| && conversions[k].conversionsI > 0 && h in old(speciesList[k].infecteds) ==> h.Naive()
      ensures forall k, h :: 0 <= k < |speciesList| && conversions[k].conversionsR > 0 && h in old(speciesList[k].recovereds) ==> h.Naive()
    {
      ghost var ls, li, lr := Lists(speciesList, Susceptible), Lists(speciesList, Infected), Lists(speciesList, Recovered);
      assert forall k :: 0 <= k < |conversions| ==> conversions[k].Fit(|ls[k]|, |li[k]|, |lr[k]|);
      SwapLoop(conversions, ls, li, lr, nodes);
      ghost var ls1, li1, lr1 := Lists(speciesList, Susceptible), Lists(speciesList, Infected), Lists(speciesList, Recovered);
      forall k | 0 <= k < |conversions|
        ensures li1[k] == (if conversions[k].conversionsI > 0 then [] else li[k])
        ensures lr1[k] == (if conversions[k].conversionsR > 0 then [] else lr[k])
        ensures ls1[k] == ls[k] + (if conversions[k].conversionsI > 0 then Drained(li[k], conversions[k].drawsI) else [])
          + (if conversions[k].conversionsR > 0 then Drained(lr[k], conversions[k].drawsR) else [])
      {
        assert ls1[k] == speciesList[k].susceptibles && li1[k] == speciesList[k].infecteds && lr1[k] == speciesList[k].recovereds;
      }
      assert Swapped(conversions, ls, li, lr, ls1, li1, lr1);
    }

    /** The loop of swap() over the species, whose lists were `ls`, `li`
     *  and `lr`: each species drains its I and R into S on a positive draw,
     *  and every moved host is reset. */
    method SwapLoop(conversions: seq<ConversionDraws>, ghost ls: seq<seq<Host>>, ghost li: seq<seq<Host>>,
                    ghost lr: seq<seq<Host>>, ghost nodes: seq<VirusNode>)
      requires Valid(nodes) && |conversions| == |speciesList|
      requires ls == Lists(speciesList, Susceptible) && li == Lists(speciesList, Infected) && lr == Lists(speciesList, Recovered)
      requires forall k :: 0 <= k < |conversions| ==> conversions[k].Fit(|ls[k]|, |li[k]|, |lr[k]|)
      requires forall k :: 0 <= k < |conversions| ==>
        DrawsFit(conversions[k].drawsI, |li[k]|, |li[k]|) && DrawsFit(conversions[k].drawsR, |lr[k]|, |lr[k]|)
      modifies speciesList, repr
      ensures Valid(nodes)
      ensures forall j :: 0 <= j < |speciesList| ==>
        && speciesList[j].infecteds == (if conversions[j].conversionsI > 0 then [] else li[j])
        && speciesList[j].recovereds == (if conversions[j].conversionsR > 0 then [] else lr[j])
        && speciesList[j].susceptibles == ls[j]
          + (if conversions[j].conversionsI > 0 then Drained(li[j], conversions[j].drawsI) else [])
          + (if conversions[j].conversionsR > 0 then Drained(lr[j], conversions[j].drawsR) else [])
      ensures forall k, h :: 0 <= k < |speciesList| && conversions[k].conversionsI > 0 && h in li[k] ==> h.Naive()
      ensures forall k, h :: 0 <= k < |speciesList| && conversions[k].conversionsR > 0 && h in lr[k] ==> h.Naive()
    {
      ghost var ow := MovedOwned(li, lr, nodes);
      for i := 0 to |speciesList|
        invariant Valid(nodes) && |speciesList| == |conversions| == |ls| == |li| == |lr|
        invariant AllNaive(MovedBefore(conversions, li, lr, i))
        invariant DrawsFitAll(conversions, li, lr) && SwappedUpTo(conversions, ls, li, lr, i)
      {
        SwapRound(i, conversions, ls, li, lr, nodes, ow);
      }
      SwapLoopDone(conversions, ls, li, lr);
    }

    /** After the last round of swap()'s loop: every species is drained as
     *  swap() leaves it, and every host it moved is reset. */
    lemma SwapLoopDone(conversions: seq<ConversionDraws>, ls: seq<seq<Host>>, li: seq<seq<Host>>, lr: seq<seq<Host>>)
      requires |speciesList| == |conversions| == |ls| == |li| == |lr|
      requires DrawsFitAll(conversions, li, lr) && SwappedUpTo(conversions, ls, li, lr, |speciesList|)
      requires AllNaive(MovedBefore(conversions, li, lr, |speciesList|))
      ensures forall j :: 0 <= j < |speciesList| ==>
        && speciesList[j].infecteds == (if conversions[j].conversionsI > 0 then [] else li[j])
        && speciesList[j].recovereds == (if conversions[j].conversionsR > 0 then [] else lr[j])
        && speciesList[j].susceptibles == ls[j]
          + (if conversions[j].conversionsI > 0 then Drained(li[j], conversions[j].drawsI) else [])
          + (if conversions[j].conversionsR > 0 then Drained(lr[j], conversions[j].drawsR) else [])
      ensures forall k, h :: 0 <= k < |speciesList| && conversions[k].conversionsI > 0 && h in li[k] ==> h.Naive()
      ensures forall k, h :: 0 <= k < |speciesList| && conversions[k].conversionsR > 0 && h in lr[k] ==> h.Naive()
    {
      forall j | 0 <= j < |speciesList|
        ensures speciesList[j].infecteds == (if conversions[j].conversionsI > 0 then [] else li[j])
        ensures speciesList[j].recovereds == (if conversions[j].conversionsR > 0 then [] else lr[j])
        ensures speciesList[j].susceptibles == ls[j]
          + (if conversions[j].conversionsI > 0 then Drained(li[j], conversions[j].drawsI) else [])
          + (if conversions[j].conversionsR > 0 then Drained(lr[j], conversions[j].drawsR) else [])
      {
        assert SwappedAt(conversions, ls, li, lr, j, |speciesList|);
      }
      forall k, h | 0 <= k < |speciesList| &&
          ((conversions[k].conversionsI > 0 && h in li[k]) || (conversions[k].conversionsR > 0 && h in lr[k]))
        ensures h.Naive()
      {
        assert h in Moved(conversions[k], li[k], lr[k]);
        MovedBeforeHas(conversions, li, lr, |speciesList|, k, h);
        assert h in MovedBefore(conversions, li, lr, |speciesList|);
      }
    }

    /** Species `j`'s lists once the first `i` species are swapped: drained as
     *  swap() leaves them when `j < i`, as they were (`ls`, `li`, `lr`)
     *  otherwise. */
    ghost predicate SwappedAt(conversions: seq<ConversionDraws>, ls: seq<seq<Host>>, li: seq<seq<Host>>,
                              lr: seq<seq<Host>>, j: nat, i: nat)
      requires j < |speciesList| == |conversions| == |ls| == |li| == |lr|
      requires DrawsFit(conversions[j].drawsI, |li[j]|, |li[j]|) && DrawsFit(conversions[j].drawsR, |lr[j]|, |lr[j]|)
      reads this, speciesList
    {
      if j < i then
        && speciesList[j].infecteds == (if conversions[j].conversionsI > 0 then [] else li[j])
        && speciesList[j].recovereds == (if conversions[j].conversionsR > 0 then [] else lr[j])
        && speciesList[j].susceptibles == ls[j]
          + (if conversions[j].conversionsI > 0 then Drained(li[j], conversions[j].drawsI) else [])
          + (if conversions[j].conversionsR > 0 then Drained(lr[j], conversions[j].drawsR) else [])
      else
        speciesList[j].susceptibles == ls[j] && speciesList[j].infecteds == li[j] && speciesList[j].recovereds == lr[j]
    }

    /** The first `i` species are swapped and the rest untouched. */
    ghost predicate SwappedUpTo(conversions: seq<ConversionDraws>, ls: seq<seq<Host>>, li: seq<seq<Host>>,
                                lr: seq<seq<Host>>, i: nat)
      requires |speciesList| == |conversions| == |ls| == |li| == |lr|
      requires DrawsFitAll(conversions, li, lr)
      reads this, speciesList
    {
      forall j :: 0 <= j < |speciesList| ==> SwappedAt(conversions, ls, li, lr, j, i)
    }

    /** Every species' draws fit its I and R lists. */
    ghost predicate DrawsFitAll(conversions: seq<ConversionDraws>, li: seq<seq<Host>>, lr: seq<seq<Host>>)
      requires |conversions| == |li| == |lr|
    {
      forall k :: 0 <= k < |conversions| ==>
        DrawsFit(conversions[k].drawsI, |li[k]|, |li[k]|) && DrawsFit(conversions[k].drawsR, |lr[k]|, |lr[k]|)
    }

    /** Round `i` of swap()'s loop: species `i` drains its I and R into S,
     *  and the hosts moved in earlier rounds stay reset. */
    method SwapRound(i: nat, conversions: seq<ConversionDraws>, ghost ls: seq<seq<Host>>, ghost li: seq<seq<Host>>,
                     ghost lr: seq<seq<Host>>, ghost nodes: seq<VirusNode>, ghost ow: map<Host, nat>)
      requires Valid(nodes) && i < |speciesList| == |conversions| == |ls| == |li| == |lr|
      requires conversions[i].Fit(|ls[i]|, |li[i]|, |lr[i]|)
      requires forall j, h: Host :: 0 <= j < |li| && (h in li[j] || h in lr[j]) ==> h in ow && ow[h] == j
      requires AllNaive(MovedBefore(conversions, li, lr, i))
      requires DrawsFitAll(conversions, li, lr) && SwappedUpTo(conversions, ls, li, lr, i)
      modifies speciesList, repr
      ensures Valid(nodes)
      ensures AllNaive(MovedBefore(conversions, li, lr, i + 1))
      ensures SwappedUpTo(conversions, ls, li, lr, i + 1)
    {
      ghost var done := MovedBefore(conversions, li, lr, i);
      assert SwappedAt(conversions, ls, li, lr, i, i);
      SwapSpecies(i, conversions[i], nodes);
      forall h | h in done
        ensures h.Naive()
      {
        MovedBeforeOwned(conversions, li, lr, i, ow, h);
        assert h !in li[i] && h !in lr[i];
        assert old(h.Naive());
      }
      assert MovedBefore(conversions, li, lr, i + 1) == done + Moved(conversions[i], li[i], lr[i]);
      ghost var next := i + 1;
      forall j | 0 <= j < |speciesList|
        ensures SwappedAt(conversions, ls, li, lr, j, next)
      {
        if j != i {
          assert old(SwappedAt(conversions, ls, li, lr, j, i));
        }
      }
    }

    /** swap() over the whole deme: I and R never grow, and N is kept. */
    method SwapCounted(conversions: seq<ConversionDraws>, ghost nodes: seq<VirusNode>)
      requires Valid(nodes) && |conversions| == |speciesList|
      requires forall k :: 0 <= k < |speciesList| ==>
        conversions[k].Fit(|speciesList[k].susceptibles|, |speciesList[k].infecteds|, |speciesList[k].recovereds|)
      modifies speciesList, repr
      ensures Valid(nodes)
      ensures Total(Infected) <= old(Total(Infected)) && Total(Recovered) <= old(Total(Recovered))
      ensures Total(Susceptible) + Total(Infected) + Total(Recovered) == old(Total(Susceptible) + Total(Infected) + Total(Recovered))
    {
      ghost var ls, li, lr := Lists(speciesList, Susceptible), Lists(speciesList, Infected), Lists(speciesList, Recovered);
      Swap(conversions, nodes);
      SwapLengths(conversions, ls, li, lr, Lists(speciesList, Susceptible), Lists(speciesList, Infected), Lists(speciesList, Recovered));
    }

    /** Every host of `hs` is as reset() leaves it. */
    ghost predicate AllNaive(hs: set<Host>)
      reads hs, set h | h in hs :: h.immuneHistory
    {
      forall h :: h in hs ==> h.Naive()
    }

    /** The hosts a swap moves back to the susceptibles. */
    ghost function Moved(d: ConversionDraws, infecteds: seq<Host>, recovereds: seq<Host>): set<Host>
    {
      (if d.conversionsI > 0 then set h | h in infecteds else {})
        + (if d.conversionsR > 0 then set h | h in recovereds else {})
    }

    /** The hosts moved by the swaps of the first `n` species. */
    ghost function MovedBefore(conversions: seq<ConversionDraws>, li: seq<seq<Host>>, lr: seq<seq<Host>>, n: nat): set<Host>
      requires n <= |conversions| && n <= |li| && n <= |lr|
    {
      if n == 0 then {}
      else MovedBefore(conversions, li, lr, n - 1) + Moved(conversions[n - 1], li[n - 1], lr[n - 1])
    }

    /** A host moved by the swap of species `k` is among those moved by the
     *  swaps of any `n > k` first species. */
    lemma {:induction false} MovedBeforeHas(conversions: seq<ConversionDraws>, li: seq<seq<Host>>, lr: seq<seq<Host>>,
                                            n: nat, k: nat, h: Host)
      requires k < n <= |conversions| && n <= |li| && n <= |lr|
      requires h in Moved(conversions[k], li[k], lr[k])
      ensures h in MovedBefore(conversions, li, lr, n)
    {
      if k < n - 1 {
        MovedBeforeHas(conversions, li, lr, n - 1, k, h);
      }
    }

    /** A host moved by the swaps of the first `n` species belongs to one of
     *  them. */
    lemma {:induction false} MovedBeforeOwned(conversions: seq<ConversionDraws>, li: seq<seq<Host>>, lr: seq<seq<Host>>,
                                              n: nat, ow: map<Host, nat>, h: Host)
      requires n <= |conversions| && n <= |li| == |lr|
      requires forall j, x: Host :: 0 <= j < |li| && (x in li[j] || x in lr[j]) ==> x in ow && ow[x] == j
      requires h in MovedBefore(conversions, li, lr, n)
      ensures h in ow && ow[h] < n
    {
      if h !in MovedBefore(conversions, li, lr, n - 1) {
        assert h in li[n - 1] || h in lr[n - 1];
      } else {
        MovedBeforeOwned(conversions, li, lr, n - 1, ow, h);
      }
    }

    /** The infected and recovered hosts of each species belong to that
     *  species alone. */
    lemma MovedOwned(li: seq<seq<Host>>, lr: seq<seq<Host>>, nodes: seq<VirusNode>) returns (ow: map<Host, nat>)
      requires Valid(nodes)
      requires li == Lists(speciesList, Infected) && lr == Lists(speciesList, Recovered)
      ensures ow == owner
      ensures forall j, h: Host :: 0 <= j < |li| && (h in li[j] || h in lr[j]) ==> h in ow && ow[h] == j
    {
      ow := owner;
      forall j, h | 0 <= j < |li| && (h in li[j] || h in lr[j])
        ensures h in owner && owner[h] == j
      {
        assert speciesList[j].Valid(nodes);
        assert h in speciesList[j].hostSet;
      }
    }

    /** recordContacts, given the Poisson sampler: the number of new contacts
     *  is drawn with the expected value ContactRate of the current counts. */
    method RecordContacts(beta: real, seasonality: real, deltaT: real, poisson: Sampler)
      modifies this`newContacts
      ensures newContacts == Poisson(poisson, deme, PoissonDraw.Contacts, ContactRate(old(Total(Infected)), old(Total(Susceptible)),
        old(Total(Susceptible) + Total(Infected) + Total(Recovered)), beta, seasonality, deltaT))
    {
      var i := Count(Infected);
      var s := Count(Susceptible);
      var n := GetN();
      newContacts := Poisson(poisson, deme, PoissonDraw.Contacts, ContactRate(i, s, n, beta, seasonality, deltaT));
    }

    /** recordRecoveries, given the Poisson sampler: the number of new
     *  recoveries is drawn with the expected value I * nu * deltaT. */
    method RecordRecoveries(nu: real, deltaT: real, poisson: Sampler)
      modifies this`newRecoveries
      ensures newRecoveries == Poisson(poisson, deme, Recoveries, EventRate(old(Total(Infected)), nu, deltaT))
    {
      var i := Count(Infected);
      newRecoveries := Poisson(poisson, deme, Recoveries, EventRate(i, nu, deltaT));
    }

    /** The invariant survives any change to the arena that keeps every
     *  parent link. */
    lemma ValidKeeps(nodes0: seq<VirusNode>, nodes1: seq<VirusNode>)
      requires Valid(nodes0) && ParentsKept(nodes0, nodes1)
      ensures Valid(nodes1)
    {
      forall j | 0 <= j < |speciesList|
        ensures speciesList[j].Valid(nodes1)
      {
        speciesList[j].ValidKeeps(nodes0, nodes1);
      }
    }

    /** makeTrunk: every species marks its infected hosts' lineages in turn.
     *  Afterwards every infected host's virus is trunk, only trunk marks
     *  changed, every mark set is on an infected host's virus or one of its
     *  ancestors, and a trunk closed under parents stays closed. */
    method MakeTrunk(arena: Arena)
      requires arena.Valid() && Valid(arena.nodes)
      modifies arena
      ensures arena.Valid() && Valid(arena.nodes) && OnlyTrunkGrows(old(arena.nodes), arena.nodes)
      ensures forall v :: v in old(InfectedViruses(speciesList)) ==> v < |arena.nodes| && arena.nodes[v].trunk
      ensures TrunkClosed(old(arena.nodes)) ==> TrunkClosed(arena.nodes)
      ensures MarkedFrom(old(arena.nodes), arena.nodes, old(InfectedViruses(speciesList)))
    {
      ghost var nodes0 := arena.nodes;
      ghost var sets := VirusSets(speciesList);
      ghost var roots := InfectedViruses(speciesList);
      InfectedVirusesSplit(speciesList, sets);
      for i := 0 to |speciesList|
        invariant arena.Valid() && Valid(arena.nodes) && OnlyTrunkGrows(nodes0, arena.nodes)
        invariant forall k :: 0 <= k < i ==> AllTrunk(arena.nodes, sets[k])
        invariant TrunkClosed(nodes0) ==> TrunkClosed(arena.nodes)
        invariant MarkedFrom(nodes0, arena.nodes, roots)
      {
        ghost var before := arena.nodes;
        assert speciesList[i].Valid(before);
        assert sets[i] == VirusesOf(speciesList[i].infecteds);
        speciesList[i].MakeTrunk(arena);
        TrunkRound(nodes0, before, arena.nodes, roots, sets, i);
        ValidKeeps(before, arena.nodes);
      }
      forall v | v in roots
        ensures v < |arena.nodes| && arena.nodes[v].trunk
      {
        var k :| 0 <= k < |speciesList| && v in sets[k];
        assert AllTrunk(arena.nodes, sets[k]);
      }
    }

    /** reset on species `k`: clear, then createHosts with the deme's
     *  initial counts. */
    method ResetSpecies(k: nat, init: InitialCounts, arena: Arena, urVirus: nat, urImmunity: Phenotype,
                        immune: ImmuneDraws, date: real)
      requires arena.Valid() && Valid(arena.nodes) && k < |speciesList| && urVirus < |arena.nodes|
      requires immune.Fit(speciesList[k], init)
      modifies this`repr, this`owned, this`owner, speciesList[k], arena
      ensures arena.Valid() && Valid(arena.nodes) && ParentsKept(old(arena.nodes), arena.nodes)
      ensures fresh(repr - old(repr))
      ensures var s := speciesList[k];
        && |s.susceptibles| == s.Share(init.s) && |s.infecteds| == s.Share(init.i) && |s.recovereds| == s.Share(init.r)
      ensures forall j :: 0 <= j < |speciesList| && j != k ==>
        && speciesList[j].susceptibles == old(speciesList[j].susceptibles)
        && speciesList[j].infecteds == old(speciesList[j].infecteds)
        && speciesList[j].recovereds == old(speciesList[j].recovereds)
    {
      var s := speciesList[k];
      ghost var nodes0 := arena.nodes;
      s.Clear();
      s.CreateHosts(deme, init.s, init.i, init.r, arena, urVirus, urImmunity, immune.s, immune.i, immune.r, date);
      assert arena.nodes[..|nodes0|] == nodes0;
      ParentsKeptPrefix(nodes0, arena.nodes);
      forall h | h in s.hostSet
        ensures h in owned[k] || h !in repr
      {
      }
      forall j | 0 <= j < |speciesList| && j != k
        ensures speciesList[j].Valid(arena.nodes) && speciesList[j].hostSet <= owned[j]
      {
        assert old(speciesList[j].Valid(nodes0));
        speciesList[j].ValidKeeps(nodes0, arena.nodes);
      }
      Adopt(k, arena.nodes);
    }

    /** reset: every species is cleared and refilled in turn from the
     *  deme's initial counts, so afterwards each holds its shares of them. */
    method Reset(init: InitialCounts, arena: Arena, urVirus: nat, urImmunity: Phenotype,
                 immune: seq<ImmuneDraws>, date: real)
      requires arena.Valid() && Valid(arena.nodes) && urVirus < |arena.nodes|
      requires |immune| == |speciesList| && forall k :: 0 <= k < |speciesList| ==> immune[k].Fit(speciesList[k], init)
      modifies this`repr, this`owned, this`owner, speciesList, arena
      ensures arena.Valid() && Valid(arena.nodes) && ParentsKept(old(arena.nodes), arena.nodes)
      ensures fresh(repr - old(repr))
      ensures forall k :: 0 <= k < |speciesList| ==>
        var s := speciesList[k];
        |s.susceptibles| == s.Share(init.s) && |s.infecteds| == s.Share(init.i) && |s.recovereds| == s.Share(init.r)
    {
      ghost var nodes0 := arena.nodes;
      for i := 0 to |speciesList|
        invariant arena.Valid() && Valid(arena.nodes) && ParentsKept(nodes0, arena.nodes)
        invariant fresh(repr - old(repr))
        invariant forall k :: 0 <= k < i ==>
          var s := speciesList[k];
          |s.susceptibles| == s.Share(init.s) && |s.infecteds| == s.Share(init.i) && |s.recovereds| == s.Share(init.r)
      {
        ghost var before := arena.nodes;
        ResetSpecies(i, init, arena, urVirus, urImmunity, immune[i], date);
        ParentsKeptTransitive(nodes0, before, arena.nodes);
      }
    }

    /** The death draws of decline(): per species, a Poisson number of
     *  deaths per compartment from its current size, and uniform indices. */
    method DrawDeaths(deltaT: real, poisson: Sampler) returns (deaths: seq<DeathDraws>)
      ensures |deaths| == |speciesList|
      ensures forall k :: 0 <= k < |speciesList| ==> DeathsFor(speciesList[k], deme, k, deltaT, poisson, deaths[k])
    {
      deaths := [];
      for i := 0 to |speciesList|
        invariant |deaths| == i
        invariant forall k :: 0 <= k < i ==> DeathsFor(speciesList[k], deme, k, deltaT, poisson, deaths[k])
      {
        var sp := speciesList[i];
        var dS := DeathCount(sp, deme, i, Susceptible, deltaT, poisson);
        var dI := DeathCount(sp, deme, i, Infected, deltaT, poisson);
        var dR := DeathCount(sp, deme, i, Recovered, deltaT, poisson);
        assert DeathsFor(sp, deme, i, deltaT, poisson, DeathDraws(dS, Zeros(Min(dS, |sp.susceptibles|)), dI,
          Zeros(Min(dI, |sp.infecteds|)), dR, Zeros(Min(dR, |sp.recovereds|))));
        var d: DeathDraws :| DeathsFor(sp, deme, i, deltaT, poisson, d);
        deaths := deaths + [d];
      }
    }

    /** The conversion draws of makeSusceptible(): per species, a Poisson
     *  number from the size of R for each of the S, I and R passes, and a
     *  uniform order for draining I and R. */
    method DrawConversions(deltaT: real, poisson: Sampler) returns (conversions: seq<ConversionDraws>)
      requires forall k :: 0 <= k < |speciesList| ==> NoSusceptibleSwap(speciesList[k], deme, k, deltaT, poisson)
      ensures |conversions| == |speciesList|
      ensures forall k :: 0 <= k < |speciesList| ==> ConversionsFor(speciesList[k], deme, k, deltaT, poisson, conversions[k])
    {
      conversions := [];
      for i := 0 to |speciesList|
        invariant |conversions| == i
        invariant forall k :: 0 <= k < i ==> ConversionsFor(speciesList[k], deme, k, deltaT, poisson, conversions[k])
      {
        var sp := speciesList[i];
        var cS := ConversionCount(sp, deme, i, Susceptible, deltaT, poisson);
        var cI := ConversionCount(sp, deme, i, Infected, deltaT, poisson);
        var cR := ConversionCount(sp, deme, i, Recovered, deltaT, poisson);
        assert ConversionsFor(sp, deme, i, deltaT, poisson,
          ConversionDraws(cS, cI, Zeros(|sp.infecteds|), cR, Zeros(|sp.recovereds|)));
        var d: ConversionDraws :| ConversionsFor(sp, deme, i, deltaT, poisson, d);
        conversions := conversions + [d];
      }
    }

    /** The demography step of stepForward: swap, or grow(day % 365) with
     *  each species' Poisson births, then decline with its Poisson deaths;
     *  the uniform and Bernoulli draws are free. I and R never gain hosts,
     *  and swap keeps the number of hosts. */
    method Demography(p: StepParams, poisson: Sampler, urImmunity: Phenotype, ghost nodes: seq<VirusNode>)
      requires Valid(nodes)
      requires p.swapDemography ==> forall k :: 0 <= k < |speciesList| ==> NoSusceptibleSwap(speciesList[k], deme, k, p.deltaT, poisson)
      modifies this`repr, this`owned, this`owner, speciesList, repr
      ensures Valid(nodes) && fresh(repr - old(repr))
      ensures Total(Infected) <= old(Total(Infected)) && Total(Recovered) <= old(Total(Recovered))
      ensures p.swapDemography ==>
        Total(Susceptible) + Total(Infected) + Total(Recovered) == old(Total(Susceptible) + Total(Infected) + Total(Recovered))
    {
      if p.swapDemography {
        var conversions := DrawConversions(p.deltaT, poisson);
        SwapCounted(conversions, nodes);
      } else {
        GrowDecline(p, poisson, urImmunity, nodes);
      }
    }

    /** grow(day % 365) with each species' Poisson births, then decline
     *  with its Poisson deaths: I and R never gain hosts. */
    method GrowDecline(p: StepParams, poisson: Sampler, urImmunity: Phenotype, ghost nodes: seq<VirusNode>)
      requires Valid(nodes)
      modifies this`repr, this`owned, this`owner, speciesList, repr
      ensures Valid(nodes) && fresh(repr - old(repr))
      ensures Total(Infected) <= old(Total(Infected)) && Total(Recovered) <= old(Total(Recovered))
    {
      GrowPhase(p, poisson, urImmunity, nodes);
      DeclinePhase(p, poisson, nodes);
    }

    /** grow(day % 365) with each species' Poisson births: I and R keep
     *  their hosts. */
    method GrowPhase(p: StepParams, poisson: Sampler, urImmunity: Phenotype, ghost nodes: seq<VirusNode>)
      requires Valid(nodes)
      modifies this`repr, this`owned, this`owner, speciesList
      ensures Valid(nodes) && fresh(repr - old(repr))
      ensures Total(Infected) == old(Total(Infected)) && Total(Recovered) == old(Total(Recovered))
    {
      ghost var li, lr := Lists(speciesList, Infected), Lists(speciesList, Recovered);
      var dayOfYear := JavaRemainder(TruncateToInt(p.day), 365);
      var births := DrawBirths(p.deltaT, poisson);
      assert ImmuneFit(seq(|births|, k requires 0 <= k < |births| => seq(births[k], _ => false)), births);
      var immune: seq<seq<bool>> :| ImmuneFit(immune, births);
      Grow(dayOfYear, births, immune, urImmunity, nodes);
      assert Lists(speciesList, Infected) == li && Lists(speciesList, Recovered) == lr;
    }

    /** decline with each species' Poisson deaths: no compartment gains
     *  hosts. */
    method DeclinePhase(p: StepParams, poisson: Sampler, ghost nodes: seq<VirusNode>)
      requires Valid(nodes)
      modifies speciesList
      ensures Valid(nodes)
      ensures Total(Susceptible) <= old(Total(Susceptible))
      ensures Total(Infected) <= old(Total(Infected)) && Total(Recovered) <= old(Total(Recovered))
    {
      ghost var ls, li, lr := Lists(speciesList, Susceptible), Lists(speciesList, Infected), Lists(speciesList, Recovered);
      var deaths := DrawDeaths(p.deltaT, poisson);
      assert [ls, li, lr] == [Lists(speciesList, Susceptible), Lists(speciesList, Infected), Lists(speciesList, Recovered)];
      Decline(deaths, nodes);
      DeclinedLengths(deaths, ls, li, lr, Lists(speciesList, Susceptible), Lists(speciesList, Infected), Lists(speciesList, Recovered));
    }

    /** The birth draws of grow(): per species, a Poisson number from its
     *  total size and brood birth rate. */
    method DrawBirths(deltaT: real, poisson: Sampler) returns (births: seq<nat>)
      ensures |births| == |speciesList|
      ensures forall k :: 0 <= k < |speciesList| ==>
        births[k] == BirthCount(speciesList[k], deme, k, deltaT, poisson)
    {
      births := [];
      for i := 0 to |speciesList|
        invariant |births| == i
        invariant forall k :: 0 <= k < i ==>
          births[k] == BirthCount(speciesList[k], deme, k, deltaT, poisson)
      {
        births := births + [BirthCount(speciesList[i], deme, i, deltaT, poisson)];
      }
    }

    /** The epidemic part of stepForward: recordContacts, recordRecoveries,
     *  distributeContacts, distributeRecoveries and, under transcendental
     *  immunity, loseImmunity, with free uniform draws. The contact and
     *  recovery counts are drawn from the sizes before the events, and only
     *  infections add cases, at most one per recorded contact. */
    method Epidemic(p: StepParams, poisson: Sampler, arena: Arena, m: MathLib, q: GeometricPhenotype.ImmunityParams)
      requires arena.Valid() && Valid(arena.nodes) && GeometricPhenotype.ValidImmunity(q)
      modifies this`newContacts, this`newRecoveries, this`cases, speciesList, repr, arena
      ensures arena.Valid() && Valid(arena.nodes) && ParentsKept(old(arena.nodes), arena.nodes)
      ensures newContacts == Poisson(poisson, deme, PoissonDraw.Contacts, ContactRate(old(Total(Infected)), old(Total(Susceptible)),
        old(Total(Susceptible) + Total(Infected) + Total(Recovered)), p.beta, p.seasonality, p.deltaT))
      ensures newRecoveries == Poisson(poisson, deme, Recoveries, EventRate(old(Total(Infected)), p.nu, p.deltaT))
      ensures 0 <= cases - old(cases) <= newContacts
    {
      RecordContacts(p.beta, p.seasonality, p.deltaT, poisson);
      RecordRecoveries(p.nu, p.deltaT, poisson);
      Spread(p, poisson, arena, m, q);
    }

    /** distributeContacts, distributeRecoveries and, under transcendental
     *  immunity, loseImmunity, after the recorded draws. */
    method Spread(p: StepParams, poisson: Sampler, arena: Arena, m: MathLib, q: GeometricPhenotype.ImmunityParams)
      requires arena.Valid() && Valid(arena.nodes) && GeometricPhenotype.ValidImmunity(q)
      modifies this`cases, speciesList, repr, arena
      ensures arena.Valid() && Valid(arena.nodes) && ParentsKept(old(arena.nodes), arena.nodes)
      ensures 0 <= cases - old(cases) <= newContacts
    {
      ghost var nodes0 := arena.nodes;
      ContactPhase(p, arena, m, q);
      ghost var nodes1 := arena.nodes;
      RecoveryPhase(p, arena);
      ParentsKeptTransitive(nodes0, nodes1, arena.nodes);
      if p.transcendental {
        ghost var nodes2 := arena.nodes;
        ImmunityPhase(p, poisson, arena);
        ParentsKeptTransitive(nodes0, nodes2, arena.nodes);
      }
    }

    /** distributeContacts with free draws: `n` susceptible hosts, at most
     *  one per recorded contact, become infected and add `n` cases. */
    method ContactPhase(p: StepParams, arena: Arena, m: MathLib, q: GeometricPhenotype.ImmunityParams)
      requires arena.Valid() && Valid(arena.nodes) && GeometricPhenotype.ValidImmunity(q)
      modifies this`cases, speciesList, repr, arena
      ensures arena.Valid() && Valid(arena.nodes) && ParentsKept(old(arena.nodes), arena.nodes)
      ensures var n := cases - old(cases);
        && 0 <= n <= newContacts && n <= old(Total(Susceptible))
        && Total(Susceptible) == old(Total(Susceptible)) - n
        && Total(Infected) == old(Total(Infected)) + n
        && Total(Recovered) == old(Total(Recovered))
    {
      assert |Zeros(newContacts)| >= newContacts && |seq(newContacts, _ => 0.0)| >= newContacts;
      var infDraws: seq<nat> :| |infDraws| >= newContacts;
      var susDraws: seq<nat> :| |susDraws| >= newContacts;
      var us: seq<real> :| |us| >= newContacts;
      DistributeContacts(arena, m, q, p.date, infDraws, susDraws, us);
    }

    /** distributeRecoveries with free draws: min(newRecoveries, I) infected
     *  hosts recover, into R under transcendental immunity and back into S
     *  otherwise. */
    method RecoveryPhase(p: StepParams, arena: Arena)
      requires arena.Valid() && Valid(arena.nodes)
      modifies speciesList, repr, arena
      ensures arena.Valid() && Valid(arena.nodes) && ParentsKept(old(arena.nodes), arena.nodes)
      ensures var n := Min(newRecoveries, old(Total(Infected)));
        && Total(Infected) == old(Total(Infected)) - n
        && (p.transcendental ==> Total(Recovered) == old(Total(Recovered)) + n && Total(Susceptible) == old(Total(Susceptible)))
        && (!p.transcendental ==> Total(Susceptible) == old(Total(Susceptible)) + n && Total(Recovered) == old(Total(Recovered)))
    {
      var infected := Total(Infected);
      assert DrawsFit(Zeros(Min(newRecoveries, infected)), infected, Min(newRecoveries, infected));
      var recDraws :| DrawsFit(recDraws, infected, Min(newRecoveries, infected));
      DistributeRecoveries(arena, recDraws, p.transcendental);
    }

    /** loseImmunity with free draws: its Poisson draw from the size of R,
     *  then min(that draw, R) recovered hosts become susceptible. */
    method ImmunityPhase(p: StepParams, poisson: Sampler, arena: Arena)
      requires arena.Valid() && Valid(arena.nodes)
      modifies speciesList, repr, arena
      ensures arena.Valid() && Valid(arena.nodes) && ParentsKept(old(arena.nodes), arena.nodes)
      ensures var n := Min(Returned(old(Total(Recovered)), p, poisson, deme), old(Total(Recovered)));
        && Total(Recovered) == old(Total(Recovered)) - n
        && Total(Susceptible) == old(Total(Susceptible)) + n
        && Total(Infected) == old(Total(Infected))
    {
      var recovered := Total(Recovered);
      var returnCount := Returned(recovered, p, poisson, deme);
      assert DrawsFit(Zeros(Min(returnCount, recovered)), recovered, Min(returnCount, recovered));
      var lossDraws :| DrawsFit(lossDraws, recovered, Min(returnCount, recovered));
      LoseImmunity(returnCount, arena, lossDraws);
    }

    /** The daily environment step of stepForward: dayOffset advances by the
     *  time step; once it reaches a day, the environment clears its viruses
     *  over one day, dayOffset returns to 0 and one day of environmental
     *  infections follows. */
    method EnvironmentDay(p: StepParams, arena: Arena, m: MathLib, q: GeometricPhenotype.ImmunityParams)
      requires arena.Valid() && Valid(arena.nodes) && GeometricPhenotype.ValidImmunity(q)
      requires environment.envDurability != 0.0 && environment.DailyRates(m, p.date, p.demeOffset, 1.0).clearRate != 0.0
      modifies this`dayOffset, this`cases, speciesList, repr, arena, environment`virusList, environment`maxSize
      ensures arena.Valid() && Valid(arena.nodes) && ParentsKept(old(arena.nodes), arena.nodes)
      ensures dayOffset == if old(dayOffset) + p.deltaT >= 1.0 then 0.0 else old(dayOffset) + p.deltaT
      ensures old(dayOffset) + p.deltaT < 1.0 ==> cases == old(cases) && arena.nodes == old(arena.nodes)
      ensures cases >= old(cases)
    {
      dayOffset := dayOffset + p.deltaT;
      if dayOffset >= 1.0 {
        ghost var nodes0 := arena.nodes;
        ClearDay(p, arena, m);
        dayOffset := 0.0;
        ghost var nodes1 := arena.nodes;
        EnvironmentalDay(p, arena, m, q);
        ParentsKeptTransitive(nodes0, nodes1, arena.nodes);
      } else {
        ParentsKeptPrefix(arena.nodes, arena.nodes);
      }
    }

    /** environment.clearViruses(deme, 1): only volumes change in the arena,
     *  so every parent link stays and the population stays valid. */
    method ClearDay(p: StepParams, arena: Arena, m: MathLib)
      requires arena.Valid() && Valid(arena.nodes)
      requires environment.envDurability != 0.0 && environment.DailyRates(m, p.date, p.demeOffset, 1.0).clearRate != 0.0
      modifies arena, environment`virusList, environment`maxSize
      ensures arena.Valid() && Valid(arena.nodes) && ParentsKept(old(arena.nodes), arena.nodes)
    {
      ghost var nodes0 := arena.nodes;
      environment.ClearViruses(arena, m, p.date, p.demeOffset, 1.0);
      forall i: nat | i < |nodes0|
        ensures ParentAt(arena.nodes, i) == ParentAt(nodes0, i)
      {
      }
      forall j | 0 <= j < |speciesList|
        ensures speciesList[j].Valid(arena.nodes)
      {
        assert old(speciesList[j].Valid(nodes0));
        speciesList[j].ValidKeeps(nodes0, arena.nodes);
      }
    }

    /** doEnviornmentalInfections(1.0) with free draws. */
    method EnvironmentalDay(p: StepParams, arena: Arena, m: MathLib, q: GeometricPhenotype.ImmunityParams)
      requires arena.Valid() && Valid(arena.nodes) && GeometricPhenotype.ValidImmunity(q)
      modifies this`cases, speciesList, repr, arena
      ensures arena.Valid() && Valid(arena.nodes) && ParentsKept(old(arena.nodes), arena.nodes)
      ensures cases >= old(cases)
    {
      var susceptible := Count(Susceptible);
      var rounds := Rounds(susceptible, 1.0 * environment.envUpTakeRate);
      var envDraws := AnyBounded(rounds, |environment.virusList|);
      var susDraws := AnyDraws(rounds);
      var us := AnyUniforms(rounds);
      DoEnvironmentalInfections(1.0, arena, m, q, p.date, envDraws, susDraws, us);
    }

    /** mutate(): the Poisson number of mutations from the size of I, each
     *  at a freely drawn infected host with free mutation draws; `used` are
     *  the mutation draws consumed, one per new virus, and `picks` the flat
     *  indices of I drawn for them. */
    method MutationPhase(p: StepParams, poisson: Sampler, arena: Arena, m: MathLib,
                         mp: GeometricPhenotype.MutationParams)
      returns (used: seq<GeometricPhenotype.MutationDraw>, picks: seq<nat>)
      requires arena.Valid() && Valid(arena.nodes) && GeometricPhenotype.ValidMutation(mp)
      requires ZeroMean(poisson)
      modifies repr, arena
      ensures arena.Valid() && Valid(arena.nodes) && ParentsKept(old(arena.nodes), arena.nodes)
      ensures |used| == |picks| == Poisson(poisson, deme, Mutations, EventRate(old(Total(Infected)), p.muPhenotype, p.deltaT))
      ensures MutatedFrom(old(arena.nodes), arena.nodes, m, mp, used)
      ensures var hosts, base := old(Concat(Lists(speciesList, Infected))), |old(arena.nodes)|;
        var before := old(Infections(Concat(Lists(speciesList, Infected))));
        0 < |hosts| ==>
        ParentsTraced(hosts, before, base, picks, |picks|, arena.nodes)
        && InfectionsTraced(hosts, before, base, picks, |picks|, Infections(hosts))
      ensures forall x :: x in old(repr) ==> x.immuneHistory == old(x.immuneHistory)
    {
      ghost var hosts := Concat(Lists(speciesList, Infected));
      ghost var before := Infections(hosts);
      var infected := Count(Infected);
      EventRateBounds(infected, p.muPhenotype, p.deltaT);
      var mutations := Poisson(poisson, deme, Mutations, EventRate(infected, p.muPhenotype, p.deltaT));
      var draws := AnyDraws(mutations);
      var mdraws := AnyMutationDraws(mutations);
      picks := draws[..mutations];
      assert Concat(Lists(speciesList, Infected)) == hosts && Infections(hosts) == before && repr == old(repr);
      Mutate(mutations, picks, arena, m, mp, mdraws, p.date);
      used := mdraws[..mutations];
    }

    /** sample(): with some host infected and the burn-in over, a Poisson
     *  number of infections (rate tipSamplingRate per step, per infected host
     *  when proportional), each of a freely drawn infected host; otherwise
     *  none. */
    method SamplingPhase(p: StepParams, poisson: Sampler, ghost nodes: seq<VirusNode>) returns (sampled: seq<nat>)
      requires Valid(nodes)
      ensures |sampled| == if Total(Infected) > 0 && p.day >= p.burnin then Poisson(poisson, deme, Samples, SamplingRate(p, Total(Infected))) else 0
      ensures forall i :: 0 <= i < |sampled| ==> sampled[i] < |nodes| && SamplesInfected(sampled[i])
    {
      var infected := Count(Infected);
      var samples := Poisson(poisson, deme, Samples, SamplingRate(p, infected));
      var draws := AnyDraws(samples);
      sampled := Sample(samples, p.day, p.burnin, draws, nodes);
      forall i | 0 <= i < |sampled|
        ensures SamplesInfected(sampled[i])
      {
        var hosts := Concat(Lists(speciesList, Infected));
        assert hosts[draws[i] % Total(Infected)] in hosts;
      }
    }

    /** The hosts infected now, in every species. */
    ghost function InfectedHosts(): set<Host>
      reads speciesList
    {
      set h | h in Concat(Lists(speciesList, Infected))
    }

    /** Some infected host carries the virus `v`. */
    ghost predicate SamplesInfected(v: nat)
      reads speciesList, InfectedHosts()
    {
      exists h :: h in Concat(Lists(speciesList, Infected)) && h.infection == Some(v)
    }

    /** stepForward: demography (swap, or grow then decline), the epidemic
     *  events, mutation, the daily environment step and tip sampling, in
     *  that order; every random draw is free. The population stays valid,
     *  every virus keeps its parent, cases never drop, dayOffset follows the
     *  daily cycle, and each sampled virus is the infection of a host
     *  infected at the end of the step. */
    method StepForward(p: StepParams, poisson: Sampler, arena: Arena, m: MathLib,
                       q: GeometricPhenotype.ImmunityParams, mp: GeometricPhenotype.MutationParams, urImmunity: Phenotype)
        returns (sampled: seq<nat>)
      requires arena.Valid() && Valid(arena.nodes)
      requires GeometricPhenotype.ValidImmunity(q) && GeometricPhenotype.ValidMutation(mp)
      requires ZeroMean(poisson)
      requires environment.envDurability != 0.0 && environment.DailyRates(m, p.date, p.demeOffset, 1.0).clearRate != 0.0
      requires p.swapDemography ==> forall k :: 0 <= k < |speciesList| ==> NoSusceptibleSwap(speciesList[k], deme, k, p.deltaT, poisson)
      modifies this`repr, this`owned, this`owner, this`newContacts, this`newRecoveries, this`cases, this`dayOffset
      modifies speciesList, repr, arena, environment`virusList, environment`maxSize
      ensures arena.Valid() && Valid(arena.nodes) && ParentsKept(old(arena.nodes), arena.nodes)
      ensures fresh(repr - old(repr))
      ensures cases >= old(cases)
      ensures dayOffset == if old(dayOffset) + p.deltaT >= 1.0 then 0.0 else old(dayOffset) + p.deltaT
      ensures forall i :: 0 <= i < |sampled| ==> sampled[i] < |arena.nodes| && SamplesInfected(sampled[i])
    {
      ghost var nodes0 := arena.nodes;
      Demography(p, poisson, urImmunity, arena.nodes);
      Events(p, poisson, arena, m, q, mp);
      ghost var nodes1 := arena.nodes;
      sampled := Daily(p, poisson, arena, m, q);
      ParentsKeptTransitive(nodes0, nodes1, arena.nodes);
    }

    /** What stepForward needs of the deme's state under settings `p`:
     *  under swap demography no species with susceptible hosts draws a
     *  conversion (the source loops forever then), and the environment
     *  decays at a non-zero rate. */
    ghost predicate Ready(p: StepParams, poisson: Sampler, m: MathLib)
      reads speciesList, environment
    {
      && (p.swapDemography ==> forall k :: 0 <= k < |speciesList| ==> NoSusceptibleSwap(speciesList[k], deme, k, p.deltaT, poisson))
      && environment.envDurability != 0.0 && environment.DailyRates(m, p.date, p.demeOffset, 1.0).clearRate != 0.0
    }

    /** The epidemic events and mutation of stepForward. */
    method Events(p: StepParams, poisson: Sampler, arena: Arena, m: MathLib,
                  q: GeometricPhenotype.ImmunityParams, mp: GeometricPhenotype.MutationParams)
      requires arena.Valid() && Valid(arena.nodes)
      requires GeometricPhenotype.ValidImmunity(q) && GeometricPhenotype.ValidMutation(mp)
      requires ZeroMean(poisson)
      modifies this`newContacts, this`newRecoveries, this`cases, speciesList, repr, arena
      ensures arena.Valid() && Valid(arena.nodes) && ParentsKept(old(arena.nodes), arena.nodes)
      ensures cases >= old(cases)
    {
      ghost var nodes0 := arena.nodes;
      Epidemic(p, poisson, arena, m, q);
      ghost var nodes1 := arena.nodes;
      var _, _ := MutationPhase(p, poisson, arena, m, mp);
      ParentsKeptTransitive(nodes0, nodes1, arena.nodes);
    }

    /** The daily environment step and tip sampling of stepForward. */
    method Daily(p: StepParams, poisson: Sampler, arena: Arena, m: MathLib, q: GeometricPhenotype.ImmunityParams)
        returns (sampled: seq<nat>)
      requires arena.Valid() && Valid(arena.nodes) && GeometricPhenotype.ValidImmunity(q)
      requires environment.envDurability != 0.0 && environment.DailyRates(m, p.date, p.demeOffset, 1.0).clearRate != 0.0
      modifies this`dayOffset, this`cases, speciesList, repr, arena, environment`virusList, environment`maxSize
      ensures arena.Valid() && Valid(arena.nodes) && ParentsKept(old(arena.nodes), arena.nodes)
      ensures cases >= old(cases)
      ensures dayOffset == if old(dayOffset) + p.deltaT >= 1.0 then 0.0 else old(dayOffset) + p.deltaT
      ensures forall i :: 0 <= i < |sampled| ==> sampled[i] < |arena.nodes| && SamplesInfected(sampled[i])
    {
      EnvironmentDay(p, arena, m, q);
      ghost var settled := arena.nodes;
      assert Valid(settled);
      sampled := SamplingPhase(p, poisson, settled);
      assert arena.nodes == settled;
    }

    /** The five statistics as they now stand. */
    function CurrentStats(): Stats
      reads this`diversity, this`tmrca, this`netau, this`serialInterval, this`antigenicDiversity
    {
      Stats(diversity, tmrca, netau, serialInterval, antigenicDiversity)
    }

    /** Store the five statistics. */
    method SetStats(st: Stats)
      modifies this`diversity, this`tmrca, this`netau, this`serialInterval, this`antigenicDiversity
      ensures CurrentStats() == st
    {
      diversity, tmrca, netau, serialInterval, antigenicDiversity :=
        st.diversity, st.tmrca, st.netau, st.serialInterval, st.antigenicDiversity;
    }

    /** updateDiversity: with at most one infected host every statistic is
     *  0; otherwise `sampleCount` pairs of infections are drawn (getRandomInfection
     *  twice per round) and the statistics are those of the sums over the
     *  sampled pairs, with the coalescence window given in days. */
    method UpdateDiversity(sampleCount: nat, netauWindow: real, drawsA: seq<nat>, drawsB: seq<nat>, m: MathLib, arena: Arena)
        returns (ghost pairs: seq<(nat, nat)>)
      requires arena.Valid() && Valid(arena.nodes)
      requires |drawsA| >= sampleCount && |drawsB| >= sampleCount
      requires Total(Infected) > 1 ==> sampleCount > 0
      modifies this`diversity, this`tmrca, this`netau, this`serialInterval, this`antigenicDiversity
      ensures old(Total(Infected)) <= 1 ==> CurrentStats() == ZeroStats && pairs == []
      ensures old(Total(Infected)) > 1 ==>
        && |pairs| == sampleCount && Sampleable(arena.nodes, pairs)
        && (forall i :: 0 <= i < sampleCount ==>
              Some(pairs[i].0) == old(HostAt(Infected, drawsA[i]).infection) && Some(pairs[i].1) == old(HostAt(Infected, drawsB[i]).infection))
        && CurrentStats() == StatsOf(SumPairs(m, arena.nodes, CoalWindow(netauWindow), pairs), sampleCount, CoalWindow(netauWindow))
    {
      if Total(Infected) <= 1 {
        pairs := [];
        SetStats(ZeroStats);
        return;
      }
      var coalWindow := CoalWindow(netauWindow);
      var sampled := SamplePairs(sampleCount, drawsA, drawsB, arena);
      forall i | 0 <= i < sampleCount
        ensures Some(sampled[i].0) == old(HostAt(Infected, drawsA[i]).infection)
        ensures Some(sampled[i].1) == old(HostAt(Infected, drawsB[i]).infection)
      {
        assert HostAt(Infected, drawsA[i]).infection == old(HostAt(Infected, drawsA[i]).infection);
        assert HostAt(Infected, drawsB[i]).infection == old(HostAt(Infected, drawsB[i]).infection);
      }
      var sums := SumAll(m, arena.nodes, coalWindow, sampled);
      pairs := sampled;
      SetStats(StatsOf(sums, sampleCount, coalWindow));
    }

    /** The drawing half of updateDiversity's sampling loop: each round draws
     *  two infections with getRandomInfection. */
    method SamplePairs(sampleCount: nat, drawsA: seq<nat>, drawsB: seq<nat>, arena: Arena)
        returns (pairs: seq<(nat, nat)>)
      requires arena.Valid() && Valid(arena.nodes) && Total(Infected) > 0
      requires |drawsA| >= sampleCount && |drawsB| >= sampleCount
      ensures |pairs| == sampleCount && Sampleable(arena.nodes, pairs)
      ensures forall i :: 0 <= i < sampleCount ==>
        Some(pairs[i].0) == HostAt(Infected, drawsA[i]).infection && Some(pairs[i].1) == HostAt(Infected, drawsB[i]).infection
    {
      pairs := [];
      var nodes := arena.nodes;
      for i := 0 to sampleCount
        invariant |pairs| == i && Sampleable(nodes, pairs)
        invariant forall j :: 0 <= j < i ==>
          Some(pairs[j].0) == HostAt(Infected, drawsA[j]).infection && Some(pairs[j].1) == HostAt(Infected, drawsB[j]).infection
      {
        HostAtCarries(drawsA[i], nodes);
        HostAtCarries(drawsB[i], nodes);
        pairs := pairs + [(HostAt(Infected, drawsA[i]).infection.value, HostAt(Infected, drawsB[i]).infection.value)];
      }
    }

    /** sample, given its Poisson draw `samples`: after burn-in and with some
     *  host infected, the infections of `samples` hosts, each drawn from all
     *  of I, are handed to the genealogy (returned here); otherwise nothing
     *  is sampled. */
    method Sample(samples: nat, day: real, burnin: real, draws: seq<nat>, ghost nodes: seq<VirusNode>) returns (sampled: seq<nat>)
      requires Valid(nodes) && |draws| >= samples
      ensures !(Total(Infected) > 0 && day >= burnin) ==> sampled == []
      ensures Total(Infected) > 0 && day >= burnin ==>
        && |sampled| == samples
        && forall i :: 0 <= i < samples ==> Some(sampled[i]) == HostAt(Infected, draws[i]).infection && sampled[i] < |nodes|
    {
      sampled := [];
      var infected := Count(Infected);
      if infected > 0 && day >= burnin {
        for i := 0 to samples
          invariant |sampled| == i
          invariant forall j :: 0 <= j < i ==> Some(sampled[j]) == HostAt(Infected, draws[j]).infection && sampled[j] < |nodes|
        {
          HostAtCarries(draws[i], nodes);
          sampled := sampled + [HostAt(Infected, draws[i]).infection.value];
        }
      }
    }

    /** infect on the host at `local` of S in species `k` by `virus`, with
     *  the uniform draw `u`: on success species `k` has one host fewer in S
     *  and one more in I, and the new virus sheds; on failure nothing
     *  changes. No other species changes. */
    method InfectIn(k: nat, local: nat, virus: nat, arena: Arena, m: MathLib,
                    q: GeometricPhenotype.ImmunityParams, u: real, date: real) returns (ok: bool)
      requires arena.Valid() && Valid(arena.nodes) && k < |speciesList| && local < |speciesList[k].susceptibles|
      requires virus < |arena.nodes| && GeometricPhenotype.ValidImmunity(q)
      modifies speciesList[k], speciesList[k].susceptibles[local], arena
      ensures arena.Valid() && Valid(arena.nodes) && ParentsKept(old(arena.nodes), arena.nodes)
      ensures TotalShedding(arena.nodes) == TotalShedding(old(arena.nodes)) + (if ok then 1 else 0)
      ensures |speciesList[k].susceptibles| == old(|speciesList[k].susceptibles|) - (if ok then 1 else 0)
      ensures |speciesList[k].infecteds| == old(|speciesList[k].infecteds|) + (if ok then 1 else 0)
      ensures |speciesList[k].recovereds| == old(|speciesList[k].recovereds|)
      ensures forall j :: 0 <= j < |speciesList| && j != k ==>
        && speciesList[j].susceptibles == old(speciesList[j].susceptibles)
        && speciesList[j].infecteds == old(speciesList[j].infecteds)
        && speciesList[j].recovereds == old(speciesList[j].recovereds)
    {
      var s := speciesList[k];
      ghost var nodes0 := arena.nodes;
      assert speciesList[k].Valid(nodes0);
      assert s.susceptibles[local] in s.hostSet;
      ghost var h := s.susceptibles[local];
      assert h in owned[k] && owner[h] == k;
      var infected := s.Infect(local, virus, deme, environment, arena, m, q, u, date);
      ok := infected != null;
      if ok {
        TotalSheddingAppend(nodes0, arena.nodes[|nodes0|]);
        assert arena.nodes == nodes0 + [arena.nodes[|nodes0|]];
        ParentsKeptAppend(nodes0, arena.nodes[|nodes0|]);
      }
      forall j | 0 <= j < |speciesList| && j != k
        ensures speciesList[j].Valid(nodes0) && speciesList[j].hostSet <= owned[j]
      {
        assert old(speciesList[j].Valid(nodes0));
        assert h !in owned[j];
      }
      OthersKeep(k, nodes0, arena.nodes);
    }

    /** InfectIn seen through the compartment totals over all species. */
    method InfectAt(k: nat, local: nat, virus: nat, arena: Arena, m: MathLib,
                    q: GeometricPhenotype.ImmunityParams, u: real, date: real) returns (ok: bool)
      requires arena.Valid() && Valid(arena.nodes) && k < |speciesList| && local < |speciesList[k].susceptibles|
      requires virus < |arena.nodes| && GeometricPhenotype.ValidImmunity(q)
      modifies speciesList[k], speciesList[k].susceptibles[local], arena
      ensures arena.Valid() && Valid(arena.nodes) && ParentsKept(old(arena.nodes), arena.nodes)
      ensures TotalShedding(arena.nodes) == TotalShedding(old(arena.nodes)) + (if ok then 1 else 0)
      ensures Total(Susceptible) == old(Total(Susceptible)) - (if ok then 1 else 0)
      ensures Total(Infected) == old(Total(Infected)) + (if ok then 1 else 0)
      ensures Total(Recovered) == old(Total(Recovered))
    {
      ghost var ls, li, lr := Lists(speciesList, Susceptible), Lists(speciesList, Infected), Lists(speciesList, Recovered);
      ghost var s0, i0, r0 := speciesList[k].susceptibles, speciesList[k].infecteds, speciesList[k].recovereds;
      assert ls[k] == s0 && li[k] == i0 && lr[k] == r0;
      ok := InfectIn(k, local, virus, arena, m, q, u, date);
      ghost var ls1, li1, lr1 := Lists(speciesList, Susceptible), Lists(speciesList, Infected), Lists(speciesList, Recovered);
      assert ls1[k] == speciesList[k].susceptibles && li1[k] == speciesList[k].infecteds && lr1[k] == speciesList[k].recovereds;
      forall j | 0 <= j < |speciesList| && j != k
        ensures ls[j] == ls1[j] && li[j] == li1[j] && lr[j] == lr1[j]
      {
        assert ls[j] == old(speciesList[j].susceptibles) && ls1[j] == speciesList[j].susceptibles;
        assert li[j] == old(speciesList[j].infecteds) && li1[j] == speciesList[j].infecteds;
        assert lr[j] == old(speciesList[j].recovereds) && lr1[j] == speciesList[j].recovereds;
      }
      ConcatStep(ls, ls1, k);
      ConcatStep(li, li1, k);
      ConcatStep(lr, lr1, k);
    }

    /** InfectAt with the compartment sizes recorded in `t`. */
    method InfectCounted(k: nat, local: nat, virus: nat, arena: Arena, m: MathLib,
                         q: GeometricPhenotype.ImmunityParams, u: real, date: real, ghost t: Counts) returns (ok: bool)
      requires arena.Valid() && Valid(arena.nodes) && Counted(t) && k < |speciesList| && local < |speciesList[k].susceptibles|
      requires virus < |arena.nodes| && GeometricPhenotype.ValidImmunity(q)
      modifies speciesList, repr, arena
      ensures arena.Valid() && Valid(arena.nodes) && ParentsKept(old(arena.nodes), arena.nodes)
      ensures ok ==> t.s >= 1 && Counted(t.Infections(1))
      ensures !ok ==> Counted(t)
      ensures TotalShedding(arena.nodes) == TotalShedding(old(arena.nodes)) + (if ok then 1 else 0)
    {
      assert speciesList[k].Valid(arena.nodes);
      assert speciesList[k].susceptibles[local] in owned[k];
      ok := InfectAt(k, local, virus, arena, m, q, u, date);
      if ok {
        CountedOf(t.Infections(1));
      } else {
        CountedOf(t);
      }
    }

    /** One contact: the susceptible host at the drawn flat index of S, located
     *  by the species scan, is exposed to `virus`. */
    method InfectDrawn(index: nat, virus: nat, arena: Arena, m: MathLib,
                       q: GeometricPhenotype.ImmunityParams, u: real, date: real, ghost t: Counts) returns (ok: bool)
      requires arena.Valid() && Valid(arena.nodes) && Counted(t) && index < t.s
      requires virus < |arena.nodes| && GeometricPhenotype.ValidImmunity(q)
      modifies speciesList, repr, arena
      ensures arena.Valid() && Valid(arena.nodes) && ParentsKept(old(arena.nodes), arena.nodes)
      ensures ok ==> t.s >= 1 && Counted(t.Infections(1))
      ensures !ok ==> Counted(t)
      ensures TotalShedding(arena.nodes) == TotalShedding(old(arena.nodes)) + (if ok then 1 else 0)
    {
      assert t.Of(Susceptible) == Total(Susceptible);
      var found, k, local := Locate(Susceptible, index);
      assert Lists(speciesList, Susceptible)[k] == speciesList[k].susceptibles;
      ok := InfectCounted(k, local, virus, arena, m, q, u, date, t);
    }

    /** One round of the contact loops, while some host is susceptible and
     *  some infected: the virus of a drawn infected host meets the
     *  susceptible host at flat index `susIdx`. */
    method ContactRound(infDraw: nat, susIdx: nat, arena: Arena, m: MathLib,
                        q: GeometricPhenotype.ImmunityParams, u: real, date: real, ghost t: Counts) returns (ok: bool)
      requires arena.Valid() && Valid(arena.nodes) && Counted(t) && susIdx < t.s && t.i > 0
      requires GeometricPhenotype.ValidImmunity(q)
      modifies speciesList, repr, arena
      ensures arena.Valid() && Valid(arena.nodes) && ParentsKept(old(arena.nodes), arena.nodes)
      ensures ok ==> t.s >= 1 && Counted(t.Infections(1))
      ensures !ok ==> Counted(t)
      ensures TotalShedding(arena.nodes) == TotalShedding(old(arena.nodes)) + (if ok then 1 else 0)
    {
      assert t.i == Total(Infected);
      var virus := RandomInfection(infDraw, arena.nodes);
      ok := InfectDrawn(susIdx, virus.value, arena, m, q, u, date, t);
    }

    /** The loop of distributeContacts and betweenDemeContact: each of
     *  `contacts` rounds, while some host is susceptible and some infected,
     *  draws an infected host and a susceptible one and tries the infection.
     *  The result counts the infections that succeeded. */
    method ContactsFrom(contacts: nat, susCount0: nat, infCount0: nat, arena: Arena, m: MathLib,
                        q: GeometricPhenotype.ImmunityParams, date: real,
                        infDraws: seq<nat>, susDraws: seq<nat>, us: seq<real>, ghost c0: Counts) returns (infections: nat)
      requires arena.Valid() && Valid(arena.nodes) && Counted(c0) && susCount0 == c0.s && infCount0 == c0.i
      requires GeometricPhenotype.ValidImmunity(q)
      requires |infDraws| >= contacts && |susDraws| >= contacts && |us| >= contacts
      modifies speciesList, repr, arena
      ensures arena.Valid() && Valid(arena.nodes) && ParentsKept(old(arena.nodes), arena.nodes)
      ensures infections <= contacts && infections <= c0.s && Counted(c0.Infections(infections))
      ensures c0.s == 0 || c0.i == 0 ==> infections == 0
      ensures TotalShedding(arena.nodes) == TotalShedding(old(arena.nodes)) + infections
    {
      var susCount, infCount := susCount0, infCount0;
      ghost var sh0, nodes0 := TotalShedding(arena.nodes), arena.nodes;
      ghost var t := c0;
      infections := 0;
      for i := 0 to contacts
        invariant infections <= i && infections <= c0.s && t == c0.Infections(infections)
        invariant susCount == t.s && infCount == t.i
        invariant arena.Valid() && Valid(arena.nodes) && Counted(t) && ParentsKept(nodes0, arena.nodes)
        invariant TotalShedding(arena.nodes) == sh0 + infections
        invariant c0.s == 0 || c0.i == 0 ==> infections == 0
      {
        if susCount > 0 && infCount > 0 {
          ghost var nodes1 := arena.nodes;
          var ok := ContactRound(infDraws[i], susDraws[i] % susCount, arena, m, q, us[i], date, t);
          ParentsKeptTransitive(nodes0, nodes1, arena.nodes);
          if ok {
            infections := infections + 1;
            susCount := susCount - 1;
            infCount := infCount + 1;
            t := t.Infections(1);
          }
        }
      }
    }

    /** The loop of doEnviornmentalInfections: each of `envContact` rounds,
     *  while some host is susceptible, draws a virus from the environment
     *  (which may come back empty: the round is then spent) and exposes a
     *  drawn susceptible host to it. The result counts the infections. */
    method EnvInfectionsFrom(envContact: nat, susCount0: nat, arena: Arena, m: MathLib,
                             q: GeometricPhenotype.ImmunityParams, date: real,
                             envDraws: seq<nat>, susDraws: seq<nat>, us: seq<real>, ghost c0: Counts) returns (infections: nat)
      requires arena.Valid() && Valid(arena.nodes) && Counted(c0) && susCount0 == c0.s
      requires GeometricPhenotype.ValidImmunity(q)
      requires |envDraws| >= envContact && |susDraws| >= envContact && |us| >= envContact
      requires forall k :: 0 <= k < |envDraws| ==> envDraws[k] <= |environment.virusList|
      modifies speciesList, repr, arena
      ensures arena.Valid() && Valid(arena.nodes) && ParentsKept(old(arena.nodes), arena.nodes)
      ensures infections <= envContact && infections <= c0.s && Counted(c0.Infections(infections))
      ensures environment.virusList == [] ==> infections == 0
      ensures TotalShedding(arena.nodes) == TotalShedding(old(arena.nodes)) + infections
    {
      var susCount := susCount0;
      ghost var sh0, nodes0 := TotalShedding(arena.nodes), arena.nodes;
      ghost var t := c0;
      infections := 0;
      var i := 0;
      while i < envContact && susCount > 0
        invariant i <= envContact && infections <= i && infections <= c0.s && t == c0.Infections(infections)
        invariant susCount == t.s
        invariant arena.Valid() && Valid(arena.nodes) && Counted(t) && ParentsKept(nodes0, arena.nodes)
        invariant TotalShedding(arena.nodes) == sh0 + infections
        invariant environment.virusList == [] ==> infections == 0
      {
        var virus := environment.GetVirus(envDraws[i]);
        if virus.Some? {
          ghost var nodes1 := arena.nodes;
          var ok := InfectDrawn(susDraws[i] % susCount, virus.value, arena, m, q, us[i], date, t);
          ParentsKeptTransitive(nodes0, nodes1, arena.nodes);
          if ok {
            infections := infections + 1;
            susCount := susCount - 1;
            t := t.Infections(1);
          }
        }
        i := i + 1;
      }
    }

    /** distributeContacts: each of the newContacts contacts, while some host
     *  is susceptible and some infected, infects a drawn susceptible host
     *  with the virus of a drawn infected host when the infection draw
     *  succeeds. `cases` rises by the number of infections, S falls and I
     *  rises by the same number, R is unchanged and each new infection adds
     *  one shedding host. */
    method DistributeContacts(arena: Arena, m: MathLib, q: GeometricPhenotype.ImmunityParams, date: real,
                              infDraws: seq<nat>, susDraws: seq<nat>, us: seq<real>)
      requires arena.Valid() && Valid(arena.nodes) && GeometricPhenotype.ValidImmunity(q)
      requires |infDraws| >= newContacts && |susDraws| >= newContacts && |us| >= newContacts
      modifies this`cases, speciesList, repr, arena
      ensures arena.Valid() && Valid(arena.nodes) && ParentsKept(old(arena.nodes), arena.nodes)
      ensures var n := cases - old(cases);
        && 0 <= n <= newContacts
        && Total(Susceptible) == old(Total(Susceptible)) - n
        && Total(Infected) == old(Total(Infected)) + n
        && Total(Recovered) == old(Total(Recovered))
        && TotalShedding(arena.nodes) == TotalShedding(old(arena.nodes)) + n
        && (old(Total(Susceptible)) == 0 || old(Total(Infected)) == 0 ==> n == 0)
    {
      var n := Contacts(newContacts, arena, m, q, date, infDraws, susDraws, us);
      AddCases(n);
    }

    /** betweenDemeContact(hp), given its Poisson draw `contacts`, for the
     *  one call the simulation makes, where `hp` is this population itself:
     *  the same contact loop as distributeContacts. */
    method BetweenDemeContact(contacts: nat, arena: Arena, m: MathLib, q: GeometricPhenotype.ImmunityParams, date: real,
                              infDraws: seq<nat>, susDraws: seq<nat>, us: seq<real>)
      requires arena.Valid() && Valid(arena.nodes) && GeometricPhenotype.ValidImmunity(q)
      requires |infDraws| >= contacts && |susDraws| >= contacts && |us| >= contacts
      modifies this`cases, speciesList, repr, arena
      ensures arena.Valid() && Valid(arena.nodes) && ParentsKept(old(arena.nodes), arena.nodes)
      ensures var n := cases - old(cases);
        && 0 <= n <= contacts && n <= old(Total(Susceptible))
        && Total(Susceptible) == old(Total(Susceptible)) - n
        && Total(Infected) == old(Total(Infected)) + n
        && Total(Recovered) == old(Total(Recovered))
        && TotalShedding(arena.nodes) == TotalShedding(old(arena.nodes)) + n
        && (old(Total(Susceptible)) == 0 || old(Total(Infected)) == 0 ==> n == 0)
    {
      var n := Contacts(contacts, arena, m, q, date, infDraws, susDraws, us);
      AddCases(n);
    }

    /** betweenDemeContact(hp) as the simulation calls it, with `hp` this
     *  population itself: the Poisson number of contacts is drawn from this
     *  deme's own I and share of susceptibles, with the between-deme share
     *  of the contact rate, and the contact loop runs with free draws. The
     *  cases rise by exactly the hosts moved from S to I. */
    method SelfContact(source: nat, p: StepParams, betweenDemePro: real, poisson: Sampler, arena: Arena, m: MathLib,
                       q: GeometricPhenotype.ImmunityParams)
      requires arena.Valid() && Valid(arena.nodes) && GeometricPhenotype.ValidImmunity(q)
      modifies this`cases, speciesList, repr, arena
      ensures arena.Valid() && Valid(arena.nodes) && ParentsKept(old(arena.nodes), arena.nodes)
      ensures var n := cases - old(cases);
        && 0 <= n <= old(Total(Susceptible))
        && Total(Susceptible) == old(Total(Susceptible)) - n
        && Total(Infected) == old(Total(Infected)) + n
        && Total(Recovered) == old(Total(Recovered))
    {
      var contacts := SelfContactCount(source, p, betweenDemePro, poisson);
      FreeContact(contacts, arena, m, q, p.date);
    }

    /** betweenDemeContact's contact loop with free draws. */
    method FreeContact(contacts: nat, arena: Arena, m: MathLib, q: GeometricPhenotype.ImmunityParams, date: real)
      requires arena.Valid() && Valid(arena.nodes) && GeometricPhenotype.ValidImmunity(q)
      modifies this`cases, speciesList, repr, arena
      ensures arena.Valid() && Valid(arena.nodes) && ParentsKept(old(arena.nodes), arena.nodes)
      ensures var n := cases - old(cases);
        && 0 <= n <= contacts && n <= old(Total(Susceptible))
        && Total(Susceptible) == old(Total(Susceptible)) - n
        && Total(Infected) == old(Total(Infected)) + n
        && Total(Recovered) == old(Total(Recovered))
    {
      var infDraws := AnyDraws(contacts);
      var susDraws := AnyDraws(contacts);
      var us := AnyUniforms(contacts);
      BetweenDemeContact(contacts, arena, m, q, date, infDraws, susDraws, us);
    }

    /** The Poisson number of contacts of a self contact: from this deme's I,
     *  its share of susceptibles among its N hosts, and the between-deme
     *  share of the contact rate. */
    method SelfContactCount(source: nat, p: StepParams, betweenDemePro: real, poisson: Sampler) returns (contacts: nat)
      ensures contacts == Poisson(poisson, deme, BetweenDeme(source), ContactRate(Total(Infected), Total(Susceptible),
        Total(Susceptible) + Total(Infected) + Total(Recovered), p.beta * betweenDemePro, p.seasonality, p.deltaT))
    {
      var i := Count(Infected);
      var s := Count(Susceptible);
      var n := GetN();
      contacts := Poisson(poisson, deme, BetweenDeme(source), ContactRate(i, s, n, p.beta * betweenDemePro, p.seasonality, p.deltaT));
    }

    /** The inner loop of the simulation's stepForward for the deme at
     *  position `self` of `demeCount`: one self contact for every other
     *  position, each with its own Poisson draw. Every case is a host moved from S to I. */
    method SelfContacts(demeCount: nat, self: nat, p: StepParams, betweenDemePro: real, poisson: Sampler,
                        arena: Arena, m: MathLib, q: GeometricPhenotype.ImmunityParams)
      requires arena.Valid() && Valid(arena.nodes) && GeometricPhenotype.ValidImmunity(q)
      modifies this`cases, speciesList, repr, arena
      ensures arena.Valid() && Valid(arena.nodes) && ParentsKept(old(arena.nodes), arena.nodes)
      ensures var n := cases - old(cases);
        && 0 <= n <= old(Total(Susceptible))
        && Total(Susceptible) == old(Total(Susceptible)) - n
        && Total(Infected) == old(Total(Infected)) + n
        && Total(Recovered) == old(Total(Recovered))
    {
      ghost var nodes0 := arena.nodes;
      for j := 0 to demeCount
        invariant arena.Valid() && Valid(arena.nodes) && ParentsKept(nodes0, arena.nodes)
        invariant var n := cases - old(cases);
          && 0 <= n <= old(Total(Susceptible))
          && Total(Susceptible) == old(Total(Susceptible)) - n
          && Total(Infected) == old(Total(Infected)) + n
          && Total(Recovered) == old(Total(Recovered))
      {
        if j != self {
          ghost var before := arena.nodes;
          SelfContact(j, p, betweenDemePro, poisson, arena, m, q);
          ParentsKeptTransitive(nodes0, before, arena.nodes);
        }
      }
    }

    /** resetCases: the case count returns to 0. */
    method ResetCases()
      modifies this`cases
      ensures cases == 0
    {
      cases := 0;
    }

    /** `cases` rises by `n`. */
    method AddCases(n: nat)
      modifies this`cases
      ensures cases == old(cases) + n
    {
      cases := cases + n;
    }

    /** The contact loop from the current counts, returning the number of
     *  infections. */
    method Contacts(contacts: nat, arena: Arena, m: MathLib, q: GeometricPhenotype.ImmunityParams, date: real,
                    infDraws: seq<nat>, susDraws: seq<nat>, us: seq<real>) returns (n: nat)
      requires arena.Valid() && Valid(arena.nodes) && GeometricPhenotype.ValidImmunity(q)
      requires |infDraws| >= contacts && |susDraws| >= contacts && |us| >= contacts
      modifies speciesList, repr, arena
      ensures arena.Valid() && Valid(arena.nodes) && ParentsKept(old(arena.nodes), arena.nodes)
      ensures n <= contacts && n <= old(Total(Susceptible))
      ensures Total(Susceptible) == old(Total(Susceptible)) - n
      ensures Total(Infected) == old(Total(Infected)) + n
      ensures Total(Recovered) == old(Total(Recovered))
      ensures TotalShedding(arena.nodes) == TotalShedding(old(arena.nodes)) + n
      ensures old(Total(Susceptible)) == 0 || old(Total(Infected)) == 0 ==> n == 0
    {
      var susCount := Count(Susceptible);
      var infCount := Count(Infected);
      ghost var c0 := Counts(Total(Susceptible), Total(Infected), Total(Recovered));
      CountedOf(c0);
      n := ContactsFrom(contacts, susCount, infCount, arena, m, q, date, infDraws, susDraws, us, c0);
      ghost var c1 := c0.Infections(n);
      assert Total(Susceptible) == c1.s && Total(Infected) == c1.i && Total(Recovered) == c1.r;
    }

    /** doEnviornmentalInfections(step): (int)(S * step * envUpTakeRate)
     *  rounds, while some host is susceptible, each exposing a drawn
     *  susceptible host to a virus drawn from the environment; the draw
     *  index may equal the list size, which yields no virus, and an empty
     *  environment infects no one. */
    method DoEnvironmentalInfections(step: real, arena: Arena, m: MathLib, q: GeometricPhenotype.ImmunityParams, date: real,
                                     envDraws: seq<nat>, susDraws: seq<nat>, us: seq<real>)
      requires arena.Valid() && Valid(arena.nodes) && GeometricPhenotype.ValidImmunity(q)
      requires var rounds := Rounds(Total(Susceptible), step * environment.envUpTakeRate);
        |envDraws| >= rounds && |susDraws| >= rounds && |us| >= rounds
      requires forall k :: 0 <= k < |envDraws| ==> envDraws[k] <= |environment.virusList|
      modifies this`cases, speciesList, repr, arena
      ensures arena.Valid() && Valid(arena.nodes) && ParentsKept(old(arena.nodes), arena.nodes)
      ensures var n := cases - old(cases);
        && 0 <= n <= Rounds(old(Total(Susceptible)), step * old(environment.envUpTakeRate))
        && Total(Susceptible) == old(Total(Susceptible)) - n
        && Total(Infected) == old(Total(Infected)) + n
        && Total(Recovered) == old(Total(Recovered))
        && TotalShedding(arena.nodes) == TotalShedding(old(arena.nodes)) + n
        && (old(environment.virusList) == [] ==> n == 0)
    {
      var envContact := Rounds(Total(Susceptible), step * environment.envUpTakeRate);
      var n := EnvInfections(envContact, arena, m, q, date, envDraws, susDraws, us);
      AddCases(n);
    }

    /** The environmental infection loop from the current counts, returning
     *  the number of infections. */
    method EnvInfections(envContact: nat, arena: Arena, m: MathLib, q: GeometricPhenotype.ImmunityParams, date: real,
                         envDraws: seq<nat>, susDraws: seq<nat>, us: seq<real>) returns (n: nat)
      requires arena.Valid() && Valid(arena.nodes) && GeometricPhenotype.ValidImmunity(q)
      requires |envDraws| >= envContact && |susDraws| >= envContact && |us| >= envContact
      requires forall k :: 0 <= k < |envDraws| ==> envDraws[k] <= |environment.virusList|
      modifies speciesList, repr, arena
      ensures arena.Valid() && Valid(arena.nodes) && ParentsKept(old(arena.nodes), arena.nodes)
      ensures n <= envContact && n <= old(Total(Susceptible))
      ensures Total(Susceptible) == old(Total(Susceptible)) - n
      ensures Total(Infected) == old(Total(Infected)) + n
      ensures Total(Recovered) == old(Total(Recovered))
      ensures TotalShedding(arena.nodes) == TotalShedding(old(arena.nodes)) + n
      ensures environment.virusList == [] ==> n == 0
    {
      var susCount := Count(Susceptible);
      ghost var c0 := Counts(Total(Susceptible), Total(Infected), Total(Recovered));
      CountedOf(c0);
      n := EnvInfectionsFrom(envContact, susCount, arena, m, q, date, envDraws, susDraws, us, c0);
      ghost var c1 := c0.Infections(n);
      assert Total(Susceptible) == c1.s && Total(Infected) == c1.i && Total(Recovered) == c1.r;
    }
  }

  /** The number of rounds of a loop `for (i = 0; i < (int) (count * rate); i++)`. */
  function Rounds(count: nat, rate: real): (n: nat)
  {
    var x := count as real * rate;
    if x >= 1.0 then x.Floor else 0
  }

  /** The loop count is the product rounded down, and no round runs for a
   *  rate that is not positive. */
  lemma RoundsBounds(count: nat, rate: real)
    ensures rate >= 0.0 ==> Rounds(count, rate) as real <= count as real * rate < Rounds(count, rate) as real + 1.0
    ensures rate <= 0.0 ==> Rounds(count, rate) == 0
  {
    var x := count as real * rate;
    if rate >= 0.0 {
      assert x >= 0.0;
    } else {
      assert x <= 0.0;
    }
  }

  /** getPrS: the susceptible share of the deme; an empty deme has no
   *  share (the source divides 0 by 0 there). */
  function PrS(s: nat, n: nat): (p: real)
    ensures s <= n ==> 0.0 <= p <= 1.0
    ensures n > 0 ==> p * n as real == s as real
  {
    if n == 0 then 0.0 else s as real / n as real
  }

  /** recordContacts: each of `i` infected hosts contacts susceptible
   *  hosts at the per-day rate beta times the susceptible share, scaled by
   *  the seasonality and the time step. */
  function ContactRate(i: nat, s: nat, n: nat, beta: real, seasonality: real, deltaT: real): real
  {
    i as real * PrS(s, n) * beta * seasonality * deltaT
  }

  /** No contact is expected without an infected or a susceptible host, and
   *  none is negative with non-negative parameters. */
  lemma ContactRateBounds(i: nat, s: nat, n: nat, beta: real, seasonality: real, deltaT: real)
    requires s <= n
    ensures i == 0 || s == 0 ==> ContactRate(i, s, n, beta, seasonality, deltaT) == 0.0
    ensures beta >= 0.0 && seasonality >= 0.0 && deltaT >= 0.0 ==> ContactRate(i, s, n, beta, seasonality, deltaT) >= 0.0
  {
    var p := PrS(s, n);
    if s == 0 {
      assert p == 0.0;
    }
    if beta >= 0.0 && seasonality >= 0.0 && deltaT >= 0.0 {
      MulNonNegative(i as real, p);
      MulNonNegative(i as real * p, beta);
      MulNonNegative(i as real * p * beta, seasonality);
      MulNonNegative(i as real * p * beta * seasonality, deltaT);
    }
  }

  /** The expected number of events over `count` hosts each at a per-day
   *  `rate` over a time step: recordRecoveries (rate nu), loseImmunity
   *  (immunityLoss) and mutate (muPhenotype). */
  function EventRate(count: nat, rate: real, deltaT: real): real
  {
    count as real * rate * deltaT
  }

  /** No event is expected over no host, and none is negative with
   *  non-negative parameters. */
  lemma EventRateBounds(count: nat, rate: real, deltaT: real)
    ensures count == 0 ==> EventRate(count, rate, deltaT) == 0.0
    ensures rate >= 0.0 && deltaT >= 0.0 ==> EventRate(count, rate, deltaT) >= 0.0
  {
    if rate >= 0.0 && deltaT >= 0.0 {
      MulNonNegative(count as real, rate);
      MulNonNegative(count as real * rate, deltaT);
    }
  }

  lemma MulNonNegative(x: real, y: real)
    requires x >= 0.0 && y >= 0.0
    ensures x * y >= 0.0
  {
  }

  /** reset's initial counts of a deme: R is the immune share of the
   *  deme's size (truncated) under transcendental immunity and 0
   *  otherwise, I is the configured count in the seeding deme only, and S is
   *  the rest. */
  function InitialCountsOf(initialN: int, initialPrT: real, transcendental: bool,
                           deme: int, initialDeme: int, initialI: int): (c: InitialCounts)
    ensures c.s + c.i + c.r == initialN
    ensures deme != initialDeme - 1 ==> c.i == 0
    ensures !transcendental ==> c.r == 0
    ensures transcendental && initialN >= 0 && 0.0 <= initialPrT <= 1.0 ==> 0 <= c.r <= initialN
  {
    var r := if transcendental then TruncateToInt(initialN as real * initialPrT) else 0;
    var i := if deme == initialDeme - 1 then initialI else 0;
    assert transcendental && initialN >= 0 && 0.0 <= initialPrT <= 1.0 ==> 0 <= r <= initialN by {
      if transcendental && initialN >= 0 && 0.0 <= initialPrT <= 1.0 {
        ShareBounds(initialN, initialPrT);
      }
    }
    InitialCounts(initialN - r - i, i, r)
  }

  /** A truncated share of a non-negative count lies between 0 and the count. */
  lemma ShareBounds(n: int, p: real)
    requires n >= 0 && 0.0 <= p <= 1.0
    ensures 0 <= TruncateToInt(n as real * p) <= n
  {
    MulNonNegative(n as real, 1.0 - p);
    MulNonNegative(n as real, p);
    var x := n as real * p;
    assert x <= n as real;
    assert TruncateToInt(x) as real <= x;
  }
}
