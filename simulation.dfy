/** The top level of the simulator (SimulationSpecies.java): a fixed list of
 *  demes, the world-wide counts summed over them, a world-wide random
 *  infection drawn in proportion to each deme's prevalence, the genealogical
 *  statistics of the sampled infections, the per-step time series, one time
 *  step over every deme, and reset. */
module SimulationModel {
  import opened Wrappers
  import opened Numerics
  import opened Lineage
  import GeometricPhenotype
  import opened HostModel
  import opened SpeciesModel
  import opened PopulationModel
  import opened Diversity
  import opened ParametersModel

  // Cumulative counts over demes.

  /** The count of demes 0..e together. */
  function Running(counts: seq<nat>, e: nat): nat
    requires e < |counts|
  {
    SumNats(counts[..e + 1])
  }

  /** Deme `d` is the first whose cumulative count exceeds the drawn index
   *  `n`: the deme the source's search loop stops at. */
  predicate FirstAbove(counts: seq<nat>, n: nat, d: nat)
  {
    d < |counts| && n < Running(counts, d) && forall e :: 0 <= e < d ==> Running(counts, e) <= n
  }

  /** Cumulative counts never fall. */
  lemma {:induction false} RunningMonotone(counts: seq<nat>, e: nat, f: nat)
    requires e <= f < |counts|
    ensures Running(counts, e) <= Running(counts, f)
    decreases f - e
  {
    if e < f {
      RunningMonotone(counts, e, f - 1);
      assert counts[..f + 1][..f] == counts[..f];
    }
  }

  /** Each cumulative count adds the deme's own count to the one before. */
  lemma RunningStep(counts: seq<nat>, e: nat)
    requires 0 < e < |counts|
    ensures Running(counts, e) == Running(counts, e - 1) + counts[e]
  {
    assert counts[..e + 1][..e] == counts[..e];
  }

  /** A prefix has the same cumulative counts. */
  lemma RunningPrefix(counts: seq<nat>, k: nat, e: nat)
    requires e < k <= |counts|
    ensures Running(counts[..k], e) == Running(counts, e)
  {
    assert counts[..k][..e + 1] == counts[..e + 1];
  }

  /** At most one deme is the first above a drawn index. */
  lemma FirstAboveUnique(counts: seq<nat>, n: nat, a: nat, b: nat)
    requires FirstAbove(counts, n, a) && FirstAbove(counts, n, b)
    ensures a == b
  {
  }

  /** The deme picked for index `n` holds at least one of the counted hosts,
   *  and the indices picking it are exactly those between its cumulative
   *  count and the one before: `counts[d]` of the `SumNats(counts)` indices,
   *  so the pick is proportional to the count. */
  lemma FirstAboveInterval(counts: seq<nat>, n: nat, d: nat)
    requires d < |counts|
    ensures FirstAbove(counts, n, d) <==> Running(counts, d) - counts[d] <= n < Running(counts, d)
    ensures FirstAbove(counts, n, d) ==> counts[d] > 0
  {
    if d > 0 {
      RunningStep(counts, d);
      if Running(counts, d) - counts[d] <= n {
        forall e | 0 <= e < d
          ensures Running(counts, e) <= n
        {
          RunningMonotone(counts, e, d - 1);
        }
      }
    } else {
      assert counts[..1] == [counts[0]];
      assert SumNats(counts[..1][..0]) == 0;
    }
  }

  /** The whole is the cumulative count of the last deme. */
  lemma RunningLast(counts: seq<nat>)
    requires |counts| > 0
    ensures Running(counts, |counts| - 1) == SumNats(counts)
  {
    assert counts[..|counts|] == counts;
  }

  /** The deme picked for a drawn index below the total. */
  function Pick(counts: seq<nat>, n: nat): (d: nat)
    requires n < SumNats(counts)
    ensures FirstAbove(counts, n, d)
  {
    var k := |counts| - 1;
    var init := counts[..k];
    if n < SumNats(init) then
      var d := Pick(init, n);
      RunningPrefix(counts, k, d);
      forall e | 0 <= e < d
        ensures Running(counts, e) <= n
      {
        RunningPrefix(counts, k, e);
      }
      d
    else
      RunningLast(counts);
      forall e | 0 <= e < k
        ensures Running(counts, e) <= n
      {
        RunningMonotone(init, e, k - 1);
        RunningPrefix(counts, k, e);
        RunningLast(init);
      }
      k
  }

  /** The search loop of getRandomInfection: walk the cumulative counts to
   *  the first one above the drawn index `n`. */
  method ScanDemes(counts: seq<nat>, n: nat) returns (d: nat)
    requires n < SumNats(counts)
    ensures d == Pick(counts, n)
  {
    d := 0;
    var target := counts[0];
    assert counts[..1] == [counts[0]];
    assert SumNats([counts[0]][..0]) == 0;
    while d < |counts|
      invariant d < |counts| && target == Running(counts, d)
      invariant forall e :: 0 <= e < d ==> Running(counts, e) <= n
    {
      if n < target {
        break;
      }
      if d == |counts| - 1 {
        RunningLast(counts);
        assert false;
      }
      d := d + 1;
      RunningStep(counts, d);
      target := target + counts[d];
    }
    FirstAboveUnique(counts, n, d, Pick(counts, n));
  }

  /** mean: 0 for an empty list, the sum over the size otherwise. */
  method Mean(list: seq<real>) returns (mean: real)
    ensures mean == if |list| == 0 then 0.0 else SumReals(list) / |list| as real
  {
    mean := 0.0;
    if |list| != 0 {
      for i := 0 to |list|
        invariant mean == SumReals(list[..i])
      {
        assert list[..i + 1][..i] == list[..i];
        mean := mean + list[i];
      }
      assert list[..|list|] == list;
      mean := mean / |list| as real;
    }
  }

  /** The mean of values within bounds is within them. */
  lemma MeanBounds(list: seq<real>, lo: real, hi: real)
    requires |list| > 0 && forall i :: 0 <= i < |list| ==> lo <= list[i] <= hi
    ensures lo <= SumReals(list) / |list| as real <= hi
  {
    SumBounds(list, lo, hi);
    DivBounds(SumReals(list), |list| as real, lo, hi);
  }

  /** A value between `lo * n` and `hi * n` divided by `n > 0` lies between
   *  `lo` and `hi`. */
  lemma DivBounds(x: real, n: real, lo: real, hi: real)
    requires n > 0.0 && lo * n <= x <= hi * n
    ensures lo <= x / n <= hi
  {
    var q := x / n;
    assert q * n == x;
    assert (q - lo) * n >= 0.0;
    assert (hi - q) * n >= 0.0;
  }

  /** A sum of values within bounds is within the bounds times the size. */
  lemma {:induction false} SumBounds(list: seq<real>, lo: real, hi: real)
    requires forall i :: 0 <= i < |list| ==> lo <= list[i] <= hi
    ensures lo * |list| as real <= SumReals(list) <= hi * |list| as real
  {
    if |list| > 0 {
      SumBounds(list[..|list| - 1], lo, hi);
    }
  }

  // The demes and their objects.

  /** The species of every deme. */
  function SpeciesOf(demes: seq<Population>): set<Species>
  {
    set i, s | 0 <= i < |demes| && s in demes[i].speciesList :: s
  }

  /** The species of each deme are among the species of all. */
  lemma SpeciesOfHas(demes: seq<Population>, i: nat)
    requires i < |demes|
    ensures forall s :: s in demes[i].speciesList ==> s in SpeciesOf(demes)
  {
  }

  /** The size of compartment `c` in every deme, in deme order. */
  function DemeCounts(demes: seq<Population>, c: Compartment): (r: seq<nat>)
    reads SpeciesOf(demes)
    ensures |r| == |demes| && forall i :: 0 <= i < |demes| ==> r[i] == demes[i].Total(c)
  {
    if |demes| == 0 then []
    else
      var k := |demes| - 1;
      SpeciesOfPrefix(demes, k);
      SpeciesOfHas(demes, k);
      DemeCounts(demes[..k], c) + [demes[k].Total(c)]
  }

  /** The species of a prefix of the demes are among the species of all. */
  lemma SpeciesOfPrefix(demes: seq<Population>, k: nat)
    requires k <= |demes|
    ensures SpeciesOf(demes[..k]) <= SpeciesOf(demes)
  {
    forall s | s in SpeciesOf(demes[..k])
      ensures s in SpeciesOf(demes)
    {
      var i :| 0 <= i < k && s in demes[..k][i].speciesList;
      assert demes[..k][i] == demes[i];
    }
  }

  /** The cases of every deme summed in deme order. */
  function SumCases(demes: seq<Population>): int
    reads set d | d in demes
  {
    if |demes| == 0 then 0 else SumCases(demes[..|demes| - 1]) + demes[|demes| - 1].cases
  }

  /** The objects of a deme: the population, its environment, its species
   *  and their hosts. */
  ghost function Footprint(d: Population): set<object>
    reads d
  {
    {d as object, d.environment as object} + (set s | s in d.speciesList :: s as object) + (set h | h in d.repr :: h as object)
  }

  /** Every object of part `i` is in the footprint and has home `i`, so no
   *  object is in two parts. */
  ghost predicate Homed(parts: seq<set<object>>, home: map<object, nat>, repr: set<object>)
  {
    forall i, o :: 0 <= i < |parts| && o in parts[i] ==> o in repr && o in home && home[o] == i
  }

  /** The footprints of the demes, in deme order. */
  ghost function Footprints(demes: seq<Population>): (r: seq<set<object>>)
    reads demes
    ensures |r| == |demes| && forall i :: 0 <= i < |demes| ==> r[i] == Footprint(demes[i])
  {
    if |demes| == 0 then [] else Footprints(demes[..|demes| - 1]) + [Footprint(demes[|demes| - 1])]
  }

  /** No object lies in two of the parts. */
  ghost predicate Apart(parts: seq<set<object>>)
  {
    forall i, j :: 0 <= i < j < |parts| ==> parts[i] !! parts[j]
  }

  /** All objects of the parts. */
  ghost function UnionOf(parts: seq<set<object>>): (r: set<object>)
    ensures forall i :: 0 <= i < |parts| ==> parts[i] <= r
  {
    if |parts| == 0 then {} else UnionOf(parts[..|parts| - 1]) + parts[|parts| - 1]
  }

  /** The part each object lies in, for parts that share no object. */
  ghost function HomeOf(parts: seq<set<object>>): (home: map<object, nat>)
    requires Apart(parts)
    ensures Homed(parts, home, UnionOf(parts))
  {
    if |parts| == 0 then map[]
    else
      var n := |parts| - 1;
      var init := parts[..n];
      assert forall i :: 0 <= i < n ==> init[i] == parts[i];
      var home := HomeOf(init) + map o | o in parts[n] :: n;
      assert forall i, o :: 0 <= i < n && o in parts[i] ==> o !in parts[n];
      home
  }

  /** The settings of deme `i` for a step on day `day`: the date after
   *  burn-in and that deme's seasonality and offset. */
  function DemeStep(p: StepParams, day: real, m: MathLib, seasons: Seasons, i: nat): (q: StepParams)
    requires i < seasons.Size()
    ensures q.day == day && q.date == GetDate(day, p.burnin) && q.demeOffset == seasons.offsets[i]
    ensures q.deltaT == p.deltaT && q.beta == p.beta && q.burnin == p.burnin
  {
    var date := GetDate(day, p.burnin);
    p.(day := day, date := date, demeOffset := seasons.offsets[i],
       seasonality := Seasonality(m, seasons.baselines[i], seasons.amplitudes[i], seasons.offsets[i], date))
  }

  /** No cases anywhere: the cases summed over demes are 0. */
  lemma {:induction false} SumCasesZero(demes: seq<Population>)
    requires forall j :: 0 <= j < |demes| ==> demes[j].cases == 0
    ensures SumCases(demes) == 0
  {
    if |demes| > 0 {
      SumCasesZero(demes[..|demes| - 1]);
    }
  }

  /** A deme's position in the daily cycle after a step of `deltaT`: it
   *  wraps to 0 once a whole day has passed. */
  function NextOffset(offset: real, deltaT: real): (r: real)
    ensures r == 0.0 || r == offset + deltaT
    ensures offset + deltaT < 1.0 ==> r == offset + deltaT
  {
    if offset + deltaT >= 1.0 then 0.0 else offset + deltaT
  }

  /** One round of stepForward's outer loop on deme `hp` at position
   *  `self` of `demeCount`: the deme steps forward, then makes one contact
   *  with itself for every other position. Only the objects of `fp` and
   *  the arena change. */
  method DemeRound(hp: Population, ghost fp: set<object>, demeCount: nat, self: nat, step: StepParams,
                   betweenDemePro: real, poisson: Sampler, arena: Arena, m: MathLib,
                   q: GeometricPhenotype.ImmunityParams, mp: GeometricPhenotype.MutationParams, urImmunity: Phenotype)
      returns (sampled: seq<nat>)
    requires hp in fp && hp.environment in fp
    requires (forall s :: s in hp.speciesList ==> s in fp) && (forall h :: h in hp.repr ==> h in fp)
    requires arena.Valid() && hp.Valid(arena.nodes)
    requires GeometricPhenotype.ValidImmunity(q) && GeometricPhenotype.ValidMutation(mp)
    requires ZeroMean(poisson) && hp.Ready(step, poisson, m)
    modifies fp, arena
    ensures arena.Valid() && hp.Valid(arena.nodes) && ParentsKept(old(arena.nodes), arena.nodes)
    ensures fresh(hp.repr - old(hp.repr))
    ensures hp.cases >= old(hp.cases)
    ensures hp.dayOffset == NextOffset(old(hp.dayOffset), step.deltaT)
    ensures forall k :: 0 <= k < |sampled| ==> sampled[k] < |arena.nodes|
  {
    ghost var nodes0 := arena.nodes;
    sampled := hp.StepForward(step, poisson, arena, m, q, mp, urImmunity);
    ghost var nodes1, cases1, offset1, repr1 := arena.nodes, hp.cases, hp.dayOffset, hp.repr;
    assert hp.Valid(nodes1) && fresh(repr1 - old(hp.repr));
    hp.SelfContacts(demeCount, self, step, betweenDemePro, poisson, arena, m, q);
    assert hp.cases >= cases1 && hp.dayOffset == offset1 && hp.repr == repr1;
    ParentsKeptTransitive(nodes0, nodes1, arena.nodes);
  }

  /** The per-deme seasonal settings: baseline, amplitude and offset. */
  datatype Seasons = Seasons(baselines: seq<real>, amplitudes: seq<real>, offsets: seq<real>)
  {
    function Size(): nat
    {
      Min(|baselines|, Min(|amplitudes|, |offsets|))
    }
  }

  /** The settings of reset: the initial size, immune share and infecteds
   *  of the seeding deme, the immunity mode, the burn-in, the ur-virus and
   *  the ur-immunity. */
  datatype ResetParams = ResetParams(initialNs: seq<int>, initialPrT: real, transcendental: bool, initialDeme: int,
                                     initialI: int, burnin: real, urVirus: nat, urImmunity: Phenotype)

  /** The initial counts reset gives the deme numbered `deme`, whose size is
   *  its entry of `initialNs`. */
  function DemeInit(rp: ResetParams, deme: int): (c: InitialCounts)
    requires 0 <= deme < |rp.initialNs|
    ensures c.s + c.i + c.r == rp.initialNs[deme]
    ensures deme != rp.initialDeme - 1 ==> c.i == 0
  {
    InitialCountsOf(rp.initialNs[deme], rp.initialPrT, rp.transcendental, deme, rp.initialDeme, rp.initialI)
  }

  /** Every species of deme `d` holds its shares of the initial counts. */
  ghost predicate Seeded(d: Population, init: InitialCounts)
    reads d.speciesList
  {
    forall k :: 0 <= k < |d.speciesList| ==>
      var s := d.speciesList[k];
      |s.susceptibles| == s.Share(init.s) && |s.infecteds| == s.Share(init.i) && |s.recovereds| == s.Share(init.r)
  }

  /** reset on deme `hp`: its species are cleared and refilled from the
   *  initial counts. Only the objects of `fp` and the arena change. */
  method DemeReset(hp: Population, ghost fp: set<object>, init: InitialCounts, arena: Arena, urVirus: nat,
                   urImmunity: Phenotype, immune: seq<ImmuneDraws>, date: real)
    requires hp in fp && forall s :: s in hp.speciesList ==> s in fp
    requires arena.Valid() && hp.Valid(arena.nodes) && urVirus < |arena.nodes|
    requires |immune| == |hp.speciesList| && forall k :: 0 <= k < |hp.speciesList| ==> immune[k].Fit(hp.speciesList[k], init)
    modifies fp, arena
    ensures arena.Valid() && hp.Valid(arena.nodes) && ParentsKept(old(arena.nodes), arena.nodes)
    ensures fresh(hp.repr - old(hp.repr))
    ensures Seeded(hp, init)
  {
    hp.Reset(init, arena, urVirus, urImmunity, immune, date);
  }

  class Simulation {
    const demes: seq<Population>
    /** Parameters.day: the simulated day. */
    var day: real
    var diversity: real
    var tmrca: real
    var netau: Option<real>
    var serialInterval: real
    var antigenicDiversity: real

    var diversityList: seq<real>
    var tmrcaList: seq<real>
    var netauList: seq<Option<real>>
    var serialIntervalList: seq<real>
    var antigenicDiversityList: seq<real>
    var nList: seq<real>
    var sList: seq<real>
    var iList: seq<real>
    var rList: seq<real>
    var casesList: seq<real>

    /** Every object of every deme. */
    ghost var repr: set<object>
    /** The objects of each deme, in deme order. */
    ghost var parts: seq<set<object>>
    /** The deme of each object. */
    ghost var home: map<object, nat>

    /** The demes own disjoint parts holding their footprints, and every
     *  deme is valid for the arena `nodes`. */
    ghost predicate Valid(nodes: seq<VirusNode>)
      reads this, repr
    {
      && Homed(parts, home, repr) && |parts| == |demes|
      && (forall i :: 0 <= i < |demes| ==> demes[i] in parts[i])
      && (forall i :: 0 <= i < |demes| ==> demes[i].environment in parts[i])
      && (forall i, s :: 0 <= i < |demes| && s in demes[i].speciesList ==> s in parts[i])
      && (forall i, h :: 0 <= i < |demes| && h in demes[i].repr ==> h in parts[i])
      && (forall i {:trigger demes[i].Valid(nodes)} :: 0 <= i < |demes| ==> demes[i].Valid(nodes))
    }

    /** SimulationSpecies(): the world of the given demes, each valid and
     *  sharing no object with another, with every list empty. */
    constructor (demes: seq<Population>, ghost nodes: seq<VirusNode>)
      requires forall i :: 0 <= i < |demes| ==> demes[i].Valid(nodes)
      requires Apart(Footprints(demes))
      ensures this.demes == demes && Valid(nodes)
      ensures day == 0.0 && diversity == 0.0 && tmrca == 0.0 && netau == Some(0.0)
      ensures serialInterval == 0.0 && antigenicDiversity == 0.0
      ensures diversityList == [] && tmrcaList == [] && netauList == [] && serialIntervalList == []
      ensures antigenicDiversityList == [] && nList == [] && sList == [] && iList == [] && rList == [] && casesList == []
    {
      this.demes := demes;
      day := 0.0;
      diversity, tmrca, netau, serialInterval, antigenicDiversity := 0.0, 0.0, Some(0.0), 0.0, 0.0;
      diversityList, tmrcaList, netauList, serialIntervalList, antigenicDiversityList := [], [], [], [], [];
      nList, sList, iList, rList, casesList := [], [], [], [], [];
      ghost var footprints := Footprints(demes);
      parts, repr, home := footprints, UnionOf(footprints), HomeOf(footprints);
    }

    /** The world-wide size of compartment `c`. */
    function Sum(c: Compartment): nat
      reads SpeciesOf(demes)
    {
      SumNats(DemeCounts(demes, c))
    }

    /** getS, getI and getR: the demes' counts summed in deme order. */
    method Count(c: Compartment) returns (n: nat)
      ensures n == Sum(c)
    {
      ghost var counts := DemeCounts(demes, c);
      n := 0;
      for i := 0 to |demes|
        invariant n == SumNats(counts[..i])
      {
        assert counts[..i + 1][..i] == counts[..i];
        n := n + demes[i].Total(c);
      }
      assert counts[..|demes|] == counts;
    }

    /** getN: the demes' sizes summed in deme order. */
    method GetN() returns (n: nat)
      ensures n == Sum(Susceptible) + Sum(Infected) + Sum(Recovered)
    {
      ghost var ss, ins, rs := DemeCounts(demes, Susceptible), DemeCounts(demes, Infected), DemeCounts(demes, Recovered);
      n := 0;
      for i := 0 to |demes|
        invariant n == SumNats(ss[..i]) + SumNats(ins[..i]) + SumNats(rs[..i])
      {
        assert ss[..i + 1][..i] == ss[..i] && ins[..i + 1][..i] == ins[..i] && rs[..i + 1][..i] == rs[..i];
        n := n + (demes[i].Total(Susceptible) + demes[i].Total(Infected) + demes[i].Total(Recovered));
      }
      assert ss[..|demes|] == ss && ins[..|demes|] == ins && rs[..|demes|] == rs;
    }

    /** getCases: the demes' cases summed in deme order. */
    method GetCases() returns (n: int)
      ensures n == SumCases(demes)
    {
      n := 0;
      for i := 0 to |demes|
        invariant n == SumCases(demes[..i])
      {
        assert demes[..i + 1][..i] == demes[..i];
        n := n + demes[i].cases;
      }
      assert demes[..|demes|] == demes;
    }

    /** The host getRandomInfection draws from deme index draw `dDraw` and
     *  host index draw `hDraw`: the first deme whose cumulative I exceeds
     *  `dDraw` modulo the world-wide I is picked, then its infected host at
     *  `hDraw`. */
    function DrawnHost(dDraw: nat, hDraw: nat): Host
      reads SpeciesOf(demes)
      requires Sum(Infected) > 0
    {
      var counts := DemeCounts(demes, Infected);
      var d := Pick(counts, dDraw % Sum(Infected));
      FirstAboveInterval(counts, dDraw % Sum(Infected), d);
      SpeciesOfHas(demes, d);
      demes[d].HostAt(Infected, hDraw)
    }

    /** The drawn host carries a virus of the arena with a parent. */
    lemma DrawnHostCarries(dDraw: nat, hDraw: nat, nodes: seq<VirusNode>)
      requires Valid(nodes) && Sum(Infected) > 0
      ensures var v := DrawnHost(dDraw, hDraw).infection; v.Some? && v.value < |nodes| && nodes[v.value].parent.Some?
      ensures DrawnHost(dDraw, hDraw) in repr
    {
      var counts := DemeCounts(demes, Infected);
      var d := Pick(counts, dDraw % Sum(Infected));
      FirstAboveInterval(counts, dDraw % Sum(Infected), d);
      assert demes[d].Valid(nodes);
      demes[d].HostAtCarries(hDraw, nodes);
    }

    /** Every deme of a valid simulation is valid. */
    lemma DemeValid(d: nat, nodes: seq<VirusNode>)
      requires Valid(nodes) && d < |demes|
      ensures demes[d].Valid(nodes)
    {
    }

    /** The deme and host getRandomInfection draws, when some host is
     *  infected. */
    lemma PickedHost(dDraw: nat, hDraw: nat, nodes: seq<VirusNode>) returns (pick: nat, host: Host)
      requires Valid(nodes) && Sum(Infected) > 0
      ensures pick == Pick(DemeCounts(demes, Infected), dDraw % Sum(Infected)) && pick < |demes|
      ensures demes[pick].Valid(nodes) && demes[pick].Total(Infected) > 0
      ensures host == demes[pick].HostAt(Infected, hDraw) == DrawnHost(dDraw, hDraw) && allocated(host)
      ensures forall s :: s in demes[pick].speciesList ==> allocated(s)
    {
      var counts := DemeCounts(demes, Infected);
      pick := Pick(counts, dDraw % Sum(Infected));
      FirstAboveInterval(counts, dDraw % Sum(Infected), pick);
      DemeValid(pick, nodes);
      host := demes[pick].HostAt(Infected, hDraw);
    }

    /** getRandomInfection: none when no host is infected anywhere; otherwise
     *  the search loop walks the cumulative I of the demes to the first one
     *  above the drawn index, and the virus of a random infected host of
     *  that deme is returned. */
    method RandomInfection(dDraw: nat, hDraw: nat, ghost nodes: seq<VirusNode>) returns (v: Option<nat>)
      requires Valid(nodes)
      ensures v.None? <==> old(Sum(Infected)) == 0
      ensures v.Some? ==> v == old(DrawnHost(dDraw, hDraw).infection) && v.value < |nodes| && nodes[v.value].parent.Some?
    {
      v := None;
      var counts := DemeCounts(demes, Infected);
      var infected := SumNats(counts);
      if infected > 0 {
        ghost var pick, host := PickedHost(dDraw, hDraw, nodes);
        ghost var drawn := host.infection;
        var d := ScanDemes(counts, dDraw % infected);
        assert demes[d].HostAt(Infected, hDraw) == host;
        assert host.infection == drawn;
        v := demes[d].RandomInfection(hDraw, nodes);
      }
    }

    /** The five statistics as they now stand. */
    function CurrentStats(): Stats
      reads this`diversity, this`tmrca, this`netau, this`serialInterval, this`antigenicDiversity
    {
      Stats(diversity, tmrca, netau, serialInterval, antigenicDiversity)
    }

    /** updateDiversity over all demes: each of `sampleCount` rounds draws two
     *  random infections; a round counts only when both exist, which is when
     *  some host is infected, so either every round counts or none does.
     *  The statistics are those of the sums over the counted pairs (with no
     *  pair, every mean is 0 and no effective size exists: the source divides
     *  0 by 0). */
    method UpdateDiversity(sampleCount: nat, netauWindow: real, dA: seq<nat>, hA: seq<nat>, dB: seq<nat>, hB: seq<nat>,
                           m: MathLib, arena: Arena)
        returns (ghost pairs: seq<(nat, nat)>)
      requires arena.Valid() && Valid(arena.nodes) && sampleCount > 0
      requires |dA| >= sampleCount && |hA| >= sampleCount && |dB| >= sampleCount && |hB| >= sampleCount
      modifies this`diversity, this`tmrca, this`netau, this`serialInterval, this`antigenicDiversity
      ensures pairs == old(if Sum(Infected) == 0 then [] else DrawnPairs(sampleCount, dA, hA, dB, hB, arena.nodes))
      ensures Sampleable(arena.nodes, pairs)
      ensures CurrentStats() == StatsOf(SumPairs(m, arena.nodes, CoalWindow(netauWindow), pairs), sampleCount, CoalWindow(netauWindow))
    {
      var coalWindow := CoalWindow(netauWindow);
      var nodes := arena.nodes;
      if Sum(Infected) > 0 {
        DrawnPairsSampleable(sampleCount, dA, hA, dB, hB, nodes);
      }
      var sampled := SamplePairs(sampleCount, dA, hA, dB, hB, arena);
      var sums := SumAll(m, nodes, coalWindow, sampled);
      pairs := sampled;
      SetStats(StatsOf(sums, sampleCount, coalWindow));
      assert arena.nodes == nodes;
    }

    /** Store the five statistics. */
    method SetStats(st: Stats)
      modifies this`diversity, this`tmrca, this`netau, this`serialInterval, this`antigenicDiversity
      ensures CurrentStats() == st
    {
      diversity, tmrca, netau, serialInterval, antigenicDiversity :=
        st.diversity, st.tmrca, st.netau, st.serialInterval, st.antigenicDiversity;
    }

    /** The pairs of infections drawn by the first `k` rounds. */
    ghost function DrawnPairs(k: nat, dA: seq<nat>, hA: seq<nat>, dB: seq<nat>, hB: seq<nat>, nodes: seq<VirusNode>)
        : (r: seq<(nat, nat)>)
      reads this, repr, SpeciesOf(demes)
      requires Valid(nodes) && Sum(Infected) > 0
      requires |dA| >= k && |hA| >= k && |dB| >= k && |hB| >= k
      ensures |r| == k
    {
      if k == 0 then []
      else
        DrawnHostCarries(dA[k - 1], hA[k - 1], nodes);
        DrawnHostCarries(dB[k - 1], hB[k - 1], nodes);
        DrawnPairs(k - 1, dA, hA, dB, hB, nodes)
          + [(DrawnHost(dA[k - 1], hA[k - 1]).infection.value, DrawnHost(dB[k - 1], hB[k - 1]).infection.value)]
    }

    /** Round `j` of the drawn pairs holds the infections of the two hosts
     *  drawn in that round, viruses of the arena with parents. */
    lemma {:induction false} DrawnPairsAt(k: nat, dA: seq<nat>, hA: seq<nat>, dB: seq<nat>, hB: seq<nat>,
                                          nodes: seq<VirusNode>, j: nat)
      requires Valid(nodes) && Sum(Infected) > 0
      requires |dA| >= k && |hA| >= k && |dB| >= k && |hB| >= k && j < k
      ensures var r := DrawnPairs(k, dA, hA, dB, hB, nodes);
        && Some(r[j].0) == DrawnHost(dA[j], hA[j]).infection && Some(r[j].1) == DrawnHost(dB[j], hB[j]).infection
        && r[j].0 < |nodes| && r[j].1 < |nodes| && nodes[r[j].0].parent.Some?
    {
      DrawnHostCarries(dA[k - 1], hA[k - 1], nodes);
      DrawnHostCarries(dB[k - 1], hB[k - 1], nodes);
      var a, b := DrawnHost(dA[k - 1], hA[k - 1]).infection.value, DrawnHost(dB[k - 1], hB[k - 1]).infection.value;
      var init := DrawnPairs(k - 1, dA, hA, dB, hB, nodes);
      assert DrawnPairs(k, dA, hA, dB, hB, nodes) == init + [(a, b)];
      if j < k - 1 {
        DrawnPairsAt(k - 1, dA, hA, dB, hB, nodes, j);
        assert (init + [(a, b)])[j] == init[j];
      }
    }

    /** Every drawn pair can be sampled. */
    lemma DrawnPairsSampleable(k: nat, dA: seq<nat>, hA: seq<nat>, dB: seq<nat>, hB: seq<nat>, nodes: seq<VirusNode>)
      requires Valid(nodes) && Sum(Infected) > 0
      requires |dA| >= k && |hA| >= k && |dB| >= k && |hB| >= k
      ensures Sampleable(nodes, DrawnPairs(k, dA, hA, dB, hB, nodes))
    {
      forall j | 0 <= j < k {
        DrawnPairsAt(k, dA, hA, dB, hB, nodes, j);
      }
    }

    /** The drawing half of the sampling loop: the pairs of infections that
     *  exist, one per round, in order. */
    method SamplePairs(sampleCount: nat, dA: seq<nat>, hA: seq<nat>, dB: seq<nat>, hB: seq<nat>, arena: Arena)
        returns (pairs: seq<(nat, nat)>)
      requires arena.Valid() && Valid(arena.nodes)
      requires |dA| >= sampleCount && |hA| >= sampleCount && |dB| >= sampleCount && |hB| >= sampleCount
      ensures pairs == old(if Sum(Infected) == 0 then [] else DrawnPairs(sampleCount, dA, hA, dB, hB, arena.nodes))
    {
      pairs := [];
      if Sum(Infected) == 0 {
        return;
      }
      var nodes := arena.nodes;
      forall j | 0 <= j < sampleCount
        ensures DrawnHost(dA[j], hA[j]).infection.Some? && DrawnHost(dB[j], hB[j]).infection.Some?
      {
        DrawnHostCarries(dA[j], hA[j], nodes);
        DrawnHostCarries(dB[j], hB[j], nodes);
      }
      for i := 0 to sampleCount
        invariant pairs == DrawnPairs(i, dA, hA, dB, hB, nodes)
      {
        var a := DrawnHost(dA[i], hA[i]).infection.value;
        var b := DrawnHost(dB[i], hB[i]).infection.value;
        pairs := pairs + [(a, b)];
      }
    }

    /** The world-wide N, S, I, R and cases, each by its own summing loop. */
    method WorldCounts() returns (n: nat, s: nat, i: nat, r: nat, cases: int)
      ensures n == old(Sum(Susceptible) + Sum(Infected) + Sum(Recovered))
      ensures s == old(Sum(Susceptible)) && i == old(Sum(Infected)) && r == old(Sum(Recovered)) && cases == old(SumCases(demes))
    {
      assert forall s :: s in SpeciesOf(demes) ==> allocated(s);
      n := GetN();
      s := Count(Susceptible);
      i := Count(Infected);
      r := Count(Recovered);
      cases := GetCases();
    }

    /** pushLists: one value more on each of the ten time series: the five
     *  statistics and the world-wide N, S, I, R and cases. */
    method PushLists()
      modifies this`diversityList, this`tmrcaList, this`netauList, this`serialIntervalList, this`antigenicDiversityList
      modifies this`nList, this`sList, this`iList, this`rList, this`casesList
      ensures diversityList == old(diversityList) + [diversity] && tmrcaList == old(tmrcaList) + [tmrca]
      ensures netauList == old(netauList) + [netau] && serialIntervalList == old(serialIntervalList) + [serialInterval]
      ensures antigenicDiversityList == old(antigenicDiversityList) + [antigenicDiversity]
      ensures nList == old(nList) + [old(Sum(Susceptible) + Sum(Infected) + Sum(Recovered)) as real]
      ensures sList == old(sList) + [old(Sum(Susceptible)) as real] && iList == old(iList) + [old(Sum(Infected)) as real]
      ensures rList == old(rList) + [old(Sum(Recovered)) as real] && casesList == old(casesList) + [old(SumCases(demes)) as real]
    {
      var n, s, i, r, cases := WorldCounts();
      ghost var pushed := [n as real, s as real, i as real, r as real, cases as real];
      assert pushed == old([(Sum(Susceptible) + Sum(Infected) + Sum(Recovered)) as real, Sum(Susceptible) as real,
        Sum(Infected) as real, Sum(Recovered) as real, SumCases(demes) as real]);
      PushStats();
      PushCounts(n as real, s as real, i as real, r as real, cases as real);
    }

    /** The five statistics appended to their series. */
    method PushStats()
      modifies this`diversityList, this`tmrcaList, this`netauList, this`serialIntervalList, this`antigenicDiversityList
      ensures diversityList == old(diversityList) + [diversity] && tmrcaList == old(tmrcaList) + [tmrca]
      ensures netauList == old(netauList) + [netau] && serialIntervalList == old(serialIntervalList) + [serialInterval]
      ensures antigenicDiversityList == old(antigenicDiversityList) + [antigenicDiversity]
    {
      diversityList := diversityList + [diversity];
      tmrcaList := tmrcaList + [tmrca];
      netauList := netauList + [netau];
      serialIntervalList := serialIntervalList + [serialInterval];
      antigenicDiversityList := antigenicDiversityList + [antigenicDiversity];
    }

    /** The five world-wide counts appended to their series. */
    method PushCounts(n: real, s: real, i: real, r: real, cases: real)
      modifies this`nList, this`sList, this`iList, this`rList, this`casesList
      ensures nList == old(nList) + [n] && sList == old(sList) + [s] && iList == old(iList) + [i]
      ensures rList == old(rList) + [r] && casesList == old(casesList) + [cases]
    {
      nList := nList + [n];
      sList := sList + [s];
      iList := iList + [i];
      rList := rList + [r];
      casesList := casesList + [cases];
    }

    /** Hosts new to the simulation join deme `i`'s part, which makes the
     *  simulation valid again when deme `i` is the only one that gained
     *  hosts. */
    ghost method Adopt(i: nat, nodes: seq<VirusNode>)
      requires i < |demes| && |parts| == |demes| && Homed(parts, home, repr)
      requires forall k :: 0 <= k < |demes| ==> demes[k] in parts[k] && demes[k].environment in parts[k]
      requires forall k, s :: 0 <= k < |demes| && s in demes[k].speciesList ==> s in parts[k]
      requires forall k, h :: 0 <= k < |demes| && k != i && h in demes[k].repr ==> h in parts[k]
      requires forall h :: h in demes[i].repr ==> h in parts[i] || h !in repr
      requires forall k {:trigger demes[k].Valid(nodes)} :: 0 <= k < |demes| ==> demes[k].Valid(nodes)
      modifies this`repr, this`parts, this`home
      ensures Valid(nodes) && repr == old(repr) + (set h | h in demes[i].repr :: h as object)
    {
      ghost var added := set h | h in demes[i].repr :: h as object;
      ghost var parts0, home0 := parts, home;
      repr := repr + added;
      parts := parts[i := parts[i] + added];
      home := home + map o | o in added :: i;
      forall k, o | 0 <= k < |parts| && o in parts[k]
        ensures o in repr && o in home && home[o] == k
      {
        if k != i {
          assert o in parts0[k] && home0[o] == k;
          assert o !in added;
        }
      }
    }

    /** The parts of two different demes share no object. */
    lemma PartsApart(i: nat, nodes: seq<VirusNode>)
      requires Valid(nodes) && i < |demes|
      ensures forall j, o :: 0 <= j < |demes| && j != i && o in parts[j] ==> o !in parts[i]
    {
      forall j, o | 0 <= j < |demes| && j != i && o in parts[j]
        ensures o !in parts[i]
      {
        assert home[o] == j;
      }
    }

    /** One round of stepForward's outer loop: deme `i` steps forward, then
     *  makes one contact with itself for every other deme. No other deme
     *  changes. */
    method StepDeme(i: nat, p: StepParams, seasons: Seasons, betweenDemePro: real, poisson: Sampler,
                    arena: Arena, m: MathLib, q: GeometricPhenotype.ImmunityParams,
                    mp: GeometricPhenotype.MutationParams, urImmunity: Phenotype) returns (sampled: seq<nat>)
      requires i < |demes| <= seasons.Size()
      requires arena.Valid() && Valid(arena.nodes) && arena !in repr && this !in repr
      requires GeometricPhenotype.ValidImmunity(q) && GeometricPhenotype.ValidMutation(mp)
      requires ZeroMean(poisson)
      requires demes[i].Ready(DemeStep(p, day, m, seasons, i), poisson, m)
      modifies this`repr, this`parts, this`home, parts[i], arena
      ensures arena.Valid() && Valid(arena.nodes) && arena !in repr && this !in repr
      ensures ParentsKept(old(arena.nodes), arena.nodes) && fresh(repr - old(repr))
      ensures demes[i].cases >= old(demes[i].cases)
      ensures demes[i].dayOffset == NextOffset(old(demes[i].dayOffset), p.deltaT)
      ensures forall j :: 0 <= j < |demes| && j != i ==>
        demes[j].cases == old(demes[j].cases) && demes[j].dayOffset == old(demes[j].dayOffset)
      ensures forall j :: 0 <= j < |demes| && j != i && old(demes[j].Ready(DemeStep(p, day, m, seasons, j), poisson, m)) ==>
        demes[j].Ready(DemeStep(p, day, m, seasons, j), poisson, m)
      ensures forall k :: 0 <= k < |sampled| ==> sampled[k] < |arena.nodes|
    {
      ghost var nodes0 := arena.nodes;
      DemeValid(i, nodes0);
      PartsApart(i, nodes0);
      sampled := DemeRound(demes[i], parts[i], |demes|, i, DemeStep(p, day, m, seasons, i), betweenDemePro, poisson,
                           arena, m, q, mp, urImmunity);
      forall j | 0 <= j < |demes| && j != i
        ensures demes[j].Valid(arena.nodes)
      {
        assert old(demes[j].Valid(nodes0));
        demes[j].ValidKeeps(nodes0, arena.nodes);
      }
      Adopt(i, arena.nodes);
    }

    /** stepForward: every deme in turn steps forward and then makes one
     *  self contact per other deme, and then the day advances by `deltaT`.
     *  Every deme is stepped exactly once (its daily offset moves on once),
     *  no deme's cases drop, every virus keeps its parent, and each sampled
     *  tip is a virus of the arena. */
    method StepForward(p: StepParams, seasons: Seasons, betweenDemePro: real, poisson: Sampler, arena: Arena,
                       m: MathLib, q: GeometricPhenotype.ImmunityParams, mp: GeometricPhenotype.MutationParams,
                       urImmunity: Phenotype) returns (sampled: seq<nat>)
      requires |demes| <= seasons.Size()
      requires arena.Valid() && Valid(arena.nodes) && arena !in repr && this !in repr
      requires GeometricPhenotype.ValidImmunity(q) && GeometricPhenotype.ValidMutation(mp)
      requires ZeroMean(poisson)
      requires forall j :: 0 <= j < |demes| ==> demes[j].Ready(DemeStep(p, day, m, seasons, j), poisson, m)
      modifies this`day, this`repr, this`parts, this`home, repr, arena
      ensures arena.Valid() && Valid(arena.nodes) && arena !in repr && this !in repr
      ensures ParentsKept(old(arena.nodes), arena.nodes) && fresh(repr - old(repr))
      ensures day == old(day) + p.deltaT
      ensures forall j :: 0 <= j < |demes| ==>
        demes[j].cases >= old(demes[j].cases) && demes[j].dayOffset == NextOffset(old(demes[j].dayOffset), p.deltaT)
      ensures forall k :: 0 <= k < |sampled| ==> sampled[k] < |arena.nodes|
    {
      ghost var nodes0 := arena.nodes;
      sampled := [];
      for i := 0 to |demes|
        invariant arena.Valid() && Valid(arena.nodes) && arena !in repr && this !in repr
        invariant ParentsKept(nodes0, arena.nodes) && fresh(repr - old(repr))
        invariant day == old(day)
        invariant forall j :: 0 <= j < i ==>
          demes[j].cases >= old(demes[j].cases) && demes[j].dayOffset == NextOffset(old(demes[j].dayOffset), p.deltaT)
        invariant forall j :: i <= j < |demes| ==>
          demes[j].cases == old(demes[j].cases) && demes[j].dayOffset == old(demes[j].dayOffset)
        invariant forall j :: i <= j < |demes| ==> demes[j].Ready(DemeStep(p, day, m, seasons, j), poisson, m)
        invariant forall k :: 0 <= k < |sampled| ==> sampled[k] < |arena.nodes|
      {
        ghost var before := arena.nodes;
        var tips := StepDeme(i, p, seasons, betweenDemePro, poisson, arena, m, q, mp, urImmunity);
        ParentsKeptTransitive(nodes0, before, arena.nodes);
        sampled := sampled + tips;
      }
      day := day + p.deltaT;
    }

    /** reset on deme `i`, with its initial counts and the date of day 0.
     *  No other deme changes. */
    method ResetDeme(i: nat, rp: ResetParams, arena: Arena, immune: seq<ImmuneDraws>)
      requires i < |demes| && arena.Valid() && Valid(arena.nodes) && arena !in repr && this !in repr
      requires rp.urVirus < |arena.nodes|
      requires forall j :: 0 <= j < |demes| ==> 0 <= demes[j].deme < |rp.initialNs|
      requires |immune| == |demes[i].speciesList|
      requires forall k :: 0 <= k < |demes[i].speciesList| ==>
        immune[k].Fit(demes[i].speciesList[k], DemeInit(rp, demes[i].deme))
      modifies this`repr, this`parts, this`home, parts[i], arena
      ensures arena.Valid() && Valid(arena.nodes) && arena !in repr && this !in repr
      ensures ParentsKept(old(arena.nodes), arena.nodes) && fresh(repr - old(repr))
      ensures Seeded(demes[i], DemeInit(rp, demes[i].deme))
      ensures forall j :: 0 <= j < |demes| && j != i && old(Seeded(demes[j], DemeInit(rp, demes[j].deme))) ==>
        Seeded(demes[j], DemeInit(rp, demes[j].deme))
    {
      ghost var nodes0 := arena.nodes;
      DemeValid(i, nodes0);
      PartsApart(i, nodes0);
      DemeReset(demes[i], parts[i], DemeInit(rp, demes[i].deme), arena, rp.urVirus, rp.urImmunity, immune,
                GetDate(0.0, rp.burnin));
      forall j | 0 <= j < |demes| && j != i
        ensures demes[j].Valid(arena.nodes)
      {
        assert old(demes[j].Valid(nodes0));
        demes[j].ValidKeeps(nodes0, arena.nodes);
      }
      Adopt(i, arena.nodes);
    }

    /** reset: the day and the diversity return to 0, and every deme is
     *  reset in turn, so afterwards every species of every deme holds its
     *  shares of that deme's initial counts. */
    method Reset(rp: ResetParams, arena: Arena, immune: seq<seq<ImmuneDraws>>)
      requires arena.Valid() && Valid(arena.nodes) && arena !in repr && this !in repr
      requires rp.urVirus < |arena.nodes|
      requires forall j :: 0 <= j < |demes| ==> 0 <= demes[j].deme < |rp.initialNs|
      requires |immune| == |demes|
      requires forall j :: 0 <= j < |demes| ==> |immune[j]| == |demes[j].speciesList|
      requires forall j, k :: 0 <= j < |demes| && 0 <= k < |demes[j].speciesList| ==>
        immune[j][k].Fit(demes[j].speciesList[k], DemeInit(rp, demes[j].deme))
      modifies this`day, this`diversity, this`repr, this`parts, this`home, repr, arena
      ensures day == 0.0 && diversity == 0.0
      ensures arena.Valid() && Valid(arena.nodes) && arena !in repr && this !in repr
      ensures ParentsKept(old(arena.nodes), arena.nodes) && fresh(repr - old(repr))
      ensures forall j :: 0 <= j < |demes| ==> Seeded(demes[j], DemeInit(rp, demes[j].deme))
    {
      day := 0.0;
      diversity := 0.0;
      ghost var nodes0 := arena.nodes;
      for i := 0 to |demes|
        invariant arena.Valid() && Valid(arena.nodes) && arena !in repr && this !in repr
        invariant ParentsKept(nodes0, arena.nodes) && fresh(repr - old(repr))
        invariant day == 0.0 && diversity == 0.0
        invariant forall j :: 0 <= j < i ==> Seeded(demes[j], DemeInit(rp, demes[j].deme))
      {
        ghost var before := arena.nodes;
        ResetDeme(i, rp, arena, immune[i]);
        ParentsKeptTransitive(nodes0, before, arena.nodes);
      }
    }

    /** resetCases: every deme's case count returns to 0, so the world-wide
     *  count that pushLists records is 0. */
    method ResetCases()
      requires forall j, k :: 0 <= j < k < |demes| ==> demes[j] != demes[k]
      modifies set d | d in demes
      ensures forall j :: 0 <= j < |demes| ==> demes[j].cases == 0
      ensures SumCases(demes) == 0
    {
      for i := 0 to |demes|
        invariant forall j :: 0 <= j < i ==> demes[j].cases == 0
      {
        demes[i].ResetCases();
      }
      SumCasesZero(demes);
    }
  }
}
