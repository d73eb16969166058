/** One bird species of a deme: its life-history parameters and its hosts,
 *  kept in three unordered compartments (susceptible, infected, recovered)
 *  between which hosts move by swap-with-last removal and append. */
module SpeciesModel {
  import opened Wrappers
  import opened Numerics
  import opened Lineage
  import GeometricPhenotype
  import EnvironmentModel
  import opened HostModel

  datatype Compartment = Susceptible | Infected | Recovered

  /** The uniform index draws of a loop that removes `count` hosts one at a
   *  time from a list of `size`: the k-th draw lies in [0, size - k - 1], the
   *  range of the list at that moment. */
  predicate DrawsFit(draws: seq<nat>, size: nat, count: nat)
  {
    count <= size && count <= |draws| && forall k :: 0 <= k < count ==> draws[k] < size - k
  }

  lemma DrawsFitTail(draws: seq<nat>, size: nat, count: nat)
    requires DrawsFit(draws, size, count) && count > 0
    ensures DrawsFit(draws[1..], size - 1, count - 1)
  {
    forall k | 0 <= k < count - 1
      ensures draws[1..][k] < size - 1 - k
    {
      assert draws[k + 1] < size - (k + 1);
    }
  }

  /** What decline leaves of a list: `deaths` removals at the drawn indices,
   *  stopping early when the list runs empty. */
  function Declined<T>(list: seq<T>, deaths: nat, draws: seq<nat>): (r: seq<T>)
    requires DrawsFit(draws, |list|, Min(deaths, |list|))
    ensures |r| == |list| - Min(deaths, |list|)
    ensures multiset(r) <= multiset(list)
    decreases deaths
  {
    if deaths > 0 && |list| > 0 then
      DrawsFitTail(draws, |list|, Min(deaths, |list|));
      SwapRemoveMultiset(list, draws[0]);
      Declined(SwapRemove(list, draws[0]), deaths - 1, draws[1..])
    else list
  }

  /** The hosts of a compartment in the order a draining loop removes them. */
  function Drained<T>(list: seq<T>, draws: seq<nat>): (order: seq<T>)
    requires DrawsFit(draws, |list|, |list|)
    ensures multiset(order) == multiset(list)
    ensures |order| == |list|
    decreases |list|
  {
    if |list| == 0 then []
    else
      DrawsFitTail(draws, |list|, |list|);
      SwapRemoveMultiset(list, draws[0]);
      [list[draws[0]]] + Drained(SwapRemove(list, draws[0]), draws[1..])
  }

  /** A host of the infected compartment: it carries a virus of the arena,
   *  and that virus has a parent (it descends from the ur-virus). */
  ghost predicate Carries(h: Host, nodes: seq<VirusNode>)
    reads h
  {
    h.infection.Some? && h.infection.value < |nodes| && nodes[h.infection.value].parent.Some?
  }

  lemma CarriesKept(h: Host, before: seq<VirusNode>, after: seq<VirusNode>)
    requires Carries(h, before) && ParentsKept(before, after)
    ensures Carries(h, after)
  {
    assert ParentAt(after, h.infection.value) == ParentAt(before, h.infection.value);
  }

  /** Only trunk marks change, and a mark once set stays set. */
  ghost predicate OnlyTrunkGrows(before: seq<VirusNode>, after: seq<VirusNode>)
  {
    |after| == |before| &&
    forall i :: 0 <= i < |before| ==>
      after[i] == before[i].(trunk := after[i].trunk) && (before[i].trunk ==> after[i].trunk)
  }

  /** Setting trunk marks keeps every parent link. */
  lemma TrunkGrowsKeepsParents(before: seq<VirusNode>, after: seq<VirusNode>)
    requires OnlyTrunkGrows(before, after)
    ensures ParentsKept(before, after)
  {
    forall i: nat | i < |before|
      ensures ParentAt(after, i) == ParentAt(before, i)
    {
      assert after[i].parent == before[i].parent;
    }
  }

  /** Every trunk mark set between `before` and `after` is on one of the
   *  viruses `roots` or on one of their ancestors. */
  ghost predicate MarkedFrom(before: seq<VirusNode>, after: seq<VirusNode>, roots: set<nat>)
    requires WellFormed(before)
  {
    |after| == |before| &&
    forall i :: 0 <= i < |before| && after[i].trunk && !before[i].trunk ==> AboveOneOf(before, i, roots)
  }

  /** `i` is one of the viruses `roots` or an ancestor of one. */
  ghost predicate AboveOneOf(nodes: seq<VirusNode>, i: nat, roots: set<nat>)
    requires WellFormed(nodes)
  {
    exists v :: v in roots && v < |nodes| && IsAncestorOrSelf(nodes, i, v)
  }

  /** Setting trunk marks keeps every ancestry. */
  lemma {:induction false} TrunkGrowsKeepsAncestry(before: seq<VirusNode>, after: seq<VirusNode>, x: nat, y: nat)
    requires WellFormed(before) && WellFormed(after) && OnlyTrunkGrows(before, after) && y < |before|
    ensures IsAncestorOrSelf(after, x, y) == IsAncestorOrSelf(before, x, y)
    decreases y
  {
    assert after[y].parent == before[y].parent;
    if x != y && before[y].parent.Some? {
      TrunkGrowsKeepsAncestry(before, after, x, before[y].parent.value);
    }
  }

  /** Marks set from `step` after marks set from `roots` are marks set from
   *  `roots` when `step` is among them. */
  lemma MarkedFromStep(n0: seq<VirusNode>, n1: seq<VirusNode>, n2: seq<VirusNode>, roots: set<nat>, step: set<nat>)
    requires WellFormed(n0) && WellFormed(n1) && OnlyTrunkGrows(n0, n1) && OnlyTrunkGrows(n1, n2)
    requires MarkedFrom(n0, n1, roots) && MarkedFrom(n1, n2, step) && step <= roots
    ensures MarkedFrom(n0, n2, roots)
  {
    forall i | 0 <= i < |n0| && n2[i].trunk && !n0[i].trunk
      ensures AboveOneOf(n0, i, roots)
    {
      if !n1[i].trunk {
        assert AboveOneOf(n1, i, step);
        var v :| v in step && v < |n1| && IsAncestorOrSelf(n1, i, v);
        TrunkGrowsKeepsAncestry(n0, n1, i, v);
      }
    }
  }

  /** One more host of `hs` with a trunk virus, after marks that only grow. */
  lemma InfectedTrunkStep(hs: seq<Host>, before: seq<VirusNode>, after: seq<VirusNode>, i: nat)
    requires i < |hs| && OnlyTrunkGrows(before, after)
    requires forall k :: 0 <= k < i ==> Carries(hs[k], before) && before[hs[k].infection.value].trunk
    requires Carries(hs[i], before) && after[hs[i].infection.value].trunk
    ensures forall k :: 0 <= k <= i ==> Carries(hs[k], after) && after[hs[k].infection.value].trunk
  {
    TrunkGrowsKeepsParents(before, after);
    forall k | 0 <= k <= i
      ensures Carries(hs[k], after) && after[hs[k].infection.value].trunk
    {
      CarriesKept(hs[k], before, after);
      if k < i {
        var y := hs[k].infection.value;
        assert before[y].trunk ==> after[y].trunk;
      }
    }
  }

  /** Every virus of `s` is a trunk virus of the arena. */
  predicate AllTrunk(nodes: seq<VirusNode>, s: set<nat>)
  {
    forall v :: v in s ==> v < |nodes| && nodes[v].trunk
  }

  /** The viruses carried by the hosts `hs`. */
  ghost function VirusesOf(hs: seq<Host>): set<nat>
    reads set h | h in hs
  {
    set h | h in hs && h.infection.Some? :: h.infection.value
  }

  /** The trunk is closed under parents: a trunk virus's parent is trunk. */
  ghost predicate TrunkClosed(nodes: seq<VirusNode>)
  {
    forall i :: 0 <= i < |nodes| && nodes[i].trunk && nodes[i].parent.Some? ==>
      nodes[i].parent.value < |nodes| && nodes[nodes[i].parent.value].trunk
  }

  /** The trunk is closed under parents except possibly at `c`. */
  ghost predicate TrunkClosedExcept(nodes: seq<VirusNode>, c: nat)
  {
    forall i :: 0 <= i < |nodes| && i != c && nodes[i].trunk && nodes[i].parent.Some? ==>
      nodes[i].parent.value < |nodes| && nodes[nodes[i].parent.value].trunk
  }

  /** In a closed trunk, every ancestor of a trunk virus is trunk. */
  lemma {:induction false} TrunkClosedAncestors(nodes: seq<VirusNode>, x: nat, v: nat)
    requires WellFormed(nodes) && TrunkClosed(nodes) && v < |nodes| && nodes[v].trunk
    requires IsAncestorOrSelf(nodes, x, v)
    ensures x < |nodes| && nodes[x].trunk
    decreases v
  {
    if x != v {
      TrunkClosedAncestors(nodes, x, nodes[v].parent.value);
    }
  }

  /** Marking the parent of `c`, itself `v` or an ancestor of `v`, marks an
   *  ancestor of `v`. */
  lemma MarkParent(n0: seq<VirusNode>, n1: seq<VirusNode>, c: nat, v: nat)
    requires WellFormed(n0) && v < |n0| && c < |n0| && OnlyTrunkGrows(n0, n1)
    requires n0[c].parent.Some? && IsAncestorOrSelf(n0, c, v) && MarkedFrom(n0, n1, {v})
    ensures var p := n1[c].parent.value;
      && p < |n0| && IsAncestorOrSelf(n0, p, v)
      && OnlyTrunkGrows(n0, n1[p := n1[p].(trunk := true)])
      && MarkedFrom(n0, n1[p := n1[p].(trunk := true)], {v})
  {
    var p := n0[c].parent.value;
    assert n1[c].parent == n0[c].parent;
    assert IsAncestorOrSelf(n0, p, c);
    AncestorTransitive(n0, p, c, v);
    var n2 := n1[p := n1[p].(trunk := true)];
    forall i | 0 <= i < |n0| && n2[i].trunk && !n0[i].trunk
      ensures AboveOneOf(n0, i, {v})
    {
      if i == p {
        assert v in {v};
      }
    }
  }

  /** The inner walk of makeTrunk: mark `v`, then climb and mark parents until
   *  one is already trunk or a root is reached. From a closed trunk this gives
   *  a closed trunk holding `v`, hence holding every ancestor of `v`; the
   *  only marks set are on `v` and its ancestors. */
  method MarkTrunkLineage(arena: Arena, v: nat)
    requires arena.Valid() && v < |arena.nodes|
    modifies arena
    ensures arena.Valid() && OnlyTrunkGrows(old(arena.nodes), arena.nodes)
    ensures arena.nodes[v].trunk
    ensures TrunkClosed(old(arena.nodes)) ==> TrunkClosed(arena.nodes)
    ensures MarkedFrom(old(arena.nodes), arena.nodes, {v})
  {
    ghost var nodes0 := arena.nodes;
    ghost var closed0 := TrunkClosed(arena.nodes);
    arena.MakeTrunk(v);
    var c: nat := v;
    while arena.nodes[c].parent.Some?
      invariant arena.Valid() && c < |arena.nodes| && arena.nodes[c].trunk
      invariant OnlyTrunkGrows(nodes0, arena.nodes) && arena.nodes[v].trunk
      invariant closed0 ==> TrunkClosedExcept(arena.nodes, c)
      invariant IsAncestorOrSelf(nodes0, c, v) && MarkedFrom(nodes0, arena.nodes, {v})
      decreases c
    {
      var p := arena.nodes[c].parent.value;
      if arena.nodes[p].trunk {
        assert closed0 ==> TrunkClosed(arena.nodes);
        return;
      }
      MarkParent(nodes0, arena.nodes, c, v);
      arena.MakeTrunk(p);
      c := p;
    }
  }

  /** One round of a draining loop: removing the drawn element keeps the
   *  drawn order and the remaining elements drawn from the original list. */
  lemma DrainedStep<T>(list: seq<T>, draws: seq<nat>, moved: seq<T>, rest: seq<T>, restDraws: seq<nat>)
    requires DrawsFit(draws, |list|, |list|) && DrawsFit(restDraws, |rest|, |rest|) && |rest| > 0
    requires moved + Drained(rest, restDraws) == Drained(list, draws)
    requires forall k :: 0 <= k < |rest| ==> rest[k] in list
    ensures rest[restDraws[0]] in list
    ensures DrawsFit(restDraws[1..], |rest| - 1, |rest| - 1)
    ensures (moved + [rest[restDraws[0]]]) + Drained(SwapRemove(rest, restDraws[0]), restDraws[1..]) == Drained(list, draws)
    ensures forall k :: 0 <= k < |rest| - 1 ==> SwapRemove(rest, restDraws[0])[k] in list
  {
    DrawsFitTail(restDraws, |rest|, |rest|);
    assert Drained(rest, restDraws) == [rest[restDraws[0]]] + Drained(SwapRemove(rest, restDraws[0]), restDraws[1..]);
  }

  /** Every element of the list is drained. */
  lemma DrainedHoldsAll<T>(list: seq<T>, draws: seq<nat>)
    requires DrawsFit(draws, |list|, |list|)
    ensures forall x :: x in list <==> x in Drained(list, draws)
  {
    forall x
      ensures x in list <==> x in Drained(list, draws)
    {
      assert x in list <==> x in multiset(list);
      assert x in Drained(list, draws) <==> x in multiset(Drained(list, draws));
    }
  }

  /** The draining loop of makeSusceptible: each drawn host is reset (no
   *  infection, empty history) and swap-removed, until the list is empty. */
  method DrainReset(list: seq<Host>, draws: seq<nat>) returns (moved: seq<Host>)
    requires DrawsFit(draws, |list|, |list|)
    modifies list
    ensures moved == Drained(list, draws)
    ensures forall h :: h in list ==> h.Naive()
  {
    var compartment := list;
    var rest := draws;
    moved := [];
    while |compartment| > 0
      invariant DrawsFit(rest, |compartment|, |compartment|)
      invariant moved + Drained(compartment, rest) == Drained(list, draws)
      invariant forall k :: 0 <= k < |compartment| ==> compartment[k] in list
      invariant forall h :: h in moved ==> h.Naive()
      decreases |compartment|
    {
      var delIdx := rest[0];
      var susHost := compartment[delIdx];
      DrainedStep(list, draws, moved, compartment, rest);
      label step:
      susHost.Reset();
      forall h | h in moved
        ensures h.Naive()
      {
        if h != susHost {
          assert old@step(h.Naive());
        }
      }
      compartment := SwapRemove(compartment, delIdx);
      rest := rest[1..];
      moved := moved + [susHost];
    }
    DrainedHoldsAll(list, draws);
  }

  /** The hosts held by three compartments. */
  ghost function HostsOf(s: seq<Host>, i: seq<Host>, r: seq<Host>): set<Host>
  {
    (set h | h in s) + (set h | h in i) + (set h | h in r)
  }

  /** Compartments holding the same hosts, however distributed, hold the same
   *  host set. */
  lemma SameHosts(s0: seq<Host>, i0: seq<Host>, r0: seq<Host>, s1: seq<Host>, i1: seq<Host>, r1: seq<Host>)
    requires forall h :: (h in s0 || h in i0 || h in r0) <==> (h in s1 || h in i1 || h in r1)
    ensures HostsOf(s0, i0, r0) == HostsOf(s1, i1, r1)
  {
  }

  class Species {
    const name: string
    const fraction: real
    const birthRate: real
    const broodStart: int
    const broodEnd: int
    const deathRate: real
    const broodBirthRate: real
    var susceptibles: seq<Host>
    var infecteds: seq<Host>
    var recovereds: seq<Host>
    /** The hosts of the species as a set (kept equal to the three lists'
     *  members by Valid). */
    ghost var hostSet: set<Host>

    /** All hosts of the species, S first, then I, then R. */
    ghost function Members(): seq<Host>
      reads this
    {
      susceptibles + infecteds + recovereds
    }

    function Get(c: Compartment): seq<Host>
      reads this
    {
      match c
      case Susceptible => susceptibles
      case Infected => infecteds
      case Recovered => recovereds
    }

    /** What a host of compartment `c` looks like: it carries a virus of the
     *  arena when infected, nothing otherwise. */
    ghost predicate Placed(h: Host, c: Compartment, nodes: seq<VirusNode>)
      reads h
    {
      if c == Infected then Carries(h, nodes) else h.infection.None?
    }

    /** No host sits twice in a compartment or in two compartments. */
    ghost predicate Distinct()
      reads this
    {
      && NoDuplicates(susceptibles) && NoDuplicates(infecteds) && NoDuplicates(recovereds)
      && (forall h :: h in susceptibles ==> h !in infecteds && h !in recovereds)
      && (forall h :: h in infecteds ==> h !in recovereds)
    }

    /** Every host is distinct and placed right. */
    ghost predicate Valid(nodes: seq<VirusNode>)
      reads this, hostSet
    {
      && hostSet == HostsOf(susceptibles, infecteds, recovereds)
      && Distinct()
      && (forall h :: h in susceptibles ==> h.infection.None?)
      && (forall h :: h in infecteds ==> Carries(h, nodes))
      && (forall h :: h in recovereds ==> h.infection.None?)
    }

    /** Distinct compartments make a membership without repeats. */
    lemma DistinctMembers()
      requires Distinct()
      ensures NoDuplicates(Members())
    {
      NoDuplicatesAppend(susceptibles, infecteds);
      NoDuplicatesAppend(susceptibles + infecteds, recovereds);
    }

    /** The species read from its parameters, with no hosts yet; the brood
     *  birth rate spreads a year's births over the brooding period. An empty
     *  period (broodStart == broodEnd) divides by zero in floating point; no
     *  day then lies strictly inside it, so the rate is never used and 0.0
     *  stands in for it. */
    constructor (name: string, fraction: real, broodStart: int, broodEnd: int, birthRate: real, deathRate: real)
      ensures this.name == name && this.fraction == fraction
      ensures this.broodStart == broodStart && this.broodEnd == broodEnd
      ensures this.birthRate == birthRate && this.deathRate == deathRate
      ensures broodEnd != broodStart ==> broodBirthRate * ((broodEnd - broodStart) as real) == birthRate * 365.0
      ensures broodEnd == broodStart ==> broodBirthRate == 0.0
      ensures susceptibles == [] && infecteds == [] && recovereds == []
    {
      this.name := name;
      this.fraction := fraction;
      this.broodStart := broodStart;
      this.broodEnd := broodEnd;
      this.birthRate := birthRate;
      this.deathRate := deathRate;
      broodBirthRate := if broodEnd == broodStart then 0.0 else birthRate * 365.0 / ((broodEnd - broodStart) as real);
      susceptibles, infecteds, recovereds := [], [], [];
      hostSet := {};
    }

    /** Species(src, frac): the same species with another fraction, and with
     *  host lists of its own (empty). */
    constructor Copy(src: Species, frac: real)
      ensures name == src.name && fraction == frac
      ensures broodStart == src.broodStart && broodEnd == src.broodEnd
      ensures birthRate == src.birthRate && deathRate == src.deathRate
      ensures broodBirthRate == src.broodBirthRate
      ensures susceptibles == [] && infecteds == [] && recovereds == []
    {
      name := src.name;
      fraction := frac;
      broodStart := src.broodStart;
      broodEnd := src.broodEnd;
      birthRate := src.birthRate;
      deathRate := src.deathRate;
      broodBirthRate := src.broodBirthRate;
      susceptibles, infecteds, recovereds := [], [], [];
      hostSet := {};
    }

    function GetS(): nat
      reads this
    {
      |susceptibles|
    }

    function GetI(): nat
      reads this
    {
      |infecteds|
    }

    function GetR(): nat
      reads this
    {
      |recovereds|
    }

    /** getN: every host is counted once, in exactly one compartment. */
    function GetN(): (n: nat)
      reads this
      ensures n == |Members()|
      ensures n == GetS() + GetI() + GetR()
    {
      GetS() + GetI() + GetR()
    }

    /** getRandomHost: the drawn flat index in [0, N - 1] picks S first, then
     *  I, then R, by subtracting the sizes skipped. */
    method GetRandomHost(index: nat) returns (h: Host)
      requires index < GetN()
      ensures h == Members()[index]
      ensures index < GetS() ==> h == susceptibles[index]
      ensures GetS() <= index < GetS() + GetI() ==> h == infecteds[index - GetS()]
      ensures GetS() + GetI() <= index ==> h == recovereds[index - GetS() - GetI()]
    {
      var i := index;
      if i < |susceptibles| {
        return susceptibles[i];
      }
      i := i - |susceptibles|;
      if i < |infecteds| {
        return infecteds[i];
      }
      i := i - |infecteds|;
      return recovereds[i];
    }

    /** The number of hosts createHosts makes from an initial count: the count
     *  scaled by the species fraction and truncated toward zero, none when
     *  that is negative. */
    function Share(initial: int): (k: nat)
      ensures fraction >= 0.0 && initial >= 0 ==> k as real <= initial as real * fraction < k as real + 1.0
    {
      var scaled := TruncateToInt(initial as real * fraction);
      if scaled > 0 then scaled else 0
    }

    /** Append hosts that are new to the species to one compartment. */
    method Append(c: Compartment, added: seq<Host>, ghost nodes: seq<VirusNode>)
      requires Valid(nodes) && NoDuplicates(added)
      requires forall h :: h in added ==>
        h !in susceptibles && h !in infecteds && h !in recovereds && Placed(h, c, nodes)
      modifies this
      ensures Valid(nodes) && Get(c) == old(Get(c)) + added
      ensures c != Susceptible ==> susceptibles == old(susceptibles)
      ensures c != Infected ==> infecteds == old(infecteds)
      ensures c != Recovered ==> recovereds == old(recovereds)
      ensures hostSet == old(hostSet) + set h | h in added
    {
      NoDuplicatesAppend(Get(c), added);
      match c {
        case Susceptible => susceptibles := susceptibles + added;
        case Infected => infecteds := infecteds + added;
        case Recovered => recovereds := recovereds + added;
      }
      hostSet := hostSet + set h | h in added;
    }

    /** `count` new naive hosts, each given the ur-immunity when its draw in
     *  `immune` comes up, appended to S or R. */
    method AddNaive(c: Compartment, count: nat, immune: seq<bool>, urImmunity: Phenotype, ghost nodes: seq<VirusNode>)
      returns (added: seq<Host>)
      requires c != Infected && Valid(nodes) && |immune| >= count
      modifies this
      ensures Valid(nodes) && |added| == count && Get(c) == old(Get(c)) + added
      ensures c != Susceptible ==> susceptibles == old(susceptibles)
      ensures infecteds == old(infecteds)
      ensures c != Recovered ==> recovereds == old(recovereds)
      ensures forall k :: 0 <= k < count ==>
        fresh(added[k]) && added[k].infection.None? && added[k].History() == if immune[k] then [urImmunity] else []
      ensures forall h :: h in hostSet ==> h in old(hostSet) || fresh(h)
    {
      added := [];
      var i := 0;
      while i < count
        modifies {}
        invariant 0 <= i <= count && |added| == i && NoDuplicates(added)
        invariant forall k :: 0 <= k < i ==>
          fresh(added[k]) && added[k].infection.None? && added[k].History() == if immune[k] then [urImmunity] else []
      {
        var h := new Host(immune[i], urImmunity);
        added := added + [h];
        i := i + 1;
      }
      forall h | h in added
        ensures h !in susceptibles && h !in infecteds && h !in recovereds && Placed(h, c, nodes)
      {
        var k :| 0 <= k < |added| && added[k] == h;
      }
      Append(c, added, nodes);
    }

    /** `count` new hosts, each infected by a new child of the ur-virus born
     *  in deme `deme`, appended to I. */
    method AddInfected(count: nat, arena: Arena, urVirus: nat, deme: int, immune: seq<bool>,
                       urImmunity: Phenotype, date: real) returns (added: seq<Host>)
      requires arena.Valid() && Valid(arena.nodes) && urVirus < |arena.nodes| && |immune| >= count
      modifies this, arena
      ensures arena.Valid() && Valid(arena.nodes)
      ensures var node := NewNode(Some(urVirus), old(arena.nodes)[urVirus].phenotype, date, deme);
        arena.nodes == old(arena.nodes) + seq(count, _ => node)
      ensures |added| == count && infecteds == old(infecteds) + added
      ensures susceptibles == old(susceptibles) && recovereds == old(recovereds)
      ensures forall k :: 0 <= k < count ==> fresh(added[k]) && added[k].infection == Some(|old(arena.nodes)| + k)
      ensures forall h :: h in hostSet ==> h in old(hostSet) || fresh(h)
    {
      ghost var nodes0 := arena.nodes;
      ghost var node := NewNode(Some(urVirus), nodes0[urVirus].phenotype, date, deme);
      added := [];
      var i := 0;
      while i < count
        modifies arena
        invariant 0 <= i <= count && |added| == i && NoDuplicates(added)
        invariant arena.Valid() && arena.nodes == nodes0 + seq(i, _ => node)
        invariant forall k :: 0 <= k < i ==> fresh(added[k]) && added[k].infection == Some(|nodes0| + k)
        invariant Valid(nodes0)
      {
        var v := arena.Replicate(urVirus, deme, date);
        assert arena.nodes == nodes0 + seq(i + 1, _ => node);
        var h := new Host.Infected(v, immune[i], urImmunity);
        added := added + [h];
        i := i + 1;
      }
      ValidKeeps(nodes0, arena.nodes);
      forall h | h in added
        ensures h !in susceptibles && h !in infecteds && h !in recovereds && Placed(h, Infected, arena.nodes)
      {
        var k :| 0 <= k < |added| && added[k] == h;
        assert arena.nodes[|nodes0| + k] == node;
      }
      Append(Infected, added, arena.nodes);
    }

    /** An infected host of a valid species belongs to it and carries a
     *  virus of the arena. */
    lemma InfectedOwned(h: Host, nodes: seq<VirusNode>)
      requires Valid(nodes) && h in infecteds
      ensures h in hostSet && Carries(h, nodes)
    {
    }

    /** The invariant survives arena growth and counter updates. */
    lemma ValidKeeps(before: seq<VirusNode>, after: seq<VirusNode>)
      requires Valid(before) && ParentsKept(before, after)
      ensures Valid(after)
    {
      forall h | h in infecteds
        ensures Carries(h, after)
      {
        CarriesKept(h, before, after);
      }
    }

    /** createHosts: Share(initialSus) naive susceptible hosts, Share(initialInf)
     *  hosts each infected by a new child of the ur-virus in deme `deme`, and
     *  Share(initialRec) naive recovered hosts. */
    method CreateHosts(deme: int, initialSus: int, initialInf: int, initialRec: int,
                       arena: Arena, urVirus: nat, urImmunity: Phenotype,
                       immuneS: seq<bool>, immuneI: seq<bool>, immuneR: seq<bool>, date: real)
      requires arena.Valid() && Valid(arena.nodes) && urVirus < |arena.nodes|
      requires |immuneS| >= Share(initialSus) && |immuneI| >= Share(initialInf) && |immuneR| >= Share(initialRec)
      modifies this, arena
      ensures arena.Valid() && Valid(arena.nodes)
      ensures var node := NewNode(Some(urVirus), old(arena.nodes)[urVirus].phenotype, date, deme);
        arena.nodes == old(arena.nodes) + seq(Share(initialInf), _ => node)
      ensures |susceptibles| == |old(susceptibles)| + Share(initialSus) && susceptibles[..|old(susceptibles)|] == old(susceptibles)
      ensures |infecteds| == |old(infecteds)| + Share(initialInf) && infecteds[..|old(infecteds)|] == old(infecteds)
      ensures |recovereds| == |old(recovereds)| + Share(initialRec) && recovereds[..|old(recovereds)|] == old(recovereds)
      ensures forall k :: |old(susceptibles)| <= k < |susceptibles| ==> fresh(susceptibles[k])
      ensures forall k :: |old(infecteds)| <= k < |infecteds| ==>
        fresh(infecteds[k]) && infecteds[k].infection == Some(|old(arena.nodes)| + k - |old(infecteds)|)
      ensures forall k :: |old(recovereds)| <= k < |recovereds| ==> fresh(recovereds[k])
      ensures forall h :: h in hostSet ==> h in old(hostSet) || fresh(h)
    {
      var addedS := AddNaive(Susceptible, Share(initialSus), immuneS, urImmunity, arena.nodes);
      var addedI := AddInfected(Share(initialInf), arena, urVirus, deme, immuneI, urImmunity, date);
      var addedR := AddNaive(Recovered, Share(initialRec), immuneR, urImmunity, arena.nodes);
      assert susceptibles == old(susceptibles) + addedS;
      assert infecteds == old(infecteds) + addedI;
      assert recovereds == old(recovereds) + addedR;
    }

    /** grow: `births` new naive susceptible hosts, but only strictly inside
     *  the brooding period; I and R never change. */
    method Grow(dayOfYear: int, births: nat, immune: seq<bool>, urImmunity: Phenotype, ghost nodes: seq<VirusNode>)
      requires Valid(nodes) && |immune| >= births
      modifies this
      ensures Valid(nodes)
      ensures infecteds == old(infecteds) && recovereds == old(recovereds)
      ensures broodStart < dayOfYear < broodEnd ==>
        |susceptibles| == |old(susceptibles)| + births && susceptibles[..|old(susceptibles)|] == old(susceptibles)
      ensures broodStart < dayOfYear < broodEnd ==>
        forall k :: |old(susceptibles)| <= k < |susceptibles| ==> fresh(susceptibles[k])
      ensures !(broodStart < dayOfYear < broodEnd) ==> susceptibles == old(susceptibles)
      ensures forall h :: h in hostSet ==> h in old(hostSet) || fresh(h)
    {
      if broodStart < dayOfYear && dayOfYear < broodEnd {
        var added := AddNaive(Susceptible, births, immune, urImmunity, nodes);
        assert susceptibles == old(susceptibles) + added;
      }
    }

    /** Replace one compartment by a sub-multiset of itself. */
    method SetCompartment(c: Compartment, list: seq<Host>, ghost nodes: seq<VirusNode>)
      requires Valid(nodes) && multiset(list) <= multiset(Get(c))
      modifies this
      ensures Valid(nodes) && Get(c) == list
      ensures c != Susceptible ==> susceptibles == old(susceptibles)
      ensures c != Infected ==> infecteds == old(infecteds)
      ensures c != Recovered ==> recovereds == old(recovereds)
      ensures hostSet <= old(hostSet)
    {
      NoDuplicatesSubMultiset(Get(c), list);
      forall h | h in list
        ensures h in Get(c)
      {
        assert h in multiset(list);
      }
      match c {
        case Susceptible => susceptibles := list;
        case Infected => infecteds := list;
        case Recovered => recovereds := list;
      }
      hostSet := HostsOf(susceptibles, infecteds, recovereds);
    }

    /** decline(compartment): the drawn number of deaths removes that many
     *  hosts (all of them if fewer) from this compartment only. */
    method DeclineCompartment(c: Compartment, deaths: nat, draws: seq<nat>, ghost nodes: seq<VirusNode>)
      requires Valid(nodes) && DrawsFit(draws, |Get(c)|, Min(deaths, |Get(c)|))
      modifies this
      ensures Valid(nodes)
      ensures Get(c) == Declined(old(Get(c)), deaths, draws)
      ensures c != Susceptible ==> susceptibles == old(susceptibles)
      ensures c != Infected ==> infecteds == old(infecteds)
      ensures c != Recovered ==> recovereds == old(recovereds)
      ensures hostSet <= old(hostSet)
    {
      var compartment := Get(c);
      var remaining: nat := deaths;
      var rest := draws;
      while remaining > 0 && |compartment| > 0
        modifies {}
        invariant DrawsFit(rest, |compartment|, Min(remaining, |compartment|))
        invariant Declined(compartment, remaining, rest) == Declined(old(Get(c)), deaths, draws)
        decreases remaining
      {
        var delIdx := rest[0];
        DrawsFitTail(rest, |compartment|, Min(remaining, |compartment|));
        compartment := SwapRemove(compartment, delIdx);
        rest := rest[1..];
        remaining := remaining - 1;
      }
      assert compartment == Declined(old(Get(c)), deaths, draws);
      SetCompartment(c, compartment, nodes);
    }

    /** decline(): the three compartments in turn. */
    method Decline(deathsS: nat, drawsS: seq<nat>, deathsI: nat, drawsI: seq<nat>,
                   deathsR: nat, drawsR: seq<nat>, ghost nodes: seq<VirusNode>)
      requires Valid(nodes)
      requires DrawsFit(drawsS, |susceptibles|, Min(deathsS, |susceptibles|))
      requires DrawsFit(drawsI, |infecteds|, Min(deathsI, |infecteds|))
      requires DrawsFit(drawsR, |recovereds|, Min(deathsR, |recovereds|))
      modifies this
      ensures Valid(nodes)
      ensures susceptibles == Declined(old(susceptibles), deathsS, drawsS)
      ensures infecteds == Declined(old(infecteds), deathsI, drawsI)
      ensures recovereds == Declined(old(recovereds), deathsR, drawsR)
      ensures hostSet <= old(hostSet)
    {
      DeclineCompartment(Susceptible, deathsS, drawsS, nodes);
      DeclineCompartment(Infected, deathsI, drawsI, nodes);
      DeclineCompartment(Recovered, deathsR, drawsR, nodes);
    }

    /** makeSusceptible(compartment) for I or R: the conversion counter is never
     *  decremented, so a positive draw drains the whole compartment, each host
     *  reset and appended to S in the drawn order; a zero draw does nothing. */
    method MakeSusceptibleFrom(c: Compartment, conversions: nat, draws: seq<nat>, ghost nodes: seq<VirusNode>)
      requires c != Susceptible && Valid(nodes) && DrawsFit(draws, |Get(c)|, |Get(c)|)
      modifies this, Get(c)
      ensures Valid(nodes)
      ensures conversions == 0 ==> Get(c) == old(Get(c)) && susceptibles == old(susceptibles)
      ensures |Members()| == |old(Members())| && hostSet == old(hostSet)
      ensures conversions > 0 ==> Get(c) == [] && susceptibles == old(susceptibles) + Drained(old(Get(c)), draws)
      ensures conversions > 0 ==> forall h :: h in old(Get(c)) ==> h.Naive()
      ensures c != Infected ==> infecteds == old(infecteds)
      ensures c != Recovered ==> recovereds == old(recovereds)
    {
      if conversions == 0 {
        return;
      }
      var list := Get(c);
      var moved := DrainReset(list, draws);
      forall h | h in susceptibles
        ensures h.infection.None?
      {
        assert h !in list && old(h.infection).None?;
      }
      if c != Infected {
        forall h | h in infecteds
          ensures Carries(h, nodes)
        {
          assert h !in list && old(Carries(h, nodes));
        }
      }
      if c != Recovered {
        forall h | h in recovereds
          ensures h.infection.None?
        {
          assert h !in list && old(h.infection).None?;
        }
      }
      DrainedHoldsAll(list, draws);
      NoDuplicatesSubMultiset(list, moved);
      Absorb(c, moved, nodes);
    }

    /** The end of the drain: the reset hosts of `c`, in drawn order, are
     *  appended to S and `c` is left empty. */
    method Absorb(c: Compartment, moved: seq<Host>, ghost nodes: seq<VirusNode>)
      requires c != Susceptible && Distinct() && hostSet == HostsOf(susceptibles, infecteds, recovereds)
      requires NoDuplicates(moved) && forall h :: h in moved <==> h in Get(c)
      requires forall h :: h in moved ==> h.infection.None?
      requires forall h :: h in susceptibles ==> h.infection.None?
      requires c != Infected ==> forall h :: h in infecteds ==> Carries(h, nodes)
      requires c != Recovered ==> forall h :: h in recovereds ==> h.infection.None?
      modifies this
      ensures Valid(nodes) && Get(c) == [] && susceptibles == old(susceptibles) + moved
      ensures c != Infected ==> infecteds == old(infecteds)
      ensures c != Recovered ==> recovereds == old(recovereds)
      ensures hostSet == old(hostSet)
    {
      NoDuplicatesAppend(susceptibles, moved);
      susceptibles := susceptibles + moved;
      match c {
        case Infected => infecteds := [];
        case Recovered => recovereds := [];
      }
      SameHosts(old(susceptibles), old(infecteds), old(recovereds), susceptibles, infecteds, recovereds);
    }

    /** makeSusceptible(): the S pass would loop forever on a positive draw
     *  with a non-empty S, so that case is excluded; the I and R passes then
     *  run as above. */
    method MakeSusceptible(conversionsS: nat, conversionsI: nat, drawsI: seq<nat>,
                           conversionsR: nat, drawsR: seq<nat>, ghost nodes: seq<VirusNode>)
      requires Valid(nodes) && (conversionsS == 0 || |susceptibles| == 0)
      requires DrawsFit(drawsI, |infecteds|, |infecteds|) && DrawsFit(drawsR, |recovereds|, |recovereds|)
      modifies this, infecteds, recovereds
      ensures Valid(nodes)
      ensures conversionsI > 0 ==> infecteds == []
      ensures conversionsI == 0 ==> infecteds == old(infecteds)
      ensures conversionsR > 0 ==> recovereds == []
      ensures conversionsR == 0 ==> recovereds == old(recovereds)
      ensures susceptibles == old(susceptibles)
        + (if conversionsI > 0 then Drained(old(infecteds), drawsI) else [])
        + (if conversionsR > 0 then Drained(old(recovereds), drawsR) else [])
      ensures |Members()| == |old(Members())| && hostSet == old(hostSet)
      ensures conversionsI > 0 ==> forall h :: h in old(infecteds) ==> h.Naive()
      ensures conversionsR > 0 ==> forall h :: h in old(recovereds) ==> h.Naive()
    {
      ghost var s0, i0, r0 := susceptibles, infecteds, recovereds;
      assert forall h :: h in i0 ==> h !in r0;
      MakeSusceptibleFrom(Infected, conversionsI, drawsI, nodes);
      label drainedI:
      assert recovereds == r0;
      ghost var s1 := susceptibles;
      assert s1 == s0 + (if conversionsI > 0 then Drained(old(infecteds), drawsI) else []);
      MakeSusceptibleFrom(Recovered, conversionsR, drawsR, nodes);
      assert susceptibles == s1 + (if conversionsR > 0 then Drained(r0, drawsR) else []);
      if conversionsI > 0 {
        forall h | h in i0
          ensures h.Naive()
        {
          assert h !in r0 && old@drainedI(h.Naive());
        }
      }
    }

    /** infect(susIdx, virus, deme, env): the drawn uniform `u` succeeds when it
     *  is below the host's risk of infection by the virus's phenotype; on
     *  success the host leaves S by swap-removal, is infected by a new child
     *  of `virus` and joins the end of I; on failure nothing changes. */
    method Infect(susIdx: nat, virus: nat, deme: int, environment: EnvironmentModel.Environment, arena: Arena,
                  m: MathLib, q: GeometricPhenotype.ImmunityParams, u: real, date: real) returns (infected: Host?)
      requires arena.Valid() && Valid(arena.nodes) && susIdx < |susceptibles| && virus < |arena.nodes|
      requires GeometricPhenotype.ValidImmunity(q)
      modifies this, susceptibles[susIdx], arena
      ensures arena.Valid() && Valid(arena.nodes)
      ensures infected != null <==>
        u < GeometricPhenotype.Risk(m, q, GeometricPhenotype.ClosestDistance(m,
              old(arena.nodes)[virus].phenotype, old(susceptibles[susIdx].History())))
      ensures infected != null ==>
        && infected == old(susceptibles[susIdx])
        && susceptibles == SwapRemove(old(susceptibles), susIdx)
        && infecteds == old(infecteds) + [infected]
        && recovereds == old(recovereds)
        && infected.infection == Some(|old(arena.nodes)|)
        && arena.nodes == old(arena.nodes) + [NewNode(Some(virus), old(arena.nodes)[virus].phenotype, date, deme).(numHostsShedding := 1)]
      ensures infected == null ==>
        && susceptibles == old(susceptibles) && infecteds == old(infecteds) && recovereds == old(recovereds)
        && arena.nodes == old(arena.nodes) && unchanged(old(susceptibles[susIdx]))
      ensures hostSet == old(hostSet)
    {
      var susHost := susceptibles[susIdx];
      var p := arena.nodes[virus].phenotype;
      var history := susHost.immuneHistory[..];
      var chanceOfSuccess := GeometricPhenotype.RiskOfInfection(m, q, p, history);
      if u < chanceOfSuccess {
        ghost var nodes0 := arena.nodes;
        assert susHost in susceptibles;
        SwapRemoveKeepsOthers(susceptibles, susIdx);
        NoDuplicatesAppend(infecteds, [susHost]);
        susceptibles := SwapRemove(susceptibles, susIdx);
        infecteds := infecteds + [susHost];
        susHost.Infect(virus, deme, environment, arena, date);
        forall h | h in infecteds
          ensures Carries(h, arena.nodes)
        {
          if h != susHost {
            CarriesKept(h, nodes0, arena.nodes);
          }
        }
        return susHost;
      }
      return null;
    }

    /** infect(susIdx, infHost, deme, env): infection by the virus an infected
     *  host carries. */
    method InfectFrom(susIdx: nat, infHost: Host, deme: int, environment: EnvironmentModel.Environment, arena: Arena,
                      m: MathLib, q: GeometricPhenotype.ImmunityParams, u: real, date: real) returns (infected: Host?)
      requires arena.Valid() && Valid(arena.nodes) && susIdx < |susceptibles|
      requires infHost.infection.Some? && infHost.infection.value < |arena.nodes|
      requires GeometricPhenotype.ValidImmunity(q)
      modifies this, susceptibles[susIdx], arena
      ensures arena.Valid() && Valid(arena.nodes)
      ensures infected != null <==>
        u < GeometricPhenotype.Risk(m, q, GeometricPhenotype.ClosestDistance(m,
              old(arena.nodes)[old(infHost.infection).value].phenotype, old(susceptibles[susIdx].History())))
      ensures infected != null ==>
        && infected == old(susceptibles[susIdx])
        && susceptibles == SwapRemove(old(susceptibles), susIdx)
        && infecteds == old(infecteds) + [infected]
        && recovereds == old(recovereds)
      ensures infected == null ==>
        && susceptibles == old(susceptibles) && infecteds == old(infecteds) && recovereds == old(recovereds)
        && arena.nodes == old(arena.nodes)
      ensures hostSet == old(hostSet)
    {
      infected := Infect(susIdx, infHost.infection.value, deme, environment, arena, m, q, u, date);
    }

    /** recoverHost: the host clears its infection (recording it in its
     *  history), leaves I by swap-removal, and joins R when recovery confers
     *  lasting immunity (`transcendental`), S otherwise. */
    method RecoverHost(infIdx: nat, environment: EnvironmentModel.Environment, arena: Arena, transcendental: bool)
      requires arena.Valid() && Valid(arena.nodes) && infIdx < |infecteds|
      modifies this, infecteds[infIdx], arena
      ensures arena.Valid() && Valid(arena.nodes)
      ensures old(infecteds[infIdx]).infection == None
      ensures infecteds == SwapRemove(old(infecteds), infIdx)
      ensures transcendental ==> recovereds == old(recovereds) + [old(infecteds[infIdx])] && susceptibles == old(susceptibles)
      ensures !transcendental ==> susceptibles == old(susceptibles) + [old(infecteds[infIdx])] && recovereds == old(recovereds)
      ensures HostModel.TotalShedding(arena.nodes) == HostModel.TotalShedding(old(arena.nodes)) - 1
      ensures ParentsKept(old(arena.nodes), arena.nodes)
      ensures hostSet == old(hostSet)
    {
      var h := infecteds[infIdx];
      assert h in infecteds;
      ghost var nodes0 := arena.nodes;
      h.ClearInfection(environment, arena);
      forall x | x in infecteds && x != h
        ensures Carries(x, arena.nodes)
      {
        CarriesKept(x, nodes0, arena.nodes);
      }
      Discharge(infIdx, transcendental, arena.nodes);
    }

    /** The bookkeeping of recoverHost once the host has cleared its
     *  infection: it leaves I by swap-removal and joins R or S. */
    method Discharge(infIdx: nat, transcendental: bool, ghost nodes: seq<VirusNode>)
      requires Distinct() && hostSet == HostsOf(susceptibles, infecteds, recovereds)
      requires infIdx < |infecteds| && infecteds[infIdx].infection.None?
      requires forall x :: x in infecteds && x != infecteds[infIdx] ==> Carries(x, nodes)
      requires forall x :: x in susceptibles ==> x.infection.None?
      requires forall x :: x in recovereds ==> x.infection.None?
      modifies this
      ensures Valid(nodes)
      ensures infecteds == SwapRemove(old(infecteds), infIdx)
      ensures transcendental ==> recovereds == old(recovereds) + [old(infecteds[infIdx])] && susceptibles == old(susceptibles)
      ensures !transcendental ==> susceptibles == old(susceptibles) + [old(infecteds[infIdx])] && recovereds == old(recovereds)
      ensures hostSet == old(hostSet)
    {
      var h := infecteds[infIdx];
      assert h in infecteds;
      SwapRemoveKeepsOthers(infecteds, infIdx);
      NoDuplicatesAppend(recovereds, [h]);
      NoDuplicatesAppend(susceptibles, [h]);
      infecteds := SwapRemove(infecteds, infIdx);
      if transcendental {
        recovereds := recovereds + [h];
      } else {
        susceptibles := susceptibles + [h];
      }
      SameHosts(old(susceptibles), old(infecteds), old(recovereds), susceptibles, infecteds, recovereds);
    }

    /** Move one host between S and R by swap-removal and append. */
    method Move(from: Compartment, to: Compartment, idx: nat, ghost nodes: seq<VirusNode>)
      requires from != Infected && to != Infected && from != to
      requires Valid(nodes) && idx < |Get(from)|
      modifies this
      ensures Valid(nodes)
      ensures Get(from) == SwapRemove(old(Get(from)), idx)
      ensures Get(to) == old(Get(to)) + [old(Get(from))[idx]]
      ensures infecteds == old(infecteds)
      ensures hostSet == old(hostSet)
    {
      var h := Get(from)[idx];
      assert h in Get(from);
      SwapRemoveKeepsOthers(Get(from), idx);
      SwapRemoveMultiset(Get(from), idx);
      SetCompartment(from, SwapRemove(Get(from), idx), nodes);
      assert h !in susceptibles && h !in infecteds && h !in recovereds;
      Append(to, [h], nodes);
    }

    /** looseImmunity: one recovered host returns to S. */
    method LooseImmunity(recIdx: nat, ghost nodes: seq<VirusNode>)
      requires Valid(nodes) && recIdx < |recovereds|
      modifies this
      ensures Valid(nodes)
      ensures recovereds == SwapRemove(old(recovereds), recIdx)
      ensures susceptibles == old(susceptibles) + [old(recovereds)[recIdx]]
      ensures infecteds == old(infecteds) && hostSet == old(hostSet)
    {
      Move(Recovered, Susceptible, recIdx, nodes);
    }

    /** vaccinate: one susceptible host moves to R. */
    method Vaccinate(susIdx: nat, ghost nodes: seq<VirusNode>)
      requires Valid(nodes) && susIdx < |susceptibles|
      modifies this
      ensures Valid(nodes)
      ensures susceptibles == SwapRemove(old(susceptibles), susIdx)
      ensures recovereds == old(recovereds) + [old(susceptibles)[susIdx]]
      ensures infecteds == old(infecteds) && hostSet == old(hostSet)
    {
      Move(Susceptible, Recovered, susIdx, nodes);
    }

    /** cull: one infected host leaves the species (its virus's shedding count
     *  is left as it was). */
    method Cull(infIdx: nat, ghost nodes: seq<VirusNode>)
      requires Valid(nodes) && infIdx < |infecteds|
      modifies this
      ensures Valid(nodes)
      ensures infecteds == SwapRemove(old(infecteds), infIdx)
      ensures susceptibles == old(susceptibles) && recovereds == old(recovereds)
      ensures hostSet <= old(hostSet)
    {
      SwapRemoveMultiset(infecteds, infIdx);
      SetCompartment(Infected, SwapRemove(infecteds, infIdx), nodes);
    }

    /** mutate of one of the species' infected hosts: the host now carries
     *  a mutated child of its old virus, the lists are untouched, and the
     *  total shedding count is unchanged. */
    method MutateInfected(h: Host, environment: EnvironmentModel.Environment, arena: Arena, m: MathLib,
                          mp: GeometricPhenotype.MutationParams, draw: GeometricPhenotype.MutationDraw, date: real)
      requires arena.Valid() && Valid(arena.nodes) && h in infecteds && GeometricPhenotype.ValidMutation(mp)
      modifies h, arena
      ensures arena.Valid() && Valid(arena.nodes) && ParentsKept(old(arena.nodes), arena.nodes)
      ensures |arena.nodes| == |old(arena.nodes)| + 1
      ensures h.infection == Some(|old(arena.nodes)|) && arena.nodes[|old(arena.nodes)|].parent == old(h.infection)
      ensures arena.nodes == WithMutant(old(arena.nodes), old(h.infection).value, m, mp, draw, date)
      ensures h.immuneHistory == old(h.immuneHistory)
      ensures TotalShedding(arena.nodes) == TotalShedding(old(arena.nodes))
    {
      ghost var nodes0 := arena.nodes;
      ghost var v := h.infection.value;
      h.Mutate(environment, arena, m, mp, draw, date);
      ghost var dropped := nodes0[v := nodes0[v].(numHostsShedding := nodes0[v].numHostsShedding - 1)];
      ParentsKeptUpdate(nodes0, v, dropped[v]);
      ParentsKeptAppend(dropped, arena.nodes[|nodes0|]);
      assert arena.nodes == dropped + [arena.nodes[|nodes0|]];
      forall x | x in infecteds && x != h
        ensures Carries(x, arena.nodes)
      {
        CarriesKept(x, nodes0, arena.nodes);
      }
    }

    /** makeTrunk: every infected host's virus and its ancestry are marked as
     *  the trunk of the genealogy; only trunk marks change. */
    method MakeTrunk(arena: Arena)
      requires arena.Valid() && Valid(arena.nodes)
      modifies arena
      ensures arena.Valid() && Valid(arena.nodes) && OnlyTrunkGrows(old(arena.nodes), arena.nodes)
      ensures forall h :: h in infecteds ==> arena.nodes[h.infection.value].trunk
      ensures AllTrunk(arena.nodes, old(VirusesOf(infecteds)))
      ensures TrunkClosed(old(arena.nodes)) ==> TrunkClosed(arena.nodes)
      ensures MarkedFrom(old(arena.nodes), arena.nodes, old(VirusesOf(infecteds)))
    {
      ghost var roots := VirusesOf(infecteds);
      var i := 0;
      while i < |infecteds|
        invariant 0 <= i <= |infecteds|
        invariant arena.Valid() && OnlyTrunkGrows(old(arena.nodes), arena.nodes) && Valid(arena.nodes)
        invariant forall k :: 0 <= k < i ==>
          Carries(infecteds[k], arena.nodes) && arena.nodes[infecteds[k].infection.value].trunk
        invariant TrunkClosed(old(arena.nodes)) ==> TrunkClosed(arena.nodes)
        invariant MarkedFrom(old(arena.nodes), arena.nodes, roots)
      {
        assert infecteds[i] in infecteds;
        ghost var before := arena.nodes;
        var x := infecteds[i].infection.value;
        assert x in roots;
        MarkTrunkLineage(arena, x);
        MarkedFromStep(old(arena.nodes), before, arena.nodes, roots, {x});
        ValidKeeps(before, arena.nodes);
        InfectedTrunkStep(infecteds, before, arena.nodes, i);
        i := i + 1;
      }
      forall h | h in infecteds
        ensures arena.nodes[h.infection.value].trunk
      {
        var k :| 0 <= k < |infecteds| && infecteds[k] == h;
      }
    }

    /** clear: no hosts left. */
    method Clear()
      modifies this
      ensures susceptibles == [] && infecteds == [] && recovereds == [] && hostSet == {}
      ensures forall nodes :: Valid(nodes)
    {
      susceptibles, infecteds, recovereds := [], [], [];
      hostSet := {};
    }
  }
}
