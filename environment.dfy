/** The environmental reservoir of one deme: the viruses shed into it, each
 *  with a volume kept in its arena node, cleared day by day. */
module EnvironmentModel {
  import opened Wrappers
  import opened Numerics
  import opened Lineage

  /** The clearance and shedding rates of one clearing step. */
  datatype Rates = Rates(clearRate: real, shedRate: real)

  /** The volume of a virus after one step: what its shedding hosts add, at the
   *  equilibrium of the clearance rate, plus what is left of its old volume
   *  after 30 units of decay. */
  function NextVolume(m: MathLib, r: Rates, v: VirusNode): (next: real)
    requires r.clearRate != 0.0
    ensures v.numHostsShedding == 0 ==> next == m.exp(-r.clearRate * 30.0) * v.volume
    ensures Sound(m) && v.numHostsShedding == 0 && v.volume >= 0.0 ==> next >= 0.0
  {
    var decayed := m.exp(-r.clearRate * 30.0) * v.volume;
    assert Sound(m) && v.volume >= 0.0 ==> decayed >= 0.0 by {
      if Sound(m) && v.volume >= 0.0 {
        assert m.exp(-r.clearRate * 30.0) > 0.0;
      }
    }
    r.shedRate * (v.numHostsShedding as real) / r.clearRate + decayed
  }

  /** A virus leaves the environment when its new volume is below the
   *  infective dose and no host sheds it any more. */
  predicate Evicted(m: MathLib, r: Rates, id50: real, v: VirusNode)
    requires r.clearRate != 0.0
  {
    NextVolume(m, r, v) < id50 && v.numHostsShedding == 0
  }

  /** A virus some host still sheds is never evicted, whatever its volume. */
  lemma SheddingVirusStays(m: MathLib, r: Rates, id50: real, v: VirusNode)
    requires r.clearRate != 0.0 && v.numHostsShedding > 0
    ensures !Evicted(m, r, id50, v)
  {
  }

  /** A virus list holding each virus at most once, and only viruses of the
   *  arena. */
  class Environment {
    var envUpTakeRate: real
    var id50: real
    var envDurability: real
    var sheddingRate: real
    var seasonalAmp: real
    var virusList: seq<nat>
    var maxSize: int

    /** The list holds each virus at most once, and only viruses of the arena. */
    ghost predicate Valid(nodes: seq<VirusNode>)
      reads this
    {
      NoDuplicates(virusList) && forall k :: 0 <= k < |virusList| ==> virusList[k] < |nodes|
    }

    /** The environment built from its five parameters, empty. */
    constructor (envUpTakeRate: real, id50: real, envDurability: real, seasonalAmp: real, sheddingRate: real)
      ensures this.envUpTakeRate == envUpTakeRate && this.id50 == id50
      ensures this.envDurability == envDurability && this.seasonalAmp == seasonalAmp
      ensures this.sheddingRate == sheddingRate
      ensures virusList == [] && maxSize == 0
    {
      this.envUpTakeRate := envUpTakeRate;
      this.id50 := id50;
      this.envDurability := envDurability;
      this.seasonalAmp := seasonalAmp;
      this.sheddingRate := sheddingRate;
      virusList := [];
      maxSize := 0;
    }

    /** The rates of a clearing step of length `step` at `date` (years) in a
     *  deme whose seasonal offset is `demeOffset`. */
    function DailyRates(m: MathLib, date: real, demeOffset: real, step: real): (r: Rates)
      reads this`seasonalAmp, this`envDurability, this`sheddingRate
      requires envDurability != 0.0
      ensures r.shedRate == sheddingRate * step
    {
      var pi2 := m.pi * 2.0;
      var sesnFactor := (pi2 * date) + (pi2 * demeOffset);
      Rates((1.0 + (seasonalAmp * m.sin(sesnFactor))) / envDurability * step, sheddingRate * step)
    }

    /** clearViruses: every listed virus gets its next volume; evicted ones are
     *  removed by swapping in the last entry, the others stay; maxSize records
     *  the largest list size seen. */
    method ClearViruses(arena: Arena, m: MathLib, date: real, demeOffset: real, step: real)
      requires arena.Valid() && Valid(arena.nodes)
      requires envDurability != 0.0 && DailyRates(m, date, demeOffset, step).clearRate != 0.0
      modifies this`virusList, this`maxSize, arena
      ensures arena.Valid() && Valid(arena.nodes)
      ensures |arena.nodes| == |old(arena.nodes)|
      ensures var r := DailyRates(m, date, demeOffset, step);
        forall i :: 0 <= i < |arena.nodes| ==>
          arena.nodes[i] == (if i in old(virusList)
                             then old(arena.nodes)[i].(volume := NextVolume(m, r, old(arena.nodes)[i]))
                             else old(arena.nodes)[i])
      ensures var r := DailyRates(m, date, demeOffset, step);
        forall v :: v in virusList <==> v in old(virusList) && !Evicted(m, r, id50, old(arena.nodes)[v])
      ensures forall v :: v in old(virusList) && old(arena.nodes)[v].numHostsShedding > 0 ==> v in virusList
      ensures |virusList| <= |old(virusList)|
      ensures maxSize == if old(maxSize) >= |virusList| then old(maxSize) else |virusList|
    {
      var r := DailyRates(m, date, demeOffset, step);
      var clearRate, shedRate := r.clearRate, r.shedRate;
      ghost var nodes0, list0 := arena.nodes, virusList;
      ghost var seen: set<nat> := {};
      var idx := 0;
      while idx < |virusList|
        invariant arena.Valid() && |arena.nodes| == |nodes0|
        invariant Sweep(m, r, id50, nodes0, list0, virusList, idx, seen)
        invariant VolumesUpdated(m, r, nodes0, arena.nodes, seen)
        invariant maxSize == old(maxSize)
        decreases |virusList| - idx
      {
        var v := virusList[idx];
        assert v in virusList[idx..];
        var currVol := arena.nodes[v].volume;
        var numShed := arena.nodes[v].numHostsShedding as real;
        var nextVol := shedRate * numShed / clearRate;
        nextVol := nextVol + (m.exp(-clearRate * 30.0) * currVol);
        assert nextVol == NextVolume(m, r, nodes0[v]);
        ghost var nodesBefore := arena.nodes;
        arena.SetVolume(v, nextVol);
        UpdateOneVolume(m, r, nodes0, nodesBefore, seen, v);
        if nextVol < id50 && numShed == 0.0 {
          SweepRemove(m, r, id50, nodes0, list0, virusList, idx, seen);
          var size := |virusList| - 1;
          var lastVirus := virusList[size];
          virusList := virusList[idx := lastVirus];
          virusList := virusList[..size];
        } else {
          SweepKeep(m, r, id50, nodes0, list0, virusList, idx, seen);
          idx := idx + 1;
        }
        seen := seen + {v};
      }
      SweepDone(m, r, id50, nodes0, list0, virusList, idx, seen);
      maxSize := if maxSize >= |virusList| then maxSize else |virusList|;
    }

    /** add: the assertion that the virus has exactly one shedding host; the
     *  list itself is not changed. */
    method Add(nodes: seq<VirusNode>, v: nat)
      requires v < |nodes| && nodes[v].numHostsShedding == 1
      ensures unchanged(this)
    {
    }

    /** getVirus: `index` is the uniform draw from [0, size] (both ends
     *  included); the one past the end means no virus. */
    method GetVirus(index: nat) returns (virus: Option<nat>)
      requires index <= |virusList|
      ensures index < |virusList| ==> virus == Some(virusList[index])
      ensures index == |virusList| ==> virus == None
      ensures virus.Some? ==> virus.value in virusList
    {
      if index < |virusList| {
        return Some(virusList[index]);
      }
      return None;
    }

    /** setParam: override exactly the named parameter; an unknown name aborts
     *  (reported as false, nothing changed). */
    method SetParam(param: string, value: real) returns (ok: bool)
      modifies this`envUpTakeRate, this`id50, this`envDurability, this`seasonalAmp, this`sheddingRate
      ensures ok <==> param in {"envUpTakeRate", "id50", "envDurability", "seasonalAmp", "sheddingRate"}
      ensures envUpTakeRate == if param == "envUpTakeRate" then value else old(envUpTakeRate)
      ensures id50 == if param == "id50" then value else old(id50)
      ensures envDurability == if param == "envDurability" then value else old(envDurability)
      ensures seasonalAmp == if param == "seasonalAmp" then value else old(seasonalAmp)
      ensures sheddingRate == if param == "sheddingRate" then value else old(sheddingRate)
    {
      ok := true;
      if param == "envUpTakeRate" {
        envUpTakeRate := value;
      } else if param == "id50" {
        id50 := value;
      } else if param == "envDurability" {
        envDurability := value;
      } else if param == "seasonalAmp" {
        seasonalAmp := value;
      } else if param == "sheddingRate" {
        sheddingRate := value;
      } else {
        ok := false;
      }
    }
  }

  /** The environmental volumes of the viruses in `seen` have been advanced
   *  one step; every other node is as it was. */
  ghost predicate VolumesUpdated(m: MathLib, r: Rates, nodes0: seq<VirusNode>, nodes: seq<VirusNode>, seen: set<nat>)
    requires r.clearRate != 0.0
  {
    |nodes| == |nodes0| &&
    forall i :: 0 <= i < |nodes| ==>
      nodes[i] == (if i in seen then nodes0[i].(volume := NextVolume(m, r, nodes0[i])) else nodes0[i])
  }

  lemma UpdateOneVolume(m: MathLib, r: Rates, nodes0: seq<VirusNode>, nodes: seq<VirusNode>, seen: set<nat>, v: nat)
    requires r.clearRate != 0.0 && VolumesUpdated(m, r, nodes0, nodes, seen)
    requires v < |nodes| && v !in seen
    ensures VolumesUpdated(m, r, nodes0, nodes[v := nodes[v].(volume := NextVolume(m, r, nodes0[v]))], seen + {v})
  {
  }

  /** The state of the clearing sweep over the list `list0` taken at its
   *  start: `seen` holds the viruses already visited; the entries before `idx`
   *  are visited and kept, those from `idx` on are not yet visited, and every
   *  visited virus no longer listed was evicted. */
  ghost predicate Sweep(m: MathLib, r: Rates, id50: real, nodes0: seq<VirusNode>, list0: seq<nat>,
                        list: seq<nat>, idx: nat, seen: set<nat>)
    requires r.clearRate != 0.0
  {
    && idx <= |list| <= |list0|
    && NoDuplicates(list)
    && (forall v :: v in list0 ==> v < |nodes0|)
    && (forall v :: v in list0 <==> v in seen || v in list[idx..])
    && (forall v :: v in list[idx..] ==> v !in seen)
    && (forall v :: v in list ==> v in list0)
    && (forall v :: v in seen && v !in list ==> v < |nodes0| && Evicted(m, r, id50, nodes0[v]))
    && (forall k :: 0 <= k < idx ==> list[k] < |nodes0| && !Evicted(m, r, id50, nodes0[list[k]]))
  }

  lemma SweepRemove(m: MathLib, r: Rates, id50: real, nodes0: seq<VirusNode>, list0: seq<nat>,
                    list: seq<nat>, idx: nat, seen: set<nat>)
    requires r.clearRate != 0.0 && Sweep(m, r, id50, nodes0, list0, list, idx, seen) && idx < |list|
    requires list[idx] < |nodes0| && Evicted(m, r, id50, nodes0[list[idx]])
    ensures Sweep(m, r, id50, nodes0, list0, SwapRemove(list, idx), idx, seen + {list[idx]})
  {
    assert list[idx] in list[idx..];
    SwapRemoveKeepsOthers(list, idx);
  }

  lemma SweepKeep(m: MathLib, r: Rates, id50: real, nodes0: seq<VirusNode>, list0: seq<nat>,
                  list: seq<nat>, idx: nat, seen: set<nat>)
    requires r.clearRate != 0.0 && Sweep(m, r, id50, nodes0, list0, list, idx, seen) && idx < |list|
    requires list[idx] < |nodes0| && !Evicted(m, r, id50, nodes0[list[idx]])
    ensures Sweep(m, r, id50, nodes0, list0, list, idx + 1, seen + {list[idx]})
  {
    assert forall x :: x in list[idx..] <==> x == list[idx] || x in list[idx + 1..];
    assert forall k :: idx + 1 <= k < |list| ==> list[k] != list[idx];
  }

  lemma SweepDone(m: MathLib, r: Rates, id50: real, nodes0: seq<VirusNode>, list0: seq<nat>,
                  list: seq<nat>, idx: nat, seen: set<nat>)
    requires r.clearRate != 0.0 && Sweep(m, r, id50, nodes0, list0, list, idx, seen) && idx == |list|
    ensures forall v :: v in list0 <==> v in seen
    ensures forall v :: v in list <==> v in list0 && !Evicted(m, r, id50, nodes0[v])
    ensures NoDuplicates(list) && |list| <= |list0|
  {
    assert list[idx..] == [];
    forall v | v in list
      ensures !Evicted(m, r, id50, nodes0[v])
    {
      var k :| 0 <= k < |list| && list[k] == v;
    }
  }
}
