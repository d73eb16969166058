/** The virus of each infected host along a run of mutate(): round j draws
 *  the infected host at a flat index and gives it the new virus `base + j`,
 *  a child of the virus that host carried just before the round. */
module MutationTrace {
  import opened Wrappers
  import opened Lineage
  import opened HostModel

  /** The infection of `hosts[p]`, which carried `before`, after the first
   *  `i` rounds of mutate(): round j gives the host at the drawn position
   *  `draws[j] % |hosts|` the new virus `base + j`. */
  function InfectionAfter(hosts: seq<Host>, before: Option<nat>, base: nat, draws: seq<nat>, i: nat, p: nat): Option<nat>
    requires 0 < |hosts| && i <= |draws| && p < |hosts|
    decreases i
  {
    if i == 0 then before
    else if hosts[draws[i - 1] % |hosts|] == hosts[p] then Some(base + i - 1)
    else InfectionAfter(hosts, before, base, draws, i - 1, p)
  }

  /** The infection of each host of `hs`, in order. */
  function Infections(hs: seq<Host>): (r: seq<Option<nat>>)
    reads set h | h in hs
    ensures |r| == |hs| && forall p :: 0 <= p < |hs| ==> r[p] == hs[p].infection
  {
    if |hs| == 0 then [] else Infections(hs[..|hs| - 1]) + [hs[|hs| - 1].infection]
  }

  /** Round `j` is the latest of the first `i` rounds to draw `hosts[p]`. */
  predicate LatestDraw(hosts: seq<Host>, draws: seq<nat>, i: nat, j: nat, p: nat)
    requires 0 < |hosts| && i <= |draws| && p < |hosts|
  {
    && j < i && hosts[draws[j] % |hosts|] == hosts[p]
    && forall j' :: j < j' < i ==> hosts[draws[j'] % |hosts|] != hosts[p]
  }

  /** After `i` rounds a host still carries its old virus when no round drew
   *  it, and otherwise the virus made by the latest round that drew it. */
  lemma {:induction false} InfectionAfterLatest(hosts: seq<Host>, before: Option<nat>, base: nat, draws: seq<nat>, i: nat, p: nat)
    requires 0 < |hosts| && i <= |draws| && p < |hosts|
    ensures (forall j :: 0 <= j < i ==> hosts[draws[j] % |hosts|] != hosts[p]) ==> InfectionAfter(hosts, before, base, draws, i, p) == before
    ensures forall j: nat :: LatestDraw(hosts, draws, i, j, p) ==> InfectionAfter(hosts, before, base, draws, i, p) == Some(base + j)
    decreases i
  {
    if i > 0 {
      var k := i - 1;
      if hosts[draws[k] % |hosts|] == hosts[p] {
        forall j: nat | LatestDraw(hosts, draws, i, j, p)
          ensures j == k
        {
          assert draws[k] % |hosts| < |hosts|;
        }
      } else {
        InfectionAfterLatest(hosts, before, base, draws, k, p);
        forall j: nat | LatestDraw(hosts, draws, i, j, p)
          ensures LatestDraw(hosts, draws, k, j, p)
        {
        }
      }
    }
  }

  /** Each of the first `n` rounds made the new virus `base + j` a child of
   *  the virus its drawn host carried just before that round. */
  predicate ParentsTraced(hosts: seq<Host>, before: seq<Option<nat>>, base: nat, draws: seq<nat>, n: nat, nodes: seq<VirusNode>)
  {
    && 0 < |hosts| && |before| == |hosts| && n <= |draws|
    && forall k {:trigger ParentAt(nodes, k)} :: base <= k < base + n ==>
      var p := draws[k - base] % |hosts|;
      ParentAt(nodes, k) == InfectionAfter(hosts, before[p], base, draws, k - base, p)
  }

  /** After the first `n` rounds host `p` carries `inf[p]`. */
  predicate InfectionsTraced(hosts: seq<Host>, before: seq<Option<nat>>, base: nat, draws: seq<nat>, n: nat, inf: seq<Option<nat>>)
  {
    && 0 < |hosts| && |before| == |inf| == |hosts| && n <= |draws|
    && forall p :: 0 <= p < |hosts| ==> inf[p] == InfectionAfter(hosts, before[p], base, draws, n, p)
  }

  /** Round `i` of mutate() makes the new virus `base + i` a child of the
   *  virus its drawn host carried, and earlier nodes keep their parents. */
  lemma ParentsRound(hosts: seq<Host>, before: seq<Option<nat>>, base: nat, draws: seq<nat>, i: nat,
                     nodes1: seq<VirusNode>, nodes2: seq<VirusNode>, inf1: seq<Option<nat>>)
    requires i < |draws| && |nodes1| == base + i && ParentsKept(nodes1, nodes2)
    requires ParentsTraced(hosts, before, base, draws, i, nodes1) && InfectionsTraced(hosts, before, base, draws, i, inf1)
    requires ParentAt(nodes2, base + i) == inf1[draws[i] % |hosts|]
    ensures ParentsTraced(hosts, before, base, draws, i + 1, nodes2)
  {
    forall k | base <= k < base + i + 1
      ensures var p := draws[k - base] % |hosts|;
        ParentAt(nodes2, k) == InfectionAfter(hosts, before[p], base, draws, k - base, p)
    {
      if k < base + i {
        assert ParentAt(nodes2, k) == ParentAt(nodes1, k);
      }
    }
  }

  /** Round `i` of mutate() gives the drawn host the new virus `base + i`,
   *  and every other host keeps its virus. */
  lemma InfectionsRound(hosts: seq<Host>, before: seq<Option<nat>>, base: nat, draws: seq<nat>, i: nat,
                        inf1: seq<Option<nat>>, inf2: seq<Option<nat>>)
    requires i < |draws| && InfectionsTraced(hosts, before, base, draws, i, inf1)
    requires |inf2| == |hosts| && forall p :: 0 <= p < |hosts| ==>
      inf2[p] == if hosts[p] == hosts[draws[i] % |hosts|] then Some(base + i) else inf1[p]
    ensures InfectionsTraced(hosts, before, base, draws, i + 1, inf2)
  {
    forall p | 0 <= p < |hosts|
      ensures inf2[p] == InfectionAfter(hosts, before[p], base, draws, i + 1, p)
    {
    }
  }
}
