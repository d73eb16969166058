/** Viral lineages. Every virus ever made lives in an append-only arena and is
 *  named by its index; a virus's parent always has a smaller index, which makes
 *  the ancestry acyclic and every walk towards the root finite. */
module Lineage {
  import opened Wrappers
  import opened Numerics
  import GeometricPhenotype

  type Phenotype = GeometricPhenotype.Phenotype

  /** One virus: its ancestry, its antigenic phenotype, its birth date (years
   *  since burn-in) and deme, the trunk mark and child list used when the tree
   *  is reconstructed, and the environmental bookkeeping (hosts shedding it and
   *  its volume in the environment). */
  datatype VirusNode = VirusNode(
    parent: Option<nat>,
    phenotype: Phenotype,
    birth: real,
    deme: int,
    trunk: bool,
    children: seq<nat>,
    numHostsShedding: int,
    volume: real)

  /** A freshly constructed virus: not trunk, no children, nobody shedding it,
   *  no volume in the environment. */
  function NewNode(parent: Option<nat>, phenotype: Phenotype, birth: real, deme: int): VirusNode
  {
    VirusNode(parent, phenotype, birth, deme, false, [], 0, 0.0)
  }

  /** Parents precede their children, and children are viruses of the arena. */
  predicate WellFormed(nodes: seq<VirusNode>)
  {
    forall i :: 0 <= i < |nodes| ==> ParentBefore(nodes[i], i) && ChildrenIn(nodes[i], |nodes|)
  }

  predicate ParentBefore(v: VirusNode, i: nat)
  {
    v.parent.Some? ==> v.parent.value < i
  }

  predicate ChildrenIn(v: VirusNode, n: nat)
  {
    forall k :: 0 <= k < |v.children| ==> v.children[k] < n
  }

  predicate IsRoot(nodes: seq<VirusNode>, x: nat)
    requires x < |nodes|
  {
    nodes[x].parent.None?
  }

  /** One step of a walk towards the root: the parent, or the node itself at a
   *  root. */
  function Up(nodes: seq<VirusNode>, x: nat): (y: nat)
    requires WellFormed(nodes) && x < |nodes|
    ensures y < |nodes| && y <= x
    ensures y == x <==> IsRoot(nodes, x)
  {
    if nodes[x].parent.Some? then nodes[x].parent.value else x
  }

  /** `x` is `y` or one of its ancestors. */
  ghost predicate IsAncestorOrSelf(nodes: seq<VirusNode>, x: nat, y: nat)
    requires WellFormed(nodes) && y < |nodes|
    decreases y
  {
    x == y || (nodes[y].parent.Some? && IsAncestorOrSelf(nodes, x, nodes[y].parent.value))
  }

  /** `x` is a strict ancestor of `y`. */
  ghost predicate IsProperAncestor(nodes: seq<VirusNode>, x: nat, y: nat)
    requires WellFormed(nodes) && y < |nodes|
  {
    nodes[y].parent.Some? && IsAncestorOrSelf(nodes, x, nodes[y].parent.value)
  }

  lemma {:induction false} AncestorIsEarlier(nodes: seq<VirusNode>, x: nat, y: nat)
    requires WellFormed(nodes) && y < |nodes|
    requires IsAncestorOrSelf(nodes, x, y)
    ensures x <= y
    decreases y
  {
    if x != y {
      AncestorIsEarlier(nodes, x, nodes[y].parent.value);
    }
  }

  lemma {:induction false} AncestorTransitive(nodes: seq<VirusNode>, x: nat, y: nat, z: nat)
    requires WellFormed(nodes) && y < |nodes| && z < |nodes|
    requires IsAncestorOrSelf(nodes, x, y) && IsAncestorOrSelf(nodes, y, z)
    ensures IsAncestorOrSelf(nodes, x, z)
    decreases z
  {
    if y != z {
      AncestorTransitive(nodes, x, y, nodes[z].parent.value);
    }
  }

  // ---------------------------------------------------------------------
  // commonAncestor: two cursors climb in lock-step, recording every node
  // they stand on; the first cursor found already recorded is returned.

  /** The walk from cursors `A` and `B` with the nodes recorded so far. */
  function AncestorWalk(nodes: seq<VirusNode>, A: nat, B: nat, visited: set<nat>): (r: Option<nat>)
    requires WellFormed(nodes) && A < |nodes| && B < |nodes|
    ensures r.Some? ==> r.value < |nodes|
    decreases A + B
  {
    if A in visited then Some(A)
    else if B in visited + {A} then Some(B)
    else
      var A', B' := Up(nodes, A), Up(nodes, B);
      if IsRoot(nodes, A') && IsRoot(nodes, B') then None
      else AncestorWalk(nodes, A', B', visited + {A, B})
  }

  /** What commonAncestor returns for viruses `a` and `b`. */
  function CommonAncestorOf(nodes: seq<VirusNode>, a: nat, b: nat): Option<nat>
    requires WellFormed(nodes) && a < |nodes| && b < |nodes|
  {
    AncestorWalk(nodes, a, b, {})
  }

  /** commonAncestor, with its HashSet of visited nodes. */
  method CommonAncestor(nodes: seq<VirusNode>, a: nat, b: nat) returns (commonAnc: Option<nat>)
    requires WellFormed(nodes) && a < |nodes| && b < |nodes|
    ensures commonAnc == CommonAncestorOf(nodes, a, b)
    ensures commonAnc.Some? ==> commonAnc.value < |nodes|
  {
    var lineageA: nat, lineageB: nat := a, b;
    var ancestry: set<nat> := {};
    commonAnc := None;
    while true
      invariant lineageA < |nodes| && lineageB < |nodes|
      invariant AncestorWalk(nodes, lineageA, lineageB, ancestry) == CommonAncestorOf(nodes, a, b)
      decreases lineageA + lineageB
    {
      ghost var A0, B0, visited0 := lineageA, lineageB, ancestry;
      if lineageA in ancestry {
        commonAnc := Some(lineageA);
        break;
      }
      ancestry := ancestry + {lineageA};
      if lineageB in ancestry {
        commonAnc := Some(lineageB);
        break;
      }
      ancestry := ancestry + {lineageB};
      if nodes[lineageA].parent.Some? {
        lineageA := nodes[lineageA].parent.value;
      }
      if nodes[lineageB].parent.Some? {
        lineageB := nodes[lineageB].parent.value;
      }
      if nodes[lineageA].parent.None? && nodes[lineageB].parent.None? {
        break;
      }
      assert lineageA == Up(nodes, A0) && lineageB == Up(nodes, B0) && ancestry == visited0 + {A0, B0};
    }
  }

  /** A virus is its own common ancestor. */
  lemma CommonAncestorOfSelf(nodes: seq<VirusNode>, v: nat)
    requires WellFormed(nodes) && v < |nodes|
    ensures CommonAncestorOf(nodes, v, v) == Some(v)
  {
  }

  /** What the walk keeps true: every recorded node is an ancestor of `a` or of
   *  `b`; a recorded node that is not an ancestor of `b` lies on `a`'s path at
   *  or below the cursor `A`, and is the cursor only when `A` is stuck at a
   *  root (and symmetrically for `b`). */
  ghost predicate WalkInvariant(nodes: seq<VirusNode>, a: nat, b: nat, A: nat, B: nat, visited: set<nat>)
    requires WellFormed(nodes) && a < |nodes| && b < |nodes| && A < |nodes| && B < |nodes|
  {
    && IsAncestorOrSelf(nodes, A, a) && IsAncestorOrSelf(nodes, B, b)
    && (forall x :: x in visited ==> x < |nodes|)
    && (forall x :: x in visited && !IsAncestorOrSelf(nodes, x, b) ==>
          IsAncestorOrSelf(nodes, x, a) && A <= x && (x == A ==> IsRoot(nodes, A)))
    && (forall x :: x in visited && !IsAncestorOrSelf(nodes, x, a) ==>
          IsAncestorOrSelf(nodes, x, b) && B <= x && (x == B ==> IsRoot(nodes, B)))
  }

  /** What the walk can return: a common ancestor, or a root on one of the two
   *  paths (the second case happens when a cursor, stuck at its root, meets
   *  itself again before meeting the other path). */
  ghost predicate AcceptableAncestor(nodes: seq<VirusNode>, a: nat, b: nat, c: nat)
    requires WellFormed(nodes) && a < |nodes| && b < |nodes|
  {
    (IsAncestorOrSelf(nodes, c, a) && IsAncestorOrSelf(nodes, c, b))
    || (c < |nodes| && IsRoot(nodes, c) && (IsAncestorOrSelf(nodes, c, a) || IsAncestorOrSelf(nodes, c, b)))
  }

  lemma {:induction false} AncestorWalkResult(nodes: seq<VirusNode>, a: nat, b: nat, A: nat, B: nat, visited: set<nat>)
    requires WellFormed(nodes) && a < |nodes| && b < |nodes| && A < |nodes| && B < |nodes|
    requires WalkInvariant(nodes, a, b, A, B, visited)
    ensures AncestorWalk(nodes, A, B, visited).Some? ==>
      AcceptableAncestor(nodes, a, b, AncestorWalk(nodes, A, B, visited).value)
    decreases A + B
  {
    if A in visited {
      // A is on a's path; either on b's path too, or the stuck root of a's path.
    } else if B in visited + {A} {
      if B == A {
        assert IsAncestorOrSelf(nodes, A, a);
      }
    } else {
      var A', B' := Up(nodes, A), Up(nodes, B);
      if !(IsRoot(nodes, A') && IsRoot(nodes, B')) {
        var v' := visited + {A, B};
        AncestorTransitive(nodes, A', A, a);
        AncestorTransitive(nodes, B', B, b);
        forall x | x in v' && !IsAncestorOrSelf(nodes, x, b)
          ensures IsAncestorOrSelf(nodes, x, a) && A' <= x && (x == A' ==> IsRoot(nodes, A'))
        {
          if x == A {
          } else {
            assert x in visited;
          }
        }
        forall x | x in v' && !IsAncestorOrSelf(nodes, x, a)
          ensures IsAncestorOrSelf(nodes, x, b) && B' <= x && (x == B' ==> IsRoot(nodes, B'))
        {
          if x != B && x != A {
            assert x in visited;
          }
        }
        AncestorWalkResult(nodes, a, b, A', B', v');
      }
    }
  }

  /** A non-null result of commonAncestor is always on the path of `a` or of
   *  `b` to the root, and it is a common ancestor unless it is a root. */
  lemma CommonAncestorIsOnAPath(nodes: seq<VirusNode>, a: nat, b: nat)
    requires WellFormed(nodes) && a < |nodes| && b < |nodes|
    ensures CommonAncestorOf(nodes, a, b).Some? ==>
      AcceptableAncestor(nodes, a, b, CommonAncestorOf(nodes, a, b).value)
  {
    AncestorWalkResult(nodes, a, b, a, b, {});
  }

  /** The arena used in the two examples below: 0 is a root, 1 its child, 2 a
   *  child of 1, and 3 a child of 2. */
  function ChainOfFour(p: Phenotype): seq<VirusNode>
  {
    [NewNode(None, p, 0.0, 0), NewNode(Some(0), p, 0.0, 0), NewNode(Some(1), p, 0.0, 0), NewNode(Some(2), p, 0.0, 0)]
  }

  /** The walk is not a search for the most recent common ancestor: for 1 and
   *  its grandchild 3 it returns the root 0, although 1 is itself a common
   *  ancestor; and for 1 and its parent 0 it returns null, although 0 is a
   *  common ancestor of both. */
  lemma CommonAncestorExamples(p: Phenotype)
    ensures WellFormed(ChainOfFour(p))
    ensures CommonAncestorOf(ChainOfFour(p), 1, 3) == Some(0)
    ensures IsAncestorOrSelf(ChainOfFour(p), 1, 3)
    ensures CommonAncestorOf(ChainOfFour(p), 1, 0) == None
    ensures IsAncestorOrSelf(ChainOfFour(p), 0, 1)
  {
    var nodes := ChainOfFour(p);
    assert AncestorWalk(nodes, 1, 3, {}) == AncestorWalk(nodes, 0, 2, {1, 3});
    assert AncestorWalk(nodes, 0, 2, {1, 3}) == AncestorWalk(nodes, 0, 1, {0, 1, 2, 3});
    assert IsAncestorOrSelf(nodes, 1, 2);
  }

  /** distance: the branch length from each virus back to the common ancestor
   *  returned by the walk, or 0 when there is none. */
  function Distance(nodes: seq<VirusNode>, a: nat, b: nat): (d: real)
    requires WellFormed(nodes) && a < |nodes| && b < |nodes|
    ensures CommonAncestorOf(nodes, a, b).None? ==> d == 0.0
    ensures CommonAncestorOf(nodes, a, b).Some? ==>
      exists c: nat :: c < |nodes| && AcceptableAncestor(nodes, a, b, c) && d == (nodes[a].birth - nodes[c].birth) + (nodes[b].birth - nodes[c].birth)
    ensures a == b ==> d == 0.0
  {
    CommonAncestorOfSelf(nodes, a);
    match CommonAncestorOf(nodes, a, b)
    case Some(c) =>
      CommonAncestorIsOnAPath(nodes, a, b);
      (nodes[a].birth - nodes[c].birth) + (nodes[b].birth - nodes[c].birth)
    case None => 0.0
  }

  /** Births never decrease from parent to child (the simulation clock only
   *  moves forward). */
  ghost predicate BirthsOrdered(nodes: seq<VirusNode>)
    requires WellFormed(nodes)
  {
    forall i :: 0 <= i < |nodes| && nodes[i].parent.Some? ==> nodes[nodes[i].parent.value].birth <= nodes[i].birth
  }

  lemma {:induction false} AncestorBornEarlier(nodes: seq<VirusNode>, x: nat, y: nat)
    requires WellFormed(nodes) && BirthsOrdered(nodes) && y < |nodes|
    requires IsAncestorOrSelf(nodes, x, y)
    ensures x < |nodes| && nodes[x].birth <= nodes[y].birth
    decreases y
  {
    if x != y {
      AncestorBornEarlier(nodes, x, nodes[y].parent.value);
    }
  }

  /** Every virus descends from virus 0: the arena holds a single tree, as
   *  it does when everything descends from the ur-virus. */
  predicate SingleRooted(nodes: seq<VirusNode>)
  {
    forall i :: 0 <= i < |nodes| && nodes[i].parent.None? ==> i == 0
  }

  lemma {:induction false} RootIsAncestorOfAll(nodes: seq<VirusNode>, y: nat)
    requires WellFormed(nodes) && SingleRooted(nodes) && y < |nodes|
    ensures IsAncestorOrSelf(nodes, 0, y)
    decreases y
  {
    if nodes[y].parent.Some? {
      RootIsAncestorOfAll(nodes, nodes[y].parent.value);
    }
  }

  /** In a single tree the walk's answer, when there is one, is a common
   *  ancestor of both viruses. */
  lemma CommonAncestorInOneTree(nodes: seq<VirusNode>, a: nat, b: nat)
    requires WellFormed(nodes) && SingleRooted(nodes) && a < |nodes| && b < |nodes|
    ensures CommonAncestorOf(nodes, a, b).Some? ==>
      var c := CommonAncestorOf(nodes, a, b).value;
      IsAncestorOrSelf(nodes, c, a) && IsAncestorOrSelf(nodes, c, b)
  {
    CommonAncestorIsOnAPath(nodes, a, b);
    RootIsAncestorOfAll(nodes, a);
    RootIsAncestorOfAll(nodes, b);
  }

  /** In a single tree with ordered births, distance is never negative. */
  lemma DistanceNonNegative(nodes: seq<VirusNode>, a: nat, b: nat)
    requires WellFormed(nodes) && SingleRooted(nodes) && BirthsOrdered(nodes) && a < |nodes| && b < |nodes|
    ensures Distance(nodes, a, b) >= 0.0
  {
    var r := CommonAncestorOf(nodes, a, b);
    if r.Some? {
      CommonAncestorInOneTree(nodes, a, b);
      AncestorBornEarlier(nodes, r.value, a);
      AncestorBornEarlier(nodes, r.value, b);
    }
  }

  // ---------------------------------------------------------------------
  // coalescence: collect a's ancestors born within the window, then climb
  // from b within the window looking for one of them.

  /** The ancestors recorded by the first walk, from cursor `A` whose birth is
   *  `time`, while `time` is inside the window. */
  function CollectAncestors(nodes: seq<VirusNode>, A: nat, start: real, window: real, time: real, acc: set<nat>): set<nat>
    requires WellFormed(nodes) && A < |nodes|
    decreases A
  {
    if time > start - window && nodes[A].parent.Some? then
      var p := nodes[A].parent.value;
      CollectAncestors(nodes, p, start, window, nodes[p].birth, acc + {p})
    else acc
  }

  /** The second walk: 1.0 as soon as a parent is already recorded, 0.0 when
   *  the window closes or a root is reached. */
  function SearchAncestors(nodes: seq<VirusNode>, B: nat, start: real, window: real, time: real, acc: set<nat>): (r: real)
    requires WellFormed(nodes) && B < |nodes|
    ensures r == 0.0 || r == 1.0
    decreases B
  {
    if time > start - window && nodes[B].parent.Some? then
      var p := nodes[B].parent.value;
      if p in acc then 1.0
      else SearchAncestors(nodes, p, start, window, nodes[p].birth, acc + {p})
    else 0.0
  }

  /** What coalescence returns for viruses `a` and `b` and a window in years. */
  function CoalescenceOf(nodes: seq<VirusNode>, a: nat, b: nat, window: real): real
    requires WellFormed(nodes) && a < |nodes| && b < |nodes|
  {
    var ancestry := CollectAncestors(nodes, a, nodes[a].birth, window, nodes[a].birth, {});
    SearchAncestors(nodes, b, nodes[b].birth, window, nodes[b].birth, ancestry)
  }

  /** coalescence, with its two loops over one HashSet. */
  method Coalescence(nodes: seq<VirusNode>, a: nat, b: nat, windowTime: real) returns (success: real)
    requires WellFormed(nodes) && a < |nodes| && b < |nodes|
    ensures success == CoalescenceOf(nodes, a, b, windowTime)
    ensures success == 0.0 || success == 1.0
  {
    var lineageA: nat, lineageB: nat := a, b;
    var ancestry: set<nat> := {};
    success := 0.0;
    var startTime := nodes[lineageA].birth;
    var time := startTime;
    while time > startTime - windowTime
      invariant lineageA < |nodes|
      invariant CollectAncestors(nodes, lineageA, startTime, windowTime, time, ancestry)
             == CollectAncestors(nodes, a, startTime, windowTime, startTime, {})
      decreases lineageA
    {
      if nodes[lineageA].parent.Some? {
        lineageA := nodes[lineageA].parent.value;
        time := nodes[lineageA].birth;
        ancestry := ancestry + {lineageA};
      } else {
        break;
      }
    }
    ghost var collected := ancestry;
    assert collected == CollectAncestors(nodes, a, startTime, windowTime, startTime, {});
    startTime := nodes[lineageB].birth;
    time := startTime;
    while time > startTime - windowTime
      invariant lineageB < |nodes|
      invariant SearchAncestors(nodes, lineageB, startTime, windowTime, time, ancestry)
             == CoalescenceOf(nodes, a, b, windowTime)
      decreases lineageB
    {
      if nodes[lineageB].parent.Some? {
        lineageB := nodes[lineageB].parent.value;
        time := nodes[lineageB].birth;
        if lineageB in ancestry {
          success := 1.0;
          break;
        }
        ancestry := ancestry + {lineageB};
      } else {
        break;
      }
    }
  }

  lemma {:induction false} CollectedAreAncestors(nodes: seq<VirusNode>, a: nat, A: nat, start: real, window: real, time: real, acc: set<nat>)
    requires WellFormed(nodes) && a < |nodes| && A < |nodes|
    requires IsAncestorOrSelf(nodes, A, a)
    requires forall x :: x in acc ==> x < |nodes| && IsProperAncestor(nodes, x, a)
    ensures forall x :: x in CollectAncestors(nodes, A, start, window, time, acc) ==>
      x < |nodes| && IsProperAncestor(nodes, x, a)
    decreases A
  {
    if time > start - window && nodes[A].parent.Some? {
      var p := nodes[A].parent.value;
      assert IsAncestorOrSelf(nodes, p, A);
      AncestorTransitive(nodes, p, A, a);
      if A == a {
        assert IsProperAncestor(nodes, p, a);
      } else {
        AncestorIsEarlier(nodes, A, a);
        ProperFromAncestor(nodes, p, a);
      }
      CollectedAreAncestors(nodes, a, p, start, window, nodes[p].birth, acc + {p});
    }
  }

  /** An ancestor other than the virus itself is a proper ancestor. */
  lemma ProperFromAncestor(nodes: seq<VirusNode>, x: nat, y: nat)
    requires WellFormed(nodes) && y < |nodes|
    requires IsAncestorOrSelf(nodes, x, y) && x != y
    ensures IsProperAncestor(nodes, x, y)
  {
  }

  lemma {:induction false} SearchFindsAncestor(nodes: seq<VirusNode>, B: nat, start: real, window: real, time: real, acc: set<nat>)
    requires WellFormed(nodes) && B < |nodes|
    ensures SearchAncestors(nodes, B, start, window, time, acc) == 1.0 ==>
      exists x :: x in acc && IsProperAncestor(nodes, x, B)
    decreases B
  {
    if time > start - window && nodes[B].parent.Some? {
      var p := nodes[B].parent.value;
      if p !in acc {
        SearchFindsAncestor(nodes, p, start, window, nodes[p].birth, acc + {p});
        if SearchAncestors(nodes, p, start, window, nodes[p].birth, acc + {p}) == 1.0 {
          var x :| x in acc + {p} && IsProperAncestor(nodes, x, p);
          AncestorIsEarlier(nodes, x, nodes[p].parent.value);
          assert x != p;
          assert IsAncestorOrSelf(nodes, p, p);
          AncestorTransitive(nodes, x, nodes[p].parent.value, p);
          assert IsAncestorOrSelf(nodes, x, p);
          assert x in acc && IsProperAncestor(nodes, x, B);
        }
      } else {
        assert IsProperAncestor(nodes, p, B);
      }
    }
  }

  /** coalescence reports 1.0 only for a genuine coalescence: some proper
   *  ancestor of `a` is also a proper ancestor of `b`. */
  lemma CoalescenceMeansSharedAncestor(nodes: seq<VirusNode>, a: nat, b: nat, window: real)
    requires WellFormed(nodes) && a < |nodes| && b < |nodes|
    ensures CoalescenceOf(nodes, a, b, window) == 1.0 ==>
      exists x :: IsProperAncestor(nodes, x, a) && IsProperAncestor(nodes, x, b)
  {
    var start := nodes[a].birth;
    CollectedAreAncestors(nodes, a, a, start, window, start, {});
    SearchFindsAncestor(nodes, b, nodes[b].birth, window, nodes[b].birth,
      CollectAncestors(nodes, a, start, window, start, {}));
  }

  /** `x` is a proper ancestor of `v` that a window walk from `v` reaches:
   *  every virus on the lineage from `v` up to, but not including, `x` was
   *  born after `start - window`. */
  ghost predicate InWindow(nodes: seq<VirusNode>, v: nat, x: nat, start: real, window: real)
    requires WellFormed(nodes) && v < |nodes|
  {
    && IsProperAncestor(nodes, x, v)
    && forall y: nat :: y < |nodes| && IsAncestorOrSelf(nodes, y, v) && IsProperAncestor(nodes, x, y) ==>
         nodes[y].birth > start - window
  }

  /** Some virus of `acc` is reached by the window walk from `v`. */
  ghost predicate MeetsWindow(nodes: seq<VirusNode>, v: nat, start: real, window: real, acc: set<nat>)
    requires WellFormed(nodes) && v < |nodes|
  {
    exists x :: x in acc && InWindow(nodes, v, x, start, window)
  }

  /** One step of a window walk: from `A`, born inside the window, the walk
   *  reaches the parent and whatever the walk from the parent reaches. */
  lemma WindowStep(nodes: seq<VirusNode>, A: nat, x: nat, start: real, window: real)
    requires WellFormed(nodes) && A < |nodes| && nodes[A].parent.Some?
    requires nodes[A].birth > start - window
    ensures InWindow(nodes, A, x, start, window) <==>
      x == nodes[A].parent.value || InWindow(nodes, nodes[A].parent.value, x, start, window)
  {
    var p := nodes[A].parent.value;
    if x == p {
      forall y: nat | y < |nodes| && IsAncestorOrSelf(nodes, y, A) && IsProperAncestor(nodes, p, y)
        ensures y == A
      {
        if y != A {
          AncestorIsEarlier(nodes, y, p);
          AncestorIsEarlier(nodes, p, nodes[y].parent.value);
        }
      }
    } else if InWindow(nodes, p, x, start, window) {
      forall y: nat | y < |nodes| && IsAncestorOrSelf(nodes, y, A) && IsProperAncestor(nodes, x, y)
        ensures nodes[y].birth > start - window
      {
        if y != A {
          assert IsAncestorOrSelf(nodes, y, p);
        }
      }
    } else if InWindow(nodes, A, x, start, window) {
      forall y: nat | y < |nodes| && IsAncestorOrSelf(nodes, y, p) && IsProperAncestor(nodes, x, y)
        ensures nodes[y].birth > start - window
      {
        assert IsAncestorOrSelf(nodes, y, A);
      }
      assert InWindow(nodes, p, x, start, window);
    }
  }

  /** A walk from a virus born outside the window, or from a root, reaches
   *  nothing. */
  lemma WindowClosed(nodes: seq<VirusNode>, A: nat, x: nat, start: real, window: real)
    requires WellFormed(nodes) && A < |nodes|
    requires nodes[A].parent.None? || nodes[A].birth <= start - window
    ensures !InWindow(nodes, A, x, start, window)
  {
    if InWindow(nodes, A, x, start, window) {
      assert IsAncestorOrSelf(nodes, A, A);
    }
  }

  /** The first walk of coalescence records exactly the viruses its window
   *  walk reaches. */
  lemma {:induction false} CollectIsWindow(nodes: seq<VirusNode>, A: nat, x: nat, start: real, window: real, acc: set<nat>)
    requires WellFormed(nodes) && A < |nodes|
    ensures x in CollectAncestors(nodes, A, start, window, nodes[A].birth, acc) <==>
      x in acc || InWindow(nodes, A, x, start, window)
    decreases A
  {
    if nodes[A].birth > start - window && nodes[A].parent.Some? {
      var p := nodes[A].parent.value;
      CollectIsWindow(nodes, p, x, start, window, acc + {p});
      WindowStep(nodes, A, x, start, window);
    } else {
      WindowClosed(nodes, A, x, start, window);
    }
  }

  /** The second walk of coalescence succeeds exactly when its window walk
   *  reaches a recorded virus. */
  lemma {:induction false} SearchIsWindow(nodes: seq<VirusNode>, B: nat, start: real, window: real, acc: set<nat>)
    requires WellFormed(nodes) && B < |nodes|
    ensures SearchAncestors(nodes, B, start, window, nodes[B].birth, acc) == 1.0 <==>
      MeetsWindow(nodes, B, start, window, acc)
    decreases B
  {
    if nodes[B].birth > start - window && nodes[B].parent.Some? {
      var p := nodes[B].parent.value;
      if p in acc {
        WindowStep(nodes, B, p, start, window);
      } else {
        SearchIsWindow(nodes, p, start, window, acc + {p});
        if MeetsWindow(nodes, p, start, window, acc + {p}) {
          var x :| x in acc + {p} && InWindow(nodes, p, x, start, window);
          if x == p {
            AncestorIsEarlier(nodes, p, nodes[p].parent.value);
          }
          WindowStep(nodes, B, x, start, window);
        }
        if MeetsWindow(nodes, B, start, window, acc) {
          var x :| x in acc && InWindow(nodes, B, x, start, window);
          WindowStep(nodes, B, x, start, window);
        }
      }
    }
  }

  /** coalescence reports 1.0 exactly when the two window walks meet: some
   *  ancestor is reached both from `a` within its window and from `b`
   *  within its window, each window reaching back from the virus's own
   *  birth; otherwise it reports 0.0. */
  lemma CoalescenceExactly(nodes: seq<VirusNode>, a: nat, b: nat, window: real)
    requires WellFormed(nodes) && a < |nodes| && b < |nodes|
    ensures CoalescenceOf(nodes, a, b, window) == 1.0 <==>
      exists x :: InWindow(nodes, a, x, nodes[a].birth, window) && InWindow(nodes, b, x, nodes[b].birth, window)
    ensures CoalescenceOf(nodes, a, b, window) != 1.0 ==> CoalescenceOf(nodes, a, b, window) == 0.0
  {
    var ancestry := CollectAncestors(nodes, a, nodes[a].birth, window, nodes[a].birth, {});
    forall x
      ensures x in ancestry <==> InWindow(nodes, a, x, nodes[a].birth, window)
    {
      CollectIsWindow(nodes, a, x, nodes[a].birth, window, {});
    }
    SearchIsWindow(nodes, b, nodes[b].birth, window, ancestry);
  }

  /** No coalescence is reported for a virus without a parent, on either side. */
  lemma CoalescenceOfRoot(nodes: seq<VirusNode>, a: nat, b: nat, window: real)
    requires WellFormed(nodes) && a < |nodes| && b < |nodes|
    requires IsRoot(nodes, a) || IsRoot(nodes, b)
    ensures CoalescenceOf(nodes, a, b, window) == 0.0
  {
    CoalescenceMeansSharedAncestor(nodes, a, b, window);
  }

  // ---------------------------------------------------------------------
  // Pure measurements.

  /** serialInterval: time from the parent's birth to this virus's birth; a
   *  virus without a parent has none (the source dereferences null). */
  function SerialInterval(nodes: seq<VirusNode>, v: nat): (r: real)
    requires WellFormed(nodes) && v < |nodes| && nodes[v].parent.Some?
    ensures nodes[nodes[v].parent.value].birth + r == nodes[v].birth
    ensures BirthsOrdered(nodes) ==> r >= 0.0
  {
    nodes[v].birth - nodes[nodes[v].parent.value].birth
  }

  /** antigenicDistance: the raw phenotype distance (the cross-immunity
   *  mapping of the phenotype is not applied here). */
  function AntigenicDistance(m: MathLib, nodes: seq<VirusNode>, a: nat, b: nat): (d: real)
    requires a < |nodes| && b < |nodes|
    ensures d == GeometricPhenotype.Distance(m, nodes[a].phenotype, nodes[b].phenotype)
    ensures Sound(m) ==> d >= 0.0
  {
    GeometricPhenotype.Distance(m, nodes[a].phenotype, nodes[b].phenotype)
  }

  /** antigenicDistance is symmetric and 0 for equal phenotypes. */
  lemma AntigenicDistanceProperties(m: MathLib, nodes: seq<VirusNode>, a: nat, b: nat)
    requires a < |nodes| && b < |nodes|
    ensures AntigenicDistance(m, nodes, a, b) == AntigenicDistance(m, nodes, b, a)
    ensures Sound(m) && nodes[a].phenotype == nodes[b].phenotype ==> AntigenicDistance(m, nodes, a, b) == 0.0
  {
    GeometricPhenotype.DistanceSymmetric(m, nodes[a].phenotype, nodes[b].phenotype);
    if Sound(m) {
      GeometricPhenotype.DistanceToSelf(m, nodes[a].phenotype);
    }
  }

  /** isTip: no children recorded. */
  predicate IsTip(v: VirusNode): (r: bool)
    ensures r <==> forall c :: c !in v.children
  {
    assert |v.children| > 0 ==> v.children[0] in v.children;
    |v.children| == 0
  }

  /** A new virus is a tip, and a virus given a child by addChild is not. */
  lemma TipUntilChildAdded(v: VirusNode, c: nat, parent: Option<nat>, p: Phenotype, birth: real, deme: int)
    ensures IsTip(NewNode(parent, p, birth, deme))
    ensures !IsTip(v.(children := WithChild(v.children, c)))
  {
  }

  /** The child list after addChild: unchanged when the child is present. */
  function WithChild(children: seq<nat>, c: nat): (r: seq<nat>)
    ensures NoDuplicates(children) ==> NoDuplicates(r)
    ensures c in r && (forall x :: x in children ==> x in r)
    ensures forall x :: x in r ==> x in children || x == c
    ensures c in children ==> r == children
  {
    if c in children then children else children + [c]
  }

  /** Adding the same child twice is the same as adding it once. */
  lemma WithChildIdempotent(children: seq<nat>, c: nat)
    ensures WithChild(WithChild(children, c), c) == WithChild(children, c)
  {
  }

  /** The parent of virus `i`, none beyond the arena. */
  function ParentAt(nodes: seq<VirusNode>, i: nat): Option<nat>
  {
    if i < |nodes| then nodes[i].parent else None
  }

  /** The arena only grows, and no virus changes its parent. */
  predicate ParentsKept(before: seq<VirusNode>, after: seq<VirusNode>)
  {
    |before| <= |after| && forall i: nat {:trigger ParentAt(after, i)} :: i < |before| ==> ParentAt(after, i) == ParentAt(before, i)
  }

  lemma ParentsKeptTransitive(a: seq<VirusNode>, b: seq<VirusNode>, c: seq<VirusNode>)
    requires ParentsKept(a, b) && ParentsKept(b, c)
    ensures ParentsKept(a, c)
  {
  }

  /** Extending the arena keeps every parent link. */
  lemma ParentsKeptPrefix(a: seq<VirusNode>, b: seq<VirusNode>)
    requires |a| <= |b| && b[..|a|] == a
    ensures ParentsKept(a, b)
  {
    forall i: nat | i < |a|
      ensures ParentAt(b, i) == ParentAt(a, i)
    {
      assert b[..|a|][i] == b[i];
    }
  }

  /** Appending nodes keeps every parent link. */
  lemma ParentsKeptAppend(a: seq<VirusNode>, v: VirusNode)
    ensures ParentsKept(a, a + [v])
  {
    forall i: nat | i < |a|
      ensures ParentAt(a + [v], i) == ParentAt(a, i)
    {
      assert (a + [v])[i] == a[i];
    }
  }

  /** Replacing a virus by one with the same parent keeps every parent link. */
  lemma ParentsKeptUpdate(a: seq<VirusNode>, i: nat, v: VirusNode)
    requires i < |a| && v.parent == a[i].parent
    ensures ParentsKept(a, a[i := v])
  {
    forall j: nat | j < |a|
      ensures ParentAt(a[i := v], j) == ParentAt(a, j)
    {
    }
  }

  function PhenotypeAt(nodes: seq<VirusNode>, i: nat): Option<Phenotype>
  {
    if i < |nodes| then Some(nodes[i].phenotype) else None
  }

  /** The arena only grows, and no virus changes its phenotype: a mutation
   *  does not reach other viruses' phenotypes through a shared reference. */
  predicate PhenotypesKept(before: seq<VirusNode>, after: seq<VirusNode>)
  {
    |before| <= |after| && forall i: nat {:trigger PhenotypeAt(after, i)} :: i < |before| ==> PhenotypeAt(after, i) == PhenotypeAt(before, i)
  }

  /** Virus `c` is a child of an earlier virus and carries that virus's
   *  phenotype mutated with `draw`. */
  predicate MutantAt(nodes: seq<VirusNode>, c: nat, m: MathLib, mp: GeometricPhenotype.MutationParams,
                     draw: GeometricPhenotype.MutationDraw)
    requires GeometricPhenotype.ValidMutation(mp)
  {
    && c < |nodes| && nodes[c].parent.Some? && nodes[c].parent.value < c
    && nodes[c].phenotype == GeometricPhenotype.Mutate(m, mp, nodes[nodes[c].parent.value].phenotype,
                                                       draw.uniformAngle, draw.heads, draw.gammaSample)
  }

  /** `after` is `before` with one mutated child appended per draw, in draw
   *  order; every earlier virus keeps its parent and its phenotype. */
  predicate MutatedFrom(before: seq<VirusNode>, after: seq<VirusNode>, m: MathLib,
                        mp: GeometricPhenotype.MutationParams, draws: seq<GeometricPhenotype.MutationDraw>)
    requires GeometricPhenotype.ValidMutation(mp)
  {
    && |after| == |before| + |draws|
    && ParentsKept(before, after) && PhenotypesKept(before, after)
    && forall j :: 0 <= j < |draws| ==> MutantAt(after, |before| + j, m, mp, draws[j])
  }

  /** Host.mutate's effect on the arena: the virus `v` loses one shedding
   *  host, and its mutated child, born at `date` in `v`'s deme, gains it. */
  function WithMutant(nodes: seq<VirusNode>, v: nat, m: MathLib, mp: GeometricPhenotype.MutationParams,
                      draw: GeometricPhenotype.MutationDraw, date: real): (r: seq<VirusNode>)
    requires v < |nodes| && GeometricPhenotype.ValidMutation(mp)
    ensures MutatedFrom(nodes, r, m, mp, [draw]) && r[|nodes|].parent == Some(v)
    ensures forall i :: 0 <= i < |nodes| && i != v ==> r[i] == nodes[i]
    ensures r[v].numHostsShedding == nodes[v].numHostsShedding - 1 && r[|nodes|].numHostsShedding == 1
  {
    var r := nodes[v := nodes[v].(numHostsShedding := nodes[v].numHostsShedding - 1)]
      + [NewNode(Some(v), GeometricPhenotype.Mutate(m, mp, nodes[v].phenotype, draw.uniformAngle, draw.heads, draw.gammaSample),
                 date, nodes[v].deme).(numHostsShedding := 1)];
    assert ParentsKept(nodes, r) by {
      forall i: nat | i < |nodes|
        ensures ParentAt(r, i) == ParentAt(nodes, i)
      {
      }
    }
    assert PhenotypesKept(nodes, r) by {
      forall i: nat | i < |nodes|
        ensures PhenotypeAt(r, i) == PhenotypeAt(nodes, i)
      {
      }
    }
    assert MutantAt(r, |nodes| + 0, m, mp, [draw][0]);
    r
  }

  /** One more mutation after a run of them extends the run: the earlier
   *  mutants keep their phenotypes, and so do their parents. */
  lemma MutatedFromStep(a: seq<VirusNode>, b: seq<VirusNode>, c: seq<VirusNode>, m: MathLib,
                        mp: GeometricPhenotype.MutationParams, all: seq<GeometricPhenotype.MutationDraw>, i: nat)
    requires GeometricPhenotype.ValidMutation(mp) && i < |all|
    requires MutatedFrom(a, b, m, mp, all[..i]) && MutatedFrom(b, c, m, mp, [all[i]])
    ensures MutatedFrom(a, c, m, mp, all[..i + 1])
  {
    assert all[..i + 1] == all[..i] + [all[i]];
    MutatedFromSnoc(a, b, c, m, mp, all[..i], all[i]);
  }

  lemma MutatedFromSnoc(a: seq<VirusNode>, b: seq<VirusNode>, c: seq<VirusNode>, m: MathLib,
                        mp: GeometricPhenotype.MutationParams, draws: seq<GeometricPhenotype.MutationDraw>,
                        draw: GeometricPhenotype.MutationDraw)
    requires GeometricPhenotype.ValidMutation(mp)
    requires MutatedFrom(a, b, m, mp, draws) && MutatedFrom(b, c, m, mp, [draw])
    ensures MutatedFrom(a, c, m, mp, draws + [draw])
  {
    ParentsKeptTransitive(a, b, c);
    forall i: nat | i < |a|
      ensures PhenotypeAt(c, i) == PhenotypeAt(a, i)
    {
      assert PhenotypeAt(c, i) == PhenotypeAt(b, i);
    }
    forall j | 0 <= j < |draws| + 1
      ensures MutantAt(c, |a| + j, m, mp, (draws + [draw])[j])
    {
      if j < |draws| {
        var k := |a| + j;
        assert MutantAt(b, k, m, mp, draws[j]);
        var p := b[k].parent.value;
        assert ParentAt(c, k) == ParentAt(b, k);
        assert PhenotypeAt(c, k) == PhenotypeAt(b, k);
        assert PhenotypeAt(c, p) == PhenotypeAt(b, p);
      } else {
        assert MutantAt(c, |b| + 0, m, mp, [draw][0]);
      }
    }
  }

  /** No mutation leaves the arena as it was. */
  lemma MutatedFromNone(a: seq<VirusNode>, m: MathLib, mp: GeometricPhenotype.MutationParams)
    requires GeometricPhenotype.ValidMutation(mp)
    ensures MutatedFrom(a, a, m, mp, [])
  {
    assert ParentsKept(a, a) by {
      forall i: nat | i < |a|
        ensures ParentAt(a, i) == ParentAt(a, i)
      {
      }
    }
    assert PhenotypesKept(a, a) by {
      forall i: nat | i < |a|
        ensures PhenotypeAt(a, i) == PhenotypeAt(a, i)
      {
      }
    }
  }

  // ---------------------------------------------------------------------
  // The arena of all viruses.

  class Arena {
    var nodes: seq<VirusNode>

    ghost predicate Valid()
      reads this
    {
      WellFormed(nodes)
    }

    constructor ()
      ensures Valid() && nodes == []
    {
      nodes := [];
    }

    /** Virus(): the ur-virus, with the phenotype drawn by the phenotype
     *  factory, born now, in deme 0, without a parent. */
    method NewUrVirus(phenotype: Phenotype, date: real) returns (id: nat)
      requires Valid()
      modifies this
      ensures Valid() && id == |old(nodes)|
      ensures nodes == old(nodes) + [NewNode(None, phenotype, date, 0)]
    {
      id := |nodes|;
      nodes := nodes + [NewNode(None, phenotype, date, 0)];
    }

    /** Virus(v, d): a copy of `v` in deme `d` that remembers `v` as parent and
     *  shares its phenotype. */
    method Replicate(v: nat, d: int, date: real) returns (id: nat)
      requires Valid() && v < |nodes|
      modifies this
      ensures Valid() && id == |old(nodes)|
      ensures nodes == old(nodes) + [NewNode(Some(v), old(nodes)[v].phenotype, date, d)]
    {
      id := |nodes|;
      nodes := nodes + [NewNode(Some(v), nodes[v].phenotype, date, d)];
    }

    /** Virus(v, d, p): a child of `v` in deme `d` with phenotype `p`. */
    method ReplicateWith(v: nat, d: int, p: Phenotype, date: real) returns (id: nat)
      requires Valid() && v < |nodes|
      modifies this
      ensures Valid() && id == |old(nodes)|
      ensures nodes == old(nodes) + [NewNode(Some(v), p, date, d)]
    {
      id := |nodes|;
      nodes := nodes + [NewNode(Some(v), p, date, d)];
    }

    /** Virus(d, p): a parentless virus in deme `d` with phenotype `p`. */
    method NewRoot(d: int, p: Phenotype, date: real) returns (id: nat)
      requires Valid()
      modifies this
      ensures Valid() && id == |old(nodes)|
      ensures nodes == old(nodes) + [NewNode(None, p, date, d)]
    {
      id := |nodes|;
      nodes := nodes + [NewNode(None, p, date, d)];
    }

    /** mutate: a new child of `v` in `v`'s deme carrying the mutated
     *  phenotype; `v` and every other virus are left as they were. */
    method Mutate(v: nat, m: MathLib, mp: GeometricPhenotype.MutationParams,
                  draw: GeometricPhenotype.MutationDraw, date: real) returns (id: nat)
      requires Valid() && v < |nodes| && GeometricPhenotype.ValidMutation(mp)
      modifies this
      ensures Valid() && id == |old(nodes)|
      ensures nodes == old(nodes) + [NewNode(Some(v),
        GeometricPhenotype.Mutate(m, mp, old(nodes)[v].phenotype, draw.uniformAngle, draw.heads, draw.gammaSample),
        date, old(nodes)[v].deme)]
    {
      var mutP := GeometricPhenotype.Mutate(m, mp, nodes[v].phenotype, draw.uniformAngle, draw.heads, draw.gammaSample);
      id := ReplicateWith(v, nodes[v].deme, mutP, date);
    }

    /** makeTrunk: set the trunk mark of `v`. */
    method MakeTrunk(v: nat)
      requires Valid() && v < |nodes|
      modifies this
      ensures Valid()
      ensures nodes == old(nodes)[v := old(nodes)[v].(trunk := true)]
    {
      nodes := nodes[v := nodes[v].(trunk := true)];
    }

    /** addChild: record `c` as a child of `v` unless it is already there. */
    method AddChild(v: nat, c: nat)
      requires Valid() && v < |nodes| && c < |nodes|
      modifies this
      ensures Valid()
      ensures nodes == old(nodes)[v := old(nodes)[v].(children := WithChild(old(nodes)[v].children, c))]
    {
      if c !in nodes[v].children {
        nodes := nodes[v := nodes[v].(children := nodes[v].children + [c])];
      }
    }

    /** hostInfected: one more host sheds `v`. */
    method HostInfected(v: nat)
      requires Valid() && v < |nodes|
      modifies this
      ensures Valid()
      ensures nodes == old(nodes)[v := old(nodes)[v].(numHostsShedding := old(nodes)[v].numHostsShedding + 1)]
    {
      nodes := nodes[v := nodes[v].(numHostsShedding := nodes[v].numHostsShedding + 1)];
    }

    /** hostRecovered: one host fewer sheds `v`. */
    method HostRecovered(v: nat)
      requires Valid() && v < |nodes|
      modifies this
      ensures Valid()
      ensures nodes == old(nodes)[v := old(nodes)[v].(numHostsShedding := old(nodes)[v].numHostsShedding - 1)]
    {
      nodes := nodes[v := nodes[v].(numHostsShedding := nodes[v].numHostsShedding - 1)];
    }

    /** setVolume: the environmental volume of `v`. */
    method SetVolume(v: nat, volume: real)
      requires Valid() && v < |nodes|
      modifies this
      ensures Valid()
      ensures nodes == old(nodes)[v := old(nodes)[v].(volume := volume)]
    {
      nodes := nodes[v := nodes[v].(volume := volume)];
    }
  }
}
