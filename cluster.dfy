/** Leaf clustering of a phylogenetic tree: the leaves are visited depth
 *  first and a new cluster is opened whenever the scaled distance from the
 *  previous leaf exceeds the cutoff. */
module Clustering {
  import opened Wrappers
  import opened PhyloTrees

  /** The clusters concatenated, in order. */
  function Flatten(cs: seq<seq<Tree>>): seq<Tree>
  {
    if |cs| == 0 then [] else Flatten(cs[..|cs| - 1]) + cs[|cs| - 1]
  }

  /** The cluster number (1-based) of every leaf of `cs`, in order. */
  function Labels(cs: seq<seq<Tree>>): seq<nat>
  {
    if |cs| == 0 then [] else Labels(cs[..|cs| - 1]) + seq(|cs[|cs| - 1]|, _ => |cs|)
  }

  /** The branch lengths of `c` divided by `scale`, summed. */
  function ScaledSum(c: seq<Tree>, scale: real): real
    requires scale != 0.0
  {
    if |c| == 0 then 0.0 else ScaledSum(c[..|c| - 1], scale) + c[|c| - 1].dist / scale
  }

  /** getAvg: 0 for an empty list, the mean otherwise. */
  function Avg(list: seq<real>): (r: real)
    ensures |list| == 0 ==> r == 0.0
    ensures |list| > 0 ==> r * (|list| as real) == SumReals(list)
  {
    if |list| > 0 then SumReals(list) / (|list| as real) else 0.0
  }

  lemma FlattenStep(cs: seq<seq<Tree>>, x: Tree)
    requires |cs| > 0
    ensures Flatten(cs[|cs| - 1 := cs[|cs| - 1] + [x]]) == Flatten(cs) + [x]
    ensures Labels(cs[|cs| - 1 := cs[|cs| - 1] + [x]]) == Labels(cs) + [|cs|]
  {
    var cs' := cs[|cs| - 1 := cs[|cs| - 1] + [x]];
    assert cs'[..|cs'| - 1] == cs[..|cs| - 1];
  }

  lemma FlattenOpen(cs: seq<seq<Tree>>)
    ensures Flatten(cs + [[]]) == Flatten(cs)
    ensures Labels(cs + [[]]) == Labels(cs)
  {
    assert (cs + [[]])[..|cs|] == cs;
  }

  /** What the walk has built so far: the clusters, the inter- and
   *  intra-cluster distances, the cluster number of each leaf visited and
   *  the scaled distance to the previous leaf seen at each leaf. */
  datatype Progress = Progress(clusters: seq<seq<Tree>>, inter: seq<real>, intra: seq<real>,
                               ids: seq<nat>, gaps: seq<real>)

  /** One intra distance per cluster, one inter distance between
   *  neighbours, and only the last cluster possibly empty. */
  ghost predicate Sized(w: Progress)
  {
    && |w.clusters| >= 1
    && |w.inter| == |w.clusters| - 1 && |w.intra| == |w.clusters|
    && (forall k :: 0 <= k < |w.clusters| - 1 ==> |w.clusters[k]| > 0)
  }

  /** Every closed cluster's intra distance is its mean scaled branch
   *  length; the open one's is still the sum. */
  ghost predicate Averaged(w: Progress, treeDist: real)
    requires Sized(w) && treeDist != 0.0
  {
    && (forall k :: 0 <= k < |w.clusters| - 1 ==>
          w.intra[k] == ScaledSum(w.clusters[k], treeDist) / (|w.clusters[k]| as real))
    && w.intra[|w.clusters| - 1] == ScaledSum(w.clusters[|w.clusters| - 1], treeDist)
  }

  /** Leaves are numbered by their cluster; the number goes up by one at a
   *  leaf exactly when its gap exceeds the cutoff, that gap being the inter
   *  distance recorded in front of the new cluster. */
  ghost predicate Numbered(w: Progress, cutoff: real)
    requires Sized(w)
  {
    && w.ids == Labels(w.clusters)
    && |w.gaps| == |w.ids|
    && (|w.ids| > 0 ==> w.ids[0] == 1 && w.ids[|w.ids| - 1] == |w.clusters|)
    && (|w.ids| == 0 ==> |w.clusters| == 1)
    && (forall p :: 0 < p < |w.ids| ==> w.ids[p] == w.ids[p - 1] + (if w.gaps[p] > cutoff then 1 else 0))
    && (forall p :: 0 < p < |w.ids| && w.gaps[p] > cutoff ==>
          2 <= w.ids[p] <= |w.inter| + 1 && w.inter[w.ids[p] - 2] == w.gaps[p])
  }

  ghost predicate Shaped(w: Progress, cutoff: real, treeDist: real)
  {
    && treeDist != 0.0
    && Sized(w)
    && (forall k :: 0 <= k < |w.inter| ==> w.inter[k] > cutoff)
    && Averaged(w, treeDist)
    && Numbered(w, cutoff)
  }

  /** The walk after one leaf: a new cluster first when the leaf is more
   *  than `cutoff` from the previous one and the current cluster has a
   *  leaf, then the leaf joins the current cluster. */
  ghost function AfterLeaf(w: Progress, node: Tree, gap: real, cutoff: real, treeDist: real): Progress
    requires Sized(w) && treeDist != 0.0
  {
    var last := |w.clusters| - 1;
    var open := gap > cutoff && |w.clusters[last]| > 0;
    var cs := if open then w.clusters + [[]] else w.clusters;
    var inter := if open then w.inter + [gap] else w.inter;
    var intra := if open then w.intra[last := w.intra[last] / (|w.clusters[last]| as real)] + [0.0] else w.intra;
    var n := |cs| - 1;
    Progress(cs[n := cs[n] + [node]], inter, intra[n := intra[n] + node.dist / treeDist],
             w.ids + [|cs|], w.gaps + [gap])
  }

  lemma ScaledSumStep(c: seq<Tree>, x: Tree, scale: real)
    requires scale != 0.0
    ensures ScaledSum(c + [x], scale) == ScaledSum(c, scale) + x.dist / scale
  {
    assert (c + [x])[..|c|] == c;
  }

  lemma SizedAfter(w: Progress, node: Tree, gap: real, cutoff: real, treeDist: real)
    requires Sized(w) && treeDist != 0.0
    ensures Sized(AfterLeaf(w, node, gap, cutoff, treeDist))
    ensures |AfterLeaf(w, node, gap, cutoff, treeDist).clusters[|w.clusters| - 1]| > 0
  {
  }

  lemma SpacedAfter(w: Progress, node: Tree, gap: real, cutoff: real, treeDist: real)
    requires Sized(w) && treeDist != 0.0
    requires forall k :: 0 <= k < |w.inter| ==> w.inter[k] > cutoff
    ensures var w' := AfterLeaf(w, node, gap, cutoff, treeDist);
      forall k :: 0 <= k < |w'.inter| ==> w'.inter[k] > cutoff
  {
  }

  lemma AveragedAfter(w: Progress, node: Tree, gap: real, cutoff: real, treeDist: real)
    requires Sized(w) && treeDist != 0.0 && Averaged(w, treeDist)
    ensures Sized(AfterLeaf(w, node, gap, cutoff, treeDist))
    ensures Averaged(AfterLeaf(w, node, gap, cutoff, treeDist), treeDist)
  {
    SizedAfter(w, node, gap, cutoff, treeDist);
    var w' := AfterLeaf(w, node, gap, cutoff, treeDist);
    var n := |w'.clusters| - 1;
    var c := if n == |w.clusters| - 1 then w.clusters[n] else [];
    assert w'.clusters[n] == c + [node];
    assert ScaledSum(c, treeDist) + node.dist / treeDist == w'.intra[n];
    ScaledSumStep(c, node, treeDist);
  }

  lemma LabelsAfter(w: Progress, node: Tree, gap: real, cutoff: real, treeDist: real)
    requires Shaped(w, cutoff, treeDist)
    ensures AfterLeaf(w, node, gap, cutoff, treeDist).ids == Labels(AfterLeaf(w, node, gap, cutoff, treeDist).clusters)
    ensures Flatten(AfterLeaf(w, node, gap, cutoff, treeDist).clusters) == Flatten(w.clusters) + [node]
  {
    var last := |w.clusters| - 1;
    var open := gap > cutoff && |w.clusters[last]| > 0;
    var cs := if open then w.clusters + [[]] else w.clusters;
    if open {
      FlattenOpen(w.clusters);
    }
    FlattenStep(cs, node);
  }

  lemma NumberedAfter(w: Progress, node: Tree, gap: real, cutoff: real, treeDist: real)
    requires Shaped(w, cutoff, treeDist)
    ensures Sized(AfterLeaf(w, node, gap, cutoff, treeDist))
    ensures Numbered(AfterLeaf(w, node, gap, cutoff, treeDist), cutoff)
    ensures Flatten(AfterLeaf(w, node, gap, cutoff, treeDist).clusters) == Flatten(w.clusters) + [node]
  {
    SizedAfter(w, node, gap, cutoff, treeDist);
    LabelsAfter(w, node, gap, cutoff, treeDist);
    var w' := AfterLeaf(w, node, gap, cutoff, treeDist);
    var last := |w.clusters| - 1;
    if |w.ids| == 0 {
      assert |w.clusters[last]| == 0;
    } else {
      LabelsShape(w.clusters);
      LastNonEmpty(w.clusters);
      assert w'.ids[|w.ids|] == w'.ids[|w.ids| - 1] + (if gap > cutoff then 1 else 0);
    }
  }

  /** A leaf keeps the walk's shape and is appended to the leaves clustered
   *  so far. */
  lemma LeafKeepsShape(w: Progress, node: Tree, gap: real, cutoff: real, treeDist: real)
    requires Shaped(w, cutoff, treeDist)
    ensures Shaped(AfterLeaf(w, node, gap, cutoff, treeDist), cutoff, treeDist)
    ensures Flatten(AfterLeaf(w, node, gap, cutoff, treeDist).clusters) == Flatten(w.clusters) + [node]
  {
    SpacedAfter(w, node, gap, cutoff, treeDist);
    AveragedAfter(w, node, gap, cutoff, treeDist);
    NumberedAfter(w, node, gap, cutoff, treeDist);
  }

  /** The state createClusters threads through its recursion: the clusters
   *  so far, the inter- and intra-cluster distances, the running distance
   *  to the previous leaf and the cluster number given to each leaf. */
  class Clusterer {
    const cutoff: real
    const treeDist: real
    var clusters: seq<seq<Tree>>
    var inter: seq<real>
    var intra: seq<real>
    var distToPrev: real
    /** node.clusterID of every leaf visited, in visiting order. */
    var ids: seq<nat>
    /** The scaled distance to the previous leaf seen at every leaf. */
    ghost var gaps: seq<real>

    ghost function State(): Progress
      reads this`clusters, this`inter, this`intra, this`ids, this`gaps
    {
      Progress(clusters, inter, intra, ids, gaps)
    }

    ghost predicate Valid()
      reads this`clusters, this`inter, this`intra, this`ids, this`gaps
    {
      Shaped(State(), cutoff, treeDist)
    }

    /** The state cluster() starts the recursion from. */
    constructor (cutoff: real, treeDist: real)
      requires treeDist != 0.0
      ensures Valid() && this.cutoff == cutoff && this.treeDist == treeDist
      ensures clusters == [[]] && inter == [] && intra == [0.0] && distToPrev == 0.0 && ids == []
    {
      this.cutoff, this.treeDist := cutoff, treeDist;
      clusters, inter, intra, distToPrev, ids := [[]], [], [0.0], 0.0, [];
      gaps := [];
    }

    /** The leaf case: open a new cluster when the leaf is too far from the
     *  previous one, then add the leaf to the current cluster and restart
     *  the distance from it. */
    method VisitLeaf(node: Tree)
      requires Valid()
      modifies this
      ensures State() == AfterLeaf(old(State()), node, old(distToPrev) / treeDist, cutoff, treeDist)
      ensures Valid()
      ensures Flatten(clusters) == old(Flatten(clusters)) + [node]
      ensures distToPrev == node.dist
    {
      ghost var w := State();
      LeafKeepsShape(w, node, distToPrev / treeDist, cutoff, treeDist);
      var gap := distToPrev / treeDist;
      var cs, inter', intra' := clusters, inter, intra;
      var last := |cs| - 1;
      if gap > cutoff && |cs[last]| > 0 {
        inter' := inter' + [gap];
        intra' := intra'[last := intra'[last] / (|cs[last]| as real)] + [0.0];
        cs := cs + [[]];
      }
      last := |cs| - 1;
      cs := cs[last := cs[last] + [node]];
      intra' := intra'[last := intra'[last] + node.dist / treeDist];
      assert Progress(cs, inter', intra', ids + [|cs|], gaps + [gap]) == AfterLeaf(w, node, gap, cutoff, treeDist);
      clusters, inter, intra, ids := cs, inter', intra', ids + [|cs|];
      gaps := gaps + [gap];
      distToPrev := node.dist;
    }

    /** createClusters: the depth-first walk; a node's branch length counts
     *  once on the way down and, for an inner node, once more on the way
     *  back up. */
    method CreateClusters(node: Tree)
      requires Valid()
      modifies this
      ensures Valid()
      ensures Flatten(clusters) == old(Flatten(clusters)) + Leaves(node)
      decreases node, 1
    {
      distToPrev := distToPrev + node.dist;
      if |node.children| > 0 {
        VisitChildren(node);
        distToPrev := distToPrev + node.dist;
      } else {
        VisitLeaf(node);
      }
    }

    /** The loop of createClusters over the children of an inner node. */
    method VisitChildren(node: Tree)
      requires Valid()
      modifies this
      ensures Valid()
      ensures Flatten(clusters) == old(Flatten(clusters)) + LeavesBelow(node, |node.children|)
      decreases node, 0
    {
      for i := 0 to |node.children|
        invariant Valid()
        invariant Flatten(clusters) == old(Flatten(clusters)) + LeavesBelow(node, i)
      {
        CreateClusters(node.children[i]);
      }
    }
  }

  /** What cluster() returns: the clusters, the inter- and intra-cluster
   *  distances, and the cluster number of each leaf. */
  datatype Clusters = Clusters(clusters: seq<seq<Tree>>, inter: seq<real>, intra: seq<real>, ids: seq<nat>)

  /** cluster: an empty result for a root without children; a division by
   *  zero (None) when the tree distance is 0 and there is a leaf to scale;
   *  otherwise the leaves, in depth-first order, split into non-empty
   *  clusters whose neighbours lie more than `cutoff` apart. */
  method Cluster(root: Tree, treeDist: real, cutoff: real) returns (r: Option<Clusters>)
    ensures IsLeaf(root) ==> r == Some(Clusters([], [], [], []))
    ensures r.None? <==> !IsLeaf(root) && treeDist == 0.0
    ensures r.Some? && !IsLeaf(root) ==>
      var c := r.value;
      && Flatten(c.clusters) == Leaves(root)
      && (forall k :: 0 <= k < |c.clusters| ==> |c.clusters[k]| > 0)
      && |c.inter| == |c.clusters| - 1 && |c.intra| == |c.clusters|
      && (forall k :: 0 <= k < |c.inter| ==> c.inter[k] > cutoff)
      && (forall k :: 0 <= k < |c.clusters| ==>
            c.intra[k] == ScaledSum(c.clusters[k], treeDist) / (|c.clusters[k]| as real))
      && c.ids == Labels(c.clusters)
  {
    if IsLeaf(root) {
      return Some(Clusters([], [], [], []));
    }
    if treeDist == 0.0 {
      return None;
    }
    var state := new Clusterer(cutoff, treeDist);
    state.CreateClusters(root);
    LeavesNonEmpty(root);
    assert Flatten(state.clusters) == Leaves(root);
    LabelsShape(state.clusters);
    var last := |state.clusters| - 1;
    LastNonEmpty(state.clusters);
    var intra := state.intra[last := state.intra[last] / (|state.clusters[last]| as real)];
    r := Some(Clusters(state.clusters, state.inter, intra, state.ids));
  }

  /** There is one label per clustered leaf, each the number of an existing
   *  cluster. */
  lemma {:induction false} LabelsShape(cs: seq<seq<Tree>>)
    ensures |Labels(cs)| == |Flatten(cs)|
    ensures forall p :: 0 <= p < |Labels(cs)| ==> 1 <= Labels(cs)[p] <= |cs|
  {
    if |cs| > 0 {
      LabelsShape(cs[..|cs| - 1]);
    }
  }

  /** When the last leaf carries the number of the last cluster, the last
   *  cluster is not empty. */
  lemma LastNonEmpty(cs: seq<seq<Tree>>)
    requires |cs| >= 1 && |Labels(cs)| > 0 && Labels(cs)[|Labels(cs)| - 1] == |cs|
    ensures |cs[|cs| - 1]| > 0
  {
    if |cs[|cs| - 1]| == 0 {
      LabelsShape(cs[..|cs| - 1]);
    }
  }
}
