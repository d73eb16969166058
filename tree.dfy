/** The phylogenetic trees the analysis scripts read: every node has a branch
 *  length (`dist`) and an ordered list of children. */
module PhyloTrees {

  datatype Tree = Tree(dist: real, children: seq<Tree>)

  predicate IsLeaf(t: Tree)
  {
    |t.children| == 0
  }

  /** The leaves below `t` in depth-first order; a leaf is its own only leaf. */
  function Leaves(t: Tree): seq<Tree>
    decreases t, 1
  {
    if IsLeaf(t) then [t] else LeavesBelow(t, |t.children|)
  }

  /** The leaves of the first `n` children of `t`, in depth-first order. */
  function LeavesBelow(t: Tree, n: nat): seq<Tree>
    requires n <= |t.children|
    decreases t, 0, n
  {
    if n == 0 then [] else LeavesBelow(t, n - 1) + Leaves(t.children[n - 1])
  }

  /** Every node below `t` (not `t` itself), each before its own descendants. */
  function Descendants(t: Tree): seq<Tree>
    decreases t, 1
  {
    DescendantsBelow(t, |t.children|)
  }

  /** The descendants reached through the first `n` children of `t`. */
  function DescendantsBelow(t: Tree, n: nat): seq<Tree>
    requires n <= |t.children|
    decreases t, 0, n
  {
    if n == 0 then [] else DescendantsBelow(t, n - 1) + [t.children[n - 1]] + Descendants(t.children[n - 1])
  }

  /** Every tree has at least one leaf. */
  lemma {:induction false} LeavesNonEmpty(t: Tree)
    ensures |Leaves(t)| > 0
    decreases t, 1
  {
    if !IsLeaf(t) {
      LeavesBelowNonEmpty(t, |t.children|);
    }
  }

  /** A non-empty run of children has at least one leaf. */
  lemma {:induction false} LeavesBelowNonEmpty(t: Tree, n: nat)
    requires 0 < n <= |t.children|
    ensures |LeavesBelow(t, n)| > 0
    decreases t, 0, n
  {
    LeavesNonEmpty(t.children[n - 1]);
  }
}
