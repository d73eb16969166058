/** Error metrics between a reference and a simulated phylogenetic tree: the
 *  absolute percentage error, the distribution of nodes by number of
 *  children and by height, and the averaged node-size error. */
module TreeComparison {
  import opened Wrappers
  import opened PhyloTrees

  /** Python's max of two numbers. */
  function Larger(a: real, b: real): real
  {
    if a >= b then a else b
  }

  function Abs(x: real): real
  {
    if x < 0.0 then -x else x
  }

  /** error: the absolute difference as a percentage of the larger value; 0
   *  when both are 0; None when the larger value is 0 otherwise, where
   *  Python raises ZeroDivisionError. */
  function Error(theor: real, exp: real): (r: Option<real>)
    ensures r.None? <==> Larger(theor, exp) == 0.0 && !(theor == 0.0 && exp == 0.0)
    ensures r.Some? && Larger(theor, exp) != 0.0 ==> r.value * Larger(theor, exp) == Abs(theor - exp) * 100.0
  {
    if theor == 0.0 && exp == 0.0 then Some(0.0)
    else if Larger(theor, exp) == 0.0 then None
    else Some(Abs(theor - exp) / Larger(theor, exp) * 100.0)
  }

  /** The error does not depend on which value is called theoretical. */
  lemma ErrorSymmetric(a: real, b: real)
    ensures Error(a, b) == Error(b, a)
  {
    assert Larger(a, b) == Larger(b, a);
    assert Abs(a - b) == Abs(b - a);
  }

  /** Between non-negative values the error is defined, lies in [0, 100],
   *  and is 0 exactly when the values agree. */
  lemma ErrorBounded(a: real, b: real)
    requires a >= 0.0 && b >= 0.0
    ensures Error(a, b).Some?
    ensures 0.0 <= Error(a, b).value <= 100.0
    ensures Error(a, b).value == 0.0 <==> a == b
  {
    if !(a == 0.0 && b == 0.0) {
      var m := Larger(a, b);
      var d := Abs(a - b);
      assert m > 0.0 && 0.0 <= d <= m;
      QuotientUnit(d, m);
    }
  }

  /** A part of a positive whole is a fraction in [0, 1], and 0 only for an
   *  empty part. */
  lemma QuotientUnit(d: real, m: real)
    requires m > 0.0 && 0.0 <= d <= m
    ensures 0.0 <= d / m <= 1.0
    ensures d / m == 0.0 <==> d == 0.0
  {
    var q := d / m;
    assert q * m == d;
    if q > 1.0 {
      MulPositive(q - 1.0, m);
    }
    if q < 0.0 {
      MulPositive(-q, m);
    }
  }

  lemma MulPositive(x: real, y: real)
    requires x > 0.0 && y > 0.0
    ensures x * y > 0.0
  {
  }

  // ---------------------------------------------------------------------
  // Frequencies of node keys (Counter semantics)
  // ---------------------------------------------------------------------

  /** The total the percentages are taken of: the number of nodes counted,
   *  or 1 when there are none. */
  function Total(n: nat): real
  {
    if n == 0 then 1.0 else n as real
  }

  /** The percentage one node stands for among `n`. */
  function Scale(n: nat): real
  {
    100.0 / Total(n)
  }

  /** The percentages of all `n` nodes make 100. */
  lemma ScaleOfAll(n: nat)
    ensures Scale(n) > 0.0 && Total(n) * Scale(n) == 100.0
  {
  }

  /** `count` nodes among `n`, as a percentage. */
  function Percent(count: nat, n: nat): real
  {
    count as real * Scale(n)
  }

  /** Python's float(count) / float(total) * 100.0 is that percentage. */
  lemma PercentOfTotal(count: nat, n: nat, total: real)
    requires total == Total(n)
    ensures count as real / total * 100.0 == Percent(count, n)
  {
    DivTimes(count as real, total, 100.0);
  }

  lemma DivTimes(x: real, t: real, k: real)
    requires t > 0.0
    ensures x / t * k == x * (k / t)
  {
  }

  lemma SumAsReal(x: nat, y: nat)
    ensures (x + y) as real == x as real + y as real
  {
  }

  lemma Distribute(a: real, c: real, s: real)
    ensures a * s + c * s == (a + c) * s
  {
  }

  lemma MulAtMost(b: real, t: real, s: real)
    requires b <= t && s >= 0.0
    ensures b * s <= t * s
  {
    if s > 0.0 && b < t {
      MulPositive(t - b, s);
    }
  }

  /** Counter lookup: a missing key reads as 0. */
  function Get(freqs: map<nat, real>, k: nat): real
  {
    if k in freqs then freqs[k] else 0.0
  }

  /** The keys the returned Counter holds: every key below `maxKey` and
   *  every key that occurs. */
  function Domain(keys: seq<nat>, maxKey: nat): set<nat>
  {
    Range(maxKey) + (set x | x in keys)
  }

  /** The naturals below `n`. */
  function Range(n: nat): (r: set<nat>)
    ensures forall k: nat :: k in r <==> k < n
  {
    if n == 0 then {} else Range(n - 1) + {n - 1}
  }

  /** What a Counter lookup of the frequencies reads. */
  lemma FrequencyAt(keys: seq<nat>, maxKey: nat, k: nat)
    ensures Get(Frequencies(keys, maxKey), k) ==
      if k < maxKey then Percent(multiset(keys)[k], |keys|) else multiset(keys)[k] as real
  {
    if k >= maxKey && k !in keys {
      assert multiset(keys)[k] == 0;
    }
  }

  /** The Counter calc_node_size_percent and calc_node_depth_percent return:
   *  each key below `maxKey` holds the percentage of nodes with that key,
   *  every other key that occurs keeps its raw count. */
  function Frequencies(keys: seq<nat>, maxKey: nat): map<nat, real>
  {
    map k | k in Domain(keys, maxKey) ::
      if k < maxKey then Percent(multiset(keys)[k], |keys|) else multiset(keys)[k] as real
  }

  /** The counting loop and the conversion loop of calc_node_*_percent. The
   *  sum of the counts is the size of the multiset of counted keys. */
  method Percentages(keys: seq<nat>, maxKey: nat) returns (freqs: map<nat, real>)
    ensures freqs == Frequencies(keys, maxKey)
  {
    var counts: multiset<nat> := multiset{};
    for i := 0 to |keys|
      invariant counts == multiset(keys[..i])
    {
      assert keys[..i + 1] == keys[..i] + [keys[i]];
      counts := counts[keys[i] := counts[keys[i]] + 1];
    }
    assert keys[..|keys|] == keys;
    var total: real := |counts| as real;
    if total <= 0.0 {
      total := 1.0;
    }
    freqs := map k | k in counts :: counts[k] as real;
    for i := 0 to maxKey
      invariant forall k: nat :: k in freqs <==> k < i || k in counts
      invariant forall k: nat :: k in freqs ==> freqs[k] == if k < i then Percent(counts[k], |keys|) else counts[k] as real
    {
      PercentOfTotal(counts[i], |keys|, total);
      freqs := freqs[i := counts[i] as real / total * 100.0];
    }
    assert forall k :: k in counts <==> k in keys;
  }

  ghost predicate NonNegative(freqs: map<nat, real>)
  {
    forall k :: k in freqs ==> freqs[k] >= 0.0
  }

  /** No frequency is negative. */
  lemma FrequenciesNonNegative(keys: seq<nat>, maxKey: nat)
    ensures NonNegative(Frequencies(keys, maxKey))
  {
  }

  /** How many keys are below `n`. */
  function Below(keys: seq<nat>, n: nat): nat
  {
    if |keys| == 0 then 0 else Below(keys[..|keys| - 1], n) + (if keys[|keys| - 1] < n then 1 else 0)
  }

  lemma {:induction false} BelowStep(keys: seq<nat>, n: nat)
    ensures Below(keys, n + 1) == Below(keys, n) + multiset(keys)[n]
  {
    if |keys| > 0 {
      var p := keys[..|keys| - 1];
      assert keys == p + [keys[|keys| - 1]];
      BelowStep(p, n);
    }
  }

  lemma {:induction false} BelowAtMost(keys: seq<nat>, n: nat)
    ensures Below(keys, n) <= |keys|
    ensures n == 0 ==> Below(keys, n) == 0
    ensures (forall x :: x in keys ==> x < n) ==> Below(keys, n) == |keys|
  {
    if |keys| > 0 {
      var p := keys[..|keys| - 1];
      BelowAtMost(p, n);
      if forall x :: x in keys ==> x < n {
        assert keys[|keys| - 1] in keys;
        assert forall x :: x in p ==> x in keys;
      }
    }
  }

  /** The first `n` entries of a Counter, summed. */
  function PercentSum(freqs: map<nat, real>, n: nat): real
  {
    if n == 0 then 0.0 else PercentSum(freqs, n - 1) + Get(freqs, n - 1)
  }

  lemma PercentAdd(x: nat, y: nat, n: nat)
    ensures Percent(x, n) + Percent(y, n) == Percent(x + y, n)
  {
    SumAsReal(x, y);
    Distribute(x as real, y as real, Scale(n));
  }

  lemma PercentSumStep(keys: seq<nat>, maxKey: nat, n: nat)
    requires 0 < n <= maxKey
    ensures PercentSum(Frequencies(keys, maxKey), n)
         == PercentSum(Frequencies(keys, maxKey), n - 1) + Percent(multiset(keys)[n - 1], |keys|)
  {
    FrequencyAt(keys, maxKey, n - 1);
  }

  lemma {:induction false} PercentSumIsShare(keys: seq<nat>, maxKey: nat, n: nat)
    requires n <= maxKey
    ensures PercentSum(Frequencies(keys, maxKey), n) == Percent(Below(keys, n), |keys|)
  {
    if n == 0 {
      BelowAtMost(keys, 0);
      assert Percent(0, |keys|) == 0.0;
    } else {
      PercentSumIsShare(keys, maxKey, n - 1);
      PercentSumStep(keys, maxKey, n);
      BelowStep(keys, n - 1);
      PercentAdd(Below(keys, n - 1), multiset(keys)[n - 1], |keys|);
    }
  }

  /** The percentages below `maxKey` add up to at most 100, and to exactly
   *  100 when every key is below `maxKey` and there is a node. */
  lemma PercentagesAtMostHundred(keys: seq<nat>, maxKey: nat)
    ensures PercentSum(Frequencies(keys, maxKey), maxKey) <= 100.0
    ensures |keys| > 0 && (forall x :: x in keys ==> x < maxKey) ==>
      PercentSum(Frequencies(keys, maxKey), maxKey) == 100.0
  {
    PercentSumIsShare(keys, maxKey, maxKey);
    BelowAtMost(keys, maxKey);
    PercentAtMostAll(Below(keys, maxKey), |keys|);
  }

  /** A share of the nodes is at most 100 percent, all of them exactly. */
  lemma PercentAtMostAll(x: nat, n: nat)
    requires x <= n
    ensures Percent(x, n) <= 100.0
    ensures 0 < x == n ==> Percent(x, n) == 100.0
  {
    ScaleOfAll(n);
    MulAtMost(x as real, Total(n), Scale(n));
  }

  // ---------------------------------------------------------------------
  // Node sizes
  // ---------------------------------------------------------------------

  /** calc_node_size_percent's default for the number of children tracked. */
  const DefaultMaxChildren: nat := 6

  /** The number of children of every descendant, in preorder. */
  function ChildCounts(tree: Tree): (r: seq<nat>)
    ensures |r| == |Descendants(tree)|
    ensures forall i :: 0 <= i < |r| ==> r[i] == |Descendants(tree)[i].children|
  {
    var nodes := Descendants(tree);
    seq(|nodes|, i requires 0 <= i < |nodes| => |nodes[i].children|)
  }

  /** calc_node_size_percent: the Counter of descendants by number of
   *  children. */
  method NodeSizePercent(tree: Tree, maxChildren: nat) returns (freqs: map<nat, real>)
    ensures freqs == Frequencies(ChildCounts(tree), maxChildren)
  {
    var nodes := Descendants(tree);
    var keys: seq<nat> := [];
    for i := 0 to |nodes|
      invariant keys == ChildCounts(tree)[..i]
    {
      keys := keys + [|nodes[i].children|];
    }
    assert keys == ChildCounts(tree);
    freqs := Percentages(keys, maxChildren);
  }

  /** The node-size error is computed for a key when both trees agree on it
   *  or either has more than 1 percent of its nodes there. */
  predicate Kept(refPercent: real, simPercent: real)
  {
    refPercent == simPercent || refPercent > 1.0 || simPercent > 1.0
  }

  /** The errors output_children averages, for keys below `n`; None when an
   *  error divides by zero. */
  function KeptErrors(refFreqs: map<nat, real>, simFreqs: map<nat, real>, n: nat): Option<seq<real>>
  {
    if n == 0 then Some([])
    else
      match KeptErrors(refFreqs, simFreqs, n - 1)
      case None => None
      case Some(errs) =>
        var a, b := Get(refFreqs, n - 1), Get(simFreqs, n - 1);
        if !Kept(a, b) then Some(errs)
        else match Error(a, b)
          case None => None
          case Some(e) => Some(errs + [e])
  }

  /** Between two Counters of non-negative values every kept error is
   *  defined and lies in [0, 100]. */
  lemma {:induction false} KeptErrorsBounded(refFreqs: map<nat, real>, simFreqs: map<nat, real>, n: nat)
    requires NonNegative(refFreqs) && NonNegative(simFreqs)
    ensures KeptErrors(refFreqs, simFreqs, n).Some?
    ensures forall i :: 0 <= i < |KeptErrors(refFreqs, simFreqs, n).value| ==>
      0.0 <= KeptErrors(refFreqs, simFreqs, n).value[i] <= 100.0
  {
    if n > 0 {
      KeptErrorsBounded(refFreqs, simFreqs, n - 1);
      ErrorBounded(Get(refFreqs, n - 1), Get(simFreqs, n - 1));
    }
  }

  lemma {:induction false} SumBounded(xs: seq<real>)
    requires forall i :: 0 <= i < |xs| ==> 0.0 <= xs[i] <= 100.0
    ensures 0.0 <= SumReals(xs) <= 100.0 * (|xs| as real)
  {
    if |xs| > 0 {
      SumBounded(xs[..|xs| - 1]);
    }
  }

  /** Python's sum(xs) / len(xs). */
  function Mean(xs: seq<real>): (m: real)
    requires |xs| > 0
    ensures m * (|xs| as real) == SumReals(xs)
  {
    SumReals(xs) / (|xs| as real)
  }

  /** The mean of percentages is a percentage. */
  lemma MeanBounded(xs: seq<real>)
    requires |xs| > 0
    requires forall i :: 0 <= i < |xs| ==> 0.0 <= xs[i] <= 100.0
    ensures 0.0 <= Mean(xs) <= 100.0
  {
    SumBounded(xs);
    var n := |xs| as real;
    var mean := Mean(xs);
    if mean > 100.0 {
      MulPositive(mean - 100.0, n);
    }
    if mean < 0.0 {
      MulPositive(-mean, n);
    }
  }

  /** output_children's node-size error: 100 when either tree is a bare
   *  root; otherwise the mean of the kept errors between the two trees'
   *  node-size percentages (taken with the default of 6 tracked sizes),
   *  None when no key is kept, where Python divides by zero. */
  method NodeSizeError(refTree: Tree, simTree: Tree, maxChildren: nat) returns (r: Option<real>)
    ensures IsLeaf(simTree) || IsLeaf(refTree) ==> r == Some(100.0)
    ensures !IsLeaf(simTree) && !IsLeaf(refTree) ==>
      var errs := KeptErrors(Frequencies(ChildCounts(refTree), DefaultMaxChildren),
                             Frequencies(ChildCounts(simTree), DefaultMaxChildren), maxChildren);
      && errs.Some?
      && (r.None? <==> |errs.value| == 0)
      && (r.Some? ==> r.value == Mean(errs.value))
    ensures r.Some? ==> 0.0 <= r.value <= 100.0
  {
    if |simTree.children| == 0 || |refTree.children| == 0 {
      return Some(100.0);
    }
    var simFreqs := NodeSizePercent(simTree, DefaultMaxChildren);
    var refFreqs := NodeSizePercent(refTree, DefaultMaxChildren);
    FrequenciesNonNegative(ChildCounts(simTree), DefaultMaxChildren);
    FrequenciesNonNegative(ChildCounts(refTree), DefaultMaxChildren);
    var errors: seq<real> := [];
    for k := 0 to maxChildren
      invariant KeptErrors(refFreqs, simFreqs, k) == Some(errors)
    {
      KeptErrorsBounded(refFreqs, simFreqs, k + 1);
      var a, b := Get(refFreqs, k), Get(simFreqs, k);
      if Kept(a, b) {
        errors := errors + [Error(a, b).value];
      }
    }
    KeptErrorsBounded(refFreqs, simFreqs, maxChildren);
    if |errors| == 0 {
      return None;
    }
    MeanBounded(errors);
    r := Some(Mean(errors));
  }

  // ---------------------------------------------------------------------
  // Node depths
  // ---------------------------------------------------------------------

  function Max(a: nat, b: nat): nat
  {
    if a >= b then a else b
  }

  /** The number of nodes of `t`. */
  function Size(t: Tree): nat
    decreases t, 1
  {
    SizeBelow(t, |t.children|) + 1
  }

  function SizeBelow(t: Tree, n: nat): nat
    requires n <= |t.children|
    decreases t, 0, n
  {
    if n == 0 then 0 else SizeBelow(t, n - 1) + Size(t.children[n - 1])
  }

  /** The number of nodes on the longest downward path from `t`; a leaf has
   *  height 1. */
  function Height(t: Tree): nat
    decreases t, 1
  {
    HeightBelow(t, |t.children|) + 1
  }

  /** The largest height among the first `n` children, 0 for none. */
  function HeightBelow(t: Tree, n: nat): nat
    requires n <= |t.children|
    decreases t, 0, n
  {
    if n == 0 then 0 else Max(HeightBelow(t, n - 1), Height(t.children[n - 1]))
  }

  lemma {:induction false} SizeBelowCovers(t: Tree, n: nat, j: nat)
    requires j < n <= |t.children|
    ensures Size(t.children[j]) <= SizeBelow(t, n)
    decreases n
  {
    if j < n - 1 {
      SizeBelowCovers(t, n - 1, j);
    }
  }

  /** A child is smaller than its parent. */
  lemma ChildSmaller(t: Tree, j: nat)
    requires j < |t.children|
    ensures Size(t.children[j]) < Size(t)
  {
    SizeBelowCovers(t, |t.children|, j);
  }

  /** Every descendant is smaller than the tree, so none of them is the
   *  root itself. */
  lemma {:induction false} DescendantSmaller(t: Tree, x: Tree)
    requires x in Descendants(t)
    ensures Size(x) < Size(t)
    decreases t, 1
  {
    DescendantsBelowSmaller(t, |t.children|, x);
  }

  lemma {:induction false} DescendantsBelowSmaller(t: Tree, n: nat, x: Tree)
    requires n <= |t.children| && x in DescendantsBelow(t, n)
    ensures Size(x) < Size(t)
    decreases t, 0, n
  {
    var c := t.children[n - 1];
    ChildSmaller(t, n - 1);
    if x in DescendantsBelow(t, n - 1) {
      DescendantsBelowSmaller(t, n - 1, x);
    } else if x != c {
      assert x in Descendants(c);
      DescendantSmaller(c, x);
    }
  }

  lemma {:induction false} HeightBelowCovers(t: Tree, n: nat, j: nat)
    requires j < n <= |t.children|
    ensures Height(t.children[j]) <= HeightBelow(t, n)
    decreases n
  {
    if j < n - 1 {
      HeightBelowCovers(t, n - 1, j);
    }
  }

  lemma {:induction false} HeightBelowAttained(t: Tree, n: nat) returns (j: nat)
    requires 0 < n <= |t.children|
    ensures j < n && Height(t.children[j]) == HeightBelow(t, n)
    decreases n
  {
    if n > 1 && HeightBelow(t, n - 1) >= Height(t.children[n - 1]) {
      j := HeightBelowAttained(t, n - 1);
    } else {
      j := n - 1;
    }
  }

  /** Every child is lower than its parent, and an inner node is exactly
   *  one higher than its highest child. */
  lemma HeightOfChildren(t: Tree)
    ensures forall j :: 0 <= j < |t.children| ==> Height(t.children[j]) < Height(t)
    ensures !IsLeaf(t) ==> exists j :: 0 <= j < |t.children| && Height(t.children[j]) == Height(t) - 1
  {
    forall j | 0 <= j < |t.children|
      ensures Height(t.children[j]) < Height(t)
    {
      HeightBelowCovers(t, |t.children|, j);
    }
    if !IsLeaf(t) {
      var j := HeightBelowAttained(t, |t.children|);
    }
  }

  /** node_depth: 0 for the root of the tree; otherwise one more than the
   *  largest value among the children, which for a node below the root
   *  is its height. */
  method NodeDepth(root: Tree, node: Tree) returns (d: nat)
    ensures node == root ==> d == 0
    ensures Size(node) < Size(root) ==> d == Height(node)
    decreases node
  {
    if node == root {
      return 0;
    }
    var m: nat := 0;
    for i := 0 to |node.children|
      invariant Size(node) < Size(root) ==> m == HeightBelow(node, i)
    {
      var c := NodeDepth(root, node.children[i]);
      ChildSmaller(node, i);
      m := Max(m, c);
    }
    d := m + 1;
  }

  /** The height of every descendant, in preorder. */
  function DepthKeys(tree: Tree): (r: seq<nat>)
    ensures |r| == |Descendants(tree)|
    ensures forall i :: 0 <= i < |r| ==> r[i] == Height(Descendants(tree)[i])
  {
    var nodes := Descendants(tree);
    seq(|nodes|, i requires 0 <= i < |nodes| => Height(nodes[i]))
  }

  /** calc_node_depth_percent: the Counter of descendants by node_depth. */
  method NodeDepthPercent(tree: Tree, maxDepth: nat) returns (freqs: map<nat, real>)
    ensures freqs == Frequencies(DepthKeys(tree), maxDepth)
  {
    var nodes := Descendants(tree);
    var keys: seq<nat> := [];
    for i := 0 to |nodes|
      invariant keys == DepthKeys(tree)[..i]
    {
      assert nodes[i] in Descendants(tree);
      DescendantSmaller(tree, nodes[i]);
      var d := NodeDepth(tree, nodes[i]);
      keys := keys + [d];
    }
    assert keys == DepthKeys(tree);
    freqs := Percentages(keys, maxDepth);
  }

  /** No descendant has depth 0, so the depth-0 percentage is always 0. */
  lemma DepthZeroEmpty(tree: Tree, maxDepth: nat)
    requires maxDepth > 0
    ensures 0 in Frequencies(DepthKeys(tree), maxDepth)
    ensures Frequencies(DepthKeys(tree), maxDepth)[0] == 0.0
  {
    var keys := DepthKeys(tree);
    assert 0 !in keys;
    assert multiset(keys)[0] == 0;
  }
}
