/** Small shared helpers: the optional value used for Java's nullable references
 *  and Python's "no value", and sequence facts used by several modules. */
module Wrappers {

  /** A possibly absent value; `None` stands for a Java `null`. */
  datatype Option<T> = None | Some(value: T)

  /** No element occurs twice in `s`. */
  predicate NoDuplicates<T(==)>(s: seq<T>)
  {
    forall i, j :: 0 <= i < j < |s| ==> s[i] != s[j]
  }

  /** Sum of a sequence of reals, left to right. */
  function SumReals(s: seq<real>): real
  {
    if |s| == 0 then 0.0 else SumReals(s[..|s| - 1]) + s[|s| - 1]
  }

  /** Sum of a sequence of naturals, left to right. */
  function SumNats(s: seq<nat>): nat
  {
    if |s| == 0 then 0 else SumNats(s[..|s| - 1]) + s[|s| - 1]
  }

  /** Java's `(int)` cast of a double: truncation toward zero (the range limits
   *  of a 32-bit int are not modelled). */
  function TruncateToInt(x: real): (n: int)
    ensures x >= 0.0 ==> n >= 0 && n as real <= x < n as real + 1.0
    ensures x <= 0.0 ==> n <= 0 && n as real - 1.0 < x <= n as real
  {
    if x >= 0.0 then x.Floor else -((-x).Floor)
  }

  /** Java's swap-with-last removal from an ArrayList: the last element moves
   *  into position `i` and the list loses its last slot. */
  function SwapRemove<T>(list: seq<T>, i: nat): (r: seq<T>)
    requires i < |list|
    ensures |r| == |list| - 1
    ensures i < |r| ==> r[i] == list[|list| - 1]
    ensures forall k :: 0 <= k < |r| && k != i ==> r[k] == list[k]
  {
    list[i := list[|list| - 1]][..|list| - 1]
  }

  /** Swap-with-last removal takes away exactly the element at `i`. */
  lemma SwapRemoveMultiset<T>(list: seq<T>, i: nat)
    requires i < |list|
    ensures multiset(SwapRemove(list, i)) == multiset(list) - multiset{list[i]}
  {
    var last := |list| - 1;
    if i == last {
      assert list == SwapRemove(list, i) + [list[i]];
    } else {
      var prefix := list[..last];
      assert list == prefix + [list[last]];
      assert SwapRemove(list, i) == prefix[i := list[last]];
      assert prefix[i] == list[i];
      assert multiset(prefix[i := list[last]]) == multiset(prefix) - multiset{list[i]} + multiset{list[last]};
      assert list[i] in multiset(prefix);
    }
  }

  /** On a list without duplicates, swap-with-last removal drops exactly the
   *  element at `i`, keeps every other one, creates no duplicate, leaves the
   *  prefix before `i` alone, and from `i` on holds the old elements beyond `i`. */
  lemma SwapRemoveKeepsOthers<T>(s: seq<T>, i: nat)
    requires i < |s| && NoDuplicates(s)
    ensures var t := SwapRemove(s, i);
      && NoDuplicates(t)
      && (forall x :: x in t <==> x in s && x != s[i])
      && (forall x :: x in t[i..] <==> x in s[i + 1..])
      && t[..i] == s[..i]
  {
    var t := SwapRemove(s, i);
    forall x | x in s && x != s[i]
      ensures x in t
    {
      var k :| 0 <= k < |s| && s[k] == x;
      if k == |s| - 1 {
        assert t[i] == x;
      } else {
        assert t[k] == x;
      }
    }
    forall x | x in s[i + 1..]
      ensures x in t[i..]
    {
      var k :| i + 1 <= k < |s| && s[k] == x;
      if k == |s| - 1 {
        assert t[i] == x;
      } else {
        assert t[k] == x;
      }
    }
  }

  function Min(a: int, b: int): int
  {
    if a <= b then a else b
  }

  function Max(a: int, b: int): int
  {
    if a >= b then a else b
  }

  lemma {:induction false} NoDuplicatesCount<T>(s: seq<T>, x: T)
    requires NoDuplicates(s)
    ensures multiset(s)[x] <= 1
    decreases |s|
  {
    if |s| > 0 {
      var prefix := s[..|s| - 1];
      assert s == prefix + [s[|s| - 1]];
      NoDuplicatesCount(prefix, x);
      if x == s[|s| - 1] {
        assert x !in prefix;
      }
    }
  }

  /** A sub-multiset of a duplicate-free sequence is duplicate-free: removing
   *  or reordering elements never creates a duplicate. */
  lemma NoDuplicatesSubMultiset<T>(a: seq<T>, b: seq<T>)
    requires NoDuplicates(a) && multiset(b) <= multiset(a)
    ensures NoDuplicates(b)
  {
    forall i, j | 0 <= i < j < |b|
      ensures b[i] != b[j]
    {
      if b[i] == b[j] {
        assert b == b[..j] + b[j..];
        assert b[i] in b[..j] && b[j] in b[j..];
        assert multiset(b)[b[i]] >= 2;
        NoDuplicatesCount(a, b[i]);
        assert false;
      }
    }
  }

  /** Joining two duplicate-free sequences with no element in common, in any
   *  order, gives a duplicate-free sequence. */
  lemma NoDuplicatesDisjointUnion<T>(a: seq<T>, b: seq<T>, c: seq<T>)
    requires NoDuplicates(a) && NoDuplicates(b)
    requires forall x :: x in a ==> x !in b
    requires multiset(c) == multiset(a) + multiset(b)
    ensures NoDuplicates(c)
  {
    forall i, j | 0 <= i < j < |c|
      ensures c[i] != c[j]
    {
      if c[i] == c[j] {
        assert c == c[..j] + c[j..];
        assert c[i] in c[..j] && c[j] in c[j..];
        assert multiset(c)[c[i]] >= 2;
        var x := c[i];
        NoDuplicatesCount(a, x);
        NoDuplicatesCount(b, x);
        if x in a {
          assert false;
        } else {
          assert false;
        }
      }
    }
  }

  /** The two halves of a duplicate-free sequence are duplicate-free and
   *  share no element. */
  lemma NoDuplicatesConcat<T>(a: seq<T>, b: seq<T>)
    requires NoDuplicates(a + b)
    ensures NoDuplicates(a) && NoDuplicates(b)
    ensures forall x :: x in a ==> x !in b
  {
    forall x | x in a
      ensures x !in b
    {
      var i :| 0 <= i < |a| && a[i] == x;
      forall j | 0 <= j < |b|
        ensures b[j] != x
      {
        assert (a + b)[i] == x && (a + b)[|a| + j] == b[j];
      }
    }
    forall i, j | 0 <= i < j < |a|
      ensures a[i] != a[j]
    {
      assert (a + b)[i] == a[i] && (a + b)[j] == a[j];
    }
    forall i, j | 0 <= i < j < |b|
      ensures b[i] != b[j]
    {
      assert (a + b)[|a| + i] == b[i] && (a + b)[|a| + j] == b[j];
    }
  }

  /** Concatenating two duplicate-free sequences with no element in common
   *  gives a duplicate-free sequence. */
  lemma NoDuplicatesAppend<T>(a: seq<T>, b: seq<T>)
    requires NoDuplicates(a) && NoDuplicates(b)
    requires forall x :: x in a ==> x !in b
    ensures NoDuplicates(a + b)
  {
    NoDuplicatesDisjointUnion(a, b, a + b);
  }
}
