/**
 * The list of differing permissions that the comparison form builds first:
 * `array_merge(array_diff(role2, role1), array_diff(role1, role2))`.
 * `array_merge` renumbers the keys, so the result is a plain 0-indexed list.
 */
module PermissionDiff {

  /** `r` is `a` with some entries dropped and the others kept in order. */
  predicate Subsequence(r: seq<string>, a: seq<string>)
    decreases |a|
  {
    if r == [] then true
    else if a == [] then false
    else (r[0] == a[0] && Subsequence(r[1..], a[1..])) || Subsequence(r, a[1..])
  }

  /**
   * `array_diff(a, b)`: the entries of `a` whose value occurs nowhere in `b`.
   * Repeated entries of `a` are all kept (or all dropped).
   */
  function ArrayDiff(a: seq<string>, b: seq<string>): (r: seq<string>)
    ensures forall x {:trigger x in r} :: x in r <==> x in a && x !in b
    ensures |r| <= |a|
  {
    if a == [] then []
    else
      assert a == [a[0]] + a[1..];
      (if a[0] in b then [] else [a[0]]) + ArrayDiff(a[1..], b)
  }

  /** A kept value is kept as often as it occurs in `a`. */
  lemma {:induction false} ArrayDiffMultiplicity(a: seq<string>, b: seq<string>, x: string)
    requires x !in b
    ensures multiset(ArrayDiff(a, b))[x] == multiset(a)[x]
    decreases |a|
  {
    if a != [] {
      ArrayDiffMultiplicity(a[1..], b, x);
      assert a == [a[0]] + a[1..];
    }
  }

  lemma {:induction false} ArrayDiffKeepsOrder(a: seq<string>, b: seq<string>)
    ensures Subsequence(ArrayDiff(a, b), a)
    decreases |a|
  {
    if a != [] {
      var rest := ArrayDiff(a[1..], b);
      ArrayDiffKeepsOrder(a[1..], b);
      if a[0] !in b {
        assert ArrayDiff(a, b) == [a[0]] + rest;
        assert ([a[0]] + rest)[1..] == rest;
      } else {
        assert ArrayDiff(a, b) == rest;
      }
    }
  }

  /** `$role_diff`: the permissions only role 2 has, then those only role 1 has. */
  function RoleDiff(role1: seq<string>, role2: seq<string>): (d: seq<string>)
    ensures forall x {:trigger x in d} :: x in d <==> (x in role1 <==> x !in role2)
  {
    ArrayDiff(role2, role1) + ArrayDiff(role1, role2)
  }

  /** Number of role-2-only entries at the head of the difference list. */
  function Role2OnlyCount(role1: seq<string>, role2: seq<string>): nat
  {
    |ArrayDiff(role2, role1)|
  }

  /**
   * The difference list is role 2's exclusive permissions in role 2's order,
   * followed by role 1's exclusive permissions in role 1's order.
   */
  lemma RoleDiffOrder(role1: seq<string>, role2: seq<string>)
    ensures var d, m := RoleDiff(role1, role2), Role2OnlyCount(role1, role2);
      && m <= |d|
      && (forall k :: 0 <= k < m ==> d[k] in role2 && d[k] !in role1)
      && (forall k :: m <= k < |d| ==> d[k] in role1 && d[k] !in role2)
      && Subsequence(d[..m], role2)
      && Subsequence(d[m..], role1)
  {
    var d, m := RoleDiff(role1, role2), Role2OnlyCount(role1, role2);
    var left, right := ArrayDiff(role2, role1), ArrayDiff(role1, role2);
    assert d[..m] == left && d[m..] == right;
    forall k | 0 <= k < m ensures d[k] in role2 && d[k] !in role1 {
      assert d[k] == left[k] && left[k] in left;
    }
    forall k | m <= k < |d| ensures d[k] in role1 && d[k] !in role2 {
      assert d[k] == right[k - m] && right[k - m] in right;
    }
    ArrayDiffKeepsOrder(role2, role1);
    ArrayDiffKeepsOrder(role1, role2);
  }

  /** Every permission held by one role and not the other occurs in the list exactly as often as in that role. */
  lemma RoleDiffMultiplicity(role1: seq<string>, role2: seq<string>, x: string)
    ensures x in role1 && x !in role2 ==> multiset(RoleDiff(role1, role2))[x] == multiset(role1)[x]
    ensures x in role2 && x !in role1 ==> multiset(RoleDiff(role1, role2))[x] == multiset(role2)[x]
    ensures (x in role1 <==> x in role2) ==> multiset(RoleDiff(role1, role2))[x] == 0
  {
    var left, right := ArrayDiff(role2, role1), ArrayDiff(role1, role2);
    assert multiset(RoleDiff(role1, role2)) == multiset(left) + multiset(right);
    if x in role1 && x !in role2 {
      ArrayDiffMultiplicity(role1, role2, x);
      assert x !in left;
    } else if x in role2 && x !in role1 {
      ArrayDiffMultiplicity(role2, role1, x);
      assert x !in right;
    } else {
      assert x !in left && x !in right;
    }
  }

  /** The list is empty exactly when the two roles grant the same permissions. */
  lemma NoDiffIffSamePermissions(role1: seq<string>, role2: seq<string>)
    ensures RoleDiff(role1, role2) == [] <==> (forall x :: x in role1 <==> x in role2)
  {
    var d := RoleDiff(role1, role2);
    if d != [] {
      assert d[0] in d;
    } else {
      forall x ensures x in role1 <==> x in role2 {
        assert x !in d;
      }
    }
  }

  /** Swapping the roles swaps the two parts of the list and keeps its contents. */
  lemma RoleDiffSwap(role1: seq<string>, role2: seq<string>)
    ensures var d, m := RoleDiff(role1, role2), Role2OnlyCount(role1, role2);
      m <= |d| && RoleDiff(role2, role1) == d[m..] + d[..m]
    ensures multiset(RoleDiff(role2, role1)) == multiset(RoleDiff(role1, role2))
  {
    var left, right := ArrayDiff(role2, role1), ArrayDiff(role1, role2);
    assert (left + right)[|left|..] == right;
    assert (left + right)[..|left|] == left;
  }
}
