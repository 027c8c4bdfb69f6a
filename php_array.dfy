/**
 * PHP's ordered arrays, as far as the comparison form uses them: a sequence
 * of key/value pairs kept in insertion order.  Writing `$a[$k] = $v` replaces
 * the value of an existing key where it stands and appends a new key at the end.
 */
module PhpArray {

  type OrderedArray<K, V> = seq<(K, V)>

  /** No value occurs twice in `s`. */
  predicate Distinct<T(==)>(s: seq<T>)
  {
    forall i, j :: 0 <= i < j < |s| ==> s[i] != s[j]
  }

  /** The keys of `a`, in order. */
  function Keys<K, V>(a: OrderedArray<K, V>): seq<K>
  {
    seq(|a|, j requires 0 <= j < |a| => a[j].0)
  }

  /** The values of `a`, in order: what `foreach ($a as $v)` visits. */
  function Values<K, V>(a: OrderedArray<K, V>): seq<V>
  {
    seq(|a|, j requires 0 <= j < |a| => a[j].1)
  }

  lemma KeysCons<K, V>(a: OrderedArray<K, V>)
    requires a != []
    ensures Keys(a) == [a[0].0] + Keys(a[1..])
  {
  }

  lemma KeysAppend<K, V>(a: OrderedArray<K, V>, b: OrderedArray<K, V>)
    ensures Keys(a + b) == Keys(a) + Keys(b)
  {
  }

  lemma KeysPrefix<K, V>(a: OrderedArray<K, V>, j: nat)
    requires j < |a|
    ensures Keys(a)[..j + 1] == Keys(a)[..j] + [a[j].0]
  {
  }

  /**
   * `$a[$k] = $v`.  A key not yet present is appended after the others; a
   * present key keeps its place (see `AssignInPlace`).
   */
  function Assign<K(==), V>(a: OrderedArray<K, V>, k: K, v: V): (r: OrderedArray<K, V>)
    ensures k !in Keys(a) ==> r == a + [(k, v)]
    ensures k in Keys(a) ==> Keys(r) == Keys(a)
  {
    if a == [] then [(k, v)]
    else
      KeysCons(a);
      if a[0].0 == k then [(k, v)] + a[1..]
      else
        var rest := Assign(a[1..], k, v);
        KeysCons([a[0]] + rest);
        assert ([a[0]] + rest)[1..] == rest;
        [a[0]] + rest
  }

  /** Writing a present key replaces the value of its first entry and changes nothing else. */
  lemma {:induction false} AssignInPlace<K, V>(a: OrderedArray<K, V>, j: nat, v: V)
    requires j < |a| && forall i :: 0 <= i < j ==> a[i].0 != a[j].0
    ensures Assign(a, a[j].0, v) == a[j := (a[j].0, v)]
    decreases j
  {
    if j > 0 {
      AssignInPlace(a[1..], j - 1, v);
      assert a[1..][j - 1 := (a[j].0, v)] == a[j := (a[j].0, v)][1..];
    }
  }
}
