/**
 * The order in which the comparison table lists its rows, stated on `s`, the
 * provider of each entry of the difference list (`s[k]` is the provider of
 * entry `k`).  Rows are filed under their provider in a PHP array whose
 * provider keys appear in the order they are first written, and within a
 * provider in ascending entry index; the table visits them in that order.
 */
module ProviderGrouping {
  import opened PhpArray

  /** The distinct values of `s` in order of first occurrence. */
  function FirstSeen(s: seq<string>): (ps: seq<string>)
    ensures forall p :: p in ps <==> p in s
    ensures Distinct(ps)
  {
    if s == [] then []
    else
      var ps := FirstSeen(s[..|s| - 1]);
      assert s == s[..|s| - 1] + [s[|s| - 1]];
      if s[|s| - 1] in ps then ps else ps + [s[|s| - 1]]
  }

  predicate Increasing(ks: seq<nat>)
  {
    forall i, j :: 0 <= i < j < |ks| ==> ks[i] < ks[j]
  }

  /** The indices `k` with `s[k] == p`, ascending. */
  function IndicesOf(s: seq<string>, p: string): (ks: seq<nat>)
    ensures forall k: nat {:trigger k in ks} :: k in ks <==> k < |s| && s[k] == p
    ensures forall j :: 0 <= j < |ks| ==> ks[j] < |s|
    ensures Increasing(ks)
  {
    if s == [] then []
    else IndicesOf(s[..|s| - 1], p) + (if s[|s| - 1] == p then [|s| - 1] else [])
  }

  /** The index blocks of the providers `ps`, one after the other. */
  function Blocks(s: seq<string>, ps: seq<string>): (ks: seq<nat>)
    ensures forall k: nat {:trigger k in ks} :: k in ks <==> k < |s| && s[k] in ps
    ensures forall j :: 0 <= j < |ks| ==> ks[j] < |s|
  {
    if ps == [] then []
    else
      assert ps == ps[..|ps| - 1] + [ps[|ps| - 1]];
      Blocks(s, ps[..|ps| - 1]) + IndicesOf(s, ps[|ps| - 1])
  }

  /** The entry indices in the order the table lists them. */
  function TableOrder(s: seq<string>): seq<nat>
  {
    Blocks(s, FirstSeen(s))
  }

  /** The index of the first occurrence of `p` in `s`. */
  function First(s: seq<string>, p: string): (k: nat)
    requires p in s
    ensures k < |s| && s[k] == p
    ensures forall j :: 0 <= j < k ==> s[j] != p
  {
    if s[0] == p then 0 else 1 + First(s[1..], p)
  }

  /**
   * Entry `k1` is listed before entry `k2`: its provider was seen first, or
   * both have the same provider and `k1` is the smaller index.
   */
  predicate Before(s: seq<string>, k1: nat, k2: nat)
    requires k1 < |s| && k2 < |s|
  {
    First(s, s[k1]) < First(s, s[k2]) || (s[k1] == s[k2] && k1 < k2)
  }

  lemma FirstOfPrefix(s: seq<string>, x: string, p: string)
    requires p in s
    ensures p in s + [x] && First(s + [x], p) == First(s, p)
  {
    var t := s + [x];
    assert t[First(s, p)] == p;
  }

  lemma FirstOfNew(s: seq<string>, x: string)
    requires x !in s
    ensures x in s + [x] && First(s + [x], x) == |s|
  {
    var t := s + [x];
    forall j | 0 <= j < |s| ensures t[j] != x {
      assert t[j] == s[j] && s[j] in s;
    }
  }

  /** `FirstSeen` lists the providers in the order of their first occurrences. */
  lemma {:induction false} FirstSeenOrdered(s: seq<string>)
    ensures forall a, b :: 0 <= a < b < |FirstSeen(s)| ==>
      First(s, FirstSeen(s)[a]) < First(s, FirstSeen(s)[b])
    decreases |s|
  {
    if s != [] {
      var s', x := s[..|s| - 1], s[|s| - 1];
      assert s == s' + [x];
      FirstSeenOrdered(s');
      var ps', ps := FirstSeen(s'), FirstSeen(s);
      FirstSeenGrow(s', x);
      forall p | p in ps' ensures First(s, p) == First(s', p) {
        FirstOfPrefix(s', x, p);
      }
      if x !in ps' {
        FirstOfNew(s', x);
        forall a | 0 <= a < |ps'| ensures First(s, ps[a]) < First(s, x) {
          assert ps[a] == ps'[a] && ps'[a] in ps';
        }
      }
    }
  }

  lemma IndicesOfGrow(s: seq<string>, x: string, p: string)
    ensures IndicesOf(s + [x], p) == IndicesOf(s, p) + (if x == p then [|s|] else [])
  {
    assert (s + [x])[..|s|] == s;
  }

  lemma {:induction false} BlocksGrow(s: seq<string>, x: string, ps: seq<string>)
    requires Distinct(ps)
    ensures |Blocks(s + [x], ps)| == |Blocks(s, ps)| + (if x in ps then 1 else 0)
    decreases |ps|
  {
    if ps != [] {
      var ps', p := ps[..|ps| - 1], ps[|ps| - 1];
      assert ps == ps' + [p];
      BlocksGrow(s, x, ps');
      IndicesOfGrow(s, x, p);
      assert x in ps <==> x in ps' || x == p;
      assert p !in ps';
    }
  }

  lemma FirstSeenGrow(s: seq<string>, x: string)
    ensures FirstSeen(s + [x]) == if x in FirstSeen(s) then FirstSeen(s) else FirstSeen(s) + [x]
  {
    var t := s + [x];
    assert t[..|t| - 1] == s;
  }

  lemma BlocksSnoc(s: seq<string>, ps: seq<string>, p: string)
    ensures Blocks(s, ps + [p]) == Blocks(s, ps) + IndicesOf(s, p)
  {
    var qs := ps + [p];
    assert qs[..|qs| - 1] == ps;
  }

  lemma NoIndices(s: seq<string>, x: string)
    requires x !in s
    ensures IndicesOf(s, x) == []
  {
  }

  lemma NewProviderBlock(s: seq<string>, x: string)
    requires x !in FirstSeen(s)
    ensures Blocks(s + [x], FirstSeen(s + [x])) == Blocks(s + [x], FirstSeen(s)) + [|s|]
  {
    FirstSeenGrow(s, x);
    BlocksSnoc(s + [x], FirstSeen(s), x);
    IndicesOfGrow(s, x, x);
    NoIndices(s, x);
  }

  /** The table lists as many rows as there are entries. */
  lemma {:induction false} TableOrderLength(s: seq<string>)
    ensures |TableOrder(s)| == |s|
    decreases |s|
  {
    if s != [] {
      var s', x := s[..|s| - 1], s[|s| - 1];
      assert s == s' + [x];
      TableOrderLength(s');
      var ps' := FirstSeen(s');
      BlocksGrow(s', x, ps');
      if x !in ps' {
        NewProviderBlock(s', x);
      } else {
        FirstSeenGrow(s', x);
      }
    }
  }

  /** The blocks of distinct providers repeat no index. */
  lemma {:induction false} BlocksDistinct(s: seq<string>, ps: seq<string>)
    requires Distinct(ps)
    ensures Distinct(Blocks(s, ps))
    decreases |ps|
  {
    if ps != [] {
      var ps', p := ps[..|ps| - 1], ps[|ps| - 1];
      assert ps == ps' + [p];
      BlocksDistinct(s, ps');
      var left, right := Blocks(s, ps'), IndicesOf(s, p);
      forall i, j | 0 <= i < j < |left + right| ensures (left + right)[i] != (left + right)[j] {
        if i < |left| && j >= |left| {
          assert left[i] in left;
          assert right[j - |left|] in right;
          assert p !in ps';
        }
      }
    }
  }

  /** Each entry index is listed once, and nothing else is listed. */
  lemma TableOrderIsPermutation(s: seq<string>)
    ensures |TableOrder(s)| == |s|
    ensures Distinct(TableOrder(s))
    ensures forall k: nat :: k in TableOrder(s) <==> k < |s|
  {
    TableOrderLength(s);
    BlocksDistinct(s, FirstSeen(s));
  }

  /** `ks` lists entry indices of `s` in `Before` order. */
  predicate SortedBy(s: seq<string>, ks: seq<nat>)
  {
    && (forall j :: 0 <= j < |ks| ==> ks[j] < |s|)
    && forall i, j :: 0 <= i < j < |ks| ==> Before(s, ks[i], ks[j])
  }

  /** A sorted list followed by the ascending indices of a later provider is sorted. */
  lemma SortedAppend(s: seq<string>, left: seq<nat>, p: string, right: seq<nat>)
    requires p in s && SortedBy(s, left)
    requires forall k: nat :: k in left ==> k < |s| && First(s, s[k]) < First(s, p)
    requires right == IndicesOf(s, p)
    ensures SortedBy(s, left + right)
  {
    var all := left + right;
    forall i, j | 0 <= i < j < |all| ensures Before(s, all[i], all[j]) {
      if j < |left| {
        assert all[i] == left[i] && all[j] == left[j];
      } else if i >= |left| {
        assert all[i] == right[i - |left|] && all[j] == right[j - |left|];
        assert right[i - |left|] in right && right[j - |left|] in right;
      } else {
        assert all[i] == left[i] && left[i] in left;
        assert all[j] == right[j - |left|] && right[j - |left|] in right;
      }
    }
  }

  /** Every entry in the blocks of the earlier providers has a provider seen before the last one. */
  lemma EarlierBlocks(s: seq<string>, ps: seq<string>)
    requires ps != [] && forall p :: p in ps ==> p in s
    requires forall a, b :: 0 <= a < b < |ps| ==> First(s, ps[a]) < First(s, ps[b])
    ensures forall k: nat :: k in Blocks(s, ps[..|ps| - 1]) ==> k < |s| && First(s, s[k]) < First(s, ps[|ps| - 1])
  {
    var ps' := ps[..|ps| - 1];
    forall k: nat | k in Blocks(s, ps') ensures k < |s| && First(s, s[k]) < First(s, ps[|ps| - 1]) {
      var a :| 0 <= a < |ps'| && ps'[a] == s[k];
      assert ps[a] == s[k];
    }
  }

  /** Blocks of providers listed in first-occurrence order are sorted by `Before`. */
  lemma {:induction false} BlocksSorted(s: seq<string>, ps: seq<string>)
    requires forall p :: p in ps ==> p in s
    requires forall a, b :: 0 <= a < b < |ps| ==> First(s, ps[a]) < First(s, ps[b])
    ensures SortedBy(s, Blocks(s, ps))
    decreases |ps|
  {
    if ps != [] {
      var ps', p := ps[..|ps| - 1], ps[|ps| - 1];
      assert ps == ps' + [p];
      BlocksSorted(s, ps');
      EarlierBlocks(s, ps);
      SortedAppend(s, Blocks(s, ps'), p, IndicesOf(s, p));
    }
  }

  /** The table order is sorted by `Before`. */
  lemma TableOrderSorted(s: seq<string>)
    ensures SortedBy(s, TableOrder(s))
  {
    FirstSeenOrdered(s);
    BlocksSorted(s, FirstSeen(s));
  }

  /** Rows of one provider are listed together: no other provider's row lies between two of them. */
  lemma TableOrderGrouped(s: seq<string>)
    ensures forall i, j, l :: 0 <= i < j < l < |TableOrder(s)| && s[TableOrder(s)[i]] == s[TableOrder(s)[l]] ==>
      s[TableOrder(s)[j]] == s[TableOrder(s)[i]]
  {
    var t := TableOrder(s);
    TableOrderSorted(s);
    forall i, j, l | 0 <= i < j < l < |t| && s[t[i]] == s[t[l]] ensures s[t[j]] == s[t[i]] {
      assert Before(s, t[i], t[j]) && Before(s, t[j], t[l]);
      var fi, fj := First(s, s[t[i]]), First(s, s[t[j]]);
      assert fi == fj;
      assert s[fi] == s[t[i]] && s[fj] == s[t[j]];
    }
  }

  // ---------------------------------------------------------------------------
  // Filing entries under their providers, and reading them back

  /** Every entry `(k, v)` carries the value at its key: `k < |vals|` and `v == vals[k]`. */
  ghost predicate Matches<V>(vals: seq<V>, entries: OrderedArray<nat, V>)
  {
    forall j :: 0 <= j < |entries| ==> entries[j].0 < |vals| && entries[j].1 == vals[entries[j].0]
  }

  lemma MatchesAppend<V>(vals: seq<V>, entries: OrderedArray<nat, V>, k: nat)
    requires Matches(vals, entries) && k < |vals|
    ensures Matches(vals, entries + [(k, vals[k])])
  {
  }

  /** Under each provider the keys are exactly its indices among the first `n` entries, ascending. */
  ghost predicate KeysFiled<V>(s: seq<string>, n: nat, groups: map<string, OrderedArray<nat, V>>)
    requires n <= |s|
  {
    forall p :: p in groups ==> Keys(groups[p]) == IndicesOf(s[..n], p)
  }

  /** Every filed entry carries the value at its key. */
  ghost predicate ValuesFiled<V>(vals: seq<V>, groups: map<string, OrderedArray<nat, V>>)
  {
    forall p :: p in groups ==> Matches(vals, groups[p])
  }

  /**
   * A provider-keyed PHP array after the first `n` entries were filed, given
   * as its key order and its contents: the providers in first-seen order,
   * under each provider exactly its indices, ascending, each with its value.
   */
  ghost predicate Filed<V>(s: seq<string>, vals: seq<V>, n: nat, order: seq<string>, groups: map<string, OrderedArray<nat, V>>)
    requires n <= |s|
  {
    && order == FirstSeen(s[..n])
    && (forall p :: p in groups <==> p in order)
    && KeysFiled(s, n, groups)
    && ValuesFiled(vals, groups)
  }

  /** Filing entry `i` adds its provider to the key order the first time it is seen. */
  lemma FileOrder(s: seq<string>, i: nat, order: seq<string>)
    requires i < |s| && order == FirstSeen(s[..i])
    ensures (if s[i] in order then order else order + [s[i]]) == FirstSeen(s[..i + 1])
  {
    assert s[..i + 1] == s[..i] + [s[i]];
    FirstSeenGrow(s[..i], s[i]);
  }

  /** Entry `i` adds key `i` to the key list of its own provider and leaves every other provider's keys alone. */
  lemma GrowKeys<V>(s: seq<string>, i: nat, q: string, list: OrderedArray<nat, V>, v: V)
    requires i < |s| && Keys(list) == IndicesOf(s[..i], q)
    ensures i !in Keys(list)
    ensures Keys(if s[i] == q then list + [(i, v)] else list) == IndicesOf(s[..i + 1], q)
  {
    assert s[..i + 1] == s[..i] + [s[i]];
    IndicesOfGrow(s[..i], s[i], q);
    KeysAppend(list, [(i, v)]);
  }

  /** Filing entry `i` under its provider appends key `i` to that provider's entries only. */
  lemma FileKeys<V>(s: seq<string>, i: nat, groups: map<string, OrderedArray<nat, V>>, v: V)
    requires i < |s|
    requires forall q :: q in groups <==> q in s[..i]
    requires KeysFiled(s, i, groups)
    ensures var p := s[i];
      var list := if p in groups then groups[p] else [];
      && i !in Keys(list)
      && KeysFiled(s, i + 1, groups[p := list + [(i, v)]])
  {
    var p := s[i];
    var list := if p in groups then groups[p] else [];
    var groups' := groups[p := list + [(i, v)]];
    if p !in groups {
      NoIndices(s[..i], p);
    }
    GrowKeys(s, i, p, list, v);
    forall q | q in groups' ensures Keys(groups'[q]) == IndicesOf(s[..i + 1], q) {
      if q != p {
        GrowKeys(s, i, q, groups[q], v);
      }
    }
  }

  lemma FileValues<V>(vals: seq<V>, groups: map<string, OrderedArray<nat, V>>, p: string, list: OrderedArray<nat, V>, i: nat)
    requires ValuesFiled(vals, groups) && Matches(vals, list) && i < |vals|
    ensures ValuesFiled(vals, groups[p := list + [(i, vals[i])]])
  {
    MatchesAppend(vals, list, i);
  }

  /**
   * Writing `$groups[s[i]][i] = vals[i]` keeps `Filed`, now for `i + 1`
   * entries: key `i` is new, so the write appends it.
   */
  lemma FileEntry<V>(s: seq<string>, vals: seq<V>, i: nat, order: seq<string>, groups: map<string, OrderedArray<nat, V>>)
    requires i < |s| && i < |vals| && Filed(s, vals, i, order, groups)
    ensures var p := s[i];
      var list := if p in groups then groups[p] else [];
      && Assign(list, i, vals[i]) == list + [(i, vals[i])]
      && Filed(s, vals, i + 1, if p in order then order else order + [p], groups[p := list + [(i, vals[i])]])
  {
    var p := s[i];
    var list := if p in groups then groups[p] else [];
    FileOrder(s, i, order);
    assert forall q :: q in groups <==> q in s[..i];
    FileKeys(s, i, groups, vals[i]);
    FileValues(vals, groups, p, list, i);
  }

  /**
   * Reading back the entries of provider `order[a]`: the `j`-th of them has
   * a key that neither an earlier provider's block nor an earlier entry of
   * the same provider holds.
   */
  lemma FreshKey(s: seq<string>, order: seq<string>, a: nat, keys: seq<nat>, j: nat)
    requires Distinct(order) && a < |order| && keys == IndicesOf(s, order[a]) && j < |keys|
    ensures keys[j] !in Blocks(s, order[..a]) + keys[..j]
  {
    var k := keys[j];
    assert k in keys;
  }

  /**
   * Writing the `j`-th entry of provider `order[a]` into the flattened array
   * appends it: its key is fresh, and the keys read so far are the earlier
   * providers' blocks followed by this provider's first `j + 1` indices.
   */
  lemma ReadEntry<V>(s: seq<string>, vals: seq<V>, order: seq<string>, a: nat, list: OrderedArray<nat, V>, j: nat, rows: OrderedArray<nat, V>)
    requires Distinct(order) && a < |order| && j < |list|
    requires Keys(list) == IndicesOf(s, order[a]) && Matches(vals, list)
    requires Keys(rows) == Blocks(s, order[..a]) + Keys(list)[..j] && Matches(vals, rows)
    ensures Assign(rows, list[j].0, list[j].1) == rows + [list[j]]
    ensures Keys(Assign(rows, list[j].0, list[j].1)) == Blocks(s, order[..a]) + Keys(list)[..j + 1]
    ensures Matches(vals, Assign(rows, list[j].0, list[j].1))
  {
    FreshKey(s, order, a, Keys(list), j);
    KeysPrefix(list, j);
    KeysAppend(rows, [list[j]]);
  }

  /** After all entries of provider `order[a]`, the keys read are the blocks of `order[..a + 1]`. */
  lemma ReadProvider<V>(s: seq<string>, order: seq<string>, a: nat, list: OrderedArray<nat, V>)
    requires a < |order| && Keys(list) == IndicesOf(s, order[a])
    ensures Blocks(s, order[..a]) + Keys(list)[..|list|] == Blocks(s, order[..a + 1])
  {
    assert Keys(list)[..|list|] == Keys(list);
    assert order[..a + 1] == order[..a] + [order[a]];
    BlocksSnoc(s, order[..a], order[a]);
  }
}
