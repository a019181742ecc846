/**
 * Group-and-sum over a sequence of items, with the groups kept in ascending
 * key order (a `groupby(key)[amount].sum()`), and the descending sort of
 * such groups by total followed by taking the first `n` (`sort_values(ascending=False).head(n)`).
 */
module Grouping {

  /** One row of a grouped summary: a key and the summed amount of its items. */
  datatype Group<K> = Group(key: K, total: real)

  ghost predicate StrictTotalOrder<K(!new)>(lt: (K, K) -> bool) {
    && (forall a :: !lt(a, a))
    && (forall a, b, c :: lt(a, b) && lt(b, c) ==> lt(a, c))
    && (forall a, b :: a != b ==> lt(a, b) || lt(b, a))
  }

  ghost predicate StrictlySorted<K>(gs: seq<Group<K>>, lt: (K, K) -> bool) {
    forall i, j :: 0 <= i < j < |gs| ==> lt(gs[i].key, gs[j].key)
  }

  /** The keys present in a summary. */
  function Keys<K>(gs: seq<Group<K>>): set<K> {
    set g | g in gs :: g.key
  }

  /** The summed amount of the items whose key is `k`. */
  function SumWhere<T, K(==)>(xs: seq<T>, key: T -> K, amount: T -> real, k: K): real {
    if xs == [] then 0.0
    else (if key(xs[0]) == k then amount(xs[0]) else 0.0) + SumWhere(xs[1..], key, amount, k)
  }

  /** The summed amount of all items. */
  function Sum<T>(xs: seq<T>, amount: T -> real): real {
    if xs == [] then 0.0 else amount(xs[0]) + Sum(xs[1..], amount)
  }

  /** The sum of the totals of a summary. */
  function Totals<K>(gs: seq<Group<K>>): real {
    if gs == [] then 0.0 else gs[0].total + Totals(gs[1..])
  }

  /** The total a summary lists for key `k` (added over every row with that key). */
  function TotalOf<K(==)>(gs: seq<Group<K>>, k: K): real {
    if gs == [] then 0.0 else (if gs[0].key == k then gs[0].total else 0.0) + TotalOf(gs[1..], k)
  }

  /** Adds `a` to the row for `k`, inserting a new row at its place in key order if there is none. */
  function AddTo<K(==)>(gs: seq<Group<K>>, k: K, a: real, lt: (K, K) -> bool): (r: seq<Group<K>>)
    ensures |gs| <= |r| <= |gs| + 1
  {
    if gs == [] then [Group(k, a)]
    else if gs[0].key == k then [Group(k, gs[0].total + a)] + gs[1..]
    else if lt(k, gs[0].key) then [Group(k, a)] + gs
    else [gs[0]] + AddTo(gs[1..], k, a, lt)
  }

  /** The grouped summary of `xs`: one row per distinct key, in ascending key order. */
  function GroupSum<T, K(==)>(xs: seq<T>, key: T -> K, amount: T -> real, lt: (K, K) -> bool): (r: seq<Group<K>>)
    ensures |r| <= |xs|
    ensures r == [] <==> xs == []
  {
    if xs == [] then [] else AddTo(GroupSum(xs[1..], key, amount, lt), key(xs[0]), amount(xs[0]), lt)
  }

  lemma {:induction false} AddToKeysAndTotals<K>(gs: seq<Group<K>>, k: K, a: real, lt: (K, K) -> bool)
    ensures Keys(AddTo(gs, k, a, lt)) == Keys(gs) + {k}
    ensures Totals(AddTo(gs, k, a, lt)) == Totals(gs) + a
    ensures forall k' :: TotalOf(AddTo(gs, k, a, lt), k') == TotalOf(gs, k') + (if k' == k then a else 0.0)
  {
    var r := AddTo(gs, k, a, lt);
    if gs == [] {
    } else if gs[0].key == k {
      assert r[1..] == gs[1..];
      assert Keys(gs) == {gs[0].key} + Keys(gs[1..]);
      assert Keys(r) == {k} + Keys(gs[1..]);
    } else if lt(k, gs[0].key) {
      assert r[1..] == gs;
      assert Keys(r) == {k} + Keys(gs);
    } else {
      AddToKeysAndTotals(gs[1..], k, a, lt);
      assert r[1..] == AddTo(gs[1..], k, a, lt);
      assert Keys(gs) == {gs[0].key} + Keys(gs[1..]);
      assert Keys(r) == {gs[0].key} + Keys(r[1..]);
    }
  }

  lemma {:induction false} AddToSorted<K(!new)>(gs: seq<Group<K>>, k: K, a: real, lt: (K, K) -> bool)
    requires StrictTotalOrder(lt) && StrictlySorted(gs, lt)
    ensures StrictlySorted(AddTo(gs, k, a, lt), lt)
  {
    if gs != [] {
      SortedTail(gs, lt);
      if gs[0].key == k {
        SortedCons(Group(k, gs[0].total + a), gs[1..], lt);
      } else if lt(k, gs[0].key) {
        assert gs == [gs[0]] + gs[1..];
        forall g | g in gs ensures lt(k, g.key) {
          if g != gs[0] {
            assert lt(gs[0].key, g.key);
          }
        }
        SortedCons(Group(k, a), gs, lt);
      } else {
        var rest := AddTo(gs[1..], k, a, lt);
        AddToSorted(gs[1..], k, a, lt);
        AddToKeysAndTotals(gs[1..], k, a, lt);
        forall g | g in rest ensures lt(gs[0].key, g.key) {
          assert g.key in Keys(rest);
          if g.key != k {
            var h :| h in gs[1..] && h.key == g.key;
          }
        }
        SortedCons(gs[0], rest, lt);
      }
    }
  }

  lemma SortedTail<K>(gs: seq<Group<K>>, lt: (K, K) -> bool)
    requires gs != [] && StrictlySorted(gs, lt)
    ensures StrictlySorted(gs[1..], lt)
    ensures forall g :: g in gs[1..] ==> lt(gs[0].key, g.key)
  {
    var rest := gs[1..];
    forall i, j | 0 <= i < j < |rest| ensures lt(rest[i].key, rest[j].key) {
      assert rest[i] == gs[i + 1] && rest[j] == gs[j + 1];
    }
    forall g | g in rest ensures lt(gs[0].key, g.key) {
      var j :| 0 <= j < |rest| && rest[j] == g;
      assert gs[j + 1] == g;
    }
  }

  lemma SortedCons<K>(h: Group<K>, rest: seq<Group<K>>, lt: (K, K) -> bool)
    requires StrictlySorted(rest, lt) && forall g :: g in rest ==> lt(h.key, g.key)
    ensures StrictlySorted([h] + rest, lt)
  {
    var r := [h] + rest;
    forall i, j | 0 <= i < j < |r| ensures lt(r[i].key, r[j].key) {
      assert r[j] == rest[j - 1];
      if i > 0 {
        assert r[i] == rest[i - 1];
      }
    }
  }

  /** In a summary with strictly ascending keys, each row's total is the total listed for its key. */
  lemma {:induction false} SortedRowTotal<K(!new)>(gs: seq<Group<K>>, i: nat, lt: (K, K) -> bool)
    requires StrictTotalOrder(lt) && StrictlySorted(gs, lt) && i < |gs|
    ensures gs[i].total == TotalOf(gs, gs[i].key)
  {
    if i == 0 {
      TotalOfAbsent(gs[1..], gs[0].key, lt);
    } else {
      assert lt(gs[0].key, gs[i].key);
      SortedRowTotal(gs[1..], i - 1, lt);
    }
  }

  lemma {:induction false} TotalOfAbsent<K(!new)>(gs: seq<Group<K>>, k: K, lt: (K, K) -> bool)
    requires StrictTotalOrder(lt) && StrictlySorted(gs, lt)
    requires forall g :: g in gs ==> lt(k, g.key)
    ensures TotalOf(gs, k) == 0.0
  {
    if gs != [] {
      TotalOfAbsent(gs[1..], k, lt);
    }
  }

  /**
   * The grouped summary lists each distinct key of `xs` exactly once, in
   * strictly ascending key order; each row's total is the sum of the amounts
   * of the items with that key, and the totals add up to the sum of all amounts.
   */
  lemma {:induction false} GroupSumSpec<T, K(!new)>(xs: seq<T>, key: T -> K, amount: T -> real, lt: (K, K) -> bool)
    requires StrictTotalOrder(lt)
    ensures StrictlySorted(GroupSum(xs, key, amount, lt), lt)
    ensures Keys(GroupSum(xs, key, amount, lt)) == set x | x in xs :: key(x)
    ensures forall k :: TotalOf(GroupSum(xs, key, amount, lt), k) == SumWhere(xs, key, amount, k)
    ensures forall i :: 0 <= i < |GroupSum(xs, key, amount, lt)| ==>
              GroupSum(xs, key, amount, lt)[i].total == SumWhere(xs, key, amount, GroupSum(xs, key, amount, lt)[i].key)
    ensures Totals(GroupSum(xs, key, amount, lt)) == Sum(xs, amount)
  {
    var r := GroupSum(xs, key, amount, lt);
    if xs != [] {
      var rest := GroupSum(xs[1..], key, amount, lt);
      GroupSumSpec(xs[1..], key, amount, lt);
      AddToKeysAndTotals(rest, key(xs[0]), amount(xs[0]), lt);
      AddToSorted(rest, key(xs[0]), amount(xs[0]), lt);
      assert (set x | x in xs :: key(x)) == (set x | x in xs[1..] :: key(x)) + {key(xs[0])} by {
        assert xs == [xs[0]] + xs[1..];
      }
    }
    forall i | 0 <= i < |r| ensures r[i].total == SumWhere(xs, key, amount, r[i].key) {
      SortedRowTotal(r, i, lt);
    }
  }

  /** A summary with strictly ascending keys has exactly one row per key. */
  lemma {:induction false} SortedKeysCount<K(!new)>(gs: seq<Group<K>>, lt: (K, K) -> bool)
    requires (forall a :: !lt(a, a)) && StrictlySorted(gs, lt)
    ensures |Keys(gs)| == |gs|
  {
    if gs != [] {
      SortedTail(gs, lt);
      SortedKeysCount(gs[1..], lt);
      HeadKeyFresh(gs, lt);
      KeysCons(gs);
    }
  }

  lemma KeysCons<K>(gs: seq<Group<K>>)
    requires gs != []
    ensures Keys(gs) == {gs[0].key} + Keys(gs[1..])
  {
    assert gs == [gs[0]] + gs[1..];
  }

  /** With strictly ascending keys the first key does not come back later. */
  lemma HeadKeyFresh<K>(gs: seq<Group<K>>, lt: (K, K) -> bool)
    requires gs != [] && (forall a :: !lt(a, a)) && StrictlySorted(gs, lt)
    ensures gs[0].key !in Keys(gs[1..])
  {
    SortedTail(gs, lt);
  }

  // ---------------------------------------------------- top-n by total

  /** Totals never increase along the sequence. */
  predicate NonIncreasing<K>(gs: seq<Group<K>>) {
    forall i, j :: 0 <= i < j < |gs| ==> gs[j].total <= gs[i].total
  }

  /** Inserts `g` into a non-increasing sequence, after every row whose total is at least `g`'s. */
  function InsertDesc<K>(g: Group<K>, gs: seq<Group<K>>): (r: seq<Group<K>>)
    requires NonIncreasing(gs)
    ensures NonIncreasing(r)
    ensures multiset(r) == multiset(gs) + multiset{g}
  {
    if gs == [] || gs[0].total < g.total then [g] + gs
    else
      var rest := InsertDesc(g, gs[1..]);
      InsertAfterHead(g, gs, rest);
      [gs[0]] + rest
  }

  /** Putting the head of `gs` back in front of `g` inserted into the tail keeps the order and the rows. */
  lemma InsertAfterHead<K>(g: Group<K>, gs: seq<Group<K>>, rest: seq<Group<K>>)
    requires gs != [] && NonIncreasing(gs) && g.total <= gs[0].total
    requires NonIncreasing(rest) && multiset(rest) == multiset(gs[1..]) + multiset{g}
    ensures NonIncreasing([gs[0]] + rest)
    ensures multiset([gs[0]] + rest) == multiset(gs) + multiset{g}
  {
    assert gs == [gs[0]] + gs[1..];
    forall k | 0 <= k < |rest| ensures rest[k].total <= gs[0].total {
      assert rest[k] in multiset(rest);
      if rest[k] != g {
        assert rest[k] in multiset(gs[1..]);
        var m :| 0 <= m < |gs[1..]| && gs[1..][m] == rest[k];
        assert gs[m + 1] == rest[k];
      }
    }
    var r := [gs[0]] + rest;
    forall i, j | 0 <= i < j < |r| ensures r[j].total <= r[i].total {
      if i > 0 {
        assert r[i] == rest[i - 1] && r[j] == rest[j - 1];
      } else {
        assert r[j] == rest[j - 1];
      }
    }
  }

  /** The rows in non-increasing order of total: a permutation of `gs`. */
  function SortDesc<K>(gs: seq<Group<K>>): (r: seq<Group<K>>)
    ensures NonIncreasing(r)
    ensures multiset(r) == multiset(gs)
  {
    if gs == [] then []
    else
      assert gs == [gs[0]] + gs[1..];
      InsertDesc(gs[0], SortDesc(gs[1..]))
  }

  function Min(a: int, b: int): int { if a < b then a else b }

  /**
   * The `n` rows with the largest totals, largest first: every row left out
   * has a total no larger than any row kept.
   */
  function Top<K>(gs: seq<Group<K>>, n: nat): (r: seq<Group<K>>)
    ensures |r| == Min(n, |gs|)
    ensures NonIncreasing(r)
    ensures multiset(r) <= multiset(gs)
    ensures forall g, t :: g in multiset(gs) - multiset(r) && t in r ==> g.total <= t.total
  {
    var sorted := SortDesc(gs);
    var m := Min(n, |gs|);
    PrefixDominates(sorted, m);
    sorted[..m]
  }

  lemma PrefixDominates<K>(sorted: seq<Group<K>>, m: nat)
    requires NonIncreasing(sorted) && m <= |sorted|
    ensures multiset(sorted) - multiset(sorted[..m]) == multiset(sorted[m..])
    ensures forall g, t :: g in multiset(sorted[m..]) && t in sorted[..m] ==> g.total <= t.total
  {
    assert sorted == sorted[..m] + sorted[m..];
    forall g, t | g in multiset(sorted[m..]) && t in sorted[..m] ensures g.total <= t.total {
      var j :| 0 <= j < |sorted[m..]| && sorted[m..][j] == g;
      var i :| 0 <= i < m && sorted[..m][i] == t;
      assert sorted[m + j] == g && sorted[i] == t;
    }
  }
}
