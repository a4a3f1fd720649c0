/**
 The fan-in of `compress_files_parallel`: workers report `(index, path)` pairs in
 whatever order they finish, and the collected pairs are sorted by index. The
 sort is an insertion sort by key, which, like the library's stable sort, keeps
 equal keys in arrival order. The main fact here is that the sorted reports are
 the indexed outputs in input order whatever the completion order was.
 */
module FanIn {

  /** `order` lists each of `0 .. n-1` exactly once: the order in which the `n`
      workers finish. */
  predicate IsPermutation(order: seq<nat>, n: nat) {
    && |order| == n
    && (forall t :: 0 <= t < n ==> order[t] < n)
    && (forall i :: 0 <= i < n ==> i in order)
    && (forall s, t :: 0 <= s < t < n ==> order[s] != order[t])
  }

  /** The workers finishing in input order. */
  function InOrder(n: nat): (order: seq<nat>)
    ensures IsPermutation(order, n)
  {
    var order := seq(n, i requires 0 <= i => i);
    assert forall i :: 0 <= i < n ==> i in order by {
      forall i | 0 <= i < n
        ensures i in order
      {
        assert order[i] == i;
      }
    }
    order
  }

  /** The reports as they arrive: worker `order[t]` is the `t`-th to finish. */
  function Arrivals<T>(order: seq<nat>, outs: seq<T>): (msgs: seq<(nat, T)>)
    requires IsPermutation(order, |outs|)
    ensures |msgs| == |outs|
    ensures forall t :: 0 <= t < |msgs| ==> msgs[t] == (order[t], outs[order[t]])
  {
    seq(|order|, t requires 0 <= t < |order| => (order[t], outs[order[t]]))
  }

  /** The reports in input order. */
  function Indexed<T>(outs: seq<T>): (msgs: seq<(nat, T)>)
    ensures |msgs| == |outs|
    ensures forall i :: 0 <= i < |outs| ==> msgs[i] == (i, outs[i])
  {
    seq(|outs|, i requires 0 <= i < |outs| => (i, outs[i]))
  }

  predicate SortedByKey<T>(s: seq<(nat, T)>) {
    forall i, j :: 0 <= i < j < |s| ==> s[i].0 <= s[j].0
  }

  predicate StrictlySortedByKey<T>(s: seq<(nat, T)>) {
    forall i, j :: 0 <= i < j < |s| ==> s[i].0 < s[j].0
  }

  predicate DistinctKeys<T>(s: seq<(nat, T)>) {
    forall i, j :: 0 <= i < j < |s| ==> s[i].0 != s[j].0
  }

  /** Inserts `x` before the first element whose key is not smaller. */
  function Insert<T>(x: (nat, T), s: seq<(nat, T)>): (r: seq<(nat, T)>)
    ensures |r| == |s| + 1
  {
    if s == [] then [x]
    else if x.0 <= s[0].0 then [x] + s
    else [s[0]] + Insert(x, s[1..])
  }

  /** Every element of `Insert(x, s)` is `x` or taken from `s`. */
  lemma InsertFrom<T>(x: (nat, T), s: seq<(nat, T)>, k: nat)
    requires k < |Insert(x, s)|
    ensures Insert(x, s)[k] == x || Insert(x, s)[k] in s
  {
    InsertPermutes(x, s);
    assert Insert(x, s)[k] in multiset(Insert(x, s));
  }

  /** Insertion keeps a sorted sequence sorted. */
  lemma {:induction false} InsertSorted<T>(x: (nat, T), s: seq<(nat, T)>)
    requires SortedByKey(s)
    ensures SortedByKey(Insert(x, s))
    decreases |s|
  {
    if s != [] && x.0 > s[0].0 {
      var tail := Insert(x, s[1..]);
      var r := Insert(x, s);
      InsertSorted(x, s[1..]);
      assert r == [s[0]] + tail;
      forall i, j | 0 <= i < j < |r|
        ensures r[i].0 <= r[j].0
      {
        assert r[j] == tail[j - 1];
        if i == 0 {
          InsertFrom(x, s[1..], j - 1);
        } else {
          assert r[i] == tail[i - 1];
        }
      }
    }
  }

  /** Inserting a new key into a strictly sorted sequence keeps it strictly sorted. */
  lemma {:induction false} InsertStrictlySorted<T>(x: (nat, T), s: seq<(nat, T)>)
    requires StrictlySortedByKey(s)
    requires forall k :: 0 <= k < |s| ==> s[k].0 != x.0
    ensures StrictlySortedByKey(Insert(x, s))
    decreases |s|
  {
    if s != [] && x.0 > s[0].0 {
      var tail := Insert(x, s[1..]);
      var r := Insert(x, s);
      InsertStrictlySorted(x, s[1..]);
      assert r == [s[0]] + tail;
      forall i, j | 0 <= i < j < |r|
        ensures r[i].0 < r[j].0
      {
        assert r[j] == tail[j - 1];
        if i == 0 {
          InsertFrom(x, s[1..], j - 1);
        } else {
          assert r[i] == tail[i - 1];
        }
      }
    }
  }

  /** Insertion adds exactly one occurrence of `x`. */
  lemma {:induction false} InsertPermutes<T>(x: (nat, T), s: seq<(nat, T)>)
    ensures multiset(Insert(x, s)) == multiset(s) + multiset{x}
    decreases |s|
  {
    if s != [] && x.0 > s[0].0 {
      InsertPermutes(x, s[1..]);
      assert s == [s[0]] + s[1..];
      assert Insert(x, s) == [s[0]] + Insert(x, s[1..]);
    }
  }

  /** `sort_by_key(|k| k.0)`, as an insertion sort. */
  function SortByKey<T>(s: seq<(nat, T)>): (r: seq<(nat, T)>)
    ensures |r| == |s|
  {
    if s == [] then [] else Insert(s[0], SortByKey(s[1..]))
  }

  /** The sort's output is a permutation of its input. */
  lemma {:induction false} SortByKeyPermutes<T>(s: seq<(nat, T)>)
    ensures multiset(SortByKey(s)) == multiset(s)
    decreases |s|
  {
    if s != [] {
      SortByKeyPermutes(s[1..]);
      InsertPermutes(s[0], SortByKey(s[1..]));
      assert s == [s[0]] + s[1..];
    }
  }

  /** The sort's output is ordered by key. */
  lemma {:induction false} SortByKeySorted<T>(s: seq<(nat, T)>)
    ensures SortedByKey(SortByKey(s))
    decreases |s|
  {
    if s != [] {
      SortByKeySorted(s[1..]);
      InsertSorted(s[0], SortByKey(s[1..]));
    }
  }

  /** With distinct keys the sort's output is strictly ordered by key. */
  lemma {:induction false} SortByKeyStrict<T>(s: seq<(nat, T)>)
    requires DistinctKeys(s)
    ensures StrictlySortedByKey(SortByKey(s))
    decreases |s|
  {
    if s != [] {
      var sorted := SortByKey(s[1..]);
      assert DistinctKeys(s[1..]);
      SortByKeyStrict(s[1..]);
      SortByKeyPermutes(s[1..]);
      forall k | 0 <= k < |sorted|
        ensures sorted[k].0 != s[0].0
      {
        assert sorted[k] in multiset(sorted);
        assert sorted[k] in s[1..];
        var m :| 0 <= m < |s[1..]| && s[1..][m] == sorted[k];
        assert s[m + 1] == sorted[k];
      }
      InsertStrictlySorted(s[0], sorted);
    }
  }

  /** In a strictly increasing sequence of keys, keys grow at least as fast as positions. */
  lemma {:induction false} KeysSpread<T>(r: seq<(nat, T)>, i: nat, j: nat)
    requires StrictlySortedByKey(r)
    requires i <= j < |r|
    ensures r[j].0 - r[i].0 >= j - i
    decreases j - i
  {
    if i < j {
      KeysSpread(r, i + 1, j);
    }
  }

  /** `n` strictly increasing keys below `n` are exactly `0 .. n-1`. */
  lemma KeysArePositions<T>(r: seq<(nat, T)>)
    requires StrictlySortedByKey(r)
    requires forall k :: 0 <= k < |r| ==> r[k].0 < |r|
    ensures forall i :: 0 <= i < |r| ==> r[i].0 == i
  {
    forall i | 0 <= i < |r|
      ensures r[i].0 == i
    {
      KeysSpread(r, 0, i);
      KeysSpread(r, i, |r| - 1);
    }
  }

  /** Fan-in restores input order: sorting the reports, in any completion order,
      by index gives worker `i`'s output at position `i`. */
  lemma FanInRestoresOrder<T>(order: seq<nat>, outs: seq<T>)
    requires IsPermutation(order, |outs|)
    ensures SortByKey(Arrivals(order, outs)) == Indexed(outs)
  {
    var n := |outs|;
    var msgs := Arrivals(order, outs);
    var r := SortByKey(msgs);
    assert DistinctKeys(msgs);
    SortByKeyStrict(msgs);
    SortByKeyPermutes(msgs);
    forall k | 0 <= k < n
      ensures exists t :: 0 <= t < n && r[k] == msgs[t]
    {
      assert r[k] in multiset(r);
      assert r[k] in msgs;
    }
    KeysArePositions(r);
  }

  /** Corollary: the sorted reports do not depend on the completion order. */
  lemma CompletionOrderIrrelevant<T>(order1: seq<nat>, order2: seq<nat>, outs: seq<T>)
    requires IsPermutation(order1, |outs|) && IsPermutation(order2, |outs|)
    ensures SortByKey(Arrivals(order1, outs)) == SortByKey(Arrivals(order2, outs))
  {
    FanInRestoresOrder(order1, outs);
    FanInRestoresOrder(order2, outs);
  }
}
