/**
 * Python's `collections.Counter` as the analyzer uses it: `c[k] += 1` on a
 * possibly absent key, iteration over `items()` in insertion order, and
 * `most_common(n)`, which ranks entries by count, highest first, keeps
 * entries of equal count in insertion order and keeps the first `n`.
 */
module Counting {

  type Entry = (string, nat)

  /** `counts[k]` on a Counter: an absent key reads as 0. */
  function Get(counts: map<string, nat>, k: string): nat {
    if k in counts then counts[k] else 0
  }

  /** The tally of a sequence of keys: every key that occurs, with its number of occurrences. */
  function CountsOf(keys: seq<string>): map<string, nat> {
    map k | k in multiset(keys) :: multiset(keys)[k]
  }

  /** Exactly the keys that occur are counted, each with its number of occurrences. */
  lemma CountsOfCounts(keys: seq<string>)
    ensures forall k :: k in CountsOf(keys) <==> k in keys
    ensures forall k :: Get(CountsOf(keys), k) == multiset(keys)[k]
  {
  }

  predicate Distinct(s: seq<string>) {
    forall i, j :: 0 <= i < j < |s| ==> s[i] != s[j]
  }

  /** The keys in the order in which each was first seen (dict insertion order). */
  function FirstSeen(keys: seq<string>): seq<string> {
    if keys == [] then []
    else
      var init := keys[..|keys| - 1];
      var k := keys[|keys| - 1];
      assert keys == init + [k];
      var p := FirstSeen(init);
      if k in p then p else p + [k]
  }

  /** Every key that occurs is listed, once. */
  lemma {:induction false} FirstSeenLists(keys: seq<string>)
    ensures forall k :: k in FirstSeen(keys) <==> k in keys
    ensures Distinct(FirstSeen(keys))
  {
    if keys != [] {
      var init := keys[..|keys| - 1];
      assert keys == init + [keys[|keys| - 1]];
      FirstSeenLists(init);
    }
  }

  /** `counts` after `counts[k] += 1`. */
  function Bump(counts: map<string, nat>, k: string): map<string, nat> {
    counts[k := Get(counts, k) + 1]
  }

  /** The insertion order after `counts[k] += 1`: a key not yet counted joins the end. */
  function Enlist(order: seq<string>, counts: map<string, nat>, k: string): seq<string> {
    if k in counts then order else order + [k]
  }

  /** Counting one more key: its count goes up by one and no other count changes. */
  lemma {:induction false} CountsOfSnoc(keys: seq<string>, k: string)
    ensures CountsOf(keys + [k]) == Bump(CountsOf(keys), k)
  {
    var m := CountsOf(keys);
    var m' := CountsOf(keys + [k]);
    assert multiset(keys + [k]) == multiset(keys) + multiset{k};
    forall x
      ensures x in m' <==> x in Bump(m, k)
    {
      assert x in keys + [k] <==> x in keys || x == k;
    }
    forall x | x in m'
      ensures m'[x] == Bump(m, k)[x]
    {
      assert Get(m', x) == m'[x];
    }
  }

  /** A key seen before keeps its place; a new key goes to the end. */
  lemma FirstSeenSnoc(keys: seq<string>, k: string)
    ensures FirstSeen(keys + [k]) == Enlist(FirstSeen(keys), CountsOf(keys), k)
  {
    assert (keys + [k])[..|keys|] == keys;
    CountsOfCounts(keys);
    FirstSeenLists(keys);
  }

  /** `items()`: each key of `order` with its count. */
  function Items(counts: map<string, nat>, order: seq<string>): (items: seq<Entry>)
    ensures |items| == |order|
    ensures forall i :: 0 <= i < |order| ==> items[i] == (order[i], Get(counts, order[i]))
  {
    seq(|order|, i requires 0 <= i < |order| => (order[i], Get(counts, order[i])))
  }

  /** The sum of the counts of a list of entries. */
  function Total(items: seq<Entry>): nat {
    if items == [] then 0 else Total(items[..|items| - 1]) + items[|items| - 1].1
  }

  lemma ItemsSnoc(counts: map<string, nat>, order: seq<string>, k: string)
    ensures Items(counts, order + [k]) == Items(counts, order) + [(k, Get(counts, k))]
  {
  }

  lemma TotalSnoc(items: seq<Entry>, e: Entry)
    ensures Total(items + [e]) == Total(items) + e.1
  {
    assert (items + [e])[..|items|] == items;
  }

  /** Counts that agree on every key of `order` give the same items. */
  lemma ItemsFrame(c: map<string, nat>, c': map<string, nat>, order: seq<string>)
    requires forall x :: x in order ==> Get(c, x) == Get(c', x)
    ensures Items(c, order) == Items(c', order)
  {
  }

  /** Raising one listed key by one raises the total by one. */
  lemma {:induction false} TotalBump(c: map<string, nat>, c': map<string, nat>, order: seq<string>, k: string)
    requires Distinct(order) && k in order
    requires Get(c', k) == Get(c, k) + 1
    requires forall x :: x != k ==> Get(c', x) == Get(c, x)
    ensures Total(Items(c', order)) == Total(Items(c, order)) + 1
  {
    var init := order[..|order| - 1];
    var x := order[|order| - 1];
    assert order == init + [x];
    ItemsSnoc(c, init, x);
    ItemsSnoc(c', init, x);
    TotalSnoc(Items(c, init), (x, Get(c, x)));
    TotalSnoc(Items(c', init), (x, Get(c', x)));
    if x == k {
      assert k !in init;
      ItemsFrame(c, c', init);
    } else {
      assert Distinct(init) by {
        forall i, j | 0 <= i < j < |init| ensures init[i] != init[j] {
          assert init[i] == order[i] && init[j] == order[j];
        }
      }
      TotalBump(c, c', init, k);
    }
  }

  /** The counts of a tally add up to the number of keys counted. */
  lemma {:induction false} TotalOfTally(keys: seq<string>)
    ensures Total(Items(CountsOf(keys), FirstSeen(keys))) == |keys|
  {
    if keys != [] {
      var init := keys[..|keys| - 1];
      var k := keys[|keys| - 1];
      assert keys == init + [k];
      TotalOfTally(init);
      CountsOfSnoc(init, k);
      FirstSeenSnoc(init, k);
      var c := CountsOf(init);
      var c' := CountsOf(keys);
      var p := FirstSeen(init);
      FirstSeenLists(init);
      CountsOfCounts(init);
      if k in init {
        TotalBump(c, c', p, k);
      } else {
        ItemsFrame(c, c', p);
        ItemsSnoc(c', p, k);
        TotalSnoc(Items(c', p), (k, Get(c', k)));
      }
    }
  }

  // ---------------------------------------------------------------------
  // most_common(n)

  /** Counts never increase from left to right. */
  predicate NonIncreasing(s: seq<Entry>) {
    forall i, j :: 0 <= i < j < |s| ==> s[i].1 >= s[j].1
  }

  /** The entries of `s` whose count is `c`, in their order in `s`. */
  function WithCount(s: seq<Entry>, c: nat): seq<Entry> {
    if s == [] then []
    else WithCount(s[..|s| - 1], c) + (if s[|s| - 1].1 == c then [s[|s| - 1]] else [])
  }

  lemma {:induction false} WithCountAppend(s: seq<Entry>, t: seq<Entry>, c: nat)
    ensures WithCount(s + t, c) == WithCount(s, c) + WithCount(t, c)
    decreases |t|
  {
    if t == [] {
      assert s + t == s;
    } else {
      var t0 := t[..|t| - 1];
      assert (s + t)[..|s + t| - 1] == s + t0;
      WithCountAppend(s, t0, c);
    }
  }

  lemma WithCountSingle(x: Entry, c: nat)
    ensures WithCount([x], c) == if x.1 == c then [x] else []
  {
    assert [x][..0] == [];
  }

  /** Places `x` after every entry of `s` whose count is at least its own. */
  function InsertByCount(x: Entry, s: seq<Entry>): (r: seq<Entry>)
    ensures |r| == |s| + 1
    ensures multiset(r) == multiset(s) + multiset{x}
    ensures r[0] == if s != [] && s[0].1 >= x.1 then s[0] else x
  {
    if s == [] then [x]
    else if s[0].1 >= x.1 then
      assert s == [s[0]] + s[1..];
      [s[0]] + InsertByCount(x, s[1..])
    else [x] + s
  }

  lemma {:induction false} InsertByCountSorted(x: Entry, s: seq<Entry>)
    requires NonIncreasing(s)
    ensures NonIncreasing(InsertByCount(x, s))
  {
    if s != [] && s[0].1 >= x.1 {
      InsertByCountSorted(x, s[1..]);
      var r := InsertByCount(x, s[1..]);
      assert s[0].1 >= r[0].1;
      var r' := [s[0]] + r;
      forall i, j | 0 <= i < j < |r'| ensures r'[i].1 >= r'[j].1 {
        if i == 0 {
          assert r[0].1 >= r[j - 1].1 || j == 1;
        } else {
          assert r'[i] == r[i - 1] && r'[j] == r[j - 1];
        }
      }
    }
  }

  lemma {:induction false} InsertByCountStable(x: Entry, s: seq<Entry>, c: nat)
    requires NonIncreasing(s)
    ensures WithCount(InsertByCount(x, s), c) == WithCount(s, c) + WithCount([x], c)
    decreases |s|, 1
  {
    if s == [] {
    } else if s[0].1 >= x.1 {
      InsertAfterHead(x, s, c);
    } else {
      InsertAtHead(x, s, c);
    }
  }

  lemma {:induction false} InsertAfterHead(x: Entry, s: seq<Entry>, c: nat)
    requires NonIncreasing(s) && s != [] && s[0].1 >= x.1
    ensures WithCount(InsertByCount(x, s), c) == WithCount(s, c) + WithCount([x], c)
    decreases |s|, 0
  {
    var head, tail := [s[0]], s[1..];
    assert s == head + tail;
    NonIncreasingTail(s);
    calc {
      WithCount(InsertByCount(x, s), c);
      WithCount(head + InsertByCount(x, tail), c);
      { WithCountAppend(head, InsertByCount(x, tail), c); }
      WithCount(head, c) + WithCount(InsertByCount(x, tail), c);
      { InsertByCountStable(x, tail, c); }
      WithCount(head, c) + (WithCount(tail, c) + WithCount([x], c));
      (WithCount(head, c) + WithCount(tail, c)) + WithCount([x], c);
      { WithCountAppend(head, tail, c); }
      WithCount(s, c) + WithCount([x], c);
    }
  }

  lemma NonIncreasingTail(s: seq<Entry>)
    requires NonIncreasing(s) && s != []
    ensures NonIncreasing(s[1..])
  {
    forall i, j | 0 <= i < j < |s| - 1 ensures s[1..][i].1 >= s[1..][j].1 {
      assert s[1..][i] == s[i + 1] && s[1..][j] == s[j + 1];
    }
  }

  lemma {:induction false} InsertAtHead(x: Entry, s: seq<Entry>, c: nat)
    requires NonIncreasing(s) && s != [] && s[0].1 < x.1
    ensures WithCount(InsertByCount(x, s), c) == WithCount(s, c) + WithCount([x], c)
  {
    assert InsertByCount(x, s) == [x] + s;
    WithCountAppend([x], s, c);
    WithCountSingle(x, c);
    if x.1 == c {
      NoneWithCount(s, c);
    }
  }

  /** In a list ranked highest first whose head is below `c`, no entry has count `c`. */
  lemma {:induction false} NoneWithCount(s: seq<Entry>, c: nat)
    requires NonIncreasing(s)
    requires s != [] && s[0].1 < c
    ensures WithCount(s, c) == []
    decreases |s|
  {
    if |s| > 1 {
      NoneWithCount(s[..|s| - 1], c);
    } else {
      assert s[..0] == [];
    }
  }

  /** Ranks entries by count, highest first; entries of equal count keep their order. */
  function SortByCount(items: seq<Entry>): (r: seq<Entry>)
    ensures |r| == |items|
    ensures multiset(r) == multiset(items)
  {
    if items == [] then []
    else
      var init := items[..|items| - 1];
      assert items == init + [items[|items| - 1]];
      InsertByCount(items[|items| - 1], SortByCount(init))
  }

  /** The ranking is ordered and stable: for every count, the entries with it appear in input order. */
  lemma {:induction false} SortByCountStable(items: seq<Entry>)
    ensures NonIncreasing(SortByCount(items))
    ensures forall c :: WithCount(SortByCount(items), c) == WithCount(items, c)
  {
    if items != [] {
      var init := items[..|items| - 1];
      var x := items[|items| - 1];
      assert items == init + [x];
      SortByCountStable(init);
      InsertByCountSorted(x, SortByCount(init));
      forall c ensures WithCount(SortByCount(items), c) == WithCount(items, c) {
        InsertByCountStable(x, SortByCount(init), c);
        WithCountAppend(init, [x], c);
      }
    }
  }

  lemma {:induction false} WithCountPrefix(s: seq<Entry>, n: nat, c: nat)
    requires n <= |s|
    ensures WithCount(s[..n], c) <= WithCount(s, c)
  {
    assert s == s[..n] + s[n..];
    WithCountAppend(s[..n], s[n..], c);
  }

  function Min(a: nat, b: nat): nat {
    if a <= b then a else b
  }

  /** No entry of `rest` counts more than any entry of `kept`. */
  ghost predicate Outranks(kept: seq<Entry>, rest: multiset<Entry>) {
    forall e, j :: e in rest && 0 <= j < |kept| ==> e.1 <= kept[j].1
  }

  /** Every entry beyond the first `k` of a ranking counts no more than any of the first `k`. */
  lemma RankedPrefixDominates(sorted: seq<Entry>, k: nat)
    requires NonIncreasing(sorted) && k <= |sorted|
    ensures multiset(sorted[..k]) <= multiset(sorted)
    ensures Outranks(sorted[..k], multiset(sorted) - multiset(sorted[..k]))
  {
    assert sorted == sorted[..k] + sorted[k..];
    assert multiset(sorted) == multiset(sorted[..k]) + multiset(sorted[k..]);
    forall e, j | e in multiset(sorted) - multiset(sorted[..k]) && 0 <= j < k
      ensures e.1 <= sorted[j].1
    {
      assert e in multiset(sorted[k..]);
      var m :| 0 <= m < |sorted[k..]| && sorted[k..][m] == e;
      assert sorted[k + m] == e;
    }
  }

  lemma NonIncreasingPrefix(s: seq<Entry>, k: nat)
    requires NonIncreasing(s) && k <= |s|
    ensures NonIncreasing(s[..k])
  {
  }

  /** The first `k` entries of the stable ranking of `items`, and what they satisfy. */
  lemma RankingPrefix(items: seq<Entry>, k: nat)
    requires k <= |items|
    ensures NonIncreasing(SortByCount(items)[..k])
    ensures multiset(SortByCount(items)[..k]) <= multiset(items)
    ensures Outranks(SortByCount(items)[..k], multiset(items) - multiset(SortByCount(items)[..k]))
    ensures forall c :: WithCount(SortByCount(items)[..k], c) <= WithCount(items, c)
  {
    var sorted := SortByCount(items);
    SortByCountStable(items);
    NonIncreasingPrefix(sorted, k);
    RankedPrefixDominates(sorted, k);
    forall c ensures WithCount(sorted[..k], c) <= WithCount(items, c) {
      WithCountPrefix(sorted, k, c);
    }
  }

  /**
   * `most_common(n)`: at most `n` entries, highest count first, drawn from
   * `items`; every entry left out counts no more than any entry kept, and
   * among entries of equal count the ones kept are the earliest, in order.
   */
  function MostCommon(items: seq<Entry>, n: nat): (r: seq<Entry>)
    ensures |r| == Min(n, |items|)
    ensures NonIncreasing(r)
    ensures multiset(r) <= multiset(items)
    ensures Outranks(r, multiset(items) - multiset(r))
    ensures forall c :: WithCount(r, c) <= WithCount(items, c)
  {
    RankingPrefix(items, Min(n, |items|));
    SortByCount(items)[..Min(n, |items|)]
  }

  /** The items of a tally: exactly the counted keys, each once, with its count. */
  lemma {:induction false} ItemsOfTally(keys: seq<string>)
    ensures forall e :: e in Items(CountsOf(keys), FirstSeen(keys)) <==>
      e.0 in CountsOf(keys) && e.1 == CountsOf(keys)[e.0]
    ensures Items(CountsOf(keys), FirstSeen(keys)) == [] <==> CountsOf(keys) == map[]
  {
    CountsOfCounts(keys);
    FirstSeenLists(keys);
    var counts := CountsOf(keys);
    var order := FirstSeen(keys);
    var items := Items(counts, order);
    forall e | e in items
      ensures e.0 in counts && e.1 == counts[e.0]
    {
      var i :| 0 <= i < |items| && items[i] == e;
      assert e.0 == order[i];
    }
    forall e: Entry | e.0 in counts && e.1 == counts[e.0]
      ensures e in items
    {
      var i :| 0 <= i < |order| && order[i] == e.0;
      assert items[i] == e;
    }
    if counts != map[] {
      var k :| k in counts;
      assert (k, counts[k]) in items;
    }
  }

  /**
   * `most_common(n)` of a tally: at most `n` entries, highest count first,
   * and nothing is shown only when nothing was counted (for `n > 0`).
   */
  lemma MostCommonOfTallyShape(keys: seq<string>, n: nat)
    ensures var r := MostCommon(Items(CountsOf(keys), FirstSeen(keys)), n);
      |r| <= n && NonIncreasing(r) && (n > 0 ==> (r == [] <==> CountsOf(keys) == map[]))
  {
    ItemsOfTally(keys);
  }

  /** A list of distinct keys has as many members as entries. */
  lemma {:induction false} DistinctCard(s: seq<string>)
    requires Distinct(s)
    ensures |set x | x in s| == |s|
  {
    if s != [] {
      var init := s[..|s| - 1];
      var last := s[|s| - 1];
      assert Distinct(init) by {
        forall i, j | 0 <= i < j < |init| ensures init[i] != init[j] {
          assert init[i] == s[i] && init[j] == s[j];
        }
      }
      DistinctCard(init);
      assert last !in init by {
        forall i | 0 <= i < |init| ensures init[i] != last {
          assert init[i] == s[i];
        }
      }
      assert (set x | x in s) == (set x | x in init) + {last} by {
        assert s == init + [last];
      }
    }
  }

  /** A tally has one key for each entry of its key order. */
  lemma TallySize(keys: seq<string>)
    ensures |CountsOf(keys)| == |FirstSeen(keys)|
  {
    FirstSeenLists(keys);
    CountsOfCounts(keys);
    DistinctCard(FirstSeen(keys));
    assert CountsOf(keys).Keys == set x | x in FirstSeen(keys);
  }

  /** `most_common(n)` of a tally shows min(n, number of counted keys) entries. */
  lemma MostCommonOfTallySize(keys: seq<string>, n: nat)
    ensures |MostCommon(Items(CountsOf(keys), FirstSeen(keys)), n)| == Min(n, |CountsOf(keys)|)
  {
    TallySize(keys);
  }

  /** Every entry `most_common(n)` shows is a counted key with its count. */
  lemma MostCommonOfTallyCounted(keys: seq<string>, n: nat)
    ensures forall e :: e in MostCommon(Items(CountsOf(keys), FirstSeen(keys)), n) ==>
      e.0 in CountsOf(keys) && e.1 == CountsOf(keys)[e.0]
  {
    var items := Items(CountsOf(keys), FirstSeen(keys));
    var r := MostCommon(items, n);
    ItemsOfTally(keys);
    forall e | e in r
      ensures e in items
    {
      assert multiset(r)[e] > 0;
    }
  }

  /** Every counted key that `most_common(n)` leaves out counts no more than any key it shows. */
  lemma MostCommonOfTallyOutranks(keys: seq<string>, n: nat)
    ensures var r := MostCommon(Items(CountsOf(keys), FirstSeen(keys)), n);
      forall k, j :: k in CountsOf(keys) && (k, CountsOf(keys)[k]) !in r && 0 <= j < |r| ==> CountsOf(keys)[k] <= r[j].1
  {
    var counts := CountsOf(keys);
    var items := Items(counts, FirstSeen(keys));
    var r := MostCommon(items, n);
    ItemsOfTally(keys);
    forall k, j | k in counts && (k, counts[k]) !in r && 0 <= j < |r|
      ensures counts[k] <= r[j].1
    {
      assert (k, counts[k]) in items;
      OutranksLeftOut(r, multiset(items), (k, counts[k]), j);
    }
  }

  lemma OutranksLeftOut(kept: seq<Entry>, all: multiset<Entry>, e: Entry, j: int)
    requires Outranks(kept, all - multiset(kept))
    requires e in all && e !in kept && 0 <= j < |kept|
    ensures e.1 <= kept[j].1
  {
    assert e in all - multiset(kept);
  }

  /** The key order lists each counted key exactly once, and nothing else. */
  ghost predicate Keyed(counts: map<string, nat>, order: seq<string>) {
    Distinct(order) && forall k :: k in counts <==> k in order
  }

  /** `counter[k] += 1` keeps the key order listing exactly the counted keys, once each. */
  lemma BumpKeyed(counts: map<string, nat>, order: seq<string>, k: string)
    requires Keyed(counts, order)
    ensures Keyed(Bump(counts, k), Enlist(order, counts, k))
  {
    if k !in counts {
      var order' := order + [k];
      forall i, j | 0 <= i < j < |order'| ensures order'[i] != order'[j] {
        if j == |order| {
          assert order[i] in order;
        }
      }
    }
  }

  /** The items of a keyed tally are exactly its keys, each with its count. */
  lemma ItemsOfKeyed(counts: map<string, nat>, order: seq<string>)
    requires Keyed(counts, order)
    ensures forall e :: e in Items(counts, order) <==> e.0 in counts && e.1 == counts[e.0]
  {
    var items := Items(counts, order);
    forall e: Entry | e.0 in counts && e.1 == counts[e.0]
      ensures e in items
    {
      var i :| 0 <= i < |order| && order[i] == e.0;
      assert items[i] == e;
    }
  }

  /**
   * A `Counter` updated in place: `counts` maps each counted key to its
   * count, and `order` lists the counted keys in insertion order.
   */
  class Counter {
    var counts: map<string, nat>
    var order: seq<string>

    /** `order` lists exactly the keys of `counts`, each once. */
    ghost predicate Valid()
      reads this
    {
      Keyed(counts, order)
    }

    constructor ()
      ensures counts == map[] && order == []
      ensures Valid()
    {
      counts := map[];
      order := [];
    }

    /** `counter[k] += 1`. */
    method Increment(k: string)
      requires Valid()
      modifies this
      ensures counts == Bump(old(counts), k)
      ensures order == Enlist(old(order), old(counts), k)
      ensures Valid()
    {
      BumpKeyed(counts, order, k);
      if k in counts {
        counts := counts[k := counts[k] + 1];
      } else {
        counts := counts[k := 1];
        order := order + [k];
      }
    }

    /** `items()`, in insertion order: every counted key with its count. */
    function Entries(): (r: seq<Entry>)
      requires Valid()
      reads this
      ensures |r| == |order|
      ensures forall i :: 0 <= i < |order| ==> r[i] == (order[i], counts[order[i]])
      ensures forall e :: e in r <==> e.0 in counts && e.1 == counts[e.0]
    {
      ItemsOfKeyed(counts, order);
      Items(counts, order)
    }
  }
}
