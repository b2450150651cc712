/** The item helpers of `app/application.go`: sorting result items by
    timestamp and grouping them by name and extension. */
module AppItems {
  import opened Lex
  import opened Text
  import opened Results

  // ---------------------------------------------------------------------
  // ItemsSortByTimestamp
  // ---------------------------------------------------------------------

  /** Newest first: timestamps never increase along the sequence. */
  predicate SortedDesc(items: seq<ResultItem>) {
    forall i, j :: 0 <= i < j < |items| ==> LessEq(items[j].timeStamp, items[i].timeStamp)
  }

  lemma LessEqTransitive(a: string, b: string, c: string)
    requires LessEq(a, b) && LessEq(b, c)
    ensures LessEq(a, c)
  {
    if Less(a, b) && Less(b, c) { LessTransitive(a, b, c); }
  }

  /** Two timestamps are always comparable. */
  lemma LessEqTotal(a: string, b: string)
    ensures LessEq(a, b) || LessEq(b, a)
  {
    LessTotal(a, b);
  }

  /** `x` placed before the first item whose timestamp is not newer. */
  function Insert(x: ResultItem, s: seq<ResultItem>): (r: seq<ResultItem>)
    ensures multiset(r) == multiset(s) + multiset{x}
  {
    if |s| == 0 then [x]
    else if LessEq(s[0].timeStamp, x.timeStamp) then [x] + s
    else
      assert s == [s[0]] + s[1..];
      [s[0]] + Insert(x, s[1..])
  }

  /** Every element of `s` is at most `bound`. */
  predicate AllAtMost(s: seq<ResultItem>, bound: string) {
    forall i :: 0 <= i < |s| ==> LessEq(s[i].timeStamp, bound)
  }

  lemma {:induction false} InsertAtMost(x: ResultItem, s: seq<ResultItem>, bound: string)
    requires AllAtMost(s, bound) && LessEq(x.timeStamp, bound)
    ensures AllAtMost(Insert(x, s), bound)
    decreases |s|
  {
    if |s| > 0 && !LessEq(s[0].timeStamp, x.timeStamp) {
      InsertAtMost(x, s[1..], bound);
    }
  }

  lemma {:induction false} InsertSorted(x: ResultItem, s: seq<ResultItem>)
    requires SortedDesc(s)
    ensures SortedDesc(Insert(x, s))
    decreases |s|
  {
    if |s| > 0 {
      if LessEq(s[0].timeStamp, x.timeStamp) {
        var r := [x] + s;
        forall i, j | 0 <= i < j < |r| ensures LessEq(r[j].timeStamp, r[i].timeStamp) {
          if i == 0 { LessEqTransitive(r[j].timeStamp, s[0].timeStamp, x.timeStamp); }
        }
      } else {
        InsertSorted(x, s[1..]);
        LessEqTotal(s[0].timeStamp, x.timeStamp);
        InsertAtMost(x, s[1..], s[0].timeStamp);
        var tail := Insert(x, s[1..]);
        var r := [s[0]] + tail;
        forall i, j | 0 <= i < j < |r| ensures LessEq(r[j].timeStamp, r[i].timeStamp) {
          if i > 0 { assert r[i] == tail[i - 1] && r[j] == tail[j - 1]; }
          else { assert r[j] == tail[j - 1]; }
        }
      }
    }
  }

  /** `ItemsSortByTimestamp`: the items reordered newest first. Go's
      `sort.Slice` is not stable, so items with equal timestamps may come in
      any order; this is one of the orders it may produce. */
  function SortByTimestamp(items: seq<ResultItem>): (r: seq<ResultItem>)
    ensures multiset(r) == multiset(items)
    ensures |r| == |items|
    ensures SortedDesc(r)
  {
    if |items| == 0 then []
    else
      var rest := SortByTimestamp(items[1..]);
      InsertSorted(items[0], rest);
      MultisetCons(items);
      var r := Insert(items[0], rest);
      assert |r| == |multiset(r)|;
      r
  }

  lemma MultisetCons<T>(s: seq<T>)
    requires |s| > 0
    ensures multiset(s) == multiset(s[1..]) + multiset{s[0]}
  {
    assert s == [s[0]] + s[1..];
  }

  /** The timestamps of `s`, in order. */
  function Stamps(s: seq<ResultItem>): (t: seq<string>)
    ensures |t| == |s| && forall i :: 0 <= i < |s| ==> t[i] == s[i].timeStamp
  {
    seq(|s|, i requires 0 <= i < |s| => s[i].timeStamp)
  }

  /** Newest first, on bare timestamps. */
  predicate StringsDesc(t: seq<string>) {
    forall i, j :: 0 <= i < j < |t| ==> LessEq(t[j], t[i])
  }

  lemma MultisetTail<T>(s: seq<T>)
    requires |s| > 0
    ensures multiset(s[1..]) == multiset(s) - multiset{s[0]}
  {
    assert s == [s[0]] + s[1..];
    assert multiset(s) == multiset{s[0]} + multiset(s[1..]);
  }

  lemma MultisetRemove<T>(s: seq<T>, i: nat)
    requires i < |s|
    ensures multiset(s[..i] + s[i + 1..]) == multiset(s) - multiset{s[i]}
  {
    assert s == s[..i] + [s[i]] + s[i + 1..];
    assert multiset(s) == multiset(s[..i]) + multiset{s[i]} + multiset(s[i + 1..]);
  }

  lemma StampsTail(a: seq<ResultItem>)
    requires |a| > 0
    ensures Stamps(a[1..]) == Stamps(a)[1..]
  {
  }

  lemma StampsRemove(b: seq<ResultItem>, i: nat)
    requires i < |b|
    ensures Stamps(b[..i] + b[i + 1..]) == Stamps(b)[..i] + Stamps(b)[i + 1..]
  {
    var l, r := Stamps(b[..i] + b[i + 1..]), Stamps(b)[..i] + Stamps(b)[i + 1..];
    assert |l| == |r|;
    forall k | 0 <= k < |l| ensures l[k] == r[k] {
      if k < i { assert (b[..i] + b[i + 1..])[k] == b[k]; }
      else { assert (b[..i] + b[i + 1..])[k] == b[k + 1]; }
    }
  }

  /** Reordering items reorders their timestamps. */
  lemma {:induction false} StampsPermutation(a: seq<ResultItem>, b: seq<ResultItem>)
    requires multiset(a) == multiset(b)
    ensures multiset(Stamps(a)) == multiset(Stamps(b))
    decreases |a|
  {
    assert |a| == |multiset(a)| == |multiset(b)| == |b|;
    if |a| > 0 {
      assert a[0] in multiset(b);
      var i :| 0 <= i < |b| && b[i] == a[0];
      var b' := b[..i] + b[i + 1..];
      MultisetTail(a);
      MultisetRemove(b, i);
      StampsPermutation(a[1..], b');
      StampsTail(a);
      StampsRemove(b, i);
      var sa, sb := Stamps(a), Stamps(b);
      MultisetTail(sa);
      MultisetRemove(sb, i);
      assert sa[0] == sb[i];
      MultisetCancel(multiset(sa), multiset(sb), sa[0]);
    }
  }

  lemma MultisetCancel<T>(m: multiset<T>, n: multiset<T>, x: T)
    requires x in m && x in n && m - multiset{x} == n - multiset{x}
    ensures m == n
  {
    assert m == (m - multiset{x}) + multiset{x};
    assert n == (n - multiset{x}) + multiset{x};
  }

  /** A newest-first sequence of timestamps is determined by its multiset. */
  lemma {:induction false} SortedStringsUnique(x: seq<string>, y: seq<string>)
    requires StringsDesc(x) && StringsDesc(y) && multiset(x) == multiset(y)
    ensures x == y
    decreases |x|
  {
    assert |x| == |multiset(x)| == |multiset(y)| == |y|;
    if |x| > 0 {
      SameHead(x, y);
      MultisetTail(x);
      MultisetTail(y);
      StringsDescTail(x);
      StringsDescTail(y);
      SortedStringsUnique(x[1..], y[1..]);
      assert x == [x[0]] + x[1..] && y == [y[0]] + y[1..];
    }
  }

  /** Two newest-first permutations of each other start alike. */
  lemma SameHead(x: seq<string>, y: seq<string>)
    requires StringsDesc(x) && StringsDesc(y) && multiset(x) == multiset(y)
    requires |x| > 0 && |y| > 0
    ensures x[0] == y[0]
  {
    assert x[0] in multiset(y) && y[0] in multiset(x);
    var i :| 0 <= i < |y| && y[i] == x[0];
    var j :| 0 <= j < |x| && x[j] == y[0];
    assert LessEq(x[0], y[0]) by { if i > 0 { assert LessEq(y[i], y[0]); } }
    assert LessEq(y[0], x[0]) by { if j > 0 { assert LessEq(x[j], x[0]); } }
    LessAntisymmetric(x[0], y[0]);
  }

  lemma StringsDescTail(x: seq<string>)
    requires StringsDesc(x) && |x| > 0
    ensures StringsDesc(x[1..])
  {
    forall p, q | 0 <= p < q < |x[1..]| ensures LessEq(x[1..][q], x[1..][p]) {
      assert x[1..][q] == x[q + 1] && x[1..][p] == x[p + 1];
    }
  }

  /** The model's choice among the orders `sort.Slice` may produce does not
      matter for timestamps: two newest-first orders of the same items
      carry the same timestamp at every position. */
  lemma SortedTimestampsUnique(a: seq<ResultItem>, b: seq<ResultItem>)
    requires SortedDesc(a) && SortedDesc(b) && multiset(a) == multiset(b)
    ensures Stamps(a) == Stamps(b)
  {
    StampsPermutation(a, b);
    SortedStringsUnique(Stamps(a), Stamps(b));
  }

  lemma LessAntisymmetric(a: string, b: string)
    requires LessEq(a, b) && LessEq(b, a)
    ensures a == b
  {
    if a != b { LessAsymmetric(a, b); }
  }

  /** No item occurs twice. */
  predicate Distinct(s: seq<ResultItem>) {
    forall i, j :: 0 <= i < j < |s| ==> s[i] != s[j]
  }

  lemma DistinctCons(x: ResultItem, s: seq<ResultItem>)
    requires x !in s && Distinct(s)
    ensures Distinct([x] + s)
  {
    var r := [x] + s;
    forall i, j | 0 <= i < j < |r| ensures r[i] != r[j] {
      assert r[j] == s[j - 1];
      if i > 0 { assert r[i] == s[i - 1]; }
    }
  }

  /** The items of `s`, each once: an item is dropped when it occurs again
      later. */
  function Dedup(s: seq<ResultItem>): (r: seq<ResultItem>)
    ensures forall x :: x in r <==> x in s
    ensures Distinct(r)
  {
    if |s| == 0 then []
    else
      var rest := Dedup(s[1..]);
      assert s == [s[0]] + s[1..];
      if s[0] in s[1..] then rest
      else
        DistinctCons(s[0], rest);
        [s[0]] + rest
  }

  lemma {:induction false} InsertDistinct(x: ResultItem, s: seq<ResultItem>)
    requires x !in s && Distinct(s)
    ensures Distinct(Insert(x, s))
    decreases |s|
  {
    if |s| == 0 {
    } else if LessEq(s[0].timeStamp, x.timeStamp) {
      DistinctCons(x, s);
    } else {
      assert s == [s[0]] + s[1..];
      assert Distinct(s[1..]) by {
        forall i, j | 0 <= i < j < |s[1..]| ensures s[1..][i] != s[1..][j] {
          assert s[1..][i] == s[i + 1] && s[1..][j] == s[j + 1];
        }
      }
      InsertDistinct(x, s[1..]);
      var tail := Insert(x, s[1..]);
      assert s[0] !in tail by {
        assert s[0] !in s[1..];
        assert s[0] !in multiset(tail);
      }
      DistinctCons(s[0], tail);
    }
  }

  /** Sorting never introduces a repeated item. */
  lemma {:induction false} SortDistinct(items: seq<ResultItem>)
    requires Distinct(items)
    ensures Distinct(SortByTimestamp(items))
    decreases |items|
  {
    if |items| > 0 {
      var tail := items[1..];
      assert Distinct(tail) by {
        forall i, j | 0 <= i < j < |tail| ensures tail[i] != tail[j] {
          assert tail[i] == items[i + 1] && tail[j] == items[j + 1];
        }
      }
      SortDistinct(tail);
      var rest := SortByTimestamp(tail);
      assert items[0] !in tail by {
        forall k | 0 <= k < |tail| ensures tail[k] != items[0] { assert tail[k] == items[k + 1]; }
      }
      assert items[0] !in rest by { assert items[0] !in multiset(rest); }
      InsertDistinct(items[0], rest);
    }
  }

  // ---------------------------------------------------------------------
  // CategorizeByName, CategorizeByExtension, CategorizeResultItems
  // ---------------------------------------------------------------------

  function NameOf(x: ResultItem): string { x.name }

  function ExtOf(x: ResultItem): string { x.ext }

  /** The keys that occur among the items. */
  function KeysOf(key: ResultItem -> string, items: seq<ResultItem>): set<string> {
    set i | 0 <= i < |items| :: key(items[i])
  }

  /** The items whose key is `k`, in input order: the reference for one
      bucket. */
  function Filter(key: ResultItem -> string, items: seq<ResultItem>, k: string): (r: seq<ResultItem>)
    ensures |r| <= |items|
    ensures forall x :: x in r ==> x in items && key(x) == k
    ensures forall i :: 0 <= i < |items| && key(items[i]) == k ==> items[i] in r
  {
    if |items| == 0 then []
    else
      var init, last := items[..|items| - 1], items[|items| - 1];
      assert forall i :: 0 <= i < |init| ==> init[i] == items[i];
      assert items == init + [last];
      Filter(key, init, k) + (if key(last) == k then [last] else [])
  }

  /** A key that does not occur has an empty bucket. */
  lemma FilterAbsent(key: ResultItem -> string, items: seq<ResultItem>, k: string)
    ensures k !in KeysOf(key, items) ==> Filter(key, items, k) == []
  {
    if |Filter(key, items, k)| > 0 {
      var x := Filter(key, items, k)[0];
      assert x in items;
      var i :| 0 <= i < |items| && items[i] == x;
      assert key(items[i]) in KeysOf(key, items);
    }
  }

  lemma KeysOfSnoc(key: ResultItem -> string, items: seq<ResultItem>)
    requires |items| > 0
    ensures KeysOf(key, items) == KeysOf(key, items[..|items| - 1]) + {key(items[|items| - 1])}
  {
    var init := items[..|items| - 1];
    forall k | k in KeysOf(key, items) ensures k in KeysOf(key, init) + {key(items[|items| - 1])} {
      var i :| 0 <= i < |items| && key(items[i]) == k;
      if i < |init| { assert init[i] == items[i]; }
    }
    forall k | k in KeysOf(key, init) ensures k in KeysOf(key, items) {
      var i :| 0 <= i < |init| && key(init[i]) == k;
      assert items[i] == init[i];
    }
  }

  /** The Go loop `result[key] = append(result[key], item)` over the items. */
  function GroupBy(key: ResultItem -> string, items: seq<ResultItem>): (r: map<string, seq<ResultItem>>)
    ensures r.Keys == KeysOf(key, items)
  {
    if |items| == 0 then map[]
    else
      var init, x := items[..|items| - 1], items[|items| - 1];
      var groups := GroupBy(key, init);
      KeysOfSnoc(key, items);
      groups[key(x) := (if key(x) in groups then groups[key(x)] else []) + [x]]
  }

  /** The bucket of a key holds exactly the items of that key, in input
      order, and is never empty. */
  lemma {:induction false} GroupByFilter(key: ResultItem -> string, items: seq<ResultItem>, k: string)
    requires k in GroupBy(key, items)
    ensures GroupBy(key, items)[k] == Filter(key, items, k) && |GroupBy(key, items)[k]| > 0
    decreases |items|
  {
    var init, x := items[..|items| - 1], items[|items| - 1];
    var groups := GroupBy(key, init);
    FilterSnoc(key, items, k);
    if k in groups {
      GroupByFilter(key, init, k);
    } else if k == key(x) {
      FilterAbsent(key, init, k);
    }
  }

  lemma GroupByAll(key: ResultItem -> string, items: seq<ResultItem>)
    ensures forall k :: k in GroupBy(key, items) ==> GroupBy(key, items)[k] == Filter(key, items, k)
  {
    forall k | k in GroupBy(key, items) ensures GroupBy(key, items)[k] == Filter(key, items, k) {
      GroupByFilter(key, items, k);
    }
  }

  lemma FilterSnoc(key: ResultItem -> string, items: seq<ResultItem>, k: string)
    requires |items| > 0
    ensures Filter(key, items, k)
         == Filter(key, items[..|items| - 1], k) + (if key(items[|items| - 1]) == k then [items[|items| - 1]] else [])
  {
  }

  /** `CategorizeByName`: the items bucketed by name. */
  function CategorizeByName(items: seq<ResultItem>): (r: map<string, seq<ResultItem>>)
    ensures r.Keys == KeysOf(NameOf, items)
    ensures forall n :: n in r ==> r[n] == Filter(NameOf, items, n)
  {
    GroupByAll(NameOf, items);
    GroupBy(NameOf, items)
  }

  /** `CategorizeByExtension`: the items bucketed by extension. */
  function CategorizeByExtension(items: seq<ResultItem>): (r: map<string, seq<ResultItem>>)
    ensures r.Keys == KeysOf(ExtOf, items)
    ensures forall e :: e in r ==> r[e] == Filter(ExtOf, items, e)
  {
    GroupByAll(ExtOf, items);
    GroupBy(ExtOf, items)
  }

  /** Each item sits in the bucket of its own key exactly as often as it
      occurs in the input, and in no other bucket. */
  lemma {:induction false} FilterCount(key: ResultItem -> string, items: seq<ResultItem>, k: string, x: ResultItem)
    ensures multiset(Filter(key, items, k))[x] == if key(x) == k then multiset(items)[x] else 0
    decreases |items|
  {
    if |items| > 0 {
      var init, last := items[..|items| - 1], items[|items| - 1];
      FilterCount(key, init, k, x);
      assert items == init + [last];
    }
  }

  /** The total size of the buckets of the keys `ks`. */
  function SumSizes(key: ResultItem -> string, items: seq<ResultItem>, ks: seq<string>): nat {
    if |ks| == 0 then 0 else |Filter(key, items, ks[0])| + SumSizes(key, items, ks[1..])
  }

  /** How many times `v` occurs in `ks`. */
  function Occurrences(ks: seq<string>, v: string): nat {
    if |ks| == 0 then 0 else (if ks[0] == v then 1 else 0) + Occurrences(ks[1..], v)
  }

  lemma {:induction false} OccurrencesDistinct(ks: seq<string>, v: string)
    requires forall i, j :: 0 <= i < j < |ks| ==> ks[i] != ks[j]
    ensures Occurrences(ks, v) == if v in ks then 1 else 0
    decreases |ks|
  {
    if |ks| > 0 {
      OccurrencesDistinct(ks[1..], v);
      if ks[0] == v {
        assert v !in ks[1..];
      } else {
        assert v in ks <==> v in ks[1..] by {
          if v in ks {
            var j :| 0 <= j < |ks| && ks[j] == v;
            assert ks[1..][j - 1] == v;
          }
        }
      }
    }
  }

  lemma {:induction false} SumSizesSnoc(key: ResultItem -> string, items: seq<ResultItem>, ks: seq<string>)
    requires |items| > 0
    ensures SumSizes(key, items, ks)
         == SumSizes(key, items[..|items| - 1], ks) + Occurrences(ks, key(items[|items| - 1]))
    decreases |ks|
  {
    if |ks| > 0 {
      SumSizesSnoc(key, items, ks[1..]);
    }
  }

  /** The buckets partition the input: over any list of distinct keys that
      covers every item's key, the bucket sizes add up to the number of
      items. */
  lemma {:induction false} BucketSizes(key: ResultItem -> string, items: seq<ResultItem>, ks: seq<string>)
    requires forall i, j :: 0 <= i < j < |ks| ==> ks[i] != ks[j]
    requires forall i :: 0 <= i < |items| ==> key(items[i]) in ks
    ensures SumSizes(key, items, ks) == |items|
    decreases |items|
  {
    if |items| == 0 {
      SumSizesEmpty(key, items, ks);
    } else {
      var init := items[..|items| - 1];
      assert forall i :: 0 <= i < |init| ==> init[i] == items[i];
      BucketSizes(key, init, ks);
      SumSizesSnoc(key, items, ks);
      OccurrencesDistinct(ks, key(items[|items| - 1]));
    }
  }

  lemma {:induction false} SumSizesEmpty(key: ResultItem -> string, items: seq<ResultItem>, ks: seq<string>)
    requires |items| == 0
    ensures SumSizes(key, items, ks) == 0
    decreases |ks|
  {
    if |ks| > 0 { SumSizesEmpty(key, items, ks[1..]); }
  }

  /** The items with name `n` and extension `e`, in input order. */
  function Select(items: seq<ResultItem>, n: string, e: string): (r: seq<ResultItem>)
    ensures forall x :: x in r ==> x in items && x.name == n && x.ext == e
    ensures forall i :: 0 <= i < |items| && items[i].name == n && items[i].ext == e ==> items[i] in r
  {
    if |items| == 0 then []
    else
      var init, last := items[..|items| - 1], items[|items| - 1];
      assert forall i :: 0 <= i < |init| ==> init[i] == items[i];
      assert items == init + [last];
      Select(init, n, e) + (if last.name == n && last.ext == e then [last] else [])
  }

  lemma {:induction false} FilterAppend(key: ResultItem -> string, a: seq<ResultItem>, b: seq<ResultItem>, k: string)
    ensures Filter(key, a + b, k) == Filter(key, a, k) + Filter(key, b, k)
    decreases |b|
  {
    if |b| == 0 {
      assert a + b == a;
    } else {
      var b', last := b[..|b| - 1], b[|b| - 1];
      FilterAppend(key, a, b', k);
      var ab := a + b;
      assert ab[..|ab| - 1] == a + b';
      assert ab[|ab| - 1] == last;
      FilterSnoc(key, ab, k);
      FilterSnoc(key, b, k);
      ConcatAssoc(Filter(key, a, k), Filter(key, b', k), if key(last) == k then [last] else []);
    }
  }

  /** Bucketing by name and then by extension selects by both. */
  lemma {:induction false} FilterFilter(items: seq<ResultItem>, n: string, e: string)
    ensures Filter(ExtOf, Filter(NameOf, items, n), e) == Select(items, n, e)
    decreases |items|
  {
    if |items| > 0 {
      var init, last := items[..|items| - 1], items[|items| - 1];
      FilterFilter(init, n, e);
      var tail := if last.name == n then [last] else [];
      FilterAppend(ExtOf, Filter(NameOf, init, n), tail, e);
      if last.name == n {
        assert Filter(ExtOf, tail, e) == Filter(ExtOf, [], e) + (if last.ext == e then [last] else []) by {
          assert tail[..0] == [];
        }
      }
    }
  }

  /** `CategorizeResultItems`: the items bucketed by name, and each bucket
      by extension. */
  function CategorizeResultItems(items: seq<ResultItem>): (r: map<string, map<string, seq<ResultItem>>>)
    ensures r.Keys == KeysOf(NameOf, items)
  {
    var named := CategorizeByName(items);
    map n | n in named :: CategorizeByExtension(named[n])
  }

  /** A name's inner map has exactly the extensions that occur with that
      name, and each bucket holds the items of that name and extension in
      input order. */
  lemma CategorizeResultItemsBucket(items: seq<ResultItem>, n: string, e: string)
    requires n in CategorizeResultItems(items)
    ensures var r := CategorizeResultItems(items);
            e in r[n] <==> exists i :: 0 <= i < |items| && items[i].name == n && items[i].ext == e
    ensures var r := CategorizeResultItems(items);
            e in r[n] ==> r[n][e] == Select(items, n, e) && |r[n][e]| > 0
  {
    var r := CategorizeResultItems(items);
    var bucket := Filter(NameOf, items, n);
    assert r[n] == CategorizeByExtension(bucket);
    KeysOfFilter(items, n, e);
    if e in r[n] {
      GroupByFilter(ExtOf, bucket, e);
      FilterFilter(items, n, e);
    }
  }

  /** An extension occurs in a name's bucket exactly when some item has
      that name and that extension. */
  lemma KeysOfFilter(items: seq<ResultItem>, n: string, e: string)
    ensures e in KeysOf(ExtOf, Filter(NameOf, items, n))
        <==> exists i :: 0 <= i < |items| && items[i].name == n && items[i].ext == e
  {
    var bucket := Filter(NameOf, items, n);
    if e in KeysOf(ExtOf, bucket) {
      var j :| 0 <= j < |bucket| && bucket[j].ext == e;
      assert bucket[j] in bucket;
      var i :| 0 <= i < |items| && items[i] == bucket[j];
    }
    if exists i :: 0 <= i < |items| && items[i].name == n && items[i].ext == e {
      var i :| 0 <= i < |items| && items[i].name == n && items[i].ext == e;
      assert items[i] in bucket;
      var j :| 0 <= j < |bucket| && bucket[j] == items[i];
      assert ExtOf(bucket[j]) == e;
    }
  }

  // ---------------------------------------------------------------------
  // GetLatest
  // ---------------------------------------------------------------------

  /** Some item has name `n` and extension `e`. */
  predicate Occurs(items: seq<ResultItem>, n: string, e: string) {
    exists x :: x in items && x.name == n && x.ext == e
  }

  /** Reordering the items keeps the keys that occur among them. */
  lemma KeysOfPermutation(key: ResultItem -> string, a: seq<ResultItem>, b: seq<ResultItem>)
    requires multiset(a) == multiset(b)
    ensures KeysOf(key, a) == KeysOf(key, b)
  {
    forall k | k in KeysOf(key, a) ensures k in KeysOf(key, b) {
      var i :| 0 <= i < |a| && key(a[i]) == k;
      assert a[i] in multiset(b);
      var j :| 0 <= j < |b| && b[j] == a[i];
    }
    forall k | k in KeysOf(key, b) ensures k in KeysOf(key, a) {
      var j :| 0 <= j < |b| && key(b[j]) == k;
      assert b[j] in multiset(a);
      var i :| 0 <= i < |a| && a[i] == b[j];
    }
  }

  /** Selecting from a newest-first sequence keeps it newest first. */
  lemma {:induction false} SelectSorted(s: seq<ResultItem>, n: string, e: string)
    requires SortedDesc(s)
    ensures SortedDesc(Select(s, n, e))
    decreases |s|
  {
    if |s| > 0 {
      var init, last := s[..|s| - 1], s[|s| - 1];
      assert SortedDesc(init) by {
        forall i, j | 0 <= i < j < |init| ensures LessEq(init[j].timeStamp, init[i].timeStamp) {
          assert init[i] == s[i] && init[j] == s[j];
        }
      }
      SelectSorted(init, n, e);
      var head := Select(init, n, e);
      if last.name == n && last.ext == e {
        var r := head + [last];
        forall i, j | 0 <= i < j < |r| ensures LessEq(r[j].timeStamp, r[i].timeStamp) {
          if j == |head| {
            assert r[i] in init;
            var k :| 0 <= k < |init| && init[k] == r[i];
            assert s[k] == r[i];
          } else {
            assert r[i] == head[i] && r[j] == head[j];
          }
        }
      }
    }
  }

  /** The first item of each (name, extension) bucket of the newest-first
      items; `GetLatest` without the globbing. */
  function Latest(items: seq<ResultItem>): (r: map<string, map<string, ResultItem>>)
    ensures r.Keys == KeysOf(NameOf, items)
  {
    var sorted := SortByTimestamp(items);
    var c := CategorizeResultItems(sorted);
    KeysOfPermutation(NameOf, items, sorted);
    map n | n in c :: map e | e in c[n] :: (CategorizeResultItemsBucket(sorted, n, e); c[n][e][0])
  }

  /** Sorting keeps the same items. */
  lemma SortSameItems(items: seq<ResultItem>)
    ensures forall x :: x in items <==> x in SortByTimestamp(items)
  {
    var sorted := SortByTimestamp(items);
    forall x ensures x in items <==> x in sorted {
      assert x in items <==> x in multiset(items);
      assert x in sorted <==> x in multiset(sorted);
    }
  }

  /** An entry of `Latest` is the head of its bucket of the sorted items. */
  lemma LatestIsFirst(items: seq<ResultItem>, n: string, e: string)
    requires n in Latest(items) && e in Latest(items)[n]
    ensures var sel := Select(SortByTimestamp(items), n, e);
            |sel| > 0 && Latest(items)[n][e] == sel[0]
  {
    var sorted := SortByTimestamp(items);
    CategorizeResultItemsBucket(sorted, n, e);
  }

  lemma OccursIndex(items: seq<ResultItem>, n: string, e: string)
    ensures Occurs(items, n, e) <==> exists i :: 0 <= i < |items| && items[i].name == n && items[i].ext == e
  {
    if Occurs(items, n, e) {
      var x :| x in items && x.name == n && x.ext == e;
      var i :| 0 <= i < |items| && items[i] == x;
    }
    if exists i :: 0 <= i < |items| && items[i].name == n && items[i].ext == e {
      var i :| 0 <= i < |items| && items[i].name == n && items[i].ext == e;
      assert items[i] in items;
    }
  }

  lemma OccursName(items: seq<ResultItem>, n: string, e: string)
    ensures Occurs(items, n, e) ==> n in KeysOf(NameOf, items)
  {
    if Occurs(items, n, e) {
      var x :| x in items && x.name == n && x.ext == e;
      var i :| 0 <= i < |items| && items[i] == x;
      assert NameOf(items[i]) in KeysOf(NameOf, items);
    }
  }

  lemma LatestInner(items: seq<ResultItem>, n: string, e: string)
    requires n in Latest(items)
    ensures var c := CategorizeResultItems(SortByTimestamp(items));
            n in c && (e in Latest(items)[n] <==> e in c[n])
  {
  }

  /** `GetLatest` has an entry for exactly the names and extensions that
      occur. */
  lemma LatestKeys(items: seq<ResultItem>, n: string, e: string)
    ensures var r := Latest(items);
            n in r && e in r[n] <==> Occurs(items, n, e)
  {
    var sorted := SortByTimestamp(items);
    SortSameItems(items);
    assert Occurs(items, n, e) <==> Occurs(sorted, n, e);
    OccursName(items, n, e);
    if n in Latest(items) {
      LatestInner(items, n, e);
      CategorizeResultItemsBucket(sorted, n, e);
      OccursIndex(sorted, n, e);
    }
  }

  /** The head of a bucket of newest-first items is an item of that
      bucket that no other item of the bucket is newer than. */
  lemma SelectHeadNewest(sorted: seq<ResultItem>, n: string, e: string)
    requires SortedDesc(sorted) && |Select(sorted, n, e)| > 0
    ensures var y := Select(sorted, n, e)[0];
            y in sorted && y.name == n && y.ext == e
            && forall x :: x in sorted && x.name == n && x.ext == e ==> LessEq(x.timeStamp, y.timeStamp)
  {
    var sel := Select(sorted, n, e);
    var y := sel[0];
    assert y in sel;
    SelectSorted(sorted, n, e);
    forall x | x in sorted && x.name == n && x.ext == e ensures LessEq(x.timeStamp, y.timeStamp) {
      var i :| 0 <= i < |sorted| && sorted[i] == x;
      var j :| 0 <= j < |sel| && sel[j] == x;
      if j > 0 { assert LessEq(sel[j].timeStamp, sel[0].timeStamp); }
    }
  }

  /** Each entry of `GetLatest` is an item of its name and extension whose
      timestamp no other such item exceeds. */
  lemma LatestNewest(items: seq<ResultItem>, n: string, e: string)
    requires n in Latest(items) && e in Latest(items)[n]
    ensures var y := Latest(items)[n][e];
            y in items && y.name == n && y.ext == e
            && forall x :: x in items && x.name == n && x.ext == e ==> LessEq(x.timeStamp, y.timeStamp)
  {
    LatestIsFirst(items, n, e);
    SortSameItems(items);
    SelectHeadNewest(SortByTimestamp(items), n, e);
  }
}
