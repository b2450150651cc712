/** The operations of `app/application.go` over the results directory:
    listing, cleaning, fetching, converting and parsing result items. The
    collaborators the application holds (the course client, the globber,
    the JSON and CSV codecs and the notepad parser) are parameters. */
module Application {
  import opened Wrappers
  import opened Lex
  import opened Stats
  import opened Text
  import opened Results
  import opened AppItems
  import opened Csv

  // ---------------------------------------------------------------------
  // PatternsToResultItems, GetLatest
  // ---------------------------------------------------------------------

  /** The items that file names stand for, in order, leaving out the names
      that do not decode to an item with a timestamp. */
  function DecodeNames(names: seq<string>): (items: seq<ResultItem>)
    ensures |items| <= |names|
    ensures forall x :: x in items ==>
              x.timeStamp != "" && GetFullName(x) in names && NewResultItemFromFullName(GetFullName(x)) == x
    ensures forall n :: n in names && NewResultItemFromFullName(n).timeStamp != "" ==>
              NewResultItemFromFullName(n) in items
  {
    if |names| == 0 then []
    else
      var item := NewResultItemFromFullName(names[0]);
      var rest := DecodeNames(names[1..]);
      assert names == [names[0]] + names[1..];
      (if item.timeStamp == "" then [] else [item]) + rest
  }

  /** One file name: its item when that has a timestamp, nothing otherwise. */
  lemma DecodeNamesSingle(name: string)
    ensures var item := NewResultItemFromFullName(name);
            DecodeNames([name]) == if item.timeStamp == "" then [] else [item]
  {
    assert [name][1..] == [];
  }

  /** Decoding keeps the order and the multiplicity of the names: the items
      of a concatenation are the concatenation of the items. */
  lemma {:induction false} DecodeNamesAppend(a: seq<string>, b: seq<string>)
    ensures DecodeNames(a + b) == DecodeNames(a) + DecodeNames(b)
    decreases |a|
  {
    if |a| > 0 {
      var item := NewResultItemFromFullName(a[0]);
      var head := if item.timeStamp == "" then [] else [item];
      assert (a + b)[0] == a[0];
      assert (a + b)[1..] == a[1..] + b;
      assert DecodeNames(a + b) == head + DecodeNames(a[1..] + b);
      assert DecodeNames(a) == head + DecodeNames(a[1..]);
      DecodeNamesAppend(a[1..], b);
      ConcatAssoc(head, DecodeNames(a[1..]), DecodeNames(b));
    } else {
      assert a + b == b;
    }
  }

  /** `PatternsToResultItems(patterns)`: the items of the files the patterns
      match, except those without a timestamp. */
  function PatternsToResultItems(glob: string -> seq<string>, patterns: seq<string>): (items: seq<ResultItem>)
    ensures forall x :: x in items ==> x.timeStamp != "" && x.data == []
  {
    DecodeNames(GlobAll(glob, patterns))
  }

  /** An item is listed exactly when a pattern matches its file name and
      that name decodes to it with a timestamp. */
  lemma PatternsToResultItemsMember(glob: string -> seq<string>, patterns: seq<string>, x: ResultItem)
    ensures x in PatternsToResultItems(glob, patterns) <==>
              x.timeStamp != "" && NewResultItemFromFullName(GetFullName(x)) == x
              && exists i :: 0 <= i < |patterns| && GetFullName(x) in glob(patterns[i])
  {
    GlobAllMember(glob, patterns, GetFullName(x));
  }

  /** `GetLatest()`: the newest item of every name and extension among all
      files of the directory (the pattern `*`). */
  function GetLatest(glob: string -> seq<string>): (r: map<string, map<string, ResultItem>>)
    ensures r.Keys == KeysOf(NameOf, PatternsToResultItems(glob, ["*"]))
  {
    Latest(PatternsToResultItems(glob, ["*"]))
  }

  /** `GetLatest` has an entry for a name and an extension exactly when
      some stamped file of the directory has them; the entry is such a
      file's item, and no such file has a newer timestamp. */
  lemma GetLatestEntry(glob: string -> seq<string>, n: string, e: string)
    ensures var r := GetLatest(glob);
            n in r && e in r[n] <==> Occurs(PatternsToResultItems(glob, ["*"]), n, e)
    ensures var r := GetLatest(glob);
            n in r && e in r[n] ==>
              var y := r[n][e];
              y.name == n && y.ext == e && y.timeStamp != "" && GetFullName(y) in glob("*")
              && forall x :: x in PatternsToResultItems(glob, ["*"]) && x.name == n && x.ext == e ==>
                   LessEq(x.timeStamp, y.timeStamp)
  {
    var items := PatternsToResultItems(glob, ["*"]);
    LatestKeys(items, n, e);
    var r := GetLatest(glob);
    if n in r && e in r[n] {
      LatestNewest(items, n, e);
      PatternsToResultItemsMember(glob, ["*"], r[n][e]);
    }
  }

  // ---------------------------------------------------------------------
  // CleanResults
  // ---------------------------------------------------------------------

  /** Every item of `taken` comes from past position `limit` of `sorted`. */
  ghost predicate TakenPast(taken: seq<ResultItem>, sorted: seq<ResultItem>, limit: int) {
    forall x :: x in taken ==> exists i :: 0 <= i < |sorted| && limit < i && sorted[i] == x
  }

  /** The state of the removal loop: the directory and the items removed. */
  datatype Removal = Removal(fs: FileSystem, removed: seq<ResultItem>)

  /** Removing the files of `items` one after the other: an item whose file
      can be removed in the directory the items before it left is removed
      and appended to the result; any other item is skipped. */
  function RemoveEach(fs: FileSystem, items: seq<ResultItem>): (r: Removal)
    ensures |r.removed| <= |items|
    decreases |items|
  {
    if |items| == 0 then Removal(fs, [])
    else
      var before := RemoveEach(fs, items[..|items| - 1]);
      var x := items[|items| - 1];
      match RemoveFile(before.fs, GetPath(x))
      case Success(next) => Removal(next, before.removed + [x])
      case Failure(_) => before
  }

  /** The positions in `items` of the items `RemoveEach` removes. */
  ghost function RemovedIndices(fs: FileSystem, items: seq<ResultItem>): seq<nat>
    decreases |items|
  {
    if |items| == 0 then []
    else
      var before := RemoveEach(fs, items[..|items| - 1]);
      var rest := RemovedIndices(fs, items[..|items| - 1]);
      if RemoveFile(before.fs, GetPath(items[|items| - 1])).Success? then rest + [|items| - 1] else rest
  }

  /** What `RemoveEach` returns is the subsequence of `items` at the
      strictly increasing positions `RemovedIndices`: each item is taken at
      most once, and in order. */
  lemma {:induction false} RemoveEachTaken(fs: FileSystem, items: seq<ResultItem>)
    ensures var r := RemoveEach(fs, items);
            var idx := RemovedIndices(fs, items);
            && |idx| == |r.removed|
            && (forall k :: 0 <= k < |idx| ==> idx[k] < |items| && items[idx[k]] == r.removed[k])
            && (forall k, l :: 0 <= k < l < |idx| ==> idx[k] < idx[l])
    decreases |items|
  {
    if |items| > 0 {
      var n := |items| - 1;
      var front := items[..n];
      RemoveEachTaken(fs, front);
      var before := RemoveEach(fs, front);
      var rest := RemovedIndices(fs, front);
      if RemoveFile(before.fs, GetPath(items[n])).Success? {
        var r := RemoveEach(fs, items);
        var idx := RemovedIndices(fs, items);
        assert idx == rest + [n] && r.removed == before.removed + [items[n]];
        forall k | 0 <= k < |idx| ensures idx[k] < |items| && items[idx[k]] == r.removed[k] {
          if k < |rest| { assert idx[k] == rest[k] && r.removed[k] == before.removed[k] && front[rest[k]] == items[rest[k]]; }
        }
      }
    }
  }

  /** Position `j` is taken exactly when removing its item's file succeeds
      in the directory the items before it left. */
  lemma {:induction false} RemoveEachWhen(fs: FileSystem, items: seq<ResultItem>, j: int)
    requires 0 <= j < |items|
    ensures j in RemovedIndices(fs, items) <==> RemoveFile(RemoveEach(fs, items[..j]).fs, GetPath(items[j])).Success?
    decreases |items|
  {
    var n := |items| - 1;
    var front := items[..n];
    var rest := RemovedIndices(fs, front);
    RemoveEachTaken(fs, front);
    assert forall k :: 0 <= k < |rest| ==> rest[k] < n;
    assert n !in rest;
    var idx := RemovedIndices(fs, items);
    var success := RemoveFile(RemoveEach(fs, front).fs, GetPath(items[n])).Success?;
    assert idx == if success then rest + [n] else rest;
    if j < n {
      RemoveEachWhen(fs, front, j);
      assert front[..j] == items[..j] && front[j] == items[j];
      assert j in idx <==> j in rest;
    } else {
      assert items[..j] == front;
    }
  }

  /** The directory `RemoveEach` leaves: the locks are unchanged, the
      files of the removed items are gone, and no other file changes. */
  lemma {:induction false} RemoveEachFiles(fs: FileSystem, items: seq<ResultItem>)
    ensures var r := RemoveEach(fs, items);
            && r.fs.locked == fs.locked
            && (forall x :: x in r.removed ==> x in items && GetPath(x) in fs.files && GetPath(x) !in r.fs.files)
            && (forall p :: p in r.fs.files ==> p in fs.files && r.fs.files[p] == fs.files[p])
            && (forall p :: p in fs.files && p !in r.fs.files ==> exists x :: x in r.removed && GetPath(x) == p)
    decreases |items|
  {
    if |items| > 0 {
      var n := |items| - 1;
      var front := items[..n];
      RemoveEachFiles(fs, front);
      var before := RemoveEach(fs, front);
      var x := items[n];
      if RemoveFile(before.fs, GetPath(x)).Success? {
        var r := RemoveEach(fs, items);
        assert r.removed == before.removed + [x];
        forall y | y in r.removed ensures y in items && GetPath(y) in fs.files && GetPath(y) !in r.fs.files {
          if y != x { assert y in before.removed; }
        }
        forall p | p in fs.files && p !in r.fs.files ensures exists y :: y in r.removed && GetPath(y) == p {
          if p != GetPath(x) {
            var y :| y in before.removed && GetPath(y) == p;
            assert y in r.removed;
          } else {
            assert x in r.removed;
          }
        }
      }
    }
  }

  /** Every item whose file exists and is not locked at the start has no
      file at the end: either it was removed itself, or an earlier item
      with the same file was. */
  lemma {:induction false} RemoveEachClears(fs: FileSystem, items: seq<ResultItem>)
    ensures var r := RemoveEach(fs, items);
            forall x :: x in items && GetPath(x) in fs.files && GetPath(x) !in fs.locked ==> GetPath(x) !in r.fs.files
    decreases |items|
  {
    if |items| > 0 {
      var n := |items| - 1;
      var front := items[..n];
      RemoveEachClears(fs, front);
      RemoveEachFiles(fs, front);
      var r := RemoveEach(fs, items);
      var before := RemoveEach(fs, front);
      forall x | x in items && GetPath(x) in fs.files && GetPath(x) !in fs.locked ensures GetPath(x) !in r.fs.files {
        if x != items[n] {
          assert x in front by { var k :| 0 <= k < |items| && items[k] == x; assert front[k] == x; }
        }
      }
    }
  }

  /** Position of the first item `CleanResults` removes among `n` newest-first
      items: the first position past `limit`, or `n` when there is none. */
  function FirstRemoved(limit: int, n: nat): (k: nat)
    ensures k <= n
    ensures k < n ==> limit < k
    ensures 0 < k ==> k - 1 <= limit
  {
    if limit < 0 then 0 else if limit + 1 > n then n else limit + 1
  }

  /** The removal loop of `CleanResults` over the newest-first items: every
      item past position `limit` has its file removed, one after the other;
      an item whose file cannot be removed is skipped. */
  method RemoveAfter(fs: FileSystem, sorted: seq<ResultItem>, limit: int)
    returns (removed: seq<ResultItem>, fs': FileSystem)
    ensures Removal(fs', removed) == RemoveEach(fs, sorted[FirstRemoved(limit, |sorted|)..])
    ensures TakenPast(removed, sorted, limit)
    ensures forall x :: x in removed ==> GetPath(x) in fs.files && GetPath(x) !in fs'.files
    ensures forall i :: 0 <= i < |sorted| && limit < i && GetPath(sorted[i]) in fs.files && GetPath(sorted[i]) !in fs.locked ==>
              GetPath(sorted[i]) !in fs'.files
    ensures fs'.locked == fs.locked
    ensures forall p :: p in fs'.files ==> p in fs.files && fs'.files[p] == fs.files[p]
    ensures forall p :: p in fs.files && p !in fs'.files ==> exists x :: x in removed && GetPath(x) == p
  {
    removed, fs' := [], fs;
    var start := FirstRemoved(limit, |sorted|);
    var i := 0;
    while i < |sorted|
      invariant 0 <= i <= |sorted|
      invariant i <= start ==> removed == [] && fs' == fs
      invariant start <= i ==> Removal(fs', removed) == RemoveEach(fs, sorted[start..i])
    {
      if i > limit {
        var path := GetPath(sorted[i]);
        assert sorted[start..i + 1][..i - start] == sorted[start..i];
        match RemoveFile(fs', path)
        case Success(next) =>
          fs', removed := next, removed + [sorted[i]];
        case Failure(_) =>
      }
      i := i + 1;
    }
    assert sorted[start..] == sorted[start..i];
    PastLimitRemoval(fs, sorted, limit);
  }

  /** What removing the items past position `limit` does to the directory. */
  lemma {:induction false} PastLimitRemoval(fs: FileSystem, sorted: seq<ResultItem>, limit: int)
    ensures var r := RemoveEach(fs, sorted[FirstRemoved(limit, |sorted|)..]);
            && TakenPast(r.removed, sorted, limit)
            && (forall x :: x in r.removed ==> GetPath(x) in fs.files && GetPath(x) !in r.fs.files)
            && (forall i :: 0 <= i < |sorted| && limit < i && GetPath(sorted[i]) in fs.files && GetPath(sorted[i]) !in fs.locked ==>
                  GetPath(sorted[i]) !in r.fs.files)
            && r.fs.locked == fs.locked
            && (forall p :: p in r.fs.files ==> p in fs.files && r.fs.files[p] == fs.files[p])
            && (forall p :: p in fs.files && p !in r.fs.files ==> exists x :: x in r.removed && GetPath(x) == p)
  {
    RemoveEachFiles(fs, sorted[FirstRemoved(limit, |sorted|)..]);
    RemovedPastLimit(fs, sorted, limit);
    ClearedPastLimit(fs, sorted, limit);
  }

  /** Only items of `items` are removed. */
  lemma {:induction false} RemoveEachFrom(fs: FileSystem, items: seq<ResultItem>)
    ensures forall x :: x in RemoveEach(fs, items).removed ==> x in items
    decreases |items|
  {
    if |items| > 0 {
      var n := |items| - 1;
      RemoveEachFrom(fs, items[..n]);
      forall x | x in RemoveEach(fs, items[..n]).removed ensures x in items {
        var k :| 0 <= k < n && items[..n][k] == x;
        assert items[k] == x;
      }
    }
  }

  /** Removing the items past position `limit` takes items only from there. */
  lemma {:induction false} RemovedPastLimit(fs: FileSystem, sorted: seq<ResultItem>, limit: int)
    ensures TakenPast(RemoveEach(fs, sorted[FirstRemoved(limit, |sorted|)..]).removed, sorted, limit)
  {
    var start := FirstRemoved(limit, |sorted|);
    var past := sorted[start..];
    RemoveEachFrom(fs, past);
    forall x | x in RemoveEach(fs, past).removed ensures exists k :: 0 <= k < |sorted| && limit < k && sorted[k] == x {
      var k :| 0 <= k < |past| && past[k] == x;
      assert sorted[start + k] == x;
    }
  }

  /** Removing the items past position `limit` clears every such file that
      exists and is not locked. */
  lemma {:induction false} ClearedPastLimit(fs: FileSystem, sorted: seq<ResultItem>, limit: int)
    ensures var r := RemoveEach(fs, sorted[FirstRemoved(limit, |sorted|)..]);
            forall i :: 0 <= i < |sorted| && limit < i && GetPath(sorted[i]) in fs.files && GetPath(sorted[i]) !in fs.locked ==>
              GetPath(sorted[i]) !in r.fs.files
  {
    var start := FirstRemoved(limit, |sorted|);
    var past := sorted[start..];
    RemoveEachClears(fs, past);
    forall k | 0 <= k < |sorted| && limit < k ensures sorted[k] in past {
      assert past[k - start] == sorted[k];
    }
  }

  /** `CleanResults(patterns, limit)`: the matched items newest first; the
      files of the items past position `limit` are removed one after the
      other, and the removed items are returned. No removed item is newer
      than one up to position `limit`. A file matched by two patterns is
      listed twice, so fewer than `limit + 1` files may be left (see
      `CleanResultsOverlap`); with no file listed twice, `limit + 1` are
      kept, one more than the `limit` flag promises (see
      `CleanResultsKeepsOneMore`). */
  method CleanResults(fs: FileSystem, glob: string -> seq<string>, patterns: seq<string>, limit: int)
    returns (removed: seq<ResultItem>, fs': FileSystem)
    ensures var sorted := SortByTimestamp(PatternsToResultItems(glob, patterns));
            && Removal(fs', removed) == RemoveEach(fs, sorted[FirstRemoved(limit, |sorted|)..])
            && TakenPast(removed, sorted, limit)
            && (forall x, j :: x in removed && 0 <= j <= limit && j < |sorted| ==>
                  LessEq(x.timeStamp, sorted[j].timeStamp))
            && (forall i :: 0 <= i < |sorted| && limit < i && GetPath(sorted[i]) in fs.files && GetPath(sorted[i]) !in fs.locked ==>
                  GetPath(sorted[i]) !in fs'.files)
    ensures forall x :: x in removed ==> GetPath(x) in fs.files && GetPath(x) !in fs'.files
    ensures fs'.locked == fs.locked
    ensures forall p :: p in fs'.files ==> p in fs.files && fs'.files[p] == fs.files[p]
    ensures forall p :: p in fs.files && p !in fs'.files ==> exists x :: x in removed && GetPath(x) == p
  {
    var sorted := SortByTimestamp(PatternsToResultItems(glob, patterns));
    removed, fs' := RemoveAfter(fs, sorted, limit);
    RemovedNotNewer(sorted, removed, limit);
  }

  /** The item of the file "a.1.xml". */
  function OverlapItem(): (x: ResultItem)
    ensures NewResultItemFromFullName(GetPath(x)) == x && x.timeStamp != ""
  {
    NewResultItemFullName("a", "1", "xml");
    ResultItem("a", "1", "xml", [])
  }

  lemma OverlapListed(glob: string -> seq<string>)
    requires glob("a*") == [GetPath(OverlapItem())] && glob("*.xml") == [GetPath(OverlapItem())]
    ensures PatternsToResultItems(glob, ["a*", "*.xml"]) == [OverlapItem(), OverlapItem()]
  {
    var p := GetPath(OverlapItem());
    OverlapGlob(glob, p);
    DecodeTwin(p);
    DecodeNamesSingle(p);
  }

  lemma OverlapGlob(glob: string -> seq<string>, p: string)
    requires glob("a*") == [p] && glob("*.xml") == [p]
    ensures GlobAll(glob, ["a*", "*.xml"]) == [p, p]
  {
    GlobAllAppend(glob, ["a*"], ["*.xml"]);
    assert ["a*", "*.xml"] == ["a*"] + ["*.xml"];
    assert ["a*"][1..] == [] && ["*.xml"][1..] == [];
  }

  lemma DecodeTwin(p: string)
    ensures DecodeNames([p, p]) == DecodeNames([p]) + DecodeNames([p])
  {
    DecodeNamesAppend([p], [p]);
    assert [p, p] == [p] + [p];
  }

  lemma SortTwin(x: ResultItem)
    ensures SortByTimestamp([x, x]) == [x, x]
  {
    assert [x, x][1..] == [x];
    assert [x][1..] == [];
  }

  lemma RemoveOne(fs: FileSystem, x: ResultItem)
    requires GetPath(x) in fs.files && GetPath(x) !in fs.locked
    ensures GetPath(x) !in RemoveEach(fs, [x]).fs.files
  {
    assert [x][..0] == [];
  }

  /** With two overlapping patterns `CleanResults` removes a file it should
      keep: "a.1.xml" is matched by both "a*" and "*.xml", so its item is
      listed at positions 0 and 1, and with `limit` 0 the copy at position 1
      has the file removed. */
  lemma CleanResultsOverlap(fs: FileSystem, glob: string -> seq<string>)
    requires glob("a*") == [GetPath(OverlapItem())] && glob("*.xml") == [GetPath(OverlapItem())]
    requires GetPath(OverlapItem()) in fs.files && GetPath(OverlapItem()) !in fs.locked
    ensures var sorted := SortByTimestamp(PatternsToResultItems(glob, ["a*", "*.xml"]));
            var r := RemoveEach(fs, sorted[FirstRemoved(0, |sorted|)..]);
            && |sorted| == 2 && sorted[0] == sorted[1]
            && GetPath(sorted[0]) in fs.files && GetPath(sorted[0]) !in r.fs.files
  {
    var x := OverlapItem();
    OverlapListed(glob);
    SortTwin(x);
    assert [x, x][1..] == [x];
    RemoveOne(fs, x);
  }

  /** Every item of `s` is the item its own file name decodes to. */
  ghost predicate Decoded(s: seq<ResultItem>) {
    forall x :: x in s ==> NewResultItemFromFullName(GetFullName(x)) == x
  }

  /** Over distinct decoded items, the files of the items up to position
      `limit` are untouched by the removal of the items past it. */
  lemma {:induction false} KeptUpToLimit(fs: FileSystem, sorted: seq<ResultItem>, limit: int)
    requires Distinct(sorted) && Decoded(sorted)
    ensures var r := RemoveEach(fs, sorted[FirstRemoved(limit, |sorted|)..]);
            forall j :: 0 <= j <= limit && j < |sorted| && GetPath(sorted[j]) in fs.files ==>
              GetPath(sorted[j]) in r.fs.files && r.fs.files[GetPath(sorted[j])] == fs.files[GetPath(sorted[j])]
  {
    var start := FirstRemoved(limit, |sorted|);
    var past := sorted[start..];
    var r := RemoveEach(fs, past);
    RemoveEachFiles(fs, past);
  }

  /** `CleanResults` keeps one item more than `limit`: when the patterns
      list `limit + 1` distinct items, none of them is removed, although the
      `limit` flag of the `clean` command is the number of newest items to
      keep (with its default 1, two files of different fetch runs both
      stay). */
  lemma {:induction false} CleanResultsKeepsOneMore(fs: FileSystem, glob: string -> seq<string>, patterns: seq<string>, limit: int)
    requires 0 <= limit
    requires var items := PatternsToResultItems(glob, patterns);
             Distinct(items) && |items| == limit + 1
    ensures var sorted := SortByTimestamp(PatternsToResultItems(glob, patterns));
            && Distinct(sorted) && |sorted| == limit + 1
            && RemoveEach(fs, sorted[FirstRemoved(limit, |sorted|)..]) == Removal(fs, [])
  {
    var items := PatternsToResultItems(glob, patterns);
    var sorted := SortByTimestamp(items);
    SortDistinct(items);
    assert sorted[limit + 1..] == [];
  }

  /** `CleanResults` as evidently intended: every matched file is counted
      once, and `limit` is the number of newest files kept, so the files of
      the `limit` newest items are all kept and every other matched file
      that can be removed is removed. */
  method CleanResultsIntended(fs: FileSystem, glob: string -> seq<string>, patterns: seq<string>, limit: int)
    returns (removed: seq<ResultItem>, fs': FileSystem)
    ensures var sorted := SortByTimestamp(Dedup(PatternsToResultItems(glob, patterns)));
            && Distinct(sorted)
            && (forall x :: x in sorted <==> x in PatternsToResultItems(glob, patterns))
            && Removal(fs', removed) == RemoveEach(fs, sorted[FirstRemoved(limit - 1, |sorted|)..])
            && (forall j :: 0 <= j < limit && j < |sorted| && GetPath(sorted[j]) in fs.files ==>
                  GetPath(sorted[j]) in fs'.files && fs'.files[GetPath(sorted[j])] == fs.files[GetPath(sorted[j])])
            && (forall i :: 0 <= i < |sorted| && limit <= i && GetPath(sorted[i]) in fs.files && GetPath(sorted[i]) !in fs.locked ==>
                  GetPath(sorted[i]) !in fs'.files)
  {
    var items := PatternsToResultItems(glob, patterns);
    var distinct := Dedup(items);
    var sorted := SortByTimestamp(distinct);
    SortDistinct(distinct);
    forall x ensures x in sorted <==> x in distinct {
      assert x in sorted <==> x in multiset(sorted);
    }
    assert Decoded(sorted);
    removed, fs' := RemoveAfter(fs, sorted, limit - 1);
    KeptUpToLimit(fs, sorted, limit - 1);
  }

  /** Items taken from past position `limit` of a newest-first sequence are
      no newer than any item up to that position. */
  lemma RemovedNotNewer(sorted: seq<ResultItem>, removed: seq<ResultItem>, limit: int)
    requires SortedDesc(sorted)
    requires TakenPast(removed, sorted, limit)
    ensures forall x, j :: x in removed && 0 <= j <= limit && j < |sorted| ==> LessEq(x.timeStamp, sorted[j].timeStamp)
  {
    forall x, j | x in removed && 0 <= j <= limit && j < |sorted| ensures LessEq(x.timeStamp, sorted[j].timeStamp) {
      var i :| 0 <= i < |sorted| && limit < i && sorted[i] == x;
    }
  }

  // ---------------------------------------------------------------------
  // FetchOne, FetchWithTimestamp
  // ---------------------------------------------------------------------

  /** Why fetching a notepad failed: the course client gave no content, or
      the content could not be stored. */
  datatype FetchError = ClientError(notepad: string) | StoreError(error: FsError)

  /** A directory together with the item just put into it. */
  datatype Fetched = Fetched(fs: FileSystem, item: ResultItem)

  /** The timestamp `Store` gives an item stamped `timestamp` at the reading
      `now`. */
  function Stamp(timestamp: string, now: Clock): (r: string)
    ensures r != ""
  {
    if timestamp == "" then FormatTimestamp(now) else timestamp
  }

  /** The file a notepad's content is stored in. */
  function NotepadPath(notepad: string, timestamp: string, ext: string): string {
    GetPath(NewResultItem(notepad, timestamp, ext))
  }

  /** Different notepads are stored in different files. */
  lemma NotepadPathInjective(a: string, b: string, timestamp: string, ext: string)
    ensures NotepadPath(a, timestamp, ext) == NotepadPath(b, timestamp, ext) <==> a == b
  {
    var p, q := NotepadPath(a, timestamp, ext), NotepadPath(b, timestamp, ext);
    if p == q {
      assert |a| == |b|;
      assert a == p[..|a|] && b == q[..|b|];
    }
  }

  /** `after` differs from `before` at most in the file `path`. */
  ghost predicate Touches(before: FileSystem, after: FileSystem, path: string) {
    && after.locked == before.locked
    && forall p :: p != path ==> (p in after.files <==> p in before.files)
                                 && (p in before.files ==> after.files[p] == before.files[p])
  }

  /** `FetchOne(notepad, timestamp)`: the content the course client `fetch`
      gives for the notepad (`None` when the client fails) is stored as the
      item `<notepad>.<timestamp>.xml`. */
  function FetchOne(fs: FileSystem, fetch: string -> Option<seq<byte>>, notepad: string,
                    timestamp: string, now: Clock): (r: Result<Fetched, FetchError>)
    ensures r.Success? ==> r.value.item.name == notepad
  {
    match fetch(notepad)
    case None => Failure(ClientError(notepad))
    case Some(data) =>
      var stored := Store(fs, NewResultItem(notepad, timestamp, "xml").(data := data), now);
      if stored.error.Some? then Failure(StoreError(stored.error.value))
      else Success(Fetched(stored.fs, stored.item))
  }

  /** A client failure is returned as such; otherwise the content is stored
      as `<notepad>.<stamp>.xml`, which fails exactly when that file is not
      writable, and the stored item is returned. */
  lemma FetchOneResult(fs: FileSystem, fetch: string -> Option<seq<byte>>, notepad: string,
                       timestamp: string, now: Clock)
    ensures var r := FetchOne(fs, fetch, notepad, timestamp, now);
            fetch(notepad).None? ==> r == Failure(ClientError(notepad))
    ensures var r := FetchOne(fs, fetch, notepad, timestamp, now);
            fetch(notepad).Some? ==>
              var path := NotepadPath(notepad, Stamp(timestamp, now), "xml");
              && (r.Failure? <==> path in fs.locked)
              && (r.Failure? ==> r.error == StoreError(PermissionDenied(path)))
              && (r.Success? ==> r.value.item == ResultItem(notepad, Stamp(timestamp, now), "xml", fetch(notepad).value))
  {
  }

  /** A successful `FetchOne` leaves the content in the notepad's file and
      changes no other file. */
  lemma FetchOneWrites(fs: FileSystem, fetch: string -> Option<seq<byte>>, notepad: string,
                       timestamp: string, now: Clock)
    requires FetchOne(fs, fetch, notepad, timestamp, now).Success?
    ensures var r := FetchOne(fs, fetch, notepad, timestamp, now).value;
            var path := NotepadPath(notepad, Stamp(timestamp, now), "xml");
            fetch(notepad).Some? && ReadFile(r.fs, path) == Success(fetch(notepad).value) && Touches(fs, r.fs, path)
  {
  }

  /** What `FetchWithTimestamp` returns: the directory, the items fetched
      and the error that stopped it, if any. */
  datatype FetchedAll = FetchedAll(fs: FileSystem, items: seq<ResultItem>, error: Option<FetchError>)

  /** The notepad names that are not empty, in order. */
  function NonEmpty(names: seq<string>): (r: seq<string>)
    ensures forall n :: n in r <==> n in names && n != ""
  {
    if |names| == 0 then []
    else
      assert names == [names[0]] + names[1..];
      (if names[0] == "" then [] else [names[0]]) + NonEmpty(names[1..])
  }

  /** The names of the items, in order. */
  function Names(items: seq<ResultItem>): (r: seq<string>)
    ensures |r| == |items| && forall i :: 0 <= i < |items| ==> r[i] == items[i].name
  {
    seq(|items|, i requires 0 <= i < |items| => items[i].name)
  }

  lemma NamesAppend(a: seq<ResultItem>, b: seq<ResultItem>)
    ensures Names(a + b) == Names(a) + Names(b)
  {
  }

  lemma NonEmptyCons(names: seq<string>)
    requires |names| > 0
    ensures NonEmpty(names) == (if names[0] == "" then [] else [names[0]]) + NonEmpty(names[1..])
  {
  }

  /** `FetchWithTimestamp(notepads, timestamp)`: fetches and stores the
      notepads in order and stops at the first failure, returning the items
      fetched before it; an item with an empty name is stored but not
      returned. */
  function FetchWithTimestamp(fs: FileSystem, fetch: string -> Option<seq<byte>>, notepads: seq<string>,
                              timestamp: string, now: Clock): (r: FetchedAll)
    ensures |r.items| <= |notepads|
    ensures r.fs.locked == fs.locked
    decreases |notepads|
  {
    if |notepads| == 0 then FetchedAll(fs, [], None)
    else
      match FetchOne(fs, fetch, notepads[0], timestamp, now)
      case Failure(e) => FetchedAll(fs, [], Some(e))
      case Success(one) =>
        var rest := FetchWithTimestamp(one.fs, fetch, notepads[1..], timestamp, now);
        var mine := if one.item.name == "" then [] else [one.item];
        FetchedAll(rest.fs, mine + rest.items, rest.error)
  }

  /** Every item returned is a fetched notepad with a name, stored with the
      timestamp and the content the client gave. */
  lemma {:induction false} FetchItems(fs: FileSystem, fetch: string -> Option<seq<byte>>, notepads: seq<string>,
                                      timestamp: string, now: Clock, x: ResultItem)
    requires x in FetchWithTimestamp(fs, fetch, notepads, timestamp, now).items
    ensures x.name in notepads && x.name != "" && x.ext == "xml" && x.timeStamp == Stamp(timestamp, now)
            && fetch(x.name) == Some(x.data)
    decreases |notepads|
  {
    match FetchOne(fs, fetch, notepads[0], timestamp, now)
    case Failure(_) =>
    case Success(one) =>
      var rest := FetchWithTimestamp(one.fs, fetch, notepads[1..], timestamp, now);
      var mine := if one.item.name == "" then [] else [one.item];
      assert x in mine + rest.items;
      if x in mine {
        assert x == one.item && x.name == notepads[0];
      } else {
        assert x in rest.items;
        FetchItems(one.fs, fetch, notepads[1..], timestamp, now, x);
        assert x.name in notepads[1..];
      }
  }

  /** Without a failure every notepad with a name is returned, in order. */
  lemma {:induction false} FetchNames(fs: FileSystem, fetch: string -> Option<seq<byte>>, notepads: seq<string>,
                                      timestamp: string, now: Clock)
    ensures var r := FetchWithTimestamp(fs, fetch, notepads, timestamp, now);
            r.error.None? ==> Names(r.items) == NonEmpty(notepads)
    decreases |notepads|
  {
    if |notepads| > 0 {
      match FetchOne(fs, fetch, notepads[0], timestamp, now)
      case Failure(_) =>
      case Success(one) =>
        FetchNames(one.fs, fetch, notepads[1..], timestamp, now);
        var rest := FetchWithTimestamp(one.fs, fetch, notepads[1..], timestamp, now);
        var mine := if one.item.name == "" then [] else [one.item];
        assert one.item.name == notepads[0];
        assert Names(mine) == if notepads[0] == "" then [] else [notepads[0]];
        NamesAppend(mine, rest.items);
        NonEmptyCons(notepads);
    }
  }

  /** Fail-fast: once a failure stops the fetching, the notepads after it
      are never fetched. */
  lemma {:induction false} FetchFailFast(fs: FileSystem, fetch: string -> Option<seq<byte>>, a: seq<string>,
                                         b: seq<string>, timestamp: string, now: Clock)
    requires FetchWithTimestamp(fs, fetch, a, timestamp, now).error.Some?
    ensures FetchWithTimestamp(fs, fetch, a + b, timestamp, now) == FetchWithTimestamp(fs, fetch, a, timestamp, now)
    decreases |a|
  {
    assert (a + b)[0] == a[0] && (a + b)[1..] == a[1..] + b;
    match FetchOne(fs, fetch, a[0], timestamp, now)
    case Failure(_) =>
    case Success(one) =>
      FetchFailFast(one.fs, fetch, a[1..], b, timestamp, now);
  }

  /** Without a failure, the next notepads are fetched into the directory
      the first ones left, and their items follow. */
  lemma {:induction false} FetchContinues(fs: FileSystem, fetch: string -> Option<seq<byte>>, a: seq<string>,
                                          b: seq<string>, timestamp: string, now: Clock)
    requires FetchWithTimestamp(fs, fetch, a, timestamp, now).error.None?
    ensures var first := FetchWithTimestamp(fs, fetch, a, timestamp, now);
            var second := FetchWithTimestamp(first.fs, fetch, b, timestamp, now);
            FetchWithTimestamp(fs, fetch, a + b, timestamp, now)
            == FetchedAll(second.fs, first.items + second.items, second.error)
    decreases |a|
  {
    if |a| == 0 {
      assert a + b == b;
    } else {
      assert (a + b)[0] == a[0] && (a + b)[1..] == a[1..] + b;
      match FetchOne(fs, fetch, a[0], timestamp, now)
      case Failure(_) =>
      case Success(one) =>
        FetchContinues(one.fs, fetch, a[1..], b, timestamp, now);
        var mine := if one.item.name == "" then [] else [one.item];
        var first := FetchWithTimestamp(one.fs, fetch, a[1..], timestamp, now);
        var second := FetchWithTimestamp(first.fs, fetch, b, timestamp, now);
        ConcatAssoc(mine, first.items, second.items);
    }
  }

  /** Fetching leaves alone every file that is not one of the notepads'. */
  lemma {:induction false} FetchKeeps(fs: FileSystem, fetch: string -> Option<seq<byte>>, notepads: seq<string>,
                                      timestamp: string, now: Clock, path: string)
    requires forall n :: n in notepads ==> path != NotepadPath(n, Stamp(timestamp, now), "xml")
    ensures var r := FetchWithTimestamp(fs, fetch, notepads, timestamp, now);
            (path in r.fs.files <==> path in fs.files) && (path in fs.files ==> r.fs.files[path] == fs.files[path])
    decreases |notepads|
  {
    if |notepads| > 0 {
      assert notepads[0] in notepads;
      match FetchOne(fs, fetch, notepads[0], timestamp, now)
      case Failure(_) =>
      case Success(one) =>
        FetchOneWrites(fs, fetch, notepads[0], timestamp, now);
        assert forall n :: n in notepads[1..] ==> n in notepads;
        FetchKeeps(one.fs, fetch, notepads[1..], timestamp, now, path);
    }
  }

  /** Without a failure, every notepad's content is in its file afterwards. */
  lemma {:induction false} FetchStores(fs: FileSystem, fetch: string -> Option<seq<byte>>, notepads: seq<string>,
                                       timestamp: string, now: Clock, n: string)
    requires n in notepads
    ensures var r := FetchWithTimestamp(fs, fetch, notepads, timestamp, now);
            r.error.None? ==>
              fetch(n).Some? && ReadFile(r.fs, NotepadPath(n, Stamp(timestamp, now), "xml")) == Success(fetch(n).value)
    decreases |notepads|
  {
    var stamp := Stamp(timestamp, now);
    match FetchOne(fs, fetch, notepads[0], timestamp, now)
    case Failure(_) =>
    case Success(one) =>
      FetchOneWrites(fs, fetch, notepads[0], timestamp, now);
      var rest := notepads[1..];
      if n in rest {
        FetchStores(one.fs, fetch, rest, timestamp, now, n);
      } else {
        assert n == notepads[0] by { assert notepads == [notepads[0]] + rest; }
        forall m | m in rest ensures NotepadPath(n, stamp, "xml") != NotepadPath(m, stamp, "xml") {
          NotepadPathInjective(n, m, stamp, "xml");
        }
        FetchKeeps(one.fs, fetch, rest, timestamp, now, NotepadPath(n, stamp, "xml"));
      }
  }

  // ---------------------------------------------------------------------
  // ParseOne, Parse
  // ---------------------------------------------------------------------

  /** Why parsing one notepad result failed: it could not be read, its
      content did not parse, or the JSON result could not be stored. */
  datatype ParseError = ParseReadError(error: FsError) | ContentError(notepad: string)
                      | ParseStoreError(error: FsError)

  /** A directory together with the students parsed from one notepad. */
  datatype ParsedOne = ParsedOne(fs: FileSystem, info: seq<StudentInfo>)

  /** `ParseOne(notepad)`: a file `<name>.<timestamp>.xml` is read, its
      content parsed into students (`parse` stands for unmarshalling the
      notepad and running the notepad parser on it), and the students are
      stored as `<name>.<timestamp>.json` (`marshal` encodes them); any
      other file gives no students and changes nothing. */
  function ParseOne(fs: FileSystem, parse: seq<byte> -> Option<seq<StudentInfo>>,
                    marshal: seq<StudentInfo> -> seq<byte>, notepad: string, now: Clock)
    : (r: Result<ParsedOne, ParseError>)
    ensures NewResultItemFromFullName(notepad).ext != "xml" ==> r == Success(ParsedOne(fs, []))
    ensures var item := NewResultItemFromFullName(notepad);
            var path := NotepadPath(item.name, Stamp(item.timeStamp, now), "json");
            item.ext == "xml" ==>
              && (r.Success? <==> notepad in fs.files && parse(fs.files[notepad]).Some? && path !in fs.locked)
              && (r.Success? ==>
                    && r.value.info == parse(fs.files[notepad]).value
                    && ReadFile(r.value.fs, path) == Success(marshal(r.value.info))
                    && Touches(fs, r.value.fs, path))
  {
    var item := NewResultItemFromFullName(notepad);
    if item.ext != "xml" then Success(ParsedOne(fs, []))
    else
      match GetContent(fs, item)
      case Failure(e) => Failure(ParseReadError(e))
      case Success(content) =>
        match parse(content)
        case None => Failure(ContentError(notepad))
        case Some(info) =>
          var stored := Store(fs, NewResultItem(item.name, item.timeStamp, "json").(data := marshal(info)), now);
          if stored.error.Some? then Failure(ParseStoreError(stored.error.value))
          else Success(ParsedOne(stored.fs, info))
  }

  /** What `Parse` leaves behind: the directory and the students of every
      notepad result parsed, by file name. */
  datatype Parsed = Parsed(fs: FileSystem, infos: map<string, seq<StudentInfo>>)

  /** The parsing loop of `Parse` over the file names: a file that fails to
      parse is skipped, and a later result for the same name replaces an
      earlier one. */
  function ParseNames(fs: FileSystem, parse: seq<byte> -> Option<seq<StudentInfo>>,
                      marshal: seq<StudentInfo> -> seq<byte>, names: seq<string>, now: Clock): (r: Parsed)
    ensures forall k :: k in r.infos ==> k in names
    ensures forall n :: n in names && NewResultItemFromFullName(n).ext != "xml" ==> n in r.infos && r.infos[n] == []
    ensures r.fs.locked == fs.locked
    decreases |names|
  {
    if |names| == 0 then Parsed(fs, map[])
    else
      assert names == [names[0]] + names[1..];
      var rest := names[1..];
      match ParseOne(fs, parse, marshal, names[0], now)
      case Failure(_) => ParseNames(fs, parse, marshal, rest, now)
      case Success(one) =>
        var after := ParseNames(one.fs, parse, marshal, rest, now);
        Parsed(after.fs, map[names[0] := one.info] + after.infos)
  }

  /** `Parse(patterns)`: the students of every matched notepad result. */
  function Parse(fs: FileSystem, glob: string -> seq<string>, parse: seq<byte> -> Option<seq<StudentInfo>>,
                 marshal: seq<StudentInfo> -> seq<byte>, patterns: seq<string>, now: Clock): (r: Parsed)
    ensures forall k :: k in r.infos ==> k in GlobAll(glob, patterns)
  {
    ParseNames(fs, parse, marshal, GlobAll(glob, patterns), now)
  }

  /** Continue-on-error: a file that fails to parse contributes nothing and
      the rest is parsed as if it were not there. */
  lemma ParseSkipsFailure(fs: FileSystem, parse: seq<byte> -> Option<seq<StudentInfo>>,
                          marshal: seq<StudentInfo> -> seq<byte>, name: string, rest: seq<string>, now: Clock)
    requires ParseOne(fs, parse, marshal, name, now).Failure?
    ensures ParseNames(fs, parse, marshal, [name] + rest, now) == ParseNames(fs, parse, marshal, rest, now)
  {
    assert ([name] + rest)[0] == name && ([name] + rest)[1..] == rest;
  }

  /** Parsing two lists of names one after the other is parsing their
      concatenation, the later results taking precedence. */
  lemma {:induction false} ParseNamesAppend(fs: FileSystem, parse: seq<byte> -> Option<seq<StudentInfo>>,
                                            marshal: seq<StudentInfo> -> seq<byte>, a: seq<string>, b: seq<string>,
                                            now: Clock)
    ensures var first := ParseNames(fs, parse, marshal, a, now);
            var second := ParseNames(first.fs, parse, marshal, b, now);
            ParseNames(fs, parse, marshal, a + b, now) == Parsed(second.fs, first.infos + second.infos)
    decreases |a|
  {
    if |a| == 0 {
      assert a + b == b;
    } else {
      assert (a + b)[0] == a[0] && (a + b)[1..] == a[1..] + b;
      match ParseOne(fs, parse, marshal, a[0], now)
      case Failure(_) =>
        ParseNamesAppend(fs, parse, marshal, a[1..], b, now);
      case Success(one) =>
        ParseNamesAppend(one.fs, parse, marshal, a[1..], b, now);
        var first := ParseNames(one.fs, parse, marshal, a[1..], now);
        var second := ParseNames(first.fs, parse, marshal, b, now);
        MapUnionAssoc(map[a[0] := one.info], first.infos, second.infos);
    }
  }

  lemma MapUnionAssoc<K, V>(x: map<K, V>, y: map<K, V>, z: map<K, V>)
    ensures x + (y + z) == (x + y) + z
  {
  }

  /** A single name: its students when parsing it succeeds, nothing when
      it fails. */
  lemma {:induction false} ParseNamesSingle(fs: FileSystem, parse: seq<byte> -> Option<seq<StudentInfo>>,
                         marshal: seq<StudentInfo> -> seq<byte>, name: string, now: Clock)
    ensures ParseNames(fs, parse, marshal, [name], now)
              == match ParseOne(fs, parse, marshal, name, now)
                 case Failure(_) => Parsed(fs, map[])
                 case Success(one) => Parsed(one.fs, map[name := one.info])
  {
    assert [name][0] == name && [name][1..] == [];
    match ParseOne(fs, parse, marshal, name, now)
    case Failure(_) =>
    case Success(one) =>
      assert map[name := one.info] + map[] == map[name := one.info];
  }

  /** A file name listed once has an entry in the parse result exactly when
      parsing it succeeds in the directory the names before it left, and
      the entry holds the students that parse produced. */
  lemma {:induction false} ParseNamesRecords(fs: FileSystem, parse: seq<byte> -> Option<seq<StudentInfo>>,
                          marshal: seq<StudentInfo> -> seq<byte>, names: seq<string>, i: int, now: Clock)
    requires 0 <= i < |names| && names[i] !in names[..i] && names[i] !in names[i + 1..]
    ensures var one := ParseOne(ParseNames(fs, parse, marshal, names[..i], now).fs, parse, marshal, names[i], now);
            var r := ParseNames(fs, parse, marshal, names, now);
            && (names[i] in r.infos <==> one.Success?)
            && (one.Success? ==> r.infos[names[i]] == one.value.info)
  {
    var front := names[..i + 1];
    assert names == front + names[i + 1..];
    assert front == names[..i] + [names[i]];
    ParseNamesAppend(fs, parse, marshal, front, names[i + 1..], now);
    ParseNamesAppend(fs, parse, marshal, names[..i], [names[i]], now);
    ParseNamesSingle(ParseNames(fs, parse, marshal, names[..i], now).fs, parse, marshal, names[i], now);
  }

  /** `Parse` over the matched files: a file matched once has an entry
      exactly when parsing it succeeds in turn, holding its students. */
  lemma {:induction false} ParseRecords(fs: FileSystem, glob: string -> seq<string>, parse: seq<byte> -> Option<seq<StudentInfo>>,
                     marshal: seq<StudentInfo> -> seq<byte>, patterns: seq<string>, i: int, now: Clock)
    requires var names := GlobAll(glob, patterns);
             0 <= i < |names| && names[i] !in names[..i] && names[i] !in names[i + 1..]
    ensures var names := GlobAll(glob, patterns);
            var one := ParseOne(ParseNames(fs, parse, marshal, names[..i], now).fs, parse, marshal, names[i], now);
            var r := Parse(fs, glob, parse, marshal, patterns, now);
            && (names[i] in r.infos <==> one.Success?)
            && (one.Success? ==> r.infos[names[i]] == one.value.info)
  {
    ParseNamesRecords(fs, parse, marshal, GlobAll(glob, patterns), i, now);
  }

  // ---------------------------------------------------------------------
  // ConvertToCSVOne, ConvertToCSV
  // ---------------------------------------------------------------------

  /** Why converting one JSON result failed: it could not be read, its
      content is not a list of students, or the CSV file could not be
      written. */
  datatype ConvertError = ReadError(error: FsError) | DecodeError(notepad: string) | WriteError(error: FsError)

  /** `ConvertToCSVOne(notepad)`: a file `<name>.<timestamp>.json` holding
      students (`decode` unmarshals them) is converted into the CSV file
      `<name>.<timestamp>.csv` (`encode` marshals the rows); any other file
      gives the empty item and changes nothing. */
  function ConvertToCsvOne(fs: FileSystem, decode: seq<byte> -> Option<seq<StudentInfo>>,
                           encode: seq<CsvStatistic> -> seq<byte>, notepad: string): (r: Result<Fetched, ConvertError>)
    ensures NewResultItemFromFullName(notepad).ext != "json" ==> r == Success(Fetched(fs, EmptyItem))
    ensures r.Success? && r.value.item != EmptyItem ==>
              var json := NewResultItemFromFullName(notepad);
              && json.ext == "json" && notepad in fs.files && decode(fs.files[notepad]).Some?
              && r.value.item == NewResultItem(json.name, json.timeStamp, "csv")
              && ReadFile(r.value.fs, GetPath(r.value.item))
                 == Success(encode(ConvertSubmissionsToCsvStatistics(decode(fs.files[notepad]).value)))
              && Touches(fs, r.value.fs, GetPath(r.value.item))
    ensures r.Success? && r.value.item == EmptyItem ==> r.value.fs == fs
    ensures var json := NewResultItemFromFullName(notepad);
            var csv := NewResultItem(json.name, json.timeStamp, "csv");
            json.ext == "json" ==>
              && (r.Success? <==> notepad in fs.files && decode(fs.files[notepad]).Some? && GetPath(csv) !in fs.locked)
              && (r.Success? ==> r.value.item == csv)
  {
    var json := NewResultItemFromFullName(notepad);
    if json.ext != "json" then Success(Fetched(fs, EmptyItem))
    else
      match GetContent(fs, json)
      case Failure(e) => Failure(ReadError(e))
      case Success(content) =>
        match decode(content)
        case None => Failure(DecodeError(notepad))
        case Some(students) =>
          var csv := NewResultItem(json.name, json.timeStamp, "csv");
          match WriteFile(fs, GetPath(csv), encode(ConvertSubmissionsToCsvStatistics(students)))
          case Failure(e) => Failure(WriteError(e))
          case Success(fs') => Success(Fetched(fs', csv))
  }

  /** What `ConvertToCSV` leaves behind: the directory and the CSV items. */
  datatype Converted = Converted(fs: FileSystem, items: seq<ResultItem>)

  /** The conversion loop of `ConvertToCSV` over the file names: a file that
      fails to convert is skipped and the loop goes on. */
  function ConvertNames(fs: FileSystem, decode: seq<byte> -> Option<seq<StudentInfo>>,
                        encode: seq<CsvStatistic> -> seq<byte>, names: seq<string>): (r: Converted)
    ensures forall x :: x in r.items ==>
              x.ext == "csv" && x.name != "" && GetFullName(x.(ext := "json")) in names
    ensures r.fs.locked == fs.locked
    decreases |names|
  {
    if |names| == 0 then Converted(fs, [])
    else
      assert names == [names[0]] + names[1..];
      var rest := names[1..];
      match ConvertToCsvOne(fs, decode, encode, names[0])
      case Failure(_) => ConvertNames(fs, decode, encode, rest)
      case Success(one) =>
        var after := ConvertNames(one.fs, decode, encode, rest);
        var mine := if one.item.name == "" then [] else [one.item];
        assert forall x :: x in mine ==> GetFullName(x.(ext := "json")) == names[0] by {
          if one.item.name != "" {
            var json := NewResultItemFromFullName(names[0]);
            assert one.item.(ext := "json") == json;
          }
        }
        Converted(after.fs, mine + after.items)
  }

  /** `ConvertToCSV(patterns)`: every matched JSON result converted to CSV. */
  function ConvertToCsv(fs: FileSystem, glob: string -> seq<string>, decode: seq<byte> -> Option<seq<StudentInfo>>,
                        encode: seq<CsvStatistic> -> seq<byte>, patterns: seq<string>): (r: Converted)
    ensures forall x :: x in r.items ==>
              x.ext == "csv" && x.name != "" && GetFullName(x.(ext := "json")) in GlobAll(glob, patterns)
  {
    ConvertNames(fs, decode, encode, GlobAll(glob, patterns))
  }

  /** Continue-on-error: a file that fails to convert contributes nothing
      and the rest is converted as if it were not there. */
  lemma ConvertSkipsFailure(fs: FileSystem, decode: seq<byte> -> Option<seq<StudentInfo>>,
                            encode: seq<CsvStatistic> -> seq<byte>, name: string, rest: seq<string>)
    requires ConvertToCsvOne(fs, decode, encode, name).Failure?
    ensures ConvertNames(fs, decode, encode, [name] + rest) == ConvertNames(fs, decode, encode, rest)
  {
    assert ([name] + rest)[0] == name && ([name] + rest)[1..] == rest;
  }

  /** Converting two lists of names one after the other is converting
      their concatenation: no failure stops the loop. */
  lemma {:induction false} ConvertNamesAppend(fs: FileSystem, decode: seq<byte> -> Option<seq<StudentInfo>>,
                                              encode: seq<CsvStatistic> -> seq<byte>, a: seq<string>, b: seq<string>)
    ensures var first := ConvertNames(fs, decode, encode, a);
            var second := ConvertNames(first.fs, decode, encode, b);
            ConvertNames(fs, decode, encode, a + b) == Converted(second.fs, first.items + second.items)
    decreases |a|
  {
    if |a| == 0 {
      assert a + b == b;
    } else {
      assert (a + b)[0] == a[0] && (a + b)[1..] == a[1..] + b;
      match ConvertToCsvOne(fs, decode, encode, a[0])
      case Failure(_) =>
        ConvertNamesAppend(fs, decode, encode, a[1..], b);
      case Success(one) =>
        ConvertNamesAppend(one.fs, decode, encode, a[1..], b);
        var mine := if one.item.name == "" then [] else [one.item];
        var first := ConvertNames(one.fs, decode, encode, a[1..]);
        var second := ConvertNames(first.fs, decode, encode, b);
        ConcatAssoc(mine, first.items, second.items);
    }
  }

  /** One more name at the end of the loop: converted in the directory the
      names before it left; a successful conversion with a named item adds
      that item at the end, anything else adds nothing. */
  lemma {:induction false} ConvertNamesSnoc(fs: FileSystem, decode: seq<byte> -> Option<seq<StudentInfo>>,
                         encode: seq<CsvStatistic> -> seq<byte>, names: seq<string>, name: string)
    ensures var before := ConvertNames(fs, decode, encode, names);
            ConvertNames(fs, decode, encode, names + [name])
              == match ConvertToCsvOne(before.fs, decode, encode, name)
                 case Failure(_) => before
                 case Success(one) => Converted(one.fs, before.items + if one.item.name == "" then [] else [one.item])
  {
    ConvertNamesAppend(fs, decode, encode, names, [name]);
    var before := ConvertNames(fs, decode, encode, names);
    ConvertNamesSingle(before.fs, decode, encode, name);
    assert before.items + [] == before.items;
  }

  /** A single name: its CSV item when converting it succeeds with a named
      item, nothing otherwise. */
  lemma {:induction false} ConvertNamesSingle(fs: FileSystem, decode: seq<byte> -> Option<seq<StudentInfo>>,
                                              encode: seq<CsvStatistic> -> seq<byte>, name: string)
    ensures ConvertNames(fs, decode, encode, [name])
              == match ConvertToCsvOne(fs, decode, encode, name)
                 case Failure(_) => Converted(fs, [])
                 case Success(one) => Converted(one.fs, if one.item.name == "" then [] else [one.item])
  {
    assert [name][0] == name && [name][1..] == [];
  }

  /** Every name converted successfully in its turn has its CSV item in
      the result, after the items of the names before it. */
  lemma {:induction false} ConvertNamesRecords(fs: FileSystem, decode: seq<byte> -> Option<seq<StudentInfo>>,
                            encode: seq<CsvStatistic> -> seq<byte>, names: seq<string>, i: int)
    requires 0 <= i < |names|
    ensures var before := ConvertNames(fs, decode, encode, names[..i]);
            var one := ConvertToCsvOne(before.fs, decode, encode, names[i]);
            var r := ConvertNames(fs, decode, encode, names);
            one.Success? && one.value.item.name != "" ==>
              |before.items| < |r.items| && r.items[..|before.items| + 1] == before.items + [one.value.item]
  {
    var front := names[..i + 1];
    assert names == front + names[i + 1..];
    assert front == names[..i] + [names[i]];
    ConvertNamesAppend(fs, decode, encode, front, names[i + 1..]);
    ConvertNamesSnoc(fs, decode, encode, names[..i], names[i]);
  }

  /** `ConvertToCSV` over the matched files: every file converted
      successfully in its turn has its CSV item in the result. */
  lemma {:induction false} ConvertRecords(fs: FileSystem, glob: string -> seq<string>, decode: seq<byte> -> Option<seq<StudentInfo>>,
                       encode: seq<CsvStatistic> -> seq<byte>, patterns: seq<string>, i: int)
    requires 0 <= i < |GlobAll(glob, patterns)|
    ensures var names := GlobAll(glob, patterns);
            var one := ConvertToCsvOne(ConvertNames(fs, decode, encode, names[..i]).fs, decode, encode, names[i]);
            one.Success? && one.value.item.name != "" ==> one.value.item in ConvertToCsv(fs, glob, decode, encode, patterns).items
  {
    var names := GlobAll(glob, patterns);
    ConvertNamesRecords(fs, decode, encode, names, i);
    var before := ConvertNames(fs, decode, encode, names[..i]);
    var one := ConvertToCsvOne(before.fs, decode, encode, names[i]);
    var r := ConvertNames(fs, decode, encode, names);
    assert ConvertToCsv(fs, glob, decode, encode, patterns) == r;
    if one.Success? && one.value.item.name != "" {
      assert r.items[|before.items|] == (before.items + [one.value.item])[|before.items|];
    }
  }
}
