/** The results directory of `core/results.go`: result items named
    `<name>.<timestamp>.<ext>`, stored as files of a flat directory. */
module Results {
  import opened Wrappers
  import opened Text
  import opened Numbers
  import opened Lex
  import opened Stats

  // ---------------------------------------------------------------------
  // Result items and their file names
  // ---------------------------------------------------------------------

  /** `ResultItem`: one stored result and, after `Get`, its content. */
  datatype ResultItem = ResultItem(name: string, timeStamp: string, ext: string, data: seq<byte>)

  /** The item with no name, timestamp, extension or data (Go's zero value). */
  const EmptyItem := ResultItem("", "", "", [])

  /** `NewResultItem(name, timestamp, ext)`: an item without data. */
  function NewResultItem(name: string, timeStamp: string, ext: string): (item: ResultItem)
    ensures item.data == []
  {
    ResultItem(name, timeStamp, ext, [])
  }

  /** A new item whose parts hold no dot is named so that its full name
      reads back as the item. */
  lemma NewResultItemFullName(name: string, timeStamp: string, ext: string)
    requires '.' !in name && '.' !in timeStamp && '.' !in ext
    ensures NewResultItemFromFullName(GetFullName(NewResultItem(name, timeStamp, ext))) == NewResultItem(name, timeStamp, ext)
  {
    FromFullNameOfFullName(NewResultItem(name, timeStamp, ext));
  }

  /** `GetFullName`: the three parts joined with dots. */
  function GetFullName(item: ResultItem): (r: string)
    ensures |r| == |item.name| + |item.timeStamp| + |item.ext| + 2
    ensures Count(r, '.') == Count(item.name, '.') + Count(item.timeStamp, '.') + Count(item.ext, '.') + 2
  {
    var r := item.name + "." + item.timeStamp + "." + item.ext;
    FullNameIsJoin(item);
    CountJoinThree(item.name, item.timeStamp, item.ext);
    r
  }

  lemma {:induction false} FullNameIsJoin(item: ResultItem)
    ensures item.name + "." + item.timeStamp + "." + item.ext
         == Join([item.name, item.timeStamp, item.ext], '.')
  {
    var parts := [item.name, item.timeStamp, item.ext];
    assert Join(parts[2..], '.') == item.ext;
    assert Join(parts[1..], '.') == item.timeStamp + ['.'] + item.ext;
  }

  /** The number of `c` in a concatenation is the sum of the counts. */
  lemma {:induction false} CountConcat(a: string, b: string, c: char)
    ensures Count(a + b, c) == Count(a, c) + Count(b, c)
    decreases |a|
  {
    if |a| > 0 {
      CountConcat(a[1..], b, c);
      assert (a + b)[1..] == a[1..] + b;
    } else {
      assert a + b == b;
    }
  }

  lemma {:induction false} CountJoinThree(x: string, y: string, z: string)
    ensures Count(x + "." + y + "." + z, '.') == Count(x, '.') + Count(y, '.') + Count(z, '.') + 2
  {
    CountConcat(x, ".", '.');
    CountConcat(x + ".", y, '.');
    CountConcat(x + "." + y, ".", '.');
    CountConcat(x + "." + y + ".", z, '.');
    assert Count(".", '.') == 1 by { assert "."[1..] == ""; }
  }

  /** `NewResultItemFromFullName`: splits at the dots; a name that does not
      split into exactly three parts gives the empty item. */
  function NewResultItemFromFullName(fullName: string): (item: ResultItem)
    ensures Count(fullName, '.') != 2 ==> item == EmptyItem
    ensures Count(fullName, '.') == 2 ==>
              && item.data == []
              && '.' !in item.name && '.' !in item.timeStamp && '.' !in item.ext
              && GetFullName(item) == fullName
  {
    var parts := Split(fullName, '.');
    if |parts| != 3 then EmptyItem
    else
      var item := ResultItem(parts[0], parts[1], parts[2], []);
      FullNameIsJoin(item);
      assert [item.name, item.timeStamp, item.ext] == parts;
      item
  }

  /** Reading back a full name recovers the item's name, timestamp and
      extension, provided none of them holds a dot. */
  lemma {:induction false} FromFullNameOfFullName(item: ResultItem)
    requires '.' !in item.name && '.' !in item.timeStamp && '.' !in item.ext
    ensures NewResultItemFromFullName(GetFullName(item)) == item.(data := [])
  {
    var parts := [item.name, item.timeStamp, item.ext];
    FullNameIsJoin(item);
    SplitJoin(parts, '.');
  }

  /** A dot inside a part makes the full name ambiguous: two different
      items share one file name. */
  lemma FullNameAmbiguous()
    ensures GetFullName(ResultItem("a.b", "c", "d", [])) == GetFullName(ResultItem("a", "b.c", "d", []))
  {
    assert "a.b" + "." + "c" + "." + "d" == "a" + "." + "b.c" + "." + "d";
  }

  // ---------------------------------------------------------------------
  // Timestamps
  // ---------------------------------------------------------------------

  /** A wall-clock reading, as `time.Now()` gives it. */
  datatype Clock = Clock(year: nat, month: nat, day: nat, hour: nat, minute: nat, second: nat)

  /** A reading whose fields are in their calendar ranges and whose year has
      at most four digits. */
  predicate InRange(c: Clock) {
    c.year <= 9999 && 1 <= c.month <= 12 && 1 <= c.day <= 31
    && c.hour < 24 && c.minute < 60 && c.second < 60
  }

  /** Chronological order of readings: year first, then month, and so on. */
  predicate Before(a: Clock, b: Clock) {
    a.year < b.year || (a.year == b.year &&
    (a.month < b.month || (a.month == b.month &&
    (a.day < b.day || (a.day == b.day &&
    (a.hour < b.hour || (a.hour == b.hour &&
    (a.minute < b.minute || (a.minute == b.minute && a.second < b.second)))))))))
  }

  /** A separator followed by a two-digit field. */
  function Field2(sep: char, n: nat): (r: string)
    ensures n < 100 ==> |r| == 3
    ensures |r| >= 1 && r[0] == sep && (sep != '.' ==> '.' !in r)
  {
    var r := [sep] + Decimal(n, 2);
    assert '.' !in Decimal(n, 2) by { NoDotInDigits(Decimal(n, 2)); }
    if n < 100 then DecimalLength(n, 2); r else r
  }

  /** `GetCurrentTimestamp` on the reading `c`: Go's layout
      "2006-01-02T15-04-05", four-digit year and two-digit fields. */
  function FormatTimestamp(c: Clock): (r: string)
    ensures '.' !in r
    ensures InRange(c) ==> |r| == 19
  {
    var r := Decimal(c.year, 4) + (Field2('-', c.month) + (Field2('-', c.day) + (Field2('T', c.hour)
               + (Field2('-', c.minute) + Field2('-', c.second)))));
    NoDotInDigits(Decimal(c.year, 4));
    if c.year <= 9999 then DecimalLength(c.year, 4); r else r
  }

  /** One step of the comparison: equal separators, then a two-digit field. */
  lemma {:induction false} LessField2(sep: char, n: nat, m: nat, x: string, y: string)
    requires n < 100 && m < 100
    ensures Less(Field2(sep, n) + x, Field2(sep, m) + y) <==> n < m || (n == m && Less(x, y))
  {
    assert Field2(sep, n) + x == [sep] + (Decimal(n, 2) + x);
    assert Field2(sep, m) + y == [sep] + (Decimal(m, 2) + y);
    LessConcat([sep], [sep], Decimal(n, 2) + x, Decimal(m, 2) + y);
    LessIrreflexive([sep]);
    DecimalLength(n, 2);
    DecimalLength(m, 2);
    LessConcat(Decimal(n, 2), Decimal(m, 2), x, y);
    LessDecimal(n, m, 2);
  }

  lemma {:induction false} LessFieldLast(sep: char, n: nat, m: nat)
    requires n < 100 && m < 100
    ensures Less(Field2(sep, n), Field2(sep, m)) <==> n < m
  {
    LessField2(sep, n, m, "", "");
    assert Field2(sep, n) + "" == Field2(sep, n);
    assert Field2(sep, m) + "" == Field2(sep, m);
    LessIrreflexive("");
  }

  /** Timestamps of in-range readings sort as strings exactly as the
      readings sort in time, so comparing the strings compares the times. */
  lemma {:induction false} TimestampOrder(a: Clock, b: Clock)
    requires InRange(a) && InRange(b)
    ensures Less(FormatTimestamp(a), FormatTimestamp(b)) <==> Before(a, b)
  {
    var s5a, s5b := Field2('-', a.second), Field2('-', b.second);
    var s4a, s4b := Field2('-', a.minute) + s5a, Field2('-', b.minute) + s5b;
    var s3a, s3b := Field2('T', a.hour) + s4a, Field2('T', b.hour) + s4b;
    var s2a, s2b := Field2('-', a.day) + s3a, Field2('-', b.day) + s3b;
    var s1a, s1b := Field2('-', a.month) + s2a, Field2('-', b.month) + s2b;
    LessFieldLast('-', a.second, b.second);
    LessField2('-', a.minute, b.minute, s5a, s5b);
    LessField2('T', a.hour, b.hour, s4a, s4b);
    LessField2('-', a.day, b.day, s3a, s3b);
    LessField2('-', a.month, b.month, s2a, s2b);
    DecimalLength(a.year, 4);
    DecimalLength(b.year, 4);
    LessConcat(Decimal(a.year, 4), Decimal(b.year, 4), s1a, s1b);
    LessDecimal(a.year, b.year, 4);
  }

  /** Equal timestamps come from equal readings. */
  lemma {:induction false} TimestampInjective(a: Clock, b: Clock)
    requires InRange(a) && InRange(b)
    ensures FormatTimestamp(a) == FormatTimestamp(b) <==> a == b
  {
    var s5a, s5b := Field2('-', a.second), Field2('-', b.second);
    var s4a, s4b := Field2('-', a.minute) + s5a, Field2('-', b.minute) + s5b;
    var s3a, s3b := Field2('T', a.hour) + s4a, Field2('T', b.hour) + s4b;
    var s2a, s2b := Field2('-', a.day) + s3a, Field2('-', b.day) + s3b;
    var s1a, s1b := Field2('-', a.month) + s2a, Field2('-', b.month) + s2b;
    Field2Equal('-', a.second, b.second);
    ConcatEqual(Field2('-', a.minute), Field2('-', b.minute), s5a, s5b);
    Field2Equal('-', a.minute, b.minute);
    ConcatEqual(Field2('T', a.hour), Field2('T', b.hour), s4a, s4b);
    Field2Equal('T', a.hour, b.hour);
    ConcatEqual(Field2('-', a.day), Field2('-', b.day), s3a, s3b);
    Field2Equal('-', a.day, b.day);
    ConcatEqual(Field2('-', a.month), Field2('-', b.month), s2a, s2b);
    Field2Equal('-', a.month, b.month);
    DecimalLength(a.year, 4);
    DecimalLength(b.year, 4);
    ConcatEqual(Decimal(a.year, 4), Decimal(b.year, 4), s1a, s1b);
    LessDecimal(a.year, b.year, 4);
  }

  lemma {:induction false} Field2Equal(sep: char, n: nat, m: nat)
    requires n < 100 && m < 100
    ensures Field2(sep, n) == Field2(sep, m) <==> n == m
  {
    DecimalLength(n, 2);
    DecimalLength(m, 2);
    ConcatEqual([sep], [sep], Decimal(n, 2), Decimal(m, 2));
    LessDecimal(n, m, 2);
  }

  /** Decimal digits hold no dot. */
  lemma {:induction false} NoDotInDigits(s: string)
    requires AllDigits(s)
    ensures '.' !in s
  {
  }

  // ---------------------------------------------------------------------
  // The results directory
  // ---------------------------------------------------------------------

  /** The results directory: file name to content. Writing or removing a
      locked name fails, as a write to a read-only file does. */
  datatype FileSystem = FileSystem(files: map<string, seq<byte>>, locked: set<string>)

  datatype FsError = NotFound(path: string) | PermissionDenied(path: string)

  /** `ioutil.WriteFile`: creates or overwrites the file. */
  function WriteFile(fs: FileSystem, path: string, data: seq<byte>): (r: Result<FileSystem, FsError>)
    ensures r.Failure? <==> path in fs.locked
    ensures r.Failure? ==> r.error == PermissionDenied(path)
    ensures r.Success? ==> path in r.value.files && r.value.files[path] == data
                           && r.value.locked == fs.locked
                           && r.value.files.Keys == fs.files.Keys + {path}
                           && forall p :: p in fs.files && p != path ==> r.value.files[p] == fs.files[p]
  {
    if path in fs.locked then Failure(PermissionDenied(path))
    else Success(fs.(files := fs.files[path := data]))
  }

  /** `ioutil.ReadFile`. */
  function ReadFile(fs: FileSystem, path: string): (r: Result<seq<byte>, FsError>)
    ensures r.Success? <==> path in fs.files
    ensures r.Success? ==> r.value == fs.files[path]
    ensures r.Failure? ==> r.error == NotFound(path)
  {
    if path in fs.files then Success(fs.files[path]) else Failure(NotFound(path))
  }

  /** `os.Remove`: fails on a missing or a locked file. */
  function RemoveFile(fs: FileSystem, path: string): (r: Result<FileSystem, FsError>)
    ensures r.Success? <==> path in fs.files && path !in fs.locked
    ensures r.Success? ==> r.value.files.Keys == fs.files.Keys - {path} && r.value.locked == fs.locked
                           && forall p :: p in r.value.files ==> r.value.files[p] == fs.files[p]
  {
    if path !in fs.files then Failure(NotFound(path))
    else if path in fs.locked then Failure(PermissionDenied(path))
    else Success(fs.(files := fs.files - {path}))
  }

  /** `GetPath`: the file of an item. The directory prefix that Go's
      `path.Join` adds is left out, since the directory is flat. */
  function GetPath(item: ResultItem): string {
    GetFullName(item)
  }

  /** An item whose parts hold no dot is stored under a name that decodes
      back to the item. */
  lemma GetPathDecodes(item: ResultItem)
    requires Count(item.name, '.') + Count(item.timeStamp, '.') + Count(item.ext, '.') == 0
    ensures NewResultItemFromFullName(GetPath(item)) == item.(data := [])
  {
    CountZero(item.name); CountZero(item.timeStamp); CountZero(item.ext);
    FromFullNameOfFullName(item);
  }

  lemma {:induction false} CountZero(s: string)
    requires Count(s, '.') == 0
    ensures '.' !in s
    decreases |s|
  {
    if |s| > 0 {
      CountZero(s[1..]);
      assert s == [s[0]] + s[1..];
    }
  }

  /** What `Store` leaves behind: the directory, the item (whose empty
      timestamp it fills in) and the write error, if any. */
  datatype Stored = Stored(fs: FileSystem, item: ResultItem, error: Option<FsError>)

  /** `Store(item)`: an empty timestamp becomes `GetCurrentTimestamp()` at
      the reading `now`; then the item's data is written to its path. */
  function Store(fs: FileSystem, item: ResultItem, now: Clock): (r: Stored)
    ensures r.item.name == item.name && r.item.ext == item.ext && r.item.data == item.data
    ensures r.item.timeStamp == if item.timeStamp == "" then FormatTimestamp(now) else item.timeStamp
    ensures r.error.Some? <==> GetPath(r.item) in fs.locked
    ensures r.error.Some? ==> r.fs == fs
    ensures r.error.None? ==> ReadFile(r.fs, GetPath(r.item)) == Success(item.data)
  {
    var stamped := if item.timeStamp == "" then item.(timeStamp := FormatTimestamp(now)) else item;
    match WriteFile(fs, GetPath(stamped), stamped.data)
    case Success(fs') => Stored(fs', stamped, None)
    case Failure(e) => Stored(fs, stamped, Some(e))
  }

  /** `Get(item)`: the item with its data read from its file. */
  function Get(fs: FileSystem, item: ResultItem): (r: Result<ResultItem, FsError>)
    ensures r.Success? <==> GetPath(item) in fs.files
    ensures r.Success? ==> r.value == item.(data := fs.files[GetPath(item)])
    ensures r.Failure? ==> r.error == NotFound(GetPath(item))
  {
    var data :- ReadFile(fs, GetPath(item));
    Success(item.(data := data))
  }

  /** `GetContent(item)`: the bytes of the item's file. */
  function GetContent(fs: FileSystem, item: ResultItem): (r: Result<seq<byte>, FsError>)
    ensures r.Success? <==> GetPath(item) in fs.files
    ensures r.Success? ==> Get(fs, item) == Success(item.(data := r.value))
  {
    ReadFile(fs, GetPath(item))
  }

  /** What a successful `Store` writes, `Get` and `GetContent` read back. */
  lemma StoreThenGet(fs: FileSystem, item: ResultItem, now: Clock)
    requires Store(fs, item, now).error.None?
    ensures var r := Store(fs, item, now);
            Get(r.fs, r.item) == Success(r.item) && GetContent(r.fs, r.item) == Success(item.data)
  {
  }

  /** `Store` touches no file but the item's own. */
  lemma StoreOtherFiles(fs: FileSystem, item: ResultItem, now: Clock, path: string)
    requires path != GetPath(Store(fs, item, now).item)
    ensures var r := Store(fs, item, now);
            (path in r.fs.files <==> path in fs.files)
            && (path in fs.files ==> r.fs.files[path] == fs.files[path])
            && r.fs.locked == fs.locked
  {
  }

  /** An item stored without a timestamp gets a file name that reads back
      as the item, with the current timestamp filled in. */
  lemma {:induction false} StoreStampedName(fs: FileSystem, item: ResultItem, now: Clock)
    requires item.timeStamp == "" && '.' !in item.name && '.' !in item.ext
    ensures var r := Store(fs, item, now);
            NewResultItemFromFullName(GetPath(r.item)) == ResultItem(item.name, FormatTimestamp(now), item.ext, [])
  {
    var stamped := item.(timeStamp := FormatTimestamp(now));
    FromFullNameOfFullName(stamped);
  }

  // ---------------------------------------------------------------------
  // Globbing
  // ---------------------------------------------------------------------

  /** `GlobAll(patterns)`: the file names each pattern matches, in pattern
      order. The matcher `glob` (`filepath.Glob` on the directory) is a
      parameter. */
  function GlobAll(glob: string -> seq<string>, patterns: seq<string>): (names: seq<string>)
    ensures |patterns| == 0 ==> names == []
    ensures forall i, n :: 0 <= i < |patterns| && n in glob(patterns[i]) ==> n in names
  {
    if |patterns| == 0 then []
    else
      var rest := GlobAll(glob, patterns[1..]);
      assert forall i :: 1 <= i < |patterns| ==> patterns[i] == patterns[1..][i - 1];
      glob(patterns[0]) + rest
  }

  /** Globbing a concatenation of pattern lists concatenates the results. */
  lemma {:induction false} GlobAllAppend(glob: string -> seq<string>, a: seq<string>, b: seq<string>)
    ensures GlobAll(glob, a + b) == GlobAll(glob, a) + GlobAll(glob, b)
    decreases |a|
  {
    if |a| == 0 {
      assert a + b == b;
    } else {
      GlobAllAppend(glob, a[1..], b);
      assert (a + b)[1..] == a[1..] + b;
    }
  }

  /** A name is in the result exactly when some pattern matches it. */
  lemma {:induction false} GlobAllMember(glob: string -> seq<string>, patterns: seq<string>, name: string)
    ensures name in GlobAll(glob, patterns) <==> exists i :: 0 <= i < |patterns| && name in glob(patterns[i])
    decreases |patterns|
  {
    if |patterns| > 0 {
      GlobAllMember(glob, patterns[1..], name);
      if name in GlobAll(glob, patterns[1..]) {
        var i :| 0 <= i < |patterns[1..]| && name in glob(patterns[1..][i]);
        assert patterns[i + 1] == patterns[1..][i];
      }
      if exists i :: 0 <= i < |patterns| && name in glob(patterns[i]) {
        var i :| 0 <= i < |patterns| && name in glob(patterns[i]);
        if i > 0 { assert patterns[1..][i - 1] == patterns[i]; }
      }
    }
  }
}
