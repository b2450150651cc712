# isstat core in Dafny

`isstat` collects the points that students of a university course get from
the automatic evaluation system Kontr. Kontr writes each student's submissions
into a "notepad" of the university information system. The application
does four things:

- it fetches the notepads into a flat *results directory*;
- it parses them into per-student submission lists;
- it converts those lists into CSV statistics that carry anonymous student
  ids;
- it lists, groups and prunes the files of that directory.

Each stored file is a *result item* named `<name>.<timestamp>.<ext>`.

This project models the core of the application as pure Dafny functions
over immutable data, and proves what each operation promises:

- **`KontrParser`** (`parsers/kontr_parser.go`) is the notepad parser:
  - the header/comment state machine of `Parse`;
  - the truncation rules of `parseSubmission`, which fills in as many
    fields as the line has and stops at the first bad one;
  - the `time.Parse` layout `2006-01-02 15:04`, including month lengths
    and leap years;
  - the optional-star numbers of `parseNumberWithStar`.
- **`Results`** (`core/results.go`) holds the result items:
  - the full-name encoding and decoding, with its round trip;
  - the timestamp format, whose string order is chronological order;
  - `Store`, `Get` and `GetContent` over a directory modelled as a map from
    file name to bytes;
  - `GlobAll`.
- **`AppItems`** and **`Application`** (`app/application.go`) cover:
  - sorting newest first;
  - bucketing by name and extension;
  - the latest item per name and extension;
  - pruning old items;
  - fetching, which stops at the first error;
  - parsing and converting, which skip a file that fails and go on.
- **`Csv`** (`core/csv.go`) flattens students into rows, together with the
  canonical `uuid` text form.
- **`StudentsRegister`** (`core/students_register.go`) maps each student's
  code to a stable anonymous id.
- **`ParserRegister`** (`parsers/register.go`) looks up parsers by name.
- **`Stats`**, **`Numbers`**, **`Text`**, **`Lex`** and **`Wrappers`** are
  small supporting modules:
  - the records of `core/stats.go`;
  - Go's `strconv.Atoi` and `strings.Fields`/`Split`/`TrimSpace`;
  - Go's byte-wise string order;
  - `Option`/`Result`.

Collaborators that do I/O are parameters of the functions that use them:

- the course client (`fetch`);
- `filepath.Glob` (`glob`);
- the JSON and CSV codecs (`parse`, `marshal`, `decode`, `encode`);
- the wall clock (`now: Clock`);
- `uuid.New()` (`newId`).

The directory is a value: `FileSystem` holds the files plus a set of names
on which writing or removing fails. That set gives the I/O error paths a
cause.

## Model

| member | source | states |
|---|---|---|
| Results.NewResultItemFullName | core/results.go:29-55 | when no part holds a dot, the full name of a new item reads back as that item |
| Results.GetFullName | core/results.go:53-55 | the full name is the three parts joined by two dots: its length and its dot count are those of the parts plus two |
| Results.NewResultItemFromFullName | core/results.go:33-50 | a name with other than exactly two dots gives the empty item; otherwise the item's parts hold no dot and print back as that very name |
| Results.FromFullNameOfFullName | core/results.go:33-55 | round trip: decoding the full name of an item whose parts hold no dot gives the item back, without its data |
| Results.FullNameAmbiguous | core/results.go:53-55 | a dot inside a part makes two different items share one file name |
| Results.FormatTimestamp | core/results.go:192-194 | a `GetCurrentTimestamp` stamp holds no dot, so it fits in a full name; an in-range reading gives a 19-character stamp |
| Results.TimestampOrder | core/results.go:192-194 | for in-range readings, one stamp is smaller than another in Go's string order exactly when its reading is earlier |
| Results.TimestampInjective | core/results.go:192-194 | different in-range readings give different stamps |
| Results.GetPathDecodes | core/results.go:148-150 | an item whose parts hold no dot is stored under a name that decodes back to the item |
| Results.Store | core/results.go:79-88 | an empty timestamp is replaced by the stamp of `now`; the write fails exactly when the path is not writable, and then nothing changes; otherwise the file holds the item's data |
| Results.Get | core/results.go:91-106 | succeeds exactly when the item's file exists, with the item's data replaced by the file's bytes; otherwise a not-found error for that path |
| Results.GetContent | core/results.go:153-156 | succeeds exactly when the item's file exists, with the same bytes `Get` puts into the item |
| Results.StoreThenGet | core/results.go:79-106 | what a successful `Store` wrote, `Get` and `GetContent` read back |
| Results.StoreOtherFiles | core/results.go:79-88 | `Store` changes no file other than the item's own |
| Results.StoreStampedName | core/results.go:79-88 | an item stored without a timestamp gets a file name that decodes to the item with the current stamp |
| Results.GlobAll | core/results.go:158-167 | every name any pattern matches is in the result; no patterns give no names |
| Results.GlobAllMember | core/results.go:158-167 | a name is in the result exactly when some pattern matches it |
| Results.GlobAllAppend | core/results.go:158-167 | the results of a list of patterns are the results of each pattern, in pattern order |
| Stats.NewStudentSubmissions | core/stats.go:26-28 | a new student record carries the given id and no submissions |
| StudentsRegister.NewStudentsRegister | core/students_register.go:18-20 | every lookup in a new register fails with not-found |
| StudentsRegister.RegisterUser | core/students_register.go:23-25 | the code now maps to the id; every other code maps as before |
| StudentsRegister.Get | core/students_register.go:38-44 | succeeds exactly for a registered code, with its id; otherwise a not-found error naming the code |
| StudentsRegister.GetOrRegister | core/students_register.go:28-35 | a known code returns its id and leaves the register unchanged; an unknown code registers the fresh id and returns it; no other code changes |
| StudentsRegister.GetOrRegisterIdempotent | core/students_register.go:28-35 | asking again for the same code returns the same id and leaves the register as it was, whatever fresh id is offered |
| StudentsRegister.GetOrRegisterInjective | core/students_register.go:28-35 | while the fresh ids are unused, no two codes share an id |
| StudentsRegister.RegisteredGrow | core/students_register.go:23-35 | a code once registered stays, with the id it had |
| ParserRegister.NewRegister | parsers/register.go:11-13 | looking up any name in a new register fails with not-found |
| ParserRegister.RegisterParser | parsers/register.go:16-18 | the name now gives the parser; every other name gives what it gave before |
| ParserRegister.Get | parsers/register.go:21-27 | succeeds exactly for a registered name, with its parser; otherwise a not-found error naming it |
| ParserRegister.RegisterOverwrites | parsers/register.go:16-18 | registering a name twice keeps only the second parser |
| ParserRegister.RegisterCommutes | parsers/register.go:16-18 | registrations under different names do not interfere |
| Csv.UuidString | core/csv.go:39 | the `StudentID` column is the 36-character canonical uuid text: dashes at 8, 13, 18 and 23, lower-case hexadecimal digits elsewhere |
| Csv.UuidStringInjective | core/csv.go:39 | two ids print the same exactly when they are equal, so rows of different students never share a `StudentID` |
| Csv.StudentRows | core/csv.go:37-42 | one row per submission of the student, in order, each carrying the submission's fields |
| Csv.ConvertSubmissionsToCsvStatistics | core/csv.go:35-44 | there are as many rows as submissions over all students |
| Csv.ConvertRow | core/csv.go:35-44 | submission `j` of student `k` is the row right after all rows of the students before `k`, with that student's id and that submission's fields |
| Csv.ConvertRowsShape | core/csv.go:35-44 | every row has an empty `DateTime` and a 36-character `StudentID` |
| Csv.ConvertAppend | core/csv.go:35-44 | converting two lists of students gives the rows of the first followed by those of the second |
| Numbers.Atoi | parsers/kontr_parser.go:72 | `strconv.Atoi`: succeeds exactly on an optional sign followed by one or more decimal digits |
| Numbers.AtoiFormatInt | parsers/kontr_parser.go:72 | every integer printed in decimal reads back as itself |
| Text.Split | core/results.go:37 | `strings.Split`: one part more than separators, no part holds the separator, and the parts join back to the input |
| Text.SplitJoin | core/results.go:37 | splitting the join of separator-free parts gives the parts back |
| Text.FieldsJoin | parsers/kontr_parser.go:64 | `strings.Fields` of non-empty, space-free words joined by spaces gives the words back |
| Text.FieldsAreWords | parsers/kontr_parser.go:64 | every field is non-empty and holds no white space |
| Text.FieldsEmptyIffBlank | parsers/kontr_parser.go:64-70 | a line has no fields exactly when it is blank |
| Text.TrimSpaceEmptyIffBlank | parsers/kontr_parser.go:39 | `strings.TrimSpace` leaves nothing exactly when the line is all white space |
| Lex.LessTransitive | app/application.go:324-326 | the string order `>` compares by is transitive |
| Lex.LessTotal | app/application.go:324-326 | any two different strings are ordered one way or the other |
| KontrParser.ParseDateTime | parsers/kontr_parser.go:127-131 | succeeds exactly when date, a space and time read in the layout `2006-01-02 15:04` and the fields are in range (month lengths, leap years, 24 hours, 60 minutes); every success is a valid date and time |
| KontrParser.ParseDateTimeFormat | parsers/kontr_parser.go:127-131 | round trip: the zero-padded date and time tokens of any valid date and time parse back to it |
| KontrParser.TestDateTime | parsers/kontr_parser_test.go:15-34 | the date and time tokens of the unit-test lines parse to 2020-02-18 08:45 |
| KontrParser.ParseNumberWithStar | parsers/kontr_parser.go:133-147 | the final flag is set exactly when the token starts with `*`, which is stripped once; the rest either reads as an integer with no error, or gives 0 and the error |
| KontrParser.ParseNumberWithStarText | parsers/kontr_parser.go:133-147 | round trip: every integer, written with or without a leading star, reads back with its flag |
| KontrParser.ParseNumberWithStarExamples | parsers/kontr_parser_test.go:60-158 | `*1`, `1`, `-1` and `*-10` read as the unit tests expect |
| KontrParser.ParseNumberWithStarDoubleStar | parsers/kontr_parser.go:133-147 | only one star is stripped: `**…` is final and malformed |
| KontrParser.ParseWords | parsers/kontr_parser.go:62-125 | the truncation rules: no submission exactly when there are no fields or the index is not an integer; otherwise the first fields that parse are filled in and the error names the first that is missing or malformed; no error exactly when every field present parses; a sixth starred field can only set the final flag |
| KontrParser.ParseSubmission | parsers/kontr_parser.go:62-125 | a line splits into fields, which a blank line does not have; no submission exactly when the line is blank or its first field is not an integer; no error exactly when the fields form a complete line |
| KontrParser.ParseSubmissionFormatLine | parsers/kontr_parser.go:62-125 | round trip: the canonical line of any submission with a printable date parses back to that submission with no error |
| KontrParser.ParseSubmissionExamples | parsers/kontr_parser_test.go:15-55 | the two unit-test lines parse to submissions 1 (1 point, final) and 3 (10 points, not final) with no error |
| KontrParser.ParseYieldsDataLines | parsers/kontr_parser.go:32-56 | lines up to the first `%%` header are ignored, and so are blank, `#` and later `%%` lines; every other line yields one submission, in order; on failure the error names the first such line without a submission, and every line before it has one |
| KontrParser.DataLineNilSubmission | parsers/kontr_parser.go:39-52 | a data line has fields, and its submission is nil exactly when its first field is not an integer |
| KontrParser.ParseNilSubmission | parsers/kontr_parser.go:47-53 | a header followed by one word that is not an integer makes `Parse` dereference a nil submission |
| KontrParser.ParseNilSubmissionExample | parsers/kontr_parser.go:47-53 | the notepad `%%` + newline + `x` makes `Parse` dereference a nil submission |
| KontrParser.ParseRecoveringDataLines | parsers/kontr_parser.go:32-56 | the corrected parser never fails: it returns the non-nil submissions of the data lines, in order |
| KontrParser.ParseRecoveringAgrees | parsers/kontr_parser.go:32-56 | wherever `Parse` succeeds, the corrected parser returns the same submissions |
| KontrParser.ParseRecoveringNilSubmission | parsers/kontr_parser.go:47-53 | on the notepads that crash `Parse`, the corrected parser skips the line |
| AppItems.SortByTimestamp | app/application.go:323-328 | `ItemsSortByTimestamp`: the result is a permutation of the input, newest first |
| AppItems.SortedTimestampsUnique | app/application.go:323-328 | any two newest-first orders of the same items have the same sequence of timestamps, so every order `sort.Slice` may give agrees with the model's |
| AppItems.GroupByFilter | app/application.go:269-287 | the bucket of a key holds exactly the items with that key, in input order, and is never empty |
| AppItems.CategorizeByName | app/application.go:279-287 | one bucket per name that occurs, holding exactly that name's items in input order |
| AppItems.CategorizeByExtension | app/application.go:269-277 | one bucket per extension that occurs, holding exactly that extension's items in input order |
| AppItems.FilterCount | app/application.go:269-287 | an item sits in its own key's bucket as often as it occurs in the input, and in no other bucket |
| AppItems.BucketSizes | app/application.go:269-287 | the buckets partition the input: their sizes add up to the number of items |
| AppItems.CategorizeResultItems | app/application.go:259-267 | one entry per name that occurs |
| AppItems.CategorizeResultItemsBucket | app/application.go:259-267 | a name's inner map has exactly the extensions seen with that name, and each bucket holds exactly the items of that name and extension, in input order |
| AppItems.LatestKeys | app/application.go:219-237 | the latest map has an entry for a name and extension exactly when some item has both |
| AppItems.LatestNewest | app/application.go:219-237 | each latest entry is an item of its name and extension that no item of the same name and extension is newer than |
| Application.DecodeNames | app/application.go:208-214 | the items are decoded from the names; every name that decodes with a timestamp contributes its item |
| Application.DecodeNamesSingle | app/application.go:208-214 | one name contributes its item exactly when that item has a timestamp |
| Application.DecodeNamesAppend | app/application.go:208-214 | the items of concatenated names are the concatenated items, so order and repetitions of the names are kept |
| Application.PatternsToResultItemsMember | app/application.go:203-217 | an item is listed exactly when some pattern matches a file name that decodes to it with a timestamp |
| Application.GetLatestEntry | app/application.go:219-237 | `GetLatest` has an entry for a name and extension exactly when a file of both exists, and that entry is a newest such item |
| Application.RemoveEachTaken | app/application.go:190-198 | the removed items are the items at strictly increasing positions of the list: each taken at most once, in list order |
| Application.RemoveEachWhen | app/application.go:190-198 | a position is taken exactly when removing its file succeeds in the directory the items before it left |
| Application.RemoveEachFiles | app/application.go:190-198 | the locks stay; each removed item's file existed and is gone; no other file disappears or changes |
| Application.RemoveEachClears | app/application.go:190-198 | every listed file that exists and is not locked is gone afterwards |
| Application.FirstRemoved | app/application.go:190-191 | the first position removed is the first one past `limit` (`i > limit`), or the end of the list |
| Application.RemovedPastLimit | app/application.go:190-198 | only items past position `limit` are removed |
| Application.ClearedPastLimit | app/application.go:190-198 | every file of an item past position `limit` that exists and is not locked is removed |
| Application.RemoveAfter | app/application.go:190-198 | the loop removes exactly what removing the items past position `limit` one after the other removes, in that order; no other file changes |
| Application.CleanResults | app/application.go:183-201 | the matched items are sorted newest first and the items past position `limit` are removed in order; no removed item is newer than one up to position `limit` |
| Application.CleanResultsOverlap | app/application.go:183-201 | `a.1.xml`, matched by both `a*` and `*.xml`, is listed twice, and with `limit` 0 its file is removed although it is the newest |
| Application.KeptUpToLimit | app/application.go:190-198 | over distinct decoded items, the files of the items up to position `limit` survive unchanged |
| Application.CleanResultsKeepsOneMore | app/application.go:190-197 | when the patterns list `limit + 1` distinct items, the loop removes nothing, so one item more than `limit` is kept |
| Application.CleanResultsIntended | app/application.go:183-201 | counting each matched file once, the files of the `limit` newest items are kept unchanged and every other removable matched file is removed |
| AppItems.Dedup | app/application.go:183-201 | the same items, each once |
| AppItems.SortDistinct | app/application.go:323-328 | sorting newest first repeats no item |
| Application.FetchOneResult | app/application.go:43-60 | a client failure is returned as such; otherwise the content is stored as `<notepad>.<stamp>.xml` and the item is returned, unless the file is not writable |
| Application.FetchOneWrites | app/application.go:43-60 | a successful fetch leaves the content in the notepad's file and changes no other file |
| Application.NotepadPathInjective | app/application.go:52-55 | different notepads fetched with one timestamp go to different files |
| Application.FetchItems | app/application.go:27-41 | every item returned is a named notepad from the list, stored as `xml` with the run's stamp |
| Application.FetchNames | app/application.go:27-41 | without a failure, the items are exactly the non-empty notepad names, in order |
| Application.FetchFailFast | app/application.go:30-34 | once a notepad fails, no later notepad is fetched: the result equals that of the prefix |
| Application.FetchContinues | app/application.go:30-39 | without a failure, fetching a concatenation fetches the second list into the directory the first left |
| Application.FetchKeeps | app/application.go:27-41 | fetching changes no file other than the notepads' own |
| Application.FetchStores | app/application.go:27-41 | without a failure, every named notepad's content is in its file afterwards |
| Application.ParseOne | app/application.go:124-153 | a non-`xml` file gives no students and changes nothing; an `xml` file succeeds exactly when it exists, its content parses and the `json` file is writable, and then the `json` file holds the encoded students and nothing else changes |
| Application.ParseNames | app/application.go:105-122 | only parsed file names have entries; every non-`xml` name has an empty entry |
| Application.ParseNamesSingle | app/application.go:112-119 | one name gets an entry with its students when parsing it succeeds, and none when it fails |
| Application.ParseNamesRecords | app/application.go:112-119 | a name listed once has an entry exactly when parsing it succeeds in the directory the names before it left, and the entry holds the students parsed |
| Application.ParseSkipsFailure | app/application.go:113-117 | continue-on-error: a file that fails contributes nothing and the rest is parsed as if it were absent |
| Application.ParseNamesAppend | app/application.go:105-122 | parsing a concatenation parses the second list after the first, later entries taking precedence |
| Application.Parse | app/application.go:105-122 | every entry belongs to a file some pattern matched |
| Application.ParseRecords | app/application.go:105-122 | a file matched once has an entry exactly when parsing it succeeds in its turn, holding its students |
| Application.ConvertToCsvOne | app/application.go:82-103 | a non-`json` file gives the empty item and changes nothing; a `json` file converts exactly when it exists, its content decodes and the `csv` file is writable, and then yields the `csv` item of the same name and stamp, whose file holds the encoded rows of the decoded students, and nothing else changes |
| Application.ConvertNames | app/application.go:62-80 | every item returned is a named `csv` item whose `json` source was among the names |
| Application.ConvertNamesSingle | app/application.go:68-78 | one name contributes its `csv` item when converting it succeeds with a named item, and nothing otherwise |
| Application.ConvertNamesSnoc | app/application.go:68-78 | one more name is converted in the directory the names before it left; a success with a named item appends that item, anything else appends nothing |
| Application.ConvertNamesRecords | app/application.go:68-78 | a name converted successfully in its turn has its item right after the items of the names before it |
| Application.ConvertSkipsFailure | app/application.go:70-74 | continue-on-error: a file that fails contributes nothing and the rest is converted as if it were absent |
| Application.ConvertNamesAppend | app/application.go:62-80 | converting a concatenation converts the second list after the first, the items concatenated |
| Application.ConvertToCsv | app/application.go:62-80 | every item returned comes from a file some pattern matched |
| Application.ConvertRecords | app/application.go:62-80 | every matched file converted successfully in its turn has its `csv` item in the result |

## Left out

- The course client (`core/client.go`), `filepath.Glob`, and the JSON, XML and CSV (un)marshalling are parameters. Their results are taken as given. Marshalling is a total function, so its error paths are not modelled.
- `path.Join` with the results directory is not modelled: the directory is flat, and `GetPath` is the full name.
- `time.Now()` is a `Clock` parameter. `GetCurrentTimestamp` is modelled for readings with a year of at most four digits.
- `uuid.New()` is a parameter `newId`. Freshness is a precondition of the injectivity lemma.
- `Points` and `Bonus` are `float64` in `core/stats.go`. The parser only ever stores integers there, so the model uses `int`.
- `Numbers.Atoi`: does not model the 64-bit range error of `strconv.Atoi`, because integers are unbounded here.
- `KontrParser.ParseDateTime`: `time.Parse` is modelled for this one layout only. Time zones, seconds and the parsed `time.Time` location are not modelled; the result is a plain date and time.
- `AppItems.SortByTimestamp`: `sort.Slice` is not stable, and the order of equal timestamps is unspecified. The model picks one order. `AppItems.SortedTimestampsUnique` shows that every admissible order has the same timestamps in the same places.
- Application.ParseNames: its own `ensures` state which keys can occur. Its success side is stated by the lemmas `Application.ParseNamesSingle`, `Application.ParseNamesAppend` and `Application.ParseNamesRecords`. They give a name's entry in terms of the directory the names before it left; no lemma states that reading a file is unaffected by the `json` files written before it.
- Application.ParseNamesRecords and Application.ParseRecords: stated for a name listed once. With a repeated name the last successful parse wins, which follows from `Application.ParseNamesAppend`.
- Application.Parse: its own `ensures` state which keys can occur. Its success side is the lemma `Application.ParseRecords`.
- Application.ConvertNames: its own `ensures` state which items can occur. Its success side is stated by the lemmas `Application.ConvertNamesSingle`, `Application.ConvertNamesSnoc` and `Application.ConvertNamesRecords`.
- Application.ConvertToCsv: its own `ensures` state which items can occur. Its success side is the lemma `Application.ConvertRecords`.
- Application.RemoveEach: the removal loop as a function. Its own `ensures` only bound the result. Its meaning is stated by `Application.RemoveEachTaken`, `Application.RemoveEachWhen`, `Application.RemoveEachFiles` and `Application.RemoveEachClears`.
- Application.FetchWithTimestamp: the function's own `ensures` only bound the result. Its contract is stated by the lemmas `Application.FetchItems`, `Application.FetchNames`, `Application.FetchFailFast` and `Application.FetchContinues`.
- Application.FetchOne: the function's own `ensures` only names the item. Its contract is the lemma `Application.FetchOneResult`.
- AppItems.GroupBy: the function's own `ensures` only fixes the keys. The buckets are stated by the lemma `AppItems.GroupByFilter`.
- AppItems.CategorizeResultItems: the function's own `ensures` only fixes the names. The inner maps are stated by the lemma `AppItems.CategorizeResultItemsBucket`.
- Results.GetPath and Results.NewResultItem: their round trips through `NewResultItemFromFullName` are the lemmas `Results.GetPathDecodes` and `Results.NewResultItemFullName`.
- Logging (`logrus`), `SetupLogger` and the configuration (`app/config.go`, `cmd/*`) are not modelled. They do not influence results.
- `List`, `ListPaths`, `NewResults`, `StoreWithoutTimestamp`, `DumpLatest`, the cache (`core/cache.go`), the students register's `Export`/`Import`, `GetParserRegister`/`GetOrDefault` and `BasicParser` are not modelled. They are file and codec plumbing around the modelled operations.
- `UnmarshalStudentInfo` is the `decode` parameter. `WriteStatisticsToCSVFile` is the `encode` parameter followed by a plain write of the file.
- `parsers/parser.go` repeats the declarations of `parsers/register.go` in the same package. The model has one register, following `parsers/register.go`.
- The unit tests in `parsers/kontr_parser_test.go` call `parseSubmissionLine`, which `parsers/kontr_parser.go` does not define. `KontrParser.ParseSubmissionExamples` states those tests against `parseSubmission`.
- Application.CleanResults: removes the items past position `limit`, as the `i > limit` comparison does, so `limit + 1` items are kept when no file is matched twice. The `limit` flag of the `clean` command (cmd/clean.go:66, default 1) is documented as the maximum number of newest items, so this off-by-one is a finding below, and so is a file matched by two patterns. The Go code sorts with `sort.Slice`, which is not stable, and files of one fetch run share a timestamp; which equally stamped files at the boundary are removed follows the order `SortByTimestamp` picks for ties. `RemoveAfter` and `RemovedNotNewer` hold for any newest-first order.

## Findings

| source | as written | input that shows it | evidently intended | confidence | as-written member | corrected member |
|---|---|---|---|---|---|---|
| app/application.go:183-201 | `GlobAll` returns a file once per matching pattern, and `CleanResults` sorts and prunes that list as is, so a file matched twice takes two of the `limit + 1` kept places, or has its file removed by the later copy | patterns `a*` and `*.xml`, the file `a.1.xml`, `limit` 0: the file is removed although it is the newest | count each matched file once, so the kept places go to distinct files | not executed | Application.CleanResultsOverlap | Application.CleanResultsIntended |
| app/application.go:190-197 | the loop removes an item only when `i > limit`, so `limit + 1` items are kept, although the `limit` flag that `clean` passes in (cmd/clean.go:66) is "max number of last items", default 1 | `limit` 1 and the files `a.1.xml` and `a.2.xml`: neither is removed | remove the items at positions `i >= limit`, keeping the `limit` newest | not executed | Application.CleanResultsKeepsOneMore | Application.CleanResultsIntended |
| parsers/kontr_parser.go:47-53 | after the header, `Parse` logs the error of `parseSubmission` and then dereferences the submission, which is nil when the line's first field is not an integer | the notepad `%%` + newline + `x` | skip such a line, as other parse errors are skipped | not executed | KontrParser.ParseNilSubmissionExample | KontrParser.ParseRecoveringNilSubmission |
