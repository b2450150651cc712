/** The Kontr notepad parser of `parsers/kontr_parser.go`: a line-by-line
    state machine over one student's notepad text, and the whitespace-token
    grammar of one submission line,

      index [date time [points [bonus [marker]]]]

    where `points` and `marker` may carry a leading '*' (the final flag). */
module KontrParser {
  import opened Wrappers
  import opened Text
  import opened Numbers
  import opened Stats

  /** The `error` values the parser produces (Go builds them with
      `fmt.Errorf` or receives them from `strconv`/`time`). */
  datatype ParseError =
    | NotEnoughParts(found: nat)
    | InvalidInteger(text: string)
    | InvalidDateTime(text: string)

  // ---------------------------------------------------------------------
  // parseDateTime: time.Parse("2006-01-02 15:04", date + " " + time)
  // ---------------------------------------------------------------------

  predicate IsLeap(year: int) {
    year % 4 == 0 && (year % 100 != 0 || year % 400 == 0)
  }

  /** Go's `daysIn(month, year)`. */
  function DaysIn(month: int, year: int): (n: int)
    requires 1 <= month <= 12
    ensures 28 <= n <= 31
  {
    if month == 2 then (if IsLeap(year) then 29 else 28)
    else if month == 4 || month == 6 || month == 9 || month == 11 then 30
    else 31
  }

  /** The range checks `time.Parse` applies after reading the fields. */
  predicate ValidDateTime(t: DateTime) {
    && 1 <= t.month <= 12
    && 1 <= t.day <= DaysIn(t.month, t.year)
    && 0 <= t.hour < 24
    && 0 <= t.minute < 60
  }

  /** Exactly `n` digits at the front of `s` ("2006", "01", "02", "04"). */
  function FixedDigits(s: string, n: nat): (r: Option<(nat, string)>)
    ensures r.Some? ==> |r.value.1| == |s| - n && r.value.1 == s[n..]
  {
    if |s| < n || !AllDigits(s[..n]) then None
    else Some((DigitsValue(s[..n]), s[n..]))
  }

  /** One or two digits at the front of `s` (the "15" hour field). */
  function HourDigits(s: string): (r: Option<(nat, string)>)
    ensures r.Some? ==> |r.value.1| < |s|
  {
    if |s| == 0 || !IsDigit(s[0]) then None
    else if |s| == 1 || !IsDigit(s[1]) then Some((DigitValue(s[0]), s[1..]))
    else Some((DigitValue(s[0]) * 10 + DigitValue(s[1]), s[2..]))
  }

  function Literal(s: string, c: char): Option<string> {
    if |s| > 0 && s[0] == c then Some(s[1..]) else None
  }

  function DropBlanks(s: string): string {
    if |s| > 0 && s[0] == ' ' then DropBlanks(s[1..]) else s
  }

  /** A space in the layout matches one or more spaces of the value. */
  function LayoutSpace(s: string): Option<string> {
    if |s| == 0 || s[0] != ' ' then None else Some(DropBlanks(s))
  }

  /** Reads "2006-01-02": year, month and day, and what follows. */
  function ReadDate(s: string): Option<(nat, nat, nat, string)> {
    var year :- FixedDigits(s, 4);
    var month :- DashDigits(year.1);
    var day :- DashDigits(month.1);
    Some((year.0, month.0, day.0, day.1))
  }

  /** A '-' followed by exactly two digits. */
  function DashDigits(s: string): Option<(nat, string)> {
    var s1 :- Literal(s, '-');
    FixedDigits(s1, 2)
  }

  /** Reads "15:04": hour and minute, and what follows. */
  function ReadClock(s: string): Option<(nat, nat, string)> {
    var hour :- HourDigits(s);
    var s1 :- Literal(hour.1, ':');
    var minute :- FixedDigits(s1, 2);
    Some((hour.0, minute.0, minute.1))
  }

  /** Reads the fields of layout "2006-01-02 15:04", requiring the whole
      value to be consumed. */
  function ReadLayout(s: string): Option<DateTime> {
    var date :- ReadDate(s);
    var rest :- LayoutSpace(date.3);
    var clock :- ReadClock(rest);
    if |clock.2| != 0 then None
    else Some(DateTime(date.0, date.1, date.2, clock.0, clock.1))
  }

  /** `parseDateTime(date, tPart)`. */
  function ParseDateTime(date: string, clock: string): (r: Result<DateTime, ParseError>)
    ensures r.Success? ==> ValidDateTime(r.value)
    ensures r.Success? <==> ReadLayout(date + " " + clock).Some? && ValidDateTime(ReadLayout(date + " " + clock).value)
  {
    var full := date + " " + clock;
    match ReadLayout(full)
    case None => Failure(InvalidDateTime(full))
    case Some(t) => if ValidDateTime(t) then Success(t) else Failure(InvalidDateTime(full))
  }

  /** The date and time tokens of a notepad line for `t` (zero-padded). */
  function FormatDate(t: DateTime): string
    requires t.year >= 0 && t.month >= 0 && t.day >= 0
  {
    Decimal(t.year, 4) + "-" + Decimal(t.month, 2) + "-" + Decimal(t.day, 2)
  }

  function FormatClock(t: DateTime): string
    requires t.hour >= 0 && t.minute >= 0
  {
    Decimal(t.hour, 2) + ":" + Decimal(t.minute, 2)
  }

  predicate Printable(t: DateTime) {
    ValidDateTime(t) && 0 <= t.year <= 9999
  }

  lemma {:induction false} FixedDigitsOfDecimal(n: nat, w: nat, rest: string)
    requires 1 <= w && n < Pow10(w)
    ensures FixedDigits(Decimal(n, w) + rest, w) == Some((n, rest))
  {
    DecimalLength(n, w);
    DigitsValueOfDecimal(n, w);
    var s := Decimal(n, w) + rest;
    assert s[..w] == Decimal(n, w);
    assert s[w..] == rest;
  }

  lemma {:induction false} HourDigitsOfDecimal(n: nat, rest: string)
    requires n < 100 && |rest| > 0 && rest[0] == ':'
    ensures HourDigits(Decimal(n, 2) + rest) == Some((n, rest))
  {
    DecimalLength(n, 2);
    var d := Decimal(n, 2);
    assert d == Decimal(n / 10, 1) + [DigitChar(n % 10)];
    assert Decimal(n / 10, 1) == [DigitChar(n / 10)];
    var s := d + rest;
    assert s[0] == DigitChar(n / 10) && s[1] == DigitChar(n % 10);
    assert s[2..] == rest;
  }

  lemma {:induction false} DashDigitsOfDecimal(n: nat, rest: string)
    requires n < 100
    ensures DashDigits("-" + Decimal(n, 2) + rest) == Some((n, rest))
  {
    var s := "-" + Decimal(n, 2) + rest;
    assert s[1..] == Decimal(n, 2) + rest;
    FixedDigitsOfDecimal(n, 2, rest);
  }

  lemma {:induction false} ReadDateOfFormat(t: DateTime, rest: string)
    requires Printable(t)
    ensures ReadDate(FormatDate(t) + rest) == Some((t.year as nat, t.month as nat, t.day as nat, rest))
  {
    var y, mo, d := Decimal(t.year, 4), Decimal(t.month, 2), Decimal(t.day, 2);
    var r2 := "-" + d + rest;
    var r1 := "-" + mo + r2;
    assert FormatDate(t) + rest == y + r1;
    FixedDigitsOfDecimal(t.year, 4, r1);
    DashDigitsOfDecimal(t.month, r2);
    DashDigitsOfDecimal(t.day, rest);
  }

  lemma {:induction false} ReadClockOfFormat(t: DateTime)
    requires Printable(t)
    ensures ReadClock(FormatClock(t)) == Some((t.hour as nat, t.minute as nat, ""))
  {
    var h, mi := Decimal(t.hour, 2), Decimal(t.minute, 2);
    var r := ":" + mi;
    assert FormatClock(t) == h + r;
    HourDigitsOfDecimal(t.hour, r);
    assert r[1..] == mi + "";
    FixedDigitsOfDecimal(t.minute, 2, "");
  }

  /** The date/time grammar reads back every printable date-time. */
  lemma {:induction false} ParseDateTimeFormat(t: DateTime)
    requires Printable(t)
    ensures ParseDateTime(FormatDate(t), FormatClock(t)) == Success(t)
  {
    var clock := FormatClock(t);
    var rest := " " + clock;
    ReadDateOfFormat(t, rest);
    assert FormatDate(t) + " " + clock == FormatDate(t) + rest;
    DecimalLength(t.hour, 2);
    assert clock[0] == Decimal(t.hour, 2)[0];
    assert rest[1..] == clock;
    assert DropBlanks(rest) == clock;
    ReadClockOfFormat(t);
  }

  // ---------------------------------------------------------------------
  // parseNumberWithStar
  // ---------------------------------------------------------------------

  /** The three results `(int, bool, error)` of `parseNumberWithStar`. */
  datatype StarNumber = StarNumber(value: int, isFinal: bool, error: Option<ParseError>)

  /** An optional single '*' (the final flag) followed by a signed integer. */
  function ParseNumberWithStar(s: string): (r: StarNumber)
    ensures r.isFinal <==> HasPrefix(s, "*")
    ensures var digits := if HasPrefix(s, "*") then s[1..] else s;
            && (r.error.None? <==> Atoi(digits).Some?)
            && r.value == Atoi(digits).GetOr(0)
  {
    var isFinal := HasPrefix(s, "*");
    var digits := if isFinal then s[1..] else s;
    match Atoi(digits)
    case None => StarNumber(0, isFinal, Some(InvalidInteger(digits)))
    case Some(points) => StarNumber(points, isFinal, None)
  }

  /** How a points token is written: an optional '*' then the number. */
  function StarText(n: int, isFinal: bool): string {
    (if isFinal then "*" else "") + FormatInt(n)
  }

  /** parseNumberWithStar reads back every points token. */
  lemma ParseNumberWithStarText(n: int, isFinal: bool)
    ensures ParseNumberWithStar(StarText(n, isFinal)) == StarNumber(n, isFinal, None)
  {
    AtoiFormatInt(n);
    var digits := FormatInt(n);
    assert digits[0] == '-' || IsDigit(digits[0]);
    if isFinal {
      assert ("*" + digits)[1..] == digits;
    } else {
      assert "" + digits == digits;
      assert !HasPrefix(digits, "*");
    }
  }

  /** The cases fixed by the parser's unit tests. */
  lemma ParseNumberWithStarExamples()
    ensures ParseNumberWithStar("*1") == StarNumber(1, true, None)
    ensures ParseNumberWithStar("1") == StarNumber(1, false, None)
    ensures ParseNumberWithStar("-1") == StarNumber(-1, false, None)
    ensures ParseNumberWithStar("*-10") == StarNumber(-10, true, None)
  {
    ParseNumberWithStarText(1, true);
    ParseNumberWithStarText(1, false);
    ParseNumberWithStarText(-1, false);
    ParseNumberWithStarText(-10, true);
    OneText();
    MinusTexts();
  }

  /** Only one star is stripped: a doubled star is a malformed number that
      still reports the final flag. */
  lemma ParseNumberWithStarDoubleStar(rest: string)
    ensures ParseNumberWithStar("**" + rest) == StarNumber(0, true, Some(InvalidInteger("*" + rest)))
  {
    assert ("**" + rest)[1..] == "*" + rest;
  }

  // ---------------------------------------------------------------------
  // parseSubmission
  // ---------------------------------------------------------------------

  /** The `(*core.Submission, error)` pair: a nil or (partially) filled
      submission together with a nil or non-nil error. */
  datatype SubmissionResult = SubmissionResult(submission: Option<Submission>, error: Option<ParseError>)

  /** The first `k` fields of a line (1: index, 3: date and time, 4: points,
      5: bonus) are present and parse. */
  predicate ParsesUpTo(words: seq<string>, k: nat) {
    && |words| >= k
    && (k >= 1 ==> Atoi(words[0]).Some?)
    && (k >= 3 ==> ParseDateTime(words[1], words[2]).Success?)
    && (k >= 4 ==> ParseNumberWithStar(words[3]).error.None?)
    && (k >= 5 ==> Atoi(words[4]).Some?)
  }

  /** The submission with the first `k` fields filled in and the others at
      their zero values. */
  function Partial(words: seq<string>, k: nat): Submission
    requires 1 <= k && ParsesUpTo(words, k)
  {
    var points := if k >= 4 then ParseNumberWithStar(words[3]) else StarNumber(0, false, None);
    Submission(
      if k >= 3 then ParseDateTime(words[1], words[2]).value else ZeroTime,
      Atoi(words[0]).value,
      points.value,
      points.isFinal,
      if k >= 5 then Atoi(words[4]).value else 0)
  }

  /** Every field of the line parses: the only case with a nil error. */
  predicate Complete(words: seq<string>) {
    && |words| >= 4
    && ParsesUpTo(words, if |words| >= 5 then 5 else 4)
    && (|words| >= 6 ==> ParseNumberWithStar(words[5]).error.None?)
  }

  /** The submission a complete line describes: the sixth field can only add
      the final flag, and fields after the sixth are ignored. */
  function CompleteSubmission(words: seq<string>): Submission
    requires Complete(words)
  {
    var s := Partial(words, if |words| >= 5 then 5 else 4);
    s.(final := s.final || (|words| >= 6 && ParseNumberWithStar(words[5]).isFinal))
  }

  /** `parseSubmission` after `strings.Fields`: the truncation rules. */
  function ParseWords(words: seq<string>): (r: SubmissionResult)
    ensures r.submission.None? <==> |words| == 0 || Atoi(words[0]).None?
    ensures |words| == 0 ==> r.error == Some(NotEnoughParts(0))
    ensures r.submission.Some? ==> r.submission.value.index == Atoi(words[0]).value
    ensures r.error.None? <==> Complete(words)
    ensures Complete(words) ==> r.submission == Some(CompleteSubmission(words))
    ensures 1 <= |words| <= 2 && ParsesUpTo(words, 1) ==>
              r == SubmissionResult(Some(Partial(words, 1)), Some(NotEnoughParts(|words|)))
    ensures |words| >= 3 && ParsesUpTo(words, 1) && ParseDateTime(words[1], words[2]).Failure? ==>
              r == SubmissionResult(Some(Partial(words, 1)), Some(ParseDateTime(words[1], words[2]).error))
    ensures |words| == 3 && ParsesUpTo(words, 3) ==>
              r == SubmissionResult(Some(Partial(words, 3)), Some(NotEnoughParts(3)))
    ensures |words| >= 4 && ParsesUpTo(words, 3) && ParseNumberWithStar(words[3]).error.Some? ==>
              r == SubmissionResult(Some(Partial(words, 3)), ParseNumberWithStar(words[3]).error)
    ensures |words| >= 5 && ParsesUpTo(words, 4) && Atoi(words[4]).None? ==>
              r == SubmissionResult(Some(Partial(words, 4)), Some(InvalidInteger(words[4])))
    ensures |words| >= 6 && ParsesUpTo(words, 5) && ParseNumberWithStar(words[5]).error.Some? ==>
              r == SubmissionResult(Some(Partial(words, 5)), ParseNumberWithStar(words[5]).error)
  {
    if |words| == 0 then SubmissionResult(None, Some(NotEnoughParts(0)))
    else match Atoi(words[0])
      case None => SubmissionResult(None, Some(InvalidInteger(words[0])))
      case Some(index) =>
        var s0 := EmptySubmission.(index := index);
        if |words| <= 2 then SubmissionResult(Some(s0), Some(NotEnoughParts(|words|)))
        else match ParseDateTime(words[1], words[2])
          case Failure(e) => SubmissionResult(Some(s0), Some(e))
          case Success(dateTime) =>
            var s1 := s0.(dateTime := dateTime);
            if |words| <= 3 then SubmissionResult(Some(s1), Some(NotEnoughParts(|words|)))
            else
              var points := ParseNumberWithStar(words[3]);
              if points.error.Some? then SubmissionResult(Some(s1), points.error)
              else
                var s2 := s1.(points := points.value, final := points.isFinal);
                if |words| == 4 then SubmissionResult(Some(s2), None)
                else match Atoi(words[4])
                  case None => SubmissionResult(Some(s2), Some(InvalidInteger(words[4])))
                  case Some(bonus) =>
                    var s3 := s2.(bonus := bonus);
                    if |words| == 5 then SubmissionResult(Some(s3), None)
                    else
                      var marker := ParseNumberWithStar(words[5]);
                      if marker.error.Some? then SubmissionResult(Some(s3), marker.error)
                      else SubmissionResult(Some(s3.(final := s3.final || marker.isFinal)), None)
  }

  /** `parseSubmission(line)`: splits the line into whitespace-separated
      fields and decodes them. A nil submission comes back only for a blank
      line or a line whose first field is not an integer. */
  function ParseSubmission(line: string): (r: SubmissionResult)
    ensures |Fields(line)| == 0 <==> IsBlank(line)
    ensures r.submission.None? <==> IsBlank(line) || Atoi(Fields(line)[0]).None?
    ensures r.submission.Some? ==> r.submission.value.index == Atoi(Fields(line)[0]).value
    ensures r.error.None? <==> Complete(Fields(line))
  {
    FieldsEmptyIffBlank(line);
    ParseWords(Fields(line))
  }

  /** A canonical notepad line for a submission with all five fields. */
  function FormatLine(s: Submission): string
    requires Printable(s.dateTime)
  {
    Join([FormatInt(s.index), FormatDate(s.dateTime), FormatClock(s.dateTime),
          StarText(s.points, s.final), FormatInt(s.bonus)], ' ')
  }

  /** The characters a printed token is made of. */
  predicate TokenChars(s: string) {
    forall i :: 0 <= i < |s| ==> IsDigit(s[i]) || s[i] == '-' || s[i] == ':' || s[i] == '*'
  }

  lemma {:induction false} TokenCharsNoSpace(s: string)
    requires TokenChars(s)
    ensures NoSpace(s)
  {
  }

  lemma {:induction false} TokenCharsConcat(a: string, b: string)
    requires TokenChars(a) && TokenChars(b)
    ensures TokenChars(a + b)
  {
    forall i | 0 <= i < |a + b|
      ensures var c := (a + b)[i]; IsDigit(c) || c == '-' || c == ':' || c == '*'
    {
      if i < |a| { assert (a + b)[i] == a[i]; } else { assert (a + b)[i] == b[i - |a|]; }
    }
  }

  lemma {:induction false} FormattedTokens(s: Submission)
    requires Printable(s.dateTime)
    ensures var ws := [FormatInt(s.index), FormatDate(s.dateTime), FormatClock(s.dateTime),
                       StarText(s.points, s.final), FormatInt(s.bonus)];
            forall i :: 0 <= i < |ws| ==> |ws[i]| > 0 && NoSpace(ws[i])
  {
    var t := s.dateTime;
    var y, mo, d := Decimal(t.year, 4), Decimal(t.month, 2), Decimal(t.day, 2);
    var h, mi := Decimal(t.hour, 2), Decimal(t.minute, 2);
    TokenCharsConcat(y, "-");
    TokenCharsConcat(y + "-", mo);
    TokenCharsConcat(y + "-" + mo, "-");
    TokenCharsConcat(y + "-" + mo + "-", d);
    TokenCharsConcat(h, ":");
    TokenCharsConcat(h + ":", mi);
    TokenCharsNoSpace(FormatDate(t));
    TokenCharsNoSpace(FormatClock(t));
    FormatIntToken(s.index);
    FormatIntToken(s.bonus);
    FormatIntToken(s.points);
    TokenCharsConcat(if s.final then "*" else "", FormatInt(s.points));
    TokenCharsNoSpace(StarText(s.points, s.final));
  }

  lemma {:induction false} FormatIntToken(n: int)
    ensures |FormatInt(n)| > 0 && TokenChars(FormatInt(n)) && NoSpace(FormatInt(n))
  {
    if n < 0 {
      TokenCharsConcat("-", Decimal(-n, 0));
    }
  }

  /** Round trip: a canonical line reads back as the submission it prints. */
  lemma {:induction false} ParseSubmissionFormatLine(s: Submission)
    requires Printable(s.dateTime)
    ensures ParseSubmission(FormatLine(s)) == SubmissionResult(Some(s), None)
  {
    var ws := [FormatInt(s.index), FormatDate(s.dateTime), FormatClock(s.dateTime),
               StarText(s.points, s.final), FormatInt(s.bonus)];
    FormattedTokens(s);
    FieldsJoin(ws);
    AtoiFormatInt(s.index);
    AtoiFormatInt(s.bonus);
    ParseDateTimeFormat(s.dateTime);
    ParseNumberWithStarText(s.points, s.final);
    assert Complete(ws);
  }

  // ---------------------------------------------------------------------
  // Parse: the notepad state machine
  // ---------------------------------------------------------------------

  /** Blank lines and lines starting with '#' are comments. */
  predicate IsSkipped(line: string) {
    |TrimSpace(line)| == 0 || HasPrefix(line, "#")
  }

  /** A "%%" line opens the data section. */
  predicate IsHeader(line: string) {
    !IsSkipped(line) && HasPrefix(line, "%%")
  }

  /** A line that is neither a comment nor a header. */
  predicate IsDataLine(line: string) {
    !IsSkipped(line) && !HasPrefix(line, "%%")
  }

  /** Dereferencing the nil submission `parseSubmission` returns for a data
      line whose first field is not an integer: a run-time panic in Go. */
  datatype ParseFailure = NilSubmission(line: string)

  /** The loop of `Parse` over the remaining `lines`, with the header flag. */
  function ParseLines(lines: seq<string>, foundHeader: bool): Result<seq<Submission>, ParseFailure> {
    if |lines| == 0 then Success([])
    else
      var line := lines[0];
      if IsSkipped(line) then ParseLines(lines[1..], foundHeader)
      else if HasPrefix(line, "%%") then ParseLines(lines[1..], true)
      else if !foundHeader then ParseLines(lines[1..], false)
      else
        var r := ParseSubmission(line);
        if r.submission.None? then Failure(NilSubmission(line))
        else
          var rest :- ParseLines(lines[1..], true);
          Success([r.submission.value] + rest)
  }

  /** `KontrFunctionalityParser.Parse(content)`; its Go error is always nil,
      the only failure is the nil dereference. */
  function Parse(content: string): Result<seq<Submission>, ParseFailure> {
    ParseLines(Split(content, '\n'), false)
  }

  /** The lines after the first header line (none when there is no header). */
  function AfterHeader(lines: seq<string>): seq<string> {
    if |lines| == 0 then []
    else if IsHeader(lines[0]) then lines[1..]
    else AfterHeader(lines[1..])
  }

  /** The data lines of `lines`, in order. */
  function DataLines(lines: seq<string>): (data: seq<string>)
    ensures forall i :: 0 <= i < |data| ==> IsDataLine(data[i])
  {
    if |lines| == 0 then []
    else if IsDataLine(lines[0]) then [lines[0]] + DataLines(lines[1..])
    else DataLines(lines[1..])
  }

  /** The submission `Parse` appends for a data line (nil: none). */
  function LineSubmission(line: string): Option<Submission> {
    ParseSubmission(line).submission
  }

  /** What `Parse` returns for a sequence of data lines: one submission per
      line in order, or the failure naming the first line whose submission
      is nil (every line before it has one). */
  ghost predicate Yields(r: Result<seq<Submission>, ParseFailure>, data: seq<string>) {
    YieldsBy(LineSubmission, r, data)
  }

  ghost predicate YieldsBy(f: string -> Option<Submission>, r: Result<seq<Submission>, ParseFailure>, data: seq<string>) {
    && (r.Success? <==> forall i :: 0 <= i < |data| ==> f(data[i]).Some?)
    && (r.Success? ==> |r.value| == |data|
                       && forall i :: 0 <= i < |data| ==> r.value[i] == f(data[i]).value)
    && (r.Failure? ==> exists j :: 0 <= j < |data| && data[j] == r.error.line && f(data[j]).None?
                                   && forall i :: 0 <= i < j ==> f(data[i]).Some?)
  }

  /** Inside the data section every data line yields exactly one submission,
      in order; comments, blank lines and further "%%" lines yield none. */
  lemma {:induction false} ParseLinesInData(lines: seq<string>)
    ensures Yields(ParseLines(lines, true), DataLines(lines))
    decreases |lines|
  {
    if |lines| > 0 {
      ParseLinesInData(lines[1..]);
      if IsDataLine(lines[0]) {
        assert DataLines(lines) == [lines[0]] + DataLines(lines[1..]);
        assert LineSubmission(lines[0]) == ParseSubmission(lines[0]).submission;
        YieldsCons(LineSubmission, lines[0], DataLines(lines[1..]), ParseLines(lines[1..], true));
      }
    }
  }

  /** The step of the data loop: one more data line in front. */
  lemma {:induction false} YieldsCons(f: string -> Option<Submission>, line: string, rest: seq<string>,
                                      r: Result<seq<Submission>, ParseFailure>)
    requires YieldsBy(f, r, rest)
    ensures YieldsBy(f, if f(line).None? then Failure(NilSubmission(line))
                        else if r.Failure? then r
                        else Success([f(line).value] + r.value),
                     [line] + rest)
  {
    var data := [line] + rest;
    if f(line).Some? && r.Success? {
      forall i | 0 <= i < |data| ensures f(data[i]).Some? {
        if i > 0 { assert data[i] == rest[i - 1]; }
      }
    } else if f(line).Some? {
      var j :| 0 <= j < |rest| && rest[j] == r.error.line && f(rest[j]).None?
               && forall i :: 0 <= i < j ==> f(rest[i]).Some?;
      assert data[j + 1] == rest[j];
      forall i | 0 <= i < j + 1 ensures f(data[i]).Some? {
        if i > 0 { assert data[i] == rest[i - 1]; }
      }
    } else {
      assert data[0] == line;
    }
  }

  /** Lines before the first header are never handed to the line parser. */
  lemma {:induction false} ParseLinesBeforeHeader(lines: seq<string>)
    ensures ParseLines(lines, false) == ParseLines(AfterHeader(lines), true)
    decreases |lines|
  {
    if |lines| > 0 && !IsHeader(lines[0]) {
      ParseLinesBeforeHeader(lines[1..]);
    }
  }

  /** The state machine of `Parse`: it returns one submission per data line
      after the first "%%" line, in source order, or fails on the first of
      those lines whose submission is nil. */
  lemma ParseYieldsDataLines(content: string)
    ensures Yields(Parse(content), DataLines(AfterHeader(Split(content, '\n'))))
  {
    var lines := Split(content, '\n');
    ParseLinesBeforeHeader(lines);
    ParseLinesInData(AfterHeader(lines));
  }

  /** The submission of a data line is nil exactly when its first field is
      not an integer. */
  lemma DataLineNilSubmission(line: string)
    requires IsDataLine(line)
    ensures |Fields(line)| > 0
    ensures ParseSubmission(line).submission.None? <==> Atoi(Fields(line)[0]).None?
  {
    TrimSpaceEmptyIffBlank(line);
    FieldsEmptyIffBlank(line);
  }

  lemma {:induction false} TestDateTime()
    ensures ParseDateTime("2020-02-18", "08:45") == Success(DateTime(2020, 2, 18, 8, 45))
  {
    var t := DateTime(2020, 2, 18, 8, 45);
    DateText();
    ClockText();
    ParseDateTimeFormat(t);
  }

  // The literal texts the unit tests use, one small fact at a time.

  lemma DigitText(d: nat)
    requires d < 10
    ensures Decimal(d, 0) == [DigitChar(d)] && Decimal(d, 1) == [DigitChar(d)]
  {
  }

  lemma TwoDigitText(n: nat)
    requires n < 100
    ensures Decimal(n, 2) == [DigitChar(n / 10), DigitChar(n % 10)]
  {
    DigitText(n / 10);
  }

  lemma YearText()
    ensures Decimal(2020, 4) == "2020"
  {
    TwoDigitText(20);
    assert Decimal(202, 3) == Decimal(20, 2) + [DigitChar(2)];
    assert Decimal(2020, 4) == Decimal(202, 3) + [DigitChar(0)];
  }

  lemma DateText()
    ensures FormatDate(DateTime(2020, 2, 18, 8, 45)) == "2020-02-18"
  {
    YearText();
    TwoDigitText(2);
    TwoDigitText(18);
    assert DigitChar(0) == '0' && DigitChar(2) == '2' && DigitChar(1) == '1' && DigitChar(8) == '8';
  }

  lemma ClockText()
    ensures FormatClock(DateTime(2020, 2, 18, 8, 45)) == "08:45"
  {
    TwoDigitText(8);
    TwoDigitText(45);
    assert DigitChar(0) == '0' && DigitChar(8) == '8' && DigitChar(4) == '4' && DigitChar(5) == '5';
  }

  lemma OneText()
    ensures FormatInt(1) == "1" && StarText(1, false) == "1" && StarText(1, true) == "*1"
  {
    DigitText(1);
    assert DigitChar(1) == '1';
  }

  lemma ThreeText()
    ensures FormatInt(3) == "3"
  {
    DigitText(3);
    assert DigitChar(3) == '3';
  }

  lemma TenText()
    ensures StarText(10, false) == "10"
  {
    DigitText(1);
    assert DigitChar(1) == '1' && DigitChar(0) == '0';
    assert Decimal(10, 0) == Decimal(1, 0) + [DigitChar(0)];
  }

  lemma MinusTexts()
    ensures StarText(-1, false) == "-1" && StarText(-10, true) == "*-10"
  {
    DigitText(1);
    assert DigitChar(1) == '1' && DigitChar(0) == '0';
    assert Decimal(10, 0) == Decimal(1, 0) + [DigitChar(0)];
  }

  /** The field layout of the unit-test lines. */
  lemma {:induction false} TestLineFields(line: string, index: string, points: string)
    requires |index| > 0 && NoSpace(index) && |points| > 0 && NoSpace(points)
    requires line == " " + index + "  2020-02-18  08:45    " + points + " "
    ensures Fields(line) == [index, "2020-02-18", "08:45", points]
  {
    var gaps := [" ", "  ", "  ", "    "];
    var words := [index, "2020-02-18", "08:45", points];
    TestLineShape(line, index, points);
    assert forall i :: 0 <= i < |gaps| ==> IsBlank(gaps[i]) && |gaps[i]| > 0;
    assert NoSpace("2020-02-18") && NoSpace("08:45");
    FieldsPadded(gaps, words, " ");
  }

  lemma {:induction false} TestLineShape(line: string, index: string, points: string)
    requires line == " " + index + "  2020-02-18  08:45    " + points + " "
    ensures line == Padded([" ", "  ", "  ", "    "], [index, "2020-02-18", "08:45", points], " ")
  {
    var gaps := [" ", "  ", "  ", "    "];
    var words := [index, "2020-02-18", "08:45", points];
    assert Padded(gaps[4..], words[4..], " ") == " ";
    assert Padded(gaps[3..], words[3..], " ") == "    " + points + " ";
    assert Padded(gaps[2..], words[2..], " ") == "  " + "08:45" + ("    " + points + " ");
    assert Padded(gaps[1..], words[1..], " ") == "  " + "2020-02-18" + ("  " + "08:45" + ("    " + points + " "));
  }

  lemma {:induction false} TestWords(index: int, points: int, final: bool)
    requires 0 <= index < 10 && 0 <= points
    ensures ParseWords([FormatInt(index), "2020-02-18", "08:45", StarText(points, final)])
         == SubmissionResult(Some(Submission(DateTime(2020, 2, 18, 8, 45), index, points, final, 0)), None)
  {
    TestDateTime();
    ParseNumberWithStarText(points, final);
    AtoiFormatInt(index);
    var ws := [FormatInt(index), "2020-02-18", "08:45", StarText(points, final)];
    assert Complete(ws);
  }

  lemma {:induction false} TestLine(line: string, index: int, points: int, final: bool)
    requires 0 <= index < 10 && 0 <= points
    requires line == " " + FormatInt(index) + "  2020-02-18  08:45    " + StarText(points, final) + " "
    ensures ParseSubmission(line)
         == SubmissionResult(Some(Submission(DateTime(2020, 2, 18, 8, 45), index, points, final, 0)), None)
  {
    FormatIntToken(index);
    FormatIntToken(points);
    TokenCharsConcat(if final then "*" else "", FormatInt(points));
    TokenCharsNoSpace(StarText(points, final));
    TestLineFields(line, FormatInt(index), StarText(points, final));
    TestWords(index, points, final);
  }

  lemma {:induction false} FirstTestLineShape(line: string)
    requires line == " 1  2020-02-18  08:45    *1 "
    ensures line == " " + FormatInt(1) + "  2020-02-18  08:45    " + StarText(1, true) + " "
  {
    OneText();
  }

  lemma {:induction false} SecondTestLineShape(line: string)
    requires line == " 3  2020-02-18  08:45    10 "
    ensures line == " " + FormatInt(3) + "  2020-02-18  08:45    " + StarText(10, false) + " "
  {
    ThreeText();
    TenText();
  }

  /** The four-field lines of the parser's unit tests: a starred points
      field sets the final flag, a plain one does not. */
  lemma {:induction false} ParseSubmissionExamples(line: string)
    requires line == " 1  2020-02-18  08:45    *1 " || line == " 3  2020-02-18  08:45    10 "
    ensures line == " 1  2020-02-18  08:45    *1 " ==>
              ParseSubmission(line) == SubmissionResult(Some(Submission(DateTime(2020, 2, 18, 8, 45), 1, 1, true, 0)), None)
    ensures line == " 3  2020-02-18  08:45    10 " ==>
              ParseSubmission(line) == SubmissionResult(Some(Submission(DateTime(2020, 2, 18, 8, 45), 3, 10, false, 0)), None)
  {
    if line == " 1  2020-02-18  08:45    *1 " {
      FirstTestLineShape(line);
      TestLine(line, 1, 1, true);
    } else {
      SecondTestLineShape(line);
      TestLine(line, 3, 10, false);
    }
  }

  // ---------------------------------------------------------------------
  // Parse with a nil submission skipped
  // ---------------------------------------------------------------------

  /** The lines of a header followed by one more line. */
  lemma {:induction false} HeaderThenLine(word: string)
    requires '\n' !in word
    ensures Split("%%\n" + word, '\n') == ["%%", word]
  {
    var lines := ["%%", word];
    assert Join(lines, '\n') == "%%\n" + word by {
      assert Join(lines, '\n') == "%%" + ['\n'] + Join([word], '\n');
    }
    assert '\n' !in "%%";
    SplitJoin(lines, '\n');
  }

  /** A line that starts with "%%" is a header. */
  lemma {:induction false} PercentLineIsHeader(line: string)
    requires |line| >= 2 && line[0] == '%' && line[1] == '%'
    ensures IsHeader(line)
  {
    TrimSpaceEmptyIffBlank(line);
    assert !IsSpace(line[0]);
  }

  /** A data line made of one field that is not an integer has a nil
      submission. */
  lemma {:induction false} NonIntegerWordNilSubmission(line: string)
    requires |line| > 0 && NoSpace(line) && Atoi(line).None?
    requires !HasPrefix(line, "#") && !HasPrefix(line, "%%")
    ensures IsDataLine(line) && LineSubmission(line).None?
  {
    NoSpaceNotSkipped(line);
    FieldsSingle(line);
    DataLineNilSubmission(line);
  }

  lemma {:induction false} NoSpaceNotSkipped(line: string)
    requires |line| > 0 && NoSpace(line) && !HasPrefix(line, "#")
    ensures !IsSkipped(line)
  {
    TrimSpaceEmptyIffBlank(line);
    assert !IsSpace(line[0]);
  }

  lemma {:induction false} ParseLinesHeaderStep(lines: seq<string>, foundHeader: bool)
    requires |lines| > 0 && IsHeader(lines[0])
    ensures ParseLines(lines, foundHeader) == ParseLines(lines[1..], true)
  {
  }

  lemma {:induction false} ParseLinesNilStep(lines: seq<string>)
    requires |lines| > 0 && IsDataLine(lines[0]) && LineSubmission(lines[0]).None?
    ensures ParseLines(lines, true) == Failure(NilSubmission(lines[0]))
  {
  }

  /** A notepad whose only data line is one field that is not an integer:
      `Parse` dereferences the nil submission of that line. */
  lemma {:induction false} ParseNilSubmission(word: string)
    requires |word| > 0 && NoSpace(word) && '\n' !in word && Atoi(word).None?
    requires !HasPrefix(word, "#") && !HasPrefix(word, "%%")
    ensures Parse("%%\n" + word) == Failure(NilSubmission(word))
  {
    HeaderThenLine(word);
    var lines := Split("%%\n" + word, '\n');
    PercentLineIsHeader(lines[0]);
    NonIntegerWordNilSubmission(lines[1]);
    ParseLinesHeaderStep(lines, false);
    ParseLinesNilStep(lines[1..]);
  }

  /** The smallest such notepad: "%%" and a line "x". */
  lemma ParseNilSubmissionExample()
    ensures Parse("%%\nx") == Failure(NilSubmission("x"))
  {
    var x := "x";
    assert !IsSpace(x[0]) && !IsDigit(x[0]);
    assert NoSpace(x) && Atoi(x).None?;
    ParseNilSubmission(x);
    assert "%%\n" + x == "%%\nx";
  }

  /** The submissions `f` gives the lines of `data`, in order, leaving out
      the nil ones. */
  function PresentBy(f: string -> Option<Submission>, data: seq<string>): (subs: seq<Submission>)
    ensures |subs| <= |data|
  {
    if |data| == 0 then []
    else
      var rest := PresentBy(f, data[1..]);
      match f(data[0])
      case Some(sub) => [sub] + rest
      case None => rest
  }

  /** The submissions of `data` in order, leaving out the nil ones. */
  function PresentSubmissions(data: seq<string>): seq<Submission> {
    PresentBy(LineSubmission, data)
  }

  /** The loop of `Parse` as evidently intended: a line whose submission is
      nil is logged and skipped, like every other line error. */
  function ParseLinesRecovering(lines: seq<string>, foundHeader: bool): seq<Submission> {
    if |lines| == 0 then []
    else
      var line := lines[0];
      if IsSkipped(line) then ParseLinesRecovering(lines[1..], foundHeader)
      else if HasPrefix(line, "%%") then ParseLinesRecovering(lines[1..], true)
      else if !foundHeader then ParseLinesRecovering(lines[1..], false)
      else
        var r := ParseSubmission(line);
        var rest := ParseLinesRecovering(lines[1..], true);
        if r.submission.None? then rest else [r.submission.value] + rest
  }

  /** `Parse` with nil submissions skipped instead of dereferenced. */
  function ParseRecovering(content: string): seq<Submission> {
    ParseLinesRecovering(Split(content, '\n'), false)
  }

  lemma {:induction false} ParseLinesRecoveringInData(lines: seq<string>)
    ensures ParseLinesRecovering(lines, true) == PresentSubmissions(DataLines(lines))
    decreases |lines|
  {
    if |lines| > 0 {
      ParseLinesRecoveringInData(lines[1..]);
      if IsDataLine(lines[0]) {
        var data := DataLines(lines);
        assert data == [lines[0]] + DataLines(lines[1..]);
        assert data[1..] == DataLines(lines[1..]);
        assert LineSubmission(lines[0]) == ParseSubmission(lines[0]).submission;
      }
    }
  }

  lemma {:induction false} ParseLinesRecoveringBeforeHeader(lines: seq<string>)
    ensures ParseLinesRecovering(lines, false) == ParseLinesRecovering(AfterHeader(lines), true)
    decreases |lines|
  {
    if |lines| > 0 && !IsHeader(lines[0]) {
      ParseLinesRecoveringBeforeHeader(lines[1..]);
    }
  }

  /** The corrected parser never fails: it returns the submissions of the
      data lines after the first "%%" line, in order, skipping nil ones. */
  lemma ParseRecoveringDataLines(content: string)
    ensures ParseRecovering(content) == PresentSubmissions(DataLines(AfterHeader(Split(content, '\n'))))
  {
    var lines := Split(content, '\n');
    ParseLinesRecoveringBeforeHeader(lines);
    ParseLinesRecoveringInData(AfterHeader(lines));
  }

  /** When no submission is nil, skipping nil submissions changes nothing. */
  lemma {:induction false} PresentByAll(f: string -> Option<Submission>, data: seq<string>)
    requires forall i :: 0 <= i < |data| ==> f(data[i]).Some?
    ensures |PresentBy(f, data)| == |data|
    ensures forall i :: 0 <= i < |data| ==> PresentBy(f, data)[i] == f(data[i]).value
    decreases |data|
  {
    if |data| > 0 {
      assert f(data[0]).Some?;
      forall i | 0 <= i < |data[1..]| ensures f(data[1..][i]).Some? {
        assert data[1..][i] == data[i + 1];
      }
      PresentByAll(f, data[1..]);
      var subs := PresentBy(f, data);
      assert subs == [f(data[0]).value] + PresentBy(f, data[1..]);
      forall i | 0 <= i < |data| ensures subs[i] == f(data[i]).value {
        if i > 0 { assert data[1..][i - 1] == data[i]; }
      }
    }
  }

  /** The corrected parser agrees with `Parse` wherever `Parse` succeeds. */
  lemma ParseRecoveringAgrees(content: string)
    requires Parse(content).Success?
    ensures ParseRecovering(content) == Parse(content).value
  {
    var data := DataLines(AfterHeader(Split(content, '\n')));
    ParseYieldsDataLines(content);
    ParseRecoveringDataLines(content);
    PresentByAll(LineSubmission, data);
  }

  lemma {:induction false} ParseLinesRecoveringHeaderStep(lines: seq<string>, foundHeader: bool)
    requires |lines| > 0 && IsHeader(lines[0])
    ensures ParseLinesRecovering(lines, foundHeader) == ParseLinesRecovering(lines[1..], true)
  {
  }

  lemma {:induction false} ParseLinesRecoveringNilStep(lines: seq<string>)
    requires |lines| > 0 && IsDataLine(lines[0]) && LineSubmission(lines[0]).None?
    ensures ParseLinesRecovering(lines, true) == ParseLinesRecovering(lines[1..], true)
  {
  }

  /** On the notepads that make `Parse` fail above, the corrected parser
      returns no submissions. */
  lemma {:induction false} ParseRecoveringNilSubmission(word: string)
    requires |word| > 0 && NoSpace(word) && '\n' !in word && Atoi(word).None?
    requires !HasPrefix(word, "#") && !HasPrefix(word, "%%")
    ensures ParseRecovering("%%\n" + word) == []
  {
    HeaderThenLine(word);
    var lines := Split("%%\n" + word, '\n');
    PercentLineIsHeader(lines[0]);
    NonIntegerWordNilSubmission(lines[1]);
    ParseLinesRecoveringHeaderStep(lines, false);
    ParseLinesRecoveringNilStep(lines[1..]);
  }
}
