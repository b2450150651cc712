/** `core/csv.go`: flattening the students' submissions into CSV rows. */
module Csv {
  import opened Stats
  import opened Text

  /** `CSVStatistic`: one row of the statistics file. */
  datatype CsvStatistic = CsvStatistic(studentId: string, dateTime: string, index: int, points: int,
                                       final: bool, bonus: int)

  // ---------------------------------------------------------------------
  // uuid.UUID.String()
  // ---------------------------------------------------------------------

  const HexDigits := "0123456789abcdef"

  /** The two lower-case hexadecimal digits of a byte. */
  function HexByte(b: byte): (r: string)
    ensures |r| == 2 && r[0] in HexDigits && r[1] in HexDigits
  {
    [HexDigits[b as int / 16], HexDigits[b as int % 16]]
  }

  /** The bytes of `bs` in hexadecimal, two digits each. */
  function Hex(bs: seq<byte>): (r: string)
    ensures |r| == 2 * |bs|
    ensures forall i :: 0 <= i < |r| ==> r[i] in HexDigits
  {
    if |bs| == 0 then [] else HexByte(bs[0]) + Hex(bs[1..])
  }

  /** `UUID.String()`: the canonical form xxxxxxxx-xxxx-xxxx-xxxx-xxxxxxxxxxxx. */
  function UuidString(u: Uuid): (r: string)
    ensures |r| == 36
    ensures r[8] == '-' && r[13] == '-' && r[18] == '-' && r[23] == '-'
    ensures forall i :: 0 <= i < 36 && i != 8 && i != 13 && i != 18 && i != 23 ==> r[i] in HexDigits
  {
    Hex(u[0..4]) + ("-" + (Hex(u[4..6]) + ("-" + (Hex(u[6..8]) + ("-" + (Hex(u[8..10]) + ("-" + Hex(u[10..16]))))))))
  }

  /** A byte's two hexadecimal digits determine it. */
  lemma HexByteInjective(a: byte, b: byte)
    ensures HexByte(a) == HexByte(b) <==> a == b
  {
    if HexByte(a) == HexByte(b) {
      HexDigitInjective(a as int / 16, b as int / 16);
      HexDigitInjective(a as int % 16, b as int % 16);
      assert a as int == 16 * (a as int / 16) + a as int % 16;
      assert b as int == 16 * (b as int / 16) + b as int % 16;
    }
  }

  lemma HexDigitInjective(i: int, j: int)
    requires 0 <= i < 16 && 0 <= j < 16
    ensures HexDigits[i] == HexDigits[j] <==> i == j
  {
  }

  /** Equal-length byte strings with equal hexadecimal forms are equal. */
  lemma {:induction false} HexInjective(a: seq<byte>, b: seq<byte>)
    requires |a| == |b|
    ensures Hex(a) == Hex(b) <==> a == b
    decreases |a|
  {
    if |a| > 0 && Hex(a) == Hex(b) {
      assert Hex(a)[..2] == HexByte(a[0]) && Hex(b)[..2] == HexByte(b[0]);
      assert Hex(a)[2..] == Hex(a[1..]) && Hex(b)[2..] == Hex(b[1..]);
      HexByteInjective(a[0], b[0]);
      HexInjective(a[1..], b[1..]);
      assert a == [a[0]] + a[1..] && b == [b[0]] + b[1..];
    }
  }

  /** Distinct student ids print as distinct `StudentID` strings. */
  lemma {:induction false} UuidStringInjective(u: Uuid, v: Uuid)
    ensures UuidString(u) == UuidString(v) <==> u == v
  {
    if UuidString(u) == UuidString(v) {
      UuidStringGroups(u, v);
      SameGroups(u, v);
    }
  }

  /** Byte strings of 16 that agree on every group are equal. */
  lemma SameGroups(u: seq<byte>, v: seq<byte>)
    requires |u| == 16 && |v| == 16
    requires u[0..4] == v[0..4] && u[4..6] == v[4..6] && u[6..8] == v[6..8]
             && u[8..10] == v[8..10] && u[10..16] == v[10..16]
    ensures u == v
  {
    assert u == u[0..4] + u[4..6] + u[6..8] + u[8..10] + u[10..16];
    assert v == v[0..4] + v[4..6] + v[6..8] + v[8..10] + v[10..16];
  }

  /** Equal canonical forms have equal groups of hexadecimal digits. */
  lemma {:induction false} UuidStringGroups(u: Uuid, v: Uuid)
    requires UuidString(u) == UuidString(v)
    ensures u[0..4] == v[0..4] && u[4..6] == v[4..6] && u[6..8] == v[6..8]
            && u[8..10] == v[8..10] && u[10..16] == v[10..16]
  {
    var t4u, t4v := Hex(u[10..16]), Hex(v[10..16]);
    var t3u, t3v := Hex(u[8..10]) + ("-" + t4u), Hex(v[8..10]) + ("-" + t4v);
    var t2u, t2v := Hex(u[6..8]) + ("-" + t3u), Hex(v[6..8]) + ("-" + t3v);
    var t1u, t1v := Hex(u[4..6]) + ("-" + t2u), Hex(v[4..6]) + ("-" + t2v);
    DashEqual(Hex(u[0..4]), Hex(v[0..4]), t1u, t1v);
    DashEqual(Hex(u[4..6]), Hex(v[4..6]), t2u, t2v);
    DashEqual(Hex(u[6..8]), Hex(v[6..8]), t3u, t3v);
    DashEqual(Hex(u[8..10]), Hex(v[8..10]), t4u, t4v);
    HexInjective(u[0..4], v[0..4]);
    HexInjective(u[4..6], v[4..6]);
    HexInjective(u[6..8], v[6..8]);
    HexInjective(u[8..10], v[8..10]);
    HexInjective(u[10..16], v[10..16]);
  }

  /** Two dash-joined strings with equal-length heads split alike. */
  lemma DashEqual(p: string, q: string, x: string, y: string)
    requires |p| == |q| && p + ("-" + x) == q + ("-" + y)
    ensures p == q && x == y
  {
    ConcatEqual(p, q, "-" + x, "-" + y);
    ConcatEqual("-", "-", x, y);
  }

  // ---------------------------------------------------------------------
  // ConvertSubmissionsToCSVStatistics
  // ---------------------------------------------------------------------

  /** The row of one submission of the student `id`; the `DateTime` column
      is never filled in. */
  function Row(id: Uuid, s: Submission): CsvStatistic {
    CsvStatistic(UuidString(id), "", s.index, s.points, s.final, s.bonus)
  }

  /** The rows of one student, in submission order. */
  function StudentRows(student: StudentInfo): (rows: seq<CsvStatistic>)
    ensures |rows| == |student.submissions|
    ensures forall j :: 0 <= j < |rows| ==> rows[j] == Row(student.id, student.submissions[j])
  {
    seq(|student.submissions|, j requires 0 <= j < |student.submissions| => Row(student.id, student.submissions[j]))
  }

  /** The number of submissions of all students together. */
  function TotalSubmissions(students: seq<StudentInfo>): nat {
    if |students| == 0 then 0
    else |students[0].submissions| + TotalSubmissions(students[1..])
  }

  /** `ConvertSubmissionsToCSVStatistics`: the rows of the students in
      order, each student's submissions in order. */
  function ConvertSubmissionsToCsvStatistics(students: seq<StudentInfo>): (rows: seq<CsvStatistic>)
    ensures |rows| == TotalSubmissions(students)
  {
    if |students| == 0 then []
    else StudentRows(students[0]) + ConvertSubmissionsToCsvStatistics(students[1..])
  }

  /** Every row has the empty `DateTime` and a canonical 36-character
      `StudentID`. */
  lemma {:induction false} ConvertRowsShape(students: seq<StudentInfo>)
    ensures forall i :: 0 <= i < |ConvertSubmissionsToCsvStatistics(students)| ==>
              ConvertSubmissionsToCsvStatistics(students)[i].dateTime == ""
              && |ConvertSubmissionsToCsvStatistics(students)[i].studentId| == 36
    decreases |students|
  {
    if |students| > 0 {
      ConvertRowsShape(students[1..]);
      var rows := ConvertSubmissionsToCsvStatistics(students);
      var head, tail := StudentRows(students[0]), ConvertSubmissionsToCsvStatistics(students[1..]);
      assert rows == head + tail;
      forall i | 0 <= i < |rows| ensures rows[i].dateTime == "" && |rows[i].studentId| == 36 {
        if i < |head| {
          assert rows[i] == head[i] == Row(students[0].id, students[0].submissions[i]);
        } else {
          assert rows[i] == tail[i - |head|];
        }
      }
    }
  }

  /** Converting two lists of students one after the other is converting
      their concatenation. */
  lemma {:induction false} ConvertAppend(a: seq<StudentInfo>, b: seq<StudentInfo>)
    ensures ConvertSubmissionsToCsvStatistics(a + b)
         == ConvertSubmissionsToCsvStatistics(a) + ConvertSubmissionsToCsvStatistics(b)
    decreases |a|
  {
    if |a| == 0 {
      assert a + b == b;
    } else {
      ConvertAppend(a[1..], b);
      assert (a + b)[1..] == a[1..] + b;
      assert (a + b)[0] == a[0];
      ConcatAssoc(StudentRows(a[0]), ConvertSubmissionsToCsvStatistics(a[1..]), ConvertSubmissionsToCsvStatistics(b));
    }
  }

  /** The submissions of two lists of students add up. */
  lemma {:induction false} TotalAppend(a: seq<StudentInfo>, b: seq<StudentInfo>)
    ensures TotalSubmissions(a + b) == TotalSubmissions(a) + TotalSubmissions(b)
    decreases |a|
  {
    if |a| == 0 {
      assert a + b == b;
    } else {
      TotalAppend(a[1..], b);
      assert (a + b)[1..] == a[1..] + b;
      assert (a + b)[0] == a[0];
    }
  }

  /** Submission `j` of student `k` becomes the row just after all rows of
      the students before `k`, and that row carries its fields. */
  lemma ConvertRow(students: seq<StudentInfo>, k: nat, j: nat)
    requires k < |students| && j < |students[k].submissions|
    ensures var rows := ConvertSubmissionsToCsvStatistics(students);
            var at := TotalSubmissions(students[..k]) + j;
            at < |rows| && rows[at] == Row(students[k].id, students[k].submissions[j])
  {
    var before, after := students[..k], students[k..];
    assert students == before + after;
    ConvertAppend(before, after);
    ConvertCons(after);
    assert after[0] == students[k];
    var head, tail := StudentRows(after[0]), ConvertSubmissionsToCsvStatistics(after[1..]);
    IndexBefore(head, tail, j);
    IndexAfter(ConvertSubmissionsToCsvStatistics(before), head + tail, j);
  }

  lemma ConvertCons(students: seq<StudentInfo>)
    requires |students| > 0
    ensures ConvertSubmissionsToCsvStatistics(students)
         == StudentRows(students[0]) + ConvertSubmissionsToCsvStatistics(students[1..])
  {
  }

  lemma TotalCons(students: seq<StudentInfo>)
    requires |students| > 0
    ensures TotalSubmissions(students) == |students[0].submissions| + TotalSubmissions(students[1..])
  {
  }

  lemma IndexBefore<T>(p: seq<T>, q: seq<T>, j: nat)
    requires j < |p|
    ensures (p + q)[j] == p[j]
  {
  }

  lemma IndexAfter<T>(p: seq<T>, q: seq<T>, j: nat)
    requires j < |q|
    ensures |p| + j < |p + q| && (p + q)[|p| + j] == q[j]
  {
  }
}
