/** The records of `core/stats.go`: one graded submission and one student's
    ordered list of submissions. */
module Stats {

  /** A `time.Time` at minute resolution, as the notepad layout carries it. */
  datatype DateTime = DateTime(year: int, month: int, day: int, hour: int, minute: int)

  /** Go's zero `time.Time`: 0001-01-01 00:00 UTC. */
  const ZeroTime := DateTime(1, 1, 1, 0, 0)

  /** `Points` and `Bonus` are `float64` in the Go record, but the only
      producer of them is `strconv.Atoi`, so they are integers here. */
  datatype Submission = Submission(dateTime: DateTime, index: int, points: int, final: bool, bonus: int)

  /** `core.Submission{Bonus: 0, Final: false}`: every field at its zero value. */
  const EmptySubmission := Submission(ZeroTime, 0, 0, false, 0)

  type byte = bv8

  /** `uuid.UUID`, a 16-byte array. */
  type Uuid = b: seq<byte> | |b| == 16
    witness [0, 0, 0, 0, 0, 0, 0, 0, 0, 0, 0, 0, 0, 0, 0, 0]

  datatype StudentInfo = StudentInfo(id: Uuid, submissions: seq<Submission>)

  /** `NewStudentSubmissions`: a student with no submissions yet. */
  function NewStudentSubmissions(uid: Uuid): (r: StudentInfo)
    ensures r.id == uid && |r.submissions| == 0
  {
    StudentInfo(uid, [])
  }
}
