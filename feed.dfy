/**
 * The enrolment feed parser of `src/lib/course.ts` (`getStudentCourseEnrollmentMap`):
 * the reply text holds one line per student, `itsc,COURSE-SECTION,...`; every
 * course-section field after the ITSC id becomes one enrolment record, with the
 * course and section upper-cased. A non-zero status is an error.
 */
module Feed {
  import opened Results
  import opened Strings

  /** One `{ itsc, course, section }` record; the section is absent when the field has no "-". */
  datatype FeedRecord = FeedRecord(itsc: string, course: string, section: Option<string>)

  /** The parser's result: the records and `parseInt(termid, 10)` (`None` for NaN). */
  datatype Enrollments = Enrollments(records: seq<FeedRecord>, semester: Option<nat>)

  /** `lines.filter(line => line.length > 0)`. */
  function NonEmpty(lines: seq<string>): (r: seq<string>)
    ensures forall i :: 0 <= i < |r| ==> |r[i]| > 0
  {
    if lines == [] then []
    else
      var last := lines[|lines| - 1];
      NonEmpty(lines[..|lines| - 1]) + (if |last| > 0 then [last] else [])
  }

  /** One course-section field: `field.split('-').map(toUpperCase)`, destructured into course and section. */
  function FieldRecord(itsc: string, field: string): (r: FeedRecord)
    ensures r.itsc == itsc
    ensures r.course == ToUpper(Split(field, "-")[0])
    ensures r.section.Some? <==> Contains(field, "-")
    ensures r.section.Some? ==> r.section.value == ToUpper(Split(field, "-")[1])
  {
    var parts := Split(field, "-");
    FeedRecord(itsc, ToUpper(parts[0]), if |parts| >= 2 then Some(ToUpper(parts[1])) else None)
  }

  /** The records of the fields `fields`, all for the student `itsc`. */
  function FieldRecords(itsc: string, fields: seq<string>): (r: seq<FeedRecord>)
    ensures |r| == |fields|
    ensures forall i :: 0 <= i < |r| ==> r[i] == FieldRecord(itsc, fields[i])
  {
    if fields == [] then []
    else FieldRecords(itsc, fields[..|fields| - 1]) + [FieldRecord(itsc, fields[|fields| - 1])]
  }

  /** `const [itsc, ...courseSectionMaps] = row.split(',')`: one record per field after the first. */
  function RowRecords(row: string): seq<FeedRecord>
  {
    var fields := Split(row, ",");
    FieldRecords(fields[0], fields[1..])
  }

  /** The records of all rows, row by row. */
  function Records(rows: seq<string>): seq<FeedRecord>
  {
    if rows == [] then []
    else Records(rows[..|rows| - 1]) + RowRecords(rows[|rows| - 1])
  }

  /** What the parser returns for a reply with `status`, `data` and `termid`. */
  function ParseFeed(status: int, data: string, termid: string): Result<Enrollments>
  {
    if status == 0 then Ok(Enrollments(Records(NonEmpty(Split(data, "\n"))), ParseInt(termid)))
    else Err("error fetching cssystem api")
  }

  /** The parser: filters the lines, then pushes one record per field of each row. */
  method ParseEnrollments(status: int, data: string, termid: string) returns (r: Result<Enrollments>)
    ensures r == ParseFeed(status, data, termid)
  {
    if status != 0 {
      return Err("error fetching cssystem api");
    }
    var rows := FilterNonEmpty(Split(data, "\n"));
    var enrollments: seq<FeedRecord> := [];
    for i := 0 to |rows|
      invariant enrollments == Records(rows[..i])
    {
      assert rows[..i + 1][..i] == rows[..i];
      enrollments := PushRowRecords(enrollments, rows[i]);
    }
    assert rows[..|rows|] == rows;
    r := Ok(Enrollments(enrollments, ParseInt(termid)));
  }

  /** `data.split('\n').filter(line => line.length > 0)`, element by element. */
  method FilterNonEmpty(lines: seq<string>) returns (rows: seq<string>)
    ensures rows == NonEmpty(lines)
  {
    rows := [];
    for i := 0 to |lines|
      invariant rows == NonEmpty(lines[..i])
    {
      assert lines[..i + 1][..i] == lines[..i];
      if |lines[i]| > 0 {
        rows := rows + [lines[i]];
      }
    }
    assert lines[..|lines|] == lines;
  }

  /** The body of `records.forEach`: pushes the records of one row. */
  method PushRowRecords(enrollments: seq<FeedRecord>, row: string) returns (pushed: seq<FeedRecord>)
    ensures pushed == enrollments + RowRecords(row)
  {
    pushed := enrollments;
    var fields := Split(row, ",");
    var itsc := fields[0];
    for j := 1 to |fields|
      invariant pushed == enrollments + FieldRecords(itsc, fields[1..j])
    {
      assert fields[1..j + 1][..j - 1] == fields[1..j];
      var parts := Split(fields[j], "-");
      var course := ToUpper(parts[0]);
      var section := if |parts| >= 2 then Some(ToUpper(parts[1])) else None;
      pushed := pushed + [FeedRecord(itsc, course, section)];
    }
    assert fields[1..|fields|] == fields[1..];
  }

  lemma {:induction false} RecordsAppend(a: seq<string>, b: seq<string>)
    ensures Records(a + b) == Records(a) + Records(b)
    decreases |b|
  {
    if b != [] {
      var n := |b| - 1;
      assert (a + b)[..|a + b| - 1] == a + b[..n];
      RecordsAppend(a, b[..n]);
    } else {
      assert a + b == a;
    }
  }

  /**
   * Every record comes from one non-empty line and one field after the first:
   * its ITSC id is that line's first field unchanged, its course and section
   * the field's pieces upper-cased.
   */
  lemma {:induction false} RecordsOrigin(rows: seq<string>, rec: FeedRecord)
    requires rec in Records(rows)
    ensures exists row, j :: row in rows && 1 <= j < |Split(row, ",")| && rec == FieldRecord(Split(row, ",")[0], Split(row, ",")[j])
  {
    var n := |rows| - 1;
    var fields := Split(rows[n], ",");
    if rec in Records(rows[..n]) {
      RecordsOrigin(rows[..n], rec);
      var row, j :| row in rows[..n] && 1 <= j < |Split(row, ",")| && rec == FieldRecord(Split(row, ",")[0], Split(row, ",")[j]);
      assert row in rows;
    } else {
      assert rec in RowRecords(rows[n]);
      var i :| 0 <= i < |fields| - 1 && rec == FieldRecords(fields[0], fields[1..])[i];
      assert rec == FieldRecord(fields[0], fields[i + 1]);
    }
  }

  /** Parsed courses and sections carry no lower-case letter. */
  lemma ParsedUpperCase(status: int, data: string, termid: string)
    requires ParseFeed(status, data, termid).Ok?
    ensures forall rec :: rec in ParseFeed(status, data, termid).value.records ==>
      (forall i :: 0 <= i < |rec.course| ==> !IsLower(rec.course[i])) &&
      (rec.section.Some? ==> forall i :: 0 <= i < |rec.section.value| ==> !IsLower(rec.section.value[i]))
  {
    forall rec | rec in ParseFeed(status, data, termid).value.records
      ensures forall i :: 0 <= i < |rec.course| ==> !IsLower(rec.course[i])
      ensures rec.section.Some? ==> forall i :: 0 <= i < |rec.section.value| ==> !IsLower(rec.section.value[i])
    {
      RecordsOrigin(NonEmpty(Split(data, "\n")), rec);
    }
  }

  // ---------------------------------------------------------------------------
  // The feed format, rendered from records, parses back to them
  // ---------------------------------------------------------------------------

  /** One course-section pair of a student's line. */
  datatype CourseSection = CourseSection(course: string, section: string)

  /** One feed line: a student and the sections they are enrolled in. */
  datatype FeedRow = FeedRow(itsc: string, entries: seq<CourseSection>)

  function RenderEntry(e: CourseSection): string
  {
    e.course + "-" + e.section
  }

  function RenderEntries(es: seq<CourseSection>): (r: seq<string>)
    ensures |r| == |es|
    ensures forall i :: 0 <= i < |es| ==> r[i] == RenderEntry(es[i])
  {
    if es == [] then [] else RenderEntries(es[..|es| - 1]) + [RenderEntry(es[|es| - 1])]
  }

  function RenderRow(row: FeedRow): string
  {
    Join([row.itsc] + RenderEntries(row.entries), ",")
  }

  function RenderRows(rows: seq<FeedRow>): (r: seq<string>)
    ensures |r| == |rows|
    ensures forall i :: 0 <= i < |rows| ==> r[i] == RenderRow(rows[i])
  {
    if rows == [] then [] else RenderRows(rows[..|rows| - 1]) + [RenderRow(rows[|rows| - 1])]
  }

  /** The feed text: the rendered rows joined by newlines. */
  function RenderFeed(rows: seq<FeedRow>): string
  {
    Join(RenderRows(rows), "\n")
  }

  /** The records one row describes, entry by entry. */
  function RowExpected(row: FeedRow): (r: seq<FeedRecord>)
    ensures |r| == |row.entries|
    ensures forall i :: 0 <= i < |r| ==> r[i] == FeedRecord(row.itsc, row.entries[i].course, Some(row.entries[i].section))
  {
    seq(|row.entries|, i requires 0 <= i < |row.entries| =>
      FeedRecord(row.itsc, row.entries[i].course, Some(row.entries[i].section)))
  }

  /** The records a feed describes, row by row. */
  function Expected(rows: seq<FeedRow>): seq<FeedRecord>
  {
    if rows == [] then [] else Expected(rows[..|rows| - 1]) + RowExpected(rows[|rows| - 1])
  }

  /** No separator of the format occurs in `s`. */
  predicate Plain(s: string)
  {
    '\n' !in s && ',' !in s && '-' !in s
  }

  predicate NoLower(s: string)
  {
    forall i :: 0 <= i < |s| ==> !IsLower(s[i])
  }

  /** A row the format can carry: a non-empty ITSC id and upper-case, separator-free courses and sections. */
  predicate WellFormedRow(row: FeedRow)
  {
    |row.itsc| > 0 && '\n' !in row.itsc && ',' !in row.itsc &&
    forall e :: e in row.entries ==> Plain(e.course) && Plain(e.section) && NoLower(e.course) && NoLower(e.section)
  }

  lemma EntryParses(itsc: string, e: CourseSection)
    requires Plain(e.course) && Plain(e.section) && NoLower(e.course) && NoLower(e.section)
    ensures FieldRecord(itsc, RenderEntry(e)) == FeedRecord(itsc, e.course, Some(e.section))
  {
    FreeOfChar(e.course, '-');
    FreeOfChar(e.section, '-');
    assert Unbordered("-");
    SplitJoin([e.course, e.section], "-");
    ToUpperOfUpper(e.course);
    ToUpperOfUpper(e.section);
  }

  lemma RowParses(row: FeedRow)
    requires WellFormedRow(row)
    ensures Records([RenderRow(row)]) == RowExpected(row)
  {
    var fields := [row.itsc] + RenderEntries(row.entries);
    FreeOfChar(row.itsc, ',');
    forall k | 0 <= k < |fields|
      ensures Free(fields[k], ",")
    {
      if k > 0 {
        var e := row.entries[k - 1];
        JoinAvoids([e.course, e.section], "-", ',');
        FreeOfChar(fields[k], ',');
      }
    }
    assert Unbordered(",");
    SplitJoin(fields, ",");
    assert Records([RenderRow(row)]) == Records([]) + RowRecords(RenderRow(row));
    var got := RowRecords(RenderRow(row));
    assert |got| == |row.entries|;
    forall i | 0 <= i < |row.entries|
      ensures got[i] == FeedRecord(row.itsc, row.entries[i].course, Some(row.entries[i].section))
    {
      assert row.entries[i] in row.entries;
      EntryParses(row.itsc, row.entries[i]);
    }
  }

  lemma {:induction false} RowsParse(rows: seq<FeedRow>)
    requires forall row :: row in rows ==> WellFormedRow(row)
    ensures Records(RenderRows(rows)) == Expected(rows)
  {
    if rows != [] {
      var n := |rows| - 1;
      var init := rows[..n];
      var last := rows[n];
      assert RenderRows(rows) == RenderRows(init) + [RenderRow(last)];
      assert Records(RenderRows(rows)) == Records(RenderRows(init)) + Records([RenderRow(last)]) by {
        RecordsAppend(RenderRows(init), [RenderRow(last)]);
      }
      assert Records(RenderRows(init)) == Expected(init) by {
        assert forall row :: row in init ==> row in rows;
        RowsParse(init);
      }
      assert Records([RenderRow(last)]) == RowExpected(last) by {
        assert last in rows;
        RowParses(last);
      }
    }
  }

  /**
   * Parsing a successfully fetched feed rendered from well-formed rows yields
   * exactly the records those rows describe, in order.
   */
  lemma ParseRendered(rows: seq<FeedRow>, termid: string)
    requires forall row :: row in rows ==> WellFormedRow(row)
    ensures ParseFeed(0, RenderFeed(rows), termid) == Ok(Enrollments(Expected(rows), ParseInt(termid)))
  {
    var lines := RenderRows(rows);
    if rows == [] {
      assert Split("", "\n") == [""];
    } else {
      forall k | 0 <= k < |lines|
        ensures Free(lines[k], "\n") && |lines[k]| > 0
      {
        var row := rows[k];
        assert row in rows;
        var fields := [row.itsc] + RenderEntries(row.entries);
        forall m | 0 <= m < |fields|
          ensures '\n' !in fields[m]
        {
          if m > 0 {
            var e := row.entries[m - 1];
            JoinAvoids([e.course, e.section], "-", '\n');
          }
        }
        JoinAvoids(fields, ",", '\n');
        FreeOfChar(lines[k], '\n');
        assert |Join(fields, ",")| >= |row.itsc|;
      }
      assert Unbordered("\n");
      SplitJoin(lines, "\n");
      NonEmptyAll(lines);
      RowsParse(rows);
    }
  }

  lemma {:induction false} NonEmptyAll(lines: seq<string>)
    requires forall k :: 0 <= k < |lines| ==> |lines[k]| > 0
    ensures NonEmpty(lines) == lines
  {
    if lines != [] {
      NonEmptyAll(lines[..|lines| - 1]);
      assert lines[..|lines| - 1] + [lines[|lines| - 1]] == lines;
    }
  }
}
