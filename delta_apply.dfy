/**
 * The per-delta procedures of `src/lib/course-new.ts` (`enrol`, `unenrol`,
 * `swap`): each decodes one map entry and issues a fixed sequence of remote
 * calls. The remote side is an oracle: a `Server` answers each call as a
 * function of the calls made so far and the call itself, so every deterministic
 * backend is covered. A `RosterClient` keeps the log of calls it has made.
 */
module DeltaApply {
  import opened Results
  import opened Strings
  import opened EnrolmentDiff

  /** One row of a lookup reply: a section (or course) id and the id of its course. */
  datatype Row = Row(id: nat, courseId: nat)

  /**
   * A lookup reply: `getSectionByName` answers the object it created when the
   * section was missing and the array of matching rows otherwise; `getCourse`
   * always answers an object, which `Single` covers.
   */
  datatype Lookup = Single(row: Row) | Many(rows: seq<Row>)

  /** `data.id || data[0].id`: a zero id is falsy and falls through to the array read, which fails on an object. */
  function PickId(l: Lookup): (r: Result<nat>)
    ensures r.Ok? <==> (l.Single? && l.row.id != 0) || (l.Many? && |l.rows| > 0)
    ensures r.Ok? && l.Single? ==> r.value == l.row.id
    ensures r.Ok? && l.Many? ==> r.value == l.rows[0].id
  {
    match l
    case Single(row) => if row.id != 0 then Ok(row.id) else Err("TypeError: cannot read 'id' of undefined")
    case Many(rows) => if |rows| > 0 then Ok(rows[0].id) else Err("TypeError: cannot read 'id' of undefined")
  }

  /** `data.course_id || data[0].course_id`, read the same way as the id. */
  function PickCourseId(l: Lookup): (r: Result<nat>)
    ensures r.Ok? <==> (l.Single? && l.row.courseId != 0) || (l.Many? && |l.rows| > 0)
    ensures r.Ok? && l.Single? ==> r.value == l.row.courseId
    ensures r.Ok? && l.Many? ==> r.value == l.rows[0].courseId
  {
    match l
    case Single(row) => if row.courseId != 0 then Ok(row.courseId) else Err("TypeError: cannot read 'course_id' of undefined")
    case Many(rows) => if |rows| > 0 then Ok(rows[0].courseId) else Err("TypeError: cannot read 'course_id' of undefined")
  }

  /** The remote calls the procedures make; numeric arguments from `parseInt` are `None` when they are NaN. */
  datatype Request =
    | GetCourse(semester: Option<nat>, course: string)
    | GetSectionByName(semester: Option<nat>, course: string, section: string)
    | AddStudentsToCourse(users: seq<string>, courseId: nat)
    | AddStudentsToSection(users: seq<string>, sectionId: nat)
    | GetSectionUser(userId: Option<nat>, sectionId: nat)
    | RemoveFromSection(rowIds: seq<nat>)
    | GetCourseUser(userId: Option<nat>, courseId: nat)
    | RemoveFromCourse(rowIds: seq<nat>)

  /** A call that reads or writes course membership rather than section membership. */
  predicate TouchesCourseMembership(q: Request)
  {
    q.AddStudentsToCourse? || q.GetCourseUser? || q.RemoveFromCourse?
  }

  /**
   * The backend, as answers to calls given the calls made before: lookups answer
   * an object or an array, membership queries the first matching row id (or none).
   */
  datatype Server = Server(lookup: (seq<Request>, Request) -> Lookup, membership: (seq<Request>, Request) -> Option<nat>)

  /** The fields of a decoded key that the procedures read: student id, parsed semester and course. */
  function KeyFields(key: string): (r: (string, Option<nat>, string))
    requires |ExtractKey(key)| >= 3
    ensures r.1 == ParseInt(ExtractKey(key)[1])
  {
    var f := ExtractKey(key);
    (f[0], ParseInt(f[1]), f[2])
  }

  /** The key of a comma-free record decodes to the record's own student id, semester and course. */
  lemma KeyFieldsOfRecord(d: EnrolmentData)
    requires CommaFree(d)
    ensures |ExtractKey(KeyOf(d))| >= 3
    ensures KeyFields(KeyOf(d)) == (d.sid, Some(d.semester), d.course)
  {
    KeyRoundTrip(d);
  }

  /**
   * The calls `enrol` makes for one added entry: the course lookup, the section
   * lookup, then the course enrolment and, after it, the section enrolment. A
   * lookup whose id cannot be read ends the entry there.
   */
  function EnrolTrace(server: Server, log0: seq<Request>, key: string, section: string): (t: seq<Request>)
    requires |ExtractKey(key)| >= 3
    ensures |t| in {1, 2, 4}
    ensures t[0] == GetCourse(KeyFields(key).1, KeyFields(key).2)
    ensures |t| >= 2 ==> t[1] == GetSectionByName(KeyFields(key).1, KeyFields(key).2, section)
    ensures |t| >= 2 <==> PickId(server.lookup(log0, t[0])).Ok?
    ensures |t| >= 2 ==> (|t| == 4 <==> PickId(server.lookup(log0 + [t[0]], t[1])).Ok?)
    ensures |t| == 4 ==> t[2] == AddStudentsToCourse([KeyFields(key).0], PickId(server.lookup(log0, t[0])).value)
    ensures |t| == 4 ==> t[3] == AddStudentsToSection([KeyFields(key).0], PickId(server.lookup(log0 + [t[0]], t[1])).value)
    ensures forall q :: q in t ==> !q.RemoveFromCourse? && !q.RemoveFromSection?
  {
    var (sid, semester, course) := KeyFields(key);
    var courseQ := GetCourse(semester, course);
    var courseId := PickId(server.lookup(log0, courseQ));
    if courseId.Err? then [courseQ]
    else
      var sectionQ := GetSectionByName(semester, course, section);
      var sectionId := PickId(server.lookup(log0 + [courseQ], sectionQ));
      if sectionId.Err? then [courseQ, sectionQ]
      else [courseQ, sectionQ, AddStudentsToCourse([sid], courseId.value), AddStudentsToSection([sid], sectionId.value)]
  }

  /**
   * The calls `unenrol` makes for one dropped entry: the section lookup, the
   * student's section row, its removal, the student's course row, its removal.
   * A missing id or row ends the entry there.
   */
  function UnenrolTrace(server: Server, log0: seq<Request>, key: string, section: string): (t: seq<Request>)
    requires |ExtractKey(key)| >= 3
    ensures |t| in {1, 2, 4, 5}
    ensures t[0] == GetSectionByName(KeyFields(key).1, KeyFields(key).2, section)
    ensures var found := server.lookup(log0, t[0]);
      |t| >= 2 <==> PickId(found).Ok? && PickCourseId(found).Ok?
    ensures |t| >= 2 ==> t[1] == GetSectionUser(ParseInt(KeyFields(key).0), PickId(server.lookup(log0, t[0])).value)
    ensures |t| >= 2 ==> (|t| >= 4 <==> server.membership(log0 + [t[0]], t[1]).Some?)
    ensures |t| >= 4 ==> t[2] == RemoveFromSection([server.membership(log0 + [t[0]], t[1]).value])
    ensures |t| >= 4 ==> t[3] == GetCourseUser(ParseInt(KeyFields(key).0), PickCourseId(server.lookup(log0, t[0])).value)
    ensures |t| >= 4 ==> (|t| == 5 <==> server.membership(log0 + [t[0], t[1], t[2]], t[3]).Some?)
    ensures |t| == 5 ==> t[4] == RemoveFromCourse([server.membership(log0 + [t[0], t[1], t[2]], t[3]).value])
    ensures forall i :: 0 <= i < |t| && t[i].RemoveFromCourse? ==> exists j :: 0 <= j < i && t[j].RemoveFromSection?
    ensures forall q :: q in t ==> !q.AddStudentsToCourse? && !q.AddStudentsToSection?
  {
    var (sid, semester, course) := KeyFields(key);
    var sectionQ := GetSectionByName(semester, course, section);
    var sectionData := server.lookup(log0, sectionQ);
    var sectionId := PickId(sectionData);
    var courseId := PickCourseId(sectionData);
    if sectionId.Err? || courseId.Err? then [sectionQ]
    else
      var userQ := GetSectionUser(ParseInt(sid), sectionId.value);
      var sectionRow := server.membership(log0 + [sectionQ], userQ);
      if sectionRow.None? then [sectionQ, userQ]
      else
        var removeQ := RemoveFromSection([sectionRow.value]);
        var courseQ := GetCourseUser(ParseInt(sid), courseId.value);
        var courseRow := server.membership(log0 + [sectionQ, userQ, removeQ], courseQ);
        if courseRow.None? then [sectionQ, userQ, removeQ, courseQ]
        else [sectionQ, userQ, removeQ, courseQ, RemoveFromCourse([courseRow.value])]
  }

  /**
   * The calls `swap` makes for one swapped entry `old->new`: both section
   * lookups, the student's old-section row, its removal, then the new-section
   * enrolment. Course membership is never read or written.
   */
  function SwapTrace(server: Server, log0: seq<Request>, key: string, value: string): (t: seq<Request>)
    requires |ExtractKey(key)| >= 3 && |SplitSwap(value)| >= 2
    ensures |t| in {1, 2, 3, 5}
    ensures t[0] == GetSectionByName(KeyFields(key).1, KeyFields(key).2, SplitSwap(value)[0])
    ensures |t| >= 2 ==> t[1] == GetSectionByName(KeyFields(key).1, KeyFields(key).2, SplitSwap(value)[1])
    ensures |t| >= 2 <==> PickId(server.lookup(log0, t[0])).Ok?
    ensures |t| >= 2 ==> (|t| >= 3 <==> PickId(server.lookup(log0 + [t[0]], t[1])).Ok?)
    ensures |t| >= 3 ==> t[2] == GetSectionUser(ParseInt(KeyFields(key).0), PickId(server.lookup(log0, t[0])).value)
    ensures |t| >= 3 ==> (|t| == 5 <==> server.membership(log0 + [t[0], t[1]], t[2]).Some?)
    ensures |t| == 5 ==> t[3] == RemoveFromSection([server.membership(log0 + [t[0], t[1]], t[2]).value])
    ensures |t| == 5 ==> t[4] == AddStudentsToSection([KeyFields(key).0], PickId(server.lookup(log0 + [t[0]], t[1])).value)
    ensures forall q :: q in t ==> !TouchesCourseMembership(q)
  {
    var (sid, semester, course) := KeyFields(key);
    var oldQ := GetSectionByName(semester, course, SplitSwap(value)[0]);
    var oldId := PickId(server.lookup(log0, oldQ));
    if oldId.Err? then [oldQ]
    else
      var newQ := GetSectionByName(semester, course, SplitSwap(value)[1]);
      var newId := PickId(server.lookup(log0 + [oldQ], newQ));
      if newId.Err? then [oldQ, newQ]
      else
        var userQ := GetSectionUser(ParseInt(sid), oldId.value);
        var row := server.membership(log0 + [oldQ, newQ], userQ);
        if row.None? then [oldQ, newQ, userQ]
        else [oldQ, newQ, userQ, RemoveFromSection([row.value]), AddStudentsToSection([sid], newId.value)]
  }

  class RosterClient {
    /** Every call made so far, oldest first. */
    var log: seq<Request>
    const server: Server

    constructor(server: Server)
      ensures log == [] && this.server == server
    {
      log := [];
      this.server := server;
    }

    method CallLookup(q: Request) returns (l: Lookup)
      modifies this
      ensures log == old(log) + [q]
      ensures l == server.lookup(old(log), q)
    {
      l := server.lookup(log, q);
      log := log + [q];
    }

    method CallMembership(q: Request) returns (row: Option<nat>)
      modifies this
      ensures log == old(log) + [q]
      ensures row == server.membership(old(log), q)
    {
      row := server.membership(log, q);
      log := log + [q];
    }

    /** A mutation whose reply (an affected-row count) is only logged by the source. */
    method CallMutation(q: Request)
      modifies this
      ensures log == old(log) + [q]
    {
      log := log + [q];
    }

    /**
     * `enrol`, for one added entry: looks up the course, then the section, then
     * adds the student to the course and, after that, to the section.
     */
    method Enrol(key: string, section: string) returns (r: Result<()>)
      requires |ExtractKey(key)| >= 3
      modifies this
      ensures log == old(log) + EnrolTrace(server, old(log), key, section)
      ensures r.Ok? <==> |EnrolTrace(server, old(log), key, section)| == 4
    {
      var (sid, semester, course) := KeyFields(key);
      var courseData := CallLookup(GetCourse(semester, course));
      var courseId := PickId(courseData);
      if courseId.Err? {
        return Err(courseId.message);
      }
      var sectionData := CallLookup(GetSectionByName(semester, course, section));
      var sectionId := PickId(sectionData);
      if sectionId.Err? {
        return Err(sectionId.message);
      }
      CallMutation(AddStudentsToCourse([sid], courseId.value));
      CallMutation(AddStudentsToSection([sid], sectionId.value));
      r := Ok(());
    }

    /**
     * `unenrol`, for one dropped entry: looks up the section (which also names its
     * course), removes the student's section row, then the course row.
     */
    method Unenrol(key: string, section: string) returns (r: Result<()>)
      requires |ExtractKey(key)| >= 3
      modifies this
      ensures log == old(log) + UnenrolTrace(server, old(log), key, section)
      ensures r.Ok? <==> |UnenrolTrace(server, old(log), key, section)| == 5
    {
      var (sid, semester, course) := KeyFields(key);
      var sectionData := CallLookup(GetSectionByName(semester, course, section));
      var sectionId := PickId(sectionData);
      if sectionId.Err? {
        return Err(sectionId.message);
      }
      var courseId := PickCourseId(sectionData);
      if courseId.Err? {
        return Err(courseId.message);
      }
      var sectionUser := CallMembership(GetSectionUser(ParseInt(sid), sectionId.value));
      if sectionUser.None? {
        return Err("TypeError: cannot read 'id' of undefined");
      }
      CallMutation(RemoveFromSection([sectionUser.value]));
      assert log == old(log) + [GetSectionByName(semester, course, section), GetSectionUser(ParseInt(sid), sectionId.value),
                                RemoveFromSection([sectionUser.value])];
      var courseUser := CallMembership(GetCourseUser(ParseInt(sid), courseId.value));
      if courseUser.None? {
        return Err("TypeError: cannot read 'id' of undefined");
      }
      CallMutation(RemoveFromCourse([courseUser.value]));
      r := Ok(());
    }

    /**
     * `swap`, for one swapped entry `old->new`: looks up both sections, removes
     * the student's old-section row and adds the student to the new section.
     * Course membership is never read or written.
     */
    method Swap(key: string, value: string) returns (r: Result<()>)
      requires |ExtractKey(key)| >= 3 && |SplitSwap(value)| >= 2
      modifies this
      ensures log == old(log) + SwapTrace(server, old(log), key, value)
      ensures r.Ok? <==> |SwapTrace(server, old(log), key, value)| == 5
    {
      var (sid, semester, course) := KeyFields(key);
      var sections := SplitSwap(value);
      var oldSectionData := CallLookup(GetSectionByName(semester, course, sections[0]));
      var oldSectionId := PickId(oldSectionData);
      if oldSectionId.Err? {
        return Err(oldSectionId.message);
      }
      var newSectionData := CallLookup(GetSectionByName(semester, course, sections[1]));
      var newSectionId := PickId(newSectionData);
      if newSectionId.Err? {
        return Err(newSectionId.message);
      }
      assert log == old(log) + [GetSectionByName(semester, course, sections[0]), GetSectionByName(semester, course, sections[1])];
      var sectionUser := CallMembership(GetSectionUser(ParseInt(sid), oldSectionId.value));
      if sectionUser.None? {
        return Err("TypeError: cannot read 'id' of undefined");
      }
      CallMutation(RemoveFromSection([sectionUser.value]));
      CallMutation(AddStudentsToSection([sid], newSectionId.value));
      r := Ok(());
    }
  }
}
