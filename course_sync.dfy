/**
 * The synchronisation loop `SyncEnrollment` of `src/lib/course.ts`: after the
 * semester is created and the feed's students are looked up (and the missing
 * ones created), every course of the feed is fetched, its unlisted students
 * removed, its new students enrolled, and every targeted section created or
 * brought in line with the feed. The backend is an oracle answering each call
 * as a function of the calls made before; a `SyncClient` keeps the call log.
 */
module CourseSync {
  import opened Results
  import opened Strings
  import opened Collections
  import opened Semester
  import opened Feed
  import opened Selection

  /** The remote calls of the synchronisation, with the arguments they carry. */
  datatype SyncRequest =
    | CreateSemester(id: Option<nat>, name: string, year: Option<nat>)
    | GetUserIds(itscs: seq<string>)
    | AddUsers(itscs: seq<string>)
    | GetCourse(semester: Option<nat>, code: string)
    | RemoveFromCourse(rowIds: seq<nat>)
    | AddStudentsToCourse(userIds: seq<nat>, courseId: nat)
    | AddSection(courseId: nat, sectionName: Option<string>)
    | AddStudentsToSection(userIds: seq<nat>, sectionId: nat)
    | RemoveFromSection(rowIds: seq<nat>)

  /**
   * The backend: user queries and user creation answer user rows, course
   * lookups a course, section creation the new section's id; each answer may
   * depend on every call made before.
   */
  datatype SyncServer = SyncServer(
    users: (seq<SyncRequest>, SyncRequest) -> seq<Student>,
    course: (seq<SyncRequest>, SyncRequest) -> Course,
    sectionId: (seq<SyncRequest>, SyncRequest) -> nat)

  /** `createSemesterIfNotExist(id)`: named from `id.toString()` ("NaN" when the term id did not parse). */
  function CreateSemesterRequest(semester: Option<nat>): (q: SyncRequest)
    ensures q.CreateSemester? && q.id == semester
    ensures semester.Some? ==> q.name == SemesterNameAndYear(NatToString(semester.value)).name
  {
    var info := SemesterNameAndYear(if semester.Some? then NatToString(semester.value) else "NaN");
    CreateSemester(semester, info.name, ParseInt(info.year))
  }

  /** The calls `getStudentUserIds` makes: the user query, then user creation only when some ITSC id is missing. */
  function UserIdsTrace(server: SyncServer, log0: seq<SyncRequest>, itscs: seq<string>): (t: seq<SyncRequest>)
    ensures |t| == 1 || |t| == 2
    ensures t[0] == GetUserIds(itscs)
    ensures NoEmptyRemoval(t)
    ensures |t| == 2 <==> |Unlogged(itscs, server.users(log0, GetUserIds(itscs)))| > 0
    ensures |t| == 2 ==> t[1] == AddUsers(Unlogged(itscs, server.users(log0, GetUserIds(itscs))))
  {
    var q := GetUserIds(itscs);
    var unlogged := Unlogged(itscs, server.users(log0, q));
    if |unlogged| > 0 then [q, AddUsers(unlogged)] else [q]
  }

  /** What `getStudentUserIds` returns: the existing users followed by the newly created ones. */
  function UserIdsResult(server: SyncServer, log0: seq<SyncRequest>, itscs: seq<string>): seq<Student>
  {
    var q := GetUserIds(itscs);
    var existing := server.users(log0, q);
    var unlogged := Unlogged(itscs, existing);
    existing + (if |unlogged| > 0 then server.users(log0 + [q], AddUsers(unlogged)) else [])
  }

  /**
   * Every requested ITSC id ends up with a user row, provided the creation call
   * answers a row for each ITSC id it was asked to create.
   */
  lemma UserIdsCoverRequest(server: SyncServer, log0: seq<SyncRequest>, itscs: seq<string>, itsc: string)
    requires itsc in itscs
    requires var q := GetUserIds(itscs);
      var unlogged := Unlogged(itscs, server.users(log0, q));
      forall x :: x in unlogged ==> exists s :: s in server.users(log0 + [q], AddUsers(unlogged)) && s.itsc == x
    ensures exists s :: s in UserIdsResult(server, log0, itscs) && s.itsc == itsc
  {
    var q := GetUserIds(itscs);
    var existing := server.users(log0, q);
    var unlogged := Unlogged(itscs, existing);
    if itsc in unlogged {
      var s :| s in server.users(log0 + [q], AddUsers(unlogged)) && s.itsc == itsc;
      assert s in UserIdsResult(server, log0, itscs);
    } else {
      var s :| s in existing && s.itsc == itsc;
      assert s in UserIdsResult(server, log0, itscs);
    }
  }

  /** No removal call in `t` carries an empty list. */
  predicate NoEmptyRemoval(t: seq<SyncRequest>)
  {
    forall q :: q in t ==> (q.RemoveFromCourse? ==> |q.rowIds| > 0) && (q.RemoveFromSection? ==> |q.rowIds| > 0)
  }

  /** A call about section membership or section creation. */
  predicate SectionCall(q: SyncRequest)
  {
    q.AddSection? || q.AddStudentsToSection? || q.RemoveFromSection?
  }

  /**
   * The calls for one target section. A section the course lacks is created and
   * then filled with every feed student of the section; an existing one gets its
   * missing feed students added and, only when there are some, its unlisted
   * members removed.
   */
  function SectionTrace(server: SyncServer, log0: seq<SyncRequest>, records: seq<FeedRecord>, students: seq<Student>,
                        code: string, course: Course, target: Option<string>): (t: seq<SyncRequest>)
    ensures NoEmptyRemoval(t)
    ensures forall q :: q in t ==> SectionCall(q)
    ensures !HasSection(course.sections, target) ==>
      t == [AddSection(course.id, target),
            AddStudentsToSection(StudentIds(students, NewSectionMembers(records, code, target)),
                                 server.sectionId(log0, AddSection(course.id, target)))]
    ensures HasSection(course.sections, target) ==>
      var section := FirstSectionNamed(course.sections, target.value);
      var removals := SectionRemovals(records, code, section);
      && |t| in {1, 2}
      && t[0] == AddStudentsToSection(StudentIds(students, SectionAdds(records, code, section)), section.id)
      && (|t| == 2 <==> |removals| > 0)
      && (|t| == 2 ==> t[1] == RemoveFromSection(removals))
  {
    if !HasSection(course.sections, target) then
      var create := AddSection(course.id, target);
      var sectionId := server.sectionId(log0, create);
      [create, AddStudentsToSection(StudentIds(students, NewSectionMembers(records, code, target)), sectionId)]
    else
      var section := FirstSectionNamed(course.sections, target.value);
      var removals := SectionRemovals(records, code, section);
      [AddStudentsToSection(StudentIds(students, SectionAdds(records, code, section)), section.id)] +
      (if |removals| > 0 then [RemoveFromSection(removals)] else [])
  }

  /** The calls for the target sections, one after the other. */
  function SectionsTrace(server: SyncServer, log0: seq<SyncRequest>, records: seq<FeedRecord>, students: seq<Student>,
                         code: string, course: Course, targets: seq<Option<string>>): (t: seq<SyncRequest>)
    ensures NoEmptyRemoval(t)
    ensures forall q :: q in t ==> SectionCall(q)
    decreases |targets|
  {
    if targets == [] then []
    else
      var first := SectionTrace(server, log0, records, students, code, course, targets[0]);
      first + SectionsTrace(server, log0 + first, records, students, code, course, targets[1..])
  }

  /**
   * The calls for one course: the lookup, the removal of unlisted students (only
   * when there are some), the enrolment of new students (always, even when there
   * are none), then the target sections of the new students.
   */
  function CourseHead(server: SyncServer, log0: seq<SyncRequest>, records: seq<FeedRecord>, students: seq<Student>,
                      semester: Option<nat>, code: string): (t: seq<SyncRequest>)
    ensures 2 <= |t| <= 3
    ensures t[0] == GetCourse(semester, code)
    ensures NoEmptyRemoval(t)
    ensures var course := server.course(log0, GetCourse(semester, code));
      var leaving := ToBeUnenrolled(course.users, records, code);
      && (|t| == 3 <==> |leaving| > 0)
      && (|t| == 3 ==> t[1] == RemoveFromCourse(CourseRowIds(leaving)))
      && t[|t| - 1] == AddStudentsToCourse(StudentIds(students, RecordItscs(ToBeEnrolled(records, code, course.users))), course.id)
  {
    var lookup := GetCourse(semester, code);
    var course := server.course(log0, lookup);
    var leaving := ToBeUnenrolled(course.users, records, code);
    var joining := ToBeEnrolled(records, code, course.users);
    [lookup] + (if |leaving| > 0 then [RemoveFromCourse(CourseRowIds(leaving))] else []) +
    [AddStudentsToCourse(StudentIds(students, RecordItscs(joining)), course.id)]
  }

  function CourseTrace(server: SyncServer, log0: seq<SyncRequest>, records: seq<FeedRecord>, students: seq<Student>,
                       semester: Option<nat>, code: string): (t: seq<SyncRequest>)
    ensures NoEmptyRemoval(t)
  {
    var head := CourseHead(server, log0, records, students, semester, code);
    var course := server.course(log0, GetCourse(semester, code));
    var joining := ToBeEnrolled(records, code, course.users);
    head + SectionsTrace(server, log0 + head, records, students, code, course, TargetSections(joining))
  }

  /** The calls for the courses, one after the other. */
  function CoursesTrace(server: SyncServer, log0: seq<SyncRequest>, records: seq<FeedRecord>, students: seq<Student>,
                        semester: Option<nat>, codes: seq<string>): (t: seq<SyncRequest>)
    ensures NoEmptyRemoval(t)
    decreases |codes|
  {
    if codes == [] then []
    else
      var first := CourseTrace(server, log0, records, students, semester, codes[0]);
      first + CoursesTrace(server, log0 + first, records, students, semester, codes[1..])
  }

  function RecordCourses(records: seq<FeedRecord>): (r: seq<string>)
    ensures |r| == |records|
    ensures forall i :: 0 <= i < |r| ==> r[i] == records[i].course
  {
    seq(|records|, i requires 0 <= i < |records| => records[i].course)
  }

  /** Every call of one synchronisation run over parsed enrolments `e`. */
  function SyncTrace(server: SyncServer, log0: seq<SyncRequest>, e: Enrollments): (t: seq<SyncRequest>)
    ensures |t| >= 1 && t[0] == CreateSemesterRequest(e.semester)
    ensures NoEmptyRemoval(t)
  {
    var semester := CreateSemesterRequest(e.semester);
    var itscs := Distinct(RecordItscs(e.records));
    var userCalls := UserIdsTrace(server, log0 + [semester], itscs);
    var students := UserIdsResult(server, log0 + [semester], itscs);
    [semester] + userCalls +
    CoursesTrace(server, log0 + [semester] + userCalls, e.records, students, e.semester, Distinct(RecordCourses(e.records)))
  }

  /**
   * The course's calls begin with the lookup, remove exactly the row ids of the
   * unlisted students (and make no removal call when there are none), and always
   * enrol the new students' user ids into the fetched course.
   */
  lemma CourseCalls(server: SyncServer, log0: seq<SyncRequest>, records: seq<FeedRecord>, students: seq<Student>,
                    semester: Option<nat>, code: string)
    ensures var t := CourseTrace(server, log0, records, students, semester, code);
      var course := server.course(log0, GetCourse(semester, code));
      var leaving := ToBeUnenrolled(course.users, records, code);
      && t[0] == GetCourse(semester, code)
      && (RemoveFromCourse(CourseRowIds(leaving)) in t <==> |leaving| > 0)
      && (forall q :: q in t && q.RemoveFromCourse? ==> q == RemoveFromCourse(CourseRowIds(leaving)))
      && AddStudentsToCourse(StudentIds(students, RecordItscs(ToBeEnrolled(records, code, course.users))), course.id) in t
  {
    var head := CourseHead(server, log0, records, students, semester, code);
    var course := server.course(log0, GetCourse(semester, code));
    var leaving := ToBeUnenrolled(course.users, records, code);
    var joining := ToBeEnrolled(records, code, course.users);
    var enrol := AddStudentsToCourse(StudentIds(students, RecordItscs(joining)), course.id);
    var rest := SectionsTrace(server, log0 + head, records, students, code, course, TargetSections(joining));
    assert CourseTrace(server, log0, records, students, semester, code) == head + rest;
    CourseCallsOf(head, rest, GetCourse(semester, code), RemoveFromCourse(CourseRowIds(leaving)), enrol, |leaving| > 0);
  }

  /** The course calls of a course's head followed by section calls only. */
  lemma CourseCallsOf(head: seq<SyncRequest>, rest: seq<SyncRequest>,
                      lookup: SyncRequest, removal: SyncRequest, enrol: SyncRequest, removes: bool)
    requires head == [lookup] + (if removes then [removal] else []) + [enrol]
    requires lookup.GetCourse? && removal.RemoveFromCourse? && enrol.AddStudentsToCourse?
    requires forall q :: q in rest ==> SectionCall(q)
    ensures (head + rest)[0] == lookup
    ensures removal in head + rest <==> removes
    ensures forall q :: q in head + rest && q.RemoveFromCourse? ==> q == removal
    ensures enrol in head + rest
  {
    assert enrol in head;
  }

  /**
   * When no student is new to the course, no section is created, filled or
   * trimmed: section changes of students already in the course are not synced.
   */
  lemma NoNewStudentsNoSectionCalls(server: SyncServer, log0: seq<SyncRequest>, records: seq<FeedRecord>, students: seq<Student>,
                                    semester: Option<nat>, code: string)
    requires |ToBeEnrolled(records, code, server.course(log0, GetCourse(semester, code)).users)| == 0
    ensures forall q :: q in CourseTrace(server, log0, records, students, semester, code) ==> !SectionCall(q)
  {
    var course := server.course(log0, GetCourse(semester, code));
    var joining := ToBeEnrolled(records, code, course.users);
    assert TargetSections(joining) == [];
  }

  class SyncClient {
    /** Every call made so far, oldest first. */
    var log: seq<SyncRequest>
    const server: SyncServer

    constructor(server: SyncServer)
      ensures log == [] && this.server == server
    {
      log := [];
      this.server := server;
    }

    method CallUsers(q: SyncRequest) returns (users: seq<Student>)
      modifies this
      ensures log == old(log) + [q] && users == server.users(old(log), q)
    {
      users := server.users(log, q);
      log := log + [q];
    }

    method CallCourse(q: SyncRequest) returns (course: Course)
      modifies this
      ensures log == old(log) + [q] && course == server.course(old(log), q)
    {
      course := server.course(log, q);
      log := log + [q];
    }

    method CallAddSection(q: SyncRequest) returns (id: nat)
      modifies this
      ensures log == old(log) + [q] && id == server.sectionId(old(log), q)
    {
      id := server.sectionId(log, q);
      log := log + [q];
    }

    /** A mutation whose reply (an affected-row count) only feeds a log line. */
    method CallMutation(q: SyncRequest)
      modifies this
      ensures log == old(log) + [q]
    {
      log := log + [q];
    }

    /** `getStudentUserIds`: looks the ITSC ids up and creates the missing users. */
    method GetStudentUserIds(itscs: seq<string>) returns (students: seq<Student>)
      modifies this
      ensures log == old(log) + UserIdsTrace(server, old(log), itscs)
      ensures students == UserIdsResult(server, old(log), itscs)
    {
      var users := CallUsers(GetUserIds(itscs));
      var existingItscs := seq(|users|, i requires 0 <= i < |users| => users[i].itsc);
      var unlogged := Unlogged(itscs, users);
      if |unlogged| > 0 {
        var added := CallUsers(AddUsers(unlogged));
        return users + added;
      }
      students := users;
    }

    /** One target section of `SyncEnrollment`'s inner loop. */
    method SyncSection(records: seq<FeedRecord>, students: seq<Student>, code: string, course: Course, target: Option<string>)
      modifies this
      ensures log == old(log) + SectionTrace(server, old(log), records, students, code, course, target)
    {
      if !HasSection(course.sections, target) {
        var sectionId := CallAddSection(AddSection(course.id, target));
        var studentIds := StudentIds(students, NewSectionMembers(records, code, target));
        CallMutation(AddStudentsToSection(studentIds, sectionId));
      } else {
        var section := FirstSectionNamed(course.sections, target.value);
        var studentIds := StudentIds(students, SectionAdds(records, code, section));
        CallMutation(AddStudentsToSection(studentIds, section.id));
        var removals := SectionRemovals(records, code, section);
        if |removals| > 0 {
          CallMutation(RemoveFromSection(removals));
        }
      }
    }

    /** One course of `SyncEnrollment`'s outer loop. */
    method SyncCourse(records: seq<FeedRecord>, students: seq<Student>, semester: Option<nat>, code: string)
      modifies this
      ensures log == old(log) + CourseTrace(server, old(log), records, students, semester, code)
    {
      ghost var log0 := log;
      var course, joining := SyncCourseMembers(records, students, semester, code);
      ghost var head := CourseHead(server, log0, records, students, semester, code);
      ghost var sections := SectionsTrace(server, log0 + head, records, students, code, course, TargetSections(joining));
      assert CourseTrace(server, log0, records, students, semester, code) == head + sections;
      SyncSections(records, students, code, course, TargetSections(joining));
      AppendAssociative(log0, head, sections);
    }

    /** The course part of one course: lookup, unenrolment and enrolment. */
    method SyncCourseMembers(records: seq<FeedRecord>, students: seq<Student>, semester: Option<nat>, code: string)
      returns (course: Course, joining: seq<FeedRecord>)
      modifies this
      ensures log == old(log) + CourseHead(server, old(log), records, students, semester, code)
      ensures course == server.course(old(log), GetCourse(semester, code))
      ensures joining == ToBeEnrolled(records, code, course.users)
    {
      course := CallCourse(GetCourse(semester, code));
      joining := ToBeEnrolled(records, code, course.users);
      var leaving := ToBeUnenrolled(course.users, records, code);
      if |leaving| > 0 {
        CallMutation(RemoveFromCourse(CourseRowIds(leaving)));
      }
      CallMutation(AddStudentsToCourse(StudentIds(students, RecordItscs(joining)), course.id));
    }

    /** The inner loop over the target sections. */
    method SyncSections(records: seq<FeedRecord>, students: seq<Student>, code: string, course: Course, targets: seq<Option<string>>)
      modifies this
      ensures log == old(log) + SectionsTrace(server, old(log), records, students, code, course, targets)
    {
      for i := 0 to |targets|
        invariant old(log) + SectionsTrace(server, old(log), records, students, code, course, targets)
               == log + SectionsTrace(server, log, records, students, code, course, targets[i..])
      {
        ghost var before := log;
        ghost var step := SectionTrace(server, log, records, students, code, course, targets[i]);
        assert targets[i..][1..] == targets[i + 1..];
        SyncSection(records, students, code, course, targets[i]);
        AppendAssociative(before, step, SectionsTrace(server, log, records, students, code, course, targets[i + 1..]));
      }
      assert targets[|targets|..] == [];
    }

    /** `SyncEnrollment`, from the parsed enrolments on. */
    method SyncEnrollment(e: Enrollments)
      modifies this
      ensures log == old(log) + SyncTrace(server, old(log), e)
    {
      ghost var log0 := log;
      CallMutation(CreateSemesterRequest(e.semester));
      ghost var userCalls := UserIdsTrace(server, log, Distinct(RecordItscs(e.records)));
      var students := GetStudentUserIds(Distinct(RecordItscs(e.records)));
      var codes := Distinct(RecordCourses(e.records));
      ghost var start := log;
      for i := 0 to |codes|
        invariant start + CoursesTrace(server, start, e.records, students, e.semester, codes)
               == log + CoursesTrace(server, log, e.records, students, e.semester, codes[i..])
      {
        ghost var before := log;
        ghost var step := CourseTrace(server, log, e.records, students, e.semester, codes[i]);
        assert codes[i..][1..] == codes[i + 1..];
        SyncCourse(e.records, students, e.semester, codes[i]);
        AppendAssociative(before, step, CoursesTrace(server, log, e.records, students, e.semester, codes[i + 1..]));
      }
      assert codes[|codes|..] == [];
      ghost var courses := CoursesTrace(server, start, e.records, students, e.semester, codes);
      AppendAssociative(log0, [CreateSemesterRequest(e.semester)], userCalls);
      AppendAssociative(log0, [CreateSemesterRequest(e.semester)] + userCalls, courses);
    }
  }
}
