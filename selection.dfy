/**
 * The selection rules inside `SyncEnrollment` of `src/lib/course.ts`: given the
 * feed records and a course as stored (its users with permissions, its sections
 * with their users), which students are enrolled in or removed from the course,
 * which sections are targeted, and who is added to or removed from a section.
 */
module Selection {
  import opened Results
  import opened Collections
  import opened Feed

  /** A course membership row: its id, the permission and the member's ITSC id. */
  datatype CourseUser = CourseUser(rowId: nat, permission: int, itsc: string)

  /** A section membership row: its id and the member's ITSC id. */
  datatype SectionUser = SectionUser(rowId: nat, itsc: string)

  datatype Section = Section(id: nat, name: string, users: seq<SectionUser>)

  /** A course as `getCourse` returns it (an empty one when it had to be created). */
  datatype Course = Course(id: nat, users: seq<CourseUser>, sections: seq<Section>)

  /** A user row of the user table. */
  datatype Student = Student(id: nat, itsc: string)

  /** The permission value of a student; other values (staff) are never unenrolled. */
  const StudentPermission := 1

  function RecordItscs(records: seq<FeedRecord>): (r: seq<string>)
    ensures |r| == |records|
    ensures forall i :: 0 <= i < |r| ==> r[i] == records[i].itsc
  {
    seq(|records|, i requires 0 <= i < |records| => records[i].itsc)
  }

  /** Whether some course membership row belongs to the ITSC id. */
  predicate IsCourseUser(users: seq<CourseUser>, itsc: string)
  {
    exists u :: u in users && u.itsc == itsc
  }

  /** The feed records of course `code`. */
  function CourseRecords(records: seq<FeedRecord>, code: string): (r: seq<FeedRecord>)
    ensures forall rec :: rec in r <==> rec in records && rec.course == code
  {
    Filter(records, (rec: FeedRecord) => rec.course == code)
  }

  /** `studentsToBeEnrolled`: the feed records of the course whose student is not yet a course user. */
  function ToBeEnrolled(records: seq<FeedRecord>, code: string, users: seq<CourseUser>): (r: seq<FeedRecord>)
    ensures forall rec :: rec in r <==> rec in records && rec.course == code && !IsCourseUser(users, rec.itsc)
  {
    Filter(records, (rec: FeedRecord) => rec.course == code && !IsCourseUser(users, rec.itsc))
  }

  /** `studentsToBeUnrolled`: the course users with student permission absent from the course's feed records. */
  function ToBeUnenrolled(users: seq<CourseUser>, records: seq<FeedRecord>, code: string): (r: seq<CourseUser>)
    ensures forall u :: u in r <==> u in users && u.permission == StudentPermission && u.itsc !in RecordItscs(CourseRecords(records, code))
  {
    Filter(users, (u: CourseUser) => u.itsc !in RecordItscs(CourseRecords(records, code)) && u.permission == StudentPermission)
  }

  function CourseRowIds(users: seq<CourseUser>): (r: seq<nat>)
    ensures |r| == |users|
    ensures forall i :: 0 <= i < |r| ==> r[i] == users[i].rowId
  {
    seq(|users|, i requires 0 <= i < |users| => users[i].rowId)
  }

  /** `students.filter(s => itscs.includes(s.itsc)).map(s => s.id)`: the user ids of the listed students. */
  function StudentIds(students: seq<Student>, itscs: seq<string>): (r: seq<nat>)
    ensures forall id :: id in r <==> exists s :: s in students && s.itsc in itscs && s.id == id
  {
    var chosen := Filter(students, (s: Student) => s.itsc in itscs);
    assert forall s :: s in chosen <==> s in students && s.itsc in itscs;
    var r := seq(|chosen|, i requires 0 <= i < |chosen| => chosen[i].id);
    MapMembership(chosen, (s: Student) => s.id, r);
    r
  }

  /** `targetSections`: the distinct sections of the records to be enrolled, in first-seen order. */
  function TargetSections(toEnrol: seq<FeedRecord>): (r: seq<Option<string>>)
    ensures NoDuplicates(r)
    ensures forall t :: t in r <==> exists rec :: rec in toEnrol && rec.section == t
  {
    var sections := seq(|toEnrol|, i requires 0 <= i < |toEnrol| => toEnrol[i].section);
    var r := Distinct(sections);
    MapMembership(toEnrol, (rec: FeedRecord) => rec.section, sections);
    assert forall t :: t in r <==> t in sections;
    r
  }

  /** `sections.map(s => s.name).includes(target)`; an absent section name matches no section. */
  predicate HasSection(sections: seq<Section>, target: Option<string>)
  {
    target.Some? && exists s :: s in sections && s.name == target.value
  }

  /** The index of the first section named `name`. */
  function FirstSectionIndex(sections: seq<Section>, name: string): (k: nat)
    requires exists s :: s in sections && s.name == name
    ensures k < |sections| && sections[k].name == name
    ensures forall j :: 0 <= j < k ==> sections[j].name != name
  {
    if sections[0].name == name then 0
    else
      assert exists s :: s in sections[1..] && s.name == name by {
        var s :| s in sections && s.name == name;
        var i :| 0 <= i < |sections| && sections[i] == s;
        assert sections[1..][i - 1] == s;
      }
      1 + FirstSectionIndex(sections[1..], name)
  }

  /** `const [currentSection] = sections.filter(s => s.name === target)`: the first section so named. */
  function FirstSectionNamed(sections: seq<Section>, name: string): (s: Section)
    requires exists s :: s in sections && s.name == name
    ensures s in sections && s.name == name
  {
    sections[FirstSectionIndex(sections, name)]
  }

  /** For a section just created: every feed student of the course and section. */
  function NewSectionMembers(records: seq<FeedRecord>, code: string, target: Option<string>): (r: seq<string>)
    ensures forall itsc :: itsc in r <==> exists rec :: rec in records && rec.course == code && rec.section == target && rec.itsc == itsc
  {
    var matching := Filter(records, (rec: FeedRecord) => rec.section == target && rec.course == code);
    assert forall rec :: rec in matching <==> rec in records && rec.section == target && rec.course == code;
    RecordItscs(matching)
  }

  /** Whether the section already has a row for the ITSC id. */
  predicate InSection(section: Section, itsc: string)
  {
    exists u :: u in section.users && u.itsc == itsc
  }

  /** For an existing section: the feed students of the course and section not already in it. */
  function SectionAdds(records: seq<FeedRecord>, code: string, section: Section): (r: seq<string>)
    ensures forall itsc :: itsc in r <==>
      (exists rec :: rec in records && rec.course == code && rec.section == Some(section.name) && rec.itsc == itsc) &&
      !exists u :: u in section.users && u.itsc == itsc
  {
    var matching := Filter(records, (rec: FeedRecord) =>
      rec.course == code && rec.section == Some(section.name) && !InSection(section, rec.itsc));
    assert forall rec :: rec in matching <==>
      rec in records && rec.course == code && rec.section == Some(section.name) && !InSection(section, rec.itsc);
    RecordItscs(matching)
  }

  /** The ITSC ids the feed lists for the course and section. */
  function PresentInSection(records: seq<FeedRecord>, code: string, name: string): (r: seq<string>)
    ensures forall itsc :: itsc in r <==> exists rec :: rec in records && rec.course == code && rec.section == Some(name) && rec.itsc == itsc
  {
    var matching := Filter(records, (rec: FeedRecord) => rec.course == code && rec.section == Some(name));
    assert forall rec :: rec in matching <==> rec in records && rec.course == code && rec.section == Some(name);
    RecordItscs(matching)
  }

  /** For an existing section: the row ids of its members the feed no longer lists there, whatever their permission. */
  function SectionRemovals(records: seq<FeedRecord>, code: string, section: Section): (r: seq<nat>)
    ensures forall id :: id in r <==> exists u :: u in section.users && u.itsc !in PresentInSection(records, code, section.name) && u.rowId == id
  {
    var leaving := Filter(section.users, (u: SectionUser) => u.itsc !in PresentInSection(records, code, section.name));
    assert forall u :: u in leaving <==> u in section.users && u.itsc !in PresentInSection(records, code, section.name);
    var r := seq(|leaving|, i requires 0 <= i < |leaving| => leaving[i].rowId);
    MapMembership(leaving, (u: SectionUser) => u.rowId, r);
    r
  }

  /** The ITSC ids not found among the existing users: the ones `getStudentUserIds` creates. */
  function Unlogged(itscs: seq<string>, existing: seq<Student>): (r: seq<string>)
    ensures forall itsc :: itsc in r <==> itsc in itscs && forall s :: s in existing ==> s.itsc != itsc
  {
    var existingItscs := seq(|existing|, i requires 0 <= i < |existing| => existing[i].itsc);
    MapMembership(existing, (s: Student) => s.itsc, existingItscs);
    Filter(itscs, (itsc: string) => itsc !in existingItscs)
  }

  /** `hasDiscrepancy`: true exactly when every submitted row was affected (the name reads the other way). */
  function HasDiscrepancy(submitted: nat, affectedRows: nat): bool
  {
    submitted == affectedRows
  }

  /** The phrase the log prints for the flag: a true flag reads as "No discrepancy". */
  function DiscrepancyPhrase(hasDiscrepancy: bool): string
  {
    if hasDiscrepancy then "No discrepancy" else "Discrepancies"
  }

  /** The log reports "No discrepancy" exactly when the affected-row count equals the number of ids submitted. */
  lemma DiscrepancyPhraseMeaning(submitted: nat, affectedRows: nat)
    ensures DiscrepancyPhrase(HasDiscrepancy(submitted, affectedRows)) == "No discrepancy" <==> submitted == affectedRows
  {
  }

  /** A course user with a permission other than the student one is never unenrolled. */
  lemma StaffNeverUnenrolled(users: seq<CourseUser>, records: seq<FeedRecord>, code: string, u: CourseUser)
    requires u.permission != StudentPermission
    ensures u !in ToBeUnenrolled(users, records, code)
  {
  }

  /**
   * A student is either already a course user or enrolled by the sync, never
   * both: the enrolled records and the current users partition the course's
   * feed students.
   */
  lemma EnrolledOrPresent(records: seq<FeedRecord>, code: string, users: seq<CourseUser>, rec: FeedRecord)
    requires rec in records && rec.course == code
    ensures rec in ToBeEnrolled(records, code, users) <==> !exists u :: u in users && u.itsc == rec.itsc
  {
  }

  /**
   * Enrolment and unenrolment never meet: a student the feed lists for the
   * course is never unenrolled, and a student enrolled by the sync is not a
   * current course user.
   */
  lemma EnrolUnenrolDisjoint(records: seq<FeedRecord>, code: string, users: seq<CourseUser>, rec: FeedRecord, u: CourseUser)
    requires rec in ToBeEnrolled(records, code, users) && u in ToBeUnenrolled(users, records, code)
    ensures rec.itsc != u.itsc
  {
    var course := CourseRecords(records, code);
    assert rec in course;
    var i :| 0 <= i < |course| && course[i] == rec;
    assert RecordItscs(course)[i] == rec.itsc;
  }
}
