/**
 * The record transform of `getNewData` in `src/lib/course-new.ts`: every feed
 * enrolment becomes an `EnrolmentData` whose `sid` is the user id found for its
 * ITSC id in a table built from the user rows `getStudentUserIds` returns.
 * That function creates the missing users but returns only the rows that
 * already existed, so a student created in the same run gets no id. Both the
 * transform as written and the one over all rows are modelled.
 */
module NewData {
  import opened Results
  import opened Strings
  import opened Selection
  import opened EnrolmentDiff

  /** One row of the course/section feed as `getNewData` receives it. */
  datatype Enrollment = Enrollment(itsc: string, course: string, section: string)

  /**
   * `sids.get(itsc)` after `users.forEach(({id, itsc}) => sids.set(itsc, id))`:
   * the id of the last row with that ITSC id, `None` (undefined) when there is none.
   */
  function SidOf(users: seq<Student>, itsc: string): (r: Option<nat>)
    ensures r.None? <==> forall u :: u in users ==> u.itsc != itsc
    ensures r.Some? ==> exists k :: (0 <= k < |users| && users[k] == Student(r.value, itsc)
      && forall j :: k < j < |users| ==> users[j].itsc != itsc)
  {
    if |users| == 0 then None
    else if users[|users| - 1].itsc == itsc then Some(users[|users| - 1].id)
    else
      var r := SidOf(users[..|users| - 1], itsc);
      assert forall u :: u in users[..|users| - 1] ==> u in users;
      assert forall u :: u in users ==> u in users[..|users| - 1] || u == users[|users| - 1];
      r
  }

  /** A record whose `sid` may be undefined, as the transform builds it. */
  datatype NewRecord = NewRecord(sid: Option<nat>, semester: nat, course: string, section: string)

  /** The `enrollments.map(...)` step over a given table of user rows. */
  function Transform(semester: nat, enrollments: seq<Enrollment>, users: seq<Student>): (r: seq<NewRecord>)
    ensures |r| == |enrollments|
    ensures forall i :: 0 <= i < |r| ==> r[i] == NewRecord(SidOf(users, enrollments[i].itsc), semester, enrollments[i].course, enrollments[i].section)
  {
    seq(|enrollments|, i requires 0 <= i < |enrollments| =>
      NewRecord(SidOf(users, enrollments[i].itsc), semester, enrollments[i].course, enrollments[i].section))
  }

  /** As written: the table holds only the users that existed before the run. */
  function NewDataAsWritten(semester: nat, enrollments: seq<Enrollment>, existing: seq<Student>, created: seq<Student>): (r: seq<NewRecord>)
    ensures |r| == |enrollments|
    ensures forall i :: 0 <= i < |r| ==> (r[i].sid.None? <==> forall u :: u in existing ==> u.itsc != enrollments[i].itsc)
  {
    Transform(semester, enrollments, existing)
  }

  /**
   * As written, the records are used as they are: an undefined `sid` prints as
   * the empty text in the comma-joined key.
   */
  function RenderAsWritten(records: seq<NewRecord>): (r: seq<EnrolmentData>)
    ensures |r| == |records|
    ensures forall i :: 0 <= i < |records| ==> r[i].semester == records[i].semester && r[i].course == records[i].course && r[i].section == records[i].section
    ensures forall i :: 0 <= i < |records| ==> (r[i].sid == "" <==> records[i].sid.None?)
  {
    seq(|records|, i requires 0 <= i < |records| =>
      var sid := if records[i].sid.Some? then NatToString(records[i].sid.value) else "";
      EnrolmentData(sid, records[i].semester, records[i].course, records[i].section))
  }

  /**
   * Two students created in the same run for the same course get the same
   * enrolment key, so the enrolment map keeps only one of them, although both
   * have just been given user rows.
   */
  lemma NewStudentsCollide()
    ensures var created := [Student(7, "alice"), Student(8, "bob")];
      var enrollments := [Enrollment("alice", "COMP1021", "LA1"), Enrollment("bob", "COMP1021", "LA2")];
      var r := RenderAsWritten(NewDataAsWritten(2110, enrollments, [], created));
      && SidOf(created, "alice") == Some(7) && SidOf(created, "bob") == Some(8)
      && KeyOf(r[0]) == KeyOf(r[1])
      && EnrolmentMap(r) == map[KeyOf(r[1]) := "LA2"]
  {
    var enrollments := [Enrollment("alice", "COMP1021", "LA1"), Enrollment("bob", "COMP1021", "LA2")];
    var r := RenderAsWritten(NewDataAsWritten(2110, enrollments, [], [Student(7, "alice"), Student(8, "bob")]));
    assert r[0] == EnrolmentData("", 2110, "COMP1021", "LA1");
    assert r[1] == EnrolmentData("", 2110, "COMP1021", "LA2");
    assert r[..1] == [r[0]];
  }

  /** The rendered record: the user id as decimal text, once every record has one. */
  function Render(records: seq<NewRecord>): (r: Option<seq<EnrolmentData>>)
    ensures r.Some? <==> forall i :: 0 <= i < |records| ==> records[i].sid.Some?
    ensures r.Some? ==> |r.value| == |records| && forall i :: 0 <= i < |records| ==>
      r.value[i] == EnrolmentData(NatToString(records[i].sid.value), records[i].semester, records[i].course, records[i].section)
  {
    if |records| == 0 then Some([])
    else
      match (records[0].sid, Render(records[1..]))
      case (Some(id), Some(rest)) =>
        Some([EnrolmentData(NatToString(id), records[0].semester, records[0].course, records[0].section)] + rest)
      case _ => None
  }

  /**
   * Corrected: the table holds the existing users followed by the ones just
   * created, the merge the return statement was evidently meant to make.
   */
  function NewData(semester: nat, enrollments: seq<Enrollment>, existing: seq<Student>, created: seq<Student>): (r: Option<seq<EnrolmentData>>)
    ensures r.Some? <==> forall i :: 0 <= i < |enrollments| ==> exists u :: u in existing + created && u.itsc == enrollments[i].itsc
  {
    Render(Transform(semester, enrollments, existing + created))
  }

  /**
   * When every ITSC id of the feed has a user row, existing or created, every
   * record gets the decimal id of a row for its student, and semester, course
   * and section are copied.
   */
  lemma NewDataKeysEveryone(semester: nat, enrollments: seq<Enrollment>, existing: seq<Student>, created: seq<Student>)
    requires forall i :: 0 <= i < |enrollments| ==> exists u :: u in existing + created && u.itsc == enrollments[i].itsc
    ensures var r := NewData(semester, enrollments, existing, created);
      && r.Some? && |r.value| == |enrollments|
      && forall i :: 0 <= i < |enrollments| ==>
           && r.value[i].semester == semester
           && r.value[i].course == enrollments[i].course
           && r.value[i].section == enrollments[i].section
           && exists u :: u in existing + created && u.itsc == enrollments[i].itsc && r.value[i].sid == NatToString(u.id)
  {
    var users := existing + created;
    var records := Transform(semester, enrollments, users);
    forall i | 0 <= i < |enrollments|
      ensures records[i].sid.Some?
      ensures exists u :: u in users && u.itsc == enrollments[i].itsc && records[i].sid == Some(u.id)
    {
      var sid := SidOf(users, enrollments[i].itsc);
      assert sid.Some?;
      var k :| 0 <= k < |users| && users[k] == Student(sid.value, enrollments[i].itsc)
        && forall j :: k < j < |users| ==> users[j].itsc != enrollments[i].itsc;
      assert users[k] in users;
    }
  }

  /**
   * With every student given a row, and user ids telling users apart, two
   * records of different students never share an enrolment key: the collision
   * above cannot happen.
   */
  lemma NewDataDistinctKeys(semester: nat, enrollments: seq<Enrollment>, existing: seq<Student>, created: seq<Student>, i: nat, j: nat)
    requires forall k :: 0 <= k < |enrollments| ==> exists u :: u in existing + created && u.itsc == enrollments[k].itsc
    requires forall u, v :: u in existing + created && v in existing + created && u.itsc != v.itsc ==> u.id != v.id
    requires i < |enrollments| && j < |enrollments| && enrollments[i].itsc != enrollments[j].itsc
    requires ',' !in enrollments[i].course && ',' !in enrollments[j].course
    ensures var r := NewData(semester, enrollments, existing, created);
      r.Some? && KeyOf(r.value[i]) != KeyOf(r.value[j])
  {
    NewDataKeysEveryone(semester, enrollments, existing, created);
    var r := NewData(semester, enrollments, existing, created).value;
    var u :| u in existing + created && u.itsc == enrollments[i].itsc && r[i].sid == NatToString(u.id);
    var v :| v in existing + created && v.itsc == enrollments[j].itsc && r[j].sid == NatToString(v.id);
    NatToStringInjective(u.id, v.id);
    assert ',' !in r[i].sid by {
      assert forall k :: 0 <= k < |r[i].sid| ==> IsDigit(r[i].sid[k]);
    }
    assert ',' !in r[j].sid by {
      assert forall k :: 0 <= k < |r[j].sid| ==> IsDigit(r[j].sid[k]);
    }
    KeyInjective(r[i], r[j]);
  }
}
