/**
 * The decisions taken by the HTTP handlers of `src/index.ts`: the identity
 * claims returned to the GraphQL engine, when an assignment's grading event is
 * (re)scheduled, when a scheduled grading task is still current enough to be
 * queued, and when a freshly decompressed submission is queued for grading.
 * Routing, the session store, signature checks and the job queue are not
 * modelled: what they return is an input, what is pushed is the result.
 */
module Webhook {
  import opened Results
  import opened Strings
  import opened Decompression

  // ---------------------------------------------------------------------------
  // /identity
  // ---------------------------------------------------------------------------

  /** The decimal course ids, in order. */
  function CourseIdStrings(ids: seq<nat>): (r: seq<string>)
    ensures |r| == |ids|
    ensures forall i :: 0 <= i < |r| ==> r[i] == NatToString(ids[i])
  {
    seq(|ids|, i requires 0 <= i < |ids| => NatToString(ids[i]))
  }

  /** `X-Hasura-Allowed-Courses`: a PostgreSQL array literal `{id,id,...}` of the user's courses. */
  function AllowedCourses(ids: seq<nat>): string
  {
    "{" + Join(CourseIdStrings(ids), ",") + "}"
  }

  /** Reads the decimal numbers of a comma-split list back. */
  function ParseIds(parts: seq<string>): (r: Option<seq<nat>>)
    ensures r.Some? ==> |r.value| == |parts|
  {
    if |parts| == 0 then Some([])
    else
      match (ParseInt(parts[0]), ParseIds(parts[1..]))
      case (Some(id), Some(rest)) => Some([id] + rest)
      case _ => None
  }

  /** How a reader of the claim recovers the course ids from the array literal. */
  function ParseAllowedCourses(s: string): Option<seq<nat>>
  {
    if |s| < 2 || s[0] != '{' || s[|s| - 1] != '}' then None
    else if |s| == 2 then Some([])
    else ParseIds(Split(s[1..|s| - 1], ","))
  }

  lemma {:induction false} ParseIdsOfRendered(ids: seq<nat>)
    ensures ParseIds(CourseIdStrings(ids)) == Some(ids)
    decreases |ids|
  {
    if |ids| > 0 {
      var parts := CourseIdStrings(ids);
      assert parts[1..] == CourseIdStrings(ids[1..]);
      ParseIdsOfRendered(ids[1..]);
      ParseIntNatToString(ids[0]);
      assert [ids[0]] + ids[1..] == ids;
    }
  }

  /** The allowed-courses claim names exactly the user's course ids, in order. */
  lemma AllowedCoursesRoundTrip(ids: seq<nat>)
    ensures ParseAllowedCourses(AllowedCourses(ids)) == Some(ids)
  {
    var parts := CourseIdStrings(ids);
    var joined := Join(parts, ",");
    var s := AllowedCourses(ids);
    assert s[1..|s| - 1] == joined;
    if |ids| > 0 {
      forall k | 0 <= k < |parts|
        ensures Free(parts[k], ",")
      {
        assert forall i :: 0 <= i < |parts[k]| ==> IsDigit(parts[k][i]);
        FreeOfChar(parts[k], ',');
      }
      SplitJoin(parts, ",");
      ParseIdsOfRendered(ids);
    }
  }

  /**
   * The claims payload: the user id, the role, the allowed courses for a
   * non-admin only, and the request time.
   */
  function IdentityPayload(itsc: string, isAdmin: bool, courseIds: seq<nat>, requestedAt: string): (p: map<string, string>)
    ensures "X-Hasura-Role" in p && (p["X-Hasura-Role"] == "admin" <==> isAdmin)
    ensures "X-Hasura-User-Id" in p && p["X-Hasura-User-Id"] == itsc
    ensures "X-Hasura-Allowed-Courses" in p <==> !isAdmin
    ensures !isAdmin ==> ParseAllowedCourses(p["X-Hasura-Allowed-Courses"]) == Some(courseIds)
    ensures p.Keys <= {"X-Hasura-User-Id", "X-Hasura-Role", "X-Hasura-Allowed-Courses", "X-Hasura-Requested-At"}
  {
    var base := map["X-Hasura-User-Id" := itsc, "X-Hasura-Role" := if isAdmin then "admin" else "user"];
    var claims := if isAdmin then base else base["X-Hasura-Allowed-Courses" := AllowedCourses(courseIds)];
    AllowedCoursesRoundTrip(courseIds);
    claims["X-Hasura-Requested-At" := requestedAt]
  }

  /** What signature verification yields for the stored session. */
  datatype Identity = Identity(name: string, itsc: string)

  /** What the user lookup yields: the admin flag and the ids of the user's courses. */
  datatype UserRecord = UserRecord(isAdmin: bool, courseIds: seq<nat>)

  datatype IdentityResponse =
    | Claims(payload: map<string, string>)
    | Unauthorized(text: string)
    | ServerError(message: string)

  /**
   * The `/identity` handler on the request's cookies. `sessions` stands for
   * hashing the `appSession` cookie and reading the store (nothing stored is
   * `None`); `authenticate` for reading the id token from the stored session
   * and verifying it against the `client` and `domain` cookies; `lookupUser`
   * for the user query. Their failures are thrown and answered with status 500.
   */
  function IdentityResponseOf(
    cookies: map<string, string>,
    sessions: string -> Option<string>,
    authenticate: (string, Option<string>, Option<string>) -> Result<Identity>,
    lookupUser: Identity -> Result<UserRecord>,
    requestedAt: string): (r: IdentityResponse)
  {
    if |cookies| > 0 && "appSession" in cookies then
      var stored := sessions(cookies["appSession"]);
      if stored.Some? && stored.value != "" then
        var client := if "client" in cookies then Some(cookies["client"]) else None;
        var domain := if "domain" in cookies then Some(cookies["domain"]) else None;
        match authenticate(stored.value, client, domain)
        case Err(message) => ServerError(message)
        case Ok(identity) =>
          match lookupUser(identity)
          case Err(message) => ServerError(message)
          case Ok(user) => Claims(IdentityPayload(identity.itsc, user.isAdmin, user.courseIds, requestedAt))
      else Unauthorized("Could not find request session with auth credentials")
    else Unauthorized("Unauthorized")
  }

  /**
   * The 401 answers: plain "Unauthorized" exactly when there is no
   * `appSession` cookie (the cookie-count test adds nothing to that), and the
   * missing-session text exactly when the cookie is there but no non-empty
   * session is stored for it.
   */
  lemma IdentityUnauthorized(
    cookies: map<string, string>,
    sessions: string -> Option<string>,
    authenticate: (string, Option<string>, Option<string>) -> Result<Identity>,
    lookupUser: Identity -> Result<UserRecord>,
    requestedAt: string)
    ensures var r := IdentityResponseOf(cookies, sessions, authenticate, lookupUser, requestedAt);
      && (r == Unauthorized("Unauthorized") <==> "appSession" !in cookies)
      && (r == Unauthorized("Could not find request session with auth credentials") <==>
            "appSession" in cookies && (sessions(cookies["appSession"]).None? || sessions(cookies["appSession"]).value == ""))
  {
    if "appSession" in cookies {
      assert "appSession" in cookies.Keys;
    }
  }

  /**
   * Claims are only ever returned for a stored session whose token verified,
   * and they name the verified user with the role and courses of the lookup.
   */
  lemma IdentityClaims(
    cookies: map<string, string>,
    sessions: string -> Option<string>,
    authenticate: (string, Option<string>, Option<string>) -> Result<Identity>,
    lookupUser: Identity -> Result<UserRecord>,
    requestedAt: string)
    requires IdentityResponseOf(cookies, sessions, authenticate, lookupUser, requestedAt).Claims?
    ensures "appSession" in cookies
    ensures var stored := sessions(cookies["appSession"]);
      && stored.Some?
      && var client := if "client" in cookies then Some(cookies["client"]) else None;
         var domain := if "domain" in cookies then Some(cookies["domain"]) else None;
         var identity := authenticate(stored.value, client, domain);
         && identity.Ok?
         && lookupUser(identity.value).Ok?
         && var p := IdentityResponseOf(cookies, sessions, authenticate, lookupUser, requestedAt).payload;
            && p["X-Hasura-User-Id"] == identity.value.itsc
            && (p["X-Hasura-Role"] == "admin" <==> lookupUser(identity.value).value.isAdmin)
            && ("X-Hasura-Allowed-Courses" in p <==> !lookupUser(identity.value).value.isAdmin)
  {
  }

  // ---------------------------------------------------------------------------
  // /trigger/scheduleGrading
  // ---------------------------------------------------------------------------

  /** The assignment-config columns the trigger reads. */
  datatype ConfigRow = ConfigRow(id: nat, stopCollectionAt: Option<string>)

  /** A call of `scheduleGradingEvent`. */
  datatype ScheduleRequest = ScheduleRequest(assignmentConfigId: nat, stopCollectionAt: Option<string>)

  datatype ScheduleOutcome =
    | Schedule(request: ScheduleRequest)
    | NothingToSchedule
    | MissingOldRow     // an UPDATE event without an old row: reading its deadline throws

  /**
   * The `/trigger/scheduleGrading` decision: an INSERT schedules the new
   * row's deadline, an UPDATE does so only when the deadline changed, any
   * other operation schedules nothing.
   */
  function ScheduleDecision(op: string, oldRow: Option<ConfigRow>, newRow: ConfigRow): (r: ScheduleOutcome)
    ensures r.Schedule? ==> r.request == ScheduleRequest(newRow.id, newRow.stopCollectionAt)
    ensures r.Schedule? <==>
      op == "INSERT" || (op == "UPDATE" && oldRow.Some? && oldRow.value.stopCollectionAt != newRow.stopCollectionAt)
    ensures r.MissingOldRow? <==> op == "UPDATE" && oldRow.None?
  {
    if op == "UPDATE" && oldRow.None? then MissingOldRow
    else if (op == "UPDATE" && oldRow.value.stopCollectionAt != newRow.stopCollectionAt) || op == "INSERT" then
      Schedule(ScheduleRequest(newRow.id, newRow.stopCollectionAt))
    else NothingToSchedule
  }

  /** An update that keeps the deadline, and every delete, schedules nothing. */
  lemma UnchangedDeadlineNotRescheduled(op: string, oldRow: ConfigRow, newRow: ConfigRow)
    requires (op == "UPDATE" && oldRow.stopCollectionAt == newRow.stopCollectionAt) || op == "DELETE"
    ensures ScheduleDecision(op, Some(oldRow), newRow) == NothingToSchedule
  {
  }

  // ---------------------------------------------------------------------------
  // /trigger/gradingTask
  // ---------------------------------------------------------------------------

  /** One submission of a grading job. */
  datatype JobSubmission = JobSubmission(id: nat, extractedPath: string, createdAt: string)

  /** The `initiatedBy` field: left out of the payload, JSON `null`, or a user. */
  datatype Initiator = Absent | Null | By(user: string)

  /** The payload of a `gradingTask` job pushed onto the job queue. */
  datatype GradingJob = GradingJob(
    submissions: seq<JobSubmission>, assignmentConfigId: nat, isTest: bool, initiatedBy: Initiator)

  /** What `getGradingSubmissions` returns: the submissions to grade and the deadline stored now. */
  datatype GradingSubmissions = GradingSubmissions(submissions: seq<JobSubmission>, stopCollectionAt: Option<string>)

  /**
   * The `/trigger/gradingTask` decision: the job is queued only when the
   * deadline carried by the scheduled event is still the stored one.
   */
  function GradingTaskJob(assignmentConfigId: nat, eventStopCollectionAt: Option<string>, current: GradingSubmissions): (j: Option<GradingJob>)
    ensures j.Some? <==> current.stopCollectionAt == eventStopCollectionAt
    ensures j.Some? ==> j.value == GradingJob(current.submissions, assignmentConfigId, false, Absent)
  {
    if current.stopCollectionAt == eventStopCollectionAt then
      Some(GradingJob(current.submissions, assignmentConfigId, false, Absent))
    else None
  }

  /**
   * Stale events are dropped: when an update moved the deadline after an
   * event had been scheduled, the earlier event queues nothing and the event
   * the update scheduled queues the job. Of the two, exactly one fires.
   */
  lemma RescheduledEventSupersedes(
    inserted: ConfigRow, updated: ConfigRow, submissions: seq<JobSubmission>)
    requires inserted.id == updated.id && inserted.stopCollectionAt != updated.stopCollectionAt
    ensures ScheduleDecision("INSERT", None, inserted) == Schedule(ScheduleRequest(inserted.id, inserted.stopCollectionAt))
    ensures ScheduleDecision("UPDATE", Some(inserted), updated) == Schedule(ScheduleRequest(updated.id, updated.stopCollectionAt))
    ensures var current := GradingSubmissions(submissions, updated.stopCollectionAt);
      && GradingTaskJob(inserted.id, inserted.stopCollectionAt, current).None?
      && GradingTaskJob(updated.id, updated.stopCollectionAt, current) == Some(GradingJob(submissions, updated.id, false, Absent))
  {
  }

  /** Against one stored deadline, events carrying different deadlines never both queue a job. */
  lemma AtMostOneCurrentEvent(id: nat, stop1: Option<string>, stop2: Option<string>, current: GradingSubmissions)
    requires stop1 != stop2
    ensures GradingTaskJob(id, stop1, current).None? || GradingTaskJob(id, stop2, current).None?
  {
  }

  // ---------------------------------------------------------------------------
  // /trigger/decompression
  // ---------------------------------------------------------------------------

  datatype DecompressionOutcome =
    | Enqueue(job: GradingJob)
    | NoGrading
    | ExtractionFailed(failure: ExtractFailure)
    | NoPolicy      // the policy came back undefined and destructuring it throws

  /**
   * The `/trigger/decompression` handler: decompress, read the grading
   * policy from the submitter's course rows, and queue the submission at
   * `extracted/<id>` when the assignment grades immediately.
   */
  function DecompressionTrigger(
    id: nat, assignmentConfigId: nat, createdAt: string, uploadName: string,
    extract: Format -> Option<ExtractFailure>, gradeImmediately: bool, permissions: seq<int>): (o: DecompressionOutcome)
  {
    var d := Decompress(id, uploadName, extract);
    if d.failure.Some? then ExtractionFailed(d.failure.value)
    else
      match PolicyOf(gradeImmediately, permissions)
      case None => NoPolicy
      case Some(policy) =>
        if policy.gradeImmediately then
          Enqueue(GradingJob([JobSubmission(id, ExtractedPath(id), createdAt)], assignmentConfigId, policy.isTest, Null))
        else NoGrading
  }

  /**
   * A job is queued exactly when extraction succeeded, the submitter has a
   * course row, and the assignment grades immediately; it carries the one
   * submission at the path the row was updated with, and is a test run
   * exactly when the submitter's permission exceeds a student's.
   */
  lemma DecompressionEnqueues(
    id: nat, assignmentConfigId: nat, createdAt: string, uploadName: string,
    extract: Format -> Option<ExtractFailure>, gradeImmediately: bool, permissions: seq<int>)
    ensures var o := DecompressionTrigger(id, assignmentConfigId, createdAt, uploadName, extract, gradeImmediately, permissions);
      var d := Decompress(id, uploadName, extract);
      && (o.Enqueue? <==> d.failure.None? && |permissions| > 0 && gradeImmediately)
      && (o.Enqueue? ==>
            && d.update.extractedPath.Some?
            && o.job.submissions == [JobSubmission(id, d.update.extractedPath.value, createdAt)]
            && o.job.assignmentConfigId == assignmentConfigId
            && (o.job.isTest <==> permissions[0] > 1)
            && o.job.initiatedBy == Null)
      && (o.ExtractionFailed? <==> d.failure.Some?)
  {
  }
}
