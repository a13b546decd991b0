/**
 * Post-grading report censoring of `src/lib/grading.ts`. `generateReportArtifacts`
 * walks the stages of a pipeline result; the `valgrind` and `stdioTest` stages
 * have their reports censored in place according to each report's visibility and
 * whether the result is final, the `score` stage provides the grade, and every
 * other stage is copied as it is. `getSelectedSubmissions` picks one of two
 * queries depending on whether submissions were selected.
 */
module Grading {
  import opened Results
  import opened Collections

  const AlwaysHidden := "ALWAYS_HIDDEN"
  const VisibleAfterGrading := "VISIBLE_AFTER_GRADING"
  const VisibleAfterGradingIfFailed := "VISIBLE_AFTER_GRADING_IF_FAILED"
  const AlwaysVisible := "ALWAYS_VISIBLE"

  const ValgrindStage := "valgrind"
  const StdioTestStage := "stdioTest"
  const ScoreStage := "score"

  /** The censorable contents of a stage report, with the two fields the rules read. */
  datatype ReportView = ReportView(visibility: string, isCorrect: bool,
                                   stdout: seq<string>, errors: seq<string>, expected: seq<string>, diff: seq<string>)

  /**
   * A stage report as parsed from the pipeline result. The rules empty its
   * output fields in place; a score report gets its `details` set.
   */
  class Report {
    const visibility: string
    const isCorrect: bool
    var stdout: seq<string>
    var errors: seq<string>
    var expected: seq<string>
    var diff: seq<string>
    /** The score reports attached to a grade (opaque text; `None` when unset). */
    var details: Option<string>

    constructor(visibility: string, isCorrect: bool, stdout: seq<string>, errors: seq<string>,
                expected: seq<string>, diff: seq<string>)
      ensures View() == ReportView(visibility, isCorrect, stdout, errors, expected, diff)
      ensures details == None
    {
      this.visibility := visibility;
      this.isCorrect := isCorrect;
      this.stdout := stdout;
      this.errors := errors;
      this.expected := expected;
      this.diff := diff;
      details := None;
    }

    function View(): ReportView
      reads this
    {
      ReportView(visibility, isCorrect, stdout, errors, expected, diff)
    }
  }

  // ---------------------------------------------------------------------------
  // The censoring rules
  // ---------------------------------------------------------------------------

  /**
   * Whether a report is withheld: always when it is ALWAYS_HIDDEN, and for both
   * after-grading visibilities while the result is not final or when the test
   * failed. ALWAYS_VISIBLE and any other visibility are never withheld.
   */
  predicate Withheld(visibility: string, isFinal: bool, isCorrect: bool)
  {
    visibility == AlwaysHidden ||
    ((visibility == VisibleAfterGrading || visibility == VisibleAfterGradingIfFailed) && (!isFinal || !isCorrect))
  }

  /** The valgrind rules: a withheld report loses its output and its errors. */
  function ValgrindRules(v: ReportView, isFinal: bool): (w: ReportView)
    ensures w.visibility == v.visibility && w.isCorrect == v.isCorrect
    ensures w.expected == v.expected && w.diff == v.diff
  {
    if Withheld(v.visibility, isFinal, v.isCorrect) then v.(stdout := [], errors := []) else v
  }

  /**
   * The stdioTest rules: an ALWAYS_HIDDEN report loses its output, expected
   * output and diff; another withheld report loses only the expected output and
   * the diff.
   */
  function StdioRules(v: ReportView, isFinal: bool): (w: ReportView)
    ensures w.visibility == v.visibility && w.isCorrect == v.isCorrect && w.errors == v.errors
  {
    if v.visibility == AlwaysHidden then v.(stdout := [], expected := [], diff := [])
    else if Withheld(v.visibility, isFinal, v.isCorrect) then v.(expected := [], diff := [])
    else v
  }

  /**
   * What a stage does to one of its reports. The valgrind case has no `break`,
   * so its reports get the valgrind rules and then the stdioTest rules; the
   * score stage and every other stage leave their reports alone.
   */
  function StageRule(stage: string, v: ReportView, isFinal: bool): ReportView
  {
    if stage == ValgrindStage then StdioRules(ValgrindRules(v, isFinal), isFinal)
    else if stage == StdioTestStage then StdioRules(v, isFinal)
    else v
  }

  /** `ALWAYS_HIDDEN` in stdioTest: output, expected output and diff are all emptied. */
  lemma StdioAlwaysHidden(v: ReportView, isFinal: bool)
    requires v.visibility == AlwaysHidden
    ensures var w := StdioRules(v, isFinal);
      w.stdout == [] && w.expected == [] && w.diff == [] && w.errors == v.errors
  {
  }

  /** `VISIBLE_AFTER_GRADING` before the result is final: expected output and diff emptied, output kept. */
  lemma StdioBeforeFinal(v: ReportView)
    requires v.visibility == VisibleAfterGrading
    ensures StdioRules(v, false) == v.(expected := [], diff := [])
  {
  }

  /**
   * On a final result, `VISIBLE_AFTER_GRADING` falls through to the
   * if-failed rule: the report is censored exactly when the test failed. The
   * two after-grading visibilities therefore behave identically under both rule
   * sets, final or not.
   */
  lemma AfterGradingActsAsIfFailed(v: ReportView, isFinal: bool)
    requires v.visibility == VisibleAfterGrading
    ensures StdioRules(v, true) == (if v.isCorrect then v else v.(expected := [], diff := []))
    ensures StdioRules(v, isFinal) == StdioRules(v.(visibility := VisibleAfterGradingIfFailed), isFinal).(visibility := v.visibility)
    ensures ValgrindRules(v, isFinal) == ValgrindRules(v.(visibility := VisibleAfterGradingIfFailed), isFinal).(visibility := v.visibility)
  {
  }

  /** `ALWAYS_VISIBLE` and any unknown visibility leave a report unchanged at every stage. */
  lemma VisibleUnchanged(stage: string, v: ReportView, isFinal: bool)
    requires v.visibility != AlwaysHidden && v.visibility != VisibleAfterGrading && v.visibility != VisibleAfterGradingIfFailed
    ensures StageRule(stage, v, isFinal) == v
  {
  }

  /** A correct report of a final result is never censored. */
  lemma FinalCorrectUncensored(stage: string, v: ReportView)
    requires v.visibility != AlwaysHidden && v.isCorrect
    ensures StageRule(stage, v, true) == v
  {
  }

  /**
   * A valgrind report ends up with the union of both rule sets: output and
   * errors are emptied exactly when it is withheld, and so are the expected
   * output and the diff from the stdioTest rules.
   */
  lemma ValgrindStageOutcome(v: ReportView, isFinal: bool)
    ensures var w := StageRule(ValgrindStage, v, isFinal);
      var hidden := Withheld(v.visibility, isFinal, v.isCorrect);
      && w.visibility == v.visibility && w.isCorrect == v.isCorrect
      && w.stdout == (if hidden then [] else v.stdout)
      && w.errors == (if hidden then [] else v.errors)
      && w.expected == (if hidden then [] else v.expected)
      && w.diff == (if hidden then [] else v.diff)
  {
  }

  /** Censoring twice is censoring once, at every stage. */
  lemma StageRuleIdempotent(stage: string, v: ReportView, isFinal: bool)
    ensures StageRule(stage, StageRule(stage, v, isFinal), isFinal) == StageRule(stage, v, isFinal)
  {
  }

  /** One `switch (report.visibility)` of the valgrind `map`, with its fallthroughs. */
  method CensorValgrind(r: Report, isFinal: bool)
    modifies r
    ensures r.View() == ValgrindRules(old(r.View()), isFinal)
    ensures r.details == old(r.details)
  {
    if r.visibility == AlwaysHidden {
      r.stdout := [];
      r.errors := [];
      return;
    }
    if r.visibility == VisibleAfterGrading && !isFinal {
      r.stdout := [];
      r.errors := [];
      return;
    }
    if (r.visibility == VisibleAfterGrading || r.visibility == VisibleAfterGradingIfFailed) && (!isFinal || !r.isCorrect) {
      r.stdout := [];
      r.errors := [];
      return;
    }
  }

  /** One `switch (report.visibility)` of the stdioTest `map`, with its fallthroughs. */
  method CensorStdio(r: Report, isFinal: bool)
    modifies r
    ensures r.View() == StdioRules(old(r.View()), isFinal)
    ensures r.details == old(r.details)
  {
    if r.visibility == AlwaysHidden {
      r.stdout := [];
      r.expected := [];
      r.diff := [];
      return;
    }
    if r.visibility == VisibleAfterGrading && !isFinal {
      r.expected := [];
      r.diff := [];
      return;
    }
    if (r.visibility == VisibleAfterGrading || r.visibility == VisibleAfterGradingIfFailed) && (!isFinal || !r.isCorrect) {
      r.expected := [];
      r.diff := [];
      return;
    }
  }

  /** `stageReports[stage].map(...)` with the valgrind rules: every report censored in place, in order. */
  method MapValgrind(reports: seq<Report>, isFinal: bool)
    requires NoDuplicates(reports)
    modifies set r | r in reports
    ensures forall k :: 0 <= k < |reports| ==> reports[k].View() == ValgrindRules(old(reports[k].View()), isFinal)
    ensures forall k :: 0 <= k < |reports| ==> reports[k].details == old(reports[k].details)
  {
    for i := 0 to |reports|
      invariant forall k :: 0 <= k < i ==> reports[k].View() == ValgrindRules(old(reports[k].View()), isFinal)
      invariant forall k :: i <= k < |reports| ==> reports[k].View() == old(reports[k].View())
      invariant forall k :: 0 <= k < |reports| ==> reports[k].details == old(reports[k].details)
    {
      CensorValgrind(reports[i], isFinal);
    }
  }

  /** `stageReports[stage].map(...)` with the stdioTest rules. */
  method MapStdio(reports: seq<Report>, isFinal: bool)
    requires NoDuplicates(reports)
    modifies set r | r in reports
    ensures forall k :: 0 <= k < |reports| ==> reports[k].View() == StdioRules(old(reports[k].View()), isFinal)
    ensures forall k :: 0 <= k < |reports| ==> reports[k].details == old(reports[k].details)
  {
    for i := 0 to |reports|
      invariant forall k :: 0 <= k < i ==> reports[k].View() == StdioRules(old(reports[k].View()), isFinal)
      invariant forall k :: i <= k < |reports| ==> reports[k].View() == old(reports[k].View())
      invariant forall k :: 0 <= k < |reports| ==> reports[k].details == old(reports[k].details)
    {
      CensorStdio(reports[i], isFinal);
    }
  }

  /**
   * One case of the stage `switch`: valgrind runs its own `map` and falls into
   * the stdioTest `map` over the same (already censored) reports; stdioTest runs
   * only its own; the other stages touch nothing.
   */
  method CensorStage(stage: string, reports: seq<Report>, isFinal: bool)
    requires NoDuplicates(reports)
    modifies set r | r in reports
    ensures forall k :: 0 <= k < |reports| ==> reports[k].View() == StageRule(stage, old(reports[k].View()), isFinal)
    ensures forall k :: 0 <= k < |reports| ==> reports[k].details == old(reports[k].details)
  {
    if stage == ValgrindStage {
      MapValgrind(reports, isFinal);
      MapStdio(reports, isFinal);
    } else if stage == StdioTestStage {
      MapStdio(reports, isFinal);
    }
  }

  // ---------------------------------------------------------------------------
  // generateReportArtifacts
  // ---------------------------------------------------------------------------

  /**
   * What `generateReportArtifacts` ends with: nothing when there are no
   * stages, the artifacts mutation it sends, or the error of setting `details`
   * on an undefined grade.
   */
  datatype Artifacts =
    | NothingToSend
    | Send(reportId: nat, sanitizedReports: map<string, seq<Report>>, grade: Option<Report>)
    | GradeUndefined

  /** Every report object of every stage. */
  ghost function AllReports(stageReports: map<string, seq<Report>>): set<Report>
  {
    set s, r | s in stageReports && r in stageReports[s] :: r
  }

  /** No report object is listed twice, within a stage or across stages, as for parsed JSON. */
  ghost predicate Unshared(stageReports: map<string, seq<Report>>)
  {
    forall s, t, i, j ::
      (s in stageReports && t in stageReports && 0 <= i < |stageReports[s]| && 0 <= j < |stageReports[t]| && (s != t || i != j))
      ==> stageReports[s][i] != stageReports[t][j]
  }

  lemma InAllReports(stageReports: map<string, seq<Report>>, s: string, k: nat)
    requires s in stageReports && k < |stageReports[s]|
    ensures stageReports[s][k] in AllReports(stageReports)
  {
    assert stageReports[s][k] in stageReports[s];
  }

  /**
   * One stage of the loop, seen from the whole pipeline result: the stage's own
   * reports are censored by its rule and, as no report is shared, every other
   * stage's reports are left as they were.
   */
  method CensorStageIn(stageReports: map<string, seq<Report>>, stage: string, isFinal: bool)
    requires stage in stageReports && Unshared(stageReports)
    modifies set r | r in stageReports[stage]
    ensures forall s, k :: s in stageReports && 0 <= k < |stageReports[s]| ==>
      stageReports[s][k].View() == (if s == stage then StageRule(s, old(stageReports[s][k].View()), isFinal)
                                    else old(stageReports[s][k].View()))
    ensures forall s, k :: s in stageReports && 0 <= k < |stageReports[s]| ==>
      stageReports[s][k].details == old(stageReports[s][k].details)
  {
    var reports := stageReports[stage];
    assert NoDuplicates(reports) by {
      forall a, b | 0 <= a < b < |reports|
        ensures reports[a] != reports[b]
      {
      }
    }
    CensorStage(stage, reports, isFinal);
  }

  /** The stage reports sent back: every stage but `score`, each with its (censored) report list. */
  function Sanitized(stageReports: map<string, seq<Report>>): (m: map<string, seq<Report>>)
    ensures m.Keys == stageReports.Keys - {ScoreStage}
  {
    map s | s in stageReports && s != ScoreStage :: stageReports[s]
  }

  /** `const [score] = stageReports.score`: the first score report, undefined when there is none. */
  function ScoreOf(stageReports: map<string, seq<Report>>): (g: Option<Report>)
    ensures g.Some? <==> ScoreStage in stageReports && |stageReports[ScoreStage]| > 0
  {
    if ScoreStage in stageReports && |stageReports[ScoreStage]| > 0 then Some(stageReports[ScoreStage][0]) else None
  }

  /** The outcome of `generateReportArtifacts` before any report is touched. */
  function ArtifactsOutcome(reportId: nat, stageCount: nat, stageReports: map<string, seq<Report>>,
                            scoreReports: Option<string>): (out: Artifacts)
    ensures out.NothingToSend? <==> stageCount == 0
    ensures out.GradeUndefined? <==> stageCount > 0 && scoreReports.Some? && ScoreOf(stageReports).None?
    ensures out.Send? ==> out.grade == ScoreOf(stageReports) && ScoreStage !in out.sanitizedReports
  {
    if stageCount == 0 then NothingToSend
    else if scoreReports.Some? && ScoreOf(stageReports).None? then GradeUndefined
    else Send(reportId, Sanitized(stageReports), ScoreOf(stageReports))
  }

  /**
   * `generateReportArtifacts(report)`: `stages` is `Object.keys(stageReports)`.
   * Every report is censored in place by its stage's rule; the grade gets the
   * score reports as `details` when both exist. With no stages nothing at all
   * happens.
   */
  method GenerateReportArtifacts(reportId: nat, isFinal: bool, stages: seq<string>,
                                 stageReports: map<string, seq<Report>>, scoreReports: Option<string>)
    returns (out: Artifacts)
    requires NoDuplicates(stages) && forall s :: s in stages <==> s in stageReports
    requires Unshared(stageReports)
    modifies AllReports(stageReports)
    ensures out == ArtifactsOutcome(reportId, |stages|, stageReports, scoreReports)
    ensures forall s, k :: s in stageReports && 0 <= k < |stageReports[s]| ==>
      stageReports[s][k].View() == StageRule(s, old(stageReports[s][k].View()), isFinal)
    ensures forall s, k :: s in stageReports && 0 <= k < |stageReports[s]| ==>
      stageReports[s][k].details ==
        (if out.Send? && scoreReports.Some? && out.grade == Some(stageReports[s][k]) then scoreReports
         else old(stageReports[s][k].details))
  {
    if |stages| == 0 {
      return NothingToSend;
    }
    var censored, grade := CensorStages(stages, stageReports, isFinal);
    if scoreReports.Some? {
      if grade.None? {
        return GradeUndefined;
      }
      grade.value.details := scoreReports;
    }
    out := Send(reportId, censored, grade);
  }

  /** The `for (const stage of stages)` loop: censors every stage and collects the copies and the grade. */
  method CensorStages(stages: seq<string>, stageReports: map<string, seq<Report>>, isFinal: bool)
    returns (censored: map<string, seq<Report>>, grade: Option<Report>)
    requires NoDuplicates(stages) && forall s :: s in stages <==> s in stageReports
    requires Unshared(stageReports)
    modifies AllReports(stageReports)
    ensures censored == Sanitized(stageReports) && grade == ScoreOf(stageReports)
    ensures grade.Some? ==> grade.value in AllReports(stageReports)
    ensures forall s, k :: s in stageReports && 0 <= k < |stageReports[s]| ==>
      stageReports[s][k].View() == StageRule(s, old(stageReports[s][k].View()), isFinal)
    ensures forall s, k :: s in stageReports && 0 <= k < |stageReports[s]| ==>
      stageReports[s][k].details == old(stageReports[s][k].details)
  {
    censored := map[];
    grade := None;
    ghost var done: set<string> := {};
    for i := 0 to |stages|
      invariant done == set j | 0 <= j < i :: stages[j]
      invariant censored == map s | s in done && s != ScoreStage :: stageReports[s]
      invariant grade == (if ScoreStage in done then ScoreOf(stageReports) else None)
      invariant grade.Some? ==> grade.value in AllReports(stageReports)
      invariant forall s, k :: s in stageReports && 0 <= k < |stageReports[s]| ==>
        stageReports[s][k].View() == (if s in done then StageRule(s, old(stageReports[s][k].View()), isFinal)
                                      else old(stageReports[s][k].View()))
      invariant forall s, k :: s in stageReports && 0 <= k < |stageReports[s]| ==>
        stageReports[s][k].details == old(stageReports[s][k].details)
    {
      var stage := stages[i];
      var reports := stageReports[stage];
      assert stage !in done;
      CensorStageIn(stageReports, stage, isFinal);
      if stage == ScoreStage {
        grade := if |reports| > 0 then Some(reports[0]) else None;
        if |reports| > 0 {
          InAllReports(stageReports, stage, 0);
        }
      } else {
        censored := censored[stage := reports];
      }
      done := done + {stage};
    }
    assert done == stageReports.Keys;
  }

  // ---------------------------------------------------------------------------
  // getSelectedSubmissions
  // ---------------------------------------------------------------------------

  datatype SubmissionsQuery = LatestSubmissionsForAssignmentConfig | SelectedSubmissions

  /** The query and its variables; a variable absent from the request is `None`. */
  datatype SubmissionsRequest = SubmissionsRequest(
    query: SubmissionsQuery, assignmentConfigId: Option<nat>, submissions: Option<seq<nat>>)

  /** `getSelectedSubmissions`: the payload it sends. */
  function SelectedSubmissionsRequest(submissions: seq<nat>, assignmentConfigId: nat): (q: SubmissionsRequest)
    ensures q.query == LatestSubmissionsForAssignmentConfig <==> |submissions| == 0
    ensures q.assignmentConfigId.Some? <==> |submissions| == 0
    ensures q.submissions.Some? <==> |submissions| != 0
    ensures q.assignmentConfigId.Some? ==> q.assignmentConfigId.value == assignmentConfigId
    ensures q.submissions.Some? ==> q.submissions.value == submissions
  {
    SubmissionsRequest(
      if |submissions| == 0 then LatestSubmissionsForAssignmentConfig else SelectedSubmissions,
      if |submissions| == 0 then Some(assignmentConfigId) else None,
      if |submissions| != 0 then Some(submissions) else None)
  }

  /** The reply of either query: the config's submissions, or the selected ones. */
  datatype SubmissionsReply = SubmissionsReply(configSubmissions: seq<nat>, selected: seq<nat>)

  /** What `getSelectedSubmissions` returns from the reply to the query it chose. */
  function SelectedSubmissionsResult(submissions: seq<nat>, reply: SubmissionsReply): (r: seq<nat>)
    ensures SelectedSubmissionsRequest(submissions, 0).query == LatestSubmissionsForAssignmentConfig ==> r == reply.configSubmissions
    ensures SelectedSubmissionsRequest(submissions, 0).query == SelectedSubmissions ==> r == reply.selected
  {
    if |submissions| == 0 then reply.configSubmissions else reply.selected
  }
}
