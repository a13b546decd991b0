# zinc webhook: a Dafny model

This project models the decision logic of the zinc webhook service and proves properties of it. The service is an Express server that receives events from the course database's GraphQL engine. It does the following:

- **Course enrolment sync.** It reads the student/course/section feed of the department's system. It then brings course and section membership in line with the feed: `src/lib/course.ts` does this by direct selection, `src/lib/course-new.ts` by diffing two enrolment snapshots.
- **Report censoring.** It censors grading reports by visibility before they are shown to students (`src/lib/grading.ts`).
- **Archive extraction.** It unpacks submitted archives (`src/lib/decompression.ts`).
- **Identity and grading events.** It answers the engine's identity requests, and it schedules and queues grading jobs (`src/index.ts`).

Remote calls are not executed. Each procedure that talks to the GraphQL engine is a class holding the log of the calls made so far, oldest first, and an oracle server. Every reply is a total function of the log so far and the request. So a method's contract states the exact calls it makes, as a function of the replies it got. Pure decisions are functions, and lemmas state what the source promises about them.

Modules and files:

| module | file | models |
|---|---|---|
| `Results` | results.dfy | `Option` and `Result` |
| `Strings` | strings.dfy | the JavaScript string operations used: `indexOf`, `lastIndexOf`, `split`, `join`, `replace`, `toUpperCase`, decimal text and `parseInt` |
| `Collections` | collections.dfy | `filter`, `[...new Set(xs)]`, membership of `map` |
| `Semester` | semester.dfy | `getSemesterNameAndYear` |
| `EnrolmentDiff` | enrolment_diff.dfy | `sortBySidThenCourse` with the in-place sort, `filterLabs`, the key and swap codecs, `toEnrolmentMap`, `diff` |
| `DiffProperties` | diff_properties.dfy | what `diff` promises: partition, self-diff, reversal, lab filter, applying the deltas, order independence |
| `NewData` | new_data.dfy | the record transform of `getNewData` |
| `DeltaApply` | delta_apply.dfy | `enrol`, `unenrol` and `swap` for one delta |
| `Feed` | feed.dfy | the feed parser of `getStudentCourseEnrollmentMap` (course.ts), with a render/parse round trip |
| `Selection` | selection.dfy | the filters inside `SyncEnrollment` (course.ts) |
| `CourseSync` | course_sync.dfy | `SyncEnrollment` and `getStudentUserIds` (course.ts) as call sequences |
| `Grading` | grading.dfy | `generateReportArtifacts` (reports censored in place), `getSelectedSubmissions` |
| `Decompression` | decompression.dfy | extension dispatch, the submission update, zip-entry handling, the output-root collapse, `getGradingPolicy` |
| `Webhook` | webhook.dfy | the `/identity`, `/trigger/scheduleGrading`, `/trigger/gradingTask` and `/trigger/decompression` decisions |

`course.ts` and `course-new.ts` carry identical copies of `getSemesterNameAndYear`. It is modelled once, from `course-new.ts`.

JavaScript's `localeCompare` depends on the locale. It is replaced by code-unit order: `EnrolmentDiff.CompareStrings` is a total order, and the sort's contract uses only its antisymmetry.

## Model

| member | source | states |
|---|---|---|
| Semester.YearSuffixOfFourDigits | src/lib/course-new.ts:6-7 | removing the first occurrence of the last two characters of a four-character id leaves its first two characters, even when the season code also occurs earlier |
| Semester.YearsOfTwoDigits | src/lib/course-new.ts:8-27 | for two digits `yy` the range is `20yy-n` with `n` the decimal of `yy + 1`; its first four characters are `20yy`; removing `yy-` leaves `20n` |
| Semester.SemesterNameAndYear | src/lib/course-new.ts:5-31 | the definition: season code from the last two characters, year suffix by removing its first occurrence, the year taken from the range by season; its closed form is proved by the three lemmas above |
| Semester.FourDigitSemester | src/lib/course-new.ts:5-31 | a four-digit id `yyss` is named `20yy-(yy+1) Season`; the year is `20yy` for Winter and Fall and `20(yy+1)` for Spring (30) and Summer (40) |
| EnrolmentDiff.KeyOf | src/lib/course-new.ts:616 | the definition of the key `sid,semester,course`; KeyRoundTrip and KeyInjective state what it promises |
| EnrolmentDiff.ExtractKey | src/lib/course-new.ts:623-625 | the definition of `extractKey`, the key split at commas; it inverts KeyOf by KeyRoundTrip |
| EnrolmentDiff.CompareStrings | src/lib/course-new.ts:605-606 | code-unit order standing in for `localeCompare`; CompareStringsAntisymmetric states its properties |
| EnrolmentDiff.SortBySidThenCourse | src/lib/course-new.ts:604-607 | the definition of the comparator; ComparatorAntisymmetric and SortInPlace state its use |
| EnrolmentDiff.EnrolmentMap | src/lib/course-new.ts:613-621 | the later-wins map, defined by folding `set` over the records; EnrolmentMapEntries/Keys/Last state its contents |
| EnrolmentDiff.DiffMaps | src/lib/course-new.ts:636-663 | the reference definition of the three deltas; SplitDeltas and the DiffProperties lemmas relate the code to it |
| EnrolmentDiff.DiffOf | src/lib/course-new.ts:629-672 | the reference definition of `diff` on records: lab filter, key, compare; Diff is proved to return it |
| EnrolmentDiff.FilterLabs | src/lib/course-new.ts:609-611 | keeps exactly the records whose section starts with "LA" |
| EnrolmentDiff.KeyRoundTrip | src/lib/course-new.ts:613-625 | `extractKey` of a record's `sid,semester,course` key gives back the three fields, and the semester parses back, when no field holds a comma |
| EnrolmentDiff.KeyInjective | src/lib/course-new.ts:616 | two comma-free records share a key exactly when they agree on student, semester and course |
| EnrolmentDiff.SwapRoundTrip | src/lib/course-new.ts:663 | splitting the swap value `old->new` at `->` gives back both sections when neither contains `->` |
| EnrolmentDiff.CompareStringsAntisymmetric | src/lib/course-new.ts:604-607 | the string order is antisymmetric and is zero exactly on equal strings |
| EnrolmentDiff.ComparatorAntisymmetric | src/lib/course-new.ts:604-607 | comparing by student then course is antisymmetric |
| EnrolmentDiff.SortInPlace | src/lib/course-new.ts:631-632 | after `data.sort(sortBySidThenCourse)` the array is sorted by the comparator and is a permutation of what it held |
| EnrolmentDiff.InsertIntoSorted | src/lib/course-new.ts:631-632 | one insertion step: a sorted prefix of length `i` becomes a sorted prefix of length `i+1`, and the contents are permuted |
| EnrolmentDiff.SwapDown | src/lib/course-new.ts:631-632 | exchanging an out-of-order neighbour moves the hole down by one and keeps the multiset |
| EnrolmentDiff.EnrolmentMapEntries | src/lib/course-new.ts:613-621 | the map holds exactly the records' keys, each valued by the section of the LAST record with that key |
| EnrolmentDiff.EnrolmentMapKeys | src/lib/course-new.ts:613-621 | a key is in the map exactly when some record has it |
| EnrolmentDiff.EnrolmentMapLast | src/lib/course-new.ts:613-621 | a key's value is the section of the last record with that key |
| EnrolmentDiff.ToEnrolmentMap | src/lib/course-new.ts:613-621 | the `forEach`/`set` loop builds exactly the later-wins map |
| EnrolmentDiff.EnrolmentMapOfConsistent | src/lib/course-new.ts:613-621 | when records with equal keys agree on the section, every record's key maps to its own section |
| EnrolmentDiff.EnrolmentMapOrderFree | src/lib/course-new.ts:613-621 | for such consistent records the map depends only on which records occur, not on their order |
| EnrolmentDiff.MoveEntries | src/lib/course-new.ts:639-650 | moving a key set out of a map: the moved part has exactly those keys, the rest the other keys, values unchanged |
| EnrolmentDiff.DiffMapsFromParts | src/lib/course-new.ts:636-663 | drops, adds and swaps with the defining membership and value properties are the diff of the two maps |
| EnrolmentDiff.RemainingKeysAgree | src/lib/course-new.ts:639-660 | after deleting drops from the old map and adds from the new one, both hold exactly the common keys, so their sizes agree |
| EnrolmentDiff.CollectSwaps | src/lib/course-new.ts:661-663 | the swaps are exactly the common keys whose sections differ, each valued `old->new` |
| EnrolmentDiff.SplitOffDropsAndAdds | src/lib/course-new.ts:636-650 | drops are the old keys absent from the new map with their old sections; adds the new keys absent from the old map with their new sections; the remainders share the common keys with their original values |
| EnrolmentDiff.SplitDeltas | src/lib/course-new.ts:636-671 | always succeeds with the diff of the two maps: the size-mismatch error cannot be raised |
| EnrolmentDiff.Diff | src/lib/course-new.ts:629-672 | `diff` sorts both arrays in place (sorted permutations) and returns the diff of their lab maps |
| DiffProperties.DeltasPartition | src/lib/course-new.ts:636-663 | drops, adds and swaps are pairwise disjoint, and every key of either map is in exactly one of them or is a common key with an unchanged section |
| DiffProperties.DiffOfSelf | src/lib/course-new.ts:629-672 | `diff(S, S)` yields three empty maps |
| DiffProperties.DiffMapsReversed | src/lib/course-new.ts:636-663 | exchanging the snapshots exchanges drops and adds and reverses every swap |
| DiffProperties.LabMapEntries | src/lib/course-new.ts:631-632 | a key is in the filtered map exactly when a lab record carries it |
| DiffProperties.DropsAndAddsOfRecords | src/lib/course-new.ts:636-650 | on records: drops are the lab keys only in the old data, valued by an old lab record's section; adds symmetrically |
| DiffProperties.NonLabKeysIgnored | src/lib/course-new.ts:631-663 | a key no lab record carries is in no drop, add or swap, even if its non-lab section changed |
| DiffProperties.NonLabRecordsIrrelevant | src/lib/course-new.ts:631-632 | adding a non-lab record to either snapshot leaves the diff unchanged |
| DiffProperties.FilterLabsAppendNonLab | src/lib/course-new.ts:609-611 | the lab filter ignores an appended non-lab record |
| DiffProperties.ApplyDiffYieldsNew | src/lib/course-new.ts:636-663 | deleting the drops, inserting the adds and applying the swaps to the old map gives the new map |
| DiffProperties.DiffOfPermutationInvariant | src/lib/course-new.ts:629-672 | with no conflicting duplicate keys, the diff does not depend on the order of either snapshot |
| DiffProperties.SameLabRecords | src/lib/course-new.ts:631-632 | permuted snapshots have the same lab records |
| NewData.SidOf | src/lib/course-new.ts:455-456 | the id looked up for an ITSC id is undefined exactly when no user row has it, else the id of the last row with it |
| NewData.Transform | src/lib/course-new.ts:459-464 | one record per enrolment, in order, with the looked-up id, the semester, the course and the section |
| NewData.NewDataAsWritten | src/lib/course-new.ts:446-468 | as written: a record's id is undefined exactly when its student was not an existing user |
| NewData.RenderAsWritten | src/lib/course-new.ts:616 | an undefined id prints as the empty text in a key; the other fields are copied |
| NewData.NewStudentsCollide | src/lib/course-new.ts:269-304 | two students created in the same run for the same course get the same key, and the enrolment map keeps one entry for them |
| NewData.Render | src/lib/course-new.ts:459-464 | records render to enrolment data exactly when every id is defined, ids printed in decimal |
| NewData.NewData | src/lib/course-new.ts:446-468 | corrected (existing rows followed by created ones): defined exactly when every ITSC id has a row |
| NewData.NewDataKeysEveryone | src/lib/course-new.ts:446-468 | corrected: when every ITSC id has a row, each record carries the id of a row of its own student and copies semester, course and section |
| NewData.NewDataDistinctKeys | src/lib/course-new.ts:446-468 | corrected: records of different students never share an enrolment key |
| DeltaApply.PickId | src/lib/course-new.ts:681-685 | `data.id \|\| data[0].id` yields the object's id when non-zero, the first row's id for an array, and fails otherwise |
| DeltaApply.PickCourseId | src/lib/course-new.ts:699-700 | `course_id` is read the same way |
| DeltaApply.KeyFields | src/lib/course-new.ts:677 | the fields a procedure destructures from a key, the semester parsed |
| DeltaApply.KeyFieldsOfRecord | src/lib/course-new.ts:613-625 | the key of a comma-free record destructures to its own student, semester and course |
| DeltaApply.EnrolTrace | src/lib/course-new.ts:674-690 | an add looks up the course, then the section; it goes on only when each reply yields an id; it then enrols the student alone in the course with the id the course lookup answered, then in the section with the id the section lookup answered; it never removes |
| DeltaApply.UnenrolTrace | src/lib/course-new.ts:692-714 | a drop looks up the section and goes on only when its reply yields both the section id and the course id. It asks for the student's row in that section and removes exactly the row answered. Then it asks for the student's row in that course and removes exactly the row answered. It stops at a missing row, removes the section row before the course row, and never adds |
| DeltaApply.SwapTrace | src/lib/course-new.ts:716-733 | a swap looks up the old then the new section, going on only when each yields an id. It asks for the student's row in the OLD section (the id the first lookup answered) and removes exactly that row. It then adds the student to the NEW section (the id the second lookup answered). It never touches course membership |
| DeltaApply.RosterClient.Enrol | src/lib/course-new.ts:674-690 | the calls made are exactly the add trace, and success means all four were made |
| DeltaApply.RosterClient.Unenrol | src/lib/course-new.ts:692-714 | the calls made are exactly the drop trace, and success means all five were made |
| DeltaApply.RosterClient.Swap | src/lib/course-new.ts:716-733 | the calls made are exactly the swap trace, and success means all five were made |
| Feed.RowRecords | src/lib/course.ts:186-190 | the definition of one row's records; RowParses and RecordsOrigin state them |
| Feed.Records | src/lib/course.ts:185-191 | the definition of all rows' records, row by row; RecordsAppend and RowsParse state them |
| Feed.ParseFeed | src/lib/course.ts:182-197 | the reference definition of the parser's reply; ParseEnrollments is proved equal to it and ParseRendered inverts it |
| Feed.NonEmpty | src/lib/course.ts:183 | keeps the non-empty lines |
| Feed.FieldRecord | src/lib/course.ts:187-189 | a `course-section` field gives the upper-cased course and section; the section is absent without a `-`; the ITSC id is kept as it is |
| Feed.FieldRecords | src/lib/course.ts:186-190 | one record per field, in order |
| Feed.ParseEnrollments | src/lib/course.ts:182-197 | the parser loop returns the records of the non-empty rows and the parsed term id, or an error when the status is not 0 |
| Feed.FilterNonEmpty | src/lib/course.ts:183 | the line filter loop keeps exactly the non-empty lines |
| Feed.PushRowRecords | src/lib/course.ts:185-191 | pushing one row appends exactly that row's records |
| Feed.RecordsAppend | src/lib/course.ts:185-191 | the records of two row lists are the concatenation of their records |
| Feed.RecordsOrigin | src/lib/course.ts:185-191 | every record comes from a field after the first of some row, with that row's first field as ITSC id |
| Feed.ParsedUpperCase | src/lib/course.ts:188 | parsed courses and sections contain no lower-case letter |
| Feed.EntryParses | src/lib/course.ts:187-189 | a rendered `course-section` field parses back to its course and section |
| Feed.RowParses | src/lib/course.ts:186-190 | a rendered row parses back to its entries |
| Feed.RowsParse | src/lib/course.ts:185-191 | rendered rows parse back to all their entries, in order |
| Feed.ParseRendered | src/lib/course.ts:182-194 | a rendered feed of well-formed rows parses back to exactly the records it describes |
| Feed.NonEmptyAll | src/lib/course.ts:183 | the filter keeps a list of non-empty lines as it is |
| Selection.CourseRecords | src/lib/course.ts:388 | the feed records of a course |
| Selection.ToBeEnrolled | src/lib/course.ts:383-387 | the course's feed records whose student is not yet a course user |
| Selection.ToBeUnenrolled | src/lib/course.ts:388-389 | the course users with student permission whom the course's feed records do not list |
| Selection.StudentIds | src/lib/course.ts:396 | the ids of the user rows whose ITSC id is listed |
| Selection.TargetSections | src/lib/course.ts:398 | the distinct sections of the records to be enrolled, exactly those occurring |
| Selection.FirstSectionIndex | src/lib/course.ts:407 | the index of the first section with the name |
| Selection.FirstSectionNamed | src/lib/course.ts:407 | `const [currentSection] = ...filter(...)` is a section of the course with that name |
| Selection.NewSectionMembers | src/lib/course.ts:402 | for a new section: every feed student of the course and section |
| Selection.SectionAdds | src/lib/course.ts:408-414 | for an existing section: the feed students of the course and section not already in it |
| Selection.PresentInSection | src/lib/course.ts:418 | the feed students of the course and section |
| Selection.SectionRemovals | src/lib/course.ts:418-420 | for an existing section: the rows of its members the feed no longer lists there, whatever their permission |
| Selection.Unlogged | src/lib/course.ts:290-292 | the ITSC ids with no existing user row |
| Selection.HasDiscrepancy | src/lib/course.ts:259 | the definition of the flag (true when the counts agree); DiscrepancyPhraseMeaning states what the log then says |
| Selection.HasSection | src/lib/course.ts:400 | whether the course has a section of the target name; SectionTrace branches on it |
| Selection.DiscrepancyPhraseMeaning | src/lib/course.ts:255-262 | the log says "No discrepancy" exactly when the affected-row count equals the number of ids submitted |
| Selection.StaffNeverUnenrolled | src/lib/course.ts:389 | a course user with a non-student permission is never unenrolled |
| Selection.EnrolledOrPresent | src/lib/course.ts:383-387 | a feed record of the course is enrolled exactly when its student is not already a course user |
| Selection.EnrolUnenrolDisjoint | src/lib/course.ts:383-389 | no student is both enrolled and unenrolled in one course |
| CourseSync.CreateSemesterRequest | src/lib/course.ts:33-35 | the semester is created under the name `getSemesterNameAndYear` gives its decimal id |
| CourseSync.UserIdsTrace | src/lib/course.ts:268-302 | the user query, then user creation exactly when some ITSC id has no row, for exactly those ids |
| CourseSync.UserIdsResult | src/lib/course.ts:295 | the definition of the merged result; UserIdsCoverRequest and GetStudentUserIds state it |
| CourseSync.UserIdsCoverRequest | src/lib/course.ts:268-302 | when creation answers a row for each created id, every requested ITSC id has a row in the result |
| CourseSync.SectionTrace | src/lib/course.ts:400-425 | a missing section is created and filled with all its feed students, under the id the creation answered. For an existing section (the first with the name), its feed students not yet in it are added. A removal of exactly the rows no longer listed follows, made exactly when there are some. No removal is sent empty |
| CourseSync.SectionsTrace | src/lib/course.ts:399-426 | the target sections' calls in order, all section calls, no empty removal |
| CourseSync.CourseHead | src/lib/course.ts:380-397 | a course starts with its lookup. A removal of exactly the row ids of the leaving students follows, made exactly when someone leaves. It ends with the enrolment of the joining students' user ids into the fetched course |
| CourseSync.CourseTrace | src/lib/course.ts:380-426 | one course's calls never send an empty removal |
| CourseSync.CoursesTrace | src/lib/course.ts:379-427 | the courses' calls in order, no empty removal |
| CourseSync.RecordCourses | src/lib/course.ts:378 | the course of every record, in order |
| CourseSync.SyncTrace | src/lib/course.ts:371-433 | a run starts by creating the semester and never sends an empty removal |
| CourseSync.CourseCalls | src/lib/course.ts:380-397 | per course: the lookup comes first, the course removal is made exactly when some student leaves and carries their rows, and the enrolment is always made |
| CourseSync.NoNewStudentsNoSectionCalls | src/lib/course.ts:398-399 | with no student to enrol, no section is touched, even if section membership changed in the feed |
| CourseSync.SyncClient.GetStudentUserIds | src/lib/course.ts:268-302 | makes exactly the user calls and returns the existing rows followed by the created ones |
| CourseSync.SyncClient.SyncSection | src/lib/course.ts:400-425 | makes exactly one target section's calls |
| CourseSync.SyncClient.SyncCourse | src/lib/course.ts:380-426 | makes exactly one course's calls |
| CourseSync.SyncClient.SyncCourseMembers | src/lib/course.ts:380-397 | makes the course head calls and returns the course and the records to enrol |
| CourseSync.SyncClient.SyncSections | src/lib/course.ts:399-426 | the loop over target sections makes exactly their calls in order |
| CourseSync.SyncClient.SyncEnrollment | src/lib/course.ts:371-433 | a run makes exactly the calls of the synchronisation trace |
| Grading.ValgrindRules | src/lib/grading.ts:17-39 | the valgrind rule clears only stdout and errors, and keeps visibility and correctness |
| Grading.StdioRules | src/lib/grading.ts:41-64 | the stdio rule keeps visibility, correctness and errors |
| Grading.StdioAlwaysHidden | src/lib/grading.ts:43-47 | an always-hidden report loses stdout, expected output and diff |
| Grading.StdioBeforeFinal | src/lib/grading.ts:48-53 | before the final run, a visible-after-grading report loses expected output and diff only |
| Grading.AfterGradingActsAsIfFailed | src/lib/grading.ts:23-34 | on the final run, a visible-after-grading report falls through to the if-failed rule: censored only when incorrect, in both stages |
| Grading.VisibleUnchanged | src/lib/grading.ts:35-37 | always-visible and unknown visibilities are left as they are by every stage |
| Grading.FinalCorrectUncensored | src/lib/grading.ts:16-64 | on the final run, a correct report that is not always hidden is left unchanged |
| Grading.ValgrindStageOutcome | src/lib/grading.ts:16-65 | with no `break`, valgrind reports get the valgrind rule and then the stdio rule |
| Grading.Withheld | src/lib/grading.ts:18-37 | the definition of when a report is withheld; ValgrindRules and the lemmas above state it case by case |
| Grading.StageRule | src/lib/grading.ts:14-73 | the definition of what a stage does to a report; ValgrindStageOutcome and StageRuleIdempotent state its properties |
| Grading.StageRuleIdempotent | src/lib/grading.ts:14-73 | censoring twice is censoring once |
| Grading.CensorValgrind | src/lib/grading.ts:18-38 | the callback's new report view is the valgrind rule of the old one; details untouched |
| Grading.CensorStdio | src/lib/grading.ts:42-63 | the callback's new report view is the stdio rule of the old one; details untouched |
| Grading.MapValgrind | src/lib/grading.ts:17-39 | every distinct report of the list is censored by the valgrind rule |
| Grading.MapStdio | src/lib/grading.ts:41-64 | every distinct report of the list is censored by the stdio rule |
| Grading.CensorStage | src/lib/grading.ts:15-73 | every report of a stage is censored by that stage's rule |
| Grading.CensorStageIn | src/lib/grading.ts:15-73 | censoring one stage changes that stage's reports by its rule and no other stage's reports |
| Grading.Sanitized | src/lib/grading.ts:66-72 | the sanitized reports have every stage except `score` |
| Grading.ScoreOf | src/lib/grading.ts:66-68 | the grade is defined exactly when there is a score report |
| Grading.ArtifactsOutcome | src/lib/grading.ts:9-90 | nothing is sent without stages; with score reports but no grade the details assignment throws; otherwise the sanitized reports and the grade are sent |
| Grading.GenerateReportArtifacts | src/lib/grading.ts:5-95 | the outcome above; every report is censored in place by its stage's rule; only the grade gets the score reports as details |
| Grading.CensorStages | src/lib/grading.ts:14-74 | the loop returns the sanitized map and the grade, having censored every report by its stage's rule |
| Grading.SelectedSubmissionsRequest | src/lib/grading.ts:123-129 | no selected submissions asks for the config's latest submissions with the config id; otherwise the selected ones, with the submissions only |
| Grading.SelectedSubmissionsResult | src/lib/grading.ts:134 | the result is read from the reply field of the query chosen |
| Decompression.FileExtension | src/lib/decompression.ts:13 | the text after the last dot, dot-free; the whole name when it has no dot |
| Decompression.AfterLastDot | src/lib/decompression.ts:13 | what follows the last dot holds no dot, and the name is what precedes it, a dot, and the extension |
| Decompression.ExtensionOfName | src/lib/decompression.ts:13 | the extension of `base.ext` is `ext` whenever `ext` has no dot |
| Decompression.ArchiveFormat | src/lib/decompression.ts:14-23 | zip and rar are dispatched; anything else fails with "Unsupported archive format" |
| Decompression.Decompress | src/lib/decompression.ts:10-30 | success exactly when the format is supported and extraction succeeds; on success the row gets `extracted/<id>` and no reason; on failure no path and the failure's message, and the failure is rethrown |
| Decompression.DispatchByExtension | src/lib/decompression.ts:13-20 | a `.zip` or `.rar` upload's outcome is that of its own extractor |
| Decompression.StringRejectionLosesReason | src/lib/decompression.ts:26 | a failure passed to `reject` as a bare string leaves the row with no reason |
| Decompression.MatchesDsStore | src/lib/decompression.ts:70 | the definition of `/.DS_Store/.test(name)`, the unescaped dot matching any character but a line terminator |
| Decompression.Skipped | src/lib/decompression.ts:70 | the definition of the skip test; ClassifyEntry skips exactly these names |
| Decompression.ClassifyEntry | src/lib/decompression.ts:69-105 | skipped names are passed over; a name whose only slash is its last character is a folder; other slashed names are written after their parent folder is made; other names are written at the top |
| Decompression.NestedFolderTakenForFile | src/lib/decompression.ts:73-93 | the nested folder entry `a/b/` is taken for a file written at `a/b/` |
| Decompression.ClassifyEntryIntended | src/lib/decompression.ts:73-79 | corrected: every non-skipped name ending in a slash is a folder, and no written file name ends in a slash |
| Decompression.IntendedAgreesOffNestedFolders | src/lib/decompression.ts:69-105 | the corrected handling agrees with the source on every entry except nested folders |
| Decompression.OutputRoot | src/lib/decompression.ts:65-66 | the single top-level entry when it is the only one and a directory, else the temporary directory |
| Decompression.PolicyOf | src/lib/decompression.ts:146-154 | a policy exactly when the user has a course row; it is a test exactly when the first row's permission exceeds 1 |
| Webhook.AllowedCourses | src/index.ts:57-59 | the definition of the `{id,...}` literal; AllowedCoursesRoundTrip inverts it |
| Webhook.AllowedCoursesRoundTrip | src/index.ts:57-59 | the `{id,id,...}` literal reads back to exactly the user's course ids, in order |
| Webhook.IdentityPayload | src/index.ts:57-65 | the role is "admin" exactly for admins; the allowed-courses claim is present exactly for non-admins and names their courses |
| Webhook.IdentityResponseOf | src/index.ts:33-83 | the definition of the handler's answer; IdentityUnauthorized and IdentityClaims state both 401 cases and the claims case |
| Webhook.IdentityUnauthorized | src/index.ts:36-75 | "Unauthorized" exactly when there is no `appSession` cookie; the missing-session text exactly when nothing non-empty is stored for it |
| Webhook.IdentityClaims | src/index.ts:36-67 | claims are returned only for a stored session whose token verified, and name that user with the looked-up role and courses |
| Webhook.ScheduleDecision | src/index.ts:171-178 | an event is scheduled exactly on INSERT, or on UPDATE with a changed deadline, for the new row's id and deadline |
| Webhook.UnchangedDeadlineNotRescheduled | src/index.ts:172-178 | an update keeping the deadline, and a delete, schedule nothing |
| Webhook.GradingTaskJob | src/index.ts:242-264 | a job is queued exactly when the stored deadline equals the event's, with the current submissions and not as a test |
| Webhook.RescheduledEventSupersedes | src/index.ts:169-264 | after the deadline moves, the event scheduled at insertion is dropped and the one scheduled by the update queues the job |
| Webhook.AtMostOneCurrentEvent | src/index.ts:246 | events carrying different deadlines never both queue a job against one stored deadline |
| Webhook.DecompressionTrigger | src/index.ts:102-147 | the definition of the handler's outcome; DecompressionEnqueues states when and what it queues |
| Webhook.DecompressionEnqueues | src/index.ts:102-134 | a job is queued exactly when extraction succeeded, the user has a course row and the assignment grades immediately; it carries the submission at the path written to its row and is a test exactly for non-students |

## Left out

- All GraphQL and HTTP transport. Each reply is an input: an oracle of the calls made so far. What a call does on the server is not modelled.
- The remote side effects of `getCourse` and `getSectionByName`, which create missing rows. Only the shape of their reply is kept. `getSectionByName` answers an object after creating the section and an array otherwise. `getCourse` always answers an object (course-new.ts:428-437), which the reply type covers; the array branch of `courseData[0].id` is never reached for it.
- Concurrency. The `data.forEach(async ...)` of `enrol`, `unenrol` and `swap` in course-new.ts starts all deltas at once. Only the sequential steps of one delta are modelled.
- `localeCompare`. It is replaced by code-unit order, as said above.
- EnrolmentDiff.SortInPlace: proves sorted-and-permuted, not stability. The diff depends on the order only through records that share a key.
- The dead body of `getStudentCourseEnrollmentMap` in course-new.ts, which returns early. The parser of course.ts is modelled instead.
- The `SyncEnrollment` of course-new.ts and `getOldData`. They only fetch and hand data to `diff`, `enrol`, `unenrol` and `swap`.
- Strings.ParseInt: reads leading decimal digits only. Signs, whitespace and other radixes never occur in the ids it is applied to.
- Strings.ToUpper: upper-cases ASCII letters only. There is no Unicode case mapping.
- DeltaApply.KeyFields, DeltaApply.RosterClient.Enrol, DeltaApply.RosterClient.Unenrol, DeltaApply.RosterClient.Swap: require a key that splits into at least three fields, and for a swap a value with `->`. Keys made by `toEnrolmentMap` always have this shape. An ill-formed key, where the source reads `undefined`, is not modelled.
- Grading.GenerateReportArtifacts, Grading.CensorStages and Grading.CensorStageIn: require that no report object occurs twice. Reports come from parsed JSON, so they cannot alias.
- Grading.MapValgrind, Grading.MapStdio and Grading.CensorStage: require a list of distinct report objects, for the same reason.
- Grading: the `expect` field of a report is called `expected` (`expect` is a Dafny keyword). `scoreReports` is modelled as present or absent; a present value is taken as truthy.
- `scheduleGradingEvent` and `getGradingSubmissions`. They are I/O. Only the payload that `scheduleGradingEvent` schedules (config id and deadline) and the reply of `getGradingSubmissions` are modelled.
- The `/trigger/syncEnrollment`, `/trigger/postGradingProcessing` and `/trigger/manualGradingTask` handlers. They only call the modelled functions and report success or error. Their queue payload is not modelled.
- Express routing, cookie parsing, the HMAC of the session cookie, the session store, JSON parsing of the session, JWT verification, `getUser` and `Date`. Webhook.IdentityResponseOf takes them as function parameters, and the request time as text.
- Pushing to the Redis job queue and the assertion on how many consumers received it. A queued job is a returned value.
- Decompression.Decompress: does not model a failure of the row update itself. Such a failure goes to the catch block and would record a second update.
- The file system and the archive libraries: reading, `mkdirp`, write streams, `moveSync`, yauzl events and unrar. The extractors are a parameter that yields a failure or nothing. The rar extractor's skipping of directory entries is not modelled.
- Webhook.ScheduleDecision: reports an UPDATE event without an old row as its own outcome. The text of the resulting TypeError is not modelled.
- The text of JavaScript runtime errors in general (TypeError messages). Outcomes that throw them are separate constructors.

## Findings

| source | as written | input that shows it | evidently intended | confidence | as-written member | corrected member |
|---|---|---|---|---|---|---|
| src/lib/course-new.ts:295-297 | `getStudentUserIds` creates the missing users but returns only the rows that already existed. So `getNewData` gives every newly created student an undefined `sid`, printed as empty in the key | two new students `alice` and `bob` in `COMP1021` (sections LA1 and LA2) both get key `,2110,COMP1021`, and the map keeps one of them | return the existing rows followed by the created ones (the commented-out line), so every record carries its student's id | medium (not executed) | NewData.NewStudentsCollide | NewData.NewDataDistinctKeys |
| src/lib/decompression.ts:73-93 | a zip entry counts as a folder only when its FIRST slash is its last character. A nested folder entry such as `a/b/` goes to the file branch, which opens a write stream on the folder path it has just made | entry `a/b/` | every entry whose name ends in a slash is a folder | medium (not executed) | Decompression.NestedFolderTakenForFile | Decompression.ClassifyEntryIntended |
