# Curriculum eligibility and scheduling engine of medicina-pwa

medicina-pwa is a progressive web app that helps a medical student plan a degree of
eighteen four-month terms ("cuatrimestres"). Its logic sits inside React hooks and
components and two data-conversion scripts. This project restates that logic in Dafny as
value functions and small classes, and proves what it promises:

- `StudentProgressContext` (the progress context): the course-status resolver and the
  term-progress scan. Prerequisites are conjunctive. Corequisites are disjunctive and are
  also met by a planned or in-progress companion. Electives are gated at progress 6, 11
  and 15. The 75% rule is integer cross-multiplication.
- `ProgressStore`: the progress map and the mark, remove and summary operations that the
  context and the older hook share word for word. It is a class whose `progress` field is
  replaced by the changed copy.
- `StudentProgressHook`: the older progress hook's own resolver, grade scale and fixed
  credits.
- `SectionsProcessor`: `HH:MM` conversions, the label scanner (day letters, then
  `H:MM a H:MM am|pm`), slot repair, the half-open overlap test and the schedule display.
  Slots here are minutes of the day.
- `MergeSections`: the offline merge script. It reads 12-hour times and day codes (two
  letters tried first), reads range and condensed schedules into minute-of-week slots,
  reads tab-separated lines, and merges new sections into courses with CRN
  de-duplication.
- `ScheduleHook`: the course-plan hook. The plan is an ordered list with upsert, removal
  and reselection. It also has the pairwise conflict scan over the selected sections, term
  credits, and the three credit-bounded greedy suggestion passes.
- `EditCourse` and `EditCourseDialog`: the administration editor. It validates and saves a
  course and edits the course's section list. The pairwise conflict scan gates saving.
- `ConvertCourses` and `ConvertCoursesScript`: the catalog conversion script. It covers the
  requisite-text parser, name cleaning, descriptions, the header-driven line state machine
  and the final sort.
- `CourseData`: the course-data hook: lookups, term names, and the per-term summary
  built in a `Map`.
- `PlanModal`: the plan dialog: available courses by term, one section per course, the
  credit total, the conflict scan and the save rule.
- `CourseList`: the catalog list's filter predicate and its grouping by term.
- Shared helpers:
  - `Wrappers`: `Option` and `Result`.
  - `Text`: JavaScript whitespace, `trim`, `split`, `toLowerCase`, `includes`, `Number`
    and number text.
  - `Seqs` and `Grouping`: `filter`, `find`, `reduce`, the stable `sort`, and grouping into
    a `Map`.
  - `Pairs`: the nested `i < j` loops the callers write.
  - `Catalog`: the shared record types.

Reading, storage and the clock are left outside the model. The course, section and
progress data that the hooks fetch or load are parameters or fields. The caller supplies
the `completedAt` timestamp. Name and id ordering by `localeCompare` is a total preorder
passed in as a parameter. Where the code loops or updates state, the model is a method or
a class method with loop invariants, proved equal to the function that specifies it.

The plan hook calls its own `timeToMinutes` (client/src/hooks/use-schedule.ts:98-101).
It is the same text as the sections processor's, so both use
`SectionsProcessor.TimeToMinutes`.

## Model

| member | source | states |
|---|---|---|
| StudentProgressContext.AllPassed | client/src/contexts/student-progress-context.tsx:108-114 | the prerequisite loop succeeds exactly when every prerequisite id is passed |
| StudentProgressContext.GetCourseStatus | client/src/contexts/student-progress-context.tsx:101-154 | passed exactly when the id is passed; blocked by any unpassed prerequisite; available exactly when not passed, all prerequisites passed, the corequisites empty or one of them passed or planned or in progress, and the elective gate open; otherwise blocked, so only the three statuses occur |
| StudentProgressContext.FewerCoreqsNoHarder | client/src/contexts/student-progress-context.tsx:118-131 | dropping the corequisites of an available course keeps it available |
| StudentProgressContext.MorePassedNoHarder | client/src/contexts/student-progress-context.tsx:108-131 | for a non-elective, passing one more other course never blocks an available course |
| StudentProgressContext.ProgressFromSpec | client/src/contexts/student-progress-context.tsx:163-179 | the scan from term t stops at the first term that is not completed, and never passes 18 |
| StudentProgressContext.TermProgressSpec | client/src/contexts/student-progress-context.tsx:157-182 | progress is 0 for an empty catalog, at most 18, every term up to it has required courses with at least 75% passed, and the next term does not |
| StudentProgressContext.EmptyTermStops | client/src/contexts/student-progress-context.tsx:164-178 | a term without required courses ends the scan below it |
| StudentProgressContext.CalculateCurrentTermProgress | client/src/contexts/student-progress-context.tsx:157-182 | the loop with its `break` returns the scan's result, at most 18, with every term up to it completed |
| StudentProgressContext.GetGradePoints | client/src/contexts/student-progress-context.tsx:250-259 | a value exactly for the thirteen letter grades of the scale, at most 4.0 |
| StudentProgressContext.GradePointsMonotone | client/src/contexts/student-progress-context.tsx:251-257 | a better letter never has fewer points |
| StudentProgressContext.GetCourseCredits | client/src/contexts/student-progress-context.tsx:245-248 | never 0; 3 for a course not in the catalog; otherwise the credits of the first catalog course with that id, or 3 when those are 0 |
| ProgressStore.PassedPlannedDisjoint | client/src/contexts/student-progress-context.tsx:184-202 | no id is both passed and planned |
| ProgressStore.CreditTotalsBound | client/src/contexts/student-progress-context.tsx:204-221 | with non-negative credits, passed and planned totals are non-negative and together at most the total |
| ProgressStore.MarkPassedEffect | client/src/contexts/student-progress-context.tsx:62-73 | a passed entry adds the id to the passed set and removes it from the planned set |
| ProgressStore.MarkPlannedEffect | client/src/contexts/student-progress-context.tsx:75-93 | a planned or in-progress entry adds the id to the planned set and removes it from the passed set |
| ProgressStore.RemoveEffect | client/src/contexts/student-progress-context.tsx:95-99 | deleting the entry removes the id from both sets and nothing else |
| ProgressStore.ProgressStore.constructor | client/src/contexts/student-progress-context.tsx:37 | the store starts with an empty map |
| ProgressStore.ProgressStore.MarkCoursePassed | client/src/contexts/student-progress-context.tsx:62-73 | sets exactly that key to a passed entry with the grade and time stamp; the sets change as MarkPassedEffect says |
| ProgressStore.ProgressStore.MarkCourseInProgress | client/src/contexts/student-progress-context.tsx:75-83 | sets exactly that key to an in-progress entry with the section |
| ProgressStore.ProgressStore.MarkCoursePlanned | client/src/contexts/student-progress-context.tsx:85-93 | sets exactly that key to a planned entry with the section |
| ProgressStore.ProgressStore.RemoveCourseProgress | client/src/contexts/student-progress-context.tsx:95-99 | deletes exactly that key; every other entry is unchanged |
| ProgressStore.ProgressStore.GetPassedCourses | client/src/contexts/student-progress-context.tsx:184-192 | the ids whose entry is passed, and no others |
| ProgressStore.ProgressStore.GetPlannedCourses | client/src/contexts/student-progress-context.tsx:194-202 | the ids whose entry is planned or in progress, and no others |
| ProgressStore.ProgressStore.GetTotalCredits | client/src/contexts/student-progress-context.tsx:204-221 | total is the credit sum of all courses, passed and planned the sums over passed and planned courses; with non-negative credits passed + planned is at most total |
| StudentProgressHook.GetCourseStatus | client/src/hooks/use-student-progress.ts:66-94 | passed exactly when the map entry is passed; blocked by any prerequisite missing from the passed set; available exactly when prerequisites and corequisites are satisfied, with no elective gate |
| StudentProgressHook.ElectivesUngated | client/src/hooks/use-student-progress.ts:93 | an elective whose requisites are met is available |
| StudentProgressHook.AgreesWithContext | client/src/hooks/use-student-progress.ts:66-94 | for non-electives the hook and the context give the same status when the passed set comes from the map |
| StudentProgressHook.ContextGatesElectives | client/src/contexts/student-progress-context.tsx:133-153 | a general elective with nothing passed is available in the hook and blocked in the context |
| StudentProgressHook.GetGradePoints | client/src/hooks/use-student-progress.ts:152-161 | a value exactly for A, B, C, D and F, equal to the context's value |
| StudentProgressHook.SignedGradesUnknown | client/src/hooks/use-student-progress.ts:152-161 | "A+" has no points in the hook and 4.0 in the context |
| StudentProgressHook.CreditsFallbackAgrees | client/src/hooks/use-student-progress.ts:163-167 | the hook's constant 3 is the context's credits for a course the catalog lacks |
| SectionsProcessor.TimeToMinutesOfSplit | client/src/utils/sections-processor.ts:35-38 | a text splitting at ':' into two numbers reads as hours * 60 + minutes |
| SectionsProcessor.TimeToMinutesOfParts | client/src/utils/sections-processor.ts:35-38 | "a:b" with numeric parts reads as hours * 60 + minutes |
| SectionsProcessor.TimeToMinutesNaN | client/src/utils/sections-processor.ts:35-38 | a part that is not a number makes the result NaN |
| SectionsProcessor.TimeWithoutColon | client/src/utils/sections-processor.ts:35-38 | a text without ':' reads as NaN (the missing minutes are undefined) |
| SectionsProcessor.MinutesToTimeOf | client/src/utils/sections-processor.ts:28-32 | the text is the floor quotient and the truncated remainder by 60, each padded to two digits |
| SectionsProcessor.TimeRoundTrip | client/src/utils/sections-processor.ts:28-38 | reading back the text of m gives m for 0 <= m < 6000, which covers 0..1439 |
| SectionsProcessor.TextRoundTrip | client/src/utils/sections-processor.ts:28-38 | a two-digit "HH:MM" text with minutes below 60 reads as a number whose text is the same "HH:MM" |
| SectionsProcessor.LabelDaysSpec | client/src/utils/sections-processor.ts:51-60 | the day codes concatenate back to the day letters, and each is "MI" or one letter of them |
| SectionsProcessor.FirstRange | client/src/utils/sections-processor.ts:63 | the leftmost position where the time-range pattern matches, or none when it matches nowhere |
| SectionsProcessor.LabelTimeOfMatch | client/src/utils/sections-processor.ts:66-85 | a match gives start and end converted with the one shared meridiem, and the days of the leading letters |
| SectionsProcessor.LabelTimeOfSpec | client/src/utils/sections-processor.ts:41-85 | a label parses exactly when it starts with a day letter and the time-range pattern matches somewhere; the parsed days concatenate to the leading letters |
| SectionsProcessor.ThursdayMorningExample | client/src/utils/sections-processor.ts:40 | "J7:00 a 10:00 am" gives start 420, end 600 and days ["J"] |
| SectionsProcessor.SplitDayRun | client/src/utils/sections-processor.ts:48-60 | the while loop over the day letters yields the day codes LabelDays specifies |
| SectionsProcessor.ParseTimeFromLabel | client/src/utils/sections-processor.ts:41-90 | the scanner returns the parse LabelTimeOf specifies |
| SectionsProcessor.FixSectionRepairs | client/src/utils/sections-processor.ts:93-120 | the fixed section keeps every field but its slots; with a parsed label its slots are one per label day at the label's start and end; otherwise the same number of slots on the same days from the same starts, ordered slots kept and slots at most 720 minutes reversed put in order |
| SectionsProcessor.RepairPutsInOrder | client/src/utils/sections-processor.ts:108-116 | without a parsable label a slot at most 720 minutes reversed ends after it starts, and an ordered slot is unchanged |
| SectionsProcessor.ProcessSectionsDataSpec | client/src/utils/sections-processor.ts:123-130 | the same courses in the same order with their names and ids, each with as many sections as before, every section the repair of the one in its place |
| SectionsProcessor.HasScheduleConflict | client/src/utils/sections-processor.ts:133-145 | the nested loop answers true exactly when some same-day slot pair has start1 < end2 and start2 < end1 |
| SectionsProcessor.ConflictSymmetric | client/src/utils/sections-processor.ts:133-145 | the conflict test is symmetric |
| SectionsProcessor.SelfConflict | client/src/utils/sections-processor.ts:133-145 | a section with a slot whose start is before its end conflicts with itself |
| SectionsProcessor.TouchingDoNotOverlap | client/src/utils/sections-processor.ts:138 | slots where one ends exactly when the other starts do not overlap |
| SectionsProcessor.FormatScheduleDisplaySnoc | client/src/utils/sections-processor.ts:148-165 | no slots give "", one slot gives its "Day HH:MM-HH:MM" text, and each further slot adds ", " and its text |
| SectionsProcessor.DayNameRaw | client/src/utils/sections-processor.ts:158 | a day code outside the table is shown as it is |
| MergeSections.DayOffset | scripts/merge-sections.ts:46-53 | every day code's offset is a whole number of days between Monday 0 and Saturday 7200 |
| MergeSections.DayOffsetsDistinct | scripts/merge-sections.ts:46-53 | different day codes have different offsets |
| MergeSections.DayCodesFrom | scripts/merge-sections.ts:86-107 | the scan yields only keys of the day-code table |
| MergeSections.ParseDayCodes | scripts/merge-sections.ts:86-107 | the while loop with its continue yields the codes DayCodes specifies, all keys of the table |
| MergeSections.DayCodesOfLeadingRun | scripts/merge-sections.ts:90 | only the leading run of upper-case letters is read |
| MergeSections.TwoLetterCodesFirst | scripts/merge-sections.ts:91-97 | a two-letter code is tried before a one-letter one: "MAMI" gives MA, MI and "LMI" gives L, MI |
| MergeSections.NonCodesSkipped | scripts/merge-sections.ts:99-103 | upper-case letters that are no code are skipped: "MX" gives nothing and "XJ" gives J |
| MergeSections.FirstTime | scripts/merge-sections.ts:56 | the leftmost match of the time pattern, or none when it matches nowhere |
| MergeSections.To24HourSpec | scripts/merge-sections.ts:64-65 | the 24-hour hour is congruent to the 12-hour one modulo 12, and for a dial hour 1 to 12 it is below 24 and in the afternoon half exactly when pm |
| MergeSections.ParseTime | scripts/merge-sections.ts:55-68 | an error with the "Invalid time format" message exactly when the pattern matches nowhere; otherwise the leftmost match's hour in 24-hour form, its minutes, and isPM exactly when the hour is at least 12; a missing meridiem counts as am |
| MergeSections.MinutesToClock | scripts/merge-sections.ts:74-78 | hours below 24 and minutes below 60 for non-negative input, and they read back as the minutes for one day |
| MergeSections.MinutesToClockWraps | scripts/merge-sections.ts:75 | a whole day more gives the same clock |
| MergeSections.FormatTime12HourShape | scripts/merge-sections.ts:80-84 | hour 0 and 12 show as 12, 13-23 as hour - 12, others as they are; minutes padded to two digits; AM or PM by hour >= 12 |
| MergeSections.FormatTime12HourRoundTrip | scripts/merge-sections.ts:55-84 | parsing the 12-hour text of a clock gives that clock back |
| MergeSections.FirstRange | scripts/merge-sections.ts:119 | the leftmost match of the range pattern, or none when it matches nowhere |
| MergeSections.RangeClockParses | scripts/merge-sections.ts:122-123 | a range capture with the shared meridiem appended parses without error to the clock the model reads |
| MergeSections.PushDaySlots | scripts/merge-sections.ts:175-181 | the forEach pushes one week slot per day, each day's offset added to start and end |
| MergeSections.FirstPeriod | scripts/merge-sections.ts:140-141 | the leftmost am or pm, or none |
| MergeSections.ParseSchedule | scripts/merge-sections.ts:109-116 | a text containing "Virtual" or "VIRTU" gives no slots and the label "Virtual"; every slot's day is a day code |
| MergeSections.RangeScheduleSlots | scripts/merge-sections.ts:118-129 | the range form gives one slot per parsed day, with the day's offset added to the start and end minutes |
| MergeSections.CondensedScheduleSlots | scripts/merge-sections.ts:137-181 | the condensed form starts every day at the first time (pm shifted) and lasts floor(credits * 45 / days) minutes, plus the day's offset |
| MergeSections.CondensedScheduleEmpty | scripts/merge-sections.ts:143-145 | without times or without days the result is no slots and the original text |
| MergeSections.CourseIdOfCrnSpec | scripts/merge-sections.ts:206-209 | an id exactly when the CRN starts with upper-case letters and three digits; it is those letters, "-" and the digits |
| MergeSections.CourseIdExample | scripts/merge-sections.ts:205 | "ESP095001" gives "ESP-095" |
| MergeSections.ParseTxtLineSpec | scripts/merge-sections.ts:189-227 | a section exactly when the line does not start with "Cerrado" after trimming, has at least three non-empty fields and its CRN names a catalog course; the room defaults to "TBA", career is MED, closed is false and the schedule is parsed with the course's credits |
| MergeSections.ParsedSectionShape | scripts/merge-sections.ts:219-226 | a parsed section is open, of career MED, has a room, a known course and day-coded slots |
| MergeSections.CoursesById | scripts/merge-sections.ts:238-241 | the map has exactly the catalog's ids |
| MergeSections.CoursesByIdLastWins | scripts/merge-sections.ts:239-241 | a later course with the same id overwrites an earlier one |
| MergeSections.ParsedSectionsSpec | scripts/merge-sections.ts:255-263 | at most one section per line, each the parse of one of the lines |
| MergeSections.ParsedSectionsKnown | scripts/merge-sections.ts:258-263 | every parsed section names a catalog course |
| MergeSections.ParseTxtSections | scripts/merge-sections.ts:255-263 | the forEach collects the sections ParsedSections specifies |
| MergeSections.SectionsByCourseSpec | scripts/merge-sections.ts:276-290 | one non-empty bucket per course name, each holding exactly the sections of that course in input order |
| MergeSections.GroupNewSections | scripts/merge-sections.ts:276-290 | the forEach builds the buckets SectionsByCourse specifies |
| MergeSections.AddAbsentSpec | scripts/merge-sections.ts:300-305 | the course's sections are kept as a prefix; a CRN is present afterwards exactly when it was there or among the new sections; only new sections are appended; distinct CRNs stay distinct |
| MergeSections.AddAbsentSections | scripts/merge-sections.ts:300-305 | the loop appends the sections AddAbsent specifies |
| MergeSections.MergeGroupExtends | scripts/merge-sections.ts:296-317 | merging one bucket keeps every existing course and its sections as a prefix, and keeps CRNs distinct |
| MergeSections.MergeGroupsExtends | scripts/merge-sections.ts:296-317 | merging all buckets keeps every existing course and its sections as a prefix, and keeps CRNs distinct |
| MergeSections.MergeGroupsSuffix | scripts/merge-sections.ts:306-316 | the courses added after the existing ones are exactly the new course names' buckets, in bucket order |
| MergeSections.MergeGroupsPlaces | scripts/merge-sections.ts:296-317 | every section of every bucket ends up, by CRN, in a course of its name |
| MergeSections.MergeNewSections | scripts/merge-sections.ts:293-317 | the forEach over the buckets gives the merge MergeGroups specifies |
| MergeSections.MergedCoursesSpec | scripts/merge-sections.ts:293-320 | the result is sorted by name and a permutation of the merge, which extends the existing courses and appends the new ones |
| MergeSections.MergedCoursesPlaces | scripts/merge-sections.ts:255-320 | every parsed section is present, by CRN, under its course's name |
| MergeSections.BuildCoursesMap | scripts/merge-sections.ts:238-241 | the forEach builds the map CoursesById specifies |
| MergeSections.MergeSectionsMain | scripts/merge-sections.ts:238-320 | the whole merge, without file I/O, gives MergedCourses |
| ScheduleHook.UpsertSpec | client/src/hooks/use-schedule.ts:27-38 | an entry for a course already in the plan replaces that course's entry in place and keeps the length; a new course is appended; entries of other courses are unchanged; a plan with one entry per course keeps that, and the course's entry is the new one |
| ScheduleHook.RemovePlan | client/src/hooks/use-schedule.ts:40-43 | the course no longer occurs; exactly the entries of other courses remain, in their order |
| ScheduleHook.RemovePlanSpec | client/src/hooks/use-schedule.ts:27-43 | removal keeps one entry per course, and removing a course just added to a plan without it gives back the plan |
| ScheduleHook.Reselect | client/src/hooks/use-schedule.ts:45-52 | no entry is added, dropped or moved, and none changes its course, term or priority |
| ScheduleHook.ReselectKeepsCourses | client/src/hooks/use-schedule.ts:45-52 | reselecting keeps the set of planned courses and one entry per course |
| ScheduleHook.CoursesInPlan | client/src/hooks/use-schedule.ts:103-105 | an id is in the set exactly when some entry plans it |
| ScheduleHook.CreditOfSpec | client/src/hooks/use-schedule.ts:111-112 | a course missing from the list adds 0 credits; otherwise the first course with that id supplies them |
| ScheduleHook.PlannedTermCreditsOverPlan | client/src/hooks/use-schedule.ts:107-114 | the term's credits are the sum over the plan of the credits of the entries planned for that term |
| ScheduleHook.PlannedTermCreditsAdd | client/src/hooks/use-schedule.ts:107-114 | adding a new course raises the term's credits by its credits exactly when it is planned for that term |
| ScheduleHook.PlannedTermCreditsReselect | client/src/hooks/use-schedule.ts:107-114 | changing a section leaves every term's credits unchanged |
| ScheduleHook.PlannedTermCreditsNonNegative | client/src/hooks/use-schedule.ts:107-114 | with non-negative course credits the total is non-negative |
| ScheduleHook.BlocksConflictSymmetric | client/src/hooks/use-schedule.ts:83-89 | two blocks overlap (same day, each starting before the other ends) regardless of order |
| ScheduleHook.FirstConflict | client/src/hooks/use-schedule.ts:80-96 | a conflict is reported exactly when some block of the first section overlaps some block of the second |
| ScheduleHook.TimeConflictSymmetric | client/src/hooks/use-schedule.ts:80-101 | with the hook's time reader, a conflict between two sections is found in either order |
| ScheduleHook.TouchingBlocksDoNotConflict | client/src/hooks/use-schedule.ts:89 | a block ending when the other starts does not conflict |
| ScheduleHook.FirstConflictLoop | client/src/hooks/use-schedule.ts:80-96 | the nested loop with early return reports the first overlapping pair in row order, as the scan defines |
| ScheduleHook.FindTimeConflict | client/src/hooks/use-schedule.ts:80-101 | the loop over the sections' blocks with the hook's time reader returns the section conflict |
| ScheduleHook.SelectedSections | client/src/hooks/use-schedule.ts:56-59 | only known sections are selected, at most one per plan entry |
| ScheduleHook.SelectedSectionsSpec | client/src/hooks/use-schedule.ts:56-59 | every entry selecting an id that some section has contributes the first such section, and every selected section was found for some selecting entry |
| ScheduleHook.ScheduleConflictsSpec | client/src/hooks/use-schedule.ts:54-78 | a conflict record occurs exactly when some earlier selected section conflicts with a later one, naming both courses and the clash text |
| ScheduleHook.IsElectiveAvailableForTerm | client/src/hooks/use-schedule.ts:174-193 | only general or professional electives can be available, never before term 6, professional ones never before term 11 |
| ScheduleHook.ElectiveAvailabilityAgrees | client/src/hooks/use-schedule.ts:174-193 | for general and professional electives the hook's availability agrees exactly with the progress context's elective gate |
| ScheduleHook.GreedySpec | client/src/hooks/use-schedule.ts:139-144 | the greedy pass keeps a subsequence of its candidates, and the credits it adds never exceed the remaining budget |
| ScheduleHook.CandidatesSpec | client/src/hooks/use-schedule.ts:135-137 | a pass's candidates are exactly the eligible courses passing its filter, sorted by credits, without duplicates when the eligible list has none |
| ScheduleHook.GreedyTakesWhatFits | client/src/hooks/use-schedule.ts:139-144 | with credits that are not negative, a candidate the pass leaves out would take the credits before the pass plus the pass's own over the remaining budget, so every candidate that fits is taken |
| ScheduleHook.PickSpec | client/src/hooks/use-schedule.ts:139-144 | picked courses come from the candidates, keep their credit order and distinctness, and fit the budget; GreedyTakesWhatFits adds that every candidate left out no longer fits |
| ScheduleHook.EligibleSpec | client/src/hooks/use-schedule.ts:130-132 | a course is eligible exactly when it is in the list, available and not yet planned; no duplicates are introduced |
| ScheduleHook.GreedyPassesSpec | client/src/hooks/use-schedule.ts:139-168 | the three passes draw from their own candidates, stay sorted, fit the budget together, and name each course once |
| ScheduleHook.PassesWithinSpec | client/src/hooks/use-schedule.ts:130-168 | required courses are of the term, electives are available for the term, catch-up courses are of earlier terms; all are eligible, fit in the budget and are distinct |
| ScheduleHook.PassesWithinTakeWhatFits | client/src/hooks/use-schedule.ts:130-170 | with non-negative credits, each pass leaves out an eligible course of its kind only when the credits of the earlier passes plus its own plus that course exceed the budget |
| ScheduleHook.SuggestionsSpec | client/src/hooks/use-schedule.ts:116-171 | every suggestion is an available, unplanned course of the list in the right pass, the suggested credits fit in the maximum minus the term's planned credits, no id is suggested twice when ids are distinct, and with non-negative credits each pass takes every eligible course of its kind that still fits its running total |
| ScheduleHook.PassesDistinct | client/src/hooks/use-schedule.ts:135-168 | courses of the three passes are distinct by id, since the passes' filters are disjoint |
| ScheduleHook.GreedyPass | client/src/hooks/use-schedule.ts:139-144 | the loop returns the greedy pick and the running credit total |
| ScheduleHook.RunPasses | client/src/hooks/use-schedule.ts:126-168 | the three loops in order return the three greedy passes with the shared running total |
| ScheduleHook.PlanHook.constructor | client/src/hooks/use-schedule.ts:7 | the plan starts empty |
| ScheduleHook.PlanHook.AddCourseToPlan | client/src/hooks/use-schedule.ts:27-38 | the new plan is the upsert of the entry into the old plan |
| ScheduleHook.PlanHook.RemoveCourseFromPlan | client/src/hooks/use-schedule.ts:40-43 | the new plan is the old plan without the course |
| ScheduleHook.PlanHook.UpdateSectionSelection | client/src/hooks/use-schedule.ts:45-52 | the new plan is the old plan with the course's section replaced |
| ScheduleHook.PlanHook.DetectScheduleConflicts | client/src/hooks/use-schedule.ts:54-78 | the double loop returns the pairwise conflicts of the selected sections |
| ScheduleHook.PlanHook.SuggestCoursesForTerm | client/src/hooks/use-schedule.ts:116-171 | returns the ids of the three greedy passes in order |
| EditCourse.KnownIds | client/src/admin/components/EditCourseDialog.tsx:48 | an id is known exactly when some catalog course has it |
| EditCourse.Validate | client/src/admin/components/EditCourseDialog.tsx:72-82 | no problem exactly when the form is acceptable; the id, name, credits and term messages each exactly when their rule is the first to fail; an unknown-requisite or self-reference message only when every earlier rule holds, naming the first unknown prerequisite or corequisite |
| EditCourse.ValidateFirstFailing | client/src/admin/components/EditCourseDialog.tsx:72-82 | conversely, once the first four rules hold, the first unknown prerequisite, then the first unknown corequisite, then a self prerequisite, then a self corequisite is the message given |
| EditCourse.SelfReferenceOfNewCourse | client/src/admin/components/EditCourseDialog.tsx:77-79 | a new course listing itself as prerequisite is refused as an unknown prerequisite, before the self-reference rule is reached |
| EditCourse.HandleSave | client/src/admin/components/EditCourseDialog.tsx:84-96 | a course is handed on exactly when validation passes, with both lists present, deduplicated and holding the same ids, and every other field unchanged |
| EditCourse.HandleSaveIdempotent | client/src/admin/components/EditCourseDialog.tsx:84-96 | a saved course validates again and saving it again gives the same course |
| EditCourse.Toggle | client/src/admin/components/EditCourseDialog.tsx:57-61 | the toggled id is in the new list exactly when it was not in the old one; all other ids keep their membership; no id appears twice |
| EditCourse.ToggleTwice | client/src/admin/components/EditCourseDialog.tsx:57-61 | toggling an id twice, starting from a duplicate-free list without it, gives back that list |
| EditCourse.ToggleField | client/src/admin/components/EditCourseDialog.tsx:57-61 | in the named list the id changes membership, every other id keeps its own, and no id repeats; the other list and all other fields stay |
| EditCourse.ToggleFieldTwice | client/src/admin/components/EditCourseDialog.tsx:57-61 | toggling an absent id into a duplicate-free list of the form and back gives that list again |
| EditCourse.AddSectionSpec | client/src/admin/components/EditCourseDialog.tsx:126-137 | a blank trimmed CRN is refused; an existing CRN is refused; otherwise one new open row with the trimmed CRN and room and no blocks is appended, and CRNs stay distinct |
| EditCourse.EditSectionInline | client/src/admin/components/EditCourseDialog.tsx:139-141 | only rows with the CRN change, and only the edited field; CRNs, blocks and slots are untouched |
| EditCourse.DeleteSection | client/src/admin/components/EditCourseDialog.tsx:143-146 | exactly the rows of other CRNs remain, in order |
| EditCourse.AddTimeBlock | client/src/admin/components/EditCourseDialog.tsx:148-160 | a block with an empty day, start or end is refused; otherwise the entered block, or Mon 07:00-09:00 when none was entered, is appended to the schedule of the rows with the CRN and nothing else changes |
| EditCourse.RemoveAt | client/src/admin/components/EditCourseDialog.tsx:165 | dropping position i removes exactly that element; an index outside the list changes nothing |
| EditCourse.RemoveTimeBlock | client/src/admin/components/EditCourseDialog.tsx:162-168 | the rows with the CRN lose the block at the index; other rows are unchanged |
| EditCourse.AddThenRemoveBlock | client/src/admin/components/EditCourseDialog.tsx:148-168 | removing the block just appended gives back the sections |
| EditCourse.ConflictsSpec | client/src/admin/components/EditCourseDialog.tsx:170-182 | a message is reported exactly when it names a clashing pair of rows i < j |
| EditCourse.ConflictsEmpty | client/src/admin/components/EditCourseDialog.tsx:170-182 | no message exactly when no two rows clash |
| EditCourse.SaveGate | client/src/admin/components/EditCourseDialog.tsx:184-192 | only the unchanged list is ever persisted |
| EditCourse.SaveGateSpec | client/src/admin/components/EditCourseDialog.tsx:184-192 | the list is persisted exactly when no two rows clash |
| EditCourse.AddSectionKeepsConflicts | client/src/admin/components/EditCourseDialog.tsx:126-137 | reading absent slots as none, a new section changes neither the messages nor whether the list can be saved |
| EditCourse.SectionHasConflict | client/src/admin/components/EditCourseDialog.tsx:194-200 | true exactly when the first row with the CRN clashes with some row of another CRN |
| EditCourse.AddedSectionHasNoConflict | client/src/admin/components/EditCourseDialog.tsx:194-200 | reading absent slots as none, a section just added is never marked as clashing |
| EditCourse.SoleRowHasNoConflict | client/src/admin/components/EditCourseDialog.tsx:197-199 | a row is never compared with rows of its own CRN, although it clashes with itself |
| EditCourse.ConflictCheckAsWritten | client/src/utils/sections-processor.ts:133-145 | when the clash test does not throw over an absent slot list, it agrees with the clash relation |
| EditCourse.ConflictsAsWritten | client/src/admin/components/EditCourseDialog.tsx:170-182 | the scan as written throws exactly when one of its pair tests throws |
| EditCourse.ConflictsAsWrittenWithSlots | client/src/admin/components/EditCourseDialog.tsx:170-182 | on rows that all carry slots the scan as written returns the corrected messages |
| EditCourse.AddedSectionBreaksScan | client/src/admin/components/EditCourseDialog.tsx:126-137 | as written, adding a section beside a loaded row with slots makes the conflict scan throw |
| EditCourse.AnyClashAsWritten | client/src/admin/components/EditCourseDialog.tsx:197-199 | a true answer as written names a row of another CRN that clashes |
| EditCourse.AddedSectionBreaksRowCheck | client/src/admin/components/EditCourseDialog.tsx:194-200 | as written, asking whether a freshly added section clashes throws whenever other rows exist |
| EditCourseDialog.CourseEditor.constructor | client/src/admin/components/EditCourseDialog.tsx:43 | the editor starts with the given course and section list |
| EditCourseDialog.CourseEditor.ToggleInList | client/src/admin/components/EditCourseDialog.tsx:57-61 | the form becomes its toggle on the named list; sections are unchanged |
| EditCourseDialog.CourseEditor.HandleSave | client/src/admin/components/EditCourseDialog.tsx:84-96 | hands on what the save function gives for the current form |
| EditCourseDialog.CourseEditor.AddSection | client/src/admin/components/EditCourseDialog.tsx:126-137 | the sections become the added list, or stay and the problem is reported |
| EditCourseDialog.CourseEditor.EditSectionInline | client/src/admin/components/EditCourseDialog.tsx:139-141 | the sections become the inline edit of the old ones |
| EditCourseDialog.CourseEditor.DeleteSection | client/src/admin/components/EditCourseDialog.tsx:143-146 | the sections lose the CRN's rows |
| EditCourseDialog.CourseEditor.AddTimeBlock | client/src/admin/components/EditCourseDialog.tsx:148-160 | the sections gain the block, or stay and the problem is reported |
| EditCourseDialog.CourseEditor.RemoveTimeBlock | client/src/admin/components/EditCourseDialog.tsx:162-168 | the sections lose the indexed block of the CRN's rows |
| EditCourseDialog.CourseEditor.ValidateConflicts | client/src/admin/components/EditCourseDialog.tsx:170-182 | the double loop returns the pairwise conflict messages |
| EditCourseDialog.CourseEditor.SaveSections | client/src/admin/components/EditCourseDialog.tsx:184-192 | the persisted list is the save gate's answer |
| ConvertCourses.Items | convert_courses.js:29 | exactly the trimmed comma items that pass the item filter, in their order and each as often as it occurs; each is already trimmed |
| ConvertCourses.CoReqAt | convert_courses.js:20 | a match of the Co-Req pattern starting its lazy group at p captures exactly the text before p |
| ConvertCourses.ParseRequisites | convert_courses.js:11-44 | every prerequisite is trimmed, non-empty and not "[]"; every corequisite is trimmed and non-empty |
| ConvertCourses.ParseBlank | convert_courses.js:15-17 | blank text or "[]" gives no requisites |
| ConvertCourses.ParseWithoutMark | convert_courses.js:36-41 | text without the Co-Req mark gives its comma items as prerequisites and no corequisites |
| ConvertCourses.ParseUnmatched | convert_courses.js:36-41 | whenever the Co-Req pattern does not match, the whole text is read as prerequisites |
| ConvertCourses.CoReqFirstMark | convert_courses.js:20 | on one line, the pattern matches exactly when text follows the first mark; the groups then are the text before the mark less the spaces before it and the text after it less the spaces after it |
| ConvertCourses.ParseWithMark | convert_courses.js:22-35 | on one line with text after the first Co-Req mark, prerequisites come from the trimmed text before the mark unless it is empty or "[]", and corequisites from the trimmed text after it |
| ConvertCourses.ParseMatched | convert_courses.js:22-35 | the two trimmed match groups give the two lists, the first skipped when empty or "[]", the second when empty |
| ConvertCourses.Collapse | convert_courses.js:48 | replacing each whitespace run by one space leaves no two adjacent spaces and keeps emptiness and whether the text starts with whitespace |
| ConvertCourses.CollapseSingleSpaced | convert_courses.js:48 | text that is already single-spaced is unchanged by the replacement |
| ConvertCourses.TrimSingleSpaced | convert_courses.js:48 | trimming keeps text single-spaced |
| ConvertCourses.CleanName | convert_courses.js:47-49 | a cleaned name has no whitespace at either end and no whitespace run longer than one character |
| ConvertCourses.CleanNameIdempotent | convert_courses.js:47-49 | cleaning a cleaned name changes nothing |
| ConvertCourses.Prefix | convert_courses.js:159 | the prefix holds no dash |
| ConvertCourses.PrefixOfCourseId | convert_courses.js:159 | for an id whose fourth character is the first dash, the prefix is the three letters |
| ConvertCourses.DescriptionOfCourseId | convert_courses.js:143-161 | a well-shaped id whose three letters have a fixed text gets that text; any other gets the sentence naming its block |
| ConvertCourses.DescriptionByLetters | convert_courses.js:143-161 | courses with the same three letters in the same block share their description |
| ConvertCourses.CourseLineAt | convert_courses.js:96-103 | a matched line starts with a well-shaped course code, has a non-empty name, the pattern's number of number fields, and a rest on one line |
| ConvertCourses.RegularLineReads | convert_courses.js:96 | a line laid out as code, plain name, four numbers and a plain rest reads back as exactly those fields |
| ConvertCourses.TermNumber | convert_courses.js:86 | the number found is the one at the first place where "TERM " and digits occur, and none is found only when no place matches |
| ConvertCourses.TermLine | convert_courses.js:86-88 | a header starting with "TERM " and digits reads that number |
| ConvertCourses.HeaderSetsBlock | convert_courses.js:63-76 | the first block name contained in the header sets the block, in the source's order; otherwise the block is kept |
| ConvertCourses.HeaderSetsTerm | convert_courses.js:63-91 | a block header sets the term to 7, 12, 16 or 18; a TERM header outside the elective headers then sets the term it reads; otherwise the term is kept |
| ConvertCourses.HeaderSetsElectiveType | convert_courses.js:78-90 | an elective header sets general or professional; a TERM header clears it; otherwise it is kept |
| ConvertCourses.CourseFromState | convert_courses.js:105-136 | a produced course carries the scan's term, block and elective type, is elective exactly when a type is set, keeps the line's code, and only the internship form has no practical hours |
| ConvertCourses.GoodCourseFrom | convert_courses.js:117-136 | a course read in a well-formed scan state has a well-shaped id, a known block and type, a clean name, non-negative numbers, a description and clean requisite lists |
| ConvertCourses.GoodHeader | convert_courses.js:63-91 | header lines keep the scan state well-formed |
| ConvertCourses.ScanGood | convert_courses.js:55-140 | after any text the state is well-formed and every produced course is well-formed |
| ConvertCourses.ScanProvenance | convert_courses.js:55-140 | every produced course is read from one non-header line in the state the lines before it left |
| ConvertCourses.StepCourses | convert_courses.js:55-139 | one line adds at most the course read from it to the course list |
| ConvertCourses.ByTermThenIdPreorder | convert_courses.js:164-167 | with a total preorder on ids, term then id is a total preorder |
| ConvertCourses.ConvertSorted | convert_courses.js:52-167 | the output is a permutation of the scanned courses ordered by term, and by id within a term |
| ConvertCoursesScript.ReadHeader | convert_courses.js:63-91 | the header branch's two if-chains give the state HeaderStep specifies |
| ConvertCoursesScript.ReadLine | convert_courses.js:55-139 | one pass of the loop body: a header line moves the term, block and elective type as HeaderStep does, and any other line appends the course it reads, if it reads one |
| ConvertCoursesScript.GenerateCourses | convert_courses.js:52-167 | the script's loop over the lines and its sort return the conversion |
| CourseData.GetCourseById | client/src/hooks/use-course-data.ts:36-38 | nothing exactly when no course has the id; otherwise the first course with that id |
| CourseData.GetSectionsByCourse | client/src/hooks/use-course-data.ts:40-42 | exactly the sections of the course, in catalog order |
| CourseData.GetCoursesByTerm | client/src/hooks/use-course-data.ts:44-46 | exactly the courses of the term, in catalog order |
| CourseData.GetElectivesByType | client/src/hooks/use-course-data.ts:48-50 | exactly the electives of the type, in catalog order |
| CourseData.GetTermNameSpec | client/src/hooks/use-course-data.ts:52-75 | terms 1 to 19 get their fixed names, every other number the fallback text with its decimal digits; the name is never empty |
| CourseData.GetTermNameInjective | client/src/hooks/use-course-data.ts:52-75 | different term numbers get different names |
| CourseData.TallyDistinct | client/src/hooks/use-course-data.ts:77-92 | the term map holds each term once |
| CourseData.TallyEntries | client/src/hooks/use-course-data.ts:77-92 | each entry has its term's name, the block of the term's first course, the credit sum and the count of the term's courses, at least one |
| CourseData.TallyCovers | client/src/hooks/use-course-data.ts:77-92 | every course's term has its entry |
| CourseData.CountCourse | client/src/hooks/use-course-data.ts:80-91 | one step of the loop opens the entry of a new term or adds the course's credits and one course to the existing entry |
| CourseData.GetAllTerms | client/src/hooks/use-course-data.ts:77-94 | terms strictly ascending, each entry the summary of its term with at least one course, and every course's term present |
| PlanModal.GroupAvailable | client/src/components/comprehensive-plan-modal.tsx:42-55 | the loop groups exactly the available courses by term, in catalog order |
| PlanModal.ByNamePreorder | client/src/components/comprehensive-plan-modal.tsx:63 | with a total preorder on names, comparing courses by name is one |
| PlanModal.ComputeCoursesByTerm | client/src/components/comprehensive-plan-modal.tsx:42-65 | the grouping loop and the sorts return the grouped terms |
| PlanModal.CoursesByTermOrder | client/src/components/comprehensive-plan-modal.tsx:58-62 | terms are strictly ascending and each carries the first term record with its number |
| PlanModal.CoursesByTermBuckets | client/src/components/comprehensive-plan-modal.tsx:45-63 | each bucket is sorted by name and is a permutation of the available courses of its term |
| PlanModal.CoursesByTermCovers | client/src/components/comprehensive-plan-modal.tsx:45-55 | every available course appears in the bucket of its term |
| PlanModal.CoursesByTermOnlyAvailable | client/src/components/comprehensive-plan-modal.tsx:45-55 | every listed course is an available course of the catalog in its term's bucket |
| PlanModal.GetSectionsForCourse | client/src/components/comprehensive-plan-modal.tsx:68-73 | only open sections are returned |
| PlanModal.SectionsForCourseSpec | client/src/components/comprehensive-plan-modal.tsx:68-73 | no catalog course equal to the name ignoring case gives no sections; for the first catalog course whose name equals it ignoring case, the result is exactly that course's open sections, in order |
| PlanModal.Chosen | client/src/components/comprehensive-plan-modal.tsx:106-112 | a selection is made only for a known course and an open section with the CRN |
| PlanModal.SelectSectionSpec | client/src/components/comprehensive-plan-modal.tsx:106-121 | an unknown course or section changes nothing; otherwise the new selection is last, the only one of its course, the others unchanged; one selection per course is kept |
| PlanModal.RemoveSelectionSpec | client/src/components/comprehensive-plan-modal.tsx:123-125 | exactly the selections of other courses remain, in order, and one selection per course is kept |
| PlanModal.SelectKeepsKnown | client/src/components/comprehensive-plan-modal.tsx:106-121 | selections stay tied to courses of the catalog |
| PlanModal.TotalCreditsNonNegative | client/src/components/comprehensive-plan-modal.tsx:76-79 | with non-negative credits the total is non-negative |
| PlanModal.TotalAfterSelect | client/src/components/comprehensive-plan-modal.tsx:76-79 | after a selection the total is the total without the course plus its credits |
| PlanModal.ConflictsEmpty | client/src/components/comprehensive-plan-modal.tsx:82-104 | no message exactly when no pair i < j both clashes and names two known courses |
| PlanModal.CanSaveSpec | client/src/components/comprehensive-plan-modal.tsx:127-148 | with known courses, the save button is enabled exactly when no two selections clash, the total is at most 31 and something is selected; enabled implies a save goes through; an empty selection saves through the handler although the button is disabled |
| PlanModal.PlanDialog.constructor | client/src/components/comprehensive-plan-modal.tsx:34 | the selection starts empty |
| PlanModal.PlanDialog.HandleSectionSelect | client/src/components/comprehensive-plan-modal.tsx:106-121 | the selection becomes the select function of the old one |
| PlanModal.PlanDialog.HandleRemoveSelection | client/src/components/comprehensive-plan-modal.tsx:123-125 | the selection loses the course |
| PlanModal.PlanDialog.HandleClearPlan | client/src/components/comprehensive-plan-modal.tsx:144-146 | the selection becomes empty |
| PlanModal.PlanDialog.CheckConflicts | client/src/components/comprehensive-plan-modal.tsx:82-104 | the double loop returns the conflict messages |
| PlanModal.PlanDialog.HandleSavePlan | client/src/components/comprehensive-plan-modal.tsx:127-142 | the save goes through exactly by the save rule |
| CourseList.KeepIff | client/src/components/course-list.tsx:30-56 | a course is kept exactly when it passes each set filter: term, status, electives only, in plan only, and the lower-cased search text occurring in the lower-cased id or name |
| CourseList.SearchIgnoresCase | client/src/components/course-list.tsx:47-53 | lower-casing the search text does not change which courses are kept |
| CourseList.FilteredCourses | client/src/components/course-list.tsx:29-57 | exactly the kept courses, in catalog order |
| CourseList.NoFiltersKeepAll | client/src/components/course-list.tsx:29-57 | with no filter set every course is listed |
| CourseList.FlagsNarrow | client/src/components/course-list.tsx:41-44 | turning on electives only or in plan only lists exactly the earlier list's electives or planned courses |
| CourseList.LookupAgrees | client/src/components/course-list.tsx:63 | the group of a term is found where its bucket is |
| CourseList.PlacePush | client/src/components/course-list.tsx:62-73 | placing a course on labelled groups labels the grouping with the course pushed onto its term's bucket |
| CourseList.PlaceStep | client/src/components/course-list.tsx:62-73 | placing the next course updates the groups as grouping one more course does |
| CourseList.PlaceCourse | client/src/components/course-list.tsx:63-72 | one step of the loop opens the group of a new term or appends the course to its group |
| CourseList.ComputeGroupedCourses | client/src/components/course-list.tsx:59-76 | the loop and the sort return the grouped courses |
| CourseList.GroupedOrder | client/src/components/course-list.tsx:75 | groups come in strictly ascending term order |
| CourseList.GroupedBuckets | client/src/components/course-list.tsx:62-72 | each group holds exactly the listed courses of its term, in order, and at least one |
| CourseList.GroupedLabels | client/src/components/course-list.tsx:64-68 | a group's name is its term record's name, or "Term" and the number when that is missing or empty; its block is the record's block, or that of the term's first listed course |
| CourseList.GroupedCovers | client/src/components/course-list.tsx:62-73 | every listed course is in the group of its term |
| CourseList.GroupedUnique | client/src/components/course-list.tsx:62-73 | no course is in two groups |
| Pairs.ScanMember | client/src/hooks/use-schedule.ts:61-75 | a pair scan reports exactly the messages of the pairs i < j whose test yields one |
| Pairs.AllPairsShape | client/src/hooks/use-schedule.ts:61-62 | the nested loops visit every pair i < j below the length once, and only those |
| Pairs.ScanLoop | client/src/admin/components/EditCourseDialog.tsx:170-182 | the nested loops return the pair scan's messages in loop order |
| Grouping.GroupKeys | client/src/hooks/use-course-data.ts:78-92 | the map holds each key once, and a key has an entry exactly when some element has it |
| Grouping.GroupBuckets | client/src/hooks/use-course-data.ts:78-92 | each entry holds exactly the elements of its key, in input order, and at least one |

## Left out

- Rendering: JSX, dialogs, banners, alerts, badges and the components with no logic of their own (dashboard, admin panel, grade input, course detail, progress header). None of them decides anything the model states.
- Storage and input/output: the `localStorage` load and save in the hooks and the context, `fetch` in the course-data hook, the data providers, and `readFileSync`/`writeFileSync` and console output in both scripts. The data they carry is a parameter or a field.
- Server code (routes, seed, storage, schema), the service worker and the build configuration: outside the curriculum logic.
- `calculateGPA` in both progress files: it divides floating-point numbers. Grade points are integers in tenths instead (3.7 is 37).
- The timestamp `new Date().toISOString()` in the mark operations: the caller passes `completedAt` as an opaque text.
- `localeCompare`: it depends on the locale. Both name sorts and the id sort take a total preorder on strings as a parameter.
- General regular expressions: only the concrete patterns the code uses are modelled, each as a scanner.
- `toLowerCase`: modelled for ASCII and the Latin-1 capitals only. Other scripts' case mappings are not modelled.
- `Number` and `parseInt`: read an optional sign and decimal digits; anything else is NaN. Exponents, hexadecimal, fractions and precision beyond 2^53 are not modelled (JavaScript numbers are doubles; the model's integers are unbounded).
- The `for...of` over an absent list, `?.` and `||` on a missing field: modelled only where the text depends on them (see Findings). Elsewhere a missing optional list is read as empty.
- `Array.prototype.sort`: modelled as a stable insertion sort under the comparator's preorder (the language guarantees stability). Comparators such as `a.term - b.term` are read as the order on the key.
- The `filteredList` and `filteredSections` search boxes, `handleNumber`, `handleText` and the section-loading effect of the course editor: input plumbing for the UI. The catalog search of the course list, which filters the same way, is modelled.
- The course editor's time blocks (`schedule`, `HH:MM` texts) and the slots the clash test reads are separate fields, and the source has no conversion between them. The model keeps them apart and takes `slots` as loaded.
- The merge script's `existingSectionsByCRN` map is built but never read, so it is not modelled. The script pushes new sections into course objects shared with the loaded data; the model returns the merged list as a value, so that aliasing is not captured.
- The plan hook's `savePlan` writes the plan to storage; only its state update is modelled.
- ConvertCourses.RegularLineReads: the read-back is proved only for names in which no word starts with a digit. For other names, the regular expression's lazy name group may end earlier, and the model computes that reading without a read-back lemma. The internship line format (`weeks 0`) is read the same way, and no read-back is proved for it.
- ConvertCourses.ParseWithMark: stated for requisite text on one line, where `.` matches every character. ParseMatched covers any text through the pattern's groups.
- SectionsProcessor.TextRoundTrip: stated for times whose minutes are below 60; other texts do not survive the round trip.
- ScheduleHook.GreedyTakesWhatFits: stated for courses whose credits are not negative. With a negative credit later in a pass, the final total can fall below a total at which an earlier candidate was refused, so the statement about the final total would not follow.

## Findings

| source | as written | input that shows it | evidently intended | confidence | as-written member | corrected member |
|---|---|---|---|---|---|---|
| client/src/admin/components/EditCourseDialog.tsx:126-182 | `addSection` creates a row with no `slots` field. `validateConflicts` passes every pair to `hasScheduleConflict`, whose `for...of` over `a.slots` and `b.slots` throws on a missing list. | A list loaded with one row whose slots are `[{day: "L", start: 420, end: 540}]`, then `addSection` with CRN "X1". The pair (loaded row, new row) reads the new row's missing `slots`, so `saveSections` throws instead of saving. | A new row has no times, so it clashes with nothing, and the list saves exactly when the loaded rows do | medium, not executed | EditCourse.AddedSectionBreaksScan | EditCourse.AddSectionKeepsConflicts |
| client/src/admin/components/EditCourseDialog.tsx:194-200 | `sectionHasConflict` finds the row and tests it against every row of another CRN with `hasScheduleConflict(me, other)`. For a freshly added row, `me.slots` is missing. | Any non-empty list, then `addSection` with a new CRN. Drawing the new row calls `sectionHasConflict` on it, and the first other row makes the test read the missing `slots`. | False for a row without times | medium, not executed | EditCourse.AddedSectionBreaksRowCheck | EditCourse.AddedSectionHasNoConflict |
