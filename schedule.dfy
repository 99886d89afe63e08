/**
 * The course-plan hook: an ordered list of plan entries, at most one per course, with
 * upsert, removal and section reselection; the time-conflict scans over the sections the
 * plan selects; the credit total of a term; and the greedy term suggester.
 */
module ScheduleHook {
  import opened Wrappers
  import opened Seqs
  import opened Catalog
  import Pairs
  import SectionsProcessor
  import StudentProgressContext

  // ---------------------------------------------------------------- plan entries

  /** The test `findIndex` and `filter` use for the entries of a course. */
  function OfCourse(courseId: string): CoursePlan -> bool {
    (p: CoursePlan) => p.courseId == courseId
  }

  function OtherCourse(courseId: string): CoursePlan -> bool {
    (p: CoursePlan) => p.courseId != courseId
  }

  function PlanIds(plan: seq<CoursePlan>): set<string> {
    set p | p in plan :: p.courseId
  }

  /** No course has two entries. */
  predicate UniqueCourses(plan: seq<CoursePlan>) {
    forall i, j :: 0 <= i < j < |plan| ==> plan[i].courseId != plan[j].courseId
  }

  /** `addCourseToPlan`'s new list: the entry replaces the first one of its course, or is pushed. */
  function Upsert(plan: seq<CoursePlan>, entry: CoursePlan): seq<CoursePlan> {
    match FindIndex(plan, OfCourse(entry.courseId))
    case Some(i) => plan[i := entry]
    case None => plan + [entry]
  }

  /**
   * An upsert keeps the index of a course already planned and appends otherwise; the
   * entries of other courses stay as they were, in order; and a plan with one entry per
   * course keeps one entry per course, the new entry being that course's only one.
   */
  lemma UpsertSpec(plan: seq<CoursePlan>, entry: CoursePlan)
    ensures var r := Upsert(plan, entry);
      (entry.courseId in PlanIds(plan) ==>
         |r| == |plan| && exists i :: 0 <= i < |plan| && plan[i].courseId == entry.courseId && r == plan[i := entry])
      && (entry.courseId !in PlanIds(plan) ==> r == plan + [entry])
      && Filter(r, OtherCourse(entry.courseId)) == Filter(plan, OtherCourse(entry.courseId))
      && (UniqueCourses(plan) ==>
           UniqueCourses(r) && forall k :: 0 <= k < |r| && r[k].courseId == entry.courseId ==> r[k] == entry)
  {
    var id := entry.courseId;
    var r := Upsert(plan, entry);
    match FindIndex(plan, OfCourse(id)) {
      case Some(i) =>
        FilterReplace(plan, i, entry, OtherCourse(id));
      case None =>
        assert id !in PlanIds(plan);
        FilterSnoc(plan, entry, OtherCourse(id));
    }
  }

  /** Replacing an element the filter drops by another it drops leaves the filtered list as it was. */
  lemma FilterReplace<T(!new)>(s: seq<T>, i: nat, x: T, p: T -> bool)
    requires i < |s| && !p(s[i]) && !p(x)
    ensures Filter(s[i := x], p) == Filter(s, p)
  {
    assert s == s[..i] + [s[i]] + s[i + 1..];
    assert s[i := x] == s[..i] + [x] + s[i + 1..];
    FilterConcat(s[..i] + [s[i]], s[i + 1..], p);
    FilterConcat(s[..i], [s[i]], p);
    FilterConcat(s[..i] + [x], s[i + 1..], p);
    FilterConcat(s[..i], [x], p);
    assert Filter([s[i]], p) == [] == Filter([x], p);
  }

  /** `removeCourseFromPlan`: every entry of the course dropped, the others kept in order. */
  function RemovePlan(plan: seq<CoursePlan>, courseId: string): (r: seq<CoursePlan>)
    ensures courseId !in PlanIds(r)
    ensures forall p :: p in r <==> p in plan && p.courseId != courseId
    ensures IsSubsequence(r, plan)
  {
    FilterIsSubsequence(plan, OtherCourse(courseId));
    Filter(plan, OtherCourse(courseId))
  }

  /** Removing keeps one entry per course; removing a course just added to a plan without it gives the plan back. */
  lemma RemovePlanSpec(plan: seq<CoursePlan>, entry: CoursePlan)
    ensures UniqueCourses(plan) ==> UniqueCourses(RemovePlan(plan, entry.courseId))
    ensures entry.courseId !in PlanIds(plan) ==> RemovePlan(Upsert(plan, entry), entry.courseId) == plan
  {
    var r := RemovePlan(plan, entry.courseId);
    if UniqueCourses(plan) {
      SubsequenceUnique(r, plan);
    }
    if entry.courseId !in PlanIds(plan) {
      UpsertSpec(plan, entry);
      FilterSnoc(plan, entry, OtherCourse(entry.courseId));
      FilterAll(plan, OtherCourse(entry.courseId));
    }
  }

  lemma {:induction false} SubsequenceUnique(a: seq<CoursePlan>, b: seq<CoursePlan>)
    requires IsSubsequence(a, b) && UniqueCourses(b)
    ensures UniqueCourses(a)
    decreases |b|
  {
    if a != [] {
      assert UniqueCourses(b[1..]) by {
        forall i, j | 0 <= i < j < |b[1..]| ensures b[1..][i].courseId != b[1..][j].courseId {
          assert b[1..][i] == b[i + 1] && b[1..][j] == b[j + 1];
        }
      }
      if a[0] == b[0] && IsSubsequence(a[1..], b[1..]) {
        SubsequenceUnique(a[1..], b[1..]);
        SubsequenceMembers(a[1..], b[1..]);
        forall i, j | 0 <= i < j < |a| ensures a[i].courseId != a[j].courseId {
          assert a[j] == a[1..][j - 1];
          if i > 0 {
            assert a[i] == a[1..][i - 1];
          } else {
            assert a[j] in a[1..];
            var k :| 0 <= k < |b[1..]| && b[1..][k] == a[j];
            assert b[k + 1] == a[j];
          }
        }
      } else {
        SubsequenceUnique(a, b[1..]);
      }
    }
  }

  /**
   * `updateSectionSelection`: each entry of the course gets the section, the others stay.
   * No entry moves, and none changes its course, term or priority.
   */
  function Reselect(plan: seq<CoursePlan>, courseId: string, sectionId: string): (r: seq<CoursePlan>)
    ensures |r| == |plan|
    ensures forall k :: 0 <= k < |r| ==>
      r[k].courseId == plan[k].courseId && r[k].plannedTerm == plan[k].plannedTerm && r[k].priority == plan[k].priority
  {
    seq(|plan|, k requires 0 <= k < |plan| =>
      if plan[k].courseId == courseId then plan[k].(sectionId := Some(sectionId)) else plan[k])
  }

  /** A reselection changes neither the planned courses nor which courses are planned. */
  lemma ReselectKeepsCourses(plan: seq<CoursePlan>, courseId: string, sectionId: string)
    ensures PlanIds(Reselect(plan, courseId, sectionId)) == PlanIds(plan)
    ensures UniqueCourses(plan) ==> UniqueCourses(Reselect(plan, courseId, sectionId))
  {
    var r := Reselect(plan, courseId, sectionId);
    forall id ensures id in PlanIds(r) <==> id in PlanIds(plan) {
      if id in PlanIds(r) {
        var p :| p in r && p.courseId == id;
        var k :| 0 <= k < |r| && r[k] == p;
        assert plan[k] in plan;
      }
      if id in PlanIds(plan) {
        var p :| p in plan && p.courseId == id;
        var k :| 0 <= k < |plan| && plan[k] == p;
        assert r[k] in r;
      }
    }
  }

  /** `getCoursesInPlan`. */
  function CoursesInPlan(plan: seq<CoursePlan>): (r: set<string>)
    ensures forall id :: id in r <==> exists k :: 0 <= k < |plan| && plan[k].courseId == id
  {
    var r := PlanIds(plan);
    assert forall id :: id in r ==> exists k :: 0 <= k < |plan| && plan[k].courseId == id by {
      forall id | id in r ensures exists k :: 0 <= k < |plan| && plan[k].courseId == id {
        var p :| p in plan && p.courseId == id;
        var k :| 0 <= k < |plan| && plan[k] == p;
      }
    }
    r
  }

  // ---------------------------------------------------------------- credits

  /** `courses.find(c => c.id === id)?.credits || 0`. */
  function CreditOf(courses: seq<Course>, courseId: string): int {
    match Find(courses, (c: Course) => c.id == courseId)
    case Some(c) => c.credits
    case None => 0
  }

  /** A course's credits are those of the first catalog entry with its id, and 0 when none has it. */
  lemma CreditOfSpec(courses: seq<Course>, courseId: string)
    ensures (forall c :: c in courses ==> c.id != courseId) ==> CreditOf(courses, courseId) == 0
    ensures forall k :: (0 <= k < |courses| && courses[k].id == courseId &&
      (forall j :: 0 <= j < k ==> courses[j].id != courseId)) ==> CreditOf(courses, courseId) == courses[k].credits
  {
  }

  function InTerm(term: int): CoursePlan -> bool {
    (p: CoursePlan) => p.plannedTerm == term
  }

  function EntryCredit(courses: seq<Course>): CoursePlan -> int {
    (p: CoursePlan) => CreditOf(courses, p.courseId)
  }

  /** `getPlannedTermCredits`: the credits of the term's entries, a course missing from `courses` counting 0. */
  function PlannedTermCredits(plan: seq<CoursePlan>, term: int, courses: seq<Course>): int {
    SumOf(Filter(plan, InTerm(term)), EntryCredit(courses))
  }

  /** The term's credits are the sum over the whole plan of the credits of entries in that term. */
  lemma PlannedTermCreditsOverPlan(plan: seq<CoursePlan>, term: int, courses: seq<Course>)
    ensures PlannedTermCredits(plan, term, courses)
      == SumOf(plan, (p: CoursePlan) => if p.plannedTerm == term then CreditOf(courses, p.courseId) else 0)
  {
    SumOfFilter(plan, InTerm(term), EntryCredit(courses),
      (p: CoursePlan) => if p.plannedTerm == term then CreditOf(courses, p.courseId) else 0);
  }

  /** Planning a new course adds its credits to its term and nothing to the others. */
  lemma PlannedTermCreditsAdd(plan: seq<CoursePlan>, entry: CoursePlan, term: int, courses: seq<Course>)
    requires entry.courseId !in PlanIds(plan)
    ensures PlannedTermCredits(Upsert(plan, entry), term, courses)
      == PlannedTermCredits(plan, term, courses) + if entry.plannedTerm == term then CreditOf(courses, entry.courseId) else 0
  {
    UpsertSpec(plan, entry);
    FilterSnoc(plan, entry, InTerm(term));
    SumOfConcat(Filter(plan, InTerm(term)), if entry.plannedTerm == term then [entry] else [], EntryCredit(courses));
    assert SumOf([entry], EntryCredit(courses)) == CreditOf(courses, entry.courseId) by {
      assert [entry][..0] == [];
    }
  }

  /** Choosing a section changes no term's credits. */
  lemma PlannedTermCreditsReselect(plan: seq<CoursePlan>, courseId: string, sectionId: string, term: int, courses: seq<Course>)
    ensures PlannedTermCredits(Reselect(plan, courseId, sectionId), term, courses) == PlannedTermCredits(plan, term, courses)
  {
    var f := (p: CoursePlan) => if p.plannedTerm == term then CreditOf(courses, p.courseId) else 0;
    PlannedTermCreditsOverPlan(plan, term, courses);
    PlannedTermCreditsOverPlan(Reselect(plan, courseId, sectionId), term, courses);
    SumOfPointwise(Reselect(plan, courseId, sectionId), plan, f);
  }

  /** Sums of two lists that agree term by term are equal. */
  lemma {:induction false} SumOfPointwise<T>(a: seq<T>, b: seq<T>, f: T -> int)
    requires |a| == |b| && forall k :: 0 <= k < |a| ==> f(a[k]) == f(b[k])
    ensures SumOf(a, f) == SumOf(b, f)
  {
    if a != [] {
      SumOfPointwise(a[..|a| - 1], b[..|b| - 1], f);
    }
  }

  /** With non-negative catalog credits, a term's planned credits are non-negative. */
  lemma PlannedTermCreditsNonNegative(plan: seq<CoursePlan>, term: int, courses: seq<Course>)
    requires forall c :: c in courses ==> c.credits >= 0
    ensures PlannedTermCredits(plan, term, courses) >= 0
  {
    var f := EntryCredit(courses);
    forall p | p in Filter(plan, InTerm(term)) ensures f(p) >= 0 {
      match Find(courses, (c: Course) => c.id == p.courseId) {
        case Some(c) =>
        case None =>
      }
    }
    SumOfNonNegative(Filter(plan, InTerm(term)), f);
  }

  // ---------------------------------------------------------------- conflicts

  /** What the hook reports for two conflicting sections. */
  datatype ScheduleConflict = ScheduleConflict(course1: string, course2: string, conflictTime: string)

  /** `a < b` on `timeToMinutes` values, false when either is NaN. */
  predicate Less(a: Option<int>, b: Option<int>) {
    a.Some? && b.Some? && a.value < b.value
  }

  /*
   * The conflict scan is written for any reading `read` of the block times; the hook
   * reads them with `timeToMinutes`, which is `SectionsProcessor.TimeToMinutes`.
   */

  /** A block of a schedule with its two times read. */
  datatype Span = Span(day: string, start: Option<int>, end: Option<int>)

  function SpanOf(read: string -> Option<int>, b: ScheduleBlock): Span {
    Span(b.day, read(b.startTime), read(b.endTime))
  }

  /** Same day, and each starts before the other ends. */
  predicate SpansConflict(x: Span, y: Span) {
    x.day == y.day && Less(x.start, y.end) && Less(y.start, x.end)
  }

  /** Two time blocks on the same day whose intervals overlap. */
  predicate BlocksConflict(read: string -> Option<int>, b1: ScheduleBlock, b2: ScheduleBlock) {
    SpansConflict(SpanOf(read, b1), SpanOf(read, b2))
  }

  lemma BlocksConflictSymmetric(read: string -> Option<int>, b1: ScheduleBlock, b2: ScheduleBlock)
    ensures BlocksConflict(read, b1, b2) == BlocksConflict(read, b2, b1)
  {
  }

  /** A block of the first section conflicts with some block of the second. */
  function ConflictsWithAny(read: string -> Option<int>, others: seq<ScheduleBlock>): ScheduleBlock -> bool {
    (b: ScheduleBlock) => exists j :: 0 <= j < |others| && BlocksConflict(read, b, others[j])
  }

  function BlockText(b: ScheduleBlock): string {
    b.day + " " + b.startTime + "-" + b.endTime
  }

  /** The text of the first block of `section1` that conflicts with a block of `section2`, or none. */
  function FirstConflict(read: string -> Option<int>, section1: Section, section2: Section): (r: Option<string>)
    ensures r.Some? <==> exists i, j :: (0 <= i < |section1.schedule| && 0 <= j < |section2.schedule| &&
      BlocksConflict(read, section1.schedule[i], section2.schedule[j]))
  {
    match FindIndex(section1.schedule, ConflictsWithAny(read, section2.schedule))
    case Some(i) => Some(BlockText(section1.schedule[i]))
    case None =>
      assert forall i :: 0 <= i < |section1.schedule| ==>
        !ConflictsWithAny(read, section2.schedule)(section1.schedule[i]);
      None
  }

  /** `findTimeConflict`'s answer, the times read by `timeToMinutes`. */
  function TimeConflict(section1: Section, section2: Section): Option<string> {
    FirstConflict(SectionsProcessor.TimeToMinutes, section1, section2)
  }

  /** Whether two sections conflict does not depend on their order. */
  lemma TimeConflictSymmetric(section1: Section, section2: Section)
    ensures TimeConflict(section1, section2).Some? <==> TimeConflict(section2, section1).Some?
  {
    var read := SectionsProcessor.TimeToMinutes;
    if TimeConflict(section1, section2).Some? {
      var i, j :| 0 <= i < |section1.schedule| && 0 <= j < |section2.schedule|
        && BlocksConflict(read, section1.schedule[i], section2.schedule[j]);
      BlocksConflictSymmetric(read, section1.schedule[i], section2.schedule[j]);
    }
    if TimeConflict(section2, section1).Some? {
      var j, i :| 0 <= j < |section2.schedule| && 0 <= i < |section1.schedule|
        && BlocksConflict(read, section2.schedule[j], section1.schedule[i]);
      BlocksConflictSymmetric(read, section2.schedule[j], section1.schedule[i]);
    }
  }

  /** Blocks that only touch, one ending when the other starts, do not conflict. */
  lemma TouchingBlocksDoNotConflict(read: string -> Option<int>, b1: ScheduleBlock, b2: ScheduleBlock)
    requires read(b1.endTime).Some? && read(b1.endTime) == read(b2.startTime)
    ensures !BlocksConflict(read, b1, b2)
  {
  }

  /** `findTimeConflict`'s nested loop over both schedules, returning at the first conflict. */
  method FirstConflictLoop(read: string -> Option<int>, section1: Section, section2: Section) returns (r: Option<string>)
    ensures r == FirstConflict(read, section1, section2)
  {
    var xs, ys := section1.schedule, section2.schedule;
    var i := 0;
    while i < |xs|
      invariant 0 <= i <= |xs|
      invariant forall k :: 0 <= k < i ==> !ConflictsWithAny(read, ys)(xs[k])
    {
      var j := 0;
      while j < |ys|
        invariant 0 <= j <= |ys|
        invariant forall k :: 0 <= k < j ==> !BlocksConflict(read, xs[i], ys[k])
      {
        var b1, b2 := xs[i], ys[j];
        var s1, s2 := SpanOf(read, b1), SpanOf(read, b2);
        if s1.day == s2.day && Less(s1.start, s2.end) && Less(s2.start, s1.end) {
          assert ConflictsWithAny(read, ys)(xs[i]);
          FirstIndexIs(xs, ConflictsWithAny(read, ys), i);
          return Some(BlockText(b1));
        }
        j := j + 1;
      }
      i := i + 1;
    }
    return None;
  }

  /** `findTimeConflict`. */
  method FindTimeConflict(section1: Section, section2: Section) returns (r: Option<string>)
    ensures r == TimeConflict(section1, section2)
  {
    r := FirstConflictLoop(SectionsProcessor.TimeToMinutes, section1, section2);
  }

  /** The first index whose element passes is what `FindIndex` finds. */
  lemma FirstIndexIs<T>(s: seq<T>, p: T -> bool, i: nat)
    requires i < |s| && p(s[i]) && forall k :: 0 <= k < i ==> !p(s[k])
    ensures FindIndex(s, p) == Some(i)
  {
  }

  /** The plan entries that select a section: `filter(plan => plan.sectionId)` drops a missing or empty id. */
  function HasSelection(p: CoursePlan): bool {
    p.sectionId.Some? && p.sectionId.value != ""
  }

  /** The sections the plan selects, looked up by id, in plan order, the ids that name no section dropped. */
  function SelectedSections(plan: seq<CoursePlan>, sections: seq<Section>): (r: seq<Section>)
    ensures forall s :: s in r ==> s in sections
    ensures |r| <= |plan|
  {
    if plan == [] then []
    else
      var rest := SelectedSections(plan[..|plan| - 1], sections);
      var p := plan[|plan| - 1];
      if !HasSelection(p) then rest
      else match Find(sections, SectionNamed(p.sectionId.value))
        case Some(s) => rest + [s]
        case None => rest
  }

  /** The lookup `sections.find(section => section.id === plan.sectionId)`. */
  function SectionNamed(id: string): Section -> bool {
    (s: Section) => s.id == id
  }

  /**
   * Exactly the sections that the selecting entries find are selected: each entry that
   * selects an id some section has contributes the first such section, and each selected
   * section was found for some selecting entry.
   */
  lemma {:induction false} SelectedSectionsSpec(plan: seq<CoursePlan>, sections: seq<Section>)
    ensures forall k :: (0 <= k < |plan| && HasSelection(plan[k]) &&
                         Find(sections, SectionNamed(plan[k].sectionId.value)).Some?) ==>
      Find(sections, SectionNamed(plan[k].sectionId.value)).value in SelectedSections(plan, sections)
    ensures forall s :: s in SelectedSections(plan, sections) ==>
      exists k :: (0 <= k < |plan| && HasSelection(plan[k]) &&
                   Find(sections, SectionNamed(plan[k].sectionId.value)) == Some(s))
    decreases |plan|
  {
    if plan != [] {
      var init := plan[..|plan| - 1];
      var last := |plan| - 1;
      SelectedSectionsSpec(init, sections);
      forall k | 0 <= k < |plan| && HasSelection(plan[k]) &&
        Find(sections, SectionNamed(plan[k].sectionId.value)).Some?
        ensures Find(sections, SectionNamed(plan[k].sectionId.value)).value in SelectedSections(plan, sections)
      {
        if k < last {
          assert plan[k] == init[k];
        }
      }
      forall s | s in SelectedSections(plan, sections)
        ensures exists k :: (0 <= k < |plan| && HasSelection(plan[k]) &&
                             Find(sections, SectionNamed(plan[k].sectionId.value)) == Some(s))
      {
        if s in SelectedSections(init, sections) {
          var k :| 0 <= k < |init| && HasSelection(init[k]) &&
            Find(sections, SectionNamed(init[k].sectionId.value)) == Some(s);
          assert plan[k] == init[k];
        } else {
          assert HasSelection(plan[last]) && Find(sections, SectionNamed(plan[last].sectionId.value)) == Some(s);
        }
      }
    }
  }

  /** The conflict report of one pair of selected sections. */
  function ConflictTest(): (Section, Section) -> Option<ScheduleConflict> {
    (a: Section, b: Section) =>
      match TimeConflict(a, b)
      case Some(t) => Some(ScheduleConflict(a.courseId, b.courseId, t))
      case None => None
  }

  /** `detectScheduleConflicts`' result: the reports of the pairs `i < j` of selected sections, in scan order. */
  function ScheduleConflicts(plan: seq<CoursePlan>, sections: seq<Section>): seq<ScheduleConflict> {
    Pairs.Scan(SelectedSections(plan, sections), ConflictTest())
  }

  /**
   * A conflict is reported exactly for some pair of distinct positions `i < j` of the
   * selected sections whose schedules conflict, naming the two sections' courses.
   */
  lemma ScheduleConflictsSpec(plan: seq<CoursePlan>, sections: seq<Section>, c: ScheduleConflict)
    ensures var xs := SelectedSections(plan, sections);
      c in ScheduleConflicts(plan, sections) <==>
        exists i, j :: 0 <= i < j < |xs| && TimeConflict(xs[i], xs[j]) == Some(c.conflictTime)
          && c.course1 == xs[i].courseId && c.course2 == xs[j].courseId
  {
    var xs := SelectedSections(plan, sections);
    Pairs.ScanMember(xs, ConflictTest(), c);
  }

  // ---------------------------------------------------------------- electives

  /**
   * `isElectiveAvailableForTerm`: never for a required course; a general elective from
   * term 6, a professional one of term at most 11 from term 11, a later professional one
   * from term 15.
   */
  function IsElectiveAvailableForTerm(course: Course, currentTerm: int): (r: bool)
    ensures r ==> course.isElective && course.electiveType in {Some("general"), Some("professional")}
    ensures r ==> currentTerm >= 6 && (course.electiveType == Some("professional") ==> currentTerm >= 11)
  {
    if !course.isElective then false
    else if course.electiveType == Some("general") && currentTerm >= 6 then true
    else if course.electiveType == Some("professional") && course.term <= 11 && currentTerm >= 11 then true
    else if course.electiveType == Some("professional") && course.term > 11 && currentTerm >= 15 then true
    else false
  }

  /** For an elective of a gated type, the hook offers it exactly when the progress context does not lock it. */
  lemma ElectiveAvailabilityAgrees(course: Course, term: int)
    requires course.isElective && course.electiveType in {Some("general"), Some("professional")}
    ensures IsElectiveAvailableForTerm(course, term) <==> !StudentProgressContext.ElectiveLocked(course, term)
  {
  }

  // ---------------------------------------------------------------- suggestions

  /** The comparator `a.credits - b.credits`: fewer credits first. */
  function ByCredits(): (Course, Course) -> bool {
    (a: Course, b: Course) => a.credits <= b.credits
  }

  lemma ByCreditsPreorder()
    ensures TotalPreorder(ByCredits())
  {
  }

  /** One greedy pass: a course is taken when the credits taken so far plus its own stay within `remaining`. */
  function Greedy(candidates: seq<Course>, remaining: int, added: int): seq<Course>
    decreases |candidates|
  {
    if candidates == [] then []
    else if added + candidates[0].credits <= remaining then
      [candidates[0]] + Greedy(candidates[1..], remaining, added + candidates[0].credits)
    else Greedy(candidates[1..], remaining, added)
  }

  function CreditsOf(c: Course): int { c.credits }

  /**
   * A pass takes candidates in their order, and once it has taken any, the credits taken
   * before it plus its own are within `remaining`; when those before it already were, so
   * they stay.
   */
  lemma {:induction false} GreedySpec(candidates: seq<Course>, remaining: int, added: int)
    ensures var picked := Greedy(candidates, remaining, added);
      IsSubsequence(picked, candidates)
      && (picked != [] || added <= remaining ==> added + SumOf(picked, CreditsOf) <= remaining)
    decreases |candidates|
  {
    if candidates != [] {
      var c := candidates[0];
      var picked := Greedy(candidates, remaining, added);
      if added + c.credits <= remaining {
        var rest := Greedy(candidates[1..], remaining, added + c.credits);
        GreedySpec(candidates[1..], remaining, added + c.credits);
        SumOfConcat([c], rest, CreditsOf);
        assert SumOf([c], CreditsOf) == c.credits by {
          assert [c][..0] == [];
        }
        assert picked == [c] + rest;
        assert picked[1..] == rest;
      } else {
        GreedySpec(candidates[1..], remaining, added);
      }
    }
  }

  predicate NonNegativeCredits(courses: seq<Course>) {
    forall c :: c in courses ==> c.credits >= 0
  }

  /** Every candidate left out would take `before` plus the picked courses' credits over `remaining`. */
  predicate TakesWhatFits(cands: seq<Course>, picked: seq<Course>, before: int, remaining: int) {
    forall c :: c in cands && c !in picked ==> before + SumOf(picked, CreditsOf) + c.credits > remaining
  }

  /**
   * A pass takes every candidate that fits: with credits that are not negative, a
   * candidate left out would push the credits taken before the pass plus the pass's own
   * over `remaining`. The running total only grows, so it did not fit when its turn came.
   */
  lemma {:induction false} GreedyTakesWhatFits(cands: seq<Course>, remaining: int, added: int)
    requires NonNegativeCredits(cands)
    ensures TakesWhatFits(cands, Greedy(cands, remaining, added), added, remaining)
    decreases |cands|
  {
    if cands != [] {
      var first, tail := cands[0], cands[1..];
      assert forall c :: c in tail ==> c in cands;
      var picked := Greedy(cands, remaining, added);
      if added + first.credits <= remaining {
        var rest := Greedy(tail, remaining, added + first.credits);
        GreedyTakesWhatFits(tail, remaining, added + first.credits);
        assert picked == [first] + rest;
        SumOfConcat([first], rest, CreditsOf);
        assert SumOf([first], CreditsOf) == first.credits by {
          assert [first][..0] == [];
        }
        forall c | c in cands && c !in picked
          ensures added + SumOf(picked, CreditsOf) + c.credits > remaining
        {
          assert c != first && c in tail && c !in rest;
        }
      } else {
        GreedyTakesWhatFits(tail, remaining, added);
        GreedySpec(tail, remaining, added);
        SubsequenceMembers(picked, tail);
        SumOfNonNegative(picked, CreditsOf);
      }
    }
  }

  function IsAvailable(passed: set<string>, getCourseStatus: (Course, set<string>) -> CourseStatus): Course -> bool {
    (c: Course) => getCourseStatus(c, passed) == Available
  }

  function NotPlanned(plan: seq<CoursePlan>): Course -> bool {
    (c: Course) => !(exists k :: 0 <= k < |plan| && plan[k].courseId == c.id)
  }

  function RequiredOfTerm(term: int): Course -> bool {
    (c: Course) => c.term == term && !c.isElective
  }

  function ElectiveOfTerm(term: int): Course -> bool {
    (c: Course) => c.isElective && IsElectiveAvailableForTerm(c, term)
  }

  function EarlierRequired(term: int): Course -> bool {
    (c: Course) => c.term < term && !c.isElective
  }

  /** The available courses not yet in the plan. */
  function Eligible(plan: seq<CoursePlan>, availableCourses: seq<Course>, passed: set<string>,
                    getCourseStatus: (Course, set<string>) -> CourseStatus): seq<Course>
  {
    Filter(Filter(availableCourses, IsAvailable(passed, getCourseStatus)), NotPlanned(plan))
  }

  /** The candidates of one pass, fewest credits first. */
  function PassCandidates(eligible: seq<Course>, keep: Course -> bool): seq<Course> {
    SortBy(Filter(eligible, keep), ByCredits())
  }

  /** The three passes' picks, each pass starting from the credits the earlier ones took. */
  datatype Passes = Passes(required: seq<Course>, electives: seq<Course>, earlier: seq<Course>)

  /** The three passes over their candidates, each starting from the credits the earlier ones took. */
  function GreedyPasses(required: seq<Course>, electives: seq<Course>, earlier: seq<Course>, remaining: int): Passes {
    var a := Greedy(required, remaining, 0);
    var b := Greedy(electives, remaining, SumOf(a, CreditsOf));
    var c := Greedy(earlier, remaining, SumOf(a, CreditsOf) + SumOf(b, CreditsOf));
    Passes(a, b, c)
  }

  /** The passes over the eligible courses: the term's required ones, its open electives, required ones of earlier terms. */
  function PassesWithin(eligible: seq<Course>, term: int, remaining: int): Passes {
    GreedyPasses(PassCandidates(eligible, RequiredOfTerm(term)), PassCandidates(eligible, ElectiveOfTerm(term)),
      PassCandidates(eligible, EarlierRequired(term)), remaining)
  }

  /** The passes for a plan: its eligible courses, within what `maxCredits` leaves after the term's planned credits. */
  function SuggestionPasses(plan: seq<CoursePlan>, term: int, availableCourses: seq<Course>, passed: set<string>,
                            getCourseStatus: (Course, set<string>) -> CourseStatus, maxCredits: int): Passes
  {
    PassesWithin(Eligible(plan, availableCourses, passed, getCourseStatus), term,
      maxCredits - PlannedTermCredits(plan, term, availableCourses))
  }

  function Ids(courses: seq<Course>): (r: seq<string>)
    ensures |r| == |courses| && forall k :: 0 <= k < |r| ==> r[k] == courses[k].id
  {
    seq(|courses|, k requires 0 <= k < |courses| => courses[k].id)
  }

  /** `suggestCoursesForTerm`'s result: the ids of pass A's picks, then pass B's, then pass C's. */
  function Suggestions(plan: seq<CoursePlan>, term: int, availableCourses: seq<Course>, passed: set<string>,
                       getCourseStatus: (Course, set<string>) -> CourseStatus, maxCredits: int): seq<string>
  {
    var p := SuggestionPasses(plan, term, availableCourses, passed, getCourseStatus, maxCredits);
    Ids(p.required + p.electives + p.earlier)
  }

  /** A pass's candidates are the eligible courses its filter keeps, fewest credits first. */
  lemma CandidatesSpec(eligible: seq<Course>, keep: Course -> bool)
    ensures var cands := PassCandidates(eligible, keep);
      (forall c :: c in cands <==> c in eligible && keep(c))
      && SortedBy(cands, ByCredits())
      && (NoDuplicates(eligible) ==> NoDuplicates(cands))
  {
    SortByMembers(Filter(eligible, keep), ByCredits());
    ByCreditsPreorder();
    SortBySorted(Filter(eligible, keep), ByCredits());
    if NoDuplicates(eligible) {
      FilterIsSubsequence(eligible, keep);
      SubsequenceNoDuplicates(Filter(eligible, keep), eligible);
      SortByNoDuplicates(Filter(eligible, keep), ByCredits());
    }
  }

  /** A pass picks candidates, keeps their order and repeats none of them. */
  lemma PickSpec(cands: seq<Course>, remaining: int, added: int)
    ensures var picked := Greedy(cands, remaining, added);
      (forall c :: c in picked ==> c in cands)
      && (SortedBy(cands, ByCredits()) ==> SortedBy(picked, ByCredits()))
      && (NoDuplicates(cands) ==> NoDuplicates(picked))
      && (picked != [] || added <= remaining ==> added + SumOf(picked, CreditsOf) <= remaining)
  {
    GreedySpec(cands, remaining, added);
    var picked := Greedy(cands, remaining, added);
    SubsequenceMembers(picked, cands);
    if SortedBy(cands, ByCredits()) {
      SubsequenceSorted(picked, cands, ByCredits());
    }
    if NoDuplicates(cands) {
      SubsequenceNoDuplicates(picked, cands);
    }
  }

  /** Every eligible course is available and not in the plan. */
  lemma EligibleSpec(plan: seq<CoursePlan>, availableCourses: seq<Course>, passed: set<string>,
                     getCourseStatus: (Course, set<string>) -> CourseStatus)
    ensures forall c :: c in Eligible(plan, availableCourses, passed, getCourseStatus) ==>
      c in availableCourses && getCourseStatus(c, passed) == Available && c.id !in PlanIds(plan)
    ensures forall c :: c in availableCourses && getCourseStatus(c, passed) == Available && c.id !in PlanIds(plan) ==>
      c in Eligible(plan, availableCourses, passed, getCourseStatus)
    ensures NoDuplicates(availableCourses) ==> NoDuplicates(Eligible(plan, availableCourses, passed, getCourseStatus))
  {
    var e := Eligible(plan, availableCourses, passed, getCourseStatus);
    if NoDuplicates(availableCourses) {
      var f := Filter(availableCourses, IsAvailable(passed, getCourseStatus));
      FilterIsSubsequence(availableCourses, IsAvailable(passed, getCourseStatus));
      SubsequenceNoDuplicates(f, availableCourses);
      FilterIsSubsequence(f, NotPlanned(plan));
      SubsequenceNoDuplicates(e, f);
    }
  }

  /** Courses of the catalog are told apart by their ids. */
  predicate DistinctIds(courses: seq<Course>) {
    forall i, j :: 0 <= i < j < |courses| ==> courses[i].id != courses[j].id
  }

  /** The passes over candidate lists sorted by credits and kept apart by the passes' filters. */
  lemma GreedyPassesSpec(ca: seq<Course>, cb: seq<Course>, cc: seq<Course>, remaining: int, term: int, courses: seq<Course>)
    requires SortedBy(ca, ByCredits()) && SortedBy(cb, ByCredits()) && SortedBy(cc, ByCredits())
    requires forall c :: c in ca ==> c.term == term && !c.isElective
    requires forall c :: c in cb ==> c.isElective
    requires forall c :: c in cc ==> c.term < term && !c.isElective
    ensures var p := GreedyPasses(ca, cb, cc, remaining);
      (forall c :: c in p.required ==> c in ca) && (forall c :: c in p.electives ==> c in cb)
      && (forall c :: c in p.earlier ==> c in cc)
      && SortedBy(p.required, ByCredits()) && SortedBy(p.electives, ByCredits()) && SortedBy(p.earlier, ByCredits())
      && (p.required + p.electives + p.earlier != [] ==>
            SumOf(p.required + p.electives + p.earlier, CreditsOf) <= remaining)
      && ((DistinctIds(courses) && NoDuplicates(ca) && NoDuplicates(cb) && NoDuplicates(cc)
           && forall c :: c in ca + cb + cc ==> c in courses) ==>
            NoDuplicates(Ids(p.required + p.electives + p.earlier)))
  {
    var p := GreedyPasses(ca, cb, cc, remaining);
    var a, b, c := p.required, p.electives, p.earlier;
    PickSpec(ca, remaining, 0);
    PickSpec(cb, remaining, SumOf(a, CreditsOf));
    PickSpec(cc, remaining, SumOf(a, CreditsOf) + SumOf(b, CreditsOf));
    CombinePasses(a, b, c, ca, cb, cc, remaining, term, courses);
  }

  /** What the three picks add up to, from what each pick keeps of its candidates. */
  lemma CombinePasses(a: seq<Course>, b: seq<Course>, c: seq<Course>, ca: seq<Course>, cb: seq<Course>, cc: seq<Course>,
                      remaining: int, term: int, courses: seq<Course>)
    requires forall x :: x in a ==> x in ca
    requires forall x :: x in b ==> x in cb
    requires forall x :: x in c ==> x in cc
    requires forall x :: x in ca ==> x.term == term && !x.isElective
    requires forall x :: x in cb ==> x.isElective
    requires forall x :: x in cc ==> x.term < term && !x.isElective
    requires NoDuplicates(ca) ==> NoDuplicates(a)
    requires NoDuplicates(cb) ==> NoDuplicates(b)
    requires NoDuplicates(cc) ==> NoDuplicates(c)
    requires SortedBy(ca, ByCredits()) && SortedBy(cb, ByCredits()) && SortedBy(cc, ByCredits())
    requires SortedBy(ca, ByCredits()) ==> SortedBy(a, ByCredits())
    requires SortedBy(cb, ByCredits()) ==> SortedBy(b, ByCredits())
    requires SortedBy(cc, ByCredits()) ==> SortedBy(c, ByCredits())
    requires a != [] || 0 <= remaining ==> SumOf(a, CreditsOf) <= remaining
    requires b != [] || SumOf(a, CreditsOf) <= remaining ==> SumOf(a, CreditsOf) + SumOf(b, CreditsOf) <= remaining
    requires c != [] || SumOf(a, CreditsOf) + SumOf(b, CreditsOf) <= remaining ==>
      SumOf(a, CreditsOf) + SumOf(b, CreditsOf) + SumOf(c, CreditsOf) <= remaining
    ensures SortedBy(a, ByCredits()) && SortedBy(b, ByCredits()) && SortedBy(c, ByCredits())
    ensures a + b + c != [] ==> SumOf(a + b + c, CreditsOf) <= remaining
    ensures (DistinctIds(courses) && NoDuplicates(ca) && NoDuplicates(cb) && NoDuplicates(cc)
             && forall x :: x in ca + cb + cc ==> x in courses) ==> NoDuplicates(Ids(a + b + c))
  {
    SumOfConcat(a, b, CreditsOf);
    SumOfConcat(a + b, c, CreditsOf);
    if DistinctIds(courses) && NoDuplicates(ca) && NoDuplicates(cb) && NoDuplicates(cc)
       && forall x :: x in ca + cb + cc ==> x in courses {
      forall x | x in a + b + c ensures x in courses {
        assert x in ca + cb + cc;
      }
      PassesDistinct(a, b, c, courses, term);
    }
  }

  /**
   * Pass A takes required courses of the term, pass B electives open for it, pass C
   * required courses of earlier terms, each fewest credits first and all of them eligible;
   * once anything is taken, the credits taken are within `remaining`; and eligible courses
   * with distinct catalog ids give distinct suggestions.
   */
  lemma PassesWithinSpec(eligible: seq<Course>, term: int, remaining: int, courses: seq<Course>)
    ensures var p := PassesWithin(eligible, term, remaining);
      var all := p.required + p.electives + p.earlier;
      (forall c :: c in all ==> c in eligible)
      && (forall c :: c in p.required ==> c.term == term && !c.isElective)
      && (forall c :: c in p.electives ==> c.isElective && IsElectiveAvailableForTerm(c, term))
      && (forall c :: c in p.earlier ==> c.term < term && !c.isElective)
      && SortedBy(p.required, ByCredits()) && SortedBy(p.electives, ByCredits()) && SortedBy(p.earlier, ByCredits())
      && (all != [] ==> SumOf(all, CreditsOf) <= remaining)
      && (DistinctIds(courses) && NoDuplicates(eligible) && (forall c :: c in eligible ==> c in courses) ==>
            NoDuplicates(Ids(all)))
  {
    var ca := PassCandidates(eligible, RequiredOfTerm(term));
    var cb := PassCandidates(eligible, ElectiveOfTerm(term));
    var cc := PassCandidates(eligible, EarlierRequired(term));
    CandidatesSpec(eligible, RequiredOfTerm(term));
    CandidatesSpec(eligible, ElectiveOfTerm(term));
    CandidatesSpec(eligible, EarlierRequired(term));
    GreedyPassesSpec(ca, cb, cc, remaining, term, courses);
  }

  /**
   * Each pass took every eligible course of its kind that still fitted: one it left out
   * would take the credits of the earlier passes plus its own over `remaining`.
   */
  predicate PassesTakeWhatFits(p: Passes, eligible: seq<Course>, term: int, remaining: int) {
    var a, b := SumOf(p.required, CreditsOf), SumOf(p.electives, CreditsOf);
    (forall c :: c in eligible && c.term == term && !c.isElective && c !in p.required ==>
       a + c.credits > remaining)
    && (forall c :: c in eligible && c.isElective && IsElectiveAvailableForTerm(c, term) && c !in p.electives ==>
       a + b + c.credits > remaining)
    && (forall c :: c in eligible && c.term < term && !c.isElective && c !in p.earlier ==>
       a + b + SumOf(p.earlier, CreditsOf) + c.credits > remaining)
  }

  /** With credits that are not negative, the three passes leave out only courses that do not fit. */
  lemma PassesWithinTakeWhatFits(eligible: seq<Course>, term: int, remaining: int)
    requires NonNegativeCredits(eligible)
    ensures PassesTakeWhatFits(PassesWithin(eligible, term, remaining), eligible, term, remaining)
  {
    var p := PassesWithin(eligible, term, remaining);
    var a, b := SumOf(p.required, CreditsOf), SumOf(p.electives, CreditsOf);
    PassTakesWhatFits(eligible, RequiredOfTerm(term), 0, remaining, p.required);
    PassTakesWhatFits(eligible, ElectiveOfTerm(term), a, remaining, p.electives);
    PassTakesWhatFits(eligible, EarlierRequired(term), a + b, remaining, p.earlier);
    CombineTakeWhatFits(p, eligible, term, remaining, a, b);
  }

  lemma CombineTakeWhatFits(p: Passes, eligible: seq<Course>, term: int, remaining: int, a: int, b: int)
    requires a == SumOf(p.required, CreditsOf) && b == SumOf(p.electives, CreditsOf)
    requires forall c :: c in eligible && RequiredOfTerm(term)(c) && c !in p.required ==>
      0 + SumOf(p.required, CreditsOf) + c.credits > remaining
    requires forall c :: c in eligible && ElectiveOfTerm(term)(c) && c !in p.electives ==>
      a + SumOf(p.electives, CreditsOf) + c.credits > remaining
    requires forall c :: c in eligible && EarlierRequired(term)(c) && c !in p.earlier ==>
      a + b + SumOf(p.earlier, CreditsOf) + c.credits > remaining
    ensures PassesTakeWhatFits(p, eligible, term, remaining)
  {
  }

  /** One pass over the eligible courses its filter keeps leaves out only those that do not fit. */
  lemma PassTakesWhatFits(eligible: seq<Course>, keep: Course -> bool, before: int, remaining: int,
                          picked: seq<Course>)
    requires NonNegativeCredits(eligible) && picked == Greedy(PassCandidates(eligible, keep), remaining, before)
    ensures forall c :: c in eligible && keep(c) && c !in picked ==>
      before + SumOf(picked, CreditsOf) + c.credits > remaining
  {
    var cands := PassCandidates(eligible, keep);
    CandidatesSpec(eligible, keep);
    GreedyTakesWhatFits(cands, remaining, before);
  }

  /**
   * Every suggestion is the id of an available course not yet in the plan, the passes
   * keep their kinds and order, the suggested credits fit within `maxCredits` minus the
   * term's planned credits once anything is suggested, and with distinct catalog ids no id
   * is suggested twice.
   */
  lemma SuggestionsSpec(plan: seq<CoursePlan>, term: int, availableCourses: seq<Course>, passed: set<string>,
                        getCourseStatus: (Course, set<string>) -> CourseStatus, maxCredits: int)
    ensures var p := SuggestionPasses(plan, term, availableCourses, passed, getCourseStatus, maxCredits);
      var all := p.required + p.electives + p.earlier;
      (forall c :: c in all ==> c in availableCourses && getCourseStatus(c, passed) == Available && c.id !in PlanIds(plan))
      && (forall c :: c in p.required ==> c.term == term && !c.isElective)
      && (forall c :: c in p.electives ==> c.isElective && IsElectiveAvailableForTerm(c, term))
      && (forall c :: c in p.earlier ==> c.term < term && !c.isElective)
      && SortedBy(p.required, ByCredits()) && SortedBy(p.electives, ByCredits()) && SortedBy(p.earlier, ByCredits())
      && (all != [] ==> SumOf(all, CreditsOf) <= maxCredits - PlannedTermCredits(plan, term, availableCourses))
      && (DistinctIds(availableCourses) ==> NoDuplicates(Ids(all)))
      && (NonNegativeCredits(availableCourses) ==>
            PassesTakeWhatFits(p, Eligible(plan, availableCourses, passed, getCourseStatus), term,
              maxCredits - PlannedTermCredits(plan, term, availableCourses)))
  {
    var eligible := Eligible(plan, availableCourses, passed, getCourseStatus);
    var remaining := maxCredits - PlannedTermCredits(plan, term, availableCourses);
    if NonNegativeCredits(availableCourses) {
      EligibleSpec(plan, availableCourses, passed, getCourseStatus);
      PassesWithinTakeWhatFits(eligible, term, remaining);
    }
    assert SuggestionPasses(plan, term, availableCourses, passed, getCourseStatus, maxCredits)
      == PassesWithin(eligible, term, remaining);
    EligibleSpec(plan, availableCourses, passed, getCourseStatus);
    if DistinctIds(availableCourses) {
      DistinctIdsNoDuplicates(availableCourses);
    }
    PassesWithinSpec(eligible, term, remaining, availableCourses);
  }

  lemma DistinctIdsNoDuplicates(courses: seq<Course>)
    requires DistinctIds(courses)
    ensures NoDuplicates(courses)
  {
  }

  /** Picks of the three passes, each without repeats and kept apart by the passes' filters, have distinct ids. */
  lemma PassesDistinct(a: seq<Course>, b: seq<Course>, c: seq<Course>, courses: seq<Course>, term: int)
    requires DistinctIds(courses) && NoDuplicates(a) && NoDuplicates(b) && NoDuplicates(c)
    requires forall x :: x in a + b + c ==> x in courses
    requires forall x :: x in a ==> x.term == term && !x.isElective
    requires forall x :: x in b ==> x.isElective
    requires forall x :: x in c ==> x.term < term && !x.isElective
    ensures NoDuplicates(Ids(a + b + c))
  {
    var all := a + b + c;
    assert NoDuplicates(all) by {
      forall i, j | 0 <= i < j < |all| ensures all[i] != all[j] {
        if j < |a| {
          assert all[i] == a[i] && all[j] == a[j];
        } else if j < |a| + |b| {
          assert all[j] == b[j - |a|];
          if i >= |a| {
            assert all[i] == b[i - |a|];
          } else {
            assert all[i] == a[i];
          }
        } else {
          assert all[j] == c[j - |a| - |b|];
          if i >= |a| + |b| {
            assert all[i] == c[i - |a| - |b|];
          } else if i >= |a| {
            assert all[i] == b[i - |a|];
          } else {
            assert all[i] == a[i];
          }
        }
      }
    }
    var ids := Ids(all);
    forall i, j | 0 <= i < j < |ids| ensures ids[i] != ids[j] {
      assert all[i] in all && all[j] in all;
      var i' :| 0 <= i' < |courses| && courses[i'] == all[i];
      var j' :| 0 <= j' < |courses| && courses[j'] == all[j];
      assert i' != j';
    }
  }

  /** One greedy pass as the source's `for ... of` loop with its `creditsToAdd` accumulator. */
  method GreedyPass(candidates: seq<Course>, remaining: int, added: int) returns (picked: seq<Course>, total: int)
    ensures picked == Greedy(candidates, remaining, added)
    ensures total == added + SumOf(picked, CreditsOf)
  {
    picked := [];
    total := added;
    var i := 0;
    while i < |candidates|
      invariant 0 <= i <= |candidates|
      invariant picked + Greedy(candidates[i..], remaining, total) == Greedy(candidates, remaining, added)
      invariant total == added + SumOf(picked, CreditsOf)
    {
      var c := candidates[i];
      assert candidates[i..][1..] == candidates[i + 1..];
      if total + c.credits <= remaining {
        SumOfConcat(picked, [c], CreditsOf);
        assert SumOf([c], CreditsOf) == c.credits by {
          assert [c][..0] == [];
        }
        picked := picked + [c];
        total := total + c.credits;
      }
      i := i + 1;
    }
  }

  /** The three loops, `creditsToAdd` carried from one to the next. */
  method RunPasses(required: seq<Course>, electives: seq<Course>, earlier: seq<Course>, remaining: int)
    returns (passes: Passes)
    ensures passes == GreedyPasses(required, electives, earlier, remaining)
  {
    var a, b, c, creditsToAdd;
    a, creditsToAdd := GreedyPass(required, remaining, 0);
    b, creditsToAdd := GreedyPass(electives, remaining, creditsToAdd);
    c, creditsToAdd := GreedyPass(earlier, remaining, creditsToAdd);
    passes := Passes(a, b, c);
  }

  // ---------------------------------------------------------------- the hook

  /** The hook's state: the course plan, replaced by each operation. */
  class PlanHook {
    var coursePlan: seq<CoursePlan>

    constructor()
      ensures coursePlan == []
    {
      coursePlan := [];
    }

    /** `addCourseToPlan`: copy the plan, assign at the course's index or push. */
    method AddCourseToPlan(courseId: string, plannedTerm: int, sectionId: Option<string>, priority: int)
      modifies this
      ensures coursePlan == Upsert(old(coursePlan), CoursePlan(courseId, plannedTerm, sectionId, priority))
    {
      var newPlan := coursePlan;
      var entry := CoursePlan(courseId, plannedTerm, sectionId, priority);
      var existingIndex := FindIndex(newPlan, OfCourse(courseId));
      if existingIndex.Some? {
        newPlan := newPlan[existingIndex.value := entry];
      } else {
        newPlan := newPlan + [entry];
      }
      coursePlan := newPlan;
    }

    method RemoveCourseFromPlan(courseId: string)
      modifies this
      ensures coursePlan == RemovePlan(old(coursePlan), courseId)
    {
      coursePlan := RemovePlan(coursePlan, courseId);
    }

    method UpdateSectionSelection(courseId: string, sectionId: string)
      modifies this
      ensures coursePlan == Reselect(old(coursePlan), courseId, sectionId)
    {
      coursePlan := Reselect(coursePlan, courseId, sectionId);
    }

    /** `detectScheduleConflicts`: the selected sections, then the `i < j` scan with `findTimeConflict`. */
    method DetectScheduleConflicts(sections: seq<Section>) returns (conflicts: seq<ScheduleConflict>)
      ensures conflicts == ScheduleConflicts(coursePlan, sections)
    {
      var selected := SelectedSections(coursePlan, sections);
      conflicts := Pairs.ScanLoop(selected, ConflictTest());
    }

    /** `suggestCoursesForTerm`: the three loops, each over its pass's sorted candidates. */
    method SuggestCoursesForTerm(term: int, availableCourses: seq<Course>, passed: set<string>,
                                 getCourseStatus: (Course, set<string>) -> CourseStatus, maxCredits: int)
      returns (suggestions: seq<string>)
      ensures suggestions == Suggestions(coursePlan, term, availableCourses, passed, getCourseStatus, maxCredits)
    {
      var remaining := maxCredits - PlannedTermCredits(coursePlan, term, availableCourses);
      var eligible := Eligible(coursePlan, availableCourses, passed, getCourseStatus);
      var passes := RunPasses(PassCandidates(eligible, RequiredOfTerm(term)), PassCandidates(eligible, ElectiveOfTerm(term)),
        PassCandidates(eligible, EarlierRequired(term)), remaining);
      assert passes == SuggestionPasses(coursePlan, term, availableCourses, passed, getCourseStatus, maxCredits);
      suggestions := Ids(passes.required + passes.electives + passes.earlier);
    }
  }
}
