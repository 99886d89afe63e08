/**
 * The older progress hook. Its map operations, passed/planned sets and credit totals are
 * the ones `ProgressStore` models; what differs is its status resolver (passed is read
 * from the progress map and electives are not gated), its shorter grade scale and its
 * fixed course credits.
 */
module StudentProgressHook {
  import opened Wrappers
  import opened Catalog
  import ProgressStore
  import StudentProgressContext

  /**
   * The hook's `getCourseStatus`: passed only when the course's own entry says passed;
   * else blocked by the first prerequisite missing from `passed`; else blocked when there
   * are corequisites and none is passed, planned or in progress; else available.
   */
  function GetCourseStatus(course: Course, passed: set<string>, progress: map<string, StudentProgress>): (r: CourseStatus)
    ensures r == Passed <==> HasPassedEntry(progress, course.id)
    ensures !HasPassedEntry(progress, course.id) && (exists p :: p in course.prerequisites && p !in passed) ==> r == Blocked
    ensures r == Available <==>
      !HasPassedEntry(progress, course.id)
      && (forall p :: p in course.prerequisites ==> p in passed)
      && (course.corequisites == [] || StudentProgressContext.CoreqSatisfied(course, passed, progress))
  {
    if course.id in progress && progress[course.id].status == ProgressPassed then Passed
    else if !StudentProgressContext.AllPassed(course.prerequisites, passed) then Blocked
    else if |course.corequisites| > 0
      && !(exists c :: c in course.corequisites && c in passed)
      && !(exists c :: c in course.corequisites && IsPlannedOrInProgress(progress, c)) then Blocked
    else Available
  }

  /** Electives are not gated: an elective whose requisites are met is available whatever the term progress. */
  lemma ElectivesUngated(course: Course, passed: set<string>, progress: map<string, StudentProgress>)
    requires course.isElective && !HasPassedEntry(progress, course.id)
    requires forall p :: p in course.prerequisites ==> p in passed
    requires course.corequisites == []
    ensures GetCourseStatus(course, passed, progress) == Available
  {
  }

  /**
   * When `passed` is the set the map itself yields and the course is not an elective, the
   * hook and the context resolve the same status.
   */
  lemma AgreesWithContext(course: Course, progress: map<string, StudentProgress>, allCourses: seq<Course>)
    requires !course.isElective
    ensures GetCourseStatus(course, ProgressStore.PassedCourses(progress), progress)
      == StudentProgressContext.GetCourseStatus(course, ProgressStore.PassedCourses(progress), progress, allCourses)
  {
  }

  /** With gated electives the two disagree: the context blocks a fresh general elective the hook offers. */
  lemma ContextGatesElectives()
    ensures var c := Course("ELE-101", "Electiva", 3, 3, 0, 7, "CIENCIAS BÁSICAS", [], [], true, Some("general"), None);
      GetCourseStatus(c, {}, map[]) == Available
      && StudentProgressContext.GetCourseStatus(c, {}, map[], []) == Blocked
  {
  }

  /** The hook's grade scale, in tenths: only the five plain letters. */
  function GetGradePoints(grade: string): (r: Option<nat>)
    ensures r.Some? <==> grade in ["A", "B", "C", "D", "F"]
    ensures r.Some? ==> r == StudentProgressContext.GetGradePoints(grade)
  {
    var scale := map["A" := 40, "B" := 30, "C" := 20, "D" := 10, "F" := 0];
    if grade in scale then Some(scale[grade]) else None
  }

  /** Signed grades have points in the context and none in the hook. */
  lemma SignedGradesUnknown()
    ensures GetGradePoints("A+") == None && StudentProgressContext.GetGradePoints("A+") == Some(40)
  {
    assert "A+" != "A" && "A+" != "B" && "A+" != "C" && "A+" != "D" && "A+" != "F";
  }

  /** The hook's `getCourseCredits` has no catalog: every course counts 3 credits. */
  function GetCourseCredits(courseId: string): (r: int) {
    3
  }

  /** The hook's credit lookup is the context's fallback for a course the catalog does not list. */
  lemma CreditsFallbackAgrees(allCourses: seq<Course>, courseId: string)
    requires forall c :: c in allCourses ==> c.id != courseId
    ensures GetCourseCredits(courseId) == StudentProgressContext.GetCourseCredits(allCourses, courseId)
  {
  }
}
