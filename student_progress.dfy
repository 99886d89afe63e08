/**
 * The progress context's course-status resolver, its term-progress measure, and its
 * grade and credit lookups. The `progress` map and the `allCourses` catalog that the
 * context's closures read are explicit parameters here.
 */
module StudentProgressContext {
  import opened Wrappers
  import opened Catalog
  import opened Seqs

  /** Every id of `ids`, scanned in order, is in `passed`; the `for ... return` of the prerequisite check. */
  function AllPassed(ids: seq<string>, passed: set<string>): (r: bool)
    ensures r <==> forall p :: p in ids ==> p in passed
  {
    if ids == [] then true
    else if ids[0] !in passed then false
    else AllPassed(ids[1..], passed)
  }

  /** Some corequisite is passed, or has a planned or in-progress entry. */
  predicate CoreqSatisfied(course: Course, passed: set<string>, progress: map<string, StudentProgress>) {
    (exists c :: c in course.corequisites && c in passed)
    || (exists c :: c in course.corequisites && IsPlannedOrInProgress(progress, c))
  }

  /** The term-progress threshold an elective waits for, if its type has one. */
  function ElectiveThreshold(course: Course): Option<int> {
    if course.electiveType == Some("general") then Some(6)
    else if course.electiveType == Some("professional") then Some(if course.term <= 11 then 11 else 15)
    else None
  }

  /** The elective gate: an elective of a gated type is blocked until term progress reaches its threshold. */
  predicate ElectiveLocked(course: Course, termProgress: int) {
    course.isElective && ElectiveThreshold(course).Some? && termProgress < ElectiveThreshold(course).value
  }

  /**
   * `getCourseStatus`: passed if the id is in `passed`; else blocked by the first
   * prerequisite not passed; else blocked when there are corequisites and none is passed,
   * planned or in progress; else, for an elective, blocked below its term-progress
   * threshold; else available.
   */
  function GetCourseStatus(course: Course, passed: set<string>, progress: map<string, StudentProgress>,
                           allCourses: seq<Course>): (r: CourseStatus)
    ensures r == Passed <==> course.id in passed
    ensures course.id !in passed && (exists p :: p in course.prerequisites && p !in passed) ==> r == Blocked
    ensures r == Available <==>
      course.id !in passed
      && (forall p :: p in course.prerequisites ==> p in passed)
      && (course.corequisites == [] || CoreqSatisfied(course, passed, progress))
      && !ElectiveLocked(course, TermProgress(passed, allCourses))
    ensures r == Blocked <==> course.id !in passed && r != Available
  {
    if course.id in passed then Passed
    else if !AllPassed(course.prerequisites, passed) then Blocked
    else if |course.corequisites| > 0
      && !(exists c :: c in course.corequisites && c in passed)
      && !(exists c :: c in course.corequisites && IsPlannedOrInProgress(progress, c)) then Blocked
    else if course.isElective then
      var t := TermProgress(passed, allCourses);
      if course.electiveType == Some("general") && t < 6 then Blocked
      else if course.electiveType == Some("professional") && course.term <= 11 && t < 11 then Blocked
      else if course.electiveType == Some("professional") && course.term > 11 && t < 15 then Blocked
      else Available
    else Available
  }

  /** Removing the corequisites of a course never turns it from available to blocked. */
  lemma FewerCoreqsNoHarder(course: Course, passed: set<string>, progress: map<string, StudentProgress>,
                            allCourses: seq<Course>)
    requires GetCourseStatus(course, passed, progress, allCourses) == Available
    ensures GetCourseStatus(course.(corequisites := []), passed, progress, allCourses) == Available
  {
  }

  /** Passing one more prerequisite never turns an available course blocked, for a non-elective. */
  lemma MorePassedNoHarder(course: Course, passed: set<string>, extra: string,
                           progress: map<string, StudentProgress>, allCourses: seq<Course>)
    requires !course.isElective && extra != course.id
    requires GetCourseStatus(course, passed, progress, allCourses) == Available
    ensures GetCourseStatus(course, passed + {extra}, progress, allCourses) == Available
  {
  }

  // ---------------------------------------------------------------- term progress

  /** The required (non-elective) courses of term `t`. */
  function RequiredOfTerm(courses: seq<Course>, t: int): seq<Course> {
    Filter(courses, (c: Course) => c.term == t && !c.isElective)
  }

  /** Term `t` counts as completed: it has required courses and at least 75% of them are passed. */
  predicate TermCompleted(passed: set<string>, courses: seq<Course>, t: int) {
    var req := RequiredOfTerm(courses, t);
    |req| > 0 && 4 * |Filter(req, (c: Course) => c.id in passed)| >= 3 * |req|
  }

  /** The scan from term `t` on, given that terms before `t` all completed. */
  function ProgressFrom(passed: set<string>, courses: seq<Course>, t: nat): (r: nat)
    requires 1 <= t <= 19
    decreases 19 - t
  {
    if t > 18 then 18
    else if TermCompleted(passed, courses, t) then ProgressFrom(passed, courses, t + 1)
    else t - 1
  }

  /** `calculateCurrentTermProgress` as a value: 0 for an empty catalog, else the scan from term 1. */
  function TermProgress(passed: set<string>, courses: seq<Course>): nat {
    if |courses| == 0 then 0 else ProgressFrom(passed, courses, 1)
  }

  lemma {:induction false} ProgressFromSpec(passed: set<string>, courses: seq<Course>, t: nat)
    requires 1 <= t <= 19
    requires forall u :: 1 <= u < t ==> TermCompleted(passed, courses, u)
    ensures var r := ProgressFrom(passed, courses, t);
      t - 1 <= r <= 18
      && (forall u :: 1 <= u <= r ==> TermCompleted(passed, courses, u))
      && (r < 18 ==> !TermCompleted(passed, courses, r + 1))
    decreases 19 - t
  {
    if t <= 18 && TermCompleted(passed, courses, t) {
      ProgressFromSpec(passed, courses, t + 1);
    }
  }

  /**
   * Term progress lies in 0..18; it is the largest `t` such that every term 1..t is
   * completed: each of those terms is completed, and the next one (if any) is not.
   * An empty catalog has progress 0.
   */
  lemma TermProgressSpec(passed: set<string>, courses: seq<Course>)
    ensures var r := TermProgress(passed, courses);
      r <= 18
      && (|courses| == 0 ==> r == 0)
      && (forall u :: 1 <= u <= r ==> TermCompleted(passed, courses, u))
      && (|courses| > 0 && r < 18 ==> !TermCompleted(passed, courses, r + 1))
  {
    if |courses| > 0 {
      ProgressFromSpec(passed, courses, 1);
    }
  }

  /** A term without required courses stops the scan: progress stays below it. */
  lemma EmptyTermStops(passed: set<string>, courses: seq<Course>, t: int)
    requires 1 <= t <= 18 && RequiredOfTerm(courses, t) == []
    ensures TermProgress(passed, courses) < t
  {
    TermProgressSpec(passed, courses);
    assert !TermCompleted(passed, courses, t);
  }

  /** The source's loop with its early `break`, computing the progress measure. */
  method CalculateCurrentTermProgress(passed: set<string>, courses: seq<Course>) returns (progress: nat)
    ensures progress == TermProgress(passed, courses)
    ensures progress <= 18
    ensures forall u :: 1 <= u <= progress ==> TermCompleted(passed, courses, u)
  {
    TermProgressSpec(passed, courses);
    if |courses| == 0 {
      return 0;
    }
    progress := 0;
    var term := 1;
    while term <= 18
      invariant 1 <= term <= 19
      invariant progress == term - 1
      invariant ProgressFrom(passed, courses, term) == ProgressFrom(passed, courses, 1)
    {
      var required := Filter(courses, (c: Course) => c.term == term && !c.isElective);
      var passedOfTerm := Filter(required, (c: Course) => c.id in passed);
      if |required| > 0 && 4 * |passedOfTerm| >= 3 * |required| {
        progress := term;
      } else {
        break;
      }
      term := term + 1;
    }
  }

  // ---------------------------------------------------------------- grades and credits

  /** The context's grade scale, in tenths of a grade point. */
  const GradeScale: map<string, nat> := map[
    "A+" := 40, "A" := 40, "A-" := 37,
    "B+" := 33, "B" := 30, "B-" := 27,
    "C+" := 23, "C" := 20, "C-" := 17,
    "D+" := 13, "D" := 10, "D-" := 7,
    "F" := 0]

  /** The letter grades from best to worst. */
  const GradeOrder: seq<string> := ["A+", "A", "A-", "B+", "B", "B-", "C+", "C", "C-", "D+", "D", "D-", "F"]

  /** `getGradePoints`, in tenths: the grade's value on the scale, or null for any other text. */
  function GetGradePoints(grade: string): (r: Option<nat>)
    ensures r.Some? <==> grade in GradeOrder
    ensures r.Some? ==> r.value <= 40
  {
    if grade in GradeScale then Some(GradeScale[grade]) else None
  }

  /** Better letters never have fewer points: the scale falls along `GradeOrder`. */
  lemma GradePointsMonotone(i: nat, j: nat)
    requires i <= j < |GradeOrder|
    ensures GetGradePoints(GradeOrder[i]).value >= GetGradePoints(GradeOrder[j]).value
  {
  }

  /** `getCourseCredits`: the first catalog course with the id gives its credits, unless they are 0; else 3. */
  function GetCourseCredits(allCourses: seq<Course>, courseId: string): (r: int)
    ensures r != 0
    ensures (forall c :: c in allCourses ==> c.id != courseId) ==> r == 3
    ensures r == 3 || exists c :: c in allCourses && c.id == courseId && c.credits == r
    ensures forall k :: 0 <= k < |allCourses| && allCourses[k].id == courseId
                        && (forall j :: 0 <= j < k ==> allCourses[j].id != courseId)
                        ==> r == (if allCourses[k].credits != 0 then allCourses[k].credits else 3)
  {
    match Find(allCourses, (c: Course) => c.id == courseId)
    case Some(c) => if c.credits != 0 then c.credits else 3
    case None => 3
  }
}
