/**
 * The student's progress map and the operations on it that the progress context and the
 * older progress hook share word for word: marking a course passed, in progress or
 * planned, removing its entry, and the derived passed/planned sets and credit totals.
 * Each mark or remove builds a copy of the map, changes one key, and installs the copy;
 * here the object's `progress` field is replaced by the changed copy.
 */
module ProgressStore {
  import opened Wrappers
  import opened Catalog
  import opened Seqs

  /** The ids whose entry has status passed: `getPassedCourses`. */
  function PassedCourses(progress: map<string, StudentProgress>): set<string> {
    set id | id in progress && progress[id].status == ProgressPassed
  }

  /** The ids whose entry has status planned or in progress: `getPlannedCourses`. */
  function PlannedCourses(progress: map<string, StudentProgress>): set<string> {
    set id | id in progress && IsPlannedOrInProgress(progress, id)
  }

  /** A course's contribution to the passed total. */
  function PassedCredit(progress: map<string, StudentProgress>): Course -> int {
    (c: Course) => if HasPassedEntry(progress, c.id) then c.credits else 0
  }

  /** A course's contribution to the planned total. */
  function PlannedCredit(progress: map<string, StudentProgress>): Course -> int {
    (c: Course) => if IsPlannedOrInProgress(progress, c.id) then c.credits else 0
  }

  function Credits(c: Course): int { c.credits }

  /** The three totals of `getTotalCredits`. */
  datatype CreditTotals = CreditTotals(passed: int, planned: int, total: int)

  /** No course is both passed and planned. */
  lemma PassedPlannedDisjoint(progress: map<string, StudentProgress>)
    ensures PassedCourses(progress) !! PlannedCourses(progress)
  {
  }

  /**
   * With non-negative credits, the passed and planned totals together never exceed the
   * catalog total, and each is non-negative.
   */
  lemma CreditTotalsBound(progress: map<string, StudentProgress>, courses: seq<Course>)
    requires forall c :: c in courses ==> c.credits >= 0
    ensures 0 <= SumOf(courses, PassedCredit(progress))
    ensures 0 <= SumOf(courses, PlannedCredit(progress))
    ensures SumOf(courses, PassedCredit(progress)) + SumOf(courses, PlannedCredit(progress))
      <= SumOf(courses, Credits)
  {
    var both := (c: Course) => PassedCredit(progress)(c) + PlannedCredit(progress)(c);
    SumOfNonNegative(courses, PassedCredit(progress));
    SumOfNonNegative(courses, PlannedCredit(progress));
    SumOfAdd(courses, PassedCredit(progress), PlannedCredit(progress), both);
    SumOfMonotone(courses, both, Credits);
  }

  /** Marking a course passed moves it into the passed set and out of the planned set. */
  lemma MarkPassedEffect(progress: map<string, StudentProgress>, id: string, e: StudentProgress)
    requires e.status == ProgressPassed
    ensures PassedCourses(progress[id := e]) == PassedCourses(progress) + {id}
    ensures PlannedCourses(progress[id := e]) == PlannedCourses(progress) - {id}
  {
  }

  /** Marking a course planned or in progress moves it into the planned set and out of the passed set. */
  lemma MarkPlannedEffect(progress: map<string, StudentProgress>, id: string, e: StudentProgress)
    requires e.status == ProgressPlanned || e.status == ProgressInProgress
    ensures PassedCourses(progress[id := e]) == PassedCourses(progress) - {id}
    ensures PlannedCourses(progress[id := e]) == PlannedCourses(progress) + {id}
  {
  }

  /** Removing a course's entry takes it out of both sets and changes nothing else. */
  lemma RemoveEffect(progress: map<string, StudentProgress>, id: string)
    ensures PassedCourses(progress - {id}) == PassedCourses(progress) - {id}
    ensures PlannedCourses(progress - {id}) == PlannedCourses(progress) - {id}
  {
  }

  class ProgressStore {
    /** The progress map, keyed by course id. */
    var progress: map<string, StudentProgress>

    constructor ()
      ensures progress == map[]
    {
      progress := map[];
    }

    /** `markCoursePassed`; the clock reading `completedAt` is supplied by the caller. */
    method MarkCoursePassed(courseId: string, grade: Option<string>, completedAt: string)
      modifies this
      ensures progress == old(progress)[courseId := StudentProgress(courseId, ProgressPassed, grade, None, Some(completedAt))]
      ensures PassedCourses(progress) == old(PassedCourses(progress)) + {courseId}
      ensures PlannedCourses(progress) == old(PlannedCourses(progress)) - {courseId}
    {
      var e := StudentProgress(courseId, ProgressPassed, grade, None, Some(completedAt));
      MarkPassedEffect(progress, courseId, e);
      progress := progress[courseId := e];
    }

    /** `markCourseInProgress`. */
    method MarkCourseInProgress(courseId: string, sectionId: Option<string>)
      modifies this
      ensures progress == old(progress)[courseId := StudentProgress(courseId, ProgressInProgress, None, sectionId, None)]
      ensures PassedCourses(progress) == old(PassedCourses(progress)) - {courseId}
      ensures PlannedCourses(progress) == old(PlannedCourses(progress)) + {courseId}
    {
      var e := StudentProgress(courseId, ProgressInProgress, None, sectionId, None);
      MarkPlannedEffect(progress, courseId, e);
      progress := progress[courseId := e];
    }

    /** `markCoursePlanned`. */
    method MarkCoursePlanned(courseId: string, sectionId: Option<string>)
      modifies this
      ensures progress == old(progress)[courseId := StudentProgress(courseId, ProgressPlanned, None, sectionId, None)]
      ensures PassedCourses(progress) == old(PassedCourses(progress)) - {courseId}
      ensures PlannedCourses(progress) == old(PlannedCourses(progress)) + {courseId}
    {
      var e := StudentProgress(courseId, ProgressPlanned, None, sectionId, None);
      MarkPlannedEffect(progress, courseId, e);
      progress := progress[courseId := e];
    }

    /** `removeCourseProgress`. */
    method RemoveCourseProgress(courseId: string)
      modifies this
      ensures progress == old(progress) - {courseId}
      ensures courseId !in progress
      ensures forall k :: k != courseId ==> (k in progress <==> k in old(progress))
      ensures forall k :: k in progress ==> progress[k] == old(progress)[k]
    {
      RemoveEffect(progress, courseId);
      progress := progress - {courseId};
    }

    /** `getPassedCourses`: one pass over the map's entries. */
    method GetPassedCourses() returns (passed: set<string>)
      ensures passed == PassedCourses(progress)
      ensures forall id :: id in passed <==> HasPassedEntry(progress, id)
    {
      passed := {};
      var todo := progress.Keys;
      while todo != {}
        invariant todo <= progress.Keys
        invariant passed == set id | id in progress.Keys - todo && progress[id].status == ProgressPassed
        decreases |todo|
      {
        var id :| id in todo;
        if progress[id].status == ProgressPassed {
          passed := passed + {id};
        }
        todo := todo - {id};
      }
    }

    /** `getPlannedCourses`: one pass over the map's entries. */
    method GetPlannedCourses() returns (planned: set<string>)
      ensures planned == PlannedCourses(progress)
      ensures forall id :: id in planned <==> IsPlannedOrInProgress(progress, id)
    {
      planned := {};
      var todo := progress.Keys;
      while todo != {}
        invariant todo <= progress.Keys
        invariant planned == set id | id in progress.Keys - todo && IsPlannedOrInProgress(progress, id)
        decreases |todo|
      {
        var id :| id in todo;
        if progress[id].status == ProgressPlanned || progress[id].status == ProgressInProgress {
          planned := planned + {id};
        }
        todo := todo - {id};
      }
    }

    /**
     * `getTotalCredits`: every course adds its credits to the total, and to the passed or
     * the planned total according to its entry.
     */
    method GetTotalCredits(courses: seq<Course>) returns (r: CreditTotals)
      ensures r.total == SumOf(courses, Credits)
      ensures r.passed == SumOf(courses, PassedCredit(progress))
      ensures r.planned == SumOf(courses, PlannedCredit(progress))
      ensures (forall c :: c in courses ==> c.credits >= 0) ==>
        0 <= r.passed && 0 <= r.planned && r.passed + r.planned <= r.total
    {
      var passed, planned, total := 0, 0, 0;
      var i := 0;
      while i < |courses|
        invariant 0 <= i <= |courses|
        invariant total == SumOf(courses[..i], Credits)
        invariant passed == SumOf(courses[..i], PassedCredit(progress))
        invariant planned == SumOf(courses[..i], PlannedCredit(progress))
      {
        var c := courses[i];
        assert courses[..i + 1][..i] == courses[..i];
        total := total + c.credits;
        if c.id in progress && progress[c.id].status == ProgressPassed {
          passed := passed + c.credits;
        } else if c.id in progress && (progress[c.id].status == ProgressPlanned || progress[c.id].status == ProgressInProgress) {
          planned := planned + c.credits;
        }
        i := i + 1;
      }
      assert courses[..i] == courses;
      if forall c :: c in courses ==> c.credits >= 0 {
        CreditTotalsBound(progress, courses);
      }
      r := CreditTotals(passed, planned, total);
    }
  }
}
