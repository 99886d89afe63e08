/**
 * The records the planner passes around: catalog courses, a student's progress entries,
 * course-plan entries and catalog sections with their `HH:MM` time blocks.
 */
module Catalog {
  import opened Wrappers

  /**
   * A course of the curriculum. `electiveType` is `"general"` or `"professional"` for the
   * electives the conversion script produces; any other text, or none, gates nothing.
   */
  datatype Course = Course(
    id: string,
    name: string,
    credits: int,
    theoreticalHours: int,
    practicalHours: int,
    term: int,
    block: string,
    prerequisites: seq<string>,
    corequisites: seq<string>,
    isElective: bool,
    electiveType: Option<string>,
    description: Option<string>)

  /** What the planner shows for a course: the resolver only ever answers one of these. */
  datatype CourseStatus = Passed | Blocked | Available

  /** The `status` of a progress entry. */
  datatype ProgressStatus = ProgressPassed | ProgressInProgress | ProgressPlanned

  /** One entry of the progress map; `completedAt` is an opaque timestamp text. */
  datatype StudentProgress = StudentProgress(
    courseId: string,
    status: ProgressStatus,
    grade: Option<string>,
    sectionId: Option<string>,
    completedAt: Option<string>)

  /** One entry of the course plan. */
  datatype CoursePlan = CoursePlan(courseId: string, plannedTerm: int, sectionId: Option<string>, priority: int)

  /** One time block of a catalog section, with `HH:MM` texts. */
  datatype ScheduleBlock = ScheduleBlock(day: string, startTime: string, endTime: string)

  /** A catalog section of a course. */
  datatype Section = Section(id: string, courseId: string, crn: string, room: string, schedule: seq<ScheduleBlock>)

  /** The entry has one of the two "taking it" statuses. */
  predicate IsPlannedOrInProgress(progress: map<string, StudentProgress>, id: string) {
    id in progress && (progress[id].status == ProgressPlanned || progress[id].status == ProgressInProgress)
  }

  predicate HasPassedEntry(progress: map<string, StudentProgress>, id: string) {
    id in progress && progress[id].status == ProgressPassed
  }
}
