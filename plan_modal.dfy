/**
 * The comprehensive plan dialog: the available courses grouped by term, the open sections
 * of a course looked up by name in the processed section catalog, the list of chosen
 * sections (one per course) with its credit total and pairwise conflict scan, and the
 * rule that decides whether the plan may be saved.
 */
module PlanModal {
  import opened Wrappers
  import opened Seqs
  import opened Text
  import opened Catalog
  import Grouping
  import Pairs
  import SectionsProcessor
  import CourseData

  /** A chosen section of a course. */
  datatype SelectedSection = SelectedSection(courseId: string, sectionCrn: string, section: SectionsProcessor.ProcessedSection)

  /** One term of the dialog's course list. */
  datatype TermCourses = TermCourses(term: int, termInfo: Option<CourseData.TermInfo>, courses: seq<Course>)

  /** The credit limit of a plan. */
  const MaxCredits: int := 31

  // ---------------------------------------------------------------- courses by term

  function IsAvailable(status: Course -> CourseStatus): Course -> bool {
    (c: Course) => status(c) == Available
  }

  function AvailableOfTerm(status: Course -> CourseStatus, term: int): Course -> bool {
    (c: Course) => status(c) == Available && c.term == term
  }

  /** `a.name.localeCompare(b.name)` as a comparator on courses. */
  function ByName(nameLeq: (string, string) -> bool): (Course, Course) -> bool {
    (a: Course, b: Course) => nameLeq(a.name, b.name)
  }

  function BucketTerm(b: (int, seq<Course>)): int { b.0 }

  /** The entries of the term list, given the buckets already sorted by term. */
  function TermList(sorted: seq<(int, seq<Course>)>, terms: seq<CourseData.TermInfo>,
                    nameLeq: (string, string) -> bool): seq<TermCourses> {
    seq(|sorted|, i requires 0 <= i < |sorted| =>
      TermCourses(sorted[i].0, Find(terms, CourseData.IsTermInfo(sorted[i].0)), SortBy(sorted[i].1, ByName(nameLeq))))
  }

  /** `coursesByTerm`: the `Map` buckets of the available courses, sorted by term, each sorted by name. */
  function CoursesByTerm(courses: seq<Course>, status: Course -> CourseStatus, terms: seq<CourseData.TermInfo>,
                         nameLeq: (string, string) -> bool): seq<TermCourses> {
    var groups := Grouping.Group(Filter(courses, IsAvailable(status)), CourseData.TermOf);
    TermList(SortBy(groups, KeyLeq(BucketTerm)), terms, nameLeq)
  }

  /** The `forEach` that fills the buckets, skipping courses that are not available. */
  method GroupAvailable(courses: seq<Course>, status: Course -> CourseStatus) returns (grouped: seq<(int, seq<Course>)>)
    ensures grouped == Grouping.Group(Filter(courses, IsAvailable(status)), CourseData.TermOf)
  {
    grouped := [];
    var n := 0;
    while n < |courses|
      invariant 0 <= n <= |courses|
      invariant grouped == Grouping.Group(Filter(courses[..n], IsAvailable(status)), CourseData.TermOf)
    {
      var c := courses[n];
      AvailableStep(courses, status, n);
      if status(c) == Available {
        match Grouping.BucketIndex(grouped, c.term) {
          case Some(i) =>
            grouped := grouped[i := (grouped[i].0, grouped[i].1 + [c])];
          case None =>
            grouped := grouped + [(c.term, [c])];
        }
      }
      n := n + 1;
    }
    assert courses[..n] == courses;
  }

  lemma AvailableStep(courses: seq<Course>, status: Course -> CourseStatus, n: nat)
    requires n < |courses|
    ensures var before := Grouping.Group(Filter(courses[..n], IsAvailable(status)), CourseData.TermOf);
      Grouping.Group(Filter(courses[..n + 1], IsAvailable(status)), CourseData.TermOf)
        == if status(courses[n]) == Available then Grouping.Push(before, courses[n].term, courses[n]) else before
  {
    var c := courses[n];
    var before := Filter(courses[..n], IsAvailable(status));
    assert courses[..n + 1] == courses[..n] + [c];
    FilterSnoc(courses[..n], c, IsAvailable(status));
    if status(c) == Available {
      assert Filter(courses[..n + 1], IsAvailable(status)) == before + [c];
      Grouping.GroupSnoc(before, c, CourseData.TermOf);
    } else {
      assert Filter(courses[..n + 1], IsAvailable(status)) == before + [];
      assert before + [] == before;
    }
  }

  lemma ByNamePreorder(nameLeq: (string, string) -> bool)
    requires TotalPreorder(nameLeq)
    ensures TotalPreorder(ByName(nameLeq))
  {
    var leq := ByName(nameLeq);
    forall a: Course, b: Course ensures leq(a, b) || leq(b, a) {
      assert nameLeq(a.name, b.name) || nameLeq(b.name, a.name);
    }
    forall a: Course, b: Course, c: Course | leq(a, b) && leq(b, c) ensures leq(a, c) {
      assert nameLeq(a.name, b.name) && nameLeq(b.name, c.name);
    }
  }

  /** The memoised value: the buckets, then the sort by term and the per-term sort by name. */
  method ComputeCoursesByTerm(courses: seq<Course>, status: Course -> CourseStatus, terms: seq<CourseData.TermInfo>,
                              nameLeq: (string, string) -> bool) returns (r: seq<TermCourses>)
    ensures r == CoursesByTerm(courses, status, terms, nameLeq)
  {
    var grouped := GroupAvailable(courses, status);
    r := TermList(SortBy(grouped, KeyLeq(BucketTerm)), terms, nameLeq);
  }

  /** The terms of the list ascend strictly, and each carries its `getAllTerms` entry, if any. */
  lemma CoursesByTermOrder(courses: seq<Course>, status: Course -> CourseStatus, terms: seq<CourseData.TermInfo>,
                           nameLeq: (string, string) -> bool)
    ensures var r := CoursesByTerm(courses, status, terms, nameLeq);
      (forall i, j :: 0 <= i < j < |r| ==> r[i].term < r[j].term)
      && (forall g :: g in r ==> g.termInfo == Find(terms, CourseData.IsTermInfo(g.term)))
  {
    var groups := Grouping.Group(Filter(courses, IsAvailable(status)), CourseData.TermOf);
    Grouping.GroupKeys(Filter(courses, IsAvailable(status)), CourseData.TermOf);
    assert forall i, j :: 0 <= i < j < |groups| ==> BucketTerm(groups[i]) != BucketTerm(groups[j]);
    SortByKey(groups, BucketTerm);
    var sorted := SortBy(groups, KeyLeq(BucketTerm));
    var r := TermList(sorted, terms, nameLeq);
    assert r == CoursesByTerm(courses, status, terms, nameLeq);
    assert Ascending(sorted, BucketTerm);
    forall i, j | 0 <= i < j < |r| ensures r[i].term < r[j].term {
      assert r[i].term == BucketTerm(sorted[i]) && r[j].term == BucketTerm(sorted[j]);
    }
  }

  /** Each term's courses are exactly that term's available courses, sorted by name. */
  lemma CoursesByTermBuckets(courses: seq<Course>, status: Course -> CourseStatus, terms: seq<CourseData.TermInfo>,
                             nameLeq: (string, string) -> bool)
    requires TotalPreorder(nameLeq)
    ensures var r := CoursesByTerm(courses, status, terms, nameLeq);
      (forall g :: g in r ==> SortedBy(g.courses, ByName(nameLeq)))
      && (forall g :: g in r ==> multiset(g.courses) == multiset(Filter(courses, AvailableOfTerm(status, g.term))))
  {
    var avail := Filter(courses, IsAvailable(status));
    var groups := Grouping.Group(avail, CourseData.TermOf);
    var sorted := SortBy(groups, KeyLeq(BucketTerm));
    var r := TermList(sorted, terms, nameLeq);
    Grouping.GroupBuckets(avail, CourseData.TermOf);
    SortByMembers(groups, KeyLeq(BucketTerm));
    ByNamePreorder(nameLeq);
    forall g | g in r ensures SortedBy(g.courses, ByName(nameLeq))
      && multiset(g.courses) == multiset(Filter(courses, AvailableOfTerm(status, g.term))) {
      var i :| 0 <= i < |r| && r[i] == g;
      BucketOfSorted(avail, sorted, i);
      SortBySorted(sorted[i].1, ByName(nameLeq));
      SortByPermutes(sorted[i].1, ByName(nameLeq));
      FilterTwice(courses, IsAvailable(status), Grouping.HasKey(CourseData.TermOf, g.term), AvailableOfTerm(status, g.term));
    }
  }

  lemma BucketOfSorted(avail: seq<Course>, sorted: seq<(int, seq<Course>)>, i: nat)
    requires forall x :: x in sorted ==> x in Grouping.Group(avail, CourseData.TermOf)
    requires i < |sorted|
    ensures sorted[i].1 == Filter(avail, Grouping.HasKey(CourseData.TermOf, sorted[i].0))
  {
    var groups := Grouping.Group(avail, CourseData.TermOf);
    Grouping.GroupBuckets(avail, CourseData.TermOf);
    assert sorted[i] in groups;
    var k :| 0 <= k < |groups| && groups[k] == sorted[i];
  }

  /** Every available course is listed under its term. */
  lemma CoursesByTermCovers(courses: seq<Course>, status: Course -> CourseStatus, terms: seq<CourseData.TermInfo>,
                            nameLeq: (string, string) -> bool)
    ensures var r := CoursesByTerm(courses, status, terms, nameLeq);
      forall c :: c in courses && status(c) == Available ==> exists g :: g in r && g.term == c.term && c in g.courses
  {
    var avail := Filter(courses, IsAvailable(status));
    var groups := Grouping.Group(avail, CourseData.TermOf);
    var sorted := SortBy(groups, KeyLeq(BucketTerm));
    var r := TermList(sorted, terms, nameLeq);
    Grouping.GroupKeys(avail, CourseData.TermOf);
    Grouping.GroupBuckets(avail, CourseData.TermOf);
    SortByMembers(groups, KeyLeq(BucketTerm));
    forall c | c in courses && status(c) == Available ensures exists g :: g in r && g.term == c.term && c in g.courses {
      assert c in avail;
      var k := Grouping.BucketIndex(groups, c.term).value;
      assert c in groups[k].1;
      assert groups[k] in sorted;
      var i :| 0 <= i < |sorted| && sorted[i] == groups[k];
      SortByMembers(sorted[i].1, ByName(nameLeq));
      assert r[i] in r;
    }
  }

  /** Only available courses are listed, each under its own term. */
  lemma CoursesByTermOnlyAvailable(courses: seq<Course>, status: Course -> CourseStatus, terms: seq<CourseData.TermInfo>,
                                   nameLeq: (string, string) -> bool)
    requires TotalPreorder(nameLeq)
    ensures var r := CoursesByTerm(courses, status, terms, nameLeq);
      forall g, c :: g in r && c in g.courses ==> c in courses && status(c) == Available && c.term == g.term
  {
    var r := CoursesByTerm(courses, status, terms, nameLeq);
    CoursesByTermBuckets(courses, status, terms, nameLeq);
    forall g, c | g in r && c in g.courses ensures c in courses && status(c) == Available && c.term == g.term {
      assert c in multiset(g.courses);
      assert c in Filter(courses, AvailableOfTerm(status, g.term));
    }
  }

  // ---------------------------------------------------------------- sections of a course

  /** The catalog course for a name: the same name, exactly or ignoring case. */
  function NameMatches(courseName: string): SectionsProcessor.ProcessedCourse -> bool {
    (c: SectionsProcessor.ProcessedCourse) => c.name == courseName || Lower(c.name) == Lower(courseName)
  }

  function IsOpen(): SectionsProcessor.ProcessedSection -> bool {
    (s: SectionsProcessor.ProcessedSection) => !s.closed
  }

  /** `k` is the first catalog course whose name equals `courseName` ignoring case. */
  predicate FirstNamed(cs: seq<SectionsProcessor.ProcessedCourse>, courseName: string, k: nat) {
    k < |cs| && Lower(cs[k].name) == Lower(courseName)
    && forall j :: 0 <= j < k ==> Lower(cs[j].name) != Lower(courseName)
  }

  /** `getSectionsForCourse`: the open sections of the first catalog course with that name. */
  function GetSectionsForCourse(catalog: SectionsProcessor.SectionsData, courseName: string)
    : (r: seq<SectionsProcessor.ProcessedSection>)
    ensures forall s :: s in r ==> !s.closed
  {
    match Find(catalog.courses, NameMatches(courseName))
    case None => []
    case Some(c) => Filter(c.sections, IsOpen())
  }

  /**
   * The exact-name test adds nothing to the case-insensitive one: the sections come from
   * the first catalog course whose name equals the course name ignoring case, and there
   * are none when no catalog course has that name.
   */
  lemma SectionsForCourseSpec(catalog: SectionsProcessor.SectionsData, courseName: string)
    ensures (forall c :: c in catalog.courses ==> Lower(c.name) != Lower(courseName)) ==>
      GetSectionsForCourse(catalog, courseName) == []
    ensures forall k: nat :: FirstNamed(catalog.courses, courseName, k) ==>
      SelectsExactly(GetSectionsForCourse(catalog, courseName), catalog.courses[k].sections, IsOpen())
  {
    var cs := catalog.courses;
    match FindIndex(cs, NameMatches(courseName)) {
      case None =>
      case Some(i) =>
        assert Find(cs, NameMatches(courseName)) == Some(cs[i]);
        FilterSelects(cs[i].sections, IsOpen());
        forall k: nat | FirstNamed(cs, courseName, k) ensures k == i {
          assert NameMatches(courseName)(cs[k]);
          assert Lower(cs[i].name) == Lower(courseName);
        }
    }
  }

  // ---------------------------------------------------------------- the selection list

  function OfCourse(courseId: string): SelectedSection -> bool {
    (s: SelectedSection) => s.courseId == courseId
  }

  function OtherCourse(courseId: string): SelectedSection -> bool {
    (s: SelectedSection) => s.courseId != courseId
  }

  function HasCrn(crn: string): SectionsProcessor.ProcessedSection -> bool {
    (s: SectionsProcessor.ProcessedSection) => s.crn == crn
  }

  /** No course has two selections. */
  predicate OnePerCourse(selected: seq<SelectedSection>) {
    forall i, j :: 0 <= i < j < |selected| ==> selected[i].courseId != selected[j].courseId
  }

  /** Every selection names a course of the catalog. */
  predicate KnownCourses(selected: seq<SelectedSection>, courses: seq<Course>) {
    forall s :: s in selected ==> CourseData.GetCourseById(courses, s.courseId).Some?
  }

  /** The section `handleSectionSelect` would pick: the course by id, then its open section by CRN. */
  function Chosen(courses: seq<Course>, catalog: SectionsProcessor.SectionsData, courseId: string, sectionCrn: string)
    : (r: Option<SectionsProcessor.ProcessedSection>)
    ensures r.Some? ==> CourseData.GetCourseById(courses, courseId).Some? && r.value.crn == sectionCrn && !r.value.closed
  {
    match CourseData.GetCourseById(courses, courseId)
    case None => None
    case Some(course) => Find(GetSectionsForCourse(catalog, course.name), HasCrn(sectionCrn))
  }

  /** `handleSectionSelect`'s new list: the course's old selections dropped, the new one pushed. */
  function SelectSection(prev: seq<SelectedSection>, courses: seq<Course>, catalog: SectionsProcessor.SectionsData,
                         courseId: string, sectionCrn: string): seq<SelectedSection> {
    match Chosen(courses, catalog, courseId, sectionCrn)
    case None => prev
    case Some(section) => Filter(prev, OtherCourse(courseId)) + [SelectedSection(courseId, sectionCrn, section)]
  }

  /** `handleRemoveSelection`'s new list. */
  function RemoveSelection(prev: seq<SelectedSection>, courseId: string): seq<SelectedSection> {
    Filter(prev, OtherCourse(courseId))
  }

  lemma {:induction false} FilterKeepsOnePerCourse(s: seq<SelectedSection>, p: SelectedSection -> bool)
    requires OnePerCourse(s)
    ensures OnePerCourse(Filter(s, p))
    decreases |s|
  {
    if s != [] {
      assert OnePerCourse(s[1..]) by {
        forall i, j | 0 <= i < j < |s[1..]| ensures s[1..][i].courseId != s[1..][j].courseId {
          assert s[1..][i] == s[i + 1] && s[1..][j] == s[j + 1];
        }
      }
      FilterKeepsOnePerCourse(s[1..], p);
      if p(s[0]) {
        var t := Filter(s[1..], p);
        var r := [s[0]] + t;
        forall i, j | 0 <= i < j < |r| ensures r[i].courseId != r[j].courseId {
          assert r[j] == t[j - 1];
          if i == 0 {
            assert t[j - 1] in s[1..];
            var k :| 0 <= k < |s[1..]| && s[1..][k] == t[j - 1];
            assert s[k + 1] == t[j - 1];
          } else {
            assert r[i] == t[i - 1];
          }
        }
      }
    }
  }

  /**
   * An unknown course or a CRN that is not among the course's open sections leaves the
   * list as it is. Otherwise the new selection is last, it is the only one of its course,
   * the selections of other courses are kept in order, and a list without two selections
   * of one course keeps that property.
   */
  lemma SelectSectionSpec(prev: seq<SelectedSection>, courses: seq<Course>, catalog: SectionsProcessor.SectionsData,
                          courseId: string, sectionCrn: string)
    ensures var r := SelectSection(prev, courses, catalog, courseId, sectionCrn);
      var chosen := Chosen(courses, catalog, courseId, sectionCrn);
      (chosen.None? ==> r == prev)
      && (chosen.Some? ==>
            r != [] && r[|r| - 1] == SelectedSection(courseId, sectionCrn, chosen.value)
            && |Filter(r, OfCourse(courseId))| == 1
            && Filter(r, OtherCourse(courseId)) == Filter(prev, OtherCourse(courseId)))
      && (OnePerCourse(prev) ==> OnePerCourse(r))
  {
    var chosen := Chosen(courses, catalog, courseId, sectionCrn);
    if chosen.Some? {
      var kept := Filter(prev, OtherCourse(courseId));
      var added := SelectedSection(courseId, sectionCrn, chosen.value);
      var r := kept + [added];
      FilterSnoc(kept, added, OfCourse(courseId));
      FilterNone(kept, OfCourse(courseId));
      FilterSnoc(kept, added, OtherCourse(courseId));
      FilterTwice(prev, OtherCourse(courseId), OtherCourse(courseId), OtherCourse(courseId));
      if OnePerCourse(prev) {
        FilterKeepsOnePerCourse(prev, OtherCourse(courseId));
        forall i, j | 0 <= i < j < |r| ensures r[i].courseId != r[j].courseId {
          if j == |kept| {
            assert kept[i] in kept;
          } else {
            assert r[i] == kept[i] && r[j] == kept[j];
          }
        }
      }
    }
  }

  /**
   * Removal leaves no selection of the course and keeps exactly the selections of the
   * other courses, in order.
   */
  lemma RemoveSelectionSpec(prev: seq<SelectedSection>, courseId: string)
    ensures var r := RemoveSelection(prev, courseId);
      Filter(r, OfCourse(courseId)) == []
      && SelectsExactly(r, prev, OtherCourse(courseId))
      && (OnePerCourse(prev) ==> OnePerCourse(r))
  {
    var r := RemoveSelection(prev, courseId);
    FilterNone(r, OfCourse(courseId));
    FilterSelects(prev, OtherCourse(courseId));
    if OnePerCourse(prev) {
      FilterKeepsOnePerCourse(prev, OtherCourse(courseId));
    }
  }

  /** Selecting only ever adds a selection whose course exists. */
  lemma SelectKeepsKnown(prev: seq<SelectedSection>, courses: seq<Course>, catalog: SectionsProcessor.SectionsData,
                         courseId: string, sectionCrn: string)
    requires KnownCourses(prev, courses)
    ensures KnownCourses(SelectSection(prev, courses, catalog, courseId, sectionCrn), courses)
  {
  }

  // ---------------------------------------------------------------- credits

  /** What a selection adds to the total: the credits of its course, or 0 if the course is unknown. */
  function CreditsOf(courses: seq<Course>): SelectedSection -> int {
    (s: SelectedSection) =>
      match CourseData.GetCourseById(courses, s.courseId)
      case Some(c) => c.credits
      case None => 0
  }

  /** `totalCredits`: the `reduce` over the selections. */
  function TotalCredits(selected: seq<SelectedSection>, courses: seq<Course>): int {
    SumOf(selected, CreditsOf(courses))
  }

  /** With non-negative catalog credits the total is never negative. */
  lemma TotalCreditsNonNegative(selected: seq<SelectedSection>, courses: seq<Course>)
    requires forall c :: c in courses ==> c.credits >= 0
    ensures TotalCredits(selected, courses) >= 0
  {
    SumOfNonNegative(selected, CreditsOf(courses));
  }

  /** A new selection replaces the course's old ones in the total by the course's credits. */
  lemma TotalAfterSelect(prev: seq<SelectedSection>, courses: seq<Course>, catalog: SectionsProcessor.SectionsData,
                         courseId: string, sectionCrn: string)
    requires Chosen(courses, catalog, courseId, sectionCrn).Some?
    ensures TotalCredits(SelectSection(prev, courses, catalog, courseId, sectionCrn), courses)
      == TotalCredits(RemoveSelection(prev, courseId), courses)
         + CourseData.GetCourseById(courses, courseId).value.credits
  {
    var chosen := Chosen(courses, catalog, courseId, sectionCrn).value;
    var kept := Filter(prev, OtherCourse(courseId));
    SumOfConcat(kept, [SelectedSection(courseId, sectionCrn, chosen)], CreditsOf(courses));
    assert [SelectedSection(courseId, sectionCrn, chosen)][..0] == [];
  }

  // ---------------------------------------------------------------- conflicts and saving

  function ConflictMessage(a: Course, b: Course): string {
    "Conflicto de horario: " + a.name + " y " + b.name
  }

  /** The test of the conflict effect: clashing slots, and both courses found. */
  function ConflictTest(courses: seq<Course>): (SelectedSection, SelectedSection) -> Option<string> {
    (a: SelectedSection, b: SelectedSection) =>
      if SectionsProcessor.SlotsConflict(a.section.slots, b.section.slots) then
        match (CourseData.GetCourseById(courses, a.courseId), CourseData.GetCourseById(courses, b.courseId))
        case (Some(c1), Some(c2)) => Some(ConflictMessage(c1, c2))
        case _ => None
      else None
  }

  /** The conflict messages the effect stores for the current selections. */
  function Conflicts(selected: seq<SelectedSection>, courses: seq<Course>): seq<string> {
    Pairs.Scan(selected, ConflictTest(courses))
  }

  /** A pair that the scan reports: `i < j`, clashing slots, both courses known. */
  predicate ReportedPair(selected: seq<SelectedSection>, courses: seq<Course>, i: nat, j: nat)
    requires i < |selected| && j < |selected|
  {
    SectionsProcessor.SlotsConflict(selected[i].section.slots, selected[j].section.slots)
    && CourseData.GetCourseById(courses, selected[i].courseId).Some?
    && CourseData.GetCourseById(courses, selected[j].courseId).Some?
  }

  /** There is no message exactly when no pair `i < j` of known courses clashes. */
  lemma ConflictsEmpty(selected: seq<SelectedSection>, courses: seq<Course>)
    ensures Conflicts(selected, courses) == [] <==>
      forall i, j :: 0 <= i < j < |selected| ==> !ReportedPair(selected, courses, i, j)
  {
    var test := ConflictTest(courses);
    var msgs := Conflicts(selected, courses);
    if msgs != [] {
      Pairs.ScanMember(selected, test, msgs[0]);
      var i, j :| 0 <= i < j < |selected| && test(selected[i], selected[j]) == Some(msgs[0]);
      assert ReportedPair(selected, courses, i, j);
    }
    if exists i, j :: 0 <= i < j < |selected| && ReportedPair(selected, courses, i, j) {
      var i, j :| 0 <= i < j < |selected| && ReportedPair(selected, courses, i, j);
      var m := test(selected[i], selected[j]).value;
      Pairs.ScanMember(selected, test, m);
    }
  }

  /** `canSave`. */
  predicate CanSave(selected: seq<SelectedSection>, courses: seq<Course>) {
    |Conflicts(selected, courses)| == 0 && TotalCredits(selected, courses) <= MaxCredits && |selected| > 0
  }

  /** `handleSavePlan`'s gate, which unlike `canSave` lets an empty plan through. */
  predicate SaveAccepted(selected: seq<SelectedSection>, courses: seq<Course>) {
    |Conflicts(selected, courses)| == 0 && TotalCredits(selected, courses) <= MaxCredits
  }

  /**
   * For selections of known courses, the plan may be saved exactly when no two chosen
   * sections clash, the credits are within the limit and something is chosen; whatever
   * `canSave` allows, the save handler accepts, and it also accepts the empty plan.
   */
  lemma CanSaveSpec(selected: seq<SelectedSection>, courses: seq<Course>)
    requires KnownCourses(selected, courses)
    ensures CanSave(selected, courses) <==>
      (forall i, j :: 0 <= i < j < |selected| ==>
         !SectionsProcessor.SlotsConflict(selected[i].section.slots, selected[j].section.slots))
      && TotalCredits(selected, courses) <= MaxCredits && selected != []
    ensures CanSave(selected, courses) ==> SaveAccepted(selected, courses)
    ensures SaveAccepted([], courses) && !CanSave([], courses)
  {
    ConflictsEmpty(selected, courses);
    ConflictsEmpty([], courses);
    forall i, j | 0 <= i < j < |selected| ensures ReportedPair(selected, courses, i, j) <==>
      SectionsProcessor.SlotsConflict(selected[i].section.slots, selected[j].section.slots) {
      assert selected[i] in selected && selected[j] in selected;
    }
  }

  /** The dialog's state: the chosen sections. */
  class PlanDialog {
    var selected: seq<SelectedSection>

    constructor ()
      ensures selected == []
    {
      selected := [];
    }

    /** `handleSectionSelect`. */
    method HandleSectionSelect(courses: seq<Course>, catalog: SectionsProcessor.SectionsData,
                               courseId: string, sectionCrn: string)
      modifies this
      ensures selected == SelectSection(old(selected), courses, catalog, courseId, sectionCrn)
    {
      var course := CourseData.GetCourseById(courses, courseId);
      if course.None? {
        return;
      }
      var sections := GetSectionsForCourse(catalog, course.value.name);
      var section := Find(sections, HasCrn(sectionCrn));
      if section.None? {
        return;
      }
      selected := Filter(selected, OtherCourse(courseId)) + [SelectedSection(courseId, sectionCrn, section.value)];
    }

    /** `handleRemoveSelection`. */
    method HandleRemoveSelection(courseId: string)
      modifies this
      ensures selected == RemoveSelection(old(selected), courseId)
    {
      selected := Filter(selected, OtherCourse(courseId));
    }

    /** `handleClearPlan`. */
    method HandleClearPlan()
      modifies this
      ensures selected == []
    {
      selected := [];
    }

    /** The conflict effect: the nested `i < j` loop over the selections. */
    method CheckConflicts(courses: seq<Course>) returns (msgs: seq<string>)
      ensures msgs == Conflicts(selected, courses)
    {
      msgs := Pairs.ScanLoop(selected, ConflictTest(courses));
    }

    /** `handleSavePlan`: whether the plan is saved and the dialog closed. */
    method HandleSavePlan(courses: seq<Course>) returns (saved: bool)
      ensures saved == SaveAccepted(selected, courses)
    {
      var conflicts := CheckConflicts(courses);
      if |conflicts| > 0 {
        return false;
      }
      if TotalCredits(selected, courses) > MaxCredits {
        return false;
      }
      saved := true;
    }
  }
}
