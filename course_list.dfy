/**
 * The catalog list: the courses that pass the filter panel (term, status, electives only,
 * in plan only and a case-insensitive search on id or name), grouped under their terms
 * with a display name and block, terms in ascending order.
 * The status of a course and the ids in the plan come from other hooks; here they are
 * parameters.
 */
module CourseList {
  import opened Wrappers
  import opened Seqs
  import opened Text
  import opened Catalog
  import Grouping
  import CourseData

  // ---------------------------------------------------------------- filters

  /**
   * The filter panel. A missing `term` or a `term` of 0, a missing `status` and an empty
   * `searchTerm` are unset, as the falsy values are in the panel.
   */
  datatype Filters = Filters(
    term: Option<int>,
    status: Option<CourseStatus>,
    electivesOnly: bool,
    inPlanOnly: bool,
    searchTerm: string)

  /** The panel as the dashboard first shows it. */
  const NoFilters: Filters := Filters(None, None, false, false, "")

  /** `filters.term` is truthy. */
  predicate TermSet(f: Filters) {
    f.term.Some? && f.term.value != 0
  }

  /** The lower-cased search text occurs in the lower-cased id or name. */
  predicate Matches(c: Course, search: string) {
    Contains(Lower(c.id), Lower(search)) || Contains(Lower(c.name), Lower(search))
  }

  /** The `filter` callback: each set filter in turn may reject the course. */
  function Keep(f: Filters, status: Course -> CourseStatus, planned: set<string>): Course -> bool {
    (c: Course) =>
      if TermSet(f) && c.term != f.term.value then false
      else if f.status.Some? && status(c) != f.status.value then false
      else if f.electivesOnly && !c.isElective then false
      else if f.inPlanOnly && c.id !in planned then false
      else if f.searchTerm != "" && !Matches(c, f.searchTerm) then false
      else true
  }

  /**
   * A course passes exactly when every filter is unset or satisfied; the search is
   * satisfied when the lower-cased query occurs at some position of the lower-cased id
   * or name.
   */
  lemma KeepIff(f: Filters, status: Course -> CourseStatus, planned: set<string>, c: Course)
    ensures Keep(f, status, planned)(c) <==>
      (!TermSet(f) || c.term == f.term.value)
      && (f.status.None? || status(c) == f.status.value)
      && (!f.electivesOnly || c.isElective)
      && (!f.inPlanOnly || c.id in planned)
      && (f.searchTerm == ""
          || (exists k: nat :: OccursAt(Lower(c.id), Lower(f.searchTerm), k))
          || (exists k: nat :: OccursAt(Lower(c.name), Lower(f.searchTerm), k)))
  {
    ContainsOccurs(Lower(c.id), Lower(f.searchTerm));
    ContainsOccurs(Lower(c.name), Lower(f.searchTerm));
  }

  /** The search ignores the case of the query. */
  lemma SearchIgnoresCase(f: Filters, status: Course -> CourseStatus, planned: set<string>, c: Course)
    ensures Keep(f, status, planned)(c) == Keep(f.(searchTerm := Lower(f.searchTerm)), status, planned)(c)
  {
    LowerIdempotent(f.searchTerm);
    assert |Lower(f.searchTerm)| == |f.searchTerm|;
  }

  /** `filteredCourses`: the courses that pass, in catalog order, each as often as in the catalog. */
  function FilteredCourses(courses: seq<Course>, f: Filters, status: Course -> CourseStatus, planned: set<string>)
    : (r: seq<Course>)
    ensures SelectsExactly(r, courses, Keep(f, status, planned))
  {
    FilterSelects(courses, Keep(f, status, planned));
    Filter(courses, Keep(f, status, planned))
  }

  /** With no filter set the whole catalog is listed. */
  lemma NoFiltersKeepAll(courses: seq<Course>, status: Course -> CourseStatus, planned: set<string>)
    ensures FilteredCourses(courses, NoFilters, status, planned) == courses
  {
    FilterAll(courses, Keep(NoFilters, status, planned));
  }

  function IsElective(c: Course): bool { c.isElective }

  function InPlan(planned: set<string>): Course -> bool {
    (c: Course) => c.id in planned
  }

  /** Switching a flag on keeps exactly the listed courses that meet it. */
  lemma FlagsNarrow(courses: seq<Course>, f: Filters, status: Course -> CourseStatus, planned: set<string>)
    ensures FilteredCourses(courses, f.(electivesOnly := true), status, planned)
      == Filter(FilteredCourses(courses, f, status, planned), IsElective)
    ensures FilteredCourses(courses, f.(inPlanOnly := true), status, planned)
      == Filter(FilteredCourses(courses, f, status, planned), InPlan(planned))
  {
    FilterTwice(courses, Keep(f, status, planned), IsElective, Keep(f.(electivesOnly := true), status, planned));
    FilterTwice(courses, Keep(f, status, planned), InPlan(planned), Keep(f.(inPlanOnly := true), status, planned));
  }

  // ---------------------------------------------------------------- groups

  /** One term of the list, with the display name and block chosen when it was opened. */
  datatype CourseGroup = CourseGroup(term: int, name: string, block: string, courses: seq<Course>)

  function GroupTerm(g: CourseGroup): int { g.term }

  function IsGroup(term: int): CourseGroup -> bool {
    (g: CourseGroup) => g.term == term
  }

  /** `termInfo?.name || \`Term ${term}\``. */
  function GroupName(info: Option<CourseData.TermInfo>, term: int): string {
    if info.Some? && info.value.name != "" then info.value.name else "Term " + IntToString(term)
  }

  /** `termInfo?.block || course.block` for the course that opened the group. */
  function GroupBlock(info: Option<CourseData.TermInfo>, first: Course): string {
    if info.Some? && info.value.block != "" then info.value.block else first.block
  }

  /** The group a bucket of the `Map` stands for. */
  function Opened(term: int, bucket: seq<Course>, terms: seq<CourseData.TermInfo>): CourseGroup {
    var info := Find(terms, CourseData.IsTermInfo(term));
    CourseGroup(term, GroupName(info, term), if bucket == [] then "" else GroupBlock(info, bucket[0]), bucket)
  }

  /** The groups for the buckets, in the buckets' order. */
  function Label(g: seq<(int, seq<Course>)>, terms: seq<CourseData.TermInfo>): seq<CourseGroup> {
    seq(|g|, i requires 0 <= i < |g| => Opened(g[i].0, g[i].1, terms))
  }

  /** `groupedCourses`: the groups of the filtered courses, sorted by term. */
  function GroupedCourses(filtered: seq<Course>, terms: seq<CourseData.TermInfo>): seq<CourseGroup> {
    SortBy(Label(Grouping.Group(filtered, CourseData.TermOf), terms), KeyLeq(GroupTerm))
  }

  /** `groups.has(course.term)` on the groups finds the bucket the grouping keeps for that term. */
  lemma {:induction false} LookupAgrees(g: seq<(int, seq<Course>)>, terms: seq<CourseData.TermInfo>, term: int)
    ensures FindIndex(Label(g, terms), IsGroup(term)) == Grouping.BucketIndex(g, term)
  {
    var l := Label(g, terms);
    assert forall i :: 0 <= i < |g| ==> (IsGroup(term)(l[i]) <==> g[i].0 == term);
    var a, b := FindIndex(l, IsGroup(term)), Grouping.BucketIndex(g, term);
    if a.Some? && b.Some? {
      assert !(a.value < b.value) && !(b.value < a.value);
    }
  }

  /** The `forEach` body: open the group of the course's term if new, then push the course. */
  function Place(groups: seq<CourseGroup>, c: Course, terms: seq<CourseData.TermInfo>): seq<CourseGroup> {
    var info := Find(terms, CourseData.IsTermInfo(c.term));
    match FindIndex(groups, IsGroup(c.term))
    case Some(k) => groups[k := groups[k].(courses := groups[k].courses + [c])]
    case None => groups + [CourseGroup(c.term, GroupName(info, c.term), GroupBlock(info, c), [c])]
  }

  /** Placing the next course labels the grouping of one more course. */
  lemma PlaceStep(filtered: seq<Course>, n: nat, terms: seq<CourseData.TermInfo>)
    requires n < |filtered|
    ensures Place(Label(Grouping.Group(filtered[..n], CourseData.TermOf), terms), filtered[n], terms)
      == Label(Grouping.Group(filtered[..n + 1], CourseData.TermOf), terms)
  {
    var g := Grouping.Group(filtered[..n], CourseData.TermOf);
    var c := filtered[n];
    assert filtered[..n + 1] == filtered[..n] + [c];
    Grouping.GroupSnoc(filtered[..n], c, CourseData.TermOf);
    Grouping.GroupBuckets(filtered[..n], CourseData.TermOf);
    PlacePush(g, c, terms);
  }

  /** Placing a course labels the buckets with the course pushed onto its term's bucket. */
  lemma PlacePush(g: seq<(int, seq<Course>)>, c: Course, terms: seq<CourseData.TermInfo>)
    requires forall i :: 0 <= i < |g| ==> g[i].1 != []
    ensures Place(Label(g, terms), c, terms) == Label(Grouping.Push(g, c.term, c), terms)
  {
    LookupAgrees(g, terms, c.term);
    match Grouping.BucketIndex(g, c.term) {
      case Some(k) =>
        assert (g[k].1 + [c])[0] == g[k].1[0];
        assert Label(g[k := (g[k].0, g[k].1 + [c])], terms)
          == Label(g, terms)[k := Opened(g[k].0, g[k].1 + [c], terms)];
      case None =>
        assert Label(g + [(c.term, [c])], terms) == Label(g, terms) + [Opened(c.term, [c], terms)];
    }
  }

  /** One `forEach` step: `groups.set` of an empty group when the term is new, then the push. */
  method PlaceCourse(groups: seq<CourseGroup>, c: Course, terms: seq<CourseData.TermInfo>) returns (next: seq<CourseGroup>)
    ensures next == Place(groups, c, terms)
  {
    assert [] + [c] == [c];
    next := groups;
    var found := FindIndex(next, IsGroup(c.term));
    if found.None? {
      var info := Find(terms, CourseData.IsTermInfo(c.term));
      next := next + [CourseGroup(c.term, GroupName(info, c.term), GroupBlock(info, c), [])];
    }
    var k := if found.Some? then found.value else |next| - 1;
    next := next[k := next[k].(courses := next[k].courses + [c])];
  }

  /** The memoised grouping: one pass over the filtered courses, then the sort by term. */
  method ComputeGroupedCourses(filtered: seq<Course>, terms: seq<CourseData.TermInfo>) returns (r: seq<CourseGroup>)
    ensures r == GroupedCourses(filtered, terms)
  {
    var groups: seq<CourseGroup> := [];
    var n := 0;
    while n < |filtered|
      invariant 0 <= n <= |filtered|
      invariant groups == Label(Grouping.Group(filtered[..n], CourseData.TermOf), terms)
    {
      PlaceStep(filtered, n, terms);
      groups := PlaceCourse(groups, filtered[n], terms);
      n := n + 1;
    }
    assert filtered[..n] == filtered;
    r := SortBy(groups, KeyLeq(GroupTerm));
  }

  /** The groups come in strictly ascending term order. */
  lemma GroupedOrder(filtered: seq<Course>, terms: seq<CourseData.TermInfo>)
    ensures var r := GroupedCourses(filtered, terms);
      forall i, j :: 0 <= i < j < |r| ==> r[i].term < r[j].term
  {
    var g := Grouping.Group(filtered, CourseData.TermOf);
    var labelled := Label(g, terms);
    Grouping.GroupKeys(filtered, CourseData.TermOf);
    assert forall i, j :: 0 <= i < j < |labelled| ==> GroupTerm(labelled[i]) != GroupTerm(labelled[j]);
    SortByKey(labelled, GroupTerm);
    assert Ascending(GroupedCourses(filtered, terms), GroupTerm);
  }

  /** Each group holds exactly the filtered courses of its term, in their order, and at least one. */
  lemma GroupedBuckets(filtered: seq<Course>, terms: seq<CourseData.TermInfo>)
    ensures forall g :: g in GroupedCourses(filtered, terms) ==>
      g.courses == Filter(filtered, CourseData.OfTerm(g.term)) && g.courses != []
    ensures forall g, c :: g in GroupedCourses(filtered, terms) && c in g.courses ==> c in filtered && c.term == g.term
  {
    forall x | x in GroupedCourses(filtered, terms)
      ensures x.courses == Filter(filtered, CourseData.OfTerm(x.term)) && x.courses != []
      ensures forall c :: c in x.courses ==> c in filtered && c.term == x.term
    {
      GroupedBucket(filtered, terms, x);
      forall c | c in x.courses ensures c in filtered && c.term == x.term {
        assert CourseData.OfTerm(x.term)(c);
        assert CourseData.TermOf(c) == x.term;
      }
    }
  }

  lemma GroupedBucket(filtered: seq<Course>, terms: seq<CourseData.TermInfo>, x: CourseGroup)
    requires x in GroupedCourses(filtered, terms)
    ensures x.courses == Filter(filtered, CourseData.OfTerm(x.term)) && x.courses != []
  {
    var g := Grouping.Group(filtered, CourseData.TermOf);
    var labelled := Label(g, terms);
    SortByMembers(labelled, KeyLeq(GroupTerm));
    assert x in labelled;
    var i :| 0 <= i < |labelled| && labelled[i] == x;
    Grouping.GroupBuckets(filtered, CourseData.TermOf);
    assert x.courses == g[i].1 && x.term == g[i].0;
  }

  /**
   * A group's name and block come from the term's `getAllTerms` entry when that has them,
   * and otherwise are `Term <n>` and the block of the term's first filtered course.
   */
  lemma GroupedLabels(filtered: seq<Course>, terms: seq<CourseData.TermInfo>)
    ensures forall g :: g in GroupedCourses(filtered, terms) ==>
      var info := Find(terms, CourseData.IsTermInfo(g.term));
      && g.name == (if info.Some? && info.value.name != "" then info.value.name else "Term " + IntToString(g.term))
      && Find(filtered, CourseData.OfTerm(g.term)).Some?
      && g.block == (if info.Some? && info.value.block != "" then info.value.block
                     else Find(filtered, CourseData.OfTerm(g.term)).value.block)
  {
    var g := Grouping.Group(filtered, CourseData.TermOf);
    var labelled := Label(g, terms);
    GroupedBuckets(filtered, terms);
    SortByMembers(labelled, KeyLeq(GroupTerm));
    forall x | x in GroupedCourses(filtered, terms)
      ensures Find(filtered, CourseData.OfTerm(x.term)) == Some(x.courses[0])
      ensures x == Opened(x.term, x.courses, terms)
    {
      var i :| 0 <= i < |labelled| && labelled[i] == x;
      FilterHead(filtered, CourseData.OfTerm(x.term));
    }
  }

  /** Every filtered course lies in a group of its term. */
  lemma GroupedCovers(filtered: seq<Course>, terms: seq<CourseData.TermInfo>)
    ensures var r := GroupedCourses(filtered, terms);
      forall c :: c in filtered ==> exists i :: 0 <= i < |r| && r[i].term == c.term && c in r[i].courses
  {
    var g := Grouping.Group(filtered, CourseData.TermOf);
    var labelled := Label(g, terms);
    var r := GroupedCourses(filtered, terms);
    Grouping.GroupKeys(filtered, CourseData.TermOf);
    Grouping.GroupBuckets(filtered, CourseData.TermOf);
    SortByMembers(labelled, KeyLeq(GroupTerm));
    forall c | c in filtered ensures exists i :: 0 <= i < |r| && r[i].term == c.term && c in r[i].courses {
      var k := Grouping.BucketIndex(g, c.term).value;
      assert c in g[k].1;
      assert labelled[k] in r;
      var i :| 0 <= i < |r| && r[i] == labelled[k];
    }
  }

  /** No course lies in two groups. */
  lemma GroupedUnique(filtered: seq<Course>, terms: seq<CourseData.TermInfo>)
    ensures var r := GroupedCourses(filtered, terms);
      forall c, i, j :: 0 <= i < |r| && 0 <= j < |r| && c in r[i].courses && c in r[j].courses ==> i == j
  {
    var r := GroupedCourses(filtered, terms);
    GroupedOrder(filtered, terms);
    GroupedBuckets(filtered, terms);
    forall c, i, j | 0 <= i < |r| && 0 <= j < |r| && c in r[i].courses && c in r[j].courses ensures i == j {
      assert r[i] in r && r[j] in r;
    }
  }
}
