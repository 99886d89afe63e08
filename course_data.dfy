/**
 * The catalog-data hook: lookups over the loaded course and section lists, the display
 * name of a term, and the per-term summary that `getAllTerms` builds through a `Map`.
 * The lists themselves arrive by `fetch`; here they are parameters.
 */
module CourseData {
  import opened Wrappers
  import opened Seqs
  import opened Text
  import opened Catalog
  import Grouping

  // ---------------------------------------------------------------- lookups

  function HasId(id: string): Course -> bool {
    (c: Course) => c.id == id
  }

  function OfTerm(term: int): Course -> bool {
    Grouping.HasKey(TermOf, term)
  }

  function ElectiveOfType(electiveType: string): Course -> bool {
    (c: Course) => c.isElective && c.electiveType == Some(electiveType)
  }

  function SectionOf(courseId: string): Section -> bool {
    (s: Section) => s.courseId == courseId
  }

  /** `getCourseById`: the first course with that id, if any. */
  function GetCourseById(courses: seq<Course>, id: string): (r: Option<Course>)
    ensures r.None? <==> forall c :: c in courses ==> c.id != id
    ensures r.Some? ==> r.value.id == id
    ensures r.Some? ==>
      exists k :: 0 <= k < |courses| && courses[k] == r.value && forall j :: 0 <= j < k ==> courses[j].id != id
  {
    match FindIndex(courses, HasId(id))
    case None => None
    case Some(k) => Some(courses[k])
  }

  /** `getSectionsByCourse`. */
  function GetSectionsByCourse(sections: seq<Section>, courseId: string): (r: seq<Section>)
    ensures SelectsExactly(r, sections, SectionOf(courseId))
  {
    FilterSelects(sections, SectionOf(courseId));
    Filter(sections, SectionOf(courseId))
  }

  /** `getCoursesByTerm`. */
  function GetCoursesByTerm(courses: seq<Course>, term: int): (r: seq<Course>)
    ensures SelectsExactly(r, courses, OfTerm(term))
  {
    FilterSelects(courses, OfTerm(term));
    Filter(courses, OfTerm(term))
  }

  /** `getElectivesByType`. */
  function GetElectivesByType(courses: seq<Course>, electiveType: string): (r: seq<Course>)
    ensures SelectsExactly(r, courses, ElectiveOfType(electiveType))
  {
    FilterSelects(courses, ElectiveOfType(electiveType));
    Filter(courses, ElectiveOfType(electiveType))
  }

  // ---------------------------------------------------------------- term names

  /** The fixed display names of the terms. */
  const TermNames: map<int, string> := map[
    1 := "PRIMER CUATRIMESTRE",
    2 := "SEGUNDO CUATRIMESTRE",
    3 := "TERCER CUATRIMESTRE",
    4 := "CUARTO CUATRIMESTRE",
    5 := "QUINTO CUATRIMESTRE",
    6 := "SEXTO CUATRIMESTRE",
    7 := "SÉPTIMO CUATRIMESTRE",
    8 := "OCTAVO CUATRIMESTRE",
    9 := "NOVENO CUATRIMESTRE",
    10 := "DÉCIMO CUATRIMESTRE",
    11 := "DÉCIMO PRIMER CUATRIMESTRE",
    12 := "DÉCIMO SEGUNDO CUATRIMESTRE",
    13 := "DÉCIMO TERCER CUATRIMESTRE",
    14 := "DÉCIMO CUARTO CUATRIMESTRE",
    15 := "DÉCIMO QUINTO CUATRIMESTRE",
    16 := "DÉCIMO SEXTO CUATRIMESTRE",
    17 := "DÉCIMO SÉPTIMO CUATRIMESTRE",
    18 := "DÉCIMO OCTAVO CUATRIMESTRE",
    19 := "PROYECTO DE GRADO"]

  const Fallback: string := "CUATRIMESTRE "

  /** `getTermName`: the table's name for terms 1 to 19, `CUATRIMESTRE n` for any other. */
  function GetTermName(termNumber: int): string {
    if termNumber in TermNames then TermNames[termNumber] else Fallback + IntToString(termNumber)
  }

  /** Terms 1 to 19 have the table's names; every other term gets the numbered fallback. */
  lemma GetTermNameSpec(termNumber: int)
    ensures 1 <= termNumber <= 19 <==> termNumber in TermNames
    ensures 1 <= termNumber <= 19 ==> GetTermName(termNumber) == TermNames[termNumber]
    ensures !(1 <= termNumber <= 19) ==> GetTermName(termNumber) == Fallback + IntToString(termNumber)
    ensures GetTermName(termNumber) != []
  {
  }

  /** No fixed name begins like the fallback. */
  lemma TableNamesNotFallback(n: int)
    requires n in TermNames
    ensures |TermNames[n]| < 13 || TermNames[n][..13] != Fallback
  {
    var v := TermNames[n];
    if n == 4 {
      assert v[3] == 'R' && Fallback[3] == 'T';
    } else {
      assert v[0] != 'C';
    }
  }

  lemma FixedNamesDistinct(a: int, b: int)
    requires a in TermNames && b in TermNames && a != b
    ensures TermNames[a] != TermNames[b]
  {
  }

  lemma {:induction false} NatToStringInjective(a: nat, b: nat)
    requires NatToString(a) == NatToString(b)
    ensures a == b
  {
    DigitsValueOfNatToString(a);
    DigitsValueOfNatToString(b);
  }

  lemma IntToStringSign(a: int)
    ensures IntToString(a) != [] && (IntToString(a)[0] == '-' <==> a < 0)
  {
    if a >= 0 {
      assert IsDigit(NatToString(a)[0]);
    }
  }

  lemma IntToStringInjective(a: int, b: int)
    requires IntToString(a) == IntToString(b)
    ensures a == b
  {
    IntToStringSign(a);
    IntToStringSign(b);
    var s := IntToString(a);
    if a < 0 && b < 0 {
      assert s[1..] == NatToString(-a) == NatToString(-b);
      NatToStringInjective(-a, -b);
    } else if a >= 0 && b >= 0 {
      NatToStringInjective(a, b);
    }
  }

  /** Distinct terms get distinct names, so a name identifies its term. */
  lemma GetTermNameInjective(a: int, b: int)
    requires GetTermName(a) == GetTermName(b)
    ensures a == b
  {
    var r := GetTermName(a);
    if a in TermNames && b in TermNames {
      if a != b {
        FixedNamesDistinct(a, b);
      }
    } else if a !in TermNames && b !in TermNames {
      assert r[13..] == IntToString(a) == IntToString(b);
      IntToStringInjective(a, b);
    } else if a in TermNames {
      TableNamesNotFallback(a);
    } else {
      TableNamesNotFallback(b);
    }
  }

  // ---------------------------------------------------------------- terms summary

  /** One entry of `getAllTerms`. */
  datatype TermInfo = TermInfo(term: int, name: string, block: string, credits: int, courseCount: nat)

  function TermOf(c: Course): int { c.term }

  function CreditsOf(c: Course): int { c.credits }

  function TermOfInfo(e: TermInfo): int { e.term }

  /** The test `t => t.term === term` that looks a term up in the term list. */
  function IsTermInfo(term: int): TermInfo -> bool {
    (t: TermInfo) => t.term == term
  }

  /** The entry for a term built from that term's courses, in input order. */
  function BucketInfo(term: int, bucket: seq<Course>): TermInfo {
    TermInfo(term, GetTermName(term), if bucket == [] then "" else bucket[0].block,
             SumOf(bucket, CreditsOf), |bucket|)
  }

  /**
   * What `getAllTerms` reports for a term, stated over the whole catalog: its display name,
   * the block of the first course of that term, and the credit sum and number of its
   * courses.
   */
  function TermSummary(courses: seq<Course>, term: int): TermInfo {
    BucketInfo(term, Filter(courses, OfTerm(term)))
  }

  /** The entries of the term `Map`, in its insertion order: one per bucket, under the bucket's term. */
  function Tally(g: seq<(int, seq<Course>)>): (r: seq<TermInfo>)
    ensures |r| == |g|
    ensures forall i :: 0 <= i < |g| ==> r[i].term == g[i].0
  {
    seq(|g|, i requires 0 <= i < |g| => BucketInfo(g[i].0, g[i].1))
  }

  function IsTerm(term: int): TermInfo -> bool {
    (e: TermInfo) => e.term == term
  }

  /** `termMap.has` on the entries finds the bucket the grouping keeps for that term. */
  lemma {:induction false} LookupAgrees(g: seq<(int, seq<Course>)>, term: int)
    ensures FindIndex(Tally(g), IsTerm(term)) == Grouping.BucketIndex(g, term)
  {
    FindIndexAgrees(Tally(g), IsTerm(term), g, Grouping.IsBucket(term));
  }

  /** One more course counted in its term's entry. */
  function Bump(e: TermInfo, c: Course): TermInfo {
    e.(credits := e.credits + c.credits, courseCount := e.courseCount + 1)
  }

  lemma BucketInfoSnoc(term: int, b: seq<Course>, c: Course)
    requires b != []
    ensures BucketInfo(term, b + [c]) == Bump(BucketInfo(term, b), c)
  {
    assert (b + [c])[..|b|] == b;
  }

  lemma TallyUpdate(g: seq<(int, seq<Course>)>, k: nat, x: (int, seq<Course>))
    requires k < |g|
    ensures Tally(g[k := x]) == Tally(g)[k := BucketInfo(x.0, x.1)]
  {
  }

  lemma TallyAppend(g: seq<(int, seq<Course>)>, x: (int, seq<Course>))
    ensures Tally(g + [x]) == Tally(g) + [BucketInfo(x.0, x.1)]
  {
  }

  /** A course whose term already has an entry bumps that entry. */
  lemma TallyBump(courses: seq<Course>, n: nat, k: nat)
    requires n < |courses|
    requires Grouping.BucketIndex(Grouping.Group(courses[..n], TermOf), courses[n].term) == Some(k)
    ensures var t := Tally(Grouping.Group(courses[..n], TermOf));
      k < |t| && Tally(Grouping.Group(courses[..n + 1], TermOf)) == t[k := Bump(t[k], courses[n])]
  {
    var g := Grouping.Group(courses[..n], TermOf);
    assert courses[..n + 1][..n] == courses[..n];
    assert Grouping.Group(courses[..n + 1], TermOf) == g[k := (g[k].0, g[k].1 + [courses[n]])];
    Grouping.GroupBuckets(courses[..n], TermOf);
    BucketInfoSnoc(g[k].0, g[k].1, courses[n]);
    TallyUpdate(g, k, (g[k].0, g[k].1 + [courses[n]]));
  }

  /** A course of a term without an entry opens one holding just that course. */
  lemma TallyOpen(courses: seq<Course>, n: nat)
    requires n < |courses|
    requires Grouping.BucketIndex(Grouping.Group(courses[..n], TermOf), courses[n].term).None?
    ensures var c := courses[n];
      Tally(Grouping.Group(courses[..n + 1], TermOf))
        == Tally(Grouping.Group(courses[..n], TermOf)) + [Bump(TermInfo(c.term, GetTermName(c.term), c.block, 0, 0), c)]
  {
    var g := Grouping.Group(courses[..n], TermOf);
    var c := courses[n];
    assert courses[..n + 1][..n] == courses[..n];
    assert Grouping.Group(courses[..n + 1], TermOf) == g + [(c.term, [c])];
    assert [c][..0] == [];
    assert SumOf([c], CreditsOf) == c.credits;
    TallyAppend(g, (c.term, [c]));
  }

  /** The entries have distinct terms. */
  lemma TallyDistinct(courses: seq<Course>)
    ensures var t := Tally(Grouping.Group(courses, TermOf));
      forall i, j :: 0 <= i < j < |t| ==> t[i].term != t[j].term
  {
    Grouping.GroupKeys(courses, TermOf);
  }

  /** Each entry is the summary of its term and counts at least one course. */
  lemma TallyEntries(courses: seq<Course>)
    ensures var t := Tally(Grouping.Group(courses, TermOf));
      forall e :: e in t ==> e == TermSummary(courses, e.term) && e.courseCount >= 1
  {
    var g := Grouping.Group(courses, TermOf);
    var t := Tally(g);
    Grouping.GroupBuckets(courses, TermOf);
    forall e | e in t ensures e == TermSummary(courses, e.term) && e.courseCount >= 1 {
      var i :| 0 <= i < |t| && t[i] == e;
      assert g[i].1 == Filter(courses, OfTerm(g[i].0));
    }
  }

  /** Every course's term has its summary among the entries. */
  lemma TallyCovers(courses: seq<Course>)
    ensures var t := Tally(Grouping.Group(courses, TermOf));
      forall c :: c in courses ==> TermSummary(courses, c.term) in t
  {
    var g := Grouping.Group(courses, TermOf);
    var t := Tally(g);
    Grouping.GroupKeys(courses, TermOf);
    Grouping.GroupBuckets(courses, TermOf);
    forall c | c in courses ensures TermSummary(courses, c.term) in t {
      var i := Grouping.BucketIndex(g, c.term).value;
      assert g[i].1 == Filter(courses, OfTerm(c.term));
      assert t[i] == TermSummary(courses, c.term);
    }
  }

  /** The `forEach` body's effect on the entries: open the term's entry if new, then bump it. */
  function Count(entries: seq<TermInfo>, c: Course): seq<TermInfo> {
    match FindIndex(entries, IsTerm(c.term))
    case Some(k) => entries[k := Bump(entries[k], c)]
    case None => entries + [Bump(TermInfo(c.term, GetTermName(c.term), c.block, 0, 0), c)]
  }

  /** Counting the next course extends the tally of the courses before it. */
  lemma CountStep(courses: seq<Course>, n: nat, entries: seq<TermInfo>)
    requires n < |courses| && entries == Tally(Grouping.Group(courses[..n], TermOf))
    ensures Count(entries, courses[n]) == Tally(Grouping.Group(courses[..n + 1], TermOf))
  {
    LookupAgrees(Grouping.Group(courses[..n], TermOf), courses[n].term);
    match FindIndex(entries, IsTerm(courses[n].term)) {
      case Some(k) => TallyBump(courses, n, k);
      case None => TallyOpen(courses, n);
    }
  }

  /** One `forEach` step: `termMap.has`, `termMap.set` of a fresh entry, then the increments. */
  method CountCourse(entries: seq<TermInfo>, c: Course) returns (next: seq<TermInfo>)
    ensures next == Count(entries, c)
  {
    next := entries;
    var found := FindIndex(next, IsTerm(c.term));
    if found.None? {
      next := next + [TermInfo(c.term, GetTermName(c.term), c.block, 0, 0)];
    }
    var k := if found.Some? then found.value else |next| - 1;
    next := next[k := next[k].(credits := next[k].credits + c.credits, courseCount := next[k].courseCount + 1)];
  }

  /**
   * `getAllTerms`: one pass over the courses keeping a term `Map` whose entries are created
   * with zero credits and courses and then incremented, then the entries sorted by term.
   * Every term of the catalog has exactly one entry, in ascending term order, carrying
   * that term's name, first-seen block, credit sum and course count.
   */
  method GetAllTerms(courses: seq<Course>) returns (terms: seq<TermInfo>)
    ensures forall i, j :: 0 <= i < j < |terms| ==> terms[i].term < terms[j].term
    ensures forall e :: e in terms ==> e == TermSummary(courses, e.term) && e.courseCount >= 1
    ensures forall c :: c in courses ==> TermSummary(courses, c.term) in terms
  {
    var entries: seq<TermInfo> := [];
    var n := 0;
    while n < |courses|
      invariant 0 <= n <= |courses|
      invariant entries == Tally(Grouping.Group(courses[..n], TermOf))
    {
      CountStep(courses, n, entries);
      entries := CountCourse(entries, courses[n]);
      n := n + 1;
    }
    assert courses[..n] == courses;
    terms := SortBy(entries, KeyLeq(TermOfInfo));
    SortedTally(courses, entries, terms);
  }

  /** The term entries of a catalog, sorted by term: what `getAllTerms` returns. */
  lemma SortedTally(courses: seq<Course>, entries: seq<TermInfo>, terms: seq<TermInfo>)
    requires entries == Tally(Grouping.Group(courses, TermOf))
    requires terms == SortBy(entries, KeyLeq(TermOfInfo))
    ensures forall i, j :: 0 <= i < j < |terms| ==> terms[i].term < terms[j].term
    ensures forall e :: e in terms ==> e == TermSummary(courses, e.term) && e.courseCount >= 1
    ensures forall c :: c in courses ==> TermSummary(courses, c.term) in terms
  {
    TallyDistinct(courses);
    TallyEntries(courses);
    TallyCovers(courses);
    SortByKey(entries, TermOfInfo);
  }
}
