/**
 * The course editor of the administration screens: validation and saving of one course
 * record, and the locally edited list of the course's sections with their time blocks,
 * which is checked for clashes before it is persisted.
 */
module EditCourse {
  import opened Wrappers
  import opened Seqs
  import opened Text
  import Pairs
  import SectionsProcessor

  // ---------------------------------------------------------------- the course record

  /**
   * The dialog's course record. Numbers are JavaScript numbers, so `credits` and `term`
   * are reals; `isElective`, `electiveType` and `area` are carried along unchanged and
   * are not modelled.
   */
  datatype CourseForm = CourseForm(
    id: string, name: string, credits: real, theoreticalHours: real, practicalHours: real,
    term: real, prerequisites: Option<seq<string>>, corequisites: Option<seq<string>>)
  {
    function Prerequisites(): seq<string> { prerequisites.GetOr([]) }
    function Corequisites(): seq<string> { corequisites.GetOr([]) }
  }

  /** The eight reasons `validate` can give, in the order it tests them. */
  datatype Problem =
    | InvalidId
    | NameRequired
    | NegativeCredits
    | TermNotPositiveInteger
    | UnknownPrerequisite(prereq: string)
    | UnknownCorequisite(coreq: string)
    | SelfPrerequisite
    | SelfCorequisite

  /** The banner text shown for each problem. */
  function Message(p: Problem): string {
    match p
    case InvalidId => "ID inválido (ej: MED101)"
    case NameRequired => "Nombre requerido"
    case NegativeCredits => "Créditos no pueden ser negativos"
    case TermNotPositiveInteger => "Term debe ser un entero positivo"
    case UnknownPrerequisite(id) => "Prereq no existe: " + id
    case UnknownCorequisite(id) => "Coreq no existe: " + id
    case SelfPrerequisite => "Un curso no puede ser prerequisito de sí mismo"
    case SelfCorequisite => "Un curso no puede ser correquisito de sí mismo"
  }

  /** The pattern `^[A-Za-z]{3}\d{3}$`: three ASCII letters, then three decimal digits. */
  predicate IsIdShape(id: string) {
    |id| == 6 &&
    (forall k :: 0 <= k < 3 ==> IsAsciiLetter(id[k])) &&
    (forall k :: 3 <= k < 6 ==> IsDigit(id[k]))
  }

  /** `Number.isInteger(x) && x > 0`. */
  predicate IsPositiveInteger(x: real) {
    x == x.Floor as real && x > 0.0
  }

  /** The set of ids of all catalogue courses. */
  function CourseIds(all: seq<CourseForm>): set<string> {
    set c | c in all :: c.id
  }

  function Unknown(ids: set<string>): string -> bool {
    id => id !in ids
  }

  /** Some course of the catalogue has this id. */
  predicate Known(all: seq<CourseForm>, id: string) {
    exists c :: c in all && c.id == id
  }

  /** Everything `validate` demands of a record, as one conjunction. */
  predicate Acceptable(form: CourseForm, all: seq<CourseForm>) {
    IsIdShape(form.id) && form.name != [] && form.credits >= 0.0 && IsPositiveInteger(form.term) &&
    (forall x :: x in form.Prerequisites() ==> Known(all, x)) &&
    (forall x :: x in form.Corequisites() ==> Known(all, x)) &&
    form.id !in form.Prerequisites() && form.id !in form.Corequisites()
  }

  /** The first four checks, which do not look at the catalogue. */
  predicate BasicFieldsOk(form: CourseForm) {
    IsIdShape(form.id) && form.name != [] && form.credits >= 0.0 && IsPositiveInteger(form.term)
  }

  /** `x` is the first entry of `list` that the catalogue does not know. */
  predicate FirstUnknownIs(list: seq<string>, all: seq<CourseForm>, x: string) {
    exists k :: 0 <= k < |list| && list[k] == x && !Known(all, x) &&
      forall k' :: 0 <= k' < k ==> Known(all, list[k'])
  }

  lemma KnownIds(all: seq<CourseForm>, id: string)
    ensures Known(all, id) <==> id in CourseIds(all)
  {
    if id in CourseIds(all) {
      var c :| c in all && c.id == id;
    }
  }

  /** `validate`: the first failing check, or `None` when the record is acceptable. */
  function Validate(form: CourseForm, all: seq<CourseForm>): (r: Option<Problem>)
    ensures r.None? <==> Acceptable(form, all)
    ensures r == Some(InvalidId) <==> !IsIdShape(form.id)
    ensures r == Some(NameRequired) <==> IsIdShape(form.id) && form.name == []
    ensures r == Some(NegativeCredits) <==> IsIdShape(form.id) && form.name != [] && form.credits < 0.0
    ensures r == Some(TermNotPositiveInteger) <==>
      IsIdShape(form.id) && form.name != [] && form.credits >= 0.0 && !IsPositiveInteger(form.term)
    ensures r.Some? && r.value.UnknownPrerequisite? ==>
      BasicFieldsOk(form) && FirstUnknownIs(form.Prerequisites(), all, r.value.prereq)
    ensures r.Some? && r.value.UnknownCorequisite? ==>
      BasicFieldsOk(form) && (forall x :: x in form.Prerequisites() ==> Known(all, x)) &&
      FirstUnknownIs(form.Corequisites(), all, r.value.coreq)
    ensures r == Some(SelfPrerequisite) ==>
      BasicFieldsOk(form) && form.id in form.Prerequisites() &&
      (forall x :: x in form.Prerequisites() ==> Known(all, x)) &&
      (forall x :: x in form.Corequisites() ==> Known(all, x))
    ensures r == Some(SelfCorequisite) ==>
      BasicFieldsOk(form) && form.id !in form.Prerequisites() && form.id in form.Corequisites() &&
      (forall x :: x in form.Prerequisites() ==> Known(all, x)) &&
      (forall x :: x in form.Corequisites() ==> Known(all, x))
  {
    var ids := CourseIds(all);
    var pre, co := form.Prerequisites(), form.Corequisites();
    forall x ensures Known(all, x) <==> x in ids { KnownIds(all, x); }
    if !IsIdShape(form.id) then Some(InvalidId)
    else if form.name == [] then Some(NameRequired)
    else if form.credits < 0.0 then Some(NegativeCredits)
    else if !IsPositiveInteger(form.term) then Some(TermNotPositiveInteger)
    else match FindIndex(pre, Unknown(ids))
      case Some(k) => Some(UnknownPrerequisite(pre[k]))
      case None =>
        match FindIndex(co, Unknown(ids))
        case Some(k) => Some(UnknownCorequisite(co[k]))
        case None =>
          if form.id in pre then Some(SelfPrerequisite)
          else if form.id in co then Some(SelfCorequisite)
          else None
  }

  /**
   * Each later rule is reported as soon as every earlier rule holds and it fails: the first
   * unknown prerequisite, then the first unknown corequisite, then a self-reference among
   * the prerequisites, then among the corequisites.
   */
  lemma ValidateFirstFailing(form: CourseForm, all: seq<CourseForm>, x: string)
    ensures (BasicFieldsOk(form) && FirstUnknownIs(form.Prerequisites(), all, x)) ==>
      Validate(form, all) == Some(UnknownPrerequisite(x))
    ensures (BasicFieldsOk(form) && (forall y :: y in form.Prerequisites() ==> Known(all, y)) &&
             FirstUnknownIs(form.Corequisites(), all, x)) ==>
      Validate(form, all) == Some(UnknownCorequisite(x))
    ensures (BasicFieldsOk(form) && form.id in form.Prerequisites() &&
             (forall y :: y in form.Prerequisites() ==> Known(all, y)) &&
             (forall y :: y in form.Corequisites() ==> Known(all, y))) ==>
      Validate(form, all) == Some(SelfPrerequisite)
    ensures (BasicFieldsOk(form) && form.id !in form.Prerequisites() && form.id in form.Corequisites() &&
             (forall y :: y in form.Prerequisites() ==> Known(all, y)) &&
             (forall y :: y in form.Corequisites() ==> Known(all, y))) ==>
      Validate(form, all) == Some(SelfCorequisite)
  {
    var pre, co := form.Prerequisites(), form.Corequisites();
    if BasicFieldsOk(form) {
      if FirstUnknownIs(pre, all, x) {
        FirstUnknownFound(pre, all, x);
      } else if forall y :: y in pre ==> Known(all, y) {
        NoUnknownFound(pre, all);
        if FirstUnknownIs(co, all, x) {
          FirstUnknownFound(co, all, x);
        } else if forall y :: y in co ==> Known(all, y) {
          NoUnknownFound(co, all);
        }
      }
    }
  }

  /** The search for an id outside the catalogue stops at the first unknown entry. */
  lemma FirstUnknownFound(list: seq<string>, all: seq<CourseForm>, x: string)
    requires FirstUnknownIs(list, all, x)
    ensures FindIndex(list, Unknown(CourseIds(all))).Some?
    ensures list[FindIndex(list, Unknown(CourseIds(all))).value] == x
  {
    var k :| 0 <= k < |list| && list[k] == x && !Known(all, x) &&
      forall k' :: 0 <= k' < k ==> Known(all, list[k']);
    forall y ensures Known(all, y) <==> y in CourseIds(all) { KnownIds(all, y); }
    assert Unknown(CourseIds(all))(list[k]);
  }

  /** A list of known ids has no entry the search stops at. */
  lemma NoUnknownFound(list: seq<string>, all: seq<CourseForm>)
    requires forall y :: y in list ==> Known(all, y)
    ensures FindIndex(list, Unknown(CourseIds(all))).None?
  {
    var r := FindIndex(list, Unknown(CourseIds(all)));
    if r.Some? {
      KnownIds(all, list[r.value]);
    }
  }

  /**
   * The membership loops run before the self-reference checks, so a record that names
   * itself as a prerequisite while its id is not yet in the catalogue is reported as an
   * unknown prerequisite rather than as a self-reference.
   */
  lemma SelfReferenceOfNewCourse(form: CourseForm, all: seq<CourseForm>)
    requires BasicFieldsOk(form) && form.id in form.Prerequisites() && !Known(all, form.id)
    ensures Validate(form, all).Some? && Validate(form, all).value.UnknownPrerequisite?
  {
  }

  /** `handleSave`: the record passed to `onSave`, with duplicate-free lists, or nothing. */
  function HandleSave(form: CourseForm, all: seq<CourseForm>): (r: Option<CourseForm>)
    ensures r.Some? <==> Validate(form, all).None?
    ensures r.Some? ==>
      r.value.prerequisites.Some? && r.value.corequisites.Some? &&
      NoDuplicates(r.value.Prerequisites()) && NoDuplicates(r.value.Corequisites()) &&
      (forall x :: x in r.value.Prerequisites() <==> x in form.Prerequisites()) &&
      (forall x :: x in r.value.Corequisites() <==> x in form.Corequisites())
    ensures r.Some? ==>
      r.value.id == form.id && r.value.name == form.name && r.value.credits == form.credits &&
      r.value.theoreticalHours == form.theoreticalHours &&
      r.value.practicalHours == form.practicalHours && r.value.term == form.term
  {
    if Validate(form, all).Some? then None
    else Some(form.(prerequisites := Some(Dedup(form.Prerequisites())),
                    corequisites := Some(Dedup(form.Corequisites()))))
  }

  /** A saved record passes validation again, and saving it once more changes nothing. */
  lemma HandleSaveIdempotent(form: CourseForm, all: seq<CourseForm>)
    requires HandleSave(form, all).Some?
    ensures Validate(HandleSave(form, all).value, all).None?
    ensures HandleSave(HandleSave(form, all).value, all) == HandleSave(form, all)
  {
    var saved := HandleSave(form, all).value;
    DedupOfDistinct(saved.Prerequisites());
    DedupOfDistinct(saved.Corequisites());
  }

  // ---------------------------------------------------------------- prerequisite lists

  datatype ListKey = Prerequisites | Corequisites

  function NotId(id: string): string -> bool {
    x => x != id
  }

  /**
   * `toggleInList` on one list: the list as an insertion-ordered set, with `id` deleted
   * when present and appended when absent.
   */
  function Toggle(list: Option<seq<string>>, id: string): (r: seq<string>)
    ensures id in r <==> id !in list.GetOr([])
    ensures forall x :: x != id ==> (x in r <==> x in list.GetOr([]))
    ensures NoDuplicates(r)
  {
    var d := Dedup(list.GetOr([]));
    if id in d then
      FilterIsSubsequence(d, NotId(id));
      SubsequenceNoDuplicates(Filter(d, NotId(id)), d);
      Filter(d, NotId(id))
    else
      d + [id]
  }

  /** Toggling an absent id into a duplicate-free list and back out restores the list. */
  lemma ToggleTwice(list: seq<string>, id: string)
    requires NoDuplicates(list) && id !in list
    ensures Toggle(Some(Toggle(Some(list), id)), id) == list
  {
    DedupOfDistinct(list);
    assert Toggle(Some(list), id) == list + [id];
    DedupOfDistinct(list + [id]);
    FilterConcat(list, [id], NotId(id));
    FilterAll(list, NotId(id));
  }

  /** The list of the form that `key` names, an absent list read as empty. */
  function ListOf(form: CourseForm, key: ListKey): seq<string> {
    match key
    case Prerequisites => form.Prerequisites()
    case Corequisites => form.Corequisites()
  }

  /**
   * The record after `toggleInList(key, id)`: in the named list `id` changes membership and
   * every other id keeps its own, with no repeats; the other list and every other field stay.
   */
  function ToggleField(form: CourseForm, key: ListKey, id: string): (r: CourseForm)
    ensures id in ListOf(r, key) <==> id !in ListOf(form, key)
    ensures forall x :: x != id ==> (x in ListOf(r, key) <==> x in ListOf(form, key))
    ensures NoDuplicates(ListOf(r, key))
    ensures key == Prerequisites ==> r.corequisites == form.corequisites
    ensures key == Corequisites ==> r.prerequisites == form.prerequisites
    ensures r.(prerequisites := form.prerequisites, corequisites := form.corequisites) == form
  {
    match key
    case Prerequisites => form.(prerequisites := Some(Toggle(form.prerequisites, id)))
    case Corequisites => form.(corequisites := Some(Toggle(form.corequisites, id)))
  }

  /** Toggling an absent id into a duplicate-free list of the form and back restores that list. */
  lemma ToggleFieldTwice(form: CourseForm, key: ListKey, id: string)
    requires NoDuplicates(ListOf(form, key)) && id !in ListOf(form, key)
    ensures ListOf(ToggleField(ToggleField(form, key, id), key, id), key) == ListOf(form, key)
  {
    ToggleTwice(ListOf(form, key), id);
  }

  // ---------------------------------------------------------------- the section list

  /** One `{ day, start, end }` block of the editable schedule, as entered. */
  datatype TimeBlock = TimeBlock(day: string, start: string, end: string)

  /**
   * A row of the editable section list. `schedule` is absent in rows whose source has none;
   * `slots`, read by the clash test, is present only in rows loaded with parsed slots:
   * rows created here never get one.
   */
  datatype EditorSection = EditorSection(
    crn: string, room: string, closed: bool,
    schedule: Option<seq<TimeBlock>>, slots: Option<seq<SectionsProcessor.TimeSlot>>)

  /** No two rows share a CRN. */
  predicate DistinctCrns(sections: seq<EditorSection>) {
    forall i, j :: 0 <= i < j < |sections| ==> sections[i].crn != sections[j].crn
  }

  function HasCrn(crn: string): EditorSection -> bool {
    (s: EditorSection) => s.crn == crn
  }

  function OtherCrn(crn: string): EditorSection -> bool {
    (s: EditorSection) => s.crn != crn
  }

  datatype AddProblem = CrnRequired | CrnExists | BlockIncomplete

  function AddMessage(p: AddProblem): string {
    match p
    case CrnRequired => "CRN requerido."
    case CrnExists => "CRN ya existe."
    case BlockIncomplete => "Completa día, inicio y fin."
  }

  /** `addSection`: the list with one new open row without blocks, or the reason it is refused. */
  function AddSection(sections: seq<EditorSection>, newCrn: string, newRoom: string)
    : (r: Result<seq<EditorSection>, AddProblem>)
  {
    var crn := Trim(newCrn);
    if crn == [] then Err(CrnRequired)
    else if Any(sections, HasCrn(crn)) then Err(CrnExists)
    else Ok(sections + [EditorSection(crn, Trim(newRoom), false, Some([]), None)])
  }

  /**
   * `addSection` refuses an empty trimmed CRN, then a CRN some row already has; otherwise
   * it appends one open row without blocks and keeps the CRNs distinct.
   */
  lemma AddSectionSpec(sections: seq<EditorSection>, newCrn: string, newRoom: string, crn: string)
    requires crn == Trim(newCrn)
    ensures var r := AddSection(sections, newCrn, newRoom);
      (r == Err(CrnRequired) <==> crn == []) &&
      (r == Err(CrnExists) <==> crn != [] && exists k :: 0 <= k < |sections| && sections[k].crn == crn) &&
      (r.Ok? ==>
        |r.value| == |sections| + 1 && r.value[..|sections|] == sections &&
        r.value[|sections|] == EditorSection(crn, Trim(newRoom), false, Some([]), None)) &&
      (r.Ok? && DistinctCrns(sections) ==> DistinctCrns(r.value))
  {
    var row := EditorSection(crn, Trim(newRoom), false, Some([]), None);
    CrnTaken(sections, crn);
    if crn != [] && !Any(sections, HasCrn(crn)) {
      assert AddSection(sections, newCrn, newRoom) == Ok(sections + [row]);
      AppendFreshCrn(sections, row);
    }
  }

  /** `sections.some(s => s.crn === crn)` holds exactly when some row has the CRN. */
  lemma CrnTaken(sections: seq<EditorSection>, crn: string)
    ensures Any(sections, HasCrn(crn)) <==> exists k :: 0 <= k < |sections| && sections[k].crn == crn
  {
    if exists k :: 0 <= k < |sections| && sections[k].crn == crn {
      var k :| 0 <= k < |sections| && sections[k].crn == crn;
      assert HasCrn(crn)(sections[k]);
    }
  }

  /** Appending a row whose CRN no row has keeps the CRNs distinct. */
  lemma AppendFreshCrn(sections: seq<EditorSection>, row: EditorSection)
    requires !Any(sections, HasCrn(row.crn))
    ensures (sections + [row])[..|sections|] == sections
    ensures DistinctCrns(sections) ==> DistinctCrns(sections + [row])
  {
    var next := sections + [row];
    assert forall k :: 0 <= k < |sections| ==> next[k] == sections[k] && !HasCrn(row.crn)(sections[k]);
  }

  /** The two fields `editSectionInline` may set. */
  datatype InlineEdit = SetRoom(room: string) | SetClosed(closed: bool)

  function ApplyEdit(s: EditorSection, edit: InlineEdit): EditorSection {
    match edit
    case SetRoom(room) => s.(room := room)
    case SetClosed(closed) => s.(closed := closed)
  }

  /** `editSectionInline`: every row with the CRN gets the edited field; nothing else changes. */
  function EditSectionInline(sections: seq<EditorSection>, crn: string, edit: InlineEdit)
    : (r: seq<EditorSection>)
    ensures |r| == |sections|
    ensures forall k :: 0 <= k < |r| ==>
      r[k].crn == sections[k].crn && r[k].schedule == sections[k].schedule &&
      r[k].slots == sections[k].slots
    ensures forall k :: 0 <= k < |r| && sections[k].crn != crn ==> r[k] == sections[k]
    ensures forall k :: 0 <= k < |r| && sections[k].crn == crn ==>
      (if edit.SetRoom? then r[k].room == edit.room && r[k].closed == sections[k].closed
       else r[k].closed == edit.closed && r[k].room == sections[k].room)
    ensures DistinctCrns(sections) ==> DistinctCrns(r)
  {
    seq(|sections|, k requires 0 <= k < |sections| =>
      if sections[k].crn == crn then ApplyEdit(sections[k], edit) else sections[k])
  }

  /** `deleteSection`: exactly the rows with the CRN go, the others keep their order. */
  function DeleteSection(sections: seq<EditorSection>, crn: string): (r: seq<EditorSection>)
    ensures forall s :: s in r <==> s in sections && s.crn != crn
    ensures forall k :: 0 <= k < |r| ==> r[k].crn != crn
    ensures IsSubsequence(r, sections)
    ensures DistinctCrns(sections) ==> DistinctCrns(r)
  {
    var r := Filter(sections, OtherCrn(crn));
    assert forall k :: 0 <= k < |r| ==> r[k] in r;
    FilterIsSubsequence(sections, OtherCrn(crn));
    SubsequenceCrns(r, sections);
    r
  }

  /** A subsequence of a list with distinct CRNs has distinct CRNs. */
  lemma {:induction false} SubsequenceCrns(a: seq<EditorSection>, b: seq<EditorSection>)
    requires IsSubsequence(a, b)
    ensures DistinctCrns(b) ==> DistinctCrns(a)
    decreases |b|
  {
    if a != [] && DistinctCrns(b) {
      if a[0] == b[0] && IsSubsequence(a[1..], b[1..]) {
        SubsequenceCrns(a[1..], b[1..]);
        SubsequenceMembers(a[1..], b[1..]);
        forall j | 0 < j < |a| ensures a[0].crn != a[j].crn {
          assert a[j] == a[1..][j - 1];
          assert a[j] in b[1..];
          var m :| 0 <= m < |b[1..]| && b[1..][m] == a[j];
          assert b[m + 1] == a[j];
        }
      } else {
        SubsequenceCrns(a, b[1..]);
      }
    }
  }

  /** The block `addTimeBlock` uses when none was entered for the section. */
  const DefaultBlock := TimeBlock("Mon", "07:00", "09:00")

  /**
   * `addTimeBlock`: the entered block (or the default) appended to the schedule of every
   * row with the CRN, or refused when one of its three fields is empty.
   */
  function AddTimeBlock(sections: seq<EditorSection>, crn: string, entered: Option<TimeBlock>)
    : (r: Result<seq<EditorSection>, AddProblem>)
    ensures var b := entered.GetOr(DefaultBlock);
      r.Err? <==> b.day == [] || b.start == [] || b.end == []
    ensures r.Err? ==> r.error == BlockIncomplete
    ensures r.Ok? ==> |r.value| == |sections|
    ensures r.Ok? ==> forall k :: 0 <= k < |sections| ==>
      (if sections[k].crn == crn
       then r.value[k] == sections[k].(schedule :=
              Some(sections[k].schedule.GetOr([]) + [entered.GetOr(DefaultBlock)]))
       else r.value[k] == sections[k])
    ensures r.Ok? && DistinctCrns(sections) ==> DistinctCrns(r.value)
  {
    var b := entered.GetOr(DefaultBlock);
    if b.day == [] || b.start == [] || b.end == [] then Err(BlockIncomplete)
    else Ok(seq(|sections|, k requires 0 <= k < |sections| =>
      if sections[k].crn == crn
      then sections[k].(schedule := Some(sections[k].schedule.GetOr([]) + [b]))
      else sections[k]))
  }

  /** The list without its element at index `i`; unchanged when `i` is not an index. */
  function RemoveAt<T>(xs: seq<T>, i: int): (r: seq<T>)
    ensures 0 <= i < |xs| ==> |r| == |xs| - 1
    ensures !(0 <= i < |xs|) ==> r == xs
    ensures 0 <= i < |xs| ==> forall k :: 0 <= k < |r| ==> r[k] == (if k < i then xs[k] else xs[k + 1])
  {
    if 0 <= i < |xs| then xs[..i] + xs[i + 1..] else xs
  }

  /** `removeTimeBlock`: index `i` leaves the schedule of every row with the CRN. */
  function RemoveTimeBlock(sections: seq<EditorSection>, crn: string, i: int)
    : (r: seq<EditorSection>)
    ensures |r| == |sections|
    ensures forall k :: 0 <= k < |sections| ==>
      (if sections[k].crn == crn
       then r[k] == sections[k].(schedule := Some(RemoveAt(sections[k].schedule.GetOr([]), i)))
       else r[k] == sections[k])
    ensures DistinctCrns(sections) ==> DistinctCrns(r)
  {
    seq(|sections|, k requires 0 <= k < |sections| =>
      if sections[k].crn == crn
      then sections[k].(schedule := Some(RemoveAt(sections[k].schedule.GetOr([]), i)))
      else sections[k])
  }

  /**
   * Adding a block to rows whose schedules all have `n` blocks and then removing block `n`
   * gives the list back.
   */
  lemma AddThenRemoveBlock(sections: seq<EditorSection>, crn: string, entered: Option<TimeBlock>, n: nat)
    requires AddTimeBlock(sections, crn, entered).Ok?
    requires forall k :: 0 <= k < |sections| && sections[k].crn == crn ==>
      sections[k].schedule.Some? && |sections[k].schedule.value| == n
    ensures RemoveTimeBlock(AddTimeBlock(sections, crn, entered).value, crn, n) == sections
  {
    var next := AddTimeBlock(sections, crn, entered).value;
    var back := RemoveTimeBlock(next, crn, n);
    forall k | 0 <= k < |sections| ensures back[k] == sections[k] {
      if sections[k].crn == crn {
        var xs := sections[k].schedule.value;
        assert RemoveAt(xs + [entered.GetOr(DefaultBlock)], n) == xs;
      }
    }
  }

  // ---------------------------------------------------------------- clashes between rows

  /** The slots a row contributes to the clash test; an absent list counts as empty. */
  function SlotsOf(s: EditorSection): seq<SectionsProcessor.TimeSlot> {
    s.slots.GetOr([])
  }

  /** `hasScheduleConflict` on two rows, reading missing slots as none. */
  predicate RowsConflict(a: EditorSection, b: EditorSection) {
    SectionsProcessor.SlotsConflict(SlotsOf(a), SlotsOf(b))
  }

  function ConflictMessage(a: EditorSection, b: EditorSection): string {
    "Conflicto entre " + a.crn + " y " + b.crn
  }

  function ConflictTest(): (EditorSection, EditorSection) -> Option<string> {
    (a, b) => if RowsConflict(a, b) then Some(ConflictMessage(a, b)) else None
  }

  /** `validateConflicts`: one message per clashing pair `i < j`, in scan order. */
  function Conflicts(sections: seq<EditorSection>): seq<string> {
    Pairs.Scan(sections, ConflictTest())
  }

  /** A message is reported iff it names a clashing pair of distinct positions `i < j`. */
  lemma ConflictsSpec(sections: seq<EditorSection>, m: string)
    ensures m in Conflicts(sections) <==>
      exists i, j :: 0 <= i < j < |sections| && RowsConflict(sections[i], sections[j]) &&
        m == ConflictMessage(sections[i], sections[j])
  {
    Pairs.ScanMember(sections, ConflictTest(), m);
  }

  /** The scan has no message exactly when no pair `i < j` clashes. */
  lemma ConflictsEmpty(sections: seq<EditorSection>)
    ensures Conflicts(sections) == [] <==>
      forall i, j :: 0 <= i < j < |sections| ==> !RowsConflict(sections[i], sections[j])
  {
    if Conflicts(sections) != [] {
      ConflictsSpec(sections, Conflicts(sections)[0]);
    }
    if exists i, j :: 0 <= i < j < |sections| && RowsConflict(sections[i], sections[j]) {
      var i, j :| 0 <= i < j < |sections| && RowsConflict(sections[i], sections[j]);
      ConflictsSpec(sections, ConflictMessage(sections[i], sections[j]));
    }
  }

  /** `saveSections`' gate: the list handed to `setSectionsForCourse`, or nothing. */
  function SaveGate(sections: seq<EditorSection>): (r: Option<seq<EditorSection>>)
    ensures r.Some? ==> r.value == sections
  {
    if |Conflicts(sections)| > 0 then None else Some(sections)
  }

  /** The list is persisted iff no two of its rows clash. */
  lemma SaveGateSpec(sections: seq<EditorSection>)
    ensures SaveGate(sections).Some? <==>
      forall i, j :: 0 <= i < j < |sections| ==> !RowsConflict(sections[i], sections[j])
  {
    ConflictsEmpty(sections);
  }

  /** A row created by `addSection` has no slots, so it clashes with nothing. */
  lemma AddSectionKeepsConflicts(sections: seq<EditorSection>, crn: string, room: string, m: string)
    requires AddSection(sections, crn, room).Ok?
    ensures m in Conflicts(AddSection(sections, crn, room).value) <==> m in Conflicts(sections)
    ensures SaveGate(AddSection(sections, crn, room).value).Some? <==> SaveGate(sections).Some?
  {
    AddSectionSpec(sections, crn, room, Trim(crn));
    BlocklessRowKeepsConflicts(sections, AddSection(sections, crn, room).value, m);
  }

  /** `next` is `sections` with one more row, a row without a list of blocks. */
  predicate AppendsBlocklessRow(sections: seq<EditorSection>, next: seq<EditorSection>) {
    |next| == |sections| + 1 && next[..|sections|] == sections && next[|sections|].slots.None?
  }

  lemma BlocklessRowKeepsConflicts(sections: seq<EditorSection>, next: seq<EditorSection>, m: string)
    requires AppendsBlocklessRow(sections, next)
    ensures m in Conflicts(next) <==> m in Conflicts(sections)
    ensures SaveGate(next).Some? <==> SaveGate(sections).Some?
  {
    BlocklessRowKeepsMessage(sections, next, m);
    BlocklessRowKeepsGate(sections, next);
  }

  /** The old rows stay where they were, and no row clashes with the appended one. */
  lemma BlocklessRowPairs(sections: seq<EditorSection>, next: seq<EditorSection>)
    requires AppendsBlocklessRow(sections, next)
    ensures forall k :: 0 <= k < |sections| ==> next[k] == sections[k]
    ensures forall k :: 0 <= k < |next| ==> !RowsConflict(next[k], next[|sections|])
  {
    assert forall k :: 0 <= k < |sections| ==> next[k] == next[..|sections|][k];
  }

  lemma BlocklessRowKeepsMessage(sections: seq<EditorSection>, next: seq<EditorSection>, m: string)
    requires AppendsBlocklessRow(sections, next)
    ensures m in Conflicts(next) <==> m in Conflicts(sections)
  {
    BlocklessRowPairs(sections, next);
    ConflictsSpec(next, m);
    ConflictsSpec(sections, m);
  }

  lemma BlocklessRowKeepsGate(sections: seq<EditorSection>, next: seq<EditorSection>)
    requires AppendsBlocklessRow(sections, next)
    ensures SaveGate(next).Some? <==> SaveGate(sections).Some?
  {
    BlocklessRowPairs(sections, next);
    SaveGateSpec(next);
    SaveGateSpec(sections);
  }

  function ClashesWith(me: EditorSection, crn: string): EditorSection -> bool {
    (other: EditorSection) => other.crn != crn && RowsConflict(me, other)
  }

  /**
   * `sectionHasConflict`: the first row with the CRN clashes with some row of another CRN;
   * false when no row has the CRN.
   */
  function SectionHasConflict(sections: seq<EditorSection>, crn: string): (r: bool)
    ensures r <==>
      exists k, m :: 0 <= k < |sections| && 0 <= m < |sections| &&
        sections[k].crn == crn && (forall k' :: 0 <= k' < k ==> sections[k'].crn != crn) &&
        sections[m].crn != crn && RowsConflict(sections[k], sections[m])
  {
    match FindIndex(sections, HasCrn(crn))
    case None => false
    case Some(k) => Any(sections, ClashesWith(sections[k], crn))
  }

  /**
   * Rows of the same CRN are never compared: a row alone in the list has no conflict,
   * although the clash test pairs it positively with itself as soon as it has a slot.
   */
  lemma SoleRowHasNoConflict(s: EditorSection)
    requires exists t :: t in SlotsOf(s) && t.start < t.end
    ensures RowsConflict(s, s)
    ensures !SectionHasConflict([s], s.crn)
  {
    var t :| t in SlotsOf(s) && t.start < t.end;
    var i :| 0 <= i < |SlotsOf(s)| && SlotsOf(s)[i] == t;
    assert SectionsProcessor.SlotsOverlap(SlotsOf(s)[i], SlotsOf(s)[i]);
  }

  /** A section just added has no times, so the dialog never marks it as clashing. */
  lemma AddedSectionHasNoConflict(sections: seq<EditorSection>, crn: string, room: string)
    requires AddSection(sections, crn, room).Ok?
    ensures !SectionHasConflict(AddSection(sections, crn, room).value, Trim(crn))
  {
    AddSectionSpec(sections, crn, room, Trim(crn));
    BlocklessRowNoConflict(sections, AddSection(sections, crn, room).value, Trim(crn));
  }

  lemma BlocklessRowNoConflict(sections: seq<EditorSection>, next: seq<EditorSection>, c: string)
    requires AppendsBlocklessRow(sections, next) && next[|sections|].crn == c
    requires !exists k :: 0 <= k < |sections| && sections[k].crn == c
    ensures !SectionHasConflict(next, c)
  {
    assert forall k :: 0 <= k < |sections| ==> next[k] == sections[k];
    assert forall k :: 0 <= k < |sections| ==> next[k].crn != c;
    assert forall m :: 0 <= m < |next| ==> !RowsConflict(next[|sections|], next[m]);
  }

  // ---------------------------------------------------------------- the code as written

  /**
   * `hasScheduleConflict(a, b)` applied to rows as they are, `None` standing for the
   * TypeError that `for...of` raises over an absent list: the outer loop reads `a.slots`
   * always, the inner loop reads `b.slots` only when `a.slots` has an element.
   */
  function ConflictCheckAsWritten(a: EditorSection, b: EditorSection): (r: Option<bool>)
    ensures r.Some? ==> r.value == RowsConflict(a, b)
  {
    match a.slots
    case None => None
    case Some(xs) =>
      if xs == [] then Some(false)
      else match b.slots
        case None => None
        case Some(ys) => Some(SectionsProcessor.SlotsConflict(xs, ys))
  }

  /** `validateConflicts` as written: `None` when one of the pair tests throws. */
  function ConflictsAsWritten(sections: seq<EditorSection>): (r: Option<seq<string>>)
    ensures r.None? <==>
      exists i, j :: 0 <= i < j < |sections| && ConflictCheckAsWritten(sections[i], sections[j]).None?
  {
    if exists i, j :: 0 <= i < j < |sections| && ConflictCheckAsWritten(sections[i], sections[j]).None?
    then None
    else Some(Conflicts(sections))
  }

  /** On rows that all carry slots the code as written and `Conflicts` agree. */
  lemma ConflictsAsWrittenWithSlots(sections: seq<EditorSection>)
    requires forall k :: 0 <= k < |sections| ==> sections[k].slots.Some?
    ensures ConflictsAsWritten(sections) == Some(Conflicts(sections))
  {
  }

  /**
   * As written, a section added beside a loaded row with slots makes the clash scan throw:
   * the pair (loaded row, new row) reads the new row's absent `slots`, so `saveSections`
   * can no longer persist anything.
   */
  lemma AddedSectionBreaksScan(sections: seq<EditorSection>, crn: string, room: string, k: nat)
    requires AddSection(sections, crn, room).Ok?
    requires k < |sections| && sections[k].slots.Some? && sections[k].slots.value != []
    ensures ConflictsAsWritten(AddSection(sections, crn, room).value).None?
  {
    AddSectionSpec(sections, crn, room, Trim(crn));
    BlocklessRowBreaksScan(sections, AddSection(sections, crn, room).value, k);
  }

  lemma BlocklessRowBreaksScan(sections: seq<EditorSection>, next: seq<EditorSection>, k: nat)
    requires AppendsBlocklessRow(sections, next)
    requires k < |sections| && sections[k].slots.Some? && sections[k].slots.value != []
    ensures ConflictsAsWritten(next).None?
  {
    assert next[k] == sections[k];
    assert ConflictCheckAsWritten(next[k], next[|sections|]).None?;
  }

  /** `sections.some(other => other.crn !== crn && hasScheduleConflict(me, other))` as written. */
  function AnyClashAsWritten(me: EditorSection, crn: string, others: seq<EditorSection>)
    : (r: Option<bool>)
    ensures r == Some(true) ==> exists m :: 0 <= m < |others| && ClashesWith(me, crn)(others[m])
    decreases |others|
  {
    if others == [] then Some(false)
    else if others[0].crn == crn then AnyClashAsWritten(me, crn, others[1..])
    else match ConflictCheckAsWritten(me, others[0])
      case None => None
      case Some(true) => Some(true)
      case Some(false) =>
        ClashInTail(me, crn, others);
        AnyClashAsWritten(me, crn, others[1..])
  }

  lemma ClashInTail(me: EditorSection, crn: string, others: seq<EditorSection>)
    requires others != []
    ensures (exists m :: 0 <= m < |others[1..]| && ClashesWith(me, crn)(others[1..][m])) ==>
      exists m :: 0 <= m < |others| && ClashesWith(me, crn)(others[m])
  {
    if exists m :: 0 <= m < |others[1..]| && ClashesWith(me, crn)(others[1..][m]) {
      var m :| 0 <= m < |others[1..]| && ClashesWith(me, crn)(others[1..][m]);
      assert others[m + 1] == others[1..][m];
    }
  }

  /** `sectionHasConflict` as written; `None` stands for the TypeError it raises. */
  function SectionHasConflictAsWritten(sections: seq<EditorSection>, crn: string): Option<bool> {
    match FindIndex(sections, HasCrn(crn))
    case None => Some(false)
    case Some(k) => AnyClashAsWritten(sections[k], crn, sections)
  }

  /**
   * As written, asking whether a freshly added section clashes throws as soon as the list
   * holds any other row: the first row of another CRN is tested against the new row's
   * absent `slots`. The dialog asks this for every row it draws.
   */
  lemma AddedSectionBreaksRowCheck(sections: seq<EditorSection>, crn: string, room: string)
    requires AddSection(sections, crn, room).Ok? && sections != []
    ensures SectionHasConflictAsWritten(AddSection(sections, crn, room).value, Trim(crn)).None?
  {
    AddSectionSpec(sections, crn, room, Trim(crn));
    BlocklessRowBreaksRowCheck(sections, AddSection(sections, crn, room).value, Trim(crn));
  }

  lemma BlocklessRowBreaksRowCheck(sections: seq<EditorSection>, next: seq<EditorSection>, c: string)
    requires AppendsBlocklessRow(sections, next) && next[|sections|].crn == c && sections != []
    requires !exists k :: 0 <= k < |sections| && sections[k].crn == c
    ensures SectionHasConflictAsWritten(next, c).None?
  {
    assert forall k :: 0 <= k < |sections| ==> next[k] == sections[k];
    assert forall k :: 0 <= k < |sections| ==> next[k].crn != c;
    assert FindIndex(next, HasCrn(c)) == Some(|sections|);
    assert next[0].crn != c;
  }

}

/** The dialog's state and its handlers, each following the value function it updates by. */
module EditCourseDialog {
  import opened Wrappers
  import opened Seqs
  import opened Text
  import Pairs
  import opened EditCourse

  /** The dialog's editable state: the course record and the section list. */
  class CourseEditor {
    var form: CourseForm
    var sections: seq<EditorSection>

    /** The dialog opened on a course and the rows loaded for it. */
    constructor (course: CourseForm, loaded: seq<EditorSection>)
      ensures form == course && sections == loaded
    {
      form := course;
      sections := loaded;
    }

    /** `toggleInList`: rebuilds the named list through an insertion-ordered set. */
    method ToggleInList(key: ListKey, id: string)
      modifies this
      ensures form == ToggleField(old(form), key, id) && sections == old(sections)
    {
      var list := if key == Prerequisites then form.Prerequisites() else form.Corequisites();
      var members := Dedup(list);
      if id in members {
        members := Filter(members, NotId(id));
      } else {
        members := members + [id];
      }
      if key == Prerequisites {
        form := form.(prerequisites := Some(members));
      } else {
        form := form.(corequisites := Some(members));
      }
    }

    /** `handleSave`: the record handed to `onSave`, if validation passes. */
    method HandleSave(all: seq<CourseForm>) returns (saved: Option<CourseForm>)
      ensures saved == EditCourse.HandleSave(form, all)
    {
      var err := Validate(form, all);
      if err.Some? {
        return None;
      }
      saved := Some(form.(prerequisites := Some(Dedup(form.Prerequisites())),
                          corequisites := Some(Dedup(form.Corequisites()))));
    }

    /** `addSection`: appends the new row, or leaves the list as it is and reports why. */
    method AddSection(newCrn: string, newRoom: string) returns (problem: Option<AddProblem>)
      modifies this
      ensures form == old(form)
      ensures match EditCourse.AddSection(old(sections), newCrn, newRoom)
        case Ok(next) => sections == next && problem.None?
        case Err(e) => sections == old(sections) && problem == Some(e)
    {
      var crn := Trim(newCrn);
      if crn == [] {
        return Some(CrnRequired);
      }
      if Any(sections, HasCrn(crn)) {
        return Some(CrnExists);
      }
      var room := Trim(newRoom);
      sections := sections + [EditorSection(crn, room, false, Some([]), None)];
      problem := None;
    }

    /** `editSectionInline`. */
    method EditSectionInline(crn: string, edit: InlineEdit)
      modifies this
      ensures form == old(form) && sections == EditCourse.EditSectionInline(old(sections), crn, edit)
    {
      sections := EditCourse.EditSectionInline(sections, crn, edit);
    }

    /** `deleteSection`. */
    method DeleteSection(crn: string)
      modifies this
      ensures form == old(form) && sections == EditCourse.DeleteSection(old(sections), crn)
    {
      sections := EditCourse.DeleteSection(sections, crn);
    }

    /** `addTimeBlock`, given the block entered for the section, if any. */
    method AddTimeBlock(crn: string, entered: Option<TimeBlock>) returns (problem: Option<AddProblem>)
      modifies this
      ensures form == old(form)
      ensures match EditCourse.AddTimeBlock(old(sections), crn, entered)
        case Ok(next) => sections == next && problem.None?
        case Err(e) => sections == old(sections) && problem == Some(e)
    {
      var r := EditCourse.AddTimeBlock(sections, crn, entered);
      match r
      case Ok(next) => sections := next; problem := None;
      case Err(e) => problem := Some(e);
    }

    /** `removeTimeBlock`. */
    method RemoveTimeBlock(crn: string, i: int)
      modifies this
      ensures form == old(form) && sections == EditCourse.RemoveTimeBlock(old(sections), crn, i)
    {
      sections := EditCourse.RemoveTimeBlock(sections, crn, i);
    }

    /** `validateConflicts`: the nested scan over the current rows. */
    method ValidateConflicts() returns (msgs: seq<string>)
      ensures msgs == Conflicts(sections)
    {
      msgs := Pairs.ScanLoop(sections, ConflictTest());
    }

    /** `saveSections`: the rows persisted for the course, or nothing when any pair clashes. */
    method SaveSections() returns (persisted: Option<seq<EditorSection>>)
      ensures persisted == SaveGate(sections)
    {
      var conflicts := ValidateConflicts();
      if |conflicts| > 0 {
        return None;
      }
      persisted := Some(sections);
    }
  }
}
