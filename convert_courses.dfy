/**
 * The conversion script that turns the extracted curriculum text into the course catalogue:
 * header lines move a (term, block, elective type) state, course lines are read with two
 * fixed line formats, and the collected courses are sorted by term and then by id.
 */
module ConvertCourses {
  import opened Wrappers
  import opened Seqs
  import opened Text
  import opened Catalog

  // ---------------------------------------------------------------- requisite text

  /** Each piece trimmed, in order: one piece for each, and trimming any of them again changes nothing. */
  function TrimAll(parts: seq<string>): (r: seq<string>)
    ensures |r| == |parts|
    ensures forall x :: x in r ==> x == Trim(x)
  {
    var r := seq(|parts|, k requires 0 <= k < |parts| => Trim(parts[k]));
    forall x | x in r ensures x == Trim(x) {
      var k :| 0 <= k < |r| && r[k] == x;
      TrimIdempotent(parts[k]);
    }
    r
  }

  function KeepPrerequisite(): string -> bool {
    p => p != [] && p != "[]"
  }

  function KeepCorequisite(): string -> bool {
    c => c != []
  }

  /**
   * `text.split(',').map(p => p.trim())` filtered by `keep`: exactly the trimmed comma items
   * that pass the filter, in their order and each as often as it occurs.
   */
  function Items(text: string, keep: string -> bool): (r: seq<string>)
    ensures forall x :: x in r <==> x in TrimAll(Split(text, ',')) && keep(x)
    ensures SelectsExactly(r, TrimAll(Split(text, ',')), keep)
    ensures forall x :: x in r ==> x == Trim(x)
  {
    FilterSelects(TrimAll(Split(text, ',')), keep);
    Filter(TrimAll(Split(text, ',')), keep)
  }

  /** No character of `s` ends a line. */
  predicate NoLineBreak(s: string) {
    forall k :: 0 <= k < |s| ==> !IsLineTerminator(s[k])
  }

  const CoReqMark := "Co-Req:"

  /**
   * Where `\s*(.+)$` leaves its group when the run of white space after the mark ends at
   * `hi`: the greedy `\s*` gives characters back from `hi` down to `lo` until the rest is
   * non-empty and crosses no line end.
   */
  function GroupStart(s: string, lo: nat, hi: nat): (r: Option<nat>)
    requires lo <= hi <= |s|
    ensures r.Some? ==> lo <= r.value <= hi && r.value < |s| && NoLineBreak(s[r.value..])
    ensures r.Some? ==> forall k :: r.value < k <= hi && k < |s| ==> !NoLineBreak(s[k..])
    ensures r.None? ==> forall k :: lo <= k <= hi && k < |s| ==> !NoLineBreak(s[k..])
    decreases hi - lo
  {
    if hi < |s| && NoLineBreak(s[hi..]) then Some(hi)
    else if hi == lo then None
    else GroupStart(s, lo, hi - 1)
  }

  /**
   * The match of `^(.*?)\s*Co-Req:\s*(.+)$` whose lazy first group is `s[..p]`, as the
   * pair of groups; `None` when no match ends that group at `p`.
   */
  function CoReqAt(s: string, p: nat): (r: Option<(string, string)>)
    requires p <= |s|
    ensures r.Some? ==> r.value.0 == s[..p]
  {
    var q := p + Run(s, p, IsSpace);
    if !OccursAt(s, CoReqMark, q) then None
    else
      var after := q + |CoReqMark|;
      match GroupStart(s, after, after + Run(s, after, IsSpace))
      case None => None
      case Some(k) => Some((s[..p], s[k..]))
  }

  /** The lazy group tried at `p`, `p + 1`, ...; it cannot extend over a line end. */
  function CoReqFrom(s: string, p: nat): Option<(string, string)>
    requires p <= |s|
    decreases |s| - p
  {
    if p > 0 && IsLineTerminator(s[p - 1]) then None
    else match CoReqAt(s, p)
      case Some(g) => Some(g)
      case None => if p == |s| then None else CoReqFrom(s, p + 1)
  }

  /** `text.match(/^(.*?)\s*Co-Req:\s*(.+)$/)`: its two groups. */
  function CoReqMatch(s: string): Option<(string, string)> {
    CoReqFrom(s, 0)
  }

  /** Without the mark the pattern never matches. */
  lemma {:induction false} CoReqFromAbsent(s: string, p: nat)
    requires p <= |s| && IndexOf(s, CoReqMark, 0).None?
    ensures CoReqFrom(s, p).None?
    decreases |s| - p
  {
    if !(p > 0 && IsLineTerminator(s[p - 1])) && p < |s| {
      CoReqFromAbsent(s, p + 1);
    }
  }

  /** The prerequisite and corequisite ids read from a course line. */
  datatype Requisites = Requisites(prerequisites: seq<string>, corequisites: seq<string>)

  /**
   * `parsePrerequisitesAndCorequisites`: blank or `[]` text gives nothing; with the
   * `Co-Req:` split the part before feeds prerequisites and the part after corequisites;
   * otherwise every item is a prerequisite. Items are trimmed; empty items and `[]` are
   * dropped from prerequisites, only empty items from corequisites.
   */
  function ParseRequisites(text: string): (r: Requisites)
    ensures forall x :: x in r.prerequisites ==> x == Trim(x) && KeepPrerequisite()(x)
    ensures forall x :: x in r.corequisites ==> x == Trim(x) && KeepCorequisite()(x)
  {
    if Trim(text) == [] || Trim(text) == "[]" then Requisites([], [])
    else match CoReqMatch(text)
      case Some((before, after)) =>
        var pre, co := Trim(before), Trim(after);
        Requisites(
          if pre != [] && pre != "[]" then Items(pre, KeepPrerequisite()) else [],
          if co != [] then Items(co, KeepCorequisite()) else [])
      case None =>
        Requisites(if text != "[]" then Items(text, KeepPrerequisite()) else [], [])
  }

  /** Blank text, or the text `[]`, has no requisites. */
  lemma ParseBlank(text: string)
    requires Trim(text) == [] || Trim(text) == "[]"
    ensures ParseRequisites(text) == Requisites([], [])
  {
  }

  /** Without `Co-Req:` every item is a prerequisite and there are no corequisites. */
  lemma ParseWithoutMark(text: string)
    requires IndexOf(text, CoReqMark, 0).None? && Trim(text) != [] && Trim(text) != "[]"
    ensures ParseRequisites(text) == Requisites(Items(text, KeepPrerequisite()), [])
  {
    CoReqFromAbsent(text, 0);
    ParseUnmatched(text);
  }

  lemma ParseUnmatched(text: string)
    requires CoReqMatch(text).None? && Trim(text) != [] && Trim(text) != "[]"
    ensures ParseRequisites(text) == Requisites(Items(text, KeepPrerequisite()), [])
  {
    TrimBrackets();
    assert text != "[]";
  }

  /** The text `[]` has no white space to trim. */
  lemma TrimBrackets()
    ensures Trim("[]") == "[]"
  {
    var s := "[]";
    assert s[0] == '[' && s[|s| - 1] == ']';
    assert !IsSpace(s[0]) && !IsSpace(s[|s| - 1]);
  }

  /** The start of the run of white space that ends at `q`. */
  function SpacesBefore(s: string, q: nat): (p: nat)
    requires q <= |s|
    ensures p <= q && AllSpaces(s[p..q]) && (p == 0 || !IsSpace(s[p - 1]))
    decreases q
  {
    if q > 0 && IsSpace(s[q - 1]) then
      var p := SpacesBefore(s, q - 1);
      assert s[p..q] == s[p..q - 1] + [s[q - 1]];
      p
    else q
  }

  /** Before the white space that precedes the first mark no match can end the lazy group. */
  lemma AtBeforeRun(s: string, q: nat, p: nat)
    requires IndexOf(s, CoReqMark, 0) == Some(q) && p < SpacesBefore(s, q)
    ensures CoReqAt(s, p).None?
  {
    var p0 := SpacesBefore(s, q);
    var q' := p + Run(s, p, IsSpace);
    assert !IsSpace(s[p0 - 1]);
    assert q' < p0;
  }

  lemma RunToMark(s: string, q: nat, p: nat)
    requires IndexOf(s, CoReqMark, 0) == Some(q) && SpacesBefore(s, q) <= p <= q
    ensures p + Run(s, p, IsSpace) == q
  {
    assert s[q] == 'C' by { assert s[q..q + |CoReqMark|][0] == s[q]; }
    var p0 := SpacesBefore(s, q);
    assert forall i :: p <= i < q ==> IsSpace(s[i]) by {
      assert forall i :: p0 <= i < q ==> s[p0..q][i - p0] == s[i];
    }
    RunExact(s, p, q - p, IsSpace);
  }

  /** Without line ends `(.+)$` fits as soon as something is left. */
  lemma GroupStartNoBreaks(s: string, lo: nat, hi: nat)
    requires NoLineBreak(s) && lo <= hi <= |s|
    ensures GroupStart(s, lo, hi).Some? <==> lo < |s|
  {
    if lo < |s| {
      var k := if hi < |s| then hi else |s| - 1;
      assert NoLineBreak(s[k..]) by {
        assert forall i :: 0 <= i < |s[k..]| ==> s[k..][i] == s[k + i];
      }
    }
  }

  /** Inside that white space the match is decided by the text after the first mark. */
  lemma AtInRun(s: string, q: nat, p: nat)
    requires NoLineBreak(s) && IndexOf(s, CoReqMark, 0) == Some(q)
    requires SpacesBefore(s, q) <= p <= q
    ensures CoReqAt(s, p).Some? <==> q + |CoReqMark| < |s|
    ensures CoReqAt(s, p).Some? ==>
      exists k :: q + |CoReqMark| <= k <= |s| && AllSpaces(s[q + |CoReqMark|..k]) &&
        CoReqAt(s, p) == Some((s[..p], s[k..]))
  {
    RunToMark(s, q, p);
    AtMark(s, q, p);
  }

  lemma AtMark(s: string, q: nat, p: nat)
    requires NoLineBreak(s) && p <= q <= |s| && p + Run(s, p, IsSpace) == q
    requires OccursAt(s, CoReqMark, q)
    ensures CoReqAt(s, p).Some? <==> q + |CoReqMark| < |s|
    ensures CoReqAt(s, p).Some? ==>
      exists k :: q + |CoReqMark| <= k <= |s| && AllSpaces(s[q + |CoReqMark|..k]) &&
        CoReqAt(s, p) == Some((s[..p], s[k..]))
  {
    var after := q + |CoReqMark|;
    var m := Run(s, after, IsSpace);
    CoReqAtIs(s, p, q);
    GroupStartNoBreaks(s, after, after + m);
    GroupStartSpaces(s, after, m);
  }

  /** The value of `CoReqAt` once the white space after `p` is known to end at a mark. */
  lemma CoReqAtIs(s: string, p: nat, q: nat)
    requires p <= q <= |s| && p + Run(s, p, IsSpace) == q && OccursAt(s, CoReqMark, q)
    ensures q + |CoReqMark| <= |s|
    ensures var after := q + |CoReqMark|;
      CoReqAt(s, p) == match GroupStart(s, after, after + Run(s, after, IsSpace))
        case None => None
        case Some(k) => Some((s[..p], s[k..]))
  {
  }

  /** The second group starts inside the white space run. */
  lemma GroupStartSpaces(s: string, after: nat, m: nat)
    requires after <= |s| && m == Run(s, after, IsSpace)
    ensures GroupStart(s, after, after + m).Some? ==>
      AllSpaces(s[after..GroupStart(s, after, after + m).value])
  {
    var g := GroupStart(s, after, after + m);
    if g.Some? {
      assert forall i :: 0 <= i < g.value - after ==> s[after..g.value][i] == s[after + i];
    }
  }

  /** When the first mark closes the text, no later position starts a mark either. */
  lemma AtAfterMark(s: string, q: nat, p: nat)
    requires IndexOf(s, CoReqMark, 0) == Some(q) && q + |CoReqMark| == |s| && q < p <= |s|
    ensures CoReqAt(s, p).None?
  {
  }

  lemma {:induction false} FromUpToRun(s: string, q: nat, p: nat)
    requires NoLineBreak(s) && IndexOf(s, CoReqMark, 0) == Some(q) && p <= SpacesBefore(s, q)
    ensures CoReqFrom(s, p) == CoReqFrom(s, SpacesBefore(s, q))
    decreases SpacesBefore(s, q) - p
  {
    if p < SpacesBefore(s, q) {
      AtBeforeRun(s, q, p);
      assert !(p > 0 && IsLineTerminator(s[p - 1]));
      FromUpToRun(s, q, p + 1);
    }
  }

  lemma {:induction false} FromPastRun(s: string, q: nat, p: nat)
    requires NoLineBreak(s) && IndexOf(s, CoReqMark, 0) == Some(q) && q + |CoReqMark| == |s|
    requires SpacesBefore(s, q) <= p <= |s|
    ensures CoReqFrom(s, p).None?
    decreases |s| - p
  {
    if p <= q {
      AtInRun(s, q, p);
    } else {
      AtAfterMark(s, q, p);
    }
    if p < |s| {
      assert !(p > 0 && IsLineTerminator(s[p - 1]));
      FromPastRun(s, q, p + 1);
    }
  }

  /**
   * On a text without line ends the pattern matches iff the first `Co-Req:` has text after
   * it; the first group then ends in the white space before that first mark and the
   * second starts in the white space after it.
   */
  lemma CoReqFirstMark(s: string, q: nat)
    requires NoLineBreak(s) && IndexOf(s, CoReqMark, 0) == Some(q)
    ensures CoReqMatch(s).Some? <==> q + |CoReqMark| < |s|
    ensures CoReqMatch(s).Some? ==>
      exists p: nat, k: nat :: p <= q && AllSpaces(s[p..q]) &&
        q + |CoReqMark| <= k <= |s| && AllSpaces(s[q + |CoReqMark|..k]) &&
        CoReqMatch(s) == Some((s[..p], s[k..]))
  {
    var p0 := SpacesBefore(s, q);
    FromUpToRun(s, q, 0);
    AtInRun(s, q, p0);
    if q + |CoReqMark| < |s| {
      var k :| q + |CoReqMark| <= k <= |s| && AllSpaces(s[q + |CoReqMark|..k]) &&
        CoReqAt(s, p0) == Some((s[..p0], s[k..]));
      assert !(p0 > 0 && IsLineTerminator(s[p0 - 1]));
      assert CoReqMatch(s) == Some((s[..p0], s[k..]));
    } else {
      FromPastRun(s, q, p0);
    }
  }

  /**
   * With `Co-Req:` in a text without line ends and something after it, the prerequisites
   * are the items of the text before the first mark and the corequisites are the items of
   * the text after it.
   */
  lemma ParseWithMark(text: string, q: nat)
    requires NoLineBreak(text) && IndexOf(text, CoReqMark, 0) == Some(q)
    requires q + |CoReqMark| < |text| && Trim(text) != [] && Trim(text) != "[]"
    ensures var pre, co := Trim(text[..q]), Trim(text[q + |CoReqMark|..]);
      ParseRequisites(text) == Requisites(
        if pre != [] && pre != "[]" then Items(pre, KeepPrerequisite()) else [],
        if co != [] then Items(co, KeepCorequisite()) else [])
  {
    CoReqFirstMark(text, q);
    var p: nat, k: nat :| p <= q && AllSpaces(text[p..q]) &&
      q + |CoReqMark| <= k <= |text| && AllSpaces(text[q + |CoReqMark|..k]) &&
      CoReqMatch(text) == Some((text[..p], text[k..]));
    TrimAroundMark(text, p, q, k);
    ParseMatched(text, text[..p], text[k..], Trim(text[..q]), Trim(text[q + |CoReqMark|..]));
  }

  /** The white space the two groups leave out does not survive trimming. */
  lemma TrimAroundMark(text: string, p: nat, q: nat, k: nat)
    requires p <= q && q + |CoReqMark| <= k <= |text|
    requires AllSpaces(text[p..q]) && AllSpaces(text[q + |CoReqMark|..k])
    ensures Trim(text[..p]) == Trim(text[..q])
    ensures Trim(text[k..]) == Trim(text[q + |CoReqMark|..])
  {
    var m := q + |CoReqMark|;
    TrimAfterSpaces(text, m, k);
    TrimBeforeSpaces(text, p, q);
  }

  /** White space at the end of a prefix does not survive trimming. */
  lemma TrimBeforeSpaces(text: string, p: nat, q: nat)
    requires p <= q <= |text| && AllSpaces(text[p..q])
    ensures Trim(text[..p]) == Trim(text[..q])
  {
    assert text[..q] == [] + text[..p] + text[p..q];
    TrimSpacesAround([], text[..p], text[p..q]);
  }

  /** White space at the start of a suffix does not survive trimming. */
  lemma TrimAfterSpaces(text: string, m: nat, k: nat)
    requires m <= k <= |text| && AllSpaces(text[m..k])
    ensures Trim(text[k..]) == Trim(text[m..])
  {
    assert text[m..] == text[m..k] + text[k..] + [];
    TrimSpacesAround(text[m..k], text[k..], []);
  }

  lemma ParseMatched(text: string, before: string, after: string, pre: string, co: string)
    requires Trim(text) != [] && Trim(text) != "[]" && CoReqMatch(text) == Some((before, after))
    requires Trim(before) == pre && Trim(after) == co
    ensures ParseRequisites(text) == Requisites(
        if pre != [] && pre != "[]" then Items(pre, KeepPrerequisite()) else [],
        if co != [] then Items(co, KeepCorequisite()) else [])
  {
  }

  // ---------------------------------------------------------------- course names

  /**
   * Every white-space character is a plain space and none is next to another: the shape
   * `replace(/\s+/g, ' ')` leaves.
   */
  predicate SingleSpaced(s: string) {
    (forall k :: 0 <= k < |s| && IsSpace(s[k]) ==> s[k] == ' ') &&
    (forall k :: 0 <= k < |s| - 1 ==> !(IsSpace(s[k]) && IsSpace(s[k + 1])))
  }

  /** `s.replace(/\s+/g, ' ')`: each maximal run of white space becomes one space. */
  function Collapse(s: string): (r: string)
    ensures SingleSpaced(r)
    ensures r == [] <==> s == []
    ensures r != [] ==> (IsSpace(r[0]) <==> IsSpace(s[0]))
    decreases |s|
  {
    if s == [] then []
    else if IsSpace(s[0]) then
      var rest := Collapse(s[Run(s, 0, IsSpace)..]);
      assert rest != [] ==> !IsSpace(rest[0]);
      " " + rest
    else [s[0]] + Collapse(s[1..])
  }

  /** A text already in collapsed shape is left as it is. */
  lemma {:induction false} CollapseSingleSpaced(s: string)
    requires SingleSpaced(s)
    ensures Collapse(s) == s
    decreases |s|
  {
    if s != [] {
      assert SingleSpaced(s[1..]) by {
        assert forall k :: 0 <= k < |s[1..]| ==> s[1..][k] == s[k + 1];
      }
      if IsSpace(s[0]) {
        assert |s| > 1 ==> !IsSpace(s[1]);
        RunExact(s, 0, 1, IsSpace);
      }
      CollapseSingleSpaced(s[1..]);
    }
  }

  /** A slice of a collapsed text is collapsed. */
  lemma SingleSpacedSlice(s: string, i: nat, j: nat)
    requires i <= j <= |s| && SingleSpaced(s)
    ensures SingleSpaced(s[i..j])
  {
    assert forall k :: 0 <= k < j - i ==> s[i..j][k] == s[i + k];
  }

  /** The trimmed text is a slice of the text. */
  lemma TrimIsSlice(s: string) returns (i: nat, j: nat)
    ensures i <= j <= |s| && Trim(s) == s[i..j]
  {
    var t := TrimStart(s);
    i := |s| - |t|;
    j := i + |TrimEnd(t)|;
    assert TrimEnd(t) == t[..j - i];
    assert t[..j - i] == s[i..j];
  }

  lemma TrimSingleSpaced(s: string)
    requires SingleSpaced(s)
    ensures SingleSpaced(Trim(s))
  {
    var i, j := TrimIsSlice(s);
    SingleSpacedSlice(s, i, j);
  }

  /** `cleanCourseName`: runs of white space become one space, then the ends are trimmed. */
  function CleanName(name: string): (r: string)
    ensures r == [] || (!IsSpace(r[0]) && !IsSpace(r[|r| - 1]))
    ensures SingleSpaced(r)
  {
    TrimSingleSpaced(Collapse(name));
    Trim(Collapse(name))
  }

  /** Cleaning a clean name changes nothing. */
  lemma CleanNameIdempotent(name: string)
    ensures CleanName(CleanName(name)) == CleanName(name)
  {
    CollapseSingleSpaced(CleanName(name));
  }

  // ---------------------------------------------------------------- descriptions

  /** The fixed description of each known id prefix. */
  const Descriptions: map<string, string> := map[
    "ESP" := "Curso de lengua española enfocado en comunicación y redacción.",
    "ING" := "Curso de idioma inglés para desarrollo de competencias comunicativas.",
    "MAT" := "Curso de matemáticas aplicadas a las ciencias médicas.",
    "MED" := "Asignatura médica fundamental para la formación profesional.",
    "SOC" := "Curso de ciencias sociales aplicadas al contexto médico.",
    "SIC" := "Asignatura de psicología aplicada a la práctica médica.",
    "INF" := "Curso de informática y tecnologías aplicadas a la salud.",
    "ECO" := "Curso de economía aplicada al sector salud.",
    "ORI" := "Curso de orientación para el desarrollo académico y profesional.",
    "ENF" := "Curso complementario de enfermería básica.",
    "ADM" := "Curso de administración y emprendimiento.",
    "DPG" := "Trabajo de investigación para obtención del grado académico."]

  /** `id.split('-')[0]`: the text before the first hyphen. */
  function Prefix(id: string): (r: string)
    ensures '-' !in r
  {
    Split(id, '-')[0]
  }

  /** The prefix of an id of the form `LLL-...` is its three letters. */
  lemma PrefixOfCourseId(id: string)
    requires |id| >= 4 && id[3] == '-' && '-' !in id[..3]
    ensures Prefix(id) == id[..3]
  {
    assert FirstIndexOfChar(id, '-') == Some(3) by {
      assert forall j :: 0 <= j < 3 ==> id[j] == id[..3][j];
    }
  }

  /** `generateDescription`: the prefix's fixed text, otherwise the block-based fallback. */
  function Description(id: string, block: string): string {
    if Prefix(id) in Descriptions then Descriptions[Prefix(id)]
    else "Asignatura del bloque " + block + "."
  }

  /**
   * A well-shaped course id is described by the fixed text of its three letters, or, for
   * letters without one, by the sentence naming its block.
   */
  lemma DescriptionOfCourseId(id: string, block: string)
    requires CourseIdShape(id)
    ensures id[..3] in Descriptions ==> Description(id, block) == Descriptions[id[..3]]
    ensures id[..3] !in Descriptions ==> Description(id, block) == "Asignatura del bloque " + block + "."
  {
    PrefixOfCourseId(id);
  }

  /** A course with the same three letters gets the same description. */
  lemma DescriptionByLetters(id1: string, id2: string, block: string)
    requires CourseIdShape(id1) && CourseIdShape(id2) && id1[..3] == id2[..3]
    ensures Description(id1, block) == Description(id2, block)
  {
    PrefixOfCourseId(id1);
    PrefixOfCourseId(id2);
  }

  // ---------------------------------------------------------------- course lines

  /** `[A-Z]{3}-\d{3}`. */
  predicate CourseIdShape(id: string) {
    |id| == 7 && IsUpper(id[0]) && IsUpper(id[1]) && IsUpper(id[2]) && id[3] == '-' &&
    IsDigit(id[4]) && IsDigit(id[5]) && IsDigit(id[6])
  }

  /**
   * The pieces of a line pattern after the lazy name group: `\s+`, `\s*`, `(\d+)` or a
   * literal word. Each is greedy, and the piece after it never starts with a character
   * it could take, so giving characters back never helps: the match of the pieces from a
   * position is decided position by position.
   */
  datatype Token = Spaces(atLeastOne: bool) | Number | Word(text: string)

  /** The pieces in order. */
  datatype Tokens = Done | Then(head: Token, tail: Tokens)

  function NumberCount(toks: Tokens): nat {
    match toks
    case Done => 0
    case Then(t, more) => (if t.Number? then 1 else 0) + NumberCount(more)
  }

  /** One piece at the start of `t`: the value it captures, if a number, and its length. */
  function Piece(t: string, tok: Token): (r: Option<(Option<nat>, nat)>)
    ensures r.Some? ==> r.value.1 <= |t| && (r.value.0.Some? <==> tok.Number?)
  {
    match tok
    case Spaces(one) =>
      var n := Run(t, 0, IsSpace);
      if one && n == 0 then None else Some((None, n))
    case Number =>
      var n := Run(t, 0, IsDigit);
      if n == 0 then None else Some((Some(DigitsAt(t, 0, n)), n))
    case Word(w) =>
      if StartsWith(t, w) then Some((None, |w|)) else None
  }

  /** The pieces in order at the start of `t`: the numbers captured and the length taken. */
  function Pieces(t: string, toks: Tokens): (r: Option<(seq<nat>, nat)>)
    ensures r.Some? ==> r.value.1 <= |t| && |r.value.0| == NumberCount(toks)
    decreases toks
  {
    match toks
    case Done => Some(([], 0))
    case Then(tok, more) =>
      match Piece(t, tok)
      case None => None
      case Some((c, n)) =>
        match Pieces(t[n..], more)
        case None => None
        case Some((cs, m)) => Some(((if c.Some? then [c.value] else []) + cs, n + m))
  }

  /** `\s+(\d+)\s+(\d+)\s+(\d+)\s+(\d+)\s*`: hours, hours, total and credits. */
  const RegularFields: Tokens :=
    Then(Spaces(true), Then(Number, Then(Spaces(true), Then(Number, Then(Spaces(true), Then(Number,
    Then(Spaces(true), Then(Number, Then(Spaces(false), Done)))))))))

  /** `\s+(\d+)\s+weeks\s+0\s+(\d+)\s*`: weeks and credits. */
  const InternadoFields: Tokens :=
    Then(Spaces(true), Then(Number, Then(Spaces(true), Then(Word("weeks"), Then(Spaces(true), Then(Word("0"),
    Then(Spaces(true), Then(Number, Then(Spaces(false), Done)))))))))

  lemma FieldCounts()
    ensures NumberCount(RegularFields) == 4 && NumberCount(InternadoFields) == 2
  {
  }

  /**
   * The lazy name group ends at `e`, `e + 1`, ...: the first end after which the pieces
   * match; the group cannot take a line end.
   */
  function NameFrom(s: string, e: nat, toks: Tokens): (r: Option<(nat, seq<nat>, nat)>)
    requires 0 < e <= |s|
    ensures r.Some? ==> e <= r.value.0 <= r.value.2 <= |s|
    ensures r.Some? ==> |r.value.1| == NumberCount(toks)
    decreases |s| - e
  {
    if IsLineTerminator(s[e - 1]) then None
    else match Pieces(s[e..], toks)
      case Some((caps, n)) => Some((e, caps, e + n))
      case None => if e == |s| then None else NameFrom(s, e + 1, toks)
  }

  /**
   * The `\s+` after the id takes `w` characters, giving them back one at a time when no
   * name fits: the start and end of the name, the numbers and the end of the pieces.
   */
  function NameAfterSpaces(s: string, w: nat, toks: Tokens): (r: Option<(nat, nat, seq<nat>, nat)>)
    requires 1 <= w && 7 + w <= |s|
    ensures r.Some? ==> 8 <= r.value.0 < r.value.1 <= r.value.3 <= |s| && r.value.0 <= 7 + w
    ensures r.Some? ==> |r.value.2| == NumberCount(toks)
    decreases w
  {
    var b := 7 + w;
    match (if b < |s| then NameFrom(s, b + 1, toks) else None)
    case Some((e, caps, end)) => Some((b, e, caps, end))
    case None => if w == 1 then None else NameAfterSpaces(s, w - 1, toks)
  }

  /** The groups of a matched course line: id, raw name, the captured numbers, the rest. */
  datatype CourseLine = CourseLine(id: string, rawName: string, numbers: seq<nat>, rest: string)

  /** `line.match(/^([A-Z]{3}-\d{3})\s+(.+?)<pieces>(.*)/)` for the pieces `toks`. */
  function CourseLineAt(s: string, toks: Tokens): (r: Option<CourseLine>)
    ensures r.Some? ==> |s| >= 7 && CourseIdShape(r.value.id) && r.value.id == s[..7]
    ensures r.Some? ==> r.value.rawName != [] && |r.value.numbers| == NumberCount(toks)
    ensures r.Some? ==> NoLineBreak(r.value.rest)
  {
    if |s| < 7 || !CourseIdShape(s[..7]) then None
    else
      var w := Run(s, 7, IsSpace);
      if w == 0 then None
      else match NameAfterSpaces(s, w, toks)
        case None => None
        case Some((b, e, caps, end)) =>
          var n := Run(s, end, NotLineTerminator());
          RestHasNoLineBreak(s, end);
          Some(CourseLine(s[..7], s[b..e], caps, s[end..end + n]))
  }

  /** What `(.*)` takes: the characters up to the first line end. */
  lemma RestHasNoLineBreak(s: string, i: nat)
    requires i <= |s|
    ensures NoLineBreak(s[i..i + Run(s, i, NotLineTerminator())])
  {
    var n := Run(s, i, NotLineTerminator());
    var w := s[i..i + n];
    assert forall k :: 0 <= k < |w| ==> w[k] == s[i + k];
  }

  // ---------------------------------------------------------------- writing a course line

  /** The numbers of a line, each after one space, and then the requisite text. */
  function NumberFields(ns: seq<nat>, rest: string): (r: string)
    ensures r == [] || r[0] == ' '
    ensures |rest| <= |r|
  {
    if ns == [] then RestText(rest) else " " + (NatToString(ns[0]) + NumberFields(ns[1..], rest))
  }

  /** One `\s+(\d+)` per number, then `\s*`. */
  function NumberTokens(k: nat): Tokens {
    if k == 0 then Then(Spaces(false), Done) else Then(Spaces(true), Then(Number, NumberTokens(k - 1)))
  }

  /** The requisite text after one space, or nothing. */
  function RestText(rest: string): (r: string)
    ensures r == [] || r[0] == ' '
  {
    if rest == [] then "" else " " + rest
  }

  /**
   * A line in the regular format with single spaces: id, name, theoretical hours,
   * practical hours, total hours, credits and the requisite text.
   */
  function RegularLine(id: string, name: string, ht: nat, hp: nat, th: nat, credits: nat, rest: string): string {
    id + " " + name + NumberFields([ht, hp, th, credits], rest)
  }

  /** A name the lazy group reads back whole: no word in it starts with a digit. */
  predicate PlainName(name: string) {
    name != [] && !IsSpace(name[0]) && !IsSpace(name[|name| - 1]) && NoLineBreak(name) &&
    forall k :: 0 < k < |name| && IsSpace(name[k - 1]) ==> !IsDigit(name[k])
  }

  predicate PlainRest(rest: string) {
    NoLineBreak(rest) && (rest == [] || !IsSpace(rest[0]))
  }

  lemma RegularFieldsAre()
    ensures RegularFields == NumberTokens(4)
  {
  }

  /** One space before a character that is not white space. */
  lemma SpaceAt(more: string)
    requires more != [] && !IsSpace(more[0])
    ensures Piece(" " + more, Spaces(true)) == Some((None, 1)) && (" " + more)[1..] == more
  {
    RunExact(" " + more, 0, 1, IsSpace);
  }

  /** The digits `d` before the end or a non-digit. */
  lemma NumberAt(d: string, more: string)
    requires d != [] && AllDigits(d) && (more == [] || !IsDigit(more[0]))
    ensures Piece(d + more, Number) == Some((Some(DigitsValue(d)), |d|)) && (d + more)[|d|..] == more
  {
    var t := d + more;
    RunExact(t, 0, |d|, IsDigit);
    assert t[0..|d|] == d;
    DigitsAtSlice(t, 0, |d|, d);
  }

  /** The trailing `\s*` after the last number, when the rest follows one space. */
  lemma TrailingSpaces(rest: string)
    requires PlainRest(rest)
    ensures Pieces(RestText(rest), Then(Spaces(false), Done)) == Some(([], |RestText(rest)| - |rest|))
  {
    var t := RestText(rest);
    if rest == [] {
      RunExact(t, 0, 0, IsSpace);
    } else {
      assert t[1] == rest[0];
      RunExact(t, 0, 1, IsSpace);
    }
  }

  /** The pieces `toks` match at the start of `t`, capture `caps` and take `used` characters. */
  predicate ReadsAs(t: string, toks: Tokens, caps: seq<nat>, used: nat) {
    Pieces(t, toks) == Some((caps, used))
  }

  /** One piece, then the rest of the pieces. */
  lemma PiecesThen(t: string, tok: Token, more: Tokens, c: Option<nat>, n: nat, cs: seq<nat>, m: nat,
                   caps: seq<nat>, used: nat)
    requires Piece(t, tok) == Some((c, n)) && n <= |t| && ReadsAs(t[n..], more, cs, m)
    requires caps == (if c.Some? then [c.value] else []) + cs && used == n + m
    ensures ReadsAs(t, Then(tok, more), caps, used)
  {
  }

  /** One space, one number, then the remaining pieces `more`: `u` follows the space, `v` the number. */
  lemma SpaceNumberStep(t: string, u: string, v: string, n: nat, len: nat, more: Tokens, caps: seq<nat>, used: nat,
                         all: seq<nat>, total: nat)
    requires |t| > 0 && u == t[1..] && len <= |u| && v == u[len..]
    requires Piece(t, Spaces(true)) == Some((None, 1)) && Piece(u, Number) == Some((Some(n), len))
    requires ReadsAs(v, more, caps, used) && all == [n] + caps && total == 1 + len + used
    ensures ReadsAs(t, Then(Spaces(true), Then(Number, more)), all, total)
  {
    PiecesThen(u, Number, more, Some(n), len, caps, used, all, len + used);
    assert [] + all == all;
    PiecesThen(t, Spaces(true), Then(Number, more), None, 1, all, len + used, all, total);
  }

  /** A space and the digits `d` before `rest`, which starts with a space or is empty. */
  lemma SpaceDigits(d: string, rest: string, more: Tokens, caps: seq<nat>, used: nat, t: string, all: seq<nat>,
                    total: nat)
    requires d != [] && AllDigits(d) && (rest == [] || rest[0] == ' ')
    requires ReadsAs(rest, more, caps, used)
    requires t == " " + (d + rest) && all == [DigitsValue(d)] + caps && total == 1 + |d| + used
    ensures ReadsAs(t, Then(Spaces(true), Then(Number, more)), all, total)
  {
    SpaceAt(d + rest);
    NumberAt(d, rest);
    SpaceNumberStep(t, d + rest, rest, DigitsValue(d), |d|, more, caps, used, all, total);
  }

  /** No numbers: only the trailing white space and the rest. */
  lemma TailNone(ns: seq<nat>, rest: string, k: nat)
    requires PlainRest(rest) && k == |ns| == 0
    ensures ReadsAs(NumberFields(ns, rest), NumberTokens(k), ns, |NumberFields(ns, rest)| - |rest|)
  {
    assert NumberFields(ns, rest) == RestText(rest) && NumberTokens(k) == Then(Spaces(false), Done);
    TrailingSpaces(rest);
  }

  /** The first space and number, given that the later ones read back as `more`. */
  lemma TailStep(ns: seq<nat>, rest: string, more: Tokens, used: nat, total: nat)
    requires ns != [] && used == |NumberFields(ns[1..], rest)| - |rest| && total == |NumberFields(ns, rest)| - |rest|
    requires ReadsAs(NumberFields(ns[1..], rest), more, ns[1..], used)
    ensures ReadsAs(NumberFields(ns, rest), Then(Spaces(true), Then(Number, more)), ns, total)
  {
    var d := NatToString(ns[0]);
    var tail := NumberFields(ns[1..], rest);
    assert NumberFields(ns, rest) == " " + (d + tail);
    assert [ns[0]] + ns[1..] == ns;
    DigitsValueOfNatToString(ns[0]);
    SpaceDigits(d, tail, more, ns[1..], used, NumberFields(ns, rest), ns, total);
  }

  /** The numbers and the rest after the name, the text `t`, read back as written. */
  lemma {:induction false} TailReads(ns: seq<nat>, rest: string, k: nat, t: string, used: nat)
    requires PlainRest(rest) && k == |ns| && t == NumberFields(ns, rest) && used == |t| - |rest|
    ensures ReadsAs(t, NumberTokens(k), ns, used)
    decreases k
  {
    if k == 0 {
      TailNone(ns, rest, k);
    } else {
      var t1 := NumberFields(ns[1..], rest);
      TailReads(ns[1..], rest, k - 1, t1, |t1| - |rest|);
      TailMore(ns, rest, k, t, t1, |t1| - |rest|, used);
    }
  }

  /** The step of `TailReads`: one more number in front of the text `t1` of the later ones. */
  lemma TailMore(ns: seq<nat>, rest: string, k: nat, t: string, t1: string, used: nat, total: nat)
    requires k == |ns| > 0 && t == NumberFields(ns, rest) && t1 == NumberFields(ns[1..], rest)
    requires used == |t1| - |rest| && total == |t| - |rest|
    requires ReadsAs(t1, NumberTokens(k - 1), ns[1..], used)
    ensures ReadsAs(t, NumberTokens(k), ns, total)
  {
    TailStep(ns, rest, NumberTokens(k - 1), used, total);
    NumberTokensThen(t, k, ns, total);
  }

  /** `NumberTokens(k)` for a positive `k` is one space and number before `NumberTokens(k - 1)`. */
  lemma NumberTokensThen(t: string, k: nat, caps: seq<nat>, used: nat)
    requires k > 0 && ReadsAs(t, Then(Spaces(true), Then(Number, NumberTokens(k - 1))), caps, used)
    ensures ReadsAs(t, NumberTokens(k), caps, used)
  {
  }

  /** No shorter name works: the white space inside a name is followed by a non-digit. */
  lemma NoEarlierEnd(s: string, name: string, e: nat)
    requires 8 + |name| <= |s| && s[8..8 + |name|] == name && PlainName(name) && 8 < e < 8 + |name|
    ensures Pieces(s[e..], RegularFields).None?
  {
    var u := s[e..];
    var n := Run(u, 0, IsSpace);
    assert s[8 + |name| - 1] == name[|name| - 1];
    if n > 0 {
      assert u[n - 1] == s[e + n - 1] && e + n - 1 >= 8;
      assert e + n < 8 + |name|;
      assert u[n] == s[e + n];
      assert s[e + n - 1] == name[e + n - 9] && s[e + n] == name[e + n - 8];
      assert u[n..][0] == u[n];
      assert Run(u[n..], 0, IsDigit) == 0;
    }
  }

  lemma NoEarlierEnds(s: string, name: string)
    requires 8 + |name| <= |s| && s[8..8 + |name|] == name && PlainName(name)
    ensures forall k :: 9 <= k < 8 + |name| ==> Pieces(s[k..], RegularFields).None?
  {
    forall k | 9 <= k < 8 + |name| ensures Pieces(s[k..], RegularFields).None? {
      NoEarlierEnd(s, name, k);
    }
  }

  lemma NoBreakInName(s: string, name: string)
    requires 8 + |name| <= |s| && s[8..8 + |name|] == name && NoLineBreak(name)
    ensures forall k :: 8 <= k < 8 + |name| ==> !IsLineTerminator(s[k])
  {
    forall k | 8 <= k < 8 + |name| ensures !IsLineTerminator(s[k]) {
      assert s[k] == name[k - 8];
    }
  }

  /** The lazy group stops at the first end after which the pieces match. */
  lemma {:induction false} NameFromFirst(s: string, e: nat, target: nat, toks: Tokens, caps: seq<nat>, used: nat,
                                         end: nat)
    requires 0 < e <= target <= |s| && ReadsAs(s[target..], toks, caps, used) && end == target + used
    requires forall k :: e <= k < target ==> Pieces(s[k..], toks).None?
    requires forall k :: e - 1 <= k < target ==> !IsLineTerminator(s[k])
    ensures NameFrom(s, e, toks) == Some((target, caps, end))
    decreases target - e
  {
    if e < target {
      NameFromFirst(s, e + 1, target, toks, caps, used, end);
    }
  }

  /** The four numbers and the requisite text after the name of a regular line. */
  lemma RegularTail(t: string, ns: seq<nat>, rest: string, used: nat)
    requires t == NumberFields(ns, rest) && PlainRest(rest) && |ns| == 4 && used == |t| - |rest|
    ensures ReadsAs(t, RegularFields, ns, used)
  {
    TailReads(ns, rest, 4, t, used);
    RegularFieldsAre();
    SameTokens(t, NumberTokens(4), RegularFields, ns, used);
  }

  /** Equal token lists read the same. */
  lemma SameTokens(t: string, a: Tokens, b: Tokens, caps: seq<nat>, used: nat)
    requires a == b && ReadsAs(t, a, caps, used)
    ensures ReadsAs(t, b, caps, used)
  {
  }

  /** The name ends at `e` when the pieces match there and at no earlier end. */
  lemma RegularName(s: string, name: string, e: nat, toks: Tokens, caps: seq<nat>, used: nat, end: nat)
    requires e == 8 + |name| <= |s| && s[8..e] == name && name != [] && NoLineBreak(name)
    requires forall k :: 9 <= k < e ==> Pieces(s[k..], toks).None?
    requires ReadsAs(s[e..], toks, caps, used) && end == e + used
    ensures NameFrom(s, 9, toks) == Some((e, caps, end))
  {
    NoBreakInName(s, name);
    NameFromFirst(s, 9, e, toks, caps, used, end);
  }

  /** How a course line with one space after its id is read. */
  lemma OneSpaceLine(s: string, toks: Tokens, e: nat, caps: seq<nat>, end: nat, n: nat, line: CourseLine)
    requires 9 <= e <= end && end + n <= |s| && CourseIdShape(s[..7]) && Run(s, 7, IsSpace) == 1
    requires Run(s, end, NotLineTerminator()) == n && line == CourseLine(s[..7], s[8..e], caps, s[end..end + n])
    requires NameFrom(s, 9, toks) == Some((e, caps, end))
    ensures CourseLineAt(s, toks) == Some(line)
  {
    NameAfterOneSpace(s, toks, e, caps, end);
  }

  /** With one space after the id, the name starts right after it. */
  lemma NameAfterOneSpace(s: string, toks: Tokens, e: nat, caps: seq<nat>, end: nat)
    requires 9 <= |s| && NameFrom(s, 9, toks) == Some((e, caps, end))
    ensures NameAfterSpaces(s, 1, toks) == Some((8, e, caps, end))
  {
  }

  /** The groups of a line with one space after its id, once the positions of its pieces are known. */
  lemma RegularLineAt(s: string, toks: Tokens, id: string, name: string, ns: seq<nat>, rest: string, e: nat,
                      used: nat, f: nat)
    requires CourseIdShape(id) && name != [] && NoLineBreak(name)
    requires e == 8 + |name| <= |s| && s[8..e] == name
    requires s[..7] == id && Run(s, 7, IsSpace) == 1
    requires forall k :: 9 <= k < e ==> Pieces(s[k..], toks).None?
    requires ReadsAs(s[e..], toks, ns, used) && f == e + used
    requires f + |rest| == |s| && s[f..] == rest && Run(s, f, NotLineTerminator()) == |rest|
    ensures CourseLineAt(s, toks) == Some(CourseLine(id, name, ns, rest))
  {
    RegularName(s, name, e, toks, ns, used, f);
    assert s[f..f + |rest|] == rest;
    OneSpaceLine(s, toks, e, ns, f, |rest|, CourseLine(id, name, ns, rest));
  }

  /** The field text ends with the requisite text. */
  lemma {:induction false} NumberFieldsEnd(ns: seq<nat>, rest: string)
    ensures var t := NumberFields(ns, rest); t[|t| - |rest|..] == rest
    decreases |ns|
  {
    var t := NumberFields(ns, rest);
    if ns == [] {
      assert t == RestText(rest);
    } else {
      NumberFieldsEnd(ns[1..], rest);
      var more := NumberFields(ns[1..], rest);
      assert t == (" " + NatToString(ns[0])) + more;
      assert t[|t| - |rest|..] == more[|more| - |rest|..];
    }
  }

  /** Where the fields of a regular line sit. */
  lemma RegularLineLayout(id: string, name: string, t: string, rest: string, s: string)
    requires |id| == 7 && PlainName(name) && |rest| <= |t| && t[|t| - |rest|..] == rest && NoLineBreak(rest)
    requires s == id + " " + name + t
    ensures s[..7] == id && Run(s, 7, IsSpace) == 1
    ensures 8 + |name| <= |s| && s[8..8 + |name|] == name && s[8 + |name|..] == t
    ensures |s| == 8 + |name| + |t| && s[|s| - |rest|..] == rest
    ensures Run(s, |s| - |rest|, NotLineTerminator()) == |rest|
  {
    assert s[7] == ' ' && s[8] == name[0];
    RunExact(s, 7, 1, IsSpace);
    assert s[8 + |name|..] == t;
    assert s[|s| - |rest|..] == t[|t| - |rest|..];
    var f := |s| - |rest|;
    forall k | f <= k < f + |rest| ensures !IsLineTerminator(s[k]) {
      assert s[k] == rest[k - f];
    }
    RunExact(s, f, |rest|, NotLineTerminator());
  }

  /**
   * A line written in the regular format reads back as its id, name, four numbers and
   * requisite text, provided no word of the name starts with a digit.
   */
  lemma RegularLineReads(id: string, name: string, ht: nat, hp: nat, th: nat, credits: nat, rest: string)
    requires CourseIdShape(id) && PlainName(name) && PlainRest(rest)
    ensures CourseLineAt(RegularLine(id, name, ht, hp, th, credits, rest), RegularFields) ==
      Some(CourseLine(id, name, [ht, hp, th, credits], rest))
  {
    FieldsLineReads(id, name, [ht, hp, th, credits], rest, RegularLine(id, name, ht, hp, th, credits, rest));
  }

  /** `RegularLineReads` for any four numbers `ns`. */
  lemma FieldsLineReads(id: string, name: string, ns: seq<nat>, rest: string, s: string)
    requires CourseIdShape(id) && PlainName(name) && PlainRest(rest) && |ns| == 4
    requires s == id + " " + name + NumberFields(ns, rest)
    ensures CourseLineAt(s, RegularFields) == Some(CourseLine(id, name, ns, rest))
  {
    var t := NumberFields(ns, rest);
    var e, used := 8 + |name|, |t| - |rest|;
    NumberFieldsEnd(ns, rest);
    RegularLineLayout(id, name, t, rest, s);
    RegularTail(s[e..], ns, rest, used);
    NoEarlierEnds(s, name);
    RegularLineAt(s, RegularFields, id, name, ns, rest, e, used, |s| - |rest|);
  }

  // ---------------------------------------------------------------- the line loop

  /** `currentTerm`, `currentBlock` and `currentElectiveType` between two lines. */
  datatype ScanState = ScanState(term: int, block: string, electiveType: Option<string>)

  const Start := ScanState(1, "PREMÉDICA", None)

  /** The lines the loop skips after reading them for block, elective and term changes. */
  predicate IsHeader(t: string) {
    t == [] || StartsWith(t, "===") || StartsWith(t, "TERM") ||
    Contains(t, "CUATRIMESTRE") || Contains(t, "CLAVE") || Contains(t, "NOMBRE ASIGNATURA")
  }

  /** `TERM (\d+)` at `q`: the number. */
  function TermAt(t: string, q: nat): (r: Option<nat>) {
    if !OccursAt(t, "TERM ", q) then None
    else
      var n := Run(t, q + 5, IsDigit);
      if n == 0 then None else Some(DigitsAt(t, q + 5, n))
  }

  function TermMatcher(t: string): nat -> Option<nat> {
    q => TermAt(t, q)
  }

  /** `line.match(/TERM (\d+)/)`: the leftmost match and its number. */
  function TermNumber(t: string): (r: Option<(nat, nat)>)
    ensures r.Some? ==> TermAt(t, r.value.0) == Some(r.value.1)
    ensures r.Some? ==> forall q: nat :: q < r.value.0 ==> TermAt(t, q).None?
    ensures r.None? ==> forall q: nat :: TermAt(t, q).None?
  {
    var r := Leftmost(TermMatcher(t), 0, |t|);
    assert forall q: nat :: TermMatcher(t)(q) == TermAt(t, q);
    assert forall q: nat :: q > |t| ==> TermAt(t, q).None?;
    r
  }

  /** The block check of a header line: the new block and term. */
  function BlockStep(st: ScanState, t: string): (ScanState) {
    if Contains(t, "CIENCIAS BÁSICAS") then st.(block := "CIENCIAS BÁSICAS", term := 7)
    else if Contains(t, "CLÍNICAS Y QUIRÚRGICAS") then st.(block := "CIENCIAS CLÍNICAS Y QUIRÚRGICAS", term := 12)
    else if Contains(t, "INTERNADO ROTATORIO") then st.(block := "INTERNADO ROTATORIO", term := 16)
    else if Contains(t, "PROYECTO DE GRADO") then st.(block := "PROYECTO DE GRADO", term := 18)
    else st
  }

  /** The elective check of a header line, with the term read from a `TERM n` line. */
  function ElectiveStep(st: ScanState, t: string): ScanState {
    if Contains(t, "ELECTIVAS GENERALES") then st.(electiveType := Some("general"))
    else if Contains(t, "ELECTIVAS PROFESIONALIZANTES") then st.(electiveType := Some("professional"))
    else if Contains(t, "TERM ") then
      match TermNumber(t)
      case Some((_, n)) => st.(electiveType := None, term := n)
      case None => st.(electiveType := None)
    else st
  }

  function HeaderStep(st: ScanState, t: string): ScanState {
    ElectiveStep(BlockStep(st, t), t)
  }

  /** The course object built from a matched line in the current state. */
  function MakeCourse(st: ScanState, id: string, rawName: string, ht: nat, hp: nat, credits: nat, rest: string): Course {
    var name := Trim(rawName);
    var req := ParseRequisites(rest);
    Course(id, CleanName(name), credits, ht, hp, st.term, st.block, req.prerequisites, req.corequisites,
      st.electiveType.Some?, st.electiveType, Some(Description(id, st.block)))
  }

  /**
   * A trimmed non-header line: the regular format first, the internado format only in the
   * internado block; `None` when neither matches.
   */
  function CourseFrom(st: ScanState, t: string): Option<Course> {
    FieldCounts();
    match CourseLineAt(t, RegularFields)
    case Some(l) => Some(MakeCourse(st, l.id, l.rawName, l.numbers[0], l.numbers[1], l.numbers[3], l.rest))
    case None =>
      if st.block != "INTERNADO ROTATORIO" then None
      else match CourseLineAt(t, InternadoFields)
        case Some(l) => Some(MakeCourse(st, l.id, l.rawName, l.numbers[0], 0, l.numbers[1], l.rest))
        case None => None
  }

  /** The state and the courses collected so far. */
  datatype Scanned = Scanned(state: ScanState, courses: seq<Course>)

  /** One pass of the loop body over a line. */
  function Step(sc: Scanned, line: string): Scanned {
    var t := Trim(line);
    if IsHeader(t) then sc.(state := HeaderStep(sc.state, t))
    else match CourseFrom(sc.state, t)
      case Some(c) => sc.(courses := sc.courses + [c])
      case None => sc
  }

  /** The loop over `lines`, from the initial state. */
  function ScanLines(lines: seq<string>): Scanned
    decreases |lines|
  {
    if lines == [] then Scanned(Start, [])
    else Step(ScanLines(lines[..|lines| - 1]), lines[|lines| - 1])
  }

  /** The sort's comparator: by term, then by id; `idLeq` is `localeCompare(a, b) <= 0`. */
  function ByTermThenId(idLeq: (string, string) -> bool): (Course, Course) -> bool {
    (a: Course, b: Course) => a.term < b.term || (a.term == b.term && idLeq(a.id, b.id))
  }

  /** The whole script without its file I/O: the courses in the order they are written. */
  function Convert(extractionText: string, idLeq: (string, string) -> bool): seq<Course> {
    SortBy(ScanLines(Split(extractionText, '\n')).courses, ByTermThenId(idLeq))
  }

  // ---------------------------------------------------------------- what the loop promises

  /** Each block header sets its block and the block's first term; other lines keep the block. */
  lemma HeaderSetsBlock(st: ScanState, t: string)
    ensures var r := HeaderStep(st, t);
      (Contains(t, "CIENCIAS BÁSICAS") ==> r.block == "CIENCIAS BÁSICAS") &&
      (!Contains(t, "CIENCIAS BÁSICAS") && Contains(t, "CLÍNICAS Y QUIRÚRGICAS") ==>
        r.block == "CIENCIAS CLÍNICAS Y QUIRÚRGICAS") &&
      ((!Contains(t, "CIENCIAS BÁSICAS") && !Contains(t, "CLÍNICAS Y QUIRÚRGICAS") &&
        Contains(t, "INTERNADO ROTATORIO")) ==> r.block == "INTERNADO ROTATORIO") &&
      ((!Contains(t, "CIENCIAS BÁSICAS") && !Contains(t, "CLÍNICAS Y QUIRÚRGICAS") &&
        !Contains(t, "INTERNADO ROTATORIO") && Contains(t, "PROYECTO DE GRADO")) ==>
        r.block == "PROYECTO DE GRADO") &&
      ((!Contains(t, "CIENCIAS BÁSICAS") && !Contains(t, "CLÍNICAS Y QUIRÚRGICAS") &&
        !Contains(t, "INTERNADO ROTATORIO") && !Contains(t, "PROYECTO DE GRADO")) ==>
        r.block == st.block)
  {
  }

  /** The term a header leaves: a `TERM n` number wins over the block's first term. */
  lemma HeaderSetsTerm(st: ScanState, t: string)
    ensures var r := HeaderStep(st, t);
      var readsTerm := !Contains(t, "ELECTIVAS GENERALES") && !Contains(t, "ELECTIVAS PROFESIONALIZANTES") &&
        Contains(t, "TERM ") && TermNumber(t).Some?;
      (readsTerm ==> r.term == TermNumber(t).value.1) &&
      (!readsTerm ==> r.term == BlockStep(st, t).term) &&
      BlockStep(st, t).term == (
        if Contains(t, "CIENCIAS BÁSICAS") then 7
        else if Contains(t, "CLÍNICAS Y QUIRÚRGICAS") then 12
        else if Contains(t, "INTERNADO ROTATORIO") then 16
        else if Contains(t, "PROYECTO DE GRADO") then 18
        else st.term)
  {
  }

  /**
   * The elective type a header leaves: set by the two elective headers, cleared by a line
   * with `TERM `, kept by any other line.
   */
  lemma HeaderSetsElectiveType(st: ScanState, t: string)
    ensures var r := HeaderStep(st, t);
      (Contains(t, "ELECTIVAS GENERALES") ==> r.electiveType == Some("general")) &&
      (!Contains(t, "ELECTIVAS GENERALES") && Contains(t, "ELECTIVAS PROFESIONALIZANTES") ==>
        r.electiveType == Some("professional")) &&
      ((!Contains(t, "ELECTIVAS GENERALES") && !Contains(t, "ELECTIVAS PROFESIONALIZANTES") &&
        Contains(t, "TERM ")) ==> r.electiveType.None?) &&
      ((!Contains(t, "ELECTIVAS GENERALES") && !Contains(t, "ELECTIVAS PROFESIONALIZANTES") &&
        !Contains(t, "TERM ")) ==> r.electiveType == st.electiveType)
  {
  }

  /** A line that starts `TERM ` and a number sets the term to that number. */
  lemma TermLine(t: string)
    requires OccursAt(t, "TERM ", 0) && Run(t, 5, IsDigit) > 0
    ensures TermNumber(t) == Some((0, DigitsAt(t, 5, Run(t, 5, IsDigit))))
  {
  }

  /** The blocks a course can be in. */
  predicate KnownBlock(b: string) {
    b in {"PREMÉDICA", "CIENCIAS BÁSICAS", "CIENCIAS CLÍNICAS Y QUIRÚRGICAS", "INTERNADO ROTATORIO", "PROYECTO DE GRADO"}
  }

  predicate KnownElectiveType(e: Option<string>) {
    e.None? || e.value == "general" || e.value == "professional"
  }

  predicate GoodState(st: ScanState) {
    KnownBlock(st.block) && KnownElectiveType(st.electiveType)
  }

  /** What every produced course satisfies, whatever the text. */
  predicate GoodCourse(c: Course) {
    CourseIdShape(c.id) && KnownBlock(c.block) && KnownElectiveType(c.electiveType) &&
    (c.isElective <==> c.electiveType.Some?) &&
    (c.name == [] || (!IsSpace(c.name[0]) && !IsSpace(c.name[|c.name| - 1]))) && SingleSpaced(c.name) &&
    c.credits >= 0 && c.theoreticalHours >= 0 && c.practicalHours >= 0 &&
    c.description.Some? &&
    (forall x :: x in c.prerequisites ==> x == Trim(x) && x != [] && x != "[]") &&
    (forall x :: x in c.corequisites ==> x == Trim(x) && x != [])
  }

  /**
   * A course read from a line carries the current term, block and elective type, and is
   * elective exactly when an elective header is in force; the internado format has no
   * practical hours.
   */
  lemma CourseFromState(st: ScanState, t: string)
    requires CourseFrom(st, t).Some?
    ensures var c := CourseFrom(st, t).value;
      c.term == st.term && c.block == st.block && c.electiveType == st.electiveType &&
      (c.isElective <==> st.electiveType.Some?) &&
      CourseIdShape(c.id) && c.id == t[..7] &&
      (CourseLineAt(t, RegularFields).None? ==> st.block == "INTERNADO ROTATORIO" && c.practicalHours == 0)
  {
  }

  lemma GoodCourseFrom(st: ScanState, t: string)
    requires GoodState(st) && CourseFrom(st, t).Some?
    ensures GoodCourse(CourseFrom(st, t).value)
  {
    FieldCounts();
    match CourseLineAt(t, RegularFields)
    case Some(l) => GoodMakeCourse(st, l.id, l.rawName, l.numbers[0], l.numbers[1], l.numbers[3], l.rest);
    case None =>
      var l := CourseLineAt(t, InternadoFields).value;
      GoodMakeCourse(st, l.id, l.rawName, l.numbers[0], 0, l.numbers[1], l.rest);
  }

  lemma GoodMakeCourse(st: ScanState, id: string, rawName: string, ht: nat, hp: nat, credits: nat, rest: string)
    requires GoodState(st) && CourseIdShape(id)
    ensures GoodCourse(MakeCourse(st, id, rawName, ht, hp, credits, rest))
  {
    RequisitesGood(rest);
  }

  lemma RequisitesGood(rest: string)
    ensures forall x :: x in ParseRequisites(rest).prerequisites ==> x == Trim(x) && x != [] && x != "[]"
    ensures forall x :: x in ParseRequisites(rest).corequisites ==> x == Trim(x) && x != []
  {
  }

  lemma GoodHeader(st: ScanState, t: string)
    requires GoodState(st)
    ensures GoodState(HeaderStep(st, t))
  {
  }

  /** The loop keeps its state well formed and produces only well-formed courses. */
  lemma {:induction false} ScanGood(lines: seq<string>)
    ensures GoodState(ScanLines(lines).state)
    ensures forall c :: c in ScanLines(lines).courses ==> GoodCourse(c)
    decreases |lines|
  {
    if lines != [] {
      var prev := ScanLines(lines[..|lines| - 1]);
      ScanGood(lines[..|lines| - 1]);
      var t := Trim(lines[|lines| - 1]);
      if IsHeader(t) {
        GoodHeader(prev.state, t);
      } else if CourseFrom(prev.state, t).Some? {
        GoodCourseFrom(prev.state, t);
      }
    }
  }

  /**
   * Every collected course comes from one line that is not a header, read in the state the
   * lines before it left.
   */
  lemma {:induction false} ScanProvenance(lines: seq<string>, c: Course)
    requires c in ScanLines(lines).courses
    ensures exists i :: 0 <= i < |lines| && ReadAt(lines, i) == Some(c)
    decreases |lines|
  {
    var n := |lines| - 1;
    var prev := ScanLines(lines[..n]);
    assert ScanLines(lines) == Step(prev, lines[n]);
    StepCourses(prev, lines[n], c);
    if c in prev.courses {
      ScanProvenance(lines[..n], c);
      var i :| 0 <= i < n && ReadAt(lines[..n], i) == Some(c);
      ReadAtPrefix(lines, n, i);
    } else {
      assert ReadAt(lines, n) == Some(c);
    }
  }

  /** The course line `i` yields, in the state the lines before it leave; headers yield none. */
  function ReadAt(lines: seq<string>, i: nat): Option<Course>
    requires i < |lines|
  {
    if IsHeader(Trim(lines[i])) then None else CourseFrom(ScanLines(lines[..i]).state, Trim(lines[i]))
  }

  lemma ReadAtPrefix(lines: seq<string>, n: nat, i: nat)
    requires i < n <= |lines|
    ensures ReadAt(lines[..n], i) == ReadAt(lines, i)
  {
    assert lines[..n][..i] == lines[..i];
  }

  /** A course after one step was there before or was read from the line. */
  lemma StepCourses(sc: Scanned, line: string, c: Course)
    requires c in Step(sc, line).courses
    ensures c in sc.courses || (!IsHeader(Trim(line)) && CourseFrom(sc.state, Trim(line)) == Some(c))
  {
  }

  /** The comparator orders courses totally when `localeCompare` orders ids totally. */
  lemma ByTermThenIdPreorder(idLeq: (string, string) -> bool)
    requires TotalPreorder(idLeq)
    ensures TotalPreorder(ByTermThenId(idLeq))
  {
    var leq := ByTermThenId(idLeq);
    forall a: Course, b: Course ensures leq(a, b) || leq(b, a) {
      assert idLeq(a.id, b.id) || idLeq(b.id, a.id);
    }
    forall a: Course, b: Course, c: Course | leq(a, b) && leq(b, c) ensures leq(a, c) {
      if a.term == b.term && b.term == c.term {
        assert idLeq(a.id, b.id) && idLeq(b.id, c.id);
      }
    }
  }

  /**
   * The written catalogue is the collected courses reordered, with terms nondecreasing and
   * ids ordered within a term.
   */
  lemma ConvertSorted(extractionText: string, idLeq: (string, string) -> bool)
    requires TotalPreorder(idLeq)
    ensures var r := Convert(extractionText, idLeq);
      multiset(r) == multiset(ScanLines(Split(extractionText, '\n')).courses) &&
      (forall i, j :: 0 <= i < j < |r| ==> r[i].term <= r[j].term) &&
      (forall i, j :: 0 <= i < j < |r| && r[i].term == r[j].term ==> idLeq(r[i].id, r[j].id))
  {
    var collected := ScanLines(Split(extractionText, '\n')).courses;
    ByTermThenIdPreorder(idLeq);
    SortByPermutes(collected, ByTermThenId(idLeq));
    SortBySorted(collected, ByTermThenId(idLeq));
  }
}

/** The script's top-level loop, which updates its three variables line by line. */
module ConvertCoursesScript {
  import opened Wrappers
  import opened Seqs
  import opened Text
  import opened Catalog
  import opened ConvertCourses

  /** The header branch of the loop: the block and term changes, then the elective type and `TERM` changes. */
  method ReadHeader(st: ScanState, trimmedLine: string) returns (next: ScanState)
    ensures next == HeaderStep(st, trimmedLine)
  {
    var currentTerm, currentBlock, currentElectiveType := st.term, st.block, st.electiveType;
    if Contains(trimmedLine, "CIENCIAS BÁSICAS") {
      currentBlock, currentTerm := "CIENCIAS BÁSICAS", 7;
    } else if Contains(trimmedLine, "CLÍNICAS Y QUIRÚRGICAS") {
      currentBlock, currentTerm := "CIENCIAS CLÍNICAS Y QUIRÚRGICAS", 12;
    } else if Contains(trimmedLine, "INTERNADO ROTATORIO") {
      currentBlock, currentTerm := "INTERNADO ROTATORIO", 16;
    } else if Contains(trimmedLine, "PROYECTO DE GRADO") {
      currentBlock, currentTerm := "PROYECTO DE GRADO", 18;
    }
    if Contains(trimmedLine, "ELECTIVAS GENERALES") {
      currentElectiveType := Some("general");
    } else if Contains(trimmedLine, "ELECTIVAS PROFESIONALIZANTES") {
      currentElectiveType := Some("professional");
    } else if Contains(trimmedLine, "TERM ") {
      currentElectiveType := None;
      var termMatch := TermNumber(trimmedLine);
      if termMatch.Some? {
        currentTerm := termMatch.value.1;
      }
    }
    next := ScanState(currentTerm, currentBlock, currentElectiveType);
  }

  /** The loop body for one line: a header moves the state, a course line may add its course. */
  method ReadLine(st: ScanState, collected: seq<Course>, line: string) returns (next: ScanState, kept: seq<Course>)
    ensures Scanned(next, kept) == Step(Scanned(st, collected), line)
  {
    var trimmedLine := Trim(line);
    next, kept := st, collected;
    if IsHeader(trimmedLine) {
      next := ReadHeader(st, trimmedLine);
    } else {
      var course := CourseFrom(st, trimmedLine);
      if course.Some? {
        kept := collected + [course.value];
      }
    }
  }

  method GenerateCourses(extractionText: string, idLeq: (string, string) -> bool) returns (courses: seq<Course>)
    ensures courses == Convert(extractionText, idLeq)
  {
    var lines := Split(extractionText, '\n');
    var currentTerm := 1;
    var currentBlock := "PREMÉDICA";
    var currentElectiveType: Option<string> := None;
    var collected: seq<Course> := [];
    for i := 0 to |lines|
      invariant Scanned(ScanState(currentTerm, currentBlock, currentElectiveType), collected) == ScanLines(lines[..i])
    {
      assert lines[..i + 1][..i] == lines[..i];
      var next;
      next, collected := ReadLine(ScanState(currentTerm, currentBlock, currentElectiveType), collected, lines[i]);
      currentTerm, currentBlock, currentElectiveType := next.term, next.block, next.electiveType;
    }
    assert lines[..|lines|] == lines;
    courses := SortBy(collected, ByTermThenId(idLeq));
  }
}
