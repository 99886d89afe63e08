/**
 * Character classes and string helpers with JavaScript's meaning: `\d`, `\s`, `[A-Z]`,
 * `String.prototype.trim`, `split`, `includes`, `indexOf`, `padStart(2, '0')`,
 * number-to-text and `Number(text)`, and the truncating `%` operator.
 */
module Text {
  import opened Wrappers

  /** What `\d` matches: an ASCII decimal digit. */
  predicate IsDigit(c: char) { '0' <= c <= '9' }

  /** What a case-sensitive `[A-Z]` matches. */
  predicate IsUpper(c: char) { 'A' <= c <= 'Z' }

  /** What `[A-Z]` matches under the `i` flag (non-Unicode mode folds only ASCII letters). */
  predicate IsAsciiLetter(c: char) { 'A' <= c <= 'Z' || 'a' <= c <= 'z' }

  /** ECMAScript WhiteSpace and LineTerminator: what `\s` matches and what `trim` removes. */
  predicate IsSpace(c: char) {
    var n := c as int;
    n == 0x09 || n == 0x0A || n == 0x0B || n == 0x0C || n == 0x0D || n == 0x20 || n == 0xA0
    || n == 0x1680 || (0x2000 <= n <= 0x200A) || n == 0x2028 || n == 0x2029 || n == 0x202F
    || n == 0x205F || n == 0x3000 || n == 0xFEFF
  }

  /** The ECMAScript LineTerminator characters: what `.` does not match. */
  predicate IsLineTerminator(c: char) {
    c == '\n' || c == '\r' || c == '\U{2028}' || c == '\U{2029}'
  }

  function NotLineTerminator(): char -> bool {
    c => !IsLineTerminator(c)
  }

  /** Length of the longest run of characters satisfying `p` that starts at index `i`. */
  function Run(s: string, i: nat, p: char -> bool): (n: nat)
    requires i <= |s|
    ensures i + n <= |s|
    ensures forall k :: i <= k < i + n ==> p(s[k])
    ensures i + n == |s| || !p(s[i + n])
    decreases |s| - i
  {
    if i < |s| && p(s[i]) then 1 + Run(s, i + 1, p) else 0
  }

  /**
   * The leftmost position in `p..end` at which a pattern matches, and its captures: what
   * a non-global `match` of a pattern without `^` finds when `at(q)` says whether the
   * pattern matches starting at `q`.
   */
  function Leftmost<M>(at: nat -> Option<M>, p: nat, end: nat): (r: Option<(nat, M)>)
    ensures r.Some? ==> p <= r.value.0 <= end && at(r.value.0) == Some(r.value.1)
    ensures r.Some? ==> forall q :: p <= q < r.value.0 ==> at(q).None?
    ensures r.None? ==> forall q :: p <= q <= end ==> at(q).None?
    decreases end - p
  {
    if p > end then None
    else match at(p)
      case Some(m) => Some((p, m))
      case None => Leftmost(at, p + 1, end)
  }

  /** A run of `n` characters satisfying `p`, followed by the end or by a character outside `p`, is the run at `i`. */
  lemma RunExact(s: string, i: nat, n: nat, p: char -> bool)
    requires i + n <= |s|
    requires forall k :: i <= k < i + n ==> p(s[k])
    requires i + n == |s| || !p(s[i + n])
    ensures Run(s, i, p) == n
  {
  }

  // ---------------------------------------------------------------- trimming

  function TrimStart(s: string): (r: string)
    ensures |r| <= |s| && r == s[|s| - |r|..]
    ensures r == [] || !IsSpace(r[0])
    ensures forall k :: 0 <= k < |s| - |r| ==> IsSpace(s[k])
  {
    if s != [] && IsSpace(s[0]) then TrimStart(s[1..]) else s
  }

  function TrimEnd(s: string): (r: string)
    ensures |r| <= |s| && r == s[..|r|]
    ensures r == [] || !IsSpace(r[|r| - 1])
    ensures forall k :: |r| <= k < |s| ==> IsSpace(s[k])
  {
    if s != [] && IsSpace(s[|s| - 1]) then TrimEnd(s[..|s| - 1]) else s
  }

  /** `s.trim()`: the text between the outer runs of white space. */
  function Trim(s: string): (r: string)
    ensures |r| <= |s|
    ensures r == [] || (!IsSpace(r[0]) && !IsSpace(r[|r| - 1]))
    ensures (s == [] || (!IsSpace(s[0]) && !IsSpace(s[|s| - 1]))) ==> r == s
  {
    var t := TrimStart(s);
    assert forall i :: 0 <= i < |t| ==> t[i] == s[|s| - |t| + i];
    TrimEnd(t)
  }

  predicate AllSpaces(w: string) {
    forall k :: 0 <= k < |w| ==> IsSpace(w[k])
  }

  lemma {:induction false} TrimStartPrefix(w: string, a: string)
    requires AllSpaces(w)
    ensures TrimStart(w + a) == TrimStart(a)
    decreases |w|
  {
    if w == [] {
      assert w + a == a;
    } else {
      assert (w + a)[0] == w[0];
      assert (w + a)[1..] == w[1..] + a;
      TrimStartPrefix(w[1..], a);
    }
  }

  lemma {:induction false} TrimEndSuffix(a: string, w: string)
    requires AllSpaces(w)
    ensures TrimEnd(a + w) == TrimEnd(a)
    decreases |w|
  {
    if w == [] {
      assert a + w == a;
    } else {
      assert (a + w)[|a + w| - 1] == w[|w| - 1];
      assert (a + w)[..|a + w| - 1] == a + w[..|w| - 1];
      TrimEndSuffix(a, w[..|w| - 1]);
    }
  }

  /** Trailing white space leaves only white space or keeps it after the trimmed start. */
  lemma {:induction false} TrimStartSuffix(a: string, w: string)
    requires AllSpaces(w)
    ensures TrimStart(a + w) == TrimStart(a) + w || (TrimStart(a) == [] && AllSpaces(TrimStart(a + w)))
    decreases |a|
  {
    if a == [] {
      assert a + w == w;
    } else {
      assert (a + w)[0] == a[0];
      if IsSpace(a[0]) {
        assert (a + w)[1..] == a[1..] + w;
        TrimStartSuffix(a[1..], w);
      }
    }
  }

  /** White space around a text does not change it once trimmed. */
  lemma TrimSpacesAround(w1: string, a: string, w2: string)
    requires AllSpaces(w1) && AllSpaces(w2)
    ensures Trim(w1 + a + w2) == Trim(a)
  {
    assert w1 + a + w2 == w1 + (a + w2);
    TrimStartPrefix(w1, a + w2);
    TrimStartSuffix(a, w2);
    if TrimStart(a + w2) == TrimStart(a) + w2 {
      TrimEndSuffix(TrimStart(a), w2);
    } else {
      assert TrimStart(a + w2) == [];
    }
  }

  /** Trimming twice is trimming once. */
  lemma TrimIdempotent(s: string)
    ensures Trim(Trim(s)) == Trim(s)
  {
  }

  // ---------------------------------------------------------------- case

  /**
   * `toLowerCase` on one character, for ASCII and the Latin-1 capitals (the accented
   * capitals of Spanish course names); other scripts are left as they are.
   */
  function LowerChar(c: char): (r: char)
    ensures 'A' <= c <= 'Z' ==> r as int == c as int + 32
    ensures !('A' <= r <= 'Z')
  {
    var n := c as int;
    if (65 <= n <= 90) || (0xC0 <= n <= 0xDE && n != 0xD7) then (n + 32) as char else c
  }

  /** `s.toLowerCase()`, character by character: as long as `s`, and with no ASCII capital left. */
  function Lower(s: string): (r: string)
    ensures |r| == |s|
    ensures forall i :: 0 <= i < |r| ==> !('A' <= r[i] <= 'Z')
  {
    seq(|s|, i requires 0 <= i < |s| => LowerChar(s[i]))
  }

  lemma LowerIdempotent(s: string)
    ensures Lower(Lower(s)) == Lower(s)
  {
    forall i | 0 <= i < |s| ensures LowerChar(LowerChar(s[i])) == LowerChar(s[i]) {
      var n := s[i] as int;
      if (65 <= n <= 90) || (0xC0 <= n <= 0xDE && n != 0xD7) {
        assert LowerChar(s[i]) as int == n + 32;
      }
    }
  }

  // ---------------------------------------------------------------- searching

  predicate OccursAt(s: string, sub: string, k: nat) {
    k + |sub| <= |s| && s[k..k + |sub|] == sub
  }

  /** `s.indexOf(sub, from)`: the first position at or after `from` where `sub` occurs. */
  function IndexOf(s: string, sub: string, from: nat): (r: Option<nat>)
    ensures r.Some? ==> from <= r.value && OccursAt(s, sub, r.value)
    ensures r.Some? ==> forall k :: from <= k < r.value ==> !OccursAt(s, sub, k)
    ensures r.None? ==> forall k :: from <= k ==> !OccursAt(s, sub, k)
    decreases |s| - from
  {
    if from + |sub| > |s| then None
    else if s[from..from + |sub|] == sub then Some(from)
    else IndexOf(s, sub, from + 1)
  }

  /** `s.includes(sub)`. */
  predicate Contains(s: string, sub: string) {
    IndexOf(s, sub, 0).Some?
  }

  /** `includes` holds exactly when the text occurs somewhere. */
  lemma ContainsOccurs(s: string, sub: string)
    ensures Contains(s, sub) <==> exists k: nat :: OccursAt(s, sub, k)
  {
    if Contains(s, sub) {
      var k := IndexOf(s, sub, 0).value;
      assert OccursAt(s, sub, k);
    }
  }

  /** `s.startsWith(p)`. */
  predicate StartsWith(s: string, p: string) {
    |p| <= |s| && s[..|p|] == p
  }

  // ---------------------------------------------------------------- splitting

  /** The position of the first `c` in `s`, if any. */
  function FirstIndexOfChar(s: string, c: char): (r: Option<nat>)
    ensures r.Some? <==> c in s
    ensures r.Some? ==> r.value < |s| && s[r.value] == c
    ensures r.Some? ==> forall j :: 0 <= j < r.value ==> s[j] != c
  {
    if s == [] then None
    else if s[0] == c then Some(0)
    else match FirstIndexOfChar(s[1..], c)
      case None => None
      case Some(k) => Some(k + 1)
  }

  /** `s.split(sep)` for a one-character separator: never empty, pieces free of `sep`. */
  function Split(s: string, sep: char): (parts: seq<string>)
    ensures |parts| >= 1
    ensures forall i :: 0 <= i < |parts| ==> sep !in parts[i]
    ensures sep !in s ==> parts == [s]
    decreases |s|
  {
    match FirstIndexOfChar(s, sep)
    case None => [s]
    case Some(k) => [s[..k]] + Split(s[k + 1..], sep)
  }

  /** Splitting at the one separator between two separator-free texts gives the two texts. */
  lemma SplitAround(a: string, b: string, sep: char)
    requires sep !in a && sep !in b
    ensures Split(a + [sep] + b, sep) == [a, b]
  {
    var s := a + [sep] + b;
    assert s[|a|] == sep;
    assert forall j :: 0 <= j < |a| ==> s[j] == a[j];
    assert s[..|a|] == a;
    var k := FirstIndexOfChar(s, sep).value;
    assert k == |a|;
    assert s[k + 1..] == b;
  }

  /** `parts.join(sep)`. */
  function Join(parts: seq<string>, sep: string): string {
    if |parts| == 0 then ""
    else if |parts| == 1 then parts[0]
    else parts[0] + sep + Join(parts[1..], sep)
  }

  // ---------------------------------------------------------------- numbers as text

  function DigitChar(d: nat): (c: char)
    requires d < 10
    ensures IsDigit(c) && c as int - '0' as int == d
  {
    ('0' as int + d) as char
  }

  predicate AllDigits(s: string) {
    forall i :: 0 <= i < |s| ==> IsDigit(s[i])
  }

  /** The characters between `i` and `j` are digits, so the slice is a string of digits. */
  lemma AllDigitsSlice(s: string, i: nat, j: nat)
    requires i <= j <= |s| && forall k :: i <= k < j ==> IsDigit(s[k])
    ensures AllDigits(s[i..j])
  {
    assert forall k :: 0 <= k < j - i ==> s[i..j][k] == s[i + k];
  }

  /** The value of the `n` digits at `i`. */
  function DigitsAt(s: string, i: nat, n: nat): nat
    requires i + n <= |s| && forall k :: i <= k < i + n ==> IsDigit(s[k])
  {
    AllDigitsSlice(s, i, i + n);
    DigitsValue(s[i..i + n])
  }

  /** The digits at `i` are worth what the text they spell is worth. */
  lemma DigitsAtSlice(s: string, i: nat, n: nat, d: string)
    requires i + n <= |s| && forall k :: i <= k < i + n ==> IsDigit(s[k])
    requires s[i..i + n] == d
    ensures DigitsAt(s, i, n) == DigitsValue(d)
  {
  }

  /** `n.toString()` for a non-negative integer. */
  function NatToString(n: nat): (r: string)
    ensures |r| >= 1 && AllDigits(r)
    ensures n < 10 <==> |r| == 1
    decreases n
  {
    if n < 10 then [DigitChar(n)] else NatToString(n / 10) + [DigitChar(n % 10)]
  }

  /** `i.toString()` for any integer. */
  function IntToString(i: int): string {
    if i < 0 then "-" + NatToString(-i) else NatToString(i)
  }

  /** The value of a string of decimal digits: `parseInt` of such a string. */
  function DigitsValue(s: string): (v: nat)
    requires AllDigits(s)
    decreases |s|
  {
    if s == [] then 0
    else DigitsValue(s[..|s| - 1]) * 10 + (s[|s| - 1] as int - '0' as int)
  }

  /** Reading the digits of a number gives the number back. */
  lemma {:induction false} DigitsValueOfNatToString(n: nat)
    ensures DigitsValue(NatToString(n)) == n
    decreases n
  {
    if n >= 10 {
      var r := NatToString(n);
      assert r[..|r| - 1] == NatToString(n / 10);
      DigitsValueOfNatToString(n / 10);
    }
  }

  /** Leading zeros do not change the value. */
  lemma {:induction false} DigitsValueLeadingZero(s: string)
    requires AllDigits(s)
    ensures AllDigits("0" + s) && DigitsValue("0" + s) == DigitsValue(s)
    decreases |s|
  {
    if s != [] {
      var t := "0" + s;
      assert t[..|t| - 1] == "0" + s[..|s| - 1];
      DigitsValueLeadingZero(s[..|s| - 1]);
    }
  }

  /** `s.padStart(2, '0')`. */
  function PadStart2(s: string): (r: string)
    ensures |s| >= 2 ==> r == s
    ensures |s| < 2 ==> |r| == 2
  {
    if |s| >= 2 then s else if |s| == 1 then "0" + s else "00"
  }

  /** A number of at most two digits, padded, is two digits that read back as the number. */
  lemma PadStart2Nat(n: nat)
    requires n < 100
    ensures var r := PadStart2(NatToString(n));
      |r| == 2 && AllDigits(r) && DigitsValue(r) == n
  {
    DigitsValueOfNatToString(n);
    if n < 10 {
      DigitsValueLeadingZero(NatToString(n));
    } else {
      assert NatToString(n / 10) == [DigitChar(n / 10)];
    }
  }

  /** Two digits read as a number and printed padded are the same two digits. */
  lemma TwoDigitsRoundTrip(t: string)
    requires |t| == 2 && AllDigits(t)
    ensures PadStart2(NatToString(DigitsValue(t))) == t
  {
    var v := DigitsValue(t);
    assert t[..1][..0] == [];
    assert DigitsValue(t[..1]) == t[0] as int - '0' as int;
    assert v == (t[0] as int - '0' as int) * 10 + (t[1] as int - '0' as int);
    if v < 10 {
      assert t[0] == '0';
      assert NatToString(v) == [t[1]];
    } else {
      assert NatToString(v / 10) == [DigitChar(v / 10)];
      assert NatToString(v) == [DigitChar(v / 10), DigitChar(v % 10)];
    }
  }

  /** A string of digits holds no character outside `\d`, a separator such as `:` in particular. */
  lemma DigitsExclude(s: string, c: char)
    requires AllDigits(s) && !IsDigit(c)
    ensures c !in s
  {
    forall i | 0 <= i < |s|
      ensures s[i] != c
    {
      assert IsDigit(s[i]);
    }
  }

  /** A number below 100, printed and padded to two, reads back with `Number` as the number. */
  lemma PaddedNumber(n: nat)
    requires n < 100
    ensures var r := PadStart2(NatToString(n));
      |r| == 2 && AllDigits(r) && NumberValue(r) == Some(n)
  {
    PadStart2Nat(n);
    NumberValueOfDigits(PadStart2(NatToString(n)));
  }

  /** The value of two digits, tens first. */
  function TwoDigitsValue(t: string): nat
    requires |t| == 2 && AllDigits(t)
  {
    (t[0] as int - '0' as int) * 10 + (t[1] as int - '0' as int)
  }

  /** Two digits read with `Number` give their value, which printed and padded gives them back. */
  lemma TwoDigitsRead(t: string)
    requires |t| == 2 && AllDigits(t)
    ensures NumberValue(t) == Some(TwoDigitsValue(t))
    ensures PadStart2(NatToString(TwoDigitsValue(t))) == t
  {
    assert t[..1][..0] == [];
    assert DigitsValue(t[..1]) == t[0] as int - '0' as int;
    assert DigitsValue(t) == TwoDigitsValue(t);
    NumberValueOfDigits(t);
    TwoDigitsRoundTrip(t);
  }

  /** JavaScript's `a % b`: the remainder takes the sign of the dividend. */
  function JsRem(a: int, b: int): (r: int)
    requires b > 0
    ensures a >= 0 ==> r == a % b
    ensures -b < r < b
  {
    if a >= 0 then a % b else -((-a) % b)
  }

  /**
   * `Number(text)` for the texts the planner's inputs hold: surrounding white space is
   * ignored, blank text is 0, an optional sign followed by decimal digits is that integer,
   * and anything else is NaN (None).
   */
  function NumberValue(s: string): Option<int> {
    var t := Trim(s);
    if t == [] then Some(0)
    else if AllDigits(t) then Some(DigitsValue(t))
    else if |t| > 1 && (t[0] == '-' || t[0] == '+') && AllDigits(t[1..]) then
      Some(if t[0] == '-' then -(DigitsValue(t[1..]) as int) else DigitsValue(t[1..]))
    else None
  }

  /** A string of digits, in particular a printed number, reads back as its value. */
  lemma NumberValueOfDigits(s: string)
    requires AllDigits(s)
    ensures NumberValue(s) == Some(DigitsValue(s))
  {
    if s != [] {
      assert !IsSpace(s[0]);
      assert TrimStart(s) == s;
      assert !IsSpace(s[|s| - 1]);
      assert TrimEnd(s) == s;
    }
  }

  lemma NumberValueOfNatToString(n: nat)
    ensures NumberValue(NatToString(n)) == Some(n)
  {
    NumberValueOfDigits(NatToString(n));
    DigitsValueOfNatToString(n);
  }
}
