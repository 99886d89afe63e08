/**
 * The list operations the planner's code leans on — `filter`, `find`, `findIndex`,
 * `reduce` as a sum, `Array.from(new Set(list))`, a stable `sort` with a comparator —
 * stated once, with the facts about them that the rest of the model uses.
 */
module Seqs {
  import opened Wrappers

  // ---------------------------------------------------------------- filter

  /** `a` can be obtained from `b` by deleting elements: `a` keeps `b`'s order. */
  predicate IsSubsequence<T(==)>(a: seq<T>, b: seq<T>)
    decreases |b|
  {
    a == [] || (b != [] && ((a[0] == b[0] && IsSubsequence(a[1..], b[1..])) || IsSubsequence(a, b[1..])))
  }

  /** `s.filter(p)`: the elements satisfying `p`, in their original order. */
  function Filter<T(==,!new)>(s: seq<T>, p: T -> bool): (r: seq<T>)
    ensures |r| <= |s|
    ensures forall x :: x in r <==> x in s && p(x)
  {
    if s == [] then []
    else if p(s[0]) then [s[0]] + Filter(s[1..], p)
    else Filter(s[1..], p)
  }

  /** The filtered list keeps the order of the list. */
  lemma {:induction false} FilterIsSubsequence<T(!new)>(s: seq<T>, p: T -> bool)
    ensures IsSubsequence(Filter(s, p), s)
  {
    if s != [] {
      FilterIsSubsequence(s[1..], p);
    }
  }

  lemma {:induction false} FilterConcat<T(!new)>(a: seq<T>, b: seq<T>, p: T -> bool)
    ensures Filter(a + b, p) == Filter(a, p) + Filter(b, p)
  {
    if a != [] {
      assert (a + b)[1..] == a[1..] + b;
      FilterConcat(a[1..], b, p);
    } else {
      assert a + b == b;
    }
  }

  /** Filtering a list extended by one element extends the filtered list by at most that element. */
  lemma FilterSnoc<T(!new)>(s: seq<T>, x: T, p: T -> bool)
    ensures Filter(s + [x], p) == Filter(s, p) + (if p(x) then [x] else [])
  {
    FilterConcat(s, [x], p);
    assert Filter([x], p) == (if p(x) then [x] else []);
  }

  /** Filtering by `p` leaves every element that satisfies `p` exactly as often as before. */
  lemma {:induction false} FilterMultiplicity<T(!new)>(s: seq<T>, p: T -> bool, x: T)
    requires p(x)
    ensures multiset(Filter(s, p))[x] == multiset(s)[x]
  {
    if s != [] {
      assert s == [s[0]] + s[1..];
      FilterMultiplicity(s[1..], p, x);
    }
  }

  /** The same list filtered by equivalent predicates. */
  lemma {:induction false} FilterExt<T(!new)>(s: seq<T>, p: T -> bool, q: T -> bool)
    requires forall x :: x in s ==> (p(x) <==> q(x))
    ensures Filter(s, p) == Filter(s, q)
  {
    if s != [] {
      FilterExt(s[1..], p, q);
    }
  }

  /** Filtering twice is filtering once by both tests. */
  lemma {:induction false} FilterTwice<T(!new)>(s: seq<T>, p: T -> bool, q: T -> bool, both: T -> bool)
    requires forall x :: x in s ==> (both(x) <==> p(x) && q(x))
    ensures Filter(Filter(s, p), q) == Filter(s, both)
  {
    if s != [] {
      FilterTwice(s[1..], p, q, both);
    }
  }

  /** A filter that keeps everything keeps the list. */
  lemma {:induction false} FilterAll<T(!new)>(s: seq<T>, p: T -> bool)
    requires forall x :: x in s ==> p(x)
    ensures Filter(s, p) == s
  {
    if s != [] {
      FilterAll(s[1..], p);
    }
  }

  /** A filter that keeps nothing gives the empty list. */
  lemma {:induction false} FilterNone<T(!new)>(s: seq<T>, p: T -> bool)
    requires forall x :: x in s ==> !p(x)
    ensures Filter(s, p) == []
  {
    if s != [] {
      FilterNone(s[1..], p);
    }
  }

  /** The elements of a subsequence are elements of the list. */
  lemma {:induction false} SubsequenceMembers<T>(a: seq<T>, b: seq<T>)
    requires IsSubsequence(a, b)
    ensures forall x :: x in a ==> x in b
    decreases |b|
  {
    if a != [] {
      if a[0] == b[0] && IsSubsequence(a[1..], b[1..]) {
        SubsequenceMembers(a[1..], b[1..]);
        assert forall x :: x in a ==> x == a[0] || x in a[1..];
      } else {
        SubsequenceMembers(a, b[1..]);
      }
    }
  }

  /** A subsequence of a list without duplicates has none. */
  lemma {:induction false} SubsequenceNoDuplicates<T>(a: seq<T>, b: seq<T>)
    requires IsSubsequence(a, b) && NoDuplicates(b)
    ensures NoDuplicates(a)
    decreases |b|
  {
    if a != [] {
      assert NoDuplicates(b[1..]) by {
        forall i, j | 0 <= i < j < |b[1..]| ensures b[1..][i] != b[1..][j] {
          assert b[1..][i] == b[i + 1] && b[1..][j] == b[j + 1];
        }
      }
      if a[0] == b[0] && IsSubsequence(a[1..], b[1..]) {
        SubsequenceNoDuplicates(a[1..], b[1..]);
        SubsequenceMembers(a[1..], b[1..]);
        assert b[0] !in b[1..] by {
          forall k | 0 <= k < |b[1..]| ensures b[1..][k] != b[0] {
            assert b[1..][k] == b[k + 1];
          }
        }
        forall i, j | 0 <= i < j < |a| ensures a[i] != a[j] {
          assert a[j] == a[1..][j - 1];
          if i > 0 {
            assert a[i] == a[1..][i - 1];
          }
        }
      } else {
        SubsequenceNoDuplicates(a, b[1..]);
      }
    }
  }

  // ---------------------------------------------------------------- find

  /** `s.findIndex(p)`: the first index whose element satisfies `p`. */
  function FindIndex<T>(s: seq<T>, p: T -> bool): (r: Option<nat>)
    ensures r.Some? ==> r.value < |s| && p(s[r.value])
    ensures r.Some? ==> forall k :: 0 <= k < r.value ==> !p(s[k])
    ensures r.None? ==> forall k :: 0 <= k < |s| ==> !p(s[k])
  {
    if s == [] then None
    else if p(s[0]) then Some(0)
    else match FindIndex(s[1..], p)
      case None => None
      case Some(k) => Some(k + 1)
  }

  /** `s.find(p)`: the first element satisfying `p`. */
  function Find<T>(s: seq<T>, p: T -> bool): (r: Option<T>)
    ensures r.Some? ==> r.value in s && p(r.value)
    ensures r.None? ==> forall x :: x in s ==> !p(x)
    ensures r.Some? <==> FindIndex(s, p).Some?
  {
    match FindIndex(s, p)
    case None => None
    case Some(k) => Some(s[k])
  }

  /** Lists whose elements pass two tests at the same places have the same first passing index. */
  lemma {:induction false} FindIndexAgrees<A, B>(a: seq<A>, p: A -> bool, b: seq<B>, q: B -> bool)
    requires |a| == |b| && forall i :: 0 <= i < |a| ==> (p(a[i]) <==> q(b[i]))
    ensures FindIndex(a, p) == FindIndex(b, q)
  {
    if a != [] && !p(a[0]) {
      FindIndexAgrees(a[1..], p, b[1..], q);
    }
  }

  /** The first element a filter keeps is the first element `find` returns. */
  lemma {:induction false} FilterHead<T(!new)>(s: seq<T>, p: T -> bool)
    requires Filter(s, p) != []
    ensures Find(s, p) == Some(Filter(s, p)[0])
  {
    if !p(s[0]) {
      FilterHead(s[1..], p);
      assert Find(s[1..], p) == Some(s[1..][FindIndex(s[1..], p).value]);
    }
  }

  /** `s.some(p)`. */
  predicate Any<T>(s: seq<T>, p: T -> bool) {
    exists i :: 0 <= i < |s| && p(s[i])
  }

  // ---------------------------------------------------------------- sum

  /** `s.reduce((total, x) => total + f(x), 0)`, accumulated left to right. */
  function SumOf<T>(s: seq<T>, f: T -> int): int {
    if s == [] then 0 else SumOf(s[..|s| - 1], f) + f(s[|s| - 1])
  }

  lemma {:induction false} SumOfConcat<T>(a: seq<T>, b: seq<T>, f: T -> int)
    ensures SumOf(a + b, f) == SumOf(a, f) + SumOf(b, f)
    decreases |b|
  {
    if b != [] {
      assert (a + b)[..|a + b| - 1] == a + b[..|b| - 1];
      SumOfConcat(a, b[..|b| - 1], f);
    } else {
      assert a + b == a;
    }
  }

  /** A sum over non-negative terms is non-negative. */
  lemma {:induction false} SumOfNonNegative<T>(s: seq<T>, f: T -> int)
    requires forall x :: x in s ==> f(x) >= 0
    ensures SumOf(s, f) >= 0
  {
    if s != [] {
      assert forall x :: x in s[..|s| - 1] ==> x in s;
      SumOfNonNegative(s[..|s| - 1], f);
    }
  }

  /** Sums are monotone in their terms. */
  lemma {:induction false} SumOfMonotone<T>(s: seq<T>, f: T -> int, g: T -> int)
    requires forall x :: x in s ==> f(x) <= g(x)
    ensures SumOf(s, f) <= SumOf(s, g)
  {
    if s != [] {
      assert forall x :: x in s[..|s| - 1] ==> x in s;
      SumOfMonotone(s[..|s| - 1], f, g);
    }
  }

  /** The sum of two term-wise functions is the sum of their sums. */
  lemma {:induction false} SumOfAdd<T>(s: seq<T>, f: T -> int, g: T -> int, h: T -> int)
    requires forall x :: x in s ==> h(x) == f(x) + g(x)
    ensures SumOf(s, h) == SumOf(s, f) + SumOf(s, g)
  {
    if s != [] {
      assert forall x :: x in s[..|s| - 1] ==> x in s;
      SumOfAdd(s[..|s| - 1], f, g, h);
    }
  }

  /** Summing only over the elements `p` keeps is summing the terms that `p` does not zero out. */
  lemma {:induction false} SumOfFilter<T(!new)>(s: seq<T>, p: T -> bool, f: T -> int, g: T -> int)
    requires forall x :: x in s ==> g(x) == (if p(x) then f(x) else 0)
    ensures SumOf(Filter(s, p), f) == SumOf(s, g)
    decreases |s|
  {
    if s != [] {
      var init, last := s[..|s| - 1], s[|s| - 1];
      assert s == init + [last];
      assert forall x :: x in init ==> x in s;
      FilterSnoc(init, last, p);
      SumOfFilter(init, p, f, g);
      SumOfConcat(Filter(init, p), if p(last) then [last] else [], f);
      assert SumOf([last], f) == f(last) by {
        assert [last][..0] == [];
      }
    }
  }

  // ---------------------------------------------------------------- duplicates

  predicate NoDuplicates<T(==)>(s: seq<T>) {
    forall i, j :: 0 <= i < j < |s| ==> s[i] != s[j]
  }

  /** `Array.from(new Set(s))`: the distinct elements of `s`, each at its first occurrence. */
  function Dedup<T(==,!new)>(s: seq<T>): (r: seq<T>)
    ensures NoDuplicates(r)
    ensures forall x :: x in r <==> x in s
    ensures |r| <= |s|
  {
    if s == [] then []
    else
      var d := Dedup(s[..|s| - 1]);
      if s[|s| - 1] in s[..|s| - 1] then d else d + [s[|s| - 1]]
  }

  /** A list without duplicates is its own deduplication. */
  lemma {:induction false} DedupOfDistinct<T(!new)>(s: seq<T>)
    requires NoDuplicates(s)
    ensures Dedup(s) == s
  {
    if s != [] {
      var init := s[..|s| - 1];
      assert NoDuplicates(init);
      DedupOfDistinct(init);
      forall i | 0 <= i < |init| ensures init[i] != s[|s| - 1] {
        assert init[i] == s[i];
      }
      assert init + [s[|s| - 1]] == s;
    }
  }

  // ---------------------------------------------------------------- stable sort

  /** `leq(a, b)` says `a` may stay before `b`: a comparator whose result is `<= 0`. */
  ghost predicate TotalPreorder<T(!new)>(leq: (T, T) -> bool) {
    (forall a, b :: leq(a, b) || leq(b, a))
    && (forall a, b, c :: leq(a, b) && leq(b, c) ==> leq(a, c))
  }

  predicate SortedBy<T>(s: seq<T>, leq: (T, T) -> bool) {
    forall i, j :: 0 <= i < j < |s| ==> leq(s[i], s[j])
  }

  /** Puts `x`, which came earlier in the input, before the first element it may precede. */
  function Insert<T>(x: T, t: seq<T>, leq: (T, T) -> bool): (r: seq<T>)
    ensures |r| == |t| + 1
  {
    if t == [] || leq(x, t[0]) then [x] + t
    else [t[0]] + Insert(x, t[1..], leq)
  }

  lemma {:induction false} InsertPermutes<T>(x: T, t: seq<T>, leq: (T, T) -> bool)
    ensures multiset(Insert(x, t, leq)) == multiset(t) + multiset{x}
  {
    if t != [] && !leq(x, t[0]) {
      InsertPermutes(x, t[1..], leq);
      assert t == [t[0]] + t[1..];
    }
  }

  /**
   * `s.sort(cmp)` for a comparator whose `<= 0` is `leq`: a stable insertion sort, as the
   * sort that JavaScript requires is stable.
   */
  function SortBy<T>(s: seq<T>, leq: (T, T) -> bool): (r: seq<T>)
    ensures |r| == |s|
  {
    if s == [] then [] else Insert(s[0], SortBy(s[1..], leq), leq)
  }

  /** The comparator sort permutes its input. */
  lemma {:induction false} SortByPermutes<T>(s: seq<T>, leq: (T, T) -> bool)
    ensures multiset(SortBy(s, leq)) == multiset(s)
  {
    if s != [] {
      SortByPermutes(s[1..], leq);
      InsertPermutes(s[0], SortBy(s[1..], leq), leq);
      assert s == [s[0]] + s[1..];
    }
  }

  lemma {:induction false} InsertSorted<T(!new)>(x: T, t: seq<T>, leq: (T, T) -> bool)
    requires TotalPreorder(leq) && SortedBy(t, leq)
    ensures SortedBy(Insert(x, t, leq), leq)
  {
    if t != [] && !leq(x, t[0]) {
      var rest := Insert(x, t[1..], leq);
      InsertSorted(x, t[1..], leq);
      InsertPermutes(x, t[1..], leq);
      assert leq(t[0], x);
      forall y | y in rest ensures leq(t[0], y) {
        assert y in multiset(rest);
        assert y == x || y in multiset(t[1..]);
        if y != x {
          var k :| 0 <= k < |t[1..]| && t[1..][k] == y;
          assert t[k + 1] == y;
        }
      }
    }
  }

  /** The comparator sort orders its result. */
  lemma {:induction false} SortBySorted<T(!new)>(s: seq<T>, leq: (T, T) -> bool)
    requires TotalPreorder(leq)
    ensures SortedBy(SortBy(s, leq), leq)
  {
    if s != [] {
      SortBySorted(s[1..], leq);
      InsertSorted(s[0], SortBy(s[1..], leq), leq);
    }
  }

  /** Elements of a list are elements of its sorted copy and back. */
  lemma SortByMembers<T>(s: seq<T>, leq: (T, T) -> bool)
    ensures forall x :: x in SortBy(s, leq) <==> x in s
  {
    var r := SortBy(s, leq);
    SortByPermutes(s, leq);
    forall x ensures x in r <==> x in s {
      assert x in r <==> x in multiset(r);
      assert x in s <==> x in multiset(s);
    }
  }

  /** A subsequence of a sorted list is sorted. */
  lemma {:induction false} SubsequenceSorted<T>(a: seq<T>, b: seq<T>, leq: (T, T) -> bool)
    requires IsSubsequence(a, b) && SortedBy(b, leq)
    ensures SortedBy(a, leq)
    decreases |b|
  {
    if a != [] {
      assert SortedBy(b[1..], leq) by {
        forall i, j | 0 <= i < j < |b[1..]| ensures leq(b[1..][i], b[1..][j]) {
          assert b[1..][i] == b[i + 1] && b[1..][j] == b[j + 1];
        }
      }
      if a[0] == b[0] && IsSubsequence(a[1..], b[1..]) {
        SubsequenceSorted(a[1..], b[1..], leq);
        SubsequenceMembers(a[1..], b[1..]);
        forall i, j | 0 <= i < j < |a| ensures leq(a[i], a[j]) {
          assert a[j] == a[1..][j - 1];
          if i > 0 {
            assert a[i] == a[1..][i - 1];
          } else {
            assert a[j] in b[1..];
            var k :| 0 <= k < |b[1..]| && b[1..][k] == a[j];
            assert b[k + 1] == a[j];
          }
        }
      } else {
        SubsequenceSorted(a, b[1..], leq);
      }
    }
  }

  lemma {:induction false} InsertNoDuplicates<T>(x: T, t: seq<T>, leq: (T, T) -> bool)
    requires NoDuplicates(t) && x !in t
    ensures NoDuplicates(Insert(x, t, leq))
  {
    if t != [] && !leq(x, t[0]) {
      assert NoDuplicates(t[1..]) by {
        forall i, j | 0 <= i < j < |t[1..]| ensures t[1..][i] != t[1..][j] {
          assert t[1..][i] == t[i + 1] && t[1..][j] == t[j + 1];
        }
      }
      assert x !in t[1..];
      InsertNoDuplicates(x, t[1..], leq);
      var rest := Insert(x, t[1..], leq);
      InsertPermutes(x, t[1..], leq);
      assert t[0] !in t[1..] by {
        forall k | 0 <= k < |t[1..]| ensures t[1..][k] != t[0] {
          assert t[1..][k] == t[k + 1];
        }
      }
      assert t[0] !in multiset(rest);
      forall i, j | 0 <= i < j < |[t[0]] + rest| ensures ([t[0]] + rest)[i] != ([t[0]] + rest)[j] {
        if i == 0 {
          assert ([t[0]] + rest)[j] == rest[j - 1];
          assert rest[j - 1] in multiset(rest);
        } else {
          assert ([t[0]] + rest)[i] == rest[i - 1] && ([t[0]] + rest)[j] == rest[j - 1];
        }
      }
    } else {
      forall i, j | 0 <= i < j < |[x] + t| ensures ([x] + t)[i] != ([x] + t)[j] {
        if i == 0 {
          assert ([x] + t)[j] == t[j - 1];
        } else {
          assert ([x] + t)[i] == t[i - 1] && ([x] + t)[j] == t[j - 1];
        }
      }
    }
  }

  /** Sorting a list without duplicates leaves none. */
  lemma {:induction false} SortByNoDuplicates<T>(s: seq<T>, leq: (T, T) -> bool)
    requires NoDuplicates(s)
    ensures NoDuplicates(SortBy(s, leq))
  {
    if s != [] {
      assert NoDuplicates(s[1..]) by {
        forall i, j | 0 <= i < j < |s[1..]| ensures s[1..][i] != s[1..][j] {
          assert s[1..][i] == s[i + 1] && s[1..][j] == s[j + 1];
        }
      }
      SortByNoDuplicates(s[1..], leq);
      assert s[0] !in s[1..] by {
        forall k | 0 <= k < |s[1..]| ensures s[1..][k] != s[0] {
          assert s[1..][k] == s[k + 1];
        }
      }
      SortByPermutes(s[1..], leq);
      assert s[0] !in multiset(SortBy(s[1..], leq));
      InsertNoDuplicates(s[0], SortBy(s[1..], leq), leq);
    }
  }

  /** `(a, b) => key(a) - key(b)` as a comparator on a numeric key. */
  function KeyLeq<T>(key: T -> int): (T, T) -> bool {
    (a: T, b: T) => key(a) <= key(b)
  }

  lemma KeyLeqPreorder<T(!new)>(key: T -> int)
    ensures TotalPreorder(KeyLeq(key))
  {
  }

  /**
   * Sorting by a numeric key a list in which no two elements share a key gives a list
   * strictly ascending in the key, with the same elements.
   */
  /** The keys of `r` strictly increase along it. */
  ghost predicate Ascending<T>(r: seq<T>, key: T -> int) {
    forall i, j :: 0 <= i < j < |r| ==> key(r[i]) < key(r[j])
  }

  lemma SortByKey<T(!new)>(s: seq<T>, key: T -> int)
    requires forall i, j :: 0 <= i < j < |s| ==> key(s[i]) != key(s[j])
    ensures Ascending(SortBy(s, KeyLeq(key)), key)
    ensures forall x :: x in SortBy(s, KeyLeq(key)) <==> x in s
  {
    var r := SortBy(s, KeyLeq(key));
    KeyLeqPreorder(key);
    SortBySorted(s, KeyLeq(key));
    SortByMembers(s, KeyLeq(key));
    assert NoDuplicates(s) by {
      forall i, j | 0 <= i < j < |s| ensures s[i] != s[j] {
        assert key(s[i]) != key(s[j]);
      }
    }
    SortByNoDuplicates(s, KeyLeq(key));
    SortedDistinctAscending(s, key, r);
  }

  /** A list sorted by key, without repeats and drawn from a list whose keys all differ, ascends strictly. */
  lemma SortedDistinctAscending<T>(s: seq<T>, key: T -> int, r: seq<T>)
    requires forall i, j :: 0 <= i < j < |s| ==> key(s[i]) != key(s[j])
    requires SortedBy(r, KeyLeq(key)) && NoDuplicates(r) && forall x :: x in r ==> x in s
    ensures Ascending(r, key)
  {
    forall i, j | 0 <= i < j < |r| ensures key(r[i]) < key(r[j]) {
      assert KeyLeq(key)(r[i], r[j]);
      KeysOfDistinct(s, key, r[i], r[j]);
    }
  }

  /** Two different elements of a list whose keys are all different have different keys. */
  lemma KeysOfDistinct<T>(s: seq<T>, key: T -> int, x: T, y: T)
    requires forall i, j :: 0 <= i < j < |s| ==> key(s[i]) != key(s[j])
    requires x in s && y in s && x != y
    ensures key(x) != key(y)
  {
    var a :| 0 <= a < |s| && s[a] == x;
    var b :| 0 <= b < |s| && s[b] == y;
    if a > b {
      assert key(s[b]) != key(s[a]);
    }
  }

  // ---------------------------------------------------------------- exact selections

  /**
   * `r` is `s` with exactly the elements satisfying `p` kept: in `s`'s order, each as often
   * as in `s`, and nothing else.
   */
  ghost predicate SelectsExactly<T(!new)>(r: seq<T>, s: seq<T>, p: T -> bool) {
    IsSubsequence(r, s)
    && (forall x :: x in r ==> p(x))
    && (forall x :: p(x) ==> multiset(r)[x] == multiset(s)[x])
  }

  lemma FilterSelects<T(!new)>(s: seq<T>, p: T -> bool)
    ensures SelectsExactly(Filter(s, p), s, p)
  {
    FilterIsSubsequence(s, p);
    forall x | p(x) ensures multiset(Filter(s, p))[x] == multiset(s)[x] {
      FilterMultiplicity(s, p, x);
    }
  }

  /**
   * The lists `SelectsExactly` describes are unique: a list with the selection's
   * properties is the filtered list.
   */
  lemma {:induction false} SelectsExactlyUnique<T(!new)>(r: seq<T>, s: seq<T>, p: T -> bool)
    requires SelectsExactly(r, s, p)
    ensures r == Filter(s, p)
    decreases |s|
  {
    if s == [] {
      SubsequenceMembers(r, s);
    } else if r != [] && r[0] == s[0] && IsSubsequence(r[1..], s[1..]) {
      assert r == [r[0]] + r[1..] && s == [s[0]] + s[1..];
      assert p(r[0]) by { assert r[0] in r; }
      forall x | p(x) ensures multiset(r[1..])[x] == multiset(s[1..])[x] {
        assert multiset(r) == multiset{r[0]} + multiset(r[1..]);
        assert multiset(s) == multiset{s[0]} + multiset(s[1..]);
      }
      forall x | x in r[1..] ensures p(x) {
        assert x in r;
      }
      SelectsExactlyUnique(r[1..], s[1..], p);
    } else {
      assert IsSubsequence(r, s[1..]);
      assert s == [s[0]] + s[1..];
      assert multiset(s) == multiset{s[0]} + multiset(s[1..]);
      SubsequenceMultiplicity(r, s[1..], s[0]);
      assert !p(s[0]);
      forall x | p(x) ensures multiset(r)[x] == multiset(s[1..])[x] {
        assert x != s[0];
      }
      SelectsExactlyUnique(r, s[1..], p);
    }
  }

  /** A subsequence holds each element at most as often as the list it comes from. */
  lemma {:induction false} SubsequenceMultiplicity<T>(a: seq<T>, b: seq<T>, x: T)
    requires IsSubsequence(a, b)
    ensures multiset(a)[x] <= multiset(b)[x]
    decreases |b|
  {
    if a != [] {
      assert b == [b[0]] + b[1..];
      assert multiset(b) == multiset{b[0]} + multiset(b[1..]);
      if a[0] == b[0] && IsSubsequence(a[1..], b[1..]) {
        assert a == [a[0]] + a[1..];
        assert multiset(a) == multiset{a[0]} + multiset(a[1..]);
        SubsequenceMultiplicity(a[1..], b[1..], x);
      } else {
        SubsequenceMultiplicity(a, b[1..], x);
      }
    }
  }

  /** Concatenation regroups freely. */
  lemma AppendAssoc<T>(a: seq<T>, b: seq<T>, c: seq<T>)
    ensures a + (b + c) == (a + b) + c
  {
  }
}
