/**
 * The pairwise scan the planner's callers write as
 * `for (i = 0; i < n; i++) for (j = i + 1; j < n; j++) if (test(x[i], x[j])) push(...)`:
 * the index pairs it visits, in visiting order, and the messages it collects.
 */
module Pairs {
  import opened Wrappers

  /** The pairs `(i, k)` with `i < k < j` that row `i` of the scan visits before column `j`. */
  function Row(i: nat, j: nat): (r: seq<(nat, nat)>)
    ensures |r| == if j > i + 1 then j - i - 1 else 0
    decreases j
  {
    if j <= i + 1 then [] else Row(i, j - 1) + [(i, j - 1)]
  }

  /** The pairs visited by the first `i` rows of the scan over `n` elements. */
  function Rows(n: nat, i: nat): seq<(nat, nat)> {
    if i == 0 then [] else Rows(n, i - 1) + Row(i - 1, n)
  }

  /** Every pair the full scan over `n` elements visits, in visiting order. */
  function AllPairs(n: nat): seq<(nat, nat)> {
    Rows(n, n)
  }

  /** Lexicographic order on index pairs. */
  predicate Before(p: (nat, nat), q: (nat, nat)) {
    p.0 < q.0 || (p.0 == q.0 && p.1 < q.1)
  }

  lemma {:induction false} RowShape(i: nat, j: nat)
    ensures forall t :: 0 <= t < |Row(i, j)| ==> Row(i, j)[t] == (i, i + 1 + t)
    decreases j
  {
    if j > i + 1 {
      RowShape(i, j - 1);
    }
  }

  /**
   * The first `i` rows visit exactly the pairs `(a, b)` with `a < i` and `a < b < n`,
   * each once and in strictly increasing lexicographic order.
   */
  lemma {:induction false} RowsShape(n: nat, i: nat)
    requires i <= n
    ensures forall p :: p in Rows(n, i) <==> p.0 < i && p.0 < p.1 < n
    ensures forall s, t :: 0 <= s < t < |Rows(n, i)| ==> Before(Rows(n, i)[s], Rows(n, i)[t])
    ensures forall t :: 0 <= t < |Rows(n, i)| ==> Rows(n, i)[t].0 < i
  {
    if i > 0 {
      RowsShape(n, i - 1);
      RowShape(i - 1, n);
      var a, b := Rows(n, i - 1), Row(i - 1, n);
      forall p: (nat, nat) ensures p in a + b <==> p.0 < i && p.0 < p.1 < n {
        if p.0 == i - 1 && p.0 < p.1 < n {
          assert b[p.1 - i] == p;
        }
      }
      forall s, t | 0 <= s < t < |a + b| ensures Before((a + b)[s], (a + b)[t]) {
        if s < |a| && t >= |a| {
          assert (a + b)[t] == b[t - |a|];
        }
      }
    }
  }

  /** A pair `(a, b)` is visited by the scan over `n` elements iff `a < b < n`, and only once. */
  lemma AllPairsShape(n: nat)
    ensures forall p :: p in AllPairs(n) <==> p.0 < p.1 < n
    ensures forall s, t :: 0 <= s < t < |AllPairs(n)| ==> AllPairs(n)[s] != AllPairs(n)[t]
    ensures forall t :: 0 <= t < |AllPairs(n)| ==> AllPairs(n)[t].0 < AllPairs(n)[t].1
  {
    RowsShape(n, n);
    forall t | 0 <= t < |AllPairs(n)| ensures AllPairs(n)[t].0 < AllPairs(n)[t].1 {
      assert AllPairs(n)[t] in AllPairs(n);
    }
  }

  /** The messages the scan pushes, visiting `ps` in order, for a test that may report one. */
  function Collect<T, M>(xs: seq<T>, test: (T, T) -> Option<M>, ps: seq<(nat, nat)>): seq<M>
    requires forall t :: 0 <= t < |ps| ==> ps[t].0 < |xs| && ps[t].1 < |xs|
  {
    if ps == [] then []
    else
      var p := ps[|ps| - 1];
      Collect(xs, test, ps[..|ps| - 1]) + match test(xs[p.0], xs[p.1]) { case Some(m) => [m] case None => [] }
  }

  lemma {:induction false} CollectConcat<T, M>(xs: seq<T>, test: (T, T) -> Option<M>, a: seq<(nat, nat)>, b: seq<(nat, nat)>)
    requires forall t :: 0 <= t < |a| ==> a[t].0 < |xs| && a[t].1 < |xs|
    requires forall t :: 0 <= t < |b| ==> b[t].0 < |xs| && b[t].1 < |xs|
    ensures Collect(xs, test, a + b) == Collect(xs, test, a) + Collect(xs, test, b)
    decreases |b|
  {
    if b == [] {
      assert a + b == a;
    } else {
      assert (a + b)[..|a + b| - 1] == a + b[..|b| - 1];
      CollectConcat(xs, test, a, b[..|b| - 1]);
    }
  }

  /**
   * A message is collected for each visited pair whose test reports one, in visiting
   * order: `Collect` over pairs is the list of reports of those pairs.
   */
  lemma {:induction false} CollectMember<T, M>(xs: seq<T>, test: (T, T) -> Option<M>, ps: seq<(nat, nat)>, m: M)
    requires forall t :: 0 <= t < |ps| ==> ps[t].0 < |xs| && ps[t].1 < |xs|
    ensures m in Collect(xs, test, ps) <==>
      exists t :: 0 <= t < |ps| && test(xs[ps[t].0], xs[ps[t].1]) == Some(m)
    decreases |ps|
  {
    if ps != [] {
      CollectMember(xs, test, ps[..|ps| - 1], m);
      var p := ps[|ps| - 1];
      if exists t :: 0 <= t < |ps| && test(xs[ps[t].0], xs[ps[t].1]) == Some(m) {
        var t :| 0 <= t < |ps| && test(xs[ps[t].0], xs[ps[t].1]) == Some(m);
        if t < |ps| - 1 {
          assert ps[..|ps| - 1][t] == ps[t];
        }
      }
    }
  }

  /** What the scan pushes for the pair `(i, j)`: the test's message, if it reports one. */
  function Report<T, M>(xs: seq<T>, test: (T, T) -> Option<M>, i: nat, j: nat): seq<M>
    requires i < |xs| && j < |xs|
  {
    match test(xs[i], xs[j]) { case Some(m) => [m] case None => [] }
  }

  ghost predicate InRangeAt(n: nat, i: nat, j: nat) {
    var ps := Rows(n, i) + Row(i, j); forall t :: 0 <= t < |ps| ==> ps[t].0 < n && ps[t].1 < n
  }

  ghost predicate InRangeAll(n: nat, i: nat) {
    var ps := Rows(n, i); forall t :: 0 <= t < |ps| ==> ps[t].0 < n && ps[t].1 < n
  }

  lemma InRangeRows(n: nat, i: nat)
    requires i <= n
    ensures InRangeAll(n, i)
  {
    RowsShape(n, i);
    var a := Rows(n, i);
    assert forall t :: 0 <= t < |a| ==> a[t] in a;
  }

  lemma InRangeRow(n: nat, i: nat, j: nat)
    requires i < n && j <= n
    ensures InRangeAt(n, i, j)
  {
    InRangeRows(n, i);
    RowShape(i, j);
  }

  /** One more column of row `i`: the scan's state grows by the report for `(i, j)`. */
  lemma ScanStep<T, M>(xs: seq<T>, test: (T, T) -> Option<M>, i: nat, j: nat)
    requires i < j < |xs|
    requires InRangeAt(|xs|, i, j + 1)
    ensures InRangeAt(|xs|, i, j)
    ensures Collect(xs, test, Rows(|xs|, i) + Row(i, j + 1))
      == Collect(xs, test, Rows(|xs|, i) + Row(i, j)) + Report(xs, test, i, j)
  {
    var before := Rows(|xs|, i) + Row(i, j);
    assert Rows(|xs|, i) + Row(i, j + 1) == before + [(i, j)];
    assert (before + [(i, j)])[..|before|] == before;
  }

  /** Messages of the whole scan, the specification of the callers' nested loops. */
  function Scan<T, M>(xs: seq<T>, test: (T, T) -> Option<M>): seq<M> {
    RowsShape(|xs|, |xs|);
    assert forall t :: 0 <= t < |AllPairs(|xs|)| ==> AllPairs(|xs|)[t] in AllPairs(|xs|);
    Collect(xs, test, AllPairs(|xs|))
  }

  /**
   * The scan reports a message exactly when some pair `i < j` of distinct positions tests
   * positive with that message: no element is paired with itself.
   */
  lemma ScanMember<T, M>(xs: seq<T>, test: (T, T) -> Option<M>, m: M)
    ensures m in Scan(xs, test) <==>
      exists i, j :: 0 <= i < j < |xs| && test(xs[i], xs[j]) == Some(m)
  {
    var ps := AllPairs(|xs|);
    RowsShape(|xs|, |xs|);
    assert forall t :: 0 <= t < |ps| ==> ps[t] in ps;
    CollectMember(xs, test, ps, m);
    if exists i, j :: 0 <= i < j < |xs| && test(xs[i], xs[j]) == Some(m) {
      var i, j :| 0 <= i < j < |xs| && test(xs[i], xs[j]) == Some(m);
      assert (i, j) in ps;
      var t :| 0 <= t < |ps| && ps[t] == (i, j);
    }
  }

  /** The nested loop itself, for callers without more state: it computes `Scan`. */
  method ScanLoop<T, M>(xs: seq<T>, test: (T, T) -> Option<M>) returns (msgs: seq<M>)
    ensures msgs == Scan(xs, test)
  {
    msgs := [];
    var i := 0;
    InRangeRows(|xs|, 0);
    while i < |xs|
      invariant 0 <= i <= |xs|
      invariant InRangeAll(|xs|, i) && msgs == Collect(xs, test, Rows(|xs|, i))
    {
      msgs := ScanRow(xs, test, i, msgs);
      InRangeRows(|xs|, i + 1);
      i := i + 1;
    }
  }

  /** The inner loop: row `i` of the scan appended to the messages of the rows before it. */
  method ScanRow<T, M>(xs: seq<T>, test: (T, T) -> Option<M>, i: nat, prior: seq<M>) returns (msgs: seq<M>)
    requires i < |xs| && InRangeAll(|xs|, i) && prior == Collect(xs, test, Rows(|xs|, i))
    ensures InRangeAt(|xs|, i, |xs|) && msgs == Collect(xs, test, Rows(|xs|, i) + Row(i, |xs|))
  {
    msgs := prior;
    var j := i + 1;
    InRangeRow(|xs|, i, j);
    assert Rows(|xs|, i) + Row(i, j) == Rows(|xs|, i);
    while j < |xs|
      invariant i + 1 <= j <= |xs|
      invariant InRangeAt(|xs|, i, j)
      invariant msgs == Collect(xs, test, Rows(|xs|, i) + Row(i, j))
    {
      InRangeRow(|xs|, i, j + 1);
      ScanStep(xs, test, i, j);
      msgs := msgs + Report(xs, test, i, j);
      j := j + 1;
    }
  }
}
