/** Completion statistics of an archived day, as the detail panel and the
    calendar cell compute them from the `top3-${i}` checklist flags. */
module DayStats {
  import opened Optional
  import opened Decimal
  import opened HistoryTypes

  /** Checklist key of top-priority item `i`: `top3-${i}`. The index can
      be read back from the key. */
  function TopKey(i: nat): (k: string)
    ensures |k| >= 6 && k[..5] == "top3-"
    ensures ParseNat(k[5..]) == Some(i)
  {
    NatToStringRoundTrip(i);
    "top3-" + NatToString(i)
  }

  lemma TopKeyInjective(i: nat, j: nat)
    ensures TopKey(i) == TopKey(j) <==> i == j
  {
    if TopKey(i) == TopKey(j) {
      assert TopKey(i)[5..] == NatToString(i);
      assert TopKey(j)[5..] == NatToString(j);
      NatToStringInjective(i, j);
    }
  }

  /** `checks[\`top3-${i}\`]` is truthy: an absent key reads as `undefined`,
      which counts as not done. */
  predicate IsChecked(checks: map<string, bool>, i: nat) {
    TopKey(i) in checks && checks[TopKey(i)]
  }

  /** `top3.filter((_, i) => checks[\`top3-${i}\`]).length` for a list of
      length `n`: the filter looks only at the index. */
  function CountChecked(checks: map<string, bool>, n: nat): (done: nat)
    ensures done <= n
  {
    if n == 0 then 0
    else CountChecked(checks, n - 1) + (if IsChecked(checks, n - 1) then 1 else 0)
  }

  /** Reference definition: the set of indices below `n` that are done. */
  function CheckedIndices(checks: map<string, bool>, n: nat): set<nat> {
    set i: nat | i < n && IsChecked(checks, i)
  }

  lemma {:induction false} CountIsCardinality(checks: map<string, bool>, n: nat)
    ensures CountChecked(checks, n) == |CheckedIndices(checks, n)|
  {
    if n > 0 {
      CountIsCardinality(checks, n - 1);
      var prev := CheckedIndices(checks, n - 1);
      if IsChecked(checks, n - 1) {
        assert CheckedIndices(checks, n) == prev + {n - 1};
        assert n - 1 !in prev;
      } else {
        assert CheckedIndices(checks, n) == prev;
      }
    }
  }

  /** Everything is done exactly when the count reaches the length. */
  lemma {:induction false} AllCheckedIff(checks: map<string, bool>, n: nat)
    ensures CountChecked(checks, n) == n <==> forall i :: 0 <= i < n ==> IsChecked(checks, i)
  {
    if n > 0 {
      AllCheckedIff(checks, n - 1);
    }
  }

  /** Setting the flag of item `j` changes the count by exactly the change
      of that one flag, and only when `j` is within the list. */
  lemma {:induction false} SetFlagEffect(checks: map<string, bool>, n: nat, j: nat, b: bool)
    ensures CountChecked(checks[TopKey(j) := b], n)
         == CountChecked(checks, n)
            + (if j < n then (if b then 1 else 0) - (if IsChecked(checks, j) then 1 else 0) else 0)
  {
    if n > 0 {
      SetFlagEffect(checks, n - 1, j, b);
      TopKeyInjective(n - 1, j);
    }
  }

  /** A key that is not `top3-i` for an index in the list (a shallow, deep
      or sequence key, say) has no effect on the count. */
  lemma {:induction false} UnrelatedKeyFrame(checks: map<string, bool>, n: nat, k: string, b: bool)
    requires forall i: nat :: i < n ==> TopKey(i) != k
    ensures CountChecked(checks[k := b], n) == CountChecked(checks, n)
  {
    if n > 0 {
      UnrelatedKeyFrame(checks, n - 1, k, b);
    }
  }

  /** `total` and `done` of an archived day. */
  function Total(e: DayEntry): nat {
    |e.resultData.top3|
  }

  function Done(e: DayEntry): (done: nat)
    ensures done <= Total(e)
  {
    CountChecked(e.checks, |e.resultData.top3|)
  }

  /** `pct`: `Math.round(done / total * 100)` taken as exact round-half-up,
      and 0 for an empty list. */
  function Pct(done: nat, total: nat): (pct: nat)
    ensures total == 0 ==> pct == 0
    ensures total > 0 ==> 2 * total * pct <= 200 * done + total < 2 * total * (pct + 1)
  {
    if total > 0 then
      DivBounds(200 * done + total, 2 * total);
      (200 * done + total) / (2 * total)
    else 0
  }

  /** The percentage never exceeds 100 and is exactly 100 for a finished day. */
  lemma PctRange(done: nat, total: nat)
    requires done <= total
    ensures Pct(done, total) <= 100
    ensures 0 < total && done == total ==> Pct(done, total) == 100
  {
    if total > 0 {
      var p := Pct(done, total);
      assert 2 * total * p < 2 * total * 101;
      MulStrictCancel(2 * total, p, 101);
      if done == total {
        DivUnique(200 * done + total, 2 * total, 100);
      }
    }
  }

  lemma DivBounds(n: nat, k: nat)
    requires k > 0
    ensures k * (n / k) <= n < k * (n / k + 1)
  {
    assert n == k * (n / k) + n % k;
    assert k * (n / k + 1) == k * (n / k) + k;
  }

  lemma MulStrictCancel(k: int, a: int, b: int)
    requires k > 0 && k * a < k * b
    ensures a < b
  {
    assert k * b - k * a == k * (b - a);
  }

  lemma DivUnique(n: nat, k: nat, q: nat)
    requires k > 0 && k * q <= n < k * (q + 1)
    ensures n / k == q
  {
    DivBounds(n, k);
    var r := n / k;
    assert k * r <= n < k * (q + 1);
    MulStrictCancel(k, r, q + 1);
    assert k * q <= n < k * (r + 1);
    MulStrictCancel(k, q, r + 1);
  }

  /** Below 200 items, 100% is shown exactly when every item is done; from
      200 items on, 199 of 200 already rounds up to 100. */
  lemma PctHundredIff(done: nat, total: nat)
    requires 0 < total < 200 && done <= total
    ensures Pct(done, total) == 100 <==> done == total
  {
    PctRange(done, total);
    if done < total {
      var p := Pct(done, total);
      var n := 200 * done + total;
      assert n < 200 * total;
      assert 2 * total * p <= n;
      assert 2 * total * p < 2 * total * 100;
      MulStrictCancel(2 * total, p, 100);
    }
  }

  /** More done items never show a lower percentage. */
  lemma PctMonotone(d1: nat, d2: nat, total: nat)
    requires d1 <= d2
    ensures Pct(d1, total) <= Pct(d2, total)
  {
    if total > 0 {
      var p1, p2 := Pct(d1, total), Pct(d2, total);
      assert 2 * total * p1 < 2 * total * (p2 + 1);
      MulStrictCancel(2 * total, p1, p2 + 1);
    }
  }

  /** `allDone = t > 0 && d === t`. A day marked all done shows 100%. */
  predicate AllDone(total: nat, done: nat): (b: bool)
    ensures b ==> Pct(done, total) == 100
  {
    if total > 0 && done == total then
      PctRange(done, total);
      true
    else false
  }

  /** A day is all done exactly when it has a top-priority item and every
      one of them is checked. */
  lemma AllDoneIff(e: DayEntry)
    ensures AllDone(Total(e), Done(e))
        <==> Total(e) > 0 && forall i :: 0 <= i < Total(e) ==> IsChecked(e.checks, i)
  {
    AllCheckedIff(e.checks, Total(e));
  }

  function Min(a: nat, b: nat): nat {
    if a <= b then a else b
  }

  /** The progress dots of an unfinished day: `min(t, 3)` dots, dot `i`
      filled when `i < d`. */
  function ProgressDots(total: nat, done: nat): (dots: seq<bool>)
    ensures |dots| == Min(total, 3)
    ensures forall i :: 0 <= i < |dots| ==> (dots[i] <==> i < done)
  {
    seq(Min(total, 3), i => i < done)
  }

  function CountTrue(s: seq<bool>): (n: nat)
    ensures n <= |s|
  {
    if |s| == 0 then 0 else CountTrue(s[..|s| - 1]) + (if s[|s| - 1] then 1 else 0)
  }

  /** The filled dots number `min(done, 3)` when `done <= total`. */
  lemma FilledDots(total: nat, done: nat)
    requires done <= total
    ensures CountTrue(ProgressDots(total, done)) == Min(done, 3)
  {
    FilledPrefix(ProgressDots(total, done), done);
  }

  lemma {:induction false} FilledPrefix(s: seq<bool>, k: nat)
    requires forall i :: 0 <= i < |s| ==> (s[i] <==> i < k)
    ensures CountTrue(s) == Min(k, |s|)
  {
    if |s| > 0 {
      FilledPrefix(s[..|s| - 1], k);
    }
  }

  /** What a calendar cell shows under the day number. */
  datatype Marker = NoMarker | Check | Dots(filled: seq<bool>)

  /** The grid's `t`/`d` pair: 0/0 for a day without an entry. */
  datatype Counts = Counts(total: nat, done: nat)

  function GridCounts(entry: Option<DayEntry>): (c: Counts)
    ensures c.done <= c.total
    ensures entry.None? ==> c == Counts(0, 0)
  {
    match entry
    case None => Counts(0, 0)
    case Some(e) => Counts(Total(e), Done(e))
  }

  function GridMarker(entry: Option<DayEntry>): (m: Marker)
    ensures m.NoMarker? <==> entry.None?
    ensures m.Check? <==> entry.Some? && AllDone(Total(entry.value), Done(entry.value))
    ensures m.Dots? ==> m.filled == ProgressDots(GridCounts(entry).total, GridCounts(entry).done)
  {
    match entry
    case None => NoMarker
    case Some(e) =>
      var c := GridCounts(entry);
      if AllDone(c.total, c.done) then Check else Dots(ProgressDots(c.total, c.done))
  }

  /** The numbers in the detail panel's header. */
  datatype Summary = Summary(total: nat, done: nat, pct: nat)

  function DetailSummary(e: DayEntry): (s: Summary)
    ensures s.done <= s.total && s.pct <= 100
    ensures s.total == |e.resultData.top3|
    ensures s.done == |CheckedIndices(e.checks, s.total)|
    ensures s.pct == Pct(s.done, s.total)
  {
    CountIsCardinality(e.checks, Total(e));
    PctRange(Done(e), Total(e));
    Summary(Total(e), Done(e), Pct(Done(e), Total(e)))
  }

  /** The cell and the panel count the same day the same way. */
  lemma GridMatchesDetail(e: DayEntry)
    ensures GridCounts(Some(e)) == Counts(DetailSummary(e).total, DetailSummary(e).done)
  {
  }
}
