/**
 * The statistics panel: today's focus count and minutes, and the best run of
 * consecutive days with at least one focus interval. Days are integer day
 * ordinals; `dayOf` maps a start timestamp to the local day it falls on.
 */
module Stats {
  import opened Config
  import opened SessionLog
  import opened JsMath

  /** The focus entries whose start falls on day `today`, in log order. */
  function TodayFocus(logs: seq<Entry>, dayOf: int -> int, today: int): (r: seq<Entry>)
    ensures |r| <= |logs|
    ensures forall e :: e in r <==> e in logs && e.kind == Focus && dayOf(e.start) == today
  {
    if logs == [] then []
    else
      var init := logs[..|logs| - 1];
      var e := logs[|logs| - 1];
      assert logs == init + [e];
      var rest := TodayFocus(init, dayOf, today);
      if e.kind == Focus && dayOf(e.start) == today then rest + [e] else rest
  }

  /** The sum of `durationSec` over the entries; entries of at least a second each add up to at least one second apiece. */
  function SumDurations(entries: seq<Entry>): (total: int)
    ensures entries == [] ==> total == 0
    ensures |entries| == 1 ==> total == entries[0].durationSec
    ensures (forall i :: 0 <= i < |entries| ==> entries[i].durationSec >= 1) ==> total >= |entries|
  {
    if entries == [] then 0 else SumDurations(entries[..|entries| - 1]) + entries[|entries| - 1].durationSec
  }

  /** The total is additive: the total of two logs together is the sum of their totals. */
  lemma {:induction false} SumAppend(a: seq<Entry>, b: seq<Entry>)
    ensures SumDurations(a + b) == SumDurations(a) + SumDurations(b)
    decreases |b|
  {
    if b == [] {
      assert a + b == a;
    } else {
      var init := b[..|b| - 1];
      assert (a + b)[..|a + b| - 1] == a + init;
      SumAppend(a, init);
    }
  }

  /** What the panel shows for today: the number of focus entries and their total, rounded to minutes. */
  datatype TodayStats = TodayStats(sessions: nat, minutes: int)

  function Today(logs: seq<Entry>, dayOf: int -> int, today: int): (r: TodayStats)
    ensures r.sessions == |TodayFocus(logs, dayOf, today)|
    ensures var total := SumDurations(TodayFocus(logs, dayOf, today));
      60 * 2 * r.minutes - 60 <= 2 * total < 60 * 2 * r.minutes + 60
  {
    var focus := TodayFocus(logs, dayOf, today);
    TodayStats(|focus|, RoundDiv(SumDurations(focus), 60))
  }

  /**
   * A completion adds to today's figures exactly when it is a focus interval
   * started today: one more session and its seconds in the total.
   */
  lemma {:induction false} TodayAfterAppend(logs: seq<Entry>, e: Entry, dayOf: int -> int, today: int)
    ensures var before, after := TodayFocus(logs, dayOf, today), TodayFocus(logs + [e], dayOf, today);
      if e.kind == Focus && dayOf(e.start) == today
      then |after| == |before| + 1 && SumDurations(after) == SumDurations(before) + e.durationSec
      else after == before
  {
    assert (logs + [e])[..|logs + [e]| - 1] == logs;
  }

  /** Today's entries never depend on entries of other kinds or days: dropping them changes nothing. */
  lemma {:induction false} TodayIgnoresOthers(logs: seq<Entry>, e: Entry, dayOf: int -> int, today: int)
    requires !(e.kind == Focus && dayOf(e.start) == today)
    ensures Today(logs + [e], dayOf, today) == Today(logs, dayOf, today)
  {
    TodayAfterAppend(logs, e, dayOf, today);
  }

  /** The days with at least one focus entry. */
  function DaysWithFocus(logs: seq<Entry>, dayOf: int -> int): (days: set<int>)
    ensures forall e :: e in logs && e.kind == Focus ==> dayOf(e.start) in days
    ensures |days| <= |logs|
  {
    if logs == [] then {}
    else
      var init := logs[..|logs| - 1];
      var e := logs[|logs| - 1];
      assert logs == init + [e];
      var rest := DaysWithFocus(init, dayOf);
      if e.kind == Focus then rest + {dayOf(e.start)} else rest
  }

  /** Every day in the set comes from some focus entry. */
  lemma {:induction false} DaysComeFromFocus(logs: seq<Entry>, dayOf: int -> int, d: int)
    requires d in DaysWithFocus(logs, dayOf)
    ensures exists e :: e in logs && e.kind == Focus && dayOf(e.start) == d
  {
    var init := logs[..|logs| - 1];
    var e := logs[|logs| - 1];
    assert logs == init + [e];
    if d in DaysWithFocus(init, dayOf) {
      DaysComeFromFocus(init, dayOf, d);
      var x :| x in init && x.kind == Focus && dayOf(x.start) == d;
      assert x in logs;
    } else {
      assert e in logs;
    }
  }

  // ---------- Best streak ----------

  /** Days `first`, `first + 1`, ..., `first + len - 1` all have a focus entry. */
  ghost predicate IsRun(days: set<int>, first: int, len: nat) {
    forall y :: first <= y < first + len ==> y in days
  }

  /** `best` is the length of a longest run of consecutive days. */
  ghost predicate LongestRun(days: set<int>, best: nat) {
    (exists first :: IsRun(days, first, best))
    && forall first, len: nat :: IsRun(days, first, len) ==> len <= best
  }

  /** There is only one longest length. */
  lemma LongestRunUnique(days: set<int>, a: nat, b: nat)
    requires LongestRun(days, a) && LongestRun(days, b)
    ensures a == b
  {
    var fa :| IsRun(days, fa, a);
    var fb :| IsRun(days, fb, b);
    assert a <= b;
    assert b <= a;
  }

  predicate StrictlyIncreasing(arr: seq<int>) {
    forall i, j :: 0 <= i < j < |arr| ==> arr[i] < arr[j]
  }

  /** A set that is not empty has an element. */
  lemma NonEmptyHasElement(s: set<int>)
    requires s != {}
    ensures exists z :: z in s
  {
    assert (forall z :: z !in s) ==> s == {};
  }

  /** A non-empty set of integers has a least element. */
  lemma {:induction false} SetHasMin(s: set<int>)
    requires s != {}
    ensures exists m :: m in s && forall y :: y in s ==> m <= y
    decreases |s|
  {
    NonEmptyHasElement(s);
    var x :| x in s;
    var rest := s - {x};
    if rest == {} {
      forall y | y in s
        ensures x <= y
      {
        assert y != x ==> y in rest;
      }
    } else {
      SetHasMin(rest);
      var m :| m in rest && forall y :: y in rest ==> m <= y;
      var least := if x < m then x else m;
      forall y | y in s
        ensures least <= y
      {
        assert y != x ==> y in rest;
      }
      assert least in s;
    }
  }

  /** The selection so far: `arr` holds the least days in order, `rest` the others. */
  ghost predicate SortInv(days: set<int>, arr: seq<int>, rest: set<int>) {
    StrictlyIncreasing(arr)
    && (forall y :: y in days <==> y in arr || y in rest)
    && (forall y :: y in rest ==> y !in arr)
    && (forall i, y :: 0 <= i < |arr| && y in rest ==> arr[i] < y)
    && |arr| + |rest| == |days|
  }

  /** Moving the least remaining day to the end of `arr` keeps the selection in order. */
  lemma SortStep(days: set<int>, arr: seq<int>, rest: set<int>, m: int)
    requires SortInv(days, arr, rest)
    requires m in rest && forall y :: y in rest ==> m <= y
    ensures SortInv(days, arr + [m], rest - {m}) && |rest - {m}| < |rest|
  {
    var arr', rest' := arr + [m], rest - {m};
    assert |rest'| == |rest| - 1;
    forall y | y in days
      ensures y in arr' || y in rest'
    {
      assert y in arr ==> y in arr';
    }
    forall y | y in arr'
      ensures y in days
    {
      assert y != m ==> y in arr;
    }
  }

  /** `Array.from(daySet).sort()`: the days in ascending order, each once. */
  method SortedDays(days: set<int>) returns (arr: seq<int>)
    ensures StrictlyIncreasing(arr)
    ensures forall y :: y in days <==> y in arr
    ensures |arr| == |days|
  {
    arr := [];
    var rest := days;
    while rest != {}
      invariant SortInv(days, arr, rest)
      decreases |rest|
    {
      SetHasMin(rest);
      var m :| m in rest && forall y :: y in rest ==> m <= y;
      SortStep(days, arr, rest, m);
      arr := arr + [m];
      rest := rest - {m};
    }
  }

  /** In the sorted days, nothing lies strictly between neighbours. */
  lemma NoDayBetween(days: set<int>, arr: seq<int>, i: int, y: int)
    requires StrictlyIncreasing(arr) && forall z :: z in days <==> z in arr
    requires 1 <= i < |arr| && y in days && y > arr[i - 1]
    ensures y >= arr[i]
  {
    var j :| 0 <= j < |arr| && arr[j] == y;
  }

  /** The first of the sorted days is the least. */
  lemma SortedMin(days: set<int>, arr: seq<int>, y: int)
    requires StrictlyIncreasing(arr) && forall z :: z in days <==> z in arr
    requires |arr| > 0 && y in days
    ensures arr[0] <= y
  {
    var j :| 0 <= j < |arr| && arr[j] == y;
  }

  /** The last of the sorted days is the greatest. */
  lemma SortedMax(days: set<int>, arr: seq<int>, y: int)
    requires StrictlyIncreasing(arr) && forall z :: z in days <==> z in arr
    requires |arr| > 0 && y in days
    ensures y <= arr[|arr| - 1]
  {
    var j :| 0 <= j < |arr| && arr[j] == y;
  }

  /** A run ending at `top` is no longer than `k` when the day `k` before `top` has no focus entry. */
  lemma RunBoundedByGap(days: set<int>, first: int, len: nat, top: int, k: nat)
    requires IsRun(days, first, len) && first + len - 1 == top && top - k !in days
    ensures len <= k
  {
  }

  /** A day inside a run has a focus entry. */
  lemma InRun(days: set<int>, first: int, len: nat, y: int)
    requires IsRun(days, first, len) && first <= y < first + len
    ensures y in days
  {
  }

  /** Every run that ends by day `top` is at most `best` long. */
  ghost predicate RunsBoundedUpTo(days: set<int>, top: int, best: nat) {
    forall first, len: nat :: IsRun(days, first, len) && len >= 1 && first + len - 1 <= top ==> len <= best
  }

  /** Before the walk: the first day alone is the only run up to it. */
  lemma StreakStart(days: set<int>, arr: seq<int>)
    requires StrictlyIncreasing(arr) && (forall z :: z in days <==> z in arr) && |arr| > 0
    ensures IsRun(days, arr[0], 1) && arr[0] - 1 !in days && RunsBoundedUpTo(days, arr[0], 1)
  {
    assert arr[0] in arr;
    forall y | y in days
      ensures arr[0] <= y
    {
      SortedMin(days, arr, y);
    }
    forall first, len: nat | IsRun(days, first, len) && len >= 1 && first + len - 1 <= arr[0]
      ensures len <= 1
    {
      InRun(days, first, len, first);
      SortedMin(days, arr, first);
    }
  }

  /**
   * One step of the walk: the run ending at `arr[i]` extends the one ending
   * at `arr[i - 1]` when the days are adjacent and starts afresh otherwise,
   * and no run up to `arr[i]` beats the larger of the old best and the new run.
   */
  lemma StreakStep(days: set<int>, arr: seq<int>, i: int, cur: nat, best: nat)
    requires StrictlyIncreasing(arr) && (forall z :: z in days <==> z in arr)
    requires 1 <= i < |arr| && 1 <= cur <= best
    requires IsRun(days, arr[i - 1] - cur + 1, cur) && arr[i - 1] - cur !in days
    requires RunsBoundedUpTo(days, arr[i - 1], best)
    ensures var cur' := if arr[i] - arr[i - 1] == 1 then cur + 1 else 1;
      IsRun(days, arr[i] - cur' + 1, cur') && arr[i] - cur' !in days
      && RunsBoundedUpTo(days, arr[i], Max(best, cur'))
  {
    var cur' := if arr[i] - arr[i - 1] == 1 then cur + 1 else 1;
    assert arr[i] in arr;
    forall y | y in days && y > arr[i - 1]
      ensures y >= arr[i]
    {
      NoDayBetween(days, arr, i, y);
    }
    forall first, len: nat | IsRun(days, first, len) && len >= 1 && first + len - 1 <= arr[i]
      ensures len <= Max(best, cur')
    {
      var top := first + len - 1;
      InRun(days, first, len, top);
      if top > arr[i - 1] {
        NoDayBetween(days, arr, i, top);
        RunBoundedByGap(days, first, len, arr[i], cur');
      }
    }
  }

  /** After the walk: every run ends by the last day. */
  lemma StreakEnd(days: set<int>, arr: seq<int>, best: nat)
    requires StrictlyIncreasing(arr) && (forall z :: z in days <==> z in arr) && |arr| > 0
    requires RunsBoundedUpTo(days, arr[|arr| - 1], best)
    ensures forall first, len: nat :: IsRun(days, first, len) ==> len <= best
  {
    forall first, len: nat | IsRun(days, first, len)
      ensures len <= best
    {
      if len >= 1 {
        InRun(days, first, len, first + len - 1);
        SortedMax(days, arr, first + len - 1);
      }
    }
  }

  /**
   * `computeBestConsecutiveStreak`: walk the sorted days, extending the
   * current run when a day follows the previous one and restarting it at 1
   * otherwise; the answer is the largest run seen, 0 for no days.
   */
  method BestStreak(days: set<int>) returns (best: nat)
    ensures LongestRun(days, best)
    ensures best == 0 <==> days == {}
    ensures best <= |days|
  {
    if days == {} {
      assert IsRun(days, 0, 0);
      forall first, len: nat | IsRun(days, first, len)
        ensures len <= 0
      {
        assert len >= 1 ==> first in days;
      }
      return 0;
    }
    var arr := SortedDays(days);
    StreakStart(days, arr);
    best := 1;
    var cur := 1;
    ghost var bestFirst := arr[0];
    var i := 1;
    while i < |arr|
      invariant 1 <= i <= |arr|
      invariant 1 <= cur <= best <= i
      invariant IsRun(days, arr[i - 1] - cur + 1, cur) && arr[i - 1] - cur !in days
      invariant IsRun(days, bestFirst, best)
      invariant RunsBoundedUpTo(days, arr[i - 1], best)
    {
      StreakStep(days, arr, i, cur, best);
      if arr[i] - arr[i - 1] == 1 {
        cur := cur + 1;
      } else {
        cur := 1;
      }
      if cur > best {
        best := cur;
        bestFirst := arr[i] - cur + 1;
      }
      i := i + 1;
    }
    StreakEnd(days, arr, best);
  }

  /** Days 1, 2, 3 and 5: the best streak is 3. */
  lemma StreakOfGappedDays()
    ensures LongestRun({1, 2, 3, 5}, 3)
  {
    var d := {1, 2, 3, 5};
    assert IsRun(d, 1, 3);
    forall first, len: nat | IsRun(d, first, len)
      ensures len <= 3
    {
      assert len >= 4 ==> first in d && first + 1 in d && first + 2 in d && first + 3 in d;
    }
  }

  /** No days: the best streak is 0. */
  lemma StreakOfNoDays()
    ensures LongestRun({}, 0)
  {
    var d: set<int> := {};
    assert IsRun(d, 0, 0);
    forall first, len: nat | IsRun(d, first, len)
      ensures len <= 0
    {
      assert len >= 1 ==> first in d;
    }
  }

  /** A single day: the best streak is 1. */
  lemma StreakOfOneDay(x: int)
    ensures LongestRun({x}, 1)
  {
    var d := {x};
    assert IsRun(d, x, 1);
    forall first, len: nat | IsRun(d, first, len)
      ensures len <= 1
    {
      assert len >= 2 ==> first in d && first + 1 in d;
    }
  }
}
