/**
  The per-organisation rate limiter of api/policy_client.py: a fixed window of one second that
  starts with the first call after the previous window has run out. Times are seconds, as reals.
 */
module RateLimiter {
  const RATE_LIMIT_PER_SEC: nat := 100

  datatype Window = Window(count: nat, start: real)

  type Windows = map<int, Window>

  datatype Call = Call(org: int, at: real)

  /** _check_rate_limit as a function: the table afterwards and the answer. */
  function Check(windows: Windows, call: Call): (Windows, bool) {
    if call.org !in windows || call.at - windows[call.org].start >= 1.0 then
      (windows[call.org := Window(1, call.at)], true)
    else
      var w := windows[call.org];
      if w.count >= RATE_LIMIT_PER_SEC then (windows, false)
      else (windows[call.org := w.(count := w.count + 1)], true)
  }

  class RateLimits {
    var windows: Windows

    constructor ()
      ensures windows == map[]
    {
      windows := map[];
    }

    method CheckRateLimit(org: int, now: real) returns (ok: bool)
      modifies this
      ensures (windows, ok) == Check(old(windows), Call(org, now))
    {
      if org !in windows || now - windows[org].start >= 1.0 {
        windows := windows[org := Window(1, now)];
        return true;
      }
      var entry := windows[org];
      if entry.count >= RATE_LIMIT_PER_SEC {
        return false;
      }
      windows := windows[org := Window(entry.count + 1, entry.start)];
      return true;
    }
  }

  // ----- Traces

  /** The table after the first n calls of a trace that starts with an empty table. */
  function After(calls: seq<Call>, n: nat): Windows
    requires n <= |calls|
  {
    if n == 0 then map[] else Check(After(calls, n - 1), calls[n - 1]).0
  }

  predicate Admitted(calls: seq<Call>, k: nat)
    requires k < |calls|
  {
    Check(After(calls, k), calls[k]).1
  }

  ghost predicate ClockMonotone(calls: seq<Call>) {
    forall i, j :: 0 <= i <= j < |calls| ==> calls[i].at <= calls[j].at
  }

  /** The calls of one organisation admitted in [from, from + length), among the first n. */
  function AdmittedIn(calls: seq<Call>, n: nat, org: int, from: real, length: real): nat
    requires n <= |calls|
  {
    if n == 0 then 0
    else
      AdmittedIn(calls, n - 1, org, from, length) +
      if calls[n - 1].org == org && Admitted(calls, n - 1) && from <= calls[n - 1].at < from + length then 1 else 0
  }

  function Ceil(x: real): int {
    -((-x).Floor)
  }

  lemma CeilBounds(x: real)
    ensures x <= Ceil(x) as real < x + 1.0
  {
  }

  lemma CeilMonotone(x: real, y: real)
    requires x <= y
    ensures Ceil(x) <= Ceil(y)
    ensures x < y && x == Ceil(x) as real ==> Ceil(x) + 1 <= Ceil(y)
  {
    CeilBounds(x);
    CeilBounds(y);
  }

  lemma CeilShift(x: real)
    ensures Ceil(x + 1.0) == Ceil(x) + 1
  {
    CeilBounds(x);
    CeilBounds(x + 1.0);
  }

  /**
    How many calls the earlier windows can contribute to an interval when the current window starts
    d seconds after the interval does: 100 for each whole second, and when d is not a whole number
    one more window that started before the interval, so that its first call is not counted.
   */
  function Earlier(d: real): int {
    RATE_LIMIT_PER_SEC * Ceil(d) - if d == Ceil(d) as real then 0 else 1
  }

  lemma EarlierGrows(d: real, d': real)
    requires d + 1.0 <= d'
    ensures Earlier(d) + RATE_LIMIT_PER_SEC <= Earlier(d')
  {
    CeilShift(d);
    CeilMonotone(d + 1.0, d');
    CeilBounds(d);
    CeilBounds(d');
  }

  /** The bound kept along a trace: it depends only on the organisation's current window. */
  ghost predicate CountBounded(calls: seq<Call>, n: nat, org: int, from: real, length: real)
    requires n <= |calls|
  {
    var count, windows := AdmittedIn(calls, n, org, from, length), After(calls, n);
    if org !in windows then count == 0
    else
      var w := windows[org];
      && 1 <= w.count <= RATE_LIMIT_PER_SEC
      && (n > 0 ==> w.start <= calls[n - 1].at)
      && (w.start <= from - 1.0 ==> count == 0)
      && (from - 1.0 < w.start < from + length ==> count <= Earlier(w.start - from) + w.count)
      && (from + length <= w.start ==> count <= RATE_LIMIT_PER_SEC * Ceil(length) + RATE_LIMIT_PER_SEC - 1)
  }

  /** Seen from inside the interval, the bound of the current window is below the bound of the interval. */
  lemma WindowWithinBound(d: real, count: nat, length: real)
    requires d < length && count <= RATE_LIMIT_PER_SEC
    ensures Earlier(d) + count <= RATE_LIMIT_PER_SEC * Ceil(length) + RATE_LIMIT_PER_SEC - 1
  {
    CeilBounds(d);
    CeilBounds(length);
    CeilMonotone(d, length);
  }

  lemma CountStep(calls: seq<Call>, n: nat, org: int, from: real, length: real)
    requires 0 < n <= |calls| && ClockMonotone(calls) && length > 0.0
    requires CountBounded(calls, n - 1, org, from, length)
    ensures CountBounded(calls, n, org, from, length)
  {
    var call, before := calls[n - 1], After(calls, n - 1);
    if call.org == org {
      CeilBounds(length);
      if org !in before || call.at - before[org].start >= 1.0 {
        NewWindow(calls, n, org, from, length);
      } else {
        CeilBounds(before[org].start - from);
      }
    } else {
      assert n > 1 ==> calls[n - 2].at <= call.at;
    }
  }

  lemma NewWindow(calls: seq<Call>, n: nat, org: int, from: real, length: real)
    requires 0 < n <= |calls| && ClockMonotone(calls) && length > 0.0
    requires CountBounded(calls, n - 1, org, from, length)
    requires var call, before := calls[n - 1], After(calls, n - 1);
             call.org == org && (org !in before || call.at - before[org].start >= 1.0)
    ensures CountBounded(calls, n, org, from, length)
  {
    var call, before := calls[n - 1], After(calls, n - 1);
    var d := call.at - from;
    CeilBounds(d);
    CeilBounds(length);
    if org in before {
      var w := before[org];
      if from - 1.0 < w.start < from + length {
        EarlierGrows(w.start - from, d);
        WindowWithinBound(w.start - from, w.count, length);
      }
    }
  }

  lemma {:induction false} CountStaysBounded(calls: seq<Call>, n: nat, org: int, from: real, length: real)
    requires n <= |calls| && ClockMonotone(calls) && length > 0.0
    ensures CountBounded(calls, n, org, from, length)
  {
    if n > 0 {
      CountStaysBounded(calls, n - 1, org, from, length);
      CountStep(calls, n, org, from, length);
    }
  }

  /**
    The sliding-window bound: with a clock that never goes back, an organisation gets at most
    100 * ceil(L) + 99 admitted calls in any half-open interval of length L.
   */
  lemma SlidingWindowBound(calls: seq<Call>, org: int, from: real, length: real)
    requires ClockMonotone(calls) && length > 0.0
    ensures AdmittedIn(calls, |calls|, org, from, length) <= RATE_LIMIT_PER_SEC * Ceil(length) + RATE_LIMIT_PER_SEC - 1
  {
    CountStaysBounded(calls, |calls|, org, from, length);
    CeilBounds(length);
    var windows := After(calls, |calls|);
    if org in windows && windows[org].start < from + length {
      WindowWithinBound(windows[org].start - from, windows[org].count, length);
    }
  }

  /** One second: at most 199 calls, and 100 is not a bound (see BurstReaches199). */
  lemma OneSecondBound(calls: seq<Call>, org: int, from: real)
    requires ClockMonotone(calls)
    ensures AdmittedIn(calls, |calls|, org, from, 1.0) <= 199
  {
    SlidingWindowBound(calls, org, from, 1.0);
  }

  /** One call at 0, ninety-nine at 0.5 and a hundred at 1. */
  function Burst(org: int): (calls: seq<Call>)
    ensures |calls| == 200
  {
    seq(200, i => Call(org, if i == 0 then 0.0 else if i < 100 then 0.5 else 1.0))
  }

  lemma {:induction false} BurstState(org: int, n: nat)
    requires 0 < n <= 200
    ensures After(Burst(org), n) == map[org := if n <= 100 then Window(n, 0.0) else Window(n - 100, 1.0)]
    ensures AdmittedIn(Burst(org), n, org, 0.5, 1.0) == n - 1
  {
    if n > 1 {
      BurstState(org, n - 1);
    } else {
      assert After(Burst(org), 0) == map[];
    }
  }

  /** The bound for one second is reached: the nominal 100 calls per second is not what a caller sees. */
  lemma BurstReaches199(org: int)
    ensures ClockMonotone(Burst(org)) && AdmittedIn(Burst(org), 200, org, 0.5, 1.0) == 199
  {
    BurstState(org, 200);
  }

  /** The current window counts the calls admitted since it started. */
  lemma {:induction false} WindowCountsItsCalls(calls: seq<Call>, n: nat, org: int)
    requires n <= |calls| && ClockMonotone(calls) && org in After(calls, n)
    ensures AdmittedIn(calls, n, org, After(calls, n)[org].start, 1.0) == After(calls, n)[org].count
    ensures n > 0 && After(calls, n)[org].start <= calls[n - 1].at
  {
    var call, before := calls[n - 1], After(calls, n - 1);
    if org in before {
      WindowCountsItsCalls(calls, n - 1, org);
    }
    if call.org == org {
      CountStaysBounded(calls, n - 1, org, call.at, 1.0);
    }
  }

  /** No refusal without cause: a refused call comes within a second in which 100 calls of its org were admitted. */
  lemma RefusalIsJustified(calls: seq<Call>, k: nat)
    requires k < |calls| && ClockMonotone(calls) && !Admitted(calls, k)
    ensures exists start :: calls[k].at - 1.0 < start <= calls[k].at &&
                            AdmittedIn(calls, k, calls[k].org, start, 1.0) == RATE_LIMIT_PER_SEC
  {
    var org := calls[k].org;
    WindowCountsItsCalls(calls, k, org);
    CountStaysBounded(calls, k, org, 0.0, 1.0);
  }

  // ----- When the documented limit holds

  /** Call k starts a window of its organisation. */
  predicate Opens(calls: seq<Call>, k: nat)
    requires k < |calls|
  {
    var before := After(calls, k);
    calls[k].org !in before || calls[k].at - before[calls[k].org].start >= 1.0
  }

  /** Call k starts a window of org strictly inside the second that begins at `from`. */
  predicate OpensWithin(calls: seq<Call>, k: nat, org: int, from: real) {
    k < |calls| && calls[k].org == org && Opens(calls, k) && from < calls[k].at < from + 1.0
  }

  /** The current window was started by one of the calls. */
  lemma {:induction false} WindowWasOpened(calls: seq<Call>, n: nat, org: int)
    requires n <= |calls| && org in After(calls, n)
    ensures exists k: nat :: k < n && calls[k].org == org && Opens(calls, k) &&
                             calls[k].at == After(calls, n)[org].start
  {
    if calls[n - 1].org == org && Opens(calls, n - 1) {
    } else {
      WindowWasOpened(calls, n - 1, org);
    }
  }

  /** A second strictly inside which no window of the organisation starts holds at most 100 admitted calls. */
  lemma {:induction false} NoOpeningHolds100(calls: seq<Call>, n: nat, org: int, from: real)
    requires n <= |calls| && ClockMonotone(calls)
    requires forall k: nat :: !OpensWithin(calls, k, org, from)
    ensures AdmittedIn(calls, n, org, from, 1.0) <= RATE_LIMIT_PER_SEC
  {
    if n > 0 {
      NoOpeningHolds100(calls, n - 1, org, from);
      var call := calls[n - 1];
      if call.org == org && Admitted(calls, n - 1) && from <= call.at < from + 1.0 {
        CountStaysBounded(calls, n, org, from, 1.0);
        WindowWasOpened(calls, n, org);
        var w := After(calls, n)[org];
        assert w.start <= from by {
          var k: nat :| k < n && calls[k].org == org && Opens(calls, k) && calls[k].at == w.start;
          assert !OpensWithin(calls, k, org, from);
        }
        CeilOfFraction(w.start - from);
      }
    }
  }

  lemma CeilOfFraction(x: real)
    requires -1.0 < x <= 0.0
    ensures Ceil(x) == 0
  {
    CeilBounds(x);
  }

  lemma {:induction false} AdmittedInSplits(calls: seq<Call>, n: nat, org: int, from: real, first: real, second: real)
    requires n <= |calls| && first >= 0.0 && second >= 0.0
    ensures AdmittedIn(calls, n, org, from, first + second)
         == AdmittedIn(calls, n, org, from, first) + AdmittedIn(calls, n, org, from + first, second)
  {
    if n > 0 {
      AdmittedInSplits(calls, n - 1, org, from, first, second);
    }
  }

  // ----- What a window admits, counted in calls made

  /** The calls that one organisation makes in [from, from + length), among the first n. */
  function CallsIn(calls: seq<Call>, n: nat, org: int, from: real, length: real): nat
    requires n <= |calls|
  {
    if n == 0 then 0
    else CallsIn(calls, n - 1, org, from, length) +
         if calls[n - 1].org == org && from <= calls[n - 1].at < from + length then 1 else 0
  }

  function Capped(count: nat): (c: nat)
    ensures c <= count && c <= RATE_LIMIT_PER_SEC
  {
    if count < RATE_LIMIT_PER_SEC then count else RATE_LIMIT_PER_SEC
  }

  /** No call of org among the first n falls into [from, from + length). */
  ghost predicate Quiet(calls: seq<Call>, n: nat, org: int, from: real, length: real)
    requires n <= |calls|
  {
    forall i :: 0 <= i < n && calls[i].org == org ==> !(from <= calls[i].at < from + length)
  }

  lemma {:induction false} QuietCounts(calls: seq<Call>, n: nat, org: int, from: real, length: real)
    requires n <= |calls| && Quiet(calls, n, org, from, length)
    ensures AdmittedIn(calls, n, org, from, length) == CallsIn(calls, n, org, from, length) == 0
  {
    if n > 0 {
      QuietCounts(calls, n - 1, org, from, length);
    }
  }

  /** After a call of an organisation its window covers the call. */
  lemma {:induction false} WindowCovers(calls: seq<Call>, i: nat, n: nat)
    requires i < n <= |calls| && ClockMonotone(calls)
    ensures calls[i].org in After(calls, n) && calls[i].at < After(calls, n)[calls[i].org].start + 1.0
  {
    if i < n - 1 {
      WindowCovers(calls, i, n - 1);
    }
  }

  /** A call that starts a window comes a second or more after the old start, and all earlier calls before that. */
  lemma OpeningIsLater(calls: seq<Call>, i: nat, k: nat)
    requires i < k < |calls| && calls[i].org == calls[k].org && Opens(calls, k) && ClockMonotone(calls)
    ensures calls[k].org in After(calls, k)
    ensures calls[i].at < After(calls, k)[calls[k].org].start + 1.0 <= calls[k].at
  {
    WindowCovers(calls, i, k);
  }

  /** Up to its opening call nothing falls into a window. */
  lemma QuietBeforeOpening(calls: seq<Call>, k: nat, length: real)
    requires k < |calls| && Opens(calls, k) && ClockMonotone(calls)
    ensures Quiet(calls, k, calls[k].org, calls[k].at, length)
  {
    forall i | 0 <= i < k && calls[i].org == calls[k].org ensures calls[i].at < calls[k].at {
      OpeningIsLater(calls, i, k);
    }
  }

  /** While a window that starts with call k lasts, its count is the number of calls made in it, capped at 100. */
  ghost predicate WindowFills(calls: seq<Call>, k: nat, n: nat, length: real)
    requires k < n <= |calls|
  {
    var org, start := calls[k].org, calls[k].at;
    && AdmittedIn(calls, n, org, start, length) == Capped(CallsIn(calls, n, org, start, length))
    && org in After(calls, n)
    && (After(calls, n)[org].start == start || After(calls, n)[org].start >= start + 1.0)
    && After(calls, n)[org].start <= calls[n - 1].at
    && (calls[n - 1].at < start + length ==>
          After(calls, n)[org] == Window(Capped(CallsIn(calls, n, org, start, length)), start))
  }

  lemma WindowFillsStep(calls: seq<Call>, k: nat, n: nat, length: real)
    requires k < n < |calls| && ClockMonotone(calls) && 0.0 < length <= 1.0 && WindowFills(calls, k, n, length)
    ensures WindowFills(calls, k, n + 1, length)
  {
    assert calls[k].at <= calls[n - 1].at <= calls[n].at;
  }

  lemma {:induction false} WindowKeepsFilling(calls: seq<Call>, k: nat, n: nat, length: real)
    requires k < n <= |calls| && Opens(calls, k) && ClockMonotone(calls) && 0.0 < length <= 1.0
    ensures WindowFills(calls, k, n, length)
  {
    if n == k + 1 {
      QuietBeforeOpening(calls, k, length);
      QuietCounts(calls, k, calls[k].org, calls[k].at, length);
    } else {
      WindowKeepsFilling(calls, k, n - 1, length);
      WindowFillsStep(calls, k, n - 1, length);
    }
  }

  /**
    The limit as the limiter keeps it: of the calls that an organisation makes in the first L <= 1
    seconds of one of its windows exactly the first 100 are admitted, or all if there are fewer.
   */
  lemma WindowAdmitsExactly(calls: seq<Call>, k: nat, length: real)
    requires k < |calls| && Opens(calls, k) && ClockMonotone(calls) && 0.0 < length <= 1.0
    ensures AdmittedIn(calls, |calls|, calls[k].org, calls[k].at, length)
         == Capped(CallsIn(calls, |calls|, calls[k].org, calls[k].at, length))
  {
    WindowKeepsFilling(calls, k, |calls|, length);
  }

  /**
    What is left in a second of the window before: call k starts a window inside the second that
    begins at `from`, and the window before it may have begun before `from` and reach into the
    second. Counted in calls made: those of the old window, capped, less those of it before `from`.
   */
  function OldWindowPart(calls: seq<Call>, k: nat, from: real): int
    requires k < |calls|
  {
    var org, before := calls[k].org, After(calls, k);
    if org !in before || before[org].start <= from - 1.0 then 0
    else
      var start := before[org].start;
      Capped(CallsIn(calls, |calls|, org, start, 1.0)) - Capped(CallsIn(calls, |calls|, org, start, from - start))
  }

  /** The organisation is quiet from the end of the old window to the start of the new one. */
  lemma QuietBetween(calls: seq<Call>, k: nat, from: real)
    requires k < |calls| && Opens(calls, k) && ClockMonotone(calls)
    requires calls[k].org in After(calls, k) ==> After(calls, k)[calls[k].org].start + 1.0 <= from
    ensures Quiet(calls, |calls|, calls[k].org, from, calls[k].at - from)
  {
    forall i | 0 <= i < k && calls[i].org == calls[k].org ensures calls[i].at < from {
      OpeningIsLater(calls, i, k);
    }
  }

  lemma AdmittedBeforeOpening(calls: seq<Call>, k: nat, from: real)
    requires k < |calls| && ClockMonotone(calls) && OpensWithin(calls, k, calls[k].org, from)
    ensures AdmittedIn(calls, |calls|, calls[k].org, from, calls[k].at - from) == OldWindowPart(calls, k, from)
  {
    var n, org, s := |calls|, calls[k].org, calls[k].at;
    if org !in After(calls, k) || After(calls, k)[org].start <= from - 1.0 {
      QuietBetween(calls, k, from);
      QuietCounts(calls, n, org, from, s - from);
    } else {
      var start := After(calls, k)[org].start;
      WindowWasOpened(calls, k, org);
      var j: nat :| j < k && calls[j].org == org && Opens(calls, j) && calls[j].at == start;
      WindowAdmitsExactly(calls, j, 1.0);
      WindowAdmitsExactly(calls, j, from - start);
      AdmittedInSplits(calls, n, org, start, from - start, start + 1.0 - from);
      AdmittedInSplits(calls, n, org, from, start + 1.0 - from, s - start - 1.0);
      QuietBetween(calls, k, start + 1.0);
      QuietCounts(calls, n, org, start + 1.0, s - start - 1.0);
    }
  }

  /**
    When a second, wherever it begins, holds at most the documented 100 calls: exactly when no window
    of the organisation starts strictly inside it for which the calls made that fall to the old
    window and those that fall to the new one, each capped at 100, add up to more.
   */
  lemma DocumentedLimitIff(calls: seq<Call>, org: int, from: real)
    requires ClockMonotone(calls)
    ensures AdmittedIn(calls, |calls|, org, from, 1.0) <= RATE_LIMIT_PER_SEC
       <==> forall k: nat :: OpensWithin(calls, k, org, from) ==>
              var s := calls[k].at;
              OldWindowPart(calls, k, from) + Capped(CallsIn(calls, |calls|, org, s, from + 1.0 - s))
              <= RATE_LIMIT_PER_SEC
  {
    forall k: nat | OpensWithin(calls, k, org, from)
      ensures AdmittedIn(calls, |calls|, org, from, 1.0)
           == OldWindowPart(calls, k, from)
              + Capped(CallsIn(calls, |calls|, org, calls[k].at, from + 1.0 - calls[k].at))
    {
      AdmittedInSplits(calls, |calls|, org, from, calls[k].at - from, from + 1.0 - calls[k].at);
      AdmittedBeforeOpening(calls, k, from);
      WindowAdmitsExactly(calls, k, from + 1.0 - calls[k].at);
    }
    if forall k: nat :: !OpensWithin(calls, k, org, from) {
      NoOpeningHolds100(calls, |calls|, org, from);
    }
  }

  // ----- Organisations do not affect each other

  /** The calls of one organisation among the first n. */
  function CallsOf(calls: seq<Call>, n: nat, org: int): seq<Call>
    requires n <= |calls|
  {
    if n == 0 then []
    else CallsOf(calls, n - 1, org) + if calls[n - 1].org == org then [calls[n - 1]] else []
  }

  ghost predicate AgreeOn(a: Windows, b: Windows, org: int) {
    (org in a <==> org in b) && (org in a ==> a[org] == b[org])
  }

  lemma {:induction false} AfterPrefix(calls: seq<Call>, more: seq<Call>, n: nat)
    requires n <= |calls|
    ensures After(calls + more, n) == After(calls, n)
  {
    if n > 0 {
      AfterPrefix(calls, more, n - 1);
      assert (calls + more)[n - 1] == calls[n - 1];
    }
  }

  lemma {:induction false} AdmittedInPrefix(calls: seq<Call>, more: seq<Call>, n: nat,
                                            org: int, from: real, length: real)
    requires n <= |calls|
    ensures AdmittedIn(calls + more, n, org, from, length) == AdmittedIn(calls, n, org, from, length)
  {
    if n > 0 {
      AdmittedInPrefix(calls, more, n - 1, org, from, length);
      AfterPrefix(calls, more, n - 1);
      assert (calls + more)[n - 1] == calls[n - 1];
    }
  }

  /** The window of an organisation is what its own calls alone would have made it. */
  lemma {:induction false} WindowDependsOnOwnCalls(calls: seq<Call>, n: nat, org: int)
    requires n <= |calls|
    ensures AgreeOn(After(calls, n), After(CallsOf(calls, n, org), |CallsOf(calls, n, org)|), org)
  {
    if n > 0 {
      WindowDependsOnOwnCalls(calls, n - 1, org);
      var own := CallsOf(calls, n - 1, org);
      if calls[n - 1].org == org {
        AfterPrefix(own, [calls[n - 1]], |own|);
        assert CallsOf(calls, n, org)[|own|] == calls[n - 1];
      } else {
        assert CallsOf(calls, n, org) == own;
      }
    }
  }

  /** So is the answer to each of its calls. */
  lemma AnswerDependsOnOwnCalls(calls: seq<Call>, k: nat)
    requires k < |calls|
    ensures var own := CallsOf(calls, k + 1, calls[k].org); |own| > 0 && Admitted(calls, k) == Admitted(own, |own| - 1)
  {
    var org := calls[k].org;
    var own := CallsOf(calls, k, org);
    WindowDependsOnOwnCalls(calls, k, org);
    AfterPrefix(own, [calls[k]], |own|);
  }

  // ----- After a refusal

  /** No call of the organisation between k and j comes a second or more after the start of its window. */
  ghost predicate WaitsBetween(calls: seq<Call>, k: nat, j: nat, org: int, start: real)
    requires k < j <= |calls|
  {
    forall i :: k < i < j && calls[i].org == org ==> calls[i].at < start + 1.0
  }

  lemma {:induction false} RefusalHolds(calls: seq<Call>, k: nat, j: nat)
    requires k < j <= |calls| && !Admitted(calls, k)
    requires WaitsBetween(calls, k, j, calls[k].org, After(calls, k)[calls[k].org].start)
    ensures calls[k].org in After(calls, j) && After(calls, j)[calls[k].org] == After(calls, k)[calls[k].org]
  {
    if j > k + 1 {
      RefusalHolds(calls, k, j - 1);
    }
  }

  /**
    A refusal ends with the window: the next call of the organisation one second or more after the
    start of the window is admitted, and every call of it before that is refused too.
   */
  lemma RefusedUntilWindowEnds(calls: seq<Call>, k: nat, j: nat)
    requires k < j < |calls| && !Admitted(calls, k) && calls[j].org == calls[k].org
    requires WaitsBetween(calls, k, j, calls[k].org, After(calls, k)[calls[k].org].start)
    ensures Admitted(calls, j) <==> calls[j].at >= After(calls, k)[calls[k].org].start + 1.0
  {
    RefusalHolds(calls, k, j);
  }
}
