/** The rate limiter of AI requests (src/ai_service.c): two fixed windows that are opened lazily, by the first
    request after the previous window has ended. */
module RateLimiter {

  const MINUTE := 60
  const HOUR := 3600

  /** One window: how many requests it has granted, and when it ends. */
  datatype Window = Window(count: int, reset: int)

  datatype Limits = Limits(perMinute: int, perHour: int)

  datatype State = State(minute: Window, hour: Window)

  /** A window is reopened by the first request that does not come before its end. */
  function Opened(w: Window, now: int, length: int): Window {
    if now >= w.reset then Window(0, now + length) else w
  }

  function Grants(s: State, limits: Limits, now: int): bool {
    && Opened(s.minute, now, MINUTE).count < limits.perMinute
    && Opened(s.hour, now, HOUR).count < limits.perHour
  }

  /** The state after a request at a given time. */
  function Next(s: State, limits: Limits, now: int): State {
    var minute, hour := Opened(s.minute, now, MINUTE), Opened(s.hour, now, HOUR);
    if Grants(s, limits, now) then State(minute.(count := minute.count + 1), hour.(count := hour.count + 1))
    else State(minute, hour)
  }

  class Limiter {
    const limits: Limits
    var currentMinuteCount: int
    var minuteReset: int
    var currentHourCount: int
    var hourReset: int

    constructor (limits: Limits, now: int)
      ensures this.limits == limits && Abs() == State(Window(0, now + MINUTE), Window(0, now + HOUR))
    {
      this.limits := limits;
      currentMinuteCount, minuteReset, currentHourCount, hourReset := 0, now + MINUTE, 0, now + HOUR;
    }

    function Abs(): State
      reads this
    {
      State(Window(currentMinuteCount, minuteReset), Window(currentHourCount, hourReset))
    }

    /** Decides about one request. */
    method Check(now: int) returns (granted: bool)
      modifies this
      ensures granted == Grants(old(Abs()), limits, now) && Abs() == Next(old(Abs()), limits, now)
    {
      if now >= minuteReset {
        currentMinuteCount := 0;
        minuteReset := now + MINUTE;
      }
      if now >= hourReset {
        currentHourCount := 0;
        hourReset := now + HOUR;
      }
      if currentMinuteCount >= limits.perMinute || currentHourCount >= limits.perHour {
        return false;
      }
      currentMinuteCount := currentMinuteCount + 1;
      currentHourCount := currentHourCount + 1;
      return true;
    }

    /** The administrator's reset opens both windows anew. */
    method Reset(now: int)
      modifies this
      ensures Abs() == State(Window(0, now + MINUTE), Window(0, now + HOUR))
    {
      currentMinuteCount := 0;
      currentHourCount := 0;
      minuteReset := now + MINUTE;
      hourReset := now + HOUR;
    }
  }

  // ----- Runs -----

  /** The clock does not go back. */
  ghost predicate Ordered(times: seq<int>) {
    forall i, j :: 0 <= i < j < |times| ==> times[i] <= times[j]
  }

  /** How many of the requests between from and to are granted. */
  function Granted(s: State, limits: Limits, times: seq<int>, from: int, to: int): nat
    decreases |times|
  {
    if times == [] then 0
    else
      (if from <= times[0] <= to && Grants(s, limits, times[0]) then 1 else 0)
      + Granted(Next(s, limits, times[0]), limits, times[1..], from, to)
  }

  function Max(a: int, b: int): int {
    if a >= b then a else b
  }

  /** Which of the two windows a bound is about. */
  datatype Which = PerMinute | PerHour {
    function Length(): int {
      match this
      case PerMinute => MINUTE
      case PerHour => HOUR
    }

    function Of(s: State): Window {
      match this
      case PerMinute => s.minute
      case PerHour => s.hour
    }

    function Limit(limits: Limits): int {
      match this
      case PerMinute => limits.perMinute
      case PerHour => limits.perHour
    }
  }

  /** From now to the time `to`, which k more windows reach beyond, at most the rest of the current window and k
      whole windows are granted. */
  lemma {:induction false} RemainingGrants(s: State, limits: Limits, times: seq<int>, from: int, to: int, k: nat,
                                           w: Which)
    requires Ordered(times) && w.Of(s).count >= 0
    requires to < w.Of(s).reset + k * w.Length()
    ensures Granted(s, limits, times, from, to) <=
              Max(0, w.Limit(limits) - w.Of(s).count) + k * Max(0, w.Limit(limits))
    decreases |times|
  {
    if times != [] {
      var now := times[0];
      assert Ordered(times[1..]);
      if now <= to {
        if now >= w.Of(s).reset {
          assert k > 0;
          NextWindow(w.Length(), w.Of(s).reset, now, to, k);
          RemainingGrants(Next(s, limits, now), limits, times[1..], from, to, k - 1, w);
          assert k * Max(0, w.Limit(limits)) == (k - 1) * Max(0, w.Limit(limits)) + Max(0, w.Limit(limits));
        } else {
          RemainingGrants(Next(s, limits, now), limits, times[1..], from, to, k, w);
        }
      } else {
        NothingLater(Next(s, limits, now), limits, times[1..], from, to, now);
      }
    }
  }

  lemma NextWindow(length: int, reset: int, now: int, to: int, k: nat)
    requires length > 0 && now >= reset && to < reset + k * length && k > 0
    ensures to < now + length + (k - 1) * length
  {
    assert k * length == (k - 1) * length + length;
  }

  lemma {:induction false} NothingLater(s: State, limits: Limits, times: seq<int>, from: int, to: int, now: int)
    requires to < now && forall i :: 0 <= i < |times| ==> times[i] >= now
    ensures Granted(s, limits, times, from, to) == 0
    decreases |times|
  {
    if times != [] {
      NothingLater(Next(s, limits, times[0]), limits, times[1..], from, to, now);
    }
  }

  /** The sliding bound: over any run, an interval as long as k windows sees at most k + 1 limits granted; with
      k = 1, no minute more than twice the limit per minute and no hour more than twice the limit per hour. */
  lemma {:induction false} SlidingBound(s: State, limits: Limits, times: seq<int>, from: int, to: int, k: nat, w: Which)
    requires Ordered(times) && w.Of(s).count >= 0 && to <= from + k * w.Length()
    ensures Granted(s, limits, times, from, to) <= (k + 1) * Max(0, w.Limit(limits))
    decreases |times|
  {
    if times != [] {
      var now := times[0];
      var s' := Next(s, limits, now);
      assert Ordered(times[1..]);
      if now < from {
        SlidingBound(s', limits, times[1..], from, to, k, w);
      } else if now < w.Of(s).reset {
        RemainingGrants(s, limits, times, from, to, k, w);
      } else {
        RemainingGrants(s', limits, times[1..], from, to, k, w);
      }
      assert (k + 1) * Max(0, w.Limit(limits)) == k * Max(0, w.Limit(limits)) + Max(0, w.Limit(limits));
    }
  }

  // ----- The bound is reached -----

  function Repeat(now: int, n: nat): seq<int> {
    seq(n, i => now)
  }

  function Min(a: int, b: int): int {
    if a <= b then a else b
  }

  /** Both windows, opened if a request comes now. */
  function Open(s: State, now: int): State {
    State(Opened(s.minute, now, MINUTE), Opened(s.hour, now, HOUR))
  }

  /** The state after g requests have been granted in windows that are open. */
  function Counted(s: State, g: nat): State {
    State(s.minute.(count := s.minute.count + g), s.hour.(count := s.hour.count + g))
  }

  /** What is granted depends only on the windows as the first request finds them. */
  lemma SameGrants(s: State, s': State, limits: Limits, times: seq<int>, from: int, to: int)
    requires times != [] && Open(s, times[0]) == Open(s', times[0])
    ensures Granted(s, limits, times, from, to) == Granted(s', limits, times, from, to)
  {
  }

  /** Of n requests at once as many are granted as both open windows leave. */
  lemma {:induction false} BatchGrants(s: State, limits: Limits, now: int, n: nat, times: seq<int>, from: int, to: int)
    requires from <= now <= to && Open(s, now) == s
    requires 0 <= s.minute.count <= limits.perMinute && 0 <= s.hour.count <= limits.perHour
    ensures var g := Min(n, Min(limits.perMinute - s.minute.count, limits.perHour - s.hour.count));
            Granted(s, limits, Repeat(now, n) + times, from, to) == g + Granted(Counted(s, g), limits, times, from, to)
    decreases n
  {
    if n == 0 {
      assert Repeat(now, n) + times == times;
    } else {
      FirstOfBatch(s, limits, now, n, times, from, to);
      var s' := Next(s, limits, now);
      BatchGrants(s', limits, now, n - 1, times, from, to);
      var left := Min(limits.perMinute - s.minute.count, limits.perHour - s.hour.count);
      if Grants(s, limits, now) {
        assert Counted(s', Min(n - 1, left - 1)) == Counted(s, Min(n, left));
      } else {
        assert s' == s && left == 0;
      }
    }
  }

  lemma FirstOfBatch(s: State, limits: Limits, now: int, n: nat, times: seq<int>, from: int, to: int)
    requires from <= now <= to && n > 0
    ensures Granted(s, limits, Repeat(now, n) + times, from, to) ==
              (if Grants(s, limits, now) then 1 else 0)
              + Granted(Next(s, limits, now), limits, Repeat(now, n - 1) + times, from, to)
  {
    assert (Repeat(now, n) + times)[1..] == Repeat(now, n - 1) + times;
  }

  /** The same for windows that the first of the requests opens. */
  lemma FreshBatch(s: State, limits: Limits, now: int, n: nat, times: seq<int>, from: int, to: int)
    requires from <= now <= to && n > 0
    requires var o := Open(s, now);
             0 <= o.minute.count <= limits.perMinute && 0 <= o.hour.count <= limits.perHour
    ensures var o := Open(s, now);
            var g := Min(n, Min(limits.perMinute - o.minute.count, limits.perHour - o.hour.count));
            Granted(s, limits, Repeat(now, n) + times, from, to) == g + Granted(Counted(o, g), limits, times, from, to)
  {
    assert (Repeat(now, n) + times)[0] == now;
    SameGrants(s, Open(s, now), limits, Repeat(now, n) + times, from, to);
    BatchGrants(Open(s, now), limits, now, n, times, from, to);
  }

  lemma FreshBatchOnly(s: State, limits: Limits, now: int, n: nat, from: int, to: int)
    requires from <= now <= to && n > 0
    requires var o := Open(s, now);
             0 <= o.minute.count <= limits.perMinute && 0 <= o.hour.count <= limits.perHour
    ensures var o := Open(s, now);
            Granted(s, limits, Repeat(now, n), from, to)
              == Min(n, Min(limits.perMinute - o.minute.count, limits.perHour - o.hour.count))
  {
    assert Repeat(now, n) + [] == Repeat(now, n);
    FreshBatch(s, limits, now, n, [], from, to);
  }

  /** The state of a new limiter. */
  const START := State(Window(0, MINUTE), Window(0, HOUR))

  /** The windows do not slide: the last second of one window and the first of the next together grant twice the
      limit, for the minute and for the hour, if the other limit is twice as large. */
  lemma TwiceTheLimit(n: nat)
    requires n > 0
    ensures Granted(START, Limits(n, 2 * n), Repeat(MINUTE - 1, n) + Repeat(MINUTE, n), MINUTE - 1, MINUTE) == 2 * n
    ensures Granted(START, Limits(2 * n, n), Repeat(HOUR - 1, n) + Repeat(HOUR, n), HOUR - 1, HOUR) == 2 * n
  {
    FreshBatch(START, Limits(n, 2 * n), MINUTE - 1, n, Repeat(MINUTE, n), MINUTE - 1, MINUTE);
    FreshBatchOnly(Counted(Open(START, MINUTE - 1), n), Limits(n, 2 * n), MINUTE, n, MINUTE - 1, MINUTE);
    FreshBatch(START, Limits(2 * n, n), HOUR - 1, n, Repeat(HOUR, n), HOUR - 1, HOUR);
    FreshBatchOnly(Counted(Open(START, HOUR - 1), n), Limits(2 * n, n), HOUR, n, HOUR - 1, HOUR);
  }

  // ----- When the limits hold for every interval -----

  /** A new limiter never grants more than the limit in an interval as long as the window, wherever it begins. */
  ghost predicate NeverMore(limits: Limits, w: Which) {
    forall times, from, to {:trigger Granted(START, limits, times, from, to)} ::
      Ordered(times) && to <= from + w.Length() ==> Granted(START, limits, times, from, to) <= Max(0, w.Limit(limits))
  }

  /** The minute limit holds for every interval exactly if the hour limit is at most half of it. */
  lemma MinuteLimitHolds(limits: Limits)
    ensures NeverMore(limits, PerMinute) <==> limits.perMinute <= 0 || 2 * limits.perHour <= limits.perMinute
  {
    if limits.perMinute <= 0 || 2 * limits.perHour <= limits.perMinute {
      forall times, from, to | Ordered(times) && to <= from + MINUTE
        ensures Granted(START, limits, times, from, to) <= Max(0, limits.perMinute)
      {
        SlidingBound(START, limits, times, from, to, 1, PerMinute);
        SlidingBound(START, limits, times, from, to, 1, PerHour);
      }
    } else {
      MinuteLimitFails(limits);
    }
  }

  /** The last second of the first hour and the next minute together exceed the minute limit. */
  lemma MinuteLimitFails(limits: Limits)
    requires 0 < limits.perMinute < 2 * limits.perHour
    ensures !NeverMore(limits, PerMinute)
  {
    var n := Min(limits.perMinute, limits.perHour);
    var now := HOUR - 1;
    var times := Repeat(now, n) + Repeat(now + MINUTE, n);
    FreshBatch(START, limits, now, n, Repeat(now + MINUTE, n), now, now + MINUTE);
    FreshBatchOnly(Counted(Open(START, now), n), limits, now + MINUTE, n, now, now + MINUTE);
    assert Ordered(times) && Granted(START, limits, times, now, now + MINUTE) == 2 * n;
  }

  /** As many requests as the minute limit at once, k times, every minute. */
  function Batches(n: nat, now: int, k: nat): (times: seq<int>)
    ensures forall i :: 0 <= i < |times| ==> now <= times[i]
    ensures n > 0 && k > 0 ==> times != [] && times[0] == now
    decreases k
  {
    if k == 0 then [] else Repeat(now, n) + Batches(n, now + MINUTE, k - 1)
  }

  lemma {:induction false} BatchesAreOrdered(n: nat, now: int, k: nat)
    ensures Ordered(Batches(n, now, k))
    decreases k
  {
    if k > 0 {
      BatchesAreOrdered(n, now + MINUTE, k - 1);
    }
  }

  /** Each minute opens a new minute window; as many are granted as the hour window leaves. */
  lemma {:induction false} BatchesGrant(s: State, limits: Limits, now: int, k: nat, from: int, to: int)
    requires limits.perMinute > 0 && 0 <= s.hour.count <= limits.perHour
    requires s.minute.reset <= now && (k > 0 ==> from <= now && now + MINUTE * (k - 1) <= to)
    requires k > 0 ==> now + MINUTE * (k - 1) < s.hour.reset
    ensures Granted(s, limits, Batches(limits.perMinute, now, k), from, to)
         == Min(k * limits.perMinute, limits.perHour - s.hour.count)
    decreases k
  {
    if k > 0 {
      var rest := Batches(limits.perMinute, now + MINUTE, k - 1);
      var g := Min(limits.perMinute, limits.perHour - s.hour.count);
      FreshBatch(s, limits, now, limits.perMinute, rest, from, to);
      BatchesGrant(Counted(Open(s, now), g), limits, now + MINUTE, k - 1, from, to);
      assert k * limits.perMinute == (k - 1) * limits.perMinute + limits.perMinute;
      assert (k - 1) * limits.perMinute >= 0;
    }
  }

  /** The hour limit holds for every interval exactly if it is at least 61 times the minute limit. */
  lemma HourLimitHolds(limits: Limits)
    ensures NeverMore(limits, PerHour) <==> limits.perHour <= 0 || 61 * limits.perMinute <= limits.perHour
  {
    if limits.perHour <= 0 || 61 * limits.perMinute <= limits.perHour {
      forall times, from, to | Ordered(times) && to <= from + HOUR
        ensures Granted(START, limits, times, from, to) <= Max(0, limits.perHour)
      {
        SlidingBound(START, limits, times, from, to, 60, PerMinute);
        SlidingBound(START, limits, times, from, to, 1, PerHour);
      }
    } else {
      HourLimitFails(limits);
    }
  }

  /** The last second of the first hour and the 60 minutes after it together exceed the hour limit. */
  lemma HourLimitFails(limits: Limits)
    requires 0 < limits.perHour < 61 * limits.perMinute
    ensures !NeverMore(limits, PerHour)
  {
    var n, now := limits.perMinute, HOUR - 1;
    var rest := Batches(n, now + MINUTE, 60);
    var g := Min(n, limits.perHour);
    FreshBatch(START, limits, now, n, rest, now, now + HOUR);
    var s := Counted(Open(START, now), g);
    var s' := State(s.minute, Window(0, now + MINUTE + HOUR));
    SameGrants(s, s', limits, rest, now, now + HOUR);
    BatchesGrant(s', limits, now + MINUTE, 60, now, now + HOUR);
    BatchesAreOrdered(n, now + MINUTE, 60);
    var times := Repeat(now, n) + rest;
    assert Ordered(times) && Granted(START, limits, times, now, now + HOUR) > limits.perHour;
  }

  /** With the limits the program sets, 60 a minute and 1000 an hour, neither holds for every interval. */
  lemma ProgramLimitsFail()
    ensures !NeverMore(Limits(60, 1000), PerMinute) && !NeverMore(Limits(60, 1000), PerHour)
  {
    MinuteLimitHolds(Limits(60, 1000));
    HourLimitHolds(Limits(60, 1000));
  }
}
