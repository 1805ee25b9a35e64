/** The sliding-window SMS rate limiter (internal/security/ratelimit.go).
    Instants are nanoseconds since the zero time, so the zero `cooldownUntil` is instant 0. */
module RateLimit {
  import opened Octets
  import opened Text

  const MINUTE := 60_000_000_000
  const HOUR := 60 * MINUTE
  const DAY := 24 * HOUR

  /** A maximum of zero or less switches its window off, a cooldown of zero or less the cooldown. */
  datatype Config = Config(enabled: bool, maxPerMinute: int, maxPerHour: int, maxPerDay: int, maxPerNumberPerHour: int,
                           cooldown: int)

  datatype Outcome = Accepted | EmptyNumber | Cooldown | MinuteExceeded | HourExceeded | DayExceeded | NumberExceeded

  datatype Send = Send(at: nat, number: string)

  // ---------------------------------------------------------------- the naive limiter

  /** The times of all accepted sends, or of those to one number. */
  function Times(log: seq<Send>, who: Option<string>): seq<int> {
    if log == [] then []
    else
      var last := log[|log| - 1];
      Times(log[..|log| - 1], who) + if who.None? || who.value == last.number then [last.at] else []
  }

  /** How many instants lie in the closed interval. */
  function CountIn(ts: seq<int>, lo: int, hi: int): nat {
    if ts == [] then 0 else CountIn(ts[..|ts| - 1], lo, hi) + if lo <= ts[|ts| - 1] <= hi then 1 else 0
  }

  function CountSince(ts: seq<int>, cutoff: int): nat {
    if ts == [] then 0 else CountSince(ts[..|ts| - 1], cutoff) + if cutoff <= ts[|ts| - 1] then 1 else 0
  }

  predicate Exceeded(log: seq<Send>, who: Option<string>, max: int, cutoff: int) {
    max > 0 && CountSince(Times(log, who), cutoff) >= max
  }

  /** A scan of the full log, window by window. */
  function NaiveLimits(cfg: Config, log: seq<Send>, now: nat, number: string): (o: Outcome)
    ensures o == Accepted || LimitHit(o)
  {
    if Exceeded(log, None, cfg.maxPerMinute, now - MINUTE) then MinuteExceeded
    else if Exceeded(log, None, cfg.maxPerHour, now - HOUR) then HourExceeded
    else if Exceeded(log, None, cfg.maxPerDay, now - DAY) then DayExceeded
    else if Exceeded(log, Some(number), cfg.maxPerNumberPerHour, now - HOUR) then NumberExceeded
    else Accepted
  }

  datatype Naive = Naive(log: seq<Send>, cooldownUntil: int)

  /** `number` is trimmed; `cleaned` is its normalized form. */
  function NaiveCheck(cfg: Config, st: Naive, now: nat, number: string, cleaned: string): (Naive, Outcome) {
    if number == "" then (st, EmptyNumber)
    else if !cfg.enabled then (st, Accepted)
    else if now < st.cooldownUntil then (st, Cooldown)
    else
      var outcome := NaiveLimits(cfg, st.log, now, cleaned);
      if outcome != Accepted then
        (if cfg.cooldown > 0 then st.(cooldownUntil := now + cfg.cooldown) else st, outcome)
      else (st.(log := st.log + [Send(now, cleaned)]), Accepted)
  }

  // ---------------------------------------------------------------- pruning

  /** The first index from `i` on whose instant is not before the cutoff. */
  function Stale(ts: seq<int>, cutoff: int, i: nat): (r: nat)
    requires i <= |ts|
    ensures i <= r <= |ts|
    ensures forall j :: i <= j < r ==> ts[j] < cutoff
    ensures r < |ts| ==> cutoff <= ts[r]
    decreases |ts| - i
  {
    if i < |ts| && ts[i] < cutoff then Stale(ts, cutoff, i + 1) else i
  }

  function Pruned(ts: seq<int>, cutoff: int): seq<int> { ts[Stale(ts, cutoff, 0)..] }

  method PruneOlderThan(timestamps: seq<int>, cutoff: int) returns (r: seq<int>)
    ensures r == Pruned(timestamps, cutoff)
  {
    var idx := 0;
    while idx < |timestamps| && timestamps[idx] < cutoff
      invariant 0 <= idx <= |timestamps|
      invariant Stale(timestamps, cutoff, idx) == Stale(timestamps, cutoff, 0)
    {
      idx := idx + 1;
    }
    if idx == 0 {
      return timestamps;
    }
    return timestamps[idx..];
  }

  ghost predicate Sorted(ts: seq<int>) { forall i, j :: 0 <= i < j < |ts| ==> ts[i] <= ts[j] }

  /** A history is what is left of all the times after dropping some that lie before the horizon. */
  ghost predicate Tracks(history: seq<int>, ts: seq<int>, horizon: int) {
    && |history| <= |ts|
    && history == ts[|ts| - |history|..]
    && forall i :: 0 <= i < |ts| - |history| ==> ts[i] < horizon
  }

  lemma {:induction false} CountAll(ts: seq<int>, cutoff: int)
    requires forall i :: 0 <= i < |ts| ==> cutoff <= ts[i]
    ensures CountSince(ts, cutoff) == |ts|
  {
    if ts != [] { CountAll(ts[..|ts| - 1], cutoff); }
  }

  lemma {:induction false} CountDropped(a: seq<int>, b: seq<int>, cutoff: int)
    requires forall i :: 0 <= i < |a| ==> a[i] < cutoff
    ensures CountSince(a + b, cutoff) == CountSince(b, cutoff)
    decreases |a| + |b|
  {
    if b != [] {
      assert (a + b)[..|a + b| - 1] == a + b[..|b| - 1];
      CountDropped(a, b[..|b| - 1], cutoff);
    } else if a != [] {
      assert a + b == a && a[..|a| - 1] + [] == a[..|a| - 1];
      CountDropped(a[..|a| - 1], [], cutoff);
    }
  }

  /** Pruning a history at a later cutoff leaves as many instants as a scan of all the times counts. */
  lemma PruneCounts(history: seq<int>, ts: seq<int>, horizon: int, cutoff: int)
    requires Sorted(ts) && Tracks(history, ts, horizon) && horizon <= cutoff
    ensures Tracks(Pruned(history, cutoff), ts, cutoff)
    ensures |Pruned(history, cutoff)| == CountSince(ts, cutoff)
  {
    hide CountSince, Stale, Sorted;
    var d := |ts| - |history|;
    var k := Stale(history, cutoff, 0);
    assert Pruned(history, cutoff) == ts[d + k..];
    PrunedSplit(history, ts, horizon, cutoff);
    assert ts == ts[..d + k] + ts[d + k..];
    CountDropped(ts[..d + k], ts[d + k..], cutoff);
    CountAll(ts[d + k..], cutoff);
  }

  /** Everything before the cut is old, everything behind it is not. */
  lemma PrunedSplit(history: seq<int>, ts: seq<int>, horizon: int, cutoff: int)
    requires Sorted(ts) && Tracks(history, ts, horizon) && horizon <= cutoff
    ensures var cut := |ts| - |history| + Stale(history, cutoff, 0);
            && (forall i :: 0 <= i < cut ==> ts[i] < cutoff)
            && (forall i :: cut <= i < |ts| ==> cutoff <= ts[i])
  {
    hide Stale;
    var d, k := |ts| - |history|, Stale(history, cutoff, 0);
    forall i | 0 <= i < d + k ensures ts[i] < cutoff {
      if i >= d { assert ts[d + (i - d)] == history[i - d]; }
    }
    if k < |history| { assert ts[d + k] == history[k]; }
  }

  lemma TracksAppend(history: seq<int>, ts: seq<int>, horizon: int, now: int)
    requires Tracks(history, ts, horizon)
    ensures Tracks(history + [now], ts + [now], horizon)
  {
  }

  // ---------------------------------------------------------------- the log

  ghost predicate Ordered(log: seq<Send>, clock: int) {
    && (forall i, j :: 0 <= i < j < |log| ==> log[i].at <= log[j].at)
    && (forall i :: 0 <= i < |log| ==> log[i].at <= clock)
  }

  lemma {:induction false} TimesSorted(log: seq<Send>, who: Option<string>, clock: int)
    requires Ordered(log, clock)
    ensures Sorted(Times(log, who))
    ensures forall t :: t in Times(log, who) ==> t <= clock
  {
    if log != [] {
      var n := |log| - 1;
      assert Ordered(log[..n], log[n].at);
      TimesSorted(log[..n], who, log[n].at);
      var before := Times(log[..n], who);
      assert forall i :: 0 <= i < |before| ==> before[i] in before;
    }
  }

  lemma TimesAppend(log: seq<Send>, s: Send, who: Option<string>)
    ensures Times(log + [s], who)
         == if who.None? || who.value == s.number then Times(log, who) + [s.at] else Times(log, who)
  {
    assert (log + [s])[..|log|] == log;
  }

  /** One window of the limiter against the scan of the log. */
  lemma WindowCounts(history: seq<int>, log: seq<Send>, who: Option<string>, now: int, window: int)
    requires Ordered(log, now) && Tracks(history, Times(log, who), now - window)
    ensures Tracks(Pruned(history, now - window), Times(log, who), now - window)
    ensures |Pruned(history, now - window)| == CountSince(Times(log, who), now - window)
  {
    hide Tracks, Sorted, Times, Pruned, CountSince;
    TimesSorted(log, who, now);
    PruneCounts(history, Times(log, who), now - window, now - window);
  }

  // ---------------------------------------------------------------- every window

  /** Every send was accepted with fewer than `max` others in the window that it ends. */
  ghost predicate Admitted(ts: seq<int>, window: int, max: int) {
    forall i :: 0 <= i < |ts| ==> CountSince(ts[..i], ts[i] - window) < max
  }

  lemma {:induction false} CountMonotone(ts: seq<int>, lo: int, hi: int, cutoff: int)
    requires cutoff <= lo
    ensures CountIn(ts, lo, hi) <= CountSince(ts, cutoff)
  {
    if ts != [] { CountMonotone(ts[..|ts| - 1], lo, hi, cutoff); }
  }

  /** Then every closed interval of that length, wherever it lies, holds at most `max` sends. */
  lemma {:induction false} EveryWindow(ts: seq<int>, window: int, max: int, a: int)
    requires Admitted(ts, window, max) && max > 0
    ensures CountIn(ts, a, a + window) <= max
  {
    hide CountSince, Admitted;
    if ts != [] {
      var n := |ts| - 1;
      AdmittedPrefix(ts, window, max);
      EveryWindow(ts[..n], window, max, a);
      if a <= ts[n] <= a + window {
        CountMonotone(ts[..n], a, a + window, ts[n] - window);
      }
    }
  }

  lemma AdmittedPrefix(ts: seq<int>, window: int, max: int)
    requires Admitted(ts, window, max) && ts != []
    ensures Admitted(ts[..|ts| - 1], window, max)
    ensures CountSince(ts[..|ts| - 1], ts[|ts| - 1] - window) < max
  {
    hide CountSince;
    var before := ts[..|ts| - 1];
    forall i | 0 <= i < |before| ensures CountSince(before[..i], before[i] - window) < max {
      assert before[..i] == ts[..i];
    }
  }

  lemma AdmittedAppend(ts: seq<int>, window: int, max: int, now: int)
    requires Admitted(ts, window, max) && CountSince(ts, now - window) < max
    ensures Admitted(ts + [now], window, max)
  {
    hide CountSince;
    var ts' := ts + [now];
    forall i | 0 <= i < |ts'| ensures CountSince(ts'[..i], ts'[i] - window) < max {
      assert ts'[..i] == if i < |ts| then ts[..i] else ts;
    }
  }

  /** What the log of accepted sends satisfies at all times. */
  ghost predicate WithinLimits(cfg: Config, log: seq<Send>) {
    && (cfg.maxPerMinute > 0 ==> Admitted(Times(log, None), MINUTE, cfg.maxPerMinute))
    && (cfg.maxPerHour > 0 ==> Admitted(Times(log, None), HOUR, cfg.maxPerHour))
    && (cfg.maxPerDay > 0 ==> Admitted(Times(log, None), DAY, cfg.maxPerDay))
    && (cfg.maxPerNumberPerHour > 0 ==> forall n: string :: Admitted(Times(log, Some(n)), HOUR, cfg.maxPerNumberPerHour))
  }

  lemma CheckKeepsLimits(cfg: Config, st: Naive, now: nat, number: string, cleaned: string)
    requires WithinLimits(cfg, st.log)
    ensures WithinLimits(cfg, NaiveCheck(cfg, st, now, number, cleaned).0.log)
  {
    hide Admitted, CountSince, Times;
    var st' := NaiveCheck(cfg, st, now, number, cleaned).0;
    if st'.log != st.log {
      var s := Send(now, cleaned);
      TimesAppend(st.log, s, None);
      var ts := Times(st.log, None);
      if cfg.maxPerMinute > 0 { AdmittedAppend(ts, MINUTE, cfg.maxPerMinute, now); }
      if cfg.maxPerHour > 0 { AdmittedAppend(ts, HOUR, cfg.maxPerHour, now); }
      if cfg.maxPerDay > 0 { AdmittedAppend(ts, DAY, cfg.maxPerDay, now); }
      if cfg.maxPerNumberPerHour > 0 {
        forall n: string ensures Admitted(Times(st'.log, Some(n)), HOUR, cfg.maxPerNumberPerHour) {
          TimesAppend(st.log, s, Some(n));
          if n == cleaned {
            AdmittedAppend(Times(st.log, Some(n)), HOUR, cfg.maxPerNumberPerHour, now);
          }
        }
      }
    }
  }

  // ---------------------------------------------------------------- runs

  datatype Request = Request(now: nat, number: string, cleaned: string)

  function RunNaive(cfg: Config, reqs: seq<Request>): Naive {
    if reqs == [] then Naive([], 0)
    else
      var r := reqs[|reqs| - 1];
      NaiveCheck(cfg, RunNaive(cfg, reqs[..|reqs| - 1]), r.now, r.number, r.cleaned).0
  }

  function Answer(cfg: Config, reqs: seq<Request>, i: nat): Outcome
    requires i < |reqs|
  {
    NaiveCheck(cfg, RunNaive(cfg, reqs[..i]), reqs[i].now, reqs[i].number, reqs[i].cleaned).1
  }

  lemma {:induction false} RunWithinLimits(cfg: Config, reqs: seq<Request>)
    ensures WithinLimits(cfg, RunNaive(cfg, reqs).log)
  {
    hide NaiveCheck;
    if reqs != [] {
      var r := reqs[|reqs| - 1];
      RunWithinLimits(cfg, reqs[..|reqs| - 1]);
      CheckKeepsLimits(cfg, RunNaive(cfg, reqs[..|reqs| - 1]), r.now, r.number, r.cleaned);
    }
  }

  /** How many requests of a run were accepted with the clock in `lo .. hi`, to anyone or to one number. */
  function CountAccepted(cfg: Config, reqs: seq<Request>, who: Option<string>, lo: int, hi: int): nat {
    if reqs == [] then 0
    else
      var last := |reqs| - 1;
      CountAccepted(cfg, reqs[..last], who, lo, hi)
      + if Answer(cfg, reqs, last) == Accepted && (who.None? || who.value == reqs[last].cleaned) && lo <= reqs[last].now <= hi
        then 1 else 0
  }

  lemma CountSnoc(ts: seq<int>, t: int, lo: int, hi: int)
    ensures CountIn(ts + [t], lo, hi) == CountIn(ts, lo, hi) + if lo <= t <= hi then 1 else 0
  {
    assert (ts + [t])[..|ts|] == ts;
  }

  /** While the limiter is enabled its log is the accepted requests, all of them and nothing else. */
  lemma {:induction false} LogIsAccepted(cfg: Config, reqs: seq<Request>, who: Option<string>, lo: int, hi: int)
    requires cfg.enabled
    ensures CountAccepted(cfg, reqs, who, lo, hi) == CountIn(Times(RunNaive(cfg, reqs).log, who), lo, hi)
  {
    hide NaiveLimits, Times, CountIn;
    if reqs == [] {
      NoTimes(who, lo, hi);
    } else {
      var n := |reqs| - 1;
      var st := RunNaive(cfg, reqs[..n]);
      LogIsAccepted(cfg, reqs[..n], who, lo, hi);
      if Answer(cfg, reqs, n) == Accepted {
        TimesAppend(st.log, Send(reqs[n].now, reqs[n].cleaned), who);
        CountSnoc(Times(st.log, who), reqs[n].now, lo, hi);
      }
    }
  }

  lemma NoTimes(who: Option<string>, lo: int, hi: int)
    ensures CountIn(Times([], who), lo, hi) == 0
  {
  }

  /** In every run of an enabled limiter, every closed minute, hour or day anywhere in it holds at most the
      configured number of accepted requests, and every closed hour at most the configured number to any one
      number. */
  lemma RunWindows(cfg: Config, reqs: seq<Request>, a: int, number: string)
    requires cfg.enabled
    ensures cfg.maxPerMinute > 0 ==> CountAccepted(cfg, reqs, None, a, a + MINUTE) <= cfg.maxPerMinute
    ensures cfg.maxPerHour > 0 ==> CountAccepted(cfg, reqs, None, a, a + HOUR) <= cfg.maxPerHour
    ensures cfg.maxPerDay > 0 ==> CountAccepted(cfg, reqs, None, a, a + DAY) <= cfg.maxPerDay
    ensures cfg.maxPerNumberPerHour > 0 ==>
              CountAccepted(cfg, reqs, Some(number), a, a + HOUR) <= cfg.maxPerNumberPerHour
  {
    hide Admitted, RunNaive, Times, CountIn, CountAccepted;
    RunWithinLimits(cfg, reqs);
    var log := RunNaive(cfg, reqs).log;
    LogIsAccepted(cfg, reqs, None, a, a + MINUTE);
    LogIsAccepted(cfg, reqs, None, a, a + HOUR);
    LogIsAccepted(cfg, reqs, None, a, a + DAY);
    LogIsAccepted(cfg, reqs, Some(number), a, a + HOUR);
    if cfg.maxPerMinute > 0 { EveryWindow(Times(log, None), MINUTE, cfg.maxPerMinute, a); }
    if cfg.maxPerHour > 0 { EveryWindow(Times(log, None), HOUR, cfg.maxPerHour, a); }
    if cfg.maxPerDay > 0 { EveryWindow(Times(log, None), DAY, cfg.maxPerDay, a); }
    if cfg.maxPerNumberPerHour > 0 { EveryWindow(Times(log, Some(number)), HOUR, cfg.maxPerNumberPerHour, a); }
  }

  /** A disabled limiter records nothing and accepts every request that names a number. */
  lemma {:induction false} DisabledAcceptsAll(cfg: Config, reqs: seq<Request>)
    requires !cfg.enabled
    ensures RunNaive(cfg, reqs) == Naive([], 0)
    ensures forall i :: 0 <= i < |reqs| ==> Answer(cfg, reqs, i) == if reqs[i].number == "" then EmptyNumber else Accepted
  {
    hide NaiveLimits;
    if reqs != [] {
      DisabledAcceptsAll(cfg, reqs[..|reqs| - 1]);
    }
  }

  function Burst(number: string, n: nat): (reqs: seq<Request>)
    ensures |reqs| == n
  {
    seq(n, _ => Request(0, number, number))
  }

  /** So none of the bounds holds then: any number of requests is accepted at one instant. */
  lemma {:induction false} DisabledIsUnbounded(cfg: Config, number: string, n: nat, who: Option<string>, window: nat)
    requires !cfg.enabled && number != "" && (who == None || who == Some(number))
    ensures CountAccepted(cfg, Burst(number, n), who, 0, window) == n
  {
    hide NaiveLimits;
    if n > 0 {
      var reqs := Burst(number, n);
      assert reqs[..n - 1] == Burst(number, n - 1);
      DisabledIsUnbounded(cfg, number, n - 1, who, window);
      DisabledAcceptsAll(cfg, reqs);
    }
  }

  predicate LimitHit(o: Outcome) { o.MinuteExceeded? || o.HourExceeded? || o.DayExceeded? || o.NumberExceeded? }

  ghost predicate ClockRuns(reqs: seq<Request>) {
    forall i, j :: 0 <= i < j < |reqs| ==> reqs[i].now <= reqs[j].now
  }

  lemma {:induction false} CooldownHolds(cfg: Config, reqs: seq<Request>, i: nat, j: nat)
    requires ClockRuns(reqs) && cfg.cooldown > 0
    requires i < j <= |reqs|
    requires LimitHit(Answer(cfg, reqs, i))
    requires j < |reqs| ==> reqs[j].now < reqs[i].now + cfg.cooldown
    requires reqs[j - 1].now < reqs[i].now + cfg.cooldown
    ensures RunNaive(cfg, reqs[..j]).cooldownUntil == reqs[i].now + cfg.cooldown
    decreases j
  {
    hide NaiveLimits;
    assert reqs[..j][..j - 1] == reqs[..j - 1] && reqs[..j][j - 1] == reqs[j - 1];
    if j > i + 1 {
      assert reqs[j - 2].now <= reqs[j - 1].now;
      CooldownHolds(cfg, reqs, i, j - 1);
    }
  }

  /** Once a limit was hit nothing is accepted before the cooldown ends. */
  lemma NothingDuringCooldown(cfg: Config, reqs: seq<Request>, i: nat, j: nat)
    requires ClockRuns(reqs) && cfg.cooldown > 0
    requires i < j < |reqs|
    requires LimitHit(Answer(cfg, reqs, i))
    requires reqs[j].now < reqs[i].now + cfg.cooldown
    ensures Answer(cfg, reqs, j) == if reqs[j].number == "" then EmptyNumber else Cooldown
  {
    hide NaiveLimits, RunNaive;
    assert reqs[j - 1].now <= reqs[j].now;
    CooldownHolds(cfg, reqs, i, j);
  }

  // ---------------------------------------------------------------- every answer of every run

  /** The requests accepted before request `i`, in the window of this length that ends with it, have reached a
      positive maximum. */
  predicate Reached(cfg: Config, reqs: seq<Request>, i: nat, who: Option<string>, max: int, window: int)
    requires i < |reqs|
  {
    max > 0 && CountAccepted(cfg, reqs[..i], who, reqs[i].now - window, reqs[i].now) >= max
  }

  /** An earlier request hit a limit, and the cooldown that followed is not over. */
  ghost predicate CoolingDown(cfg: Config, reqs: seq<Request>, i: nat)
    requires i < |reqs|
  {
    cfg.cooldown > 0 && exists j :: 0 <= j < i && LimitHit(Answer(cfg, reqs, j)) && reqs[i].now < reqs[j].now + cfg.cooldown
  }

  lemma {:induction false} CountUpTo(ts: seq<int>, cutoff: int, now: int)
    requires forall i :: 0 <= i < |ts| ==> ts[i] <= now
    ensures CountSince(ts, cutoff) == CountIn(ts, cutoff, now)
  {
    if ts != [] { CountUpTo(ts[..|ts| - 1], cutoff, now); }
  }

  /** The log only holds times of earlier requests. */
  lemma {:induction false} LogOrdered(cfg: Config, reqs: seq<Request>, clock: int)
    requires ClockRuns(reqs) && (reqs != [] ==> reqs[|reqs| - 1].now <= clock)
    ensures Ordered(RunNaive(cfg, reqs).log, clock)
  {
    hide NaiveLimits;
    if reqs != [] {
      var n := |reqs| - 1;
      assert ClockRuns(reqs[..n]);
      LogOrdered(cfg, reqs[..n], reqs[n].now);
    }
  }

  lemma ExceededIsReached(cfg: Config, reqs: seq<Request>, i: nat, who: Option<string>, max: int, window: int)
    requires cfg.enabled && ClockRuns(reqs) && i < |reqs|
    ensures Exceeded(RunNaive(cfg, reqs[..i]).log, who, max, reqs[i].now - window) <==> Reached(cfg, reqs, i, who, max, window)
  {
    hide RunNaive, CountAccepted, CountIn, CountSince, Times, Ordered;
    var log := RunNaive(cfg, reqs[..i]).log;
    assert ClockRuns(reqs[..i]);
    LogOrdered(cfg, reqs[..i], reqs[i].now);
    TimesSorted(log, who, reqs[i].now);
    var ts := Times(log, who);
    assert forall j :: 0 <= j < |ts| ==> ts[j] in ts;
    CountUpTo(ts, reqs[i].now - window, reqs[i].now);
    LogIsAccepted(cfg, reqs[..i], who, reqs[i].now - window, reqs[i].now);
  }

  /** The end of the running cooldown is that of the last limit that was hit. */
  lemma {:induction false} CooldownEnd(cfg: Config, reqs: seq<Request>, i: nat, now: nat)
    requires ClockRuns(reqs) && i <= |reqs| && (i > 0 ==> reqs[i - 1].now <= now)
    ensures now < RunNaive(cfg, reqs[..i]).cooldownUntil <==>
            cfg.cooldown > 0 && exists j :: 0 <= j < i && LimitHit(Answer(cfg, reqs, j)) && now < reqs[j].now + cfg.cooldown
    decreases i
  {
    hide NaiveLimits, RunNaive;
    if i == 0 {
      RunNothing(cfg);
      assert reqs[..0] == [];
    } else {
      var last := i - 1;
      if last > 0 { assert reqs[last - 1].now <= reqs[last].now; }
      CooldownEnd(cfg, reqs, last, now);
      RunLast(cfg, reqs, i);
      var until := RunNaive(cfg, reqs[..i]).cooldownUntil;
      if cfg.cooldown > 0 && LimitHit(Answer(cfg, reqs, last)) {
        assert until == reqs[last].now + cfg.cooldown;
        assert forall j :: 0 <= j < i ==> reqs[j].now <= reqs[last].now;
      } else {
        assert until == RunNaive(cfg, reqs[..last]).cooldownUntil;
      }
    }
  }

  lemma RunNothing(cfg: Config)
    ensures RunNaive(cfg, []) == Naive([], 0)
  {
  }

  lemma RunLast(cfg: Config, reqs: seq<Request>, i: nat)
    requires 0 < i <= |reqs|
    ensures var before, r := RunNaive(cfg, reqs[..i - 1]), reqs[i - 1];
            RunNaive(cfg, reqs[..i]) == NaiveCheck(cfg, before, r.now, r.number, r.cleaned).0
  {
    hide NaiveCheck;
    assert reqs[..i][..i - 1] == reqs[..i - 1] && reqs[..i][i - 1] == reqs[i - 1];
  }

  /** The first of the four windows, in this order, that has reached its maximum. */
  function FirstReached(cfg: Config, reqs: seq<Request>, i: nat): Outcome
    requires i < |reqs|
  {
    if Reached(cfg, reqs, i, None, cfg.maxPerMinute, 60_000_000_000) then MinuteExceeded
    else if Reached(cfg, reqs, i, None, cfg.maxPerHour, 3_600_000_000_000) then HourExceeded
    else if Reached(cfg, reqs, i, None, cfg.maxPerDay, 86_400_000_000_000) then DayExceeded
    else if Reached(cfg, reqs, i, Some(reqs[i].cleaned), cfg.maxPerNumberPerHour, 3_600_000_000_000) then NumberExceeded
    else Accepted
  }

  /** Every answer of every run of an enabled limiter, from the answers before it: a request that names a number is
      refused while a cooldown runs, otherwise for the first window that has reached its maximum, and otherwise it is
      accepted. A cooldown refuses nothing from its end on. */
  lemma EveryAnswer(cfg: Config, reqs: seq<Request>, i: nat)
    requires cfg.enabled && ClockRuns(reqs) && i < |reqs| && reqs[i].number != ""
    ensures Answer(cfg, reqs, i) == Cooldown <==> CoolingDown(cfg, reqs, i)
    ensures !CoolingDown(cfg, reqs, i) ==> Answer(cfg, reqs, i) == FirstReached(cfg, reqs, i)
    ensures Answer(cfg, reqs, i) == Accepted <==>
              && !CoolingDown(cfg, reqs, i)
              && !Reached(cfg, reqs, i, None, cfg.maxPerMinute, MINUTE)
              && !Reached(cfg, reqs, i, None, cfg.maxPerHour, HOUR)
              && !Reached(cfg, reqs, i, None, cfg.maxPerDay, DAY)
              && !Reached(cfg, reqs, i, Some(reqs[i].cleaned), cfg.maxPerNumberPerHour, HOUR)
  {
    hide RunNaive, Exceeded, Reached, ClockRuns;
    assert i > 0 ==> reqs[i - 1].now <= reqs[i].now by { LaterIsLater(reqs, i); }
    CooldownEnd(cfg, reqs, i, reqs[i].now);
    ExceededIsReached(cfg, reqs, i, None, cfg.maxPerMinute, MINUTE);
    ExceededIsReached(cfg, reqs, i, None, cfg.maxPerHour, HOUR);
    ExceededIsReached(cfg, reqs, i, None, cfg.maxPerDay, DAY);
    ExceededIsReached(cfg, reqs, i, Some(reqs[i].cleaned), cfg.maxPerNumberPerHour, HOUR);
  }

  lemma LaterIsLater(reqs: seq<Request>, i: nat)
    requires ClockRuns(reqs) && i < |reqs|
    ensures i > 0 ==> reqs[i - 1].now <= reqs[i].now
  {
  }

  // ---------------------------------------------------------------- the code

  /** A limiter without a past. */
  lemma FreshStart(cfg: Config, clock: int)
    ensures Ordered([], clock) && WithinLimits(cfg, [])
    ensures forall who, horizon: int :: Tracks([], Times([], who), horizon)
  {
  }

  class RateLimiter {
    const cfg: Config
    const normalize: string -> string
    var minuteHistory: seq<int>
    var hourHistory: seq<int>
    var dayHistory: seq<int>
    var perNumberHistory: map<string, seq<int>>
    var cooldownUntil: int
    /** The accepted sends since the last Reset, and the last clock reading. */
    ghost var log: seq<Send>
    ghost var clock: int

    ghost function HistoryOf(n: string): seq<int>
      reads this
    {
      if n in perNumberHistory then perNumberHistory[n] else []
    }

    /** The pruned histories still hold everything that a window ending now or later can see. */
    ghost predicate Valid()
      reads this
    {
      && Ordered(log, clock)
      && Tracks(minuteHistory, Times(log, None), clock - MINUTE)
      && Tracks(hourHistory, Times(log, None), clock - HOUR)
      && Tracks(dayHistory, Times(log, None), clock - DAY)
      && (forall n: string :: Tracks(HistoryOf(n), Times(log, Some(n)), clock - HOUR))
      && WithinLimits(cfg, log)
    }

    constructor (cfg: Config, normalize: string -> string)
      ensures this.cfg == cfg && this.normalize == normalize
      ensures Valid() && log == [] && cooldownUntil == 0 && clock == 0
    {
      hide Times, WithinLimits, Tracks, Ordered;
      this.cfg := cfg;
      this.normalize := normalize;
      minuteHistory, hourHistory, dayHistory := [], [], [];
      perNumberHistory := map[];
      cooldownUntil := 0;
      log := [];
      clock := 0;
      new;
      FreshStart(cfg, clock);
    }

    method Reset()
      modifies this
      ensures log == [] && cooldownUntil == 0 && clock == old(clock)
      ensures Valid()
    {
      hide Times, WithinLimits, Tracks, Ordered;
      minuteHistory, hourHistory, dayHistory := [], [], [];
      perNumberHistory := map[];
      cooldownUntil := 0;
      log := [];
      FreshStart(cfg, clock);
    }

    /** Early returns leave the later windows unpruned; the answer is that of the full scan all the same. */
    method CheckLimits(now: nat, number: string) returns (err: Outcome)
      requires Valid() && clock <= now
      modifies this
      ensures Valid() && clock == now && log == old(log) && cooldownUntil == old(cooldownUntil)
      ensures err == NaiveLimits(cfg, log, now, number)
    {
      hide Tracks, Sorted, Ordered, Times, CountSince, Pruned, WithinLimits;
      AdvanceClock(now);
      WindowCounts(minuteHistory, log, None, now, MINUTE);
      WindowCounts(hourHistory, log, None, now, HOUR);
      WindowCounts(dayHistory, log, None, now, DAY);

      minuteHistory := PruneOlderThan(minuteHistory, now - MINUTE);
      if cfg.maxPerMinute > 0 && |minuteHistory| >= cfg.maxPerMinute {
        return MinuteExceeded;
      }
      hourHistory := PruneOlderThan(hourHistory, now - HOUR);
      if cfg.maxPerHour > 0 && |hourHistory| >= cfg.maxPerHour {
        return HourExceeded;
      }
      dayHistory := PruneOlderThan(dayHistory, now - DAY);
      if cfg.maxPerDay > 0 && |dayHistory| >= cfg.maxPerDay {
        return DayExceeded;
      }
      var count := PruneNumber(now, number);
      if cfg.maxPerNumberPerHour > 0 && count >= cfg.maxPerNumberPerHour {
        return NumberExceeded;
      }
      return Accepted;
    }

    /** The history of one number is pruned, and forgotten when nothing is left of it. */
    method PruneNumber(now: nat, number: string) returns (count: nat)
      requires Ordered(log, now)
      requires forall n: string :: Tracks(HistoryOf(n), Times(log, Some(n)), now - HOUR)
      modifies this`perNumberHistory
      ensures forall n: string :: Tracks(HistoryOf(n), Times(log, Some(n)), now - HOUR)
      ensures count == CountSince(Times(log, Some(number)), now - HOUR)
    {
      hide Tracks, Sorted, Ordered, Times, CountSince, Pruned;
      WindowCounts(HistoryOf(number), log, Some(number), now, HOUR);
      var numHistory := PruneOlderThan(if number in perNumberHistory then perNumberHistory[number] else [], now - HOUR);
      if |numHistory| == 0 {
        perNumberHistory := perNumberHistory - {number};
      } else {
        perNumberHistory := perNumberHistory[number := numHistory];
      }
      count := |numHistory|;
      assert forall n: string :: HistoryOf(n) == if n == number then numHistory else old(HistoryOf(n));
    }

    /** Reading the clock later only moves the horizons. */
    ghost method AdvanceClock(now: nat)
      requires Valid() && clock <= now
      modifies this`clock
      ensures Valid() && clock == now
    {
      hide Times, WithinLimits;
      clock := now;
    }

    method RecordSend(now: nat, number: string)
      requires Valid() && clock == now
      requires WithinLimits(cfg, log + [Send(now, number)])
      modifies this
      ensures Valid() && clock == now && log == old(log) + [Send(now, number)] && cooldownUntil == old(cooldownUntil)
    {
      hide Tracks, Times, WithinLimits;
      ghost var s := Send(now, number);
      TimesAppend(log, s, None);
      TracksAppend(minuteHistory, Times(log, None), clock - MINUTE, now);
      TracksAppend(hourHistory, Times(log, None), clock - HOUR, now);
      TracksAppend(dayHistory, Times(log, None), clock - DAY, now);
      forall n: string ensures Tracks(if n == number then HistoryOf(n) + [now] else HistoryOf(n), Times(log + [s], Some(n)), clock - HOUR) {
        TimesAppend(log, s, Some(n));
        TracksAppend(HistoryOf(n), Times(log, Some(n)), clock - HOUR, now);
      }
      minuteHistory := minuteHistory + [now];
      hourHistory := hourHistory + [now];
      dayHistory := dayHistory + [now];
      perNumberHistory := perNumberHistory[number := (if number in perNumberHistory then perNumberHistory[number] else []) + [now]];
      log := log + [s];
      assert forall n: string :: HistoryOf(n) == if n == number then old(HistoryOf(n)) + [now] else old(HistoryOf(n));
    }

    /** The limiter with pruned lists answers as the naive limiter that scans the full log. */
    method Check(now: nat, number: string) returns (err: Outcome)
      requires Valid() && clock <= now
      modifies this
      ensures Valid() && clock <= now
      ensures (Naive(log, cooldownUntil), err)
           == NaiveCheck(cfg, old(Naive(log, cooldownUntil)), now, TrimSpace(number), normalize(TrimSpace(number)))
    {
      hide Tracks, Times, WithinLimits, Ordered, NaiveLimits, TrimSpace;
      var trimmed := TrimSpace(number);
      if trimmed == "" {
        return EmptyNumber;
      }
      if !cfg.enabled {
        return Accepted;
      }
      if now < cooldownUntil {
        return Cooldown;
      }
      var cleaned := normalize(trimmed);
      CheckKeepsLimits(cfg, Naive(log, cooldownUntil), now, trimmed, cleaned);
      err := CheckLimits(now, cleaned);
      if err != Accepted {
        if cfg.cooldown > 0 {
          cooldownUntil := now + cfg.cooldown;
        }
        return;
      }
      RecordSend(now, cleaned);
    }
  }
}
