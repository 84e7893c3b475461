/** The loop that polls a run until it ends: backoff, error budget, and the two-tier stall watchdog. */
module Polling {
  import opened Php

  const MAX_POLL_ERRORS: nat := 20
  const HARD_STALL_MS: int := 600_000
  const MIN_DELAY: int := 2000
  const MAX_DELAY: int := 10000

  datatype Status = Running | Done | Error

  /** One answer of the server: none (or not `ok`, or not JSON), or the run as it stands, with the
      number of result rows it has so far, whether the answer says that number, and whether it
      carries the final result. */
  datatype Reply = Failure | Reply(status: Status, received: nat, rows: nat, saysTotal: bool, final: bool)

  /** Why the loop stopped. */
  datatype Outcome = Finished | RunFailed | Stuck | LostConnection

  /** What surrounds the loop: the server's answer to each poll, the time each fetch takes, and the
      time between reading the clock for the progress stamp and for the stall check. */
  datatype World<!R> = World(server: nat -> Reply, latency: nat -> nat, lag: nat -> nat, rows: seq<R>)

  /** Answers are bounded by `bound`, and the rows of the run only grow. */
  ghost predicate Honest<R>(w: World<R>, bound: nat) {
    && (forall i: nat :: w.server(i).Reply? ==> w.server(i).received <= bound && w.server(i).rows <= |w.rows|)
    && (forall i: nat, j: nat :: i <= j && w.server(i).Reply? && w.server(j).Reply? ==>
          w.server(i).rows <= w.server(j).rows)
  }

  /** The run shows progress, or its end, at poll `first` at the latest. */
  predicate Progresses<R>(w: World<R>, first: nat) {
    w.server(first).Reply? && (w.server(first).received > 0 || !w.server(first).status.Running?)
  }

  /** The fields the loop keeps.  `armedAt` is the time of the last progress, 0 while there was none. */
  datatype Loop<R> = Loop(errors: nat, delay: int, seen: nat, best: nat, armedAt: int, now: int, results: seq<R>)

  function Min(a: int, b: int): int { if a < b then a else b }

  /* ----- what a run of polls amounts to, read off the server's answers ----- */

  /** The most progress that any of the first `n` polls was told of. */
  ghost function Best<R>(w: World<R>, n: nat): nat {
    if n == 0 then 0
    else if w.server(n - 1).Reply? && w.server(n - 1).received > Best(w, n - 1) then w.server(n - 1).received
    else Best(w, n - 1)
  }

  /** The last of the first `n` polls that was told of more progress than all before it, or -1. */
  ghost function LastProgress<R>(w: World<R>, n: nat): (j: int)
    ensures -1 <= j < n
  {
    if n == 0 then -1
    else if w.server(n - 1).Reply? && w.server(n - 1).received > Best(w, n - 1) then n - 1
    else LastProgress(w, n - 1)
  }

  /** How many rows of the run are known after `n` polls. */
  ghost function RowsSeen<R>(w: World<R>, n: nat): nat {
    if n == 0 then 0 else if w.server(n - 1).Reply? then w.server(n - 1).rows else RowsSeen(w, n - 1)
  }

  /** How many of the polls just before poll `n` failed in a row. */
  ghost function Failures<R>(w: World<R>, n: nat): (m: nat)
    ensures m <= n
  {
    if n == 0 || w.server(n - 1).Reply? then 0 else Failures(w, n - 1) + 1
  }

  /** The delay before poll `n`: doubled by a failure, short after news, and slowly growing without. */
  ghost function Delay<R>(w: World<R>, n: nat): int {
    if n == 0 then 2000
    else if w.server(n - 1).Failure? then Min(2 * Delay(w, n - 1), 10000)
    else if w.server(n - 1).rows > RowsSeen(w, n - 1) then 2000
    else Min(Delay(w, n - 1) + 500, 5000)
  }

  /** When poll `n` is sent, and when its answer is there. */
  ghost function SentAt<R>(w: World<R>, start: int, n: nat): int
    decreases n, 0
  {
    if n == 0 then start else CheckedAt(w, start, n - 1) + Delay(w, n)
  }

  ghost function AnsweredAt<R>(w: World<R>, start: int, n: nat): int
    decreases n, 1
  {
    SentAt(w, start, n) + w.latency(n)
  }

  /** When the answer has been dealt with. */
  ghost function CheckedAt<R>(w: World<R>, start: int, n: nat): int
    decreases n, 2
  {
    AnsweredAt(w, start, n) + if w.server(n).Reply? then w.lag(n) else 0
  }

  /** Does poll `k` end the loop, and how? */
  ghost function Verdict<R>(w: World<R>, start: int, k: nat): Option<Outcome> {
    match w.server(k)
    case Failure => if Failures(w, k) + 1 >= 20 then Some(LostConnection) else None
    case Reply(status, _, _, _, final) =>
      (match status
       case Done => Some(if final then Finished else RunFailed)
       case Error => Some(RunFailed)
       case Running => if Stalled(w, start, k) then Some(Stuck) else None)
  }

  /** More than ten minutes have passed since the last progress, if there was any. */
  ghost predicate Stalled<R>(w: World<R>, start: int, k: nat) {
    var j := LastProgress(w, k + 1);
    j != -1 && CheckedAt(w, start, k) - AnsweredAt(w, start, j) > 600_000
  }

  lemma {:induction false} BestIsLargest<R>(w: World<R>, n: nat)
    ensures forall k :: 0 <= k < n && w.server(k).Reply? ==> w.server(k).received <= Best(w, n)
    ensures Best(w, n) > 0 ==> exists k :: 0 <= k < n && w.server(k).Reply? && w.server(k).received == Best(w, n)
  {
    if n == 0 {
    } else {
      BestIsLargest(w, n - 1);
      if w.server(n - 1).Reply? {
        var r := w.server(n - 1).received;
        assert r > Best(w, n - 1) ==> Best(w, n) == w.server(n - 1).received;
      }
    }
  }

  /** Poll `j` was told of more progress than any before it, and none up to poll `k` of more than it. */
  ghost predicate ProgressedLast<R>(w: World<R>, j: nat, k: nat) {
    && j <= k && w.server(j).Reply? && w.server(j).received > 0
    && (forall i :: 0 <= i < j && w.server(i).Reply? ==> w.server(i).received < w.server(j).received)
    && (forall i :: j < i <= k && w.server(i).Reply? ==> w.server(i).received <= w.server(j).received)
  }

  lemma {:induction false} LastProgressIs<R>(w: World<R>, k: nat)
    ensures var j := LastProgress(w, k + 1);
            if j == -1 then Best(w, k + 1) == 0
            else ProgressedLast(w, j, k) && Best(w, k + 1) == w.server(j).received
  {
    BestIsLargest(w, k);
    if k == 0 {
      assert Best(w, 0) == 0 && LastProgress(w, 0) == -1;
    } else {
      LastProgressIs(w, k - 1);
    }
  }

  lemma OnlyLast<R>(w: World<R>, i: nat, j: nat, k: nat)
    requires ProgressedLast(w, i, k) && ProgressedLast(w, j, k)
    ensures i == j
  {
  }

  /**
   * A run is called stuck exactly if the server still calls it running and more than ten minutes
   * have passed since it last told of more progress than ever before.
   */
  lemma StuckIsExact<R>(w: World<R>, start: int, k: nat)
    ensures Verdict(w, start, k) == Some(Stuck)
            <==> && w.server(k).Reply? && w.server(k).status.Running?
                 && exists j: nat :: ProgressedLast(w, j, k)
                                     && CheckedAt(w, start, k) - AnsweredAt(w, start, j) > 600_000
  {
    hide CheckedAt, AnsweredAt, LastProgress, Best, ProgressedLast;
    LastProgressIs(w, k);
    var last := LastProgress(w, k + 1);
    if j: nat :| ProgressedLast(w, j, k) && CheckedAt(w, start, k) - AnsweredAt(w, start, j) > 600_000 {
      BestOfProgressed(w, j, k);
      OnlyLast(w, j, last, k);
    }
  }

  lemma BestOfProgressed<R>(w: World<R>, j: nat, k: nat)
    requires ProgressedLast(w, j, k)
    ensures Best(w, k + 1) > 0
  {
    BestIsLargest(w, k + 1);
    assert w.server(j).received > 0;
  }

  lemma {:induction false} FailuresAre<R>(w: World<R>, n: nat)
    ensures forall k :: n - Failures(w, n) <= k < n ==> w.server(k).Failure?
    ensures Failures(w, n) < n ==> w.server(n - 1 - Failures(w, n)).Reply?
  {
    if n == 0 {
    } else {
      FailuresAre(w, n - 1);
    }
  }

  /** The connection is given up after twenty failures in a row. */
  lemma LostIsExact<R>(w: World<R>, start: int, k: nat)
    ensures Verdict(w, start, k) == Some(LostConnection)
            <==> k >= 19 && forall i :: k - 19 <= i <= k ==> w.server(i).Failure?
  {
    FailuresAre(w, k);
    var m := Failures(w, k);
    if k >= 19 && m < 19 {
      assert w.server(k - 1 - m).Reply?;
    }
  }

  /** How the other ends of a run are reported. */
  lemma EndIsExact<R>(w: World<R>, start: int, k: nat)
    ensures Verdict(w, start, k) == Some(Finished)
            <==> w.server(k).Reply? && w.server(k).status.Done? && w.server(k).final
    ensures Verdict(w, start, k) == Some(RunFailed)
            <==> w.server(k).Reply? && (w.server(k).status.Error? || (w.server(k).status.Done? && !w.server(k).final))
  {
  }

  /** The rows known are those of the last answer. */
  lemma {:induction false} RowsAreLast<R>(w: World<R>, n: nat, k: nat)
    requires k < n && w.server(k).Reply? && forall i :: k < i < n ==> w.server(i).Failure?
    ensures RowsSeen(w, n) == w.server(k).rows
  {
    if k < n - 1 {
      RowsAreLast(w, n - 1, k);
    }
  }

  lemma {:induction false} DelayBounds<R>(w: World<R>, n: nat)
    ensures MIN_DELAY <= Delay(w, n) <= MAX_DELAY
  {
    if n == 0 {
    } else {
      DelayBounds(w, n - 1);
    }
  }

  /* ----- how long it can still go on ----- */

  /** Polls left before the hard stall is certain to be noticed. */
  function StallLeft(sinceProgress: int): nat {
    if sinceProgress > HARD_STALL_MS || sinceProgress < 0 then 0 else (HARD_STALL_MS - sinceProgress) / MIN_DELAY + 1
  }

  /** Polls one stretch without progress can take: the stall budget, then the error budget. */
  const STRETCH: nat := 321

  function Fuel<R>(s: Loop<R>, bound: nat): int {
    (bound - s.best) * STRETCH
    + (if StallLeft(s.now - s.armedAt) > 0 then StallLeft(s.now - s.armedAt) + MAX_POLL_ERRORS
       else MAX_POLL_ERRORS - s.errors)
  }

  /** An unanswered poll uses up stall time, or once that is gone, one of the allowed errors. */
  lemma FuelAfterError<R>(s: Loop<R>, s': Loop<R>, bound: nat)
    requires s.errors < MAX_POLL_ERRORS && s'.errors == s.errors + 1 && s'.best == s.best <= bound
    requires s'.armedAt == s.armedAt <= s.now && s'.now >= s.now + MIN_DELAY
    ensures Fuel(s', bound) < Fuel(s, bound)
  {
  }

  /** An answered poll brings progress, or uses up stall time. */
  lemma FuelAfterReply<R>(s: Loop<R>, s': Loop<R>, bound: nat)
    requires s'.errors == 0 && s.errors < MAX_POLL_ERRORS && s.best <= s'.best <= bound && s'.best > 0
    requires s.armedAt <= s.now && s'.armedAt <= s'.now
    requires if s'.best > s.best then true
             else s'.armedAt == s.armedAt && s'.now >= s.now + MIN_DELAY && s.now - s.armedAt <= HARD_STALL_MS
    ensures s'.best > s.best && s.best == 0 ==> Fuel(s', bound) <= bound * STRETCH
    ensures Fuel(s', bound) < Fuel(s, bound)
  {
  }

  /* ----- the fields of the loop are what the answers amount to ----- */

  /** The time of the last progress among the first `n` polls. */
  ghost function Stamp<R>(w: World<R>, start: int, n: nat): int {
    if LastProgress(w, n) == -1 then 0 else AnsweredAt(w, start, LastProgress(w, n))
  }

  ghost function StateAt<R>(w: World<R>, start: int, n: nat): Loop<R>
    requires RowsSeen(w, n) <= |w.rows|
  {
    Loop(Failures(w, n), Delay(w, n), RowsSeen(w, n), Best(w, n), Stamp(w, start, n), SentAt(w, start, n),
         w.rows[..RowsSeen(w, n)])
  }

  lemma {:induction false} RowsGrow<R>(w: World<R>, bound: nat, n: nat)
    requires Honest(w, bound)
    ensures RowsSeen(w, n) <= |w.rows| && Best(w, n) <= bound
    ensures forall j: nat :: n <= j && w.server(j).Reply? ==> RowsSeen(w, n) <= w.server(j).rows
  {
    if n == 0 {
    } else {
      RowsGrow(w, bound, n - 1);
    }
  }

  lemma {:induction false} ClockRuns<R>(w: World<R>, start: int, n: nat)
    requires start > 0
    ensures SentAt(w, start, n) >= start
    ensures 0 <= Stamp(w, start, n) <= SentAt(w, start, n) && (Stamp(w, start, n) == 0 <==> Best(w, n) == 0)
    ensures n > 0 ==> Stamp(w, start, n) <= CheckedAt(w, start, n - 1)
  {
    if n == 0 {
    } else {
      hide Delay;
      ClockRuns(w, start, n - 1);
      DelayBounds(w, n);
      assert CheckedAt(w, start, n - 1) >= AnsweredAt(w, start, n - 1) >= SentAt(w, start, n - 1);
    }
  }

  /** What lets the loop go on after poll `i`, in terms of its fields. */
  lemma GoesOn<R>(w: World<R>, start: int, bound: nat, i: nat)
    requires Honest(w, bound) && start > 0 && Failures(w, i) < MAX_POLL_ERRORS && Verdict(w, start, i).None?
    ensures RowsSeen(w, i) <= |w.rows| && RowsSeen(w, i + 1) <= |w.rows|
    ensures var s, s' := StateAt(w, start, i), StateAt(w, start, i + 1);
            if s.armedAt == 0 then s'.armedAt != 0 ==> Fuel(s', bound) <= bound * STRETCH
            else s'.armedAt != 0 && Fuel(s', bound) < Fuel(s, bound)
  {
    hide Fuel, StallLeft;
    RowsGrow(w, bound, i);
    RowsGrow(w, bound, i + 1);
    ClockRuns(w, start, i);
    ClockRuns(w, start, i + 1);
    DelayBounds(w, i + 1);
    var s, s' := StateAt(w, start, i), StateAt(w, start, i + 1);
    hide Delay, RowsSeen, Honest;
    if w.server(i).Failure? {
      if s.armedAt != 0 {
        FuelAfterError(s, s', bound);
      }
    } else if s'.armedAt != 0 {
      FuelAfterReply(s, s', bound);
    }
  }

  lemma FirstArms<R>(w: World<R>, start: int, first: nat)
    requires start > 0 && Progresses(w, first)
    ensures Verdict(w, start, first).Some? || Stamp(w, start, first + 1) != 0
  {
    ClockRuns(w, start, first + 1);
    BestIsLargest(w, first + 1);
  }

  lemma AfterFailure<R>(w: World<R>, start: int, i: nat)
    requires w.server(i).Failure?
    ensures Failures(w, i + 1) == Failures(w, i) + 1 && RowsSeen(w, i + 1) == RowsSeen(w, i)
    ensures Delay(w, i + 1) == Min(2 * Delay(w, i), 10000)
    ensures Best(w, i + 1) == Best(w, i) && Stamp(w, start, i + 1) == Stamp(w, start, i)
    ensures SentAt(w, start, i + 1) == SentAt(w, start, i) + w.latency(i) + Delay(w, i + 1)
    ensures Verdict(w, start, i) == if Failures(w, i) + 1 >= 20 then Some(LostConnection) else None
  {
    assert CheckedAt(w, start, i) == AnsweredAt(w, start, i);
  }

  lemma AfterReply<R>(w: World<R>, start: int, i: nat)
    requires w.server(i).Reply? && start > 0
    ensures var r, now := w.server(i), SentAt(w, start, i) + w.latency(i);
            && Failures(w, i + 1) == 0 && RowsSeen(w, i + 1) == r.rows
            && Delay(w, i + 1) == (if r.rows > RowsSeen(w, i) then 2000 else Min(Delay(w, i) + 500, 5000))
            && Best(w, i + 1) == (if r.received > Best(w, i) then r.received else Best(w, i))
            && Stamp(w, start, i + 1) == (if r.received > Best(w, i) then now else Stamp(w, start, i))
            && SentAt(w, start, i + 1) == now + w.lag(i) + Delay(w, i + 1)
            && Verdict(w, start, i)
               == (match r.status
                   case Done => Some(if r.final then Finished else RunFailed)
                   case Error => Some(RunFailed)
                   case Running =>
                     if Stamp(w, start, i + 1) != 0 && now + w.lag(i) - Stamp(w, start, i + 1) > 600_000
                     then Some(Stuck) else None)
  {
    assert CheckedAt(w, start, i) == AnsweredAt(w, start, i) + w.lag(i);
    var j := LastProgress(w, i + 1);
    ClockRuns(w, start, i + 1);
    if j != -1 {
      LastProgressIs(w, i);
    }
  }

  /** One turn of the loop body; `stop` is the outcome if it returned. */
  method Turn<R>(s: Loop<R>, w: World<R>, i: nat, ghost start: int, ghost bound: nat)
    returns (s': Loop<R>, stop: seq<Outcome>)
    requires Honest(w, bound) && start > 0 && RowsSeen(w, i) <= |w.rows| && s == StateAt(w, start, i)
    requires Failures(w, i) < MAX_POLL_ERRORS
    ensures RowsSeen(w, i + 1) <= |w.rows|
    ensures Verdict(w, start, i) == (if stop == [] then None else Some(stop[0]))
    ensures stop == [] ==> s' == StateAt(w, start, i + 1) && Failures(w, i + 1) < MAX_POLL_ERRORS
    ensures s'.results == w.rows[..RowsSeen(w, i + 1)]
  {
    RowsGrow(w, bound, i);
    RowsGrow(w, bound, i + 1);
    if w.server(i).Failure? {
      AfterFailure(w, start, i);
    } else {
      AfterReply(w, start, i);
    }
    hide Honest, Failures, Delay, RowsSeen, Best, Stamp, SentAt, Verdict;
    var errors, delay, seen, best, armedAt, results := s.errors, s.delay, s.seen, s.best, s.armedAt, s.results;
    var data := w.server(i);
    var now := s.now + w.latency(i);
    if data.Failure? {
      errors := errors + 1;
      if errors >= MAX_POLL_ERRORS {
        return Loop(errors, delay, seen, best, armedAt, now, results), [LostConnection];
      }
      delay := if delay * 2 < MAX_DELAY then delay * 2 else MAX_DELAY;
      s' := Loop(errors, delay, seen, best, armedAt, now + delay, results);
      return s', [];
    }
    errors := 0;
    var newResults := if seen > 0 then w.rows[seen..data.rows] else w.rows[..data.rows];
    if |newResults| > 0 {
      seen := if data.saysTotal then data.rows else seen + |newResults|;
      delay := 2000;
    } else {
      delay := if delay + 500 < 5000 then delay + 500 else 5000;
    }
    assert results + newResults == w.rows[..data.rows];
    results := results + newResults;
    if data.received > best {
      best := data.received;
      armedAt := now;
    }
    now := now + w.lag(i);
    var stalledMs := if armedAt == 0 then 0 else now - armedAt;
    s' := Loop(errors, delay, seen, best, armedAt, now, results);
    if data.status.Done? || data.status.Error? {
      if data.status.Done? && data.final { return s', [Finished]; }
      return s', [RunFailed];
    }
    if data.status.Running? && armedAt != 0 && stalledMs > HARD_STALL_MS {
      return s', [Stuck];
    }
    s' := s'.(now := now + delay);
    return s', [];
  }

  /**
   * The loop.  It ends with the first poll that decides, and as that poll decides; it waits as the
   * answers have it in between, and has gathered the rows of the run, each once, in order.  Once
   * the run shows a first sign of life, that is within 321 polls for each unit of progress there
   * can be, against every server.
   */
  method PollRunStatus<R>(w: World<R>, start: int, ghost bound: nat, ghost first: nat)
    returns (outcome: Outcome, end: Loop<R>, polls: nat, delays: seq<int>)
    requires start > 0 && Honest(w, bound) && Progresses(w, first)
    ensures 0 < polls <= first + 1 + bound * STRETCH
    ensures Verdict(w, start, polls - 1) == Some(outcome)
    ensures forall k :: 0 <= k < polls - 1 ==> Verdict(w, start, k).None?
    ensures |delays| == polls - 1
    ensures forall k :: 0 <= k < polls - 1 ==> 2000 <= delays[k] <= 10_000
    ensures Paced(w, delays)
    ensures RowsSeen(w, polls) <= |w.rows| && end.results == w.rows[..RowsSeen(w, polls)]
  {
    hide Verdict, Fuel, Delay, NextDelay, Paced, RowsSeen, Best, Honest, SentAt, Failures, Stamp,
         LastProgress, Progresses;
    var s: Loop<R> := Loop(0, 2000, 0, 0, 0, start, []);
    AtFirst(w, start);
    polls, delays := 0, [];
    assert Paced(w, delays) by { NoDelays(w); }
    while true
      invariant RowsSeen(w, polls) <= |w.rows| && s == StateAt(w, start, polls)
      invariant Failures(w, polls) < MAX_POLL_ERRORS
      invariant Stamp(w, start, polls) == 0 ==> polls <= first
      invariant Stamp(w, start, polls) != 0 ==> polls + Fuel(s, bound) <= first + 1 + bound * STRETCH
      invariant forall k :: 0 <= k < polls ==> Verdict(w, start, k).None?
      invariant |delays| == polls
      invariant forall k :: 0 <= k < polls ==> delays[k] == Delay(w, k + 1) && MIN_DELAY <= delays[k] <= MAX_DELAY
      invariant Paced(w, delays)
      decreases if Stamp(w, start, polls) == 0 then first + 1 - polls else 0, Fuel(s, bound)
    {
      FuelIsLeft(w, start, bound, polls);
      var s', stop := Turn(s, w, polls, start, bound);
      if stop != [] {
        return stop[0], s', polls + 1, delays;
      }
      GoesOn(w, start, bound, polls);
      if polls == first {
        FirstArms(w, start, first);
      }
      DelayBounds(w, polls + 1);
      DelayFollows(w, polls);
      PacedSnoc(w, delays, s'.delay);
      polls := polls + 1;
      delays := delays + [s'.delay];
      s := s';
    }
  }

  /** The delay after poll `k`, given the one before it. */
  ghost function NextDelay<R>(w: World<R>, k: nat, before: int): int {
    match w.server(k)
    case Failure => if 2 * before > 10_000 then 10_000 else 2 * before
    case Reply(_, _, rows, _, _) =>
      if rows > RowsSeen(w, k) then 2000 else if before + 500 > 5000 then 5000 else before + 500
  }

  /** Each delay is doubled by a failure, two seconds after news, and else half a second longer, up to five. */
  ghost predicate Paced<R>(w: World<R>, delays: seq<int>) {
    forall k :: 0 <= k < |delays| ==> delays[k] == NextDelay(w, k, if k == 0 then 2000 else delays[k - 1])
  }

  lemma NoDelays<R>(w: World<R>)
    ensures Paced(w, [])
  {
  }

  lemma PacedSnoc<R>(w: World<R>, delays: seq<int>, d: int)
    requires Paced(w, delays) && d == NextDelay(w, |delays|, if delays == [] then 2000 else delays[|delays| - 1])
    ensures Paced(w, delays + [d])
  {
    var all := delays + [d];
    forall k | 0 <= k < |all|
      ensures all[k] == NextDelay(w, k, if k == 0 then 2000 else all[k - 1])
    {
      var before := if k == 0 then 2000 else delays[k - 1];
      assert before == if k == 0 then 2000 else all[k - 1];
      if k < |delays| {
        assert all[k] == delays[k] == NextDelay(w, k, before);
      } else {
        assert all[k] == d == NextDelay(w, k, before);
      }
    }
  }

  lemma DelayFollows<R>(w: World<R>, k: nat)
    ensures Delay(w, k + 1) == NextDelay(w, k, Delay(w, k)) && Delay(w, 0) == 2000
  {
  }

  lemma AtFirst<R>(w: World<R>, start: int)
    ensures RowsSeen(w, 0) == 0 && Failures(w, 0) == 0 && Stamp(w, start, 0) == 0
    ensures StateAt(w, start, 0) == Loop(0, 2000, 0, 0, 0, start, [])
  {
  }

  lemma FuelIsLeft<R>(w: World<R>, start: int, bound: nat, n: nat)
    requires Honest(w, bound) && start > 0 && RowsSeen(w, n) <= |w.rows| && Failures(w, n) < MAX_POLL_ERRORS
    ensures Fuel(StateAt(w, start, n), bound) >= 1
  {
    RowsGrow(w, bound, n);
  }
}
