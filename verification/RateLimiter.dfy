/** The fixed-window rate limiter of the edge middleware, with its lazy cleanup. */
module RateLimiter {

  const WINDOW_MS: int := 60 * 1000
  const CLEANUP_MS: int := 5 * 60 * 1000
  const GENERAL_LIMIT: nat := 100
  const SESSION_LIMIT: nat := 300
  const AUTH_LIMIT: nat := 10

  datatype Entry = Entry(count: nat, resetAt: int)

  datatype Answer = Answer(allowed: bool, retryAfter: int)

  type Table = map<string, Entry>

  function LimitFor(isAuth: bool, hasSession: bool): nat {
    if isAuth then AUTH_LIMIT else if hasSession then SESSION_LIMIT else GENERAL_LIMIT
  }

  /** `Math.ceil(ms / 1000)` for a non-negative number of milliseconds. */
  function CeilSeconds(ms: int): int {
    (ms + 999) / 1000
  }

  /** Is there no live window for the key? */
  predicate Expired(m: Table, key: string, now: int) {
    key !in m || now > m[key].resetAt
  }

  /** The table and the answer after one request. */
  function Count(m: Table, key: string, now: int): Table {
    if Expired(m, key, now) then m[key := Entry(1, now + WINDOW_MS)]
    else m[key := Entry(m[key].count + 1, m[key].resetAt)]
  }

  function Decide(m: Table, key: string, limit: nat, now: int): Answer {
    if Expired(m, key, now) || m[key].count + 1 <= limit then Answer(true, 0)
    else Answer(false, CeilSeconds(m[key].resetAt - now))
  }

  function Swept(m: Table, now: int): Table {
    map k | k in m && now <= m[k].resetAt :: m[k]
  }

  class Limiter {
    var entries: Table
    var lastCleanup: int

    constructor (now: int)
      ensures entries == map[] && lastCleanup == now
    {
      entries := map[];
      lastCleanup := now;
    }

    /** Every five minutes, walk the map and delete what has expired. */
    method CleanupExpired(now: int)
      modifies this
      ensures if now - old(lastCleanup) < 5 * 60 * 1000 then entries == old(entries) && lastCleanup == old(lastCleanup)
              else entries == Swept(old(entries), now) && lastCleanup == now
    {
      if now - lastCleanup < CLEANUP_MS { return; }
      lastCleanup := now;
      var pending := entries.Keys;
      while pending != {}
        invariant pending <= entries.Keys && lastCleanup == now
        invariant forall k :: k in entries ==> k in old(entries) && entries[k] == old(entries)[k]
        invariant forall k :: k in old(entries) && (k in pending || now <= old(entries)[k].resetAt) ==> k in entries
        invariant forall k :: k in entries && k !in pending ==> now <= entries[k].resetAt
        decreases pending
      {
        var key :| key in pending;
        if now > entries[key].resetAt {
          entries := entries - {key};
        }
        pending := pending - {key};
      }
    }

    /** The clock is read once by the cleanup and once by the check. */
    method CheckRateLimit(key: string, isAuth: bool, hasSession: bool, t1: int, t2: int) returns (a: Answer)
      modifies this
      ensures var base := if t1 - old(lastCleanup) < 5 * 60 * 1000 then old(entries) else Swept(old(entries), t1);
              && entries == Count(base, key, t2)
              && a == Decide(base, key, if isAuth then 10 else if hasSession then 300 else 100, t2)
      ensures lastCleanup == if t1 - old(lastCleanup) < CLEANUP_MS then old(lastCleanup) else t1
    {
      CleanupExpired(t1);
      var limit := LimitFor(isAuth, hasSession);
      if key !in entries || t2 > entries[key].resetAt {
        entries := entries[key := Entry(1, t2 + WINDOW_MS)];
        return Answer(true, 0);
      }
      var entry := entries[key];
      entries := entries[key := Entry(entry.count + 1, entry.resetAt)];
      if entry.count + 1 > limit {
        return Answer(false, CeilSeconds(entry.resetAt - t2));
      }
      return Answer(true, 0);
    }
  }

  /* ----- runs ----- */

  datatype Call = Call(key: string, limit: nat, t1: int, t2: int)

  /** The clock never goes back. */
  predicate Ordered(calls: seq<Call>, now: int)
    decreases |calls|
  {
    calls == [] || (now <= calls[0].t1 <= calls[0].t2 && Ordered(calls[1..], calls[0].t2))
  }

  /** The answers of the limiter as it is. */
  function Answers(m: Table, last: int, calls: seq<Call>): seq<Answer>
    decreases |calls|
  {
    if calls == [] then [] else
      var c := calls[0];
      var sweep := c.t1 - last >= CLEANUP_MS;
      var base := if sweep then Swept(m, c.t1) else m;
      [Decide(base, c.key, c.limit, c.t2)]
      + Answers(Count(base, c.key, c.t2), if sweep then c.t1 else last, calls[1..])
  }

  /** The answers of a limiter that never deletes anything. */
  function PureAnswers(m: Table, calls: seq<Call>): seq<Answer>
    decreases |calls|
  {
    if calls == [] then [] else
      [Decide(m, calls[0].key, calls[0].limit, calls[0].t2)]
      + PureAnswers(Count(m, calls[0].key, calls[0].t2), calls[1..])
  }

  /** The tables agree, except that the first may lack entries that are dead by `now`. */
  ghost predicate Agree(m: Table, full: Table, now: int) {
    forall k :: if k in m then k in full && m[k] == full[k] else k in full ==> full[k].resetAt < now
  }

  /** Cleanup is invisible: every answer of every run is the one given without it. */
  lemma {:induction false} CleanupInvisible(m: Table, full: Table, last: int, now: int, calls: seq<Call>)
    requires Agree(m, full, now) && Ordered(calls, now)
    ensures Answers(m, last, calls) == PureAnswers(full, calls)
    decreases |calls|
  {
    if calls == [] {
    } else {
      var c := calls[0];
      var sweep := c.t1 - last >= CLEANUP_MS;
      var base := if sweep then Swept(m, c.t1) else m;
      assert Agree(base, full, c.t2);
      var base', full' := Count(base, c.key, c.t2), Count(full, c.key, c.t2);
      assert Agree(base', full', c.t2);
      CleanupInvisible(base', full', if sweep then c.t1 else last, c.t2, calls[1..]);
    }
  }

  /* ----- how many are admitted ----- */

  /** Requests of `key` admitted in the closed interval from `a` to `b`. */
  function Admitted(m: Table, calls: seq<Call>, key: string, a: int, b: int): nat
    decreases |calls|
  {
    if calls == [] then 0 else
      var c := calls[0];
      (if c.key == key && a <= c.t2 <= b && Decide(m, c.key, c.limit, c.t2).allowed then 1 else 0)
      + Admitted(Count(m, c.key, c.t2), calls[1..], key, a, b)
  }

  predicate LimitOf(calls: seq<Call>, key: string, limit: nat) {
    forall i :: 0 <= i < |calls| && calls[i].key == key ==> calls[i].limit == limit
  }

  lemma {:induction false} NoneLate(m: Table, calls: seq<Call>, key: string, a: int, b: int, now: int)
    requires Ordered(calls, now) && b < now
    ensures Admitted(m, calls, key, a, b) == 0
    decreases |calls|
  {
    if calls == [] {
    } else {
      NoneLate(Count(m, calls[0].key, calls[0].t2), calls[1..], key, a, b, calls[0].t2);
    }
  }

  function Room(limit: nat, count: nat): nat {
    if count < limit then limit - count else 0
  }

  /** What can still be admitted in [a, a + WINDOW_MS], seen from the current entry of the key. */
  function Allowance(m: Table, key: string, limit: nat, a: int): int {
    if key !in m || m[key].resetAt < a then 2 * limit - 1
    else if m[key].resetAt < a + WINDOW_MS then Room(limit, m[key].count) + limit
    else Room(limit, m[key].count)
  }

  predicate Counted(m: Table, key: string) {
    key in m ==> m[key].count >= 1
  }

  /** Each admitted request of the interval uses up one unit of the allowance. */
  lemma AllowanceStep(m: Table, c: Call, key: string, limit: nat, a: int)
    requires limit >= 1 && Counted(m, key) && (c.key == key ==> c.limit == limit)
    requires c.t2 <= a + WINDOW_MS
    ensures Counted(Count(m, c.key, c.t2), key)
    ensures (if c.key == key && a <= c.t2 && Decide(m, c.key, c.limit, c.t2).allowed then 1 else 0)
            + Allowance(Count(m, c.key, c.t2), key, limit, a) <= Allowance(m, key, limit, a)
  {
  }

  lemma {:induction false} AllowanceBound(m: Table, calls: seq<Call>, key: string, limit: nat, a: int, now: int)
    requires limit >= 1 && Ordered(calls, now) && LimitOf(calls, key, limit) && Counted(m, key)
    ensures Admitted(m, calls, key, a, a + WINDOW_MS) <= Allowance(m, key, limit, a)
    decreases |calls|
  {
    if calls == [] {
    } else {
      var c, rest := calls[0], calls[1..];
      assert LimitOf(rest, key, limit) by {
        assert forall i :: 0 <= i < |rest| ==> rest[i] == calls[i + 1];
      }
      if c.t2 <= a + WINDOW_MS {
        AllowanceStep(m, c, key, limit, a);
        AllowanceBound(Count(m, c.key, c.t2), rest, key, limit, a, c.t2);
      } else {
        NoneLate(Count(m, c.key, c.t2), rest, key, a, a + WINDOW_MS, c.t2);
      }
    }
  }

  /**
   * Whatever the interleaving of keys, from an empty table every closed interval of one window
   * admits fewer than twice the limit.
   */
  lemma IntervalBound(calls: seq<Call>, key: string, limit: nat, a: int, now: int)
    requires limit >= 1 && Ordered(calls, now) && LimitOf(calls, key, limit)
    ensures Admitted(map[], calls, key, a, a + WINDOW_MS) <= 2 * limit - 1
  {
    AllowanceBound(map[], calls, key, limit, a, now);
  }

  /** Requests of `key` admitted into the window that ends at `end`. */
  function AdmittedInWindow(m: Table, calls: seq<Call>, key: string, end: int): nat
    decreases |calls|
  {
    if calls == [] then 0 else
      var c := calls[0];
      var m' := Count(m, c.key, c.t2);
      (if c.key == key && m'[key].resetAt == end && Decide(m, c.key, c.limit, c.t2).allowed then 1 else 0)
      + AdmittedInWindow(m', calls[1..], key, end)
  }

  /** A window that is over, or whose end lies before any window still to open, admits nobody. */
  lemma {:induction false} WindowOver(m: Table, calls: seq<Call>, key: string, end: int, now: int)
    requires Ordered(calls, now) && end < now + WINDOW_MS && (key in m ==> m[key].resetAt > end)
    ensures AdmittedInWindow(m, calls, key, end) == 0
    decreases |calls|
  {
    if calls == [] {
    } else {
      WindowOver(Count(m, calls[0].key, calls[0].t2), calls[1..], key, end, calls[0].t2);
    }
  }

  lemma {:induction false} OpenWindow(m: Table, calls: seq<Call>, key: string, limit: nat, end: int, now: int)
    requires Ordered(calls, now) && LimitOf(calls, key, limit)
    requires key in m && m[key].resetAt == end && end <= now + WINDOW_MS
    ensures AdmittedInWindow(m, calls, key, end) <= Room(limit, m[key].count)
    decreases |calls|
  {
    if calls == [] {
    } else {
      var c, rest := calls[0], calls[1..];
      assert LimitOf(rest, key, limit) by {
        assert forall i :: 0 <= i < |rest| ==> rest[i] == calls[i + 1];
      }
      var m' := Count(m, c.key, c.t2);
      if c.key == key && c.t2 > end {
        WindowOver(m', rest, key, end, c.t2);
      } else {
        OpenWindow(m', rest, key, limit, end, c.t2);
      }
    }
  }

  /** Each window admits at most `limit` requests. */
  lemma {:induction false} WindowBound(m: Table, calls: seq<Call>, key: string, limit: nat, end: int, now: int)
    requires limit >= 1 && Ordered(calls, now) && LimitOf(calls, key, limit)
    requires key in m ==> m[key].resetAt != end && m[key].resetAt <= now + WINDOW_MS
    ensures AdmittedInWindow(m, calls, key, end) <= limit
    decreases |calls|
  {
    if calls == [] {
    } else {
      var c, rest := calls[0], calls[1..];
      assert LimitOf(rest, key, limit) by {
        assert forall i :: 0 <= i < |rest| ==> rest[i] == calls[i + 1];
      }
      var m' := Count(m, c.key, c.t2);
      if key in m' && m'[key].resetAt == end {
        OpenWindow(m', rest, key, limit, end, c.t2);
      } else {
        WindowBound(m', rest, key, limit, end, c.t2);
      }
    }
  }

  /* ----- the bound is reached ----- */

  function Burst(key: string, limit: nat, t: int, n: nat): seq<Call> {
    if n == 0 then [] else [Call(key, limit, t, t)] + Burst(key, limit, t, n - 1)
  }

  lemma {:induction false} BurstOrdered(key: string, limit: nat, t: int, n: nat, rest: seq<Call>, now: int)
    requires now <= t && Ordered(rest, t)
    ensures Ordered(Burst(key, limit, t, n) + rest, now)
  {
    var b := Burst(key, limit, t, n);
    if n == 0 {
      assert b + rest == rest;
      if rest != [] { assert t <= rest[0].t1; }
    } else {
      BurstOrdered(key, limit, t, n - 1, rest, t);
      assert (b + rest)[1..] == Burst(key, limit, t, n - 1) + rest;
    }
  }

  /** A burst inside an open window with room for it is admitted whole. */
  lemma {:induction false} BurstAdmitted(m: Table, key: string, limit: nat, t: int, n: nat, rest: seq<Call>,
                                            a: int, b: int)
    requires key in m && t <= m[key].resetAt && m[key].count + n <= limit && a <= t <= b
    ensures Admitted(m, Burst(key, limit, t, n) + rest, key, a, b)
            == n + Admitted(m[key := Entry(m[key].count + n, m[key].resetAt)], rest, key, a, b)
    decreases n
  {
    var calls := Burst(key, limit, t, n) + rest;
    if n == 0 {
      assert calls == rest;
      assert m[key := Entry(m[key].count, m[key].resetAt)] == m;
    } else {
      assert calls[0] == Call(key, limit, t, t) && calls[1..] == Burst(key, limit, t, n - 1) + rest;
      var m' := Count(m, key, t);
      hide Burst;
      BurstAdmitted(m', key, limit, t, n - 1, rest, a, b);
      assert m'[key := Entry(m'[key].count + (n - 1), m'[key].resetAt)]
             == m[key := Entry(m[key].count + n, m[key].resetAt)];
    }
  }

  /** One request opens a window; the rest of its limit comes at the window's last moment, and a full
      limit just after. */
  function Worst(key: string, limit: nat): seq<Call>
    requires limit >= 1
  {
    Burst(key, limit, 0, 1) + (Burst(key, limit, WINDOW_MS, limit - 1) + Late(key, limit))
  }

  function Late(key: string, limit: nat): seq<Call>
    requires limit >= 1
  {
    Burst(key, limit, WINDOW_MS + 1, 1) + (Burst(key, limit, WINDOW_MS + 1, limit - 1) + [])
  }

  lemma WorstOrdered(key: string, limit: nat)
    requires limit >= 1
    ensures Ordered(Worst(key, limit), 0)
  {
    hide Burst;
    BurstOrdered(key, limit, WINDOW_MS + 1, limit - 1, [], WINDOW_MS + 1);
    BurstOrdered(key, limit, WINDOW_MS + 1, 1, Burst(key, limit, WINDOW_MS + 1, limit - 1) + [], WINDOW_MS);
    BurstOrdered(key, limit, WINDOW_MS, limit - 1, Late(key, limit), 0);
    BurstOrdered(key, limit, 0, 1, Burst(key, limit, WINDOW_MS, limit - 1) + Late(key, limit), 0);
  }

  lemma OneThen(m: Table, key: string, limit: nat, t: int, rest: seq<Call>, a: int, b: int)
    ensures Admitted(m, Burst(key, limit, t, 1) + rest, key, a, b)
            == (if a <= t <= b && Decide(m, key, limit, t).allowed then 1 else 0)
               + Admitted(Count(m, key, t), rest, key, a, b)
  {
    assert Burst(key, limit, t, 1) == [Call(key, limit, t, t)];
    assert (Burst(key, limit, t, 1) + rest)[1..] == rest;
  }

  lemma LateAdmitted(m: Table, key: string, limit: nat, a: int, b: int)
    requires limit >= 1 && Expired(m, key, WINDOW_MS + 1) && a <= WINDOW_MS + 1 <= b
    ensures Admitted(m, Late(key, limit), key, a, b) == limit
  {
    hide Admitted, Burst;
    var t := WINDOW_MS + 1;
    OneThen(m, key, limit, t, Burst(key, limit, t, limit - 1) + [], a, b);
    var m' := Count(m, key, t);
    BurstAdmitted(m', key, limit, t, limit - 1, [], a, b);
    NothingAdmitted(m'[key := Entry(limit, t + WINDOW_MS)], key, a, b);
  }

  lemma NothingAdmitted(m: Table, key: string, a: int, b: int)
    ensures Admitted(m, [], key, a, b) == 0
  {
  }

  /** The interval bound is reached: it cannot be lowered. */
  lemma BoundIsReached(key: string, limit: nat)
    requires limit >= 1
    ensures Ordered(Worst(key, limit), 0)
    ensures Admitted(map[], Worst(key, limit), key, 1, 1 + WINDOW_MS) == 2 * limit - 1
  {
    hide Admitted, Burst, Late;
    WorstOrdered(key, limit);
    OneThen(map[], key, limit, 0, Burst(key, limit, WINDOW_MS, limit - 1) + Late(key, limit), 1, 1 + WINDOW_MS);
    var m1: Table := map[key := Entry(1, WINDOW_MS)];
    assert Count(map[], key, 0) == m1;
    BurstAdmitted(m1, key, limit, WINDOW_MS, limit - 1, Late(key, limit), 1, 1 + WINDOW_MS);
    LateAdmitted(m1[key := Entry(limit, WINDOW_MS)], key, limit, 1, 1 + WINDOW_MS);
  }

  /* ----- the same bound for the limiter with cleanup ----- */

  /** Requests of `key` in [a, b] that got a yes. */
  function Yes(calls: seq<Call>, answers: seq<Answer>, key: string, a: int, b: int): nat
    requires |calls| == |answers|
    decreases |calls|
  {
    if calls == [] then 0 else
      (if calls[0].key == key && a <= calls[0].t2 <= b && answers[0].allowed then 1 else 0)
      + Yes(calls[1..], answers[1..], key, a, b)
  }

  lemma {:induction false} YesIsAdmitted(m: Table, calls: seq<Call>, key: string, a: int, b: int)
    ensures |PureAnswers(m, calls)| == |calls|
    ensures Yes(calls, PureAnswers(m, calls), key, a, b) == Admitted(m, calls, key, a, b)
    decreases |calls|
  {
    if calls == [] {
    } else {
      var m' := Count(m, calls[0].key, calls[0].t2);
      YesIsAdmitted(m', calls[1..], key, a, b);
      assert PureAnswers(m, calls)[1..] == PureAnswers(m', calls[1..]);
    }
  }

  /** The limiter as deployed, from a fresh start, whatever the keys and whenever it sweeps. */
  lemma DeployedBound(calls: seq<Call>, key: string, limit: nat, a: int, start: int)
    requires limit >= 1 && Ordered(calls, start) && LimitOf(calls, key, limit)
    ensures |Answers(map[], start, calls)| == |calls|
    ensures Yes(calls, Answers(map[], start, calls), key, a, a + WINDOW_MS) <= 2 * limit - 1
  {
    CleanupInvisible(map[], map[], start, start, calls);
    YesIsAdmitted(map[], calls, key, a, a + WINDOW_MS);
    IntervalBound(calls, key, limit, a, start);
  }

  /* ----- being denied ----- */

  /** No window ends later than one window from now. */
  ghost predicate Near(m: Table, now: int) {
    forall k :: k in m ==> m[k].resetAt <= now + WINDOW_MS
  }

  lemma NearStep(m: Table, c: Call, now: int)
    requires Near(m, now) && now <= c.t2
    ensures Near(Count(m, c.key, c.t2), c.t2)
  {
  }

  /** The table of a limiter without deletion after some calls. */
  function After(m: Table, calls: seq<Call>): Table
    decreases |calls|
  {
    if calls == [] then m else After(Count(m, calls[0].key, calls[0].t2), calls[1..])
  }

  /** One step of a run. */
  lemma RunStep(m: Table, calls: seq<Call>, i: nat)
    requires 0 < i < |calls|
    ensures var m', rest := Count(m, calls[0].key, calls[0].t2), calls[1..];
            && After(m, calls[..i]) == After(m', rest[..i - 1])
            && |PureAnswers(m, calls)| == |calls| && |PureAnswers(m', rest)| == |rest|
            && PureAnswers(m, calls)[i] == PureAnswers(m', rest)[i - 1]
            && rest[i - 1] == calls[i]
  {
    assert calls[..i][1..] == calls[1..][..i - 1];
    YesIsAdmitted(m, calls, "", 0, 0);
    YesIsAdmitted(Count(m, calls[0].key, calls[0].t2), calls[1..], "", 0, 0);
  }

  /** Each answer is the decision on the table at the time. */
  lemma {:induction false} AnswerAt(m: Table, calls: seq<Call>, i: nat, now: int)
    requires i < |calls| && Ordered(calls, now) && Near(m, now)
    ensures |PureAnswers(m, calls)| == |calls|
    ensures PureAnswers(m, calls)[i] == Decide(After(m, calls[..i]), calls[i].key, calls[i].limit, calls[i].t2)
    ensures Near(After(m, calls[..i]), calls[i].t2)
    ensures calls[i].t2 >= now
    decreases |calls|
  {
    hide Count, Decide;
    if i == 0 {
      assert calls[..0] == [];
      YesIsAdmitted(m, calls, "", 0, 0);
    } else {
      hide PureAnswers, After, Near;
      NearStep(m, calls[0], now);
      RunStep(m, calls, i);
      AnswerAt(Count(m, calls[0].key, calls[0].t2), calls[1..], i - 1, calls[0].t2);
    }
  }

  lemma {:induction false} AfterSplit(m: Table, calls: seq<Call>, i: nat)
    requires i <= |calls|
    ensures After(m, calls) == After(After(m, calls[..i]), calls[i..])
    decreases |calls|
  {
    if i == 0 {
      assert calls[..0] == [] && calls[0..] == calls;
    } else {
      AfterSplit(Count(m, calls[0].key, calls[0].t2), calls[1..], i - 1);
      assert calls[..i][1..] == calls[1..][..i - 1] && calls[1..][i - 1..] == calls[i..];
    }
  }

  lemma {:induction false} OrderedRest(calls: seq<Call>, now: int, i: nat)
    requires Ordered(calls, now) && i < |calls|
    ensures Ordered(calls[i + 1..], calls[i].t2)
    ensures forall j :: i < j < |calls| ==> calls[i].t2 <= calls[j].t2
    decreases |calls|
  {
    if i == 0 {
      LaterCalls(calls[1..], calls[0].t2);
      assert forall j :: 0 < j < |calls| ==> calls[j] == calls[1..][j - 1];
    } else {
      OrderedRest(calls[1..], calls[0].t2, i - 1);
      assert calls[1..][i..] == calls[i + 1..];
      assert forall j :: 0 < j < |calls| ==> calls[j] == calls[1..][j - 1];
    }
  }

  lemma {:induction false} LaterCalls(calls: seq<Call>, now: int)
    requires Ordered(calls, now)
    ensures forall j :: 0 <= j < |calls| ==> now <= calls[j].t2
    decreases |calls|
  {
    if calls == [] {
    } else {
      LaterCalls(calls[1..], calls[0].t2);
      assert forall j :: 0 < j < |calls| ==> calls[j] == calls[1..][j - 1];
    }
  }

  /** While its window is open, the entry of a key counts the calls of that key. */
  function CallsOf(calls: seq<Call>, key: string): nat {
    if calls == [] then 0 else CallsOf(calls[..|calls| - 1], key) + if calls[|calls| - 1].key == key then 1 else 0
  }

  lemma {:induction false} OpenEntry(m: Table, calls: seq<Call>, key: string)
    requires key in m && forall j :: 0 <= j < |calls| && calls[j].key == key ==> calls[j].t2 <= m[key].resetAt
    ensures key in After(m, calls) && After(m, calls)[key] == Entry(m[key].count + CallsOf(calls, key), m[key].resetAt)
  {
    if calls == [] {
    } else {
      var front, c := calls[..|calls| - 1], calls[|calls| - 1];
      OpenEntry(m, front, key);
      AfterSplit(m, calls, |front|);
      assert calls[|front|..] == [c] && [c][1..] == [];
    }
  }

  /** When the window that denied call `i` ends. */
  function ResetOf(calls: seq<Call>, i: nat): int
    requires i < |calls| && calls[i].key in After(map[], calls[..i])
  {
    After(map[], calls[..i])[calls[i].key].resetAt
  }

  /**
   * Being denied, on every run of the limiter as deployed.  The wait is between 0 and 60 seconds
   * and is the time to the end of the window, rounded up to the second.  Until that end the key
   * is denied however often it asks, and its first request after the end is admitted.
   */
  lemma DenialIsHonest(calls: seq<Call>, start: int, limit: nat, i: nat)
    requires limit >= 1 && Ordered(calls, start) && i < |calls| && LimitOf(calls, calls[i].key, limit)
    requires i < |Answers(map[], start, calls)| && !Answers(map[], start, calls)[i].allowed
    ensures |Answers(map[], start, calls)| == |calls| && calls[i].key in After(map[], calls[..i])
    ensures var wait, reset := Answers(map[], start, calls)[i].retryAfter, ResetOf(calls, i);
            && 0 <= wait <= 60
            && calls[i].t2 <= reset <= calls[i].t2 + 1000 * wait < reset + 1000
    ensures forall j :: i < j < |calls| && calls[j].key == calls[i].key && calls[j].t2 <= ResetOf(calls, i)
              ==> !Answers(map[], start, calls)[j].allowed
    ensures forall j :: FirstAfter(calls, i, j, ResetOf(calls, i)) ==> Answers(map[], start, calls)[j].allowed
  {
    hide Answers, Ordered, LimitOf, After, Count, Decide;
    CleanupInvisible(map[], map[], start, start, calls);
    AnswerAt(map[], calls, i, start);
    var m, c := After(map[], calls[..i]), calls[i];
    DeniedHere(m, c, calls, limit, i);
    forall j | i < j < |calls| && calls[j].key == c.key && calls[j].t2 <= m[c.key].resetAt
      ensures !Answers(map[], start, calls)[j].allowed
    {
      StillDenied(calls, start, limit, i, j);
    }
    forall j | FirstAfter(calls, i, j, m[c.key].resetAt)
      ensures Answers(map[], start, calls)[j].allowed
    {
      AdmittedAfter(calls, start, limit, i, j);
    }
  }

  /** `j` is the first call of the key of call `i` that comes after time `t`. */
  predicate FirstAfter(calls: seq<Call>, i: nat, j: int, t: int)
    requires i < |calls|
  {
    && i < j < |calls| && calls[j].key == calls[i].key && calls[j].t2 > t
    && forall k :: i < k < j && calls[k].key == calls[i].key ==> calls[k].t2 <= t
  }

  lemma DeniedHere(m: Table, c: Call, calls: seq<Call>, limit: nat, i: nat)
    requires limit >= 1 && i < |calls| && calls[i] == c && LimitOf(calls, c.key, limit)
    requires Near(m, c.t2) && !Decide(m, c.key, c.limit, c.t2).allowed
    ensures c.key in m && m[c.key].count >= limit && c.limit == limit && c.t2 <= m[c.key].resetAt
    ensures var wait := Decide(m, c.key, c.limit, c.t2).retryAfter;
            0 <= wait <= 60 && m[c.key].resetAt <= c.t2 + 1000 * wait < m[c.key].resetAt + 1000
  {
  }

  /** The entry of the key just before call `j`, if all its calls since call `i` were in the window. */
  lemma EntryBefore(calls: seq<Call>, i: nat, j: nat)
    requires i < j < |calls| && calls[i].key in After(map[], calls[..i])
    requires calls[i].t2 <= ResetOf(calls, i)
    requires forall k :: i < k < j && calls[k].key == calls[i].key ==> calls[k].t2 <= ResetOf(calls, i)
    ensures var m, m', key := After(map[], calls[..i]), After(map[], calls[..j]), calls[i].key;
            key in m' && m'[key].count > m[key].count && m'[key].resetAt == m[key].resetAt
  {
    hide After;
    var m, between := After(map[], calls[..i]), calls[i..j];
    assert calls[..j][..i] == calls[..i] && calls[..j][i..] == between;
    AfterSplit(map[], calls[..j], i);
    assert forall k :: 0 <= k < |between| ==> between[k] == calls[i + k];
    OpenEntry(m, between, calls[i].key);
    FirstCounts(between, calls[i].key);
  }

  lemma {:induction false} FirstCounts(calls: seq<Call>, key: string)
    requires calls != [] && calls[0].key == key
    ensures CallsOf(calls, key) >= 1
  {
    if |calls| == 1 {
    } else {
      FirstCounts(calls[..|calls| - 1], key);
    }
  }

  lemma StillDenied(calls: seq<Call>, start: int, limit: nat, i: nat, j: nat)
    requires limit >= 1 && Ordered(calls, start) && i < j < |calls| && LimitOf(calls, calls[i].key, limit)
    requires calls[i].key in After(map[], calls[..i]) && After(map[], calls[..i])[calls[i].key].count >= limit
    requires calls[j].key == calls[i].key && calls[i].t2 <= ResetOf(calls, i) && calls[j].t2 <= ResetOf(calls, i)
    ensures |PureAnswers(map[], calls)| == |calls| && !PureAnswers(map[], calls)[j].allowed
  {
    hide After, PureAnswers, Ordered;
    OrderedRest(calls, start, i);
    forall k | i < k < j
      ensures calls[k].t2 <= calls[j].t2
    {
      OrderedRest(calls, start, k);
    }
    EntryBefore(calls, i, j);
    AnswerAt(map[], calls, j, start);
  }

  lemma AdmittedAfter(calls: seq<Call>, start: int, limit: nat, i: nat, j: nat)
    requires limit >= 1 && Ordered(calls, start) && i < |calls| && LimitOf(calls, calls[i].key, limit)
    requires calls[i].key in After(map[], calls[..i]) && calls[i].t2 <= ResetOf(calls, i)
    requires FirstAfter(calls, i, j, ResetOf(calls, i))
    ensures |PureAnswers(map[], calls)| == |calls| && PureAnswers(map[], calls)[j].allowed
  {
    hide After, PureAnswers, Ordered;
    EntryBefore(calls, i, j);
    AnswerAt(map[], calls, j, start);
  }

  /**
   * A caller who waits the whole time it was told is admitted, unless others with the same key
   * came in the fraction of a second between the reset and that time: then the new window is
   * theirs, and the caller is admitted exactly if it is over or still has room.
   */
  lemma WaitedIsAdmitted(calls: seq<Call>, start: int, limit: nat, i: nat, u: nat, j: nat)
    requires limit >= 1 && Ordered(calls, start) && i < u < j < |calls| && LimitOf(calls, calls[i].key, limit)
    requires calls[i].key in After(map[], calls[..i]) && calls[i].t2 <= ResetOf(calls, i)
    requires FirstAfter(calls, i, u, ResetOf(calls, i)) && calls[j].key == calls[i].key
    requires forall k :: u < k < j && calls[k].key == calls[i].key ==> calls[k].t2 <= ResetOf(calls, i) + 1000
    ensures |Answers(map[], start, calls)| == |calls|
    ensures Answers(map[], start, calls)[j].allowed
            <==> calls[j].t2 > calls[u].t2 + WINDOW_MS || CallsOf(calls[u..j], calls[i].key) < limit
  {
    hide After, PureAnswers, Ordered, Answers;
    CleanupInvisible(map[], map[], start, start, calls);
    AnswerAt(map[], calls, j, start);
    EntryBefore(calls, i, u);
    NewWindow(calls, u, j);
  }

  /** A call that opens a window, and the calls of its key up to call `j`, all in that window. */
  lemma NewWindow(calls: seq<Call>, u: nat, j: nat)
    requires u < j < |calls| && Expired(After(map[], calls[..u]), calls[u].key, calls[u].t2)
    requires forall k :: u < k < j && calls[k].key == calls[u].key ==> calls[k].t2 <= calls[u].t2 + WINDOW_MS
    ensures var m := After(map[], calls[..j]);
            && calls[u].key in m
            && m[calls[u].key] == Entry(CallsOf(calls[u..j], calls[u].key), calls[u].t2 + WINDOW_MS)
  {
    hide After;
    var m, c, rest := After(map[], calls[..u]), calls[u], calls[u + 1..j];
    var first := Count(m, c.key, c.t2);
    assert calls[..j][..u] == calls[..u] && calls[..j][u..] == [c] + rest;
    assert calls[u..j] == [c] + rest;
    AfterSplit(map[], calls[..j], u);
    AfterCons(m, c, rest);
    assert forall k :: 0 <= k < |rest| ==> rest[k] == calls[u + 1 + k];
    OpenEntry(first, rest, c.key);
    CallsOfCons(c, rest, c.key);
  }

  lemma AfterCons(m: Table, c: Call, rest: seq<Call>)
    ensures After(m, [c] + rest) == After(Count(m, c.key, c.t2), rest)
  {
    assert ([c] + rest)[1..] == rest;
  }

  lemma {:induction false} CallsOfCons(c: Call, rest: seq<Call>, key: string)
    ensures CallsOf([c] + rest, key) == (if c.key == key then 1 else 0) + CallsOf(rest, key)
  {
    if rest == [] {
      assert [c] + rest == [c] && [c][..0] == [];
    } else {
      CallsOfCons(c, rest[..|rest| - 1], key);
      assert ([c] + rest)[..|rest|] == [c] + rest[..|rest| - 1];
    }
  }

  /* ----- denied after the whole wait ----- */

  /** Two callers with one key and a limit of one. */
  function TwoCallers(key: string): seq<Call> {
    [Call(key, 1, 0, 0), Call(key, 1, 500, 500), Call(key, 1, 60001, 60001), Call(key, 1, 60501, 60501)]
  }

  /**
   * The second call is told to wait 60 seconds.  One millisecond after those are over it comes
   * again and is denied: the other caller opened the new window half a second before.
   */
  lemma WaitedAndDenied(key: string)
    ensures Ordered(TwoCallers(key), 0)
    ensures Answers(map[], 0, TwoCallers(key))
            == [Answer(true, 0), Answer(false, 60), Answer(true, 0), Answer(false, 60)]
    ensures TwoCallers(key)[3].t2 > TwoCallers(key)[1].t2 + 1000 * Answers(map[], 0, TwoCallers(key))[1].retryAfter
  {
    var c := TwoCallers(key);
    assert c[1..] == [c[1], c[2], c[3]] && c[1..][1..] == [c[2], c[3]];
    assert c[1..][1..][1..] == [c[3]] && c[1..][1..][1..][1..] == [];
    var m: Table := map[key := Entry(1, 60000)];
    var n: Table := map[key := Entry(2, 60000)];
    var o: Table := map[key := Entry(1, 120001)];
    assert Count(map[], key, 0) == m && Count(m, key, 500) == n && Count(n, key, 60001) == o;
    assert Answers(o, 0, [c[3]]) == [Answer(false, 60)];
    assert Answers(n, 0, [c[2], c[3]]) == [Answer(true, 0), Answer(false, 60)];
    assert Answers(m, 0, [c[1], c[2], c[3]]) == [Answer(false, 60), Answer(true, 0), Answer(false, 60)];
    assert Ordered([c[2], c[3]], 500);
  }
}
