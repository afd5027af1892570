/** The crash-loop monitor (container/monitor.go). Instants and durations are in nanoseconds. */
module CrashMonitor {
  import opened Options

  const MINUTE: int := 60_000_000_000
  const CRASH_LOOP_THRESHOLD: nat := 3
  const CRASH_LOOP_WINDOW: int := 5 * MINUTE
  const BACKOFF_CAP: int := 15 * MINUTE
  const STABLE_RUNNING_DURATION: int := 5 * MINUTE

  /** A restart record; `None` is the zero time. */
  datatype Record = Record(attempts: seq<int>, backoffEnd: Option<int>, consecutive: nat, lastSeen: Option<int>)

  const NEW_RECORD := Record([], None, 0, None)

  datatype Verdict = InBackoff | BackOff | Restart

  function ShiftLeft(base: int, shift: nat): int {
    if shift == 0 then base else 2 * ShiftLeft(base, shift - 1)
  }

  /** `computeBackoff`. */
  function ComputeBackoff(consecutive: int): int {
    var shift := consecutive - CRASH_LOOP_THRESHOLD;
    var bounded := if shift < 0 then 0 else if shift > 4 then 4 else shift;
    var backoff := ShiftLeft(MINUTE, bounded);
    if backoff > BACKOFF_CAP then BACKOFF_CAP else backoff
  }

  /** The backoff starts at a minute, doubles with every further crash, and is never longer than 15 minutes. */
  lemma BackoffDoublesUpToTheCap(consecutive: nat)
    requires consecutive >= 3
    ensures ComputeBackoff(3) == 60_000_000_000
    ensures 60_000_000_000 <= ComputeBackoff(consecutive) <= 900_000_000_000
    ensures var doubled := 2 * ComputeBackoff(consecutive);
            ComputeBackoff(consecutive + 1) == if doubled > 900_000_000_000 then 900_000_000_000 else doubled
  {
    assert ShiftLeft(MINUTE, 1) == 2 * MINUTE;
    assert ShiftLeft(MINUTE, 2) == 4 * MINUTE;
    assert ShiftLeft(MINUTE, 3) == 8 * MINUTE;
    assert ShiftLeft(MINUTE, 4) == 16 * MINUTE;
  }

  function Recent(attempts: seq<int>, cutoff: int): seq<int> {
    if attempts == [] then []
    else
      var rest := Recent(attempts[..|attempts| - 1], cutoff);
      if attempts[|attempts| - 1] > cutoff then rest + [attempts[|attempts| - 1]] else rest
  }

  /** The in-place pruning loop: the kept attempts are compacted to the front of their own backing array. */
  method PruneAttempts(slots: array<int>, cutoff: int) returns (kept: nat)
    modifies slots
    ensures kept <= slots.Length && slots[..kept] == Recent(old(slots[..]), cutoff)
  {
    kept := 0;
    ghost var attempts := slots[..];
    for i := 0 to slots.Length
      invariant kept <= i && slots[..kept] == Recent(attempts[..i], cutoff)
      invariant slots[i..] == attempts[i..]
    {
      var t := slots[i];
      assert t == attempts[i] by { assert slots[i] == slots[i..][0]; }
      assert attempts[..i + 1][..i] == attempts[..i];
      assert forall k :: i < k < slots.Length ==> slots[k] == attempts[k] by {
        assert forall k :: i < k < slots.Length ==>
                 slots[k] == slots[i..][k - i] && attempts[k] == attempts[i..][k - i];
      }
      if t > cutoff {
        slots[kept] := t;
        kept := kept + 1;
      }
    }
    assert attempts[..slots.Length] == attempts;
  }

  predicate BackingOff(r: Record, now: int) {
    r.backoffEnd.Some? && now < r.backoffEnd.value
  }

  /** What a crash observed at `now` does to the record, and what the monitor decides. */
  function OnCrash(before: Option<Record>, now: int): (Record, Verdict) {
    var r := if before.Some? then before.value else NEW_RECORD;
    if BackingOff(r, now) then (r, InBackoff)
    else
      var attempts := Recent(r.attempts + [now], now - CRASH_LOOP_WINDOW);
      var consecutive := r.consecutive + 1;
      if |attempts| >= CRASH_LOOP_THRESHOLD then
        (Record(attempts, Some(now + ComputeBackoff(consecutive)), consecutive, None), BackOff)
      else (Record(attempts, r.backoffEnd, consecutive, None), Restart)
  }

  /** What a healthy observation at `now` leaves of the record. */
  function OnHealthy(before: Option<Record>, now: int): Option<Record> {
    if before.None? then None
    else
      var since := if before.value.lastSeen.Some? then before.value.lastSeen.value else now;
      if now - since >= STABLE_RUNNING_DURATION then None else Some(before.value.(lastSeen := Some(since)))
  }

  function Lookup(history: map<string, Record>, domain: string): Option<Record> {
    if domain in history then Some(history[domain]) else None
  }

  function Store(history: map<string, Record>, domain: string, r: Option<Record>): map<string, Record> {
    if r.Some? then history[domain := r.value] else history - {domain}
  }

  /** The answer to the health query of a running container. */
  datatype Health = QueryFailed | Unhealthy | Healthy

  class Monitor {
    var history: map<string, Record>

    constructor ()
      ensures history == map[]
    {
      history := map[];
    }

    method HandleRunning(domain: string, health: Health, stillTracked: bool, now: int) returns (restarted: bool)
      modifies this
      ensures restarted <==> health == Unhealthy && stillTracked
      ensures history == if health == Healthy then Store(old(history), domain,
          OnHealthy(Lookup(old(history), domain), now))
                         else old(history)
    {
      if health == QueryFailed { return false; }
      if health == Unhealthy { return stillTracked; }
      if domain in history {
        var r := history[domain];
        if r.lastSeen.None? { r := r.(lastSeen := Some(now)); }
        history := history[domain := r];
        if now - r.lastSeen.value >= STABLE_RUNNING_DURATION {
          history := history - {domain};
        }
      }
      return false;
    }

    method HandleCrash(domain: string, stillTracked: bool, now: int) returns (restarted: bool)
      modifies this
      ensures var outcome := OnCrash(Lookup(old(history), domain), now);
              && history == old(history)[domain := outcome.0]
              && (restarted <==> outcome.1 == Restart && stillTracked)
    {
      hide OnCrash;
      OnFirstCrash(now);
      if domain !in history {
        history := history[domain := NEW_RECORD];
      }
      var r, verdict := RecordCrash(history[domain], now);
      history := history[domain := r];
      return verdict == Restart && stillTracked;
    }
  }

  lemma OnFirstCrash(now: int)
    ensures OnCrash(None, now) == OnCrash(Some(NEW_RECORD), now)
  {
  }

  method AppendAttempt(attempts: seq<int>, now: int) returns (slots: array<int>)
    ensures fresh(slots) && slots[..] == attempts + [now]
  {
    var n := |attempts|;
    slots := new int[n + 1](i requires 0 <= i < n + 1 => if i < n then attempts[i] else now);
  }

  /** The part of `handleCrash` that works on the record, under the monitor's lock. */
  method RecordCrash(r: Record, now: int) returns (r': Record, verdict: Verdict)
    ensures (r', verdict) == OnCrash(Some(r), now)
  {
    if BackingOff(r, now) { return r, InBackoff; }
    hide Recent, ComputeBackoff, BackingOff;
    var slots := AppendAttempt(r.attempts, now);
    var kept := PruneAttempts(slots, now - CRASH_LOOP_WINDOW);
    r' := Record(slots[..kept], r.backoffEnd, r.consecutive + 1, None);
    if |r'.attempts| >= CRASH_LOOP_THRESHOLD {
      return r'.(backoffEnd := Some(now + ComputeBackoff(r'.consecutive))), BackOff;
    }
    return r', Restart;
  }

  // ------------------------------------------------------------------ runs of one domain

  /** One observation of the domain's container; observations that leave the record alone do not appear. */
  datatype Observation = Crashed(now: int, stillTracked: bool) | SeenHealthy(now: int)

  function Observe(before: Option<Record>, seen: Observation): Option<Record> {
    match seen
    case Crashed(now, _) => Some(OnCrash(before, now).0)
    case SeenHealthy(now) => OnHealthy(before, now)
  }

  /** The monitor decides to restart the crashed container. */
  predicate Allows(before: Option<Record>, seen: Observation) {
    seen.Crashed? && OnCrash(before, seen.now).1 == Restart
  }

  /** The observation leads to a restart of the crashed container. */
  predicate Restarts(before: Option<Record>, seen: Observation) {
    Allows(before, seen) && seen.stillTracked
  }

  /** A run from an empty history under a clock that never goes back; `records[i]` is the record before `seen[i]`. */
  ghost predicate Run(records: seq<Option<Record>>, seen: seq<Observation>) {
    && |records| == |seen| + 1 && records[0] == None
    && (forall i :: 0 <= i < |seen| ==> records[i + 1] == Observe(records[i], seen[i]))
    && forall i, j :: 0 <= i <= j < |seen| ==> seen[i].now <= seen[j].now
  }

  /** Attempts recorded at `from` or later. */
  function Since(attempts: seq<int>, from: int): nat {
    if attempts == [] then 0
    else Since(attempts[..|attempts| - 1], from) + if attempts[|attempts| - 1] >= from then 1 else 0
  }

  lemma {:induction false} SinceAtMostAll(attempts: seq<int>, from: int)
    ensures Since(attempts, from) <= |attempts|
  {
    if attempts != [] { SinceAtMostAll(attempts[..|attempts| - 1], from); }
  }

  lemma {:induction false} PruningKeepsSince(attempts: seq<int>, cutoff: int, from: int)
    requires cutoff < from
    ensures Since(Recent(attempts, cutoff), from) == Since(attempts, from)
  {
    if attempts != [] {
      var front, t := attempts[..|attempts| - 1], attempts[|attempts| - 1];
      PruningKeepsSince(front, cutoff, from);
      if t > cutoff { assert (Recent(front, cutoff) + [t])[..|Recent(front, cutoff)|] == Recent(front, cutoff); }
    }
  }

  /** The record remembers `n` attempts since `from`, and the container has been seen running only since then. */
  predicate Remembers(r: Option<Record>, from: int, n: nat) {
    && r.Some? && Since(r.value.attempts, from) >= n
    && (r.value.lastSeen.Some? ==> r.value.lastSeen.value >= from)
  }

  lemma CrashIsRemembered(before: Option<Record>, now: int, from: int, n: nat)
    requires from <= now < from + CRASH_LOOP_WINDOW && OnCrash(before, now).1 != InBackoff
    requires n == 0 || Remembers(before, from, n)
    ensures Remembers(Some(OnCrash(before, now).0), from, n + 1)
    ensures OnCrash(before, now).1 == Restart ==> n + 1 < CRASH_LOOP_THRESHOLD
  {
    hide Recent, Since, ComputeBackoff;
    var r := if before.Some? then before.value else NEW_RECORD;
    SinceAppend(r.attempts, now, from);
    PruningKeepsSince(r.attempts + [now], now - CRASH_LOOP_WINDOW, from);
    SinceAtMostAll(Recent(r.attempts + [now], now - CRASH_LOOP_WINDOW), from);
  }

  lemma SinceAppend(attempts: seq<int>, now: int, from: int)
    requires from <= now
    ensures Since(attempts + [now], from) == Since(attempts, from) + 1
  {
    assert (attempts + [now])[..|attempts|] == attempts;
  }

  /** Within the window nothing is forgotten: history is cleared only after five minutes of running. */
  lemma ObservationKeepsMemory(before: Option<Record>, seen: Observation, from: int, n: nat)
    requires Remembers(before, from, n) && from <= seen.now < from + CRASH_LOOP_WINDOW
    ensures Remembers(Observe(before, seen), from, n)
  {
    if seen.Crashed? && OnCrash(before, seen.now).1 != InBackoff {
      CrashIsRemembered(before, seen.now, from, n);
    }
  }

  lemma {:induction false} MemoryLasts(records: seq<Option<Record>>, seen: seq<Observation>, i: nat, j: nat, from: int,
                                       n: nat)
    requires Run(records, seen) && i <= j <= |seen|
    requires Remembers(records[i], from, n)
    requires forall k :: i <= k < j ==> from <= seen[k].now < from + CRASH_LOOP_WINDOW
    ensures Remembers(records[j], from, n)
  {
    if i < j {
      MemoryLasts(records, seen, i, j - 1, from, n);
      hide Observe, Remembers;
      assert records[j - 1 + 1] == Observe(records[j - 1], seen[j - 1]);
      ObservationKeepsMemory(records[j - 1], seen[j - 1], from, n);
    }
  }

  /** Of three crash restarts, the third comes at least five minutes after the first. */
  lemma ThreeRestartsTakeTheWindow(records: seq<Option<Record>>, seen: seq<Observation>, i: nat, j: nat, k: nat)
    requires Run(records, seen) && i < j < k < |seen|
    requires Restarts(records[i], seen[i]) && Restarts(records[j], seen[j]) && Restarts(records[k], seen[k])
    ensures seen[k].now >= seen[i].now + 300_000_000_000
  {
    var from := seen[i].now;
    if seen[k].now < from + CRASH_LOOP_WINDOW {
      CrashIsRemembered(records[i], from, from, 0);
      assert records[i + 1] == Observe(records[i], seen[i]);
      assert records[j + 1] == Observe(records[j], seen[j]);
      hide OnCrash, Remembers;
      MemoryLasts(records, seen, i + 1, j, from, 1);
      CrashIsRemembered(records[j], seen[j].now, from, 1);
      MemoryLasts(records, seen, j + 1, k, from, 2);
      CrashIsRemembered(records[k], seen[k].now, from, 2);
    }
  }

  /** The crash restarts of a run in the window `(t - 5min, t]`. */
  ghost function RestartsIn(records: seq<Option<Record>>, seen: seq<Observation>, t: int): set<nat>
    requires |records| == |seen| + 1
  {
    set i: nat | i < |seen| && Restarts(records[i], seen[i]) && t - 300_000_000_000 < seen[i].now <= t
  }

  function Min(a: nat, b: nat): nat { if a < b then a else b }

  function Max(a: nat, b: nat): nat { if a < b then b else a }

  lemma ThreeOf(s: set<nat>) returns (i: nat, j: nat, k: nat)
    requires |s| > 2
    ensures i < j < k && i in s && j in s && k in s
  {
    var a :| a in s;
    assert |s - {a}| == |s| - 1;
    var b :| b in s - {a};
    assert |s - {a} - {b}| == |s| - 2;
    var c :| c in s - {a} - {b};
    i, k := Min(a, Min(b, c)), Max(a, Max(b, c));
    j := a + b + c - i - k;
  }

  /** In every run at most two crash restarts fall into any window `(t - 5min, t]`, even across a cleared history. */
  lemma AtMostTwoRestartsInAnyWindow(records: seq<Option<Record>>, seen: seq<Observation>, t: int)
    requires Run(records, seen)
    ensures |RestartsIn(records, seen, t)| <= 2
  {
    var s := RestartsIn(records, seen, t);
    hide Restarts, Run;
    if |s| > 2 {
      var i, j, k := ThreeOf(s);
      ThreeRestartsTakeTheWindow(records, seen, i, j, k);
    }
  }

  // ------------------------------------------------------------------ backoff

  /** The announced end of a backoff lies at most 15 minutes after the last recorded crash. */
  predicate BackoffIsBounded(r: Record) {
    r.backoffEnd.Some? ==>
      |r.attempts| > 0 && r.backoffEnd.value <= r.attempts[|r.attempts| - 1] + 900_000_000_000
  }

  lemma LastIsRecent(attempts: seq<int>, now: int)
    ensures var kept := Recent(attempts + [now], now - CRASH_LOOP_WINDOW);
            |kept| > 0 && kept[|kept| - 1] == now
  {
  }

  lemma CrashBoundsBackoff(before: Option<Record>, now: int)
    requires before.Some? ==> BackoffIsBounded(before.value)
    ensures BackoffIsBounded(OnCrash(before, now).0)
  {
    var r := if before.Some? then before.value else NEW_RECORD;
    LastIsRecent(r.attempts, now);
    if r.consecutive + 1 >= CRASH_LOOP_THRESHOLD { BackoffDoublesUpToTheCap(r.consecutive + 1); }
  }

  lemma {:induction false} BackoffNeverExceedsTheCap(records: seq<Option<Record>>, seen: seq<Observation>, i: nat)
    requires Run(records, seen) && i < |records|
    ensures records[i].Some? ==> BackoffIsBounded(records[i].value)
  {
    if i > 0 {
      BackoffNeverExceedsTheCap(records, seen, i - 1);
      assert records[i - 1 + 1] == Observe(records[i - 1], seen[i - 1]);
      hide Recent;
      if seen[i - 1].Crashed? { hide OnCrash; CrashBoundsBackoff(records[i - 1], seen[i - 1].now); }
    }
  }

  /** The record still announces a backoff until `end`. */
  predicate Announces(r: Option<Record>, end: int) {
    r.Some? && r.value.backoffEnd == Some(end)
  }

  /** No history was cleared by the observations from `i` up to `j`. */
  ghost predicate NeverCleared(records: seq<Option<Record>>, i: nat, j: nat)
    requires j < |records|
  {
    forall k :: i < k <= j ==> records[k].Some?
  }

  lemma {:induction false} AnnouncementLasts(records: seq<Option<Record>>, seen: seq<Observation>, i: nat, j: nat,
                                             end: int)
    requires Run(records, seen) && i <= j < |seen| && Announces(records[i], end) && seen[j].now < end
    requires NeverCleared(records, i, j)
    ensures Announces(records[j], end)
  {
    if i < j {
      AnnouncementLasts(records, seen, i, j - 1, end);
      assert records[j - 1 + 1] == Observe(records[j - 1], seen[j - 1]);
    }
  }

  /** While the record lives, nothing is restarted before the announced end of a backoff. */
  lemma NoRestartDuringBackoff(records: seq<Option<Record>>, seen: seq<Observation>, i: nat, j: nat, end: int)
    requires Run(records, seen) && i <= j < |seen| && Announces(records[i], end) && NeverCleared(records, i, j)
    requires Restarts(records[j], seen[j])
    ensures seen[j].now >= end
  {
    if seen[j].now < end { AnnouncementLasts(records, seen, i, j, end); }
  }

  lemma RecentAppend(attempts: seq<int>, t: int, cutoff: int)
    ensures Recent(attempts + [t], cutoff) == Recent(attempts, cutoff) + if t > cutoff then [t] else []
  {
    assert (attempts + [t])[..|attempts|] == attempts;
  }

  lemma {:induction false} RecentSplit(passed: seq<int>, kept: seq<int>, cutoff: int)
    requires forall i :: 0 <= i < |passed| ==> passed[i] <= cutoff
    requires forall i :: 0 <= i < |kept| ==> kept[i] > cutoff
    ensures Recent(passed + kept, cutoff) == kept
    decreases |passed| + |kept|
  {
    if kept != [] {
      var front, t := kept[..|kept| - 1], kept[|kept| - 1];
      assert kept == front + [t] && passed + kept == (passed + front) + [t];
      RecentSplit(passed, front, cutoff);
      RecentAppend(passed + front, t, cutoff);
    } else if passed != [] {
      var front, t := passed[..|passed| - 1], passed[|passed| - 1];
      assert passed == front + [t] && passed + kept == front + [t] && front + [] == front;
      RecentSplit(front, [], cutoff);
      RecentAppend(front, t, cutoff);
    }
  }

  const SECOND: int := 1_000_000_000

  /** Crashes that keep coming, a healthy observation, one more crash, and five minutes later another healthy one. */
  function EarlyEnd(): seq<Observation> {
    [Crashed(0, true), Crashed(15 * SECOND, true), Crashed(30 * SECOND, true), Crashed(90 * SECOND, true),
     Crashed(210 * SECOND, true), Crashed(450 * SECOND, true), Crashed(465 * SECOND, true),
     SeenHealthy(480 * SECOND), Crashed(540 * SECOND, true), SeenHealthy(780 * SECOND), Crashed(800 * SECOND, true)]
  }

  function EarlyEndRecords(): seq<Option<Record>> {
    var a, b, c, d := 15 * SECOND, 30 * SECOND, 90 * SECOND, 210 * SECOND;
    var e, f := 450 * SECOND, 465 * SECOND;
    [None, Some(Record([0], None, 1, None)), Some(Record([0, a], None, 2, None)),
     Some(Record([0, a, b], Some(c), 3, None)), Some(Record([0, a, b, c], Some(d), 4, None)),
     Some(Record([0, a, b, c, d], Some(e), 5, None)), Some(Record([d, e], Some(e), 6, None)),
     Some(Record([d, e, f], Some(1365 * SECOND), 7, None)),
     Some(Record([d, e, f], Some(1365 * SECOND), 7, Some(480 * SECOND))),
     Some(Record([d, e, f], Some(1365 * SECOND), 7, Some(480 * SECOND))), None,
     Some(Record([800 * SECOND], None, 1, None))]
  }

  lemma CrashGives(before: Option<Record>, now: int, passed: seq<int>, kept: seq<int>)
    requires before.Some? ==> before.value.attempts + [now] == passed + kept && !BackingOff(before.value, now)
    requires before.None? ==> passed == [] && kept == [now]
    requires forall i :: 0 <= i < |passed| ==> passed[i] <= now - CRASH_LOOP_WINDOW
    requires forall i :: 0 <= i < |kept| ==> kept[i] > now - CRASH_LOOP_WINDOW
    ensures var r := if before.Some? then before.value else NEW_RECORD;
            OnCrash(before, now) ==
            if |kept| >= CRASH_LOOP_THRESHOLD then
              (Record(kept, Some(now + ComputeBackoff(r.consecutive + 1)), r.consecutive + 1, None), BackOff)
            else (Record(kept, r.backoffEnd, r.consecutive + 1, None), Restart)
  {
    RecentSplit(passed, kept, now - CRASH_LOOP_WINDOW);
    assert NEW_RECORD.attempts + [now] == [] + [now];
  }

  /** Two healthy observations of `[i, j)` are five minutes or more apart. */
  ghost predicate SeenStable(seen: seq<Observation>, i: nat, j: nat)
    requires j <= |seen|
  {
    exists a, b :: i <= a <= b < j && seen[a].SeenHealthy? && seen[b].SeenHealthy?
                   && seen[b].now - seen[a].now >= 300_000_000_000
  }

  /** The stable timer runs since the first healthy observation of `[i, j)`. */
  ghost predicate TimerRuns(r: Record, seen: seq<Observation>, i: nat, j: nat)
    requires j <= |seen|
  {
    match r.lastSeen
    case None => forall k :: i <= k < j ==> !seen[k].SeenHealthy?
    case Some(t) =>
      exists a :: i <= a < j && seen[a] == SeenHealthy(t) && forall k :: i <= k < a ==> !seen[k].SeenHealthy?
  }

  /**
   * One more observation during the backoff either makes the container look stable or leaves record and timer alone.
   */
  lemma BackoffStep(r: Record, seen: seq<Observation>, i: nat, j: nat, end: int)
    requires i <= j < |seen| && r.backoffEnd == Some(end) && seen[j].now < end
    requires forall a, b :: 0 <= a <= b < |seen| ==> seen[a].now <= seen[b].now
    requires TimerRuns(r, seen, i, j) && !SeenStable(seen, i, j)
    ensures var after := Observe(Some(r), seen[j]);
            if SeenStable(seen, i, j + 1) then after.None?
            else Announces(after, end) && TimerRuns(after.value, seen, i, j + 1)
  {
    hide Recent, ComputeBackoff;
    if seen[j].Crashed? {
      assert Observe(Some(r), seen[j]) == Some(r);
    } else if r.lastSeen.Some? {
      var first :| i <= first < j && seen[first] == SeenHealthy(r.lastSeen.value)
                   && forall k :: i <= k < first ==> !seen[k].SeenHealthy?;
      if seen[j].now - seen[first].now >= STABLE_RUNNING_DURATION { assert SeenStable(seen, i, j + 1); }
    } else {
      assert !SeenStable(seen, i, j + 1);
    }
  }

  /** A backoff's record is cleared exactly when the container looks stable. */
  lemma {:induction false} ClearedExactlyWhenStable(records: seq<Option<Record>>, seen: seq<Observation>, i: nat,
                                                    j: nat, end: int)
    requires Run(records, seen) && i <= j <= |seen| && Announces(records[i], end) && records[i].value.lastSeen == None
    requires forall k :: i <= k < j ==> seen[k].now < end
    ensures NeverCleared(records, i, j) <==> !SeenStable(seen, i, j)
    ensures NeverCleared(records, i, j) ==> Announces(records[j], end) && TimerRuns(records[j].value, seen, i, j)
  {
    if i < j {
      ClearedExactlyWhenStable(records, seen, i, j - 1, end);
      assert records[j - 1 + 1] == Observe(records[j - 1], seen[j - 1]);
      hide Observe, TimerRuns;
      if SeenStable(seen, i, j - 1) {
        assert SeenStable(seen, i, j);
      } else {
        BackoffStep(records[j - 1].value, seen, i, j - 1, end);
      }
    }
  }

  /** A crash is ignored before the end of a backoff, and from that end on it is recorded and stops the stable timer. */
  lemma IgnoredExactlyInBackoff(r: Record, now: int)
    ensures OnCrash(Some(r), now).1 == InBackoff <==> r.backoffEnd != None && now < r.backoffEnd.value
    ensures OnCrash(Some(r), now).1 == InBackoff ==> OnCrash(Some(r), now).0 == r
    ensures OnCrash(Some(r), now).1 != InBackoff ==>
              var after := OnCrash(Some(r), now).0;
              && after.consecutive == r.consecutive + 1 && after.lastSeen == None
              && after.attempts != [] && after.attempts[|after.attempts| - 1] == now
  {
    LastIsRecent(r.attempts, now);
  }

  /**
   * The first two crashes of a container are answered by a restart. The third starts a backoff of one minute if it
   * comes within five minutes of the first, and is answered by a restart like the others if it comes later.
   */
  lemma ThirdCrashWithinTheWindow(first: int, second: int, third: int)
    requires first <= second <= third
    ensures var (one, v1) := OnCrash(None, first);
            var (two, v2) := OnCrash(Some(one), second);
            var (three, v3) := OnCrash(Some(two), third);
            && v1 == Restart && v2 == Restart
            && if third - first < 300_000_000_000 then v3 == BackOff && three.backoffEnd == Some(third + 60_000_000_000)
               else v3 == Restart && three.backoffEnd == None
  {
    hide OnCrash, Recent;
    CrashGives(None, first, [], [first]);
    var one := OnCrash(None, first).0;
    if second - first < CRASH_LOOP_WINDOW {
      assert one.attempts + [second] == [] + [first, second];
      CrashGives(Some(one), second, [], [first, second]);
    } else {
      assert one.attempts + [second] == [first] + [second];
      CrashGives(Some(one), second, [first], [second]);
    }
    var two := OnCrash(Some(one), second).0;
    BackoffDoublesUpToTheCap(3);
    ThirdCrash(two, first, second, third);
  }

  lemma ThirdCrash(two: Record, first: int, second: int, third: int)
    requires first <= second <= third && two.backoffEnd == None && two.consecutive == 2
    requires two.attempts == if second - first < CRASH_LOOP_WINDOW then [first, second] else [second]
    ensures var (three, v3) := OnCrash(Some(two), third);
            if third - first < CRASH_LOOP_WINDOW then
              v3 == BackOff && three.backoffEnd == Some(third + ComputeBackoff(3))
            else v3 == Restart && three.backoffEnd == None
  {
    hide OnCrash, Recent, ComputeBackoff;
    var all := two.attempts + [third];
    if third - first < CRASH_LOOP_WINDOW {
      assert all == [] + [first, second, third];
      CrashGives(Some(two), third, [], [first, second, third]);
    } else if third - second < CRASH_LOOP_WINDOW {
      var passed := if second - first < CRASH_LOOP_WINDOW then [first] else [];
      assert all == passed + [second, third];
      CrashGives(Some(two), third, passed, [second, third]);
    } else {
      assert all == two.attempts + [third];
      CrashGives(Some(two), third, two.attempts, [third]);
    }
  }

  /**
   * With or without a backoff: after a recorded crash, healthy observations clear the history exactly when the last of
   * them comes five minutes or more after the first.
   */
  lemma {:induction false} HealthyObservationsClear(records: seq<Option<Record>>, seen: seq<Observation>, i: nat,
                                                    j: nat)
    requires Run(records, seen) && i < j <= |seen| && records[i].Some? && records[i].value.lastSeen == None
    requires forall k :: i <= k < j ==> seen[k].SeenHealthy?
    ensures records[j].None? <==> seen[j - 1].now - seen[i].now >= 300_000_000_000
    ensures records[j].Some? ==> records[j] == Some(records[i].value.(lastSeen := Some(seen[i].now)))
  {
    assert records[j - 1 + 1] == Observe(records[j - 1], seen[j - 1]);
    if i + 1 < j { HealthyObservationsClear(records, seen, i, j - 1); }
  }

  /** With no record, a crash is always answered by a restart. */
  lemma FirstCrashRestarts(now: int)
    ensures OnCrash(None, now).1 == Restart
  {
    CrashGives(None, now, [], [now]);
  }

  /** After a clear, the first crash finds no record. */
  lemma {:induction false} FirstCrashAfterAClear(records: seq<Option<Record>>, seen: seq<Observation>, k: nat, c: nat)
    returns (j: nat)
    requires Run(records, seen) && k <= c < |seen| && records[k] == None && seen[c].Crashed?
    ensures k <= j <= c && records[j] == None && seen[j].Crashed?
    decreases c - k
  {
    if seen[k].Crashed? {
      j := k;
    } else {
      assert records[k + 1] == Observe(records[k], seen[k]);
      j := FirstCrashAfterAClear(records, seen, k + 1, c);
    }
  }

  /** A crash follows two healthy observations that are five minutes or more apart, all within `[i, n)`. */
  ghost predicate CrashAfterStable(seen: seq<Observation>, i: nat, n: nat)
    requires n <= |seen|
  {
    exists c :: i <= c < n && seen[c].Crashed? && SeenStable(seen, i, c)
  }

  /**
   * Exactly when a backoff ends early. Let the crash at `p` start a backoff until `end`, and let the observations up to
   * `n` come before that end. Then the monitor decides on a restart among them if and only if a crash follows two
   * healthy observations that are five minutes or more apart, whatever crashes lie between those two; and if crashed
   * containers are still tracked, it restarts one under the same condition.
   */
  lemma BackoffEndsEarlyIff(records: seq<Option<Record>>, seen: seq<Observation>, p: nat, n: nat, end: int)
    requires Run(records, seen) && p < n <= |seen| && seen[p].Crashed?
    requires OnCrash(records[p], seen[p].now).1 == BackOff && Announces(Some(OnCrash(records[p], seen[p].now).0), end)
    requires forall k :: p < k < n ==> seen[k].now < end
    ensures (exists j :: p < j < n && Allows(records[j], seen[j])) <==> CrashAfterStable(seen, p + 1, n)
    ensures (forall k :: p < k < n && seen[k].Crashed? ==> seen[k].stillTracked) ==>
              ((exists j :: p < j < n && Restarts(records[j], seen[j])) <==> CrashAfterStable(seen, p + 1, n))
  {
    assert records[p + 1] == Observe(records[p], seen[p]);
    hide Recent, ComputeBackoff;
    forall j | p < j < n && Allows(records[j], seen[j]) ensures CrashAfterStable(seen, p + 1, n) {
      ClearedExactlyWhenStable(records, seen, p + 1, j, end);
    }
    if CrashAfterStable(seen, p + 1, n) {
      var c :| p + 1 <= c < n && seen[c].Crashed? && SeenStable(seen, p + 1, c);
      ClearedExactlyWhenStable(records, seen, p + 1, c, end);
      var k :| p + 1 < k <= c && records[k].None?;
      var j := FirstCrashAfterAClear(records, seen, k, c);
      FirstCrashRestarts(seen[j].now);
      assert Allows(records[j], seen[j]);
    }
  }

  lemma CrashInBackoff(r: Record, now: int)
    requires BackingOff(r, now)
    ensures OnCrash(Some(r), now) == (r, InBackoff)
  {
  }

  lemma EarlySteps(i: nat)
    requires i < 7
    ensures EarlyEndRecords()[i + 1] == Observe(EarlyEndRecords()[i], EarlyEnd()[i])
  {
    var r, o := EarlyEndRecords(), EarlyEnd();
    hide OnCrash, ComputeBackoff;
    if i < 2 {
      CrashGives(r[i], o[i].now, [], r[i + 1].value.attempts);
    } else {
      BackoffDoublesUpToTheCap(3);
      BackoffDoublesUpToTheCap(4);
      BackoffDoublesUpToTheCap(5);
      BackoffDoublesUpToTheCap(6);
      BackoffDoublesUpToTheCap(7);
      if i == 5 {
        CrashGives(r[5], o[5].now, [0, 15 * SECOND, 30 * SECOND, 90 * SECOND], r[6].value.attempts);
      } else {
        CrashGives(r[i], o[i].now, [], r[i + 1].value.attempts);
      }
    }
  }

  lemma LateSteps(i: nat)
    requires 7 <= i < 11
    ensures EarlyEndRecords()[i + 1] == Observe(EarlyEndRecords()[i], EarlyEnd()[i])
    ensures i == 8 ==> OnCrash(EarlyEndRecords()[i], EarlyEnd()[i].now).1 == InBackoff
    ensures i == 10 ==> Restarts(EarlyEndRecords()[i], EarlyEnd()[i])
  {
    var r, o := EarlyEndRecords(), EarlyEnd();
    hide OnCrash;
    if i == 8 { CrashInBackoff(r[8].value, o[8].now); }
    if i == 10 { CrashGives(r[10], o[10].now, [], [800 * SECOND]); }
  }

  /**
   * The proviso is needed: crashes seen during a backoff do not reset the time since which the container counts as
   * running, so five minutes that include a crash clear the history and with it the rest of the backoff.
   */
  lemma ClearedHistoryEndsABackoffEarly()
    ensures var records, seen := EarlyEndRecords(), EarlyEnd();
            && Run(records, seen)
            && Announces(records[7], 1365 * SECOND)
            && OnCrash(records[8], seen[8].now).1 == InBackoff
            && Restarts(records[10], seen[10]) && seen[10].now < 1365 * SECOND
  {
    hide OnCrash, Observe, Restarts;
    forall i: nat | i < 11 ensures EarlyEndRecords()[i + 1] == Observe(EarlyEndRecords()[i], EarlyEnd()[i]) {
      if i < 7 { EarlySteps(i); } else { LateSteps(i); }
    }
    LateSteps(8);
    LateSteps(10);
  }
}
