/** The recurring-job scheduler (cron/scheduler.go). */
module Cron {
  import opened Calendar
  import opened Options

  /** An interval in nanoseconds, or a preset; the empty string and zero mean "not set". */
  datatype Schedule = Schedule(preset: string, interval: int)

  datatype Next = At(instant: int) | BothSet | Unsupported

  const HOURLY := "hourly"
  const DAILY := "daily"
  const WEEKLY := "weekly"
  const MONTHLY := "monthly"

  predicate IsPreset(preset: string) {
    preset == HOURLY || preset == DAILY || preset == WEEKLY || preset == MONTHLY
  }

  function NextHourly(now: int): int {
    var start := AtHour(DayOf(now), now % DAY / HOUR);
    if start > now then start else start + HOUR
  }

  function NextDaily(now: int): int {
    var start := AtHour(DayOf(now), 2);
    if start > now then start else start + DAY
  }

  function NextWeekly(now: int): int {
    var untilSunday := (7 - Weekday(DayOf(now))) % 7;
    var start := AtHour(DayOf(now) + untilSunday, 3);
    if start > now then start else start + 7 * DAY
  }

  function NextMonthly(now: int): int {
    var month := MonthOf(DayOf(now));
    var start := AtHour(MonthStart(month), 4);
    if start > now then start else AtHour(MonthStart(month + 1), 4)
  }

  /** `calculateNextRun`. */
  function CalculateNextRun(now: int, schedule: Schedule): Next {
    if schedule.interval > 0 && schedule.preset != "" then BothSet
    else if schedule.interval > 0 then At(now + schedule.interval)
    else if schedule.preset == HOURLY then At(NextHourly(now))
    else if schedule.preset == DAILY then At(NextDaily(now))
    else if schedule.preset == WEEKLY then At(NextWeekly(now))
    else if schedule.preset == MONTHLY then At(NextMonthly(now))
    else Unsupported
  }

  /** The instants a preset stands for, told from the instant alone. */
  ghost predicate IsSlot(preset: string, instant: int) {
    || (preset == HOURLY && instant % HOUR == 0)
    || (preset == DAILY && instant % DAY == 2 * HOUR)
    || (preset == WEEKLY && instant % DAY == 3 * HOUR && Weekday(DayOf(instant)) == 0)
    || (preset == MONTHLY && exists month :: instant == AtHour(MonthStart(month), 4))
  }

  ghost predicate LeastSlotAfter(preset: string, now: int, slot: int) {
    && IsSlot(preset, slot) && now < slot
    && forall other :: IsSlot(preset, other) && now < other ==> slot <= other
  }

  /**
   * The same in nanoseconds since 1 January 1970, a Thursday: full hours, two hours into a day, three days and three
   * hours into a week, and four hours into the first day of a month.
   */
  lemma SlotsInNumbers(instant: int)
    ensures IsSlot("hourly", instant) <==> instant % 3_600_000_000_000 == 0
    ensures IsSlot("daily", instant) <==> instant % 86_400_000_000_000 == 7_200_000_000_000
    ensures IsSlot("weekly", instant) <==> instant % 604_800_000_000_000 == 270_000_000_000_000
    ensures IsSlot("monthly", instant) <==>
              exists month :: instant == MonthStart(month) * 86_400_000_000_000 + 14_400_000_000_000
    ensures forall preset :: IsSlot(preset, instant) ==> preset in {"hourly", "daily", "weekly", "monthly"}
  {
    WeeklyInNumbers(instant);
    assert forall month :: AtHour(MonthStart(month), 4) == MonthStart(month) * 86_400_000_000_000 + 14_400_000_000_000;
  }

  lemma WeeklyInNumbers(instant: int)
    ensures instant % DAY == 3 * HOUR && Weekday(DayOf(instant)) == 0 <==>
              instant % 604_800_000_000_000 == 270_000_000_000_000
  {
    SplitDay(instant);
    var day, rest := DayOf(instant), instant % DAY;
    var week, weekday := day / 7, day % 7;
    assert instant == week * 604_800_000_000_000 + (weekday * 86_400_000_000_000 + rest);
    QuotientIs(instant, 604_800_000_000_000, week, weekday * 86_400_000_000_000 + rest);
    assert Weekday(day) == 0 <==> weekday == 3;
  }

  lemma SplitDay(instant: int)
    ensures instant == DayOf(instant) * DAY + instant % DAY && 0 <= instant % DAY < DAY
  {
  }

  lemma DayAndHour(day: int, hour: int)
    requires 0 <= hour < 24
    ensures DayOf(AtHour(day, hour)) == day && AtHour(day, hour) % DAY == hour * HOUR
  {
    QuotientIs(AtHour(day, hour), DAY, day, hour * HOUR);
  }

  lemma HourlyIsLeast(now: int)
    ensures LeastSlotAfter(HOURLY, now, NextHourly(now))
  {
    SplitDay(now);
    var hour := now % DAY / HOUR;
    assert now % DAY == hour * HOUR + now % DAY % HOUR;
    var n := 24 * DayOf(now) + hour;
    assert AtHour(DayOf(now), hour) == n * HOUR;
    QuotientIs(n * HOUR, HOUR, n, 0);
    QuotientIs((n + 1) * HOUR, HOUR, n + 1, 0);
    assert n * HOUR <= now < (n + 1) * HOUR;
    assert NextHourly(now) == (n + 1) * HOUR;
    forall other | IsSlot(HOURLY, other) && now < other ensures NextHourly(now) <= other {
      assert other == (other / HOUR) * HOUR && other / HOUR >= n + 1;
    }
  }

  lemma DailySlot(now: int, other: int)
    requires IsSlot(DAILY, other) && now < other
    ensures other == AtHour(DayOf(other), 2) && DayOf(now) <= DayOf(other)
    ensures AtHour(DayOf(now), 2) <= now ==> DayOf(now) < DayOf(other)
  {
    SplitDay(now);
    SplitDay(other);
    hide DayOf;
  }

  lemma DailyIsLeast(now: int)
    ensures LeastSlotAfter(DAILY, now, NextDaily(now))
  {
    var day := DayOf(now);
    SplitDay(now);
    DayAndHour(day, 2);
    DayAndHour(day + 1, 2);
    assert IsSlot(DAILY, AtHour(day, 2)) && IsSlot(DAILY, AtHour(day + 1, 2));
    hide DayOf, IsSlot;
    forall other | IsSlot(DAILY, other) && now < other ensures NextDaily(now) <= other {
      DailySlot(now, other);
    }
  }

  /** The Sundays: consecutive ones are seven days apart. */
  lemma SundaysAreWeeksApart(a: int, b: int)
    requires Weekday(a) == 0 && Weekday(b) == 0 && a < b
    ensures a + 7 <= b
  {
  }

  /** The Sunday the weekly preset looks at first: today, or the next one. */
  function SundayFrom(day: int): int { day + (7 - Weekday(day)) % 7 }

  lemma SundayIsNext(day: int)
    ensures Weekday(SundayFrom(day)) == 0 && Weekday(SundayFrom(day) + 7) == 0
    ensures day <= SundayFrom(day) < day + 7
  {
  }

  lemma WeeklySlot(now: int, other: int)
    requires IsSlot(WEEKLY, other) && now < other
    ensures other == AtHour(DayOf(other), 3) && Weekday(DayOf(other)) == 0
    ensures SundayFrom(DayOf(now)) <= DayOf(other)
  {
    SplitDay(now);
    SplitDay(other);
    hide DayOf;
    SundayIsNext(DayOf(now));
    if DayOf(other) < SundayFrom(DayOf(now)) { SundaysAreWeeksApart(DayOf(other), SundayFrom(DayOf(now))); }
  }

  lemma WeeklyIsLeast(now: int)
    ensures LeastSlotAfter(WEEKLY, now, NextWeekly(now))
  {
    var sunday := SundayFrom(DayOf(now));
    SplitDay(now);
    SundayIsNext(DayOf(now));
    DayAndHour(sunday, 3);
    DayAndHour(sunday + 7, 3);
    assert IsSlot(WEEKLY, AtHour(sunday, 3)) && IsSlot(WEEKLY, AtHour(sunday + 7, 3));
    hide DayOf, IsSlot, Weekday;
    forall other | IsSlot(WEEKLY, other) && now < other ensures NextWeekly(now) <= other {
      WeeklySlot(now, other);
      if sunday < DayOf(other) { SundaysAreWeeksApart(sunday, DayOf(other)); }
    }
  }

  lemma MonthlyIsLeast(now: int)
    ensures LeastSlotAfter(MONTHLY, now, NextMonthly(now))
  {
    SplitDay(now);
    var month := MonthOf(DayOf(now));
    hide MonthStart, MonthOf;
    MonthStartsGrow(month, month + 1);
    forall other | IsSlot(MONTHLY, other) && now < other ensures NextMonthly(now) <= other {
      var m :| other == AtHour(MonthStart(m), 4);
      if m < month {
        MonthStartsGrow(m, month);
      } else if m > month {
        MonthStartsGrow(month + 1, m);
      }
    }
  }

  /**
   * A preset yields the least of its slots strictly after now; an interval is added to now; everything else is refused.
   */
  lemma NextRunIsTheLeastSlot(now: int, schedule: Schedule)
    ensures var next := CalculateNextRun(now, schedule);
            && (next.BothSet? <==> schedule.interval > 0 && schedule.preset != "")
            && (next.Unsupported? <==> schedule.interval <= 0 && !IsPreset(schedule.preset))
            && (next.At? && schedule.interval > 0 ==> next.instant == now + schedule.interval)
            && (next.At? && schedule.interval <= 0 ==> LeastSlotAfter(schedule.preset, now, next.instant))
  {
    hide LeastSlotAfter, NextHourly, NextDaily, NextWeekly, NextMonthly;
    HourlyIsLeast(now);
    DailyIsLeast(now);
    WeeklyIsLeast(now);
    MonthlyIsLeast(now);
  }

  // ------------------------------------------------------------------ the scheduler

  datatype AddResult = Added | IdRequired | JobRequired | BadSchedule(reason: Next) | AlreadyExists

  datatype RunResult = Succeeded | JobFailed | AlreadyRunning | NoNextRun

  /** What the clock and the job do during one execution. */
  datatype Execution = Execution(started: int, completed: int, jobSucceeds: bool)

  /** A clock that was set back during the job counts as not having moved. */
  function CompletedAt(run: Execution): (at: int)
    ensures at >= run.started && at >= run.completed && (at == run.started || at == run.completed)
  {
    if run.completed < run.started then run.started else run.completed
  }

  class Entry {
    const id: string
    const name: string
    const schedule: Schedule
    var lastRun: Option<int>
    var nextRun: int
    var running: bool

    constructor (id: string, name: string, schedule: Schedule, nextRun: int)
      ensures this.id == id && this.name == name && this.schedule == schedule
      ensures lastRun == None && this.nextRun == nextRun && !running
    {
      this.id, this.name, this.schedule := id, name, schedule;
      lastRun, this.nextRun, running := None, nextRun, false;
    }
  }

  /** The effect of one execution on an entry, which `ExecuteEntry` and a round of due entries share. */
  twostate predicate Executed(e: Entry, run: Execution)
    reads e
  {
    var next := CalculateNextRun(CompletedAt(run), e.schedule);
    if old(e.running) then unchanged(e)
    else
      && !e.running
      && (next.At? ==> e.nextRun == next.instant && e.lastRun == Some(run.started))
      && (!next.At? ==> e.nextRun == old(e.nextRun) && e.lastRun == old(e.lastRun))
  }

  /** One run the ticker starts: the entry was due at `tick`, for the slot it waited for. */
  datatype Served = Served(slot: int, tick: int, run: Execution)

  /**
   * The runs of one entry that only the ticker starts, under a clock that does not go back between a tick and the start
   * of the execution: each run waits for the instant the previous one computed.
   */
  ghost predicate TickerRuns(served: seq<Served>, schedule: Schedule, addedAt: int) {
    && (|served| > 0 ==> CalculateNextRun(addedAt, schedule) == At(served[0].slot))
    && (forall i :: 0 <= i < |served| ==> served[i].slot <= served[i].tick <= served[i].run.started)
    && forall i :: 0 <= i < |served| - 1 ==>
         CalculateNextRun(CompletedAt(served[i].run), schedule) == At(served[i + 1].slot)
  }

  /** One pass of the ticker loop: the clock it reads, and what each entry's execution meets. */
  datatype Tick = Tick(now: int, runs: string -> Execution)

  lemma UsableAtAnyTime(now: int, later: int, schedule: Schedule)
    ensures CalculateNextRun(now, schedule).At? == CalculateNextRun(later, schedule).At?
  {
    hide NextHourly, NextDaily, NextWeekly, NextMonthly;
  }

  lemma NextIsLater(now: int, schedule: Schedule)
    ensures CalculateNextRun(now, schedule).At? ==> now < CalculateNextRun(now, schedule).instant
  {
    NextRunIsTheLeastSlot(now, schedule);
    hide IsSlot, NextHourly, NextDaily, NextWeekly, NextMonthly;
  }

  lemma OneMoreRun(served: seq<Served>, schedule: Schedule, addedAt: int, last: Served)
    requires TickerRuns(served, schedule, addedAt) && last.slot <= last.tick <= last.run.started
    requires CalculateNextRun(LastCompleted(served, addedAt), schedule) == At(last.slot)
    ensures TickerRuns(served + [last], schedule, addedAt)
  {
    hide CalculateNextRun;
  }

  /** When the last run was over, or the entry was added. */
  function LastCompleted(served: seq<Served>, addedAt: int): int {
    if served == [] then addedAt else CompletedAt(served[|served| - 1].run)
  }

  class Scheduler {
    var entries: map<string, Entry>

    constructor ()
      ensures Valid() && entries == map[]
    {
      entries := map[];
    }

    ghost predicate Valid()
      reads this
    {
      forall id :: id in entries ==> entries[id].id == id
    }

    method Add(id: string, name: string, schedule: Schedule, hasJob: bool, now: int) returns (r: AddResult)
      requires Valid()
      modifies this
      ensures Valid()
      ensures !r.Added? ==> entries == old(entries)
      ensures r.Added? <==> id != "" && hasJob && CalculateNextRun(now, schedule).At? && id !in old(entries)
      ensures r.AlreadyExists? ==> id in old(entries)
      ensures r.Added? ==>
                && entries.Keys == old(entries).Keys + {id} && fresh(entries[id])
                && (forall other :: other in old(entries) ==> entries[other] == old(entries)[other])
                && entries[id].schedule == schedule && !entries[id].running
                && entries[id].nextRun == CalculateNextRun(now, schedule).instant
    {
      if id == "" { return IdRequired; }
      if !hasJob { return JobRequired; }
      var next := CalculateNextRun(now, schedule);
      if !next.At? { return BadSchedule(next); }
      if id in entries { return AlreadyExists; }
      var e := new Entry(id, name, schedule, next.instant);
      entries := entries[id := e];
      return Added;
    }

    method Remove(id: string) returns (ok: bool)
      requires Valid()
      modifies this
      ensures Valid()
      ensures ok <==> !(id in old(entries) && old(entries)[id].running)
      ensures entries == if ok then old(entries) - {id} else old(entries)
    {
      if id !in entries { return true; }
      if entries[id].running { return false; }
      entries := entries - {id};
      return true;
    }

    method DueEntries(now: int) returns (due: seq<Entry>)
      requires Valid()
      ensures forall i, j :: 0 <= i < j < |due| ==> due[i] != due[j]
      ensures forall e :: e in due <==> e in entries.Values && e.nextRun <= now
    {
      due := [];
      var todo := entries.Keys;
      while todo != {}
        invariant todo <= entries.Keys
        invariant forall id :: id in entries && id !in todo && entries[id].nextRun <= now ==> entries[id] in due
        invariant forall e :: e in due ==> e in entries.Values && e.nextRun <= now && e.id !in todo
        invariant forall i, j :: 0 <= i < j < |due| ==> due[i] != due[j]
      {
        var id :| id in todo;
        todo := todo - {id};
        if !(now < entries[id].nextRun) { due := due + [entries[id]]; }
      }
    }

    method ExecuteEntry(e: Entry, run: Execution) returns (r: RunResult)
      modifies e
      ensures Executed(e, run)
      ensures r.AlreadyRunning? <==> old(e.running)
      ensures r.NoNextRun? <==> !old(e.running) && !CalculateNextRun(CompletedAt(run), e.schedule).At?
      ensures r.Succeeded? ==> run.jobSucceeds
    {
      if e.running { return AlreadyRunning; }
      e.running := true;
      var completedAt := run.completed;
      if completedAt < run.started { completedAt := run.started; }
      var next := CalculateNextRun(completedAt, e.schedule);
      if !next.At? {
        e.running := false;
        return NoNextRun;
      }
      e.lastRun, e.nextRun := Some(run.started), next.instant;
      e.running := false;
      return if run.jobSucceeds then Succeeded else JobFailed;
    }

    /** One tick: every due entry is executed once, and no other entry is touched. */
    method RunDue(now: int, runs: string -> Execution)
      requires Valid()
      modifies entries.Values
      ensures entries == old(entries)
      ensures forall e :: e in entries.Values ==>
                if old(e.nextRun) <= now then Executed(e, runs(e.id)) else unchanged(e)
    {
      var due := DueEntries(now);
      var done: set<Entry> := {};
      for i := 0 to |due|
        invariant done == set e | e in due[..i]
        invariant forall e :: e in entries.Values && e in done ==> Executed(e, runs(e.id))
        invariant forall e :: e in entries.Values && e !in done ==> unchanged(e)
      {
        assert due[i] in due && due[i] !in done;
        var _ := ExecuteEntry(due[i], runs(due[i].id));
        done := done + {due[i]};
      }
    }

    /**
     * The ticker loop of `Start`, seen from one entry: its runs form a history of the ticker, and after each tick it
     * waits for an instant after that tick, so no tick at which it is due passes without a run.
     */
    method DriveByTicker(id: string, ticks: seq<Tick>, ghost addedAt: int) returns (ghost served: seq<Served>)
      requires Valid() && id in entries && !entries[id].running
      requires CalculateNextRun(addedAt, entries[id].schedule) == At(entries[id].nextRun)
      requires forall k :: 0 <= k < |ticks| ==> ticks[k].now <= ticks[k].runs(id).started
      modifies entries.Values
      ensures entries == old(entries) && TickerRuns(served, entries[id].schedule, addedAt)
      ensures CalculateNextRun(LastCompleted(served, addedAt), entries[id].schedule) == At(entries[id].nextRun)
      ensures |ticks| > 0 ==> ticks[|ticks| - 1].now < entries[id].nextRun
      ensures forall s :: s in served ==>
                exists k :: 0 <= k < |ticks| && s.tick == ticks[k].now && s.run == ticks[k].runs(id)
    {
      served := [];
      var e := entries[id];
      for i := 0 to |ticks|
        invariant entries == old(entries) && !e.running
        invariant TickerRuns(served, e.schedule, addedAt)
        invariant CalculateNextRun(LastCompleted(served, addedAt), e.schedule) == At(e.nextRun)
        invariant i > 0 ==> ticks[i - 1].now < e.nextRun
        invariant forall s :: s in served ==>
                    exists k :: 0 <= k < i && s.tick == ticks[k].now && s.run == ticks[k].runs(id)
      {
        hide CalculateNextRun, TickerRuns;
        ghost var slot := e.nextRun;
        RunDue(ticks[i].now, ticks[i].runs);
        if slot <= ticks[i].now {
          ghost var last := Served(slot, ticks[i].now, ticks[i].runs(id));
          NextIsLater(CompletedAt(last.run), e.schedule);
          UsableAtAnyTime(LastCompleted(served, addedAt), CompletedAt(last.run), e.schedule);
          OneMoreRun(served, e.schedule, addedAt, last);
          served := served + [last];
        }
      }
    }
  }

  // ------------------------------------------------------------------ entries driven by the ticker

  /** An entry driven only by the ticker never runs twice for one slot. */
  lemma {:induction false} NoSlotIsServedTwice(served: seq<Served>, schedule: Schedule, addedAt: int, i: nat, j: nat)
    requires TickerRuns(served, schedule, addedAt) && i < j < |served|
    ensures served[i].slot < served[j].slot
    decreases j
  {
    if i + 1 < j { NoSlotIsServedTwice(served, schedule, addedAt, i, j - 1); }
    var k := j - 1;
    NextRunIsTheLeastSlot(CompletedAt(served[k].run), schedule);
    assert CalculateNextRun(CompletedAt(served[k].run), schedule) == At(served[k + 1].slot);
    hide CalculateNextRun;
    assert served[k].slot <= served[k].run.started <= CompletedAt(served[k].run);
  }

  /** Every run of a preset serves a slot, and the slots between two runs passed before the earlier run was over. */
  lemma OnlyPassedSlotsAreSkipped(served: seq<Served>, schedule: Schedule, addedAt: int, i: nat, slot: int)
    requires TickerRuns(served, schedule, addedAt) && i < |served| - 1 && schedule.interval <= 0
    requires IsSlot(schedule.preset, slot) && served[i].slot < slot < served[i + 1].slot
    ensures slot <= CompletedAt(served[i].run)
  {
    NextRunIsTheLeastSlot(CompletedAt(served[i].run), schedule);
    hide CalculateNextRun, IsSlot;
  }

  /**
   * Without that clock, a slot comes round again exactly when the run is over, by the clock, before the slot begins.
   */
  lemma SlotComesRoundAgainIff(schedule: Schedule, slot: int, run: Execution)
    requires schedule.interval <= 0 && IsPreset(schedule.preset) && IsSlot(schedule.preset, slot)
    ensures var next := CalculateNextRun(CompletedAt(run), schedule);
            next.At? && (next.instant <= slot <==> CompletedAt(run) < slot)
  {
    NextRunIsTheLeastSlot(CompletedAt(run), schedule);
    hide CalculateNextRun, IsSlot;
  }

  /** A clock set back by a nanosecond between the tick and the start makes the same slot due again. */
  lemma ClockSetBackServesASlotTwice()
    ensures CalculateNextRun(0, Schedule(HOURLY, 0)) == At(HOUR)
    ensures CalculateNextRun(CompletedAt(Execution(HOUR - 1, HOUR - 1, true)), Schedule(HOURLY, 0)) == At(HOUR)
  {
    HourlyIsLeast(0);
    HourlyIsLeast(HOUR - 1);
    assert IsSlot(HOURLY, HOUR);
  }
}
