/** The debounced handler of changed secrets (container/secrets_handler.go) and the timers it sets. */
module Secrets {

  /** How far a timer's callback has got: waiting for its delay, started, or past the check for shutdown. */
  datatype Stage = Armed | Started | Checked

  datatype Callback = Callback(domain: string, generation: nat, stage: Stage)

  /** The handler's maps, whether its context is cancelled, and the callbacks still to come, by timer. */
  datatype State = State(timers: map<string, nat>, generations: map<string, nat>, stopped: bool,
                         pending: map<nat, Callback>, nextTimer: nat)

  datatype Step =
    | Handle(domain: string)   // an event: one critical section of `resetTimer`
    | Expire(timer: nat)       // the delay is over and the callback starts
    | Check(timer: nat)        // the callback looks at the context
    | Fire(timer: nat)         // the callback's critical section in `fireDeploy`
    | Cancel                   // `Stop` cancels the context
    | StopTimers               // the critical section of `Stop`

  function Generation(generations: map<string, nat>, domain: string): nat {
    if domain in generations then generations[domain] else 0
  }

  /** `Timer.Stop`: it disarms the timer unless its callback has started already. */
  function Disarm(pending: map<nat, Callback>, timer: nat): map<nat, Callback> {
    if timer in pending && pending[timer].stage == Armed then pending - {timer} else pending
  }

  function DisarmAll(pending: map<nat, Callback>, timers: set<nat>): map<nat, Callback> {
    map t | t in pending && !(t in timers && pending[t].stage == Armed) :: pending[t]
  }

  lemma DisarmOneMore(pending: map<nat, Callback>, timers: set<nat>, timer: nat)
    ensures Disarm(DisarmAll(pending, timers), timer) == DisarmAll(pending, timers + {timer})
  {
  }

  function Reset(s: State, domain: string): State {
    if domain == "" then s
    else
      var pending := if domain in s.timers then Disarm(s.pending, s.timers[domain]) else s.pending;
      var generation := Generation(s.generations, domain) + 1;
      State(s.timers[domain := s.nextTimer], s.generations[domain := generation], s.stopped,
            pending[s.nextTimer := Callback(domain, generation, Armed)], s.nextTimer + 1)
  }

  /** The callback enters its critical section carrying the current generation, and goes on to attempt a deploy. */
  predicate Matches(s: State, timer: nat) {
    && timer in s.pending && s.pending[timer].stage == Checked
    && Generation(s.generations, s.pending[timer].domain) == s.pending[timer].generation
  }

  function Fired(s: State, timer: nat): State
    requires timer in s.pending
  {
    var domain := s.pending[timer].domain;
    if Matches(s, timer) then
      s.(timers := s.timers - {domain}, generations := s.generations - {domain}, pending := s.pending - {timer})
    else s.(pending := s.pending - {timer})
  }

  function Cleared(s: State): State {
    State(map[], s.generations - s.timers.Keys, s.stopped, DisarmAll(s.pending, s.timers.Values), s.nextTimer)
  }

  predicate Enabled(s: State, step: Step) {
    match step
    case Handle(_) | Cancel | StopTimers => true
    case Expire(t) => t in s.pending && s.pending[t].stage == Armed
    case Check(t) => t in s.pending && s.pending[t].stage == Started
    case Fire(t) => t in s.pending && s.pending[t].stage == Checked
  }

  function Apply(s: State, step: Step): State
    requires Enabled(s, step)
  {
    match step
    case Handle(domain) => Reset(s, domain)
    case Expire(t) => s.(pending := s.pending[t := s.pending[t].(stage := Started)])
    case Check(t) =>
      if s.stopped then s.(pending := s.pending - {t})
      else s.(pending := s.pending[t := s.pending[t].(stage := Checked)])
    case Fire(t) => Fired(s, t)
    case Cancel => s.(stopped := true)
    case StopTimers => Cleared(s)
  }

  /** The handler itself; each method is one of the steps, and `Stop` is two. */
  class Handler {
    var timers: map<string, nat>
    var generations: map<string, nat>
    var stopped: bool
    var pending: map<nat, Callback>
    var nextTimer: nat

    function Value(): State
      reads this
    {
      State(timers, generations, stopped, pending, nextTimer)
    }

    constructor ()
      ensures Value() == State(map[], map[], false, map[], 0)
    {
      timers, generations, stopped, pending, nextTimer := map[], map[], false, map[], 0;
    }

    method StopTimer(timer: nat)
      modifies this`pending
      ensures pending == Disarm(old(pending), timer)
    {
      if timer in pending && pending[timer].stage == Armed { pending := pending - {timer}; }
    }

    method HandleEvent(domain: string)
      modifies this
      ensures Value() == Apply(old(Value()), Handle(domain))
    {
      if domain == "" { return; }
      if domain in timers { StopTimer(timers[domain]); }
      generations := generations[domain := Generation(generations, domain) + 1];
      var generation := generations[domain];
      pending := pending[nextTimer := Callback(domain, generation, Armed)];
      timers := timers[domain := nextTimer];
      nextTimer := nextTimer + 1;
    }

    method FireDeploy(timer: nat) returns (attempt: bool)
      requires Enabled(Value(), Fire(timer))
      modifies this
      ensures Value() == Apply(old(Value()), Fire(timer))
      ensures attempt == old(Matches(Value(), timer))
    {
      var c := pending[timer];
      pending := pending - {timer};
      if Generation(generations, c.domain) != c.generation { return false; }
      timers := timers - {c.domain};
      generations := generations - {c.domain};
      return true;
    }

    method CancelContext()
      modifies this`stopped
      ensures Value() == Apply(old(Value()), Cancel)
    {
      stopped := true;
    }

    /** One round of the loop in `Stop`. */
    method StopDomain(domain: string)
      requires domain in timers
      modifies this`timers, this`generations, this`pending
      ensures pending == Disarm(old(pending), old(timers)[domain])
      ensures timers == old(timers) - {domain} && generations == old(generations) - {domain}
    {
      StopTimer(timers[domain]);
      timers := timers - {domain};
      generations := generations - {domain};
    }

    method StopAllTimers()
      modifies this
      ensures Value() == Apply(old(Value()), StopTimers)
    {
      ghost var was := Value();
      DisarmNone(pending);
      hide Disarm, DisarmAll;
      var todo := timers.Keys;
      ghost var ids: set<nat> := {};
      while todo != {}
        invariant todo <= was.timers.Keys && timers == was.timers - (was.timers.Keys - todo)
        invariant generations == was.generations - (was.timers.Keys - todo)
        invariant StoppedIds(was.timers, todo, ids)
        invariant pending == DisarmAll(was.pending, ids)
        invariant stopped == was.stopped && nextTimer == was.nextTimer
      {
        var d :| d in todo;
        DisarmOneMore(was.pending, ids, timers[d]);
        OneMoreStopped(was.timers, todo, ids, d);
        ids := ids + {timers[d]};
        StopDomain(d);
        todo := todo - {d};
      }
      AllStopped(was.timers, ids);
    }
  }

  /** `ids` are the timers of the domains no longer to do. */
  ghost predicate StoppedIds(timers: map<string, nat>, todo: set<string>, ids: set<nat>) {
    forall t :: t in ids <==> exists d :: d in timers && d !in todo && timers[d] == t
  }

  lemma OneMoreStopped(timers: map<string, nat>, todo: set<string>, ids: set<nat>, d: string)
    requires StoppedIds(timers, todo, ids) && d in todo && d in timers
    ensures StoppedIds(timers, todo - {d}, ids + {timers[d]})
  {
    forall t | t in ids ensures exists e :: e in timers && e !in todo - {d} && timers[e] == t {
      var e :| e in timers && e !in todo && timers[e] == t;
      assert e !in todo - {d};
    }
  }

  lemma AllStopped(timers: map<string, nat>, ids: set<nat>)
    requires StoppedIds(timers, {}, ids)
    ensures ids == timers.Values
  {
  }

  lemma DisarmNone(pending: map<nat, Callback>)
    ensures DisarmAll(pending, {}) == pending
  {
  }

  // ------------------------------------------------------------------ runs

  const INITIAL := State(map[], map[], false, map[], 0)

  ghost predicate Run(states: seq<State>, steps: seq<Step>) {
    && |states| == |steps| + 1 && states[0] == INITIAL
    && forall i :: 0 <= i < |steps| ==> Enabled(states[i], steps[i]) && states[i + 1] == Apply(states[i], steps[i])
  }

  /** Every domain with a live generation has a pending callback that carries it. */
  ghost predicate LiveHasCallback(s: State) {
    forall d :: d in s.generations ==>
      && d in s.timers && s.timers[d] in s.pending
      && s.pending[s.timers[d]].domain == d && s.pending[s.timers[d]].generation == s.generations[d]
  }

  ghost predicate Shape(s: State) {
    && s.timers.Keys == s.generations.Keys
    && (forall d :: d in s.generations ==> s.generations[d] > 0)
    && (forall d :: d in s.timers ==> s.timers[d] < s.nextTimer)
    && (forall t :: t in s.pending ==>
         t < s.nextTimer && s.pending[t].generation > 0 && s.pending[t].domain != "")
  }

  lemma StepKeepsShape(s: State, step: Step)
    requires Shape(s) && Enabled(s, step)
    ensures Shape(Apply(s, step))
  {
  }

  lemma StepKeepsLive(s: State, step: Step)
    requires Shape(s) && LiveHasCallback(s) && Enabled(s, step) && !s.stopped
    ensures LiveHasCallback(Apply(s, step))
  {
    match step
    case Fire(t) =>
      if !Matches(s, t) {
        forall d | d in s.generations ensures s.timers[d] != t { }
      }
    case _ =>
  }

  lemma {:induction false} ShapeHolds(states: seq<State>, steps: seq<Step>, i: nat)
    requires Run(states, steps) && i < |states|
    ensures Shape(states[i])
  {
    if i > 0 {
      ShapeHolds(states, steps, i - 1);
      assert states[i - 1 + 1] == Apply(states[i - 1], steps[i - 1]);
      hide Apply, Shape;
      StepKeepsShape(states[i - 1], steps[i - 1]);
    }
  }

  ghost predicate NotCancelled(steps: seq<Step>) {
    forall i :: 0 <= i < |steps| ==> steps[i] != Cancel && steps[i] != StopTimers
  }

  /** Until the handler is stopped, a live generation always has a callback on its way, however late callbacks are. */
  lemma {:induction false} LiveAlwaysHasCallback(states: seq<State>, steps: seq<Step>, i: nat)
    requires Run(states, steps) && NotCancelled(steps) && i < |states|
    ensures LiveHasCallback(states[i]) && !states[i].stopped
  {
    if i > 0 {
      LiveAlwaysHasCallback(states, steps, i - 1);
      ShapeHolds(states, steps, i - 1);
      assert states[i - 1 + 1] == Apply(states[i - 1], steps[i - 1]);
      hide LiveHasCallback, Shape;
      StepKeepsLive(states[i - 1], steps[i - 1]);
    }
  }

  /** The step is a callback that attempts a deploy of the domain. */
  predicate Attempts(s: State, step: Step, domain: string) {
    step.Fire? && Matches(s, step.timer) && s.pending[step.timer].domain == domain
  }

  lemma {:induction false} StaysLive(states: seq<State>, steps: seq<Step>, domain: string, i: nat, j: nat)
    requires Run(states, steps) && NotCancelled(steps) && i <= j < |states| && domain in states[i].generations
    requires forall k :: i <= k < j ==> !Attempts(states[k], steps[k], domain)
    ensures domain in states[j].generations
  {
    if i < j {
      StaysLive(states, steps, domain, i, j - 1);
      assert states[j - 1 + 1] == Apply(states[j - 1], steps[j - 1]);
      assert steps[j - 1] != Cancel && steps[j - 1] != StopTimers;
    }
  }

  /** No deploy is lost: once no callback is left, every handled event has been followed by an attempt. */
  lemma NoEventIsLost(states: seq<State>, steps: seq<Step>, domain: string, i: nat) returns (j: nat)
    requires Run(states, steps) && NotCancelled(steps) && i < |steps|
    requires steps[i] == Handle(domain) && domain != ""
    requires states[|steps|].pending == map[]
    ensures i < j < |steps| && Attempts(states[j], steps[j], domain)
  {
    assert states[i + 1] == Apply(states[i], steps[i]);
    if forall k :: i + 1 <= k < |steps| ==> !Attempts(states[k], steps[k], domain) {
      hide Attempts;
      StaysLive(states, steps, domain, i + 1, |steps|);
      LiveAlwaysHasCallback(states, steps, |steps|);
    } else {
      j :| i + 1 <= j < |steps| && Attempts(states[j], steps[j], domain);
    }
  }

  function EventCount(steps: seq<Step>, n: nat, domain: string): nat
    requires n <= |steps|
  {
    if n == 0 then 0 else EventCount(steps, n - 1, domain) + if steps[n - 1] == Handle(domain) then 1 else 0
  }

  function AttemptCount(states: seq<State>, steps: seq<Step>, n: nat, domain: string): nat
    requires |states| == |steps| + 1 && n <= |steps|
  {
    if n == 0 then 0
    else AttemptCount(states, steps, n - 1, domain) + if Attempts(states[n - 1], steps[n - 1], domain) then 1 else 0
  }

  /** Attempts never outnumber events, and a domain that is still live has an event to spare. */
  lemma {:induction false} AttemptsNeverOutnumberEvents(states: seq<State>, steps: seq<Step>, n: nat, domain: string)
    requires Run(states, steps) && n <= |steps|
    ensures AttemptCount(states, steps, n, domain) + (if domain in states[n].generations then 1 else 0)
            <= EventCount(steps, n, domain)
  {
    if n > 0 {
      AttemptsNeverOutnumberEvents(states, steps, n - 1, domain);
      ShapeHolds(states, steps, n - 1);
      var s, step := states[n - 1], steps[n - 1];
      assert states[n - 1 + 1] == Apply(s, step);
      assert Attempts(s, step, domain) ==> domain in s.generations && domain !in states[n].generations;
    }
  }

  // ------------------------------------------------------------------ stopping

  /** The events of a domain since its generation was last forgotten: by an attempt, by `Stop`, or at the start. */
  function EventsSinceReset(states: seq<State>, steps: seq<Step>, n: nat, domain: string): nat
    requires |states| == |steps| + 1 && n <= |steps|
  {
    if n == 0 || steps[n - 1] == StopTimers || Attempts(states[n - 1], steps[n - 1], domain) then 0
    else EventsSinceReset(states, steps, n - 1, domain) + if steps[n - 1] == Handle(domain) then 1 else 0
  }

  lemma {:induction false} GenerationCountsEvents(states: seq<State>, steps: seq<Step>, n: nat, domain: string)
    requires Run(states, steps) && n <= |steps| && domain != ""
    ensures Generation(states[n].generations, domain) == EventsSinceReset(states, steps, n, domain)
  {
    if n > 0 {
      GenerationCountsEvents(states, steps, n - 1, domain);
      ShapeHolds(states, steps, n - 1);
      assert states[n - 1 + 1] == Apply(states[n - 1], steps[n - 1]);
    }
  }

  /**
   * Exactly when a callback attempts a deploy, in every run, before and after `Stop`: its generation equals the number
   * of its domain's events since the generation was last forgotten.
   */
  lemma AttemptsIff(states: seq<State>, steps: seq<Step>, j: nat, timer: nat)
    requires Run(states, steps) && j < |steps| && steps[j] == Fire(timer)
    ensures var c := states[j].pending[timer];
            Attempts(states[j], steps[j], c.domain) <==> c.generation == EventsSinceReset(states, steps, j, c.domain)
  {
    ShapeHolds(states, steps, j);
    GenerationCountsEvents(states, steps, j, states[j].pending[timer].domain);
  }

  lemma {:induction false} EventsAfterStop(states: seq<State>, steps: seq<Step>, i: nat, j: nat, domain: string)
    requires |states| == |steps| + 1 && i < j <= |steps| && steps[i] == StopTimers
    requires forall k :: i < k < j ==> steps[k] != StopTimers && !Attempts(states[k], steps[k], domain)
    ensures EventsSinceReset(states, steps, j, domain)
         == EventCount(steps, j, domain) - EventCount(steps, i + 1, domain)
  {
    if i + 1 < j { EventsAfterStop(states, steps, i, j - 1, domain); }
  }

  /**
   * Exactly when the first attempt after `Stop` comes: a callback attempts if and only if it carries as many
   * generations as events of its domain have been handled since.
   */
  lemma AttemptAfterStopIff(states: seq<State>, steps: seq<Step>, i: nat, j: nat, timer: nat)
    requires Run(states, steps) && i < j < |steps| && steps[i] == StopTimers && steps[j] == Fire(timer)
    requires forall k :: i < k < j ==> steps[k] != StopTimers
    requires forall k :: i < k < j ==> !Attempts(states[k], steps[k], states[j].pending[timer].domain)
    ensures var c := states[j].pending[timer];
            Attempts(states[j], steps[j], c.domain)
            <==> c.generation == EventCount(steps, j, c.domain) - EventCount(steps, i + 1, c.domain)
  {
    AttemptsIff(states, steps, j, timer);
    EventsAfterStop(states, steps, i, j, states[j].pending[timer].domain);
  }

  lemma {:induction false} NoEventsNoGeneration(states: seq<State>, steps: seq<Step>, i: nat, j: nat, domain: string)
    requires |states| == |steps| + 1 && i < j <= |steps| && steps[i] == StopTimers
    requires forall k :: i < k < j ==> steps[k] != Handle(domain)
    ensures EventsSinceReset(states, steps, j, domain) == 0
  {
    if i + 1 < j { NoEventsNoGeneration(states, steps, i, j - 1, domain); }
  }

  /** Once `Stop` has returned, no callback of a domain attempts a deploy until an event of that domain is handled. */
  lemma NoAttemptAfterStop(states: seq<State>, steps: seq<Step>, i: nat, j: nat, domain: string)
    requires Run(states, steps) && i < j < |steps| && steps[i] == StopTimers
    requires forall k :: i < k < j ==> steps[k] != Handle(domain)
    ensures !Attempts(states[j], steps[j], domain)
  {
    if steps[j].Fire? && states[j].pending[steps[j].timer].domain == domain {
      AttemptsIff(states, steps, j, steps[j].timer);
      NoEventsNoGeneration(states, steps, i, j, domain);
      ShapeHolds(states, steps, j);
    }
  }

  /** The states a list of enabled steps leads through. */
  ghost predicate Leads(s: State, steps: seq<Step>, end: State)
    decreases |steps|
  {
    if steps == [] then s == end else Enabled(s, steps[0]) && Leads(Apply(s, steps[0]), steps[1..], end)
  }

  /**
   * The proviso is needed: an event handled after `Stop` revives generation 1 for a callback that was past its check.
   */
  lemma EventAfterStopRevivesALateCallback()
    ensures var late := State(map["a" := 1], map["a" := 1], true,
                              map[0 := Callback("a", 1, Checked), 1 := Callback("a", 1, Armed)], 2);
            && Leads(INITIAL, [Handle("a"), Expire(0), Check(0), Cancel, StopTimers, Handle("a")], late)
            && Attempts(late, Fire(0), "a")
  {
    var s1 := Apply(INITIAL, Handle("a"));
    var s2 := Apply(s1, Expire(0));
    var s3 := Apply(s2, Check(0));
    var s4 := Apply(s3, Cancel);
    var s5 := Apply(s4, StopTimers);
    var s6 := Apply(s5, Handle("a"));
    assert s1.pending == map[0 := Callback("a", 1, Armed)];
    assert s4.pending == map[0 := Callback("a", 1, Checked)];
    assert s5 == State(map[], map[], true, map[0 := Callback("a", 1, Checked)], 1);
    assert Leads(s5, [Handle("a")], s6);
    assert Leads(s4, [StopTimers, Handle("a")], s6);
    assert Leads(s3, [Cancel, StopTimers, Handle("a")], s6);
    assert Leads(s2, [Check(0), Cancel, StopTimers, Handle("a")], s6);
    assert Leads(s1, [Expire(0), Check(0), Cancel, StopTimers, Handle("a")], s6);
  }
}
