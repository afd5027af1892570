/**
 * The zero-downtime deploy protocol of one domain as a state machine (container/service.go): deploys serialised by the
 * domain's lock, finalisers that outlive it, containers that change status at any moment, and restarts of the daemon.
 */
module Deploy {
  import opened Options

  type Id = nat

  datatype Status = Running | Restarting | Down

  /** A container as the runtime holds it. */
  datatype Box = Box(name: string, status: Status, managed: bool)

  /** A container as one listing saw it. */
  datatype Listed = Listed(id: Id, box: Box)

  /** A container as the tracking map records it: the name is the one it had when it was recorded. */
  datatype Tracked = Tracked(id: Id, name: string)

  /** The next call of a "stop, then remove" pair. */
  datatype Kill = ToStop | ToRemove

  /**
   * Where the deploy that holds the lock stands. `existing` is the container it replaces, `successor` the one it
   * created; `clean` says that the listing and every removal of its orphan cleanup have succeeded so far.
   */
  datatype Phase =
    | Idle
    | Locked
    | Resolved(existing: Option<Tracked>)
    | Cleaning(existing: Option<Tracked>, work: seq<Listed>, stage: Kill, clean: bool)
    | Prepared(existing: Option<Tracked>, clean: bool)
    | Starting(existing: Option<Tracked>, id: Id)
    | Discarding(existing: Option<Tracked>, id: Id, stage: Kill)
    | Started(existing: Option<Tracked>, successor: Tracked)
    | Stabilising(previous: Tracked, successor: Tracked)
    | Suspect(previous: Tracked, successor: Tracked)
    | RollingBack(previous: Tracked, successor: Tracked, stage: Kill)
    | BothDead(previous: Tracked, successor: Tracked, stage: Kill)

  datatype FinaliserStage = StopOld | RemoveOld | RenameSuccessor

  /** A background task of an earlier deploy. */
  datatype Finaliser = Finaliser(previous: Id, successor: Id, stage: FinaliserStage)

  datatype State = State(
    boxes: map<Id, Box>,
    tracked: Option<Tracked>,
    phase: Phase,
    finalisers: set<Finaliser>,
    used: set<Id>)  // every id the runtime ever handed out

  datatype Step =
    | Acquire
    | ResolveTracked
    | ResolveFromRuntime(running: seq<Listed>)
    | ResolveFailed
    | ListOrphans(all: seq<Listed>)
    | ListFailed
    | CleanSkip
    | CleanStop(ok: bool)
    | CleanRemove(ok: bool)
    | CleanDone
    | GiveUp                       // an error before creation, or a redundant deploy
    | Create(id: Id)
    | StartFailed
    | NotReady                     // the readiness check or the inspection failed
    | Inspect
    | DiscardStop(ok: bool)
    | DiscardRemove(ok: bool)
    | Activate
    | Stable
    | FoundDead(queryFailed: bool)
    | RollBack
    | FoundOldDead(queryFailed: bool)
    | UndoStop(ok: bool)
    | UndoRemove(ok: bool)
    | FinaliserStop(f: Finaliser, ok: bool)
    | FinaliserRemove(f: Finaliser, ok: bool)
    | FinaliserRename(f: Finaliser, ok: bool)
    | StatusChange(id: Id, status: Status)
    | DaemonRestart

  function NewName(canonical: string): string { canonical + "-new" }

  function NextName(canonical: string): string { canonical + "-next" }

  predicate IsTempName(name: string, canonical: string) {
    name == NewName(canonical) || name == NextName(canonical)
  }

  predicate IsCandidateName(name: string, canonical: string) {
    name == canonical || IsTempName(name, canonical)
  }

  /** `deploymentContainerName`. */
  function DeploymentContainerName(canonical: string, existing: Option<Tracked>): string {
    match existing
    case None => canonical
    case Some(c) => if c.name == NewName(canonical) then NextName(canonical) else NewName(canonical)
  }

  predicate IsCandidate(c: Listed, canonical: string) {
    IsCandidateName(c.box.name, canonical) && c.box.managed
  }

  /** A managed container under one of the domain's three names. */
  ghost predicate MayServe(c: Listed, canonical: string) {
    && c.box.managed
    && (c.box.name == canonical || c.box.name == canonical + "-new" || c.box.name == canonical + "-next")
  }

  /**
   * The container the slow path settles on: a canonically named candidate if there is one, else the first candidate.
   */
  ghost predicate IsBest(running: seq<Listed>, canonical: string, best: Option<Listed>) {
    match best
    case None => forall c :: c in running ==> !MayServe(c, canonical)
    case Some(b) =>
      && b in running && MayServe(b, canonical)
      && (b.box.name != canonical ==>
            && (forall c :: c in running && MayServe(c, canonical) ==> c.box.name != canonical)
            && exists i :: 0 <= i < |running| && running[i] == b
                           && forall j :: 0 <= j < i ==> !MayServe(running[j], canonical))
  }

  /** The loop of `resolveExistingContainer` over the running containers. */
  method FindExisting(running: seq<Listed>, canonical: string) returns (best: Option<Listed>)
    ensures IsBest(running, canonical, best)
  {
    best := None;
    for i := 0 to |running|
      invariant best.None? ==> forall j :: 0 <= j < i ==> !IsCandidate(running[j], canonical)
      invariant best.Some? ==> best.value in running[..i] && IsCandidate(best.value, canonical)
      invariant best.Some? && best.value.box.name != canonical ==>
                  && (forall j :: 0 <= j < i && IsCandidate(running[j], canonical) ==> running[j].box.name != canonical)
                  && exists k :: 0 <= k < i && running[k] == best.value
                                 && forall j :: 0 <= j < k ==> !IsCandidate(running[j], canonical)
    {
      var c := running[i];
      if IsCandidate(c, canonical) {
        if best.None? || c.box.name == canonical { best := Some(c); }
      }
    }
  }

  // ------------------------------------------------------------------ the runtime

  /** A listing shows every container that satisfies the filter, once, as it is. */
  ghost predicate Lists(all: seq<Listed>, boxes: map<Id, Box>, activeOnly: bool) {
    && (forall c :: c in all ==> c.id in boxes && boxes[c.id] == c.box)
    && (forall id :: id in boxes && (activeOnly ==> boxes[id].status != Down) ==> Listed(id, boxes[id]) in all)
  }

  function Stopped(boxes: map<Id, Box>, id: Id, ok: bool): map<Id, Box> {
    if ok && id in boxes then boxes[id := boxes[id].(status := Down)] else boxes
  }

  function Removed(boxes: map<Id, Box>, id: Id, ok: bool): map<Id, Box> {
    if ok then boxes - {id} else boxes
  }

  predicate NameFree(boxes: map<Id, Box>, name: string) {
    forall id :: id in boxes ==> boxes[id].name != name
  }

  /** The id the orphan cleanup spares; without an existing container it spares none. */
  predicate Spared(id: Id, existing: Option<Tracked>) {
    existing.Some? && existing.value.id == id
  }

  /** `cleanupOrphanedContainers`'s decision about one listed container. */
  predicate IsOrphan(c: Listed, canonical: string, existing: Option<Tracked>) {
    && IsCandidateName(c.box.name, canonical)
    && !Spared(c.id, existing)
    && !(c.box.status != Down && (existing.None? || c.box.name == canonical))
  }

  // ------------------------------------------------------------------ the steps

  ghost predicate Resolves(s: State, step: Step, s': State, canonical: string)
    requires step.ResolveTracked? || step.ResolveFromRuntime? || step.ResolveFailed?
  {
    s.phase.Locked? &&
    match step
    case ResolveTracked => s.tracked.Some? && s' == s.(phase := Resolved(s.tracked))
    case ResolveFromRuntime(running) =>
      && s.tracked.None? && Lists(running, s.boxes, true)
      && exists best :: IsBest(running, canonical, best)
           && (best.None? ==> s' == s.(phase := Resolved(None)))
           && (best.Some? ==>
                 var found := Some(Tracked(best.value.id, best.value.box.name));
                 s' == s.(tracked := found, phase := Resolved(found)))
    case ResolveFailed => s.tracked.None? && s' == s.(phase := Resolved(None))
  }

  ghost predicate Cleans(s: State, step: Step, s': State, canonical: string)
    requires step.CleanSkip? || step.CleanStop? || step.CleanRemove? || step.CleanDone?
  {
    s.phase.Cleaning? &&
    var p := s.phase;
    if p.work == [] then step.CleanDone? && s' == s.(phase := Prepared(p.existing, p.clean))
    else
      var c := p.work[0];
      match step
      case CleanSkip =>
        !IsOrphan(c, canonical, p.existing) && p.stage == ToStop
        && s' == s.(phase := Cleaning(p.existing, p.work[1..], ToStop, p.clean))
      case CleanStop(ok) =>
        IsOrphan(c, canonical, p.existing) && p.stage == ToStop
        && s' == s.(boxes := Stopped(s.boxes, c.id, ok), phase := Cleaning(p.existing, p.work, ToRemove, p.clean))
      case CleanRemove(ok) =>
        IsOrphan(c, canonical, p.existing) && p.stage == ToRemove
        && s' == s.(boxes := Removed(s.boxes, c.id, ok),
                    phase := Cleaning(p.existing, p.work[1..], ToStop, p.clean && ok))
      case CleanDone => false
  }

  ghost predicate Creates(s: State, step: Step, s': State, canonical: string)
    requires step.Create? || step.StartFailed? || step.NotReady? || step.Inspect?
             || step.DiscardStop? || step.DiscardRemove?
  {
    match step
    case Create(id) =>
      && s.phase.Prepared? && id !in s.used
      && var name := DeploymentContainerName(canonical, s.phase.existing);
         NameFree(s.boxes, name)
         && s' == s.(boxes := s.boxes[id := Box(name, Down, true)], used := s.used + {id},
                     phase := Starting(s.phase.existing, id))
    case StartFailed => s.phase.Starting? && s' == s.(phase := Discarding(s.phase.existing, s.phase.id, ToRemove))
    case NotReady => s.phase.Starting? && s' == s.(phase := Discarding(s.phase.existing, s.phase.id, ToStop))
    case Inspect =>
      && s.phase.Starting? && s.phase.id in s.boxes
      && s' == s.(phase := Started(s.phase.existing, Tracked(s.phase.id, s.boxes[s.phase.id].name)))
    case DiscardStop(ok) =>
      && s.phase.Discarding? && s.phase.stage == ToStop
      && s' == s.(boxes := Stopped(s.boxes, s.phase.id, ok),
                  phase := Discarding(s.phase.existing, s.phase.id, ToRemove))
    case DiscardRemove(ok) =>
      && s.phase.Discarding? && s.phase.stage == ToRemove
      && s' == s.(boxes := Removed(s.boxes, s.phase.id, ok), phase := Idle)
  }

  ghost predicate Switches(s: State, step: Step, s': State)
    requires step.Activate? || step.Stable? || step.FoundDead? || step.RollBack? || step.FoundOldDead?
             || step.UndoStop? || step.UndoRemove?
  {
    match step
    case Activate =>
      && s.phase.Started?
      && s' == s.(tracked := Some(s.phase.successor),
                  phase := if s.phase.existing.Some? then Stabilising(s.phase.existing.value, s.phase.successor)
                      else Idle)
    case Stable =>
      && s.phase.Stabilising?
      && s' == s.(phase := Idle,
                  finalisers := s.finalisers + {Finaliser(s.phase.previous.id, s.phase.successor.id, StopOld)})
    case FoundDead(queryFailed) =>
      && s.phase.Stabilising? && (queryFailed || !IsRunning(s, s.phase.successor.id))
      && s' == s.(phase := Suspect(s.phase.previous, s.phase.successor))
    case RollBack =>
      && s.phase.Suspect? && IsRunning(s, s.phase.previous.id)
      && s' == s.(tracked := Some(s.phase.previous), phase := RollingBack(s.phase.previous, s.phase.successor, ToStop))
    case FoundOldDead(queryFailed) =>
      && s.phase.Suspect? && (queryFailed || !IsRunning(s, s.phase.previous.id))
      && s' == s.(phase := BothDead(s.phase.previous, s.phase.successor, ToStop))
    case UndoStop(ok) =>
      var p := s.phase;
      var boxes := if p.RollingBack? || p.BothDead? then Stopped(s.boxes, p.successor.id, ok) else s.boxes;
      || (p.RollingBack? && p.stage == ToStop
          && s' == s.(boxes := boxes, phase := RollingBack(p.previous, p.successor, ToRemove)))
      || (p.BothDead? && p.stage == ToStop
          && s' == s.(boxes := boxes, phase := BothDead(p.previous, p.successor, ToRemove)))
    case UndoRemove(ok) =>
      && (s.phase.RollingBack? || s.phase.BothDead?) && s.phase.stage == ToRemove
      && s' == s.(boxes := Removed(s.boxes, s.phase.successor.id, ok), phase := Idle)
  }

  predicate IsRunning(s: State, id: Id) {
    id in s.boxes && s.boxes[id].status == Running
  }

  function Advance(finalisers: set<Finaliser>, f: Finaliser, stage: FinaliserStage): set<Finaliser> {
    finalisers - {f} + {f.(stage := stage)}
  }

  ghost predicate Finalises(s: State, step: Step, s': State, canonical: string)
    requires step.FinaliserStop? || step.FinaliserRemove? || step.FinaliserRename?
  {
    var f := step.f;
    f in s.finalisers &&
    match step
    case FinaliserStop(_, ok) =>
      f.stage == StopOld && s' == s.(boxes := Stopped(s.boxes, f.previous, ok),
          finalisers := Advance(s.finalisers, f, RemoveOld))
    case FinaliserRemove(_, ok) =>
      f.stage == RemoveOld && s' == s.(boxes := Removed(s.boxes, f.previous, ok),
          finalisers := Advance(s.finalisers, f, RenameSuccessor))
    case FinaliserRename(_, ok) =>
      && f.stage == RenameSuccessor
      && (ok ==> f.successor in s.boxes && NameFree(s.boxes - {f.successor}, canonical))
      && s' == s.(boxes := if ok then s.boxes[f.successor := s.boxes[f.successor].(name := canonical)] else s.boxes,
                  finalisers := s.finalisers - {f})
  }

  ghost predicate Prepares(s: State, step: Step, s': State)
    requires step.Acquire? || step.ListOrphans? || step.ListFailed? || step.GiveUp?
  {
    match step
    case Acquire => s.phase.Idle? && s' == s.(phase := Locked)
    case ListOrphans(all) =>
      && s.phase.Resolved? && Lists(all, s.boxes, false)
      && s' == s.(phase := Cleaning(s.phase.existing, all, ToStop, true))
    case ListFailed => s.phase.Resolved? && s' == s.(phase := Prepared(s.phase.existing, false))
    case GiveUp => s.phase.Prepared? && s' == s.(phase := Idle)
  }

  ghost predicate Next(s: State, step: Step, s': State, canonical: string) {
    match step
    case Acquire | ListOrphans(_) | ListFailed | GiveUp => Prepares(s, step, s')
    case ResolveTracked | ResolveFromRuntime(_) | ResolveFailed => Resolves(s, step, s', canonical)
    case CleanSkip | CleanStop(_) | CleanRemove(_) | CleanDone => Cleans(s, step, s', canonical)
    case Create(_) | StartFailed | NotReady | Inspect | DiscardStop(_) | DiscardRemove(_) =>
      Creates(s, step, s', canonical)
    case Activate | Stable | FoundDead(_) | RollBack | FoundOldDead(_) | UndoStop(_) | UndoRemove(_) =>
      Switches(s, step, s')
    case FinaliserStop(_, _) | FinaliserRemove(_, _) | FinaliserRename(_, _) => Finalises(s, step, s', canonical)
    case StatusChange(id, status) => id in s.boxes && s' == s.(boxes := s.boxes[id := s.boxes[id].(status := status)])
    case DaemonRestart => s' == s.(tracked := None, phase := Idle, finalisers := {})
  }

  /** The container a step stops or removes, if it does. */
  function Killed(s: State, step: Step): Option<Id> {
    match step
    case CleanStop(_) => if s.phase.Cleaning? && s.phase.work != [] then Some(s.phase.work[0].id) else None
    case CleanRemove(_) => if s.phase.Cleaning? && s.phase.work != [] then Some(s.phase.work[0].id) else None
    case DiscardStop(_) => if s.phase.Discarding? then Some(s.phase.id) else None
    case DiscardRemove(_) => if s.phase.Discarding? then Some(s.phase.id) else None
    case UndoStop(_) => if s.phase.RollingBack? || s.phase.BothDead? then Some(s.phase.successor.id) else None
    case UndoRemove(_) => if s.phase.RollingBack? || s.phase.BothDead? then Some(s.phase.successor.id) else None
    case FinaliserStop(f, _) => Some(f.previous)
    case FinaliserRemove(f, _) => Some(f.previous)
    case _ => None
  }

  // ------------------------------------------------------------------ the invariant

  /** What the phase says about the tracking map: before activation it names `existing`, after it the successor. */
  predicate PhaseAgrees(s: State) {
    match s.phase
    case Idle | Locked => true
    case Resolved(existing) => s.tracked == existing
    case Cleaning(existing, _, _, _) => s.tracked == existing
    case Prepared(existing, _) => s.tracked == existing
    case Starting(existing, id) => s.tracked == existing && !Spared(id, existing)
    case Discarding(existing, id, _) => s.tracked == existing && !Spared(id, existing)
    case Started(existing, successor) => s.tracked == existing && !Spared(successor.id, existing)
    case Stabilising(previous, successor) => s.tracked == Some(successor) && previous.id != successor.id
    case Suspect(previous, successor) => s.tracked == Some(successor) && previous.id != successor.id
    case RollingBack(previous, successor, _) => s.tracked == Some(previous) && previous.id != successor.id
    case BothDead(previous, successor, _) => s.tracked == Some(successor) && previous.id != successor.id
  }

  /** The ids the deploy in progress holds on to. */
  function PhaseIds(phase: Phase): set<Id> {
    match phase
    case Idle | Locked => {}
    case Resolved(existing) => ExistingIds(existing)
    case Cleaning(existing, _, _, _) => ExistingIds(existing)
    case Prepared(existing, _) => ExistingIds(existing)
    case Starting(existing, id) => ExistingIds(existing) + {id}
    case Discarding(existing, id, _) => ExistingIds(existing) + {id}
    case Started(existing, successor) => ExistingIds(existing) + {successor.id}
    case Stabilising(previous, successor) => {previous.id, successor.id}
    case Suspect(previous, successor) => {previous.id, successor.id}
    case RollingBack(previous, successor, _) => {previous.id, successor.id}
    case BothDead(previous, successor, _) => {previous.id, successor.id}
  }

  function ExistingIds(existing: Option<Tracked>): set<Id> {
    if existing.Some? then {existing.value.id} else {}
  }

  /** Everything that is or may become tracked again. */
  function LiveIds(s: State): set<Id> {
    ExistingIds(s.tracked) + PhaseIds(s.phase)
  }

  /** A finaliser's victim has been replaced for good. */
  predicate FinalisersAreBehind(s: State) {
    && (s.finalisers != {} ==> s.tracked.Some?)
    && forall f :: f in s.finalisers ==> f.previous !in LiveIds(s) && f.previous in s.used && f.previous != f.successor
  }

  predicate IdsAreUsed(s: State) {
    s.boxes.Keys <= s.used && LiveIds(s) <= s.used
  }

  /** A recorded container has its recorded name or has been given the canonical one since. */
  predicate NamedAs(c: Tracked, boxes: map<Id, Box>, canonical: string) {
    c.id in boxes ==> boxes[c.id].name == c.name || boxes[c.id].name == canonical
  }

  predicate RecordedNames(s: State, canonical: string) {
    && (s.tracked.Some? ==> NamedAs(s.tracked.value, s.boxes, canonical))
    && (s.phase.Started? ==> NamedAs(s.phase.successor, s.boxes, canonical))
    && (s.phase.Stabilising? || s.phase.Suspect? ==> NamedAs(s.phase.previous, s.boxes, canonical))
  }

  /** Whatever holds a temporary name, other than the existing container, is still to be dealt with by the cleanup. */
  ghost predicate Holders(boxes: map<Id, Box>, existing: Tracked, work: seq<Listed>, canonical: string) {
    forall id :: id in boxes && IsTempName(boxes[id].name, canonical) && id != existing.id ==>
      exists c :: c in work && c.id == id && c.box.name == boxes[id].name
  }

  ghost predicate CleanupProgress(s: State, canonical: string) {
    && (s.phase.Cleaning? && s.phase.clean && s.phase.existing.Some? ==>
          Holders(s.boxes, s.phase.existing.value, s.phase.work, canonical))
    && (s.phase.Prepared? && s.phase.clean && s.phase.existing.Some? ==>
          Holders(s.boxes, s.phase.existing.value, [], canonical))
  }

  /** The part of the invariant that does not concern the progress of the cleanup. */
  predicate Core(s: State, canonical: string) {
    PhaseAgrees(s) && FinalisersAreBehind(s) && IdsAreUsed(s) && RecordedNames(s, canonical)
  }

  ghost predicate Inv(s: State, canonical: string) {
    Core(s, canonical) && CleanupProgress(s, canonical)
  }

  /** The daemon has just started: it tracks nothing, and any containers may be left from before. */
  predicate Init(s: State) {
    s.tracked.None? && s.phase.Idle? && s.finalisers == {} && s.boxes.Keys <= s.used
  }

  lemma InitEstablishes(s: State, canonical: string)
    requires Init(s)
    ensures Inv(s, canonical)
  {
  }

  lemma PreparesKeeps(s: State, step: Step, s': State, canonical: string)
    requires step.Acquire? || step.ListOrphans? || step.ListFailed? || step.GiveUp?
    requires Core(s, canonical) && Prepares(s, step, s')
    ensures Core(s', canonical)
  {
    hide Lists, NamedAs;
  }

  lemma BestIsListed(running: seq<Listed>, canonical: string, best: Option<Listed>)
    requires IsBest(running, canonical, best) && best.Some?
    ensures best.value in running
  {
  }

  lemma ResolvesKeeps(s: State, step: Step, s': State, canonical: string)
    requires step.ResolveTracked? || step.ResolveFromRuntime? || step.ResolveFailed?
    requires Core(s, canonical) && Resolves(s, step, s', canonical)
    ensures Core(s', canonical)
  {
    hide IsBest;
    if step.ResolveFromRuntime? {
      var best :| IsBest(step.running, canonical, best)
                  && (best.None? ==> s' == s.(phase := Resolved(None)))
                  && (best.Some? ==>
                        var found := Some(Tracked(best.value.id, best.value.box.name));
                        s' == s.(tracked := found, phase := Resolved(found)));
      if best.Some? { BestIsListed(step.running, canonical, best); }
    }
  }

  lemma CleansKeeps(s: State, step: Step, s': State, canonical: string)
    requires step.CleanSkip? || step.CleanStop? || step.CleanRemove? || step.CleanDone?
    requires Core(s, canonical) && Cleans(s, step, s', canonical)
    ensures Core(s', canonical)
  {
    hide IsOrphan;
  }

  lemma CreatesKeeps(s: State, step: Step, s': State, canonical: string)
    requires step.Create? || step.StartFailed? || step.NotReady? || step.Inspect?
             || step.DiscardStop? || step.DiscardRemove?
    requires Core(s, canonical) && Creates(s, step, s', canonical)
    ensures Core(s', canonical)
  {
    hide NameFree, DeploymentContainerName;
  }

  lemma SwitchesKeeps(s: State, step: Step, s': State, canonical: string)
    requires step.Activate? || step.Stable? || step.FoundDead? || step.RollBack? || step.FoundOldDead?
             || step.UndoStop? || step.UndoRemove?
    requires Core(s, canonical) && Switches(s, step, s')
    ensures Core(s', canonical)
  {
  }

  lemma FinalisesKeeps(s: State, step: Step, s': State, canonical: string)
    requires step.FinaliserStop? || step.FinaliserRemove? || step.FinaliserRename?
    requires Core(s, canonical) && Finalises(s, step, s', canonical)
    ensures Core(s', canonical)
  {
    hide NameFree;
  }

  lemma SurroundingsKeep(s: State, step: Step, s': State, canonical: string)
    requires step.StatusChange? || step.DaemonRestart?
    requires Core(s, canonical) && Next(s, step, s', canonical)
    ensures Core(s', canonical)
  {
  }

  lemma StepKeepsCore(s: State, step: Step, s': State, canonical: string)
    requires Core(s, canonical) && Next(s, step, s', canonical)
    ensures Core(s', canonical)
  {
    hide Core, Prepares, Resolves, Cleans, Creates, Switches, Finalises;
    match step
    case StatusChange(_, _) | DaemonRestart => SurroundingsKeep(s, step, s', canonical);
    case Acquire | ListOrphans(_) | ListFailed | GiveUp => PreparesKeeps(s, step, s', canonical);
    case ResolveTracked | ResolveFromRuntime(_) | ResolveFailed => ResolvesKeeps(s, step, s', canonical);
    case CleanSkip | CleanStop(_) | CleanRemove(_) | CleanDone => CleansKeeps(s, step, s', canonical);
    case Create(_) | StartFailed | NotReady | Inspect | DiscardStop(_) | DiscardRemove(_) =>
      CreatesKeeps(s, step, s', canonical);
    case Activate | Stable | FoundDead(_) | RollBack | FoundOldDead(_) | UndoStop(_) | UndoRemove(_) =>
      SwitchesKeeps(s, step, s', canonical);
    case FinaliserStop(_, _) | FinaliserRemove(_, _) | FinaliserRename(_, _) => FinalisesKeeps(s, step, s', canonical);
  }

  lemma ListingHolds(all: seq<Listed>, boxes: map<Id, Box>, existing: Tracked, canonical: string)
    requires Lists(all, boxes, false)
    ensures Holders(boxes, existing, all, canonical)
  {
  }

  /** Names only ever change to the canonical one, so holders of temporary names only become fewer. */
  lemma HoldersShrink(boxes: map<Id, Box>, boxes': map<Id, Box>, existing: Tracked, work: seq<Listed>,
                      canonical: string)
    requires Holders(boxes, existing, work, canonical)
    requires forall id :: id in boxes' && IsTempName(boxes'[id].name, canonical) ==>
               id in boxes && boxes[id].name == boxes'[id].name
    ensures Holders(boxes', existing, work, canonical)
  {
    CanonicalIsNotTemp(canonical);
  }

  lemma CanonicalIsNotTemp(canonical: string)
    ensures !IsTempName(canonical, canonical) && NewName(canonical) != NextName(canonical)
  {
    assert |NewName(canonical)| != |NextName(canonical)|;
  }

  /** Once the head of the work list is skipped or removed, the rest still accounts for every holder. */
  lemma HeadIsDone(boxes: map<Id, Box>, existing: Tracked, work: seq<Listed>, canonical: string)
    requires work != [] && Holders(boxes, existing, work, canonical)
    requires !IsOrphan(work[0], canonical, Some(existing)) || work[0].id !in boxes
    ensures Holders(boxes, existing, work[1..], canonical)
  {
    CanonicalIsNotTemp(canonical);
    forall id | id in boxes && IsTempName(boxes[id].name, canonical) && id != existing.id
      ensures exists c :: c in work[1..] && c.id == id && c.box.name == boxes[id].name
    {
      var c :| c in work && c.id == id && c.box.name == boxes[id].name;
      assert c != work[0];
    }
  }

  lemma CleanStepKeepsProgress(s: State, step: Step, s': State, canonical: string)
    requires step.CleanSkip? || step.CleanStop? || step.CleanRemove? || step.CleanDone?
    requires CleanupProgress(s, canonical) && Cleans(s, step, s', canonical)
    ensures CleanupProgress(s', canonical)
  {
    var p := s.phase;
    if p.clean && p.existing.Some? && p.work != [] {
      var e, c := p.existing.value, p.work[0];
      hide Holders, IsOrphan;
      match step {
        case CleanSkip => HeadIsDone(s.boxes, e, p.work, canonical);
        case CleanStop(ok) => HoldersShrink(s.boxes, s'.boxes, e, p.work, canonical);
        case CleanRemove(ok) =>
          HoldersShrink(s.boxes, s'.boxes, e, p.work, canonical);
          if ok { HeadIsDone(s'.boxes, e, p.work, canonical); }
      }
    }
  }

  lemma NamesInCleanup(s: State, step: Step, s': State, canonical: string, id: Id)
    requires step.CleanSkip? || step.CleanStop? || step.CleanRemove? || step.CleanDone?
    requires Cleans(s, step, s', canonical) && id in s'.boxes
    ensures id in s.boxes && s.boxes[id].name == s'.boxes[id].name
  {
    hide IsOrphan;
  }

  lemma NamesInCreation(s: State, step: Step, s': State, canonical: string, id: Id)
    requires step.StartFailed? || step.NotReady? || step.Inspect? || step.DiscardStop? || step.DiscardRemove?
    requires Creates(s, step, s', canonical) && id in s'.boxes
    ensures id in s.boxes && s.boxes[id].name == s'.boxes[id].name
  {
  }

  lemma NamesInSwitch(s: State, step: Step, s': State, id: Id)
    requires step.Activate? || step.Stable? || step.FoundDead? || step.RollBack? || step.FoundOldDead?
             || step.UndoStop? || step.UndoRemove?
    requires Switches(s, step, s') && id in s'.boxes
    ensures id in s.boxes && s.boxes[id].name == s'.boxes[id].name
  {
  }

  lemma NamesInFinaliser(s: State, step: Step, s': State, canonical: string, id: Id)
    requires step.FinaliserStop? || step.FinaliserRemove? || step.FinaliserRename?
    requires Finalises(s, step, s', canonical) && id in s'.boxes
    ensures id in s.boxes && (s.boxes[id].name == s'.boxes[id].name || s'.boxes[id].name == canonical)
  {
    hide NameFree;
  }

  /** A step other than a creation adds no container, and renames to the canonical name only. */
  lemma NamesOnlyBecomeCanonical(s: State, step: Step, s': State, canonical: string, id: Id)
    requires Next(s, step, s', canonical) && !step.Create? && id in s'.boxes && IsTempName(s'.boxes[id].name, canonical)
    ensures id in s.boxes && s.boxes[id].name == s'.boxes[id].name
  {
    CanonicalIsNotTemp(canonical);
    hide Lists, IsBest, IsTempName, Cleans, Creates, Switches, Finalises;
    match step
    case CleanSkip | CleanStop(_) | CleanRemove(_) | CleanDone => NamesInCleanup(s, step, s', canonical, id);
    case StartFailed | NotReady | Inspect | DiscardStop(_) | DiscardRemove(_) =>
      NamesInCreation(s, step, s', canonical, id);
    case Activate | Stable | FoundDead(_) | RollBack | FoundOldDead(_) | UndoStop(_) | UndoRemove(_) =>
      NamesInSwitch(s, step, s', id);
    case FinaliserStop(_, _) | FinaliserRemove(_, _) | FinaliserRename(_, _) =>
      NamesInFinaliser(s, step, s', canonical, id);
    case _ =>
  }

  /** Apart from the cleanup's own steps, a cleanup begins with a listing and is otherwise left where it is. */
  lemma CleanupStays(s: State, step: Step, s': State, canonical: string)
    requires !step.CleanSkip? && !step.CleanStop? && !step.CleanRemove? && !step.CleanDone?
    requires !step.ListOrphans? && !step.ListFailed? && Next(s, step, s', canonical)
    ensures s'.phase.Cleaning? || s'.phase.Prepared? ==> s'.phase == s.phase && !step.Create?
  {
    hide IsBest, Lists, NameFree, IsOrphan, Stopped, Removed, Advance, DeploymentContainerName, IsRunning;
  }

  lemma OtherStepKeepsProgress(s: State, step: Step, s': State, canonical: string)
    requires !step.CleanSkip? && !step.CleanStop? && !step.CleanRemove? && !step.CleanDone?
    requires CleanupProgress(s, canonical) && Next(s, step, s', canonical)
    ensures CleanupProgress(s', canonical)
  {
    hide Holders;
    if step.ListOrphans? {
      if s.phase.existing.Some? { ListingHolds(step.all, s.boxes, s.phase.existing.value, canonical); }
    } else if !step.ListFailed? && (s'.phase.Cleaning? || s'.phase.Prepared?) {
      CleanupStays(s, step, s', canonical);
      forall id | id in s'.boxes && IsTempName(s'.boxes[id].name, canonical)
        ensures id in s.boxes && s.boxes[id].name == s'.boxes[id].name
      {
        NamesOnlyBecomeCanonical(s, step, s', canonical, id);
      }
      hide Next, IsTempName;
      if s.phase.existing.Some? && s.phase.clean {
        var work := if s.phase.Cleaning? then s.phase.work else [];
        HoldersShrink(s.boxes, s'.boxes, s.phase.existing.value, work, canonical);
      }
    }
  }

  /** Every step of every party keeps the invariant. */
  lemma StepKeepsInv(s: State, step: Step, s': State, canonical: string)
    requires Inv(s, canonical) && Next(s, step, s', canonical)
    ensures Inv(s', canonical)
  {
    StepKeepsCore(s, step, s', canonical);
    hide Core, CleanupProgress;
    if step.CleanSkip? || step.CleanStop? || step.CleanRemove? || step.CleanDone? {
      CleanStepKeepsProgress(s, step, s', canonical);
    } else {
      OtherStepKeepsProgress(s, step, s', canonical);
    }
  }

  // ------------------------------------------------------------------ runs

  ghost predicate Run(states: seq<State>, steps: seq<Step>, canonical: string) {
    && |states| == |steps| + 1 && Init(states[0])
    && forall i :: 0 <= i < |steps| ==> Next(states[i], steps[i], states[i + 1], canonical)
  }

  lemma {:induction false} InvariantHolds(states: seq<State>, steps: seq<Step>, canonical: string, i: nat)
    requires Run(states, steps, canonical) && i < |states|
    ensures Inv(states[i], canonical)
  {
    hide Inv, Next, Init;
    if i == 0 {
      InitEstablishes(states[0], canonical);
    } else {
      InvariantHolds(states, steps, canonical, i - 1);
      assert Next(states[i - 1], steps[i - 1], states[i - 1 + 1], canonical);
      StepKeepsInv(states[i - 1], steps[i - 1], states[i], canonical);
    }
  }

  predicate SameStatus(boxes: map<Id, Box>, boxes': map<Id, Box>, id: Id)
    requires id in boxes
  {
    id in boxes' && boxes'[id].status == boxes[id].status
  }

  lemma OtherCleanups(s: State, step: Step, s': State, canonical: string, id: Id)
    requires step.CleanSkip? || step.CleanStop? || step.CleanRemove? || step.CleanDone?
    requires Cleans(s, step, s', canonical) && id in s.boxes && Killed(s, step) != Some(id)
    ensures SameStatus(s.boxes, s'.boxes, id)
  {
    hide IsOrphan;
  }

  lemma OtherCreations(s: State, step: Step, s': State, canonical: string, id: Id)
    requires step.Create? || step.StartFailed? || step.NotReady? || step.Inspect?
             || step.DiscardStop? || step.DiscardRemove?
    requires Creates(s, step, s', canonical) && IdsAreUsed(s) && id in s.boxes && Killed(s, step) != Some(id)
    ensures SameStatus(s.boxes, s'.boxes, id)
  {
    hide NameFree, DeploymentContainerName;
  }

  lemma OtherSwitches(s: State, step: Step, s': State, id: Id)
    requires step.Activate? || step.Stable? || step.FoundDead? || step.RollBack? || step.FoundOldDead?
             || step.UndoStop? || step.UndoRemove?
    requires Switches(s, step, s') && id in s.boxes && Killed(s, step) != Some(id)
    ensures SameStatus(s.boxes, s'.boxes, id)
  {
    hide IsRunning;
  }

  lemma OtherFinalisers(s: State, step: Step, s': State, canonical: string, id: Id)
    requires step.FinaliserStop? || step.FinaliserRemove? || step.FinaliserRename?
    requires Finalises(s, step, s', canonical) && id in s.boxes && Killed(s, step) != Some(id)
    ensures SameStatus(s.boxes, s'.boxes, id)
  {
    hide NameFree, Advance;
  }

  /** Containers that a step removes or stops, other than by a change of status on their own, are the ones it kills. */
  lemma OnlyKillsHarm(s: State, step: Step, s': State, canonical: string, id: Id)
    requires Next(s, step, s', canonical) && IdsAreUsed(s) && !step.StatusChange? && id in s.boxes
    requires Killed(s, step) != Some(id)
    ensures id in s'.boxes && s'.boxes[id].status == s.boxes[id].status
  {
    hide Lists, IsBest, Cleans, Creates, Switches, Finalises, IdsAreUsed, Killed;
    match step
    case CleanSkip | CleanStop(_) | CleanRemove(_) | CleanDone => OtherCleanups(s, step, s', canonical, id);
    case Create(_) | StartFailed | NotReady | Inspect | DiscardStop(_) | DiscardRemove(_) =>
      OtherCreations(s, step, s', canonical, id);
    case Activate | Stable | FoundDead(_) | RollBack | FoundOldDead(_) | UndoStop(_) | UndoRemove(_) =>
      OtherSwitches(s, step, s', id);
    case FinaliserStop(_, _) | FinaliserRemove(_, _) | FinaliserRename(_, _) =>
      OtherFinalisers(s, step, s', canonical, id);
    case _ =>
  }

  lemma OnlyBothDeadKillsTracked(s: State, step: Step, s': State, canonical: string)
    requires Inv(s, canonical) && Next(s, step, s', canonical)
    requires s.tracked.Some? && Killed(s, step) == Some(s.tracked.value.id)
    ensures s.phase.BothDead?
  {
    hide Lists, IsBest, NameFree, Holders, CleanupProgress, RecordedNames, NamedAs;
  }

  /**
   * Safety: in every interleaving no step stops or removes the container the tracking map names at that moment, unless
   * previous and new were both found dead.
   */
  lemma TrackedContainerIsSpared(states: seq<State>, steps: seq<Step>, canonical: string, i: nat)
    requires Run(states, steps, canonical) && i < |steps|
    requires states[i].tracked.Some? && Killed(states[i], steps[i]) == Some(states[i].tracked.value.id)
    ensures states[i].phase.BothDead?
  {
    InvariantHolds(states, steps, canonical, i);
    hide Inv, Killed;
    OnlyBothDeadKillsTracked(states[i], steps[i], states[i + 1], canonical);
  }

  /**
   * The same of the containers themselves: unless it changes its status on its own, the tracked container is there and
   * in the same status after every step, except when previous and new were both found dead.
   */
  lemma TrackedContainerStaysUp(states: seq<State>, steps: seq<Step>, canonical: string, i: nat)
    requires Run(states, steps, canonical) && i < |steps| && !steps[i].StatusChange? && !states[i].phase.BothDead?
    requires states[i].tracked.Some? && states[i].tracked.value.id in states[i].boxes
    ensures var id := states[i].tracked.value.id;
            id in states[i + 1].boxes && states[i + 1].boxes[id].status == states[i].boxes[id].status
  {
    InvariantHolds(states, steps, canonical, i);
    if Killed(states[i], steps[i]) == Some(states[i].tracked.value.id) {
      TrackedContainerIsSpared(states, steps, canonical, i);
    }
    assert Next(states[i], steps[i], states[i + 1], canonical);
    hide Next, Killed, CleanupProgress;
    OnlyKillsHarm(states[i], steps[i], states[i + 1], canonical, states[i].tracked.value.id);
  }

  /**
   * The temporary name a replacing deploy picks is held by no container when it creates one, provided its own listing
   * and removals succeeded.
   */
  lemma TemporaryNameIsFree(states: seq<State>, steps: seq<Step>, canonical: string, i: nat)
    requires Run(states, steps, canonical) && i < |states|
    requires states[i].phase.Prepared? && states[i].phase.existing.Some? && states[i].phase.clean
    ensures NameFree(states[i].boxes, DeploymentContainerName(canonical, states[i].phase.existing))
    ensures forall id :: id in states[i].boxes ==>
              states[i].boxes[id].name
              != if states[i].phase.existing.value.name == canonical + "-new" then canonical + "-next"
                 else canonical + "-new"
  {
    var s := states[i];
    InvariantHolds(states, steps, canonical, i);
    assert s.tracked == s.phase.existing;
    CanonicalIsNotTemp(canonical);
    var e := s.phase.existing.value;
    assert NamedAs(e, s.boxes, canonical);
    assert Holders(s.boxes, e, [], canonical);
  }

  /** Between a listing and the next creation, whoever holds a temporary name held it when listed. */
  lemma {:induction false} HoldersWereListed(states: seq<State>, steps: seq<Step>, canonical: string, k: nat, i: nat,
                                             id: Id)
    requires Run(states, steps, canonical) && k < i < |states| && steps[k].ListOrphans?
    requires forall m :: k < m < i ==> !steps[m].Create?
    requires id in states[i].boxes && IsTempName(states[i].boxes[id].name, canonical)
    ensures exists c :: c in steps[k].all && c.id == id && c.box.name == states[i].boxes[id].name
  {
    assert Next(states[i - 1], steps[i - 1], states[i - 1 + 1], canonical);
    if k + 1 < i {
      NamesOnlyBecomeCanonical(states[i - 1], steps[i - 1], states[i], canonical, id);
      HoldersWereListed(states, steps, canonical, k, i - 1, id);
    }
  }

  /**
   * Exactly when the temporary name is free, whatever removals failed: if and only if every listed holder of the name
   * has been removed or renamed by then.
   */
  lemma TemporaryNameIsFreeIff(states: seq<State>, steps: seq<Step>, canonical: string, k: nat, i: nat)
    requires Run(states, steps, canonical) && k < i < |states| && steps[k].ListOrphans?
    requires forall m :: k < m < i ==> !steps[m].Create?
    requires states[i].phase.Prepared? && states[i].phase.existing.Some?
    ensures var picked := DeploymentContainerName(canonical, states[i].phase.existing);
            NameFree(states[i].boxes, picked) <==>
              forall c :: c in steps[k].all && c.box.name == picked ==>
                c.id !in states[i].boxes || states[i].boxes[c.id].name != picked
  {
    var picked := DeploymentContainerName(canonical, states[i].phase.existing);
    if !NameFree(states[i].boxes, picked) {
      var id :| id in states[i].boxes && states[i].boxes[id].name == picked;
      HoldersWereListed(states, steps, canonical, k, i, id);
    }
  }

  /** A run in which the removal of a stale container fails, so that its name stays taken. */
  function FailedRemovalStep(canonical: string, i: nat): Step
    requires i < 7
  {
    var serving, stale := Serving(canonical), Stale(canonical);
    if i == 0 then Acquire else if i == 1 then ResolveFromRuntime([serving])
    else if i == 2 then ListOrphans([serving, stale]) else if i == 3 then CleanSkip
    else if i == 4 then CleanStop(true) else if i == 5 then CleanRemove(false) else CleanDone
  }

  function Serving(canonical: string): Listed { Listed(1, Box(canonical, Running, true)) }

  function Stale(canonical: string): Listed { Listed(2, Box(NewName(canonical), Down, true)) }

  function FailedRemovalState(canonical: string, i: nat): State
    requires i < 8
  {
    var serving, stale := Serving(canonical), Stale(canonical);
    var existing := Some(Tracked(1, canonical));
    var phase :=
      if i == 0 then Idle else if i == 1 then Locked else if i == 2 then Resolved(existing)
      else if i == 3 then Cleaning(existing, [serving, stale], ToStop, true)
      else if i == 4 then Cleaning(existing, [stale], ToStop, true)
      else if i == 5 then Cleaning(existing, [stale], ToRemove, true)
      else if i == 6 then Cleaning(existing, [], ToStop, false)
      else Prepared(existing, false);
    State(map[1 := serving.box, 2 := stale.box], if i < 2 then None else existing, phase, {}, {1, 2})
  }

  ghost predicate FailedRemovalLeads(canonical: string, i: nat)
    requires i < 7
  {
    var s, s' := FailedRemovalState(canonical, i), FailedRemovalState(canonical, i + 1);
    Next(s, FailedRemovalStep(canonical, i), s', canonical)
  }

  lemma FailedRemovalResolves(canonical: string, i: nat)
    requires i < 3
    ensures FailedRemovalLeads(canonical, i)
  {
    hide NewName, NextName;
    if i == 1 {
      var running := [Serving(canonical)];
      assert running[0] in running;
      assert IsBest(running, canonical, Some(running[0]));
    }
    if i == 2 {
      var all := [Serving(canonical), Stale(canonical)];
      assert all[0] in all && all[1] in all;
    }
  }

  lemma FailedRemovalCleans(canonical: string, i: nat)
    requires 3 <= i < 7
    ensures FailedRemovalLeads(canonical, i)
  {
    NamesDiffer(canonical);
    var s, s' := FailedRemovalState(canonical, i), FailedRemovalState(canonical, i + 1);
    if i == 3 || i == 5 { assert s.phase.work[1..] == s'.phase.work; }
    if i == 4 { assert Stopped(s.boxes, 2, true) == s.boxes; }
  }

  /** The proviso is needed: in this run a removal fails and the picked name is still held when the cleanup is over. */
  lemma FailedRemovalKeepsTheName(canonical: string) returns (states: seq<State>, steps: seq<Step>)
    ensures Run(states, steps, canonical) && |steps| == 7 && steps[5] == CleanRemove(false)
    ensures states[7].phase.Prepared? && states[7].phase.existing.Some?
    ensures !NameFree(states[7].boxes, DeploymentContainerName(canonical, states[7].phase.existing))
  {
    states := seq(8, i requires 0 <= i < 8 => FailedRemovalState(canonical, i));
    steps := seq(7, i requires 0 <= i < 7 => FailedRemovalStep(canonical, i));
    NamesDiffer(canonical);
    assert states[7].boxes[2].name == DeploymentContainerName(canonical, states[7].phase.existing);
    hide Next, DeploymentContainerName, NewName;
    forall i | 0 <= i < 7 ensures Next(states[i], steps[i], states[i + 1], canonical) {
      if i < 3 { FailedRemovalResolves(canonical, i); } else { FailedRemovalCleans(canonical, i); }
      assert FailedRemovalLeads(canonical, i);
      hide FailedRemovalState, FailedRemovalStep;
    }
    hide FailedRemovalStep;
  }

  lemma NamesDiffer(canonical: string)
    ensures canonical != NewName(canonical)
  {
    assert |canonical| != |NewName(canonical)|;
  }

  // ------------------------------------------------------------------ deploys that do not go through

  /** The step makes a replacement final, loses both containers, or restarts the daemon. */
  predicate Decides(step: Step) {
    step.Stable? || step.FoundOldDead? || step.DaemonRestart?
  }

  /** The deploy in progress, if any, would put `t` back or leave it tracked. */
  predicate Returns(s: State, t: Tracked) {
    match s.phase
    case Idle | Locked => s.tracked == Some(t)
    case Resolved(existing) => existing == Some(t)
    case Cleaning(existing, _, _, _) => existing == Some(t)
    case Prepared(existing, _) => existing == Some(t)
    case Starting(existing, _) => existing == Some(t)
    case Discarding(existing, _, _) => existing == Some(t)
    case Started(existing, _) => existing == Some(t)
    case Stabilising(previous, _) => previous == t
    case Suspect(previous, _) => previous == t
    case RollingBack(previous, _, _) => previous == t
    case BothDead(_, _, _) => false
  }

  lemma SwitchReturns(s: State, step: Step, s': State, t: Tracked)
    requires step.Activate? || step.Stable? || step.FoundDead? || step.RollBack? || step.FoundOldDead?
             || step.UndoStop? || step.UndoRemove?
    requires PhaseAgrees(s) && Switches(s, step, s') && Returns(s, t) && !Decides(step)
    ensures Returns(s', t)
  {
    hide Stopped, Removed, IsRunning;
  }

  lemma CreationReturns(s: State, step: Step, s': State, canonical: string, t: Tracked)
    requires step.Create? || step.StartFailed? || step.NotReady? || step.Inspect?
             || step.DiscardStop? || step.DiscardRemove?
    requires PhaseAgrees(s) && Creates(s, step, s', canonical) && Returns(s, t)
    ensures Returns(s', t)
  {
    hide Stopped, Removed, NameFree, DeploymentContainerName;
  }

  lemma CleanupReturns(s: State, step: Step, s': State, canonical: string, t: Tracked)
    requires step.CleanSkip? || step.CleanStop? || step.CleanRemove? || step.CleanDone?
    requires Cleans(s, step, s', canonical) && Returns(s, t)
    ensures Returns(s', t)
  {
    hide Stopped, Removed, IsOrphan;
  }

  lemma StepReturns(s: State, step: Step, s': State, canonical: string, t: Tracked)
    requires PhaseAgrees(s) && Next(s, step, s', canonical) && Returns(s, t) && !Decides(step)
    ensures Returns(s', t)
  {
    hide Lists, IsBest, NameFree, Stopped, Removed, Advance, Cleans, Creates, Switches;
    match step
    case CleanSkip | CleanStop(_) | CleanRemove(_) | CleanDone => CleanupReturns(s, step, s', canonical, t);
    case Create(_) | StartFailed | NotReady | Inspect | DiscardStop(_) | DiscardRemove(_) =>
      CreationReturns(s, step, s', canonical, t);
    case Activate | Stable | FoundDead(_) | RollBack | FoundOldDead(_) | UndoStop(_) | UndoRemove(_) =>
      SwitchReturns(s, step, s', t);
    case _ =>
  }

  /**
   * Deploys that fail before activation or roll back leave the map naming the previous container: from any moment at
   * which it is tracked, or has been resolved by a deploy, the map gives it up only through a deploy that became stable
   * or found both containers dead, or through a restart of the daemon.
   */
  lemma {:induction false} UnsuccessfulDeploysKeepTheOld(states: seq<State>, steps: seq<Step>, canonical: string,
                                                         i: nat, j: nat, t: Tracked)
    requires Run(states, steps, canonical) && i <= j < |states|
    requires Returns(states[i], t) && forall k :: i <= k < j ==> !Decides(steps[k])
    ensures Returns(states[j], t)
    ensures states[j].phase.Idle? || states[j].phase.RollingBack? ==> states[j].tracked == Some(t)
  {
    if i < j {
      UnsuccessfulDeploysKeepTheOld(states, steps, canonical, i, j - 1, t);
      InvariantHolds(states, steps, canonical, j - 1);
      assert Next(states[j - 1], steps[j - 1], states[j - 1 + 1], canonical);
      hide Next, Decides, Inv, Returns;
      StepReturns(states[j - 1], steps[j - 1], states[j], canonical, t);
    }
    InvariantHolds(states, steps, canonical, j);
    if states[j].phase.Idle? || states[j].phase.RollingBack? { ReturnsMeansTracked(states[j], canonical, t); }
  }

  lemma ReturnsMeansTracked(s: State, canonical: string, t: Tracked)
    requires Inv(s, canonical) && Returns(s, t) && (s.phase.Idle? || s.phase.RollingBack?)
    ensures s.tracked == Some(t)
  {
  }

  /**
   * In terms of the map alone: what is tracked between deploys, or once a deploy has resolved it, is still tracked when
   * a later deploy is over or rolls back, if no deploy in between became stable or lost both containers and the daemon
   * was not restarted.
   */
  lemma FailedDeploysKeepTheOld(states: seq<State>, steps: seq<Step>, canonical: string, i: nat, j: nat)
    requires Run(states, steps, canonical) && i <= j < |states|
    requires states[i].tracked.Some? && (states[i].phase.Idle? || states[i].phase.Resolved?)
    requires forall k :: i <= k < j ==> steps[k] != Stable && !steps[k].FoundOldDead? && steps[k] != DaemonRestart
    requires states[j].phase.Idle? || states[j].phase.RollingBack?
    ensures states[j].tracked == states[i].tracked
  {
    InvariantHolds(states, steps, canonical, i);
    assert Returns(states[i], states[i].tracked.value) by { hide CleanupProgress; }
    hide Inv, Next, Returns;
    UnsuccessfulDeploysKeepTheOld(states, steps, canonical, i, j, states[i].tracked.value);
  }

  /** In the one exception, the map is left naming a container that has been removed. */
  lemma BothDeadLeavesARemovedContainer(states: seq<State>, steps: seq<Step>, canonical: string, i: nat)
    requires Run(states, steps, canonical) && i < |steps|
    requires states[i].phase.BothDead? && steps[i] == UndoRemove(true)
    ensures states[i + 1].phase.Idle? && states[i + 1].tracked == Some(states[i].phase.successor)
    ensures states[i].phase.successor.id !in states[i + 1].boxes
  {
    InvariantHolds(states, steps, canonical, i);
    assert Next(states[i], steps[i], states[i + 1], canonical);
  }
}
