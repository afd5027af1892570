/**
 * One deploy and one finaliser as the code runs them (container/service.go): every call to the runtime and every change
 * of the tracking map is logged as a step of the protocol, so what is proved of all runs holds of the code's own.
 */
module DeployService {
  import opened Options
  import opened Deploy

  /** Whether the runtime carried out a stop and a removal. */
  datatype Answer = Answer(stopped: bool, removed: bool)

  /** What happens while a deploy runs: what the runtime answers, and what becomes of the new container. */
  datatype Calls = Calls(
    running: Option<seq<Listed>>,     // the running containers, if the slow path can list them
    all: Option<seq<Listed>>,         // all containers, if the cleanup can list them
    orphans: Listed -> Answer,
    proceeds: bool,                   // no error before creation, and the deploy is not redundant
    created: Option<Id>,
    starts: bool,
    ready: bool,                      // the readiness check and the inspection succeed
    failed: Answer,                   // discarding the new container
    status: Status,                   // of the new container when it is checked
    interrupted: bool,                // the context ends before the check
    newQueryFails: bool,
    oldQueryFails: bool)

  datatype Outcome =
    | Failed
    | Deployed(container: Tracked)
    | RolledBack(container: Tracked)
    | AllDead(container: Tracked)

  /**
   * After a finaliser: the old container is gone or, when its removal fails, stopped; the new one has the canonical
   * name unless the call fails or another container holds it; all others are as they were.
   */
  ghost predicate Finalised(before: map<Id, Box>, after: map<Id, Box>, f: Finaliser, canonical: string, answer: Answer,
                            renamed: bool) {
    && after.Keys == before.Keys - (if answer.removed then {f.previous} else {})
    && forall id :: id in after ==>
         after[id] == if id == f.previous && answer.stopped then before[id].(status := Down)
                      else if id == f.successor && renamed
                              && (forall other :: other in after && other != id ==> before[other].name != canonical)
                      then before[id].(name := canonical)
                      else before[id]
  }

  lemma TakenDown(before: map<Id, Box>, id: Id, answer: Answer)
    ensures var after := Removed(Stopped(before, id, answer.stopped), id, answer.removed);
            && after.Keys == before.Keys - (if answer.removed then {id} else {})
            && forall other :: other in after ==>
                 after[other] == if other == id && answer.stopped then before[id].(status := Down) else before[other]
  {
  }

  lemma NameIsFreeBeside(boxes: map<Id, Box>, id: Id, name: string)
    ensures NameFree(boxes - {id}, name) <==>
              forall other :: other in boxes && other != id ==> boxes[other].name != name
  {
    var others := boxes - {id};
    assert forall other :: other in others <==> other in boxes && other != id;
  }

  lemma FinalisedMeans(before: map<Id, Box>, f: Finaliser, canonical: string, answer: Answer, renamed: bool)
    requires f.previous != f.successor
    ensures var removed := Removed(Stopped(before, f.previous, answer.stopped), f.previous, answer.removed);
            var named := renamed && f.successor in removed && NameFree(removed - {f.successor}, canonical);
            Finalised(before,
                      if named then removed[f.successor := removed[f.successor].(name := canonical)] else removed,
                      f, canonical, answer, renamed)
  {
    hide Removed, Stopped, NameFree;
    var removed := Removed(Stopped(before, f.previous, answer.stopped), f.previous, answer.removed);
    TakenDown(before, f.previous, answer);
    NameIsFreeBeside(removed, f.successor, canonical);
    if f.successor in removed {
      assert removed[f.successor := removed[f.successor].(name := canonical)].Keys == removed.Keys;
    }
  }

  /** The ids the cleanup removes from what it listed. */
  function RemovedOrphans(all: seq<Listed>, canonical: string, existing: Option<Tracked>,
                          orphans: Listed -> Answer): set<Id> {
    set c | c in all && IsOrphan(c, canonical, existing) && orphans(c).removed :: c.id
  }

  /**
   * What the orphan cleanup is after: a container other than the existing one, under one of the domain's three names,
   * that is down or, when there is an existing container, holds a temporary name.
   */
  ghost predicate Leftover(id: Id, box: Box, canonical: string, existing: Option<Tracked>) {
    && (box.name == canonical || box.name == canonical + "-new" || box.name == canonical + "-next")
    && (existing.Some? ==> existing.value.id != id)
    && (box.status == Down || (existing.Some? && box.name != canonical))
  }

  /** After a cleanup: the leftovers are gone whose removal succeeded, and everything else is as it was. */
  ghost predicate OnlyLeftoversGo(before: map<Id, Box>, after: map<Id, Box>, canonical: string,
                                  existing: Option<Tracked>, orphans: Listed -> Answer) {
    && (forall id :: id in after ==> id in before && after[id].name == before[id].name)
    && forall id :: id in before ==>
         if Leftover(id, before[id], canonical, existing)
         then id !in after <==> orphans(Listed(id, before[id])).removed
         else id in after && after[id] == before[id]
  }

  /** Whatever is not a leftover is still there as it was. */
  ghost predicate NoOthersHarmed(before: map<Id, Box>, after: map<Id, Box>, canonical: string,
                                 existing: Option<Tracked>) {
    forall id :: id in before && !Leftover(id, before[id], canonical, existing) ==>
      id in after && after[id] == before[id]
  }

  /** Every container under the canonical name is down. */
  ghost predicate OnlyLeftoversAreCanonical(boxes: map<Id, Box>, canonical: string) {
    forall id :: id in boxes && boxes[id].name == canonical ==> boxes[id].status == Down
  }

  /** The name of a new container: canonical, or temporary and not the name of the container it replaces. */
  ghost predicate FitsBeside(name: string, canonical: string, existing: Option<Tracked>) {
    if existing.None? then name == canonical
    else (name == canonical + "-new" || name == canonical + "-next") && name != existing.value.name
  }

  /** No container holds the name a deploy will ask for. */
  ghost predicate NewNameIsFree(boxes: map<Id, Box>, canonical: string, existing: Option<Tracked>) {
    forall id :: id in boxes ==>
      boxes[id].name
      != if existing.None? then canonical
         else if existing.value.name == canonical + "-new" then canonical + "-next" else canonical + "-new"
  }

  lemma NewNameFits(boxes: map<Id, Box>, canonical: string, existing: Option<Tracked>)
    ensures FitsBeside(DeploymentContainerName(canonical, existing), canonical, existing)
    ensures NameFree(boxes, DeploymentContainerName(canonical, existing)) <==>
              NewNameIsFree(boxes, canonical, existing)
  {
    CanonicalIsNotTemp(canonical);
  }

  /** Every container is still there as it was. */
  ghost predicate AllStay(before: map<Id, Box>, after: map<Id, Box>) {
    forall id :: id in before ==> id in after && after[id] == before[id]
  }

  /** What the cleanup has done once the containers of `done` are dealt with. */
  ghost predicate Cleaned(before: map<Id, Box>, after: map<Id, Box>, done: seq<Listed>, canonical: string,
                          existing: Option<Tracked>, orphans: Listed -> Answer, clean: bool)
  {
    && after.Keys == before.Keys - RemovedOrphans(done, canonical, existing, orphans)
    && (forall id :: id in after ==> after[id].name == before[id].name)
    && (forall id :: id in after && (forall c :: c in done && c.id == id ==> !IsOrphan(c, canonical, existing)) ==>
          after[id] == before[id])
    && (clean <==> forall c :: c in done && IsOrphan(c, canonical, existing) ==> orphans(c).removed)
  }

  lemma NothingCleaned(before: map<Id, Box>, canonical: string, existing: Option<Tracked>, orphans: Listed -> Answer)
    ensures Cleaned(before, before, [], canonical, existing, orphans, true)
  {
    hide IsOrphan;
  }

  lemma OneMoreCleaned(before: map<Id, Box>, between: map<Id, Box>, after: map<Id, Box>, done: seq<Listed>, c: Listed,
                       canonical: string, existing: Option<Tracked>, orphans: Listed -> Answer, clean: bool)
    requires Cleaned(before, between, done, canonical, existing, orphans, clean)
    requires after == if !IsOrphan(c, canonical, existing) then between
                      else Removed(Stopped(between, c.id, orphans(c).stopped), c.id, orphans(c).removed)
    ensures Cleaned(before, after, done + [c], canonical, existing, orphans,
                    clean && (IsOrphan(c, canonical, existing) ==> orphans(c).removed))
  {
    hide IsOrphan;
    OneMoreRemoved(done, c, canonical, existing, orphans);
    hide RemovedOrphans;
    assert forall x :: x in done + [c] <==> x in done || x == c;
  }

  lemma OneMoreRemoved(done: seq<Listed>, c: Listed, canonical: string, existing: Option<Tracked>,
                       orphans: Listed -> Answer)
    ensures RemovedOrphans(done + [c], canonical, existing, orphans)
         == RemovedOrphans(done, canonical, existing, orphans)
            + if IsOrphan(c, canonical, existing) && orphans(c).removed then {c.id} else {}
  {
    hide IsOrphan;
  }

  /** No leftover was listed whose removal failed. */
  ghost predicate LeftoversRemoved(all: seq<Listed>, canonical: string, existing: Option<Tracked>,
                                   orphans: Listed -> Answer) {
    forall c :: c in all && Leftover(c.id, c.box, canonical, existing) ==> orphans(c).removed
  }

  lemma OrphanIsLeftover(c: Listed, canonical: string, existing: Option<Tracked>)
    ensures IsOrphan(c, canonical, existing) <==> Leftover(c.id, c.box, canonical, existing)
  {
  }

  /** The account of a finished cleanup, container by container. */
  lemma CleanedMeans(before: map<Id, Box>, after: map<Id, Box>, all: seq<Listed>, canonical: string,
                     existing: Option<Tracked>, orphans: Listed -> Answer, clean: bool)
    requires Lists(all, before, false) && Cleaned(before, after, all, canonical, existing, orphans, clean)
    ensures OnlyLeftoversGo(before, after, canonical, existing, orphans)
    ensures clean <==> LeftoversRemoved(all, canonical, existing, orphans)
  {
    hide IsOrphan, Leftover;
    forall c ensures IsOrphan(c, canonical, existing) <==> Leftover(c.id, c.box, canonical, existing) {
      OrphanIsLeftover(c, canonical, existing);
    }
    forall id | id in before
      ensures Listed(id, before[id]) in all && forall c :: c in all && c.id == id ==> c == Listed(id, before[id])
    {
    }
  }

  /** What a cleanup is good for: nothing else is harmed, and a first deploy over leftovers finds its name free. */
  lemma CleanupServes(before: map<Id, Box>, after: map<Id, Box>, canonical: string, existing: Option<Tracked>,
                      calls: Calls)
    requires calls.all.Some? ==>
               Lists(calls.all.value, before, false)
               && OnlyLeftoversGo(before, after, canonical, existing, calls.orphans)
    requires calls.all.None? ==> after == before
    ensures NoOthersHarmed(before, after, canonical, existing)
    ensures existing.None? && ReachesTheSwitch(calls) && OnlyLeftoversAreCanonical(before, canonical) ==>
              NewNameIsFree(after, canonical, existing)
  {
    if existing.None? && ReachesTheSwitch(calls) && OnlyLeftoversAreCanonical(before, canonical) {
      forall id | id in after ensures after[id].name != canonical {
        assert Listed(id, before[id]) in calls.all.value;
      }
    }
  }

  lemma NothingElseHarmed(before: map<Id, Box>, between: map<Id, Box>, after: map<Id, Box>, canonical: string,
                          existing: Option<Tracked>)
    requires NoOthersHarmed(before, between, canonical, existing) && AllStay(between, after)
    ensures NoOthersHarmed(before, after, canonical, existing)
  {
    hide Leftover;
  }

  lemma OldOnesStay(before: map<Id, Box>, prepared: map<Id, Box>, settled: map<Id, Box>, after: map<Id, Box>, id: Id,
                    canonical: string, existing: Option<Tracked>)
    requires NoOthersHarmed(before, prepared, canonical, existing) && id !in before
    requires forall other :: other in prepared && other != id ==> other in settled && settled[other] == prepared[other]
    requires OthersStay(settled, after, id)
    ensures NoOthersHarmed(before, after, canonical, existing)
  {
    hide Leftover;
  }

  ghost predicate OthersStay(before: map<Id, Box>, after: map<Id, Box>, id: Id) {
    forall other :: other in before && other != id ==> other in after && after[other] == before[other]
  }

  lemma RemovalIsApart(before: map<Id, Box>, id: Id, stopped: bool, removed: bool)
    ensures OthersStay(before, before, id)
    ensures OthersStay(before, Removed(Stopped(before, id, stopped), id, removed), id)
    ensures removed ==> id !in Removed(Stopped(before, id, stopped), id, removed)
  {
  }

  lemma NothingMoves(boxes: map<Id, Box>)
    ensures AllStay(boxes, boxes)
  {
  }

  lemma NewContainerIsApart(before: map<Id, Box>, id: Id, box: Box, stopped: bool, removed: bool)
    requires id !in before
    ensures var created := before[id := box];
            && AllStay(before, created) && AllStay(before, Removed(created, id, removed))
            && AllStay(before, Removed(Stopped(created, id, stopped), id, removed))
  {
  }

  predicate Runs(boxes: map<Id, Box>, id: Id) {
    id in boxes && boxes[id].status == Running
  }

  /** Nothing goes wrong before the switch: the cleanup removes what it wants to, and the new container comes up. */
  ghost predicate ReachesTheSwitch(calls: Calls) {
    && calls.proceeds && calls.created.Some? && calls.starts && calls.ready
    && calls.all.Some? && forall c :: c in calls.all.value ==> calls.orphans(c).removed
  }

  /** What the slow path finds among the running containers it could list. */
  ghost predicate FoundBy(running: Option<seq<Listed>>, canonical: string, existing: Option<Tracked>) {
    match running
    case None => existing.None?
    case Some(list) =>
      exists best :: IsBest(list, canonical, best)
        && existing == if best.None? then None else Some(Tracked(best.value.id, best.value.box.name))
  }

  class Deployer {
    const canonical: string
    var boxes: map<Id, Box>
    var tracked: Option<Tracked>
    var finalisers: set<Finaliser>
    var used: set<Id>
    ghost var phase: Phase
    ghost var past: seq<State>
    ghost var steps: seq<Step>

    ghost function Value(): State
      reads this
    {
      State(boxes, tracked, phase, finalisers, used)
    }

    /** The log is a run of the protocol that ends in the present state. */
    ghost predicate Logged()
      reads this
    {
      Run(past, steps, canonical) && past[|past| - 1] == Value()
    }

    twostate predicate Grew()
      reads this
    {
      old(past) <= past && old(steps) <= steps
    }

    constructor (canonical: string, boxes: map<Id, Box>, used: set<Id>)
      requires boxes.Keys <= used
      ensures Logged() && phase.Idle? && tracked.None? && this.boxes == boxes && this.canonical == canonical
    {
      this.canonical, this.boxes, this.used := canonical, boxes, used;
      tracked, finalisers, phase := None, {}, Idle;
      past, steps := [State(boxes, None, Idle, {}, used)], [];
    }

    ghost method Log(step: Step)
      requires Run(past, steps, canonical) && Next(past[|past| - 1], step, Value(), canonical)
      modifies this`past, this`steps
      ensures Logged() && past == old(past) + [Value()] && steps == old(steps) + [step]
    {
      hide Next, Init;
      past, steps := past + [Value()], steps + [step];
    }

    /** `resolveExistingContainer`. */
    method ResolveExistingContainer(running: Option<seq<Listed>>) returns (existing: Option<Tracked>)
      requires Logged() && phase.Locked? && (running.Some? ==> Lists(running.value, boxes, true))
      modifies this`tracked, this`phase, this`past, this`steps
      ensures Logged() && Grew() && phase == Resolved(existing) && tracked == existing
      ensures if old(tracked).Some? then existing == old(tracked) else FoundBy(running, canonical, existing)
    {
      hide Run, Lists, IsBest, Prepares, Cleans, Creates, Switches, Finalises;
      if tracked.Some? {
        phase := Resolved(tracked);
        Log(ResolveTracked);
        return tracked;
      }
      if running.None? {
        phase := Resolved(None);
        Log(ResolveFailed);
        return None;
      }
      var best := FindExisting(running.value, canonical);
      if best.Some? { tracked := Some(Tracked(best.value.id, best.value.box.name)); }
      phase := Resolved(tracked);
      Log(ResolveFromRuntime(running.value));
      return tracked;
    }

    /** The stop and the removal of one orphan. */
    method RemoveOrphan(c: Listed, answer: Answer)
      requires Logged() && phase.Cleaning? && phase.work != [] && phase.work[0] == c && phase.stage == ToStop
      requires IsOrphan(c, canonical, phase.existing)
      modifies this`boxes, this`phase, this`past, this`steps
      ensures Logged() && Grew()
      ensures phase == Cleaning(old(phase).existing, old(phase).work[1..], ToStop, old(phase).clean && answer.removed)
      ensures boxes == Removed(Stopped(old(boxes), c.id, answer.stopped), c.id, answer.removed)
    {
      hide Run, IsOrphan, Stopped, Removed, Prepares, Resolves, Creates, Switches, Finalises;
      ghost var p := phase;
      boxes := Stopped(boxes, c.id, answer.stopped);
      phase := Cleaning(p.existing, p.work, ToRemove, p.clean);
      Log(CleanStop(answer.stopped));
      boxes := Removed(boxes, c.id, answer.removed);
      phase := Cleaning(p.existing, p.work[1..], ToStop, p.clean && answer.removed);
      Log(CleanRemove(answer.removed));
    }

    ghost method SkipContainer(c: Listed)
      requires Logged() && phase.Cleaning? && phase.work != [] && phase.work[0] == c && phase.stage == ToStop
      requires !IsOrphan(c, canonical, phase.existing)
      modifies this`phase, this`past, this`steps
      ensures Logged() && Grew()
      ensures phase == Cleaning(old(phase).existing, old(phase).work[1..], ToStop, old(phase).clean)
    {
      hide Run, IsOrphan, Prepares, Resolves, Creates, Switches, Finalises;
      phase := Cleaning(phase.existing, phase.work[1..], ToStop, phase.clean);
      Log(CleanSkip);
    }

    ghost method BeginCleanup(existing: Option<Tracked>, list: seq<Listed>)
      requires Logged() && phase == Resolved(existing) && Lists(list, boxes, false)
      modifies this`phase, this`past, this`steps
      ensures Logged() && Grew() && phase == Cleaning(existing, list, ToStop, true)
    {
      hide Run, Lists, Resolves, Cleans, Creates, Switches, Finalises;
      phase := Cleaning(existing, list, ToStop, true);
      Log(ListOrphans(list));
    }

    ghost method EndCleanup(existing: Option<Tracked>, clean: bool)
      requires Logged() && (phase == Cleaning(existing, [], ToStop, clean) || (phase == Resolved(existing) && !clean))
      modifies this`phase, this`past, this`steps
      ensures Logged() && Grew() && phase == Prepared(existing, clean)
    {
      hide Run, Resolves, Creates, Switches, Finalises;
      ghost var step := if phase.Cleaning? then CleanDone else ListFailed;
      phase := Prepared(existing, clean);
      Log(step);
    }

    /** One listed container, and what that adds to the account. */
    method CleanOne(ghost before: map<Id, Box>, ghost done: seq<Listed>, c: Listed, existing: Option<Tracked>,
                    orphans: Listed -> Answer)
      requires Logged() && phase.Cleaning? && phase.existing == existing && phase.stage == ToStop
      requires phase.work != [] && phase.work[0] == c
      requires Cleaned(before, boxes, done, canonical, existing, orphans, phase.clean)
      modifies this`boxes, this`phase, this`past, this`steps
      ensures Logged() && Grew() && phase.Cleaning? && phase.stage == ToStop
      ensures phase.existing == existing && phase.work == old(phase).work[1..]
      ensures Cleaned(before, boxes, done + [c], canonical, existing, orphans, phase.clean)
    {
      hide Run, IsOrphan, Next, Cleaned, Removed, Stopped;
      ghost var between, clean := boxes, phase.clean;
      if IsOrphan(c, canonical, existing) {
        RemoveOrphan(c, orphans(c));
      } else {
        SkipContainer(c);
      }
      OneMoreCleaned(before, between, boxes, done, c, canonical, existing, orphans, clean);
    }

    /**
     * `cleanupOrphanedContainers`: exactly the orphans whose removal succeeds are gone, never the existing container.
     */
    method CleanupOrphanedContainers(existing: Option<Tracked>, all: Option<seq<Listed>>, orphans: Listed -> Answer)
      requires Logged() && phase == Resolved(existing) && (all.Some? ==> Lists(all.value, boxes, false))
      modifies this`boxes, this`phase, this`past, this`steps
      ensures Logged() && Grew() && phase.Prepared? && phase.existing == existing
      ensures all.Some? ==> OnlyLeftoversGo(old(boxes), boxes, canonical, existing, orphans)
      ensures all.Some? ==> (phase.clean <==> LeftoversRemoved(all.value, canonical, existing, orphans))
      ensures all.None? ==> boxes == old(boxes) && !phase.clean
    {
      hide Logged, Run, Next, Cleaned, Lists, OnlyLeftoversGo, LeftoversRemoved;
      if all.None? {
        EndCleanup(existing, false);
        return;
      }
      NothingCleaned(boxes, canonical, existing, orphans);
      BeginCleanup(existing, all.value);
      CleanAll(old(boxes), all.value, existing, orphans);
      CleanedMeans(old(boxes), boxes, all.value, canonical, existing, orphans, phase.clean);
      EndCleanup(existing, phase.clean);
    }

    /** The loop over the listed containers. */
    method CleanAll(ghost before: map<Id, Box>, list: seq<Listed>, existing: Option<Tracked>, orphans: Listed -> Answer)
      requires Logged() && phase == Cleaning(existing, list, ToStop, true)
      requires Cleaned(before, boxes, [], canonical, existing, orphans, true)
      modifies this`boxes, this`phase, this`past, this`steps
      ensures Logged() && Grew() && phase.Cleaning? && phase == Cleaning(existing, [], ToStop, phase.clean)
      ensures Cleaned(before, boxes, list, canonical, existing, orphans, phase.clean)
    {
      hide Logged, Run, Next, Cleaned;
      assert list[..0] == [] && list[0..] == list;
      for i := 0 to |list|
        invariant Logged() && Grew() && phase.Cleaning? && phase.stage == ToStop
        invariant phase.existing == existing && phase.work == list[i..]
        invariant Cleaned(before, boxes, list[..i], canonical, existing, orphans, phase.clean)
      {
        assert list[..i + 1] == list[..i] + [list[i]];
        assert list[i..][1..] == list[i + 1..];
        CleanOne(before, list[..i], list[i], existing, orphans);
      }
      assert list[..|list|] == list;
    }

    /** The deploy is over before anything was created. */
    ghost method GiveUpDeploy()
      requires Logged() && phase.Prepared?
      modifies this`phase, this`past, this`steps
      ensures Logged() && Grew() && phase.Idle?
    {
      hide Run;
      phase := Idle;
      Log(GiveUp);
    }

    method CreateContainer(existing: Option<Tracked>, id: Id, name: string)
      requires Logged() && phase.Prepared? && phase.existing == existing && id !in used && NameFree(boxes, name)
      requires name == DeploymentContainerName(canonical, existing)
      modifies this`boxes, this`used, this`phase, this`past, this`steps
      ensures Logged() && Grew() && phase == Starting(existing, id)
      ensures boxes == old(boxes)[id := Box(name, Down, true)]
    {
      hide Run, NameFree, DeploymentContainerName, Resolves, Cleans, Switches, Finalises;
      boxes, used, phase := boxes[id := Box(name, Down, true)], used + {id}, Starting(existing, id);
      Log(Create(id));
    }

    method RemoveFailed(ghost existing: Option<Tracked>, id: Id, removed: bool)
      requires Logged() && phase == Discarding(existing, id, ToRemove)
      modifies this`boxes, this`phase, this`past, this`steps
      ensures Logged() && Grew() && phase.Idle? && boxes == Removed(old(boxes), id, removed)
    {
      hide Run, Removed, Resolves, Cleans, Switches, Finalises;
      boxes, phase := Removed(boxes, id, removed), Idle;
      Log(DiscardRemove(removed));
    }

    method StopFailed(ghost existing: Option<Tracked>, id: Id, stopped: bool)
      requires Logged() && phase == Discarding(existing, id, ToStop)
      modifies this`boxes, this`phase, this`past, this`steps
      ensures Logged() && Grew() && phase == Discarding(existing, id, ToRemove)
      ensures boxes == Stopped(old(boxes), id, stopped)
    {
      hide Run, Stopped, Resolves, Cleans, Switches, Finalises;
      boxes, phase := Stopped(boxes, id, stopped), Discarding(existing, id, ToRemove);
      Log(DiscardStop(stopped));
    }

    ghost method Observe(existing: Option<Tracked>, id: Id, step: Step, next: Phase)
      requires Logged() && phase == Starting(existing, id) && id in boxes
      requires || (step == StartFailed && next == Discarding(existing, id, ToRemove))
               || (step == NotReady && next == Discarding(existing, id, ToStop))
               || (step == Inspect && next == Started(existing, Tracked(id, boxes[id].name)))
      modifies this`phase, this`past, this`steps
      ensures Logged() && Grew() && phase == next
    {
      hide Run, Resolves, Cleans, Switches, Finalises;
      phase := next;
      Log(step);
    }

    /** A container that did not start is only removed. */
    method RemoveUnstarted(ghost existing: Option<Tracked>, id: Id, removed: bool)
      requires Logged() && phase == Starting(existing, id) && id in boxes
      modifies this`boxes, this`phase, this`past, this`steps
      ensures Logged() && Grew() && phase.Idle? && boxes == Removed(old(boxes), id, removed)
    {
      hide Logged, Run, Next, Removed;
      Observe(existing, id, StartFailed, Discarding(existing, id, ToRemove));
      RemoveFailed(existing, id, removed);
    }

    /** `cleanupFailedContainer` after a failed readiness check or inspection. */
    method CleanupFailedContainer(ghost existing: Option<Tracked>, id: Id, answer: Answer)
      requires Logged() && phase == Starting(existing, id) && id in boxes
      modifies this`boxes, this`phase, this`past, this`steps
      ensures Logged() && Grew() && phase.Idle?
      ensures boxes == Removed(Stopped(old(boxes), id, answer.stopped), id, answer.removed)
    {
      hide Logged, Run, Next, Removed, Stopped;
      Observe(existing, id, NotReady, Discarding(existing, id, ToStop));
      StopFailed(existing, id, answer.stopped);
      RemoveFailed(existing, id, answer.removed);
    }

    lemma StoredIsUsed()
      requires Logged()
      ensures boxes.Keys <= used
    {
      InvariantHolds(past, steps, canonical, |past| - 1);
    }

    /**
     * `createStartedContainer`; on failure the new container is discarded and the deploy is over. No other container is
     * touched.
     */
    method CreateStartedContainer(existing: Option<Tracked>, calls: Calls) returns (successor: Option<Tracked>)
      requires Logged() && phase.Prepared? && phase.existing == existing
      requires calls.created.Some? ==> calls.created.value !in used
      modifies this`boxes, this`used, this`phase, this`past, this`steps
      ensures Logged() && Grew()
      ensures successor.None? ==> phase.Idle?
      ensures successor.Some? ==>
                && phase == Started(existing, successor.value) && calls.created == Some(successor.value.id)
                && FitsBeside(successor.value.name, canonical, existing)
                && boxes == old(boxes)[successor.value.id := Box(successor.value.name, Down, true)]
      ensures successor.Some? <==>
                calls.proceeds && calls.created.Some? && calls.starts && calls.ready
                && NewNameIsFree(old(boxes), canonical, existing)
      ensures AllStay(old(boxes), boxes)
    {
      hide Logged, Run, Next, NameFree, DeploymentContainerName, NewNameIsFree, FitsBeside, AllStay, Removed, Stopped,
          Lists, ReachesTheSwitch;
      StoredIsUsed();
      NewNameFits(boxes, canonical, existing);
      if calls.created.Some? {
        NewContainerIsApart(boxes, calls.created.value, Box(DeploymentContainerName(canonical, existing), Down, true),
                            calls.failed.stopped, calls.failed.removed);
      }
      NothingMoves(boxes);
      var name := DeploymentContainerName(canonical, existing);
      if !calls.proceeds || calls.created.None? || !NameFree(boxes, name) {
        GiveUpDeploy();
        return None;
      }
      var id := calls.created.value;
      CreateContainer(existing, id, name);
      if !calls.starts {
        RemoveUnstarted(existing, id, calls.failed.removed);
        return None;
      }
      if !calls.ready {
        CleanupFailedContainer(existing, id, calls.failed);
        return None;
      }
      successor := Some(Tracked(id, boxes[id].name));
      Observe(existing, id, Inspect, Started(existing, successor.value));
    }

    /** `activateDeployedContainer`. */
    method ActivateDeployedContainer(existing: Option<Tracked>, successor: Tracked)
      requires Logged() && phase == Started(existing, successor)
      modifies this`tracked, this`phase, this`past, this`steps
      ensures Logged() && Grew() && tracked == Some(successor)
      ensures phase == if existing.Some? then Stabilising(existing.value, successor) else Idle
    {
      hide Run, Resolves, Cleans, Creates, Finalises;
      tracked := Some(successor);
      phase := if existing.Some? then Stabilising(existing.value, successor) else Idle;
      Log(Activate);
    }

    /** The new container's status when it is checked. */
    method Settle(id: Id, status: Status)
      requires Logged()
      modifies this`boxes, this`past, this`steps
      ensures Logged() && Grew()
      ensures boxes == if id in old(boxes) then old(boxes)[id := old(boxes)[id].(status := status)] else old(boxes)
    {
      hide Run, Resolves, Cleans, Creates, Switches, Finalises;
      if id in boxes {
        boxes := boxes[id := boxes[id].(status := status)];
        Log(StatusChange(id, status));
      }
    }

    ghost method Suspect(previous: Tracked, successor: Tracked, queryFailed: bool)
      requires Logged() && phase == Stabilising(previous, successor) && (queryFailed || !Runs(boxes, successor.id))
      modifies this`phase, this`past, this`steps
      ensures Logged() && Grew() && phase == Phase.Suspect(previous, successor)
    {
      hide Run, Resolves, Cleans, Creates, Finalises;
      phase := Phase.Suspect(previous, successor);
      Log(FoundDead(queryFailed));
    }

    /** The new container was found dead: the old one is asked for, and put back when it runs. */
    method AskForPrevious(previous: Tracked, ghost successor: Tracked, queryFailed: bool) returns (back: bool)
      requires Logged() && phase == Phase.Suspect(previous, successor)
      modifies this`tracked, this`phase, this`past, this`steps
      ensures Logged() && Grew() && back == (!queryFailed && Runs(boxes, previous.id))
      ensures tracked == if back then Some(previous) else old(tracked)
      ensures phase == if back then RollingBack(previous, successor, ToStop) else BothDead(previous, successor, ToStop)
    {
      hide Run, Resolves, Cleans, Creates, Finalises;
      back := !queryFailed && Runs(boxes, previous.id);
      ghost var step := if back then RollBack else FoundOldDead(queryFailed);
      phase := if back then RollingBack(previous, successor, ToStop) else BothDead(previous, successor, ToStop);
      if back { tracked := Some(previous); }
      Log(step);
    }

    method UndoStopNew(ghost previous: Tracked, successor: Tracked, ghost back: bool, ok: bool)
      requires Logged()
      requires phase == if back then RollingBack(previous, successor, ToStop) else BothDead(previous, successor, ToStop)
      modifies this`boxes, this`phase, this`past, this`steps
      ensures Logged() && Grew() && boxes == Stopped(old(boxes), successor.id, ok)
      ensures phase == if back then RollingBack(previous, successor, ToRemove)
          else BothDead(previous, successor, ToRemove)
    {
      hide Run, Resolves, Cleans, Creates, Finalises, Stopped;
      boxes := Stopped(boxes, successor.id, ok);
      phase := if back then RollingBack(previous, successor, ToRemove) else BothDead(previous, successor, ToRemove);
      Log(UndoStop(ok));
    }

    method UndoRemoveNew(ghost previous: Tracked, successor: Tracked, ghost back: bool, ok: bool)
      requires Logged()
      requires phase == if back then RollingBack(previous, successor, ToRemove)
          else BothDead(previous, successor, ToRemove)
      modifies this`boxes, this`phase, this`past, this`steps
      ensures Logged() && Grew() && phase.Idle? && boxes == Removed(old(boxes), successor.id, ok)
    {
      hide Run, Resolves, Cleans, Creates, Finalises, Removed;
      boxes, phase := Removed(boxes, successor.id, ok), Idle;
      Log(UndoRemove(ok));
    }

    method HandOver(previous: Tracked, successor: Tracked)
      requires Logged() && phase == Stabilising(previous, successor)
      modifies this`finalisers, this`phase, this`past, this`steps
      ensures Logged() && Grew() && phase.Idle?
      ensures finalisers == old(finalisers) + {Finaliser(previous.id, successor.id, StopOld)}
    {
      hide Run, Resolves, Cleans, Creates, Finalises;
      finalisers, phase := finalisers + {Finaliser(previous.id, successor.id, StopOld)}, Idle;
      Log(Stable);
    }

    /** `stabilizeNewContainer`, and the start of the finaliser when the new container is stable. */
    method StabilizeNewContainer(previous: Tracked, successor: Tracked, calls: Calls) returns (outcome: Outcome)
      requires Logged() && phase == Stabilising(previous, successor) && tracked == Some(successor)
      modifies this`boxes, this`tracked, this`finalisers, this`phase, this`past, this`steps
      ensures Logged() && Grew() && phase.Idle?
      ensures var newRuns := successor.id in old(boxes) && old(boxes)[successor.id].status == Running;
              var oldRuns := previous.id in old(boxes) && old(boxes)[previous.id].status == Running;
              outcome == if calls.interrupted || (!calls.newQueryFails && newRuns) then Deployed(successor)
                         else if !calls.oldQueryFails && oldRuns then RolledBack(previous)
                         else AllDead(successor)
      ensures outcome.Deployed? ==> boxes == old(boxes)
      ensures !outcome.Deployed? && calls.failed.removed ==> successor.id !in boxes
      ensures OthersStay(old(boxes), boxes, successor.id)
      ensures tracked == Some(if outcome.RolledBack? then previous else successor)
      ensures finalisers == old(finalisers)
                            + if outcome.Deployed? then {Finaliser(previous.id, successor.id, StopOld)} else {}
    {
      hide Logged, Run, Next, NameFree, DeploymentContainerName, Removed, Stopped, Lists, ReachesTheSwitch, OthersStay;
      RemovalIsApart(boxes, successor.id, calls.failed.stopped, calls.failed.removed);
      if calls.interrupted || (!calls.newQueryFails && Runs(boxes, successor.id)) {
        HandOver(previous, successor);
        return Deployed(successor);
      }
      Suspect(previous, successor, calls.newQueryFails);
      var back := AskForPrevious(previous, successor, calls.oldQueryFails);
      UndoStopNew(previous, successor, back, calls.failed.stopped);
      UndoRemoveNew(previous, successor, back, calls.failed.removed);
      return if back then RolledBack(previous) else AllDead(successor);
    }

    lemma PickedNameIsFree(existing: Option<Tracked>)
      requires Logged() && phase == Prepared(existing, true) && existing.Some?
      ensures NewNameIsFree(boxes, canonical, existing)
    {
      TemporaryNameIsFree(past, steps, canonical, |past| - 1);
    }

    /** Everything from the lock to the created container. */
    method PrepareAndCreate(calls: Calls) returns (existing: Option<Tracked>, successor: Option<Tracked>)
      requires Logged() && phase.Idle?
      requires calls.running.Some? ==> Lists(calls.running.value, boxes, true)
      requires calls.all.Some? ==> Lists(calls.all.value, boxes, false)
      requires calls.created.Some? ==> calls.created.value !in used
      modifies this`boxes, this`tracked, this`used, this`phase, this`past, this`steps
      ensures Logged() && Grew() && tracked == existing
      ensures if old(tracked).Some? then existing == old(tracked) else FoundBy(calls.running, canonical, existing)
      ensures successor.None? ==> phase.Idle?
      ensures successor.Some? ==>
                && phase == Started(existing, successor.value) && calls.created == Some(successor.value.id)
                && FitsBeside(successor.value.name, canonical, existing)
                && successor.value.id in boxes && boxes[successor.value.id].name == successor.value.name
      ensures existing.Some? && ReachesTheSwitch(calls) ==> successor.Some?
      ensures existing.None? && ReachesTheSwitch(calls) && OnlyLeftoversAreCanonical(old(boxes), canonical) ==>
                successor.Some?
      ensures NoOthersHarmed(old(boxes), boxes, canonical, existing)
    {
      hide Run, Lists, NameFree, DeploymentContainerName, Resolves, Cleans, Creates, Switches, Finalises;
      phase := Locked;
      Log(Acquire);
      hide Next, Prepares;
      existing := ResolveExistingContainer(calls.running);
      hide Logged, Leftover, OnlyLeftoversGo, FitsBeside, NewNameIsFree, NoOthersHarmed, AllStay, FoundBy,
          OnlyLeftoversAreCanonical;
      CleanupOrphanedContainers(existing, calls.all, calls.orphans);
      ghost var cleaned := boxes;
      CleanupServes(old(boxes), cleaned, canonical, existing, calls);
      if phase.clean && existing.Some? { PickedNameIsFree(existing); }
      assert existing.Some? && ReachesTheSwitch(calls) ==> NewNameIsFree(cleaned, canonical, existing);
      assert ReachesTheSwitch(calls) ==> calls.proceeds && calls.created.Some? && calls.starts && calls.ready;
      hide ReachesTheSwitch;
      successor := CreateStartedContainer(existing, calls);
      NothingElseHarmed(old(boxes), cleaned, boxes, canonical, existing);
    }

    /**
     * `Deploy`, from taking the domain's lock to releasing it. `existing` is the container it set out to replace: the
     * tracked one, or what the slow path found when nothing was tracked.
     */
    method DeployContainer(calls: Calls) returns (outcome: Outcome, existing: Option<Tracked>)
      requires Logged() && phase.Idle?
      requires calls.running.Some? ==> Lists(calls.running.value, boxes, true)
      requires calls.all.Some? ==> Lists(calls.all.value, boxes, false)
      requires calls.created.Some? ==> calls.created.value !in used
      modifies this
      ensures Logged() && Grew() && phase.Idle?
      ensures if old(tracked).Some? then existing == old(tracked) else FoundBy(calls.running, canonical, existing)
      ensures outcome.Failed? || outcome.RolledBack? ==> tracked == existing
      ensures outcome.RolledBack? ==> existing == Some(outcome.container)
      ensures outcome.Deployed? || outcome.AllDead? ==>
                tracked == Some(outcome.container) && calls.created == Some(outcome.container.id)
      ensures outcome.AllDead? ==> existing.Some?
      ensures outcome.Deployed? ==> FitsBeside(outcome.container.name, canonical, existing)
      ensures outcome.Deployed? ==>
                outcome.container.id in boxes && boxes[outcome.container.id].name == outcome.container.name
      ensures existing.Some? && ReachesTheSwitch(calls) ==> !outcome.Failed?
      ensures existing.None? && ReachesTheSwitch(calls) && OnlyLeftoversAreCanonical(old(boxes), canonical) ==>
                outcome.Deployed?
      ensures NoOthersHarmed(old(boxes), boxes, canonical, existing)
      ensures finalisers == old(finalisers)
                            + if outcome.Deployed? && existing.Some?
                              then {Finaliser(existing.value.id, outcome.container.id, StopOld)} else {}
    {
      hide Logged, Run, Next, NameFree, DeploymentContainerName, Removed, Stopped, Lists, ReachesTheSwitch, FoundBy,
          Leftover, OnlyLeftoversAreCanonical, NoOthersHarmed, OthersStay, FitsBeside;
      StoredIsUsed();
      var successor;
      existing, successor := PrepareAndCreate(calls);
      ghost var before, prepared := old(boxes), boxes;
      assert NoOthersHarmed(before, prepared, canonical, existing);
      if successor.None? {
        outcome := Failed;
      } else {
        ActivateDeployedContainer(existing, successor.value);
        if existing.None? {
          outcome := Deployed(successor.value);
        } else {
          var id := successor.value.id;
          Settle(id, calls.status);
          ghost var settled := boxes;
          outcome := StabilizeNewContainer(existing.value, successor.value, calls);
          OldOnesStay(before, prepared, settled, boxes, id, canonical, existing);
        }
      }
    }

    method StopOldContainer(f: Finaliser, ok: bool)
      requires Logged() && f in finalisers && f.stage == StopOld
      modifies this`boxes, this`finalisers, this`past, this`steps
      ensures Logged() && Grew() && boxes == Stopped(old(boxes), f.previous, ok)
      ensures finalisers == Advance(old(finalisers), f, RemoveOld)
    {
      hide Run, Stopped, Resolves, Cleans, Creates, Switches;
      boxes, finalisers := Stopped(boxes, f.previous, ok), Advance(finalisers, f, RemoveOld);
      Log(FinaliserStop(f, ok));
    }

    method RemoveOldContainer(f: Finaliser, ok: bool)
      requires Logged() && f in finalisers && f.stage == RemoveOld
      modifies this`boxes, this`finalisers, this`past, this`steps
      ensures Logged() && Grew() && boxes == Removed(old(boxes), f.previous, ok)
      ensures finalisers == Advance(old(finalisers), f, RenameSuccessor)
    {
      hide Run, Removed, Resolves, Cleans, Creates, Switches;
      boxes, finalisers := Removed(boxes, f.previous, ok), Advance(finalisers, f, RenameSuccessor);
      Log(FinaliserRemove(f, ok));
    }

    /** The runtime refuses a name that another container holds. */
    method RenameToCanonical(f: Finaliser, ok: bool)
      requires Logged() && f in finalisers && f.stage == RenameSuccessor
      modifies this`boxes, this`finalisers, this`past, this`steps
      ensures Logged() && Grew() && finalisers == old(finalisers) - {f}
      ensures boxes == if ok && f.successor in old(boxes) && NameFree(old(boxes) - {f.successor}, canonical)
                       then old(boxes)[f.successor := old(boxes)[f.successor].(name := canonical)] else old(boxes)
    {
      hide Run, NameFree, Resolves, Cleans, Creates, Switches;
      var renamed := ok && f.successor in boxes && NameFree(boxes - {f.successor}, canonical);
      if renamed { boxes := boxes[f.successor := boxes[f.successor].(name := canonical)]; }
      finalisers := finalisers - {f};
      Log(FinaliserRename(f, renamed));
    }

    lemma VictimIsNotSuccessor(f: Finaliser)
      requires Logged() && f in finalisers
      ensures f.previous != f.successor
    {
      InvariantHolds(past, steps, canonical, |past| - 1);
    }

    /** One background finaliser, `cleanupOldContainer`: stop, remove, and rename to the canonical name. */
    method FinalizePreviousContainer(f: Finaliser, answer: Answer, renamed: bool)
      requires Logged() && f in finalisers && f.stage == StopOld
      modifies this`boxes, this`finalisers, this`past, this`steps
      ensures Logged() && Grew()
      ensures Finalised(old(boxes), boxes, f, canonical, answer, renamed)
    {
      hide Logged, NameFree, Finalised, Stopped, Removed;
      VictimIsNotSuccessor(f);
      FinalisedMeans(boxes, f, canonical, answer, renamed);
      StopOldContainer(f, answer.stopped);
      var g := f.(stage := RemoveOld);
      RemoveOldContainer(g, answer.removed);
      var h := g.(stage := RenameSuccessor);
      RenameToCanonical(h, renamed);
    }
  }
}
