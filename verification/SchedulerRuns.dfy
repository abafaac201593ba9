/** What the calls of the scheduler come to over whole runs, counted in events. */
module SchedulerRuns {
  import opened Words
  import opened SchedulerSpec

  function Ticks(es: seq<Event>): nat {
    if es == [] then 0 else (if es[0].Tick? then 1 else 0) + Ticks(es[1..])
  }

  // ----- sleeping

  lemma StepClock(s: Sched, e: Event)
    requires Valid(s) && Legal(s, e)
    ensures Valid(Step(s, e)) && Step(s, e).clock == s.clock + if e.Tick? then 1 else 0
  {
    StepKeeps(s, e);
  }

  /** The clock counts the timer interrupts. */
  lemma {:induction false} ClockIsTicks(s: Sched, es: seq<Event>)
    requires Valid(s) && LegalRun(s, es)
    ensures Run(s, es).clock == s.clock + Ticks(es)
    decreases |es|
  {
    if es != [] {
      StepClock(s, es[0]);
      hide Valid, Step;
      ClockIsTicks(Step(s, es[0]), es[1..]);
    }
  }

  lemma {:induction false} NapLasts(s: Sched, es: seq<Event>, t: nat, wakeAt: nat)
    requires Valid(s) && LegalRun(s, es) && Napping(s, t, wakeAt) && PassedOver(s, es, t)
    ensures Napping(Run(s, es), t, wakeAt)
    decreases |es|
  {
    if es != [] {
      StepNaps(s, es[0], t, wakeAt);
      hide Valid, Napping, Picked, Step;
      NapLasts(Step(s, es[0]), es[1..], t, wakeAt);
    }
  }

  /**
   `task_sleep_ms`, counted in timer interrupts of 10 ms: until enough of them have come the task
   stays asleep and is not picked; the first call of the scheduler after that makes it ready.
   */
  lemma SleepLasts(s: Sched, ms: nat, es: seq<Event>, esp: nat)
    requires Valid(s) && Legal(s, Sleep(ms)) && s.ring[0] != IDLE
    requires Valid(Step(s, Sleep(ms))) && LegalRun(Step(s, Sleep(ms)), es)
    requires s.ring[0] < TASK_MAX && PassedOver(Step(s, Sleep(ms)), es, s.ring[0])
    ensures var t, now := s.ring[0], Run(Step(s, Sleep(ms)), es);
            && (Ticks(es) < ms / 10 ==> now.tasks[t].status == Sleeping && Picked(now, esp) != t)
            && (Ticks(es) >= ms / 10 ==> Step(now, Schedule(esp)).tasks[t].status == Ready)
  {
    var t := s.ring[0];
    var asleep := Step(s, Sleep(ms));
    NapLasts(asleep, es, t, s.clock + ms / 10);
    ClockIsTicks(asleep, es);
    NeverWokenEarly(asleep, es, esp, t, s.clock + ms / 10);
    ScheduleWakes(Run(asleep, es), esp, t);
  }

  // ----- the end of a task

  /** `task_exit`: the running task is never picked again, until its slot is spawned anew. */
  lemma ExitEnds(s: Sched, es: seq<Event>, esp: nat)
    requires Valid(s) && Legal(s, Exit) && Valid(Step(s, Exit)) && LegalRun(Step(s, Exit), es)
    requires NotRespawned(Step(s, Exit), es, s.ring[0])
    ensures Picked(Run(Step(s, Exit), es), esp) != s.ring[0]
  {
    assert s.ring[0] in s.ring;
    DeadStayDead(Step(s, Exit), es, esp, s.ring[0]);
  }

  ghost predicate Live(s: Sched, t: nat)
    requires Valid(s)
  { t < TASK_MAX && s.tasks[t].status != Dead && s.tasks[t].status != Unused }

  /** No two tasks that are not dead have the same id. */
  ghost predicate IdsDiffer(s: Sched)
    requires Valid(s)
  { forall t: nat, u: nat | Live(s, t) && Live(s, u) && s.tasks[t].id == s.tasks[u].id :: t == u }

  lemma VictimFound(s: Sched, id: nat, t: nat)
    requires Valid(s) && Live(s, t) && s.tasks[t].id == id
    requires forall u: nat | Live(s, u) && s.tasks[u].id == id :: u == t
    ensures Victim(s.tasks, s.ring, id) < |s.ring| && s.ring[Victim(s.tasks, s.ring, id)] == t
  {
    assert t in s.ring;
    var k := IndexOf(s.ring, t);
    var i := Victim(s.tasks, s.ring, id);
    assert i <= k;
    VictimLive(s, id);
  }

  /**
   `task_kill`: the one live task with that id, unless it is idle, is never picked again until its
   slot is spawned anew; nothing else changes, and nothing at all if there is no such task.
   */
  lemma KillEnds(s: Sched, id: nat, t: nat, es: seq<Event>, esp: nat)
    requires Valid(s) && IdsDiffer(s) && Live(s, t) && s.tasks[t].id == id && Legal(s, Kill(id))
    requires Valid(Step(s, Kill(id))) && LegalRun(Step(s, Kill(id)), es) && NotRespawned(Step(s, Kill(id)), es, t)
    ensures t == IDLE ==> Step(s, Kill(id)) == s
    ensures t != IDLE ==>
              && Step(s, Kill(id)) == s.(tasks := s.tasks[t := Step(s, Kill(id)).tasks[t]])
              && Step(s, Kill(id)).tasks[t].status == Dead
              && Picked(Run(Step(s, Kill(id)), es), esp) != t
  {
    VictimFound(s, id, t);
    if t != IDLE {
      DeadStayDead(Step(s, Kill(id)), es, esp, t);
    }
  }

  lemma KillMisses(s: Sched, id: nat)
    requires Valid(s) && forall t: nat | Live(s, t) :: s.tasks[t].id != id
    ensures Step(s, Kill(id)) == s
  {
    VictimLive(s, id);
  }

  lemma VictimLive(s: Sched, id: nat)
    requires Valid(s)
    ensures var i := Victim(s.tasks, s.ring, id); i < |s.ring| ==> Live(s, s.ring[i]) && s.tasks[s.ring[i]].id == id
  {
  }

  // ----- ids

  function Spawned(es: seq<Event>): nat {
    if es == [] then 0 else (if es[0].Spawn? then 1 else 0) + Spawned(es[1..])
  }

  /** Ids in use are different, and none is above the counter; only idle has 0. */
  ghost predicate IdsCounted(s: Sched)
    requires Valid(s)
  {
    && IdsDiffer(s) && s.nextId < WORD
    && (forall t: nat | Live(s, t) :: s.tasks[t].id <= s.nextId && (s.tasks[t].id == 0 <==> t == IDLE))
  }

  lemma StepIds(s: Sched, e: Event)
    requires Valid(s) && Legal(s, e) && IdsCounted(s) && (e.Spawn? ==> s.nextId + 1 < WORD)
    ensures Valid(Step(s, e)) && IdsCounted(Step(s, e))
    ensures Step(s, e).nextId <= s.nextId + if e.Spawn? then 1 else 0
  {
    hide Step, RingOk, StacksOk, Spawns, FreeSlot;
    StepKeeps(s, e);
    var r := Step(s, e);
    SlotId(s, e, 0);
    forall t: nat | Live(r, t)
      ensures (e.Spawn? && SpawnsInto(s, e, t) && r.tasks[t].id == r.nextId == s.nextId + 1 && t != IDLE)
              || (Live(s, t) && r.tasks[t].id == s.tasks[t].id)
    {
      SlotId(s, e, t);
    }
  }

  lemma SlotId(s: Sched, e: Event, t: nat)
    requires Valid(s) && Legal(s, e) && t < TASK_MAX && (e.Spawn? ==> s.nextId + 1 < WORD)
    ensures Valid(Step(s, e))
    ensures if SpawnsInto(s, e, t)
            then Step(s, e).tasks[t].id == Step(s, e).nextId == s.nextId + 1 && t != IDLE
            else Step(s, e).tasks[t].id == s.tasks[t].id
                 && (Step(s, e).tasks[t].status in {Dead, Unused} <== s.tasks[t].status in {Dead, Unused})
    ensures Step(s, e).nextId == s.nextId || (e.Spawn? && Spawns(s, e.stack) && Step(s, e).nextId == s.nextId + 1)
  {
    hide SpawnStep, ScheduleStep, KillStep, StacksOk;
    StepKeeps(s, e);
    match e {
      case Spawn(stack, program) => SpawnId(s, stack, program, t);
      case Schedule(esp) =>
        ScheduleSlot(s, esp, t);
        ScheduleNextId(s, esp);
      case Kill(id) => KillId(s, id, t);
      case _ => assert s.ring[0] in s.ring;
    }
  }

  lemma SpawnId(s: Sched, stack: nat, program: Program, t: nat)
    requires Valid(s) && t < TASK_MAX && s.nextId + 1 < WORD
    ensures var r, spawns := SpawnStep(s, stack, program), Spawns(s, stack);
            && |r.tasks| == TASK_MAX && r.nextId == s.nextId + (if spawns then 1 else 0)
            && if spawns && FreeSlot(s.tasks) == t then r.tasks[t].id == r.nextId && t != IDLE
               else r.tasks[t] == s.tasks[t]
  {
  }

  lemma ScheduleNextId(s: Sched, esp: nat)
    requires Valid(s)
    ensures ScheduleStep(s, esp).nextId == s.nextId
  {
  }

  lemma KillId(s: Sched, id: nat, t: nat)
    requires Valid(s) && t < TASK_MAX
    ensures var r := KillStep(s, id);
            && |r.tasks| == TASK_MAX && r.nextId == s.nextId && r.tasks[t].id == s.tasks[t].id
            && (r.tasks[t].status == s.tasks[t].status || r.tasks[t].status == Dead)
  {
  }

  /** Over any run from the start with fewer than 2^32 spawns, an id means one task. */
  lemma {:induction false} IdsStayDifferent(s: Sched, es: seq<Event>)
    requires Valid(s) && LegalRun(s, es) && IdsCounted(s) && s.nextId + Spawned(es) < WORD
    ensures IdsCounted(Run(s, es))
    decreases |es|
  {
    if es != [] {
      StepIds(s, es[0]);
      hide Valid, Step, IdsCounted;
      IdsStayDifferent(Step(s, es[0]), es[1..]);
    }
  }

  lemma StartCounted()
    requires Valid(Init())
    ensures IdsCounted(Init())
  {
    assert forall t | 0 <= t < TASK_MAX :: Init().tasks[t] == if t == IDLE then IdleTask() else Blank();
  }

  lemma IdsFromStart(es: seq<Event>)
    requires Valid(Init()) && LegalRun(Init(), es) && Spawned(es) < WORD
    ensures IdsDiffer(Run(Init(), es))
  {
    StartCounted();
    IdsStayDifferent(Init(), es);
  }

  // ----- a new task

  /**
   `task_spawn`: if there is a slot left and memory for a stack, a new task comes in and, left alone,
   is picked within 16 calls of the scheduler. If not, nothing changes.
   */
  lemma SpawnedRuns(s: Sched, stack: nat, program: Program, es: seq<Event>) returns (t: nat)
    requires Valid(s) && Legal(s, Spawn(stack, program)) && Valid(Step(s, Spawn(stack, program)))
    requires LegalRun(Step(s, Spawn(stack, program)), es)
    ensures (stack == 0 || forall u | 0 <= u < TASK_MAX :: s.tasks[u].status != Unused) ==>
            Step(s, Spawn(stack, program)) == s
    ensures stack != 0 && (exists u :: 0 <= u < TASK_MAX && s.tasks[u].status == Unused) ==>
              var now := Step(s, Spawn(stack, program));
              && t < TASK_MAX && s.tasks[t].status == Unused && now.tasks[t].status == Ready
              && now.tasks[t].stack == stack && now.tasks[t].cpuTicks == 0 && now.tasks[t].switches == 0
              && (forall u | 0 <= u < TASK_MAX && u != t :: now.tasks[u] == s.tasks[u])
              && (Schedules(es) >= TASK_MAX ==> !PassedOver(now, es, t))
  {
    t := FreeSlot(s.tasks);
    if stack != 0 && t < TASK_MAX {
      var now := Step(s, Spawn(stack, program));
      if Schedules(es) >= TASK_MAX {
        BoundedWaiting(now, es, t);
      }
    } else {
      t := 0;
    }
  }

  // ----- accounts

  /** The timer interrupts that hit while `t` was running. */
  ghost function TicksOf(s: Sched, es: seq<Event>, t: nat): nat
    requires Valid(s) && LegalRun(s, es)
    decreases |es|
  {
    if es == [] then 0
    else
      StepKeeps(s, es[0]);
      (if es[0].Tick? && s.ring[0] == t then 1 else 0) + TicksOf(Step(s, es[0]), es[1..], t)
  }

  /** The calls of the scheduler that switched to `t`. */
  ghost function SwitchesTo(s: Sched, es: seq<Event>, t: nat): nat
    requires Valid(s) && LegalRun(s, es)
    decreases |es|
  {
    if es == [] then 0
    else
      StepKeeps(s, es[0]);
      (if es[0].Schedule? && s.ring[0] != t && Picked(s, es[0].esp) == t then 1 else 0)
      + SwitchesTo(Step(s, es[0]), es[1..], t)
  }

  lemma StepCounts(s: Sched, e: Event, t: nat)
    requires Valid(s) && Legal(s, e) && t < TASK_MAX && !SpawnsInto(s, e, t)
    ensures Valid(Step(s, e))
    ensures Step(s, e).tasks[t].cpuTicks == s.tasks[t].cpuTicks + if e.Tick? && s.ring[0] == t then 1 else 0
    ensures Step(s, e).tasks[t].switches ==
            s.tasks[t].switches + if e.Schedule? && s.ring[0] != t && Picked(s, e.esp) == t then 1 else 0
  {
    hide ScheduleStep, StacksOk, RingOk;
    StepKeeps(s, e);
    TableSize(s);
    match e {
      case Schedule(esp) =>
        ScheduleSlot(s, esp, t);
        ScheduleCounts(s, esp, t);
      case _ =>
    }
  }

  lemma TableSize(s: Sched)
    requires Valid(s)
    ensures s.ring != [] && InTable(s.ring, |s.tasks|) && s.ring[0] < |s.tasks|
  {
  }

  /** Over any run a task is charged every tick that hit it and every switch to it, and no other. */
  lemma {:induction false} Charged(s: Sched, es: seq<Event>, t: nat)
    requires Valid(s) && LegalRun(s, es) && t < TASK_MAX && NotRespawned(s, es, t)
    ensures Run(s, es).tasks[t].cpuTicks == s.tasks[t].cpuTicks + TicksOf(s, es, t)
    ensures Run(s, es).tasks[t].switches == s.tasks[t].switches + SwitchesTo(s, es, t)
    decreases |es|
  {
    if es != [] {
      StepCounts(s, es[0], t);
      hide Valid, Step, Picked;
      Charged(Step(s, es[0]), es[1..], t);
    }
  }
}
