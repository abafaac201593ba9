/**
 The preemptive round-robin scheduler (kernel/task.c).

 `SchedulerSpec` is a transition system: a slot table, the circular run list as the sequence
 that starts at the running task, and one event per kernel entry point. `TaskTable` is the
 scheduler as the kernel keeps it, a table threaded by `next` links that are rewritten in place.
 */
module SchedulerSpec {
  import opened Words

  const TASK_MAX: nat := 16
  const STACK_SIZE: nat := 16384
  const FRAME_SIZE: nat := 56          // sizeof(boot_frame_t)
  const HEADROOM: nat := 16
  const NAME_MAX: nat := 24            // TASK_NAME_MAX
  const MS_PER_TICK: nat := 10         // 1000 / TIMER_HZ
  const IDLE: nat := 0                 // task_init makes slot 0 the idle task

  datatype Status = Unused | Ready | Sleeping | Dead

  /** What a task is to run: its name, its entry point and the argument for it. */
  datatype Program = Program(name: string, entry: nat, arg: nat)

  datatype Task = Task(esp: nat, id: nat, status: Status, stack: nat, wakeAt: nat, cpuTicks: nat, switches: nat,
          program: Program)

  /** `ring[0]` is the running task; `stack == 0` stands for NULL. */
  datatype Sched = Sched(tasks: seq<Task>, ring: seq<nat>, nextId: nat, clock: nat)

  datatype Event =
    | Spawn(stack: nat, program: Program)      // task_spawn; `stack` is what kmalloc gave, 0 when it failed
    | Sleep(ms: nat)         // the running task marks itself asleep
    | Exit                   // the running task marks itself dead
    | Kill(id: nat)
    | Reap
    | Tick                   // a timer interrupt: the clock advances and the tick is charged
    | Schedule(esp: nat)     // task_schedule with the interrupted stack pointer

  predicate InTable(ring: seq<nat>, n: nat) {
    forall i | 0 <= i < |ring| :: ring[i] < n
  }

  // ----- the steps

  /** Where the first frame of a task with this stack is built. */
  function FirstFrame(stack: nat): nat { stack + STACK_SIZE - HEADROOM - FRAME_SIZE }

  /** The first unused slot, or the table size. */
  function FreeSlot(tasks: seq<Task>): (i: nat)
    ensures i <= |tasks|
    ensures forall j | 0 <= j < i :: tasks[j].status != Unused
    ensures i < |tasks| ==> tasks[i].status == Unused
  {
    if tasks == [] then 0 else if tasks[0].status == Unused then 0 else 1 + FreeSlot(tasks[1..])
  }

  predicate Spawns(s: Sched, stack: nat) { FreeSlot(s.tasks) < |s.tasks| && stack != 0 }

  /** `strncpy` into the name field. */
  function CutName(name: string): string { if |name| < NAME_MAX then name else name[..NAME_MAX - 1] }

  function NewTask(stack: nat, id: nat, program: Program): Task {
    Task(FirstFrame(stack), id, Ready, stack, 0, 0, 0, program.(name := CutName(program.name)))
  }

  function SpawnStep(s: Sched, stack: nat, program: Program): Sched
    requires s.ring != []
  {
    if Spawns(s, stack) then
      var slot := FreeSlot(s.tasks);
      var id := (s.nextId + 1) % WORD;
      s.(tasks := s.tasks[slot := NewTask(stack, id, program)], ring := [s.ring[0], slot] + s.ring[1..], nextId := id)
    else s
  }

  /** The task that `task_kill(id)` finds: the first in ring order with that id that is not dead. */
  function Victim(tasks: seq<Task>, ring: seq<nat>, id: nat): (i: nat)
    requires InTable(ring, |tasks|)
    ensures i <= |ring|
    ensures i < |ring| ==> tasks[ring[i]].id == id && tasks[ring[i]].status != Dead && tasks[ring[i]].status != Unused
    ensures forall j | 0 <= j < i ::
            tasks[ring[j]].id != id || tasks[ring[j]].status == Dead || tasks[ring[j]].status == Unused
  {
    if ring == [] then 0
    else if tasks[ring[0]].id == id && tasks[ring[0]].status != Dead && tasks[ring[0]].status != Unused then 0
    else 1 + Victim(tasks, ring[1..], id)
  }

  function Woken(t: Task, clock: nat): Task {
    if t.status == Sleeping && clock >= t.wakeAt then t.(status := Ready) else t
  }

  function WakeAll(tasks: seq<Task>, clock: nat): (r: seq<Task>)
    ensures |r| == |tasks|
  { seq(|tasks|, i requires 0 <= i < |tasks| => Woken(tasks[i], clock)) }

  predicate Runnable(tasks: seq<Task>, t: nat)
    requires t < |tasks|
  { t != IDLE && tasks[t].status == Ready }

  /** Offset in `order` of the first runnable task, or its length. */
  function FirstRunnable(tasks: seq<Task>, order: seq<nat>): (i: nat)
    requires InTable(order, |tasks|)
    ensures i <= |order|
    ensures i < |order| ==> Runnable(tasks, order[i])
    ensures forall j | 0 <= j < i :: !Runnable(tasks, order[j])
  {
    if order == [] then 0
    else if Runnable(tasks, order[0]) then 0
    else 1 + FirstRunnable(tasks, order[1..])
  }

  /** The scan order of `pick_next`: everyone after the running task, and the running task last. */
  function ScanOrder(ring: seq<nat>): (r: seq<nat>)
    requires ring != []
    ensures |r| == |ring|
  { ring[1..] + [ring[0]] }

  function Pick(tasks: seq<Task>, ring: seq<nat>): nat
    requires ring != [] && InTable(ring, |tasks|)
  {
    var order := ScanOrder(ring);
    var i := FirstRunnable(tasks, order);
    if i < |order| then order[i] else IDLE
  }

  function IndexOf(ring: seq<nat>, t: nat): (i: nat)
    ensures i <= |ring|
    ensures i < |ring| ==> ring[i] == t
    ensures forall j | 0 <= j < i :: ring[j] != t
    ensures t in ring ==> i < |ring|
  {
    if ring == [] then 0 else if ring[0] == t then 0 else 1 + IndexOf(ring[1..], t)
  }

  /** The same circle, started at `t`. */
  function RotateTo(ring: seq<nat>, t: nat): seq<nat> {
    var i := IndexOf(ring, t);
    ring[i..] + ring[..i]
  }

  /** The table `pick_next` looks at: the interrupted context saved and the sleepers woken. */
  function Refreshed(s: Sched, esp: nat): (r: seq<Task>)
    requires s.ring != [] && s.ring[0] < |s.tasks|
    ensures |r| == |s.tasks|
  {
    WakeAll(s.tasks[s.ring[0] := s.tasks[s.ring[0]].(esp := esp)], s.clock)
  }

  function Picked(s: Sched, esp: nat): nat
    requires s.ring != [] && InTable(s.ring, |s.tasks|)
  {
    Pick(Refreshed(s, esp), s.ring)
  }

  function ScheduleStep(s: Sched, esp: nat): Sched
    requires s.ring != [] && InTable(s.ring, |s.tasks|) && IDLE < |s.tasks|
  {
    var tasks := Refreshed(s, esp);
    var next := Pick(tasks, s.ring);
    if next == s.ring[0] || next >= |tasks| then s.(tasks := tasks)
    else s.(tasks := tasks[next := tasks[next].(switches := tasks[next].switches + 1)], ring := RotateTo(s.ring, next))
  }

  /** The stack pointer `task_schedule` returns. */
  function Returned(s: Sched, esp: nat): nat
    requires s.ring != [] && InTable(s.ring, |s.tasks|) && IDLE < |s.tasks|
  {
    var next := Picked(s, esp);
    if next == s.ring[0] || next >= |s.tasks| then esp else Refreshed(s, esp)[next].esp
  }

  function Surviving(tasks: seq<Task>, ring: seq<nat>): seq<nat>
    requires InTable(ring, |tasks|)
  {
    if ring == [] then []
    else (if tasks[ring[0]].status == Dead then [] else [ring[0]]) + Surviving(tasks, ring[1..])
  }

  function Reaped(t: Task): Task {
    if t.status == Dead then t.(status := Unused, stack := 0) else t
  }

  function ReapStep(s: Sched): Sched
    requires s.ring != [] && InTable(s.ring, |s.tasks|)
  {
    s.(tasks := seq(|s.tasks|, i requires 0 <= i < |s.tasks| => Reaped(s.tasks[i])),
       ring := [s.ring[0]] + Surviving(s.tasks, s.ring[1..]))
  }

  function Update(s: Sched, t: nat, v: Task): Sched
    requires t < |s.tasks|
  { s.(tasks := s.tasks[t := v]) }

  function KillStep(s: Sched, id: nat): Sched
    requires InTable(s.ring, |s.tasks|)
  {
    var i := Victim(s.tasks, s.ring, id);
    if i == |s.ring| || s.ring[i] == IDLE then s
    else Update(s, s.ring[i], s.tasks[s.ring[i]].(status := Dead))
  }

  function Step(s: Sched, e: Event): Sched
    requires Valid(s)
  {
    var running := s.tasks[s.ring[0]];
    match e
    case Spawn(stack, program) => SpawnStep(s, stack, program)
    case Sleep(ms) => Update(s, s.ring[0], running.(wakeAt := s.clock + ms / MS_PER_TICK, status := Sleeping))
    case Exit => Update(s, s.ring[0], running.(status := Dead))
    case Kill(id) => KillStep(s, id)
    case Reap => ReapStep(s)
    case Tick => Update(s, s.ring[0], running.(cpuTicks := running.cpuTicks + 1)).(clock := s.clock + 1)
    case Schedule(esp) => ScheduleStep(s, esp)
  }

  // ----- the invariant

  ghost predicate Distinct(ring: seq<nat>) {
    forall i, j | 0 <= i < j < |ring| :: ring[i] != ring[j]
  }

  /** The run list reaches exactly the slots in use, each once, and always the idle task. */
  ghost predicate RingOk(tasks: seq<Task>, ring: seq<nat>) {
    && ring != [] && Distinct(ring)
    && InTable(ring, |tasks|)
    && (forall t | 0 <= t < |tasks| :: t in ring <==> tasks[t].status != Unused)
    && IDLE in ring
  }

  /** Every task but the idle one owns a stack, and no two stacks overlap. */
  ghost predicate StacksOk(tasks: seq<Task>) {
    && (forall t | 0 <= t < |tasks| :: tasks[t].stack == 0 <==> (t == IDLE || tasks[t].status == Unused))
    && (forall t, u | 0 <= t < u < |tasks| && tasks[t].stack != 0 && tasks[u].stack != 0 ::
       Apart(tasks[t].stack, tasks[u].stack))
  }

  predicate Apart(a: nat, b: nat) { a + STACK_SIZE <= b || b + STACK_SIZE <= a }

  ghost predicate Valid(s: Sched) {
    && |s.tasks| == TASK_MAX
    && RingOk(s.tasks, s.ring)
    && StacksOk(s.tasks)
    && s.tasks[IDLE].status != Dead
  }

  /** What the kernel guarantees about who calls what: only idle reaps, idle never exits, a task that
      has exited or killed itself does nothing more, and `kmalloc` never hands out memory that is
      still in use. */
  ghost predicate Legal(s: Sched, e: Event)
    requires Valid(s)
  {
    match e
    case Spawn(stack, program) => stack != 0 ==> forall t | 0 <= t < |s.tasks| && s.tasks[t].stack != 0 ::
        Apart(s.tasks[t].stack, stack)
    case Exit => s.ring[0] != IDLE
    case Sleep(_) => s.tasks[s.ring[0]].status != Dead
    case Reap => s.ring[0] == IDLE
    case _ => true
  }

  ghost predicate LegalRun(s: Sched, es: seq<Event>)
    requires Valid(s)
    decreases |es|
  {
    es == [] || (Legal(s, es[0]) && (StepKeeps(s, es[0]); LegalRun(Step(s, es[0]), es[1..])))
  }

  function Blank(): Task { Task(0, 0, Unused, 0, 0, 0, 0, Program("", 0, 0)) }

  function IdleTask(): Task { Blank().(status := Ready, program := Program("idle", 0, 0)) }

  function Init(): Sched {
    Sched(seq(TASK_MAX, i => if i == IDLE then IdleTask() else Blank()), [IDLE], 0, 0)
  }

  lemma InitValid()
    ensures Valid(Init())
  {
    assert forall t | 0 <= t < TASK_MAX :: Init().tasks[t] == if t == IDLE then IdleTask() else Blank();
  }

  // ----- every step keeps the invariant

  lemma RotateKeeps(ring: seq<nat>, t: nat)
    requires Distinct(ring) && t in ring
    ensures Distinct(RotateTo(ring, t)) && |RotateTo(ring, t)| == |ring| && RotateTo(ring, t)[0] == t
    ensures forall u :: u in RotateTo(ring, t) <==> u in ring
  {
    var i := IndexOf(ring, t);
    var r := RotateTo(ring, t);
    assert forall k | 0 <= k < |r| :: r[k] == if k < |ring| - i then ring[k + i] else ring[k + i - |ring|];
    forall u | u in ring ensures u in r {
      var k :| 0 <= k < |ring| && ring[k] == u;
      assert r[if k >= i then k - i else k + |ring| - i] == u;
    }
  }

  lemma {:induction false} SurvivingKeeps(tasks: seq<Task>, ring: seq<nat>)
    requires Distinct(ring) && InTable(ring, |tasks|)
    ensures Distinct(Surviving(tasks, ring)) && |Surviving(tasks, ring)| <= |ring|
    ensures forall t :: t in Surviving(tasks, ring) <==> t in ring && tasks[t].status != Dead
  {
    if ring != [] {
      var rest := ring[1..];
      assert forall k | 0 <= k < |rest| :: rest[k] == ring[k + 1];
      assert ring == [ring[0]] + rest;
      SurvivingKeeps(tasks, rest);
    }
  }

  /** Status changes that neither free nor claim a slot keep the stack invariant. */
  lemma StacksSame(tasks: seq<Task>, r: seq<Task>)
    requires StacksOk(tasks) && |r| == |tasks|
    requires forall t | 0 <= t < |tasks| ::
             r[t].stack == tasks[t].stack && (r[t].status == Unused <==> tasks[t].status == Unused)
    ensures StacksOk(r)
  {
  }

  lemma RingSame(tasks: seq<Task>, ring: seq<nat>, r: seq<Task>, circle: seq<nat>)
    requires RingOk(tasks, ring) && |r| == |tasks| && circle != [] && Distinct(circle)
    requires forall t :: t in circle <==> t in ring
    requires forall t | 0 <= t < |tasks| :: r[t].status == Unused <==> tasks[t].status == Unused
    ensures RingOk(r, circle)
  {
    forall i | 0 <= i < |circle| ensures circle[i] < |r| {
      assert circle[i] in circle;
    }
  }

  lemma SpawnRing(ring: seq<nat>, slot: nat) returns (r: seq<nat>)
    requires ring != [] && Distinct(ring) && slot !in ring
    ensures r == [ring[0], slot] + ring[1..] && Distinct(r) && |r| == |ring| + 1
    ensures forall t :: t in r <==> t in ring || t == slot
    ensures forall k | 2 <= k < |r| :: r[k] == ring[k - 1]
  {
    r := [ring[0], slot] + ring[1..];
    assert ring == [ring[0]] + ring[1..];
  }

  lemma SpawnKeeps(s: Sched, stack: nat, program: Program)
    requires Valid(s) && Legal(s, Spawn(stack, program))
    ensures Valid(SpawnStep(s, stack, program))
  {
    if Spawns(s, stack) {
      var slot := FreeSlot(s.tasks);
      var r := SpawnStep(s, stack, program);
      var ring := SpawnRing(s.ring, slot);
      assert ring == r.ring;
      assert StacksOk(r.tasks);
      hide StacksOk, Legal;
      forall i | 0 <= i < |ring| ensures ring[i] < |r.tasks| {
        assert ring[i] in ring;
      }
      assert RingOk(r.tasks, ring);
    }
  }

  lemma PickInRing(tasks: seq<Task>, ring: seq<nat>)
    requires ring != [] && IDLE in ring && InTable(ring, |tasks|)
    ensures Pick(tasks, ring) in ring
  {
    var order := ScanOrder(ring);
    var i := FirstRunnable(tasks, order);
    if i < |order| {
      assert order[i] == if i + 1 < |ring| then ring[i + 1] else ring[0];
    }
  }

  /** What the save and the wake-up do to each slot. */
  lemma RefreshedSlot(s: Sched, esp: nat, t: nat)
    requires s.ring != [] && s.ring[0] < |s.tasks| && t < |s.tasks|
    ensures Refreshed(s, esp)[t] == Woken(if t == s.ring[0] then s.tasks[t].(esp := esp) else s.tasks[t], s.clock)
  {
  }

  lemma ScheduleRing(s: Sched, esp: nat)
    requires Valid(s)
    ensures Picked(s, esp) in s.ring && Picked(s, esp) < |s.tasks|
    ensures ScheduleStep(s, esp).ring == RotateTo(s.ring, Picked(s, esp))
    ensures ScheduleStep(s, esp).ring[0] == Picked(s, esp)
  {
    hide Pick, Refreshed, StacksOk;
    var next := Picked(s, esp);
    PickInRing(Refreshed(s, esp), s.ring);
    RotateKeeps(s.ring, next);
    assert next == s.ring[0] ==> RotateTo(s.ring, next) == s.ring;
  }

  /** A schedule changes a slot only by saving, waking and counting the switch. */
  lemma ScheduleSlot(s: Sched, esp: nat, t: nat)
    requires Valid(s) && t < |s.tasks|
    ensures var r := ScheduleStep(s, esp).tasks[t];
            && |ScheduleStep(s, esp).tasks| == |s.tasks|
            && r.(switches := 0) == Woken(if t == s.ring[0] then s.tasks[t].(esp := esp)
               else s.tasks[t], s.clock).(switches := 0)
  {
    RefreshedSlot(s, esp, t);
    hide Refreshed, Pick, RotateTo, StacksOk;
  }

  lemma ValidParts(s: Sched)
    requires Valid(s)
    ensures |s.tasks| == TASK_MAX && s.ring != [] && InTable(s.ring, |s.tasks|) && Distinct(s.ring)
    ensures RingOk(s.tasks, s.ring) && StacksOk(s.tasks) && s.tasks[IDLE].status != Dead
  {
  }

  lemma ScheduleKeeps(s: Sched, esp: nat)
    requires Valid(s)
    ensures Valid(ScheduleStep(s, esp))
  {
    hide ScheduleStep, RotateTo, Refreshed, Pick, Distinct, StacksOk, RingOk, InTable;
    ValidParts(s);
    var r := ScheduleStep(s, esp);
    ScheduleRing(s, esp);
    RotateKeeps(s.ring, Picked(s, esp));
    ScheduleSlot(s, esp, IDLE);
    forall t | 0 <= t < |s.tasks|
      ensures (r.tasks[t].status == Unused <==> s.tasks[t].status == Unused)
      ensures (r.tasks[t].status == Dead <==> s.tasks[t].status == Dead) && r.tasks[t].stack == s.tasks[t].stack
    {
      ScheduleSlot(s, esp, t);
    }
    StacksSame(s.tasks, r.tasks);
    RingSame(s.tasks, s.ring, r.tasks, r.ring);
  }

  lemma ReapKeeps(s: Sched)
    requires Valid(s) && s.ring[0] == IDLE
    ensures Valid(ReapStep(s))
    ensures ReapStep(s).ring == Surviving(s.tasks, s.ring)
  {
    var r := ReapStep(s);
    SurvivingKeeps(s.tasks, s.ring);
    assert r.ring == Surviving(s.tasks, s.ring);
    hide Surviving;
    assert forall t | 0 <= t < |s.tasks| :: r.tasks[t] == Reaped(s.tasks[t]);
    assert StacksOk(r.tasks);
    hide StacksOk;
    forall i | 0 <= i < |r.ring| ensures r.ring[i] < |r.tasks| {
      assert r.ring[i] in r.ring;
    }
    assert RingOk(r.tasks, r.ring);
  }

  lemma UpdateKeeps(s: Sched, t: nat, v: Task)
    requires Valid(s) && t in s.ring && v.stack == s.tasks[t].stack && v.status != Unused
    requires t == IDLE ==> v.status != Dead
    ensures Valid(Update(s, t, v))
  {
  }

  /** The ring invariant holds after every step of the scheduler. */
  lemma StepKeeps(s: Sched, e: Event)
    requires Valid(s) && Legal(s, e)
    ensures Valid(Step(s, e))
  {
    hide SpawnStep, ReapStep, ScheduleStep;
    var running := s.tasks[s.ring[0]];
    assert running.status != Unused && InTable(s.ring, |s.tasks|) by { assert s.ring[0] in s.ring; }
    assert forall i | 0 <= i < |s.ring| :: s.ring[i] in s.ring;
    hide RingOk, StacksOk;
    match e {
      case Spawn(stack, program) => SpawnKeeps(s, stack, program);
      case Sleep(ms) => UpdateKeeps(s, s.ring[0], running.(wakeAt := s.clock + ms / MS_PER_TICK, status := Sleeping));
      case Exit => UpdateKeeps(s, s.ring[0], running.(status := Dead));
      case Kill(id) =>
        var i := Victim(s.tasks, s.ring, id);
        if i < |s.ring| && s.ring[i] != IDLE {
          UpdateKeeps(s, s.ring[i], s.tasks[s.ring[i]].(status := Dead));
        }
      case Reap => ReapKeeps(s);
      case Tick =>
        var v := running.(cpuTicks := running.cpuTicks + 1);
        UpdateKeeps(s, s.ring[0], v);
        assert Step(s, e) == Update(s, s.ring[0], v).(clock := s.clock + 1);
      case Schedule(esp) => ScheduleKeeps(s, esp);
    }
  }

  // ----- runs

  ghost function Run(s: Sched, es: seq<Event>): (r: Sched)
    requires Valid(s) && LegalRun(s, es)
    ensures Valid(r)
    decreases |es|
  {
    if es == [] then s else StepKeeps(s, es[0]); Run(Step(s, es[0]), es[1..])
  }

  function Schedules(es: seq<Event>): nat {
    if es == [] then 0 else (if es[0].Schedule? then 1 else 0) + Schedules(es[1..])
  }

  // ----- waiting

  /** Nothing in this event is aimed at `t`: it is not killed, and does not itself sleep or exit. */
  ghost predicate LeavesAlone(s: Sched, e: Event, t: nat)
    requires Valid(s) && t < TASK_MAX
  {
    match e
    case Kill(id) => id != s.tasks[t].id
    case Sleep(_) => s.ring[0] != t
    case Exit => s.ring[0] != t
    case _ => true
  }

  /** A run in which `t` is left alone and no call of the scheduler picks it. */
  ghost predicate PassedOver(s: Sched, es: seq<Event>, t: nat)
    requires Valid(s) && LegalRun(s, es) && t < TASK_MAX
    decreases |es|
  {
    es == [] ||
    (&& LeavesAlone(s, es[0], t)
     && (es[0].Schedule? ==> Picked(s, es[0].esp) != t)
     && (StepKeeps(s, es[0]); PassedOver(Step(s, es[0]), es[1..], t)))
  }

  /** How many places the scan passes to reach `t`, counting `t`. */
  function Distance(ring: seq<nat>, t: nat): nat {
    var d := IndexOf(ring, t);
    if d == 0 then |ring| else d
  }

  /** The distance to `t`, plus the slots that could still be spawned ahead of it. */
  ghost function Patience(s: Sched, t: nat): nat
    requires Valid(s)
  {
    RingSize(s.tasks, s.ring);
    Distance(s.ring, t) + TASK_MAX - |s.ring|
  }

  lemma RingSize(tasks: seq<Task>, ring: seq<nat>)
    requires RingOk(tasks, ring)
    ensures |ring| <= |tasks|
  {
    PigeonHole(ring, |tasks|);
  }

  lemma {:induction false} PigeonHole(ring: seq<nat>, n: nat)
    requires Distinct(ring) && InTable(ring, n)
    ensures |ring| <= n
  {
    if ring == [] {
      return;
    }
    assert ring[0] < n;
    if n - 1 in ring {
      var i := IndexOf(ring, n - 1);
      var rest := ring[..i] + ring[i + 1..];
      assert forall k | 0 <= k < |rest| :: rest[k] == ring[if k < i then k else k + 1];
      PigeonHole(rest, n - 1);
    } else {
      forall k | 0 <= k < |ring| ensures ring[k] < n - 1 {
        assert ring[k] in ring;
      }
      PigeonHole(ring, n - 1);
    }
  }

  /** The pick is no further away than any runnable task. */
  lemma PickAhead(tasks: seq<Task>, ring: seq<nat>, t: nat)
    requires ring != [] && Distinct(ring) && InTable(ring, |tasks|) && t in ring && Runnable(tasks, t)
    ensures var p := Pick(tasks, ring);
            && p in ring && p < |tasks| && Runnable(tasks, p)
            && (p == t || Distance(ring, p) < Distance(ring, t))
  {
    var order := ScanOrder(ring);
    var i := FirstRunnable(tasks, order);
    var d := Distance(ring, t);
    assert order[d - 1] == t;
    assert i <= d - 1;
    assert ring[if i + 1 < |ring| then i + 1 else 0] == order[i];
  }

  lemma RotateDistance(ring: seq<nat>, p: nat, t: nat)
    requires ring != [] && Distinct(ring) && p in ring && t in ring && Distance(ring, p) < Distance(ring, t)
    ensures Distance(RotateTo(ring, p), t) == Distance(ring, t) - Distance(ring, p)
    ensures |RotateTo(ring, p)| == |ring|
  {
    var k, d := Distance(ring, p), Distance(ring, t);
    var r := RotateTo(ring, p);
    RotateKeeps(ring, p);
    assert r[d - k] == t;
  }

  ghost predicate Waiting(s: Sched, t: nat)
    requires Valid(s)
  {
    t < TASK_MAX && t != IDLE && s.tasks[t].status == Ready
  }

  lemma ScheduleWaits(s: Sched, esp: nat, t: nat)
    requires Valid(s) && Waiting(s, t) && Picked(s, esp) != t
    ensures Valid(ScheduleStep(s, esp)) && Waiting(ScheduleStep(s, esp), t)
    ensures Patience(ScheduleStep(s, esp), t) < Patience(s, t)
    ensures ScheduleStep(s, esp).ring[0] != IDLE
  {
    ScheduleKeeps(s, esp);
    ScheduleSlot(s, esp, t);
    ScheduleRing(s, esp);
    RefreshedSlot(s, esp, t);
    hide ScheduleStep, Refreshed, Pick, RotateTo, StacksOk;
    PickAhead(Refreshed(s, esp), s.ring, t);
    RotateDistance(s.ring, Picked(s, esp), t);
  }

  lemma SpawnWaits(s: Sched, stack: nat, program: Program, t: nat)
    requires Valid(s) && Legal(s, Spawn(stack, program)) && Waiting(s, t)
    ensures Valid(SpawnStep(s, stack, program)) && Waiting(SpawnStep(s, stack, program), t)
    ensures SpawnStep(s, stack, program).ring[0] == s.ring[0] && SpawnStep(s, stack, program).tasks[t] == s.tasks[t]
    ensures Patience(SpawnStep(s, stack, program), t) == Patience(s, t)
  {
    SpawnKeeps(s, stack, program);
    hide StacksOk, Legal;
    if Spawns(s, stack) {
      var slot := FreeSlot(s.tasks);
      var ring := SpawnRing(s.ring, slot);
      assert t in s.ring && slot !in s.ring;
      var d := IndexOf(s.ring, t);
      assert ring[if d == 0 then 0 else d + 1] == t;
    }
  }

  /** One event on the way: the patience left never grows, and each call of the scheduler costs some. */
  lemma StepWaits(s: Sched, e: Event, t: nat)
    requires Valid(s) && Legal(s, e) && Waiting(s, t) && LeavesAlone(s, e, t)
    requires e.Schedule? ==> Picked(s, e.esp) != t
    ensures Valid(Step(s, e)) && Waiting(Step(s, e), t)
    ensures e.Schedule? ==> Patience(Step(s, e), t) < Patience(s, t) && Step(s, e).ring[0] != IDLE
    ensures !e.Schedule? && s.ring[0] != IDLE ==>
              Patience(Step(s, e), t) == Patience(s, t) && Step(s, e).ring[0] == s.ring[0]
    ensures !e.Schedule? ==> Step(s, e).ring[0] == s.ring[0]
  {
    hide StacksOk, SpawnStep, ScheduleStep, Picked, Distance;
    StepKeeps(s, e);
    match e {
      case Spawn(stack, program) => SpawnWaits(s, stack, program, t);
      case Schedule(esp) => ScheduleWaits(s, esp, t);
      case _ =>
    }
  }

  lemma {:induction false} WaitBound(s: Sched, es: seq<Event>, t: nat)
    requires Valid(s) && LegalRun(s, es) && Waiting(s, t) && PassedOver(s, es, t)
    ensures if s.ring[0] != IDLE then Schedules(es) < Patience(s, t) else Schedules(es) < TASK_MAX
    decreases |es|
  {
    RingSize(s.tasks, s.ring);
    DistanceBound(s.ring, t);
    if es != [] {
      StepWaits(s, es[0], t);
      hide Valid, Waiting, Step, Patience, Picked, Distance;
      WaitBound(Step(s, es[0]), es[1..], t);
      PatienceBound(s, t);
    }
  }

  lemma DistanceBound(ring: seq<nat>, t: nat)
    ensures Distance(ring, t) <= |ring|
    ensures ring != [] ==> Distance(ring, t) >= 1
  {
  }

  lemma PatienceBound(s: Sched, t: nat)
    requires Valid(s)
    ensures 1 <= Patience(s, t) <= TASK_MAX
  {
    RingSize(s.tasks, s.ring);
    DistanceBound(s.ring, t);
  }

  /**
   Bounded waiting: whatever the other tasks spawn, kill, reap, sleep or exit, a ready task that
   is left alone cannot be passed over by TASK_MAX calls of the scheduler.
   */
  lemma BoundedWaiting(s: Sched, es: seq<Event>, t: nat)
    requires Valid(s) && LegalRun(s, es) && Waiting(s, t)
    requires Schedules(es) >= TASK_MAX
    ensures !PassedOver(s, es, t)
  {
    if PassedOver(s, es, t) {
      WaitBound(s, es, t);
      PatienceBound(s, t);
    }
  }

  // ----- sleeping

  /** A call of the scheduler wakes exactly the sleepers whose deadline has passed. */
  lemma ScheduleWakes(s: Sched, esp: nat, t: nat)
    requires Valid(s) && t < TASK_MAX
    ensures Step(s, Schedule(esp)).tasks[t].status ==
            (if s.tasks[t].status == Sleeping && s.tasks[t].wakeAt <= s.clock then Ready else s.tasks[t].status)
    ensures Step(s, Schedule(esp)).tasks[t].wakeAt == s.tasks[t].wakeAt
  {
    ScheduleSlot(s, esp, t);
    hide ScheduleStep, RingOk, StacksOk;
  }

  ghost predicate CouldRun(s: Sched, t: nat)
    requires Valid(s) && t < TASK_MAX
  {
    s.tasks[t].status == Ready || (s.tasks[t].status == Sleeping && s.tasks[t].wakeAt <= s.clock)
  }

  /** The idle task is chosen exactly when no other task could run; any other choice could run. */
  lemma IdleOnlyWhenNothingElse(s: Sched, esp: nat)
    requires Valid(s)
    ensures Picked(s, esp) < TASK_MAX
    ensures Picked(s, esp) == IDLE <==> forall t | 0 <= t < TASK_MAX && t != IDLE :: !CouldRun(s, t)
    ensures Picked(s, esp) != IDLE ==> CouldRun(s, Picked(s, esp))
    ensures s.tasks[Picked(s, esp)].status != Dead && s.tasks[Picked(s, esp)].status != Unused
  {
    var tasks := Refreshed(s, esp);
    forall t | 0 <= t < TASK_MAX ensures t != IDLE ==> (Runnable(tasks, t) <==> CouldRun(s, t)) {
      RefreshedSlot(s, esp, t);
    }
    ScheduleRing(s, esp);
    hide Refreshed, ScheduleStep, StacksOk;
    if t :| 0 <= t < TASK_MAX && t != IDLE && CouldRun(s, t) {
      assert t in s.ring;
      PickAhead(tasks, s.ring, t);
    }
  }

  ghost predicate Napping(s: Sched, t: nat, wakeAt: nat)
    requires Valid(s)
  {
    && t < TASK_MAX && t != IDLE
    && ((s.tasks[t].status == Sleeping && s.tasks[t].wakeAt == wakeAt)
       || (s.tasks[t].status == Ready && s.clock >= wakeAt))
  }

  lemma StepNaps(s: Sched, e: Event, t: nat, wakeAt: nat)
    requires Valid(s) && Legal(s, e) && Napping(s, t, wakeAt) && LeavesAlone(s, e, t)
    ensures Valid(Step(s, e)) && Napping(Step(s, e), t, wakeAt)
  {
    StepKeeps(s, e);
    match e {
      case Schedule(esp) =>
        ScheduleWakes(s, esp, t);
        assert Step(s, e).clock == s.clock;
      case Spawn(stack, program) =>
        assert Spawns(s, stack) ==> FreeSlot(s.tasks) != t;
      case _ =>
    }
  }

  /**
   A task that went to sleep until `wakeAt` is not picked before: however long the run, the first
   call that picks it happens at a clock of at least `wakeAt`.
   */
  lemma {:induction false} NeverWokenEarly(s: Sched, es: seq<Event>, esp: nat, t: nat, wakeAt: nat)
    requires Valid(s) && LegalRun(s, es) && Napping(s, t, wakeAt) && PassedOver(s, es, t)
    ensures Picked(Run(s, es), esp) == t ==> Run(s, es).clock >= wakeAt
    decreases |es|
  {
    if es == [] {
      IdleOnlyWhenNothingElse(s, esp);
    } else {
      StepNaps(s, es[0], t, wakeAt);
      hide Valid, Napping, Picked, Step;
      NeverWokenEarly(Step(s, es[0]), es[1..], esp, t, wakeAt);
    }
  }

  // ----- contexts

  /** The stack pointer on which `t` was last left: handed to the scheduler when `t` was
      interrupted, or built by the spawn that created it. `acc` answers for the time before. */
  ghost function LastLeft(s: Sched, es: seq<Event>, t: nat, acc: nat): nat
    requires Valid(s) && LegalRun(s, es)
    decreases |es|
  {
    if es == [] then acc
    else
      var left := match es[0]
        case Schedule(esp) => if s.ring[0] == t then esp else acc
        case Spawn(stack, program) => if Spawns(s, stack) && FreeSlot(s.tasks) == t then FirstFrame(stack) else acc
        case _ => acc;
      StepKeeps(s, es[0]);
      LastLeft(Step(s, es[0]), es[1..], t, left)
  }

  lemma StepEsp(s: Sched, e: Event, t: nat)
    requires Valid(s) && Legal(s, e) && t < TASK_MAX
    ensures Valid(Step(s, e))
    ensures Step(s, e).tasks[t].esp ==
            match e
            case Schedule(esp) => if s.ring[0] == t then esp else s.tasks[t].esp
            case Spawn(stack, program) => if Spawns(s, stack) && FreeSlot(s.tasks) == t then FirstFrame(stack)
                else s.tasks[t].esp
            case _ => s.tasks[t].esp
  {
    StepKeeps(s, e);
    match e {
      case Schedule(esp) => ScheduleSlot(s, esp, t);
      case _ =>
    }
  }

  lemma {:induction false} SavedContext(s: Sched, es: seq<Event>, t: nat)
    requires Valid(s) && LegalRun(s, es) && t < TASK_MAX
    ensures Run(s, es).tasks[t].esp == LastLeft(s, es, t, s.tasks[t].esp)
    decreases |es|
  {
    if es != [] {
      StepEsp(s, es[0], t);
      hide Valid, Step;
      SavedContext(Step(s, es[0]), es[1..], t);
    }
  }

  /**
   Context integrity over whole runs: the stack pointer the scheduler resumes on is the one the
   chosen task was last left on, and the chosen task is neither dead nor a free slot.
   */
  lemma ResumesWhereLeft(s: Sched, es: seq<Event>, esp: nat)
    requires Valid(s) && LegalRun(s, es)
    ensures var now := Run(s, es);
            var next := Picked(now, esp);
            && next < TASK_MAX
            && Returned(now, esp) == (if next == now.ring[0] then esp else LastLeft(s, es, next, s.tasks[next].esp))
            && now.tasks[next].status != Dead && now.tasks[next].status != Unused
            && Step(now, Schedule(esp)).ring[0] == next
  {
    var now := Run(s, es);
    var next := Picked(now, esp);
    IdleOnlyWhenNothingElse(now, esp);
    SavedContext(s, es, next);
    RefreshedSlot(now, esp, next);
    ScheduleRing(now, esp);
  }

  /** A task that never ran still has its first frame, and the running task has run. */
  ghost predicate Unrun(s: Sched)
    requires Valid(s)
  {
    && (s.ring[0] == IDLE || s.tasks[s.ring[0]].switches > 0)
    && forall t | 0 <= t < TASK_MAX && t != IDLE && s.tasks[t].status != Unused && s.tasks[t].switches == 0 ::
         s.tasks[t].esp == FirstFrame(s.tasks[t].stack)
  }

  lemma ScheduleCounts(s: Sched, esp: nat, t: nat)
    requires Valid(s) && t < |s.tasks|
    ensures |ScheduleStep(s, esp).tasks| == |s.tasks|
    ensures ScheduleStep(s, esp).tasks[t].switches == s.tasks[t].switches + if t == Picked(s, esp) && t != s.ring[0]
            then 1 else 0
  {
    RefreshedSlot(s, esp, t);
    hide Refreshed, Pick, RotateTo, StacksOk;
  }

  lemma StepUnrun(s: Sched, e: Event)
    requires Valid(s) && Legal(s, e) && Unrun(s)
    ensures Valid(Step(s, e)) && Unrun(Step(s, e))
  {
    StepKeeps(s, e);
    match e {
      case Schedule(esp) => ScheduleUnrun(s, esp);
      case _ =>
    }
  }

  lemma ScheduleUnrun(s: Sched, esp: nat)
    requires Valid(s) && Unrun(s) && Valid(ScheduleStep(s, esp))
    ensures Unrun(ScheduleStep(s, esp))
  {
    hide ScheduleStep, Picked, RotateTo, StacksOk;
    ValidParts(s);
    var r := ScheduleStep(s, esp);
    ScheduleRing(s, esp);
    ScheduleCounts(s, esp, Picked(s, esp));
    forall t | 0 <= t < TASK_MAX && t != IDLE && r.tasks[t].status != Unused && r.tasks[t].switches == 0
      ensures r.tasks[t].esp == FirstFrame(r.tasks[t].stack)
    {
      ScheduleSlot(s, esp, t);
      ScheduleCounts(s, esp, t);
    }
  }

  lemma {:induction false} RunUnrun(s: Sched, es: seq<Event>)
    requires Valid(s) && LegalRun(s, es) && Unrun(s)
    ensures Unrun(Run(s, es))
    decreases |es|
  {
    if es != [] {
      StepUnrun(s, es[0]);
      hide Valid, Unrun, Step;
      RunUnrun(Step(s, es[0]), es[1..]);
    }
  }

  /**
   Over any run from the start: the first time a task is picked, the scheduler resumes on the frame
   that its spawn built, inside the task's own stack and clear of the end.
   */
  lemma FirstPickInside(es: seq<Event>, esp: nat)
    requires Valid(Init()) && LegalRun(Init(), es)
    ensures var now := Run(Init(), es);
            var t := Picked(now, esp);
            && t < TASK_MAX
            && (t != IDLE && now.tasks[t].switches == 0 ==>
                  && now.tasks[t].stack <= Returned(now, esp)
                  && Returned(now, esp) + FRAME_SIZE + HEADROOM == now.tasks[t].stack + STACK_SIZE)
  {
    RunUnrun(Init(), es);
    var now := Run(Init(), es);
    var t := Picked(now, esp);
    IdleOnlyWhenNothingElse(now, esp);
    RefreshedSlot(now, esp, t);
  }

  // ----- the dead stay dead

  ghost predicate Gone(s: Sched, t: nat)
    requires Valid(s)
  { t < TASK_MAX && (s.tasks[t].status == Dead || s.tasks[t].status == Unused) }

  predicate SpawnsInto(s: Sched, e: Event, t: nat) {
    e.Spawn? && Spawns(s, e.stack) && FreeSlot(s.tasks) == t
  }

  ghost predicate NotRespawned(s: Sched, es: seq<Event>, t: nat)
    requires Valid(s) && LegalRun(s, es)
    decreases |es|
  {
    es == [] || (!SpawnsInto(s, es[0], t) && (StepKeeps(s, es[0]); NotRespawned(Step(s, es[0]), es[1..], t)))
  }

  lemma StepGone(s: Sched, e: Event, t: nat)
    requires Valid(s) && Legal(s, e) && Gone(s, t) && !SpawnsInto(s, e, t)
    ensures Valid(Step(s, e)) && Gone(Step(s, e), t)
  {
    StepKeeps(s, e);
    match e {
      case Schedule(esp) => ScheduleSlot(s, esp, t);
      case Sleep(_) => assert s.ring[0] in s.ring;
      case _ =>
    }
  }

  /** Once dead, a task is never picked again, however long the run, until its slot is spawned anew. */
  lemma {:induction false} DeadStayDead(s: Sched, es: seq<Event>, esp: nat, t: nat)
    requires Valid(s) && LegalRun(s, es) && Gone(s, t) && NotRespawned(s, es, t)
    ensures Gone(Run(s, es), t) && Picked(Run(s, es), esp) != t
    decreases |es|
  {
    if es == [] {
      IdleOnlyWhenNothingElse(s, esp);
    } else {
      StepGone(s, es[0], t);
      hide Valid, Gone, Picked, Step;
      DeadStayDead(Step(s, es[0]), es[1..], esp, t);
    }
  }

  /** A slot keeps its program until it is spawned anew, so a task bootstraps into what it was spawned for. */
  lemma {:induction false} ProgramStays(s: Sched, es: seq<Event>, t: nat)
    requires Valid(s) && LegalRun(s, es) && t < TASK_MAX && NotRespawned(s, es, t)
    ensures Run(s, es).tasks[t].program == s.tasks[t].program
    decreases |es|
  {
    if es != [] {
      StepProgram(s, es[0], t);
      hide Valid, Step;
      ProgramStays(Step(s, es[0]), es[1..], t);
    }
  }

  lemma StepProgram(s: Sched, e: Event, t: nat)
    requires Valid(s) && Legal(s, e) && t < TASK_MAX
    ensures Valid(Step(s, e))
    ensures Step(s, e).tasks[t].program ==
              if SpawnsInto(s, e, t) then e.program.(name := CutName(e.program.name)) else s.tasks[t].program
  {
    StepKeeps(s, e);
    match e {
      case Schedule(esp) => ScheduleSlot(s, esp, t);
      case _ =>
    }
  }

  // ----- stacks are conserved

  function StackBag(tasks: seq<Task>): multiset<nat> {
    if tasks == [] then multiset{}
    else (if tasks[0].stack == 0 then multiset{} else multiset{tasks[0].stack}) + StackBag(tasks[1..])
  }

  function DeadStacks(tasks: seq<Task>): multiset<nat> {
    if tasks == [] then multiset{}
    else (if tasks[0].status == Dead && tasks[0].stack != 0 then multiset{tasks[0].stack} else multiset{})
         + DeadStacks(tasks[1..])
  }

  /** What an event hands to `kfree`. */
  function Freed(s: Sched, e: Event): multiset<nat> {
    if e.Reap? then DeadStacks(s.tasks) else multiset{}
  }

  /** What an event keeps of what `kmalloc` gave it. */
  function Claimed(s: Sched, e: Event): multiset<nat> {
    if e.Spawn? && Spawns(s, e.stack) then multiset{e.stack} else multiset{}
  }

  lemma {:induction false} BagSame(a: seq<Task>, b: seq<Task>)
    requires |a| == |b| && forall t | 0 <= t < |a| :: a[t].stack == b[t].stack
    ensures StackBag(a) == StackBag(b)
  {
    if a != [] {
      BagSame(a[1..], b[1..]);
    }
  }

  lemma {:induction false} BagClaim(tasks: seq<Task>, i: nat, v: Task)
    requires i < |tasks| && tasks[i].stack == 0 && v.stack != 0
    ensures StackBag(tasks[i := v]) == StackBag(tasks) + multiset{v.stack}
  {
    if i == 0 {
      assert tasks[i := v][1..] == tasks[1..];
    } else {
      BagClaim(tasks[1..], i - 1, v);
      assert tasks[i := v][1..] == tasks[1..][i - 1 := v];
    }
  }

  lemma {:induction false} BagReap(a: seq<Task>, b: seq<Task>)
    requires |a| == |b| && forall t | 0 <= t < |a| :: b[t] == Reaped(a[t])
    ensures StackBag(b) + DeadStacks(a) == StackBag(a)
  {
    if a != [] {
      BagReap(a[1..], b[1..]);
    }
  }

  lemma StepStacks(s: Sched, e: Event)
    requires Valid(s) && Legal(s, e)
    ensures StackBag(Step(s, e).tasks) + Freed(s, e) == StackBag(s.tasks) + Claimed(s, e)
  {
    hide StackBag, DeadStacks;
    match e {
      case Spawn(stack, program) =>
        if Spawns(s, stack) {
          BagClaim(s.tasks, FreeSlot(s.tasks), NewTask(stack, (s.nextId + 1) % WORD, program));
        }
      case Reap => BagReap(s.tasks, ReapStep(s).tasks);
      case Schedule(esp) =>
        forall t | 0 <= t < |s.tasks| ensures Step(s, e).tasks[t].stack == s.tasks[t].stack {
          ScheduleSlot(s, esp, t);
        }
        ScheduleSlot(s, esp, IDLE);
        BagSame(Step(s, e).tasks, s.tasks);
      case _ => BagSame(Step(s, e).tasks, s.tasks);
    }
  }

  ghost function Frees(s: Sched, es: seq<Event>): multiset<nat>
    requires Valid(s) && LegalRun(s, es)
    decreases |es|
  {
    if es == [] then multiset{} else StepKeeps(s, es[0]); Freed(s, es[0]) + Frees(Step(s, es[0]), es[1..])
  }

  ghost function Claims(s: Sched, es: seq<Event>): multiset<nat>
    requires Valid(s) && LegalRun(s, es)
    decreases |es|
  {
    if es == [] then multiset{} else StepKeeps(s, es[0]); Claimed(s, es[0]) + Claims(Step(s, es[0]), es[1..])
  }

  lemma MoveAcross(end: multiset<nat>, frees: multiset<nat>, mid: multiset<nat>, claims: multiset<nat>,
                   freed: multiset<nat>, start: multiset<nat>, claimed: multiset<nat>)
    requires end + frees == mid + claims && mid + freed == start + claimed
    ensures end + (freed + frees) == start + (claimed + claims)
  {
    assert end + (freed + frees) == (end + frees) + freed;
    assert (mid + claims) + freed == (mid + freed) + claims;
  }

  /**
   Over any run from a fresh table, every stack that was claimed is either still owned by a task
   or has been freed, exactly once.
   */
  lemma {:induction false} StacksConserved(s: Sched, es: seq<Event>)
    requires Valid(s) && LegalRun(s, es)
    ensures StackBag(Run(s, es).tasks) + Frees(s, es) == StackBag(s.tasks) + Claims(s, es)
    decreases |es|
  {
    if es != [] {
      StepKeeps(s, es[0]);
      StepStacks(s, es[0]);
      hide Valid, Step, StackBag, Freed, Claimed;
      var next, rest := Step(s, es[0]), es[1..];
      StacksConserved(next, rest);
      assert Run(s, es) == Run(next, rest);
      assert Frees(s, es) == Freed(s, es[0]) + Frees(next, rest);
      assert Claims(s, es) == Claimed(s, es[0]) + Claims(next, rest);
      MoveAcross(StackBag(Run(next, rest).tasks), Frees(next, rest), StackBag(next.tasks), Claims(next, rest),
                 Freed(s, es[0]), StackBag(s.tasks), Claimed(s, es[0]));
    }
  }

  // ----- reaping

  /** The stacks of the dead among some tasks, in order. */
  ghost function StacksOfDead(tasks: seq<Task>, ring: seq<nat>): seq<nat>
    requires InTable(ring, |tasks|)
  {
    if ring == [] then []
    else (if tasks[ring[0]].status == Dead then [tasks[ring[0]].stack] else []) + StacksOfDead(tasks, ring[1..])
  }

  lemma {:induction false} StacksOfDeadMembers(tasks: seq<Task>, ring: seq<nat>, x: nat)
    requires InTable(ring, |tasks|)
    ensures x in StacksOfDead(tasks, ring) <==> exists i ::
            0 <= i < |ring| && tasks[ring[i]].status == Dead && tasks[ring[i]].stack == x
  {
    if ring != [] {
      var rest := ring[1..];
      StacksOfDeadMembers(tasks, rest, x);
      if i :| 0 <= i < |rest| && tasks[rest[i]].status == Dead && tasks[rest[i]].stack == x {
        assert ring[i + 1] == rest[i];
      }
      if i :| 0 <= i < |ring| && tasks[ring[i]].status == Dead && tasks[ring[i]].stack == x {
        assert i > 0 ==> rest[i - 1] == ring[i];
      }
    }
  }

  lemma StacksOfDeadAll(s: Sched, x: nat)
    requires Valid(s) && s.ring[0] == IDLE
    ensures x in StacksOfDead(s.tasks, s.ring[1..]) <==>
            exists t :: 0 <= t < TASK_MAX && s.tasks[t].status == Dead && s.tasks[t].stack == x
  {
    var rest := s.ring[1..];
    StacksOfDeadMembers(s.tasks, rest, x);
    if t :| 0 <= t < TASK_MAX && s.tasks[t].status == Dead && s.tasks[t].stack == x {
      var i := IndexOf(s.ring, t);
      assert t in s.ring && rest[i - 1] == t;
    }
  }

  lemma {:induction false} StacksOfDeadOnce(s: Sched, ring: seq<nat>)
    requires Valid(s) && InTable(ring, TASK_MAX) && Distinct(ring) && IDLE !in ring
    ensures Distinct(StacksOfDead(s.tasks, ring))
  {
    if ring != [] {
      var rest := ring[1..];
      assert forall k | 0 <= k < |rest| :: rest[k] == ring[k + 1];
      StacksOfDeadOnce(s, rest);
      var x := s.tasks[ring[0]].stack;
      StacksOfDeadMembers(s.tasks, rest, x);
      if s.tasks[ring[0]].status == Dead {
        forall i | 0 <= i < |rest| ensures s.tasks[rest[i]].status == Dead ==> s.tasks[rest[i]].stack != x {
          if s.tasks[rest[i]].stack == x {
            OwnStack(s, ring[0], ring[i + 1]);
          }
        }
      }
    }
  }

  lemma OwnStack(s: Sched, t: nat, u: nat)
    requires Valid(s) && t < TASK_MAX && u < TASK_MAX
    requires s.tasks[t].stack == s.tasks[u].stack && s.tasks[t].stack != 0
    ensures t == u
  {
    assert t < u ==> Apart(s.tasks[t].stack, s.tasks[u].stack);
    assert u < t ==> Apart(s.tasks[u].stack, s.tasks[t].stack);
  }

  lemma {:induction false} DeadStacksCount(tasks: seq<Task>, x: nat)
    requires forall t, u | 0 <= t < u < |tasks| && tasks[t].stack != 0 :: tasks[t].stack != tasks[u].stack
    ensures DeadStacks(tasks)[x] == if exists t ::
            0 <= t < |tasks| && tasks[t].status == Dead && tasks[t].stack == x && x != 0 then 1 else 0
  {
    if tasks != [] {
      var rest := tasks[1..];
      assert forall t | 0 <= t < |rest| :: rest[t] == tasks[t + 1];
      DeadStacksCount(rest, x);
      if t :| 0 <= t < |tasks| && tasks[t].status == Dead && tasks[t].stack == x && x != 0 {
        assert t > 0 ==> rest[t - 1] == tasks[t];
      }
      if t :| 0 <= t < |rest| && rest[t].status == Dead && rest[t].stack == x && x != 0 {
        assert tasks[t + 1] == rest[t];
      }
    }
  }

  lemma {:induction false} DistinctBag(s: seq<nat>, x: nat)
    requires Distinct(s)
    ensures multiset(s)[x] == if x in s then 1 else 0
  {
    if s != [] {
      var rest := s[1..];
      assert s == [s[0]] + rest;
      assert forall i | 0 <= i < |rest| :: rest[i] == s[i + 1];
      DistinctBag(rest, x);
    }
  }

  lemma StacksDiffer(s: Sched)
    requires Valid(s)
    ensures forall t, u | 0 <= t < u < |s.tasks| && s.tasks[t].stack != 0 :: s.tasks[t].stack != s.tasks[u].stack
    ensures forall t | 0 <= t < |s.tasks| && s.tasks[t].status == Dead :: s.tasks[t].stack != 0
  {
    forall t, u | 0 <= t < u < |s.tasks| && s.tasks[t].stack != 0 ensures s.tasks[t].stack != s.tasks[u].stack {
      assert s.tasks[u].stack != 0 ==> Apart(s.tasks[t].stack, s.tasks[u].stack);
    }
  }

  /** Walking the ring finds every dead task's stack, each once. */
  lemma FreedInRingOrder(s: Sched)
    requires Valid(s) && s.ring[0] == IDLE
    ensures InTable(s.ring[1..], |s.tasks|)
    ensures var freed := StacksOfDead(s.tasks, s.ring[1..]); Distinct(freed) && multiset(freed) == Freed(s, Reap)
  {
    var rest := s.ring[1..];
    RestInTable(s.ring, |s.tasks|);
    StacksDiffer(s);
    StacksOfDeadOnce(s, rest);
    var freed := StacksOfDead(s.tasks, rest);
    forall x ensures multiset(freed)[x] == DeadStacks(s.tasks)[x] {
      StacksOfDeadAll(s, x);
      DistinctBag(freed, x);
      DeadStacksCount(s.tasks, x);
    }
    assert multiset(freed) == DeadStacks(s.tasks);
  }

  lemma RestInTable(ring: seq<nat>, n: nat)
    requires ring != [] && Distinct(ring) && InTable(ring, n)
    ensures Distinct(ring[1..]) && InTable(ring[1..], n) && ring[0] !in ring[1..]
  {
    assert forall i | 0 <= i < |ring[1..]| :: ring[1..][i] == ring[i + 1];
  }

  /** Reaping drops exactly the dead, keeps the others in order, frees exactly the dead tasks'
      stacks in ring order, each once, and never the running one. */
  lemma ReapExactly(s: Sched)
    requires Valid(s) && s.ring[0] == IDLE
    ensures InTable(s.ring[1..], |s.tasks|)
    ensures var freed := StacksOfDead(s.tasks, s.ring[1..]);
            && Distinct(freed) && multiset(freed) == Freed(s, Reap)
            && (forall x :: x in freed <==> exists t ::
               0 <= t < TASK_MAX && s.tasks[t].status == Dead && s.tasks[t].stack == x)
    ensures ReapStep(s).ring == Surviving(s.tasks, s.ring)
    ensures forall t :: t in ReapStep(s).ring <==> t in s.ring && s.tasks[t].status != Dead
    ensures forall t | 0 <= t < TASK_MAX && s.tasks[t].status != Dead :: ReapStep(s).tasks[t] == s.tasks[t]
    ensures s.tasks[s.ring[0]].stack == 0
  {
    ReapKeeps(s);
    SurvivingKeeps(s.tasks, s.ring);
    FreedInRingOrder(s);
    forall x ensures x in StacksOfDead(s.tasks, s.ring[1..]) <==>
                     exists t :: 0 <= t < TASK_MAX && s.tasks[t].status == Dead && s.tasks[t].stack == x {
      StacksOfDeadAll(s, x);
    }
  }
}

/** The scheduler as the kernel keeps it: a table threaded by a circular list of `next` links. */
module TaskTable {
  import opened SchedulerSpec
  import opened Words

  /** The ring position after `i`. */
  ghost function Next(ring: seq<nat>, i: nat): nat
    requires i < |ring|
  { if i + 1 == |ring| then ring[0] else ring[i + 1] }

  ghost predicate Link(next: seq<nat>, ring: seq<nat>, i: nat)
    requires i < |ring| && ring[i] < |next|
  { next[ring[i]] == Next(ring, i) }

  /** The links spell the ring. */
  ghost predicate Linked(next: seq<nat>, ring: seq<nat>) {
    && InTable(ring, |next|)
    && forall i {:trigger Link(next, ring, i)} | 0 <= i < |ring| :: Link(next, ring, i)
  }

  lemma LinkedRotate(next: seq<nat>, ring: seq<nat>, t: nat)
    requires Linked(next, ring) && Distinct(ring) && t in ring
    ensures Linked(next, RotateTo(ring, t))
  {
    RotateKeeps(ring, t);
    var k := IndexOf(ring, t);
    var r := RotateTo(ring, t);
    forall i | 0 <= i < |r| ensures r[i] == ring[if i < |ring| - k then i + k else i + k - |ring|] {
    }
    forall i | 0 <= i < |r| ensures r[i] < |next| && Link(next, r, i) {
      assert Link(next, ring, if i < |ring| - k then i + k else i + k - |ring|);
    }
  }

  lemma LinkedInsert(next: seq<nat>, ring: seq<nat>, slot: nat, r: seq<nat>)
    requires ring != [] && Linked(next, ring) && Distinct(ring) && slot !in ring && slot < |next|
    requires r == [ring[0], slot] + ring[1..]
    ensures Linked(next[slot := next[ring[0]]][ring[0] := slot], r)
  {
    var n := next[slot := next[ring[0]]][ring[0] := slot];
    forall i | 0 <= i < |r| ensures r[i] < |n| && Link(n, r, i) {
      if i <= 1 {
        assert Link(next, ring, 0);
      } else {
        assert r[i] == ring[i - 1] && ring[i - 1] != slot;
        assert Link(next, ring, i - 1);
      }
    }
  }

  lemma LinkedRemove(next: seq<nat>, ring: seq<nat>, i: nat)
    requires Linked(next, ring) && Distinct(ring) && 0 < i < |ring|
    ensures Linked(next[ring[i - 1] := next[ring[i]]], ring[..i] + ring[i + 1..])
  {
    var n, r := next[ring[i - 1] := next[ring[i]]], ring[..i] + ring[i + 1..];
    forall k | 0 <= k < |r| ensures r[k] < |n| && Link(n, r, k) {
      assert Link(next, ring, if k < i then k else k + 1);
      assert Link(next, ring, i);
    }
  }

  lemma ScheduleShape(s: Sched, esp: nat)
    requires SchedulerSpec.Valid(s)
    ensures var tasks := Refreshed(s, esp);
            var pick := Pick(tasks, s.ring);
            && pick in s.ring && pick < |tasks|
            && (pick == s.ring[0] ==> Step(s, Event.Schedule(esp)) == s.(tasks := tasks) && Returned(s, esp) == esp)
            && (pick != s.ring[0] ==>
                  && Step(s, Event.Schedule(esp)) ==
                     s.(tasks := tasks[pick := tasks[pick].(switches := tasks[pick].switches + 1)],
                         ring := RotateTo(s.ring, pick))
                  && Returned(s, esp) == tasks[pick].esp)
  {
    ScheduleRing(s, esp);
    hide Refreshed, Pick, RotateTo, StacksOk, RingOk;
  }

  class Scheduler {
    const tasks: array<Task>
    const next: array<nat>
    var current: nat
    var nextId: nat
    var clock: nat
    ghost var ring: seq<nat>

    ghost function State(): Sched
      reads this, tasks
    { Sched(tasks[..], ring, nextId, clock) }

    ghost predicate Threaded()
      reads this, tasks, next
    {
      && tasks.Length == next.Length == TASK_MAX
      && ring != [] && current == ring[0] && Distinct(ring)
      && Linked(next[..], ring)
    }

    ghost predicate Valid()
      reads this, tasks, next
    { Threaded() && SchedulerSpec.Valid(State()) }

    /** `task_init`: the caller becomes the idle task. */
    constructor ()
      ensures Valid() && State() == Init() && fresh(tasks) && fresh(next)
    {
      tasks := new Task[TASK_MAX](i => if i == IDLE then IdleTask() else Blank());
      next := new nat[TASK_MAX](i => IDLE);
      current := IDLE;
      nextId := 0;
      clock := 0;
      ring := [IDLE];
      new;
      assert tasks[..] == Init().tasks;
      InitValid();
      assert Link(next[..], ring, 0);
    }

    /** The first unused slot, or TASK_MAX. */
    method AllocTask() returns (slot: nat)
      ensures slot == FreeSlot(tasks[..])
    {
      slot := 0;
      while slot < tasks.Length && tasks[slot].status != Unused
        invariant slot <= tasks.Length
        invariant forall j | 0 <= j < slot :: tasks[j].status != Unused
      {
        slot := slot + 1;
      }
    }

    /** Links a task in right behind the running one. */
    method ListInsert(slot: nat)
      requires Threaded() && slot < TASK_MAX && slot !in ring
      modifies this`ring, next
      ensures Threaded() && ring == [old(ring)[0], slot] + old(ring)[1..]
    {
      ghost var r := SpawnRing(ring, slot);
      LinkedInsert(next[..], ring, slot, r);
      next[slot] := next[current];
      next[current] := slot;
      ring := r;
      assert next[..] == old(next[..])[slot := old(next[..])[current]][current := slot];
    }

    /** Unlinks a task that is not the running one: walks the circle to its predecessor. */
    method ListRemove(slot: nat, ghost at: nat)
      requires Threaded() && 0 < at < |ring| && ring[at] == slot
      modifies this`ring, next
      ensures Threaded() && ring == old(ring)[..at] + old(ring)[at + 1..]
    {
      var prev := slot;
      ghost var k := at;
      ghost var steps := |ring|;
      while next[prev] != slot
        invariant 0 <= k < |ring| && prev == ring[k]
        invariant k >= at || k < at
        invariant 0 <= steps && (if k >= at then steps == |ring| - (k - at) else steps == at - k)
        decreases steps
      {
        assert Link(next[..], ring, k);
        k := if k + 1 == |ring| then 0 else k + 1;
        steps := steps - 1;
        prev := next[prev];
      }
      assert Link(next[..], ring, k);
      assert k == at - 1;
      LinkedRemove(next[..], ring, at);
      next[prev] := next[slot];
      assert next[..] == old(next[..])[ring[at - 1] := old(next[..])[slot]];
      ghost var r := ring[..at] + ring[at + 1..];
      assert forall i | 0 <= i < |r| :: r[i] == ring[if i < at then i else i + 1];
      ring := r;
    }

    /** `task_spawn`, given what `kmalloc` would answer. */
    method Spawn(stack: nat, program: Program) returns (slot: nat)
      requires Valid() && Legal(State(), Event.Spawn(stack, program))
      modifies this, tasks, next
      ensures Valid() && State() == Step(old(State()), Event.Spawn(stack, program))
      ensures slot == if Spawns(old(State()), stack) then FreeSlot(old(State()).tasks) else TASK_MAX
    {
      hide StacksOk, Legal;
      StepKeeps(State(), Event.Spawn(stack, program));
      slot := AllocTask();
      if slot == TASK_MAX || stack == 0 {
        return TASK_MAX;
      }
      nextId := (nextId + 1) % WORD;
      tasks[slot] := NewTask(stack, nextId, program);
      ListInsert(slot);
      assert tasks[..] == old(tasks[..])[slot := NewTask(stack, nextId, program)];
    }

    /** One pass round the circle, waking whoever's deadline has passed. */
    method WakeSleepers(now: nat)
      requires Threaded() && (forall t | 0 <= t < TASK_MAX && t !in ring :: tasks[t].status == Unused)
      modifies tasks
      ensures tasks[..] == WakeAll(old(tasks[..]), now)
    {
      var task := current;
      ghost var k := 0;
      var again := true;
      while again
        invariant 0 <= k <= |ring| && (again <==> k < |ring|)
        invariant k < |ring| ==> task == ring[k]
        invariant forall j | 0 <= j < k :: tasks[ring[j]] == Woken(old(tasks[ring[j]]), now)
        invariant forall t | 0 <= t < TASK_MAX && t !in ring[..k] :: tasks[t] == old(tasks[t])
        decreases |ring| - k
      {
        assert Link(next[..], ring, k);
        if tasks[task].status == Sleeping && now >= tasks[task].wakeAt {
          tasks[task] := tasks[task].(status := Ready);
        }
        task := next[task];
        k := k + 1;
        assert ring[..k] == ring[..k - 1] + [ring[k - 1]];
        again := task != current;
      }
      forall t | 0 <= t < TASK_MAX ensures tasks[t] == Woken(old(tasks[t]), now) {
        if t in ring {
          assert tasks[ring[IndexOf(ring, t)]] == Woken(old(tasks[t]), now);
        } else {
          assert t !in ring[..k];
        }
      }
    }

    /** The round-robin scan, starting behind the running task. */
    method PickNext() returns (pick: nat)
      requires Threaded()
      ensures pick == Pick(tasks[..], ring)
    {
      ghost var order := ScanOrder(ring);
      assert Link(next[..], ring, 0);
      var start := next[current];
      var task := start;
      ghost var k := 0;
      var again := true;
      while again
        invariant 0 <= k <= |ring| && (again <==> k < |ring|)
        invariant k < |ring| ==> task == order[k]
        invariant forall j | 0 <= j < k :: !Runnable(tasks[..], order[j])
        decreases |ring| - k
      {
        if task != IDLE && tasks[task].status == Ready {
          assert FirstRunnable(tasks[..], order) == k;
          return task;
        }
        assert Link(next[..], ring, if k + 1 < |ring| then k + 1 else 0);
        task := next[task];
        k := k + 1;
        again := task != start;
      }
      return IDLE;
    }

    /** Makes another task the running one. */
    method SwitchTo(pick: nat) returns (esp: nat)
      requires Threaded() && pick in ring
      modifies this`current, this`ring, tasks
      ensures Threaded() && ring == RotateTo(old(ring), pick) && pick < TASK_MAX
      ensures tasks[..] == old(tasks[..])[pick := old(tasks[..])[pick].(switches := old(tasks[..])[pick].switches + 1)]
      ensures esp == old(tasks[..])[pick].esp
    {
      LinkedRotate(next[..], ring, pick);
      RotateKeeps(ring, pick);
      assert ring[IndexOf(ring, pick)] == pick;
      tasks[pick] := tasks[pick].(switches := tasks[pick].switches + 1);
      current := pick;
      ring := RotateTo(ring, pick);
      return tasks[current].esp;
    }

    /** Saves the interrupted context and wakes the sleepers. */
    method Refresh(esp: nat)
      requires Valid()
      modifies tasks
      ensures Threaded() && tasks[..] == Refreshed(old(State()), esp)
    {
      tasks[current] := tasks[current].(esp := esp);
      assert tasks[..] == old(tasks[..])[current := old(tasks[..])[current].(esp := esp)];
      WakeSleepers(clock);
    }

    /** `task_schedule`: saves the interrupted context and returns the one to resume on. */
    method Schedule(esp: nat) returns (resume: nat)
      requires Valid()
      modifies this, tasks
      ensures Valid() && State() == Step(old(State()), Event.Schedule(esp))
      ensures resume == Returned(old(State()), esp)
    {
      hide SchedulerSpec.Valid, RotateTo, Refreshed, Pick, Linked, Distinct, Step, Returned, Scheduler.Threaded;
      ghost var s := State();
      StepKeeps(s, Event.Schedule(esp));
      ScheduleShape(s, esp);
      Refresh(esp);
      var pick := PickNext();
      if pick == current {
        return esp;
      }
      resume := SwitchTo(pick);
    }

    /** A timer interrupt: the clock advances and `task_account_tick` charges the running task. */
    method TimerTick()
      requires Valid()
      modifies this`clock, tasks
      ensures Valid() && State() == Step(old(State()), Tick)
    {
      StepKeeps(State(), Tick);
      clock := clock + 1;
      tasks[current] := tasks[current].(cpuTicks := tasks[current].cpuTicks + 1);
      assert tasks[..] == Step(old(State()), Tick).tasks;
    }

    /** The marking half of `task_sleep_ms`. */
    method SleepMs(ms: nat)
      requires Valid() && tasks[current].status != Dead
      modifies tasks
      ensures Valid() && State() == Step(old(State()), Sleep(ms))
    {
      StepKeeps(State(), Sleep(ms));
      tasks[current] := tasks[current].(wakeAt := clock + ms / MS_PER_TICK);
      tasks[current] := tasks[current].(status := Sleeping);
      assert tasks[..] == Step(old(State()), Sleep(ms)).tasks;
    }

    /** The marking half of `task_exit`; false is the panic on the idle task. */
    method Exit() returns (ok: bool)
      requires Valid()
      modifies tasks
      ensures Valid() && ok == (old(current) != IDLE)
      ensures State() == if ok then Step(old(State()), Event.Exit) else old(State())
    {
      if current == IDLE {
        return false;
      }
      StepKeeps(State(), Event.Exit);
      tasks[current] := tasks[current].(status := Dead);
      assert tasks[..] == Step(old(State()), Event.Exit).tasks;
      return true;
    }

    /** `task_kill`, up to the yield that follows killing oneself. */
    method Kill(id: nat) returns (result: int)
      requires Valid()
      modifies tasks
      ensures Valid() && State() == Step(old(State()), Event.Kill(id))
      ensures var i := Victim(old(State()).tasks, old(State()).ring, id);
              result == if i == |ring| then -1 else if ring[i] == IDLE then -2 else 0
    {
      hide StacksOk, Victim;
      StepKeeps(State(), Event.Kill(id));
      result := -1;
      var task := current;
      ghost var k := 0;
      var again := true;
      while again
        invariant 0 <= k <= |ring| && (again ==> k < |ring|) && (!again && result == -1 ==> k == |ring|)
        invariant again ==> task == ring[k] && result == -1
        invariant result == -1 ==> tasks[..] == old(tasks[..])
        invariant result == -1 ==>
                    forall j | 0 <= j < k ::
                      tasks[ring[j]].id != id || tasks[ring[j]].status == Unused || tasks[ring[j]].status == Dead
        invariant result != -1 ==> !again && k == Victim(old(tasks[..]), ring, id) < |ring|
        invariant result != -1 ==> result == (if ring[k] == IDLE then -2 else 0)
        invariant result != -1 ==> tasks[..] == KillStep(old(State()), id).tasks
        decreases again, |ring| - k
      {
        if tasks[task].id == id && tasks[task].status != Unused && tasks[task].status != Dead {
          if task == IDLE {
            result := -2;
          } else {
            tasks[task] := tasks[task].(status := Dead);
            result := 0;
          }
          again := false;
        } else {
          assert Link(next[..], ring, k);
          task := next[task];
          k := k + 1;
          again := task != current;
        }
      }
    }

    /** The task behind the running one. */
    method FirstAfter() returns (task: nat)
      requires Threaded()
      ensures task == if |ring| > 1 then ring[1] else current
    {
      assert Link(next[..], ring, 0);
      task := next[current];
    }

    /** The loop of `task_reap`: unlinks and frees the dead behind the running task. */
    method ReapScan() returns (freed: seq<nat>)
      requires Threaded() && current == IDLE
      modifies this`ring, tasks, next
      ensures Threaded() && ring == [IDLE] + Surviving(old(tasks[..]), old(ring)[1..])
      ensures forall t | 0 <= t < TASK_MAX ::
              tasks[t] == if t in old(ring)[1..] then Reaped(old(tasks[..])[t]) else old(tasks[..])[t]
      ensures freed == StacksOfDead(old(tasks[..]), old(ring)[1..])
    {
      hide Surviving, StacksOfDead;
      ghost var was, rest := tasks[..], ring[1..];
      SurvivingNil(was);
      freed := [];
      var task := FirstAfter();
      ghost var kept, seen, todo := [current], [], rest;
      RestOfRing(ring, rest, tasks.Length);
      while task != current
        invariant Threaded() && current == IDLE
        invariant task == if todo != [] then todo[0] else current
        invariant kept != [] && kept[0] == current && ring == kept + todo
        invariant rest == seen + todo && InTable(seen, TASK_MAX) && (todo != [] ==> todo[0] != IDLE)
        invariant kept == [IDLE] + Surviving(was, seen)
        invariant forall t | 0 <= t < TASK_MAX :: tasks[t] == if t in seen then Reaped(was[t]) else was[t]
        invariant freed == StacksOfDead(was, seen)
        decreases |todo|
      {
        NextInRest(rest, seen, todo, TASK_MAX);
        var following, gone := ReapOne(task, was[task], kept, todo);
        SurvivingSnoc(was, seen, task);
        StacksOfDeadSnoc(was, seen, task);
        freed := freed + gone;
        kept := if was[task].status == Dead then kept else kept + [task];
        seen, todo := seen + [task], todo[1..];
        task := following;
      }
      assert seen == rest;
    }

    /** One turn of that loop: the task after the kept ones goes or stays. */
    method ReapOne(task: nat, ghost was: Task, ghost kept: seq<nat>, ghost todo: seq<nat>)
      returns (following: nat, gone: seq<nat>)
      requires Threaded() && kept != [] && kept[0] == current && ring == kept + todo
      requires todo != [] && task == todo[0] && task < TASK_MAX && tasks[task] == was
      modifies this`ring, tasks, next
      ensures Threaded()
      ensures following == if |todo| > 1 then todo[1] else current
      ensures gone == if was.status == Dead then [was.stack] else []
      ensures ring == (if was.status == Dead then kept else kept + [task]) + todo[1..]
      ensures tasks[..] == old(tasks[..])[task := Reaped(was)]
    {
      assert ring[|kept|] == task;
      assert Link(next[..], ring, |kept|);
      following, gone := next[task], [];
      if tasks[task].status == Dead {
        ListRemove(task, |kept|);
        gone := [tasks[task].stack];
        tasks[task] := tasks[task].(status := Unused, stack := 0);
      }
    }

    /** `task_reap`, reporting the stacks it passed to `kfree`: those of the dead, each once. */
    method Reap() returns (freed: seq<nat>)
      requires Valid() && current == IDLE
      modifies this`ring, tasks, next
      ensures Valid() && State() == Step(old(State()), Event.Reap)
      ensures freed == StacksOfDead(old(tasks[..]), old(ring)[1..]) && Distinct(freed)
      ensures multiset(freed) == Freed(old(State()), Event.Reap)
    {
      hide SchedulerSpec.Valid, Step, Distinct, Surviving, StacksOfDead, Freed;
      ghost var s := State();
      StepKeeps(s, Event.Reap);
      ReapExactly(s);
      freed := ReapScan();
      ReapClosing(s, tasks[..]);
    }
  }

  /** What the scan leaves behind is the reaped state. */
  lemma ReapClosing(s: Sched, tasks: seq<Task>)
    requires SchedulerSpec.Valid(s) && s.ring[0] == IDLE && |tasks| == TASK_MAX
    requires forall t | 0 <= t < TASK_MAX :: tasks[t] == if t in s.ring[1..] then Reaped(s.tasks[t]) else s.tasks[t]
    ensures Step(s, Event.Reap) == s.(tasks := tasks, ring := [IDLE] + Surviving(s.tasks, s.ring[1..]))
  {
    var rest := s.ring[1..];
    forall t | 0 <= t < TASK_MAX ensures tasks[t] == Reaped(s.tasks[t]) {
      if s.tasks[t].status == Dead {
        assert t in s.ring && rest[IndexOf(s.ring, t) - 1] == t;
      }
    }
    assert tasks == ReapStep(s).tasks;
  }

  lemma RestOfRing(ring: seq<nat>, rest: seq<nat>, n: nat)
    requires ring != [] && Distinct(ring) && InTable(ring, n) && rest == ring[1..]
    ensures Distinct(rest) && InTable(rest, n) && ring[0] !in rest
    ensures ring == [ring[0]] + rest && rest == [] + rest
  {
    assert forall i | 0 <= i < |rest| :: rest[i] == ring[i + 1];
  }

  lemma NextInRest(rest: seq<nat>, seen: seq<nat>, todo: seq<nat>, n: nat)
    requires Distinct(rest) && InTable(rest, n) && IDLE !in rest && rest == seen + todo && todo != []
    ensures todo[0] !in seen && todo[0] < n && rest == seen + [todo[0]] + todo[1..]
    ensures |todo| > 1 ==> todo[1] != IDLE
  {
    assert rest[|seen|] == todo[0];
    assert forall i | 0 <= i < |seen| :: rest[i] == seen[i];
    assert |todo| > 1 ==> rest[|seen| + 1] == todo[1];
  }

  lemma SurvivingNil(tasks: seq<Task>)
    ensures Surviving(tasks, []) == [] && StacksOfDead(tasks, []) == []
  {
  }

  lemma {:induction false} SurvivingSnoc(tasks: seq<Task>, ring: seq<nat>, t: nat)
    requires InTable(ring, |tasks|) && t < |tasks|
    ensures Surviving(tasks, ring + [t]) == Surviving(tasks, ring) + (if tasks[t].status == Dead then [] else [t])
  {
    if ring == [] {
      assert Surviving(tasks, [t][1..]) == [];
    } else {
      SurvivingCons(tasks, ring[0], ring[1..] + [t]);
      SurvivingCons(tasks, ring[0], ring[1..]);
      SurvivingSnoc(tasks, ring[1..], t);
      hide Surviving;
      assert ring + [t] == [ring[0]] + (ring[1..] + [t]) && ring == [ring[0]] + ring[1..];
    }
  }

  lemma SurvivingCons(tasks: seq<Task>, t: nat, rest: seq<nat>)
    requires t < |tasks| && InTable(rest, |tasks|)
    ensures Surviving(tasks, [t] + rest) == (if tasks[t].status == Dead then [] else [t]) + Surviving(tasks, rest)
  {
    assert ([t] + rest)[1..] == rest;
  }

  lemma StacksOfDeadCons(tasks: seq<Task>, t: nat, rest: seq<nat>)
    requires t < |tasks| && InTable(rest, |tasks|)
    ensures StacksOfDead(tasks, [t] + rest) ==
            (if tasks[t].status == Dead then [tasks[t].stack] else []) + StacksOfDead(tasks, rest)
  {
    assert ([t] + rest)[1..] == rest;
  }

  lemma {:induction false} StacksOfDeadSnoc(tasks: seq<Task>, ring: seq<nat>, t: nat)
    requires InTable(ring, |tasks|) && t < |tasks|
    ensures StacksOfDead(tasks, ring + [t]) ==
            StacksOfDead(tasks, ring) + (if tasks[t].status == Dead then [tasks[t].stack] else [])
  {
    if ring == [] {
      assert StacksOfDead(tasks, [t][1..]) == [];
    } else {
      StacksOfDeadCons(tasks, ring[0], ring[1..] + [t]);
      StacksOfDeadCons(tasks, ring[0], ring[1..]);
      StacksOfDeadSnoc(tasks, ring[1..], t);
      hide StacksOfDead;
      assert ring + [t] == [ring[0]] + (ring[1..] + [t]) && ring == [ring[0]] + ring[1..];
    }
  }
}
