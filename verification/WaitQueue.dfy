/**
 * Condition wait queues on top of the scheduler.  A step is one lock-held or interrupt-disabled region, taken by the
 * task that is current or by an interrupt; a run is any interleaving of steps.  The class at the end is the code; each
 * of its methods is one step of the state machine before it.
 */
module WaitQueue {
  import opened Lists
  import opened Options
  import opened Scheduler

  const MAX_TICK: nat := 0xffff_ffff_ffff_ffff

  /**
   * Where a task is. Loop to Leaving are the places in wait_event and wait_event_timeout on this queue; the deadline is
   * absent in the former. Asleep is task_sleep, Elsewhere a wait on another queue, Gone a task that was ended.
   */
  datatype Phase =
    | Outside
    | Asleep
    | Elsewhere
    | Gone
    | Loop(deadline: Option<nat>)
    | AtSchedule(deadline: Option<nat>)
    | Back(deadline: Option<nat>)
    | Leaving(deadline: Option<nat>, ok: bool)

  /** `holds` is what the condition of each task would answer now; it can change both ways at any time. */
  datatype State = State(states: seq<ThreadState>, deadlines: seq<nat>, sleepers: seq<nat>, current: Current,
                         phases: seq<Phase>, queue: seq<nat>, holds: seq<bool>, now: nat)

  /** Who does what: the current task, an interrupt, or code that acts on task t. */
  datatype Op =
    | Preempt
    | Step
    | Begin(ticks: Option<nat>)
    | SetConditions(holds: seq<bool>)
    | WakeOne
    | WakeAll
    | Tick(elapsed: nat)
    | Sleep(deadline: nat)
    | Awake
    | Arm(deadline: nat)
    | Disarm
    | Change(t: nat, state: ThreadState)
    | Exit
    | Kill(t: nat)
    | Create(t: nat)

  /** Inside wait_event or wait_event_timeout on this queue. */
  predicate InWait(p: Phase)
  {
    p.Loop? || p.AtSchedule? || p.Back? || p.Leaving?
  }

  // ------------------------------------------------------------ the state machine

  function Joined(queue: seq<nat>, t: nat): seq<nat>
  {
    if t in queue then queue else queue + [t]
  }

  function Left(queue: seq<nat>, t: nat): seq<nat>
  {
    if t in queue then Without(queue, t) else queue
  }

  function Unblocked(states: seq<ThreadState>, t: nat): seq<ThreadState>
  {
    if t < |states| && states[t] == Blocked then states[t := Runnable] else states
  }

  predicate Expired(d: Option<nat>, now: nat)
  {
    d.Some? && d.value <= now
  }

  function Deadline(now: nat, ticks: Option<nat>): Option<nat>
  {
    if ticks.None? then None else Some(if now + ticks.value < MAX_TICK then now + ticks.value else MAX_TICK)
  }

  /** The current task, if it is inside a wait. */
  predicate Waiting(s: State, t: nat)
  {
    s.current == Slot(t) && t < |s.phases| && t < |s.states| && t < |s.deadlines| && InWait(s.phases[t])
  }

  /** Task t entered the sleep queue. */
  ghost predicate Slept(sleepers: seq<nat>, sleepers': seq<nat>, t: nat)
  {
    forall x :: x in sleepers' <==> x in sleepers || x == t
  }

  /** Task t left the sleep queue. */
  ghost predicate Roused(sleepers: seq<nat>, sleepers': seq<nat>, t: nat)
  {
    forall x :: x in sleepers' <==> x in sleepers && x != t
  }

  /** What a call to schedule() does to the states. */
  ghost predicate Switched(states: seq<ThreadState>, current: Current, states': seq<ThreadState>, current': Current)
  {
    && |states'| == |states| && Start(current) < |states| && Start(current') < |states|
    && Schedules(states, current, current')
    && (current' == current ==> states' == states)
    && (current' != current && current'.Slot? ==> states'[current'.index] == Running)
    && (forall i: nat | i < |states| && current' != Slot(i) ::
          states'[i] == if current == Slot(i) && states[i] == Running then Runnable else states[i])
  }

  /** The condition task t waits for holds. */
  predicate Holds(s: State, t: nat)
  {
    t < |s.holds| && s.holds[t]
  }

  /** The locked region at the head of the retry loop: leave, or link, arm the timeout and block. */
  ghost predicate HeadOfLoop(s: State, s': State, t: nat, d: Option<nat>)
    requires Waiting(s, t)
  {
    if Holds(s, t) || Expired(d, s.now) then
      s' == s.(phases := s.phases[t := Leaving(d, Holds(s, t))], queue := Left(s.queue, t))
    else
      && s'.phases == s.phases[t := AtSchedule(d)] && s'.queue == Joined(s.queue, t)
          && s'.states == s.states[t := Blocked]
      && (if d.Some? then s'.deadlines == s.deadlines[t := d.value] && Slept(s.sleepers, s'.sleepers, t)
          else s'.deadlines == s.deadlines && s'.sleepers == s.sleepers)
      && s'.current == s.current && s'.holds == s.holds && s'.now == s.now
  }

  /** The call to schedule() in the retry loop; it comes back when the task is current again. */
  ghost predicate GiveWay(s: State, s': State, t: nat, d: Option<nat>)
    requires Waiting(s, t)
  {
    && Switched(s.states, s.current, s'.states, s'.current)
    && s' == s.(states := s'.states, current := s'.current, phases := s.phases[t := Back(d)])
  }

  /** The timeout is disarmed, if there is one. */
  ghost predicate Disarm(s: State, s': State, t: nat, d: Option<nat>, p: Phase, queue: seq<nat>)
    requires Waiting(s, t)
  {
    && s'.phases == s.phases[t := p] && s'.queue == queue
    && (if d.Some? then s'.deadlines == s.deadlines[t := 0] && Roused(s.sleepers, s'.sleepers, t)
        else s'.deadlines == s.deadlines && s'.sleepers == s.sleepers)
    && s'.states == s.states && s'.current == s.current && s'.holds == s.holds && s'.now == s.now
  }

  /** The next region of the current task's wait. */
  ghost predicate WaitStep(s: State, s': State, t: nat)
    requires Waiting(s, t)
  {
    match s.phases[t]
    case Loop(d) => HeadOfLoop(s, s', t, d)
    case AtSchedule(d) => GiveWay(s, s', t, d)
    case Back(d) => Disarm(s, s', t, d, Loop(d), s.queue)
    case Leaving(d, _) => Disarm(s, s', t, d, Outside, Left(s.queue, t))
    case _ => false
  }

  predicate OnProcessor(state: ThreadState)
  {
    state == Running || state == Runnable
  }

  /** A task that runs outside any wait may start one. */
  predicate MayBegin(s: State, t: nat)
  {
    s.current == Slot(t) && t < |s.phases| && t < |s.states| && t < |s.deadlines| && s.phases[t].Outside?
        && OnProcessor(s.states[t])
  }

  function Begun(s: State, ticks: Option<nat>): State
  {
    var t := Start(s.current);
    if MayBegin(s, t) && !Holds(s, t) && ticks != Some(0) then s.(phases := s.phases[t := Loop(Deadline(s.now, ticks))])
        else s
  }

  function WokenOne(s: State): State
  {
    if s.queue == [] then s else s.(queue := s.queue[1..], states := Unblocked(s.states, s.queue[0]))
  }

  function WokenAll(s: State): State
    decreases |s.queue|
  {
    if s.queue == [] then s else WokenAll(WokenOne(s))
  }

  /** The timer interrupt: exactly the tasks whose deadline has passed leave the sleep queue, runnable. */
  ghost predicate Ticked(s: State, s': State)
  {
    && s' == s.(now := s'.now, sleepers := s'.sleepers, states := s'.states) && |s'.states| == |s.states|
    && (forall t :: t in s'.sleepers <==> t in s.sleepers && !Due(s.sleepers, s.deadlines, s'.now, t))
    && (forall t: nat | t < |s.states| ::
          s'.states[t] == if Due(s.sleepers, s.deadlines, s'.now, t) then Runnable else s.states[t])
  }

  /** task_sleep: the current task enters the sleep queue and stops being runnable. */
  ghost predicate FallsAsleep(s: State, s': State, t: nat, deadline: nat)
    requires MayBegin(s, t)
  {
    && s' == s.(states := s.states[t := Sleeping], deadlines := s.deadlines[t := deadline],
        phases := s.phases[t := Asleep], sleepers := s'.sleepers)
    && Slept(s.sleepers, s'.sleepers, t)
  }

  /** The end of the loop in task_sleep. */
  predicate MayAwake(s: State, t: nat)
  {
    s.current == Slot(t) && t < |s.phases| && t < |s.states| && s.phases[t].Asleep? && s.states[t] != Sleeping
  }

  predicate MayArm(s: State, t: nat)
  {
    s.current == Slot(t) && t < |s.phases| && t < |s.states| && t < |s.deadlines|
        && (s.phases[t].Outside? || s.phases[t].Elsewhere?)
  }

  /** A timed wait on another queue, which uses the same sleep queue. */
  ghost predicate Arms(s: State, s': State, t: nat, deadline: nat)
    requires MayArm(s, t)
  {
    && s' == s.(deadlines := s.deadlines[t := deadline], phases := s.phases[t := Elsewhere], sleepers := s'.sleepers)
    && Slept(s.sleepers, s'.sleepers, t)
  }

  predicate MayDisarm(s: State, t: nat)
  {
    s.current == Slot(t) && t < |s.phases| && t < |s.states| && t < |s.deadlines| && s.phases[t].Elsewhere?
  }

  /** The end of a wait on another queue. */
  ghost predicate Disarms(s: State, s': State, t: nat)
    requires MayDisarm(s, t)
  {
    && s' == s.(deadlines := s.deadlines[t := 0], phases := s.phases[t := Outside], sleepers := s'.sleepers)
    && Roused(s.sleepers, s'.sleepers, t)
  }

  /**
   * States other code may give a task: anything but Running outside this queue, and only end states once it is gone.
   */
  predicate MayChange(s: State, t: nat, state: ThreadState)
  {
    && t < |s.phases| && t < |s.states| && state != Running
    && (s.phases[t].Outside? || s.phases[t].Elsewhere? || (s.phases[t].Gone? && Ended(state)))
  }

  predicate Ended(state: ThreadState)
  {
    state == Zombie || state == Dead || state == Unused
  }

  predicate MayKill(s: State, t: nat)
  {
    t < |s.phases| && t < |s.states| && t < |s.deadlines| && s.current != Slot(t)
  }

  /** process_exit ends another thread: out of the sleep queue, but not out of a wait queue. */
  ghost predicate Kills(s: State, s': State, t: nat)
    requires MayKill(s, t)
  {
    && s' == s.(states := s.states[t := Zombie], deadlines := s.deadlines[t := 0], phases := s.phases[t := Gone],
        sleepers := s'.sleepers)
    && Roused(s.sleepers, s'.sleepers, t)
  }

  /** A slot can be used for a new thread once no entry of its old one is left. */
  predicate MayCreate(s: State, t: nat)
  {
    t < |s.phases| && t < |s.states| && s.phases[t].Gone? && t !in s.queue
  }

  ghost predicate Next(op: Op, s: State, s': State)
  {
    match op
    case Preempt =>
        Switched(s.states, s.current, s'.states, s'.current) && s' == s.(states := s'.states, current := s'.current)
    case Step => if Waiting(s, Start(s.current)) then WaitStep(s, s', Start(s.current)) else s' == s
    case Begin(ticks) => s' == Begun(s, ticks)
    case SetConditions(holds) => s' == s.(holds := holds)
    case WakeOne => s' == WokenOne(s)
    case WakeAll => s' == WokenAll(s)
    case Tick(elapsed) => s'.now == s.now + elapsed && Ticked(s, s')
    case Sleep(deadline) =>
        if MayBegin(s, Start(s.current)) then FallsAsleep(s, s', Start(s.current), deadline) else s' == s
    case Awake =>
      var t := Start(s.current);
      s' == if MayAwake(s, t) then s.(states := s.states[t := Running], phases := s.phases[t := Outside]) else s
    case Arm(deadline) => if MayArm(s, Start(s.current)) then Arms(s, s', Start(s.current), deadline) else s' == s
    case Disarm => if MayDisarm(s, Start(s.current)) then Disarms(s, s', Start(s.current)) else s' == s
    case Change(t, state) => s' == if MayChange(s, t, state) then s.(states := s.states[t := state]) else s
    case Exit =>
      var t := Start(s.current);
      s' == if MayBegin(s, t) then s.(states := s.states[t := Zombie], phases := s.phases[t := Gone]) else s
    case Kill(t) => if MayKill(s, t) then Kills(s, s', t) else s' == s
    case Create(t) =>
        s' == if MayCreate(s, t) then s.(states := s.states[t := Runnable], phases := s.phases[t := Outside]) else s
  }

  ghost predicate Trace(ops: seq<Op>, ss: seq<State>)
  {
    |ss| == |ops| + 1 && forall i, j | 0 <= i < |ops| && j == i + 1 :: Next(ops[i], ss[i], ss[j])
  }

  // ------------------------------------------------------------ what every step keeps

  ghost predicate TaskOk(s: State, t: nat)
    requires t < |s.states| && t < |s.phases|
  {
    var p, state := s.phases[t], s.states[t];
    && (t in s.queue ==> p.Loop? || p.AtSchedule? || p.Back? || p.Gone?)
    && (t in s.sleepers ==> ((p.AtSchedule? || p.Back?) && p.deadline.Some?) || p.Asleep? || p.Elsewhere?)
    && (state == Blocked && (p.AtSchedule? || p.Back?) ==> t in s.queue)
    && (state == Blocked ==> !p.Loop? && !p.Leaving?)
    && (state == Blocked && s.current == Slot(t) ==> !p.Back?)
    && (p.Leaving? ==> p.ok || Expired(p.deadline, s.now))
    && (InWait(p) ==> OnProcessor(state) || state == Blocked)
    && (p.Asleep? ==> (t in s.sleepers <==> state == Sleeping) && state != Blocked)
    && (p.Gone? ==> Ended(state))
    && (state == Running ==> s.current == Slot(t))
  }

  ghost predicate Consistent(s: State)
  {
    && |s.phases| == |s.states| == |s.deadlines| && Start(s.current) < |s.states| && NoDup(s.queue)
        && (forall i | 0 <= i < |s.queue| :: s.queue[i] < |s.states|)
    && (forall t: nat | t < |s.states| :: TaskOk(s, t))
  }

  /** Blocked on the wait queue. */
  ghost predicate Stuck(s: State, t: nat)
  {
    t < |s.states| && t < |s.phases| && s.states[t] == Blocked && InWait(s.phases[t])
  }

  ghost predicate NoneStuck(s: State)
  {
    forall t: nat :: !Stuck(s, t)
  }

  /** A step blocks a task on the queue only if its condition does not hold. */
  ghost predicate NotNewlyStuck(s: State, s': State)
  {
    forall t: nat | Stuck(s', t) :: Stuck(s, t) || !Holds(s, t)
  }

  lemma NobodyNew(s: State, s': State)
    ensures s' == s || NoneStuck(s') ==> NotNewlyStuck(s, s')
  {
  }

  lemma JoinedMembers(queue: seq<nat>, t: nat)
    requires NoDup(queue)
    ensures NoDup(Joined(queue, t)) && forall x :: x in Joined(queue, t) <==> x in queue || x == t
  {
  }

  lemma LeftMembers(queue: seq<nat>, t: nat)
    requires NoDup(queue)
    ensures NoDup(Left(queue, t)) && forall x :: x in Left(queue, t) <==> x in queue && x != t
  {
    hide NoDup, Without;
    if t in queue {
      WithoutMembers(queue, t);
    }
  }

  /** Only task t changed: its phase, its state and its places in the two queues. */
  lemma OwnStep(s: State, s': State, t: nat)
    requires Consistent(s) && t < |s.states| == |s'.states| == |s'.phases| == |s'.deadlines|
    requires NoDup(s'.queue) && (forall x: nat | x != t :: x in s'.queue <==> x in s.queue)
    requires forall x: nat | x != t :: x in s'.sleepers <==> x in s.sleepers
    requires forall x: nat | x < |s.states| && x != t :: s'.states[x] == s.states[x] && s'.phases[x] == s.phases[x]
    requires s'.current == s.current && s'.holds == s.holds && s'.now == s.now && TaskOk(s', t)
    ensures Consistent(s')
    ensures s'.states[t] != Blocked || !InWait(s'.phases[t]) || !Holds(s, t) || Stuck(s, t) ==> NotNewlyStuck(s, s')
  {
    forall i | 0 <= i < |s'.queue|
      ensures s'.queue[i] < |s'.states|
    {
      assert s'.queue[i] == t || s'.queue[i] in s.queue;
    }
    forall x: nat | x < |s'.states|
      ensures TaskOk(s', x) && (Stuck(s', x) && x != t ==> Stuck(s, x))
    {
      assert TaskOk(s, x);
    }
  }

  /** A step of the current task keeps the order of both queues; it blocks only if the condition does not hold. */
  lemma WaitStepKeeps(s: State, s': State, t: nat)
    requires Consistent(s) && Waiting(s, t) && WaitStep(s, s', t)
    ensures Consistent(s') && s'.holds == s.holds && NotNewlyStuck(s, s')
  {
    hide Consistent, NotNewlyStuck, NoneStuck, NoDup, Without, Switched;
    TaskIn(s, t);
    JoinedMembers(s.queue, t);
    LeftMembers(s.queue, t);
    if s.phases[t].AtSchedule? {
      SwitchKeeps(s, s');
    } else {
      OwnStep(s, s', t);
    }
  }

  lemma TaskIn(s: State, t: nat)
    requires Consistent(s) && t < |s.states|
    ensures t < |s.phases| && TaskOk(s, t) && NoDup(s.queue) && |s.phases| == |s.states| == |s.deadlines|
  {
  }

  /** schedule(), called in the retry loop or from anywhere else: nobody returns from it blocked. */
  lemma SwitchKeeps(s: State, s': State)
    requires Consistent(s) && Switched(s.states, s.current, s'.states, s'.current)
    requires s' == s.(states := s'.states, current := s'.current, phases := s'.phases) && |s'.phases| == |s.phases|
    requires forall t: nat | t < |s.phases| ::
               s'.phases[t] == s.phases[t]
                   || (s.current == Slot(t) && s.phases[t].AtSchedule? && s'.phases[t] == Back(s.phases[t].deadline))
    ensures Consistent(s') && NotNewlyStuck(s, s')
  {
    SwitchUnblocks(s.states, s.current, s'.states, s'.current);
    forall t: nat | t < |s'.states|
      ensures TaskOk(s', t) && (Stuck(s', t) ==> Stuck(s, t))
    {
      assert TaskOk(s, t);
    }
  }

  lemma SwitchUnblocks(states: seq<ThreadState>, current: Current, states': seq<ThreadState>, current': Current)
    requires Switched(states, current, states', current')
    ensures forall t: nat | t < |states| :: states'[t] == Blocked ==> states[t] == Blocked
    ensures current'.Slot? ==> states'[current'.index] != Blocked
  {
  }

  lemma BegunKeeps(s: State, ticks: Option<nat>)
    requires Consistent(s)
    ensures var s' := Begun(s, ticks); Consistent(s') && s'.holds == s.holds && NotNewlyStuck(s, s')
  {
    hide Consistent, NotNewlyStuck, NoneStuck, NoDup;
    var t := Start(s.current);
    NobodyNew(s, Begun(s, ticks));
    if MayBegin(s, t) && !Holds(s, t) && ticks != Some(0) {
      TaskIn(s, t);
      OwnStep(s, Begun(s, ticks), t);
    }
  }

  lemma WokenOneKeeps(s: State)
    requires Consistent(s)
    ensures var s' := WokenOne(s); Consistent(s') && s'.holds == s.holds && NotNewlyStuck(s, s')
  {
    hide Consistent, NotNewlyStuck, NoneStuck, NoDup;
    NobodyNew(s, WokenOne(s));
    if s.queue != [] {
      FirstTask(s);
      OwnStep(s, WokenOne(s), s.queue[0]);
    }
  }

  lemma FirstTask(s: State)
    requires Consistent(s) && s.queue != []
    ensures s.queue[0] < |s.states| == |s.phases| == |s.deadlines| && TaskOk(s, s.queue[0]) && NoDup(s.queue[1..])
    ensures s.queue[0] !in s.queue[1..] && forall x :: x in s.queue <==> x == s.queue[0] || x in s.queue[1..]
  {
    FirstIn(s.queue);
  }

  lemma FirstIn(queue: seq<nat>)
    requires NoDup(queue) && queue != []
    ensures queue[0] !in queue[1..] && NoDup(queue[1..]) && forall x :: x in queue <==> x == queue[0] || x in queue[1..]
  {
    assert queue == [queue[0]] + queue[1..];
  }

  /** After wake_all nobody is blocked on the queue. */
  lemma {:induction false} WokenAllSettles(s: State)
    requires Consistent(s)
    ensures var s' := WokenAll(s); Consistent(s') && s'.holds == s.holds && s'.queue == [] && NoneStuck(s')
    decreases |s.queue|
  {
    hide NoDup;
    if s.queue == [] {
      forall t: nat
        ensures !Stuck(s, t)
      {
        assert t < |s.states| ==> TaskOk(s, t);
      }
    } else {
      WokenOneKeeps(s);
      WokenAllSettles(WokenOne(s));
    }
  }

  lemma TickedKeeps(s: State, s': State)
    requires Consistent(s) && Ticked(s, s') && s.now <= s'.now
    ensures Consistent(s') && NotNewlyStuck(s, s')
  {
    hide NoDup;
    forall t: nat | t < |s'.states|
      ensures TaskOk(s', t) && (Stuck(s', t) ==> Stuck(s, t))
    {
      assert TaskOk(s, t);
    }
  }

  lemma SetConditionsKeeps(s: State, holds: seq<bool>)
    requires Consistent(s)
    ensures Consistent(s.(holds := holds)) && NotNewlyStuck(s, s.(holds := holds))
  {
    hide NoDup;
    var s' := s.(holds := holds);
    forall t: nat | t < |s'.states|
      ensures TaskOk(s', t) && (Stuck(s', t) ==> Stuck(s, t))
    {
      assert TaskOk(s, t);
    }
  }

  /** A step that only touches task t and leaves it outside this queue's waits. */
  lemma OutsideKeeps(s: State, s': State, t: nat)
    requires Consistent(s) && t < |s.states| == |s'.states| == |s'.phases| == |s'.deadlines| && TaskOk(s', t)
    requires !InWait(s'.phases[t])
    requires s' == s.(states := s.states[t := s'.states[t]], deadlines := s'.deadlines,
              phases := s.phases[t := s'.phases[t]], sleepers := s'.sleepers)
    requires forall x: nat | x != t :: x in s'.sleepers <==> x in s.sleepers
    ensures Consistent(s') && NotNewlyStuck(s, s')
  {
    hide Consistent, NotNewlyStuck, NoneStuck, NoDup;
    TaskIn(s, t);
    OwnStep(s, s', t);
  }

  /** Sleeping and waiting elsewhere. */
  lemma SleepingKeeps(op: Op, s: State, s': State)
    requires Consistent(s) && Next(op, s, s') && (op.Sleep? || op.Awake? || op.Arm? || op.Disarm?)
    ensures Consistent(s') && s'.holds == s.holds && NotNewlyStuck(s, s')
  {
    hide Consistent, NotNewlyStuck, NoneStuck, NoDup;
    NobodyNew(s, s');
    if s' != s {
      TaskIn(s, Start(s.current));
      OutsideKeeps(s, s', Start(s.current));
    }
  }

  /** The beginning and end of threads, and what other code does to their states. */
  lemma ThreadsKeep(op: Op, s: State, s': State)
    requires Consistent(s) && Next(op, s, s') && (op.Change? || op.Exit? || op.Kill? || op.Create?)
    ensures Consistent(s') && s'.holds == s.holds && NotNewlyStuck(s, s')
  {
    hide Consistent, NotNewlyStuck, NoneStuck, NoDup;
    NobodyNew(s, s');
    if s' != s {
      var t := if op.Exit? then Start(s.current) else op.t;
      TaskIn(s, t);
      OutsideKeeps(s, s', t);
    }
  }

  /** Every step keeps the invariant, and blocks a task on the queue only if its condition does not hold. */
  lemma NextKeeps(op: Op, s: State, s': State)
    requires Consistent(s) && Next(op, s, s')
    ensures Consistent(s') && NotNewlyStuck(s, s')
  {
    hide Consistent, NotNewlyStuck, NoneStuck, Switched, Ticked, WaitStep, WokenOne, WokenAll, Begun;
    match op
    case Preempt => SwitchKeeps(s, s');
    case Step =>
      if Waiting(s, Start(s.current)) {
        WaitStepKeeps(s, s', Start(s.current));
      } else {
        NobodyNew(s, s');
      }
    case Begin(ticks) => BegunKeeps(s, ticks);
    case SetConditions(holds) => SetConditionsKeeps(s, holds);
    case WakeOne => WokenOneKeeps(s);
    case WakeAll =>
      WokenAllSettles(s);
      NobodyNew(s, s');
    case Tick(_) =>
      TickedIs(s, s');
      TickedKeeps(s, s');
    case Sleep(_) => SleepingKeeps(op, s, s');
    case Awake => SleepingKeeps(op, s, s');
    case Arm(_) => SleepingKeeps(op, s, s');
    case Disarm => SleepingKeeps(op, s, s');
    case _ => ThreadsKeep(op, s, s');
  }

  lemma TickedIs(s: State, s': State)
    requires Ticked(s, s')
    ensures s'.holds == s.holds
  {
  }

  // ------------------------------------------------------------ whole runs

  lemma {:induction false} TraceKeeps(ops: seq<Op>, ss: seq<State>, k: nat)
    requires Trace(ops, ss) && Consistent(ss[0]) && k < |ss|
    ensures Consistent(ss[k])
  {
    hide Consistent, Next;
    if k > 0 {
      TraceKeeps(ops, ss, k - 1);
      NextKeeps(ops[k - 1], ss[k - 1], ss[k]);
    }
  }

  /** The condition task t waits for holds from state a to state b. */
  ghost predicate HoldsFrom(ss: seq<State>, t: nat, a: nat, b: nat)
  {
    forall k | a <= k <= b && k < |ss| :: Holds(ss[k], t)
  }

  /**
   * No wakeup is lost: in every interleaving, a task whose condition holds from a wake_all on is never again blocked on
   * the queue.
   */
  lemma {:induction false} NoLostWakeup(ops: seq<Op>, ss: seq<State>, j: nat, k: nat, t: nat)
    requires Trace(ops, ss) && Consistent(ss[0]) && j < k < |ss| && ops[j] == WakeAll && HoldsFrom(ss, t, j + 1, k - 1)
    ensures !Stuck(ss[k], t)
    decreases k
  {
    hide Consistent, Stuck, WokenAll, Holds;
    TraceKeeps(ops, ss, k - 1);
    if k == j + 1 {
      assert Next(ops[j], ss[j], ss[k]);
      WokenAllSettles(ss[j]);
    } else {
      NoLostWakeup(ops, ss, j, k - 1, t);
      assert Next(ops[k - 1], ss[k - 1], ss[k]);
      NextKeeps(ops[k - 1], ss[k - 1], ss[k]);
      assert Holds(ss[k - 1], t);
    }
  }

  /** A task leaves its wait with the result true only if its condition held in the region in which it decided so. */
  lemma {:induction false} ResultIsRight(ops: seq<Op>, ss: seq<State>, k: nat, t: nat)
    requires Trace(ops, ss) && Consistent(ss[0]) && k < |ss| && t < |ss[0].phases| && !ss[0].phases[t].Leaving?
    ensures t < |ss[k].phases| && (ss[k].phases[t].Leaving? && ss[k].phases[t].ok ==>
              exists i :: 0 <= i < k && ss[i].current == Slot(t) && Holds(ss[i], t))
  {
    hide Consistent, Next, Holds;
    if k > 0 {
      ResultIsRight(ops, ss, k - 1, t);
      TraceKeeps(ops, ss, k - 1);
      LeavesRight(ops[k - 1], ss[k - 1], ss[k], t);
    }
  }

  lemma LeavesRight(op: Op, s: State, s': State, t: nat)
    requires Consistent(s) && Next(op, s, s') && t < |s.phases|
    ensures t < |s'.phases|
    ensures s'.phases[t].Leaving? && s'.phases[t].ok ==>
              s.phases[t] == s'.phases[t] || (s.current == Slot(t) && Holds(s, t))
  {
    hide NoDup, TaskOk, Due, Schedules, WokenAll, Joined, Left;
    WokenAllKeeps(s);
  }

  /**
   * On every return path the entry has left the wait queue and the task the sleep queue, until it sleeps or waits
   * elsewhere itself; and even then it is not in this queue.
   */
  lemma ReturnedClean(ops: seq<Op>, ss: seq<State>, k: nat, t: nat)
    requires Trace(ops, ss) && Consistent(ss[0]) && k < |ss| && t < |ss[k].phases|
    ensures ss[k].phases[t].Outside? ==> t !in ss[k].queue && t !in ss[k].sleepers
    ensures ss[k].phases[t].Asleep? || ss[k].phases[t].Elsewhere? ==> t !in ss[k].queue
  {
    hide Next, NoDup;
    TraceKeeps(ops, ss, k);
    assert TaskOk(ss[k], t);
  }

  /** A task that is ended while it waits leaves its entry behind; no other task outside a wait does. */
  lemma StrayEntry(ops: seq<Op>, ss: seq<State>, k: nat, t: nat)
    requires Trace(ops, ss) && Consistent(ss[0]) && k < |ops| && t < |ss[k].phases|
    ensures t in ss[k].queue && !InWait(ss[k].phases[t]) ==> ss[k].phases[t].Gone?
    ensures ops[k] == Kill(t) && MayKill(ss[k], t) ==> ss[k + 1].phases[t].Gone? && ss[k + 1].queue == ss[k].queue
  {
    hide NoDup;
    TraceKeeps(ops, ss, k);
    assert TaskOk(ss[k], t);
    assert Next(ops[k], ss[k], ss[k + 1]);
  }

  /** The entry wake_one takes belongs to a thread that was ended. */
  predicate Wasted(s: State)
  {
    s.queue != [] && s.queue[0] < |s.phases| && s.phases[s.queue[0]].Gone?
  }

  /**
   * A wake_one is lost exactly if the first entry is a stray one: then nobody's state changes, and who was blocked
   * stays so. Otherwise the task of the first entry is inside its wait and not blocked afterwards.
   */
  lemma LostWakeIff(s: State)
    requires Consistent(s) && s.queue != []
    ensures var t, s' := s.queue[0], WokenOne(s);
            && (Wasted(s) <==> !(t < |s.phases| && InWait(s'.phases[t]) && !Stuck(s', t)))
            && (Wasted(s) ==> s'.states == s.states && forall x: nat :: Stuck(s', x) <==> Stuck(s, x))
  {
    hide NoDup;
    var t := s.queue[0];
    assert TaskOk(s, t);
  }

  /** Each stray entry costs one wake_one: so many are lost before a waiter is reached. */
  function Strays(s: State): nat
    decreases |s.queue|
  {
    if Wasted(s) then 1 + Strays(WokenOne(s)) else 0
  }

  ghost function WokenTimes(s: State, n: nat): State
    decreases n
  {
    if n == 0 then s else WokenTimes(WokenOne(s), n - 1)
  }

  /** Exactly the first so many calls of wake_one leave every blocked task blocked. */
  lemma {:induction false} LostWakes(s: State, n: nat)
    requires Consistent(s)
    ensures n <= Strays(s) ==> WokenTimes(s, n).states == s.states && Consistent(WokenTimes(s, n))
    ensures n < Strays(s) <==> n <= Strays(s) && Wasted(WokenTimes(s, n))
    decreases n
  {
    hide Consistent;
    if n > 0 && Wasted(s) {
      WokenOneKeeps(s);
      LostWakeIff(s);
      LostWakes(WokenOne(s), n - 1);
    }
  }

  /** Regions a task still has to pass once its condition holds and it is not blocked. */
  function StepsLeft(p: Phase): nat
  {
    match p
    case AtSchedule(_) => 4
    case Back(_) => 3
    case Loop(_) => 2
    case Leaving(_, _) => 1
    case _ => 0
  }

  /**
   * For instance: task 0 starts task 1 and waits, task 1 ends it, and task 0 is still in the queue. Then task 1 waits
   * too; its condition comes to hold, but the wake_one that goes with it takes the entry of task 0.
   */
  const STRAY: seq<Op> := [Change(1, Runnable), Begin(None), Step, Step, Kill(0), Begin(None), Step,
      SetConditions([false, true]), WakeOne]

  function StrayAt(k: nat): State
  {
    if k == 0 then State([Running, Unused], [0, 0], [], Slot(0), [Outside, Outside], [], [false, false], 0)
    else if k == 1 then State([Running, Runnable], [0, 0], [], Slot(0), [Outside, Outside], [], [false, false], 0)
    else if k == 2 then State([Running, Runnable], [0, 0], [], Slot(0), [Loop(None), Outside], [], [false, false], 0)
    else if k == 3 then State([Blocked, Runnable], [0, 0], [], Slot(0), [AtSchedule(None), Outside], [0],
        [false, false], 0)
    else if k == 4 then State([Blocked, Running], [0, 0], [], Slot(1), [Back(None), Outside], [0], [false, false], 0)
    else if k == 5 then State([Zombie, Running], [0, 0], [], Slot(1), [Gone, Outside], [0], [false, false], 0)
    else if k == 6 then State([Zombie, Running], [0, 0], [], Slot(1), [Gone, Loop(None)], [0], [false, false], 0)
    else State([Zombie, Blocked], [0, 0], [], Slot(1), [Gone, AtSchedule(None)], if k == 9 then [1] else [0, 1],
        [false, k >= 8], 0)
  }

  lemma StrayBegins()
    ensures Next(STRAY[0], StrayAt(0), StrayAt(1)) && Next(STRAY[1], StrayAt(1), StrayAt(2))
  {
    assert StrayAt(0).states[1 := Runnable] == StrayAt(1).states;
    assert StrayAt(1).phases[0 := Loop(None)] == StrayAt(2).phases;
  }

  lemma StrayBlocks()
    ensures Next(STRAY[2], StrayAt(2), StrayAt(3))
  {
    var s, s' := StrayAt(2), StrayAt(3);
    assert Waiting(s, 0) && s.phases[0] == Loop(None);
    assert s.phases[0 := AtSchedule(None)] == s'.phases && s.states[0 := Blocked] == s'.states;
    assert Joined(s.queue, 0) == s'.queue;
  }

  lemma StraySwitches()
    ensures Next(STRAY[3], StrayAt(3), StrayAt(4))
  {
    var s, s' := StrayAt(3), StrayAt(4);
    assert Waiting(s, 0) && s.phases[0] == AtSchedule(None);
    assert s.phases[0 := Back(None)] == s'.phases;
    assert s.states[1] == Runnable && s.states[0] == Blocked;
    assert Switched(s.states, s.current, s'.states, s'.current);
  }

  lemma StrayEnds()
    ensures Next(STRAY[4], StrayAt(4), StrayAt(5))
  {
    var s, s' := StrayAt(4), StrayAt(5);
    assert s.states[0 := Zombie] == s'.states && s.deadlines[0 := 0] == s'.deadlines
        && s.phases[0 := Gone] == s'.phases;
  }

  lemma SecondWaits()
    ensures Next(STRAY[5], StrayAt(5), StrayAt(6)) && Next(STRAY[6], StrayAt(6), StrayAt(7))
  {
    assert StrayAt(5).phases[1 := Loop(None)] == StrayAt(6).phases;
    var s, s' := StrayAt(6), StrayAt(7);
    assert Waiting(s, 1) && s.phases[1] == Loop(None);
    assert s.phases[1 := AtSchedule(None)] == s'.phases && s.states[1 := Blocked] == s'.states;
    assert Joined(s.queue, 1) == s'.queue;
  }

  lemma SecondMissed()
    ensures Next(STRAY[7], StrayAt(7), StrayAt(8)) && Next(STRAY[8], StrayAt(8), StrayAt(9)) && Wasted(StrayAt(8))
  {
  }

  lemma StrayExample()
    ensures Trace(STRAY, seq(10, k requires 0 <= k < 10 => StrayAt(k)))
    ensures Consistent(StrayAt(0)) && StrayAt(5).queue == [0] && StrayAt(5).phases[0].Gone?
    ensures Wasted(StrayAt(8)) && Holds(StrayAt(9), 1) && Stuck(StrayAt(9), 1)
  {
    hide Next;
    StrayBegins();
    StrayBlocks();
    StraySwitches();
    StrayEnds();
    SecondWaits();
    SecondMissed();
  }

  /** While its condition holds, every step of a waiting task brings it nearer to returning true. */
  lemma Progress(s: State, s': State, t: nat)
    requires Waiting(s, t) && Holds(s, t) && WaitStep(s, s', t)
    ensures t < |s'.phases| && StepsLeft(s'.phases[t]) < StepsLeft(s.phases[t])
    ensures s.phases[t].Loop? ==> s'.phases[t] == Leaving(s.phases[t].deadline, true)
  {
  }

  // ------------------------------------------------------------ timed waits

  /** Task t starts to wait at state i, for n ticks if a timeout is given; its condition does not hold. */
  ghost predicate StartsWait(ops: seq<Op>, ss: seq<State>, i: nat, t: nat, ticks: Option<nat>)
  {
    && i < |ops| < |ss| && ops[i] == Begin(ticks) && MayBegin(ss[i], t) && !Holds(ss[i], t) && ticks != Some(0)
  }

  /** It is still in that wait up to state k. */
  ghost predicate StillWaits(ss: seq<State>, t: nat, i: nat, k: nat)
  {
    i < k < |ss| && forall x | i < x <= k :: t < |ss[x].phases| && InWait(ss[x].phases[t])
  }

  /** The time asked for has passed, or the clock is at its end. */
  predicate TimeIsUp(start: nat, n: nat, now: nat)
  {
    now >= start + n || now >= 0xffff_ffff_ffff_ffff
  }

  lemma ExpiredIs(start: nat, ticks: Option<nat>, now: nat)
    ensures Expired(Deadline(start, ticks), now) <==> ticks.Some? && TimeIsUp(start, ticks.value, now)
  {
  }

  /** What a task in a wait was given when it started. */
  lemma {:induction false} KeepsDeadline(ops: seq<Op>, ss: seq<State>, i: nat, k: nat, t: nat, ticks: Option<nat>)
    requires Trace(ops, ss) && Consistent(ss[0]) && StartsWait(ops, ss, i, t, ticks) && StillWaits(ss, t, i, k)
    ensures ss[k].phases[t].deadline == Deadline(ss[i].now, ticks)
    decreases k
  {
    hide Consistent, Deadline;
    TraceKeeps(ops, ss, k - 1);
    assert Next(ops[k - 1], ss[k - 1], ss[k]);
    if k > i + 1 {
      KeepsDeadline(ops, ss, i, k - 1, t, ticks);
      SameDeadline(ops[k - 1], ss[k - 1], ss[k], t);
    }
  }

  lemma SameDeadline(op: Op, s: State, s': State, t: nat)
    requires Consistent(s) && Next(op, s, s') && t < |s.phases| && t < |s'.phases|
    requires InWait(s.phases[t]) && InWait(s'.phases[t])
    ensures s'.phases[t].deadline == s.phases[t].deadline
  {
    hide NoDup, TaskOk, Due, Schedules, WokenAll, Joined, Left, Deadline;
    WokenAllKeeps(s);
  }

  /**
   * What a timed wait returns, in every interleaving: the region in which task t decides leaves with true exactly if
   * the condition holds there, with false exactly if it does not and the ticks asked for have passed since the start of
   * the wait, and otherwise blocks. A wait without a timeout never returns false.
   */
  lemma TimedResult(ops: seq<Op>, ss: seq<State>, i: nat, k: nat, t: nat, ticks: Option<nat>)
    requires Trace(ops, ss) && Consistent(ss[0]) && StartsWait(ops, ss, i, t, ticks) && StillWaits(ss, t, i, k)
    requires k < |ops| && ops[k] == Step && ss[k].current == Slot(t) && ss[k].phases[t].Loop?
    ensures t < |ss[k + 1].phases| && t < |ss[k + 1].states|
    ensures ss[k + 1].phases[t].Leaving? && ss[k + 1].phases[t].ok <==> Holds(ss[k], t)
    ensures ss[k + 1].phases[t].Leaving? && !ss[k + 1].phases[t].ok <==>
              !Holds(ss[k], t) && ticks.Some? && TimeIsUp(ss[i].now, ticks.value, ss[k].now)
    ensures !ss[k + 1].phases[t].Leaving? ==> ss[k + 1].phases[t].AtSchedule? && ss[k + 1].states[t] == Blocked
  {
    hide Consistent, Deadline, Expired;
    KeepsDeadline(ops, ss, i, k, t, ticks);
    ExpiredIs(ss[i].now, ticks, ss[k].now);
    TraceKeeps(ops, ss, k);
    SizeOf(ss[k]);
    assert Next(ops[k], ss[k], ss[k + 1]);
  }

  /**
   * And only in such a region: who is about to return false has waited that long, and decided while its condition
   * failed.
   */
  lemma {:induction false} FalseIsLate(ops: seq<Op>, ss: seq<State>, i: nat, k: nat, t: nat, ticks: Option<nat>)
    requires Trace(ops, ss) && Consistent(ss[0]) && StartsWait(ops, ss, i, t, ticks) && StillWaits(ss, t, i, k)
    requires ss[k].phases[t].Leaving? && !ss[k].phases[t].ok
    ensures ticks.Some? && TimeIsUp(ss[i].now, ticks.value, ss[k].now)
    ensures exists x :: i < x < k && ss[x].current == Slot(t) && !Holds(ss[x], t)
                        && TimeIsUp(ss[i].now, ticks.value, ss[x].now)
    decreases k
  {
    hide Consistent, Deadline, TimeIsUp;
    TraceKeeps(ops, ss, k - 1);
    SizeOf(ss[k - 1]);
    assert Next(ops[k - 1], ss[k - 1], ss[k]);
    ClockRuns(ops[k - 1], ss[k - 1], ss[k]);
    StartIsLoop(ops, ss, i, t, ticks);
    if ss[k - 1].phases[t].Leaving? {
      StaysLeaving(ops[k - 1], ss[k - 1], ss[k], t);
      FalseIsLate(ops, ss, i, k - 1, t, ticks);
      StillUp(ss[i].now, ticks.value, ss[k - 1].now, ss[k].now);
    } else {
      BecomesLeaving(ops[k - 1], ss[k - 1], ss[k], t);
      TimedResult(ops, ss, i, k - 1, t, ticks);
      StillUp(ss[i].now, ticks.value, ss[k - 1].now, ss[k].now);
    }
  }

  lemma StillUp(start: nat, n: nat, now: nat, now': nat)
    requires TimeIsUp(start, n, now) && now <= now'
    ensures TimeIsUp(start, n, now')
  {
  }

  lemma ClockRuns(op: Op, s: State, s': State)
    requires Next(op, s, s')
    ensures s.now <= s'.now
  {
    hide Due, Schedules, WokenAll, Joined, Left, Deadline;
    WokenAllKeeps(s);
  }

  lemma StartIsLoop(ops: seq<Op>, ss: seq<State>, i: nat, t: nat, ticks: Option<nat>)
    requires Trace(ops, ss) && StartsWait(ops, ss, i, t, ticks)
    ensures t < |ss[i + 1].phases| && ss[i + 1].phases[t].Loop?
  {
    hide Deadline;
    assert Next(ops[i], ss[i], ss[i + 1]);
  }

  lemma StaysLeaving(op: Op, s: State, s': State, t: nat)
    requires Consistent(s) && Next(op, s, s') && t < |s.phases| && t < |s'.phases|
    requires s.phases[t].Leaving? && s'.phases[t].Leaving?
    ensures s'.phases[t] == s.phases[t]
  {
    hide NoDup, TaskOk, Due, Schedules, WokenAll, Joined, Left, Deadline;
    WokenAllKeeps(s);
  }

  lemma BecomesLeaving(op: Op, s: State, s': State, t: nat)
    requires Consistent(s) && Next(op, s, s') && t < |s.phases| && t < |s'.phases|
    requires !s.phases[t].Leaving? && s'.phases[t].Leaving?
    ensures op == Step && s.current == Slot(t) && s.phases[t].Loop?
  {
    hide NoDup, TaskOk, Due, Schedules, WokenAll, Joined, Left, Deadline;
    WokenAllKeeps(s);
  }

  /** A task blocked in a timed wait is in the sleep queue, under the deadline of its wait. */
  ghost predicate Armed(s: State, t: nat)
  {
    Stuck(s, t) && s.phases[t].deadline.Some? ==>
      t in s.sleepers && t < |s.deadlines| && s.deadlines[t] == s.phases[t].deadline.value
  }

  ghost predicate AllArmed(s: State)
  {
    forall t: nat :: Armed(s, t)
  }

  lemma {:induction false} TraceArmed(ops: seq<Op>, ss: seq<State>, k: nat)
    requires Trace(ops, ss) && Consistent(ss[0]) && AllArmed(ss[0]) && k < |ss|
    ensures AllArmed(ss[k])
  {
    hide Consistent, Next, Armed;
    if k > 0 {
      TraceArmed(ops, ss, k - 1);
      TraceKeeps(ops, ss, k - 1);
      forall t: nat
        ensures Armed(ss[k], t)
      {
        NextArmed(ops[k - 1], ss[k - 1], ss[k], t);
      }
    }
  }

  lemma NextArmed(op: Op, s: State, s': State, t: nat)
    requires Consistent(s) && Next(op, s, s') && Armed(s, t)
    ensures Armed(s', t)
  {
    hide NoDup, Schedules, WokenAll, Joined, Left, Deadline;
    WokenAllKeeps(s);
    WokenAllStates(s, t);
    if t < |s.states| {
      assert TaskOk(s, t);
    }
  }

  /** Waking never blocks anybody. */
  lemma {:induction false} WokenAllStates(s: State, t: nat)
    ensures var s' := WokenAll(s); t < |s'.states| && s'.states[t] == Blocked ==>
              t < |s.states| && s.states[t] == Blocked
    decreases |s.queue|
  {
    if s.queue != [] {
      WokenAllStates(WokenOne(s), t);
    }
  }

  /** The timer ends a timed wait: after a tick at which the time asked for has passed, the task is not blocked. */
  lemma TimerWakes(ops: seq<Op>, ss: seq<State>, i: nat, k: nat, t: nat, n: nat, elapsed: nat)
    requires Trace(ops, ss) && Consistent(ss[0]) && AllArmed(ss[0])
    requires StartsWait(ops, ss, i, t, Some(n)) && StillWaits(ss, t, i, k) && k < |ops| && ops[k] == Tick(elapsed)
    requires TimeIsUp(ss[i].now, n, ss[k + 1].now)
    ensures !Stuck(ss[k + 1], t)
  {
    hide Consistent, Deadline, TimeIsUp;
    TraceArmed(ops, ss, k);
    assert Armed(ss[k], t);
    KeepsDeadline(ops, ss, i, k, t, Some(n));
    ExpiredIs(ss[i].now, Some(n), ss[k + 1].now);
    assert Next(ops[k], ss[k], ss[k + 1]);
  }

  /** A step in which schedule() chooses who runs. */
  predicate Reschedules(op: Op, s: State)
  {
    op.Preempt? || (op.Step? && Waiting(s, Start(s.current)) && s.phases[Start(s.current)].AtSchedule?)
  }

  /** How often schedule() is called from state a to state b. */
  ghost function ScheduleCalls(ops: seq<Op>, ss: seq<State>, a: nat, b: nat): nat
    requires a <= b <= |ops| < |ss|
    decreases b
  {
    if a == b then 0 else ScheduleCalls(ops, ss, a, b - 1) + if Reschedules(ops[b - 1], ss[b - 1]) then 1 else 0
  }

  /** How many regions of its own task t passes from state a to state b. */
  ghost function OwnTurns(ops: seq<Op>, ss: seq<State>, t: nat, a: nat, b: nat): nat
    requires a <= b <= |ops| < |ss|
    decreases b
  {
    if a == b then 0 else OwnTurns(ops, ss, t, a, b - 1) + if ops[b - 1].Step? && ss[b - 1].current == Slot(t) then 1
        else 0
  }

  lemma {:induction false} WokenAllKeeps(s: State)
    ensures var s' := WokenAll(s); s' == s.(queue := s'.queue, states := s'.states) && |s'.states| == |s.states|
    decreases |s.queue|
  {
    if s.queue != [] {
      WokenAllKeeps(WokenOne(s));
    }
  }

  /** Only the task itself moves on in its wait, unless it is ended; only schedule() changes who is current. */
  lemma OthersStay(op: Op, s: State, s': State, t: nat)
    requires Consistent(s) && Next(op, s, s')
    ensures |s'.states| == |s.states| && |s'.phases| == |s.phases|
    ensures !Reschedules(op, s) ==> s'.current == s.current
    ensures t < |s.phases| && InWait(s.phases[t]) && !(op.Step? && s.current == Slot(t)) && op != Kill(t) ==>
              s'.phases[t] == s.phases[t]
  {
    hide NoDup, TaskOk, Due, Schedules, WokenAll, Joined, Left;
    WokenAllKeeps(s);
  }

  /** A call of schedule() that does not choose a runnable task brings its turn nearer. */
  lemma Nearer(s: State, s': State, t: nat)
    requires Switched(s.states, s.current, s'.states, s'.current) && t < |s.states| && s.states[t] == Runnable
    requires s.current != Slot(t) && s'.current != Slot(t)
    ensures Distance(s'.current, t, |s.states|) < Distance(s.current, t, |s.states|)
  {
    hide Distance;
    assert s'.current.Slot?;
    var x := s'.current.index;
    assert Distance(s.current, x, |s.states|) <= Distance(s.current, t, |s.states|);
    NotAsFar(s.current, x, t, |s.states|);
    Closer(s.current, x, t, |s.states|);
    DistanceIsPlace(s.current, x, |s.states|);
  }

  /** A waiter that is not blocked, and not current, is runnable. */
  lemma NotStuckRuns(s: State, t: nat)
    requires Consistent(s) && !Stuck(s, t) && t < |s.phases| && InWait(s.phases[t]) && s.current != Slot(t)
    ensures t < |s.states| && s.states[t] == Runnable
  {
    hide NoDup;
    assert TaskOk(s, t);
  }

  lemma RescheduleSwitches(op: Op, s: State, s': State)
    requires Next(op, s, s') && Reschedules(op, s)
    ensures Switched(s.states, s.current, s'.states, s'.current)
  {
    hide Schedules;
  }

  /**
   * After the wake-up, a waiter's turn comes within as many calls of schedule() as there are tasks: as long as it is
   * not current, every call shortens the way to it.
   */
  lemma {:induction false} TurnComes(ops: seq<Op>, ss: seq<State>, j: nat, a: nat, b: nat, t: nat)
    requires Trace(ops, ss) && Consistent(ss[0]) && j < a <= b < |ss| && ops[j] == WakeAll && HoldsFrom(ss, t, j + 1, b)
    requires forall k | a <= k <= b :: t < |ss[k].phases| && InWait(ss[k].phases[t]) && ss[k].current != Slot(t)
    ensures |ss[b].states| == |ss[a].states| && t < |ss[a].states| && Start(ss[a].current) < |ss[a].states|
    ensures Start(ss[b].current) < |ss[a].states|
    ensures Distance(ss[b].current, t, |ss[a].states|)
              + ScheduleCalls(ops, ss, a, b) <= Distance(ss[a].current, t, |ss[a].states|)
    ensures ScheduleCalls(ops, ss, a, b) < |ss[a].states|
    decreases b
  {
    hide Next, Consistent, Stuck, Distance, Switched, Holds;
    TraceKeeps(ops, ss, a);
    TraceKeeps(ops, ss, b);
    SizeOf(ss[a]);
    SizeOf(ss[b]);
    if a < b {
      TurnComes(ops, ss, j, a, b - 1, t);
      TraceKeeps(ops, ss, b - 1);
      OthersStay(ops[b - 1], ss[b - 1], ss[b], t);
      if Reschedules(ops[b - 1], ss[b - 1]) {
        NoLostWakeup(ops, ss, j, b - 1, t);
        NotStuckRuns(ss[b - 1], t);
        RescheduleSwitches(ops[b - 1], ss[b - 1], ss[b]);
        Nearer(ss[b - 1], ss[b], t);
      }
    }
    DistanceIsPlace(ss[a].current, t, |ss[a].states|);
    DistanceIsPlace(ss[b].current, t, |ss[a].states|);
  }

  lemma SizeOf(s: State)
    requires Consistent(s)
    ensures |s.phases| == |s.states| == |s.deadlines| && Start(s.current) < |s.states|
  {
  }

  /** While its condition holds, each region of its own brings a waiter nearer to returning. */
  lemma {:induction false} TurnsCount(ops: seq<Op>, ss: seq<State>, a: nat, b: nat, t: nat)
    requires Trace(ops, ss) && Consistent(ss[0]) && a <= b < |ss| && HoldsFrom(ss, t, a, b)
    requires forall k | a <= k <= b :: t < |ss[k].phases| && InWait(ss[k].phases[t])
    ensures OwnTurns(ops, ss, t, a, b) + StepsLeft(ss[b].phases[t]) <= StepsLeft(ss[a].phases[t])
    decreases b
  {
    hide Consistent, StepsLeft, Next, Holds;
    if a < b {
      TurnsCount(ops, ss, a, b - 1, t);
      TraceKeeps(ops, ss, b - 1);
      OwnOrOther(ops[b - 1], ss[b - 1], ss[b], t);
    }
  }

  lemma OwnOrOther(op: Op, s: State, s': State, t: nat)
    requires Consistent(s) && Next(op, s, s') && Holds(s, t) && t < |s.phases| && InWait(s.phases[t]) && t < |s'.phases|
    requires InWait(s'.phases[t])
    ensures op.Step? && s.current == Slot(t) ==> StepsLeft(s'.phases[t]) < StepsLeft(s.phases[t])
    ensures !(op.Step? && s.current == Slot(t)) ==> s'.phases[t] == s.phases[t]
  {
    hide Consistent, StepsLeft, WaitStep;
    OthersStay(op, s, s', t);
    SizeOf(s);
    if op.Step? && s.current == Slot(t) {
      Progress(s, s', t);
    }
  }

  /** Task t comes out of its wait between states k and k + 1, with this result. */
  ghost predicate Returns(ss: seq<State>, k: nat, t: nat, ok: bool)
  {
    && k + 1 < |ss| && t < |ss[k].phases| && t < |ss[k + 1].phases|
    && ss[k].phases[t].Leaving? && ss[k].phases[t].ok == ok && ss[k + 1].phases[t].Outside?
  }

  /** The result a waiter is bound for while its condition holds: true, unless it has already timed out. */
  predicate Bound(p: Phase)
  {
    p.Leaving? ==> p.ok
  }

  lemma OwnTurn(op: Op, s: State, s': State, t: nat)
    requires Consistent(s) && Next(op, s, s') && Holds(s, t) && t < |s.phases| && InWait(s.phases[t]) && op != Kill(t)
    ensures t < |s'.phases|
    ensures InWait(s'.phases[t]) ==> (Bound(s.phases[t]) ==> Bound(s'.phases[t]))
    ensures !InWait(s'.phases[t]) ==> s.phases[t].Leaving? && s'.phases[t].Outside?
  {
    hide Consistent, StepsLeft;
    OthersStay(op, s, s', t);
    SizeOf(s);
  }

  lemma {:induction false} StaysBound(ops: seq<Op>, ss: seq<State>, a: nat, b: nat, t: nat)
    requires Trace(ops, ss) && Consistent(ss[0]) && a <= b < |ss| && HoldsFrom(ss, t, a, b) && Kill(t) !in ops[a..b]
    requires forall k | a <= k <= b :: t < |ss[k].phases| && InWait(ss[k].phases[t])
    ensures Bound(ss[a].phases[t]) ==> Bound(ss[b].phases[t])
    decreases b
  {
    hide Consistent, Next, Bound, Holds;
    if a < b {
      assert ops[b - 1] == ops[a..b][b - 1 - a];
      assert forall op | op in ops[a..b - 1] :: op in ops[a..b];
      StaysBound(ops, ss, a, b - 1, t);
      TraceKeeps(ops, ss, b - 1);
      OwnTurn(ops[b - 1], ss[b - 1], ss[b], t);
    }
  }

  /**
   * While its condition holds, a waiter that is not ended returns within four regions of its own, with the result true
   * unless it has already timed out.
   */
  lemma {:induction false} WaiterReturns(ops: seq<Op>, ss: seq<State>, a: nat, b: nat, t: nat)
    requires Trace(ops, ss) && Consistent(ss[0]) && a <= b < |ss| && HoldsFrom(ss, t, a, b) && Kill(t) !in ops[a..b]
    requires t < |ss[a].phases| && InWait(ss[a].phases[t]) && OwnTurns(ops, ss, t, a, b) >= 4
    ensures exists k, ok :: a <= k < b && Returns(ss, k, t, ok) && (Bound(ss[a].phases[t]) ==> ok)
  {
    hide Consistent, Next, Bound, StepsLeft, OwnTurns, Holds;
    if forall k | a <= k <= b :: t < |ss[k].phases| && InWait(ss[k].phases[t]) {
      TurnsCount(ops, ss, a, b, t);
      FewSteps(ss[a].phases[t]);
      FewSteps(ss[b].phases[t]);
      assert false;
    } else {
      var k := FirstOutside(ss, a, b, t);
      assert forall op | op in ops[a..k - 1] :: op in ops[a..b];
      assert ops[k - 1] == ops[a..b][k - 1 - a];
      StaysBound(ops, ss, a, k - 1, t);
      TraceKeeps(ops, ss, k - 1);
      OwnTurn(ops[k - 1], ss[k - 1], ss[k], t);
      BoundIs(ss[k - 1].phases[t]);
      assert Returns(ss, k - 1, t, ss[k - 1].phases[t].ok);
    }
  }

  lemma BoundIs(p: Phase)
    ensures p.Leaving? ==> (Bound(p) <==> p.ok)
  {
  }

  lemma FewSteps(p: Phase)
    requires InWait(p)
    ensures 1 <= StepsLeft(p) <= 4
  {
  }

  lemma {:induction false} FirstOutside(ss: seq<State>, a: nat, b: nat, t: nat) returns (k: nat)
    requires a <= b < |ss| && t < |ss[a].phases| && InWait(ss[a].phases[t])
    requires !forall k | a <= k <= b :: t < |ss[k].phases| && InWait(ss[k].phases[t])
    ensures a < k <= b && !(t < |ss[k].phases| && InWait(ss[k].phases[t]))
    ensures forall m | a <= m < k :: t < |ss[m].phases| && InWait(ss[m].phases[t])
  {
    k := a;
    while t < |ss[k].phases| && InWait(ss[k].phases[t])
      invariant a <= k <= b && forall m | a <= m < k :: t < |ss[m].phases| && InWait(ss[m].phases[t])
      decreases b - k
    {
      k := k + 1;
    }
  }

  // ------------------------------------------------------------ the code

  class WaitSystem {
    const tasks: TaskSystem
    var phases: seq<Phase>
    var queue: seq<nat>
    var waiterCount: nat
    var holds: seq<bool>
    var now: nat

    ghost function Now(): State
      reads this, tasks, tasks.states, tasks.deadlines
    {
      State(tasks.states[..], tasks.deadlines[..], tasks.sleepQueue, tasks.current, phases, queue, holds, now)
    }

    ghost predicate Valid()
      reads this, tasks, tasks.states, tasks.deadlines
    {
      tasks.Valid() && waiterCount == |queue| && Consistent(Now())
    }

    constructor (tasks: TaskSystem)
      requires tasks.Valid() && tasks.sleepQueue == []
      ensures Valid() && this.tasks == tasks && queue == [] && forall t | 0 <= t < |phases| :: phases[t] == Outside
    {
      this.tasks := tasks;
      phases := seq(tasks.states.Length, _ => Outside);
      queue, waiterCount := [], 0;
      holds, now := seq(tasks.states.Length, _ => false), 0;
    }

    lemma Parts()
      requires Valid()
      ensures tasks.Valid() && waiterCount == |queue| && NoDup(queue)
      ensures |phases| == tasks.states.Length == tasks.deadlines.Length
      ensures forall i | 0 <= i < |queue| :: queue[i] < tasks.states.Length
      ensures Consistent(Now()) && (tasks.current.Slot? ==> tasks.current.index < |phases|)
    {
      hide NoDup, TaskSystem.RunningIsCurrent, TaskSystem.QueueOk;
    }

    /** The current task runs outside any wait. */
    predicate Ready()
      reads this, tasks, tasks.states
    {
      && tasks.current.Slot? && tasks.current.index < |phases| && tasks.current.index < tasks.states.Length
      && phases[tasks.current.index].Outside? && OnProcessor(tasks.states[tasks.current.index])
    }

    /** schedule() from anywhere: an interrupt, or a task that gives way. */
    method Preempt()
      requires Valid()
      modifies tasks`current, tasks`idleState, tasks.states
      ensures Valid() && Next(Op.Preempt, old(Now()), Now())
    {
      hide Consistent, Schedules, NoDup;
      tasks.Schedule();
      NextKeeps(Op.Preempt, old(Now()), Now());
    }

    /** wait_queue_add, unless linked. */
    method Link(t: nat)
      requires waiterCount == |queue|
      modifies this`queue, this`waiterCount
      ensures waiterCount == |queue| && queue == Joined(old(queue), t)
    {
      if t !in queue {
        queue := queue + [t];
        waiterCount := waiterCount + 1;
      }
    }

    /** wait_queue_remove */
    method Unlink(t: nat)
      requires waiterCount == |queue| && NoDup(queue)
      modifies this`queue, this`waiterCount
      ensures waiterCount == |queue| && queue == Left(old(queue), t)
    {
      hide NoDup, Without;
      if t in queue {
        WithoutMembers(queue, t);
        queue := Without(queue, t);
        waiterCount := waiterCount - 1;
      }
    }

    /** The locked region at the head of the retry loop. */
    method Region(t: nat)
      requires Valid() && Waiting(Now(), t) && phases[t].Loop?
      modifies this`phases, this`queue, this`waiterCount, tasks`sleepQueue, tasks`sleepingCount, tasks.states,
          tasks.deadlines
      ensures Valid() && Next(Op.Step, old(Now()), Now())
    {
      hide Consistent, NoDup, Without, TaskSystem.Valid;
      Parts();
      var d := phases[t].deadline;
      if t < |holds| && holds[t] {
        Unlink(t);
        phases := phases[t := Leaving(d, true)];
      } else if d.Some? && now >= d.value {
        Unlink(t);
        phases := phases[t := Leaving(d, false)];
      } else {
        Link(t);
        if d.Some? {
          tasks.SleepEnqueue(t, d.value);
        }
        tasks.Block(t);
        phases := phases[t := AtSchedule(d)];
      }
      NextKeeps(Op.Step, old(Now()), Now());
    }

    /** The call to schedule() in the retry loop. */
    method CallSchedule(t: nat)
      requires Valid() && Waiting(Now(), t) && phases[t].AtSchedule?
      modifies this`phases, tasks`current, tasks`idleState, tasks.states
      ensures Valid() && Next(Op.Step, old(Now()), Now())
    {
      hide Consistent, NoDup, Schedules;
      tasks.Schedule();
      phases := phases[t := Back(phases[t].deadline)];
      NextKeeps(Op.Step, old(Now()), Now());
    }

    /** After schedule(): the timeout is disarmed. */
    method Return(t: nat)
      requires Valid() && Waiting(Now(), t) && phases[t].Back?
      modifies this`phases, tasks`sleepQueue, tasks`sleepingCount, tasks.deadlines
      ensures Valid() && Next(Op.Step, old(Now()), Now())
    {
      hide Consistent, NoDup, TaskSystem.Valid;
      Parts();
      if phases[t].deadline.Some? {
        tasks.SleepDequeue(t);
      }
      phases := phases[t := Loop(phases[t].deadline)];
      NextKeeps(Op.Step, old(Now()), Now());
    }

    /** The way out of wait_event and wait_event_timeout, with its result. */
    method Leave(t: nat) returns (ok: bool)
      requires Valid() && Waiting(Now(), t) && phases[t].Leaving?
      modifies this`phases, this`queue, this`waiterCount, tasks`sleepQueue, tasks`sleepingCount, tasks.deadlines
      ensures Valid() && Next(Op.Step, old(Now()), Now())
      ensures ok == old(phases)[t].ok && (ok || Expired(old(phases)[t].deadline, now))
    {
      hide Consistent, NoDup, Without, TaskSystem.Valid;
      Parts();
      TaskIn(Now(), t);
      ok := phases[t].ok;
      if phases[t].deadline.Some? {
        tasks.SleepDequeue(t);
      }
      Unlink(t);
      phases := phases[t := Outside];
      NextKeeps(Op.Step, old(Now()), Now());
    }

    /** The next region of the current task's wait. */
    method Step(t: nat) returns (result: Option<bool>)
      requires Valid() && Waiting(Now(), t)
      modifies this`phases, this`queue, this`waiterCount
      modifies tasks`current, tasks`idleState, tasks`sleepQueue, tasks`sleepingCount, tasks.states, tasks.deadlines
      ensures Valid() && Next(Op.Step, old(Now()), Now())
      ensures result.Some? <==> old(phases)[t].Leaving?
      ensures result.Some? ==>
                result.value == old(phases)[t].ok && (result.value || Expired(old(phases)[t].deadline, now))
    {
      hide Consistent, Next, TaskSystem.Valid;
      result := None;
      match phases[t]
      case Loop(_) => Region(t);
      case AtSchedule(_) => CallSchedule(t);
      case Back(_) => Return(t);
      case Leaving(_, _) =>
        var ok := Leave(t);
        result := Some(ok);
    }

    /**
     * The start of wait_event, or of wait_event_timeout when a timeout in ticks is given; some results are immediate.
     */
    method Begin(ticks: Option<nat>) returns (done: Option<bool>)
      requires Valid() && MayBegin(Now(), Start(tasks.current))
      modifies this`phases
      ensures Valid() && Next(Op.Begin(ticks), old(Now()), Now())
      ensures var now' := Holds(old(Now()), tasks.current.index);
              done == if now' || ticks == Some(0) then Some(now') else None
    {
      hide Consistent, NoDup, TaskSystem.Valid;
      var t := tasks.current.index;
      var met := t < |holds| && holds[t];
      if met || ticks == Some(0) {
        return Some(met);
      }
      var deadline := if ticks.None? then None
          else Some(if now + ticks.value < MAX_TICK then now + ticks.value else MAX_TICK);
      phases := phases[t := Loop(deadline)];
      NextKeeps(Op.Begin(ticks), old(Now()), Now());
      return None;
    }

    /** What the conditions are about changes. */
    method SetConditions(values: seq<bool>)
      requires Valid()
      modifies this`holds
      ensures Valid() && Next(Op.SetConditions(values), old(Now()), Now())
    {
      hide Consistent, TaskSystem.Valid;
      holds := values;
      NextKeeps(Op.SetConditions(values), old(Now()), Now());
    }

    /** wait_queue_wake_one, and one turn of the loop of wait_queue_wake_all. */
    method WakeOne()
      requires Valid()
      modifies this`queue, this`waiterCount, tasks.states
      ensures Valid() && Now() == WokenOne(old(Now()))
    {
      hide Consistent, NoDup, TaskSystem.Valid;
      Parts();
      if queue != [] {
        var t := queue[0];
        queue := queue[1..];
        waiterCount := waiterCount - 1;
        tasks.Unblock(t);
        WokenOneKeeps(old(Now()));
      }
    }

    /** wait_queue_wake_all */
    method WakeAll()
      requires Valid()
      modifies this`queue, this`waiterCount, tasks.states
      ensures Valid() && Next(Op.WakeAll, old(Now()), Now())
    {
      hide Consistent, NoDup, TaskSystem.Valid, WokenOne;
      while queue != []
        invariant Valid() && WokenAll(Now()) == WokenAll(old(Now()))
        decreases |queue|
      {
        ghost var before := Now();
        WokenShorter(before);
        WakeOne();
      }
    }

    /** The timer interrupt. */
    method Tick(elapsed: nat)
      requires Valid()
      modifies this`now, tasks`sleepQueue, tasks`sleepingCount, tasks.states
      ensures Valid() && Next(Op.Tick(elapsed), old(Now()), Now())
    {
      hide Consistent, TaskSystem.Valid, Due, NoDup;
      Parts();
      now := now + elapsed;
      tasks.Tick(now);
      NextKeeps(Op.Tick(elapsed), old(Now()), Now());
    }

    /** The locked region of task_sleep. */
    method FallAsleep(t: nat, deadline: nat)
      requires Valid() && MayBegin(Now(), t)
      modifies this`phases, tasks`sleepQueue, tasks`sleepingCount, tasks.states, tasks.deadlines
      ensures Valid() && Next(Op.Sleep(deadline), old(Now()), Now())
    {
      hide Consistent, NoDup, TaskSystem.Valid;
      Parts();
      TaskIn(Now(), t);
      tasks.Sleep(deadline);
      phases := phases[t := Asleep];
      NextKeeps(Op.Sleep(deadline), old(Now()), Now());
    }

    /** The end of task_sleep. */
    method WakeUp(t: nat)
      requires Valid() && MayAwake(Now(), t)
      modifies this`phases, tasks.states
      ensures Valid() && Next(Op.Awake, old(Now()), Now())
    {
      hide Consistent, NoDup, TaskSystem.Valid;
      Parts();
      tasks.Awake();
      phases := phases[t := Outside];
      NextKeeps(Op.Awake, old(Now()), Now());
    }

    /** task_sleep_enqueue for a wait on another queue. */
    method ArmElsewhere(t: nat, deadline: nat)
      requires Valid() && MayArm(Now(), t)
      modifies this`phases, tasks`sleepQueue, tasks`sleepingCount, tasks.deadlines
      ensures Valid() && Next(Op.Arm(deadline), old(Now()), Now())
    {
      hide Consistent, NoDup, TaskSystem.Valid;
      Parts();
      tasks.SleepEnqueue(t, deadline);
      phases := phases[t := Elsewhere];
      NextKeeps(Op.Arm(deadline), old(Now()), Now());
    }

    /** task_sleep_dequeue at the end of a wait on another queue. */
    method DisarmElsewhere(t: nat)
      requires Valid() && MayDisarm(Now(), t)
      modifies this`phases, tasks`sleepQueue, tasks`sleepingCount, tasks.deadlines
      ensures Valid() && Next(Op.Disarm, old(Now()), Now())
    {
      hide Consistent, NoDup, TaskSystem.Valid;
      Parts();
      tasks.SleepDequeue(t);
      phases := phases[t := Outside];
      NextKeeps(Op.Disarm, old(Now()), Now());
    }

    /** thread_exit */
    method ExitSelf(t: nat)
      requires Valid() && MayBegin(Now(), t)
      modifies this`phases, tasks.states
      ensures Valid() && Next(Op.Exit, old(Now()), Now())
    {
      hide Consistent, NoDup, TaskSystem.Valid;
      Parts();
      tasks.SetState(t, Zombie);
      phases := phases[t := Gone];
      NextKeeps(Op.Exit, old(Now()), Now());
    }

    /** What process_exit does to each other thread of its process. */
    method KillOther(t: nat)
      requires Valid() && MayKill(Now(), t)
      modifies this`phases, tasks`sleepQueue, tasks`sleepingCount, tasks.states, tasks.deadlines
      ensures Valid() && Next(Op.Kill(t), old(Now()), Now())
    {
      hide Consistent, NoDup, TaskSystem.Valid;
      Parts();
      tasks.SetState(t, Zombie);
      tasks.SleepDequeue(t);
      phases := phases[t := Gone];
      NextKeeps(Op.Kill(t), old(Now()), Now());
    }

    /** A change of state of a task that is not waiting here, and the reuse of a slot. */
    method ChangeState(t: nat, state: ThreadState, ghost op: Op, reuse: bool)
      requires Valid() && t < |phases| && state != Running
      requires if reuse then op == Op.Create(t) && MayCreate(Now(), t)
                && state == Runnable else op == Op.Change(t, state) && MayChange(Now(), t, state)
      modifies this`phases, tasks.states
      ensures Valid() && Next(op, old(Now()), Now())
    {
      hide Consistent, NoDup, TaskSystem.Valid;
      Parts();
      tasks.SetState(t, state);
      if reuse {
        phases := phases[t := Outside];
      }
      NextKeeps(op, old(Now()), Now());
    }

    /** One step of whoever's turn it is; a step that is not enabled does nothing. */
    method Perform(op: Op)
      requires Valid()
      modifies this`phases, this`queue, this`waiterCount, this`holds, this`now
      modifies tasks`current, tasks`idleState, tasks`sleepQueue, tasks`sleepingCount, tasks.states, tasks.deadlines
      ensures Valid() && Next(op, old(Now()), Now())
    {
      hide Consistent, TaskSystem.Valid, Switched, WaitStep, WokenOne, WokenAll, Ticked;
      Parts();
      match op
      case Preempt => Preempt();
      case Step =>
        if tasks.current.Slot? && tasks.current.index < |phases| && InWait(phases[tasks.current.index]) {
          var result := Step(tasks.current.index);
        }
      case Begin(ticks) =>
        if Ready() {
          var done := Begin(ticks);
        }
      case SetConditions(values) => SetConditions(values);
      case WakeOne => WakeOne();
      case WakeAll => WakeAll();
      case Tick(elapsed) => Tick(elapsed);
      case Sleep(deadline) =>
        if Ready() {
          FallAsleep(tasks.current.index, deadline);
        }
      case Awake =>
        if tasks.current.Slot? && phases[tasks.current.index].Asleep? && tasks.states[tasks.current.index] != Sleeping {
          WakeUp(tasks.current.index);
        }
      case Arm(deadline) =>
        if tasks.current.Slot? && (phases[tasks.current.index].Outside? || phases[tasks.current.index].Elsewhere?) {
          ArmElsewhere(tasks.current.index, deadline);
        }
      case Disarm =>
        if tasks.current.Slot? && phases[tasks.current.index].Elsewhere? {
          DisarmElsewhere(tasks.current.index);
        }
      case Change(t, state) =>
        if t < |phases| && state != Running
            && (phases[t].Outside? || phases[t].Elsewhere? || (phases[t].Gone? && Ended(state))) {
          ChangeState(t, state, op, false);
        }
      case Exit =>
        if Ready() {
          ExitSelf(tasks.current.index);
        }
      case Kill(t) =>
        if t < |phases| && tasks.current != Slot(t) {
          KillOther(t);
        }
      case Create(t) =>
        if t < |phases| && phases[t].Gone? && t !in queue {
          ChangeState(t, Runnable, op, true);
        }
    }

    /** Any interleaving is a run of the state machine. */
    method Run(ops: seq<Op>) returns (ghost ss: seq<State>)
      requires Valid()
      modifies this`phases, this`queue, this`waiterCount, this`holds, this`now
      modifies tasks`current, tasks`idleState, tasks`sleepQueue, tasks`sleepingCount, tasks.states, tasks.deadlines
      ensures Valid() && Trace(ops, ss) && ss[0] == old(Now()) && ss[|ops|] == Now()
    {
      hide Consistent, TaskSystem.Valid, Next;
      ss := [Now()];
      for i := 0 to |ops|
        invariant Valid() && |ss| == i + 1 && ss[0] == old(Now()) && ss[i] == Now()
        invariant forall j, k | 0 <= j < i && k == j + 1 :: Next(ops[j], ss[j], ss[k])
      {
        Perform(ops[i]);
        ss := ss + [Now()];
      }
    }
  }

  lemma WokenShorter(s: State)
    requires s.queue != []
    ensures WokenAll(s) == WokenAll(WokenOne(s)) && |WokenOne(s).queue| < |s.queue|
  {
  }
}
