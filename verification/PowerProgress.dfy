/**
  Progress of the command thread while everybody else goes on: tasks that register and unregister, mode changes, new
  commands, and reports of the firmware, in any order.
 */
module PowerProgress {
  import opened PowerSave

  /** The command task is alive and the chip is known to be awake. */
  predicate Awake(s: State) {
    Cmd in s.alives && s.cpwm >= PS_STATE_S2
  }

  /** A command is queued and the thread is on its way to it, or parked with CMD_ALIVE set. */
  predicate Waiting(s: State) {
    s.queue != [] && Cmd in s.alives && s.pc != Drained && s.pc != Unregistering
  }

  /** The chip says that it has fallen asleep by itself. */
  predicate FallsAsleep(a: Action) {
    a.Report? && a.report < PS_STATE_S2
  }

  /** Nobody but the command thread itself and the chip end that: the driver does not put the chip to sleep under a task
      that is alive. */
  lemma AwakeStep(s: State, a: Action)
    requires Inv(s) && Enabled(s, a) && Awake(s) && a != UnregisterBegin(Cmd) && !FallsAsleep(a)
    ensures Awake(Step(s, a))
  {
  }

  /** A step inside the critical section. */
  predicate InSection(a: Action) {
    a.RegisterTest? || a.RegisterRaise? || a.UnregisterTest? || a.EnterTest? || a.LeaveEnd? || a.RpwmDecide? || a.RpwmSend? || a.RpwmEnd?
  }

  lemma WaitingInSection(s: State, a: Action)
    requires Inv(s) && Enabled(s, a) && Waiting(s) && InSection(a)
    ensures Waiting(Step(s, a)) && Step(s, a).queue == s.queue && Step(s, a).handled == s.handled
  {
  }

  lemma WaitingStep(s: State, a: Action)
    requires Inv(s) && Enabled(s, a) && Waiting(s) && !HandlesCommand(s, a)
    ensures Waiting(Step(s, a)) && Step(s, a).queue[0] == s.queue[0] && Step(s, a).handled == s.handled
    ensures a != UnregisterBegin(Cmd)
  {
    if InSection(a) {
      WaitingInSection(s, a);
    }
  }

  /** A step of the command thread. */
  predicate ThreadStep(s: State, a: Action) {
    a.Down? || a.Dequeue? || a == RegisterBegin(Cmd) || a == UnregisterBegin(Cmd) ||
    (OwnedByCmd(s.section) && (a.RegisterTest? || a.RegisterRaise? || a.UnregisterTest? || a.RpwmDecide? || a.RpwmSend? || a.RpwmEnd?))
  }

  /** How many steps of its own the thread is away from handling a command once the chip is awake. */
  function ThreadRank(s: State): nat {
    match s.pc
    case Running => 1
    case Woken => 3
    case Parked => 4
    case Drained => 0
    case Unregistering => 0
    case Registering =>
      if s.section.Registered? then 2
      else if s.section.SettingRpwm? then (match s.section.phase case Called => 7 case Decided => 6 case Sent => 5)
      else 8
  }

  /** The thread's own steps bring it nearer and no other step takes it further away. */
  lemma RankStep(s: State, a: Action)
    requires Inv(s) && Enabled(s, a) && Awake(s) && Waiting(s) && !HandlesCommand(s, a)
    ensures if ThreadStep(s, a) then ThreadRank(Step(s, a)) < ThreadRank(s) else ThreadRank(Step(s, a)) == ThreadRank(s)
  {
  }

  ghost function ThreadSteps(s: State, acts: seq<Action>): nat
    requires CanRun(s, acts)
    decreases |acts|
  {
    if acts == [] then 0 else (if ThreadStep(s, acts[0]) then 1 else 0) + ThreadSteps(Step(s, acts[0]), acts[1..])
  }

  /** Under any interleaving with anybody's steps, an awake thread handles the head of the queue with the next few steps
      of its own. */
  lemma {:induction false} HandledDespiteInterference(s: State, acts: seq<Action>)
    requires Inv(s) && Awake(s) && Waiting(s) && CanRun(s, acts) && ThreadSteps(s, acts) >= ThreadRank(s)
    requires forall a :: a in acts ==> !FallsAsleep(a)
    ensures s.handled + [s.queue[0]] <= Run(s, acts).handled
    decreases |acts|
  {
    if acts != [] {
      var a := acts[0];
      if HandlesCommand(s, a) {
        HandledOnlyGrows(Step(s, a), acts[1..]);
      } else {
        StepKeepsInv(s, a);
        WaitingStep(s, a);
        AwakeStep(s, a);
        RankStep(s, a);
        HandledDespiteInterference(Step(s, a), acts[1..]);
      }
    }
  }

  /** Until it is handled, a command that waits goes on waiting. */
  lemma {:induction false} WaitsOrIsHandled(s: State, acts: seq<Action>)
    requires Inv(s) && Waiting(s) && CanRun(s, acts)
    ensures var t := Run(s, acts);
      (Waiting(t) && t.queue[0] == s.queue[0] && t.handled == s.handled) || s.handled + [s.queue[0]] <= t.handled
    decreases |acts|
  {
    if acts != [] {
      var a := acts[0];
      if HandlesCommand(s, a) {
        HandledOnlyGrows(Step(s, a), acts[1..]);
      } else {
        StepKeepsInv(s, a);
        WaitingStep(s, a);
        WaitsOrIsHandled(Step(s, a), acts[1..]);
      }
    }
  }

  /** A thread that found the chip asleep handles its command once the firmware has answered, whatever anybody does before
      and after the answer: eight steps of the thread itself are enough. */
  lemma HandledAfterAnswer(s: State, before: seq<Action>, answer: Action, after: seq<Action>)
    requires Inv(s) && Waiting(s) && CanRun(s, before)
    requires (answer.Interrupt? || answer.Report?) && Enabled(Run(s, before), answer)
    requires !FallsAsleep(answer) && forall a :: a in after ==> !FallsAsleep(a)
    requires CanRun(Step(Run(s, before), answer), after) && ThreadSteps(Step(Run(s, before), answer), after) >= 8
    ensures s.handled + [s.queue[0]] <= Run(Step(Run(s, before), answer), after).handled
  {
    var t := Run(s, before);
    var u := Step(t, answer);
    RunKeepsInv(s, before);
    StepKeepsInv(t, answer);
    WaitsOrIsHandled(s, before);
    HandledOnlyGrows(u, after);
    if t.handled == s.handled {
      WaitingStep(t, answer);
      HandledDespiteInterference(u, after);
    }
  }
}
