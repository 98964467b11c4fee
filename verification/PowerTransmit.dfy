/**
  The transmit task in the power-save handshake: like the command thread it parks when it finds the chip asleep, and the
  interrupt handler wakes it. And what every request to the chip and every pass of the handler leave behind.
 */
module PowerTransmit {
  import opened PowerSave

  /** The transmit semaphore is positive, or the handler, which raises it last, is bound to raise it if XMIT_ALIVE stays
      set, or the firmware still owes an interrupt. */
  predicate XmitOnItsWay(s: State) {
    s.xmitSema > 0 || s.pendingAcks > 0 || s.isr == CpwmTested || s.isr == CmdSignalled || (s.isr == CpwmWritten && s.cpwm >= PS_STATE_S2)
  }

  /** Whether the transmit task waits for its semaphore after a step: it does once it has found the chip asleep, until it
      takes a token or begins to register again. */
  predicate Waits(w: bool, s: State, a: Action) {
    if a == RegisterBegin(Xmit) || a.XmitDown? then false
    else w || (a.RegisterTest? && s.section == Registered(Xmit) && s.fwInPs && s.cpwm < PS_STATE_S2)
  }

  ghost function WaitsAfter(w: bool, s: State, acts: seq<Action>): bool
    requires CanRun(s, acts)
    decreases |acts|
  {
    if acts == [] then w else WaitsAfter(Waits(w, s, acts[0]), Step(s, acts[0]), acts[1..])
  }

  predicate XmitIsSafe(s: State, w: bool) {
    && (w && Xmit in s.alives && !OwnedByXmit(s.section) ==> XmitOnItsWay(s))
    && (s.section == Registered(Xmit) ==> !w)
    && (s.section == FoundAsleep(Xmit) ==> s.cpwm < PS_STATE_S2 || XmitOnItsWay(s))
    && (s.section.SettingRpwm? && s.section.caller == RegisterFails(Xmit) ==>
          match s.section.phase
          case Called => s.cpwm < PS_STATE_S2 || XmitOnItsWay(s)
          case Decided => s.section.ack || XmitOnItsWay(s)
          case Sent => XmitOnItsWay(s))
  }

  lemma EnqueueStepKeepsXmit(s: State, w: bool, a: Action)
    requires Inv(s) && XmitIsSafe(s, w) && Enabled(s, a)
    requires a.Insert? || a.UpAfterInsert? || a.XmitDown? || a.Down? || a.Dequeue?
    ensures XmitIsSafe(Step(s, a), Waits(w, s, a))
  {
  }

  lemma BeginStepKeepsXmit(s: State, w: bool, a: Action)
    requires Inv(s) && XmitIsSafe(s, w) && Enabled(s, a)
    requires a.RegisterBegin? || a.UnregisterBegin? || a.EnterPs? || a.LeavePs?
    ensures XmitIsSafe(Step(s, a), Waits(w, s, a))
  {
  }

  lemma SectionStepKeepsXmit(s: State, w: bool, a: Action)
    requires Inv(s) && XmitIsSafe(s, w) && Enabled(s, a)
    requires a.RegisterTest? || a.RegisterRaise? || a.UnregisterTest? || a.EnterTest? || a.LeaveEnd?
    ensures XmitIsSafe(Step(s, a), Waits(w, s, a))
  {
  }

  lemma RpwmStepKeepsXmit(s: State, w: bool, a: Action)
    requires Inv(s) && XmitIsSafe(s, w) && Enabled(s, a)
    requires a.RpwmDecide? || a.RpwmSend? || a.RpwmEnd?
    ensures XmitIsSafe(Step(s, a), Waits(w, s, a))
  {
  }

  lemma IsrStepKeepsXmit(s: State, w: bool, a: Action)
    requires Inv(s) && XmitIsSafe(s, w) && Enabled(s, a)
    requires a.Interrupt? || a.Report? || a.IsrTest? || a.IsrCmd? || a.IsrXmit?
    ensures XmitIsSafe(Step(s, a), Waits(w, s, a))
  {
  }

  lemma StepKeepsXmit(s: State, w: bool, a: Action)
    requires Inv(s) && XmitIsSafe(s, w) && Enabled(s, a)
    ensures XmitIsSafe(Step(s, a), Waits(w, s, a))
  {
    if a.Insert? || a.UpAfterInsert? || a.XmitDown? || a.Down? || a.Dequeue? {
      EnqueueStepKeepsXmit(s, w, a);
    } else if a.RegisterBegin? || a.UnregisterBegin? || a.EnterPs? || a.LeavePs? {
      BeginStepKeepsXmit(s, w, a);
    } else if a.RpwmDecide? || a.RpwmSend? || a.RpwmEnd? {
      RpwmStepKeepsXmit(s, w, a);
    } else if a.Interrupt? || a.Report? || a.IsrTest? || a.IsrCmd? || a.IsrXmit? {
      IsrStepKeepsXmit(s, w, a);
    } else {
      SectionStepKeepsXmit(s, w, a);
    }
  }

  lemma {:induction false} RunKeepsXmit(s: State, w: bool, acts: seq<Action>)
    requires Inv(s) && XmitIsSafe(s, w) && CanRun(s, acts)
    ensures XmitIsSafe(Run(s, acts), WaitsAfter(w, s, acts))
    decreases |acts|
  {
    if acts != [] {
      StepKeepsInv(s, acts[0]);
      StepKeepsXmit(s, w, acts[0]);
      RunKeepsXmit(Step(s, acts[0]), Waits(w, s, acts[0]), acts[1..]);
    }
  }

  /** No lost wake-up for the transmit task, over every interleaving: while it waits with XMIT_ALIVE set, its semaphore is
      positive, the firmware owes an answer, or the handler is about to raise it. */
  lemma NoLostTransmit(rpwm: Level, acts: seq<Action>)
    requires CanRun(Init(rpwm), acts)
    ensures var s := Run(Init(rpwm), acts);
      WaitsAfter(false, Init(rpwm), acts) && Xmit in s.alives && !OwnedByXmit(s.section) ==> XmitOnItsWay(s)
  {
    RunKeepsXmit(Init(rpwm), false, acts);
  }

  // ----- counting -----

  function One(b: bool): int { if b then 1 else 0 }

  /** How many steps of a run satisfy p in the state in which they are taken. */
  ghost function CountSteps(p: (State, Action) -> bool, s: State, acts: seq<Action>): nat
    requires CanRun(s, acts)
    decreases |acts|
  {
    if acts == [] then 0 else One(p(s, acts[0])) + CountSteps(p, Step(s, acts[0]), acts[1..])
  }

  /** A quantity that each step raises by one if `up` and lowers by one if `down` counts, over a run, the difference. */
  lemma {:induction false} Telescope(q: State -> int, up: (State, Action) -> bool, down: (State, Action) -> bool, s: State, acts: seq<Action>)
    requires forall t, a {:trigger up(t, a)} :: Enabled(t, a) ==> q(Step(t, a)) == q(t) + One(up(t, a)) - One(down(t, a))
    requires CanRun(s, acts)
    ensures q(Run(s, acts)) == q(s) + CountSteps(up, s, acts) - CountSteps(down, s, acts)
    decreases |acts|
  {
    if acts != [] {
      Telescope(q, up, down, Step(s, acts[0]), acts[1..]);
    }
  }

  /** The last step of a pass of the interrupt handler that found the chip awake, with XMIT_ALIVE set. */
  function RaisesXmit(s: State, a: Action): bool { a.IsrXmit? && Xmit in s.alives }
  function TakesXmit(s: State, a: Action): bool { a.XmitDown? }
  function XmitSema(s: State): int { s.xmitSema }

  /** Over every run the transmit semaphore has gained one token for each such pass and lost those taken. */
  lemma XmitTokens(s: State, acts: seq<Action>)
    requires CanRun(s, acts)
    ensures Run(s, acts).xmitSema == s.xmitSema + CountSteps(RaisesXmit, s, acts) - CountSteps(TakesXmit, s, acts)
  {
    XmitStep();
    Telescope(XmitSema, RaisesXmit, TakesXmit, s, acts);
  }

  lemma XmitStepAt(t: State, a: Action)
    requires Enabled(t, a)
    ensures XmitSema(Step(t, a)) == XmitSema(t) + One(RaisesXmit(t, a)) - One(TakesXmit(t, a))
  {
  }

  lemma XmitStep()
    ensures forall t, a {:trigger RaisesXmit(t, a)} :: Enabled(t, a) ==> XmitSema(Step(t, a)) == XmitSema(t) + One(RaisesXmit(t, a)) - One(TakesXmit(t, a))
  {
    forall t, a {:trigger RaisesXmit(t, a)} | Enabled(t, a)
      ensures XmitSema(Step(t, a)) == XmitSema(t) + One(RaisesXmit(t, a)) - One(TakesXmit(t, a))
    {
      XmitStepAt(t, a);
    }
  }

  function RaisesCmd(s: State, a: Action): bool { a.UpAfterInsert? || (a.IsrCmd? && Cmd in s.alives) }
  function TakesCmd(s: State, a: Action): bool { a.Down? }
  function CmdSema(s: State): int { s.cmdSema }

  lemma CmdStepAt(t: State, a: Action)
    requires Enabled(t, a)
    ensures CmdSema(Step(t, a)) == CmdSema(t) + One(RaisesCmd(t, a)) - One(TakesCmd(t, a))
  {
  }

  lemma CmdStep()
    ensures forall t, a {:trigger RaisesCmd(t, a)} :: Enabled(t, a) ==> CmdSema(Step(t, a)) == CmdSema(t) + One(RaisesCmd(t, a)) - One(TakesCmd(t, a))
  {
    forall t, a {:trigger RaisesCmd(t, a)} | Enabled(t, a)
      ensures CmdSema(Step(t, a)) == CmdSema(t) + One(RaisesCmd(t, a)) - One(TakesCmd(t, a))
    {
      CmdStepAt(t, a);
    }
  }

  /** The command semaphore likewise, with one token for each command that is enqueued. */
  lemma CmdTokens(s: State, acts: seq<Action>)
    requires CanRun(s, acts)
    ensures Run(s, acts).cmdSema == s.cmdSema + CountSteps(RaisesCmd, s, acts) - CountSteps(TakesCmd, s, acts)
  {
    CmdStep();
    Telescope(CmdSema, RaisesCmd, TakesCmd, s, acts);
  }

  function Sends(s: State, a: Action): bool { a.RpwmSend? }
  function Toggle(s: State): bool { s.tog }

  lemma {:induction false} Parity(b: State -> bool, flips: (State, Action) -> bool, s: State, acts: seq<Action>)
    requires forall t, a {:trigger flips(t, a)} :: Enabled(t, a) ==> (b(Step(t, a)) <==> (b(t) != flips(t, a)))
    requires CanRun(s, acts)
    ensures b(Run(s, acts)) == (b(s) <==> CountSteps(flips, s, acts) % 2 == 0)
    decreases |acts|
  {
    if acts != [] {
      Parity(b, flips, Step(s, acts[0]), acts[1..]);
    }
  }

  lemma ToggleStepAt(t: State, a: Action)
    requires Enabled(t, a)
    ensures Toggle(Step(t, a)) <==> (Toggle(t) != Sends(t, a))
  {
  }

  lemma ToggleStep()
    ensures forall t, a {:trigger Sends(t, a)} :: Enabled(t, a) ==> (Toggle(Step(t, a)) <==> (Toggle(t) != Sends(t, a)))
  {
    forall t, a {:trigger Sends(t, a)} | Enabled(t, a)
      ensures Toggle(Step(t, a)) <==> (Toggle(t) != Sends(t, a))
    {
      ToggleStepAt(t, a);
    }
  }

  /** Every request to the chip flips the toggle, and nothing else does. */
  lemma ToggleCountsRequests(s: State, acts: seq<Action>)
    requires CanRun(s, acts)
    ensures Run(s, acts).tog == (s.tog <==> CountSteps(Sends, s, acts) % 2 == 0)
  {
    ToggleStep();
    Parity(Toggle, Sends, s, acts);
  }
}
