/**
  The leisure power-save handshake of the Wi-Fi driver together with its command
  thread, as a transition system over atomic steps.

  Everything between taking and releasing the power lock is one critical section,
  but the CPWM interrupt handler does not take that lock, so a critical section is
  cut into steps at every access to `cpwm`, which the handler writes, and at every
  write of `alives`, which the handler reads.
 */
module PowerSave {

  type Level = nat

  const PS_STATE_S0: Level := 1
  const PS_STATE_S2: Level := 2
  const PS_STATE_S4: Level := 12

  /** A command is only moved around here, so its identity is enough. */
  type Command = nat

  /** The bits of `alives`. */
  datatype Task = Cmd | Xmit | Recv | Evt

  /** Tasks that only set and clear their bit, whatever the power state. */
  predicate Plain(t: Task) {
    t == Recv || t == Evt
  }

  /** Where a call of rtw_set_rpwm returns to. */
  datatype Caller =
    | RegisterFails(task: Task)
    | UnregisterEnds(task: Task)
    | EnterEnds
    | LeaveWaits

  /** Progress of rtw_set_rpwm: entered, decided whether to ask for an answer, request written. */
  datatype Phase = Called | Decided | Sent

  /** Progress of the critical section guarded by the power lock. */
  datatype Section =
    | Free
    | Registered(task: Task)                           // alive bit set, cpwm not read yet
    | FoundAsleep(task: Task)                          // read cpwm below S2
    | Unregistered(task: Task)                         // alive bit cleared
    | EnteredPs                                        // power-save mode set
    | SettingRpwm(phase: Phase, level: Level, ack: bool, caller: Caller)
    | WaitingForS4

  /** Program counter of rtw_cmd_thread. */
  datatype Pc = Parked | Woken | Registering | Running | Drained | Unregistering

  /** Progress of cpwm_int_hdl. */
  datatype Isr = Idle | CpwmWritten | CpwmTested | CmdSignalled

  datatype State = State(
    queue: seq<Command>, accepted: seq<Command>, handled: seq<Command>,
    inserting: nat,    // callers of rtw_enqueue_cmd between the insertion and the semaphore
    cmdSema: nat, xmitSema: nat,
    pc: Pc, section: Section, isr: Isr,
    alives: set<Task>,
    cpwm: Level, rpwm: Level, tog: bool,
    psMode: bool,      // pwr_mode != PS_MODE_ACTIVE
    fwInPs: bool,      // bFwCurrentInPSMode
    pendingAcks: nat)  // PS_ACK requests that the firmware has not answered yet

  /** rtw_init_pwrctrl_priv sets cpwm and leaves rpwm as it is. */
  function Init(rpwm: Level): State {
    State([], [], [], 0, 0, 0, Parked, Free, Idle, {}, PS_STATE_S4, rpwm, false, false, false, 0)
  }

  datatype Action =
    | Insert(cmd: Command) | UpAfterInsert
    | Down | Dequeue | XmitDown
    | RegisterBegin(task: Task) | RegisterTest | RegisterRaise
    | UnregisterBegin(task: Task) | UnregisterTest
    | EnterPs | EnterTest | LeavePs | LeaveEnd
    | RpwmDecide | RpwmSend | RpwmEnd
    | Interrupt(report: Level) | Report(report: Level) | IsrTest | IsrCmd | IsrXmit

  /** The section under way will ask for an answer, put the chip to sleep, or overwrite `cpwm`. */
  predicate Repairs(s: State) {
    match s.section
    case EnteredPs => s.alives == {}
    case SettingRpwm(phase, level, ack, _) =>
      level == PS_STATE_S0 || (match phase case Called => s.rpwm != level case Decided => true case Sent => !ack)
    case _ => false
  }

  predicate OwnedByXmit(x: Section) {
    x == Registered(Xmit) || x == FoundAsleep(Xmit) || (x.SettingRpwm? && x.caller == RegisterFails(Xmit))
  }

  /** A report below S2 does no harm: the chip was told to sleep, owes an answer, or is being put right. */
  predicate Harmless(s: State) {
    s.rpwm < PS_STATE_S2 || s.pendingAcks > 0 || Repairs(s)
  }

  /** A step may happen in this state. The firmware interrupts once for each request with PS_ACK. On its own it may report
      S2 or more at any time, and less where that does no harm. The event task unregisters without taking the lock. */
  predicate Enabled(s: State, a: Action) {
    match a
    case Insert(_) => true
    case UpAfterInsert => s.inserting > 0
    case Down => s.pc == Parked && s.cmdSema > 0
    case Dequeue => s.pc == Running
    case XmitDown => s.xmitSema > 0 && !OwnedByXmit(s.section)
    case RegisterBegin(t) => s.section == Free && (t == Cmd ==> s.pc == Woken)
    case RegisterTest => s.section.Registered?
    case RegisterRaise => s.section.FoundAsleep?
    case UnregisterBegin(t) => (s.section == Free || t == Evt) && (t == Cmd ==> s.pc == Drained)
    case UnregisterTest => s.section.Unregistered?
    case EnterPs => s.section == Free
    case EnterTest => s.section.EnteredPs?
    case LeavePs => s.section == Free
    case LeaveEnd => s.section.WaitingForS4?
    case RpwmDecide => s.section.SettingRpwm? && s.section.phase == Called
    case RpwmSend => s.section.SettingRpwm? && s.section.phase == Decided
    case RpwmEnd => s.section.SettingRpwm? && s.section.phase == Sent
    case Interrupt(r) => s.isr == Idle && s.pendingAcks > 0 && r >= PS_STATE_S2
    case Report(r) => s.isr == Idle && (r >= PS_STATE_S2 || Harmless(s))
    case IsrTest => s.isr == CpwmWritten
    case IsrCmd => s.isr == CpwmTested
    case IsrXmit => s.isr == CmdSignalled
  }

  /** The end of rtw_set_rpwm, or of a section that does not call it. */
  function Return(s: State, caller: Caller): State {
    s.(section := if caller.LeaveWaits? then WaitingForS4 else Free,
       pc := if caller == RegisterFails(Cmd) || caller == UnregisterEnds(Cmd) then Parked else s.pc)
  }

  function Step(s: State, a: Action): State
    requires Enabled(s, a)
  {
    match a
    // rtw_enqueue_cmd: list insertion, then the semaphore
    case Insert(c) => s.(queue := s.queue + [c], accepted := s.accepted + [c], inserting := s.inserting + 1)
    case UpAfterInsert => s.(inserting := s.inserting - 1, cmdSema := s.cmdSema + 1)
    // rtw_cmd_thread
    case Down => s.(cmdSema := s.cmdSema - 1, pc := Woken)
    case Dequeue =>
      if s.queue == [] then s.(pc := Drained)
      else s.(handled := s.handled + [s.queue[0]], queue := s.queue[1..])
    // the transmit thread takes a token
    case XmitDown => s.(xmitSema := s.xmitSema - 1)
    // rtw_register_cmd_alive, rtw_register_tx_alive, rtw_register_rx_alive, rtw_register_evt_alive
    case RegisterBegin(t) =>
      var s1 := s.(alives := s.alives + {t});
      if Plain(t) then s1
      else s1.(section := Registered(t), pc := if t == Cmd then Registering else s.pc)
    case RegisterTest =>
      if s.fwInPs && s.cpwm < PS_STATE_S2 then s.(section := FoundAsleep(s.section.task))
      else s.(section := Free, pc := if s.section.task == Cmd then Running else s.pc)
    case RegisterRaise =>
      if s.rpwm < PS_STATE_S2 then s.(section := SettingRpwm(Called, PS_STATE_S2, false, RegisterFails(s.section.task)))
      else Return(s, RegisterFails(s.section.task))
    // rtw_unregister_cmd_alive, rtw_unregister_tx_alive, rtw_unregister_rx_alive, rtw_unregister_evt_alive
    case UnregisterBegin(t) =>
      var s1 := s.(alives := s.alives - {t});
      if Plain(t) then s1
      else s1.(section := Unregistered(t), pc := if t == Cmd then Unregistering else s.pc)
    case UnregisterTest =>
      if s.psMode && s.fwInPs && s.alives == {} && s.cpwm > PS_STATE_S0
      then s.(section := SettingRpwm(Called, PS_STATE_S0, false, UnregisterEnds(s.section.task)))
      else Return(s, UnregisterEnds(s.section.task))
    // rtw_set_ps_mode
    case EnterPs => s.(psMode := true, fwInPs := true, section := EnteredPs)
    case EnterTest =>
      if s.alives == {} then s.(section := SettingRpwm(Called, PS_STATE_S0, false, EnterEnds)) else s.(section := Free)
    case LeavePs => s.(psMode := false, section := SettingRpwm(Called, PS_STATE_S4, false, LeaveWaits))
    case LeaveEnd => s.(fwInPs := false, section := Free)  // cpwm reached S4, or the wait timed out
    // rtw_set_rpwm
    case RpwmDecide =>
      var level, caller := s.section.level, s.section.caller;
      if s.rpwm == level then Return(s, caller)
      else s.(section := SettingRpwm(Decided, level, s.cpwm < PS_STATE_S2 && level >= PS_STATE_S2, caller))
    case RpwmSend =>
      s.(rpwm := s.section.level, tog := !s.tog,
         pendingAcks := s.pendingAcks + if s.section.ack then 1 else 0,
         section := s.section.(phase := Sent))
    case RpwmEnd =>
      var s1 := if s.section.ack then s else s.(cpwm := s.section.level);
      Return(s1, s.section.caller)
    // cpwm_int_hdl
    case Interrupt(r) => s.(pendingAcks := s.pendingAcks - 1, cpwm := r, isr := CpwmWritten)
    case Report(r) => s.(cpwm := r, isr := CpwmWritten)
    case IsrTest => s.(isr := if s.cpwm >= PS_STATE_S2 then CpwmTested else Idle)
    case IsrCmd => s.(isr := CmdSignalled, cmdSema := s.cmdSema + if Cmd in s.alives then 1 else 0)
    case IsrXmit => s.(isr := Idle, xmitSema := s.xmitSema + if Xmit in s.alives then 1 else 0)
  }

  // ----- runs -----

  ghost predicate CanRun(s: State, acts: seq<Action>)
    decreases |acts|
  {
    acts == [] || (Enabled(s, acts[0]) && CanRun(Step(s, acts[0]), acts[1..]))
  }

  ghost function Run(s: State, acts: seq<Action>): State
    requires CanRun(s, acts)
    decreases |acts|
  {
    if acts == [] then s else Run(Step(s, acts[0]), acts[1..])
  }

  lemma RunFirst(s: State, a: Action, rest: seq<Action>)
    requires Enabled(s, a) && CanRun(Step(s, a), rest)
    ensures CanRun(s, [a] + rest) && Run(s, [a] + rest) == Run(Step(s, a), rest)
  {
    assert ([a] + rest)[1..] == rest;
  }

  // ----- the inductive invariant -----

  /** The interrupt handler is bound to raise the command semaphore if CMD_ALIVE stays set,
      or the firmware still owes an interrupt. */
  predicate RaiseOutstanding(s: State) {
    s.pendingAcks > 0 || s.isr == CpwmTested || (s.isr == CpwmWritten && s.cpwm >= PS_STATE_S2)
  }

  predicate WakeUpOnItsWay(s: State) {
    s.cmdSema > 0 || RaiseOutstanding(s)
  }

  /** The thread's program counter and the owner of the critical section agree. */
  predicate PcMatchesSection(s: State) {
    && (s.pc == Registering <==>
        s.section == Registered(Cmd) || s.section == FoundAsleep(Cmd) || (s.section.SettingRpwm? && s.section.caller == RegisterFails(Cmd)))
    && (s.pc == Unregistering <==>
        s.section == Unregistered(Cmd) || (s.section.SettingRpwm? && s.section.caller == UnregisterEnds(Cmd)))
  }

  predicate LevelMatchesCaller(s: State) {
    s.section.SettingRpwm? ==>
      match s.section.caller
      case RegisterFails(t) => s.section.level == PS_STATE_S2 && t in s.alives && !Plain(t)
      case UnregisterEnds(_) => s.section.level == PS_STATE_S0
      case EnterEnds => s.section.level == PS_STATE_S0
      case LeaveWaits => s.section.level == PS_STATE_S4
  }

  /** S0 is requested only while no task is alive. */
  predicate SleepOnlyWhenIdle(s: State) {
    s.section.SettingRpwm? && s.section.level == PS_STATE_S0 ==> s.alives == {}
  }

  /** What a pass through rtw_set_rpwm has established so far. */
  predicate RpwmProgress(s: State) {
    s.section.SettingRpwm? ==>
      && (s.section.phase != Sent && s.section.caller.RegisterFails? ==> s.rpwm < PS_STATE_S2)
      && (s.section.phase != Called && s.section.ack ==> s.section.level >= PS_STATE_S2)
      && (s.section.phase == Sent ==> s.rpwm == s.section.level)
  }

  /** Believing the chip asleep although it was told to wake means that an answer is due, or that this will be put right. */
  predicate AsleepMeansAnswerDue(s: State) {
    s.cpwm < PS_STATE_S2 && s.rpwm >= PS_STATE_S2 ==> s.pendingAcks > 0 || Repairs(s)
  }

  /** While the command thread is failing to register, it may only park if it will be woken. */
  predicate RegisteringIsSafe(s: State) {
    && (s.section.Registered? || s.section.FoundAsleep? ==> s.section.task in s.alives && !Plain(s.section.task))
    && (s.section == FoundAsleep(Cmd) ==> s.cpwm < PS_STATE_S2 || WakeUpOnItsWay(s))
    && (s.section.SettingRpwm? && s.section.caller == RegisterFails(Cmd) ==>
          match s.section.phase
          case Called => s.cpwm < PS_STATE_S2 || WakeUpOnItsWay(s)
          case Decided => s.section.ack || WakeUpOnItsWay(s)
          case Sent => WakeUpOnItsWay(s))
  }

  predicate ParkedIsSafe(s: State) {
    && (s.pc == Parked && Cmd in s.alives ==> WakeUpOnItsWay(s))
    && ((s.pc == Drained || s.pc == Unregistering || (s.pc == Parked && Cmd !in s.alives)) && s.queue != [] ==>
          s.inserting > 0 || s.cmdSema > 0)
    && (s.pc == Unregistering ==> Cmd !in s.alives)
    && (s.pc == Running || s.pc == Drained ==> Cmd in s.alives)
  }

  ghost predicate Inv(s: State) {
    && PcMatchesSection(s) && LevelMatchesCaller(s) && SleepOnlyWhenIdle(s) && RpwmProgress(s)
    && AsleepMeansAnswerDue(s) && RegisteringIsSafe(s) && ParkedIsSafe(s)
    && s.accepted == s.handled + s.queue
  }

  lemma EnqueueStepKeepsInv(s: State, a: Action)
    requires Inv(s) && Enabled(s, a) && (a.Insert? || a.UpAfterInsert? || a.XmitDown?)
    ensures Inv(Step(s, a))
  {
  }

  lemma ThreadStepKeepsInv(s: State, a: Action)
    requires Inv(s) && Enabled(s, a) && (a.Down? || a.Dequeue?)
    ensures Inv(Step(s, a))
  {
    if a.Dequeue? && s.queue != [] {
      assert s.queue == [s.queue[0]] + s.queue[1..];
    }
  }

  lemma RegisterBeginKeepsInv(s: State, a: Action)
    requires Inv(s) && Enabled(s, a) && a.RegisterBegin?
    ensures Inv(Step(s, a))
  {
  }

  lemma RegisterTestKeepsInv(s: State, a: Action)
    requires Inv(s) && Enabled(s, a) && a.RegisterTest?
    ensures Inv(Step(s, a))
  {
  }

  lemma RegisterRaiseKeepsInv(s: State, a: Action)
    requires Inv(s) && Enabled(s, a) && a.RegisterRaise?
    ensures Inv(Step(s, a))
  {
  }

  lemma UnregisterBeginKeepsInv(s: State, a: Action)
    requires Inv(s) && Enabled(s, a) && a.UnregisterBegin? && a.task != Evt
    ensures Inv(Step(s, a))
  {
  }

  lemma UnregisterEvtKeepsInv(s: State, a: Action)
    requires Inv(s) && Enabled(s, a) && a == UnregisterBegin(Evt)
    ensures Inv(Step(s, a))
  {
  }

  lemma UnregisterTestKeepsInv(s: State, a: Action)
    requires Inv(s) && Enabled(s, a) && a.UnregisterTest?
    ensures Inv(Step(s, a))
  {
  }

  lemma ModeStepKeepsInv(s: State, a: Action)
    requires Inv(s) && Enabled(s, a)
    requires a.EnterPs? || a.EnterTest? || a.LeavePs? || a.LeaveEnd?
    ensures Inv(Step(s, a))
  {
  }

  lemma ReturnKeepsInv(s: State)
    requires Inv(s) && s.section.SettingRpwm?
    requires s.section.caller == RegisterFails(Cmd) ==> WakeUpOnItsWay(s)
    requires s.cpwm < PS_STATE_S2 && s.rpwm >= PS_STATE_S2 ==> s.pendingAcks > 0
    ensures Inv(Return(s, s.section.caller))
  {
  }

  lemma RpwmDecideKeepsInv(s: State, a: Action)
    requires Inv(s) && Enabled(s, a) && a.RpwmDecide?
    ensures Inv(Step(s, a))
  {
    if s.rpwm == s.section.level {
      ReturnKeepsInv(s);
    }
  }

  lemma RpwmSendKeepsInv(s: State, a: Action)
    requires Inv(s) && Enabled(s, a) && a.RpwmSend?
    ensures Inv(Step(s, a))
  {
  }

  lemma RpwmEndKeepsInv(s: State, a: Action)
    requires Inv(s) && Enabled(s, a) && a.RpwmEnd?
    ensures Inv(Step(s, a))
  {
    ReturnKeepsInv(if s.section.ack then s else s.(cpwm := s.section.level));
  }

  lemma IsrStepKeepsInv(s: State, a: Action)
    requires Inv(s) && Enabled(s, a)
    requires a.Interrupt? || a.Report? || a.IsrTest? || a.IsrCmd? || a.IsrXmit?
    ensures Inv(Step(s, a))
  {
  }

  lemma StepKeepsInv(s: State, a: Action)
    requires Inv(s) && Enabled(s, a)
    ensures Inv(Step(s, a))
  {
    match a
    case Insert(_) => EnqueueStepKeepsInv(s, a);
    case UpAfterInsert => EnqueueStepKeepsInv(s, a);
    case XmitDown => EnqueueStepKeepsInv(s, a);
    case Down => ThreadStepKeepsInv(s, a);
    case Dequeue => ThreadStepKeepsInv(s, a);
    case RegisterBegin(_) => RegisterBeginKeepsInv(s, a);
    case RegisterTest => RegisterTestKeepsInv(s, a);
    case RegisterRaise => RegisterRaiseKeepsInv(s, a);
    case UnregisterBegin(task) => if task == Evt { UnregisterEvtKeepsInv(s, a); } else { UnregisterBeginKeepsInv(s, a); }
    case UnregisterTest => UnregisterTestKeepsInv(s, a);
    case EnterPs => ModeStepKeepsInv(s, a);
    case EnterTest => ModeStepKeepsInv(s, a);
    case LeavePs => ModeStepKeepsInv(s, a);
    case LeaveEnd => ModeStepKeepsInv(s, a);
    case RpwmDecide => RpwmDecideKeepsInv(s, a);
    case RpwmSend => RpwmSendKeepsInv(s, a);
    case RpwmEnd => RpwmEndKeepsInv(s, a);
    case Interrupt(_) => IsrStepKeepsInv(s, a);
    case Report(_) => IsrStepKeepsInv(s, a);
    case IsrTest => IsrStepKeepsInv(s, a);
    case IsrCmd => IsrStepKeepsInv(s, a);
    case IsrXmit => IsrStepKeepsInv(s, a);
  }

  lemma {:induction false} RunKeepsInv(s: State, acts: seq<Action>)
    requires Inv(s) && CanRun(s, acts)
    ensures Inv(Run(s, acts))
    decreases |acts|
  {
    if acts != [] {
      StepKeepsInv(s, acts[0]);
      RunKeepsInv(Step(s, acts[0]), acts[1..]);
    }
  }

  // ----- main results -----

  /** A parked thread with commands to handle is about to be woken: an enqueuer will raise its semaphore, the semaphore is
      positive, or CMD_ALIVE is set and a raise request is outstanding. */
  predicate WillBeWoken(s: State) {
    s.pc == Parked && s.queue != [] ==> s.inserting > 0 || s.cmdSema > 0 || (Cmd in s.alives && RaiseOutstanding(s))
  }

  /** No lost wake-up, over every interleaving. */
  lemma NoLostWakeUp(rpwm: Level, acts: seq<Action>)
    requires CanRun(Init(rpwm), acts)
    ensures WillBeWoken(Run(Init(rpwm), acts))
  {
    RunKeepsInv(Init(rpwm), acts);
  }

  /** Every step that asks the chip to sleep does so with no task alive, over every interleaving. */
  lemma NeverSleepsWhileAlive(rpwm: Level, acts: seq<Action>, a: Action)
    requires CanRun(Init(rpwm), acts)
    requires Enabled(Run(Init(rpwm), acts), a)
    ensures var s := Run(Init(rpwm), acts);
      a == RpwmSend && s.section.level < PS_STATE_S2 ==> s.alives == {}
  {
    RunKeepsInv(Init(rpwm), acts);
  }

  /** Commands are handled once each and in the order in which they were accepted. */
  lemma HandledInOrder(rpwm: Level, acts: seq<Action>)
    requires CanRun(Init(rpwm), acts)
    ensures var s := Run(Init(rpwm), acts); s.accepted == s.handled + s.queue
  {
    RunKeepsInv(Init(rpwm), acts);
  }

  // ----- progress: a queued command is handled by the driver's own steps -----

  /** Steps of the command thread, the interrupt handler, callers that are half-way through
      rtw_enqueue_cmd, and whoever is inside the critical section; not new outside requests. */
  predicate Internal(a: Action) {
    !(a.Insert? || a.EnterPs? || a.LeavePs? || a.Report? || a.XmitDown?)
    && (a.RegisterBegin? || a.UnregisterBegin? ==> a.task == Cmd)
  }

  predicate HandlesCommand(s: State, a: Action) {
    a.Dequeue? && s.queue != []
  }

  const TOKEN_COST := 9               // one failing pass of the command thread
  const ACK_COST := TOKEN_COST + 4    // one interrupt, which may raise the semaphore

  predicate OwnedByCmd(x: Section) {
    x == Registered(Cmd) || x == FoundAsleep(Cmd) || x == Unregistered(Cmd) ||
    (x.SettingRpwm? && (x.caller == RegisterFails(Cmd) || x.caller == UnregisterEnds(Cmd)))
  }

  function SectionLength(x: Section): nat {
    match x
    case Free => 0
    case WaitingForS4 => 1
    case SettingRpwm(phase, _, _, _) => (match phase case Called => 4 case Decided => 3 case Sent => 2)
    case Registered(_) => 6
    case FoundAsleep(_) => 5
    case Unregistered(_) => 5
    case EnteredPs => 5
  }

  /** Another task's section may still ask for one answer from the firmware. */
  function SectionCost(x: Section): nat {
    SectionLength(x) +
    if x == Free || x == WaitingForS4 || (x.SettingRpwm? && x.phase == Sent) || OwnedByCmd(x) then 0 else ACK_COST
  }

  function PcCost(pc: Pc): nat {
    match pc
    case Parked => 0
    case Woken => 8
    case Registering => 1
    case Running => 1
    case Drained => 8
    case Unregistering => 1
  }

  function IsrCost(isr: Isr): nat {
    match isr
    case Idle => 0
    case CpwmWritten => 3 + TOKEN_COST
    case CpwmTested => 2 + TOKEN_COST
    case CmdSignalled => 1
  }

  /** The command thread may still have to ask for the chip to be raised. */
  predicate MayRaise(s: State) {
    s.rpwm < PS_STATE_S2 || s.pc == Drained || s.pc == Unregistering ||
    s.section.Unregistered? || s.section.EnteredPs? || (s.section.SettingRpwm? && s.section.level == PS_STATE_S0)
  }

  function Rank(s: State): nat {
    SectionCost(s.section) + PcCost(s.pc) + IsrCost(s.isr) +
    s.inserting * (TOKEN_COST + 1) + s.cmdSema * TOKEN_COST + s.pendingAcks * ACK_COST +
    if MayRaise(s) then ACK_COST else 0
  }

  lemma RegisterTestDescends(s: State, a: Action)
    requires Inv(s) && Enabled(s, a) && s.queue != [] && (a.RegisterTest? || a.LeaveEnd?)
    ensures Rank(Step(s, a)) < Rank(s)
  {
  }

  lemma RegisterRaiseDescends(s: State, a: Action)
    requires Inv(s) && Enabled(s, a) && s.queue != [] && (a.RegisterRaise?)
    ensures Rank(Step(s, a)) < Rank(s)
  {
  }

  lemma UnregisterTestDescends(s: State, a: Action)
    requires Inv(s) && Enabled(s, a) && s.queue != [] && (a.UnregisterTest? || a.EnterTest?)
    ensures Rank(Step(s, a)) < Rank(s)
  {
  }

  lemma RpwmDecideDescends(s: State, a: Action)
    requires Inv(s) && Enabled(s, a) && s.queue != [] && a.RpwmDecide?
    ensures Rank(Step(s, a)) < Rank(s)
  {
    if OwnedByCmd(s.section) {
      RpwmDecideOfCmdDescends(s, a);
    } else {
      RpwmDecideOfOthersDescends(s, a);
    }
  }

  lemma RpwmDecideOfCmdDescends(s: State, a: Action)
    requires Inv(s) && Enabled(s, a) && s.queue != [] && a.RpwmDecide? && OwnedByCmd(s.section)
    ensures Rank(Step(s, a)) < Rank(s)
  {
  }

  lemma RpwmDecideOfOthersDescends(s: State, a: Action)
    requires Inv(s) && Enabled(s, a) && s.queue != [] && a.RpwmDecide? && !OwnedByCmd(s.section)
    ensures Rank(Step(s, a)) < Rank(s)
  {
  }

  lemma RpwmSendDescends(s: State, a: Action)
    requires Inv(s) && Enabled(s, a) && s.queue != [] && (a.RpwmSend?)
    ensures Rank(Step(s, a)) < Rank(s)
  {
  }

  lemma RpwmEndDescends(s: State, a: Action)
    requires Inv(s) && Enabled(s, a) && s.queue != [] && a.RpwmEnd?
    ensures Rank(Step(s, a)) < Rank(s)
  {
    if OwnedByCmd(s.section) {
      RpwmEndOfCmdDescends(s, a);
    } else {
      RpwmEndOfOthersDescends(s, a);
    }
  }

  lemma RpwmEndOfCmdDescends(s: State, a: Action)
    requires Inv(s) && Enabled(s, a) && s.queue != [] && a.RpwmEnd? && OwnedByCmd(s.section)
    ensures Rank(Step(s, a)) < Rank(s)
  {
  }

  lemma RpwmEndOfOthersDescends(s: State, a: Action)
    requires Inv(s) && Enabled(s, a) && s.queue != [] && a.RpwmEnd? && !OwnedByCmd(s.section)
    ensures Rank(Step(s, a)) < Rank(s)
  {
  }

  lemma IsrDescends(s: State, a: Action)
    requires Inv(s) && Enabled(s, a) && s.queue != [] && (a.Interrupt? || a.IsrTest? || a.IsrCmd? || a.IsrXmit?)
    ensures Rank(Step(s, a)) < Rank(s)
  {
  }

  lemma InternalStepDescends(s: State, a: Action)
    requires Inv(s) && Enabled(s, a) && Internal(a)
    requires s.queue != [] && !HandlesCommand(s, a)
    ensures Rank(Step(s, a)) < Rank(s)
    ensures Step(s, a).queue == s.queue && Step(s, a).handled == s.handled
  {
    match a
    case RegisterTest => RegisterTestDescends(s, a);
    case LeaveEnd => RegisterTestDescends(s, a);
    case RegisterRaise => RegisterRaiseDescends(s, a);
    case UnregisterTest => UnregisterTestDescends(s, a);
    case EnterTest => UnregisterTestDescends(s, a);
    case RpwmDecide => RpwmDecideDescends(s, a);
    case RpwmSend => RpwmSendDescends(s, a);
    case RpwmEnd => RpwmEndDescends(s, a);
    case Interrupt(_) => IsrDescends(s, a);
    case IsrTest => IsrDescends(s, a);
    case IsrCmd => IsrDescends(s, a);
    case IsrXmit => IsrDescends(s, a);
    case _ =>
  }

  function Grows(s: State, t: State): bool { s.handled <= t.handled }

  lemma GrowsStepAt(s: State, a: Action)
    requires Enabled(s, a)
    ensures Grows(s, Step(s, a))
  {
  }

  lemma GrowsStep()
    ensures forall s, a {:trigger Step(s, a)} :: Enabled(s, a) ==> Grows(s, Step(s, a))
  {
    forall s, a {:trigger Step(s, a)} | Enabled(s, a)
      ensures Grows(s, Step(s, a))
    {
      GrowsStepAt(s, a);
    }
  }

  /** What every step relates and is reflexive and transitive, a run relates. */
  lemma {:induction false} RunRelates(r: (State, State) -> bool, s: State, acts: seq<Action>)
    requires forall t, a {:trigger Step(t, a)} :: Enabled(t, a) ==> r(t, Step(t, a))
    requires (forall t :: r(t, t)) && forall t, u, v :: r(t, u) && r(u, v) ==> r(t, v)
    requires CanRun(s, acts)
    ensures r(s, Run(s, acts))
    decreases |acts|
  {
    if acts != [] {
      RunRelates(r, Step(s, acts[0]), acts[1..]);
    }
  }

  lemma HandledOnlyGrows(s: State, acts: seq<Action>)
    requires CanRun(s, acts)
    ensures s.handled <= Run(s, acts).handled
  {
    GrowsStep();
    RunRelates(Grows, s, acts);
  }

  /** Whatever the schedule, the driver's own steps handle the command at the head of the queue
      after at most Rank(s) steps. */
  lemma {:induction false} QueuedCommandIsHandled(s: State, acts: seq<Action>)
    requires Inv(s) && s.queue != []
    requires CanRun(s, acts) && forall a :: a in acts ==> Internal(a)
    requires |acts| > Rank(s)
    ensures s.handled + [s.queue[0]] <= Run(s, acts).handled
    decreases |acts|
  {
    var a, t := acts[0], Step(s, acts[0]);
    if HandlesCommand(s, a) {
      HandledOnlyGrows(t, acts[1..]);
    } else {
      InternalStepDescends(s, a);
      StepKeepsInv(s, a);
      QueuedCommandIsHandled(t, acts[1..]);
    }
  }

  /** The step that the driver can take next; reachable states with a queued command are never stuck. */
  function NextInternal(s: State): Action {
    match s.section
    case Registered(_) => RegisterTest
    case FoundAsleep(_) => RegisterRaise
    case Unregistered(_) => UnregisterTest
    case EnteredPs => EnterTest
    case WaitingForS4 => LeaveEnd
    case SettingRpwm(phase, _, _, _) =>
      (match phase case Called => RpwmDecide case Decided => RpwmSend case Sent => RpwmEnd)
    case Free =>
      match s.pc
      case Woken => RegisterBegin(Cmd)
      case Running => Dequeue
      case Drained => UnregisterBegin(Cmd)
      case _ =>
        if s.cmdSema > 0 then Down
        else if s.inserting > 0 then UpAfterInsert
        else match s.isr
          case Idle => Interrupt(PS_STATE_S2)
          case CpwmWritten => IsrTest
          case CpwmTested => IsrCmd
          case CmdSignalled => IsrXmit
  }

  lemma NeverStuck(rpwm: Level, acts: seq<Action>)
    requires CanRun(Init(rpwm), acts)
    ensures var s := Run(Init(rpwm), acts);
      s.queue != [] ==> Internal(NextInternal(s)) && Enabled(s, NextInternal(s))
  {
    RunKeepsInv(Init(rpwm), acts);
  }
}
