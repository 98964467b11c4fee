/**
  The power-control and command-queue functions in their sequential form. Each method
  is proved to be one uninterrupted path of the transition system in PowerSave, so what
  is proved there about interleavings is about these functions.
 */
module PwrCtrl {
  import opened PowerSave

  /** Runs the current critical section to its end without an interrupt. */
  ghost function Finish(s: State): State
    decreases SectionLength(s.section)
  {
    if s.section == Free then s else Finish(Step(s, NextInternal(s)))
  }

  /** The state after rtw_set_rpwm returns to its caller. */
  function AfterRpwm(s: State, level: Level, caller: Caller): State {
    if s.rpwm == level then Return(s, caller)
    else
      var ack := s.cpwm < PS_STATE_S2 && level >= PS_STATE_S2;
      Return(s.(rpwm := level, tog := !s.tog,
                pendingAcks := s.pendingAcks + if ack then 1 else 0,
                cpwm := if ack then s.cpwm else level), caller)
  }

  /** An uninterrupted section is a run of the transition system. */
  lemma {:induction false} FinishIsRun(s: State) returns (acts: seq<Action>)
    ensures CanRun(s, acts) && Run(s, acts) == Finish(s) && Finish(s).section == Free
    ensures forall a :: a in acts ==> Internal(a)
    decreases SectionLength(s.section)
  {
    if s.section == Free {
      acts := [];
    } else {
      var a := NextInternal(s);
      var rest := FinishIsRun(Step(s, a));
      RunFirst(s, a, rest);
      acts := [a] + rest;
    }
  }

  lemma FinishFromCalled(s: State)
    requires s.section.SettingRpwm? && s.section.phase == Called
    ensures Finish(s) == Finish(AfterRpwm(s, s.section.level, s.section.caller))
  {
    var s1 := Step(s, RpwmDecide);
    assert Finish(s) == Finish(s1);
    if s.rpwm != s.section.level {
      var s2 := Step(s1, RpwmSend);
      assert Finish(s1) == Finish(s2);
      var s3 := Step(s2, RpwmEnd);
      assert Finish(s2) == Finish(s3);
      assert s3 == AfterRpwm(s, s.section.level, s.section.caller);
    }
  }

  function AfterRegister(s: State, task: Task): State {
    var s1 := s.(alives := s.alives + {task});
    if Plain(task) then s1
    else if s.fwInPs && s.cpwm < PS_STATE_S2 then
      if s.rpwm < PS_STATE_S2 then AfterRpwm(s1, PS_STATE_S2, RegisterFails(task))
      else Return(s1, RegisterFails(task))
    else if task == Cmd then s1.(pc := Running)
    else s1
  }

  function AfterUnregister(s: State, task: Task): State {
    var s1 := s.(alives := s.alives - {task});
    if Plain(task) then s1
    else if s.psMode && s.fwInPs && s1.alives == {} && s.cpwm > PS_STATE_S0
    then AfterRpwm(s1, PS_STATE_S0, UnregisterEnds(task))
    else Return(s1, UnregisterEnds(task))
  }

  function AfterSetPsMode(s: State, active: bool): State {
    if active then AfterRpwm(s.(psMode := false), PS_STATE_S4, LeaveWaits).(fwInPs := false, section := Free)
    else
      var s1 := s.(psMode := true, fwInPs := true);
      if s.alives == {} then AfterRpwm(s1, PS_STATE_S0, EnterEnds) else s1
  }

  /** The state after an interrupt; `answer` tells whether it answers a request with PS_ACK. */
  function AfterInterrupt(s: State, report: Level, answer: bool): State
    requires answer ==> s.pendingAcks > 0
  {
    s.(pendingAcks := s.pendingAcks - if answer then 1 else 0, cpwm := report,
       cmdSema := s.cmdSema + if report >= PS_STATE_S2 && Cmd in s.alives then 1 else 0,
       xmitSema := s.xmitSema + if report >= PS_STATE_S2 && Xmit in s.alives then 1 else 0)
  }

  /** rtw_register_cmd_alive and rtw_register_tx_alive, uninterrupted, are a path of the machine. */
  lemma RegisterIsPath(s: State, task: Task)
    requires Enabled(s, RegisterBegin(task))
    ensures Finish(Step(s, RegisterBegin(task))) == AfterRegister(s, task)
  {
    var s1 := Step(s, RegisterBegin(task));
    if !Plain(task) {
      var s2 := Step(s1, RegisterTest);
      assert Finish(s1) == Finish(s2);
      if s2.section.FoundAsleep? {
        FinishFromAsleep(s2);
      }
    }
  }

  lemma FinishFromAsleep(s: State)
    requires s.section.FoundAsleep?
    ensures var caller := RegisterFails(s.section.task);
      Finish(s) == Finish(if s.rpwm < PS_STATE_S2 then AfterRpwm(s, PS_STATE_S2, caller) else Return(s, caller))
  {
    var s1 := Step(s, RegisterRaise);
    assert Finish(s) == Finish(s1);
    if s1.section.SettingRpwm? {
      FinishFromCalled(s1);
    }
  }

  lemma UnregisterIsPath(s: State, task: Task)
    requires Enabled(s, UnregisterBegin(task)) && s.section == Free
    ensures Finish(Step(s, UnregisterBegin(task))) == AfterUnregister(s, task)
  {
    var s1 := Step(s, UnregisterBegin(task));
    if !Plain(task) {
      var s2 := Step(s1, UnregisterTest);
      assert Finish(s1) == Finish(s2);
      if s2.section.SettingRpwm? {
        FinishFromCalled(s2);
      }
    }
  }

  /** The chip is asked to sleep exactly when the last task goes in power save and it is not asleep yet. */
  lemma LastTaskSleeps(s: State, task: Task)
    requires Enabled(s, UnregisterBegin(task)) && s.section == Free && task in {Cmd, Xmit} && s.rpwm != PS_STATE_S0
    ensures var t := Finish(Step(s, UnregisterBegin(task)));
      && (t.rpwm == PS_STATE_S0 <==> s.psMode && s.fwInPs && s.alives - {task} == {} && s.cpwm > PS_STATE_S0)
      && (t.rpwm == PS_STATE_S0 ==> t.cpwm == PS_STATE_S0 && t.tog != s.tog)
      && (t.rpwm != PS_STATE_S0 ==> t.rpwm == s.rpwm && t.cpwm == s.cpwm && t.tog == s.tog)
  {
    UnregisterIsPath(s, task);
  }

  /** Entering power save puts the chip to sleep exactly when no task is alive. */
  lemma IdleSleeps(s: State)
    requires s.section == Free && s.rpwm != PS_STATE_S0
    ensures var t := Finish(Step(s, EnterPs));
      && t.psMode && t.fwInPs && (t.rpwm == PS_STATE_S0 <==> s.alives == {}) && (t.rpwm != PS_STATE_S0 ==> t.rpwm == s.rpwm)
  {
    EnterPsIsPath(s);
  }

  lemma EnterPsIsPath(s: State)
    requires s.section == Free
    ensures Finish(Step(s, EnterPs)) == AfterSetPsMode(s, false)
  {
    var s1 := Step(s, EnterPs);
    var s2 := Step(s1, EnterTest);
    assert Finish(s1) == Finish(s2);
    if s2.section.SettingRpwm? {
      FinishFromCalled(s2);
    }
  }

  lemma LeavePsIsPath(s: State)
    requires s.section == Free
    ensures Finish(Step(s, LeavePs)) == AfterSetPsMode(s, true)
  {
    var s1 := Step(s, LeavePs);
    FinishFromCalled(s1);
    var s2 := AfterRpwm(s1, PS_STATE_S4, LeaveWaits);
    assert Finish(s2) == Finish(Step(s2, LeaveEnd));
  }

  lemma InterruptIsPath(s: State, report: Level, answer: bool)
    requires s.isr == Idle && report >= PS_STATE_S2 && (answer ==> s.pendingAcks > 0)
    ensures var a := if answer then Interrupt(report) else Report(report);
      Step(Step(Step(Step(s, a), IsrTest), IsrCmd), IsrXmit) == AfterInterrupt(s, report, answer)
  {
  }

  /** rtw_cmd_filter; `allowed` marks the commands that may be queued before the hardware is up. */
  predicate PassesFilter(allowed: bool, hwInitCompleted: bool, cmdthdRunning: bool) {
    (hwInitCompleted || allowed) && cmdthdRunning
  }

  const PS_MODE_ACTIVE := 0
  const PM_CARD_DISABLE := 10

  class Adapter {
    var cmdQueue: seq<Command>
    var cmdQueueSema: nat
    var xmitSema: nat
    var alives: set<Task>
    var cpwm: Level
    var rpwm: Level
    var tog: bool
    var pwrMode: nat
    var smartPs: nat
    var fwInPs: bool
    ghost var pendingAcks: nat
    ghost var pc: Pc
    ghost var accepted: seq<Command>
    ghost var handled: seq<Command>
    ghost var inserting: nat

    /** The state of the transition system when no critical section and no interrupt is in progress. */
    ghost function View(): State
      reads this
    {
      State(cmdQueue, accepted, handled, inserting, cmdQueueSema, xmitSema, pc, Free, Idle,
            alives, cpwm, rpwm, tog, pwrMode != PS_MODE_ACTIVE, fwInPs, pendingAcks)
    }

    constructor (rpwm: Level)
      ensures View() == Init(rpwm)
    {
      cmdQueue, cmdQueueSema, xmitSema, alives := [], 0, 0, {};
      cpwm, this.rpwm, tog, pwrMode, smartPs, fwInPs := PS_STATE_S4, rpwm, false, PS_MODE_ACTIVE, 0, false;
      pendingAcks, pc, accepted, handled, inserting := 0, Parked, [], [], 0;
    }

    method SetRpwm(level: Level)
      modifies this`rpwm, this`cpwm, this`tog, this`pendingAcks
      ensures View() == AfterRpwm(old(View()), level, EnterEnds)
      ensures rpwm == level && tog == (old(tog) != (old(rpwm) != level))
      ensures var ack := old(rpwm) != level && old(cpwm) < PS_STATE_S2 <= level;
        && pendingAcks == old(pendingAcks) + (if ack then 1 else 0)
        && cpwm == if old(rpwm) == level || ack then old(cpwm) else level
    {
      if rpwm == level {
        return;
      }
      var ack := cpwm < PS_STATE_S2 && level >= PS_STATE_S2;
      rpwm := level;
      pendingAcks := pendingAcks + if ack then 1 else 0;
      tog := !tog;
      if !ack {
        cpwm := level;
      }
    }

    /** rtw_register_cmd_alive, rtw_register_tx_alive, rtw_register_rx_alive, rtw_register_evt_alive */
    method RegisterAlive(task: Task) returns (success: bool)
      requires task == Cmd ==> pc == Woken
      modifies this`alives, this`rpwm, this`cpwm, this`tog, this`pendingAcks, this`pc
      ensures View() == AfterRegister(old(View()), task)
      ensures success <==> Plain(task) || !(old(fwInPs) && old(cpwm) < PS_STATE_S2)
      ensures task == Cmd ==> pc == (if success then Running else Parked)
      ensures alives == old(alives) + {task}
      ensures rpwm == if !success && old(rpwm) < PS_STATE_S2 then PS_STATE_S2 else old(rpwm)
    {
      success := true;
      alives := alives + {task};
      if !Plain(task) && fwInPs && cpwm < PS_STATE_S2 {
        success := false;
      }
      if task == Cmd {
        pc := if success then Running else Parked;
      }
      if !success && rpwm < PS_STATE_S2 {
        SetRpwm(PS_STATE_S2);
      }
    }

    /** rtw_unregister_cmd_alive, rtw_unregister_tx_alive, rtw_unregister_rx_alive, rtw_unregister_evt_alive */
    method UnregisterAlive(task: Task)
      requires task == Cmd ==> pc == Drained
      modifies this`alives, this`rpwm, this`cpwm, this`tog, this`pendingAcks, this`pc
      ensures View() == AfterUnregister(old(View()), task)
      ensures task == Cmd ==> pc == Parked
      ensures alives == old(alives) - {task}
      ensures rpwm == if task in {Cmd, Xmit} && pwrMode != PS_MODE_ACTIVE && fwInPs && old(alives) - {task} == {} && old(cpwm) > PS_STATE_S0
        then PS_STATE_S0 else old(rpwm)
    {
      alives := alives - {task};
      if !Plain(task) && pwrMode != PS_MODE_ACTIVE && fwInPs {
        if alives == {} && cpwm > PS_STATE_S0 {
          SetRpwm(PS_STATE_S0);
        }
      }
      if task == Cmd {
        pc := Parked;
      }
    }

    /** rtw_set_ps_mode; `ready` is the answer of PS_RDY_CHECK and `oppPs` tells that P2P opportunistic power save is on. */
    method SetPsMode(mode: nat, smart: nat, ready: bool, oppPs: bool)
      modifies this`pwrMode, this`smartPs, this`fwInPs, this`rpwm, this`cpwm, this`tog, this`pendingAcks
      ensures var acts := mode <= PM_CARD_DISABLE && (old(pwrMode) != mode || old(smartPs) != smart)
                && if mode == PS_MODE_ACTIVE then !oppPs else ready;
        && View() == (if acts then AfterSetPsMode(old(View()), mode == PS_MODE_ACTIVE) else old(View()))
        && (pwrMode, smartPs) == (if acts then (mode, smart) else (old(pwrMode), old(smartPs)))
        && (acts && mode == PS_MODE_ACTIVE ==> rpwm == PS_STATE_S4 && !fwInPs)
        && (acts && mode != PS_MODE_ACTIVE ==> fwInPs && rpwm == if alives == {} then PS_STATE_S0 else old(rpwm))
    {
      if mode > PM_CARD_DISABLE {
        return;
      }
      if pwrMode == mode && smartPs == smart {
        return;
      }
      if mode == PS_MODE_ACTIVE {
        if !oppPs {
          smartPs := smart;
          LeavePsMode();
        }
      } else if ready {
        smartPs := smart;
        EnterPsMode(mode);
      }
    }

    method LeavePsMode()
      modifies this`pwrMode, this`fwInPs, this`rpwm, this`cpwm, this`tog, this`pendingAcks
      ensures pwrMode == PS_MODE_ACTIVE && View() == AfterSetPsMode(old(View()), true)
      ensures rpwm == PS_STATE_S4 && !fwInPs
    {
      pwrMode := PS_MODE_ACTIVE;
      SetRpwm(PS_STATE_S4);
      fwInPs := false;
    }

    method EnterPsMode(mode: nat)
      requires mode != PS_MODE_ACTIVE
      modifies this`pwrMode, this`fwInPs, this`rpwm, this`cpwm, this`tog, this`pendingAcks
      ensures pwrMode == mode && View() == AfterSetPsMode(old(View()), false)
      ensures fwInPs && rpwm == if alives == {} then PS_STATE_S0 else old(rpwm)
    {
      pwrMode := mode;
      fwInPs := true;
      if alives == {} {
        SetRpwm(PS_STATE_S0);
      }
    }

    /** cpwm_int_hdl, for any report, asked for or not. */
    method CpwmIntHdl(report: Level, ghost answer: bool)
      requires answer ==> pendingAcks > 0
      modifies this`cpwm, this`pendingAcks, this`cmdQueueSema, this`xmitSema
      ensures View() == AfterInterrupt(old(View()), report, answer)
      ensures cpwm == report
      ensures cmdQueueSema == old(cmdQueueSema) + if report >= PS_STATE_S2 && Cmd in alives then 1 else 0
      ensures xmitSema == old(xmitSema) + if report >= PS_STATE_S2 && Xmit in alives then 1 else 0
    {
      pendingAcks := pendingAcks - if answer then 1 else 0;
      cpwm := report;
      if cpwm >= PS_STATE_S2 {
        if Cmd in alives {
          cmdQueueSema := cmdQueueSema + 1;
        }
        if Xmit in alives {
          xmitSema := xmitSema + 1;
        }
      }
    }

    /** rtw_enqueue_cmd; the command is dropped if rtw_cmd_filter refuses it. */
    method EnqueueCmd(cmd: Command, allowed: bool, hwInitCompleted: bool, cmdthdRunning: bool) returns (ok: bool)
      modifies this`cmdQueue, this`cmdQueueSema, this`accepted
      ensures ok <==> (hwInitCompleted || allowed) && cmdthdRunning
      ensures cmdQueue == old(cmdQueue) + (if ok then [cmd] else []) && cmdQueueSema == old(cmdQueueSema) + if ok then 1 else 0
      ensures View() == if ok then Step(Step(old(View()), Insert(cmd)), UpAfterInsert) else old(View())
    {
      if !PassesFilter(allowed, hwInitCompleted, cmdthdRunning) {
        return false;
      }
      cmdQueue := cmdQueue + [cmd];
      accepted := accepted + [cmd];
      cmdQueueSema := cmdQueueSema + 1;
      return true;
    }

    method DequeueCmd() returns (found: bool, cmd: Command)
      requires pc == Running
      modifies this`cmdQueue, this`handled, this`pc
      ensures View() == Step(old(View()), Dequeue)
      ensures found <==> old(cmdQueue) != []
      ensures found ==> cmd == old(cmdQueue)[0] && handled == old(handled) + [cmd] &&
                        cmdQueue == old(cmdQueue)[1..] && pc == Running
      ensures !found ==> pc == Drained && cmdQueue == [] && handled == old(handled)
    {
      if cmdQueue == [] {
        pc := Drained;
        return false, 0;
      }
      found, cmd := true, cmdQueue[0];
      cmdQueue := cmdQueue[1..];
      handled := handled + [cmd];
    }

    /** The loop of rtw_cmd_thread from `_next` until the queue is empty. */
    method DrainQueue()
      requires pc == Running
      modifies this`cmdQueue, this`handled, this`pc
      ensures View() == old(View()).(queue := [], handled := old(handled) + old(cmdQueue), pc := Drained)
    {
      var found := true;
      while found
        invariant handled + cmdQueue == old(handled) + old(cmdQueue)
        invariant pc == if found then Running else Drained
        invariant !found ==> cmdQueue == []
        decreases |cmdQueue|, found
      {
        ghost var before := cmdQueue;
        var cmd;
        found, cmd := DequeueCmd();
        if found {
          assert before == [cmd] + cmdQueue;
        }
      }
    }

    /** One wake-up of rtw_cmd_thread: either the chip is asleep and the thread parks again with
        CMD_ALIVE set, or it handles everything that is queued, in order, and unregisters. */
    method CmdThreadPass() returns (success: bool)
      requires pc == Parked && cmdQueueSema > 0
      modifies this
      ensures success <==> !(old(fwInPs) && old(cpwm) < PS_STATE_S2)
      ensures success ==> cmdQueue == [] && handled == old(handled) + old(cmdQueue) && Cmd !in alives
      ensures !success ==> cmdQueue == old(cmdQueue) && handled == old(handled) && Cmd in alives
      ensures var s := AfterRegister(Step(old(View()), Down), Cmd);
        View() == if success then AfterUnregister(s.(queue := [], handled := s.handled + s.queue, pc := Drained), Cmd) else s
    {
      cmdQueueSema := cmdQueueSema - 1;
      pc := Woken;
      assert View() == Step(old(View()), Down);
      success := RegisterAlive(Cmd);
      if success {
        DrainQueue();
        UnregisterAlive(Cmd);
      }
    }
  }

  lemma Assoc1(a: seq<Command>, b: seq<Command>)
    requires b != []
    ensures (a + [b[0]]) + b[1..] == a + b
  {
  }

  /** Draining the queue is a run of dequeuing steps. */
  lemma {:induction false} DrainIsRun(s: State) returns (acts: seq<Action>)
    requires s.pc == Running
    ensures (forall a :: a in acts ==> a == Dequeue) && CanRun(s, acts)
    ensures Run(s, acts) == s.(queue := [], handled := s.handled + s.queue, pc := Drained)
    decreases |s.queue|
  {
    var t := Step(s, Dequeue);
    var rest := [];
    if s.queue == [] {
      assert s.handled + s.queue == s.handled;
    } else {
      rest := DrainIsRun(t);
      Assoc1(s.handled, s.queue);
    }
    RunFirst(s, Dequeue, rest);
    acts := [Dequeue] + rest;
  }

  /** A whole uninterrupted section keeps the invariant of the transition system. */
  lemma SectionKeepsInv(s: State, a: Action)
    requires Inv(s) && Enabled(s, a)
    ensures Inv(Finish(Step(s, a)))
  {
    StepKeepsInv(s, a);
    var acts := FinishIsRun(Step(s, a));
    RunKeepsInv(Step(s, a), acts);
  }
}
