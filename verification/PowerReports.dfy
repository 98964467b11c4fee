/**
  Reports below S2 that nobody asked for: which of them can leave the command thread parked for good, over all runs that
  may follow.
 */
module PowerReports {
  import opened PowerSave

  /** The interrupt handler has taken such a report. */
  function Reported(s: State, report: Level): State {
    s.(cpwm := report, isr := CpwmWritten)
  }

  /** These actions, if they are a run, do not lose a wake-up. */
  ghost predicate EndsWell(s: State, acts: seq<Action>) {
    CanRun(s, acts) ==> WillBeWoken(Run(s, acts))
  }

  /** Some run leads to a parked thread with a command queued and nothing on its way to wake it. */
  ghost predicate Loses(s: State) {
    exists acts :: !EndsWell(s, acts)
  }

  lemma LosesNow(s: State)
    requires !WillBeWoken(s)
    ensures Loses(s)
  {
    var acts: seq<Action> := [];
    assert !EndsWell(s, acts);
  }

  lemma LosesNext(s: State, a: Action)
    requires Enabled(s, a) && Loses(Step(s, a))
    ensures Loses(s)
  {
    var rest :| !EndsWell(Step(s, a), rest);
    RunFirst(s, a, rest);
    assert !EndsWell(s, [a] + rest);
  }

  // ----- a chip that is believed asleep, was told to wake, and owes nothing -----

  predicate Stranded(s: State) {
    s.cpwm < PS_STATE_S2 && s.rpwm >= PS_STATE_S2 && s.pendingAcks == 0 && s.isr == Idle && !Repairs(s) && PcMatchesSection(s)
  }

  /** The thread, about to register, fails to and parks. */
  lemma WokenLoses(s: State)
    requires Stranded(s) && s.section == Free && s.fwInPs && s.pc == Woken
    requires Loses(s.(alives := s.alives + {Cmd}, pc := Parked))
    ensures Loses(s)
  {
    var s1 := Step(s, RegisterBegin(Cmd));
    var s2 := Step(s1, RegisterTest);
    assert Step(s2, RegisterRaise) == s.(alives := s.alives + {Cmd}, pc := Parked);
    LosesNext(s2, RegisterRaise);
    LosesNext(s1, RegisterTest);
    LosesNext(s, RegisterBegin(Cmd));
  }

  /** Each token of the semaphore is used up by a failing pass. */
  lemma {:induction false} ParkedLoses(s: State)
    requires Stranded(s) && s.section == Free && s.fwInPs && s.pc == Parked && s.queue != [] && s.inserting == 0
    ensures Loses(s)
    decreases s.cmdSema
  {
    if s.cmdSema == 0 {
      LosesNow(s);
    } else {
      var s1 := Step(s, Down);
      ParkedLoses(s1.(alives := s1.alives + {Cmd}, pc := Parked));
      WokenLoses(s1);
      LosesNext(s, Down);
    }
  }

  lemma {:induction false} InsertingLoses(s: State)
    requires Stranded(s) && s.section == Free && s.fwInPs && s.pc == Parked && s.queue != []
    ensures Loses(s)
    decreases s.inserting
  {
    if s.inserting == 0 {
      ParkedLoses(s);
    } else {
      InsertingLoses(Step(s, UpAfterInsert));
      LosesNext(s, UpAfterInsert);
    }
  }

  lemma ParkedInPsLoses(s: State)
    requires Stranded(s) && s.section == Free && s.fwInPs && s.pc == Parked
    ensures Loses(s)
  {
    InsertingLoses(Step(s, Insert(0)));
    LosesNext(s, Insert(0));
  }

  lemma DrainedLoses(s: State)
    requires Stranded(s) && s.section == Free && s.fwInPs && s.pc == Drained
    ensures Loses(s)
  {
    var s1 := Step(s, UnregisterBegin(Cmd));
    ParkedInPsLoses(Step(s1, UnregisterTest));
    LosesNext(s1, UnregisterTest);
    LosesNext(s, UnregisterBegin(Cmd));
  }

  lemma {:induction false} RunningLoses(s: State)
    requires Stranded(s) && s.section == Free && s.fwInPs && s.pc == Running
    ensures Loses(s)
    decreases |s.queue|
  {
    if s.queue == [] {
      DrainedLoses(Step(s, Dequeue));
    } else {
      RunningLoses(Step(s, Dequeue));
    }
    LosesNext(s, Dequeue);
  }

  /** In power save, whatever the thread is doing. */
  lemma InPsLoses(s: State)
    requires Stranded(s) && s.section == Free && s.fwInPs
    ensures Loses(s)
  {
    match s.pc
    case Parked => ParkedInPsLoses(s);
    case Woken =>
      ParkedInPsLoses(s.(alives := s.alives + {Cmd}, pc := Parked));
      WokenLoses(s);
    case Running => RunningLoses(s);
    case Drained => DrainedLoses(s);
  }

  /** With a task alive, power save can be entered without a word to the chip. */
  lemma BusyLoses(s: State)
    requires Stranded(s) && s.section == Free && s.alives != {}
    ensures Loses(s)
  {
    var s1 := Step(s, EnterPs);
    InPsLoses(Step(s1, EnterTest));
    LosesNext(s1, EnterTest);
    LosesNext(s, EnterPs);
  }

  /** The transmit task can always come alive. */
  lemma FreeLoses(s: State)
    requires Stranded(s) && s.section == Free
    ensures Loses(s)
  {
    var s1 := Step(s, RegisterBegin(Xmit));
    var s2 := Step(s1, RegisterTest);
    if s2.section == Free {
      BusyLoses(s2);
    } else {
      BusyLoses(Step(s2, RegisterRaise));
      LosesNext(s2, RegisterRaise);
    }
    LosesNext(s1, RegisterTest);
    LosesNext(s, RegisterBegin(Xmit));
  }

  /** A section that repairs nothing ends and leaves things as they are. */
  lemma SectionStaysStranded(s: State)
    requires Stranded(s) && s.section != Free
    ensures Enabled(s, NextInternal(s))
    ensures Stranded(Step(s, NextInternal(s))) && SectionLength(Step(s, NextInternal(s)).section) < SectionLength(s.section)
  {
  }

  lemma {:induction false} StrandedLoses(s: State)
    requires Stranded(s)
    ensures Loses(s)
    decreases SectionLength(s.section)
  {
    if s.section == Free {
      FreeLoses(s);
    } else {
      SectionStaysStranded(s);
      StrandedLoses(Step(s, NextInternal(s)));
      LosesNext(s, NextInternal(s));
    }
  }

  /** Such a report is harmless exactly if no run after it loses a wake-up. */
  lemma UnaskedSleepIff(s: State, report: Level)
    requires Inv(s) && s.isr == Idle && report < PS_STATE_S2
    ensures Harmless(s) <==> forall acts :: EndsWell(Reported(s, report), acts)
  {
    var t := Reported(s, report);
    if Harmless(s) {
      assert t == Step(s, Report(report));
      StepKeepsInv(s, Report(report));
      forall acts
        ensures EndsWell(t, acts)
      {
        if CanRun(t, acts) { RunKeepsInv(t, acts); }
      }
    } else {
      StrandedLoses(Step(t, IsrTest));
      LosesNext(t, IsrTest);
    }
  }

  // ----- one that does harm -----

  /** The power-save mode is entered while the transmit task is alive. */
  const BUSY_IN_PS := Init(PS_STATE_S4).(alives := {Xmit}, psMode := true, fwInPs := true)

  lemma BusyInPsIsReached() returns (acts: seq<Action>)
    ensures CanRun(Init(PS_STATE_S4), acts) && Run(Init(PS_STATE_S4), acts) == BUSY_IN_PS
  {
    var s0 := Init(PS_STATE_S4);
    var s1 := Step(s0, RegisterBegin(Xmit));
    var s2 := Step(s1, RegisterTest);
    var s3 := Step(s2, EnterPs);
    RunFirst(s3, EnterTest, []);
    RunFirst(s2, EnterPs, [EnterTest] + []);
    RunFirst(s1, RegisterTest, [EnterPs] + ([EnterTest] + []));
    RunFirst(s0, RegisterBegin(Xmit), [RegisterTest] + ([EnterPs] + ([EnterTest] + [])));
    acts := [RegisterBegin(Xmit)] + ([RegisterTest] + ([EnterPs] + ([EnterTest] + [])));
  }

  /** From there such a report leaves a command with the thread parked and nothing on its way to wake it. */
  lemma UnaskedSleepLosesWakeUp(report: Level)
    requires report < PS_STATE_S2
    ensures !Harmless(BUSY_IN_PS) && Loses(Reported(BUSY_IN_PS, report))
  {
    var t := Reported(BUSY_IN_PS, report);
    StrandedLoses(Step(t, IsrTest));
    LosesNext(t, IsrTest);
  }
}
