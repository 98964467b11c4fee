/** The alarm clock of one unit: alarm, snooze and off, driven by events and by a worker that ticks once a second. */
module AlarmClock {
  import opened Options

  const SNOOZE_TIME := 9 * 60
  const ALARM_TIME := 30 * 60

  datatype ClockState = Normal | Alarm | Snooze

  /** The last command to the radio. */
  datatype Radio = Off | On(smooth: bool, volume: int)

  /** `display` and `keyboardActive` are what was last signalled; `light` is the last command to the light, if the unit has one. */
  datatype Clock = Clock(state: ClockState, counter: int, off: bool, running: bool, volume: int,
                         display: ClockState, keyboardActive: bool, radio: Radio, light: Option<bool>)

  datatype Event = Notify(volume: int, smooth: bool) | SnoozeRequest | OffRequest | Tick

  // ----- steps -----

  function Lit(c: Clock, on: bool): Option<bool> {
    if c.light.Some? then Some(on) else None
  }

  function Started(c: Clock, smooth: bool): Clock {
    c.(state := Alarm, display := Alarm, counter := 0, keyboardActive := true, radio := On(smooth, c.volume), light := Lit(c, true))
  }

  function Ended(c: Clock): Clock {
    c.(state := Normal, display := Normal, off := false, running := false, keyboardActive := false, radio := Off, light := Lit(c, false))
  }

  /** One step; a tick happens only while the worker runs. */
  function Step(c: Clock, e: Event): Clock {
    match e
    case Notify(volume, smooth) => Started(c.(volume := volume, off := false), smooth).(running := true)
    case SnoozeRequest =>
      if c.state == Alarm then c.(state := Snooze, display := Snooze, counter := 0, radio := Off, light := Lit(c, false)) else c
    case OffRequest => c.(off := true)
    case Tick =>
      if !c.running then c
      else
        var d := c.(counter := c.counter + 1, state := if c.off && c.state == Snooze then Alarm else c.state);
        match d.state
        case Normal => d
        case Alarm => if d.counter >= ALARM_TIME || d.off then Ended(d) else d
        case Snooze => if d.counter >= SNOOZE_TIME then Started(d, false) else d
  }

  function Run(c: Clock, events: seq<Event>, n: nat): Clock
    requires n <= |events|
  {
    if n == 0 then c else Step(Run(c, events, n - 1), events[n - 1])
  }

  // ----- what always holds -----

  /** Counters in range, the worker running exactly while there is an alarm, and display, keyboard, radio and light as the state says. */
  predicate Inv(c: Clock) {
    && (c.state == Alarm ==> 0 <= c.counter < ALARM_TIME)
    && (c.state == Snooze ==> 0 <= c.counter < SNOOZE_TIME)
    && (c.running <==> c.state != Normal)
    && c.display == c.state && (c.keyboardActive <==> c.state != Normal)
    && (c.radio.On? <==> c.state == Alarm) && (c.radio.On? ==> c.radio.volume == c.volume)
    && (c.light.Some? ==> (c.light.value <==> c.state == Alarm))
  }

  lemma StepKeepsInv(c: Clock, e: Event)
    requires Inv(c)
    ensures Inv(Step(c, e))
  {
  }

  lemma {:induction false} RunKeepsInv(c: Clock, events: seq<Event>, n: nat)
    requires Inv(c) && n <= |events|
    ensures Inv(Run(c, events, n))
  {
    if n > 0 {
      RunKeepsInv(c, events, n - 1);
      StepKeepsInv(Run(c, events, n - 1), events[n - 1]);
    }
  }

  // ----- what each event does -----

  /** A notification rings the alarm, with its volume, whatever the clock was doing. */
  lemma NotifyRings(c: Clock, volume: int, smooth: bool)
    ensures var d := Step(c, Notify(volume, smooth));
      && d.state == Alarm && d.display == Alarm && d.counter == 0 && !d.off && d.running && d.keyboardActive
      && d.volume == volume && d.radio == On(smooth, volume) && d.light == (if c.light.Some? then Some(true) else None)
  {
  }

  /** Snoozing silences an alarm and starts to count; it does nothing else to any other state. */
  lemma SnoozeSilences(c: Clock)
    ensures var d := Step(c, SnoozeRequest);
      && (c.state != Alarm ==> d == c)
      && (c.state == Alarm ==> d.state == Snooze && d.display == Snooze && d.counter == 0 && d.radio == Off)
      && (c.state == Alarm ==> d.light == if c.light.Some? then Some(false) else None)
      && (c.state == Alarm ==> d.volume == c.volume && d.off == c.off && d.running == c.running && d.keyboardActive == c.keyboardActive)
  {
  }

  /** Left alone, a snoozing clock keeps quiet until 540 ticks have passed and then rings again with the same volume. */
  lemma {:induction false} SnoozeRingsAgain(c: Clock, events: seq<Event>, n: nat)
    requires Inv(c) && c.state == Snooze && !c.off && n <= |events| && n <= 540 - c.counter
    requires forall k :: 0 <= k < n ==> events[k].Tick?
    ensures var d := Run(c, events, n);
      && !d.off && d.running && d.volume == c.volume
      && (n < 540 - c.counter ==> d.state == Snooze && d.counter == c.counter + n && d.radio == Off)
      && (n == 540 - c.counter ==> d.state == Alarm && d.counter == 0 && d.radio == On(false, c.volume))
  {
    if n > 0 {
      SnoozeRingsAgain(c, events, n - 1);
    }
  }

  /** Left alone, an alarm goes on as it is until 1800 ticks have passed and is then over. */
  lemma {:induction false} AlarmLasts(c: Clock, events: seq<Event>, n: nat)
    requires Inv(c) && c.state == Alarm && !c.off && n <= |events| && n <= 1800 - c.counter
    requires forall k :: 0 <= k < n ==> events[k].Tick?
    ensures var d := Run(c, events, n);
      if n < 1800 - c.counter then d == c.(counter := c.counter + n) else d.state == Normal && d.radio == Off && d.display == Normal && !d.running
  {
    if n > 0 {
      AlarmLasts(c, events, n - 1);
    }
  }

  // ----- off -----

  /** After an off request, whatever requests follow short of a new alarm, the next tick ends the alarm. */
  lemma {:induction false} OffEndsAtNextTick(c: Clock, events: seq<Event>, n: nat)
    requires Inv(c) && n <= |events|
    requires forall k :: 0 <= k < n ==> events[k].SnoozeRequest? || events[k].OffRequest?
    ensures Step(Run(Step(c, OffRequest), events, n), Tick).state == Normal
  {
    OffLasts(c, events, n);
    RunKeepsInv(Step(c, OffRequest), events, n);
  }

  lemma {:induction false} OffLasts(c: Clock, events: seq<Event>, n: nat)
    requires n <= |events| && forall k :: 0 <= k < n ==> events[k].SnoozeRequest? || events[k].OffRequest?
    ensures Run(Step(c, OffRequest), events, n).off
  {
    if n > 0 {
      OffLasts(c, events, n - 1);
    }
  }

  // ----- every alarm comes to an end -----

  /** Ticks that are left until the clock is back to normal if nobody does anything. */
  function Left(c: Clock): int {
    match c.state
    case Normal => 0
    case Alarm => if c.off then 1 else ALARM_TIME - c.counter
    case Snooze => if c.off then 1 else SNOOZE_TIME - c.counter + ALARM_TIME
  }

  function Ticks(events: seq<Event>, n: nat): nat
    requires n <= |events|
  {
    if n == 0 then 0 else Ticks(events, n - 1) + if events[n - 1].Tick? then 1 else 0
  }

  lemma StepLeft(c: Clock, e: Event)
    requires Inv(c) && (e.OffRequest? || e.Tick?)
    ensures var d := Step(c, e);
      && 0 <= Left(d) <= Left(c)
      && (e.Tick? ==> Left(d) == if c.state == Normal then 0 else Left(c) - 1)
  {
  }

  lemma {:induction false} RunLeft(c: Clock, events: seq<Event>, n: nat)
    requires Inv(c) && n <= |events| && forall k :: 0 <= k < n ==> events[k].OffRequest? || events[k].Tick?
    ensures var d := Run(c, events, n); 0 <= Left(d) && (d.state == Normal || Left(d) <= Left(c) - Ticks(events, n))
  {
    if n > 0 {
      RunLeft(c, events, n - 1);
      RunKeepsInv(c, events, n - 1);
      StepLeft(Run(c, events, n - 1), events[n - 1]);
    }
  }

  /** Without a new alarm or snooze, the clock is back to normal after at most 540 + 1800 ticks. */
  lemma EndsInTime(c: Clock, events: seq<Event>)
    requires Inv(c) && (forall k :: 0 <= k < |events| ==> events[k].OffRequest? || events[k].Tick?)
    requires Ticks(events, |events|) >= SNOOZE_TIME + ALARM_TIME
    ensures Run(c, events, |events|).state == Normal
  {
    RunLeft(c, events, |events|);
    RunKeepsInv(c, events, |events|);
  }

  /** Left alone, the clock is back to normal after exactly as many ticks as are left, and not before. */
  lemma {:induction false} EndsExactly(c: Clock, events: seq<Event>, n: nat)
    requires Inv(c) && n <= |events| && forall k :: 0 <= k < n ==> events[k].Tick?
    ensures var d := Run(c, events, n);
      Left(d) == (if n >= Left(c) then 0 else Left(c) - n) && (d.state == Normal <==> n >= Left(c))
  {
    if n > 0 {
      EndsExactly(c, events, n - 1);
    }
    RunKeepsInv(c, events, n);
    if n > 0 {
      RunKeepsInv(c, events, n - 1);
      StepLeft(Run(c, events, n - 1), events[n - 1]);
    }
  }

  // ----- the clock -----

  class AlarmClockUnit {
    var clockState: ClockState
    var alarmCounter: int
    var alarmOff: bool
    var running: bool
    var alarmVolume: int
    var display: ClockState
    var keyboardActive: bool
    var radio: Radio
    var light: Option<bool>

    ghost function View(): Clock
      reads this
    {
      Clock(clockState, alarmCounter, alarmOff, running, alarmVolume, display, keyboardActive, radio, light)
    }

    constructor (light: Option<bool>)
      requires light.Some? ==> !light.value
      ensures Inv(View()) && clockState == Normal
    {
      clockState, alarmCounter, alarmOff, running, alarmVolume := Normal, 0, false, false, 0;
      display, keyboardActive, radio, this.light := Normal, false, Off, light;
    }

    /** startAlarm */
    method StartAlarm(smooth: bool)
      modifies this
      ensures View() == Started(old(View()), smooth)
    {
      clockState := Alarm;
      display := clockState;
      alarmCounter := 0;
      keyboardActive := true;
      radio := On(smooth, alarmVolume);
      if light.Some? {
        light := Some(true);
      }
    }

    /** alarmNotify */
    method AlarmNotify(volume: int, smooth: bool)
      modifies this
      ensures View() == Step(old(View()), Notify(volume, smooth))
    {
      alarmVolume := volume;
      alarmOff := false;
      StartAlarm(smooth);
      running := true;
    }

    /** alarmSnooze */
    method AlarmSnooze()
      modifies this
      ensures View() == Step(old(View()), SnoozeRequest)
    {
      if clockState == Alarm {
        clockState := Snooze;
        display := clockState;
        radio := Off;
        if light.Some? {
          light := Some(false);
        }
        alarmCounter := 0;
      }
    }

    /** alarmOff */
    method RequestOff()
      modifies this
      ensures View() == Step(old(View()), OffRequest)
    {
      alarmOff := true;
    }

    /** One round of alarmMaintenanceThread. */
    method Maintain()
      requires running
      modifies this
      ensures View() == Step(old(View()), Tick)
    {
      alarmCounter := alarmCounter + 1;
      if alarmOff && clockState == Snooze {
        clockState := Alarm;
      }
      match clockState {
        case Normal =>
        case Alarm =>
          if alarmCounter >= ALARM_TIME || alarmOff {
            alarmOff := false;
            clockState := Normal;
            display := clockState;
            keyboardActive := false;
            radio := Off;
            if light.Some? {
              light := Some(false);
            }
            running := false;
          }
        case Snooze =>
          if alarmCounter >= SNOOZE_TIME {
            StartAlarm(false);
          }
      }
    }
  }
}
