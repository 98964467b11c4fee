/** The scheduler pass over all alarms, the table of next alarms per unit, and the editor lock. */
module AlarmManager {
  import opened Options
  import opened AlarmTime
  import opened AlarmRuns

  const HORIZON := 23 * 60

  datatype NextAlarm = NextAlarm(interval: int, hour: int, minutes: int)

  /** An observer, by its place among the observers, is told to start an alarm. */
  datatype Notice = Notice(observer: nat, volume: int, smooth: bool)

  predicate IsFor(a: Alarm, unit: string) {
    unit == a.unit || a.unit == ""
  }

  // ----- the next alarm of a unit -----

  function Improved(p: Option<NextAlarm>, a: Alarm, m: int): Option<NextAlarm> {
    var x := Some(NextAlarm(m, a.hour, a.minutes));
    if p.Some? then if p.value.interval > m then x else p else if m < HORIZON then x else None
  }

  /** What the pass has entered for a unit after the first n alarms. */
  function NextFor(alarms: seq<Alarm>, n: nat, now: LocalTime, unit: string): Option<NextAlarm>
    requires ValidClock(now) && n <= |alarms|
  {
    if n == 0 then None
    else
      var p := NextFor(alarms, n - 1, now, unit);
      if Waits(alarms, n - 1, now, unit) then Improved(p, alarms[n - 1], MinutesUntilFired(alarms[n - 1], now)) else p
  }

  /** Alarm i is for the unit and lies ahead. */
  predicate Waits(alarms: seq<Alarm>, i: nat, now: LocalTime, unit: string)
    requires ValidClock(now) && i < |alarms|
  {
    IsFor(alarms[i], unit) && MinutesUntilFired(alarms[i], now) > 0
  }

  lemma WaitsMeans(alarms: seq<Alarm>, i: nat, now: LocalTime, unit: string)
    requires ValidClock(now) && i < |alarms|
    ensures Waits(alarms, i, now, unit) <==> (alarms[i].unit == unit || alarms[i].unit == "") && MinutesUntilFired(alarms[i], now) > 0
  {
  }

  function Delay(alarms: seq<Alarm>, i: nat, now: LocalTime): int
    requires ValidClock(now) && i < |alarms|
  {
    MinutesUntilFired(alarms[i], now)
  }

  function Entry(alarms: seq<Alarm>, i: nat, now: LocalTime): NextAlarm
    requires ValidClock(now) && i < |alarms|
  {
    NextAlarm(Delay(alarms, i, now), alarms[i].hour, alarms[i].minutes)
  }

  /** Alarm i has the least delay among the first n alarms for the unit that lie ahead, and is the first to have it. */
  ghost predicate FirstLeast(alarms: seq<Alarm>, n: nat, now: LocalTime, unit: string, i: nat)
    requires ValidClock(now) && n <= |alarms|
  {
    && i < n && Waits(alarms, i, now, unit)
    && forall j: nat {:trigger Waits(alarms, j, now, unit)} :: j < n && Waits(alarms, j, now, unit) ==>
         Delay(alarms, i, now) <= Delay(alarms, j, now) && (j < i ==> Delay(alarms, i, now) < Delay(alarms, j, now))
  }

  /** There is an entry exactly if the least delay is below 23 hours; it holds that delay and the time of the first alarm to have it. */
  lemma {:induction false} NextIsFirstLeast(alarms: seq<Alarm>, n: nat, now: LocalTime, unit: string)
    requires ValidClock(now) && n <= |alarms|
    ensures var r := NextFor(alarms, n, now, unit);
      && (r.Some? <==> exists i: nat :: i < n && Waits(alarms, i, now, unit) && Delay(alarms, i, now) < 23 * 60)
      && (r.Some? ==> exists i: nat :: FirstLeast(alarms, n, now, unit, i) && r.value == Entry(alarms, i, now))
  {
    if n > 0 {
      NextIsFirstLeast(alarms, n - 1, now, unit);
      var p, r := NextFor(alarms, n - 1, now, unit), NextFor(alarms, n, now, unit);
      if r.Some? && r == p {
        var i: nat :| FirstLeast(alarms, n - 1, now, unit, i)
          && p.value == Entry(alarms, i, now);
        assert FirstLeast(alarms, n, now, unit, i);
      } else if r.Some? {
        if p.Some? {
          var i: nat :| FirstLeast(alarms, n - 1, now, unit, i)
            && p.value == Entry(alarms, i, now);
        }
        assert FirstLeast(alarms, n, now, unit, n - 1);
      }
    }
  }

  // ----- notices -----

  /** The first n observers that an alarm is for are told, in order. */
  function Notices(a: Alarm, observers: seq<string>, n: nat): seq<Notice>
    requires n <= |observers|
  {
    if n == 0 then []
    else if IsFor(a, observers[n - 1]) then Notices(a, observers, n - 1) + [Notice(n - 1, a.volume, a.kind != OnTimeLoud)]
    else Notices(a, observers, n - 1)
  }

  /** What the first n alarms of a pass send out. */
  function AllNotices(alarms: seq<Alarm>, n: nat, observers: seq<string>, now: LocalTime): seq<Notice>
    requires ValidClock(now) && n <= |alarms|
  {
    if n == 0 then []
    else if Fires(alarms[n - 1], now) then AllNotices(alarms, n - 1, observers, now) + Notices(alarms[n - 1], observers, |observers|)
    else AllNotices(alarms, n - 1, observers, now)
  }

  ghost predicate Told(told: seq<Notice>, j: nat) {
    exists k :: 0 <= k < |told| && told[k].observer == j
  }

  /** The notices go to observers below n, in order and to none of them twice. */
  ghost predicate InOrder(told: seq<Notice>, n: nat) {
    && (forall k :: 0 <= k < |told| ==> told[k].observer < n)
    && forall k, l :: 0 <= k < l < |told| ==> told[k].observer < told[l].observer
  }

  /** An alarm that fires tells each observer it is for once, and no other. */
  lemma {:induction false} ToldOnce(a: Alarm, observers: seq<string>, n: nat, j: nat)
    requires n <= |observers|
    ensures Told(Notices(a, observers, n), j) <==> j < n && (a.unit == observers[j] || a.unit == "")
    ensures InOrder(Notices(a, observers, n), n)
  {
    if n > 0 {
      ToldOnce(a, observers, n - 1, j);
      var s, t := Notices(a, observers, n - 1), Notices(a, observers, n);
      if IsFor(a, observers[n - 1]) {
        assert t[|s|].observer == n - 1;
        assert forall k :: 0 <= k < |s| ==> t[k] == s[k];
      }
    }
  }

  /** A notice carries the volume of its alarm and asks for a smooth start unless the alarm is a loud one-time alarm. */
  lemma {:induction false} NoticesSay(a: Alarm, observers: seq<string>, n: nat)
    requires n <= |observers|
    ensures forall k :: 0 <= k < |Notices(a, observers, n)| ==>
      Notices(a, observers, n)[k].volume == a.volume && (Notices(a, observers, n)[k].smooth <==> a.kind in {Daily, OnTimeSmooth})
  {
    if n > 0 {
      NoticesSay(a, observers, n - 1);
    }
  }

  /** How many of the first n notices go to observer j. */
  function CountTo(told: seq<Notice>, n: nat, j: nat): nat
    requires n <= |told|
  {
    if n == 0 then 0 else CountTo(told, n - 1, j) + if told[n - 1].observer == j then 1 else 0
  }

  /** How many of the first n alarms fire and are for a unit. */
  function CountFiring(alarms: seq<Alarm>, n: nat, now: LocalTime, unit: string): nat
    requires ValidClock(now) && n <= |alarms|
  {
    if n == 0 then 0
    else CountFiring(alarms, n - 1, now, unit) + if Fires(alarms[n - 1], now) && IsFor(alarms[n - 1], unit) then 1 else 0
  }

  lemma {:induction false} CountAppend(a: seq<Notice>, b: seq<Notice>, n: nat, j: nat)
    requires n <= |b|
    ensures CountTo(a + b, |a| + n, j) == CountTo(a, |a|, j) + CountTo(b, n, j)
    decreases n
  {
    if n == 0 {
      CountFront(a, b, |a|, j);
    } else {
      CountAppend(a, b, n - 1, j);
      assert (a + b)[|a| + n - 1] == b[n - 1];
    }
  }

  lemma {:induction false} CountFront(a: seq<Notice>, b: seq<Notice>, n: nat, j: nat)
    requires n <= |a|
    ensures CountTo(a + b, n, j) == CountTo(a, n, j)
  {
    if n > 0 {
      CountFront(a, b, n - 1, j);
    }
  }

  lemma {:induction false} CountOne(a: Alarm, observers: seq<string>, n: nat, j: nat)
    requires n <= |observers|
    ensures var told := Notices(a, observers, n);
      CountTo(told, |told|, j) == if j < n && IsFor(a, observers[j]) then 1 else 0
  {
    if n > 0 {
      CountOne(a, observers, n - 1, j);
      if IsFor(a, observers[n - 1]) {
        CountAppend(Notices(a, observers, n - 1), [Notice(n - 1, a.volume, a.kind != OnTimeLoud)], 1, j);
      }
    }
  }

  /** In a pass, each observer is told exactly once for each alarm that fires and is for it. */
  lemma {:induction false} ToldPerAlarm(alarms: seq<Alarm>, n: nat, observers: seq<string>, now: LocalTime, j: nat)
    requires ValidClock(now) && n <= |alarms| && j < |observers|
    ensures var told := AllNotices(alarms, n, observers, now);
      CountTo(told, |told|, j) == CountFiring(alarms, n, now, observers[j])
  {
    if n > 0 {
      ToldPerAlarm(alarms, n - 1, observers, now, j);
      if Fires(alarms[n - 1], now) {
        var more := Notices(alarms[n - 1], observers, |observers|);
        CountOne(alarms[n - 1], observers, |observers|, j);
        CountAppend(AllNotices(alarms, n - 1, observers, now), more, |more|, j);
      }
    }
  }

  /** A notice is sent exactly if it is one of an alarm that fires. */
  lemma {:induction false} ToldObservers(alarms: seq<Alarm>, n: nat, observers: seq<string>, now: LocalTime)
    requires ValidClock(now) && n <= |alarms|
    ensures forall x :: x in AllNotices(alarms, n, observers, now) <==>
      exists i: nat :: i < n && Fires(alarms[i], now) && x in Notices(alarms[i], observers, |observers|)
  {
    if n > 0 {
      ToldObservers(alarms, n - 1, observers, now);
    }
  }

  // ----- the editor lock -----

  datatype EditOp = Edit(unit: string) | Save(unit: string)

  predicate Granted(editor: string, unit: string) {
    editor == "" || editor == unit
  }

  function EditorAfter(editor: string, op: EditOp): string {
    match op
    case Edit(unit) => if Granted(editor, unit) then unit else editor
    case Save(unit) => if editor == unit then "" else editor
  }

  function EditorAfterAll(editor: string, ops: seq<EditOp>): string {
    if ops == [] then editor else EditorAfter(EditorAfterAll(editor, ops[..|ops| - 1]), ops[|ops| - 1])
  }

  /** After the operations, another unit is refused the list unless the editing unit has saved. */
  predicate Excludes(unit: string, ops: seq<EditOp>, other: string) {
    other != unit && Save(unit) !in ops ==> !Granted(EditorAfterAll(unit, ops), other)
  }

  /** From the moment a unit edits until it saves, no other unit gets the list; this is so exactly for units with a name. */
  lemma LockHeld(unit: string)
    ensures unit != "" <==> forall ops, other :: Excludes(unit, ops, other)
  {
    if unit == "" {
      var ops: seq<EditOp> := [];
      assert EditorAfterAll(unit, ops) == "";
      assert !Excludes(unit, ops, unit + ['u']);
    } else {
      forall ops, other
        ensures Excludes(unit, ops, other)
      {
        if Save(unit) !in ops { KeepsLock(unit, ops); }
      }
    }
  }

  /** Editing takes a free lock and saving gives it back: after any operations of others in between the list is free again. */
  lemma LockTakenAndReleased(unit: string, ops: seq<EditOp>)
    requires unit != "" && Save(unit) !in ops
    ensures EditorAfter("", Edit(unit)) == unit
    ensures EditorAfterAll("", [Edit(unit)] + ops) == unit && EditorAfterAll("", [Edit(unit)] + ops + [Save(unit)]) == ""
  {
    LockedFrom("", Edit(unit), ops);
    KeepsLock(unit, ops);
    var all := [Edit(unit)] + ops + [Save(unit)];
    assert all[..|all| - 1] == [Edit(unit)] + ops;
  }

  lemma {:induction false} LockedFrom(editor: string, first: EditOp, ops: seq<EditOp>)
    ensures EditorAfterAll(editor, [first] + ops) == EditorAfterAll(EditorAfter(editor, first), ops)
  {
    var all := [first] + ops;
    if ops == [] {
      assert all[..0] == [];
    } else {
      LockedFrom(editor, first, ops[..|ops| - 1]);
      assert all[..|all| - 1] == [first] + ops[..|ops| - 1];
    }
  }

  lemma {:induction false} KeepsLock(unit: string, ops: seq<EditOp>)
    requires unit != "" && Save(unit) !in ops
    ensures EditorAfterAll(unit, ops) == unit
  {
    if ops != [] {
      KeepsLock(unit, ops[..|ops| - 1]);
      assert ops[|ops| - 1] in ops;
    }
  }

  // ----- the manager -----

  function Get(m: map<string, NextAlarm>, unit: string): Option<NextAlarm> {
    if unit in m then Some(m[unit]) else None
  }

  /** A unit's entry after an alarm has been offered to the first n observers. */
  function OfferedTo(observers: seq<string>, n: nat, a: Alarm, m: int, unit: string, p: Option<NextAlarm>): Option<NextAlarm>
    requires n <= |observers|
  {
    if (exists j :: 0 <= j < n && observers[j] == unit) && IsFor(a, unit) then Improved(p, a, m) else p
  }

  /** The observers below n, in order. */
  function Everybody(n: nat): (r: seq<nat>)
    ensures |r| == n && forall j :: 0 <= j < n ==> r[j] == j
  {
    if n == 0 then [] else Everybody(n - 1) + [n - 1]
  }

  class Manager {
    var alarms: seq<Alarm>
    var nextAlarms: map<string, NextAlarm>
    var editor: string
    var sendAlarmSnooze: bool
    var sendAlarmOff: bool

    /** The names of the registered observers, in the order in which they are visited. */
    var observers: seq<string>

    constructor (alarms: seq<Alarm>, observers: seq<string>)
      ensures this.alarms == alarms && this.observers == observers && editor == "" && nextAlarms == map[]
    {
      this.alarms, this.observers, editor, nextAlarms := alarms, observers, "", map[];
      sendAlarmSnooze, sendAlarmOff := false, false;
    }

    /** The part of a pass that offers an alarm ahead to the units it is for. */
    method Offer(a: Alarm, m: int)
      modifies this`nextAlarms
      ensures forall u :: Get(nextAlarms, u) == OfferedTo(observers, |observers|, a, m, u, Get(old(nextAlarms), u))
    {
      var j := 0;
      while j < |observers|
        invariant 0 <= j <= |observers|
        invariant forall u :: Get(nextAlarms, u) == OfferedTo(observers, j, a, m, u, Get(old(nextAlarms), u))
      {
        var name := observers[j];
        if name == a.unit || a.unit == "" {
          if name in nextAlarms {
            if nextAlarms[name].interval > m {
              nextAlarms := nextAlarms[name := NextAlarm(m, a.hour, a.minutes)];
            }
          } else if m < HORIZON {
            nextAlarms := nextAlarms[name := NextAlarm(m, a.hour, a.minutes)];
          }
        }
        j := j + 1;
      }
    }

    /** The part of a pass that notifies the observers an alarm is for. */
    method Notify(a: Alarm) returns (told: seq<Notice>)
      ensures told == Notices(a, observers, |observers|)
      ensures forall k :: 0 <= k < |told| ==> told[k].volume == a.volume && (told[k].smooth <==> a.kind in {Daily, OnTimeSmooth})
    {
      NoticesSay(a, observers, |observers|);
      told := [];
      var j := 0;
      while j < |observers|
        invariant 0 <= j <= |observers| && told == Notices(a, observers, j)
      {
        if observers[j] == a.unit || a.unit == "" {
          told := told + [Notice(j, a.volume, a.kind == Daily || a.kind == OnTimeSmooth)];
        }
        j := j + 1;
      }
    }

    /** What a pass does with one alarm. */
    method Visit(i: nat, now: LocalTime) returns (told: seq<Notice>, save: bool)
      requires i < |alarms| && ValidClock(now)
      modifies this`alarms, this`nextAlarms
      ensures alarms == old(alarms)[i := AfterTick(old(alarms)[i], now)]
      ensures told == if Fires(old(alarms)[i], now) then Notices(old(alarms)[i], observers, |observers|) else []
      ensures save == (Fires(old(alarms)[i], now) && OneTime(old(alarms)[i]))
      ensures var m := MinutesUntilFired(old(alarms)[i], now);
        if m > 0 then forall u :: Get(nextAlarms, u) == OfferedTo(observers, |observers|, old(alarms)[i], m, u, Get(old(nextAlarms), u))
        else nextAlarms == old(nextAlarms)
    {
      told, save := [], false;
      var a := alarms[i];
      var minutesLeft := MinutesUntilFired(a, now);
      if minutesLeft == 0 && !a.signalled {
        told := Notify(a);
        a := a.(signalled := true);
        if a.kind == OnTimeLoud || a.kind == OnTimeSmooth {
          a := a.(enabled := false);
          save := true;
        }
      } else if minutesLeft > 0 {
        Offer(a, minutesLeft);
      }
      if a.hour != now.hour || a.minutes != now.min {
        a := a.(signalled := false);
      }
      alarms := alarms[i := a];
    }

    /** The entry of a unit once the first n of the alarms have been visited. */
    ghost predicate EntriesUpTo(all: seq<Alarm>, n: nat, now: LocalTime)
      requires ValidClock(now) && n <= |all|
      reads this
    {
      forall u {:trigger Get(nextAlarms, u)} :: Get(nextAlarms, u) == if u in observers then NextFor(all, n, now, u) else None
    }

    /** The last part of a pass: pending snooze and off requests go to every observer, once and in order. */
    method Forward() returns (snoozed: seq<nat>, off: seq<nat>)
      modifies this`sendAlarmSnooze, this`sendAlarmOff
      ensures snoozed == if old(sendAlarmSnooze) then Everybody(|observers|) else []
      ensures off == if old(sendAlarmOff) then Everybody(|observers|) else []
      ensures !sendAlarmSnooze && !sendAlarmOff
    {
      snoozed, off := [], [];
      if sendAlarmSnooze {
        for j := 0 to |observers|
          invariant snoozed == Everybody(j)
        {
          snoozed := snoozed + [j];
        }
        sendAlarmSnooze := false;
      }
      if sendAlarmOff {
        for j := 0 to |observers|
          invariant off == Everybody(j)
        {
          off := off + [j];
        }
        sendAlarmOff := false;
      }
    }

    /** One pass of alarmThread; the clock stands still during the pass. */
    method Pass(now: LocalTime) returns (told: seq<Notice>, save: bool, snoozed: seq<nat>, off: seq<nat>)
      requires ValidClock(now)
      modifies this`alarms, this`nextAlarms, this`sendAlarmSnooze, this`sendAlarmOff
      ensures editor != "" ==> unchanged(this) && told == [] && !save && snoozed == off == []
      ensures editor == "" ==> |alarms| == |old(alarms)| && forall i :: 0 <= i < |alarms| ==> alarms[i] == AfterTick(old(alarms)[i], now)
      ensures editor == "" ==> told == AllNotices(old(alarms), |old(alarms)|, observers, now)
      ensures editor == "" ==> EntriesUpTo(old(alarms), |old(alarms)|, now)
      ensures editor == "" ==> (save <==> exists i :: 0 <= i < |old(alarms)| && Fires(old(alarms)[i], now) && OneTime(old(alarms)[i]))
      ensures editor == "" ==> snoozed == (if old(sendAlarmSnooze) then Everybody(|observers|) else []) && !sendAlarmSnooze
      ensures editor == "" ==> off == (if old(sendAlarmOff) then Everybody(|observers|) else []) && !sendAlarmOff
    {
      told, save, snoozed, off := [], false, [], [];
      if editor != "" {
        return;
      }
      told, save := Schedule(now);
      snoozed, off := Forward();
    }

    /** The loop over the alarms in a pass. */
    method Schedule(now: LocalTime) returns (told: seq<Notice>, save: bool)
      requires ValidClock(now)
      modifies this`alarms, this`nextAlarms
      ensures |alarms| == |old(alarms)| && forall i :: 0 <= i < |alarms| ==> alarms[i] == AfterTick(old(alarms)[i], now)
      ensures told == AllNotices(old(alarms), |old(alarms)|, observers, now)
      ensures EntriesUpTo(old(alarms), |old(alarms)|, now)
      ensures save <==> exists i :: 0 <= i < |old(alarms)| && Fires(old(alarms)[i], now) && OneTime(old(alarms)[i])
    {
      told, save := [], false;
      nextAlarms := map[];
      ghost var all := alarms;
      var i := 0;
      while i < |alarms|
        invariant 0 <= i <= |alarms| == |all|
        invariant forall k :: 0 <= k < i ==> alarms[k] == AfterTick(all[k], now)
        invariant forall k :: i <= k < |all| ==> alarms[k] == all[k]
        invariant told == AllNotices(all, i, observers, now)
        invariant EntriesUpTo(all, i, now)
        invariant save <==> exists k :: 0 <= k < i && Fires(all[k], now) && OneTime(all[k])
      {
        var told', save' := Visit(i, now);
        told, save := told + told', save || save';
        i := i + 1;
      }
    }

    /** editAlarms; the caller gets the list only if nobody else is editing. */
    method EditAlarms(unit: string) returns (granted: bool)
      modifies this`editor
      ensures granted == Granted(old(editor), unit) && editor == EditorAfter(old(editor), Edit(unit))
      ensures granted == (old(editor) == "" || old(editor) == unit) && editor == if granted then unit else old(editor)
    {
      granted := editor == "" || editor == unit;
      if granted {
        editor := unit;
      }
    }

    /** saveAlarms(unit) */
    method SaveAlarms(unit: string) returns (saved: bool)
      modifies this`editor
      ensures saved == (old(editor) == unit) && editor == EditorAfter(old(editor), Save(unit))
      ensures editor == if saved then "" else old(editor)
    {
      saved := editor == unit;
      if saved {
        editor := "";
      }
    }
  }
}
