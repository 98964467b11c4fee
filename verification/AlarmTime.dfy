/** When alarms are due: the delay the scheduler computes and the moments of the week it stands for. */
module AlarmTime {
  datatype AlarmType = Daily | OnTimeSmooth | OnTimeLoud

  /** The days of the week, Sunday first. */
  type Week = d: seq<bool> | |d| == 7 witness [false, false, false, false, false, false, false]

  /** `days` tells on which days a daily alarm is due; `unit` is empty for an alarm that is for all units. */
  datatype Alarm = Alarm(enabled: bool, hour: int, minutes: int, kind: AlarmType, days: Week, unit: string, volume: int, signalled: bool)

  datatype LocalTime = LocalTime(day: int, hour: int, min: int)

  const DAY := 24 * 60
  const WEEK := 7 * DAY

  predicate ValidClock(t: LocalTime) {
    0 <= t.day < 7 && 0 <= t.hour < 24 && 0 <= t.min < 60
  }

  predicate ValidAlarm(a: Alarm) {
    0 <= a.hour < 24 && 0 <= a.minutes < 60
  }

  predicate OneTime(a: Alarm) {
    a.kind != Daily
  }

  /** minutesUntilFired */
  function MinutesUntilFired(a: Alarm, now: LocalTime): int
    requires ValidClock(now)
  {
    if !a.enabled then -1
    else
      var nextDay := if now.day < 6 then now.day + 1 else 0;
      var nowMinutes := now.hour * 60 + now.min;
      var almMinutes := a.hour * 60 + a.minutes;
      var today := a.days[now.day];
      if !OneTime(a) && ((today && almMinutes < nowMinutes) || !today) && !a.days[nextDay] then -1
      else if OneTime(a) && almMinutes < nowMinutes then almMinutes + DAY - nowMinutes
      else if !OneTime(a) && !(today && almMinutes >= nowMinutes) && a.days[nextDay] then almMinutes + DAY - nowMinutes
      else almMinutes - nowMinutes
  }

  // ----- what the delay means -----

  /** Minutes since the start of Sunday. */
  function MinuteOfWeek(t: LocalTime): int {
    t.day * DAY + t.hour * 60 + t.min
  }

  /** The alarm is due d minutes from now: its time of day has come and, for a daily alarm, on one of its days. */
  predicate DueIn(a: Alarm, now: LocalTime, d: nat)
    requires ValidClock(now)
  {
    var moment := (MinuteOfWeek(now) + d) % WEEK;
    a.enabled && moment % DAY == a.hour * 60 + a.minutes && (OneTime(a) || a.days[moment / DAY])
  }

  /** How far the scheduler looks ahead: a day for one-time alarms, to the end of tomorrow for daily ones. */
  predicate InSight(a: Alarm, now: LocalTime, d: nat) {
    if OneTime(a) then d < DAY else now.hour * 60 + now.min + d < 2 * DAY
  }

  /** The moments in sight, spelled out: today at a delay that is not negative, or tomorrow. */
  lemma DueMeans(a: Alarm, now: LocalTime, d: nat)
    requires ValidAlarm(a) && ValidClock(now) && now.hour * 60 + now.min + d < 2 * DAY
    ensures DueIn(a, now, d) <==>
      && a.enabled
      && (|| (now.hour * 60 + now.min + d == a.hour * 60 + a.minutes && (OneTime(a) || a.days[now.day]))
          || (now.hour * 60 + now.min + d == a.hour * 60 + a.minutes + DAY && (OneTime(a) || a.days[if now.day < 6 then now.day + 1 else 0])))
  {
    var m := now.hour * 60 + now.min + d;
    if m < DAY {
      Split(now.day, m);
    } else if now.day < 6 {
      Split(now.day + 1, m - DAY);
    } else {
      assert MinuteOfWeek(now) + d == WEEK + (m - DAY);
      Split(0, m - DAY);
    }
  }

  lemma Split(day: int, m: int)
    requires 0 <= day < 7 && 0 <= m < DAY
    ensures var w := (day * DAY + m) % WEEK; w % DAY == m && w / DAY == day
    ensures (WEEK + day * DAY + m) % WEEK == (day * DAY + m) % WEEK
  {
    var w := day * DAY + m;
    assert 0 <= w < WEEK;
  }

  /** The result is the least delay in sight at which the alarm is due, and -1 exactly if there is none. */
  lemma LeastDelay(a: Alarm, now: LocalTime)
    requires ValidAlarm(a) && ValidClock(now)
    ensures var r := MinutesUntilFired(a, now);
      && r >= -1
      && (r >= 0 ==> InSight(a, now, r) && DueIn(a, now, r) && forall d: nat :: d < r ==> !DueIn(a, now, d))
      && (r == -1 <==> forall d: nat :: InSight(a, now, d) ==> !DueIn(a, now, d))
  {
    var r := MinutesUntilFired(a, now);
    forall d: nat | InSight(a, now, d)
      ensures DueIn(a, now, d) ==> 0 <= r <= d
    {
      DueMeans(a, now, d);
    }
    if r >= 0 {
      DueMeans(a, now, r);
      forall d: nat | d < r
        ensures !DueIn(a, now, d)
      {
        assert InSight(a, now, d);
      }
    }
  }

  /** The alarm is due now. */
  predicate DueNow(a: Alarm, now: LocalTime)
    requires ValidClock(now)
  {
    a.enabled && AtTime(a, now) && (OneTime(a) || a.days[now.day])
  }

  predicate AtTime(a: Alarm, now: LocalTime) {
    a.hour == now.hour && a.minutes == now.min
  }

  lemma ZeroMeansNow(a: Alarm, now: LocalTime)
    requires ValidAlarm(a) && ValidClock(now)
    ensures MinutesUntilFired(a, now) == 0 <==> DueNow(a, now)
  {
  }
}
