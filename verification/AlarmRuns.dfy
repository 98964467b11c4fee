/** What scheduler passes do to one alarm: when it is notified over a run of passes without edits. */
module AlarmRuns {
  import opened AlarmTime

  /** The alarm is notified by a pass at this time. */
  predicate Fires(a: Alarm, now: LocalTime)
    requires ValidClock(now)
  {
    MinutesUntilFired(a, now) == 0 && !a.signalled
  }

  /** The alarm after the pass: one-time alarms are disabled by firing, and the signalled flag lasts as long as the clock stays. */
  function AfterTick(a: Alarm, now: LocalTime): (b: Alarm)
    requires ValidClock(now)
    ensures b.kind == a.kind && b.days == a.days && b.hour == a.hour && b.minutes == a.minutes && b.unit == a.unit && b.volume == a.volume
  {
    var b := if Fires(a, now) then a.(signalled := true, enabled := !OneTime(a)) else a;
    if AtTime(a, now) then b else b.(signalled := false)
  }

  predicate ValidTimes(times: seq<LocalTime>) {
    forall k :: 0 <= k < |times| ==> ValidClock(times[k])
  }

  /** The alarm after the first n passes. */
  function After(a: Alarm, times: seq<LocalTime>, n: nat): (b: Alarm)
    requires ValidTimes(times) && n <= |times|
    ensures b.kind == a.kind && b.days == a.days && b.hour == a.hour && b.minutes == a.minutes && b.unit == a.unit && b.volume == a.volume
  {
    if n == 0 then a else AfterTick(After(a, times, n - 1), times[n - 1])
  }

  predicate FiresAt(a: Alarm, times: seq<LocalTime>, i: nat)
    requires ValidTimes(times) && i < |times|
  {
    Fires(After(a, times, i), times[i])
  }

  // ----- daily alarms -----

  /** Passes j to n - 1 all found the clock at the alarm's time of day. */
  ghost predicate Stays(a: Alarm, times: seq<LocalTime>, j: nat, n: nat)
    requires j <= n <= |times|
  {
    forall k :: j <= k < n ==> AtTime(a, times[k])
  }

  /** The stay that lasts up to pass n has had a pass at which the alarm was due. */
  ghost predicate DueInStay(a: Alarm, times: seq<LocalTime>, n: nat)
    requires ValidTimes(times) && n <= |times|
  {
    exists j: nat :: j < n && DueNow(a, times[j]) && Stays(a, times, j, n)
  }

  lemma DueInStayStep(a: Alarm, times: seq<LocalTime>, n: nat)
    requires ValidTimes(times) && n < |times|
    ensures DueInStay(a, times, n + 1) <==> AtTime(a, times[n]) && (DueNow(a, times[n]) || DueInStay(a, times, n))
  {
    if DueInStay(a, times, n + 1) {
      var j: nat :| j < n + 1 && DueNow(a, times[j]) && Stays(a, times, j, n + 1);
      assert AtTime(a, times[n]);
      assert j < n ==> Stays(a, times, j, n);
    } else if AtTime(a, times[n]) && DueNow(a, times[n]) {
      assert Stays(a, times, n, n + 1);
    } else if AtTime(a, times[n]) && DueInStay(a, times, n) {
      var j: nat :| j < n && DueNow(a, times[j]) && Stays(a, times, j, n);
      assert Stays(a, times, j, n + 1);
    }
  }

  lemma {:induction false} DailyState(a: Alarm, times: seq<LocalTime>, n: nat)
    requires ValidAlarm(a) && ValidTimes(times) && n <= |times| && !OneTime(a)
    ensures var b := After(a, times, n);
      b.enabled == a.enabled && (b.signalled <==> DueInStay(a, times, n) || (a.signalled && Stays(a, times, 0, n)))
  {
    if n > 0 {
      DailyState(a, times, n - 1);
      DueInStayStep(a, times, n - 1);
      ZeroMeansNow(After(a, times, n - 1), times[n - 1]);
    }
  }

  /** A daily alarm fires at the first due pass of each stay of the clock on its time, and at no other; an alarm that starts
      out signalled keeps still for the stay in which the run starts. */
  lemma DailyFiring(a: Alarm, times: seq<LocalTime>, i: nat)
    requires ValidAlarm(a) && ValidTimes(times) && i < |times| && !OneTime(a)
    ensures FiresAt(a, times, i) <==> DueNow(a, times[i]) && !DueInStay(a, times, i) && !(a.signalled && Stays(a, times, 0, i))
  {
    DailyState(a, times, i);
    ZeroMeansNow(After(a, times, i), times[i]);
  }

  /** Passes s to e - 1 are a whole stay of the clock on the alarm's time. */
  ghost predicate WholeStay(a: Alarm, times: seq<LocalTime>, s: nat, e: nat)
    requires s <= e <= |times|
  {
    Stays(a, times, s, e) && (s == 0 || !AtTime(a, times[s - 1]))
  }

  /** Within a stay, only passes of that stay count. */
  lemma DueInWholeStay(a: Alarm, times: seq<LocalTime>, s: nat, e: nat, i: nat)
    requires ValidTimes(times) && s <= i < e <= |times| && WholeStay(a, times, s, e)
    ensures DueInStay(a, times, i) <==> exists j: nat :: s <= j < i && DueNow(a, times[j])
  {
    if DueInStay(a, times, i) {
      var j: nat :| j < i && DueNow(a, times[j]) && Stays(a, times, j, i);
      assert s <= j;
    }
  }

  /** Each stay with a due pass in it has exactly one pass that notifies: the first due one. Only the stay in which a run
      starts with the alarm signalled has none. */
  lemma OncePerStay(a: Alarm, times: seq<LocalTime>, s: nat, e: nat, first: nat)
    requires ValidAlarm(a) && ValidTimes(times) && !OneTime(a)
    requires s <= first < e <= |times| && WholeStay(a, times, s, e)
    requires DueNow(a, times[first]) && forall j: nat :: s <= j < first ==> !DueNow(a, times[j])
    ensures forall i: nat :: s <= i < e ==> (FiresAt(a, times, i) <==> i == first && !(a.signalled && s == 0))
  {
    forall i: nat | s <= i < e
      ensures FiresAt(a, times, i) <==> i == first && !(a.signalled && s == 0)
    {
      assert s > 0 ==> !Stays(a, times, 0, i);
      DailyFiring(a, times, i);
      DueInWholeStay(a, times, s, e, i);
    }
  }

  /** Never outside: a pass that notifies finds the alarm due. */
  lemma {:induction false} FiresOnlyWhenDue(a: Alarm, times: seq<LocalTime>, i: nat)
    requires ValidAlarm(a) && ValidTimes(times) && i < |times| && FiresAt(a, times, i)
    ensures DueNow(a, times[i])
  {
    ZeroMeansNow(After(a, times, i), times[i]);
    if !a.enabled { StaysDisabled(a, times, 0, i); }
  }

  /** Passes never enable an alarm. */
  lemma {:induction false} StaysDisabled(a: Alarm, times: seq<LocalTime>, m: nat, n: nat)
    requires ValidTimes(times) && m <= n <= |times| && !After(a, times, m).enabled
    ensures !After(a, times, n).enabled
    decreases n - m
  {
    if m < n {
      StaysDisabled(a, times, m, n - 1);
      assert !Fires(After(a, times, n - 1), times[n - 1]);
    }
  }

  // ----- one-time alarms -----

  /** A one-time alarm fires at most once in a whole run, whatever state it starts in. */
  lemma OneTimeAtMostOnce(a: Alarm, times: seq<LocalTime>, i: nat, j: nat)
    requires ValidTimes(times) && OneTime(a) && i < j < |times| && FiresAt(a, times, i)
    ensures !FiresAt(a, times, j)
  {
    StaysDisabled(a, times, i + 1, j);
  }

  /** A one-time alarm that is enabled and not signalled fires at the first pass at its time. */
  lemma {:induction false} OneTimeFiring(a: Alarm, times: seq<LocalTime>, i: nat)
    requires ValidAlarm(a) && ValidTimes(times) && OneTime(a) && a.enabled && !a.signalled && i < |times|
    ensures FiresAt(a, times, i) <==> AtTime(a, times[i]) && forall j :: 0 <= j < i ==> !AtTime(a, times[j])
  {
    OneTimeState(a, times, i);
    ZeroMeansNow(After(a, times, i), times[i]);
  }

  lemma {:induction false} OneTimeState(a: Alarm, times: seq<LocalTime>, n: nat)
    requires ValidAlarm(a) && ValidTimes(times) && OneTime(a) && a.enabled && !a.signalled && n <= |times|
    ensures var b := After(a, times, n);
      (b.enabled <==> forall j :: 0 <= j < n ==> !AtTime(a, times[j])) && (b.enabled ==> !b.signalled)
  {
    if n > 0 {
      OneTimeState(a, times, n - 1);
      ZeroMeansNow(After(a, times, n - 1), times[n - 1]);
    }
  }
}
