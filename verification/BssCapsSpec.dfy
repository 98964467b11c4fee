/**
  What an access point keeps about the capabilities of its stations: a flag per station and capability,
  a counter per capability, and the ERP octet of the beacon (section 7.3.2.13 of IEEE 802.11-2007).
 */
module BssCapsSpec {
  import opened Bytes

  /** What a station says when it joins. */
  datatype Caps = Caps(shortPreamble: bool, nonErp: bool, shortSlot: bool, ht: bool, greenfield: bool, width40: bool)

  /** The driver's flags for a station. */
  datatype Flags = Flags(noShortPreamble: bool, nonErp: bool, noShortSlot: bool, noHt: bool, noGf: bool, ht20: bool)

  const CLEAR := Flags(false, false, false, false, false, false)

  function One(b: bool): int { if b then 1 else 0 }

  /** How many stations have a flag. */
  function Count(has: Flags -> bool, ss: seq<Flags>): nat {
    CountIn(has, ss, |ss|)
  }

  function CountIn(has: Flags -> bool, ss: seq<Flags>, n: nat): nat
    requires n <= |ss|
  {
    if n == 0 then 0 else CountIn(has, ss, n - 1) + One(has(ss[n - 1]))
  }

  function NoShortPreamble(f: Flags): bool { f.noShortPreamble }
  function NonErp(f: Flags): bool { f.nonErp }
  function NoShortSlot(f: Flags): bool { f.noShortSlot }
  function NoHt(f: Flags): bool { f.noHt }
  function NoGf(f: Flags): bool { f.noGf }
  function Ht20(f: Flags): bool { f.ht20 }

  lemma {:induction false} CountInUpdate(has: Flags -> bool, ss: seq<Flags>, n: nat, i: nat, f: Flags)
    requires i < |ss| && n <= |ss|
    ensures CountIn(has, ss[i := f], n) == CountIn(has, ss, n) + if i < n then One(has(f)) - One(has(ss[i])) else 0
  {
    if n > 0 {
      CountInUpdate(has, ss, n - 1, i, f);
    }
  }

  lemma CountUpdate(has: Flags -> bool, ss: seq<Flags>, i: nat, f: Flags)
    requires i < |ss|
    ensures Count(has, ss[i := f]) == Count(has, ss) - One(has(ss[i])) + One(has(f))
  {
    CountInUpdate(has, ss, |ss|, i, f);
  }

  ghost predicate Somewhere(has: Flags -> bool, ss: seq<Flags>) {
    exists i :: 0 <= i < |ss| && has(ss[i])
  }

  lemma {:induction false} CountInZero(has: Flags -> bool, ss: seq<Flags>, n: nat)
    requires n <= |ss|
    ensures CountIn(has, ss, n) > 0 <==> exists i :: 0 <= i < n && has(ss[i])
  {
    if n > 0 {
      CountInZero(has, ss, n - 1);
    }
  }

  /** A count is zero exactly when no station has the flag. */
  lemma CountZero(has: Flags -> bool, ss: seq<Flags>)
    ensures Count(has, ss) > 0 <==> Somewhere(has, ss)
  {
    CountInZero(has, ss, |ss|);
  }

  /** Those of the first n stations that have a flag. */
  ghost function With(has: Flags -> bool, ss: seq<Flags>, n: nat): set<nat>
    requires n <= |ss|
  {
    set i: nat | i < n && has(ss[i])
  }

  lemma OneMore(has: Flags -> bool, ss: seq<Flags>, n: nat)
    requires n < |ss|
    ensures With(has, ss, n + 1) == With(has, ss, n) + if has(ss[n]) then {n} else {}
    ensures n !in With(has, ss, n)
  {
  }

  lemma {:induction false} CountInIsCardinality(has: Flags -> bool, ss: seq<Flags>, n: nat)
    requires n <= |ss|
    ensures CountIn(has, ss, n) == |With(has, ss, n)|
  {
    if n > 0 {
      CountInIsCardinality(has, ss, n - 1);
      OneMore(has, ss, n - 1);
    }
  }

  /** The count is the number of stations in the set of those with the flag. */
  lemma CountIsCardinality(has: Flags -> bool, ss: seq<Flags>)
    ensures Count(has, ss) == |With(has, ss, |ss|)|
  {
    CountInIsCardinality(has, ss, |ss|);
  }

  // ----- the ERP octet -----

  /** Bit 0: a non-ERP station is present; bit 1: use protection; bit 2: Barker preamble mode. */
  const NON_ERP_AND_PROTECTION := 3

  function LowBits(octet: Byte): int { octet as int % 4 }

  function Barker(octet: Byte): bool { octet as int / 4 % 2 == 1 }

  /** What update_bcn_erpinfo_ie makes of the octet: bits 0 and 1, then bit 2. */
  function NewOctet(octet: Byte, nonErp: int, noShortPreamble: int): (r: Byte)
    ensures LowBits(r) == if nonErp == 1 then NON_ERP_AND_PROTECTION else 0
    ensures Barker(r) <==> noShortPreamble > 0
    ensures r as int / 8 == octet as int / 8
  {
    var low := if nonErp == 1 then NON_ERP_AND_PROTECTION else 0;
    var barker := if noShortPreamble > 0 then 4 else 0;
    (octet as int / 8 * 8 + barker + low) as Byte
  }

  // ----- runs -----

  /** Flags of a station after it (re-)joined: the two HT limits are set but never cleared here. */
  function JoinedFlags(f: Flags, c: Caps): Flags {
    Flags(!c.shortPreamble, c.nonErp, !c.shortSlot, !c.ht, f.noGf || (c.ht && !c.greenfield), f.ht20 || (c.ht && !c.width40))
  }

  datatype Event = Join(i: nat, caps: Caps) | Leave(i: nat)

  datatype State = State(flags: seq<Flags>, octet: Byte)

  function FlagsAfter(f: Flags, e: Event): Flags {
    if e.Join? then JoinedFlags(f, e.caps) else CLEAR
  }

  /** The number of stations with a flag rises to one or falls to zero. */
  predicate Crosses(has: Flags -> bool, was: seq<Flags>, now: seq<Flags>) {
    (Count(has, was) == 0 && Count(has, now) == 1) || (Count(has, was) == 1 && Count(has, now) == 0)
  }

  predicate Rewrites(was: seq<Flags>, now: seq<Flags>) {
    Crosses(NonErp, was, now)
  }

  /** Whether an event calls for an update of the beacon. */
  predicate Updates(was: seq<Flags>, now: seq<Flags>, beyond11b: bool) {
    Rewrites(was, now) || (beyond11b && (Crosses(NoShortPreamble, was, now) || Crosses(NoShortSlot, was, now)))
  }

  /** The octet is rewritten only then. */
  function Step(s: State, e: Event): State
    requires e.i < |s.flags|
  {
    var flags := s.flags[e.i := FlagsAfter(s.flags[e.i], e)];
    State(flags, if Rewrites(s.flags, flags) then NewOctet(s.octet, Count(NonErp, flags), Count(NoShortPreamble, flags)) else s.octet)
  }

  predicate Within(events: seq<Event>, n: nat) {
    forall k :: 0 <= k < |events| ==> events[k].i < n
  }

  /** The state after the first n events. */
  function Run(s: State, events: seq<Event>, n: nat): (r: State)
    requires Within(events, |s.flags|) && n <= |events|
    ensures |r.flags| == |s.flags|
  {
    if n == 0 then s else Step(Run(s, events, n - 1), events[n - 1])
  }

  /** Event k rewrites the octet. */
  predicate RewrittenBy(s: State, events: seq<Event>, k: nat)
    requires Within(events, |s.flags|) && k < |events|
  {
    Rewrites(Run(s, events, k).flags, Run(s, events, k + 1).flags)
  }

  /** A flag of some station comes up, or that of the last station goes, exactly if the count crosses between 0 and 1. */
  lemma CrossesMeans(has: Flags -> bool, s: State, e: Event)
    requires e.i < |s.flags|
    ensures Crosses(has, s.flags, Step(s, e).flags) <==> (Somewhere(has, s.flags) <==> !Somewhere(has, Step(s, e).flags))
  {
    CountZero(has, s.flags);
    CountZero(has, Step(s, e).flags);
    CountUpdate(has, s.flags, e.i, FlagsAfter(s.flags[e.i], e));
  }

  // ----- bits 0 and 1 -----

  /** The beacon says the truth about non-ERP stations. */
  ghost predicate Tracks(s: State) {
    LowBits(s.octet) == if Somewhere(NonErp, s.flags) then NON_ERP_AND_PROTECTION else 0
  }

  /** After an event the beacon tells the truth exactly if it did before or the event rewrites the octet. */
  lemma StepTracks(s: State, e: Event)
    requires e.i < |s.flags|
    ensures Tracks(Step(s, e)) <==> Tracks(s) || Rewrites(s.flags, Step(s, e).flags)
  {
    CrossesMeans(NonErp, s, e);
    CountZero(NonErp, Step(s, e).flags);
  }

  /** Over every sequence of joins, re-joins and leaves, from any octet that a beacon starts with: bits 0 and 1 are set
      exactly if some station is non-ERP, if and only if they were right at the start or have been rewritten since. */
  lemma {:induction false} ErpBitsTrackStations(s: State, events: seq<Event>, n: nat)
    requires Within(events, |s.flags|) && n <= |events|
    ensures Tracks(Run(s, events, n)) <==> Tracks(s) || exists m: nat :: m < n && RewrittenBy(s, events, m)
  {
    if n > 0 {
      ErpBitsTrackStations(s, events, n - 1);
      StepTracks(Run(s, events, n - 1), events[n - 1]);
      assert RewrittenBy(s, events, n - 1) <==> Rewrites(Run(s, events, n - 1).flags, Run(s, events, n).flags);
    }
  }

  // ----- the Barker bit -----

  /** The beacon says the truth about stations without short preamble. */
  ghost predicate BarkerRight(s: State) {
    Barker(s.octet) <==> Somewhere(NoShortPreamble, s.flags)
  }

  /** An event keeps the bit right exactly if it rewrites the octet whenever the first such station comes or the last goes. */
  lemma BarkerStep(s: State, e: Event)
    requires e.i < |s.flags| && BarkerRight(s)
    ensures var r := Step(s, e);
      BarkerRight(r) <==> (Crosses(NoShortPreamble, s.flags, r.flags) ==> Rewrites(s.flags, r.flags))
  {
    CrossesMeans(NoShortPreamble, s, e);
    CountZero(NoShortPreamble, Step(s, e).flags);
  }

  /** The octet has been as it is since the first m of n events: event m - 1 rewrote it, or nothing has. */
  ghost predicate LastRewritten(s: State, events: seq<Event>, m: nat, n: nat)
    requires Within(events, |s.flags|) && m <= n <= |events|
  {
    (m == 0 || RewrittenBy(s, events, m - 1)) && forall k :: m <= k < n ==> !RewrittenBy(s, events, k)
  }

  lemma {:induction false} SomeLastRewrite(s: State, events: seq<Event>, n: nat) returns (m: nat)
    requires Within(events, |s.flags|) && n <= |events|
    ensures m <= n && LastRewritten(s, events, m, n)
  {
    if n == 0 || RewrittenBy(s, events, n - 1) {
      m := n;
    } else {
      m := SomeLastRewrite(s, events, n - 1);
    }
  }

  lemma {:induction false} OctetStays(s: State, events: seq<Event>, m: nat, n: nat)
    requires Within(events, |s.flags|) && m <= n <= |events| && forall k :: m <= k < n ==> !RewrittenBy(s, events, k)
    ensures Run(s, events, n).octet == Run(s, events, m).octet
    decreases n - m
  {
    if m < n {
      OctetStays(s, events, m, n - 1);
      assert !RewrittenBy(s, events, n - 1);
    }
  }

  /** Over every such sequence: the bit is right exactly if there are stations without short preamble now if and only if
      there were when the octet was last rewritten or, if it never was, if and only if the bit was set at the start. */
  lemma BarkerRightIff(s: State, events: seq<Event>, m: nat, n: nat)
    requires Within(events, |s.flags|) && m <= n <= |events| && LastRewritten(s, events, m, n)
    ensures BarkerRight(Run(s, events, n)) <==>
      (Somewhere(NoShortPreamble, Run(s, events, n).flags) <==>
        if m == 0 then Barker(s.octet) else Somewhere(NoShortPreamble, Run(s, events, m).flags))
  {
    OctetStays(s, events, m, n);
    if m > 0 {
      assert RewrittenBy(s, events, m - 1);
      CountZero(NoShortPreamble, Run(s, events, m).flags);
    }
  }

  /** A station without short preamble joins and the beacon does not ask for Barker preambles. */
  lemma BarkerBitMissed()
    ensures var s := State([CLEAR], 0);
      var r := Run(s, [Join(0, Caps(false, false, true, true, true, true))], 1);
      BarkerRight(s) && !BarkerRight(r) && Somewhere(NoShortPreamble, r.flags)
  {
    var s, e := State([CLEAR], 0), Join(0, Caps(false, false, true, true, true, true));
    assert Run(s, [e], 1) == Step(Run(s, [e], 0), e) == Step(s, e);
    var r := Step(s, e);
    assert NoShortPreamble(r.flags[0]) && !NonErp(r.flags[0]);
    CrossesMeans(NonErp, s, e);
  }

  /** A beacon that starts with bits 0 and 1 set keeps them while stations join, although none is non-ERP. */
  lemma ErpBitsWrongFromStart()
    ensures var r := Run(State([CLEAR], 3), [Join(0, Caps(true, false, true, true, true, true))], 1);
      !Tracks(r) && !Somewhere(NonErp, r.flags)
  {
    var s, e := State([CLEAR], 3), Join(0, Caps(true, false, true, true, true, true));
    assert Run(s, [e], 1) == Step(Run(s, [e], 0), e) == Step(s, e);
    CrossesMeans(NonErp, s, e);
  }

  // ----- the HT limits -----

  function NoGreenfield(c: Caps): bool { c.ht && !c.greenfield }
  function Only20(c: Caps): bool { c.ht && !c.width40 }

  /** Event k is a join of station i with the limit, and the station has not left since. */
  ghost predicate LimitedBy(limit: Caps -> bool, events: seq<Event>, n: nat, i: nat, k: nat)
    requires n <= |events|
  {
    k < n && events[k].Join? && events[k].i == i && limit(events[k].caps) && forall j :: k < j < n ==> events[j] != Leave(i)
  }

  ghost predicate Limited(limit: Caps -> bool, events: seq<Event>, n: nat, i: nat)
    requires n <= |events|
  {
    exists k: nat :: LimitedBy(limit, events, n, i, k)
  }

  lemma LimitedStep(limit: Caps -> bool, events: seq<Event>, n: nat, i: nat)
    requires n < |events|
    ensures Limited(limit, events, n + 1, i) <==>
      || (events[n].Join? && events[n].i == i && limit(events[n].caps))
      || (Limited(limit, events, n, i) && events[n] != Leave(i))
  {
    if Limited(limit, events, n + 1, i) {
      var k: nat :| LimitedBy(limit, events, n + 1, i, k);
      assert k < n ==> LimitedBy(limit, events, n, i, k);
    } else if events[n].Join? && events[n].i == i && limit(events[n].caps) {
      assert LimitedBy(limit, events, n + 1, i, n);
    } else if Limited(limit, events, n, i) {
      var k: nat :| LimitedBy(limit, events, n, i, k);
      assert events[n] != Leave(i) ==> LimitedBy(limit, events, n + 1, i, k);
    }
  }

  /** The flags for no greenfield and for 20 MHz tell of the past: such a flag is set exactly if the station has joined
      with the limit since it last left, whatever it said when it joined again. */
  lemma {:induction false} LimitsAreNeverWithdrawn(s: State, events: seq<Event>, n: nat, i: nat)
    requires Within(events, |s.flags|) && n <= |events| && i < |s.flags| && s.flags[i] == CLEAR
    ensures var f := Run(s, events, n).flags[i];
      (f.noGf <==> Limited(NoGreenfield, events, n, i)) && (f.ht20 <==> Limited(Only20, events, n, i))
  {
    if n > 0 {
      LimitsAreNeverWithdrawn(s, events, n - 1, i);
      LimitedStep(NoGreenfield, events, n - 1, i);
      LimitedStep(Only20, events, n - 1, i);
      var was, e := Run(s, events, n - 1), events[n - 1];
      assert Run(s, events, n).flags[i] == if e.i == i then FlagsAfter(was.flags[i], e) else was.flags[i];
    }
  }

  /** A station that joins again as a greenfield station stays flagged. */
  lemma LimitStays()
    ensures var again := [Join(0, Caps(true, false, true, true, false, true)), Join(0, Caps(true, false, true, true, true, true))];
      Run(State([CLEAR], 0), again, 2).flags[0].noGf
  {
    var again := [Join(0, Caps(true, false, true, true, false, true)), Join(0, Caps(true, false, true, true, true, true))];
    assert LimitedBy(NoGreenfield, again, 2, 0, 0);
    LimitsAreNeverWithdrawn(State([CLEAR], 0), again, 2, 0);
  }

  // ----- what the stations said -----

  datatype Said = Nothing | Said(caps: Caps)

  /** What station i said when it last joined, unless it has left since. */
  function LastSaid(events: seq<Event>, n: nat, i: nat): Said
    requires n <= |events|
  {
    if n == 0 then Nothing
    else if events[n - 1].i == i then if events[n - 1].Join? then Said(events[n - 1].caps) else Nothing
    else LastSaid(events, n - 1, i)
  }

  /** Over every run: the other four flags of a station tell what it said when it last joined. */
  lemma {:induction false} FlagsTellLastJoin(s: State, events: seq<Event>, n: nat, i: nat)
    requires Within(events, |s.flags|) && n <= |events| && i < |s.flags| && s.flags[i] == CLEAR
    ensures var f, l := Run(s, events, n).flags[i], LastSaid(events, n, i);
      && (f.nonErp <==> l.Said? && l.caps.nonErp)
      && (f.noShortPreamble <==> l.Said? && !l.caps.shortPreamble)
      && (f.noShortSlot <==> l.Said? && !l.caps.shortSlot)
      && (f.noHt <==> l.Said? && !l.caps.ht)
  {
    if n > 0 {
      FlagsTellLastJoin(s, events, n - 1, i);
      var was, e := Run(s, events, n - 1), events[n - 1];
      assert Run(s, events, n).flags[i] == if e.i == i then FlagsAfter(was.flags[i], e) else was.flags[i];
    }
  }

  /** Station i is there and said that it is non-ERP. */
  predicate SaidNonErp(events: seq<Event>, n: nat, i: nat)
    requires n <= |events|
  {
    LastSaid(events, n, i).Said? && LastSaid(events, n, i).caps.nonErp
  }

  /** From a BSS without stations, on the events alone: bits 0 and 1 are both set if some station that is there said that it is
      non-ERP and both clear if none did, if and only if they were clear at the start or have been rewritten since. */
  lemma ErpBitsTellJoins(s: State, events: seq<Event>, n: nat)
    requires Within(events, |s.flags|) && n <= |events| && forall i :: 0 <= i < |s.flags| ==> s.flags[i] == CLEAR
    ensures (Run(s, events, n).octet as int % 4 == if exists i :: 0 <= i < |s.flags| && SaidNonErp(events, n, i) then 3 else 0)
      <==> s.octet as int % 4 == 0 || exists m: nat :: m < n && RewrittenBy(s, events, m)
  {
    ErpBitsTrackStations(s, events, n);
    forall i | 0 <= i < |s.flags|
      ensures NonErp(Run(s, events, n).flags[i]) <==> SaidNonErp(events, n, i)
    {
      FlagsTellLastJoin(s, events, n, i);
    }
  }
}
