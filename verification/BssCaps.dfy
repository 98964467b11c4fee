/** Capability bookkeeping of an access point while stations join, re-join and leave. */
module BssCaps {
  import opened Bytes
  import opened Options
  import opened Elements
  import opened ElementBuffer
  import opened BeaconElements
  import opened BssCapsSpec

  const ERPINFO_IE: Byte := 42
  const TIM_IE: Byte := 5
  const VENDOR_IE: Byte := 221
  const FIXED_PART: Byte := 0xFF
  const WPS_OUI: seq<Byte> := [0x00, 0x50, 0xf2, 0x04]

  // ----- the ERP octet in the beacon -----

  function ErpAt(es: seq<Elem>): nat {
    FirstMatch(es, 0, ERPINFO_IE, None)
  }

  predicate HasErp(es: seq<Elem>) {
    ErpAt(es) < |es| && |es[ErpAt(es)].body| > 0
  }

  function Octet(es: seq<Elem>): Byte
    requires HasErp(es)
  {
    es[ErpAt(es)].body[0]
  }

  function WithOctet(es: seq<Elem>, o: Byte): seq<Elem>
    requires HasErp(es)
  {
    es[ErpAt(es) := Elem(es[ErpAt(es)].id, es[ErpAt(es)].body[0 := o])]
  }

  /** Writing the octet changes nothing else and is read back. */
  lemma OctetWritten(es: seq<Elem>, o: Byte)
    requires HasErp(es)
    ensures HasErp(WithOctet(es, o)) && ErpAt(WithOctet(es, o)) == ErpAt(es) && Octet(WithOctet(es, o)) == o
    ensures WithOctet(es, Octet(es)) == es
  {
    var k, fs := ErpAt(es), WithOctet(es, o);
    FirstMatchIsFirst(es, 0, ERPINFO_IE, None);
    SameFirst(es, fs, 0, k);
    assert es[k].body[0 := es[k].body[0]] == es[k].body;
  }

  lemma {:induction false} SameFirst(es: seq<Elem>, fs: seq<Elem>, i: nat, k: nat)
    requires |es| == |fs| && i <= k < |es| && fs[k].id == ERPINFO_IE
    requires forall j :: i <= j < k ==> fs[j] == es[j] && es[j].id != ERPINFO_IE
    ensures FirstMatch(fs, i, ERPINFO_IE, None) == k
    decreases k - i
  {
    if i < k {
      SameFirst(es, fs, i + 1, k);
    }
  }

  /** The rewriting of the octet in update_bcn_erpinfo_ie. */
  method RewriteOctet(ies: array<Byte>, len: nat, ghost fixed: seq<Byte>, ghost es: seq<Elem>, at: nat, nonErp: int, noShortPreamble: int)
    requires Beacon(ies[..], len, fixed, es) && HasErp(es) && at == FIXED_IE_LENGTH + Size(es, 0, ErpAt(es)) + 2
    modifies ies
    ensures Beacon(ies[..], len, fixed, WithOctet(es, NewOctet(Octet(es), nonErp, noShortPreamble)))
  {
    ghost var k := ErpAt(es);
    ghost var s, a, e := ies[..], fixed + Span(es, 0, k), es[k];
    ElemsAround(s, len, fixed, es, k);
    ghost var post, tail := Span(es, k + 1, |es|), s[len..];
    assert at < ies.Length && s[at] == Octet(es);
    var o := NewOctet(ies[at], nonErp, noShortPreamble);
    OctetInside(s, a, e, o, post + tail);
    ies[at] := o;
    assert ies[..] == s[at := o];
    ghost var f := Elem(e.id, e.body[0 := o]);
    Assoc(a + EncodeOne(f), post, tail);
    ElemReplaced(ies[..], fixed, es, k, f, tail);
  }

  lemma OctetInside(s: seq<Byte>, a: seq<Byte>, e: Elem, o: Byte, z: seq<Byte>)
    requires 0 < |e.body| < 256 && s == a + EncodeOne(e) + z
    ensures s[|a| + 2 := o] == a + EncodeOne(Elem(e.id, e.body[0 := o])) + z
  {
  }

  /** The counters after the flags of station i have become f. */
  lemma Recount(ss: seq<Flags>, i: nat, f: Flags)
    requires i < |ss|
    ensures Count(NoShortPreamble, ss[i := f]) == Count(NoShortPreamble, ss) - One(ss[i].noShortPreamble) + One(f.noShortPreamble)
    ensures Count(NonErp, ss[i := f]) == Count(NonErp, ss) - One(ss[i].nonErp) + One(f.nonErp)
    ensures Count(NoShortSlot, ss[i := f]) == Count(NoShortSlot, ss) - One(ss[i].noShortSlot) + One(f.noShortSlot)
    ensures Count(NoHt, ss[i := f]) == Count(NoHt, ss) - One(ss[i].noHt) + One(f.noHt)
    ensures Count(NoGf, ss[i := f]) == Count(NoGf, ss) - One(ss[i].noGf) + One(f.noGf)
    ensures Count(Ht20, ss[i := f]) == Count(Ht20, ss) - One(ss[i].ht20) + One(f.ht20)
  {
    CountUpdate(NoShortPreamble, ss, i, f);
    CountUpdate(NonErp, ss, i, f);
    CountUpdate(NoShortSlot, ss, i, f);
    CountUpdate(NoHt, ss, i, f);
    CountUpdate(NoGf, ss, i, f);
    CountUpdate(Ht20, ss, i, f);
  }

  /** The octet that the ERP part of an event leaves, after the preamble part has made b of the flags and the ERP part c of b. */
  function OctetIn(octet: Byte, b: seq<Flags>, c: seq<Flags>): Byte {
    if Rewrites(b, c) then NewOctet(octet, Count(NonErp, c), Count(NoShortPreamble, c)) else octet
  }

  /** The parts of an event together do to the octet what the event does. */
  lemma PartsMakeStep(s: State, e: Event, b: seq<Flags>, c: seq<Flags>)
    requires e.i < |s.flags|
    requires var f := FlagsAfter(s.flags[e.i], e);
      && b == s.flags[e.i := s.flags[e.i].(noShortPreamble := f.noShortPreamble)]
      && c == b[e.i := b[e.i].(nonErp := f.nonErp)]
    ensures OctetIn(s.octet, b, c) == Step(s, e).octet
  {
    var f := FlagsAfter(s.flags[e.i], e);
    CountUpdate(NonErp, s.flags, e.i, b[e.i]);
    CountUpdate(NonErp, b, e.i, c[e.i]);
    CountUpdate(NonErp, s.flags, e.i, f);
    CountUpdate(NoShortPreamble, s.flags, e.i, b[e.i]);
    CountUpdate(NoShortPreamble, b, e.i, c[e.i]);
    CountUpdate(NoShortPreamble, s.flags, e.i, f);
  }

  predicate UpdatesErp(was: seq<Flags>, now: seq<Flags>, beyond11b: bool) {
    Rewrites(was, now) || (beyond11b && Crosses(NoShortPreamble, was, now))
  }

  /** Which counts cross does not depend on the order of the parts. */
  lemma PartsCross(s: seq<Flags>, i: nat, f: Flags, g: Flags)
    requires i < |s| && f.nonErp == s[i].nonErp && f.noShortPreamble == g.noShortPreamble
    ensures Rewrites(s[i := f], s[i := f][i := g]) == Rewrites(s, s[i := g])
    ensures Crosses(NoShortPreamble, s, s[i := f]) == Crosses(NoShortPreamble, s, s[i := g])
  {
    TwoUpdates(s, i, f, g);
    CountUpdate(NonErp, s, i, f);
    CountUpdate(NoShortPreamble, s, i, f);
    CountUpdate(NoShortPreamble, s, i, g);
  }

  /** What the two parts come to, taken together. */
  lemma ErpParts(s: State, e: Event, b: seq<Flags>, c: seq<Flags>)
    requires e.i < |s.flags|
    requires var f := FlagsAfter(s.flags[e.i], e);
      && b == s.flags[e.i := s.flags[e.i].(noShortPreamble := f.noShortPreamble)]
      && c == b[e.i := b[e.i].(nonErp := f.nonErp)]
    ensures var f := FlagsAfter(s.flags[e.i], e);
      c == s.flags[e.i := s.flags[e.i].(noShortPreamble := f.noShortPreamble, nonErp := f.nonErp)]
    ensures OctetIn(s.octet, b, c) == Step(s, e).octet
    ensures Rewrites(b, c) == Rewrites(s.flags, c) && Crosses(NoShortPreamble, s.flags, b) == Crosses(NoShortPreamble, s.flags, c)
  {
    PartsMakeStep(s, e, b, c);
    PartsCross(s.flags, e.i, b[e.i], c[e.i]);
    TwoUpdates(s.flags, e.i, b[e.i], c[e.i]);
  }

  lemma SlotCrosses(s: seq<Flags>, i: nat, f: Flags, g: Flags, beyond11b: bool)
    requires i < |s| && f.noShortSlot == s[i].noShortSlot && g == f.(noShortSlot := g.noShortSlot)
    ensures UpdatesErp(s, s[i := f], beyond11b) == UpdatesErp(s, s[i := g], beyond11b)
    ensures Crosses(NoShortSlot, s[i := f], s[i := g]) == Crosses(NoShortSlot, s, s[i := g])
  {
    CountUpdate(NonErp, s, i, f);
    CountUpdate(NonErp, s, i, g);
    CountUpdate(NoShortPreamble, s, i, f);
    CountUpdate(NoShortPreamble, s, i, g);
    CountUpdate(NoShortSlot, s, i, f);
  }

  /** The HT flags have no part in it. */
  lemma HtCrosses(s: seq<Flags>, i: nat, f: Flags, g: Flags, beyond11b: bool)
    requires i < |s| && g.noShortSlot == f.noShortSlot && g.nonErp == f.nonErp && g.noShortPreamble == f.noShortPreamble
    ensures Updates(s, s[i := f], beyond11b) == Updates(s, s[i := g], beyond11b)
  {
    CountUpdate(NonErp, s, i, f);
    CountUpdate(NonErp, s, i, g);
    CountUpdate(NoShortPreamble, s, i, f);
    CountUpdate(NoShortPreamble, s, i, g);
    CountUpdate(NoShortSlot, s, i, f);
    CountUpdate(NoShortSlot, s, i, g);
  }

  lemma TrackingAfter(es: seq<Elem>, flags: seq<Flags>, e: Event)
    requires HasErp(es) && e.i < |flags|
    ensures var s := State(flags, Octet(es));
      var r := Step(s, e);
      && HasErp(WithOctet(es, r.octet))
      && (Tracks(State(r.flags, Octet(WithOctet(es, r.octet)))) <==> Tracks(s) || Rewrites(flags, r.flags))
  {
    var s := State(flags, Octet(es));
    var r := Step(s, e);
    StepTracks(s, e);
    OctetWritten(es, r.octet);
    assert State(r.flags, r.octet) == r;
  }

  /** The first station with a flag comes or the last goes. */
  ghost predicate Changes(has: Flags -> bool, was: seq<Flags>, now: seq<Flags>) {
    Somewhere(has, was) != Somewhere(has, now)
  }

  lemma UpdatesMeans(was: seq<Flags>, e: Event, beyond11b: bool)
    requires e.i < |was|
    ensures var now := was[e.i := FlagsAfter(was[e.i], e)];
      Updates(was, now, beyond11b) <==> Changes(NonErp, was, now) || (beyond11b && (Changes(NoShortPreamble, was, now) || Changes(NoShortSlot, was, now)))
  {
    var s := State(was, 0);
    CrossesMeans(NonErp, s, e);
    CrossesMeans(NoShortPreamble, s, e);
    CrossesMeans(NoShortSlot, s, e);
  }

  lemma TwoUpdates<T>(s: seq<T>, i: nat, a: T, b: T)
    requires i < |s|
    ensures s[i := a][i := b] == s[i := b]
  {
  }

  class Bss {
    var flags: seq<Flags>
    var numNoShortPreamble: int
    var numNonErp: int
    var numNoShortSlot: int
    var numNoHt: int
    var numHtNoGf: int
    var numHt20: int

    var started: bool
    var erpEnable: bool
    var updateBcn: bool

    /** The mode is more than 802.11b. */
    var beyond11b: bool

    const ies: array<Byte>
    var ieLength: nat
    ghost var fixed: seq<Byte>
    ghost var es: seq<Elem>

    /** Each counter is the number of stations with its flag. */
    ghost predicate Counted()
      reads this
    {
      (&& numNoShortPreamble == Count(NoShortPreamble, flags) && numNonErp == Count(NonErp, flags)
       && numNoShortSlot == Count(NoShortSlot, flags) && numNoHt == Count(NoHt, flags)
       && numHtNoGf == Count(NoGf, flags) && numHt20 == Count(Ht20, flags)) == true
    }

    ghost predicate Sent()
      reads this, ies
    {
      Beacon(ies[..], ieLength, fixed, es)
    }

    /** The beacon is on the air and its ERP octet is looked after. */
    ghost predicate Active()
      reads this`started, this`erpEnable, this`es
    {
      started && erpEnable && HasErp(es)
    }

    /** The beacon tells whether there are non-ERP stations. */
    ghost predicate Tracking()
      reads this
    {
      Active() ==> Tracks(State(flags, Octet(es)))
    }

    constructor (n: nat, ies: array<Byte>)
      ensures this.ies == ies && |flags| == n && (forall i :: 0 <= i < n ==> flags[i] == CLEAR)
      ensures Counted() && !started && !erpEnable && !updateBcn
    {
      flags := seq(n, _ => CLEAR);
      this.ies, ieLength, fixed, es := ies, 0, [], [];
      numNonErp, numNoShortSlot, numNoShortPreamble := 0, 0, 0;
      numHtNoGf, numNoHt, numHt20 := 0, 0, 0;
      started, erpEnable, updateBcn := false, false, false;
      new;
      NoFlagLeft(flags);
    }

    /** The parts of rtw_check_beacon_data and start_bss_network that put the beacon from user space in place; `elems` are
        its elements. The BSS counts as started unless the beacon has a WPS element. */
    method StartBss(apState: bool, apMode: bool, data: seq<Byte>, ghost fixed: seq<Byte>, ghost elems: seq<Elem>) returns (ok: bool)
      requires |fixed| == FIXED_IE_LENGTH && Fits(elems) && data == fixed + Encode(elems)
      requires LongEnough(elems, VENDOR_IE, Some(WPS_OUI))
      modifies this`ieLength, this`fixed, this`es, this`erpEnable, this`started, ies
      ensures ok <==> apState && apMode && |data| <= ies.Length
      ensures !ok ==> unchanged(this) && unchanged(ies)
      ensures ok ==> Sent() && this.fixed == fixed && es == elems
      ensures ok ==> erpEnable == (old(erpEnable) || (HasErp(elems) && |elems[ErpAt(elems)].body| == 1))
      ensures ok ==> started == (old(started) || FirstMatch(elems, 0, VENDOR_IE, Some(WPS_OUI)) == |elems|)
    {
      if !apState || |data| > ies.Length || !apMode {
        return false;
      }
      forall i | 0 <= i < ies.Length {
        ies[i] := if i < |data| then data[i] else 0;
      }
      ieLength, this.fixed, es := |data|, fixed, elems;
      assert ies[..ieLength] == data;
      BeaconBody(ies[..], ieLength, fixed, es);
      var p, len := GetIe(ies[FIXED_IE_LENGTH..ieLength], es, ERPINFO_IE);
      if p.Some? && 0 < len <= 1 {
        erpEnable := true;
      }
      var wps, _ := GetIeEx(ies[FIXED_IE_LENGTH..ieLength], es, VENDOR_IE, Some(WPS_OUI));
      if wps.None? {
        started := true;
      }
      return true;
    }

    /** update_bcn_erpinfo_ie */
    method UpdateBcnErpinfoIe()
      requires Sent()
      modifies this`es, ies
      ensures Sent()
      ensures es ==
        if erpEnable && HasErp(old(es)) then WithOctet(old(es), NewOctet(Octet(old(es)), numNonErp, numNoShortPreamble)) else old(es)
    {
      if !erpEnable {
        return;
      }
      BeaconBody(ies[..], ieLength, fixed, es);
      var p, len := GetIe(ies[FIXED_IE_LENGTH..ieLength], es, ERPINFO_IE);
      if p.Some? && len > 0 {
        RewriteOctet(ies, ieLength, fixed, es, FIXED_IE_LENGTH + p.value + 2, numNonErp, numNoShortPreamble);
        es := WithOctet(es, NewOctet(Octet(es), numNonErp, numNoShortPreamble));
      }
    }

    /** update_beacon; the updaters other than those of the TIM, the ERP and the vendor elements are empty. */
    method UpdateBeacon(ieId: Byte)
      requires Sent() && ieId != TIM_IE && ieId != VENDOR_IE
      modifies this`es, this`updateBcn, ies
      ensures Sent() && updateBcn == (old(updateBcn) || started)
      ensures es == if ieId == ERPINFO_IE && old(Active()) then WithOctet(old(es), NewOctet(Octet(old(es)), numNonErp, numNoShortPreamble)) else old(es)
    {
      if !started {
        return;
      }
      if ieId == ERPINFO_IE {
        UpdateBcnErpinfoIe();
      }
      updateBcn := true;
    }

    method CountPreamble(i: nat, on: bool) returns (crossed: bool)
      requires i < |flags| && Counted()
      modifies this`flags, this`numNoShortPreamble
      ensures flags == old(flags)[i := old(flags)[i].(noShortPreamble := on)] && Counted()
      ensures crossed == Crosses(NoShortPreamble, old(flags), flags)
    {
      crossed := false;
      if flags[i].noShortPreamble != on {
        Recount(flags, i, flags[i].(noShortPreamble := on));
        flags := flags[i := flags[i].(noShortPreamble := on)];
        numNoShortPreamble := numNoShortPreamble + if on then 1 else -1;
        crossed := numNoShortPreamble == if on then 1 else 0;
      }
    }

    /** The preamble part of joining and leaving. */
    method NotePreamble(i: nat, on: bool) returns (updated: bool)
      requires i < |flags| && Counted() && Sent()
      modifies this`flags, this`numNoShortPreamble, this`updateBcn, this`es, ies
      ensures flags == old(flags)[i := old(flags)[i].(noShortPreamble := on)] && Counted()
      ensures Sent() && es == old(es)
      ensures updated == (beyond11b && Crosses(NoShortPreamble, old(flags), flags)) && updateBcn == (old(updateBcn) || (started && updated))
    {
      var crossed := CountPreamble(i, on);
      updated := beyond11b && crossed;
      if updated {
        UpdateBeacon(FIXED_PART);
      }
    }

    method CountSlot(i: nat, on: bool) returns (crossed: bool)
      requires i < |flags| && Counted()
      modifies this`flags, this`numNoShortSlot
      ensures flags == old(flags)[i := old(flags)[i].(noShortSlot := on)] && Counted()
      ensures crossed == Crosses(NoShortSlot, old(flags), flags)
    {
      crossed := false;
      if flags[i].noShortSlot != on {
        Recount(flags, i, flags[i].(noShortSlot := on));
        flags := flags[i := flags[i].(noShortSlot := on)];
        numNoShortSlot := numNoShortSlot + if on then 1 else -1;
        crossed := numNoShortSlot == if on then 1 else 0;
      }
    }

    /** The slot time part of joining and leaving. */
    method NoteSlot(i: nat, on: bool) returns (updated: bool)
      requires i < |flags| && Counted() && Sent()
      modifies this`flags, this`numNoShortSlot, this`updateBcn, this`es, ies
      ensures flags == old(flags)[i := old(flags)[i].(noShortSlot := on)] && Counted()
      ensures Sent() && es == old(es)
      ensures updated == (beyond11b && Crosses(NoShortSlot, old(flags), flags)) && updateBcn == (old(updateBcn) || (started && updated))
    {
      var crossed := CountSlot(i, on);
      updated := beyond11b && crossed;
      if updated {
        UpdateBeacon(FIXED_PART);
      }
    }

    method CountNonErp(i: nat, on: bool) returns (crossed: bool)
      requires i < |flags| && Counted()
      modifies this`flags, this`numNonErp
      ensures flags == old(flags)[i := old(flags)[i].(nonErp := on)] && Counted()
      ensures crossed == Rewrites(old(flags), flags)
    {
      crossed := false;
      if flags[i].nonErp != on {
        Recount(flags, i, flags[i].(nonErp := on));
        flags := flags[i := flags[i].(nonErp := on)];
        numNonErp := numNonErp + if on then 1 else -1;
        crossed := numNonErp == if on then 1 else 0;
      }
    }

    /** The ERP part of joining and leaving. */
    method NoteNonErp(i: nat, on: bool) returns (updated: bool)
      requires i < |flags| && Counted() && Sent()
      modifies this`flags, this`numNonErp, this`updateBcn, this`es, ies
      ensures flags == old(flags)[i := old(flags)[i].(nonErp := on)] && Counted()
      ensures Sent() && updated == Rewrites(old(flags), flags) && updateBcn == (old(updateBcn) || (started && updated))
      ensures es == if old(Active()) then WithOctet(old(es), OctetIn(Octet(old(es)), old(flags), flags)) else old(es)
    {
      if Active() { OctetWritten(es, Octet(es)); }
      updated := CountNonErp(i, on);
      if updated {
        UpdateBeacon(ERPINFO_IE);
      }
    }

    /** The HT part of joining: greenfield and width limits are noted, never withdrawn. */
    method NoteHt(i: nat, c: Caps)
      requires i < |flags| && Counted()
      modifies this`flags, this`numNoHt, this`numHtNoGf, this`numHt20
      ensures Counted()
      ensures var f := old(flags)[i];
        flags == old(flags)[i := f.(noHt := !c.ht, noGf := f.noGf || (c.ht && !c.greenfield), ht20 := f.ht20 || (c.ht && !c.width40))]
    {
      NoteNoHt(i, !c.ht);
      if c.ht && !c.greenfield {
        NoteNoGf(i);
      }
      if c.ht && !c.width40 {
        NoteHt20(i);
      }
    }

    method NoteNoHt(i: nat, on: bool)
      requires i < |flags| && Counted()
      modifies this`flags, this`numNoHt
      ensures Counted() && flags == old(flags)[i := old(flags)[i].(noHt := on)]
    {
      if flags[i].noHt != on {
        Recount(flags, i, flags[i].(noHt := on));
        flags := flags[i := flags[i].(noHt := on)];
        numNoHt := numNoHt + if on then 1 else -1;
      }
    }

    method NoteNoGf(i: nat)
      requires i < |flags| && Counted()
      modifies this`flags, this`numHtNoGf
      ensures Counted() && flags == old(flags)[i := old(flags)[i].(noGf := true)]
    {
      if !flags[i].noGf {
        Recount(flags, i, flags[i].(noGf := true));
        flags := flags[i := flags[i].(noGf := true)];
        numHtNoGf := numHtNoGf + 1;
      }
    }

    method NoteHt20(i: nat)
      requires i < |flags| && Counted()
      modifies this`flags, this`numHt20
      ensures Counted() && flags == old(flags)[i := old(flags)[i].(ht20 := true)]
    {
      if !flags[i].ht20 {
        Recount(flags, i, flags[i].(ht20 := true));
        flags := flags[i := flags[i].(ht20 := true)];
        numHt20 := numHt20 + 1;
      }
    }

    /** The HT part of leaving. */
    method ForgetHt(i: nat)
      requires i < |flags| && Counted()
      modifies this`flags, this`numNoHt, this`numHtNoGf, this`numHt20
      ensures Counted() && flags == old(flags)[i := old(flags)[i].(noHt := false, noGf := false, ht20 := false)]
    {
      var f := flags[i];
      if f.noGf {
        numHtNoGf := numHtNoGf - 1;
      }
      if f.noHt {
        numNoHt := numNoHt - 1;
      }
      if f.ht20 {
        numHt20 := numHt20 - 1;
      }
      Recount(flags, i, f.(noHt := false, noGf := false, ht20 := false));
      flags := flags[i := f.(noHt := false, noGf := false, ht20 := false)];
    }

    /** What an event makes of the beacon. */
    ghost function BeaconAfter(e: Event): seq<Elem>
      requires e.i < |flags|
      reads this
    {
      if Active() then WithOctet(es, Step(State(flags, Octet(es)), e).octet) else es
    }

    /** The parts of joining and leaving that the ERP octet depends on. */
    method NoteErp(i: nat, noShortPreamble: bool, nonErp: bool, ghost e: Event) returns (updated: bool)
      requires i < |flags| && Counted() && Sent()
      requires e.i == i && var f := FlagsAfter(flags[i], e); f.noShortPreamble == noShortPreamble && f.nonErp == nonErp
      modifies this`flags, this`numNoShortPreamble, this`numNonErp, this`updateBcn, this`es, ies
      ensures Counted() && Sent()
      ensures flags == old(flags)[i := old(flags)[i].(noShortPreamble := noShortPreamble, nonErp := nonErp)]
      ensures es == old(BeaconAfter(e))
      ensures updated == UpdatesErp(old(flags), flags, beyond11b) && updateBcn == (old(updateBcn) || (started && updated))
    {
      ghost var s, o := flags, if Active() then Octet(es) else 0;
      var u1 := NotePreamble(i, noShortPreamble);
      ghost var b := flags;
      var u2 := NoteNonErp(i, nonErp);
      ErpParts(State(s, o), e, b, flags);
      updated := u1 || u2;
    }

    /** The parts of joining and leaving that are not about HT. */
    method NoteLegacy(i: nat, noShortPreamble: bool, nonErp: bool, noShortSlot: bool, ghost e: Event) returns (updated: bool)
      requires i < |flags| && Counted() && Sent()
      requires e.i == i && var f := FlagsAfter(flags[i], e); f.noShortPreamble == noShortPreamble && f.nonErp == nonErp
      modifies this`flags, this`numNoShortPreamble, this`numNonErp, this`numNoShortSlot, this`updateBcn, this`es, ies
      ensures Counted() && Sent()
      ensures flags == old(flags)[i := old(flags)[i].(noShortPreamble := noShortPreamble, nonErp := nonErp, noShortSlot := noShortSlot)]
      ensures es == old(BeaconAfter(e))
      ensures updated == Updates(old(flags), flags, beyond11b) && updateBcn == (old(updateBcn) || (started && updated))
    {
      ghost var s := flags;
      var u1 := NoteErp(i, noShortPreamble, nonErp, e);
      ghost var b := flags;
      var u2 := NoteSlot(i, noShortSlot);
      TwoUpdates(s, i, b[i], flags[i]);
      SlotCrosses(s, i, b[i], flags[i], beyond11b);
      updated := u1 || u2;
    }

    /** What joining does to flags, counters and beacon. */
    method NoteJoin(i: nat, c: Caps) returns (updated: bool)
      requires i < |flags| && Counted() && Sent()
      modifies this`flags, this`numNoShortPreamble, this`numNonErp, this`numNoShortSlot, this`numNoHt, this`numHtNoGf, this`numHt20
      modifies this`updateBcn, this`es, ies
      ensures Counted() && Sent()
      ensures flags == old(flags)[i := JoinedFlags(old(flags)[i], c)]
      ensures es == old(BeaconAfter(Event.Join(i, c)))
      ensures updated == Updates(old(flags), flags, beyond11b) && updateBcn == (old(updateBcn) || (started && updated))
    {
      ghost var s, g := flags, JoinedFlags(flags[i], c);
      updated := NoteLegacy(i, !c.shortPreamble, c.nonErp, !c.shortSlot, Event.Join(i, c));
      ghost var f := flags[i];
      TwoUpdates(s, i, f, g);
      HtCrosses(s, i, f, g, beyond11b);
      NoteHt(i, c);
      assert flags[i] == g;
    }

    /** bss_cap_update_on_sta_join */
    method Join(i: nat, c: Caps) returns (updated: bool)
      requires i < |flags| && Counted() && Sent()
      modifies this`flags, this`numNoShortPreamble, this`numNonErp, this`numNoShortSlot, this`numNoHt, this`numHtNoGf, this`numHt20
      modifies this`updateBcn, this`es, ies
      ensures Counted() && Sent()
      ensures flags == old(flags)[i := JoinedFlags(old(flags)[i], c)]
      ensures var f := flags[i]; f.nonErp == c.nonErp && f.noShortPreamble == !c.shortPreamble && f.noShortSlot == !c.shortSlot && f.noHt == !c.ht
      ensures es == old(BeaconAfter(Event.Join(i, c)))
      ensures updated == Updates(old(flags), flags, beyond11b) && updateBcn == (old(updateBcn) || (started && updated))
      ensures updated <==> Changes(NonErp, old(flags), flags) || (beyond11b && (Changes(NoShortPreamble, old(flags), flags) || Changes(NoShortSlot, old(flags), flags)))
      ensures old(Active()) ==> Active() && (Tracking() <==> old(Tracking()) || Rewrites(old(flags), flags))
    {
      if Active() { TrackingAfter(es, flags, Event.Join(i, c)); }
      UpdatesMeans(flags, Event.Join(i, c), beyond11b);
      updated := NoteJoin(i, c);
    }

    /** What leaving does to flags, counters and beacon. */
    method NoteLeave(i: nat) returns (updated: bool)
      requires i < |flags| && Counted() && Sent()
      modifies this`flags, this`numNoShortPreamble, this`numNonErp, this`numNoShortSlot, this`numNoHt, this`numHtNoGf, this`numHt20
      modifies this`updateBcn, this`es, ies
      ensures Counted() && Sent()
      ensures flags == old(flags)[i := CLEAR]
      ensures es == old(BeaconAfter(Event.Leave(i)))
      ensures updated == Updates(old(flags), flags, beyond11b) && updateBcn == (old(updateBcn) || (started && updated))
    {
      ghost var s := flags;
      updated := NoteLegacy(i, false, false, false, Event.Leave(i));
      ghost var f := flags[i];
      TwoUpdates(s, i, f, CLEAR);
      HtCrosses(s, i, f, CLEAR, beyond11b);
      ForgetHt(i);
      assert flags[i] == CLEAR;
    }

    /** bss_cap_update_on_sta_leave */
    method Leave(i: nat) returns (updated: bool)
      requires i < |flags| && Counted() && Sent()
      modifies this`flags, this`numNoShortPreamble, this`numNonErp, this`numNoShortSlot, this`numNoHt, this`numHtNoGf, this`numHt20
      modifies this`updateBcn, this`es, ies
      ensures Counted() && Sent()
      ensures flags == old(flags)[i := Flags(false, false, false, false, false, false)]
      ensures es == old(BeaconAfter(Event.Leave(i)))
      ensures updated == Updates(old(flags), flags, beyond11b) && updateBcn == (old(updateBcn) || (started && updated))
      ensures updated <==> Changes(NonErp, old(flags), flags) || (beyond11b && (Changes(NoShortPreamble, old(flags), flags) || Changes(NoShortSlot, old(flags), flags)))
      ensures old(Active()) ==> Active() && (Tracking() <==> old(Tracking()) || Rewrites(old(flags), flags))
    {
      if Active() { TrackingAfter(es, flags, Event.Leave(i)); }
      UpdatesMeans(flags, Event.Leave(i), beyond11b);
      updated := NoteLeave(i);
    }

    /** start_ap_mode: the counters start anew, which is right exactly if no station has a flag left. */
    method StartApMode()
      modifies this`started, this`updateBcn, this`numNoShortPreamble, this`numNonErp, this`numNoShortSlot, this`numNoHt, this`numHtNoGf, this`numHt20
      ensures Counted() <==> forall i :: 0 <= i < |flags| ==> flags[i] == CLEAR
      ensures !started && !updateBcn && Tracking()
    {
      updateBcn, started := false, false;
      numNonErp, numNoShortSlot, numNoShortPreamble := 0, 0, 0;
      numHtNoGf, numNoHt, numHt20 := 0, 0, 0;
      NoFlagLeft(flags);
    }
  }

  lemma NoFlagLeft(ss: seq<Flags>)
    ensures (Count(NoShortPreamble, ss) == 0 && Count(NonErp, ss) == 0 && Count(NoShortSlot, ss) == 0
             && Count(NoHt, ss) == 0 && Count(NoGf, ss) == 0 && Count(Ht20, ss) == 0)
      <==> forall i :: 0 <= i < |ss| ==> ss[i] == CLEAR
  {
    CountZero(NoShortPreamble, ss);
    CountZero(NonErp, ss);
    CountZero(NoShortSlot, ss);
    CountZero(NoHt, ss);
    CountZero(NoGf, ss);
    CountZero(Ht20, ss);
    forall i | 0 <= i < |ss| && ss[i] != CLEAR
      ensures Somewhere(NoShortPreamble, ss) || Somewhere(NonErp, ss) || Somewhere(NoShortSlot, ss)
           || Somewhere(NoHt, ss) || Somewhere(NoGf, ss) || Somewhere(Ht20, ss)
    {
      var f := ss[i];
      assert NoShortPreamble(f) || NonErp(f) || NoShortSlot(f) || NoHt(f) || NoGf(f) || Ht20(f);
    }
  }
}
