/**
  The NAT2.5 bridge database as a finite map from network addresses to records, and
  the use counts of its records over arbitrary runs.
 */
module Nat25Spec {
  import opened Bytes

  const NAT25_HASH_SIZE := 16
  const NAT25_AGEING_TIME := 300
  const HZ := 100

  const NAT25_IPV4: Byte := 1
  const NAT25_IPV6: Byte := 2
  const NAT25_IPX: Byte := 3
  const NAT25_APPLE: Byte := 4
  const NAT25_PPPOE: Byte := 5

  /** MAX_NETWORK_ADDR_LEN octets. */
  type NetAddr = a: seq<Byte> | |a| == 17 witness seq(17, _ => 0)

  /** A point in jiffies. */
  type Time = int

  type BucketIndex = i: nat | i < NAT25_HASH_SIZE

  function Hash(a: NetAddr): BucketIndex {
    var x :=
      if a[0] == NAT25_IPV4 then XorAll(a[7..11])
      else if a[0] == NAT25_IPX then XorAll(a[1..11])
      else if a[0] == NAT25_APPLE then XorAll(a[1..4])
      else if a[0] == NAT25_PPPOE then XorAll(a[0..9])
      else if a[0] == NAT25_IPV6 then XorAll(a[1..17])
      else XorAll(a);
    x as int % NAT25_HASH_SIZE
  }

  datatype Record = Record(mac: Mac, ageing: Time, useCount: int)

  type Db = map<NetAddr, Record>

  predicate HasExpired(ageing: Time, now: Time) {
    ageing <= now - NAT25_AGEING_TIME * HZ
  }

  datatype Event =
    | Insert(addr: NetAddr, mac: Mac, now: Time)
    | Lookup(addr: NetAddr, now: Time)
    | Touch(addr: NetAddr, now: Time)   // the transmit path refreshes the short-cut entry
    | Sweep(now: Time)
    | Cleanup

  function Swept(r: Record, now: Time): Record {
    if HasExpired(r.ageing, now) then r.(useCount := r.useCount - 1) else r
  }

  predicate Survives(r: Record, now: Time) {
    !HasExpired(r.ageing, now) || r.useCount != 1
  }

  function Apply(db: Db, e: Event): Db {
    match e
    case Insert(a, mac, now) =>
      db[a := Record(mac, now, if a in db then db[a].useCount else 1)]
    case Lookup(a, now) =>
      if a in db && !HasExpired(db[a].ageing, now) then db[a := db[a].(useCount := db[a].useCount + 1)] else db
    case Touch(a, now) => if a in db then db[a := db[a].(ageing := now)] else db
    case Sweep(now) => map a | a in db && Survives(db[a], now) :: Swept(db[a], now)
    case Cleanup => map[]
  }

  // ----- a sweep visits the addresses one at a time, in any order -----

  function SweepOne(db: Db, a: NetAddr, now: Time): Db
    requires a in db
  {
    if Survives(db[a], now) then db[a := Swept(db[a], now)] else db - {a}
  }

  lemma UpdateThenDrop(db: Db, a: NetAddr, r: Record)
    ensures db[a := r] - {a} == db - {a}
  {
  }

  /** `db` is `db0` with every address swept except those still ahead. */
  ghost predicate SweptExcept(db0: Db, db: Db, now: Time, ahead: set<NetAddr>) {
    && db.Keys <= db0.Keys
    && forall a :: a in db0 ==>
         if a in ahead then a in db && db[a] == db0[a]
         else (a in db <==> Survives(db0[a], now)) && (a in db ==> db[a] == Swept(db0[a], now))
  }

  lemma SweepOneAdvances(db0: Db, db: Db, now: Time, ahead: set<NetAddr>, a: NetAddr)
    requires SweptExcept(db0, db, now, ahead) && a in ahead && a in db
    ensures SweptExcept(db0, SweepOne(db, a, now), now, ahead - {a})
  {
  }

  lemma SweepComplete(db0: Db, db: Db, now: Time)
    requires SweptExcept(db0, db, now, {})
    ensures db == Apply(db0, Sweep(now))
  {
  }

  ghost function Run(evs: seq<Event>): Db
  {
    if evs == [] then map[] else Apply(Run(evs[..|evs| - 1]), evs[|evs| - 1])
  }

  // ----- what the use count of an address counts -----

  /** Lookups of `a` that found it unexpired, since `a` was last inserted anew. */
  ghost function Hits(evs: seq<Event>, a: NetAddr): nat
  {
    if evs == [] then 0
    else
      var before, e := evs[..|evs| - 1], evs[|evs| - 1];
      if a !in Run(before) then 0
      else Hits(before, a) + if e.Lookup? && e.addr == a && !HasExpired(Run(before)[a].ageing, e.now) then 1 else 0
  }

  /** Sweeps that found `a` aged, since `a` was last inserted anew. */
  ghost function AgedSweeps(evs: seq<Event>, a: NetAddr): nat
  {
    if evs == [] then 0
    else
      var before, e := evs[..|evs| - 1], evs[|evs| - 1];
      if a !in Run(before) then 0
      else AgedSweeps(before, a) + if e.Sweep? && HasExpired(Run(before)[a].ageing, e.now) then 1 else 0
  }

  /** Ageing conserves use counts, over every run. */
  lemma {:induction false} UseCountConserved(evs: seq<Event>)
    ensures forall a :: a in Run(evs) ==>
      Run(evs)[a].useCount == 1 + Hits(evs, a) - AgedSweeps(evs, a) && Run(evs)[a].useCount >= 1
  {
    if evs != [] {
      UseCountConserved(evs[..|evs| - 1]);
    }
  }

  /** A record is dropped by a sweep exactly when its aged sweeps have used up its hits, and it
      is never dropped by an insertion, a lookup or a touch. */
  lemma FreedExactlyAtZero(evs: seq<Event>, e: Event, a: NetAddr)
    requires a in Run(evs) && !e.Cleanup?
    ensures a !in Run(evs + [e]) <==>
      e.Sweep? && HasExpired(Run(evs)[a].ageing, e.now) && Hits(evs, a) == AgedSweeps(evs, a)
  {
    UseCountConserved(evs);
    assert (evs + [e])[..|evs|] == evs;
  }

  /** Sweeps never touch a record that has not aged. */
  lemma UnagedSurvivesSweep(evs: seq<Event>, now: Time, a: NetAddr)
    requires a in Run(evs) && !HasExpired(Run(evs)[a].ageing, now)
    ensures a in Run(evs + [Sweep(now)]) && Run(evs + [Sweep(now)])[a] == Run(evs)[a]
  {
    assert (evs + [Sweep(now)])[..|evs|] == evs;
  }

  /** The client that last sent from an address. */
  function LastSender(evs: seq<Event>, a: NetAddr): Mac {
    if evs == [] then [0, 0, 0, 0, 0, 0]
    else
      var e := evs[|evs| - 1];
      if e.Insert? && e.addr == a then e.mac else LastSender(evs[..|evs| - 1], a)
  }

  /** Over every run: an address in the map is bound to the client that last sent from it. */
  lemma {:induction false} BoundToLastSender(evs: seq<Event>, a: NetAddr)
    requires a in Run(evs)
    ensures Run(evs)[a].mac == LastSender(evs, a)
  {
    if evs != [] && a in Run(evs[..|evs| - 1]) {
      BoundToLastSender(evs[..|evs| - 1], a);
    }
  }

  // ----- what each event does, and who is in the map -----

  /** After an insertion the address is there, bound to the sender and renewed; other addresses are as they were. */
  lemma InsertEnters(evs: seq<Event>, a: NetAddr, mac: Mac, now: Time)
    ensures var was, db := Run(evs), Run(evs + [Insert(a, mac, now)]);
      && a in db && db[a].mac == mac && db[a].ageing == now && db[a].useCount == (if a in was then was[a].useCount else 1)
      && forall b :: b != a ==> (b in db <==> b in was) && (b in was ==> db[b] == was[b])
  {
    assert (evs + [Insert(a, mac, now)])[..|evs|] == evs;
  }

  /** A lookup counts a use of a record that has not aged and changes nothing else. */
  lemma LookupCounts(evs: seq<Event>, a: NetAddr, now: Time)
    ensures var was, db := Run(evs), Run(evs + [Lookup(a, now)]);
      && db.Keys == was.Keys
      && (forall b :: b in was && b != a ==> db[b] == was[b])
      && (a in was ==> db[a].mac == was[a].mac && db[a].ageing == was[a].ageing)
      && (a in was ==> db[a].useCount == was[a].useCount + if was[a].ageing > now - NAT25_AGEING_TIME * HZ then 1 else 0)
  {
    assert (evs + [Lookup(a, now)])[..|evs|] == evs;
  }

  /** Event j drops the address: a clean-up, or the sweep that finds it aged with its hits used up. */
  ghost predicate DropsAt(evs: seq<Event>, j: nat, a: NetAddr)
    requires j < |evs|
  {
    var before := evs[..j];
    evs[j].Cleanup? ||
    (evs[j].Sweep? && a in Run(before) && HasExpired(Run(before)[a].ageing, evs[j].now) && Hits(before, a) == AgedSweeps(before, a))
  }

  ghost predicate EnteredBy(evs: seq<Event>, n: nat, a: NetAddr, k: nat)
    requires n <= |evs|
  {
    k < n && evs[k].Insert? && evs[k].addr == a && forall j: nat :: k < j < n ==> !DropsAt(evs, j, a)
  }

  ghost predicate Entered(evs: seq<Event>, n: nat, a: NetAddr)
    requires n <= |evs|
  {
    exists k: nat :: EnteredBy(evs, n, a, k)
  }

  lemma EnteredStep(evs: seq<Event>, n: nat, a: NetAddr)
    requires n < |evs|
    ensures Entered(evs, n + 1, a) <==> (evs[n].Insert? && evs[n].addr == a) || (Entered(evs, n, a) && !DropsAt(evs, n, a))
  {
    if Entered(evs, n + 1, a) {
      var k: nat :| EnteredBy(evs, n + 1, a, k);
      assert k < n ==> EnteredBy(evs, n, a, k) && !DropsAt(evs, n, a);
    } else if evs[n].Insert? && evs[n].addr == a {
      assert EnteredBy(evs, n + 1, a, n);
    } else if Entered(evs, n, a) {
      var k: nat :| EnteredBy(evs, n, a, k);
      assert !DropsAt(evs, n, a) ==> EnteredBy(evs, n + 1, a, k);
    }
  }

  /** Over every run: an address is in the map exactly if some insertion put it there and nothing has dropped it since. */
  lemma {:induction false} PresentIff(evs: seq<Event>, n: nat, a: NetAddr)
    requires n <= |evs|
    ensures a in Run(evs[..n]) <==> Entered(evs, n, a)
  {
    if n > 0 {
      PresentIff(evs, n - 1, a);
      EnteredStep(evs, n - 1, a);
      var before, e := evs[..n - 1], evs[n - 1];
      assert evs[..n] == before + [e];
      assert (before + [e])[..n - 1] == before;
      if a in Run(before) && !e.Cleanup? {
        FreedExactlyAtZero(before, e, a);
      }
    }
  }

  /** The time of the last event that showed the address alive. */
  function LastSeen(evs: seq<Event>, a: NetAddr): Time {
    if evs == [] then 0
    else
      var e := evs[|evs| - 1];
      if (e.Insert? || e.Touch?) && e.addr == a then e.now else LastSeen(evs[..|evs| - 1], a)
  }

  /** Over every run: the age of a record is that of the last insertion or refresh of its address. */
  lemma {:induction false} AgeIsLastSeen(evs: seq<Event>, a: NetAddr)
    requires a in Run(evs)
    ensures Run(evs)[a].ageing == LastSeen(evs, a)
  {
    if evs != [] && a in Run(evs[..|evs| - 1]) {
      AgeIsLastSeen(evs[..|evs| - 1], a);
    }
  }

  /** A record that nobody asks for goes with the first sweep 30000 jiffies or more after its address was last seen. */
  lemma UnusedGoesAfterFiveMinutes(evs: seq<Event>, a: NetAddr, now: Time)
    requires a in Run(evs) && Hits(evs, a) == AgedSweeps(evs, a)
    ensures a in Run(evs + [Sweep(now)]) <==> now < LastSeen(evs, a) + 30000
  {
    AgeIsLastSeen(evs, a);
    FreedExactlyAtZero(evs, Sweep(now), a);
  }
}
