/** The table of scanned networks: a fixed pool of entries that move between a free queue and the scanned queue. */
module ScanTable {
  import opened Bytes
  import opened Options
  import opened Slots

  const MAX_BSS_CNT := 128
  const SCANQUEUE_LIFETIME := 20

  /** Clock ticks per second. */
  const HZ := 100

  const WRONG_CHANNEL := 101

  // ----- networks -----

  /** `beacon` tells that the record was made from a beacon frame; `rest` is what the table never looks at. */
  datatype Bss = Bss(mac: Mac, ssid: seq<Byte>, ibss: bool, ess: bool, ieLength: nat, beacon: bool,
                     strength: nat, quality: nat, rssi: int, rest: seq<Byte>)

  /** What the radio knows about the network the station is linked to, if it is. */
  datatype Link = Link(linked: bool, current: Bss, strength: nat, quality: nat)

  datatype Network = Network(bss: Bss, lastScanned: nat, fixed: bool)

  /** is_same_network */
  predicate SameNetwork(a: Bss, b: Bss) {
    |a.ssid| == |b.ssid| && a.mac == b.mac && a.ssid == b.ssid && a.ibss == b.ibss && a.ess == b.ess
  }

  /** C division: toward zero. */
  function DivTrunc(a: int, b: int): int
    requires b > 0
  {
    if a >= 0 then a / b else -(-a / b)
  }

  /** One fifth sample, four fifths history. */
  function Smooth(history: int, sample: int): int {
    DivTrunc(sample + history * 4, 5)
  }

  /** update_network */
  function Refreshed(dst: Bss, src: Bss, updateIe: bool, link: Link): Bss {
    var own := link.linked && SameNetwork(link.current, src);
    var heard := src.quality != WRONG_CHANNEL;
    var strength := if own then link.strength else if heard then Smooth(dst.strength, src.strength) else dst.strength;
    var quality := if own then link.quality else if heard then Smooth(dst.quality, src.quality) else dst.quality;
    var rssi := if heard then Smooth(dst.rssi, src.rssi) else dst.rssi;
    (if updateIe then src else dst).(strength := strength, quality := quality, rssi := rssi)
  }

  /** Refreshing an entry with a record of the same network keeps it an entry for that network. */
  lemma RefreshedIsSame(dst: Bss, src: Bss, updateIe: bool, link: Link)
    requires SameNetwork(dst, src)
    ensures SameNetwork(Refreshed(dst, src, updateIe, link), dst)
  {
  }

  /** Two records are for the same network exactly if address, SSID and kind agree. */
  lemma SameNetworkIff(a: Bss, b: Bss)
    ensures SameNetwork(a, b) <==> (a.mac, a.ssid, a.ibss, a.ess) == (b.mac, b.ssid, b.ibss, b.ess)
  {
  }

  ghost predicate Between(x: int, a: int, b: int) {
    (a <= x <= b) || (b <= x <= a)
  }

  /** Smoothing never leaves the range between history and sample, and moves off history if they are five apart. */
  lemma SmoothBetween(history: int, sample: int)
    ensures Between(Smooth(history, sample), history, sample)
    ensures sample >= history + 5 || sample <= history - 5 ==> Smooth(history, sample) != history
  {
  }

  /** What a refreshed entry holds: everything but the signal from the new record or, for a shorter beacon, from the old; the
      signal from the link for the network in use, unchanged if heard on a wrong channel, and else between old and new. */
  lemma RefreshedMeans(dst: Bss, src: Bss, updateIe: bool, link: Link)
    ensures var r, from := Refreshed(dst, src, updateIe, link), if updateIe then src else dst;
      && (r.mac, r.ssid, r.ibss, r.ess, r.ieLength, r.beacon, r.rest) == (from.mac, from.ssid, from.ibss, from.ess, from.ieLength, from.beacon, from.rest)
      && (if src.quality == 101 then r.rssi == dst.rssi else Between(r.rssi, dst.rssi, src.rssi))
      && (if link.linked && SameNetwork(link.current, src) then r.strength == link.strength && r.quality == link.quality
          else if src.quality == 101 then r.strength == dst.strength && r.quality == dst.quality
          else Between(r.strength, dst.strength, src.strength) && Between(r.quality, dst.quality, src.quality))
  {
    SmoothBetween(dst.rssi, src.rssi);
    SmoothBetween(dst.strength, src.strength);
    SmoothBetween(dst.quality, src.quality);
  }

  /** A fresh entry is the new record, seen now and not pinned; a quality from a wrong channel counts as none. */
  lemma FreshMeans(target: Bss, now: nat)
    ensures var x := Fresh(target, now);
      x.lastScanned == now && !x.fixed && SameNetwork(x.bss, target) && x.bss == target.(quality := if target.quality == 101 then 0 else target.quality)
  {
  }

  /** A pinned entry always stays; another one goes if all have to go or, by unsigned 32-bit difference, it is 20 seconds
      old, or one second in an ad-hoc network. */
  lemma StaysMeans(x: Network, isfreeall: bool, adhoc: bool, now: nat)
    ensures Stays(x, isfreeall, adhoc, now) <==>
      x.fixed || (!isfreeall && (now - x.lastScanned) % 0x1_0000_0000 < (if adhoc then 100 else 2000))
  {
  }

  /** A sweep keeps exactly the entries that stay. */
  lemma {:induction false} SurvivorsMeans(slots: seq<Network>, q: seq<nat>, n: nat, isfreeall: bool, adhoc: bool, now: nat, s: nat)
    requires Named(slots, q) && n <= |q|
    ensures s in Survivors(slots, q, n, isfreeall, adhoc, now) <==> s in q[..n] && s < |slots| && Stays(slots[s], isfreeall, adhoc, now)
  {
    if n > 0 {
      SurvivorsMeans(slots, q, n - 1, isfreeall, adhoc, now, s);
      assert q[..n] == q[..n - 1] + [q[n - 1]];
    }
  }

  // ----- the queue of scanned networks -----

  /** The queue names slots of the pool. */
  ghost predicate Named(slots: seq<Network>, q: seq<nat>) {
    forall i :: 0 <= i < |q| ==> q[i] < |slots|
  }

  /** No two entries are for the same network. */
  ghost predicate NoTwins(slots: seq<Network>, q: seq<nat>)
    requires Named(slots, q)
  {
    forall i, j :: 0 <= i < j < |q| ==> !SameNetwork(slots[q[i]].bss, slots[q[j]].bss)
  }

  /** The first entry from i on that is for the target's network, or the length of the queue. */
  ghost function FirstSame(slots: seq<Network>, q: seq<nat>, i: nat, target: Bss): (k: nat)
    requires Named(slots, q) && i <= |q|
    ensures i <= k <= |q|
    decreases |q| - i
  {
    if i == |q| || SameNetwork(slots[q[i]].bss, target) then i else FirstSame(slots, q, i + 1, target)
  }

  lemma {:induction false} FirstSameIsFirst(slots: seq<Network>, q: seq<nat>, i: nat, target: Bss)
    requires Named(slots, q) && i <= |q|
    ensures var k := FirstSame(slots, q, i, target);
      && (k < |q| ==> SameNetwork(slots[q[k]].bss, target))
      && forall j :: i <= j < k ==> !SameNetwork(slots[q[j]].bss, target)
    decreases |q| - i
  {
    if i < |q| && !SameNetwork(slots[q[i]].bss, target) {
      FirstSameIsFirst(slots, q, i + 1, target);
    }
  }

  /** Entry o is the first of the least recently scanned among the first n. */
  ghost predicate IsOldest(slots: seq<Network>, q: seq<nat>, n: nat, o: nat)
    requires Named(slots, q) && n <= |q|
  {
    && o < n
    && (forall j :: 0 <= j < n ==> slots[q[o]].lastScanned <= slots[q[j]].lastScanned)
    && (forall j :: 0 <= j < o ==> slots[q[o]].lastScanned < slots[q[j]].lastScanned)
  }

  /** The entry written for a network seen for the first time. */
  function Fresh(target: Bss, now: nat): Network {
    Network(target.(quality := if target.quality == WRONG_CHANNEL then 0 else target.quality), now, false)
  }

  /** The difference of two times as unsigned 32-bit numbers. */
  function Elapsed(now: nat, since: nat): nat {
    (now - since) % 0x1_0000_0000
  }

  /** _rtw_free_network leaves the entry alone: it is pinned, or too young unless all have to go. */
  predicate Stays(x: Network, isfreeall: bool, adhoc: bool, now: nat)
  {
    x.fixed || (!isfreeall && Elapsed(now, x.lastScanned) / HZ < if adhoc then 1 else SCANQUEUE_LIFETIME)
  }

  /** Those of the first n entries that _rtw_free_network leaves alone, in order. */
  ghost function Survivors(slots: seq<Network>, q: seq<nat>, n: nat, isfreeall: bool, adhoc: bool, now: nat): (r: seq<nat>)
    requires Named(slots, q) && n <= |q|
    ensures |r| <= n
  {
    if n == 0 then []
    else if Stays(slots[q[n - 1]], isfreeall, adhoc, now) then Survivors(slots, q, n - 1, isfreeall, adhoc, now) + [q[n - 1]]
    else Survivors(slots, q, n - 1, isfreeall, adhoc, now)
  }

  /** A new network in the place of an entry, or behind the others. */
  lemma ReplacedNoTwins(slots: seq<Network>, q: seq<nat>, k: nat, x: Network)
    requires Named(slots, q) && Distinct(q, |slots|) && NoTwins(slots, q) && k < |q|
    requires forall j :: 0 <= j < |q| && j != k ==> !SameNetwork(slots[q[j]].bss, x.bss)
    ensures NoTwins(slots[q[k] := x], q)
  {
  }

  lemma AppendedNoTwins(slots: seq<Network>, q: seq<nat>, s: nat, x: Network)
    requires Named(slots, q) && NoTwins(slots, q) && s < |slots| && s !in q
    requires forall j :: 0 <= j < |q| ==> !SameNetwork(slots[q[j]].bss, x.bss)
    ensures Named(slots[s := x], q + [s]) && NoTwins(slots[s := x], q + [s])
  {
    assert forall j :: 0 <= j < |q| ==> q[j] in q;
  }

  lemma RemovedNoTwins(slots: seq<Network>, q: seq<nat>, k: nat)
    requires Named(slots, q) && NoTwins(slots, q) && k < |q|
    ensures Named(slots, Without(q, k)) && NoTwins(slots, Without(q, k))
  {
    var r := Without(q, k);
    assert forall i :: 0 <= i < |r| ==> r[i] == q[if i < k then i else i + 1];
  }

  /** The next entry of a sweep joins those that stay or goes. */
  lemma StayOrGo(a: seq<nat>, q: seq<nat>, n: nat)
    requires n < |q|
    ensures (a + q[n..])[|a|] == q[n]
    ensures a + q[n..] == a + [q[n]] + q[n + 1..]
    ensures Without(a + q[n..], |a|) == a + q[n + 1..]
  {
  }

  class Table {
    const slots: array<Network>
    var free: seq<nat>
    var scanned: seq<nat>
    var numOfScanned: int

    /** Conservation: every slot is in exactly one queue and the counter is the length of the scanned queue. */
    ghost predicate Conserved()
      reads this
    {
      slots.Length == MAX_BSS_CNT && Partition(free, scanned, MAX_BSS_CNT) && numOfScanned == |scanned|
    }

    ghost predicate Valid()
      reads this, slots
    {
      (Conserved() && Named(slots[..], scanned) && NoTwins(slots[..], scanned)) == true
    }

    /** The pool as rtw_init_mlme_priv sets it up. */
    constructor (blank: Network)
      ensures Valid() && scanned == [] && fresh(slots)
    {
      slots := new Network[MAX_BSS_CNT](_ => blank);
      free := seq(MAX_BSS_CNT, i => i);
      scanned, numOfScanned := [], 0;
    }

    /** _rtw_alloc_network: the slot leaves the free queue and is already counted. */
    method AllocNetwork(now: nat) returns (s: Option<nat>)
      requires Conserved()
      modifies this`free, this`numOfScanned, slots
      ensures s.None? <==> old(free) == []
      ensures s.None? ==> free == old(free) && numOfScanned == old(numOfScanned) && slots[..] == old(slots[..])
      ensures s.Some? ==> old(free) == [s.value] + free && numOfScanned == old(numOfScanned) + 1 && s.value < slots.Length
      ensures s.Some? ==> slots[..] == old(slots[..])[s.value := old(slots[s.value]).(fixed := false, lastScanned := now)]
    {
      if free == [] {
        return None;
      }
      var k := free[0];
      free := free[1..];
      slots[k] := slots[k].(fixed := false, lastScanned := now);
      numOfScanned := numOfScanned + 1;
      return Some(k);
    }

    /** _rtw_free_network_nolock on entry k of the scanned queue. */
    method FreeNetworkNolock(k: nat)
      requires Valid() && k < |scanned|
      modifies this`free, this`scanned, this`numOfScanned
      ensures Valid()
      ensures if slots[old(scanned)[k]].fixed then free == old(free) && scanned == old(scanned)
        else free == old(free) + [old(scanned)[k]] && scanned == Without(old(scanned), k)
    {
      if slots[scanned[k]].fixed {
        return;
      }
      PartitionSwap(free, scanned, MAX_BSS_CNT);
      MoveOne(scanned, free, k, MAX_BSS_CNT);
      RemovedNoTwins(slots[..], scanned, k);
      var s := scanned[k];
      scanned := Without(scanned, k);
      free := free + [s];
      numOfScanned := numOfScanned - 1;
      PartitionSwap(scanned, free, MAX_BSS_CNT);
    }

    /** _rtw_free_network on entry k of the scanned queue. */
    method FreeNetwork(k: nat, isfreeall: bool, adhoc: bool, now: nat)
      requires Valid() && k < |scanned|
      modifies this`free, this`scanned, this`numOfScanned
      ensures Valid()
      ensures if Stays(slots[old(scanned)[k]], isfreeall, adhoc, now) then free == old(free) && scanned == old(scanned)
        else free == old(free) + [old(scanned)[k]] && scanned == Without(old(scanned), k)
    {
      if slots[scanned[k]].fixed {
        return;
      }
      var lifetime := if adhoc then 1 else SCANQUEUE_LIFETIME;
      if !isfreeall && Elapsed(now, slots[scanned[k]].lastScanned) / HZ < lifetime {
        return;
      }
      FreeNetworkNolock(k);
    }

    /** One round of _rtw_free_network_queue. */
    method SweepEntry(k: nat, ghost x: Network, isfreeall: bool, adhoc: bool, now: nat) returns (stayed: bool)
      requires Valid() && k < |scanned| && scanned[k] < slots.Length && x == slots[scanned[k]]
      modifies this`free, this`scanned, this`numOfScanned
      ensures Valid() && stayed == Stays(x, isfreeall, adhoc, now)
      ensures scanned == if stayed then old(scanned) else Without(old(scanned), k)
    {
      var left := |scanned|;
      FreeNetwork(k, isfreeall, adhoc, now);
      stayed := |scanned| == left;
    }

    /** _rtw_free_network_queue */
    method FreeNetworkQueue(isfreeall: bool, adhoc: bool, now: nat)
      requires Valid()
      modifies this`free, this`scanned, this`numOfScanned
      ensures Valid() && scanned == Survivors(slots[..], old(scanned), |old(scanned)|, isfreeall, adhoc, now)
    {
      ghost var ss, q, n := slots[..], scanned, 0;
      ghost var kept: seq<nat> := [];
      var k := 0;
      while k < |scanned|
        invariant Valid() && slots[..] == ss && n <= |q| && k == |kept|
        invariant kept == Survivors(ss, q, n, isfreeall, adhoc, now)
        invariant scanned == kept + q[n..]
        decreases |q| - n
      {
        StayOrGo(kept, q, n);
        var stayed := SweepEntry(k, ss[q[n]], isfreeall, adhoc, now);
        if stayed {
          k, kept := k + 1, kept + [q[n]];
        }
        n := n + 1;
      }
      assert n == |q| && kept + [] == kept;
    }

    /** free_scanqueue: everything goes back, fixed or not. */
    method FreeScanqueue()
      requires Valid()
      modifies this`free, this`scanned, this`numOfScanned
      ensures Valid() && scanned == [] && free == old(free) + old(scanned) && numOfScanned == 0
    {
      ghost var n := 0;
      PartitionSwap(free, scanned, MAX_BSS_CNT);
      while scanned != []
        invariant Partition(scanned, free, MAX_BSS_CNT) && numOfScanned == |scanned|
        invariant n <= |old(scanned)| && scanned == old(scanned)[n..] && free == old(free) + old(scanned)[..n]
        decreases |scanned|
      {
        MoveOne(scanned, free, 0, MAX_BSS_CNT);
        var s := scanned[0];
        assert Without(scanned, 0) == scanned[1..];
        scanned := scanned[1..];
        free := free + [s];
        numOfScanned := numOfScanned - 1;
        n := n + 1;
      }
      PartitionSwap(scanned, free, MAX_BSS_CNT);
    }

    /** The search of rtw_update_scanned_network: an entry for the network, and the oldest entry passed on the way. */
    method Search(target: Bss) returns (pos: nat, oldest: Option<nat>)
      requires Valid()
      ensures pos == FirstSame(slots[..], scanned, 0, target)
      ensures oldest.None? <==> pos == 0
      ensures oldest.Some? ==> IsOldest(slots[..], scanned, pos, oldest.value)
    {
      pos, oldest := 0, None;
      while pos < |scanned|
        invariant pos <= |scanned| && (oldest.None? <==> pos == 0)
        invariant oldest.Some? ==> IsOldest(slots[..], scanned, pos, oldest.value)
        invariant FirstSame(slots[..], scanned, 0, target) == FirstSame(slots[..], scanned, pos, target)
      {
        var net := slots[scanned[pos]];
        if SameNetwork(net.bss, target) {
          break;
        }
        if oldest.None? || slots[scanned[oldest.value]].lastScanned > net.lastScanned {
          oldest := Some(pos);
        }
        pos := pos + 1;
      }
    }

    /** The record for a network that has an entry is brought up to date. */
    method Refresh(k: nat, target: Bss, now: nat, link: Link)
      requires Valid() && k < |scanned| && SameNetwork(slots[scanned[k]].bss, target)
      modifies slots
      ensures Valid()
      ensures var x := old(slots[scanned[k]]);
        slots[..] == old(slots[..])[scanned[k] :=
          x.(lastScanned := now, bss := Refreshed(x.bss, target, !(x.bss.ieLength > target.ieLength && target.beacon), link))]
    {
      var s := scanned[k];
      var x := slots[s];
      var updateIe := !(x.bss.ieLength > target.ieLength && target.beacon);
      RefreshedIsSame(x.bss, target, updateIe, link);
      ReplacedNoTwins(slots[..], scanned, k, x.(lastScanned := now, bss := Refreshed(x.bss, target, updateIe, link)));
      slots[s] := x.(lastScanned := now, bss := Refreshed(x.bss, target, updateIe, link));
    }

    /** The oldest entry is given up for a network that has none. */
    method Supersede(k: nat, target: Bss, now: nat)
      requires Valid() && k < |scanned| && FirstSame(slots[..], scanned, 0, target) == |scanned|
      modifies slots
      ensures Valid() && slots[..] == old(slots[..])[scanned[k] := Fresh(target, now)]
    {
      FirstSameIsFirst(slots[..], scanned, 0, target);
      ReplacedNoTwins(slots[..], scanned, k, Fresh(target, now));
      slots[scanned[k]] := Fresh(target, now);
    }

    /** A free slot is taken for a network that has no entry. */
    method Enter(target: Bss, now: nat)
      requires Valid() && free != [] && FirstSame(slots[..], scanned, 0, target) == |scanned|
      modifies this`free, this`scanned, this`numOfScanned, slots
      ensures Valid() && free == old(free)[1..] && scanned == old(scanned) + [old(free)[0]]
      ensures slots[..] == old(slots[..])[old(free)[0] := Fresh(target, now)]
    {
      FirstSameIsFirst(slots[..], scanned, 0, target);
      MoveOne(free, scanned, 0, MAX_BSS_CNT);
      assert Without(free, 0) == free[1..];
      AppendedNoTwins(slots[..], scanned, free[0], Fresh(target, now));
      ghost var was := slots[..];
      var s := AllocNetwork(now);
      slots[s.value] := Fresh(target, now);
      assert slots[..] == was[s.value := Fresh(target, now)];
      scanned := scanned + [s.value];
    }

    /** rtw_update_scanned_network */
    method UpdateScannedNetwork(target: Bss, now: nat, link: Link)
      requires Valid()
      modifies this`free, this`scanned, this`numOfScanned, slots
      ensures Valid()
      ensures var k := old(FirstSame(slots[..], scanned, 0, target));
        if k < |old(scanned)| then
          scanned == old(scanned) && free == old(free) &&
          var x := old(slots[..])[scanned[k]];
          slots[..] == old(slots[..])[scanned[k] :=
            x.(lastScanned := now, bss := Refreshed(x.bss, target, !(x.bss.ieLength > target.ieLength && target.beacon), link))]
        else if old(free) != [] then
          free == old(free)[1..] && scanned == old(scanned) + [old(free)[0]] &&
          slots[..] == old(slots[..])[old(free)[0] := Fresh(target, now)]
        else
          scanned == old(scanned) && free == old(free) &&
          exists o: nat :: old(IsOldest(slots[..], scanned, |scanned|, o)) && slots[..] == old(slots[..])[scanned[o] := Fresh(target, now)]
    {
      var k, oldest := Search(target);
      if k < |scanned| {
        FirstSameIsFirst(slots[..], scanned, 0, target);
        Refresh(k, target, now, link);
      } else if free == [] {
        Supersede(oldest.value, target, now);
      } else {
        Enter(target, now);
      }
    }
  }
}
