/** The pool of station records: free queue, hash lists and the count of stations in use. */
module StationPool {
  import opened Bytes
  import opened Options
  import opened Slots

  const NUM_STA := 32
  const BROADCAST: Mac := [255, 255, 255, 255, 255, 255]

  type Bucket = b: nat | b < NUM_STA

  predicate IsMcast(m: Mac) {
    m[0] as int % 2 == 1
  }

  // ----- where the records are -----

  /** Every record is in the free queue or in the hash list of its address, once. */
  ghost predicate Placed(hash: Mac -> Bucket, sta: seq<Mac>, lists: seq<seq<nat>>, free: seq<nat>) {
    && |sta| == |lists| == NUM_STA && Distinct(free, NUM_STA)
    && (forall b {:trigger lists[b]} :: 0 <= b < NUM_STA ==> Distinct(lists[b], NUM_STA))
    && (forall b, i {:trigger lists[b][i]} :: 0 <= b < NUM_STA && 0 <= i < |lists[b]| ==> hash(sta[lists[b][i]]) == b && lists[b][i] !in free)
    && (forall s {:trigger sta[s]} :: 0 <= s < NUM_STA && s !in free ==> s in lists[hash(sta[s])])
  }

  lemma PlacedAfterAlloc(hash: Mac -> Bucket, sta: seq<Mac>, lists: seq<seq<nat>>, free: seq<nat>, addr: Mac)
    requires Placed(hash, sta, lists, free) && free != []
    ensures var s, b := free[0], hash(addr);
      Placed(hash, sta[s := addr], lists[b := lists[b] + [s]], free[1..])
  {
    var s, b := free[0], hash(addr);
    var sta', lists', free' := sta[s := addr], lists[b := lists[b] + [s]], free[1..];
    assert forall i :: 0 <= i < |lists[b]| ==> lists[b][i] in lists[b];
    AppendOne(lists[b], s, NUM_STA);
    assert Distinct(free', NUM_STA);
  }

  lemma PlacedAfterFree(hash: Mac -> Bucket, sta: seq<Mac>, lists: seq<seq<nat>>, free: seq<nat>, s: nat)
    requires Placed(hash, sta, lists, free) && s < NUM_STA && s !in free
    ensures var b := hash(sta[s]);
      s in lists[b] && Placed(hash, sta, lists[b := Delete(lists[b], s)], free + [s])
  {
    var b := hash(sta[s]);
    var k := IndexOf(lists[b], s);
    RemoveOne(lists[b], k, NUM_STA);
    AppendOne(free, s, NUM_STA);
    var r := Delete(lists[b], s);
    var lists', free' := lists[b := r], free + [s];
    forall c, i | 0 <= c < NUM_STA && 0 <= i < |lists'[c]|
      ensures hash(sta[lists'[c][i]]) == c && lists'[c][i] !in free'
    {
      if c == b {
        assert lists'[c][i] == r[i] == lists[b][if i < k then i else i + 1] && r[i] in r;
      } else {
        assert lists'[c][i] == lists[c][i];
      }
    }
    forall x | 0 <= x < NUM_STA && x !in free'
      ensures x in lists'[hash(sta[x])]
    {
      assert x in lists[hash(sta[x])] && x != s;
    }
  }

  // ----- looking up -----

  /** The first record in a list that has the address. */
  ghost function Find(sta: seq<Mac>, q: seq<nat>, i: nat, addr: Mac): Option<nat>
    requires Distinct(q, |sta|) && i <= |q|
    decreases |q| - i
  {
    if i == |q| then None else if sta[q[i]] == addr then Some(q[i]) else Find(sta, q, i + 1, addr)
  }

  /** The record that the hash lists give for an address. */
  ghost function Lookup(hash: Mac -> Bucket, sta: seq<Mac>, lists: seq<seq<nat>>, free: seq<nat>, addr: Mac): Option<nat>
    requires Placed(hash, sta, lists, free)
  {
    Find(sta, lists[hash(addr)], 0, addr)
  }

  lemma {:induction false} FindFinds(sta: seq<Mac>, q: seq<nat>, i: nat, addr: Mac)
    requires Distinct(q, |sta|) && i <= |q|
    ensures var r := Find(sta, q, i, addr);
      && (r.Some? ==> r.value in q && sta[r.value] == addr)
      && (r.None? ==> forall j :: i <= j < |q| ==> sta[q[j]] != addr)
    decreases |q| - i
  {
    if i < |q| && sta[q[i]] != addr {
      FindFinds(sta, q, i + 1, addr);
    }
  }

  /** No two records in use have the same address. */
  ghost predicate Unique(sta: seq<Mac>, free: seq<nat>) {
    forall s, t :: 0 <= s < |sta| && 0 <= t < |sta| && s !in free && t !in free && sta[s] == sta[t] ==> s == t
  }

  /** An address is found exactly if a record in use has it; where addresses are unique, that record is found. */
  lemma LookupFinds(hash: Mac -> Bucket, sta: seq<Mac>, lists: seq<seq<nat>>, free: seq<nat>, addr: Mac)
    requires Placed(hash, sta, lists, free)
    ensures var r := Lookup(hash, sta, lists, free, addr);
      && (r.Some? ==> r.value < NUM_STA && r.value !in free && sta[r.value] == addr)
      && (r.None? ==> forall s :: 0 <= s < NUM_STA && s !in free ==> sta[s] != addr)
  {
    var q := lists[hash(addr)];
    FindFinds(sta, q, 0, addr);
    if Find(sta, q, 0, addr).Some? {
      var j := IndexOf(q, Find(sta, q, 0, addr).value);
      assert q[j] == lists[hash(addr)][j];
    }
  }

  /** With unique addresses the lookup is the inverse of a record's address. */
  lemma LookupIs(hash: Mac -> Bucket, sta: seq<Mac>, lists: seq<seq<nat>>, free: seq<nat>, s: nat)
    requires Placed(hash, sta, lists, free) && Unique(sta, free) && s < NUM_STA && s !in free
    ensures Lookup(hash, sta, lists, free, sta[s]) == Some(s)
  {
    LookupFinds(hash, sta, lists, free, sta[s]);
  }

  // ----- what allocating and freeing do to lookups -----

  /** A record at the end of a list is found exactly if no record before it has its address. */
  lemma {:induction false} FindAppend(sta: seq<Mac>, q: seq<nat>, s: nat, h: Mac, i: nat, addr: Mac)
    requires Distinct(q, |sta|) && i <= |q| && s < |sta| && s !in q && Distinct(q + [s], |sta|)
    ensures var was := Find(sta, q, i, addr);
      && Find(sta[s := h], q, i, addr) == was
      && Find(sta[s := h], q + [s], i, addr) == if was.Some? then was else if h == addr then Some(s) else None
    decreases |q| - i
  {
    if i < |q| {
      assert q[i] in q && (q + [s])[i] == q[i];
      FindAppend(sta, q, s, h, i + 1, addr);
    }
  }

  /** Taking a record out of a list does not matter to other addresses. */
  lemma {:induction false} FindWithout(sta: seq<Mac>, q: seq<nat>, k: nat, i: nat, addr: Mac)
    requires Distinct(q, |sta|) && i <= |q| && k < |q| && sta[q[k]] != addr && Distinct(Without(q, k), |sta|)
    ensures Find(sta, Without(q, k), if i <= k then i else i - 1, addr) == Find(sta, q, i, addr)
    decreases |q| - i
  {
    var r, j := Without(q, k), if i <= k then i else i - 1;
    if i < |q| {
      FindWithout(sta, q, k, i + 1, addr);
      assert i != k ==> r[j] == q[i];
    }
  }

  /** The record that a new one leaves to be found: the one found before, if there was one. */
  function FoundAfterAlloc(was: Option<nat>, s: nat, h: Mac, addr: Mac): Option<nat> {
    if was.Some? then was else if h == addr then Some(s) else None
  }

  lemma LookupsAfterAlloc(hash: Mac -> Bucket, sta: seq<Mac>, lists: seq<seq<nat>>, free: seq<nat>, h: Mac, addr: Mac)
    requires Placed(hash, sta, lists, free) && free != []
    requires Placed(hash, sta[free[0] := h], lists[hash(h) := lists[hash(h)] + [free[0]]], free[1..])
    ensures var s := free[0];
      Lookup(hash, sta[s := h], lists[hash(h) := lists[hash(h)] + [s]], free[1..], addr)
        == FoundAfterAlloc(Lookup(hash, sta, lists, free, addr), s, h, addr)
  {
    var s, b := free[0], hash(addr);
    var q := lists[b];
    assert forall j :: 0 <= j < |q| ==> lists[b][j] !in free;
    AppendOne(q, s, NUM_STA);
    FindAppend(sta, q, s, h, 0, addr);
  }

  lemma LookupsAfterFree(hash: Mac -> Bucket, sta: seq<Mac>, lists: seq<seq<nat>>, free: seq<nat>, s: nat, addr: Mac)
    requires Placed(hash, sta, lists, free) && s < NUM_STA && s !in free && s in lists[hash(sta[s])] && addr != sta[s]
    requires Placed(hash, sta, lists[hash(sta[s]) := Delete(lists[hash(sta[s])], s)], free + [s])
    ensures Lookup(hash, sta, lists[hash(sta[s]) := Delete(lists[hash(sta[s])], s)], free + [s], addr) == Lookup(hash, sta, lists, free, addr)
  {
    var b := hash(sta[s]);
    if hash(addr) == b {
      var k := IndexOf(lists[b], s);
      RemoveOne(lists[b], k, NUM_STA);
      FindWithout(sta, lists[b], k, 0, addr);
    }
  }

  /** Every multicast address stands for the broadcast address. */
  function Resolve(addr: Mac): Mac {
    if IsMcast(addr) then BROADCAST else addr
  }

  // ----- the pool -----

  class StaPriv {
    /** wifi_mac_hash; nothing matters but that its last step masks it to a list number. */
    const hash: Mac -> Bucket

    /** The addresses in the records. */
    const sta: array<Mac>

    const lists: array<seq<nat>>
    var free: seq<nat>
    var asocStaCount: int

    ghost predicate Valid()
      reads this, sta, lists
    {
      (Placed(hash, sta[..], lists[..], free) && asocStaCount == NUM_STA - |free|) == true
    }

    ghost function At(addr: Mac): Option<nat>
      requires Valid()
      reads this, sta, lists
    {
      Lookup(hash, sta[..], lists[..], free, addr)
    }

    ghost predicate UniqueAddrs()
      reads this, sta
    {
      Unique(sta[..], free)
    }

    /** _rtw_init_sta_priv */
    constructor (hash: Mac -> Bucket, blank: Mac)
      ensures Valid() && UniqueAddrs() && free == seq(NUM_STA, i => i) && asocStaCount == 0
      ensures this.hash == hash && fresh(sta) && fresh(lists)
    {
      this.hash := hash;
      sta := new Mac[NUM_STA](_ => blank);
      lists := new seq<nat>[NUM_STA](_ => []);
      free, asocStaCount := seq(NUM_STA, i => i), 0;
      new;
      forall s | 0 <= s < NUM_STA
        ensures s in free
      {
        assert free[s] == s;
      }
    }

    /** The list operations of rtw_alloc_stainfo. */
    method TakeFirstFree(hwaddr: Mac) returns (s: nat)
      requires Valid() && free != []
      modifies this`free, this`asocStaCount, sta, lists
      ensures Valid() && old(free) == [s] + free && s !in free && s < NUM_STA && sta[..] == old(sta[..])[s := hwaddr]
      ensures lists[..] == old(lists[..])[hash(hwaddr) := old(lists[..])[hash(hwaddr)] + [s]]
    {
      PlacedAfterAlloc(hash, sta[..], lists[..], free, hwaddr);
      ghost var was, chains := sta[..], lists[..];
      assert forall j :: 0 <= j < |free[1..]| ==> free[1..][j] == free[j + 1];
      s := free[0];
      free := free[1..];
      sta[s] := hwaddr;
      var index := hash(hwaddr);
      lists[index] := lists[index] + [s];
      asocStaCount := asocStaCount + 1;
      assert sta[..] == was[s := hwaddr] && lists[..] == chains[index := chains[index] + [s]];
    }

    /** rtw_alloc_stainfo; it does not look whether the address is there already. */
    method AllocStainfo(hwaddr: Mac) returns (r: Option<nat>)
      requires Valid()
      modifies this`free, this`asocStaCount, sta, lists
      ensures Valid() && (r.None? <==> old(free) == [])
      ensures r.None? ==> free == old(free) && sta[..] == old(sta[..]) && lists[..] == old(lists[..])
      ensures r.Some? ==> old(free) == [r.value] + free && r.value < NUM_STA && sta[..] == old(sta[..])[r.value := hwaddr]
      ensures r.Some? ==> lists[..] == old(lists[..])[hash(hwaddr) := old(lists[..])[hash(hwaddr)] + [r.value]]
      ensures r.Some? ==> forall a :: At(a) == if old(At(a)).Some? then old(At(a)) else if a == hwaddr then r else None
      ensures r.None? ==> forall a :: At(a) == old(At(a))
      ensures old(UniqueAddrs()) && old(At(hwaddr)).None? ==> UniqueAddrs()
    {
      if free == [] {
        return None;
      }
      ghost var s, l, f := sta[..], lists[..], free;
      LookupFinds(hash, s, l, f, hwaddr);
      var taken := TakeFirstFree(hwaddr);
      assert f[1..] == free;
      forall a
        ensures Lookup(hash, sta[..], lists[..], free, a) == FoundAfterAlloc(Lookup(hash, s, l, f, a), taken, hwaddr, a)
      {
        LookupsAfterAlloc(hash, s, l, f, hwaddr, a);
      }
      return Some(taken);
    }

    /** rtw_get_stainfo */
    method GetStainfo(hwaddr: Option<Mac>) returns (r: Option<nat>)
      requires Valid()
      ensures r == if hwaddr.None? then None else At(Resolve(hwaddr.value))
      ensures hwaddr.Some? ==> r == At(if hwaddr.value[0] as int % 2 == 1 then [255, 255, 255, 255, 255, 255] else hwaddr.value)
    {
      if hwaddr.None? {
        return None;
      }
      var addr := if IsMcast(hwaddr.value) then BROADCAST else hwaddr.value;
      var q := lists[hash(addr)];
      assert q == lists[..][hash(addr)];
      var i := 0;
      while i < |q|
        invariant i <= |q| && At(addr) == Find(sta[..], q, i, addr)
      {
        if sta[q[i]] == addr {
          return Some(q[i]);
        }
        i := i + 1;
      }
      return None;
    }

    /** The list operations of rtw_free_stainfo. */
    method GiveBack(s: nat)
      requires Valid() && s < NUM_STA && s !in free
      modifies this`free, this`asocStaCount, lists
      ensures Valid() && free == old(free) + [s]
      ensures var b := hash(sta[s]); s in old(lists[..])[b] && lists[..] == old(lists[..])[b := Delete(old(lists[..])[b], s)]
    {
      PlacedAfterFree(hash, sta[..], lists[..], free, s);
      ghost var chains := lists[..];
      var b := hash(sta[s]);
      assert lists[b] == chains[b];
      lists[b] := Delete(lists[b], s);
      assert lists[..] == chains[b := Delete(chains[b], s)];
      asocStaCount := asocStaCount - 1;
      free := free + [s];
    }

    /** rtw_free_stainfo on a record in use, or on none. */
    method FreeStainfo(psta: Option<nat>)
      requires Valid() && (psta.Some? ==> psta.value < NUM_STA && psta.value !in free)
      modifies this`free, this`asocStaCount, lists
      ensures Valid() && (psta.None? ==> free == old(free) && lists[..] == old(lists[..]))
      ensures psta.Some? ==> free == old(free) + [psta.value]
      ensures psta.Some? ==> var b := hash(sta[psta.value]);
        psta.value in old(lists[..])[b] && lists[..] == old(lists[..])[b := Delete(old(lists[..])[b], psta.value)]
      ensures forall a :: psta.None? || a != sta[psta.value] ==> At(a) == old(At(a))
      ensures old(UniqueAddrs()) ==> UniqueAddrs() && (psta.Some? ==> At(sta[psta.value]) == None)
    {
      if psta.None? {
        return;
      }
      ghost var l, f := lists[..], free;
      var s := psta.value;
      GiveBack(s);
      LookupFinds(hash, sta[..], lists[..], free, sta[s]);
      forall a | a != sta[s]
        ensures Lookup(hash, sta[..], lists[..], free, a) == Lookup(hash, sta[..], l, f, a)
      {
        LookupsAfterFree(hash, sta[..], l, f, s, a);
      }
    }

    /** rtw_get_bcmc_stainfo */
    method GetBcmcStainfo() returns (r: Option<nat>)
      requires Valid()
      ensures r == At(BROADCAST)
    {
      r := GetStainfo(Some(BROADCAST));
    }

    /** rtw_init_bcmc_stainfo */
    method InitBcmcStainfo()
      requires Valid()
      modifies this`free, this`asocStaCount, sta, lists
      ensures Valid() && (At(BROADCAST).Some? <==> old(free) != [] || old(At(BROADCAST)).Some?)
      ensures old(At(BROADCAST)).Some? ==> At(BROADCAST) == old(At(BROADCAST))
      ensures forall a :: a != BROADCAST ==> At(a) == old(At(a))
      ensures old(UniqueAddrs()) && old(At(BROADCAST)).None? ==> UniqueAddrs()
    {
      var r := AllocStainfo(BROADCAST);
    }

    method FreeFromList(b: Bucket, k: nat)
      requires Valid() && b < lists.Length && k < |lists[b]|
      modifies this`free, this`asocStaCount, lists
      ensures Valid() && free == old(free) + [old(lists[b][k])]
      ensures lists[b] == Without(old(lists[b]), k) && forall c :: 0 <= c < lists.Length && c != b ==> lists[c] == old(lists[c])
    {
      ghost var q := lists[b];
      assert q == lists[..][b] && q[k] == lists[..][b][k];
      FreeStainfo(Some(lists[b][k]));
      assert IndexOf(q, q[k]) == k;
    }

    /** One round of rtw_free_all_stainfo: the records of a hash list go back, but for the broadcast record. */
    method FreeList(b: Bucket, keep: Option<nat>)
      requires Valid() && forall c, i :: 0 <= c < b && 0 <= i < |lists[c]| ==> Some(lists[c][i]) == keep
      modifies this`free, this`asocStaCount, lists
      ensures Valid() && forall c, i :: 0 <= c <= b && 0 <= i < |lists[c]| ==> Some(lists[c][i]) == keep
      ensures keep.Some? && keep.value !in old(free) ==> keep.value !in free
    {
      var k := 0;
      while k < |lists[b]|
        invariant Valid() && 0 <= k <= |lists[b]|
        invariant forall c, i :: 0 <= c < b && 0 <= i < |lists[c]| ==> Some(lists[c][i]) == keep
        invariant forall i :: 0 <= i < k ==> Some(lists[b][i]) == keep
        invariant keep.Some? && keep.value !in old(free) ==> keep.value !in free
        decreases |lists[b]| - k
      {
        if Some(lists[b][k]) != keep {
          FreeFromList(b, k);
        } else {
          k := k + 1;
        }
      }
    }

    /** The loop of rtw_free_all_stainfo. */
    method FreeLists(keep: Option<nat>)
      requires Valid() && (keep.Some? ==> keep.value < NUM_STA && keep.value !in free)
      modifies this`free, this`asocStaCount, lists
      ensures Valid() && forall s :: 0 <= s < NUM_STA ==> (s !in free <==> keep == Some(s))
    {
      var index := 0;
      while index < NUM_STA
        invariant 0 <= index <= NUM_STA && Valid()
        invariant forall c, i :: 0 <= c < index && 0 <= i < |lists[c]| ==> Some(lists[c][i]) == keep
        invariant keep.Some? ==> keep.value !in free
      {
        FreeList(index, keep);
        index := index + 1;
      }
      forall s | 0 <= s < NUM_STA && s !in free
        ensures keep == Some(s)
      {
        assert s in lists[..][hash(sta[..][s])];
        var k := IndexOf(lists[hash(sta[s])], s);
      }
    }

    /** rtw_free_all_stainfo: only the broadcast record stays in use, unless the one record in use was another. */
    method FreeAllStainfo()
      requires Valid()
      modifies this`free, this`asocStaCount, lists
      ensures Valid()
      ensures old(asocStaCount) == 1 ==> free == old(free) && lists[..] == old(lists[..])
      ensures (forall s :: 0 <= s < NUM_STA ==> (s !in free <==> old(At(BROADCAST)) == Some(s)))
        <==> !(old(asocStaCount) == 1 && old(At(BROADCAST)).None?)
      ensures old(UniqueAddrs()) ==> UniqueAddrs()
    {
      var bcmc := GetBcmcStainfo();
      LookupFinds(hash, sta[..], lists[..], free, BROADCAST);
      if asocStaCount == 1 {
        var s := SomeMissing(free, NUM_STA);
        forall t | 0 <= t < NUM_STA && t !in free
          ensures t == s
        {
          OnlyMissing(free, NUM_STA, s, t);
        }
        return;
      }
      FreeLists(bcmc);
    }
  }

  /** A pool whose only record in use is a station's, without a broadcast record. */
  method LoneStation(addr: Mac, hash: Mac -> Bucket) returns (pool: StaPriv)
    requires !IsMcast(addr)
    ensures fresh(pool) && fresh(pool.sta) && fresh(pool.lists)
    ensures pool.Valid() && pool.asocStaCount == 1 && pool.At(BROADCAST).None? && pool.At(addr).Some?
  {
    pool := new StaPriv(hash, BROADCAST);
    forall s | 0 <= s < NUM_STA
      ensures s in pool.free
    {
      assert pool.free[s] == s;
    }
    LookupFinds(hash, pool.sta[..], pool.lists[..], pool.free, BROADCAST);
    var r := pool.AllocStainfo(addr);
  }

  /** In such a pool rtw_free_all_stainfo leaves the station. */
  method LoneStationStays(pool: StaPriv, addr: Mac)
    requires pool.Valid() && pool.asocStaCount == 1 && pool.At(BROADCAST).None? && pool.At(addr).Some?
    modifies pool`free, pool`asocStaCount, pool.lists
    ensures pool.Valid() && pool.asocStaCount == 1 && pool.At(addr) == old(pool.At(addr)) && pool.At(addr).Some?
  {
    pool.FreeAllStainfo();
  }
}
