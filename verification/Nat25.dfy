/**
  The NAT2.5 bridge database as the driver keeps it: bucket heads in `nethash`, entries
  chained by `next_hash`, and a back pointer `pprev_hash` to the cell that points at the
  entry. Every method is proved to change the map of Nat25Spec as its event says.
 */
module Nat25 {
  import opened Bytes
  import opened Nat25Spec

  /** What `pprev_hash` may point at: a bucket head, or the `next_hash` field of an entry. */
  datatype Cell = Nowhere | Bucket(index: nat) | NextOf(entry: Entry)

  class Entry {
    const networkAddr: NetAddr
    var macAddr: Mac
    var useCount: int
    var ageingTimer: Time
    var nextHash: Entry?
    var pprevHash: Cell
    ghost const bucket: nat   // the bucket its address hashes to
    ghost const rank: nat     // falls along every chain

    constructor (addr: NetAddr, mac: Mac, now: Time, ghost bucket: nat, ghost rank: nat)
      ensures networkAddr == addr && macAddr == mac && useCount == 1 && ageingTimer == now
      ensures nextHash == null && pprevHash == Nowhere
      ensures this.bucket == bucket && this.rank == rank
    {
      networkAddr, macAddr, useCount, ageingTimer := addr, mac, 1, now;
      nextHash, pprevHash := null, Nowhere;
      this.bucket, this.rank := bucket, rank;
    }

    method Write(mac: Mac, ageing: Time, useCount: int)
      modifies this`macAddr, this`ageingTimer, this`useCount
      ensures ToRecord() == Record(mac, ageing, useCount)
    {
      macAddr, ageingTimer, this.useCount := mac, ageing, useCount;
    }

    ghost function ToRecord(): Record
      reads this`macAddr, this`ageingTimer, this`useCount
    {
      Record(macAddr, ageingTimer, useCount)
    }
  }

  ghost predicate HangsFrom(e: Entry, i: int) {
    e.bucket == i
  }

  /** `e` comes after `f` in the chain of their bucket. */
  ghost predicate Below(e: Entry, f: Entry) {
    e != f && e.bucket == f.bucket && e.rank <= f.rank
  }

  class BridgeDb {
    const hash: NetAddr -> BucketIndex
    const nethash: array<Entry?>
    var scdbEntry: Entry?
    var scdbMac: Mac
    var scdbIp: seq<Byte>
    ghost var entries: set<Entry>              // the entries that are not freed
    ghost var index: map<NetAddr, Entry>
    ghost var nextRank: nat
    ghost var contents: Db                     // the map that the chains represent

    /** What a cell points at points back at that cell. */
    ghost predicate Forward()
      reads this`entries, nethash, entries`nextHash, entries`pprevHash
    {
      && nethash.Length == NAT25_HASH_SIZE
      && (forall i {:trigger nethash[i]} :: 0 <= i < NAT25_HASH_SIZE && nethash[i] != null ==>
            nethash[i] in entries && nethash[i].pprevHash == Bucket(i))
      && (forall e {:trigger e.nextHash} :: e in entries && e.nextHash != null ==>
            && e.nextHash in entries && e.nextHash.pprevHash == NextOf(e)
            && e.nextHash.bucket == e.bucket && e.nextHash.rank < e.rank)
    }

    /** Every back pointer names the cell that points at its entry. */
    ghost predicate Backward()
      reads this`entries, nethash, entries`nextHash, entries`pprevHash
    {
      && nethash.Length == NAT25_HASH_SIZE
      && (forall e {:trigger e.pprevHash} :: e in entries ==>
            match e.pprevHash
            case Nowhere => false
            case Bucket(i) => i == e.bucket < NAT25_HASH_SIZE
            case NextOf(p) => p in entries)
      && (forall e, i {:trigger e.pprevHash, nethash[i]} :: 0 <= i < NAT25_HASH_SIZE && e in entries && e.pprevHash == Bucket(i) ==>
            nethash[i] == e)
      && (forall e, p {:trigger e.pprevHash, p.nextHash} :: e in entries && p in entries && e.pprevHash == NextOf(p) ==>
            p.nextHash == e)
    }

    /** The chain of a bucket passes through all its entries, by falling rank. */
    ghost predicate Reachable()
      reads this`entries, nethash, entries`nextHash
    {
      && nethash.Length == NAT25_HASH_SIZE
      && (forall e, i {:trigger HangsFrom(e, i)} :: 0 <= i < NAT25_HASH_SIZE && e in entries && HangsFrom(e, i) ==>
            nethash[i] != null && e.rank <= nethash[i].rank)
      && (forall e, f {:trigger Below(e, f)} :: e in entries && f in entries && Below(e, f) ==>
            f.nextHash != null && e.rank <= f.nextHash.rank)
    }

    ghost predicate Listed(e: Entry)
      reads this`index
    {
      e.networkAddr in index && index[e.networkAddr] == e && e.bucket == hash(e.networkAddr) < NAT25_HASH_SIZE
    }

    /** One entry per address, in the bucket that its hash names. */
    ghost predicate Indexed()
      reads this`entries, this`index, this`nextRank
    {
      && (forall a {:trigger index[a]} :: a in index ==> index[a] in entries && index[a].networkAddr == a)
      && (forall e {:trigger Listed(e)} :: e in entries ==> Listed(e))
      && (forall e {:trigger e.rank} :: e in entries ==> e.rank < nextRank)
    }

    ghost predicate Structure()
      reads this`entries, this`index, this`nextRank, nethash, entries`nextHash, entries`pprevHash
    {
      (Forward() && Backward() && Reachable() && Indexed()) == true
    }

    /** `contents` is what the entries say, address by address. */
    ghost predicate Mirrored()
      reads this`entries, this`index, this`contents, entries`macAddr, entries`ageingTimer, entries`useCount
    {
      && contents.Keys == index.Keys
      && forall e {:trigger e.networkAddr} :: e in entries ==> e.networkAddr in contents && contents[e.networkAddr] == e.ToRecord()
    }

    ghost predicate Valid()
      reads this, nethash, entries
    {
      (&& Structure() && Mirrored()
       && (scdbEntry != null ==> scdbEntry in entries)
       && (forall e {:trigger e.useCount} :: e in entries ==> e.useCount >= 1)) == true
    }

    constructor ()
      ensures forall a :: hash(a) == Hash(a)
      ensures Valid() && contents == map[] && scdbEntry == null && fresh(nethash) && entries == {}
    {
      hash := Hash;
      nethash := new Entry?[NAT25_HASH_SIZE](_ => null);
      scdbEntry, scdbMac, scdbIp := null, [0, 0, 0, 0, 0, 0], [0, 0, 0, 0];
      entries, index, nextRank, contents := {}, map[], 0, map[];
    }

    // ----- the chains, read off as sequences -----

    /** The entries met when `next_hash` is followed from `e`. */
    ghost function Chain(e: Entry?): seq<Entry>
      requires Structure() && (e != null ==> e in entries)
      reads this, nethash, entries
      decreases if e == null then 0 else e.rank + 1
    {
      if e == null then [] else [e] + Chain(e.nextHash)
    }

    lemma {:induction false} ChainFalls(f: Entry)
      requires Structure() && f in entries
      ensures forall k :: 0 <= k < |Chain(f)| ==> Chain(f)[k] in entries && Chain(f)[k].rank <= f.rank
      ensures forall j, k :: 0 <= j < k < |Chain(f)| ==> Chain(f)[j].rank > Chain(f)[k].rank
      decreases f.rank
    {
      if f.nextHash != null {
        ChainFalls(f.nextHash);
        assert Chain(f) == [f] + Chain(f.nextHash);
      }
    }

    lemma {:induction false} ChainMembers(f: Entry)
      requires Structure() && f in entries
      ensures forall e :: e in Chain(f) <==> e in entries && (e == f || Below(e, f))
      decreases f.rank
    {
      var g := f.nextHash;
      forall e
        ensures e in Chain(f) <==> e == f || (g != null && e in Chain(g))
      {
        assert Chain(f) == [f] + Chain(g);
      }
      if g != null {
        ChainMembers(g);
        forall e | e in entries
          ensures Below(e, f) <==> e == g || Below(e, g)
        {
          assert Below(e, f) ==> e.rank <= g.rank;
        }
      } else {
        assert forall e :: e in entries ==> !Below(e, f);
      }
    }

    /** Following the chain of a bucket meets exactly the entries whose address hashes to it, each once;
        so every address is in the map exactly if one entry, in the chain of its own bucket, holds it. */
    lemma ChainIsBucket(i: BucketIndex)
      requires Valid()
      ensures nethash[i] != null ==> nethash[i] in entries
      ensures forall e :: e in Chain(nethash[i]) <==> e in entries && hash(e.networkAddr) == i
      ensures forall j, k :: 0 <= j < k < |Chain(nethash[i])| ==>
        Chain(nethash[i])[j].networkAddr != Chain(nethash[i])[k].networkAddr
      ensures forall a :: a in contents && hash(a) == i ==>
        index[a] in Chain(nethash[i]) && index[a].networkAddr == a && index[a].ToRecord() == contents[a]
    {
      var h := nethash[i];
      forall e | e in entries
        ensures hash(e.networkAddr) == i <==> h != null && (e == h || Below(e, h))
      {
        assert Listed(e) && (e.bucket == i ==> HangsFrom(e, i));
        assert h != null ==> Listed(h) && h.pprevHash == Bucket(i);
      }
      if h != null {
        ChainMembers(h);
        ChainFalls(h);
        var c := Chain(h);
        forall j, k | 0 <= j < k < |c|
          ensures c[j].networkAddr != c[k].networkAddr
        {
          assert Listed(c[j]) && Listed(c[k]);
        }
      }
    }

    /** The writes of __network_hash_link. */
    twostate predicate DidLink(ent: Entry)
      reads this, nethash, ent, entries
    {
      && ent !in old(entries) && ent.networkAddr !in old(index)
      && ent.bucket == hash(ent.networkAddr) && ent.rank == old(nextRank)
      && entries == old(entries) + {ent} && index == old(index)[ent.networkAddr := ent] && nextRank == old(nextRank) + 1
      && nethash.Length == NAT25_HASH_SIZE
      && (forall i {:trigger nethash[i]} {:trigger old(nethash[i])} :: 0 <= i < NAT25_HASH_SIZE ==>
            nethash[i] == if i == ent.bucket then ent else old(nethash[i]))
      && ent.nextHash == old(nethash[ent.bucket]) && ent.pprevHash == Bucket(ent.bucket)
      && (forall e {:trigger e.nextHash} {:trigger old(e.nextHash)} :: e in old(entries) ==> e.nextHash == old(e.nextHash))
      && (forall e {:trigger e.pprevHash} {:trigger old(e.pprevHash)} :: e in old(entries) ==>
            e.pprevHash == if e == ent.nextHash then NextOf(ent) else old(e.pprevHash))
    }

    twostate lemma LinkKeepsForward(ent: Entry)
      requires old(Structure()) && DidLink(ent)
      ensures Forward()
    {
    }

    twostate lemma LinkKeepsBackward(ent: Entry)
      requires old(Structure()) && DidLink(ent)
      ensures Backward()
    {
    }

    twostate lemma LinkKeepsReachable(ent: Entry)
      requires old(Structure()) && DidLink(ent)
      ensures Reachable()
    {
      forall e, i | 0 <= i < NAT25_HASH_SIZE && e in entries && HangsFrom(e, i)
        ensures nethash[i] != null && e.rank <= nethash[i].rank
      {
        var r := ent.rank;
      }
      forall e, f | e in entries && f in entries && Below(e, f)
        ensures f.nextHash != null && e.rank <= f.nextHash.rank
      {
        assert e != ent && HangsFrom(e, ent.bucket) == (e.bucket == ent.bucket);
      }
    }

    twostate lemma LinkKeepsIndexed(ent: Entry)
      requires old(Structure()) && DidLink(ent)
      ensures Indexed()
    {
      assert Listed(ent);
      forall e | e in old(entries)
        ensures Listed(e)
      {
        assert old(Listed(e));
      }
    }

    /** __network_hash_link */
    method HashLink(ent: Entry)
      requires Structure()
      requires ent !in entries && ent.networkAddr !in index
      requires ent.bucket == hash(ent.networkAddr) && ent.rank == nextRank
      modifies this`entries, this`index, this`nextRank, nethash, ent`nextHash, ent`pprevHash, entries`pprevHash
      ensures Structure()
      ensures entries == old(entries) + {ent} && index == old(index)[ent.networkAddr := ent]
    {
      var h := hash(ent.networkAddr);
      ent.nextHash := nethash[h];
      if ent.nextHash != null {
        ent.nextHash.pprevHash := NextOf(ent);
      }
      nethash[h] := ent;
      ent.pprevHash := Bucket(h);
      entries := entries + {ent};
      index := index[ent.networkAddr := ent];
      nextRank := nextRank + 1;
      assert DidLink(ent);
      LinkKeepsForward(ent);
      LinkKeepsBackward(ent);
      LinkKeepsReachable(ent);
      LinkKeepsIndexed(ent);
    }

    /** The writes of __network_hash_unlink. */
    twostate predicate DidUnlink(ent: Entry)
      reads this, nethash, entries
    {
      && ent in old(entries)
      && entries == old(entries) - {ent} && index == old(index) - {ent.networkAddr} && nextRank == old(nextRank)
      && nethash.Length == NAT25_HASH_SIZE
      && (forall i {:trigger nethash[i]} {:trigger old(nethash[i])} :: 0 <= i < NAT25_HASH_SIZE ==>
            nethash[i] == if old(ent.pprevHash) == Bucket(i) then old(ent.nextHash) else old(nethash[i]))
      && (forall e {:trigger e.nextHash} {:trigger old(e.nextHash)} :: e in entries ==>
            e.nextHash == if old(ent.pprevHash) == NextOf(e) then old(ent.nextHash) else old(e.nextHash))
      && (forall e {:trigger e.pprevHash} {:trigger old(e.pprevHash)} :: e in entries ==>
            e.pprevHash == if e == old(ent.nextHash) then old(ent.pprevHash) else old(e.pprevHash))
    }

    twostate lemma UnlinkKeepsForward(ent: Entry)
      requires old(Structure()) && DidUnlink(ent)
      ensures Forward()
    {
      var n, c := old(ent.nextHash), old(ent.pprevHash);
      assert n != null ==> n in entries && old(n.pprevHash) == NextOf(ent) && n.pprevHash == c;
      forall i | 0 <= i < NAT25_HASH_SIZE && nethash[i] != null
        ensures nethash[i] in entries && nethash[i].pprevHash == Bucket(i)
      {
        assert c == Bucket(i) || (old(nethash[i]) != ent && old(nethash[i]) != n);
      }
      forall e | e in entries && e.nextHash != null
        ensures e.nextHash in entries && e.nextHash.pprevHash == NextOf(e)
        ensures e.nextHash.bucket == e.bucket && e.nextHash.rank < e.rank
      {
        assert c == NextOf(e) ==> old(e.nextHash) == ent;
        assert c == NextOf(e) || (old(e.nextHash) != ent && old(e.nextHash) != n);
      }
    }

    twostate lemma UnlinkKeepsBackward(ent: Entry)
      requires old(Structure()) && DidUnlink(ent)
      ensures Backward()
    {
      var n, c := old(ent.nextHash), old(ent.pprevHash);
      assert n != null ==> n in entries && old(n.pprevHash) == NextOf(ent) && n.pprevHash == c;
      assert c != NextOf(ent);
      assert c.Bucket? ==> old(nethash[c.index]) == ent;
      assert c.NextOf? ==> old(c.entry.nextHash) == ent;
      forall e | e in entries && e != n
        ensures e.pprevHash == old(e.pprevHash) && e.pprevHash != NextOf(ent) && e.pprevHash != c
      {
        var cell := old(e.pprevHash);
      }
    }

    twostate lemma UnlinkKeepsReachable(ent: Entry)
      requires old(Structure()) && DidUnlink(ent)
      ensures Reachable()
    {
      forall e, i | 0 <= i < NAT25_HASH_SIZE && e in entries && HangsFrom(e, i)
        ensures nethash[i] != null && e.rank <= nethash[i].rank
      {
        if old(ent.pprevHash) == Bucket(i) {
          assert old(nethash[i]) == ent && Below(e, ent);
        }
      }
      forall e, f | e in entries && f in entries && Below(e, f)
        ensures f.nextHash != null && e.rank <= f.nextHash.rank
      {
        if old(ent.pprevHash) == NextOf(f) {
          assert old(f.nextHash) == ent && Below(e, ent);
        }
      }
    }

    twostate lemma UnlinkKeepsIndexed(ent: Entry)
      requires old(Structure()) && DidUnlink(ent)
      ensures Indexed()
    {
      assert old(Listed(ent));
      forall e | e in entries
        ensures Listed(e)
      {
        assert old(Listed(e));
      }
    }

    /** __network_hash_unlink */
    method HashUnlink(ent: Entry)
      requires Structure()
      requires ent in entries
      modifies this`entries, this`index, nethash, entries`nextHash, entries`pprevHash
      ensures Structure()
      ensures entries == old(entries) - {ent} && index == old(index) - {ent.networkAddr}
    {
      match ent.pprevHash {
        case Bucket(i) => nethash[i] := ent.nextHash;
        case NextOf(p) => p.nextHash := ent.nextHash;
      }
      if ent.nextHash != null {
        ent.nextHash.pprevHash := ent.pprevHash;
      }
      ent.nextHash := null;
      ent.pprevHash := Nowhere;
      entries := entries - {ent};
      index := index - {ent.networkAddr};
      assert DidUnlink(ent);
      UnlinkKeepsForward(ent);
      UnlinkKeepsBackward(ent);
      UnlinkKeepsReachable(ent);
      UnlinkKeepsIndexed(ent);
    }

    /** The chain walk shared by insertion, lookup and scdb_findEntry. */
    method Find(addr: NetAddr) returns (db: Entry?)
      requires Structure() && Mirrored()
      ensures db == if addr in index then index[addr] else null
      ensures db == null <==> addr !in contents
      ensures db != null ==> db in entries && db.networkAddr == addr && contents[addr] == db.ToRecord()
    {
      db := nethash[hash(addr)];
      assert addr in index ==> Listed(index[addr]) && HangsFrom(index[addr], hash(addr));
      while db != null && db.networkAddr != addr
        invariant db != null ==> db in entries && db.bucket == hash(addr)
        invariant addr in index ==> db != null && index[addr].rank <= db.rank
        decreases if db == null then 0 else db.rank + 1
      {
        assert addr in index ==> Below(index[addr], db);
        db := db.nextHash;
      }
      assert db != null ==> Listed(db);
    }

    lemma NoOtherAt(db: Entry)
      requires Structure() && db in entries
      ensures db.networkAddr in index && index[db.networkAddr] == db
      ensures forall e {:trigger e.networkAddr} :: e in entries && e != db ==> e.networkAddr != db.networkAddr
    {
      assert Listed(db);
      forall e | e in entries && e != db
        ensures e.networkAddr != db.networkAddr
      {
        assert Listed(e);
      }
    }

    /** Links an entry whose data fields have been filled in. */
    method LinkRecord(db: Entry)
      requires Structure() && Mirrored()
      requires db !in entries && db.networkAddr !in index
      requires db.bucket == hash(db.networkAddr) && db.rank == nextRank
      modifies this`entries, this`index, this`nextRank, this`contents, nethash
      modifies db`nextHash, db`pprevHash, entries`pprevHash
      ensures Structure() && Mirrored()
      ensures entries == old(entries) + {db}
      ensures contents == old(contents)[db.networkAddr := db.ToRecord()]
    {
      HashLink(db);
      NoOtherAt(db);
      contents := contents[db.networkAddr := db.ToRecord()];
    }

    /** The part of __nat25_db_network_insert that allocates. */
    method InsertNew(mac: Mac, addr: NetAddr, now: Time)
      requires Valid() && addr !in index
      modifies this`entries, this`index, this`nextRank, this`contents, nethash, entries`pprevHash
      ensures Valid() && fresh(entries - old(entries))
      ensures contents == old(contents)[addr := Record(mac, now, 1)]
    {
      var db := new Entry(addr, mac, now, hash(addr), nextRank);
      LinkRecord(db);
    }

    /** Writes the data fields of one entry. */
    method WriteRecord(db: Entry, mac: Mac, ageing: Time, useCount: int)
      requires Structure() && Mirrored() && db in entries
      modifies db`macAddr, db`ageingTimer, db`useCount, this`contents
      ensures Structure() && Mirrored()
      ensures db.macAddr == mac && db.ageingTimer == ageing && db.useCount == useCount
      ensures contents == old(contents)[db.networkAddr := Record(mac, ageing, useCount)]
    {
      NoOtherAt(db);
      db.Write(mac, ageing, useCount);
      contents := contents[db.networkAddr := Record(mac, ageing, useCount)];
    }

    /** `WriteRecord` for an entry that stays in use. */
    method UpdateRecord(db: Entry, mac: Mac, ageing: Time, useCount: int)
      requires Valid() && db in entries && useCount >= 1
      modifies db`macAddr, db`ageingTimer, db`useCount, this`contents
      ensures Valid() && contents == old(contents)[db.networkAddr := Record(mac, ageing, useCount)]
    {
      WriteRecord(db, mac, ageing, useCount);
    }

    /** __nat25_db_network_insert, when memory is available. */
    method NetworkInsert(mac: Mac, addr: NetAddr, now: Time)
      requires Valid()
      modifies this`entries, this`index, this`nextRank, this`contents, nethash
      modifies entries`pprevHash, entries`macAddr, entries`ageingTimer, entries`useCount
      ensures Valid() && fresh(entries - old(entries))
      ensures contents == Apply(old(contents), Insert(addr, mac, now))
      ensures contents == old(contents)[addr := Record(mac, now, if addr in old(contents) then old(contents)[addr].useCount else 1)]
    {
      var db := Find(addr);
      if db != null {
        UpdateRecord(db, mac, now, db.useCount);
      } else {
        InsertNew(mac, addr, now);
      }
    }

    /** __nat25_db_network_lookup_and_replace; `dst` is the frame's destination address. */
    method NetworkLookupAndReplace(addr: NetAddr, now: Time, dst: Mac) returns (found: bool, newDst: Mac)
      requires Valid()
      modifies this`contents, entries`macAddr, entries`ageingTimer, entries`useCount
      ensures Valid()
      ensures contents == Apply(old(contents), Lookup(addr, now))
      ensures found <==> addr in old(contents)
      ensures contents.Keys == old(contents).Keys
      ensures newDst == if found && !HasExpired(old(contents)[addr].ageing, now) then old(contents)[addr].mac else dst
    {
      newDst := dst;
      var db := Find(addr);
      found := db != null;
      if db != null && !HasExpired(db.ageingTimer, now) {
        newDst := db.macAddr;
        UpdateRecord(db, db.macAddr, db.ageingTimer, db.useCount + 1);
      }
    }

    /** scdb_findEntry, then a refresh of the entry found. */
    method FindAndTouch(addr: NetAddr, now: Time) returns (db: Entry?)
      requires Valid()
      modifies this`contents, entries`macAddr, entries`ageingTimer, entries`useCount
      ensures Valid()
      ensures contents == Apply(old(contents), Touch(addr, now))
      ensures db == null <==> addr !in contents
      ensures db != null ==> db in entries && db.networkAddr == addr
    {
      db := Find(addr);
      if db != null {
        UpdateRecord(db, db.macAddr, now, db.useCount);
      }
    }

    /** The transmit path's short-cut to the entry of the client that sent last. */
    method ShortCut(addr: NetAddr, mac: Mac, ip: seq<Byte>, now: Time)
      requires Valid()
      modifies this`scdbEntry, this`scdbMac, this`scdbIp, this`contents
      modifies entries`macAddr, entries`ageingTimer, entries`useCount
      ensures Valid()
      ensures contents == Apply(old(contents), Touch(addr, now))
      ensures scdbEntry == null <==> addr !in contents
      ensures scdbEntry != null ==> scdbEntry.networkAddr == addr && scdbMac == mac && scdbIp == ip
      ensures scdbEntry == null ==> scdbMac == old(scdbMac) && scdbIp == old(scdbIp)
    {
      var db := FindAndTouch(addr, now);
      SetShortCut(db, mac, ip);
    }

    method SetShortCut(db: Entry?, mac: Mac, ip: seq<Byte>)
      requires Valid() && (db != null ==> db in entries)
      modifies this`scdbEntry, this`scdbMac, this`scdbIp
      ensures Valid() && scdbEntry == db
      ensures if db != null then scdbMac == mac && scdbIp == ip else scdbMac == old(scdbMac) && scdbIp == old(scdbIp)
    {
      scdbEntry := db;
      if db != null {
        scdbMac, scdbIp := mac, ip;
      }
    }

    /** The short-cut is dropped before the entry that it names is freed. */
    method ForgetShortCut(f: Entry)
      modifies this`scdbEntry, this`scdbMac, this`scdbIp
      ensures scdbEntry == if old(scdbEntry) == f then null else old(scdbEntry)
    {
      if scdbEntry == f {
        scdbMac, scdbIp := [0, 0, 0, 0, 0, 0], [0, 0, 0, 0];
        scdbEntry := null;
      }
    }

    method UnlinkRecord(f: Entry)
      requires Structure() && Mirrored() && f in entries
      modifies this`entries, this`index, this`contents, nethash, entries`nextHash, entries`pprevHash
      ensures Structure() && Mirrored()
      ensures entries == old(entries) - {f} && index == old(index) - {f.networkAddr}
      ensures contents == old(contents) - {f.networkAddr}
    {
      NoOtherAt(f);
      HashUnlink(f);
      contents := contents - {f.networkAddr};
    }

    /** Freeing one entry, as the sweep and the clean-up do. */
    method DropEntry(f: Entry)
      requires Structure() && Mirrored() && f in entries
      requires scdbEntry != null ==> scdbEntry in entries
      requires forall e :: e in entries && e != f ==> e.useCount >= 1
      modifies this`scdbEntry, this`scdbMac, this`scdbIp, this`entries, this`index, this`contents, nethash
      modifies entries`nextHash, entries`pprevHash
      ensures Valid() && entries == old(entries) - {f} && index == old(index) - {f.networkAddr}
      ensures contents == old(contents) - {f.networkAddr}
    {
      ForgetShortCut(f);
      UnlinkRecord(f);
    }

    /** The sweep's treatment of one entry. */
    method SweepEntry(f: Entry, now: Time)
      requires Valid() && f in entries && f.networkAddr in contents
      modifies this`scdbEntry, this`scdbMac, this`scdbIp, this`entries, this`index, this`contents, nethash
      modifies f`macAddr, f`ageingTimer, f`useCount, entries`nextHash, entries`pprevHash
      ensures Valid() && old(entries) - {f} <= entries <= old(entries)
      ensures index == old(index) || index == old(index) - {f.networkAddr}
      ensures contents == SweepOne(old(contents), f.networkAddr, now)
    {
      assert contents[f.networkAddr] == f.ToRecord();
      if HasExpired(f.ageingTimer, now) {
        WriteRecord(f, f.macAddr, f.ageingTimer, f.useCount - 1);
        if f.useCount == 0 {
          UpdateThenDrop(old(contents), f.networkAddr, contents[f.networkAddr]);
          DropEntry(f);
        }
      }
    }

    /** A walk standing at `f` in bucket `i` has not reached `e` yet. */
    ghost predicate Ahead(e: Entry, i: int, f: Entry?)
    {
      e.bucket > i || (e.bucket == i && f != null && e.rank <= f.rank)
    }

    /** A walk starts with its whole bucket ahead. */
    lemma BucketAhead(i: nat)
      requires Structure() && i < NAT25_HASH_SIZE
      ensures nethash[i] != null ==> nethash[i] in entries && nethash[i].bucket == i
      ensures forall e :: e in entries && e.bucket >= i ==> Ahead(e, i, nethash[i])
    {
      forall e | e in entries && e.bucket >= i
        ensures Ahead(e, i, nethash[i])
      {
        assert e.bucket == i ==> HangsFrom(e, i);
      }
    }

    /** Moving from `f` to `g` leaves exactly `f` behind. */
    ghost predicate Advances(s: set<Entry>, i: int, f: Entry, g: Entry?)
    {
      && (g != null ==> g.rank < f.rank)
      && !Ahead(f, i, g)
      && forall e :: e in s ==> (Ahead(e, i, f) <==> Ahead(e, i, g) || e == f)
    }

    /** One step along the chain leaves exactly the current entry behind. */
    lemma StepAhead(i: nat, f: Entry)
      requires Structure() && f in entries && f.bucket == i
      ensures f.nextHash != null ==> f.nextHash in entries && f.nextHash.bucket == i && f.nextHash.rank < f.rank
      ensures Advances(entries, i, f, f.nextHash)
    {
      forall e | e in entries
        ensures Ahead(e, i, f) <==> Ahead(e, i, f.nextHash) || e == f
      {
        assert e != f && e.bucket == i && e.rank <= f.rank ==> Below(e, f);
      }
    }

    /** The addresses that a walk standing at `f` in bucket `i` has not reached yet. */
    ghost function AheadOf(index: map<NetAddr, Entry>, i: int, f: Entry?): set<NetAddr>
    {
      set a | a in index && Ahead(index[a], i, f)
    }

    lemma AheadShrinks(before: map<NetAddr, Entry>, after: map<NetAddr, Entry>, s: set<Entry>, i: int, f: Entry, g: Entry?)
      requires Advances(s, i, f, g)
      requires forall a :: a in before ==> before[a] in s && before[a].networkAddr == a
      requires f.networkAddr in before && before[f.networkAddr] == f
      requires after == before || after == before - {f.networkAddr}
      ensures AheadOf(after, i, g) == AheadOf(before, i, f) - {f.networkAddr}
    {
    }

    /** nat25_db_expire, one entry. */
    method SweepNext(f: Entry, ghost i: nat, now: Time, ghost db0: Db) returns (g: Entry?)
      requires Valid() && f in entries && f.bucket == i
      requires SweptExcept(db0, contents, now, AheadOf(index, i, f))
      modifies this`scdbEntry, this`scdbMac, this`scdbIp, this`entries, this`index, this`contents, nethash
      modifies f`macAddr, f`ageingTimer, f`useCount, entries`nextHash, entries`pprevHash
      ensures Valid() && entries <= old(entries)
      ensures g != null ==> g in entries && g.bucket == i && g.rank < f.rank
      ensures SweptExcept(db0, contents, now, AheadOf(index, i, g))
    {
      ghost var before := index;
      g := f.nextHash;
      StepAhead(i, f);
      NoOtherAt(f);
      SweepOneAdvances(db0, contents, now, AheadOf(index, i, f), f.networkAddr);
      SweepEntry(f, now);
      AheadShrinks(before, index, old(entries), i, f, g);
    }

    /** nat25_db_expire, one bucket. */
    method ExpireBucket(i: nat, now: Time, ghost db0: Db)
      requires Valid() && i < NAT25_HASH_SIZE
      requires SweptExcept(db0, contents, now, AheadOf(index, i - 1, null))
      modifies this`scdbEntry, this`scdbMac, this`scdbIp, this`entries, this`index, this`contents, nethash
      modifies entries`macAddr, entries`ageingTimer, entries`useCount, entries`nextHash, entries`pprevHash
      ensures Valid() && entries <= old(entries)
      ensures SweptExcept(db0, contents, now, AheadOf(index, i, null))
    {
      var f := nethash[i];
      BucketAhead(i);
      assert AheadOf(index, i, f) == AheadOf(index, i - 1, null);
      while f != null
        invariant Valid() && entries <= old(entries)
        invariant f != null ==> f in entries && f.bucket == i
        invariant SweptExcept(db0, contents, now, AheadOf(index, i, f))
        decreases if f == null then 0 else f.rank + 1
      {
        f := SweepNext(f, i, now, db0);
      }
    }

    /** nat25_db_expire */
    method Expire(now: Time)
      requires Valid()
      modifies this`scdbEntry, this`scdbMac, this`scdbIp, this`entries, this`index, this`contents, nethash
      modifies entries`macAddr, entries`ageingTimer, entries`useCount, entries`nextHash, entries`pprevHash
      ensures Valid() && entries <= old(entries)
      ensures contents == Apply(old(contents), Sweep(now))
    {
      ghost var db0 := contents;
      for i := 0 to NAT25_HASH_SIZE
        invariant Valid() && entries <= old(entries)
        invariant SweptExcept(db0, contents, now, AheadOf(index, i - 1, null))
      {
        ExpireBucket(i, now, db0);
      }
      assert forall e :: e in entries ==> Listed(e);
      assert AheadOf(index, NAT25_HASH_SIZE - 1, null) == {};
      SweepComplete(db0, contents, now);
    }

    /** nat25_db_cleanup, one bucket. */
    method CleanUpBucket(i: nat)
      requires Valid() && i < NAT25_HASH_SIZE
      requires forall e :: e in entries ==> e.bucket >= i
      modifies this`scdbEntry, this`scdbMac, this`scdbIp, this`entries, this`index, this`contents, nethash, entries`nextHash, entries`pprevHash
      ensures Valid() && entries <= old(entries)
      ensures forall e :: e in entries ==> e.bucket > i
    {
      var f := nethash[i];
      BucketAhead(i);
      while f != null
        invariant Valid() && entries <= old(entries)
        invariant f != null ==> f in entries && f.bucket == i
        invariant forall e :: e in entries ==> Ahead(e, i, f)
        decreases if f == null then 0 else f.rank + 1
      {
        var g := f.nextHash;
        StepAhead(i, f);
        DropEntry(f);
        f := g;
      }
    }

    /** nat25_db_cleanup */
    method CleanUp()
      requires Valid()
      modifies this, nethash, entries
      ensures Valid() && entries == {} && scdbEntry == null
      ensures contents == Apply(old(contents), Cleanup)
    {
      for i := 0 to NAT25_HASH_SIZE
        invariant Valid() && entries <= old(entries)
        invariant forall e :: e in entries ==> e.bucket >= i
      {
        CleanUpBucket(i);
      }
      assert forall e :: e in entries ==> Listed(e);
      assert entries == {};
    }
  }
}
