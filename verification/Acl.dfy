/** The MAC access list of an access point: a pool of slots and a queue of the slots in use, standing for a set of addresses. */
module Acl {
  import opened Bytes
  import opened Options
  import opened Slots
  import opened AclSpec

  datatype Node = Node(addr: Mac, valid: bool)

  /** The queue holds exactly the valid slots; `at` says which slot holds an address, and no two hold the same. */
  ghost predicate Linked(nodes: seq<Node>, q: seq<nat>, at: map<Mac, nat>) {
    && |nodes| == NUM_ACL && |at| == |q|
    && (forall s {:trigger nodes[s]} :: 0 <= s < NUM_ACL ==> (nodes[s].valid <==> s in q))
    && (forall s {:trigger nodes[s]} :: 0 <= s < NUM_ACL && nodes[s].valid ==> nodes[s].addr in at && at[nodes[s].addr] == s)
    && (forall a {:trigger a in at} :: a in at ==> at[a] < NUM_ACL && nodes[at[a]] == Node(a, true))
  }

  lemma LinkedAfterAdd(nodes: seq<Node>, q: seq<nat>, at: map<Mac, nat>, s: nat, addr: Mac)
    requires Linked(nodes, q, at) && s < NUM_ACL && !nodes[s].valid && addr !in at
    ensures Linked(nodes[s := Node(addr, true)], q + [s], at[addr := s]) && s !in q
  {
  }

  lemma OneKeyLess(at: map<Mac, nat>, a: Mac)
    requires a in at
    ensures |at - {a}| == |at| - 1
  {
    assert (at - {a}).Keys == at.Keys - {a};
  }

  lemma LinkedAfterRemove(nodes: seq<Node>, q: seq<nat>, at: map<Mac, nat>, s: nat, r: seq<nat>)
    requires Linked(nodes, q, at) && s < NUM_ACL && s in q
    requires |r| == |q| - 1 && s !in r && forall x :: x in q <==> x in r || x == s
    ensures Linked(nodes[s := nodes[s].(valid := false)], r, at - {nodes[s].addr})
  {
    var a := nodes[s].addr;
    OneKeyLess(at, a);
  }

  /** None of the first k entries holds the address. */
  ghost predicate Passed(nodes: seq<Node>, q: seq<nat>, k: nat, addr: Mac) {
    (k <= |q| && forall j :: 0 <= j < k ==> q[j] < |nodes| && nodes[q[j]].addr != addr) == true
  }

  lemma SearchedThrough(nodes: seq<Node>, q: seq<nat>, at: map<Mac, nat>, addr: Mac)
    requires Linked(nodes, q, at) && Passed(nodes, q, |q|, addr)
    ensures addr !in at
  {
  }

  lemma PassedAfterRemove(nodes: seq<Node>, q: seq<nat>, k: nat, addr: Mac)
    requires Passed(nodes, q, k, addr) && k < |q| && q[k] < |nodes|
    ensures Passed(nodes[q[k] := nodes[q[k]].(valid := false)], Without(q, k), k, addr)
  {
  }

  class Pool {
    const nodes: array<Node>
    var queue: seq<nat>
    var num: int
    var mode: int

    /** The addresses on the list and their slots. */
    ghost var at: map<Mac, nat>

    ghost predicate Valid()
      reads this, nodes
    {
      (Linked(nodes[..], queue, at) && Distinct(queue, NUM_ACL) && num == |queue|) == true
    }

    /** What the list stands for: a set of addresses, counted by `num`. */
    ghost function Addresses(): (r: set<Mac>)
      requires Valid()
      reads this, nodes
      ensures |r| == num
    {
      at.Keys
    }

    /** The ACL part of start_ap_mode. */
    constructor (blank: Mac)
      ensures Valid() && Addresses() == {} && mode == 0 && fresh(nodes)
    {
      nodes := new Node[NUM_ACL](_ => Node(blank, false));
      queue, num, mode, at := [], 0, 0, map[];
    }

    /** Entry k of the queue is valid and holds the address. */
    method Holds(k: nat, addr: Mac) returns (hit: bool)
      requires Valid() && k < |queue|
      ensures queue[k] < NUM_ACL == nodes.Length && hit == (nodes[queue[k]].addr == addr) && (hit ==> addr in at)
    {
      var x := nodes[queue[k]];
      assert queue[k] in queue && x == nodes[..][queue[k]];
      hit := x.addr == addr && x.valid;
    }

    /** The search that adding and access control share. */
    method Find(addr: Mac) returns (found: bool)
      requires Valid()
      ensures found <==> addr in Addresses()
    {
      found := false;
      var i := 0;
      while i < |queue|
        invariant Passed(nodes[..], queue, i, addr) && !found
      {
        var hit := Holds(i, addr);
        if hit {
          return true;
        }
        i := i + 1;
      }
      SearchedThrough(nodes[..], queue, at, addr);
    }

    /** A slot that is not valid. */
    method FirstInvalid() returns (s: nat)
      requires Valid() && num < NUM_ACL
      ensures s < NUM_ACL && !nodes[s].valid
    {
      ghost var missing := SomeMissing(queue, NUM_ACL);
      s := 0;
      while nodes[s].valid
        invariant s <= missing
        decreases missing - s
      {
        s := s + 1;
      }
    }

    /** The writes of rtw_acl_add_sta. */
    method Enter(s: nat, addr: Mac)
      requires Valid() && s < NUM_ACL == nodes.Length && !nodes[s].valid && addr !in at
      modifies this`queue, this`num, this`at, nodes
      ensures Valid() && at.Keys == old(at.Keys) + {addr}
    {
      ghost var was := nodes[..];
      LinkedAfterAdd(was, queue, at, s, addr);
      AppendOne(queue, s, NUM_ACL);
      nodes[s] := Node(addr, true);
      assert nodes[..] == was[s := Node(addr, true)];
      queue, at := queue + [s], at[addr := s];
      num := num + 1;
    }

    /** rtw_acl_add_sta */
    method AddSta(addr: Mac) returns (ret: int)
      requires Valid()
      modifies this`queue, this`num, this`at, nodes
      ensures Valid()
      ensures ret == if |old(Addresses())| < 16 then 0 else -1
      ensures Addresses() == Apply(old(Addresses()), Add(addr))
    {
      if NUM_ACL - 1 < num {
        return -1;
      }
      var added := Find(addr);
      if added {
        return 0;
      }
      var s := FirstInvalid();
      Enter(s, addr);
      return 0;
    }

    /** The removal of entry k of the queue in rtw_acl_remove_sta. */
    method Invalidate(k: nat, ghost addr: Mac)
      requires Valid() && k < |queue|
      modifies this`queue, this`num, this`at, nodes
      ensures Valid() && queue == Without(old(queue), k) && at.Keys == old(at.Keys) - {old(nodes[queue[k]]).addr}
      ensures old(Passed(nodes[..], queue, k, addr)) ==> Passed(nodes[..], queue, k, addr)
    {
      ghost var was, q := nodes[..], queue;
      RemoveOne(q, k, NUM_ACL);
      LinkedAfterRemove(was, q, at, q[k], Without(q, k));
      if Passed(was, q, k, addr) { PassedAfterRemove(was, q, k, addr); }
      at := at - {nodes[queue[k]].addr};
      nodes[queue[k]] := nodes[queue[k]].(valid := false);
      assert nodes[..] == was[q[k] := was[q[k]].(valid := false)];
      queue := Without(queue, k);
      num := num - 1;
    }

    /** One round of the loop of rtw_acl_remove_sta. */
    method RemoveEntry(k: nat, addr: Mac) returns (next: nat)
      requires Valid() && k < |queue|
      requires Passed(nodes[..], queue, k, addr)
      modifies this`queue, this`num, this`at, nodes
      ensures Valid() && next <= |queue| && |queue| - next < old(|queue|) - k
      ensures Passed(nodes[..], queue, next, addr)
      ensures at.Keys - {addr} == old(at.Keys) - {addr}
    {
      var hit := Holds(k, addr);
      if hit {
        Invalidate(k, addr);
        next := k;
      } else {
        next := k + 1;
      }
    }

    /** The loop of rtw_acl_remove_sta. */
    method RemoveAll(addr: Mac)
      requires Valid()
      modifies this`queue, this`num, this`at, nodes
      ensures Valid() && at.Keys == old(at.Keys) - {addr}
    {
      var k: nat := 0;
      while k < |queue|
        invariant Valid() && k <= |queue|
        invariant Passed(nodes[..], queue, k, addr)
        invariant at.Keys - {addr} == old(at.Keys) - {addr}
        decreases |queue| - k
      {
        k := RemoveEntry(k, addr);
      }
      SearchedThrough(nodes[..], queue, at, addr);
      assert at.Keys - {addr} == at.Keys;
    }

    /** rtw_acl_remove_sta */
    method RemoveSta(addr: Mac) returns (ret: int)
      requires Valid()
      modifies this`queue, this`num, this`at, nodes
      ensures Valid() && ret == 0
      ensures Addresses() == Apply(old(Addresses()), Remove(addr))
    {
      RemoveAll(addr);
      return 0;
    }

    /** rtw_access_ctrl */
    method AccessCtrl(addr: Mac) returns (res: bool)
      requires Valid()
      ensures res == if mode == 1 then addr !in Addresses() else if mode == 2 then addr in Addresses() else true
    {
      var match_ := Find(addr);
      if mode == 1 {
        res := !match_;
      } else if mode == 2 {
        res := match_;
      } else {
        res := true;
      }
    }
  }
}
