/** The MAC access list as a set of addresses, over runs of adds and removes. */
module AclSpec {
  import opened Bytes

  const NUM_ACL := 16

  datatype Op = Add(addr: Mac) | Remove(addr: Mac)

  /** Adding is refused once the list is full, even for an address that is on it. */
  function Apply(s: set<Mac>, op: Op): set<Mac> {
    match op
    case Add(a) => if |s| < NUM_ACL then s + {a} else s
    case Remove(a) => s - {a}
  }

  function Run(ops: seq<Op>, n: nat): (s: set<Mac>)
    requires n <= |ops|
    ensures |s| <= NUM_ACL
  {
    if n == 0 then {} else Apply(Run(ops, n - 1), ops[n - 1])
  }

  /** Operation k added the address and found room. */
  ghost predicate Entered(ops: seq<Op>, k: nat, addr: Mac)
    requires k < |ops|
  {
    ops[k] == Add(addr) && |Run(ops, k)| < NUM_ACL
  }

  /** Operation k put the address on the list and nothing up to n took it off. */
  ghost predicate PutOnBy(ops: seq<Op>, n: nat, addr: Mac, k: nat)
    requires n <= |ops|
  {
    k < n && Entered(ops, k, addr) && forall j :: k < j < n ==> ops[j] != Remove(addr)
  }

  ghost predicate PutOn(ops: seq<Op>, n: nat, addr: Mac)
    requires n <= |ops|
  {
    exists k: nat :: PutOnBy(ops, n, addr, k)
  }

  lemma PutOnStep(ops: seq<Op>, n: nat, addr: Mac)
    requires n < |ops|
    ensures PutOn(ops, n + 1, addr) <==> Entered(ops, n, addr) || (PutOn(ops, n, addr) && ops[n] != Remove(addr))
  {
    if PutOn(ops, n + 1, addr) {
      var k: nat :| PutOnBy(ops, n + 1, addr, k);
      assert k < n ==> PutOnBy(ops, n, addr, k);
    } else if Entered(ops, n, addr) {
      assert PutOnBy(ops, n + 1, addr, n);
    } else if PutOn(ops, n, addr) {
      var k: nat :| PutOnBy(ops, n, addr, k);
      assert ops[n] != Remove(addr) ==> PutOnBy(ops, n + 1, addr, k);
    }
  }

  /** After any run of adds and removes an address is on the list exactly if an add that found room put it there and
      nothing has removed it since. */
  lemma {:induction false} OnListIff(ops: seq<Op>, n: nat, addr: Mac)
    requires n <= |ops|
    ensures addr in Run(ops, n) <==> PutOn(ops, n, addr)
  {
    if n > 0 {
      OnListIff(ops, n - 1, addr);
      PutOnStep(ops, n - 1, addr);
    }
  }
}
