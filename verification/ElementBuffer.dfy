/** Searching and splicing of information elements in a buffer. */
module ElementBuffer {
  import opened Bytes
  import opened Options
  import opened Memory
  import opened Items
  import opened Elements

  const MAX_IE_SZ := 768

  // ----- searching -----

  lemma SliceFront(s: seq<Byte>, at: nat, n: nat, m: nat)
    requires m <= n && at + n <= |s|
    ensures s[at..at + n][..m] == s[at..at + m]
  {
  }

  /** rtw_get_ie_ex; `oui` is absent when the caller passes none. */
  method GetIeEx(s: seq<Byte>, ghost es: seq<Elem>, eid: Byte, oui: Option<seq<Byte>>) returns (pos: Option<nat>, ielen: nat)
    requires Fits(es) && s == Encode(es) && LongEnough(es, eid, oui)
    ensures var k := FirstMatch(es, 0, eid, oui);
      if k < |es| then pos == Some(Size(es, 0, k)) && ielen == 2 + |es[k].body| else pos == None && ielen == 0
  {
    ghost var k := 0;
    pos, ielen := None, 0;
    var cnt := 0;
    while cnt < |s|
      invariant k <= |es| && cnt == Size(es, 0, k)
      invariant k < |es| ==> cnt < |s|
      invariant FirstMatch(es, 0, eid, oui) == FirstMatch(es, k, eid, oui)
      invariant pos == None && ielen == 0
      decreases |es| - k
    {
      ReadAt(es, 0, k);
      if s[cnt] == eid && oui.Some? { SliceFront(s, cnt + 2, |es[k].body|, |oui.value|); }
      if s[cnt] == eid && (oui.None? || s[cnt + 2..cnt + 2 + |oui.value|] == oui.value) {
        pos, ielen := Some(cnt), 2 + s[cnt + 1] as int;
        return;
      }
      cnt := cnt + s[cnt + 1] as int + 2;
      k := k + 1;
      if k < |es| { ReadAt(es, 0, k); }
    }
  }

  /** rtw_get_ie; the search limit is the length of the buffer. */
  method GetIe(s: seq<Byte>, ghost es: seq<Elem>, index: Byte) returns (pos: Option<nat>, len: nat)
    requires Fits(es) && s == Encode(es)
    ensures var k := FirstMatch(es, 0, index, None);
      if k < |es| then pos == Some(Size(es, 0, k)) && len == |es[k].body| else pos == None
  {
    pos, len := None, 0;
    if |s| < 1 {
      return;
    }
    ghost var k := 0;
    var p := 0;
    while true
      invariant k < |es| && p == Size(es, 0, k)
      invariant FirstMatch(es, 0, index, None) == FirstMatch(es, k, index, None)
      invariant pos == None
      decreases |es| - k
    {
      ReadAt(es, 0, k);
      if s[p] == index {
        pos, len := Some(p), s[p + 1] as int;
        return;
      }
      p := p + s[p + 1] as int + 2;
      k := k + 1;
      if k < |es| { ReadAt(es, 0, k); }
      if p >= |s| {
        return;
      }
    }
  }

  // ----- removing -----

  /** Closing up the `n` octets at `target` in the first `len` octets of a buffer. */
  function CutOut(s: seq<Byte>, len: nat, target: nat, n: nat): (r: seq<Byte>)
    requires target + n <= len <= |s|
    ensures |r| == |s|
  {
    Splice(s, target, s[target + n..len])
  }

  /** Cutting the middle out of a part leaves its two ends next to each other. */
  lemma CutOutMiddle(s: seq<Byte>, start: nat, len: nat, a: seq<Byte>, b: seq<Byte>, c: seq<Byte>)
    requires start <= len <= |s| && s[start..len] == a + b + c
    ensures var r := CutOut(s, len, start + |a|, |b|);
      r[..start + |a|] == s[..start] + a && r[start + |a|..len - |b|] == c
  {
    assert s[start..len][..|a|] == a;
    assert s[start..start + |a|] == a;
    assert s[start..len][|a| + |b|..] == c;
    assert s[start + |a| + |b|..len] == c;
  }

  /** State of the removal loop: `kept` has been passed over, `rest` is still to be searched and starts at `start`. */
  ghost predicate Removing(s: seq<Byte>, fixed: seq<Byte>, kept: seq<Elem>, rest: seq<Elem>, start: nat, len: nat) {
    (start <= len <= |s| && s[..start] == fixed + Encode(kept) && s[start..len] == Encode(rest)) == true
  }

  /** Cutting out the next match is one step of the removal. */
  lemma RemoveStep(s: seq<Byte>, fixed: seq<Byte>, kept: seq<Elem>, rest: seq<Elem>, start: nat, len: nat, k: nat)
    requires Removing(s, fixed, kept, rest, start, len) && k < |rest|
    ensures var target, n := start + Size(rest, 0, k), 2 + |rest[k].body|;
      && target + n <= len
      && Removing(CutOut(s, len, target, n), fixed, kept + rest[..k], rest[k + 1..], target, len - n)
  {
    assert rest == rest[..k] + [rest[k]] + rest[k + 1..];
    AllAround(EncodeOne, rest[..k], rest[k], rest[k + 1..]);
    CatFront(EncodeOne, rest, k);
    CutOutMiddle(s, start, len, Encode(rest[..k]), EncodeOne(rest[k]), Encode(rest[k + 1..]));
    AllAppend(EncodeOne, kept, rest[..k]);
    Assoc(fixed, Encode(kept), Encode(rest[..k]));
  }

  /** Without a further match the removal is complete. */
  lemma RemovingDone(s: seq<Byte>, fixed: seq<Byte>, kept: seq<Elem>, rest: seq<Elem>, start: nat, len: nat, eid: Byte, oui: Option<seq<Byte>>)
    requires Removing(s, fixed, kept, rest, start, len) && FirstMatch(rest, 0, eid, oui) == |rest|
    ensures s[..len] == fixed + Encode(kept + Without(Matching(eid, oui), rest))
  {
    FirstMatchIsFirst(rest, 0, eid, oui);
    WithoutNone(Matching(eid, oui), rest);
    AllAppend(EncodeOne, kept, rest);
    assert s[..len] == s[..start] + s[start..len];
    Assoc(fixed, Encode(kept), Encode(rest));
  }

  /** The copying in the loop of rtw_ies_remove_ie. */
  method CloseUp(buf: array<Byte>, len: nat, target: nat, n: nat)
    requires target + n <= len <= buf.Length
    modifies buf
    ensures buf[..] == CutOut(old(buf[..]), len, target, n)
    ensures forall j :: len <= j < buf.Length ==> buf[j] == old(buf[j])
  {
    ghost var r := CutOut(buf[..], len, target, n);
    assert forall j :: len <= j < buf.Length ==> r[j] == buf[j];
    Move(buf, target, target + n, len - target - n);
  }

  /** One round of the loop of rtw_ies_remove_ie: the next match, if there is one, is cut out. */
  method RemoveNext(ies: array<Byte>, ghost fixed: seq<Byte>, ghost kept: seq<Elem>, ghost rest: seq<Elem>, start: nat, len: nat,
                    eid: Byte, oui: Option<seq<Byte>>) returns (found: bool, newStart: nat, newLen: nat)
    requires start <= len <= ies.Length && Fits(rest) && LongEnough(rest, eid, oui)
    requires Removing(ies[..], fixed, kept, rest, start, len)
    modifies ies
    ensures newStart <= newLen <= len && found == (FirstMatch(rest, 0, eid, oui) < |rest|)
    ensures var k := FirstMatch(rest, 0, eid, oui);
      found ==> Removing(ies[..], fixed, kept + rest[..k], rest[k + 1..], newStart, newLen)
    ensures !found ==> ies[..newLen] == fixed + Encode(kept + Without(Matching(eid, oui), rest))
    ensures forall j :: len <= j < ies.Length ==> ies[j] == old(ies[j])
  {
    var pos, targetLen := GetIeEx(ies[start..len], rest, eid, oui);
    if pos.None? {
      RemovingDone(ies[..], fixed, kept, rest, start, len, eid, oui);
      return false, start, len;
    }
    RemoveStep(ies[..], fixed, kept, rest, start, len, FirstMatch(rest, 0, eid, oui));
    found, newStart, newLen := true, start + pos.value, len - targetLen;
    CloseUp(ies, len, newStart, targetLen);
  }

  /** The loop of rtw_ies_remove_ie. */
  method RemoveAll(ies: array<Byte>, len: nat, offset: nat, ghost es: seq<Elem>, eid: Byte, oui: Option<seq<Byte>>)
    returns (ret: bool, newLen: nat)
    requires offset <= len <= ies.Length && Fits(es) && LongEnough(es, eid, oui)
    requires Removing(ies[..], ies[..offset], [], es, offset, len)
    modifies ies
    ensures newLen <= len && ies[..newLen] == old(ies[..offset]) + Encode(Without(Matching(eid, oui), es))
    ensures ret <==> FirstMatch(es, 0, eid, oui) < |es|
    ensures forall j :: len <= j < ies.Length ==> ies[j] == old(ies[j])
  {
    ghost var fixed, kept, rest := ies[..offset], [], es;
    var start: nat := offset;
    ret, newLen := false, len;
    assert kept + Without(Matching(eid, oui), rest) == Without(Matching(eid, oui), es);
    while true
      invariant start <= newLen <= len && Fits(rest) && LongEnough(rest, eid, oui)
      invariant Removing(ies[..], fixed, kept, rest, start, newLen)
      invariant kept + Without(Matching(eid, oui), rest) == Without(Matching(eid, oui), es)
      invariant if ret then FirstMatch(es, 0, eid, oui) < |es| else rest == es
      invariant forall j :: len <= j < ies.Length ==> ies[j] == old(ies[j])
      decreases |rest|
    {
      var found, newStart, closed := RemoveNext(ies, fixed, kept, rest, start, newLen, eid, oui);
      start, newLen := newStart, closed;
      if !found {
        return;
      }
      ghost var k := FirstMatch(rest, 0, eid, oui);
      FirstMatchIsFirst(rest, 0, eid, oui);
      WithoutFirst(Matching(eid, oui), rest, k);
      Assoc(kept, rest[..k], Without(Matching(eid, oui), rest[k + 1..]));
      ret, kept, rest := true, kept + rest[..k], rest[k + 1..];
    }
  }

  /** rtw_ies_remove_ie; the octets from `offset` on are those of `es`. */
  method IesRemoveIe(ies: array<Byte>, iesLen: nat, offset: nat, ghost es: seq<Elem>, eid: Byte, oui: Option<seq<Byte>>)
    returns (ret: bool, newLen: nat)
    requires iesLen <= ies.Length && iesLen - offset <= MAX_IE_SZ
    requires offset < iesLen ==> Fits(es) && ies[offset..iesLen] == Encode(es) && LongEnough(es, eid, oui)
    modifies ies
    ensures newLen <= iesLen
    ensures iesLen <= offset ==> !ret && newLen == iesLen && ies[..] == old(ies[..])
    ensures offset < iesLen ==> ies[..newLen] == old(ies[..offset]) + Encode(Without(Matching(eid, oui), es))
    ensures offset < iesLen ==> (ret <==> FirstMatch(es, 0, eid, oui) < |es|)
    ensures forall j :: iesLen <= j < ies.Length ==> ies[j] == old(ies[j])
  {
    ret, newLen := false, iesLen;
    if offset < iesLen {
      assert ies[..offset] + Encode([]) == ies[..offset];
      ret, newLen := RemoveAll(ies, iesLen, offset, es, eid, oui);
    }
  }
}
