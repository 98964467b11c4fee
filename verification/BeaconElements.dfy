/** Inserting and removing single elements of the beacon that an access point sends. */
module BeaconElements {
  import opened Bytes
  import opened Options
  import opened Memory
  import opened Items
  import opened Elements
  import opened ElementBuffer

  const FIXED_IE_LENGTH := 12

  // ----- on element lists -----

  /** Where the scan of rtw_add_bcn_ie stops: the first element from i on whose id is not below `index`. */
  function ScanStop(es: seq<Elem>, i: nat, index: Byte): (k: nat)
    requires i <= |es|
    ensures i <= k <= |es|
    decreases |es| - i
  {
    if i == |es| || es[i].id >= index then i else ScanStop(es, i + 1, index)
  }

  predicate Present(es: seq<Elem>, k: nat, index: Byte) {
    k < |es| && es[k].id == index
  }

  /** rtw_add_bcn_ie writes through a pointer that was set only if the scan saw an element to replace or to
      insert behind, and that element has a body. */
  predicate AddDefined(es: seq<Elem>, index: Byte) {
    var k := ScanStop(es, 0, index);
    if Present(es, k, index) then |es[k].body| > 0 else k > 0 && |es[k - 1].body| > 0
  }

  function Added(es: seq<Elem>, e: Elem): seq<Elem> {
    var k := ScanStop(es, 0, e.id);
    es[..k] + [e] + es[if Present(es, k, e.id) then k + 1 else k..]
  }

  /** The length of a beacon with the element in it: the element it replaces, if any, makes room. */
  function LengthWith(es: seq<Elem>, len: nat, e: Elem): int {
    var k := ScanStop(es, 0, e.id);
    len + 2 + |e.body| - if Present(es, k, e.id) then 2 + |es[k].body| else 0
  }

  function Removed(es: seq<Elem>, index: Byte): seq<Elem> {
    var k := FirstMatch(es, 0, index, None);
    if k < |es| && |es[k].body| > 0 then es[..k] + es[k + 1..] else es
  }

  /** The pointer is unset in front of all elements, and unusable at or behind an element without a body, such as the
      SSID element of a hidden network. */
  lemma AddUndefined()
    ensures !AddDefined([Elem(3, [6])], 1)
    ensures !AddDefined([Elem(0, []), Elem(3, [6])], 1)
    ensures !AddDefined([Elem(0, []), Elem(3, [6])], 0)
  {
    var hidden := [Elem(0, []), Elem(3, [6])];
    assert ScanStop([Elem(3, [6])], 0, 1) == 0;
    assert ScanStop(hidden, 0, 1) == ScanStop(hidden, 1, 1) == 1;
    assert ScanStop(hidden, 0, 0) == 0;
  }

  ghost predicate Sorted(es: seq<Elem>) {
    forall i, j :: 0 <= i < j < |es| ==> es[i].id <= es[j].id
  }

  /** On any list the element goes in front of the first one with a greater id, or in place of one with its own id that comes
      before that. */
  lemma AddedMeans(es: seq<Elem>, e: Elem)
    ensures var k := ScanStop(es, 0, e.id);
      && (forall j :: 0 <= j < k ==> es[j].id < e.id) && (k < |es| ==> es[k].id >= e.id)
      && Added(es, e) == es[..k] + [e] + es[if k < |es| && es[k].id == e.id then k + 1 else k..]
  {
    ScanStopIsFirst(es, 0, e.id);
  }

  lemma {:induction false} ScanStopIsFirst(es: seq<Elem>, i: nat, index: Byte)
    requires i <= |es|
    ensures var k := ScanStop(es, i, index);
      (forall j :: i <= j < k ==> es[j].id < index) && (k < |es| ==> es[k].id >= index)
    decreases |es| - i
  {
    if i < |es| && es[i].id < index {
      ScanStopIsFirst(es, i + 1, index);
    }
  }

  /** On a sorted beacon the scan finds the id exactly if it is there. */
  lemma SortedScanFinds(es: seq<Elem>, index: Byte)
    requires Sorted(es)
    ensures Present(es, ScanStop(es, 0, index), index) <==> exists k :: 0 <= k < |es| && es[k].id == index
  {
    ScanStopIsFirst(es, 0, index);
  }

  /** `r` is `es` with `e` at k, either replacing what was there or pushing it back. */
  ghost predicate PutAt(r: seq<Elem>, es: seq<Elem>, k: nat, e: Elem, replace: bool) {
    && k <= |es| && (replace ==> k < |es|) && |r| == |es| + (if replace then 0 else 1)
    && r[k] == e
    && (forall j :: 0 <= j < k ==> r[j] == es[j])
    && (forall j :: k < j < |r| ==> r[j] == es[if replace then j else j - 1])
  }

  lemma AddedPutsAt(es: seq<Elem>, e: Elem)
    ensures var k := ScanStop(es, 0, e.id); PutAt(Added(es, e), es, k, e, Present(es, k, e.id))
  {
  }

  lemma PutKeepsSorted(r: seq<Elem>, es: seq<Elem>, k: nat, e: Elem, replace: bool)
    requires PutAt(r, es, k, e, replace) && Sorted(es)
    requires forall j :: 0 <= j < k ==> es[j].id < e.id
    requires forall j :: k <= j < |es| ==> es[j].id >= e.id
    ensures Sorted(r)
  {
  }

  lemma PutIsFound(r: seq<Elem>, es: seq<Elem>, k: nat, e: Elem, replace: bool)
    requires PutAt(r, es, k, e, replace)
    requires forall j :: 0 <= j < k ==> es[j].id < e.id
    ensures FirstMatch(r, 0, e.id, None) == k
  {
    FirstMatchIsFirst(r, 0, e.id, None);
    assert Matches(r[k], e.id, None);
    assert forall j :: 0 <= j < k ==> !Matches(r[j], e.id, None);
  }

  /** Adding to a sorted beacon replaces the element with the id, or inserts one; it keeps the order, a search for the
      id finds the new element, and every other element stays, in order. */
  lemma AddedIsSorted(es: seq<Elem>, e: Elem)
    requires Sorted(es)
    ensures Sorted(Added(es, e))
    ensures var k := FirstMatch(Added(es, e), 0, e.id, None);
      k <= |es| && PutAt(Added(es, e), es, k, e, exists j :: 0 <= j < |es| && es[j].id == e.id)
  {
    var k := ScanStop(es, 0, e.id);
    ScanStopIsFirst(es, 0, e.id);
    AddedPutsAt(es, e);
    SortedScanFinds(es, e.id);
    PutKeepsSorted(Added(es, e), es, k, e, Present(es, k, e.id));
    PutIsFound(Added(es, e), es, k, e, Present(es, k, e.id));
  }

  lemma TakeOutAgain(r: seq<Elem>, es: seq<Elem>, k: nat, e: Elem)
    requires PutAt(r, es, k, e, false) && |e.body| > 0 && FirstMatch(r, 0, e.id, None) == k
    ensures Removed(r, e.id) == es
  {
    assert r[..k] + r[k + 1..] == es;
  }

  /** Adding an absent id with a body, then removing it, restores the beacon. */
  lemma AddThenRemove(es: seq<Elem>, e: Elem)
    requires Sorted(es) && |e.body| > 0
    requires forall k :: 0 <= k < |es| ==> es[k].id != e.id
    ensures Removed(Added(es, e), e.id) == es
  {
    AddedIsSorted(es, e);
    TakeOutAgain(Added(es, e), es, FirstMatch(Added(es, e), 0, e.id, None), e);
  }

  // ----- in the buffer -----

  /** What is written when `mid` replaces `gone` and the tail is copied behind it. */
  lemma Replaced(s: seq<Byte>, len: nat, pre: seq<Byte>, gone: seq<Byte>, post: seq<Byte>, mid: seq<Byte>)
    requires len <= |s| && s[..len] == pre + gone + post && |pre| + |mid| + |post| <= |s|
    ensures s[|pre| + |gone|..len] == post
    ensures Splice(s, |pre|, mid + post)[..|pre| + |mid| + |post|] == pre + mid + post
  {
    assert s[..len][|pre| + |gone|..] == post;
    assert s[..len][..|pre|] == pre;
  }

  /** The octets of the list in which elements i to j - 1 are replaced by `mid`. */
  lemma ReplacedSpan(es: seq<Elem>, i: nat, j: nat, mid: seq<Elem>)
    requires Fits(es) && Fits(mid) && i <= j <= |es|
    ensures Encode(es[..i] + mid + es[j..]) == Span(es, 0, i) + Encode(mid) + Span(es, j, |es|)
  {
    AllAppend(EncodeOne, es[..i], mid);
    AllAppend(EncodeOne, es[..i] + mid, es[j..]);
    CatSame(EncodeOne, es[..i], 0, i, es, 0);
    CatSame(EncodeOne, es[j..], 0, |es| - j, es, j);
  }

  /** A beacon buffer: the fixed part, then the octets of the elements. */
  ghost predicate Beacon(s: seq<Byte>, len: nat, fixed: seq<Byte>, es: seq<Elem>) {
    (len <= |s| && |fixed| == FIXED_IE_LENGTH && Fits(es) && s[..len] == fixed + Encode(es)) == true
  }

  lemma BeaconSplit(s: seq<Byte>, len: nat, fixed: seq<Byte>, es: seq<Elem>, i: nat, j: nat)
    requires Beacon(s, len, fixed, es) && i <= j <= |es|
    ensures s[..len] == (fixed + Span(es, 0, i)) + Span(es, i, j) + Span(es, j, |es|)
  {
    var a, b, c := Span(es, 0, i), Span(es, i, j), Span(es, j, |es|);
    CatSplit(EncodeOne, es, 0, i, |es|);
    CatSplit(EncodeOne, es, i, j, |es|);
    Assoc(fixed, a, b + c);
    Assoc(fixed + a, b, c);
  }

  lemma BeaconJoin(fixed: seq<Byte>, es: seq<Elem>, i: nat, j: nat, mid: seq<Elem>)
    requires Fits(es) && Fits(mid) && i <= j <= |es|
    ensures (fixed + Span(es, 0, i)) + Encode(mid) + Span(es, j, |es|) == fixed + Encode(es[..i] + mid + es[j..])
  {
    var a, b, c := Span(es, 0, i), Encode(mid), Span(es, j, |es|);
    ReplacedSpan(es, i, j, mid);
    Assoc(fixed, a, b);
    Assoc(fixed, a + b, c);
  }

  /** Element k of a beacon, with what is before and behind it. */
  lemma ElemsAround(s: seq<Byte>, len: nat, fixed: seq<Byte>, es: seq<Elem>, k: nat)
    requires Beacon(s, len, fixed, es) && k < |es|
    ensures s == (fixed + Span(es, 0, k)) + EncodeOne(es[k]) + (Span(es, k + 1, |es|) + s[len..])
    ensures len == FIXED_IE_LENGTH + Size(es, 0, k) + 2 + |es[k].body| + |Span(es, k + 1, |es|)|
  {
    BeaconSplit(s, len, fixed, es, k, k + 1);
    SpanOne(es, k);
    assert s == s[..len] + s[len..];
    Assoc((fixed + Span(es, 0, k)) + EncodeOne(es[k]), Span(es, k + 1, |es|), s[len..]);
  }

  /** Replacing the octets of one element replaces the element. */
  lemma ElemReplaced(s: seq<Byte>, fixed: seq<Byte>, es: seq<Elem>, k: nat, e: Elem, tail: seq<Byte>)
    requires |fixed| == FIXED_IE_LENGTH && Fits(es) && k < |es| && |e.body| < 256
    requires s == (fixed + Span(es, 0, k)) + EncodeOne(e) + Span(es, k + 1, |es|) + tail
    ensures Beacon(s, |s| - |tail|, fixed, es[k := e])
  {
    SpanOne([e], 0);
    BeaconJoin(fixed, es, k, k + 1, [e]);
    assert es[..k] + [e] + es[k + 1..] == es[k := e];
  }

  /** Replacing the octets of elements i to j - 1 by those of `mid` replaces the elements. */
  lemma ReplacedElements(s: seq<Byte>, len: nat, fixed: seq<Byte>, es: seq<Elem>, i: nat, j: nat, mid: seq<Elem>)
    requires Beacon(s, len, fixed, es) && Fits(mid) && i <= j <= |es|
    requires len - Size(es, i, j) + |Encode(mid)| <= |s|
    ensures var at, till := FIXED_IE_LENGTH + Size(es, 0, i), FIXED_IE_LENGTH + Size(es, 0, j);
      && at <= till <= len && at + |Encode(mid)| + (len - till) <= |s|
      && Beacon(Splice(s, at, Encode(mid) + s[till..len]), at + |Encode(mid)| + (len - till), fixed, es[..i] + mid + es[j..])
  {
    SizeSplit(es, 0, i, j);
    BeaconSplit(s, len, fixed, es, i, j);
    assert len == FIXED_IE_LENGTH + Size(es, 0, i) + Size(es, i, j) + Size(es, j, |es|);
    Replaced(s, len, fixed + Span(es, 0, i), Span(es, i, j), Span(es, j, |es|), Encode(mid));
    BeaconJoin(fixed, es, i, j, mid);
  }

  lemma BeaconRead(s: seq<Byte>, len: nat, fixed: seq<Byte>, es: seq<Elem>, k: nat)
    requires Beacon(s, len, fixed, es) && k < |es|
    ensures var i := FIXED_IE_LENGTH + Size(es, 0, k);
      && i + 2 + |es[k].body| <= len
      && s[i] == es[k].id && s[i + 1] as int == |es[k].body| && Size(es, 0, k + 1) == Size(es, 0, k) + 2 + |es[k].body|
  {
    ReadAt(es, 0, k);
    var i, p, t := FIXED_IE_LENGTH + Size(es, 0, k), Size(es, 0, k), Encode(es);
    assert s[..len][i] == (fixed + t)[i] == t[p];
    assert s[..len][i + 1] == (fixed + t)[i + 1] == t[p + 1];
  }

  /** The scan of rtw_add_bcn_ie: `p` is the last element that it took note of, if any. */
  method Scan(s: seq<Byte>, len: nat, ghost fixed: seq<Byte>, ghost es: seq<Elem>, index: Byte)
    returns (p: Option<nat>, ielen: nat, bmatch: bool)
    requires Beacon(s, len, fixed, es)
    ensures var k := ScanStop(es, 0, index);
      && bmatch == Present(es, k, index)
      && (p.None? <==> k == 0 && !bmatch)
      && (p.Some? ==> var m := if bmatch then k else k - 1;
            p.value == FIXED_IE_LENGTH + Size(es, 0, m) && ielen == |es[m].body|)
  {
    p, ielen, bmatch := None, 0, false;
    var i := FIXED_IE_LENGTH;
    ghost var k := 0;
    while i < len
      invariant k <= |es| && i == FIXED_IE_LENGTH + Size(es, 0, k) && !bmatch
      invariant k == |es| <==> i >= len
      invariant ScanStop(es, 0, index) == ScanStop(es, k, index)
      invariant k == 0 <==> p.None?
      invariant k > 0 ==> p == Some(FIXED_IE_LENGTH + Size(es, 0, k - 1)) && ielen == |es[k - 1].body|
      decreases |es| - k
    {
      BeaconRead(s, len, fixed, es, k);
      if s[i] > index {
        break;
      }
      p, ielen := Some(i), s[i + 1] as int;
      if s[i] == index {
        bmatch := true;
        break;
      }
      i := i + s[i + 1] as int + 2;
      k := k + 1;
      if k < |es| { BeaconRead(s, len, fixed, es, k); }
    }
  }

  /** Writes the element at `dst` and the remainder of the buffer, which starts at `till`, behind it. */
  method PutElement(ies: array<Byte>, len: nat, ghost fixed: seq<Byte>, ghost es: seq<Elem>, e: Elem, dst: nat, till: nat)
    returns (newLength: nat)
    requires Beacon(ies[..], len, fixed, es) && |e.body| < 256 && LengthWith(es, len, e) <= ies.Length
    requires var k := ScanStop(es, 0, e.id);
      && dst == FIXED_IE_LENGTH + Size(es, 0, k)
      && till == FIXED_IE_LENGTH + Size(es, 0, if Present(es, k, e.id) then k + 1 else k)
    modifies ies
    ensures Beacon(ies[..], newLength, fixed, Added(es, e)) && newLength == LengthWith(es, len, e)
  {
    AddStep(ies[..], len, fixed, es, e);
    Store(ies, dst, EncodeOne(e) + ies[till..len]);
    newLength := dst + 2 + |e.body| + (len - till);
  }

  /** rtw_add_bcn_ie on a buffer with room for the element. */
  method AddBcnIe(ies: array<Byte>, ieLength: nat, ghost fixed: seq<Byte>, ghost es: seq<Elem>, index: Byte, data: seq<Byte>)
    returns (defined: bool, newLength: nat)
    requires Beacon(ies[..], ieLength, fixed, es) && |data| < 256
    requires AddDefined(es, index) ==> LengthWith(es, ieLength, Elem(index, data)) <= ies.Length
    modifies ies
    ensures defined == AddDefined(es, index)
    ensures defined ==> Beacon(ies[..], newLength, fixed, Added(es, Elem(index, data))) && newLength == LengthWith(es, ieLength, Elem(index, data))
    ensures !defined ==> ies[..] == old(ies[..]) && newLength == ieLength
  {
    var p, ielen, bmatch := Scan(ies[..], ieLength, fixed, es, index);
    defined, newLength := p.Some? && ielen > 0, ieLength;
    if defined {
      var premainder := p.value + ielen + 2;
      var dst := if bmatch then p.value else premainder;
      StepSizes(es, ScanStop(es, 0, index));
      newLength := PutElement(ies, ieLength, fixed, es, Elem(index, data), dst, premainder);
    }
  }

  /** Writing the new element and the remainder makes the buffer hold the new list. */
  lemma AddStep(s: seq<Byte>, len: nat, fixed: seq<Byte>, es: seq<Elem>, e: Elem)
    requires Beacon(s, len, fixed, es) && |e.body| < 256 && LengthWith(es, len, e) <= |s|
    ensures var k := ScanStop(es, 0, e.id);
      var j := if Present(es, k, e.id) then k + 1 else k;
      var at, till := FIXED_IE_LENGTH + Size(es, 0, k), FIXED_IE_LENGTH + Size(es, 0, j);
      && at <= till <= len && at + 2 + |e.body| + (len - till) == LengthWith(es, len, e)
      && Beacon(Splice(s, at, EncodeOne(e) + s[till..len]), at + 2 + |e.body| + (len - till), fixed, Added(es, e))
  {
    var k := ScanStop(es, 0, e.id);
    var j := if Present(es, k, e.id) then k + 1 else k;
    SpanOne([e], 0);
    SizeSplit(es, 0, k, j);
    if j > k { SpanOne(es, k); }
    ReplacedElements(s, len, fixed, es, k, j, [e]);
  }

  lemma StepSizes(es: seq<Elem>, k: nat)
    requires k <= |es|
    ensures k > 0 ==> Size(es, 0, k) == Size(es, 0, k - 1) + 2 + |es[k - 1].body|
    ensures k < |es| ==> Size(es, 0, k + 1) == Size(es, 0, k) + 2 + |es[k].body|
  {
    if k > 0 { AtItem(EncodeOne, es, k - 1); }
    if k < |es| { AtItem(EncodeOne, es, k); }
  }

  lemma BeaconBody(s: seq<Byte>, len: nat, fixed: seq<Byte>, es: seq<Elem>)
    requires Beacon(s, len, fixed, es)
    ensures FIXED_IE_LENGTH <= len && s[FIXED_IE_LENGTH..len] == Encode(es)
  {
    assert s[FIXED_IE_LENGTH..len] == s[..len][FIXED_IE_LENGTH..];
  }

  /** Closing up the octets of element k leaves the octets of the others. */
  lemma DropElement(s: seq<Byte>, len: nat, fixed: seq<Byte>, es: seq<Elem>, k: nat)
    requires Beacon(s, len, fixed, es) && k < |es|
    ensures var at, n := FIXED_IE_LENGTH + Size(es, 0, k), 2 + |es[k].body|;
      at + n <= len && CutOut(s, len, at, n)[..len - n] == (fixed + Span(es, 0, k)) + Span(es, k + 1, |es|)
  {
    BeaconSplit(s, len, fixed, es, k, k + 1);
    SpanOne(es, k);
    Dropped(s, len, fixed + Span(es, 0, k), EncodeOne(es[k]), Span(es, k + 1, |es|));
  }

  lemma Dropped(s: seq<Byte>, len: nat, pre: seq<Byte>, gone: seq<Byte>, post: seq<Byte>)
    requires len <= |s| && s[..len] == pre + gone + post
    ensures CutOut(s, len, |pre|, |gone|)[..len - |gone|] == pre + post
  {
    assert s[|pre| + |gone|..len] == s[..len][|pre| + |gone|..] == post;
    assert s[..|pre|] == s[..len][..|pre|] == pre;
  }

  lemma DropJoin(fixed: seq<Byte>, es: seq<Elem>, k: nat)
    requires Fits(es) && k < |es|
    ensures Fits(es[..k] + es[k + 1..])
    ensures (fixed + Span(es, 0, k)) + Span(es, k + 1, |es|) == fixed + Encode(es[..k] + es[k + 1..])
  {
    AllAppend(EncodeOne, es[..k], es[k + 1..]);
    CatSame(EncodeOne, es[..k], 0, k, es, 0);
    CatSame(EncodeOne, es[k + 1..], 0, |es| - k - 1, es, k + 1);
    Assoc(fixed, Span(es, 0, k), Span(es, k + 1, |es|));
  }

  method TakeOut(ies: array<Byte>, len: nat, ghost fixed: seq<Byte>, ghost es: seq<Elem>, ghost k: nat, at: nat, n: nat)
    returns (newLength: nat)
    requires Beacon(ies[..], len, fixed, es) && k < |es|
    requires at == FIXED_IE_LENGTH + Size(es, 0, k) && n == 2 + |es[k].body|
    modifies ies
    ensures Beacon(ies[..], newLength, fixed, es[..k] + es[k + 1..]) && newLength == len - n
  {
    DropElement(ies[..], len, fixed, es, k);
    DropJoin(fixed, es, k);
    CloseUp(ies, len, at, n);
    newLength := len - n;
  }

  /** rtw_remove_bcn_ie */
  method RemoveBcnIe(ies: array<Byte>, ieLength: nat, ghost fixed: seq<Byte>, ghost es: seq<Elem>, index: Byte)
    returns (newLength: nat)
    requires Beacon(ies[..], ieLength, fixed, es)
    modifies ies
    ensures Beacon(ies[..], newLength, fixed, Removed(es, index))
    ensures var k := FirstMatch(es, 0, index, None);
      if k < |es| && |es[k].body| > 0 then Removed(es, index) == es[..k] + es[k + 1..] && newLength == ieLength - 2 - |es[k].body|
      else Removed(es, index) == es && newLength == ieLength && ies[..] == old(ies[..])
  {
    BeaconBody(ies[..], ieLength, fixed, es);
    var pos, len := GetIe(ies[FIXED_IE_LENGTH..ieLength], es, index);
    newLength := ieLength;
    if pos.Some? && len > 0 {
      newLength := TakeOut(ies, ieLength, fixed, es, FirstMatch(es, 0, index, None), FIXED_IE_LENGTH + pos.value, len + 2);
    }
  }
}
