/** P2P elements: attributes nested inside a vendor specific element, and their removal from a beacon. */
module P2p {
  import opened Bytes
  import opened Options
  import opened Memory
  import opened Items
  import opened Elements
  import opened ElementBuffer
  import opened BeaconElements

  const VENDOR_SPECIFIC_IE: Byte := 221
  const P2P_OUI: seq<Byte> := [0x50, 0x6F, 0x9A, 0x09]

  /** Octets of a P2P element before its attributes. */
  const HEAD := 6

  datatype Attr = Attr(id: Byte, data: seq<Byte>)

  /** Id octet, 16-bit little-endian length, data. */
  function AttrBytes(a: Attr): seq<Byte> {
    [a.id, (|a.data| % 256) as Byte, (|a.data| / 256 % 256) as Byte] + a.data
  }

  /** An attribute on the air: id, length with the low octet first, data. */
  lemma AttrFormat(a: Attr)
    requires |a.data| < 65536
    ensures var s := AttrBytes(a);
      |s| == 3 + |a.data| && s[0] == a.id && s[1] as int + s[2] as int * 256 == |a.data| && s[3..] == a.data
  {
  }

  /** A P2P element on the air: 221, length, the OUI of the Wi-Fi Alliance with type 9, attributes. */
  lemma P2pFormat(attrs: seq<Attr>)
    requires Holdable(attrs)
    ensures var n := |All(AttrBytes, attrs)|; EncodeOne(P2pElem(attrs)) == [221, (4 + n) as Byte, 0x50, 0x6F, 0x9A, 0x09] + All(AttrBytes, attrs)
  {
  }

  function P2pElem(attrs: seq<Attr>): Elem {
    Elem(VENDOR_SPECIFIC_IE, P2P_OUI + All(AttrBytes, attrs))
  }

  /** The attributes fit one element. */
  predicate Holdable(attrs: seq<Attr>) {
    |P2pElem(attrs).body| < 256
  }

  function HasId(id: Byte): Attr -> bool {
    (a: Attr) => a.id == id
  }

  /** The octets of an element in two parts: those before its attributes and those of the attributes. */
  function ElemOctets(body: seq<Byte>): seq<Byte>
    requires |body| + 4 < 256
  {
    [VENDOR_SPECIFIC_IE, (|body| + 4) as Byte] + P2P_OUI + body
  }

  lemma ElemParts(attrs: seq<Attr>)
    requires Holdable(attrs)
    ensures EncodeOne(P2pElem(attrs)) == ElemOctets(All(AttrBytes, attrs))
  {
  }

  // ----- searching -----

  function Read16(s: seq<Byte>, p: nat): nat
    requires p + 2 <= |s|
  {
    s[p + 1] as int * 256 + s[p] as int
  }

  predicate AttrAt(s: seq<Byte>, p: nat, a: Attr) {
    p + 3 + |a.data| <= |s| && s[p] == a.id && Read16(s, p + 1) == |a.data| && s[p + 3..p + 3 + |a.data|] == a.data
  }

  lemma AttrReads(x: seq<Byte>, a: Attr, y: seq<Byte>)
    requires |a.data| < 65536
    ensures AttrAt(x + AttrBytes(a) + y, |x|, a)
  {
    var s, b := x + AttrBytes(a) + y, AttrBytes(a);
    assert s[|x|] == b[0] && s[|x| + 1] == b[1] && s[|x| + 2] == b[2];
    assert s[|x| + 3..|x| + 3 + |a.data|] == b[3..] == a.data;
  }

  function Pos(attrs: seq<Attr>, k: nat): nat
    requires k <= |attrs|
  {
    HEAD + |Cat(AttrBytes, attrs, 0, k)|
  }

  /** What a walk over the attributes of an element meets. */
  ghost predicate AttrsLaid(s: seq<Byte>, attrs: seq<Attr>) {
    && Pos(attrs, |attrs|) == |s|
    && forall k {:trigger attrs[k]} :: 0 <= k < |attrs| ==>
         && AttrAt(s, Pos(attrs, k), attrs[k]) && Pos(attrs, k + 1) == Pos(attrs, k) + 3 + |attrs[k].data| <= |s|
  }

  lemma ElemIsLaid(attrs: seq<Attr>)
    requires Holdable(attrs)
    ensures AttrsLaid(EncodeOne(P2pElem(attrs)), attrs)
  {
    ElemParts(attrs);
    var all := All(AttrBytes, attrs);
    var s, h := ElemOctets(all), [VENDOR_SPECIFIC_IE, (|all| + 4) as Byte] + P2P_OUI;
    forall k | 0 <= k < |attrs|
      ensures AttrAt(s, Pos(attrs, k), attrs[k]) && Pos(attrs, k + 1) == Pos(attrs, k) + 3 + |attrs[k].data| <= |s|
    {
      AtItem(AttrBytes, attrs, k);
      var x, y, z := Cat(AttrBytes, attrs, 0, k), AttrBytes(attrs[k]), Cat(AttrBytes, attrs, k + 1, |attrs|);
      Regroup(h, x, y, z);
      AttrReads(h + x, attrs[k], z);
    }
  }

  lemma Regroup(a: seq<Byte>, x: seq<Byte>, y: seq<Byte>, z: seq<Byte>)
    ensures a + (x + y + z) == (a + x) + y + z
  {
  }

  /** rtw_get_p2p_attr on the octets of an element; `attrs` are its attributes if it is a P2P element. */
  method GetP2pAttr(s: seq<Byte>, ghost attrs: seq<Attr>, target: Byte) returns (pos: Option<nat>, len: nat)
    requires HEAD <= |s| <= 257
    requires s[0] == VENDOR_SPECIFIC_IE && s[2..6] == P2P_OUI ==> AttrsLaid(s, attrs)
    ensures var k := First(HasId(target), attrs, 0);
      if s[0] == VENDOR_SPECIFIC_IE && s[2..6] == P2P_OUI && k < |attrs|
      then pos == Some(Pos(attrs, k)) && len == 3 + |attrs[k].data|
      else pos == None && len == 0
  {
    pos, len := None, 0;
    if s[0] != VENDOR_SPECIFIC_IE || s[2..6] != P2P_OUI {
      return;
    }
    ghost var k := 0;
    var cur := HEAD;
    while cur < |s|
      invariant k <= |attrs| && cur == Pos(attrs, k) && pos == None && len == 0
      invariant First(HasId(target), attrs, 0) == First(HasId(target), attrs, k)
      decreases |attrs| - k
    {
      assert AttrAt(s, cur, attrs[k]);
      var attrLen := Read16(s, cur + 1) + 3;
      if s[cur] == target {
        return Some(cur), attrLen;
      }
      cur := cur + attrLen;
      k := k + 1;
    }
  }

  // ----- removing -----

  /** The copying in the loop of rtw_p2p_attr_remove: n octets go and `remain` octets close up. */
  method CloseGap(buf: array<Byte>, at: nat, n: nat, remain: nat)
    requires at + n + remain <= buf.Length
    modifies buf
    ensures forall i :: 0 <= i < at ==> buf[i] == old(buf[i])
    ensures forall i :: at <= i < at + remain ==> buf[i] == old(buf[i + n])
    ensures forall i :: at + remain <= i < at + remain + n ==> buf[i] == 0
    ensures forall i :: at + remain + n <= i < buf.Length ==> buf[i] == old(buf[i])
  {
    forall i | at <= i < at + n {
      buf[i] := 0;
    }
    forall i | at <= i < at + remain {
      buf[i] := buf[i + n];
    }
    forall i | at + remain <= i < at + remain + n {
      buf[i] := 0;
    }
  }

  /** One attribute out of the element that starts at `p`; the octets of the element are h + x + y + z. */
  method CutAttr(buf: array<Byte>, p: nat, at: nat, n: nat, remain: nat,
                 ghost a: seq<Byte>, ghost x: seq<Byte>, ghost y: seq<Byte>, ghost z: seq<Byte>, ghost w: seq<Byte>)
    requires |x + y + z| + 4 < 256 && buf[..] == a + ElemOctets(x + y + z) + w
    requires p == |a| && at == p + HEAD + |x| && n == |y| && remain == |z|
    modifies buf
    ensures buf[..] == a + ElemOctets(x + z) + (Zeros(n) + w)
  {
    ghost var s, r := buf[..], a + ElemOctets(x + z) + (Zeros(n) + w);
    CloseGap(buf, at, n, remain);
    assert buf[p + 1] == s[p + 1];
    buf[p + 1] := ((buf[p + 1] as int - n) % 256) as Byte;
    forall i | 0 <= i < |r|
      ensures buf[i] == r[i]
    {
      if at <= i < at + remain {
        assert buf[i] == s[i + n];
      } else if i < at || at + remain + n <= i {
        assert i != p + 1 ==> buf[i] == s[i];
      }
    }
  }

  /** The octets of the attributes before, at and behind attribute k. */
  lemma AttrsAround(attrs: seq<Attr>, k: nat)
    requires k < |attrs|
    ensures var x, y, z := All(AttrBytes, attrs[..k]), AttrBytes(attrs[k]), All(AttrBytes, attrs[k + 1..]);
      && All(AttrBytes, attrs) == x + y + z && All(AttrBytes, attrs[..k] + attrs[k + 1..]) == x + z
      && Pos(attrs, k) == HEAD + |x| && |y| == 3 + |attrs[k].data|
  {
    assert attrs == attrs[..k] + [attrs[k]] + attrs[k + 1..];
    AllAround(AttrBytes, attrs[..k], attrs[k], attrs[k + 1..]);
    AllAppend(AttrBytes, attrs[..k], attrs[k + 1..]);
    CatFront(AttrBytes, attrs, k);
  }

  lemma OneLess(id: Byte, attrs: seq<Attr>, k: nat)
    requires k < |attrs| && attrs[k].id == id
    ensures Without(HasId(id), attrs[..k] + attrs[k + 1..]) == Without(HasId(id), attrs)
  {
    assert attrs == attrs[..k] + [attrs[k]] + attrs[k + 1..];
    WithoutOneLess(HasId(id), attrs[..k], attrs[k], attrs[k + 1..]);
  }

  /** The element of `attrs` at |a|, with w behind it. */
  ghost predicate Around(s: seq<Byte>, a: seq<Byte>, attrs: seq<Attr>, w: seq<Byte>) {
    (Holdable(attrs) && s == a + ElemOctets(All(AttrBytes, attrs)) + w) == true
  }

  /** One round of the loop of rtw_p2p_attr_remove. */
  method RemoveNextAttr(buf: array<Byte>, p: nat, ielen: nat, id: Byte, ghost attrs: seq<Attr>, ghost a: seq<Byte>, ghost w: seq<Byte>)
    returns (n: nat, ghost rest: seq<Attr>)
    requires Around(buf[..], a, attrs, w) && p == |a| && ielen == HEAD + |All(AttrBytes, attrs)|
    modifies buf
    ensures Without(HasId(id), rest) == Without(HasId(id), attrs)
    ensures n == 0 ==> buf[..] == old(buf[..]) && Without(HasId(id), attrs) == attrs == rest
    ensures n > 0 ==> Around(buf[..], a, rest, Zeros(n) + w) && ielen == n + HEAD + |All(AttrBytes, rest)| && |rest| < |attrs|
  {
    ghost var k := First(HasId(id), attrs, 0);
    FirstIsFirst(HasId(id), attrs, 0);
    ElemParts(attrs);
    ElemIsLaid(attrs);
    assert buf[p..p + ielen] == ElemOctets(All(AttrBytes, attrs));
    var target, len := GetP2pAttr(buf[p..p + ielen], attrs, id);
    if target.None? {
      WithoutNone(HasId(id), attrs);
      return 0, attrs;
    }
    n, rest := len, attrs[..k] + attrs[k + 1..];
    AttrsAround(attrs, k);
    OneLess(id, attrs, k);
    CutAttr(buf, p, p + target.value, n, ielen - target.value - n,
            a, All(AttrBytes, attrs[..k]), AttrBytes(attrs[k]), All(AttrBytes, attrs[k + 1..]), w);
  }

  lemma MoreZeros(n: nat, m: nat, w: seq<Byte>)
    ensures Zeros(n) + (Zeros(m) + w) == Zeros(n + m) + w
  {
  }

  /** rtw_p2p_attr_remove; the element starts at `p`. */
  method P2pAttrRemove(buf: array<Byte>, p: nat, ielenOri: nat, id: Byte, ghost attrs: seq<Attr>, ghost a: seq<Byte>, ghost w: seq<Byte>)
    returns (ielen: nat)
    requires Around(buf[..], a, attrs, w) && p == |a| && ielenOri == HEAD + |All(AttrBytes, attrs)|
    modifies buf
    ensures ielen <= ielenOri && ielen == HEAD + |All(AttrBytes, Without(HasId(id), attrs))|
    ensures Around(buf[..], a, Without(HasId(id), attrs), Zeros(ielenOri - ielen) + w)
  {
    ielen := ielenOri;
    ghost var rest, behind := attrs, Zeros(0) + w;
    assert behind == w;
    while true
      invariant ielen <= ielenOri && ielen == HEAD + |All(AttrBytes, rest)| && behind == Zeros(ielenOri - ielen) + w
      invariant Around(buf[..], a, rest, behind)
      invariant Without(HasId(id), rest) == Without(HasId(id), attrs)
      decreases |rest|
    {
      var n;
      n, rest := RemoveNextAttr(buf, p, ielen, id, rest, a, behind);
      if n == 0 {
        break;
      }
      MoreZeros(n, ielenOri - ielen, w);
      ielen, behind := ielen - n, Zeros(n) + behind;
    }
  }

  // ----- in the elements of a BSS -----

  /** rtw_get_p2p_ie; the octets are those of `es` unless the length is negative. */
  method GetP2pIe(s: seq<Byte>, inLen: int, ghost es: seq<Elem>) returns (pos: Option<nat>, ielen: nat)
    requires inLen >= 0 ==> inLen == |s| && Fits(es) && s == Encode(es) && LongEnough(es, VENDOR_SPECIFIC_IE, Some(P2P_OUI))
    ensures var k := FirstMatch(es, 0, VENDOR_SPECIFIC_IE, Some(P2P_OUI));
      if inLen >= 0 && k < |es| && Size(es, 0, k) <= MAX_IE_SZ
      then pos == Some(Size(es, 0, k)) && ielen == 2 + |es[k].body| else pos == None && ielen == 0
  {
    pos, ielen := None, 0;
    ghost var k := 0;
    var cnt := 0;
    while inLen < 0 || cnt < inLen
      invariant pos == None && ielen == 0
      invariant inLen >= 0 ==> k <= |es| && cnt == Size(es, 0, k) && (k < |es| ==> cnt < inLen)
      invariant inLen >= 0 ==> FirstMatch(es, 0, VENDOR_SPECIFIC_IE, Some(P2P_OUI)) == FirstMatch(es, k, VENDOR_SPECIFIC_IE, Some(P2P_OUI))
      decreases |es| - k
    {
      if inLen < 0 {
        return;
      }
      if cnt > MAX_IE_SZ {
        SizeSplit(es, 0, k, FirstMatch(es, k, VENDOR_SPECIFIC_IE, Some(P2P_OUI)));
        return;
      }
      ReadAt(es, 0, k);
      if s[cnt] == VENDOR_SPECIFIC_IE { SliceFront(s, cnt + 2, |es[k].body|, 4); }
      if s[cnt] == VENDOR_SPECIFIC_IE && s[cnt + 2..cnt + 6] == P2P_OUI {
        return Some(cnt), s[cnt + 1] as int + 2;
      }
      cnt := cnt + s[cnt + 1] as int + 2;
      k := k + 1;
      if k < |es| { ReadAt(es, 0, k); }
    }
  }

  /** The elements behind the P2P element close up by `gap` octets. */
  method ShiftDown(buf: array<Byte>, next: nat, gap: nat, remain: nat, ghost a: seq<Byte>, ghost post: seq<Byte>, ghost tail: seq<Byte>)
    requires buf[..] == a + (Zeros(gap) + (post + tail)) && next == |a| && remain == |post|
    modifies buf
    ensures buf[..] == a + post + (Zeros(gap) + tail)
  {
    ghost var s, r := buf[..], a + post + (Zeros(gap) + tail);
    forall i | next <= i < next + remain {
      buf[i] := buf[i + gap];
    }
    forall i | next + remain <= i < next + remain + gap {
      buf[i] := 0;
    }
    forall i | 0 <= i < |r|
      ensures buf[i] == r[i]
    {
      if next <= i < next + remain {
        assert buf[i] == s[i + gap];
      } else if i < next || next + remain + gap <= i {
        assert buf[i] == s[i];
      }
    }
  }

  /** How many octets the attributes with the id among the first n take. */
  function OctetsWithId(attrs: seq<Attr>, n: nat, id: Byte): nat
    requires n <= |attrs|
  {
    if n == 0 then 0 else OctetsWithId(attrs, n - 1, id) + if attrs[n - 1].id == id then 3 + |attrs[n - 1].data| else 0
  }

  lemma {:induction false} RemovedOctets(attrs: seq<Attr>, n: nat, id: Byte)
    requires n <= |attrs|
    ensures |All(AttrBytes, WithoutIn(HasId(id), attrs, n))| + OctetsWithId(attrs, n, id) == |Cat(AttrBytes, attrs, 0, n)|
  {
    if n > 0 {
      RemovedOctets(attrs, n - 1, id);
      AtItem(AttrBytes, attrs, n - 1);
      if attrs[n - 1].id != id {
        AllAppend(AttrBytes, WithoutIn(HasId(id), attrs, n - 1), [attrs[n - 1]]);
        AllOne(AttrBytes, attrs[n - 1]);
      }
    }
  }

  /** Nothing with the id is left, every other attribute is, and a second removal finds nothing to do. */
  lemma RemovalIsComplete(attrs: seq<Attr>, id: Byte)
    ensures var left := Without(HasId(id), attrs);
      && First(HasId(id), left, 0) == |left|
      && Without(HasId(id), left) == left
      && forall a :: a in left <==> a in attrs && a.id != id
  {
    var left := Without(HasId(id), attrs);
    forall a
      ensures a in left <==> a in attrs && a.id != id
    {
      WithoutHolds(HasId(id), attrs, a);
    }
    FirstIsFirst(HasId(id), left, 0);
    forall k | 0 <= k < |left|
      ensures !HasId(id)(left[k])
    {
      assert left[k] in left;
    }
    WithoutNone(HasId(id), left);
  }

  /** The part of rtw_WLAN_BSSID_EX_remove_p2p_attr behind the search. */
  method RemoveFrom(ies: array<Byte>, ieLength: nat, p: nat, ielenOri: nat, id: Byte, ghost attrs: seq<Attr>, ghost a: seq<Byte>, ghost post: seq<Byte>, ghost tail: seq<Byte>)
    returns (newLength: nat)
    requires Around(ies[..], a, attrs, post + tail) && p == |a| && ielenOri == HEAD + |All(AttrBytes, attrs)|
    requires ieLength == p + ielenOri + |post|
    modifies ies
    ensures newLength <= ieLength && Holdable(Without(HasId(id), attrs))
    ensures newLength == p + |ElemOctets(All(AttrBytes, Without(HasId(id), attrs)))| + |post|
    ensures ies[..] == a + ElemOctets(All(AttrBytes, Without(HasId(id), attrs))) + post + (Zeros(ieLength - newLength) + tail)
  {
    var ielen := P2pAttrRemove(ies, p, ielenOri, id, attrs, a, post + tail);
    newLength := ieLength;
    ghost var front := a + ElemOctets(All(AttrBytes, Without(HasId(id), attrs)));
    if ielen != ielenOri {
      ShiftDown(ies, p + ielen, ielenOri - ielen, ieLength - (p + ielenOri), front, post, tail);
      newLength := newLength - (ielenOri - ielen);
    } else {
      assert Zeros(0) + (post + tail) == post + (Zeros(0) + tail);
      Assoc(front, post, Zeros(0) + tail);
    }
  }

  /** `RemoveFrom` on the elements of a BSS; element k is the P2P element found. */
  method RemoveAt(ies: array<Byte>, ieLength: nat, p: nat, ielen: nat, id: Byte, ghost fixed: seq<Byte>, ghost es: seq<Elem>, ghost k: nat, ghost attrs: seq<Attr>)
    returns (newLength: nat)
    requires Beacon(ies[..], ieLength, fixed, es) && k < |es| && es[k] == P2pElem(attrs)
    requires p == FIXED_IE_LENGTH + Size(es, 0, k) && ielen == 2 + |es[k].body|
    modifies ies
    ensures newLength == ieLength - OctetsWithId(attrs, |attrs|, id)
    ensures Beacon(ies[..], newLength, fixed, es[k := P2pElem(Without(HasId(id), attrs))])
    ensures ies[newLength..] == Zeros(ieLength - newLength) + old(ies[ieLength..])
  {
    ghost var a, post, tail := fixed + Span(es, 0, k), Span(es, k + 1, |es|), ies[ieLength..];
    ElemsAround(ies[..], ieLength, fixed, es, k);
    ElemParts(attrs);
    newLength := RemoveFrom(ies, ieLength, p, ielen, id, attrs, a, post, tail);
    RemovedOctets(attrs, |attrs|, id);
    ElemParts(Without(HasId(id), attrs));
    ElemReplaced(ies[..], fixed, es, k, P2pElem(Without(HasId(id), attrs)), Zeros(ieLength - newLength) + tail);
  }

  /** rtw_WLAN_BSSID_EX_remove_p2p_attr */
  method RemoveP2pAttr(ies: array<Byte>, ieLength: nat, id: Byte, ghost fixed: seq<Byte>, ghost es: seq<Elem>, ghost attrs: seq<Attr>)
    returns (newLength: nat)
    requires ieLength <= ies.Length <= MAX_IE_SZ
    requires ieLength >= FIXED_IE_LENGTH ==> Beacon(ies[..], ieLength, fixed, es) && LongEnough(es, VENDOR_SPECIFIC_IE, Some(P2P_OUI))
    requires var k := FirstMatch(es, 0, VENDOR_SPECIFIC_IE, Some(P2P_OUI)); k < |es| ==> es[k] == P2pElem(attrs)
    modifies ies
    ensures newLength <= ieLength
    ensures ieLength < FIXED_IE_LENGTH ==> newLength == ieLength && ies[..] == old(ies[..])
    ensures ieLength >= FIXED_IE_LENGTH ==>
      var k := FirstMatch(es, 0, VENDOR_SPECIFIC_IE, Some(P2P_OUI));
      && (k == |es| ==> newLength == ieLength && ies[..] == old(ies[..]))
      && (k < |es| ==> newLength == ieLength - OctetsWithId(attrs, |attrs|, id))
      && (k < |es| ==> Beacon(ies[..], newLength, fixed, es[k := Elem(VENDOR_SPECIFIC_IE, P2P_OUI + All(AttrBytes, Without(HasId(id), attrs)))]))
    ensures ies[newLength..] == Zeros(ieLength - newLength) + old(ies[ieLength..])
  {
    var from := if ieLength < FIXED_IE_LENGTH then ieLength else FIXED_IE_LENGTH;
    if from == FIXED_IE_LENGTH { BeaconBody(ies[..], ieLength, fixed, es); }
    var pos, ielen := GetP2pIe(ies[from..ieLength], ieLength - FIXED_IE_LENGTH, es);
    newLength := ieLength;
    SizeSplit(es, 0, FirstMatch(es, 0, VENDOR_SPECIFIC_IE, Some(P2P_OUI)), |es|);
    if pos.Some? {
      ghost var k := FirstMatch(es, 0, VENDOR_SPECIFIC_IE, Some(P2P_OUI));
      newLength := RemoveAt(ies, ieLength, FIXED_IE_LENGTH + pos.value, ielen, id, fixed, es, k, attrs);
    }
  }
}
