/**
  Relay tags of PPPoE discovery frames (appendix A of RFC 2516): the driver writes the client's
  MAC address into a Relay-Session-Id tag on the way out and restores it on the way back.
 */
module Pppoe {
  import opened Bytes
  import opened Memory
  import opened Options
  import opened Items

  const PTT_RELAY_SID := 0x0110
  const MAGIC: seq<Byte> := [0x81, 0x86]
  const TAG_HDR_LEN := 4
  const MAGIC_CODE_LEN := 2
  const RTL_RELAY_TAG_LEN := ETH_ALEN
  const TAG_BUF := 40
  const PADI_CODE: Byte := 0x09
  const PADO_CODE: Byte := 0x07
  const PADR_CODE: Byte := 0x19
  const PADS_CODE: Byte := 0x65

  /** Octets before the tags: Ethernet header, PPPoE version, code and session, length. */
  const LENGTH_AT := 18
  const TAGS_AT := 20

  // ----- frames as values -----

  datatype Tag = Tag(kind: nat, data: seq<Byte>)

  /** `head` is the protocol, the version and type, the code and the session id: six octets. */
  datatype Frame = Frame(dst: Mac, src: Mac, head: seq<Byte>, tags: seq<Tag>)

  /** htons, truncating to 16 bits */
  function Be16(n: nat): seq<Byte> {
    [(n / 256 % 256) as Byte, (n % 256) as Byte]
  }

  function TagBytes(t: Tag): seq<Byte> {
    Be16(t.kind) + Be16(|t.data|) + t.data
  }

  predicate Legal(t: Tag) {
    t.kind < 65536 && |t.data| < 65536
  }

  predicate WellFormed(f: Frame) {
    && |f.head| == 6 && (forall k :: 0 <= k < |f.tags| ==> Legal(f.tags[k]))
    && |All(TagBytes, f.tags)| < 65536
  }

  function Start(f: Frame): seq<Byte> {
    f.dst + f.src + f.head
  }

  function Octets(start: seq<Byte>, body: seq<Byte>): seq<Byte> {
    start + Be16(|body|) + body
  }

  function FrameBytes(f: Frame): seq<Byte> {
    Octets(Start(f), All(TagBytes, f.tags))
  }

  function IsRelay(t: Tag): bool {
    t.kind == PTT_RELAY_SID
  }

  // ----- what happens to a frame -----

  /** The value of the first relay tag, or nothing. */
  function OldValue(f: Frame): seq<Byte> {
    var k := First(IsRelay, f.tags, 0);
    if k < |f.tags| then f.tags[k].data else []
  }

  function WithoutFirstRelay(f: Frame): Frame {
    var k := First(IsRelay, f.tags, 0);
    if k < |f.tags| then f.(tags := f.tags[..k] + f.tags[k + 1..]) else f
  }

  function RelayTag(client: Mac, value: seq<Byte>): Tag {
    Tag(PTT_RELAY_SID, MAGIC + client + value)
  }

  /** Outbound: the old relay value moves behind the client's address in a new first tag. */
  function Inserted(f: Frame): Frame {
    var g := WithoutFirstRelay(f);
    g.(tags := [RelayTag(f.src, OldValue(f))] + g.tags)
  }

  /** The old value fits the scratch buffer. */
  predicate Insertable(f: Frame) {
    |OldValue(f)| + TAG_HDR_LEN + MAGIC_CODE_LEN + RTL_RELAY_TAG_LEN <= TAG_BUF
  }

  /** Inbound: the first relay tag names the client and is cut down to the value behind the address. */
  function LookedUp(f: Frame): Option<Frame> {
    var k := First(IsRelay, f.tags, 0);
    if k == |f.tags| then None
    else
      var d := f.tags[k].data;
      if |d| < 8 || d[..2] != MAGIC then None
      else
        var kept := if |d| == 8 then [] else [Tag(PTT_RELAY_SID, d[8..])];
        Some(f.(dst := d[2..8], tags := f.tags[..k] + kept + f.tags[k + 1..]))
  }

  /** The tags of a request around its first relay tag, `own`, if it has one. */
  ghost predicate Around(tags: seq<Tag>, a: seq<Tag>, own: seq<Tag>, b: seq<Tag>) {
    && tags == a + own + b && (forall k :: 0 <= k < |a| ==> a[k].kind != 0x0110)
    && if own == [] then forall k :: 0 <= k < |b| ==> b[k].kind != 0x0110 else |own| == 1 && own[0].kind == 0x0110
  }

  lemma OwnTag(f: Frame, a: seq<Tag>, own: seq<Tag>, b: seq<Tag>)
    requires Around(f.tags, a, own, b)
    ensures OldValue(f) == (if own == [] then [] else own[0].data) && WithoutFirstRelay(f).tags == a + b
    ensures Insertable(f) <==> own == [] || |own[0].data| <= 28
  {
    FirstIsFirst(IsRelay, f.tags, 0);
    if own == [] {
      assert forall k :: 0 <= k < |f.tags| ==> !IsRelay(f.tags[k]);
      assert a + own + b == a + b;
    } else {
      assert f.tags[|a|] == own[0];
      FirstFrom(IsRelay, f.tags, 0, |a|);
      assert f.tags[..|a|] == a && f.tags[|a| + 1..] == b;
    }
  }

  /** What goes out: magic code, client address and the client's own value in one tag before the client's other tags. What
      comes back, in a response that returns that tag at any position, reaches the client as if its own tag had been
      returned, or none if it had no value. */
  lemma RelayRoundTrip(f: Frame, a: seq<Tag>, own: seq<Tag>, b: seq<Tag>, response: Frame, pre: seq<Tag>, post: seq<Tag>)
    requires Around(f.tags, a, own, b)
    requires response.tags == pre + [Inserted(f).tags[0]] + post
    requires forall k :: 0 <= k < |pre| ==> pre[k].kind != 0x0110
    ensures Inserted(f).tags == [Tag(0x0110, [0x81, 0x86] + f.src + if own == [] then [] else own[0].data)] + (a + b)
    ensures Inserted(f).src == f.src && Inserted(f).dst == f.dst && Inserted(f).head == f.head
    ensures LookedUp(response) == Some(response.(dst := f.src, tags := pre + (if own == [] || own[0].data == [] then [] else own) + post))
  {
    OwnTag(f, a, own, b);
    var r := Inserted(f).tags[0];
    assert response.tags[|pre|] == r;
    FirstFrom(IsRelay, response.tags, 0, |pre|);
    assert r.data[..2] == MAGIC && r.data[2..8] == f.src && r.data[8..] == OldValue(f);
    assert response.tags[..|pre|] == pre && response.tags[|pre| + 1..] == post;
    if own != [] {
      assert own == [Tag(0x0110, own[0].data)];
    }
  }

  /** Every request has such parts. */
  lemma SomeAround(f: Frame) returns (a: seq<Tag>, own: seq<Tag>, b: seq<Tag>)
    ensures Around(f.tags, a, own, b)
  {
    var k := First(IsRelay, f.tags, 0);
    FirstIsFirst(IsRelay, f.tags, 0);
    a := f.tags[..k];
    if k < |f.tags| {
      own, b := [f.tags[k]], f.tags[k + 1..];
    } else {
      own, b := [], [];
    }
  }

  /** A response without a relay tag is refused. */
  lemma NoRelayRefused(response: Frame)
    requires forall k :: 0 <= k < |response.tags| ==> response.tags[k].kind != 0x0110
    ensures LookedUp(response) == None
  {
    FirstIsFirst(IsRelay, response.tags, 0);
  }

  // ----- formats -----

  /** A tag on the wire: type and length, high octet first, then the data. */
  lemma TagFormat(t: Tag)
    requires Legal(t)
    ensures var s := TagBytes(t);
      |s| == 4 + |t.data| && s[0] as int * 256 + s[1] as int == t.kind && s[2] as int * 256 + s[3] as int == |t.data| && s[4..] == t.data
  {
  }

  /** A frame on the wire: destination, source, protocol, version, code, session, length of the tags, tags. */
  lemma FrameFormat(f: Frame)
    requires WellFormed(f)
    ensures var s, n := FrameBytes(f), |All(TagBytes, f.tags)|;
      && |s| == 20 + n && s[..6] == f.dst && s[6..12] == f.src && s[12..18] == f.head
      && s[18] as int * 256 + s[19] as int == n && s[20..] == All(TagBytes, f.tags)
  {
    var n := |All(TagBytes, f.tags)|;
    assert FrameBytes(f) == f.dst + (f.src + (f.head + (Be16(n) + All(TagBytes, f.tags))));
  }

  /** A response with another relay tag in front of the inserted one is decided by that other tag: it is refused if
      the tag does not carry the magic code, and otherwise goes to whatever address the tag holds. */
  lemma OtherRelayFirst(response: Frame, pre: seq<Tag>, other: Tag, rest: seq<Tag>)
    requires response.tags == pre + [other] + rest && IsRelay(other)
    requires forall k :: 0 <= k < |pre| ==> !IsRelay(pre[k])
    ensures var d := other.data;
      LookedUp(response) ==
        if |d| < 8 || d[..2] != MAGIC then None
        else Some(response.(dst := d[2..8], tags := pre + (if |d| == 8 then [] else [Tag(PTT_RELAY_SID, d[8..])]) + rest))
  {
    assert response.tags[|pre|] == other;
    FirstFrom(IsRelay, response.tags, 0, |pre|);
    assert response.tags[..|pre|] == pre && response.tags[|pre| + 1..] == rest;
  }

  // ----- reading tags off the octets -----

  function Read16(s: seq<Byte>, p: nat): nat
    requires p + 2 <= |s|
  {
    s[p] as int * 256 + s[p + 1] as int
  }

  lemma ReadBack(n: nat)
    requires n < 65536
    ensures Read16(Be16(n), 0) == n
  {
  }

  /** The octets at p are those of a tag. */
  predicate TagAt(s: seq<Byte>, p: nat, t: Tag) {
    && p + 4 + |t.data| <= |s|
    && Read16(s, p) == t.kind && Read16(s, p + 2) == |t.data| && s[p + 4..p + 4 + |t.data|] == t.data
  }

  lemma TagReads(a: seq<Byte>, t: Tag, c: seq<Byte>)
    requires Legal(t)
    ensures TagAt(a + TagBytes(t) + c, |a|, t)
  {
    ReadBack(t.kind);
    ReadBack(|t.data|);
    var s, b := a + TagBytes(t) + c, TagBytes(t);
    assert s[|a|] == b[0] && s[|a| + 1] == b[1] && s[|a| + 2] == b[2] && s[|a| + 3] == b[3];
    assert s[|a| + 4..|a| + 4 + |t.data|] == b[4..] == t.data;
  }

  /** Tag k of a frame, wherever in the buffer the tags start. */
  lemma TagInBody(a: seq<Byte>, tags: seq<Tag>, k: nat, c: seq<Byte>)
    requires k < |tags| && Legal(tags[k])
    ensures TagAt(a + All(TagBytes, tags) + c, |a| + |Cat(TagBytes, tags, 0, k)|, tags[k])
    ensures |Cat(TagBytes, tags, 0, k + 1)| == |Cat(TagBytes, tags, 0, k)| + 4 + |tags[k].data|
  {
    AtItem(TagBytes, tags, k);
    var x, y, z := Cat(TagBytes, tags, 0, k), TagBytes(tags[k]), Cat(TagBytes, tags, k + 1, |tags|);
    TagReads(a + x, tags[k], z + c);
    Regroup(a, x, y, z, c);
  }

  lemma Regroup(a: seq<Byte>, x: seq<Byte>, y: seq<Byte>, z: seq<Byte>, c: seq<Byte>)
    ensures a + (x + y + z) + c == (a + x) + y + (z + c)
  {
  }

  /** What the driver adds to make room for a tag: line 110 takes the length in the host's own order. */
  function HostReading(bigEndian: bool, s: seq<Byte>, p: nat): nat
    requires p + 2 <= |s|
  {
    if bigEndian then Read16(s, p) else s[p + 1] as int * 256 + s[p] as int
  }

  /** The room is right exactly where the host's order is the network's, or the two octets are equal. */
  lemma HostReadingRight(bigEndian: bool, n: nat)
    requires n < 65536
    ensures HostReading(bigEndian, Be16(n), 0) == n <==> bigEndian || n % 257 == 0
  {
    ReadBack(n);
    var h, l := n / 256, n % 256;
    assert n == 257 * h + (l - h);
    if h == l {
      assert n % 257 == 0;
    } else {
      assert n % 257 == (if l > h then l - h else 257 + l - h);
    }
  }

  // ----- octets taken out of and put into the tags of a frame -----

  lemma MiddleOut(h: seq<Byte>, a: seq<Byte>, b: seq<Byte>, c: seq<Byte>, trailer: seq<Byte>, s: seq<Byte>)
    requires s == h + (a + b + c) + trailer
    ensures s[..|h| + |a|] + s[|h| + |a| + |b|..] == h + (a + c + trailer)
  {
  }

  lemma HeadAgain(start: seq<Byte>, n: seq<Byte>, m: seq<Byte>, rest: seq<Byte>)
    requires |m| == |n|
    ensures Splice(start + n + rest, |start|, m) == start + m + rest
  {
  }

  lemma BodyShrinks(start: seq<Byte>, a: seq<Byte>, b: seq<Byte>, c: seq<Byte>, trailer: seq<Byte>, s: seq<Byte>)
    requires |start| == LENGTH_AT && s == Octets(start, a + b + c) + trailer
    ensures |s| >= TAGS_AT + |a + b + c|
    ensures var cut := s[..TAGS_AT + |a|] + s[TAGS_AT + |a| + |b|..];
      Splice(cut, LENGTH_AT, Be16(|a + c|)) == Octets(start, a + c) + trailer
  {
    MiddleOut(start + Be16(|a + b + c|), a, b, c, trailer, s);
    HeadAgain(start, Be16(|a + b + c|), Be16(|a + c|), a + c + trailer);
  }

  lemma PutInFront(s: seq<Byte>, start: seq<Byte>, m: seq<Byte>, tag: seq<Byte>, body: seq<Byte>)
    requires |m| == 2 && |start| + 2 + |tag| + |body| <= |s| && start <= s
    requires s[|start| + 2 + |tag|..|start| + 2 + |tag| + |body|] == body
    ensures start + m + (tag + body) <= Splice(Splice(s, |start|, m), |start| + 2, tag)
  {
    var r, h := Splice(Splice(s, |start|, m), |start| + 2, tag), |start| + 2 + |tag|;
    forall i | 0 <= i < |body|
      ensures r[h + i] == body[i]
    {
      assert r[h + i] == s[h + i] == s[h..h + |body|][i];
    }
  }

  lemma BodyGrows(start: seq<Byte>, body: seq<Byte>, tag: seq<Byte>, s: seq<Byte>)
    requires |start| == LENGTH_AT && |Octets(start, body)| + |tag| <= |s|
    requires Octets(start, body) <= s
    ensures s[TAGS_AT..TAGS_AT + |body|] == body
    ensures var moved := Splice(s, TAGS_AT + |tag|, body);
      Octets(start, tag + body) <= Splice(Splice(moved, LENGTH_AT, Be16(|body| + |tag|)), TAGS_AT, tag)
  {
    var m := Be16(|body| + |tag|);
    assert s[..TAGS_AT + |body|] == start + Be16(|body|) + body;
    var moved := Splice(s, TAGS_AT + |tag|, body);
    assert moved[..LENGTH_AT] == start;
    PutInFront(moved, start, m, tag, body);
  }

  lemma LengthReads(start: seq<Byte>, body: seq<Byte>, s: seq<Byte>)
    requires |start| == LENGTH_AT && Octets(start, body) <= s && |body| < 65536
    ensures Read16(s, LENGTH_AT) == |body|
  {
    ReadBack(|body|);
    var o := Octets(start, body);
    assert s[LENGTH_AT] == o[LENGTH_AT] && s[LENGTH_AT + 1] == o[LENGTH_AT + 1];
  }

  lemma Pulled(s: seq<Byte>, len: nat, src: nat, n: nat)
    requires src + n <= len <= |s|
    ensures Splice(s, src, s[src + n..len])[..len - n] == s[..len][..src] + s[..len][src + n..]
    ensures src + n == len ==> s[..len - n] == s[..len][..src] + s[..len][src + n..]
  {
  }

  lemma SpliceInFront(s: seq<Byte>, len: nat, at: nat, t: seq<Byte>)
    requires at + |t| <= len <= |s|
    ensures Splice(s, at, t)[..len] == Splice(s[..len], at, t)
  {
  }

  /** A socket buffer; the frame is the first `len` octets and the rest is tailroom. */
  class Skb {
    const buf: array<Byte>
    var len: nat

    constructor (buf: array<Byte>, len: nat)
      requires len <= buf.Length
      ensures this.buf == buf && this.len == len
    {
      this.buf, this.len := buf, len;
    }

    ghost predicate Valid()
      reads this
    {
      len <= buf.Length
    }

    ghost function Data(): seq<Byte>
      requires Valid()
      reads this, buf
    {
      buf[..len]
    }

    /** skb_pull_and_merge */
    method PullAndMerge(src: nat, n: nat) returns (ok: bool)
      requires Valid()
      modifies this, buf
      ensures Valid() && (ok <==> src + n <= old(len))
      ensures !ok ==> Data() == old(Data())
      ensures ok ==> Data() == old(Data())[..src] + old(Data())[src + n..]
    {
      if src + n > len || len < n {
        return false;
      }
      Pulled(buf[..], len, src, n);
      var tail := len - (src + n);
      if tail > 0 {
        Move(buf, src, src + n, tail);
      }
      len := len - n;
      return true;
    }

    method ReadLength(ghost start: seq<Byte>, ghost body: seq<Byte>) returns (n: nat)
      requires |start| == LENGTH_AT && |body| < 65536 && Octets(start, body) <= buf[..]
      ensures n == |body|
    {
      LengthReads(start, body, buf[..]);
      n := buf[LENGTH_AT] as int * 256 + buf[LENGTH_AT + 1] as int;
    }

    method WriteLength(n: nat)
      requires Valid() && TAGS_AT <= len
      modifies buf
      ensures Data() == Splice(old(Data()), LENGTH_AT, Be16(n))
    {
      SpliceInFront(buf[..], len, LENGTH_AT, Be16(n));
      Store(buf, LENGTH_AT, Be16(n));
    }

    /** Pulling octets out of the tags and correcting the length field. */
    method PullFromTags(src: nat, n: nat, ghost start: seq<Byte>, ghost a: seq<Byte>, ghost b: seq<Byte>, ghost c: seq<Byte>, ghost trailer: seq<Byte>)
      returns (ok: bool)
      requires Valid() && |start| == LENGTH_AT && Data() == Octets(start, a + b + c) + trailer && |a + b + c| < 65536
      requires src == TAGS_AT + |a| && n == |b|
      modifies this, buf
      ensures ok && Valid() && Data() == Octets(start, a + c) + trailer
    {
      var length := ReadLength(start, a + b + c);
      ghost var s := Data();
      BodyShrinks(start, a, b, c, trailer, s);
      ok := PullAndMerge(src, n);
      if !ok {
        return;
      }
      assert Data() == s[..TAGS_AT + |a|] + s[TAGS_AT + |a| + |b|..] && length - n == |a + c|;
      WriteLength(length - n);
    }

    /** The writes of __nat25_add_pppoe_tag: the tags move up and the new one goes in front of them. */
    method WriteInFront(tag: seq<Byte>, ghost start: seq<Byte>, ghost body: seq<Byte>)
      requires |start| == LENGTH_AT && |body| < 65536 && |Octets(start, body)| + |tag| <= buf.Length
      requires Octets(start, body) <= buf[..]
      modifies buf
      ensures Octets(start, tag + body) <= buf[..]
    {
      var length := ReadLength(start, body);
      BodyGrows(start, body, tag, buf[..]);
      Move(buf, TAGS_AT + |tag|, TAGS_AT, length);
      Store(buf, LENGTH_AT, Be16(length + |tag|));
      Store(buf, TAGS_AT, tag);
    }

    /** __nat25_add_pppoe_tag; `tag` is the scratch buffer the tag was built in. */
    method AddPppoeTag(bigEndian: bool, tag: seq<Byte>, ghost start: seq<Byte>, ghost body: seq<Byte>) returns (ok: bool)
      requires Valid() && |start| == LENGTH_AT && Octets(start, body) <= Data() && |body| < 65536 && |tag| >= 4
      requires HostReading(bigEndian, tag, 2) + 4 <= |tag| || buf.Length - len < HostReading(bigEndian, tag, 2) + 4
      modifies this, buf
      ensures Valid()
      ensures var n := HostReading(bigEndian, tag, 2) + 4;
        && (ok <==> n <= buf.Length - old(len))
        && (!ok ==> Data() == old(Data()))
        && (ok ==> len == old(len) + n && Octets(start, tag[..n] + body) <= Data())
    {
      var n := HostReading(bigEndian, tag, 2) + TAG_HDR_LEN;
      if buf.Length - len < n {
        return false;
      }
      assert Octets(start, body) <= buf[..];
      WriteInFront(tag[..n], start, body);
      len := len + n;
      return true;
    }
  }

  // ----- finding the relay tag -----

  function Pos(tags: seq<Tag>, k: nat): nat
    requires k <= |tags|
  {
    TAGS_AT + |Cat(TagBytes, tags, 0, k)|
  }

  /** What a walk over the tags of a frame meets. */
  ghost predicate TagsLaid(s: seq<Byte>, tags: seq<Tag>) {
    && TAGS_AT <= |s| && Pos(tags, |tags|) == TAGS_AT + Read16(s, LENGTH_AT)
    && forall k {:trigger tags[k]} :: 0 <= k < |tags| ==>
         && TagAt(s, Pos(tags, k), tags[k]) && Pos(tags, k) < Pos(tags, |tags|)
         && Pos(tags, k + 1) == Pos(tags, k) + 4 + |tags[k].data|
  }

  lemma FrameIsLaid(f: Frame, trailer: seq<Byte>)
    requires WellFormed(f)
    ensures TagsLaid(FrameBytes(f) + trailer, f.tags)
  {
    var s := FrameBytes(f) + trailer;
    LengthReads(Start(f), All(TagBytes, f.tags), s);
    forall k | 0 <= k < |f.tags|
      ensures TagAt(s, Pos(f.tags, k), f.tags[k]) && Pos(f.tags, k) < Pos(f.tags, |f.tags|)
      ensures Pos(f.tags, k + 1) == Pos(f.tags, k) + 4 + |f.tags[k].data|
    {
      TagInBody(Start(f) + Be16(|All(TagBytes, f.tags)|), f.tags, k, trailer);
      AtItem(TagBytes, f.tags, k);
    }
  }

  /** __nat25_find_pppoe_tag for the relay type */
  method FindRelayTag(s: seq<Byte>, ghost tags: seq<Tag>) returns (pos: Option<nat>)
    requires TagsLaid(s, tags)
    ensures var k := First(IsRelay, tags, 0);
      if k == |tags| then pos == None else pos == Some(Pos(tags, k)) && TagAt(s, pos.value, tags[k])
  {
    var length := Read16(s, LENGTH_AT);
    ghost var k := 0;
    var cur := TAGS_AT;
    while cur - TAGS_AT < length
      invariant k <= |tags| && cur == Pos(tags, k)
      invariant First(IsRelay, tags, 0) == First(IsRelay, tags, k)
      decreases |tags| - k
    {
      assert TagAt(s, cur, tags[k]);
      if Read16(s, cur) == PTT_RELAY_SID {
        return Some(cur);
      }
      cur := cur + TAG_HDR_LEN + Read16(s, cur + 2);
      k := k + 1;
    }
    return None;
  }

  // ----- the discovery branch of nat25_db_handle -----

  /** The first relay tag of a frame: where it is and what it holds. */
  method ReadRelay(s: seq<Byte>, ghost f: Frame, ghost trailer: seq<Byte>) returns (pos: Option<nat>, value: seq<Byte>)
    requires WellFormed(f) && s == FrameBytes(f) + trailer
    ensures var k := First(IsRelay, f.tags, 0);
      && value == OldValue(f)
      && if k == |f.tags| then pos == None else pos == Some(Pos(f.tags, k))
  {
    FrameIsLaid(f, trailer);
    pos := FindRelayTag(s, f.tags);
    value := [];
    if pos.Some? {
      value := s[pos.value + 4..pos.value + 4 + Read16(s, pos.value + 2)];
    }
  }

  /** The octets of the tags before, at and behind tag k. */
  lemma TagsAround(tags: seq<Tag>, k: nat)
    requires k < |tags|
    ensures var a, b, c := All(TagBytes, tags[..k]), TagBytes(tags[k]), All(TagBytes, tags[k + 1..]);
      && All(TagBytes, tags) == a + b + c && All(TagBytes, tags[..k] + tags[k + 1..]) == a + c
      && Pos(tags, k) == TAGS_AT + |a| && |b| == 4 + |tags[k].data|
  {
    assert tags == tags[..k] + [tags[k]] + tags[k + 1..];
    AllAround(TagBytes, tags[..k], tags[k], tags[k + 1..]);
    AllAppend(TagBytes, tags[..k], tags[k + 1..]);
    CatFront(TagBytes, tags, k);
  }

  /** The PADI/PADR part: the first relay tag is taken out of the frame. */
  method TakeOldRelay(skb: Skb, ghost f: Frame, ghost trailer: seq<Byte>) returns (ok: bool, value: seq<Byte>)
    requires skb.Valid() && WellFormed(f) && skb.Data() == FrameBytes(f) + trailer
    modifies skb, skb.buf
    ensures skb.Valid() && (ok <==> Insertable(f))
    ensures !ok ==> skb.Data() == old(skb.Data())
    ensures ok ==> value == OldValue(f) && skb.Data() == FrameBytes(WithoutFirstRelay(f)) + trailer
    ensures ok ==> var k := First(IsRelay, f.tags, 0); value == if k < |f.tags| then f.tags[k].data else []
  {
    var pos;
    pos, value := ReadRelay(skb.buf[..skb.len], f, trailer);
    if pos.None? {
      return true, [];
    }
    if |value| + TAG_HDR_LEN + MAGIC_CODE_LEN + RTL_RELAY_TAG_LEN > TAG_BUF {
      return false, value;
    }
    ghost var k := First(IsRelay, f.tags, 0);
    ghost var a, b, c := All(TagBytes, f.tags[..k]), TagBytes(f.tags[k]), All(TagBytes, f.tags[k + 1..]);
    TagsAround(f.tags, k);
    ok := skb.PullFromTags(pos.value, TAG_HDR_LEN + |value|, Start(f), a, b, c, trailer);
  }

  /** How many octets the driver makes room for and copies: too many where it reads the length in the wrong order. */
  function Room(bigEndian: bool, value: seq<Byte>): nat {
    if bigEndian then 12 + |value| else 256 * (8 + |value|) + 4
  }

  /** What lies behind the scratch buffer in memory, as far as the driver can read. */
  const STACK_READ := 9208

  /** What the driver copies in front of the tags: the relay tag, then what lies behind it in memory. */
  function Copied(bigEndian: bool, client: Mac, value: seq<Byte>, stack: seq<Byte>): seq<Byte>
    requires |value| <= 28 && |stack| >= STACK_READ
  {
    (TagBytes(RelayTag(client, value)) + stack)[..Room(bigEndian, value)]
  }

  lemma HeadReads(f: Frame, t: seq<Byte>)
    requires |f.head| == 6
    ensures var s := FrameBytes(f) + t; s[6..12] == f.src && s[15] == f.head[3]
  {
    var s := FrameBytes(f) + t;
    assert s == f.dst + (f.src + (f.head + (Be16(|All(TagBytes, f.tags)|) + All(TagBytes, f.tags) + t)));
  }

  /** The length octets of the tag built in the scratch buffer. */
  lemma RelayTagLength(client: Mac, value: seq<Byte>, bigEndian: bool, stack: seq<Byte>)
    requires |value| <= 28 && |stack| >= STACK_READ
    ensures var t := TagBytes(RelayTag(client, value));
      && |t| == 12 + |value|
      && HostReading(bigEndian, t + stack, 2) + 4 == Room(bigEndian, value)
      && (bigEndian ==> Copied(bigEndian, client, value, stack) == t)
  {
    var t, n := TagBytes(RelayTag(client, value)), 8 + |value|;
    assert (t + stack)[2] == t[2] == Be16(n)[0] == 0 && (t + stack)[3] == t[3] == Be16(n)[1] == n as Byte;
    assert (t + stack)[..|t|] == t;
  }

  /** The PADI/PADR part: the new relay tag goes in front of the others. */
  method PutRelay(skb: Skb, bigEndian: bool, value: seq<Byte>, stack: seq<Byte>, ghost g: Frame, ghost trailer: seq<Byte>) returns (ok: bool)
    requires skb.Valid() && WellFormed(g) && skb.Data() == FrameBytes(g) + trailer && |value| <= 28 && |stack| >= STACK_READ
    modifies skb, skb.buf
    ensures skb.Valid() && (ok <==> old(skb.len) + Room(bigEndian, value) <= skb.buf.Length)
    ensures !ok ==> skb.Data() == old(skb.Data())
    ensures ok ==> skb.len == old(skb.len) + Room(bigEndian, value)
    ensures ok ==> Octets(Start(g), Copied(bigEndian, g.src, value, stack) + All(TagBytes, g.tags)) <= skb.Data()
  {
    HeadReads(g, trailer);
    var client := skb.buf[6..12];
    assert client == skb.Data()[6..12];
    RelayTagLength(client, value, bigEndian, stack);
    ok := skb.AddPppoeTag(bigEndian, TagBytes(RelayTag(client, value)) + stack, Start(g), All(TagBytes, g.tags));
  }

  lemma TakenIsWellFormed(f: Frame)
    requires WellFormed(f)
    ensures WellFormed(WithoutFirstRelay(f))
    ensures All(TagBytes, Inserted(f).tags) == TagBytes(RelayTag(f.src, OldValue(f))) + All(TagBytes, WithoutFirstRelay(f).tags)
    ensures |All(TagBytes, f.tags)| == |All(TagBytes, WithoutFirstRelay(f).tags)| + if HasRelay(f) then 4 + |OldValue(f)| else 0
  {
    var k := First(IsRelay, f.tags, 0);
    if k < |f.tags| {
      TagsAround(f.tags, k);
    }
    var r := RelayTag(f.src, OldValue(f));
    AllAppend(TagBytes, [r], WithoutFirstRelay(f).tags);
    AllOne(TagBytes, r);
  }

  predicate HasRelay(f: Frame) {
    First(IsRelay, f.tags, 0) < |f.tags|
  }

  /** The length field covers the new tag exactly if it has room for eight octets more, or twelve if there was no relay
      tag; beyond that it wraps around. */
  lemma InsertedWellFormed(f: Frame)
    requires WellFormed(f) && Insertable(f)
    ensures WellFormed(Inserted(f)) <==> |All(TagBytes, f.tags)| + (if HasRelay(f) then 8 else 12) < 65536
  {
    TakenIsWellFormed(f);
    var g := WithoutFirstRelay(f);
    assert forall k :: 0 < k < |Inserted(f).tags| ==> Inserted(f).tags[k] == g.tags[k - 1];
  }

  /** What is left of a frame that is refused: the old relay tag goes before the tailroom is looked at. */
  function LeftBehind(f: Frame): Frame
    requires |f.head| == 6
  {
    if (f.head[3] == PADI_CODE || f.head[3] == PADR_CODE) && Insertable(f) then WithoutFirstRelay(f) else f
  }

  /** NAT25_INSERT for a discovery frame when relay tags are in use; `stack` is what lies behind the scratch buffer. On a
      big-endian host the frame becomes the one with the relay tag. */
  method Insert(skb: Skb, bigEndian: bool, stack: seq<Byte>, ghost f: Frame, ghost trailer: seq<Byte>) returns (ok: bool)
    requires skb.Valid() && WellFormed(f) && skb.Data() == FrameBytes(f) + trailer && |stack| >= STACK_READ
    requires f.head[4] == f.head[5] == 0
    modifies skb, skb.buf
    ensures skb.Valid()
    ensures ok <==>
      && (f.head[3] == 0x09 || f.head[3] == 0x19) && Insertable(f)
      && |FrameBytes(WithoutFirstRelay(f))| + |trailer| + Room(bigEndian, OldValue(f)) <= skb.buf.Length
    ensures ok ==> skb.len == |FrameBytes(WithoutFirstRelay(f))| + |trailer| + Room(bigEndian, OldValue(f))
    ensures ok ==> Octets(Start(f), Copied(bigEndian, f.src, OldValue(f), stack) + All(TagBytes, WithoutFirstRelay(f).tags)) <= skb.Data()
    ensures ok && bigEndian ==> FrameBytes(Inserted(f)) <= skb.Data() && skb.len == |FrameBytes(Inserted(f))| + |trailer|
    ensures !ok ==> skb.Data() == FrameBytes(LeftBehind(f)) + trailer
  {
    HeadReads(f, trailer);
    assert skb.buf[15] == skb.Data()[15];
    if skb.buf[15] != PADI_CODE && skb.buf[15] != PADR_CODE {
      return false;
    }
    var value;
    ok, value := TakeOldRelay(skb, f, trailer);
    if !ok {
      return;
    }
    TakenIsWellFormed(f);
    RelayTagLength(f.src, value, bigEndian, stack);
    ok := PutRelay(skb, bigEndian, value, stack, WithoutFirstRelay(f), trailer);
  }

  method SetDestination(skb: Skb, dst: Mac, ghost f: Frame, ghost trailer: seq<Byte>)
    requires skb.Valid() && WellFormed(f) && skb.Data() == FrameBytes(f) + trailer
    modifies skb.buf
    ensures skb.Data() == FrameBytes(f.(dst := dst)) + trailer
  {
    SpliceInFront(skb.buf[..], skb.len, 0, dst);
    FrameRedirected(f, dst, trailer);
    Store(skb.buf, 0, dst);
  }

  lemma FrameRedirected(f: Frame, dst: Mac, trailer: seq<Byte>)
    ensures Splice(FrameBytes(f) + trailer, 0, dst) == FrameBytes(f.(dst := dst)) + trailer
  {
    var a, b := f.src + f.head, Be16(|All(TagBytes, f.tags)|) + All(TagBytes, f.tags) + trailer;
    NewDestination(f.dst, dst, a, b);
    assert FrameBytes(f) + trailer == f.dst + a + b;
    assert FrameBytes(f.(dst := dst)) + trailer == dst + a + b;
  }

  lemma NewDestination(was: Mac, dst: Mac, a: seq<Byte>, b: seq<Byte>)
    ensures Splice(was + a + b, 0, dst) == dst + a + b
  {
  }

  /** The PADO/PADS part when nothing is left of the tag: it goes. */
  method DropRelay(skb: Skb, pos: nat, ghost k: nat, ghost f: Frame, ghost trailer: seq<Byte>) returns (ok: bool)
    requires skb.Valid() && WellFormed(f) && skb.Data() == FrameBytes(f) + trailer
    requires k < |f.tags| && |f.tags[k].data| == 8 && pos == Pos(f.tags, k)
    modifies skb, skb.buf
    ensures ok && skb.Valid() && skb.Data() == FrameBytes(f.(tags := f.tags[..k] + f.tags[k + 1..])) + trailer
  {
    TagsAround(f.tags, k);
    ok := skb.PullFromTags(pos, TAG_HDR_LEN + MAGIC_CODE_LEN + RTL_RELAY_TAG_LEN, Start(f),
                           All(TagBytes, f.tags[..k]), TagBytes(f.tags[k]), All(TagBytes, f.tags[k + 1..]), trailer);
  }

  /** Magic and client address lie between the header of the tag and the rest of its value. */
  lemma TagParts(t: Tag)
    requires |t.data| > 8
    ensures TagBytes(t) == (Be16(t.kind) + Be16(|t.data|)) + t.data[..8] + t.data[8..]
  {
    assert t.data == t.data[..8] + t.data[8..];
  }

  lemma Regroup5(a: seq<Byte>, h: seq<Byte>, m: seq<Byte>, v: seq<Byte>, c: seq<Byte>)
    ensures a + (h + m + v) + c == (a + h) + m + (v + c)
  {
  }

  /** Rewriting the length octets of a tag inside a frame. */
  lemma LengthRewritten(h: seq<Byte>, a: seq<Byte>, kind: seq<Byte>, n: seq<Byte>, m: seq<Byte>, v: seq<Byte>, c: seq<Byte>, t: seq<Byte>)
    requires |n| == |m|
    ensures Splice(h + ((a + (kind + n)) + (v + c)) + t, |h| + |a| + |kind|, m) == h + (a + (kind + m + v) + c) + t
  {
  }

  /** The PADO/PADS part when a value is left: magic and address go and the length of the tag is corrected. */
  method TrimRelay(skb: Skb, pos: nat, ghost k: nat, ghost f: Frame, ghost trailer: seq<Byte>, n: nat) returns (ok: bool)
    requires skb.Valid() && WellFormed(f) && skb.Data() == FrameBytes(f) + trailer
    requires k < |f.tags| && n == |f.tags[k].data| > 8 && pos == Pos(f.tags, k)
    modifies skb, skb.buf
    ensures ok && skb.Valid()
    ensures skb.Data() == FrameBytes(f.(tags := f.tags[..k] + [Tag(f.tags[k].kind, f.tags[k].data[8..])] + f.tags[k + 1..])) + trailer
  {
    ghost var t := f.tags[k];
    ghost var a, c := All(TagBytes, f.tags[..k]), All(TagBytes, f.tags[k + 1..]);
    ghost var h, v := Be16(t.kind) + Be16(|t.data|), t.data[8..];
    TagsAround(f.tags, k);
    TagParts(t);
    Regroup5(a, h, t.data[..8], v, c);
    ok := skb.PullFromTags(pos + 4, MAGIC_CODE_LEN + RTL_RELAY_TAG_LEN, Start(f), a + h, t.data[..8], v + c, trailer);
    WriteTagLength(skb, pos, n - MAGIC_CODE_LEN - RTL_RELAY_TAG_LEN, Start(f), a, Be16(t.kind), Be16(|t.data|), v, c, trailer);
    AllAround(TagBytes, f.tags[..k], Tag(t.kind, v), f.tags[k + 1..]);
  }

  method WriteTagLength(skb: Skb, pos: nat, n: nat, ghost start: seq<Byte>, ghost a: seq<Byte>, ghost kind: seq<Byte>,
                        ghost was: seq<Byte>, ghost v: seq<Byte>, ghost c: seq<Byte>, ghost trailer: seq<Byte>)
    requires skb.Valid() && |start| == LENGTH_AT && |kind| == |was| == 2 && pos == TAGS_AT + |a|
    requires skb.Data() == Octets(start, (a + (kind + was)) + (v + c)) + trailer
    modifies skb.buf
    ensures skb.Data() == Octets(start, a + (kind + Be16(n) + v) + c) + trailer
  {
    ghost var body := (a + (kind + was)) + (v + c);
    SpliceInFront(skb.buf[..], skb.len, pos + 2, Be16(n));
    LengthRewritten(start + Be16(|body|), a, kind, was, Be16(n), v, c, trailer);
    Store(skb.buf, pos + 2, Be16(n));
    assert |body| == |a + (kind + Be16(n) + v) + c|;
  }

  /** NAT25_LOOKUP for a discovery frame when relay tags are in use. */
  method Lookup(skb: Skb, ghost f: Frame, ghost trailer: seq<Byte>) returns (ok: bool)
    requires skb.Valid() && WellFormed(f) && skb.Data() == FrameBytes(f) + trailer
    requires f.head[3] == 0x07 || f.head[3] == 0x65 || f.head[4] == f.head[5] == 0
    modifies skb, skb.buf
    ensures skb.Valid() && (ok <==> (f.head[3] == 0x07 || f.head[3] == 0x65) && LookedUp(f).Some?)
    ensures ok ==> skb.Data() == FrameBytes(LookedUp(f).value) + trailer
    ensures !ok ==> skb.Data() == old(skb.Data())
  {
    HeadReads(f, trailer);
    assert skb.buf[15] == skb.Data()[15];
    if skb.buf[15] != PADO_CODE && skb.buf[15] != PADS_CODE {
      return false;
    }
    var pos, value := ReadRelay(skb.buf[..skb.len], f, trailer);
    if pos.None? || |value| < MAGIC_CODE_LEN + RTL_RELAY_TAG_LEN || value[..2] != MAGIC {
      return false;
    }
    ghost var k, g := First(IsRelay, f.tags, 0), f.(dst := value[2..8]);
    SetDestination(skb, value[2..8], f, trailer);
    FirstIsFirst(IsRelay, f.tags, 0);
    if |value| > MAGIC_CODE_LEN + RTL_RELAY_TAG_LEN {
      ok := TrimRelay(skb, pos.value, k, g, trailer, |value|);
    } else {
      assert f.tags[..k] + [] + f.tags[k + 1..] == f.tags[..k] + f.tags[k + 1..];
      ok := DropRelay(skb, pos.value, k, g, trailer);
    }
  }
}
