/**
  Setting the broadcast flag of a DHCP request and patching the UDP checksum (section 3 of RFC 1624).
  A datagram, with its pseudo header, is a sequence of 16-bit words in the host's byte order; ones'-complement sums
  do not depend on that order.
 */
module Dhcp {
  const M := 65535

  ghost predicate Words(w: seq<nat>) {
    forall i :: 0 <= i < |w| ==> w[i] <= M
  }

  function Sum(w: seq<nat>, n: nat): nat
    requires n <= |w|
  {
    if n == 0 then 0 else Sum(w, n - 1) + w[n - 1]
  }

  /** The words add up to zero in ones' complement. */
  predicate ChecksumHolds(w: seq<nat>) {
    Sum(w, |w|) % M == 0
  }

  lemma {:induction false} SumUpdate(w: seq<nat>, i: nat, x: nat, n: nat)
    requires i < |w| && n <= |w|
    ensures Sum(w[i := x], n) == Sum(w, n) + if i < n then x - w[i] else 0
  {
    if n > 0 {
      SumUpdate(w, i, x, n - 1);
    }
  }

  /** The folding loop; the sum keeps its residue. */
  method Fold(start: nat) returns (sum: nat)
    ensures sum <= M && sum % M == start % M && (sum == 0 <==> start == 0)
  {
    sum := start;
    while sum / 65536 != 0
      invariant sum % M == start % M && (sum == 0 <==> start == 0)
      decreases sum
    {
      FoldStep(sum);
      sum := sum % 65536 + sum / 65536;
    }
  }

  lemma FoldStep(sum: nat)
    ensures (sum % 65536 + sum / 65536) % M == sum % M
  {
    var q, r := sum / 65536, sum % 65536;
    assert sum == M * q + (q + r);
    Residue(q, q + r);
  }

  lemma Residue(q: nat, s: nat)
    ensures (M * q + s) % M == s % M
  {
    if q > 0 {
      Residue(q - 1, s);
      assert M * q + s == M * (q - 1) + s + M;
    }
  }

  /** The broadcast flag, whichever half of the word the host's byte order puts it in, is not set. */
  predicate FlagClear(flags: nat, broadcast: nat)
    requires broadcast > 0
  {
    flags / broadcast % 2 == 0
  }

  predicate BroadcastFlag(b: nat) {
    b == 0x8000 || b == 0x0080
  }

  /** What is left of the sum of the words by the patch: the old flags are missing from the update. */
  predicate Patched(w: seq<nat>, v: seq<nat>, flags: nat, check: nat, broadcast: nat) {
    && |v| == |w| && flags < |w| && check < |w| && flags != check
    && v[flags] == w[flags] + broadcast && v == w[flags := v[flags]][check := v[check]]
    && v[check] <= M && (v[check] + v[flags]) % M == w[check] % M
  }

  /** The sum changes by the old flags. */
  lemma PatchedSum(w: seq<nat>, v: seq<nat>, flags: nat, check: nat, broadcast: nat)
    requires Patched(w, v, flags, check, broadcast)
    ensures (Sum(v, |v|) + w[flags]) % M == Sum(w, |w|) % M
  {
    SumUpdate(w, flags, v[flags], |w|);
    SumUpdate(w[flags := v[flags]], check, v[check], |w|);
    Balance(Sum(w, |w|), Sum(v, |v|), w[flags], w[check], v[flags], v[check]);
  }

  lemma Balance(s: int, t: int, f: int, c: int, f': int, c': int)
    requires (c' + f') % M == c % M && t == s - f + f' - c + c'
    ensures (t + f) % M == s % M
  {
    SameResidue(c' + f', c, s - c);
  }

  lemma SameResidue(a: int, b: int, c: int)
    requires a % M == b % M
    ensures (a + c) % M == (b + c) % M
  {
    var k := a / M - b / M;
    assert a - b == M * k;
    Shift(b + c, k);
  }

  lemma Shift(x: int, k: int)
    ensures (x + M * k) % M == x % M
    decreases if k < 0 then -k else k
  {
    if k > 0 {
      Shift(x, k - 1);
      assert x + M * k == (x + M * (k - 1)) + M;
    } else if k < 0 {
      Shift(x, k + 1);
      assert x + M * k == (x + M * (k + 1)) - M;
    }
  }

  /** After the patch the checksum holds exactly if before it the words added up to the old flags. */
  lemma PatchedHolds(w: seq<nat>, v: seq<nat>, flags: nat, check: nat, broadcast: nat)
    requires Patched(w, v, flags, check, broadcast)
    ensures ChecksumHolds(v) <==> Sum(w, |w|) % M == w[flags] % M
  {
    PatchedSum(w, v, flags, check, broadcast);
    if ChecksumHolds(v) {
      SameResidue(Sum(v, |v|), 0, w[flags]);
    }
  }

  /** A checksum that held still holds exactly if no other flag was set. */
  lemma PatchKeepsChecksum(w: seq<nat>, v: seq<nat>, flags: nat, check: nat, broadcast: nat)
    requires Patched(w, v, flags, check, broadcast) && Words(w) && BroadcastFlag(broadcast) && FlagClear(w[flags], broadcast)
    requires ChecksumHolds(w)
    ensures ChecksumHolds(v) <==> w[flags] == 0
  {
    PatchedHolds(w, v, flags, check, broadcast);
    assert w[flags] < M;
  }

  lemma NewCheck(check: nat, flags: nat, sum: nat)
    requires check <= M && 0 < flags <= M && 0 < sum <= M && sum % M == (M - check + flags) % M
    ensures (M - sum + flags) % M == check % M
    ensures sum == M <==> check % M == flags % M
  {
  }

  /** The flag and checksum part of dhcp_flag_bcast, on the words of the datagram. */
  method SetBroadcast(w: array<nat>, flags: nat, check: nat, broadcast: nat)
    requires Words(w[..]) && flags < w.Length && check < w.Length && flags != check && BroadcastFlag(broadcast)
    modifies w
    ensures Words(w[..])
    ensures !FlagClear(old(w[flags]), broadcast) ==> w[..] == old(w[..])
    ensures FlagClear(old(w[flags]), broadcast) ==> Patched(old(w[..]), w[..], flags, check, broadcast)
    ensures FlagClear(old(w[flags]), broadcast) ==> (w[check] == 0 <==> old(w[check]) % M == w[flags] % M)
  {
    if w[flags] / broadcast % 2 == 0 {
      w[flags] := w[flags] + broadcast;
      var sum := Fold(M - w[check] + w[flags]);
      NewCheck(w[check], w[flags], sum);
      w[check] := M - sum;
    }
  }

  // ----- requests -----

  // Places of words: six of the pseudo header, four of the UDP header, then the DHCP message.
  const PROTOCOL_AT := 4
  const SOURCE_PORT_AT := 6
  const DEST_PORT_AT := 7
  const CHECK_AT := 9
  const FLAGS_AT := 15
  const COOKIE_AT := 128
  const REQUEST_WORDS := 284

  const IPPROTO_UDP := 17
  const CLIENT_PORT := 68
  const SERVER_PORT := 67

  /** A word as the host reads it. */
  function Host(bigEndian: bool, x: nat): nat {
    if bigEndian then x else x % 256 * 256 + x / 256
  }

  /** The datagram is a DHCP request: UDP from client to server port with the magic cookie. */
  predicate IsRequest(w: seq<nat>, bigEndian: bool) {
    && COOKIE_AT + 2 <= |w|
    && w[PROTOCOL_AT] == Host(bigEndian, IPPROTO_UDP)
    && w[SOURCE_PORT_AT] == Host(bigEndian, CLIENT_PORT) && w[DEST_PORT_AT] == Host(bigEndian, SERVER_PORT)
    && w[COOKIE_AT] == Host(bigEndian, 0x6382) && w[COOKIE_AT + 1] == Host(bigEndian, 0x5363)
  }

  /** dhcp_flag_bcast on the words of a datagram. */
  method DhcpFlagBcast(w: array<nat>, bigEndian: bool)
    requires COOKIE_AT + 2 <= w.Length && Words(w[..])
    modifies w
    ensures Words(w[..])
    ensures var b := Host(bigEndian, 0x8000);
      if IsRequest(old(w[..]), bigEndian) && FlagClear(old(w[FLAGS_AT]), b)
      then Patched(old(w[..]), w[..], FLAGS_AT, CHECK_AT, b) else w[..] == old(w[..])
  {
    if w[PROTOCOL_AT] == Host(bigEndian, IPPROTO_UDP) {
      if w[SOURCE_PORT_AT] == Host(bigEndian, CLIENT_PORT) && w[DEST_PORT_AT] == Host(bigEndian, SERVER_PORT) {
        if w[COOKIE_AT] == Host(bigEndian, 0x6382) && w[COOKIE_AT + 1] == Host(bigEndian, 0x5363) {
          SetBroadcast(w, FLAGS_AT, CHECK_AT, Host(bigEndian, 0x8000));
        }
      }
    }
  }

  /** A DHCPDISCOVER from 0.0.0.0 to 255.255.255.255 without options, as a big-endian host reads it. */
  function Discover(flags: nat, check: nat): seq<nat> {
    UdpPart(check)[10 := 0x0101][11 := 0x0600][FLAGS_AT := flags][COOKIE_AT := 0x6382][COOKIE_AT + 1 := 0x5363]
  }

  function UdpPart(check: nat): (w: seq<nat>)
    ensures |w| == REQUEST_WORDS
  {
    Blank()[2 := M][3 := M][PROTOCOL_AT := IPPROTO_UDP][5 := 556][SOURCE_PORT_AT := CLIENT_PORT][DEST_PORT_AT := SERVER_PORT][8 := 556][CHECK_AT := check]
  }

  function Blank(): (w: seq<nat>)
    ensures |w| == REQUEST_WORDS && forall i :: 0 <= i < |w| ==> w[i] == 0
  {
    seq(REQUEST_WORDS, _ => 0)
  }

  lemma {:induction false} BlankSum(n: nat)
    requires n <= REQUEST_WORDS
    ensures Sum(Blank(), n) == 0
  {
    if n > 0 {
      BlankSum(n - 1);
    }
  }

  lemma UdpSum(check: nat)
    ensures Sum(UdpPart(check), REQUEST_WORDS) == 2 * M + 1264 + check
    ensures forall i :: 10 <= i < REQUEST_WORDS ==> UdpPart(check)[i] == 0
  {
    BlankSum(REQUEST_WORDS);
    var n, w := REQUEST_WORDS, Blank();
    SumUpdate(w, 2, M, n);
    w := w[2 := M];
    SumUpdate(w, 3, M, n);
    w := w[3 := M];
    SumUpdate(w, PROTOCOL_AT, IPPROTO_UDP, n);
    w := w[PROTOCOL_AT := IPPROTO_UDP];
    SumUpdate(w, 5, 556, n);
    w := w[5 := 556];
    SumUpdate(w, SOURCE_PORT_AT, CLIENT_PORT, n);
    w := w[SOURCE_PORT_AT := CLIENT_PORT];
    SumUpdate(w, DEST_PORT_AT, SERVER_PORT, n);
    w := w[DEST_PORT_AT := SERVER_PORT];
    SumUpdate(w, 8, 556, n);
    w := w[8 := 556];
    SumUpdate(w, CHECK_AT, check, n);
  }

  lemma DiscoverSum(flags: nat, check: nat)
    ensures Sum(Discover(flags, check), REQUEST_WORDS) == 2 * M + 49878 + check + flags
  {
    UdpSum(check);
    var n, w := REQUEST_WORDS, UdpPart(check);
    SumUpdate(w, 10, 0x0101, n);
    w := w[10 := 0x0101];
    SumUpdate(w, 11, 0x0600, n);
    w := w[11 := 0x0600];
    SumUpdate(w, FLAGS_AT, flags, n);
    w := w[FLAGS_AT := flags];
    SumUpdate(w, COOKIE_AT, 0x6382, n);
    w := w[COOKIE_AT := 0x6382];
    SumUpdate(w, COOKIE_AT + 1, 0x5363, n);
  }

  lemma DiscoverIsRequest(flags: nat, check: nat)
    ensures var w := Discover(flags, check);
      |w| == REQUEST_WORDS && IsRequest(w, true) && w[FLAGS_AT] == flags && w[CHECK_AT] == check
  {
  }

  lemma DiscoverPatched(flags: nat, check: nat, flags': nat, check': nat)
    ensures Discover(flags', check') == Discover(flags, check)[FLAGS_AT := flags'][CHECK_AT := check']
  {
    var w, v := Discover(flags, check), Discover(flags', check');
    forall i | 0 <= i < REQUEST_WORDS
      ensures v[i] == w[FLAGS_AT := flags'][CHECK_AT := check'][i]
    {
      assert i != CHECK_AT ==> UdpPart(check)[i] == UdpPart(check')[i];
    }
  }

  ghost predicate LosesChecksum(w: seq<nat>, v: seq<nat>) {
    (&& IsRequest(w, true) && FlagClear(w[FLAGS_AT], 0x8000) && Patched(w, v, FLAGS_AT, CHECK_AT, 0x8000)
     && ChecksumHolds(w) && !ChecksumHolds(v)) == true
  }

  lemma LostIn(w: seq<nat>, v: seq<nat>)
    requires |w| == REQUEST_WORDS && IsRequest(w, true) && w[FLAGS_AT] == 0x0001 && w[CHECK_AT] == 15656
    requires v == w[FLAGS_AT := 0x8001][CHECK_AT := 48422]
    requires Sum(w, REQUEST_WORDS) == 3 * M && Sum(v, REQUEST_WORDS) == 4 * M - 1
    ensures LosesChecksum(w, v)
  {
  }

  /** A request with another flag bit set, whose checksum held, comes out with one that does not hold. */
  lemma OtherFlagLost()
    ensures LosesChecksum(Discover(0x0001, 15656), Discover(0x8001, 48422))
  {
    DiscoverIsRequest(0x0001, 15656);
    DiscoverSum(0x0001, 15656);
    DiscoverSum(0x8001, 48422);
    DiscoverPatched(0x0001, 15656, 0x8001, 48422);
    LostIn(Discover(0x0001, 15656), Discover(0x8001, 48422));
  }

  /** A request sent without a checksum comes out with one that does not hold. */
  lemma NoChecksumBroken(v: seq<nat>)
    ensures IsRequest(Discover(0, 0), true) && FlagClear(Discover(0, 0)[FLAGS_AT], 0x8000)
    ensures Patched(Discover(0, 0), v, FLAGS_AT, CHECK_AT, 0x8000) ==> v[CHECK_AT] != 0 && !ChecksumHolds(v)
  {
    DiscoverIsRequest(0, 0);
    DiscoverSum(0, 0);
    if Patched(Discover(0, 0), v, FLAGS_AT, CHECK_AT, 0x8000) {
      PatchedHolds(Discover(0, 0), v, FLAGS_AT, CHECK_AT, 0x8000);
    }
  }

  /** The words that make a datagram a request, in either byte order. */
  lemma RequestWords(w: seq<nat>)
    requires |w| >= 130
    ensures IsRequest(w, true) <==> w[4] == 17 && w[6] == 68 && w[7] == 67 && w[128] == 0x6382 && w[129] == 0x5363
    ensures IsRequest(w, false) <==> w[4] == 0x1100 && w[6] == 0x4400 && w[7] == 0x4300 && w[128] == 0x8263 && w[129] == 0x6353
    ensures Host(true, 0x8000) == 0x8000 && Host(false, 0x8000) == 0x0080
  {
  }
}
