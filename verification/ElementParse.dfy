/** Writing elements one after the other, and the parser of management frames. */
module ElementParse {
  import opened Bytes
  import opened Options
  import opened Memory
  import opened Items
  import opened Elements

  /** rtw_set_ie: index and length are truncated to an octet. */
  method SetIe(buf: array<Byte>, at: nat, index: nat, source: seq<Byte>, frlen: nat) returns (next: nat, newFrlen: nat)
    requires at + 2 + |source| <= buf.Length
    modifies buf
    ensures next == at + 2 + |source| && newFrlen == frlen + |source| + 2
    ensures buf[..] == Splice(old(buf[..]), at, [(index % 256) as Byte, (|source| % 256) as Byte] + source)
  {
    Store(buf, at, [(index % 256) as Byte, (|source| % 256) as Byte] + source);
    next, newFrlen := at + |source| + 2, frlen + (|source| + 2);
  }

  /** Repeated rtw_set_ie writes exactly the octets of the element list. */
  method BuildIes(buf: array<Byte>, es: seq<Elem>) returns (frlen: nat)
    requires Fits(es) && |Encode(es)| <= buf.Length
    modifies buf
    ensures frlen == |Encode(es)| && buf[..frlen] == Encode(es)
  {
    frlen := 0;
    var next := 0;
    for k := 0 to |es|
      invariant frlen == next == Size(es, 0, k)
      invariant next <= buf.Length && buf[..next] == Span(es, 0, k)
    {
      SizeSplit(es, 0, k, |es|);
      SizeSplit(es, 0, k, k + 1);
      ghost var before := buf[..];
      next, frlen := SetIe(buf, next, es[k].id as int, es[k].body, frlen);
      CatSplit(EncodeOne, es, 0, k, k + 1);
      SpanOne(es, k);
      WrittenAfter(before, Size(es, 0, k), EncodeOne(es[k]));
    }
  }

  lemma WrittenAfter(s: seq<Byte>, at: nat, t: seq<Byte>)
    requires at + |t| <= |s|
    ensures Splice(s, at, t)[..at + |t|] == s[..at] + t
  {
  }

  // ----- parsing -----

  datatype Field =
    | Ssid | SuppRates | FhParams | DsParams | CfParams | Tim | IbssParams | Challenge | ErpInfo | ExtSuppRates
    | WpaIe | Wme | WmeTspec | WpsIe | VendorHtCap | RsnIe | PowerCap | SuppChannels | MdIe | FtIe | TimeoutInt
    | HtCapabilities | HtOperation

  datatype ParseRes = ParseOK | ParseUnknown | ParseFailed

  const OUI_MICROSOFT: seq<Byte> := [0x00, 0x50, 0xf2]
  const OUI_BROADCOM: seq<Byte> := [0x00, 0x90, 0x4c]

  /** rtw_ieee802_11_parse_vendor_specific: the field that a vendor specific body goes to, if any. */
  function ClassifyVendor(body: seq<Byte>): Option<Field> {
    if |body| < 4 then None
    else if body[..3] == OUI_MICROSOFT then
      if body[3] == 1 then Some(WpaIe)
      else if body[3] == 2 then
        if |body| < 5 then None
        else if body[4] == 0 || body[4] == 1 then Some(Wme)
        else if body[4] == 2 then Some(WmeTspec)
        else None
      else if body[3] == 4 then Some(WpsIe)
      else None
    else if body[..3] == OUI_BROADCOM && body[3] == 0x33 then Some(VendorHtCap)
    else None
  }

  function Classify(id: Byte, body: seq<Byte>): Option<Field> {
    if id == 0 then Some(Ssid)
    else if id == 1 then Some(SuppRates)
    else if id == 2 then Some(FhParams)
    else if id == 3 then Some(DsParams)
    else if id == 4 then Some(CfParams)
    else if id == 5 then Some(Tim)
    else if id == 6 then Some(IbssParams)
    else if id == 16 then Some(Challenge)
    else if id == 42 then Some(ErpInfo)
    else if id == 50 then Some(ExtSuppRates)
    else if id == 221 then ClassifyVendor(body)
    else if id == 48 then Some(RsnIe)
    else if id == 33 then Some(PowerCap)
    else if id == 36 then Some(SuppChannels)
    else if id == 54 then Some(MdIe)
    else if id == 55 then Some(FtIe)
    else if id == 56 then Some(TimeoutInt)
    else if id == 45 then Some(HtCapabilities)
    else if id == 61 then Some(HtOperation)
    else None
  }

  /** The fields of the parser as a table of element ids and, for vendor elements, of the octets their bodies start with. */
  predicate GoesTo(f: Field, id: Byte, body: seq<Byte>) {
    match f
    case Ssid => id == 0
    case SuppRates => id == 1
    case FhParams => id == 2
    case DsParams => id == 3
    case CfParams => id == 4
    case Tim => id == 5
    case IbssParams => id == 6
    case Challenge => id == 16
    case PowerCap => id == 33
    case SuppChannels => id == 36
    case ErpInfo => id == 42
    case HtCapabilities => id == 45
    case RsnIe => id == 48
    case ExtSuppRates => id == 50
    case MdIe => id == 54
    case FtIe => id == 55
    case TimeoutInt => id == 56
    case HtOperation => id == 61
    case WpaIe => id == 221 && [0x00, 0x50, 0xf2, 1] <= body
    case Wme => id == 221 && ([0x00, 0x50, 0xf2, 2, 0] <= body || [0x00, 0x50, 0xf2, 2, 1] <= body)
    case WmeTspec => id == 221 && [0x00, 0x50, 0xf2, 2, 2] <= body
    case WpsIe => id == 221 && [0x00, 0x50, 0xf2, 4] <= body
    case VendorHtCap => id == 221 && [0x00, 0x90, 0x4c, 0x33] <= body
  }

  /** The parser's branches agree with the table. */
  lemma ClassifyIsTable(id: Byte, body: seq<Byte>, f: Field)
    ensures Classify(id, body) == Some(f) <==> GoesTo(f, id, body)
  {
    if |body| >= 4 {
      assert body[..3] == OUI_MICROSOFT <==> body[0] == 0x00 && body[1] == 0x50 && body[2] == 0xf2;
      assert body[..3] == OUI_BROADCOM <==> body[0] == 0x00 && body[1] == 0x90 && body[2] == 0x4c;
    }
  }

  /** The last of the first n elements that goes to field f, if any. */
  function LastOf(es: seq<Elem>, n: nat, f: Field): (r: Option<nat>)
    requires n <= |es|
    ensures r.Some? ==> r.value < n && Classify(es[r.value].id, es[r.value].body) == Some(f)
    ensures forall k :: (if r.Some? then r.value + 1 else 0) <= k < n ==> Classify(es[k].id, es[k].body) != Some(f)
  {
    if n == 0 then None
    else if Classify(es[n - 1].id, es[n - 1].body) == Some(f) then Some(n - 1)
    else LastOf(es, n - 1, f)
  }

  /** Each field that is set is the body of the last of the first n elements of its kind. */
  ghost predicate Filled(elems: map<Field, seq<Byte>>, es: seq<Elem>, n: nat)
    requires n <= |es|
  {
    forall f :: if LastOf(es, n, f).Some? then f in elems && elems[f] == es[LastOf(es, n, f).value].body else f !in elems
  }

  predicate Unknown(e: Elem) {
    Classify(e.id, e.body).None?
  }

  /** Octets that end inside an element are not complete. */
  lemma NotComplete(done: seq<Elem>, t: seq<Byte>)
    requires Fits(done) && t != [] && (|t| < 2 || |t| < 2 + t[1] as int)
    ensures !Complete(Encode(done) + t)
  {
    forall es | Fits(es) && Encode(done) + t == Encode(es)
      ensures false
    {
      StripPrefix(done, 0, t, es);
      if |done| < |es| {
        ReadHead(es[|done|], Span(es, |done| + 1, |es|));
      }
    }
  }

  lemma FilledStep(elems: map<Field, seq<Byte>>, es: seq<Elem>, e: Elem)
    requires Filled(elems, es, |es|)
    ensures var f := Classify(e.id, e.body);
      Filled(if f.Some? then elems[f.value := e.body] else elems, es + [e], |es| + 1)
  {
    forall f
      ensures LastOf(es + [e], |es|, f) == LastOf(es, |es|, f)
    {
      LastOfPrefix(es, [e], |es|, f);
    }
  }

  lemma {:induction false} LastOfPrefix(es: seq<Elem>, more: seq<Elem>, n: nat, f: Field)
    requires n <= |es|
    ensures LastOf(es + more, n, f) == LastOf(es, n, f)
  {
    if n > 0 {
      LastOfPrefix(es, more, n - 1, f);
    }
  }

  /** Reading one element moves the boundary between what is parsed and what is left. */
  lemma ReadOne(s: seq<Byte>, done: seq<Elem>, pos: nat, n: nat)
    requires Fits(done) && pos + 2 + n <= |s| && n == s[pos + 1] as int && s == Encode(done) + s[pos..]
    ensures var more := done + [Elem(s[pos], s[pos + 2..pos + 2 + n])];
      Fits(more) && s == Encode(more) + s[pos + 2 + n..]
  {
    var e, t := Elem(s[pos], s[pos + 2..pos + 2 + n]), s[pos + 2 + n..];
    assert n % 256 == n && s[pos..] == EncodeOne(e) + t;
    AllAppend(EncodeOne, done, [e]);
    SpanOne([e], 0);
    Assoc(Encode(done), EncodeOne(e), t);
  }

  ghost predicate AnyUnknown(es: seq<Elem>) {
    exists k :: 0 <= k < |es| && Unknown(es[k])
  }

  lemma AnyUnknownStep(es: seq<Elem>, e: Elem)
    ensures AnyUnknown(es + [e]) <==> AnyUnknown(es) || Unknown(e)
  {
    var more := es + [e];
    assert more[|es|] == e;
    assert forall k :: 0 <= k < |es| ==> more[k] == es[k];
  }

  /** What the parser knows when it has read the elements `es` and stands at `pos`. */
  ghost predicate Parsed(s: seq<Byte>, pos: nat, es: seq<Elem>, elems: map<Field, seq<Byte>>, unknown: nat) {
    (&& pos <= |s| && Fits(es) && s == Encode(es) + s[pos..]
     && Filled(elems, es, |es|) && (unknown > 0 <==> AnyUnknown(es))) == true
  }

  lemma ParsedOneMore(s: seq<Byte>, pos: nat, es: seq<Elem>, elems: map<Field, seq<Byte>>, unknown: nat, n: nat)
    requires Parsed(s, pos, es, elems, unknown) && pos + 2 + n <= |s| && n == s[pos + 1] as int
    ensures var e := Elem(s[pos], s[pos + 2..pos + 2 + n]);
      var f := Classify(e.id, e.body);
      Parsed(s, pos + 2 + n, es + [e], if f.Some? then elems[f.value := e.body] else elems, if f.Some? then unknown else unknown + 1)
  {
    var e := Elem(s[pos], s[pos + 2..pos + 2 + n]);
    ReadOne(s, es, pos, n);
    FilledStep(elems, es, e);
    AnyUnknownStep(es, e);
  }

  /** rtw_ieee802_11_parse_elems; `es` names the elements that were read. */
  method ParseElems(s: seq<Byte>) returns (res: ParseRes, elems: map<Field, seq<Byte>>, ghost es: seq<Elem>)
    ensures res == ParseFailed <==> !Complete(s)
    ensures res != ParseFailed ==> Fits(es) && s == Encode(es) && Filled(elems, es, |es|)
    ensures res == ParseUnknown <==> Complete(s) && AnyUnknown(es)
  {
    var left: nat, pos: nat, unknown: nat := |s|, 0, 0;
    elems, es := map[], [];
    assert Encode(es) + s[0..] == s;
    while left >= 2
      invariant pos + left == |s| && Parsed(s, pos, es, elems, unknown)
    {
      var id, elen := s[pos], s[pos + 1] as int;
      if elen > left - 2 {
        NotComplete(es, s[pos..]);
        return ParseFailed, elems, es;
      }
      ParsedOneMore(s, pos, es, elems, unknown, elen);
      var body := s[pos + 2..pos + 2 + elen];
      var f := Classify(id, body);
      if f.Some? {
        elems := elems[f.value := body];
      } else {
        unknown := unknown + 1;
      }
      es := es + [Elem(id, body)];
      left, pos := left - 2 - elen, pos + 2 + elen;
    }
    if left != 0 {
      NotComplete(es, s[pos..]);
      return ParseFailed, elems, es;
    }
    assert s == Encode(es);
    res := if unknown > 0 then ParseUnknown else ParseOK;
  }
}
