/**
  Information elements (section 7.3.2 of IEEE 802.11-2007) as values: element lists,
  their octets, and searching and filtering of the lists.
 */
module Elements {
  import opened Bytes
  import opened Options
  import opened Items

  datatype Elem = Elem(id: Byte, body: seq<Byte>)

  /** The lengths fit the length octet. */
  predicate Fits(es: seq<Elem>) {
    forall k :: 0 <= k < |es| ==> |es[k].body| < 256
  }

  function EncodeOne(e: Elem): (s: seq<Byte>)
    ensures |s| == 2 + |e.body|
  {
    [e.id, (|e.body| % 256) as Byte] + e.body
  }

  /** The octets of elements i to j - 1. */
  function Span(es: seq<Elem>, i: nat, j: nat): seq<Byte>
    requires i <= j <= |es|
  {
    Cat(EncodeOne, es, i, j)
  }

  function Size(es: seq<Elem>, i: nat, j: nat): nat
    requires i <= j <= |es|
  {
    |Span(es, i, j)|
  }

  function Encode(es: seq<Elem>): seq<Byte> {
    All(EncodeOne, es)
  }

  /** The octets are a concatenation of complete elements. */
  ghost predicate Complete(s: seq<Byte>) {
    exists es :: Fits(es) && s == Encode(es)
  }

  lemma Assoc<T>(a: seq<T>, b: seq<T>, c: seq<T>)
    ensures a + (b + c) == (a + b) + c
  {
  }

  lemma SpanOne(es: seq<Elem>, i: nat)
    requires i < |es|
    ensures Span(es, i, i + 1) == EncodeOne(es[i])
  {
    assert Cat(EncodeOne, es, i + 1, i + 1) == [];
    assert EncodeOne(es[i]) + [] == EncodeOne(es[i]);
  }

  /** The octets in front say how far the first element reaches and what it is. */
  lemma ReadHead(e: Elem, t: seq<Byte>)
    requires |e.body| < 256
    ensures var s, n := EncodeOne(e) + t, 2 + |e.body|;
      s[0] == e.id && s[1] as int == |e.body| && s[2..n] == e.body && s[n..] == t
  {
  }

  /** What the octets at the start of element k say. */
  lemma ReadAt(es: seq<Elem>, i: nat, k: nat)
    requires Fits(es) && i <= k < |es|
    ensures var s, p, n := Span(es, i, |es|), Size(es, i, k), |es[k].body|;
      && p + 2 + n <= |s| && s[p] == es[k].id && s[p + 1] as int == n && s[p + 2..p + 2 + n] == es[k].body
      && Size(es, i, k + 1) == p + 2 + n
  {
    var s, p, n, t := Span(es, i, |es|), Size(es, i, k), |es[k].body|, Span(es, k, |es|);
    CatSplit(EncodeOne, es, i, k, |es|);
    ReadHead(es[k], Span(es, k + 1, |es|));
    assert s[p] == t[0] && s[p + 1] == t[1];
    assert s[p + 2..p + 2 + n] == t[2..2 + n];
    CatSplit(EncodeOne, es, i, k, k + 1);
    SpanOne(es, k);
  }

  lemma SizeSplit(es: seq<Elem>, i: nat, k: nat, j: nat)
    requires i <= k <= j <= |es|
    ensures Size(es, i, j) == Size(es, i, k) + Size(es, k, j)
  {
    CatSplit(EncodeOne, es, i, k, j);
  }

  // ----- elements delimit themselves -----

  /** If the octets of some elements start with those of others, so do the elements. */
  lemma {:induction false} StripPrefix(a: seq<Elem>, i: nat, t: seq<Byte>, b: seq<Elem>)
    requires Fits(a) && Fits(b) && i <= |a| && i <= |b| && Span(a, i, |a|) + t == Span(b, i, |b|)
    ensures |a| <= |b| && (forall k :: i <= k < |a| ==> a[k] == b[k]) && t == Span(b, |a|, |b|)
    decreases |a| - i
  {
    if i == |a| {
      assert Span(a, i, |a|) + t == t;
    } else {
      Assoc(EncodeOne(a[i]), Span(a, i + 1, |a|), t);
      ReadHead(a[i], Span(a, i + 1, |a|) + t);
      assert i < |b|;
      ReadHead(b[i], Span(b, i + 1, |b|));
      StripPrefix(a, i + 1, t, b);
    }
  }

  lemma EncodeInjective(a: seq<Elem>, b: seq<Elem>)
    requires Fits(a) && Fits(b) && Encode(a) == Encode(b)
    ensures a == b
  {
    assert Encode(a) + [] == Encode(a);
    StripPrefix(a, 0, [], b);
    assert |a| == |b|;
  }

  // ----- searching -----

  /** An element matches an id and, if one is given, a prefix of its body. */
  predicate Matches(e: Elem, eid: Byte, oui: Option<seq<Byte>>) {
    e.id == eid && (oui.None? || oui.value <= e.body)
  }

  function Matching(eid: Byte, oui: Option<seq<Byte>>): Elem -> bool {
    (e: Elem) => Matches(e, eid, oui)
  }

  /** Comparing the OUI does not run past the elements with that id. */
  ghost predicate LongEnough(es: seq<Elem>, eid: Byte, oui: Option<seq<Byte>>) {
    oui.Some? ==> forall k :: 0 <= k < |es| && es[k].id == eid ==> |oui.value| <= |es[k].body|
  }

  /** The first match from element i on, or the length of the list. */
  function FirstMatch(es: seq<Elem>, i: nat, eid: Byte, oui: Option<seq<Byte>>): (k: nat)
    requires i <= |es|
    ensures i <= k <= |es|
  {
    First(Matching(eid, oui), es, i)
  }

  lemma FirstMatchIsFirst(es: seq<Elem>, i: nat, eid: Byte, oui: Option<seq<Byte>>)
    requires i <= |es|
    ensures var k := FirstMatch(es, i, eid, oui);
      && (k < |es| ==> es[k].id == eid && (oui.Some? ==> oui.value <= es[k].body))
      && forall j :: i <= j < k ==> es[j].id != eid || (oui.Some? && !(oui.value <= es[j].body))
  {
    FirstIsFirst(Matching(eid, oui), es, i);
  }

  /** Filtering keeps exactly the elements with another id or, if an OUI is given, another start of the body. */
  lemma WithoutMatching(es: seq<Elem>, eid: Byte, oui: Option<seq<Byte>>, e: Elem)
    ensures e in Without(Matching(eid, oui), es) <==> e in es && (e.id != eid || (oui.Some? && !(oui.value <= e.body)))
  {
    WithoutHolds(Matching(eid, oui), es, e);
  }

  /** An element on the air: id, length, body. */
  lemma ElemFormat(e: Elem)
    requires |e.body| < 256
    ensures var s := EncodeOne(e); |s| == 2 + |e.body| && s[0] == e.id && s[1] as int == |e.body| && s[2..] == e.body
  {
  }
}
