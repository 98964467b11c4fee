/** Lists of items laid out in a buffer one after the other, whatever the items look like. */
module Items {
  import opened Bytes

  /** The octets of items i to j - 1. */
  function Cat<T>(enc: T -> seq<Byte>, es: seq<T>, i: nat, j: nat): seq<Byte>
    requires i <= j <= |es|
    decreases j - i
  {
    if i == j then [] else enc(es[i]) + Cat(enc, es, i + 1, j)
  }

  function All<T>(enc: T -> seq<Byte>, es: seq<T>): seq<Byte> {
    Cat(enc, es, 0, |es|)
  }

  lemma {:induction false} CatSplit<T>(enc: T -> seq<Byte>, es: seq<T>, i: nat, k: nat, j: nat)
    requires i <= k <= j <= |es|
    ensures Cat(enc, es, i, j) == Cat(enc, es, i, k) + Cat(enc, es, k, j)
    decreases k - i
  {
    if i < k {
      CatSplit(enc, es, i + 1, k, j);
      assert enc(es[i]) + (Cat(enc, es, i + 1, k) + Cat(enc, es, k, j)) == (enc(es[i]) + Cat(enc, es, i + 1, k)) + Cat(enc, es, k, j);
    }
  }

  /** The octets of a stretch depend on the items in it only. */
  lemma {:induction false} CatSame<T>(enc: T -> seq<Byte>, es: seq<T>, i: nat, j: nat, fs: seq<T>, d: int)
    requires i <= j <= |es| && 0 <= i + d && j + d <= |fs|
    requires forall k {:trigger es[k]} :: i <= k < j ==> es[k] == fs[k + d]
    ensures Cat(enc, es, i, j) == Cat(enc, fs, i + d, j + d)
    decreases j - i
  {
    if i < j {
      assert es[i] == fs[i + d];
      CatSame(enc, es, i + 1, j, fs, d);
    }
  }

  lemma AllAppend<T>(enc: T -> seq<Byte>, a: seq<T>, b: seq<T>)
    ensures All(enc, a + b) == All(enc, a) + All(enc, b)
  {
    CatSplit(enc, a + b, 0, |a|, |a + b|);
    CatSame(enc, a, 0, |a|, a + b, 0);
    CatSame(enc, b, 0, |b|, a + b, |a|);
  }

  lemma AllOne<T>(enc: T -> seq<Byte>, e: T)
    ensures All(enc, [e]) == enc(e)
  {
    assert Cat(enc, [e], 1, 1) == [];
    assert enc(e) + [] == enc(e);
  }

  lemma AllAround<T>(enc: T -> seq<Byte>, a: seq<T>, e: T, b: seq<T>)
    ensures All(enc, a + [e] + b) == All(enc, a) + enc(e) + All(enc, b)
  {
    AllAppend(enc, a + [e], b);
    AllAppend(enc, a, [e]);
    AllOne(enc, e);
  }

  /** Item k of the octets of a list, with what is before and behind it. */
  lemma AtItem<T>(enc: T -> seq<Byte>, es: seq<T>, k: nat)
    requires k < |es|
    ensures All(enc, es) == Cat(enc, es, 0, k) + enc(es[k]) + Cat(enc, es, k + 1, |es|)
    ensures Cat(enc, es, 0, k + 1) == Cat(enc, es, 0, k) + enc(es[k])
  {
    CatSplit(enc, es, 0, k, |es|);
    CatSplit(enc, es, 0, k, k + 1);
    assert Cat(enc, es, k + 1, k + 1) == [];
    assert enc(es[k]) + [] == enc(es[k]);
  }

  lemma CatFront<T>(enc: T -> seq<Byte>, es: seq<T>, k: nat)
    requires k <= |es|
    ensures Cat(enc, es, 0, k) == All(enc, es[..k]) && Cat(enc, es, k, |es|) == All(enc, es[k..])
  {
    CatSame(enc, es[..k], 0, k, es, 0);
    CatSame(enc, es[k..], 0, |es| - k, es, k);
  }

  // ----- searching and filtering -----

  /** The first item from i on that satisfies p, or the length of the list. */
  function First<T>(p: T -> bool, es: seq<T>, i: nat): (k: nat)
    requires i <= |es|
    ensures i <= k <= |es|
    decreases |es| - i
  {
    if i == |es| || p(es[i]) then i else First(p, es, i + 1)
  }

  lemma {:induction false} FirstIsFirst<T>(p: T -> bool, es: seq<T>, i: nat)
    requires i <= |es|
    ensures var k := First(p, es, i);
      (k < |es| ==> p(es[k])) && forall j :: i <= j < k ==> !p(es[j])
    decreases |es| - i
  {
    if i < |es| && !p(es[i]) {
      FirstIsFirst(p, es, i + 1);
    }
  }

  lemma {:induction false} FirstFrom<T>(p: T -> bool, es: seq<T>, i: nat, k: nat)
    requires i <= k < |es| && p(es[k]) && forall j :: i <= j < k ==> !p(es[j])
    ensures First(p, es, i) == k
    decreases k - i
  {
    if i < k {
      FirstFrom(p, es, i + 1, k);
    }
  }

  /** The items that do not satisfy p, in order. */
  function Without<T>(p: T -> bool, es: seq<T>): seq<T> {
    WithoutIn(p, es, |es|)
  }

  /** Those of the first n items that do not satisfy p. */
  function WithoutIn<T>(p: T -> bool, es: seq<T>, n: nat): seq<T>
    requires n <= |es|
  {
    if n == 0 then []
    else if p(es[n - 1]) then WithoutIn(p, es, n - 1)
    else WithoutIn(p, es, n - 1) + [es[n - 1]]
  }

  lemma {:induction false} WithoutFront<T>(p: T -> bool, a: seq<T>, b: seq<T>, n: nat)
    requires n <= |a|
    ensures WithoutIn(p, a + b, n) == WithoutIn(p, a, n)
  {
    if n > 0 {
      WithoutFront(p, a, b, n - 1);
    }
  }

  lemma {:induction false} WithoutBack<T>(p: T -> bool, a: seq<T>, b: seq<T>, n: nat)
    requires n <= |b|
    ensures WithoutIn(p, a + b, |a| + n) == Without(p, a) + WithoutIn(p, b, n)
  {
    if n == 0 {
      WithoutFront(p, a, b, |a|);
    } else {
      WithoutBack(p, a, b, n - 1);
      assert (a + b)[|a| + n - 1] == b[n - 1];
    }
  }

  lemma WithoutAppend<T>(p: T -> bool, a: seq<T>, b: seq<T>)
    ensures Without(p, a + b) == Without(p, a) + Without(p, b)
  {
    WithoutBack(p, a, b, |b|);
  }

  /** A single item stays or goes. With `WithoutAppend` this says all there is to say of any list. */
  lemma WithoutOne<T>(p: T -> bool, e: T)
    ensures Without(p, [e]) == if p(e) then [] else [e]
  {
    assert WithoutIn(p, [e], 0) == [];
  }

  /** Taking one of the items to be left out away changes nothing. */
  lemma WithoutOneLess<T>(p: T -> bool, a: seq<T>, e: T, b: seq<T>)
    requires p(e)
    ensures Without(p, a + [e] + b) == Without(p, a + b) == Without(p, a) + Without(p, b)
  {
    WithoutAppend(p, a + [e], b);
    WithoutAppend(p, a, [e]);
    WithoutAppend(p, a, b);
    assert WithoutIn(p, [e], 1) == WithoutIn(p, [e], 0);
  }

  lemma {:induction false} WithoutNoneIn<T>(p: T -> bool, es: seq<T>, n: nat)
    requires n <= |es| && forall k :: 0 <= k < n ==> !p(es[k])
    ensures WithoutIn(p, es, n) == es[..n]
  {
    if n > 0 {
      WithoutNoneIn(p, es, n - 1);
    }
  }

  lemma WithoutNone<T>(p: T -> bool, es: seq<T>)
    requires forall k :: 0 <= k < |es| ==> !p(es[k])
    ensures Without(p, es) == es
  {
    WithoutNoneIn(p, es, |es|);
  }

  lemma {:induction false} WithoutHoldsIn<T>(p: T -> bool, es: seq<T>, n: nat, e: T)
    requires n <= |es|
    ensures e in WithoutIn(p, es, n) <==> e in es[..n] && !p(e)
  {
    if n > 0 {
      WithoutHoldsIn(p, es, n - 1, e);
      assert es[..n] == es[..n - 1] + [es[n - 1]];
    }
  }

  lemma WithoutHolds<T>(p: T -> bool, es: seq<T>, e: T)
    ensures e in Without(p, es) <==> e in es && !p(e)
  {
    WithoutHoldsIn(p, es, |es|, e);
    assert es[..|es|] == es;
  }

  /** Searching to the first item that is left out passes over items that are kept. */
  lemma WithoutFirst<T>(p: T -> bool, es: seq<T>, k: nat)
    requires k < |es| && p(es[k]) && forall j :: 0 <= j < k ==> !p(es[j])
    ensures Without(p, es) == es[..k] + Without(p, es[k + 1..])
  {
    assert es == es[..k] + [es[k]] + es[k + 1..];
    WithoutOneLess(p, es[..k], es[k], es[k + 1..]);
    WithoutNone(p, es[..k]);
  }
}
