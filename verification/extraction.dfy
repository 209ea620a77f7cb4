/**
 * The per-container loop of `BillaScraper.extract_products`: every
 * `div.product` container either becomes one product record or is skipped,
 * and the records come out in the order of the containers.
 */
module Extraction {
  import opened Optional
  import opened NameCleaning
  import opened NonProduct
  import opened PriceSlots

  /** The currency every record carries. */
  const Currency: string := "лв."

  /** One product record; the `extracted_at` timestamp is not part of this model. */
  datatype Product<P> = Product(
    name: string,
    oldPrice: Option<P>,
    newPrice: Option<P>,
    currency: string,
    discountPercent: Option<nat>)

  /** What every emitted record satisfies. */
  ghost predicate IsRecord<P>(r: Product<P>) {
    && |r.name| > 3
    && WellSpaced(r.name)
    && !IsNonProduct(r.name)
    && (r.oldPrice.Some? || r.newPrice.Some?)
    && r.currency == Currency
  }

  /**
   * The body of the loop for one container: `None` for every `continue`,
   * including the one in the exception handler when a price conversion
   * raises.
   */
  function Accept<P>(c: Container, parse: string -> Option<P>): (r: Option<Product<P>>)
    ensures r.Some? ==> IsRecord(r.value)
    ensures r.Some? ==> c.actualProduct.Some? && CleanProductName(c.actualProduct.value) == Some(r.value.name)
    ensures r.Some? ==>
              ExtractPrices(c, parse) == Ok(Prices(r.value.oldPrice, r.value.newPrice, r.value.discountPercent))
    ensures ExtractPrices(c, parse).Raised? ==> r.None?
  {
    match c.actualProduct
    case None => None
    case Some(text) =>
      var name := CleanProductName(text);
      if name.None? || |Strip(name.value)| < 3 then None
      else if IsNonProduct(name.value) then None
      else match ExtractPrices(c, parse)
        case Raised => None
        case Ok(prices) =>
          if prices.oldPrice.Some? || prices.newPrice.Some? then
            Some(Product(name.value, prices.oldPrice, prices.newPrice, Currency, prices.discount))
          else None
  }

  /**
   * The scraper's second length check (`len(product_name.strip()) < 3`)
   * never rejects anything: a cleaned name is already stripped and longer
   * than three characters. So a container is kept exactly when it has a
   * title whose cleaned form exists and is not a non-product, and its
   * prices convert with at least one price found.
   */
  lemma {:induction false} AcceptIff<P>(c: Container, parse: string -> Option<P>)
    ensures Accept(c, parse).Some? <==>
              && c.actualProduct.Some?
              && CleanProductName(c.actualProduct.value).Some?
              && !IsNonProduct(CleanProductName(c.actualProduct.value).value)
              && ExtractPrices(c, parse).Ok?
              && (ExtractPrices(c, parse).value.oldPrice.Some? || ExtractPrices(c, parse).value.newPrice.Some?)
  {
    if c.actualProduct.Some? && CleanProductName(c.actualProduct.value).Some? {
      StripWellSpaced(CleanProductName(c.actualProduct.value).value);
    }
  }

  /** The values of the `Some` entries of `vs`, in order: what survives the loop's `continue`s. */
  function Kept<T>(vs: seq<Option<T>>): (r: seq<T>)
    ensures |r| <= |vs|
    ensures forall k :: 0 <= k < |r| ==> Some(r[k]) in vs
    ensures (forall i :: 0 <= i < |vs| ==> vs[i].None?) ==> r == []
  {
    if vs == [] then []
    else (if vs[0].Some? then [vs[0].value] else []) + Kept(vs[1..])
  }

  lemma {:induction false} KeptAppend<T>(a: seq<Option<T>>, b: seq<Option<T>>)
    ensures Kept(a + b) == Kept(a) + Kept(b)
    decreases |a|
  {
    if a == [] {
      assert a + b == b;
    } else {
      assert (a + b)[1..] == a[1..] + b;
      KeptAppend(a[1..], b);
    }
  }

  /** `f` applied to every element, in order. */
  function MapSeq<A, B>(f: A -> B, xs: seq<A>): (ys: seq<B>)
    ensures |ys| == |xs|
    ensures forall i :: 0 <= i < |xs| ==> ys[i] == f(xs[i])
  {
    seq(|xs|, i requires 0 <= i < |xs| => f(xs[i]))
  }

  lemma MapSeqAppend<A, B>(f: A -> B, a: seq<A>, b: seq<A>)
    ensures MapSeq(f, a + b) == MapSeq(f, a) + MapSeq(f, b)
  {
    forall i | 0 <= i < |a + b|
      ensures MapSeq(f, a + b)[i] == (MapSeq(f, a) + MapSeq(f, b))[i]
    {
      if i < |a| {
        assert (a + b)[i] == a[i];
      } else {
        assert (a + b)[i] == b[i - |a|];
      }
    }
  }

  /** Every value that survives comes from the entry of some element. */
  lemma KeptMapFrom<A, B>(f: A -> Option<B>, xs: seq<A>)
    ensures forall k :: 0 <= k < |Kept(MapSeq(f, xs))| ==>
              exists i :: 0 <= i < |xs| && f(xs[i]) == Some(Kept(MapSeq(f, xs))[k])
  {
    var vs := MapSeq(f, xs);
    var r := Kept(vs);
    forall k | 0 <= k < |r|
      ensures exists i :: 0 <= i < |xs| && f(xs[i]) == Some(r[k])
    {
      var i :| 0 <= i < |vs| && vs[i] == Some(r[k]);
      assert f(xs[i]) == Some(r[k]);
    }
  }

  /** One element, kept or not. */
  lemma KeptMapSingle<A, B>(f: A -> Option<B>, x: A)
    ensures f(x).None? ==> Kept(MapSeq(f, [x])) == []
    ensures f(x).Some? ==> Kept(MapSeq(f, [x])) == [f(x).value]
  {
    assert MapSeq(f, [x]) == [f(x)];
    assert MapSeq(f, [x])[1..] == [];
  }

  /** An element whose entry is `None` can be dropped without changing what survives. */
  lemma KeptMapSkip<A, B>(f: A -> Option<B>, a: seq<A>, x: A, b: seq<A>)
    requires f(x).None?
    ensures Kept(MapSeq(f, a + [x] + b)) == Kept(MapSeq(f, a + b))
  {
    assert a + [x] + b == a + ([x] + b);
    MapSeqAppend(f, a, [x] + b);
    MapSeqAppend(f, [x], b);
    MapSeqAppend(f, a, b);
    KeptAppend(MapSeq(f, a), MapSeq(f, [x]) + MapSeq(f, b));
    KeptAppend(MapSeq(f, [x]), MapSeq(f, b));
    KeptAppend(MapSeq(f, a), MapSeq(f, b));
    KeptMapSingle(f, x);
  }

  /** An element whose entry is `Some` contributes its value between those of its neighbours. */
  lemma KeptMapKeep<A, B>(f: A -> Option<B>, a: seq<A>, x: A, b: seq<A>)
    requires f(x).Some?
    ensures Kept(MapSeq(f, a + [x] + b)) == Kept(MapSeq(f, a)) + [f(x).value] + Kept(MapSeq(f, b))
  {
    MapSeqAppend(f, a + [x], b);
    MapSeqAppend(f, a, [x]);
    KeptAppend(MapSeq(f, a + [x]), MapSeq(f, b));
    KeptAppend(MapSeq(f, a), MapSeq(f, [x]));
    KeptMapSingle(f, x);
  }

  /** The loop body, as a function of the container. */
  function Verdict<P>(parse: string -> Option<P>): Container -> Option<Product<P>> {
    c => Accept(c, parse)
  }

  /** The loop body's verdict on each container. */
  function Verdicts<P>(cs: seq<Container>, parse: string -> Option<P>): (vs: seq<Option<Product<P>>>)
    ensures |vs| == |cs|
  {
    MapSeq(Verdict(parse), cs)
  }

  /** `extract_products` over the containers, in document order. */
  function ExtractProducts<P>(cs: seq<Container>, parse: string -> Option<P>): (r: seq<Product<P>>)
    ensures |r| <= |cs|
    ensures forall k :: 0 <= k < |r| ==> IsRecord(r[k])
    ensures forall k :: 0 <= k < |r| ==> exists i :: 0 <= i < |cs| && Accept(cs[i], parse) == Some(r[k])
  {
    var r := Kept(Verdicts(cs, parse));
    KeptMapFrom(Verdict(parse), cs);
    assert forall k :: 0 <= k < |r| ==> exists i :: 0 <= i < |cs| && Accept(cs[i], parse) == Some(r[k]) by {
      forall k | 0 <= k < |r|
        ensures exists i :: 0 <= i < |cs| && Accept(cs[i], parse) == Some(r[k])
      {
        var i :| 0 <= i < |cs| && Verdict(parse)(cs[i]) == Some(r[k]);
        assert Accept(cs[i], parse) == Some(r[k]);
      }
    }
    r
  }

  /** Records keep the order of their containers: the loop distributes over concatenation. */
  lemma ExtractProductsAppend<P>(a: seq<Container>, b: seq<Container>, parse: string -> Option<P>)
    ensures ExtractProducts(a + b, parse) == ExtractProducts(a, parse) + ExtractProducts(b, parse)
  {
    MapSeqAppend(Verdict(parse), a, b);
    KeptAppend(Verdicts(a, parse), Verdicts(b, parse));
  }

  /** A single container yields its record, or nothing. */
  lemma ExtractProductsSingle<P>(c: Container, parse: string -> Option<P>)
    ensures Accept(c, parse).None? ==> ExtractProducts([c], parse) == []
    ensures Accept(c, parse).Some? ==> ExtractProducts([c], parse) == [Accept(c, parse).value]
  {
    var vs := Verdicts([c], parse);
    assert vs[0] == Verdict(parse)(c) == Accept(c, parse);
    assert vs == [Accept(c, parse)];
    assert vs[1..] == [];
  }

  /** A skipped container leaves no trace, whatever surrounds it. */
  lemma SkippedLeavesNoTrace<P>(a: seq<Container>, c: Container, b: seq<Container>, parse: string -> Option<P>)
    requires Accept(c, parse).None?
    ensures ExtractProducts(a + [c] + b, parse) == ExtractProducts(a + b, parse)
  {
    assert Verdict(parse)(c) == Accept(c, parse);
    KeptMapSkip(Verdict(parse), a, c, b);
  }

  /** A container whose price conversion raises is skipped, and the loop goes on with the next one. */
  lemma ConversionFailureSkipped<P>(a: seq<Container>, c: Container, b: seq<Container>, parse: string -> Option<P>)
    requires ExtractPrices(c, parse).Raised?
    ensures ExtractProducts(a + [c] + b, parse) == ExtractProducts(a + b, parse)
  {
    SkippedLeavesNoTrace(a, c, b, parse);
  }

  /** An accepted container contributes its record exactly at its place in the output. */
  lemma AcceptedInPlace<P>(a: seq<Container>, c: Container, b: seq<Container>, parse: string -> Option<P>)
    requires Accept(c, parse).Some?
    ensures ExtractProducts(a + [c] + b, parse)
              == ExtractProducts(a, parse) + [Accept(c, parse).value] + ExtractProducts(b, parse)
  {
    assert Verdict(parse)(c) == Accept(c, parse);
    KeptMapKeep(Verdict(parse), a, c, b);
  }

  /** One more container: the records so far, then that container's record if it is kept. */
  lemma ExtractProductsStep<P>(cs: seq<Container>, i: nat, parse: string -> Option<P>)
    requires i < |cs|
    ensures Accept(cs[i], parse).None? ==> ExtractProducts(cs[..i + 1], parse) == ExtractProducts(cs[..i], parse)
    ensures Accept(cs[i], parse).Some? ==>
              ExtractProducts(cs[..i + 1], parse) == ExtractProducts(cs[..i], parse) + [Accept(cs[i], parse).value]
  {
    assert cs[..i + 1] == cs[..i] + [cs[i]];
    ExtractProductsAppend(cs[..i], [cs[i]], parse);
    ExtractProductsSingle(cs[i], parse);
  }

  /** The loop of `extract_products`, appending to `products` container by container. */
  method ExtractProductsLoop<P>(cs: seq<Container>, parse: string -> Option<P>) returns (products: seq<Product<P>>)
    ensures products == ExtractProducts(cs, parse)
    ensures forall k :: 0 <= k < |products| ==> IsRecord(products[k])
  {
    products := [];
    var i := 0;
    while i < |cs|
      invariant 0 <= i <= |cs|
      invariant products == ExtractProducts(cs[..i], parse)
    {
      var accepted := Accept(cs[i], parse);
      ExtractProductsStep(cs, i, parse);
      if accepted.Some? {
        products := products + [accepted.value];
      }
      i := i + 1;
    }
    assert cs[..i] == cs;
  }
}
