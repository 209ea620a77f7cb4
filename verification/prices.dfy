/**
 * `BillaScraper.extract_prices_from_container`: the old price, the new
 * price and the discount percentage of one product container.
 *
 * The HTML container is abstracted to the texts the scraper reads out of
 * it, and `float(...)` to an opaque partial function `parse`: `None` stands
 * for the `ValueError` that `float` raises on text it cannot read.
 */
module PriceSlots {
  import opened Optional
  import opened Chars

  /** A `div.product` container, as the texts (`get_text(strip=True)`) of the elements the scraper looks up. */
  datatype Container = Container(
    actualProduct: Option<string>,   // the `div.actualProduct`, if there is one
    discount: Option<string>,        // the `div.discount`, if there is one
    oldSection: Option<seq<string>>, // the `span.price` texts of the div styled `width:21%`, if there is one
    newSection: Option<seq<string>>) // the same for the div styled `width:15%`

  /** The `prices` dictionary the scraper builds. */
  datatype Prices<P> = Prices(oldPrice: Option<P>, newPrice: Option<P>, discount: Option<nat>)

  /** A value, or the exception a failed price conversion raised. */
  datatype Conversion<T> = Ok(value: T) | Raised {

    predicate IsFailure() {
      Raised?
    }

    function PropagateFailure<U>(): Conversion<U>
      requires Raised?
    {
      Raised
    }

    function Extract(): T
      requires Ok?
    {
      value
    }
  }

  /** `float(text)`: the parsed price, or the exception. */
  function ParsePrice<P>(parse: string -> Option<P>, text: string): (r: Conversion<P>)
    ensures r.Ok? <==> parse(text).Some?
    ensures r.Ok? ==> parse(text) == Some(r.value)
  {
    match parse(text)
    case Some(v) => Ok(v)
    case None => Raised
  }

  // ---------------------------------------------------------------------
  // The discount: `re.search(r'-\s*(\d+)%', text)` and `int(group(1))`
  // ---------------------------------------------------------------------

  function Pow10(n: nat): (r: nat)
    ensures r > 0
  {
    if n == 0 then 1 else 10 * Pow10(n - 1)
  }

  /** `int(s[i..j])` for a string of decimal digits. */
  function DigitsValue(s: string, i: nat, j: nat): (v: nat)
    requires i <= j <= |s|
    requires AllIn(Digit, s, i, j)
    ensures v < Pow10(j - i)
    ensures j == i + 1 ==> v == DigitValue(s[i])
    decreases j - i
  {
    if i == j then 0
    else
      var high := DigitsValue(s, i, j - 1);
      var d := DigitValue(s[j - 1]);
      assert high * 10 + d < Pow10(j - i) by {
        assert high + 1 <= Pow10(j - 1 - i);
        assert (high + 1) * 10 <= Pow10(j - 1 - i) * 10;
      }
      high * 10 + d
  }

  /**
   * `int` reads the digits positionally: the value of `s[i..j]` is the value
   * of its high digits `s[i..k]` shifted past the `j - k` low digits, plus
   * the value of those low digits.
   */
  lemma {:induction false} DigitsValueSplit(s: string, i: nat, k: nat, j: nat)
    requires i <= k <= j <= |s|
    requires AllIn(Digit, s, i, j)
    ensures DigitsValue(s, i, j) == DigitsValue(s, i, k) * Pow10(j - k) + DigitsValue(s, k, j)
    decreases j - k
  {
    if k < j {
      DigitsValueSplit(s, i, k, j - 1);
      var high, low, d := DigitsValue(s, i, k), DigitsValue(s, k, j - 1), DigitValue(s[j - 1]);
      assert DigitsValue(s, i, j) == DigitsValue(s, i, j - 1) * 10 + d;
      assert DigitsValue(s, k, j) == low * 10 + d;
      assert Pow10(j - k) == 10 * Pow10(j - 1 - k);
      ShiftOneDigit(high, Pow10(j - 1 - k), low, d);
    }
  }

  lemma ShiftOneDigit(high: int, p: int, low: int, d: int)
    ensures (high * p + low) * 10 + d == high * (10 * p) + (low * 10 + d)
  {
  }

  /** `int` ignores a leading zero: `int("05") == int("5")`. */
  lemma {:induction false} DigitsValueLeadingZero(s: string, i: nat, j: nat)
    requires i < j <= |s|
    requires AllIn(Digit, s, i, j)
    requires s[i] == '0'
    ensures DigitsValue(s, i, j) == DigitsValue(s, i + 1, j)
    decreases j - i
  {
    if j > i + 1 {
      DigitsValueLeadingZero(s, i, j - 1);
    }
  }

  /** The value of the match of `-\s*(\d+)%` that starts at position `p`, if there is one. */
  function DiscountAt(s: string, p: nat): Option<nat>
    requires p <= |s|
  {
    if p == |s| || s[p] != '-' then None
    else
      var w := RunEnd(Space, s, p + 1);
      var d := RunEnd(Digit, s, w);
      if d == w || d == |s| || s[d] != '%' then None
      else Some(DigitsValue(s, w, d))
  }

  /** `s[p..d+1]` splits as a dash, whitespace `s[p+1..w]`, digits `s[w..d]` and a percent sign. */
  ghost predicate DiscountShape(s: string, p: nat, w: nat, d: nat) {
    && p < w <= d < |s|
    && s[p] == '-' && AllIn(Space, s, p + 1, w)
    && w < d && AllIn(Digit, s, w, d)
    && s[d] == '%'
  }

  /** The matcher agrees with the regex's own reading, and reads the captured digits. */
  lemma DiscountAtCorrect(s: string, p: nat)
    requires p <= |s|
    ensures DiscountAt(s, p).Some? ==>
              exists w: nat, d: nat :: DiscountShape(s, p, w, d) && DiscountAt(s, p) == Some(DigitsValue(s, w, d))
    ensures forall w: nat, d: nat :: DiscountShape(s, p, w, d) ==> DiscountAt(s, p) == Some(DigitsValue(s, w, d))
  {
    if DiscountAt(s, p).Some? {
      var w := RunEnd(Space, s, p + 1);
      var d := RunEnd(Digit, s, w);
      assert DiscountShape(s, p, w, d);
    }
    forall w: nat, d: nat | DiscountShape(s, p, w, d)
      ensures DiscountAt(s, p) == Some(DigitsValue(s, w, d))
    {
      assert In(Digit, s[w]);
      RunUnique(Space, s, p + 1, w);
      RunUnique(Digit, s, w, d);
    }
  }

  /** The first match of the discount pattern starts at `q` (searching from `p`). */
  ghost predicate FirstDiscountAt(s: string, p: nat, q: nat)
    requires p <= |s|
  {
    && p <= q < |s| && DiscountAt(s, q).Some?
    && forall q' :: p <= q' < q ==> DiscountAt(s, q').None?
  }

  /** A miss at `p` moves the search start past it without changing the first match. */
  lemma FirstDiscountShift(s: string, p: nat, q: nat)
    requires p < |s| && DiscountAt(s, p).None?
    requires FirstDiscountAt(s, p + 1, q)
    ensures FirstDiscountAt(s, p, q)
  {
    forall q' | p <= q' < q
      ensures DiscountAt(s, q').None?
    {
      if q' > p {
        assert p + 1 <= q' < q;
      }
    }
  }

  /** `re.search` from position `p`: where the leftmost match starts, if there is one. */
  function SearchDiscount(s: string, p: nat): (r: Option<nat>)
    requires p <= |s|
    ensures r.None? <==> forall q :: p <= q < |s| ==> DiscountAt(s, q).None?
    ensures r.Some? ==> FirstDiscountAt(s, p, r.value)
    decreases |s| - p
  {
    if p == |s| then None
    else if DiscountAt(s, p).Some? then Some(p)
    else
      var r := SearchDiscount(s, p + 1);
      if r.Some? then
        FirstDiscountShift(s, p, r.value);
        r
      else r
  }

  /** The `discount` slot: `int(match.group(1))` of the leftmost match in the discount text, if any. */
  function DiscountOf(c: Container): (r: Option<nat>)
    ensures c.discount.None? ==> r.None?
    ensures c.discount.Some? ==>
              (r.None? <==> forall q :: 0 <= q < |c.discount.value| ==> DiscountAt(c.discount.value, q).None?)
    ensures c.discount.Some? && r.Some? ==>
              exists q :: FirstDiscountAt(c.discount.value, 0, q) && r == DiscountAt(c.discount.value, q)
  {
    match c.discount
    case None => None
    case Some(t) =>
      match SearchDiscount(t, 0)
      case None => None
      case Some(q) => DiscountAt(t, q)
  }

  /**
   * The discount slot in the regex's own terms: it is set exactly when some
   * part of the badge text reads as `-\s*(\d+)%`, and then to the value of
   * the digits of such a match.
   */
  lemma DiscountOfCorrect(c: Container)
    requires c.discount.Some?
    ensures DiscountOf(c).None? <==>
              forall p: nat, w: nat, d: nat :: !DiscountShape(c.discount.value, p, w, d)
    ensures DiscountOf(c).Some? ==>
              exists p: nat, w: nat, d: nat :: DiscountShape(c.discount.value, p, w, d)
                                              && DiscountOf(c).value == DigitsValue(c.discount.value, w, d)
  {
    var t := c.discount.value;
    if DiscountOf(c).Some? {
      var q :| FirstDiscountAt(t, 0, q) && DiscountOf(c) == DiscountAt(t, q);
      DiscountAtCorrect(t, q);
    } else {
      forall p: nat, w: nat, d: nat
        ensures !DiscountShape(t, p, w, d)
      {
        if DiscountShape(t, p, w, d) {
          DiscountAtCorrect(t, p);
        }
      }
    }
  }

  // ---------------------------------------------------------------------
  // The price slots
  // ---------------------------------------------------------------------

  /** The `span.price` texts of the old-price section; a missing section has none. */
  function OldSpans(c: Container): seq<string> {
    c.oldSection.GetOr([])
  }

  /** The `span.price` texts of the new-price section; a missing section has none. */
  function NewSpans(c: Container): seq<string> {
    c.newSection.GetOr([])
  }

  /** The first span of the new-price section, converted, if the section has one. */
  function NewSectionPrice<P>(c: Container, parse: string -> Option<P>): (r: Conversion<Option<P>>)
    ensures |NewSpans(c)| == 0 ==> r == Ok(None)
    ensures |NewSpans(c)| > 0 ==> (r.Ok? <==> parse(NewSpans(c)[0]).Some?)
    ensures |NewSpans(c)| > 0 && r.Ok? ==> r.value == parse(NewSpans(c)[0])
  {
    var spans := NewSpans(c);
    if |spans| >= 1 then
      var price :- ParsePrice(parse, spans[0]);
      Ok(Some(price))
    else Ok(None)
  }

  /**
   * `extract_prices_from_container`. The old section's first span is the
   * old price and its second span (if any) the new price; only when the
   * old section yields no new price is the new section's first span read.
   */
  function ExtractPrices<P>(c: Container, parse: string -> Option<P>): Conversion<Prices<P>> {
    var discount := DiscountOf(c);
    var spans := OldSpans(c);
    if |spans| >= 1 then
      var oldPrice :- ParsePrice(parse, spans[0]);
      if |spans| >= 2 then
        var newPrice :- ParsePrice(parse, spans[1]);
        Ok(Prices(Some(oldPrice), Some(newPrice), discount))
      else
        var newPrice :- NewSectionPrice(c, parse);
        Ok(Prices(Some(oldPrice), newPrice, discount))
    else
      var newPrice :- NewSectionPrice(c, parse);
      Ok(Prices(None, newPrice, discount))
  }

  /** The span texts `extract_prices_from_container` hands to `float`, in order. */
  function Converted(c: Container): seq<string> {
    var olds := OldSpans(c);
    var news := NewSpans(c);
    if |olds| >= 2 then olds[..2]
    else olds + (if |news| >= 1 then news[..1] else [])
  }

  /** The old price comes only from the first span of the old section, and is unset when that section has no span. */
  lemma OldPriceSlot<P>(c: Container, parse: string -> Option<P>)
    requires ExtractPrices(c, parse).Ok?
    ensures ExtractPrices(c, parse).value.oldPrice.Some? <==> |OldSpans(c)| >= 1
    ensures |OldSpans(c)| >= 1 ==> ExtractPrices(c, parse).value.oldPrice == parse(OldSpans(c)[0])
  {
  }

  /**
   * With two or more spans in the old section the new price is its second
   * span; otherwise it is the first span of the new section, if any.
   */
  lemma NewPriceSlot<P>(c: Container, parse: string -> Option<P>)
    requires ExtractPrices(c, parse).Ok?
    ensures |OldSpans(c)| >= 2 ==> ExtractPrices(c, parse).value.newPrice == parse(OldSpans(c)[1])
    ensures |OldSpans(c)| < 2 ==>
              (ExtractPrices(c, parse).value.newPrice.Some? <==> |NewSpans(c)| >= 1)
    ensures |OldSpans(c)| < 2 && |NewSpans(c)| >= 1 ==>
              ExtractPrices(c, parse).value.newPrice == parse(NewSpans(c)[0])
  {
  }

  /** The discount slot depends on the discount text alone. */
  lemma DiscountSlot<P>(c: Container, parse: string -> Option<P>)
    requires ExtractPrices(c, parse).Ok?
    ensures ExtractPrices(c, parse).value.discount == DiscountOf(c)
  {
    var spans := OldSpans(c);
    if |spans| >= 2 {
    } else if |spans| == 1 {
    } else {
    }
  }

  /** The container raises exactly when one of the spans it converts is not a number. */
  lemma RaisesIffConversionFails<P>(c: Container, parse: string -> Option<P>)
    ensures ExtractPrices(c, parse).Raised? <==> exists t :: t in Converted(c) && parse(t).None?
  {
    var olds := OldSpans(c);
    var news := NewSpans(c);
    if |olds| >= 2 {
      assert Converted(c) == [olds[0], olds[1]];
    } else if |olds| == 1 {
      if |news| >= 1 {
        assert Converted(c) == [olds[0], news[0]];
      } else {
        assert Converted(c) == [olds[0]];
      }
    } else if |news| >= 1 {
      assert Converted(c) == [news[0]];
    } else {
      assert Converted(c) == [];
    }
  }

  /** With two spans in the old section the new section is never consulted, not even converted. */
  lemma NewSectionUnread<P>(c: Container, parse: string -> Option<P>, other: Option<seq<string>>)
    requires |OldSpans(c)| >= 2
    ensures ExtractPrices(c, parse) == ExtractPrices(c.(newSection := other), parse)
  {
  }

  /** A missing old section and an old section without spans are treated alike. */
  lemma MissingOldSectionIsEmpty<P>(c: Container, parse: string -> Option<P>)
    requires c.oldSection == None
    ensures ExtractPrices(c, parse) == ExtractPrices(c.(oldSection := Some([])), parse)
  {
  }
}
