/** Concrete inputs that show where the patterns' edges lie. */
module Scenarios {
  import opened Optional
  import opened Chars
  import opened NameCleaning
  import opened NonProduct
  import opened PriceSlots

  /** Whitespace may separate the dash from the digits. */
  lemma DiscountWithSpace()
    ensures DiscountOf(Container(None, Some("- 25%"), None, None)) == Some(25)
  {
    var t := "- 25%";
    assert AllIn(Space, t, 1, 2) && !IsSpace(t[2]);
    RunUnique(Space, t, 1, 2);
    assert AllIn(Digit, t, 2, 4) && !IsDigit(t[4]);
    RunUnique(Digit, t, 2, 4);
    assert DigitsValue(t, 2, 4) == 25 by {
      assert DigitsValue(t, 2, 3) == 2;
    }
    assert DiscountAt(t, 0) == Some(25);
    assert SearchDiscount(t, 0) == Some(0);
  }

  /** The percent sign must follow the digits directly, so this text sets no discount. */
  lemma DiscountSpaceBeforePercent()
    ensures DiscountOf(Container(None, Some("-25 %"), None, None)) == None
  {
  }

  /** The validity banner is recognised whatever the case of its first letter. */
  lemma ValidityBanner()
    ensures IsNonProduct("Валидност: 01.09")
  {
    var t := LowerString("Валидност: 01.09");
    assert t[..10] == "валидност:";
    assert Patterns[2] == Prefix("валидност:");
    BannerPrefixIsNonProduct("Валидност: 01.09", "валидност:");
  }

  /** The label is recognised in capitals: `ЦЕНА` lower-cases to `цена`, letter by letter. */
  lemma CapitalLabelLowered()
    ensures LowerString("ЦЕНА") == Label
    ensures LabelWordAt("ЦЕНА", 0)
  {
    assert "ЦЕНА"[0..4] == "ЦЕНА";
  }

  /** The first substitution drops `2.49 лв.` and keeps the text before it. */
  lemma BreadPriceDeleted(text: string)
    requires text == "Хляб 2.49 лв."
    ensures Delete(PriceToken, text) == "Хляб "
  {
    BreadWordHasNoToken(text);
    SubKeepsUnmatched(PriceToken, text, 0, 5);
    BreadTokenEnd(text);
    assert text[0..5] == "Хляб " && text[0..] == text;
  }

  /** No price token starts inside `Хляб` or at the space after it: none of them is a digit. */
  lemma BreadWordHasNoToken(text: string)
    requires text == "Хляб 2.49 лв."
    ensures forall q :: 0 <= q < 5 ==> MatchEnd(PriceToken, text, q).None?
  {
    forall q | 0 <= q < 5
      ensures MatchEnd(PriceToken, text, q).None?
    {
      assert !IsDigit(text[q]);
    }
  }

  /** The price token `2.49 лв.` spans positions 5 to 13, the end of the text. */
  lemma BreadTokenEnd(text: string)
    requires text == "Хляб 2.49 лв."
    ensures Sub(PriceToken, text, 5) == []
  {
    RunUnique(Digit, text, 5, 6);
    RunUnique(Digit, text, 7, 9);
    RunUnique(Space, text, 9, 10);
    assert text[10..13] == "лв.";
    assert PriceTokenEnd(text, 5) == Some(13);
  }

  /** `цена` does not occur in `Хляб `, so the second substitution keeps it. */
  lemma BreadHasNoLabel()
    ensures Delete(PriceLabel, "Хляб ") == "Хляб "
  {
    var u := "Хляб ";
    forall p | 0 <= p
      ensures !LabelWordAt(u, p)
    {
      if p + 4 <= |u| {
        assert LowerString(u[p..p + 4])[0] == Lower(u[p]) != 'ц';
      }
    }
    NoLabelUnchanged(u, 0);
    assert u[0..] == u;
  }

  /** The whitespace of `Хляб ` is already single, and `strip()` drops the last space. */
  lemma BreadTrimmed()
    ensures Strip(Collapse("Хляб ")) == "Хляб"
  {
    var u := "Хляб ";
    assert SingleSpaced(u);
    CollapseSingleSpaced(u, 0);
    assert u[0..] == u;
    RunUnique(Space, u, 0, 0);
    assert TrimEnd(u, 0, 4) == 4;
    assert u[0..4] == "Хляб";
  }

  /** `clean_product_name` on a title with a trailing price: the word stays, the price and the space before it go. */
  lemma BreadTitleCleaned()
    ensures CleanProductName("Хляб 2.49 лв.") == Some("Хляб")
  {
    BreadPriceDeleted("Хляб 2.49 лв.");
    BreadHasNoLabel();
    BreadTrimmed();
    assert Normalized("Хляб 2.49 лв.") == "Хляб";
  }
}
