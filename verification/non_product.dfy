/**
 * `BillaScraper.is_non_product`: a product title is a banner, header or
 * footer when its lower-cased text matches one of a fixed list of
 * patterns, most of them anchored at the start of the text.
 */
module NonProduct {
  import opened Chars

  /** The regex shapes the pattern list uses. */
  datatype Pattern =
    | Prefix(lit: string)                          // ^lit
    | PrefixThenOnLine(head: string, tail: string) // ^head.*tail
    | CountThen(tail: string)                      // ^\d+\s*tail
    | PrefixCountThen(head: string, tail: string)  // ^head\s*\d+\s*tail
    | Anywhere(lit: string)                        // lit, anywhere in the text

  /** The non-product patterns, in the order `is_non_product` tries them. */
  const Patterns: seq<Pattern> := [
    PrefixThenOnLine("празнувай", "billa"),
    CountThen("години"),
    Prefix("валидност:"),
    PrefixCountThen("над", "продукта"),
    PrefixThenOnLine("*", "виж повече"),
    PrefixThenOnLine("**", "номерацията"),
    Prefix("мултипак оферта"),
    Anywhere("www.billa.bg"),
    Prefix("предстояща брошура"),
    Prefix("седмична брошура"),
    Prefix("обратно на училище")
  ]

  /** `.*tail` from position `j`: `tail` occurs at or after `j` with no line break before it. */
  function OnLineFrom(t: string, j: nat, tail: string): bool
    requires j <= |t|
    decreases |t| - j
  {
    LiteralAt(t, j, tail) || (j < |t| && t[j] != '\n' && OnLineFrom(t, j + 1, tail))
  }

  /** `lit` occurs at or after position `j`. */
  function FindFrom(t: string, j: nat, lit: string): bool
    requires j <= |t|
    decreases |t| - j
  {
    LiteralAt(t, j, lit) || (j < |t| && FindFrom(t, j + 1, lit))
  }

  /**
   * Whether `re.search` finds pattern `p` in `t`. Every `\s*` and `\d+` run
   * is taken whole; that is what the regex settles on when the piece after
   * the run begins with a character outside the run's class.
   */
  function Matches(p: Pattern, t: string): bool {
    match p
    case Prefix(lit) => LiteralAt(t, 0, lit)
    case PrefixThenOnLine(head, tail) =>
      LiteralAt(t, 0, head) && OnLineFrom(t, |head|, tail)
    case CountThen(tail) =>
      var d := RunEnd(Digit, t, 0);
      d > 0 && LiteralAt(t, RunEnd(Space, t, d), tail)
    case PrefixCountThen(head, tail) =>
      LiteralAt(t, 0, head) &&
      var w := RunEnd(Space, t, |head|);
      var d := RunEnd(Digit, t, w);
      d > w && LiteralAt(t, RunEnd(Space, t, d), tail)
    case Anywhere(lit) => FindFrom(t, 0, lit)
  }

  /** Some pattern of `ps` matches `t`; the scraper's loop returns at the first one. */
  function AnyMatch(ps: seq<Pattern>, t: string): (r: bool)
    ensures r <==> exists i :: 0 <= i < |ps| && Matches(ps[i], t)
  {
    if ps == [] then false
    else Matches(ps[0], t) || AnyMatch(ps[1..], t)
  }

  /** `is_non_product(text)`: some pattern matches the lower-cased text. */
  function IsNonProduct(text: string): bool {
    AnyMatch(Patterns, LowerString(text))
  }

  // ---------------------------------------------------------------------
  // The regexes' own reading: some split of the text into the pattern's
  // pieces exists (this is what backtracking searches for).
  // ---------------------------------------------------------------------

  predicate NoLineBreak(t: string, i: nat, j: nat)
    requires i <= j <= |t|
  {
    forall p :: i <= p < j ==> t[p] != '\n'
  }

  ghost predicate RegexMatches(p: Pattern, t: string) {
    match p
    case Prefix(lit) => LiteralAt(t, 0, lit)
    case PrefixThenOnLine(head, tail) =>
      && LiteralAt(t, 0, head)
      && exists j: nat :: |head| <= j <= |t| && NoLineBreak(t, |head|, j) && LiteralAt(t, j, tail)
    case CountThen(tail) =>
      exists d: nat, w: nat :: 0 < d <= w <= |t| && AllIn(Digit, t, 0, d) && AllIn(Space, t, d, w)
                               && LiteralAt(t, w, tail)
    case PrefixCountThen(head, tail) =>
      && LiteralAt(t, 0, head)
      && exists w: nat, d: nat, w2: nat ::
           && |head| <= w < d <= w2 <= |t|
           && AllIn(Space, t, |head|, w) && AllIn(Digit, t, w, d) && AllIn(Space, t, d, w2)
           && LiteralAt(t, w2, tail)
    case Anywhere(lit) => exists j: nat :: j <= |t| && LiteralAt(t, j, lit)
  }

  /** The literal after a counted run starts with neither a digit nor whitespace. */
  predicate WellFormed(p: Pattern) {
    match p
    case CountThen(tail) => |tail| > 0 && !IsDigit(tail[0]) && !IsSpace(tail[0])
    case PrefixCountThen(_, tail) => |tail| > 0 && !IsDigit(tail[0]) && !IsSpace(tail[0])
    case _ => true
  }

  lemma {:induction false} OnLineFromCorrect(t: string, j: nat, tail: string)
    requires j <= |t|
    ensures OnLineFrom(t, j, tail) <==>
              exists m: nat :: j <= m <= |t| && NoLineBreak(t, j, m) && LiteralAt(t, m, tail)
    decreases |t| - j
  {
    if j < |t| {
      OnLineFromCorrect(t, j + 1, tail);
      if OnLineFrom(t, j + 1, tail) && t[j] != '\n' {
        var m: nat :| j + 1 <= m <= |t| && NoLineBreak(t, j + 1, m) && LiteralAt(t, m, tail);
        assert NoLineBreak(t, j, m);
      }
      if exists m: nat :: j <= m <= |t| && NoLineBreak(t, j, m) && LiteralAt(t, m, tail) {
        var m: nat :| j <= m <= |t| && NoLineBreak(t, j, m) && LiteralAt(t, m, tail);
        if m > j {
          assert NoLineBreak(t, j + 1, m);
        }
      }
    } else {
      assert NoLineBreak(t, j, j);
    }
  }

  lemma {:induction false} FindFromCorrect(t: string, j: nat, lit: string)
    requires j <= |t|
    ensures FindFrom(t, j, lit) <==> exists m: nat :: j <= m <= |t| && LiteralAt(t, m, lit)
    decreases |t| - j
  {
    if j < |t| {
      FindFromCorrect(t, j + 1, lit);
    }
  }

  lemma CountThenCorrect(t: string, tail: string)
    requires WellFormed(CountThen(tail))
    ensures Matches(CountThen(tail), t) <==> RegexMatches(CountThen(tail), t)
  {
    if RegexMatches(CountThen(tail), t) {
      var d: nat, w: nat :| 0 < d <= w <= |t| && AllIn(Digit, t, 0, d) && AllIn(Space, t, d, w)
                            && LiteralAt(t, w, tail);
      assert t[w] == tail[0] by {
        assert t[w..w + |tail|][0] == t[w];
      }
      assert d < |t| && !IsDigit(t[d]);
      RunUnique(Digit, t, 0, d);
      RunUnique(Space, t, d, w);
    }
  }

  lemma PrefixCountThenCorrect(t: string, head: string, tail: string)
    requires WellFormed(PrefixCountThen(head, tail))
    ensures Matches(PrefixCountThen(head, tail), t) <==> RegexMatches(PrefixCountThen(head, tail), t)
  {
    if RegexMatches(PrefixCountThen(head, tail), t) {
      var w: nat, d: nat, w2: nat :|
        && |head| <= w < d <= w2 <= |t|
        && AllIn(Space, t, |head|, w) && AllIn(Digit, t, w, d) && AllIn(Space, t, d, w2)
        && LiteralAt(t, w2, tail);
      assert t[w2] == tail[0] by {
        assert t[w2..w2 + |tail|][0] == t[w2];
      }
      assert In(Digit, t[w]);
      RunUnique(Space, t, |head|, w);
      assert d < |t| && !IsDigit(t[d]);
      RunUnique(Digit, t, w, d);
      RunUnique(Space, t, d, w2);
    }
  }

  /** On a well-formed pattern the greedy matcher agrees with the regex's backtracking reading. */
  lemma MatchesCorrect(p: Pattern, t: string)
    requires WellFormed(p)
    ensures Matches(p, t) <==> RegexMatches(p, t)
  {
    match p
    case Prefix(_) =>
    case PrefixThenOnLine(head, tail) =>
      if LiteralAt(t, 0, head) {
        OnLineFromCorrect(t, |head|, tail);
      }
    case CountThen(tail) => CountThenCorrect(t, tail);
    case PrefixCountThen(head, tail) => PrefixCountThenCorrect(t, head, tail);
    case Anywhere(lit) => FindFromCorrect(t, 0, lit);
  }

  /**
   * `is_non_product` holds exactly when one of the listed regexes, read
   * with backtracking, matches the lower-cased text; no pattern means no
   * verdict of "non-product".
   */
  lemma IsNonProductCorrect(text: string)
    ensures IsNonProduct(text) <==>
              exists i :: 0 <= i < |Patterns| && RegexMatches(Patterns[i], LowerString(text))
  {
    forall i | 0 <= i < |Patterns|
      ensures Matches(Patterns[i], LowerString(text)) <==> RegexMatches(Patterns[i], LowerString(text))
    {
      assert WellFormed(Patterns[i]);
      MatchesCorrect(Patterns[i], LowerString(text));
    }
  }

  /** A title that mentions the shop's web address anywhere is not a product. */
  lemma SiteAddressIsNonProduct(text: string, j: nat)
    requires LiteralAt(LowerString(text), j, "www.billa.bg")
    ensures IsNonProduct(text)
  {
    FindFromCorrect(LowerString(text), 0, "www.billa.bg");
    assert Matches(Patterns[7], LowerString(text));
  }

  /** A title whose lower-cased form starts with one of the listed banner prefixes is not a product. */
  lemma BannerPrefixIsNonProduct(text: string, lit: string)
    requires Prefix(lit) in Patterns
    requires LiteralAt(LowerString(text), 0, lit)
    ensures IsNonProduct(text)
  {
    var i :| 0 <= i < |Patterns| && Patterns[i] == Prefix(lit);
    assert Matches(Patterns[i], LowerString(text));
  }

  /** The verdict does not depend on the case of the title. */
  lemma IsNonProductIgnoresCase(text: string)
    ensures IsNonProduct(LowerString(text)) == IsNonProduct(text)
  {
    LowerStringIdempotent(text);
  }
}
