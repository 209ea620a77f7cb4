/**
 * `BillaScraper.clean_product_name`: the product title loses its price
 * tokens (`12.99 лв.`, `6.64 €`) and its `цена -` label, whitespace runs
 * become one space, the ends are trimmed, and a title of three characters
 * or fewer is rejected.
 */
module NameCleaning {
  import opened Optional
  import opened Chars

  /** The two patterns the cleaner deletes with `re.sub(pattern, '', text)`. */
  datatype Token =
    | PriceToken   // \d+\.\d+\s*(лв\.|€)
    | PriceLabel   // цена\s*-?\s*   (ignoring case)

  const Label: string := "цена"

  /** The currency `(лв\.|€)` occupies `s[k..e]`. */
  predicate UnitAt(s: string, k: nat, e: nat) {
    || (LiteralAt(s, k, "лв.") && e == k + 3)
    || (LiteralAt(s, k, "€") && e == k + 1)
  }

  /** Where the currency alternative that starts at `k` ends, trying `лв.` first as the regex does. */
  function UnitEnd(s: string, k: nat): (r: Option<nat>)
    ensures r.Some? ==> UnitAt(s, k, r.value)
    ensures forall e: nat :: UnitAt(s, k, e) ==> r == Some(e)
  {
    if LiteralAt(s, k, "лв.") then
      assert s[k..k + 3][0] == s[k];
      assert !LiteralAt(s, k, "€") by {
        assert k < |s| && s[k] != '€';
        assert s[k..k + 1][0] == s[k];
      }
      Some(k + 3)
    else if LiteralAt(s, k, "€") then Some(k + 1)
    else None
  }

  /**
   * Where the match of `\d+\.\d+\s*(лв\.|€)` that starts at position `i`
   * ends, if there is one. Each run is taken whole: the regex can never
   * end a run early, because the next piece starts with a character outside
   * the run's class.
   */
  function PriceTokenEnd(s: string, i: nat): (r: Option<nat>)
    requires i <= |s|
    ensures r.Some? ==> i < r.value <= |s|
  {
    var a := RunEnd(Digit, s, i);
    if a == i || a == |s| || s[a] != '.' then None
    else
      var b := RunEnd(Digit, s, a + 1);
      if b == a + 1 then None
      else UnitEnd(s, RunEnd(Space, s, b))
  }

  /** The word `цена`, in any case, starts at position `i`. */
  predicate LabelWordAt(s: string, i: nat) {
    i + 4 <= |s| && LowerString(s[i..i + 4]) == Label
  }

  /**
   * Where the match of `цена\s*-?\s*` (ignoring case) that starts at `i`
   * ends: the word, the whitespace after it, then at most one dash and the
   * whitespace after that.
   */
  function LabelEnd(s: string, i: nat): (r: Option<nat>)
    requires i <= |s|
    ensures r.Some? <==> LabelWordAt(s, i)
    ensures r.Some? ==> i + 4 <= r.value <= |s|
  {
    if LabelWordAt(s, i) then
      var k := RunEnd(Space, s, i + 4);
      if k < |s| && s[k] == '-' then Some(RunEnd(Space, s, k + 1)) else Some(k)
    else None
  }

  function MatchEnd(t: Token, s: string, i: nat): (r: Option<nat>)
    requires i <= |s|
    ensures r.Some? ==> i < r.value <= |s|
  {
    match t
    case PriceToken => PriceTokenEnd(s, i)
    case PriceLabel => LabelEnd(s, i)
  }

  /** `r` is `s` with some characters deleted and the others kept in order. */
  predicate IsSubsequence(r: string, s: string)
    decreases |s|
  {
    || r == []
    || (&& s != []
        && ((r[0] == s[0] && IsSubsequence(r[1..], s[1..])) || IsSubsequence(r, s[1..])))
  }

  lemma {:induction false} SubsequenceAfter(r: string, x: string, y: string)
    requires IsSubsequence(r, y)
    ensures IsSubsequence(r, x + y)
    decreases |x|
  {
    if x == [] {
      assert x + y == y;
    } else if r != [] {
      assert (x + y)[1..] == x[1..] + y;
      SubsequenceAfter(r, x[1..], y);
    }
  }

  /** Deleting characters never adds one: a subsequence has no character more often than the text. */
  lemma {:induction false} SubsequenceMultiset(r: string, s: string)
    requires IsSubsequence(r, s)
    ensures multiset(r) <= multiset(s)
    decreases |s|
  {
    if r != [] {
      assert s == [s[0]] + s[1..];
      if r[0] == s[0] && IsSubsequence(r[1..], s[1..]) {
        SubsequenceMultiset(r[1..], s[1..]);
        assert r == [r[0]] + r[1..];
      } else {
        SubsequenceMultiset(r, s[1..]);
      }
    }
  }

  lemma SubsequenceCons(c: char, r: string, y: string)
    requires IsSubsequence(r, y)
    ensures IsSubsequence([c] + r, [c] + y)
  {
    assert ([c] + r)[1..] == r;
    assert ([c] + y)[1..] == y;
  }

  /**
   * `re.sub(pattern, '', s)` from position `i` on: a match starting at the
   * current position is deleted and the scan resumes after it; otherwise the
   * current character is kept and the scan moves one place on.
   */
  function Sub(t: Token, s: string, i: nat): (r: string)
    requires i <= |s|
    ensures |r| <= |s| - i
    ensures IsSubsequence(r, s[i..])
    decreases |s| - i
  {
    if i == |s| then []
    else match MatchEnd(t, s, i)
      case Some(j) =>
        assert s[i..] == s[i..j] + s[j..];
        var r := Sub(t, s, j);
        SubsequenceAfter(r, s[i..j], s[j..]);
        r
      case None =>
        assert s[i..] == [s[i]] + s[i + 1..];
        var rest := Sub(t, s, i + 1);
        SubsequenceCons(s[i], rest, s[i + 1..]);
        [s[i]] + rest
  }

  /** `re.sub(pattern, '', s)`: the characters it keeps come from `s`, in their order. */
  function Delete(t: Token, s: string): (r: string)
    ensures |r| <= |s|
    ensures multiset(r) <= multiset(s)
    ensures IsSubsequence(r, s)
  {
    assert s[0..] == s;
    SubsequenceMultiset(Sub(t, s, 0), s);
    Sub(t, s, 0)
  }

  // ---------------------------------------------------------------------
  // What the matchers match, stated as the regexes' own (backtracking)
  // reading: some split of the text into the pattern's pieces exists.
  // ---------------------------------------------------------------------

  /**
   * `s[i..e]` splits as digits `s[i..a]`, a dot, digits `s[a+1..b]`,
   * whitespace `s[b..k]` and a currency `s[k..e]`.
   */
  ghost predicate PriceTokenShape(s: string, i: nat, a: nat, b: nat, k: nat, e: nat) {
    && i < a < |s| && a + 1 < b <= k <= |s|
    && AllIn(Digit, s, i, a) && s[a] == '.'
    && AllIn(Digit, s, a + 1, b)
    && AllIn(Space, s, b, k)
    && UnitAt(s, k, e)
  }

  /** `s[i..e]` is a match of `\d+\.\d+\s*(лв\.|€)`. */
  ghost predicate IsPriceTokenAt(s: string, i: nat, e: nat) {
    exists a: nat, b: nat, k: nat :: PriceTokenShape(s, i, a, b, k, e)
  }

  /** `s[i..e]` is a match of `цена\s*-?\s*` ignoring case. */
  ghost predicate IsLabelAt(s: string, i: nat, e: nat) {
    && i + 4 <= e <= |s| && LabelWordAt(s, i)
    && exists m: nat :: i + 4 <= m <= e && AllIn(Space, s, i + 4, m)
                        && (m == e || (s[m] == '-' && AllIn(Space, s, m + 1, e)))
  }

  /** The price matcher finds exactly the price token that starts at `i`. */
  lemma PriceTokenEndCorrect(s: string, i: nat, e: nat)
    requires i <= |s|
    ensures PriceTokenEnd(s, i) == Some(e) <==> IsPriceTokenAt(s, i, e)
  {
    if PriceTokenEnd(s, i) == Some(e) {
      PriceTokenEndSound(s, i, e);
    }
    if IsPriceTokenAt(s, i, e) {
      PriceTokenEndComplete(s, i, e);
    }
  }

  lemma PriceTokenEndSound(s: string, i: nat, e: nat)
    requires i <= |s| && PriceTokenEnd(s, i) == Some(e)
    ensures IsPriceTokenAt(s, i, e)
  {
    var a := RunEnd(Digit, s, i);
    var b := RunEnd(Digit, s, a + 1);
    var k := RunEnd(Space, s, b);
    assert PriceTokenShape(s, i, a, b, k, e);
  }

  /** The currency begins with a character that is neither a digit nor whitespace. */
  lemma UnitStartsRun(s: string, k: nat, e: nat)
    requires UnitAt(s, k, e)
    ensures k < |s| && !IsDigit(s[k]) && !IsSpace(s[k])
  {
    if LiteralAt(s, k, "лв.") {
      assert s[k..k + 3][0] == s[k];
    } else {
      assert s[k..k + 1][0] == s[k];
    }
  }

  lemma PriceTokenEndComplete(s: string, i: nat, e: nat)
    requires i <= |s| && IsPriceTokenAt(s, i, e)
    ensures PriceTokenEnd(s, i) == Some(e)
  {
    var a: nat, b: nat, k: nat :| PriceTokenShape(s, i, a, b, k, e);
    // the currency ends both the fraction run and the whitespace run
    UnitStartsRun(s, k, e);
    RunUnique(Digit, s, i, a);
    RunUnique(Digit, s, a + 1, b);
    RunUnique(Space, s, b, k);
    assert UnitEnd(s, k) == Some(e);
  }

  /** The label matcher finds the longest label match at `i`, and finds one whenever there is one. */
  lemma LabelEndCorrect(s: string, i: nat)
    requires i <= |s|
    ensures LabelEnd(s, i).Some? ==> IsLabelAt(s, i, LabelEnd(s, i).value)
    ensures forall e: nat :: IsLabelAt(s, i, e) ==> LabelEnd(s, i).Some? && e <= LabelEnd(s, i).value
  {
    if LabelEnd(s, i).Some? {
      LabelEndSound(s, i);
    }
    forall e: nat | IsLabelAt(s, i, e)
      ensures LabelEnd(s, i).Some? && e <= LabelEnd(s, i).value
    {
      LabelEndLongest(s, i, e);
    }
  }

  lemma LabelEndSound(s: string, i: nat)
    requires i <= |s| && LabelWordAt(s, i)
    ensures IsLabelAt(s, i, LabelEnd(s, i).value)
  {
    var k := RunEnd(Space, s, i + 4);
    var e := LabelEnd(s, i).value;
    if k < |s| && s[k] == '-' {
      assert e == RunEnd(Space, s, k + 1);
      assert AllIn(Space, s, k + 1, e);
    } else {
      assert e == k;
    }
    assert i + 4 <= k <= e && AllIn(Space, s, i + 4, k)
           && (k == e || (s[k] == '-' && AllIn(Space, s, k + 1, e)));
  }

  lemma LabelEndLongest(s: string, i: nat, e: nat)
    requires IsLabelAt(s, i, e)
    ensures LabelEnd(s, i).Some? && e <= LabelEnd(s, i).value
  {
    var m: nat :| i + 4 <= m <= e && AllIn(Space, s, i + 4, m)
                  && (m == e || (s[m] == '-' && AllIn(Space, s, m + 1, e)));
    var k := RunEnd(Space, s, i + 4);
    // the greedy first run reaches at least as far as the match's
    RunCovers(Space, s, i + 4, m);
    if m < e {
      // the match goes on with a dash, which ends the greedy run as well
      RunStopsAt(Space, s, i + 4, m);
      assert k == m;
      RunCovers(Space, s, m + 1, e);
    }
  }

  /** A price token at `i` is deleted whole, and the scan resumes right after it. */
  lemma DeletesPriceToken(s: string, i: nat, e: nat)
    requires i < |s| && IsPriceTokenAt(s, i, e)
    ensures Sub(PriceToken, s, i) == Sub(PriceToken, s, e)
  {
    PriceTokenEndCorrect(s, i, e);
  }

  /** The longest label match at `i` is deleted whole, and the scan resumes right after it. */
  lemma DeletesLabel(s: string, i: nat, e: nat)
    requires IsLabelAt(s, i, e)
    requires forall e': nat :: IsLabelAt(s, i, e') ==> e' <= e
    ensures Sub(PriceLabel, s, i) == Sub(PriceLabel, s, e)
  {
    LabelEndCorrect(s, i);
  }

  /** A text with no price token from `i` on is left as it is. */
  lemma {:induction false} NoPriceTokenUnchanged(s: string, i: nat)
    requires i <= |s|
    requires forall p, e :: i <= p ==> !IsPriceTokenAt(s, p, e)
    ensures Sub(PriceToken, s, i) == s[i..]
    decreases |s| - i
  {
    if i < |s| {
      if PriceTokenEnd(s, i).Some? {
        PriceTokenEndCorrect(s, i, PriceTokenEnd(s, i).value);
        assert false;
      }
      NoPriceTokenUnchanged(s, i + 1);
      assert s[i..] == [s[i]] + s[i + 1..];
    }
  }

  /** A text in which `цена` does not occur from `i` on is left as it is. */
  lemma {:induction false} NoLabelUnchanged(s: string, i: nat)
    requires i <= |s|
    requires forall p :: i <= p ==> !LabelWordAt(s, p)
    ensures Sub(PriceLabel, s, i) == s[i..]
    decreases |s| - i
  {
    if i < |s| {
      assert !LabelWordAt(s, i);
      NoLabelUnchanged(s, i + 1);
      assert s[i..] == [s[i]] + s[i + 1..];
    }
  }

  /** Where no match starts, the scan keeps the character and moves on. */
  lemma SubUnfoldKeep(t: Token, s: string, i: nat)
    requires i < |s| && MatchEnd(t, s, i).None?
    ensures Sub(t, s, i) == [s[i]] + Sub(t, s, i + 1)
  {
  }

  lemma ConsThenAppend(c: char, s: string, i: nat, p: nat, rest: string)
    requires i < p <= |s| && s[i] == c
    ensures [c] + (s[i + 1..p] + rest) == s[i..p] + rest
  {
    assert s[i..p] == [s[i]] + s[i + 1..p];
  }

  /** A kept character in front of a copied stretch extends the stretch by one. */
  lemma SubKeepStep(t: Token, s: string, i: nat, p: nat)
    requires i < p <= |s| && MatchEnd(t, s, i).None?
    requires Sub(t, s, i + 1) == s[i + 1..p] + Sub(t, s, p)
    ensures Sub(t, s, i) == s[i..p] + Sub(t, s, p)
  {
    SubUnfoldKeep(t, s, i);
    ConsThenAppend(s[i], s, i, p, Sub(t, s, p));
  }

  /**
   * The text before the first match is kept as it is: when no match starts
   * anywhere in `s[i..p]`, the scan copies that stretch and goes on at `p`.
   */
  lemma {:induction false} SubKeepsUnmatched(t: Token, s: string, i: nat, p: nat)
    requires i <= p <= |s|
    requires forall q :: i <= q < p ==> MatchEnd(t, s, q).None?
    ensures Sub(t, s, i) == s[i..p] + Sub(t, s, p)
    decreases p - i
  {
    if i == p {
      assert s[i..p] == [];
    } else {
      SubKeepsUnmatched(t, s, i + 1, p);
      SubKeepStep(t, s, i, p);
    }
  }

  /**
   * The first substitution up to and through the first price token: the text
   * before the token is kept, the token `s[p..e]` is dropped, and the scan
   * goes on after it.
   */
  lemma PriceTokenDeletedInPlace(s: string, i: nat, p: nat, e: nat)
    requires i <= p < |s|
    requires forall q, e' :: i <= q < p ==> !IsPriceTokenAt(s, q, e')
    requires IsPriceTokenAt(s, p, e)
    ensures Sub(PriceToken, s, i) == s[i..p] + Sub(PriceToken, s, e)
  {
    forall q | i <= q < p
      ensures MatchEnd(PriceToken, s, q).None?
    {
      if PriceTokenEnd(s, q).Some? {
        PriceTokenEndCorrect(s, q, PriceTokenEnd(s, q).value);
      }
    }
    SubKeepsUnmatched(PriceToken, s, i, p);
    PriceTokenEndCorrect(s, p, e);
  }

  /**
   * The second substitution up to and through the first `цена`: the text
   * before it is kept, the longest label match `s[p..e]` is dropped, and the
   * scan goes on after it.
   */
  lemma LabelDeletedInPlace(s: string, i: nat, p: nat, e: nat)
    requires i <= p < |s|
    requires forall q :: i <= q < p ==> !LabelWordAt(s, q)
    requires IsLabelAt(s, p, e)
    requires forall e': nat :: IsLabelAt(s, p, e') ==> e' <= e
    ensures Sub(PriceLabel, s, i) == s[i..p] + Sub(PriceLabel, s, e)
  {
    SubKeepsUnmatched(PriceLabel, s, i, p);
    DeletesLabel(s, p, e);
  }

  // ---------------------------------------------------------------------
  // `re.sub(r'\s+', ' ', s)` and `str.strip()`
  // ---------------------------------------------------------------------

  /** The characters of `s` that are not whitespace, in order. */
  function NonSpace(s: string): (r: string)
    ensures forall i :: 0 <= i < |r| ==> !IsSpace(r[i])
  {
    if s == [] then []
    else if IsSpace(s[0]) then NonSpace(s[1..])
    else [s[0]] + NonSpace(s[1..])
  }

  lemma {:induction false} NonSpaceAppend(a: string, b: string)
    ensures NonSpace(a + b) == NonSpace(a) + NonSpace(b)
  {
    if a != [] {
      assert (a + b)[1..] == a[1..] + b;
      NonSpaceAppend(a[1..], b);
    } else {
      assert a + b == b;
    }
  }

  lemma {:induction false} NonSpaceOfSpaces(s: string)
    requires AllIn(Space, s, 0, |s|)
    ensures NonSpace(s) == []
  {
    if s != [] {
      assert AllIn(Space, s[1..], 0, |s| - 1);
      NonSpaceOfSpaces(s[1..]);
    }
  }

  /** Every whitespace character of `s` is a plain space, and no two of them are adjacent. */
  ghost predicate SingleSpaced(s: string) {
    && (forall i :: 0 <= i < |s| && IsSpace(s[i]) ==> s[i] == ' ')
    && (forall i :: 0 <= i < |s| - 1 ==> !(IsSpace(s[i]) && IsSpace(s[i + 1])))
  }

  /** `s` is single-spaced and neither begins nor ends with whitespace. */
  ghost predicate WellSpaced(s: string) {
    && SingleSpaced(s)
    && (|s| > 0 ==> !IsSpace(s[0]) && !IsSpace(s[|s| - 1]))
  }

  lemma NonSpaceCons(c: char, r: string)
    ensures NonSpace([c] + r) == if IsSpace(c) then NonSpace(r) else [c] + NonSpace(r)
  {
    assert ([c] + r)[1..] == r;
  }

  lemma SingleSpacedCons(c: char, r: string)
    requires SingleSpaced(r)
    requires IsSpace(c) ==> c == ' ' && (|r| > 0 ==> !IsSpace(r[0]))
    ensures SingleSpaced([c] + r)
  {
    var t := [c] + r;
    forall k | 0 <= k < |t| && IsSpace(t[k])
      ensures t[k] == ' '
    {
      if k > 0 {
        assert t[k] == r[k - 1];
      }
    }
    forall k | 0 <= k < |t| - 1
      ensures !(IsSpace(t[k]) && IsSpace(t[k + 1]))
    {
      assert t[k + 1] == r[k];
      if k > 0 {
        assert t[k] == r[k - 1];
      }
    }
  }

  /** A whitespace run `s[i..n]` replaced by one space in front of the collapsed rest. */
  lemma CollapseSpaceStep(s: string, i: nat, n: nat, rest: string)
    requires i < n <= |s| && AllIn(Space, s, i, n) && (n < |s| ==> !IsSpace(s[n]))
    requires SingleSpaced(rest) && NonSpace(rest) == NonSpace(s[n..])
    requires |rest| > 0 ==> n < |s| && IsSpace(rest[0]) == IsSpace(s[n])
    ensures SingleSpaced([' '] + rest)
    ensures NonSpace([' '] + rest) == NonSpace(s[i..])
  {
    assert s[i..] == s[i..n] + s[n..];
    NonSpaceAppend(s[i..n], s[n..]);
    AllInSlice(Space, s, i, n);
    NonSpaceOfSpaces(s[i..n]);
    NonSpaceCons(' ', rest);
    SingleSpacedCons(' ', rest);
  }

  /** A character that is not whitespace kept in front of the collapsed rest. */
  lemma CollapseCharStep(s: string, i: nat, rest: string)
    requires i < |s| && !IsSpace(s[i])
    requires SingleSpaced(rest) && NonSpace(rest) == NonSpace(s[i + 1..])
    ensures SingleSpaced([s[i]] + rest)
    ensures NonSpace([s[i]] + rest) == NonSpace(s[i..])
  {
    assert s[i..] == [s[i]] + s[i + 1..];
    NonSpaceCons(s[i], s[i + 1..]);
    NonSpaceCons(s[i], rest);
    SingleSpacedCons(s[i], rest);
  }

  /** `re.sub(r'\s+', ' ', s)` from position `i` on: each maximal whitespace run becomes one space. */
  function CollapseFrom(s: string, i: nat): (r: string)
    requires i <= |s|
    ensures |r| <= |s| - i
    ensures (|r| == 0) == (i == |s|)
    ensures i < |s| ==> IsSpace(r[0]) == IsSpace(s[i])
    decreases |s| - i
  {
    if i == |s| then []
    else if IsSpace(s[i]) then [' '] + CollapseFrom(s, RunEnd(Space, s, i))
    else [s[i]] + CollapseFrom(s, i + 1)
  }

  /** The collapse leaves single plain spaces only, and keeps every other character in order. */
  lemma {:induction false} CollapseFromShape(s: string, i: nat)
    requires i <= |s|
    ensures SingleSpaced(CollapseFrom(s, i))
    ensures NonSpace(CollapseFrom(s, i)) == NonSpace(s[i..])
    decreases |s| - i
  {
    if i < |s| {
      if IsSpace(s[i]) {
        var n := RunEnd(Space, s, i);
        CollapseFromShape(s, n);
        CollapseSpaceStep(s, i, n, CollapseFrom(s, n));
      } else {
        CollapseFromShape(s, i + 1);
        CollapseCharStep(s, i, CollapseFrom(s, i + 1));
      }
    }
  }

  /** `re.sub(r'\s+', ' ', s)`. */
  function Collapse(s: string): (r: string)
    ensures |r| <= |s|
    ensures SingleSpaced(r)
    ensures NonSpace(r) == NonSpace(s)
  {
    assert s[0..] == s;
    CollapseFromShape(s, 0);
    CollapseFrom(s, 0)
  }

  /** A whitespace run that starts before a non-whitespace character `s[m - 1]` is the same run in `s[..m]`. */
  lemma RunEndPrefix(s: string, i: nat, m: nat)
    requires i < m <= |s| && !IsSpace(s[m - 1])
    ensures RunEnd(Space, s[..m], i) == RunEnd(Space, s, i)
  {
    var n := RunEnd(Space, s, i);
    var t := s[..m];
    RunStopsAt(Space, s, i, m - 1);
    assert AllIn(Space, t, i, n) by {
      forall p | i <= p < n
        ensures In(Space, t[p])
      {
        assert t[p] == s[p];
      }
    }
    assert t[n] == s[n];
    RunUnique(Space, t, i, n);
  }

  /** A whitespace run in `s[k..]` is the run in `s`, shifted by `k`. */
  lemma RunEndSuffix(s: string, k: nat, j: nat)
    requires k + j <= |s|
    ensures RunEnd(Space, s, k + j) == k + RunEnd(Space, s[k..], j)
  {
    var n := RunEnd(Space, s, k + j);
    var t := s[k..];
    assert AllIn(Space, t, j, n - k) by {
      forall p | j <= p < n - k
        ensures In(Space, t[p])
      {
        assert t[p] == s[k + p];
      }
    }
    if n < |s| {
      assert t[n - k] == s[n];
    }
    RunUnique(Space, t, j, n - k);
  }

  /** One step of the collapse at a whitespace character: its whole run becomes one space. */
  lemma CollapseFromSpace(s: string, i: nat)
    requires i < |s| && IsSpace(s[i])
    ensures CollapseFrom(s, i) == [' '] + CollapseFrom(s, RunEnd(Space, s, i))
  {
  }

  /** One step of the collapse at any other character: it is kept. */
  lemma CollapseFromChar(s: string, i: nat)
    requires i < |s| && !IsSpace(s[i])
    ensures CollapseFrom(s, i) == [s[i]] + CollapseFrom(s, i + 1)
  {
  }

  lemma PrefixSpaceStep(s: string, i: nat, m: nat)
    requires i < m <= |s| && !IsSpace(s[m - 1]) && IsSpace(s[i])
    requires CollapseFrom(s, RunEnd(Space, s, i))
               == CollapseFrom(s[..m], RunEnd(Space, s, i)) + CollapseFrom(s, m)
    ensures CollapseFrom(s, i) == CollapseFrom(s[..m], i) + CollapseFrom(s, m)
  {
    assert s[..m][i] == s[i];
    RunEndPrefix(s, i, m);
    CollapseFromSpace(s, i);
    CollapseFromSpace(s[..m], i);
  }

  lemma PrefixCharStep(s: string, i: nat, m: nat)
    requires i < m <= |s| && !IsSpace(s[i])
    requires CollapseFrom(s, i + 1) == CollapseFrom(s[..m], i + 1) + CollapseFrom(s, m)
    ensures CollapseFrom(s, i) == CollapseFrom(s[..m], i) + CollapseFrom(s, m)
  {
    CharStepPair(s, s[..m], i, CollapseFrom(s, m));
  }

  /** Two texts that agree at a non-whitespace `i` take the same collapse step there. */
  lemma CharStepPair(s: string, t: string, i: nat, y: string)
    requires i < |s| && i < |t| && t[i] == s[i] && !IsSpace(s[i])
    requires CollapseFrom(s, i + 1) == CollapseFrom(t, i + 1) + y
    ensures CollapseFrom(s, i) == CollapseFrom(t, i) + y
  {
    CollapseFromChar(s, i);
    CollapseFromChar(t, i);
    var x := CollapseFrom(t, i + 1);
    assert [s[i]] + (x + y) == ([s[i]] + x) + y;
  }

  /** The collapse does not cross a non-whitespace character `s[m - 1]`. */
  lemma {:induction false} CollapseFromPrefix(s: string, i: nat, m: nat)
    requires i <= m <= |s|
    requires i < m ==> !IsSpace(s[m - 1])
    ensures CollapseFrom(s, i) == CollapseFrom(s[..m], i) + CollapseFrom(s, m)
    decreases m - i
  {
    if i == m {
      assert |s[..m]| == i;
    } else if IsSpace(s[i]) {
      RunStopsAt(Space, s, i, m - 1);
      CollapseFromPrefix(s, RunEnd(Space, s, i), m);
      PrefixSpaceStep(s, i, m);
    } else {
      CollapseFromPrefix(s, i + 1, m);
      PrefixCharStep(s, i, m);
    }
  }

  lemma SuffixSpaceStep(s: string, k: nat, j: nat)
    requires k + j < |s| && IsSpace(s[k + j])
    requires CollapseFrom(s, k + RunEnd(Space, s[k..], j)) == CollapseFrom(s[k..], RunEnd(Space, s[k..], j))
    ensures CollapseFrom(s, k + j) == CollapseFrom(s[k..], j)
  {
    assert s[k..][j] == s[k + j];
    RunEndSuffix(s, k, j);
    CollapseFromSpace(s, k + j);
    CollapseFromSpace(s[k..], j);
  }

  lemma SuffixCharStep(s: string, k: nat, j: nat)
    requires k + j < |s| && !IsSpace(s[k + j])
    requires CollapseFrom(s, k + j + 1) == CollapseFrom(s[k..], j + 1)
    ensures CollapseFrom(s, k + j) == CollapseFrom(s[k..], j)
  {
    assert s[k..][j] == s[k + j];
    CollapseFromChar(s, k + j);
    CollapseFromChar(s[k..], j);
  }

  /** Collapsing the tail of a text is collapsing that tail on its own. */
  lemma {:induction false} CollapseFromSuffix(s: string, k: nat, j: nat)
    requires k + j <= |s|
    ensures CollapseFrom(s, k + j) == CollapseFrom(s[k..], j)
    decreases |s| - k - j
  {
    if k + j == |s| {
      assert |s[k..]| == j;
    } else if IsSpace(s[k + j]) {
      assert s[k..][j] == s[k + j];
      CollapseFromSuffix(s, k, RunEnd(Space, s[k..], j));
      SuffixSpaceStep(s, k, j);
    } else {
      CollapseFromSuffix(s, k, j + 1);
      SuffixCharStep(s, k, j);
    }
  }

  /** A maximal whitespace run `s[m..n]` splits the collapse into the collapses of the text before and after it. */
  lemma CollapseAround(s: string, m: nat, n: nat)
    requires m < n <= |s|
    requires m > 0 ==> !IsSpace(s[m - 1])
    requires AllIn(Space, s, m, n)
    requires n < |s| ==> !IsSpace(s[n])
    ensures CollapseFrom(s, 0) == CollapseFrom(s[..m], 0) + [' '] + CollapseFrom(s[n..], 0)
  {
    CollapseFromPrefix(s, 0, m);
    CollapseRunThenRest(s, m, n);
  }

  /** From the start of a maximal whitespace run `s[m..n]`, the collapse is one space and then the collapsed rest. */
  lemma CollapseRunThenRest(s: string, m: nat, n: nat)
    requires m < n <= |s|
    requires AllIn(Space, s, m, n)
    requires n < |s| ==> !IsSpace(s[n])
    ensures CollapseFrom(s, m) == [' '] + CollapseFrom(s[n..], 0)
  {
    RunUnique(Space, s, m, n);
    CollapseFromSpace(s, m);
    CollapseFromSuffix(s, n, 0);
  }

  /**
   * `\s+` read as a regex: a maximal whitespace run between two pieces of
   * text becomes exactly one space, and the pieces are collapsed on their
   * own. Whitespace between two words is never deleted.
   */
  lemma CollapseSeparates(a: string, w: string, b: string)
    requires a == [] || !IsSpace(a[|a| - 1])
    requires |w| > 0 && AllIn(Space, w, 0, |w|)
    requires b == [] || !IsSpace(b[0])
    ensures Collapse(a + w + b) == Collapse(a) + " " + Collapse(b)
  {
    var s := a + w + b;
    var m, n := |a|, |a| + |w|;
    assert s[..m] == a && s[n..] == b;
    assert AllIn(Space, s, m, n) by {
      forall p | m <= p < n
        ensures In(Space, s[p])
      {
        assert s[p] == w[p - m];
      }
    }
    if n < |s| {
      assert s[n] == b[0];
    }
    if m > 0 {
      assert s[m - 1] == a[m - 1];
    }
    CollapseAround(s, m, n);
    assert s[0..] == s && a[0..] == a && b[0..] == b;
  }

  /** Where `s[i..j]` ends once its trailing whitespace is dropped. */
  function TrimEnd(s: string, i: nat, j: nat): (e: nat)
    requires i <= j <= |s|
    ensures i <= e <= j
    ensures AllIn(Space, s, e, j)
    ensures e > i ==> !IsSpace(s[e - 1])
    decreases j
  {
    if j > i && IsSpace(s[j - 1]) then TrimEnd(s, i, j - 1) else j
  }

  /** `str.strip()`: drop the whitespace at both ends. */
  function Strip(s: string): (r: string)
    ensures |r| <= |s|
    ensures |r| > 0 ==> !IsSpace(r[0]) && !IsSpace(r[|r| - 1])
    ensures exists i: nat, j: nat :: i <= j <= |s| && r == s[i..j]
                                    && AllIn(Space, s, 0, i) && AllIn(Space, s, j, |s|)
  {
    var i := RunEnd(Space, s, 0);
    var j := TrimEnd(s, i, |s|);
    assert AllIn(Space, s, j, |s|);
    s[i..j]
  }

  /** A slice of a single-spaced text is single-spaced. */
  lemma SingleSpacedSlice(s: string, i: nat, j: nat)
    requires i <= j <= |s|
    requires SingleSpaced(s)
    ensures SingleSpaced(s[i..j])
  {
    var t := s[i..j];
    forall k | 0 <= k < |t| - 1
      ensures !(IsSpace(t[k]) && IsSpace(t[k + 1]))
    {
      assert t[k] == s[i + k] && t[k + 1] == s[i + k + 1];
    }
  }

  /** Whitespace around a text does not change its non-whitespace characters. */
  lemma NonSpaceFramed(a: string, m: string, z: string)
    requires AllIn(Space, a, 0, |a|) && AllIn(Space, z, 0, |z|)
    ensures NonSpace(a + m + z) == NonSpace(m)
  {
    NonSpaceAppend(a + m, z);
    NonSpaceAppend(a, m);
    NonSpaceOfSpaces(a);
    NonSpaceOfSpaces(z);
  }

  /** Trimming keeps every character that is not whitespace, in order. */
  lemma StripKeepsNonSpace(s: string)
    ensures NonSpace(Strip(s)) == NonSpace(s)
  {
    var i: nat, j: nat :| i <= j <= |s| && Strip(s) == s[i..j]
                         && AllIn(Space, s, 0, i) && AllIn(Space, s, j, |s|);
    var a, m, z := s[..i], s[i..j], s[j..];
    assert s == a + m + z;
    assert AllIn(Space, s, 0, i) && AllIn(Space, s, j, |s|);
    assert AllIn(Space, a, 0, |a|) by {
      forall p | 0 <= p < |a|
        ensures In(Space, a[p])
      {
        assert a[p] == s[p] && In(Space, s[p]);
      }
    }
    assert AllIn(Space, z, 0, |z|) by {
      forall p | 0 <= p < |z|
        ensures In(Space, z[p])
      {
        assert z[p] == s[j + p] && In(Space, s[j + p]);
      }
    }
    NonSpaceFramed(a, m, z);
  }

  /** Collapsing a text that is already single-spaced changes nothing. */
  lemma {:induction false} CollapseSingleSpaced(s: string, i: nat)
    requires i <= |s|
    requires SingleSpaced(s)
    ensures CollapseFrom(s, i) == s[i..]
    decreases |s| - i
  {
    if i < |s| {
      if IsSpace(s[i]) {
        assert s[i] == ' ';
        RunUnique(Space, s, i, i + 1);
      }
      CollapseSingleSpaced(s, i + 1);
      assert s[i..] == [s[i]] + s[i + 1..];
    }
  }

  /** Trimming a text that neither begins nor ends with whitespace changes nothing. */
  lemma StripWellSpaced(s: string)
    requires WellSpaced(s)
    ensures Strip(s) == s
  {
    if s != [] {
      RunUnique(Space, s, 0, 0);
      assert TrimEnd(s, 0, |s|) == |s|;
    }
  }

  /** The price tokens and price label removed; whitespace not yet normalised. */
  function Unpriced(text: string): (r: string)
    ensures |r| <= |text|
  {
    Delete(PriceLabel, Delete(PriceToken, text))
  }

  /** The title after deletion, whitespace collapsing and trimming. */
  function Normalized(text: string): (r: string)
    ensures |r| <= |text|
    ensures WellSpaced(r)
    ensures NonSpace(r) == NonSpace(Unpriced(text))
  {
    var c := Collapse(Unpriced(text));
    var r := Strip(c);
    var i: nat, j: nat :| i <= j <= |c| && r == c[i..j];
    SingleSpacedSlice(c, i, j);
    StripKeepsNonSpace(c);
    r
  }

  /** Two well-spaced pieces with whitespace between them are still well spaced once joined by one space. */
  lemma WellSpacedJoin(a: string, b: string)
    requires WellSpaced(a) && a != [] && WellSpaced(b) && b != []
    ensures WellSpaced(a + " " + b)
  {
    var c := a + " " + b;
    forall k | 0 <= k < |c|
      ensures c[k] == if k < |a| then a[k] else if k == |a| then ' ' else b[k - |a| - 1]
    {
    }
  }

  /**
   * Two clean words with any whitespace between them come out of the
   * normalisation joined by exactly one space.
   */
  lemma NormalizedJoinsWords(text: string, a: string, w: string, b: string)
    requires Unpriced(text) == a + w + b
    requires WellSpaced(a) && a != [] && WellSpaced(b) && b != []
    requires |w| > 0 && AllIn(Space, w, 0, |w|)
    ensures Normalized(text) == a + " " + b
  {
    CollapseSingleSpaced(a, 0);
    CollapseSingleSpaced(b, 0);
    assert a[0..] == a && b[0..] == b;
    CollapseSeparates(a, w, b);
    WellSpacedJoin(a, b);
    StripWellSpaced(a + " " + b);
  }

  /** `clean_product_name`: the normalised title, or nothing when three characters or fewer remain. */
  function CleanProductName(text: string): (r: Option<string>)
    ensures r.Some? ==> |r.value| > 3
    ensures r.Some? ==> |r.value| <= |text|
    ensures r.Some? ==> WellSpaced(r.value)
    ensures r.Some? ==> NonSpace(r.value) == NonSpace(Unpriced(text))
    ensures r.None? <==> |Normalized(text)| <= 3
    ensures r.Some? ==> r.value == Normalized(text)
  {
    var cleaned := Normalized(text);
    if |cleaned| > 3 then Some(cleaned) else None
  }

  /** A title that is already clean (well spaced, no price token, no label) and long enough comes back unchanged. */
  lemma CleanKeepsCleanTitle(text: string)
    requires WellSpaced(text) && |text| > 3
    requires forall p, e :: !IsPriceTokenAt(text, p, e)
    requires forall p :: !LabelWordAt(text, p)
    ensures CleanProductName(text) == Some(text)
  {
    NoPriceTokenUnchanged(text, 0);
    NoLabelUnchanged(text, 0);
    CollapseSingleSpaced(text, 0);
    assert text[0..] == text;
    StripWellSpaced(text);
  }
}
