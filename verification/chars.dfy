/** Absent values: Python's `None` and a DOM node that `find` did not locate. */
module Optional {

  datatype Option<+T> = None | Some(value: T) {

    /** The value, or `default` when there is none. */
    function GetOr(default: T): T {
      match this
      case Some(v) => v
      case None => default
    }
  }
}

/**
 * Character classes of Python's `re` module and `str` methods, as the
 * scraper's patterns use them on `str` (Unicode) values.
 */
module Chars {

  /** Python's `\s` and `str.isspace()`: the Unicode whitespace characters. */
  predicate IsSpace(c: char) {
    || ('\t' <= c <= '\r')
    || ('\U{1C}' <= c <= '\U{1F}')
    || c == ' '
    || c == '\U{85}'
    || c == '\U{A0}'
    || c == '\U{1680}'
    || ('\U{2000}' <= c <= '\U{200A}')
    || c == '\U{2028}'
    || c == '\U{2029}'
    || c == '\U{202F}'
    || c == '\U{205F}'
    || c == '\U{3000}'
  }

  /** Python's `\d`, restricted to the ASCII digits. */
  predicate IsDigit(c: char) {
    '0' <= c <= '9'
  }

  function DigitValue(c: char): (d: nat)
    requires IsDigit(c)
    ensures d < 10
  {
    (c as int) - ('0' as int)
  }

  predicate IsUpper(c: char) {
    || ('A' <= c <= 'Z')
    || ('\U{C0}' <= c <= '\U{DE}' && c != '\U{D7}')
    || ('\U{400}' <= c <= '\U{42F}')
  }

  /**
   * The small letters whose capitals `IsUpper` lists: `a`-`z`, the Latin-1
   * small letters `à`-`þ` without the division sign, and `а`-`џ`.
   */
  predicate IsSmall(c: char) {
    || ('a' <= c <= 'z')
    || ('\U{E0}' <= c <= '\U{FE}' && c != '\U{F7}')
    || ('\U{430}' <= c <= '\U{45F}')
  }

  /**
   * `str.lower()` on one character: Latin capitals (ASCII and Latin-1) and
   * the capitals of the basic Cyrillic block map to their small letters;
   * every other character is left alone.
   */
  function Lower(c: char): (l: char)
    ensures !IsUpper(l)
    ensures IsUpper(c) ==> IsSmall(l)
    ensures !IsUpper(c) ==> l == c
    ensures IsSpace(l) == IsSpace(c)
    ensures IsDigit(l) == IsDigit(c)
    ensures (l == '\n') == (c == '\n')
  {
    if '\U{400}' <= c <= '\U{40F}' then (c as int + 80) as char
    else if IsUpper(c) then (c as int + 32) as char
    else c
  }

  /**
   * `str.upper()` on the small letters `IsSmall` lists, written from the
   * other side of the case tables: each becomes its own capital, and
   * lower-casing that capital gives the letter back. It is the reference
   * that pins which small letter `Lower` picks.
   */
  function Upper(c: char): (u: char)
    ensures IsSmall(c) ==> IsUpper(u) && Lower(u) == c
    ensures !IsSmall(c) ==> u == c
  {
    if '\U{450}' <= c <= '\U{45F}' then (c as int - 80) as char
    else if IsSmall(c) then (c as int - 32) as char
    else c
  }

  /** Each capital and its small letter are paired both ways. */
  lemma LowerUpperInverse(c: char)
    ensures IsUpper(c) ==> IsSmall(Lower(c)) && Upper(Lower(c)) == c
    ensures IsSmall(c) ==> IsUpper(Upper(c)) && Lower(Upper(c)) == c
  {
  }

  /**
   * `str.lower()` on a string, character by character: no capital is left,
   * and every character that is not a capital stays where it was.
   */
  function LowerString(s: string): (r: string)
    ensures |r| == |s|
    ensures forall i :: 0 <= i < |r| ==> !IsUpper(r[i])
    ensures forall i :: 0 <= i < |s| && !IsUpper(s[i]) ==> r[i] == s[i]
    ensures forall i :: 0 <= i < |s| ==> r[i] == Lower(s[i])
  {
    seq(|s|, i requires 0 <= i < |s| => Lower(s[i]))
  }

  /** In a lower-cased string, each capital has become the small letter whose capital it is. */
  lemma LowerStringPairs(s: string)
    ensures forall i :: 0 <= i < |s| && IsUpper(s[i]) ==>
              IsSmall(LowerString(s)[i]) && Upper(LowerString(s)[i]) == s[i]
  {
    forall i | 0 <= i < |s| && IsUpper(s[i])
      ensures IsSmall(LowerString(s)[i]) && Upper(LowerString(s)[i]) == s[i]
    {
      LowerUpperInverse(s[i]);
    }
  }

  /** Lower-casing twice is lower-casing once. */
  lemma LowerStringIdempotent(s: string)
    ensures LowerString(LowerString(s)) == LowerString(s)
  {
  }

  /** The classes a regex run (`\s*`, `\d+`) ranges over. */
  datatype CharClass = Space | Digit

  predicate In(k: CharClass, c: char) {
    match k
    case Space => IsSpace(c)
    case Digit => IsDigit(c)
  }

  /** Every character of `s[i..j]` is in `k`. */
  predicate AllIn(k: CharClass, s: string, i: nat, j: nat)
    requires i <= j <= |s|
  {
    forall p :: i <= p < j ==> In(k, s[p])
  }

  /**
   * Where the longest run of `k`-characters that starts at position `i`
   * ends: the position a greedy `\s*` or `\d*` reaches.
   */
  function RunEnd(k: CharClass, s: string, i: nat): (j: nat)
    requires i <= |s|
    ensures i <= j <= |s|
    ensures AllIn(k, s, i, j)
    ensures j < |s| ==> !In(k, s[j])
    decreases |s| - i
  {
    if i < |s| && In(k, s[i]) then RunEnd(k, s, i + 1) else i
  }

  /** The run stops at or before the first character outside `k`. */
  lemma {:induction false} RunStopsAt(k: CharClass, s: string, i: nat, p: nat)
    requires i <= p < |s| && !In(k, s[p])
    ensures RunEnd(k, s, i) <= p
    decreases p - i
  {
    if i < p && In(k, s[i]) {
      RunStopsAt(k, s, i + 1, p);
    }
  }

  /** No stretch of `k`-characters from `i` reaches past the run. */
  lemma {:induction false} RunCovers(k: CharClass, s: string, i: nat, m: nat)
    requires i <= m <= |s|
    requires AllIn(k, s, i, m)
    ensures m <= RunEnd(k, s, i)
    decreases m - i
  {
    if i < m {
      assert In(k, s[i]);
      RunCovers(k, s, i + 1, m);
    }
  }

  /** A stretch of `k`-characters followed by a character outside `k` (or the end) is the run. */
  lemma RunUnique(k: CharClass, s: string, i: nat, j: nat)
    requires i <= j <= |s|
    requires AllIn(k, s, i, j)
    requires j < |s| ==> !In(k, s[j])
    ensures RunEnd(k, s, i) == j
  {
    RunCovers(k, s, i, j);
    if j < |s| {
      RunStopsAt(k, s, i, j);
    }
  }

  lemma AllInSlice(k: CharClass, s: string, i: nat, j: nat)
    requires i <= j <= |s|
    requires AllIn(k, s, i, j)
    ensures AllIn(k, s[i..j], 0, j - i)
  {
    forall p | 0 <= p < j - i
      ensures In(k, s[i..j][p])
    {
      assert s[i..j][p] == s[i + p];
    }
  }

  /** The literal `lit` occurs in `s` at position `i`. */
  predicate LiteralAt(s: string, i: nat, lit: string) {
    i + |lit| <= |s| && s[i..i + |lit|] == lit
  }
}
