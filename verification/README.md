# BILLA brochure scraper: product extraction, modelled in Dafny

`billa_scraper.py` scrapes the weekly offers page of the BILLA supermarket.
Each `div.product` container on the page holds a title (`div.actualProduct`),
an optional discount badge (`div.discount`), an old-price section (the div
styled `width:21%`) and a new-price section (the div styled `width:15%`). The
scraper turns each container into one product record or skips it:

- **Name cleaning** (`clean_product_name`). The title loses its price tokens
  (`2.49 лв.`, `1.27 €`) and the `цена -` label. Whitespace runs become one
  space and the ends are trimmed. A result of three characters or fewer is
  rejected.
- **Non-product filter** (`is_non_product`). Banners, headers and footers
  are recognised by eleven regexes over the lower-cased title.
- **Prices** (`extract_prices_from_container`). The old section's first span
  is the old price. Its second span, if there is one, is the new price;
  otherwise the new section's first span is. The badge's `-NN%` is the
  discount.
- **Loop** (`extract_products`). A container is kept when its cleaned title
  survives both filters and at least one price was found. A container whose
  price text is not a number raises, and the exception handler skips it.

The project has these modules:

| file | module | contents |
|---|---|---|
| chars.dfy | `Optional`, `Chars` | `Option`; Python's `\s`, `\d` and `lower()`; greedy runs (`RunEnd`) with their uniqueness lemmas |
| name_cleaning.dfy | `NameCleaning` | the two deletions, whitespace collapsing, `strip()` and the length gate |
| non_product.dfy | `NonProduct` | the pattern list, a greedy matcher, and its agreement with the regexes' backtracking reading |
| prices.dfy | `PriceSlots` | the container abstraction, the discount search and the price slots |
| extraction.dfy | `Extraction` | the per-container verdict and the loop |
| scenarios.dfy | `Scenarios` | concrete inputs at the patterns' edges |

Each function of the scraper has one model function, which the lemmas in
the table below are about:

| source function | model |
|---|---|
| `clean_product_name` (billa_scraper.py:76-82) | `NameCleaning.CleanProductName`, built from `NameCleaning.Delete` (the two deletions), `NameCleaning.Collapse` over `NameCleaning.CollapseFrom` (`\s+` to one space), `NameCleaning.Strip` and `NameCleaning.Normalized` |
| `is_non_product` (billa_scraper.py:84-104) | `NonProduct.IsNonProduct`, over `Chars.LowerString` and `Chars.Lower` |
| `extract_prices_from_container` (billa_scraper.py:106-139) | `PriceSlots.ExtractPrices`, with `PriceSlots.DiscountAt`, `PriceSlots.SearchDiscount` and `PriceSlots.DiscountOf` for the badge |
| `extract_products` (billa_scraper.py:40-74) | `Extraction.Accept` per container and `Extraction.ExtractProducts` for the loop |

The price token, the label, the eleven non-product patterns and the
discount pattern each have two definitions: an executable greedy matcher,
and the regex's own existential reading ("some split of the text into the
pattern's pieces exists"). Lemmas prove the two agree. For `re.sub` the
matcher is the leftmost scan. The lemmas show it finds exactly the matches
the regex defines (a unique one for the price token, the longest one for the
label), that it drops each match whole, and that it copies the text between
matches unchanged. The whitespace collapse `\s+` is pinned differently: a
maximal whitespace run between two pieces becomes one space, and
single-spaced text is left alone.

## Model

| member | source | states |
|---|---|---|
| Chars.RunEnd | billa_scraper.py:79-81 | a greedy `\s*`/`\d*` run: everything it covers is in the class, and the character after it is not |
| Chars.RunUnique | billa_scraper.py:79-81 | any stretch of class characters followed by a non-class character (or the end) is exactly the greedy run |
| Chars.Lower | billa_scraper.py:100 | one character's `lower()`: a capital becomes a small letter, anything else is kept, and whitespace, digits and `\n` keep their class |
| Chars.Upper | billa_scraper.py:100 | the case tables read from the small-letter side: each modelled small letter has a capital that `lower()` sends back to it |
| Chars.LowerString | billa_scraper.py:100 | `text.lower()` keeps the length, leaves no capital, and keeps every character that is not a capital |
| Chars.LowerStringPairs | billa_scraper.py:100 | in the lower-cased text each capital has become the small letter whose capital it is |
| Chars.LowerStringIdempotent | billa_scraper.py:100 | lower-casing twice equals lower-casing once |
| NameCleaning.PriceTokenEndCorrect | billa_scraper.py:79 | the scanner reports a price-token match ending at `e` exactly when `s[i..e]` splits as digits, `.`, digits, whitespace, then `лв.` or `€` |
| NameCleaning.LabelEndCorrect | billa_scraper.py:80 | the label scanner matches exactly where `цена` occurs (in any case), and it ends at the longest match `цена\s*-?\s*` allows |
| NameCleaning.Sub | billa_scraper.py:79-80 | `re.sub(..., '', s)` never lengthens the text and only deletes characters: the result is a subsequence of the input, so the kept characters stay in their order |
| NameCleaning.DeletesPriceToken | billa_scraper.py:79 | a price token at the scan position is dropped whole, and scanning resumes after it |
| NameCleaning.DeletesLabel | billa_scraper.py:80 | the longest label match `цена\s*-?\s*` at the scan position is dropped whole, and scanning resumes after it |
| NameCleaning.SubKeepsUnmatched | billa_scraper.py:79-80 | where no match starts anywhere in `s[i..p]`, the substitution copies that stretch unchanged and goes on at `p` |
| NameCleaning.PriceTokenDeletedInPlace | billa_scraper.py:79 | with no price token before position `p` and one at `s[p..e]`, the first substitution is the text before `p` followed by the substitution from `e` on |
| NameCleaning.LabelDeletedInPlace | billa_scraper.py:80 | with no `цена` before position `p` and the longest label match at `s[p..e]`, the second substitution is the text before `p` followed by the substitution from `e` on |
| NameCleaning.NoPriceTokenUnchanged | billa_scraper.py:79 | text with no price token passes the first substitution unchanged |
| NameCleaning.NoLabelUnchanged | billa_scraper.py:80 | text with no `цена` passes the second substitution unchanged |
| NameCleaning.CollapseFromShape | billa_scraper.py:81 | `re.sub(r'\s+', ' ', s)` produces text whose whitespace is single plain spaces, and keeps every other character in order |
| NameCleaning.CollapseSeparates | billa_scraper.py:81 | a maximal whitespace run between two pieces of text becomes exactly one space, and the pieces are collapsed on their own, so words are never glued together |
| NameCleaning.Collapse | billa_scraper.py:81 | the collapse of the whole text is single-spaced, keeps the non-whitespace characters unchanged and is never longer |
| NameCleaning.CollapseSingleSpaced | billa_scraper.py:81 | already single-spaced text is left unchanged by the collapse |
| NameCleaning.Strip | billa_scraper.py:81 | `strip()` returns a slice of its input that neither begins nor ends with whitespace |
| NameCleaning.StripKeepsNonSpace | billa_scraper.py:81 | stripping removes only whitespace |
| NameCleaning.StripWellSpaced | billa_scraper.py:81 | stripping text with no leading or trailing whitespace changes nothing |
| NameCleaning.NonSpaceAppend | billa_scraper.py:81 | dropping whitespace distributes over concatenation |
| NameCleaning.Normalized | billa_scraper.py:79-81 | the cleaned text has no leading, trailing or doubled whitespace, all of it single spaces, is no longer than the input, and keeps the non-whitespace characters of the text after deletion |
| NameCleaning.NormalizedJoinsWords | billa_scraper.py:81 | two clean words with any whitespace between them come out of the normalisation joined by exactly one space |
| NameCleaning.CleanProductName | billa_scraper.py:76-82 | `None` exactly when three characters or fewer remain after normalisation; otherwise the name is that normalised text, longer than 3, no longer than the input and well spaced |
| NameCleaning.CleanKeepsCleanTitle | billa_scraper.py:76-82 | a title that is well spaced, longer than 3, and free of price tokens and of `цена` comes back unchanged |
| NonProduct.AnyMatch | billa_scraper.py:101-104 | the loop returns true exactly when some pattern of the list matches |
| NonProduct.OnLineFromCorrect | billa_scraper.py:87 | `.*tail` matches exactly when `tail` occurs later with no line break before it |
| NonProduct.FindFromCorrect | billa_scraper.py:94 | the unanchored search finds the literal exactly when it occurs somewhere |
| NonProduct.CountThenCorrect | billa_scraper.py:88 | the greedy reading of `^\d+\s*години` agrees with the backtracking one |
| NonProduct.PrefixCountThenCorrect | billa_scraper.py:90 | the greedy reading of `^над\s*\d+\s*продукта` agrees with the backtracking one |
| NonProduct.MatchesCorrect | billa_scraper.py:86-98 | on every pattern shape used, greedy matching agrees with the regex's existential reading |
| NonProduct.IsNonProductCorrect | billa_scraper.py:84-104 | `is_non_product` is true exactly when one of the eleven regexes matches the lower-cased text, and false when none does |
| NonProduct.SiteAddressIsNonProduct | billa_scraper.py:94 | any text containing `www.billa.bg` (in any case) is a non-product |
| NonProduct.BannerPrefixIsNonProduct | billa_scraper.py:86-98 | any text whose lower-cased form starts with a listed prefix is a non-product |
| NonProduct.IsNonProductIgnoresCase | billa_scraper.py:100-102 | the verdict is the same for a title and its lower-cased form |
| PriceSlots.DigitsValue | billa_scraper.py:116 | `int()` of `n` digits is below `10^n`, and one digit reads as its own value |
| PriceSlots.DigitsValueSplit | billa_scraper.py:116 | `int()` reads digits positionally: the high digits are shifted past the low ones and the two values added |
| PriceSlots.DigitsValueLeadingZero | billa_scraper.py:116 | `int()` ignores a leading zero |
| PriceSlots.DiscountAtCorrect | billa_scraper.py:114 | the matcher at a position agrees with `-\s*(\d+)%` read as a split into dash, whitespace, digits and `%`, and its value is the captured digits' |
| PriceSlots.SearchDiscount | billa_scraper.py:114 | `re.search` reports no match exactly when no position matches, and otherwise the leftmost matching position |
| PriceSlots.DiscountOf | billa_scraper.py:110-116 | no badge means no discount; with a badge, the discount is set exactly when the pattern matches, to the value of its leftmost match |
| PriceSlots.DiscountOfCorrect | billa_scraper.py:110-116 | with a badge, the discount is unset exactly when no part of the text reads as `-\s*(\d+)%`, and otherwise it is the value of the digits of such a match |
| PriceSlots.OldPriceSlot | billa_scraper.py:119-124 | the old price is set exactly when the old section has a span, and it is that first span's value |
| PriceSlots.NewPriceSlot | billa_scraper.py:126-137 | with two or more old spans the new price is the second old span; otherwise it is set exactly when the new section has a span, and is that span's value |
| PriceSlots.DiscountSlot | billa_scraper.py:108-116 | the discount slot is the badge's discount, whatever the price sections hold |
| PriceSlots.RaisesIffConversionFails | billa_scraper.py:119-137 | the container raises exactly when one of the spans it hands to `float` fails to parse |
| PriceSlots.NewSectionUnread | billa_scraper.py:128-132 | with two old spans, replacing the new section changes nothing, so it is never consulted |
| PriceSlots.MissingOldSectionIsEmpty | billa_scraper.py:119-122 | a missing old section and one without spans give the same result |
| Extraction.Accept | billa_scraper.py:42-72 | a kept container yields a record whose name is its cleaned title (longer than 3, well spaced, not a non-product), whose prices are the container's with at least one set, and whose currency is `лв.`; a raising container is skipped |
| Extraction.AcceptIff | billa_scraper.py:48-60 | a container is kept exactly when its title cleans to a name that is not a non-product and its prices convert with one of them set; the `strip()` re-check never rejects |
| Extraction.Kept | billa_scraper.py:40-72 | the records that survive are drawn from the verdicts, and no verdict means no record |
| Extraction.KeptAppend | billa_scraper.py:40-72 | keeping distributes over concatenation |
| Extraction.ExtractProducts | billa_scraper.py:40-74 | every emitted record satisfies the record invariants and comes from one of the containers; there are never more records than containers |
| Extraction.ExtractProductsAppend | billa_scraper.py:40-74 | records keep container order: the result for `a + b` is the result for `a` followed by the result for `b` |
| Extraction.ExtractProductsSingle | billa_scraper.py:40-72 | one container yields its record or nothing |
| Extraction.SkippedLeavesNoTrace | billa_scraper.py:44-55 | a skipped container can be removed from the input without changing the output |
| Extraction.ConversionFailureSkipped | billa_scraper.py:70-72 | a container whose price conversion raises is skipped and the loop continues |
| Extraction.AcceptedInPlace | billa_scraper.py:60-68 | a kept container's record sits between the records of the containers before and after it |
| Extraction.ExtractProductsStep | billa_scraper.py:40-72 | one more container appends its record, if kept, to the records so far |
| Extraction.ExtractProductsLoop | billa_scraper.py:40-74 | the imperative loop computes the same list, and every element satisfies the record invariants |
| Scenarios.DiscountWithSpace | billa_scraper.py:114 | `- 25%` gives discount 25 |
| Scenarios.DiscountSpaceBeforePercent | billa_scraper.py:114 | `-25 %` gives no discount |
| Scenarios.ValidityBanner | billa_scraper.py:89 | `Валидност: 01.09` is a non-product |
| Scenarios.CapitalLabelLowered | billa_scraper.py:80 | `ЦЕНА` lower-cases to `цена`, so the label is found in capitals |
| Scenarios.BreadTitleCleaned | billa_scraper.py:76-82 | `Хляб 2.49 лв.` cleans to `Хляб`: the price goes, the word stays, and the space before the price is trimmed |

## Left out

- Fetching the page, `scrape`, `main`, `save_to_json` and `debug_html_structure` are I/O and are not modelled.
- BeautifulSoup is abstracted. Each container is modelled as the `get_text(strip=True)` texts of the elements the scraper looks up, and the tree search itself is not modelled.
- `float()` is an opaque parameter `parse: string -> Option<P>`. `None` stands for its `ValueError`; other exceptions are not modelled.
- The `extracted_at` timestamp (`datetime.now()`) is a clock reading and is not part of the record.
- The `print` in the exception handler is output only and is not modelled.
- `\d` is ASCII `0`-`9` only. Python also accepts other Unicode decimal digits, and the model does not.
- `str.lower()` is modelled for ASCII, Latin-1 and basic Cyrillic capitals only. Other scripts are left unchanged.
- The extra case equivalences of `re.IGNORECASE` beyond `lower()` (such as the Cyrillic `в` and its historic variant U+1C80) are not modelled. The same applies to `is_non_product`, where the pattern search repeats an already lower-cased text with that flag.
- NameCleaning.CleanProductName: the contract does not claim idempotence, and the cleaner is not idempotent. Deleting a price token can join neighbouring text into a new one: `1.2 3.4лв.лв.` becomes `1.2 лв.`.
- PriceSlots.DiscountOf: the limit on converting long digit strings is not modelled. On CPython 3.11 and later, `int()` at billa_scraper.py:116 raises `ValueError` for more than 4300 digits by default, and the handler then skips the container. The model reads any number of digits and keeps such a container. The limit depends on the interpreter version and on `sys.set_int_max_str_digits`.
