# formatPrice: a verified model of the price thousands separator

The product-catalogue site renders prices with `formatPrice` (script.js:6-8).
It converts the price with `toString` and then replaces every (empty) match of
the regular expression `\B(?=(\d{3})+(?!\d))` with a space. The effect is a
space before every group of three digits counted from the right, so `1234567`
becomes `"1 234 567"`.

This project models that function for integer prices, in five modules:

- `Text` (text.dfy): string helpers for stating the results. `RemoveSpaces`
  deletes spaces, `CountSpaces` counts them, and `Split` splits on `" "` the
  way JavaScript's `split(" ")` does.
- `Decimal` (decimal.dfy): `toString` of an integer. `Digits` gives the decimal
  digits of a natural number with no leading zero. `ToString` adds `'-'` in
  front of a negative number. `Value` and `Parse` read a numeral back.
  `Value` and `Digits` are proved inverse in both directions on canonical
  numerals. `Parse` recovers x from `ToString(x)` (`ParseToString`), and
  `ToString(Parse(s)) == s` for every numeral `Parse` accepts (`ToStringParse`).
  `Parse` accepts a canonical numeral, or `'-'` followed by a canonical numeral
  other than "0", so "-0" is not a numeral.
- `PriceRegex` (regex.dfy): the global replacement, modelled on any string and
  with the regex semantics written out.
  - `\B` holds where the characters on both sides are of the same kind, word
    (`[A-Za-z0-9_]`) or non-word. Outside the string counts as non-word.
  - The lookahead `(?=(\d{3})+(?!\d))` holds when some repetition count k ≥ 1
    works (`LookaheadHolds`). This is proved equivalent to a decidable test:
    the digit run from that position has a length that is a positive multiple
    of three (`Lookahead`).
  - Every position where the empty pattern matches gets a `" "` inserted
    (`ReplaceFrom`, `ReplaceAll`).
- `Grouping` (grouping.dfy): grouping stated on its own terms.
  - `GroupSpec` inserts `' '` before index i of an n-character run exactly when
    i > 0 and (n − i) % 3 == 0.
  - `Group` builds the same string recursively, three characters at a time
    from the right.
- `PriceFormat` (format_price.dfy): `FormatPrice(price) ==
  ReplaceAll(ToString(price))`, modelled exactly as the source writes it.
  It is proved equal to the sign followed by `Group` of the digits, and the
  properties below are proved from that.

## Model

| member | source | states |
|---|---|---|
| `Decimal.Digits` | script.js:7 | `toString` of a non-negative integer is a canonical numeral: one or more digits, with a leading '0' only for the number 0 |
| `Decimal.ToString` | script.js:7 | `toString` of an integer: a canonical numeral, preceded by '-' exactly when the value is negative; it contains only digits and that leading '-' |
| `Decimal.ValueOfDigits` | script.js:7 | the rendered digits denote the price: `Value(Digits(n)) == n` |
| `Decimal.DigitsOfValue` | script.js:7 | every canonical numeral is the rendering of its value: `Digits(Value(s)) == s` |
| `Decimal.DigitsLength` | script.js:7 | n has at most k ≥ 1 digits exactly when n < 10^k |
| `Decimal.ParseToString` | script.js:7 | the rendering of an integer determines it: parsing `ToString(x)` gives x back |
| `Decimal.ToStringParse` | script.js:7 | every numeral `Parse` accepts (canonical, optionally after a '-' that is not followed by "0") is the rendering of the integer it denotes: `ToString(Parse(s)) == s` |
| `PriceRegex.IsWordBoundary` | script.js:7 | `\b` between s[p-1] and s[p]; in front of a digit it holds exactly at the start of the string or after a non-word character |
| `PriceRegex.DigitRun` | script.js:7 | the measured run is the maximal run of `\d` from a position: all digits, followed by the end of the string or a non-digit |
| `PriceRegex.LookaheadHolds` | script.js:7 | the lookahead `(?=(\d{3})+(?!\d))` as the regex defines it (some repetition count k ≥ 1 works); when it holds, at least three digits follow the position |
| `PriceRegex.LookaheadCorrect` | script.js:7 | the lookahead `(?=(\d{3})+(?!\d))` holds for some repetition count exactly when the digit run from that position is a positive multiple of three |
| `PriceRegex.MatchInside` | script.js:7 | `\B(?=(\d{3})+(?!\d))` matches only strictly inside the string, right after a word character and right before a digit |
| `PriceRegex.ReplaceFromEndsWithLast` | script.js:7 | the global replacement from a position inside the string is non-empty and ends with the input's last character; from the end it outputs nothing, since the pattern cannot match there |
| `PriceRegex.ReplaceAll` | script.js:7 | the global `replace(..., " ")` with the pattern: the output equals the input once spaces are ignored, and it begins with the input's first and ends with its last character, so no space is inserted at either end |
| `PriceRegex.MatchesInDigits` | script.js:7 | inside a digit run, a position after the run's first digit matches exactly when it is not the end and the digits after it are a multiple of three |
| `PriceRegex.ReplaceOnlyInsertsSpaces` | script.js:7 | from any position, the replacement's output equals the rest of the input once spaces are ignored |
| `Grouping.GroupSpecLastGroup` | script.js:7 | after a non-empty run, a final group of three characters is preceded by exactly one space |
| `Grouping.GroupSpecAppend` | script.js:7 | appending three characters to a non-empty run adds exactly one space before them and changes nothing earlier |
| `Grouping.GroupIsGroupSpec` | script.js:7 | grouping from the right puts spaces exactly before the indices i > 0 with (n − i) % 3 == 0 |
| `Grouping.GroupRemoveSpaces` | script.js:7 | the grouped form equals the input run once spaces are ignored |
| `Grouping.GroupCountSpaces` | script.js:7 | a run of n ≥ 1 space-free characters receives exactly (n − 1) / 3 spaces |
| `Grouping.GroupSplit` | script.js:7 | split on spaces, a grouped run gives a first piece of 1 to 3 characters and then pieces of exactly 3 |
| `Grouping.GroupShape` | script.js:7 | a grouped non-empty digit string holds only digits and spaces, begins and ends with a digit, and has a digit on both sides of every space |
| `PriceFormat.FormatPrice` | script.js:6-8 | `formatPrice(price)` as written, the global replacement applied to `price.toString()`; deleting every space from the output gives back exactly `price.toString()` |
| `PriceFormat.ReplaceDigits` | script.js:7 | on a string of digits the regex replacement equals the grouping specification |
| `PriceFormat.ReplaceSignedDigits` | script.js:7 | after a leading '-', the regex inserts nothing before the first digit (a word boundary) and groups the digits |
| `PriceFormat.FormatPriceIsGrouping` | script.js:6-8 | `formatPrice(price)` is the sign followed by the right-to-left three-digit grouping of the digits of the magnitude |
| `PriceFormat.ToStringHasNoSpace` | script.js:7 | `price.toString()` of an integer contains no space |
| `PriceFormat.FormatPriceUnchanged` | script.js:6-8 | the output equals `price.toString()` exactly when −1000 < price < 1000, i.e. the magnitude has at most three digits |
| `PriceFormat.FormatPriceCountSpaces` | script.js:6-8 | a price whose magnitude has n digits gets exactly (n − 1) / 3 spaces |
| `PriceFormat.SignedCountSpaces` | script.js:7 | the '-' sign adds no space: a sign followed by the grouped form of n ≥ 1 space-free characters has (n − 1) / 3 spaces |
| `PriceFormat.FormatPriceSplit` | script.js:6-8 | for a non-negative price, splitting the output on spaces gives a first group of 1 to 3 digits and then groups of exactly 3 |
| `PriceFormat.FormatPriceNegative` | script.js:6-8 | a negative price is rendered as '-' directly followed by the rendering of its magnitude, with no space after the sign |
| `PriceFormat.SpacesBetweenDigitsNoStray` | script.js:7 | if every space stands between two digits, no space leads, trails or follows another space |
| `PriceFormat.SignedShape` | script.js:7 | a '-' in front of a grouped digit string keeps every space between two digits |
| `PriceFormat.FormatPriceShape` | script.js:6-8 | the output holds only digits and spaces, plus a '-' at the front exactly for a negative price. It neither starts nor ends with a space, never has two adjacent spaces, and every space stands between two digits |
| `PriceFormat.FormatPriceExample` | script.js:6-8 | `formatPrice(1234567) == "1 234 567"` |

## Left out

- Non-integer prices are not modelled. JavaScript's `toString` of a float can
  give a fractional part or exponent notation. The same regex then also groups
  fractional digits: "1234.5678" becomes "1 234.5 678". `PriceRegex.ReplaceAll`
  is defined on any string, but the properties are proved only for integer
  renderings.
- Integers outside the range where JavaScript's `toString` prints the exact
  decimal value are not modelled. Beyond 2^53 a Number may not hold the
  integer exactly, and from 10^21 on the rendering switches to exponent
  notation. The model renders every Dafny `int` exactly in decimal. `-0` is
  not represented; it renders as "0".
- Non-numeric arguments are not modelled as prices. For a string argument,
  `toString` is the identity and the result is `PriceRegex.ReplaceAll` of that
  string.
- The rest of script.js is page glue and is not modelled:
  - page initialisation and button hover animation (script.js:11-36);
  - the `addToCart` stub, which logs and alerts (script.js:39-46);
  - `getQueryParam`, a wrapper around the browser's URL parser (script.js:49-52);
  - `saveToStorage`, `getFromStorage` and `isLocalStorageSupported`: browser
    localStorage and JSON I/O (script.js:55-91);
  - `generateId`, which uses the clock and randomness (script.js:77-79);
  - `showNotification` and the injected animation styles: DOM and timers
    (script.js:94-130);
  - the CommonJS export block (script.js:133-142).
- script.js has no product-sorting routine, so none is modelled.
