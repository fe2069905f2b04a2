/**
 * The global replacement of script.js:7, which puts " " at every match of
 * the pattern `\B(?=(\d{3})+(?!\d))`, on an arbitrary string s, following
 * ECMAScript regular-expression semantics:
 *   - `\B` holds at a position that is not a word boundary, where the
 *     word characters are [A-Za-z0-9_] and the outside of the string
 *     counts as a non-word character;
 *   - `(?=(\d{3})+(?!\d))` holds at a position p when, for some number
 *     k >= 1 of repetitions, the 3k characters from p are digits and no
 *     digit follows them (backtracking tries every k);
 *   - the pattern consumes nothing, so with the `g` flag every position
 *     0..|s| where it holds is a match, and `replace` inserts " " there.
 */
module PriceRegex {
  import opened Decimal
  import opened Text

  predicate IsWordChar(c: char) {
    IsDigit(c) || 'a' <= c <= 'z' || 'A' <= c <= 'Z' || c == '_'
  }

  /** `\b` at position p (between s[p-1] and s[p]). */
  predicate IsWordBoundary(s: string, p: nat): (b: bool)
    requires p <= |s|
    ensures p < |s| && IsDigit(s[p]) ==> (b <==> p == 0 || !IsWordChar(s[p - 1]))
  {
    (p > 0 && IsWordChar(s[p - 1])) != (p < |s| && IsWordChar(s[p]))
  }

  /** The length of the run of digits that starts at position p. */
  function DigitRun(s: string, p: nat): (r: nat)
    requires p <= |s|
    ensures p + r <= |s|
    ensures forall i :: p <= i < p + r ==> IsDigit(s[i])
    ensures p + r == |s| || !IsDigit(s[p + r])
    decreases |s| - p
  {
    if p < |s| && IsDigit(s[p]) then 1 + DigitRun(s, p + 1) else 0
  }

  /** `(\d{3}){k}(?!\d)` matches at p: exactly k groups of three digits, then no digit. */
  predicate LookaheadWith(s: string, p: nat, k: nat)
    requires p <= |s|
  {
    1 <= k && p + 3 * k <= |s|
    && (forall i :: p <= i < p + 3 * k ==> IsDigit(s[i]))
    && (p + 3 * k == |s| || !IsDigit(s[p + 3 * k]))
  }

  /** The lookahead `(?=(\d{3})+(?!\d))` as the regex defines it: some repetition count works. */
  ghost predicate LookaheadHolds(s: string, p: nat): (h: bool)
    requires p <= |s|
    ensures h ==> p + 3 <= |s| && IsDigit(s[p]) && IsDigit(s[p + 1]) && IsDigit(s[p + 2])
  {
    exists k: nat :: LookaheadWith(s, p, k)
  }

  /** The same lookahead decided on the digit run: its length is a positive multiple of three. */
  predicate Lookahead(s: string, p: nat)
    requires p <= |s|
  {
    var r := DigitRun(s, p);
    r > 0 && r % 3 == 0
  }

  /** The whole pattern matches (empty) at position p. */
  predicate Matches(s: string, p: nat)
    requires p <= |s|
  {
    !IsWordBoundary(s, p) && Lookahead(s, p)
  }

  /** The output of the replacement for the suffix of s from position p. */
  function ReplaceFrom(s: string, p: nat): string
    requires p <= |s|
    decreases |s| - p
  {
    var sep := if Matches(s, p) then " " else "";
    if p == |s| then sep else sep + [s[p]] + ReplaceFrom(s, p + 1)
  }

  /**
   * The string after the global replacement of script.js:7. Ignoring spaces
   * it is the input, and it begins and ends with the input's first and last
   * characters: no space is ever inserted at either end.
   */
  function ReplaceAll(s: string): (r: string)
    ensures RemoveSpaces(r) == RemoveSpaces(s)
    ensures |s| > 0 ==> |r| > 0 && r[0] == s[0] && r[|r| - 1] == s[|s| - 1]
  {
    ReplaceOnlyInsertsSpaces(s, 0);
    assert s[0..] == s;
    if |s| > 0 then
      ReplaceFromEndsWithLast(s, 1);
      MatchInside(s, 0);
      [s[0]] + ReplaceFrom(s, 1)
    else
      []
  }

  /** A match always lies strictly inside the string, after a word character and before a digit. */
  lemma MatchInside(s: string, p: nat)
    requires p <= |s|
    ensures Matches(s, p) ==> 0 < p < |s| && IsWordChar(s[p - 1]) && IsDigit(s[p])
  {
  }

  /** A digit run that stops at p + m has length m. */
  lemma {:induction false} DigitRunExact(s: string, p: nat, m: nat)
    requires p + m <= |s|
    requires forall i :: p <= i < p + m ==> IsDigit(s[i])
    requires p + m == |s| || !IsDigit(s[p + m])
    ensures DigitRun(s, p) == m
    decreases m
  {
    if m > 0 {
      DigitRunExact(s, p + 1, m - 1);
    }
  }

  /** Deciding the lookahead on the digit run agrees with the regex semantics. */
  lemma {:induction false} LookaheadCorrect(s: string, p: nat)
    requires p <= |s|
    ensures Lookahead(s, p) <==> LookaheadHolds(s, p)
  {
    var r := DigitRun(s, p);
    if Lookahead(s, p) {
      assert LookaheadWith(s, p, r / 3);
    }
    if LookaheadHolds(s, p) {
      var k: nat :| LookaheadWith(s, p, k);
      DigitRunExact(s, p, 3 * k);
    }
  }

  /**
   * The replacement from a position inside the string is non-empty and ends
   * with the input's last character: no space is inserted at the end.
   */
  lemma {:induction false} ReplaceFromEndsWithLast(s: string, p: nat)
    requires p <= |s|
    ensures p == |s| ==> ReplaceFrom(s, p) == []
    ensures p < |s| ==> |ReplaceFrom(s, p)| > 0 && ReplaceFrom(s, p)[|ReplaceFrom(s, p)| - 1] == s[|s| - 1]
    decreases |s| - p
  {
    if p < |s| {
      ReplaceFromEndsWithLast(s, p + 1);
    }
  }

  /** From any position, the replacement equals the rest of the input once spaces are ignored. */
  lemma {:induction false} ReplaceOnlyInsertsSpaces(s: string, p: nat)
    requires p <= |s|
    ensures RemoveSpaces(ReplaceFrom(s, p)) == RemoveSpaces(s[p..])
    decreases |s| - p
  {
    if p == |s| {
      assert ReplaceFrom(s, p) == [];
      assert s[p..] == [];
    } else {
      var sep, rest := (if Matches(s, p) then " " else ""), ReplaceFrom(s, p + 1);
      assert ReplaceFrom(s, p) == sep + [s[p]] + rest;
      assert RemoveSpaces(sep) == [];
      ReplaceOnlyInsertsSpaces(s, p + 1);
      RemoveSpacesInsert(sep, s[p], rest, s[p + 1..]);
      assert [s[p]] + s[p + 1..] == s[p..];
    }
  }

  /**
   * Inside a run of digits that begins at q, a position p > q is a match
   * exactly when it is not the end and the number of digits after it is a
   * multiple of three.
   */
  lemma MatchesInDigits(s: string, q: nat, p: nat)
    requires q < p <= |s|
    requires forall i :: q <= i < |s| ==> IsDigit(s[i])
    ensures Matches(s, p) <==> p < |s| && (|s| - p) % 3 == 0
  {
    DigitRunExact(s, p, |s| - p);
  }
}
