/**
 * formatPrice (script.js:6-8) for an integer price: the decimal rendering
 * of the price followed by the global regex replacement of PriceRegex.
 * It is modelled in that form and then proved to be the thousands
 * grouping: a space before every group of three digits counted from the
 * right.
 */
module PriceFormat {
  import opened Decimal
  import opened Text
  import opened PriceRegex
  import opened Grouping

  /**
   * `formatPrice(price)` for an integer price. Deleting every space from
   * the output gives back exactly `price.toString()`.
   */
  function FormatPrice(price: int): (r: string)
    ensures RemoveSpaces(r) == ToString(price)
  {
    var s := ToString(price);
    ToStringHasNoSpace(price);
    RemoveSpacesNoSpace(s);
    ReplaceAll(s)
  }

  /** The magnitude of the price, whose digits follow the sign. */
  function Magnitude(price: int): (m: nat)
    ensures m == price || m == -price
  {
    if price < 0 then -price else price
  }

  /**
   * Inside a digit run starting at q, the replacement from p > q puts the
   * spaces where the grouping specification of the run puts them.
   */
  lemma {:induction false} ReplaceFromInRun(s: string, q: nat, p: nat)
    requires q < p <= |s|
    requires forall i :: q <= i < |s| ==> IsDigit(s[i])
    ensures ReplaceFrom(s, p) == GroupSpecFrom(s[q..], p - q)
    decreases |s| - p
  {
    var d, i := s[q..], p - q;
    assert |d| - i == |s| - p;
    MatchesInDigits(s, q, p);
    if p == |s| {
      assert ReplaceFrom(s, p) == [];
    } else {
      ReplaceFromInRun(s, q, p + 1);
      var sep := if Matches(s, p) then " " else "";
      assert sep == if i > 0 && (|d| - i) % 3 == 0 then " " else "";
      assert d[i] == s[p];
      assert GroupSpecFrom(d, i) == sep + [s[p]] + GroupSpecFrom(d, i + 1);
      assert ReplaceFrom(s, p) == sep + [s[p]] + ReplaceFrom(s, p + 1);
    }
  }

  /** On a string of digits the regex replacement is the grouping specification. */
  lemma {:induction false} ReplaceDigits(d: string)
    requires AllDigits(d)
    ensures ReplaceAll(d) == GroupSpec(d)
  {
    if |d| > 0 {
      ReplaceFromInRun(d, 0, 1);
      assert d[0..] == d;
      assert ReplaceAll(d) == [d[0]] + ReplaceFrom(d, 1);
      assert GroupSpec(d) == [d[0]] + GroupSpecFrom(d, 1);
    } else {
      assert ReplaceAll(d) == [] == GroupSpec(d);
    }
  }

  /**
   * After a leading '-' the regex inserts nothing between the sign and the
   * first digit (that position is a word boundary) and groups the digits.
   */
  lemma {:induction false} ReplaceSignedDigits(d: string)
    requires |d| >= 1 && AllDigits(d)
    ensures ReplaceAll("-" + d) == "-" + GroupSpec(d)
  {
    var s := "-" + d;
    assert s[0] == '-' && s[1] == d[0] && s[1..] == d;
    assert !Matches(s, 0);
    assert !Matches(s, 1);
    ReplaceFromInRun(s, 1, 2);
    assert ReplaceFrom(s, 1) == [d[0]] + ReplaceFrom(s, 2);
    assert ReplaceFrom(s, 0) == "-" + ReplaceFrom(s, 1);
    assert GroupSpec(d) == [d[0]] + GroupSpecFrom(d, 1);
  }

  /** formatPrice is the sign followed by the right-to-left grouping of the digits. */
  lemma FormatPriceIsGrouping(price: int)
    ensures FormatPrice(price) == (if price < 0 then "-" else "") + Group(Digits(Magnitude(price)))
  {
    var d := Digits(Magnitude(price));
    GroupIsGroupSpec(d);
    if price < 0 {
      ReplaceSignedDigits(d);
    } else {
      ReplaceDigits(d);
    }
  }

  /** The rendering of an integer contains no space. */
  lemma ToStringHasNoSpace(price: int)
    ensures ' ' !in ToString(price)
  {
  }

  /** The output equals `price.toString()` exactly when the price has at most three digits. */
  lemma FormatPriceUnchanged(price: int)
    ensures FormatPrice(price) == ToString(price) <==> -1000 < price < 1000
  {
    var d := Digits(Magnitude(price));
    FormatPriceIsGrouping(price);
    DigitsLength(Magnitude(price), 3);
    assert Pow10(3) == 1000;
    if |d| > 3 {
      GroupCountSpaces(d);
      CountSpacesZero(Group(d));
      ToStringHasNoSpace(price);
      assert ' ' in Group(d);
      if price < 0 {
        assert FormatPrice(price) == "-" + Group(d);
        assert ' ' in FormatPrice(price);
      }
    }
  }

  /** A price whose magnitude has n digits gets exactly (n - 1) / 3 spaces. */
  lemma FormatPriceCountSpaces(price: int)
    ensures CountSpaces(FormatPrice(price)) == (|Digits(Magnitude(price))| - 1) / 3
  {
    var d := Digits(Magnitude(price));
    FormatPriceIsGrouping(price);
    assert ' ' !in d;
    SignedCountSpaces(if price < 0 then "-" else "", d);
  }

  /** The sign adds no space: a signed grouped run of n digits has (n - 1) / 3 spaces. */
  lemma SignedCountSpaces(sign: string, d: string)
    requires sign == "-" || sign == ""
    requires |d| >= 1 && ' ' !in d
    ensures CountSpaces(sign + Group(d)) == (|d| - 1) / 3
  {
    GroupCountSpaces(d);
    CountSpacesConcat(sign, Group(d));
    assert CountSpaces(sign) == 0 by {
      assert sign == "" || sign[1..] == [];
    }
  }

  /**
   * For a non-negative price the pieces between the spaces are a first
   * group of one to three digits followed by groups of exactly three.
   */
  lemma FormatPriceSplit(price: int)
    requires price >= 0
    ensures var g := Split(FormatPrice(price));
      && 1 <= |g[0]| <= 3
      && (forall j :: 1 <= j < |g| ==> |g[j]| == 3)
  {
    var d := Digits(price);
    FormatPriceIsGrouping(price);
    assert ' ' !in d;
    assert FormatPrice(price) == Group(d);
    GroupSplit(d);
  }

  /** A negative price is rendered as '-' directly followed by the rendering of its magnitude. */
  lemma FormatPriceNegative(price: int)
    requires price < 0
    ensures FormatPrice(price) == "-" + FormatPrice(-price)
  {
    var d := Digits(-price);
    assert ToString(price) == "-" + d && ToString(-price) == d;
    ReplaceSignedDigits(d);
    ReplaceDigits(d);
  }

  /** A string whose spaces all stand between two digits has no leading, trailing or adjacent spaces. */
  lemma SpacesBetweenDigitsNoStray(r: string)
    requires |r| >= 1 && SpacesBetweenDigits(r)
    ensures r[0] != ' ' && r[|r| - 1] != ' '
    ensures forall i :: 0 <= i < |r| - 1 ==> !(r[i] == ' ' && r[i + 1] == ' ')
  {
  }

  /** Putting '-' in front of a grouped digit string keeps every space between two digits. */
  lemma SignedShape(g: string)
    requires |g| >= 1 && IsDigit(g[0]) && DigitsAndSpaces(g) && SpacesBetweenDigits(g)
    ensures var r := "-" + g;
      && (forall i :: 0 < i < |r| ==> IsDigit(r[i]) || r[i] == ' ')
      && SpacesBetweenDigits(r)
  {
    var r := "-" + g;
    forall i | 0 < i < |r|
      ensures IsDigit(r[i]) || r[i] == ' '
      ensures r[i] == ' ' ==> 0 < i < |r| - 1 && IsDigit(r[i - 1]) && IsDigit(r[i + 1])
    {
      assert r[i] == g[i - 1];
      if g[i - 1] == ' ' {
        assert r[i - 1] == g[i - 2] && r[i + 1] == g[i];
      }
    }
  }

  /**
   * The output is digits and spaces, with a '-' only at the front and only
   * for a negative price; it does not start or end with a space, has no two
   * adjacent spaces, and every space stands between two digits.
   */
  lemma FormatPriceShape(price: int)
    ensures var r := FormatPrice(price);
      && |r| >= 1
      && (r[0] == '-' <==> price < 0)
      && (forall i :: 0 <= i < |r| ==> IsDigit(r[i]) || r[i] == ' ' || (i == 0 && r[i] == '-'))
      && r[0] != ' ' && r[|r| - 1] != ' '
      && (forall i :: 0 <= i < |r| - 1 ==> !(r[i] == ' ' && r[i + 1] == ' '))
      && SpacesBetweenDigits(r)
  {
    var d := Digits(Magnitude(price));
    var r := FormatPrice(price);
    FormatPriceIsGrouping(price);
    GroupShape(d);
    var g := Group(d);
    if price < 0 {
      assert r == "-" + g;
      SignedShape(g);
    } else {
      assert r == g;
    }
    SpacesBetweenDigitsNoStray(r);
  }

  /** The example of the thousands separator: 1234567 becomes "1 234 567". */
  lemma FormatPriceExample()
    ensures FormatPrice(1234567) == "1 234 567"
  {
    assert Digits(1234567) == "1234567" by {
      assert Digits(12) == "12";
      assert Digits(123) == "123";
      assert Digits(1234) == "1234";
      assert Digits(12345) == "12345";
      assert Digits(123456) == "123456";
    }
    assert Group("1234567") == "1 234 567" by {
      var d, e := "1234567", "1234";
      assert d[..|d| - 3] == e && d[|d| - 3..] == "567";
      assert e[..|e| - 3] == "1" && e[|e| - 3..] == "234";
      assert Group(e) == "1" + " " + "234";
      assert Group(d) == Group(e) + " " + "567";
    }
    FormatPriceIsGrouping(1234567);
  }
}
