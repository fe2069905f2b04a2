/**
 * String helpers used to state what formatPrice does to its text:
 * deleting the spaces again, counting them, and splitting on them
 * (the way JavaScript's `String.prototype.split(" ")` does).
 */
module Text {

  /** The string with every ' ' deleted. */
  function RemoveSpaces(s: string): (r: string)
    ensures |r| + CountSpaces(s) == |s|
    decreases |s|
  {
    if |s| == 0 then []
    else (if s[0] == ' ' then [] else [s[0]]) + RemoveSpaces(s[1..])
  }

  /** The number of ' ' characters in s. */
  function CountSpaces(s: string): (n: nat)
    ensures n <= |s|
    decreases |s|
  {
    if |s| == 0 then 0
    else (if s[0] == ' ' then 1 else 0) + CountSpaces(s[1..])
  }

  /**
   * The pieces between the spaces of s, in order; like `s.split(" ")`,
   * two adjacent spaces or a space at either end give an empty piece.
   */
  function Split(s: string): (pieces: seq<string>)
    ensures |pieces| == CountSpaces(s) + 1
    decreases |s|
  {
    if |s| == 0 then [[]]
    else
      var rest := Split(s[1..]);
      if s[0] == ' ' then [[]] + rest
      else [[s[0]] + rest[0]] + rest[1..]
  }

  /** Deleting spaces from a string that has none changes nothing. */
  lemma {:induction false} RemoveSpacesNoSpace(s: string)
    requires ' ' !in s
    ensures RemoveSpaces(s) == s
    decreases |s|
  {
    if |s| > 0 {
      assert ' ' !in s[1..] by {
        assert forall c :: c in s[1..] ==> c in s;
      }
      RemoveSpacesNoSpace(s[1..]);
      assert s == [s[0]] + s[1..];
    }
  }

  /** There are no spaces to count exactly when s contains no space. */
  lemma {:induction false} CountSpacesZero(s: string)
    ensures CountSpaces(s) == 0 <==> ' ' !in s
    decreases |s|
  {
    if |s| > 0 {
      CountSpacesZero(s[1..]);
      assert s == [s[0]] + s[1..];
    }
  }

  /** A string without spaces is a single piece. */
  lemma {:induction false} SplitNoSpace(s: string)
    requires ' ' !in s
    ensures Split(s) == [s]
    decreases |s|
  {
    if |s| > 0 {
      assert ' ' !in s[1..] by {
        assert forall c :: c in s[1..] ==> c in s;
      }
      SplitNoSpace(s[1..]);
      assert s == [s[0]] + s[1..];
    }
  }

  lemma {:induction false} RemoveSpacesConcat(a: string, b: string)
    ensures RemoveSpaces(a + b) == RemoveSpaces(a) + RemoveSpaces(b)
    decreases |a|
  {
    if |a| > 0 {
      assert (a + b)[1..] == a[1..] + b;
      RemoveSpacesConcat(a[1..], b);
    } else {
      assert a + b == b;
    }
  }

  lemma {:induction false} CountSpacesConcat(a: string, b: string)
    ensures CountSpaces(a + b) == CountSpaces(a) + CountSpaces(b)
    decreases |a|
  {
    if |a| > 0 {
      assert (a + b)[1..] == a[1..] + b;
      CountSpacesConcat(a[1..], b);
    } else {
      assert a + b == b;
    }
  }

  /** Splitting at a space splits the two sides independently. */
  lemma {:induction false} SplitAtSpace(a: string, b: string)
    ensures Split(a + [' '] + b) == Split(a) + Split(b)
    decreases |a|
  {
    if |a| == 0 {
      assert a + [' '] + b == [' '] + b;
      assert ([' '] + b)[1..] == b;
    } else {
      assert (a + [' '] + b)[1..] == a[1..] + [' '] + b;
      SplitAtSpace(a[1..], b);
    }
  }

  /** Deleting spaces from two strings joined by a space deletes that space too. */
  lemma RemoveSpacesAroundSpace(a: string, b: string)
    ensures RemoveSpaces(a + " " + b) == RemoveSpaces(a) + RemoveSpaces(b)
  {
    var sp := " ";
    assert RemoveSpaces(sp) == [] by {
      assert sp[1..] == [];
    }
    RemoveSpacesConcat(a, sp);
    RemoveSpacesConcat(a + sp, b);
  }

  /** Inserting spaceless text and one character in front keeps two strings equal up to spaces. */
  lemma RemoveSpacesInsert(sep: string, c: char, rest: string, tail: string)
    requires RemoveSpaces(sep) == [] && RemoveSpaces(rest) == RemoveSpaces(tail)
    ensures RemoveSpaces(sep + [c] + rest) == RemoveSpaces([c] + tail)
  {
    RemoveSpacesConcat(sep + [c], rest);
    RemoveSpacesConcat(sep, [c]);
    RemoveSpacesConcat([c], tail);
  }
}
