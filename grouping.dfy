/**
 * Thousands grouping of a run of characters, independent of the regex:
 * GroupSpec says where the spaces go (before index i of an n-character run
 * exactly when i > 0 and n - i is a multiple of three), and Group builds
 * the same string recursively, three characters at a time from the right.
 */
module Grouping {
  import opened Decimal
  import opened Text

  /** The grouped form of d from index i on. */
  function GroupSpecFrom(d: string, i: nat): string
    requires i <= |d|
    decreases |d| - i
  {
    if i == |d| then []
    else (if i > 0 && (|d| - i) % 3 == 0 then " " else "") + [d[i]] + GroupSpecFrom(d, i + 1)
  }

  /** d with ' ' inserted before index i whenever i > 0 and (|d| - i) % 3 == 0. */
  function GroupSpec(d: string): string {
    GroupSpecFrom(d, 0)
  }

  /** Grouping from the right: the last three characters form a group, the rest is grouped recursively. */
  function Group(d: string): string
    decreases |d|
  {
    if |d| <= 3 then d else Group(d[..|d| - 3]) + " " + d[|d| - 3..]
  }

  /** Fewer than three characters after index i > 0: nothing is inserted from i on. */
  lemma {:induction false} GroupSpecShortTail(d: string, i: nat)
    requires 0 < i <= |d| && |d| - i < 3
    ensures GroupSpecFrom(d, i) == d[i..]
    decreases |d| - i
  {
    if i < |d| {
      GroupSpecShortTail(d, i + 1);
      assert d[i..] == [d[i]] + d[i + 1..];
    }
  }

  /** The last group of three is preceded by one space. */
  lemma GroupSpecLastGroup(a: string, b: string)
    requires |a| >= 1 && |b| == 3
    ensures GroupSpecFrom(a + b, |a|) == " " + b
  {
    var d, i := a + b, |a|;
    GroupSpecShortTail(d, i + 1);
    assert GroupSpecFrom(d, i) == " " + [d[i]] + GroupSpecFrom(d, i + 1);
    assert d[i + 1..] == b[1..];
    assert [d[i]] + b[1..] == b;
  }

  /** Concatenation regrouped to the left. */
  lemma Regroup(w: string, x: string, y: string, z: string)
    ensures w + (x + y + z) == w + x + y + z
  {
  }

  /** Before the appended group, a + b has its separators where a has them. */
  lemma GroupSpecAppendStep(a: string, b: string, i: nat)
    requires |b| == 3 && i < |a|
    ensures GroupSpecFrom(a + b, i)
      == (if i > 0 && (|a| - i) % 3 == 0 then " " else "") + [a[i]] + GroupSpecFrom(a + b, i + 1)
  {
    var m := |a| - i;
    assert (m + 3) % 3 == m % 3;
    assert (a + b)[i] == a[i];
  }

  /** Appending a group of three to a non-empty a adds one space and the group, and changes nothing before. */
  lemma {:induction false} GroupSpecAppend(a: string, b: string, i: nat)
    requires |a| >= 1 && |b| == 3 && i <= |a|
    ensures GroupSpecFrom(a + b, i) == GroupSpecFrom(a, i) + " " + b
    decreases |a| - i
  {
    var d := a + b;
    if i == |a| {
      GroupSpecLastGroup(a, b);
      assert GroupSpecFrom(a, i) == [];
    } else {
      var sep := if i > 0 && (|a| - i) % 3 == 0 then " " else "";
      var tail := GroupSpecFrom(a, i + 1);
      GroupSpecAppendStep(a, b, i);
      GroupSpecAppend(a, b, i + 1);
      assert GroupSpecFrom(a, i) == sep + [a[i]] + tail;
      Regroup(sep + [a[i]], tail, " ", b);
    }
  }

  /** The recursive grouping puts the spaces exactly where the specification says. */
  lemma {:induction false} GroupIsGroupSpec(d: string)
    ensures Group(d) == GroupSpec(d)
    decreases |d|
  {
    if |d| == 0 {
    } else if |d| <= 3 {
      GroupSpecShortTail(d, 1);
      assert d == [d[0]] + d[1..];
    } else {
      var a, b := d[..|d| - 3], d[|d| - 3..];
      GroupIsGroupSpec(a);
      GroupSpecAppend(a, b, 0);
      assert a + b == d;
    }
  }

  /** Once spaces are ignored, the grouped form is the run itself. */
  lemma {:induction false} GroupRemoveSpaces(d: string)
    ensures RemoveSpaces(Group(d)) == RemoveSpaces(d)
    decreases |d|
  {
    if |d| > 3 {
      var a, b := d[..|d| - 3], d[|d| - 3..];
      var ga := Group(a);
      assert Group(d) == ga + " " + b;
      GroupRemoveSpaces(a);
      RemoveSpacesAroundSpace(ga, b);
      RemoveSpacesConcat(a, b);
      assert a + b == d;
    }
  }

  /** A run of n >= 1 characters with no space in it receives (n - 1) / 3 spaces. */
  lemma {:induction false} GroupCountSpaces(d: string)
    requires |d| >= 1 && ' ' !in d
    ensures CountSpaces(Group(d)) == (|d| - 1) / 3
    decreases |d|
  {
    if |d| <= 3 {
      CountSpacesZero(d);
    } else {
      var a, b := d[..|d| - 3], d[|d| - 3..];
      assert ' ' !in a && ' ' !in b by {
        assert forall c :: c in a || c in b ==> c in d;
      }
      var ga := Group(a);
      assert Group(d) == ga + " " + b;
      GroupCountSpaces(a);
      CountSpacesZero(b);
      CountSpacesConcat(ga + " ", b);
      CountSpacesConcat(ga, " ");
      assert CountSpaces(" ") == 1;
    }
  }

  /**
   * Splitting the grouped form of a space-free run on spaces gives a first
   * group of one to three characters and then groups of exactly three.
   */
  lemma {:induction false} GroupSplit(d: string)
    requires |d| >= 1 && ' ' !in d
    ensures var g := Split(Group(d));
      && 1 <= |g[0]| <= 3
      && (forall j :: 1 <= j < |g| ==> |g[j]| == 3)
    decreases |d|
  {
    if |d| <= 3 {
      SplitNoSpace(d);
    } else {
      var a, b := d[..|d| - 3], d[|d| - 3..];
      assert ' ' !in a && ' ' !in b by {
        assert forall c :: c in a || c in b ==> c in d;
      }
      var ga := Group(a);
      assert Group(d) == ga + [' '] + b;
      GroupSplit(a);
      SplitNoSpace(b);
      SplitAtSpace(ga, b);
    }
  }

  /** Every character of a grouped digit string is a digit or a space. */
  predicate DigitsAndSpaces(r: string) {
    forall i :: 0 <= i < |r| ==> IsDigit(r[i]) || r[i] == ' '
  }

  /** Every space stands between two digits. */
  predicate SpacesBetweenDigits(r: string) {
    forall i :: 0 <= i < |r| && r[i] == ' ' ==> 0 < i < |r| - 1 && IsDigit(r[i - 1]) && IsDigit(r[i + 1])
  }

  /**
   * Grouping a non-empty digit string yields digits and spaces only, the
   * first and last characters are digits, and every space has a digit on
   * each side (so no space leads, trails or follows another).
   */
  lemma {:induction false} GroupShape(d: string)
    requires |d| >= 1 && AllDigits(d)
    ensures var r := Group(d);
      && |r| >= 1 && IsDigit(r[0]) && IsDigit(r[|r| - 1])
      && DigitsAndSpaces(r) && SpacesBetweenDigits(r)
    decreases |d|
  {
    if |d| > 3 {
      var a, b := d[..|d| - 3], d[|d| - 3..];
      assert AllDigits(a);
      assert IsDigit(b[0]) && IsDigit(b[1]) && IsDigit(b[2]) by {
        assert b[0] == d[|d| - 3] && b[1] == d[|d| - 2] && b[2] == d[|d| - 1];
      }
      GroupShape(a);
      var ga := Group(a);
      var r := ga + " " + b;
      assert r == Group(d);
      assert |r| == |ga| + 4;
      forall i | 0 <= i < |r|
        ensures IsDigit(r[i]) || r[i] == ' '
        ensures r[i] == ' ' ==> 0 < i < |r| - 1 && IsDigit(r[i - 1]) && IsDigit(r[i + 1])
      {
        if i < |ga| {
          assert r[i] == ga[i];
          if ga[i] == ' ' {
            assert r[i - 1] == ga[i - 1] && r[i + 1] == ga[i + 1];
          }
        } else if i == |ga| {
          assert r[i - 1] == ga[|ga| - 1] && r[i + 1] == b[0];
        } else {
          assert r[i] == b[i - |ga| - 1];
        }
      }
      assert r[0] == ga[0] && r[|r| - 1] == b[2];
    }
  }
}
