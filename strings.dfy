/**
 * Strings as sequences of characters: the ordering of `String.compareTo` on
 * UTF-16 code units, the sorting that `Collections.sort` performs on lists of
 * names, and the single-character `String.split` used to read a bounding box.
 */
module Strings {

  /**
   * The UTF-16 code units Java stores for one character: the character itself
   * when it lies in the Basic Multilingual Plane, otherwise a high surrogate
   * (0xD800-0xDBFF) followed by a low surrogate (0xDC00-0xDFFF).
   */
  function CodeUnits(c: char): (r: seq<int>)
    ensures 1 <= |r| <= 2
    ensures |r| == 2 <==> 0xD800 <= r[0] < 0xDC00
    ensures |r| == 2 ==> 0xDC00 <= r[1] < 0xE000
    ensures forall k :: 0 <= k < |r| ==> 0 <= r[k] < 0x1_0000
  {
    if c as int < 0x1_0000 then [c as int]
    else
      var v := c as int - 0x1_0000;
      [0xD800 + v / 0x400, 0xDC00 + v % 0x400]
  }

  /** The character a well-formed unit sequence of one character stands for. */
  lemma CodeUnitsDecode(c: char)
    ensures |CodeUnits(c)| == 1 ==> c as int == CodeUnits(c)[0]
    ensures |CodeUnits(c)| == 2 ==>
      c as int == 0x1_0000 + (CodeUnits(c)[0] - 0xD800) * 0x400 + (CodeUnits(c)[1] - 0xDC00)
  {
  }

  /** Different characters have different code units. */
  lemma CodeUnitsInjective(c: char, d: char)
    requires CodeUnits(c) == CodeUnits(d)
    ensures c == d
  {
    CodeUnitsDecode(c);
    CodeUnitsDecode(d);
    assert c as int == d as int;
  }

  /** A string as the UTF-16 code units `String.compareTo` compares. */
  function Utf16(s: string): (r: seq<int>)
    ensures |r| >= |s|
    decreases |s|
  {
    if |s| == 0 then [] else CodeUnits(s[0]) + Utf16(s[1..])
  }

  /** Different strings have different code unit sequences. */
  lemma {:induction false} Utf16Injective(a: string, b: string)
    requires Utf16(a) == Utf16(b)
    ensures a == b
    decreases |a|
  {
    if |a| > 0 && |b| > 0 {
      var ua, ub := CodeUnits(a[0]), CodeUnits(b[0]);
      assert Utf16(a) == ua + Utf16(a[1..]);
      assert Utf16(b) == ub + Utf16(b[1..]);
      assert ua[0] == Utf16(a)[0] == ub[0];
      assert |ua| == |ub|;
      assert ua == Utf16(a)[..|ua|] == ub;
      CodeUnitsInjective(a[0], b[0]);
      assert Utf16(a[1..]) == Utf16(a)[|ua|..] == Utf16(b[1..]);
      Utf16Injective(a[1..], b[1..]);
      assert a == [a[0]] + a[1..] && b == [b[0]] + b[1..];
    }
  }

  /** Lexicographic order on code units, a proper prefix first. */
  predicate UnitsLess(a: seq<int>, b: seq<int>)
    decreases |a|
  {
    if |a| == 0 then |b| > 0
    else if |b| == 0 then false
    else if a[0] != b[0] then a[0] < b[0]
    else UnitsLess(a[1..], b[1..])
  }

  /**
   * `a.compareTo(b) < 0`: the first differing UTF-16 code unit decides, and a
   * proper prefix sorts first. This is code-point order except where a character
   * above U+FFFF meets one in U+E000-U+FFFF (see `SurrogatesBeforeUpperBmp`).
   */
  predicate LexLess(a: string, b: string)
  {
    UnitsLess(Utf16(a), Utf16(b))
  }

  lemma {:induction false} UnitsLessIrreflexive(a: seq<int>)
    ensures !UnitsLess(a, a)
    decreases |a|
  {
    if |a| > 0 {
      UnitsLessIrreflexive(a[1..]);
    }
  }

  lemma {:induction false} UnitsLessTransitive(a: seq<int>, b: seq<int>, c: seq<int>)
    requires UnitsLess(a, b) && UnitsLess(b, c)
    ensures UnitsLess(a, c)
    decreases |a|
  {
    if |a| > 0 && a[0] == b[0] && b[0] == c[0] {
      UnitsLessTransitive(a[1..], b[1..], c[1..]);
    }
  }

  lemma {:induction false} UnitsLessTotal(a: seq<int>, b: seq<int>)
    requires a != b
    ensures UnitsLess(a, b) || UnitsLess(b, a)
    decreases |a|
  {
    if |a| > 0 && |b| > 0 && a[0] == b[0] {
      assert a == [a[0]] + a[1..] && b == [b[0]] + b[1..];
      UnitsLessTotal(a[1..], b[1..]);
    }
  }

  lemma LexLessIrreflexive(a: string)
    ensures !LexLess(a, a)
  {
    UnitsLessIrreflexive(Utf16(a));
  }

  lemma LexLessTransitive(a: string, b: string, c: string)
    requires LexLess(a, b) && LexLess(b, c)
    ensures LexLess(a, c)
  {
    UnitsLessTransitive(Utf16(a), Utf16(b), Utf16(c));
  }

  lemma LexLessTotal(a: string, b: string)
    requires a != b
    ensures LexLess(a, b) || LexLess(b, a)
  {
    if Utf16(a) == Utf16(b) {
      Utf16Injective(a, b);
    }
    UnitsLessTotal(Utf16(a), Utf16(b));
  }

  lemma LexLessAsymmetric(a: string, b: string)
    requires LexLess(a, b)
    ensures !LexLess(b, a)
  {
    if LexLess(b, a) {
      LexLessTransitive(a, b, a);
      LexLessIrreflexive(a);
    }
  }

  /**
   * Where `compareTo` departs from code-point order: a character above U+FFFF
   * starts with a surrogate, so it sorts before any character in U+E000-U+FFFF
   * although its code point is larger.
   */
  lemma SurrogatesBeforeUpperBmp(c: char, d: char)
    requires c as int >= 0x1_0000 && 0xE000 <= d as int < 0x1_0000
    ensures LexLess([c], [d]) && c as int > d as int
  {
    assert Utf16([c]) == CodeUnits(c);
    assert Utf16([d]) == CodeUnits(d);
  }

  /** Strictly ascending, hence without duplicates. */
  predicate StrictlySorted(s: seq<string>)
  {
    forall i, j :: 0 <= i < j < |s| ==> LexLess(s[i], s[j])
  }

  /** Inserts `x` at its place in a strictly sorted list that does not hold it yet. */
  function InsertSorted(s: seq<string>, x: string): (r: seq<string>)
    requires StrictlySorted(s) && x !in s
    ensures StrictlySorted(r)
    ensures forall y :: y in r <==> y in s || y == x
    ensures |r| == |s| + 1
    decreases |s|
  {
    if s == [] then [x]
    else if LexLess(x, s[0]) then
      assert forall j :: 0 < j < |s| ==> LexLess(x, s[j]) by {
        forall j | 0 < j < |s| ensures LexLess(x, s[j]) {
          LexLessTransitive(x, s[0], s[j]);
        }
      }
      [x] + s
    else
      LexLessTotal(x, s[0]);
      var rest := InsertSorted(s[1..], x);
      assert forall y :: y in rest ==> LexLess(s[0], y);
      [s[0]] + rest
  }

  /**
   * The names of `names` in ascending order, each once: what copying a set into a
   * list and calling `Collections.sort` on it yields.
   */
  method SortNames(names: set<string>) returns (r: seq<string>)
    ensures StrictlySorted(r)
    ensures forall y :: y in r <==> y in names
    ensures |r| == |names|
  {
    r := [];
    var todo := names;
    while todo != {}
      invariant StrictlySorted(r)
      invariant todo <= names
      invariant forall y :: y in r <==> y in names && y !in todo
      invariant |r| + |todo| == |names|
      decreases |todo|
    {
      var x :| x in todo;
      r := InsertSorted(r, x);
      todo := todo - {x};
    }
  }

  /** The pieces of `s` between occurrences of `sep`, empty pieces included. */
  function Pieces(s: string, sep: char): (r: seq<string>)
    ensures |r| >= 1
    ensures forall k :: 0 <= k < |r| ==> sep !in r[k]
    decreases |s|
  {
    if |s| == 0 then [""]
    else
      var rest := Pieces(s[1..], sep);
      if s[0] == sep then [""] + rest
      else [[s[0]] + rest[0]] + rest[1..]
  }

  /** Drops the empty strings at the end of a list. */
  function DropTrailingEmpty(s: seq<string>): (r: seq<string>)
    ensures |r| <= |s| && r == s[..|r|]
    ensures r == [] || r[|r| - 1] != ""
    ensures forall k :: |r| <= k < |s| ==> s[k] == ""
    decreases |s|
  {
    if s == [] then []
    else if s[|s| - 1] == "" then DropTrailingEmpty(s[..|s| - 1])
    else s
  }

  /**
   * `s.split(sep)` for a separator that is a single ordinary character: the whole
   * string when the separator does not occur, else the pieces with trailing empty
   * pieces removed.
   */
  function JavaSplit(s: string, sep: char): seq<string>
  {
    if sep !in s then [s] else DropTrailingEmpty(Pieces(s, sep))
  }

  /** The fields joined with `sep` between consecutive ones. */
  function Join(fields: seq<string>, sep: char): string
    requires |fields| >= 1
    decreases |fields|
  {
    if |fields| == 1 then fields[0]
    else fields[0] + [sep] + Join(fields[1..], sep)
  }

  lemma {:induction false} PiecesAppend(a: string, sep: char, rest: string)
    requires sep !in a
    ensures Pieces(a + [sep] + rest, sep) == [a] + Pieces(rest, sep)
    decreases |a|
  {
    if |a| == 0 {
      assert a + [sep] + rest == [sep] + rest;
      assert ([sep] + rest)[1..] == rest;
    } else {
      assert (a + [sep] + rest)[1..] == a[1..] + [sep] + rest;
      PiecesAppend(a[1..], sep, rest);
      assert [a[0]] + a[1..] == a;
    }
  }

  lemma {:induction false} PiecesOfFree(a: string, sep: char)
    requires sep !in a
    ensures Pieces(a, sep) == [a]
    decreases |a|
  {
    if |a| > 0 {
      PiecesOfFree(a[1..], sep);
      assert [a[0]] + a[1..] == a;
    }
  }

  /** Splitting recovers the joined pieces, empty ones included. */
  lemma {:induction false} PiecesJoin(fields: seq<string>, sep: char)
    requires |fields| >= 1
    requires forall k :: 0 <= k < |fields| ==> sep !in fields[k]
    ensures Pieces(Join(fields, sep), sep) == fields
    decreases |fields|
  {
    if |fields| == 1 {
      PiecesOfFree(fields[0], sep);
    } else {
      PiecesJoin(fields[1..], sep);
      PiecesAppend(fields[0], sep, Join(fields[1..], sep));
      assert [fields[0]] + fields[1..] == fields;
    }
  }

  /**
   * Round trip of `split`: joining fields that hold no separator and splitting the
   * result gives the fields back, provided the last one is not empty (split drops
   * trailing empty fields) or there is only one.
   */
  lemma SplitJoin(fields: seq<string>, sep: char)
    requires |fields| >= 1
    requires forall k :: 0 <= k < |fields| ==> sep !in fields[k]
    requires |fields| == 1 || fields[|fields| - 1] != ""
    ensures JavaSplit(Join(fields, sep), sep) == fields
  {
    PiecesJoin(fields, sep);
    if |fields| == 1 {
      PiecesOfFree(fields[0], sep);
    } else {
      assert Join(fields, sep) == fields[0] + [sep] + Join(fields[1..], sep);
      assert sep in Join(fields, sep) by {
        assert Join(fields, sep)[|fields[0]|] == sep;
      }
    }
  }
}
