/**
 * String primitives the bus finder uses from the Kotlin standard library,
 * modelled over ASCII: trim, lowercase, isBlank, replace, contains,
 * startsWith, split on a set of one-character delimiters, case-insensitive
 * equality and the natural (lexicographic) ordering of strings.
 */
module Text {

  /** Kotlin's Char.isWhitespace restricted to ASCII: space, tab, line feed,
      vertical tab, form feed, carriage return and the four separators 28..31. */
  predicate IsWhitespace(c: char) {
    c == ' ' || (9 <= c as int <= 13) || (28 <= c as int <= 31)
  }

  /** String.isBlank: empty or whitespace only. */
  predicate IsBlank(s: string) {
    forall i :: 0 <= i < |s| ==> IsWhitespace(s[i])
  }

  function LowerChar(c: char): (r: char)
    ensures 'A' <= c <= 'Z' ==> r as int == c as int + 32
    ensures !('A' <= c <= 'Z') ==> r == c
  {
    if 'A' <= c <= 'Z' then (c as int + 32) as char else c
  }

  /** String.lowercase() on ASCII letters; every other character is kept. */
  function Lower(s: string): (r: string)
    ensures |r| == |s|
    ensures forall i :: 0 <= i < |s| ==> r[i] == LowerChar(s[i])
  {
    seq(|s|, i requires 0 <= i < |s| => LowerChar(s[i]))
  }

  /** String.equals(other, ignoreCase = true), on ASCII. */
  predicate EqualsIgnoreCase(a: string, b: string) {
    Lower(a) == Lower(b)
  }

  /** The input without its leading whitespace. */
  function TrimStart(s: string): (r: string)
    ensures |r| <= |s| && r == s[|s| - |r|..]
    ensures r == [] || !IsWhitespace(r[0])
    ensures r == [] <==> IsBlank(s)
    decreases |s|
  {
    if s != [] && IsWhitespace(s[0]) then
      var r := TrimStart(s[1..]);
      assert IsBlank(s) <==> IsBlank(s[1..]) by {
        assert forall i :: 0 < i < |s| ==> s[i] == s[1..][i - 1];
      }
      r
    else s
  }

  /** The input without its trailing whitespace. */
  function TrimEnd(s: string): (r: string)
    ensures |r| <= |s| && r == s[..|r|]
    ensures r == [] || !IsWhitespace(r[|r| - 1])
    ensures r == [] <==> IsBlank(s)
    decreases |s|
  {
    if s != [] && IsWhitespace(s[|s| - 1]) then
      var r := TrimEnd(s[..|s| - 1]);
      assert IsBlank(s) <==> IsBlank(s[..|s| - 1]) by {
        assert forall i :: 0 <= i < |s| - 1 ==> s[i] == s[..|s| - 1][i];
      }
      r
    else s
  }

  /** String.trim(): drops leading and trailing whitespace, nothing else;
      the result is empty exactly for a blank input. */
  function Trim(s: string): (r: string)
    ensures |r| <= |s|
    ensures r == [] || (!IsWhitespace(r[0]) && !IsWhitespace(r[|r| - 1]))
    ensures r == [] <==> IsBlank(s)
  {
    var t := TrimStart(s);
    var r := TrimEnd(t);
    assert t == [] || !IsBlank(t) by {
      if t != [] { assert !IsWhitespace(t[0]); }
    }
    if r != [] then assert r[0] == t[0]; r else r
  }

  /** Trim keeps a contiguous slice of s and drops only whitespace on
      either side of it; the slice neither starts nor ends with whitespace. */
  lemma TrimIsSlice(s: string)
    ensures exists i, j ::
      0 <= i <= j <= |s| && Trim(s) == s[i..j] &&
      (forall m :: 0 <= m < i ==> IsWhitespace(s[m])) && (forall m :: j <= m < |s| ==> IsWhitespace(s[m]))
    ensures Trim(s) == [] || (!IsWhitespace(Trim(s)[0]) && !IsWhitespace(Trim(s)[|Trim(s)| - 1]))
    ensures Trim(s) == [] <==> IsBlank(s)
  {
    var i, j := TrimBounds(s);
    assert Trim(s) == TrimEnd(TrimStart(s));
  }

  /** Where the slice Trim keeps starts and ends. */
  lemma TrimBounds(s: string) returns (i: int, j: int)
    ensures 0 <= i <= j <= |s| && TrimEnd(TrimStart(s)) == s[i..j]
    ensures forall m :: 0 <= m < i ==> IsWhitespace(s[m])
    ensures forall m :: j <= m < |s| ==> IsWhitespace(s[m])
  {
    var t := TrimStart(s);
    TrimStartDropsBlank(s);
    TrimEndDropsBlank(t);
    i, j := BlankSides(s, t, TrimEnd(t));
  }

  /** A suffix t of s after whitespace, cut down to a prefix r before
      whitespace, is a slice of s with only whitespace around it. */
  lemma BlankSides(s: string, t: string, r: string) returns (i: int, j: int)
    requires |t| <= |s| && t == s[|s| - |t|..] && |r| <= |t| && r == t[..|r|]
    requires forall m :: 0 <= m < |s| - |t| ==> IsWhitespace(s[m])
    requires forall m :: |r| <= m < |t| ==> IsWhitespace(t[m])
    ensures 0 <= i <= j <= |s| && r == s[i..j]
    ensures forall m :: 0 <= m < i ==> IsWhitespace(s[m])
    ensures forall m :: j <= m < |s| ==> IsWhitespace(s[m])
  {
    i := |s| - |t|;
    j := i + |r|;
    forall m | j <= m < |s| ensures IsWhitespace(s[m]) {
      assert s[m] == t[m - i];
    }
  }

  /** What TrimStart drops is blank. */
  lemma {:induction false} TrimStartDropsBlank(s: string)
    ensures forall m :: 0 <= m < |s| - |TrimStart(s)| ==> IsWhitespace(s[m])
    decreases |s|
  {
    if s != [] && IsWhitespace(s[0]) {
      TrimStartDropsBlank(s[1..]);
      assert TrimStart(s) == TrimStart(s[1..]);
      LeadingStep(s, |TrimStart(s)|);
    }
  }

  /** A whitespace character in front of a blank prefix extends it. */
  lemma LeadingStep(s: string, n: int)
    requires s != [] && IsWhitespace(s[0]) && 0 <= n < |s|
    requires forall m :: 0 <= m < |s[1..]| - n ==> IsWhitespace(s[1..][m])
    ensures forall m :: 0 <= m < |s| - n ==> IsWhitespace(s[m])
  {
    forall m | 1 <= m < |s| - n ensures IsWhitespace(s[m]) {
      assert s[m] == s[1..][m - 1];
    }
  }

  /** What TrimEnd drops is blank. */
  lemma {:induction false} TrimEndDropsBlank(s: string)
    ensures forall m :: |TrimEnd(s)| <= m < |s| ==> IsWhitespace(s[m])
    decreases |s|
  {
    if s != [] && IsWhitespace(s[|s| - 1]) {
      TrimEndDropsBlank(s[..|s| - 1]);
      assert forall m :: 0 <= m < |s| - 1 ==> s[m] == s[..|s| - 1][m];
    }
  }


  /** Trimming a string without surrounding whitespace changes nothing. */
  lemma TrimUnchanged(s: string)
    requires s == [] || (!IsWhitespace(s[0]) && !IsWhitespace(s[|s| - 1]))
    ensures Trim(s) == s
  {
  }

  /** Lowercasing a string without ASCII capitals changes nothing. */
  lemma LowerUnchanged(s: string)
    requires forall c :: c in s ==> !('A' <= c <= 'Z')
    ensures Lower(s) == s
  {
    assert forall i :: 0 <= i < |s| ==> s[i] in s;
  }

  /** Every character of Lower(s) is whitespace exactly when the one of s is. */
  lemma LowerKeepsWhitespace(c: char)
    ensures IsWhitespace(LowerChar(c)) <==> IsWhitespace(c)
  {
  }

  /** String.startsWith(p). */
  predicate StartsWith(s: string, p: string) {
    |p| <= |s| && s[..|p|] == p
  }

  /** String.contains(t): t occurs in s at some position (the empty string
      occurs everywhere). */
  predicate Contains(s: string, t: string)
    decreases |s|
  {
    StartsWith(s, t) || (s != [] && Contains(s[1..], t))
  }

  lemma ContainsEmpty(s: string)
    ensures Contains(s, [])
  {
  }

  lemma ContainsSelf(s: string)
    ensures Contains(s, s)
  {
    assert s[..|s|] == s;
  }

  /** String.replace(pat, rep) for a non-empty pattern: every non-overlapping
      occurrence of pat, scanning left to right, is replaced by rep. */
  function Replace(s: string, pat: string, rep: string): (r: string)
    requires pat != []
    decreases |s|
  {
    if |s| < |pat| then s
    else if s[..|pat|] == pat then rep + Replace(s[|pat|..], pat, rep)
    else [s[0]] + Replace(s[1..], pat, rep)
  }

  /** Replace only ever writes characters of its input or of rep. */
  lemma {:induction false} ReplaceChars(s: string, pat: string, rep: string, c: char)
    requires pat != []
    requires c in Replace(s, pat, rep)
    ensures c in s || c in rep
    decreases |s|
  {
    if |s| < |pat| {
    } else if s[..|pat|] == pat {
      if c !in rep {
        ReplaceChars(s[|pat|..], pat, rep, c);
        var j :| 0 <= j < |s[|pat|..]| && s[|pat|..][j] == c;
        assert s[j + |pat|] == c;
      }
    } else if c != s[0] {
      ReplaceChars(s[1..], pat, rep, c);
      if c !in rep {
        var j :| 0 <= j < |s[1..]| && s[1..][j] == c;
        assert s[j + 1] == c;
      }
    }
  }

  /** Replacing a one-character pattern by text without that character
      removes it completely. */
  lemma {:induction false} ReplaceRemoves(s: string, c: char, rep: string)
    requires c !in rep
    ensures c !in Replace(s, [c], rep)
    decreases |s|
  {
    if |s| >= 1 {
      ReplaceRemoves(s[1..], c, rep);
    }
  }

  /** Replacing a character that is absent from the input changes nothing. */
  lemma {:induction false} ReplaceAbsent(s: string, c: char, rep: string)
    requires c !in s
    ensures Replace(s, [c], rep) == s
    decreases |s|
  {
    if |s| >= 1 {
      assert s[..1] == [s[0]];
      ReplaceAbsent(s[1..], c, rep);
      assert [s[0]] + s[1..] == s;
    }
  }

  /** Replacing one character by one character maps the string position by
      position. */
  lemma {:induction false} ReplaceCharIsMap(s: string, c: char, d: char)
    ensures |Replace(s, [c], [d])| == |s|
    ensures forall i :: 0 <= i < |s| ==> Replace(s, [c], [d])[i] == if s[i] == c then d else s[i]
    decreases |s|
  {
    if |s| >= 1 {
      assert s[..1] == [s[0]];
      ReplaceCharIsMap(s[1..], c, d);
      var r := Replace(s, [c], [d]);
      assert r == [if s[0] == c then d else s[0]] + Replace(s[1..], [c], [d]);
    }
  }

  /** A string without two adjacent spaces survives the double-space pass. */
  lemma {:induction false} CollapseUnchanged(s: string)
    requires forall i :: 0 <= i < |s| - 1 ==> s[i] != ' ' || s[i + 1] != ' '
    ensures Replace(s, "  ", " ") == s
    decreases |s|
  {
    if |s| >= 2 {
      assert s[..2] != "  " by { assert s[..2][0] == s[0] && s[..2][1] == s[1]; }
      assert forall i :: 0 <= i < |s[1..]| ==> s[1..][i] == s[i + 1];
      CollapseUnchanged(s[1..]);
      assert [s[0]] + s[1..] == s;
    }
  }

  /** A replacement of a pattern that does not start with s[0] keeps the
      first character. */
  lemma ReplaceKeepsFirst(s: string, pat: string, rep: string)
    requires pat != [] && s != [] && s[0] != pat[0]
    ensures Replace(s, pat, rep) != [] && Replace(s, pat, rep)[0] == s[0]
  {
  }

  /** Collapsing "  " to " " keeps a last character that is not a space. */
  lemma {:induction false} ReplaceDoubleSpaceKeepsLast(s: string)
    requires s != [] && s[|s| - 1] != ' '
    ensures var r := Replace(s, "  ", " "); r != [] && r[|r| - 1] == s[|s| - 1]
    decreases |s|
  {
    if |s| < 2 {
    } else if s[..2] == "  " {
      assert s[..2][1] == s[1];
      ReplaceDoubleSpaceKeepsLast(s[2..]);
    } else if |s| > 1 {
      ReplaceDoubleSpaceKeepsLast(s[1..]);
    }
  }

  /** Splitting with String.split on one-character delimiters: the pieces
      between delimiters, empty pieces included ("a--b" gives "a", "", "b"). */
  function SplitOn(s: string, delims: set<char>): (r: seq<string>)
    ensures r != []
    ensures forall k :: 0 <= k < |r| ==> forall c :: c in r[k] ==> c !in delims
    decreases |s|
  {
    if s == [] then [[]]
    else
      var rest := SplitOn(s[1..], delims);
      if s[0] in delims then [[]] + rest
      else [[s[0]] + rest[0]] + rest[1..]
  }

  /** Two adjacent delimiters put an empty word into the split. */
  lemma {:induction false} AdjacentDelimitersGiveEmptyWord(s: string, delims: set<char>, i: int)
    requires 0 <= i < |s| - 1 && s[i] in delims && s[i + 1] in delims
    ensures exists k :: 1 <= k < |SplitOn(s, delims)| && SplitOn(s, delims)[k] == []
    decreases |s|
  {
    if i == 0 {
      LeadingDelimiters(s, delims);
    } else {
      AdjacentDelimitersGiveEmptyWord(s[1..], delims, i - 1);
      var k :| 1 <= k < |SplitOn(s[1..], delims)| && SplitOn(s[1..], delims)[k] == [];
      var m := EmptyWordShifts(s, delims, k);
    }
  }

  /** A split of a string starting with two delimiters has an empty second
      piece. */
  lemma LeadingDelimiters(s: string, delims: set<char>)
    requires |s| >= 2 && s[0] in delims && s[1] in delims
    ensures |SplitOn(s, delims)| > 1 && SplitOn(s, delims)[1] == []
  {
    assert SplitOn(s, delims) == [[]] + SplitOn(s[1..], delims);
    assert s[1..][0] == s[1];
    assert SplitOn(s[1..], delims) == [[]] + SplitOn(s[1..][1..], delims);
  }

  /** An empty piece after the first in the split of s[1..] is still one in
      the split of s. */
  lemma EmptyWordShifts(s: string, delims: set<char>, k: int) returns (m: int)
    requires s != [] && 1 <= k < |SplitOn(s[1..], delims)| && SplitOn(s[1..], delims)[k] == []
    ensures 1 <= m < |SplitOn(s, delims)| && SplitOn(s, delims)[m] == []
  {
    SplitOnStep(s, delims);
    m := PieceShifts(SplitOn(s, delims), SplitOn(s[1..], delims), s[0] in delims, s[0], k);
  }

  /** SplitOn unfolded once. */
  lemma SplitOnStep(s: string, delims: set<char>)
    requires s != []
    ensures var rest := SplitOn(s[1..], delims);
      SplitOn(s, delims) == if s[0] in delims then [[]] + rest else [[s[0]] + rest[0]] + rest[1..]
  {
  }

  /** Putting a piece in front, or extending the first piece, keeps every
      later piece, one place further on in the first case. */
  lemma PieceShifts(r: seq<string>, rest: seq<string>, isDelim: bool, c: char, k: int) returns (m: int)
    requires 1 <= k < |rest| && rest[k] == []
    requires r == if isDelim then [[]] + rest else [[c] + rest[0]] + rest[1..]
    ensures 1 <= m < |r| && r[m] == []
  {
    if isDelim {
      m := k + 1;
      assert r[m] == rest[k];
    } else {
      m := k;
      assert r[m] == rest[1..][k - 1];
    }
  }

  /** A string without delimiters is one word. */
  lemma {:induction false} SplitWithoutDelims(s: string, delims: set<char>)
    requires forall i :: 0 <= i < |s| ==> s[i] !in delims
    ensures SplitOn(s, delims) == [s]
    decreases |s|
  {
    if s != [] {
      SplitWithoutDelims(s[1..], delims);
      assert [s[0]] + s[1..] == s;
    }
  }

  /** A word followed by a delimiter is the first piece; the split goes on
      after the delimiter. */
  lemma {:induction false} SplitAfterWord(w: string, d: char, rest: string, delims: set<char>)
    requires forall i :: 0 <= i < |w| ==> w[i] !in delims
    requires d in delims
    ensures SplitOn(w + [d] + rest, delims) == [w] + SplitOn(rest, delims)
    decreases |w|
  {
    var s := w + [d] + rest;
    if w == [] {
      assert s[1..] == rest;
    } else {
      assert s[1..] == w[1..] + [d] + rest;
      SplitAfterWord(w[1..], d, rest, delims);
      assert [w[0]] + w[1..] == w;
    }
  }

  /** Every character of every piece of a split comes from the string. */
  lemma {:induction false} SplitOnChars(s: string, delims: set<char>)
    ensures forall k :: 0 <= k < |SplitOn(s, delims)| ==> forall c :: c in SplitOn(s, delims)[k] ==> c in s
    decreases |s|
  {
    if s != [] {
      SplitOnChars(s[1..], delims);
      var rest := SplitOn(s[1..], delims);
      assert forall c :: c in s[1..] ==> c in s;
      assert forall k :: 0 <= k < |rest| ==> forall c :: c in rest[k] ==> c in s;
    }
  }

  /** A string that is contained in s has its first character in s. */
  lemma {:induction false} ContainsFirstChar(s: string, t: string)
    requires t != [] && Contains(s, t)
    ensures t[0] in s
    decreases |s|
  {
    if StartsWith(s, t) {
      assert s[..|t|][0] == s[0];
    } else {
      ContainsFirstChar(s[1..], t);
      assert forall c :: c in s[1..] ==> c in s;
    }
  }

  /** Kotlin's natural order on strings: compare code units from the left;
      a proper prefix comes first. */
  predicate StrLess(a: string, b: string)
    decreases |a|
  {
    if a == [] then b != []
    else if b == [] then false
    else if a[0] != b[0] then a[0] < b[0]
    else StrLess(a[1..], b[1..])
  }

  lemma {:induction false} StrLessIrreflexive(a: string)
    ensures !StrLess(a, a)
    decreases |a|
  {
    if a != [] { StrLessIrreflexive(a[1..]); }
  }

  lemma {:induction false} StrLessTransitive(a: string, b: string, c: string)
    requires StrLess(a, b) && StrLess(b, c)
    ensures StrLess(a, c)
    decreases |a|
  {
    if a != [] && a[0] == b[0] && b[0] == c[0] {
      StrLessTransitive(a[1..], b[1..], c[1..]);
    }
  }

  lemma {:induction false} StrLessTotal(a: string, b: string)
    ensures a == b || StrLess(a, b) || StrLess(b, a)
    decreases |a|
  {
    if a != [] && b != [] && a[0] == b[0] {
      StrLessTotal(a[1..], b[1..]);
      if a[1..] == b[1..] { assert a == [a[0]] + a[1..] && b == [b[0]] + b[1..]; }
    }
  }

  /** A list sorted strictly ascending, hence also free of duplicates. */
  predicate StrictlyAscending(xs: seq<string>) {
    forall i, j :: 0 <= i < j < |xs| ==> StrLess(xs[i], xs[j])
  }

  /** Adds x to a strictly ascending list at its place, unless present. */
  function InsertSorted(xs: seq<string>, x: string): (r: seq<string>)
    requires StrictlyAscending(xs)
    ensures StrictlyAscending(r)
    ensures forall s :: s in r <==> s in xs || s == x
    decreases |xs|
  {
    if xs == [] then [x]
    else if x == xs[0] then xs
    else if StrLess(x, xs[0]) then
      assert forall j :: 0 <= j < |xs| ==> StrLess(x, xs[j]) by {
        forall j | 0 <= j < |xs| ensures StrLess(x, xs[j]) {
          if j > 0 { StrLessTransitive(x, xs[0], xs[j]); }
        }
      }
      [x] + xs
    else
      var t := InsertSorted(xs[1..], x);
      StrLessTotal(x, xs[0]);
      assert forall y :: y in t ==> StrLess(xs[0], y) by {
        forall y | y in t ensures StrLess(xs[0], y) {
          assert y in xs[1..] || y == x;
          if y != x {
            var j :| 0 <= j < |xs[1..]| && xs[1..][j] == y;
            assert xs[j + 1] == y;
          }
        }
      }
      assert forall s :: s in xs <==> s == xs[0] || s in xs[1..] by {
        assert xs == [xs[0]] + xs[1..];
      }
      [xs[0]] + t
  }

  /** The members of a strictly ascending list determine it: two such lists
      with the same members are equal. */
  lemma {:induction false} AscendingUnique(a: seq<string>, b: seq<string>)
    requires StrictlyAscending(a) && StrictlyAscending(b)
    requires forall s :: s in a <==> s in b
    ensures a == b
    decreases |a|
  {
    assert a != [] ==> a[0] in a;
    assert b != [] ==> b[0] in b;
    if a != [] && b != [] {
      var i :| 0 <= i < |a| && a[i] == b[0];
      var j :| 0 <= j < |b| && b[j] == a[0];
      if i > 0 && j > 0 {
        StrLessTransitive(a[0], a[i], a[0]);
        StrLessIrreflexive(a[0]);
      }
      assert a[0] == b[0] by {
        if i > 0 { StrLessIrreflexive(a[0]); } else { assert a[i] == a[0]; }
      }
      forall s ensures s in a[1..] <==> s in b[1..] {
        if s in a[1..] {
          var p :| 0 <= p < |a[1..]| && a[1..][p] == s;
          assert StrLess(a[0], a[p + 1]);
          StrLessIrreflexive(s);
          assert s in b;
          var q :| 0 <= q < |b| && b[q] == s;
          assert q > 0;
          assert b[1..][q - 1] == s;
        }
        if s in b[1..] {
          var p :| 0 <= p < |b[1..]| && b[1..][p] == s;
          assert StrLess(b[0], b[p + 1]);
          StrLessIrreflexive(s);
          assert s in a;
          var q :| 0 <= q < |a| && a[q] == s;
          assert q > 0;
          assert a[1..][q - 1] == s;
        }
      }
      AscendingUnique(a[1..], b[1..]);
      assert a == [a[0]] + a[1..] && b == [b[0]] + b[1..];
    }
  }

  /** Iterable.distinct().sorted() for strings: the strictly ascending list
      of the distinct members of xs. */
  function SortedDistinct(xs: seq<string>): (r: seq<string>)
    ensures StrictlyAscending(r)
    ensures forall s :: s in r <==> s in xs
    decreases |xs|
  {
    if xs == [] then []
    else
      var r := InsertSorted(SortedDistinct(xs[..|xs| - 1]), xs[|xs| - 1]);
      assert forall s :: s in xs <==> s in xs[..|xs| - 1] || s == xs[|xs| - 1] by {
        assert xs == xs[..|xs| - 1] + [xs[|xs| - 1]];
      }
      r
  }
}
