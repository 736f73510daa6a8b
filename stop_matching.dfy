/**
 * Stop-name normalisation and the tiered stop matcher of the repository
 * (normalizeStopName and findStopIndex).
 */
module StopMatching {
  import opened Text
  import opened Sequences

  const EnDash: char := '\U{2013}'
  const EmDash: char := '\U{2014}'

  /** The separators findStopIndex splits words on. */
  const WordSeparators: set<char> := {' ', '-', '/'}

  /** The characters that never survive normalisation. */
  predicate Removed(c: char) {
    c == '(' || c == ')' || c == ',' || c == '.' || c == EnDash || c == EmDash || 'A' <= c <= 'Z'
  }

  /** Steps three and four of normalizeStopName: en dash and em dash become
      '-', position by position. */
  function ReplaceDashes(t: string): (r: string)
    ensures |r| == |t|
    ensures forall i :: 0 <= i < |t| ==> r[i] == if t[i] == EnDash || t[i] == EmDash then '-' else t[i]
  {
    var d1 := Replace(t, [EnDash], "-");
    ReplaceCharIsMap(t, EnDash, '-');
    ReplaceCharIsMap(d1, EmDash, '-');
    Replace(d1, [EmDash], "-")
  }

  /** The first five steps of normalizeStopName: trim, lowercase, both dashes
      to '-', and one left-to-right pass turning "  " into " ". The result has
      no surrounding whitespace, no upper-case letter and no long dash. */
  function Collapsed(stop: string): (r: string)
    ensures r == [] || (!IsWhitespace(r[0]) && !IsWhitespace(r[|r| - 1]))
    ensures forall c :: c in r ==> c != EnDash && c != EmDash && !('A' <= c <= 'Z')
  {
    var d := ReplaceDashes(Lower(Trim(stop)));
    CollapsedFacts(Trim(stop), d);
    Replace(d, "  ", " ")
  }

  lemma CollapsedFacts(t: string, d: string)
    requires t == [] || (!IsWhitespace(t[0]) && !IsWhitespace(t[|t| - 1]))
    requires d == ReplaceDashes(Lower(t))
    ensures var r := Replace(d, "  ", " ");
      (r == [] || (!IsWhitespace(r[0]) && !IsWhitespace(r[|r| - 1]))) &&
      forall c :: c in r ==> c != EnDash && c != EmDash && !('A' <= c <= 'Z')
  {
    forall c | c in d ensures c != EnDash && c != EmDash && !('A' <= c <= 'Z') {
      var i :| 0 <= i < |d| && d[i] == c;
    }
    if d != [] {
      LowerKeepsWhitespace(t[0]);
      LowerKeepsWhitespace(t[|t| - 1]);
      ReplaceKeepsFirst(d, "  ", " ");
      ReplaceDoubleSpaceKeepsLast(d);
    }
    ReplaceAvoids(d, "  ", " ");
  }

  /** Collapsing double spaces adds no upper-case letter and no long dash. */
  lemma ReplaceAvoids(d: string, pat: string, rep: string)
    requires pat != [] && forall c :: c in rep ==> c == ' '
    requires forall c :: c in d ==> c != EnDash && c != EmDash && !('A' <= c <= 'Z')
    ensures forall c :: c in Replace(d, pat, rep) ==> c != EnDash && c != EmDash && !('A' <= c <= 'Z')
  {
    forall c | c in Replace(d, pat, rep)
      ensures c != EnDash && c != EmDash && !('A' <= c <= 'Z')
    {
      ReplaceChars(d, pat, rep, c);
    }
  }

  /** The characters the last four steps of normalizeStopName keep. */
  predicate Unpunctuated(c: char) {
    c != '(' && c != ')' && c != ',' && c != '.'
  }

  /** The last four steps of normalizeStopName: delete '(', ')', ',' and '.'.
      Only those characters go; every other one is kept, in order. */
  function StripPunctuation(s: string): (r: string)
    ensures forall c :: c in r ==> c in s && c != '(' && c != ')' && c != ',' && c != '.'
  {
    var a := Replace(s, "(", "");
    var b := Replace(a, ")", "");
    var c := Replace(b, ",", "");
    var r := Replace(c, ".", "");
    ReplaceRemoves(s, '(', "");
    ReplaceRemoves(a, ')', "");
    ReplaceRemoves(b, ',', "");
    ReplaceRemoves(c, '.', "");
    forall x | x in r ensures x in s && x != '(' && x != ')' && x != ',' && x != '.' {
      ReplaceChars(c, ".", "", x);
      ReplaceChars(b, ",", "", x);
      ReplaceChars(a, ")", "", x);
      ReplaceChars(s, "(", "", x);
    }
    r
  }

  /** The four deletions together are one filter: exactly the brackets,
      commas and full stops go, and every other character stays, in order. */
  lemma StripPunctuationIsFilter(s: string)
    ensures StripPunctuation(s) == Filter(s, Unpunctuated)
  {
    var a := Replace(s, "(", "");
    var b := Replace(a, ")", "");
    var c := Replace(b, ",", "");
    var r := Replace(c, ".", "");
    var p0 := (x: char) => true;
    var p1 := (x: char) => x != '.';
    var p2 := (x: char) => x != ',' && x != '.';
    var p3 := (x: char) => x != ')' && x != ',' && x != '.';
    FilterAll(r, p0);
    DeleteThenFilter(c, '.', p0, p1);
    DeleteThenFilter(b, ',', p1, p2);
    DeleteThenFilter(a, ')', p2, p3);
    DeleteThenFilter(s, '(', p3, Unpunctuated);
  }

  /** Deleting a character and then filtering by p is filtering by p and
      "not that character". */
  lemma {:induction false} DeleteThenFilter(s: string, c: char, p: char -> bool, q: char -> bool)
    requires forall x :: q(x) == (x != c && p(x))
    ensures Filter(Replace(s, [c], ""), p) == Filter(s, q)
    decreases |s|
  {
    if s != [] {
      DeleteThenFilter(s[1..], c, p, q);
      DeleteStep(s, c);
      FilterHead(s, q);
      if s[0] != c {
        FilterCons(s[0], Replace(s[1..], [c], ""), p);
      }
    }
  }

  /** One step of deleting a character. */
  lemma DeleteStep(s: string, c: char)
    requires s != []
    ensures Replace(s, [c], "") ==
      if s[0] == c then Replace(s[1..], [c], "") else [s[0]] + Replace(s[1..], [c], "")
  {
    assert s[..1] == [s[0]];
  }

  /** normalizeStopName: the canonical form stops are compared in. It holds
      no bracket, comma, full stop, long dash or upper-case letter. */
  function Normalize(stop: string): (r: string)
    ensures forall c :: c in r ==> !Removed(c)
  {
    StripPunctuation(Collapsed(stop))
  }

  /** A string already in canonical form (no surrounding whitespace, no two
      adjacent spaces, no character normalisation removes) is its own
      normal form. */
  lemma NormalizeUnchanged(s: string)
    requires s == [] || (!IsWhitespace(s[0]) && !IsWhitespace(s[|s| - 1]))
    requires forall i :: 0 <= i < |s| - 1 ==> s[i] != ' ' || s[i + 1] != ' '
    requires forall c :: c in s ==> !Removed(c)
    ensures Normalize(s) == s
  {
    CollapsedUnchanged(s);
    StripUnchanged(s);
  }

  lemma CollapsedUnchanged(s: string)
    requires s == [] || (!IsWhitespace(s[0]) && !IsWhitespace(s[|s| - 1]))
    requires forall i :: 0 <= i < |s| - 1 ==> s[i] != ' ' || s[i + 1] != ' '
    requires forall c :: c in s ==> c != EnDash && c != EmDash && !('A' <= c <= 'Z')
    ensures Collapsed(s) == s
  {
    TrimUnchanged(s);
    LowerUnchanged(s);
    DashesUnchanged(s);
    CollapseUnchanged(s);
  }

  lemma DashesUnchanged(s: string)
    requires forall c :: c in s ==> c != EnDash && c != EmDash
    ensures ReplaceDashes(s) == s
  {
    assert forall i :: 0 <= i < |s| ==> s[i] in s;
  }

  lemma StripUnchanged(s: string)
    requires forall c :: c in s ==> c != '(' && c != ')' && c != ',' && c != '.'
    ensures StripPunctuation(s) == s
  {
    ReplaceAbsent(s, '(', "");
    ReplaceAbsent(s, ')', "");
    ReplaceAbsent(s, ',', "");
    ReplaceAbsent(s, '.', "");
  }

  /** Normalisation is not idempotent: one pass halves a run of three spaces
      to two, and removing a bracket after trimming can expose a space. */
  lemma NormalizeIsNotIdempotent()
    ensures Normalize("a   b") == "a  b"
    ensures Normalize(Normalize("a   b")) == "a b"
    ensures Normalize("( a") == " a"
  {
    ThreeSpacesBecomeTwo();
    TwoSpacesBecomeOne();
    BracketExposesSpace();
  }

  lemma ThreeSpacesBecomeTwo()
    ensures Normalize("a   b") == "a  b"
  {
    assert Replace("a   b", "  ", " ") == "a  b" by {
      assert Replace("b", "  ", " ") == "b";
      assert Replace(" b", "  ", " ") == " b";
      assert Replace("   b", "  ", " ") == "  b";
    }
    NormalizeSteps("a   b", "a  b");
  }

  lemma TwoSpacesBecomeOne()
    ensures Normalize("a  b") == "a b"
  {
    assert Replace("a  b", "  ", " ") == "a b" by {
      assert Replace(" b", "  ", " ") == " b";
      assert Replace("  b", "  ", " ") == " b";
    }
    NormalizeSteps("a  b", "a b");
  }

  const BracketedA: string := "( a"
  const SpacedA: string := " a"

  lemma BracketExposesSpace()
    ensures Normalize(BracketedA) == SpacedA
  {
    BracketStopCollapsed(BracketedA);
    OpenBracketDropped(BracketedA);
    SpacedAPlain(SpacedA);
    OnlyOpenBracketNormalized(BracketedA, SpacedA);
  }

  lemma SpacedAPlain(v: string)
    requires v == SpacedA
    ensures forall c :: c in v ==> c != '(' && c != ')' && c != ',' && c != '.'
  {
    assert forall c :: c in v ==> c == ' ' || c == 'a';
  }

  /** A collapsed string whose only punctuation is "(" normalises to
      itself without it. */
  lemma OnlyOpenBracketNormalized(u: string, v: string)
    requires Collapsed(u) == u && Replace(u, "(", "") == v
    requires forall c :: c in v ==> c != '(' && c != ')' && c != ',' && c != '.'
    ensures Normalize(u) == v
  {
    OnlyOpenBracketStripped(u, v);
  }

  lemma BracketStopCollapsed(u: string)
    requires u == BracketedA
    ensures Collapsed(u) == u
  {
    CollapsedUnchanged(u);
  }

  lemma OpenBracketDropped(u: string)
    requires u == BracketedA
    ensures Replace(u, "(", "") == SpacedA
  {
    assert Replace("a", "(", "") == "a";
    assert Replace(" a", "(", "") == " a";
  }

  /** A string whose only punctuation is "(" loses just that. */
  lemma OnlyOpenBracketStripped(u: string, v: string)
    requires Replace(u, "(", "") == v
    requires forall c :: c in v ==> c != '(' && c != ')' && c != ',' && c != '.'
    ensures StripPunctuation(u) == v
  {
    ReplaceAbsent(v, ')', "");
    ReplaceAbsent(v, ',', "");
    ReplaceAbsent(v, '.', "");
  }

  /** Normalising a trimmed string without capitals or long dashes is the
      double-space pass and the punctuation removal alone. */
  lemma NormalizeSteps(s: string, collapsed: string)
    requires s == [] || (!IsWhitespace(s[0]) && !IsWhitespace(s[|s| - 1]))
    requires forall c :: c in s ==> c != EnDash && c != EmDash && !('A' <= c <= 'Z')
    requires Replace(s, "  ", " ") == collapsed
    requires forall c :: c in collapsed ==> c != '(' && c != ')' && c != ',' && c != '.'
    ensures Normalize(s) == collapsed
  {
    assert Collapsed(s) == collapsed by {
      TrimUnchanged(s);
      LowerUnchanged(s);
      DashesUnchanged(s);
    }
    StripUnchanged(collapsed);
  }

  /** A trimmed string whose lowercase form is canonical normalises to that
      lowercase form. */
  lemma NormalizeIsLower(s: string)
    requires Trim(s) == s
    requires var l := Lower(s);
      (forall i :: 0 <= i < |l| - 1 ==> l[i] != ' ' || l[i + 1] != ' ') &&
      (forall c :: c in l ==> !Removed(c))
    ensures Normalize(s) == Lower(s)
  {
    var l := Lower(s);
    if l != [] {
      LowerKeepsWhitespace(s[0]);
      LowerKeepsWhitespace(s[|s| - 1]);
      assert !IsWhitespace(s[0]) && !IsWhitespace(s[|s| - 1]);
    }
    assert Collapsed(s) == l by {
      DashesUnchanged(l);
      CollapseUnchanged(l);
    }
    StripUnchanged(l);
  }

  /** The containment and word tests of findStopIndex, applied to a stop
      already normalised. */
  predicate WordsMatch(normalizedStop: string, searchStop: string) {
    var stopWords := SplitOn(normalizedStop, WordSeparators);
    var searchWords := SplitOn(searchStop, WordSeparators);
    forall w :: w in searchWords ==> exists v :: v in stopWords && (Contains(v, w) || Contains(w, v))
  }

  predicate ExactMatch(stop: string, searchStop: string) {
    Normalize(stop) == searchStop
  }

  predicate PartialMatch(stop: string, searchStop: string) {
    var n := Normalize(stop);
    n == searchStop || Contains(n, searchStop) || Contains(searchStop, n) || WordsMatch(n, searchStop)
  }

  /** findStopIndex(route, searchStop), searchStop being normalised by the
      caller. The first stop whose normalised name equals searchStop wins;
      only when there is none does the first stop passing the containment
      or word test win; -1 when neither tier matches. */
  function FindStopIndex(route: seq<string>, searchStop: string): (r: int)
    ensures -1 <= r < |route|
    ensures route == [] ==> r == -1
    ensures (exists i :: 0 <= i < |route| && Normalize(route[i]) == searchStop) ==>
      r >= 0 && Normalize(route[r]) == searchStop && forall j :: 0 <= j < r ==> Normalize(route[j]) != searchStop
    ensures (forall i :: 0 <= i < |route| ==> Normalize(route[i]) != searchStop) ==>
      (r >= 0 ==> PartialMatch(route[r], searchStop) && forall j :: 0 <= j < r ==> !PartialMatch(route[j], searchStop)) &&
      (r == -1 ==> forall j :: 0 <= j < |route| ==> !PartialMatch(route[j], searchStop))
  {
    var exact := IndexOfFirst(route, (stop: string) => ExactMatch(stop, searchStop));
    if exact != -1 then exact
    else IndexOfFirst(route, (stop: string) => PartialMatch(stop, searchStop))
  }

  /** The matcher returns the first stop normalising exactly to the query. */
  lemma FindsFirstExact(route: seq<string>, searchStop: string, i: int)
    requires 0 <= i < |route| && Normalize(route[i]) == searchStop
    requires forall j :: 0 <= j < i ==> Normalize(route[j]) != searchStop
    ensures FindStopIndex(route, searchStop) == i
  {
  }

  /** An empty query is contained in every stop, so the first stop matches
      unless some stop itself normalises to the empty string. */
  lemma {:induction false} EmptyQueryMatchesFirstStop(route: seq<string>)
    requires route != []
    requires forall i :: 0 <= i < |route| ==> Normalize(route[i]) != ""
    ensures FindStopIndex(route, "") == 0
  {
    ContainsEmpty(Normalize(route[0]));
    assert PartialMatch(route[0], "");
    FindsFirstPartial(route, "", 0);
  }

  /** Without an exact match, the matcher returns the first stop passing
      the containment or word test. */
  lemma FindsFirstPartial(route: seq<string>, searchStop: string, i: int)
    requires forall j :: 0 <= j < |route| ==> Normalize(route[j]) != searchStop
    requires 0 <= i < |route| && PartialMatch(route[i], searchStop)
    requires forall j :: 0 <= j < i ==> !PartialMatch(route[j], searchStop)
    ensures FindStopIndex(route, searchStop) == i
  {
  }

  /** Two adjacent separators in a normalised stop ("a - b", "x / y") give
      an empty stop word, which every search word contains: such a stop
      passes the word test for any query at all. */
  lemma {:induction false} EmptyStopWordMatchesEverything(stop: string, searchStop: string, i: int)
    requires 0 <= i < |Normalize(stop)| - 1
    requires Normalize(stop)[i] in WordSeparators && Normalize(stop)[i + 1] in WordSeparators
    ensures PartialMatch(stop, searchStop)
  {
    var n := Normalize(stop);
    AdjacentDelimitersGiveEmptyWord(n, WordSeparators, i);
    var stopWords := SplitOn(n, WordSeparators);
    var k :| 1 <= k < |stopWords| && stopWords[k] == [];
    forall w | w in SplitOn(searchStop, WordSeparators)
      ensures exists v :: v in stopWords && (Contains(v, w) || Contains(w, v))
    {
      ContainsEmpty(w);
      assert stopWords[k] in stopWords;
    }
    assert WordsMatch(n, searchStop);
  }

  /** No two stops of the route normalise to the same name. */
  predicate DistinctlyNamed(route: seq<string>) {
    forall i, j :: 0 <= i < j < |route| ==> Normalize(route[i]) != Normalize(route[j])
  }

  /** On such a route the matcher finds each stop by its own normalised
      name. */
  lemma FindsOwnStop(route: seq<string>, i: int)
    requires DistinctlyNamed(route) && 0 <= i < |route|
    ensures FindStopIndex(route, Normalize(route[i])) == i
  {
  }
}

/** Stop labels of the worked examples. */
module ExampleStops {
  const Gabtoli: string := "Gabtoli"
  const GabtoliBusStand: string := "Gabtoli Bus Stand"
  const BracketsOnly: string := "()"
  /** The normalised query the examples search for. */
  const GabtoliQuery: string := "gabtoli"
}

/**
 * Worked examples of the matcher on concrete stop labels.
 */
module StopMatchingExamples {
  import opened Text
  import opened StopMatching
  import opened ExampleStops

  /** On a two-stop route the second stop wins exactly when it is the only
      exact hit. */
  lemma SecondStopExact(route: seq<string>, q: string)
    requires |route| == 2 && Normalize(route[0]) != q && Normalize(route[1]) == q
    ensures FindStopIndex(route, q) == 1
  {
    forall j | 0 <= j < 1 ensures Normalize(route[j]) != q {
      assert j == 0;
    }
    FindsFirstExact(route, q, 1);
  }

  /** An exact match outranks an earlier stop that only contains the query. */
  lemma ExactMatchWinsOverEarlierContainment()
    ensures FindStopIndex([GabtoliBusStand, Gabtoli], GabtoliQuery) == 1
  {
    NormalizeGabtoli();
    NormalizeGabtoliBusStand();
    var route := [GabtoliBusStand, Gabtoli];
    assert route[0] == GabtoliBusStand && route[1] == Gabtoli;
    SecondStopExact(route, GabtoliQuery);
  }

  /** The earlier stop of that route does contain the query. */
  lemma StandContainsQuery()
    ensures PartialMatch(GabtoliBusStand, GabtoliQuery)
  {
    NormalizeGabtoliBusStand();
    GabtoliPrefix("gabtoli bus stand", GabtoliQuery);
    PrefixMatches(GabtoliBusStand, GabtoliQuery);
  }

  lemma GabtoliPrefix(n: string, q: string)
    requires n == "gabtoli bus stand" && q == GabtoliQuery
    ensures StartsWith(n, q)
  {
    assert n[..|q|] == q;
  }

  /** A stop whose normal form starts with the query passes the
      containment test. */
  lemma PrefixMatches(stop: string, q: string)
    requires StartsWith(Normalize(stop), q)
    ensures PartialMatch(stop, q)
  {
  }

  /** The same stops in the other order: the exact match comes first. */
  lemma ExactMatchFirst()
    ensures FindStopIndex([Gabtoli, GabtoliBusStand], GabtoliQuery) == 0
  {
    NormalizeGabtoli();
    FindsFirstExact([Gabtoli, GabtoliBusStand], GabtoliQuery, 0);
  }

  lemma NormalizeGabtoli()
    ensures Normalize(Gabtoli) == "gabtoli"
  {
    LowerGabtoli();
    TrimUnchanged(Gabtoli);
    CanonicalGabtoli("gabtoli");
    NormalizeIsLower(Gabtoli);
  }

  lemma LowerGabtoli()
    ensures Lower(Gabtoli) == "gabtoli"
  {
  }

  lemma CanonicalGabtoli(l: string)
    requires l == "gabtoli"
    ensures forall i :: 0 <= i < |l| - 1 ==> l[i] != ' ' || l[i + 1] != ' '
    ensures forall c :: c in l ==> !Removed(c)
  {
  }

  lemma NormalizeGabtoliBusStand()
    ensures Normalize(GabtoliBusStand) == "gabtoli bus stand"
  {
    LowerGabtoliBusStand();
    TrimUnchanged(GabtoliBusStand);
    NoDoubleSpace("gabtoli bus stand");
    NothingRemoved("gabtoli bus stand");
    NormalizeIsLower(GabtoliBusStand);
  }

  lemma LowerGabtoliBusStand()
    ensures Lower(GabtoliBusStand) == "gabtoli bus stand"
  {
  }

  lemma NoDoubleSpace(l: string)
    requires l == "gabtoli bus stand"
    ensures forall i :: 0 <= i < |l| - 1 ==> l[i] != ' ' || l[i + 1] != ' '
  {
  }

  lemma NothingRemoved(l: string)
    requires l == "gabtoli bus stand"
    ensures forall c :: c in l ==> !Removed(c)
  {
  }

  lemma BracketsVanish()
    ensures Normalize(BracketsOnly) == ""
  {
    CollapsedUnchanged(BracketsOnly);
    assert Replace(BracketsOnly, "(", "") == ")";
    assert Replace(")", ")", "") == "";
    ReplaceAbsent(")", '(', "");
  }

  /** A stop that normalises to "" is an exact hit for the empty query and
      beats the first stop. */
  lemma EmptyQueryPrefersEmptyStop()
    ensures FindStopIndex([Gabtoli, BracketsOnly], "") == 1
  {
    NormalizeGabtoli();
    BracketsVanish();
    var route := [Gabtoli, BracketsOnly];
    assert route[0] == Gabtoli && route[1] == BracketsOnly;
    SecondStopExact(route, "");
  }
}
