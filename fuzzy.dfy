/**
 * The suggestion ranker of BusViewModel: calculateFuzzyScore, which builds
 * an integer relevance score for one stop name, and fuzzySearch, which
 * keeps the names with a positive score, best first, up to a limit.
 */
module Fuzzy {
  import opened Text
  import opened Sequences

  /** The delimiters calculateFuzzyScore splits an item into words on. */
  const FuzzySeparators: set<char> := {' ', '-', ',', '.', '/', '(', ')'}

  /** The state the character scan ends in: how many query characters were
      matched, and the points the scan awarded. */
  datatype ScanResult = ScanResult(matched: nat, points: int)

  /** The character-sequence scan from query position qi, item position ii
      and a run of run consecutive matches: a matching character adds ten
      times the lengthened run and advances both positions; a mismatch
      resets the run and advances the item only. */
  function ScanFrom(query: string, item: string, qi: nat, ii: nat, run: nat): (r: ScanResult)
    requires qi <= |query| && ii <= |item|
    ensures qi <= r.matched <= |query|
    decreases |item| - ii
  {
    if qi < |query| && ii < |item| then
      if query[qi] == item[ii] then
        var rest := ScanFrom(query, item, qi + 1, ii + 1, run + 1);
        ScanResult(rest.matched, rest.points + (run + 1) * 10)
      else ScanFrom(query, item, qi, ii + 1, 0)
    else ScanResult(qi, 0)
  }

  /** The whole scan of calculateFuzzyScore. */
  function Scan(query: string, item: string): ScanResult {
    ScanFrom(query, item, 0, 0, 0)
  }

  /** The score of one word: 200 when it starts with the query, else 50 when
      it contains it. */
  function WordPoints(word: string, query: string): (r: int)
    ensures r == 200 || r == 50 || r == 0
  {
    if StartsWith(word, query) then 200 else if Contains(word, query) then 50 else 0
  }

  /** The word-level points of a list of words, summed in order. */
  function WordBonus(words: seq<string>, query: string): int
    decreases |words|
  {
    if words == [] then 0 else WordBonus(words[..|words| - 1], query) + WordPoints(words[|words| - 1], query)
  }

  /** The points calculateFuzzyScore gives before the character scan. */
  function MatchPoints(query: string, item: string): int {
    (if StartsWith(item, query) then 500 else 0) +
    (if Contains(item, query) then 300 else 0) +
    WordBonus(SplitOn(item, FuzzySeparators), query)
  }

  /** The score before the length penalty and the floor at 0. */
  function RawScore(query: string, item: string): int {
    var scan := Scan(query, item);
    MatchPoints(query, item) + scan.points + (if scan.matched == |query| then 100 else 0)
  }

  /** calculateFuzzyScore(query, normalizedItem, _) as a value: 1000 for an
      exact match; otherwise the raw score less two points per character the
      item is longer than the query, floored at 0. */
  function FuzzyScore(query: string, item: string): int {
    if item == query then 1000
    else
      var lengthDiff := |item| - |query|;
      var score := if lengthDiff > 0 then RawScore(query, item) - lengthDiff * 2 else RawScore(query, item);
      if score < 0 then 0 else score
  }

  /** calculateFuzzyScore(query, normalizedItem, originalItem): the third
      argument is not used. */
  method CalculateFuzzyScore(query: string, normalizedItem: string, originalItem: string) returns (score: int)
    ensures score == FuzzyScore(query, normalizedItem)
  {
    score := 0;
    if normalizedItem == query {
      return 1000;
    }
    if StartsWith(normalizedItem, query) {
      score := score + 500;
    }
    if Contains(normalizedItem, query) {
      score := score + 300;
    }
    var base := score;
    var words := SplitOn(normalizedItem, FuzzySeparators);
    for w := 0 to |words|
      invariant score == base + WordBonus(words[..w], query)
    {
      assert words[..w + 1][..w] == words[..w];
      var word := words[w];
      if StartsWith(word, query) {
        score := score + 200;
      } else if Contains(word, query) {
        score := score + 50;
      }
    }
    assert words[..|words|] == words;
    var matched := score;
    var queryIndex := 0;
    var itemIndex := 0;
    var consecutiveMatches := 0;
    while queryIndex < |query| && itemIndex < |normalizedItem|
      invariant queryIndex <= |query| && itemIndex <= |normalizedItem|
      invariant score + ScanFrom(query, normalizedItem, queryIndex, itemIndex, consecutiveMatches).points
        == matched + Scan(query, normalizedItem).points
      invariant ScanFrom(query, normalizedItem, queryIndex, itemIndex, consecutiveMatches).matched
        == Scan(query, normalizedItem).matched
      decreases |normalizedItem| - itemIndex
    {
      if query[queryIndex] == normalizedItem[itemIndex] {
        consecutiveMatches := consecutiveMatches + 1;
        score := score + consecutiveMatches * 10;
        queryIndex := queryIndex + 1;
      } else {
        consecutiveMatches := 0;
      }
      itemIndex := itemIndex + 1;
    }
    if queryIndex == |query| {
      score := score + 100;
    }
    var lengthDiff := |normalizedItem| - |query|;
    if lengthDiff > 0 {
      score := score - lengthDiff * 2;
    }
    if score < 0 {
      score := 0;
    }
  }

  /** An exact match scores 1000; every score is at least 0. */
  lemma ScoreFloorAndExact(query: string, item: string)
    ensures FuzzyScore(query, item) >= 0
    ensures item == query ==> FuzzyScore(query, item) == 1000
  {
  }

  /** Greedily advancing one character of either side decides the sub-list
      relation: a shared head can always be matched. */
  lemma {:induction false} SubsequenceSharedHead<T>(a: seq<T>, b: seq<T>)
    requires a != [] && b != [] && a[0] == b[0]
    ensures IsSubsequence(a, b) <==> IsSubsequence(a[1..], b[1..])
  {
    if IsSubsequence(a, b[1..]) {
      SubsequenceDropHead(a, b[1..]);
    }
  }

  /** The scan matches every remaining query character exactly when they
      occur in order in the rest of the item. */
  lemma {:induction false} ScanFromSubsequence(query: string, item: string, qi: nat, ii: nat, run: nat)
    requires qi <= |query| && ii <= |item|
    ensures ScanFrom(query, item, qi, ii, run).matched == |query| <==> IsSubsequence(query[qi..], item[ii..])
    decreases |item| - ii
  {
    if qi < |query| && ii < |item| {
      assert query[qi..][1..] == query[qi + 1..];
      assert item[ii..][1..] == item[ii + 1..];
      if query[qi] == item[ii] {
        ScanFromSubsequence(query, item, qi + 1, ii + 1, run + 1);
        SubsequenceSharedHead(query[qi..], item[ii..]);
      } else {
        ScanFromSubsequence(query, item, qi, ii + 1, 0);
      }
    }
  }

  /** The +100 bonus is awarded exactly when the query is a sub-list of the
      item. */
  lemma AllCharactersBonus(query: string, item: string)
    ensures Scan(query, item).matched == |query| <==> IsSubsequence(query, item)
  {
    ScanFromSubsequence(query, item, 0, 0, 0);
    assert query[0..] == query && item[0..] == item;
  }

  /** The points of n consecutive matches: 10 + 20 + ... + 10n. */
  function RunPoints(n: nat): int {
    5 * n * (n + 1)
  }

  /** With a run never longer than the characters matched so far, the scan
      awards at most the points of matching the whole rest in one run. */
  lemma {:induction false} ScanFromBound(query: string, item: string, qi: nat, ii: nat, run: nat)
    requires qi <= |query| && ii <= |item| && run <= qi
    ensures 0 <= ScanFrom(query, item, qi, ii, run).points <= RunPoints(|query|) - RunPoints(qi)
    decreases |item| - ii
  {
    if qi < |query| && ii < |item| {
      if query[qi] == item[ii] {
        ScanFromBound(query, item, qi + 1, ii + 1, run + 1);
        RunPointsStep(qi);
      } else {
        ScanFromBound(query, item, qi, ii + 1, 0);
      }
    } else {
      RunPointsMonotone(qi, |query|);
    }
  }

  /** One more consecutive match is worth ten points per character of the run. */
  lemma RunPointsStep(n: nat)
    ensures RunPoints(n + 1) == RunPoints(n) + 10 * (n + 1)
  {
    assert 5 * (n + 1) * (n + 2) == 5 * n * (n + 1) + 10 * (n + 1);
  }

  lemma {:induction false} RunPointsMonotone(a: nat, b: nat)
    requires a <= b
    ensures RunPoints(a) <= RunPoints(b)
    decreases b - a
  {
    if a < b {
      RunPointsStep(a);
      RunPointsMonotone(a + 1, b);
    }
  }

  /** When the rest of the query starts the rest of the item, every
      character extends the run. */
  lemma {:induction false} ScanFromPrefix(query: string, item: string, qi: nat, ii: nat, run: nat)
    requires qi <= |query| && ii <= |item|
    requires |query| - qi <= |item| - ii
    requires forall t :: qi <= t < |query| ==> query[t] == item[t - qi + ii]
    ensures var n := |query| - qi;
      ScanFrom(query, item, qi, ii, run) == ScanResult(|query|, 10 * n * run + RunPoints(n))
    decreases |item| - ii
  {
    if qi < |query| {
      assert query[qi] == item[ii];
      ScanFromPrefix(query, item, qi + 1, ii + 1, run + 1);
      PrefixPointsStep(|query| - qi, run);
    }
  }

  /** The points of ScanFromPrefix, one matched character at a time. */
  lemma PrefixPointsStep(n: nat, run: nat)
    requires n >= 1
    ensures 10 * (n - 1) * (run + 1) + RunPoints(n - 1) + (run + 1) * 10 == 10 * n * run + RunPoints(n)
  {
    RunPointsStep(n - 1);
    assert 10 * (n - 1) * (run + 1) == 10 * n * run + 10 * n - 10 * run - 10;
  }

  /** A query that starts the item is matched in one run. */
  lemma PrefixScan(query: string, item: string)
    requires StartsWith(item, query)
    ensures Scan(query, item) == ScanResult(|query|, RunPoints(|query|))
  {
    forall t | 0 <= t < |query| ensures query[t] == item[t] {
      assert item[..|query|][t] == item[t];
    }
    ScanFromPrefix(query, item, 0, 0, 0);
  }

  lemma {:induction false} WordBonusBound(words: seq<string>, query: string)
    ensures 0 <= WordBonus(words, query) <= 200 * |words|
    decreases |words|
  {
    if words != [] {
      WordBonusBound(words[..|words| - 1], query);
    }
  }

  /** What a non-exact match can score at most: 800 for the whole item, 200
      per word, the points of one run over the whole query, and the bonus. */
  lemma ScoreUpperBound(query: string, item: string)
    requires item != query
    ensures FuzzyScore(query, item) <=
      800 + 200 * |SplitOn(item, FuzzySeparators)| + RunPoints(|query|) + 100
  {
    WordBonusBound(SplitOn(item, FuzzySeparators), query);
    ScanFromBound(query, item, 0, 0, 0);
  }

  /** Once the item holds no more of the next query character, the scan
      matches nothing further and awards nothing. */
  lemma {:induction false} ScanWithoutChar(query: string, item: string, qi: nat, ii: nat, run: nat)
    requires qi < |query| && ii <= |item|
    requires forall j :: ii <= j < |item| ==> item[j] != query[qi]
    ensures ScanFrom(query, item, qi, ii, run) == ScanResult(qi, 0)
    decreases |item| - ii
  {
    if ii < |item| {
      ScanWithoutChar(query, item, qi, ii + 1, 0);
    }
  }

  /** Words none of which holds the query's first character earn no
      word-level points. */
  lemma {:induction false} WordBonusWithoutChar(words: seq<string>, query: string)
    requires query != []
    requires forall k :: 0 <= k < |words| ==> query[0] !in words[k]
    ensures WordBonus(words, query) == 0
    decreases |words|
  {
    if words != [] {
      var last := words[|words| - 1];
      if Contains(last, query) { ContainsFirstChar(last, query); }
      WordBonusWithoutChar(words[..|words| - 1], query);
    }
  }

  /** An item that lacks the query's first character scores 0: no prefix,
      substring, word or character-sequence points, and no bonus ("xyz" vs
      "mohakhali"). */
  lemma AbsentFirstCharScoresZero(query: string, item: string)
    requires query != [] && query[0] !in item
    ensures FuzzyScore(query, item) == 0
  {
    assert query[0] in query;
    if Contains(item, query) { ContainsFirstChar(item, query); }
    var words := SplitOn(item, FuzzySeparators);
    SplitOnChars(item, FuzzySeparators);
    WordBonusWithoutChar(words, query);
    ScanWithoutChar(query, item, 0, 0, 0);
  }

  /** A name with its relevance score. */
  datatype Scored = Scored(item: string, score: int)

  /** The score fuzzySearch gives an item for a trimmed, lowercased query. */
  function ScoreOf(normalizedQuery: string, item: string): int {
    FuzzyScore(normalizedQuery, Lower(item))
  }

  function Names(cs: seq<Scored>): (r: seq<string>)
    ensures |r| == |cs|
    ensures forall i :: 0 <= i < |cs| ==> r[i] == cs[i].item
  {
    seq(|cs|, i requires 0 <= i < |cs| => cs[i].item)
  }

  /** The mapNotNull step: each item with a positive score, paired with it,
      in input order. */
  function Candidates(normalizedQuery: string, items: seq<string>): (r: seq<Scored>)
    ensures forall c :: c in r <==> c.item in items && c.score == ScoreOf(normalizedQuery, c.item) && c.score > 0
    ensures IsSubsequence(Names(r), items)
    decreases |items|
  {
    if items == [] then []
    else
      var rest := Candidates(normalizedQuery, items[1..]);
      var s := ScoreOf(normalizedQuery, items[0]);
      var r := if s > 0 then [Scored(items[0], s)] + rest else rest;
      CandidatesStep((item: string) => ScoreOf(normalizedQuery, item), items, rest, r);
      r
  }

  /** The step of Candidates that scores the first item, for any scoring
      function f. */
  lemma CandidatesStep(f: string -> int, items: seq<string>, rest: seq<Scored>, r: seq<Scored>)
    requires items != []
    requires forall c :: c in rest <==> c.item in items[1..] && c.score == f(c.item) && c.score > 0
    requires IsSubsequence(Names(rest), items[1..])
    requires r == if f(items[0]) > 0 then [Scored(items[0], f(items[0]))] + rest else rest
    ensures forall c :: c in r <==> c.item in items && c.score == f(c.item) && c.score > 0
    ensures IsSubsequence(Names(r), items)
  {
    assert forall x :: x in items <==> x == items[0] || x in items[1..] by {
      assert items == [items[0]] + items[1..];
    }
    if f(items[0]) > 0 {
      assert forall c :: c in r <==> c == Scored(items[0], f(items[0])) || c in rest;
    }
    CandidatesStepOrder(items, rest, r);
  }

  lemma CandidatesStepOrder(items: seq<string>, rest: seq<Scored>, r: seq<Scored>)
    requires items != []
    requires IsSubsequence(Names(rest), items[1..])
    requires r == rest || (r != [] && r[0].item == items[0] && r[1..] == rest)
    ensures IsSubsequence(Names(r), items)
  {
    if r != rest {
      assert Names(r)[0] == items[0];
      assert Names(r)[1..] == Names(rest);
    }
  }

  /** Candidates keeps every copy of a positively scored item and no copy
      of any other. */
  lemma {:induction false} CandidatesCount(normalizedQuery: string, items: seq<string>, x: string)
    ensures multiset(Names(Candidates(normalizedQuery, items)))[x] ==
      if ScoreOf(normalizedQuery, x) > 0 then multiset(items)[x] else 0
    decreases |items|
  {
    if items != [] {
      CandidatesCount(normalizedQuery, items[1..], x);
      var rest := Candidates(normalizedQuery, items[1..]);
      var s := ScoreOf(normalizedQuery, items[0]);
      var r := if s > 0 then [Scored(items[0], s)] + rest else rest;
      assert Candidates(normalizedQuery, items) == r;
      CountStep((item: string) => ScoreOf(normalizedQuery, item), items, rest, r, x);
    }
  }

  /** The step of CandidatesCount, for any scoring function f. */
  lemma CountStep(f: string -> int, items: seq<string>, rest: seq<Scored>, r: seq<Scored>, x: string)
    requires items != []
    requires multiset(Names(rest))[x] == if f(x) > 0 then multiset(items[1..])[x] else 0
    requires r == if f(items[0]) > 0 then [Scored(items[0], f(items[0]))] + rest else rest
    ensures multiset(Names(r))[x] == if f(x) > 0 then multiset(items)[x] else 0
  {
    assert items == [items[0]] + items[1..];
    assert multiset(items) == multiset{items[0]} + multiset(items[1..]);
    if f(items[0]) > 0 {
      assert Names(r) == [items[0]] + Names(rest);
      assert multiset(Names(r)) == multiset{items[0]} + multiset(Names(rest));
    }
  }

  /** Scores never increase along the list. */
  predicate NonIncreasing(cs: seq<Scored>) {
    forall i, j :: 0 <= i < j < |cs| ==> cs[i].score >= cs[j].score
  }

  /** The elements with score v, in list order. */
  function WithScore(cs: seq<Scored>, v: int): seq<Scored> {
    Filter(cs, (c: Scored) => c.score == v)
  }

  lemma WithScoreHead(cs: seq<Scored>, v: int)
    requires cs != []
    ensures WithScore(cs, v) == (if cs[0].score == v then [cs[0]] else []) + WithScore(cs[1..], v)
  {
  }

  lemma WithScoreCons(c: Scored, cs: seq<Scored>, v: int)
    ensures WithScore([c] + cs, v) == (if c.score == v then [c] else []) + WithScore(cs, v)
  {
    assert ([c] + cs)[1..] == cs;
  }

  lemma {:induction false} WithScoreNone(cs: seq<Scored>, v: int)
    requires forall k :: 0 <= k < |cs| ==> cs[k].score != v
    ensures WithScore(cs, v) == []
    decreases |cs|
  {
    if cs != [] {
      assert cs == [cs[0]] + cs[1..];
      WithScoreCons(cs[0], cs[1..], v);
      WithScoreNone(cs[1..], v);
    }
  }

  lemma HeadNonIncreasing(cs: seq<Scored>)
    requires cs != []
    ensures NonIncreasing(cs) ==>
      NonIncreasing(cs[1..]) && forall x :: x in cs[1..] ==> cs[0].score >= x.score
  {
    if NonIncreasing(cs) {
      forall x | x in cs[1..] ensures cs[0].score >= x.score {
        var m :| 0 <= m < |cs[1..]| && cs[1..][m] == x;
        assert cs[m + 1] == x;
      }
    }
  }

  lemma ConsNonIncreasing(c: Scored, rest: seq<Scored>)
    ensures NonIncreasing(rest) && (forall x :: x in rest ==> c.score >= x.score) ==>
      NonIncreasing([c] + rest)
  {
    if NonIncreasing(rest) && (forall x :: x in rest ==> c.score >= x.score) {
      var r := [c] + rest;
      forall i, j | 0 <= i < j < |r| ensures r[i].score >= r[j].score {
        assert r[j] == rest[j - 1];
        if i > 0 { assert r[i] == rest[i - 1]; } else { assert rest[j - 1] in rest; }
      }
    }
  }

  /** Inserts c after every element scoring at least as much: a later
      element never overtakes an earlier one of equal score. */
  function InsertByScore(sorted: seq<Scored>, c: Scored): (r: seq<Scored>)
    ensures multiset(r) == multiset(sorted) + multiset{c}
    ensures forall x :: x in r <==> x in sorted || x == c
    ensures NonIncreasing(sorted) ==> NonIncreasing(r)
    decreases |sorted|
  {
    if sorted == [] then [c]
    else if sorted[0].score >= c.score then
      var rest := InsertByScore(sorted[1..], c);
      InsertBehind(sorted, c, rest);
      [sorted[0]] + rest
    else
      HeadNonIncreasing(sorted);
      ConsNonIncreasing(c, sorted);
      [c] + sorted
  }

  /** The step of InsertByScore that keeps the head in front. */
  lemma InsertBehind(sorted: seq<Scored>, c: Scored, rest: seq<Scored>)
    requires sorted != [] && sorted[0].score >= c.score
    requires multiset(rest) == multiset(sorted[1..]) + multiset{c}
    requires forall x :: x in rest <==> x in sorted[1..] || x == c
    requires NonIncreasing(sorted[1..]) ==> NonIncreasing(rest)
    ensures multiset([sorted[0]] + rest) == multiset(sorted) + multiset{c}
    ensures forall x :: x in [sorted[0]] + rest <==> x in sorted || x == c
    ensures NonIncreasing(sorted) ==> NonIncreasing([sorted[0]] + rest)
  {
    assert sorted == [sorted[0]] + sorted[1..];
    HeadNonIncreasing(sorted);
    ConsNonIncreasing(sorted[0], rest);
  }

  /** Inserting c appends it to the elements of its own score and leaves
      every other score's elements alone. */
  lemma {:induction false} InsertByScoreStable(sorted: seq<Scored>, c: Scored, v: int)
    requires NonIncreasing(sorted)
    ensures WithScore(InsertByScore(sorted, c), v) == WithScore(sorted, v) + (if c.score == v then [c] else [])
    decreases |sorted|
  {
    if sorted == [] {
      WithScoreCons(c, [], v);
    } else if sorted[0].score >= c.score {
      HeadNonIncreasing(sorted);
      InsertByScoreStable(sorted[1..], c, v);
      InsertBehindHead(sorted, c, v);
    } else {
      InsertInFront(sorted, c, v);
    }
  }

  lemma InsertBehindHead(sorted: seq<Scored>, c: Scored, v: int)
    requires sorted != [] && sorted[0].score >= c.score
    requires WithScore(InsertByScore(sorted[1..], c), v) == WithScore(sorted[1..], v) + (if c.score == v then [c] else [])
    ensures WithScore(InsertByScore(sorted, c), v) == WithScore(sorted, v) + (if c.score == v then [c] else [])
  {
    InsertKeepsHead(sorted, c);
    SharedHeadKeepsTail(InsertByScore(sorted, c), sorted, if c.score == v then [c] else [], v);
  }

  /** Two lists with the same head keep the same relation between their
      score-v elements as between their tails'. */
  lemma SharedHeadKeepsTail(xs: seq<Scored>, ys: seq<Scored>, added: seq<Scored>, v: int)
    requires xs != [] && ys != [] && xs[0] == ys[0]
    requires WithScore(xs[1..], v) == WithScore(ys[1..], v) + added
    ensures WithScore(xs, v) == WithScore(ys, v) + added
  {
    WithScoreHead(xs, v);
    WithScoreHead(ys, v);
    var head := if xs[0].score == v then [xs[0]] else [];
    assert head + (WithScore(ys[1..], v) + added) == (head + WithScore(ys[1..], v)) + added;
  }

  lemma InsertKeepsHead(sorted: seq<Scored>, c: Scored)
    requires sorted != [] && sorted[0].score >= c.score
    ensures InsertByScore(sorted, c) != []
    ensures InsertByScore(sorted, c)[0] == sorted[0]
    ensures InsertByScore(sorted, c)[1..] == InsertByScore(sorted[1..], c)
  {
    assert InsertByScore(sorted, c) == [sorted[0]] + InsertByScore(sorted[1..], c);
  }

  lemma InsertInFront(sorted: seq<Scored>, c: Scored, v: int)
    requires NonIncreasing(sorted)
    requires sorted != [] && sorted[0].score < c.score
    ensures WithScore(InsertByScore(sorted, c), v) == WithScore(sorted, v) + (if c.score == v then [c] else [])
  {
    assert InsertByScore(sorted, c) == [c] + sorted;
    WithScoreCons(c, sorted, v);
    if c.score == v {
      forall k | 0 <= k < |sorted| ensures sorted[k].score != v {
        if k > 0 { assert sorted[0].score >= sorted[k].score; }
      }
      WithScoreNone(sorted, v);
    }
  }

  /** sortedByDescending { it.score }: a stable sort, best score first. */
  function SortByScoreDesc(cs: seq<Scored>): (r: seq<Scored>)
    ensures NonIncreasing(r)
    ensures multiset(r) == multiset(cs)
    ensures forall v :: WithScore(r, v) == WithScore(cs, v)
    decreases |cs|
  {
    if cs == [] then []
    else
      var sortedInit := SortByScoreDesc(cs[..|cs| - 1]);
      SortStep(cs, sortedInit);
      InsertByScore(sortedInit, cs[|cs| - 1])
  }

  /** One step of the sort: inserting the last element into the sorted
      prefix gives a permutation of the whole list that appends the element
      to those of its score. */
  lemma SortStep(cs: seq<Scored>, sortedInit: seq<Scored>)
    requires cs != [] && NonIncreasing(sortedInit)
    requires multiset(sortedInit) == multiset(cs[..|cs| - 1])
    requires forall v :: WithScore(sortedInit, v) == WithScore(cs[..|cs| - 1], v)
    ensures multiset(InsertByScore(sortedInit, cs[|cs| - 1])) == multiset(cs)
    ensures forall v :: WithScore(InsertByScore(sortedInit, cs[|cs| - 1]), v) == WithScore(cs, v)
  {
    var init, last := cs[..|cs| - 1], cs[|cs| - 1];
    assert cs == init + [last];
    forall v ensures WithScore(InsertByScore(sortedInit, last), v) == WithScore(cs, v) {
      InsertByScoreStable(sortedInit, last, v);
      WithScoreSnoc(init, last, v);
    }
  }

  lemma {:induction false} WithScoreSnoc(cs: seq<Scored>, c: Scored, v: int)
    ensures WithScore(cs + [c], v) == WithScore(cs, v) + (if c.score == v then [c] else [])
    decreases |cs|
  {
    if cs == [] {
      WithScoreCons(c, [], v);
      assert [] + [c] == [c];
      assert WithScore([], v) == [];
    } else {
      assert cs + [c] == [cs[0]] + (cs[1..] + [c]);
      WithScoreCons(cs[0], cs[1..] + [c], v);
      WithScoreSnoc(cs[1..], c, v);
      WithScoreCons(cs[0], cs[1..], v);
      assert cs == [cs[0]] + cs[1..];
    }
  }

  /** take(limit). */
  function Take<T>(s: seq<T>, limit: nat): (r: seq<T>)
    ensures |r| == if |s| <= limit then |s| else limit
    ensures |s| <= limit ==> r == s
    ensures forall i :: 0 <= i < |r| ==> r[i] == s[i]
  {
    if |s| <= limit then s else s[..limit]
  }

  /** The ranked candidates of fuzzySearch before truncation. */
  function Ranked(query: string, items: seq<string>): (r: seq<Scored>)
    ensures NonIncreasing(r)
    ensures forall i :: 0 <= i < |r| ==>
      r[i].item in items && r[i].score == ScoreOf(Lower(Trim(query)), r[i].item) && r[i].score > 0
  {
    var cs := Candidates(Lower(Trim(query)), items);
    var r := SortByScoreDesc(cs);
    assert forall i :: 0 <= i < |r| ==> r[i] in cs by {
      forall i | 0 <= i < |r| ensures r[i] in cs {
        assert r[i] in multiset(r);
      }
    }
    r
  }

  /** fuzzySearch(query, items, limit): nothing for a blank query or no
      items; otherwise the names scoring above 0 against the trimmed,
      lowercased query, best first (ties in input order), at most limit of
      them. */
  function FuzzySearch(query: string, items: seq<string>, limit: nat): (r: seq<string>)
    ensures IsBlank(query) || items == [] ==> r == []
    ensures |r| <= limit
    ensures forall i :: 0 <= i < |r| ==> r[i] in items && ScoreOf(Lower(Trim(query)), r[i]) > 0
    ensures forall i, j :: 0 <= i < j < |r| ==>
      ScoreOf(Lower(Trim(query)), r[i]) >= ScoreOf(Lower(Trim(query)), r[j])
  {
    if IsBlank(query) || items == [] then []
    else
      var ranked := Ranked(query, items);
      var kept := Take(ranked, limit);
      Names(kept)
  }

  /** The suggestions are the first ranked candidates, so equal scores keep
      the input order among themselves. */
  lemma FuzzySearchIsRankedPrefix(query: string, items: seq<string>, limit: nat)
    requires !IsBlank(query) && items != []
    ensures var r := FuzzySearch(query, items, limit);
      var ranked := Ranked(query, items);
      |r| <= |ranked| && (forall i :: 0 <= i < |r| ==> r[i] == ranked[i].item) &&
      forall v :: WithScore(ranked, v) == WithScore(Candidates(Lower(Trim(query)), items), v)
  {
  }

  /** Every positively scored item is among the ranked candidates. */
  lemma RankedHolds(query: string, items: seq<string>, c: Scored)
    requires c.item in items && c.score == ScoreOf(Lower(Trim(query)), c.item) && c.score > 0
    ensures c in Ranked(query, items)
  {
    var cs := Candidates(Lower(Trim(query)), items);
    assert c in cs;
    assert c in multiset(SortByScoreDesc(cs));
  }

  /** In a non-increasing list, an element outside the first limit means
      those limit elements exist and all score at least as much. */
  lemma CrowdedOut(ranked: seq<Scored>, limit: nat, c: Scored)
    requires NonIncreasing(ranked) && c in ranked
    requires c.item !in Names(Take(ranked, limit))
    ensures |ranked| > limit
    ensures forall i :: 0 <= i < limit ==> ranked[i].score >= c.score
  {
    var m :| 0 <= m < |ranked| && ranked[m] == c;
    var kept := Take(ranked, limit);
    assert forall k :: 0 <= k < |kept| ==> Names(kept)[k] in Names(kept);
  }

  /** An item that scores above 0 but is not suggested was crowded out:
      the list is full, and every suggestion scores at least as much. */
  lemma FuzzySearchKeepsBest(query: string, items: seq<string>, limit: nat, x: string)
    requires !IsBlank(query) && x in items
    requires ScoreOf(Lower(Trim(query)), x) > 0
    requires x !in FuzzySearch(query, items, limit)
    ensures |FuzzySearch(query, items, limit)| == limit
    ensures forall i :: 0 <= i < limit ==>
      ScoreOf(Lower(Trim(query)), FuzzySearch(query, items, limit)[i]) >= ScoreOf(Lower(Trim(query)), x)
  {
    var ranked := Ranked(query, items);
    var c := Scored(x, ScoreOf(Lower(Trim(query)), x));
    RankedHolds(query, items, c);
    assert FuzzySearch(query, items, limit) == Names(Take(ranked, limit));
    CrowdedOut(ranked, limit, c);
  }
}
