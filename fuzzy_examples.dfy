/** The names the scoring examples in calculateFuzzyScore's documentation
    use, lowercased as fuzzySearch passes them. */
module ExampleNames {
  const Gab: string := "gab"
  const Gabtoli: string := "gabtoli"
  const Bus: string := "bus"
  const Stand: string := "stand"
  const BusStand: string := "bus stand"
  const GabtoliBusStand: string := "gabtoli bus stand"
  const Xyz: string := "xyz"
  const Mohakhali: string := "mohakhali"
}

/** The documented scoring examples, worked out against the code. The
    documentation's figures (600 and 300) leave out the substring, word and
    character-sequence points the code also awards; the code gives 1152 and
    1132, and still ranks the shorter name first. */
module FuzzyExamples {
  import opened Text
  import opened Fuzzy
  import opened ExampleNames

  // The lemmas below take the names as parameters equal to the constants,
  // so that the verifier reasons from the stated facts instead of
  // evaluating every recursive definition on the literals.

  lemma GabStartsGabtoli(q: string, item: string)
    requires q == Gab && item == Gabtoli
    ensures StartsWith(item, q) && Contains(item, q)
  {
  }

  lemma GabtoliIsOneWord(item: string)
    requires item == Gabtoli
    ensures SplitOn(item, FuzzySeparators) == [item]
  {
    SplitWithoutDelims(item, FuzzySeparators);
  }

  /** "gab" vs "gabtoli": 500 + 300 + 200 for the one word + 60 for the run
      g-a-b + 100 for all characters - 8 for four extra characters. */
  lemma GabtoliScore(q: string, item: string)
    requires q == Gab && item == Gabtoli
    ensures FuzzyScore(q, item) == 1152
  {
    GabStartsGabtoli(q, item);
    GabtoliIsOneWord(item);
    PrefixScan(q, item);
    assert WordBonus([item], q) == 200 by { assert [item][..0] == []; }
  }

  /** Three delimiter-free words joined by single spaces split back into
      those words. */
  lemma SplitThreeWords(a: string, b: string, c: string)
    requires forall i :: 0 <= i < |a| ==> a[i] !in FuzzySeparators
    requires forall i :: 0 <= i < |b| ==> b[i] !in FuzzySeparators
    requires forall i :: 0 <= i < |c| ==> c[i] !in FuzzySeparators
    ensures SplitOn(a + [' '] + (b + [' '] + c), FuzzySeparators) == [a, b, c]
  {
    SplitAfterWord(a, ' ', b + [' '] + c, FuzzySeparators);
    SplitAfterWord(b, ' ', c, FuzzySeparators);
    SplitWithoutDelims(c, FuzzySeparators);
  }

  lemma GabtoliBusStandWords(item: string, a: string, b: string, c: string)
    requires item == GabtoliBusStand && a == Gabtoli && b == Bus && c == Stand
    ensures SplitOn(item, FuzzySeparators) == [a, b, c]
  {
    assert item == a + [' '] + (b + [' '] + c);
    SplitThreeWords(a, b, c);
  }

  lemma GabMissesWord(q: string, word: string)
    requires q == Gab && (word == Bus || word == Stand)
    ensures WordPoints(word, q) == 0
  {
    assert q[0] !in word;
    if Contains(word, q) { ContainsFirstChar(word, q); }
  }

  lemma GabtoliBusStandBonus(q: string, words: seq<string>)
    requires q == Gab && words == [Gabtoli, Bus, Stand]
    ensures WordBonus(words, q) == 200
  {
    GabStartsGabtoli(q, words[0]);
    GabMissesWord(q, words[1]);
    GabMissesWord(q, words[2]);
    var two := words[..2];
    var one := two[..1];
    assert two[1] == words[1] && one[0] == words[0] && one[..0] == [];
    assert WordBonus(one, q) == 200;
    assert WordBonus(two, q) == 200;
  }

  lemma GabStartsGabtoliBusStand(q: string, item: string)
    requires q == Gab && item == GabtoliBusStand
    ensures StartsWith(item, q) && Contains(item, q)
  {
  }

  /** "gab" vs "gabtoli bus stand": the same points with one word of three
      matching, less 28 for fourteen extra characters. */
  lemma GabtoliBusStandScore(q: string, item: string)
    requires q == Gab && item == GabtoliBusStand
    ensures FuzzyScore(q, item) == 1132
  {
    GabStartsGabtoliBusStand(q, item);
    GabtoliBusStandWords(item, Gabtoli, Bus, Stand);
    GabtoliBusStandBonus(q, SplitOn(item, FuzzySeparators));
    PrefixScan(q, item);
  }

  /** "xyz" vs "mohakhali": no 'x' in the item, so nothing matches. */
  lemma MohakhaliScore(q: string, item: string)
    requires q == Xyz && item == Mohakhali
    ensures FuzzyScore(q, item) == 0
  {
    AbsentFirstCharScoresZero(q, item);
  }

  /** The shorter name outranks the longer one for the same prefix. */
  lemma ShorterNameRanksFirst(q: string, shorter: string, longer: string)
    requires q == Gab && shorter == Gabtoli && longer == GabtoliBusStand
    ensures ScoreOf(q, shorter) > ScoreOf(q, longer) > 0
  {
    LowerUnchanged(shorter);
    LowerUnchanged(longer);
    GabtoliScore(q, shorter);
    GabtoliBusStandScore(q, longer);
  }
}
