/** The index-of-coincidence scorer of score/ioc.py: the letter histogram of
    a text and the statistic  sum_i f_i (f_i - 1) / (N (N - 1)). */
module Ioc {

  import opened Common

  /** Number of occurrences of `c` in `s`. */
  function Occurrences(s: string, c: char): (n: nat)
    ensures n <= |s|
  {
    if s == [] then 0 else Occurrences(s[..|s| - 1], c) + (if s[|s| - 1] == c then 1 else 0)
  }

  lemma {:induction false} OccurrencesIsMultiplicity(s: string, c: char)
    ensures multiset(s)[c] == Occurrences(s, c)
  {
    if s != [] {
      assert s == s[..|s| - 1] + [s[|s| - 1]];
      OccurrencesIsMultiplicity(s[..|s| - 1], c);
    }
  }

  lemma {:induction false} OccurrencesAbsent(s: string, c: char)
    requires c !in s
    ensures Occurrences(s, c) == 0
  {
    if s != [] {
      assert s[..|s| - 1] <= s;
      OccurrencesAbsent(s[..|s| - 1], c);
    }
  }

  /** The histogram `_get_letter_frequencies` builds, one character at a
      time, a missing entry counting as zero. */
  function Histogram(text: string): map<char, int>
  {
    if text == [] then map[]
    else
      var h, c := Histogram(text[..|text| - 1]), text[|text| - 1];
      h[c := (if c in h then h[c] else 0) + 1]
  }

  /** The histogram has one entry per distinct character of the text,
      holding the number of times that character occurs. */
  lemma {:induction false} HistogramCounts(text: string)
    ensures forall c :: c in Histogram(text) <==> c in text
    ensures forall c :: c in Histogram(text) ==> Histogram(text)[c] == Occurrences(text, c)
  {
    if text != [] {
      var s, c := text[..|text| - 1], text[|text| - 1];
      HistogramCounts(s);
      assert text == s + [c];
      if c !in Histogram(s) { OccurrencesAbsent(s, c); }
    }
  }

  /** The count the histogram holds for `c`, a missing entry counting as zero. */
  lemma HistogramAt(text: string, c: char)
    ensures (if c in Histogram(text) then Histogram(text)[c] else 0) == Occurrences(text, c)
  {
    HistogramCounts(text);
    if c !in Histogram(text) { OccurrencesAbsent(text, c); }
  }

  lemma HistogramSnoc(text: string, i: nat)
    requires i < |text|
    ensures var h, c := Histogram(text[..i]), text[i];
      Histogram(text[..i + 1]) == h[c := (if c in h then h[c] else 0) + 1]
  {
    assert text[..i + 1][..i] == text[..i];
  }

  /** `_get_letter_frequencies`: a counting loop over the characters, with
      a missing entry counting as zero. */
  method LetterFrequencies(text: string) returns (hist: map<char, int>)
    ensures hist == Histogram(text)
  {
    hist := map[];
    var i := 0;
    while i < |text|
      invariant 0 <= i <= |text|
      invariant hist == Histogram(text[..i])
    {
      var c := text[i];
      HistogramSnoc(text, i);
      hist := hist[c := (if c in hist then hist[c] else 0) + 1];
      i := i + 1;
    }
    assert text[..i] == text;
  }

  /** The histogram depends only on the multiset of characters. */
  lemma HistogramOfMultiset(a: string, b: string)
    requires multiset(a) == multiset(b)
    ensures Histogram(a) == Histogram(b)
  {
    forall c ensures (c in a <==> c in b) && Occurrences(a, c) == Occurrences(b, c) {
      assert c in a <==> c in multiset(a);
      assert c in b <==> c in multiset(b);
      OccurrencesIsMultiplicity(a, c);
      OccurrencesIsMultiplicity(b, c);
    }
    HistogramCounts(a);
    HistogramCounts(b);
  }

  // ---------------------------------------------------------------------
  // Sums over a dictionary's values, in no particular order

  /** Sum of the values of `h` at the keys `ks`, in no particular order
      (Python's iteration over `hist.items()`). */
  ghost function SumOver(h: map<char, int>, ks: set<char>): int
    requires ks <= h.Keys
    decreases ks
  {
    if ks == {} then 0 else h[Pick(ks)] + SumOver(h, ks - {Pick(ks)})
  }

  /** The sum does not depend on which key is taken first. */
  lemma {:induction false} SumOverRemove(h: map<char, int>, ks: set<char>, c: char)
    requires ks <= h.Keys && c in ks
    ensures SumOver(h, ks) == h[c] + SumOver(h, ks - {c})
    decreases ks
  {
    var d := Pick(ks);
    if d != c {
      SumOverRemove(h, ks - {d}, c);
      SumOverRemove(h, ks - {c}, d);
      assert ks - {d} - {c} == ks - {c} - {d};
    }
  }

  /** Only the values at the summed keys matter. */
  lemma {:induction false} SumOverAgree(h: map<char, int>, g: map<char, int>, ks: set<char>)
    requires ks <= h.Keys && ks <= g.Keys
    requires forall c :: c in ks ==> h[c] == g[c]
    ensures SumOver(h, ks) == SumOver(g, ks)
    decreases ks
  {
    if ks != {} {
      SumOverAgree(h, g, ks - {Pick(ks)});
    }
  }

  /** Sum of all the values of a dictionary. */
  ghost function SumValues(h: map<char, int>): int
  {
    SumOver(h, h.Keys)
  }

  lemma SumValuesUpdate(h: map<char, int>, c: char, v: int)
    ensures SumValues(h[c := v]) == SumValues(h) - (if c in h then h[c] else 0) + v
  {
    var g := h[c := v];
    SumOverRemove(g, g.Keys, c);
    assert g.Keys - {c} == h.Keys - {c};
    SumOverAgree(g, h, h.Keys - {c});
    if c in h {
      SumOverRemove(h, h.Keys, c);
    } else {
      assert h.Keys - {c} == h.Keys;
    }
  }

  /** Number of ordered pairs of distinct positions among `f` equal letters. */
  function Pairs(f: int): int
  {
    f * (f - 1)
  }

  /** `value * (value - 1)` for every entry of the histogram. */
  function PairCounts(h: map<char, int>): (p: map<char, int>)
    ensures p.Keys == h.Keys
  {
    map c | c in h :: Pairs(h[c])
  }

  /** The numerator `sum([value * (value - 1) for _, value in hist.items()])`. */
  ghost function Statistic(h: map<char, int>): int
  {
    SumValues(PairCounts(h))
  }

  /** `score(text)`: undefined below two characters, where the denominator
      `len(text) * (len(text) - 1)` is zero. */
  ghost function IocScore(text: string): real
    requires |text| >= 2
  {
    DenominatorPositive(|text|);
    Statistic(Histogram(text)) as real / (|text| * (|text| - 1)) as real
  }

  /** `score(text)`: builds the histogram, then sums f (f - 1) over its entries. */
  method Score(text: string) returns (r: real)
    requires |text| >= 2
    ensures r == IocScore(text)
  {
    var hist := LetterFrequencies(text);
    ghost var pairs := PairCounts(hist);
    var statistic := 0;
    var rest := hist.Keys;
    while rest != {}
      invariant rest <= hist.Keys
      invariant statistic + SumOver(pairs, rest) == SumValues(pairs)
      decreases |rest|
    {
      var c :| c in rest;
      SumOverRemove(pairs, rest, c);
      statistic := statistic + Pairs(hist[c]);
      rest := rest - {c};
    }
    var normalizingFactor := |text| * (|text| - 1);
    DenominatorPositive(|text|);
    r := statistic as real / normalizingFactor as real;
  }

  // ---------------------------------------------------------------------
  // Properties

  /** The histogram's counts add up to the length of the text. */
  lemma {:induction false} HistogramTotal(text: string)
    ensures SumValues(Histogram(text)) == |text|
  {
    if text == [] {
    } else {
      var s, c := text[..|text| - 1], text[|text| - 1];
      assert text == s + [c];
      HistogramTotal(s);
      var h := Histogram(s);
      HistogramSnoc(text, |s|);
      SumValuesUpdate(h, c, (if c in h then h[c] else 0) + 1);
    }
  }

  /** Twice the number of pairs of earlier positions holding the same
      character: an independent count of coincidences. */
  function Coincidences(s: string): nat
  {
    if s == [] then 0 else Coincidences(s[..|s| - 1]) + 2 * Occurrences(s[..|s| - 1], s[|s| - 1])
  }

  /** The numerator counts the coincidences of the text. */
  lemma {:induction false} StatisticCountsCoincidences(text: string)
    ensures Statistic(Histogram(text)) == Coincidences(text)
  {
    if text != [] {
      var s, c := text[..|text| - 1], text[|text| - 1];
      StatisticCountsCoincidences(s);
      var f := Occurrences(s, c);
      var h := Histogram(s);
      HistogramAt(s, c);
      var p := PairCounts(h);
      assert (if c in p then p[c] else 0) == Pairs(f);
      calc {
        Statistic(Histogram(text));
        Statistic(h[c := (if c in h then h[c] else 0) + 1]);
        SumValues(PairCounts(h[c := f + 1]));
        { PairCountsUpdate(h, c, f + 1); }
        SumValues(p[c := Pairs(f + 1)]);
        { SumValuesUpdate(p, c, Pairs(f + 1)); }
        SumValues(p) - Pairs(f) + Pairs(f + 1);
        { PairsStep(f); }
        Coincidences(s) + 2 * f;
        Coincidences(text);
      }
    }
  }

  lemma PairCountsUpdate(h: map<char, int>, c: char, v: int)
    ensures PairCounts(h[c := v]) == PairCounts(h)[c := Pairs(v)]
  {
  }

  lemma PairsStep(f: int)
    ensures Pairs(f + 1) == Pairs(f) + 2 * f
  {
    assert (f + 1) * f == f * f + f;
    assert f * (f - 1) == f * f - f;
  }

  /** `len(text) * (len(text) - 1)` is positive from two characters on. */
  lemma DenominatorPositive(n: int)
    requires n >= 2
    ensures n * (n - 1) >= 2
  {
    assert n * (n - 1) >= 2 * 1 by { assert n - 1 >= 1; }
  }

  lemma RatioInUnitInterval(num: real, den: real)
    requires 0.0 <= num <= den && 0.0 < den
    ensures 0.0 <= num / den <= 1.0
  {
    assert num / den * den == num;
  }

  lemma {:induction false} CoincidencesBound(s: string)
    ensures Coincidences(s) <= |s| * (|s| - 1)
  {
    if s != [] {
      var n := |s| - 1;
      CoincidencesBound(s[..n]);
      PairsStep(n);
      assert Coincidences(s) <= Pairs(n) + 2 * n;
    }
  }

  /** For a text of at least two characters the numerator is non-negative,
      at most the denominator, and the score lies in [0, 1]. */
  lemma ScoreInUnitInterval(text: string)
    requires |text| >= 2
    ensures 0 <= Statistic(Histogram(text)) <= |text| * (|text| - 1)
    ensures 0.0 <= IocScore(text) <= 1.0
  {
    StatisticCountsCoincidences(text);
    CoincidencesBound(text);
    var n := |text|;
    DenominatorPositive(n);
    RatioInUnitInterval(Statistic(Histogram(text)) as real, (n * (n - 1)) as real);
  }

  /** The score depends only on the histogram, so any reordering of the
      text scores the same. */
  lemma ScorePermutationInvariant(a: string, b: string)
    requires |a| >= 2
    requires multiset(a) == multiset(b)
    ensures |b| == |a| && IocScore(b) == IocScore(a)
  {
    assert |a| == |multiset(a)| == |multiset(b)| == |b|;
    HistogramOfMultiset(a, b);
  }
}
