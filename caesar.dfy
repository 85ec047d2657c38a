/** The Caesar breaker of breaking/caesar.py: try all 26 shifts, score each
    decryption and rank the shifts, highest score first. */
module Caesar {

  import opened Common
  import opened Ranking
  import Transforms

  const AlphabetSize: nat := 26

  /** A Caesar key: a shift of the alphabet. */
  type Key = k: int | 0 <= k < 26

  // ---------------------------------------------------------------------
  // The cipher

  /** An upper-case letter moved `k` places along the alphabet, cyclically. */
  function ShiftLetter(c: char, k: int): (d: char)
    requires Transforms.IsUpper(c)
    ensures Transforms.IsUpper(d)
  {
    (((c as int - 'A' as int + k) % 26) + 'A' as int) as char
  }

  /** `Caesar(key).decipher(text)`: every letter A-Z moves back `key` places;
      any other character is left as it is. */
  function Decipher(text: string, key: Key): (p: string)
    ensures |p| == |text|
  {
    seq(|text|, i requires 0 <= i < |text| =>
      if Transforms.IsUpper(text[i]) then ShiftLetter(text[i], -(key as int)) else text[i])
  }

  /** The inverse: every letter A-Z moves forward `key` places. */
  function Encipher(text: string, key: Key): (c: string)
    ensures |c| == |text|
  {
    seq(|text|, i requires 0 <= i < |text| =>
      if Transforms.IsUpper(text[i]) then ShiftLetter(text[i], key) else text[i])
  }

  /** Deciphering undoes enciphering under the same key. */
  lemma DecipherEncipher(text: string, key: Key)
    ensures Decipher(Encipher(text, key), key) == text
  {
    var c := Encipher(text, key);
    forall i | 0 <= i < |text| ensures Decipher(c, key)[i] == text[i] {
      if Transforms.IsUpper(text[i]) {
        var x := text[i] as int - 'A' as int;
        assert c[i] as int - 'A' as int == (x + key) % 26;
        assert ((x + key) % 26 - key) % 26 == x;
      }
    }
  }

  /** Deciphering keeps every character that is not an upper-case letter. */
  lemma DecipherKeepsOthers(text: string, key: Key, i: nat)
    requires i < |text| && !Transforms.IsUpper(text[i])
    ensures Decipher(text, key)[i] == text[i]
  {
  }

  /** The example at the bottom of breaking/caesar.py, on its letters (as
      the masker reduces it): key 14 turns the ciphertext back into the
      plaintext. */
  lemma SampleDecryption()
    ensures Decipher(Transforms.Letters("Vszzc Kcfzr, vck ofs mci rcwbu fwuvh bck?"), 14) == "HELLOWORLDHOWAREYOUDOINGRIGHTNOW"
  {
    SampleReduction();
    SampleShift();
  }

  /** Key 14 deciphers the reduced ciphertext to the reduced plaintext. */
  lemma SampleShift()
    ensures Decipher("VSZZCKCFZRVCKOFSMCIRCWBUFWUVHBCK", 14) == "HELLOWORLDHOWAREYOUDOINGRIGHTNOW"
  {
  }

  /** The masker reduces the example ciphertext to its letters, uppercased. */
  lemma SampleReduction()
    ensures Transforms.Letters("Vszzc Kcfzr, vck ofs mci rcwbu fwuvh bck?") == "VSZZCKCFZRVCKOFSMCIRCWBUFWUVHBCK"
  {
    assert "Vszzc Kcfzr, vck ofs mci rcwbu fwuvh bck?" == "Vszzc " + "Kcfzr, " + "vck " + "ofs " + "mci " + "rcwbu " + "fwuvh " + "bck?";
    assert "VSZZCKCFZRVCKOFSMCIRCWBUFWUVHBCK" == "VSZZC" + "KCFZR" + "VCK" + "OFS" + "MCI" + "RCWBU" + "FWUVH" + "BCK";
    assert Transforms.Letters("Vszzc " + "Kcfzr, " + "vck " + "ofs " + "mci " + "rcwbu " + "fwuvh " + "bck?") == "VSZZC" + "KCFZR" + "VCK" + "OFS" + "MCI" + "RCWBU" + "FWUVH" + "BCK" by {
      SampleWord0(); SampleWord1(); SampleWord2(); SampleWord3(); SampleWord4(); SampleWord5(); SampleWord6(); SampleWord7();
      LettersOfEight("Vszzc ", "Kcfzr, ", "vck ", "ofs ", "mci ", "rcwbu ", "fwuvh ", "bck?");
    }
  }

  // The masker's reduction of the sample, one word at a time; evaluating
  // it on the whole sentence at once is beyond what the solver unfolds.
  lemma SampleWord0() ensures Transforms.Letters("Vszzc ") == "VSZZC" {}
  lemma SampleWord1() ensures Transforms.Letters("Kcfzr, ") == "KCFZR" {}
  lemma SampleWord2() ensures Transforms.Letters("vck ") == "VCK" {}
  lemma SampleWord3() ensures Transforms.Letters("ofs ") == "OFS" {}
  lemma SampleWord4() ensures Transforms.Letters("mci ") == "MCI" {}
  lemma SampleWord5() ensures Transforms.Letters("rcwbu ") == "RCWBU" {}
  lemma SampleWord6() ensures Transforms.Letters("fwuvh ") == "FWUVH" {}
  lemma SampleWord7() ensures Transforms.Letters("bck?") == "BCK" {}

  lemma LettersOfEight(a: string, b: string, c: string, d: string, e: string, f: string, g: string, h: string)
    ensures Transforms.Letters(a + b + c + d + e + f + g + h)
         == Transforms.Letters(a) + Transforms.Letters(b) + Transforms.Letters(c) + Transforms.Letters(d)
          + Transforms.Letters(e) + Transforms.Letters(f) + Transforms.Letters(g) + Transforms.Letters(h)
  {
    Transforms.LettersConcat(a + b + c + d + e + f + g, h);
    Transforms.LettersConcat(a + b + c + d + e + f, g);
    Transforms.LettersConcat(a + b + c + d + e, f);
    Transforms.LettersConcat(a + b + c + d, e);
    Transforms.LettersConcat(a + b + c, d);
    Transforms.LettersConcat(a + b, c);
    Transforms.LettersConcat(a, b);
  }

  // ---------------------------------------------------------------------
  // Ranking the shifts

  /** `[(i, scorer.score(decipher(text, i))) for i in range(26)]`. */
  function Candidates(scorer: Scorer, text: string): (cs: seq<Entry<int>>)
    ensures |cs| == AlphabetSize
    ensures forall i :: 0 <= i < |cs| ==> cs[i] == (i, scorer(Decipher(text, i)))
  {
    seq(AlphabetSize, i requires 0 <= i < AlphabetSize => (i, scorer(Decipher(text, i))))
  }

  /** `scores(text)`: the candidates, stably sorted by descending score. */
  function Scores(scorer: Scorer, text: string): seq<Entry<int>>
  {
    SortDesc(Candidates(scorer, text))
  }

  /** `scores` has exactly 26 entries; their keys are 0..25, each exactly once;
      each entry holds the score of its own decryption; and they are ranked
      by descending score, ties in ascending key order. */
  lemma ScoresRanked(scorer: Scorer, text: string)
    ensures var r := Scores(scorer, text);
      && |r| == AlphabetSize
      && RankedByScoreThenKey(r)
      && (forall i :: 0 <= i < |r| ==> 0 <= r[i].0 < AlphabetSize && r[i].1 == scorer(Decipher(text, r[i].0)))
      && (forall i, j :: 0 <= i < j < |r| ==> r[i].0 != r[j].0)
      && (forall k :: 0 <= k < AlphabetSize ==> HasKey(r, k))
  {
    SortDescNumbered(Candidates(scorer, text), 0);
  }

  /** `best(text)`: the first entry of `scores(text)`. */
  function Best(scorer: Scorer, text: string): Entry<int>
  {
    Scores(scorer, text)[0]
  }

  /** The best shift scores at least as high as every shift, and strictly
      higher than every smaller shift: the first maximum. */
  lemma BestIsFirstMaximum(scorer: Scorer, text: string)
    ensures var b := Best(scorer, text);
      && 0 <= b.0 < AlphabetSize
      && b.1 == scorer(Decipher(text, b.0))
      && (forall k: Key :: scorer(Decipher(text, k)) <= b.1)
      && (forall k: Key :: k < b.0 ==> scorer(Decipher(text, k)) < b.1)
  {
    var cs := Candidates(scorer, text);
    SortDescNumberedFirst(cs, 0, Scores(scorer, text));
    forall k: Key ensures scorer(Decipher(text, k)) == cs[k].1 && cs[k].0 == k {
    }
  }

  /** A guess: the decryption, its score and the key as a letter. */
  type Attempt = (string, real, char)

  /** `chr(key + 65)`: the key as the letter the shift maps A to. */
  function KeyLetter(key: Key): (c: char)
    ensures Transforms.IsUpper(c)
  {
    (key + 65) as char
  }

  /** The guesses for the ranked shifts, in ranked order. */
  function Guesses(text: string, ranked: seq<Entry<int>>): (g: seq<Attempt>)
    requires forall i :: 0 <= i < |ranked| ==> 0 <= ranked[i].0 < AlphabetSize
    ensures |g| == |ranked|
  {
    seq(|ranked|, i requires 0 <= i < |ranked| =>
      (Decipher(text, ranked[i].0), ranked[i].1, KeyLetter(ranked[i].0)))
  }

  /** `guess(text, n)`: the first `n` guesses in ranked order (Python's `[:n]`). */
  function Guess(scorer: Scorer, text: string, n: int): seq<Attempt>
  {
    ScoresRanked(scorer, text);
    Take(Guesses(text, Scores(scorer, text)), n)
  }

  /** `guess(text, n)` for `n >= 0` holds `min(n, 26)` guesses that follow
      `scores(text)` in order; each carries its decryption, its score and
      its key as a letter A-Z. */
  lemma GuessFollowsScores(scorer: Scorer, text: string, n: int)
    requires n >= 0
    ensures var g, r := Guess(scorer, text, n), Scores(scorer, text);
      && |g| == (if n <= AlphabetSize then n else AlphabetSize)
      && forall i :: 0 <= i < |g| ==>
           && 0 <= r[i].0 < AlphabetSize
           && g[i] == (Decipher(text, r[i].0), r[i].1, KeyLetter(r[i].0))
           && Transforms.IsUpper(g[i].2)
           && |g[i].0| == |text|
  {
    ScoresRanked(scorer, text);
  }

  /** `best_guess(text)`: the decryption of the first guess. */
  function BestGuess(scorer: Scorer, text: string): string
  {
    GuessFollowsScores(scorer, text, 1);
    Guess(scorer, text, 1)[0].0
  }

  /** The best guess is the decryption under the best shift, so no shift
      yields a decryption that scores higher. */
  lemma BestGuessIsBest(scorer: Scorer, text: string)
    ensures var b := Best(scorer, text);
      && 0 <= b.0 < AlphabetSize
      && BestGuess(scorer, text) == Decipher(text, b.0)
      && |BestGuess(scorer, text)| == |text|
      && forall k: Key :: scorer(Decipher(text, k)) <= scorer(BestGuess(scorer, text))
  {
    GuessFollowsScores(scorer, text, 1);
    BestIsFirstMaximum(scorer, text);
  }
}
