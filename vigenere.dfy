/** The Vigenère breaker and the key-length detector of breaking/vigenere.py.

    A text is split into `k` interleaved chunks (every k-th character); each
    chunk is a Caesar cipher, broken on its own; the decrypted chunks are
    interleaved again. The detector ranks candidate key lengths by the mean
    score of their chunks. */
module Vigenere {

  import opened Common
  import opened Ranking
  import Caesar
  import Transforms

  // ---------------------------------------------------------------------
  // Arithmetic on division and remainder

  /** The quotient and remainder are the unique ones. */
  lemma DivModUnique(n: int, k: int, q: int, m: int)
    requires k >= 1 && 0 <= m < k && n == q * k + m
    ensures n / k == q && n % k == m
  {
    var q', m' := n / k, n % k;
    assert n == q' * k + m';
    if q > q' {
      MulAtLeast(q - q', k);
    } else if q < q' {
      MulAtLeast(q' - q, k);
    }
  }

  lemma MulAtLeast(d: int, k: int)
    requires d >= 1 && k >= 1
    ensures d * k >= k
  {
    assert d * k == (d - 1) * k + k;
    assert (d - 1) * k >= 0;
  }

  // ---------------------------------------------------------------------
  // Chunks

  /** The number of indices below `n` that leave remainder `r` modulo `k`. */
  function ChunkLen(n: int, k: nat, r: nat): nat
    requires k >= 1
    decreases n
  {
    if n <= r then 0 else 1 + ChunkLen(n - k, k, r)
  }

  /** Position `j` of chunk `r` exists exactly when the text index `j k + r` does. */
  lemma {:induction false} ChunkLenBound(n: int, k: nat, r: nat, j: nat)
    requires k >= 1 && r < k
    ensures j < ChunkLen(n, k, r) <==> j * k + r < n
    decreases n
  {
    if n > r && j > 0 {
      ChunkLenBound(n - k, k, r, j - 1);
      assert (j - 1) * k == j * k - k;
    }
  }

  /** One more character lengthens exactly chunk `n % k`. */
  lemma {:induction false} ChunkLenStep(n: nat, k: nat, r: nat)
    requires k >= 1 && r < k
    ensures ChunkLen(n + 1, k, r) == ChunkLen(n, k, r) + (if n % k == r then 1 else 0)
    decreases n
  {
    if n < k {
      DivModUnique(n, k, 0, n);
      if n >= r {
        assert ChunkLen(n + 1 - k, k, r) == 0;
        if n > r { assert ChunkLen(n - k, k, r) == 0; }
      }
    } else {
      ChunkLenStep(n - k, k, r);
      DivModUnique(n, k, n / k, n % k);
      DivModUnique(n - k, k, n / k - 1, n % k);
    }
  }

  /** The length of chunk `r`: `n // k`, one more for the first `n % k` chunks. */
  lemma {:induction false} ChunkLenFormula(n: nat, k: nat, r: nat)
    requires k >= 1 && r < k
    ensures ChunkLen(n, k, r) == n / k + (if r < n % k then 1 else 0)
  {
    if n > 0 {
      var q, m := (n - 1) / k, (n - 1) % k;
      ChunkLenFormula(n - 1, k, r);
      ChunkLenStep(n - 1, k, r);
      NextQuotient(n - 1, k);
      assert ChunkLen(n, k, r) == q + (if r < m then 1 else 0) + (if m == r then 1 else 0);
      if m + 1 < k {
        assert n / k == q && n % k == m + 1;
      } else {
        assert n / k == q + 1 && n % k == 0;
      }
    }
  }

  /** How the quotient and remainder by `k` move from `n` to `n + 1`. */
  lemma NextQuotient(n: nat, k: nat)
    requires k >= 1
    ensures n % k + 1 < k ==> (n + 1) / k == n / k && (n + 1) % k == n % k + 1
    ensures n % k + 1 == k ==> (n + 1) / k == n / k + 1 && (n + 1) % k == 0
  {
    var q, m := n / k, n % k;
    if m + 1 < k {
      DivModUnique(n + 1, k, q, m + 1);
    } else {
      DivModUnique(n + 1, k, q + 1, 0);
    }
  }

  /** Chunk `r`: the characters at indices `r, r + k, r + 2k, ...`. */
  function ChunkOf(text: string, k: nat, r: nat): (c: string)
    requires k >= 1 && r < k
    ensures |c| == ChunkLen(|text|, k, r)
  {
    var len := ChunkLen(|text|, k, r);
    seq(len, j requires 0 <= j < len => ChunkLenBound(|text|, k, r, j); text[j * k + r])
  }

  /** `chunk(text)` with `key_length = k`. */
  function Chunks(text: string, k: nat): (cs: seq<string>)
    requires k >= 1
    ensures |cs| == k
  {
    seq(k, r requires 0 <= r < k => ChunkOf(text, k, r))
  }

  /** Appending a character extends exactly chunk `|text| % k`. */
  lemma ChunkOfSnoc(text: string, k: nat, i: nat, r: nat)
    requires k >= 1 && r < k && i < |text|
    ensures ChunkOf(text[..i + 1], k, r) == ChunkOf(text[..i], k, r) + (if i % k == r then [text[i]] else [])
  {
    ChunkLenStep(i, k, r);
    var a, b := ChunkOf(text[..i + 1], k, r), ChunkOf(text[..i], k, r);
    forall j | 0 <= j < |b| ensures a[j] == b[j] {
      ChunkLenBound(i, k, r, j);
    }
    if i % k == r {
      var l := |b|;
      ChunkLenBound(i + 1, k, r, l);
      ChunkLenBound(i, k, r, l);
      assert a[l] == text[i];
      assert a == b + [text[i]];
    } else {
      assert a == b;
    }
  }

  /** `chunk(text)`: deals the characters, in order, onto `k` piles. */
  method Chunk(text: string, k: nat) returns (chunks: seq<string>)
    requires k >= 1
    ensures chunks == Chunks(text, k)
  {
    chunks := seq(k, _ => "");
    var i := 0;
    while i < |text|
      invariant 0 <= i <= |text|
      invariant |chunks| == k
      invariant forall r :: 0 <= r < k ==> chunks[r] == ChunkOf(text[..i], k, r)
    {
      forall r | 0 <= r < k {
        ChunkOfSnoc(text, k, i, r);
      }
      chunks := chunks[i % k := chunks[i % k] + [text[i]]];
      i := i + 1;
    }
    assert text[..i] == text;
  }

  /** The character at index `i` lands in chunk `i % k`, at position `i // k`. */
  lemma ChunkPosition(text: string, k: nat, i: nat)
    requires k >= 1 && i < |text|
    ensures var c := Chunks(text, k)[i % k];
      i / k < |c| && c[i / k] == text[i]
  {
    var q, m := i / k, i % k;
    assert q * k + m == i;
    ChunkLenBound(|text|, k, m, q);
  }

  /** Sum of the lengths of the chunks `0 .. c - 1`. */
  function TotalLength(chunks: seq<string>): nat
  {
    if chunks == [] then 0 else TotalLength(chunks[..|chunks| - 1]) + |chunks[|chunks| - 1]|
  }

  /** Sum of the chunk lengths `ChunkLen(n, k, r)` for `r < c`. */
  function ChunkLenSum(n: int, k: nat, c: nat): nat
    requires k >= 1
  {
    if c == 0 then 0 else ChunkLenSum(n, k, c - 1) + ChunkLen(n, k, c - 1)
  }

  lemma {:induction false} ChunkLenSumStep(n: nat, k: nat, c: nat)
    requires k >= 1 && c <= k
    ensures ChunkLenSum(n + 1, k, c) == ChunkLenSum(n, k, c) + (if n % k < c then 1 else 0)
  {
    if c > 0 {
      ChunkLenSumStep(n, k, c - 1);
      ChunkLenStep(n, k, c - 1);
    }
  }

  lemma {:induction false} ChunkLenSumEmpty(k: nat, c: nat)
    requires k >= 1
    ensures ChunkLenSum(0, k, c) == 0
  {
    if c > 0 {
      ChunkLenSumEmpty(k, c - 1);
    }
  }

  lemma {:induction false} ChunkLenSumTotal(n: nat, k: nat)
    requires k >= 1
    ensures ChunkLenSum(n, k, k) == n
  {
    if n == 0 {
      ChunkLenSumEmpty(k, k);
    } else {
      ChunkLenSumTotal(n - 1, k);
      ChunkLenSumStep(n - 1, k, k);
    }
  }

  lemma {:induction false} TotalLengthOfChunks(text: string, k: nat, c: nat)
    requires k >= 1 && c <= k
    ensures TotalLength(Chunks(text, k)[..c]) == ChunkLenSum(|text|, k, c)
  {
    if c > 0 {
      TotalLengthOfChunks(text, k, c - 1);
      assert Chunks(text, k)[..c][..c - 1] == Chunks(text, k)[..c - 1];
    }
  }

  /** `chunk` returns `k` chunks whose lengths add up to the length of the
      text, do not increase from one chunk to the next, and differ by at most one. */
  lemma ChunksShape(text: string, k: nat)
    requires k >= 1
    ensures var cs := Chunks(text, k);
      && |cs| == k
      && TotalLength(cs) == |text|
      && forall r, s :: 0 <= r <= s < k ==> |cs[s]| <= |cs[r]| <= |cs[s]| + 1
  {
    var cs := Chunks(text, k);
    TotalLengthOfChunks(text, k, k);
    assert cs[..k] == cs;
    ChunkLenSumTotal(|text|, k);
    forall r, s | 0 <= r <= s < k ensures |cs[s]| <= |cs[r]| <= |cs[s]| + 1 {
      ChunkLenFormula(|text|, k, r);
      ChunkLenFormula(|text|, k, s);
    }
  }

  // ---------------------------------------------------------------------
  // Interleaving the chunks again

  /** `max([len(chunk) for chunk in chunks])`. */
  function Longest(chunks: seq<string>): (m: nat)
    requires |chunks| > 0
    ensures forall i :: 0 <= i < |chunks| ==> |chunks[i]| <= m
    ensures exists i :: 0 <= i < |chunks| && |chunks[i]| == m
  {
    if |chunks| == 1 then |chunks[0]|
    else
      var m := Longest(chunks[..|chunks| - 1]);
      var last := |chunks[|chunks| - 1]|;
      if last > m then last else m
  }

  /** Row `i` over the first `c` chunks: their `i`-th characters, skipping
      chunks too short to have one. */
  function RowPart(chunks: seq<string>, i: nat, c: nat): string
    requires c <= |chunks|
  {
    if c == 0 then []
    else RowPart(chunks, i, c - 1) + (if i < |chunks[c - 1]| then [chunks[c - 1][i]] else [])
  }

  /** The rows `0 .. m - 1`, one after the other. */
  function Rows(chunks: seq<string>, m: nat): string
  {
    if m == 0 then [] else Rows(chunks, m - 1) + RowPart(chunks, m - 1, |chunks|)
  }

  /** What `zip(chunks)` returns. */
  function Zipped(chunks: seq<string>): string
    requires |chunks| > 0
  {
    Rows(chunks, Longest(chunks))
  }

  /** `zip(chunks)`: for each position up to the longest chunk, the
      characters at that position of every chunk that has one. */
  method Zip(chunks: seq<string>) returns (result: string)
    requires |chunks| > 0
    ensures result == Zipped(chunks)
  {
    result := [];
    var longest := Longest(chunks);
    var i := 0;
    while i < longest
      invariant 0 <= i <= longest
      invariant result == Rows(chunks, i)
    {
      var c := 0;
      while c < |chunks|
        invariant 0 <= c <= |chunks|
        invariant result == Rows(chunks, i) + RowPart(chunks, i, c)
      {
        if i < |chunks[c]| {
          result := result + [chunks[c][i]];
        }
        c := c + 1;
      }
      i := i + 1;
    }
  }

  function Clamp(x: int, n: nat): nat
  {
    if x < 0 then 0 else if x > n then n else x
  }

  /** Row `i` of the chunks of `text` is the slice of `text` from `i k` to `i k + k`. */
  lemma {:induction false} RowPartOfChunks(text: string, k: nat, i: nat, c: nat)
    requires k >= 1 && c <= k
    ensures var n := |text|;
      RowPart(Chunks(text, k), i, c) == text[Clamp(i * k, n)..Clamp(i * k + c, n)]
  {
    var n := |text|;
    if c > 0 {
      var cs, r, x := Chunks(text, k), c - 1, i * k;
      RowPartOfChunks(text, k, i, r);
      assert RowPart(cs, i, c) == RowPart(cs, i, r) + (if i < |cs[r]| then [cs[r][i]] else []);
      ChunkLenBound(n, k, r, i);
      if x + r < n {
        assert cs[r][i] == text[x + r];
        var lo := Clamp(x, n);
        assert Clamp(x + c, n) == x + r + 1 && Clamp(x + r, n) == x + r;
        SliceSnoc(text, lo, x + r);
      } else {
        assert Clamp(x + c, n) == n == Clamp(x + r, n);
      }
    }
  }

  lemma {:induction false} RowsOfChunks(text: string, k: nat, m: nat)
    requires k >= 1
    ensures Rows(Chunks(text, k), m) == text[..Clamp(m * k, |text|)]
  {
    if m > 0 {
      RowsOfChunks(text, k, m - 1);
      RowPartOfChunks(text, k, m - 1, k);
      assert (m - 1) * k + k == m * k;
      var a, b := Clamp((m - 1) * k, |text|), Clamp(m * k, |text|);
      PrefixSplit(text, a, b);
    }
  }

  /** Round trip: interleaving the chunks of a text gives the text back. */
  lemma ZipChunks(text: string, k: nat)
    requires k >= 1
    ensures Zipped(Chunks(text, k)) == text
  {
    var cs := Chunks(text, k);
    var longest := Longest(cs);
    var r :| 0 <= r < |cs| && |cs[r]| == longest;
    ChunksShape(text, k);
    assert |cs[0]| == ChunkLen(|text|, k, 0);
    assert |cs[r]| <= |cs[0]| <= longest;
    assert longest == ChunkLen(|text|, k, 0);
    ChunkLenBound(|text|, k, 0, longest);
    RowsOfChunks(text, k, longest);
    assert text[..|text|] == text;
  }

  // ---------------------------------------------------------------------
  // Breaking the chunks

  /** The shift `CaesarBreak.best` picks for a chunk. */
  function BestShift(scorer: Scorer, chunk: string): Caesar.Key
  {
    Caesar.BestIsFirstMaximum(scorer, chunk);
    Caesar.Best(scorer, chunk).0
  }

  /** `break_caesars(chunks)`: the best Caesar guess for each chunk, its
      decryption and its key letter. */
  method BreakCaesars(scorer: Scorer, chunks: seq<string>) returns (plaintexts: seq<string>, keys: seq<char>)
    ensures |plaintexts| == |chunks| && |keys| == |chunks|
    ensures forall i :: 0 <= i < |chunks| ==>
      && plaintexts[i] == Caesar.Decipher(chunks[i], BestShift(scorer, chunks[i]))
      && keys[i] == Caesar.KeyLetter(BestShift(scorer, chunks[i]))
  {
    plaintexts, keys := [], [];
    for i := 0 to |chunks|
      invariant |plaintexts| == i && |keys| == i
      invariant forall j :: 0 <= j < i ==>
        && plaintexts[j] == Caesar.Decipher(chunks[j], BestShift(scorer, chunks[j]))
        && keys[j] == Caesar.KeyLetter(BestShift(scorer, chunks[j]))
    {
      Caesar.GuessFollowsScores(scorer, chunks[i], 1);
      var first := Caesar.Guess(scorer, chunks[i], 1)[0];
      plaintexts := plaintexts + [first.0];
      keys := keys + [first.2];
    }
  }

  /** Vigenère decryption: the letter at index `i` moves back `shifts[i % k]` places. */
  function VigenereDecipher(text: string, shifts: seq<Caesar.Key>): (p: string)
    requires |shifts| >= 1
    ensures |p| == |text|
  {
    seq(|text|, i requires 0 <= i < |text| =>
      if Transforms.IsUpper(text[i]) then Caesar.ShiftLetter(text[i], -(shifts[i % |shifts|] as int)) else text[i])
  }

  /** Deciphering each chunk with its own shift is deciphering the text
      with the key made of those shifts, chunk by chunk. */
  lemma ChunksOfDecipher(text: string, shifts: seq<Caesar.Key>)
    requires |shifts| >= 1
    ensures var k := |shifts|;
      forall r :: 0 <= r < k ==>
        Chunks(VigenereDecipher(text, shifts), k)[r] == Caesar.Decipher(Chunks(text, k)[r], shifts[r])
  {
    var k := |shifts|;
    var p := VigenereDecipher(text, shifts);
    forall r | 0 <= r < k
      ensures Chunks(p, k)[r] == Caesar.Decipher(Chunks(text, k)[r], shifts[r])
    {
      var a, b := Chunks(p, k)[r], Caesar.Decipher(Chunks(text, k)[r], shifts[r]);
      forall j | 0 <= j < |a| ensures a[j] == b[j] {
        ChunkLenBound(|text|, k, r, j);
        DivModUnique(j * k + r, k, j, r);
      }
    }
  }

  /** `VigenereBreak(key_length).guess(text)`: a single guess holding the
      interleaved decrypted chunks, no score, and the key letters. */
  method Guess(scorer: Scorer, keyLength: nat, text: string) returns (guesses: seq<(string, Option<real>, string)>)
    requires keyLength >= 1
    ensures |guesses| == 1
    ensures var (plaintext, score, key) := guesses[0];
      var shifts := seq(keyLength, r requires 0 <= r < keyLength => BestShift(scorer, Chunks(text, keyLength)[r]));
      && plaintext == VigenereDecipher(text, shifts)
      && |plaintext| == |text|
      && score == None
      && |key| == keyLength
      && forall r :: 0 <= r < keyLength ==> key[r] == Caesar.KeyLetter(shifts[r])
  {
    var chunks := Chunk(text, keyLength);
    var plaintextChunks, keys := BreakCaesars(scorer, chunks);
    var plaintext := Zip(plaintextChunks);
    guesses := [(plaintext, None, keys)];
    ghost var shifts := seq(keyLength, r requires 0 <= r < keyLength => BestShift(scorer, Chunks(text, keyLength)[r]));
    ChunksOfDecipher(text, shifts);
    assert plaintextChunks == Chunks(VigenereDecipher(text, shifts), keyLength);
    ZipChunks(VigenereDecipher(text, shifts), keyLength);
  }

  // ---------------------------------------------------------------------
  // The key-length detector

  /** The score `KeylengthDetector` expects of random text. */
  const ExpectedScoreRandom: real := 0.035

  /** The defaults of `KeylengthDetector.__init__`. */
  const DefaultMinKeylength: int := 1
  const DefaultMaxKeylength: int := 20
  const DefaultExpectedScorePlaintext: real := 0.06

  datatype Detector = Detector(minN: int, maxN: int, expectedScorePlaintext: real, threshold: real, verbose: bool)

  /** `KeylengthDetector(scorer, min_keylength, max_keylength,
      expected_score_plaintext, verbose)`: fails unless plaintext is expected
      to score above random text; the threshold is the midpoint of the two
      and lies strictly between them. */
  function NewDetector(minN: int, maxN: int, expectedScorePlaintext: real, verbose: bool): (r: Result<Detector>)
    ensures r.Success? <==> expectedScorePlaintext > ExpectedScoreRandom
    ensures r.Failure? ==> r.error == InvalidThreshold
    ensures r.Success? ==>
      && r.value.minN == minN && r.value.maxN == maxN && r.value.verbose == verbose
      && r.value.expectedScorePlaintext == expectedScorePlaintext
      && r.value.threshold - ExpectedScoreRandom == expectedScorePlaintext - r.value.threshold
      && ExpectedScoreRandom < r.value.threshold < expectedScorePlaintext
  {
    if expectedScorePlaintext > ExpectedScoreRandom then
      Success(Detector(minN, maxN, expectedScorePlaintext, (expectedScorePlaintext + ExpectedScoreRandom) / 2.0, verbose))
    else
      Failure(InvalidThreshold)
  }

  /** The detector with every default of `__init__`: key lengths 1 to 20,
      plaintext expected at 0.06, hence a threshold of 0.0475. */
  lemma DefaultDetector()
    ensures NewDetector(DefaultMinKeylength, DefaultMaxKeylength, DefaultExpectedScorePlaintext, true)
         == Success(Detector(1, 20, 0.06, 0.0475, true))
  {
  }

  /** `score(text, n)`: the mean of the scorer over the `n` chunks. */
  function MeanChunkScore(scorer: Scorer, text: string, n: nat): real
    requires n >= 1
  {
    var cs := Chunks(text, n);
    SumReals(seq(n, r requires 0 <= r < n => scorer(cs[r]))) / n as real
  }

  /** The number of lengths in `range(min_n, max_n + 1)`. */
  function RangeSize(d: Detector): nat
  {
    if d.maxN < d.minN then 0 else d.maxN - d.minN + 1
  }

  /** `{i: self.score(text, i) for i in range(min_n, max_n + 1)}`, in key order. */
  function LengthScores(d: Detector, scorer: Scorer, text: string): (xs: seq<Entry<int>>)
    requires d.minN >= 1
    ensures NumberedFrom(xs, d.minN) && |xs| == RangeSize(d)
  {
    seq(RangeSize(d), i requires 0 <= i < RangeSize(d) => (d.minN + i, MeanChunkScore(scorer, text, d.minN + i)))
  }

  /** `detect(text)`: the key lengths, ranked by mean chunk score. */
  function Detect(d: Detector, scorer: Scorer, text: string): seq<Entry<int>>
    requires d.minN >= 1
  {
    SortDesc(LengthScores(d, scorer, text))
  }

  /** `detect` has one entry per length in `[min_n, max_n]`, holding the mean
      chunk score for that length, ranked non-increasing by score (ties in
      ascending length). */
  lemma DetectRanked(d: Detector, scorer: Scorer, text: string)
    requires d.minN >= 1
    ensures var r := Detect(d, scorer, text);
      && |r| == RangeSize(d)
      && NonIncreasing(r)
      && RankedByScoreThenKey(r)
      && (forall i :: 0 <= i < |r| ==> d.minN <= r[i].0 <= d.maxN && r[i].1 == MeanChunkScore(scorer, text, r[i].0))
      && (forall i, j :: 0 <= i < j < |r| ==> r[i].0 != r[j].0)
      && (forall n :: d.minN <= n <= d.maxN ==> HasKey(r, n))
  {
    var xs := LengthScores(d, scorer, text);
    SortDescNumbered(xs, d.minN);
    SortDescNonIncreasing(xs);
  }

  // ---------------------------------------------------------------------
  // The heuristic check of `validate_heuristically`

  function Abs(x: real): real
  {
    if x < 0.0 then -x else x
  }

  /** `max(scores.values())`. */
  function MaxScore(scores: seq<Entry<int>>): (m: real)
    requires |scores| > 0
    ensures forall i :: 0 <= i < |scores| ==> scores[i].1 <= m
    ensures exists i :: 0 <= i < |scores| && scores[i].1 == m
  {
    if |scores| == 1 then scores[0].1
    else
      var m := MaxScore(scores[..|scores| - 1]);
      var last := scores[|scores| - 1].1;
      if last > m then last else m
  }

  /** `min(scores.values())`. */
  function MinScore(scores: seq<Entry<int>>): (m: real)
    requires |scores| > 0
    ensures forall i :: 0 <= i < |scores| ==> m <= scores[i].1
    ensures exists i :: 0 <= i < |scores| && scores[i].1 == m
  {
    if |scores| == 1 then scores[0].1
    else
      var m := MinScore(scores[..|scores| - 1]);
      var last := scores[|scores| - 1].1;
      if last < m then last else m
  }

  /** A score belongs to the high group when it is closer to the maximum than to the minimum. */
  predicate IsHigh(score: real, maxScore: real, minScore: real)
  {
    Abs(score - maxScore) < Abs(score - minScore)
  }

  /** The entries of `scores` in the high group (`high`) or the low group (`!high`), in order. */
  function Group(scores: seq<Entry<int>>, maxScore: real, minScore: real, high: bool): seq<Entry<int>>
  {
    if scores == [] then []
    else
      var e := scores[|scores| - 1];
      Group(scores[..|scores| - 1], maxScore, minScore, high) + (if IsHigh(e.1, maxScore, minScore) == high then [e] else [])
  }

  /** The entries of `high` that survive harmonic elimination: odd lengths,
      and even lengths whose half is not a high length. */
  function Harmonics(high: seq<Entry<int>>, highKeys: set<int>): seq<Entry<int>>
  {
    if high == [] then []
    else
      var e := high[|high| - 1];
      Harmonics(high[..|high| - 1], highKeys) + (if e.0 % 2 != 0 || e.0 / 2 !in highKeys then [e] else [])
  }

  function Keys(entries: seq<Entry<int>>): set<int>
  {
    set e | e in entries :: e.0
  }

  /** What `validate_heuristically` finds: its two warnings, the two groups
      and the candidate key lengths it reports. */
  datatype Report = Report(maxTooLow: bool, minTooHigh: bool,
                           high: seq<Entry<int>>, low: seq<Entry<int>>, candidates: seq<Entry<int>>)

  /** `validate_heuristically(scores)`, with what it prints returned instead. */
  method ValidateHeuristically(d: Detector, scores: seq<Entry<int>>) returns (report: Report)
    requires |scores| > 0
    ensures var maxScore, minScore := MaxScore(scores), MinScore(scores);
      && (report.maxTooLow <==> maxScore < d.threshold)
      && (report.minTooHigh <==> minScore > d.threshold)
      && report.high == Group(scores, maxScore, minScore, true)
      && report.low == Group(scores, maxScore, minScore, false)
      && report.candidates == Harmonics(report.high, Keys(report.high))
  {
    var maxScore, minScore := MaxScore(scores), MinScore(scores);
    var high, low := [], [];
    for i := 0 to |scores|
      invariant high == Group(scores[..i], maxScore, minScore, true)
      invariant low == Group(scores[..i], maxScore, minScore, false)
    {
      GroupSnoc(scores, i, maxScore, minScore);
      var (key, score) := scores[i];
      if Abs(score - maxScore) < Abs(score - minScore) {
        high := high + [(key, score)];
      } else {
        low := low + [(key, score)];
      }
    }
    assert scores[..|scores|] == scores;
    var highKeys := Keys(high);
    var result := [];
    for i := 0 to |high|
      invariant result == Harmonics(high[..i], highKeys)
    {
      HarmonicsSnoc(high, i, highKeys);
      var (key, score) := high[i];
      if key % 2 != 0 || key / 2 !in highKeys {
        result := result + [(key, score)];
      }
    }
    assert high[..|high|] == high;
    report := Report(maxScore < d.threshold, minScore > d.threshold, high, low, result);
  }

  lemma GroupSnoc(scores: seq<Entry<int>>, i: nat, maxScore: real, minScore: real)
    requires i < |scores|
    ensures forall high: bool ::
      Group(scores[..i + 1], maxScore, minScore, high)
        == Group(scores[..i], maxScore, minScore, high) + (if IsHigh(scores[i].1, maxScore, minScore) == high then [scores[i]] else [])
  {
    assert scores[..i + 1][..i] == scores[..i];
  }

  lemma HarmonicsSnoc(high: seq<Entry<int>>, i: nat, highKeys: set<int>)
    requires i < |high|
    ensures Harmonics(high[..i + 1], highKeys)
      == Harmonics(high[..i], highKeys) + (if high[i].0 % 2 != 0 || high[i].0 / 2 !in highKeys then [high[i]] else [])
  {
    assert high[..i + 1][..i] == high[..i];
  }

  /** Every entry falls into exactly one of the two groups, and the groups
      together hold all the entries. */
  lemma GroupsPartition(scores: seq<Entry<int>>, maxScore: real, minScore: real)
    ensures var high, low := Group(scores, maxScore, minScore, true), Group(scores, maxScore, minScore, false);
      && multiset(high) + multiset(low) == multiset(scores)
      && (forall e :: e in high <==> e in scores && IsHigh(e.1, maxScore, minScore))
      && (forall e :: e in low <==> e in scores && !IsHigh(e.1, maxScore, minScore))
  {
    GroupsMultiset(scores, maxScore, minScore);
    GroupMembers(scores, maxScore, minScore, true);
    GroupMembers(scores, maxScore, minScore, false);
  }

  lemma {:induction false} GroupsMultiset(scores: seq<Entry<int>>, maxScore: real, minScore: real)
    ensures multiset(Group(scores, maxScore, minScore, true)) + multiset(Group(scores, maxScore, minScore, false)) == multiset(scores)
  {
    if scores != [] {
      var init, e := scores[..|scores| - 1], scores[|scores| - 1];
      GroupsMultiset(init, maxScore, minScore);
      var high, low := Group(init, maxScore, minScore, true), Group(init, maxScore, minScore, false);
      assert multiset(scores) == multiset(init) + multiset{e} by { assert scores == init + [e]; }
      if IsHigh(e.1, maxScore, minScore) {
        assert Group(scores, maxScore, minScore, true) == high + [e];
        assert Group(scores, maxScore, minScore, false) == low;
      } else {
        assert Group(scores, maxScore, minScore, true) == high;
        assert Group(scores, maxScore, minScore, false) == low + [e];
      }
    }
  }

  /** The entries of a group are the entries on its side of the split. */
  lemma {:induction false} GroupMembers(scores: seq<Entry<int>>, maxScore: real, minScore: real, high: bool)
    ensures forall e :: e in Group(scores, maxScore, minScore, high) <==> e in scores && IsHigh(e.1, maxScore, minScore) == high
  {
    if scores != [] {
      var init, e := scores[..|scores| - 1], scores[|scores| - 1];
      GroupMembers(init, maxScore, minScore, high);
      assert scores == init + [e];
    }
  }

  /** When every length scores the same, the high group is empty. */
  lemma {:induction false} EqualScoresNoHighGroup(scores: seq<Entry<int>>, maxScore: real)
    ensures Group(scores, maxScore, maxScore, true) == []
  {
    if scores != [] {
      EqualScoresNoHighGroup(scores[..|scores| - 1], maxScore);
    }
  }

  /** When every length scores the same, the maximum and the minimum agree. */
  lemma AllEqualScores(scores: seq<Entry<int>>)
    requires |scores| > 0
    requires forall i :: 0 <= i < |scores| ==> scores[i].1 == scores[0].1
    ensures MaxScore(scores) == MinScore(scores)
    ensures Group(scores, MaxScore(scores), MinScore(scores), true) == []
  {
    EqualScoresNoHighGroup(scores, MaxScore(scores));
  }

  /** Harmonic elimination keeps exactly the odd lengths and the even
      lengths whose half is not among the high lengths. */
  lemma {:induction false} HarmonicsKeep(high: seq<Entry<int>>, highKeys: set<int>)
    ensures forall e :: e in Harmonics(high, highKeys) <==> e in high && (e.0 % 2 != 0 || e.0 / 2 !in highKeys)
  {
    if high != [] {
      var init, e := high[..|high| - 1], high[|high| - 1];
      HarmonicsKeep(init, highKeys);
      assert high == init + [e];
    }
  }
}
