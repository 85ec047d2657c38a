# Classical cipher breaking, modelled in Dafny

This project models the core of *cryptanalysis*, a small Python toolkit for
breaking classical ciphers:

- the **masker** (`util/transforms.py`). It strips a text down to its letters,
  upper-cased. Later it puts a replacement text of the same length back into
  the original layout, with the original case and punctuation.
- two **scorers**. The index of coincidence (`score/ioc.py`) is
  `sum f (f - 1) / (N (N - 1))` over the letter histogram. The n-gram scorer
  (`score/ngram.py`) sums table log-probabilities over a sliding window. It
  can optionally remove ignored characters and split on a separator first.
- the **Caesar breaker** (`breaking/caesar.py`). It tries all 26 shifts and
  ranks them by the score of their decryption.
- the **Vigenère breaker and key-length detector** (`breaking/vigenere.py`).
  The text is dealt into `k` interleaved chunks. Each chunk is broken as a
  Caesar cipher, and the results are interleaved again. The detector ranks
  the candidate key lengths by the mean chunk score. A heuristic then splits
  them into a high and a low group and drops harmonics (`2k` when `k` is
  high).
- the **substitution breaker** (`breaking/substitution.py`). It is a
  random-restart hill climb over permutations of the alphabet, with a pool of
  candidate keys ranked by score.

Modules follow the source files:

- `Common`: results and errors, Python's `s[:n]`, and the scorer type.
- `Ranking`: Python's stable `sorted(..., reverse=True, key=score)`, which
  the breakers share.
- One module each for `Transforms`, `Ioc`, `Ngram`, `Caesar`, `Vigenere` and
  `Substitution`.

Every scorer is an opaque `string -> real`. Python's `random` module becomes
the `Substitution.Random` class: a fixed stream of raw draws, plus the number
of draws taken so far. Seeding the generator amounts to choosing the stream.

The n-gram scorer's table is overwritten in place, so it is a class. The pool
of the substitution breaker is a field that its methods update. Loops of the
source are `while`/`for` loops proved against specification functions. The
masker never changes after construction, so it is a datatype.

## Model

| member | source | states |
|---|---|---|
| `Common.Take` | breaking/caesar.py:15 | Python's `[:n]`: the result is a prefix of length `min(n, len)`; a negative `n` drops that many entries from the end |
| `Transforms.Upper` | util/transforms.py:31 | upper-casing turns every ASCII letter into an upper-case one and leaves every non-lower-case character alone |
| `Transforms.Lower` | util/transforms.py:48-49 | lower-casing keeps lower-case letters and turns upper-case ones into lower-case ones |
| `Transforms.CaseRoundTrip` | util/transforms.py:31 | lower-casing an upper-cased lower-case letter gives it back; an upper-case letter is its own upper case |
| `Transforms.AlphabetMask` | util/transforms.py:19-21 | one 0/1 entry per character, 1 exactly at the letters `[a-zA-Z]` |
| `Transforms.LowercaseMask` | util/transforms.py:23-24 | one 0/1 entry per character, 1 exactly at the lower-case letters |
| `Transforms.GetReducedText` | util/transforms.py:26-34 | the single pass yields the upper-cased letters and the remaining characters, each in their original order |
| `Transforms.NewMasker` | util/transforms.py:6-12 | the constructed masker holds the text and the masks, reduced text and non-letters derived from it |
| `Transforms.Reduce` | util/transforms.py:36-37 | `reduce()` is the upper-cased letters of the text |
| `Transforms.FromText` | util/transforms.py:14-17 | returns the reduced text together with a valid masker of the text |
| `Transforms.Extend` | util/transforms.py:39-53 | fails with a length error exactly when `new_text` does not have one character per letter; otherwise returns the extension of the text by `new_text` |
| `Transforms.Refill` | util/transforms.py:42-53 | the loop over the mask, consuming the two queues, builds exactly the extension |
| `Transforms.MaskCountsLetters` | util/transforms.py:40-41 | the sum of the alphabet mask is the number of letters, and the non-letters are all the other characters |
| `Transforms.LettersAreUpper` | util/transforms.py:29-31 | the reduced text consists of upper-case letters only |
| `Transforms.LettersInOrder` | util/transforms.py:26-34 | the letter at position `i` stands in the reduced text right after the letters before it; a non-letter stands in the non-letter list right after the non-letters before it |
| `Transforms.ReduceIdempotent` | util/transforms.py:26-37 | reducing a reduced text changes nothing and leaves no non-letters |
| `Transforms.ExtendedLength` | util/transforms.py:44-53 | the extension is as long as the original text |
| `Transforms.ExtendedAt` | util/transforms.py:45-52 | position by position: every non-letter is kept; each letter becomes the next unused character of `new_text`, lower-cased exactly where the original was lower-case |
| `Transforms.ExtendReduceRoundTrip` | util/transforms.py:36-53 | extending with the masker's own reduced text gives back the original text, case and punctuation included |
| `Transforms.RoundTrip` | util/transforms.py:14-17 | `from_text` then `extend` with the reduced text succeeds and returns the original text |
| `Ioc.LetterFrequencies` | score/ioc.py:18-22 | the counting loop builds the histogram of the text |
| `Ioc.HistogramCounts` | score/ioc.py:18-22 | the histogram has an entry for exactly the characters that occur, each holding its number of occurrences |
| `Ioc.HistogramOfMultiset` | score/ioc.py:18-22 | two texts with the same characters, counted with multiplicity, have the same histogram |
| `Ioc.HistogramTotal` | score/ioc.py:18-22 | the histogram's counts add up to the length of the text |
| `Ioc.SumOverRemove` | score/ioc.py:14 | the sum over the dictionary's values does not depend on the order in which the keys are visited |
| `Ioc.Score` | score/ioc.py:8-16 | the loop sums `f (f - 1)` over the histogram and divides by `N (N - 1)`: the index of coincidence of the text |
| `Ioc.DenominatorPositive` | score/ioc.py:15 | from two characters on the normalising factor is positive |
| `Ioc.StatisticCountsCoincidences` | score/ioc.py:14 | the numerator equals an independent count of ordered pairs of distinct positions holding the same character |
| `Ioc.CoincidencesBound` | score/ioc.py:14-15 | there are at most `N (N - 1)` such pairs |
| `Ioc.ScoreInUnitInterval` | score/ioc.py:8-16 | for a text of at least two characters the numerator lies in `[0, N (N - 1)]` and the score in `[0, 1]` |
| `Ioc.ScorePermutationInvariant` | score/ioc.py:8-16 | any reordering of a text has the same score |
| `Ngram.IdentifyNgramLength` | score/ngram.py:10-13 | succeeds exactly when the table is non-empty and all keys share one length, and then returns that length; otherwise fails with the n-gram length error |
| `Ngram.SingleKeyLength` | score/ngram.py:11-12 | all keys share one length exactly when the set of key lengths is a singleton |
| `Ngram.NgramScorer.Create` | score/ngram.py:5-8 | fails exactly when the key lengths are inconsistent; otherwise a fresh scorer with the same keys, `n` their length, each value the log of its share of the total, and `alpha` the log of `0.01 / total` |
| `Ngram.NgramScorer.TableTotal` | score/ngram.py:16 | the loop computes the sum of the table's values |
| `Ngram.NgramScorer.CalculateLogProbs` | score/ngram.py:15-19 | every value becomes the log of its share of the old total, the key set and `n` are unchanged, and `alpha` is the log of the floor's share |
| `Ngram.Windows` | score/ngram.py:37-38 | the windows are the `len - n + 1` slices `text[i:i+n]` (none for a shorter text), each of length `n` |
| `Ngram.Contributions` | score/ngram.py:39-42 | each window contributes its table value, or `alpha` when absent |
| `Ngram.NgramScorer.WindowSum` | score/ngram.py:34-43 | the sliding-window loop computes the sum of the contributions of all windows |
| `Ngram.ShortTextScoresZero` | score/ngram.py:34-43 | a text shorter than `n` scores 0 |
| `Ngram.WindowScoreSnoc` | score/ngram.py:34-43 | appending a character adds exactly the contribution of the one new window |
| `Ngram.WindowScoreAllKnown` | score/ngram.py:39-42 | when every window is in the table the floor value does not matter |
| `Ngram.Without` | score/ngram.py:31 | `replace(c, '')` leaves no `c` and keeps every other character |
| `Ngram.Filter` | score/ngram.py:29-32 | the reference filter keeps exactly the characters not in `ignore` |
| `Ngram.RemoveCharacters` | score/ngram.py:29-32 | the loop applies one `replace` per ignored character |
| `Ngram.RemovedIsFilter` | score/ngram.py:29-32 | the successive replacements are the one-pass filter: exactly the ignored characters go, the rest stay in order |
| `Ngram.FilterIdempotent` | score/ngram.py:29-32 | removing the same characters twice is removing them once |
| `Ngram.IndexOf` | score/ngram.py:25 | a reported index is an occurrence of the separator |
| `Ngram.IndexOfLeftmost` | score/ngram.py:25 | the reported occurrence is the leftmost one, and none is reported only when there is none |
| `Ngram.Split` | score/ngram.py:25 | `str.split` with a non-empty separator yields at least one part |
| `Ngram.SplitJoin` | score/ngram.py:25 | joining the parts with the separator gives back the text |
| `Ngram.SplitPartsFree` | score/ngram.py:25 | no part contains the separator |
| `Ngram.NgramScorer.Score` | score/ngram.py:21-27 | `score(text, split_by, ignore)` returns the full score: filter, then split and sum the parts or score in one piece; an empty separator is an error |
| `Ngram.FullScoreCases` | score/ngram.py:21-27 | with no `ignore` the text is scored as given; with no `split_by` it is scored in one piece; an empty separator fails; otherwise the parts' scores are summed |
| `Ngram.SplitOnAbsentSeparator` | score/ngram.py:24-25 | splitting on a separator that does not occur gives the unsplit score |
| `Caesar.Decipher` | breaking/caesar.py:34-35 | a Caesar decryption keeps the length of the text |
| `Caesar.DecipherEncipher` | breaking/caesar.py:34-35 | deciphering undoes enciphering under the same key |
| `Caesar.DecipherKeepsOthers` | breaking/caesar.py:34-35 | characters other than upper-case letters are kept |
| `Caesar.SampleReduction` | breaking/caesar.py:49-53 | the masker reduces the example ciphertext to its 32 letters, uppercased |
| `Caesar.SampleShift` | breaking/caesar.py:48-49 | key 14 turns the reduced example ciphertext into the letters of the example plaintext, uppercased |
| `Caesar.SampleDecryption` | breaking/caesar.py:48-53 | the example ciphertext, reduced by the masker, deciphers under key 14 to the example plaintext |
| `Caesar.Candidates` | breaking/caesar.py:30-31 | 26 pairs, the `i`-th holding shift `i` and the score of its decryption |
| `Caesar.ScoresRanked` | breaking/caesar.py:29-32 | `scores` holds each of the 26 shifts exactly once with the score of its decryption, highest score first, ties in ascending shift |
| `Caesar.BestIsFirstMaximum` | breaking/caesar.py:26-27 | `best` is a shift whose score no shift beats and that every smaller shift scores strictly below |
| `Caesar.KeyLetter` | breaking/caesar.py:14 | `chr(key + 65)` is an upper-case letter |
| `Caesar.Guesses` | breaking/caesar.py:14 | one guess per ranked entry |
| `Caesar.GuessFollowsScores` | breaking/caesar.py:13-15 | `guess(text, n)` holds `min(n, 26)` guesses following `scores` in order, each the decryption, its score and the key letter |
| `Caesar.BestGuessIsBest` | breaking/caesar.py:9-11 | `best_guess` is the decryption under `best`, so no shift scores higher |
| `Vigenere.ChunkLenBound` | breaking/vigenere.py:29-30 | position `j` of chunk `r` exists exactly when the text index `j k + r` does |
| `Vigenere.ChunkLenFormula` | breaking/vigenere.py:27-31 | chunk `r` has `n // k` characters, plus one when `r < n % k` |
| `Vigenere.ChunkOf` | breaking/vigenere.py:27-31 | chunk `r` has as many characters as there are indices below `n` congruent to `r` |
| `Vigenere.Chunks` | breaking/vigenere.py:27-31 | there are exactly `k` chunks |
| `Vigenere.Chunk` | breaking/vigenere.py:27-31 | the dealing loop builds chunk `r` from the characters at indices `r, r + k, ...` |
| `Vigenere.ChunkOfSnoc` | breaking/vigenere.py:29-30 | the character at index `i` is appended to chunk `i % k` and to no other |
| `Vigenere.ChunkPosition` | breaking/vigenere.py:29-30 | the character at index `i` is at position `i // k` of chunk `i % k` |
| `Vigenere.ChunksShape` | breaking/vigenere.py:27-31 | the chunk lengths add up to the text length, do not increase, and differ by at most one |
| `Vigenere.Longest` | breaking/vigenere.py:43 | `max` of the chunk lengths: no chunk is longer, and some chunk has that length |
| `Vigenere.Zip` | breaking/vigenere.py:41-48 | the nested loop takes, for each position up to the longest chunk, that position of every chunk that has one |
| `Vigenere.ZipChunks` | breaking/vigenere.py:41-48 | interleaving the chunks of a text gives the text back |
| `Vigenere.BreakCaesars` | breaking/vigenere.py:33-39 | each chunk gets the decryption and key letter of its best Caesar shift |
| `Vigenere.VigenereDecipher` | breaking/vigenere.py:21-25 | the reference Vigenère decryption keeps the length of the text |
| `Vigenere.ChunksOfDecipher` | breaking/vigenere.py:33-39 | deciphering chunk `r` with shift `r` is chunk `r` of the Vigenère decryption with those shifts |
| `Vigenere.Guess` | breaking/vigenere.py:21-25 | one guess: the Vigenère decryption under the best shift of each chunk, no score, and the key letters of those shifts |
| `Vigenere.NewDetector` | breaking/vigenere.py:52-64 | fails exactly when the expected plaintext score is not above 0.035; otherwise the detector keeps the given bounds, expected score and verbosity, and the threshold is the midpoint, strictly between the two |
| `Vigenere.DefaultDetector` | breaking/vigenere.py:52-64 | with every default (key lengths 1 to 20, plaintext expected at 0.06) construction succeeds with threshold 0.0475 |
| `Vigenere.LengthScores` | breaking/vigenere.py:67-68 | one entry per length in `range(min_n, max_n + 1)`, in ascending order |
| `Vigenere.DetectRanked` | breaking/vigenere.py:66-73 | `detect` holds each length in `[min_n, max_n]` exactly once with its mean chunk score, ranked non-increasing, ties in ascending length |
| `Vigenere.MaxScore` | breaking/vigenere.py:78 | the maximum of the scores is one of them and no score exceeds it |
| `Vigenere.MinScore` | breaking/vigenere.py:78 | the minimum of the scores is one of them and no score is below it |
| `Vigenere.ValidateHeuristically` | breaking/vigenere.py:75-99 | the two warnings fire exactly when the maximum is below or the minimum above the threshold; the groups and the surviving candidates are those of the reference definitions |
| `Vigenere.GroupsPartition` | breaking/vigenere.py:85-90 | every entry is in exactly one group, the high group holding exactly the entries closer to the maximum than to the minimum |
| `Vigenere.GroupsMultiset` | breaking/vigenere.py:85-90 | the two groups together hold all the entries, with multiplicity |
| `Vigenere.GroupMembers` | breaking/vigenere.py:86-90 | an entry is in a group exactly when it is an entry on that side of the split |
| `Vigenere.EqualScoresNoHighGroup` | breaking/vigenere.py:87 | when the maximum equals the minimum no entry is closer to the maximum |
| `Vigenere.AllEqualScores` | breaking/vigenere.py:78-90 | when every length scores the same, the maximum and the minimum agree and the high group is empty |
| `Vigenere.HarmonicsKeep` | breaking/vigenere.py:92-95 | harmonic elimination keeps exactly the odd lengths and the even lengths whose half is not a high length |
| `Ranking.InsertAt` | breaking/substitution.py:29-32 | inserting splices the entry in after the leading entries scoring at least as high |
| `Ranking.InsertSplices` | breaking/substitution.py:29-32 | into a ranked pool the entry goes after every entry scoring at least as high and before every entry scoring lower |
| `Ranking.InsertKeepsOrder` | breaking/substitution.py:29-32 | inserting into a ranked pool keeps it ranked |
| `Ranking.InsertPermutes` | breaking/substitution.py:29-32 | inserting adds exactly the one entry |
| `Ranking.SortDescAppend` | breaking/substitution.py:29-32 | appending to a ranked pool and re-sorting is inserting |
| `Ranking.SortDescOfRanked` | breaking/substitution.py:31-32 | sorting a ranked sequence leaves it unchanged |
| `Ranking.SortDescNonIncreasing` | breaking/caesar.py:32 | the sort ranks by non-increasing score |
| `Ranking.SortDescPermutes` | breaking/caesar.py:32 | the sort is a permutation of its input |
| `Ranking.SortDescStable` | breaking/caesar.py:32 | stability: for input keys in ascending order, equal scores stay in ascending key order |
| `Ranking.SortDescNumbered` | breaking/caesar.py:29-32 | sorting entries numbered from `base` keeps each number exactly once, with its own entry, ranked by score and then number |
| `Ranking.SortDescNumberedFirst` | breaking/caesar.py:26-27 | the first entry of the sorted numbered entries is their first maximum |
| `Substitution.AlphabetFacts` | breaking/substitution.py:35 | the alphabet has 26 distinct letters, holding exactly the upper-case letters, each at its own index |
| `Substitution.KeyIsPermutation` | breaking/substitution.py:35-36 | the keys are exactly the permutations of the alphabet |
| `Substitution.KeyFacts` | breaking/substitution.py:35-36 | a key has 26 distinct upper-case letters and holds every upper-case letter |
| `Substitution.IndexOf` | breaking/substitution.py:57-58 | `key.index(c)` is the first position holding `c` |
| `Substitution.Decipher` | breaking/substitution.py:57-58 | a substitution decryption keeps the length of the text |
| `Substitution.DecipherEncipher` | breaking/substitution.py:57-58 | deciphering undoes enciphering under the same key |
| `Substitution.EncipherDecipher` | breaking/substitution.py:57-58 | enciphering undoes deciphering under the same key |
| `Substitution.DecipherIdentity` | breaking/substitution.py:57-58 | the alphabet is a key, and it deciphers every text to itself |
| `Substitution.SwapProperties` | breaking/substitution.py:48-52 | the swap exchanges the two positions, leaves every other position alone and permutes the list; `a == b` is the identity |
| `Substitution.SwapInvolution` | breaking/substitution.py:50-51 | swapping the same positions twice restores the list |
| `Substitution.SwapKeepsKey` | breaking/substitution.py:48-52 | a swap turns a key into a key |
| `Substitution.Exchange` | breaking/substitution.py:51 | the in-place exchange leaves the array holding the swapped list |
| `Substitution.ShuffledPermutes` | breaking/substitution.py:36 | a shuffle is a permutation |
| `Substitution.Random.constructor` | breaking/substitution.py:9-10 | seeding fixes the draw stream and starts at its first draw |
| `Substitution.Random.RandBelow` | breaking/substitution.py:36 | the next draw, reduced below `n`, consuming one draw |
| `Substitution.Random.RandInt` | breaking/substitution.py:49 | `randint(lo, hi)` is `lo` plus the next draw reduced below `hi - lo + 1`, so it lies in `[lo, hi]`, consuming one draw |
| `Substitution.Random.ShuffleStep` | breaking/substitution.py:36 | one turn of the shuffle: one draw, and the array advances one step of the shuffle |
| `Substitution.Random.Shuffle` | breaking/substitution.py:36 | the array ends up as the shuffle of its old contents, using one draw per position above 0 |
| `Substitution.ShuffledAlphabetIsKey` | breaking/substitution.py:35-36 | a shuffled alphabet is a key |
| `Substitution.Neighbour` | breaking/substitution.py:48-52 | the neighbour proposed by two draws is a key |
| `Substitution.BetterShrinks` | breaking/substitution.py:42-44 | accepting a strictly better key leaves strictly fewer keys that beat the score, so the climb cannot accept forever |
| `Substitution.Climb` | breaking/substitution.py:38-46 | the climb ends on a key, never below the score it started from |
| `Substitution.ClimbAccepts` | breaking/substitution.py:42-45 | a strictly better neighbour becomes the key and the count restarts at 1 |
| `Substitution.ClimbRejects` | breaking/substitution.py:42-45 | a neighbour that is not strictly better leaves key and score alone and counts one more step |
| `Substitution.ClimbScoresKey` | breaking/substitution.py:37-46 | started from a key's own score, the climb returns a key with its own score |
| `Substitution.ClimbWithoutAcceptance` | breaking/substitution.py:38-46 | a climb that never accepts returns the starting key after exactly `1000 - count` rejected steps |
| `Substitution.ClimbStalls` | breaking/substitution.py:38-46 | a climb that accepts at least once ends on a key whose last 999 neighbours were all rejected |
| `Substitution.SubstitutionBreak.constructor` | breaking/substitution.py:6-10 | the pool starts empty and valid |
| `Substitution.SubstitutionBreak.RandomSwap` | breaking/substitution.py:48-52 | the copy with the positions of two `randint(0, 25)` draws exchanged, consuming two draws |
| `Substitution.SubstitutionBreak.ShuffledAlphabet` | breaking/substitution.py:35-36 | the shuffled alphabet, a key, consuming 25 draws |
| `Substitution.SubstitutionBreak.TryNeighbour` | breaking/substitution.py:39-45 | one turn of the loop is one step of the climb: it either accepts a strictly better key, leaving fewer better keys, or keeps key and score and counts one more step |
| `Substitution.SubstitutionBreak.OptimiseOnce` | breaking/substitution.py:34-46 | the result is the climb from the shuffled alphabet, starting with the draws after the shuffle: a key together with its own score |
| `Substitution.SubstitutionBreak.AppendCandidate` | breaking/substitution.py:29-32 | the pool grows by the one entry, inserted after every entry scoring at least as high, and stays ranked and made of keys |
| `Substitution.Restart` | breaking/substitution.py:34-46 | one restart, the climb from the alphabet shuffled with the draws from `calls` on, ends on a key holding its own score, after the 25 shuffle draws at least |
| `Substitution.RestartsStep` | breaking/substitution.py:25-27 | one more restart appends its climb result and moves the draw count to where that climb ended |
| `Substitution.RestartsScored` | breaking/substitution.py:25-27 | every one of the `n` restart results is a key with its own score |
| `Substitution.SubstitutionBreak.AddClimb` | breaking/substitution.py:25-26 | one turn of the loop: the entry and the draw count afterwards are exactly the restart from the current draw count, and the entry is inserted into the pool |
| `Substitution.SubstitutionBreak.OptimiseTurn` | breaking/substitution.py:25-27 | a turn extends the results by the next restart, leaves the draw count where it ended, and inserts it into the pool |
| `Substitution.SubstitutionBreak.Optimise` | breaking/substitution.py:22-27 | the results and the final draw count are exactly `Restarts` of `n` (none for `n <= 0`) from the old draw count, so the seed determines them; each is a key with its own score; the new pool is the stable descending sort of the old pool followed by them: exactly the old entries and the results |
| `Ranking.InsertAllIsSort` | breaking/substitution.py:22-32 | inserting entries one at a time into a ranked pool, as repeated `append_candidate` does, equals appending them all and sorting once |
| `Ranking.InsertAllPermutes` | breaking/substitution.py:22-32 | inserting the entries one at a time adds exactly them to the pool |
| `Substitution.SubstitutionBreak.Guess` | breaking/substitution.py:12-20 | fails exactly when the pool holds fewer than `n` entries; otherwise one guess per entry of `candidates[0:n]`, in pool order, with non-increasing scores |

## Left out

- Printing is not modelled. That covers `analyse` in the three breakers, the progress line of `optimise`, and the messages of `validate_heuristically`. `Vigenere.ValidateHeuristically` returns what it would report instead of printing it.
- The `__main__` blocks, `main.py` and the n-gram data of `data/en.py` are not modelled. They are drivers and data. `Caesar.SampleDecryption` keeps the one worked example whose result is exact.
- `Transforms.AlphabetMask` fixes the alphabet to the default `[a-zA-Z]`. `Masker.__init__` (`util/transforms.py:6`) accepts any regular expression, and no other alphabet is modelled.
- `Transforms.LowercaseMask` follows `IsLower`, which is ASCII-only: it marks `a`-`z`. Python's `str.islower` also marks other lower-case letters, such as `ä`. `extend` reads the mask only at positions of `[a-zA-Z]`, where the two agree.
- `Transforms.Lower` lowercases ASCII only. Python's `str.lower` also maps non-ASCII capitals, turning `Ä` into `ä`. `Transforms.Extend`, `Transforms.Refill` and `Transforms.ExtendedAt` inherit this when a replacement character is a non-ASCII capital.
- `Ngram.NgramScorer.Create` and `Ngram.NgramScorer.CalculateLogProbs` do not model `log10` and floating point. A log-of-a-ratio function is passed in, so the model never divides by the total and cannot raise a division error on an all-zero table.
- `Ngram.NgramScorer.Create` takes the table by value. In Python the scorer overwrites the caller's dictionary in place, and that aliasing is not modelled.
- `Ioc.Score` requires at least two characters. Python raises `ZeroDivisionError` below that, and the model does not represent that error. The score of the 205-character sample in `score/ioc.py` is not proved: the model leaves the order in which the statistic visits the dictionary open (sound, because `Ioc.SumOverRemove` proves the sum does not depend on it), so evaluating it on that text would take hundreds of unfoldings of `Ioc.Histogram` and of the pair count, which grows with the square of the length, and that is too costly for the verifier.
- `Caesar.Decipher` and `Substitution.Decipher` stand for the `pycipher` library ciphers, which are not part of this model. They shift or substitute the letters A-Z and keep every other character. The library also upper-cases its input and drops non-letters. The breakers are only ever given reduced, upper-case texts, where the two behaviours coincide.
- `Substitution.Random.RandBelow` models Python's `random` as a stream of raw draws reduced modulo `n`. CPython's rejection sampling is not modelled. `random.seed` is the choice of stream, and `seed=None` is just another stream.
- `Vigenere.Chunk`, `Vigenere.Guess` and `Vigenere.LengthScores` require a key length of at least 1, and the model does not represent Python's behaviour below that. With key length 0 and a non-empty text, `chunk` raises `ZeroDivisionError` at `i % 0` (`breaking/vigenere.py:29`). With key length 0 and an empty text, `chunk` returns `[]` and `zip` then raises on `max([])` (`breaking/vigenere.py:43`). A negative key length makes the dictionary of `chunk` empty, so a non-empty text raises `KeyError`, and an empty text again reaches `max([])`. In the detector, `score` divides by `n` (`breaking/vigenere.py:109`), which raises for `n = 0`.
- `Vigenere.MeanChunkScore` treats the scorer as total, and the model does not represent a scorer raising an error. With the `IocScorer` that `main.py:52-53` hands to the detector, a chunk of fewer than 2 characters raises `ZeroDivisionError` (`score/ioc.py:15-16`). With the default `max_keylength` of 20, `detect` therefore raises on any ciphertext shorter than 40 characters.
- The detector's own `chunk` (`breaking/vigenere.py:101-105`) is the same function as the breaker's, so both use `Vigenere.Chunks`. Its `score` is `Vigenere.MeanChunkScore`.
- `Vigenere.ValidateHeuristically` requires a non-empty score list, since `max` of an empty list raises in Python. With `verbose` false, `detect` only skips this check. `Vigenere.Detect` returns the ranking either way. When `min_keylength > max_keylength` the ranking is empty, and with `verbose` true Python's `detect` then raises `ValueError` at `max([])` in `validate_heuristically` (`breaking/vigenere.py:72`, `breaking/vigenere.py:78`), whereas `Vigenere.Detect` returns `[]`; this error path is not modelled.
- `Vigenere.HarmonicsKeep` halves an even key length `k` as an integer. Python's `k / 2` is a float, but a float equal to an integer key finds that key in the dictionary, so membership is the same.
- `Vigenere.Detect` models the `OrderedDict` that `detect` returns as the ranked list of `(length, score)` pairs.
- `Substitution.SubstitutionBreak.AppendCandidate`, `Substitution.SubstitutionBreak.Optimise` and `Substitution.SubstitutionBreak.Guess` keep the pool valid: ranked, and holding only keys. Python accepts any value as a key in `append_candidate`, but only keys produced by `optimise_once` ever reach it.
- `Substitution.Random.Shuffle` states its result as the shuffle function of its old contents. That the result is a permutation is the separate lemma `Substitution.ShuffledPermutes`.
- The climb's termination measure is a ghost one: the number of keys that score strictly higher than the current score. It exists only for the proof.
