/** The substitution breaker of breaking/substitution.py: a random-restart
    hill climb over keys (permutations of the alphabet) that keeps a pool
    of candidate keys ranked by score. Python's `random` module is replaced
    by the `Random` oracle below; the library cipher by its standard
    definition. */
module Substitution {

  import opened Common
  import opened Ranking
  import Transforms

  // ---------------------------------------------------------------------
  // Keys

  /** The letters A..Z in order. */
  function Letters(): (s: string)
    ensures |s| == 26 && forall i :: 0 <= i < 26 ==> s[i] == ('A' as int + i) as char
  {
    seq(26, i requires 0 <= i < 26 => ('A' as int + i) as char)
  }

  /** The plain alphabet. */
  const Alphabet: string := Letters()

  /** A substitution key: every letter A-Z exactly once and nothing else.
      Position `i` holds the ciphertext letter that stands for the `i`-th
      plaintext letter. */
  ghost predicate IsKey(key: string)
  {
    forall c :: multiset(key)[c] == if Transforms.IsUpper(c) then 1 else 0
  }

  ghost predicate Distinct(s: string)
  {
    forall i, j :: 0 <= i < j < |s| ==> s[i] != s[j]
  }

  lemma AlphabetFacts()
    ensures |Alphabet| == 26 && Distinct(Alphabet)
    ensures forall c :: c in Alphabet <==> Transforms.IsUpper(c)
    ensures forall c :: Transforms.IsUpper(c) ==> Alphabet[c as int - 'A' as int] == c
  {
    forall c | Transforms.IsUpper(c) ensures c in Alphabet {
      assert Alphabet[c as int - 'A' as int] == c;
    }
  }

  /** In a sequence without repeats every element occurs at most once. */
  lemma {:induction false} DistinctMultiplicity(s: string)
    requires Distinct(s)
    ensures forall x :: multiset(s)[x] <= 1
  {
    if s != [] {
      var init, last := s[..|s| - 1], s[|s| - 1];
      assert s == init + [last];
      assert Distinct(init);
      DistinctMultiplicity(init);
      assert last !in init;
    }
  }

  /** An element at two positions occurs at least twice. */
  lemma RepeatMultiplicity(s: string, i: nat, j: nat)
    requires i < j < |s| && s[i] == s[j]
    ensures multiset(s)[s[i]] >= 2
  {
    assert s == s[..j] + [s[j]] + s[j + 1..];
    assert s[i] in s[..j];
  }

  /** The keys are exactly the permutations of the alphabet. */
  lemma KeyIsPermutation(key: string)
    ensures IsKey(key) <==> multiset(key) == multiset(Alphabet)
  {
    AlphabetFacts();
    DistinctMultiplicity(Alphabet);
    forall c ensures multiset(Alphabet)[c] == if Transforms.IsUpper(c) then 1 else 0 {
      assert c in Alphabet <==> c in multiset(Alphabet);
    }
  }

  /** A key has 26 upper-case letters, each letter exactly once. */
  lemma KeyFacts(key: string)
    requires IsKey(key)
    ensures |key| == 26 && Distinct(key)
    ensures forall i :: 0 <= i < |key| ==> Transforms.IsUpper(key[i])
    ensures forall c :: Transforms.IsUpper(c) ==> c in key
  {
    AlphabetFacts();
    KeyIsPermutation(key);
    assert |key| == |multiset(key)| == |multiset(Alphabet)| == 26;
    forall i | 0 <= i < |key| ensures Transforms.IsUpper(key[i]) {
      assert key[i] in multiset(key);
    }
    forall c | Transforms.IsUpper(c) ensures c in key {
      assert c in multiset(Alphabet);
    }
    DistinctMultiplicity(Alphabet);
    forall i, j | 0 <= i < j < |key| ensures key[i] != key[j] {
      if key[i] == key[j] {
        RepeatMultiplicity(key, i, j);
      }
    }
  }

  lemma KeyLength(key: string)
    requires IsKey(key)
    ensures |key| == 26
  {
    KeyFacts(key);
  }

  /** `key.index(c)`: the first position holding `c`. */
  function IndexOf(key: string, c: char): (i: nat)
    requires c in key
    ensures i < |key| && key[i] == c
    ensures forall j :: 0 <= j < i ==> key[j] != c
  {
    if key[0] == c then 0 else 1 + IndexOf(key[1..], c)
  }

  // ---------------------------------------------------------------------
  // The cipher

  /** `SimpleSubstitution(key).decipher(text)`: the ciphertext letter `c`
      stands for the plaintext letter `alphabet[key.index(c)]`; any other
      character is left as it is. */
  function Decipher(text: string, key: string): (p: string)
    requires IsKey(key)
    ensures |p| == |text|
  {
    KeyFacts(key);
    seq(|text|, i requires 0 <= i < |text| =>
      if Transforms.IsUpper(text[i]) then Alphabet[IndexOf(key, text[i])] else text[i])
  }

  /** The inverse: the plaintext letter `p` becomes `key[p - 'A']`. */
  function Encipher(text: string, key: string): (c: string)
    requires IsKey(key)
    ensures |c| == |text|
  {
    KeyFacts(key);
    seq(|text|, i requires 0 <= i < |text| =>
      if Transforms.IsUpper(text[i]) then key[text[i] as int - 'A' as int] else text[i])
  }

  /** Deciphering undoes enciphering under the same key. */
  lemma DecipherEncipher(text: string, key: string)
    requires IsKey(key)
    ensures Decipher(Encipher(text, key), key) == text
  {
    KeyFacts(key);
    AlphabetFacts();
    var c := Encipher(text, key);
    forall i | 0 <= i < |text| ensures Decipher(c, key)[i] == text[i] {
      if Transforms.IsUpper(text[i]) {
        var j := text[i] as int - 'A' as int;
        assert c[i] == key[j];
        assert IndexOf(key, key[j]) == j;
      }
    }
  }

  /** Enciphering undoes deciphering under the same key. */
  lemma EncipherDecipher(text: string, key: string)
    requires IsKey(key)
    ensures Encipher(Decipher(text, key), key) == text
  {
    KeyFacts(key);
    AlphabetFacts();
    var p := Decipher(text, key);
    forall i | 0 <= i < |text| ensures Encipher(p, key)[i] == text[i] {
      if Transforms.IsUpper(text[i]) {
        var m := IndexOf(key, text[i]);
        assert p[i] == Alphabet[m];
        assert Alphabet[m] as int - 'A' as int == m;
      }
    }
  }

  /** The alphabet itself is the identity key. */
  lemma DecipherIdentity(text: string)
    ensures IsKey(Alphabet) && Decipher(text, Alphabet) == text
  {
    AlphabetFacts();
    KeyIsPermutation(Alphabet);
    forall i | 0 <= i < |text| ensures Decipher(text, Alphabet)[i] == text[i] {
      if Transforms.IsUpper(text[i]) {
        assert IndexOf(Alphabet, text[i]) == text[i] as int - 'A' as int;
      }
    }
  }

  // ---------------------------------------------------------------------
  // Swapping two positions

  /** The list with the entries at `a` and `b` exchanged. */
  function Swap<T>(s: seq<T>, a: nat, b: nat): (r: seq<T>)
    requires a < |s| && b < |s|
    ensures |r| == |s|
  {
    s[a := s[b]][b := s[a]]
  }

  /** A swap exchanges the two entries, leaves every other position alone
      and permutes the list; swapping a position with itself changes
      nothing. */
  lemma SwapProperties<T>(s: seq<T>, a: nat, b: nat)
    requires a < |s| && b < |s|
    ensures var r := Swap(s, a, b);
      && r[a] == s[b] && r[b] == s[a]
      && (forall k :: 0 <= k < |s| && k != a && k != b ==> r[k] == s[k])
      && multiset(r) == multiset(s)
      && (a == b ==> r == s)
  {
  }

  /** Swapping twice at the same positions restores the list. */
  lemma SwapInvolution<T>(s: seq<T>, a: nat, b: nat)
    requires a < |s| && b < |s|
    ensures Swap(Swap(s, a, b), a, b) == s
  {
  }

  /** A swap turns a key into a key. */
  lemma SwapKeepsKey(key: string, a: nat, b: nat)
    requires IsKey(key) && a < |key| && b < |key|
    ensures IsKey(Swap(key, a, b))
  {
    SwapProperties(key, a, b);
  }

  // ---------------------------------------------------------------------
  // The random oracle

  /** Python's `random.shuffle`: for `i` from the last position down to 1,
      exchange position `i` with a position drawn below `i + 1`. Draw number
      `calls` of the stream is used first. */
  function Shuffled(s: string, draw: nat -> nat, calls: nat, i: nat): (r: string)
    requires i < |s|
    ensures |r| == |s|
    decreases i
  {
    if i == 0 then s
    else Shuffled(Swap(s, i, draw(calls) % (i + 1)), draw, calls + 1, i - 1)
  }

  /** One exchange of the shuffle, taken from the top. */
  lemma ShuffledStep(s: string, t: string, draw: nat -> nat, calls: nat, i: nat)
    requires 0 < i < |s| && t == Swap(s, i, draw(calls) % (i + 1))
    ensures |t| == |s| && Shuffled(s, draw, calls, i) == Shuffled(t, draw, calls + 1, i - 1)
  {
  }

  /** `shuffle` of the whole sequence, from draw number `calls` on. */
  function ShuffleOf(s: string, draw: nat -> nat, calls: nat): (r: string)
  {
    if |s| == 0 then s else Shuffled(s, draw, calls, |s| - 1)
  }

  /** The number of draws `shuffle` takes for `n` elements. */
  function ShuffleDraws(n: nat): nat
  {
    if n == 0 then 0 else n - 1
  }

  /** A shuffle is a permutation. */
  lemma {:induction false} ShuffledPermutes(s: string, draw: nat -> nat, calls: nat, i: nat)
    requires i < |s|
    ensures multiset(Shuffled(s, draw, calls, i)) == multiset(s)
    decreases i
  {
    if i > 0 {
      var j := draw(calls) % (i + 1);
      SwapProperties(s, i, j);
      ShuffledPermutes(Swap(s, i, j), draw, calls + 1, i - 1);
    }
  }

  /** `a[i], a[j] = a[j], a[i]`. */
  method Exchange(a: array<char>, i: nat, j: nat)
    requires i < a.Length && j < a.Length
    modifies a
    ensures a[..] == Swap(old(a[..]), i, j)
  {
    var t := a[i];
    a[i] := a[j];
    a[j] := t;
  }

  /** The seeded generator: a fixed stream of raw draws and the number of
      draws taken so far. `random.seed(seed)` amounts to choosing the stream. */
  class Random {
    const draw: nat -> nat
    var calls: nat

    constructor (draw: nat -> nat)
      ensures this.draw == draw && calls == 0
    {
      this.draw := draw;
      calls := 0;
    }

    /** `randbelow(n)`: the next draw, reduced below `n`. */
    method RandBelow(n: nat) returns (r: nat)
      requires n >= 1
      modifies this
      ensures r < n && r == draw(old(calls)) % n
      ensures calls == old(calls) + 1
    {
      r := draw(calls) % n;
      calls := calls + 1;
    }

    /** `randint(lo, hi)`: `lo + randbelow(hi - lo + 1)`, in `[lo, hi]`. */
    method RandInt(lo: int, hi: int) returns (r: int)
      requires lo <= hi
      modifies this
      ensures lo <= r <= hi && r == lo + draw(old(calls)) % (hi - lo + 1)
      ensures calls == old(calls) + 1
    {
      var k := RandBelow(hi - lo + 1);
      r := lo + k;
    }

    /** One turn of the loop of `shuffle`: `j = randbelow(i + 1)`, then
        `a[i], a[j] = a[j], a[i]`. */
    method ShuffleStep(a: array<char>, i: nat)
      requires 0 < i < a.Length
      modifies this, a
      ensures calls == old(calls) + 1
      ensures Shuffled(a[..], draw, calls, i - 1) == Shuffled(old(a[..]), draw, old(calls), i)
    {
      ghost var s, c := a[..], calls;
      var j := RandBelow(i + 1);
      Exchange(a, i, j);
      ShuffledStep(s, a[..], draw, c, i);
    }

    /** `shuffle(a)`, in place. */
    method Shuffle(a: array<char>)
      modifies this, a
      ensures a[..] == ShuffleOf(old(a[..]), draw, old(calls))
      ensures calls == old(calls) + ShuffleDraws(a.Length)
    {
      if a.Length == 0 {
        return;
      }
      ghost var s0, c0 := a[..], calls;
      ghost var goal := Shuffled(s0, draw, c0, a.Length - 1);
      var i := a.Length - 1;
      while i > 0
        invariant 0 <= i < a.Length
        invariant calls == c0 + (a.Length - 1 - i)
        invariant Shuffled(a[..], draw, calls, i) == goal
        decreases i
      {
        ShuffleStep(a, i);
        i := i - 1;
      }
    }
  }

  // ---------------------------------------------------------------------
  // Scoring keys and the hill climb

  /** `score_key(text, key)`: the score of the decryption under `key`. */
  function ScoreKey(scorer: Scorer, text: string, key: string): real
    requires IsKey(key)
  {
    scorer(Decipher(text, key))
  }

  /** The upper-case words of length `n`: a finite set holding every key. */
  ghost function Words(n: nat): set<string>
  {
    if n == 0 then {[]}
    else set w, c | w in Words(n - 1) && 'A' <= c <= 'Z' :: w + [c]
  }

  lemma {:induction false} InWords(w: string)
    requires forall i :: 0 <= i < |w| ==> Transforms.IsUpper(w[i])
    ensures w in Words(|w|)
  {
    if w != [] {
      var init, last := w[..|w| - 1], w[|w| - 1];
      InWords(init);
      assert w == init + [last];
    }
  }

  /** The keys that score strictly higher than `score`. */
  ghost function Better(scorer: Scorer, text: string, score: real): set<string>
  {
    set k | k in Words(26) && IsKey(k) && ScoreKey(scorer, text, k) > score
  }

  /** Every key is one of the words of length 26. */
  lemma KeyInWords(key: string)
    requires IsKey(key)
    ensures key in Words(26)
  {
    KeyFacts(key);
    InWords(key);
  }

  /** The keys beating a higher score all beat a lower one. */
  lemma BetterAntitone(scorer: Scorer, text: string, score: real, key: string)
    requires IsKey(key) && ScoreKey(scorer, text, key) > score
    ensures Better(scorer, text, ScoreKey(scorer, text, key)) <= Better(scorer, text, score) - {key}
  {
  }

  /** Accepting a strictly better key leaves fewer keys to beat, so the
      climb cannot accept forever. */
  lemma BetterShrinks(scorer: Scorer, text: string, score: real, key: string)
    requires IsKey(key) && ScoreKey(scorer, text, key) > score
    ensures |Better(scorer, text, ScoreKey(scorer, text, key))| < |Better(scorer, text, score)|
  {
    KeyInWords(key);
    var before := Better(scorer, text, score);
    assert key in before;
    BetterAntitone(scorer, text, score, key);
    SubsetCardinality(Better(scorer, text, ScoreKey(scorer, text, key)), before - {key});
  }

  lemma {:induction false} SubsetCardinality<T>(a: set<T>, b: set<T>)
    requires a <= b
    ensures |a| <= |b|
    decreases a
  {
    if a != {} {
      var x :| x in a;
      SubsetCardinality(a - {x}, b - {x});
    }
  }

  /** The limit on `count`: the climb stops after this many draws in a row
      that did not improve the score (one fewer after an improvement). */
  const StallLimit: nat := 1000

  /** The neighbour the two draws at `calls` and `calls + 1` propose:
      `random_swap` with two `randint(0, 25)` positions. */
  function Neighbour(draw: nat -> nat, calls: nat, key: string): (k: string)
    requires IsKey(key)
    ensures IsKey(k)
  {
    KeyFacts(key);
    SwapKeepsKey(key, draw(calls) % 26, draw(calls + 1) % 26);
    Swap(key, draw(calls) % 26, draw(calls + 1) % 26)
  }

  /** Where the climb ends: the key, its score and the number of draws used. */
  datatype Climbed = Climbed(key: string, score: real, calls: nat)

  /** The `while count < 1000` loop of `optimise_once`, started at draw
      number `calls` from `key` with score `score`: a neighbour replaces the
      key only when it scores strictly higher, and an improvement resets
      `count` to 0 before the increment. The climb ends on a key, never
      below the score it started from, after two draws per step. */
  function Climb(scorer: Scorer, draw: nat -> nat, calls: nat, text: string, key: string, score: real, count: nat): (r: Climbed)
    requires IsKey(key)
    ensures IsKey(r.key) && r.score >= score && r.calls >= calls
    decreases |Better(scorer, text, score)|, StallLimit - count
  {
    if count >= StallLimit then Climbed(key, score, calls)
    else
      var next := Neighbour(draw, calls, key);
      var nextScore := ScoreKey(scorer, text, next);
      if nextScore > score then
        BetterShrinks(scorer, text, score, next);
        Climb(scorer, draw, calls + 2, text, next, nextScore, 1)
      else
        Climb(scorer, draw, calls + 2, text, key, score, count + 1)
  }

  /** A step of the climb that accepts the neighbour: it scores strictly
      higher, becomes the key, and `count` restarts. */
  lemma ClimbAccepts(scorer: Scorer, draw: nat -> nat, calls: nat, text: string, key: string, score: real, count: nat, next: string)
    requires IsKey(key) && count < StallLimit && next == Neighbour(draw, calls, key)
    requires ScoreKey(scorer, text, next) > score
    ensures Climb(scorer, draw, calls, text, key, score, count)
         == Climb(scorer, draw, calls + 2, text, next, ScoreKey(scorer, text, next), 1)
  {
  }

  /** A step of the climb that rejects the neighbour: the key stays and
      `count` goes up by one. */
  lemma ClimbRejects(scorer: Scorer, draw: nat -> nat, calls: nat, text: string, key: string, score: real, count: nat, next: string)
    requires IsKey(key) && count < StallLimit && next == Neighbour(draw, calls, key)
    requires !(ScoreKey(scorer, text, next) > score)
    ensures Climb(scorer, draw, calls, text, key, score, count)
         == Climb(scorer, draw, calls + 2, text, key, score, count + 1)
  {
  }

  /** Started from a key and its own score, the climb ends on a key holding
      that key's score. */
  lemma {:induction false} ClimbScoresKey(scorer: Scorer, draw: nat -> nat, calls: nat, text: string, key: string, score: real, count: nat)
    requires IsKey(key) && score == ScoreKey(scorer, text, key)
    ensures var r := Climb(scorer, draw, calls, text, key, score, count);
      r.score == ScoreKey(scorer, text, r.key)
    decreases |Better(scorer, text, score)|, StallLimit - count
  {
    if count < StallLimit {
      var next := Neighbour(draw, calls, key);
      var nextScore := ScoreKey(scorer, text, next);
      if nextScore > score {
        BetterShrinks(scorer, text, score, next);
        ClimbScoresKey(scorer, draw, calls + 2, text, next, nextScore, 1);
      } else {
        ClimbScoresKey(scorer, draw, calls + 2, text, key, score, count + 1);
      }
    }
  }

  /** Whether the neighbour of `key` drawn at `calls` would be accepted. */
  ghost predicate Improves(scorer: Scorer, draw: nat -> nat, calls: nat, text: string, key: string, score: real)
    requires IsKey(key)
  {
    ScoreKey(scorer, text, Neighbour(draw, calls, key)) > score
  }

  /** The neighbour drawn `t + 1` steps before draw number `calls` is rejected. */
  ghost predicate RejectedAt(scorer: Scorer, draw: nat -> nat, calls: nat, t: nat, text: string, key: string, score: real)
    requires IsKey(key)
  {
    2 * (t + 1) <= calls && !Improves(scorer, draw, calls - 2 * (t + 1), text, key, score)
  }

  /** The neighbours of `key` drawn in the last `run` steps before draw
      number `calls` are all rejected at `score`. */
  ghost predicate RejectedBefore(scorer: Scorer, draw: nat -> nat, calls: nat, run: nat, text: string, key: string, score: real)
    requires IsKey(key)
  {
    forall t :: 0 <= t < run ==> RejectedAt(scorer, draw, calls, t, text, key, score)
  }

  /** A climb that never accepts ends on its starting key after
      `StallLimit - count` steps, every one of them rejected. */
  lemma {:induction false} ClimbWithoutAcceptance(scorer: Scorer, draw: nat -> nat, calls: nat, text: string, key: string, score: real, count: nat)
    requires IsKey(key) && count <= StallLimit
    ensures var r := Climb(scorer, draw, calls, text, key, score, count);
      r.score == score ==>
        && r.key == key
        && r.calls == calls + 2 * (StallLimit - count)
        && RejectedBefore(scorer, draw, r.calls, StallLimit - count, text, key, score)
    decreases StallLimit - count
  {
    if count < StallLimit {
      var next := Neighbour(draw, calls, key);
      if ScoreKey(scorer, text, next) <= score {
        ClimbWithoutAcceptance(scorer, draw, calls + 2, text, key, score, count + 1);
        var r := Climb(scorer, draw, calls + 2, text, key, score, count + 1);
        if r.score == score {
          forall t | 0 <= t < StallLimit - count ensures RejectedAt(scorer, draw, r.calls, t, text, key, score) {
            if t == StallLimit - count - 1 {
              assert r.calls - 2 * (t + 1) == calls;
            }
          }
        }
      }
    }
  }

  /** A climb that accepts at least once ends on a key whose last
      `StallLimit - 1` neighbours were all rejected. */
  lemma {:induction false} ClimbStalls(scorer: Scorer, draw: nat -> nat, calls: nat, text: string, key: string, score: real, count: nat)
    requires IsKey(key) && count <= StallLimit
    ensures var r := Climb(scorer, draw, calls, text, key, score, count);
      r.score != score ==> RejectedBefore(scorer, draw, r.calls, StallLimit - 1, text, r.key, r.score)
    decreases |Better(scorer, text, score)|, StallLimit - count
  {
    if count < StallLimit {
      var next := Neighbour(draw, calls, key);
      var nextScore := ScoreKey(scorer, text, next);
      if nextScore > score {
        BetterShrinks(scorer, text, score, next);
        ClimbAccepts(scorer, draw, calls, text, key, score, count, next);
        var r := Climb(scorer, draw, calls + 2, text, next, nextScore, 1);
        if r.score != nextScore {
          ClimbStalls(scorer, draw, calls + 2, text, next, nextScore, 1);
        } else {
          ClimbWithoutAcceptance(scorer, draw, calls + 2, text, next, nextScore, 1);
          assert r.key == next;
        }
      } else {
        ClimbStalls(scorer, draw, calls + 2, text, key, score, count + 1);
        ClimbRejects(scorer, draw, calls, text, key, score, count, next);
      }
    }
  }

  /** A shuffled alphabet is a key. */
  lemma ShuffledAlphabetIsKey(draw: nat -> nat, calls: nat)
    ensures |Alphabet| == 26 && IsKey(Shuffled(Alphabet, draw, calls, 25))
  {
    AlphabetFacts();
    ShuffledPermutes(Alphabet, draw, calls, 25);
    KeyIsPermutation(Shuffled(Alphabet, draw, calls, 25));
  }

  /** A pool entry that is a key together with its own score. */
  ghost predicate ScoredKey(scorer: Scorer, text: string, e: Entry<string>)
  {
    IsKey(e.0) && e.1 == ScoreKey(scorer, text, e.0)
  }

  /** What `n` restarts of the climb produce from draw `calls` on: the
      results in order, and the number of draws used up afterwards. Each
      restart shuffles the alphabet (25 draws) and climbs from there. */
  ghost function Restarts(scorer: Scorer, draw: nat -> nat, calls: nat, text: string, n: nat): (r: (seq<Entry<string>>, nat))
    ensures |r.0| == n && r.1 >= calls
  {
    if n == 0 then ([], calls)
    else
      var prev := Restarts(scorer, draw, calls, text, n - 1);
      var c := Restart(scorer, draw, prev.1, text);
      (prev.0 + [(c.key, c.score)], c.calls)
  }

  /** One restart from draw `calls`: the climb from the shuffled alphabet,
      starting with the draws after the shuffle. */
  ghost function Restart(scorer: Scorer, draw: nat -> nat, calls: nat, text: string): (c: Climbed)
    ensures IsKey(c.key) && c.score == ScoreKey(scorer, text, c.key) && c.calls >= calls + 25
  {
    var start := RestartKey(draw, calls);
    ClimbScoresKey(scorer, draw, calls + 25, text, start, ScoreKey(scorer, text, start), 0);
    Climb(scorer, draw, calls + 25, text, start, ScoreKey(scorer, text, start), 0)
  }

  /** The key a restart climbs from: the alphabet shuffled with the draws
      from `calls` on. */
  ghost function RestartKey(draw: nat -> nat, calls: nat): (k: string)
    ensures IsKey(k)
  {
    ShuffledAlphabetIsKey(draw, calls);
    Shuffled(Alphabet, draw, calls, 25)
  }

  /** One more restart: its climb result and draw count extend `Restarts`. */
  lemma RestartsStep(scorer: Scorer, draw: nat -> nat, calls: nat, text: string, n: nat, e: Entry<string>, after: nat)
    requires Restart(scorer, draw, Restarts(scorer, draw, calls, text, n).1, text) == Climbed(e.0, e.1, after)
    ensures Restarts(scorer, draw, calls, text, n + 1).0 == Restarts(scorer, draw, calls, text, n).0 + [e]
    ensures Restarts(scorer, draw, calls, text, n + 1).1 == after
  {
  }

  /** Every restart yields a key together with its own score. */
  lemma {:induction false} RestartsScored(scorer: Scorer, draw: nat -> nat, calls: nat, text: string, n: nat)
    ensures forall i :: 0 <= i < n ==> ScoredKey(scorer, text, Restarts(scorer, draw, calls, text, n).0[i])
  {
    if n > 0 {
      RestartsScored(scorer, draw, calls, text, n - 1);
    }
  }

  // ---------------------------------------------------------------------
  // The breaker

  /** A guess: the decryption, its score and the key. */
  type Attempt = (string, real, string)

  class SubstitutionBreak {
    const scorer: Scorer
    const rng: Random
    /** The pool of `(key, score)` candidates, best first. */
    var candidates: seq<Entry<string>>

    /** The pool is ranked by non-increasing score and holds only keys. */
    ghost predicate Valid()
      reads this
    {
      && NonIncreasing(candidates)
      && forall i :: 0 <= i < |candidates| ==> IsKey(candidates[i].0)
    }

    /** `SubstitutionBreak(scorer, seed)`: an empty pool; the seed is the
        choice of the draw stream of `rng`. */
    constructor (scorer: Scorer, rng: Random)
      ensures this.scorer == scorer && this.rng == rng && candidates == [] && Valid()
    {
      this.scorer := scorer;
      this.rng := rng;
      candidates := [];
    }

    /** `random_swap(key)`: two positions drawn with `randint(0, 25)`,
        exchanged in a copy of the key. */
    method RandomSwap(key: string) returns (newKey: string)
      requires |key| == 26
      modifies rng
      ensures newKey == Swap(key, rng.draw(old(rng.calls)) % 26, rng.draw(old(rng.calls) + 1) % 26)
      ensures rng.calls == old(rng.calls) + 2
    {
      var a := rng.RandInt(0, 25);
      var b := rng.RandInt(0, 25);
      var copy := new char[|key|](i requires 0 <= i < |key| => key[i]);
      assert copy[..] == key;
      Exchange(copy, a, b);
      newKey := copy[..];
    }

    /** `key = list(alphabet); random.shuffle(key)`: the first step of
        `optimise_once`. */
    method ShuffledAlphabet() returns (key: string)
      modifies rng
      ensures key == Shuffled(Alphabet, rng.draw, old(rng.calls), 25) && IsKey(key)
      ensures rng.calls == old(rng.calls) + 25
    {
      ShuffledAlphabetIsKey(rng.draw, rng.calls);
      var letters := new char[26](i requires 0 <= i < 26 => Alphabet[i]);
      assert letters[..] == Alphabet;
      rng.Shuffle(letters);
      key := letters[..];
    }

    /** The body of the `while count < 1000` loop of `optimise_once`: draw a
        neighbour, keep it only when it scores strictly higher (then `count`
        restarts from 0), and count the step. It is a step of `Climb`. */
    method TryNeighbour(text: string, key: string, score: real, count: nat) returns (key': string, score': real, count': nat)
      requires IsKey(key) && count < StallLimit
      modifies rng
      ensures IsKey(key') && count' <= StallLimit
      ensures Climb(scorer, rng.draw, old(rng.calls), text, key, score, count)
           == Climb(scorer, rng.draw, rng.calls, text, key', score', count')
      ensures || (score' > score && |Better(scorer, text, score')| < |Better(scorer, text, score)|)
              || (key' == key && score' == score && count' == count + 1)
      ensures rng.calls == old(rng.calls) + 2
    {
      ghost var calls := rng.calls;
      KeyLength(key);
      var newKey := RandomSwap(key);
      assert newKey == Neighbour(rng.draw, calls, key);
      var newScore := ScoreKey(scorer, text, newKey);
      if newScore > score {
        ClimbAccepts(scorer, rng.draw, calls, text, key, score, count, newKey);
        BetterShrinks(scorer, text, score, newKey);
        key', score', count' := newKey, newScore, 1;
      } else {
        ClimbRejects(scorer, rng.draw, calls, text, key, score, count, newKey);
        key', score', count' := key, score, count + 1;
      }
    }

    /** `optimise_once(text)`: shuffle the alphabet, then climb. The result
        is the climb from the shuffled alphabet, starting with the draws
        that follow the shuffle. */
    method OptimiseOnce(text: string) returns (key: string, score: real)
      modifies rng
      ensures var start := Shuffled(Alphabet, rng.draw, old(rng.calls), 25);
        && IsKey(start)
        && Climb(scorer, rng.draw, old(rng.calls) + 25, text, start, ScoreKey(scorer, text, start), 0)
           == Climbed(key, score, rng.calls)
      ensures IsKey(key) && score == ScoreKey(scorer, text, key)
    {
      key := ShuffledAlphabet();
      score := ScoreKey(scorer, text, key);
      ghost var start, startScore, startCalls := key, score, rng.calls;
      ghost var goal := Climb(scorer, rng.draw, startCalls, text, start, startScore, 0);
      var count := 0;
      while count < 1000
        invariant IsKey(key) && 0 <= count <= StallLimit
        invariant Climb(scorer, rng.draw, rng.calls, text, key, score, count) == goal
        decreases |Better(scorer, text, score)|, StallLimit - count
      {
        key, score, count := TryNeighbour(text, key, score, count);
      }
      ClimbScoresKey(scorer, rng.draw, startCalls, text, start, startScore, 0);
    }

    /** `append_candidate(key, score)`: append, then stably re-sort by
        descending score, which amounts to inserting the new entry after
        every entry scoring at least as high. */
    method AppendCandidate(key: string, score: real)
      requires Valid() && IsKey(key)
      modifies this
      ensures Valid()
      ensures candidates == Insert((key, score), old(candidates))
    {
      SortDescAppend(candidates, (key, score));
      InsertKeepsOrder((key, score), candidates);
      InsertPermutes((key, score), candidates);
      ghost var old_ := candidates;
      candidates := SortDesc(candidates + [(key, score)]);
      forall i | 0 <= i < |candidates| ensures IsKey(candidates[i].0) {
        assert candidates[i] in multiset(old_) + multiset{(key, score)};
      }
    }

    /** One iteration of `optimise`: a climb whose result joins the pool. */
    method AddClimb(text: string) returns (ghost e: Entry<string>)
      requires Valid()
      modifies this, rng
      ensures Valid() && ScoredKey(scorer, text, e)
      ensures Restart(scorer, rng.draw, old(rng.calls), text) == Climbed(e.0, e.1, rng.calls)
      ensures candidates == Insert(e, old(candidates))
    {
      ghost var calls := rng.calls;
      var key, score := OptimiseOnce(text);
      assert Restart(scorer, rng.draw, calls, text) == Climbed(key, score, rng.calls);
      AppendCandidate(key, score);
      e := (key, score);
    }

    /** One turn of the loop of `optimise`, as the loop sees it: the results
        so far are the first restarts from draw `calls0`, and the pool is
        `pool` with them inserted; the turn adds the next restart. */
    method OptimiseTurn(text: string, ghost calls0: nat, ghost pool: seq<Entry<string>>, ghost added: seq<Entry<string>>)
      returns (ghost added': seq<Entry<string>>)
      requires Valid()
      requires added == Restarts(scorer, rng.draw, calls0, text, |added|).0
      requires rng.calls == Restarts(scorer, rng.draw, calls0, text, |added|).1
      requires candidates == InsertAll(pool, added)
      modifies this, rng
      ensures Valid()
      ensures added' == Restarts(scorer, rng.draw, calls0, text, |added| + 1).0
      ensures rng.calls == Restarts(scorer, rng.draw, calls0, text, |added| + 1).1
      ensures candidates == InsertAll(pool, added')
    {
      ghost var e := AddClimb(text);
      RestartsStep(scorer, rng.draw, calls0, text, |added|, e, rng.calls);
      InsertAllSnoc(pool, added, e);
      added' := added + [e];
    }

    /** `optimise(text, n)`: `n` climbs (none when `n <= 0`), each adding
        its result to the pool. `added` lists the results in the order the
        climbs produced them: the `Restarts` from the old draw count, so the
        seed fixes them; each is a key with its own score. */
    method Optimise(text: string, n: int) returns (ghost added: seq<Entry<string>>)
      requires Valid()
      modifies this, rng
      ensures Valid()
      ensures |added| == (if n > 0 then n else 0)
      ensures var r := Restarts(scorer, rng.draw, old(rng.calls), text, if n > 0 then n else 0);
        added == r.0 && rng.calls == r.1
      ensures forall i :: 0 <= i < |added| ==> ScoredKey(scorer, text, added[i])
      ensures candidates == InsertAll(old(candidates), added) == SortDesc(old(candidates) + added)
      ensures multiset(candidates) == multiset(old(candidates)) + multiset(added)
    {
      added := [];
      var i := 0;
      while i < n
        invariant Valid()
        invariant 0 <= i <= (if n > 0 then n else 0) && |added| == i
        invariant added == Restarts(scorer, rng.draw, old(rng.calls), text, i).0
        invariant rng.calls == Restarts(scorer, rng.draw, old(rng.calls), text, i).1
        invariant candidates == InsertAll(old(candidates), added)
      {
        added := OptimiseTurn(text, old(rng.calls), old(candidates), added);
        i := i + 1;
      }
      RestartsScored(scorer, rng.draw, old(rng.calls), text, i);
      InsertAllIsSort(old(candidates), added);
      InsertAllPermutes(old(candidates), added);
    }

    /** `guess(text, n)`: fails unless the pool holds at least `n` entries;
        otherwise one guess per entry of `candidates[0:n]`, in pool order. */
    method Guess(text: string, n: int) returns (r: Result<seq<Attempt>>)
      requires Valid()
      ensures r.Success? <==> |candidates| >= n
      ensures r.Failure? ==> r.error == InsufficientCandidates
      ensures r.Success? ==>
        var top := Take(candidates, n);
        && |r.value| == |top|
        && (forall i :: 0 <= i < |top| ==> top[i] == candidates[i] && r.value[i] == (Decipher(text, top[i].0), top[i].1, top[i].0))
        && (forall i, j :: 0 <= i < j < |r.value| ==> r.value[i].1 >= r.value[j].1)
    {
      if |candidates| < n {
        return Failure(InsufficientCandidates);
      }
      var top := Take(candidates, n);
      assert forall i :: 0 <= i < |top| ==> top[i] == candidates[i];
      assert NonIncreasing(top);
      var result: seq<Attempt> := [];
      for i := 0 to |top|
        invariant |result| == i
        invariant forall j :: 0 <= j < i ==> result[j] == (Decipher(text, top[j].0), top[j].1, top[j].0)
      {
        var (key, score) := top[i];
        result := result + [(Decipher(text, key), score, key)];
      }
      r := Success(result);
    }
  }
}
