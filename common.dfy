/** Shared vocabulary of the cryptanalysis model: failure-carrying results,
    the error conditions the Python code raises, the scorer capability and
    Python's `s[:n]` slice. */
module Common {

  datatype Option<+T> = None | Some(value: T)

  datatype Result<+T> = Success(value: T) | Failure(error: Error)

  /** The exceptions the modelled code raises on bad input. */
  datatype Error =
    | LengthMismatch          // Masker.extend: replacement text of the wrong length
    | InconsistentNgramLength // NgramScorer: n-gram keys of different lengths (or none)
    | EmptySeparator          // str.split('') raises ValueError
    | InvalidThreshold        // KeylengthDetector: plaintext score not above random score
    | InsufficientCandidates  // SubstitutionBreak.guess: pool smaller than requested

  /** Every scorer is used only through this capability: higher is more language-like. */
  type Scorer = string -> real

  /** Python's `s[:n]` for an integer n: a negative n counts from the end. */
  function Take<T>(s: seq<T>, n: int): (r: seq<T>)
    ensures n >= 0 ==> |r| == if n <= |s| then n else |s|
    ensures n < 0 ==> |r| == if -n <= |s| then |s| + n else 0
    ensures r <= s
  {
    if n >= 0 then (if n <= |s| then s[..n] else s)
    else if -n <= |s| then s[..|s| + n] else []
  }

  /** Some element of a non-empty set. A sum over a dictionary's keys picks
      them with this, which leaves the visiting order open; Python visits them
      in insertion order, and the sums are proved not to depend on it. */
  ghost function Pick<K>(ks: set<K>): K
    requires ks != {}
  {
    var k :| k in ks; k
  }

  /** A slice grows by its next element. */
  lemma SliceSnoc<T>(s: seq<T>, lo: nat, hi: nat)
    requires lo <= hi < |s|
    ensures s[lo..hi + 1] == s[lo..hi] + [s[hi]]
  {
  }

  /** A prefix is a shorter prefix followed by the slice between them. */
  lemma PrefixSplit<T>(s: seq<T>, a: nat, b: nat)
    requires a <= b <= |s|
    ensures s[..b] == s[..a] + s[a..b]
  {
  }

  /** Sum of a sequence of reals, as Python's `sum` over a list. */
  function SumReals(xs: seq<real>): real
  {
    if xs == [] then 0.0 else SumReals(xs[..|xs| - 1]) + xs[|xs| - 1]
  }

  lemma {:induction false} SumRealsAppend(a: seq<real>, b: seq<real>)
    ensures SumReals(a + b) == SumReals(a) + SumReals(b)
    decreases |b|
  {
    if b == [] {
      assert a + b == a;
    } else {
      assert (a + b)[..|a + b| - 1] == a + b[..|b| - 1];
      SumRealsAppend(a, b[..|b| - 1]);
    }
  }
}
