/** The n-gram scorer of score/ngram.py: a table of n-gram log-probabilities,
    a sliding window of width n over the text, and the preprocessing steps
    (removing ignored characters, splitting on a separator).

    The logarithms are not modelled: `logRatio(x, total)` stands for
    `log10(x / total)` and is an opaque parameter, so table values and the
    floor `alpha` are opaque reals. */
module Ngram {

  import opened Common

  /** The floor probability mass `_calculate_log_probs` gives unseen n-grams. */
  const AlphaFloor: real := 0.01

  // ---------------------------------------------------------------------
  // The n-gram length

  /** Every key of the table has the same length, and there is at least one key. */
  ghost predicate ConsistentKeys(table: map<string, real>)
  {
    table != map[] && forall a, b :: a in table && b in table ==> |a| == |b|
  }

  /** `{len(key) for key, value in self.ngrams.items()}`. */
  function KeyLengths(table: map<string, real>): set<nat>
  {
    set k | k in table :: |k|
  }

  /** `_identify_ngram_length`: the set of key lengths must be a singleton,
      whose element becomes `n`. */
  method IdentifyNgramLength(table: map<string, real>) returns (r: Result<nat>)
    ensures r.Success? <==> ConsistentKeys(table)
    ensures r.Success? ==> forall k :: k in table ==> |k| == r.value
    ensures r.Failure? ==> r.error == InconsistentNgramLength
  {
    var lengths := KeyLengths(table);
    SingleKeyLength(table);
    if |lengths| == 1 {
      var l :| l in lengths;
      assert lengths == {l} by {
        assert |lengths - {l}| == 0;
      }
      forall k | k in table ensures |k| == l {
        assert |k| in lengths;
      }
      r := Success(l);
    } else {
      r := Failure(InconsistentNgramLength);
    }
  }

  /** The keys share one length exactly when the set of key lengths is a singleton. */
  lemma SingleKeyLength(table: map<string, real>)
    ensures ConsistentKeys(table) <==> |KeyLengths(table)| == 1
  {
    var lengths := KeyLengths(table);
    if ConsistentKeys(table) {
      var k :| k in table;
      assert lengths == {|k|};
    }
    if |lengths| == 1 {
      var l :| l in lengths;
      assert lengths == {l} by {
        assert |lengths - {l}| == 0;
      }
      var k0 :| k0 in table && |k0| == l;
      forall a, b | a in table && b in table ensures |a| == |b| {
        assert |a| in lengths && |b| in lengths;
      }
    }
  }

  // ---------------------------------------------------------------------
  // The total count of a table

  /** Sum of the table's values over the keys `ks`, in no particular order.
      The index of coincidence sums integer letter counts the same way
      (`Ioc.SumOver`); the n-gram table holds reals and Dafny has no type
      ranging over both `int` and `real`, so each module keeps its own sum. */
  ghost function SumOver(table: map<string, real>, ks: set<string>): real
    requires ks <= table.Keys
    decreases ks
  {
    if ks == {} then 0.0 else table[Pick(ks)] + SumOver(table, ks - {Pick(ks)})
  }

  lemma {:induction false} SumOverRemove(table: map<string, real>, ks: set<string>, k: string)
    requires ks <= table.Keys && k in ks
    ensures SumOver(table, ks) == table[k] + SumOver(table, ks - {k})
    decreases ks
  {
    var d := Pick(ks);
    if d != k {
      SumOverRemove(table, ks - {d}, k);
      SumOverRemove(table, ks - {k}, d);
      assert ks - {d} - {k} == ks - {k} - {d};
    }
  }

  /** `sum(value for key, value in self.ngrams.items())`. */
  ghost function Total(table: map<string, real>): real
  {
    SumOver(table, table.Keys)
  }

  // ---------------------------------------------------------------------
  // The sliding window

  /** The windows `text[i:i+n]` for `i` in `range(len(text) - n + 1)`. */
  function Windows(text: string, n: nat): (w: seq<string>)
    ensures |w| == if |text| >= n then |text| - n + 1 else 0
    ensures forall i :: 0 <= i < |w| ==> |w[i]| == n && w[i] == text[i..i + n]
  {
    if |text| < n then [] else seq(|text| - n + 1, i requires 0 <= i <= |text| - n => text[i..i + n])
  }

  /** What one window adds: its table value, or `alpha` when it is absent. */
  function Contribution(table: map<string, real>, alpha: real, token: string): real
  {
    if token in table then table[token] else alpha
  }

  function Contributions(table: map<string, real>, alpha: real, tokens: seq<string>): (cs: seq<real>)
    ensures |cs| == |tokens|
    ensures forall i :: 0 <= i < |tokens| ==> cs[i] == (if tokens[i] in table then table[tokens[i]] else alpha)
  {
    seq(|tokens|, i requires 0 <= i < |tokens| => Contribution(table, alpha, tokens[i]))
  }

  /** The value `_score` computes: one term per window. */
  function WindowScore(table: map<string, real>, n: nat, alpha: real, text: string): real
  {
    SumReals(Contributions(table, alpha, Windows(text, n)))
  }

  /** A text shorter than the n-gram length has no window and scores 0. */
  lemma ShortTextScoresZero(table: map<string, real>, n: nat, alpha: real, text: string)
    requires |text| < n
    ensures WindowScore(table, n, alpha, text) == 0.0
  {
  }

  /** Appending a character adds exactly the term of the one new window. */
  lemma WindowScoreSnoc(table: map<string, real>, n: nat, alpha: real, text: string, c: char)
    requires |text| + 1 >= n
    ensures var t := text + [c];
      WindowScore(table, n, alpha, t)
      == WindowScore(table, n, alpha, text) + Contribution(table, alpha, t[|t| - n..])
  {
    var t := text + [c];
    var cs := Contributions(table, alpha, Windows(t, n));
    var ds := Contributions(table, alpha, Windows(text, n));
    assert |cs| == |ds| + 1;
    forall i | 0 <= i < |ds| ensures cs[i] == ds[i] {
      assert t[i..i + n] == text[i..i + n];
    }
    assert cs[..|cs| - 1] == ds;
    assert Windows(t, n)[|cs| - 1] == t[|t| - n..];
  }

  /** A window sum over a text with no ignored windows: every window found
      in the table contributes its value. */
  lemma WindowScoreAllKnown(table: map<string, real>, n: nat, alpha: real, beta: real, text: string)
    requires forall w :: w in Windows(text, n) ==> w in table
    ensures WindowScore(table, n, alpha, text) == WindowScore(table, n, beta, text)
  {
    var w := Windows(text, n);
    var a := Contributions(table, alpha, w);
    var b := Contributions(table, beta, w);
    forall i | 0 <= i < |w| ensures a[i] == b[i] {
      assert w[i] in w;
    }
    assert a == b;
  }

  // ---------------------------------------------------------------------
  // Removing ignored characters

  /** `text.replace(c, '')`. */
  function Without(text: string, c: char): (r: string)
    ensures c !in r
    ensures forall d :: d in r <==> d in text && d != c
  {
    if text == [] then []
    else if text[0] == c then Without(text[1..], c)
    else [text[0]] + Without(text[1..], c)
  }

  /** The characters of `text` that are not in `ignore`, in order: one pass. */
  function Filter(text: string, ignore: string): (r: string)
    ensures forall d :: d in r <==> d in text && d !in ignore
  {
    if text == [] then []
    else if text[0] in ignore then Filter(text[1..], ignore)
    else [text[0]] + Filter(text[1..], ignore)
  }

  /** The text after the first `i` replacements of `_remove_characters`. */
  function Removed(text: string, ignore: string): string
  {
    if ignore == [] then text else Without(Removed(text, ignore[..|ignore| - 1]), ignore[|ignore| - 1])
  }

  lemma {:induction false} WithoutFilter(text: string, ignore: string, c: char)
    ensures Without(Filter(text, ignore), c) == Filter(text, ignore + [c])
  {
    if text != [] {
      WithoutFilter(text[1..], ignore, c);
      if text[0] in ignore {
      } else if text[0] == c {
        assert text[0] in ignore + [c];
      } else {
        assert text[0] !in ignore + [c];
        assert ([text[0]] + Filter(text[1..], ignore))[1..] == Filter(text[1..], ignore);
      }
    }
  }

  /** One `replace` per ignored character removes exactly the characters of
      `ignore` and keeps every other character in order. */
  lemma {:induction false} RemovedIsFilter(text: string, ignore: string)
    ensures Removed(text, ignore) == Filter(text, ignore)
  {
    if ignore == [] {
      FilterNothing(text);
    } else {
      var init := ignore[..|ignore| - 1];
      RemovedIsFilter(text, init);
      WithoutFilter(text, init, ignore[|ignore| - 1]);
      assert init + [ignore[|ignore| - 1]] == ignore;
    }
  }

  lemma {:induction false} FilterNothing(text: string)
    ensures Filter(text, []) == text
  {
    if text != [] {
      FilterNothing(text[1..]);
    }
  }

  /** Removing characters twice is removing them once. */
  lemma {:induction false} FilterIdempotent(text: string, ignore: string)
    ensures Filter(Filter(text, ignore), ignore) == Filter(text, ignore)
  {
    if text != [] {
      FilterIdempotent(text[1..], ignore);
      if text[0] !in ignore {
        assert ([text[0]] + Filter(text[1..], ignore))[1..] == Filter(text[1..], ignore);
      }
    }
  }

  /** `_remove_characters`: one `replace` per character of `characters`. */
  method RemoveCharacters(text: string, characters: string) returns (r: string)
    ensures r == Removed(text, characters)
  {
    r := text;
    var i := 0;
    while i < |characters|
      invariant 0 <= i <= |characters|
      invariant r == Removed(text, characters[..i])
    {
      assert characters[..i + 1][..i] == characters[..i];
      r := Without(r, characters[i]);
      i := i + 1;
    }
    assert characters[..i] == characters;
  }

  // ---------------------------------------------------------------------
  // Splitting on a separator

  /** `sep` occurs in `s` starting at index `j`. */
  predicate OccursAt(s: string, sep: string, j: int)
  {
    0 <= j && j + |sep| <= |s| && s[j..j + |sep|] == sep
  }

  /** The leftmost occurrence of a non-empty `sep` in `s`. */
  function IndexOf(s: string, sep: string): (r: Option<nat>)
    requires |sep| > 0
    ensures r.Some? ==> OccursAt(s, sep, r.value)
  {
    if |s| < |sep| then None
    else if s[..|sep|] == sep then Some(0)
    else
      var r := IndexOf(s[1..], sep);
      ShiftOccurs(s, sep);
      if r.None? then None else Some(r.value + 1)
  }

  /** `IndexOf` finds the leftmost match, and reports none only when there is none. */
  lemma {:induction false} IndexOfLeftmost(s: string, sep: string)
    requires |sep| > 0
    ensures IndexOf(s, sep).Some? ==> forall j :: j < IndexOf(s, sep).value ==> !OccursAt(s, sep, j)
    ensures IndexOf(s, sep).None? ==> forall j :: !OccursAt(s, sep, j)
  {
    if |s| >= |sep| && s[..|sep|] != sep {
      IndexOfLeftmost(s[1..], sep);
      ShiftOccurs(s, sep);
    }
  }

  /** Without a match at index 0, the matches of `s` are those of `s[1..]`, shifted by one. */
  lemma ShiftOccurs(s: string, sep: string)
    requires |s| >= |sep| > 0 && s[..|sep|] != sep
    ensures forall j :: OccursAt(s, sep, j) <==> j >= 1 && OccursAt(s[1..], sep, j - 1)
  {
    forall j ensures OccursAt(s, sep, j) <==> j >= 1 && OccursAt(s[1..], sep, j - 1) {
      if j >= 1 && j + |sep| <= |s| {
        SliceOfTail(s, j, j + |sep|);
      }
    }
  }

  lemma SliceOfTail(s: string, a: nat, b: nat)
    requires 1 <= a <= b <= |s|
    ensures s[a..b] == s[1..][a - 1..b - 1]
  {
    var x, y := s[a..b], s[1..][a - 1..b - 1];
    assert |x| == |y|;
    forall k | 0 <= k < |x| ensures x[k] == y[k] {
      assert x[k] == s[a + k] && y[k] == s[1..][a - 1 + k];
    }
  }

  /** A match inside a prefix is a match of the whole text. */
  lemma PrefixOccurs(s: string, sep: string, i: nat, j: int)
    requires i <= |s| && OccursAt(s[..i], sep, j)
    ensures OccursAt(s, sep, j) && j + |sep| <= i
  {
    assert s[..i][j..j + |sep|] == s[j..j + |sep|];
  }

  /** The text before the leftmost match holds no match. */
  lemma HeadFree(s: string, sep: string, i: nat)
    requires |sep| > 0 && IndexOf(s, sep) == Some(i)
    ensures i <= |s| && IndexOf(s[..i], sep).None?
  {
    IndexOfLeftmost(s, sep);
    var r := IndexOf(s[..i], sep);
    if r.Some? {
      PrefixOccurs(s, sep, i, r.value);
    }
  }

  /** `s.split(sep)` for a non-empty separator. */
  function Split(s: string, sep: string): (parts: seq<string>)
    requires |sep| > 0
    ensures |parts| >= 1
    decreases |s|
  {
    match IndexOf(s, sep)
    case None => [s]
    case Some(i) => [s[..i]] + Split(s[i + |sep|..], sep)
  }

  /** `sep.join(parts)`. */
  function Join(parts: seq<string>, sep: string): string
  {
    if parts == [] then "" else if |parts| == 1 then parts[0] else parts[0] + sep + Join(parts[1..], sep)
  }

  /** Joining the parts with the separator gives back the text. */
  lemma {:induction false} SplitJoin(s: string, sep: string)
    requires |sep| > 0
    ensures Join(Split(s, sep), sep) == s
    decreases |s|
  {
    match IndexOf(s, sep)
    case None =>
    case Some(i) =>
      SplitJoin(s[i + |sep|..], sep);
      SplitAtMatch(s, sep, i);
      JoinCons(s[..i], Split(s[i + |sep|..], sep), sep);
      TextAtMatch(s, sep, i);
  }

  /** At a match, the text is the head, the separator and the rest. */
  lemma TextAtMatch(s: string, sep: string, i: nat)
    requires OccursAt(s, sep, i)
    ensures s == s[..i] + sep + s[i + |sep|..]
  {
    assert s == s[..i] + s[i..i + |sep|] + s[i + |sep|..];
  }

  /** At the leftmost match, the split is the head followed by the split of the rest. */
  lemma SplitAtMatch(s: string, sep: string, i: nat)
    requires |sep| > 0 && IndexOf(s, sep) == Some(i)
    ensures i + |sep| <= |s| && Split(s, sep) == [s[..i]] + Split(s[i + |sep|..], sep)
  {
  }

  lemma JoinCons(head: string, parts: seq<string>, sep: string)
    requires |parts| >= 1
    ensures Join([head] + parts, sep) == head + sep + Join(parts, sep)
  {
    assert ([head] + parts)[1..] == parts;
  }

  /** No part contains the separator. */
  lemma {:induction false} SplitPartsFree(s: string, sep: string)
    requires |sep| > 0
    ensures forall p :: p in Split(s, sep) ==> IndexOf(p, sep).None?
    decreases |s|
  {
    match IndexOf(s, sep)
    case None =>
    case Some(i) =>
      SplitAtMatch(s, sep, i);
      SplitPartsFree(s[i + |sep|..], sep);
      HeadFree(s, sep, i);
  }

  /** `sum(self._score(part) for part in parts)`. */
  function PartsScore(table: map<string, real>, n: nat, alpha: real, parts: seq<string>): real
  {
    if parts == [] then 0.0
    else PartsScore(table, n, alpha, parts[..|parts| - 1]) + WindowScore(table, n, alpha, parts[|parts| - 1])
  }

  /** What `score(text, split_by, ignore)` returns for a table, its length and floor. */
  function FullScore(table: map<string, real>, n: nat, alpha: real,
                     text: string, splitBy: Option<string>, ignore: string): Result<real>
  {
    var t := if |ignore| > 0 then Removed(text, ignore) else text;
    match splitBy
    case None => Success(WindowScore(table, n, alpha, t))
    case Some(sep) =>
      if sep == "" then Failure(EmptySeparator) else Success(PartsScore(table, n, alpha, Split(t, sep)))
  }

  /** Without `ignore` the text is scored as given; without `split_by` it is
      scored in one piece; splitting on the empty separator is an error. */
  lemma FullScoreCases(table: map<string, real>, n: nat, alpha: real,
                       text: string, splitBy: Option<string>, ignore: string)
    ensures var t := Filter(text, ignore);
      && (ignore == "" ==> t == text)
      && (splitBy.None? ==> FullScore(table, n, alpha, text, splitBy, ignore) == Success(WindowScore(table, n, alpha, t)))
      && (splitBy == Some("") ==> FullScore(table, n, alpha, text, splitBy, ignore) == Failure(EmptySeparator))
      && (splitBy.Some? && splitBy.value != "" ==>
            FullScore(table, n, alpha, text, splitBy, ignore) == Success(PartsScore(table, n, alpha, Split(t, splitBy.value))))
  {
    RemovedIsFilter(text, ignore);
    FilterNothing(text);
  }

  /** Splitting on a separator that does not occur scores the text in one piece. */
  lemma SplitOnAbsentSeparator(table: map<string, real>, n: nat, alpha: real, text: string, sep: string)
    requires |sep| > 0 && IndexOf(text, sep).None?
    ensures FullScore(table, n, alpha, text, Some(sep), "") == FullScore(table, n, alpha, text, None, "")
  {
    assert Split(text, sep) == [text];
    assert [text][..0] == [];
    assert PartsScore(table, n, alpha, [text]) == WindowScore(table, n, alpha, text);
  }

  // ---------------------------------------------------------------------
  // The scorer object

  class NgramScorer {
    /** The n-gram table: counts at first, then log-probabilities. */
    var ngrams: map<string, real>
    /** The common length of the keys. */
    var n: nat
    /** The log-probability of an n-gram absent from the table. */
    var alpha: real

    constructor Init(table: map<string, real>, n: nat)
      ensures ngrams == table && this.n == n && alpha == 0.0
    {
      ngrams := table;
      this.n := n;
      alpha := 0.0;
    }

    /** `NgramScorer(ngrams)`: fails unless all keys have one length; then
        every count becomes a log-probability, and nothing else changes
        about the table. */
    static method Create(table: map<string, real>, logRatio: (real, real) -> real)
      returns (r: Result<NgramScorer>)
      ensures r.Success? <==> ConsistentKeys(table)
      ensures r.Failure? ==> r.error == InconsistentNgramLength
      ensures r.Success? ==> fresh(r.value)
      ensures r.Success? ==> r.value.ngrams.Keys == table.Keys
      ensures r.Success? ==> forall k :: k in table ==> |k| == r.value.n
      ensures r.Success? ==> forall k :: k in table ==> r.value.ngrams[k] == logRatio(table[k], Total(table))
      ensures r.Success? ==> r.value.alpha == logRatio(AlphaFloor, Total(table))
    {
      var len := IdentifyNgramLength(table);
      if len.Failure? {
        return Failure(len.error);
      }
      var s := new NgramScorer.Init(table, len.value);
      s.CalculateLogProbs(logRatio, AlphaFloor);
      return Success(s);
    }

    /** The sum of the table's values. */
    method TableTotal() returns (total: real)
      ensures total == Total(ngrams)
    {
      total := 0.0;
      var rest := ngrams.Keys;
      while rest != {}
        invariant rest <= ngrams.Keys
        invariant total + SumOver(ngrams, rest) == Total(ngrams)
        decreases |rest|
      {
        var k :| k in rest;
        SumOverRemove(ngrams, rest, k);
        total := total + ngrams[k];
        rest := rest - {k};
      }
    }

    /** `_calculate_log_probs(alpha)`: overwrites every value with its
        log-probability; the key set and `n` are unchanged. */
    method CalculateLogProbs(logRatio: (real, real) -> real, floor: real)
      modifies this
      ensures n == old(n)
      ensures ngrams.Keys == old(ngrams).Keys
      ensures forall k :: k in ngrams ==> ngrams[k] == logRatio(old(ngrams)[k], Total(old(ngrams)))
      ensures alpha == logRatio(floor, Total(old(ngrams)))
    {
      var total := TableTotal();
      ghost var orig := ngrams;
      var todo := ngrams.Keys;
      while todo != {}
        invariant todo <= orig.Keys
        invariant ngrams.Keys == orig.Keys && n == old(n)
        invariant forall k :: k in todo ==> ngrams[k] == orig[k]
        invariant forall k :: k in orig && k !in todo ==> ngrams[k] == logRatio(orig[k], total)
        decreases |todo|
      {
        var k :| k in todo;
        ngrams := ngrams[k := logRatio(ngrams[k], total)];
        todo := todo - {k};
      }
      alpha := logRatio(floor, total);
    }

    /** `_score(text)`: one term per window of width `n`. */
    method WindowSum(text: string) returns (score: real)
      ensures score == WindowScore(ngrams, n, alpha, text)
    {
      score := 0.0;
      var windows := Windows(text, n);
      ghost var cs := Contributions(ngrams, alpha, windows);
      var i := 0;
      while i < |text| - n + 1
        invariant 0 <= i <= |windows|
        invariant score == SumReals(cs[..i])
      {
        var token := text[i..i + n];
        assert token == windows[i];
        assert cs[..i + 1][..i] == cs[..i];
        if token in ngrams {
          score := score + ngrams[token];
        } else {
          score := score + alpha;
        }
        i := i + 1;
      }
      assert cs[..i] == cs;
    }

    /** `score(text, split_by, ignore)`. */
    method Score(text: string, splitBy: Option<string>, ignore: string) returns (r: Result<real>)
      ensures r == FullScore(ngrams, n, alpha, text, splitBy, ignore)
    {
      var t := text;
      if |ignore| > 0 {
        t := RemoveCharacters(text, ignore);
      }
      match splitBy {
        case None =>
          var s := WindowSum(t);
          r := Success(s);
        case Some(sep) =>
          if sep == "" {
            r := Failure(EmptySeparator);
          } else {
            var parts := Split(t, sep);
            var total := 0.0;
            var i := 0;
            while i < |parts|
              invariant 0 <= i <= |parts|
              invariant total == PartsScore(ngrams, n, alpha, parts[..i])
            {
              assert parts[..i + 1][..i] == parts[..i];
              var s := WindowSum(parts[i]);
              total := total + s;
              i := i + 1;
            }
            assert parts[..i] == parts;
            r := Success(total);
          }
      }
    }
  }
}
