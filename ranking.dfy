/** Python's `sorted(pairs, reverse=True, key=lambda t: t[1])`, the ranking
    step shared by the three breakers and the key-length detector.

    Python's sort is stable, and `reverse=True` keeps that stability: entries
    with equal scores stay in their input order. The model is an insertion
    sort that places each new entry after every earlier entry whose score is
    at least as high. */
module Ranking {

  /** A ranked entry: a key of some kind with its score. */
  type Entry<K> = (K, real)

  /** Ordered non-increasing by score. */
  ghost predicate NonIncreasing<K>(s: seq<Entry<K>>)
  {
    forall i, j :: 0 <= i < j < |s| ==> s[i].1 >= s[j].1
  }

  /** Ordered by score, highest first, and by key, lowest first, among equal scores. */
  ghost predicate RankedByScoreThenKey(s: seq<Entry<int>>)
  {
    forall i, j :: 0 <= i < j < |s| ==> s[i].1 > s[j].1 || (s[i].1 == s[j].1 && s[i].0 < s[j].0)
  }

  ghost predicate KeysAscending(s: seq<Entry<int>>)
  {
    forall i, j :: 0 <= i < j < |s| ==> s[i].0 < s[j].0
  }

  /** Number of leading entries of `s` whose score is at least `x`'s: where `x` goes. */
  function InsertionPoint<K>(x: Entry<K>, s: seq<Entry<K>>): (p: nat)
    ensures p <= |s|
  {
    if s == [] || s[0].1 < x.1 then 0 else 1 + InsertionPoint(x, s[1..])
  }

  function Insert<K>(x: Entry<K>, s: seq<Entry<K>>): (r: seq<Entry<K>>)
    ensures |r| == |s| + 1
  {
    if s == [] then [x]
    else if s[0].1 >= x.1 then
      [s[0]] + Insert(x, s[1..])
    else [x] + s
  }

  /** The stable descending sort. */
  function SortDesc<K>(xs: seq<Entry<K>>): (r: seq<Entry<K>>)
    ensures |r| == |xs|
  {
    if xs == [] then []
    else
      Insert(xs[|xs| - 1], SortDesc(xs[..|xs| - 1]))
  }

  /** Inserting splices the new entry in right after the leading entries
      that score at least as high. */
  lemma {:induction false} InsertAt<K>(x: Entry<K>, s: seq<Entry<K>>)
    ensures var p := InsertionPoint(x, s);
      && Insert(x, s) == s[..p] + [x] + s[p..]
      && (forall i :: 0 <= i < p ==> s[i].1 >= x.1)
      && (p < |s| ==> s[p].1 < x.1)
  {
    if s != [] && s[0].1 >= x.1 {
      InsertAt(x, s[1..]);
      var p := InsertionPoint(x, s[1..]);
      assert s[..p + 1] == [s[0]] + s[1..][..p];
      assert s[p + 1..] == s[1..][p..];
      forall i | 1 <= i < p + 1 ensures s[i].1 >= x.1 {
        assert s[i] == s[1..][i - 1];
      }
    }
  }

  /** Inserting into a ranked sequence puts the new entry after every entry
      scoring at least as high and before every entry scoring lower. */
  lemma InsertSplices<K>(x: Entry<K>, s: seq<Entry<K>>)
    requires NonIncreasing(s)
    ensures var p := InsertionPoint(x, s);
      && Insert(x, s) == s[..p] + [x] + s[p..]
      && (forall i :: 0 <= i < p ==> s[i].1 >= x.1)
      && (forall i :: p <= i < |s| ==> s[i].1 < x.1)
  {
    InsertAt(x, s);
  }

  /** Position by position: the entries before the insertion point, the
      new entry, then the rest shifted up by one. */
  lemma InsertIndex<K>(x: Entry<K>, s: seq<Entry<K>>, i: nat)
    requires i <= |s|
    ensures var p := InsertionPoint(x, s);
      Insert(x, s)[i] == if i < p then s[i] else if i == p then x else s[i - 1]
  {
    InsertAt(x, s);
  }

  lemma InsertKeepsOrder<K>(x: Entry<K>, s: seq<Entry<K>>)
    requires NonIncreasing(s)
    ensures NonIncreasing(Insert(x, s))
  {
    InsertSplices(x, s);
    var p := InsertionPoint(x, s);
    var r := Insert(x, s);
    forall i, j | 0 <= i < j < |r| ensures r[i].1 >= r[j].1 {
      InsertIndex(x, s, i);
      InsertIndex(x, s, j);
    }
  }

  /** The result of the sort is ranked highest score first. */
  lemma {:induction false} SortDescNonIncreasing<K>(xs: seq<Entry<K>>)
    ensures NonIncreasing(SortDesc(xs))
  {
    if xs != [] {
      SortDescNonIncreasing(xs[..|xs| - 1]);
      InsertKeepsOrder(xs[|xs| - 1], SortDesc(xs[..|xs| - 1]));
    }
  }

  /** Sorting an already ranked sequence leaves it unchanged, so re-sorting
      a ranked pool after appending one entry is the same as inserting it. */
  lemma {:induction false} SortDescOfRanked<K>(s: seq<Entry<K>>)
    requires NonIncreasing(s)
    ensures SortDesc(s) == s
  {
    if s != [] {
      var init := s[..|s| - 1];
      var x := s[|s| - 1];
      SortDescOfRanked(init);
      InsertSplices(x, init);
      var p := InsertionPoint(x, init);
      assert init[..p] == init && init[p..] == [];
      assert s == init + [x];
    }
  }

  lemma SortDescAppend<K>(s: seq<Entry<K>>, x: Entry<K>)
    requires NonIncreasing(s)
    ensures SortDesc(s + [x]) == Insert(x, s)
  {
    assert (s + [x])[..|s|] == s;
    SortDescOfRanked(s);
  }

  /** The ranking is a permutation of its input. */
  lemma {:induction false} InsertPermutes<K>(x: Entry<K>, s: seq<Entry<K>>)
    ensures multiset(Insert(x, s)) == multiset(s) + multiset{x}
  {
    if s != [] && s[0].1 >= x.1 {
      InsertPermutes(x, s[1..]);
      assert s == [s[0]] + s[1..];
      assert multiset(s) == multiset{s[0]} + multiset(s[1..]);
    }
  }

  lemma {:induction false} SortDescPermutes<K>(xs: seq<Entry<K>>)
    ensures multiset(SortDesc(xs)) == multiset(xs)
  {
    if xs != [] {
      var init, x := xs[..|xs| - 1], xs[|xs| - 1];
      SortDescPermutes(init);
      InsertPermutes(x, SortDesc(init));
      assert xs == init + [x];
      assert multiset(xs) == multiset(init) + multiset{x};
    }
  }

  /** The entries `xs` inserted one after the other, first to last, into `s`. */
  function InsertAll<K>(s: seq<Entry<K>>, xs: seq<Entry<K>>): (r: seq<Entry<K>>)
    ensures |r| == |s| + |xs|
  {
    if xs == [] then s else Insert(xs[|xs| - 1], InsertAll(s, xs[..|xs| - 1]))
  }

  /** Inserting the entries one by one into a ranked sequence is appending
      them all and sorting once: the pool that repeated append-and-sort builds. */
  lemma {:induction false} InsertAllIsSort<K>(s: seq<Entry<K>>, xs: seq<Entry<K>>)
    requires NonIncreasing(s)
    ensures InsertAll(s, xs) == SortDesc(s + xs)
  {
    if xs == [] {
      assert s + xs == s;
      SortDescOfRanked(s);
    } else {
      var init, x := xs[..|xs| - 1], xs[|xs| - 1];
      InsertAllIsSort(s, init);
      assert (s + xs)[..|s + xs| - 1] == s + init;
      assert (s + xs)[|s + xs| - 1] == x;
    }
  }

  /** Inserting one more entry extends `InsertAll` by that entry. */
  lemma InsertAllSnoc<K>(s: seq<Entry<K>>, xs: seq<Entry<K>>, x: Entry<K>)
    ensures InsertAll(s, xs + [x]) == Insert(x, InsertAll(s, xs))
  {
    assert (xs + [x])[..|xs|] == xs;
  }

  /** Inserting the entries adds exactly them. */
  lemma {:induction false} InsertAllPermutes<K>(s: seq<Entry<K>>, xs: seq<Entry<K>>)
    ensures multiset(InsertAll(s, xs)) == multiset(s) + multiset(xs)
  {
    if xs != [] {
      var init, x := xs[..|xs| - 1], xs[|xs| - 1];
      InsertAllPermutes(s, init);
      InsertPermutes(x, InsertAll(s, init));
      assert xs == init + [x];
    }
  }

  lemma InsertRanked(x: Entry<int>, s: seq<Entry<int>>)
    requires RankedByScoreThenKey(s)
    requires forall i :: 0 <= i < |s| ==> s[i].0 < x.0
    ensures RankedByScoreThenKey(Insert(x, s))
  {
    InsertAt(x, s);
    var p := InsertionPoint(x, s);
    var r := Insert(x, s);
    forall i, j | 0 <= i < j < |r| ensures r[i].1 > r[j].1 || (r[i].1 == r[j].1 && r[i].0 < r[j].0) {
      InsertIndex(x, s, i);
      InsertIndex(x, s, j);
      if i == p && p < j { assert s[p].1 >= s[j - 1].1; }
    }
  }

  /** Stability: when the input keys ascend (as they do for `range(...)`),
      the ranking breaks ties between equal scores by ascending key. */
  lemma {:induction false} SortDescStable(xs: seq<Entry<int>>)
    requires KeysAscending(xs)
    ensures RankedByScoreThenKey(SortDesc(xs))
  {
    if xs != [] {
      var init := xs[..|xs| - 1];
      var x := xs[|xs| - 1];
      SortDescStable(init);
      SortDescPermutes(init);
      var s := SortDesc(init);
      forall i | 0 <= i < |s| ensures s[i].0 < x.0 {
        assert s[i] in multiset(init);
        var k :| 0 <= k < |init| && init[k] == s[i];
        assert xs[k] == s[i];
      }
      InsertRanked(x, s);
    }
  }

  /** Entries numbered consecutively from `base`, as `[(i, f(i)) for i in range(base, ...)]`. */
  ghost predicate NumberedFrom(xs: seq<Entry<int>>, base: int)
  {
    forall i :: 0 <= i < |xs| ==> xs[i].0 == base + i
  }

  /** Some entry of `r` has key `k`. */
  ghost predicate HasKey(r: seq<Entry<int>>, k: int)
  {
    exists i :: 0 <= i < |r| && r[i].0 == k
  }

  /** `r` reorders the entries numbered from `base`: as many entries, each
      the input entry its key names, no key twice and every key present. */
  ghost predicate NumberedReordering(xs: seq<Entry<int>>, base: int, r: seq<Entry<int>>)
  {
    && |r| == |xs|
    && (forall i :: 0 <= i < |r| ==> base <= r[i].0 < base + |xs| && r[i] == xs[r[i].0 - base])
    && (forall i, j :: 0 <= i < j < |r| ==> r[i].0 != r[j].0)
    && (forall k :: base <= k < base + |xs| ==> HasKey(r, k))
  }

  /** Ranking numbered entries keeps every entry exactly once, each key of
      the range appearing, ranked by descending score and ascending key. */
  lemma SortDescNumbered(xs: seq<Entry<int>>, base: int)
    requires NumberedFrom(xs, base)
    ensures RankedByScoreThenKey(SortDesc(xs))
    ensures NumberedReordering(xs, base, SortDesc(xs))
  {
    var r := SortDesc(xs);
    NumberedAscending(xs, base);
    SortDescStable(xs);
    SortDescPermutes(xs);
    RankedNumbered(xs, base, r);
  }

  lemma NumberedAscending(xs: seq<Entry<int>>, base: int)
    requires NumberedFrom(xs, base)
    ensures KeysAscending(xs)
  {
  }

  /** The same, for any ranked reordering `r` of the numbered entries. */
  lemma RankedNumbered(xs: seq<Entry<int>>, base: int, r: seq<Entry<int>>)
    requires NumberedFrom(xs, base) && multiset(r) == multiset(xs) && RankedByScoreThenKey(r)
    ensures NumberedReordering(xs, base, r)
  {
    assert |r| == |multiset(r)| == |multiset(xs)| == |xs|;
    NumberedEntries(xs, base, r);
    NumberedDistinct(xs, base, r);
    NumberedCovers(xs, base, r);
  }

  lemma NumberedEntries(xs: seq<Entry<int>>, base: int, r: seq<Entry<int>>)
    requires NumberedFrom(xs, base) && multiset(r) == multiset(xs)
    ensures forall i :: 0 <= i < |r| ==> base <= r[i].0 < base + |xs| && r[i] == xs[r[i].0 - base]
  {
    forall i | 0 <= i < |r| ensures base <= r[i].0 < base + |xs| && r[i] == xs[r[i].0 - base] {
      EntryOfPermutation(xs, base, r, i);
    }
  }

  lemma NumberedDistinct(xs: seq<Entry<int>>, base: int, r: seq<Entry<int>>)
    requires NumberedFrom(xs, base) && multiset(r) == multiset(xs) && RankedByScoreThenKey(r)
    ensures forall i, j :: 0 <= i < j < |r| ==> r[i].0 != r[j].0
  {
    forall i, j | 0 <= i < j < |r| ensures r[i].0 != r[j].0 {
      EntryOfPermutation(xs, base, r, i);
      EntryOfPermutation(xs, base, r, j);
    }
  }

  lemma NumberedCovers(xs: seq<Entry<int>>, base: int, r: seq<Entry<int>>)
    requires NumberedFrom(xs, base) && multiset(r) == multiset(xs)
    ensures forall k :: base <= k < base + |xs| ==> HasKey(r, k)
  {
    forall k | base <= k < base + |xs| ensures HasKey(r, k) {
      KeyOfPermutation(xs, base, r, k - base);
    }
  }

  /** Every entry of a reordering of numbered entries is the input entry its key names. */
  lemma EntryOfPermutation(xs: seq<Entry<int>>, base: int, r: seq<Entry<int>>, i: nat)
    requires NumberedFrom(xs, base) && multiset(r) == multiset(xs) && i < |r|
    ensures base <= r[i].0 < base + |xs| && r[i] == xs[r[i].0 - base]
  {
    assert r[i] in multiset(xs);
    var k :| 0 <= k < |xs| && xs[k] == r[i];
    assert xs[k].0 == base + k;
  }

  /** Every key of the numbered input appears in any reordering of it. */
  lemma KeyOfPermutation(xs: seq<Entry<int>>, base: int, r: seq<Entry<int>>, k: nat)
    requires NumberedFrom(xs, base) && multiset(r) == multiset(xs) && k < |xs|
    ensures HasKey(r, base + k)
  {
    assert xs[k] in multiset(r);
    var i :| 0 <= i < |r| && r[i] == xs[k];
    assert r[i].0 == base + k;
  }

  /** The first entry of the ranking of numbered entries is their first
      maximum: no entry scores higher, and every smaller key scores lower. */
  lemma SortDescNumberedFirst(xs: seq<Entry<int>>, base: int, r: seq<Entry<int>>)
    requires NumberedFrom(xs, base) && |xs| > 0 && r == SortDesc(xs)
    ensures base <= r[0].0 < base + |xs|
    ensures r[0] == xs[r[0].0 - base]
    ensures forall i :: 0 <= i < |xs| ==> xs[i].1 <= r[0].1
    ensures forall i :: 0 <= i < |xs| && xs[i].0 < r[0].0 ==> xs[i].1 < r[0].1
  {
    NumberedAscending(xs, base);
    SortDescStable(xs);
    SortDescPermutes(xs);
    RankedNumberedFirst(xs, base, r);
  }

  /** The same, for any ranked reordering `r` of the numbered entries. */
  lemma RankedNumberedFirst(xs: seq<Entry<int>>, base: int, r: seq<Entry<int>>)
    requires NumberedFrom(xs, base) && multiset(r) == multiset(xs) && RankedByScoreThenKey(r) && |r| > 0
    ensures base <= r[0].0 < base + |xs|
    ensures r[0] == xs[r[0].0 - base]
    ensures forall i :: 0 <= i < |xs| ==> xs[i].1 <= r[0].1
    ensures forall i :: 0 <= i < |xs| && xs[i].0 < r[0].0 ==> xs[i].1 < r[0].1
  {
    EntryOfPermutation(xs, base, r, 0);
    forall i | 0 <= i < |xs| ensures xs[i].1 <= r[0].1 && (xs[i].0 < r[0].0 ==> xs[i].1 < r[0].1) {
      FirstBeatsEntry(xs, base, r, i);
    }
  }

  lemma FirstBeatsEntry(xs: seq<Entry<int>>, base: int, r: seq<Entry<int>>, i: nat)
    requires NumberedFrom(xs, base) && multiset(r) == multiset(xs) && RankedByScoreThenKey(r)
    requires i < |xs| && |r| > 0
    ensures xs[i].1 <= r[0].1 && (xs[i].0 < r[0].0 ==> xs[i].1 < r[0].1)
  {
    KeyOfPermutation(xs, base, r, i);
    var j :| 0 <= j < |r| && r[j].0 == base + i;
    EntryOfPermutation(xs, base, r, j);
    if j > 0 {
      assert r[0].1 > r[j].1 || (r[0].1 == r[j].1 && r[0].0 < r[j].0);
    }
  }
}
