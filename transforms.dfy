/** The masker of util/transforms.py: it strips a text down to its letters,
    uppercased, and remembers where the letters, the lowercase letters and
    the other characters were, so that a replacement text of the same length
    can be put back into the original layout.

    The alphabet is the masker's default, the regular expression `[a-zA-Z]`. */
module Transforms {
  import opened Common

  /** `re.match("[a-zA-Z]", c)` for one character. */
  predicate IsLetter(c: char)
  {
    'a' <= c <= 'z' || 'A' <= c <= 'Z'
  }

  /** `str.islower(c)` for one character, on ASCII. */
  predicate IsLower(c: char)
  {
    'a' <= c <= 'z'
  }

  predicate IsUpper(c: char)
  {
    'A' <= c <= 'Z'
  }

  /** `c.upper()` on ASCII. */
  function Upper(c: char): (u: char)
    ensures IsLetter(c) ==> IsUpper(u)
    ensures !IsLower(c) ==> u == c
  {
    if IsLower(c) then (c as int - 32) as char else c
  }

  /** `c.lower()` on ASCII. */
  function Lower(c: char): (l: char)
    ensures IsLower(c) ==> l == c
    ensures IsUpper(c) ==> IsLower(l)
  {
    if IsUpper(c) then (c as int + 32) as char else c
  }

  /** Lowercasing an uppercased lowercase letter gives it back. */
  lemma CaseRoundTrip(c: char)
    requires IsLetter(c)
    ensures (if IsLower(c) then Lower(Upper(c)) else Upper(c)) == c
  {
  }

  /** `_get_alphabet_mask`: 1 at the letters, 0 elsewhere. */
  function AlphabetMask(text: string): (m: seq<int>)
    ensures |m| == |text|
    ensures forall i :: 0 <= i < |text| ==> (m[i] == 0 || m[i] == 1) && (m[i] == 1 <==> IsLetter(text[i]))
  {
    seq(|text|, i requires 0 <= i < |text| => if IsLetter(text[i]) then 1 else 0)
  }

  /** `_get_lowercase_mask`: 1 at the lowercase characters, 0 elsewhere. */
  function LowercaseMask(text: string): (m: seq<int>)
    ensures |m| == |text|
    ensures forall i :: 0 <= i < |text| ==> (m[i] == 0 || m[i] == 1) && (m[i] == 1 <==> IsLower(text[i]))
  {
    seq(|text|, i requires 0 <= i < |text| => if IsLower(text[i]) then 1 else 0)
  }

  /** Python's `sum` over a mask. */
  function Sum(m: seq<int>): int
  {
    if m == [] then 0 else m[0] + Sum(m[1..])
  }

  /** The letters of `text`, uppercased, in their original order. */
  function Letters(text: string): string
  {
    if text == [] then []
    else (if IsLetter(text[0]) then [Upper(text[0])] else []) + Letters(text[1..])
  }

  /** The characters of `text` that are not letters, in their original order. */
  function NonLetters(text: string): string
  {
    if text == [] then []
    else (if IsLetter(text[0]) then [] else [text[0]]) + NonLetters(text[1..])
  }

  /** What `extend(new_text)` builds for a masker of `text`: the letters of
      `text` replaced, in order, by those of `newText`, each lowercased where
      the original letter was lowercase; every other character kept. */
  function Extended(text: string, newText: string): (r: string)
    requires |newText| == |Letters(text)|
  {
    if text == [] then []
    else if IsLetter(text[0]) then
      [if IsLower(text[0]) then Lower(newText[0]) else newText[0]] + Extended(text[1..], newText[1..])
    else [text[0]] + Extended(text[1..], newText)
  }

  /** A masker: the text and what `__init__` derives from it. */
  datatype Masker = Masker(text: string, alphabetMask: seq<int>, lowercaseMask: seq<int>,
                           reducedText: string, nonAlphabetChars: string)
  {
    /** The fields are the ones `__init__` computes from `text`. */
    ghost predicate Valid()
    {
      && alphabetMask == AlphabetMask(text)
      && lowercaseMask == LowercaseMask(text)
      && reducedText == Letters(text)
      && nonAlphabetChars == NonLetters(text)
    }
  }

  /** `_get_reduced_text`: one pass over the text, appending each letter
      (uppercased) to the reduced text and every other character to the
      list of non-letters. */
  method GetReducedText(text: string, alphabetMask: seq<int>) returns (reduced: string, nonAlphabetChars: string)
    requires alphabetMask == AlphabetMask(text)
    ensures reduced == Letters(text)
    ensures nonAlphabetChars == NonLetters(text)
  {
    reduced, nonAlphabetChars := [], [];
    var i := 0;
    while i < |text|
      invariant 0 <= i <= |text|
      invariant reduced + Letters(text[i..]) == Letters(text)
      invariant nonAlphabetChars + NonLetters(text[i..]) == NonLetters(text)
    {
      SplitStepAt(text, i);
      if alphabetMask[i] == 1 {
        AppendOne(reduced, Upper(text[i]), Letters(text[i + 1..]));
        reduced := reduced + [Upper(text[i])];
      } else {
        AppendOne(nonAlphabetChars, text[i], NonLetters(text[i + 1..]));
        nonAlphabetChars := nonAlphabetChars + [text[i]];
      }
      i := i + 1;
    }
  }

  /** The letters and the non-letters from position `i` on, one character at a time. */
  lemma SplitStepAt(text: string, i: nat)
    requires i < |text|
    ensures IsLetter(text[i]) ==>
      Letters(text[i..]) == [Upper(text[i])] + Letters(text[i + 1..]) && NonLetters(text[i..]) == NonLetters(text[i + 1..])
    ensures !IsLetter(text[i]) ==>
      Letters(text[i..]) == Letters(text[i + 1..]) && NonLetters(text[i..]) == [text[i]] + NonLetters(text[i + 1..])
  {
    assert text[i..][0] == text[i] && text[i..][1..] == text[i + 1..];
  }

  /** `Masker(text)`. */
  method NewMasker(text: string) returns (m: Masker)
    ensures m.Valid() && m.text == text
  {
    var alphabetMask := AlphabetMask(text);
    var lowercaseMask := LowercaseMask(text);
    var reduced, nonAlphabetChars := GetReducedText(text, alphabetMask);
    m := Masker(text, alphabetMask, lowercaseMask, reduced, nonAlphabetChars);
  }

  /** `reduce()`. */
  function Reduce(m: Masker): (r: string)
    requires m.Valid()
    ensures r == Letters(m.text)
  {
    m.reducedText
  }

  /** `Masker.from_text(text)`: the reduced text together with its masker. */
  method FromText(text: string) returns (reduced: string, m: Masker)
    ensures m.Valid() && m.text == text
    ensures reduced == Letters(text)
  {
    m := NewMasker(text);
    reduced := Reduce(m);
  }

  /** `extend(new_text)`: fails unless `new_text` has one character per
      letter of the text; otherwise walks the alphabet mask, taking the next
      character of `new_text` (lowercased where the mask says so) at each
      letter and the next remembered non-letter everywhere else. */
  method Extend(m: Masker, newText: string) returns (r: Result<string>)
    requires m.Valid()
    ensures r.Failure? <==> |newText| != Sum(m.alphabetMask)
    ensures r.Failure? ==> r.error == LengthMismatch
    ensures r.Success? ==> |newText| == |Letters(m.text)| && r.value == Extended(m.text, newText)
  {
    MaskCountsLetters(m.text);
    if |newText| != Sum(m.alphabetMask) {
      return Failure(LengthMismatch);
    }
    var result := Refill(m.text, m.alphabetMask, m.lowercaseMask, m.nonAlphabetChars, newText);
    return Success(result);
  }

  /** The loop of `extend`, with its two queues held as read positions. */
  method Refill(text: string, alphabetMask: seq<int>, lowercaseMask: seq<int>, nonAlphabetChars: string,
                newText: string) returns (result: string)
    requires alphabetMask == AlphabetMask(text) && lowercaseMask == LowercaseMask(text)
    requires nonAlphabetChars == NonLetters(text)
    requires |newText| == |Letters(text)|
    ensures result == Extended(text, newText)
  {
    result := [];
    var j, k := 0, 0;   // how much of the two queues has been consumed
    var i := 0;
    while i < |alphabetMask|
      invariant 0 <= i <= |text| && 0 <= j <= |newText| && 0 <= k <= |nonAlphabetChars|
      invariant |newText[j..]| == |Letters(text[i..])|
      invariant nonAlphabetChars[k..] == NonLetters(text[i..])
      invariant result + Extended(text[i..], newText[j..]) == Extended(text, newText)
    {
      ExtendedStepAt(text, newText, i, j);
      if alphabetMask[i] == 1 {
        var c := newText[j];
        if lowercaseMask[i] == 1 {
          c := Lower(c);
        }
        AppendOne(result, c, Extended(text[i + 1..], newText[j + 1..]));
        result := result + [c];
        j := j + 1;
      } else {
        assert nonAlphabetChars[k..][1..] == nonAlphabetChars[k + 1..];
        AppendOne(result, nonAlphabetChars[k], Extended(text[i + 1..], newText[j..]));
        result := result + [nonAlphabetChars[k]];
        k := k + 1;
      }
      i := i + 1;
    }
  }

  lemma AppendOne(a: string, x: char, b: string)
    ensures (a + [x]) + b == a + ([x] + b)
  {
  }

  /** One step of the extension, at the head of the text. */
  lemma ExtendedStep(text: string, newText: string)
    requires |newText| == |Letters(text)|
    requires text != []
    ensures IsLetter(text[0]) ==>
      && |newText| > 0 && |newText[1..]| == |Letters(text[1..])| && NonLetters(text) == NonLetters(text[1..])
      && Extended(text, newText) == [if IsLower(text[0]) then Lower(newText[0]) else newText[0]] + Extended(text[1..], newText[1..])
    ensures !IsLetter(text[0]) ==>
      && |newText| == |Letters(text[1..])| && NonLetters(text) == [text[0]] + NonLetters(text[1..])
      && Extended(text, newText) == [text[0]] + Extended(text[1..], newText)
  {
  }

  /** `ExtendedStep` at position `i` of the text and `j` of the new text. */
  lemma ExtendedStepAt(text: string, newText: string, i: nat, j: nat)
    requires i < |text| && j <= |newText|
    requires |newText[j..]| == |Letters(text[i..])|
    ensures IsLetter(text[i]) ==>
      && j < |newText| && |newText[j + 1..]| == |Letters(text[i + 1..])| && NonLetters(text[i..]) == NonLetters(text[i + 1..])
      && Extended(text[i..], newText[j..]) == [if IsLower(text[i]) then Lower(newText[j]) else newText[j]] + Extended(text[i + 1..], newText[j + 1..])
    ensures !IsLetter(text[i]) ==>
      && |newText[j..]| == |Letters(text[i + 1..])| && NonLetters(text[i..]) == [text[i]] + NonLetters(text[i + 1..])
      && Extended(text[i..], newText[j..]) == [text[i]] + Extended(text[i + 1..], newText[j..])
  {
    ExtendedStep(text[i..], newText[j..]);
    assert text[i..][0] == text[i] && text[i..][1..] == text[i + 1..];
    if j < |newText| {
      assert newText[j..][1..] == newText[j + 1..];
    }
  }

  // ---------------------------------------------------------------------
  // Properties of the masks, the reduced text and the extension

  /** The alphabet mask adds up to the number of letters, which is the length
      of the reduced text. */
  lemma {:induction false} MaskCountsLetters(text: string)
    ensures Sum(AlphabetMask(text)) == |Letters(text)|
    ensures |NonLetters(text)| == |text| - |Letters(text)|
  {
    if text != [] {
      assert AlphabetMask(text)[1..] == AlphabetMask(text[1..]);
      MaskCountsLetters(text[1..]);
    }
  }

  lemma {:induction false} LettersConcat(a: string, b: string)
    ensures Letters(a + b) == Letters(a) + Letters(b)
  {
    if a == [] {
      assert a + b == b;
    } else {
      var head := if IsLetter(a[0]) then [Upper(a[0])] else [];
      assert (a + b)[0] == a[0] && (a + b)[1..] == a[1..] + b;
      assert Letters(a + b) == head + Letters(a[1..] + b);
      LettersConcat(a[1..], b);
      assert Letters(a) == head + Letters(a[1..]);
    }
  }

  lemma {:induction false} NonLettersConcat(a: string, b: string)
    ensures NonLetters(a + b) == NonLetters(a) + NonLetters(b)
  {
    if a == [] {
      assert a + b == b;
    } else {
      var head := if IsLetter(a[0]) then [] else [a[0]];
      assert (a + b)[0] == a[0] && (a + b)[1..] == a[1..] + b;
      assert NonLetters(a + b) == head + NonLetters(a[1..] + b);
      NonLettersConcat(a[1..], b);
      assert NonLetters(a) == head + NonLetters(a[1..]);
    }
  }

  /** The reduced text consists of uppercase letters only. */
  lemma {:induction false} LettersAreUpper(text: string)
    ensures forall j :: 0 <= j < |Letters(text)| ==> IsUpper(Letters(text)[j])
  {
    if text != [] {
      LettersAreUpper(text[1..]);
    }
  }

  /** The letter at position `i` of the text, uppercased, stands in the
      reduced text right after the letters that precede it; a non-letter
      stands in the list of non-letters right after the non-letters that
      precede it. Together: the reduced text holds the letters in order and
      the non-letter list holds exactly the rest, in order. The number of
      letters before `i` is also the sum of the mask before `i`. */
  lemma LettersInOrder(text: string, i: nat)
    requires i < |text|
    ensures Sum(AlphabetMask(text)[..i]) == |Letters(text[..i])|
    ensures IsLetter(text[i]) ==>
      var before := |Letters(text[..i])|;
      before < |Letters(text)| && Letters(text)[before] == Upper(text[i])
    ensures !IsLetter(text[i]) ==>
      var before := |NonLetters(text[..i])|;
      before == i - |Letters(text[..i])| &&
      before < |NonLetters(text)| && NonLetters(text)[before] == text[i]
  {
    assert text == text[..i] + [text[i]] + text[i + 1..];
    LettersConcat(text[..i] + [text[i]], text[i + 1..]);
    LettersConcat(text[..i], [text[i]]);
    NonLettersConcat(text[..i] + [text[i]], text[i + 1..]);
    NonLettersConcat(text[..i], [text[i]]);
    assert AlphabetMask(text)[..i] == AlphabetMask(text[..i]);
    MaskCountsLetters(text[..i]);
  }

  /** Reducing an already reduced text changes nothing. */
  lemma {:induction false} ReduceIdempotent(text: string)
    ensures Letters(Letters(text)) == Letters(text)
    ensures NonLetters(Letters(text)) == []
  {
    if text != [] {
      ReduceIdempotent(text[1..]);
      LettersConcat(if IsLetter(text[0]) then [Upper(text[0])] else [], Letters(text[1..]));
      NonLettersConcat(if IsLetter(text[0]) then [Upper(text[0])] else [], Letters(text[1..]));
    }
  }

  /** The extension is as long as the original text. */
  lemma {:induction false} ExtendedLength(text: string, newText: string)
    requires |newText| == |Letters(text)|
    ensures |Extended(text, newText)| == |text|
  {
    if text != [] {
      ExtendedLength(text[1..], if IsLetter(text[0]) then newText[1..] else newText);
    }
  }

  /** Position by position, the extension keeps every non-letter of the
      original text, whatever `newText` is, and puts the next unused
      character of `newText` at each letter, lowercased exactly where the
      original letter was lowercase. */
  lemma {:induction false} ExtendedAt(text: string, newText: string, i: nat)
    requires |newText| == |Letters(text)|
    requires i < |text|
    ensures |Extended(text, newText)| == |text|
    ensures !IsLetter(text[i]) ==> Extended(text, newText)[i] == text[i]
    ensures IsLetter(text[i]) ==>
      var before := |Letters(text[..i])|;
      before < |newText| &&
      Extended(text, newText)[i] == (if IsLower(text[i]) then Lower(newText[before]) else newText[before])
  {
    ExtendedLength(text, newText);
    var rest := if IsLetter(text[0]) then newText[1..] else newText;
    if i > 0 {
      ExtendedAt(text[1..], rest, i - 1);
      assert text[..i] == [text[0]] + text[1..][..i - 1];
      assert text[..i][1..] == text[1..][..i - 1];
    }
  }

  /** Round trip: extending a masker's own reduced text gives back the
      original text, case and punctuation included. */
  lemma {:induction false} ExtendReduceRoundTrip(text: string)
    ensures Extended(text, Letters(text)) == text
  {
    if text != [] {
      ExtendReduceRoundTrip(text[1..]);
      if IsLetter(text[0]) {
        CaseRoundTrip(text[0]);
        assert Letters(text) == [Upper(text[0])] + Letters(text[1..]);
        assert Letters(text)[1..] == Letters(text[1..]);
      } else {
        assert Letters(text) == Letters(text[1..]);
      }
      assert text == [text[0]] + text[1..];
    }
  }

  /** The same round trip through the masker's own operations. */
  method RoundTrip(text: string) returns (r: Result<string>)
    ensures r == Success(text)
  {
    var reduced, m := FromText(text);
    r := Extend(m, reduced);
    MaskCountsLetters(text);
    ExtendReduceRoundTrip(text);
  }
}
