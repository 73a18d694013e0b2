/**
  `detailed_word_comparison(expected_text, transcribed_text)`: a positional
  two-cursor scan over the whitespace-split words of both texts. While both
  lists still have a word at the current position, the two words are
  compared after normalization; once one list is exhausted, the remaining
  words of the other are reported as missing (expected side) or extra
  (transcribed side). There is no re-synchronisation: an inserted or omitted
  word shifts every later comparison.
 */
module WordAligner {
  import opened Normalizer
  import opened Tokenizer

  /** One element of the `result` list; the Python dict's 'type' is the constructor. */
  datatype Entry =
    | Correct(word: string)
    | Mismatch(expected: string, transcribed: string)
    | Missing(word: string)
    | Extra(word: string)

  function Max(a: nat, b: nat): nat {
    if a < b then b else a
  }

  /**
    The entry for a position where both lists have a word. A correct entry
    carries the transcribed word; both kinds carry the words as they were
    written, not their normal forms.
   */
  function Pair(e: string, t: string): (r: Entry)
    ensures r.Correct? || r.Mismatch?
    ensures r.Correct? <==> Normalize(e) == Normalize(t)
    ensures r.Correct? ==> r.word == t
    ensures r.Mismatch? ==> r.expected == e && r.transcribed == t
  {
    if Normalize(e) == Normalize(t) then Correct(t) else Mismatch(e, t)
  }

  /**
    Whether two words compare correct ignores their case and punctuation,
    and does not depend on which side each word is on.
   */
  lemma PairIgnoresCaseAndPunctuation(e: string, t: string)
    ensures Pair(Lower(e), t).Correct? == Pair(e, t).Correct?
    ensures Pair(StripPunctuation(e), t).Correct? == Pair(e, t).Correct?
    ensures Pair(e, t).Correct? == Pair(t, e).Correct?
  {
    NormalizeIgnoresCase(e);
  }

  /** The entry the scan emits at step `k`, stated directly. */
  function EntryAt(expected: seq<string>, transcribed: seq<string>, k: nat): Entry
    requires k < Max(|expected|, |transcribed|)
  {
    if k < |expected| && k < |transcribed| then Pair(expected[k], transcribed[k])
    else if k < |expected| then Missing(expected[k])
    else Extra(transcribed[k])
  }

  /** A reference definition of the same report, by recursion on both lists. */
  function Align(expected: seq<string>, transcribed: seq<string>): (r: seq<Entry>)
    ensures |r| == Max(|expected|, |transcribed|)
    decreases |expected| + |transcribed|
  {
    if expected != [] && transcribed != [] then
      [Pair(expected[0], transcribed[0])] + Align(expected[1..], transcribed[1..])
    else if expected != [] then
      [Missing(expected[0])] + Align(expected[1..], transcribed)
    else if transcribed != [] then
      [Extra(transcribed[0])] + Align(expected, transcribed[1..])
    else
      []
  }

  /** The report for two texts, as the dispatch in the request handler uses it. */
  function WordDiff(expectedText: string, transcribedText: string): (r: seq<Entry>)
    ensures |r| == Max(|Split(expectedText)|, |Split(transcribedText)|)
    ensures forall k :: 0 <= k < |r| ==>
      r[k] == EntryAt(Split(expectedText), Split(transcribedText), k)
  {
    var expected, transcribed := Split(expectedText), Split(transcribedText);
    assert forall k :: 0 <= k < Max(|expected|, |transcribed|) ==>
      Align(expected, transcribed)[k] == EntryAt(expected, transcribed, k) by {
      forall k | 0 <= k < Max(|expected|, |transcribed|) {
        AlignAt(expected, transcribed, k);
      }
    }
    Align(expected, transcribed)
  }

  /** The recursive reference and the closed form agree at every position. */
  lemma {:induction false} AlignAt(expected: seq<string>, transcribed: seq<string>, k: nat)
    requires k < Max(|expected|, |transcribed|)
    ensures Align(expected, transcribed)[k] == EntryAt(expected, transcribed, k)
    decreases |expected| + |transcribed|
  {
    var r := Align(expected, transcribed);
    if expected != [] && transcribed != [] {
      var rest := Align(expected[1..], transcribed[1..]);
      assert r == [Pair(expected[0], transcribed[0])] + rest;
      if k > 0 {
        assert r[k] == rest[k - 1];
        AlignAt(expected[1..], transcribed[1..], k - 1);
      }
    } else if expected != [] {
      var rest := Align(expected[1..], transcribed);
      assert r == [Missing(expected[0])] + rest;
      if k > 0 {
        assert r[k] == rest[k - 1];
        AlignAt(expected[1..], transcribed, k - 1);
      }
    } else {
      var rest := Align(expected, transcribed[1..]);
      assert r == [Extra(transcribed[0])] + rest;
      if k > 0 {
        assert r[k] == rest[k - 1];
        AlignAt(expected, transcribed[1..], k - 1);
      }
    }
  }

  /** `detailed_word_comparison`, as the source writes it: a loop over two cursors. */
  method DetailedWordComparison(expectedText: string, transcribedText: string)
    returns (result: seq<Entry>)
    ensures |result| == Max(|Split(expectedText)|, |Split(transcribedText)|)
    ensures forall k :: 0 <= k < |result| ==>
      result[k] == EntryAt(Split(expectedText), Split(transcribedText), k)
    ensures result == WordDiff(expectedText, transcribedText)
  {
    var expectedWords := Split(expectedText);
    var transcribedWords := Split(transcribedText);
    result := [];
    var i, j := 0, 0;
    while i < |expectedWords| || j < |transcribedWords|
      invariant i <= |expectedWords| && j <= |transcribedWords|
      invariant j < i ==> j == |transcribedWords|
      invariant i < j ==> i == |expectedWords|
      invariant |result| == Max(i, j)
      invariant forall k :: 0 <= k < |result| ==>
        result[k] == EntryAt(expectedWords, transcribedWords, k)
      decreases |expectedWords| - i + |transcribedWords| - j
    {
      ghost var step := |result|;
      if i < |expectedWords| && j < |transcribedWords| {
        assert i == j == step;
        if Normalize(expectedWords[i]) == Normalize(transcribedWords[j]) {
          result := result + [Correct(transcribedWords[j])];
        } else {
          result := result + [Mismatch(expectedWords[i], transcribedWords[j])];
        }
        i, j := i + 1, j + 1;
      } else if i < |expectedWords| {
        assert i == step;
        result := result + [Missing(expectedWords[i])];
        i := i + 1;
      } else {
        assert j == step;
        result := result + [Extra(transcribedWords[j])];
        j := j + 1;
      }
      assert result[step] == EntryAt(expectedWords, transcribedWords, step);
    }
    // On exit both cursors sit at the end of their lists.
    assert i == |expectedWords| && j == |transcribedWords|;
    forall k | 0 <= k < |result|
      ensures result[k] == WordDiff(expectedText, transcribedText)[k]
    {
      AlignAt(expectedWords, transcribedWords, k);
    }
  }

  /**
    Where each kind of entry sits: `Missing` exactly at the positions past the
    transcribed words that still have an expected word, `Extra` exactly at the
    positions past the expected words, and `Correct` or `Mismatch` below both.
   */
  lemma EntryKinds(expected: seq<string>, transcribed: seq<string>, k: nat)
    requires k < Max(|expected|, |transcribed|)
    ensures Align(expected, transcribed)[k].Missing? <==> |transcribed| <= k < |expected|
    ensures Align(expected, transcribed)[k].Extra? <==> |expected| <= k < |transcribed|
    ensures (Align(expected, transcribed)[k].Correct? || Align(expected, transcribed)[k].Mismatch?)
            <==> k < |expected| && k < |transcribed|
  {
    AlignAt(expected, transcribed, k);
  }

  /** A report never holds both a missing and an extra word. */
  lemma NoMissingWithExtra(expected: seq<string>, transcribed: seq<string>, k1: nat, k2: nat)
    requires k1 < Max(|expected|, |transcribed|) && k2 < Max(|expected|, |transcribed|)
    ensures !(Align(expected, transcribed)[k1].Missing? && Align(expected, transcribed)[k2].Extra?)
  {
    EntryKinds(expected, transcribed, k1);
    EntryKinds(expected, transcribed, k2);
  }

  /**
    Missing entries appear exactly when the expected list is the longer one,
    and extra entries exactly when the transcribed list is.
   */
  lemma TailKinds(expected: seq<string>, transcribed: seq<string>)
    ensures (exists k :: 0 <= k < |Align(expected, transcribed)| && Align(expected, transcribed)[k].Missing?)
            <==> |expected| > |transcribed|
    ensures (exists k :: 0 <= k < |Align(expected, transcribed)| && Align(expected, transcribed)[k].Extra?)
            <==> |transcribed| > |expected|
  {
    var r := Align(expected, transcribed);
    forall k | 0 <= k < |r|
      ensures r[k].Missing? ==> |expected| > |transcribed|
      ensures r[k].Extra? ==> |transcribed| > |expected|
    {
      EntryKinds(expected, transcribed, k);
    }
    if |expected| > |transcribed| {
      EntryKinds(expected, transcribed, |transcribed|);
    }
    if |transcribed| > |expected| {
      EntryKinds(expected, transcribed, |expected|);
    }
  }

  /** Every entry of a report is a correct one. */
  predicate AllCorrectEntries(r: seq<Entry>) {
    forall k :: 0 <= k < |r| ==> r[k].Correct?
  }

  /** Every entry is correct exactly when the lists pair up word for word after normalization. */
  lemma AllCorrect(expected: seq<string>, transcribed: seq<string>)
    ensures AllCorrectEntries(Align(expected, transcribed))
            <==> (|expected| == |transcribed| &&
                  forall k :: 0 <= k < |expected| ==> Normalize(expected[k]) == Normalize(transcribed[k]))
  {
    var r := Align(expected, transcribed);
    forall k | 0 <= k < |r| ensures r[k] == EntryAt(expected, transcribed, k) {
      AlignAt(expected, transcribed, k);
    }
    if |expected| != |transcribed| {
      var k := if |expected| < |transcribed| then |expected| else |transcribed|;
      assert !r[k].Correct?;
      assert !AllCorrectEntries(r);
    } else {
      forall k | 0 <= k < |expected|
        ensures r[k].Correct? <==> Normalize(expected[k]) == Normalize(transcribed[k])
      {
      }
    }
  }

  /** A text compared with itself is reported correct word for word, with its own words. */
  lemma SelfComparison(text: string)
    ensures |WordDiff(text, text)| == |Split(text)|
    ensures forall k :: 0 <= k < |Split(text)| ==> WordDiff(text, text)[k] == Correct(Split(text)[k])
  {
    var words := Split(text);
    forall k | 0 <= k < |words| ensures WordDiff(text, text)[k] == Correct(words[k]) {
      assert WordDiff(text, text)[k] == EntryAt(words, words, k);
    }
  }

  /**
    Comparisons are local: changing the transcribed word at one position
    changes the report at that position only.
   */
  lemma Locality(expected: seq<string>, transcribed: seq<string>, p: nat, w: string, k: nat)
    requires p < |transcribed| && k < Max(|expected|, |transcribed|) && k != p
    ensures Align(expected, transcribed[p := w])[k] == Align(expected, transcribed)[k]
  {
    AlignAt(expected, transcribed[p := w], k);
    AlignAt(expected, transcribed, k);
  }

  /** The transcribed words a report names: correct, mismatched and extra entries. */
  function TranscribedSide(r: seq<Entry>): seq<string> {
    if r == [] then []
    else
      (match r[0]
       case Correct(w) => [w]
       case Mismatch(_, t) => [t]
       case Missing(_) => []
       case Extra(w) => [w]) + TranscribedSide(r[1..])
  }

  /** The expected-side words a report names; a correct entry stands in with its transcribed word. */
  function ExpectedSide(r: seq<Entry>): seq<string> {
    if r == [] then []
    else
      (match r[0]
       case Correct(w) => [w]
       case Mismatch(e, _) => [e]
       case Missing(w) => [w]
       case Extra(_) => []) + ExpectedSide(r[1..])
  }

  /** The normal form of every word of a list. */
  function NormalizeAll(ws: seq<string>): (r: seq<string>)
    ensures |r| == |ws|
    ensures forall k :: 0 <= k < |ws| ==> r[k] == Normalize(ws[k])
  {
    if ws == [] then [] else [Normalize(ws[0])] + NormalizeAll(ws[1..])
  }

  /** The report gives back the transcribed words exactly, in order. */
  lemma {:induction false} TranscribedRecovered(expected: seq<string>, transcribed: seq<string>)
    ensures TranscribedSide(Align(expected, transcribed)) == transcribed
    decreases |expected| + |transcribed|
  {
    var r := Align(expected, transcribed);
    if expected != [] && transcribed != [] {
      TranscribedRecovered(expected[1..], transcribed[1..]);
      assert r[1..] == Align(expected[1..], transcribed[1..]);
      assert transcribed == [transcribed[0]] + transcribed[1..];
    } else if expected != [] {
      TranscribedRecovered(expected[1..], transcribed);
      assert r[1..] == Align(expected[1..], transcribed);
    } else if transcribed != [] {
      TranscribedRecovered(expected, transcribed[1..]);
      assert r[1..] == Align(expected, transcribed[1..]);
      assert transcribed == [transcribed[0]] + transcribed[1..];
    }
  }

  /** The report gives back the expected words up to normalization, in order. */
  lemma {:induction false} ExpectedRecovered(expected: seq<string>, transcribed: seq<string>)
    ensures NormalizeAll(ExpectedSide(Align(expected, transcribed))) == NormalizeAll(expected)
    decreases |expected| + |transcribed|
  {
    var r := Align(expected, transcribed);
    if expected != [] && transcribed != [] {
      ExpectedRecovered(expected[1..], transcribed[1..]);
      assert r[1..] == Align(expected[1..], transcribed[1..]);
      assert ExpectedSide(r) == [ExpectedSide(r)[0]] + ExpectedSide(r[1..]);
      assert Normalize(ExpectedSide(r)[0]) == Normalize(expected[0]);
    } else if expected != [] {
      ExpectedRecovered(expected[1..], transcribed);
      assert r[1..] == Align(expected[1..], transcribed);
      assert ExpectedSide(r) == [expected[0]] + ExpectedSide(r[1..]);
    } else if transcribed != [] {
      ExpectedRecovered(expected, transcribed[1..]);
      assert r[1..] == Align(expected, transcribed[1..]);
    }
  }
}
