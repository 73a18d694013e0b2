/**
  Typical behaviours of the word comparison, for arbitrary words:
  a case-insensitive match, a substitution that does not spread, a missing
  tail, and the cascade a single inserted word causes. Texts are written as
  words joined by single spaces.
 */
module Scenarios {
  import opened Chars
  import opened Normalizer
  import opened Tokenizer
  import opened WordAligner

  predicate AllTokens(ws: seq<string>) {
    forall k :: 0 <= k < |ws| ==> IsToken(ws[k])
  }

  /** Each word, lower-cased. */
  function LowerAll(ws: seq<string>): (r: seq<string>)
    ensures |r| == |ws|
    ensures forall k :: 0 <= k < |ws| ==> r[k] == Lower(ws[k])
  {
    if ws == [] then [] else [Lower(ws[0])] + LowerAll(ws[1..])
  }

  /** Lower-casing a token leaves a token. */
  lemma LowerKeepsToken(w: string)
    requires IsToken(w)
    ensures IsToken(Lower(w))
  {
    assert forall i :: 0 <= i < |w| ==> Lower(w)[i] == ToLower(w[i]);
  }

  /**
    The same words, differently capitalised, compare correct word for word,
    and each entry carries the transcribed spelling.
   */
  lemma CaseInsensitiveMatch(ws: seq<string>)
    requires AllTokens(ws)
    ensures |WordDiff(Join(LowerAll(ws)), Join(ws))| == |ws|
    ensures forall k :: 0 <= k < |ws| ==> WordDiff(Join(LowerAll(ws)), Join(ws))[k] == Correct(ws[k])
  {
    forall i | 0 <= i < |ws| ensures IsToken(LowerAll(ws)[i]) {
      LowerKeepsToken(ws[i]);
    }
    SplitJoin(ws);
    SplitJoin(LowerAll(ws));
    forall k | 0 <= k < |ws| ensures WordDiff(Join(LowerAll(ws)), Join(ws))[k] == Correct(ws[k]) {
      NormalizeIgnoresCase(ws[k]);
      AlignAt(LowerAll(ws), ws, k);
    }
  }

  /**
    Replacing the transcribed word at position `p` by one with a different
    normal form yields one mismatch there and correct entries everywhere else.
   */
  lemma SingleSubstitution(ws: seq<string>, p: nat, x: string, k: nat)
    requires AllTokens(ws) && IsToken(x)
    requires p < |ws| && k < |ws|
    requires Normalize(x) != Normalize(ws[p])
    ensures |WordDiff(Join(ws), Join(ws[p := x]))| == |ws|
    ensures WordDiff(Join(ws), Join(ws[p := x]))[k]
         == if k == p then Mismatch(ws[p], x) else Correct(ws[k])
  {
    SplitJoin(ws);
    SplitJoin(ws[p := x]);
    AlignAt(ws, ws[p := x], k);
  }

  /** Dropping the last word from the transcription reports it as missing, after a correct prefix. */
  lemma MissingTail(ws: seq<string>, w: string, k: nat)
    requires AllTokens(ws) && IsToken(w)
    requires k <= |ws|
    ensures |WordDiff(Join(ws + [w]), Join(ws))| == |ws| + 1
    ensures WordDiff(Join(ws + [w]), Join(ws))[k] == if k == |ws| then Missing(w) else Correct(ws[k])
  {
    SplitJoin(ws);
    SplitJoin(ws + [w]);
    AlignAt(ws + [w], ws, k);
  }

  /**
    One word inserted at the front of the transcription: each expected word
    is then compared with the transcribed word one place to its left, and
    the last transcribed word is left over as extra.
   */
  lemma InsertAtFront(ws: seq<string>, x: string, k: nat)
    requires AllTokens(ws) && IsToken(x)
    requires k <= |ws|
    ensures |WordDiff(Join(ws), Join([x] + ws))| == |ws| + 1
    ensures WordDiff(Join(ws), Join([x] + ws))[k]
         == if k == |ws| then Extra(([x] + ws)[k]) else Pair(ws[k], if k == 0 then x else ws[k - 1])
  {
    SplitJoin(ws);
    SplitJoin([x] + ws);
    AlignAt(ws, [x] + ws, k);
  }

  /**
    The cascade in its smallest form: with three words of distinct normal
    forms, "a b" against "x a b" is reported as two mismatches and an extra
    word, not as one extra word followed by two correct ones.
   */
  lemma InsertedWordCascades(a: string, b: string, x: string)
    requires IsToken(a) && IsToken(b) && IsToken(x)
    requires Normalize(a) != Normalize(x) && Normalize(b) != Normalize(a)
    ensures var r := WordDiff(Join([a, b]), Join([x, a, b]));
            |r| == 3 && r[0] == Mismatch(a, x) && r[1] == Mismatch(b, a) && r[2] == Extra(b)
  {
    var ws := [a, b];
    assert [x] + ws == [x, a, b];
    InsertAtFront(ws, x, 0);
    InsertAtFront(ws, x, 1);
    InsertAtFront(ws, x, 2);
  }
}
