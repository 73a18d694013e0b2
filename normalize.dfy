/**
  `normalize_text`: delete every character that is neither a word character
  nor whitespace (`re.sub(r'[^\w\s]', '', text)`), then lower-case the rest.
 */
module Normalizer {
  import opened Chars

  /** The characters the regular expression `[^\w\s]` leaves in place. */
  predicate Kept(c: char) {
    IsWordChar(c) || IsSpace(c)
  }

  /** The characters a normalized text consists of: kept, and not upper case. */
  predicate IsNormalChar(c: char) {
    Kept(c) && !IsUpper(c)
  }

  /** `re.sub(r'[^\w\s]', '', s)`: the characters of `s` that are kept, in order. */
  function StripPunctuation(s: string): (r: string)
    ensures |r| <= |s|
    ensures forall i :: 0 <= i < |r| ==> Kept(r[i])
    ensures (forall i :: 0 <= i < |s| ==> Kept(s[i])) ==> r == s
  {
    if s == [] then []
    else (if Kept(s[0]) then [s[0]] else []) + StripPunctuation(s[1..])
  }

  /** `s.lower()`, character by character. */
  function Lower(s: string): (r: string)
    ensures |r| == |s|
    ensures forall i :: 0 <= i < |s| ==> r[i] == ToLower(s[i])
  {
    if s == [] then [] else [ToLower(s[0])] + Lower(s[1..])
  }

  /** `normalize_text(s)`. */
  function Normalize(s: string): (r: string)
    ensures |r| <= |s|
  {
    Lower(StripPunctuation(s))
  }

  /** A normalized text holds only word characters and whitespace, none of them upper case. */
  lemma NormalizeOutputChars(s: string)
    ensures forall i :: 0 <= i < |Normalize(s)| ==> IsNormalChar(Normalize(s)[i])
  {
    var stripped := StripPunctuation(s);
    assert forall i :: 0 <= i < |stripped| ==> Normalize(s)[i] == ToLower(stripped[i]);
  }

  /** `s` is obtained from `t` by deleting zero or more characters. */
  predicate IsSubsequence(s: string, t: string) {
    if s == [] then true
    else if t == [] then false
    else if s[0] == t[0] then IsSubsequence(s[1..], t[1..])
    else IsSubsequence(s, t[1..])
  }

  /** A text is its own normal form exactly when every character is a normal one. */
  lemma NormalizeFixedPoint(s: string)
    ensures Normalize(s) == s <==> forall i :: 0 <= i < |s| ==> IsNormalChar(s[i])
  {
    var r := Normalize(s);
    NormalizeOutputChars(s);
    if forall i :: 0 <= i < |s| ==> IsNormalChar(s[i]) {
      assert StripPunctuation(s) == s;
      assert forall i :: 0 <= i < |s| ==> r[i] == s[i];
    }
  }

  /** Normalizing twice is normalizing once, for the characters this model keeps. */
  lemma NormalizeIdempotent(s: string)
    ensures Normalize(Normalize(s)) == Normalize(s)
  {
    NormalizeFixedPoint(Normalize(s));
  }

  /** Stripping works piece by piece: it never looks across a boundary. */
  lemma {:induction false} StripConcat(a: string, b: string)
    ensures StripPunctuation(a + b) == StripPunctuation(a) + StripPunctuation(b)
  {
    if a != [] {
      assert (a + b)[0] == a[0] && (a + b)[1..] == a[1..] + b;
      StripConcat(a[1..], b);
    } else {
      assert a + b == b;
    }
  }

  /** Lower-casing works piece by piece. */
  lemma LowerConcat(a: string, b: string)
    ensures Lower(a + b) == Lower(a) + Lower(b)
  {
    var left, right := Lower(a + b), Lower(a) + Lower(b);
    forall i | 0 <= i < |a + b| ensures left[i] == right[i] {
      if i < |a| {
        assert (a + b)[i] == a[i];
      } else {
        assert (a + b)[i] == b[i - |a|];
      }
    }
  }

  /** Normalization works piece by piece: nothing moves between the parts. */
  lemma NormalizeConcat(a: string, b: string)
    ensures Normalize(a + b) == Normalize(a) + Normalize(b)
  {
    StripConcat(a, b);
    LowerConcat(StripPunctuation(a), StripPunctuation(b));
  }

  /**
    One character: punctuation disappears, a word character is lowered, and
    whitespace passes through unchanged (spacing is not collapsed).
   */
  lemma NormalizeChar(c: char)
    ensures Normalize([c]) == if Kept(c) then [ToLower(c)] else []
    ensures IsSpace(c) ==> Normalize([c]) == [c]
  {
    assert StripPunctuation([c]) == (if Kept(c) then [c] else []) + StripPunctuation([]);
  }

  /** Normalization only deletes: the stripped text is a subsequence of the input. */
  lemma {:induction false} StripIsSubsequence(s: string)
    ensures IsSubsequence(StripPunctuation(s), s)
  {
    if s != [] {
      StripIsSubsequence(s[1..]);
      var r := StripPunctuation(s);
      if Kept(s[0]) {
        assert r[0] == s[0] && r[1..] == StripPunctuation(s[1..]);
      } else {
        // a kept character never equals the dropped one, so the scan moves on
        assert r == StripPunctuation(s[1..]);
        assert r != [] ==> Kept(r[0]) && r[0] != s[0];
      }
    }
  }

  /** The whitespace of a text, in order. */
  function Spaces(s: string): (r: string)
    ensures forall i :: 0 <= i < |r| ==> IsSpace(r[i])
  {
    if s == [] then []
    else (if IsSpace(s[0]) then [s[0]] else []) + Spaces(s[1..])
  }

  /** Every whitespace character survives normalization unchanged and in order. */
  lemma {:induction false} NormalizeKeepsSpaces(s: string)
    ensures Spaces(Normalize(s)) == Spaces(s)
  {
    if s != [] {
      var c := s[0];
      assert s == [c] + s[1..];
      NormalizeConcat([c], s[1..]);
      SpacesConcat(Normalize([c]), Normalize(s[1..]));
      NormalizeChar(c);
      NormalizeKeepsSpaces(s[1..]);
    }
  }

  lemma {:induction false} SpacesConcat(a: string, b: string)
    ensures Spaces(a + b) == Spaces(a) + Spaces(b)
  {
    if a != [] {
      assert (a + b)[0] == a[0] && (a + b)[1..] == a[1..] + b;
      SpacesConcat(a[1..], b);
    } else {
      assert a + b == b;
    }
  }

  /** Normalization ignores case: lowering first changes nothing. */
  lemma {:induction false} NormalizeIgnoresCase(s: string)
    ensures Normalize(Lower(s)) == Normalize(s)
  {
    if s != [] {
      assert s == [s[0]] + s[1..];
      assert Lower(s) == [ToLower(s[0])] + Lower(s[1..]);
      NormalizeConcat([s[0]], s[1..]);
      NormalizeConcat([ToLower(s[0])], Lower(s[1..]));
      NormalizeChar(s[0]);
      NormalizeChar(ToLower(s[0]));
      NormalizeIgnoresCase(s[1..]);
    }
  }
}
