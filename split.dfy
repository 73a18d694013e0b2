/**
  `str.split()` with no separator: the maximal runs of non-whitespace
  characters, in order; leading, trailing and repeated whitespace yields
  no empty tokens.
 */
module Tokenizer {
  import opened Chars

  /** A token produced by `str.split()`: non-empty and free of whitespace. */
  predicate IsToken(w: string) {
    w != [] && forall i :: 0 <= i < |w| ==> !IsSpace(w[i])
  }

  /** The length of the leading run of non-whitespace characters of `s`. */
  function WordLen(s: string): (n: nat)
    ensures n <= |s|
    ensures forall i :: 0 <= i < n ==> !IsSpace(s[i])
    ensures n < |s| ==> IsSpace(s[n])
  {
    if s == [] || IsSpace(s[0]) then 0 else 1 + WordLen(s[1..])
  }

  /** `s.split()`. */
  function Split(s: string): (ws: seq<string>)
    decreases |s|
  {
    if s == [] then []
    else if IsSpace(s[0]) then Split(s[1..])
    else
      var n := WordLen(s);
      [s[..n]] + Split(s[n..])
  }

  /** Every token of `s.split()` is non-empty and free of whitespace. */
  lemma {:induction false} SplitTokens(s: string)
    ensures forall k :: 0 <= k < |Split(s)| ==> IsToken(Split(s)[k])
    decreases |s|
  {
    if s != [] {
      if IsSpace(s[0]) {
        SplitTokens(s[1..]);
      } else {
        var n := WordLen(s);
        SplitTokens(s[n..]);
        assert Split(s) == [s[..n]] + Split(s[n..]);
      }
    }
  }

  /** The tokens glued together with nothing between them. */
  function Concat(ws: seq<string>): string {
    if ws == [] then [] else ws[0] + Concat(ws[1..])
  }

  /** The non-whitespace characters of `s`, in order. */
  function RemoveSpaces(s: string): (r: string)
    ensures forall i :: 0 <= i < |r| ==> !IsSpace(r[i])
  {
    if s == [] then []
    else (if IsSpace(s[0]) then [] else [s[0]]) + RemoveSpaces(s[1..])
  }

  /** `" ".join(ws)`. */
  function Join(ws: seq<string>): string {
    if ws == [] then []
    else if |ws| == 1 then ws[0]
    else ws[0] + " " + Join(ws[1..])
  }

  lemma {:induction false} RemoveSpacesConcat(a: string, b: string)
    ensures RemoveSpaces(a + b) == RemoveSpaces(a) + RemoveSpaces(b)
  {
    if a != [] {
      assert (a + b)[0] == a[0] && (a + b)[1..] == a[1..] + b;
      RemoveSpacesConcat(a[1..], b);
    } else {
      assert a + b == b;
    }
  }

  lemma {:induction false} RemoveSpacesOfWord(w: string)
    requires forall i :: 0 <= i < |w| ==> !IsSpace(w[i])
    ensures RemoveSpaces(w) == w
  {
    if w != [] {
      RemoveSpacesOfWord(w[1..]);
    }
  }

  /** Splitting loses exactly the whitespace: the tokens hold every other character, in order. */
  lemma {:induction false} SplitKeepsNonSpace(s: string)
    ensures Concat(Split(s)) == RemoveSpaces(s)
    decreases |s|
  {
    if s != [] {
      if IsSpace(s[0]) {
        SplitKeepsNonSpace(s[1..]);
      } else {
        var n := WordLen(s);
        SplitKeepsNonSpace(s[n..]);
        assert s == s[..n] + s[n..];
        RemoveSpacesConcat(s[..n], s[n..]);
        RemoveSpacesOfWord(s[..n]);
        assert Split(s)[1..] == Split(s[n..]);
      }
    }
  }

  /** A text splits into no tokens exactly when it is all whitespace (or empty). */
  lemma {:induction false} SplitEmpty(s: string)
    ensures Split(s) == [] <==> forall i :: 0 <= i < |s| ==> IsSpace(s[i])
    decreases |s|
  {
    if s != [] && IsSpace(s[0]) {
      SplitEmpty(s[1..]);
      assert forall i :: 1 <= i < |s| ==> s[i] == s[1..][i - 1];
    }
  }

  /** A token followed by whitespace (or nothing) is read whole. */
  lemma {:induction false} WordLenOfToken(w: string, rest: string)
    requires forall i :: 0 <= i < |w| ==> !IsSpace(w[i])
    requires rest == [] || IsSpace(rest[0])
    ensures WordLen(w + rest) == |w|
  {
    if w != [] {
      assert (w + rest)[1..] == w[1..] + rest;
      WordLenOfToken(w[1..], rest);
    } else {
      assert w + rest == rest;
    }
  }

  /** Extending a text does not lengthen its first word once that word has ended. */
  lemma {:induction false} WordLenAppend(a: string, x: string)
    requires WordLen(a) < |a| || x == [] || IsSpace(x[0])
    ensures WordLen(a + x) == WordLen(a)
  {
    if a == [] {
      assert a + x == x;
    } else {
      assert (a + x)[0] == a[0] && (a + x)[1..] == a[1..] + x;
      if !IsSpace(a[0]) {
        WordLenAppend(a[1..], x);
      }
    }
  }

  /** A whitespace character cuts the text: the tokens on either side are split separately. */
  lemma {:induction false} SplitAtSpace(a: string, c: char, b: string)
    requires IsSpace(c)
    ensures Split(a + [c] + b) == Split(a) + Split(b)
    decreases |a|
  {
    var t := [c] + b;
    assert a + [c] + b == a + t;
    assert Split(t) == Split(b) by {
      assert t[1..] == b;
    }
    SplitAtSpaceHead(a, t);
  }

  /** The same, with the whitespace character already at the front of `t`. */
  lemma {:induction false} SplitAtSpaceHead(a: string, t: string)
    requires t != [] && IsSpace(t[0])
    ensures Split(a + t) == Split(a) + Split(t)
    decreases |a|
  {
    var s := a + t;
    if a == [] {
      assert s == t;
    } else if IsSpace(a[0]) {
      assert s[0] == a[0] && s[1..] == a[1..] + t;
      SplitAtSpaceHead(a[1..], t);
    } else {
      var n := WordLen(a);
      WordLenAppend(a, t);
      assert s[0] == a[0];
      assert s[..n] == a[..n] && s[n..] == a[n..] + t;
      assert Split(s) == [a[..n]] + Split(a[n..] + t);
      SplitAtSpaceHead(a[n..], t);
    }
  }

  /** A single token splits into itself. */
  lemma SplitToken(w: string)
    requires IsToken(w)
    ensures Split(w) == [w]
  {
    WordLenOfToken(w, []);
    assert w + [] == w;
    assert w[..|w|] == w && w[|w|..] == [];
  }

  /** `" ".join` then `split()` gives back the tokens. */
  lemma {:induction false} SplitJoin(ws: seq<string>)
    requires forall k :: 0 <= k < |ws| ==> IsToken(ws[k])
    ensures Split(Join(ws)) == ws
  {
    if ws != [] {
      var w := ws[0];
      if |ws| == 1 {
        WordLenOfToken(w, []);
        assert w + [] == w;
        assert w[|w|..] == [];
      } else {
        var tail := " " + Join(ws[1..]);
        assert Join(ws) == w + tail;
        WordLenOfToken(w, tail);
        assert (w + tail)[..|w|] == w && (w + tail)[|w|..] == tail;
        assert Split(tail) == Split(Join(ws[1..]));
        SplitJoin(ws[1..]);
      }
    }
  }
}
