# Text comparison engine of the speech-practice server

The server transcribes a spoken recording and compares the transcription
with an expected reference text. This project models the comparison logic
of `server_fasterWhisper.py` and proves properties about it:

- **Normalizer** (`normalize.dfy`, with character classes in `chars.dfy`):
  `normalize_text` deletes every character that is neither a word character
  nor whitespace, then lower-cases what remains.
- **Tokenizer** (`split.dfy`): `str.split()` with no separator.
- **WordAligner** (`compare.dfy`): `detailed_word_comparison`. It is a
  positional two-cursor scan over the split expected and transcribed words.
  It emits one `Correct`, `Mismatch`, `Missing` or `Extra` entry per step.
  The method keeps the source's `while` loop and its cursors `i` and `j`.
  It is proved equal to a closed form `EntryAt` that gives entry `k`
  directly, and to a recursive reference definition `Align`.
- **Orchestrator** (`dispatch.dfy`): the part of the `/transcribe` handler
  that builds `response_data` from `analysis_type` and `expected_text`. It is
  modelled as a pure function that returns a record with optional fields.
- **Scenarios** (`scenarios.dfy`): typical comparisons, stated for
  arbitrary words: a case-insensitive match, a substitution, a missing last
  word, and the cascade of mismatches that a single inserted word causes.

Character classes are given concrete definitions, not left abstract.
Whitespace is every code point Python's `str.isspace()` accepts. Word
characters and lower-casing follow Python on ASCII and Latin-1. The
properties one would otherwise assume are proved about these definitions:
`ToLower` is idempotent, and it keeps a character's class, so a lowered
word character is still a word character and is not whitespace.

Points of the request handler that the model keeps as written:
- A mode runs only when `expected_text` is truthy, that is present and
  non-empty (lines 101 and 104).
- A text of whitespace only is truthy, so word-by-word mode then reports
  every transcribed word as `Extra` (`Orchestrator.WhitespaceExpectedText`).
- `analysis_type` is compared as a raw string. Any value other than
  `"wordByWord"` or `"semantic"`, including an absent one, adds nothing to
  the response.
- The similarity scorer is called as `(transcribed, expected)`, in that
  argument order.

## Model

| member | source | states |
|---|---|---|
| `Chars.IsSpace` | server_fasterWhisper.py:36 | defines whitespace as the code points `\s` and `str.isspace()` accept: U+0009-U+000D, U+001C-U+0020, U+0085, U+00A0, U+1680, U+2000-U+200A, U+2028, U+2029, U+202F, U+205F and U+3000 |
| `Chars.IsWordChar` | server_fasterWhisper.py:36 | defines the word characters `\w` keeps on Latin-1: digits, ASCII letters, `_`, the Latin-1 letters, including ª µ º, and the numeric characters ² ³ ¹ ¼ ½ ¾ |
| `Chars.ToLower` | server_fasterWhisper.py:37 | its result is never a Latin-1 capital; it keeps a character a word character and keeps it whitespace or not; only Latin-1 capitals change |
| `Chars.ToLowerIdempotent` | server_fasterWhisper.py:37 | lower-casing a character twice is the same as lower-casing it once |
| `Chars.ToLowerKeepsWordChar` | server_fasterWhisper.py:36-37 | a lowered word character is still a word character and is not whitespace |
| `Normalizer.StripPunctuation` | server_fasterWhisper.py:36 | the result keeps only word characters and whitespace, is no longer than the input, and leaves unchanged a text that has no other characters |
| `Normalizer.Lower` | server_fasterWhisper.py:37 | the result has the input's length, and each of its characters is the lowered input character at the same position |
| `Normalizer.Normalize` | server_fasterWhisper.py:35-37 | the result is no longer than the input |
| `Normalizer.NormalizeOutputChars` | server_fasterWhisper.py:36-37 | every character of a normalized text is a word character or whitespace and is not upper case |
| `Normalizer.NormalizeFixedPoint` | server_fasterWhisper.py:35-37 | a text is its own normal form if and only if all its characters are lower-case word characters or whitespace |
| `Normalizer.NormalizeIdempotent` | server_fasterWhisper.py:35-37 | normalizing twice equals normalizing once |
| `Normalizer.StripConcat` | server_fasterWhisper.py:36 | deleting punctuation from a concatenation is the concatenation of the two deletions |
| `Normalizer.LowerConcat` | server_fasterWhisper.py:37 | lower-casing a concatenation is the concatenation of the lower-cased parts |
| `Normalizer.NormalizeConcat` | server_fasterWhisper.py:35-37 | normalizing a concatenation is the concatenation of the normalized parts, so nothing moves across a boundary |
| `Normalizer.NormalizeChar` | server_fasterWhisper.py:36-37 | a single character is deleted when it is punctuation, is lowered when it is a word character, and passes through unchanged when it is whitespace |
| `Normalizer.StripIsSubsequence` | server_fasterWhisper.py:36 | the text after punctuation is deleted is a subsequence of the input: characters are removed, never inserted or reordered |
| `Normalizer.NormalizeKeepsSpaces` | server_fasterWhisper.py:36 | the whitespace of the normalized text is exactly the whitespace of the input, in order, so spacing is not collapsed |
| `Normalizer.NormalizeIgnoresCase` | server_fasterWhisper.py:37 | lower-casing a text first does not change its normal form |
| `Tokenizer.Split` | server_fasterWhisper.py:48-49 | `str.split()`, fixed completely by the lemmas below: whitespace only gives no tokens (`SplitEmpty`), a token gives itself (`SplitToken`), and a whitespace character cuts the text into parts split separately (`SplitAtSpace`); the tokens are non-empty and whitespace-free and hold every other character in order |
| `Tokenizer.SplitTokens` | server_fasterWhisper.py:48-49 | every token of the split is non-empty and contains no whitespace |
| `Tokenizer.SplitKeepsNonSpace` | server_fasterWhisper.py:48-49 | the tokens, glued together, are exactly the non-whitespace characters of the text, in order |
| `Tokenizer.SplitEmpty` | server_fasterWhisper.py:48-49 | a text splits into no tokens if and only if it is empty or all whitespace |
| `Tokenizer.SplitAtSpace` | server_fasterWhisper.py:48-49 | a whitespace character between two texts separates them: the split of `a + c + b` is the split of `a` followed by the split of `b`, so leading, trailing and repeated whitespace of any kind yields no empty tokens |
| `Tokenizer.SplitToken` | server_fasterWhisper.py:48-49 | a non-empty text with no whitespace splits into exactly itself |
| `Tokenizer.SplitJoin` | server_fasterWhisper.py:48-49 | joining tokens with single spaces and splitting the result gives the tokens back |
| `WordAligner.Pair` | server_fasterWhisper.py:58-66 | defines the entry for two words: `Correct(t)` when their normal forms agree, otherwise `Mismatch(e, t)`, both with the words as written |
| `WordAligner.PairIgnoresCaseAndPunctuation` | server_fasterWhisper.py:55-59 | whether two words compare `Correct` does not change when the expected word is lower-cased first or has its punctuation deleted first, and does not depend on which side each word is on |
| `WordAligner.EntryAt` | server_fasterWhisper.py:58-72 | defines the entry of scan step `k` directly: `Pair(E[k], T[k])` while both lists have a word at `k`, then `Missing(E[k])` while only the expected list has one, then `Extra(T[k])` |
| `WordAligner.Align` | server_fasterWhisper.py:52-72 | the report has exactly `max(len(E), len(T))` entries |
| `WordAligner.AlignAt` | server_fasterWhisper.py:58-72 | entry `k` of the report is `Correct(T[k])` or `Mismatch(E[k], T[k])` below `min(n, m)`, depending on whether the normal forms agree; past that it is `Missing(E[k])` when `k < n` and `Extra(T[k])` when `k < m` |
| `WordAligner.WordDiff` | server_fasterWhisper.py:46-73 | the report for two texts has one entry per position of the longer split, and entry `k` is `EntryAt` of the two splits |
| `WordAligner.DetailedWordComparison` | server_fasterWhisper.py:46-73 | the two-cursor loop terminates; its result has `max(n, m)` entries, entry `k` is `EntryAt(E, T, k)`, and the result equals the reference report |
| `WordAligner.EntryKinds` | server_fasterWhisper.py:58-72 | entry `k` is `Missing` if and only if `len(T) <= k < len(E)`, `Extra` if and only if `len(E) <= k < len(T)`, and `Correct` or `Mismatch` if and only if `k` is below both lengths |
| `WordAligner.NoMissingWithExtra` | server_fasterWhisper.py:67-72 | no report holds both a `Missing` and an `Extra` entry |
| `WordAligner.TailKinds` | server_fasterWhisper.py:67-72 | a `Missing` entry occurs if and only if there are more expected words than transcribed words, and an `Extra` entry if and only if there are fewer |
| `WordAligner.AllCorrect` | server_fasterWhisper.py:58-62 | every entry is `Correct` if and only if both lists have the same length and agree word by word after normalization |
| `WordAligner.SelfComparison` | server_fasterWhisper.py:46-73 | comparing any text with itself gives one entry per word, each `Correct` and carrying that word (an empty report for a text without words) |
| `WordAligner.Locality` | server_fasterWhisper.py:58-66 | changing the transcribed word at position `p` changes no entry at any other position |
| `WordAligner.TranscribedRecovered` | server_fasterWhisper.py:58-72 | the words in the `Correct`, `Mismatch` and `Extra` entries, read in order, are exactly the transcribed words |
| `WordAligner.ExpectedRecovered` | server_fasterWhisper.py:58-72 | the words in the `Correct`, `Mismatch` and `Missing` entries, read in order, equal the expected words up to normalization |
| `Orchestrator.Truthy` | server_fasterWhisper.py:101-104 | defines Python truthiness of a form field: present and not the empty string |
| `Orchestrator.BuildResponse` | server_fasterWhisper.py:96-106 | the response always carries the transcription; `word_diff` is present if and only if the mode is `"wordByWord"` and the expected text is non-empty, and then it is the word report; the similarity is present if and only if the mode is `"semantic"` and the expected text is non-empty, and then it is the scorer's value on `(transcribed, expected)`; the two are never both present |
| `Orchestrator.ScorerOnlyInSemanticMode` | server_fasterWhisper.py:101-106 | outside semantic mode the response does not depend on the scorer and carries no similarity |
| `Orchestrator.WhitespaceExpectedText` | server_fasterWhisper.py:101-103 | an all-whitespace expected text in word-by-word mode yields a report of `Extra` entries, exactly one per transcribed word, and an empty report when the transcription has no words |
| `Scenarios.CaseInsensitiveMatch` | server_fasterWhisper.py:58-60 | a list of words against the same words lower-cased gives one entry per word, each `Correct` and carrying the transcribed spelling |
| `Scenarios.SingleSubstitution` | server_fasterWhisper.py:58-66 | replacing one transcribed word by one with a different normal form gives one `Mismatch` at that position and `Correct` entries everywhere else |
| `Scenarios.MissingTail` | server_fasterWhisper.py:58-69 | dropping the last word from the transcription gives a correct prefix followed by `Missing` of that word |
| `Scenarios.InsertAtFront` | server_fasterWhisper.py:58-72 | with one word inserted at the front of the transcription, each expected word is compared with the transcribed word one place to its left, and the last transcribed word is `Extra` |
| `Scenarios.InsertedWordCascades` | server_fasterWhisper.py:58-72 | "a b" against "x a b", for words with distinct normal forms, is Mismatch, Mismatch, Extra: a single inserted word shifts every later comparison |

## Left out

- Flask setup, the routes, CORS, `/ping`, the upload checks, and saving and
  removing the temporary audio file (lines 12-17, 75-94, 110-116). These are
  transport and file I/O.
- Whisper and spaCy model loading and `transcribe` (lines 20-33). These are a foreign
  speech-recognition library and file I/O. The transcription is an input to
  `BuildResponse`.
- `calculate_semantic_similarity` (lines 40-44). It uses spaCy embeddings and
  floating-point cosine similarity. The dispatch takes the scorer as a
  function parameter whose result type is left opaque.
- The `f"{semantic_similarity:.2f}%"` formatting of the similarity (line 106). It is float
  presentation.
- Serializing report entries as dicts with a `'type'` key. The four entry
  kinds are the constructors of `WordAligner.Entry`.
- Unicode beyond Latin-1. Code points above U+00FF that are not whitespace
  count as non-word characters here, so they are deleted. Python's `\w`
  keeps letters and digits of every script. So two different words written
  only in such letters (Cyrillic, Greek, CJK, or Polish ł and ź) both
  normalize to the empty text and are reported `Correct`, where the source
  reports `Mismatch`.
- `Chars.ToLower` lowers only the Latin-1 capitals; every code point above
  U+00FF is returned unchanged, where `str.lower()` would lower it.
  Normalization deletes those characters before lowering, and the whitespace
  it keeps has no case, so no report changes.
- Lower-casing that expands one character into several, such as U+0130,
  cannot be expressed by a character-to-character `ToLower`. The source's
  normalization is not idempotent on such a character: `\w` keeps U+0130,
  `lower()` turns it into "i" followed by U+0307, and a second pass deletes
  U+0307. `Normalizer.NormalizeIdempotent` holds only because this model
  deletes every character above U+00FF that is not whitespace.
- `WordAligner.DetailedWordComparison` computes the two normal forms only in
  the branch where both cursors are in range. The source computes each of
  them (or `None`) before branching, but it uses them only in that branch,
  so the result is the same.
