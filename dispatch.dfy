/**
  The response assembled by the `/transcribe` handler once the audio has
  been transcribed: the transcription always, plus a word-by-word report or
  a semantic-similarity value depending on the form fields `analysis_type`
  and `expected_text`.
 */
module Orchestrator {
  import opened Chars
  import opened Tokenizer
  import opened WordAligner

  /** A form field that may be absent (`request.form.get` returns `None`). */
  datatype Option<T> = None | Some(value: T)

  /**
    The `response_data` dict. The similarity value is whatever the external
    scorer returns; its `f"{…:.2f}%"` rendering is not modelled.
   */
  datatype Response<S> = Response(
    transcribedText: string,
    wordDiff: Option<seq<Entry>>,
    semanticSimilarity: Option<S>)

  /** Python truthiness of an optional string: present and not empty. */
  predicate Truthy(field: Option<string>) {
    field.Some? && field.value != ""
  }

  /**
    Builds the response. `similarity(transcribed, expected)` stands for
    `calculate_semantic_similarity`, which is only consulted in semantic mode.
   */
  function BuildResponse<S>(transcribedText: string, analysisType: Option<string>,
                            expectedText: Option<string>, similarity: (string, string) -> S)
    : (r: Response<S>)
    ensures r.transcribedText == transcribedText
    ensures r.wordDiff.Some? <==> analysisType == Some("wordByWord") && Truthy(expectedText)
    ensures r.wordDiff.Some? ==> r.wordDiff.value == WordDiff(expectedText.value, transcribedText)
    ensures r.semanticSimilarity.Some? <==> analysisType == Some("semantic") && Truthy(expectedText)
    ensures r.semanticSimilarity.Some? ==>
      r.semanticSimilarity.value == similarity(transcribedText, expectedText.value)
    ensures !(r.wordDiff.Some? && r.semanticSimilarity.Some?)
  {
    var response := Response(transcribedText, None, None);
    if analysisType == Some("wordByWord") && Truthy(expectedText) then
      response.(wordDiff := Some(WordDiff(expectedText.value, transcribedText)))
    else if analysisType == Some("semantic") && Truthy(expectedText) then
      response.(semanticSimilarity := Some(similarity(transcribedText, expectedText.value)))
    else
      response
  }

  /** Outside semantic mode the scorer is never consulted: any two scorers give the same response. */
  lemma ScorerOnlyInSemanticMode<S>(transcribedText: string, analysisType: Option<string>,
                                    expectedText: Option<string>,
                                    similarity1: (string, string) -> S, similarity2: (string, string) -> S)
    requires !(analysisType == Some("semantic") && Truthy(expectedText))
    ensures BuildResponse(transcribedText, analysisType, expectedText, similarity1)
         == BuildResponse(transcribedText, analysisType, expectedText, similarity2)
    ensures BuildResponse(transcribedText, analysisType, expectedText, similarity1).semanticSimilarity.None?
  {
  }

  /**
    An expected text made only of whitespace is truthy, so word-by-word mode
    still produces a report: every transcribed word is then extra.
   */
  lemma WhitespaceExpectedText<S>(transcribedText: string, expectedText: string,
                                  similarity: (string, string) -> S)
    requires expectedText != []
    requires forall i :: 0 <= i < |expectedText| ==> IsSpace(expectedText[i])
    ensures BuildResponse(transcribedText, Some("wordByWord"), Some(expectedText), similarity).wordDiff.Some?
    ensures var diff := BuildResponse(transcribedText, Some("wordByWord"), Some(expectedText), similarity).wordDiff.value;
            |diff| == |Split(transcribedText)| &&
            forall k :: 0 <= k < |diff| ==> diff[k] == Extra(Split(transcribedText)[k])
  {
    SplitEmpty(expectedText);
    var words := Split(transcribedText);
    forall k | 0 <= k < |words| ensures WordDiff(expectedText, transcribedText)[k] == Extra(words[k]) {
      AlignAt(Split(expectedText), words, k);
    }
  }
}
