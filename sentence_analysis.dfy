/**
 * The sentence analyser's view of a reply: one Markdown section per level-3 header,
 * the text ahead of the first header (the model's "Analysis:" line) left out.
 */
module SentenceAnalysis {
  import opened Text
  import opened MarkdownSections

  /** `format_response`: each header of the reply with the text under it, both trimmed, in order. */
  method FormatResponse(response: string) returns (formatted: seq<string>)
    ensures formatted == Sections(Split(response))
    ensures formatted == [] <==> NoHeader(response)
    ensures forall k :: 0 <= k < |formatted| ==> OpensWithHashes(formatted[k])
  {
    var sections := Split(response);
    formatted := FormatSections(sections);
    NoSectionsIff(response);
    forall k | 0 <= k < |formatted| ensures OpensWithHashes(formatted[k]) {
      SectionsOfReply(response, k);
    }
  }
}
