/**
 * The translator's view of a reply: the reply is put under a "### Translation"
 * header of its own and then cut into Markdown sections at its level-3 headers.
 */
module Translate {
  import opened Text
  import opened MarkdownSections

  const TranslationHeader: string := "### Translation"

  /**
   * `format_response`: the first section is the translation header over the reply's
   * text up to its first header of its own; the reply's own sections follow unchanged.
   */
  method FormatResponse(response: string) returns (formatted: seq<string>)
    ensures formatted == Sections(Split(TranslationHeader + "\n" + response))
    ensures formatted == [TranslationHeader + "\n\n" + Strip(Split(response)[0])] + Sections(Split(response))
  {
    var text := TranslationHeader + "\n" + response;
    var sections := Split(text);
    formatted := FormatSections(sections);
    TranslationSections(response);
  }

  /** The split of the reply under its added header: the translation section first, then the reply's own. */
  lemma TranslationSections(response: string)
    ensures Sections(Split(TranslationHeader + "\n" + response))
         == [TranslationHeader + "\n\n" + Strip(Split(response)[0])] + Sections(Split(response))
  {
    var y := Split(response);
    TranslationSplit(response);
    SectionsAfterFirst(Split(TranslationHeader + "\n" + response), y, "", TranslationHeader, "\n" + y[0]);
    TranslationSection(y[0]);
  }

  /** The added header is the first header line, so the split is the header, then the reply's split. */
  lemma TranslationSplit(response: string)
    ensures Split(TranslationHeader + "\n" + response)
         == ["", TranslationHeader, "\n" + Split(response)[0]] + Split(response)[1..]
  {
    assert IsHeaderLine(TranslationHeader);
    SplitUnderHeader(TranslationHeader, response);
  }

  /** The translation section: the header, a blank line and the trimmed text before the reply's first header. */
  lemma TranslationSection(c: string)
    ensures Section(TranslationHeader, "\n" + c) == TranslationHeader + "\n\n" + Strip(c)
  {
    StripNoEdgeSpace(TranslationHeader);
    StripLeadingSpace('\n', c);
  }
}
