/** The per-file record of `ManualGenerator.parse_markdown`, built from a
    file's name and its text (reading the file is left to the caller). */
module Manual {
  import opened Text
  import opened Slug
  import opened Outline
  import opened Title

  /** One parsed manual file. */
  datatype Doc = Doc(filename: string, title: string, content: string, headings: seq<Heading>)

  /** `parse_markdown` after the file has been read: the title and the
      heading outline of `content`. */
  function ParseMarkdown(name: string, content: string): (d: Doc)
    ensures d.filename == name && d.content == content
    ensures d.title == TitleOf(content, name) && d.headings == HeadingsOfContent(content)
    ensures MatchTitle(content).None? ==> d.title == Stem(name)
    ensures MatchTitle(content).Some? ==>
              d.title != [] && forall m :: 0 <= m < |d.title| ==> d.title[m] != '\n'
    ensures |d.headings| <= NewlineCount(content) + 1
    ensures forall k :: 0 <= k < |d.headings| ==>
              d.headings[k].level >= 1 && d.headings[k].text != []
              && d.headings[k].id == Slugify(d.headings[k].text)
  {
    OutlineFacts(content);
    MatchTitleIsOneLine(content);
    Doc(name, TitleOf(content, name), content, HeadingsOfContent(content))
  }
}
