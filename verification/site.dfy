/** The index structure of the page `ManualGenerator.generate_html` builds:
    one sidebar link and one body section per parsed file, paired by
    position, after a leading overview section. Markdown rendering is the
    `render` parameter; the fixed page template around these parts is not
    modelled. */
module Site {
  import opened Wrappers
  import opened Decimal
  import opened Discovery
  import opened Title
  import opened Manual

  /** A sidebar link `<a href="...">label</a>`. */
  datatype NavEntry = NavEntry(href: string, title: string)

  /** A `<section id="...">` holding rendered Markdown. */
  datatype Section = Section(id: string, body: string)

  datatype Page = Page(nav: seq<NavEntry>, sections: seq<Section>)

  const OverviewId: string := "readme"

  /** The heading used when the overview file is absent. */
  const DefaultOverview: string := "# mlp-train 使用手册"

  /** The overview's text: the file's content when it exists. */
  function OverviewContent(readme: Option<string>): string {
    match readme
    case Some(text) => text
    case None => DefaultOverview
  }

  /** The anchor of the section for the file at position `i`. */
  function SectionId(i: nat): string {
    "section-" + NatToString(i)
  }

  function NavEntries(docs: seq<Doc>): (r: seq<NavEntry>)
    ensures |r| == |docs|
  {
    seq(|docs|, i requires 0 <= i < |docs| => NavEntry("#" + SectionId(i), docs[i].title))
  }

  function DocSections(docs: seq<Doc>, render: string -> string): (r: seq<Section>)
    ensures |r| == |docs|
  {
    seq(|docs|, i requires 0 <= i < |docs| => Section(SectionId(i), render(docs[i].content)))
  }

  /** The sidebar and the body of the page: the overview section first,
      then the files in order. */
  function GenerateHtml(docs: seq<Doc>, readme: Option<string>, render: string -> string): (p: Page)
    ensures |p.nav| == |docs| && |p.sections| == |docs| + 1
  {
    Page(NavEntries(docs),
         [Section(OverviewId, render(OverviewContent(readme)))] + DocSections(docs, render))
  }

  /** Where a same-page link `#id` lands: the first section with that id. */
  function Resolve(sections: seq<Section>, href: string): (r: Option<nat>)
    ensures r.Some? ==> r.value < |sections| && href == "#" + sections[r.value].id
    ensures r.Some? ==> forall k :: 0 <= k < r.value ==> href != "#" + sections[k].id
    ensures r.None? ==> forall k :: 0 <= k < |sections| ==> href != "#" + sections[k].id
  {
    if sections == [] then None
    else if href == "#" + sections[0].id then Some(0)
    else
      match Resolve(sections[1..], href)
      case None => None
      case Some(k) =>
        assert forall m :: 1 <= m <= k ==> sections[m] == sections[1..][m - 1];
        Some(k + 1)
  }

  lemma SectionIdInjective(i: nat, j: nat)
    requires SectionId(i) == SectionId(j)
    ensures i == j
  {
    var p := "section-";
    assert NatToString(i) == SectionId(i)[|p|..];
    assert NatToString(j) == SectionId(j)[|p|..];
    NatToStringInjective(i, j);
  }

  /** No two sections of a page share an anchor, so every anchor names one
      section. */
  lemma SectionIdsDistinct(docs: seq<Doc>, readme: Option<string>, render: string -> string)
    ensures var p := GenerateHtml(docs, readme, render);
            forall k, m :: 0 <= k < m < |p.sections| ==> p.sections[k].id != p.sections[m].id
  {
    var p := GenerateHtml(docs, readme, render);
    forall k, m | 0 <= k < m < |p.sections|
      ensures p.sections[k].id != p.sections[m].id
    {
      assert p.sections[m].id == SectionId(m - 1);
      if k == 0 {
        assert p.sections[k].id[0] == 'r';
        assert SectionId(m - 1)[0] == 's';
      } else {
        assert p.sections[k].id == SectionId(k - 1);
        if SectionId(k - 1) == SectionId(m - 1) {
          SectionIdInjective(k - 1, m - 1);
        }
      }
    }
  }

  /** The sidebar has one link per file, in order: link `i` shows file
      `i`'s title and lands on the section holding file `i`'s rendered
      content. */
  lemma NavLinksResolve(docs: seq<Doc>, readme: Option<string>, render: string -> string)
    ensures var p := GenerateHtml(docs, readme, render);
            && |p.nav| == |docs|
            && forall i :: 0 <= i < |docs| ==>
                 && p.nav[i].title == docs[i].title
                 && Resolve(p.sections, p.nav[i].href) == Some(i + 1)
                 && p.sections[i + 1].body == render(docs[i].content)
  {
    var p := GenerateHtml(docs, readme, render);
    SectionIdsDistinct(docs, readme, render);
    forall i | 0 <= i < |docs|
      ensures Resolve(p.sections, p.nav[i].href) == Some(i + 1)
      ensures p.sections[i + 1].body == render(docs[i].content)
    {
      assert p.sections[i + 1] == Section(SectionId(i), render(docs[i].content));
      var r := Resolve(p.sections, p.nav[i].href);
      assert p.nav[i].href == "#" + p.sections[i + 1].id;
      assert r.Some?;
      assert "#" + p.sections[r.value].id == "#" + p.sections[i + 1].id;
      assert p.sections[r.value].id == ("#" + p.sections[r.value].id)[1..];
      assert r.value == i + 1;
    }
  }

  /** Each discovered file parsed from its text, in order. */
  function ParseAll(files: seq<string>, read: string -> string): seq<Doc> {
    seq(|files|, i requires 0 <= i < |files| => ParseMarkdown(files[i], read(files[i])))
  }

  /** The whole run: discover the files, parse each one from its text, and
      lay out the page. `read` stands for reading a file. */
  function Generate(globbed: seq<string>, read: string -> string, readme: Option<string>,
                    render: string -> string): Page
  {
    GenerateHtml(ParseAll(FindManualFiles(globbed), read), readme, render)
  }

  /** The sidebar of a run lists exactly the discovered files, in sorted
      order, each labelled with its derived title and landing on its own
      section; the overview file has no link. */
  lemma GenerateNav(globbed: seq<string>, read: string -> string, readme: Option<string>,
                    render: string -> string)
    ensures var files := FindManualFiles(globbed);
            var p := Generate(globbed, read, readme, render);
            && |p.nav| == |files|
            && p.sections[0] == Section(OverviewId, render(OverviewContent(readme)))
            && forall i :: 0 <= i < |files| ==>
                 && p.nav[i].title == TitleOf(read(files[i]), files[i])
                 && Resolve(p.sections, p.nav[i].href) == Some(i + 1)
                 && p.sections[i + 1].body == render(read(files[i]))
  {
    NavLinksResolve(ParseAll(FindManualFiles(globbed), read), readme, render);
  }

  lemma SectionZero()
    ensures SectionId(0) == "section-0"
    ensures "#" + SectionId(0) == "#section-0"
  {
    assert NatToString(0) == "0";
  }

  /** A run that discovers one file lays out one link and two sections. */
  lemma GenerateOneFile(globbed: seq<string>, read: string -> string, readme: Option<string>,
                        render: string -> string, f: string)
    requires FindManualFiles(globbed) == [f]
    ensures var p := Generate(globbed, read, readme, render);
            && p.nav == [NavEntry("#section-0", TitleOf(read(f), f))]
            && p.sections == [Section(OverviewId, render(OverviewContent(readme))),
                              Section("section-0", render(read(f)))]
  {
    SectionZero();
    var docs := ParseAll(FindManualFiles(globbed), read);
    assert docs[0].title == TitleOf(read(f), f);
    var p := GenerateHtml(docs, readme, render);
    assert p.nav == [NavEntry("#" + SectionId(0), TitleOf(read(f), f))];
    assert p.sections == [Section(OverviewId, render(OverviewContent(readme))),
                          Section(SectionId(0), render(read(f)))];
  }

  lemma DiscoverUsage(globbed: seq<string>, u: string)
    requires u == "usage.md"
    requires globbed == [Overview, u] || globbed == [u, Overview]
    ensures FindManualFiles(globbed) == [u]
  {
    assert u != Overview by {
      assert u[0] != Overview[0];
    }
    assert Sorted([u]);
    forall x ensures multiset([u])[x] == if x == Overview then 0 else multiset(globbed)[x] {
      assert multiset(globbed) == multiset{Overview, u};
    }
    FindManualFilesUnique(globbed, [u]);
  }

  lemma UsageTitle(content: string, u: string)
    requires u == "usage.md"
    requires content == "# Usage\nRun it."
    ensures TitleOf(content, u) == "Usage"
  {
    assert content == "#" + " " + "Usage" + "\nRun it.";
    MatchTitleOfOpeningLine(content, " ", "Usage", "\nRun it.");
  }

  /** A directory with `README.md` and `usage.md`: one sidebar link,
      titled `Usage`, and the overview followed by the usage section. */
  lemma UsageExample(globbed: seq<string>, read: string -> string, readme: Option<string>,
                     render: string -> string)
    requires globbed == ["README.md", "usage.md"] || globbed == ["usage.md", "README.md"]
    requires read("usage.md") == "# Usage\nRun it."
    requires readme == Some("# Overview\nHello")
    ensures var p := Generate(globbed, read, readme, render);
            && p.nav == [NavEntry("#section-0", "Usage")]
            && p.sections == [Section("readme", render("# Overview\nHello")),
                              Section("section-0", render("# Usage\nRun it."))]
  {
    var u := "usage.md";
    DiscoverUsage(globbed, u);
    UsageTitle(read(u), u);
    GenerateOneFile(globbed, read, readme, render, u);
  }
}
