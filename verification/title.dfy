/** The document title chosen by `ManualGenerator.parse_markdown`:
    `re.match(r'^#\s+(.+)$', content, re.MULTILINE)`, falling back to the
    file name's stem. */
module Title {
  import opened Text
  import opened Wrappers

  /** The end of the whitespace run that starts at `i`. */
  function SpaceRunEnd(s: string, i: nat): (k: nat)
    requires i <= |s|
    ensures i <= k <= |s|
    ensures forall m :: i <= m < k ==> IsSpace(s[m])
    ensures k == |s| || !IsSpace(s[k])
    decreases |s| - i
  {
    if i < |s| && IsSpace(s[i]) then SpaceRunEnd(s, i + 1) else i
  }

  /** Where `.+` starting at `j` stops: the next newline or the end. */
  function LineEnd(s: string, j: nat): (e: nat)
    requires j <= |s|
    ensures j <= e <= |s|
    ensures forall m :: j <= m < e ==> s[m] != '\n'
    ensures e == |s| || s[e] == '\n'
    decreases |s| - j
  {
    if j < |s| && s[j] != '\n' then LineEnd(s, j + 1) else j
  }

  /** The last position in `[lo, hi)` that is not a newline. */
  function LastNonNewline(s: string, lo: nat, hi: nat): (r: Option<nat>)
    requires lo <= hi <= |s|
    ensures r.Some? ==> lo <= r.value < hi && s[r.value] != '\n'
                        && forall m :: r.value < m < hi ==> s[m] == '\n'
    ensures r.None? ==> forall m :: lo <= m < hi ==> s[m] == '\n'
    decreases hi - lo
  {
    if lo == hi then None
    else if s[hi - 1] != '\n' then Some(hi - 1)
    else LastNonNewline(s, lo, hi - 1)
  }

  /** The regular expression matches at position 0 with the group starting
      at `j`: `#`, then the whitespace `s[1..j]` (at least one character,
      newlines allowed), then a character `.` accepts. */
  predicate Captures(s: string, j: int) {
    && |s| > 0 && s[0] == '#'
    && 2 <= j < |s|
    && (forall m :: 1 <= m < j ==> IsSpace(s[m]))
    && s[j] != '\n'
  }

  /** The captured group of `re.match(r'^#\s+(.+)$', s, re.MULTILINE)`.
      `\s+` is greedy, so of all the ways the pattern can match the engine
      takes the one with the longest whitespace run; `(.+)$` then runs to
      the end of that line. */
  function MatchTitle(s: string): (r: Option<string>)
    ensures r.None? <==> forall j :: !Captures(s, j)
    ensures r.Some? ==> exists j :: && Captures(s, j)
                                    && (forall j' :: Captures(s, j') ==> j' <= j)
                                    && r.value == s[j..LineEnd(s, j)]
  {
    if |s| == 0 || s[0] != '#' then None
    else
      var k := SpaceRunEnd(s, 1);
      if k == 1 then
        assert forall j :: !Captures(s, j);
        None
      else if k < |s| then
        assert Captures(s, k);
        assert forall j' :: Captures(s, j') ==> j' <= k;
        Some(s[k..LineEnd(s, k)])
      else
        match LastNonNewline(s, 2, k)
        case None =>
          assert forall j :: !Captures(s, j);
          None
        case Some(j) =>
          assert Captures(s, j);
          assert forall j' :: Captures(s, j') ==> j' <= j;
          Some(s[j..LineEnd(s, j)])
  }

  /** A matched title is one non-empty line of the content. */
  lemma MatchTitleIsOneLine(s: string)
    ensures MatchTitle(s).Some? ==>
              && MatchTitle(s).value != []
              && forall m :: 0 <= m < |MatchTitle(s).value| ==> MatchTitle(s).value[m] != '\n'
  {
    if MatchTitle(s).Some? {
      var j :| Captures(s, j) && MatchTitle(s).value == s[j..LineEnd(s, j)];
      var t := MatchTitle(s).value;
      assert LineEnd(s, j) > j;
      assert t[0] == s[j];
      forall m | 0 <= m < |t| ensures t[m] != '\n' {
        assert t[m] == s[j + m];
      }
    }
  }

  /** The last index of `c` in `s` (`str.rfind`). */
  function LastIndexOf(s: string, c: char): (r: Option<nat>)
    ensures r.Some? ==> r.value < |s| && s[r.value] == c
                        && forall m :: r.value < m < |s| ==> s[m] != c
    ensures r.None? ==> c !in s
  {
    if s == [] then None
    else if s[|s| - 1] == c then Some(|s| - 1)
    else
      var r := LastIndexOf(s[..|s| - 1], c);
      assert s == s[..|s| - 1] + [s[|s| - 1]];
      r
  }

  /** `pathlib.PurePath.stem`: the name without its last suffix, where a
      suffix is a final `.` that is neither the first nor the last
      character. */
  function Stem(name: string): (r: string)
    ensures r <= name
    ensures |r| < |name| ==>
              0 < |r| < |name| - 1 && name[|r|] == '.' && '.' !in name[|r| + 1..]
    ensures |r| == |name| ==>
              forall i :: 0 < i < |name| - 1 && name[i] == '.' ==> '.' in name[i + 1..]
  {
    match LastIndexOf(name, '.')
    case Some(i) => if 0 < i < |name| - 1 then name[..i] else name
    case None => name
  }

  /** The stem of a Markdown file name is the name without `.md`. */
  lemma StemOfMarkdown(base: string)
    requires base != []
    ensures Stem(base + ".md") == base
  {
    var name := base + ".md";
    var i := LastIndexOf(name, '.');
    assert name[|base|] == '.';
    assert name[|base|] in name;
    assert i.Some? && i.value == |base|;
    assert name[..|base|] == base;
  }

  /** `title_match.group(1) if title_match else filepath.stem` */
  function TitleOf(content: string, name: string): (r: string)
    ensures MatchTitle(content).Some? ==> r != [] && forall m :: 0 <= m < |r| ==> r[m] != '\n'
    ensures MatchTitle(content).None? ==> r <= name
  {
    MatchTitleIsOneLine(content);
    match MatchTitle(content)
    case Some(t) => t
    case None => Stem(name)
  }

  lemma OpeningCaptures(s: string, ws: string, t: string, tail: string)
    requires ws != [] && AllSpace(ws)
    requires t != [] && !IsSpace(t[0])
    requires s == "#" + ws + t + tail
    ensures Captures(s, 1 + |ws|)
    ensures forall j :: Captures(s, j) ==> j <= 1 + |ws|
  {
    var j0 := 1 + |ws|;
    assert s[j0] == t[0];
    assert forall m :: 1 <= m < j0 ==> s[m] == ws[m - 1];
  }

  lemma OpeningLineEnd(s: string, ws: string, t: string, tail: string)
    requires forall m :: 0 <= m < |t| ==> t[m] != '\n'
    requires tail == [] || tail[0] == '\n'
    requires s == "#" + ws + t + tail
    ensures LineEnd(s, 1 + |ws|) == 1 + |ws| + |t|
    ensures s[1 + |ws|..1 + |ws| + |t|] == t
  {
    var j0 := 1 + |ws|;
    var e := j0 + |t|;
    assert forall m :: j0 <= m < e ==> s[m] == t[m - j0];
    assert e == |s| || s[e] == '\n';
    LineEndOfRun(s, j0, e);
  }

  lemma LineEndOfRun(s: string, j: nat, e: nat)
    requires j <= e <= |s|
    requires forall m :: j <= m < e ==> s[m] != '\n'
    requires e == |s| || s[e] == '\n'
    ensures LineEnd(s, j) == e
  {
  }

  /** Content that opens with `#`, whitespace and then a line of text whose
      first character is not whitespace is titled by exactly that text. */
  lemma MatchTitleOfOpeningLine(s: string, ws: string, t: string, tail: string)
    requires ws != [] && AllSpace(ws)
    requires t != [] && !IsSpace(t[0])
    requires forall m :: 0 <= m < |t| ==> t[m] != '\n'
    requires tail == [] || tail[0] == '\n'
    requires s == "#" + ws + t + tail
    ensures MatchTitle(s) == Some(t)
  {
    var j0 := 1 + |ws|;
    OpeningCaptures(s, ws, t, tail);
    OpeningLineEnd(s, ws, t, tail);
    var j :| && Captures(s, j)
             && (forall j' :: Captures(s, j') ==> j' <= j)
             && MatchTitle(s).value == s[j..LineEnd(s, j)];
    assert j == j0;
  }

  /** A first line `# Getting Started` gives the title `Getting Started`. */
  lemma TitleExample(content: string, rest: string)
    requires content == "# Getting Started" + "\n" + rest
    ensures TitleOf(content, "guide.md") == "Getting Started"
  {
    var t := "Getting Started";
    assert content == "#" + " " + t + ("\n" + rest);
    MatchTitleOfOpeningLine(content, " ", t, "\n" + rest);
  }

  /** `re.match` only looks at position 0: content that does not start
      with `#` is named by the file name's stem. */
  lemma TitleNotAtStart(content: string, rest: string)
    requires content == "Intro" + "\n" + rest
    ensures TitleOf(content, "notes.md") == "notes"
  {
    assert content[0] == 'I';
    StemOfMarkdown("notes");
  }

  /** `\s+` may span newlines: blank lines between `#` and the text are
      skipped. */
  lemma TitleAcrossBlankLines(content: string)
    requires content == "#\n\nUsage"
    ensures TitleOf(content, "x.md") == "Usage"
  {
    assert content == "#" + "\n\n" + "Usage" + "";
    MatchTitleOfOpeningLine(content, "\n\n", "Usage", "");
  }

  /** When `#` is followed by whitespace up to the end of the content, the
      pattern matches exactly when some whitespace character after the first
      one is not a newline: the greedy `\s+` must keep at least one
      character and leave one that `.` accepts. */
  lemma TrailingWhitespaceMatch(s: string)
    requires |s| >= 2 && s[0] == '#'
    requires forall m :: 1 <= m < |s| ==> IsSpace(s[m])
    ensures MatchTitle(s).None? <==> forall m :: 2 <= m < |s| ==> s[m] == '\n'
  {
  }

  /** `#` and one space, with or without a final newline: an instance of
      the rule above with nothing that `.` accepts. */
  lemma NoTitleWithoutText(content: string)
    requires content == "# " || content == "# \n"
    ensures MatchTitle(content).None?
  {
  }

  /** `#` followed by two spaces and nothing else still matches: the greedy
      `\s+` backs off one space, and that space is the title. */
  lemma TitleOfTrailingSpaces(content: string)
    requires content == "#  "
    ensures TitleOf(content, "x.md") == " "
  {
    assert Captures(content, 2);
    var j :| && Captures(content, j)
             && (forall j' :: Captures(content, j') ==> j' <= j)
             && MatchTitle(content).value == content[j..LineEnd(content, j)];
    assert Captures(content, j) && j < |content|;
    assert LineEnd(content, 2) == 3;
  }
}
