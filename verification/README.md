# Manual website generator, modelled in Dafny

`generate_manual_website.py` turns a directory of Markdown files into a
single-page manual: a sidebar with one link per file and a content area with
one section per file, preceded by an overview section built from
`README.md`. This project models the logic of that generator, leaving out
the page's fixed text:

- **Discovery** (`Discovery`): `find_manual_files`. The names the `*.md`
  glob returned are sorted, and `README.md` is dropped.
- **Parsing** (`Manual`, `Title`, `Outline`): `parse_markdown` on a file's
  name and text. The title comes from `re.match(r'^#\s+(.+)$', …,
  re.MULTILINE)`, with the file name's stem as the fallback. The heading
  outline comes from scanning `content.split('\n')` for lines that start
  with `#`.
- **Slugs** (`Slug`): `slugify`. It deletes `[^\w\s-]`, folds each `[-\s]+`
  run into one `-`, then lower-cases.
- **Page structure** (`Site`): `generate_html`'s sidebar links
  `#section-{i}` and its sections `id="section-{i}"`, plus the leading
  `readme` section, and `generate` chaining the three steps.
- **Support**: `Text` covers Python `str` operations on ASCII (`\s`,
  `\w`, `lower`, `strip`, `lstrip('#')`, `split('\n')`). `Decimal` covers
  the decimal rendering of `i` in `section-{i}`. `Wrappers` is an
  `Option` type.

Reading files is not modelled; those inputs are parameters instead:
- the names the glob returned (`globbed`);
- each file's text (`read`);
- whether `README.md` exists, and its text (`readme: Option<string>`);
- the Markdown-to-HTML conversion (`render`).

## Model

| member | source | states |
|---|---|---|
| `Text.LeadingCount` | generate_manual_website.py:70 | the heading level is the length of the run of `#` at the front of the line, and the character after the run is not `#` |
| `Text.Strip` | generate_manual_website.py:71 | `strip()` returns a piece of its input with whitespace only around it, and the piece neither starts nor ends with whitespace |
| `Text.StripEmpty` | generate_manual_website.py:71-72 | `strip()` gives the empty string exactly when the input is all whitespace |
| `Text.StripPadded` | generate_manual_website.py:71 | wrapping a string that does not start or end with whitespace in whitespace, then stripping, gives that string back |
| `Text.Lower` | generate_manual_website.py:91 | `lower()` keeps the length and maps each character on its own, `A`-`Z` to `a`-`z` and everything else to itself; `Text.LowerAppend` and `Text.LowerFixes` follow from this |
| `Text.LowerAppend` | generate_manual_website.py:91 | `lower()` of a concatenation is the concatenation of the `lower()`s |
| `Text.LowerFixes` | generate_manual_website.py:91 | `lower()` leaves a string without upper-case letters unchanged |
| `Text.Lines` | generate_manual_website.py:68 | `split('\n')` gives at least one piece and no piece holds a newline; `Text.JoinLines` and `Text.LinesJoin` fix the pieces |
| `Text.JoinLines` | generate_manual_website.py:68 | joining the pieces of `split('\n')` with newlines restores the text |
| `Text.LinesJoin` | generate_manual_website.py:68 | splitting newline-free pieces joined by newlines gives the same pieces back |
| `Text.LinesCount` | generate_manual_website.py:68 | `split('\n')` yields one more piece than the text has newlines |
| `Slug.DropPunct` | generate_manual_website.py:89 | the first substitution keeps only word characters, whitespace and `-` |
| `Slug.Collapse` | generate_manual_website.py:90 | after the second substitution there is no whitespace and no `--`. The result is empty exactly when the input is, and starts with `-` exactly when the input starts with a separator. On output of the first substitution, every character is `-` or a word character |
| `Slug.CollapseSeparatorRun` | generate_manual_website.py:90 | a stretch without separators is copied unchanged and the maximal separator run after it becomes one `-`; with `Slug.CollapseWordPrefix` this fixes the result on every input |
| `Slug.CollapseWordPrefix` | generate_manual_website.py:90 | characters that are not separators are copied, in order, in front of the rest's result |
| `Slug.Slugify` | generate_manual_website.py:86-91 | a slug is at most as long as its text, has no `--`, and holds only lower-case word characters and `-` |
| `Slug.SlugifyIdempotent` | generate_manual_website.py:86-91 | slugifying a slug returns it unchanged |
| `Slug.SlugifyKeepsWords` | generate_manual_website.py:86-91 | with the hyphens removed, a slug is exactly the text's word characters, in order, lower-cased |
| `Slug.SlugifyHyphen` | generate_manual_website.py:89-90 | a slug holds a hyphen if and only if the text holds a hyphen or whitespace |
| `Slug.SlugifyTwoWords` | generate_manual_website.py:86-91 | two words separated by punctuation that contains a space or hyphen, followed by punctuation only, become the lower-cased words joined by one `-` |
| `Slug.SlugifyExample` | generate_manual_website.py:86-91 | `Install & Setup!` becomes `install-setup` |
| `Outline.ParseHeadingLine` | generate_manual_website.py:69-77 | the per-line step of the scan: a line starting with `#` whose text after the `#`s is not blank gives a heading with the `#` count as level, the stripped text, and its slug as id. Its lemmas are the next three rows |
| `Outline.ParseHeadingLineSkips` | generate_manual_website.py:69-72 | a line is skipped if and only if it does not start with `#` or holds nothing but whitespace after its leading `#`s |
| `Outline.ParseHeadingLineShape` | generate_manual_website.py:69-77 | a recorded heading's level is the number of leading `#`s. Its text is what follows them with the surrounding whitespace removed: non-empty, not starting or ending with whitespace. Its id is the slug of its text |
| `Outline.HeadingLineFromParts` | generate_manual_website.py:69-77 | a line made of `n` hashes, optional whitespace, a non-empty text that neither starts nor ends with whitespace, and optional whitespace, where the first character after the hashes is not `#`, is recorded with level `n` and exactly that text |
| `Outline.HeadingsOfContent` | generate_manual_website.py:67-77 | the outline scans the lines of `content.split('\n')` in order. `Outline.OutlineFollowsLines` and `Outline.OutlineFacts` state which lines become entries and what the entries hold |
| `Outline.HitsExact` | generate_manual_website.py:67-72 | the positions of the recorded lines are increasing, each names a line that is recorded, and every recorded line is among them |
| `Outline.CollectFollowsHits` | generate_manual_website.py:67-77 | the outline has one entry per recorded line, in the order of the lines |
| `Outline.CollectAllPresent` | generate_manual_website.py:67-77 | when every line is a heading, the outline has one entry per line, in order |
| `Outline.OutlineFollowsLines` | generate_manual_website.py:67-77 | entry `k` of the outline comes from the `k`-th recorded line, in line order: it is that line's parse, its level is the line's count of leading `#`s, and no recorded line is skipped |
| `Outline.OutlineFacts` | generate_manual_website.py:67-77 | there are never more outline entries than lines; every entry has level at least 1, non-empty text and the slug of its text as id |
| `Outline.ThreeLevelOutline` | generate_manual_website.py:67-77 | the lines `# a`, `## b`, `### c` give three entries with levels 1, 2 and 3 |
| `Outline.HeadingInsideCodeFence` | generate_manual_website.py:67-77 | a `#` line between two code fences is recorded as a heading, because lines are scanned without context |
| `Title.MatchTitle` | generate_manual_website.py:63 | the pattern fails exactly when the text has no `#`, whitespace and a non-newline character at its start. Otherwise the title runs from the last position where such a match can end its whitespace, to the end of that line |
| `Title.MatchTitleIsOneLine` | generate_manual_website.py:63 | a matched title is non-empty and contains no newline |
| `Title.MatchTitleOfOpeningLine` | generate_manual_website.py:63 | text opening with `#`, whitespace and a line whose first character is not whitespace is titled by exactly that line |
| `Title.TitleExample` | generate_manual_website.py:63-64 | a first line `# Getting Started` gives the title `Getting Started` |
| `Title.TitleNotAtStart` | generate_manual_website.py:63-64 | content that does not start with `#` (here, content opening with `Intro`) gets the file name's stem, `notes` for `notes.md` |
| `Title.TitleAcrossBlankLines` | generate_manual_website.py:63 | `\s+` crosses newlines: `#`, two blank lines and `Usage` give the title `Usage` |
| `Title.TrailingWhitespaceMatch` | generate_manual_website.py:63 | when `#` is followed by whitespace up to the end, the pattern fails exactly when every character after the first whitespace character is a newline |
| `Title.NoTitleWithoutText` | generate_manual_website.py:63 | `#` and one space, with or without a final newline, does not match: `.+` has no character to take |
| `Title.TitleOfTrailingSpaces` | generate_manual_website.py:63 | the content `#` followed by two spaces still matches: `\s+` backs off one space and the title is `" "` |
| `Title.TitleOf` | generate_manual_website.py:63-64 | when the pattern matches, the title is its non-empty one-line group; otherwise it is the stem, a prefix of the file name |
| `Title.Stem` | generate_manual_website.py:64 | the stem is a prefix of the file name. It is shorter exactly when the last `.` sits strictly between the first and the last character, and it then ends just before that `.` |
| `Title.StemOfMarkdown` | generate_manual_website.py:64 | for a non-empty `base`, the stem of `base.md` is `base` |
| `Discovery.Sort` | generate_manual_website.py:52 | sorting gives an ordered arrangement of the same names |
| `Discovery.WithoutOverview` | generate_manual_website.py:54 | the filter removes every `README.md` and keeps every other name as often as it occurs |
| `Discovery.WithoutOverviewAppend` | generate_manual_website.py:54 | the filter distributes over concatenation and drops a single name exactly when it is `README.md`, so the kept names stay in their original order |
| `Discovery.WithoutOverviewSorted` | generate_manual_website.py:52-54 | filtering a sorted list leaves it sorted |
| `Discovery.FindManualFiles` | generate_manual_website.py:50-55 | the discovered list is sorted, contains no `README.md`, and holds every other globbed name exactly as often as the glob did |
| `Discovery.SortedUnique` | generate_manual_website.py:52 | two sorted lists holding the same names are equal |
| `Discovery.FindManualFilesUnique` | generate_manual_website.py:50-55 | the discovered list is the only sorted list of the globbed names without `README.md` |
| `Decimal.NatToString` | generate_manual_website.py:616 | the rendering of `i` is a non-empty string of digits with no leading zero unless it is `0` |
| `Decimal.ParseNatToString` | generate_manual_website.py:616 | reading back the digits of `i` gives `i` |
| `Decimal.NatToStringInjective` | generate_manual_website.py:616 | different numbers have different renderings |
| `Manual.ParseMarkdown` | generate_manual_website.py:57-84 | the record keeps the file name and text. Without a match, the title is the stem. With one, the title is a non-empty single line. The outline has at most one entry per line, each with level at least 1, non-empty text and the slug of that text as id |
| `Site.OverviewContent` | generate_manual_website.py:606-611 | the overview is the text of `README.md` when that file exists, and otherwise the fixed heading `# mlp-train 使用手册` |
| `Site.SectionId` | generate_manual_website.py:616 | the anchor of file `i` is `section-` followed by the decimal digits of `i`; `Site.SectionIdInjective` makes it one anchor per file |
| `Site.NavEntries` | generate_manual_website.py:613-617 | one sidebar link per parsed file, in order; `Site.NavLinksResolve` states what each holds and where it leads |
| `Site.DocSections` | generate_manual_website.py:619-627 | one section per parsed file, in order, after the overview; `Site.NavLinksResolve` states which file each holds |
| `Site.GenerateHtml` | generate_manual_website.py:603-627 | the page is its sidebar, one link per file, and its sections, the overview first and then one per file |
| `Site.Resolve` | generate_manual_website.py:616-624 | among the page's sections, a link `#id` picks the first section with that id, and none when no section has it |
| `Site.SectionIdInjective` | generate_manual_website.py:624 | different positions give different section ids |
| `Site.SectionIdsDistinct` | generate_manual_website.py:619-627 | no two sections of the page, the `readme` section included, share an id |
| `Site.NavLinksResolve` | generate_manual_website.py:613-627 | link `i` shows file `i`'s title and, among the page's sections, resolves to the section after the overview that holds file `i`'s rendered text; there is one link per file |
| `Site.ParseAll` | generate_manual_website.py:685-689 | every discovered file is parsed from its text, in discovery order |
| `Site.Generate` | generate_manual_website.py:677-693 | a run discovers the files, parses each one and lays out the page; `Site.GenerateNav` states the result |
| `Site.GenerateNav` | generate_manual_website.py:677-693 | for a whole run, the sidebar lists the discovered files in sorted order, each with its derived title and resolving, among the sections, to its own section, and the page opens with the overview section |
| `Site.GenerateOneFile` | generate_manual_website.py:613-627 | a run that discovers one file has one link, `#section-0`, and two sections, `readme` and `section-0` |
| `Site.UsageExample` | generate_manual_website.py:677-693 | with `README.md` and `usage.md` present, the page has one link, `Usage`, and the sections `readme` and `section-0` |

## Left out

- File reading and writing, `print`, and `main` are left out: the reads at lines 59-60 and 607-609, the prints in `generate` (lines 679, 683, 687, 692, 697, 702 and 707-708), the writes and the stylesheet and script generation of lines 694-705, and `main` (lines 711-718). File contents, the glob's result and the overview file's presence are parameters.
- Discovery.Sort: names are ordered by code point, which is how `pathlib` sorts POSIX paths in one directory. Windows paths compare case-folded, so `Usage.md` and `api.md` would come out in the other order there; the model follows POSIX.
- Discovery.FindManualFiles: which names `glob("*.md")` matches is left to the caller. The model starts from the names it returned, all in one directory, so on POSIX sorting paths is sorting names.
- `markdown_to_html` and `get_pygments_css` (lines 93-116 and 670-675) are left out. They call into the `markdown` and `pygments` libraries, which are not part of this model, so rendering is the `render` parameter.
- The import checks and the exit when `markdown` is missing (lines 22-38) are left out.
- The stylesheet and script text (`generate_css`, `generate_js`, lines 118-601) is left out. It is constant output.
- The HTML template text around the sidebar and sections (lines 629-667) is left out. The page is modelled as its list of links and its list of sections. Titles are placed in the template without HTML escaping, and the model, like the source, does not escape them.
- Site.Resolve: only the ids of the page's own sections are searched. The `toc` extension (lines 98 and 109-112) also gives rendered headings ids, and a browser follows `#id` to the first element in the whole page with that id. A heading such as `## Section 2` in `README.md` gets the id `section-2` inside the `readme` section, and sidebar link 2 then lands there. Rendering is the opaque `render` parameter, so ids inside rendered bodies are not modelled.
- The `headings` outline is computed but never used in the page. The model proves its properties without tying it to the output.
- Slug.Slugify: only ASCII letters, digits and `_` count as word characters, and `lower()` maps only `A`-`Z`. Python's `\w` and `str.lower()` also cover Unicode letters, so a non-ASCII letter the source keeps and lower-cases is deleted by the model.
- Text.Strip: only ASCII whitespace counts as whitespace. Python's `strip()` and `\s` also remove Unicode spaces such as U+3000.
- Title.MatchTitle: `\s` is limited to ASCII whitespace, as for `Text.Strip`.
- Title.Stem: follows the pathlib rule that a final `.` in first or last position is not a suffix. Newer Python releases treat a trailing `.` as a suffix, and they also leave alone a name made only of dots before its last suffix (`..md` keeps its name as stem, where this rule gives `.`). The two rules agree on every `.md` name with a character other than `.` before the `.md`.
