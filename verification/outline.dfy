/** The heading outline built by `ManualGenerator.parse_markdown`: every line
    of the content that starts with `#` and has text after its `#`s. */
module Outline {
  import opened Text
  import opened Slug
  import opened Wrappers

  /** One outline entry: nesting depth, visible text, anchor slug. */
  datatype Heading = Heading(level: nat, text: string, id: string)

  /** A run of `n` hash characters. */
  function Hashes(n: nat): (r: string)
    ensures |r| == n
    ensures forall i :: 0 <= i < n ==> r[i] == '#'
  {
    if n == 0 then [] else Hashes(n - 1) + "#"
  }

  /** The per-line step of the scan: a heading when the line starts with `#`
      and something other than whitespace follows its leading `#`s. */
  function ParseHeadingLine(line: string): (r: Option<Heading>)
  {
    if |line| > 0 && line[0] == '#' then
      var n := LeadingCount(line, '#');
      var text := Strip(line[n..]);
      if text != [] then Some(Heading(n, text, Slugify(text))) else None
    else None
  }

  /** What a heading line looks like: `level` hashes, then optional whitespace,
      the text, optional whitespace; the text neither starts nor ends with
      whitespace, and the first character after the hashes is not `#`. */
  ghost predicate IsHeadingLine(line: string, h: Heading) {
    && 1 <= h.level < |line|
    && line[..h.level] == Hashes(h.level)
    && line[h.level] != '#'
    && h.text != []
    && !IsSpace(h.text[0]) && !IsSpace(h.text[|h.text| - 1])
    && Padded(line[h.level..], h.text)
    && h.id == Slugify(h.text)
  }

  lemma ParseHeadingLineUnfold(line: string)
    ensures ParseHeadingLine(line).None? <==>
              |line| == 0 || line[0] != '#' || Strip(line[LeadingCount(line, '#')..]) == []
  {
  }

  /** A line is skipped exactly when it does not start with `#` or holds
      nothing but whitespace after its leading `#`s. */
  lemma ParseHeadingLineSkips(line: string)
    ensures ParseHeadingLine(line).None? <==>
              |line| == 0 || line[0] != '#' || AllSpace(line[LeadingCount(line, '#')..])
  {
    ParseHeadingLineUnfold(line);
    if |line| > 0 {
      StripEmpty(line[LeadingCount(line, '#')..]);
    }
  }

  /** Every heading the scan records has that shape. */
  lemma ParseHeadingLineShape(line: string)
    requires ParseHeadingLine(line).Some?
    ensures IsHeadingLine(line, ParseHeadingLine(line).value)
  {
    var n := LeadingCount(line, '#');
    var rest := line[n..];
    var text := Strip(rest);
    assert ParseHeadingLine(line) == Some(Heading(n, text, Slugify(text)));
    HashesPrefix(line, n);
    assert n >= 1 by {
      assert line[0] == '#';
    }
    assert Padded(rest, text);
  }

  lemma HashesPrefix(line: string, n: nat)
    requires n <= |line| && forall i :: 0 <= i < n ==> line[i] == '#'
    ensures line[..n] == Hashes(n)
  {
  }

  lemma HashesThenRest(n: nat, rest: string)
    requires n >= 1
    requires rest == [] || rest[0] != '#'
    ensures var line := Hashes(n) + rest;
            line[0] == '#' && LeadingCount(line, '#') == n && line[n..] == rest
  {
    LeadingHashes(n, rest);
    assert (Hashes(n) + rest)[n..] == rest;
  }

  lemma ParseHeadingLineOf(line: string, n: nat, text: string)
    requires |line| > 0 && line[0] == '#'
    requires n == LeadingCount(line, '#') && text == Strip(line[n..]) && text != []
    ensures ParseHeadingLine(line) == Some(Heading(n, text, Slugify(text)))
  {
  }

  /** Conversely, a line built as hashes, padding, text and padding is
      recorded with exactly that level and text. */
  lemma HeadingLineFromParts(line: string, n: nat, lead: string, text: string, trail: string)
    requires n >= 1
    requires AllSpace(lead) && AllSpace(trail)
    requires text != [] && !IsSpace(text[0]) && !IsSpace(text[|text| - 1])
    requires (lead + text + trail)[0] != '#'
    requires line == Hashes(n) + (lead + text + trail)
    ensures ParseHeadingLine(line) == Some(Heading(n, text, Slugify(text)))
  {
    HashesThenRest(n, lead + text + trail);
    StripPadded(lead, text, trail);
    ParseHeadingLineOf(line, n, text);
  }

  lemma {:induction false} LeadingHashes(n: nat, rest: string)
    requires rest == [] || rest[0] != '#'
    ensures LeadingCount(Hashes(n) + rest, '#') == n
  {
    if n > 0 {
      var tail := Hashes(n - 1) + rest;
      assert Hashes(n) + rest == [Hashes(n)[0]] + tail by {
        assert Hashes(n) == Hashes(n - 1) + "#";
        assert forall i :: 0 <= i < n ==> Hashes(n)[i] == '#';
        assert Hashes(n) + rest == "#" + (Hashes(n - 1) + rest) by {
          assert Hashes(n) == "#" + Hashes(n - 1);
        }
      }
      LeadingHashes(n - 1, rest);
      assert (Hashes(n) + rest)[1..] == tail;
    } else {
      assert Hashes(0) + rest == rest;
    }
  }

  /** The scan loop: apply the per-line step to every line, keeping the
      results that are present, in order. */
  function Collect<T, U>(xs: seq<T>, f: T -> Option<U>): (r: seq<U>)
    ensures |r| <= |xs|
  {
    if xs == [] then []
    else
      match f(xs[0])
      case Some(y) => [y] + Collect(xs[1..], f)
      case None => Collect(xs[1..], f)
  }

  /** The outline of a document's content: `content.split('\n')` scanned
      line by line. */
  function HeadingsOfContent(content: string): seq<Heading> {
    Collect(Lines(content), ParseHeadingLine)
  }

  /** Positions in `xs[1..]` as positions in `xs`. */
  function Shift(ix: seq<int>): seq<int> {
    seq(|ix|, k requires 0 <= k < |ix| => ix[k] + 1)
  }

  /** The positions of the elements the scan keeps. */
  function Hits<T, U>(xs: seq<T>, f: T -> Option<U>): (ix: seq<int>)
    ensures |ix| <= |xs|
  {
    if xs == [] then []
    else (if f(xs[0]).Some? then [0] else []) + Shift(Hits(xs[1..], f))
  }

  lemma {:induction false} HitsSound<T, U>(xs: seq<T>, f: T -> Option<U>)
    ensures forall k :: 0 <= k < |Hits(xs, f)| ==>
              0 <= Hits(xs, f)[k] < |xs| && f(xs[Hits(xs, f)[k]]).Some?
  {
    if xs != [] {
      HitsSound(xs[1..], f);
      var ix, ix' := Hits(xs, f), Hits(xs[1..], f);
      var off := if f(xs[0]).Some? then 1 else 0;
      forall k | off <= k < |ix|
        ensures 0 <= ix[k] < |xs| && f(xs[ix[k]]).Some?
      {
        assert ix[k] == ix'[k - off] + 1;
        assert xs[ix[k]] == xs[1..][ix'[k - off]];
      }
    }
  }

  lemma {:induction false} HitsIncreasing<T, U>(xs: seq<T>, f: T -> Option<U>)
    ensures forall k, m :: 0 <= k < m < |Hits(xs, f)| ==> Hits(xs, f)[k] < Hits(xs, f)[m]
  {
    if xs != [] {
      HitsIncreasing(xs[1..], f);
      HitsSound(xs[1..], f);
      var ix, ix' := Hits(xs, f), Hits(xs[1..], f);
      var off := if f(xs[0]).Some? then 1 else 0;
      forall k, m | 0 <= k < m < |ix|
        ensures ix[k] < ix[m]
      {
        assert ix[m] == ix'[m - off] + 1;
        if k >= off {
          assert ix[k] == ix'[k - off] + 1;
        }
      }
    }
  }

  lemma {:induction false} HitsComplete<T, U>(xs: seq<T>, f: T -> Option<U>)
    ensures forall i :: 0 <= i < |xs| && f(xs[i]).Some? ==> i in Hits(xs, f)
  {
    if xs != [] {
      HitsComplete(xs[1..], f);
      var ix, ix' := Hits(xs, f), Hits(xs[1..], f);
      var off := if f(xs[0]).Some? then 1 else 0;
      forall i | 0 <= i < |xs| && f(xs[i]).Some?
        ensures i in ix
      {
        if i == 0 {
          assert ix[0] == 0;
        } else {
          assert xs[1..][i - 1] == xs[i];
          var k :| 0 <= k < |ix'| && ix'[k] == i - 1;
          assert ix[k + off] == i;
        }
      }
    }
  }

  /** The hit positions are an independent account of which elements the
      step keeps: increasing, in range, each one kept, and every kept
      position among them. */
  lemma HitsExact<T, U>(xs: seq<T>, f: T -> Option<U>)
    ensures forall k :: 0 <= k < |Hits(xs, f)| ==>
              0 <= Hits(xs, f)[k] < |xs| && f(xs[Hits(xs, f)[k]]).Some?
    ensures forall k, m :: 0 <= k < m < |Hits(xs, f)| ==> Hits(xs, f)[k] < Hits(xs, f)[m]
    ensures forall i :: 0 <= i < |xs| && f(xs[i]).Some? ==> i in Hits(xs, f)
  {
    HitsSound(xs, f);
    HitsIncreasing(xs, f);
    HitsComplete(xs, f);
  }

  /** Entry `k` of the scan's output is the result of the `k`-th hit, so
      entries appear in input order, one per hit. */
  lemma {:induction false} CollectFollowsHits<T, U>(xs: seq<T>, f: T -> Option<U>)
    ensures |Collect(xs, f)| == |Hits(xs, f)|
    ensures forall k :: 0 <= k < |Collect(xs, f)| ==>
              0 <= Hits(xs, f)[k] < |xs| && f(xs[Hits(xs, f)[k]]).Some?
              && Collect(xs, f)[k] == f(xs[Hits(xs, f)[k]]).value
  {
    HitsSound(xs, f);
    if xs != [] {
      CollectFollowsHits(xs[1..], f);
      var ys, ys' := Collect(xs, f), Collect(xs[1..], f);
      var ix, ix' := Hits(xs, f), Hits(xs[1..], f);
      var off := if f(xs[0]).Some? then 1 else 0;
      assert |ys| == |ys'| + off && |ix| == |ix'| + off;
      forall k | off <= k < |ys|
        ensures ys[k] == f(xs[ix[k]]).value
      {
        assert ys[k] == ys'[k - off];
        assert ix[k] == ix'[k - off] + 1;
        assert xs[ix[k]] == xs[1..][ix'[k - off]];
      }
    }
  }

  /** Every outline entry has a level of at least one, non-empty text and
      the slug of that text as its id; there are never more entries than
      lines in the content. */
  lemma OutlineFacts(content: string)
    ensures |HeadingsOfContent(content)| <= NewlineCount(content) + 1
    ensures forall k :: 0 <= k < |HeadingsOfContent(content)| ==>
              var h := HeadingsOfContent(content)[k];
              h.level >= 1 && h.text != [] && h.id == Slugify(h.text)
  {
    var lines := Lines(content);
    var hs := HeadingsOfContent(content);
    LinesCount(content);
    CollectFollowsHits(lines, ParseHeadingLine);
    var ix := Hits(lines, ParseHeadingLine);
    forall k | 0 <= k < |hs|
      ensures hs[k].level >= 1 && hs[k].text != [] && hs[k].id == Slugify(hs[k].text)
    {
      ParseHeadingLineShape(lines[ix[k]]);
    }
  }

  /** Entry `k` of the outline comes from the `k`-th recorded line of
      `content.split('\n')`: its level is that line's count of leading `#`s
      and it has the shape of a heading line. The recorded lines are taken
      in increasing order and none is skipped. */
  lemma OutlineFollowsLines(content: string)
    ensures var lines := Lines(content);
            var hs := HeadingsOfContent(content);
            var ix := Hits(lines, ParseHeadingLine);
            && |hs| == |ix|
            && (forall k :: 0 <= k < |hs| ==>
                  && 0 <= ix[k] < |lines|
                  && ParseHeadingLine(lines[ix[k]]) == Some(hs[k])
                  && hs[k].level == LeadingCount(lines[ix[k]], '#')
                  && IsHeadingLine(lines[ix[k]], hs[k]))
            && (forall k, m :: 0 <= k < m < |ix| ==> ix[k] < ix[m])
            && (forall i :: 0 <= i < |lines| && ParseHeadingLine(lines[i]).Some? ==> i in ix)
  {
    var lines := Lines(content);
    var hs := HeadingsOfContent(content);
    var ix := Hits(lines, ParseHeadingLine);
    CollectFollowsHits(lines, ParseHeadingLine);
    HitsExact(lines, ParseHeadingLine);
    forall k | 0 <= k < |hs|
      ensures ParseHeadingLine(lines[ix[k]]) == Some(hs[k])
      ensures hs[k].level == LeadingCount(lines[ix[k]], '#')
      ensures IsHeadingLine(lines[ix[k]], hs[k])
    {
      ParseHeadingLineShape(lines[ix[k]]);
    }
  }

  /** When the step keeps every element, the scan keeps them all, in order. */
  lemma {:induction false} CollectAllPresent<T, U>(xs: seq<T>, f: T -> Option<U>)
    requires forall k :: 0 <= k < |xs| ==> f(xs[k]).Some?
    ensures |Collect(xs, f)| == |xs|
    ensures forall k :: 0 <= k < |xs| ==> Collect(xs, f)[k] == f(xs[k]).value
  {
    if xs != [] {
      CollectAllPresent(xs[1..], f);
      assert Collect(xs, f) == [f(xs[0]).value] + Collect(xs[1..], f);
      forall k | 1 <= k < |xs| ensures Collect(xs, f)[k] == f(xs[k]).value {
        assert xs[1..][k - 1] == xs[k];
      }
    }
  }

  /** A line of `n` hashes, one space and a one-word text. */
  lemma SimpleHeadingLine(line: string, n: nat, text: string)
    requires n >= 1 && text != [] && '#' !in text
    requires forall i :: 0 <= i < |text| ==> !IsSpace(text[i])
    requires line == Hashes(n) + (" " + text)
    ensures ParseHeadingLine(line) == Some(Heading(n, text, Slugify(text)))
  {
    assert AllSpace(" ") && AllSpace([]);
    assert " " + text + [] == " " + text;
    HeadingLineFromParts(line, n, " ", text, []);
  }

  lemma ThreeLines(content: string, a: string, b: string, c: string)
    requires '\n' !in a && '\n' !in b && '\n' !in c
    requires content == a + "\n" + b + "\n" + c
    ensures Lines(content) == [a, b, c]
  {
    var ls := [a, b, c];
    assert ls[1..] == [b, c] && ls[1..][1..] == [c];
    assert Join([c]) == c;
    assert Join([b, c]) == b + "\n" + c;
    assert Join(ls) == a + "\n" + Join([b, c]);
    assert a + "\n" + (b + "\n" + c) == content;
    LinesJoin(ls);
  }

  /** A word with no whitespace, newline or `#`. */
  predicate IsWord(t: string) {
    t != [] && '#' !in t && '\n' !in t && forall i :: 0 <= i < |t| ==> !IsSpace(t[i])
  }

  lemma CollectThree<T, U>(x: T, y: T, z: T, f: T -> Option<U>)
    requires f(x).Some? && f(y).Some? && f(z).Some?
    ensures Collect([x, y, z], f) == [f(x).value, f(y).value, f(z).value]
  {
    CollectAllPresent([x, y, z], f);
  }

  lemma CollectMiddle<T, U>(x: T, y: T, z: T, f: T -> Option<U>)
    requires f(x).None? && f(y).Some? && f(z).None?
    ensures Collect([x, y, z], f) == [f(y).value]
  {
    assert [x, y, z][1..] == [y, z] && [y, z][1..] == [z] && [z][1..] == [];
    assert Collect([z], f) == [];
    assert Collect([y, z], f) == [f(y).value] + Collect([z], f);
    assert Collect([x, y, z], f) == Collect([y, z], f);
  }

  lemma ThreeLevelLines(content: string, a: string, b: string, c: string)
    requires IsWord(a) && IsWord(b) && IsWord(c)
    requires content == Hashes(1) + (" " + a) + "\n" + (Hashes(2) + (" " + b))
                        + "\n" + (Hashes(3) + (" " + c))
    ensures Lines(content) == [Hashes(1) + (" " + a), Hashes(2) + (" " + b), Hashes(3) + (" " + c)]
  {
    var l1, l2, l3 := Hashes(1) + (" " + a), Hashes(2) + (" " + b), Hashes(3) + (" " + c);
    assert '\n' !in Hashes(1) && '\n' !in Hashes(2) && '\n' !in Hashes(3);
    assert '\n' !in l1 && '\n' !in l2 && '\n' !in l3;
    ThreeLines(content, l1, l2, l3);
  }

  /** The outline of `# a`, `## b`, `### c` has one entry per line, with
      levels 1, 2 and 3 and the words as texts. */
  lemma ThreeLevelOutline(content: string, a: string, b: string, c: string)
    requires IsWord(a) && IsWord(b) && IsWord(c)
    requires content == Hashes(1) + (" " + a) + "\n" + (Hashes(2) + (" " + b))
                        + "\n" + (Hashes(3) + (" " + c))
    ensures HeadingsOfContent(content)
            == [Heading(1, a, Slugify(a)), Heading(2, b, Slugify(b)), Heading(3, c, Slugify(c))]
  {
    var l1, l2, l3 := Hashes(1) + (" " + a), Hashes(2) + (" " + b), Hashes(3) + (" " + c);
    ThreeLevelLines(content, a, b, c);
    SimpleHeadingLine(l1, 1, a);
    SimpleHeadingLine(l2, 2, b);
    SimpleHeadingLine(l3, 3, c);
    CollectThree(l1, l2, l3, ParseHeadingLine);
  }

  lemma NotHeading(line: string)
    requires line != [] && line[0] != '#'
    ensures ParseHeadingLine(line).None?
  {
  }

  lemma FenceLines(content: string, fence: string, t: string)
    requires '\n' !in fence && IsWord(t)
    requires content == fence + "\n" + (Hashes(1) + (" " + t)) + "\n" + fence
    ensures Lines(content) == [fence, Hashes(1) + (" " + t), fence]
  {
    var l := Hashes(1) + (" " + t);
    assert '\n' !in Hashes(1);
    assert '\n' !in l;
    ThreeLines(content, fence, l, fence);
  }

  /** Lines are not told apart by context: a `#` comment between two code
      fences is recorded as a heading like any other. */
  lemma HeadingInsideCodeFence(content: string, fence: string, t: string)
    requires fence != [] && fence[0] == '`' && '\n' !in fence
    requires IsWord(t)
    requires content == fence + "\n" + (Hashes(1) + (" " + t)) + "\n" + fence
    ensures HeadingsOfContent(content) == [Heading(1, t, Slugify(t))]
  {
    var l := Hashes(1) + (" " + t);
    FenceLines(content, fence, t);
    SimpleHeadingLine(l, 1, t);
    NotHeading(fence);
    CollectMiddle(fence, l, fence, ParseHeadingLine);
  }
}
