/** `ManualGenerator.slugify`: heading text to an anchor-friendly slug, in
    three passes — delete punctuation, fold separator runs into one hyphen,
    lower-case. */
module Slug {
  import opened Text

  /** Characters of the class `[-\s]`. */
  predicate IsSep(c: char) {
    c == '-' || IsSpace(c)
  }

  /** Characters the first pass keeps: the complement of `[^\w\s-]`. */
  predicate IsKept(c: char) {
    IsWordChar(c) || IsSep(c)
  }

  /** Every character survives the first pass. */
  predicate AllKept(s: string) {
    forall i :: 0 <= i < |s| ==> IsKept(s[i])
  }

  /** The characters a slug is made of: lower-case word characters and `-`. */
  predicate IsSlugChar(c: char) {
    (IsWordChar(c) && !IsUpper(c)) || c == '-'
  }

  /** No two adjacent hyphens. */
  predicate NoDoubleHyphen(s: string) {
    forall i, j :: 0 <= i < |s| && j == i + 1 && j < |s| ==> !(s[i] == '-' && s[j] == '-')
  }

  predicate NoSpace(s: string) {
    forall i :: 0 <= i < |s| ==> !IsSpace(s[i])
  }

  /** Whether `s` holds a hyphen or a whitespace character. */
  predicate HasSep(s: string) {
    s != [] && (IsSep(s[0]) || HasSep(s[1..]))
  }

  /** `re.sub(r'[^\w\s-]', '', text)` */
  function DropPunct(s: string): (r: string)
    ensures |r| <= |s|
    ensures AllKept(r)
  {
    if s == [] then []
    else if IsKept(s[0]) then [s[0]] + DropPunct(s[1..])
    else DropPunct(s[1..])
  }

  /** The separators at the front of `s`, skipped as one greedy run. */
  function SkipSeps(s: string): (r: string)
    ensures |r| <= |s| && r == s[|s| - |r|..]
    ensures forall i :: 0 <= i < |s| - |r| ==> IsSep(s[i])
    ensures r == [] || !IsSep(r[0])
  {
    if s != [] && IsSep(s[0]) then SkipSeps(s[1..]) else s
  }

  /** `re.sub(r'[-\s]+', '-', text)`: each maximal run of separators becomes
      a single hyphen; every other character is copied. */
  function Collapse(s: string): (r: string)
    ensures |r| <= |s|
    ensures r == [] <==> s == []
    ensures r != [] ==> (r[0] == '-' <==> IsSep(s[0]))
    ensures NoSpace(r)
    ensures NoDoubleHyphen(r)
    ensures AllKept(s) ==> forall i :: 0 <= i < |r| ==> r[i] == '-' || IsWordChar(r[i])
    decreases |s|
  {
    if s == [] then []
    else if IsSep(s[0]) then
      var t := SkipSeps(s);
      assert AllKept(s) ==> AllKept(t) by {
        assert t == s[|s| - |t|..];
      }
      "-" + Collapse(t)
    else [s[0]] + Collapse(s[1..])
  }

  /** `ManualGenerator.slugify` */
  function Slugify(s: string): (r: string)
    ensures |r| <= |s|
    ensures forall i :: 0 <= i < |r| ==> IsSlugChar(r[i])
    ensures NoDoubleHyphen(r)
  {
    Lower(Collapse(DropPunct(s)))
  }

  // ---- the passes leave slugs alone ----

  lemma {:induction false} DropPunctFixes(s: string)
    requires AllKept(s)
    ensures DropPunct(s) == s
  {
    if s != [] {
      DropPunctFixes(s[1..]);
      assert s == [s[0]] + s[1..];
    }
  }

  lemma {:induction false} CollapseFixes(s: string)
    requires NoSpace(s) && NoDoubleHyphen(s)
    ensures Collapse(s) == s
    decreases |s|
  {
    if s != [] {
      assert NoSpace(s[1..]) && NoDoubleHyphen(s[1..]);
      CollapseFixes(s[1..]);
      if s[0] == '-' {
        assert s[1..] == [] || !IsSep(s[1..][0]);
        assert SkipSeps(s[1..]) == s[1..];
        assert SkipSeps(s) == s[1..];
      }
      assert s == [s[0]] + s[1..];
    }
  }

  /** Slugifying a slug changes nothing. */
  lemma SlugifyIdempotent(s: string)
    ensures Slugify(Slugify(s)) == Slugify(s)
  {
    var r := Slugify(s);
    DropPunctFixes(r);
    CollapseFixes(r);
    LowerFixes(r);
  }

  // ---- the word characters survive, in order, lower-cased ----

  lemma {:induction false} DropPunctWords(s: string)
    ensures WordChars(DropPunct(s)) == WordChars(s)
  {
    if s != [] {
      DropPunctWords(s[1..]);
    }
  }

  lemma WordCharsSkipHead(s: string)
    requires s != [] && IsSep(s[0])
    ensures WordChars(s) == WordChars(s[1..])
  {
  }

  lemma {:induction false} SkipSepsWords(s: string)
    ensures WordChars(SkipSeps(s)) == WordChars(s)
  {
    if s != [] && IsSep(s[0]) {
      SkipSepsWords(s[1..]);
      WordCharsSkipHead(s);
    }
  }

  lemma {:induction false} CollapseWords(s: string)
    ensures WordChars(Collapse(s)) == WordChars(s)
    decreases |s|
  {
    if s != [] {
      if IsSep(s[0]) {
        var t := SkipSeps(s);
        CollapseWords(t);
        SkipSepsWords(s);
        assert Collapse(s) == "-" + Collapse(t);
        WordCharsAppend("-", Collapse(t));
      } else {
        CollapseWords(s[1..]);
        assert Collapse(s) == [s[0]] + Collapse(s[1..]);
        WordCharsAppend([s[0]], Collapse(s[1..]));
      }
    }
  }

  /** The non-hyphen characters of a slug are the input's word characters,
      in order and lower-cased: nothing else survives and none is lost. */
  lemma {:induction false} SlugifyKeepsWords(s: string)
    ensures WordChars(Slugify(s)) == Lower(WordChars(s))
  {
    var c := Collapse(DropPunct(s));
    DropPunctWords(s);
    CollapseWords(DropPunct(s));
    WordCharsLower(c);
  }

  // ---- a hyphen appears exactly when the input had a separator ----

  lemma {:induction false} DropPunctSeps(s: string)
    ensures HasSep(DropPunct(s)) <==> HasSep(s)
  {
    if s != [] {
      DropPunctSeps(s[1..]);
    }
  }

  lemma {:induction false} CollapseHyphen(s: string)
    ensures '-' in Collapse(s) <==> HasSep(s)
    decreases |s|
  {
    if s != [] && !IsSep(s[0]) {
      CollapseHyphen(s[1..]);
      assert Collapse(s) == [s[0]] + Collapse(s[1..]);
    }
  }

  /** The slug holds a hyphen if and only if the input holds a hyphen or a
      whitespace character. */
  lemma {:induction false} SlugifyHyphen(s: string)
    ensures '-' in Slugify(s) <==> HasSep(s)
  {
    var c := Collapse(DropPunct(s));
    DropPunctSeps(s);
    CollapseHyphen(DropPunct(s));
    assert '-' in Lower(c) <==> '-' in c by {
      if '-' in c {
        var i :| 0 <= i < |c| && c[i] == '-';
        assert Lower(c)[i] == '-';
      }
    }
  }

  lemma {:induction false} DropPunctAppend(a: string, b: string)
    ensures DropPunct(a + b) == DropPunct(a) + DropPunct(b)
  {
    if a == [] {
      assert a + b == b;
    } else {
      assert (a + b)[1..] == a[1..] + b;
      DropPunctAppend(a[1..], b);
    }
  }

  lemma {:induction false} SkipSepsPrefix(seps: string, t: string)
    requires forall i :: 0 <= i < |seps| ==> IsSep(seps[i])
    requires t == [] || !IsSep(t[0])
    ensures SkipSeps(seps + t) == t
  {
    if seps == [] {
      assert seps + t == t;
    } else {
      assert (seps + t)[1..] == seps[1..] + t;
      SkipSepsPrefix(seps[1..], t);
    }
  }

  lemma CollapseCons(c: char, rest: string)
    requires !IsSep(c)
    ensures Collapse([c] + rest) == [c] + Collapse(rest)
  {
    assert ([c] + rest)[1..] == rest;
  }

  lemma {:induction false} CollapseWordPrefix(w: string, t: string)
    requires forall i :: 0 <= i < |w| ==> !IsSep(w[i])
    ensures Collapse(w + t) == w + Collapse(t)
  {
    if w == [] {
      assert w + t == t;
    } else {
      var c, w' := w[0], w[1..];
      var u := w' + t;
      assert w == [c] + w';
      ConcatAssoc([c], w', t);
      CollapseCons(c, u);
      CollapseWordPrefix(w', t);
      ConcatAssoc([c], w', Collapse(t));
    }
  }

  /** One step of the second substitution: the separator-free stretch `w`
      is copied, and the maximal separator run `g` after it becomes one
      `-`. With `CollapseWordPrefix` this fixes `Collapse` on every input. */
  lemma CollapseSeparatorRun(w: string, g: string, t: string)
    requires forall i :: 0 <= i < |w| ==> !IsSep(w[i])
    requires g != [] && forall i :: 0 <= i < |g| ==> IsSep(g[i])
    requires t == [] || !IsSep(t[0])
    ensures Collapse(w + g + t) == w + "-" + Collapse(t)
  {
    var u := g + t;
    SkipSepsPrefix(g, t);
    assert u[0] == g[0];
    assert Collapse(u) == "-" + Collapse(t);
    ConcatAssoc(w, g, t);
    CollapseWordPrefix(w, u);
    ConcatAssoc(w, "-", Collapse(t));
  }

  lemma {:induction false} DropPunctGap(g: string)
    requires forall i :: 0 <= i < |g| ==> !IsWordChar(g[i])
    ensures forall i :: 0 <= i < |DropPunct(g)| ==> IsSep(DropPunct(g)[i])
  {
    if g != [] {
      DropPunctGap(g[1..]);
    }
  }

  lemma DropTail(s: string, tail: string)
    requires forall i :: 0 <= i < |tail| ==> !IsKept(tail[i])
    ensures DropPunct(s + tail) == DropPunct(s)
  {
    DropPunctAppend(s, tail);
    DropPunctNoneKept(tail);
  }

  lemma DropWordSuffix(s: string, w: string)
    requires forall i :: 0 <= i < |w| ==> IsWordChar(w[i])
    ensures DropPunct(s + w) == DropPunct(s) + w
  {
    DropPunctAppend(s, w);
    DropPunctFixes(w);
  }

  lemma DropWordPrefix(w: string, s: string)
    requires forall i :: 0 <= i < |w| ==> IsWordChar(w[i])
    ensures DropPunct(w + s) == w + DropPunct(s)
  {
    DropPunctAppend(w, s);
    DropPunctFixes(w);
  }

  lemma TwoWordsDrop(w1: string, gap: string, w2: string, tail: string)
    requires forall i :: 0 <= i < |w1| ==> IsWordChar(w1[i])
    requires forall i :: 0 <= i < |w2| ==> IsWordChar(w2[i])
    requires forall i :: 0 <= i < |tail| ==> !IsKept(tail[i])
    ensures DropPunct(w1 + gap + w2 + tail) == w1 + (DropPunct(gap) + w2)
  {
    var g := DropPunct(gap);
    var u := w1 + gap;
    var v := u + w2;
    DropTail(v, tail);
    DropWordSuffix(u, w2);
    DropWordPrefix(w1, gap);
    ConcatAssoc(w1, g, w2);
  }

  lemma GapCollapse(g: string, w: string)
    requires g != [] && forall i :: 0 <= i < |g| ==> IsSep(g[i])
    requires w != [] && forall i :: 0 <= i < |w| ==> IsWordChar(w[i])
    ensures Collapse(g + w) == "-" + w
  {
    SkipSepsPrefix(g, w);
    CollapseFixes(w);
    assert (g + w)[0] == g[0];
  }

  lemma TwoWordsGap(gap: string)
    requires forall i :: 0 <= i < |gap| ==> !IsWordChar(gap[i])
    requires HasSep(gap)
    ensures DropPunct(gap) != [] && forall i :: 0 <= i < |DropPunct(gap)| ==> IsSep(DropPunct(gap)[i])
  {
    DropPunctGap(gap);
    DropPunctSeps(gap);
  }

  lemma TwoWordsCollapse(w1: string, g: string, w2: string)
    requires forall i :: 0 <= i < |w1| ==> IsWordChar(w1[i])
    requires g != [] && forall i :: 0 <= i < |g| ==> IsSep(g[i])
    requires w2 != [] && forall i :: 0 <= i < |w2| ==> IsWordChar(w2[i])
    ensures Collapse(w1 + (g + w2)) == w1 + ("-" + w2)
  {
    GapCollapse(g, w2);
    WordHasNoSep(w1);
    CollapseWordPrefix(w1, g + w2);
  }

  lemma WordHasNoSep(w: string)
    requires forall i :: 0 <= i < |w| ==> IsWordChar(w[i])
    ensures forall i :: 0 <= i < |w| ==> !IsSep(w[i])
  {
  }

  lemma TwoWordsLower(w1: string, w2: string)
    ensures Lower(w1 + ("-" + w2)) == Lower(w1) + "-" + Lower(w2)
  {
    LowerAppend(w1, "-" + w2);
    LowerAppend("-", w2);
    assert Lower("-") == "-";
  }

  /** Two words separated by a gap of punctuation holding at least one
      space or hyphen, and followed by punctuation only, become the two
      words lower-cased and joined by one hyphen. */
  lemma SlugifyTwoWords(w1: string, gap: string, w2: string, tail: string)
    requires w1 != [] && w2 != []
    requires forall i :: 0 <= i < |w1| ==> IsWordChar(w1[i])
    requires forall i :: 0 <= i < |w2| ==> IsWordChar(w2[i])
    requires forall i :: 0 <= i < |gap| ==> !IsWordChar(gap[i])
    requires HasSep(gap)
    requires forall i :: 0 <= i < |tail| ==> !IsKept(tail[i])
    ensures Slugify(w1 + gap + w2 + tail) == Lower(w1) + "-" + Lower(w2)
  {
    var s := w1 + gap + w2 + tail;
    var g := DropPunct(gap);
    TwoWordsDrop(w1, gap, w2, tail);
    TwoWordsGap(gap);
    TwoWordsCollapse(w1, g, w2);
    SlugifyByPasses(s, w1 + (g + w2), w1 + ("-" + w2));
    TwoWordsLower(w1, w2);
  }

  lemma {:induction false} DropPunctNoneKept(t: string)
    requires forall i :: 0 <= i < |t| ==> !IsKept(t[i])
    ensures DropPunct(t) == []
  {
    if t != [] {
      DropPunctNoneKept(t[1..]);
    }
  }

  lemma SlugifyByPasses(s: string, d: string, c: string)
    requires DropPunct(s) == d && Collapse(d) == c
    ensures Slugify(s) == Lower(c)
  {
  }

  lemma ExampleParts(s: string, w1: string, gap: string, w2: string, tail: string)
    requires s == "Install & Setup!"
    requires w1 == "Install" && gap == " & " && w2 == "Setup" && tail == "!"
    ensures s == w1 + gap + w2 + tail
    ensures HasSep(gap)
  {
  }

  lemma ExampleWords(w1: string, w2: string)
    requires w1 == "Install" && w2 == "Setup"
    ensures Lower(w1) + "-" + Lower(w2) == "install-setup"
  {
    assert Lower(w1) == "install";
    assert Lower(w2) == "setup";
  }

  /** The worked example: `"Install & Setup!"` becomes `"install-setup"`. */
  lemma SlugifyExample(s: string)
    requires s == "Install & Setup!"
    ensures Slugify(s) == "install-setup"
  {
    var w1, gap, w2, tail := "Install", " & ", "Setup", "!";
    ExampleParts(s, w1, gap, w2, tail);
    SlugifyTwoWords(w1, gap, w2, tail);
    ExampleWords(w1, w2);
  }
}
