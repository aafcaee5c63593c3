/** Character classes and string helpers with Python `str` semantics,
    restricted to the ASCII range. */
module Text {

  /** Python's `\s` and `str.isspace()` on ASCII: TAB, LF, VT, FF, CR,
      the four information separators 0x1C..0x1F, and SPACE. */
  predicate IsSpace(c: char) {
    (9 <= c as int <= 13) || (28 <= c as int <= 32)
  }

  /** Python's `\w` on ASCII: letters, digits and the underscore. */
  predicate IsWordChar(c: char) {
    ('a' <= c <= 'z') || ('A' <= c <= 'Z') || ('0' <= c <= '9') || c == '_'
  }

  predicate IsUpper(c: char) {
    'A' <= c <= 'Z'
  }

  predicate AllSpace(s: string) {
    forall i :: 0 <= i < |s| ==> IsSpace(s[i])
  }

  /** `str.lower()` on one ASCII character. */
  function ToLower(c: char): (d: char)
    ensures !IsUpper(d)
    ensures IsWordChar(d) <==> IsWordChar(c)
    ensures d == '-' <==> c == '-'
    ensures !IsUpper(c) ==> d == c
  {
    if IsUpper(c) then (c as int + 32) as char else c
  }

  /** `str.lower()` */
  function Lower(s: string): (r: string)
    ensures |r| == |s|
    ensures forall i :: 0 <= i < |s| ==> r[i] == ToLower(s[i])
  {
    if s == [] then [] else [ToLower(s[0])] + Lower(s[1..])
  }

  /** A string without upper-case letters is its own lower-case form. */
  lemma LowerFixes(s: string)
    requires forall i :: 0 <= i < |s| ==> !IsUpper(s[i])
    ensures Lower(s) == s
  {
  }

  lemma LowerCons(a: string, b: string)
    requires a != []
    ensures Lower(a + b) == [ToLower(a[0])] + Lower(a[1..] + b)
  {
    var ab := a + b;
    assert ab[0] == a[0] && ab[1..] == a[1..] + b;
  }

  /** `lower()` works character by character, so it distributes over
      concatenation. */
  lemma {:induction false} LowerAppend(a: string, b: string)
    ensures Lower(a + b) == Lower(a) + Lower(b)
  {
    if a == [] {
      assert a + b == b;
    } else {
      var c := ToLower(a[0]);
      LowerCons(a, b);
      LowerAppend(a[1..], b);
      ConcatAssoc([c], Lower(a[1..]), Lower(b));
    }
  }

  /** The word characters of `s`, in order. */
  function WordChars(s: string): (r: string)
    ensures |r| <= |s|
    ensures forall i :: 0 <= i < |r| ==> IsWordChar(r[i])
  {
    if s == [] then []
    else if IsWordChar(s[0]) then [s[0]] + WordChars(s[1..])
    else WordChars(s[1..])
  }

  lemma {:induction false} WordCharsAppend(a: string, b: string)
    ensures WordChars(a + b) == WordChars(a) + WordChars(b)
  {
    if a == [] {
      assert a + b == b;
    } else {
      assert (a + b)[1..] == a[1..] + b;
      WordCharsAppend(a[1..], b);
    }
  }

  /** Lower-casing commutes with keeping only the word characters. */
  lemma {:induction false} WordCharsLower(s: string)
    ensures WordChars(Lower(s)) == Lower(WordChars(s))
  {
    if s != [] {
      assert Lower(s)[1..] == Lower(s[1..]);
      WordCharsLower(s[1..]);
    }
  }

  /** The number of leading copies of `c` in `s`: `len(s) - len(s.lstrip(c))`. */
  function LeadingCount(s: string, c: char): (n: nat)
    ensures n <= |s|
    ensures forall i :: 0 <= i < n ==> s[i] == c
    ensures n == |s| || s[n] != c
  {
    if s != [] && s[0] == c then 1 + LeadingCount(s[1..], c) else 0
  }

  /** `str.lstrip()`: drops the longest all-whitespace prefix. */
  function TrimLeft(s: string): (r: string)
    ensures |r| <= |s| && r == s[|s| - |r|..]
    ensures AllSpace(s[..|s| - |r|])
    ensures r == [] || !IsSpace(r[0])
  {
    if s != [] && IsSpace(s[0]) then
      var t := s[1..];
      var r := TrimLeft(t);
      assert s[..|s| - |r|] == [s[0]] + t[..|t| - |r|];
      r
    else s
  }

  /** `str.rstrip()`: drops the longest all-whitespace suffix. */
  function TrimRight(s: string): (r: string)
    ensures |r| <= |s| && r == s[..|r|]
    ensures AllSpace(s[|r|..])
    ensures r == [] || !IsSpace(r[|r| - 1])
  {
    if s != [] && IsSpace(s[|s| - 1]) then
      var t := s[..|s| - 1];
      var r := TrimRight(t);
      assert s[|r|..] == t[|r|..] + [s[|s| - 1]];
      r
    else s
  }

  lemma ConcatAssoc(a: string, b: string, c: string)
    ensures (a + b) + c == a + (b + c)
  {
  }

  /** `s` is `t` with whitespace on either side. */
  ghost predicate Padded(s: string, t: string) {
    exists a :: 0 <= a <= |s| - |t| && s[a..a + |t|] == t
                && AllSpace(s[..a]) && AllSpace(s[a + |t|..])
  }

  /** `str.strip()` with no argument. */
  function Strip(s: string): (r: string)
    ensures |r| <= |s|
    ensures r == [] || (!IsSpace(r[0]) && !IsSpace(r[|r| - 1]))
    ensures Padded(s, r)
  {
    var l := TrimLeft(s);
    var r := TrimRight(l);
    PaddedOfTrims(s, l, r);
    r
  }

  lemma PaddedOfTrims(s: string, l: string, r: string)
    requires |l| <= |s| && l == s[|s| - |l|..] && AllSpace(s[..|s| - |l|])
    requires |r| <= |l| && r == l[..|r|] && AllSpace(l[|r|..])
    ensures Padded(s, r)
  {
    var a := |s| - |l|;
    assert s[a..a + |r|] == r;
    assert s[a + |r|..] == l[|r|..];
  }

  /** `strip()` empties exactly the all-whitespace strings. */
  lemma StripEmpty(s: string)
    ensures Strip(s) == [] <==> AllSpace(s)
  {
    var l := TrimLeft(s);
    assert s == s[..|s| - |l|] + l;
  }

  lemma {:induction false} TrimLeftPadded(lead: string, u: string)
    requires AllSpace(lead)
    requires u == [] || !IsSpace(u[0])
    ensures TrimLeft(lead + u) == u
  {
    if lead == [] {
      assert lead + u == u;
    } else {
      assert (lead + u)[1..] == lead[1..] + u;
      TrimLeftPadded(lead[1..], u);
    }
  }

  lemma {:induction false} TrimRightPadded(u: string, trail: string)
    requires AllSpace(trail)
    requires u == [] || !IsSpace(u[|u| - 1])
    ensures TrimRight(u + trail) == u
  {
    if trail == [] {
      assert u + trail == u;
    } else {
      var k := |trail| - 1;
      assert (u + trail)[..|u + trail| - 1] == u + trail[..k];
      TrimRightPadded(u, trail[..k]);
    }
  }

  /** Whitespace padding around a string that neither starts nor ends with
      whitespace is exactly what `Strip` removes. */
  lemma {:induction false} StripPadded(lead: string, t: string, trail: string)
    requires AllSpace(lead) && AllSpace(trail)
    requires t == [] || (!IsSpace(t[0]) && !IsSpace(t[|t| - 1]))
    ensures Strip(lead + t + trail) == t
  {
    if t == [] {
      assert lead + t + trail == lead + trail;
      assert AllSpace(lead + trail);
      TrimLeftPadded(lead + trail, []);
      assert lead + trail + [] == lead + trail;
    } else {
      assert lead + t + trail == lead + (t + trail);
      TrimLeftPadded(lead, t + trail);
      TrimRightPadded(t, trail);
    }
  }

  /** `s.split('\n')`: the pieces between newlines; never empty. */
  function Lines(s: string): (r: seq<string>)
    ensures |r| >= 1
    ensures forall k :: 0 <= k < |r| ==> '\n' !in r[k]
  {
    if s == [] then [[]]
    else
      var rest := Lines(s[1..]);
      if s[0] == '\n' then [[]] + rest else [[s[0]] + rest[0]] + rest[1..]
  }

  /** `'\n'.join(ls)` */
  function Join(ls: seq<string>): string
    requires |ls| >= 1
  {
    if |ls| == 1 then ls[0] else ls[0] + "\n" + Join(ls[1..])
  }

  function NewlineCount(s: string): nat {
    multiset(s)['\n']
  }

  /** Joining the pieces of a split restores the text. */
  lemma {:induction false} JoinLines(s: string)
    ensures Join(Lines(s)) == s
  {
    if s != [] {
      var rest := Lines(s[1..]);
      JoinLines(s[1..]);
      if s[0] == '\n' {
        assert Lines(s) == [[]] + rest;
        assert Lines(s)[1..] == rest;
        assert s == "\n" + s[1..];
      } else {
        var l := Lines(s);
        if |rest| == 1 {
          assert s == [s[0]] + s[1..];
        } else {
          assert l[1..] == rest[1..];
          assert s == [s[0]] + rest[0] + "\n" + Join(rest[1..]);
        }
      }
    }
  }

  /** Splitting text that begins with a newline-free piece `p`. */
  lemma {:induction false} LinesAppend(p: string, t: string)
    requires '\n' !in p
    ensures Lines(p + t) == [p + Lines(t)[0]] + Lines(t)[1..]
  {
    if p == [] {
      assert p + t == t;
      assert p + Lines(t)[0] == Lines(t)[0];
      assert Lines(t) == [Lines(t)[0]] + Lines(t)[1..];
    } else {
      assert (p + t)[1..] == p[1..] + t;
      assert p == [p[0]] + p[1..];
      LinesAppend(p[1..], t);
      assert [p[0]] + (p[1..] + Lines(t)[0]) == p + Lines(t)[0];
    }
  }

  /** Splitting a joined list of newline-free pieces gives the pieces back. */
  lemma {:induction false} LinesJoin(ls: seq<string>)
    requires |ls| >= 1
    requires forall k :: 0 <= k < |ls| ==> '\n' !in ls[k]
    ensures Lines(Join(ls)) == ls
  {
    if |ls| == 1 {
      LinesAppend(ls[0], []);
      assert ls[0] + [] == ls[0];
    } else {
      var j := Join(ls[1..]);
      LinesJoin(ls[1..]);
      assert Join(ls) == ls[0] + ("\n" + j);
      LinesAppend(ls[0], "\n" + j);
      assert ("\n" + j)[1..] == j;
      assert Lines("\n" + j) == [[]] + ls[1..];
      assert ls[0] + [] == ls[0];
      assert ls == [ls[0]] + ls[1..];
    }
  }

  /** There is one more piece than there are newlines. */
  lemma {:induction false} LinesCount(s: string)
    ensures |Lines(s)| == NewlineCount(s) + 1
  {
    if s != [] {
      LinesCount(s[1..]);
      assert s == [s[0]] + s[1..];
      assert multiset(s) == multiset{s[0]} + multiset(s[1..]);
    }
  }
}
