/** `ManualGenerator.find_manual_files`: the names found by the `*.md` glob,
    sorted, without the overview file `README.md`. */
module Discovery {

  const Overview: string := "README.md"

  /** Python's `<=` on `str`: code-point lexicographic order, a proper
      prefix coming first. POSIX paths in one directory compare as their
      names do; Windows paths compare case-folded and are not modelled. */
  predicate Leq(a: string, b: string)
    decreases |a|
  {
    |a| == 0 || (|b| > 0 && (a[0] < b[0] || (a[0] == b[0] && Leq(a[1..], b[1..]))))
  }

  lemma {:induction false} LeqRefl(a: string)
    ensures Leq(a, a)
  {
    if |a| > 0 {
      LeqRefl(a[1..]);
    }
  }

  lemma {:induction false} LeqTotal(a: string, b: string)
    ensures Leq(a, b) || Leq(b, a)
  {
    if |a| > 0 && |b| > 0 && a[0] == b[0] {
      LeqTotal(a[1..], b[1..]);
    }
  }

  lemma {:induction false} LeqAntisym(a: string, b: string)
    requires Leq(a, b) && Leq(b, a)
    ensures a == b
  {
    if |a| > 0 && |b| > 0 {
      LeqAntisym(a[1..], b[1..]);
      assert a == [a[0]] + a[1..] && b == [b[0]] + b[1..];
    }
  }

  lemma {:induction false} LeqTrans(a: string, b: string, c: string)
    requires Leq(a, b) && Leq(b, c)
    ensures Leq(a, c)
  {
    if |a| > 0 && |b| > 0 && |c| > 0 && a[0] == b[0] == c[0] {
      LeqTrans(a[1..], b[1..], c[1..]);
    }
  }

  predicate Sorted(s: seq<string>) {
    forall i, j :: 0 <= i < j < |s| ==> Leq(s[i], s[j])
  }

  /** A lower bound of every element of `u` bounds every element of a
      rearrangement of `u`. */
  lemma BoundByMultiset(y: string, u: seq<string>, t: seq<string>)
    requires forall k :: 0 <= k < |u| ==> Leq(y, u[k])
    requires multiset(t) == multiset(u)
    ensures forall k :: 0 <= k < |t| ==> Leq(y, t[k])
  {
    forall k | 0 <= k < |t| ensures Leq(y, t[k]) {
      assert t[k] in multiset(u);
      assert t[k] in u;
    }
  }

  /** Insertion of one name into a sorted list. */
  function Insert(x: string, s: seq<string>): (r: seq<string>)
    requires Sorted(s)
    ensures Sorted(r)
    ensures multiset(r) == multiset(s) + multiset{x}
    ensures |r| == |s| + 1
  {
    if s == [] then [x]
    else if Leq(x, s[0]) then
      forall j | 0 <= j < |s| ensures Leq(x, s[j]) {
        if j > 0 {
          LeqTrans(x, s[0], s[j]);
        }
      }
      [x] + s
    else
      LeqTotal(x, s[0]);
      var t := Insert(x, s[1..]);
      assert s == [s[0]] + s[1..];
      BoundByMultiset(s[0], s[1..] + [x], t);
      [s[0]] + t
  }

  /** Python's `sorted`. */
  function Sort(s: seq<string>): (r: seq<string>)
    ensures Sorted(r)
    ensures multiset(r) == multiset(s)
    ensures |r| == |s|
  {
    if s == [] then []
    else
      assert s == [s[0]] + s[1..];
      Insert(s[0], Sort(s[1..]))
  }

  /** The list comprehension `[f for f in files if f.name != "README.md"]`. */
  function WithoutOverview(s: seq<string>): (r: seq<string>)
    ensures forall i :: 0 <= i < |r| ==> r[i] != Overview
    ensures forall x :: multiset(r)[x] == if x == Overview then 0 else multiset(s)[x]
    ensures |r| <= |s|
  {
    if s == [] then []
    else
      assert s == [s[0]] + s[1..];
      if s[0] == Overview then WithoutOverview(s[1..])
      else [s[0]] + WithoutOverview(s[1..])
  }

  /** The filter works name by name and keeps the kept names in their
      order: it distributes over concatenation, and a single name is
      dropped exactly when it is `README.md`. */
  lemma {:induction false} WithoutOverviewAppend(a: seq<string>, b: seq<string>)
    ensures WithoutOverview(a + b) == WithoutOverview(a) + WithoutOverview(b)
    ensures forall x :: WithoutOverview([x]) == if x == Overview then [] else [x]
  {
    if a == [] {
      assert a + b == b;
    } else {
      assert (a + b)[1..] == a[1..] + b;
      WithoutOverviewAppend(a[1..], b);
    }
    forall x ensures WithoutOverview([x]) == if x == Overview then [] else [x] {
      assert [x][1..] == [];
    }
  }

  /** The filter keeps the order of what it keeps. */
  lemma {:induction false} WithoutOverviewSorted(s: seq<string>)
    requires Sorted(s)
    ensures Sorted(WithoutOverview(s))
  {
    if s != [] {
      var t := WithoutOverview(s[1..]);
      WithoutOverviewSorted(s[1..]);
      if s[0] != Overview {
        forall k | 0 <= k < |t| ensures Leq(s[0], t[k]) {
          assert t[k] in multiset(t);
          assert t[k] in multiset(s[1..]);
          var j :| 0 <= j < |s[1..]| && s[1..][j] == t[k];
          assert s[j + 1] == t[k];
        }
        assert WithoutOverview(s) == [s[0]] + t;
      }
    }
  }

  /** `find_manual_files` applied to what the glob returned. */
  function FindManualFiles(globbed: seq<string>): (r: seq<string>)
    ensures Sorted(r)
    ensures forall i :: 0 <= i < |r| ==> r[i] != Overview
    ensures forall x :: multiset(r)[x] == if x == Overview then 0 else multiset(globbed)[x]
  {
    WithoutOverviewSorted(Sort(globbed));
    WithoutOverview(Sort(globbed))
  }

  lemma SortedFirst(a: seq<string>, x: string)
    requires Sorted(a) && x in multiset(a)
    ensures a != [] && Leq(a[0], x)
  {
    assert x in a;
    var j :| 0 <= j < |a| && a[j] == x;
    if j == 0 {
      LeqRefl(x);
    }
  }

  lemma DropFirst(a: seq<string>, b: seq<string>)
    requires a != [] && b != [] && a[0] == b[0]
    requires multiset(a) == multiset(b)
    ensures multiset(a[1..]) == multiset(b[1..])
  {
    assert a == [a[0]] + a[1..] && b == [b[0]] + b[1..];
    assert multiset(a) == multiset{a[0]} + multiset(a[1..]);
    assert multiset(b) == multiset{a[0]} + multiset(b[1..]);
    assert multiset(a[1..]) == multiset(a) - multiset{a[0]};
    assert multiset(b[1..]) == multiset(b) - multiset{a[0]};
  }

  /** Two sorted lists holding the same names are equal. */
  lemma {:induction false} SortedUnique(a: seq<string>, b: seq<string>)
    requires Sorted(a) && Sorted(b)
    requires multiset(a) == multiset(b)
    ensures a == b
    decreases |a|
  {
    if a == [] {
      assert |multiset(b)| == 0;
    } else {
      assert a[0] in multiset(a);
      SortedFirst(b, a[0]);
      assert b[0] in multiset(b);
      SortedFirst(a, b[0]);
      LeqAntisym(a[0], b[0]);
      DropFirst(a, b);
      SortedUnique(a[1..], b[1..]);
      assert a == [a[0]] + a[1..] && b == [b[0]] + b[1..];
    }
  }

  /** The discovered list is the one sorted arrangement of the non-overview
      names: any sorted list with the same names, README excluded, is it. */
  lemma FindManualFilesUnique(globbed: seq<string>, other: seq<string>)
    requires Sorted(other)
    requires forall x :: multiset(other)[x] == if x == Overview then 0 else multiset(globbed)[x]
    ensures FindManualFiles(globbed) == other
  {
    var r := FindManualFiles(globbed);
    assert multiset(r) == multiset(other) by {
      forall x ensures multiset(r)[x] == multiset(other)[x] { }
    }
    SortedUnique(r, other);
  }
}
