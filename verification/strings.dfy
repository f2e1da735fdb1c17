/** The string operations the source performs with `startsWith`, `endsWith`,
    `replace` and chained regular expressions, written once and shared. */
module Strings {

  predicate StartsWith(s: string, prefix: string) {
    |prefix| <= |s| && s[..|prefix|] == prefix
  }

  lemma StartsWithShorter(s: string, prefix: string, more: string)
    requires StartsWith(s, prefix + more)
    ensures StartsWith(s, prefix)
  {
    assert s[..|prefix|] == (prefix + more)[..|prefix|];
  }

  lemma StartsWithAppend(a: string, b: string)
    ensures StartsWith(a + b, a)
  {
    assert (a + b)[..|a|] == a;
  }

  lemma StartsWithTrans(s: string, t: string, prefix: string)
    requires StartsWith(s, t) && StartsWith(t, prefix)
    ensures StartsWith(s, prefix)
  {
    assert s[..|prefix|] == s[..|t|][..|prefix|];
  }

  predicate EndsWith(s: string, suffix: string) {
    |suffix| <= |s| && s[|s| - |suffix|..] == suffix
  }

  /** No two consecutive occurrences of `c`. */
  predicate NoDouble(s: string, c: char) {
    forall i :: 0 <= i < |s| - 1 ==> !(s[i] == c && s[i + 1] == c)
  }

  /** The characters of `s` that satisfy `keep`, in order: the effect of a
      global `replace` of the complementary character class by `''`. */
  function Filter(s: string, keep: char -> bool): (r: string)
    ensures |r| <= |s|
    ensures forall i :: 0 <= i < |r| ==> keep(r[i])
    ensures forall c :: c in r ==> c in s
  {
    if s == [] then [] else (if keep(s[0]) then [s[0]] else []) + Filter(s[1..], keep)
  }

  lemma {:induction false} FilterConcat(a: string, b: string, keep: char -> bool)
    ensures Filter(a + b, keep) == Filter(a, keep) + Filter(b, keep)
  {
    if a == [] {
      assert a + b == b;
    } else {
      assert (a + b)[1..] == a[1..] + b;
      FilterConcat(a[1..], b, keep);
    }
  }

  lemma {:induction false} FilterKeepsAll(s: string, keep: char -> bool)
    requires forall i :: 0 <= i < |s| ==> keep(s[i])
    ensures Filter(s, keep) == s
  {
    if s != [] {
      FilterKeepsAll(s[1..], keep);
    }
  }

  /** Filtering with a stricter class after a weaker one is filtering with the stricter one. */
  lemma {:induction false} FilterFilter(s: string, weak: char -> bool, strict: char -> bool)
    requires forall c :: strict(c) ==> weak(c)
    ensures Filter(Filter(s, weak), strict) == Filter(s, strict)
  {
    if s != [] {
      FilterFilter(s[1..], weak, strict);
      FilterConcat(if weak(s[0]) then [s[0]] else [], Filter(s[1..], weak), strict);
    }
  }

  lemma {:induction false} FilterKeepsNone(s: string, keep: char -> bool)
    requires forall i :: 0 <= i < |s| ==> !keep(s[i])
    ensures Filter(s, keep) == []
  {
    if s != [] {
      FilterKeepsNone(s[1..], keep);
    }
  }

  /** A non-empty string whose first character is kept has a non-empty filter. */
  lemma FilterHead(s: string, keep: char -> bool)
    requires |s| > 0 && keep(s[0])
    ensures Filter(s, keep) != []
  {
  }

  /** Every maximal run of characters satisfying `inClass` replaced by the
      single character `mark`: the effect of `replace(/X+/g, mark)` where `X` is
      the class. `inRun` says the previous input character was in the class. */
  function CollapseRuns(s: string, inClass: char -> bool, mark: char, inRun: bool): (r: string)
    ensures |r| <= |s|
    ensures forall c :: c in r ==> c == mark || (c in s && !inClass(c))
  {
    if s == [] then []
    else if inClass(s[0]) then (if inRun then [] else [mark]) + CollapseRuns(s[1..], inClass, mark, true)
    else [s[0]] + CollapseRuns(s[1..], inClass, mark, false)
  }

  /** When the replacement belongs to the class, the result never holds two
      replacements in a row, and after a run it does not start with one. */
  lemma {:induction false} CollapseRunsNoDouble(s: string, inClass: char -> bool, mark: char, inRun: bool)
    requires inClass(mark)
    ensures NoDouble(CollapseRuns(s, inClass, mark, inRun), mark)
    ensures inRun && |CollapseRuns(s, inClass, mark, inRun)| > 0 ==> CollapseRuns(s, inClass, mark, inRun)[0] != mark
  {
    if s != [] {
      CollapseRunsNoDouble(s[1..], inClass, mark, inClass(s[0]));
    }
  }

  /** Characters outside the class and different from the replacement pass through unchanged. */
  lemma {:induction false} CollapseRunsKeeps(s: string, inClass: char -> bool, mark: char, inRun: bool, keep: char -> bool)
    requires forall c :: keep(c) ==> !inClass(c) && c != mark
    ensures Filter(CollapseRuns(s, inClass, mark, inRun), keep) == Filter(s, keep)
  {
    if s != [] {
      var rest := CollapseRuns(s[1..], inClass, mark, inClass(s[0]));
      var head := if inClass(s[0]) then (if inRun then [] else [mark]) else [s[0]];
      assert CollapseRuns(s, inClass, mark, inRun) == head + rest;
      FilterConcat(head, rest, keep);
      CollapseRunsKeeps(s[1..], inClass, mark, inClass(s[0]), keep);
    }
  }

  /** When the input and the replacement satisfy `p`, so does every output character. */
  lemma {:induction false} CollapseRunsClass(s: string, inClass: char -> bool, mark: char, inRun: bool, p: char -> bool)
    requires p(mark) && forall i :: 0 <= i < |s| ==> p(s[i])
    ensures forall i :: 0 <= i < |CollapseRuns(s, inClass, mark, inRun)| ==> p(CollapseRuns(s, inClass, mark, inRun)[i])
  {
    if s != [] {
      CollapseRunsClass(s[1..], inClass, mark, inClass(s[0]), p);
      var rest := CollapseRuns(s[1..], inClass, mark, inClass(s[0]));
      var head := if inClass(s[0]) then (if inRun then [] else [mark]) else [s[0]];
      var r := head + rest;
      forall i | 0 <= i < |r|
        ensures p(r[i])
      {
        if i >= |head| {
          assert r[i] == rest[i - |head|];
        } else {
          assert r[i] == head[0] && p(s[0]);
        }
      }
    }
  }

  /** A string without class characters is left unchanged. */
  lemma {:induction false} CollapseRunsNone(s: string, inClass: char -> bool, mark: char, inRun: bool)
    requires forall i :: 0 <= i < |s| ==> !inClass(s[i])
    ensures CollapseRuns(s, inClass, mark, inRun) == s
  {
    if s != [] {
      CollapseRunsNone(s[1..], inClass, mark, false);
    }
  }

  /** A string whose class characters stand alone has each of them replaced. */
  lemma {:induction false} CollapseRunsIsolated(s: string, inClass: char -> bool, mark: char, inRun: bool)
    requires forall i :: 0 <= i < |s| - 1 ==> !(inClass(s[i]) && inClass(s[i + 1]))
    requires inRun ==> |s| == 0 || !inClass(s[0])
    ensures |CollapseRuns(s, inClass, mark, inRun)| == |s|
    ensures forall i :: 0 <= i < |s| ==>
      CollapseRuns(s, inClass, mark, inRun)[i] == (if inClass(s[i]) then mark else s[i])
  {
    if s != [] {
      CollapseRunsIsolated(s[1..], inClass, mark, inClass(s[0]));
    }
  }

  /** A string whose class characters are single copies of the replacement, not
      following a run, is left unchanged. */
  lemma {:induction false} CollapseRunsSingles(s: string, inClass: char -> bool, mark: char, inRun: bool)
    requires forall i :: 0 <= i < |s| ==> inClass(s[i]) ==> s[i] == mark
    requires NoDouble(s, mark)
    requires inRun ==> |s| == 0 || s[0] != mark
    ensures CollapseRuns(s, inClass, mark, inRun) == s
  {
    if s != [] {
      CollapseRunsSingles(s[1..], inClass, mark, inClass(s[0]));
    }
  }

  /** A string that ends in the class ends in the replacement, unless a run swallowed it. */
  lemma {:induction false} CollapseRunsEnds(s: string, inClass: char -> bool, mark: char, inRun: bool)
    requires |s| > 0
    ensures !inRun ==> |CollapseRuns(s, inClass, mark, inRun)| > 0
    ensures inClass(s[|s| - 1]) ==> var r := CollapseRuns(s, inClass, mark, inRun); r == [] || r[|r| - 1] == mark
    ensures inClass(s[0]) && !inRun ==> CollapseRuns(s, inClass, mark, inRun)[0] == mark
  {
    if |s| > 1 {
      CollapseRunsEnds(s[1..], inClass, mark, inClass(s[0]));
      assert s[1..][|s| - 2] == s[|s| - 1];
    }
  }

  /** `replace(/^-|-$/g, '')`: one leading and one trailing hyphen removed. */
  function TrimHyphens(s: string): (r: string)
    ensures |r| <= |s|
    ensures forall c :: c in r ==> c in s
    ensures NoDouble(s, '-') ==> NoDouble(r, '-')
    ensures NoDouble(s, '-') && |r| > 0 ==> r[0] != '-' && r[|r| - 1] != '-'
  {
    var t := if |s| > 0 && s[0] == '-' then s[1..] else s;
    if |t| > 0 && t[|t| - 1] == '-' then t[..|t| - 1] else t
  }

  lemma TrimHyphensKeeps(s: string, keep: char -> bool)
    requires !keep('-')
    ensures Filter(TrimHyphens(s), keep) == Filter(s, keep)
  {
    var t := if |s| > 0 && s[0] == '-' then s[1..] else s;
    if |s| > 0 && s[0] == '-' {
      FilterDropFirst(s, keep);
    }
    assert Filter(t, keep) == Filter(s, keep);
    if |t| > 0 && t[|t| - 1] == '-' {
      FilterDropLast(t, keep);
    }
  }

  /** Dropping a first character the filter rejects does not change the filter. */
  lemma FilterDropFirst(s: string, keep: char -> bool)
    requires |s| > 0 && !keep(s[0])
    ensures Filter(s[1..], keep) == Filter(s, keep)
  {
  }

  /** Dropping a last character the filter rejects does not change the filter. */
  lemma FilterDropLast(s: string, keep: char -> bool)
    requires |s| > 0 && !keep(s[|s| - 1])
    ensures Filter(s[..|s| - 1], keep) == Filter(s, keep)
  {
    var front, x := s[..|s| - 1], s[|s| - 1];
    FilterConcat(front, [x], keep);
    FilterOne(x, keep);
    assert front + [x] == s;
  }

  lemma FilterOne(x: char, keep: char -> bool)
    requires !keep(x)
    ensures Filter([x], keep) == []
  {
    assert [x][1..] == [];
  }

  /** Trimming keeps a property every character has. */
  lemma TrimHyphensClass(s: string, p: char -> bool)
    requires forall i :: 0 <= i < |s| ==> p(s[i])
    ensures forall i :: 0 <= i < |TrimHyphens(s)| ==> p(TrimHyphens(s)[i])
  {
    var t := if |s| > 0 && s[0] == '-' then s[1..] else s;
    assert forall i :: 0 <= i < |t| ==> p(t[i]);
  }

  lemma TrimHyphensNone(s: string)
    requires |s| > 0 ==> s[0] != '-' && s[|s| - 1] != '-'
    ensures TrimHyphens(s) == s
  {
  }

  /** `replace(pattern, replacement)` with a string pattern: only the FIRST occurrence is replaced. */
  function ReplaceFirst(s: string, pattern: string, replacement: string): string
    decreases |s|
  {
    if StartsWith(s, pattern) then replacement + s[|pattern|..]
    else if s == [] then []
    else [s[0]] + ReplaceFirst(s[1..], pattern, replacement)
  }

  /** `pattern` occurs somewhere in `s`. */
  predicate Contains(s: string, pattern: string)
    decreases |s|
  {
    StartsWith(s, pattern) || (s != [] && Contains(s[1..], pattern))
  }

  lemma {:induction false} ContainsMd(a: string, b: string)
    ensures Contains(a + ".md" + b, ".md")
    decreases |a|
  {
    if a == [] {
      assert a + ".md" + b == ".md" + b;
      assert (".md" + b)[..3] == ".md";
    } else {
      assert (a + ".md" + b)[1..] == a[1..] + ".md" + b;
      ContainsMd(a[1..], b);
    }
  }

  /** A string without a dot holds no `.md`. */
  lemma {:induction false} NoDotNoMd(s: string)
    requires forall i :: 0 <= i < |s| ==> s[i] != '.'
    ensures !Contains(s, ".md")
    decreases |s|
  {
    if s != [] {
      if |s| >= 3 {
        assert s[..3][0] == s[0];
      }
      NoDotNoMd(s[1..]);
    }
  }

  /** Removing the first `.md` from `a + ".md" + b`, where `a` holds none,
      leaves `a + b`: the pattern cannot straddle the end of `a`. */
  lemma {:induction false} ReplaceFirstMd(a: string, b: string)
    requires !Contains(a, ".md")
    ensures ReplaceFirst(a + ".md" + b, ".md", "") == a + b
    decreases |a|
  {
    var s := a + ".md" + b;
    if a == [] {
      assert s == ".md" + b;
      assert s[3..] == b;
    } else {
      NoMdAtStart(a, b);
      ReplaceFirstStep(s, ".md", "");
      ContainsTail(a, ".md");
      assert s[1..] == a[1..] + ".md" + b;
      ReplaceFirstMd(a[1..], b);
      assert s[0] == a[0];
      assert [a[0]] + (a[1..] + b) == a + b;
    }
  }

  /** Where the pattern does not start `s`, the replacement happens in the tail. */
  lemma ReplaceFirstStep(s: string, pattern: string, replacement: string)
    requires s != [] && !StartsWith(s, pattern)
    ensures ReplaceFirst(s, pattern, replacement) == [s[0]] + ReplaceFirst(s[1..], pattern, replacement)
  {
  }

  lemma ContainsTail(s: string, pattern: string)
    requires s != [] && !Contains(s, pattern)
    ensures !Contains(s[1..], pattern)
  {
  }

  /** A non-empty `a` holding no `.md` does not start `a + ".md" + b` with one. */
  lemma NoMdAtStart(a: string, b: string)
    requires a != [] && !Contains(a, ".md")
    ensures !StartsWith(a + ".md" + b, ".md")
  {
    var s := a + ".md" + b;
    if |a| >= 3 {
      assert s[..3] == a[..3];
    } else if |a| == 2 {
      assert s[2] == '.';
    } else {
      assert s[1] == '.';
    }
  }

  /** `replace(/X$/, '')`: the suffix removed when present. */
  function DropSuffix(s: string, suffix: string): (r: string)
    ensures EndsWith(s, suffix) ==> r + suffix == s
    ensures !EndsWith(s, suffix) ==> r == s
  {
    if EndsWith(s, suffix) then s[..|s| - |suffix|] else s
  }

  /** `replace(/c/g, mark)` for one character. */
  function ReplaceChar(s: string, c: char, mark: char): (r: string)
    ensures |r| == |s|
    ensures forall i :: 0 <= i < |s| ==> r[i] == (if s[i] == c then mark else s[i])
  {
    seq(|s|, i requires 0 <= i < |s| => if s[i] == c then mark else s[i])
  }

  /** Segments joined by `/`. */
  function JoinPath(segments: seq<string>): string
  {
    if |segments| == 0 then ""
    else if |segments| == 1 then segments[0]
    else segments[0] + "/" + JoinPath(segments[1..])
  }

  lemma {:induction false} JoinPathAppend(segments: seq<string>, last: string)
    requires |segments| > 0
    ensures JoinPath(segments + [last]) == JoinPath(segments) + "/" + last
  {
    if |segments| > 1 {
      assert (segments + [last])[1..] == segments[1..] + [last];
      JoinPathAppend(segments[1..], last);
    } else {
      assert segments + [last] == [segments[0], last];
    }
  }

  /** Joining non-empty segments gives the empty string only for no segments. */
  lemma JoinPathEmpty(segments: seq<string>)
    requires forall i :: 0 <= i < |segments| ==> segments[i] != ""
    ensures JoinPath(segments) == "" <==> segments == []
  {
    if |segments| > 1 {
      assert |JoinPath(segments)| >= |segments[0]| > 0;
    }
  }
}
