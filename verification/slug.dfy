/** Title and slug utilities: `formatTitle` and `slugify` of the site
    generator, `normalizeFilename` and `normalizeFolderName` of the editor
    server. */
module Slug {
  import opened Chars
  import opened Strings

  // ---------------------------------------------------------------------------
  // formatTitle
  // ---------------------------------------------------------------------------

  /** `replace(/[-_]/g, ' ')`. */
  function SeparatorsToSpaces(s: string): (r: string)
    ensures |r| == |s|
    ensures forall i :: 0 <= i < |s| ==> r[i] == (if s[i] == '-' || s[i] == '_' then ' ' else s[i])
  {
    seq(|s|, i requires 0 <= i < |s| => if s[i] == '-' || s[i] == '_' then ' ' else s[i])
  }

  /** Position `i` of `s` is matched by `\b\w`: a word character at the start
      of the string or right after a non-word character. */
  predicate WordStart(s: string, i: int)
    requires 0 <= i < |s|
  {
    IsWordChar(s[i]) && (i == 0 || !IsWordChar(s[i - 1]))
  }

  /** Whether the character before position `i` of `s` is a word character,
      `before` standing for the character ahead of `s`. */
  predicate AfterWord(s: string, i: int, before: bool)
    requires 0 <= i < |s|
  {
    if i == 0 then before else IsWordChar(s[i - 1])
  }

  /** `replace(/\b\w/g, c => c.toUpperCase())`, scanning left to right;
      `afterWord` says the character before `s` was a word character. */
  function Capitalize(s: string, afterWord: bool): (r: string)
    ensures |r| == |s|
    ensures forall i :: 0 <= i < |s| ==>
      r[i] == (if IsWordChar(s[i]) && !AfterWord(s, i, afterWord) then ToUpper(s[i]) else s[i])
  {
    if s == [] then []
    else
      var rest := Capitalize(s[1..], IsWordChar(s[0]));
      var r := [if IsWordChar(s[0]) && !afterWord then ToUpper(s[0]) else s[0]] + rest;
      assert forall i :: 1 <= i < |s| ==> r[i] == rest[i - 1] && AfterWord(s, i, afterWord) == AfterWord(s[1..], i - 1, IsWordChar(s[0]));
      r
  }

  /** `formatTitle`: separators become spaces and the first character of
      every word is upper-cased; nothing else changes. */
  function FormatTitle(name: string): (r: string)
    ensures |r| == |name|
    ensures forall i :: 0 <= i < |r| ==> r[i] != '-' && r[i] != '_'
    ensures forall i :: 0 <= i < |r| ==>
      var d := SeparatorsToSpaces(name);
      r[i] == (if WordStart(d, i) then ToUpper(d[i]) else d[i])
    ensures forall i :: 0 <= i < |r| ==> WordStart(SeparatorsToSpaces(name), i) ==> !IsLower(r[i])
  {
    Capitalize(SeparatorsToSpaces(name), false)
  }

  /** Formatting a title a second time changes nothing. */
  lemma FormatTitleIdempotent(name: string)
    ensures FormatTitle(FormatTitle(name)) == FormatTitle(name)
  {
    var r := FormatTitle(name);
    var d := SeparatorsToSpaces(name);
    assert SeparatorsToSpaces(r) == r;
    forall i | 0 <= i < |r|
      ensures WordStart(r, i) == WordStart(d, i)
    {
      assert IsWordChar(r[i]) == IsWordChar(d[i]);
      if i > 0 {
        assert IsWordChar(r[i - 1]) == IsWordChar(d[i - 1]);
      }
    }
  }

  /** The title one name yields, given its separators already turned to spaces. */
  lemma FormatTitleOf(name: string, spaced: string, title: string)
    requires SeparatorsToSpaces(name) == spaced
    requires |title| == |spaced|
    requires forall i :: 0 <= i < |spaced| ==> title[i] == (if WordStart(spaced, i) then ToUpper(spaced[i]) else spaced[i])
    ensures FormatTitle(name) == title
  {
  }

  lemma FormatTitleArticle()
    ensures FormatTitle("my-new-article") == "My New Article"
  {
    FormatTitleOf("my-new-article", "my new article", "My New Article");
  }

  lemma FormatTitleStarted()
    ensures FormatTitle("getting_started") == "Getting Started"
  {
    FormatTitleOf("getting_started", "getting started", "Getting Started");
  }

  lemma FormatTitleMyPage()
    ensures FormatTitle("my_page") == "My Page"
  {
    FormatTitleOf("my_page", "my page", "My Page");
  }

  /** The documented examples of `formatTitle`. */
  lemma FormatTitleExamples()
    ensures FormatTitle("my-new-article") == "My New Article"
    ensures FormatTitle("getting_started") == "Getting Started"
    ensures FormatTitle("my_page") == "My Page"
  {
    FormatTitleArticle();
    FormatTitleStarted();
    FormatTitleMyPage();
  }

  // ---------------------------------------------------------------------------
  // slugify
  // ---------------------------------------------------------------------------

  /** `[a-z0-9\s-]`: the characters `slugify` keeps after lower-casing. */
  predicate IsSlugSource(c: char) { IsLowerAlnum(c) || IsSpace(c) || c == '-' }

  /** A well-formed URL segment: lower-case letters, digits and single inner hyphens. */
  predicate IsSlug(s: string) {
    && (forall i :: 0 <= i < |s| ==> IsLowerAlnum(s[i]) || s[i] == '-')
    && NoDouble(s, '-')
    && (|s| > 0 ==> s[0] != '-' && s[|s| - 1] != '-')
  }

  /** The letters and digits of `s`, in order: what a slug preserves of a title. */
  function Alnums(s: string): string { Filter(s, IsLowerAlnum) }

  /** `slugify`: lower-case, drop characters outside `[a-z0-9\s-]`, turn white
      space runs into `-`, collapse `-` runs, trim one `-` at each end. */
  function Slugify(title: string): (r: string)
    ensures IsSlug(r)
    ensures Alnums(r) == Alnums(Lower(title))
    ensures r == [] <==> Alnums(Lower(title)) == []
  {
    var kept := Filter(Lower(title), IsSlugSource);
    var dashed := CollapseRuns(kept, IsSpace, '-', false);
    var single := CollapseRuns(dashed, IsHyphen, '-', false);
    SlugifySteps(title, kept, dashed, single);
    TrimHyphens(single)
  }

  lemma SlugifySteps(title: string, kept: string, dashed: string, single: string)
    requires kept == Filter(Lower(title), IsSlugSource)
    requires dashed == CollapseRuns(kept, IsSpace, '-', false)
    requires single == CollapseRuns(dashed, IsHyphen, '-', false)
    ensures IsSlug(TrimHyphens(single))
    ensures Alnums(TrimHyphens(single)) == Alnums(Lower(title))
    ensures TrimHyphens(single) == [] <==> Alnums(Lower(title)) == []
  {
    var r := TrimHyphens(single);
    SlugShape(kept, dashed, single);
    SlugKeeps(title, kept, dashed, single);
    if r != [] {
      FilterHead(r, IsLowerAlnum);
    }
  }

  /** The chain after filtering yields a slug. */
  lemma SlugShape(kept: string, dashed: string, single: string)
    requires forall i :: 0 <= i < |kept| ==> IsSlugSource(kept[i])
    requires dashed == CollapseRuns(kept, IsSpace, '-', false)
    requires single == CollapseRuns(dashed, IsHyphen, '-', false)
    ensures IsSlug(TrimHyphens(single))
  {
    var r := TrimHyphens(single);
    CollapseRunsNoDouble(dashed, IsHyphen, '-', false);
    assert forall c :: c in kept ==> IsSlugSource(c);
    assert forall c :: c in dashed ==> IsLowerAlnum(c) || c == '-';
    assert forall c :: c in r ==> IsLowerAlnum(c) || c == '-';
    assert forall i :: 0 <= i < |r| ==> r[i] in r;
  }

  /** Every step of the chain keeps the letters and digits. */
  lemma SlugKeeps(title: string, kept: string, dashed: string, single: string)
    requires kept == Filter(Lower(title), IsSlugSource)
    requires dashed == CollapseRuns(kept, IsSpace, '-', false)
    requires single == CollapseRuns(dashed, IsHyphen, '-', false)
    ensures Alnums(TrimHyphens(single)) == Alnums(Lower(title))
  {
    FilterFilter(Lower(title), IsSlugSource, IsLowerAlnum);
    CollapseRunsKeeps(kept, IsSpace, '-', false, IsLowerAlnum);
    CollapseRunsKeeps(dashed, IsHyphen, '-', false, IsLowerAlnum);
    TrimHyphensKeeps(single, IsLowerAlnum);
  }

  /** The slugs are exactly the fixed points of `slugify`. */
  lemma SlugifyFixpoint(s: string)
    ensures Slugify(s) == s <==> IsSlug(s)
  {
    if IsSlug(s) {
      SlugIsFixpoint(s);
    }
  }

  lemma SlugIsFixpoint(s: string)
    requires IsSlug(s)
    ensures Slugify(s) == s
  {
    ToLowerKeepsNonUpper(s);
    FilterKeepsAll(s, IsSlugSource);
    CollapseRunsNone(s, IsSpace, '-', false);
    CollapseRunsSingles(s, IsHyphen, '-', false);
    TrimHyphensNone(s);
  }

  /** `slugify(slugify(x)) == slugify(x)`. */
  lemma SlugifyIdempotent(title: string)
    ensures Slugify(Slugify(title)) == Slugify(title)
  {
    SlugifyFixpoint(Slugify(title));
  }

  /** The slug of a title whose lower-cased form has only slug characters and
      single spaces: the spaces become hyphens. */
  lemma SlugifyOf(title: string, lowered: string, slug: string)
    requires Lower(title) == lowered
    requires forall i :: 0 <= i < |lowered| ==> IsLowerAlnum(lowered[i]) || lowered[i] == ' '
    requires |slug| == |lowered|
    requires forall i :: 0 <= i < |lowered| ==> slug[i] == (if lowered[i] == ' ' then '-' else lowered[i])
    requires IsSlug(slug)
    ensures Slugify(title) == slug
  {
    FilterKeepsAll(lowered, IsSlugSource);
    assert forall i :: 0 <= i < |lowered| ==> IsSpace(lowered[i]) == (lowered[i] == ' ');
    assert forall i :: 0 <= i < |lowered| - 1 ==> !(IsSpace(lowered[i]) && IsSpace(lowered[i + 1])) by {
      forall i | 0 <= i < |lowered| - 1
        ensures !(IsSpace(lowered[i]) && IsSpace(lowered[i + 1]))
      {
        assert !(slug[i] == '-' && slug[i + 1] == '-');
      }
    }
    CollapseRunsIsolated(lowered, IsSpace, '-', false);
    var dashed := CollapseRuns(lowered, IsSpace, '-', false);
    assert dashed == slug;
    CollapseRunsSingles(slug, IsHyphen, '-', false);
    TrimHyphensNone(slug);
  }

  lemma SlugifyGettingStarted()
    ensures Slugify("Getting Started") == "getting-started"
  {
    SlugifyOf("Getting Started", "getting started", "getting-started");
  }

  lemma SlugifyMyPage()
    ensures Slugify("My Page") == "my-page"
  {
    SlugifyOf("My Page", "my page", "my-page");
  }

  lemma SlugifyPunctuation()
    ensures Slugify("???") == ""
  {
    assert Lower("???") == "???";
    FilterKeepsNone("???", IsLowerAlnum);
  }

  /** Titles whose letters and digits differ get different slugs. */
  lemma SlugifyDistinguishes(x: string, y: string)
    requires Alnums(Lower(x)) != Alnums(Lower(y))
    ensures Slugify(x) != Slugify(y)
  {
  }

  /** Two ordinary titles, `Getting Started` and `My Page`, become
      `getting-started` and `my-page`; an all-punctuation title yields the
      empty slug. */
  lemma SlugifyExamples()
    ensures Slugify("Getting Started") == "getting-started"
    ensures Slugify("My Page") == "my-page"
    ensures Slugify("???") == ""
  {
    SlugifyGettingStarted();
    SlugifyMyPage();
    SlugifyPunctuation();
  }

  // ---------------------------------------------------------------------------
  // normalizeFilename and normalizeFolderName (editor server)
  // ---------------------------------------------------------------------------

  /** `[a-z0-9\-_]`: the characters a folder name keeps. */
  predicate IsFolderChar(c: char) { IsLowerAlnum(c) || c == '-' || c == '_' }

  /** `[a-z0-9\-_.]`: the characters a file name keeps. */
  predicate IsFileChar(c: char) { IsFolderChar(c) || c == '.' }

  /** The characters of a folder name that are not separators. */
  predicate IsFolderContent(c: char) { IsLowerAlnum(c) || c == '_' }

  /** Only `keep` characters, single inner hyphens, no hyphen at either end. */
  predicate IsCleanName(s: string, keep: char -> bool) {
    && (forall i :: 0 <= i < |s| ==> keep(s[i]))
    && NoDouble(s, '-')
    && (|s| > 0 ==> s[0] != '-' && s[|s| - 1] != '-')
  }

  /** The cleaning chain shared by both normalizers: lower-case, white space
      runs to `-`, drop what `keep` rejects, collapse `-` runs, trim one `-`
      at each end. */
  function CleanName(name: string, keep: char -> bool): (r: string)
    requires keep('-')
    ensures IsCleanName(r, keep)
  {
    var dashed := CollapseRuns(Lower(name), IsSpace, '-', false);
    var kept := Filter(dashed, keep);
    CleanShape(kept, keep);
    TrimHyphens(CollapseRuns(kept, IsHyphen, '-', false))
  }

  /** Collapsing hyphen runs and trimming the ends of kept characters gives a clean name. */
  lemma CleanShape(kept: string, keep: char -> bool)
    requires keep('-') && forall i :: 0 <= i < |kept| ==> keep(kept[i])
    ensures IsCleanName(TrimHyphens(CollapseRuns(kept, IsHyphen, '-', false)), keep)
  {
    var single := CollapseRuns(kept, IsHyphen, '-', false);
    CollapseRunsNoDouble(kept, IsHyphen, '-', false);
    CollapseRunsClass(kept, IsHyphen, '-', false, keep);
    TrimHyphensClass(single, keep);
  }

  /** A clean name made of lower-case, non-space characters is its own cleaning. */
  lemma CleanNameFixpoint(s: string, keep: char -> bool)
    requires keep('-')
    requires forall c :: keep(c) ==> !IsSpace(c) && !IsUpper(c)
    requires IsCleanName(s, keep)
    ensures CleanName(s, keep) == s
  {
    ToLowerKeepsNonUpper(s);
    CollapseRunsNone(s, IsSpace, '-', false);
    FilterKeepsAll(s, keep);
    CollapseRunsSingles(s, IsHyphen, '-', false);
    TrimHyphensNone(s);
  }

  /** Cleaning keeps every `content` character (one the chain never removes) in order. */
  lemma CleanNameKeeps(name: string, keep: char -> bool, content: char -> bool)
    requires keep('-')
    requires forall c :: content(c) ==> keep(c) && !IsSpace(c) && c != '-'
    ensures Filter(CleanName(name, keep), content) == Filter(Lower(name), content)
  {
    var dashed := CollapseRuns(Lower(name), IsSpace, '-', false);
    var kept := Filter(dashed, keep);
    var single := CollapseRuns(kept, IsHyphen, '-', false);
    CollapseRunsKeeps(Lower(name), IsSpace, '-', false, content);
    FilterFilter(dashed, keep, content);
    CollapseRunsKeeps(kept, IsHyphen, '-', false, content);
    TrimHyphensKeeps(single, content);
  }

  /** When `content` holds of every kept character but `-`, the cleaned name
      is empty exactly when the name has no `content` character. */
  lemma CleanNameEmpty(name: string, keep: char -> bool, content: char -> bool)
    requires keep('-')
    requires forall c :: content(c) ==> keep(c) && !IsSpace(c) && c != '-'
    requires forall c :: keep(c) && c != '-' ==> content(c)
    ensures CleanName(name, keep) == [] <==> Filter(Lower(name), content) == []
  {
    var r := CleanName(name, keep);
    CleanNameKeeps(name, keep, content);
    if r != [] {
      FilterHead(r, content);
    }
  }

  /** `normalizeFolderName`. */
  function NormalizeFolderName(name: string): (r: string)
    ensures IsCleanName(r, IsFolderChar)
    ensures Filter(r, IsFolderContent) == Filter(Lower(name), IsFolderContent)
    ensures r == [] <==> Filter(Lower(name), IsFolderContent) == []
  {
    CleanNameKeeps(name, IsFolderChar, IsFolderContent);
    CleanNameEmpty(name, IsFolderChar, IsFolderContent);
    CleanName(name, IsFolderChar)
  }

  /** Normalizing a normalized folder name changes nothing. */
  lemma NormalizeFolderNameIdempotent(name: string)
    ensures NormalizeFolderName(NormalizeFolderName(name)) == NormalizeFolderName(name)
  {
    FolderCharsPlain();
    CleanNameFixpoint(NormalizeFolderName(name), IsFolderChar);
  }

  /** Folder-name characters are neither white space nor upper case. */
  lemma FolderCharsPlain()
    ensures forall c :: IsFolderChar(c) ==> !IsSpace(c) && !IsUpper(c)
  {
  }

  /** File-name characters are neither white space nor upper case. */
  lemma FileCharsPlain()
    ensures forall c :: IsFileChar(c) ==> !IsSpace(c) && !IsUpper(c)
  {
    FolderCharsPlain();
  }

  /** The cleaned form of a name whose lower-cased form has only kept
      characters and single spaces: the spaces become hyphens. */
  lemma CleanNameOf(name: string, keep: char -> bool, lowered: string, clean: string)
    requires keep('-')
    requires Lower(name) == lowered
    requires forall i :: 0 <= i < |lowered| ==> lowered[i] == ' ' || (keep(lowered[i]) && !IsSpace(lowered[i]))
    requires |clean| == |lowered|
    requires forall i :: 0 <= i < |lowered| ==> clean[i] == (if lowered[i] == ' ' then '-' else lowered[i])
    requires IsCleanName(clean, keep)
    ensures CleanName(name, keep) == clean
  {
    assert forall i :: 0 <= i < |lowered| ==> IsSpace(lowered[i]) == (lowered[i] == ' ');
    assert forall i :: 0 <= i < |lowered| - 1 ==> !(IsSpace(lowered[i]) && IsSpace(lowered[i + 1])) by {
      forall i | 0 <= i < |lowered| - 1
        ensures !(IsSpace(lowered[i]) && IsSpace(lowered[i + 1]))
      {
        assert !(clean[i] == '-' && clean[i + 1] == '-');
      }
    }
    CollapseRunsIsolated(lowered, IsSpace, '-', false);
    assert CollapseRuns(lowered, IsSpace, '-', false) == clean;
    FilterKeepsAll(clean, keep);
    CollapseRunsSingles(clean, IsHyphen, '-', false);
    TrimHyphensNone(clean);
  }

  lemma FolderMyCategory()
    ensures NormalizeFolderName("My Category") == "my-category"
  {
    CleanNameOf("My Category", IsFolderChar, "my category", "my-category");
  }

  /** White space that occurs only as single ASCII spaces becomes one hyphen each. */
  lemma SpacesToHyphens(lowered: string, dashed: string)
    requires forall i :: 0 <= i < |lowered| ==> lowered[i] == ' ' || !IsSpace(lowered[i])
    requires forall i :: 0 <= i < |lowered| - 1 ==> !(lowered[i] == ' ' && lowered[i + 1] == ' ')
    requires |dashed| == |lowered|
    requires forall i :: 0 <= i < |lowered| ==> dashed[i] == (if lowered[i] == ' ' then '-' else lowered[i])
    ensures CollapseRuns(lowered, IsSpace, '-', false) == dashed
  {
    CollapseRunsIsolated(lowered, IsSpace, '-', false);
  }

  /** The cleaned form of a name whose lower-cased form has single spaces and
      ends in characters the cleaning drops. */
  lemma CleanNameDropping(name: string, keep: char -> bool, lowered: string, kept: string, dropped: string)
    requires keep('-')
    requires Lower(name) == lowered
    requires forall i :: 0 <= i < |lowered| ==> lowered[i] == ' ' || !IsSpace(lowered[i])
    requires forall i :: 0 <= i < |lowered| - 1 ==> !(lowered[i] == ' ' && lowered[i + 1] == ' ')
    requires |kept + dropped| == |lowered|
    requires forall i :: 0 <= i < |lowered| ==> (kept + dropped)[i] == (if lowered[i] == ' ' then '-' else lowered[i])
    requires forall i :: 0 <= i < |dropped| ==> !keep(dropped[i])
    requires IsCleanName(kept, keep)
    ensures CleanName(name, keep) == kept
  {
    var dashed := kept + dropped;
    SpacesToHyphens(lowered, dashed);
    assert CollapseRuns(Lower(name), IsSpace, '-', false) == dashed;
    assert Filter(dashed, keep) == kept by {
      FilterConcat(kept, dropped, keep);
      FilterKeepsAll(kept, keep);
      FilterKeepsNone(dropped, keep);
    }
    CollapseRunsSingles(kept, IsHyphen, '-', false);
    TrimHyphensNone(kept);
  }

  lemma FolderTestFolder()
    ensures NormalizeFolderName("Test Folder!") == "test-folder"
  {
    CleanNameDropping("Test Folder!", IsFolderChar, "test folder!", "test-folder", "!");
  }

  lemma FolderPunctuation()
    ensures NormalizeFolderName("?!") == ""
  {
    assert Lower("?!") == "?!";
    FilterKeepsNone("?!", IsFolderContent);
  }

  /** The documented examples of `normalizeFolderName`, and an
      all-punctuation name, which is cleaned away entirely. */
  lemma NormalizeFolderNameExamples()
    ensures NormalizeFolderName("My Category") == "my-category"
    ensures NormalizeFolderName("Test Folder!") == "test-folder"
    ensures NormalizeFolderName("?!") == ""
  {
    FolderMyCategory();
    FolderTestFolder();
    FolderPunctuation();
  }

  /** `normalizeFilename`: the cleaned name, with `.md` appended unless it already ends so. */
  function NormalizeFilename(name: string): (r: string)
    ensures EndsWith(r, ".md") && |r| >= 3
    ensures forall i :: 0 <= i < |r| ==> IsFileChar(r[i])
    ensures IsCleanName(r, IsFileChar)
    ensures StartsWith(r, CleanName(name, IsFileChar))
  {
    var c := CleanName(name, IsFileChar);
    if EndsWith(c, ".md") then c else AppendMd(c); c + ".md"
  }

  /** Appending the extension to a clean file name keeps it clean. */
  lemma AppendMd(c: string)
    requires IsCleanName(c, IsFileChar)
    ensures var r := c + ".md";
      EndsWith(r, ".md") && IsCleanName(r, IsFileChar) && StartsWith(r, c)
  {
    var r := c + ".md";
    assert r[|c|..] == ".md";
    assert r[..|c|] == c;
    forall i | 0 <= i < |r|
      ensures IsFileChar(r[i])
    {
      if i >= |c| {
        assert r[i] == ".md"[i - |c|];
      }
    }
    forall i | 0 <= i < |r| - 1
      ensures !(r[i] == '-' && r[i + 1] == '-')
    {
      if i >= |c| {
        assert r[i] == ".md"[i - |c|];
      } else {
        assert r[i] == c[i];
      }
    }
  }

  /** Normalizing a normalized file name changes nothing. */
  lemma NormalizeFilenameIdempotent(name: string)
    ensures NormalizeFilename(NormalizeFilename(name)) == NormalizeFilename(name)
  {
    var r := NormalizeFilename(name);
    FileCharsPlain();
    CleanNameFixpoint(r, IsFileChar);
    assert EndsWith(CleanName(r, IsFileChar), ".md");
  }

  lemma CleanMyNewFile()
    ensures CleanName("My New File", IsFileChar) == "my-new-file"
  {
    CleanNameOf("My New File", IsFileChar, "my new file", "my-new-file");
  }

  lemma FileMyNewFile()
    ensures NormalizeFilename("My New File") == "my-new-file.md"
  {
    CleanMyNewFile();
    MyNewFileNoMd();
    MyNewFileJoin();
    NormalizeFilenameAppends("My New File", "my-new-file", "my-new-file.md");
  }

  lemma MyNewFileJoin()
    ensures "my-new-file" + ".md" == "my-new-file.md"
  {
  }

  lemma MyNewFileNoMd()
    ensures !EndsWith("my-new-file", ".md")
  {
    assert "my-new-file"[8..][0] == 'i';
  }

  /** A cleaned name without the extension gets it appended. */
  lemma NormalizeFilenameAppends(name: string, clean: string, full: string)
    requires CleanName(name, IsFileChar) == clean && !EndsWith(clean, ".md") && clean + ".md" == full
    ensures NormalizeFilename(name) == full
  {
  }

  lemma CleanTestMd()
    ensures CleanName("test.md", IsFileChar) == "test.md"
  {
    CleanNameOf("test.md", IsFileChar, "test.md", "test.md");
  }

  lemma FileTestMd()
    ensures NormalizeFilename("test.md") == "test.md"
  {
    CleanTestMd();
    TestMdEnds();
    NormalizeFilenameKeeps("test.md", "test.md");
  }

  lemma TestMdEnds()
    ensures EndsWith("test.md", ".md")
  {
    assert "test.md"[4..] == ".md";
  }

  /** A cleaned name that already has the extension is the file name. */
  lemma NormalizeFilenameKeeps(name: string, clean: string)
    requires CleanName(name, IsFileChar) == clean && EndsWith(clean, ".md")
    ensures NormalizeFilename(name) == clean
  {
  }

  lemma CleanHelloWorld()
    ensures CleanName("Hello World.md", IsFileChar) == "hello-world.md"
  {
    CleanNameOf("Hello World.md", IsFileChar, "hello world.md", "hello-world.md");
  }

  lemma FileHelloWorld()
    ensures NormalizeFilename("Hello World.md") == "hello-world.md"
  {
    CleanHelloWorld();
    HelloWorldEnds();
    NormalizeFilenameKeeps("Hello World.md", "hello-world.md");
  }

  lemma HelloWorldEnds()
    ensures EndsWith("hello-world.md", ".md")
  {
    assert "hello-world.md"[11..] == ".md";
  }

  lemma FilePunctuation()
    ensures NormalizeFilename("!!") == ".md"
  {
    assert Lower("!!") == "!!";
    CollapseRunsNone("!!", IsSpace, '-', false);
    FilterKeepsNone("!!", IsFileChar);
  }

  /** The documented examples of `normalizeFilename`, and a name with no
      usable character, which still yields a file name. */
  lemma NormalizeFilenameExamples()
    ensures NormalizeFilename("My New File") == "my-new-file.md"
    ensures NormalizeFilename("test.md") == "test.md"
    ensures NormalizeFilename("Hello World.md") == "hello-world.md"
    ensures NormalizeFilename("!!") == ".md"
  {
    FileMyNewFile();
    FileTestMd();
    FileHelloWorld();
    FilePunctuation();
  }
}
