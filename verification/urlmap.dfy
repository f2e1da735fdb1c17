/** The table from content locations to URLs that the site generator builds
    before rendering any page, and the lookup every page uses to find its URL. */
module UrlMap {
  import opened Wrappers
  import opened Chars
  import opened Strings
  import opened Slug
  import opened Content

  /** Keys are locations under the content root; the root itself is `[]`. */
  type UrlTable = map<Path, string>

  /** How a section and a page get the last segment of their URL. The layout of
      the table does not depend on it, so the table is written for any naming;
      the generator's own naming is `Site`. */
  datatype Naming = Naming(sectionSlug: Node -> string, pageSlug: Node -> string)

  /** A folder's slug: its title, slugified. */
  function SectionSlug(f: Node): string
  {
    if f.Folder? then Slugify(FolderTitle(f)) else ""
  }

  /** A page's slug: its title, slugified. */
  function PageSlug(f: Node): string
  {
    if f.File? then Slugify(PageTitle(f)) else ""
  }

  const Site: Naming := Naming(SectionSlug, PageSlug)

  /** A page's slug as the URL pass writes it: the title from the name with
      its first `.md` removed, wherever it is. */
  function PageSlugAsWritten(f: Node): string
  {
    if f.File? then Slugify(PageTitleAsWritten(f)) else ""
  }

  const SiteAsWritten: Naming := Naming(SectionSlug, PageSlugAsWritten)

  /** A section's URL without its trailing slash, below the parent's. */
  function SectionPath(nm: Naming, parent: string, f: Node): string
  {
    parent + "/" + nm.sectionSlug(f)
  }

  function SectionUrl(nm: Naming, parent: string, f: Node): (r: string)
    ensures StartsWith(r, parent + "/") && EndsWith(r, "/")
  {
    SectionPath(nm, parent, f) + "/"
  }

  function PageUrl(nm: Naming, parent: string, f: Node): (r: string)
    ensures StartsWith(r, parent + "/")
  {
    parent + "/" + nm.pageSlug(f)
  }

  /** No segment of `k` from position `from` on is hidden. */
  predicate VisibleFrom(k: Path, from: nat)
  {
    forall j :: from <= j < |k| ==> !IsHidden(k[j])
  }

  /** Every URL in `m` starts with `prefix`. */
  predicate ValuesStart(m: UrlTable, prefix: string)
  {
    forall k :: k in m ==> StartsWith(m[k], prefix)
  }

  /** The entries the scan records for `n`, found in directory `dir` of the
      section whose URL path is `parent`. A later entry of the same key wins,
      as with `Map.set`. */
  function EntryUrls(nm: Naming, n: Node, dir: Path, parent: string): UrlTable
    decreases n
  {
    if IsHidden(n.name) then map[]
    else if n.Folder? then
      var here := dir + [n.name];
      var url := SectionUrl(nm, parent, n);
      var index: UrlTable := if FindChild(n.children, IndexName).Some? then map[here + [IndexName] := url] else map[];
      index[here := url] + ChildrenUrls(nm, n.children, here, SectionPath(nm, parent, n))
    else if IsMarkdown(n.name) && n.name != IndexName then map[dir + [n.name] := PageUrl(nm, parent, n)]
    else map[]
  }

  /** The entries recorded for the directory `dir` holding `cs`. */
  function ChildrenUrls(nm: Naming, cs: seq<Node>, dir: Path, parent: string): UrlTable
    decreases cs
  {
    if cs == [] then map[]
    else EntryUrls(nm, cs[0], dir, parent) + ChildrenUrls(nm, cs[1..], dir, parent)
  }

  /** `buildUrlMap`: the table for the whole content directory. */
  function BuildUrlMap(root: seq<Node>): UrlTable
  {
    ChildrenUrls(Site, root, [], "")
  }

  /** `buildUrlMap` as written, slugging the first-`.md` stem of a page. */
  function BuildUrlMapAsWritten(root: seq<Node>): UrlTable
  {
    ChildrenUrls(SiteAsWritten, root, [], "")
  }

  /** A key recorded for `n` lies below `n`, through visible entries only. */
  lemma {:induction false} EntryKey(nm: Naming, n: Node, dir: Path, parent: string, k: Path)
    requires k in EntryUrls(nm, n, dir, parent)
    ensures dir + [n.name] <= k && VisibleFrom(k, |dir|)
    decreases n
  {
    if n.Folder? {
      var here := dir + [n.name];
      if k in ChildrenUrls(nm, n.children, here, SectionPath(nm, parent, n)) {
        ChildrenKey(nm, n.children, here, SectionPath(nm, parent, n), k);
        assert k[|dir|] == n.name;
      }
    }
  }

  /** A key recorded for a directory lies below it, names one of its entries,
      and passes through visible entries only. */
  lemma {:induction false} ChildrenKey(nm: Naming, cs: seq<Node>, dir: Path, parent: string, k: Path)
    requires k in ChildrenUrls(nm, cs, dir, parent)
    ensures dir < k && VisibleFrom(k, |dir|) && FindChild(cs, k[|dir|]).Some?
    decreases cs
  {
    if k in EntryUrls(nm, cs[0], dir, parent) {
      EntryKey(nm, cs[0], dir, parent, k);
      assert k[|dir|] == cs[0].name;
    } else {
      ChildrenKey(nm, cs[1..], dir, parent, k);
    }
  }

  /** Every URL recorded for `n` lies below its section's URL path. */
  lemma {:induction false} EntryValues(nm: Naming, n: Node, dir: Path, parent: string)
    ensures ValuesStart(EntryUrls(nm, n, dir, parent), parent + "/")
    decreases n
  {
    if !IsHidden(n.name) && n.Folder? {
      var here := dir + [n.name];
      var inner := ChildrenUrls(nm, n.children, here, SectionPath(nm, parent, n));
      ChildrenValues(nm, n.children, here, SectionPath(nm, parent, n));
      forall k | k in inner
        ensures StartsWith(inner[k], parent + "/")
      {
        StartsWithShorter(inner[k], parent + "/", nm.sectionSlug(n) + "/");
      }
    }
  }

  lemma {:induction false} ChildrenValues(nm: Naming, cs: seq<Node>, dir: Path, parent: string)
    ensures ValuesStart(ChildrenUrls(nm, cs, dir, parent), parent + "/")
    decreases cs
  {
    if cs != [] {
      EntryValues(nm, cs[0], dir, parent);
      ChildrenValues(nm, cs[1..], dir, parent);
    }
  }

  /** Hidden entries, and everything below them, get no URL; the content root
      itself gets none; every URL is absolute. */
  lemma TableShape(root: seq<Node>)
    ensures forall k :: k in BuildUrlMap(root) ==> k != [] && VisibleFrom(k, 0)
    ensures ValuesStart(BuildUrlMap(root), "/")
  {
    forall k | k in BuildUrlMap(root)
      ensures k != [] && VisibleFrom(k, 0)
    {
      ChildrenKey(Site, root, [], "", k);
    }
    ChildrenValues(Site, root, [], "");
  }

  /** The reference reading of the table: walk down `p` from the entries `cs`
      of the section whose URL path is `parent`. */
  function UrlOf(nm: Naming, cs: seq<Node>, p: Path, parent: string): Option<string>
    decreases |p|, 0
  {
    if p == [] then None
    else match FindChild(cs, p[0])
      case None => None
      case Some(n) => UrlBelow(nm, n, p[1..], parent)
  }

  /** The URL of `n` itself when `q` is empty, else of the entry at `q` inside it. */
  function UrlBelow(nm: Naming, n: Node, q: Path, parent: string): Option<string>
    decreases |q|, 1
  {
    if IsHidden(n.name) then None
    else if n.Folder? then
      if q == [] then Some(SectionUrl(nm, parent, n))
      else if q == [IndexName] && FindChild(n.children, IndexName).Some? then Some(SectionUrl(nm, parent, n))
      else UrlOf(nm, n.children, q, SectionPath(nm, parent, n))
    else if q == [] && IsPage(n) then Some(PageUrl(nm, parent, n))
    else None
  }

  /** In a well-formed directory the scan records exactly the locations the
      walk finds, with the same URLs. */
  lemma {:induction false} ChildrenUrlsAt(nm: Naming, cs: seq<Node>, dir: Path, parent: string, p: Path)
    requires WellFormed(cs)
    ensures dir + p in ChildrenUrls(nm, cs, dir, parent) <==> UrlOf(nm, cs, p, parent).Some?
    ensures dir + p in ChildrenUrls(nm, cs, dir, parent) ==> ChildrenUrls(nm, cs, dir, parent)[dir + p] == UrlOf(nm, cs, p, parent).value
    decreases cs
  {
    var k := dir + p;
    assert k[..|dir|] == dir;
    if p == [] {
      if k in ChildrenUrls(nm, cs, dir, parent) {
        ChildrenKey(nm, cs, dir, parent, k);
      }
    } else if cs != [] {
      var head := EntryUrls(nm, cs[0], dir, parent);
      var tail := ChildrenUrls(nm, cs[1..], dir, parent);
      WellFormedTail(cs);
      assert k[|dir|] == p[0];
      if p[0] == cs[0].name {
        assert FindChild(cs[1..], p[0]).None? by {
          forall i | 0 <= i < |cs[1..]|
            ensures cs[1..][i].name != p[0]
          {
            assert cs[1..][i] == cs[i + 1];
          }
        }
        if k in tail {
          ChildrenKey(nm, cs[1..], dir, parent, k);
        }
        EntryUrlsAt(nm, cs[0], dir, parent, p[1..]);
        assert [cs[0].name] + p[1..] == p;
      } else {
        if k in head {
          EntryKey(nm, cs[0], dir, parent, k);
        }
        ChildrenUrlsAt(nm, cs[1..], dir, parent, p);
      }
    }
  }

  lemma {:induction false} EntryUrlsAt(nm: Naming, n: Node, dir: Path, parent: string, q: Path)
    requires n.Folder? ==> WellFormed(n.children) && !IsMarkdown(n.name)
    ensures dir + ([n.name] + q) in EntryUrls(nm, n, dir, parent) <==> UrlBelow(nm, n, q, parent).Some?
    ensures dir + ([n.name] + q) in EntryUrls(nm, n, dir, parent) ==> EntryUrls(nm, n, dir, parent)[dir + ([n.name] + q)] == UrlBelow(nm, n, q, parent).value
    decreases n
  {
    var here := dir + [n.name];
    var k := dir + ([n.name] + q);
    assert k == here + q;
    if q == [] {
      assert k == here;
    }
    if !IsHidden(n.name) && n.Folder? {
      if q != [] {
        ChildrenUrlsAt(nm, n.children, here, SectionPath(nm, parent, n), q);
      }
      FolderUrlsAt(nm, n, dir, parent, q);
    }
  }

  /** The folder case of `EntryUrlsAt`, given the result for its entries. */
  lemma FolderUrlsAt(nm: Naming, n: Node, dir: Path, parent: string, q: Path)
    requires n.Folder? && !IsHidden(n.name) && WellFormed(n.children)
    requires q != [] ==>
      var inner := ChildrenUrls(nm, n.children, dir + [n.name], SectionPath(nm, parent, n));
      && (dir + [n.name] + q in inner <==> UrlOf(nm, n.children, q, SectionPath(nm, parent, n)).Some?)
      && (dir + [n.name] + q in inner ==> inner[dir + [n.name] + q] == UrlOf(nm, n.children, q, SectionPath(nm, parent, n)).value)
    ensures dir + [n.name] + q in EntryUrls(nm, n, dir, parent) <==> UrlBelow(nm, n, q, parent).Some?
    ensures dir + [n.name] + q in EntryUrls(nm, n, dir, parent) ==> EntryUrls(nm, n, dir, parent)[dir + [n.name] + q] == UrlBelow(nm, n, q, parent).value
  {
    var here := dir + [n.name];
    var k := here + q;
    var sp := SectionPath(nm, parent, n);
    var inner := ChildrenUrls(nm, n.children, here, sp);
    var url := SectionUrl(nm, parent, n);
    var index: UrlTable := if FindChild(n.children, IndexName).Some? then map[here + [IndexName] := url] else map[];
    assert EntryUrls(nm, n, dir, parent) == index[here := url] + inner;
    if q == [] {
      assert k == here;
      if k in inner {
        ChildrenKey(nm, n.children, here, sp, k);
      }
    } else {
      assert k != here;
      assert k[|here|..] == q;
      assert (here + [IndexName])[|here|..] == [IndexName];
      if q == [IndexName] && FindChild(n.children, IndexName).Some? {
        IndexIsNotPage(nm, n.children, sp);
      }
    }
  }

  /** A folder's `_index.md` has no URL of its own among the folder's entries. */
  lemma IndexIsNotPage(nm: Naming, cs: seq<Node>, parent: string)
    requires WellFormed(cs)
    ensures UrlOf(nm, cs, [IndexName], parent).None?
  {
    if FindChild(cs, IndexName).Some? {
      var idx := FindChild(cs, IndexName).value;
      assert IsMarkdown(IndexName);
      assert idx.File?;
      assert [IndexName][1..] == [];
    }
  }

  /** The whole table agrees with the walk from the content root. */
  lemma TableAt(root: seq<Node>, p: Path)
    requires WellFormed(root)
    ensures p in BuildUrlMap(root) <==> UrlOf(Site, root, p, "").Some?
    ensures p in BuildUrlMap(root) ==> BuildUrlMap(root)[p] == UrlOf(Site, root, p, "").value
  {
    ChildrenUrlsAt(Site, root, [], "", p);
    assert [] + p == p;
  }

  /** The entries of a visible section and its URL path (the content root's is empty). */
  datatype Section = Section(entries: seq<Node>, path: string)

  /** The visible section at `d`, reached through visible folders only. */
  function SectionAt(nm: Naming, cs: seq<Node>, d: Path, parent: string): Option<Section>
    decreases d
  {
    if d == [] then Some(Section(cs, parent))
    else match FindChild(cs, d[0])
      case None => None
      case Some(f) => if IsSection(f) then SectionAt(nm, f.children, d[1..], SectionPath(nm, parent, f)) else None
  }

  lemma {:induction false} SectionWellFormed(nm: Naming, cs: seq<Node>, d: Path, parent: string)
    requires WellFormed(cs) && SectionAt(nm, cs, d, parent).Some?
    ensures WellFormed(SectionAt(nm, cs, d, parent).value.entries)
    decreases d
  {
    if d != [] {
      var f := FindChild(cs, d[0]).value;
      WellFormedChild(cs, f);
      SectionWellFormed(nm, f.children, d[1..], SectionPath(nm, parent, f));
    }
  }

  /** A visible folder inside a section is itself a section, one level down. */
  lemma {:induction false} SectionChild(nm: Naming, cs: seq<Node>, d: Path, parent: string, f: Node)
    requires WellFormed(cs) && SectionAt(nm, cs, d, parent).Some?
    requires f in SectionAt(nm, cs, d, parent).value.entries && IsSection(f)
    ensures SectionAt(nm, cs, d + [f.name], parent)
      == Some(Section(f.children, SectionPath(nm, SectionAt(nm, cs, d, parent).value.path, f)))
    decreases d
  {
    if d == [] {
      FindChildOfMember(cs, f);
      assert [] + [f.name] == [f.name];
    } else {
      var g := FindChild(cs, d[0]).value;
      WellFormedChild(cs, g);
      SectionChild(nm, g.children, d[1..], SectionPath(nm, parent, g), f);
      assert (d + [f.name])[1..] == d[1..] + [f.name];
    }
  }

  /** Walking to `d1 + d2` is walking to `d1`, then on to `d2`. */
  lemma {:induction false} SectionAtAppend(nm: Naming, cs: seq<Node>, d1: Path, d2: Path, parent: string)
    ensures SectionAt(nm, cs, d1 + d2, parent)
      == match SectionAt(nm, cs, d1, parent)
         case None => None
         case Some(s) => SectionAt(nm, s.entries, d2, s.path)
    decreases d1
  {
    if d1 == [] {
      assert d1 + d2 == d2;
    } else {
      assert (d1 + d2)[0] == d1[0];
      assert (d1 + d2)[1..] == d1[1..] + d2;
      match FindChild(cs, d1[0])
      case None =>
      case Some(f) =>
        if IsSection(f) {
          SectionAtAppend(nm, f.children, d1[1..], d2, SectionPath(nm, parent, f));
        }
    }
  }

  /** The entry named `x` in the section at `d` is the entry at `d + [x]`. */
  lemma {:induction false} NodeAtSection(nm: Naming, cs: seq<Node>, d: Path, parent: string, x: string)
    requires SectionAt(nm, cs, d, parent).Some?
    ensures NodeAt(cs, d + [x]) == FindChild(SectionAt(nm, cs, d, parent).value.entries, x)
    decreases d
  {
    if d == [] {
      assert d + [x] == [x];
    } else {
      var f := FindChild(cs, d[0]).value;
      assert (d + [x])[0] == d[0];
      assert (d + [x])[1..] == d[1..] + [x];
      NodeAtSection(nm, f.children, d[1..], SectionPath(nm, parent, f), x);
    }
  }

  /** Every segment on the way to a section of a well-formed tree is a valid name. */
  lemma {:induction false} SectionNamesValid(nm: Naming, cs: seq<Node>, d: Path, parent: string)
    requires WellFormed(cs) && SectionAt(nm, cs, d, parent).Some?
    ensures forall i :: 0 <= i < |d| ==> ValidName(d[i])
    decreases d
  {
    if d != [] {
      var f := FindChild(cs, d[0]).value;
      WellFormedChild(cs, f);
      SectionNamesValid(nm, f.children, d[1..], SectionPath(nm, parent, f));
      assert forall i :: 1 <= i < |d| ==> d[i] == d[1..][i - 1];
    }
  }

  /** An index file is never a section. */
  lemma IndexIsNotSection(nm: Naming, cs: seq<Node>, parent: string)
    requires WellFormed(cs)
    ensures SectionAt(nm, cs, [IndexName], parent).None?
  {
    assert IsMarkdown(IndexName);
  }

  /** Below a section, the walk continues from the section's entries and URL path. */
  lemma {:induction false} UrlOfDescend(nm: Naming, cs: seq<Node>, d: Path, parent: string, q: Path)
    requires WellFormed(cs) && SectionAt(nm, cs, d, parent).Some?
    requires q != [] && (d != [] ==> q != [IndexName])
    ensures UrlOf(nm, cs, d + q, parent)
      == UrlOf(nm, SectionAt(nm, cs, d, parent).value.entries, q, SectionAt(nm, cs, d, parent).value.path)
    decreases d
  {
    if d == [] {
      assert d + q == q;
    } else {
      var f := FindChild(cs, d[0]).value;
      WellFormedChild(cs, f);
      assert (d + q)[0] == d[0];
      assert (d + q)[1..] == d[1..] + q;
      if d[1..] == [] {
        assert d[1..] + q == q;
      }
      UrlOfDescend(nm, f.children, d[1..], SectionPath(nm, parent, f), q);
    }
  }

  /** A section's own URL, and its index page's, is its URL path plus `/`. */
  lemma {:induction false} SectionOwnUrl(nm: Naming, cs: seq<Node>, d: Path, parent: string)
    requires WellFormed(cs) && d != [] && SectionAt(nm, cs, d, parent).Some?
    ensures UrlOf(nm, cs, d, parent) == Some(SectionAt(nm, cs, d, parent).value.path + "/")
    ensures FindChild(SectionAt(nm, cs, d, parent).value.entries, IndexName).Some? ==>
      UrlOf(nm, cs, d + [IndexName], parent) == Some(SectionAt(nm, cs, d, parent).value.path + "/")
    decreases d
  {
    var f := FindChild(cs, d[0]).value;
    WellFormedChild(cs, f);
    assert (d + [IndexName])[0] == d[0];
    assert (d + [IndexName])[1..] == d[1..] + [IndexName];
    if |d| > 1 {
      if d[1..] == [IndexName] {
        IndexIsNotSection(nm, f.children, SectionPath(nm, parent, f));
      }
      SectionOwnUrl(nm, f.children, d[1..], SectionPath(nm, parent, f));
    } else {
      assert d[1..] + [IndexName] == [IndexName];
    }
  }

  /** A visible folder in any section gets the section's URL path, `/`, its
      slug and `/`; so does its index page. */
  lemma FolderEntry(root: seq<Node>, d: Path, c: Node)
    requires WellFormed(root) && SectionAt(Site, root, d, "").Some?
    requires c in SectionAt(Site, root, d, "").value.entries && IsSection(c)
    ensures d + [c.name] in BuildUrlMap(root)
    ensures BuildUrlMap(root)[d + [c.name]] == SectionAt(Site, root, d, "").value.path + "/" + Slugify(FolderTitle(c)) + "/"
    ensures FindChild(c.children, IndexName).Some? ==>
      d + [c.name, IndexName] in BuildUrlMap(root) && BuildUrlMap(root)[d + [c.name, IndexName]] == BuildUrlMap(root)[d + [c.name]]
  {
    var s := SectionAt(Site, root, d, "").value;
    SectionWellFormed(Site, root, d, "");
    FindChildOfMember(s.entries, c);
    SectionChild(Site, root, d, "", c);
    SectionOwnUrl(Site, root, d + [c.name], "");
    TableAt(root, d + [c.name]);
    TableAt(root, d + [c.name] + [IndexName]);
    assert d + [c.name] + [IndexName] == d + [c.name, IndexName];
  }

  /** A page in any section gets the section's URL path, `/` and its slug. */
  lemma PageEntry(root: seq<Node>, d: Path, c: Node)
    requires WellFormed(root) && SectionAt(Site, root, d, "").Some?
    requires c in SectionAt(Site, root, d, "").value.entries && IsPage(c)
    ensures d + [c.name] in BuildUrlMap(root)
    ensures BuildUrlMap(root)[d + [c.name]] == SectionAt(Site, root, d, "").value.path + "/" + Slugify(PageTitle(c))
  {
    var s := SectionAt(Site, root, d, "").value;
    SectionWellFormed(Site, root, d, "");
    FindChildOfMember(s.entries, c);
    TableAt(root, d + [c.name]);
    UrlOfDescend(Site, root, d, "", [c.name]);
  }

  /** Hidden entries and files that are neither pages nor index pages get no entry. */
  lemma UnlistedEntry(root: seq<Node>, d: Path, c: Node)
    requires WellFormed(root) && SectionAt(Site, root, d, "").Some?
    requires c in SectionAt(Site, root, d, "").value.entries
    requires !IsSection(c) && !IsPage(c) && c.name != IndexName
    ensures d + [c.name] !in BuildUrlMap(root)
  {
    var s := SectionAt(Site, root, d, "").value;
    SectionWellFormed(Site, root, d, "");
    FindChildOfMember(s.entries, c);
    TableAt(root, d + [c.name]);
    UrlOfDescend(Site, root, d, "", [c.name]);
  }

  /** A section's own entry in the table is its URL path plus `/`; so is its
      index page's. */
  lemma SectionIndex(root: seq<Node>, d: Path)
    requires WellFormed(root) && d != [] && SectionAt(Site, root, d, "").Some?
    ensures d in BuildUrlMap(root) && BuildUrlMap(root)[d] == SectionAt(Site, root, d, "").value.path + "/"
    ensures FindChild(SectionAt(Site, root, d, "").value.entries, IndexName).Some? ==>
      d + [IndexName] in BuildUrlMap(root) && BuildUrlMap(root)[d + [IndexName]] == SectionAt(Site, root, d, "").value.path + "/"
  {
    SectionOwnUrl(Site, root, d, "");
    TableAt(root, d);
    TableAt(root, d + [IndexName]);
  }

  predicate IsSlash(c: char) { c == '/' }

  /** The URL `getUrlPath` falls back to: the relative path with the `.md`
      extension and a final `_index` removed, rooted, ending in `/`, and with
      runs of `/` collapsed. */
  function FallbackUrl(p: Path): (r: string)
    ensures |r| > 0 && r[0] == '/' && r[|r| - 1] == '/' && NoDouble(r, '/')
  {
    var rel := ReplaceChar(JoinPath(p), '\\', '/');
    var stem := DropSuffix(DropSuffix(rel, ".md"), "_index");
    var rooted := "/" + stem;
    var slashed := if EndsWith(rooted, "/") then rooted else rooted + "/";
    assert slashed[0] == '/';
    assert slashed[|slashed| - 1] == '/';
    CollapseRunsEnds(slashed, IsSlash, '/', false);
    CollapseRunsNoDouble(slashed, IsSlash, '/', false);
    CollapseRuns(slashed, IsSlash, '/', false)
  }

  /** The content root's own index page falls back to `/`. */
  lemma FallbackRootIndex()
    ensures FallbackUrl([IndexName]) == "/"
  {
    var rel := ReplaceChar(JoinPath([IndexName]), '\\', '/');
    assert rel == IndexName;
    assert DropSuffix(rel, ".md") == "_index";
    assert DropSuffix("_index", "_index") == "";
    assert CollapseRuns("/", IsSlash, '/', false) == "/";
  }

  /** `getUrlPath`: the table's entry for the file, else its directory's entry,
      else the fallback URL. */
  function GetUrlPath(table: UrlTable, filePath: Path): (r: string)
    ensures filePath in table ==> r == table[filePath]
    ensures filePath !in table && |filePath| > 0 && filePath[..|filePath| - 1] in table ==> r == table[filePath[..|filePath| - 1]]
    ensures filePath !in table && !(|filePath| > 0 && filePath[..|filePath| - 1] in table) ==> r == FallbackUrl(filePath)
    ensures filePath in table || (|filePath| > 0 && filePath[..|filePath| - 1] in table) ==> r in table.Values
    ensures filePath !in table && !(|filePath| > 0 && filePath[..|filePath| - 1] in table) ==>
      |r| > 0 && r[0] == '/' && r[|r| - 1] == '/' && NoDouble(r, '/')
  {
    if filePath in table then
      assert table[filePath] in table.Values;
      table[filePath]
    else if |filePath| > 0 && filePath[..|filePath| - 1] in table then
      var dir := filePath[..|filePath| - 1];
      assert table[dir] in table.Values;
      table[dir]
    else
      var u := FallbackUrl(filePath);
      assert |u| > 0 && u[0] == '/' && u[|u| - 1] == '/' && NoDouble(u, '/');
      u
  }

  /** Every markdown file the generator renders gets its URL: a page its own
      entry, an index page its section's URL (for the content root, `/`). */
  lemma RenderedUrl(root: seq<Node>, d: Path, c: Node)
    requires WellFormed(root) && SectionAt(Site, root, d, "").Some?
    requires c in SectionAt(Site, root, d, "").value.entries
    requires c.File? && !IsHidden(c.name) && IsMarkdown(c.name)
    ensures GetUrlPath(BuildUrlMap(root), d + [c.name])
      == if c.name == IndexName then SectionAt(Site, root, d, "").value.path + "/"
         else SectionAt(Site, root, d, "").value.path + "/" + Slugify(PageTitle(c))
  {
    var s := SectionAt(Site, root, d, "").value;
    if c.name != IndexName {
      PageEntry(root, d, c);
    } else if d != [] {
      SectionWellFormed(Site, root, d, "");
      FindChildOfMember(s.entries, c);
      SectionIndex(root, d);
    } else {
      IndexIsNotPage(Site, root, "");
      TableAt(root, [IndexName]);
      TableShape(root);
      assert [IndexName][..0] == [];
      FallbackRootIndex();
    }
  }

  /** Every page of the tree loses the same stem to first-occurrence removal
      as to suffix removal. */
  predicate StemsAgree(cs: seq<Node>)
    decreases cs
  {
    forall i :: 0 <= i < |cs| ==>
      && (IsPage(cs[i]) ==> StemAsWritten(cs[i].name) == PageStem(cs[i].name))
      && (cs[i].Folder? ==> StemsAgree(cs[i].children))
  }

  lemma {:induction false} EntryUrlsAgree(n: Node, dir: Path, parent: string)
    requires IsPage(n) ==> StemAsWritten(n.name) == PageStem(n.name)
    requires n.Folder? ==> StemsAgree(n.children)
    ensures EntryUrls(SiteAsWritten, n, dir, parent) == EntryUrls(Site, n, dir, parent)
    decreases n
  {
    if !IsHidden(n.name) && n.Folder? {
      assert SectionPath(SiteAsWritten, parent, n) == SectionPath(Site, parent, n);
      ChildrenUrlsAgree(n.children, dir + [n.name], SectionPath(Site, parent, n));
    } else if IsPage(n) {
      assert PageTitleAsWritten(n) == PageTitle(n);
    }
  }

  lemma {:induction false} ChildrenUrlsAgree(cs: seq<Node>, dir: Path, parent: string)
    requires StemsAgree(cs)
    ensures ChildrenUrls(SiteAsWritten, cs, dir, parent) == ChildrenUrls(Site, cs, dir, parent)
    decreases cs
  {
    if cs != [] {
      EntryUrlsAgree(cs[0], dir, parent);
      assert forall i :: 0 <= i < |cs[1..]| ==> cs[1..][i] == cs[i + 1];
      ChildrenUrlsAgree(cs[1..], dir, parent);
    }
  }

  /** Where no page has `.md` before its extension, the table as written is
      the corrected table. */
  lemma AsWrittenTableAgrees(root: seq<Node>)
    requires StemsAgree(root)
    ensures BuildUrlMapAsWritten(root) == BuildUrlMap(root)
  {
    ChildrenUrlsAgree(root, [], "");
  }

  /** The URL pass as written and the corrected one give `notes.md-draft.md`
      different URLs: the letters of `Notes Draft.Md` and of `Notes.Md Draft`
      come in different orders. */
  lemma AsWrittenUrlDiffers()
    ensures ["notes.md-draft.md"] in BuildUrlMapAsWritten([File("notes.md-draft.md", None)])
    ensures ["notes.md-draft.md"] in BuildUrlMap([File("notes.md-draft.md", None)])
    ensures BuildUrlMapAsWritten([File("notes.md-draft.md", None)])[["notes.md-draft.md"]] == "/" + Slugify("Notes Draft.Md")
    ensures BuildUrlMap([File("notes.md-draft.md", None)])[["notes.md-draft.md"]] == "/" + Slugify("Notes.Md Draft")
    ensures BuildUrlMapAsWritten([File("notes.md-draft.md", None)])[["notes.md-draft.md"]]
         != BuildUrlMap([File("notes.md-draft.md", None)])[["notes.md-draft.md"]]
  {
    var f := File("notes.md-draft.md", None);
    NotesDraftIsPage();
    AsWrittenTitleDiffers();
    LoneFileUrl(SiteAsWritten, f);
    LoneFileUrl(Site, f);
    assert SiteAsWritten.pageSlug(f) == Slugify("Notes Draft.Md");
    assert Site.pageSlug(f) == Slugify("Notes.Md Draft");
    NotesDraftSlugsDiffer();
  }

  lemma NotesDraftIsPage()
    ensures IsPage(File("notes.md-draft.md", None))
  {
    assert "notes.md-draft.md"[14..] == ".md";
    assert "notes.md-draft.md"[0] != IndexName[0];
  }

  /** A root holding one visible page records just that page. */
  lemma LoneFileUrl(nm: Naming, f: Node)
    requires IsPage(f)
    ensures ChildrenUrls(nm, [f], [], "") == map[[f.name] := "/" + nm.pageSlug(f)]
  {
    assert [f][1..] == [];
    assert ChildrenUrls(nm, [f], [], "") == EntryUrls(nm, f, [], "") + ChildrenUrls(nm, [], [], "");
    assert [] + [f.name] == [f.name];
    assert PageUrl(nm, "", f) == "/" + nm.pageSlug(f);
  }

  /** Two strings agreeing up to a non-alphanumeric character followed by
      different letters have different letters and digits. */
  lemma AlnumsDifferAfter(u: string, a: string, b: string)
    requires |a| > 1 && |b| > 1 && !IsLowerAlnum(a[0]) && !IsLowerAlnum(b[0])
    requires IsLowerAlnum(a[1]) && IsLowerAlnum(b[1]) && a[1] != b[1]
    ensures Alnums(u + a) != Alnums(u + b)
  {
    FilterConcat(u, a, IsLowerAlnum);
    FilterConcat(u, b, IsLowerAlnum);
    FilterDropFirst(a, IsLowerAlnum);
    FilterDropFirst(b, IsLowerAlnum);
    var n := |Alnums(u)|;
    assert Alnums(u + a)[n] == a[1];
    assert Alnums(u + b)[n] == b[1];
  }

  lemma LowerNotesDraft()
    ensures Lower("Notes Draft.Md") == "notes" + " draft.md"
  {
  }

  lemma LowerNotesMdDraft()
    ensures Lower("Notes.Md Draft") == "notes" + ".md draft"
  {
  }

  lemma NotesDraftSlugsDiffer()
    ensures Slugify("Notes Draft.Md") != Slugify("Notes.Md Draft")
  {
    LowerNotesDraft();
    LowerNotesMdDraft();
    AlnumsDifferAfter("notes", " draft.md", ".md draft");
    SlugifyDistinguishes("Notes Draft.Md", "Notes.Md Draft");
  }
}
