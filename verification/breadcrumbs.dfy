/** The breadcrumb trail of a rendered page: Home, then one crumb for each
    folder on the way that has a URL, then the page itself. */
module Breadcrumbs {
  import opened Wrappers
  import opened Strings
  import opened Slug
  import opened Content
  import opened UrlMap

  datatype Crumb = Crumb(title: string, url: string)

  const Home: Crumb := Crumb("Home", "/")

  /** `split('/').filter(Boolean)`: the non-empty segments, in order. */
  function NonEmpty(p: Path): (r: Path)
    ensures |r| <= |p|
    ensures forall i :: 0 <= i < |r| ==> r[i] != "" && r[i] in p
    ensures forall i :: 0 <= i < |p| && p[i] != "" ==> p[i] in r
    ensures (forall i :: 0 <= i < |p| ==> p[i] != "") ==> r == p
  {
    if p == [] then []
    else
      var r := (if p[0] == "" then [] else [p[0]]) + NonEmpty(p[1..]);
      assert forall i :: 1 <= i < |p| ==> p[i] == p[1..][i - 1];
      r
  }

  /** Dropping empty segments works piece by piece, so the kept segments
      stay in their order. */
  lemma {:induction false} NonEmptyAppend(a: Path, b: Path)
    ensures NonEmpty(a + b) == NonEmpty(a) + NonEmpty(b)
    decreases |a|
  {
    if a == [] {
      assert a + b == b;
    } else {
      assert (a + b)[0] == a[0];
      assert (a + b)[1..] == a[1..] + b;
      NonEmptyAppend(a[1..], b);
    }
  }

  /** A single segment is kept exactly when it is not empty. */
  lemma NonEmptyOne(x: string)
    ensures NonEmpty([x]) == if x == "" then [] else [x]
  {
    assert [x][1..] == [];
  }

  /** The frontmatter title of the file at `p`, if it is a file with one. */
  function FrontmatterAt(root: seq<Node>, p: Path): Option<string>
  {
    match NodeAt(root, p)
    case Some(File(_, t)) => t
    case _ => None
  }

  /** The title a directory crumb shows: the folder's title when there is a
      folder at `cur`, else the formatted segment. */
  function DirTitle(root: seq<Node>, cur: Path): string
    requires cur != []
  {
    match NodeAt(root, cur)
    case Some(f) => if f.Folder? then FolderTitle(f) else FormatTitle(cur[|cur| - 1])
    case None => FormatTitle(cur[|cur| - 1])
  }

  /** `p` with the first `.md` in any segment removed, as `String.replace`
      does on the joined path. */
  function DropFirstMd(p: Path): (r: Path)
    ensures |r| == |p|
  {
    if p == [] then []
    else if Contains(p[0], ".md") then [StemAsWritten(p[0])] + p[1..]
    else [p[0]] + DropFirstMd(p[1..])
  }

  /** The key the source looks a page crumb up under:
      `path.replace('.md', '') + '.md'`. */
  function PageKeyAsWritten(cur: Path): Path
    requires cur != []
  {
    var r := DropFirstMd(cur);
    r[..|r| - 1] + [r[|r| - 1] + ".md"]
  }

  /** The crumb for the page segment ending `cur`, when its URL is known.
      `asWritten` selects the source's lookup key and title stem; otherwise
      the page's own location and `PageStem` are used. */
  function PageCrumb(root: seq<Node>, table: UrlTable, cur: Path, asWritten: bool): (r: seq<Crumb>)
    requires cur != []
    ensures |r| <= 1
    ensures forall i :: 0 <= i < |r| ==> r[i].url != "" && r[i].url in table.Values
  {
    var key := if asWritten then PageKeyAsWritten(cur) else cur;
    if key in table && table[key] != "" then
      var part := cur[|cur| - 1];
      var stem := if asWritten then StemAsWritten(part) else PageStem(part);
      var title := match Truthy(FrontmatterAt(root, cur)) case Some(t) => t case None => FormatTitle(stem);
      [Crumb(title, table[key])]
    else []
  }

  /** The crumb for the directory segment ending `cur`, when its URL is known. */
  function DirCrumb(root: seq<Node>, table: UrlTable, cur: Path): (r: seq<Crumb>)
    requires cur != []
    ensures |r| <= 1
    ensures forall i :: 0 <= i < |r| ==> r[i].url != "" && r[i].url in table.Values
  {
    if cur in table && table[cur] != "" then [Crumb(DirTitle(root, cur), table[cur])] else []
  }

  /** The crumbs for the segments `rest`, below the segments `done`: an index
      segment adds nothing, a `.md` segment adds its page crumb, any other its
      directory crumb, each only when the table has a URL for it. */
  function Walk(root: seq<Node>, table: UrlTable, done: Path, rest: Path, asWritten: bool): (r: seq<Crumb>)
    ensures |r| <= |rest|
    ensures forall i :: 0 <= i < |r| ==> r[i].url != "" && r[i].url in table.Values
    decreases rest
  {
    if rest == [] then []
    else
      var part := rest[0];
      var cur := done + [part];
      var here := if part == IndexName then []
        else if IsMarkdown(part) then PageCrumb(root, table, cur, asWritten)
        else DirCrumb(root, table, cur);
      here + Walk(root, table, cur, rest[1..], asWritten)
  }

  /** The breadcrumbs of the page at `filePath`: Home at `/`, then the walk. */
  function Breadcrumbs(root: seq<Node>, table: UrlTable, filePath: Path): (r: seq<Crumb>)
    ensures |r| >= 1 && r[0] == Home
    ensures |r| <= 1 + |filePath|
    ensures forall i :: 1 <= i < |r| ==> r[i].url != "" && r[i].url in table.Values
  {
    [Home] + Walk(root, table, [], NonEmpty(filePath), false)
  }

  /** The breadcrumbs as the source computes them, with the first-`.md` key. */
  function BreadcrumbsAsWritten(root: seq<Node>, table: UrlTable, filePath: Path): (r: seq<Crumb>)
    ensures |r| >= 1 && r[0] == Home
    ensures |r| <= 1 + |filePath|
  {
    [Home] + Walk(root, table, [], NonEmpty(filePath), true)
  }

  /** The reference trail: a crumb for each visible folder along `d`, with its
      title and its section URL. */
  function Trail(cs: seq<Node>, d: Path, parent: string): seq<Crumb>
    decreases d
  {
    if d == [] then []
    else match FindChild(cs, d[0])
      case None => []
      case Some(f) =>
        if IsSection(f) then [Crumb(FolderTitle(f), SectionUrl(Site, parent, f))] + Trail(f.children, d[1..], SectionPath(Site, parent, f))
        else []
  }

  /** The crumb a markdown file adds for itself: none for an index page. */
  function LastCrumb(c: Node, path: string): seq<Crumb>
    requires c.File?
  {
    if c.name == IndexName then [] else [Crumb(PageTitle(c), path + "/" + Slugify(PageTitle(c)))]
  }

  /** The last step of a walk: a markdown file adds its own crumb. */
  lemma PageStep(root: seq<Node>, done: Path, c: Node)
    requires WellFormed(root) && SectionAt(Site, root, done, "").Some?
    requires c in SectionAt(Site, root, done, "").value.entries
    requires c.File? && !IsHidden(c.name) && IsMarkdown(c.name)
    ensures Walk(root, BuildUrlMap(root), done, [c.name], false) == LastCrumb(c, SectionAt(Site, root, done, "").value.path)
  {
    var s := SectionAt(Site, root, done, "").value;
    SectionWellFormed(Site, root, done, "");
    FindChildOfMember(s.entries, c);
    NodeAtSection(Site, root, done, "", c.name);
    if c.name != IndexName {
      PageEntry(root, done, c);
    }
  }

  /** A step through a visible folder adds the folder's crumb and enters its
      section. */
  lemma FolderStep(root: seq<Node>, done: Path, rest: Path)
    requires WellFormed(root) && SectionAt(Site, root, done, "").Some?
    requires rest != []
    requires var f := FindChild(SectionAt(Site, root, done, "").value.entries, rest[0]); f.Some? && IsSection(f.value)
    ensures var s := SectionAt(Site, root, done, "").value;
      var f := FindChild(s.entries, rest[0]).value;
      && SectionAt(Site, root, done + [rest[0]], "") == Some(Section(f.children, SectionPath(Site, s.path, f)))
      && Walk(root, BuildUrlMap(root), done, rest, false)
         == [Crumb(FolderTitle(f), SectionUrl(Site, s.path, f))] + Walk(root, BuildUrlMap(root), done + [rest[0]], rest[1..], false)
  {
    var s := SectionAt(Site, root, done, "").value;
    var f := FindChild(s.entries, rest[0]).value;
    FolderSection(Site, root, done, f);
    FolderCrumb(root, done, f);
    DirStep(root, BuildUrlMap(root), done, rest, Crumb(FolderTitle(f), SectionUrl(Site, s.path, f)));
  }

  /** A walk step over a directory segment with a crumb. */
  lemma DirStep(root: seq<Node>, table: UrlTable, done: Path, rest: Path, crumb: Crumb)
    requires rest != [] && !IsMarkdown(rest[0]) && DirCrumb(root, table, done + [rest[0]]) == [crumb]
    ensures Walk(root, table, done, rest, false) == [crumb] + Walk(root, table, done + [rest[0]], rest[1..], false)
  {
    assert IsMarkdown(IndexName);
  }

  /** A visible folder of a section has a crumb with its title and section URL. */
  lemma FolderCrumb(root: seq<Node>, done: Path, f: Node)
    requires WellFormed(root) && SectionAt(Site, root, done, "").Some?
    requires FindChild(SectionAt(Site, root, done, "").value.entries, f.name) == Some(f) && IsSection(f)
    ensures !IsMarkdown(f.name)
    ensures DirCrumb(root, BuildUrlMap(root), done + [f.name])
      == [Crumb(FolderTitle(f), SectionUrl(Site, SectionAt(Site, root, done, "").value.path, f))]
  {
    var s := SectionAt(Site, root, done, "").value;
    SectionWellFormed(Site, root, done, "");
    WellFormedChild(s.entries, f);
    FolderSection(Site, root, done, f);
    SectionIndex(root, done + [f.name]);
    NodeAtSection(Site, root, done, "", f.name);
  }

  lemma TrailStep(cs: seq<Node>, d: Path, parent: string, f: Node)
    requires d != [] && FindChild(cs, d[0]) == Some(f) && IsSection(f)
    ensures Trail(cs, d, parent)
      == [Crumb(FolderTitle(f), SectionUrl(Site, parent, f))] + Trail(f.children, d[1..], SectionPath(Site, parent, f))
  {
  }

  /** `rest` leads from the section at `done` to the visible markdown file `c`. */
  predicate WalkEnds(root: seq<Node>, done: Path, rest: Path, c: Node)
  {
    && WellFormed(root) && SectionAt(Site, root, done, "").Some?
    && |rest| > 0 && SectionAt(Site, root, done + rest[..|rest| - 1], "").Some?
    && c in SectionAt(Site, root, done + rest[..|rest| - 1], "").value.entries && c.name == rest[|rest| - 1]
    && c.File? && !IsHidden(c.name) && IsMarkdown(c.name)
  }

  /** The walk along `rest` gives the trail of the folders passed, then the
      crumb of the file reached. */
  predicate WalkYields(root: seq<Node>, done: Path, rest: Path, c: Node)
    requires WalkEnds(root, done, rest, c)
  {
    var s := SectionAt(Site, root, done, "").value;
    Walk(root, BuildUrlMap(root), done, rest, false)
      == Trail(s.entries, rest[..|rest| - 1], s.path) + LastCrumb(c, SectionAt(Site, root, done + rest[..|rest| - 1], "").value.path)
  }

  /** Walking from a section down to a markdown file yields the trail of the
      folders passed, then the file's own crumb. */
  lemma {:induction false} WalkTo(root: seq<Node>, done: Path, rest: Path, c: Node)
    requires WalkEnds(root, done, rest, c)
    ensures WalkYields(root, done, rest, c)
    decreases rest
  {
    if |rest| == 1 {
      WalkToFile(root, done, rest, c);
    } else {
      Descend(root, done, rest, c);
      WalkTo(root, done + [rest[0]], rest[1..], c);
      WalkThrough(root, done, rest, c);
    }
  }

  /** A walk of one segment ends at the file itself. */
  lemma WalkToFile(root: seq<Node>, done: Path, rest: Path, c: Node)
    requires WalkEnds(root, done, rest, c) && |rest| == 1
    ensures WalkYields(root, done, rest, c)
  {
    assert rest[..0] == [] && done + [] == done && rest == [c.name];
    PageStep(root, done, c);
  }

  /** A longer walk first passes a visible folder and goes on from its section. */
  lemma Descend(root: seq<Node>, done: Path, rest: Path, c: Node)
    requires WalkEnds(root, done, rest, c) && |rest| > 1
    ensures var f := FindChild(SectionAt(Site, root, done, "").value.entries, rest[0]); f.Some? && IsSection(f.value)
    ensures WalkEnds(root, done + [rest[0]], rest[1..], c)
  {
    FirstFolder(Site, root, done, rest);
    var f := FindChild(SectionAt(Site, root, done, "").value.entries, rest[0]).value;
    FolderSection(Site, root, done, f);
    SplitFirst(done, rest);
  }

  /** The first segment of a walk that goes further names a visible folder. */
  lemma FirstFolder(nm: Naming, root: seq<Node>, done: Path, rest: Path)
    requires |rest| > 1 && SectionAt(nm, root, done + rest[..|rest| - 1], "").Some?
    ensures SectionAt(nm, root, done, "").Some?
    ensures var f := FindChild(SectionAt(nm, root, done, "").value.entries, rest[0]); f.Some? && IsSection(f.value)
  {
    var front := rest[..|rest| - 1];
    SectionAtAppend(nm, root, done, front, "");
    assert front[0] == rest[0];
  }

  /** The section of a visible folder found in a section is one level down. */
  lemma FolderSection(nm: Naming, root: seq<Node>, done: Path, f: Node)
    requires WellFormed(root) && SectionAt(nm, root, done, "").Some?
    requires var g := FindChild(SectionAt(nm, root, done, "").value.entries, f.name); g == Some(f) && IsSection(f)
    ensures SectionAt(nm, root, done + [f.name], "")
      == Some(Section(f.children, SectionPath(nm, SectionAt(nm, root, done, "").value.path, f)))
  {
    SectionWellFormed(nm, root, done, "");
    SectionChild(nm, root, done, "", f);
  }

  lemma SplitFirst(done: Path, rest: Path)
    requires |rest| > 1
    ensures done + [rest[0]] + rest[1..][..|rest[1..]| - 1] == done + rest[..|rest| - 1]
    ensures rest[..|rest| - 1][0] == rest[0] && rest[..|rest| - 1][1..] == rest[1..][..|rest[1..]| - 1]
  {
  }

  /** One folder step of `WalkTo`, given the walk from inside that folder. */
  lemma WalkThrough(root: seq<Node>, done: Path, rest: Path, c: Node)
    requires WalkEnds(root, done, rest, c) && |rest| > 1
    requires var f := FindChild(SectionAt(Site, root, done, "").value.entries, rest[0]); f.Some? && IsSection(f.value)
    requires WalkEnds(root, done + [rest[0]], rest[1..], c) && WalkYields(root, done + [rest[0]], rest[1..], c)
    ensures WalkYields(root, done, rest, c)
  {
    var s := SectionAt(Site, root, done, "").value;
    var front := rest[..|rest| - 1];
    var f := FindChild(s.entries, rest[0]).value;
    FolderStep(root, done, rest);
    SplitFirst(done, rest);
    TrailStep(s.entries, front, s.path, f);
    Splice(Walk(root, BuildUrlMap(root), done, rest, false),
           Crumb(FolderTitle(f), SectionUrl(Site, s.path, f)),
           Walk(root, BuildUrlMap(root), done + [rest[0]], rest[1..], false),
           Trail(s.entries, front, s.path),
           Trail(f.children, front[1..], SectionPath(Site, s.path, f)),
           LastCrumb(c, SectionAt(Site, root, done + front, "").value.path));
  }

  lemma Splice(w: seq<Crumb>, crumb: Crumb, w1: seq<Crumb>, t: seq<Crumb>, t1: seq<Crumb>, l: seq<Crumb>)
    requires w == [crumb] + w1 && w1 == t1 + l && t == [crumb] + t1
    ensures w == t + l
  {
  }

  /** The segments of a path to an entry of a section are all non-empty. */
  lemma SegmentsNonEmpty(root: seq<Node>, d: Path, c: Node)
    requires WellFormed(root) && SectionAt(Site, root, d, "").Some?
    requires c in SectionAt(Site, root, d, "").value.entries
    ensures NonEmpty(d + [c.name]) == d + [c.name]
  {
    var p := d + [c.name];
    SectionNamesValid(Site, root, d, "");
    SectionWellFormed(Site, root, d, "");
    assert ValidName(c.name);
    forall i | 0 <= i < |p|
      ensures p[i] != ""
    {
      if i < |d| {
        assert p[i] == d[i];
      }
    }
  }

  /** A rendered page's breadcrumbs: Home, the trail of its folders, and, for
      a page other than an index page, a last crumb with exactly the title and
      URL the page itself is rendered with. */
  lemma BreadcrumbsOf(root: seq<Node>, d: Path, c: Node, rootName: string)
    requires WellFormed(root) && SectionAt(Site, root, d, "").Some?
    requires c in SectionAt(Site, root, d, "").value.entries
    requires c.File? && !IsHidden(c.name) && IsMarkdown(c.name)
    ensures Breadcrumbs(root, BuildUrlMap(root), d + [c.name])
      == [Home] + Trail(root, d, "")
         + (if c.name == IndexName then []
            else [Crumb(GetTitle(d + [c.name], c.title, rootName), GetUrlPath(BuildUrlMap(root), d + [c.name]))])
  {
    BreadcrumbsWalk(root, d, c);
    if c.name != IndexName {
      GetTitleOfPage(d, c, rootName);
      RenderedUrl(root, d, c);
    }
  }

  /** The breadcrumbs of a markdown file are Home, then the walk to it. */
  lemma BreadcrumbsWalk(root: seq<Node>, d: Path, c: Node)
    requires WellFormed(root) && SectionAt(Site, root, d, "").Some?
    requires c in SectionAt(Site, root, d, "").value.entries
    requires c.File? && !IsHidden(c.name) && IsMarkdown(c.name)
    ensures Breadcrumbs(root, BuildUrlMap(root), d + [c.name])
      == [Home] + Trail(root, d, "") + LastCrumb(c, SectionAt(Site, root, d, "").value.path)
  {
    SegmentsNonEmpty(root, d, c);
    EndsAtPage(root, d, c);
    WalkTo(root, [], d + [c.name], c);
    YieldsFromRoot(root, d, c);
  }

  /** The path to an entry of a section is a walk from the root to it. */
  lemma EndsAtPage(root: seq<Node>, d: Path, c: Node)
    requires WellFormed(root) && SectionAt(Site, root, d, "").Some?
    requires c in SectionAt(Site, root, d, "").value.entries
    requires c.File? && !IsHidden(c.name) && IsMarkdown(c.name)
    ensures WalkEnds(root, [], d + [c.name], c)
  {
    var p := d + [c.name];
    assert p[..|p| - 1] == d && [] + d == d;
  }

  /** A walk from the root is the trail from the root, then the last crumb. */
  lemma YieldsFromRoot(root: seq<Node>, d: Path, c: Node)
    requires SectionAt(Site, root, d, "").Some?
    requires WalkEnds(root, [], d + [c.name], c) && WalkYields(root, [], d + [c.name], c)
    ensures Walk(root, BuildUrlMap(root), [], d + [c.name], false)
      == Trail(root, d, "") + LastCrumb(c, SectionAt(Site, root, d, "").value.path)
  {
    var p := d + [c.name];
    assert p[..|p| - 1] == d && [] + d == d;
  }

  /** Each crumb's URL starts with the previous crumb's URL. */
  predicate Nested(crumbs: seq<Crumb>)
  {
    forall i :: 0 < i < |crumbs| ==> StartsWith(crumbs[i].url, crumbs[i - 1].url)
  }

  /** `t` has `n` crumbs, nests, starts below `parent` and ends at the URL
      `path + "/"`. */
  predicate TrailShape(t: seq<Crumb>, n: nat, parent: string, path: string)
  {
    && |t| == n && Nested(t)
    && (|t| > 0 ==> StartsWith(t[0].url, parent + "/") && t[|t| - 1].url == path + "/")
  }

  /** The trail has a crumb per folder, nests below the starting section, and
      ends at the URL of the section reached. */
  lemma {:induction false} TrailNested(cs: seq<Node>, d: Path, parent: string)
    requires SectionAt(Site, cs, d, parent).Some?
    ensures TrailShape(Trail(cs, d, parent), |d|, parent, SectionAt(Site, cs, d, parent).value.path)
    decreases d
  {
    if d != [] {
      var f := FindChild(cs, d[0]).value;
      var sp := SectionPath(Site, parent, f);
      TrailNested(f.children, d[1..], sp);
      TrailStep(cs, d, parent, f);
      NestedCons(Crumb(FolderTitle(f), SectionUrl(Site, parent, f)), Trail(f.children, d[1..], sp),
                 |d| - 1, parent, sp, SectionAt(Site, cs, d, parent).value.path);
    }
  }

  /** A crumb at `sp + "/"` below `parent` extends a trail that starts below `sp`. */
  lemma NestedCons(c: Crumb, rest: seq<Crumb>, n: nat, parent: string, sp: string, path: string)
    requires TrailShape(rest, n, sp, path)
    requires c.url == sp + "/" && StartsWith(c.url, parent + "/")
    requires n == 0 ==> sp == path
    ensures TrailShape([c] + rest, n + 1, parent, path)
  {
    var t := [c] + rest;
    forall i | 0 < i < |t|
      ensures StartsWith(t[i].url, t[i - 1].url)
    {
      if i > 1 {
        assert t[i] == rest[i - 1] && t[i - 1] == rest[i - 2];
      }
    }
  }

  /** A rendered page's breadcrumbs nest: each URL extends the one before. */
  lemma BreadcrumbsNested(root: seq<Node>, d: Path, c: Node, rootName: string)
    requires WellFormed(root) && SectionAt(Site, root, d, "").Some?
    requires c in SectionAt(Site, root, d, "").value.entries
    requires c.File? && !IsHidden(c.name) && IsMarkdown(c.name)
    ensures Nested(Breadcrumbs(root, BuildUrlMap(root), d + [c.name]))
  {
    var s := SectionAt(Site, root, d, "").value;
    var last := if c.name == IndexName then []
      else [Crumb(GetTitle(d + [c.name], c.title, rootName), GetUrlPath(BuildUrlMap(root), d + [c.name]))];
    BreadcrumbsOf(root, d, c, rootName);
    TrailNested(root, d, "");
    if c.name != IndexName {
      RenderedUrl(root, d, c);
      StartsWithAppend(s.path + "/", Slugify(PageTitle(c)));
    }
    NestedTrail(Trail(root, d, ""), s.path, last);
  }

  /** Home, a nested trail from the root, and at most one crumb below its end nest. */
  lemma NestedTrail(t: seq<Crumb>, path: string, last: seq<Crumb>)
    requires TrailShape(t, |t|, "", path)
    requires |t| == 0 ==> path == ""
    requires |last| <= 1 && forall i :: 0 <= i < |last| ==> StartsWith(last[i].url, path + "/")
    ensures Nested([Home] + t + last)
  {
    var r := [Home] + t + last;
    forall i | 0 < i < |r|
      ensures StartsWith(r[i].url, r[i - 1].url)
    {
      if i <= |t| {
        if i > 1 {
          assert r[i] == t[i - 1] && r[i - 1] == t[i - 2];
        } else {
          assert r[i] == t[0] && r[i - 1] == Home;
        }
      } else {
        assert r[i] == last[0];
        if |t| > 0 {
          assert r[i - 1] == t[|t| - 1];
        }
      }
    }
  }

  /** Removing the first `.md` of a path whose earlier segments hold none
      touches only the last segment. */
  lemma {:induction false} DropFirstMdLast(dir: Path, x: string)
    requires forall i :: 0 <= i < |dir| ==> !Contains(dir[i], ".md")
    requires Contains(x, ".md")
    ensures DropFirstMd(dir + [x]) == dir + [StemAsWritten(x)]
    decreases |dir|
  {
    if dir == [] {
      assert [] + [x] == [x];
    } else {
      assert (dir + [x])[0] == dir[0];
      assert (dir + [x])[1..] == dir[1..] + [x];
      DropFirstMdLast(dir[1..], x);
    }
  }

  /** When no `.md` occurs before the extension, the source's lookup key is
      the page's own location. */
  lemma PageKeyAgrees(dir: Path, stem: string)
    requires forall i :: 0 <= i < |dir| ==> !Contains(dir[i], ".md")
    requires !Contains(stem, ".md")
    ensures PageKeyAsWritten(dir + [stem + ".md"]) == dir + [stem + ".md"]
  {
    ContainsMd(stem, "");
    assert stem + ".md" + "" == stem + ".md";
    ReplaceFirstMd(stem, "");
    assert stem + "" == stem;
    DropFirstMdLast(dir, stem + ".md");
  }

  /** `.md` occurs in `x` only as its extension, if at all. */
  predicate MdOnlyAtEnd(x: string)
  {
    !Contains(x, ".md") || (|x| > 3 && IsMarkdown(x) && !Contains(x[..|x| - 3], ".md"))
  }

  lemma MarkdownContainsMd(x: string)
    ensures IsMarkdown(x) ==> Contains(x, ".md")
  {
    if IsMarkdown(x) {
      ContainsMd(x[..|x| - 3], "");
      assert x[..|x| - 3] + ".md" + "" == x;
    }
  }

  /** A page crumb below `.md`-free folders is the same under both keys. */
  lemma PageCrumbAgrees(root: seq<Node>, table: UrlTable, done: Path, stem: string)
    requires forall i :: 0 <= i < |done| ==> !Contains(done[i], ".md")
    requires stem != "" && !Contains(stem, ".md")
    ensures PageCrumb(root, table, done + [stem + ".md"], true) == PageCrumb(root, table, done + [stem + ".md"], false)
  {
    PageKeyAgrees(done, stem);
    StemAsWrittenAgrees(stem);
    var cur := done + [stem + ".md"];
    assert cur[|cur| - 1] == stem + ".md";
  }

  /** Below `.md`-free folders, with `.md` only as the last segment's
      extension, both walks give the same crumbs. */
  lemma {:induction false} WalkAgrees(root: seq<Node>, table: UrlTable, done: Path, rest: Path)
    requires forall i :: 0 <= i < |done| ==> !Contains(done[i], ".md")
    requires forall i :: 0 <= i < |rest| - 1 ==> !Contains(rest[i], ".md")
    requires |rest| > 0 ==> MdOnlyAtEnd(rest[|rest| - 1])
    ensures Walk(root, table, done, rest, true) == Walk(root, table, done, rest, false)
    decreases rest
  {
    if rest != [] {
      var part := rest[0];
      var cur := done + [part];
      MarkdownContainsMd(part);
      if |rest| == 1 {
        if part != IndexName && IsMarkdown(part) {
          var stem := part[..|part| - 3];
          assert part == stem + ".md";
          PageCrumbAgrees(root, table, done, stem);
        }
        assert rest[1..] == [];
      } else {
        assert !Contains(part, ".md");
        assert forall i :: 0 <= i < |cur| ==> !Contains(cur[i], ".md");
        assert forall i :: 0 <= i < |rest[1..]| - 1 ==> rest[1..][i] == rest[i + 1];
        WalkAgrees(root, table, cur, rest[1..]);
      }
    }
  }

  /** When `.md` appears in a page's path only as its extension, the
      breadcrumbs as written are the corrected ones. */
  lemma BreadcrumbsAgree(root: seq<Node>, table: UrlTable, filePath: Path)
    requires forall i :: 0 <= i < |filePath| ==> filePath[i] != ""
    requires forall i :: 0 <= i < |filePath| - 1 ==> !Contains(filePath[i], ".md")
    requires |filePath| > 0 ==> MdOnlyAtEnd(filePath[|filePath| - 1])
    ensures BreadcrumbsAsWritten(root, table, filePath) == Breadcrumbs(root, table, filePath)
  {
    WalkAgrees(root, table, [], NonEmpty(filePath));
  }

  /** The file `a.md-b.md` alone at the content root is a well-formed, visible
      page. */
  lemma DraftRoot(a: string, b: string)
    requires |a| > 0 && a[0] != '.' && '/' !in a && '/' !in b
    ensures var name := a + ".md" + b + ".md";
      && WellFormed([File(name, None)]) && !IsHidden(name) && IsMarkdown(name) && name != IndexName
  {
    var name := a + ".md" + b + ".md";
    assert name == a + ".md" + (b + ".md");
    assert '/' !in name;
    assert name[0] == a[0];
    assert name[|name| - 3..] == ".md";
    assert name != IndexName by {
      assert name[|a|] == '.';
      if |name| == |IndexName| {
        assert IndexName[..3] == "_in";
      }
    }
  }

  /** The source looks `a.md-b.md` up under `a-b.md.md`. */
  lemma DraftKey(a: string, b: string)
    requires !Contains(a, ".md")
    ensures PageKeyAsWritten([a + ".md" + b + ".md"]) == [a + b + ".md" + ".md"]
  {
    var name := a + ".md" + b + ".md";
    assert name == a + ".md" + (b + ".md");
    ContainsMd(a, b + ".md");
    ReplaceFirstMd(a, b + ".md");
    assert a + (b + ".md") == a + b + ".md";
  }

  /** The table of a root holding only `a.md-b.md` lacks the key `a-b.md.md`. */
  lemma DraftKeyMissing(a: string, b: string)
    requires !Contains(a, ".md") && |a| > 0 && a[0] != '.' && '/' !in a && '/' !in b
    requires |b| > 0 && b[0] == '-'
    ensures var name := a + ".md" + b + ".md";
      PageKeyAsWritten([name]) !in BuildUrlMap([File(name, None)])
  {
    var name := a + ".md" + b + ".md";
    var root := [File(name, None)];
    DraftRoot(a, b);
    DraftKey(a, b);
    DraftKeyDiffers(a, b);
    LoneFileMissing(name, a + b + ".md" + ".md");
  }

  /** A root holding a single file has no entry for any other name. */
  lemma LoneFileMissing(name: string, k: string)
    requires WellFormed([File(name, None)]) && k != name
    ensures [k] !in BuildUrlMap([File(name, None)])
  {
    var root := [File(name, None)];
    assert FindChild(root, k).None?;
    NoEntryWithoutChild(root, [k]);
  }

  lemma DraftKeyDiffers(a: string, b: string)
    requires |b| > 0 && b[0] == '-'
    ensures a + b + ".md" + ".md" != a + ".md" + b + ".md"
  {
    assert (a + b + ".md" + ".md")[|a|] == '-';
    assert (a + ".md" + b + ".md")[|a|] == '.';
  }

  /** A path whose first segment names no entry of the root has no URL. */
  lemma NoEntryWithoutChild(root: seq<Node>, p: Path)
    requires WellFormed(root) && p != [] && FindChild(root, p[0]).None?
    ensures p !in BuildUrlMap(root)
  {
    TableAt(root, p);
  }

  /** With an earlier `.md` in the file name the key is wrong: the page at
      `a.md-b.md` gets no crumb, while the corrected breadcrumbs end with it. */
  lemma AsWrittenCrumbMissingFor(a: string, b: string)
    requires !Contains(a, ".md") && |a| > 0 && a[0] != '.' && '/' !in a && '/' !in b
    requires |b| > 0 && b[0] == '-'
    ensures var name := a + ".md" + b + ".md";
      var root := [File(name, None)];
      && |Breadcrumbs(root, BuildUrlMap(root), [name])| == 2
      && BreadcrumbsAsWritten(root, BuildUrlMap(root), [name]) == [Home]
  {
    var name := a + ".md" + b + ".md";
    var c := File(name, None);
    var root := [c];
    DraftRoot(a, b);
    assert [] + [name] == [name];
    BreadcrumbsWalk(root, [], c);
    DraftKeyMissing(a, b);
    SegmentsNonEmpty(root, [], c);
  }

  /** The file `notes.md-draft.md` at the content root. */
  lemma AsWrittenCrumbMissing()
    ensures var root := [File("notes.md-draft.md", None)];
      && |Breadcrumbs(root, BuildUrlMap(root), ["notes.md-draft.md"])| == 2
      && BreadcrumbsAsWritten(root, BuildUrlMap(root), ["notes.md-draft.md"]) == [Home]
  {
    NotesHasNoMd();
    assert "notes.md-draft.md" == "notes" + ".md" + "-draft" + ".md";
    AsWrittenCrumbMissingFor("notes", "-draft");
  }
}
