/** The sidebar: the whole content tree as navigation items, folders before
    files, each group ordered by title, with the current page marked and the
    folders on its way expanded. */
module Sidebar {
  import opened Strings
  import opened Slug
  import opened Content
  import opened Sorting
  import opened UrlMap

  datatype NavItem =
    | NavFolder(title: string, url: string, name: string, expanded: bool, children: seq<NavItem>)
    | NavFile(title: string, url: string, name: string, current: bool)

  function Title(x: NavItem): string { x.title }

  /** `urlMap.get(key) || fallback`: an absent or empty entry falls back. */
  function LookupOr(table: UrlTable, key: Path, fallback: string): (r: string)
    ensures key in table && table[key] != "" ==> r == table[key]
    ensures !(key in table && table[key] != "") ==> r == fallback
  {
    if key in table && table[key] != "" then table[key] else fallback
  }

  /** The location relative to the content root, with `/` separators. */
  function RelativeUrlPath(p: Path): string
  {
    ReplaceChar(JoinPath(p), '\\', '/')
  }

  /** An item is what the sidebar promises: a folder is visible and expanded
      exactly when the current URL starts with its URL, and its children are
      items too; a file is a visible page, current exactly when its URL is the
      current URL. */
  predicate ItemOk(x: NavItem, cur: string)
    decreases x, 1
  {
    match x
    case NavFolder(_, url, name, expanded, children) =>
      !IsHidden(name) && expanded == StartsWith(cur, url) && ForestOk(children, cur)
    case NavFile(_, url, name, current) =>
      !IsHidden(name) && IsMarkdown(name) && name != IndexName && current == (url == cur)
  }

  predicate ForestOk(xs: seq<NavItem>, cur: string)
    decreases xs, 0
  {
    forall i :: 0 <= i < |xs| ==> ItemOk(xs[i], cur)
  }

  /** All folders come before all files. */
  predicate FoldersFirst(xs: seq<NavItem>)
  {
    forall i, j :: 0 <= i < j < |xs| && xs[j].NavFolder? ==> xs[i].NavFolder?
  }

  /** Within each group, titles are in order. */
  predicate GroupsSorted(xs: seq<NavItem>)
  {
    forall i, j :: 0 <= i < j < |xs| && xs[i].NavFolder? == xs[j].NavFolder? ==> LexLe(xs[i].title, xs[j].title)
  }

  /** The item for the visible folder `f` found in directory `dir`. */
  function FolderItem(f: Node, dir: Path, table: UrlTable, cur: string, rootName: string): (r: NavItem)
    requires f.Folder? && !IsHidden(f.name)
    ensures r.NavFolder? && ItemOk(r, cur)
    decreases f, 0
  {
    var here := dir + [f.name];
    var url := LookupOr(table, here, "/" + RelativeUrlPath(here) + "/");
    NavFolder(FolderTitle(f), url, f.name, StartsWith(cur, url), BuildFullNavTree(f.children, here, table, cur, rootName))
  }

  /** The item for the page `f` found in directory `dir`. */
  function FileItem(f: Node, dir: Path, table: UrlTable, cur: string, rootName: string): (r: NavItem)
    requires IsPage(f)
    ensures r.NavFile? && ItemOk(r, cur)
  {
    var here := dir + [f.name];
    var url := LookupOr(table, here, "/" + ReplaceFirst(RelativeUrlPath(here), ".md", ""));
    NavFile(GetTitle(here, f.title, rootName), url, f.name, url == cur)
  }

  /** The folder items of a directory, in directory order. */
  function FolderItems(cs: seq<Node>, dir: Path, table: UrlTable, cur: string, rootName: string): (r: seq<NavItem>)
    ensures forall i :: 0 <= i < |r| ==> r[i].NavFolder? && ItemOk(r[i], cur)
    decreases cs, 1
  {
    if cs == [] then []
    else
      var head := if IsSection(cs[0]) then [FolderItem(cs[0], dir, table, cur, rootName)] else [];
      head + FolderItems(cs[1..], dir, table, cur, rootName)
  }

  /** The file items of a directory, in directory order. */
  function FileItems(cs: seq<Node>, dir: Path, table: UrlTable, cur: string, rootName: string): (r: seq<NavItem>)
    ensures forall i :: 0 <= i < |r| ==> r[i].NavFile? && ItemOk(r[i], cur)
  {
    if cs == [] then []
    else
      var head := if IsPage(cs[0]) then [FileItem(cs[0], dir, table, cur, rootName)] else [];
      head + FileItems(cs[1..], dir, table, cur, rootName)
  }

  /** `buildFullNavTree`: the folder items sorted by title, then the file items
      sorted by title. */
  function BuildFullNavTree(cs: seq<Node>, dir: Path, table: UrlTable, cur: string, rootName: string): (r: seq<NavItem>)
    ensures FoldersFirst(r) && GroupsSorted(r) && ForestOk(r, cur)
    ensures multiset(r) == multiset(FolderItems(cs, dir, table, cur, rootName) + FileItems(cs, dir, table, cur, rootName))
    decreases cs, 2
  {
    var folders := FolderItems(cs, dir, table, cur, rootName);
    var files := FileItems(cs, dir, table, cur, rootName);
    var sortedFolders := SortBy(folders, Title);
    var sortedFiles := SortBy(files, Title);
    SortedGroup(folders, sortedFolders, cur, true);
    SortedGroup(files, sortedFiles, cur, false);
    Groups(sortedFolders, sortedFiles, cur);
    sortedFolders + sortedFiles
  }

  /** Sorted folder items followed by sorted file items make a sidebar level. */
  lemma Groups(folders: seq<NavItem>, files: seq<NavItem>, cur: string)
    requires forall i :: 0 <= i < |folders| ==> folders[i].NavFolder? && ItemOk(folders[i], cur)
    requires forall i :: 0 <= i < |files| ==> files[i].NavFile? && ItemOk(files[i], cur)
    requires SortedBy(folders, Title) && SortedBy(files, Title)
    ensures FoldersFirst(folders + files) && GroupsSorted(folders + files) && ForestOk(folders + files, cur)
  {
    var r := folders + files;
    forall i | 0 <= i < |r|
      ensures ItemOk(r[i], cur)
    {
      if i >= |folders| {
        assert r[i] == files[i - |folders|];
      }
    }
    forall i, j | 0 <= i < j < |r| && r[i].NavFolder? == r[j].NavFolder?
      ensures LexLe(r[i].title, r[j].title)
    {
      if j < |folders| {
        assert Title(folders[i]) == r[i].title && Title(folders[j]) == r[j].title;
      } else {
        assert i >= |folders|;
        assert Title(files[i - |folders|]) == r[i].title && Title(files[j - |folders|]) == r[j].title;
      }
    }
  }

  /** Sorting a group keeps its kind and the items' promises. */
  lemma SortedGroup(xs: seq<NavItem>, ys: seq<NavItem>, cur: string, folders: bool)
    requires forall i :: 0 <= i < |xs| ==> xs[i].NavFolder? == folders && ItemOk(xs[i], cur)
    requires multiset(ys) == multiset(xs)
    ensures forall i :: 0 <= i < |ys| ==> ys[i].NavFolder? == folders && ItemOk(ys[i], cur)
  {
    forall i | 0 <= i < |ys|
      ensures ys[i].NavFolder? == folders && ItemOk(ys[i], cur)
    {
      PermutationKeeps(xs, ys, ys[i]);
    }
  }

  /** The item a directory entry gets, when it gets one. */
  predicate ItemOf(x: NavItem, c: Node, dir: Path, table: UrlTable, cur: string, rootName: string)
  {
    || (IsSection(c) && x == FolderItem(c, dir, table, cur, rootName))
    || (IsPage(c) && x == FileItem(c, dir, table, cur, rootName))
  }

  lemma {:induction false} ItemsExactly(cs: seq<Node>, dir: Path, table: UrlTable, cur: string, rootName: string, x: NavItem)
    ensures x in FolderItems(cs, dir, table, cur, rootName) + FileItems(cs, dir, table, cur, rootName)
      <==> exists c :: c in cs && ItemOf(x, c, dir, table, cur, rootName)
  {
    if cs != [] {
      ItemsExactly(cs[1..], dir, table, cur, rootName, x);
      var c0 := cs[0];
      if x in FolderItems(cs, dir, table, cur, rootName) + FileItems(cs, dir, table, cur, rootName) {
        if !(x in FolderItems(cs[1..], dir, table, cur, rootName) + FileItems(cs[1..], dir, table, cur, rootName)) {
          assert ItemOf(x, c0, dir, table, cur, rootName);
        } else {
          var c :| c in cs[1..] && ItemOf(x, c, dir, table, cur, rootName);
          assert c in cs;
        }
      }
      if exists c :: c in cs && ItemOf(x, c, dir, table, cur, rootName) {
        var c :| c in cs && ItemOf(x, c, dir, table, cur, rootName);
        if c != c0 {
          assert c in cs[1..];
        }
      }
    }
  }

  /** The sidebar of a directory lists exactly its visible folders and its
      pages: hidden entries, non-markdown files and the index page get no
      item, and every other entry gets its own. */
  lemma SidebarListsExactly(cs: seq<Node>, dir: Path, table: UrlTable, cur: string, rootName: string, x: NavItem)
    ensures x in BuildFullNavTree(cs, dir, table, cur, rootName) <==> exists c :: c in cs && ItemOf(x, c, dir, table, cur, rootName)
  {
    var r := BuildFullNavTree(cs, dir, table, cur, rootName);
    var all := FolderItems(cs, dir, table, cur, rootName) + FileItems(cs, dir, table, cur, rootName);
    ItemsExactly(cs, dir, table, cur, rootName, x);
    if x in r {
      PermutationKeeps(all, r, x);
    }
    if x in all {
      PermutationKeeps(r, all, x);
    }
  }

  /** Every URL starts with `prefix`, and a folder's items start with its own URL. */
  predicate ItemNested(x: NavItem, prefix: string)
    decreases x, 1
  {
    StartsWith(x.url, prefix) && (x.NavFolder? ==> ForestNested(x.children, x.url))
  }

  predicate ForestNested(xs: seq<NavItem>, prefix: string)
    decreases xs, 0
  {
    forall i :: 0 <= i < |xs| ==> ItemNested(xs[i], prefix)
  }

  /** With the generator's own table, the sidebar of any section nests: each
      item's URL starts with the URL of the folder holding it. */
  lemma {:induction false} SidebarNested(root: seq<Node>, d: Path, cur: string, rootName: string)
    requires WellFormed(root) && SectionAt(Site, root, d, "").Some?
    ensures var s := SectionAt(Site, root, d, "").value;
      ForestNested(BuildFullNavTree(s.entries, d, BuildUrlMap(root), cur, rootName), s.path + "/")
    decreases SectionAt(Site, root, d, "").value.entries, 1
  {
    var s := SectionAt(Site, root, d, "").value;
    var table := BuildUrlMap(root);
    var folders := FolderItems(s.entries, d, table, cur, rootName);
    var files := FileItems(s.entries, d, table, cur, rootName);
    FolderItemsNested(root, d, s.entries, cur, rootName);
    FileItemsNested(root, d, s.entries, cur, rootName);
    var r := BuildFullNavTree(s.entries, d, table, cur, rootName);
    forall i | 0 <= i < |r|
      ensures ItemNested(r[i], s.path + "/")
    {
      PermutationKeeps(folders + files, r, r[i]);
    }
  }

  lemma {:induction false} FolderItemsNested(root: seq<Node>, d: Path, sub: seq<Node>, cur: string, rootName: string)
    requires WellFormed(root) && SectionAt(Site, root, d, "").Some?
    requires forall c :: c in sub ==> c in SectionAt(Site, root, d, "").value.entries
    ensures var s := SectionAt(Site, root, d, "").value;
      ForestNested(FolderItems(sub, d, BuildUrlMap(root), cur, rootName), s.path + "/")
    decreases sub, 0
  {
    if sub != [] {
      var s := SectionAt(Site, root, d, "").value;
      var table := BuildUrlMap(root);
      if IsSection(sub[0]) {
        FolderItemNested(root, d, sub[0], cur, rootName);
      }
      FolderItemsNested(root, d, sub[1..], cur, rootName);
      ForestCons(if IsSection(sub[0]) then [FolderItem(sub[0], d, table, cur, rootName)] else [],
                 FolderItems(sub[1..], d, table, cur, rootName), s.path + "/");
    }
  }

  lemma {:induction false} FolderItemNested(root: seq<Node>, d: Path, c: Node, cur: string, rootName: string)
    requires WellFormed(root) && SectionAt(Site, root, d, "").Some?
    requires c in SectionAt(Site, root, d, "").value.entries && IsSection(c)
    ensures ItemNested(FolderItem(c, d, BuildUrlMap(root), cur, rootName), SectionAt(Site, root, d, "").value.path + "/")
    decreases c.children, 2
  {
    var s := SectionAt(Site, root, d, "").value;
    FolderEntry(root, d, c);
    SectionChild(Site, root, d, "", c);
    SidebarNested(root, d + [c.name], cur, rootName);
    StartsWithAppend(s.path + "/", Slugify(FolderTitle(c)) + "/");
    assert s.path + "/" + Slugify(FolderTitle(c)) + "/" == (s.path + "/") + (Slugify(FolderTitle(c)) + "/");
  }

  lemma {:induction false} FileItemsNested(root: seq<Node>, d: Path, sub: seq<Node>, cur: string, rootName: string)
    requires WellFormed(root) && SectionAt(Site, root, d, "").Some?
    requires forall c :: c in sub ==> c in SectionAt(Site, root, d, "").value.entries
    ensures var s := SectionAt(Site, root, d, "").value;
      ForestNested(FileItems(sub, d, BuildUrlMap(root), cur, rootName), s.path + "/")
    decreases sub
  {
    if sub != [] {
      var s := SectionAt(Site, root, d, "").value;
      var table := BuildUrlMap(root);
      if IsPage(sub[0]) {
        FileItemNested(root, d, sub[0], cur, rootName);
      }
      FileItemsNested(root, d, sub[1..], cur, rootName);
      ForestCons(if IsPage(sub[0]) then [FileItem(sub[0], d, table, cur, rootName)] else [],
                 FileItems(sub[1..], d, table, cur, rootName), s.path + "/");
    }
  }

  lemma FileItemNested(root: seq<Node>, d: Path, c: Node, cur: string, rootName: string)
    requires WellFormed(root) && SectionAt(Site, root, d, "").Some?
    requires c in SectionAt(Site, root, d, "").value.entries && IsPage(c)
    ensures ItemNested(FileItem(c, d, BuildUrlMap(root), cur, rootName), SectionAt(Site, root, d, "").value.path + "/")
  {
    var s := SectionAt(Site, root, d, "").value;
    PageEntry(root, d, c);
    StartsWithAppend(s.path + "/", Slugify(PageTitle(c)));
  }

  /** Two nested forests joined are nested. */
  lemma ForestCons(xs: seq<NavItem>, ys: seq<NavItem>, prefix: string)
    requires ForestNested(xs, prefix) && ForestNested(ys, prefix)
    ensures ForestNested(xs + ys, prefix)
  {
    forall i | 0 <= i < |xs + ys|
      ensures ItemNested((xs + ys)[i], prefix)
    {
      if i >= |xs| {
        assert (xs + ys)[i] == ys[i - |xs|];
      }
    }
  }

  /** The item is, or holds somewhere below it, the current page. */
  predicate HoldsCurrent(x: NavItem)
    decreases x
  {
    match x
    case NavFile(_, _, _, current) => current
    case NavFolder(_, _, _, _, children) => exists i :: 0 <= i < |children| && HoldsCurrent(children[i])
  }

  /** In a nested sidebar, the current URL starts with the URL of every item
      on the way to the current page. */
  lemma {:induction false} CurrentInside(x: NavItem, prefix: string, cur: string)
    requires ItemNested(x, prefix) && ItemOk(x, cur) && HoldsCurrent(x)
    ensures StartsWith(cur, x.url)
    decreases x
  {
    if x.NavFolder? {
      var i :| 0 <= i < |x.children| && HoldsCurrent(x.children[i]);
      var y := x.children[i];
      CurrentInside(y, x.url, cur);
      StartsWithTrans(cur, y.url, x.url);
    }
  }

  /** `x` is one of the items of `xs`, or lies inside one of them at any depth. */
  predicate OccursIn(x: NavItem, xs: seq<NavItem>)
    decreases xs, 0
  {
    exists i :: 0 <= i < |xs| && OccursAt(x, xs[i])
  }

  predicate OccursAt(x: NavItem, y: NavItem)
    decreases y, 1
  {
    x == y || (y.NavFolder? && OccursIn(x, y.children))
  }

  /** In a nested sidebar, every folder at any depth that holds the current
      page is expanded. */
  lemma {:induction false} NestedFolderExpanded(xs: seq<NavItem>, prefix: string, cur: string, x: NavItem)
    requires ForestNested(xs, prefix) && ForestOk(xs, cur)
    requires OccursIn(x, xs) && x.NavFolder? && HoldsCurrent(x)
    ensures x.expanded
    decreases xs
  {
    var i :| 0 <= i < |xs| && OccursAt(x, xs[i]);
    var y := xs[i];
    if x == y {
      CurrentInside(y, prefix, cur);
    } else {
      NestedFolderExpanded(y.children, y.url, cur, x);
    }
  }

  /** With the generator's own table, every folder of the sidebar, at any
      depth, that holds the current page is expanded. */
  lemma CurrentPathExpanded(root: seq<Node>, cur: string, rootName: string, x: NavItem)
    requires WellFormed(root)
    requires OccursIn(x, BuildFullNavTree(root, [], BuildUrlMap(root), cur, rootName))
    requires x.NavFolder? && HoldsCurrent(x)
    ensures x.expanded
  {
    SidebarNested(root, [], cur, rootName);
    NestedFolderExpanded(BuildFullNavTree(root, [], BuildUrlMap(root), cur, rootName), "/", cur, x);
  }
}
