/** The editor server's model of the content directory: the file tree it
    shows, where a rename puts its target, and the checks the create and
    rename handlers make before touching the filesystem. */
module Editor {
  import opened Wrappers
  import opened Strings
  import opened Slug
  import opened Content
  import opened Sorting

  // ---------------------------------------------------------------------------
  // The file tree
  // ---------------------------------------------------------------------------

  datatype TreeItem =
    | TreeFolder(name: string, path: string, children: seq<TreeItem>)
    | TreeFile(name: string, path: string)

  function Name(x: TreeItem): string { x.name }

  /** The relative path of entry `name` inside the directory at `rel`. */
  function ChildPath(rel: string, name: string): string
  {
    if rel == "" then name else rel + "/" + name
  }

  /** The tree lists every visible folder and every visible `.md` file. */
  predicate Listed(c: Node)
  {
    !IsHidden(c.name) && (c.Folder? || IsMarkdown(c.name))
  }

  /** An item keeps what the tree promises: a visible name, the path rule,
      `.md` files only, and the same of every item below a folder. */
  predicate ItemOk(x: TreeItem, rel: string)
    decreases x, 1
  {
    && !IsHidden(x.name)
    && x.path == ChildPath(rel, x.name)
    && (x.TreeFile? ==> IsMarkdown(x.name))
    && (x.TreeFolder? ==> ForestOk(x.children, x.path))
  }

  predicate ForestOk(xs: seq<TreeItem>, rel: string)
    decreases xs, 0
  {
    forall i :: 0 <= i < |xs| ==> ItemOk(xs[i], rel)
  }

  /** All folders come before all files. */
  predicate FoldersFirst(xs: seq<TreeItem>)
  {
    forall i, j :: 0 <= i < j < |xs| && xs[j].TreeFolder? ==> xs[i].TreeFolder?
  }

  /** Within each group, names are in order. */
  predicate GroupsSorted(xs: seq<TreeItem>)
  {
    forall i, j :: 0 <= i < j < |xs| && xs[i].TreeFolder? == xs[j].TreeFolder? ==> LexLe(xs[i].name, xs[j].name)
  }

  /** The item for a listed entry of the directory at `rel`. */
  function Entry(c: Node, rel: string): (r: TreeItem)
    requires Listed(c)
    ensures r.name == c.name && r.TreeFolder? == c.Folder? && ItemOk(r, rel)
    decreases c, 0
  {
    var p := ChildPath(rel, c.name);
    if c.Folder? then TreeFolder(c.name, p, ScanDirectory(c.children, p)) else TreeFile(c.name, p)
  }

  /** The folder items of a directory, in directory order. */
  function FolderEntries(cs: seq<Node>, rel: string): (r: seq<TreeItem>)
    ensures forall i :: 0 <= i < |r| ==> r[i].TreeFolder? && ItemOk(r[i], rel)
    decreases cs, 1
  {
    if cs == [] then []
    else
      var head := if cs[0].Folder? && Listed(cs[0]) then [Entry(cs[0], rel)] else [];
      head + FolderEntries(cs[1..], rel)
  }

  /** The file items of a directory, in directory order. */
  function FileEntries(cs: seq<Node>, rel: string): (r: seq<TreeItem>)
    ensures forall i :: 0 <= i < |r| ==> r[i].TreeFile? && ItemOk(r[i], rel)
    decreases cs, 1
  {
    if cs == [] then []
    else
      var head := if cs[0].File? && Listed(cs[0]) then [Entry(cs[0], rel)] else [];
      head + FileEntries(cs[1..], rel)
  }

  /** `scanDirectory`: the folders sorted by name, then the `.md` files sorted
      by name, every item at every depth keeping the tree's promises. */
  function ScanDirectory(cs: seq<Node>, rel: string): (r: seq<TreeItem>)
    ensures FoldersFirst(r) && GroupsSorted(r) && ForestOk(r, rel)
    ensures multiset(r) == multiset(FolderEntries(cs, rel) + FileEntries(cs, rel))
    decreases cs, 2
  {
    var folders := FolderEntries(cs, rel);
    var files := FileEntries(cs, rel);
    var sortedFolders := SortBy(folders, Name);
    var sortedFiles := SortBy(files, Name);
    SortedGroup(folders, sortedFolders, rel, true);
    SortedGroup(files, sortedFiles, rel, false);
    Groups(sortedFolders, sortedFiles, rel);
    sortedFolders + sortedFiles
  }

  /** Sorted folders followed by sorted files make a tree level. */
  lemma Groups(folders: seq<TreeItem>, files: seq<TreeItem>, rel: string)
    requires forall i :: 0 <= i < |folders| ==> folders[i].TreeFolder? && ItemOk(folders[i], rel)
    requires forall i :: 0 <= i < |files| ==> files[i].TreeFile? && ItemOk(files[i], rel)
    requires SortedBy(folders, Name) && SortedBy(files, Name)
    ensures FoldersFirst(folders + files) && GroupsSorted(folders + files) && ForestOk(folders + files, rel)
  {
    var r := folders + files;
    forall i | 0 <= i < |r|
      ensures ItemOk(r[i], rel)
    {
      if i >= |folders| {
        assert r[i] == files[i - |folders|];
      }
    }
    forall i, j | 0 <= i < j < |r| && r[i].TreeFolder? == r[j].TreeFolder?
      ensures LexLe(r[i].name, r[j].name)
    {
      if j < |folders| {
        assert Name(folders[i]) == r[i].name && Name(folders[j]) == r[j].name;
      } else {
        assert i >= |folders|;
        assert Name(files[i - |folders|]) == r[i].name && Name(files[j - |folders|]) == r[j].name;
      }
    }
  }

  /** Sorting a group keeps its kind and the items' promises. */
  lemma SortedGroup(xs: seq<TreeItem>, ys: seq<TreeItem>, rel: string, folders: bool)
    requires forall i :: 0 <= i < |xs| ==> xs[i].TreeFolder? == folders && ItemOk(xs[i], rel)
    requires multiset(ys) == multiset(xs)
    ensures forall i :: 0 <= i < |ys| ==> ys[i].TreeFolder? == folders && ItemOk(ys[i], rel)
  {
    forall i | 0 <= i < |ys|
      ensures ys[i].TreeFolder? == folders && ItemOk(ys[i], rel)
    {
      PermutationKeeps(xs, ys, ys[i]);
    }
  }

  /** The unsorted groups hold exactly the items of the listed entries. */
  lemma {:induction false} EntriesExactly(cs: seq<Node>, rel: string, x: TreeItem)
    ensures x in FolderEntries(cs, rel) + FileEntries(cs, rel) <==> exists c :: c in cs && Listed(c) && x == Entry(c, rel)
  {
    if cs != [] {
      EntriesExactly(cs[1..], rel, x);
      var c0 := cs[0];
      if x in FolderEntries(cs, rel) + FileEntries(cs, rel) {
        if !(x in FolderEntries(cs[1..], rel) + FileEntries(cs[1..], rel)) {
          assert Listed(c0) && x == Entry(c0, rel);
        } else {
          var c :| c in cs[1..] && Listed(c) && x == Entry(c, rel);
          assert c in cs;
        }
      }
      if exists c :: c in cs && Listed(c) && x == Entry(c, rel) {
        var c :| c in cs && Listed(c) && x == Entry(c, rel);
        if c != c0 {
          assert c in cs[1..];
        }
      }
    }
  }

  /** The tree of a directory lists exactly its visible folders and visible
      `.md` files: an item is in it if and only if it is the item of such an
      entry. */
  lemma ScanListsExactly(cs: seq<Node>, rel: string, x: TreeItem)
    ensures x in ScanDirectory(cs, rel) <==> exists c :: c in cs && Listed(c) && x == Entry(c, rel)
  {
    var r := ScanDirectory(cs, rel);
    var all := FolderEntries(cs, rel) + FileEntries(cs, rel);
    EntriesExactly(cs, rel, x);
    if x in r {
      PermutationKeeps(all, r, x);
    }
    if x in all {
      PermutationKeeps(r, all, x);
    }
  }

  /** With ordinary segment names, the path rule gives the entry's location
      joined with `/`. */
  lemma ChildPathJoins(dir: Path, name: string)
    requires forall i :: 0 <= i < |dir| ==> dir[i] != ""
    ensures ChildPath(JoinPath(dir), name) == JoinPath(dir + [name])
  {
    JoinPathEmpty(dir);
    if dir != [] {
      JoinPathAppend(dir, name);
    }
  }

  // ---------------------------------------------------------------------------
  // Paths as the server handles them
  // ---------------------------------------------------------------------------

  /** `s.split('/')`. */
  function Split(s: string): (r: Path)
    ensures |r| >= 1
    decreases |s|
  {
    if s == [] then [""]
    else
      var rest := Split(s[1..]);
      if s[0] == '/' then [""] + rest else [[s[0]] + rest[0]] + rest[1..]
  }

  /** Joining the pieces of a split gives the string back. */
  lemma {:induction false} JoinSplit(s: string)
    ensures JoinPath(Split(s)) == s
    decreases |s|
  {
    if s != [] {
      JoinSplit(s[1..]);
      var rest := Split(s[1..]);
      if s[0] == '/' {
        assert ([""] + rest)[1..] == rest;
      } else {
        var r := [[s[0]] + rest[0]] + rest[1..];
        assert r[1..] == rest[1..];
        if |rest| > 1 {
          assert JoinPath(rest) == rest[0] + "/" + JoinPath(rest[1..]);
        }
      }
    }
  }

  /** Splitting a string made of segments without `/` gives the segments back. */
  lemma {:induction false} SplitJoin(segs: Path)
    requires |segs| >= 1 && forall i :: 0 <= i < |segs| ==> '/' !in segs[i]
    ensures Split(JoinPath(segs)) == segs
    decreases |JoinPath(segs)|, |segs|
  {
    if |segs| == 1 {
      SplitNoSlash(segs[0]);
    } else {
      var a := segs[0];
      var tail := segs[1..];
      SplitJoin(tail);
      SplitPrefix(a, JoinPath(tail));
    }
  }

  lemma {:induction false} SplitNoSlash(s: string)
    requires '/' !in s
    ensures Split(s) == [s]
    decreases |s|
  {
    if s != [] {
      SplitNoSlash(s[1..]);
      assert [s[0]] + s[1..] == s;
    }
  }

  /** Splitting `a + "/" + t`, where `a` has no `/`, gives `a` then the
      pieces of `t`. */
  lemma {:induction false} SplitPrefix(a: string, t: string)
    requires '/' !in a
    ensures Split(a + "/" + t) == [a] + Split(t)
    decreases |a|
  {
    var s := a + "/" + t;
    if a == [] {
      assert s == "/" + t && s[1..] == t;
    } else {
      assert s[1..] == a[1..] + "/" + t;
      SplitPrefix(a[1..], t);
      assert [a[0]] + a[1..] == a;
    }
  }

  /** An ordinary segment: neither empty, `.` nor `..`, and without `/`. */
  predicate Ordinary(s: string)
  {
    s != "" && s != "." && s != ".." && '/' !in s
  }

  /** `path.join(base, rel)` for an absolute, normalised `base` and the pieces
      of `rel`: empty and `.` pieces are dropped and `..` goes up, never above
      the file-system root. */
  function Resolve(base: Path, rel: Path): (r: Path)
    decreases |rel|
  {
    if rel == [] then base
    else
      var s := rel[0];
      var next :=
        if s == "" || s == "." then base
        else if s == ".." then (if base == [] then [] else base[..|base| - 1])
        else base + [s];
      Resolve(next, rel[1..])
  }

  /** Ordinary pieces are appended as they are. */
  lemma {:induction false} ResolveOrdinary(base: Path, rel: Path)
    requires forall i :: 0 <= i < |rel| ==> Ordinary(rel[i])
    ensures Resolve(base, rel) == base + rel
    decreases |rel|
  {
    if rel != [] {
      ResolveOrdinary(base + [rel[0]], rel[1..]);
      assert base + [rel[0]] + rel[1..] == base + rel;
    }
  }

  /** An ordinary last piece ends the resolved location. */
  lemma {:induction false} ResolveLast(base: Path, rel: Path, n: string)
    requires Ordinary(n)
    ensures Resolve(base, rel + [n]) == Resolve(base, rel) + [n]
    decreases |rel|
  {
    if rel == [] {
      assert [] + [n] == [n];
    } else {
      assert (rel + [n])[0] == rel[0];
      assert (rel + [n])[1..] == rel[1..] + [n];
      var s := rel[0];
      var next :=
        if s == "" || s == "." then base
        else if s == ".." then (if base == [] then [] else base[..|base| - 1])
        else base + [s];
      ResolveLast(next, rel[1..], n);
    }
  }

  /** The absolute path string of a location. */
  function Abs(p: Path): string
  {
    "/" + JoinPath(p)
  }

  // ---------------------------------------------------------------------------
  // The access check
  // ---------------------------------------------------------------------------

  /** `isPathSecure`: the content directory is a character prefix of the full
      path. */
  predicate IsPathSecure(contentDir: string, fullPath: string)
  {
    StartsWith(fullPath, contentDir)
  }

  /** The check the comment on `isPathSecure` describes: the location is the
      content directory or lies below it, segment by segment. */
  predicate IsPathWithin(contentDir: Path, loc: Path)
  {
    contentDir <= loc
  }

  /** The check a handler applies: as written, or the corrected one. */
  predicate Allowed(contentDir: Path, loc: Path, asWritten: bool)
  {
    if asWritten then IsPathSecure(Abs(contentDir), Abs(loc)) else IsPathWithin(contentDir, loc)
  }

  /** A location below the content directory passes the check as written too:
      the corrected check only rejects more. */
  lemma {:induction false} WithinIsSecure(contentDir: Path, loc: Path)
    requires IsPathWithin(contentDir, loc)
    ensures IsPathSecure(Abs(contentDir), Abs(loc))
    decreases |loc|
  {
    if |loc| == |contentDir| {
      assert loc == contentDir;
    } else if contentDir == [] {
      assert Abs(loc)[..1] == "/";
    } else {
      var front := loc[..|loc| - 1];
      assert IsPathWithin(contentDir, front);
      WithinIsSecure(contentDir, front);
      JoinPathAppend(front, loc[|loc| - 1]);
      assert front + [loc[|loc| - 1]] == loc;
      assert Abs(loc) == Abs(front) + ("/" + loc[|loc| - 1]);
      StartsWithShorter(Abs(loc), Abs(front), "/" + loc[|loc| - 1]);
      StartsWithTrans(Abs(loc), Abs(front), Abs(contentDir));
    }
  }

  /** `path.join("/srv/content", "../content-private/" + n)` passes the check
      as written, though the location lies outside the content directory. */
  lemma SiblingPassesAsWritten(n: string)
    requires Ordinary(n)
    ensures var base := ["srv", "content"];
      var loc := Resolve(base, ["..", "content-private", n]);
      && loc == ["srv", "content-private", n]
      && IsPathSecure(Abs(base), Abs(loc))
      && !IsPathWithin(base, loc)
  {
    var base := ["srv", "content"];
    var loc := ["srv", "content-private", n];
    SiblingResolves(n);
    SiblingAbs(n);
    assert loc[1] != base[1];
  }

  lemma SiblingResolves(n: string)
    requires Ordinary(n)
    ensures Resolve(["srv", "content"], ["..", "content-private", n]) == ["srv", "content-private", n]
  {
    var rel := ["..", "content-private", n];
    assert ["srv", "content"][..1] == ["srv"];
    assert Resolve(["srv", "content"], rel) == Resolve(["srv"], rel[1..]);
    assert rel[1..] == ["content-private", n];
    assert ["srv"] + ["content-private"] == ["srv", "content-private"];
    assert Resolve(["srv"], ["content-private", n]) == Resolve(["srv", "content-private"], [n]);
    assert ["srv", "content-private"] + [n] == ["srv", "content-private", n];
    assert Resolve(["srv", "content-private"], [n]) == Resolve(["srv", "content-private", n], []);
  }

  lemma SiblingAbs(n: string)
    ensures Abs(["srv", "content-private", n]) == Abs(["srv", "content"]) + ("-private/" + n)
    ensures StartsWith(Abs(["srv", "content-private", n]), Abs(["srv", "content"]))
  {
    var segs := ["srv", "content-private", n];
    assert segs[1..] == ["content-private", n];
    assert segs[1..][1..] == [n];
    assert JoinPath(["content-private", n]) == "content-private" + "/" + n;
    assert ["srv", "content"][1..] == ["content"];
    assert JoinPath(["srv", "content"]) == "srv" + "/" + "content";
    assert Abs(segs) == Abs(["srv", "content"]) + ("-private/" + n);
  }

  // ---------------------------------------------------------------------------
  // The handlers
  // ---------------------------------------------------------------------------

  /** A folder name that normalises to something non-empty is an ordinary
      segment. */
  lemma FolderNameOrdinary(name: string)
    requires NormalizeFolderName(name) != ""
    ensures Ordinary(NormalizeFolderName(name))
  {
    var n := NormalizeFolderName(name);
    assert IsFolderChar(n[0]);
    assert !IsFolderChar('/');
  }

  /** A normalised file name is always an ordinary segment. */
  lemma FileNameOrdinary(name: string)
    ensures Ordinary(NormalizeFilename(name))
  {
    var n := NormalizeFilename(name);
    assert n[|n| - 1] == 'd';
    assert !IsFileChar('/');
  }

  /** `handleCreateFolder` up to the file-system calls: the location of the new
      folder inside the content directory `contentDir`, or the error the
      handler answers with. `existing` is the set of locations that exist. */
  function CreateFolder(contentDir: Path, parentPath: string, name: string, existing: set<Path>, asWritten: bool): (r: Result<Path>)
    ensures r.Failure? && r.status == 400 <==> NormalizeFolderName(name) == ""
    ensures r.Failure? && r.status == 403 <==>
      NormalizeFolderName(name) != "" && !Allowed(contentDir, Resolve(contentDir, Split(parentPath)) + [NormalizeFolderName(name)], asWritten)
    ensures r.Failure? && r.status == 409 <==>
      && NormalizeFolderName(name) != ""
      && Allowed(contentDir, Resolve(contentDir, Split(parentPath)) + [NormalizeFolderName(name)], asWritten)
      && Resolve(contentDir, Split(parentPath)) + [NormalizeFolderName(name)] in existing
    ensures r.Ok? <==>
      && NormalizeFolderName(name) != ""
      && Allowed(contentDir, Resolve(contentDir, Split(parentPath)) + [NormalizeFolderName(name)], asWritten)
      && Resolve(contentDir, Split(parentPath)) + [NormalizeFolderName(name)] !in existing
    ensures r.Ok? ==> r.value == Resolve(contentDir, Split(parentPath)) + [NormalizeFolderName(name)]
    ensures r.Ok? ==> r.value !in existing && Allowed(contentDir, r.value, asWritten)
    ensures r.Ok? && !asWritten ==> IsPathWithin(contentDir, r.value)
  {
    var folderName := NormalizeFolderName(name);
    if folderName == "" then Failure(400, "Invalid folder name")
    else
      FolderNameOrdinary(name);
      ResolveLast(contentDir, Split(parentPath), folderName);
      var loc := Resolve(contentDir, Split(parentPath) + [folderName]);
      if !Allowed(contentDir, loc, asWritten) then Failure(403, "Access denied")
      else if loc in existing then Failure(409, "Folder already exists")
      else Ok(loc)
  }

  /** A name of punctuation alone is refused with 400. */
  lemma CreateFolderPunctuation(contentDir: Path, parentPath: string, existing: set<Path>, asWritten: bool)
    ensures CreateFolder(contentDir, parentPath, "?!", existing, asWritten) == Failure(400, "Invalid folder name")
  {
    FolderPunctuation();
  }

  /** `handleCreateFile` up to the file-system calls. The normalised name is
      never empty, so the handler never answers "Invalid file name". */
  function CreateFile(contentDir: Path, parentPath: string, name: string, existing: set<Path>, asWritten: bool): (r: Result<Path>)
    ensures r.Failure? ==> r.status == 403 || r.status == 409
    ensures r.Failure? && r.status == 403 <==>
      !Allowed(contentDir, Resolve(contentDir, Split(parentPath)) + [NormalizeFilename(name)], asWritten)
    ensures r.Failure? && r.status == 409 <==>
      && Allowed(contentDir, Resolve(contentDir, Split(parentPath)) + [NormalizeFilename(name)], asWritten)
      && Resolve(contentDir, Split(parentPath)) + [NormalizeFilename(name)] in existing
    ensures r.Ok? <==>
      && Allowed(contentDir, Resolve(contentDir, Split(parentPath)) + [NormalizeFilename(name)], asWritten)
      && Resolve(contentDir, Split(parentPath)) + [NormalizeFilename(name)] !in existing
    ensures r.Ok? ==> r.value == Resolve(contentDir, Split(parentPath)) + [NormalizeFilename(name)]
    ensures r.Ok? ==> r.value !in existing && Allowed(contentDir, r.value, asWritten)
    ensures r.Ok? && !asWritten ==> IsPathWithin(contentDir, r.value)
  {
    var fileName := NormalizeFilename(name);
    if fileName == "" then Failure(400, "Invalid file name")
    else
      FileNameOrdinary(name);
      ResolveLast(contentDir, Split(parentPath), fileName);
      var loc := Resolve(contentDir, Split(parentPath) + [fileName]);
      if !Allowed(contentDir, loc, asWritten) then Failure(403, "Access denied")
      else if loc in existing then Failure(409, "File already exists")
      else Ok(loc)
  }

  /** The corrected check refuses the folder the check as written lets a
      client create next to the content directory. */
  lemma CreateFolderOutside(name: string)
    requires NormalizeFolderName(name) != ""
    ensures var base := ["srv", "content"];
      && CreateFolder(base, "../content-private", name, {}, true).Ok?
      && !IsPathWithin(base, CreateFolder(base, "../content-private", name, {}, true).value)
      && CreateFolder(base, "../content-private", name, {}, false) == Failure(403, "Access denied")
  {
    var n := NormalizeFolderName(name);
    FolderNameOrdinary(name);
    SplitSibling();
    ResolveLast(["srv", "content"], ["..", "content-private"], n);
    assert ["..", "content-private"] + [n] == ["..", "content-private", n];
    SiblingPassesAsWritten(n);
  }

  lemma SplitSibling()
    ensures Split("../content-private") == ["..", "content-private"]
  {
    assert "../content-private" == ".." + "/" + "content-private";
    SplitTwo("..", "content-private");
  }

  lemma SplitTwo(a: string, b: string)
    requires '/' !in a && '/' !in b
    ensures Split(a + "/" + b) == [a, b]
  {
    SplitPrefix(a, b);
    SplitNoSlash(b);
  }

  // ---------------------------------------------------------------------------
  // Rename
  // ---------------------------------------------------------------------------

  /** The index of the last `/` in `s`, if any. */
  function LastSlash(s: string): (r: Option<nat>)
    ensures r.Some? ==> r.value < |s| && s[r.value] == '/' && '/' !in s[r.value + 1..]
    ensures r.None? ==> '/' !in s
    decreases |s|
  {
    if s == [] then None
    else if s[|s| - 1] == '/' then Some(|s| - 1)
    else
      var r := LastSlash(s[..|s| - 1]);
      assert r.Some? ==> s[r.value + 1..] == s[..|s| - 1][r.value + 1..] + [s[|s| - 1]];
      assert r.None? ==> s == s[..|s| - 1] + [s[|s| - 1]];
      r
  }

  /** `path.dirname` for a path without a trailing or doubled `/`: everything
      before the last `/`, `/` for a rooted name, `.` for a bare name. */
  function DirName(s: string): string
  {
    match LastSlash(s)
    case None => "."
    case Some(i) => if i == 0 then "/" else s[..i]
  }

  /** `path.join(parent, name)` for a normalised `parent` and a name without
      `/`: an empty name adds nothing. */
  function JoinName(parent: string, name: string): string
  {
    if name == "" then parent else parent + "/" + name
  }

  /** The name a rename gives its target. */
  function NewName(newName: string, isFolder: bool): string
  {
    if isFolder then NormalizeFolderName(newName) else NormalizeFilename(newName)
  }

  /** The rename target path in `handleRename`: the normalised new name `n`
      in the old entry's directory. */
  function RenameTarget(oldPath: string, n: string): string
  {
    var parentDir := DirName(oldPath);
    if parentDir == "." then n else JoinName(parentDir, n)
  }

  lemma {:induction false} LastSlashAfter(a: string, b: string)
    requires '/' !in b
    ensures LastSlash(a + "/" + b) == Some(|a|)
    decreases |b|
  {
    var s := a + "/" + b;
    if b != [] {
      assert s[..|s| - 1] == a + "/" + b[..|b| - 1];
      LastSlashAfter(a, b[..|b| - 1]);
    }
  }

  /** A rename keeps the entry in its directory: renaming the entry at
      `front + [last]` (joined with `/`) to the normalised name `n` targets
      `front + [n]`; an empty name targets the directory `front` itself. */
  lemma RenameKeepsParent(front: Path, last: string, n: string)
    requires Ordinary(last) && forall i :: 0 <= i < |front| ==> Ordinary(front[i])
    ensures RenameTarget(JoinPath(front + [last]), n) == JoinPath(front + (if n == "" then [] else [n]))
  {
    if front == [] {
      RenameKeepsRoot(last, n);
    } else if n == "" {
      RenameNested(front, last, n);
      assert front + [] == front;
    } else {
      RenameNested(front, last, n);
      JoinPathAppend(front, n);
    }
  }

  lemma RenameKeepsRoot(last: string, n: string)
    requires '/' !in last
    ensures RenameTarget(JoinPath([] + [last]), n) == JoinPath([] + (if n == "" then [] else [n]))
  {
    RenameAtRoot(last, n);
    assert [] + [last] == [last];
    assert [] + (if n == "" then [] else [n]) == (if n == "" then [] else [n]);
  }

  /** A rename at the top level targets the new name alone. */
  lemma RenameAtRoot(last: string, n: string)
    requires '/' !in last
    ensures RenameTarget(JoinPath([last]), n) == n
  {
    assert LastSlash(last).None?;
  }

  /** A nested rename targets the new name in the old parent. */
  lemma RenameNested(front: Path, last: string, n: string)
    requires front != [] && '/' !in last && forall i :: 0 <= i < |front| ==> Ordinary(front[i])
    ensures RenameTarget(JoinPath(front + [last]), n) == JoinName(JoinPath(front), n)
  {
    DirNameOfJoin(front, last);
  }

  /** The directory of joined segments is the join of all but the last. */
  lemma DirNameOfJoin(front: Path, last: string)
    requires front != [] && '/' !in last && forall i :: 0 <= i < |front| ==> Ordinary(front[i])
    ensures DirName(JoinPath(front + [last])) == JoinPath(front) && JoinPath(front) != "."
  {
    JoinPathAppend(front, last);
    JoinPathNotDot(front);
    DirNameAfter(JoinPath(front), last);
  }

  lemma DirNameAfter(a: string, b: string)
    requires a != "" && '/' !in b
    ensures DirName(a + "/" + b) == a
  {
    LastSlashAfter(a, b);
    assert (a + "/" + b)[..|a|] == a;
  }

  /** Joined ordinary segments are neither empty nor `.`. */
  lemma JoinPathNotDot(front: Path)
    requires |front| > 0 && forall i :: 0 <= i < |front| ==> Ordinary(front[i])
    ensures |JoinPath(front)| > 0 && JoinPath(front) != "."
  {
    if |front| > 1 {
      assert JoinPath(front) == front[0] + "/" + JoinPath(front[1..]);
      assert JoinPath(front)[|front[0]|] == '/';
    }
  }

  /** `handleRename` up to the file-system calls: the new relative path, or
      the error the handler answers with. `existing` is the set of locations
      that exist. */
  function Rename(contentDir: Path, oldPath: string, newName: string, isFolder: bool, existing: set<Path>, asWritten: bool): (r: Result<string>)
    ensures r.Ok? ==> r.value == RenameTarget(oldPath, NewName(newName, isFolder))
    ensures r.Ok? ==> Resolve(contentDir, Split(oldPath)) in existing && Resolve(contentDir, Split(r.value)) !in existing
    ensures r.Ok? ==> Allowed(contentDir, Resolve(contentDir, Split(oldPath)), asWritten) && Allowed(contentDir, Resolve(contentDir, Split(r.value)), asWritten)
    ensures r.Failure? ==> r.status in {403, 404, 409}
    ensures r.Failure? && r.status == 403 <==>
      || !Allowed(contentDir, Resolve(contentDir, Split(oldPath)), asWritten)
      || !Allowed(contentDir, Resolve(contentDir, Split(RenameTarget(oldPath, NewName(newName, isFolder)))), asWritten)
    ensures r.Failure? && r.status == 404 <==>
      && Allowed(contentDir, Resolve(contentDir, Split(oldPath)), asWritten)
      && Allowed(contentDir, Resolve(contentDir, Split(RenameTarget(oldPath, NewName(newName, isFolder)))), asWritten)
      && Resolve(contentDir, Split(oldPath)) !in existing
    ensures r.Failure? && r.status == 409 <==>
      && Allowed(contentDir, Resolve(contentDir, Split(oldPath)), asWritten)
      && Allowed(contentDir, Resolve(contentDir, Split(RenameTarget(oldPath, NewName(newName, isFolder)))), asWritten)
      && Resolve(contentDir, Split(oldPath)) in existing
      && Resolve(contentDir, Split(RenameTarget(oldPath, NewName(newName, isFolder)))) in existing
    ensures r.Ok? <==>
      && Allowed(contentDir, Resolve(contentDir, Split(oldPath)), asWritten)
      && Allowed(contentDir, Resolve(contentDir, Split(RenameTarget(oldPath, NewName(newName, isFolder)))), asWritten)
      && Resolve(contentDir, Split(oldPath)) in existing
      && Resolve(contentDir, Split(RenameTarget(oldPath, NewName(newName, isFolder)))) !in existing
  {
    var newPath := RenameTarget(oldPath, NewName(newName, isFolder));
    var oldLoc := Resolve(contentDir, Split(oldPath));
    var newLoc := Resolve(contentDir, Split(newPath));
    if !Allowed(contentDir, oldLoc, asWritten) || !Allowed(contentDir, newLoc, asWritten) then Failure(403, "Access denied")
    else if oldLoc !in existing then Failure(404, "Source not found")
    else if newLoc in existing then Failure(409, "Target already exists")
    else Ok(newPath)
  }

  /** Renaming an entry that exists to a name that does not moves nothing
      out of its directory: the target lies beside the source. */
  lemma RenameBeside(contentDir: Path, front: Path, last: string, newName: string, isFolder: bool, existing: set<Path>)
    requires Ordinary(last) && forall i :: 0 <= i < |front| ==> Ordinary(front[i])
    requires NewName(newName, isFolder) != ""
    ensures var r := Rename(contentDir, JoinPath(front + [last]), newName, isFolder, existing, false);
      r.Ok? ==> Resolve(contentDir, Split(r.value)) == contentDir + front + [NewName(newName, isFolder)]
  {
    var n := NewName(newName, isFolder);
    if isFolder {
      FolderNameOrdinary(newName);
    } else {
      FileNameOrdinary(newName);
    }
    TargetResolves(contentDir, front, last, n);
  }

  /** The target of renaming `front + [last]` to the ordinary name `n`
      resolves to `n` in the same directory. */
  lemma TargetResolves(contentDir: Path, front: Path, last: string, n: string)
    requires Ordinary(last) && Ordinary(n) && forall i :: 0 <= i < |front| ==> Ordinary(front[i])
    ensures Resolve(contentDir, Split(RenameTarget(JoinPath(front + [last]), n))) == contentDir + front + [n]
  {
    RenameKeepsParent(front, last, n);
    var target := front + [n];
    assert forall i :: 0 <= i < |target| ==> Ordinary(target[i]) by {
      forall i | 0 <= i < |target|
        ensures Ordinary(target[i])
      {
        if i < |front| {
          assert target[i] == front[i];
        }
      }
    }
    SplitJoin(target);
    ResolveOrdinary(contentDir, target);
    assert contentDir + target == contentDir + front + [n];
  }
}
