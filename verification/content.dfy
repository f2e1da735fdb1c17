/** The content directory as an immutable tree, and the titles the site
    generator derives for its entries. */
module Content {
  import opened Wrappers
  import opened Chars
  import opened Strings
  import opened Slug

  /** A location under the content root, one segment per directory level. */
  type Path = seq<string>

  /** One directory entry: a folder with its entries in directory order, or a
      file with the `title` key of its frontmatter (None when the file has no
      such key or is not markdown). */
  datatype Node = Folder(name: string, children: seq<Node>) | File(name: string, title: Option<string>)

  /** The reserved file that gives a folder its title and its own page. */
  const IndexName: string := "_index.md"

  predicate IsHidden(name: string) { |name| > 0 && name[0] == '.' }

  predicate IsMarkdown(name: string) { EndsWith(name, ".md") }

  /** A folder that the URL table and the sidebar list. */
  predicate IsSection(n: Node) { n.Folder? && !IsHidden(n.name) }

  /** A markdown file with its own URL: visible, `.md`, and not the index. */
  predicate IsPage(n: Node) { n.File? && !IsHidden(n.name) && IsMarkdown(n.name) && n.name != IndexName }

  /** A frontmatter title used as a JavaScript condition: only a non-empty string counts. */
  function Truthy(title: Option<string>): (r: Option<string>)
    ensures r.Some? <==> title.Some? && title.value != ""
    ensures r.Some? ==> r == title
  {
    if title.Some? && title.value != "" then title else None
  }

  /** The first entry of `cs` called `name`. */
  function FindChild(cs: seq<Node>, name: string): (r: Option<Node>)
    ensures r.Some? ==> r.value in cs && r.value.name == name
    ensures r.None? <==> forall i :: 0 <= i < |cs| ==> cs[i].name != name
  {
    if cs == [] then None
    else if cs[0].name == name then Some(cs[0])
    else FindChild(cs[1..], name)
  }

  /** The entry at `p` below the entries `cs`. */
  function NodeAt(cs: seq<Node>, p: Path): Option<Node>
    decreases p
  {
    if p == [] then None
    else match FindChild(cs, p[0])
      case None => None
      case Some(n) =>
        if |p| == 1 then Some(n)
        else if n.Folder? then NodeAt(n.children, p[1..])
        else None
  }

  /** The truthy frontmatter title of a folder's `_index.md`, if it has one. */
  function IndexTitle(cs: seq<Node>): Option<string>
  {
    match FindChild(cs, IndexName)
    case Some(File(_, t)) => Truthy(t)
    case _ => None
  }

  /** A folder's title: its index page's frontmatter title, else its formatted name. */
  function FolderTitle(f: Node): string
    requires f.Folder?
  {
    match IndexTitle(f.children)
    case Some(t) => t
    case None => FormatTitle(f.name)
  }

  /** `path.basename(name, '.md')`: the extension removed, unless nothing would remain. */
  function PageStem(name: string): (r: string)
    ensures IsMarkdown(name) && |name| > 3 ==> r + ".md" == name
    ensures !(IsMarkdown(name) && |name| > 3) ==> r == name
  {
    if IsMarkdown(name) && |name| > 3 then name[..|name| - 3] else name
  }

  /** `name.replace('.md', '')` as the URL pass and the breadcrumbs write it:
      the FIRST `.md` is removed, wherever it is. */
  function StemAsWritten(name: string): string
  {
    ReplaceFirst(name, ".md", "")
  }

  /** The page title as the URL pass computes it, from `StemAsWritten`. */
  function PageTitleAsWritten(f: Node): string
    requires f.File?
  {
    match Truthy(f.title)
    case Some(t) => t
    case None => FormatTitle(StemAsWritten(f.name))
  }

  /** When the extension is the only `.md` in the name, both readings agree. */
  lemma StemAsWrittenAgrees(stem: string)
    requires !Contains(stem, ".md") && stem != ""
    ensures StemAsWritten(stem + ".md") == stem
    ensures PageStem(stem + ".md") == stem
  {
    ReplaceFirstMd(stem, "");
    assert stem + ".md" + "" == stem + ".md";
    assert stem + "" == stem;
    assert EndsWith(stem + ".md", ".md");
  }

  /** A page named `a.md-b.md`, where `a` holds no `.md`, gets a different
      title from the URL pass than on its own page. */
  lemma AsWrittenTitleDiffersFor(a: string, b: string)
    requires !Contains(a, ".md") && |b| > 0 && b[0] == '-'
    ensures PageTitleAsWritten(File(a + ".md" + b + ".md", None)) != PageTitle(File(a + ".md" + b + ".md", None))
  {
    var name := a + ".md" + b + ".md";
    assert name == a + ".md" + (b + ".md");
    ReplaceFirstMd(a, b + ".md");
    var asWritten := a + (b + ".md");
    assert StemAsWritten(name) == asWritten;
    var stem := a + ".md" + b;
    assert name == stem + ".md";
    assert PageStem(name) == stem;
    assert asWritten[|a|] == '-';
    assert stem[|a|] == '.';
    FormatTitleAt(asWritten, |a|);
    FormatTitleAt(stem, |a|);
  }

  /** For instance, `notes.md-draft.md` is titled `Notes Draft.Md` by the URL
      pass and `Notes.Md Draft` on its own page. */
  lemma AsWrittenTitleDiffers()
    ensures PageTitleAsWritten(File("notes.md-draft.md", None)) == "Notes Draft.Md"
    ensures PageTitle(File("notes.md-draft.md", None)) == "Notes.Md Draft"
    ensures PageTitleAsWritten(File("notes.md-draft.md", None)) != PageTitle(File("notes.md-draft.md", None))
  {
    NotesDraftStems();
    NotesDraftTitleAsWritten();
    NotesDraftTitle();
  }

  lemma NotesDraftTitleAsWritten()
    ensures FormatTitle("notes-draft.md") == "Notes Draft.Md"
  {
    FormatTitleOf("notes-draft.md", "notes draft.md", "Notes Draft.Md");
  }

  lemma NotesDraftTitle()
    ensures FormatTitle("notes.md-draft") == "Notes.Md Draft"
  {
    FormatTitleOf("notes.md-draft", "notes.md draft", "Notes.Md Draft");
  }

  /** The two stems of `notes.md-draft.md`. */
  lemma NotesDraftStems()
    ensures StemAsWritten("notes.md-draft.md") == "notes-draft.md"
    ensures PageStem("notes.md-draft.md") == "notes.md-draft"
  {
    NotesDraftStemAsWritten();
    NotesDraftPageStem();
  }

  lemma NotesDraftStemAsWritten()
    ensures StemAsWritten("notes.md-draft.md") == "notes-draft.md"
  {
    NotesHasNoMd();
    StemAsWrittenOf("notes", "-draft.md", "notes.md-draft.md", "notes-draft.md");
  }

  /** First-occurrence removal on `a + ".md" + b`, where `a` holds no `.md`. */
  lemma StemAsWrittenOf(a: string, b: string, name: string, stem: string)
    requires !Contains(a, ".md") && name == a + ".md" + b && stem == a + b
    ensures StemAsWritten(name) == stem
  {
    ReplaceFirstMd(a, b);
  }

  lemma NotesDraftPageStem()
    ensures PageStem("notes.md-draft.md") == "notes.md-draft"
  {
    var name := "notes.md-draft.md";
    assert name[14..] == ".md";
    assert name[..14] == "notes.md-draft";
  }

  lemma NotesHasNoMd()
    ensures !Contains("notes", ".md")
  {
    NoDotNoMd("notes");
  }

  /** Formatting turns a separator into a space and keeps any character that
      is neither a separator nor a lower-case letter. */
  lemma FormatTitleAt(name: string, i: nat)
    requires i < |name|
    ensures name[i] == '-' || name[i] == '_' ==> FormatTitle(name)[i] == ' '
    ensures name[i] != '-' && name[i] != '_' && !IsLower(name[i]) ==> FormatTitle(name)[i] == name[i]
  {
  }

  /** A page's title: its frontmatter title, else its formatted file name without the extension. */
  function PageTitle(f: Node): string
    requires f.File?
  {
    match Truthy(f.title)
    case Some(t) => t
    case None => FormatTitle(PageStem(f.name))
  }

  /** The name of the directory holding the entry at `filePath`; `rootName`
      is the name of the content directory itself. */
  function DirName(filePath: Path, rootName: string): string
    requires |filePath| > 0
  {
    if |filePath| == 1 then rootName else filePath[|filePath| - 2]
  }

  /** `getTitle`: the frontmatter title; otherwise the formatted base name, or
      for an index page the formatted name of its directory. */
  function GetTitle(filePath: Path, title: Option<string>, rootName: string): string
    requires |filePath| > 0
  {
    match Truthy(title)
    case Some(t) => t
    case None =>
      var base := PageStem(filePath[|filePath| - 1]);
      if base == "_index" then FormatTitle(DirName(filePath, rootName)) else FormatTitle(base)
  }

  /** `getTitle` of a page: its non-empty frontmatter title, else its file
      name without the `.md` extension, formatted. This is `PageTitle`, the
      title the corrected URL pass slugs. */
  lemma GetTitleOfPage(dir: Path, f: Node, rootName: string)
    requires IsPage(f)
    ensures GetTitle(dir + [f.name], f.title, rootName) == PageTitle(f)
    ensures f.title.Some? && f.title.value != "" ==> PageTitle(f) == f.title.value
    ensures !(f.title.Some? && f.title.value != "") && |f.name| > 3 ==>
      PageStem(f.name) + ".md" == f.name && PageTitle(f) == FormatTitle(PageStem(f.name))
  {
    var p := dir + [f.name];
    assert p[|p| - 1] == f.name;
  }

  /** An index page's title is its folder's title. */
  lemma GetTitleOfIndex(dir: Path, folder: Node, index: Node, rootName: string)
    requires folder.Folder? && FindChild(folder.children, IndexName) == Some(index) && index.File?
    ensures GetTitle(dir + [folder.name, IndexName], index.title, rootName) == FolderTitle(folder)
  {
    var p := dir + [folder.name, IndexName];
    assert p[|p| - 1] == IndexName && p[|p| - 2] == folder.name;
    assert PageStem(IndexName) == "_index";
  }

  /** The content root's own index page takes its title from the content directory's name. */
  lemma GetTitleOfRootIndex(title: Option<string>, rootName: string)
    ensures Truthy(title).None? ==> GetTitle([IndexName], title, rootName) == FormatTitle(rootName)
    ensures Truthy(title).Some? ==> GetTitle([IndexName], title, rootName) == title.value
  {
    assert PageStem(IndexName) == "_index";
  }

  /** A name a directory entry can have. */
  predicate ValidName(name: string) { name != "" && '/' !in name }

  /** The shape every content directory has: sibling names are distinct and
      valid, and no folder has a markdown name (the generator reads such a
      folder as a file and fails). */
  predicate WellFormed(cs: seq<Node>)
    decreases cs
  {
    && (forall i, j :: 0 <= i < j < |cs| ==> cs[i].name != cs[j].name)
    && (forall i :: 0 <= i < |cs| ==> ValidName(cs[i].name))
    && (forall i :: 0 <= i < |cs| ==> cs[i].Folder? ==> !IsMarkdown(cs[i].name) && WellFormed(cs[i].children))
  }

  /** In a well-formed directory, looking an entry up by its name finds that entry. */
  lemma FindChildOfMember(cs: seq<Node>, c: Node)
    requires WellFormed(cs) && c in cs
    ensures FindChild(cs, c.name) == Some(c)
  {
    var i :| 0 <= i < |cs| && cs[i] == c;
    if cs[0] != c {
      assert cs[0].name != c.name;
      assert cs[1..][i - 1] == c;
      WellFormedTail(cs);
      FindChildOfMember(cs[1..], c);
    }
  }

  lemma WellFormedTail(cs: seq<Node>)
    requires WellFormed(cs) && |cs| > 0
    ensures WellFormed(cs[1..])
  {
    var t := cs[1..];
    assert forall i :: 0 <= i < |t| ==> t[i] == cs[i + 1];
  }

  lemma WellFormedChild(cs: seq<Node>, c: Node)
    requires WellFormed(cs) && c in cs && c.Folder?
    ensures WellFormed(c.children) && !IsMarkdown(c.name) && ValidName(c.name)
  {
  }
}
