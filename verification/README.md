# Static site generator and editor: names, URLs and navigation

This project models the pure logic at the heart of a small Markdown static-site generator (`build.js`) and its companion editor server (`editor-server.js`). The logic turns a content directory into page titles, URL slugs, a URL table, a sidebar tree and breadcrumb trails. It also cleans up the names a user types into the editor and decides where the editor's create and rename operations may write.

The content directory is an immutable tree (`Content.Node`):
- a node is a `Folder` with children, or a `File` with an optional frontmatter title;
- locations are segment sequences relative to the content root (`Path = seq<string>`);
- the URL table is a `map<Path, string>`.

Every recursive pass of the source (`buildUrlMap`, `buildFullNavTree`, `scanDirectory`, the breadcrumb walk) is a total function over that tree. Each pass is paired with an independent reference definition and a lemma that connects the two:
- `UrlMap.UrlOf` is a path lookup in the tree, the reference for the URL table;
- `Breadcrumbs.Trail` is the list of folders along a path, the reference for breadcrumbs;
- `Sidebar.ItemOf` and `Editor.Listed` describe exactly which entries the sidebar and the editor tree contain.

Modules:
- `Wrappers`: `Option` and `Result`.
- `Chars`: ASCII character classes and case mapping.
- `Strings`: prefixes, suffixes, filtering, run collapsing, first-occurrence replace, path joining.
- `Slug`: `formatTitle`, `slugify`, `normalizeFilename`, `normalizeFolderName`.
- `Content`: the tree and `getTitle`.
- `Sorting`: an insertion sort by a string key.
- `UrlMap`: `buildUrlMap` and `getUrlPath`.
- `Sidebar`: `buildFullNavTree`.
- `Breadcrumbs`: the breadcrumb part of `buildNavigationTree`.
- `Editor`: `scanDirectory`, `isPathSecure`, and the create and rename handlers.

The generator names its content directory; that name enters the model as `rootName`, used for the title of the root index page. The editor's absolute content directory is the parameter `contentDir`.

## Model

| member | source | states |
|---|---|---|
| Chars.Lower | build.js:228 | lower-casing keeps the length and maps each character by ASCII `toLowerCase` |
| Slug.FormatTitle | build.js:214-218 | keeps the length; no `-` or `_` survives; every character that starts a word is not a lower-case letter; other characters are unchanged apart from separators becoming spaces |
| Slug.FormatTitleIdempotent | build.js:214-218 | formatting an already formatted title changes nothing |
| Slug.FormatTitleExamples | editor-server.js:207-215 | `my-new-article` becomes `My New Article`, `getting_started` becomes `Getting Started`, `my_page` becomes `My Page` |
| Slug.Slugify | build.js:225-232 | the slug has only `a-z`, `0-9` and `-`, never starts or ends with `-` and has no `--`; it keeps exactly the lower-cased title's letters and digits, in order; it is empty exactly when the title has none |
| Slug.SlugifyFixpoint | build.js:225-232 | a string is left unchanged by `slugify` exactly when it is already a slug |
| Slug.SlugifyIdempotent | build.js:225-232 | `slugify(slugify(x)) == slugify(x)` |
| Slug.SlugifyExamples | build.js:225-232 | `Getting Started` becomes `getting-started`, `My Page` becomes `my-page`, and all-punctuation input gives the empty slug |
| Slug.NormalizeFolderName | editor-server.js:151-158 | the result has only `a-z`, `0-9`, `-` and `_`, no leading or trailing `-` and no `--`; it keeps the lower-cased input's letters, digits and underscores in order; it is empty exactly when the input has none |
| Slug.NormalizeFolderNameIdempotent | editor-server.js:151-158 | normalising a normalised folder name changes nothing |
| Slug.NormalizeFolderNameExamples | editor-server.js:148-149 | `My Category` becomes `my-category`, `Test Folder!` becomes `test-folder`, `?!` becomes the empty name |
| Slug.NormalizeFilename | editor-server.js:125-139 | the result always ends in `.md` (so it is never empty); it holds only `a-z`, `0-9`, `-`, `_` and `.`; it begins with the cleaned name |
| Slug.NormalizeFilenameIdempotent | editor-server.js:125-139 | normalising a normalised file name changes nothing |
| Slug.NormalizeFilenameExamples | editor-server.js:121-123 | `My New File` becomes `my-new-file.md`, `test.md` stays, `Hello World.md` becomes `hello-world.md`, and `!!` becomes `.md` |
| Content.Truthy | build.js:196 | a frontmatter title counts exactly when it is present and non-empty |
| Content.FindChild | build.js:248-250 | a found child is a member with the name; no child is found exactly when no member has the name |
| Content.PageStem | build.js:563 | for a `.md` name longer than the extension, stem + `.md` is the name; any other name is its own stem |
| Content.GetTitleOfPage | build.js:195-207 | `getTitle` of a page is its non-empty frontmatter title; without one, it is the formatted file name with its `.md` extension removed (stem + `.md` is the name). This is `PageTitle`, which the model's URL table slugs; the source's URL pass takes a different stem (Findings rows 1 and 2) |
| Content.GetTitleOfIndex | build.js:195-207 | `getTitle` of a folder's `_index.md` is the folder's title: the index's frontmatter title, else the formatted folder name |
| Content.GetTitleOfRootIndex | build.js:195-207 | the root `_index.md` takes its frontmatter title, else the formatted name of the content directory |
| Content.StemAsWrittenAgrees | build.js:281 | for a name with one `.md`, at the end, first-occurrence removal and suffix removal agree |
| Content.AsWrittenTitleDiffers | build.js:281 | for `notes.md-draft.md` the URL pass's title is `Notes Draft.Md`, while `getTitle` gives `Notes.Md Draft` |
| Sorting.InsertBy | build.js:391-392 | inserting into a key-sorted sequence keeps it sorted and adds exactly the one element |
| Sorting.SortBy | build.js:391-392 | the result is sorted by key and is a permutation of the input |
| Sorting.LexLeTotal | build.js:391 | any two keys are comparable |
| Sorting.LexLeTrans | build.js:391 | the key order is transitive |
| UrlMap.SectionUrl | build.js:265-270 | a folder URL extends its parent's prefix by `/` and ends in `/` |
| UrlMap.PageUrl | build.js:281-284 | a page URL extends its parent's prefix by `/` |
| UrlMap.TableShape | build.js:245-291 | every key of the URL table is a non-empty path with no hidden segment, and every URL starts with `/` |
| UrlMap.TableAt | build.js:245-291 | a path has an entry in the table exactly when the tree lookup `UrlOf` finds a URL for it, and the two URLs are equal |
| UrlMap.FolderEntry | build.js:262-275 | a visible folder's entry is its parent section's path, `/`, the slug of the folder's title and a final `/`; its `_index.md`, when present, has the same URL |
| UrlMap.PageEntry | build.js:278-285 | a visible non-index page's entry is its parent section's path, `/` and the slug of its `getTitle` title (the corrected stem; see Findings row 2) |
| UrlMap.UnlistedEntry | build.js:248-286 | hidden entries and non-`.md` files have no entry |
| UrlMap.SectionIndex | build.js:262-275 | a folder section's own key and its `_index.md` both map to the section path with a final `/`, so an index never adds a segment of its own |
| UrlMap.AsWrittenTableAgrees | build.js:278-285 | when no page name has `.md` before its extension, the table as written (first `.md` removed) is exactly the model's table |
| UrlMap.AsWrittenUrlDiffers | build.js:281-284 | for a root holding only `notes.md-draft.md`, the table as written maps it to `/` + slugify(`Notes Draft.Md`), the corrected table to `/` + slugify(`Notes.Md Draft`), and the two URLs differ |
| UrlMap.IndexIsNotPage | build.js:278-279 | the root `_index.md` gets no entry |
| UrlMap.FallbackUrl | build.js:313-326 | the fallback URL starts and ends with `/` and has no `//` |
| UrlMap.FallbackRootIndex | build.js:313-326 | the root `_index.md` falls back to `/` |
| UrlMap.GetUrlPath | build.js:298-327 | a table hit is returned unchanged; otherwise the parent directory's entry, and either way the URL is a table value; when both miss, the result is exactly `FallbackUrl` of the path, which starts and ends with `/` and has no `//` |
| UrlMap.RenderedUrl | build.js:559-565 | the URL a rendered page gets: a page its own slug URL, a folder's index its section URL, the root index `/` |
| Sidebar.LookupOr | build.js:365-378 | the table's URL when it has a non-empty one, else the fallback |
| Sidebar.BuildFullNavTree | build.js:339-395 | all folders precede all files; each group is sorted by title; a folder is expanded exactly when the current URL starts with its URL; a file is current exactly when its URL is the current URL; only visible items, only non-index `.md` files; a permutation of the listed items |
| Sidebar.SidebarListsExactly | build.js:349-389 | an item is in the sidebar exactly when it is the folder item of a visible folder or the file item of a visible non-index `.md` page of the directory |
| Sidebar.SidebarNested | build.js:365-378 | every sidebar item's URL extends the URL of the section that lists it, at every depth |
| Sidebar.NestedFolderExpanded | build.js:365-372 | in a sidebar whose URLs nest, every folder at any depth that holds the current page is expanded |
| Sidebar.CurrentPathExpanded | build.js:365-372 | with the generator's own table, every folder of the whole sidebar, at any depth, that holds the current page is expanded |
| Breadcrumbs.NonEmpty | build.js:411 | every kept segment is a non-empty segment of the path, every non-empty segment is kept, the result is no longer, and a path without empty segments is unchanged |
| Breadcrumbs.NonEmptyAppend | build.js:411 | dropping empty segments distributes over concatenation, so the kept segments stay in order |
| Breadcrumbs.Walk | build.js:417-457 | at most one crumb per segment; every crumb's URL is a non-empty value of the table |
| Breadcrumbs.Breadcrumbs | build.js:403-460 | the trail starts with Home at `/`, has at most one crumb per segment beyond it, and every later crumb's URL is a non-empty table value |
| Breadcrumbs.BreadcrumbsOf | build.js:403-460 | for a page in a folder, the trail is Home, then one crumb per folder on the way (its title and section URL), then the page's own crumb unless it is `_index.md` |
| Breadcrumbs.BreadcrumbsNested | build.js:417-457 | each crumb's URL extends the previous crumb's URL |
| Breadcrumbs.PageKeyAgrees | build.js:429 | when no folder name and no stem contains `.md`, the source's page lookup key is the page's own location |
| Breadcrumbs.BreadcrumbsAgree | build.js:427-436 | when `.md` appears in a page's path only as its extension, the breadcrumbs as written equal the corrected ones |
| Breadcrumbs.AsWrittenCrumbMissing | build.js:429 | for `notes.md-draft.md` at the root the source's trail is only Home, while the page has its own crumb in the corrected trail |
| Editor.ScanDirectory | editor-server.js:71-112 | folders before files, each group sorted by name; hidden entries and non-`.md` files are skipped; a child's path is the parent path, `/` and its name, or the name alone at the root; at every depth; a permutation of the listed entries |
| Editor.ScanListsExactly | editor-server.js:84-104 | an item is at a tree level exactly when it is the item of a listed (visible, folder or `.md`) entry of that directory |
| Editor.ChildPathJoins | editor-server.js:88 | the child path joins the parent's segments with the name |
| Editor.JoinSplit | editor-server.js:388 | splitting a relative path on `/` and joining it again gives the path back |
| Editor.SplitJoin | editor-server.js:388 | joining slash-free segments and splitting again gives the segments back |
| Editor.ResolveOrdinary | editor-server.js:389 | joining a location with segments that are not empty, `.` or `..` appends them |
| Editor.WithinIsSecure | editor-server.js:228-230 | a location inside the content directory, segment-wise, passes `isPathSecure`: the segment check only rejects more |
| Editor.SiblingPassesAsWritten | editor-server.js:228-230 | `isPathSecure` accepts a sibling directory whose name extends the content directory's, which the segment check rejects |
| Editor.CreateFolder | editor-server.js:379-409 | 400 exactly when the normalised name is empty; otherwise 403 exactly when the new location fails the access check, 409 exactly when it passes and already exists, and success exactly when it passes and does not exist; the new folder is the parent joined with the normalised name; with the corrected check it lies inside the content directory |
| Editor.CreateFolderPunctuation | editor-server.js:382-386 | an all-punctuation folder name is refused with 400 `Invalid folder name` |
| Editor.CreateFolderOutside | editor-server.js:388-394 | parent `../content-private` creates a folder outside `/srv/content` as written, and is refused with 403 under the segment check |
| Editor.CreateFile | editor-server.js:417-446 | a failure is only ever 403 or 409, so the 400 branch cannot be taken; 403 exactly when the new location fails the access check, 409 exactly when it passes and already exists, success exactly when it passes and does not exist; the new file is the parent joined with the normalised `.md` name |
| Editor.LastSlash | editor-server.js:459 | the position found is a `/` with none after it; none is found only when there is no `/` |
| Editor.RenameKeepsParent | editor-server.js:458-460 | the rename target keeps the old parent: the new name alone at the root, else the parent, `/` and the new name |
| Editor.DirNameOfJoin | editor-server.js:459 | the directory of a nested path is its parent path, never `.` |
| Editor.Rename | editor-server.js:454-484 | 403 exactly when the old or the new location fails the access check; otherwise 404 exactly when the source does not exist, 409 exactly when it does and the target exists too, and success exactly when the source exists and the target does not; the target follows the rename rule |
| Editor.RenameBeside | editor-server.js:458-476 | with the corrected check, a successful rename of a normalised path lands beside the old entry, inside its directory |

## Left out

- Filesystem I/O (reading directories, `existsSync`, reads, writes, `mkdirSync`, `renameSync`, copying): a directory listing is a `Node` tree; existence is a set of locations `existing`.
- gray-matter frontmatter parsing: each file carries an `Option<string>` title.
- markdown-it, highlight.js and plugins, template substitution, HTML rendering of the sidebar and breadcrumbs, and the search index: foreign libraries and string plumbing.
- `processDirectory`, `build`, the homepage and the 404 page, apart from the URL `/` of the root index, which `UrlMap.RenderedUrl` covers.
- The HTTP server, routing, JSON body parsing, static file serving, and the 500 responses for thrown errors.
- The delete, read and save endpoints of the editor.
- Watch mode: asynchronous and event driven.
- Sorting.SortBy: `localeCompare` is modelled as lexicographic order on character codes, and stability is not proved.
- Chars.Lower: case mapping is ASCII only; JavaScript's Unicode `toLowerCase` is not modelled. `\s` is modelled with JavaScript's whitespace set, and `\w` and `\b` in `formatTitle` with ASCII word characters.
- Editor.Resolve: `path.join` is modelled on segments. It drops empty segments and `.`, and `..` pops a segment but never above the filesystem root. Windows separators are not modelled.
- Editor.DirName: `path.dirname` is modelled for paths without a trailing or doubled `/`; rename paths come from the editor tree, which produces such paths.
- Editor.CreateFolder: the response echoes the relative path; the model returns the absolute location created.
- Editor.CreateFile: same as `Editor.CreateFolder`: the model returns the absolute location, not the echoed relative path.
- Content.WellFormed: a folder whose name ends in `.md` makes the generator read a directory as a file and stop; such trees are excluded rather than modelled as a crash.
- Breadcrumbs.PageKeyAsWritten: the source removes the first `.md` from the whole absolute path; the model assumes the content directory's own path contains no `.md`.
- UrlMap.PageSlug: the model's URL table (`Site`, `BuildUrlMap`) slugs a page's `getTitle` title, with the `.md` extension removed. `buildUrlMap` as written removes the first `.md` anywhere in the name. `BuildUrlMapAsWritten` is that table. `UrlMap.AsWrittenTableAgrees` shows the two tables are equal unless a page name holds an earlier `.md`, and `UrlMap.AsWrittenUrlDiffers` shows they differ for `notes.md-draft.md` (Findings row 2).
- UrlMap.PageEntry: states the URL of the corrected table; for a page name with an earlier `.md` the source's URL differs, as `UrlMap.PageSlug` above says.
- UrlMap.RenderedUrl: same gap as `UrlMap.PageEntry`.
- Slug collisions: two titles that slug alike overwrite each other's URLs in the source; the model keeps the table as built and proves nothing about collisions.
- Editor.ScanDirectory: a missing directory yields an empty tree in the source; the model takes the listing as given.

## Findings

| source | as written | input that shows it | evidently intended | confidence | as-written member | corrected member |
|---|---|---|---|---|---|---|
| build.js:281, 434 | the page title's stem is `name.replace('.md', '')`, which removes the first `.md` anywhere in the name | `notes.md-draft.md` gets stem `notes-draft.md` and title `Notes Draft.Md` | remove the `.md` extension, as `getTitle` does with `path.basename(filePath, '.md')`, giving `Notes.Md Draft` | not executed | Content.AsWrittenTitleDiffers | Content.GetTitleOfPage |
| build.js:281-284 | the URL table slugs that first-`.md` title, so a page's URL disagrees with its own title | `notes.md-draft.md` alone at the root gets `/` + slugify(`Notes Draft.Md`), which is not `/` + slugify(`Notes.Md Draft`) | slug the title with the extension removed | not executed | UrlMap.AsWrittenUrlDiffers | UrlMap.PageEntry |
| build.js:429 | the breadcrumb's page URL is looked up under the path with its first `.md` removed and `.md` appended, not under the page's own path | `notes.md-draft.md` at the root is looked up as `notes-draft.md.md`, which has no entry, so the page gets no crumb | look the page up under its own path, as `buildUrlMap` stored it | not executed | Breadcrumbs.AsWrittenCrumbMissing | Breadcrumbs.BreadcrumbsOf |
| editor-server.js:228-230 | `isPathSecure` is a character-prefix test of the joined path against the content directory | with content directory `/srv/content`, parent path `../content-private` resolves to `/srv/content-private/…`, which passes | accept only locations inside the content directory, segment by segment | not executed | Editor.CreateFolderOutside | Editor.WithinIsSecure |
