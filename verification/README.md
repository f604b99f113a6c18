# rich_text_server file operations, modelled in Dafny

This project models the file-operations module of `rich_text_server`
(`src/fs_ops/mod.rs`). It covers three pieces:

- **`Slug::new`** (`slug.dfy`, module `Slugs`) turns a string into a file name. It lowercases the string, keeps alphanumerics, spaces and dots, and turns each space into a dash.
- **`JsonStrVisitor`** (`json.dfy`, modules `Json` and `JsonVisitor`) walks a `serde_json::Value` depth first. It appends to `collected` every string leaf `s` for which `predicate(op(s))` holds. The value it pushes is `s` itself, not `op(s)`.
- **`FileSystemEntity::classify` and `FileSearcher::search_and_copy`** (`file_search.dfy`, module `FileSearch`) search a directory tree recursively and copy files:
  - A `RelativePath` target copies every file whose canonical path ends with the target. The comparison is component by component. All matches go to the destination folder under the target's slug.
  - An `AbsolutePath` target copies that one file.

  `paths.dfy` (module `Paths`) models the part of `std::path` the search uses: how a Unix path string is split into components, and `Path::ends_with`.

The directory tree is a finite, immutable snapshot. It holds every answer the file system would give the walk:

- what `read_dir` returns for each directory;
- each step of the entry iterator;
- what `metadata` and `canonicalize` return for each entry.

`fs::copy` is a function parameter from a source and a destination to an outcome. A walk returns a `Trace`, made of:

- the copy attempts, in the order they were made;
- a status: `Completed`, or `Aborted(error)`.

So the copies made before an abort remain visible.

The error policy the model states:

- A structural error aborts the rest of the walk. That is an error from `read_dir`, from the entry iterator, from `metadata`, from `canonicalize`, or from a recursive call.
- A failed copy in the relative branch is only logged, and the walk goes on.
- In the absolute branch, the copy's error is returned.

Some consequences the lemmas make explicit:

- The walk never stops at the first match.
- Every match is copied to the same destination.
- A target written as `./name` never matches, because a canonical path has no current-directory component.
- An empty target matches every file.
- `ends_with` compares whole components: `/a/xb.txt` does not end with `b.txt`.
- Slugging twice differs from slugging once whenever the input contains a space.

Nothing under `src/` updates a block inside a JSON document: `update_rich_text` in `src/rich_text/post.rs` only echoes its payload. The error policy above is therefore the one `search_and_copy` itself implements.

## Model

| member | source | states |
|---|---|---|
| `Slugs.ToLower` | src/fs_ops/mod.rs:83 | an upper-case ASCII letter becomes the lower-case letter 32 code points above it; every other character is unchanged; no upper-case letter comes out |
| `Slugs.Lowercase` | src/fs_ops/mod.rs:83 | lowercasing keeps the length and maps each character in place |
| `Slugs.KeepOnly` | src/fs_ops/mod.rs:84-86 | the filter's output is no longer than its input, holds only alphanumerics, spaces and dots, and keeps every such character as often as the input has it |
| `Slugs.KeepOnlySingle` | src/fs_ops/mod.rs:85 | a single character survives the filter exactly when it is alphanumeric, a space or a dot |
| `Slugs.KeepOnlyAppend` | src/fs_ops/mod.rs:84-86 | the filter keeps input order: filtering a concatenation is concatenating the filtered parts |
| `Slugs.ReplaceSpaces` | src/fs_ops/mod.rs:87 | the replacement keeps the length, turns each space into a dash and leaves every other character in place |
| `Slugs.Slug` | src/fs_ops/mod.rs:81-90 | a slug is never longer than its input, contains only lower-case letters, digits, `.` and `-`, and never a space |
| `Slugs.SlugMatchesSpec` | src/fs_ops/mod.rs:82-87 | the slug equals the concatenation of each input character's contribution: the order-preserving subsequence of kept lowercased characters, with each space mapped to a dash |
| `Slugs.SlugDashesCountSpaces` | src/fs_ops/mod.rs:85-87 | the number of dashes in the slug equals the number of spaces in the input; dashes in the input are dropped |
| `Slugs.SlugTwice` | src/fs_ops/mod.rs:82-87 | slugging a slug removes its dashes; slugging twice equals slugging once exactly when the input has no space; slugging three times equals slugging twice |
| `Slugs.SlugMayBeDotName` | src/fs_ops/mod.rs:81-90 | no slug holds a slash, but a slug can be empty or a dot name: `"!"` slugs to `""` and `"!.."` slugs to `".."` |
| `Slugs.SlugNotIdempotentExample` | src/fs_ops/mod.rs:85-87 | `"a b"` slugs to `"a-b"`, which slugs to `"ab"` |
| `JsonVisitor.Visitor.Visit` | src/fs_ops/mod.rs:52-76 | visiting appends to `collected` exactly the string leaves `s` with `predicate(op(s))`, in depth-first order with array elements left to right, after the earlier entries |
| `JsonVisitor.Visitor.VisitElems` | src/fs_ops/mod.rs:63-67 | the array loop appends the selected leaves of the elements, in element order |
| `JsonVisitor.Visitor.VisitMembers` | src/fs_ops/mod.rs:58-62 | the object loop appends the selected leaves of the member values in iteration order; keys are not visited |
| `JsonVisitor.SelectedSpec` | src/fs_ops/mod.rs:68-71 | every selected string is an accepted leaf, and every accepted leaf is selected as many times as it occurs |
| `JsonVisitor.VisitAppendsSelectedLeaves` | src/fs_ops/mod.rs:57-73 | earlier `collected` entries stay an unchanged prefix; each appended string is a string leaf `s` of the value with `predicate(op(s))`; each such leaf is appended once per occurrence |
| `JsonVisitor.VisitPushesOriginal` | src/fs_ops/mod.rs:68-69 | the pushed value is the leaf, not its image under `op`: with `op` mapping everything to `"x"`, the leaf `"ab"` is collected as `"ab"` |
| `JsonVisitor.VisitIgnoresKeys` | src/fs_ops/mod.rs:58-62 | two objects whose member values agree are visited alike, whatever their keys |
| `JsonVisitor.VisitScalar` | src/fs_ops/mod.rs:72 | null, booleans and numbers leave the visitor unchanged |
| `JsonVisitor.VisitRejectAll` | src/fs_ops/mod.rs:68-72 | with a predicate that never holds, `collected` is unchanged |
| `JsonVisitor.VisitAcceptAll` | src/fs_ops/mod.rs:57-73 | with a predicate that always holds, all string leaves are appended in depth-first order |
| `JsonVisitor.VisitArrayConcat` | src/fs_ops/mod.rs:63-67 | visiting the array `a + b` is visiting the array `a` and then the array `b` |
| `Paths.Components` | src/fs_ops/mod.rs:153 | the components of a path string can start with a root or current-directory marker, and only in first place; no normal component is empty, `.`, `..` or contains a slash; a path starts with a slash exactly when its components start with the root |
| `Paths.JoinSplit` | src/fs_ops/mod.rs:153 | splitting a path at slashes and joining the pieces again gives the path back |
| `Paths.SplitJoin` | src/fs_ops/mod.rs:153 | joining slash-free pieces and splitting again gives the pieces back |
| `Paths.RelativeComponents` | src/fs_ops/mod.rs:153 | a relative path of plain names separated by single slashes reads back as exactly those names |
| `Paths.Canonical` | src/fs_ops/mod.rs:151 | the components of a canonical path are the root followed by one normal component per name |
| `Paths.CanonicalIsComponents` | src/fs_ops/mod.rs:151-153 | reading the text of a canonical path (a slash before each name, or `/` alone) with `Path::components` gives exactly `Canonical` of its names |
| `Paths.EndsWithBackwards` | src/fs_ops/mod.rs:153 | `ends_with` holds exactly when the reversed child components are a prefix of the reversed path components, the way the library compares them |
| `Paths.EndsWithIffSuffix` | src/fs_ops/mod.rs:153 | `ends_with` holds exactly when the path is some prefix followed by the child's components |
| `Paths.CurDirNeverEnds` | src/fs_ops/mod.rs:151-153 | a target starting with `./` never matches a canonical path |
| `Paths.RootedEndsOnlyAtWhole` | src/fs_ops/mod.rs:151-153 | an absolute target matches a canonical path only when it is that whole path |
| `Paths.EmptyEndsEverywhere` | src/fs_ops/mod.rs:153 | the empty target has no components, so every path ends with it |
| `Paths.EndsWithIsComponentWise` | src/fs_ops/mod.rs:151-153 | a canonical path ends with a single-name target exactly when its last name equals that name, so `/a/xb.txt` does not end with `b.txt` although its text does |
| `FileSearch.Classify` | src/fs_ops/mod.rs:108-119 | a metadata error is passed on unchanged; the result is `Folder` exactly for a directory, and `File` for a regular file and for every other kind of entry |
| `FileSearch.WalkListing` | src/fs_ops/mod.rs:143-172 | one directory's walk: every copy goes to the given destination with the outcome `fs::copy` gives; the walk completes exactly when no read, entry, metadata or canonicalize step under the directory fails |
| `FileSearch.WalkItems` | src/fs_ops/mod.rs:144-171 | the entry loop: the same guarantees, stated over the entries in listing order |
| `FileSearch.WalkItem` | src/fs_ops/mod.rs:145-170 | one entry: the same guarantees; a failed copy does not abort |
| `FileSearch.WalkListingCopiesMatches` | src/fs_ops/mod.rs:143-172 | the copied sources of a directory's walk are always a prefix of all its matching files in depth-first order, and equal them when the walk completes |
| `FileSearch.WalkItemsCopiesMatches` | src/fs_ops/mod.rs:144-171 | the same, over the entries in listing order |
| `FileSearch.WalkItemCopiesMatches` | src/fs_ops/mod.rs:145-170 | one entry: a file is copied exactly when its canonical path ends with the target component by component; a folder is searched with the same target |
| `FileSearch.WalkListingFollowsEvents` | src/fs_ops/mod.rs:143-172 | the walk of a directory is its depth-first event stream cut at the first failure: it copies exactly the files found before that failure and returns that failure's error unchanged, or completes when no step fails |
| `FileSearch.WalkItemsFollowsEvents` | src/fs_ops/mod.rs:144-171 | the same, for the entry loop: an entry error, or an error from a later step of an earlier entry, is the one returned |
| `FileSearch.WalkItemFollowsEvents` | src/fs_ops/mod.rs:144-169 | the same, for one entry: an entry, `metadata` or `canonicalize` error is returned as it is, and a folder's walk returns its own first error |
| `FileSearch.FileSearcher.SearchAndCopy` | src/fs_ops/mod.rs:137-181 | relative target: every match, including those found after the first, is copied to `dest/Slug(relative_path)`; the copies are exactly the matches found before the first failing step, and that step's error is returned unchanged; absolute target: exactly one copy, to `dest/Slug(absolute_path)`, whose error is returned |
| `FileSearch.CopyOutcomesIgnoredListing` | src/fs_ops/mod.rs:158-165 | in the relative branch the outcome of a copy never changes the course of the walk: any two copy functions give the same attempted sources and the same final status |
| `FileSearch.CopyOutcomesIgnoredItems` | src/fs_ops/mod.rs:144-171 | the same, for the entry loop |
| `FileSearch.CopyOutcomesIgnoredItem` | src/fs_ops/mod.rs:149-169 | the same, for one entry |
| `FileSearch.WalkItemsAppend` | src/fs_ops/mod.rs:144-171 | the entry loop over two runs of entries is the loop over the first run, then, unless that aborted, the loop over the second, with the copies concatenated |
| `FileSearch.AbortSkipsRest` | src/fs_ops/mod.rs:144-149 | once an entry aborts, the loop ends: the result is the copies made so far and that entry's error, whatever entries follow |
| `FileSearch.BothMatchesCopied` | src/fs_ops/mod.rs:143-170 | the walk does not stop at the first match: a matching file and another one in a sub-folder are both copied, in that order, to the same destination |

## Left out

- `read_json` is not modelled. It is file I/O plus serde parsing, and it panics on failure.
- Real file-system effects are replaced by snapshot data. The snapshot holds the answers of `read_dir`, the entry iterator, `metadata` and `canonicalize`; the outcome of `fs::copy` is a function parameter.
- A copy that writes into the searched tree (a destination folder inside the search directory) does not change the snapshot. The real walk could see the new file.
- Every match is copied to the same destination path, so each copy overwrites the one before. The model records the attempts but does not model the destination's contents. When the slug is empty, `.` or `..`, that destination is the folder itself or its parent, a directory where no file can be written; the model leaves the outcome of such a copy to the copy function.
- The model's tree is finite, so the walk always ends. The real walk has no depth bound and no visited set. A symbolic-link cycle to a directory makes it recurse without end, until the stack or the file system gives out.
- `tracing` log lines are not modelled. A logged copy failure shows up only as the attempt's recorded outcome.
- The sibling order is the order of the snapshot's listing, which is whatever `read_dir` yields. It is taken as given.
- `Slugs.ToLower`: only ASCII `A`..`Z` are lowercased. The source's `to_lowercase` also lowercases non-ASCII letters, and can turn one character into several.
- `Slugs.Lowercase`: the length is kept only because the model lowercases ASCII letters alone. The source's `to_lowercase` can turn one character into several (`'İ'` becomes two), so its output can be longer than its input.
- `Slugs.KeepOnly`: only ASCII letters and digits count as alphanumeric. The source's `is_alphanumeric` also keeps non-ASCII letters and digits, which the model drops.
- `Slugs.Slug`: the bound `|slug| <= |input|` and the character class are stated for this ASCII model. With Unicode lowercasing, the source's slug can be longer than its input and can contain non-ASCII alphanumerics.
- `Paths.Components` models Unix path strings only. Windows prefixes and separators are not modelled.
- A canonical path is taken from the snapshot as a list of names after the root, each non-empty, not `.` or `..`, and free of slashes. How `canonicalize` resolves links and `..` is not modelled.
- `Path::join` of the destination folder and the slug is kept abstract as the pair `Join(folder, slug)`. The slug never holds a slash, so it adds at most one component. It can be empty (`"!"`), `.` or `..` (`"!.."`), and then the joined path names the folder itself or a directory rather than a file inside the folder.
- JSON numbers are kept as text. An object's members are kept in the map's iteration order, which is key order for serde_json's default map.
- `JsonStrVisitor::new` and `collected` are modelled (`NewVisitor`, `Collected`) without contracts of their own. They only build the empty visitor and read its list.
- `src/document.rs`, `src/rich_text/mod.rs`, `src/rich_text/post.rs`, `src/bin/server.rs`, `src/lib.rs` and `src/errors/mod.rs` are not part of this model. They hold serde-derived types, an echo handler, command-line parsing, logging setup, router plumbing and an error enum.
- The block-update operation is not modelled. It would find a block by id, replace its properties, write the file back and serve `POST /editor`. No modelled source file implements it.
- The `FindError` enum is not modelled, because the modelled code never uses it.
