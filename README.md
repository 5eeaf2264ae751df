# intellij-lsp-server: project resolution, documents and editor diffs

This project is a Dafny model of the part of intellij-lsp-server that turns a
client's resource URI into an IntelliJ project and a relative path, and that
turns an editor action into LSP text edits. It comes from two Kotlin files.

- `ProjectUtil.kt`:
  - the `file://` → `file:///` rewrite applied to URIs;
  - the ancestor walk of `resolveProjectFromUri`, which looks for the nearest
    directory holding an `.iml` file;
  - the process-wide project cache `sProjectCache`, with `getProject` and
    `ensureProject`;
  - `getDocument(PsiFile)`, which gets a file's document or registers a new
    one.
- `EditorUtil.kt`:
  - `withEditor`, which acquires an editor, runs a callback, logs what the
    callback throws and always releases the editor;
  - `differenceFromAction`, which runs a callback on a copy of a file;
  - `textEditFromDocs` and `DiffFragment.toTextEdit`, which turn a character
    diff into LSP `TextEdit`s.

Modules, one per file:

| file | module | what it holds |
|---|---|---|
| wrappers.dfy | `Wrappers` | `Option`, `Result`, `Outcome` (normal completion or an exception) |
| uri.dfy | `Uri` | Kotlin's `String.replace` as `ReplaceAll`, the URI rewrite and its properties |
| project_walk.dfy | `ProjectWalk` | `File.extension`, the marker search in one listing, the ancestor walk, its specification `Scan` and the loop `FindMarker` |
| projects.dfy | `Projects` | the cache as the class `ProjectCache` with a `map` field, its step functions, and `ResolveProjectFromUri` |
| documents.dfy | `Documents` | the document manager as the class `DocumentStore`, and `getDocument(PsiFile)` |
| text_edits.dfy | `TextEdits` | fragments, positions and edits, `toTextEdit`, `textEditFromDocs`, and how edits are replayed on the old text |
| editors.dfy | `Editors` | the editor factory as an event trace, `withEditor` and `differenceFromAction` |

The IDE is reached only through values passed in as parameters:

- a `Host`: which project handles are disposed, which paths exist, and what
  `loadAndOpenProject` yields;
- a `FileSystem`: a map from each listable directory to its listing, in
  listing order;
- functions for URI parsing, `offsetToPosition` and `compareChars`;
- an `accepts` flag: whether the document manager keeps a document that was
  just registered.

Behaviour of the code worth knowing, as the model states it:

- The rewrite exists because, as the comment at ProjectUtil.kt:46 says, the
  URI "has to have three slashes on windows". The doc of `getURIForFile`
  (ProjectUtil.kt:232) says that `VirtualFile`'s `getPath()` is missing an
  extra slash, yet the code applies the rewrite to `file.url` (line 234). The
  code replaces every `file://` with `file:///` whatever follows it, so a URI
  that already has three slashes gets four
  (`Uri.AlreadyTripleSlashedGetsFour`).
- `getProject` does not coalesce concurrent opens: every call that misses
  the cache and finds the path existing opens the project again.
- With several `.iml` children in one directory, the first in listing order
  wins.

## Model

| member | source | states |
|---|---|---|
| Uri.ReplaceAll | src/main/kotlin/com/ruin/intel/Util/ProjectUtil.kt:47 | `String.replace` leaves a string without the pattern unchanged and never shortens it when the replacement is at least as long as the pattern |
| Uri.NormalizeFileUri | src/main/kotlin/com/ruin/intel/Util/ProjectUtil.kt:47 | the rewrite leaves a URI without `file://` unchanged and never shortens a URI |
| Uri.SchemePrefixPreserved | src/main/kotlin/com/ruin/intel/Util/ProjectUtil.kt:47 | the rewritten URI starts with `file://` exactly when the original does |
| Uri.DenormalizeInvertsNormalize | src/main/kotlin/com/ruin/intel/Util/ProjectUtil.kt:234 | the rewrite only inserts slashes: replacing every `file:///` by `file://` afterwards gives the original string back, for every string |
| Uri.SchemeAlwaysTripleSlashed | src/main/kotlin/com/ruin/intel/Util/ProjectUtil.kt:46-47 | after the rewrite, every occurrence of `file://` is followed by another `/` (at least three slashes everywhere) |
| Uri.AlreadyTripleSlashedGetsFour | src/main/kotlin/com/ruin/intel/Util/ProjectUtil.kt:234 | the rewrite is not idempotent: a URI that already starts with `file:///` comes out starting with `file:////` |
| ProjectWalk.LastDot | src/main/kotlin/com/ruin/intel/Util/ProjectUtil.kt:52 | the index found is a `.` with no `.` after it; none is found only in a name without a `.` |
| ProjectWalk.Extension | src/main/kotlin/com/ruin/intel/Util/ProjectUtil.kt:52 | `File.extension` contains no `.`; it is empty for a name without a dot, and otherwise it is the suffix that follows a dot |
| ProjectWalk.MarkerIffImlExtension | src/main/kotlin/com/ruin/intel/Util/ProjectUtil.kt:52 | a child has extension `iml` exactly when its name ends in `.iml` |
| ProjectWalk.FirstMarkerFrom | src/main/kotlin/com/ruin/intel/Util/ProjectUtil.kt:52 | the index found holds a marker and no earlier index does; none is found only when no entry is a marker |
| ProjectWalk.FirstMarker | src/main/kotlin/com/ruin/intel/Util/ProjectUtil.kt:52 | `firstOrNull` is null exactly when no child is a marker; otherwise it is a marker in the listing with no marker before it |
| ProjectWalk.ParentOf | src/main/kotlin/com/ruin/intel/Util/ProjectUtil.kt:50 | `parentFile` is null exactly at the root; otherwise the parent plus the last segment is the path |
| ProjectWalk.AbsolutePath | src/main/kotlin/com/ruin/intel/Util/ProjectUtil.kt:54 | `project.absolutePath`, the cache key handed to `ensureProject`, is never empty and starts at the root '/' |
| ProjectWalk.Joined | src/main/kotlin/com/ruin/intel/Util/ProjectUtil.kt:54 | a path's string form is empty only for the root; the last segment is what follows the last '/' |
| ProjectWalk.JoinedInjective | src/main/kotlin/com/ruin/intel/Util/ProjectUtil.kt:54 | when no segment holds a '/', two paths with the same string form are equal |
| ProjectWalk.MarkerKeyInjective | src/main/kotlin/com/ruin/intel/Util/ProjectUtil.kt:54 | when no segment holds a '/', two marker files share a cache key only if they are the same file in the same directory |
| ProjectWalk.Relativize | src/main/kotlin/com/ruin/intel/Util/ProjectUtil.kt:55 | the project directory followed by the relative path is the resource path, with exactly as many segments stripped as the directory has |
| ProjectWalk.ScanIsNearest | src/main/kotlin/com/ruin/intel/Util/ProjectUtil.kt:50-59 | the walk stops at the deepest ancestor that is unlistable or holds a marker, and every ancestor below that one is listable and has no marker |
| ProjectWalk.StopIsNotClean | src/main/kotlin/com/ruin/intel/Util/ProjectUtil.kt:50-59 | where the walk stops, the directory is an ancestor that it could not climb past, and every deeper ancestor was climbed past |
| ProjectWalk.NearestUnique | src/main/kotlin/com/ruin/intel/Util/ProjectUtil.kt:50-59 | at most one outcome fits that description |
| ProjectWalk.NearestIffScan | src/main/kotlin/com/ruin/intel/Util/ProjectUtil.kt:50-59 | an outcome is the walk's exactly when it is the nearest stopping ancestor (both directions) |
| ProjectWalk.FartherAncestorsIgnored | src/main/kotlin/com/ruin/intel/Util/ProjectUtil.kt:51-57 | once a project root is found, directories above it are never looked at: changing them leaves the outcome as it was |
| ProjectWalk.FindMarker | src/main/kotlin/com/ruin/intel/Util/ProjectUtil.kt:50-59 | the `while (directory != null)` loop returns exactly the outcome of the specified walk |
| Projects.ProjectCache.constructor | src/main/kotlin/com/ruin/intel/Util/ProjectUtil.kt:65 | `sProjectCache` starts empty |
| Projects.GetProjectStep | src/main/kotlin/com/ruin/intel/Util/ProjectUtil.kt:76-127 | a live cached project is returned without opening anything; otherwise a project is opened exactly when the path exists; a result returned without opening is never disposed; a null result leaves the cache as it was; a project returned is now cached under the path, and no other key changes |
| Projects.SecondLookupHits | src/main/kotlin/com/ruin/intel/Util/ProjectUtil.kt:79-82 | a second request for the same path, with nothing disposed in between, returns the identical project and opens nothing |
| Projects.DisposedEntryReplaced | src/main/kotlin/com/ruin/intel/Util/ProjectUtil.kt:80-120 | a disposed cached project is replaced by the project that reopening yields |
| Projects.EnsureProjectStep | src/main/kotlin/com/ruin/intel/Util/ProjectUtil.kt:67-74 | `ensureProject` succeeds exactly when `getProject` returns a live project, and it returns that project; it throws the not-found error exactly when `getProject` returns null |
| Projects.ProjectCache.GetProject | src/main/kotlin/com/ruin/intel/Util/ProjectUtil.kt:76-127 | the method's result and new cache are those of `GetProjectStep`, case by case: a live hit, a path that does not exist, and an open |
| Projects.ProjectCache.EnsureProject | src/main/kotlin/com/ruin/intel/Util/ProjectUtil.kt:67-74 | the method returns `EnsureProjectStep` of the old cache and leaves the cache as `getProject` leaves it |
| Projects.ResolveProjectFromUri | src/main/kotlin/com/ruin/intel/Util/ProjectUtil.kt:42-63 | parses the rewritten URI. If the walk finds no marker, it returns null and leaves the cache as it was. An unlistable ancestor is an error. If the walk finds a marker, it returns the marker file's project from the cache and the path relative to the marker's directory, and the errors of `ensureProject` are passed on |
| Documents.GetOrRegister | src/main/kotlin/com/ruin/intel/Util/ProjectUtil.kt:187-205 | an existing document is returned and nothing changes. Null is returned only when there was none and the registration did not stick. A registered document is new, holds the PSI text, and is stored for the file. Document identities stay distinct |
| Documents.GetOrRegisterIdempotent | src/main/kotlin/com/ruin/intel/Util/ProjectUtil.kt:187-205 | once a document is obtained, a second request returns the same document and registers nothing |
| Documents.DocumentStore.GetDocument | src/main/kotlin/com/ruin/intel/Util/ProjectUtil.kt:187-205 | the method's result and new manager state are those of `GetOrRegister`; a returned document is what the manager holds for the file; other files are untouched |
| TextEdits.ToTextEdit | src/main/kotlin/com/ruin/lsp/util/EditorUtil.kt:73-78 | both ends of the range are old-document positions of the fragment's old offsets; the text is the new document's text on the fragment's new range; an insertion has an empty range and a deletion has an empty text |
| TextEdits.TextEditsFromDocs | src/main/kotlin/com/ruin/lsp/util/EditorUtil.kt:80-87 | one edit per fragment, in fragment order, each being that fragment's `toTextEdit` |
| TextEdits.AgreesInBounds | src/main/kotlin/com/ruin/lsp/util/EditorUtil.kt:82 | under the `compareChars` contract, every fragment lies inside both texts, so `getText` on the new range is defined |
| TextEdits.AgreesSplices | src/main/kotlin/com/ruin/lsp/util/EditorUtil.kt:80-87 | from any point of the diff on, the edits are in ascending order without overlap, and splicing them into the old text yields the rest of the new text |
| TextEdits.EditsReproduceNewText | src/main/kotlin/com/ruin/lsp/util/EditorUtil.kt:80-87 | applying the edits to the old text, each range read against the unedited text, reproduces the new text exactly, for every pair of texts |
| TextEdits.NoChangesIffEqual | src/main/kotlin/com/ruin/lsp/util/EditorUtil.kt:82 | an empty diff describes two equal texts, and only those |
| TextEdits.InsertionExample | src/main/kotlin/com/ruin/lsp/util/EditorUtil.kt:73-78 | inserting "baz " into "foo bar" gives one edit with an empty range at offset 4 and text "baz " |
| Editors.SessionLeavesNoEditor | src/main/kotlin/com/ruin/lsp/util/EditorUtil.kt:48-61 | acquiring an editor, optionally logging, then releasing it leaves the set of live editors as it was |
| Editors.EditorFactory.WithEditor | src/main/kotlin/com/ruin/lsp/util/EditorUtil.kt:48-61 | no editor leaks. Without a document, the call fails before anything is acquired. Otherwise the editor is acquired, the callback's exception (if any) is logged and not passed on, the editor is released exactly once, and the document holds the callback's text |
| Editors.DifferenceFromAction | src/main/kotlin/com/ruin/lsp/util/EditorUtil.kt:63-71 | an existing document of the original is never touched, and no other file's document changes. An original without a document gets one holding its PSI text when the manager keeps it. A copy without a document fails. Otherwise the callback runs in one editor session on the copy. The result is null when the original has no document; otherwise it is `textEditFromDocs` of the original's text and the text the callback left |

## Left out

- The model does not parse URIs. `URI(...)` and `File(URI)` are the parameter `parseFileUri`. Platform path separators and the Windows drive-letter form are not modelled, and paths are sequences of segments with `/` as the separator.
- The relative path is kept as a sequence of segments, not as `Path.toString()`.
- `loadAndOpenProject` is the host function `open`. `None` stands for the caught IOException, JDOMException and InvalidDataException, and for a null result. Other runtime exceptions from the host are not modelled.
- Only `loadAndOpenProject` runs inside `runWriteAction`. `getProject` updates the cache after the write action has returned and the null check has passed. Threads, the event dispatch thread, write actions and the unsynchronised `HashMap` are not modelled, and each call is one atomic step.
- ProjectWalk.AbsolutePath: the cache key is one-to-one only when no path segment holds a '/'. `MarkerKeyInjective` assumes this, and the model does not enforce it.
- The code has no coalescing of concurrent opens, so none is modelled.
- Logging (`LOG.warn`, `LOG.info`, `printStackTrace`) is not modelled. The one exception is the `LOG.error` of `withEditor`, which is an event in the trace.
- `compareChars` is a parameter. The model assumes only its contract, `IsCharDiff`: fragments in ascending order, no overlap, and equal text between them. Minimality of the diff is not modelled.
- Texts are sequences of characters. Fragment offsets, `getText` ranges and the offsets given to `offsetToPosition` count characters in the model, not the UTF-16 code units of IntelliJ's `Document`. A character outside the Basic Multilingual Plane takes one offset here and two there.
- `offsetToPosition` is a parameter. The replay lemma assumes a `positionToOffset` that inverts it on the old text. Line and column counting is not part of this model.
- TextEdits.EditsReproduceNewText: proved under the `compareChars` contract and position invertibility, not for the real comparison algorithm.
- `createFileCopy` is modelled only by its result, a fresh file with the same PSI text. `Disposer.newDisposable()` and the `context` argument of `withEditor` are not modelled.
- The editor `withEditor` hands to the callback is not modelled. The callback is a function from the document text to the text it leaves and whether it threw.
- A `Throwable` that is not an `Exception` escapes `withEditor` after the editor is released. The model treats every callback failure as a caught `Exception`.
- Editors.EditorFactory.WithEditor: the three-argument `createEditor(context, file, position)` that EditorUtil.kt calls is defined outside the files modelled here. It is assumed to behave like the `createEditor` of ProjectUtil.kt:219-228: it fails on a file without a document (`getDocument(file)!!`) before an editor exists, and its `getDocument` is the get-or-register of ProjectUtil.kt:187-205.
- Editors.DifferenceFromAction: `createFileCopy` and the `getDocument` it calls are defined outside the files modelled here. They are assumed to be a fresh file with the same PSI text and the get-or-register of ProjectUtil.kt:187-205. That assumption is why a copy without a document makes the call fail, and why a missing original gives null.
- Editors.EditorFactory.WithEditor: the caret placement of `createEditor` is not modelled.
- Documents.DocumentStore.GetDocument: the second lookup after registration is modelled through `accepts`. Which documents the manager keeps is the host's decision.
- Also not modelled: `resolvePsiFromUri`, `getPsiFile`, `getVirtualFile`, `getDocument(uri)`, `reloadDocumentAtUri`, `allocateFrame`, `ensureTargetElement` and `findTargetElement`. These are callers of the core, or IDE lookups outside it.
