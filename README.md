# FlaskFirst markdown editor: a Dafny model

FlaskFirst is a small markdown editor in two parts. A browser page
(`script.js`) holds an editor buffer, a toolbar that rewrites the selected
text, and a sidebar tree of stored files. A Flask server (`server.py`) keeps
those files in a storage directory and serves five HTTP handlers: one lists
the files, and the others read, write and delete a file and create a folder.

This project models both parts and proves their properties:

- `Toolbar`: the toolbar's text transforms (`wrapText`, bold, italic, link,
  code and list). Each is a pure function from the buffer and the selection
  to the new buffer and the selection it sets.
- `Paths`: the client's name helpers. These are stripping `.md`, the shown
  title, a new file's path and a new folder's path.
- `EditorState`: the page's mutable state as the class `Editor`. Its fields
  are the open file, the buffer, the shown title and a count of tree reloads.
  There is one method per handler (`loadFile`, `saveFile`, `createNewFile`,
  `createNewFolder`, `deleteFile`, `deleteFolder`,
  `updateCurrentFileName`) and one for the toolbar. The server's answer and
  the user's prompt and confirm answers are parameters. Each handler's
  method returns the request it would send; `updateCurrentFileName`
  returns nothing, and the toolbar's method returns the selection it sets.
- `FileTree`: `createFileListItem` as a recursive method. It renders a
  listing entry into rows, and a file row is marked active exactly when its
  path is the open file. The marking loop that `loadFile` runs over the rows
  is a second recursive method, `Remark`.
- `Server`: the handlers as methods of the class `Storage`. Its `entries` map
  from path components to files and directories stands for the storage
  directory. `normalize_path` is modelled, and `get_file_info` and
  `list_files` are modelled with Python's `sorted`.
- `Session`: the two parts together. Opening a file loads the stored text as
  a text-mode read returns it. A save followed by a reopen returns the saved
  text as a text-mode read returns it, which is the saved text itself when
  it has no carriage return. Deleting the open file closes it. The rebuilt tree marks exactly the
  open file, when the open file is stored.
- `Text` and `Listing`: shared helpers. `Text` has `split` and `join` with
  JavaScript's semantics, counting and replacing characters. `Listing` has
  the JSON shape of a listing entry.

A path reaches the store through `Resolve`. `Resolve` normalizes the path,
then splits it on `/`. A path with an empty, `.` or `..` component names no
entry of the model. For such a path every handler that passes its
missing-field check answers with a failure (status 500) and changes nothing.

## Model

| member | source | states |
|---|---|---|
| Toolbar.Wrap | script.js:274-283 | the new text is the text before the selection, then `before`, the selection, `after` and the rest, each at the stated offsets; the new selection is the old one shifted by `before`'s length |
| Toolbar.Apply | script.js:284-310 | the five buttons' transforms; what each keeps and selects is stated by `Toolbar.ApplyKeepsSurroundings` and the lemmas below |
| Toolbar.ApplyKeepsSurroundings | script.js:274-310 | every button keeps the text in front of and behind the selection; a selection it sets lies in the new text and holds exactly the text that was selected |
| Toolbar.Emphasis | script.js:286-287 | bold wraps the selection in `**` and italic in `*`; each selects the old text inside the markers |
| Toolbar.BoldExample | script.js:286 | bold on "hello" in "hello world" gives "**hello** world" with positions 2 to 7 selected |
| Toolbar.LinkEdit | script.js:288-291 | a cancelled or empty URL leaves the buffer unchanged and sets no selection; otherwise the selection is wrapped in `[` and `](url)` |
| Toolbar.CodeFences | script.js:292-301 | a selection with a newline is fenced with ```` ``` ```` lines (8 characters more, selection shifted by 4); any other selection is wrapped in backticks (2 more, shifted by 1); the text grows by 8 exactly when the selection has a newline |
| Toolbar.PrefixLines | script.js:307 | every line gets `- ` in front and the number of lines is kept |
| Toolbar.Bullets | script.js:306-307 | the bullet list of a selection starts with `- `, even for an empty selection; its lines are stated by `Toolbar.BulletsShape` and `Toolbar.BulletsLines` |
| Toolbar.ListEdit | script.js:302-310 | the selection is replaced by its bullet list, the text around it is kept, and no selection is set |
| Toolbar.ListSplice | script.js:302-310 | the list command's text is the text before the selection, the bullets and the text after it |
| Toolbar.BulletsShape | script.js:306-307 | splitting on newlines, prefixing `- ` and joining with newlines is the same as putting `- ` in front and after every newline |
| Toolbar.BulletsLines | script.js:306-307 | the bullet list has as many newlines as the selection and is two characters longer per line |
| Toolbar.ListKeepsLines | script.js:302-310 | the list command keeps the number of newlines in the buffer |
| Toolbar.ListEmptySelection | script.js:302-310 | with nothing selected the list command inserts `- ` at the caret |
| Toolbar.ListExample | script.js:306-307 | "a\nb" becomes "- a\n- b" |
| Text.Split | script.js:306 | `split('\n')` gives one more part than there are separators, and no part contains one |
| Text.Join | script.js:307 | `join` with a separator; it has no contract of its own, and `Text.SplitRoundTrip`, `Text.JoinRoundTrip` and `Text.JoinSplit` fix what it computes |
| Text.JoinSplit | script.js:306-307 | joining the parts of a split with `sep` replaces every separator by `sep` |
| Text.SplitRoundTrip | script.js:306-307 | joining the parts of a split with the separator gives back the string |
| Text.JoinRoundTrip | script.js:306-307 | splitting a join of separator-free parts gives back the parts |
| Text.ReplaceChar | server.py:18 | replacing a character by text that does not contain it removes every occurrence |
| Text.UniversalNewlines | server.py:71-72 | a text-mode read's newline translation: the result holds no carriage return and is no longer than the input |
| Text.NewlinesKept | server.py:71-72 | text without a carriage return is read back unchanged |
| Text.NewlinesIdempotent | server.py:71-72 | translating twice is translating once |
| Text.NewlinesExample | server.py:71-72 | "x\r\ny\rz" is read back as "x\ny\nz" |
| Paths.StripMd | script.js:15 | the result plus `.md` is the input exactly when the input ends in `.md`; otherwise the input is unchanged |
| Paths.StripAdded | script.js:167 | stripping undoes appending `.md` |
| Paths.NewFilePath | script.js:166-172 | a new file's path; its shape is stated by `Paths.NewFilePathShape` and `Paths.SuffixTypedOrNot` |
| Paths.DisplayTitle | script.js:12-17 | no file or an empty name is shown as "Untitled"; otherwise the name is shown without `.md` |
| Paths.NewFilePathShape | script.js:166-172 | a new file's path ends in `.md`; without that suffix it is the folder, a slash and the typed name without `.md`; at the top level there is no slash |
| Paths.SuffixTypedOrNot | script.js:166-172 | typing `n.md` gives the same path as typing `n` exactly when `n` does not already end in `.md` |
| Paths.NewFileExamples | script.js:166-172 | "notes" and "notes.md" both become "notes.md", and "notes.md" in folder "f" becomes "f/notes.md" |
| Paths.FolderPath | script.js:186 | a top-level folder is its name; otherwise it is the parent, a slash and the name |
| EditorState.SaveTarget | script.js:205-206 | the target is the explicit path if truthy, else the open file if truthy, else the prompt answer if truthy, else nothing is saved |
| EditorState.Editor.constructor | script.js:7-10 | no file is open and the buffer is the stored draft, or the welcome text when there is no draft |
| EditorState.Editor.UpdateCurrentFileName | script.js:12-17 | sets the open file and the title shown for it; the editor stays valid exactly when the name is not empty |
| EditorState.Editor.LoadFile | script.js:123-160 | an empty path sends nothing; a successful reply that carries content replaces the buffer and opens the path; any other reply changes nothing |
| EditorState.Editor.SaveFile | script.js:204-227 | sends the buffer to the save target; with no path given and a file open the target is that file, without a prompt; success opens the target and reloads the tree once; failure or no target changes nothing |
| EditorState.Editor.CreateNewFile | script.js:162-180 | a cancelled or empty name sends nothing; otherwise the buffer is saved under the new `.md` path; the tree is reloaded twice after a successful save and once after a failed one |
| EditorState.Editor.CreateNewFolder | script.js:182-202 | a cancelled or empty name sends nothing; otherwise the folder path is requested and the tree reloaded on success |
| EditorState.Editor.DeleteFile | script.js:229-248 | an unconfirmed delete sends nothing; a successful delete of the open file empties the buffer and closes it; any other delete leaves the buffer and the open file alone |
| EditorState.Editor.DeleteFolder | script.js:250-264 | a confirmed, successful delete reloads the tree; the open file, buffer and title never change |
| EditorState.Editor.PressToolbar | script.js:285-310 | the buffer becomes the toolbar command's text, and the command's selection is returned |
| FileTree.RenderItem | script.js:19-91 | the row tree matches the entry: files are shown without `.md` and are active exactly when open; folders are never active and render their children in order |
| FileTree.RenderListing | script.js:114-117 | one row per top-level entry, in order |
| FileTree.ActiveExactly | script.js:55-61 | a path is marked active in an entry's rows exactly when it is the open file and a file path in that entry |
| FileTree.ActiveExactlyOf | script.js:114-117 | the same over the whole listing |
| FileTree.FoldersNeverActive | script.js:22-54 | no folder row is ever marked active |
| FileTree.DataPath | script.js:147 | `getAttribute('data-path')`: null on every row `createFileListItem` builds; `FileTree.MarksClearedAsWritten` and `FileTree.RemarkedLikeRebuild` state what the marking loop does with it |
| FileTree.Remark | script.js:145-153 | the marking loop over a row tree: each row keeps its name and path and is active exactly when its `data-path` attribute is the opened path; file rows carry that attribute only when `tagged` holds |
| FileTree.RemarkAll | script.js:145-153 | the same loop over the whole sidebar, one row tree per top-level row |
| FileTree.MarksClearedAsWritten | script.js:145-153 | with no row carrying `data-path`, the loop leaves no row active |
| FileTree.OpenedFileNotMarked | script.js:145-153 | as written: after the loop the opened file's row is not active, though it is listed |
| FileTree.RemarkedLikeRebuild | script.js:145-153 | with file rows carrying `data-path`, the loop gives the rows a rebuild would render for the opened file, and exactly the opened file is active |
| Listing.FilePathsOfMember | server.py:47-56 | a file path is in a listing exactly when it is in one of its top-level entries |
| Server.LStripSlashes | server.py:20 | the result does not start with a slash |
| Server.LStripLeading | server.py:20 | the stripping removes only leading slashes: the result is a suffix of the input and everything in front of it is a slash |
| Server.NormalizePath | server.py:15-21 | the result has no backslash and no leading slash |
| Server.NormalizeStrips | server.py:15-21 | the result is what is left after backslashes become slashes and leading slashes are removed |
| Server.NormalizeIdempotent | server.py:15-21 | normalizing twice is normalizing once |
| Server.Resolve | server.py:62-63 | a resolved path consists of valid names |
| Server.ResolveReports | server.py:62-63 | a resolved path is reported back as the normalized path |
| Server.NormalizeKeepsParentStep | server.py:15-21 | as written: for any valid name, `normalize_path` leaves "../name" unchanged, so its first component is `..` |
| Server.ResolveStaysInside | server.py:84-90 | a resolved key has no `..` component, and "../name" is refused, so no request reaches outside the storage directory |
| Server.ResolvePathOf | server.py:26 | the path the server reports for an entry resolves back to that entry |
| Server.PathOf | server.py:26 | the `rel_path` reported for a key: the components joined with `/`; `Server.ResolvePathOf` and `Server.ResolveReports` state that it names the key again |
| Server.BaseName | server.py:27 | `os.path.basename`: for a non-empty valid key a valid name |
| Server.BaseNameLast | server.py:27 | a key is its parent followed by its base name |
| Server.Lookup | server.py:65-68 | `os.path.exists`, `isdir` and `isfile` (also at lines 29, 102, 105 and 125): the storage root is always a directory, a stored key gives its node, and any other key gives nothing |
| Server.MakeDirs | server.py:87 | `os.makedirs` with `exist_ok`; its effect is stated by `Server.MakeDirsEffect` |
| Server.SaveEffect | server.py:85-90 | the store after a write; stated by `Server.SaveKeepsTree` and `Server.SaveEffectChanges` |
| Server.MakeDirsEffect | server.py:87 | the tree stays a tree, every directory on the way to `k` exists, and nothing else changes |
| Server.SaveKeepsTree | server.py:85-90 | saving keeps the store a directory tree |
| Server.SaveEffectChanges | server.py:85-90 | after a save the path holds the new content, its ancestors are directories, and nothing else changes |
| Server.RemoveBeneath | server.py:102-108 | the store after a delete; stated by `Server.RemoveBeneathEffect` and `Server.FileHasNothingBelow` |
| Server.RemoveBeneathEffect | server.py:102-108 | a delete removes exactly the path and everything below it, keeps the rest unchanged and keeps the store a tree |
| Server.FileHasNothingBelow | server.py:107-108 | deleting a file removes only that file |
| Server.Less | server.py:31 | the order of Python's `str` comparison; stated by `Server.LessTotal`, `Server.LessTransitive` and `Server.LessIrreflexive` |
| Server.LessIrreflexive | server.py:31 | no name is below itself |
| Server.LessTotal | server.py:31 | the order `sorted` uses compares every two different names |
| Server.LessTransitive | server.py:31 | that order is transitive |
| Server.Least | server.py:31 | the least name of a non-empty set is in the set and below every other member |
| Server.SortedNames | server.py:31 | `sorted` lists each name of the set once, in strictly ascending order |
| Server.SortedUnique | server.py:31 | two strictly sorted lists with the same names are equal, so the order of a listing is determined |
| Server.ChildNames | server.py:31 | `os.listdir` of a directory (also at line 52); its contents are fixed by `Server.ChildNamesExactly` |
| Server.ChildNamesExactly | server.py:31 | a name is listed in a directory exactly when the directory's key extended by that name is stored |
| Server.DescribesUnique | server.py:23-45 | a store determines the description of each path |
| Server.DescribedIsSorted | server.py:31-33 | every directory in a description lists its children in sorted name order |
| Server.ChildShrinks | server.py:31-33 | a child has strictly fewer entries below it than its parent, so the recursion ends |
| Server.ListedFileIsStored | server.py:23-45 | every file path in the description of a stored path is the reported path of a stored file |
| Server.ListedPathResolves | server.py:47-75 | a file path from the listing, sent back to `get_file`, resolves to the stored file it was listed for |
| Server.StoredFileIsListed | server.py:23-45 | every stored file below a described directory appears in its description |
| Server.ListingShowsExactlyStoredFiles | server.py:47-56 | the file paths in the listing are exactly the paths of the stored files |
| Server.Storage.constructor | server.py:12-13 | the storage keeps what the storage directory already holds, which is a directory tree |
| Server.Storage.GetFile | server.py:58-75 | a missing path is 404 "File not found", a directory 400 "Path is not a file", and a file answers its content with `\r\n` and `\r` read as `\n` |
| Server.Storage.SaveFile | server.py:77-93 | no content is 400 "No content provided"; a file on the way, a directory at the path or the storage root itself is a failure; otherwise the message is "File saved successfully" and the store is the save effect; the status is 200 exactly when content was given and the path is writable, and then the path holds the content |
| Server.Storage.DeleteItem | server.py:95-112 | a missing path is 404 "Path not found"; otherwise "Item deleted successfully" and everything at or below the path is removed |
| Server.Storage.CreateFolder | server.py:114-131 | no path is 400 "No path provided", an existing path 400 "Folder already exists", a file on the way a failure; otherwise "Folder created successfully" and the folder and its missing ancestors exist |
| Server.Storage.GetFileInfo | server.py:23-45 | the returned entry describes the path in the current store |
| Server.Storage.ChildrenInfo | server.py:29-33 | the children are in strictly sorted name order, are exactly the directory's children, and each describes its own path |
| Server.Storage.DescribeEach | server.py:31-33 | one entry per given name, in the given order, each describing its own path |
| Server.Storage.ListFiles | server.py:47-56 | the listing is the storage root's description |
| Session.AsFetchReply | script.js:132-140 | a reply counts as ok exactly when it is a success (content or a message), and it carries content exactly when it is a file's content, that content |
| Session.Post | script.js:209-217 | the server's side of a save: it succeeds exactly when the path is writable, and then the store is the save effect and holds the text at the path; otherwise the store is unchanged |
| Session.OpenFile | script.js:123-160 | the file opens exactly when the path names a stored file; then the buffer holds its content as a text-mode read returns it and the path is open and shown; otherwise the buffer, open file and title are unchanged; the reload count is outside the method's frame |
| Session.SaveBuffer | script.js:204-227 | the save succeeds exactly when the server can write the path; the buffer is kept; on success the store is the save effect of the buffer at that path, the path is open and shown and the tree is reloaded once; on failure the store, the open file, the title and the reload count are unchanged |
| Session.SaveThenOpen | script.js:204-227 | a save succeeds exactly when the server accepts the path; on success the store is the save effect, and after the reopen the buffer holds the saved text as a text-mode read returns it (the saved text itself when it has no carriage return), the path is open and shown and the tree was reloaded once; on failure the store and the reload count are unchanged, and the reopen loads what the path already held, or keeps the typed text and the open file when the path names no stored file |
| Session.DeleteOpenFile | script.js:229-248 | the delete succeeds exactly when the open file names a stored entry; then the store is the old one with everything at or below it removed, and the editor has no file open, an empty buffer, the untitled title and one more reload; otherwise the store and the whole editor are unchanged |
| Session.ShowTree | script.js:93-121 | after a reload, a row is active exactly when its path is the open file and a stored file's path |
| Session.OpenFromTree | script.js:83-87 | a click on a file row opens the file exactly when its path names a stored file, with the same outcome as `Session.OpenFile`; with the marking loop corrected, every row tree still renders its listing entry for the open file, and the rows are unchanged when nothing opens |

## Left out

- HTTP, JSON, `fetch`, `encodeURIComponent`, Flask routing and CORS are not modelled. A reply is a value of `Reply`, and the editor sees the request it would send plus a success flag or a `FetchReply`.
- The DOM and CSS classes, the marked preview, `updatePreview`, `localStorage` writes and the sidebar and resizer handlers are not modelled. They hold no logic the core depends on. The stored draft and the page title at start up are constructor parameters.
- The marking loop inside `loadFile` reads a `data-path` attribute that no rendered row carries. The lookup gives `null`, so the loop removes `active` from every row, and after a successful open no row is marked until the tree is next rebuilt. `FileTree.Remark` models the loop, and the finding below records the effect.
- `loadFiles` runs asynchronously and does not wait, so two reloads may overlap. The model counts reloads (`Editor.reloads`) and renders one listing at a time (`Session.ShowTree`). When the listing request fails, the cleared list is not modelled.
- The unused `level` argument of `createFileListItem` and the HTML of the action buttons are left out.
- Server.Resolve: a path with an empty, `.` or `..` component, or with a trailing slash, names no entry of the model. Every handler that passes its missing-field check then answers with a failure (500) and keeps the store. In the original, `.` and empty components and a trailing slash are resolved by the filesystem, and a `..` component reaches outside the storage directory: `save_file` on "../x.md" writes a file beside it (see Findings).
- Server.Storage.DeleteItem: deleting the storage root (an empty path) removes every entry, but the model's root always exists. In the original, the storage directory itself is gone and later listings fail.
- Server.Storage.SaveFile: content that is not a string, and a request body that is not JSON (both failures in the original), are not modelled. Content is `Option<string>`.
- Toolbar.Wrap: offsets are counted in characters. The browser's `selectionStart`, `selectionEnd` and `substring` count UTF-16 code units, so the two differ for text outside the Basic Multilingual Plane.
- EditorState.Editor: the browser's textarea turns every `\r\n` and `\r` of an assigned value into `\n`. The model keeps the buffer exactly as assigned.
- The `console.error` and `console.log` calls are left out. They only write diagnostics and change no state.
- Server.Storage.constructor: what the storage directory holds at start-up is a parameter. Where it comes from, and the creation of the directory itself, are not modelled. It must be a directory tree of valid names, so a directory that already holds a name with a backslash (possible on POSIX, for instance `x\y.md`) is excluded. The original lists such a file under the path `x/y.md`, because `get_file_info` replaces backslashes in the reported path, and a read or delete of that path answers 404. `Server.ListedPathResolves` and `Server.ListingShowsExactlyStoredFiles` therefore describe the original only for stores without such names.
- The server is modelled on a POSIX system, with each request handled alone. On Windows, a text-mode write turns each `\n` into `\r\n`, so `"a\r\nb"` reads back as `"a\n\nb"`, whereas `Server.SaveEffect` stores the content as given and a read returns `"a\nb"`. `app.run` serves requests on threads, so a `shutil.rmtree` can run beside a save; the model applies each handler as one step on `entries`.
- Filesystem errors other than those caused by the tree's shape are not modelled: permissions, encodings and a full disk.
- The storage directory's location (`STORAGE_DIR`) is left out. The model's paths are relative to it.
- Server.Less: names are compared by code point, as Python compares `str`. The operating system's file-name rules are not modelled.
- EditorState.Editor.PressToolbar: after the list command the browser keeps a selection of its own choosing. The model returns no selection.

## Findings

| source | as written | input that shows it | evidently intended | confidence | as-written member | corrected member |
|---|---|---|---|---|---|---|
| script.js:145-153 | the rows are matched on `getAttribute('data-path')`, which no row created by `createFileListItem` sets | open any listed file from the sidebar: its row, and every other row, loses `active` | the opened file's row becomes active, as the rebuild at script.js:59-61 does | not executed | FileTree.OpenedFileNotMarked | FileTree.RemarkedLikeRebuild |
| server.py:84-90 | `normalize_path` keeps `..` components, and the path is joined onto the storage directory as it is | `save_file` on "../x.md" with any content | a request names only entries inside the storage directory | not executed | Server.NormalizeKeepsParentStep | Server.ResolveStaysInside |
