/** The sidebar's file tree: each listing entry is rendered as a row,
    folders recursively, and a file row is marked active when its path is
    the open file's. */
module FileTree {
  import opened Wrappers
  import opened Listing
  import opened Paths

  /** A rendered row: a file row (the name shown, without `.md`, the path its click and
      delete button use, the active mark) or a folder row with the rows of its
      children. */
  datatype View =
    | FileRow(shown: string, path: string, active: bool)
    | FolderRow(shown: string, path: string, active: bool, rows: seq<View>)

  /** `v` is what the tree shows for entry `e` while `current` is open: files
      are labelled without `.md` and active exactly when their path is the
      current one, folders keep their name, are never active and show their
      children's rows in the children's order. */
  ghost predicate Renders(e: Entry, current: Option<string>, v: View)
    decreases e
  {
    match e
    case FileInfo(name, path) => v == FileRow(StripMd(name), path, current == Some(path))
    case DirInfo(name, path, children) =>
      && v.FolderRow?
      && v.shown == name && v.path == path && !v.active
      && |v.rows| == |children|
      && forall i :: 0 <= i < |children| ==> Renders(children[i], current, v.rows[i])
  }

  /** `createFileListItem`: one entry, and its children below it. */
  method RenderItem(item: Entry, current: Option<string>) returns (v: View)
    ensures Renders(item, current, v)
    decreases item
  {
    match item
    case FileInfo(name, path) =>
      v := FileRow(StripMd(name), path, current == Some(path));
    case DirInfo(name, path, children) =>
      var rows: seq<View> := [];
      var i := 0;
      while i < |children|
        invariant 0 <= i <= |children|
        invariant |rows| == i
        invariant forall j :: 0 <= j < i ==> Renders(children[j], current, rows[j])
      {
        var row := RenderItem(children[i], current);
        rows := rows + [row];
        i := i + 1;
      }
      v := FolderRow(name, path, false, rows);
  }

  /** The top level of `loadFiles`: every listed entry, in order. */
  method RenderListing(files: seq<Entry>, current: Option<string>) returns (rows: seq<View>)
    ensures |rows| == |files|
    ensures forall i :: 0 <= i < |files| ==> Renders(files[i], current, rows[i])
  {
    rows := [];
    var i := 0;
    while i < |files|
      invariant 0 <= i <= |files|
      invariant |rows| == i
      invariant forall j :: 0 <= j < i ==> Renders(files[j], current, rows[j])
    {
      var row := RenderItem(files[i], current);
      rows := rows + [row];
      i := i + 1;
    }
  }

  /** Paths of the rows marked active. */
  function ActivePaths(v: View): set<string>
    decreases v, 1
  {
    match v
    case FileRow(_, path, active) => if active then {path} else {}
    case FolderRow(_, path, active, rows) => (if active then {path} else {}) + ActivePathsOf(rows)
  }

  function ActivePathsOf(vs: seq<View>): set<string>
    decreases vs, 0
  {
    if vs == [] then {} else ActivePaths(vs[0]) + ActivePathsOf(vs[1..])
  }

  /** Exactly the listed file whose path is the open one is marked active:
      nothing when no file is open or the open file is not listed. */
  lemma {:induction false} ActiveExactly(e: Entry, current: Option<string>, v: View)
    requires Renders(e, current, v)
    ensures forall p :: p in ActivePaths(v) <==> current == Some(p) && p in FilePaths(e)
    decreases e, 1
  {
    match e
    case FileInfo(_, _) =>
    case DirInfo(_, _, children) =>
      ActiveExactlyOf(children, current, v.rows);
  }

  lemma {:induction false} ActiveExactlyOf(es: seq<Entry>, current: Option<string>, vs: seq<View>)
    requires |vs| == |es|
    requires forall i :: 0 <= i < |es| ==> Renders(es[i], current, vs[i])
    ensures forall p :: p in ActivePathsOf(vs) <==> current == Some(p) && p in FilePathsOf(es)
    decreases es, 0
  {
    if es != [] {
      ActiveExactly(es[0], current, vs[0]);
      ActiveExactlyOf(es[1..], current, vs[1..]);
    }
  }

  /** Rows marked active are file rows. */
  ghost predicate OnlyFilesActive(v: View)
    decreases v
  {
    match v
    case FileRow(_, _, _) => true
    case FolderRow(_, _, active, rows) =>
      !active && forall i :: 0 <= i < |rows| ==> OnlyFilesActive(rows[i])
  }

  /** No folder row is ever marked active, at any depth. */
  lemma {:induction false} FoldersNeverActive(e: Entry, current: Option<string>, v: View)
    requires Renders(e, current, v)
    ensures OnlyFilesActive(v)
    decreases e
  {
    match e
    case FileInfo(_, _) =>
    case DirInfo(_, _, children) =>
      forall i | 0 <= i < |children|
        ensures OnlyFilesActive(v.rows[i])
      {
        FoldersNeverActive(children[i], current, v.rows[i]);
      }
  }

  // ---------------------------------------------------------------------
  // The marking loop of `loadFile`

  /** The `data-path` attribute the marking loop reads from a row. The rows
      `createFileListItem` builds carry none (`tagged` false); were it set on
      file rows (`tagged` true), a file row would carry its path. */
  function DataPath(v: View, tagged: bool): Option<string> {
    if tagged && v.FileRow? then Some(v.path) else None
  }

  /** `w` is row `v` after the loop over every `.file-item` (file rows and
      folder headers): each row is marked exactly when its `data-path` is the
      opened path; names, paths and the tree's shape are unchanged. */
  ghost predicate Remarked(v: View, path: string, tagged: bool, w: View)
    decreases v
  {
    match v
    case FileRow(shown, p, _) => w == FileRow(shown, p, DataPath(v, tagged) == Some(path))
    case FolderRow(shown, p, _, rows) =>
      && w.FolderRow?
      && w.shown == shown && w.path == p && w.active == (DataPath(v, tagged) == Some(path))
      && |w.rows| == |rows|
      && forall i :: 0 <= i < |rows| ==> Remarked(rows[i], path, tagged, w.rows[i])
  }

  /** The marking loop on one row and the rows below it. */
  method Remark(v: View, path: string, tagged: bool) returns (w: View)
    ensures Remarked(v, path, tagged, w)
    decreases v
  {
    match v
    case FileRow(shown, p, _) =>
      w := FileRow(shown, p, DataPath(v, tagged) == Some(path));
    case FolderRow(shown, p, _, rows) =>
      var marked: seq<View> := [];
      var i := 0;
      while i < |rows|
        invariant 0 <= i <= |rows|
        invariant |marked| == i
        invariant forall j :: 0 <= j < i ==> Remarked(rows[j], path, tagged, marked[j])
      {
        var row := Remark(rows[i], path, tagged);
        marked := marked + [row];
        i := i + 1;
      }
      w := FolderRow(shown, p, DataPath(v, tagged) == Some(path), marked);
  }

  /** The marking loop over the whole tree. */
  method RemarkAll(rows: seq<View>, path: string, tagged: bool) returns (marked: seq<View>)
    ensures |marked| == |rows|
    ensures forall i :: 0 <= i < |rows| ==> Remarked(rows[i], path, tagged, marked[i])
  {
    marked := [];
    var i := 0;
    while i < |rows|
      invariant 0 <= i <= |rows|
      invariant |marked| == i
      invariant forall j :: 0 <= j < i ==> Remarked(rows[j], path, tagged, marked[j])
    {
      var row := Remark(rows[i], path, tagged);
      marked := marked + [row];
      i := i + 1;
    }
  }

  /** As written, the loop leaves no row marked, so the file just opened is
      not marked either. */
  lemma {:induction false} MarksClearedAsWritten(v: View, path: string, w: View)
    requires Remarked(v, path, false, w)
    ensures ActivePaths(w) == {}
    decreases v, 1
  {
    match v
    case FileRow(_, _, _) =>
    case FolderRow(_, _, _, rows) =>
      MarksClearedAsWrittenOf(rows, path, w.rows);
  }

  lemma {:induction false} MarksClearedAsWrittenOf(vs: seq<View>, path: string, ws: seq<View>)
    requires |ws| == |vs|
    requires forall i :: 0 <= i < |vs| ==> Remarked(vs[i], path, false, ws[i])
    ensures ActivePathsOf(ws) == {}
    decreases vs, 0
  {
    if vs != [] {
      MarksClearedAsWritten(vs[0], path, ws[0]);
      MarksClearedAsWrittenOf(vs[1..], path, ws[1..]);
    }
  }

  /** The discrepancy: after a listed file is opened, its row is not marked. */
  lemma OpenedFileNotMarked(e: Entry, current: Option<string>, v: View, path: string, w: View)
    requires Renders(e, current, v) && Remarked(v, path, false, w) && path in FilePaths(e)
    ensures path !in ActivePaths(w)
  {
    MarksClearedAsWritten(v, path, w);
  }

  /** With `data-path` set on file rows, the loop marks the tree exactly as
      rebuilding it with the opened file would. */
  lemma {:induction false} RemarkedLikeRebuild(e: Entry, current: Option<string>, v: View, path: string, w: View)
    requires Renders(e, current, v) && Remarked(v, path, true, w)
    ensures Renders(e, Some(path), w)
    ensures forall p :: p in ActivePaths(w) <==> p == path && p in FilePaths(e)
    decreases e
  {
    match e
    case FileInfo(_, _) =>
    case DirInfo(_, _, children) =>
      forall i | 0 <= i < |children|
        ensures Renders(children[i], Some(path), w.rows[i])
      {
        RemarkedLikeRebuild(children[i], current, v.rows[i], path, w.rows[i]);
      }
    ActiveExactly(e, Some(path), w);
  }
}
