/** The editor and the server together: the editor's operations fed with the
    answers the server gives to the requests they send. */
module Session {
  import opened Wrappers
  import opened EditorState
  import opened Server
  import opened FileTree
  import opened Listing
  import opened Text
  import opened Paths

  /** How the editor reads the server's answer to a file read: only a
      success status is `ok`, and only `get_file`'s answer has `content`. */
  function AsFetchReply(r: Reply): (f: FetchReply)
    ensures f.Fetched? <==> r.Content? || r.Message?
    ensures f.Fetched? && f.content.Some? <==> r.Content?
    ensures r.Content? ==> f.content == Some(r.content)
  {
    match r
    case Content(c) => Fetched(Some(c))
    case Message(_) => Fetched(None)
    case Refused(_, _) => Failed
    case Failure => Failed
  }

  /** The server's side of a save: `text` posted to `path`, and whether the
      answer was a success. */
  method Post(server: Storage, path: string, text: string) returns (saved: bool, ghost written: map<Key, Node>)
    requires server.Valid()
    modifies server
    ensures server.Valid() && written == server.entries
    ensures saved <==> Writable(old(server.entries), path)
    ensures saved ==>
      && written == SaveEffect(old(server.entries), Resolve(path).value, text)
      && Lookup(written, Resolve(path).value) == Some(File(text))
    ensures !saved ==> written == old(server.entries)
  {
    var reply := server.SaveFile(path, Some(text));
    saved := Status(reply) == 200;
    written := server.entries;
  }

  /** `saveFile(path)` with an explicit path, as `createNewFile` calls it: the
      buffer is posted to the server and the editor told whether the server
      accepted it. */
  method SaveBuffer(server: Storage, editor: Editor, path: string) returns (saved: bool)
    requires server.Valid() && editor.Valid() && path != ""
    modifies server, editor
    ensures server.Valid() && editor.Valid()
    ensures saved <==> Writable(old(server.entries), path)
    ensures saved ==>
      && server.entries == SaveEffect(old(server.entries), Resolve(path).value, old(editor.buffer))
      && Lookup(server.entries, Resolve(path).value) == Some(File(old(editor.buffer)))
      && editor.current == Some(path) && editor.title == DisplayTitle(Some(path))
      && editor.reloads == old(editor.reloads) + 1
    ensures !saved ==>
      && server.entries == old(server.entries)
      && editor.current == old(editor.current) && editor.title == old(editor.title)
      && editor.reloads == old(editor.reloads)
    ensures editor.buffer == old(editor.buffer)
  {
    ghost var written;
    saved, written := Post(server, path, editor.buffer);
    assert SaveTarget(Some(path), editor.current, None) == Some(path);
    var _ := editor.SaveFile(Some(path), None, saved);
    assert server.entries == written;
  }

  /** Opening a file: the server's answer to the read is loaded into the
      editor. The file opens exactly when `path` names a stored file; then
      the buffer holds its content as a text-mode read returns it. Otherwise
      the editor is unchanged. */
  method OpenFile(server: Storage, editor: Editor, path: string) returns (loaded: bool)
    requires editor.Valid() && path != ""
    modifies editor`buffer, editor`current, editor`title
    ensures editor.Valid()
    ensures loaded <==> FileAt(server.entries, path).Some?
    ensures loaded ==>
      && editor.buffer == UniversalNewlines(FileAt(server.entries, path).value)
      && editor.current == Some(path) && editor.title == DisplayTitle(Some(path))
    ensures !loaded ==>
      editor.buffer == old(editor.buffer) && editor.current == old(editor.current)
      && editor.title == old(editor.title)
  {
    var answer := server.GetFile(path);
    loaded := answer.Content?;
    var reply := AsFetchReply(answer);
    assert loaded <==> reply.Fetched? && reply.content.Some?;
    var _ := editor.LoadFile(path, reply);
  }

  /** The buffer is saved to `path`, the user types `typed`, and the file is
      opened again. When the save succeeded the store holds the saved text,
      and the buffer holds it as a text-mode read returns it (the saved text
      itself when it has no carriage return). When the save failed the store
      is unchanged, and the reopen loads whatever `path` already held, or
      keeps the typed text when it names no stored file. */
  method SaveThenOpen(server: Storage, editor: Editor, path: string, typed: string) returns (saved: bool)
    requires server.Valid() && editor.Valid() && path != ""
    modifies server, editor
    ensures server.Valid() && editor.Valid()
    ensures saved <==> Writable(old(server.entries), path)
    ensures saved ==> server.entries == SaveEffect(old(server.entries), Resolve(path).value, old(editor.buffer))
    ensures !saved ==> server.entries == old(server.entries)
    ensures saved ==>
      && editor.buffer == UniversalNewlines(old(editor.buffer))
      && editor.current == Some(path) && editor.title == DisplayTitle(Some(path))
      && editor.reloads == old(editor.reloads) + 1
    ensures saved && '\r' !in old(editor.buffer) ==> editor.buffer == old(editor.buffer)
    ensures !saved ==> editor.reloads == old(editor.reloads)
    ensures !saved && FileAt(old(server.entries), path).Some? ==>
      && editor.buffer == UniversalNewlines(FileAt(old(server.entries), path).value)
      && editor.current == Some(path) && editor.title == DisplayTitle(Some(path))
    ensures !saved && FileAt(old(server.entries), path).None? ==>
      editor.buffer == typed && editor.current == old(editor.current) && editor.title == old(editor.title)
  {
    ghost var draft := editor.buffer;
    saved := SaveBuffer(server, editor, path);
    if saved {
      assert FileAt(server.entries, path) == Some(draft);
    }
    editor.buffer := typed;
    var _ := OpenFile(server, editor, path);
    if saved && '\r' !in draft {
      NewlinesKept(draft);
    }
  }

  /** The open file is deleted on the server. The delete succeeds exactly
      when the open file names a stored entry; then everything at or below
      it is removed from the store, the editor has no open file, an empty
      buffer and the untitled title, and the tree is reloaded once. When it
      fails, the store and the editor are unchanged. */
  method DeleteOpenFile(server: Storage, editor: Editor) returns (deleted: bool)
    requires server.Valid() && editor.Valid() && editor.current.Some?
    modifies server, editor
    ensures server.Valid() && editor.Valid()
    ensures var key := Resolve(old(editor.current).value);
      deleted <==> key.Some? && Lookup(old(server.entries), key.value).Some?
    ensures deleted ==>
      var key := Resolve(old(editor.current).value).value;
      && server.entries == RemoveBeneath(old(server.entries), key)
      && key !in server.entries
    ensures deleted ==>
      && editor.current == None && editor.buffer == "" && editor.title == DisplayTitle(None)
      && editor.reloads == old(editor.reloads) + 1
    ensures !deleted ==>
      && server.entries == old(server.entries)
      && editor.current == old(editor.current) && editor.buffer == old(editor.buffer)
      && editor.title == old(editor.title) && editor.reloads == old(editor.reloads)
  {
    var path := editor.current.value;
    ghost var before := server.entries;
    ghost var key := Resolve(path);
    var reply := server.DeleteItem(path);
    deleted := Status(reply) == 200;
    ghost var after := server.entries;
    if deleted {
      assert after == RemoveBeneath(before, key.value);
      RemovedIsGone(before, key.value);
    } else {
      assert after == before;
    }
    var _ := editor.DeleteFile(path, true, deleted);
    assert server.entries == after;
    assert old(editor.current) == Some(path);
  }

  /** The sidebar after a reload: the server's listing rendered with the open
      file marked; a row is active exactly when it is the open file and the
      open file's path is a stored file's path. */
  method ShowTree(server: Storage, current: Option<string>) returns (rows: seq<View>)
    requires server.Valid()
    ensures forall p :: p in ActivePathsOf(rows) <==>
      current == Some(p) && p in set q | q in server.entries && server.entries[q].File? :: PathOf(q)
  {
    var files := server.ListFiles();
    rows := RenderListing(files, current);
    ActiveExactlyOf(files, current, rows);
    ListingShowsExactlyStoredFiles(server.entries, files);
  }

  /** A click on a file row: the file is opened as `OpenFile` does and, when
      it opens, the marks are moved by the marking loop with `data-path` set
      on file rows. The tree then stays in step with the open file. */
  method OpenFromTree(server: Storage, editor: Editor, files: seq<Entry>, rows: seq<View>, path: string)
    returns (loaded: bool, marked: seq<View>)
    requires editor.Valid() && path != ""
    requires |rows| == |files| && forall i :: 0 <= i < |files| ==> Renders(files[i], editor.current, rows[i])
    modifies editor`buffer, editor`current, editor`title
    ensures editor.Valid()
    ensures loaded <==> FileAt(server.entries, path).Some?
    ensures loaded ==>
      && editor.buffer == UniversalNewlines(FileAt(server.entries, path).value)
      && editor.current == Some(path) && editor.title == DisplayTitle(Some(path))
    ensures !loaded ==>
      editor.buffer == old(editor.buffer) && editor.current == old(editor.current)
      && editor.title == old(editor.title) && marked == rows
    ensures |marked| == |files|
    ensures forall i :: 0 <= i < |files| ==> Renders(files[i], editor.current, marked[i])
  {
    loaded := OpenFile(server, editor, path);
    if loaded {
      marked := RemarkAll(rows, path, true);
      forall i | 0 <= i < |files|
        ensures Renders(files[i], Some(path), marked[i])
      {
        RemarkedLikeRebuild(files[i], old(editor.current), rows[i], path, marked[i]);
      }
    } else {
      marked := rows;
    }
  }
}
