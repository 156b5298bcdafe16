/** The editor's state: the open file's path (or none, for an untitled
    buffer), the buffer, the title shown for the open file, and how many tree
    reloads the operations have started. Each server answer and each answer
    to a `prompt` or `confirm` dialog is a parameter of the operation. */
module EditorState {
  import opened Wrappers
  import opened Paths
  import Toolbar

  /** The request an operation sends to the server. */
  datatype Request =
    | GetFile(path: string)
    | PostFile(path: string, content: string)
    | PostFolder(path: string)
    | Delete(path: string)

  /** The answer to a file read as the editor sees it: a failure (network
      error, a status other than success, or a body that is not JSON), or a
      JSON body with or without a `content` field. */
  datatype FetchReply = Failed | Fetched(content: Option<string>)

  /** The buffer shown when no draft is kept in the browser. */
  const Welcome: string := "# Welcome to the Markdown Editor\n\nStart typing in markdown format and see the live preview on the right.\n\n## Features\n\n- Live preview\n- Server-side file storage\n- Clean interface\n- VSCode-like dark theme\n- Markdown toolbar\n\n```js\nconsole.log(\"Hello, World!\");\n```"

  /** The file `saveFile(path)` writes to: the explicit path, else the open
      file, else the answer to the name prompt, whichever comes first and is
      not empty; none of them means the save is abandoned. */
  function SaveTarget(path: Option<string>, current: Option<string>, answer: Option<string>): (t: Option<string>)
    ensures t.None? <==> !Truthy(path) && !Truthy(current) && !Truthy(answer)
    ensures t.Some? ==> t.value != ""
    ensures Truthy(path) ==> t == path
    ensures !Truthy(path) && Truthy(current) ==> t == current
    ensures !Truthy(path) && !Truthy(current) && Truthy(answer) ==> t == answer
  {
    if Truthy(path) then path
    else if Truthy(current) then current
    else if Truthy(answer) then answer
    else None
  }

  class Editor {
    /** `currentFileName`: the open file, `None` for an untitled buffer. */
    var current: Option<string>
    /** `editor.value`. */
    var buffer: string
    /** The open file's title, `currentFileDisplay.textContent`. */
    var title: string
    /** How many `loadFiles()` reloads of the tree have been started. */
    var reloads: nat

    /** The open file is never the empty path: every operation that sets it
        first checks that the path is not empty. */
    ghost predicate Valid()
      reads this
    {
      current != Some("")
    }

    /** Page start-up: the draft kept in the browser, if it is not empty,
        else the welcome text; no open file; the title as the page shows it. */
    constructor (draft: Option<string>, pageTitle: string)
      ensures Valid()
      ensures current == None && title == pageTitle && reloads == 0
      ensures buffer == if Truthy(draft) then draft.value else Welcome
    {
      current := None;
      buffer := if Truthy(draft) then draft.value else Welcome;
      title := pageTitle;
      reloads := 0;
    }

    /** `updateCurrentFileName`. */
    method UpdateCurrentFileName(name: Option<string>)
      modifies this`current, this`title
      ensures current == name && title == DisplayTitle(name)
      ensures Valid() <==> name != Some("")
    {
      current := name;
      title := DisplayTitle(name);
    }

    /** `loadFile(path)`: nothing for an empty path; otherwise the file is
        read, and only an answer with a `content` field opens it. */
    method LoadFile(path: string, reply: FetchReply) returns (request: Option<Request>)
      requires Valid()
      modifies this`current, this`title, this`buffer
      ensures Valid()
      ensures request == if path == "" then None else Some(GetFile(path))
      ensures path != "" && reply.Fetched? && reply.content.Some? ==>
        buffer == reply.content.value && current == Some(path) && title == DisplayTitle(Some(path))
      ensures !(path != "" && reply.Fetched? && reply.content.Some?) ==>
        buffer == old(buffer) && current == old(current) && title == old(title)
    {
      if path == "" {
        return None;
      }
      request := Some(GetFile(path));
      match reply
      case Failed =>
      case Fetched(content) =>
        if content.Some? {
          buffer := content.value;
          UpdateCurrentFileName(Some(path));
        }
    }

    /** `saveFile(path)`: the buffer is sent to the save target; a successful
        save makes the target the open file and reloads the tree, a failed one
        changes nothing. */
    method SaveFile(path: Option<string>, answer: Option<string>, ok: bool) returns (request: Option<Request>)
      requires Valid()
      modifies this`current, this`title, this`reloads
      ensures Valid()
      ensures var target := SaveTarget(path, old(current), answer);
        && request == (if target.None? then None else Some(PostFile(target.value, buffer)))
        && (target.Some? && ok ==>
              current == target && title == DisplayTitle(target) && reloads == old(reloads) + 1)
        && (target.None? || !ok ==>
              current == old(current) && title == old(title) && reloads == old(reloads))
      // the save button with a file open writes to that file, without asking
      ensures path.None? && old(current).Some? ==> request == Some(PostFile(old(current).value, buffer))
    {
      var target := SaveTarget(path, current, answer);
      if target.None? {
        return None;
      }
      request := Some(PostFile(target.value, buffer));
      if ok {
        UpdateCurrentFileName(target);
        reloads := reloads + 1;
      }
    }

    /** `createNewFile(folder)`: an empty or cancelled name sends nothing;
        otherwise the buffer is saved under the new `.md` path, and the tree is
        reloaded once more whether or not the save succeeded. */
    method CreateNewFile(folder: string, answer: Option<string>, ok: bool) returns (request: Option<Request>)
      requires Valid()
      modifies this`current, this`title, this`reloads
      ensures Valid()
      ensures !Truthy(answer) ==>
        request == None && current == old(current) && title == old(title) && reloads == old(reloads)
      ensures Truthy(answer) ==>
        var path := NewFilePath(folder, answer.value);
        && request == Some(PostFile(path, buffer))
        && (ok ==> current == Some(path) && title == DisplayTitle(Some(path)) && reloads == old(reloads) + 2)
        && (!ok ==> current == old(current) && title == old(title) && reloads == old(reloads) + 1)
    {
      if !Truthy(answer) {
        return None;
      }
      var path := NewFilePath(folder, answer.value);
      NewFilePathShape(folder, answer.value);
      request := SaveFile(Some(path), None, ok);
      reloads := reloads + 1;
    }

    /** `createNewFolder(parent)`: an empty or cancelled name sends nothing;
        otherwise the folder is requested and the tree reloaded on success. */
    method CreateNewFolder(parent: string, answer: Option<string>, ok: bool) returns (request: Option<Request>)
      modifies this`reloads
      ensures !Truthy(answer) ==> request == None && reloads == old(reloads)
      ensures Truthy(answer) ==>
        request == Some(PostFolder(FolderPath(parent, answer.value)))
        && reloads == old(reloads) + (if ok then 1 else 0)
    {
      if !Truthy(answer) {
        return None;
      }
      request := Some(PostFolder(FolderPath(parent, answer.value)));
      if ok {
        reloads := reloads + 1;
      }
    }

    /** `deleteFile(path)`: after confirmation the path is deleted; a
        successful delete of the open file empties the buffer and leaves no file
        open, a delete of any other file leaves both alone. */
    method DeleteFile(path: string, confirmed: bool, ok: bool) returns (request: Option<Request>)
      requires Valid()
      modifies this`current, this`title, this`buffer, this`reloads
      ensures Valid()
      ensures request == if confirmed then Some(Delete(path)) else None
      ensures reloads == old(reloads) + (if confirmed && ok then 1 else 0)
      ensures confirmed && ok && old(current) == Some(path) ==>
        current == None && buffer == "" && title == DisplayTitle(None)
      ensures !(confirmed && ok && old(current) == Some(path)) ==>
        current == old(current) && buffer == old(buffer) && title == old(title)
    {
      if !confirmed {
        return None;
      }
      request := Some(Delete(path));
      if ok {
        if current == Some(path) {
          buffer := "";
          UpdateCurrentFileName(None);
        }
        reloads := reloads + 1;
      }
    }

    /** `deleteFolder(path)`: the same delete request after confirmation; the
        open file and the buffer are left as they are, even when the open file
        was inside the folder. */
    method DeleteFolder(path: string, confirmed: bool, ok: bool) returns (request: Option<Request>)
      modifies this`reloads
      ensures request == if confirmed then Some(Delete(path)) else None
      ensures reloads == old(reloads) + (if confirmed && ok then 1 else 0)
      ensures current == old(current) && buffer == old(buffer) && title == old(title)
    {
      if !confirmed {
        return None;
      }
      request := Some(Delete(path));
      if ok {
        reloads := reloads + 1;
      }
    }

    /** A toolbar button pressed with selection `[start, end)`: the buffer
        becomes the command's result and the selection it sets is returned. */
    method PressToolbar(cmd: Toolbar.Command, start: nat, end: nat) returns (selection: Option<Toolbar.Range>)
      requires start <= end <= |buffer|
      modifies this`buffer
      ensures buffer == Toolbar.Apply(cmd, old(buffer), start, end).text
      ensures selection == Toolbar.Apply(cmd, old(buffer), start, end).selection
    {
      var edit := Toolbar.Apply(cmd, buffer, start, end);
      buffer := edit.text;
      selection := edit.selection;
    }
  }
}
