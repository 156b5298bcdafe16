/** The editor's file-name helpers: the `.md` suffix is stripped for display
    and added back when a file is created, and folder paths are joined with
    `/`. */
module Paths {
  import opened Wrappers

  predicate EndsWithMd(s: string) {
    |s| >= 3 && s[|s| - 3..] == ".md"
  }

  /** `s.replace(/\.md$/, '')`: one final `.md` removed, if there is one. */
  function StripMd(s: string): (r: string)
    ensures EndsWithMd(s) <==> s == r + ".md"
    ensures !EndsWithMd(s) ==> r == s
  {
    if EndsWithMd(s) then s[..|s| - 3] else s
  }

  /** Stripping undoes adding the suffix. */
  lemma StripAdded(s: string)
    ensures StripMd(s + ".md") == s
  {
    assert (s + ".md")[|s|..] == ".md";
  }

  /** The text shown as the open file's title: `Untitled` when there is no
      file name (or it is empty), otherwise the name without `.md`. */
  function DisplayTitle(name: Option<string>): (t: string)
    ensures !Truthy(name) ==> t == "Untitled"
    ensures Truthy(name) ==> t == StripMd(name.value)
  {
    if Truthy(name) then StripMd(name.value) else "Untitled"
  }

  /** The stored path of a file created under `folder` from the name the
      user typed: `<name>.md` at the root (empty folder), `<folder>/<name>.md`
      otherwise, with at most one `.md` taken off the typed name first. */
  function NewFilePath(folder: string, name: string): string
  {
    if folder != "" then folder + "/" + StripMd(name) + ".md" else StripMd(name) + ".md"
  }

  /** A created path ends in `.md`, has the folder and a `/` in front when
      there is a folder, and shows as the typed name without `.md`. */
  lemma NewFilePathShape(folder: string, name: string)
    ensures EndsWithMd(NewFilePath(folder, name))
    ensures StripMd(NewFilePath(folder, name)) == (if folder != "" then folder + "/" else "") + StripMd(name)
    ensures folder != "" ==> NewFilePath(folder, name)[..|folder| + 1] == folder + "/"
  {
    var stem := (if folder != "" then folder + "/" else "") + StripMd(name);
    assert NewFilePath(folder, name) == stem + ".md";
    StripAdded(stem);
  }

  /** Typing `n` or `n.md` creates the same file exactly when `n` does not
      itself end in `.md`. */
  lemma {:induction false} SuffixTypedOrNot(folder: string, n: string)
    ensures NewFilePath(folder, n + ".md") == NewFilePath(folder, n) <==> !EndsWithMd(n)
  {
    StripAdded(n);
    if EndsWithMd(n) {
      assert StripMd(n) + ".md" == n;
      assert |StripMd(n)| < |n|;
      assert |NewFilePath(folder, n)| < |NewFilePath(folder, n + ".md")|;
    }
  }

  lemma NewFileExamples()
    ensures NewFilePath("", "notes") == "notes.md"
    ensures NewFilePath("", "notes.md") == "notes.md"
    ensures NewFilePath("f", "notes.md") == "f/notes.md"
  {
    StripAdded("notes");
  }

  /** The path of a folder created under `parent` (empty for the root). */
  function FolderPath(parent: string, name: string): (p: string)
    ensures parent == "" ==> p == name
    ensures parent != "" ==> |p| == |parent| + 1 + |name| && p[..|parent|] == parent
                             && p[|parent|] == '/' && p[|parent| + 1..] == name
  {
    if parent != "" then parent + "/" + name else name
  }
}
