/** The directory listing the server sends and the editor renders: a file
    entry, or a directory entry with its children in order. */
module Listing {

  datatype Entry =
    | FileInfo(name: string, path: string)
    | DirInfo(name: string, path: string, children: seq<Entry>)

  /** Paths of the file entries in a listing. */
  function FilePaths(e: Entry): set<string>
    decreases e, 1
  {
    match e
    case FileInfo(_, path) => {path}
    case DirInfo(_, _, children) => FilePathsOf(children)
  }

  function FilePathsOf(es: seq<Entry>): set<string>
    decreases es, 0
  {
    if es == [] then {} else FilePaths(es[0]) + FilePathsOf(es[1..])
  }

  /** A file path of a sequence of entries is a file path of one of them. */
  lemma {:induction false} FilePathsOfMember(es: seq<Entry>, p: string)
    ensures p in FilePathsOf(es) <==> exists i :: 0 <= i < |es| && p in FilePaths(es[i])
  {
    if es != [] {
      FilePathsOfMember(es[1..], p);
      if p in FilePathsOf(es[1..]) {
        var i :| 0 <= i < |es[1..]| && p in FilePaths(es[1..][i]);
        assert es[1..][i] == es[i + 1];
      }
      forall i | 1 <= i < |es| && p in FilePaths(es[i])
        ensures p in FilePathsOf(es[1..])
      {
        assert es[1..][i - 1] == es[i];
      }
    }
  }
}
