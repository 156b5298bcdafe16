/** The storage server. The storage directory is a map from paths (the
    sequence of their names) to nodes; the storage directory itself is the
    empty path and is always a directory. The handlers check a request in the
    server's order and change the map the way the filesystem calls would. */
module Server {
  import opened Wrappers
  import opened Text
  import opened Listing

  // ---------------------------------------------------------------------
  // normalize_path

  /** `s.lstrip('/')`: the leading `/` characters removed. */
  function LStripSlashes(s: string): (r: string)
    ensures r == "" || r[0] != '/'
  {
    if s != [] && s[0] == '/' then LStripSlashes(s[1..]) else s
  }

  /** Only leading slashes go: the result is a suffix of `s`, and everything
      in front of it is a slash. */
  lemma {:induction false} LStripLeading(s: string)
    ensures var r := LStripSlashes(s);
      |r| <= |s| && r == s[|s| - |r|..] && forall i :: 0 <= i < |s| - |r| ==> s[i] == '/'
  {
    if s != [] && s[0] == '/' {
      LStripLeading(s[1..]);
    }
  }

  /** `normalize_path`: backslashes become slashes, then leading slashes go,
      so the result holds no backslash and does not start with a slash. */
  function NormalizePath(path: string): (r: string)
    ensures '\\' !in r
    ensures r == "" || r[0] != '/'
  {
    var t := ReplaceChar(path, '\\', "/");
    LStripLeading(t);
    LStripSlashes(t)
  }

  /** The normalized path is what the replacement leaves after its leading
      slashes. */
  lemma NormalizeStrips(path: string)
    ensures var t := ReplaceChar(path, '\\', "/"); var r := NormalizePath(path);
      |r| <= |t| && r == t[|t| - |r|..] && forall i :: 0 <= i < |t| - |r| ==> t[i] == '/'
  {
    LStripLeading(ReplaceChar(path, '\\', "/"));
  }

  /** Normalizing twice is normalizing once. */
  lemma NormalizeIdempotent(path: string)
    ensures NormalizePath(NormalizePath(path)) == NormalizePath(path)
  {
    var r := NormalizePath(path);
    ReplaceAbsent(r, '\\', "/");
  }

  // ---------------------------------------------------------------------
  // Paths and the store

  /** A path as the store sees it: the names along it, outermost first. */
  type Key = seq<string>

  datatype Node = File(content: string) | Dir

  /** A name the model can store: not empty, not `.` or `..`, and free of
      both separators. */
  predicate ValidName(n: string) {
    n != "" && n != "." && n != ".." && '/' !in n && '\\' !in n
  }

  predicate ValidKey(k: Key) {
    forall i :: 0 <= i < |k| ==> ValidName(k[i])
  }

  /** The key a request path names once normalized, when the model can
      represent it (the empty path names the storage directory). */
  function Resolve(path: string): (k: Option<Key>)
    ensures k.Some? ==> ValidKey(k.value)
  {
    var n := NormalizePath(path);
    var parts := if n == "" then [] else Split(n, '/');
    if ValidKey(parts) then Some(parts) else None
  }

  /** As written, `normalize_path` keeps a `..` component: the path
      `save_file` joins onto the storage directory for "../name" starts with
      `..`, and so names a file beside the storage directory. */
  lemma NormalizeKeepsParentStep(name: string)
    requires ValidName(name)
    ensures NormalizePath("../" + name) == "../" + name
    ensures Split(NormalizePath("../" + name), '/') == ["..", name]
  {
    var s := "../" + name;
    assert s == ".." + "/" + name;
    assert '\\' !in s by {
      assert forall i :: 0 <= i < |s| ==> s[i] == '.' || s[i] == '/' || s[i] == name[i - 3];
    }
    ReplaceAbsent(s, '\\', "/");
    var parts := ["..", name];
    assert Join(parts, "/") == s by {
      assert parts[1..] == [name];
    }
    JoinRoundTrip(parts, '/');
  }

  /** The model's resolution keeps every request inside the storage
      directory: a resolved key has no `..` component, and "../name", which
      `normalize_path` lets through, is refused. */
  lemma ResolveStaysInside(path: string, name: string)
    requires ValidName(name)
    ensures Resolve(path).Some? ==> forall i :: 0 <= i < |Resolve(path).value| ==> Resolve(path).value[i] != ".."
    ensures Resolve("../" + name).None?
  {
    NormalizeKeepsParentStep(name);
    var parts := Split(NormalizePath("../" + name), '/');
    assert parts[0] == ".." && !ValidName(parts[0]);
    assert !ValidKey(parts);
  }

  /** The path string the server reports for a key. */
  function PathOf(k: Key): string {
    Join(k, "/")
  }

  /** A resolved path is reported back as the normalized path. */
  lemma ResolveReports(path: string)
    requires Resolve(path).Some?
    ensures PathOf(Resolve(path).value) == NormalizePath(path)
  {
    SplitRoundTrip(NormalizePath(path), '/');
  }

  /** The path the server reports for a stored key names that key again. */
  lemma ResolvePathOf(k: Key)
    requires ValidKey(k)
    ensures Resolve(PathOf(k)) == Some(k)
  {
    var s := PathOf(k);
    if k != [] {
      JoinAvoids(k, "/", '\\');
      JoinStartsWithFirst(k, "/");
      assert s[0] == k[0][0];
      ReplaceAbsent(s, '\\', "/");
      assert NormalizePath(s) == s;
      JoinRoundTrip(k, '/');
    }
  }

  /** `os.path.basename`: the last component; for a stored key, a valid name. */
  function BaseName(k: Key): (name: string)
    ensures ValidKey(k) && k != [] ==> ValidName(name)
  {
    if k == [] then "" else k[|k| - 1]
  }

  function Parent(k: Key): Key
    requires k != []
  {
    k[..|k| - 1]
  }

  /** A key is its parent followed by its base name. */
  lemma BaseNameLast(k: Key)
    requires k != []
    ensures k == Parent(k) + [BaseName(k)]
  {
  }

  predicate IsPrefix(k: Key, p: Key) {
    |k| <= |p| && p[..|k|] == k
  }

  /** What is stored under `k`; the storage directory always exists. */
  function Lookup(store: map<Key, Node>, k: Key): Option<Node> {
    if |k| == 0 then Some(Dir) else if k in store then Some(store[k]) else None
  }

  predicate IsDir(store: map<Key, Node>, k: Key) {
    Lookup(store, k) == Some(Dir)
  }

  /** A directory tree: every stored path is valid and sits in a stored
      directory (or in the storage directory). */
  ghost predicate WellFormed(store: map<Key, Node>) {
    forall k :: k in store ==> k != [] && ValidKey(k) && IsDir(store, Parent(k))
  }

  /** No prefix of `k` (`k` included) is a stored file. */
  predicate NoFileOn(store: map<Key, Node>, k: Key) {
    forall i :: 1 <= i <= |k| ==> k[..i] !in store || store[k[..i]].Dir?
  }

  function Prefixes(k: Key): set<Key> {
    set i | 1 <= i <= |k| :: k[..i]
  }

  /** `os.makedirs(k)`: every missing directory on the way to `k`, and `k`
      itself, created. */
  function MakeDirs(store: map<Key, Node>, k: Key): map<Key, Node> {
    map p | p in store.Keys + Prefixes(k) :: if p in store then store[p] else Dir
  }

  /** Writing a file: its directory made, then the file written. */
  function SaveEffect(store: map<Key, Node>, k: Key, content: string): map<Key, Node>
    requires k != []
  {
    MakeDirs(store, Parent(k))[k := File(content)]
  }

  /** Everything at or below `k` removed (`shutil.rmtree`, or `os.remove` for
      a file). */
  function RemoveBeneath(store: map<Key, Node>, k: Key): map<Key, Node> {
    map p | p in store && !IsPrefix(k, p) :: store[p]
  }

  // ---------------------------------------------------------------------
  // Properties of the effects

  /** In a directory tree every prefix of a stored path is a stored
      directory. */
  lemma {:induction false} AncestorsAreDirs(store: map<Key, Node>, p: Key, i: nat)
    requires WellFormed(store)
    requires p in store && 1 <= i < |p|
    ensures p[..i] in store && store[p[..i]] == Dir
    decreases |p|
  {
    var q := Parent(p);
    assert IsDir(store, q);
    if i < |q| {
      AncestorsAreDirs(store, q, i);
      assert q[..i] == p[..i];
    } else {
      assert q == p[..i];
    }
  }

  /** Making the directories of `k` keeps a directory tree, makes every
      prefix of `k` a directory and leaves every other path as it was. */
  lemma MakeDirsEffect(store: map<Key, Node>, k: Key)
    requires WellFormed(store) && ValidKey(k) && NoFileOn(store, k)
    ensures WellFormed(MakeDirs(store, k))
    ensures forall i :: 1 <= i <= |k| ==> IsDir(MakeDirs(store, k), k[..i])
    ensures forall p :: p !in Prefixes(k) ==> Lookup(MakeDirs(store, k), p) == Lookup(store, p)
  {
    var m := MakeDirs(store, k);
    forall i | 1 <= i <= |k|
      ensures IsDir(m, k[..i])
    {
      assert k[..i] in Prefixes(k);
    }
    forall p | p in m
      ensures p != [] && ValidKey(p) && IsDir(m, Parent(p))
    {
      if p in store {
        if Parent(p) != [] {
          assert Parent(p) in store;
        }
      } else {
        var i :| 1 <= i <= |k| && p == k[..i];
        assert ValidKey(p) by {
          forall j | 0 <= j < |p| ensures ValidName(p[j]) {
            assert p[j] == k[j];
          }
        }
        if i > 1 {
          assert Parent(p) == k[..i - 1];
        }
      }
    }
  }

  lemma PrefixesOfPath(k: Key)
    requires k != []
    ensures Prefixes(k) == Prefixes(Parent(k)) + {k}
  {
    var up := Parent(k);
    forall q | q in Prefixes(k) ensures q in Prefixes(up) + {k} {
      var i :| 1 <= i <= |k| && q == k[..i];
      if i < |k| {
        assert q == up[..i];
        assert up[..i] in Prefixes(up);
      } else {
        assert q == k;
      }
    }
    forall q | q in Prefixes(up) ensures q in Prefixes(k) {
      var i :| 1 <= i <= |up| && q == up[..i];
      assert q == k[..i];
    }
    assert k == k[..|k|];
  }

  lemma ParentValid(k: Key)
    requires k != [] && ValidKey(k)
    ensures ValidKey(Parent(k))
  {
    var up := Parent(k);
    forall j | 0 <= j < |up| ensures ValidName(up[j]) {
      assert up[j] == k[j];
    }
  }

  /** A save that passes the server's checks keeps a directory tree. */
  lemma SaveKeepsTree(store: map<Key, Node>, k: Key, content: string)
    requires WellFormed(store) && ValidKey(k) && k != []
    requires NoFileOn(store, Parent(k)) && !IsDir(store, k)
    ensures WellFormed(SaveEffect(store, k, content))
  {
    var up := Parent(k);
    ParentValid(k);
    MakeDirsEffect(store, up);
    var m := MakeDirs(store, up);
    var after := SaveEffect(store, k, content);
    forall p | p in after
      ensures p != [] && ValidKey(p) && IsDir(after, Parent(p))
    {
      if p == k {
        if |k| > 1 {
          assert up == up[..|up|];
          assert IsDir(m, up);
        }
      } else {
        assert p in m;
      }
    }
  }

  /** A save that passes the server's checks stores exactly the content under
      the path, makes its directories, and leaves every path that is not on
      the way to it as it was. */
  lemma SaveEffectChanges(store: map<Key, Node>, k: Key, content: string)
    requires WellFormed(store) && ValidKey(k) && k != []
    requires NoFileOn(store, Parent(k)) && !IsDir(store, k)
    ensures Lookup(SaveEffect(store, k, content), k) == Some(File(content))
    ensures forall i :: 1 <= i < |k| ==> IsDir(SaveEffect(store, k, content), k[..i])
    ensures forall p :: p !in Prefixes(k) ==> Lookup(SaveEffect(store, k, content), p) == Lookup(store, p)
  {
    var up := Parent(k);
    ParentValid(k);
    MakeDirsEffect(store, up);
    var m := MakeDirs(store, up);
    var after := SaveEffect(store, k, content);
    forall i | 1 <= i < |k|
      ensures IsDir(after, k[..i])
    {
      assert k[..i] == up[..i];
      assert IsDir(m, up[..i]);
    }
    PrefixesOfPath(k);
  }

  /** Removing a path keeps a directory tree, removes exactly that path and
      the paths below it, and leaves every other entry as it was. */
  lemma RemoveBeneathEffect(store: map<Key, Node>, k: Key)
    requires WellFormed(store)
    ensures WellFormed(RemoveBeneath(store, k))
    ensures forall p :: p in RemoveBeneath(store, k) <==> p in store && !IsPrefix(k, p)
    ensures forall p :: p in RemoveBeneath(store, k) ==> RemoveBeneath(store, k)[p] == store[p]
  {
    var after := RemoveBeneath(store, k);
    forall p | p in after
      ensures IsDir(after, Parent(p))
    {
      var q := Parent(p);
      if q != [] {
        assert q in store;
      }
    }
  }

  /** A delete removes the deleted path itself. */
  lemma RemovedIsGone(store: map<Key, Node>, k: Key)
    ensures k !in RemoveBeneath(store, k)
  {
    assert IsPrefix(k, k);
  }

  /** A stored file has nothing below it, so removing it alone is removing
      everything below it. */
  lemma FileHasNothingBelow(store: map<Key, Node>, k: Key)
    requires WellFormed(store) && k in store && store[k].File?
    ensures RemoveBeneath(store, k) == store - {k}
  {
    forall p | p in store && p != k
      ensures !IsPrefix(k, p)
    {
      if IsPrefix(k, p) {
        AncestorsAreDirs(store, p, |k|);
      }
    }
  }

  // ---------------------------------------------------------------------
  // sorted(): names in code-point order

  /** Python's string order: code point by code point, a proper prefix first. */
  predicate Less(a: string, b: string)
    decreases |a|
  {
    if a == [] then b != []
    else b != [] && (a[0] < b[0] || (a[0] == b[0] && Less(a[1..], b[1..])))
  }

  lemma {:induction false} LessIrreflexive(a: string)
    ensures !Less(a, a)
    decreases |a|
  {
    if a != [] {
      LessIrreflexive(a[1..]);
    }
  }

  lemma {:induction false} LessTransitive(a: string, b: string, c: string)
    requires Less(a, b) && Less(b, c)
    ensures Less(a, c)
    decreases |a|
  {
    if a != [] && a[0] == b[0] && b[0] == c[0] {
      LessTransitive(a[1..], b[1..], c[1..]);
    }
  }

  lemma {:induction false} LessTotal(a: string, b: string)
    ensures a == b || Less(a, b) || Less(b, a)
    decreases |a|
  {
    if a != [] && b != [] && a[0] == b[0] {
      LessTotal(a[1..], b[1..]);
      if a[1..] == b[1..] {
        assert a == [a[0]] + a[1..] && b == [b[0]] + b[1..];
      }
    }
  }

  lemma LessAsymmetric(a: string, b: string)
    ensures !(Less(a, b) && Less(b, a))
  {
    if Less(a, b) && Less(b, a) {
      LessTransitive(a, b, a);
      LessIrreflexive(a);
    }
  }

  predicate IsLeast(m: string, s: set<string>) {
    m in s && forall x :: x in s && x != m ==> Less(m, x)
  }

  lemma {:induction false} LeastExists(s: set<string>)
    requires s != {}
    ensures exists m :: IsLeast(m, s)
    decreases s
  {
    var x :| x in s;
    if s != {x} {
      LeastExists(s - {x});
      var m :| IsLeast(m, s - {x});
      LessTotal(x, m);
      if Less(x, m) {
        forall y | y in s && y != x
          ensures Less(x, y)
        {
          if y != m {
            LessTransitive(x, m, y);
          }
        }
        assert IsLeast(x, s);
      } else {
        assert IsLeast(m, s);
      }
    } else {
      assert IsLeast(x, s);
    }
  }

  /** The least name of a non-empty set. */
  function Least(s: set<string>): (m: string)
    requires s != {}
    ensures m in s && forall x :: x in s && x != m ==> Less(m, x)
  {
    LeastExists(s);
    forall a, b ensures !(Less(a, b) && Less(b, a)) {
      LessAsymmetric(a, b);
    }
    var m :| IsLeast(m, s); m
  }

  ghost predicate StrictlySorted(names: seq<string>) {
    forall i, j :: 0 <= i < j < |names| ==> Less(names[i], names[j])
  }

  /** `sorted(names)` of a set of distinct names: each once, in order. */
  function SortedNames(s: set<string>): (r: seq<string>)
    ensures |r| == |s|
    ensures forall x :: x in r <==> x in s
    ensures StrictlySorted(r)
    decreases s
  {
    if s == {} then []
    else
      var m := Least(s);
      [m] + SortedNames(s - {m})
  }

  /** Two sorted sequences of the same names are the same sequence. */
  lemma {:induction false} SortedUnique(a: seq<string>, b: seq<string>)
    requires StrictlySorted(a) && StrictlySorted(b)
    requires forall x :: x in a <==> x in b
    ensures a == b
    decreases |a|
  {
    if a != [] {
      assert a[0] in b;
      assert b != [];
      assert a[0] == b[0] by {
        if a[0] != b[0] {
          assert b[0] in b;
          var i :| 0 <= i < |b| && b[i] == a[0];
          var j :| 0 <= j < |a| && a[j] == b[0];
          assert Less(b[0], b[i]) && Less(a[0], a[j]);
          LessAsymmetric(a[0], b[0]);
          assert false;
        }
      }
      forall x ensures x in a[1..] <==> x in b[1..] {
        SortedTail(a, x);
        SortedTail(b, x);
      }
      SortedUnique(a[1..], b[1..]);
      assert a == [a[0]] + a[1..] && b == [b[0]] + b[1..];
    } else if b != [] {
      HeadIsElement(b);
      assert false;
    }
  }

  lemma HeadIsElement(b: seq<string>)
    requires b != []
    ensures b[0] in b
  {
  }

  lemma SortedTail(a: seq<string>, x: string)
    requires StrictlySorted(a) && a != []
    ensures x in a[1..] <==> x in a && x != a[0]
  {
    if x in a[1..] {
      var i :| 0 <= i < |a[1..]| && a[1..][i] == x;
      assert Less(a[0], a[i + 1]);
      LessIrreflexive(x);
    }
    if x in a && x != a[0] {
      var i :| 0 <= i < |a| && a[i] == x;
      assert a[1..][i - 1] == x;
    }
  }

  // ---------------------------------------------------------------------
  // The listing

  /** The names of the entries directly inside `k`. */
  function ChildNames(store: map<Key, Node>, k: Key): set<string> {
    set p | p in store && |p| == |k| + 1 && p[..|k|] == k :: p[|k|]
  }

  /** `os.listdir`: a name is listed in `k` exactly when `k` extended by it
      is stored. */
  lemma ChildNamesExactly(store: map<Key, Node>, k: Key, n: string)
    ensures n in ChildNames(store, k) <==> k + [n] in store
  {
    if n in ChildNames(store, k) {
      var p :| p in store && |p| == |k| + 1 && p[..|k|] == k && p[|k|] == n;
      assert p == k + [n];
    } else {
      assert (k + [n])[..|k|] == k && (k + [n])[|k|] == n;
    }
  }

  function Names(es: seq<Entry>): (names: seq<string>)
    ensures |names| == |es|
    ensures forall i :: 0 <= i < |es| ==> names[i] == es[i].name
  {
    if es == [] then [] else [es[0].name] + Names(es[1..])
  }

  /** `e` is what `get_file_info` reports for `k`: its name and path, a
      directory entry exactly when `k` is a directory, and then one child per
      name inside it, in sorted order, each describing its own path. */
  ghost predicate Describes(store: map<Key, Node>, k: Key, e: Entry)
    decreases e
  {
    && e.name == BaseName(k)
    && e.path == PathOf(k)
    && (IsDir(store, k) <==> e.DirInfo?)
    && (e.DirInfo? ==>
          && StrictlySorted(Names(e.children))
          && (forall n :: n in Names(e.children) <==> n in ChildNames(store, k))
          && forall i :: 0 <= i < |e.children| ==> Describes(store, k + [e.children[i].name], e.children[i]))
  }

  lemma DescribedName(store: map<Key, Node>, k: Key, e: Entry)
    requires Describes(store, k, e)
    ensures e.name == BaseName(k)
  {
  }

  /** A path has one description: the listing is determined by the store. */
  lemma {:induction false} DescribesUnique(store: map<Key, Node>, k: Key, e1: Entry, e2: Entry)
    requires Describes(store, k, e1) && Describes(store, k, e2)
    ensures e1 == e2
    decreases e1
  {
    if e1.DirInfo? {
      var c1, c2 := e1.children, e2.children;
      SortedUnique(Names(c1), Names(c2));
      forall i | 0 <= i < |c1|
        ensures c1[i] == c2[i]
      {
        assert c1[i].name == c2[i].name;
        DescribesUnique(store, k + [c1[i].name], c1[i], c2[i]);
      }
      assert c1 == c2;
    }
  }

  /** Every directory in a description lists its children in sorted order. */
  ghost predicate SortedTree(e: Entry)
    decreases e
  {
    e.DirInfo? ==>
      && StrictlySorted(Names(e.children))
      && forall i :: 0 <= i < |e.children| ==> SortedTree(e.children[i])
  }

  lemma {:induction false} DescribedIsSorted(store: map<Key, Node>, k: Key, e: Entry)
    requires Describes(store, k, e)
    ensures SortedTree(e)
    decreases e
  {
    if e.DirInfo? {
      forall i | 0 <= i < |e.children|
        ensures SortedTree(e.children[i])
      {
        DescribedIsSorted(store, k + [e.children[i].name], e.children[i]);
      }
    }
  }

  /** The stored paths strictly below `k`. */
  function Beneath(store: map<Key, Node>, k: Key): set<Key> {
    set p | p in store && |p| > |k| && p[..|k|] == k
  }

  lemma ChildShrinks(store: map<Key, Node>, k: Key, n: string)
    requires n in ChildNames(store, k)
    ensures k + [n] in store
    ensures Beneath(store, k + [n]) < Beneath(store, k)
  {
    var c := k + [n];
    var p :| p in store && |p| == |k| + 1 && p[..|k|] == k && p[|k|] == n;
    assert p == c;
    assert c in Beneath(store, k);
    forall q | q in Beneath(store, c)
      ensures q in Beneath(store, k)
    {
      assert q[..|k|] == q[..|c|][..|k|];
    }
  }

  /** Every file the listing shows at or below `k` is a stored file, under
      the path the listing gives it. */
  lemma {:induction false} ListedFileIsStored(store: map<Key, Node>, k: Key, e: Entry, p: string)
    requires Lookup(store, k).Some? && Describes(store, k, e) && p in FilePaths(e)
    ensures exists q :: q in store && store[q].File? && PathOf(q) == p
    decreases e
  {
    match e
    case FileInfo(_, path) =>
      assert k in store && store[k].File? && PathOf(k) == p;
    case DirInfo(_, _, children) =>
      FilePathsOfMember(children, p);
      var i :| 0 <= i < |children| && p in FilePaths(children[i]);
      assert children[i].name in Names(children);
      ChildShrinks(store, k, children[i].name);
      ListedFileIsStored(store, k + [children[i].name], children[i], p);
  }

  /** A path the listing shows names, once resolved, the stored file it was
      listed for. */
  lemma ListedPathResolves(store: map<Key, Node>, files: seq<Entry>, p: string)
    requires WellFormed(store) && Describes(store, [], DirInfo("", "", files))
    requires p in FilePathsOf(files)
    ensures Resolve(p).Some? && Resolve(p).value in store && store[Resolve(p).value].File?
    ensures PathOf(Resolve(p).value) == p
  {
    ListedFileIsStored(store, [], DirInfo("", "", files), p);
    var q :| q in store && store[q].File? && PathOf(q) == p;
    ResolvePathOf(q);
  }

  /** A stored path strictly below `k` passes through a child of `k`. */
  lemma ChildOnTheWay(store: map<Key, Node>, k: Key, q: Key)
    requires WellFormed(store) && q in store && IsPrefix(k, q) && |q| > |k|
    ensures q[|k|] in ChildNames(store, k) && IsPrefix(k + [q[|k|]], q)
  {
    var c := q[..|k| + 1];
    if |c| < |q| {
      AncestorsAreDirs(store, q, |k| + 1);
    } else {
      assert c == q;
    }
    assert c[..|k|] == k by {
      assert q[..|k|] == k;
    }
    assert c == k + [q[|k|]];
  }

  /** Every stored file at or below `k` is in the listing of `k`. */
  lemma {:induction false} StoredFileIsListed(store: map<Key, Node>, k: Key, e: Entry, q: Key)
    requires WellFormed(store) && Describes(store, k, e)
    requires q in store && store[q].File? && IsPrefix(k, q)
    ensures PathOf(q) in FilePaths(e)
    decreases |q| - |k|
  {
    if |q| == |k| {
      assert q == k;
    } else {
      ChildOnTheWay(store, k, q);
      var n := q[|k|];
      if k != [] {
        AncestorsAreDirs(store, q, |k|);
        assert q[..|k|] == k;
      }
      var i :| 0 <= i < |e.children| && Names(e.children)[i] == n;
      StoredFileIsListed(store, k + [n], e.children[i], q);
      FilePathsOfMember(e.children, PathOf(q));
    }
  }

  /** The files of the listing are exactly the stored files, by their paths. */
  lemma ListingShowsExactlyStoredFiles(store: map<Key, Node>, files: seq<Entry>)
    requires WellFormed(store) && Describes(store, [], DirInfo("", "", files))
    ensures FilePathsOf(files) == set q | q in store && store[q].File? :: PathOf(q)
  {
    var root := DirInfo("", "", files);
    forall p | p in FilePathsOf(files)
      ensures p in set q | q in store && store[q].File? :: PathOf(q)
    {
      ListedFileIsStored(store, [], root, p);
    }
    forall q | q in store && store[q].File?
      ensures PathOf(q) in FilePathsOf(files)
    {
      StoredFileIsListed(store, [], root, q);
    }
  }

  // ---------------------------------------------------------------------
  // The handlers

  /** A handler's answer: a file's content, a success message, a refusal
      with its status and error text, or a failure (status 500) raised by a
      filesystem call. */
  datatype Reply =
    | Content(content: string)
    | Message(text: string)
    | Refused(code: nat, reason: string)
    | Failure

  function Status(r: Reply): nat {
    match r
    case Content(_) => 200
    case Message(_) => 200
    case Refused(code, _) => code
    case Failure => 500
  }

  /** `save_file` writes `path`: it names an entry below the storage
      directory, no file stands on the way to it, and it is not a directory. */
  predicate Writable(store: map<Key, Node>, path: string) {
    var key := Resolve(path);
    key.Some? && key.value != [] && NoFileOn(store, Parent(key.value)) && !IsDir(store, key.value)
  }

  /** The content of the stored file that `path` names, if it names one. */
  function FileAt(store: map<Key, Node>, path: string): Option<string> {
    var key := Resolve(path);
    if key.Some? && Lookup(store, key.value).Some? && Lookup(store, key.value).value.File?
    then Some(Lookup(store, key.value).value.content)
    else None
  }

  class Storage {
    /** The storage directory's contents. */
    var entries: map<Key, Node>

    ghost predicate Valid()
      reads this
    {
      WellFormed(entries)
    }

    /** Start-up: `os.makedirs(STORAGE_DIR, exist_ok=True)` keeps whatever
        the storage directory already holds, and creates it empty otherwise. */
    constructor (existing: map<Key, Node>)
      requires WellFormed(existing)
      ensures Valid() && entries == existing
    {
      entries := existing;
    }

    /** `get_file`: a missing path is 404, a directory 400, a file gives its
        content as a text-mode read returns it. */
    method GetFile(path: string) returns (reply: Reply)
      ensures Resolve(path).None? ==> reply == Failure
      ensures Resolve(path).Some? ==>
        var node := Lookup(entries, Resolve(path).value);
        && (node.None? ==> reply == Refused(404, "File not found"))
        && (node == Some(Dir) ==> reply == Refused(400, "Path is not a file"))
        && (node.Some? && node.value.File? ==> reply == Content(UniversalNewlines(node.value.content)))
      ensures reply.Content? <==> FileAt(entries, path).Some?
      ensures reply.Content? ==> reply.content == UniversalNewlines(FileAt(entries, path).value)
    {
      var key := Resolve(path);
      if key.None? {
        return Failure;
      }
      var node := Lookup(entries, key.value);
      if node.None? {
        return Refused(404, "File not found");
      }
      match node.value
      case Dir => reply := Refused(400, "Path is not a file");
      case File(content) => reply := Content(UniversalNewlines(content));
    }

    /** `save_file`: without content 400 and nothing written; otherwise the
        file's directories are made and the file written, unless a file stands
        where a directory is needed or the path is a directory (500). */
    method SaveFile(path: string, content: Option<string>) returns (reply: Reply)
      requires Valid()
      modifies this
      ensures Valid()
      ensures content.None? ==> reply == Refused(400, "No content provided") && entries == old(entries)
      ensures content.Some? && Writable(old(entries), path) ==>
        reply == Message("File saved successfully")
        && entries == SaveEffect(old(entries), Resolve(path).value, content.value)
      ensures content.Some? && !Writable(old(entries), path) ==> reply == Failure && entries == old(entries)
      ensures Status(reply) == 200 <==> content.Some? && Writable(old(entries), path)
      ensures Status(reply) == 200 ==> Lookup(entries, Resolve(path).value) == Some(File(content.value))
    {
      if content.None? {
        return Refused(400, "No content provided");
      }
      var key := Resolve(path);
      if key.None? {
        return Failure;
      }
      var k := key.value;
      if k == [] || !NoFileOn(entries, Parent(k)) || IsDir(entries, k) {
        return Failure;
      }
      SaveKeepsTree(entries, k, content.value);
      entries := SaveEffect(entries, k, content.value);
      reply := Message("File saved successfully");
    }

    /** `delete_item`: a missing path is 404; a directory goes with everything
        below it, a file alone. */
    method DeleteItem(path: string) returns (reply: Reply)
      requires Valid()
      modifies this
      ensures Valid()
      ensures Resolve(path).None? ==> reply == Failure && entries == old(entries)
      ensures Resolve(path).Some? ==>
        var k := Resolve(path).value;
        if Lookup(old(entries), k).None? then
          reply == Refused(404, "Path not found") && entries == old(entries)
        else
          reply == Message("Item deleted successfully") && entries == RemoveBeneath(old(entries), k)
    {
      var key := Resolve(path);
      if key.None? {
        return Failure;
      }
      var k := key.value;
      var node := Lookup(entries, k);
      if node.None? {
        return Refused(404, "Path not found");
      }
      RemoveBeneathEffect(entries, k);
      if node.value.Dir? {
        entries := RemoveBeneath(entries, k);
      } else {
        FileHasNothingBelow(entries, k);
        entries := entries - {k};
      }
      reply := Message("Item deleted successfully");
    }

    /** `create_folder`: without a path 400, an existing path 400; otherwise
        the folder and its missing parents are made, unless a file is in the
        way (500). */
    method CreateFolder(path: Option<string>) returns (reply: Reply)
      requires Valid()
      modifies this
      ensures Valid()
      ensures path.None? ==> reply == Refused(400, "No path provided") && entries == old(entries)
      ensures path.Some? && Resolve(path.value).None? ==> reply == Failure && entries == old(entries)
      ensures path.Some? && Resolve(path.value).Some? ==>
        var k := Resolve(path.value).value;
        if Lookup(old(entries), k).Some? then
          reply == Refused(400, "Folder already exists") && entries == old(entries)
        else if !NoFileOn(old(entries), k) then
          reply == Failure && entries == old(entries)
        else
          reply == Message("Folder created successfully") && entries == MakeDirs(old(entries), k)
          && IsDir(entries, k)
    {
      if path.None? {
        return Refused(400, "No path provided");
      }
      var key := Resolve(path.value);
      if key.None? {
        return Failure;
      }
      var k := key.value;
      if Lookup(entries, k).Some? {
        return Refused(400, "Folder already exists");
      }
      if !NoFileOn(entries, k) {
        return Failure;
      }
      MakeDirsEffect(entries, k);
      assert k[..|k|] == k;
      entries := MakeDirs(entries, k);
      reply := Message("Folder created successfully");
    }

    /** `get_file_info(k)`. */
    method GetFileInfo(k: Key) returns (e: Entry)
      ensures Describes(entries, k, e)
      decreases Beneath(entries, k), 2
    {
      if !IsDir(entries, k) {
        return FileInfo(BaseName(k), PathOf(k));
      }
      var children := ChildrenInfo(k);
      e := DirInfo(BaseName(k), PathOf(k), children);
    }

    /** The sorted loop of `get_file_info` and `list_files`: the entries
        inside `k`, one per name, in sorted order. */
    method ChildrenInfo(k: Key) returns (children: seq<Entry>)
      ensures StrictlySorted(Names(children))
      ensures forall n :: n in Names(children) <==> n in ChildNames(entries, k)
      ensures forall i :: 0 <= i < |children| ==> Describes(entries, k + [children[i].name], children[i])
      decreases Beneath(entries, k), 1
    {
      var names := SortedNames(ChildNames(entries, k));
      children := DescribeEach(k, names);
      assert Names(children) == names;
    }

    /** The loop body of `get_file_info` over the given names inside `k`:
        one description per name, in the names' order. */
    method DescribeEach(k: Key, names: seq<string>) returns (children: seq<Entry>)
      requires forall n :: n in names ==> n in ChildNames(entries, k)
      ensures |children| == |names|
      ensures forall j :: 0 <= j < |names| ==> children[j].name == names[j]
      ensures forall j :: 0 <= j < |names| ==> Describes(entries, k + [names[j]], children[j])
      decreases Beneath(entries, k), 0
    {
      children := [];
      var i := 0;
      while i < |names|
        invariant 0 <= i <= |names|
        invariant |children| == i
        invariant forall j :: 0 <= j < i ==> children[j].name == names[j]
        invariant forall j :: 0 <= j < i ==> Describes(entries, k + [names[j]], children[j])
      {
        assert names[i] in names;
        ChildShrinks(entries, k, names[i]);
        var child := GetFileInfo(k + [names[i]]);
        assert child.name == names[i] by {
          DescribedName(entries, k + [names[i]], child);
        }
        children := children + [child];
        i := i + 1;
      }
    }

    /** `list_files`: the entries of the storage directory, sorted, each
        described recursively. */
    method ListFiles() returns (files: seq<Entry>)
      ensures Describes(entries, [], DirInfo("", "", files))
    {
      files := ChildrenInfo([]);
      forall i | 0 <= i < |files|
        ensures Describes(entries, [] + [files[i].name], files[i])
      {
      }
    }
  }
}
