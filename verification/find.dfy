/** The pure part of user/find.c: the last path component, the directory
    entry filter, the child path built in the 512-byte buffer, the length
    guard and the name match, over a directory tree given as a value.
    C strings are modelled without their terminating NUL. */
module Find {
  import opened Types

  /** Bytes of a directory entry's name field. */
  const DIRSIZ: nat := 14
  /** Size of the buffer the child path is built in. */
  const BUFSIZE: nat := 512

  /** The backward scan of `get_name_from_path` from position `p`
      (`|path|` is the terminating NUL): the index just after the last
      `/` at or before `p`, or 0 when there is none. */
  function ScanBack(path: string, p: int): (k: nat)
    requires -1 <= p <= |path|
    ensures k <= p + 1 && k <= |path|
    ensures k == 0 || path[k - 1] == '/'
    ensures forall j :: k <= j <= p && j < |path| ==> path[j] != '/'
    decreases p + 1
  {
    if p < 0 then 0
    else if p < |path| && path[p] == '/' then p + 1
    else ScanBack(path, p - 1)
  }

  /** `get_name_from_path`: what follows the last `/` of the path. */
  function NameFromPath(path: string): (name: string)
    ensures |name| <= |path| && name == path[|path| - |name|..]
    ensures '/' !in name
    ensures |name| < |path| ==> path[|path| - |name| - 1] == '/'
  {
    path[ScanBack(path, |path|)..]
  }

  /** A path without `/` is its own name. */
  lemma NoSlashWholePath(path: string)
    requires '/' !in path
    ensures NameFromPath(path) == path
  {
  }

  /** A path ending in `/` names the empty string. */
  lemma TrailingSlashEmptyName(path: string)
    requires |path| > 0 && path[|path| - 1] == '/'
    ensures NameFromPath(path) == ""
  {
  }

  /** Joining a slash-free name onto any path and taking the name back
      gives the name. */
  lemma NameOfJoin(dir: string, name: string)
    requires '/' !in name
    ensures NameFromPath(dir + "/" + name) == name
  {
    var path := dir + "/" + name;
    assert path[|dir|] == '/';
    assert forall j :: |dir| < j < |path| ==> path[j] == name[j - |dir| - 1];
  }

  /** The name as C reads it from the fixed-size field: up to the first
      NUL, and at most `DIRSIZ` bytes (the copy is cut at `DIRSIZ`). */
  function CName(raw: string): (name: string)
    ensures |name| <= DIRSIZ && |name| <= |raw| && name == raw[..|name|]
    ensures '\0' !in name
    ensures |name| < |raw| && |name| < DIRSIZ ==> raw[|name|] == '\0'
  {
    if |raw| == 0 || raw[0] == '\0' || DIRSIZ == 0 then ""
    else
      var rest := CName(raw[1..]);
      if |rest| == DIRSIZ then raw[..DIRSIZ] else [raw[0]] + rest
  }

  /** A directory entry: inode number 0 marks a free slot; `node` is what
      the entry leads to. */
  datatype Dirent = Dirent(inum: nat, name: string, node: Node)

  /** What `fstat` reports of an opened path, with a directory's entries
      in the order `read` returns them. */
  datatype Node = File | Device | Dir(entries: seq<Dirent>)

  /** One line printed by `find`. */
  datatype Line = Found(path: string) | PathTooLong

  /** The filter on directory entries: free slots, `.` and `..` are
      skipped (recursing into the latter two would never end). */
  predicate SkipEntry(e: Dirent)
  {
    e.inum == 0 || CName(e.name) == "." || CName(e.name) == ".."
  }

  /** The length guard of a directory: the path, a `/`, a full name and the
      NUL must fit in the buffer. */
  predicate TooLong(path: string)
  {
    |path| + 1 + DIRSIZ + 1 > BUFSIZE
  }

  /** The child path left in the buffer: the directory's path, `/`, and
      the entry's name. */
  function ChildPath(path: string, raw: string): (child: string)
    ensures |child| == |path| + 1 + |CName(raw)|
    ensures child[..|path|] == path && child[|path|] == '/' && child[|path| + 1..] == CName(raw)
  {
    path + "/" + CName(raw)
  }

  /** When the guard lets a directory through, every child path and its
      NUL fit in the buffer. */
  lemma ChildPathFits(path: string, raw: string)
    requires !TooLong(path)
    ensures |ChildPath(path, raw)| + 1 <= BUFSIZE
  {
  }

  /** `find(path, target)` on the node `path` opens to. */
  function FindIn(path: string, node: Node, target: string): (out: seq<Line>)
    ensures forall l :: l in out && l.Found? ==>
              NameFromPath(l.path) == target && |path| <= |l.path| && l.path[..|path|] == path
    decreases node, 1
  {
    match node
    case File => if NameFromPath(path) == target then [Found(path)] else []
    case Device => []
    case Dir(_) => if TooLong(path) then [PathTooLong] else ScanDir(path, node, 0, target)
  }

  /** The entry loop of a directory from entry `i` on. */
  function ScanDir(path: string, dir: Node, i: nat, target: string): (out: seq<Line>)
    requires dir.Dir? && i <= |dir.entries|
    ensures forall l :: l in out && l.Found? ==>
              && NameFromPath(l.path) == target
              && exists j :: i <= j < |dir.entries| && !SkipEntry(dir.entries[j])
                             && |ChildPath(path, dir.entries[j].name)| <= |l.path|
                             && l.path[..|ChildPath(path, dir.entries[j].name)|] == ChildPath(path, dir.entries[j].name)
    decreases dir, 0, |dir.entries| - i
  {
    if i == |dir.entries| then []
    else
      var e := dir.entries[i];
      var here := if SkipEntry(e) then [] else FindIn(ChildPath(path, e.name), e.node, target);
      var rest := ScanDir(path, dir, i + 1, target);
      assert forall l :: l in here + rest ==> l in here || l in rest;
      here + rest
  }

  /** `main`: fewer than two arguments after the program name is an error;
      otherwise the search starts at the given path for the given name. */
  function Run(argv: seq<string>, root: Node): (r: Result<seq<Line>>)
    ensures r.Err? <==> |argv| <= 2
    ensures r.Ok? ==> r.value == FindIn(argv[1], root, argv[2])
  {
    if |argv| <= 2 then Err("Error") else Ok(FindIn(argv[1], root, argv[2]))
  }

  /** A file is reported exactly when its last path component equals the
      target. */
  lemma FileReportedIffNameMatches(path: string, target: string)
    ensures Found(path) in FindIn(path, File, target) <==> NameFromPath(path) == target
    ensures |FindIn(path, File, target)| <= 1
  {
  }

  /** A directory that fails the length guard prints only the complaint
      and is not searched. */
  lemma TooLongNotSearched(path: string, entries: seq<Dirent>, target: string)
    requires TooLong(path)
    ensures FindIn(path, Dir(entries), target) == [PathTooLong]
  {
  }

  /** Every line reported inside a directory lies under it. */
  lemma ReportsUnderDirectory(path: string, entries: seq<Dirent>, target: string, l: Line)
    requires l in FindIn(path, Dir(entries), target) && l.Found?
    ensures |path| + 1 <= |l.path| && l.path[..|path| + 1] == path + "/"
  {
    var dir := Dir(entries);
    var j :| 0 <= j < |entries| && !SkipEntry(entries[j])
             && |ChildPath(path, entries[j].name)| <= |l.path|
             && l.path[..|ChildPath(path, entries[j].name)|] == ChildPath(path, entries[j].name);
    var c := ChildPath(path, entries[j].name);
    assert l.path[..|path| + 1] == c[..|path| + 1];
  }

  /** A skipped entry adds no output: the loop moves straight on. */
  lemma SkippedEntryAddsNothing(path: string, dir: Node, i: nat, target: string)
    requires dir.Dir? && i < |dir.entries| && SkipEntry(dir.entries[i])
    ensures ScanDir(path, dir, i, target) == ScanDir(path, dir, i + 1, target)
  {
  }

  /** A non-skipped file entry whose name is the target is reported by a
      directory that passes the length guard, at the child path. */
  lemma {:induction false} MatchingChildReported(path: string, entries: seq<Dirent>, j: nat, target: string)
    requires !TooLong(path) && j < |entries|
    requires !SkipEntry(entries[j]) && entries[j].node == File
    requires CName(entries[j].name) == target && '/' !in target
    ensures Found(ChildPath(path, entries[j].name)) in FindIn(path, Dir(entries), target)
  {
    NameOfJoin(path, target);
    ScanDirIncludes(path, Dir(entries), 0, j, target);
  }

  lemma {:induction false} ScanDirIncludes(path: string, dir: Node, i: nat, j: nat, target: string)
    requires dir.Dir? && i <= j < |dir.entries|
    requires !SkipEntry(dir.entries[j]) && dir.entries[j].node == File
    requires NameFromPath(ChildPath(path, dir.entries[j].name)) == target
    ensures Found(ChildPath(path, dir.entries[j].name)) in ScanDir(path, dir, i, target)
    decreases j - i
  {
    var e := dir.entries[i];
    var here := if SkipEntry(e) then [] else FindIn(ChildPath(path, e.name), e.node, target);
    var rest := ScanDir(path, dir, i + 1, target);
    assert ScanDir(path, dir, i, target) == here + rest;
    if i < j {
      ScanDirIncludes(path, dir, i + 1, j, target);
      assert Found(ChildPath(path, dir.entries[j].name)) in rest;
    } else {
      assert here == [Found(ChildPath(path, e.name))];
    }
  }
}
