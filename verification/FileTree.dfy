/** storage/file/file.go: a key-value store kept as a directory tree. */
module FileTree {
  import opened Wrappers
  import opened Bytes
  import opened Strings

  type Path = seq<string>

  /** A file is empty, or holds an encoded entry. */
  datatype Content = Blank | Entry(value: seq<byte>)

  /**
   * Directories and files by their path below the backend's root; the root itself is []. The keys
   * without a segment share one file, which lies beside the root.
   */
  datatype Tree = Tree(dirs: set<Path>, files: map<Path, Content>, beside: Option<Content>)

  const INIT := Tree({[]}, map[], None)

  /** filepath.Join on segments without "..": empty and "." segments vanish. */
  function Clean(segs: Path): Path {
    if segs == [] then []
    else (if segs[0] == "" || segs[0] == "." then [] else [segs[0]]) + Clean(segs[1..])
  }

  function Segments(k: string): Path { Clean(Split(k)) }

  /** expandPath: the directory, and the file name with its underscore. */
  function ExpandPath(k: string): (r: (Path, string))
    requires Segments(k) != []
  {
    var segs := Segments(k);
    (segs[..|segs| - 1], "_" + segs[|segs| - 1])
  }

  function FullPath(k: string): Path
    requires Segments(k) != []
  {
    var (dir, name) := ExpandPath(k);
    dir + [name]
  }

  function Parents(dir: Path): set<Path> { set i | 0 <= i <= |dir| :: dir[..i] }

  /** Some component of the path is a file, so nothing can be below it. */
  predicate Blocked(t: Tree, dir: Path) { exists i :: 0 <= i <= |dir| && dir[..i] in t.files }

  predicate ChildOf(x: Path, d: Path) { |x| == |d| + 1 && x[..|d|] == d }

  predicate IsEmpty(t: Tree, d: Path) {
    (forall x :: x in t.dirs ==> !ChildOf(x, d)) && (forall x :: x in t.files ==> !ChildOf(x, d))
  }

  /** A name os.CreateTemp can pick beside the key's file, without its underscore: nothing has that name yet. */
  predicate TempFresh(t: Tree, k: string, temp: string) {
    Segments(k) != [] ==>
      var path := ExpandPath(k).0 + ["_" + temp];
      temp != "" && temp != "." && path !in t.files && path !in t.dirs && path != FullPath(k)
  }

  // ---- the operations on values ----

  /** A put that finds a directory under the name of its file fails at the rename and leaves the temporary file. */
  function PutTree(t: Tree, k: string, v: seq<byte>, temp: string): (Tree, bool) {
    if HasDotDot(k) then (t, false)
    else if Segments(k) == [] then (t.(beside := Some(Entry(v))), true)
    else
      var dir := ExpandPath(k).0;
      if Blocked(t, dir) then (t, false)
      else
        var ok := FullPath(k) !in t.dirs;
        var file := if ok then FullPath(k) else dir + ["_" + temp];
        (t.(dirs := t.dirs + Parents(dir), files := t.files[file := Entry(v)]), ok)
  }

  /** The pruning loop with counter i; an error keeps what was pruned so far. */
  function Prune(t: Tree, nodes: Path, i: nat): (Tree, bool)
    requires i <= |nodes|
    decreases i
  {
    if i == 0 then (t, true)
    else
      var d := Clean(nodes[..i]);
      if d in t.files then (t, false)
      else if d !in t.dirs then (t, true)
      else Prune(if IsEmpty(t, d) then t.(dirs := t.dirs - {d}) else t, nodes, i - 1)
  }

  function DeleteTree(t: Tree, k: string): (Tree, bool) {
    if k == "" then (t, true)
    else if HasDotDot(k) then (t, false)
    else if Segments(k) == [] then Prune(t.(beside := None), Split(k), |Split(k)| - 1)
    else
      var full := FullPath(k);
      if Blocked(t, ExpandPath(k).0) || (full in t.dirs && !IsEmpty(t, full)) then (t, false)
      else Prune(t.(dirs := t.dirs - {full}, files := t.files - {full}), Split(k), |Split(k)| - 1)
  }

  /** What is in the file of a key, if it is there. */
  function FileOf(t: Tree, k: string): Option<Content> {
    if Segments(k) == [] then t.beside
    else if FullPath(k) in t.files then Some(t.files[FullPath(k)])
    else None
  }

  function DropFile(t: Tree, k: string): Tree {
    if Segments(k) == [] then t.(beside := None) else t.(files := t.files - {FullPath(k)})
  }

  /** Reading drops a blank file; the value is None when nothing is stored. */
  function GetTree(t: Tree, k: string): (Tree, Result<Option<seq<byte>>>) {
    if HasDotDot(k) then (t, Err)
    else match FileOf(t, k)
      case Some(Blank) => (DropFile(t, k), Ok(None))
      case Some(Entry(v)) => (t, Ok(Some(v)))
      case None =>
        if Segments(k) != [] && (FullPath(k) in t.dirs || Blocked(t, ExpandPath(k).0)) then (t, Err)
        else (t, Ok(None))
  }

  // ---- the backend ----

  class FileBackend {
    var tree: Tree

    constructor ()
      ensures tree == INIT
    {
      tree := INIT;
    }

    method PutInternal(k: string, v: seq<byte>, temp: string) returns (ok: bool)
      requires TempFresh(tree, k, temp)
      modifies this
      ensures (tree, ok) == old(PutTree(tree, k, v, temp))
    {
      if HasDotDot(k) {
        return false;
      }
      if Segments(k) == [] {
        tree := tree.(beside := Some(Entry(v)));
        return true;
      }
      var (dir, name) := ExpandPath(k);
      if Blocked(tree, dir) {
        return false;
      }
      tree := tree.(dirs := tree.dirs + Parents(dir));
      var tmp, full := dir + ["_" + temp], dir + [name];
      ghost var before := tree.files;
      tree := tree.(files := tree.files[tmp := Entry(v)]);
      assert full !in Parents(dir);
      if full in tree.dirs {
        return false;
      }
      tree := tree.(files := (tree.files - {tmp})[full := Entry(v)]);
      assert before[tmp := Entry(v)] - {tmp} == before;
      return true;
    }

    method GetInternal(k: string) returns (r: Result<Option<seq<byte>>>)
      modifies this
      ensures (tree, r) == old(GetTree(tree, k))
    {
      if HasDotDot(k) {
        return Err;
      }
      var file := FileOf(tree, k);
      if file == Some(Blank) {
        tree := DropFile(tree, k);
        return Ok(None);
      }
      if file.Some? {
        return Ok(Some(file.value.value));
      }
      if Segments(k) != [] && (FullPath(k) in tree.dirs || Blocked(tree, ExpandPath(k).0)) {
        return Err;
      }
      return Ok(None);
    }

    method DeleteInternal(k: string) returns (ok: bool)
      modifies this
      ensures (tree, ok) == old(DeleteTree(tree, k))
    {
      if k == "" {
        return true;
      }
      if HasDotDot(k) {
        return false;
      }
      if Segments(k) == [] {
        tree := tree.(beside := None);
      } else {
        var full := FullPath(k);
        if Blocked(tree, ExpandPath(k).0) || (full in tree.dirs && !IsEmpty(tree, full)) {
          return false;
        }
        tree := tree.(dirs := tree.dirs - {full}, files := tree.files - {full});
      }
      ok := CleanupLogicalPath(k);
    }

    /** From the deepest directory of the key upward, drop the directories that have become empty. */
    method CleanupLogicalPath(k: string) returns (ok: bool)
      modifies this
      ensures (tree, ok) == old(Prune(tree, Split(k), |Split(k)| - 1))
    {
      var nodes := Split(k);
      var i := |nodes| - 1;
      while i > 0
        invariant 0 <= i < |nodes|
        invariant Prune(tree, nodes, i) == old(Prune(tree, Split(k), |Split(k)| - 1))
      {
        var d := Clean(nodes[..i]);
        if d in tree.files {
          return false;
        }
        if d !in tree.dirs {
          return true;
        }
        if IsEmpty(tree, d) {
          tree := tree.(dirs := tree.dirs - {d});
        }
        i := i - 1;
      }
      return true;
    }
  }
}
