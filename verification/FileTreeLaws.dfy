/** The directory tree is a map from paths: after any run it is the one tree that the map determines. */
module FileTreeLaws {
  import opened Wrappers
  import opened Bytes
  import opened Strings
  import opened FileTree

  predicate ProperName(s: string) { s != "" && s != "." }

  ghost predicate Proper(p: Path) { p != [] && forall i :: 0 <= i < |p| ==> ProperName(p[i]) }

  /** A key in canonical form: no empty or "." segment. */
  ghost predicate Canonical(k: string) { Proper(Split(k)) }

  type PathMap = map<Path, seq<byte>>

  /** The directories above a path, the root included. */
  function Ancestors(p: Path): set<Path> { set i | 0 <= i < |p| :: p[..i] }

  /** The directories that some path of the map needs. */
  function Needed(m: PathMap): set<Path> { set p, d | p in m && d in Ancestors(p) :: d }

  function Sibling(p: Path, name: string): Path
    requires p != []
  {
    p[..|p| - 1] + [name]
  }

  /** Where a path's entry is kept. */
  function KeyFile(p: Path): Path
    requires p != []
  {
    Sibling(p, "_" + p[|p| - 1])
  }

  ghost predicate AllProper(m: PathMap) { forall p :: p in m ==> Proper(p) }

  // ---- clashes ----

  /** The file of an entry stands where the path needs a directory. */
  ghost predicate Under(m: PathMap, p: Path)
    requires AllProper(m)
  {
    exists q :: q in m && KeyFile(q) in Ancestors(p)
  }

  /** An entry needs a directory where the path has its file. */
  predicate Over(m: PathMap, p: Path)
    requires p != []
  {
    KeyFile(p) in Needed(m)
  }

  /** The path cannot be stored beside the entries: its file is a directory of one, or one's file is a directory of it. */
  ghost predicate Clashes(m: PathMap, p: Path)
    requires AllProper(m) && p != []
  {
    Under(m, p) || Over(m, p)
  }

  ghost predicate NoClash(m: PathMap)
    requires AllProper(m)
  {
    forall p :: p in m ==> !Over(m, p)
  }

  ghost predicate FilesMatch(files: map<Path, Content>, m: PathMap)
    requires AllProper(m)
  {
    && (forall p :: p in m ==> KeyFile(p) in files && files[KeyFile(p)] == Entry(m[p]))
    && (forall f :: f in files ==> exists p :: p in m && f == KeyFile(p))
  }

  /** The abstract store: entries by path, and the one value of the keys without a segment. */
  datatype Spec = Spec(entries: PathMap, beside: Option<seq<byte>>)

  const EMPTY := Spec(map[], None)

  function Written(v: Option<seq<byte>>): Option<Content> { if v.Some? then Some(Entry(v.value)) else None }

  /** The files are exactly the entries. */
  ghost predicate Holds(t: Tree, s: Spec) {
    AllProper(s.entries) && FilesMatch(t.files, s.entries) && t.beside == Written(s.beside)
  }

  /** The tree holds exactly the entries and exactly the directories they need, besides the root. */
  ghost predicate Represents(t: Tree, s: Spec) {
    Holds(t, s) && NoClash(s.entries) && t.dirs == {[]} + Needed(s.entries)
  }

  // ---- keys and paths ----

  lemma {:induction false} CleanId(segs: Path)
    requires forall i :: 0 <= i < |segs| ==> ProperName(segs[i])
    ensures Clean(segs) == segs
  {
    if segs != [] {
      CleanId(segs[1..]);
    }
  }

  lemma {:induction false} CleanIsProper(segs: Path)
    ensures forall i :: 0 <= i < |Clean(segs)| ==> ProperName(Clean(segs)[i])
  {
    if segs != [] {
      CleanIsProper(segs[1..]);
    }
  }

  function Kept(seg: string): Path { if ProperName(seg) then [seg] else [] }

  lemma CleanFirst(segs: Path)
    requires segs != []
    ensures Clean(segs) == Kept(segs[0]) + Clean(segs[1..])
  {
  }

  lemma Regroup(x: Path, y: Path, z: Path)
    ensures x + (y + z) == (x + y) + z
  {
  }

  lemma {:induction false} CleanSplit(a: Path, b: Path)
    ensures Clean(a + b) == Clean(a) + Clean(b)
  {
    if a == [] {
      assert a + b == b;
    } else {
      calc {
        Clean(a + b);
        { CleanFirst(a + b); assert (a + b)[0] == a[0] && (a + b)[1..] == a[1..] + b; }
        Kept(a[0]) + Clean(a[1..] + b);
        { CleanSplit(a[1..], b); }
        Kept(a[0]) + (Clean(a[1..]) + Clean(b));
        { Regroup(Kept(a[0]), Clean(a[1..]), Clean(b)); }
        (Kept(a[0]) + Clean(a[1..])) + Clean(b);
        { CleanFirst(a); }
        Clean(a) + Clean(b);
      }
    }
  }

  /** How many proper segments are among the first i. */
  function Count(nodes: Path, i: nat): nat
    requires i <= |nodes|
  {
    |Clean(nodes[..i])|
  }

  lemma CleanPrefix(nodes: Path, i: nat)
    requires i <= |nodes|
    ensures Count(nodes, i) <= |Clean(nodes)| && Clean(nodes[..i]) == Clean(nodes)[..Count(nodes, i)]
  {
    assert nodes == nodes[..i] + nodes[i..];
    CleanSplit(nodes[..i], nodes[i..]);
  }

  lemma CountStep(nodes: Path, i: nat)
    requires 0 < i <= |nodes|
    ensures Count(nodes, i) == Count(nodes, i - 1) + if ProperName(nodes[i - 1]) then 1 else 0
  {
    assert nodes[..i] == nodes[..i - 1] + [nodes[i - 1]];
    CleanSplit(nodes[..i - 1], [nodes[i - 1]]);
    assert [nodes[i - 1]][1..] == [] && Clean([]) == [];
  }

  lemma CountAll(nodes: Path)
    ensures Count(nodes, 0) == 0 && Count(nodes, |nodes|) == |Clean(nodes)|
  {
    assert nodes[..|nodes|] == nodes && nodes[..0] == [];
  }

  lemma KeyPaths(k: string)
    requires Segments(k) != []
    ensures k != "" && Proper(Segments(k)) && FullPath(k) == KeyFile(Segments(k))
    ensures Parents(ExpandPath(k).0) == Ancestors(Segments(k))
  {
    assert Split("") == [""] && [""][1..] == [] && Clean([""]) == Clean([]) == [];
    CleanIsProper(Split(k));
    var p := Segments(k);
    var dir := p[..|p| - 1];
    forall i | 0 <= i < |p| ensures dir[..i] == p[..i] {}
    assert Parents(dir) == Ancestors(p);
  }

  /** Distinct canonical keys are distinct paths. */
  lemma KeysAreApart(k: string, l: string)
    requires Canonical(k) && Canonical(l) && Segments(k) == Segments(l)
    ensures k == l
  {
    CleanId(Split(k));
    CleanId(Split(l));
    JoinSplit(k);
    JoinSplit(l);
  }

  /** Distinct paths are kept in distinct files. */
  lemma KeyFileInjective(p: Path, q: Path)
    requires p != [] && q != [] && KeyFile(p) == KeyFile(q)
    ensures p == q
  {
    assert |p| == |KeyFile(p)| == |q|;
    assert "_" + p[|p| - 1] == KeyFile(p)[|p| - 1] == "_" + q[|q| - 1];
    assert ("_" + p[|p| - 1])[1..] == p[|p| - 1] && ("_" + q[|q| - 1])[1..] == q[|q| - 1];
    assert p[..|p| - 1] == KeyFile(p)[..|p| - 1] == q[..|q| - 1];
    assert p == p[..|p| - 1] + [p[|p| - 1]] && q == q[..|q| - 1] + [q[|q| - 1]];
  }

  lemma KeyFileIsNoAncestor(p: Path)
    requires p != []
    ensures KeyFile(p) !in Ancestors(p) && KeyFile(p) != []
  {
    forall d | d in Ancestors(p) ensures |d| < |p| {}
  }

  lemma EntriesDoNotClash(m: PathMap)
    requires AllProper(m) && NoClash(m)
    ensures forall p :: p in m ==> !Clashes(m, p)
  {
    forall p, q | p in m && q in m ensures KeyFile(q) !in Ancestors(p) {
      assert Ancestors(p) <= Needed(m) && !Over(m, q);
    }
  }

  /** Names that do not start with an underscore never clash. */
  lemma PlainNamesApart(m: PathMap, p: Path)
    requires AllProper(m) && p != []
    requires forall q, i :: (q in m || q == p) && 0 <= i < |q| ==> q[i] == "" || q[i][0] != '_'
    ensures !Clashes(m, p)
  {
    forall q, r | (q in m || q == p) && (r in m || r == p) && q != [] ensures KeyFile(q) !in Ancestors(r) {
      var f := KeyFile(q);
      assert f[|f| - 1][0] == '_';
      forall d | d in Ancestors(r) ensures d != f {
        if |d| == |f| {
          assert d[|d| - 1] == r[|d| - 1];
        }
      }
    }
  }

  lemma BlockedIffUnder(t: Tree, m: PathMap, k: string)
    requires AllProper(m) && FilesMatch(t.files, m) && Segments(k) != []
    ensures Blocked(t, ExpandPath(k).0) <==> Under(m, Segments(k))
  {
    KeyPaths(k);
    var dir := ExpandPath(k).0;
    if Blocked(t, dir) {
      var i :| 0 <= i <= |dir| && dir[..i] in t.files;
      assert dir[..i] in Parents(dir);
    }
    if Under(m, Segments(k)) {
      var q :| q in m && KeyFile(q) in Ancestors(Segments(k));
      assert KeyFile(q) in Parents(dir);
      var i :| 0 <= i <= |dir| && KeyFile(q) == dir[..i];
    }
  }

  /** What stands in the way of a key. */
  lemma InTheWay(t: Tree, s: Spec, k: string)
    requires Represents(t, s) && Segments(k) != []
    ensures FullPath(k) == KeyFile(Segments(k))
    ensures Blocked(t, ExpandPath(k).0) <==> Under(s.entries, Segments(k))
    ensures FullPath(k) in t.dirs <==> Over(s.entries, Segments(k))
  {
    KeyPaths(k);
    BlockedIffUnder(t, s.entries, k);
    KeyFileIsNoAncestor(Segments(k));
  }

  // ---- put ----

  lemma PutFiles(files: map<Path, Content>, m: PathMap, p: Path, v: seq<byte>)
    requires AllProper(m) && Proper(p) && FilesMatch(files, m)
    ensures FilesMatch(files[KeyFile(p) := Entry(v)], m[p := v])
  {
    var files', m' := files[KeyFile(p) := Entry(v)], m[p := v];
    forall l | l in m' ensures KeyFile(l) in files' && files'[KeyFile(l)] == Entry(m'[l]) {
      if KeyFile(l) == KeyFile(p) {
        KeyFileInjective(l, p);
      }
    }
    forall f | f in files' ensures exists l :: l in m' && f == KeyFile(l) {
      if f == KeyFile(p) {
        assert p in m';
      } else {
        var l :| l in m && f == KeyFile(l);
        assert l in m';
      }
    }
  }

  lemma NeededPut(m: PathMap, p: Path, v: seq<byte>)
    ensures Needed(m[p := v]) == Needed(m) + Ancestors(p)
  {
  }

  lemma StillNoClash(m: PathMap, p: Path, v: seq<byte>)
    requires AllProper(m) && Proper(p) && NoClash(m) && !Clashes(m, p)
    ensures NoClash(m[p := v])
  {
    NeededPut(m, p, v);
    KeyFileIsNoAncestor(p);
  }

  lemma AddRepresents(t: Tree, s: Spec, p: Path, v: seq<byte>)
    requires Represents(t, s) && Proper(p) && !Clashes(s.entries, p)
    ensures Represents(t.(dirs := t.dirs + Ancestors(p), files := t.files[KeyFile(p) := Entry(v)]), s.(entries := s.entries[p := v]))
  {
    PutFiles(t.files, s.entries, p, v);
    NeededPut(s.entries, p, v);
    StillNoClash(s.entries, p, v);
  }

  lemma SiblingPath(p: Path, name: string)
    requires Proper(p) && ProperName(name)
    ensures Proper(Sibling(p, name)) && Ancestors(Sibling(p, name)) == Ancestors(p)
    ensures KeyFile(Sibling(p, name)) == Sibling(p, "_" + name)
  {
    var q := Sibling(p, name);
    forall i | 0 <= i < |p| ensures p[..i] == q[..i] {}
  }

  /**
   * The specification of a put: refused for "..", for a path under an entry, and for a path over one;
   * in the last case the value is left behind under the temporary name.
   */
  ghost function MapPut(s: Spec, k: string, v: seq<byte>, temp: string): (Spec, bool)
    requires AllProper(s.entries)
  {
    var p := Segments(k);
    if HasDotDot(k) then (s, false)
    else if p == [] then (s.(beside := Some(v)), true)
    else if Under(s.entries, p) then (s, false)
    else if Over(s.entries, p) then (s.(entries := s.entries[Sibling(p, temp) := v]), false)
    else (s.(entries := s.entries[p := v]), true)
  }

  lemma PutBeside(t: Tree, s: Spec, k: string, v: seq<byte>, temp: string)
    requires Represents(t, s) && Segments(k) != [] && TempFresh(t, k, temp) && !HasDotDot(k)
    requires !Under(s.entries, Segments(k)) && Over(s.entries, Segments(k))
    ensures !PutTree(t, k, v, temp).1
    ensures Represents(PutTree(t, k, v, temp).0, s.(entries := s.entries[Sibling(Segments(k), temp) := v]))
  {
    var p := Segments(k);
    var q := Sibling(p, temp);
    InTheWay(t, s, k);
    KeyPaths(k);
    SiblingPath(p, temp);
    assert !Clashes(s.entries, q) by {
      assert KeyFile(q) == ExpandPath(k).0 + ["_" + temp];
    }
    AddRepresents(t, s, q, v);
  }

  lemma PutPlain(t: Tree, s: Spec, k: string, v: seq<byte>, temp: string)
    requires Represents(t, s) && Segments(k) != [] && !HasDotDot(k) && !Clashes(s.entries, Segments(k))
    ensures PutTree(t, k, v, temp).1
    ensures Represents(PutTree(t, k, v, temp).0, s.(entries := s.entries[Segments(k) := v]))
  {
    InTheWay(t, s, k);
    KeyPaths(k);
    AddRepresents(t, s, Segments(k), v);
  }

  lemma PutRepresents(t: Tree, s: Spec, k: string, v: seq<byte>, temp: string)
    requires Represents(t, s) && TempFresh(t, k, temp)
    ensures PutTree(t, k, v, temp).1 == MapPut(s, k, v, temp).1
    ensures Represents(PutTree(t, k, v, temp).0, MapPut(s, k, v, temp).0)
  {
    if !HasDotDot(k) && Segments(k) != [] {
      if Under(s.entries, Segments(k)) {
        InTheWay(t, s, k);
      } else if Over(s.entries, Segments(k)) {
        PutBeside(t, s, k, v, temp);
      } else {
        PutPlain(t, s, k, v, temp);
      }
    }
  }

  // ---- delete ----

  lemma DeleteFiles(files: map<Path, Content>, m: PathMap, p: Path)
    requires AllProper(m) && Proper(p) && FilesMatch(files, m)
    ensures FilesMatch(files - {KeyFile(p)}, m - {p})
  {
    var files', m' := files - {KeyFile(p)}, m - {p};
    forall l | l in m' ensures KeyFile(l) in files' && files'[KeyFile(l)] == Entry(m'[l]) {
      if KeyFile(l) == KeyFile(p) {
        KeyFileInjective(l, p);
      }
    }
    forall f | f in files' ensures exists l :: l in m' && f == KeyFile(l) {
      var l :| l in m && f == KeyFile(l);
      assert l in m';
    }
  }

  lemma NeededDelete(m: PathMap, p: Path)
    ensures Needed(m) == Needed(m - {p}) + if p in m then Ancestors(p) else {}
  {
  }

  /** A needed directory has a needed child or an entry's file in it. */
  lemma NeededHasChild(m: PathMap, d: Path)
    requires AllProper(m) && d in Needed(m)
    ensures exists x :: ChildOf(x, d) && (x in Needed(m) || exists p :: p in m && x == KeyFile(p))
  {
    var p :| p in m && d in Ancestors(p);
    if |p| == |d| + 1 {
      assert ChildOf(KeyFile(p), d);
    } else {
      var x := p[..|d| + 1];
      assert x in Ancestors(p) && ChildOf(x, d);
    }
  }

  lemma NeededIsNotEmpty(t: Tree, m: PathMap, d: Path)
    requires AllProper(m) && FilesMatch(t.files, m) && Needed(m) <= t.dirs && d in Needed(m)
    ensures !IsEmpty(t, d)
  {
    NeededHasChild(m, d);
  }

  /** Whatever holds a needed directory or an entry's file is needed. */
  lemma ParentIsNeeded(m: PathMap, x: Path, d: Path)
    requires AllProper(m) && ChildOf(x, d)
    requires x in Needed(m) || exists p :: p in m && x == KeyFile(p)
    ensures d in Needed(m)
  {
    if x in Needed(m) {
      var p :| p in m && x in Ancestors(p);
      assert d == p[..|d|] && d in Ancestors(p);
    } else {
      var p :| p in m && x == KeyFile(p);
      assert d == p[..|d|] && d in Ancestors(p);
    }
  }

  /** The first h directories on a path, counted from the root. */
  function Upto(p: Path, h: nat): set<Path> { set x | 0 <= x < h && x <= |p| :: p[..x] }

  lemma UptoStep(p: Path, c: nat)
    requires c <= |p|
    ensures Upto(p, c + 1) == Upto(p, c) + {p[..c]} && p[..c] !in Upto(p, c)
  {
    forall x | 0 <= x <= |p| ensures |p[..x]| == x {}
  }

  /** The directories above a needed one are needed. */
  lemma UptoIsNeeded(m: PathMap, p: Path, c: nat)
    requires c <= |p| && p[..c] in Needed(m)
    ensures Upto(p, c + 1) <= Needed(m)
  {
    var q :| q in m && p[..c] in Ancestors(q);
    var y :| 0 <= y < |q| && p[..c] == q[..y];
    assert |p[..c]| == c && |q[..y]| == y;
    forall x | 0 <= x <= c ensures p[..x] in Needed(m) {
      assert p[..x] == p[..c][..x] && q[..x] == q[..y][..x];
      assert q[..x] in Ancestors(q);
    }
  }

  /** A directory is empty exactly when no entry needs it, once everything deeper on the path is gone. */
  lemma EmptyIffUnneeded(t: Tree, m: PathMap, p: Path, c: nat)
    requires AllProper(m) && FilesMatch(t.files, m) && c <= |p|
    requires t.dirs == Needed(m) + Upto(p, c + 1)
    ensures IsEmpty(t, p[..c]) <==> p[..c] !in Needed(m)
  {
    var d := p[..c];
    if d in Needed(m) {
      NeededIsNotEmpty(t, m, d);
    } else {
      forall x | x in t.dirs ensures !ChildOf(x, d) {
        if ChildOf(x, d) && x in Needed(m) { ParentIsNeeded(m, x, d); }
      }
      forall x | x in t.files ensures !ChildOf(x, d) {
        if ChildOf(x, d) { ParentIsNeeded(m, x, d); }
      }
    }
  }

  lemma {:induction false} PruneKeepsFiles(t: Tree, nodes: Path, i: nat)
    requires i <= |nodes|
    ensures Prune(t, nodes, i).0.files == t.files && Prune(t, nodes, i).0.beside == t.beside
    decreases i
  {
    if i > 0 {
      var d := Clean(nodes[..i]);
      PruneKeepsFiles(if IsEmpty(t, d) then t.(dirs := t.dirs - {d}) else t, nodes, i - 1);
    }
  }

  lemma AncestorIsNoFile(files: map<Path, Content>, m: PathMap, p: Path, c: nat)
    requires AllProper(m) && FilesMatch(files, m) && c < |p| && !Under(m, p)
    ensures p[..c] !in files
  {
    assert p[..c] in Ancestors(p);
  }

  /** With exactly the needed directories the loop changes nothing; it fails only on finding a file under the key's own name. */
  lemma {:induction false} PruneSettled(t: Tree, m: PathMap, nodes: Path, i: nat)
    requires AllProper(m) && NoClash(m) && FilesMatch(t.files, m) && t.dirs == Needed(m)
    requires i <= |nodes| && !Under(m, Clean(nodes))
    ensures Prune(t, nodes, i) == (t, !(i > 0 && Count(nodes, i) == |Clean(nodes)| && Clean(nodes) in t.files))
    decreases i
  {
    if i > 0 {
      var p, c := Clean(nodes), Count(nodes, i);
      CleanPrefix(nodes, i);
      assert p[..|p|] == p;
      if c < |p| {
        AncestorIsNoFile(t.files, m, p, c);
      }
      if p[..c] in Needed(m) {
        NeededIsNotEmpty(t, m, p[..c]);
        EntryFilesAreNoDirs(t.files, m, p[..c]);
        CountStep(nodes, i);
        PruneSettled(t, m, nodes, i - 1);
      }
    }
  }

  lemma EntryFilesAreNoDirs(files: map<Path, Content>, m: PathMap, d: Path)
    requires AllProper(m) && NoClash(m) && FilesMatch(files, m) && d in Needed(m)
    ensures d !in files
  {
    forall f | f in files ensures f != d {
      var q :| q in m && f == KeyFile(q);
      assert !Over(m, q);
    }
  }

  /** How many directories of the path survive the loop with counter i: it stops at the last segment that is not proper. */
  function StopAt(nodes: Path, i: nat): nat
    requires i <= |nodes|
  {
    if i == 0 then 1 else if !ProperName(nodes[i - 1]) then Count(nodes, i) else StopAt(nodes, i - 1)
  }

  lemma {:induction false} StopBound(nodes: Path, i: nat)
    requires i <= |nodes|
    ensures StopAt(nodes, i) <= Count(nodes, i) + 1
  {
    if i > 0 {
      CountStep(nodes, i);
      if ProperName(nodes[i - 1]) {
        StopBound(nodes, i - 1);
      }
    }
  }

  ghost predicate OnPath(t: Tree, m: PathMap, p: Path, h: nat) {
    AllProper(m) && NoClash(m) && FilesMatch(t.files, m) && !Under(m, p) && t.dirs == Needed(m) + Upto(p, h)
  }

  /** The loop on a dead path: it removes what nobody needs, until a segment that is not proper makes it look for a directory twice. */
  lemma {:induction false} PruneAlive(t: Tree, m: PathMap, nodes: Path, i: nat)
    requires i <= |nodes| && Count(nodes, i) < |Clean(nodes)| && OnPath(t, m, Clean(nodes), Count(nodes, i) + 1)
    ensures Prune(t, nodes, i).1 && Prune(t, nodes, i).0.dirs == Needed(m) + Upto(Clean(nodes), StopAt(nodes, i))
    decreases i
  {
    var p, c := Clean(nodes), Count(nodes, i);
    CountAll(nodes);
    if i > 0 {
      var d := p[..c];
      CleanPrefix(nodes, i);
      CountStep(nodes, i);
      AncestorIsNoFile(t.files, m, p, c);
      UptoStep(p, c);
      EmptyIffUnneeded(t, m, p, c);
      if d in Needed(m) {
        StopBound(nodes, i);
        UptoIsNeeded(m, p, c);
        assert Upto(p, StopAt(nodes, i)) <= Upto(p, c + 1);
        assert t.dirs == Needed(m);
        PruneSettled(t, m, nodes, i - 1);
      } else {
        PruneRemoves(t, m, nodes, i);
      }
    }
  }

  lemma {:induction false} PruneRemoves(t: Tree, m: PathMap, nodes: Path, i: nat)
    requires 0 < i <= |nodes| && Count(nodes, i) < |Clean(nodes)| && OnPath(t, m, Clean(nodes), Count(nodes, i) + 1)
    requires var d := Clean(nodes)[..Count(nodes, i)];
             Clean(nodes[..i]) == d && d !in t.files && d in t.dirs && IsEmpty(t, d) && d !in Needed(m)
    ensures Prune(t, nodes, i).1 && Prune(t, nodes, i).0.dirs == Needed(m) + Upto(Clean(nodes), StopAt(nodes, i))
    decreases i, 0
  {
    var p, c := Clean(nodes), Count(nodes, i);
    var t' := t.(dirs := t.dirs - {p[..c]});
    UptoStep(p, c);
    CountStep(nodes, i);
    assert t'.dirs == Needed(m) + Upto(p, c);
    if ProperName(nodes[i - 1]) {
      PruneAlive(t', m, nodes, i - 1);
    } else if i > 1 {
      CleanPrefix(nodes, i - 1);
      assert Clean(nodes[..i - 1]) == p[..c];
    }
  }

  /** How many directories of the key's path survive the deletion of its entry, if nobody else needs them. */
  function Stop(k: string): nat { if |Split(k)| == 1 then 1 else StopAt(Split(k), |Split(k)|) }

  /** The loop begins at the root. */
  predicate RootHit(k: string) { |Split(k)| > 1 && Clean(Split(k)[..|Split(k)| - 1]) == [] }

  function Left(k: string, present: bool): nat { if present then Stop(k) else if RootHit(k) then 0 else 1 }

  /** The key ends in a slash or a dot, and the file of another entry has the path's name. */
  ghost predicate Trips(m: PathMap, k: string)
    requires AllProper(m)
  {
    |Split(k)| > 1 && !ProperName(Split(k)[|Split(k)| - 1]) && exists q :: q in m && KeyFile(q) == Segments(k)
  }

  lemma PresentLeaves(t: Tree, m: PathMap, k: string)
    requires Segments(k) != [] && OnPath(t, m, Segments(k), |Segments(k)|)
    ensures var nodes := Split(k);
            var r := Prune(t, nodes, |nodes| - 1);
            r.0.dirs == Needed(m) + Upto(Segments(k), Stop(k)) && r.1 == !Trips(m, k)
  {
    var nodes, p := Split(k), Segments(k);
    var n := |nodes|;
    CountAll(nodes);
    CountStep(nodes, n);
    if n > 1 {
      if ProperName(nodes[n - 1]) {
        PruneAlive(t, m, nodes, n - 1);
      } else {
        TrailingLeaves(t, m, nodes);
        assert p in t.files <==> exists q :: q in m && KeyFile(q) == p;
      }
    } else {
      assert Count(nodes, 1) == |p| && Count(nodes, 0) == 0;
    }
  }

  /** A last segment that is not proper: the loop starts at a directory with the whole path. */
  lemma TrailingLeaves(t: Tree, m: PathMap, nodes: Path)
    requires var n := |nodes|; n > 1 && Count(nodes, n - 1) == |Clean(nodes)| > 0
    requires OnPath(t, m, Clean(nodes), |Clean(nodes)|)
    ensures Prune(t, nodes, |nodes| - 1) == (t, Clean(nodes) !in t.files)
  {
    var n, p := |nodes|, Clean(nodes);
    CleanPrefix(nodes, n - 1);
    assert p[..|p|] == p;
    UptoStep(p, |p|);
    if p in Needed(m) {
      UptoIsNeeded(m, p, |p|);
      assert Upto(p, |p|) <= Upto(p, |p| + 1);
      assert t.dirs == Needed(m);
      PruneSettled(t, m, nodes, n - 1);
    }
  }

  lemma AbsentLeaves(t: Tree, m: PathMap, k: string)
    requires AllProper(m) && NoClash(m) && FilesMatch(t.files, m) && !Under(m, Segments(k)) && t.dirs == {[]} + Needed(m)
    ensures var nodes := Split(k);
            var r := Prune(t, nodes, |nodes| - 1);
            r.0.dirs == Needed(m) + Upto(Segments(k), Left(k, false)) && r.1 == !Trips(m, k)
  {
    if m == map[] {
      AbsentFromEmpty(t, k);
    } else {
      AbsentFromSome(t, m, k);
    }
  }

  lemma RootOnly(p: Path)
    ensures Upto(p, 1) == {[]} && Upto(p, 0) == {}
  {
    assert p[..0] == [];
  }

  lemma AbsentFromEmpty(t: Tree, k: string)
    requires t.files == map[] && t.dirs == {[]}
    ensures var r := Prune(t, Split(k), |Split(k)| - 1);
            r.1 && r.0.dirs == Upto(Segments(k), Left(k, false))
  {
    RootOnly(Segments(k));
    EmptyLeaves(t, Split(k), |Split(k)| - 1);
  }

  lemma AbsentFromSome(t: Tree, m: PathMap, k: string)
    requires AllProper(m) && NoClash(m) && FilesMatch(t.files, m) && !Under(m, Segments(k)) && t.dirs == {[]} + Needed(m) && m != map[]
    ensures var r := Prune(t, Split(k), |Split(k)| - 1);
            r.0.dirs == Needed(m) + Upto(Segments(k), Left(k, false)) && r.1 == !Trips(m, k)
  {
    var nodes, p := Split(k), Segments(k);
    var n := |nodes|;
    RootOnly(p);
    RootIsNeeded(m);
    assert t.dirs == Needed(m);
    PruneSettled(t, m, nodes, n - 1);
    FileOfPath(t.files, m, p);
    CountAll(nodes);
    CountStep(nodes, n);
  }

  lemma FileOfPath(files: map<Path, Content>, m: PathMap, p: Path)
    requires AllProper(m) && FilesMatch(files, m)
    ensures p in files <==> exists q :: q in m && KeyFile(q) == p
  {
  }

  lemma RootIsNeeded(m: PathMap)
    requires AllProper(m) && m != map[]
    ensures [] in Needed(m)
  {
    var q :| q in m;
    assert q[..0] == [] && [] in Ancestors(q);
  }

  lemma EmptyLeaves(t: Tree, nodes: Path, i: nat)
    requires i < |nodes| && t.files == map[] && t.dirs == {[]}
    ensures Prune(t, nodes, i).1 && Prune(t, nodes, i).0.dirs == if i > 0 && Clean(nodes[..i]) == [] then {} else {[]}
  {
    if i > 0 && Clean(nodes[..i]) == [] {
      assert IsEmpty(t, []);
      var t' := t.(dirs := {});
      assert t.dirs - {[]} == {};
      assert Prune(t', nodes, i - 1) == (t', true);
    }
  }

  // ---- what a delete leaves ----

  ghost function MapDelete(s: Spec, k: string): (Spec, bool)
    requires AllProper(s.entries)
  {
    var p := Segments(k);
    if k == "" then (s, true)
    else if HasDotDot(k) then (s, false)
    else if p == [] then (s.(beside := None), true)
    else if Clashes(s.entries, p) then (s, false)
    else (s.(entries := s.entries - {p}), !Trips(s.entries - {p}, k))
  }

  /** The delete touches the tree. */
  ghost predicate Deletes(s: Spec, k: string)
    requires AllProper(s.entries)
  {
    k != "" && !HasDotDot(k) && (Segments(k) == [] || !Clashes(s.entries, Segments(k)))
  }

  lemma FewerDoNotClash(m: PathMap, p: Path)
    requires AllProper(m) && NoClash(m) && Proper(p) && !Under(m, p)
    ensures AllProper(m - {p}) && NoClash(m - {p}) && !Under(m - {p}, p)
  {
    NeededDelete(m, p);
  }

  lemma DeleteStarts(t: Tree, s: Spec, k: string)
    requires Represents(t, s) && Segments(k) != [] && !HasDotDot(k) && !Clashes(s.entries, Segments(k))
    ensures DeleteTree(t, k) == Prune(t.(files := t.files - {KeyFile(Segments(k))}), Split(k), |Split(k)| - 1)
  {
    InTheWay(t, s, k);
    KeyPaths(k);
    DeleteUnblocked(t, k);
  }

  lemma DeleteUnblocked(t: Tree, k: string)
    requires k != "" && !HasDotDot(k) && Segments(k) != [] && !Blocked(t, ExpandPath(k).0) && FullPath(k) !in t.dirs
    ensures DeleteTree(t, k) == Prune(t.(files := t.files - {FullPath(k)}), Split(k), |Split(k)| - 1)
  {
    assert t.dirs - {FullPath(k)} == t.dirs;
    assert t.(dirs := t.dirs - {FullPath(k)}, files := t.files - {FullPath(k)}) == t.(files := t.files - {FullPath(k)});
  }

  lemma PathDeleteLeaves(t: Tree, s: Spec, k: string)
    requires Represents(t, s) && Segments(k) != [] && !HasDotDot(k) && !Clashes(s.entries, Segments(k))
    ensures var p := Segments(k);
            var t' := t.(files := t.files - {KeyFile(p)});
            var r := Prune(t', Split(k), |Split(k)| - 1);
            && r.0.dirs == Needed(s.entries - {p}) + Upto(p, Left(k, p in s.entries))
            && r.1 == !Trips(s.entries - {p}, k)
  {
    var p := Segments(k);
    var m, t' := s.entries - {p}, t.(files := t.files - {KeyFile(p)});
    KeyPaths(k);
    DeleteFiles(t.files, s.entries, p);
    FewerDoNotClash(s.entries, p);
    DirsAfterDelete(s.entries, p);
    if p in s.entries {
      PresentLeaves(t', m, k);
    } else {
      AbsentLeaves(t', m, k);
    }
  }

  lemma DirsAfterDelete(m: PathMap, p: Path)
    requires Proper(p)
    ensures p in m ==> {[]} + Needed(m) == Needed(m - {p}) + Upto(p, |p|)
    ensures p !in m ==> m - {p} == m
  {
    NeededDelete(m, p);
    assert Upto(p, |p|) == Ancestors(p);
    assert [] in Ancestors(p) by { assert p[..0] == []; }
  }

  /** Exactly what a delete of any key leaves of a tree that was exact: the entries without the key's, what they need, and the first directories of the key's path. */
  lemma DeleteLeaves(t: Tree, s: Spec, k: string)
    requires Represents(t, s) && Deletes(s, k)
    ensures var r := DeleteTree(t, k);
            var s' := MapDelete(s, k).0;
            && Holds(r.0, s') && NoClash(s'.entries) && r.1 == MapDelete(s, k).1
            && r.0.dirs == Needed(s'.entries) + Upto(Segments(k), Left(k, Segments(k) in s.entries))
  {
    var p, n := Segments(k), |Split(k)|;
    if p == [] {
      var t' := t.(beside := None);
      assert [] !in s.entries;
      PruneKeepsFiles(t', Split(k), n - 1);
      AbsentLeaves(t', s.entries, k);
      NoEntryAtRoot(s.entries, k);
    } else {
      var t' := t.(files := t.files - {KeyFile(p)});
      DeleteStarts(t, s, k);
      KeyPaths(k);
      PathDeleteLeaves(t, s, k);
      PruneKeepsFiles(t', Split(k), n - 1);
      DeleteFiles(t.files, s.entries, p);
      FewerDoNotClash(s.entries, p);
    }
  }

  lemma NoEntryAtRoot(m: PathMap, k: string)
    requires AllProper(m) && Segments(k) == []
    ensures !Trips(m, k)
  {
    forall q | q in m ensures KeyFile(q) != [] {
      KeyFileIsNoAncestor(q);
    }
  }

  /**
   * A delete keeps the tree exact: nothing of the path is left that is not needed, and the root is not lost.
   */
  ghost predicate Harmless(s: Spec, k: string)
    requires AllProper(s.entries)
  {
    var m, h := MapDelete(s, k).0.entries, Left(k, Segments(k) in s.entries);
    h == 1 || (h == 0 && m != map[]) || (h > 1 && h - 1 <= |Segments(k)| && Segments(k)[..h - 1] in Needed(m))
  }

  /** The condition is exact. */
  lemma DeleteKeepsExact(t: Tree, s: Spec, k: string)
    requires Represents(t, s) && Deletes(s, k)
    ensures Represents(DeleteTree(t, k).0, MapDelete(s, k).0) <==> Harmless(s, k)
  {
    DeleteLeaves(t, s, k);
    LeftBound(k, Segments(k) in s.entries);
    RepresentsIff(DeleteTree(t, k).0, MapDelete(s, k).0, Segments(k), Left(k, Segments(k) in s.entries));
  }

  lemma RepresentsIff(t: Tree, s: Spec, p: Path, h: nat)
    requires Holds(t, s) && NoClash(s.entries) && h <= |p| + 1 && t.dirs == Needed(s.entries) + Upto(p, h)
    ensures Represents(t, s) <==> h == 1 || (h == 0 && s.entries != map[]) || (h > 1 && p[..h - 1] in Needed(s.entries))
  {
    ExactIff(s.entries, p, h);
  }

  lemma LeftBound(k: string, present: bool)
    ensures present && Segments(k) != [] ==> Left(k, present) <= |Segments(k)|
    ensures !present ==> Left(k, present) <= 1
  {
    var nodes := Split(k);
    StopBound(nodes, |nodes|);
    CountAll(nodes);
    CountStep(nodes, |nodes|);
    if |nodes| > 1 && ProperName(nodes[|nodes| - 1]) {
      StopBound(nodes, |nodes| - 1);
    }
  }

  lemma ExactIff(m: PathMap, p: Path, h: nat)
    requires AllProper(m) && h <= |p| + 1
    ensures Needed(m) + Upto(p, h) == {[]} + Needed(m) <==>
            h == 1 || (h == 0 && m != map[]) || (h > 1 && p[..h - 1] in Needed(m))
  {
    assert Upto(p, 1) == {[]} by { assert p[..0] == []; }
    if h == 0 {
      assert Upto(p, 0) == {};
      if m == map[] {
        assert Needed(m) == {} && [] in {[]} + Needed(m) && [] !in Needed(m) + Upto(p, 0);
      } else {
        RootIsNeeded(m);
      }
    } else if h > 1 {
      UptoStep(p, h - 1);
      assert [] in Upto(p, h) by { assert p[..0] == []; }
      if p[..h - 1] in Needed(m) {
        UptoIsNeeded(m, p, h - 1);
      } else {
        assert p[..h - 1] != [] && p[..h - 1] in Upto(p, h);
      }
    }
  }

  /** A delete of a canonical key is harmless. */
  lemma CanonicalIsHarmless(s: Spec, k: string)
    requires AllProper(s.entries) && Canonical(k)
    ensures Harmless(s, k)
  {
    var nodes := Split(k);
    NoGapStops(nodes, |nodes|);
    if |nodes| > 1 {
      CleanId(nodes[..|nodes| - 1]);
    }
  }

  lemma {:induction false} NoGapStops(nodes: Path, i: nat)
    requires i <= |nodes| && forall j :: 0 <= j < i ==> ProperName(nodes[j])
    ensures StopAt(nodes, i) == 1
  {
    if i > 0 {
      NoGapStops(nodes, i - 1);
    }
  }

  /** A delete of a path that clashes fails and changes nothing; the path is not in the map. */
  lemma ClashingDelete(t: Tree, s: Spec, k: string)
    requires Represents(t, s) && Segments(k) != [] && Clashes(s.entries, Segments(k))
    ensures DeleteTree(t, k) == (t, false) && Segments(k) !in s.entries
  {
    var p := Segments(k);
    InTheWay(t, s, k);
    KeyPaths(k);
    if Over(s.entries, p) {
      NeededIsNotEmpty(t, s.entries, KeyFile(p));
    }
    EntriesDoNotClash(s.entries);
  }

  lemma DeleteRepresents(t: Tree, s: Spec, k: string)
    requires Represents(t, s) && Harmless(s, k)
    ensures DeleteTree(t, k).1 == MapDelete(s, k).1 && Represents(DeleteTree(t, k).0, MapDelete(s, k).0)
  {
    if Deletes(s, k) {
      DeleteLeaves(t, s, k);
      DeleteKeepsExact(t, s, k);
    } else if k != "" && !HasDotDot(k) {
      ClashingDelete(t, s, k);
    }
  }

  // ---- get ----

  /** Every read: an error for ".." or a clash, else what is stored; the tree is left alone. */
  ghost function MapGet(s: Spec, k: string): Result<Option<seq<byte>>>
    requires AllProper(s.entries)
  {
    var p := Segments(k);
    if HasDotDot(k) then Err
    else if p == [] then Ok(s.beside)
    else if Clashes(s.entries, p) then Err
    else if p in s.entries then Ok(Some(s.entries[p]))
    else Ok(None)
  }

  lemma GetReads(t: Tree, s: Spec, k: string)
    requires Represents(t, s)
    ensures GetTree(t, k) == (t, MapGet(s, k))
  {
    var p := Segments(k);
    if p != [] {
      InTheWay(t, s, k);
      FileIsEntry(t, s, k);
      EntriesDoNotClash(s.entries);
    }
  }

  lemma FileIsEntry(t: Tree, s: Spec, k: string)
    requires Holds(t, s) && Segments(k) != []
    ensures FileOf(t, k) == if Segments(k) in s.entries then Some(Entry(s.entries[Segments(k)])) else None
  {
    var p := Segments(k);
    KeyPaths(k);
    if KeyFile(p) in t.files {
      var q :| q in s.entries && KeyFile(p) == KeyFile(q);
      KeyFileInjective(p, q);
    }
  }

  // ---- runs ----

  datatype Op = Put(k: string, v: seq<byte>, temp: string) | Delete(k: string)

  function TreeStep(t: Tree, op: Op): (Tree, bool) {
    match op
    case Put(k, v, temp) => PutTree(t, k, v, temp)
    case Delete(k) => DeleteTree(t, k)
  }

  function TreeAfter(ops: seq<Op>): Tree {
    if ops == [] then INIT else TreeStep(TreeAfter(ops[..|ops| - 1]), ops[|ops| - 1]).0
  }

  /** The specification: entries by path, and whether the operation succeeds. */
  ghost function MapStep(s: Spec, op: Op): (Spec, bool)
    requires AllProper(s.entries)
  {
    match op
    case Put(k, v, temp) => MapPut(s, k, v, temp)
    case Delete(k) => MapDelete(s, k)
  }

  /** A step of a run: a temporary name is fresh when it is picked, and a delete is harmless. */
  ghost predicate StepOk(t: Tree, s: Spec, op: Op)
    requires AllProper(s.entries)
  {
    (op.Put? ==> TempFresh(t, op.k, op.temp)) && (op.Delete? ==> Harmless(s, op.k))
  }

  lemma StepRepresents(t: Tree, s: Spec, op: Op)
    requires Represents(t, s) && StepOk(t, s, op)
    ensures TreeStep(t, op).1 == MapStep(s, op).1 && Represents(TreeStep(t, op).0, MapStep(s, op).0)
  {
    match op
    case Put(k, v, temp) => PutRepresents(t, s, k, v, temp);
    case Delete(k) => DeleteRepresents(t, s, k);
  }

  /** The specification's state after a run. */
  ghost function MapAfter(ops: seq<Op>): Spec {
    if ops == [] then EMPTY
    else
      var s := MapAfter(ops[..|ops| - 1]);
      if AllProper(s.entries) then MapStep(s, ops[|ops| - 1]).0 else s
  }

  ghost predicate Run(ops: seq<Op>) {
    forall i :: 0 <= i < |ops| ==>
      AllProper(MapAfter(ops[..i]).entries) && StepOk(TreeAfter(ops[..i]), MapAfter(ops[..i]), ops[i])
  }

  lemma RunFront(ops: seq<Op>)
    requires Run(ops) && ops != []
    ensures var n := |ops| - 1; Run(ops[..n]) && AllProper(MapAfter(ops[..n]).entries) && StepOk(TreeAfter(ops[..n]), MapAfter(ops[..n]), ops[n])
  {
    var front := ops[..|ops| - 1];
    forall i | 0 <= i < |front| ensures front[..i] == ops[..i] && front[i] == ops[i] {}
  }

  /** After any run of puts of any keys and harmless deletes the tree is the one the map determines. */
  lemma {:induction false} TreeRefinesMap(ops: seq<Op>)
    requires Run(ops)
    ensures Represents(TreeAfter(ops), MapAfter(ops))
  {
    if ops == [] {
      assert Needed(map[]) == {};
    } else {
      var n := |ops| - 1;
      RunFront(ops);
      TreeRefinesMap(ops[..n]);
      StepRepresents(TreeAfter(ops[..n]), MapAfter(ops[..n]), ops[n]);
    }
  }

  /** The next operation of a run keeps the tree exact unless it is a delete that is not harmless. */
  lemma ExactlyHarmless(ops: seq<Op>, k: string)
    requires Run(ops)
    ensures var s := MapAfter(ops);
            && AllProper(s.entries)
            && (Deletes(s, k) ==> (Represents(DeleteTree(TreeAfter(ops), k).0, MapDelete(s, k).0) <==> Harmless(s, k)))
  {
    TreeRefinesMap(ops);
    if Deletes(MapAfter(ops), k) {
      DeleteKeepsExact(TreeAfter(ops), MapAfter(ops), k);
    }
  }

  /** Every read after a run returns what is stored, or the error of a clash, and leaves the tree alone. */
  lemma GetAfterRun(ops: seq<Op>, k: string)
    requires Run(ops)
    ensures AllProper(MapAfter(ops).entries) && GetTree(TreeAfter(ops), k) == (TreeAfter(ops), MapGet(MapAfter(ops), k))
  {
    TreeRefinesMap(ops);
    GetReads(TreeAfter(ops), MapAfter(ops), k);
  }

  /** A put after a run succeeds exactly without ".." and without a clash. */
  lemma PutAfterRun(ops: seq<Op>, k: string, v: seq<byte>, temp: string)
    requires Run(ops) && TempFresh(TreeAfter(ops), k, temp)
    ensures var s := MapAfter(ops);
            AllProper(s.entries) &&
            (PutTree(TreeAfter(ops), k, v, temp).1 <==> !HasDotDot(k) && (Segments(k) == [] || !Clashes(s.entries, Segments(k))))
  {
    TreeRefinesMap(ops);
    PutRepresents(TreeAfter(ops), MapAfter(ops), k, v, temp);
  }

  /** A delete after a run succeeds exactly without ".." and without a clash, unless it trips over a file after a trailing slash. */
  lemma DeleteAfterRun(ops: seq<Op>, k: string)
    requires Run(ops)
    ensures var s := MapAfter(ops);
            AllProper(s.entries) &&
            (DeleteTree(TreeAfter(ops), k).1 <==>
             k == "" || (Deletes(s, k) && !Trips(s.entries - {Segments(k)}, k)))
  {
    TreeRefinesMap(ops);
    var t, s := TreeAfter(ops), MapAfter(ops);
    if Deletes(s, k) {
      DeleteLeaves(t, s, k);
      if Segments(k) == [] {
        NoEntryAtRoot(s.entries - {[]}, k);
      }
    } else if k != "" && !HasDotDot(k) {
      ClashingDelete(t, s, k);
    }
  }

  /** What clashes with the path is only the entry p. */
  ghost predicate OnlyClash(m: PathMap, p: Path, q: Path)
    requires AllProper(m) && q != []
  {
    Clashes(m, q) && !Clashes(m - {p}, q)
  }

  lemma GetAfterDelete(s: Spec, k: string, l: string)
    requires AllProper(s.entries) && NoClash(s.entries) && Segments(k) != Segments(l) && Segments(k) != [] && Segments(l) != [] && !HasDotDot(k)
    ensures MapGet(MapDelete(s, k).0, l) ==
            if !HasDotDot(l) && !Clashes(s.entries, Segments(k)) && OnlyClash(s.entries, Segments(k), Segments(l)) then Ok(None)
            else MapGet(s, l)
  {
    KeyPaths(k);
    EntriesDoNotClash(s.entries);
    FewerClash(s.entries, Segments(k), Segments(l));
  }

  /**
   * What a delete does to every read of another path: nothing, but that a path which clashed with the
   * deleted entry alone is no error any more.
   */
  lemma DeleteSeenElsewhere(ops: seq<Op>, k: string, l: string)
    requires Run(ops + [Delete(k)]) && Segments(k) != Segments(l) && Segments(k) != [] && Segments(l) != [] && !HasDotDot(k)
    ensures AllProper(MapAfter(ops).entries)
    ensures var before, after := GetTree(TreeAfter(ops), l).1, GetTree(TreeAfter(ops + [Delete(k)]), l).1;
            var m := MapAfter(ops).entries;
            after == if !HasDotDot(l) && !Clashes(m, Segments(k)) && OnlyClash(m, Segments(k), Segments(l)) then Ok(None) else before
  {
    BeforeAndAfter(ops, Delete(k));
    GetReads(TreeAfter(ops), MapAfter(ops), l);
    GetReads(TreeAfter(ops + [Delete(k)]), MapAfter(ops + [Delete(k)]), l);
    GetAfterDelete(MapAfter(ops), k, l);
  }

  lemma BeforeAndAfter(ops: seq<Op>, op: Op)
    requires Run(ops + [op])
    ensures Represents(TreeAfter(ops), MapAfter(ops)) && StepOk(TreeAfter(ops), MapAfter(ops), op)
    ensures TreeAfter(ops + [op]) == TreeStep(TreeAfter(ops), op).0 && MapAfter(ops + [op]) == MapStep(MapAfter(ops), op).0
    ensures Represents(TreeAfter(ops + [op]), MapAfter(ops + [op]))
  {
    var all := ops + [op];
    assert all[..|ops|] == ops && all[|ops|] == op;
    RunFront(all);
    TreeRefinesMap(ops);
    TreeRefinesMap(all);
  }

  lemma FewerClash(m: PathMap, p: Path, q: Path)
    requires AllProper(m) && q != []
    ensures Clashes(m - {p}, q) ==> Clashes(m, q)
  {
    NeededDelete(m, p);
  }

  /** The deleted key itself reads as absent. */
  lemma DeletedIsGone(ops: seq<Op>, k: string)
    requires Run(ops + [Delete(k)]) && k != "" && !HasDotDot(k)
    requires AllProper(MapAfter(ops).entries) && (Segments(k) == [] || !Clashes(MapAfter(ops).entries, Segments(k)))
    ensures GetTree(TreeAfter(ops + [Delete(k)]), k).1 == Ok(None)
  {
    BeforeAndAfter(ops, Delete(k));
    GetReads(TreeAfter(ops + [Delete(k)]), MapAfter(ops + [Delete(k)]), k);
    if Segments(k) != [] {
      FewerClash(MapAfter(ops).entries, Segments(k), Segments(k));
    }
  }

  /** A put that fails over a directory stores its value under another key. */
  lemma FailedPutLeavesKey(ops: seq<Op>, op: Op, l: string)
    requires Run(ops + [op]) && op.Put? && !HasDotDot(op.k) && Segments(op.k) != []
    requires AllProper(MapAfter(ops).entries) && !Under(MapAfter(ops).entries, Segments(op.k)) && Over(MapAfter(ops).entries, Segments(op.k))
    requires Segments(l) == Sibling(Segments(op.k), op.temp) && !HasDotDot(l)
    ensures !TreeStep(TreeAfter(ops), op).1 && GetTree(TreeAfter(ops + [op]), l).1 == Ok(Some(op.v))
  {
    BeforeAndAfter(ops, op);
    PutRepresents(TreeAfter(ops), MapAfter(ops), op.k, op.v, op.temp);
    GetReads(TreeAfter(ops + [op]), MapAfter(ops + [op]), l);
    EntriesDoNotClash(MapAfter(ops + [op]).entries);
  }

  /** Such a run: one put under a directory with an underscore name, and a put of the name without it. */
  lemma ClashRun(k: string, l: string, x: string, a: string, b: string, v: seq<byte>, w: seq<byte>, temp: string, temp': string)
    requires Segments(k) == ["_" + a, b] && Segments(l) == [a] && Segments(x) == [temp']
    requires !HasDotDot(k) && !HasDotDot(l) && !HasDotDot(x)
    requires ProperName(temp) && temp != b && ProperName(temp') && temp' != a
    ensures var first, second := Put(k, v, temp), Put(l, w, temp');
            && Run([first, second]) && TreeStep(INIT, first).1 && !TreeStep(TreeAfter([first]), second).1
            && GetTree(TreeAfter([first, second]), x).1 == Ok(Some(w))
  {
    var first, second := Put(k, v, temp), Put(l, w, temp');
    FirstPut(k, a, b, v, temp);
    SecondFresh(l, a, b, v, temp', TreeAfter([first]));
    RunOfTwo(first, second);
    assert [first] + [second] == [first, second];
    FailedPutLeavesKey([first], second, x);
  }

  lemma FirstPut(k: string, a: string, b: string, v: seq<byte>, temp: string)
    requires Segments(k) == ["_" + a, b] && !HasDotDot(k) && ProperName(temp) && temp != b
    ensures var first := Put(k, v, temp);
            && TempFresh(INIT, k, temp) && TreeStep(INIT, first).1 && MapAfter([first]) == Spec(map[["_" + a, b] := v], None)
            && TreeAfter([first]).dirs == {[], ["_" + a]} && TreeAfter([first]).files == map[["_" + a, "_" + b] := Entry(v)]
  {
    var first := Put(k, v, temp);
    assert [first][..0] == [];
    assert MapAfter([]) == EMPTY && TreeAfter([]) == INIT;
    assert Needed(map[]) == {};
    var p := Segments(k);
    assert p[..1] == ["_" + a] && p[..0] == [];
    assert ExpandPath(k).0 == ["_" + a];
    assert ("_" + temp)[1..] == temp && ("_" + b)[1..] == b;
    assert FullPath(k) == ["_" + a, "_" + b];
    assert ["_" + a] + ["_" + temp] == ["_" + a, "_" + temp] && ["_" + a, "_" + temp][1] != ["_" + a, "_" + b][1];
    assert Parents(["_" + a]) == {[], ["_" + a]} by {
      assert ["_" + a][..0] == [] && ["_" + a][..1] == ["_" + a];
    }
    assert map[][p := v] == map[["_" + a, b] := v];
    assert {[]} + {[], ["_" + a]} == {[], ["_" + a]};
  }

  lemma SecondFresh(l: string, a: string, b: string, v: seq<byte>, temp: string, t: Tree)
    requires Segments(l) == [a] && ProperName(temp) && temp != a
    requires t.dirs == {[], ["_" + a]} && t.files == map[["_" + a, "_" + b] := Entry(v)]
    ensures TempFresh(t, l, temp)
    ensures var m := map[["_" + a, b] := v]; AllProper(m) ==> Over(m, [a]) && !Under(m, [a])
  {
    assert ExpandPath(l).0 == [] && [] + ["_" + temp] == ["_" + temp];
    assert ("_" + temp)[1..] == temp && ("_" + a)[1..] == a;
    assert FullPath(l) == ["_" + a];
    var m, p := map[["_" + a, b] := v], ["_" + a, b];
    assert p in m && p[..1] == ["_" + a] && p[..1] in Ancestors(p);
    assert KeyFile([a]) == ["_" + a] by { assert [a][..0] == []; }
    assert Ancestors([a]) == {[]} by { assert [a][..0] == []; }
  }

  lemma RunOfTwo(first: Op, second: Op)
    requires first.Put? && second.Put? && TempFresh(INIT, first.k, first.temp) && TempFresh(TreeAfter([first]), second.k, second.temp)
    ensures Run([first, second]) && AllProper(MapAfter([first]).entries)
  {
    var ops := [first, second];
    assert ops[..0] == [] && ops[..1] == [first] && [first][..0] == [];
    assert Run([first]);
    TreeRefinesMap([first]);
  }

  /** The tree depends only on the specification: two runs with one outcome leave one tree. */
  lemma TreeIsCanonical(a: seq<Op>, b: seq<Op>)
    requires Run(a) && Run(b) && MapAfter(a) == MapAfter(b)
    ensures TreeAfter(a) == TreeAfter(b)
  {
    TreeRefinesMap(a);
    TreeRefinesMap(b);
    var s, t, m := TreeAfter(a), TreeAfter(b), MapAfter(a).entries;
    assert s.dirs == t.dirs;
    forall f | f in s.files || f in t.files ensures f in s.files && f in t.files && s.files[f] == t.files[f] {
      var p :| p in m && f == KeyFile(p);
    }
    assert s.files == t.files;
  }

  /** No directory but the root is left empty. */
  lemma NoEmptyDirectory(ops: seq<Op>, d: Path)
    requires Run(ops) && d in TreeAfter(ops).dirs && d != []
    ensures !IsEmpty(TreeAfter(ops), d)
  {
    TreeRefinesMap(ops);
    NeededIsNotEmpty(TreeAfter(ops), MapAfter(ops).entries, d);
  }

  // ---- put, then delete ----

  /** The specification after one put into the empty store. */
  lemma PutFirst(k: string, v: seq<byte>, temp: string)
    requires !HasDotDot(k)
    ensures var s := if Segments(k) == [] then Spec(map[], Some(v)) else Spec(map[Segments(k) := v], None);
            Represents(PutTree(INIT, k, v, temp).0, s)
  {
    assert Needed(map[]) == {};
    assert Represents(INIT, EMPTY);
    if Segments(k) != [] {
      KeyPaths(k);
      PutPlain(INIT, EMPTY, k, v, temp);
      assert map[][Segments(k) := v] == map[Segments(k) := v];
    }
  }

  /**
   * A put and a delete of any key, from the empty store, leave an empty directory besides the root
   * exactly when its last segment that is not proper has at least two proper ones before it.
   */
  lemma PutDeleteLeavesEmpty(k: string, v: seq<byte>, temp: string)
    requires !HasDotDot(k)
    ensures var t := DeleteTree(PutTree(INIT, k, v, temp).0, k).0;
            (exists d :: d in t.dirs && d != [] && IsEmpty(t, d)) <==> Stop(k) > 1
  {
    PutFirst(k, v, temp);
    var t := PutTree(INIT, k, v, temp).0;
    var p := Segments(k);
    if k == "" {
      assert Split("") == [""] && Segments(k) == [] by { assert [""][1..] == [] && Clean([]) == []; }
      assert t.dirs == {[]} by { assert Needed(map[]) == {}; }
    } else if p == [] {
      DeleteLeaves(t, Spec(map[], Some(v)), k);
      NothingStops(k);
      assert Needed(map[]) == {};
    } else {
      var s := Spec(map[p := v], None);
      SingleDoesNotClash(p, v);
      DeleteLeaves(t, s, k);
      assert s.entries - {p} == map[] && Needed(map[]) == {};
      LeftBound(k, true);
      OnlyUpto(DeleteTree(t, k).0, p, Stop(k));
    }
  }

  lemma SingleDoesNotClash(p: Path, v: seq<byte>)
    requires Proper(p)
    ensures AllProper(map[p := v]) && !Clashes(map[p := v], p)
  {
    KeyFileIsNoAncestor(p);
  }

  lemma NothingStops(k: string)
    requires Segments(k) == []
    ensures Stop(k) <= 1
  {
    var nodes := Split(k);
    CountAll(nodes);
    StopBound(nodes, |nodes|);
  }

  lemma OnlyUpto(t: Tree, p: Path, h: nat)
    requires t.dirs == Upto(p, h) && t.files == map[] && h <= |p|
    ensures (exists d :: d in t.dirs && d != [] && IsEmpty(t, d)) <==> h > 1
  {
    if h > 1 {
      var d := p[..h - 1];
      assert d in t.dirs && |d| == h - 1;
      forall x | x in t.dirs ensures !ChildOf(x, d) {
        assert |x| < h;
      }
    } else {
      forall d | d in t.dirs ensures d == [] {}
    }
  }

  /** With a key of two or more segments that ends in a slash, a put and a delete leave an empty directory behind. */
  lemma TrailingSlashLeavesDirectory(k: string, p: Path, v: seq<byte>, temp: string)
    requires Split(k) == p + [""] && Proper(p) && |p| > 1 && !HasDotDot(k)
    ensures var t := DeleteTree(PutTree(INIT, k, v, temp).0, k).0;
            exists d :: d in t.dirs && d != [] && IsEmpty(t, d)
  {
    var nodes := Split(k);
    CountAll(nodes);
    CleanSplit(p, [""]);
    CleanId(p);
    PutDeleteLeavesEmpty(k, v, temp);
  }

  // ---- values, along any run at all ----

  /** The specification of an operation's effect on the values, given the directories it meets. */
  ghost function ValueStep(t: Tree, s: Spec, op: Op): Spec
    requires AllProper(s.entries)
  {
    var p := Segments(op.k);
    if HasDotDot(op.k) || (op.Delete? && op.k == "") then s
    else if p == [] then s.(beside := if op.Put? then Some(op.v) else None)
    else if Under(s.entries, p) then s
    else match op
      case Put(_, v, temp) => s.(entries := s.entries[if KeyFile(p) in t.dirs then Sibling(p, temp) else p := v])
      case Delete(_) => if KeyFile(p) in t.dirs && !IsEmpty(t, KeyFile(p)) then s else s.(entries := s.entries - {p})
  }

  ghost function ValuesAfter(ops: seq<Op>): Spec {
    if ops == [] then EMPTY
    else
      var front := ops[..|ops| - 1];
      var s := ValuesAfter(front);
      if AllProper(s.entries) then ValueStep(TreeAfter(front), s, ops[|ops| - 1]) else s
  }

  lemma PutHolds(t: Tree, s: Spec, k: string, v: seq<byte>, temp: string)
    requires Holds(t, s) && ProperName(temp)
    ensures Holds(PutTree(t, k, v, temp).0, ValueStep(t, s, Put(k, v, temp)))
  {
    var p := Segments(k);
    if !HasDotDot(k) && p != [] {
      KeyPaths(k);
      BlockedIffUnder(t, s.entries, k);
      SiblingPath(p, temp);
      PutFiles(t.files, s.entries, if KeyFile(p) in t.dirs then Sibling(p, temp) else p, v);
    }
  }

  lemma DeleteHolds(t: Tree, s: Spec, k: string)
    requires Holds(t, s)
    ensures Holds(DeleteTree(t, k).0, ValueStep(t, s, Delete(k)))
  {
    var p, n := Segments(k), |Split(k)|;
    if k != "" && !HasDotDot(k) {
      if p == [] {
        PruneKeepsFiles(t.(beside := None), Split(k), n - 1);
      } else {
        DeletePathHolds(t, s, k);
      }
    }
  }

  lemma DeletePathHolds(t: Tree, s: Spec, k: string)
    requires Holds(t, s) && k != "" && !HasDotDot(k) && Segments(k) != []
    ensures Holds(DeleteTree(t, k).0, ValueStep(t, s, Delete(k)))
  {
    var p := Segments(k);
    var t' := t.(dirs := t.dirs - {KeyFile(p)}, files := t.files - {KeyFile(p)});
    KeyPaths(k);
    BlockedIffUnder(t, s.entries, k);
    DeleteFiles(t.files, s.entries, p);
    var r := Prune(t', Split(k), |Split(k)| - 1).0;
    assert r.files == t'.files && r.beside == t'.beside by {
      PruneKeepsFiles(t', Split(k), |Split(k)| - 1);
    }
    assert Holds(r, s.(entries := s.entries - {p}));
  }

  /** Whatever keys were used, the files hold exactly the values written: every read returns the last value or an error. */
  lemma {:induction false} ValuesAlwaysHeld(ops: seq<Op>)
    requires forall i :: 0 <= i < |ops| && ops[i].Put? ==> ProperName(ops[i].temp)
    ensures Holds(TreeAfter(ops), ValuesAfter(ops))
  {
    if ops != [] {
      var front, op := ops[..|ops| - 1], ops[|ops| - 1];
      ValuesAlwaysHeld(front);
      match op
      case Put(k, v, temp) => PutHolds(TreeAfter(front), ValuesAfter(front), k, v, temp);
      case Delete(k) => DeleteHolds(TreeAfter(front), ValuesAfter(front), k);
    }
  }

  lemma ReadsAreWrites(ops: seq<Op>, k: string)
    requires forall i :: 0 <= i < |ops| && ops[i].Put? ==> ProperName(ops[i].temp)
    ensures var t, s := TreeAfter(ops), ValuesAfter(ops);
            var p := Segments(k);
            && AllProper(s.entries)
            && GetTree(t, k) == (t,
                 if HasDotDot(k) then Err
                 else if p == [] then Ok(s.beside)
                 else if p in s.entries then Ok(Some(s.entries[p]))
                 else if KeyFile(p) in t.dirs || Under(s.entries, p) then Err
                 else Ok(None))
  {
    ValuesAlwaysHeld(ops);
    if Segments(k) != [] {
      KeyPaths(k);
      FileIsEntry(TreeAfter(ops), ValuesAfter(ops), k);
      BlockedIffUnder(TreeAfter(ops), ValuesAfter(ops).entries, k);
    }
  }

  // ---- blank files ----

  /** A blank file, as a crash can leave one, reads as absent, and the read drops that file and nothing else. */
  lemma BlankReadsAsAbsent(t: Tree, k: string)
    requires FileOf(t, k) == Some(Blank) && !HasDotDot(k)
    ensures var (t', r) := GetTree(t, k);
            r == Ok(None) && FileOf(t', k) == None && t'.dirs == t.dirs &&
            forall l :: Segments(l) != Segments(k) ==> FileOf(t', l) == FileOf(t, l)
  {
    forall l | Segments(l) != Segments(k) ensures FileOf(GetTree(t, k).0, l) == FileOf(t, l) {
      if Segments(k) != [] && Segments(l) != [] {
        KeyPaths(k);
        KeyPaths(l);
        if FullPath(k) == FullPath(l) {
          KeyFileInjective(Segments(k), Segments(l));
        }
      }
    }
  }
}
