// An in-memory POSIX-like filesystem: a map from paths (sequences of
// non-empty names) to directories, regular files and symbolic links, with the
// few system calls the cache uses. Each call is a pure function from the old
// map to an outcome; class Disk applies them in place.

module FileSystem {
  import opened Common

  /** One path component: never empty. */
  type Name = s: string | s != "" witness "x"

  /** A path from the filesystem root; the root itself is []. */
  type Path = seq<Name>

  datatype Node = Dir | File(data: string) | Symlink(target: Name)

  /** The errno values the modelled calls can fail with. */
  datatype OsError = ENOENT | EEXIST | ENOTDIR | EISDIR | EINVAL | ELOOP

  type Tree = map<Path, Node>

  /** The new map and the error (if any) of one call. */
  datatype Outcome = Outcome(nodes: Tree, error: Option<OsError>)

  function Parent(p: Path): (q: Path)
    requires p != []
    ensures |q| == |p| - 1 && q == p[..|p| - 1]
  {
    p[..|p| - 1]
  }

  /** `p` is `base` or lies below it. */
  predicate Within(p: Path, base: Path)
  {
    |base| <= |p| && p[..|base|] == base
  }

  /** Lying below a child of `base` means lying below `base`. */
  lemma WithinChild(p: Path, base: Path, n: Name)
    ensures Within(p, base + [n]) ==> Within(p, base) && p != base
  {
    if Within(p, base + [n]) {
      assert p[..|base|] == (p[..|base| + 1])[..|base|];
      assert (base + [n])[..|base|] == base;
    }
  }

  /** The shape every real directory tree has: the root is a directory, and
      whatever exists sits in an existing directory. */
  predicate IsTree(nodes: Tree)
  {
    && [] in nodes && nodes[[]] == Dir
    && forall p {:trigger Parent(p)} :: p in nodes && p != [] ==> Parent(p) in nodes && nodes[Parent(p)] == Dir
  }

  /** The error of resolving `q` as a directory, component by component from
      the root; symbolic links met on the way are not followed. */
  function DirError(nodes: Tree, q: Path): Option<OsError>
    decreases |q|
  {
    if q == [] then
      if [] in nodes && nodes[[]] == Dir then None else Some(ENOENT)
    else
      match DirError(nodes, Parent(q))
      case Some(e) => Some(e)
      case None =>
        if q !in nodes then Some(ENOENT)
        else if nodes[q] == Dir then None
        else Some(ENOTDIR)
  }

  lemma {:induction false} DirErrorNone(nodes: Tree, q: Path)
    ensures IsTree(nodes) ==> (DirError(nodes, q).None? <==> q in nodes && nodes[q] == Dir)
    decreases |q|
  {
    if IsTree(nodes) && q != [] && q in nodes && nodes[q] == Dir {
      assert Parent(q) in nodes && nodes[Parent(q)] == Dir;
      DirErrorNone(nodes, Parent(q));
    }
  }

  /** Resolving a directory fails only because something is missing or is
      not a directory. */
  lemma {:induction false} DirErrorKinds(nodes: Tree, q: Path)
    ensures DirError(nodes, q) in {None, Some(ENOENT), Some(ENOTDIR)}
    decreases |q|
  {
    if q != [] {
      DirErrorKinds(nodes, Parent(q));
    }
  }

  lemma SetKeepsTree(nodes: Tree, p: Path, n: Node)
    requires p != []
    ensures IsTree(nodes) && Parent(p) in nodes && nodes[Parent(p)] == Dir && (p in nodes && nodes[p] == Dir ==> n == Dir)
      ==> IsTree(nodes[p := n])
  {
    var m := nodes[p := n];
    if !(IsTree(nodes) && Parent(p) in nodes && nodes[Parent(p)] == Dir && (p in nodes && nodes[p] == Dir ==> n == Dir)) {
      return;
    }
    forall q | q in m && q != []
      ensures Parent(q) in m && m[Parent(q)] == Dir
    {
      if q != p {
        assert Parent(q) in nodes && nodes[Parent(q)] == Dir;
      }
    }
  }

  lemma RemoveLeafKeepsTree(nodes: Tree, p: Path)
    requires p != [] && p in nodes && nodes[p] != Dir
    ensures IsTree(nodes) ==> IsTree(nodes - {p})
  {
    var m := nodes - {p};
    if !IsTree(nodes) {
      return;
    }
    forall q | q in m && q != []
      ensures Parent(q) in m && m[Parent(q)] == Dir
    {
      assert Parent(q) in nodes && nodes[Parent(q)] == Dir;
    }
  }

  /** Under the tree shape nothing lies below a path that is not a directory. */
  lemma NoChildUnlessDir(nodes: Tree, p: Path, q: Path)
    requires IsTree(nodes) && q != [] && Parent(q) == p && (p !in nodes || nodes[p] != Dir)
    ensures q !in nodes
  {
  }

  /** Under the tree shape every proper prefix of an existing path is an
      existing directory. */
  lemma {:induction false} AncestorsExist(nodes: Tree, q: Path, a: Path)
    requires IsTree(nodes) && q in nodes && Within(q, a) && a != q
    ensures a in nodes && nodes[a] == Dir
    decreases |q|
  {
    assert Parent(q) in nodes && nodes[Parent(q)] == Dir;
    if Parent(q) != a {
      assert Within(Parent(q), a);
      AncestorsExist(nodes, Parent(q), a);
    }
  }

  /** Nothing lies below a path that does not exist. */
  lemma NothingBelowMissing(nodes: Tree, a: Path)
    requires IsTree(nodes) && a !in nodes
    ensures forall q :: Within(q, a) ==> q !in nodes
  {
    forall q | Within(q, a)
      ensures q !in nodes
    {
      if q in nodes {
        AncestorsExist(nodes, q, a);
      }
    }
  }

  // ---- the calls -----------------------------------------------------------

  /** `os.mkdir(p)`. */
  function MkdirOf(nodes: Tree, p: Path): (o: Outcome)
    requires p != []
    ensures o.error.None? ==> p !in nodes && o.nodes == nodes[p := Dir]
    ensures o.error.Some? ==> o.nodes == nodes
    ensures IsTree(nodes) ==> (o.error.None? <==> Parent(p) in nodes && nodes[Parent(p)] == Dir && p !in nodes)
    ensures IsTree(nodes) ==> (o.error == Some(EEXIST) <==> p in nodes)
    ensures IsTree(nodes) ==> IsTree(o.nodes)
  {
    DirErrorNone(nodes, Parent(p));
    DirErrorKinds(nodes, Parent(p));
    match DirError(nodes, Parent(p))
    case Some(e) => Outcome(nodes, Some(e))
    case None =>
      if p in nodes then Outcome(nodes, Some(EEXIST))
      else
        SetKeepsTree(nodes, p, Dir);
        Outcome(nodes[p := Dir], None)
  }

  /** `os.makedirs(p)` of Python 2.7: create the missing parent first (an
      `EEXIST` from that is ignored), then `mkdir` the path itself. */
  function MakeDirsOf(nodes: Tree, p: Path): (o: Outcome)
    requires p != []
    decreases |p|
  {
    var head := Parent(p);
    var pre := if head != [] && head !in nodes then MakeDirsOf(nodes, head) else Outcome(nodes, None);
    if pre.error.Some? && pre.error.value != EEXIST then pre
    else MkdirOf(pre.nodes, p)
  }

  /** What `os.makedirs` promises: it fails with `EEXIST` exactly when the
      path already exists; otherwise on success the path is a directory; and
      it only ever adds directories that are ancestors of the path (or the
      path itself), leaving everything that existed as it was. */
  lemma {:induction false} MakeDirsSpec(nodes: Tree, p: Path)
    requires IsTree(nodes) && p != []
    ensures var o := MakeDirsOf(nodes, p);
      && IsTree(o.nodes)
      && (o.error == Some(EEXIST) <==> p in nodes)
      && (o.error.None? ==> p in o.nodes && o.nodes[p] == Dir)
      && (forall q :: q in nodes ==> q in o.nodes && o.nodes[q] == nodes[q])
      && (forall q :: q in o.nodes && q !in nodes ==> Within(p, q) && o.nodes[q] == Dir)
    decreases |p|
  {
    var head := Parent(p);
    if head != [] && head !in nodes {
      MakeDirsSpec(nodes, head);
      var pre := MakeDirsOf(nodes, head);
      if pre.error.None? {
        var o := MkdirOf(pre.nodes, p);
        assert p !in pre.nodes;
        forall q | q in o.nodes && q !in nodes
          ensures Within(p, q)
        {
          if q != p {
            assert Within(head, q);
            assert p[..|q|] == head[..|q|];
          }
        }
      } else {
        assert p !in nodes;
      }
    }
  }

  /** For a path that does not exist, `os.makedirs` succeeds exactly when
      resolving it fails only for want of some directory, never because a
      component is a file or a link. */
  lemma {:induction false} MakeDirsSucceeds(nodes: Tree, p: Path)
    requires IsTree(nodes) && p != [] && p !in nodes
    ensures MakeDirsOf(nodes, p).error.None? <==> DirError(nodes, p) == Some(ENOENT)
    decreases |p|
  {
    var head := Parent(p);
    DirErrorNone(nodes, head);
    DirErrorKinds(nodes, head);
    MakeDirsSpec(nodes, p);
    if head != [] && head !in nodes {
      MakeDirsSucceeds(nodes, head);
      MakeDirsSpec(nodes, head);
    } else if head in nodes && nodes[head] != Dir {
      assert Parent(head) in nodes && nodes[Parent(head)] == Dir;
      DirErrorNone(nodes, Parent(head));
    }
  }

  /** `open(p, 'w').write(data)`: the link-free case; opening a symbolic
      link fails instead of following it. */
  function WriteFileOf(nodes: Tree, p: Path, data: string): (o: Outcome)
    requires p != []
    ensures o.error.None? ==> o.nodes == nodes[p := File(data)]
    ensures o.error.Some? ==> o.nodes == nodes
    ensures IsTree(nodes) ==> (o.error.None? <==> Parent(p) in nodes && nodes[Parent(p)] == Dir && (p !in nodes || nodes[p].File?))
    ensures IsTree(nodes) ==> IsTree(o.nodes)
  {
    DirErrorNone(nodes, Parent(p));
    match DirError(nodes, Parent(p))
    case Some(e) => Outcome(nodes, Some(e))
    case None =>
      if p in nodes && nodes[p] == Dir then Outcome(nodes, Some(EISDIR))
      else if p in nodes && nodes[p].Symlink? then Outcome(nodes, Some(ELOOP))
      else
        SetKeepsTree(nodes, p, File(data));
        Outcome(nodes[p := File(data)], None)
  }

  /** `open(p, 'r').read()`. */
  function ReadFileOf(nodes: Tree, p: Path): (r: Result<string, OsError>)
    requires p != []
    ensures r.Ok? <==> DirError(nodes, Parent(p)).None? && p in nodes && nodes[p].File?
    ensures r.Ok? ==> nodes[p] == File(r.value)
    ensures IsTree(nodes) ==> (r.Ok? <==> p in nodes && nodes[p].File?)
  {
    DirErrorNone(nodes, Parent(p));
    DirErrorKinds(nodes, Parent(p));
    match DirError(nodes, Parent(p))
    case Some(e) => Err(e)
    case None =>
      if p !in nodes then Err(ENOENT)
      else match nodes[p]
        case File(data) => Ok(data)
        case Dir => Err(EISDIR)
        case Symlink(_) => Err(ELOOP)
  }

  /** `os.symlink(target, p)`. */
  function SymlinkOf(nodes: Tree, target: Name, p: Path): (o: Outcome)
    requires p != []
    ensures o.error.None? ==> p !in nodes && o.nodes == nodes[p := Symlink(target)]
    ensures o.error.Some? ==> o.nodes == nodes
    ensures IsTree(nodes) ==> (o.error.None? <==> Parent(p) in nodes && nodes[Parent(p)] == Dir && p !in nodes)
    ensures IsTree(nodes) ==> IsTree(o.nodes)
  {
    DirErrorNone(nodes, Parent(p));
    match DirError(nodes, Parent(p))
    case Some(e) => Outcome(nodes, Some(e))
    case None =>
      if p in nodes then Outcome(nodes, Some(EEXIST))
      else
        SetKeepsTree(nodes, p, Symlink(target));
        Outcome(nodes[p := Symlink(target)], None)
  }

  /** `os.readlink(p)`. */
  function ReadLinkOf(nodes: Tree, p: Path): (r: Result<Name, OsError>)
    requires p != []
    ensures r.Ok? <==> DirError(nodes, Parent(p)).None? && p in nodes && nodes[p].Symlink?
    ensures r.Ok? ==> nodes[p] == Symlink(r.value)
    ensures IsTree(nodes) && Parent(p) in nodes && nodes[Parent(p)] == Dir ==> (r == Err(ENOENT) <==> p !in nodes)
    ensures IsTree(nodes) ==> (r == Err(EINVAL) <==> p in nodes && !nodes[p].Symlink?)
  {
    DirErrorNone(nodes, Parent(p));
    DirErrorKinds(nodes, Parent(p));
    match DirError(nodes, Parent(p))
    case Some(e) => Err(e)
    case None =>
      if p !in nodes then Err(ENOENT)
      else match nodes[p]
        case Symlink(target) => Ok(target)
        case _ => Err(EINVAL)
  }

  /** `os.rename(src, dst)` for a source that is not a directory: `dst` is
      replaced in one step, unless it is a directory. */
  function RenameOf(nodes: Tree, src: Path, dst: Path): (o: Outcome)
    requires src != [] && dst != [] && src in nodes && nodes[src] != Dir
    ensures o.error.None? && src != dst ==> o.nodes == (nodes - {src})[dst := nodes[src]]
    ensures o.error.None? && src == dst ==> o.nodes == nodes
    ensures o.error.Some? ==> o.nodes == nodes
    ensures IsTree(nodes) ==> (o.error.None? <==> Parent(dst) in nodes && nodes[Parent(dst)] == Dir && (dst !in nodes || nodes[dst] != Dir))
    ensures IsTree(nodes) ==> IsTree(o.nodes)
  {
    DirErrorNone(nodes, Parent(dst));
    match DirError(nodes, Parent(dst))
    case Some(e) => Outcome(nodes, Some(e))
    case None =>
      if dst in nodes && nodes[dst] == Dir then Outcome(nodes, Some(EISDIR))
      else if src == dst then Outcome(nodes, None)
      else
        var m := (nodes - {src})[dst := nodes[src]];
        RemoveLeafKeepsTree(nodes, src);
        SetKeepsTree(nodes - {src}, dst, nodes[src]);
        Outcome(m, None)
  }

  /** `shutil.rmtree(p, ignore_errors=True)`: a directory goes with
      everything below it; on anything else every step fails and the
      failures are ignored. */
  function RmtreeOf(nodes: Tree, p: Path): (m: Tree)
    requires p != []
    ensures p in nodes && nodes[p] == Dir ==> forall q :: q in m <==> q in nodes && !Within(q, p)
    ensures !(p in nodes && nodes[p] == Dir) ==> m == nodes
    ensures forall q :: q in m ==> q in nodes && m[q] == nodes[q]
    ensures IsTree(nodes) ==> IsTree(m)
  {
    if p in nodes && nodes[p] == Dir then
      var m := map q | q in nodes && !Within(q, p) :: nodes[q];
      RmtreeKeepsTree(nodes, p, m);
      m
    else nodes
  }

  lemma RmtreeKeepsTree(nodes: Tree, p: Path, m: Tree)
    requires p != [] && m == map q | q in nodes && !Within(q, p) :: nodes[q]
    ensures IsTree(nodes) ==> IsTree(m)
  {
    if IsTree(nodes) {
      assert [] in m;
      forall q | q in m && q != []
        ensures Parent(q) in m && m[Parent(q)] == Dir
      {
        assert Parent(q) in nodes;
      }
    }
  }

  // ---- the filesystem as mutable state ----------------------------------------

  /** The filesystem the process works on, changed in place by each call. */
  class Disk {
    var nodes: Tree

    predicate Valid()
      reads this
    {
      IsTree(nodes)
    }

    constructor (init: Tree)
      requires IsTree(init)
      ensures Valid() && nodes == init
    {
      nodes := init;
    }

    method Mkdir(p: Path) returns (err: Option<OsError>)
      requires Valid() && p != []
      modifies this
      ensures Valid()
      ensures nodes == MkdirOf(old(nodes), p).nodes && err == MkdirOf(old(nodes), p).error
    {
      var o := MkdirOf(nodes, p);
      nodes, err := o.nodes, o.error;
    }

    /** Recursive like `os.makedirs`. */
    method MakeDirs(p: Path) returns (err: Option<OsError>)
      requires Valid() && p != []
      modifies this
      decreases |p|
      ensures Valid()
      ensures nodes == MakeDirsOf(old(nodes), p).nodes && err == MakeDirsOf(old(nodes), p).error
    {
      MakeDirsSpec(nodes, p);
      var head := Parent(p);
      if head != [] && head !in nodes {
        err := MakeDirs(head);
        if err.Some? && err.value != EEXIST {
          return;
        }
      }
      err := Mkdir(p);
    }

    method WriteFile(p: Path, data: string) returns (err: Option<OsError>)
      requires Valid() && p != []
      modifies this
      ensures Valid()
      ensures nodes == WriteFileOf(old(nodes), p, data).nodes && err == WriteFileOf(old(nodes), p, data).error
    {
      var o := WriteFileOf(nodes, p, data);
      nodes, err := o.nodes, o.error;
    }

    method Symlink(target: Name, p: Path) returns (err: Option<OsError>)
      requires Valid() && p != []
      modifies this
      ensures Valid()
      ensures nodes == SymlinkOf(old(nodes), target, p).nodes && err == SymlinkOf(old(nodes), target, p).error
    {
      var o := SymlinkOf(nodes, target, p);
      nodes, err := o.nodes, o.error;
    }

    method Rename(src: Path, dst: Path) returns (err: Option<OsError>)
      requires Valid() && src != [] && dst != [] && src in nodes && nodes[src] != Dir
      modifies this
      ensures Valid()
      ensures nodes == RenameOf(old(nodes), src, dst).nodes && err == RenameOf(old(nodes), src, dst).error
    {
      var o := RenameOf(nodes, src, dst);
      nodes, err := o.nodes, o.error;
    }

    method Rmtree(p: Path)
      requires Valid() && p != []
      modifies this
      ensures Valid()
      ensures nodes == RmtreeOf(old(nodes), p)
    {
      nodes := RmtreeOf(nodes, p);
    }
  }
}
