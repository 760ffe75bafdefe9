/**
  An abstract, in-memory filesystem: the part of the operating system that
  the timestamp fixer talks to.  A path is the sequence of names leading to
  an entry, so the path of an entry `name` inside directory `dir` is
  `dir + [name]`.  Every failure the real calls can report is driven by a
  flag on the node concerned.
 */
module AbstractFs {

  type Name = string
  type Path = seq<Name>

  /** A modification time (seconds and nanoseconds, totally ordered). */
  type Time = int

  datatype Option<T> = None | Some(value: T)

  /** The I/O error kinds the core can see, each with the path it concerns. */
  datatype IoError =
    | NotFound(path: Path)
    | NotADirectory(path: Path)
    | PermissionDenied(path: Path)

  datatype Result<T> = Ok(value: T) | Err(error: IoError)

  /** One item produced while iterating a directory listing: either an entry
      name, or an entry whose read failed. */
  datatype DirEntry = Entry(name: Name) | EntryError

  datatype Node = Node(
    mtime: Time,
    isDir: bool,
    entries: seq<DirEntry>,   // listing order, meaningful for directories only
    listable: bool,           // listing the directory is permitted
    metadataReadable: bool,   // reading the node's metadata succeeds
    mtimeWritable: bool       // setting the node's mtime succeeds
  )

  type Tree = map<Path, Node>

  predicate IsChild(dir: Path, c: Path) {
    |c| == |dir| + 1 && dir <= c
  }

  /** Listing `dir` succeeds. */
  predicate Listable(t: Tree, dir: Path) {
    dir in t && t[dir].isDir && t[dir].listable
  }

  /** `Path::is_dir`: the metadata of the path can be read and says "directory";
      any failure reads as "not a directory". */
  predicate IsDir(t: Tree, p: Path) {
    p in t && t[p].metadataReadable && t[p].isDir
  }

  /** Names in one listing are pairwise distinct, as in every real directory. */
  predicate DistinctNames(es: seq<DirEntry>) {
    forall i, j :: 0 <= i < j < |es| && es[i].Entry? && es[j].Entry? ==> es[i].name != es[j].name
  }

  ghost predicate WellFormed(t: Tree) {
    forall p :: p in t ==> DistinctNames(t[p].entries)
  }

  /** Two trees that differ at most in modification times. */
  ghost predicate SameShape(t: Tree, u: Tree) {
    t.Keys == u.Keys && forall p :: p in t ==> u[p] == t[p].(mtime := u[p].mtime)
  }

  /** Writing a node's own modification time back leaves the tree as it is. */
  lemma WriteSameMtime(t: Tree, p: Path, mtime: Time)
    requires p in t && t[p].mtime == mtime
    ensures t[p := t[p].(mtime := mtime)] == t
  {
  }

  /** `fs::read_dir`. */
  function Listing(t: Tree, dir: Path): (r: Result<seq<DirEntry>>)
    ensures r.Ok? <==> Listable(t, dir)
    ensures r.Ok? ==> r.value == t[dir].entries
    ensures r.Err? ==> r.error.path == dir
  {
    if dir !in t then Err(NotFound(dir))
    else if !t[dir].isDir then Err(NotADirectory(dir))
    else if !t[dir].listable then Err(PermissionDenied(dir))
    else Ok(t[dir].entries)
  }

  /** `DirEntry::metadata` followed by the modification time, for one item of
      the listing of `dir`; `None` when either read fails. */
  function EntryTime(t: Tree, dir: Path, e: DirEntry): (r: Option<Time>)
    ensures r.Some? <==> e.Entry? && dir + [e.name] in t && t[dir + [e.name]].metadataReadable
    ensures r.Some? ==> r.value == t[dir + [e.name]].mtime
  {
    if e.EntryError? then None
    else
      var p := dir + [e.name];
      if p in t && t[p].metadataReadable then Some(t[p].mtime) else None
  }

  /** `set_file_mtime`. */
  function SetMtime(t: Tree, p: Path, mtime: Time): (r: Result<Tree>)
    ensures r.Ok? <==> p in t && t[p].mtimeWritable
    ensures r.Ok? ==> r.value == t[p := t[p].(mtime := mtime)] && SameShape(t, r.value)
    ensures r.Err? ==> r.error.path == p
  {
    if p !in t then Err(NotFound(p))
    else if !t[p].mtimeWritable then Err(PermissionDenied(p))
    else Ok(t[p := t[p].(mtime := mtime)])
  }

  /** The filesystem as mutable state: the two calls that the core makes on
      it read and update `tree` in place. */
  class FileSystem {
    var tree: Tree

    constructor (t: Tree)
      ensures tree == t
    {
      tree := t;
    }

    method ReadDir(dir: Path) returns (r: Result<seq<DirEntry>>)
      ensures r == Listing(tree, dir)
    {
      r := Listing(tree, dir);
    }

    method SetFileMtime(p: Path, mtime: Time) returns (r: Result<()>)
      modifies this
      ensures r.Ok? <==> SetMtime(old(tree), p, mtime).Ok?
      ensures r.Ok? ==> tree == old(tree)[p := old(tree)[p].(mtime := mtime)]
      ensures r.Err? ==> r.error == SetMtime(old(tree), p, mtime).error && tree == old(tree)
    {
      match SetMtime(tree, p, mtime)
      case Ok(t) =>
        tree := t;
        r := Ok(());
      case Err(e) =>
        r := Err(e);
    }
  }
}
