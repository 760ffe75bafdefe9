/**
  The single-directory stamp fixer: list a directory, keep the modification
  times of the entries whose metadata can be read, pick the earliest or the
  latest of them, and write it to the directory itself.
 */
module MtimeFix {
  import opened AbstractFs

  /** Which extreme of the entries' modification times the directory gets. */
  datatype Date = Earliest | Latest

  /** `a` is at least as extreme as `b` under `date`. */
  predicate Beats(date: Date, a: Time, b: Time) {
    if date.Earliest? then a <= b else b <= a
  }

  /** `iter.min()` / `iter.max()`: the extreme value, or none for no values. */
  function Select(date: Date, times: seq<Time>): (r: Option<Time>)
    ensures r.None? <==> times == []
    ensures r.Some? ==> r.value in times && forall x :: x in times ==> Beats(date, r.value, x)
  {
    if times == [] then None
    else
      assert forall x :: x in times ==> x == times[0] || x in times[1..];
      match Select(date, times[1..])
      case None => Some(times[0])
      case Some(v) => Some(if Beats(date, times[0], v) then times[0] else v)
  }

  /** The extreme value depends only on which values occur, not on their order. */
  lemma SelectDependsOnValuesOnly(date: Date, a: seq<Time>, b: seq<Time>)
    requires forall x :: x in a <==> x in b
    ensures Select(date, a) == Select(date, b)
  {
    if a != [] {
      assert a[0] in a;
    }
  }

  /** The filter_map/filter_map/map pipeline over a listing: the modification
      times of exactly those entries whose entry and metadata reads succeed. */
  function EntryTimes(t: Tree, dir: Path, es: seq<DirEntry>): (ts: seq<Time>)
    ensures |ts| <= |es|
    ensures forall x :: x in ts <==> exists e :: e in es && EntryTime(t, dir, e) == Some(x)
  {
    if es == [] then []
    else
      var rest := EntryTimes(t, dir, es[1..]);
      assert forall e :: e in es <==> e == es[0] || e in es[1..];
      match EntryTime(t, dir, es[0])
      case Some(x) => [x] + rest
      case None => rest
  }

  /** An update of a node that is not strictly below `dir` leaves the times
      of `dir`'s entries as they were. */
  lemma {:induction false} EntryTimesUnaffected(t: Tree, dir: Path, es: seq<DirEntry>, x: Path, n: Node)
    requires x in t && !(dir < x)
    ensures EntryTimes(t[x := n], dir, es) == EntryTimes(t, dir, es)
  {
    if es != [] {
      EntryTimesUnaffected(t, dir, es[1..], x, n);
      if es[0].Entry? {
        assert dir < dir + [es[0].name];
      }
    }
  }

  /** The value `fix_modified_time` would write to `dir`, if any. */
  function SelectedTime(t: Tree, dir: Path, date: Date): Option<Time>
    requires dir in t
  {
    Select(date, EntryTimes(t, dir, t[dir].entries))
  }

  /** The pure effect of `fix_modified_time(dir, date)` on the tree: either
      an error (the tree is then left as it was) or the new tree. */
  function Fix(t: Tree, dir: Path, date: Date): Result<Tree> {
    match Listing(t, dir)
    case Err(e) => Err(e)
    case Ok(es) =>
      match Select(date, EntryTimes(t, dir, es))
      case None => Ok(t)
      case Some(mtime) => SetMtime(t, dir, mtime)
  }

  /** `fix_modified_time`. */
  method FixModifiedTime(fs: FileSystem, dir: Path, date: Date) returns (r: Result<()>)
    modifies fs
    ensures r.Ok? <==> Fix(old(fs.tree), dir, date).Ok?
    ensures r.Ok? ==> fs.tree == Fix(old(fs.tree), dir, date).value
    ensures r.Err? ==> r.error == Fix(old(fs.tree), dir, date).error && fs.tree == old(fs.tree)
  {
    var listing := fs.ReadDir(dir);
    if listing.Err? {
      return Err(listing.error);
    }
    var time := Select(date, EntryTimes(fs.tree, dir, listing.value));
    match time
    case None =>
      r := Ok(());
    case Some(mtime) =>
      r := fs.SetFileMtime(dir, mtime);
  }

  /** A fix fails exactly when the directory cannot be listed, or when there
      is a time to write and the write is refused; an entry whose reads fail
      never causes an error. */
  lemma FixFailsOnlyOnListingOrWrite(t: Tree, dir: Path, date: Date)
    ensures Fix(t, dir, date).Err? <==>
      !Listable(t, dir) || (SelectedTime(t, dir, date).Some? && !t[dir].mtimeWritable)
    ensures !Listable(t, dir) ==> Fix(t, dir, date) == Err(Listing(t, dir).error)
  {
  }

  /** On success only the directory's own modification time may change;
      its entries and every other node keep their state. */
  lemma FixChangesOnlyTheDirectoryMtime(t: Tree, dir: Path, date: Date)
    requires Fix(t, dir, date).Ok?
    ensures dir in t
    ensures Fix(t, dir, date).value == t[dir := t[dir].(mtime := Fix(t, dir, date).value[dir].mtime)]
    ensures SameShape(t, Fix(t, dir, date).value)
    ensures forall p :: p in t && p != dir ==> Fix(t, dir, date).value[p] == t[p]
  {
    if SelectedTime(t, dir, date).None? {
      WriteSameMtime(t, dir, t[dir].mtime);
    }
  }

  /** With `Earliest` the new time is the minimum over the entries whose
      metadata can be read, with `Latest` the maximum; subdirectory entries
      count like files. */
  lemma FixPicksExtremeEntryTime(t: Tree, dir: Path, date: Date, e: DirEntry)
    requires Fix(t, dir, date).Ok?
    requires e in t[dir].entries && EntryTime(t, dir, e).Some?
    ensures var u := Fix(t, dir, date).value;
      (exists e' :: e' in t[dir].entries && EntryTime(t, dir, e') == Some(u[dir].mtime))
      && Beats(date, u[dir].mtime, EntryTime(t, dir, e).value)
  {
    assert EntryTime(t, dir, e).value in EntryTimes(t, dir, t[dir].entries);
  }

  /** With no entry whose metadata can be read (an empty directory among
      them) a listable directory is left exactly as it is. */
  lemma FixWithoutTimesIsNoOp(t: Tree, dir: Path, date: Date)
    requires Listable(t, dir)
    requires forall e :: e in t[dir].entries ==> EntryTime(t, dir, e).None?
    ensures Fix(t, dir, date) == Ok(t)
  {
  }

  /** The outcome does not depend on the order in which the listing yields
      its entries. */
  lemma FixIgnoresListingOrder(t: Tree, dir: Path, date: Date, es: seq<DirEntry>)
    requires dir in t && multiset(es) == multiset(t[dir].entries)
    ensures var t' := t[dir := t[dir].(entries := es)];
      Fix(t', dir, date).Ok? == Fix(t, dir, date).Ok?
      && (Fix(t, dir, date).Ok? ==> Fix(t', dir, date).value[dir].mtime == Fix(t, dir, date).value[dir].mtime)
  {
    var t' := t[dir := t[dir].(entries := es)];
    EntryTimesUnaffected(t, dir, es, dir, t'[dir]);
    forall e ensures e in es <==> e in t[dir].entries {
      assert e in es <==> e in multiset(es);
    }
    SelectDependsOnValuesOnly(date, EntryTimes(t, dir, es), EntryTimes(t, dir, t[dir].entries));
  }

  /** Fixing a directory a second time changes nothing. */
  lemma FixIsIdempotent(t: Tree, dir: Path, date: Date)
    requires Fix(t, dir, date).Ok?
    ensures Fix(Fix(t, dir, date).value, dir, date) == Fix(t, dir, date)
  {
    match SelectedTime(t, dir, date)
    case None =>
    case Some(v) =>
      var u := t[dir := t[dir].(mtime := v)];
      assert Fix(t, dir, date) == Ok(u);
      EntryTimesUnaffected(t, dir, t[dir].entries, dir, u[dir]);
      assert SelectedTime(u, dir, date) == Some(v);
      WriteSameMtime(u, dir, v);
  }

  /** Fixing `dir` stays a no-op when some other node that is not strictly
      below `dir` gets a new modification time. */
  lemma FixNoOpSurvivesUnrelatedWrite(t: Tree, dir: Path, date: Date, x: Path, mtime: Time)
    requires Fix(t, dir, date) == Ok(t)
    requires x in t && x != dir && !(dir < x)
    ensures var u := t[x := t[x].(mtime := mtime)]; Fix(u, dir, date) == Ok(u)
  {
    var u := t[x := t[x].(mtime := mtime)];
    EntryTimesUnaffected(t, dir, t[dir].entries, x, u[x]);
    assert u[dir] == t[dir];
    match SelectedTime(t, dir, date)
    case None =>
    case Some(v) =>
      assert t[dir := t[dir].(mtime := v)] == t;
      assert t[dir].mtime == v;
      WriteSameMtime(u, dir, v);
  }

  /** The two tests of the repository: entries stamped 1984 and 1969 give
      1969 with `Earliest` and 1984 with `Latest`. */
  lemma TwoFilesExample(date: Date)
    ensures var dir: Path := ["tmp"];
      var t: Tree := map[
        dir := Node(0, true, [Entry("a"), Entry("b")], true, true, true),
        dir + ["a"] := Node(441752400, false, [], false, true, true),
        dir + ["b"] := Node(-31546800, false, [], false, true, true)];
      Fix(t, dir, date).Ok?
      && Fix(t, dir, date).value[dir].mtime == (if date.Earliest? then -31546800 else 441752400)
  {
    var dir: Path := ["tmp"];
    var t: Tree := map[
      dir := Node(0, true, [Entry("a"), Entry("b")], true, true, true),
      dir + ["a"] := Node(441752400, false, [], false, true, true),
      dir + ["b"] := Node(-31546800, false, [], false, true, true)];
    assert "a"[0] != "b"[0];
    assert (dir + ["a"])[1] != (dir + ["b"])[1];
    assert EntryTimes(t, dir, [Entry("b")]) == [-31546800];
    assert EntryTimes(t, dir, t[dir].entries) == [441752400, -31546800];
  }
}
