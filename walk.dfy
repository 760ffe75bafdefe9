/**
  The tree walker: discover every directory below a root, then fix each one
  in the discovered order, stopping at the first error and keeping the
  fixes already made.
 */
module Walk {
  import opened AbstractFs
  import opened MtimeFix
  import opened Discovery

  /** The state of the tree after a run, and the error that stopped it. */
  datatype Run = Run(tree: Tree, error: Option<IoError>)

  /** Fixing `paths` one after the other, from the front, stopping at the
      first error and keeping the fixes already made. */
  function FixAll(t: Tree, paths: seq<Path>, date: Date): (r: Run)
    ensures r.tree.Keys == t.Keys
  {
    if paths == [] then Run(t, None)
    else match Fix(t, paths[0], date)
      case Err(e) => Run(t, Some(e))
      case Ok(u) => FixAll(u, paths[1..], date)
  }

  /** The effect of `walk_and_fix_modified_time(root, date)`. */
  function WalkRun(t: Tree, root: Path, date: Date): (r: Run)
    ensures r.tree.Keys == t.Keys
  {
    match Discover(t, root)
    case Err(e) => Run(t, Some(e))
    case Ok(paths) => FixAll(t, paths, date)
  }

  /** Fixing `dir` again would change nothing. */
  ghost predicate Settled(t: Tree, dir: Path, date: Date) {
    Fix(t, dir, date) == Ok(t)
  }

  /** The modification time of `dir` is the earliest (or latest) of those of
      its entries whose metadata can be read, or it has no such entry. */
  ghost predicate Aggregated(t: Tree, dir: Path, date: Date)
    requires dir in t
  {
    var es := t[dir].entries;
    (forall e :: e in es ==> EntryTime(t, dir, e).None?)
    || ((exists e :: e in es && EntryTime(t, dir, e) == Some(t[dir].mtime))
        && forall e :: e in es && EntryTime(t, dir, e).Some? ==> Beats(date, t[dir].mtime, EntryTime(t, dir, e).value))
  }

  /** A run as seen by a caller: the resulting tree and the returned result. */
  function Outcome(t: Tree, r: Result<()>): Run {
    Run(t, if r.Ok? then None else Some(r.error))
  }

  /** `walk_and_fix_modified_time`. */
  method WalkAndFixModifiedTime(fs: FileSystem, root: Path, date: Date) returns (r: Result<()>)
    modifies fs
    ensures Outcome(fs.tree, r) == WalkRun(old(fs.tree), root, date)
    ensures Discover(old(fs.tree), root).Err? ==> fs.tree == old(fs.tree) && r.Err?
  {
    var found := GetSubdirs(fs, root);
    if found.Err? {
      return Err(found.error);
    }
    r := FixEach(fs, found.value, date);
  }

  /** `.map(|p| fix_modified_time(p, date)).collect::<io::Result<_>>()`:
      fix the paths in order and return at the first error. */
  method FixEach(fs: FileSystem, paths: seq<Path>, date: Date) returns (r: Result<()>)
    modifies fs
    ensures Outcome(fs.tree, r) == FixAll(old(fs.tree), paths, date)
  {
    assert paths[0..] == paths;
    var i := 0;
    while i < |paths|
      invariant 0 <= i <= |paths|
      invariant FixAll(fs.tree, paths[i..], date) == FixAll(old(fs.tree), paths, date)
    {
      FixAllStep(fs.tree, paths, i, date);
      var res := FixModifiedTime(fs, paths[i], date);
      if res.Err? {
        return res;
      }
      i := i + 1;
    }
    assert paths[i..] == [];
    r := Ok(());
  }

  /** The run over `paths[i..]` fixes `paths[i]` first. */
  lemma FixAllStep(t: Tree, paths: seq<Path>, i: nat, date: Date)
    requires i < |paths|
    ensures FixAll(t, paths[i..], date) ==
      match Fix(t, paths[i], date)
      case Err(e) => Run(t, Some(e))
      case Ok(u) => FixAll(u, paths[i + 1..], date)
  {
    assert paths[i..][0] == paths[i] && paths[i..][1..] == paths[i + 1..];
  }

  /** Running `a + b` is running `a`, then `b` from where `a` left off
      unless `a` stopped at an error. */
  lemma {:induction false} FixAllComposes(t: Tree, a: seq<Path>, b: seq<Path>, date: Date)
    ensures FixAll(t, a + b, date) ==
      if FixAll(t, a, date).error.Some? then FixAll(t, a, date)
      else FixAll(FixAll(t, a, date).tree, b, date)
  {
    if a == [] {
      assert a + b == b;
    } else {
      assert (a + b)[0] == a[0] && (a + b)[1..] == a[1..] + b;
      if Fix(t, a[0], date).Ok? {
        FixAllComposes(Fix(t, a[0], date).value, a[1..], b, date);
      }
    }
  }

  /** A run changes only modification times, and only those of the paths it
      was given. */
  lemma {:induction false} FixAllFrame(t: Tree, paths: seq<Path>, date: Date)
    ensures SameShape(t, FixAll(t, paths, date).tree)
    ensures forall q :: q in t && q !in paths ==> FixAll(t, paths, date).tree[q] == t[q]
  {
    if paths != [] && Fix(t, paths[0], date).Ok? {
      var u := Fix(t, paths[0], date).value;
      FixChangesOnlyTheDirectoryMtime(t, paths[0], date);
      FixAllFrame(u, paths[1..], date);
      assert forall q :: q in paths[1..] ==> q in paths;
    }
  }

  /** A run that fails stopped at some path `paths[k]`: the tree is the one
      left by fixing `paths[..k]` (nothing is rolled back), and every node
      outside `paths[..k]` is as it was. */
  lemma {:induction false} FixAllStopsAtFirstError(t: Tree, paths: seq<Path>, date: Date)
    requires FixAll(t, paths, date).error.Some?
    ensures var r := FixAll(t, paths, date);
      exists k :: 0 <= k < |paths| && FixAll(t, paths[..k], date) == Run(r.tree, None)
        && Fix(r.tree, paths[k], date) == Err(r.error.value)
        && forall q :: q in t && q !in paths[..k] ==> r.tree[q] == t[q]
  {
    var r := FixAll(t, paths, date);
    var k := StopIndex(t, paths, date);
    assert FixAll(t, paths[..k], date) == Run(r.tree, None);
    FixAllFrame(t, paths[..k], date);
  }

  /** The index of the path whose fix stopped a failed run. */
  function StopIndex(t: Tree, paths: seq<Path>, date: Date): (k: nat)
    requires FixAll(t, paths, date).error.Some?
    ensures k < |paths| && FixAll(t, paths[..k], date) == Run(FixAll(t, paths, date).tree, None)
    ensures Fix(FixAll(t, paths, date).tree, paths[k], date) == Err(FixAll(t, paths, date).error.value)
    decreases |paths|
  {
    if Fix(t, paths[0], date).Err? then
      assert paths[..0] == [];
      0
    else
      var u := Fix(t, paths[0], date).value;
      assert FixAll(t, paths, date) == FixAll(u, paths[1..], date);
      var k := StopIndex(u, paths[1..], date);
      assert paths[..k + 1][0] == paths[0] && paths[..k + 1][1..] == paths[1..][..k];
      assert paths[k + 1] == paths[1..][k];
      k + 1
  }

  /** A directory stays settled through a run that fixes neither it nor
      anything below it. */
  lemma {:induction false} FixAllKeepsSettled(t: Tree, paths: seq<Path>, x: Path, date: Date)
    requires FixAll(t, paths, date).error.None? && Settled(t, x, date)
    requires forall q :: q in paths ==> q != x && !(x < q)
    ensures Settled(FixAll(t, paths, date).tree, x, date)
  {
    if paths != [] {
      var u := Fix(t, paths[0], date).value;
      FixChangesOnlyTheDirectoryMtime(t, paths[0], date);
      assert paths[0] in paths;
      FixNoOpSurvivesUnrelatedWrite(t, x, date, paths[0], u[paths[0]].mtime);
      assert forall q :: q in paths[1..] ==> q in paths;
      FixAllKeepsSettled(u, paths[1..], x, date);
    }
  }

  /** A run over distinct paths in which no path precedes one of its
      descendants leaves every one of them settled. */
  lemma {:induction false} FixAllSettles(t: Tree, paths: seq<Path>, date: Date)
    requires FixAll(t, paths, date).error.None?
    requires Distinct(paths) && DescendantsFirst(paths)
    ensures forall q :: q in paths ==> Settled(FixAll(t, paths, date).tree, q, date)
  {
    if paths != [] {
      var x, rest := paths[0], paths[1..];
      var u := Fix(t, x, date).value;
      forall i, j | 0 <= i < j < |rest| ensures rest[i] != rest[j] && !(rest[i] < rest[j]) {
        assert rest[i] == paths[i + 1] && rest[j] == paths[j + 1];
      }
      FixAllSettles(u, rest, date);
      FixIsIdempotent(t, x, date);
      forall q | q in rest ensures q != x && !(x < q) {
        var j :| 0 <= j < |rest| && rest[j] == q;
        assert paths[j + 1] == q;
      }
      FixAllKeepsSettled(u, rest, x, date);
    }
  }

  /** A run over settled directories changes nothing. */
  lemma {:induction false} FixAllKeepsSettledTree(t: Tree, paths: seq<Path>, date: Date)
    requires forall q :: q in paths ==> Settled(t, q, date)
    ensures FixAll(t, paths, date) == Run(t, None)
  {
    if paths != [] {
      assert paths[0] in paths;
      assert forall q :: q in paths[1..] ==> q in paths;
      FixAllKeepsSettledTree(t, paths[1..], date);
    }
  }

  lemma SettledIsAggregated(t: Tree, dir: Path, date: Date)
    requires Settled(t, dir, date)
    ensures dir in t && Aggregated(t, dir, date)
  {
    var es := t[dir].entries;
    if !(forall e :: e in es ==> EntryTime(t, dir, e).None?) {
      var e :| e in es && EntryTime(t, dir, e).Some?;
      FixPicksExtremeEntryTime(t, dir, date, e);
      forall e' | e' in es && EntryTime(t, dir, e').Some?
        ensures Beats(date, t[dir].mtime, EntryTime(t, dir, e').value)
      {
        FixPicksExtremeEntryTime(t, dir, date, e');
      }
    }
  }

  /** After a successful walk every directory reachable from the root holds
      the earliest (or latest) modification time of its entries as they are
      at the end, fixed subdirectories included, and fixing it again would
      change nothing. */
  lemma WalkAggregatesEveryReachableDirectory(t: Tree, root: Path, date: Date)
    requires WellFormed(t) && WalkRun(t, root, date).error.None?
    ensures var u := WalkRun(t, root, date).tree;
      forall q :: Reachable(t, root, q) ==> q in u && Settled(u, q, date) && Aggregated(u, q, date)
  {
    var paths := Discover(t, root).value;
    var u := WalkRun(t, root, date).tree;
    DiscoverFindsExactlyTheReachable(t, root);
    DiscoverOnceEachDescendantsFirst(t, root);
    FixAllSettles(t, paths, date);
    forall q | Reachable(t, root, q) ensures q in u && Settled(u, q, date) && Aggregated(u, q, date) {
      SettledIsAggregated(u, q, date);
    }
  }

  /** When the walk fixes a directory, everything below it already has its
      final state: the directory's aggregate is taken over the post-fix
      times of its subdirectories. */
  lemma WalkFixesSubtreeBeforeDirectory(t: Tree, root: Path, date: Date)
    requires WellFormed(t) && WalkRun(t, root, date).error.None?
    ensures var paths := Discover(t, root).value;
      forall i, c :: 0 <= i < |paths| && paths[i] < c && c in t ==>
        FixAll(t, paths[..i], date).tree[c] == WalkRun(t, root, date).tree[c]
  {
    var paths := Discover(t, root).value;
    DiscoverOnceEachDescendantsFirst(t, root);
    forall i, c | 0 <= i < |paths| && paths[i] < c && c in t
      ensures FixAll(t, paths[..i], date).tree[c] == FixAll(t, paths, date).tree[c]
    {
      FixAllLeavesDoneDescendants(t, paths, i, c, date);
    }
  }

  /** In a run where no path precedes one of its descendants, the nodes
      strictly below `paths[i]` are final before `paths[i]` is fixed. */
  lemma FixAllLeavesDoneDescendants(t: Tree, paths: seq<Path>, i: nat, c: Path, date: Date)
    requires DescendantsFirst(paths)
    requires i < |paths| && paths[i] < c && c in t
    ensures FixAll(t, paths[..i], date).tree[c] == FixAll(t, paths, date).tree[c]
  {
    DescendantNotLater(paths, i, c);
    assert paths == paths[..i] + paths[i..];
    FixAllUntouched(t, paths[..i], paths[i..], c, date);
  }

  lemma FixAllUntouched(t: Tree, a: seq<Path>, b: seq<Path>, c: Path, date: Date)
    requires c in t && c !in b
    ensures FixAll(t, a, date).tree[c] == FixAll(t, a + b, date).tree[c]
  {
    var before := FixAll(t, a, date);
    FixAllComposes(t, a, b, date);
    FixAllFrame(before.tree, b, date);
  }

  lemma DescendantNotLater(paths: seq<Path>, i: nat, c: Path)
    requires DescendantsFirst(paths) && i < |paths| && paths[i] < c
    ensures c !in paths[i..]
  {
  }

  /** A second walk after a successful one succeeds and changes nothing. */
  lemma WalkIsIdempotent(t: Tree, root: Path, date: Date)
    requires WellFormed(t) && WalkRun(t, root, date).error.None?
    ensures WalkRun(WalkRun(t, root, date).tree, root, date) == Run(WalkRun(t, root, date).tree, None)
  {
    var paths := Discover(t, root).value;
    var u := WalkRun(t, root, date).tree;
    FixAllFrame(t, paths, date);
    DiscoverIgnoresMtimes(t, u, root);
    DiscoverOnceEachDescendantsFirst(t, root);
    FixAllSettles(t, paths, date);
    FixAllKeepsSettledTree(u, paths, date);
  }

  /** A discovery error ends the walk before any modification time is
      written. */
  lemma WalkDiscoveryErrorWritesNothing(t: Tree, root: Path, date: Date)
    requires !Listable(t, root) || Discover(t, root).Err?
    ensures WalkRun(t, root, date) == Run(t, Some(Discover(t, root).error))
  {
    DiscoverFailsOnUnlistable(t, root);
  }
}
