/**
  Discovery of every directory below a root: an explicit-stack depth-first
  search that records each popped directory and pushes its subdirectories,
  followed by a reversal so that every directory comes before its ancestors.
 */
module Discovery {
  import opened AbstractFs

  /** The paths of the subdirectories among the listing `es` of `dir`, in
      listing order (entries that fail to read or are not directories are
      dropped). */
  function Subdirs(t: Tree, dir: Path, es: seq<DirEntry>): (cs: seq<Path>)
    ensures forall c :: c in cs ==> IsChild(dir, c) && IsDir(t, c) && Entry(c[|dir|]) in es
    ensures forall e :: e in es && e.Entry? && IsDir(t, dir + [e.name]) ==> dir + [e.name] in cs
  {
    if es == [] then []
    else
      var rest := Subdirs(t, dir, es[1..]);
      assert forall e :: e in es <==> e == es[0] || e in es[1..];
      if es[0].Entry? && IsDir(t, dir + [es[0].name]) then [dir + [es[0].name]] + rest else rest
  }

  /** `name` is listed in `dir` and is a directory. */
  predicate IsSubdir(t: Tree, dir: Path, name: Name) {
    dir in t && Entry(name) in t[dir].entries && IsDir(t, dir + [name])
  }

  /** `q` is reached from `root` by following subdirectory entries. */
  ghost predicate Reachable(t: Tree, root: Path, q: Path) {
    root <= q && forall k :: |root| <= k < |q| ==> IsSubdir(t, q[..k], q[k])
  }

  predicate Distinct(s: seq<Path>) {
    forall i, j :: 0 <= i < j < |s| ==> s[i] != s[j]
  }

  /** No path is preceded by one of its strict descendants. */
  predicate AncestorsFirst(s: seq<Path>) {
    forall i, j :: 0 <= i < j < |s| ==> !(s[j] < s[i])
  }

  /** No path is preceded by one of its strict ancestors. */
  predicate DescendantsFirst(s: seq<Path>) {
    forall i, j :: 0 <= i < j < |s| ==> !(s[i] < s[j])
  }

  function Reverse(s: seq<Path>): (r: seq<Path>)
    ensures |r| == |s|
    ensures forall i :: 0 <= i < |s| ==> r[i] == s[|s| - 1 - i]
  {
    if s == [] then [] else Reverse(s[1..]) + [s[0]]
  }

  /** The nodes at or below `p`: the measure that shrinks from a directory
      to each of its subdirectories. */
  ghost function Subtree(t: Tree, p: Path): set<Path> {
    set q | q in t && p <= q
  }

  lemma SubtreeShrinks(t: Tree, p: Path, c: Path)
    requires p in t && IsChild(p, c)
    ensures |Subtree(t, c)| < |Subtree(t, p)|
  {
    var small, big := Subtree(t, c), Subtree(t, p);
    assert small <= big;
    assert p in big - small;
    assert big == small + (big - small);
    assert |big| == |small| + |big - small|;
  }

  lemma PrefixesCompose(p: Path, cs: seq<Path>, s: seq<Path>)
    requires forall c :: c in cs ==> p <= c
    requires forall x :: x in s ==> exists i :: 0 <= i < |cs| && cs[i] <= x
    ensures forall x :: x in s ==> p <= x
  {
    forall x | x in s ensures p <= x {
      var i :| 0 <= i < |cs| && cs[i] <= x;
      assert cs[i] in cs;
      assert x[..|cs[i]|][..|p|] == x[..|p|];
    }
  }

  /** The order in which the stack pops the directories below `p` when `p`
      is on top: `p` itself, then the subtrees of its subdirectories, the
      last-listed first.  A directory that cannot be listed ends its own
      part. */
  function Order(t: Tree, p: Path): (s: seq<Path>)
    ensures |s| > 0 && s[0] == p
    ensures forall x :: x in s ==> p <= x
    decreases |Subtree(t, p)|, 1, 0
  {
    if Listable(t, p) then
      var cs := Subdirs(t, p, t[p].entries);
      PrefixesCompose(p, cs, Children(t, p, cs));
      [p] + Children(t, p, cs)
    else [p]
  }

  /** The pops for the subdirectories `cs` of `p`, pushed in that order. */
  function Children(t: Tree, p: Path, cs: seq<Path>): (s: seq<Path>)
    requires p in t
    requires forall c :: c in cs ==> IsChild(p, c)
    ensures forall x :: x in s ==> exists i :: 0 <= i < |cs| && cs[i] <= x
    decreases |Subtree(t, p)|, 0, |cs|
  {
    if cs == [] then []
    else
      var c := cs[|cs| - 1];
      SubtreeShrinks(t, p, c);
      var s := Order(t, c) + Children(t, p, cs[..|cs| - 1]);
      assert forall x :: x in Order(t, c) ==> cs[|cs| - 1] <= x;
      s
  }

  /** The pops for an arbitrary stack, whose top is its last element. */
  function Forest(t: Tree, stack: seq<Path>): seq<Path> {
    if stack == [] then [] else Order(t, stack[|stack| - 1]) + Forest(t, stack[..|stack| - 1])
  }

  lemma {:induction false} ChildrenIsForest(t: Tree, p: Path, cs: seq<Path>)
    requires p in t
    requires forall c :: c in cs ==> IsChild(p, c)
    ensures Children(t, p, cs) == Forest(t, cs)
  {
    if cs != [] {
      ChildrenIsForest(t, p, cs[..|cs| - 1]);
    }
  }

  /** Pushing `b` on a stack `a` pops `b`'s subtrees before `a`'s. */
  lemma {:induction false} ForestAppend(t: Tree, a: seq<Path>, b: seq<Path>)
    ensures Forest(t, a + b) == Forest(t, b) + Forest(t, a)
  {
    if b == [] {
      assert a + b == a;
    } else {
      ForestAppend(t, a, b[..|b| - 1]);
      assert (a + b)[..|a + b| - 1] == a + b[..|b| - 1];
    }
  }

  lemma {:induction false} ForestMembers(t: Tree, stack: seq<Path>, x: Path)
    ensures x in Forest(t, stack) <==> exists i :: 0 <= i < |stack| && x in Order(t, stack[i])
  {
    if stack != [] {
      ForestMembers(t, stack[..|stack| - 1], x);
      if x in Forest(t, stack[..|stack| - 1]) {
        var i :| 0 <= i < |stack| - 1 && x in Order(t, stack[..|stack| - 1][i]);
        assert stack[..|stack| - 1][i] == stack[i];
      }
      forall i | 0 <= i < |stack| - 1
        ensures stack[..|stack| - 1][i] == stack[i]
      {
      }
    }
  }

  /** The index of the first path of `s` that cannot be listed. */
  function FirstUnlistable(t: Tree, s: seq<Path>): (r: Option<nat>)
    ensures r.Some? ==> r.value < |s| && !Listable(t, s[r.value])
                        && forall i :: 0 <= i < r.value ==> Listable(t, s[i])
    ensures r.None? ==> forall i :: 0 <= i < |s| ==> Listable(t, s[i])
  {
    if s == [] then None
    else if !Listable(t, s[0]) then Some(0)
    else match FirstUnlistable(t, s[1..])
      case None => None
      case Some(k) => Some(k + 1)
  }

  /** The result of `get_subdirs(root)`: the listing error of the first
      popped directory that cannot be listed, or every popped directory in
      reverse pop order. */
  function Discover(t: Tree, root: Path): Result<seq<Path>> {
    var order := Order(t, root);
    match FirstUnlistable(t, order)
    case Some(i) => Err(Listing(t, order[i]).error)
    case None => Ok(Reverse(order))
  }

  /** `get_subdirs`. */
  method GetSubdirs(fs: FileSystem, root: Path) returns (r: Result<seq<Path>>)
    ensures r == Discover(fs.tree, root)
  {
    var stack := [root];
    var output := [];
    ghost var order := Order(fs.tree, root);
    assert Forest(fs.tree, stack) == order + [];
    while stack != []
      invariant output + Forest(fs.tree, stack) == order
      invariant forall i :: 0 <= i < |output| ==> Listable(fs.tree, output[i])
      decreases |Forest(fs.tree, stack)|
    {
      var curr := stack[|stack| - 1];
      stack := stack[..|stack| - 1];
      assert order == output + Order(fs.tree, curr) + Forest(fs.tree, stack);
      var files := fs.ReadDir(curr);
      if files.Err? {
        assert order[|output|] == curr;
        return Err(files.error);
      }
      assert Listable(fs.tree, curr);
      var subdirs := Subdirs(fs.tree, curr, files.value);
      PopStep(fs.tree, curr, stack);
      output := output + [curr];
      stack := stack + subdirs;
    }
    assert output == order;
    output := Reverse(output);
    return Ok(output);
  }

  /** Popping a listable `curr` records it and pushes its subdirectories. */
  lemma PopStep(t: Tree, curr: Path, stack: seq<Path>)
    requires Listable(t, curr)
    ensures Order(t, curr) + Forest(t, stack)
      == [curr] + Forest(t, stack + Subdirs(t, curr, t[curr].entries))
  {
    var subdirs := Subdirs(t, curr, t[curr].entries);
    ChildrenIsForest(t, curr, subdirs);
    ForestAppend(t, stack, subdirs);
  }

  // ---- The output is the post-order of the tree ----

  /** The post-order of the directories below `p`: the subtrees of its
      subdirectories in listing order, then `p` itself.  A directory that
      cannot be listed has no subtrees. */
  function PostOrder(t: Tree, p: Path): (s: seq<Path>)
    ensures |s| > 0 && s[|s| - 1] == p
    decreases |Subtree(t, p)|, 1, 0
  {
    if Listable(t, p) then PostChildren(t, p, Subdirs(t, p, t[p].entries)) + [p]
    else [p]
  }

  /** The post-orders of the subdirectories `cs` of `p`, one after another. */
  function PostChildren(t: Tree, p: Path, cs: seq<Path>): seq<Path>
    requires p in t
    requires forall c :: c in cs ==> IsChild(p, c)
    decreases |Subtree(t, p)|, 0, |cs|
  {
    if cs == [] then []
    else
      SubtreeShrinks(t, p, cs[|cs| - 1]);
      PostChildren(t, p, cs[..|cs| - 1]) + PostOrder(t, cs[|cs| - 1])
  }

  lemma ReverseAppend(a: seq<Path>, b: seq<Path>)
    ensures Reverse(a + b) == Reverse(b) + Reverse(a)
  {
    var l, r := Reverse(a + b), Reverse(b) + Reverse(a);
    forall i | 0 <= i < |l| ensures l[i] == r[i] {
      if i < |b| {
        assert r[i] == Reverse(b)[i];
      } else {
        assert r[i] == Reverse(a)[i - |b|];
      }
    }
  }

  /** Reversing the pop order below `p` gives the post-order below `p`. */
  lemma {:induction false} ReversedOrderIsPostOrder(t: Tree, p: Path)
    ensures Reverse(Order(t, p)) == PostOrder(t, p)
    decreases |Subtree(t, p)|, 1, 0
  {
    if Listable(t, p) {
      var cs := Subdirs(t, p, t[p].entries);
      ReversedChildren(t, p, cs);
      ReverseAppend([p], Children(t, p, cs));
      assert Reverse([p]) == [p];
    }
  }

  lemma {:induction false} ReversedChildren(t: Tree, p: Path, cs: seq<Path>)
    requires p in t
    requires forall c :: c in cs ==> IsChild(p, c)
    ensures Reverse(Children(t, p, cs)) == PostChildren(t, p, cs)
    decreases |Subtree(t, p)|, 0, |cs|
  {
    if cs != [] {
      var c := cs[|cs| - 1];
      SubtreeShrinks(t, p, c);
      ReversedOrderIsPostOrder(t, c);
      ReversedChildren(t, p, cs[..|cs| - 1]);
      ReverseAppend(Order(t, c), Children(t, p, cs[..|cs| - 1]));
    }
  }

  /** On success `get_subdirs` returns the post-order of the tree below the
      root: each directory right after the subtrees of its subdirectories,
      which follow one another in listing order. */
  lemma DiscoverIsPostOrder(t: Tree, root: Path)
    ensures Discover(t, root).Ok? ==> Discover(t, root).value == PostOrder(t, root)
  {
    ReversedOrderIsPostOrder(t, root);
  }

  // ---- What the pop order contains ----

  lemma ReverseMembers(s: seq<Path>)
    ensures forall x :: x in Reverse(s) <==> x in s
  {
    var r := Reverse(s);
    forall x ensures x in r <==> x in s {
      if x in r {
        var i :| 0 <= i < |r| && r[i] == x;
        assert s[|s| - 1 - i] == x;
      }
      if x in s {
        var i :| 0 <= i < |s| && s[i] == x;
        assert r[|s| - 1 - i] == x;
      }
    }
  }

  lemma ReachableStep(t: Tree, root: Path, q: Path, n: Name)
    requires Reachable(t, root, q) && IsSubdir(t, q, n)
    ensures Reachable(t, root, q + [n])
  {
    var q' := q + [n];
    assert q'[..|q|] == q;
    forall k | |root| <= k < |q'| ensures IsSubdir(t, q'[..k], q'[k]) {
      if k < |q| {
        assert q'[..k] == q[..k] && q'[k] == q[k];
      }
    }
  }

  /** Everything popped below `p` is reachable from `p`. */
  lemma {:induction false} OrderSound(t: Tree, p: Path, x: Path)
    requires x in Order(t, p)
    ensures Reachable(t, p, x)
    decreases |Subtree(t, p)|
  {
    if x != p {
      var cs := Subdirs(t, p, t[p].entries);
      assert x in Children(t, p, cs);
      ChildrenIsForest(t, p, cs);
      ForestMembers(t, cs, x);
      var i :| 0 <= i < |cs| && x in Order(t, cs[i]);
      var c := cs[i];
      assert c in cs;
      SubtreeShrinks(t, p, c);
      OrderSound(t, c, x);
      assert c == p + [c[|p|]];
      ReachableThroughChild(t, p, c, x);
    }
  }

  lemma ReachableThroughChild(t: Tree, p: Path, c: Path, x: Path)
    requires IsChild(p, c) && IsSubdir(t, p, c[|p|]) && Reachable(t, c, x)
    ensures Reachable(t, p, x)
  {
    assert c == p + [c[|p|]];
    assert x[..|c|] == c && c[..|p|] == p;
    assert x[..|c|][..|p|] == x[..|p|];
    forall k | |p| <= k < |x| ensures IsSubdir(t, x[..k], x[k]) {
      if k == |p| {
        assert x[k] == c[|p|];
      }
    }
  }

  /** When every popped directory below `p` can be listed, every directory
      reachable from `p` is popped. */
  lemma {:induction false} OrderComplete(t: Tree, p: Path, x: Path)
    requires Reachable(t, p, x)
    requires forall y :: y in Order(t, p) ==> Listable(t, y)
    ensures x in Order(t, p)
    decreases |x| - |p|
  {
    if |x| == |p| {
      assert x == p;
    } else {
      assert Order(t, p)[0] == p;
      assert Listable(t, p);
      var n := x[|p|];
      assert x[..|p|] == p;
      assert IsSubdir(t, p, n);
      var c := p + [n];
      var cs := Subdirs(t, p, t[p].entries);
      assert Entry(n) in t[p].entries;
      assert c in cs;
      ChildrenIsForest(t, p, cs);
      forall y | y in Order(t, c) ensures y in Order(t, p) {
        var i :| 0 <= i < |cs| && cs[i] == c;
        ForestMembers(t, cs, y);
      }
      assert x[..|p| + 1] == c;
      forall k | |c| <= k < |x| ensures IsSubdir(t, x[..k], x[k]) {
        assert |p| <= k < |x|;
      }
      OrderComplete(t, c, x);
    }
  }

  // ---- The order of the pops ----

  lemma {:induction false} SubdirsDistinct(t: Tree, dir: Path, es: seq<DirEntry>)
    requires DistinctNames(es)
    ensures Distinct(Subdirs(t, dir, es))
  {
    if es != [] {
      assert DistinctNames(es[1..]) by {
        forall i, j | 0 <= i < j < |es[1..]| && es[1..][i].Entry? && es[1..][j].Entry?
          ensures es[1..][i].name != es[1..][j].name
        {
          assert es[1..][i] == es[i + 1] && es[1..][j] == es[j + 1];
        }
      }
      SubdirsDistinct(t, dir, es[1..]);
      var rest := Subdirs(t, dir, es[1..]);
      if es[0].Entry? && IsDir(t, dir + [es[0].name]) {
        var h := dir + [es[0].name];
        assert h !in rest;
        assert Distinct([h] + rest) by {
          forall i, j | 0 <= i < j < |[h] + rest| ensures ([h] + rest)[i] != ([h] + rest)[j] {
            if i == 0 {
              assert ([h] + rest)[j] in rest;
            } else {
              assert ([h] + rest)[i] == rest[i - 1] && ([h] + rest)[j] == rest[j - 1];
            }
          }
        }
      }
    }
  }

  lemma ConcatOrdered(a: seq<Path>, b: seq<Path>)
    requires Distinct(a) && Distinct(b) && AncestorsFirst(a) && AncestorsFirst(b)
    requires forall x, y :: x in a && y in b ==> x != y && !(y < x)
    ensures Distinct(a + b) && AncestorsFirst(a + b)
  {
    var s := a + b;
    forall i, j | 0 <= i < j < |s| ensures s[i] != s[j] && !(s[j] < s[i]) {
      if j < |a| {
        assert s[i] == a[i] && s[j] == a[j];
      } else if i >= |a| {
        assert s[i] == b[i - |a|] && s[j] == b[j - |a|];
      } else {
        assert s[i] in a && s[j] in b;
      }
    }
  }

  lemma SamePrefix(a: Path, b: Path, x: Path)
    requires a <= x && b <= x && |a| == |b|
    ensures a == b
  {
  }

  /** Below one directory, every path is popped once and after all of its
      ancestors. */
  lemma {:induction false} OrderOrdered(t: Tree, p: Path)
    requires WellFormed(t)
    ensures Distinct(Order(t, p)) && AncestorsFirst(Order(t, p))
    decreases |Subtree(t, p)|, 1, 0
  {
    if Listable(t, p) {
      var cs := Subdirs(t, p, t[p].entries);
      SubdirsDistinct(t, p, t[p].entries);
      ChildrenOrdered(t, p, cs);
      var rest := Children(t, p, cs);
      forall x, y | x in [p] && y in rest ensures x != y && !(y < x) {
        var i :| 0 <= i < |cs| && cs[i] <= y;
        assert cs[i] in cs;
      }
      ConcatOrdered([p], rest);
    }
  }

  lemma {:induction false} ChildrenOrdered(t: Tree, p: Path, cs: seq<Path>)
    requires WellFormed(t) && p in t
    requires forall c :: c in cs ==> IsChild(p, c)
    requires Distinct(cs)
    ensures Distinct(Children(t, p, cs)) && AncestorsFirst(Children(t, p, cs))
    decreases |Subtree(t, p)|, 0, |cs|
  {
    if cs != [] {
      var c := cs[|cs| - 1];
      var init := cs[..|cs| - 1];
      assert forall d :: d in init ==> d in cs;
      SubtreeShrinks(t, p, c);
      OrderOrdered(t, c);
      ChildrenOrdered(t, p, init);
      forall x, y | x in Order(t, c) && y in Children(t, p, init) ensures x != y && !(y < x) {
        var i :| 0 <= i < |init| && init[i] <= y;
        assert init[i] == cs[i] && cs[i] != c;
        assert init[i] in cs && c in cs;
        if x == y || y < x {
          SamePrefix(init[i], c, x);
        }
      }
      ConcatOrdered(Order(t, c), Children(t, p, init));
    }
  }

  // ---- Properties of get_subdirs ----

  /** On success the root is the last directory. */
  lemma DiscoverEndsWithRoot(t: Tree, root: Path)
    requires Discover(t, root).Ok?
    ensures |Discover(t, root).value| > 0
    ensures Discover(t, root).value[|Discover(t, root).value| - 1] == root
  {
  }

  /** On success the list holds exactly the directories reachable from the
      root (the root included). */
  lemma DiscoverFindsExactlyTheReachable(t: Tree, root: Path)
    requires Discover(t, root).Ok?
    ensures forall q :: q in Discover(t, root).value <==> Reachable(t, root, q)
  {
    var order := Order(t, root);
    ReverseMembers(order);
    assert forall y :: y in order ==> Listable(t, y);
    forall q ensures q in order <==> Reachable(t, root, q) {
      if q in order {
        OrderSound(t, root, q);
      }
      if Reachable(t, root, q) {
        OrderComplete(t, root, q);
      }
    }
  }

  /** On success every directory occurs once, and before all of its
      ancestors. */
  lemma DiscoverOnceEachDescendantsFirst(t: Tree, root: Path)
    requires WellFormed(t) && Discover(t, root).Ok?
    ensures Distinct(Discover(t, root).value)
    ensures DescendantsFirst(Discover(t, root).value)
  {
    var order := Order(t, root);
    var out := Discover(t, root).value;
    OrderOrdered(t, root);
    forall i, j | 0 <= i < j < |out| ensures out[i] != out[j] && !(out[i] < out[j]) {
      assert out[i] == order[|order| - 1 - i] && out[j] == order[|order| - 1 - j];
    }
  }

  /** On success every subdirectory of a listed directory comes before it:
      when the walk fixes a directory, its subdirectories are already fixed. */
  lemma DiscoverSubdirsBeforeParent(t: Tree, root: Path)
    requires WellFormed(t) && Discover(t, root).Ok?
    ensures var out := Discover(t, root).value;
      forall i, n {:trigger IsSubdir(t, out[i], n)} :: 0 <= i < |out| && IsSubdir(t, out[i], n) ==>
        exists j :: 0 <= j < i && out[j] == out[i] + [n]
  {
    var out := Discover(t, root).value;
    DiscoverFindsExactlyTheReachable(t, root);
    DiscoverOnceEachDescendantsFirst(t, root);
    forall i, n | 0 <= i < |out| && IsSubdir(t, out[i], n)
      ensures exists j :: 0 <= j < i && out[j] == out[i] + [n]
    {
      assert out[i] in out;
      ReachableStep(t, root, out[i], n);
      assert out[i] + [n] in out;
      assert out[i] < out[i] + [n];
      EarlierDescendant(out, i, out[i] + [n]);
    }
  }

  lemma EarlierDescendant(out: seq<Path>, i: nat, c: Path)
    requires DescendantsFirst(out) && i < |out| && out[i] < c && c in out
    ensures exists j :: 0 <= j < i && out[j] == c
  {
    var j :| 0 <= j < |out| && out[j] == c;
    assert out[i] < out[j];
    assert j < i;
  }

  /** On failure the error is that of listing a popped directory that
      cannot be listed; a root that cannot be listed fails at once. */
  lemma DiscoverFailsOnUnlistable(t: Tree, root: Path)
    ensures Discover(t, root).Err? ==>
      exists q :: q in Order(t, root) && !Listable(t, q) && Discover(t, root).error == Listing(t, q).error
    ensures !Listable(t, root) ==> Discover(t, root) == Err(Listing(t, root).error)
    ensures Discover(t, root).Ok? <==> forall q :: Reachable(t, root, q) ==> Listable(t, q)
  {
    var order := Order(t, root);
    if FirstUnlistable(t, order).Some? {
      var i := FirstUnlistable(t, order).value;
      assert order[i] in order;
      OrderSound(t, root, order[i]);
    } else {
      DiscoverFindsExactlyTheReachable(t, root);
      ReverseMembers(order);
    }
  }

  // ---- Discovery does not look at modification times ----

  lemma {:induction false} SubdirsSameShape(t: Tree, u: Tree, dir: Path, es: seq<DirEntry>)
    requires SameShape(t, u)
    ensures Subdirs(t, dir, es) == Subdirs(u, dir, es)
  {
    if es != [] {
      SubdirsSameShape(t, u, dir, es[1..]);
    }
  }

  lemma {:induction false} OrderSameShape(t: Tree, u: Tree, p: Path)
    requires SameShape(t, u)
    ensures Order(t, p) == Order(u, p)
    decreases |Subtree(t, p)|, 1, 0
  {
    if Listable(t, p) {
      SubdirsSameShape(t, u, p, t[p].entries);
      ChildrenSameShape(t, u, p, Subdirs(t, p, t[p].entries));
    }
  }

  lemma {:induction false} ChildrenSameShape(t: Tree, u: Tree, p: Path, cs: seq<Path>)
    requires SameShape(t, u) && p in t
    requires forall c :: c in cs ==> IsChild(p, c)
    ensures Children(t, p, cs) == Children(u, p, cs)
    decreases |Subtree(t, p)|, 0, |cs|
  {
    if cs != [] {
      SubtreeShrinks(t, p, cs[|cs| - 1]);
      OrderSameShape(t, u, cs[|cs| - 1]);
      ChildrenSameShape(t, u, p, cs[..|cs| - 1]);
    }
  }

  /** Discovery gives the same outcome on trees that differ only in
      modification times. */
  lemma DiscoverIgnoresMtimes(t: Tree, u: Tree, root: Path)
    requires SameShape(t, u)
    ensures Discover(t, root) == Discover(u, root)
  {
    OrderSameShape(t, u, root);
  }
}
