/** The recursive Delete of commonlib/common/base/file_util_posix.cc. */
module Delete {
  import opened Wrappers
  import opened FileTree
  import opened Traversal
  import opened FileSystem
  import opened FileEnumeratorPosix

  const ALL := Types(true, true, true)

  /** Nothing at or below `path` is locked or hides entries in a directory that cannot be opened. */
  ghost predicate Deletable(t: Tree, locked: set<Path>, path: Path) {
    forall p :: p in t && path <= p ==> Removable(t, locked, p)
  }

  predicate Removable(t: Tree, locked: set<Path>, p: Path) {
    p !in locked && (IsDirectory(t, p) ==> IsReadable(t, p) || Children(t, p) == {})
  }

  function Plain(t: Tree, paths: seq<Path>): set<Path> {
    set p | p in paths && !IsDirectory(t, p)
  }

  /** The directories, in the order of the walk. */
  function Directories(t: Tree, path: Path, w: seq<Path>): seq<Path> {
    [path] + SelectPushed(t, ALL, w)
  }

  predicate AfterParents(paths: seq<Path>) {
    forall i, j :: 0 <= i < |paths| && 0 <= j < |paths| && ProperlyInside(paths[j], paths[i]) ==> i < j
  }

  lemma InFront(x: Path, more: seq<Path>)
    requires AfterParents(more) && forall y :: y in more ==> !ProperlyInside(x, y)
    ensures AfterParents([x] + more)
  {
    var all := [x] + more;
    forall i, j | 0 <= i < |all| && 0 <= j < |all| && ProperlyInside(all[j], all[i]) ensures i < j {
      assert i > 0 ==> all[i] == more[i - 1] && all[i] in more;
      assert j > 0 ==> all[j] == more[j - 1];
    }
  }

  lemma {:induction false} SelectedAfterParents(t: Tree, w: seq<Path>)
    requires AfterParents(w)
    ensures AfterParents(SelectPushed(t, ALL, w))
  {
    if w != [] {
      assert forall i :: 0 <= i < |w[1..]| ==> w[1..][i] == w[i + 1];
      SelectedAfterParents(t, w[1..]);
      SelectedAre(t, ALL, w[1..]);
      forall y | y in w[1..] ensures !ProperlyInside(w[0], y) {
        var k :| 0 <= k < |w[1..]| && w[1..][k] == y;
        assert w[k + 1] == y;
      }
      if IsDirectory(t, w[0]) {
        InFront(w[0], SelectPushed(t, ALL, w[1..]));
      }
    }
  }

  /** The walk from one directory: what it returns, and the directories among it. */
  ghost predicate WalkedFrom(t: Tree, path: Path, w: seq<Path>) {
    && Distinct(w)
    && (forall p :: p in w <==> Reaches(t, ALL, path, p))
    && Distinct(Directories(t, path, w)) && AfterParents(Directories(t, path, w))
    && (forall p :: p in Directories(t, path, w) <==> p == path || (p in w && IsDirectory(t, p)))
  }

  lemma DirectoriesAre(t: Tree, path: Path, w: seq<Path>)
    requires Distinct(w) && AfterParents(w) && forall p :: p in w ==> ProperlyInside(p, path)
    ensures Distinct(Directories(t, path, w)) && AfterParents(Directories(t, path, w))
    ensures forall p :: p in Directories(t, path, w) <==> p == path || (p in w && IsDirectory(t, p))
  {
    hide SelectPushed, IsDirectory;
    SelectedAre(t, ALL, w);
    SelectedDistinct(t, ALL, w);
    SelectedAfterParents(t, w);
    InFront(path, SelectPushed(t, ALL, w));
    DistinctCons(path, SelectPushed(t, ALL, w));
  }

  lemma WalkIsWalkedFrom(t: Tree, order: Order, path: Path)
    requires WellFormed(t) && IsOrder(order)
    ensures WalkedFrom(t, path, Walk(t, order, ALL, [path]))
  {
    hide Walk, WellFormed, IsOrder, Reaches, Directories;
    var w := Walk(t, order, ALL, [path]);
    WalkMembers(t, order, ALL, [path]);
    WalkIsOrdered(t, order, ALL, [path]);
    forall p ensures p in w <==> Reaches(t, ALL, path, p) {
      assert [path][0] == path;
    }
    forall p | p in w ensures ProperlyInside(p, path) {
      ReachesShape(t, ALL, path, p);
    }
    forall i, j | 0 <= i < |w| && 0 <= j < |w| && ProperlyInside(w[j], w[i]) ensures i < j {
      assert ProperlyInside(Parent(w[j]), Parent(w[i]));
    }
    DirectoriesAre(t, path, w);
  }

  /** If every directory that was met can be looked into or is empty, everything was met. */
  lemma {:induction false} EverythingIsMet(t: Tree, path: Path, w: seq<Path>, p: Path)
    requires WellFormed(t) && WalkedFrom(t, path, w)
    requires forall d :: d in Directories(t, path, w) ==> IsReadable(t, d) || Children(t, d) == {}
    requires p in t && path <= p && p != path
    ensures p in w
    decreases |p|
  {
    var d := Parent(p);
    assert path <= d;
    assert IsDirectory(t, d);
    if d != path {
      EverythingIsMet(t, path, w, d);
    }
    ChildrenIff(t, d, p[|p| - 1]);
    ChildIff(p, d, p[|p| - 1]);
    assert d in Directories(t, path, w);
    assert IsReadable(t, d);
    forall k | |path| <= k < |p| ensures IsReadable(t, p[..k]) {
      if k < |d| {
        assert p[..k] == d[..k];
        assert Reaches(t, ALL, path, d);
      } else {
        assert p[..k] == d;
      }
    }
    assert Reaches(t, ALL, path, p);
  }

  /** When the files and all later directories are gone, a directory is empty unless it hides entries. */
  lemma EmptyWhenReached(t: Tree, path: Path, w: seq<Path>, m: nat)
    requires WellFormed(t) && WalkedFrom(t, path, w)
    requires m < |Directories(t, path, w)|
    ensures var dirs := Directories(t, path, w);
            var u := t - Plain(t, w) - Set(dirs[m + 1..]);
            Children(u, dirs[m]) == {} <==> IsReadable(t, dirs[m]) || Children(t, dirs[m]) == {}
  {
    var dirs := Directories(t, path, w);
    var d := dirs[m];
    assert d in dirs;
    var u := t - Plain(t, w) - Set(dirs[m + 1..]);
    forall n ensures n in Children(u, d) <==> n in Children(t, d) && !IsReadable(t, d) {
      ChildrenIff(t, d, n);
      ChildrenIff(u, d, n);
      var c := d + [n];
      if c in t {
        ChildIff(c, d, n);
        ReachesChild(t, path, d, c);
        assert d == path || Reaches(t, ALL, path, d);
        if c in dirs {
          var j :| 0 <= j < |dirs| && dirs[j] == c;
          assert ProperlyInside(dirs[j], dirs[m]);
          assert dirs[m + 1..][j - m - 1] == c;
        }
      }
    }
    if Children(u, d) == {} && !IsReadable(t, d) {
      assert forall n :: n in Children(t, d) ==> n in Children(u, d);
    }
  }

  function Set(paths: seq<Path>): set<Path> {
    set p | p in paths
  }

  lemma ReachesChild(t: Tree, path: Path, d: Path, c: Path)
    requires c in t && IsChildOf(c, d) && path <= d && (d == path || Reaches(t, ALL, path, d))
    ensures Reaches(t, ALL, path, c) <==> IsReadable(t, d)
  {
    assert c[..|d|] == d;
    forall k | |path| <= k < |d| ensures c[..k] == d[..k] {
    }
    if IsReadable(t, d) {
      forall k | |path| <= k < |c| ensures IsReadable(t, c[..k]) {
        assert k == |d| || c[..k] == d[..k];
      }
    }
  }

  // ----- The two loops -----

  /** Only entries at or below `path` are missing, and no entry is new or changed. */
  ghost predicate Shrunk(t: Tree, u: Tree, path: Path) {
    && (forall p :: p in u ==> p in t && u[p] == t[p])
    && (forall p :: p in t && !(path <= p) ==> p in u)
  }

  function Pruned(t: Tree, path: Path): Tree {
    map p | p in t && !(path <= p) :: t[p]
  }

  predicate Unlinkable(t: Tree, locked: set<Path>, paths: seq<Path>) {
    forall p :: p in paths && !IsDirectory(t, p) ==> p !in locked
  }

  lemma OneMore(t: Tree, locked: set<Path>, path: Path, done: seq<Path>, p: Path)
    ensures Unlinkable(t, locked, done + [p]) <==> Unlinkable(t, locked, done) && (IsDirectory(t, p) || p !in locked)
    ensures Plain(t, done + [p]) == Plain(t, done) + (if IsDirectory(t, p) then {} else {p})
    ensures Directories(t, path, done + [p]) == Directories(t, path, done) + (if IsDirectory(t, p) then [p] else [])
  {
    SelectionOfOneMore(t, ALL, done, p);
  }

  /** The state of the first loop after the entries in `done`. */
  ghost predicate Unlinking(traversal: FileEnumerator, t: Tree, w: seq<Path>, path: Path, done: seq<Path>,
                            current: Option<Path>, success: bool, directories: seq<Path>)
    reads traversal, traversal.fs
  {
    var fs := traversal.fs;
    && traversal.Valid() && traversal.types == ALL
    && w == done + (Pending(current) + traversal.Remaining())
    && (current.None? ==> traversal.Remaining() == [])
    && (success && current.Some? ==>
          traversal.currentEntry < |traversal.entries|
          && EntryOk(fs.tree, current.value, traversal.entries[traversal.currentEntry].kind, traversal.pending))
    && Shrunk(t, fs.tree, path)
    && Progress(t, fs.locked, path, done, success, directories, fs.tree)
  }

  ghost predicate Progress(t: Tree, locked: set<Path>, path: Path, done: seq<Path>, success: bool,
                           directories: seq<Path>, u: Tree) {
    && (success <==> Unlinkable(t, locked, done))
    && (success ==> u == t - Plain(t, done) && directories == Directories(t, path, done))
    && (!success ==> done != [] && StoppedAt(t, locked, done, |done| - 1, u))
  }

  /** The files before this entry are gone, and it is a file that is locked. */
  ghost predicate StoppedAt(t: Tree, locked: set<Path>, w: seq<Path>, k: nat, u: Tree) {
    && k < |w| && !IsDirectory(t, w[k]) && w[k] in locked
    && Unlinkable(t, locked, w[..k]) && u == t - Plain(t, w[..k])
  }

  lemma DirectoryStacked(t: Tree, locked: set<Path>, path: Path, done: seq<Path>, p: Path, directories: seq<Path>,
                         u: Tree)
    requires Progress(t, locked, path, done, true, directories, u) && IsDirectory(t, p)
    ensures Progress(t, locked, path, done + [p], true, directories + [p], u)
  {
    hide Plain, Directories, Unlinkable;
    OneMore(t, locked, path, done, p);
    assert Plain(t, done) + {} == Plain(t, done);
  }

  lemma FileTried(t: Tree, locked: set<Path>, path: Path, done: seq<Path>, p: Path, directories: seq<Path>, u: Tree,
                  ok: bool)
    requires Progress(t, locked, path, done, true, directories, u) && !IsDirectory(t, p) && (ok <==> p !in locked)
    ensures Progress(t, locked, path, done + [p], ok, directories, if ok then u - {p} else u)
  {
    hide Plain, Directories, Unlinkable;
    OneMore(t, locked, path, done, p);
    assert directories + [] == directories;
    assert (t - Plain(t, done)) - {p} == t - (Plain(t, done) + {p});
    assert (done + [p])[..|done|] == done;
  }

  /** The body of the first loop, and its step to the next entry. */
  method UnlinkOne(fs: FileSystem, traversal: FileEnumerator, ghost t: Tree, ghost w: seq<Path>, ghost path: Path,
                   ghost done: seq<Path>, current: Path, directories: seq<Path>)
    returns (success: bool, moreDirectories: seq<Path>, next: Option<Path>)
    requires traversal.fs == fs && Unlinking(traversal, t, w, path, done, Some(current), true, directories)
    requires Distinct(w) && forall p :: p in w ==> path <= p
    modifies fs`tree, traversal
    ensures Unlinking(traversal, t, w, path, done + [current], next, success, moreDirectories)
  {
    hide Walk, WellFormed, IsOrder, Directories, Plain, EntriesOk, Apart, FileEnumerator.Remaining,
      IsPending, Paths, EntryOk, Shrunk, Narrowed, FileSystem.NeverFails, Progress;
    var info := traversal.GetFindInfo();
    EntryIs(t, fs.tree, path, current, info, traversal.pending);
    if info.Directory? {
      DirectoryStacked(t, fs.locked, path, done, current, directories, fs.tree);
      success, moreDirectories := true, directories + [current];
    } else {
      moreDirectories := directories;
      ghost var u := fs.tree;
      success := UnlinkEntry(fs, traversal, t, w, done, path, current);
      FileTried(t, fs.locked, path, done, current, directories, u, success);
    }
    ghost var more := traversal.Remaining();
    Regrouped(done, [current], more);
    next := traversal.Next();
    assert more == Pending(next) + traversal.Remaining();
  }

  lemma UnlinkingStarts(traversal: FileEnumerator, t: Tree, path: Path, w: seq<Path>, current: Option<Path>)
    requires traversal.Valid() && traversal.types == ALL && traversal.fs.tree == t
    requires w == Pending(current) + traversal.Remaining() && (current.None? ==> traversal.Remaining() == [])
    requires current.Some? ==>
               traversal.currentEntry < |traversal.entries|
               && EntryOk(t, current.value, traversal.entries[traversal.currentEntry].kind, traversal.pending)
    ensures Unlinking(traversal, t, w, path, [], current, true, [path])
  {
    hide FileEnumerator.Remaining, FileEnumerator.Valid, Plain, Directories, Unlinkable, EntryOk, Shrunk;
    NothingDone(t, traversal.fs.locked, path);
    NothingLost(t, path);
    assert t - {} == t;
    assert w == [] + w;
  }

  lemma UnlinkingEnds(traversal: FileEnumerator, t: Tree, w: seq<Path>, path: Path, done: seq<Path>, current: Option<Path>,
                      success: bool, directories: seq<Path>)
    requires Unlinking(traversal, t, w, path, done, current, success, directories) && (success ==> current.None?)
    ensures traversal.Valid() && Shrunk(t, traversal.fs.tree, path)
    ensures success <==> Unlinkable(t, traversal.fs.locked, w)
    ensures success ==> traversal.fs.tree == t - Plain(t, w) && directories == Directories(t, path, w)
    ensures !success ==> exists k: nat :: StoppedAt(t, traversal.fs.locked, w, k, traversal.fs.tree)
  {
    if !success {
      var k := |done| - 1;
      assert done[..k] == w[..k] && done[k] == w[k];
      assert StoppedAt(t, traversal.fs.locked, w, k, traversal.fs.tree);
    }
    hide StoppedAt, FileEnumerator.Remaining, FileEnumerator.Valid, Plain, Directories, Unlinkable, EntryOk, Shrunk;
    assert success ==> w == done;
  }

  lemma UnlinkingIsBounded(traversal: FileEnumerator, t: Tree, w: seq<Path>, path: Path, done: seq<Path>,
                           current: Option<Path>, success: bool, directories: seq<Path>)
    requires Unlinking(traversal, t, w, path, done, current, success, directories)
    ensures |done| + |Pending(current)| <= |w|
  {
  }

  /** The first loop: removes what is no directory, and stacks up the directories. */
  method UnlinkFiles(fs: FileSystem, path: Path) returns (success: bool, directories: seq<Path>)
    requires fs.Valid()
    modifies fs`tree
    ensures fs.Valid() && Shrunk(old(fs.tree), fs.tree, path)
    ensures var t, w := old(fs.tree), old(Walk(fs.tree, fs.order, ALL, [path]));
            && (success <==> Unlinkable(t, fs.locked, w))
            && (success ==> fs.tree == t - Plain(t, w) && directories == Directories(t, path, w))
            && (!success ==> exists k: nat :: StoppedAt(t, fs.locked, w, k, fs.tree))
  {
    hide Walk, WellFormed, IsOrder, Reaches, Directories, Plain, FileEnumerator.Remaining, IsPending, Paths, Unlinkable,
      StoppedAt, WalkedFrom, EntryOk, EntriesOk, Shrunk, Narrowed, Unlinking, FileSystem.NeverFails;
    ghost var t, w := fs.tree, Walk(fs.tree, fs.order, ALL, [path]);
    WalkIsWalkedFrom(t, fs.order, path);
    AllBelow(t, path, w);
    ghost var done: seq<Path> := [];
    success, directories := true, [path];
    var traversal := new FileEnumerator(fs, path, ALL);
    ghost var more := traversal.Remaining();
    var current := traversal.Next();
    assert more == Pending(current) + traversal.Remaining();
    UnlinkingStarts(traversal, t, path, w, current);
    while success && current.Some?
      invariant traversal.fs == fs && fresh(traversal)
      invariant Unlinking(traversal, t, w, path, done, current, success, directories)
      decreases |w| - |done|
    {
      ghost var was := current.value;
      UnlinkingIsBounded(traversal, t, w, path, done, current, success, directories);
      success, directories, current := UnlinkOne(fs, traversal, t, w, path, done, current.value, directories);
      done := done + [was];
    }
    UnlinkingEnds(traversal, t, w, path, done, current, success, directories);
  }

  lemma NothingLost(t: Tree, path: Path)
    ensures Shrunk(t, t, path)
  {
  }

  lemma AllBelow(t: Tree, path: Path, w: seq<Path>)
    requires WalkedFrom(t, path, w)
    ensures Distinct(w) && forall p :: p in w ==> path <= p
  {
    forall p | p in w ensures path <= p {
      ReachesShape(t, ALL, path, p);
    }
  }

  lemma EntryIs(t: Tree, u: Tree, path: Path, p: Path, kind: Kind, pending: seq<Path>)
    requires Shrunk(t, u, path) && EntryOk(u, p, kind, pending)
    ensures IsDirectory(t, p) <==> kind.Directory?
  {
  }

  lemma NothingDone(t: Tree, locked: set<Path>, path: Path)
    ensures Unlinkable(t, locked, [])
    ensures Plain(t, []) == {} && Directories(t, path, []) == [path]
  {
  }

  /** One unlink() in the middle of the traversal, which it does not disturb. */
  method UnlinkEntry(fs: FileSystem, traversal: FileEnumerator, ghost t: Tree, ghost w: seq<Path>,
                     ghost done: seq<Path>, ghost path: Path, current: Path)
    returns (ok: bool)
    requires fs.Valid() && traversal.Valid() && traversal.fs == fs && traversal.types == ALL
    requires Distinct(w) && w == done + ([current] + traversal.Remaining())
    requires traversal.currentEntry < |traversal.entries|
    requires var kind := traversal.entries[traversal.currentEntry].kind;
             !kind.Directory? && EntryOk(fs.tree, current, kind, traversal.pending)
    requires Shrunk(t, fs.tree, path) && forall p :: p in w ==> path <= p
    modifies fs`tree
    ensures fs.Valid() && traversal.Valid() && traversal.Remaining() == old(traversal.Remaining())
    ensures ok <==> current !in fs.locked
    ensures fs.tree == if ok then old(fs.tree) - {current} else old(fs.tree)
    ensures Shrunk(t, fs.tree, path) && !IsDirectory(t, current)
  {
    hide Walk, WellFormed, IsOrder, IsPending, Apart, Paths;
    ghost var rest := Paths(traversal.root, traversal.Rest());
    ghost var more := Walk(fs.tree, fs.order, ALL, traversal.pending);
    NotAgain(done, current, rest, more, w);
    assert current in fs.tree && path <= current;
    ok := fs.Unlink(current);
    if ok {
      RestSurvives(old(fs.tree), fs.tree, current, fs.order, ALL, traversal.root, traversal.Rest(), traversal.pending);
    }
  }

  predicate Empties(t: Tree, locked: set<Path>, d: Path) {
    d !in locked && (IsReadable(t, d) || Children(t, d) == {})
  }

  predicate EmptiesAll(t: Tree, locked: set<Path>, dirs: seq<Path>) {
    forall d :: d in dirs ==> Empties(t, locked, d)
  }

  /** The directories behind this one are gone, and it does not go. */
  ghost predicate StuckAt(t: Tree, locked: set<Path>, dirs: seq<Path>, m: nat, before: Tree, after: Tree) {
    && m < |dirs| && !Empties(t, locked, dirs[m]) && EmptiesAll(t, locked, dirs[m + 1..])
    && after == before - Set(dirs[m + 1..])
  }

  lemma OneMoreBefore(t: Tree, locked: set<Path>, dirs: seq<Path>, m: nat)
    requires m < |dirs|
    ensures Set(dirs[m..]) == Set(dirs[m + 1..]) + {dirs[m]}
    ensures EmptiesAll(t, locked, dirs[m..]) <==> EmptiesAll(t, locked, dirs[m + 1..]) && Empties(t, locked, dirs[m])
  {
    hide Empties;
    assert dirs[m..] == [dirs[m]] + dirs[m + 1..];
  }

  lemma StillThere(t: Tree, path: Path, w: seq<Path>, m: nat)
    requires WalkedFrom(t, path, w) && IsDirectory(t, path) && m < |Directories(t, path, w)|
    ensures var dirs := Directories(t, path, w);
            IsDirectory(t - Plain(t, w) - Set(dirs[m + 1..]), dirs[m]) && path <= dirs[m]
  {
    var dirs := Directories(t, path, w);
    assert dirs[m] in dirs;
    assert dirs[m] !in dirs[m + 1..];
    if dirs[m] != path {
      ReachesShape(t, ALL, path, dirs[m]);
    }
  }

  /** The second loop: removes the directories, the last one first; each of them is empty by then. */
  method RemoveDirectories(fs: FileSystem, directories: seq<Path>, ghost t: Tree, ghost w: seq<Path>, ghost path: Path)
    returns (success: bool)
    requires fs.Valid() && WellFormed(t) && IsDirectory(t, path) && WalkedFrom(t, path, w)
    requires directories == Directories(t, path, w) && fs.tree == t - Plain(t, w) && Shrunk(t, fs.tree, path)
    modifies fs`tree
    ensures fs.Valid() && Shrunk(t, fs.tree, path)
    ensures success <==> EmptiesAll(t, fs.locked, directories)
    ensures success ==> fs.tree == t - Plain(t, w) - Set(directories)
    ensures !success ==> exists m: nat :: StuckAt(t, fs.locked, directories, m, t - Plain(t, w), fs.tree)
  {
    hide WellFormed, IsOrder, WalkedFrom, Directories, Plain, Children, EmptiesAll, Set;
    var stack := directories;
    success := true;
    assert directories[|directories|..] == [];
    NothingRemoved(t, fs.locked);
    while success && stack != []
      invariant fs.Valid() && Shrunk(t, fs.tree, path)
      invariant |stack| <= |directories| && stack == directories[..|stack|]
      invariant success <==> EmptiesAll(t, fs.locked, directories[|stack|..])
      invariant success ==> fs.tree == t - Plain(t, w) - Set(directories[|stack|..])
      invariant !success ==> StuckAt(t, fs.locked, directories, |stack|, t - Plain(t, w), fs.tree)
      decreases |stack|
    {
      var dir := stack[|stack| - 1];
      ghost var m := |stack| - 1;
      stack := stack[..|stack| - 1];
      EmptyWhenReached(t, path, w, m);
      StillThere(t, path, w, m);
      OneMoreBefore(t, fs.locked, directories, m);
      success := fs.Rmdir(dir);
    }
    if !success {
      SomeFail(t, fs.locked, directories, |stack|);
    } else {
      assert directories[0..] == directories;
    }
  }

  lemma NothingRemoved(t: Tree, locked: set<Path>)
    ensures Set([]) == {} && EmptiesAll(t, locked, [])
  {
  }

  lemma SomeFail(t: Tree, locked: set<Path>, dirs: seq<Path>, m: nat)
    requires m <= |dirs| && !EmptiesAll(t, locked, dirs[m..])
    ensures !EmptiesAll(t, locked, dirs)
  {
    var d :| d in dirs[m..] && !Empties(t, locked, d);
    assert d in dirs;
  }

  lemma DeletableIff(t: Tree, locked: set<Path>, path: Path, w: seq<Path>)
    requires WellFormed(t) && IsDirectory(t, path) && WalkedFrom(t, path, w)
    ensures Deletable(t, locked, path) <==> Unlinkable(t, locked, w) && EmptiesAll(t, locked, Directories(t, path, w))
    ensures Deletable(t, locked, path) ==> t - Plain(t, w) - Set(Directories(t, path, w)) == Pruned(t, path)
  {
    hide Children, Directories, Reaches, WellFormed;
    var dirs := Directories(t, path, w);
    forall p | p in w ensures p in t && path <= p {
      ReachesMeans(t, path, p);
    }
    if Deletable(t, locked, path) {
      forall d | d in dirs ensures Empties(t, locked, d) {
        assert Removable(t, locked, d);
      }
      forall p | p in w ensures p !in locked {
        assert Removable(t, locked, p);
      }
    }
    if Unlinkable(t, locked, w) && EmptiesAll(t, locked, dirs) {
      forall p | p in t && path <= p ensures Removable(t, locked, p) && (p in dirs || p in Plain(t, w)) {
        if p != path {
          EverythingIsMet(t, path, w, p);
        }
        assert p in dirs ==> Empties(t, locked, p);
      }
    }
  }

  lemma ReachesMeans(t: Tree, path: Path, p: Path)
    requires Reaches(t, ALL, path, p)
    ensures p in t && path <= p
  {
  }

  // ----- Delete -----

  lemma NothingBelow(t: Tree, path: Path)
    requires WellFormed(t) && !IsDirectory(t, path)
    ensures forall p :: p in t && path <= p ==> p == path
    ensures Children(t, path) == {}
  {
    forall p | p in t && path <= p ensures p == path {
      AncestorsExist(t, path, p);
    }
  }

  lemma NothingBelowEmpty(t: Tree, path: Path)
    requires WellFormed(t) && Children(t, path) == {}
    ensures forall p :: p in t && path <= p ==> p == path
  {
    hide WellFormed, Children;
    forall p | p in t && path <= p ensures p == path {
      if p != path {
        var c := p[..|path| + 1];
        AncestorsExist(t, c, p);
        assert Parent(c) == path;
        HasChild(t, path, c);
      }
    }
  }

  /**
   Succeeds exactly when nothing at or below `path` resists; then all of that is gone, and nothing
   else. If a recursive call fails it has stopped at the first file of the walk that is locked, or,
   all files being gone, at the last directory of the walk that does not go; any other call that
   fails has changed nothing.
   */
  method Delete(fs: FileSystem, path: Path, recursive: bool) returns (ok: bool)
    requires fs.Valid()
    modifies fs`tree
    ensures fs.Valid()
    ensures ok <==> Deletable(old(fs.tree), fs.locked, path) && (recursive || Children(old(fs.tree), path) == {})
    ensures ok ==> fs.tree == Pruned(old(fs.tree), path)
    ensures Shrunk(old(fs.tree), fs.tree, path)
    ensures !ok && !(recursive && IsDirectory(old(fs.tree), path)) ==> fs.tree == old(fs.tree)
    ensures !ok && recursive && IsDirectory(old(fs.tree), path) ==>
              var t, w := old(fs.tree), old(Walk(fs.tree, fs.order, ALL, [path]));
              || (exists k: nat :: StoppedAt(t, fs.locked, w, k, fs.tree))
              || (Unlinkable(t, fs.locked, w)
                  && exists m: nat :: StuckAt(t, fs.locked, Directories(t, path, w), m, t - Plain(t, w), fs.tree))
  {
    hide Walk, IsOrder, WellFormed, Children, WalkedFrom, Directories, StoppedAt, StuckAt, Unlinkable, EmptiesAll;
    ghost var t := fs.tree;
    var info := fs.Lstat(path);
    if info.None? {
      NothingBelow(t, path);
      return true;
    }
    if !info.value.Directory? {
      NothingBelow(t, path);
      ok := fs.Unlink(path);
      return;
    }
    if !recursive {
      if Children(t, path) == {} {
        NothingBelowEmpty(t, path);
      }
      ok := fs.Rmdir(path);
      return;
    }
    ghost var w := Walk(t, fs.order, ALL, [path]);
    WalkIsWalkedFrom(t, fs.order, path);
    DeletableIff(t, fs.locked, path, w);
    var directories;
    ok, directories := UnlinkFiles(fs, path);
    if ok {
      ok := RemoveDirectories(fs, directories, t, w, path);
    }
  }
}
