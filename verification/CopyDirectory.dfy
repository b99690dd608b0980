/** CopyDirectory of commonlib/common/base/file_util_posix.cc. */
module CopyDirectory {
  import opened Wrappers
  import opened FileTree
  import opened Traversal
  import opened FileSystem
  import opened FileEnumeratorPosix
  import opened ByteCopy

  const PATH_MAX := 4096

  function Lookup(t: Tree, p: Path): Option<Kind> {
    if p in t then Some(t[p]) else None
  }

  // ----- Where the copies go -----

  /** What one call copies: where the source lies in the tree, and how its paths become targets. */
  datatype Plan = Plan(t: Tree, types: Types, from: Path, base: Path, to: Path)

  function Target(c: Plan, p: Path): Path
    requires c.base <= p
  {
    c.to + p[|c.base|..]
  }

  function Origin(c: Plan, q: Path): Path
    requires c.to <= q
  {
    c.base + q[|c.to|..]
  }

  /** A copy of one of these source paths would be put here. */
  predicate IsImage(c: Plan, sources: seq<Path>, q: Path) {
    c.to <= q && Origin(c, q) in sources
  }

  ghost predicate Sound(c: Plan) {
    && WellFormed(c.t) && c.from in c.t && !(c.from <= c.to)
    && c.types.files && (c.types.directories <==> c.types.recursive)
    && (c.base == c.from || (c.from != [] && c.base == Parent(c.from) && c.types.recursive))
    && c.base <= c.from
    && (c.types.recursive ==> !ProperlyInside(c.from, Target(c, c.from)))
  }

  lemma OriginOfTarget(c: Plan, p: Path)
    requires c.base <= p
    ensures c.to <= Target(c, p) && Origin(c, Target(c, p)) == p
  {
  }

  lemma TargetOfOrigin(c: Plan, q: Path)
    requires c.to <= q
    ensures c.base <= Origin(c, q) && Target(c, Origin(c, q)) == q
  {
  }

  lemma TargetOfParent(c: Plan, p: Path)
    requires c.base <= p && |c.base| < |p|
    ensures c.base <= Parent(p) && Target(c, p) != [] && Target(c, Parent(p)) == Parent(Target(c, p))
  {
    assert c.base <= Parent(p);
    assert p[|c.base|..] == Parent(p)[|c.base|..] + [p[|p| - 1]];
  }

  lemma BelowTheRoot(c: Plan, p: Path)
    requires c.base <= c.from && c.from <= p
    ensures c.base <= p && Target(c, c.from) <= Target(c, p)
    ensures Target(c, p) == Target(c, c.from) + p[|c.from|..]
    ensures c.to <= Target(c, c.from) && |Target(c, c.from)| == |c.to| + |c.from| - |c.base|
  {
    assert p[|c.base|..] == c.from[|c.base|..] + p[|c.from|..];
  }

  /** A copy that falls into the source falls onto its own original, or onto the source itself. */
  lemma Landing(c: Plan, p: Path)
    requires Sound(c) && c.from <= p && (c.types.recursive || |p| <= |c.from| + 1)
    ensures c.base <= p
    ensures c.from <= Target(c, p) ==> Target(c, p) == p || (Target(c, p) == c.from && p != c.from && !c.types.recursive)
  {
    hide WellFormed, Target;
    BelowTheRoot(c, p);
    var q, root := Target(c, p), Target(c, c.from);
    if c.from <= q {
      if |c.from| <= |root| {
        assert root == c.from;
        assert p == c.from + p[|c.from|..];
      } else {
        assert ProperlyInside(c.from, root);
        assert !c.types.recursive;
      }
    }
  }

  // ----- What is copied -----

  ghost function All(c: Plan, order: Order): seq<Path>
    requires WellFormed(c.t) && IsOrder(order)
  {
    [c.from] + Walk(c.t, order, c.types, [c.from])
  }

  /** The source itself, then entries below it, each once and after the directory that holds it. */
  ghost predicate Listed(c: Plan, all: seq<Path>) {
    && Distinct(all) && all != [] && all[0] == c.from
    && (forall i :: 0 <= i < |all| ==> all[i] in c.t && c.from <= all[i] && (c.types.recursive || |all[i]| <= |c.from| + 1))
    && (forall i :: 0 < i < |all| ==> |c.from| < |all[i]| && HeldBefore(c, all, i))
  }

  predicate HeldBefore(c: Plan, all: seq<Path>, i: nat)
    requires i < |all| && all[i] != []
  {
    Parent(all[i]) in all[..i] && IsDirectory(c.t, Parent(all[i]))
  }

  lemma ReachesFrom(t: Tree, types: Types, from: Path, p: Path)
    requires Reaches(t, types, from, p)
    ensures p in t && ProperlyInside(p, from) && (types.recursive || |p| == |from| + 1)
    ensures IsDirectory(t, Parent(p)) && (Parent(p) == from || (types.recursive && Reaches(t, types, from, Parent(p))))
  {
    var d := Parent(p);
    assert IsReadable(t, p[..|p| - 1]);
    forall k | |from| <= k < |d| ensures IsReadable(t, d[..k]) {
      assert d[..k] == p[..k];
    }
    assert d == from || |from| < |d|;
  }

  lemma WalkIsListed(c: Plan, order: Order)
    requires Sound(c) && IsOrder(order)
    ensures Listed(c, All(c, order))
  {
    hide Walk, WellFormed, IsOrder, Reaches, IsDirectory;
    var w := Walk(c.t, order, c.types, [c.from]);
    var all := All(c, order);
    WalkMembers(c.t, order, c.types, [c.from]);
    WalkIsOrdered(c.t, order, c.types, [c.from]);
    assert [c.from][0] == c.from;
    forall p ensures p in w <==> Wanted(c.t, c.types, p) && Reaches(c.t, c.types, c.from, p) {
    }
    forall p | p in w ensures ProperlyInside(p, c.from) {
      ReachesFrom(c.t, c.types, c.from, p);
    }
    DistinctCons(c.from, w);
    forall i | 0 < i < |all|
      ensures all[i] in c.t && ProperlyInside(all[i], c.from) && (c.types.recursive || |all[i]| <= |c.from| + 1)
      ensures HeldBefore(c, all, i)
    {
      var p := all[i];
      assert p == w[i - 1] && p in w;
      ReachesFrom(c.t, c.types, c.from, p);
      if Parent(p) == c.from {
        assert all[..i][0] == c.from;
      } else {
        assert Wanted(c.t, c.types, Parent(p));
        assert Parent(p) in w;
        var j :| 0 <= j < |w| && w[j] == Parent(p);
        assert ProperlyInside(Parent(w[i - 1]), Parent(w[j]));
        assert all[..i][j + 1] == Parent(p);
      }
    }
  }

  // ----- What the tree becomes -----

  /** What the copy of `p` leaves at `q`. */
  function Copy(c: Plan, p: Path, q: Path): Option<Kind> {
    match Lookup(c.t, p)
      // mkdir() fails on what is already there, and that counts as success
    case Some(Directory(readable)) => if q in c.t then Lookup(c.t, q) else Some(Directory(readable))
    case Some(Regular(bytes)) => Some(Regular(if p == q then [] else bytes))
    case _ => Lookup(c.t, q)
  }

  function Expected(c: Plan, done: seq<Path>, q: Path): Option<Kind> {
    if IsImage(c, done, q) then Copy(c, Origin(c, q), q) else Lookup(c.t, q)
  }

  ghost predicate Agrees(c: Plan, done: seq<Path>, u: Tree) {
    forall q :: Lookup(u, q) == Expected(c, done, q)
  }

  /** The directory for the copy of `p` exists, or is made on the way. */
  predicate GetsPlace(c: Plan, locked: set<Path>, p: Path)
    requires c.base <= p
  {
    var q := Target(c, p);
    && q != [] && !IsDots(q[|q| - 1]) && q !in locked
    && (if p == c.from then IsDirectory(c.t, Parent(q)) else Parent(q) in c.t ==> IsDirectory(c.t, Parent(q)))
  }

  predicate Placeable(c: Plan, locked: set<Path>, p: Path)
    requires c.base <= p && p in c.t
  {
    var q := Target(c, p);
    match c.t[p]
    case Directory(_) => q in c.t || GetsPlace(c, locked, p)
    case Regular(_) => GetsPlace(c, locked, p) && (q in c.t ==> c.t[q].Regular?)
    case Special => true
  }

  ghost predicate AllPlaceable(c: Plan, locked: set<Path>, sources: seq<Path>)
  {
    forall p :: p in sources ==> c.base <= p && p in c.t && Placeable(c, locked, p)
  }

  predicate PlaceableNow(u: Tree, locked: set<Path>, q: Path, kind: Kind) {
    match kind
    case Directory(_) => q in u || HasPlace(u, locked, q)
    case Regular(_) => Creatable(u, locked, q)
    case Special => true
  }

  function PlaceNow(u: Tree, p: Path, q: Path, kind: Kind): Tree {
    match kind
    case Directory(_) => if q in u then u else u[q := kind]
    case Regular(bytes) => u[q := Regular(if p == q then [] else bytes)]
    case Special => u
  }

  lemma InPlan(c: Plan, all: seq<Path>, k: nat)
    requires Sound(c) && Listed(c, all) && k < |all|
    ensures c.base <= all[k] && all[k] in c.t && Lookup(c.t, all[k]) == Some(c.t[all[k]])
    ensures c.from <= all[k] && (c.types.recursive || |all[k]| <= |c.from| + 1)
    ensures all[k] !in all[..k] && all[k] in all
    ensures k > 0 ==> |c.base| < |all[k]| && all[k] != c.from && HeldBefore(c, all, k)
    ensures k == 0 ==> all[k] == c.from
  {
  }

  /** Every mkdir() and every file copy happens when the directory above its target exists. */
  lemma ParentExistsByThen(c: Plan, locked: set<Path>, all: seq<Path>, k: nat, u: Tree)
    requires Sound(c) && Listed(c, all) && k < |all| && Agrees(c, all[..k], u)
    ensures c.base <= all[k] && all[k] in c.t && Lookup(u, Target(c, all[k])) == Lookup(c.t, Target(c, all[k]))
    ensures PlaceableNow(u, locked, Target(c, all[k]), c.t[all[k]]) <==> Placeable(c, locked, all[k])
  {
    hide Sound, Listed, Target, Origin, IsDots;
    InPlan(c, all, k);
    var p := all[k];
    var q := Target(c, p);
    OriginOfTarget(c, p);
    assert Lookup(u, q) == Expected(c, all[..k], q);
    if k > 0 {
      var d := Parent(p);
      TargetOfParent(c, p);
      OriginOfTarget(c, d);
      assert IsImage(c, all[..k], Parent(q));
      assert Lookup(u, Parent(q)) == Expected(c, all[..k], Parent(q));
    } else if q != [] {
      assert all[..k] == [];
      assert Lookup(u, Parent(q)) == Expected(c, [], Parent(q));
    }
  }

  lemma SoundBase(c: Plan)
    requires Sound(c)
    ensures c.base <= c.from && |c.base| <= |c.from| <= |c.base| + 1
  {
  }

  lemma OneMoreCopied(c: Plan, all: seq<Path>, k: nat, u: Tree)
    requires Sound(c) && Listed(c, all) && k < |all| && Agrees(c, all[..k], u)
    ensures c.base <= all[k] && all[k] in c.t
    ensures Agrees(c, all[..k + 1], PlaceNow(u, all[k], Target(c, all[k]), c.t[all[k]]))
  {
    hide Sound, Listed, Target, Origin, Copy, Lookup;
    InPlan(c, all, k);
    var p := all[k];
    var q := Target(c, p);
    var next := PlaceNow(u, p, q, c.t[p]);
    OriginOfTarget(c, p);
    assert Lookup(u, q) == Expected(c, all[..k], q);
    PlacedIsCopy(c, u, p, q);
    assert all[..k + 1] == all[..k] + [p];
    forall x ensures Lookup(next, x) == Expected(c, all[..k + 1], x) {
      assert Lookup(u, x) == Expected(c, all[..k], x);
      if c.to <= x {
        TargetOfOrigin(c, x);
      }
    }
  }

  lemma PlacedIsCopy(c: Plan, u: Tree, p: Path, q: Path)
    requires p in c.t && Lookup(u, q) == Lookup(c.t, q)
    ensures Lookup(PlaceNow(u, p, q, c.t[p]), q) == Copy(c, p, q)
    ensures forall x :: x != q ==> Lookup(PlaceNow(u, p, q, c.t[p]), x) == Lookup(u, x)
  {
  }

  // ----- The source and the traversal stay as they were -----

  lemma SourceIsIntact(c: Plan, all: seq<Path>, k: nat, u: Tree)
    requires Sound(c) && Listed(c, all) && k < |all| && Agrees(c, all[..k], u)
    ensures all[k] in c.t && Lookup(u, all[k]) == Lookup(c.t, all[k])
  {
    hide Sound, Target, Origin, Copy;
    InPlan(c, all, k);
    var p := all[k];
    assert Lookup(u, p) == Expected(c, all[..k], p);
    if IsImage(c, all[..k], p) {
      var o := Origin(c, p);
      var j :| 0 <= j < k && all[j] == o;
      InPlan(c, all, j);
      TargetOfOrigin(c, p);
      Landing(c, o);
    }
  }

  predicate MayChange(u: Tree, locked: set<Path>, q: Path, kind: Kind) {
    (kind.Regular? && Creatable(u, locked, q)) || (kind.Directory? && q !in u)
  }

  /** Where a copy can change the tree: outside the source, or at its own regular original. */
  lemma WhereItLands(c: Plan, locked: set<Path>, all: seq<Path>, k: nat, u: Tree)
    requires Sound(c) && Listed(c, all) && k < |all| && Agrees(c, all[..k], u)
    ensures c.base <= all[k] && all[k] in c.t
    ensures var q := Target(c, all[k]);
            c.from <= q && MayChange(u, locked, q, c.t[all[k]]) ==> q == all[k] && c.t[all[k]].Regular?
  {
    hide Sound, Listed, Target, HasPlace, Copy, Agrees;
    InPlan(c, all, k);
    var p := all[k];
    Landing(c, p);
    ParentExistsByThen(c, locked, all, k, u);
    SourceIsIntact(c, all, k, u);
    if Target(c, p) == c.from != p && !c.types.recursive {
      assert k > 0 && |p| == |c.from| + 1;
      assert c.from == p[..|c.from|] == Parent(p);
      assert IsDirectory(c.t, c.from);
    }
  }

  lemma NothingToWalk(u: Tree, order: Order, types: Types, p: Path)
    requires WellFormed(u) && IsOrder(order) && !IsDirectory(u, p)
    ensures Walk(u, order, types, [p]) == []
  {
    assert NextStack(u, order, types, [p]) == [];
  }

  lemma LandsAside(c: Plan, locked: set<Path>, all: seq<Path>, k: nat, u: Tree,
                   paths: seq<Path>, more: seq<Path>, pending: seq<Path>)
    requires Sound(c) && Listed(c, all) && k < |all| && Agrees(c, all[..k], u)
    requires c.base <= all[k] && all[k] in c.t
    requires MayChange(u, locked, Target(c, all[k]), c.t[all[k]])
    requires all == all[..k] + ([all[k]] + (paths + more))
    requires forall x :: IsPending(pending, x) ==> c.from <= x
    requires k > 0 ==> EntryOk(u, all[k], c.t[all[k]], pending)
    ensures var q := Target(c, all[k]);
            if c.from <= q && k == 0 then q == c.from && c.t[c.from].Regular? && !IsDirectory(u, c.from)
            else q !in paths && !IsPending(pending, q)
  {
    hide Sound, Listed, Target, Agrees, HasPlace, IsPending, SameSort, Creatable, Distinct;
    InPlan(c, all, k);
    WhereItLands(c, locked, all, k, u);
    SourceIsIntact(c, all, k, u);
    assert Distinct(all) by {
      ListedIsDistinct(c, all);
    }
    NotAgain(all[..k], all[k], paths, more, all);
    forall x | x in paths ensures c.from <= x {
      assert x in all;
      var j :| 0 <= j < |all| && all[j] == x;
      InPlan(c, all, j);
    }
  }

  lemma ListedIsDistinct(c: Plan, all: seq<Path>)
    requires Listed(c, all)
    ensures Distinct(all)
  {
  }

  /** A copy does not disturb the traversal that is under way. */
  lemma Undisturbed(c: Plan, locked: set<Path>, order: Order, all: seq<Path>, k: nat, u: Tree, v: Tree,
                    d: Path, rest: seq<DirEntry>, pending: seq<Path>)
    requires Sound(c) && IsOrder(order) && Listed(c, all) && k < |all| && Agrees(c, all[..k], u)
    requires c.base <= all[k] && all[k] in c.t
    requires WellFormed(u) && WellFormed(v) && SameButFor(u, v, Target(c, all[k]))
    requires u == v || MayChange(u, locked, Target(c, all[k]), c.t[all[k]])
    requires u != v && c.t[all[k]].Regular? ==> !IsDirectory(v, Target(c, all[k]))
    requires Apart(pending) && EntriesOk(u, d, rest, pending)
    requires all == all[..k] + ([all[k]] + (Paths(d, rest) + Walk(u, order, c.types, pending)))
    requires forall x :: IsPending(pending, x) ==> c.from <= x
    requires k == 0 ==> pending == [c.from] && rest == []
    requires k > 0 ==> EntryOk(u, all[k], c.t[all[k]], pending)
    ensures EntriesOk(v, d, rest, pending)
    ensures Walk(v, order, c.types, pending) == Walk(u, order, c.types, pending)
  {
    hide Sound, Listed, WellFormed, IsOrder, Walk, Target, Agrees, MayChange, IsPending, Apart, Paths, EntriesOk, EntryOk, SameButFor;
    if u != v {
      var q := Target(c, all[k]);
      LandsAside(c, locked, all, k, u, Paths(d, rest), Walk(u, order, c.types, pending), pending);
      if c.from <= q && k == 0 {
        assert all[k] == c.from by {
          InPlan(c, all, k);
        }
        NothingToWalk(u, order, c.types, c.from);
        NothingToWalk(v, order, c.types, c.from);
        NoEntriesOk(v, d, pending);
      } else {
        RestSurvives(u, v, q, order, c.types, d, rest, pending);
      }
    }
  }

  lemma NoEntriesOk(v: Tree, d: Path, pending: seq<Path>)
    ensures EntriesOk(v, d, [], pending)
  {
  }

  // ----- One entry -----

  /** Nothing is gone, and nothing has become another sort of entry. */
  ghost predicate Grown(t: Tree, u: Tree) {
    forall p :: p in t ==> p in u && SameSort(t[p], u[p])
  }

  /** mkdir() or CopyFile(), or nothing for what is neither a directory nor a regular file. */
  method CopyEntry(fs: FileSystem, current: Path, target: Path, info: Kind) returns (ok: bool)
    requires fs.Valid() && current in fs.tree && SameSort(fs.tree[current], info)
    modifies fs`tree, fs`calls, fs`failures
    ensures fs.Valid() && Grown(old(fs.tree), fs.tree)
    ensures var kind := old(fs.tree)[current];
            && (ok ==> PlaceableNow(old(fs.tree), fs.locked, target, kind)
                       && fs.tree == PlaceNow(old(fs.tree), current, target, kind))
            && (!ok ==> !fs.NeverFails() || !PlaceableNow(old(fs.tree), fs.locked, target, kind))
            && (ok <==> PlaceableNow(old(fs.tree), fs.locked, target, kind) && fs.failures == old(fs.failures))
            && fs.failures >= old(fs.failures)
            && (old(fs.tree) == fs.tree || MayChange(old(fs.tree), fs.locked, target, kind))
            && (old(fs.tree) != fs.tree && kind.Regular? ==> !IsDirectory(fs.tree, target))
    ensures SameButFor(old(fs.tree), fs.tree, target)
  {
    hide WellFormed, IsOrder, FileSystem.NeverFails, HasPlace;
    if info.Directory? {
      var r := fs.Mkdir(target, info.readable);
      ok := !r.Refused?;
    } else if info.Regular? {
      ok := CopyFileUnsafe(fs, current, target);
    } else {
      ok := true;
    }
  }

  // ----- A copy whose targets lie above the source -----

  /** The entries outside the target, and the sort of every entry, stay as they were. */
  ghost predicate Kept(c: Plan, u: Tree) {
    Grown(c.t, u) && forall q :: !(c.to <= q) ==> Lookup(u, q) == Lookup(c.t, q)
  }

  /** Every target is shorter than its source. */
  predicate Shortens(c: Plan) {
    c.base <= c.from && |c.to| < |c.base|
  }

  lemma BaseOf(c: Plan, p: Path)
    requires c.base <= c.from && c.from <= p
    ensures c.base <= p && |Target(c, p)| == |c.to| + |p| - |c.base|
  {
    assert c.base == c.from[..|c.base|] == p[..|c.base|];
  }

  /** The copy of `p`, the copy of the copy if that lies in the source again, and so on. */
  ghost function Orbit(c: Plan, p: Path): set<Path>
    requires Shortens(c)
    decreases |p|
  {
    if c.from <= p then
      BaseOf(c, p);
      {p} + Orbit(c, Target(c, p))
    else {p}
  }

  lemma {:induction false} OrbitCloses(c: Plan, p: Path, q: Path)
    requires Shortens(c) && q in Orbit(c, p) && c.from <= q
    ensures c.base <= q && Target(c, q) in Orbit(c, p)
    decreases |p|
  {
    BaseOf(c, q);
    if q != p {
      BaseOf(c, p);
      OrbitCloses(c, Target(c, p), q);
    } else {
      assert Target(c, p) in Orbit(c, Target(c, p));
    }
  }

  /** All the paths that the tree can ever come to hold. */
  ghost function Closure(c: Plan): set<Path>
    requires Shortens(c)
  {
    set p, q | p in c.t && q in Orbit(c, p) :: q
  }

  lemma ClosureHasTree(c: Plan)
    requires Shortens(c)
    ensures c.t.Keys <= Closure(c)
  {
    forall p | p in c.t ensures p in Closure(c) {
      assert p in Orbit(c, p);
    }
  }

  lemma ClosureCloses(c: Plan, q: Path, u: Tree, v: Tree)
    requires Shortens(c) && c.from <= q && q in u && u.Keys <= Closure(c)
    requires c.base <= q && SameButFor(u, v, Target(c, q))
    ensures v.Keys <= Closure(c)
  {
    assert q in Closure(c);
    var p :| p in c.t && q in Orbit(c, p);
    OrbitCloses(c, p, q);
    forall x | x in v ensures x in Closure(c) {
      if x != Target(c, q) {
        assert x in u;
      }
    }
  }

  lemma GrowthKeepsEntries(u: Tree, v: Tree, d: Path, rest: seq<DirEntry>, pending: seq<Path>)
    requires Grown(u, v) && EntriesOk(u, d, rest, pending)
    ensures EntriesOk(v, d, rest, pending)
  {
    forall k | 0 <= k < |rest| ensures EntryOk(v, d + [rest[k].name], rest[k].kind, pending) {
      assert EntryOk(u, d + [rest[k].name], rest[k].kind, pending);
    }
  }

  lemma KeptOn(c: Plan, q: Path, u: Tree, v: Tree)
    requires c.base <= q && Kept(c, u) && Grown(u, v) && SameButFor(u, v, Target(c, q))
    ensures Kept(c, v)
  {
    OriginOfTarget(c, q);
  }

  /** What is pending of these paths. */
  ghost function Ahead(paths: set<Path>, pending: seq<Path>): set<Path> {
    set p | p in paths && IsPending(pending, p)
  }

  lemma {:induction false} Smaller<T>(a: set<T>, b: set<T>)
    requires a <= b
    ensures |a| <= |b|
    ensures a != b ==> |a| < |b|
    decreases |b|
  {
    if x :| x in a {
      Smaller(a - {x}, b - {x});
      assert a - {x} == b - {x} ==> a == (a - {x}) + {x} == b;
    } else {
      assert a == {};
    }
  }

  lemma AheadShrinks(paths: set<Path>, before: seq<Path>, after: seq<Path>, d: Path)
    requires Narrowed(before, after)
    ensures |Ahead(paths, after)| <= |Ahead(paths, before)|
    ensures d in paths && IsPending(before, d) && !IsPending(after, d) ==> |Ahead(paths, after)| < |Ahead(paths, before)|
  {
    hide IsPending;
    Smaller(Ahead(paths, after), Ahead(paths, before));
    assert d in paths && IsPending(before, d) ==> d in Ahead(paths, before);
  }

  /** The state of the loop when the source changes while it is walked. */
  ghost predicate Loose(traversal: FileEnumerator, c: Plan, current: Option<Path>, info: Kind)
    reads traversal, traversal.fs
    requires Shortens(c)
  {
    var fs := traversal.fs;
    && traversal.Valid() && fs.tree.Keys <= Closure(c) && c.from <= traversal.root
    && (forall x :: IsPending(traversal.pending, x) ==> c.from <= x)
    && (current.Some? ==> c.from <= current.value && current.value in fs.tree && SameSort(fs.tree[current.value], info))
  }

  // ----- The loop -----

  /** Nothing but images of listed sources has changed. */
  ghost predicate OnlyImages(c: Plan, all: seq<Path>, u: Tree) {
    forall q :: !IsImage(c, all, q) ==> Lookup(u, q) == Lookup(c.t, q)
  }

  /**
   The entries before this one were copied, it was not, and what comes after it was left alone: it
   found no place, or a read, write or close failed since there were `before` failures.
   */
  ghost predicate StoppedAt(c: Plan, all: seq<Path>, k: nat, fs: FileSystem, before: nat)
    reads fs
  {
    && k < |all| && c.base <= all[k] && all[k] in c.t
    && AllPlaceable(c, fs.locked, all[..k])
    && (fs.failures > before || !Placeable(c, fs.locked, all[k]))
    && forall q :: q != Target(c, all[k]) ==> Lookup(fs.tree, q) == Expected(c, all[..k], q)
  }

  lemma Stops(c: Plan, all: seq<Path>, k: nat, u: Tree, fs: FileSystem, before: nat)
    requires k < |all| && c.base <= all[k] && all[k] in c.t && Agrees(c, all[..k], u)
    requires SameButFor(u, fs.tree, Target(c, all[k])) && AllPlaceable(c, fs.locked, all[..k])
    requires fs.failures > before || !Placeable(c, fs.locked, all[k])
    ensures StoppedAt(c, all, k, fs, before)
  {
    hide Placeable, Target, Expected;
    forall q | q != Target(c, all[k]) ensures Lookup(fs.tree, q) == Expected(c, all[..k], q) {
      assert Lookup(u, q) == Expected(c, all[..k], q);
    }
  }

  /** The state of the loop before entry `k`. */
  ghost predicate Copying(traversal: FileEnumerator, c: Plan, all: seq<Path>, k: nat, current: Option<Path>, info: Kind,
                          success: bool, before: nat)
    reads traversal, traversal.fs
  {
    var fs, pending := traversal.fs, traversal.pending;
    && traversal.Valid() && traversal.types == c.types
    && k <= |all| && all == all[..k] + (Pending(current) + traversal.Remaining())
    && (current.None? ==> traversal.Remaining() == [])
    && (forall x :: IsPending(pending, x) ==> c.from <= x)
    && (k == 0 ==> current == Some(c.from) && Lookup(c.t, c.from) == Some(info))
    && (k == 0 ==> pending == [c.from] && traversal.Rest() == [])
    && (k > 0 && current.Some? && success ==> EntryOk(fs.tree, current.value, info, pending))
    && (success ==> Agrees(c, all[..k], fs.tree) && AllPlaceable(c, fs.locked, all[..k]))
    && (!success ==> !fs.NeverFails() || !AllPlaceable(c, fs.locked, all))
    && (!success ==> k > 0 && StoppedAt(c, all, k - 1, fs, before))
    && OnlyImages(c, all, fs.tree)
  }

  lemma ImageOnly(c: Plan, all: seq<Path>, p: Path, u: Tree, v: Tree)
    requires c.base <= p && p in all && OnlyImages(c, all, u) && SameButFor(u, v, Target(c, p))
    ensures OnlyImages(c, all, v)
  {
    OriginOfTarget(c, p);
  }

  lemma OneMorePlaceable(c: Plan, locked: set<Path>, all: seq<Path>, k: nat)
    requires k < |all| && c.base <= all[k] && all[k] in c.t
    ensures AllPlaceable(c, locked, all[..k]) && Placeable(c, locked, all[k]) ==> AllPlaceable(c, locked, all[..k + 1])
    ensures !Placeable(c, locked, all[k]) ==> !AllPlaceable(c, locked, all)
  {
    assert all[..k + 1] == all[..k] + [all[k]];
  }

  lemma NextOne(all: seq<Path>, k: nat, current: Path, more: seq<Path>)
    requires k <= |all| && all == all[..k] + ([current] + more)
    ensures k < |all| && all[k] == current && all == all[..k + 1] + more
  {
  }

  /**
   The state of the loop: exactly known if the source stays as it is, and else bounded. `before` is
   how many calls had failed when the copy began.
   */
  ghost predicate InLoop(traversal: FileEnumerator, c: Plan, sound: bool, all: seq<Path>, k: nat, current: Option<Path>,
                         info: Kind, success: bool, before: nat)
    reads traversal, traversal.fs
  {
    && traversal.Valid() && c.base <= c.from && Kept(c, traversal.fs.tree)
    && before <= traversal.fs.failures && (success ==> traversal.fs.failures == before)
    && (sound ==> k <= |all| && Sound(c) && Listed(c, all) && Copying(traversal, c, all, k, current, info, success, before))
    && (!sound ==> Shortens(c) && Loose(traversal, c, current, info))
  }

  /** The body of the loop, but for the step to the next entry. */
  method PlaceOne(fs: FileSystem, traversal: FileEnumerator, ghost c: Plan, ghost sound: bool, ghost all: seq<Path>,
                  ghost k: nat, current: Path, base: Path, to: Path, info: Kind)
    returns (success: bool)
    requires traversal.fs == fs && base == c.base && to == c.to
    requires InLoop(traversal, c, sound, all, k, Some(current), info, true, fs.failures)
    modifies fs`tree, fs`calls, fs`failures
    ensures traversal.Valid() && Kept(c, fs.tree)
    ensures sound ==>
              && k < |all| && all == all[..k + 1] + traversal.Remaining() && OnlyImages(c, all, fs.tree)
              && (success ==> Agrees(c, all[..k + 1], fs.tree) && AllPlaceable(c, fs.locked, all[..k + 1]))
              && (!success ==> !fs.NeverFails() || !AllPlaceable(c, fs.locked, all))
              && (!success ==> StoppedAt(c, all, k, fs, old(fs.failures)))
    ensures fs.failures >= old(fs.failures) && (success ==> fs.failures == old(fs.failures))
    ensures !sound ==> Shortens(c) && fs.tree.Keys <= Closure(c)
  {
    hide Walk, WellFormed, IsOrder, Sound, Listed, Agrees, AllPlaceable, OnlyImages, Placeable, PlaceNow, PlaceableNow,
      IsPending, Paths, MayChange, SameButFor, EntriesOk, Apart, FileSystem.NeverFails, IsDirectory, Target, Kept, Grown,
      Closure;
    ghost var rest, pending, u := traversal.Rest(), traversal.pending, fs.tree;
    if sound {
      NextOne(all, k, current, traversal.Remaining());
      InPlan(c, all, k);
      SourceIsIntact(c, all, k, u);
      ParentExistsByThen(c, fs.locked, all, k, u);
      OneMoreCopied(c, all, k, u);
      OneMorePlaceable(c, fs.locked, all, k);
    } else {
      BaseOf(c, current);
    }
    TargetIs(c, current);
    var target := if base != current then to + current[|base|..] else to;
    success := CopyEntry(fs, current, target, info);
    if sound {
      Undisturbed(c, fs.locked, fs.order, all, k, u, fs.tree, traversal.root, rest, pending);
      ImageOnly(c, all, current, u, fs.tree);
      if !success {
        Stops(c, all, k, u, fs, old(fs.failures));
      }
    } else {
      GrowthKeepsEntries(u, fs.tree, traversal.root, rest, pending);
      ClosureCloses(c, current, u, fs.tree);
    }
    KeptOn(c, current, u, fs.tree);
  }

  /** The body of the loop. */
  method CopyOne(fs: FileSystem, traversal: FileEnumerator, ghost c: Plan, ghost sound: bool, ghost all: seq<Path>,
                 ghost k: nat, current: Path, base: Path, to: Path, info: Kind)
    returns (success: bool, next: Option<Path>, nextInfo: Kind)
    requires traversal.fs == fs && base == c.base && to == c.to
    requires InLoop(traversal, c, sound, all, k, Some(current), info, true, fs.failures)
    modifies fs`tree, fs`calls, fs`failures, traversal
    ensures InLoop(traversal, c, sound, all, k + 1, next, nextInfo, success, old(fs.failures))
    ensures !sound ==>
              var was, now := old(Ahead(Closure(c), traversal.pending)), Ahead(Closure(c), traversal.pending);
              && |now| <= |was|
              && (|now| < |was| || |traversal.Rest()| < |old(traversal.Rest())| || (traversal.Rest() == [] && next.None?))
  {
    hide Sound, Listed, Agrees, AllPlaceable, OnlyImages, IsPending, EntriesOk, FileSystem.NeverFails, Apart, WellFormed,
      IsOrder, Kept, Closure, Ahead, Narrowed, SameSort, FileEnumerator.Remaining;
    success := PlaceOne(fs, traversal, c, sound, all, k, current, base, to, info);
    ghost var more := traversal.Remaining();
    ghost var before := traversal.pending;
    next := traversal.Next();
    assert more == Pending(next) + traversal.Remaining();
    nextInfo := info;
    if next.Some? {
      nextInfo := traversal.GetFindInfo();
    }
    StillBelow(c.from, before, traversal.pending, traversal.root);
    if !sound {
      if next.Some? {
        ListedInTree(fs.tree, traversal.root, traversal.entries[traversal.currentEntry].name);
      }
      AheadShrinks(Closure(c), before, traversal.pending, traversal.root);
    }
  }

  lemma StillBelow(from: Path, before: seq<Path>, after: seq<Path>, root: Path)
    requires Narrowed(before, after) && forall x :: IsPending(before, x) ==> from <= x
    ensures forall x :: IsPending(after, x) ==> from <= x
    ensures IsPending(before, root) ==> from <= root
  {
    hide IsPending;
  }

  lemma ListedInTree(t: Tree, d: Path, name: Name)
    requires WellFormed(t) && d + [name] in t
    ensures d in t
  {
    assert Parent(d + [name]) == d;
  }

  lemma TargetIs(c: Plan, p: Path)
    requires c.base <= p
    ensures Target(c, p) == if c.base != p then c.to + p[|c.base|..] else c.to
  {
  }

  // ----- The checks before the loop -----

  function RenderNames(p: Path): string {
    if p == [] then "" else "/" + p[0] + RenderNames(p[1..])
  }

  /** The path as text. */
  function Render(p: Path): string {
    if p == [] then "/" else RenderNames(p)
  }

  function RealTo(t: Tree, to: Path): Path {
    if to in t || to == [] then to else Parent(to)
  }

  predicate Refuses(t: Tree, from: Path, to: Path) {
    || |Render(from)| >= PATH_MAX
    || from !in t || RealTo(t, to) !in t
    || Render(from) <= Render(RealTo(t, to))
  }

  lemma {:induction false} NamesOfMore(p: Path, q: Path)
    requires p <= q
    ensures RenderNames(p) <= RenderNames(q)
  {
    if p != [] {
      NamesOfMore(p[1..], q[1..]);
    }
  }

  /** A target inside the source is always refused. */
  lemma InsideIsRefused(t: Tree, from: Path, to: Path)
    requires WellFormed(t) && from <= to
    ensures Refuses(t, from, to)
  {
    var dest := RealTo(t, to);
    if from in t && dest in t {
      assert from != to ==> |from| < |to| && from == to[..|from|] == Parent(to)[..|from|];
      NamesOfMore(from, dest);
      assert from == [] ==> Render(from) <= Render(dest);
    }
  }

  function DirName(p: Path): Path {
    if p == [] then [] else Parent(p)
  }

  function PlanOf(t: Tree, from: Path, to: Path, recursive: bool): Plan {
    Plan(t, Types(true, recursive, recursive), from,
         if recursive && IsDirectory(t, to) then DirName(from) else from, to)
  }

  /** The copy would be made at a proper ancestor of the source. */
  predicate CopiesOntoAncestor(t: Tree, from: Path, to: Path, recursive: bool) {
    recursive && IsDirectory(t, to) && from != [] && ProperlyInside(from, to + [from[|from| - 1]])
  }

  lemma PlanIsSound(t: Tree, from: Path, to: Path, recursive: bool)
    requires WellFormed(t) && !Refuses(t, from, to) && !CopiesOntoAncestor(t, from, to, recursive)
    ensures Sound(PlanOf(t, from, to, recursive))
  {
    hide Refuses, Render, WellFormed;
    var c := PlanOf(t, from, to, recursive);
    NotRefused(t, from, to);
    if from <= to {
      InsideIsRefused(t, from, to);
    }
    RootIsNoAncestor(t, from, to, recursive);
  }

  lemma RootIsNoAncestor(t: Tree, from: Path, to: Path, recursive: bool)
    requires WellFormed(t) && from in t && !(from <= to) && !CopiesOntoAncestor(t, from, to, recursive)
    ensures var c := PlanOf(t, from, to, recursive);
            c.base <= from && (recursive ==> !ProperlyInside(from, Target(c, from)))
  {
    hide WellFormed;
    var c := PlanOf(t, from, to, recursive);
    assert from == Parent(from) + [from[|from| - 1]];
    if c.base == from {
      assert from[|from|..] == [];
      assert Target(c, from) == to;
      if recursive && to <= from {
        AncestorsExist(t, to, from);
      }
    } else {
      assert from[|c.base|..] == [from[|from| - 1]];
    }
  }

  lemma NotRefused(t: Tree, from: Path, to: Path)
    requires !Refuses(t, from, to)
    ensures from in t && RealTo(t, to) in t
  {
  }

  lemma Begin(c: Plan, locked: set<Path>, all: seq<Path>)
    requires Listed(c, all)
    ensures all[..0] == [] && Agrees(c, [], c.t) && AllPlaceable(c, locked, []) && OnlyImages(c, all, c.t)
    ensures all == [c.from] + all[1..]
  {
  }

  /**
   Reports success if and only if every listed directory and regular file finds its place and no
   read, write or close fails, and then the tree is exactly the old one with the copies put in.
   Otherwise it has stopped at the first entry for which that is not so, with the copies before it
   put in. Never touches anything but the targets. When a copy
   would be made at a proper ancestor of the source, the source changes while it is walked; then
   the call still ends, removes nothing, and leaves all that is not below `to` alone.
   */
  method CopyDirectory(fs: FileSystem, from: Path, to: Path, recursive: bool) returns (success: bool)
    requires fs.Valid()
    modifies fs`tree, fs`calls, fs`failures
    ensures fs.Valid() && Kept(PlanOf(old(fs.tree), from, to, recursive), fs.tree)
    ensures Refuses(old(fs.tree), from, to) ==> !success && fs.tree == old(fs.tree)
    ensures success ==> fs.failures == old(fs.failures)
    ensures var c := PlanOf(old(fs.tree), from, to, recursive);
            !Refuses(old(fs.tree), from, to) && !CopiesOntoAncestor(old(fs.tree), from, to, recursive) ==>
              var all := old(All(PlanOf(fs.tree, from, to, recursive), fs.order));
              && (success <==> AllPlaceable(c, fs.locked, all) && fs.failures == old(fs.failures))
              && (AllPlaceable(c, fs.locked, all) && fs.NeverFails() ==> success)
              && (success ==> Agrees(c, all, fs.tree))
              && (!success ==> exists k: nat :: StoppedAt(c, all, k, fs, old(fs.failures)))
              && OnlyImages(c, all, fs.tree)
  {
    hide WellFormed, IsOrder, Sound, Listed, Agrees, AllPlaceable, OnlyImages, IsPending, EntryOk, Walk, Paths, StoppedAt,
      FileEnumerator.Remaining, FileSystem.NeverFails, Render, CopiesOntoAncestor, Copying, Loose, Closure, Ahead, Kept,
      Apart, PlanOf;
    NothingCopied(fs.tree, from, to, recursive);
    if |Render(from)| >= PATH_MAX {
      return false;
    }
    var realTo := to;
    var toInfo := fs.Lstat(to);
    if toInfo.None? && to != [] {
      realTo := Parent(to);
    }
    var realToInfo := fs.Lstat(realTo);
    var fromInfo := fs.Lstat(from);
    if realToInfo.None? || fromInfo.None? || Render(from) <= Render(realTo) {
      return false;
    }
    var base := from;
    if recursive && toInfo.Some? && toInfo.value.Directory? {
      base := DirName(from);
    }
    ghost var c := PlanOf(fs.tree, from, to, recursive);
    PlanParts(fs.tree, from, to, recursive);
    ghost var all := All(c, fs.order);
    ghost var sound := !CopiesOntoAncestor(fs.tree, from, to, recursive);
    if sound {
      PlanIsSound(fs.tree, from, to, recursive);
      WalkIsListed(c, fs.order);
    } else {
      AncestorShortens(fs.tree, from, to, recursive);
    }
    var traversal := new FileEnumerator(fs, from, Types(true, recursive, recursive));
    var current, info := Some(from), fromInfo.value;
    ghost var k := 0;
    success := true;
    Started(traversal, c, sound, all, info);
    while success && current.Some?
      invariant traversal.fs == fs && fresh(traversal)
      invariant InLoop(traversal, c, sound, all, k, current, info, success, old(fs.failures))
      decreases if sound then |all| - k else |Ahead(Closure(c), traversal.pending)|, |traversal.Rest()|,
                if current.Some? then 1 else 0
    {
      success, current, info := CopyOne(fs, traversal, c, sound, all, k, current.value, base, to, info);
      k := k + 1;
    }
    if sound {
      Ended(traversal, c, all, k, current, info, success, old(fs.failures));
    }
  }

  lemma NothingCopied(t: Tree, from: Path, to: Path, recursive: bool)
    ensures Kept(PlanOf(t, from, to, recursive), t)
  {
  }

  lemma PlanParts(t: Tree, from: Path, to: Path, recursive: bool)
    ensures var c := PlanOf(t, from, to, recursive);
            && c.t == t && c.from == from && c.to == to && c.types == Types(true, recursive, recursive)
            && c.base == (if recursive && IsDirectory(t, to) then DirName(from) else from) && c.base <= c.from
  {
  }

  lemma AncestorShortens(t: Tree, from: Path, to: Path, recursive: bool)
    requires CopiesOntoAncestor(t, from, to, recursive)
    ensures Shortens(PlanOf(t, from, to, recursive))
  {
  }

  lemma Started(traversal: FileEnumerator, c: Plan, sound: bool, all: seq<Path>, info: Kind)
    requires traversal.Valid() && traversal.fs.tree == c.t && traversal.types == c.types && c.base <= c.from
    requires traversal.pending == [c.from] && traversal.Rest() == [] && traversal.root == c.from
    requires Lookup(c.t, c.from) == Some(info) && Kept(c, c.t)
    requires all == [c.from] + traversal.Remaining()
    requires sound ==> Sound(c) && Listed(c, all)
    requires !sound ==> Shortens(c)
    ensures InLoop(traversal, c, sound, all, 0, Some(c.from), info, true, traversal.fs.failures)
  {
    hide Sound, Listed, Kept, Agrees, AllPlaceable, OnlyImages, Closure, FileEnumerator.Remaining, IsPending, EntriesOk,
      WellFormed, IsOrder, Apart;
    JustPending(c.from);
    if sound {
      Begin(c, traversal.fs.locked, all);
      assert all == [] + ([c.from] + traversal.Remaining());
    } else {
      ClosureHasTree(c);
    }
  }

  lemma Ended(traversal: FileEnumerator, c: Plan, all: seq<Path>, k: nat, current: Option<Path>, info: Kind, success: bool,
              before: nat)
    requires Copying(traversal, c, all, k, current, info, success, before) && (success ==> current.None?)
    ensures OnlyImages(c, all, traversal.fs.tree)
    ensures success ==> AllPlaceable(c, traversal.fs.locked, all) && Agrees(c, all, traversal.fs.tree)
    ensures !success ==> !traversal.fs.NeverFails() || !AllPlaceable(c, traversal.fs.locked, all)
    ensures !success ==> k > 0 && StoppedAt(c, all, k - 1, traversal.fs, before)
    ensures !success ==> traversal.fs.failures > before || !AllPlaceable(c, traversal.fs.locked, all)
  {
    hide Agrees, AllPlaceable, OnlyImages, FileEnumerator.Remaining, FileEnumerator.Valid, FileSystem.NeverFails,
      Placeable, Expected;
    assert success ==> all == all[..k];
    if !success && AllPlaceable(c, traversal.fs.locked, all) {
      OnePlaceable(c, traversal.fs.locked, all, k - 1);
    }
  }

  lemma OnePlaceable(c: Plan, locked: set<Path>, all: seq<Path>, k: nat)
    requires k < |all| && AllPlaceable(c, locked, all)
    ensures c.base <= all[k] && all[k] in c.t && Placeable(c, locked, all[k])
  {
    hide Placeable;
    assert all[k] in all;
  }

  lemma JustPending(from: Path)
    ensures forall x :: IsPending([from], x) ==> from <= x
  {
  }
}
