/**
 When the walk of a FileEnumerator is the breadth-first search that commonlib/common/base/
 file_util.h announces: the paths never get shorter again.
 */
module BreadthFirst {
  import opened FileTree
  import opened Traversal

  ghost predicate LevelByLevel(w: seq<Path>) {
    forall i, j :: 0 <= i < j < |w| ==> |w[i]| <= |w[j]|
  }

  predicate NoDeeper(a: seq<Path>, b: seq<Path>) {
    forall x, y :: x in a && y in b ==> |x| <= |y|
  }

  lemma LevelsSplit(a: seq<Path>, b: seq<Path>)
    ensures LevelByLevel(a + b) <==> LevelByLevel(a) && LevelByLevel(b) && NoDeeper(a, b)
  {
    var w := a + b;
    assert forall i :: 0 <= i < |a| ==> w[i] == a[i];
    assert forall j :: 0 <= j < |b| ==> w[|a| + j] == b[j];
    if LevelByLevel(w) {
      forall x, y | x in a && y in b ensures |x| <= |y| {
        var i :| 0 <= i < |a| && a[i] == x;
        var j :| 0 <= j < |b| && b[j] == y;
        assert |w[i]| <= |w[|a| + j]|;
      }
      forall i, j | 0 <= i < j < |b| ensures |b[i]| <= |b[j]| {
        assert |w[|a| + i]| <= |w[|a| + j]|;
      }
    }
    if LevelByLevel(a) && LevelByLevel(b) && NoDeeper(a, b) {
      forall i, j | 0 <= i < j < |w| ensures |w[i]| <= |w[j]| {
        assert i < |a| ==> w[i] in a;
        assert j >= |a| ==> w[j] in b && w[j] == b[j - |a|];
        assert i >= |a| ==> w[i] == b[i - |a|];
      }
    }
  }

  /** Something of a requested type, behind readable directories. */
  ghost predicate ReturnedBelow(t: Tree, types: Types, d: Path, p: Path) {
    Wanted(t, types, p) && Reaches(t, types, d, p)
  }

  /** Nothing in `later` is deeper than something in `earlier`. */
  ghost predicate Shallower(t: Tree, types: Types, later: Path, earlier: Path) {
    forall x, y :: ReturnedBelow(t, types, later, x) && ReturnedBelow(t, types, earlier, y) ==> |x| <= |y|
  }

  /** Of these directories, none holds something deeper than something in one listed before it. */
  ghost predicate NoneDeeper(t: Tree, types: Types, dirs: seq<Path>) {
    forall i, j :: 0 <= i < j < |dirs| ==> Shallower(t, types, dirs[j], dirs[i])
  }

  function Subdirectories(t: Tree, order: Order, types: Types, d: Path): seq<Path> {
    SelectPushed(t, types, EntriesIn(t, order, d))
  }

  /** The directory itself, or one that the walk comes to. */
  ghost predicate Within(t: Tree, types: Types, d: Path, e: Path) {
    e == d || (types.recursive && Reaches(t, types, d, e) && IsDirectory(t, e))
  }

  lemma WalkOfOne(t: Tree, order: Order, types: Types, d: Path)
    requires WellFormed(t) && IsOrder(order)
    ensures Apart(Subdirectories(t, order, types, d))
    ensures Walk(t, order, types, [d]) ==
            SelectWanted(t, types, EntriesIn(t, order, d)) + Walk(t, order, types, Subdirectories(t, order, types, d))
  {
    NextStackIs(t, order, types, [d]);
    assert NextStack(t, order, types, [d]) == Subdirectories(t, order, types, d);
  }

  lemma MembersOfOne(t: Tree, order: Order, types: Types, d: Path)
    requires WellFormed(t) && IsOrder(order)
    ensures forall p :: p in Walk(t, order, types, [d]) <==> ReturnedBelow(t, types, d, p)
  {
    hide Walk, Reaches;
    WalkMembers(t, order, types, [d]);
    assert [d][0] == d;
  }

  lemma MembersOfMany(t: Tree, order: Order, types: Types, dirs: seq<Path>)
    requires WellFormed(t) && IsOrder(order) && Apart(dirs)
    ensures forall p :: p in Walk(t, order, types, dirs) <==>
              exists i :: 0 <= i < |dirs| && ReturnedBelow(t, types, dirs[i], p)
  {
    hide Walk, Reaches;
    WalkMembers(t, order, types, dirs);
    forall p ensures p in Walk(t, order, types, dirs) <==>
                     exists i :: 0 <= i < |dirs| && ReturnedBelow(t, types, dirs[i], p) {
      if p in Walk(t, order, types, dirs) {
        var i :| 0 <= i < |dirs| && Reaches(t, types, dirs[i], p);
        assert ReturnedBelow(t, types, dirs[i], p);
      }
    }
  }

  ghost predicate EachLevelByLevel(t: Tree, order: Order, types: Types, dirs: seq<Path>)
    requires WellFormed(t) && IsOrder(order)
  {
    forall i :: 0 <= i < |dirs| ==> LevelByLevel(Walk(t, order, types, [dirs[i]]))
  }

  lemma ShallowerThanAll(t: Tree, types: Types, lower: seq<Path>, top: Path, a: seq<Path>, b: seq<Path>)
    requires forall p :: p in a <==> ReturnedBelow(t, types, top, p)
    requires forall p :: p in b <==> exists i :: 0 <= i < |lower| && ReturnedBelow(t, types, lower[i], p)
    ensures NoDeeper(a, b) <==> forall i :: 0 <= i < |lower| ==> Shallower(t, types, top, lower[i])
  {
    hide ReturnedBelow;
    if forall i :: 0 <= i < |lower| ==> Shallower(t, types, top, lower[i]) {
      forall x, y | x in a && y in b ensures |x| <= |y| {
        var i :| 0 <= i < |lower| && ReturnedBelow(t, types, lower[i], y);
        assert Shallower(t, types, top, lower[i]);
      }
    }
    if NoDeeper(a, b) {
      forall i | 0 <= i < |lower| ensures Shallower(t, types, top, lower[i]) {
        forall x, y | ReturnedBelow(t, types, top, x) && ReturnedBelow(t, types, lower[i], y) ensures |x| <= |y| {
          assert x in a && y in b;
        }
      }
    }
  }

  lemma {:induction false} LevelsOfStack(t: Tree, order: Order, types: Types, dirs: seq<Path>)
    requires WellFormed(t) && IsOrder(order) && Apart(dirs)
    ensures LevelByLevel(Walk(t, order, types, dirs)) <==>
            EachLevelByLevel(t, order, types, dirs) && NoneDeeper(t, types, dirs)
  {
    hide WellFormed, IsOrder, Walk, ReturnedBelow, LevelByLevel, NoDeeper, Shallower;
    if dirs == [] {
      NoWalk(t, order, types);
    } else {
      hide EachLevelByLevel, NoneDeeper;
      var lower, top := dirs[..|dirs| - 1], dirs[|dirs| - 1];
      assert dirs == lower + [top];
      SubtreesAreTakenWhole(t, order, types, lower, [top]);
      var a, b := Walk(t, order, types, [top]), Walk(t, order, types, lower);
      LevelsSplit(a, b);
      LevelsOfStack(t, order, types, lower);
      MembersOfOne(t, order, types, top);
      MembersOfMany(t, order, types, lower);
      ShallowerThanAll(t, types, lower, top, a, b);
    }
  }

  lemma NoWalk(t: Tree, order: Order, types: Types)
    requires WellFormed(t) && IsOrder(order)
    ensures Apart([]) && LevelByLevel(Walk(t, order, types, []))
  {
  }

  lemma LevelInFront(n: nat, a: seq<Path>, b: seq<Path>)
    requires (forall x :: x in a ==> |x| == n) && forall y :: y in b ==> |y| >= n
    ensures LevelByLevel(a + b) <==> LevelByLevel(b)
  {
    LevelsSplit(a, b);
    forall i | 0 <= i < |a| ensures |a[i]| == n {
      assert a[i] in a;
    }
  }

  lemma LevelsOfOne(t: Tree, order: Order, types: Types, d: Path)
    requires WellFormed(t) && IsOrder(order)
    ensures var dirs := Subdirectories(t, order, types, d);
            LevelByLevel(Walk(t, order, types, [d])) <==>
            EachLevelByLevel(t, order, types, dirs) && NoneDeeper(t, types, dirs)
  {
    hide WellFormed, IsOrder, EntriesIn, Walk, LevelByLevel, EachLevelByLevel, NoneDeeper, ReturnedBelow, SelectWanted,
      SelectPushed;
    var entries := SelectWanted(t, types, EntriesIn(t, order, d));
    var dirs := Subdirectories(t, order, types, d);
    WalkOfOne(t, order, types, d);
    LevelsOfStack(t, order, types, dirs);
    EntriesOf(t, order, d);
    SelectedAre(t, types, EntriesIn(t, order, d));
    MembersOfMany(t, order, types, dirs);
    var more := Walk(t, order, types, dirs);
    forall y | y in more ensures |y| >= |d| + 1 {
      var i :| 0 <= i < |dirs| && ReturnedBelow(t, types, dirs[i], y);
      assert dirs[i] in dirs;
      DeeperBelow(t, types, dirs[i], y);
    }
    LevelInFront(|d| + 1, entries, more);
  }

  lemma DeeperBelow(t: Tree, types: Types, d: Path, p: Path)
    requires ReturnedBelow(t, types, d, p)
    ensures |d| < |p|
  {
  }

  lemma WithinSplit(t: Tree, order: Order, types: Types, d: Path, e: Path)
    requires WellFormed(t) && IsOrder(order)
    ensures Within(t, types, d, e) <==>
            e == d || exists i :: 0 <= i < |Subdirectories(t, order, types, d)|
                                  && Within(t, types, Subdirectories(t, order, types, d)[i], e)
  {
    hide WellFormed, IsOrder, Reaches, EntriesIn;
    var dirs := Subdirectories(t, order, types, d);
    PushedAre(t, order, types, d);
    ReachesSplit(t, types, d, e);
    if Within(t, types, d, e) && e != d {
      var c := if |e| == |d| + 1 then e else e[..|d| + 1];
      if |e| > |d| + 1 {
        PushedOnTheWay(t, types, d, e, dirs);
      }
      ReachesShape(t, types, d, e);
      assert c in dirs;
      var i :| 0 <= i < |dirs| && dirs[i] == c;
      assert Within(t, types, dirs[i], e);
    }
    if i :| 0 <= i < |dirs| && Within(t, types, dirs[i], e) {
      assert dirs[i] in dirs;
      if dirs[i] != e {
        ReachesShape(t, types, dirs[i], e);
        assert e[..|d| + 1] == dirs[i] && d <= e;
      }
    }
  }

  lemma CoversLess(t: Tree, order: Order, types: Types, d: Path, i: nat)
    requires WellFormed(t) && IsOrder(order) && i < |Subdirectories(t, order, types, d)|
    ensures Covered(t, [Subdirectories(t, order, types, d)[i]]) < Covered(t, [d])
  {
    hide WellFormed, IsOrder, EntriesIn;
    PushedAre(t, order, types, d);
    var c := Subdirectories(t, order, types, d)[i];
    assert c in Subdirectories(t, order, types, d);
    assert d <= c && |d| < |c|;
    forall p | p in Covered(t, [c]) ensures p in Covered(t, [d]) {
      assert c <= p;
      assert [d][0] <= p;
    }
    assert [d][0] <= d && d !in Covered(t, [c]);
  }

  /**
   The walk is breadth-first if and only if, in every directory that it comes to, no subdirectory
   holds something deeper than something in a subdirectory that was listed before it.
   */
  lemma {:induction false} BreadthFirstIff(t: Tree, order: Order, types: Types, root: Path)
    requires WellFormed(t) && IsOrder(order)
    ensures LevelByLevel(Walk(t, order, types, [root])) <==>
            forall d :: Within(t, types, root, d) ==> NoneDeeper(t, types, Subdirectories(t, order, types, d))
    decreases Covered(t, [root])
  {
    hide WellFormed, IsOrder, Walk, Subdirectories, NoneDeeper, LevelByLevel, Within;
    var dirs := Subdirectories(t, order, types, root);
    LevelsOfOne(t, order, types, root);
    forall d ensures Within(t, types, root, d) <==> d == root || exists i :: 0 <= i < |dirs| && Within(t, types, dirs[i], d) {
      WithinSplit(t, order, types, root, d);
    }
    forall i | 0 <= i < |dirs|
      ensures LevelByLevel(Walk(t, order, types, [dirs[i]])) <==>
              forall d :: Within(t, types, dirs[i], d) ==> NoneDeeper(t, types, Subdirectories(t, order, types, d))
    {
      CoversLess(t, order, types, root, i);
      BreadthFirstIff(t, order, types, dirs[i]);
    }
  }

  // ----- A tree that is not walked breadth-first -----

  /** /a/x and /b/y/z */
  function Example(): Tree {
    map[[] := Directory(true), ["a"] := Directory(true), ["a", "x"] := Regular([]),
        ["b"] := Directory(true), ["b", "y"] := Directory(true), ["b", "y", "z"] := Regular([])]
  }

  ghost function Listed(names: set<Name>): (r: seq<Name>)
    ensures Distinct(r) && forall n :: n in r <==> n in names
  {
    if names == {} then []
    else
      var n :| n in names;
      var more := Listed(names - {n});
      DistinctCons(n, more);
      [n] + more
  }

  /** Some order that lists "a" before "b". */
  ghost function ABeforeB(d: Path, names: set<Name>): (r: seq<Name>)
    ensures IsListing(r, names)
    ensures names == {"a", "b"} ==> r == [".", "..", "a", "b"]
  {
    if names == {"a", "b"} then [".", "..", "a", "b"]
    else [".", ".."] + Listed(names - {".", ".."})
  }

  lemma ExampleIsWellFormed()
    ensures WellFormed(Example())
  {
    var t := Example();
    assert [] in t && ["a"] in t && ["b"] in t && ["b", "y"] in t;
    forall p | p in t && p != [] ensures IsDirectory(t, Parent(p)) && !IsDots(p[|p| - 1]) {
      assert Parent(["a"]) == [] == Parent(["b"]);
      assert Parent(["a", "x"]) == ["a"] && Parent(["b", "y"]) == ["b"] && Parent(["b", "y", "z"]) == ["b", "y"];
    }
  }

  lemma ExampleChildren()
    ensures Children(Example(), []) == {"a", "b"}
  {
    var t := Example();
    forall n ensures n in Children(t, []) <==> n == "a" || n == "b" {
      ChildrenIff(t, [], n);
      assert [] + [n] == [n];
      assert n == "a" ==> [n] == ["a"];
      assert n == "b" ==> [n] == ["b"];
      assert |["a", "x"]| == 2 && |["b", "y"]| == 2 && |["b", "y", "z"]| == 3;
      if [n] in t {
        assert [n] == ["a"] || [n] == ["b"];
        assert [n][0] == n && ["a"][0] == "a" && ["b"][0] == "b";
      }
    }
  }

  lemma ExampleSubdirectories()
    ensures Subdirectories(Example(), ABeforeB, Types(true, true, true), []) == [["a"], ["b"]]
  {
    hide ABeforeB;
    var t, types := Example(), Types(true, true, true);
    ExampleChildren();
    assert t[[]] == Directory(true);
    var names := [".", "..", "a", "b"];
    assert Listing(t, ABeforeB, []) == names;
    assert names[1..] == ["..", "a", "b"] && names[1..][1..] == ["a", "b"];
    assert ["a", "b"][1..] == ["b"] && ["b"][1..] == [];
    assert [] + ["a"] == ["a"] && [] + ["b"] == ["b"];
    assert Entries([], ["b"]) == [["b"]];
    assert Entries([], ["a", "b"]) == [["a"], ["b"]];
    assert Entries([], names[1..]) == [["a"], ["b"]];
    assert EntriesIn(t, ABeforeB, []) == [["a"], ["b"]];
    assert t[["a"]] == Directory(true) && t[["b"]] == Directory(true);
    assert [["a"], ["b"]][1..] == [["b"]] && [["b"]][1..] == [];
    assert SelectPushed(t, types, [["b"]]) == [["b"]];
  }

  lemma ExampleReaches()
    ensures var t, types := Example(), Types(true, true, true);
            ReturnedBelow(t, types, ["b"], ["b", "y", "z"]) && ReturnedBelow(t, types, ["a"], ["a", "x"])
  {
    var t := Example();
    assert t[["a"]] == t[["b"]] == t[["b", "y"]] == Directory(true);
    var z, x := ["b", "y", "z"], ["a", "x"];
    assert z[..1] == ["b"] && z[..2] == ["b", "y"] && x[..1] == ["a"];
    assert ["b"] <= z && ["a"] <= x;
    forall k | 1 <= k < 3 ensures IsReadable(t, z[..k]) {
      assert k == 1 || k == 2;
    }
  }

  /** The file at depth 3 is returned before the one at depth 2. */
  lemma DeeperBeforeShallower()
    ensures WellFormed(Example()) && IsOrder(ABeforeB)
    ensures var w := Walk(Example(), ABeforeB, Types(true, true, true), [[]]);
            && !LevelByLevel(w)
            && exists i, j :: 0 <= i < j < |w| && w[i] == ["b", "y", "z"] && w[j] == ["a", "x"]
  {
    hide Walk, ReturnedBelow, ABeforeB, Example, WellFormed, EntriesIn, SelectWanted;
    var t, types := Example(), Types(true, true, true);
    var order: Order := ABeforeB;
    ExampleIsWellFormed();
    ExampleSubdirectories();
    ExampleReaches();
    WalkOfOne(t, order, types, []);
    SubtreesAreTakenWhole(t, order, types, [["a"]], [["b"]]);
    assert [["a"]] + [["b"]] == [["a"], ["b"]];
    MembersOfOne(t, order, types, ["a"]);
    MembersOfOne(t, order, types, ["b"]);
    var head, b, a := SelectWanted(t, types, EntriesIn(t, order, [])), Walk(t, order, types, [["b"]]), Walk(t, order, types, [["a"]]);
    var i :| 0 <= i < |b| && b[i] == ["b", "y", "z"];
    var j :| 0 <= j < |a| && a[j] == ["a", "x"];
    var w := Walk(t, order, types, [[]]);
    assert w == head + (b + a);
    assert w[|head| + i] == ["b", "y", "z"] && w[|head| + |b| + j] == ["a", "x"];
  }
}
