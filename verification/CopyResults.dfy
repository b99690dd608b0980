/** What a successful CopyDirectory means, and where it differs from what a caller would expect. */
module CopyResults {
  import opened Wrappers
  import opened FileTree
  import opened Traversal
  import opened FileSystem
  import opened ByteCopy
  import opened CopyDirectory
  import Delete

  /** The target of an entry: below `to`, and there below the source's own name if `to` is a directory already. */
  lemma TargetsGo(t: Tree, from: Path, to: Path, recursive: bool, rest: Path)
    ensures var c := PlanOf(t, from, to, recursive);
            && c.base <= from + rest
            && Target(c, from + rest) ==
               if recursive && to in t && t[to].Directory? && from != [] then to + [from[|from| - 1]] + rest else to + rest
  {
    var c := PlanOf(t, from, to, recursive);
    if c.base == from {
      assert (from + rest)[|from|..] == rest;
    } else {
      assert from == Parent(from) + [from[|from| - 1]];
      assert from + rest == Parent(from) + ([from[|from| - 1]] + rest);
      assert (from + rest)[|c.base|..] == [from[|from| - 1]] + rest;
      assert to + ([from[|from| - 1]] + rest) == to + [from[|from| - 1]] + rest;
    }
  }

  /**
   What a call sets out to copy, spelled out: the source, and below it what has only readable
   directories above it from the source on; if the copy is not recursive, only what is no directory
   and stands in the source itself.
   */
  lemma CopiedIff(t: Tree, order: Order, from: Path, to: Path, recursive: bool, p: Path)
    requires WellFormed(t) && IsOrder(order)
    ensures p in All(PlanOf(t, from, to, recursive), order) <==>
            || p == from
            || (p in t && from <= p && |from| < |p| && (recursive || (|p| == |from| + 1 && !t[p].Directory?))
                && forall k :: |from| <= k < |p| ==> p[..k] in t && t[p[..k]] == Directory(true))
  {
    hide Walk, WellFormed, IsOrder;
    ReturnedIff(t, order, PlanOf(t, from, to, recursive).types, from, p);
  }

  /**
   Copying beside the source: the source stays, every listed regular file has its image with the
   same bytes, every listed directory is there with the same permission unless something was there
   before, and what is neither is passed over.
   */
  lemma CopyIsFaithful(c: Plan, locked: set<Path>, all: seq<Path>, u: Tree)
    requires Sound(c) && Listed(c, all) && AllPlaceable(c, locked, all) && Agrees(c, all, u)
    requires !Comparable(c.from, Target(c, c.from))
    ensures forall p :: c.from <= p ==> Lookup(u, p) == Lookup(c.t, p)
    ensures forall p :: p in all && IsRegular(c.t, p) ==> c.base <= p && Lookup(u, Target(c, p)) == Lookup(c.t, p)
    ensures forall p :: p in all && IsDirectory(c.t, p) ==>
              c.base <= p && (if Target(c, p) in c.t then Lookup(u, Target(c, p)) == Lookup(c.t, Target(c, p))
                              else Lookup(u, Target(c, p)) == Lookup(c.t, p))
    ensures forall p :: p in all && p in c.t && c.t[p].Special? ==>
              c.base <= p && Lookup(u, Target(c, p)) == Lookup(c.t, Target(c, p))
    ensures forall i :: 0 < i < |all| && !c.t[all[i]].Special? ==>
              c.base <= all[i] && Target(c, all[i]) != [] && IsDirectory(u, Parent(Target(c, all[i])))
  {
    hide Sound, Listed, WellFormed, AllPlaceable, Target, Origin;
    forall p | c.from <= p ensures Lookup(u, p) == Lookup(c.t, p) {
      assert Lookup(u, p) == Expected(c, all, p);
      NotAnImage(c, all, p);
    }
    forall p | p in all ensures c.base <= p && Lookup(u, Target(c, p)) == Copy(c, p, Target(c, p)) && Target(c, p) != p {
      var i :| 0 <= i < |all| && all[i] == p;
      ImageIs(c, all, i, u);
      if Target(c, p) == p {
        NotAnImage(c, all, p);
        OriginOfTarget(c, p);
      }
    }
    forall i | 0 <= i < |all| ensures all[i] in c.t {
      InPlan(c, all, i);
    }
    forall i | 0 < i < |all| && !c.t[all[i]].Special?
      ensures c.base <= all[i] && Target(c, all[i]) != [] && IsDirectory(u, Parent(Target(c, all[i])))
    {
      HeldByDirectory(c, locked, all, i, u);
    }
  }

  lemma ImageIs(c: Plan, all: seq<Path>, i: nat, u: Tree)
    requires Sound(c) && Listed(c, all) && i < |all| && Agrees(c, all, u)
    ensures c.base <= all[i] && Lookup(u, Target(c, all[i])) == Copy(c, all[i], Target(c, all[i]))
    ensures c.from <= all[i] && all[i] in all
  {
    hide Sound, Listed, Copy, Target, Origin;
    InPlan(c, all, i);
    OriginOfTarget(c, all[i]);
    assert Lookup(u, Target(c, all[i])) == Expected(c, all, Target(c, all[i]));
  }

  lemma NotAnImage(c: Plan, all: seq<Path>, q: Path)
    requires Sound(c) && Listed(c, all) && c.from <= q && !Comparable(c.from, Target(c, c.from))
    ensures !IsImage(c, all, q)
  {
    hide Sound, Listed, Target, Origin;
    if IsImage(c, all, q) {
      var o := Origin(c, q);
      var j :| 0 <= j < |all| && all[j] == o;
      InPlan(c, all, j);
      TargetOfOrigin(c, q);
      SoundBase(c);
      BelowTheRoot(c, o);
    }
  }

  /** What was copied stands in a directory: the image of a source directory, unless nothing is in it. */
  lemma HeldByDirectory(c: Plan, locked: set<Path>, all: seq<Path>, i: nat, u: Tree)
    requires Sound(c) && Listed(c, all) && AllPlaceable(c, locked, all) && Agrees(c, all, u)
    requires 0 < i < |all| && all[i] in c.t && !c.t[all[i]].Special?
    ensures c.base <= all[i] && Target(c, all[i]) != [] && IsDirectory(u, Parent(Target(c, all[i])))
  {
    hide Sound, Listed, Target, Origin, Agrees, WellFormed;
    InPlan(c, all, i);
    var p := all[i];
    var q := Target(c, p);
    var d := Parent(p);
    TargetOfParent(c, p);
    var j :| 0 <= j < i && all[j] == d;
    ImageIs(c, all, j, u);
    assert Placeable(c, locked, p);
    if q in c.t {
      HeldInTree(c, q);
    }
  }

  lemma HeldInTree(c: Plan, q: Path)
    requires Sound(c) && q in c.t && q != []
    ensures IsDirectory(c.t, Parent(q))
  {
  }

  /**
   mkdir() finding something in its way counts as success, so the image of a directory is a
   directory exactly when no other kind of entry was there before.
   */
  lemma ImageOfADirectory(c: Plan, all: seq<Path>, i: nat, u: Tree)
    requires Sound(c) && Listed(c, all) && Agrees(c, all, u) && i < |all| && IsDirectory(c.t, all[i])
    ensures c.base <= all[i]
    ensures IsDirectory(u, Target(c, all[i])) <==> (Target(c, all[i]) in c.t ==> IsDirectory(c.t, Target(c, all[i])))
  {
    hide Sound, Listed, Target, Agrees;
    ImageIs(c, all, i, u);
  }

  /** Copying a directory into the directory it is in empties all its files, and is reported as success. */
  lemma FilesSurviveTheCopy(t: Tree, from: Path, to: Path, recursive: bool, all: seq<Path>, i: nat, u: Tree)
    requires Sound(PlanOf(t, from, to, recursive))
    requires var c := PlanOf(t, from, to, recursive);
             Listed(c, all) && Agrees(c, all, u) && i < |all| && IsRegular(t, all[i])
    ensures var c := PlanOf(t, from, to, recursive);
            && c.base <= all[i]
            && (Lookup(u, Target(c, all[i])) == Lookup(t, all[i]) <==>
                  !(recursive && from != [] && to == Parent(from)) || t[all[i]].bytes == [])
  {
    hide Agrees, Listed, WellFormed;
    var c := PlanOf(t, from, to, recursive);
    var p := all[i];
    ImageIs(c, all, i, u);
    SoundBase(c);
    BelowTheRoot(c, p);
    assert p == from + p[|from|..];
    var root := Target(c, from);
    assert Target(c, p) == p <==> root == from by {
      if Target(c, p) == p {
        assert |root| == |from|;
        assert root == p[..|from|] == from;
      }
    }
  }

  /** Nothing is left out exactly when every directory that holds something can be read. */
  lemma NothingIsMissedIff(c: Plan, order: Order)
    requires Sound(c) && IsOrder(order) && c.types.recursive
    ensures (forall p :: p in c.t && c.from <= p ==> p in All(c, order)) <==>
            (forall d :: d in c.t && c.from <= d && IsDirectory(c.t, d) ==> IsReadable(c.t, d) || Children(c.t, d) == {})
  {
    hide Walk, WellFormed, IsOrder, Reaches, Children, Delete.Directories;
    var w := Walk(c.t, order, c.types, [c.from]);
    assert c.types == Delete.ALL;
    Delete.WalkIsWalkedFrom(c.t, order, c.from);
    if d :| d in c.t && c.from <= d && IsDirectory(c.t, d) && !IsReadable(c.t, d) && Children(c.t, d) != {} {
      var n :| n in Children(c.t, d);
      ChildrenIff(c.t, d, n);
      var p := d + [n];
      assert c.from <= p && Parent(p) == d;
      if p in w {
        ReadableParent(c.t, c.types, c.from, p);
      }
      assert p != c.from;
    } else {
      forall p | p in c.t && c.from <= p ensures p in All(c, order) {
        if p != c.from {
          forall d | d in Delete.Directories(c.t, c.from, w) ensures IsReadable(c.t, d) || Children(c.t, d) == {} {
            InTheSource(c, w, d);
          }
          Delete.EverythingIsMet(c.t, c.from, w, p);
        }
      }
    }
  }

  lemma ReadableParent(t: Tree, types: Types, from: Path, p: Path)
    requires Reaches(t, types, from, p)
    ensures p != [] && IsReadable(t, Parent(p))
  {
  }

  lemma InTheSource(c: Plan, w: seq<Path>, d: Path)
    requires Sound(c) && Delete.WalkedFrom(c.t, c.from, w) && d in Delete.Directories(c.t, c.from, w)
    ensures d in c.t && c.from <= d
    ensures IsDirectory(c.t, d) || Children(c.t, d) == {}
  {
    hide Children, Delete.Directories;
    if d != c.from {
      ReachesShape(c.t, Delete.ALL, c.from, d);
    } else if !IsDirectory(c.t, d) {
      Delete.NothingBelow(c.t, d);
    }
  }

  // ----- The check for a target inside the source compares text -----

  predicate ProperNames(p: Path) {
    forall i :: 0 <= i < |p| ==> p[i] != "" && '/' !in p[i]
  }

  /** All but the last name are the same, and the last one is the beginning of the name beside it. */
  predicate TextuallyInside(p: Path, q: Path) {
    p == [] || (|p| <= |q| && Parent(p) <= q && p[|p| - 1] <= q[|p| - 1])
  }

  /** In `a + r` and `b + s`, a slash can only come after the names. */
  lemma BeforeTheSlash(a: Name, b: Name, r: string, s: string)
    requires '/' !in a && '/' !in b && (r == "" || r[0] == '/') && (s == "" || s[0] == '/')
    ensures r == "" ==> (a + r <= b + s <==> a <= b)
    ensures r != "" ==> (a + r <= b + s <==> a == b && r <= s)
  {
    var x, y := a + r, b + s;
    if |b| < |a| {
      assert x[|b|] == a[|b|] && a[|b|] in a;
      assert s != "" ==> y[|b|] == '/';
    } else {
      assert x[..|a|] == a && y[..|a|] == b[..|a|];
      assert x[|a|..] == r;
      if |a| < |b| {
        assert y[|a|] == b[|a|] && b[|a|] in b;
        assert r != "" ==> x[|a|] == '/';
      } else {
        assert y[|a|..] == s;
        assert x <= y <==> x[..|a|] == y[..|a|] && x[|a|..] <= y[|a|..];
      }
    }
  }

  lemma {:induction false} TextIff(p: Path, q: Path)
    requires ProperNames(p) && ProperNames(q)
    ensures RenderNames(p) <= RenderNames(q) <==> TextuallyInside(p, q)
  {
    if p != [] && q != [] {
      var r, s := RenderNames(p[1..]), RenderNames(q[1..]);
      BeforeTheSlash(p[0], q[0], r, s);
      TextIff(p[1..], q[1..]);
      assert "/" + p[0] + r == "/" + (p[0] + r) && "/" + q[0] + s == "/" + (q[0] + s);
      SlashInFront(p[0] + r, q[0] + s);
      if |p| > 1 {
        InsideStep(p, q);
      }
    }
  }

  lemma InsideStep(p: Path, q: Path)
    requires |p| > 1 && q != []
    ensures TextuallyInside(p, q) <==> p[0] == q[0] && TextuallyInside(p[1..], q[1..])
  {
    assert Parent(p) == [p[0]] + Parent(p[1..]);
    assert q == [q[0]] + q[1..];
    assert p[1..][|p| - 2] == p[|p| - 1];
    assert |p| <= |q| ==> q[1..][|p| - 2] == q[|p| - 1];
  }

  lemma SlashInFront(x: string, y: string)
    ensures "/" + x <= "/" + y <==> x <= y
  {
    assert ("/" + x)[1..] == x && ("/" + y)[1..] == y;
  }

  /** A copy is refused if the source's path is too long, if an end of it is missing, or on this comparison of the text. */
  lemma RefusedIff(t: Tree, from: Path, to: Path)
    requires WellFormed(t) && ProperNames(from) && ProperNames(to)
    ensures var dest := if to in t || to == [] then to else to[..|to| - 1];
            Refuses(t, from, to) <==>
              || |Render(from)| >= 4096
              || from !in t || dest !in t
              || TextuallyInside(from, dest)
    ensures |Render(from)| == if from == [] then 1 else |from| + TotalLength(from)
  {
    var dest := if to in t || to == [] then to else to[..|to| - 1];
    TextIff(from, dest);
    LengthOfText(from);
  }

  function TotalLength(p: Path): nat {
    if p == [] then 0 else |p[0]| + TotalLength(p[1..])
  }

  lemma {:induction false} LengthOfText(p: Path)
    ensures |RenderNames(p)| == |p| + TotalLength(p)
  {
    if p != [] {
      LengthOfText(p[1..]);
    }
  }

  /** So copying "/a" to an existing "/ab" beside it is refused as if it were inside. */
  lemma LongerSiblingIsRefused(t: Tree, from: Path, suffix: string, to: Path)
    requires WellFormed(t) && from in t && from != [] && suffix != ""
    requires to == Parent(from) + [from[|from| - 1] + suffix] && to in t
    requires ProperNames(from) && ProperNames(to)
    ensures Refuses(t, from, to) && !Comparable(from, to)
  {
    RefusedIff(t, from, to);
    assert from[|from| - 1] != to[|from| - 1];
  }

  // ----- Two calls that report success -----

  /** What both calls start from: nothing is refused but the root itself, and no read or write fails. */
  method Prepared(tree: Tree, order: Order) returns (fs: FileSystem)
    requires WellFormed(tree) && IsOrder(order)
    ensures fresh(fs) && fs.Valid() && fs.tree == tree && fs.order == order && fs.locked == {[]} && fs.NeverFails()
  {
    fs := new FileSystem(tree, order, {[]}, n => 1);
  }

  /** /a/f, with one byte in it. */
  function OneFile(): Tree {
    map[[] := Directory(true), ["a"] := Directory(true), ["a", "f"] := Regular([1])]
  }

  function IntoTheParent(): Plan {
    Plan(OneFile(), Types(true, true, true), ["a"], [], [])
  }

  lemma OneFileIsWellFormed()
    ensures WellFormed(OneFile())
  {
    var t := OneFile();
    forall p | p in t && p != [] ensures IsDirectory(t, Parent(p)) && !IsDots(p[|p| - 1]) {
      assert Parent(["a"]) == [] && Parent(["a", "f"]) == ["a"];
    }
  }

  lemma CopyToTheParentIsAllowed()
    ensures !Refuses(OneFile(), ["a"], []) && !CopiesOntoAncestor(OneFile(), ["a"], [], true)
    ensures PlanOf(OneFile(), ["a"], [], true) == IntoTheParent()
  {
    assert RenderNames(["a"]) == "/a" by {
      assert ["a"][1..] == [] && "/" + "a" + "" == "/a";
    }
    assert Parent(["a"]) == [];
  }

  lemma OneFileFindsPlace(p: Path)
    requires p == ["a"] || p == ["a", "f"]
    ensures var c := IntoTheParent(); c.base <= p && p in c.t && Placeable(c, {[]}, p)
  {
    var c := IntoTheParent();
    assert Target(c, p) == p;
    assert Parent(["a", "f"]) == ["a"] && !IsDots("f") && c.t[["a"]] == Directory(true);
  }

  lemma OneFileIsReached(order: Order)
    requires IsOrder(order) && WellFormed(OneFile())
    ensures ["a", "f"] in All(IntoTheParent(), order)
  {
    hide Walk, WellFormed, IsOrder;
    var c, f := IntoTheParent(), ["a", "f"];
    WalkMembers(c.t, order, c.types, [["a"]]);
    assert f[..1] == ["a"] && c.t[["a"]] == Directory(true) && c.t[f] == Regular([1]);
    assert ["a"] <= f && Reaches(c.t, c.types, [["a"]][0], f);
  }

  lemma OneFileIsListed(order: Order)
    requires IsOrder(order)
    ensures var c := IntoTheParent();
            && WellFormed(c.t) && Sound(c) && AllPlaceable(c, {[]}, All(c, order)) && ["a", "f"] in All(c, order)
  {
    OneFileIsWellFormed();
    CopyToTheParentIsAllowed();
    PlanIsSound(OneFile(), ["a"], [], true);
    hide Walk, WellFormed, IsOrder, Sound, All, Placeable, HeldBefore, Distinct;
    var c := IntoTheParent();
    WalkIsListed(c, order);
    OneFileIsReached(order);
    var all := All(c, order);
    forall p | p in all ensures c.base <= p && p in c.t && Placeable(c, {[]}, p) {
      var i :| 0 <= i < |all| && all[i] == p;
      assert p == ["a"] || p == ["a", "f"];
      OneFileFindsPlace(p);
    }
  }

  /** Copying /a into /, where it already is, empties /a/f; the answer is true. */
  method EmptiesItself(order: Order) returns (success: bool, after: Tree)
    requires IsOrder(order)
    ensures success && Lookup(after, ["a", "f"]) == Some(Regular([]))
  {
    hide Walk, WellFormed, IsOrder, Sound, FileSystem.NeverFails, Refuses, AllPlaceable;
    OneFileIsWellFormed();
    var fs := Prepared(OneFile(), order);
    CopyToTheParentIsAllowed();
    OneFileIsListed(order);
    success := CopyDirectory.CopyDirectory(fs, ["a"], [], true);
    after := fs.tree;
    ghost var c := IntoTheParent();
    ghost var f := ["a", "f"];
    assert Origin(c, f) == f && c.t[f] == Regular([1]);
    assert Lookup(after, f) == Expected(c, All(c, order), f);
  }

  /** An empty directory /d and a file /f. */
  function BesideAFile(): Tree {
    map[[] := Directory(true), ["d"] := Directory(true), ["f"] := Regular([1])]
  }

  function OntoAFile(): Plan {
    Plan(BesideAFile(), Types(true, true, true), ["d"], ["d"], ["f"])
  }

  lemma BesideAFileIsWellFormed()
    ensures WellFormed(BesideAFile())
  {
    var t := BesideAFile();
    forall p | p in t && p != [] ensures IsDirectory(t, Parent(p)) && !IsDots(p[|p| - 1]) {
      assert Parent(["d"]) == [] == Parent(["f"]);
    }
  }

  lemma CopyOntoTheFileIsAllowed()
    ensures !Refuses(BesideAFile(), ["d"], ["f"]) && !CopiesOntoAncestor(BesideAFile(), ["d"], ["f"], true)
    ensures PlanOf(BesideAFile(), ["d"], ["f"], true) == OntoAFile()
  {
    assert RenderNames(["d"]) == "/d" && RenderNames(["f"]) == "/f" by {
      assert ["d"][1..] == [] == ["f"][1..] && "/" + "d" + "" == "/d" && "/" + "f" + "" == "/f";
    }
    assert "/d"[1] != "/f"[1];
  }

  lemma OnlyTheDirectoryIsListed(order: Order)
    requires IsOrder(order)
    ensures var c := OntoAFile();
            && WellFormed(c.t) && Sound(c) && AllPlaceable(c, {[]}, All(c, order)) && forall p :: p in All(c, order) ==> p == ["d"]
  {
    hide Walk;
    var c := OntoAFile();
    BesideAFileIsWellFormed();
    CopyOntoTheFileIsAllowed();
    PlanIsSound(BesideAFile(), ["d"], ["f"], true);
    WalkIsListed(c, order);
    var all := All(c, order);
    forall p | p in all ensures p == ["d"] && c.base <= p && p in c.t && Placeable(c, {[]}, p) {
      var i :| 0 <= i < |all| && all[i] == p;
      assert Target(c, ["d"]) == ["f"];
    }
  }

  /** Copying the empty directory /d to the file /f changes nothing; the answer is true. */
  method CopiesNothing(order: Order) returns (success: bool, after: Tree)
    requires IsOrder(order)
    ensures success && after == BesideAFile() && !IsDirectory(after, ["f"])
  {
    hide Walk, WellFormed, IsOrder, Sound, FileSystem.NeverFails, Refuses, AllPlaceable;
    BesideAFileIsWellFormed();
    var fs := Prepared(BesideAFile(), order);
    CopyOntoTheFileIsAllowed();
    OnlyTheDirectoryIsListed(order);
    success := CopyDirectory.CopyDirectory(fs, ["d"], ["f"], true);
    after := fs.tree;
    ghost var c := OntoAFile();
    forall q ensures Lookup(after, q) == Lookup(BesideAFile(), q) {
      assert Lookup(after, q) == Expected(c, All(c, order), q);
      if IsImage(c, All(c, order), q) {
        TargetOfOrigin(c, q);
        assert q == ["f"] && c.t[["d"]] == Directory(true);
      }
    }
    SameLookups(after, BesideAFile());
  }

  lemma SameLookups(t: Tree, u: Tree)
    requires forall q :: Lookup(t, q) == Lookup(u, q)
    ensures t == u
  {
    assert forall q :: (q in t <==> Lookup(t, q).Some?) && (q in u <==> Lookup(u, q).Some?);
    assert t.Keys == u.Keys;
    forall q | q in t ensures t[q] == u[q] {
      assert Lookup(t, q) == Lookup(u, q);
    }
  }
}
