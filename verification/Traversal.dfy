/**
 What the walk of a FileEnumerator guarantees: which paths it returns, and in which order.
 */
module Traversal {
  import opened FileTree

  /** `p` lies below `d`, behind readable directories only. */
  ghost predicate Reaches(t: Tree, types: Types, d: Path, p: Path) {
    && p in t && d <= p && |d| < |p|
    && (types.recursive || |p| == |d| + 1)
    && forall k :: |d| <= k < |p| ==> IsReadable(t, p[..k])
  }

  ghost predicate ReachesAny(t: Tree, types: Types, pending: seq<Path>, p: Path) {
    exists i :: 0 <= i < |pending| && Reaches(t, types, pending[i], p)
  }

  /** A child of a readable directory, or something behind a child directory. */
  lemma ReachesSplit(t: Tree, types: Types, d: Path, p: Path)
    requires WellFormed(t)
    ensures Reaches(t, types, d, p) <==>
            || (p in t && IsChildOf(p, d) && IsReadable(t, d))
            || (types.recursive && |d| + 1 < |p| && d <= p && IsReadable(t, d) && Reaches(t, types, p[..|d| + 1], p))
  {
    hide WellFormed;
    if d <= p && |d| < |p| {
      var e := p[..|d| + 1];
      assert p[..|d|] == d;
      assert e <= p;
      if Reaches(t, types, e, p) && IsReadable(t, d) {
        forall k | |d| <= k < |p| ensures IsReadable(t, p[..k]) {
        }
      }
    }
  }

  lemma ReachesStep(t: Tree, order: Order, types: Types, pending: seq<Path>, p: Path)
    requires WellFormed(t) && IsOrder(order) && pending != [] && Apart(pending)
    ensures ReachesAny(t, types, pending, p) <==>
            (p in t && IsChildOf(p, Top(pending)) && IsReadable(t, Top(pending)))
            || ReachesAny(t, types, NextStack(t, order, types, pending), p)
  {
    hide EntriesIn, Reaches, WellFormed, IsOrder, Apart;
    var d, rest := Top(pending), pending[..|pending| - 1];
    var pushed := SelectPushed(t, types, EntriesIn(t, order, d));
    var next := rest + pushed;
    PushedAre(t, order, types, d);
    ReachesSplit(t, types, d, p);
    if ReachesAny(t, types, pending, p) {
      var i :| 0 <= i < |pending| && Reaches(t, types, pending[i], p);
      if i < |rest| {
        assert next[i] == pending[i];
      } else if |p| > |d| + 1 {
        PushedOnTheWay(t, types, d, p, pushed);
        var j :| 0 <= j < |pushed| && pushed[j] == p[..|d| + 1];
        assert next[|rest| + j] == p[..|d| + 1];
      }
    }
    if p in t && IsChildOf(p, d) && IsReadable(t, d) {
      assert pending[|pending| - 1] == d;
    }
    if ReachesAny(t, types, next, p) {
      var i :| 0 <= i < |next| && Reaches(t, types, next[i], p);
      if i < |rest| {
        assert pending[i] == next[i];
      } else {
        assert next[i] in pushed;
        ReachesShape(t, types, next[i], p);
        assert p[..|d| + 1] == next[i] && d <= p;
        assert pending[|pending| - 1] == d;
      }
    }
  }

  lemma PushedOnTheWay(t: Tree, types: Types, d: Path, p: Path, pushed: seq<Path>)
    requires forall q :: q in pushed <==>
               q in t && IsChildOf(q, d) && IsReadable(t, d) && types.recursive && IsDirectory(t, q)
    requires Reaches(t, types, d, p) && |p| > |d| + 1
    ensures p[..|d| + 1] in pushed && types.recursive
  {
    var e := p[..|d| + 1];
    assert Parent(e) == p[..|d|] == d;
    assert IsReadable(t, e);
  }

  lemma ReachesShape(t: Tree, types: Types, d: Path, p: Path)
    requires Reaches(t, types, d, p)
    ensures d <= p && |d| < |p|
  {
  }

  /** Exactly the entries of a requested type that can be reached are returned. */
  lemma {:induction false} WalkMembers(t: Tree, order: Order, types: Types, pending: seq<Path>)
    requires WellFormed(t) && IsOrder(order) && Apart(pending)
    ensures forall p :: p in Walk(t, order, types, pending) <==> Wanted(t, types, p) && ReachesAny(t, types, pending, p)
    decreases Covered(t, pending), |pending|
  {
    hide EntriesIn, NextStack, Reaches, Apart, WellFormed, IsOrder;
    if pending != [] {
      var next, entries := NextStack(t, order, types, pending), EntriesIn(t, order, Top(pending));
      NextStackIs(t, order, types, pending);
      SizeShrinks(t, order, types, pending);
      WalkMembers(t, order, types, next);
      EntriesOf(t, order, Top(pending));
      SelectedAre(t, types, entries);
      forall p ensures p in Walk(t, order, types, pending) <==> Wanted(t, types, p) && ReachesAny(t, types, pending, p) {
        ReachesStep(t, order, types, pending, p);
      }
    }
  }

  lemma SizeShrinks(t: Tree, order: Order, types: Types, pending: seq<Path>)
    requires WellFormed(t) && IsOrder(order) && Apart(pending) && pending != []
    ensures var next := NextStack(t, order, types, pending);
            Covered(t, next) < Covered(t, pending) || (Covered(t, next) == Covered(t, pending) && |next| < |pending|)
  {
    NextStackIs(t, order, types, pending);
    if Top(pending) !in t {
      var next := pending[..|pending| - 1];
      forall p | p in Covered(t, pending) ensures p in Covered(t, next) {
        var i :| 0 <= i < |pending| && pending[i] <= p;
        if i == |pending| - 1 {
          AncestorsExist(t, Top(pending), p);
        } else {
          assert next[i] <= p;
        }
      }
    }
  }

  lemma {:induction false} AncestorsExist(t: Tree, d: Path, p: Path)
    requires WellFormed(t) && p in t && d <= p
    ensures d in t
    ensures d != p ==> IsDirectory(t, d)
    decreases |p|
  {
    if d != p {
      assert d <= Parent(p);
      AncestorsExist(t, d, Parent(p));
    }
  }

  /** Everything that is returned comes out of a directory at or below a pending one. */
  lemma WalkIsBelow(t: Tree, order: Order, types: Types, pending: seq<Path>)
    requires WellFormed(t) && IsOrder(order) && Apart(pending)
    ensures forall p :: p in Walk(t, order, types, pending) ==> p != [] && IsPending(pending, Parent(p))
  {
    hide Walk;
    WalkMembers(t, order, types, pending);
    forall p | p in Walk(t, order, types, pending) ensures p != [] && IsPending(pending, Parent(p)) {
      var i :| 0 <= i < |pending| && Reaches(t, types, pending[i], p);
      assert pending[i] <= Parent(p);
    }
  }

  /** `p` lies below `q`, at any depth. */
  predicate ProperlyInside(p: Path, q: Path) {
    q <= p && |q| < |p|
  }

  /**
   The order of the walk: no entry twice; what is listed in a directory precedes what is listed
   in the directories below it; and the entries of one directory stand together.
   */
  ghost predicate InWalkOrder(w: seq<Path>) {
    && Distinct(w)
    && (forall i :: 0 <= i < |w| ==> w[i] != [])
    && (forall i, j :: 0 <= i < |w| && 0 <= j < |w| && ProperlyInside(Parent(w[j]), Parent(w[i])) ==> i < j)
    && (forall i, j, k :: 0 <= i < j < k < |w| && Parent(w[i]) == Parent(w[k]) ==> Parent(w[j]) == Parent(w[i]))
  }

  lemma PendingGrows(pending: seq<Path>, p: Path, q: Path)
    requires IsPending(pending, p) && p <= q
    ensures IsPending(pending, q)
  {
    var i :| 0 <= i < |pending| && pending[i] <= p;
    assert pending[i] <= q;
  }

  lemma Concatenated(head: seq<Path>, tail: seq<Path>, d: Path, pending: seq<Path>)
    requires Distinct(head) && forall i :: 0 <= i < |head| ==> IsChildOf(head[i], d)
    requires InWalkOrder(tail) && forall i :: 0 <= i < |tail| ==> IsPending(pending, Parent(tail[i]))
    requires !IsPending(pending, d)
    ensures InWalkOrder(head + tail)
  {
    var w := head + tail;
    forall i | 0 <= i < |w|
      ensures w[i] != [] && (if i < |head| then Parent(w[i]) == d else IsPending(pending, Parent(w[i])))
    {
      assert i >= |head| ==> w[i] == tail[i - |head|];
    }
    forall i, j | 0 <= i < j < |w| ensures w[i] != w[j] {
      assert i >= |head| ==> w[i] == tail[i - |head|] && w[j] == tail[j - |head|];
    }
    forall i, j | 0 <= i < |w| && 0 <= j < |w| && ProperlyInside(Parent(w[j]), Parent(w[i])) ensures i < j {
      if i >= |head| && j < |head| {
        PendingGrows(pending, Parent(w[i]), d);
        assert false;
      }
      assert i >= |head| && j >= |head| ==> w[i] == tail[i - |head|] && w[j] == tail[j - |head|];
    }
    forall i, j, k | 0 <= i < j < k < |w| && Parent(w[i]) == Parent(w[k]) ensures Parent(w[j]) == Parent(w[i]) {
      if i >= |head| {
        assert w[i] == tail[i - |head|] && w[j] == tail[j - |head|] && w[k] == tail[k - |head|];
      }
    }
  }

  lemma {:induction false} WalkIsOrdered(t: Tree, order: Order, types: Types, pending: seq<Path>)
    requires WellFormed(t) && IsOrder(order) && Apart(pending)
    ensures InWalkOrder(Walk(t, order, types, pending))
    decreases Covered(t, pending), |pending|
  {
    hide EntriesIn, NextStack, Reaches, Apart, WellFormed, IsOrder;
    if pending != [] {
      var d := Top(pending);
      var next, entries := NextStack(t, order, types, pending), EntriesIn(t, order, d);
      NextStackIs(t, order, types, pending);
      SizeShrinks(t, order, types, pending);
      WalkIsOrdered(t, order, types, next);
      WalkIsBelow(t, order, types, next);
      EntriesOf(t, order, d);
      SelectedAre(t, types, entries);
      SelectedDistinct(t, types, entries);
      Concatenated(SelectWanted(t, types, entries), Walk(t, order, types, next), d, next);
    }
  }

  /**
   The header promises that "all files in one directory will be returned before any files in a
   subdirectory", and a directory is returned before anything inside it.
   */
  lemma DirectoriesComeFirst(t: Tree, order: Order, types: Types, pending: seq<Path>, w: seq<Path>, i: nat, j: nat)
    requires WellFormed(t) && IsOrder(order) && Apart(pending) && w == Walk(t, order, types, pending)
    requires i < |w| && j < |w| && w[i] != [] && w[j] != []
    requires ProperlyInside(w[j], w[i]) || ProperlyInside(Parent(w[j]), Parent(w[i]))
    ensures i < j
  {
    hide Walk, WellFormed, IsOrder;
    WalkIsOrdered(t, order, types, pending);
    assert ProperlyInside(w[j], w[i]) ==> ProperlyInside(Parent(w[j]), Parent(w[i]));
  }

  /**
   The stack makes the walk take whole subtrees: everything below the directories pushed last is
   returned before anything below those pushed earlier.
   */
  lemma {:induction false} SubtreesAreTakenWhole(t: Tree, order: Order, types: Types, lower: seq<Path>, upper: seq<Path>)
    requires WellFormed(t) && IsOrder(order) && Apart(lower + upper)
    ensures Apart(lower) && Apart(upper)
    ensures Walk(t, order, types, lower + upper) == Walk(t, order, types, upper) + Walk(t, order, types, lower)
    decreases Covered(t, lower + upper), |lower + upper|
  {
    hide EntriesIn, WellFormed, IsOrder, Covered, SelectPushed, SelectWanted;
    var all := lower + upper;
    assert forall i :: 0 <= i < |lower| ==> lower[i] == all[i];
    assert forall i :: 0 <= i < |upper| ==> upper[i] == all[|lower| + i];
    if upper == [] {
      assert all == lower;
      assert Walk(t, order, types, upper) + Walk(t, order, types, lower) == Walk(t, order, types, lower);
    } else {
      assert all[..|all| - 1] == lower + upper[..|upper| - 1];
      var d, next := Top(upper), NextStack(t, order, types, upper);
      var entries := SelectWanted(t, types, EntriesIn(t, order, d));
      assert NextStack(t, order, types, all) == lower + next;
      NextStackIs(t, order, types, all);
      NextStackIs(t, order, types, upper);
      SizeShrinks(t, order, types, all);
      SubtreesAreTakenWhole(t, order, types, lower, next);
      assert entries + (Walk(t, order, types, next) + Walk(t, order, types, lower))
          == (entries + Walk(t, order, types, next)) + Walk(t, order, types, lower);
    }
  }

  /**
   What the walk of one directory returns, spelled out: what lies below it, in it if the walk is not
   recursive, is of a requested type, and has only readable directories above it from there on.
   */
  lemma ReturnedIff(t: Tree, order: Order, types: Types, d: Path, p: Path)
    requires WellFormed(t) && IsOrder(order)
    ensures Apart([d])
    ensures p in Walk(t, order, types, [d]) <==>
            && p in t && d <= p && |d| < |p|
            && (types.recursive || |p| == |d| + 1)
            && (if t[p].Directory? then types.directories else types.files)
            && (forall k :: |d| <= k < |p| ==> p[..k] in t && t[p[..k]] == Directory(true))
  {
    hide Walk, WellFormed, IsOrder;
    WalkMembers(t, order, types, [d]);
    assert [d][0] == d;
    if Reaches(t, types, d, p) {
      forall k | |d| <= k < |p| ensures p[..k] in t && t[p[..k]] == Directory(true) {
        assert IsReadable(t, p[..k]);
      }
    }
    if p in t && d <= p && forall k :: |d| <= k < |p| ==> p[..k] in t && t[p[..k]] == Directory(true) {
      forall k | |d| <= k < |p| ensures IsReadable(t, p[..k]) {
        assert p[..k] in t;
      }
    }
  }

  lemma {:induction false} SelectionKeepsOrder(t: Tree, types: Types, d: Path, names: seq<Name>,
                                               i: nat, j: nat, a: nat, b: nat)
    requires Distinct(names) && a < |names| && b < |names|
    requires var paths := SelectWanted(t, types, Entries(d, names));
             i < j < |paths| && paths[i] == d + [names[a]] && paths[j] == d + [names[b]]
    ensures a < b
  {
    hide IsDots, Wanted;
    var p, more := d + [names[0]], names[1..];
    var rest := SelectWanted(t, types, Entries(d, more));
    SelectedFrom(t, types, d, more);
    assert a > 0 ==> names[a] == more[a - 1];
    assert b > 0 ==> names[b] == more[b - 1];
    var taken := !IsDots(names[0]) && Wanted(t, types, p);
    assert SelectWanted(t, types, Entries(d, names)) == if taken then [p] + rest else rest;
    var m, n := if taken then i - 1 else i, if taken then j - 1 else j;
    assert rest[n] == d + [names[b]] && rest[n] in rest;
    assert b > 0 by {
      LastName(d, names[0], names[b]);
    }
    if m >= 0 {
      assert rest[m] == d + [names[a]] && rest[m] in rest;
      assert a > 0 by {
        LastName(d, names[0], names[a]);
      }
      SelectionKeepsOrder(t, types, d, more, m, n, a - 1, b - 1);
    } else {
      LastName(d, names[0], names[a]);
    }
  }

  lemma LastName(d: Path, m: Name, n: Name)
    ensures d + [m] == d + [n] <==> m == n
  {
    assert (d + [m])[|d|] == m && (d + [n])[|d|] == n;
  }

  lemma SelectedFrom(t: Tree, types: Types, d: Path, names: seq<Name>)
    requires Distinct(names)
    ensures forall n: Name :: d + [n] in SelectWanted(t, types, Entries(d, names)) ==> n in names
  {
    EntriesAre(d, names);
    SelectedAre(t, types, Entries(d, names));
    forall n: Name | d + [n] in SelectWanted(t, types, Entries(d, names)) ensures n in names {
      assert ListedIn(d + [n], d, names);
    }
  }

  /** Entries of one directory are returned in the order in which the system lists them. */
  lemma {:induction false} SiblingsInListedOrder(t: Tree, order: Order, types: Types, pending: seq<Path>,
                                                 i: nat, j: nat, d: Path, a: nat, b: nat)
    requires WellFormed(t) && IsOrder(order) && Apart(pending)
    requires var w, names := Walk(t, order, types, pending), order(d, Children(t, d));
             && i < j < |w| && a < |names| && b < |names|
             && w[i] == d + [names[a]] && w[j] == d + [names[b]]
    ensures a < b
    decreases Covered(t, pending), |pending|
  {
    hide EntriesIn, NextStack, Reaches, Apart, WellFormed, IsOrder, Children, SelectWanted;
    var top := Top(pending);
    var next, head := NextStack(t, order, types, pending), SelectWanted(t, types, EntriesIn(t, order, top));
    NextStackIs(t, order, types, pending);
    SizeShrinks(t, order, types, pending);
    WalkIsBelow(t, order, types, next);
    var tail := Walk(t, order, types, next);
    EntriesOf(t, order, top);
    SelectedAre(t, types, EntriesIn(t, order, top));
    var w := Walk(t, order, types, pending);
    assert w == head + tail;
    ParentOf(d, order(d, Children(t, d))[a]);
    ParentOf(d, order(d, Children(t, d))[b]);
    if i >= |head| {
      assert w[i] == tail[i - |head|] && w[j] == tail[j - |head|];
      SiblingsInListedOrder(t, order, types, next, i - |head|, j - |head|, d, a, b);
    } else {
      assert w[i] == head[i] && head[i] in head && d == top;
      if j < |head| {
        InOneDirectory(t, order, types, top, i, j, a, b);
      }
    }
  }

  lemma ParentOf(d: Path, n: Name)
    ensures d + [n] != [] && Parent(d + [n]) == d
  {
  }

  lemma InOneDirectory(t: Tree, order: Order, types: Types, d: Path, i: nat, j: nat, a: nat, b: nat)
    requires IsOrder(order)
    requires var paths, names := SelectWanted(t, types, EntriesIn(t, order, d)), order(d, Children(t, d));
             && i < j < |paths| && a < |names| && b < |names|
             && paths[i] == d + [names[a]] && paths[j] == d + [names[b]]
    ensures a < b
  {
    hide SelectWanted, Children, Entries;
    var names := order(d, Children(t, d));
    assert IsListing(names, Children(t, d));
    assert IsReadable(t, d) by {
      NothingUnreadable(t, order, types, d);
    }
    SelectionKeepsOrder(t, types, d, names, i, j, a, b);
  }

  lemma NothingUnreadable(t: Tree, order: Order, types: Types, d: Path)
    ensures !IsReadable(t, d) ==> SelectWanted(t, types, EntriesIn(t, order, d)) == []
  {
  }

  /** A walk depends only on the trees below its stack. */
  ghost predicate SameBelow(t: Tree, u: Tree, pending: seq<Path>) {
    forall p :: IsPending(pending, p) ==> (p in t <==> p in u) && (p in t ==> t[p] == u[p])
  }

  lemma SameListing(t: Tree, u: Tree, order: Order, d: Path)
    requires WellFormed(t) && WellFormed(u)
    requires forall p :: d <= p ==> (p in t <==> p in u) && (p in t ==> t[p] == u[p])
    ensures EntriesIn(t, order, d) == EntriesIn(u, order, d)
  {
    assert Children(t, d) == Children(u, d) by {
      forall n ensures n in Children(t, d) <==> n in Children(u, d) {
        ChildrenIff(t, d, n);
        ChildrenIff(u, d, n);
        assert d <= d + [n];
      }
    }
  }

  lemma {:induction false} SameSelection(t: Tree, u: Tree, types: Types, paths: seq<Path>)
    requires forall p :: p in paths ==> (IsDirectory(t, p) <==> IsDirectory(u, p))
    ensures SelectWanted(t, types, paths) == SelectWanted(u, types, paths)
    ensures SelectPushed(t, types, paths) == SelectPushed(u, types, paths)
  {
    if paths != [] {
      assert paths == [paths[0]] + paths[1..];
      SameSelection(t, u, types, paths[1..]);
    }
  }

  lemma {:induction false} SameWalk(t: Tree, u: Tree, order: Order, types: Types, pending: seq<Path>)
    requires WellFormed(t) && WellFormed(u) && IsOrder(order) && Apart(pending)
    requires SameBelow(t, u, pending)
    ensures Walk(t, order, types, pending) == Walk(u, order, types, pending)
    decreases Covered(t, pending), |pending|
  {
    hide EntriesIn, Apart, WellFormed, IsOrder;
    if pending != [] {
      var d := Top(pending);
      assert forall p :: d <= p ==> pending[|pending| - 1] <= p && IsPending(pending, p);
      SameListing(t, u, order, d);
      EntriesOf(t, order, d);
      forall p | p in EntriesIn(t, order, d) ensures IsDirectory(t, p) <==> IsDirectory(u, p) {
        assert d <= p && IsPending(pending, p);
      }
      SameSelection(t, u, types, EntriesIn(t, order, d));
      NextStackIs(t, order, types, pending);
      SizeShrinks(t, order, types, pending);
      SameWalk(t, u, order, types, NextStack(t, order, types, pending));
    }
  }
}
