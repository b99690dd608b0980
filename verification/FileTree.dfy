/**
 A finite file tree, and the order in which a FileEnumerator walks it.

 A path is the sequence of its components; the root is the empty sequence. A tree maps each
 existing path to its kind, as lstat() reports it.
 */
module FileTree {

  type Name = string
  type Path = seq<Name>

  datatype Kind =
    | Directory(readable: bool)
    | Regular(bytes: seq<bv8>)
      // symbolic links, sockets, devices
    | Special

  type Tree = map<Path, Kind>

  predicate IsDirectory(t: Tree, p: Path) {
    p in t && t[p].Directory?
  }

  predicate IsReadable(t: Tree, p: Path) {
    IsDirectory(t, p) && t[p].readable
  }

  function Parent(p: Path): Path
    requires p != []
  {
    p[..|p| - 1]
  }

  ghost predicate WellFormed(t: Tree) {
    && IsDirectory(t, [])
    && forall p :: p in t && p != [] ==> IsDirectory(t, Parent(p)) && !IsDots(p[|p| - 1])
  }

  predicate IsDots(n: Name) {
    n == "." || n == ".."
  }

  function Children(t: Tree, d: Path): set<Name> {
    set p | p in t && |p| == |d| + 1 && d <= p :: p[|d|]
  }

  lemma ChildrenIff(t: Tree, d: Path, n: Name)
    ensures n in Children(t, d) <==> d + [n] in t
  {
    if n in Children(t, d) {
      var p :| p in t && |p| == |d| + 1 && d <= p && p[|d|] == n;
      assert p == d + [n];
    }
    if d + [n] in t {
      assert d <= d + [n] && (d + [n])[|d|] == n;
    }
  }

  // ----- What the system lists -----

  /** The order in which the system would list a directory with these children. */
  type Order = (Path, set<Name>) -> seq<Name>

  ghost predicate IsListing(names: seq<Name>, children: set<Name>) {
    && Distinct(names)
    && (forall n :: n in names <==> n in children || IsDots(n))
  }

  /** Some order, the same for the whole run; every directory is listed once, "." and ".." included. */
  ghost predicate IsOrder(order: Order) {
    forall d: Path, children: set<Name> :: IsListing(order(d, children), children)
  }

  /** What readdir() gives, or nothing when the directory cannot be opened. */
  function Listing(t: Tree, order: Order, d: Path): seq<Name> {
    if IsReadable(t, d) then order(d, Children(t, d)) else []
  }

  /** The listed paths without "." and "..". */
  function Entries(d: Path, names: seq<Name>): seq<Path> {
    if names == [] then []
    else if IsDots(names[0]) then Entries(d, names[1..])
    else [d + [names[0]]] + Entries(d, names[1..])
  }

  // ----- The walk -----

  datatype Types = Types(files: bool, directories: bool, recursive: bool)

  predicate Wanted(t: Tree, types: Types, p: Path) {
    if IsDirectory(t, p) then types.directories else types.files
  }

  function SelectWanted(t: Tree, types: Types, paths: seq<Path>): seq<Path> {
    if paths == [] then []
    else if Wanted(t, types, paths[0]) then [paths[0]] + SelectWanted(t, types, paths[1..])
    else SelectWanted(t, types, paths[1..])
  }

  /** The directories that are put on the stack. */
  function SelectPushed(t: Tree, types: Types, paths: seq<Path>): seq<Path> {
    if paths == [] then []
    else if types.recursive && IsDirectory(t, paths[0]) then [paths[0]] + SelectPushed(t, types, paths[1..])
    else SelectPushed(t, types, paths[1..])
  }

  predicate Distinct<T(==)>(xs: seq<T>) {
    forall i, j :: 0 <= i < j < |xs| ==> xs[i] != xs[j]
  }

  lemma DistinctCons<T>(x: T, xs: seq<T>)
    requires Distinct(xs) && x !in xs
    ensures Distinct([x] + xs)
  {
  }

  predicate Comparable(p: Path, q: Path) {
    p <= q || q <= p
  }

  /** No pending directory lies inside another. */
  ghost predicate Apart(pending: seq<Path>) {
    forall i, j :: 0 <= i < j < |pending| ==> !Comparable(pending[i], pending[j])
  }

  /** All that lies at or below a pending directory. */
  function Covered(t: Tree, pending: seq<Path>): set<Path> {
    set p | p in t && IsPending(pending, p)
  }

  predicate IsPending(pending: seq<Path>, p: Path) {
    exists i :: 0 <= i < |pending| && pending[i] <= p
  }

  predicate IsChildOf(p: Path, d: Path) {
    p != [] && Parent(p) == d
  }

  lemma ChildIff(p: Path, d: Path, n: Name)
    ensures IsChildOf(p, d) && p[|p| - 1] == n <==> p == d + [n]
  {
    if IsChildOf(p, d) {
      assert p == p[..|p| - 1] + [p[|p| - 1]];
    }
  }

  predicate ListedIn(p: Path, d: Path, names: seq<Name>) {
    IsChildOf(p, d) && p[|p| - 1] in names && !IsDots(p[|p| - 1])
  }

  lemma {:induction false} EntriesAre(d: Path, names: seq<Name>)
    requires Distinct(names)
    ensures forall p :: p in Entries(d, names) <==> ListedIn(p, d, names)
    ensures Distinct(Entries(d, names))
  {
    if names != [] {
      EntriesAre(d, names[1..]);
      var head := d + [names[0]];
      assert names == [names[0]] + names[1..];
      forall p ensures p in Entries(d, names) <==> ListedIn(p, d, names) {
        ChildIff(p, d, names[0]);
      }
      if !IsDots(names[0]) {
        ChildIff(head, d, names[0]);
        DistinctCons(head, Entries(d, names[1..]));
      }
    }
  }

  lemma {:induction false} SelectedAre(t: Tree, types: Types, paths: seq<Path>)
    ensures forall p :: p in SelectWanted(t, types, paths) <==> p in paths && Wanted(t, types, p)
    ensures forall p :: p in SelectPushed(t, types, paths) <==> p in paths && types.recursive && IsDirectory(t, p)
  {
    if paths != [] {
      SelectedAre(t, types, paths[1..]);
    }
  }

  lemma {:induction false} SelectedDistinct(t: Tree, types: Types, paths: seq<Path>)
    requires Distinct(paths)
    ensures Distinct(SelectWanted(t, types, paths)) && Distinct(SelectPushed(t, types, paths))
  {
    if paths != [] {
      SelectedDistinct(t, types, paths[1..]);
      SelectedAre(t, types, paths[1..]);
      if Wanted(t, types, paths[0]) {
        DistinctCons(paths[0], SelectWanted(t, types, paths[1..]));
      }
      if types.recursive && IsDirectory(t, paths[0]) {
        DistinctCons(paths[0], SelectPushed(t, types, paths[1..]));
      }
    }
  }

  function EntriesIn(t: Tree, order: Order, d: Path): seq<Path> {
    Entries(d, Listing(t, order, d))
  }

  /** The entries of one directory: exactly its children, each once. */
  lemma EntriesOf(t: Tree, order: Order, d: Path)
    requires WellFormed(t) && IsOrder(order)
    ensures forall p :: p in EntriesIn(t, order, d) <==> p in t && IsChildOf(p, d) && IsReadable(t, d)
    ensures Distinct(EntriesIn(t, order, d))
  {
    if IsReadable(t, d) {
      var names := order(d, Children(t, d));
      assert IsListing(names, Children(t, d));
      EntriesAre(d, names);
      forall p ensures p in Entries(d, names) <==> p in t && IsChildOf(p, d) {
        if p != [] {
          ChildrenIff(t, d, p[|p| - 1]);
          ChildIff(p, d, p[|p| - 1]);
        }
      }
    }
  }

  lemma PushedAre(t: Tree, order: Order, types: Types, d: Path)
    requires WellFormed(t) && IsOrder(order)
    ensures var pushed := SelectPushed(t, types, EntriesIn(t, order, d));
            && Distinct(pushed)
            && (forall p :: p in pushed <==>
                  p in t && IsChildOf(p, d) && IsReadable(t, d) && types.recursive && IsDirectory(t, p))
  {
    hide EntriesIn, WellFormed, IsOrder;
    EntriesOf(t, order, d);
    SelectedAre(t, types, EntriesIn(t, order, d));
    SelectedDistinct(t, types, EntriesIn(t, order, d));
  }

  // ----- The stack -----

  lemma ChildIsApart(r: Path, d: Path, p: Path)
    requires IsChildOf(p, d) && !Comparable(r, d)
    ensures !Comparable(r, p)
  {
    assert d <= p && |p| == |d| + 1;
    assert r <= p && |r| <= |d| ==> r <= d;
    assert r <= p && |r| > |d| ==> r == p;
  }

  lemma SiblingsAreApart(p: Path, q: Path, d: Path)
    requires IsChildOf(p, d) && IsChildOf(q, d) && p != q
    ensures !Comparable(p, q)
  {
    ChildIff(p, d, p[|p| - 1]);
    ChildIff(q, d, q[|q| - 1]);
  }

  lemma PushedApart(pending: seq<Path>, pushed: seq<Path>)
    requires pending != [] && Apart(pending) && Distinct(pushed)
    requires forall p :: p in pushed ==> IsChildOf(p, pending[|pending| - 1])
    ensures var next := pending[..|pending| - 1] + pushed;
            && Apart(next)
            && !IsPending(next, pending[|pending| - 1])
            && (forall p :: IsPending(next, p) ==> IsPending(pending, p))
  {
    var d, rest := pending[|pending| - 1], pending[..|pending| - 1];
    var next := rest + pushed;
    forall i, j | 0 <= i < j < |next| ensures !Comparable(next[i], next[j]) {
      if j >= |rest| {
        assert next[j] in pushed;
        if i < |rest| {
          ChildIsApart(pending[i], d, next[j]);
        } else {
          assert next[i] in pushed && next[i] == pushed[i - |rest|] && next[j] == pushed[j - |rest|];
          SiblingsAreApart(next[i], next[j], d);
        }
      }
    }
    forall i | 0 <= i < |next| ensures !(next[i] <= d) {
      if i >= |rest| {
        assert next[i] in pushed;
      } else {
        assert !Comparable(pending[i], pending[|pending| - 1]);
      }
    }
    forall p | IsPending(next, p) ensures IsPending(pending, p) {
      var i :| 0 <= i < |next| && next[i] <= p;
      if i >= |rest| {
        assert next[i] in pushed && d <= next[i];
        assert pending[|pending| - 1] <= p;
      } else {
        assert pending[i] <= p;
      }
    }
  }

  function Top(pending: seq<Path>): Path
    requires pending != []
  {
    pending[|pending| - 1]
  }

  /** The stack after its top directory has been read. */
  function NextStack(t: Tree, order: Order, types: Types, pending: seq<Path>): seq<Path>
    requires pending != []
  {
    pending[..|pending| - 1] + SelectPushed(t, types, EntriesIn(t, order, Top(pending)))
  }

  lemma NothingListed(t: Tree, order: Order, types: Types, d: Path)
    ensures d !in t ==> SelectPushed(t, types, EntriesIn(t, order, d)) == []
  {
  }

  lemma NextStackIs(t: Tree, order: Order, types: Types, pending: seq<Path>)
    requires WellFormed(t) && IsOrder(order) && pending != [] && Apart(pending)
    ensures var next := NextStack(t, order, types, pending);
            && Apart(next)
            && !IsPending(next, Top(pending))
            && (forall p :: IsPending(next, p) ==> IsPending(pending, p))
            && Covered(t, next) <= Covered(t, pending) - {Top(pending)}
            && (Top(pending) in t ==> Top(pending) in Covered(t, pending))
            && (Top(pending) !in t ==> next == pending[..|pending| - 1])
  {
    hide EntriesIn;
    var d := Top(pending);
    PushedAre(t, order, types, d);
    PushedApart(pending, SelectPushed(t, types, EntriesIn(t, order, d)));
    NothingListed(t, order, types, d);
    assert pending[|pending| - 1] <= d;
  }

  /**
   The paths that are returned, in order, while this stack is worked off: the wanted entries of
   the top directory, then the walk of the rest with the new directories on top.
   */
  function Walk(t: Tree, order: Order, types: Types, pending: seq<Path>): seq<Path>
    requires WellFormed(t) && IsOrder(order) && Apart(pending)
    decreases Covered(t, pending), |pending|
  {
    if pending == [] then []
    else
      NextStackIs(t, order, types, pending);
      SelectWanted(t, types, EntriesIn(t, order, Top(pending)))
      + Walk(t, order, types, NextStack(t, order, types, pending))
  }
}
