/** FileEnumerator of commonlib/common/base/file_util_posix.cc, without a pattern. */
module FileEnumeratorPosix {
  import opened Wrappers
  import opened FileTree
  import opened Traversal
  import opened FileSystem

  function Paths(d: Path, entries: seq<DirEntry>): seq<Path> {
    if entries == [] then [] else [d + [entries[0].name]] + Paths(d, entries[1..])
  }

  lemma {:induction false} PathsOfOneMore(d: Path, entries: seq<DirEntry>, e: DirEntry)
    ensures Paths(d, entries + [e]) == Paths(d, entries) + [d + [e.name]]
  {
    if entries == [] {
      assert entries + [e] == [e];
    } else {
      assert (entries + [e])[1..] == entries[1..] + [e];
      PathsOfOneMore(d, entries[1..], e);
    }
  }

  lemma {:induction false} EntriesOfOneMore(d: Path, names: seq<Name>, n: Name)
    ensures Entries(d, names + [n]) == Entries(d, names) + (if IsDots(n) then [] else [d + [n]])
  {
    hide IsDots;
    if names == [] {
      assert names + [n] == [n];
      assert [n][1..] == [];
    } else {
      assert (names + [n])[1..] == names[1..] + [n];
      EntriesOfOneMore(d, names[1..], n);
    }
  }

  lemma {:induction false} SelectionOfOneMore(t: Tree, types: Types, paths: seq<Path>, p: Path)
    ensures SelectWanted(t, types, paths + [p]) == SelectWanted(t, types, paths) + (if Wanted(t, types, p) then [p] else [])
    ensures SelectPushed(t, types, paths + [p]) ==
            SelectPushed(t, types, paths) + (if types.recursive && IsDirectory(t, p) then [p] else [])
  {
    hide Wanted, IsDirectory;
    if paths == [] {
      assert paths + [p] == [p];
      assert [p][1..] == [];
    } else {
      assert (paths + [p])[1..] == paths[1..] + [p];
      SelectionOfOneMore(t, types, paths[1..], p);
    }
  }

  /** The entries still to be returned are what the tree says, and files among them are not pending. */
  ghost predicate EntriesOk(t: Tree, d: Path, entries: seq<DirEntry>, pending: seq<Path>) {
    forall k :: 0 <= k < |entries| ==> EntryOk(t, d + [entries[k].name], entries[k].kind, pending)
  }

  ghost predicate EntryOk(t: Tree, p: Path, kind: Kind, pending: seq<Path>) {
    p in t && SameSort(t[p], kind) && (IsPending(pending, p) ==> kind.Directory?)
  }

  /** The same as far as st_mode tells; the bytes of a file may have changed. */
  predicate SameSort(a: Kind, b: Kind) {
    match a
    case Directory(_) => a == b
    case Regular(_) => b.Regular?
    case Special => b.Special?
  }

  method ReadDirectory(fs: FileSystem, source: Path) returns (ok: bool, entries: seq<DirEntry>)
    requires fs.Valid()
    ensures ok <==> IsReadable(fs.tree, source)
    ensures !ok ==> entries == []
    ensures var names := Listing(fs.tree, fs.order, source);
            && |entries| == |names|
            && (forall i :: 0 <= i < |names| ==> entries[i].name == names[i])
            && (forall i :: 0 <= i < |names| && !IsDots(names[i]) ==>
                  source + [names[i]] in fs.tree && fs.tree[source + [names[i]]] == entries[i].kind)
  {
    ok := IsReadable(fs.tree, source);
    entries := [];
    if !ok {
      return;
    }
    var names := Listing(fs.tree, fs.order, source);
    assert IsListing(names, Children(fs.tree, source));
    for i := 0 to |names|
      invariant |entries| == i
      invariant forall k :: 0 <= k < i ==> entries[k].name == names[k]
      invariant forall k :: 0 <= k < i && !IsDots(names[k]) ==>
                  source + [names[k]] in fs.tree && fs.tree[source + [names[k]]] == entries[k].kind
    {
      ChildrenIff(fs.tree, source, names[i]);
      assert names[i] in names;
      var kind := fs.Lstat(source + [names[i]]);
      // "." and ".." are directories
      entries := entries + [DirEntry(names[i], if kind.Some? then kind.value else Directory(true))];
    }
  }

  class FileEnumerator {
    const fs: FileSystem
    const types: Types
    var currentEntry: nat
    var entries: seq<DirEntry>
    var root: Path
    var pending: seq<Path>

    /** The entries of the current directory that have not been returned. */
    ghost function Rest(): seq<DirEntry>
      reads this
    {
      if currentEntry + 1 < |entries| then entries[currentEntry + 1..] else []
    }

    ghost predicate Valid()
      reads this, fs
    {
      fs.Valid() && Apart(pending) && EntriesOk(fs.tree, root, Rest(), pending)
    }

    /** All the paths that Next() is going to return, in order. */
    ghost function Remaining(): seq<Path>
      reads this, fs
      requires Valid()
    {
      Paths(root, Rest()) + Walk(fs.tree, fs.order, types, pending)
    }

    constructor (fs: FileSystem, root: Path, types: Types)
      requires fs.Valid()
      ensures Valid() && this.fs == fs && this.types == types && pending == [root] && Rest() == [] && this.root == root
      ensures Remaining() == Walk(fs.tree, fs.order, types, [root])
    {
      hide Walk, IsOrder, WellFormed;
      this.fs, this.types := fs, types;
      currentEntry, entries, this.root, pending := 0, [], root, [root];
      new;
      Nothing(root);
      assert [] + Walk(fs.tree, fs.order, types, [root]) == Walk(fs.tree, fs.order, types, [root]);
    }

    /** The inner loop of Next(): takes over the entries of the directory that was just read. */
    method Load(list: seq<DirEntry>, ghost names: seq<Name>)
      requires |list| == |names|
      requires forall i :: 0 <= i < |names| ==> list[i].name == names[i]
      requires forall i :: 0 <= i < |names| && !IsDots(names[i]) ==>
                 root + [names[i]] in fs.tree && fs.tree[root + [names[i]]] == list[i].kind
      modifies this
      ensures root == old(root) && fs.tree == old(fs.tree) && currentEntry == 0
      ensures pending == old(pending) + SelectPushed(fs.tree, types, Entries(root, names))
      ensures Paths(root, entries) == SelectWanted(fs.tree, types, Entries(root, names))
      ensures forall k :: 0 <= k < |entries| ==>
                root + [entries[k].name] in fs.tree && fs.tree[root + [entries[k].name]] == entries[k].kind
    {
      hide Entries, SelectPushed, SelectWanted, Paths, IsDots;
      ghost var under := pending;
      entries, currentEntry := [], 0;
      NothingYet(fs.tree, types, root);
      assert names[..0] == [];
      assert under + [] == under;
      for i := 0 to |list|
        invariant root == old(root) && fs.tree == old(fs.tree) && currentEntry == 0
        invariant pending == under + SelectPushed(fs.tree, types, Entries(root, names[..i]))
        invariant Paths(root, entries) == SelectWanted(fs.tree, types, Entries(root, names[..i]))
        invariant forall k :: 0 <= k < |entries| ==>
                    root + [entries[k].name] in fs.tree && fs.tree[root + [entries[k].name]] == entries[k].kind
      {
        ghost var soFar := Entries(root, names[..i]);
        assert names[..i + 1] == names[..i] + [names[i]];
        EntriesOfOneMore(root, names[..i], names[i]);
        var fullPath := root + [list[i].name];
        if IsDots(list[i].name) {
          assert soFar + [] == soFar;
          continue;
        }
        SelectionOfOneMore(fs.tree, types, soFar, fullPath);
        PathsOfOneMore(root, entries, list[i]);
        var isDirectory := list[i].kind.Directory?;
        if types.recursive && isDirectory {
          pending := pending + [fullPath];
        }
        if if isDirectory then types.directories else types.files {
          entries := entries + [list[i]];
        }
      }
      assert names[..|names|] == names;
    }

    /** What the loop of Next() still has of the current directory. */
    ghost function Unreturned(): seq<DirEntry>
      reads this
    {
      if currentEntry < |entries| then entries[currentEntry..] else []
    }

    /** One turn of the outer loop of Next(): on to the next pending directory. */
    method NextDirectory()
      requires fs.Valid() && Apart(pending) && pending != [] && Unreturned() == []
      modifies this
      ensures Apart(pending) && fs.tree == old(fs.tree) && fs.Valid()
      ensures Narrowed(old(pending), pending)
      ensures IsPending(old(pending), root) && !IsPending(pending, root)
      ensures Covered(fs.tree, pending) < old(Covered(fs.tree, pending))
              || (Covered(fs.tree, pending) == old(Covered(fs.tree, pending)) && |pending| < old(|pending|))
      ensures old(Walk(fs.tree, fs.order, types, pending))
              == Paths(root, Unreturned()) + Walk(fs.tree, fs.order, types, pending)
      ensures EntriesOk(fs.tree, root, Unreturned(), pending)
    {
      hide Walk, EntriesIn, NextStack, WellFormed, IsOrder, Apart, Listing, SelectWanted, SelectPushed, Entries, Covered,
        EntryOk, Paths, IsPending;
      ghost var before := pending;
      WalkStep(fs.tree, fs.order, types, before);
      SizeShrinks(fs.tree, fs.order, types, before);
      NextStackIs(fs.tree, fs.order, types, before);
      TopIsPending(before);
      root := pending[|pending| - 1];
      pending := pending[..|pending| - 1];
      Nothing(root);
      var ok, list := ReadDirectory(fs, root);
      if !ok {
        UnreadableStep(fs.tree, fs.order, types, before);
        return;
      }
      Load(list, Listing(fs.tree, fs.order, root));
      StackOf(fs.tree, fs.order, types, before, pending);
      NewEntriesOk(fs.tree, fs.order, types, before, pending, entries);
      assert Unreturned() == entries;
    }

    /** The stat of the entry returned last. */
    method GetFindInfo() returns (kind: Kind)
      requires currentEntry < |entries|
      ensures kind == entries[currentEntry].kind
    {
      kind := entries[currentEntry].kind;
    }

    method Next() returns (r: Option<Path>)
      requires Valid()
      modifies this
      ensures Valid() && fs.tree == old(fs.tree)
      ensures Narrowed(old(pending), pending)
      ensures r == if old(Remaining()) == [] then None else Some(old(Remaining())[0])
      ensures Remaining() == if old(Remaining()) == [] then [] else old(Remaining())[1..]
      ensures r.Some? ==>
                && currentEntry < |entries| && r.value == root + [entries[currentEntry].name]
                && EntryOk(fs.tree, r.value, entries[currentEntry].kind, pending)
      ensures || (pending == old(pending) && root == old(root) && (r.Some? ==> |Rest()| < |old(Rest())|))
              || (IsPending(old(pending), root) && !IsPending(pending, root))
      ensures r.None? ==> pending == [] && Rest() == []
    {
      hide Walk, WellFormed, IsOrder, Apart, Covered, EntriesOk, EntryOk, Paths, IsPending, Narrowed;
      ghost var target := Remaining();
      ghost var was := Rest();
      NotNarrowed(pending);
      currentEntry := currentEntry + 1;
      assert Unreturned() == was;
      while currentEntry >= |entries|
        invariant fs.Valid() && Apart(pending) && fs.tree == old(fs.tree)
        invariant EntriesOk(fs.tree, root, Unreturned(), pending)
        invariant Narrowed(old(pending), pending)
        invariant target == Paths(root, Unreturned()) + Walk(fs.tree, fs.order, types, pending)
        invariant || (pending == old(pending) && root == old(root) && Unreturned() == was)
                  || (IsPending(old(pending), root) && !IsPending(pending, root))
        decreases Covered(fs.tree, pending), |pending|, if currentEntry >= |entries| then 1 else 0
      {
        Nothing(root);
        if pending == [] {
          WalkStops(fs.tree, fs.order, types);
          return None;
        }
        ghost var before := pending;
        NextDirectory();
        NarrowedTwice(old(pending), before, pending, root);
      }
      r := Some(root + [entries[currentEntry].name]);
      ghost var unreturned := Unreturned();
      FirstOfOk(fs.tree, root, unreturned, pending);
      FirstIsTaken(root, unreturned, Walk(fs.tree, fs.order, types, pending));
      assert Rest() == unreturned[1..];
    }
  }

  /** Nothing is pending that was not. */
  ghost predicate Narrowed(before: seq<Path>, after: seq<Path>) {
    forall p :: IsPending(after, p) ==> IsPending(before, p)
  }

  lemma NotNarrowed(pending: seq<Path>)
    ensures Narrowed(pending, pending)
  {
  }

  lemma NarrowedTwice(a: seq<Path>, b: seq<Path>, c: seq<Path>, d: Path)
    requires Narrowed(a, b) && Narrowed(b, c)
    ensures Narrowed(a, c) && (IsPending(b, d) ==> IsPending(a, d))
  {
    hide IsPending;
  }

  lemma FirstIsTaken(d: Path, entries: seq<DirEntry>, more: seq<Path>)
    requires entries != []
    ensures var all := Paths(d, entries) + more;
            all != [] && all[0] == d + [entries[0].name] && all[1..] == Paths(d, entries[1..]) + more
  {
    hide Paths;
    PathsStep(d, entries);
  }

  ghost predicate SameButFor(t: Tree, u: Tree, changed: Path) {
    forall p :: p != changed ==> (p in t <==> p in u) && (p in t ==> u[p] == t[p])
  }

  /** Changing a path that is neither pending nor still to be returned does not disturb the walk. */
  lemma RestSurvives(t: Tree, u: Tree, changed: Path, order: Order, types: Types, d: Path, rest: seq<DirEntry>,
                     pending: seq<Path>)
    requires WellFormed(t) && WellFormed(u) && SameButFor(t, u, changed) && IsOrder(order) && Apart(pending)
    requires EntriesOk(t, d, rest, pending)
    requires changed !in Paths(d, rest) && !IsPending(pending, changed)
    ensures EntriesOk(u, d, rest, pending)
    ensures Walk(u, order, types, pending) == Walk(t, order, types, pending)
  {
    hide Walk, WellFormed, IsOrder, Apart;
    forall k | 0 <= k < |rest| ensures EntryOk(u, d + [rest[k].name], rest[k].kind, pending) {
      assert EntryOk(t, d + [rest[k].name], rest[k].kind, pending);
      PathsAt(d, rest, k);
    }
    SameWalk(t, u, order, types, pending);
  }

  lemma {:induction false} PathsAt(d: Path, entries: seq<DirEntry>, k: nat)
    requires k < |entries|
    ensures d + [entries[k].name] in Paths(d, entries)
  {
    if k > 0 {
      PathsAt(d, entries[1..], k - 1);
    }
  }

  lemma FirstOfOk(t: Tree, d: Path, entries: seq<DirEntry>, pending: seq<Path>)
    requires EntriesOk(t, d, entries, pending) && entries != []
    ensures EntryOk(t, d + [entries[0].name], entries[0].kind, pending)
    ensures EntriesOk(t, d, entries[1..], pending)
  {
    hide EntryOk;
    forall k | 0 <= k < |entries[1..]| ensures EntryOk(t, d + [entries[1..][k].name], entries[1..][k].kind, pending) {
      assert entries[1..][k] == entries[k + 1];
    }
  }

  lemma TopIsPending(pending: seq<Path>)
    requires pending != []
    ensures IsPending(pending, Top(pending))
  {
    assert pending[|pending| - 1] <= Top(pending);
  }

  lemma Nothing(d: Path)
    ensures Paths(d, []) == []
  {
  }

  lemma NothingYet(t: Tree, types: Types, d: Path)
    ensures Entries(d, []) == [] && SelectPushed(t, types, []) == [] && SelectWanted(t, types, []) == [] && Paths(d, []) == []
  {
  }

  lemma PathsStep(d: Path, entries: seq<DirEntry>)
    requires entries != []
    ensures Paths(d, entries) == [d + [entries[0].name]] + Paths(d, entries[1..])
  {
  }

  lemma WalkStops(t: Tree, order: Order, types: Types)
    requires WellFormed(t) && IsOrder(order)
    ensures Apart([]) && Walk(t, order, types, []) == []
  {
  }

  lemma WalkStep(t: Tree, order: Order, types: Types, pending: seq<Path>)
    requires WellFormed(t) && IsOrder(order) && Apart(pending) && pending != []
    ensures Apart(NextStack(t, order, types, pending))
    ensures Walk(t, order, types, pending) ==
            SelectWanted(t, types, EntriesIn(t, order, Top(pending))) + Walk(t, order, types, NextStack(t, order, types, pending))
  {
    NextStackIs(t, order, types, pending);
  }

  lemma UnreadableStep(t: Tree, order: Order, types: Types, pending: seq<Path>)
    requires WellFormed(t) && IsOrder(order) && Apart(pending) && pending != [] && !IsReadable(t, Top(pending))
    ensures NextStack(t, order, types, pending) == pending[..|pending| - 1]
    ensures SelectWanted(t, types, EntriesIn(t, order, Top(pending))) == []
  {
  }

  lemma StackOf(t: Tree, order: Order, types: Types, before: seq<Path>, pending: seq<Path>)
    requires before != []
    requires pending == before[..|before| - 1] + SelectPushed(t, types, Entries(Top(before), Listing(t, order, Top(before))))
    ensures pending == NextStack(t, order, types, before)
    ensures EntriesIn(t, order, Top(before)) == Entries(Top(before), Listing(t, order, Top(before)))
  {
  }

  lemma PendingChildIsDirectory(t: Tree, order: Order, types: Types, before: seq<Path>, p: Path)
    requires WellFormed(t) && IsOrder(order) && Apart(before) && before != []
    requires IsChildOf(p, Top(before)) && IsPending(NextStack(t, order, types, before), p)
    ensures IsDirectory(t, p)
  {
    hide EntriesIn, WellFormed, IsOrder;
    var d, pending := Top(before), NextStack(t, order, types, before);
    NextStackIs(t, order, types, before);
    PushedAre(t, order, types, d);
    forall k | 0 <= k < |before| - 1 ensures !Comparable(before[k], d) {
      assert !Comparable(before[k], before[|before| - 1]);
    }
    var i :| 0 <= i < |pending| && pending[i] <= p;
    assert !(pending[i] <= d);
    assert pending[i] == p && d <= p;
    assert p in SelectPushed(t, types, EntriesIn(t, order, d));
  }

  lemma NewEntriesOk(t: Tree, order: Order, types: Types, before: seq<Path>, pending: seq<Path>, entries: seq<DirEntry>)
    requires WellFormed(t) && IsOrder(order) && Apart(before) && before != []
    requires pending == NextStack(t, order, types, before)
    requires forall k :: 0 <= k < |entries| ==>
               Top(before) + [entries[k].name] in t && t[Top(before) + [entries[k].name]] == entries[k].kind
    ensures EntriesOk(t, Top(before), entries, pending)
  {
    hide NextStack, WellFormed, IsOrder, Apart, IsPending;
    var d := Top(before);
    forall k | 0 <= k < |entries| ensures EntryOk(t, d + [entries[k].name], entries[k].kind, pending) {
      var p := d + [entries[k].name];
      ChildIff(p, d, entries[k].name);
      if IsPending(pending, p) {
        PendingChildIsDirectory(t, order, types, before, p);
      }
    }
  }

  function Pending(current: Option<Path>): seq<Path> {
    if current.Some? then [current.value] else []
  }

  lemma NotAgain(done: seq<Path>, p: Path, rest: seq<Path>, more: seq<Path>, w: seq<Path>)
    requires Distinct(w) && w == done + ([p] + (rest + more))
    ensures p !in rest && p in w
  {
    assert w[|done|] == p;
    forall k | 0 <= k < |rest| ensures rest[k] != p {
      assert w[|done| + 1 + k] == rest[k];
    }
  }

  lemma Regrouped(a: seq<Path>, b: seq<Path>, c: seq<Path>)
    ensures a + (b + c) == (a + b) + c
  {
  }

  /** Calling Next() until it answers with the empty path returns the whole walk. */
  method EnumerateAll(fs: FileSystem, root: Path, types: Types) returns (all: seq<Path>)
    requires fs.Valid()
    ensures all == Walk(fs.tree, fs.order, types, [root])
  {
    hide Walk, WellFormed, IsOrder, IsPending, EntryOk, Apart, Narrowed, FileEnumerator.Remaining, FileEnumerator.Valid;
    var traversal := new FileEnumerator(fs, root, types);
    ghost var more := traversal.Remaining();
    ghost var target := more;
    all := [];
    var current := traversal.Next();
    while current.Some?
      invariant traversal.Valid() && fs.tree == old(fs.tree) && traversal.fs == fs && traversal.types == types
      invariant target == all + (Pending(current) + traversal.Remaining())
      invariant current.None? ==> traversal.Remaining() == []
      decreases |target| - |all|
    {
      more := traversal.Remaining();
      Regrouped(all, [current.value], more);
      all := all + [current.value];
      current := traversal.Next();
      assert more == Pending(current) + traversal.Remaining();
    }
  }
}
