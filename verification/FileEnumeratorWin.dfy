/**
 FileEnumerator of commonlib/common/base/file_util_win.cc, without a pattern: the second state
 machine for the same walk. It asks for one entry at a time and pushes directories as it meets
 them.
 */
module FileEnumeratorWin {
  import opened Wrappers
  import opened FileTree
  import opened Traversal
  import opened FileSystem
  import Posix = FileEnumeratorPosix

  /** A find handle knows its directory and the names it has not given yet. */
  datatype FindHandle = InvalidHandle | FindHandle(directory: Path, left: seq<Name>)

  /** The part of WIN32_FIND_DATA that is looked at. */
  datatype FindData = FindData(name: Name, isDirectory: bool)

  function DataOf(t: Tree, d: Path, n: Name): FindData {
    FindData(n, IsDots(n) || IsDirectory(t, d + [n]))
  }

  method FindFirstFile(fs: FileSystem, d: Path) returns (handle: FindHandle, data: FindData)
    ensures var names := Listing(fs.tree, fs.order, d);
            if names == [] then handle == InvalidHandle
            else handle == FindHandle(d, names[1..]) && data == DataOf(fs.tree, d, names[0])
  {
    var names := Listing(fs.tree, fs.order, d);
    if names == [] {
      return InvalidHandle, FindData("", false);
    }
    return FindHandle(d, names[1..]), DataOf(fs.tree, d, names[0]);
  }

  method FindNextFile(fs: FileSystem, handle: FindHandle) returns (ok: bool, next: FindHandle, data: FindData)
    requires handle.FindHandle?
    ensures ok <==> handle.left != []
    ensures ok ==> next == FindHandle(handle.directory, handle.left[1..])
                   && data == DataOf(fs.tree, handle.directory, handle.left[0])
  {
    if handle.left == [] {
      return false, handle, FindData("", false);
    }
    return true, FindHandle(handle.directory, handle.left[1..]), DataOf(fs.tree, handle.directory, handle.left[0]);
  }

  /** The stack once the rest of the open directory has been pushed. */
  function Stack(t: Tree, types: Types, pending: seq<Path>, d: Path, left: seq<Name>): seq<Path> {
    pending + SelectPushed(t, types, Entries(d, left))
  }

  lemma StackStep(t: Tree, types: Types, pending: seq<Path>, d: Path, left: seq<Name>)
    requires left != []
    ensures var p, isDirectory := d + [left[0]], DataOf(t, d, left[0]).isDirectory;
            var skip := IsDots(left[0]);
            && Stack(t, types, pending, d, left)
               == Stack(t, types, if !skip && types.recursive && isDirectory then pending + [p] else pending, d, left[1..])
            && SelectWanted(t, types, Entries(d, left))
               == (if !skip && (if isDirectory then types.directories else types.files) then [p] else [])
                  + SelectWanted(t, types, Entries(d, left[1..]))
  {
    hide IsDots, IsDirectory;
    var p, more := d + [left[0]], Entries(d, left[1..]);
    if !IsDots(left[0]) {
      SelectionStep(t, types, p, more);
      assert Entries(d, left) == [p] + more;
      assert pending + ([p] + SelectPushed(t, types, more)) == (pending + [p]) + SelectPushed(t, types, more);
    }
    assert [] + SelectWanted(t, types, more) == SelectWanted(t, types, more);
  }

  lemma SelectionStep(t: Tree, types: Types, p: Path, more: seq<Path>)
    ensures SelectWanted(t, types, [p] + more) == (if Wanted(t, types, p) then [p] else []) + SelectWanted(t, types, more)
    ensures SelectPushed(t, types, [p] + more) ==
            (if types.recursive && IsDirectory(t, p) then [p] else []) + SelectPushed(t, types, more)
  {
    assert ([p] + more)[1..] == more;
  }

  class FileEnumerator {
    const fs: FileSystem
    const types: Types
    var hasFindData: bool
    var findHandle: FindHandle
    var findData: FindData
    var root: Path
    var pending: seq<Path>

    ghost function Left(): seq<Name>
      reads this
    {
      if findHandle.FindHandle? then findHandle.left else []
    }

    ghost function FullStack(): seq<Path>
      reads this, fs
    {
      Stack(fs.tree, types, pending, root, Left())
    }

    ghost predicate Valid()
      reads this, fs
    {
      && fs.Valid() && Apart(FullStack())
      && (hasFindData <==> findHandle.FindHandle?)
      && (findHandle.FindHandle? ==> findHandle.directory == root)
    }

    /** All the paths that Next() is going to return, in order. */
    ghost function Remaining(): seq<Path>
      reads this, fs
      requires Valid()
    {
      SelectWanted(fs.tree, types, Entries(root, Left())) + Walk(fs.tree, fs.order, types, FullStack())
    }

    constructor (fs: FileSystem, root: Path, types: Types)
      requires fs.Valid()
      ensures Valid() && this.fs == fs && this.types == types
      ensures Remaining() == Walk(fs.tree, fs.order, types, [root])
    {
      hide Walk, WellFormed, IsOrder;
      this.fs, this.types := fs, types;
      hasFindData, findHandle, findData := false, InvalidHandle, FindData("", false);
      this.root, pending := root, [root];
      new;
      Posix.NothingYet(fs.tree, types, root);
      assert FullStack() == [root];
      assert [] + Walk(fs.tree, fs.order, types, [root]) == Walk(fs.tree, fs.order, types, [root]);
    }

    /** The first half of the loop of Next(): opens the next pending directory. */
    method Open()
      requires Valid() && !hasFindData && pending != []
      modifies this
      ensures Opened() && fs.tree == old(fs.tree)
      ensures hasFindData && findHandle.FindHandle? ==>
                var names := [findData.name] + Left();
                && findData == DataOf(fs.tree, root, names[0])
                && Apart(Stack(fs.tree, types, pending, root, names))
                && Shrunk(old(FullStack()), Stack(fs.tree, types, pending, root, names))
                && old(Remaining()) == SelectWanted(fs.tree, types, Entries(root, names))
                                       + Walk(fs.tree, fs.order, types, Stack(fs.tree, types, pending, root, names))
      ensures findHandle.InvalidHandle? ==>
                && Apart(pending) && Shrunk(old(FullStack()), pending)
                && old(Remaining()) == Walk(fs.tree, fs.order, types, pending)
    {
      hide Walk, EntriesIn, NextStack, WellFormed, IsOrder, Apart, Listing, SelectWanted, SelectPushed, Entries, Covered;
      ghost var before := pending;
      Posix.NothingYet(fs.tree, types, root);
      assert FullStack() == before;
      Posix.WalkStep(fs.tree, fs.order, types, before);
      SizeShrinks(fs.tree, fs.order, types, before);
      Posix.StackOf(fs.tree, fs.order, types, before, StackFrom(fs.tree, fs.order, types, before));
      root := pending[|pending| - 1];
      pending := pending[..|pending| - 1];
      findHandle, findData := FindFirstFile(fs, root);
      hasFindData := true;
      ghost var names := Listing(fs.tree, fs.order, root);
      if names == [] {
        Posix.NothingYet(fs.tree, types, root);
        assert pending + [] == pending;
      } else {
        assert [names[0]] + names[1..] == names;
      }
    }

    ghost predicate Opened()
      reads this, fs
    {
      fs.Valid() && hasFindData && (findHandle.FindHandle? ==> findHandle.directory == root)
    }

    ghost predicate Shrunk(before: seq<Path>, after: seq<Path>)
      reads fs
    {
      Covered(fs.tree, after) < Covered(fs.tree, before)
      || (Covered(fs.tree, after) == Covered(fs.tree, before) && |after| < |before|)
    }

    /** The first half of the loop of Next(): asks for one more entry, or closes the directory. */
    method Fetch() returns (found: bool)
      requires Valid() && (hasFindData || pending != [])
      modifies this
      ensures fs.tree == old(fs.tree)
      ensures found ==>
                var names := [findData.name] + Left();
                && Opened() && findHandle.FindHandle? && findData == DataOf(fs.tree, root, names[0])
                && Apart(Stack(fs.tree, types, pending, root, names))
                && (Shrunk(old(FullStack()), Stack(fs.tree, types, pending, root, names))
                    || (old(FullStack()) == Stack(fs.tree, types, pending, root, names) && |Left()| < old(|Left()|)))
                && old(Remaining()) == SelectWanted(fs.tree, types, Entries(root, names))
                                       + Walk(fs.tree, fs.order, types, Stack(fs.tree, types, pending, root, names))
      ensures !found ==>
                && Valid() && !hasFindData && Remaining() == old(Remaining())
                && (Shrunk(old(FullStack()), FullStack())
                    || (FullStack() == old(FullStack()) && Left() == old(Left()) && old(hasFindData)))
    {
      hide Walk, WellFormed, IsOrder, Apart, Covered, SelectWanted, Entries, Stack, DataOf;
      if !hasFindData {
        Open();
      } else {
        ghost var left := Left();
        var ok, next, data := FindNextFile(fs, findHandle);
        if ok {
          findHandle, findData := next, data;
          DataName(fs.tree, root, left[0]);
          assert [findData.name] + Left() == left;
        } else {
          findHandle := InvalidHandle;
        }
      }
      found := findHandle != InvalidHandle;
      if !found {
        hasFindData := false;
        Closed(fs.tree, types, pending, root);
        assert [] + Walk(fs.tree, fs.order, types, pending) == Walk(fs.tree, fs.order, types, pending);
      }
    }

    /** The second half: pushes the entry just found if it is a directory, and says whether it is wanted. */
    method Accept(ghost names: seq<Name>) returns (wanted: bool)
      requires Opened() && findHandle.FindHandle? && names == [findData.name] + Left()
      requires findData == DataOf(fs.tree, root, names[0])
      requires Apart(Stack(fs.tree, types, pending, root, names))
      modifies this`pending
      ensures Valid()
      ensures FullStack() == old(Stack(fs.tree, types, pending, root, names))
      ensures SelectWanted(fs.tree, types, Entries(root, names))
              == (if wanted then [root + [findData.name]] else []) + SelectWanted(fs.tree, types, Entries(root, Left()))
    {
      hide WellFormed, IsOrder, Apart, SelectWanted, Entries, Stack, IsDirectory, IsDots;
      assert names[1..] == Left();
      StackStep(fs.tree, types, pending, root, names);
      wanted := false;
      if IsDots(findData.name) {
        return;
      }
      var curFile := root + [findData.name];
      if findData.isDirectory {
        if types.recursive {
          pending := pending + [curFile];
        }
        wanted := types.directories;
      } else {
        wanted := types.files;
      }
    }

    method Next() returns (r: Option<Path>)
      requires Valid()
      modifies this
      ensures Valid() && fs.tree == old(fs.tree)
      ensures r == if old(Remaining()) == [] then None else Some(old(Remaining())[0])
      ensures Remaining() == if old(Remaining()) == [] then [] else old(Remaining())[1..]
    {
      hide Walk, WellFormed, IsOrder, Apart, Covered, SelectWanted, Entries, Stack, DataOf;
      ghost var target := Remaining();
      while hasFindData || pending != []
        invariant Valid() && fs.tree == old(fs.tree)
        invariant target == Remaining()
        decreases Covered(fs.tree, FullStack()), |FullStack()|, |Left()|, if hasFindData then 1 else 0
      {
        var found := Fetch();
        if !found {
          continue;
        }
        ghost var names := [findData.name] + Left();
        var wanted := Accept(names);
        if wanted {
          assert target == [root + [findData.name]] + Remaining();
          return Some(root + [findData.name]);
        }
        assert target == Remaining();
      }
      Finished(fs.tree, fs.order, types, root);
      r := None;
    }
  }

  lemma DataName(t: Tree, d: Path, n: Name)
    ensures DataOf(t, d, n).name == n
  {
  }

  function StackFrom(t: Tree, order: Order, types: Types, before: seq<Path>): seq<Path>
    requires before != []
  {
    before[..|before| - 1] + SelectPushed(t, types, Entries(Top(before), Listing(t, order, Top(before))))
  }

  lemma Closed(t: Tree, types: Types, pending: seq<Path>, d: Path)
    ensures Stack(t, types, pending, d, []) == pending
    ensures SelectWanted(t, types, Entries(d, [])) == []
  {
  }

  lemma Finished(t: Tree, order: Order, types: Types, d: Path)
    requires WellFormed(t) && IsOrder(order)
    ensures Apart([]) && Walk(t, order, types, []) == []
    ensures Stack(t, types, [], d, []) == [] && SelectWanted(t, types, Entries(d, [])) == []
  {
  }

  /** The Windows enumerator returns the same paths as the POSIX one, and in the same order. */
  method EnumerateAll(fs: FileSystem, root: Path, types: Types) returns (all: seq<Path>)
    requires fs.Valid()
    ensures all == Walk(fs.tree, fs.order, types, [root])
  {
    hide Walk, WellFormed, IsOrder, Apart, FileEnumerator.Remaining, FileEnumerator.Valid, FileSystem.NeverFails;
    var traversal := new FileEnumerator(fs, root, types);
    ghost var more := traversal.Remaining();
    ghost var target := more;
    all := [];
    var current := traversal.Next();
    while current.Some?
      invariant traversal.Valid() && fs.tree == old(fs.tree) && traversal.fs == fs && traversal.types == types
      invariant target == all + (Posix.Pending(current) + traversal.Remaining())
      invariant current.None? ==> traversal.Remaining() == []
      decreases |target| - |all|
    {
      more := traversal.Remaining();
      Posix.Regrouped(all, [current.value], more);
      all := all + [current.value];
      current := traversal.Next();
      assert more == Posix.Pending(current) + traversal.Remaining();
    }
  }
}
