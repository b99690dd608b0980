/** The copying loops of commonlib/common/base/file_util_posix.cc. */
module ByteCopy {
  import opened FileTree
  import opened FileSystem

  const BUFFER_SIZE := 32768

  predicate IsRegular(t: Tree, p: Path) {
    p in t && t[p].Regular?
  }

  /** What a copy finds to read: nothing, if it has just emptied that file itself. */
  function BytesToCopy(t: Tree, from: Path, to: Path): seq<bv8>
    requires IsRegular(t, from)
  {
    if from == to then [] else t[from].bytes
  }

  /** The do-while loop: writes out what one read() put into the buffer. */
  method WriteAll(fs: FileSystem, to: Path, buffer: array<bv8>, bytesRead: nat) returns (result: bool)
    requires fs.Valid() && IsRegular(fs.tree, to) && 0 < bytesRead <= buffer.Length
    modifies fs`tree, fs`calls, fs`failures
    ensures fs.Valid()
    ensures IsRegular(fs.tree, to) && fs.tree == old(fs.tree)[to := fs.tree[to]]
    ensures var was, data := old(fs.tree)[to].bytes, buffer[..bytesRead];
            if result then fs.tree[to].bytes == was + data
            else fs.tree[to].bytes < was + data && !fs.NeverFails()
    ensures fs.failures == old(fs.failures) + (if result then 0 else 1)
  {
    hide WellFormed, IsOrder, Creatable, FileSystem.NeverFails;
    ghost var was, data := fs.tree[to].bytes, buffer[..bytesRead];
    var bytesWritten := 0;
    result := true;
    assert was + data[..0] == was;
    while true
      invariant 0 <= bytesWritten < bytesRead && fs.Valid() && IsRegular(fs.tree, to)
      invariant fs.tree == old(fs.tree)[to := Regular(was + data[..bytesWritten])] && fs.failures == old(fs.failures)
      decreases bytesRead - bytesWritten
    {
      var partial := fs.Write(to, buffer[bytesWritten..bytesRead]);
      if partial < 0 {
        assert was + data == (was + data[..bytesWritten]) + data[bytesWritten..];
        return false;
      }
      assert buffer[bytesWritten..bytesRead][..partial] == data[bytesWritten..bytesWritten + partial];
      Regroup(was, data, bytesWritten, partial);
      bytesWritten := bytesWritten + partial;
      if bytesWritten >= bytesRead {
        assert data[..bytesWritten] == data;
        return;
      }
    }
  }

  lemma Regroup(was: seq<bv8>, data: seq<bv8>, i: nat, n: nat)
    requires i + n <= |data|
    ensures (was + data[..i]) + data[i..i + n] == was + data[..i + n]
  {
  }

  /** The loop of CopyFileUnsafe: every schedule of short reads and writes copies all bytes, in order. */
  method CopyLoop(fs: FileSystem, from: Path, to: Path, ghost src: seq<bv8>) returns (result: bool)
    requires fs.Valid() && from in fs.tree && IsRegular(fs.tree, to)
    requires fs.tree[to].bytes == [] && (IsRegular(fs.tree, from) ==> fs.tree[from].bytes == src)
    modifies fs`tree, fs`calls, fs`failures
    ensures fs.Valid() && IsRegular(fs.tree, to) && fs.tree == old(fs.tree)[to := fs.tree[to]]
    ensures result ==> IsRegular(old(fs.tree), from) && fs.tree[to].bytes == src
    ensures !result ==> fs.tree[to].bytes <= src && !(fs.NeverFails() && IsRegular(old(fs.tree), from))
    ensures !IsRegular(old(fs.tree), from) ==> fs.tree[to].bytes == []
    ensures fs.failures == old(fs.failures) + (if result then 0 else 1)
  {
    hide WellFormed, IsOrder, Creatable, FileSystem.NeverFails;
    var buffer := new bv8[BUFFER_SIZE];
    result := true;
    ghost var offset := 0;
    var position := 0;
    while result
      invariant fs.Valid() && IsRegular(fs.tree, to) && fs.tree == old(fs.tree)[to := fs.tree[to]]
      invariant position <= |src| && fs.tree[to].bytes <= src
      invariant from == to ==> src == []
      invariant IsRegular(old(fs.tree), from) || position == 0
      invariant result ==> fs.tree[to].bytes == src[..position]
      invariant !result ==> !(fs.NeverFails() && IsRegular(old(fs.tree), from))
      invariant !IsRegular(old(fs.tree), from) ==> fs.tree[to].bytes == []
      invariant fs.failures == old(fs.failures) + (if result then 0 else 1)
      decreases |src| - position, result
    {
      assert IsRegular(fs.tree, from) <==> IsRegular(old(fs.tree), from);
      var bytesRead := fs.Read(from, position, buffer);
      if bytesRead < 0 {
        result := false;
        break;
      }
      if bytesRead == 0 {
        assert src[..position] == src;
        break;
      }
      result := WriteAll(fs, to, buffer, bytesRead);
      assert src[..position] + src[position..position + bytesRead] == src[..position + bytesRead];
      position := position + bytesRead;
    }
  }

  /** A copy of the bytes; a file that is copied onto itself is emptied, and that is reported as success. */
  method CopyFileUnsafe(fs: FileSystem, from: Path, to: Path) returns (ok: bool)
    requires fs.Valid()
    modifies fs`tree, fs`calls, fs`failures
    ensures fs.Valid()
    ensures ok <==> IsRegular(old(fs.tree), from) && Creatable(old(fs.tree), fs.locked, to)
                    && fs.failures == old(fs.failures)
    ensures ok ==> fs.tree == old(fs.tree)[to := Regular(BytesToCopy(old(fs.tree), from, to))]
    ensures from !in old(fs.tree) || !Creatable(old(fs.tree), fs.locked, to) ==> fs.tree == old(fs.tree)
    ensures from in old(fs.tree) && Creatable(old(fs.tree), fs.locked, to) ==>
              && IsRegular(fs.tree, to) && fs.tree == old(fs.tree)[to := fs.tree[to]]
              && fs.tree[to].bytes <=
                 (if IsRegular(old(fs.tree), from) && from != to then old(fs.tree)[from].bytes else [])
    ensures fs.failures >= old(fs.failures)
    ensures fs.NeverFails() && IsRegular(old(fs.tree), from) && Creatable(old(fs.tree), fs.locked, to) ==> ok
  {
    hide WellFormed, IsOrder, HasPlace, FileSystem.NeverFails;
    var kind := fs.Lstat(from);
    if kind.None? {
      return false;
    }
    var created := fs.Creat(to);
    if !created {
      var _ := fs.Close();
      return false;
    }
    ok := CopyLoop(fs, from, to, if IsRegular(fs.tree, from) then fs.tree[from].bytes else []);
    assert fs.tree == old(fs.tree)[to := fs.tree[to]];
    var inClosed := fs.Close();
    if !inClosed {
      ok := false;
    }
    var outClosed := fs.Close();
    if !outClosed {
      ok := false;
    }
  }

  /** Answers with the size only after every byte was written; otherwise some first part was. */
  method WriteFileDescriptor(fs: FileSystem, to: Path, data: seq<bv8>, size: int) returns (r: int)
    requires fs.Valid() && IsRegular(fs.tree, to) && size <= |data|
    modifies fs`tree, fs`calls, fs`failures
    ensures fs.Valid() && IsRegular(fs.tree, to) && fs.tree == old(fs.tree)[to := fs.tree[to]]
    ensures var was, wanted := old(fs.tree)[to].bytes, data[..if size < 0 then 0 else size];
            || (r == |wanted| && fs.tree[to].bytes == was + wanted)
            || (r == -1 && was <= fs.tree[to].bytes < was + wanted && !fs.NeverFails())
    ensures fs.failures == old(fs.failures) + (if r == -1 then 1 else 0)
  {
    hide WellFormed, IsOrder, Creatable, FileSystem.NeverFails;
    ghost var was := fs.tree[to].bytes;
    var bytesWritten := 0;
    assert was + data[..0] == was;
    while bytesWritten < size
      invariant 0 <= bytesWritten <= (if size < 0 then 0 else size) && fs.Valid() && IsRegular(fs.tree, to)
      invariant fs.tree == old(fs.tree)[to := Regular(was + data[..bytesWritten])] && fs.failures == old(fs.failures)
    {
      var partial := fs.Write(to, data[bytesWritten..size]);
      if partial < 0 {
        assert was + data[..size] == (was + data[..bytesWritten]) + data[bytesWritten..size];
        return -1;
      }
      assert data[bytesWritten..size][..partial] == data[bytesWritten..bytesWritten + partial];
      Regroup(was, data, bytesWritten, partial);
      bytesWritten := bytesWritten + partial;
    }
    return bytesWritten;
  }
}
