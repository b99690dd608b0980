/**
 The system calls that the file utilities make, over a tree that they change.
 */
module FileSystem {
  import opened Wrappers
  import opened FileTree

  /** A directory entry with what lstat() says of it. */
  datatype DirEntry = DirEntry(name: Name, kind: Kind)

  datatype MkdirResult = Created | AlreadyExists | Refused

  predicate HasPlace(t: Tree, locked: set<Path>, p: Path) {
    p != [] && !IsDots(p[|p| - 1]) && IsDirectory(t, Parent(p)) && p !in locked
  }

  /** creat() makes the file, or empties it. */
  predicate Creatable(t: Tree, locked: set<Path>, p: Path) {
    HasPlace(t, locked, p) && (p in t ==> t[p].Regular?)
  }

  lemma StaysWellFormed(t: Tree, p: Path, kind: Kind)
    requires WellFormed(t) && p != [] && !IsDots(p[|p| - 1]) && IsDirectory(t, Parent(p))
    requires IsDirectory(t, p) ==> kind.Directory?
    ensures WellFormed(t[p := kind])
  {
  }

  lemma HasChild(t: Tree, p: Path, q: Path)
    requires q in t && IsChildOf(q, p)
    ensures Children(t, p) != {}
  {
    ChildrenIff(t, p, q[|q| - 1]);
    ChildIff(q, p, q[|q| - 1]);
  }

  lemma RemovalStaysWellFormed(t: Tree, p: Path)
    requires WellFormed(t) && p != [] && Children(t, p) == {}
    ensures WellFormed(t - {p})
  {
    hide Children;
    forall q | q in t && q != [] ensures !IsChildOf(q, p) {
      if IsChildOf(q, p) {
        HasChild(t, p, q);
      }
    }
  }

  class FileSystem {
    var tree: Tree
    /** In which order directories are listed. */
    const order: Order
    /** What the system refuses to remove, to create or to open for writing. */
    const locked: set<Path>
    /**
     The answer to the n-th read(), write() or close(): negative if it fails, otherwise how many
     bytes it moves at most; a read() before the end and a write() always move one.
     */
    const limit: nat -> int
    var calls: nat
    /** How many of them have failed. */
    var failures: nat

    ghost predicate NeverFails() {
      forall n :: limit(n) >= 0
    }

    ghost predicate Valid()
      reads this
    {
      WellFormed(tree) && IsOrder(order) && [] in locked
    }

    constructor (tree: Tree, order: Order, locked: set<Path>, limit: nat -> int)
      requires WellFormed(tree) && IsOrder(order) && [] in locked
      ensures Valid() && this.tree == tree && this.order == order && this.locked == locked && this.limit == limit
      ensures calls == 0 && failures == 0
    {
      this.tree, this.order, this.locked, this.limit, calls, failures := tree, order, locked, limit, 0, 0;
    }

    method Lstat(p: Path) returns (kind: Option<Kind>)
      ensures kind == if p in tree then Some(tree[p]) else None
    {
      kind := if p in tree then Some(tree[p]) else None;
    }

    method Unlink(p: Path) returns (ok: bool)
      requires Valid()
      modifies this`tree
      ensures Valid()
      ensures ok <==> p in old(tree) && !old(tree)[p].Directory? && p !in locked
      ensures tree == if ok then old(tree) - {p} else old(tree)
    {
      ok := p in tree && !tree[p].Directory? && p !in locked;
      if ok {
        tree := tree - {p};
      }
    }

    method Rmdir(p: Path) returns (ok: bool)
      requires Valid()
      modifies this`tree
      ensures Valid()
      ensures ok <==> IsDirectory(old(tree), p) && Children(old(tree), p) == {} && p !in locked
      ensures tree == if ok then old(tree) - {p} else old(tree)
    {
      hide WellFormed, IsOrder, Children;
      ok := IsDirectory(tree, p) && Children(tree, p) == {} && p !in locked;
      if ok {
        RemovalStaysWellFormed(tree, p);
        tree := tree - {p};
      }
    }

    method Mkdir(p: Path, readable: bool) returns (r: MkdirResult)
      requires Valid()
      modifies this`tree
      ensures Valid()
      ensures r == if p in old(tree) then AlreadyExists else if HasPlace(old(tree), locked, p) then Created else Refused
      ensures tree == if r.Created? then old(tree)[p := Directory(readable)] else old(tree)
    {
      if p in tree {
        return AlreadyExists;
      }
      if !HasPlace(tree, locked, p) {
        return Refused;
      }
      StaysWellFormed(tree, p, Directory(readable));
      tree := tree[p := Directory(readable)];
      return Created;
    }

    method Creat(p: Path) returns (ok: bool)
      requires Valid()
      modifies this`tree
      ensures Valid()
      ensures ok <==> Creatable(old(tree), locked, p)
      ensures tree == if ok then old(tree)[p := Regular([])] else old(tree)
    {
      ok := Creatable(tree, locked, p);
      if ok {
        StaysWellFormed(tree, p, Regular([]));
        tree := tree[p := Regular([])];
      }
    }

    method Read(p: Path, offset: nat, buffer: array<bv8>) returns (n: int)
      requires p in tree && (tree[p].Regular? ==> offset <= |tree[p].bytes|) && buffer.Length > 0
      modifies buffer, this`calls, this`failures
      ensures failures == old(failures) + (if n < 0 then 1 else 0)
      ensures n < 0 ==> !tree[p].Regular? || !NeverFails()
      ensures !tree[p].Regular? ==> n < 0
      ensures n >= 0 ==> n <= buffer.Length && offset + n <= |tree[p].bytes|
      ensures n >= 0 ==> buffer[..n] == tree[p].bytes[offset..offset + n]
      ensures n == 0 ==> offset == |tree[p].bytes|
    {
      n := limit(calls);
      calls := calls + 1;
      if n < 0 || !tree[p].Regular? {
        failures := failures + 1;
        return -1;
      }
      var bytes := tree[p].bytes;
      n := Between(n, if |bytes| - offset < buffer.Length then |bytes| - offset else buffer.Length);
      forall i | 0 <= i < n {
        buffer[i] := bytes[offset + i];
      }
    }

    method Write(p: Path, data: seq<bv8>) returns (n: int)
      requires Valid() && p in tree && tree[p].Regular? && data != []
      modifies this`tree, this`calls, this`failures
      ensures Valid() && failures == old(failures) + (if n < 0 then 1 else 0)
      ensures n < 0 ==> !NeverFails()
      ensures n >= 0 ==> 0 < n <= |data|
      ensures tree == if n < 0 then old(tree) else old(tree)[p := Regular(old(tree)[p].bytes + data[..n])]
    {
      n := limit(calls);
      calls := calls + 1;
      if n >= 0 {
        n := Between(n, |data|);
        StaysWellFormed(tree, p, Regular(tree[p].bytes + data[..n]));
        tree := tree[p := Regular(tree[p].bytes + data[..n])];
      } else {
        failures := failures + 1;
      }
    }

    method Close() returns (ok: bool)
      modifies this`calls, this`failures
      ensures failures == old(failures) + (if ok then 0 else 1)
      ensures !ok ==> !NeverFails()
    {
      ok := limit(calls) >= 0;
      calls := calls + 1;
      failures := failures + (if ok then 0 else 1);
    }
  }

  function Between(n: nat, most: nat): nat {
    if most == 0 then 0 else if n == 0 then 1 else if n < most then n else most
  }
}
