/** Files and directories as a tree of paths, and what it means to remove a part of it. */
module FileTree {
  import opened Util

  /** A path as the list of its components; the storage root is the empty list. */
  type FsPath = seq<string>
  datatype Entry = RegularFile | Directory
  type Disk = map<FsPath, Entry>

  /** Every entry's ancestors are directories on disk. */
  ghost predicate Tree(disk: Disk) {
    forall q, k :: q in disk && 0 <= k < |q| ==> q[..k] in disk && disk[q[..k]] == Directory
  }

  /** The disk without the entry at `p` and everything beneath it. */
  ghost function Without(disk: Disk, p: FsPath): Disk {
    map q | q in disk && !(p <= q) :: disk[q]
  }

  ghost predicate BeneathOneOf(ps: seq<FsPath>, q: FsPath) {
    exists i :: 0 <= i < |ps| && ps[i] <= q
  }

  ghost function WithoutAll(disk: Disk, ps: seq<FsPath>): Disk {
    map q | q in disk && !BeneathOneOf(ps, q) :: disk[q]
  }

  ghost function Subtree(disk: Disk, p: FsPath): set<FsPath> {
    set q | q in disk && p <= q
  }

  function Children(disk: Disk, p: FsPath): set<FsPath> {
    set q | q in disk.Keys && |q| == |p| + 1 && p <= q
  }

  /** Nothing outside the subtrees of `ps` was touched, and nothing appeared. */
  ghost predicate OnlyBeneath(before: Disk, after: Disk, ps: seq<FsPath>) {
    && Tree(after)
    && (forall q :: q in after ==> q in before && after[q] == before[q])
    && (forall q :: q in before && !BeneathOneOf(ps, q) ==> q in after)
  }

  /** Neither an entry at the path nor any beneath it. */
  ghost predicate NothingAt(disk: Disk, p: FsPath) {
    forall q :: q in disk ==> !(p <= q)
  }

  lemma PrefixTransitive(a: FsPath, b: FsPath, c: FsPath)
    ensures a <= b && b <= c ==> a <= c
  {}

  lemma BeneathTake(ps: seq<FsPath>, i: nat, q: FsPath)
    requires i < |ps|
    ensures BeneathOneOf(ps[..i + 1], q) <==> BeneathOneOf(ps[..i], q) || ps[i] <= q
  {
    if BeneathOneOf(ps[..i], q) {
      var j :| 0 <= j < i && ps[..i][j] <= q;
      assert ps[..i + 1][j] <= q;
    }
    if ps[i] <= q {
      assert ps[..i + 1][i] <= q;
    }
    if BeneathOneOf(ps[..i + 1], q) {
      var j :| 0 <= j < i + 1 && ps[..i + 1][j] <= q;
      assert j < i ==> ps[..i][j] <= q;
    }
  }

  lemma WithoutKeepsTree(disk: Disk, p: FsPath)
    requires Tree(disk)
    ensures Tree(Without(disk, p))
  {
    forall q, k | q in Without(disk, p) && 0 <= k < |q|
      ensures q[..k] in Without(disk, p) && Without(disk, p)[q[..k]] == Directory
    {
      if p <= q[..k] {
        PrefixTransitive(p, q[..k], q);
      }
    }
  }

  /** In a tree, what lies strictly beneath a path lies beneath one of its children. */
  lemma BeneathAChild(disk: Disk, p: FsPath, q: FsPath)
    requires Tree(disk) && q in disk && p <= q && p != q
    ensures q[..|p| + 1] in Children(disk, p)
  {
    assert p <= q[..|p| + 1];
    if |q| > |p| + 1 {
      assert q[..|p| + 1] in disk;
    } else {
      assert q[..|p| + 1] == q;
    }
  }

  lemma WithoutAllStep(disk: Disk, ps: seq<FsPath>, i: nat)
    requires i < |ps|
    ensures WithoutAll(disk, ps[..i + 1]) == Without(WithoutAll(disk, ps[..i]), ps[i])
  {
    forall q { BeneathTake(ps, i, q); }
  }

  /** Removing the children of a directory and then the directory removes its subtree. */
  lemma ChildrenThenDirectory(disk: Disk, p: FsPath, children: seq<FsPath>)
    requires Tree(disk) && p in disk && Elems(children) == Children(disk, p)
    ensures WithoutAll(disk, children) - {p} == Without(disk, p)
  {
    forall q | q in disk
      ensures BeneathOneOf(children, q) || q == p <==> p <= q
    {
      if p <= q && p != q {
        BeneathAChild(disk, p, q);
        assert q[..|p| + 1] in Elems(children);
        var i :| 0 <= i < |children| && children[i] == q[..|p| + 1];
        assert children[i] <= q;
      }
      if BeneathOneOf(children, q) {
        var i :| 0 <= i < |children| && children[i] <= q;
        assert children[i] in Elems(children);
        PrefixTransitive(p, children[i], q);
      }
    }
  }

  /** The entry exists and nothing in its subtree refuses to go; `stuck` are the entries that do. */
  ghost predicate Removable(stuck: FsPath -> bool, d: Disk, p: FsPath) {
    p in d && forall q :: q in Subtree(d, p) ==> !stuck(q)
  }

  /** What refuses to be removed is still there. */
  ghost predicate KeepsStuck(stuck: FsPath -> bool, before: Disk, after: Disk) {
    forall q :: q in before && stuck(q) ==> q in after
  }

  ghost predicate NothingStuck(stuck: FsPath -> bool) {
    forall q :: !stuck(q)
  }

  /** What is on disk has its ancestors on disk. */
  lemma AncestorIsThere(d: Disk, p: FsPath, q: FsPath)
    requires Tree(d) && q in d && p <= q
    ensures p in d && (p != q ==> d[p] == Directory)
  {
    assert q[..|p|] == p;
    if |p| == |q| {
      assert p == q;
    }
  }

  lemma BeneathAppend(a: seq<FsPath>, b: seq<FsPath>, q: FsPath)
    ensures BeneathOneOf(a + b, q) <==> BeneathOneOf(a, q) || BeneathOneOf(b, q)
  {
    if BeneathOneOf(a, q) {
      var i :| 0 <= i < |a| && a[i] <= q;
      assert (a + b)[i] <= q;
    }
    if BeneathOneOf(b, q) {
      var i :| 0 <= i < |b| && b[i] <= q;
      assert (a + b)[|a| + i] <= q;
    }
  }
}
