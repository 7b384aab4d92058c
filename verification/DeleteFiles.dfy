/**
 * Deleting the gathered paths from disk: recursive removal of one path, chunks of
 * removals that run at the same time, and the draining of the Redis set.
 */
module DeleteFiles {
  import opened Util
  import opened FileTree
  import opened Removals
  import opened RemovalOutcomes
  import opened RemovalRaces
  import GatherFiles

  /** How many of the attempts succeeded. */
  function Successes(results: seq<bool>): nat {
    if results == [] then 0
    else Successes(results[..|results| - 1]) + if results[|results| - 1] then 1 else 0
  }

  lemma {:induction false} SuccessesAppend(a: seq<bool>, b: seq<bool>)
    ensures Successes(a + b) == Successes(a) + Successes(b)
  {
    if b == [] {
      assert a + b == a;
    } else {
      var last := |b| - 1;
      assert (a + b)[..|a + b| - 1] == a + b[..last];
      SuccessesAppend(a, b[..last]);
    }
  }

  // ------------------------------------------------------- one chunk after another

  /** Where the chunk that position `i` falls into begins. */
  function ChunkStart(n: nat, i: nat): nat
    requires n > 0
  {
    if i < n then 0 else n + ChunkStart(n, i - n)
  }

  /** The path exists and no chunk before its own has taken it. */
  ghost predicate FirstToTake(before: Disk, paths: seq<FsPath>, n: nat, i: nat)
    requires n > 0 && i < |paths|
  {
    ChunkStart(n, i) <= i && paths[i] in before && !BeneathOneOf(paths[..ChunkStart(n, i)], paths[i])
  }

  /** The chunk of both paths finds the second one on disk, and it lies strictly beneath the first. */
  ghost predicate Nested(before: Disk, paths: seq<FsPath>, n: nat, i: nat, j: nat)
    requires n > 0 && i < |paths| && j < |paths|
  {
    && ChunkStart(n, i) == ChunkStart(n, j)
    && FirstToTake(before, paths, n, j) && paths[i] <= paths[j] && paths[i] != paths[j]
  }

  ghost predicate UnnestedInChunks(before: Disk, paths: seq<FsPath>, n: nat)
    requires n > 0
  {
    forall i: nat, j: nat :: i < |paths| && j < |paths| ==> !Nested(before, paths, n, i, j)
  }

  /** Nothing refuses to go, the paths differ, and in no chunk does one lie beneath another. */
  ghost predicate Undisturbed(stuck: FsPath -> bool, before: Disk, paths: seq<FsPath>, n: nat)
    requires n > 0
  {
    NothingStuck(stuck) && NoDuplicates(paths) && UnnestedInChunks(before, paths, n)
  }

  /** Exactly the subtrees are gone; a path counts if it existed and no earlier chunk had taken it. */
  ghost predicate ExactBatches(before: Disk, after: Disk, paths: seq<FsPath>, results: seq<bool>, n: nat)
    requires n > 0
  {
    && |results| == |paths|
    && after == WithoutAll(before, paths)
    && forall i :: 0 <= i < |paths| ==> (results[i] <==> FirstToTake(before, paths, n, i))
  }

  /** The chunks up to position `b` are done. */
  ghost predicate BatchesDone(stuck: FsPath -> bool, before: Disk, now: Disk, paths: seq<FsPath>, results: seq<bool>,
          n: nat, b: nat)
    requires n > 0 && b <= |paths|
  {
    && Tree(before)
    && Attempts(stuck, before, now, paths[..b], results)
    && (Undisturbed(stuck, before, paths, n) ==> ExactBatches(before, now, paths[..b], results, n))
  }

  lemma OneMoreBatch(stuck: FsPath -> bool, before: Disk, now: Disk, after: Disk, paths: seq<FsPath>,
          results: seq<bool>, more: seq<bool>, n: nat, b: nat, end: nat)
    requires n > 0 && b < end <= |paths| && end <= b + n && ChunkStart(n, b) == b
    requires BatchesDone(stuck, before, now, paths, results, n, b)
    requires Attempts(stuck, now, after, paths[b..end], more)
    ensures BatchesDone(stuck, before, after, paths, results + more, n, end)
    ensures end == b + n ==> ChunkStart(n, end) == end
  {
    var chunk := paths[b..end];
    assert paths[..end] == paths[..b] + chunk;
    AttemptsCompose(stuck, before, now, after, paths[..b], results, chunk, more);
    if Undisturbed(stuck, before, paths, n) {
      OneMoreExact(stuck, before, now, after, paths, results, more, n, b, end);
    }
  }

  lemma OneMoreExact(stuck: FsPath -> bool, before: Disk, now: Disk, after: Disk, paths: seq<FsPath>,
          results: seq<bool>, more: seq<bool>, n: nat, b: nat, end: nat)
    requires n > 0 && b < end <= |paths| && end <= b + n && ChunkStart(n, b) == b
    requires Undisturbed(stuck, before, paths, n) && ExactBatches(before, now, paths[..b], results, n)
    requires Tree(now) && Attempts(stuck, now, after, paths[b..end], more)
    ensures ExactBatches(before, after, paths[..end], results + more, n)
  {
    ChunkIsUnnested(before, now, paths, n, b, end);
    UnnestedRemovesExactly(stuck, now, after, paths[b..end], more);
    ExactOneMore(before, now, after, paths, results, more, n, b, end);
  }

  lemma ChunkIsUnnested(before: Disk, now: Disk, paths: seq<FsPath>, n: nat, b: nat, end: nat)
    requires n > 0 && b < end <= |paths| && end <= b + n && ChunkStart(n, b) == b
    requires NoDuplicates(paths) && UnnestedInChunks(before, paths, n) && now == WithoutAll(before, paths[..b])
    ensures NoDuplicates(paths[b..end]) && Unnested(now, paths[b..end])
  {
    forall i: nat, j: nat | b <= i < end && b <= j < end && paths[j] in now && paths[i] <= paths[j]
      ensures paths[i] == paths[j]
    {
      SameChunk(n, b, i);
      SameChunk(n, b, j);
      assert !Nested(before, paths, n, i, j);
    }
  }

  lemma {:induction false} SameChunk(n: nat, b: nat, i: nat)
    requires n > 0 && ChunkStart(n, b) == b <= i < b + n
    ensures ChunkStart(n, i) == b
  {
    if b > 0 {
      SameChunk(n, b - n, i - n);
    }
  }

  lemma ExactOneMore(before: Disk, now: Disk, after: Disk, paths: seq<FsPath>, results: seq<bool>, more: seq<bool>,
          n: nat, b: nat, end: nat)
    requires n > 0 && b < end <= |paths| && end <= b + n && ChunkStart(n, b) == b
    requires ExactBatches(before, now, paths[..b], results, n)
    requires |more| == end - b && after == WithoutAll(now, paths[b..end])
    requires forall i :: 0 <= i < |more| ==> (more[i] <==> paths[b..end][i] in now)
    ensures ExactBatches(before, after, paths[..end], results + more, n)
  {
    var chunk := paths[b..end];
    assert paths[..end] == paths[..b] + chunk;
    forall q { BeneathAppend(paths[..b], chunk, q); }
    forall i | 0 <= i < end
      ensures (results + more)[i] <==> FirstToTake(before, paths[..end], n, i)
    {
      if i < b {
        assert ChunkStart(n, i) <= i ==> paths[..end][..ChunkStart(n, i)] == paths[..b][..ChunkStart(n, i)];
      } else {
        SameChunk(n, b, i);
        assert paths[..end][..b] == paths[..b];
      }
    }
  }

  // ------------------------------------------------------- one pop after another

  /** The popped paths are distinct, and with what is left they make up the gathered set. */
  ghost predicate Popped(gathered: set<FsPath>, left: set<FsPath>, attempted: seq<FsPath>) {
    |Elems(attempted)| == |attempted| && Elems(attempted) <= gathered && left == gathered - Elems(attempted)
  }

  lemma PopMore(gathered: set<FsPath>, left: set<FsPath>, left': set<FsPath>, attempted: seq<FsPath>,
          popped: seq<FsPath>)
    requires Popped(gathered, left, attempted) && Popped(left, left', popped)
    ensures Popped(gathered, left', attempted + popped)
  {
    ElemsAppend(attempted, popped);
  }

  lemma PoppedSize(gathered: set<FsPath>, left: set<FsPath>, attempted: seq<FsPath>)
    requires Popped(gathered, left, attempted)
    ensures |left| == |gathered| - |attempted|
    ensures |attempted| >= |gathered| ==> Elems(attempted) == gathered
  {
    assert gathered == Elems(attempted) + left;
  }

  lemma {:induction false} PoppedDiffer(attempted: seq<FsPath>)
    requires |Elems(attempted)| == |attempted|
    ensures NoDuplicates(attempted)
  {
    if attempted != [] {
      var rest, last := attempted[..|attempted| - 1], attempted[|attempted| - 1];
      assert attempted == rest + [last];
      ElemsPush(rest, last);
      SizeAtMostLength(rest);
      assert last !in Elems(rest);
      PoppedDiffer(rest);
    }
  }

  lemma {:induction false} SizeAtMostLength(s: seq<FsPath>)
    ensures |Elems(s)| <= |s|
  {
    if s != [] {
      var rest, last := s[..|s| - 1], s[|s| - 1];
      assert s == rest + [last];
      ElemsPush(rest, last);
      SizeAtMostLength(rest);
    }
  }

  /** What the pops so far have come to; `aligned` says that every pop but the last fills its chunks. */
  ghost predicate PopsDone(stuck: FsPath -> bool, before: Disk, now: Disk, attempted: seq<FsPath>, results: seq<bool>,
          n: nat, aligned: bool)
    requires n > 0
  {
    && Tree(before)
    && Attempts(stuck, before, now, attempted, results)
    && (aligned && Undisturbed(stuck, before, attempted, n) ==> ExactBatches(before, now, attempted, results, n))
  }

  lemma {:induction false} NextBoundary(n: nat, i: nat, k: nat)
    requires n > 0 && ChunkStart(n, i) == i
    ensures ChunkStart(n, i + k) == i + ChunkStart(n, k)
  {
    if i > 0 {
      NextBoundary(n, i - n, k);
    }
  }

  /** A pop of a multiple of the chunk size fills its chunks; the code pops 10000 for chunks of 100. */
  lemma {:induction false} MultipleIsBoundary(n: nat, k: nat)
    requires n > 0
    ensures ChunkStart(n, k * n) == k * n
  {
    if k > 0 {
      MultipleIsBoundary(n, k - 1);
      assert k * n == (k - 1) * n + n;
    }
  }

  /** Positions of the second list keep their chunks in the whole list. */
  lemma SecondList(before: Disk, now: Disk, a: seq<FsPath>, b: seq<FsPath>, n: nat, j: nat)
    requires n > 0 && ChunkStart(n, |a|) == |a| && j < |b| && now == WithoutAll(before, a)
    ensures ChunkStart(n, |a| + j) == |a| + ChunkStart(n, j)
    ensures FirstToTake(before, a + b, n, |a| + j) <==> FirstToTake(now, b, n, j)
  {
    NextBoundary(n, |a|, j);
    var start := ChunkStart(n, j);
    if start <= j {
      assert (a + b)[..|a| + start] == a + b[..start];
      BeneathAppend(a, b[..start], b[j]);
    }
  }

  lemma FirstList(before: Disk, a: seq<FsPath>, b: seq<FsPath>, n: nat, i: nat)
    requires n > 0 && i < |a|
    ensures FirstToTake(before, a + b, n, i) <==> FirstToTake(before, a, n, i)
  {
    if ChunkStart(n, i) <= i {
      assert (a + b)[..ChunkStart(n, i)] == a[..ChunkStart(n, i)];
    }
  }

  /** The drain after asking for `i` paths, `perPop` at a time. */
  ghost predicate Drained(stuck: FsPath -> bool, before: Disk, now: Disk, gathered: set<FsPath>, left: set<FsPath>,
          attempted: seq<FsPath>, results: seq<bool>, n: nat, perPop: nat, i: nat)
    requires n > 0
  {
    && PopsDone(stuck, before, now, attempted, results, n, ChunkStart(n, perPop) == perPop)
    && Popped(gathered, left, attempted) && |attempted| == Min(i, |gathered|)
    && (ChunkStart(n, perPop) == perPop ==> ChunkStart(n, i) == i)
  }

  lemma NothingDrained(stuck: FsPath -> bool, d: Disk, gathered: set<FsPath>, n: nat, perPop: nat)
    requires n > 0 && Tree(d)
    ensures Drained(stuck, d, d, gathered, gathered, [], [], n, perPop, 0)
  {
    NoAttempts(stuck, d);
    assert d == WithoutAll(d, []);
  }

  lemma PopsCompose(stuck: FsPath -> bool, before: Disk, now: Disk, after: Disk,
                    a: seq<FsPath>, ra: seq<bool>, b: seq<FsPath>, rb: seq<bool>, n: nat)
    requires n > 0 && ChunkStart(n, |a|) == |a| && Undisturbed(stuck, before, a + b, n)
    requires Undisturbed(stuck, before, a, n) ==> ExactBatches(before, now, a, ra, n)
    requires Undisturbed(stuck, now, b, n) ==> ExactBatches(now, after, b, rb, n)
    ensures ExactBatches(before, after, a + b, ra + rb, n)
  {
    FirstIsUndisturbed(stuck, before, a, b, n);
    SecondIsUndisturbed(stuck, before, now, a, b, n);
    ExactCompose(before, now, after, a, ra, b, rb, n);
  }

  lemma ExactCompose(before: Disk, now: Disk, after: Disk,
                     a: seq<FsPath>, ra: seq<bool>, b: seq<FsPath>, rb: seq<bool>, n: nat)
    requires n > 0 && ChunkStart(n, |a|) == |a|
    requires ExactBatches(before, now, a, ra, n) && ExactBatches(now, after, b, rb, n)
    ensures ExactBatches(before, after, a + b, ra + rb, n)
  {
    WithoutBoth(before, a, b);
    forall i | 0 <= i < |a + b| ensures (ra + rb)[i] <==> FirstToTake(before, a + b, n, i) {
      if i < |a| {
        FirstList(before, a, b, n, i);
      } else {
        SecondList(before, now, a, b, n, i - |a|);
      }
    }
  }

  lemma WithoutBoth(d: Disk, a: seq<FsPath>, b: seq<FsPath>)
    ensures WithoutAll(WithoutAll(d, a), b) == WithoutAll(d, a + b)
  {
    forall q { BeneathAppend(a, b, q); }
  }

  lemma FirstIsUndisturbed(stuck: FsPath -> bool, before: Disk, a: seq<FsPath>, b: seq<FsPath>, n: nat)
    requires n > 0 && Undisturbed(stuck, before, a + b, n)
    ensures Undisturbed(stuck, before, a, n)
  {
    PartsDiffer(a, b);
    forall i: nat, j: nat | i < |a| && j < |a| ensures !Nested(before, a, n, i, j) {
      FirstList(before, a, b, n, j);
      assert !Nested(before, a + b, n, i, j);
    }
  }

  lemma SecondIsUndisturbed(stuck: FsPath -> bool, before: Disk, now: Disk, a: seq<FsPath>, b: seq<FsPath>, n: nat)
    requires n > 0 && ChunkStart(n, |a|) == |a| && now == WithoutAll(before, a) && Undisturbed(stuck, before, a + b, n)
    ensures Undisturbed(stuck, now, b, n)
  {
    PartsDiffer(a, b);
    forall i: nat, j: nat | i < |b| && j < |b| ensures !Nested(now, b, n, i, j) {
      assert !Nested(before, a + b, n, |a| + i, |a| + j);
      NestedInWhole(before, now, a, b, n, i, j);
    }
  }

  lemma NestedInWhole(before: Disk, now: Disk, a: seq<FsPath>, b: seq<FsPath>, n: nat, i: nat, j: nat)
    requires n > 0 && ChunkStart(n, |a|) == |a| && now == WithoutAll(before, a) && i < |b| && j < |b|
    ensures Nested(before, a + b, n, |a| + i, |a| + j) <==> Nested(now, b, n, i, j)
  {
    SecondList(before, now, a, b, n, i);
    SecondList(before, now, a, b, n, j);
  }

  lemma PartsDiffer(a: seq<FsPath>, b: seq<FsPath>)
    requires NoDuplicates(a + b)
    ensures NoDuplicates(a) && NoDuplicates(b)
  {
    assert forall i :: 0 <= i < |a| ==> (a + b)[i] == a[i];
    assert forall i :: 0 <= i < |b| ==> (a + b)[|a| + i] == b[i];
  }

  // ------------------------------------------------------------------- the object

  class DiskManager {
    var disk: Disk
    const stuck: FsPath -> bool  // entries the file system refuses to remove
    var toDelete: set<FsPath>    // the Redis set of gathered paths

    constructor (disk: Disk, stuck: FsPath -> bool, toDelete: set<FsPath>)
      ensures this.disk == disk && this.stuck == stuck && this.toDelete == toDelete
    {
      this.disk, this.stuck, this.toDelete := disk, stuck, toDelete;
    }

    method Unlink(p: FsPath) returns (ok: bool)
      requires Tree(disk) && p in disk && disk[p] == RegularFile
      modifies this`disk
      ensures ok <==> Removable(stuck, old(disk), p)
      ensures ok ==> disk == Without(old(disk), p)
      ensures OnlyBeneath(old(disk), disk, [p]) && KeepsStuck(stuck, old(disk), disk)
    {
      ok := !stuck(p);
      LeafSubtree(disk, p);
      assert [p][0] == p;
      if ok {
        WithoutKeepsTree(disk, p);
        assert disk - {p} == Without(disk, p);
        disk := disk - {p};
      }
    }

    /**
     * Succeeds exactly when the entry exists and nothing beneath it is stuck,
     * and then removes exactly its subtree; a failure touches nothing outside it.
     */
    method DeleteFileOrDir(p: FsPath) returns (ok: bool)
      requires Tree(disk)
      modifies this`disk
      ensures ok <==> Removable(stuck, old(disk), p)
      ensures ok ==> disk == Without(old(disk), p)
      ensures OnlyBeneath(old(disk), disk, [p]) && KeepsStuck(stuck, old(disk), disk)
      decreases Subtree(disk, p)
    {
      if p !in disk {
        return false;
      }
      if disk[p] != Directory {
        ok := Unlink(p);
        return;
      }
      var children := SetToSeq(Children(disk, p));
      assert children[..0] == [] && disk == WithoutAll(disk, children[..0]);
      var i := 0;
      while i < |children|
        invariant i <= |children| && ChildrenGone(old(disk), disk, p, children, i)
      {
        ghost var now := disk;
        NextChild(old(disk), now, p, children, i);
        var removed;
        if disk[children[i]] == Directory {
          removed := DeleteFileOrDir(children[i]);
        } else {
          removed := Unlink(children[i]);
        }
        ChildDone(old(disk), now, disk, p, children, i, removed);
        if !removed {
          return false;
        }
        i := i + 1;
      }
      EmptyDirectory(old(disk), disk, p, children);
      ok := !stuck(p);
      if ok {
        disk := disk - {p};
      }
    }

    /** The first `i` children of `p` are gone with their subtrees, and nothing else. */
    ghost predicate ChildrenGone(before: Disk, now: Disk, p: FsPath, children: seq<FsPath>, i: nat)
      requires i <= |children|
    {
      && Tree(before) && p in before && Elems(children) == Children(before, p) && NoDuplicates(children)
      && now == WithoutAll(before, children[..i])
      && OnlyBeneath(before, now, [p]) && KeepsStuck(stuck, before, now)
      && forall j :: 0 <= j < i ==> Removable(stuck, before, children[j])
    }

    lemma NextChild(before: Disk, now: Disk, p: FsPath, children: seq<FsPath>, i: nat)
      requires i < |children| && ChildrenGone(before, now, p, children, i)
      ensures children[i] in now && p <= children[i]
      ensures Subtree(now, children[i]) == Subtree(before, children[i]) < Subtree(before, p)
      ensures Removable(stuck, now, children[i]) <==> Removable(stuck, before, children[i])
    {
      assert children[i] in Elems(children);
      ChildStillThere(before, children, i, p);
    }

    lemma ChildDone(before: Disk, now: Disk, after: Disk, p: FsPath, children: seq<FsPath>, i: nat, ok: bool)
      requires i < |children| && ChildrenGone(before, now, p, children, i)
      requires ok <==> Removable(stuck, now, children[i])
      requires ok ==> after == Without(now, children[i])
      requires OnlyBeneath(now, after, [children[i]]) && KeepsStuck(stuck, now, after)
      ensures OnlyBeneath(before, after, [p]) && KeepsStuck(stuck, before, after)
      ensures ok ==> ChildrenGone(before, after, p, children, i + 1)
      ensures !ok ==> !Removable(stuck, before, p)
    {
      NextChild(before, now, p, children, i);
      BeneathChildIsBeneath(before, now, after, p, children[i]);
      WithoutAllStep(before, children, i);
    }

    /** With its children gone the directory is empty, and removing it removes the subtree. */
    lemma EmptyDirectory(before: Disk, now: Disk, p: FsPath, children: seq<FsPath>)
      requires ChildrenGone(before, now, p, children, |children|)
      ensures now - {p} == Without(before, p)
      ensures OnlyBeneath(before, now - {p}, [p])
      ensures Removable(stuck, before, p) <==> !stuck(p)
    {
      assert children[..|children|] == children;
      ChildrenThenDirectory(before, p, children);
      SubtreeIsChildren(before, p, children);
      WithoutKeepsTree(before, p);
      assert [p][0] == p;
    }

    /** A regular file has nothing beneath it. */
    static lemma LeafSubtree(d: Disk, p: FsPath)
      requires Tree(d) && p in d && d[p] == RegularFile
      ensures Subtree(d, p) == {p}
    {
      forall q | q in d && p <= q ensures q == p {
        assert q[..|p|] == p;
      }
    }

    /** Siblings do not lie beneath each other, so the next child is untouched. */
    static lemma ChildStillThere(d: Disk, children: seq<FsPath>, i: nat, p: FsPath)
      requires i < |children| && NoDuplicates(children) && Elems(children) == Children(d, p)
      ensures children[i] in WithoutAll(d, children[..i])
      ensures Subtree(WithoutAll(d, children[..i]), children[i]) == Subtree(d, children[i])
      ensures p in d ==> Subtree(d, children[i]) < Subtree(d, p)
    {
      var child := children[i];
      assert child in Elems(children);
      forall q | q in d && child <= q ensures !BeneathOneOf(children[..i], q) {
        forall j | 0 <= j < i ensures !(children[j] <= q) {
          assert children[j] in Elems(children) && children[j] != child;
          assert child == q[..|p| + 1];
        }
      }
      forall q | q in Subtree(d, child) ensures q in Subtree(d, p) {
        PrefixTransitive(p, child, q);
      }
      if p in d {
        assert p in Subtree(d, p) && p !in Subtree(d, child);
      }
    }

    static lemma BeneathChildIsBeneath(before: Disk, now: Disk, after: Disk, p: FsPath, child: FsPath)
      requires OnlyBeneath(before, now, [p]) && OnlyBeneath(now, after, [child]) && p <= child
      ensures OnlyBeneath(before, after, [p])
    {
      assert [p][0] == p;
      forall q | q in before && !BeneathOneOf([p], q) ensures q in after {
        PrefixTransitive(p, child, q);
        assert !(child <= q);
        assert !BeneathOneOf([child], q);
      }
    }

    lemma SubtreeIsChildren(d: Disk, p: FsPath, children: seq<FsPath>)
      requires Tree(d) && p in d && Elems(children) == Children(d, p)
      requires forall j :: 0 <= j < |children| ==> Removable(stuck, d, children[j])
      ensures Removable(stuck, d, p) <==> !stuck(p)
    {
      assert p in Subtree(d, p);
      forall q | q in Subtree(d, p) && q != p ensures !stuck(q) {
        BeneathAChild(d, p, q);
        assert q[..|p| + 1] in Elems(children);
        var j :| 0 <= j < |children| && children[j] == q[..|p| + 1];
        assert q in Subtree(d, children[j]);
      }
    }

    /** One chunk: some interleaving of its removals has run to the end. */
    ghost predicate ChunkEnds(before: Disk, after: Disk, paths: seq<FsPath>, results: seq<bool>) {
      exists end :: Reaches(stuck, Start(before, paths), end) && Finished(end)
        && end.disk == after && Results(end) == results
    }

    /**
     * Starts the removals of a chunk together and waits until all have settled.
     * Which removal's next call comes through first is left open.
     */
    method DeleteChunk(paths: seq<FsPath>) returns (results: seq<bool>)
      requires Tree(disk)
      modifies this`disk
      ensures ChunkEnds(old(disk), disk, paths, results)
      ensures Attempts(stuck, old(disk), disk, paths, results)
    {
      var tasks := Start(disk, paths).tasks;
      Stays(stuck, Start(disk, paths));
      while exists i :: 0 <= i < |tasks| && !tasks[i].Ended()
        invariant Reaches(stuck, Start(old(disk), paths), State(disk, tasks))
        decreases TasksWeight(old(disk), tasks)
      {
        var i :| 0 <= i < |tasks| && !tasks[i].Ended();
        var listing := SetToSeq(Children(disk, tasks[i].todo[0].p));
        NextCall(old(disk), paths, State(disk, tasks), Event(i, listing));
        var effect := AfterCall(stuck, disk, tasks[i], listing);
        disk, tasks := effect.disk, tasks[i := effect.task];
      }
      results := seq(|tasks|, i requires 0 <= i < |tasks| => tasks[i].Succeeded());
      FinishedIsAccounted(stuck, old(disk), paths, State(disk, tasks));
    }

    lemma NextCall(before: Disk, paths: seq<FsPath>, s: State, ev: Event)
      requires Tree(before) && Reaches(stuck, Start(before, paths), s) && Enabled(s, ev)
      ensures Reaches(stuck, Start(before, paths), Apply(stuck, s, ev))
      ensures TasksWeight(before, Apply(stuck, s, ev).tasks) < TasksWeight(before, s.tasks)
    {
      ThenStep(stuck, Start(before, paths), s, ev);
      StartIsInv(stuck, before, paths);
      ReachedIsInv(stuck, before, paths, Start(before, paths), s);
      StepLosesWeight(stuck, before, s, ev);
    }

    /** Removes the paths chunk by chunk and counts the removals that were fulfilled. */
    method BatchDelete(paths: seq<FsPath>, batchSize: nat) returns (deleted: nat, results: seq<bool>)
      requires Tree(disk) && batchSize > 0
      modifies this`disk
      ensures deleted == Successes(results)
      ensures Attempts(stuck, old(disk), disk, paths, results)
      ensures Undisturbed(stuck, old(disk), paths, batchSize)
          ==> ExactBatches(old(disk), disk, paths, results, batchSize)
    {
      results := [];
      var b := 0;
      while b < |paths|
        invariant b <= |paths| && (b < |paths| ==> ChunkStart(batchSize, b) == b)
        invariant BatchesDone(stuck, old(disk), disk, paths, results, batchSize, b)
      {
        ghost var now := disk;
        var end := Min(b + batchSize, |paths|);
        var more := DeleteChunk(paths[b..end]);
        OneMoreBatch(stuck, old(disk), now, disk, paths, results, more, batchSize, b, end);
        results, b := results + more, end;
      }
      assert paths[..|paths|] == paths;
      deleted := CountSuccesses(results);
    }

    static method CountSuccesses(results: seq<bool>) returns (n: nat)
      ensures n == Successes(results)
    {
      n := 0;
      for i := 0 to |results|
        invariant n == Successes(results[..i])
      {
        assert results[..i + 1][..i] == results[..i];
        if results[i] {
          n := n + 1;
        }
      }
      assert results[..|results|] == results;
    }

    /** SPOP with a count: removes that many members, or all if there are fewer. */
    method Spop(count: nat) returns (popped: seq<FsPath>)
      modifies this`toDelete
      ensures Popped(old(toDelete), toDelete, popped)
      ensures |popped| == Min(count, |old(toDelete)|)
    {
      popped := [];
      while |popped| < count && toDelete != {}
        invariant Popped(old(toDelete), toDelete, popped)
        invariant |popped| + |toDelete| == |old(toDelete)| && |popped| <= count
        decreases |toDelete|
      {
        var p :| p in toDelete;
        ElemsPush(popped, p);
        popped, toDelete := popped + [p], toDelete - {p};
      }
    }

    /**
     * Pops and deletes until `numFilesToDelete` paths were asked for or the set
     * is empty; the set is dropped in any case. `attempted` lists the paths in
     * the order they were tried, and the account is as of one batch of them.
     */
    method DeleteAllGathered(numFilesToDelete: nat, filesPerPop: nat, batchSize: nat)
      returns (deleted: nat, attempted: seq<FsPath>, results: seq<bool>)
      requires Tree(disk) && filesPerPop > 0 && batchSize > 0
      modifies this`disk, this`toDelete
      ensures toDelete == {}
      ensures deleted == Successes(results)
      ensures NoDuplicates(attempted) && Elems(attempted) <= old(toDelete)
      ensures numFilesToDelete >= |old(toDelete)| ==> Elems(attempted) == old(toDelete)
      ensures PopsDone(stuck, old(disk), disk, attempted, results, batchSize,
                       ChunkStart(batchSize, filesPerPop) == filesPerPop)
    {
      ghost var asked;
      deleted, attempted, results, asked := DeleteUntilAsked(numFilesToDelete, filesPerPop, batchSize);
      PoppedSize(old(toDelete), toDelete, attempted);
      PoppedDiffer(attempted);
      toDelete := {};
    }

    /** The loop of the drain; `asked` is how many paths were asked for, or enough for all. */
    method DeleteUntilAsked(numFilesToDelete: nat, filesPerPop: nat, batchSize: nat)
      returns (deleted: nat, attempted: seq<FsPath>, results: seq<bool>, ghost asked: nat)
      requires Tree(disk) && filesPerPop > 0 && batchSize > 0
      modifies this`disk, this`toDelete
      ensures deleted == Successes(results)
      ensures Drained(stuck, old(disk), disk, old(toDelete), toDelete, attempted, results, batchSize, filesPerPop,
                      asked)
      ensures asked >= numFilesToDelete || |attempted| >= |old(toDelete)|
    {
      ghost var gathered := toDelete;
      deleted, attempted, results := 0, [], [];
      NothingDrained(stuck, disk, gathered, batchSize, filesPerPop);
      var i := 0;
      while i < numFilesToDelete
        invariant deleted == Successes(results)
        invariant Drained(stuck, old(disk), disk, gathered, toDelete, attempted, results, batchSize, filesPerPop, i)
        decreases numFilesToDelete - i
      {
        var popped, n;
        popped, n, results := PopAndDelete(old(disk), gathered, attempted, results, filesPerPop, batchSize, i);
        deleted, attempted, i := deleted + n, attempted + popped, i + filesPerPop;
        if |popped| == 0 {
          return deleted, attempted, results, i;
        }
      }
      asked := i;
    }

    /** One round of the loop: one batch is popped and deleted, or nothing is left to pop. */
    method PopAndDelete(ghost before: Disk, ghost gathered: set<FsPath>, attempted: seq<FsPath>, results: seq<bool>,
            filesPerPop: nat, batchSize: nat, ghost i: nat)
      returns (popped: seq<FsPath>, n: nat, all: seq<bool>)
      requires batchSize > 0 && filesPerPop > 0
      requires Drained(stuck, before, disk, gathered, toDelete, attempted, results, batchSize, filesPerPop, i)
      modifies this`disk, this`toDelete
      ensures popped == [] ==> disk == old(disk) && toDelete == old(toDelete) && |attempted| >= |gathered|
      ensures Drained(stuck, before, disk, gathered, toDelete, attempted + popped, all, batchSize, filesPerPop,
                      i + filesPerPop)
      ensures Successes(all) == Successes(results) + n
    {
      PoppedSize(gathered, toDelete, attempted);
      popped := Spop(filesPerPop);
      PopMore(gathered, old(toDelete), toDelete, attempted, popped);
      ghost var aligned := ChunkStart(batchSize, filesPerPop) == filesPerPop;
      if aligned {
        NextBoundary(batchSize, i, filesPerPop);
      }
      if |popped| == 0 {
        assert attempted + popped == attempted && toDelete == old(toDelete);
        return popped, 0, results;
      }
      n, all := DeletePopped(before, attempted, results, popped, batchSize, aligned);
    }

    /** Deletes one popped batch, adding its attempts to those before. */
    method DeletePopped(ghost before: Disk, attempted: seq<FsPath>, results: seq<bool>, popped: seq<FsPath>,
            batchSize: nat, ghost aligned: bool)
      returns (n: nat, all: seq<bool>)
      requires batchSize > 0 && PopsDone(stuck, before, disk, attempted, results, batchSize, aligned)
      requires aligned ==> ChunkStart(batchSize, |attempted|) == |attempted|
      modifies this`disk
      ensures PopsDone(stuck, before, disk, attempted + popped, all, batchSize, aligned)
      ensures Successes(all) == Successes(results) + n
    {
      ghost var now := disk;
      var more;
      n, more := BatchDelete(popped, batchSize);
      AttemptsCompose(stuck, before, now, disk, attempted, results, popped, more);
      if aligned && Undisturbed(stuck, before, attempted + popped, batchSize) {
        PopsCompose(stuck, before, now, disk, attempted, results, popped, more, batchSize);
      }
      SuccessesAppend(results, more);
      all := results + more;
    }
  }

  // ------------------------------------------------------- what the outcomes mean

  /** With no existing path beneath another, the number returned is the number of removable paths. */
  lemma CountIsNumberOfRemovablePaths(stuck: FsPath -> bool, before: Disk, after: Disk, paths: seq<FsPath>,
          results: seq<bool>)
    requires Attempts(stuck, before, after, paths, results) && NoDuplicates(paths) && Unnested(before, paths)
    ensures Successes(results) == |RemovablePaths(stuck, before, paths)|
  {
    UnnestedAttemptsSucceedIffRemovable(stuck, before, after, paths, results);
    SuccessesCountPaths(stuck, before, paths, results);
  }

  ghost function RemovablePaths(stuck: FsPath -> bool, before: Disk, paths: seq<FsPath>): set<FsPath> {
    set p | p in paths && Removable(stuck, before, p)
  }

  lemma OneMoreRemovable(stuck: FsPath -> bool, before: Disk, paths: seq<FsPath>, p: FsPath)
    requires p !in paths
    ensures |RemovablePaths(stuck, before, paths + [p])|
         == |RemovablePaths(stuck, before, paths)| + if Removable(stuck, before, p) then 1 else 0
  {
    var counted := RemovablePaths(stuck, before, paths);
    assert RemovablePaths(stuck, before, paths + [p]) == counted + if Removable(stuck, before, p) then {p} else {};
  }

  lemma {:induction false} SuccessesCountPaths(stuck: FsPath -> bool, before: Disk, paths: seq<FsPath>,
          results: seq<bool>)
    requires |results| == |paths| && NoDuplicates(paths)
    requires forall i :: 0 <= i < |paths| ==> (results[i] <==> Removable(stuck, before, paths[i]))
    ensures Successes(results) == |RemovablePaths(stuck, before, paths)|
  {
    if paths != [] {
      var last := |paths| - 1;
      SuccessesCountPaths(stuck, before, paths[..last], results[..last]);
      assert paths == paths[..last] + [paths[last]];
      OneMoreRemovable(stuck, before, paths[..last], paths[last]);
    }
  }

  /** The paths gathered for a user. `name` turns path numbers into paths. */
  ghost function GatheredPaths(files: seq<GatherFiles.FileRow>, user: string, size: nat,
          name: GatherFiles.Path -> FsPath): set<FsPath> {
    set p | p in GatherFiles.Reached(files, user, size) :: name(p)
  }

  /** A gathered path above a file that another user's row names is a directory, and is not that file. */
  lemma GatheredAboveIsDirectory(files: seq<GatherFiles.FileRow>, user: string, size: nat,
          name: GatherFiles.Path -> FsPath, before: Disk, other: GatherFiles.FileRow, gathered: FsPath)
    requires forall p, q :: name(p) == name(q) ==> p == q
    requires Tree(before) && other in files && other.owner != user && name(other.path) in before
    requires gathered in GatheredPaths(files, user, size, name) && gathered <= name(other.path)
    ensures gathered != name(other.path) && gathered in before && before[gathered] == Directory
  {
    var p :| p in GatherFiles.Reached(files, user, size) && name(p) == gathered;
    assert GatherFiles.Exclusive(files, user, p);
    AncestorIsThere(before, gathered, name(other.path));
  }

  /**
   * Gather and drain together, for a file another user's row still names. However
   * the removals interleave and however many fail, it is there afterwards,
   * unchanged, unless it lies beneath a gathered path; that path is then a
   * directory above it, and if its removal succeeded the file is gone.
   */
  lemma OtherUsersFileSurvivesUnlessBeneath(
    stuck: FsPath -> bool, files: seq<GatherFiles.FileRow>, user: string, size: nat,
    name: GatherFiles.Path -> FsPath, before: Disk, after: Disk, attempted: seq<FsPath>, results: seq<bool>,
    other: GatherFiles.FileRow)
    requires forall p, q :: name(p) == name(q) ==> p == q
    requires Tree(before)
    requires Elems(attempted) <= GatheredPaths(files, user, size, name)
    requires Attempts(stuck, before, after, attempted, results)
    requires other in files && other.owner != user && name(other.path) in before
    ensures !BeneathOneOf(attempted, name(other.path)) ==>
              name(other.path) in after && after[name(other.path)] == before[name(other.path)]
    ensures forall i :: 0 <= i < |attempted| && attempted[i] <= name(other.path) ==>
              && attempted[i] != name(other.path)
              && attempted[i] in before && before[attempted[i]] == Directory
              && (results[i] ==> name(other.path) !in after)
  {
    forall i | 0 <= i < |attempted| && attempted[i] <= name(other.path)
      ensures attempted[i] != name(other.path) && attempted[i] in before && before[attempted[i]] == Directory
      ensures results[i] ==> name(other.path) !in after
    {
      assert attempted[i] in Elems(attempted);
      GatheredAboveIsDirectory(files, user, size, name, before, other, attempted[i]);
      assert Fits(stuck, before, after, attempted, i, results[i]);
    }
  }

  /**
   * When the drain is undisturbed (nothing refuses to be removed, and no chunk
   * finds one of its paths beneath another) and every gathered path is attempted,
   * the file is gone if and only if it lies beneath a gathered path.
   */
  lemma OtherUsersFileSurvivesIffNotBeneath(
    stuck: FsPath -> bool, files: seq<GatherFiles.FileRow>, user: string, size: nat,
    name: GatherFiles.Path -> FsPath, before: Disk, after: Disk, attempted: seq<FsPath>, results: seq<bool>, n: nat,
    other: GatherFiles.FileRow)
    requires Elems(attempted) == GatheredPaths(files, user, size, name)
    requires n > 0 && PopsDone(stuck, before, after, attempted, results, n, true)
    requires Undisturbed(stuck, before, attempted, n)
    requires other in files && other.owner != user && name(other.path) in before
    ensures name(other.path) !in after
       <==> exists p :: p in GatherFiles.Reached(files, user, size) && name(p) <= name(other.path)
  {
    var target := name(other.path);
    if BeneathOneOf(attempted, target) {
      var i :| 0 <= i < |attempted| && attempted[i] <= target;
      assert attempted[i] in Elems(attempted);
      var p :| p in GatherFiles.Reached(files, user, size) && name(p) == attempted[i];
      assert name(p) <= target;
    }
    forall p | p in GatherFiles.Reached(files, user, size) && name(p) <= target
      ensures BeneathOneOf(attempted, target)
    {
      assert name(p) in Elems(attempted);
      var i :| 0 <= i < |attempted| && attempted[i] == name(p);
    }
  }
}
