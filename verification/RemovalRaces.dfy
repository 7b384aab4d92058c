/**
 * When the removals of one chunk get in each other's way: every chunk comes to
 * an end, a path with a relative in the chunk can be failed by it, and all goes
 * well in every interleaving exactly if no existing path lies beneath another.
 */
module RemovalRaces {
  import opened Util
  import opened FileTree
  import opened Removals
  import opened RemovalOutcomes

  // ------------------------------------------------------------ coming to an end

  /** How many calls a call can still lead to, by the size its subtree had at the start. */
  ghost function CallWeight(before: Disk, c: Call): (w: nat)
    ensures w > 0
  {
    var n := |Subtree(before, c.p)|;
    if n == 0 || c.Unlink? || c.Rmdir? then 1
    else if c.ReadDir? then 4 * n - 2
    else if c.Delete? then 4 * n - 1
    else 4 * n
  }

  ghost function TodoWeight(before: Disk, todo: seq<Call>): nat {
    if todo == [] then 0 else CallWeight(before, todo[0]) + TodoWeight(before, todo[1..])
  }

  ghost function TaskWeight(before: Disk, t: Task): nat {
    if t.failed then 0 else TodoWeight(before, t.todo)
  }

  ghost function TasksWeight(before: Disk, tasks: seq<Task>): nat {
    if tasks == [] then 0 else TaskWeight(before, tasks[0]) + TasksWeight(before, tasks[1..])
  }

  lemma {:induction false} TodoWeightAppend(before: Disk, a: seq<Call>, b: seq<Call>)
    ensures TodoWeight(before, a + b) == TodoWeight(before, a) + TodoWeight(before, b)
  {
    if a == [] {
      assert a + b == b;
    } else {
      assert (a + b)[1..] == a[1..] + b;
      TodoWeightAppend(before, a[1..], b);
    }
  }

  lemma {:induction false} OneTaskLighter(before: Disk, tasks: seq<Task>, i: nat, t: Task)
    requires i < |tasks|
    ensures TasksWeight(before, tasks[i := t])
         == TasksWeight(before, tasks) - TaskWeight(before, tasks[i]) + TaskWeight(before, t)
  {
    if i > 0 {
      assert tasks[i := t][1..] == tasks[1..][i - 1 := t];
      OneTaskLighter(before, tasks[1..], i - 1, t);
    } else {
      assert tasks[i := t][1..] == tasks[1..];
    }
  }

  ghost function Below(before: Disk, ps: seq<FsPath>): set<FsPath> {
    set q | q in before && BeneathOneOf(ps, q)
  }

  /** Siblings have no subtree in common. */
  lemma SiblingsApart(before: Disk, p: FsPath, rest: seq<FsPath>)
    requires forall k :: 0 <= k < |rest| ==> rest[k] != p && |rest[k]| == |p|
    ensures Below(before, [p] + rest) == Subtree(before, p) + Below(before, rest)
    ensures Subtree(before, p) !! Below(before, rest)
  {
    assert [p][0] == p;
    forall q { BeneathAppend([p], rest, q); }
    forall q | p <= q ensures !BeneathOneOf(rest, q) {
      assert p == q[..|p|];
    }
  }

  /** The subtrees of siblings do not overlap, so their weights add up to no more than what lies below them. */
  lemma {:induction false} SiblingsAddUp(before: Disk, listing: seq<FsPath>, n: nat)
    requires NoDuplicates(listing) && forall k :: 0 <= k < |listing| ==> |listing[k]| == n && listing[k] in before
    ensures TodoWeight(before, Lookups(listing)) == 4 * |Below(before, listing)|
  {
    if listing == [] {
      assert Below(before, listing) == {};
    } else {
      var p, rest := listing[0], listing[1..];
      SiblingsAddUp(before, rest, n);
      assert Lookups(listing)[1..] == Lookups(rest);
      assert p in Subtree(before, p);
      SiblingsApart(before, p, rest);
      assert listing == [p] + rest;
    }
  }

  /** What lies below the entries of a directory lies below the directory, and the directory itself does not. */
  lemma BelowListing(before: Disk, d: FsPath, listing: seq<FsPath>)
    requires d in before && forall k :: 0 <= k < |listing| ==> |listing[k]| == |d| + 1 && d <= listing[k]
    ensures |Below(before, listing)| < |Subtree(before, d)|
  {
    var all, below := Subtree(before, d), Below(before, listing);
    forall q | q in below ensures q in all && q != d {
      var k :| 0 <= k < |listing| && listing[k] <= q;
      PrefixTransitive(d, listing[k], q);
    }
    assert below < all by {
      assert d in all && d !in below;
    }
    SmallerSubset(below, all);
  }

  lemma SmallerSubset(a: set<FsPath>, b: set<FsPath>)
    requires a < b
    ensures |a| < |b|
  {
    assert b == a + (b - a);
    assert b - a != {};
  }

  /** Every call brings its task nearer to its end. */
  lemma CallLosesWeight(stuck: FsPath -> bool, before: Disk, disk: Disk, t: Task, listing: seq<FsPath>)
    requires !t.Ended() && ListingFits(disk, t, listing) && forall q :: q in disk ==> q in before
    ensures TaskWeight(before, AfterCall(stuck, disk, t, listing).task) < TaskWeight(before, t)
  {
    var c, rest := t.todo[0], t.todo[1..];
    var e := AfterCall(stuck, disk, t, listing);
    if !e.task.failed {
      assert c.p in Subtree(before, c.p);
      if c.ReadDir? {
        assert forall k :: 0 <= k < |listing| ==> listing[k] in Elems(listing);
        SiblingsAddUp(before, listing, |c.p| + 1);
        BelowListing(before, c.p, listing);
        TodoWeightAppend(before, Lookups(listing) + [Rmdir(c.p)], rest);
        TodoWeightAppend(before, Lookups(listing), [Rmdir(c.p)]);
      } else if !c.Unlink? && !c.Rmdir? {
        assert e.task.todo[1..] == rest;
      }
    }
  }

  lemma StepLosesWeight(stuck: FsPath -> bool, before: Disk, s: State, ev: Event)
    requires Enabled(s, ev) && forall q :: q in s.disk ==> q in before
    ensures TasksWeight(before, Apply(stuck, s, ev).tasks) < TasksWeight(before, s.tasks)
  {
    CallLosesWeight(stuck, before, s.disk, s.tasks[ev.task], ev.listing);
    OneTaskLighter(before, s.tasks, ev.task, Apply(stuck, s, ev).tasks[ev.task]);
  }

  // ------------------------------------------------------------ putting runs together

  lemma Stays(stuck: FsPath -> bool, s: State)
    ensures Reaches(stuck, s, s)
  {
    assert Connects(stuck, s, s, [s], []);
  }

  lemma ThenStep(stuck: FsPath -> bool, s: State, t: State, ev: Event)
    requires Reaches(stuck, s, t) && Enabled(t, ev)
    ensures Reaches(stuck, s, Apply(stuck, t, ev))
  {
    var states, events :| Connects(stuck, s, t, states, events);
    var u := Apply(stuck, t, ev);
    assert Connects(stuck, s, u, states + [u], events + [ev]);
  }

  lemma Then(stuck: FsPath -> bool, s: State, t: State, u: State)
    requires Reaches(stuck, s, t) && Reaches(stuck, t, u)
    ensures Reaches(stuck, s, u)
  {
    var states, events :| Connects(stuck, t, u, states, events);
    ThenRun(stuck, s, states, events);
  }

  lemma {:induction false} ThenRun(stuck: FsPath -> bool, s: State, states: seq<State>, events: seq<Event>)
    requires Run(stuck, states, events) && Reaches(stuck, s, states[0])
    ensures Reaches(stuck, s, states[|events|])
  {
    if events != [] {
      var last := |events| - 1;
      ThenRun(stuck, s, states[..last + 1], events[..last]);
      ThenStep(stuck, s, states[last], events[last]);
    }
  }

  lemma ReachedIsInv(stuck: FsPath -> bool, before: Disk, paths: seq<FsPath>, s: State, t: State)
    requires Tree(before) && Inv(stuck, before, paths, s) && Reaches(stuck, s, t)
    ensures Inv(stuck, before, paths, t)
  {
    var states, events :| Connects(stuck, s, t, states, events);
    RunKeepsInv(stuck, before, paths, states, events);
  }

  lemma {:induction false} Listed(entries: set<FsPath>) returns (listing: seq<FsPath>)
    ensures Elems(listing) == entries && NoDuplicates(listing)
  {
    if entries == {} {
      listing := [];
    } else {
      var p :| p in entries;
      var rest := Listed(entries - {p});
      assert p !in Elems(rest);
      listing := [p] + rest;
      ElemsAppend([p], rest);
    }
  }

  lemma NextEvent(s: State, i: nat) returns (ev: Event)
    requires i < |s.tasks| && !s.tasks[i].Ended()
    ensures ev.task == i && Enabled(s, ev)
  {
    var listing := Listed(Children(s.disk, s.tasks[i].todo[0].p));
    ev := Event(i, listing);
  }

  /** From wherever the tasks have got to, they can all be brought to their ends. */
  lemma {:induction false} CanFinish(stuck: FsPath -> bool, before: Disk, paths: seq<FsPath>, s: State)
    returns (end: State)
    requires Tree(before) && Inv(stuck, before, paths, s)
    ensures Reaches(stuck, s, end) && Finished(end)
    decreases TasksWeight(before, s.tasks)
  {
    Stays(stuck, s);
    end := s;
    if !Finished(s) {
      var i :| 0 <= i < |s.tasks| && !s.tasks[i].Ended();
      var ev := NextEvent(s, i);
      var next := Apply(stuck, s, ev);
      StepKeepsInv(stuck, before, paths, s, ev);
      StepLosesWeight(stuck, before, s, ev);
      ThenStep(stuck, s, s, ev);
      end := CanFinish(stuck, before, paths, next);
      Then(stuck, s, next, end);
    }
  }

  /** Only task `j` has moved, and it has taken nothing outside its path. */
  ghost predicate OnlyTask(s: State, t: State, paths: seq<FsPath>, j: nat)
    requires j < |paths|
  {
    && |s.tasks| == |t.tasks| == |paths|
    && (forall k :: 0 <= k < |paths| && k != j ==> t.tasks[k] == s.tasks[k])
    && (forall q :: q in s.disk && !(paths[j] <= q) ==> q in t.disk)
  }

  /** One call of a task with all it is about still there. */
  lemma StepAlone(stuck: FsPath -> bool, before: Disk, paths: seq<FsPath>, s: State, j: nat) returns (next: State)
    requires Tree(before) && Inv(stuck, before, paths, s) && NothingStuck(stuck)
    requires j < |paths| && GetsThrough(s, j) && s.tasks[j].todo != []
    ensures Reaches(stuck, s, next) && Inv(stuck, before, paths, next) && OnlyTask(s, next, paths, j)
    ensures GetsThrough(next, j) && TaskWeight(before, next.tasks[j]) < TaskWeight(before, s.tasks[j])
  {
    var ev := NextEvent(s, j);
    next := Apply(stuck, s, ev);
    StepKeepsInv(stuck, before, paths, s, ev);
    ReadyCallSucceeds(stuck, s.disk, s.tasks[j], paths[j], ev.listing);
    CallLosesWeight(stuck, before, s.disk, s.tasks[j], ev.listing);
    CallTakesOneLeaf(stuck, s.disk, s.tasks[j], ev.listing);
    Stays(stuck, s);
    ThenStep(stuck, s, s, ev);
  }

  /** A task left to itself, with all it is about still there, gets to its end. */
  lemma {:induction false} RunAlone(stuck: FsPath -> bool, before: Disk, paths: seq<FsPath>, s: State, j: nat)
    returns (end: State)
    requires Tree(before) && Inv(stuck, before, paths, s) && NothingStuck(stuck)
    requires j < |paths| && GetsThrough(s, j)
    ensures Reaches(stuck, s, end) && OnlyTask(s, end, paths, j) && end.tasks[j].Succeeded()
    decreases TaskWeight(before, s.tasks[j])
  {
    if s.tasks[j].todo == [] {
      Stays(stuck, s);
      end := s;
    } else {
      var next := StepAlone(stuck, before, paths, s, j);
      end := RunAlone(stuck, before, paths, next, j);
      Then(stuck, s, next, end);
    }
  }

  // --------------------------------------------------------------- a race lost

  /** A failed task stays failed, and its path on disk when none of the others lies above it. */
  lemma {:induction false} FailedStays(stuck: FsPath -> bool, before: Disk, paths: seq<FsPath>,
          states: seq<State>, events: seq<Event>, i: nat)
    requires Tree(before) && Run(stuck, states, events) && Inv(stuck, before, paths, states[0])
    requires i < |paths| && states[0].tasks[i].failed
    ensures |states[|events|].tasks| == |paths| && states[|events|].tasks[i].failed
    ensures NoneAbove(paths, i) && paths[i] in states[0].disk ==> paths[i] in states[|events|].disk
  {
    if events != [] {
      var last := |events| - 1;
      var s, ev := states[last], events[last];
      FailedStays(stuck, before, paths, states[..last + 1], events[..last], i);
      RunKeepsInv(stuck, before, paths, states[..last + 1], events[..last]);
      CallTakesOneLeaf(stuck, s.disk, s.tasks[ev.task], ev.listing);
      assert paths[ev.task] <= s.tasks[ev.task].todo[0].p;
    }
  }

  /** No path of the list lies above this one. */
  ghost predicate NoneAbove(paths: seq<FsPath>, i: nat)
    requires i < |paths|
  {
    forall k :: 0 <= k < |paths| && k != i ==> !(paths[k] <= paths[i])
  }

  /** A directory's removal looks up and lists its way down, taking nothing, until its next call is about `q`. */
  lemma {:induction false} Descend(stuck: FsPath -> bool, s: State, i: nat, p: FsPath, q: FsPath) returns (t: State)
    requires Tree(s.disk) && q in s.disk && p <= q && p != q
    requires i < |s.tasks| && !s.tasks[i].Ended() && s.tasks[i].todo[0] == Delete(p)
    ensures |t.tasks| == |s.tasks| && t == State(s.disk, s.tasks[i := t.tasks[i]]) && Reaches(stuck, s, t)
    ensures !t.tasks[i].Ended() && t.tasks[i].todo[0] == Child(q)
    decreases |q| - |p|
  {
    AncestorIsThere(s.disk, p, q);
    BeneathAChild(s.disk, p, q);
    var c := q[..|p| + 1];
    var others := Listed(Children(s.disk, p) - {c});
    var listing := [c] + others;
    ElemsAppend([c], others);
    assert c !in Elems(others);
    var looked := Apply(stuck, s, Event(i, []));
    assert ListingFits(looked.disk, looked.tasks[i], listing);
    var listed := Apply(stuck, looked, Event(i, listing));
    assert listed.tasks[i].todo[0] == Child(c);
    Stays(stuck, s);
    ThenStep(stuck, s, s, Event(i, []));
    ThenStep(stuck, s, looked, Event(i, listing));
    t := listed;
    if c != q {
      AncestorIsThere(s.disk, c, q);
      var down := Apply(stuck, listed, Event(i, []));
      ThenStep(stuck, s, listed, Event(i, []));
      t := Descend(stuck, down, i, c, q);
      Then(stuck, s, down, t);
    }
  }

  /** Once a task's next call is about an entry that is gone, the task fails, whatever the others do then. */
  lemma FailsFromHere(stuck: FsPath -> bool, before: Disk, paths: seq<FsPath>, s: State, i: nat) returns (end: State)
    requires Tree(before) && Inv(stuck, before, paths, s)
    requires i < |paths| && !s.tasks[i].Ended() && s.tasks[i].todo[0].p !in s.disk
    ensures Reaches(stuck, s, end) && Finished(end) && |end.tasks| == |paths| && end.tasks[i].failed
    ensures NoneAbove(paths, i) && paths[i] in s.disk ==> paths[i] in end.disk
  {
    var ev := NextEvent(s, i);
    var next := Apply(stuck, s, ev);
    StepKeepsInv(stuck, before, paths, s, ev);
    Stays(stuck, s);
    ThenStep(stuck, s, s, ev);
    end := CanFinish(stuck, before, paths, next);
    var states, events :| Connects(stuck, next, end, states, events);
    FailedStays(stuck, before, paths, states, events, i);
    Then(stuck, s, next, end);
  }

  /** A path above this one can be removed first. */
  lemma PathAboveComesFirst(stuck: FsPath -> bool, before: Disk, paths: seq<FsPath>, i: nat, j: nat)
    returns (end: State)
    requires Tree(before) && NothingStuck(stuck) && i < |paths| && j < |paths| && i != j
    requires paths[j] in before && paths[j] <= paths[i]
    ensures Reaches(stuck, Start(before, paths), end) && Finished(end) && |end.tasks| == |paths| && end.tasks[i].failed
  {
    var s := Start(before, paths);
    StartIsInv(stuck, before, paths);
    var t := RunAlone(stuck, before, paths, s, j);
    ReachedIsInv(stuck, before, paths, s, t);
    SuccessLeavesNothing(stuck, before, t.disk, paths[j]);
    end := FailsFromHere(stuck, before, paths, t, i);
    Then(stuck, s, t, end);
  }

  /** A path beneath this one can be removed between its listing and its lookup. */
  lemma PathBeneathComesBetween(stuck: FsPath -> bool, before: Disk, paths: seq<FsPath>, i: nat, j: nat)
    returns (end: State)
    requires Tree(before) && NothingStuck(stuck) && i < |paths| && j < |paths|
    requires paths[j] in before && paths[i] <= paths[j] && paths[i] != paths[j]
    ensures Reaches(stuck, Start(before, paths), end) && Finished(end) && |end.tasks| == |paths| && end.tasks[i].failed
    ensures NoneAbove(paths, i) ==> paths[i] in end.disk
  {
    var s := Start(before, paths);
    StartIsInv(stuck, before, paths);
    var t := Descend(stuck, s, i, paths[i], paths[j]);
    ReachedIsInv(stuck, before, paths, s, t);
    assert GetsThrough(t, j);
    var u := RunAlone(stuck, before, paths, t, j);
    ReachedIsInv(stuck, before, paths, t, u);
    SuccessLeavesNothing(stuck, before, u.disk, paths[j]);
    AncestorIsThere(before, paths[i], paths[j]);
    end := FailsFromHere(stuck, before, paths, u, i);
    Then(stuck, t, u, end);
    Then(stuck, s, t, end);
  }

  // ---------------------------------------------------------- exact conditions

  /** Every interleaving that comes to its end removes this path. */
  ghost predicate AlwaysSucceeds(stuck: FsPath -> bool, before: Disk, paths: seq<FsPath>, i: nat)
    requires i < |paths|
  {
    forall end :: Reaches(stuck, Start(before, paths), end) && Finished(end) ==>
      i < |end.tasks| && end.tasks[i].Succeeded()
  }

  /** Every interleaving that comes to its end leaves the disk without exactly the subtrees of the paths. */
  ghost predicate AlwaysExact(stuck: FsPath -> bool, before: Disk, paths: seq<FsPath>) {
    forall end :: Reaches(stuck, Start(before, paths), end) && Finished(end) ==> end.disk == WithoutAll(before, paths)
  }

  /**
   * When nothing refuses to go, the removal of an existing path is sure to succeed
   * if and only if no other existing path of the chunk lies above or beneath it.
   */
  lemma SucceedsIffUnmet(stuck: FsPath -> bool, before: Disk, paths: seq<FsPath>, i: nat)
    requires Tree(before) && NothingStuck(stuck) && i < |paths| && paths[i] in before
    ensures AlwaysSucceeds(stuck, before, paths, i) <==> !Met(before, paths, i)
  {
    if Met(before, paths, i) {
      var j :| 0 <= j < |paths| && j != i && paths[j] in before && Related(paths[i], paths[j]);
      if paths[j] <= paths[i] {
        var end := PathAboveComesFirst(stuck, before, paths, i, j);
      } else {
        var end := PathBeneathComesBetween(stuck, before, paths, i, j);
      }
    } else {
      forall end | Reaches(stuck, Start(before, paths), end) && Finished(end)
        ensures i < |end.tasks| && end.tasks[i].Succeeded()
      {
        FinishedIsAccounted(stuck, before, paths, end);
        assert Fits(stuck, before, end.disk, paths, i, Results(end)[i]);
      }
    }
  }

  lemma {:induction false} Topmost(paths: seq<FsPath>, i: nat) returns (top: nat)
    requires i < |paths| && NoDuplicates(paths)
    ensures top < |paths| && paths[top] <= paths[i] && NoneAbove(paths, top)
    decreases |paths[i]|
  {
    if NoneAbove(paths, i) {
      top := i;
    } else {
      var k :| 0 <= k < |paths| && k != i && paths[k] <= paths[i];
      assert paths[k] != paths[i];
      top := Topmost(paths, k);
      PrefixTransitive(paths[top], paths[k], paths[i]);
    }
  }

  /**
   * When nothing refuses to go, every interleaving of a chunk of distinct paths
   * removes exactly their subtrees if and only if no existing path of the chunk
   * lies strictly beneath another.
   */
  lemma ChunkExactIffUnnested(stuck: FsPath -> bool, before: Disk, paths: seq<FsPath>)
    requires Tree(before) && NothingStuck(stuck) && NoDuplicates(paths)
    ensures AlwaysExact(stuck, before, paths) <==> Unnested(before, paths)
  {
    if Unnested(before, paths) {
      forall end | Reaches(stuck, Start(before, paths), end) && Finished(end)
        ensures end.disk == WithoutAll(before, paths)
      {
        FinishedIsAccounted(stuck, before, paths, end);
        UnnestedRemovesExactly(stuck, before, end.disk, paths, Results(end));
      }
    } else {
      var i, j :| 0 <= i < |paths| && 0 <= j < |paths| && paths[j] in before
        && paths[i] <= paths[j] && paths[i] != paths[j];
      var top := Topmost(paths, i);
      PrefixTransitive(paths[top], paths[i], paths[j]);
      var end := PathBeneathComesBetween(stuck, before, paths, top, j);
      assert BeneathOneOf(paths, paths[top]);
    }
  }

  // ------------------------------------------------------------------- a run

  /** A directory with two files. */
  function RaceDisk(): Disk {
    map[[] := Directory, ["d"] := Directory, ["d", "a"] := RegularFile, ["d", "b"] := RegularFile]
  }

  lemma RaceDiskIsTree()
    ensures Tree(RaceDisk())
  {
    assert ["d"][..0] == ["d", "a"][..0] == ["d", "b"][..0] == [] && ["d", "a"][..1] == ["d", "b"][..1] == ["d"];
  }

  /** The second task takes its file, then the first looks it up. */
  lemma FileTakenFirst(stuck: FsPath -> bool, s: State, p: FsPath) returns (end: State)
    requires NothingStuck(stuck) && |s.tasks| == 2 && p in s.disk && s.disk[p] == RegularFile
    requires !s.tasks[0].Ended() && s.tasks[0].todo[0] == Child(p) && s.tasks[1] == Task([Delete(p)], false)
    ensures Reaches(stuck, s, end) && Finished(end) && Results(end) == [false, true] && end.disk == s.disk - {p}
  {
    var looked := Apply(stuck, s, Event(1, []));
    var taken := Apply(stuck, looked, Event(1, []));
    end := Apply(stuck, taken, Event(0, []));
    Stays(stuck, s);
    ThenStep(stuck, s, s, Event(1, []));
    ThenStep(stuck, s, looked, Event(1, []));
    ThenStep(stuck, s, taken, Event(0, []));
  }

  /**
   * One of the two files is to be removed along with the directory: it is taken
   * between the directory's listing and its lookup, so the directory is rejected
   * and stays, and so does the other file in it.
   */
  lemma RaceCounterexample(stuck: FsPath -> bool) returns (end: State)
    requires NothingStuck(stuck)
    ensures Reaches(stuck, Start(RaceDisk(), [["d"], ["d", "a"]]), end) && Finished(end)
    ensures Results(end) == [false, true]
    ensures ["d"] in end.disk && ["d", "b"] in end.disk
  {
    RaceDiskIsTree();
    var start := Start(RaceDisk(), [["d"], ["d", "a"]]);
    var listed := Descend(stuck, start, 0, ["d"], ["d", "a"]);
    end := FileTakenFirst(stuck, listed, ["d", "a"]);
    Then(stuck, start, listed, end);
  }
}
