/** What the removals of a chunk come to, in whatever order their calls interleave. */
module RemovalOutcomes {
  import opened Util
  import opened FileTree
  import opened Removals

  function Results(s: State): seq<bool> {
    seq(|s.tasks|, i requires 0 <= i < |s.tasks| => s.tasks[i].Succeeded())
  }

  /** Another path of the list exists and lies above or beneath this one. */
  ghost predicate Met(before: Disk, paths: seq<FsPath>, i: nat)
    requires i < |paths|
  {
    exists j :: 0 <= j < |paths| && j != i && paths[j] in before && Related(paths[i], paths[j])
  }

  /** No existing path of the list lies strictly beneath another. */
  ghost predicate Unnested(before: Disk, paths: seq<FsPath>) {
    forall i, j :: 0 <= i < |paths| && 0 <= j < |paths| && paths[j] in before && paths[i] <= paths[j] ==>
      paths[i] == paths[j]
  }

  /**
   * What the outcome of path number `i` says, whatever else failed: a success that
   * the path was removable and nothing of it is left, a failure that it was not
   * removable or another existing path of the list lies above or beneath it.
   */
  ghost predicate Fits(stuck: FsPath -> bool, before: Disk, after: Disk, paths: seq<FsPath>, i: nat, ok: bool)
    requires i < |paths|
  {
    && (ok ==> Removable(stuck, before, paths[i]) && NothingAt(after, paths[i]))
    && (!ok ==> !Removable(stuck, before, paths[i]) || Met(before, paths, i))
  }

  ghost predicate Accounted(stuck: FsPath -> bool, before: Disk, after: Disk, paths: seq<FsPath>, results: seq<bool>)
    requires |results| == |paths|
  {
    forall i :: 0 <= i < |paths| ==> Fits(stuck, before, after, paths, i, results[i])
  }

  /** Where a list of attempts has taken the disk. */
  ghost predicate Attempts(stuck: FsPath -> bool, before: Disk, after: Disk, paths: seq<FsPath>, results: seq<bool>) {
    && |results| == |paths|
    && OnlyBeneath(before, after, paths) && KeepsStuck(stuck, before, after)
    && Accounted(stuck, before, after, paths, results)
  }

  // --------------------------------------------------------- one chunk

  lemma PrefixesAreRelated(p: FsPath, q: FsPath, x: FsPath)
    requires p <= x && q <= x
    ensures Related(p, q)
  {
    assert p == x[..|p|] && q == x[..|q|];
  }

  /** An entry that another removal takes is none that a ready task is about, unless the two paths are related. */
  lemma OtherCallSpares(before: Disk, disk: Disk, paths: seq<FsPath>, i: nat, j: nat, x: FsPath, todo: seq<Call>)
    requires Tree(before) && i < |paths| && j < |paths| && i != j && !Met(before, paths, i)
    requires x in before && paths[j] <= x
    requires Ready(disk, todo) && forall k :: 0 <= k < |todo| ==> paths[i] <= todo[k].p
    ensures Ready(disk - {x}, todo)
  {
    AncestorIsThere(before, paths[j], x);
    forall k | 0 <= k < |todo| ensures todo[k].p != x {
      if todo[k].p == x {
        PrefixesAreRelated(paths[i], paths[j], x);
      }
    }
  }

  /** A task none of whose relatives is there gets through, as far as it has come. */
  ghost predicate GetsThrough(s: State, i: nat)
    requires i < |s.tasks|
  {
    !s.tasks[i].failed && Ready(s.disk, s.tasks[i].todo)
  }

  lemma StepGetsThrough(stuck: FsPath -> bool, before: Disk, paths: seq<FsPath>, s: State, ev: Event, i: nat)
    requires Tree(before) && Inv(stuck, before, paths, s) && Enabled(s, ev)
    requires i < |paths| && Removable(stuck, before, paths[i]) && !Met(before, paths, i) && GetsThrough(s, i)
    ensures GetsThrough(Apply(stuck, s, ev), i)
  {
    if ev.task == i {
      ReadyCallSucceeds(stuck, s.disk, s.tasks[i], paths[i], ev.listing);
    } else {
      OtherStepSpares(stuck, before, s.disk, paths, i, ev, s.tasks[ev.task], s.tasks[i].todo);
    }
  }

  lemma OtherStepSpares(stuck: FsPath -> bool, before: Disk, disk: Disk, paths: seq<FsPath>, i: nat, ev: Event, t: Task,
          todo: seq<Call>)
    requires Tree(before) && Tree(disk) && i < |paths| && ev.task < |paths| && ev.task != i && !Met(before, paths, i)
    requires !t.Ended() && Thorough(disk, t.todo, paths[ev.task]) && forall q :: q in disk ==> q in before
    requires Ready(disk, todo) && forall k :: 0 <= k < |todo| ==> paths[i] <= todo[k].p
    ensures Ready(AfterCall(stuck, disk, t, ev.listing).disk, todo)
  {
    CallTakesOneLeaf(stuck, disk, t, ev.listing);
    if AfterCall(stuck, disk, t, ev.listing).disk != disk {
      OtherCallSpares(before, disk, paths, i, ev.task, t.todo[0].p, todo);
    }
  }

  lemma {:induction false} RunGetsThrough(stuck: FsPath -> bool, before: Disk, paths: seq<FsPath>,
          states: seq<State>, events: seq<Event>, i: nat)
    requires Tree(before) && Run(stuck, states, events) && states[0] == Start(before, paths)
    requires i < |paths| && Removable(stuck, before, paths[i]) && !Met(before, paths, i)
    ensures |states[|events|].tasks| == |paths| && GetsThrough(states[|events|], i)
  {
    if events != [] {
      var last := |events| - 1;
      RunGetsThrough(stuck, before, paths, states[..last + 1], events[..last], i);
      StartIsInv(stuck, before, paths);
      RunKeepsInv(stuck, before, paths, states[..last + 1], events[..last]);
      StepGetsThrough(stuck, before, paths, states[last], events[last], i);
    }
  }

  /** Whatever the interleaving: every outcome of a finished chunk is accounted for. */
  lemma FinishedIsAccounted(stuck: FsPath -> bool, before: Disk, paths: seq<FsPath>, end: State)
    requires Tree(before) && Reaches(stuck, Start(before, paths), end) && Finished(end)
    ensures Attempts(stuck, before, end.disk, paths, Results(end))
  {
    var states, events :| Connects(stuck, Start(before, paths), end, states, events);
    StartIsInv(stuck, before, paths);
    RunKeepsInv(stuck, before, paths, states, events);
    forall i | 0 <= i < |paths|
      ensures Fits(stuck, before, end.disk, paths, i, Results(end)[i])
    {
      if end.tasks[i].Succeeded() {
        SuccessLeavesNothing(stuck, before, end.disk, paths[i]);
      } else if Removable(stuck, before, paths[i]) && !Met(before, paths, i) {
        RunGetsThrough(stuck, before, paths, states, events, i);
      }
    }
  }

  lemma SuccessLeavesNothing(stuck: FsPath -> bool, before: Disk, after: Disk, p: FsPath)
    requires Thorough(after, [], p) && p in before && KeepsStuck(stuck, before, after)
    ensures NothingAt(after, p) && Removable(stuck, before, p)
  {
    forall q ensures !CoveredBy([], q) {}
  }

  // ------------------------------------------------- one chunk after another

  /** Removable now means removable before; a path gone since lay beneath one tried before. */
  lemma OutcomeOfThisOne(stuck: FsPath -> bool, before: Disk, now: Disk, tried: seq<FsPath>, p: FsPath)
    requires OnlyBeneath(before, now, tried) && KeepsStuck(stuck, before, now)
    ensures Removable(stuck, now, p) ==> Removable(stuck, before, p)
    ensures Removable(stuck, before, p) && !Removable(stuck, now, p) ==> BeneathOneOf(tried, p)
  {
    if Removable(stuck, now, p) {
      forall q | q in Subtree(before, p) ensures !stuck(q) {
        assert stuck(q) ==> q in Subtree(now, p);
      }
    }
    if Removable(stuck, before, p) && p in now {
      forall q | q in Subtree(now, p) ensures !stuck(q) {
        assert q in Subtree(before, p);
      }
    }
  }

  lemma NoAttempts(stuck: FsPath -> bool, d: Disk)
    requires Tree(d)
    ensures Attempts(stuck, d, d, [], [])
  {}

  lemma AttemptsCompose(stuck: FsPath -> bool, before: Disk, now: Disk, after: Disk,
                        a: seq<FsPath>, ra: seq<bool>, b: seq<FsPath>, rb: seq<bool>)
    requires Tree(before) && Attempts(stuck, before, now, a, ra) && Attempts(stuck, now, after, b, rb)
    ensures Attempts(stuck, before, after, a + b, ra + rb)
  {
    BatchesCompose(before, now, after, a, b);
    forall k | 0 <= k < |a + b| ensures Fits(stuck, before, after, a + b, k, (ra + rb)[k]) {
      if k < |a| {
        assert Fits(stuck, before, now, a, k, ra[k]);
        EarlierOutcome(stuck, before, now, after, a, b, k, ra[k]);
      } else {
        assert Fits(stuck, now, after, b, k - |a|, rb[k - |a|]);
        LaterOutcome(stuck, before, now, after, a, b, k - |a|, rb[k - |a|]);
      }
    }
  }

  lemma BatchesCompose(before: Disk, now: Disk, after: Disk, a: seq<FsPath>, b: seq<FsPath>)
    requires OnlyBeneath(before, now, a) && OnlyBeneath(now, after, b)
    ensures OnlyBeneath(before, after, a + b)
  {
    forall q { BeneathAppend(a, b, q); }
  }

  /** Whoever met a relative in a part of the list has met it in the list. */
  lemma MetInLonger(before: Disk, now: Disk, part: seq<FsPath>, paths: seq<FsPath>, i: nat, offset: nat)
    requires i < |part| && offset + |part| <= |paths| && Met(now, part, i)
    requires forall k :: 0 <= k < |part| ==> part[k] == paths[offset + k]
    requires forall q :: q in now ==> q in before
    ensures Met(before, paths, offset + i)
  {
    var j :| 0 <= j < |part| && j != i && part[j] in now && Related(part[i], part[j]);
    assert paths[offset + j] in before && Related(paths[offset + i], paths[offset + j]);
  }

  lemma EarlierOutcome(stuck: FsPath -> bool, before: Disk, now: Disk, after: Disk, a: seq<FsPath>, b: seq<FsPath>,
          k: nat, ok: bool)
    requires k < |a| && Fits(stuck, before, now, a, k, ok) && forall q :: q in after ==> q in now
    ensures Fits(stuck, before, after, a + b, k, ok)
  {
    if Met(before, a, k) {
      MetInLonger(before, before, a, a + b, k, 0);
    }
  }

  lemma LaterOutcome(stuck: FsPath -> bool, before: Disk, now: Disk, after: Disk, a: seq<FsPath>, b: seq<FsPath>,
          j: nat, ok: bool)
    requires Tree(before) && OnlyBeneath(before, now, a) && KeepsStuck(stuck, before, now)
    requires j < |b| && Fits(stuck, now, after, b, j, ok)
    ensures Fits(stuck, before, after, a + b, |a| + j, ok)
  {
    OutcomeOfThisOne(stuck, before, now, a, b[j]);
    if !ok && Met(now, b, j) {
      MetInLonger(before, now, b, a + b, j, |a|);
    } else if !ok && Removable(stuck, before, b[j]) {
      TakenMeansMet(before, a, b, j);
    }
  }

  /** A path that an earlier one lies above has met it. */
  lemma TakenMeansMet(before: Disk, a: seq<FsPath>, b: seq<FsPath>, j: nat)
    requires Tree(before) && j < |b| && b[j] in before && BeneathOneOf(a, b[j])
    ensures Met(before, a + b, |a| + j)
  {
    var i :| 0 <= i < |a| && a[i] <= b[j];
    AncestorIsThere(before, a[i], b[j]);
    assert (a + b)[i] in before && Related((a + b)[|a| + j], (a + b)[i]);
  }

  // ------------------------------------------------------ without nested paths

  /** With no existing path beneath another an attempt succeeds exactly if its path is removable at the start. */
  lemma UnnestedAttemptsSucceedIffRemovable(stuck: FsPath -> bool, before: Disk, after: Disk, paths: seq<FsPath>,
          results: seq<bool>)
    requires Attempts(stuck, before, after, paths, results) && NoDuplicates(paths) && Unnested(before, paths)
    ensures forall i :: 0 <= i < |paths| ==> (results[i] <==> Removable(stuck, before, paths[i]))
  {
    assert forall i :: 0 <= i < |paths| && paths[i] in before ==> !Met(before, paths, i);
  }

  /** And when nothing refuses to go, exactly the subtrees of the paths are gone. */
  lemma UnnestedRemovesExactly(stuck: FsPath -> bool, before: Disk, after: Disk, paths: seq<FsPath>, results: seq<bool>)
    requires Tree(before) && Attempts(stuck, before, after, paths, results)
    requires NoDuplicates(paths) && Unnested(before, paths) && NothingStuck(stuck)
    ensures after == WithoutAll(before, paths)
    ensures forall i :: 0 <= i < |paths| ==> (results[i] <==> paths[i] in before)
  {
    UnnestedAttemptsSucceedIffRemovable(stuck, before, after, paths, results);
    forall q | q in before && BeneathOneOf(paths, q) ensures q !in after {
      var i :| 0 <= i < |paths| && paths[i] <= q;
      AncestorIsThere(before, paths[i], q);
    }
  }

  /** A chunk of one path: it succeeds exactly if the path is removable, and then takes exactly its subtree. */
  lemma SinglePath(stuck: FsPath -> bool, before: Disk, after: Disk, p: FsPath, ok: bool)
    requires Attempts(stuck, before, after, [p], [ok])
    ensures ok <==> Removable(stuck, before, p)
    ensures ok ==> after == Without(before, p)
  {
    UnnestedAttemptsSucceedIffRemovable(stuck, before, after, [p], [ok]);
    assert [p][0] == p && [ok][0] == ok;
    forall q | q in before && !(p <= q) ensures q in after {
      assert !BeneathOneOf([p], q);
    }
  }
}
