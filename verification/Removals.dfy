/**
 * Recursive removals that run at the same time. Every removal is a chain of
 * file system calls; the calls of the removals of one chunk interleave in any
 * order, and a call on an entry that another removal has taken fails.
 */
module Removals {
  import opened Util
  import opened FileTree

  /** A call still to be made; `Child` is the lstat of a listed entry, `Delete` that of a whole removal. */
  datatype Call =
    | Delete(p: FsPath)
    | ReadDir(p: FsPath)
    | Child(p: FsPath)
    | Unlink(p: FsPath)
    | Rmdir(p: FsPath)

  /** One removal: its calls still to be made, and whether one has failed, which ends it. */
  datatype Task = Task(todo: seq<Call>, failed: bool) {
    predicate Ended() {
      failed || todo == []
    }
    predicate Succeeded() {
      !failed && todo == []
    }
  }

  datatype State = State(disk: Disk, tasks: seq<Task>)

  /** Task number `task` makes its next call; `listing` is what a readdir returns, in its order. */
  datatype Event = Event(task: nat, listing: seq<FsPath>)

  datatype Effect = Effect(disk: Disk, task: Task)

  function Lookups(listing: seq<FsPath>): (r: seq<Call>)
    ensures |r| == |listing| && forall k :: 0 <= k < |r| ==> r[k] == Child(listing[k])
  {
    seq(|listing|, k requires 0 <= k < |listing| => Child(listing[k]))
  }

  /** The effect of a task's next call. */
  function AfterCall(stuck: FsPath -> bool, disk: Disk, t: Task, listing: seq<FsPath>): Effect
    requires !t.Ended()
  {
    var rest := t.todo[1..];
    var failure := Effect(disk, t.(failed := true));
    match t.todo[0]
    case Delete(p) =>
      if p !in disk then failure
      else Effect(disk, Task([if disk[p] == Directory then ReadDir(p) else Unlink(p)] + rest, false))
    case ReadDir(p) =>
      if p !in disk || disk[p] != Directory then failure
      else Effect(disk, Task(Lookups(listing) + [Rmdir(p)] + rest, false))
    case Child(p) =>
      if p !in disk then failure
      else Effect(disk, Task([if disk[p] == Directory then Delete(p) else Unlink(p)] + rest, false))
    case Unlink(p) =>
      if p !in disk || disk[p] == Directory || stuck(p) then failure else Effect(disk - {p}, Task(rest, false))
    case Rmdir(p) =>
      if p !in disk || disk[p] != Directory || stuck(p) || Children(disk, p) != {} then failure
      else Effect(disk - {p}, Task(rest, false))
  }

  /** A readdir lists the entries of its directory, each once. */
  ghost predicate ListingFits(disk: Disk, t: Task, listing: seq<FsPath>)
    requires !t.Ended()
  {
    var c := t.todo[0];
    c.ReadDir? ==> Elems(listing) == Children(disk, c.p) && NoDuplicates(listing)
  }

  ghost predicate Enabled(s: State, ev: Event) {
    ev.task < |s.tasks| && !s.tasks[ev.task].Ended() && ListingFits(s.disk, s.tasks[ev.task], ev.listing)
  }

  function Apply(stuck: FsPath -> bool, s: State, ev: Event): State
    requires Enabled(s, ev)
  {
    var e := AfterCall(stuck, s.disk, s.tasks[ev.task], ev.listing);
    State(e.disk, s.tasks[ev.task := e.task])
  }

  function Start(disk: Disk, paths: seq<FsPath>): State {
    State(disk, seq(|paths|, i requires 0 <= i < |paths| => Task([Delete(paths[i])], false)))
  }

  ghost predicate Run(stuck: FsPath -> bool, states: seq<State>, events: seq<Event>) {
    && |states| == |events| + 1
    && forall i :: 0 <= i < |events| ==>
         Enabled(states[i], events[i]) && states[i + 1] == Apply(stuck, states[i], events[i])
  }

  ghost predicate Connects(stuck: FsPath -> bool, s: State, t: State, states: seq<State>, events: seq<Event>) {
    Run(stuck, states, events) && states[0] == s && states[|events|] == t
  }

  /** Some interleaving leads from one state to the other. */
  ghost predicate Reaches(stuck: FsPath -> bool, s: State, t: State) {
    exists states, events :: Connects(stuck, s, t, states, events)
  }

  ghost predicate Finished(s: State) {
    forall i :: 0 <= i < |s.tasks| ==> s.tasks[i].Ended()
  }

  // ------------------------------------------------------ what a task will take

  predicate Covers(c: Call, q: FsPath) {
    if c.Unlink? || c.Rmdir? then q == c.p else c.p <= q
  }

  ghost predicate CoveredBy(todo: seq<Call>, q: FsPath) {
    exists k :: 0 <= k < |todo| && Covers(todo[k], q)
  }

  /** A directory is removed after all that is left in it. */
  ghost predicate Ordered(disk: Disk, todo: seq<Call>) {
    forall k, q :: 0 <= k < |todo| && todo[k].Rmdir? && StrictlyIn(disk, todo[k].p, q) ==> CoveredBy(todo[..k], q)
  }

  /** An entry strictly beneath a path. */
  predicate StrictlyIn(disk: Disk, d: FsPath, q: FsPath) {
    q in disk && d <= q && q != d
  }

  /**
   * The calls to be made reach everything that is left beneath `p`, and each
   * directory is removed after its contents.
   */
  ghost predicate Thorough(disk: Disk, todo: seq<Call>, p: FsPath) {
    && (forall k :: 0 <= k < |todo| ==> p <= todo[k].p)
    && (forall q :: q in disk && p <= q ==> CoveredBy(todo, q))
    && Ordered(disk, todo)
  }

  lemma CoveredAppend(a: seq<Call>, b: seq<Call>, q: FsPath)
    ensures CoveredBy(a + b, q) <==> CoveredBy(a, q) || CoveredBy(b, q)
  {
    if CoveredBy(a, q) {
      var k :| 0 <= k < |a| && Covers(a[k], q);
      assert Covers((a + b)[k], q);
    }
    if CoveredBy(b, q) {
      var k :| 0 <= k < |b| && Covers(b[k], q);
      assert Covers((a + b)[|a| + k], q);
    }
  }

  /** Putting others that cover as much in the place of the first call. */
  lemma ReplaceFirst(disk: Disk, todo: seq<Call>, p: FsPath, first: seq<Call>)
    requires Thorough(disk, todo, p) && todo != []
    requires forall k :: 0 <= k < |first| ==> p <= first[k].p
    requires forall q :: q in disk && Covers(todo[0], q) ==> CoveredBy(first, q)
    requires Ordered(disk, first)
    ensures Thorough(disk, first + todo[1..], p)
  {
    assert todo == [todo[0]] + todo[1..];
    forall q | q in disk && p <= q ensures CoveredBy(first + todo[1..], q) {
      CoverInstead(todo[0], todo[1..], first, q);
    }
    ReplaceKeepsOrder(disk, todo, first);
  }

  lemma ReplaceKeepsOrder(disk: Disk, todo: seq<Call>, first: seq<Call>)
    requires todo != [] && Ordered(disk, todo) && Ordered(disk, first)
    requires forall q :: q in disk && Covers(todo[0], q) ==> CoveredBy(first, q)
    ensures Ordered(disk, first + todo[1..])
  {
    var new' := first + todo[1..];
    forall k, q | 0 <= k < |new'| && new'[k].Rmdir? && StrictlyIn(disk, new'[k].p, q) ensures CoveredBy(new'[..k], q) {
      if k < |first| {
        assert new'[..k] == first[..k];
      } else {
        var j := k - |first|;
        assert new'[..k] == first + todo[1..][..j] && new'[k] == todo[j + 1];
        assert todo[..j + 1] == [todo[0]] + todo[1..][..j];
        CoverInstead(todo[0], todo[1..][..j], first, q);
      }
    }
  }

  /** What a call and some others cover, those that cover as much as it and the others do. */
  lemma CoverInstead(c: Call, rest: seq<Call>, first: seq<Call>, q: FsPath)
    requires CoveredBy([c] + rest, q) && (Covers(c, q) ==> CoveredBy(first, q))
    ensures CoveredBy(first + rest, q)
  {
    CoveredAppend([c], rest, q);
    CoveredAppend(first, rest, q);
    HeadCovers(c, q);
  }

  lemma HeadCovers(c: Call, q: FsPath)
    ensures CoveredBy([c], q) <==> Covers(c, q)
  {
    if Covers(c, q) {
      assert Covers([c][0], q);
    }
  }

  /** With less on disk the same calls are as thorough. */
  lemma LessToTake(disk: Disk, less: Disk, todo: seq<Call>, p: FsPath)
    requires Thorough(disk, todo, p) && forall q :: q in less ==> q in disk
    ensures Thorough(less, todo, p)
  {}

  /** A listed directory: its entries, then itself. */
  lemma ListingIsThorough(disk: Disk, d: FsPath, listing: seq<FsPath>)
    requires Tree(disk) && d in disk && Elems(listing) == Children(disk, d)
    ensures Thorough(disk, Lookups(listing) + [Rmdir(d)], d)
  {
    var first := Lookups(listing) + [Rmdir(d)];
    forall k | 0 <= k < |first| ensures d <= first[k].p {
      if k < |listing| {
        assert listing[k] in Elems(listing);
      }
    }
    assert first[..|listing|] == Lookups(listing);
    forall q | q in disk && d <= q && q != d ensures CoveredBy(Lookups(listing), q) {
      BeneathAChild(disk, d, q);
      assert q[..|d| + 1] in Elems(listing);
      var k :| 0 <= k < |listing| && listing[k] == q[..|d| + 1];
      assert Covers(Lookups(listing)[k], q);
    }
    forall q | q in disk && d <= q ensures CoveredBy(first, q) {
      CoveredAppend(Lookups(listing), [Rmdir(d)], q);
      HeadCovers(Rmdir(d), q);
    }
  }

  /** A file has nothing beneath it. */
  lemma FileIsLeaf(disk: Disk, p: FsPath, q: FsPath)
    requires Tree(disk) && p in disk && disk[p] != Directory && q in disk && p <= q
    ensures q == p
  {
    AncestorIsThere(disk, p, q);
  }

  /** A directory without children has nothing beneath it. */
  lemma EmptyIsLeaf(disk: Disk, p: FsPath, q: FsPath)
    requires Tree(disk) && p in disk && Children(disk, p) == {} && q in disk && p <= q
    ensures q == p
  {
    if q != p {
      BeneathAChild(disk, p, q);
    }
  }

  /** What one call does to the disk: nothing, or it takes one entry with nothing beneath it that is not stuck. */
  lemma CallTakesOneLeaf(stuck: FsPath -> bool, disk: Disk, t: Task, listing: seq<FsPath>)
    requires Tree(disk) && !t.Ended()
    ensures var e := AfterCall(stuck, disk, t, listing); var p := t.todo[0].p;
      && Tree(e.disk)
      && (e.disk == disk || (e.disk == disk - {p} && p in disk && !stuck(p)))
  {
    var p := t.todo[0].p;
    var e := AfterCall(stuck, disk, t, listing);
    if e.disk != disk {
      forall q | q in disk && p <= q ensures q == p {
        if disk[p] != Directory {
          FileIsLeaf(disk, p, q);
        } else {
          EmptyIsLeaf(disk, p, q);
        }
      }
    }
  }

  /** A task that has not failed stays thorough through its own calls. */
  lemma CallKeepsThorough(stuck: FsPath -> bool, disk: Disk, t: Task, p: FsPath, listing: seq<FsPath>)
    requires Tree(disk) && !t.Ended() && Thorough(disk, t.todo, p) && ListingFits(disk, t, listing)
    ensures var e := AfterCall(stuck, disk, t, listing); !e.task.failed ==> Thorough(e.disk, e.task.todo, p)
  {
    var e := AfterCall(stuck, disk, t, listing);
    var c := t.todo[0];
    if !e.task.failed {
      CallTakesOneLeaf(stuck, disk, t, listing);
      match c
      case Delete(q) => LookedUp(disk, t.todo, p, if disk[q] == Directory then ReadDir(q) else Unlink(q));
      case Child(q) => LookedUp(disk, t.todo, p, if disk[q] == Directory then Delete(q) else Unlink(q));
      case ReadDir(q) =>
        ListingIsThorough(disk, q, listing);
        var first := Lookups(listing) + [Rmdir(q)];
        forall k | 0 <= k < |first| ensures p <= first[k].p {
          PrefixTransitive(p, q, first[k].p);
        }
        ReplaceFirst(disk, t.todo, p, first);
      case Unlink(q) => TakenOff(disk, t.todo, p);
      case Rmdir(q) => TakenOff(disk, t.todo, p);
    }
  }

  lemma LookedUp(disk: Disk, todo: seq<Call>, p: FsPath, next: Call)
    requires Tree(disk) && Thorough(disk, todo, p) && todo != [] && !todo[0].Unlink? && !todo[0].Rmdir?
    requires next.p == todo[0].p && next.p in disk && !next.Rmdir? && (next.Unlink? ==> disk[next.p] != Directory)
    ensures Thorough(disk, [next] + todo[1..], p)
  {
    forall q | q in disk && Covers(todo[0], q) ensures CoveredBy([next], q) {
      if next.Unlink? {
        FileIsLeaf(disk, next.p, q);
      }
      HeadCovers(next, q);
    }
    ReplaceFirst(disk, todo, p, [next]);
  }

  lemma TakenOff(disk: Disk, todo: seq<Call>, p: FsPath)
    requires Thorough(disk, todo, p) && todo != [] && (todo[0].Unlink? || todo[0].Rmdir?)
    ensures Thorough(disk - {todo[0].p}, todo[1..], p)
  {
    var less := disk - {todo[0].p};
    LessToTake(disk, less, todo, p);
    ReplaceFirst(less, todo, p, []);
    assert [] + todo[1..] == todo[1..];
  }

  // ------------------------------------------------------- every interleaving

  /** What the calls of a chunk have left of the disk and of the tasks. */
  ghost predicate Inv(stuck: FsPath -> bool, before: Disk, paths: seq<FsPath>, s: State) {
    && |s.tasks| == |paths|
    && OnlyBeneath(before, s.disk, paths) && KeepsStuck(stuck, before, s.disk)
    && forall i :: 0 <= i < |paths| && !s.tasks[i].failed ==>
         && Thorough(s.disk, s.tasks[i].todo, paths[i])
         && (paths[i] !in before ==> s.tasks[i].todo == [Delete(paths[i])])
  }

  lemma StartIsInv(stuck: FsPath -> bool, before: Disk, paths: seq<FsPath>)
    requires Tree(before)
    ensures Inv(stuck, before, paths, Start(before, paths))
  {
    forall i, q | 0 <= i < |paths| && q in before && paths[i] <= q
      ensures CoveredBy([Delete(paths[i])], q)
    {
      HeadCovers(Delete(paths[i]), q);
    }
  }

  lemma StepKeepsInv(stuck: FsPath -> bool, before: Disk, paths: seq<FsPath>, s: State, ev: Event)
    requires Tree(before) && Inv(stuck, before, paths, s) && Enabled(s, ev)
    ensures Inv(stuck, before, paths, Apply(stuck, s, ev))
  {
    var t := s.tasks[ev.task];
    var s' := Apply(stuck, s, ev);
    CallTakesOneLeaf(stuck, s.disk, t, ev.listing);
    CallKeepsThorough(stuck, s.disk, t, paths[ev.task], ev.listing);
    forall q | q in before && !BeneathOneOf(paths, q) ensures q in s'.disk {
      assert paths[ev.task] <= t.todo[0].p;
    }
    forall i | 0 <= i < |paths| && !s'.tasks[i].failed
      ensures Thorough(s'.disk, s'.tasks[i].todo, paths[i])
      ensures paths[i] !in before ==> s'.tasks[i].todo == [Delete(paths[i])]
    {
      if i != ev.task {
        LessToTake(s.disk, s'.disk, s.tasks[i].todo, paths[i]);
      }
    }
  }

  lemma {:induction false} RunKeepsInv(stuck: FsPath -> bool, before: Disk, paths: seq<FsPath>,
          states: seq<State>, events: seq<Event>)
    requires Tree(before) && Run(stuck, states, events) && Inv(stuck, before, paths, states[0])
    ensures Inv(stuck, before, paths, states[|events|])
  {
    if events != [] {
      var last := |events| - 1;
      RunKeepsInv(stuck, before, paths, states[..last + 1], events[..last]);
      StepKeepsInv(stuck, before, paths, states[last], events[last]);
    }
  }

  predicate Related(p: FsPath, q: FsPath) {
    p <= q || q <= p
  }

  // --------------------------------------------------------- undisturbed tasks

  /** All that the calls are about is there, of the right kind, and no call is about what an earlier one takes. */
  ghost predicate Ready(disk: Disk, todo: seq<Call>) {
    && (forall k :: 0 <= k < |todo| ==> todo[k].p in disk)
    && (forall k :: 0 <= k < |todo| && todo[k].Unlink? ==> disk[todo[k].p] != Directory)
    && (forall k :: 0 <= k < |todo| && (todo[k].ReadDir? || todo[k].Rmdir?) ==> disk[todo[k].p] == Directory)
    && (forall j, k :: 0 <= j < k < |todo| ==> !Covers(todo[j], todo[k].p))
  }

  /** When all is ready and nothing refuses, the next call succeeds. */
  lemma ReadyCallSucceeds(stuck: FsPath -> bool, disk: Disk, t: Task, p: FsPath, listing: seq<FsPath>)
    requires Tree(disk) && !t.Ended() && Thorough(disk, t.todo, p) && Ready(disk, t.todo)
    requires ListingFits(disk, t, listing)
    requires forall q :: q in disk && p <= q ==> !stuck(q)
    ensures var e := AfterCall(stuck, disk, t, listing); !e.task.failed && Ready(e.disk, e.task.todo)
  {
    match t.todo[0]
    case Delete(q) => NextIsReady(disk, t.todo, if disk[q] == Directory then ReadDir(q) else Unlink(q));
    case Child(q) => NextIsReady(disk, t.todo, if disk[q] == Directory then Delete(q) else Unlink(q));
    case ReadDir(_) => ListedIsReady(disk, t.todo, listing);
    case Unlink(_) => RestIsReady(disk, t.todo);
    case Rmdir(d) =>
      NothingIsLeftIn(disk, t.todo, p);
      RestIsReady(disk, t.todo);
  }

  /** When a directory's turn comes, it is empty. */
  lemma NothingIsLeftIn(disk: Disk, todo: seq<Call>, p: FsPath)
    requires Thorough(disk, todo, p) && todo != [] && todo[0].Rmdir?
    ensures Children(disk, todo[0].p) == {}
  {
    assert forall q :: q in Children(disk, todo[0].p) ==> q != todo[0].p && CoveredBy(todo[..0], q);
  }

  lemma NextIsReady(disk: Disk, todo: seq<Call>, next: Call)
    requires Ready(disk, todo) && todo != [] && next.p == todo[0].p && !next.Rmdir?
    requires !todo[0].Unlink? && !todo[0].Rmdir?
    requires next.Unlink? ==> disk[next.p] != Directory
    requires next.ReadDir? ==> disk[next.p] == Directory
    ensures Ready(disk, [next] + todo[1..])
  {
    var new' := [next] + todo[1..];
    forall j, k | 0 <= j < k < |new'| ensures !Covers(new'[j], new'[k].p) {
      assert new'[k] == todo[1..][k - 1] == todo[k];
      assert j > 0 ==> new'[j] == todo[1..][j - 1] == todo[j];
      assert !Covers(todo[j], todo[k].p);
    }
  }

  lemma RestIsReady(disk: Disk, todo: seq<Call>)
    requires Ready(disk, todo) && todo != [] && (todo[0].Unlink? || todo[0].Rmdir?)
    ensures Ready(disk - {todo[0].p}, todo[1..])
  {
    forall k | 0 <= k < |todo| - 1 ensures todo[1..][k].p in disk - {todo[0].p} {
      assert !Covers(todo[0], todo[k + 1].p);
    }
  }

  lemma ListedIsReady(disk: Disk, todo: seq<Call>, listing: seq<FsPath>)
    requires Tree(disk) && todo != [] && todo[0].ReadDir? && Ready(disk, todo)
    requires Elems(listing) == Children(disk, todo[0].p) && NoDuplicates(listing)
    ensures Ready(disk, Lookups(listing) + [Rmdir(todo[0].p)] + todo[1..])
  {
    var d, rest := todo[0].p, todo[1..];
    var first := Lookups(listing) + [Rmdir(d)];
    var new' := first + rest;
    assert forall k :: 0 <= k < |listing| ==> listing[k] in Elems(listing);
    forall j, k | 0 <= j < k < |new'| ensures !Covers(new'[j], new'[k].p) {
      if k >= |first| {
        assert new'[k] == todo[k - |first| + 1];
        if j < |first| {
          assert !Covers(todo[0], new'[k].p);
          assert new'[j] == first[j] && d <= first[j].p;
          PrefixTransitive(d, first[j].p, new'[k].p);
        } else {
          assert new'[j] == todo[j - |first| + 1];
        }
      } else {
        assert new'[j] == Child(listing[j]) && new'[k] == first[k];
        assert k < |listing| ==> listing[j] != listing[k] && |listing[j]| == |listing[k]|;
      }
    }
  }
}
