/**
 * Garbage collection of orphaned files. A pass over one subdirectory lists old
 * entries, asks the database which of their CIDs have rows, and removes the
 * rest; uploads, row changes and the clock go on between those three moments.
 */
module Sweep {
  import opened Util

  type Cid = string
  type Path = seq<string>  // components, the last one being the CID
  datatype Entry = Entry(isDir: bool, mtime: int)

  const SECONDS_PER_DAY := 86400
  const DAYS_BEFORE_PRUNING_ORPHANED_CONTENT := 4

  function Leaf(p: Path): Cid {
    if p == [] then "" else p[|p| - 1]
  }

  /** `find -mtime +4`: whole days of age, fractions dropped, exceed four. */
  predicate IsOld(now: int, mtime: int) {
    (now - mtime) / SECONDS_PER_DAY > DAYS_BEFORE_PRUNING_ORPHANED_CONTENT
  }

  // ------------------------------------------------------------ one pass's code

  /** The last listed path of each leaf name, the subdirectory itself left out. */
  ghost predicate LastByLeaf(listing: seq<Path>, sub: Path, m: map<Cid, Path>) {
    && (forall i :: 0 <= i < |listing| && listing[i] != sub ==> Leaf(listing[i]) in m)
    && (forall c :: c in m ==>
          exists i :: 0 <= i < |listing| && listing[i] == m[c] && m[c] != sub && Leaf(m[c]) == c
                      && forall j :: i < j < |listing| && listing[j] != sub ==> Leaf(listing[j]) != c)
  }

  method ListNestedCids(listing: seq<Path>, sub: Path) returns (m: map<Cid, Path>)
    ensures LastByLeaf(listing, sub, m)
  {
    m := map[];
    for i := 0 to |listing|
      invariant LastByLeaf(listing[..i], sub, m)
    {
      ghost var before := m;
      var file := listing[i];
      if file != sub {
        m := m[Leaf(file) := file];
      }
      ExtendListing(listing, sub, before, m, i);
    }
    assert listing[..|listing|] == listing;
  }

  lemma ExtendListing(listing: seq<Path>, sub: Path, before: map<Cid, Path>, after: map<Cid, Path>, i: nat)
    requires i < |listing| && LastByLeaf(listing[..i], sub, before)
    requires after == if listing[i] == sub then before else before[Leaf(listing[i]) := listing[i]]
    ensures LastByLeaf(listing[..i + 1], sub, after)
  {
    var longer := listing[..i + 1];
    forall c | c in after
      ensures exists k :: 0 <= k < |longer| && longer[k] == after[c] && after[c] != sub && Leaf(after[c]) == c
                          && forall j :: k < j < |longer| && longer[j] != sub ==> Leaf(longer[j]) != c
    {
      if listing[i] != sub && c == Leaf(listing[i]) {
        assert longer[i] == after[c];
      } else {
        var k :| 0 <= k < i && listing[..i][k] == before[c] && before[c] != sub && Leaf(before[c]) == c
                 && forall j :: k < j < i && listing[..i][j] != sub ==> Leaf(listing[..i][j]) != c;
        assert longer[k] == after[c];
        forall j | k < j < |longer| && longer[j] != sub ensures Leaf(longer[j]) != c {
          if j < i {
            assert listing[..i][j] == longer[j];
          }
        }
      }
    }
    forall k | 0 <= k < |longer| && longer[k] != sub ensures Leaf(longer[k]) in after {
      if k < i {
        assert listing[..i][k] == longer[k];
      }
    }
  }

  /** The paths a pass removes: those whose CID the database did not return. */
  ghost function Doomed(m: map<Cid, Path>, inDb: set<Cid>): set<Path> {
    set c | c in m && c !in inDb :: m[c]
  }

  /**
   * Chooses what to remove from the listing and the rows the query returned; no
   * success row means the query did not run, and nothing is chosen.
   */
  method ChooseDoomed(m: map<Cid, Path>, rows: seq<Cid>, successRow: Cid) returns (ok: bool, doomed: seq<Path>)
    ensures ok <==> successRow in rows
    ensures !ok ==> doomed == []
    ensures ok ==> Elems(doomed) == Doomed(m, Elems(rows) - {successRow})
  {
    doomed := [];
    ok := false;
    var cidsInDb := {};
    for i := 0 to |rows|
      invariant ok <==> successRow in rows[..i]
      invariant cidsInDb == Elems(rows[..i]) - {successRow}
    {
      ElemsTake(rows, i);
      if rows[i] == successRow {
        ok := true;
      } else {
        cidsInDb := cidsInDb + {rows[i]};
      }
    }
    assert rows[..|rows|] == rows;
    if !ok {
      return;
    }
    var cids := SetToSeq(m.Keys);
    for i := 0 to |cids|
      invariant Elems(doomed) == set c | c in cids[..i] && c !in cidsInDb :: m[c]
    {
      ElemsTake(cids, i);
      assert cids[i] in Elems(cids);
      if cids[i] !in cidsInDb {
        ElemsPush(doomed, m[cids[i]]);
        assert cids[i] in cids[..i + 1];
        doomed := doomed + [m[cids[i]]];
      }
    }
    assert cids[..|cids|] == cids;
    assert forall c :: c in m <==> c in Elems(cids);
  }

  // ------------------------------------------------------- passes in a live node

  /** Where the sweeper stands between its three moments. */
  datatype Pass = Idle | Listed(listed: map<Cid, Path>) | Queried(listed: map<Cid, Path>, inDb: set<Cid>)

  datatype State = State(now: int, disk: map<Path, Entry>, db: set<Cid>, pass: Pass)

  datatype Event =
    | Tick(seconds: nat)
    | Write(path: Path, isDir: bool)
    | Unlink(path: Path)
    | InsertRow(cid: Cid)
    | DeleteRow(cid: Cid)
    | List(sub: Path, listing: seq<Path>, listed: map<Cid, Path>)
    | Query(success: bool)
    | Remove(enabled: bool)

  ghost predicate Enabled(s: State, ev: Event) {
    match ev
    case List(sub, listing, listed) =>
      && s.pass.Idle?
      && Elems(listing) == (set p | p in s.disk && sub <= p && IsOld(s.now, s.disk[p].mtime))
      && LastByLeaf(listing, sub, listed)
    case Query(_) => s.pass.Listed?
    case Remove(_) => s.pass.Queried?
    case _ => true
  }

  /** `rm` without `-r` takes files and leaves directories. */
  ghost function AfterRm(disk: map<Path, Entry>, doomed: set<Path>): map<Path, Entry> {
    map p | p in disk && (disk[p].isDir || p !in doomed) :: disk[p]
  }

  ghost function Apply(s: State, ev: Event): State
    requires Enabled(s, ev)
  {
    match ev
    case Tick(d) => s.(now := s.now + d)
    case Write(p, isDir) => s.(disk := s.disk[p := Entry(isDir, s.now)])
    case Unlink(p) => s.(disk := s.disk - {p})
    case InsertRow(c) => s.(db := s.db + {c})
    case DeleteRow(c) => s.(db := s.db - {c})
    case List(_, _, listed) => s.(pass := Listed(listed))
    case Query(success) =>
      if success then s.(pass := Queried(s.pass.listed, s.db * s.pass.listed.Keys)) else s.(pass := Idle)
    case Remove(enabled) =>
      var disk' := if enabled then AfterRm(s.disk, Doomed(s.pass.listed, s.pass.inDb)) else s.disk;
      s.(disk := disk', pass := Idle)
  }

  ghost predicate Run(states: seq<State>, events: seq<Event>) {
    && |states| == |events| + 1
    && forall i :: 0 <= i < |events| ==> Enabled(states[i], events[i]) && states[i + 1] == Apply(states[i], events[i])
  }

  /** The file is not five days past its last write without a Files row. */
  ghost predicate RowInTime(s: State, p: Path) {
    p in s.disk && IsOld(s.now, s.disk[p].mtime) ==> Leaf(p) in s.db
  }

  lemma OldStaysOld(now: int, d: nat, mtime: int)
    requires IsOld(now, mtime)
    ensures IsOld(now + d, mtime)
  {}

  // ------------------------------------------------------- what a removal takes

  predicate BySweeper(ev: Event) {
    ev.List? || ev.Query? || ev.Remove?
  }

  /** Up to event `r` a pass listed at event `a`, queried with success at event `b`, and did nothing else since. */
  ghost predicate OnePass(events: seq<Event>, a: nat, b: nat, r: nat)
    requires r <= |events|
  {
    && a < b < r && events[a].List? && events[b] == Query(true)
    && forall k :: a < k < r && k != b ==> !BySweeper(events[k])
  }

  /** The listing of event `a` is what the sweeper has in hand until its next own event. */
  lemma {:induction false} ListingIsKept(states: seq<State>, events: seq<Event>, a: nat, j: nat)
    requires Run(states, events) && a < j <= |events| && events[a].List?
    requires forall k :: a < k < j ==> !BySweeper(events[k])
    ensures states[j].pass == Listed(events[a].listed)
    decreases j
  {
    assert Enabled(states[j - 1], events[j - 1]) && states[j] == Apply(states[j - 1], events[j - 1]);
    if j > a + 1 {
      ListingIsKept(states, events, a, j - 1);
    }
  }

  /** After its query a pass knows the rows that were there at the query, and no later ones. */
  lemma {:induction false} PassKnows(states: seq<State>, events: seq<Event>, a: nat, b: nat, j: nat)
    requires Run(states, events) && j <= |events| && OnePass(events, a, b, j)
    ensures states[j].pass == Queried(events[a].listed, states[b].db * events[a].listed.Keys)
    decreases j
  {
    assert Enabled(states[j - 1], events[j - 1]) && states[j] == Apply(states[j - 1], events[j - 1]);
    if j == b + 1 {
      ListingIsKept(states, events, a, b);
    } else {
      assert OnePass(events, a, b, j - 1);
      PassKnows(states, events, a, b, j - 1);
    }
  }

  /** The listing in hand comes from a list event, and nothing of the sweeper's happened since. */
  lemma {:induction false} ListedSince(states: seq<State>, events: seq<Event>, j: nat) returns (a: nat)
    requires Run(states, events) && states[0].pass.Idle? && j <= |events| && states[j].pass.Listed?
    ensures a < j && events[a].List? && forall k :: a < k < j ==> !BySweeper(events[k])
  {
    assert Enabled(states[j - 1], events[j - 1]) && states[j] == Apply(states[j - 1], events[j - 1]);
    if events[j - 1].List? {
      a := j - 1;
    } else {
      a := ListedSince(states, events, j - 1);
    }
  }

  /**
   * Nothing is removed without a successful query of the same pass: on every run,
   * the sweeper may remove exactly when a listing and then a successful query are
   * what it did last, and what it knows of the database are the rows of that moment.
   */
  lemma {:induction false} RemovalsFollowASuccessfulQuery(states: seq<State>, events: seq<Event>, j: nat)
    requires Run(states, events) && states[0].pass.Idle? && j <= |events|
    ensures states[j].pass.Queried? <==> exists a: nat, b: nat :: OnePass(events, a, b, j)
    ensures j < |events| && events[j].Remove? ==> states[j].pass.Queried?
    ensures forall a: nat, b: nat :: OnePass(events, a, b, j) ==>
              states[j].pass == Queried(events[a].listed, states[b].db * events[a].listed.Keys)
  {
    assert j < |events| ==> Enabled(states[j], events[j]);
    forall a: nat, b: nat | OnePass(events, a, b, j)
      ensures states[j].pass == Queried(events[a].listed, states[b].db * events[a].listed.Keys)
    {
      PassKnows(states, events, a, b, j);
    }
    if states[j].pass.Queried? {
      assert Enabled(states[j - 1], events[j - 1]) && states[j] == Apply(states[j - 1], events[j - 1]);
      if events[j - 1].Query? {
        var a := ListedSince(states, events, j - 1);
        assert OnePass(events, a, j - 1, j);
      } else {
        RemovalsFollowASuccessfulQuery(states, events, j - 1);
        var a: nat, b: nat :| OnePass(events, a, b, j - 1);
        assert OnePass(events, a, b, j);
      }
    }
  }

  /** The listing has the path as the last one of its name. */
  ghost predicate ListedLast(ev: Event, p: Path)
    requires ev.List?
  {
    Leaf(p) in ev.listed && ev.listed[Leaf(p)] == p
  }

  /**
   * What a removal takes, whatever happens on the node meanwhile: a file goes if
   * and only if its pass listed it last of its name and the query found no row for it.
   */
  lemma RemovedIff(states: seq<State>, events: seq<Event>, a: nat, b: nat, r: nat, p: Path)
    requires Run(states, events) && r < |events| && OnePass(events, a, b, r) && events[r] == Remove(true)
    requires p in states[r].disk && !states[r].disk[p].isDir
    ensures p !in states[r + 1].disk <==> ListedLast(events[a], p) && Leaf(p) !in states[b].db
  {
    PassKnows(states, events, a, b, r);
    assert Enabled(states[a], events[a]) && states[r + 1] == Apply(states[r], events[r]);
    var m, inDb := events[a].listed, states[b].db * events[a].listed.Keys;
    if p in Doomed(m, inDb) {
      var c :| c in m && c !in inDb && m[c] == p;
      assert Leaf(m[c]) == c;
    }
    if ListedLast(events[a], p) && Leaf(p) !in states[b].db {
      assert m[Leaf(p)] in Doomed(m, inDb);
    }
  }

  /** Between two events the path was written or unlinked. */
  ghost predicate Touched(events: seq<Event>, p: Path, a: nat, b: nat)
    requires b <= |events|
  {
    exists k :: a < k < b && (events[k].Write? || events[k].Unlink?) && events[k].path == p
  }

  /** A listed file that nobody touches is still there, and old. */
  lemma {:induction false} UntouchedStaysOld(states: seq<State>, events: seq<Event>, p: Path, a: nat, j: nat)
    requires Run(states, events) && a < j <= |events| && events[a].List? && ListedLast(events[a], p)
    requires forall k :: a < k < j ==> !BySweeper(events[k])
    requires !Touched(events, p, a, j)
    ensures p in states[j].disk && IsOld(states[j].now, states[j].disk[p].mtime)
    decreases j
  {
    var s, ev := states[j - 1], events[j - 1];
    assert Enabled(s, ev) && states[j] == Apply(s, ev);
    if j == a + 1 {
      var listing := events[a].listing;
      assert Leaf(p) in events[a].listed;
      var i :| 0 <= i < |listing| && listing[i] == p;
      assert p in Elems(listing);
    } else {
      UntouchedStaysOld(states, events, p, a, j - 1);
      if ev.Tick? {
        OldStaysOld(s.now, ev.seconds, s.disk[p].mtime);
      }
    }
  }

  /**
   * A file whose row is there in time at every moment is lost to a pass if and
   * only if the pass listed it last of its name, it was written or unlinked
   * between listing and query, and its row was missing at the query.
   */
  lemma LostIff(states: seq<State>, events: seq<Event>, a: nat, b: nat, r: nat, p: Path)
    requires Run(states, events) && r < |events| && OnePass(events, a, b, r) && events[r] == Remove(true)
    requires p in states[r].disk && !states[r].disk[p].isDir
    requires forall i :: 0 <= i < |states| ==> RowInTime(states[i], p)
    ensures p !in states[r + 1].disk
       <==> ListedLast(events[a], p) && Touched(events, p, a, b) && Leaf(p) !in states[b].db
  {
    RemovedIff(states, events, a, b, r, p);
    if ListedLast(events[a], p) && !Touched(events, p, a, b) {
      UntouchedStaysOld(states, events, p, a, b);
      assert RowInTime(states[b], p);
    }
  }

  /** No pass that gets to remove while `p` is there had `p` touched between its listing and its query. */
  ghost predicate LeftAlone(states: seq<State>, events: seq<Event>, p: Path)
    requires |states| == |events| + 1
  {
    forall a: nat, b: nat, r: nat ::
      r < |events| && OnePass(events, a, b, r) && events[r] == Remove(true) && p in states[r].disk
      ==> !Touched(events, p, a, b)
  }

  /**
   * Timed safety. A file whose row is there in time at every moment of the run,
   * and which no pass finds touched between its listing and its query, is removed
   * by no pass, whatever else happens on the node.
   */
  lemma SweepSparesFilesWithRows(states: seq<State>, events: seq<Event>, p: Path)
    requires Run(states, events) && states[0].pass.Idle?
    requires forall i :: 0 <= i < |states| ==> RowInTime(states[i], p)
    requires LeftAlone(states, events, p)
    ensures forall i :: 0 <= i < |events| && events[i].Remove? && p in states[i].disk ==> p in states[i + 1].disk
  {
    forall i | 0 <= i < |events| && events[i].Remove? && p in states[i].disk ensures p in states[i + 1].disk {
      assert Enabled(states[i], events[i]) && states[i + 1] == Apply(states[i], events[i]);
      if events[i] == Remove(true) && !states[i].disk[p].isDir {
        RemovalsFollowASuccessfulQuery(states, events, i);
        var a: nat, b: nat :| OnePass(events, a, b, i);
        LostIff(states, events, a, b, i, p);
      }
    }
  }

  // ------------------------------------------------------- rows that come in time

  /** The row of `p` is inserted at some event while the write of event `i` is not yet old. */
  ghost predicate RowFollows(states: seq<State>, events: seq<Event>, p: Path, i: nat)
    requires |states| == |events| + 1 && i < |events|
  {
    exists j :: 0 <= j < |events| && events[j] == InsertRow(Leaf(p)) && !IsOld(states[j].now, states[i].now)
  }

  /**
   * What the node does for a file: each write is followed by the insert of its
   * row within the pruning age, unless the run ends before, and the row is never
   * deleted; a file that is there at the start has its row.
   */
  ghost predicate TimelyRows(states: seq<State>, events: seq<Event>, p: Path)
    requires |states| == |events| + 1
  {
    && (p in states[0].disk ==> Leaf(p) in states[0].db)
    && (forall i :: 0 <= i < |events| && events[i].Write? && events[i].path == p ==>
          RowFollows(states, events, p, i) || !IsOld(states[|events|].now, states[i].now))
    && (forall i :: 0 <= i < |events| ==> events[i] != DeleteRow(Leaf(p)))
  }

  lemma {:induction false} TimeGoesOn(states: seq<State>, events: seq<Event>, i: nat, j: nat)
    requires Run(states, events) && i <= j <= |events|
    ensures states[i].now <= states[j].now
    decreases j - i
  {
    if i < j {
      TimeGoesOn(states, events, i, j - 1);
      assert states[j] == Apply(states[j - 1], events[j - 1]);
    }
  }

  lemma {:induction false} RowStays(states: seq<State>, events: seq<Event>, c: Cid, i: nat, j: nat)
    requires Run(states, events) && i <= j <= |events| && c in states[i].db
    requires forall k :: 0 <= k < |events| ==> events[k] != DeleteRow(c)
    ensures c in states[j].db
    decreases j - i
  {
    if i < j {
      RowStays(states, events, c, i, j - 1);
      assert states[j] == Apply(states[j - 1], events[j - 1]);
    }
  }

  /** A file on disk was there at the start, or has the time of an earlier write. */
  lemma {:induction false} LastWrite(states: seq<State>, events: seq<Event>, p: Path, j: nat) returns (i: int)
    requires Run(states, events) && j <= |events| && p in states[j].disk
    ensures -1 <= i < j
    ensures i == -1 ==> p in states[0].disk
    ensures i >= 0 ==> events[i].Write? && events[i].path == p && states[j].disk[p].mtime == states[i].now
  {
    if j == 0 {
      i := -1;
    } else {
      assert Enabled(states[j - 1], events[j - 1]) && states[j] == Apply(states[j - 1], events[j - 1]);
      if events[j - 1].Write? && events[j - 1].path == p {
        i := j - 1;
      } else {
        i := LastWrite(states, events, p, j - 1);
      }
    }
  }

  /** From the times of the events: the row is there whenever the file is old. */
  lemma TimelyRowsAreInTime(states: seq<State>, events: seq<Event>, p: Path, j: nat)
    requires Run(states, events) && TimelyRows(states, events, p) && j <= |events|
    ensures RowInTime(states[j], p)
  {
    if p in states[j].disk && IsOld(states[j].now, states[j].disk[p].mtime) {
      var i := LastWrite(states, events, p, j);
      if i == -1 {
        RowStays(states, events, Leaf(p), 0, j);
      } else {
        TimeGoesOn(states, events, j, |events|);
        OldStaysOld(states[j].now, states[|events|].now - states[j].now, states[i].now);
        var k :| 0 <= k < |events| && events[k] == InsertRow(Leaf(p)) && !IsOld(states[k].now, states[i].now);
        InsertedWhileYoung(states, events, i, j, k);
        assert states[k + 1] == Apply(states[k], events[k]);
        RowStays(states, events, Leaf(p), k + 1, j);
      }
    }
  }

  lemma InsertedWhileYoung(states: seq<State>, events: seq<Event>, i: nat, j: nat, k: nat)
    requires Run(states, events) && i < |events| && j <= |events| && k < |events|
    requires IsOld(states[j].now, states[i].now) && !IsOld(states[k].now, states[i].now)
    ensures k < j
  {
    if j <= k {
      TimeGoesOn(states, events, j, k);
    }
  }

  /**
   * Timed safety in terms of events: a file whose writes are each followed by its
   * row within the pruning age, whose row is kept, and which no pass finds touched
   * between its listing and its query, is removed by no pass.
   */
  lemma SweepSparesTimelyFiles(states: seq<State>, events: seq<Event>, p: Path)
    requires Run(states, events) && states[0].pass.Idle? && TimelyRows(states, events, p)
    requires LeftAlone(states, events, p)
    ensures forall i :: 0 <= i < |events| && events[i].Remove? && p in states[i].disk ==> p in states[i + 1].disk
  {
    forall i | 0 <= i < |states| ensures RowInTime(states[i], p) {
      TimelyRowsAreInTime(states, events, p, i);
    }
    SweepSparesFilesWithRows(states, events, p);
  }

  const DAY := SECONDS_PER_DAY

  /** The states of a run, each event applied to the state before. */
  ghost predicate Follows(s: State, ev: Event, s': State) {
    Enabled(s, ev) && s' == Apply(s, ev)
  }

  /**
   * Without the last condition files with rows are lost: a file is written with
   * its row, grows old and is listed; during the pass it is rewritten and its row
   * replaced, the query falling between delete and insert; then it is removed.
   * At every moment its row was there in time.
   */
  lemma RewrittenFileIsLost(p: Path) returns (states: seq<State>, events: seq<Event>)
    requires p != []
    ensures Run(states, events) && states[0] == State(0, map[], {}, Idle)
    ensures forall i :: 0 <= i < |states| ==> RowInTime(states[i], p)
    ensures |events| == 9 && events[8] == Remove(true)
    ensures p in states[8].disk && Leaf(p) in states[8].db && p !in states[9].disk && Leaf(p) in states[9].db
  {
    var c := Leaf(p);
    var s0, s1, s2, s3, s4, s5, s6, s7, s8, s9 := LossSteps(p);
    events := [Write(p, false), InsertRow(c), Tick(5 * DAY), List([], [p], map[c := p]), Write(p, false), DeleteRow(c),
               Query(true), InsertRow(c), Remove(true)];
    states := [s0, s1, s2, s3, s4, s5, s6, s7, s8, s9];
  }

  /**
   * And a write after the query is not harmless when the file was unlinked before
   * it: any listed file can be unlinked with its row, missed by the query, written
   * again with its row, and then removed.
   */
  lemma RecreatedFileIsLost(s: State, p: Path) returns (states: seq<State>, events: seq<Event>)
    requires s.pass.Listed? && Leaf(p) in s.pass.listed && s.pass.listed[Leaf(p)] == p && RowInTime(s, p)
    ensures Run(states, events) && states[0] == s
    ensures forall i :: 0 <= i < |states| ==> RowInTime(states[i], p)
    ensures |events| == 6 && events[2] == Query(true) && events[3] == Write(p, false) && events[5] == Remove(true)
    ensures p in states[5].disk && Leaf(p) in states[5].db && p !in states[6].disk && Leaf(p) in states[6].db
  {
    var c := Leaf(p);
    events := [Unlink(p), DeleteRow(c), Query(true), Write(p, false), InsertRow(c), Remove(true)];
    var s1 := Apply(s, events[0]);
    var s2 := Apply(s1, events[1]);
    var s3 := Apply(s2, events[2]);
    var s4 := Apply(s3, events[3]);
    var s5 := Apply(s4, events[4]);
    var s6 := Apply(s5, events[5]);
    states := [s, s1, s2, s3, s4, s5, s6];
    assert s.pass.listed[c] in Doomed(s.pass.listed, s2.db * s.pass.listed.Keys);
  }

  /** The ten moments of that run, one after the other. */
  lemma LossSteps(p: Path)
    returns (s0: State, s1: State, s2: State, s3: State, s4: State,
        s5: State, s6: State, s7: State, s8: State, s9: State)
    requires p != []
    ensures s0 == State(0, map[], {}, Idle)
    ensures Follows(s0, Write(p, false), s1) && Follows(s1, InsertRow(Leaf(p)), s2) && Follows(s2, Tick(5 * DAY), s3)
    ensures Follows(s3, List([], [p], map[Leaf(p) := p]), s4) && Follows(s4, Write(p, false), s5)
    ensures Follows(s5, DeleteRow(Leaf(p)), s6) && Follows(s6, Query(true), s7) && Follows(s7, InsertRow(Leaf(p)), s8)
    ensures Follows(s8, Remove(true), s9)
    ensures RowInTime(s0, p) && RowInTime(s1, p) && RowInTime(s2, p) && RowInTime(s3, p) && RowInTime(s4, p)
    ensures RowInTime(s5, p) && RowInTime(s6, p) && RowInTime(s7, p) && RowInTime(s8, p) && RowInTime(s9, p)
    ensures p in s8.disk && Leaf(p) in s8.db && p !in s9.disk && Leaf(p) in s9.db
  {
    var c := Leaf(p);
    var m := map[c := p];
    var old', young := map[p := Entry(false, 0)], map[p := Entry(false, 5 * DAY)];
    s0, s1, s2 := State(0, map[], {}, Idle), State(0, old', {}, Idle), State(0, old', {c}, Idle);
    s3, s4 := State(5 * DAY, old', {c}, Idle), State(5 * DAY, old', {c}, Listed(m));
    s5, s6 := State(5 * DAY, young, {c}, Listed(m)), State(5 * DAY, young, {}, Listed(m));
    s7, s8 := State(5 * DAY, young, {}, Queried(m, {})), State(5 * DAY, young, {c}, Queried(m, {}));
    s9 := State(5 * DAY, map[], {c}, Idle);
    OldFileIsListed(p, s3, s4);
    RowIsReplaced(p, s5, s6, s7, s8);
    YoungFileIsRemoved(p, s8, s9);
  }

  /** The row is deleted, the query misses it, and it is inserted again. */
  lemma RowIsReplaced(p: Path, s5: State, s6: State, s7: State, s8: State)
    requires s5.pass == Listed(map[Leaf(p) := p]) && s5.db == {Leaf(p)}
    requires s6 == s5.(db := {}) && s7 == s6.(pass := Queried(map[Leaf(p) := p], {})) && s8 == s7.(db := {Leaf(p)})
    ensures Follows(s5, DeleteRow(Leaf(p)), s6) && Follows(s6, Query(true), s7) && Follows(s7, InsertRow(Leaf(p)), s8)
  {
    assert {} * map[Leaf(p) := p].Keys == {};
  }

  lemma OldFileIsListed(p: Path, s: State, s': State)
    requires p != [] && s.disk == map[p := Entry(false, 0)] && s.now == 5 * DAY && s.pass.Idle?
    requires s' == s.(pass := Listed(map[Leaf(p) := p]))
    ensures Follows(s, List([], [p], map[Leaf(p) := p]), s')
  {
    assert IsOld(s.now, 0);
    assert Elems([p]) == {p};
    assert [p][0] == p;
  }

  lemma YoungFileIsRemoved(p: Path, s: State, s': State)
    requires s.disk == map[p := Entry(false, 5 * DAY)] && s.pass == Queried(map[Leaf(p) := p], {})
    requires s' == s.(disk := map[], pass := Idle)
    ensures Follows(s, Remove(true), s')
  {
    assert Leaf(p) in map[Leaf(p) := p];
    assert p in Doomed(map[Leaf(p) := p], {});
    assert AfterRm(s.disk, Doomed(map[Leaf(p) := p], {})) == map[];
  }

  /** Some listing entry is `p`, and no entry after it has the same leaf name. */
  ghost predicate LastOfItsName(listing: seq<Path>, sub: Path, p: Path) {
    exists i :: 0 <= i < |listing| && listing[i] == p
      && forall j :: i < j < |listing| && listing[j] != sub ==> Leaf(listing[j]) != Leaf(p)
  }

  /**
   * And it does collect garbage: an old file without a row goes in an undisturbed
   * pass, if and only if no entry listed after it has the same leaf name.
   */
  lemma UndisturbedPassCollects(s: State, sub: Path, listing: seq<Path>, listed: map<Cid, Path>, p: Path)
    requires s.pass.Idle? && Enabled(s, List(sub, listing, listed))
    requires p in s.disk && !s.disk[p].isDir && sub <= p && p != sub
    requires IsOld(s.now, s.disk[p].mtime) && Leaf(p) !in s.db
    ensures var s1 := Apply(s, List(sub, listing, listed));
            var s3 := Apply(Apply(s1, Query(true)), Remove(true));
            p !in s3.disk <==> LastOfItsName(listing, sub, p)
    ensures forall q :: q in s.disk && q !in listed.Values
              ==> q in Apply(Apply(Apply(s, List(sub, listing, listed)), Query(true)), Remove(true)).disk
  {
    assert p in Elems(listing);
    var i :| 0 <= i < |listing| && listing[i] == p;
    assert Leaf(p) in listed;
    if p in Doomed(listed, s.db * listed.Keys) {
      var c :| c in listed && c !in s.db * listed.Keys && listed[c] == p;
      assert Leaf(listed[c]) == c;
    }
  }

}
