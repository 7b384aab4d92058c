/**
 * Moving Files rows off their legacy storage paths: query a batch, copy what
 * can be copied, rewrite the rows, and stop once a query repeats its result.
 */
module LegacyMigration {
  import opened Util

  type Path = string
  /** `fileType` is None where the column is NULL. */
  datatype Row = Row(fileUUID: string, multihash: string, storagePath: Path, fileType: Option<string>, skipped: bool)

  /** SQL LIKE with a trailing `%`: an underscore matches any one character. */
  predicate Like(s: string, pattern: string) {
    |pattern| <= |s| && forall i :: 0 <= i < |pattern| ==> pattern[i] == '_' || pattern[i] == s[i]
  }

  predicate IsLegacy(p: Path) {
    Like(p, "/file_storage/") && !Like(p, "/file_storage/files/")
  }

  /**
   * One pagination window: the rows of one kind whose CID lies in it. A row whose
   * type is NULL is neither equal nor unequal to 'dir'.
   */
  datatype Window = Window(contains: string -> bool, dir: bool) {
    predicate Matches(row: Row) {
      && contains(row.multihash) && IsLegacy(row.storagePath)
      && row.fileType.Some? && (row.fileType.value == "dir") == dir
    }
  }

  // The table is listed in the order in which the query scans it.

  /** The rows of the window whose path is not in `moved`, in query order. */
  function Live(table: seq<Row>, w: Window, moved: set<Path>): seq<Row> {
    if table == [] then []
    else
      var last := table[|table| - 1];
      Live(table[..|table| - 1], w, moved) + if w.Matches(last) && last.storagePath !in moved then [last] else []
  }

  function Query(table: seq<Row>, w: Window, batchSize: nat): seq<Row> {
    var rows := Live(table, w, {});
    rows[..Min(batchSize, |rows|)]
  }

  /** The table after every row of a path in `moved` got that path's new one. */
  function Relocate(table: seq<Row>, moved: set<Path>, target: Path -> Path): seq<Row> {
    seq(|table|, i requires 0 <= i < |table| =>
      if table[i].storagePath in moved then table[i].(storagePath := target(table[i].storagePath)) else table[i])
  }

  /** New paths are not legacy paths themselves. */
  ghost predicate LeavesLegacy(target: Path -> Path) {
    forall p :: !IsLegacy(target(p))
  }

  /** What still matches after a relocation is what matched and was not moved. */
  lemma {:induction false} LiveAfterRelocate(table: seq<Row>, w: Window, moved: set<Path>, target: Path -> Path)
    requires LeavesLegacy(target)
    ensures Live(Relocate(table, moved, target), w, {}) == Live(table, w, moved)
  {
    if table != [] {
      var last := |table| - 1;
      LiveAfterRelocate(table[..last], w, moved, target);
      assert Relocate(table, moved, target)[..last] == Relocate(table[..last], moved, target);
    }
  }

  /** A live row sits in the listing right after the live rows before it. */
  lemma {:induction false} LiveAt(table: seq<Row>, w: Window, moved: set<Path>, k: nat)
    requires k < |table| && w.Matches(table[k]) && table[k].storagePath !in moved
    ensures |Live(table[..k], w, moved)| < |Live(table, w, moved)|
    ensures Live(table, w, moved)[|Live(table[..k], w, moved)|] == table[k]
  {
    var last := |table| - 1;
    if k < last {
      LiveAt(table[..last], w, moved, k);
      assert table[..last][..k] == table[..k];
    }
  }

  lemma {:induction false} LiveComesFrom(table: seq<Row>, w: Window, moved: set<Path>, i: nat) returns (k: nat)
    requires i < |Live(table, w, moved)|
    ensures k < |table| && w.Matches(table[k]) && table[k].storagePath !in moved
    ensures table[k] == Live(table, w, moved)[i] && |Live(table[..k], w, moved)| == i
  {
    var last := |table| - 1;
    var before := Live(table[..last], w, moved);
    if i < |before| {
      k := LiveComesFrom(table[..last], w, moved, i);
      assert table[..last][..k] == table[..k];
    } else {
      k := last;
    }
  }

  lemma {:induction false} LivePrefix(table: seq<Row>, w: Window, moved: set<Path>, k: nat)
    requires k <= |table|
    ensures Live(table[..k], w, moved) <= Live(table, w, moved)
  {
    if k < |table| {
      LivePrefix(table[..|table| - 1], w, moved, k);
      assert table[..|table| - 1][..k] == table[..k];
    } else {
      assert table[..k] == table;
    }
  }

  /** Moving more paths leaves fewer live rows, strictly so when a live one moves. */
  lemma {:induction false} LiveShrinks(table: seq<Row>, w: Window, moved: set<Path>, more: set<Path>)
    requires moved <= more
    ensures |Live(table, w, more)| <= |Live(table, w, moved)|
    ensures (exists row :: row in Live(table, w, moved) && row.storagePath in more)
            ==> |Live(table, w, more)| < |Live(table, w, moved)|
  {
    if table != [] {
      LiveShrinks(table[..|table| - 1], w, moved, more);
    }
  }

  // ------------------------------------------------------------ what is moved

  /**
   * Rows of the window, among the first `k` rows, that cannot be copied
   * themselves and whose path is not in `moved`. Whether a row can be copied is
   * up to the row: a skipped one counts as copied even when copying fails.
   */
  function StuckBefore(table: seq<Row>, w: Window, copyable: Row -> bool, moved: set<Path>, k: nat): nat
    requires k <= |table|
  {
    if k == 0 then 0
    else StuckBefore(table, w, copyable, moved, k - 1)
         + if w.Matches(table[k - 1]) && !copyable(table[k - 1]) && table[k - 1].storagePath !in moved then 1 else 0
  }

  /** Row `k` is copyable and, once `moved` is moved, fewer than a batch of stuck rows precede it. */
  ghost predicate InReach(table: seq<Row>, w: Window, copyable: Row -> bool, batchSize: nat, moved: set<Path>, k: nat)
    requires k < |table|
  {
    w.Matches(table[k]) && copyable(table[k]) && StuckBefore(table, w, copyable, moved, k) < batchSize
  }

  /** Moving `moved` brings nothing new into reach. */
  ghost predicate Closed(table: seq<Row>, w: Window, copyable: Row -> bool, batchSize: nat, moved: set<Path>) {
    forall k :: 0 <= k < |table| && InReach(table, w, copyable, batchSize, moved, k) ==> table[k].storagePath in moved
  }

  /** The least set of paths that is closed: what copying can get at, and no more. */
  ghost predicate IsReach(table: seq<Row>, w: Window, copyable: Row -> bool, batchSize: nat, moved: set<Path>) {
    && Closed(table, w, copyable, batchSize, moved)
    && forall c: set<Path> :: Closed(table, w, copyable, batchSize, c) ==> moved <= c
  }

  ghost function CopyablePaths(table: seq<Row>, w: Window, copyable: Row -> bool): set<Path> {
    set k | 0 <= k < |table| && w.Matches(table[k]) && copyable(table[k]) :: table[k].storagePath
  }

  lemma CopyablePathsAreClosed(table: seq<Row>, w: Window, copyable: Row -> bool, batchSize: nat)
    ensures Closed(table, w, copyable, batchSize, CopyablePaths(table, w, copyable))
  {}

  lemma {:induction false} StuckGrows(table: seq<Row>, w: Window, copyable: Row -> bool, moved: set<Path>, i: nat,
          k: nat)
    requires i <= k <= |table|
    ensures StuckBefore(table, w, copyable, moved, i) <= StuckBefore(table, w, copyable, moved, k)
    decreases k - i
  {
    if i < k {
      StuckGrows(table, w, copyable, moved, i, k - 1);
    }
  }

  lemma {:induction false} StuckShrinks(table: seq<Row>, w: Window, copyable: Row -> bool, fewer: set<Path>,
          more: set<Path>, k: nat)
    requires k <= |table| && fewer <= more
    ensures StuckBefore(table, w, copyable, more, k) <= StuckBefore(table, w, copyable, fewer, k)
  {
    if k > 0 {
      StuckShrinks(table, w, copyable, fewer, more, k - 1);
    }
  }

  /** Fewer stuck rows than one batch: everything copyable is moved. */
  lemma FewStuckRowsMoveEverything(table: seq<Row>, w: Window, copyable: Row -> bool, batchSize: nat, moved: set<Path>)
    requires StuckBefore(table, w, copyable, {}, |table|) < batchSize
    requires IsReach(table, w, copyable, batchSize, moved)
    ensures moved == CopyablePaths(table, w, copyable)
  {
    CopyablePathsAreClosed(table, w, copyable, batchSize);
    forall k | 0 <= k < |table| ensures StuckBefore(table, w, copyable, moved, k) < batchSize {
      StuckGrows(table, w, copyable, moved, k, |table|);
      StuckShrinks(table, w, copyable, {}, moved, |table|);
    }
  }

  /**
   * Exactly: everything copyable is moved if and only if, as long as some
   * copyable path is left, some row of a path not moved yet is in reach.
   */
  lemma MovesEverythingIff(table: seq<Row>, w: Window, copyable: Row -> bool, batchSize: nat, moved: set<Path>)
    requires IsReach(table, w, copyable, batchSize, moved)
    ensures moved == CopyablePaths(table, w, copyable)
       <==> forall m: set<Path> :: m < CopyablePaths(table, w, copyable) ==>
              BringsMore(table, w, copyable, batchSize, m)
  {
    var all := CopyablePaths(table, w, copyable);
    CopyablePathsAreClosed(table, w, copyable, batchSize);
    if moved == all {
      forall m: set<Path> | m < all ensures BringsMore(table, w, copyable, batchSize, m) {
        assert !Closed(table, w, copyable, batchSize, m);
      }
    } else {
      assert moved < all && !BringsMore(table, w, copyable, batchSize, moved);
    }
  }

  ghost predicate BringsMore(table: seq<Row>, w: Window, copyable: Row -> bool, batchSize: nat, m: set<Path>) {
    exists k :: 0 <= k < |table| && InReach(table, w, copyable, batchSize, m, k) && table[k].storagePath !in m
  }

  predicate SamePath(w: Window, a: Row, b: Row) {
    w.Matches(a) && w.Matches(b) && a.storagePath == b.storagePath
  }

  /** All rows of a path can be copied, or none. */
  ghost predicate PathDecides(table: seq<Row>, w: Window, copyable: Row -> bool) {
    forall i, j :: 0 <= i < |table| && 0 <= j < |table| && SamePath(w, table[i], table[j]) ==>
      copyable(table[i]) == copyable(table[j])
  }

  /** A copyable row of the window, the first with its path. */
  ghost predicate FirstOfItsPath(table: seq<Row>, w: Window, copyable: Row -> bool, k: nat)
    requires k < |table|
  {
    && w.Matches(table[k]) && copyable(table[k])
    && forall i :: 0 <= i < k && w.Matches(table[i]) ==> table[i].storagePath != table[k].storagePath
  }

  lemma {:induction false} HasFirstRow(table: seq<Row>, w: Window, copyable: Row -> bool, k: nat) returns (f: nat)
    requires k < |table| && w.Matches(table[k]) && copyable(table[k]) && PathDecides(table, w, copyable)
    ensures f <= k && table[f].storagePath == table[k].storagePath && FirstOfItsPath(table, w, copyable, f)
  {
    f := k;
    if i :| 0 <= i < k && w.Matches(table[i]) && table[i].storagePath == table[k].storagePath {
      f := HasFirstRow(table, w, copyable, i);
    }
  }

  /** When the path decides, moving copyable paths frees no stuck row. */
  lemma {:induction false} StuckStaysStuck(table: seq<Row>, w: Window, copyable: Row -> bool, moved: set<Path>, k: nat)
    requires k <= |table| && PathDecides(table, w, copyable) && moved <= CopyablePaths(table, w, copyable)
    ensures StuckBefore(table, w, copyable, moved, k) == StuckBefore(table, w, copyable, {}, k)
  {
    if k > 0 {
      StuckStaysStuck(table, w, copyable, moved, k - 1);
      if w.Matches(table[k - 1]) && table[k - 1].storagePath in moved {
        var i :| 0 <= i < |table| && w.Matches(table[i]) && copyable(table[i])
          && table[i].storagePath == table[k - 1].storagePath;
      }
    }
  }

  /**
   * When the path decides, the condition can be read off the table: fewer than a
   * batch of stuck rows precede the first row of every copyable path.
   */
  lemma MovesEverythingIffFirstRowsInReach(table: seq<Row>, w: Window, copyable: Row -> bool, batchSize: nat,
          moved: set<Path>)
    requires IsReach(table, w, copyable, batchSize, moved) && PathDecides(table, w, copyable)
    ensures moved == CopyablePaths(table, w, copyable)
       <==> forall k :: 0 <= k < |table| && FirstOfItsPath(table, w, copyable, k) ==>
              StuckBefore(table, w, copyable, {}, k) < batchSize
  {
    var all := CopyablePaths(table, w, copyable);
    CopyablePathsAreClosed(table, w, copyable, batchSize);
    if forall k :: 0 <= k < |table| && FirstOfItsPath(table, w, copyable, k) ==>
      StuckBefore(table, w, copyable, {}, k) < batchSize
    {
      forall k | 0 <= k < |table| && w.Matches(table[k]) && copyable(table[k]) ensures table[k].storagePath in moved {
        var f := HasFirstRow(table, w, copyable, k);
        StuckStaysStuck(table, w, copyable, moved, f);
        assert InReach(table, w, copyable, batchSize, moved, f);
      }
    } else {
      var k :| 0 <= k < |table| && FirstOfItsPath(table, w, copyable, k)
        && StuckBefore(table, w, copyable, {}, k) >= batchSize;
      WithoutItIsClosed(table, w, copyable, batchSize, k);
    }
  }

  /** The copyable paths without one whose every row is out of reach. */
  lemma WithoutItIsClosed(table: seq<Row>, w: Window, copyable: Row -> bool, batchSize: nat, k: nat)
    requires PathDecides(table, w, copyable) && k < |table| && FirstOfItsPath(table, w, copyable, k)
    requires StuckBefore(table, w, copyable, {}, k) >= batchSize
    ensures Closed(table, w, copyable, batchSize, CopyablePaths(table, w, copyable) - {table[k].storagePath})
  {
    var c := CopyablePaths(table, w, copyable) - {table[k].storagePath};
    forall i | 0 <= i < |table| && InReach(table, w, copyable, batchSize, c, i) ensures table[i].storagePath in c {
      if table[i].storagePath == table[k].storagePath {
        StuckGrows(table, w, copyable, {}, k, i);
        StuckStaysStuck(table, w, copyable, c, i);
      }
    }
  }

  /** At least as many live rows precede any row as stuck ones. */
  lemma {:induction false} StuckRowsAreLive(table: seq<Row>, w: Window, copyable: Row -> bool, moved: set<Path>, k: nat)
    requires k <= |table|
    ensures StuckBefore(table, w, copyable, moved, k) <= |Live(table[..k], w, moved)|
  {
    if k > 0 {
      StuckRowsAreLive(table, w, copyable, moved, k - 1);
      assert table[..k][..k - 1] == table[..k - 1];
    }
  }

  /** If every live row among the first `k` is stuck, the counts agree. */
  lemma {:induction false} AllLiveAreStuck(table: seq<Row>, w: Window, copyable: Row -> bool, moved: set<Path>, k: nat)
    requires k <= |table|
    requires forall row :: row in Live(table[..k], w, moved) ==> !copyable(row)
    ensures |Live(table[..k], w, moved)| <= StuckBefore(table, w, copyable, moved, k)
  {
    if k > 0 {
      assert table[..k][..k - 1] == table[..k - 1];
      AllLiveAreStuck(table, w, copyable, moved, k - 1);
    }
  }

  /** Whatever a batch shows that can be copied is in every closed set that has what was moved before. */
  lemma BatchIsInReach(table: seq<Row>, w: Window, copyable: Row -> bool, moved: set<Path>, batchSize: nat,
          row: Row, c: set<Path>)
    requires Closed(table, w, copyable, batchSize, c) && moved <= c
    requires row in Live(table, w, moved)[..Min(batchSize, |Live(table, w, moved)|)] && copyable(row)
    ensures row.storagePath in c
  {
    var batch := Live(table, w, moved)[..Min(batchSize, |Live(table, w, moved)|)];
    var i :| 0 <= i < |batch| && batch[i] == row;
    var k := LiveComesFrom(table, w, moved, i);
    StuckRowsAreLive(table, w, copyable, moved, k);
    StuckShrinks(table, w, copyable, moved, c, k);
    assert InReach(table, w, copyable, batchSize, c, k);
  }

  /** When a batch shows only stuck rows, what has been moved is closed. */
  lemma StuckBatchMeansDone(table: seq<Row>, w: Window, copyable: Row -> bool, moved: set<Path>, batchSize: nat)
    requires var live := Live(table, w, moved);
      forall row :: row in live[..Min(batchSize, |live|)] ==> !copyable(row)
    ensures Closed(table, w, copyable, batchSize, moved)
  {
    forall k | 0 <= k < |table| && InReach(table, w, copyable, batchSize, moved, k)
      ensures table[k].storagePath in moved
    {
      if table[k].storagePath !in moved {
        LiveInReachIsStuck(table, w, copyable, moved, batchSize, k);
      }
    }
  }

  lemma LiveInReachIsStuck(table: seq<Row>, w: Window, copyable: Row -> bool, moved: set<Path>, batchSize: nat, k: nat)
    requires k < |table| && w.Matches(table[k]) && table[k].storagePath !in moved
    requires StuckBefore(table, w, copyable, moved, k) < batchSize
    requires var live := Live(table, w, moved);
      forall row :: row in live[..Min(batchSize, |live|)] ==> !copyable(row)
    ensures !copyable(table[k])
  {
    var live := Live(table, w, moved);
    LiveAt(table, w, moved, k);
    StuckLimit(table, w, copyable, moved, batchSize, k);
    assert live[..Min(batchSize, |live|)][|Live(table[..k], w, moved)|] == table[k];
  }

  lemma StuckLimit(table: seq<Row>, w: Window, copyable: Row -> bool, moved: set<Path>, batchSize: nat, k: nat)
    requires k < |table| && StuckBefore(table, w, copyable, moved, k) < batchSize
    requires var live := Live(table, w, moved);
      forall row :: row in live[..Min(batchSize, |live|)] ==> !copyable(row)
    ensures |Live(table[..k], w, moved)| < batchSize
  {
    var live := Live(table, w, moved);
    // walk to the last prefix that still fits one batch
    var j := FittingPrefix(table, w, moved, batchSize, k);
    LivePrefix(table, w, moved, j);
    assert Live(table[..j], w, moved) <= live[..Min(batchSize, |live|)];
    AllLiveAreStuck(table, w, copyable, moved, j);
    StuckGrows(table, w, copyable, moved, j, k);
  }

  /** A prefix no longer than `k` whose live rows fill the batch, or all of them if they do not. */
  lemma {:induction false} FittingPrefix(table: seq<Row>, w: Window, moved: set<Path>, batchSize: nat,
          k: nat) returns (j: nat)
    requires k <= |table|
    ensures j <= k && |Live(table[..j], w, moved)| == Min(batchSize, |Live(table[..k], w, moved)|)
  {
    j := k;
    if |Live(table[..k], w, moved)| > batchSize {
      assert table[..k][..k - 1] == table[..k - 1];
      j := FittingPrefix(table, w, moved, batchSize, k - 1);
    }
  }

  // ------------------------------------------------------------------ the loop

  datatype Copied = Copied(legacyPath: Path, nonLegacyPath: Path)

  ghost function LegacyPaths(copied: seq<Copied>): set<Path> {
    set c | c in copied :: c.legacyPath
  }

  ghost function PathsOfCopies(rows: seq<Row>, copies: Row -> bool): set<Path> {
    set row | row in rows && copies(row) :: row.storagePath
  }

  lemma PathsOfCopiesTake(rows: seq<Row>, copies: Row -> bool, i: nat)
    requires i < |rows|
    ensures PathsOfCopies(rows[..i + 1], copies)
         == PathsOfCopies(rows[..i], copies) + if copies(rows[i]) then {rows[i].storagePath} else {}
  {
    ElemsTake(rows, i);
    assert rows[i] in rows[..i + 1];
  }

  class FilesTable {
    var table: seq<Row>

    constructor (table: seq<Row>)
      ensures this.table == table
    {
      this.table := table;
    }

    /** Update number `n` of a round fails as `updateOk` says; earlier ones stay. */
    method UpdateLegacyPathRows(copied: seq<Copied>, updateOk: nat -> bool,
                                ghost start: seq<Row>, ghost moved: set<Path>, target: Path -> Path)
      returns (ok: bool, ghost moved': set<Path>)
      requires LeavesLegacy(target) && table == Relocate(start, moved, target)
      requires forall c :: c in copied ==> IsLegacy(c.legacyPath) && c.nonLegacyPath == target(c.legacyPath)
      modifies this
      ensures moved <= moved' <= moved + LegacyPaths(copied)
      ensures table == Relocate(start, moved', target)
      ensures ok ==> moved' == moved + LegacyPaths(copied)
      ensures (forall n :: updateOk(n)) ==> ok
    {
      moved' := moved;
      for i := 0 to |copied|
        invariant moved' == moved + LegacyPaths(copied[..i])
        invariant table == Relocate(start, moved', target)
      {
        if !updateOk(i) {
          return false, moved';
        }
        ElemsTake(copied, i);
        var c := copied[i];
        table := seq(|table|, j requires 0 <= j < |table| reads this =>
          if table[j].storagePath == c.legacyPath then table[j].(storagePath := c.nonLegacyPath) else table[j]);
        moved' := moved' + {c.legacyPath};
      }
      assert copied[..|copied|] == copied;
      ok := true;
    }

    /** Copies what it can; `copies(row)` says whether the row's file could be copied. */
    static method CopyLegacyFiles(results: seq<Row>, copies: Row -> bool,
            target: Path -> Path) returns (copied: seq<Copied>)
      ensures forall c :: c in copied ==>
        exists row :: row in results && c == Copied(row.storagePath, target(row.storagePath))
      ensures LegacyPaths(copied) == PathsOfCopies(results, copies)
    {
      copied := [];
      for i := 0 to |results|
        invariant forall c :: c in copied ==>
          exists row :: row in results && c == Copied(row.storagePath, target(row.storagePath))
        invariant LegacyPaths(copied) == PathsOfCopies(results[..i], copies)
      {
        PathsOfCopiesTake(results, copies, i);
        if copies(results[i]) {
          var c := Copied(results[i].storagePath, target(results[i].storagePath));
          copied := copied + [c];
        }
      }
      assert results[..|results|] == results;
    }

    /** Copying and updating for one batch of results. */
    method MoveBatch(results: seq<Row>, w: Window, batchSize: nat, target: Path -> Path,
                     copies: Row -> bool, updateOk: nat -> bool, ghost start: seq<Row>, ghost moved: set<Path>)
      returns (ghost moved': set<Path>)
      requires LeavesLegacy(target) && table == Relocate(start, moved, target)
      requires results == Query(table, w, batchSize)
      modifies this
      ensures table == Relocate(start, moved', target)
      ensures Live(table, w, {}) == Live(start, w, moved')
      ensures moved' == moved || |Live(start, w, moved')| < |Live(start, w, moved)|
      ensures moved <= moved'
      ensures (forall n :: updateOk(n))
              ==> moved' == moved + PathsOfCopies(results, copies)
    {
      var copied := CopyLegacyFiles(results, copies, target);
      ResultsMatch(table, w, batchSize);
      LiveAfterRelocate(start, w, moved, target);
      var ok;
      ok, moved' := UpdateLegacyPathRows(copied, updateOk, start, moved, target);
      LiveAfterRelocate(start, w, moved', target);
      RoundEffect(start, w, moved, moved', batchSize, results);
    }

    /** Whether a row can be copied does not change from round to round, and no update fails. */
    static ghost predicate Steady(copies: (nat, Row) -> bool, updateOk: (nat, nat) -> bool, copyable: Row -> bool) {
      (forall n, row :: copies(n, row) == copyable(row)) && (forall n, i :: updateOk(n, i))
    }

    /**
     * `copies(n, row)` says whether round `n` manages to copy the row's file, or
     * may treat it so.
     *
     * Whatever copies and updates fail, the loop ends within one round more than
     * there are legacy rows in the window, and rows only ever swap a legacy path
     * for its new one. When the outcome of a copy depends on the row alone and
     * updates succeed, exactly the paths in reach have been moved at the end.
     */
    method MigrateWindow(w: Window, batchSize: nat, target: Path -> Path,
                         copies: (nat, Row) -> bool, updateOk: (nat, nat) -> bool, ghost copyable: Row -> bool)
      returns (rounds: nat, ghost moved: set<Path>)
      requires LeavesLegacy(target)
      modifies this
      ensures rounds <= |Live(old(table), w, {})| + 1
      ensures table == Relocate(old(table), moved, target)
      ensures Steady(copies, updateOk, copyable) ==> IsReach(old(table), w, copyable, batchSize, moved)
    {
      ghost var start := table;
      ghost var steady := Steady(copies, updateOk, copyable);
      ghost var total := |Live(start, w, {})|;
      rounds, moved := 0, {};
      assert table == Relocate(start, {}, target);
      var newResultsFound := true;
      var results: seq<Row> := [];
      ghost var stale := false; // the next query shows these results again
      while newResultsFound
        invariant table == Relocate(start, moved, target)
        invariant Live(table, w, {}) == Live(start, w, moved)
        invariant newResultsFound ==> (rounds > 0 <==> results != [])
        invariant newResultsFound ==> (stale <==> rounds > 0 && Query(table, w, batchSize) == results)
        invariant newResultsFound ==> rounds + |Live(table, w, {})| <= total + if stale then 1 else 0
        invariant !newResultsFound ==> rounds <= total + 1
        invariant steady ==> SteadyState(start, w, copyable, moved, batchSize, results, newResultsFound)
        decreases newResultsFound, |Live(table, w, {})|, !stale
      {
        var prevResults := results;
        results := Query(table, w, batchSize);
        assert stale ==> |Live(table, w, {})| > 0;
        ghost var movedBefore := moved;
        if |results| > 0 {
          newResultsFound := prevResults != results;
          moved := MoveBatch(results, w, batchSize, target, row => copies(rounds, row),
                             (i: nat) => updateOk(rounds, i), start, moved);
        } else {
          newResultsFound := false;
        }
        if steady {
          SteadyRound(start, w, copyable, movedBefore, moved, batchSize, results, prevResults, newResultsFound);
        }
        rounds := rounds + 1;
        stale := Query(table, w, batchSize) == results;
      }
    }

    /** What was shown and could be copied has moved; at the end nothing in reach is left. */
    static ghost predicate SteadyState(start: seq<Row>, w: Window, copyable: Row -> bool, moved: set<Path>,
                                       batchSize: nat, results: seq<Row>, newFound: bool) {
      && (forall c: set<Path> :: Closed(start, w, copyable, batchSize, c) ==> moved <= c)
      && (forall row :: row in results && copyable(row) ==> row.storagePath in moved)
      && (!newFound ==> Closed(start, w, copyable, batchSize, moved))
    }

    static lemma ResultsMatch(table: seq<Row>, w: Window, batchSize: nat)
      ensures forall row :: row in Query(table, w, batchSize) ==> w.Matches(row)
    {
      forall row | row in Query(table, w, batchSize) ensures w.Matches(row) {
        var i :| 0 <= i < |Query(table, w, batchSize)| && Query(table, w, batchSize)[i] == row;
        var k := LiveComesFrom(table, w, {}, i);
      }
    }

    /** A round either moves a row it showed or leaves the listing as it was. */
    static lemma RoundEffect(start: seq<Row>, w: Window, before: set<Path>, after: set<Path>, batchSize: nat,
            results: seq<Row>)
      requires var live := Live(start, w, before); results == live[..Min(batchSize, |live|)]
      requires before <= after <= before + (set row | row in results :: row.storagePath)
      ensures after == before || |Live(start, w, after)| < |Live(start, w, before)|
    {
      LiveShrinks(start, w, before, after);
      if after != before {
        var p :| p in after && p !in before;
        var row :| row in results && row.storagePath == p;
        assert row in Live(start, w, before);
      }
    }

    static lemma SteadyRound(start: seq<Row>, w: Window, copyable: Row -> bool, before: set<Path>, after: set<Path>,
                             batchSize: nat, results: seq<Row>, prevResults: seq<Row>, newFound: bool)
      requires var live := Live(start, w, before); results == live[..Min(batchSize, |live|)]
      requires SteadyState(start, w, copyable, before, batchSize, prevResults, true)
      requires after == before + (set row | row in results && copyable(row) :: row.storagePath)
      requires newFound == (results != [] && prevResults != results)
      ensures SteadyState(start, w, copyable, after, batchSize, results, newFound)
    {
      forall c: set<Path> | Closed(start, w, copyable, batchSize, c) ensures after <= c {
        forall row | row in results && copyable(row) ensures row.storagePath in c {
          BatchIsInReach(start, w, copyable, before, batchSize, row, c);
        }
      }
      if !newFound {
        forall row | row in results ensures !copyable(row) {
          var i :| 0 <= i < |results| && results[i] == row;
          var k := LiveComesFrom(start, w, before, i);
        }
        assert after == before;
        StuckBatchMeansDone(start, w, copyable, before, batchSize);
      }
    }

    /**
     * Directory rows need no copying: the loop rewrites every legacy directory
     * row of the window and ends with none left.
     */
    method MigrateDirs(w: Window, batchSize: nat, target: Path -> Path, updateOk: (nat,
            nat) -> bool) returns (rounds: nat)
      requires LeavesLegacy(target) && batchSize > 0 && w.dir
      modifies this
      ensures rounds <= |Live(old(table), w, {})| + 1
      ensures (forall n, i :: updateOk(n, i)) ==> Live(table, w, {}) == []
    {
      ghost var start := table;
      ghost var moved;
      rounds, moved := MigrateWindow(w, batchSize, target, (n, row) => true, updateOk, row => true);
      if forall n, i :: updateOk(n, i) {
        NothingStuck(start, w, |start|);
        FewStuckRowsMoveEverything(start, w, row => true, batchSize, moved);
        LiveAfterRelocate(start, w, moved, target);
        NoneLive(start, w, moved);
      }
    }

    static lemma {:induction false} NoneLive(table: seq<Row>, w: Window, moved: set<Path>)
      requires forall k :: 0 <= k < |table| && w.Matches(table[k]) ==> table[k].storagePath in moved
      ensures Live(table, w, moved) == []
    {
      if table != [] {
        NoneLive(table[..|table| - 1], w, moved);
      }
    }

    static lemma {:induction false} NothingStuck(table: seq<Row>, w: Window, k: nat)
      requires k <= |table|
      ensures StuckBefore(table, w, row => true, {}, k) == 0
    {
      if k > 0 {
        NothingStuck(table, w, k - 1);
      }
    }
  }
}
