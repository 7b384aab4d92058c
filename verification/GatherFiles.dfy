/**
 * Collecting the file paths that only one user needs, page by page.
 *
 * A storage path is named by its rank in the database's path order: 0 is the
 * first page token (a space, below every path).
 */
module GatherFiles {
  import opened Util

  type Path = nat
  datatype FileRow = FileRow(owner: string, path: Path)

  /** Rows of other users share the path with nobody: only `user` needs it. */
  predicate Exclusive(files: seq<FileRow>, user: string, p: Path) {
    FileRow(user, p) in files && forall row :: row in files && row.path == p ==> row.owner == user
  }

  ghost predicate Ascending(s: seq<Path>) {
    forall i, j :: 0 <= i < j < |s| ==> s[i] <= s[j]
  }

  ghost predicate StrictlyAscending(s: seq<Path>) {
    forall i, j :: 0 <= i < j < |s| ==> s[i] < s[j]
  }

  // -------------------------------------------------- the user's rows, ordered

  function Insert(p: Path, s: seq<Path>): (r: seq<Path>)
    ensures r != [] && (r[0] == p || (s != [] && r[0] == s[0]))
  {
    if s == [] || p <= s[0] then [p] + s else [s[0]] + Insert(p, s[1..])
  }

  /** ORDER BY storagePath ASC over the user's rows; duplicates stay. */
  function SortedPaths(files: seq<FileRow>, user: string): seq<Path> {
    if files == [] then []
    else
      var rest := SortedPaths(files[1..], user);
      if files[0].owner == user then Insert(files[0].path, rest) else rest
  }

  lemma {:induction false} InsertKeepsOrder(p: Path, s: seq<Path>)
    requires Ascending(s)
    ensures Ascending(Insert(p, s))
  {
    if s == [] || p <= s[0] {
    } else {
      InsertKeepsOrder(p, s[1..]);
    }
  }

  lemma {:induction false} InsertAddsOne(p: Path, s: seq<Path>)
    ensures multiset(Insert(p, s)) == multiset(s) + multiset{p}
  {
    if s != [] && p > s[0] {
      InsertAddsOne(p, s[1..]);
      assert s == [s[0]] + s[1..];
    }
  }

  lemma {:induction false} SortedPathsAscend(files: seq<FileRow>, user: string)
    ensures Ascending(SortedPaths(files, user))
  {
    if files != [] {
      SortedPathsAscend(files[1..], user);
      InsertKeepsOrder(files[0].path, SortedPaths(files[1..], user));
    }
  }

  lemma {:induction false} SortedPathsCounts(files: seq<FileRow>, user: string, p: Path)
    ensures multiset(SortedPaths(files, user))[p] == multiset(files)[FileRow(user, p)]
  {
    if files != [] {
      var rest := files[1..];
      SortedPathsCounts(rest, user, p);
      InsertAddsOne(files[0].path, SortedPaths(rest, user));
      assert multiset(files) == multiset{files[0]} + multiset(rest) by {
        assert files == [files[0]] + rest;
      }
    }
  }

  /** The ordering query returns the user's paths, in order, each as often as it has rows. */
  lemma SortedPathsOrdersTheRows(files: seq<FileRow>, user: string)
    ensures Ascending(SortedPaths(files, user))
    ensures forall p :: multiset(SortedPaths(files, user))[p] == multiset(files)[FileRow(user, p)]
    ensures forall p :: p in SortedPaths(files, user) <==> FileRow(user, p) in files
  {
    SortedPathsAscend(files, user);
    forall p
      ensures multiset(SortedPaths(files, user))[p] == multiset(files)[FileRow(user, p)]
      ensures p in SortedPaths(files, user) <==> FileRow(user, p) in files
    {
      SortedPathsCounts(files, user, p);
      assert p in SortedPaths(files, user) <==> p in multiset(SortedPaths(files, user));
      assert FileRow(user, p) in files <==> FileRow(user, p) in multiset(files);
    }
  }

  /** How many rows come before path `p`. */
  function Position(rows: seq<Path>, p: Path): nat {
    if rows == [] || rows[0] >= p then 0 else 1 + Position(rows[1..], p)
  }

  lemma {:induction false} PositionSplits(rows: seq<Path>, p: Path)
    requires Ascending(rows)
    ensures Position(rows, p) <= |rows|
    ensures forall i :: 0 <= i < Position(rows, p) ==> rows[i] < p
    ensures forall i :: Position(rows, p) <= i < |rows| ==> p <= rows[i]
    ensures p in rows ==> Position(rows, p) < |rows| && rows[Position(rows, p)] == p
  {
    if rows != [] && rows[0] < p {
      PositionSplits(rows[1..], p);
      assert rows == [rows[0]] + rows[1..];
    }
  }

  lemma PositionMonotone(rows: seq<Path>, p: Path, q: Path)
    requires Ascending(rows) && p <= q
    ensures Position(rows, p) <= Position(rows, q)
  {
    PositionSplits(rows, p);
    PositionSplits(rows, q);
  }

  /** The first `size` rows with a path at or after the token. */
  function Page(rows: seq<Path>, token: Path, size: nat): seq<Path> {
    var start := Min(Position(rows, token), |rows|);
    rows[start..Min(start + size, |rows|)]
  }

  lemma OnPage(rows: seq<Path>, token: Path, size: nat, p: Path)
    requires Ascending(rows)
    ensures p in Page(rows, token, size)
       <==> p in rows && token <= p && Position(rows, p) < Position(rows, token) + size
  {
    PositionSplits(rows, token);
    PositionSplits(rows, p);
    var start := Position(rows, token);
    if p in rows && token <= p && Position(rows, p) < start + size {
      assert rows[start..Min(start + size, |rows|)][Position(rows, p) - start] == p;
    }
  }

  /** Paths in [lo, hi] that exactly one user references, in order. */
  function UniqueInRange(files: seq<FileRow>, lo: Path, hi: Path): seq<Path>
    decreases hi + 1 - lo
  {
    if lo > hi then []
    else (if OneOwner(files, lo) then [lo] else []) + UniqueInRange(files, lo + 1, hi)
  }

  /** COUNT(DISTINCT owner) = 1 for the group of this path. */
  predicate OneOwner(files: seq<FileRow>, p: Path) {
    exists i :: 0 <= i < |files| && files[i].path == p && Exclusive(files, files[i].owner, p)
  }

  lemma StrictCons(p: Path, s: seq<Path>)
    requires StrictlyAscending(s) && forall x :: x in s ==> p < x
    ensures StrictlyAscending([p] + s)
  {
    forall i, j | 0 <= i < j < |s| + 1 ensures ([p] + s)[i] < ([p] + s)[j] {
      assert s[j - 1] in s;
    }
  }

  lemma StrictSnoc(s: seq<Path>, p: Path)
    requires StrictlyAscending(s) && forall x :: x in s ==> x < p
    ensures StrictlyAscending(s + [p])
  {
    forall i, j | 0 <= i < j < |s| + 1 ensures (s + [p])[i] < (s + [p])[j] {
      assert s[i] in s;
    }
  }

  lemma {:induction false} UniqueInRangeLists(files: seq<FileRow>, lo: Path, hi: Path)
    ensures StrictlyAscending(UniqueInRange(files, lo, hi))
    ensures forall p :: p in UniqueInRange(files, lo, hi) <==> lo <= p <= hi && OneOwner(files, p)
    decreases hi + 1 - lo
  {
    if lo <= hi {
      UniqueInRangeLists(files, lo + 1, hi);
      var rest := UniqueInRange(files, lo + 1, hi);
      StrictCons(lo, rest);
      if OneOwner(files, lo) {
        assert UniqueInRange(files, lo, hi) == [lo] + rest;
      } else {
        assert UniqueInRange(files, lo, hi) == rest;
      }
    }
  }

  /** What a page yields: its paths that nobody else needs. */
  ghost predicate IsExclusivePage(files: seq<FileRow>, user: string, token: Path, size: nat, found: seq<Path>) {
    && StrictlyAscending(found)
    && forall p :: p in found <==>
        && Exclusive(files, user, p)
        && token <= p
        && Position(SortedPaths(files, user), p) < Position(SortedPaths(files, user), token) + size
  }

  method GetCNodeUserFiles(files: seq<FileRow>, user: string, token: Path, batchSize: nat) returns (found: seq<Path>)
    ensures IsExclusivePage(files, user, token, batchSize, found)
  {
    var rows := SortedPaths(files, user);
    var userFiles := Page(rows, token, batchSize);
    found := [];
    if |userFiles| == 0 {
      PageShows(files, user, token, batchSize);
      return;
    }
    var unique := UniqueInRange(files, userFiles[0], userFiles[|userFiles| - 1]);
    UniqueInRangeLists(files, userFiles[0], userFiles[|userFiles| - 1]);
    for i := 0 to |unique|
      invariant Common(unique, i, userFiles, found)
    {
      CommonStep(unique, i, userFiles, found);
      if unique[i] in userFiles {
        found := found + [unique[i]];
      }
    }
    assert unique[..|unique|] == unique;
    CommonPathsAreExclusive(files, user, token, batchSize, found);
  }

  /** The first `i` of the unique paths that are on the page, in order. */
  ghost predicate Common(unique: seq<Path>, i: nat, page: seq<Path>, found: seq<Path>) {
    && i <= |unique|
    && StrictlyAscending(found)
    && forall p :: p in found <==> p in unique[..i] && p in page
  }

  lemma CommonStep(unique: seq<Path>, i: nat, page: seq<Path>, found: seq<Path>)
    requires StrictlyAscending(unique) && i < |unique| && Common(unique, i, page, found)
    ensures Common(unique, i + 1, page, if unique[i] in page then found + [unique[i]] else found)
  {
    var p := unique[i];
    assert unique[..i + 1] == unique[..i] + [p];
    forall x | x in found ensures x < p {
      var j :| 0 <= j < i && unique[j] == x;
    }
    StrictSnoc(found, p);
  }

  /** Paths both on the page and referenced by one user only are this user's alone. */
  lemma CommonPathsAreExclusive(files: seq<FileRow>, user: string, token: Path, size: nat, found: seq<Path>)
    requires var page := Page(SortedPaths(files, user), token, size);
      && page != []
      && forall p :: p in found <==> p in UniqueInRange(files, page[0], page[|page| - 1]) && p in page
    requires StrictlyAscending(found)
    ensures IsExclusivePage(files, user, token, size, found)
  {
    var page := Page(SortedPaths(files, user), token, size);
    PageShows(files, user, token, size);
    UniqueInRangeLists(files, page[0], page[|page| - 1]);
    forall p ensures p in found <==> p in page && Exclusive(files, user, p) {
      if p in page {
        OneOwnerIsThisOne(files, user, p);
      }
    }
  }

  lemma OneOwnerIsThisOne(files: seq<FileRow>, user: string, p: Path)
    requires FileRow(user, p) in files
    ensures OneOwner(files, p) <==> Exclusive(files, user, p)
  {
    var i :| 0 <= i < |files| && files[i] == FileRow(user, p);
  }

  /** A page lists the user's paths from the token on, in row order, as far as it is long. */
  lemma PageShows(files: seq<FileRow>, user: string, token: Path, size: nat)
    ensures var rows := SortedPaths(files, user);
      && Ascending(Page(rows, token, size))
      && forall p :: p in Page(rows, token, size) <==>
           FileRow(user, p) in files && token <= p && Position(rows, p) < Position(rows, token) + size
  {
    var rows := SortedPaths(files, user);
    SortedPathsOrdersTheRows(files, user);
    forall p ensures p in Page(rows, token, size) <==>
           FileRow(user, p) in files && token <= p && Position(rows, p) < Position(rows, token) + size
    {
      OnPage(rows, token, size, p);
    }
  }

  // ------------------------------------------------------- what gets collected

  ghost function ExclusivePaths(files: seq<FileRow>, user: string): set<Path> {
    set row | row in files && Exclusive(files, user, row.path) :: row.path
  }

  /**
   * Some page shows the path: the first page, or the page that starts at an
   * exclusive path before it.
   */
  ghost predicate Linked(files: seq<FileRow>, user: string, size: nat, p: Path) {
    var rows := SortedPaths(files, user);
    || Position(rows, p) < size
    || exists e :: e in ExclusivePaths(files, user) && e < p && Position(rows, p) < Position(rows, e) + size
  }

  /** The exclusive paths up to the first one that no page links. */
  ghost function Reached(files: seq<FileRow>, user: string, size: nat): set<Path> {
    set p | p in ExclusivePaths(files, user)
            && forall q :: q in ExclusivePaths(files, user) && q <= p ==> Linked(files, user, size, q)
  }

  /** The first exclusive path is among the first `size` rows. */
  ghost predicate FirstFits(files: seq<FileRow>, user: string, size: nat) {
    forall p :: p in ExclusivePaths(files, user) && (forall q :: q in ExclusivePaths(files, user) ==> p <= q)
      ==> Position(SortedPaths(files, user), p) < size
  }

  ghost predicate Consecutive(s: set<Path>, e: Path, p: Path) {
    e in s && p in s && e < p && forall q :: q in s ==> q <= e || p <= q
  }

  /** Fewer than `size` rows lie from each exclusive path to the next. */
  ghost predicate GapsFit(files: seq<FileRow>, user: string, size: nat) {
    forall e, p :: Consecutive(ExclusivePaths(files, user), e, p)
      ==> Position(SortedPaths(files, user), p) < Position(SortedPaths(files, user), e) + size
  }

  /**
   * Gathering is complete if and only if the first exclusive path lies in the
   * first page and consecutive ones are fewer than one page of rows apart.
   */
  lemma CompleteIffGapsFit(files: seq<FileRow>, user: string, size: nat)
    ensures Reached(files, user, size) == ExclusivePaths(files, user)
       <==> FirstFits(files, user, size) && GapsFit(files, user, size)
  {
    var all := ExclusivePaths(files, user);
    if FirstFits(files, user, size) && GapsFit(files, user, size) {
      forall p | p in all ensures Linked(files, user, size, p) {
        FittingIsLinked(files, user, size, p);
      }
    }
    if Reached(files, user, size) == all {
      forall p | p in all ensures Linked(files, user, size, p) {
        assert p in Reached(files, user, size);
      }
      forall e, p | Consecutive(all, e, p)
        ensures Position(SortedPaths(files, user), p) < Position(SortedPaths(files, user), e) + size
      {
        LinkedFits(files, user, size, e, p);
      }
    }
  }

  /** A path has a next smaller one in the set, or it is the smallest. */
  lemma Predecessor(s: set<Path>, p: Path) returns (e: Option<Path>)
    requires p in s
    ensures e.Some? ==> Consecutive(s, e.value, p)
    ensures e.None? ==> forall q :: q in s ==> p <= q
  {
    var below := set q | q in s && q < p;
    if below == {} {
      e := None;
      forall q | q in s ensures p <= q {
        assert q !in below;
      }
    } else {
      e := Some(MaxOf(below));
      forall q | q in s ensures q <= e.value || p <= q {
        assert q < p ==> q in below;
      }
    }
  }

  lemma FittingIsLinked(files: seq<FileRow>, user: string, size: nat, p: Path)
    requires p in ExclusivePaths(files, user) && FirstFits(files, user, size) && GapsFit(files, user, size)
    ensures Linked(files, user, size, p)
  {
    var e := Predecessor(ExclusivePaths(files, user), p);
    if e.Some? {
      assert e.value in ExclusivePaths(files, user) && e.value < p;
    }
  }

  lemma LinkedFits(files: seq<FileRow>, user: string, size: nat, e: Path, p: Path)
    requires Consecutive(ExclusivePaths(files, user), e, p) && Linked(files, user, size, p)
    ensures Position(SortedPaths(files, user), p) < Position(SortedPaths(files, user), e) + size
  {
    var rows := SortedPaths(files, user);
    SortedPathsAscend(files, user);
    if Position(rows, p) >= size {
      var e' :| e' in ExclusivePaths(files, user) && e' < p && Position(rows, p) < Position(rows, e') + size;
      PositionMonotone(rows, e', e);
    }
  }

  /**
   * With a page of one row the loop cannot end once it has found a path: the
   * page at that path is full and brings nothing new, for ever.
   */
  lemma SingleRowPagesRepeat(files: seq<FileRow>, user: string, p: Path)
    requires Exclusive(files, user, p)
    ensures Page(SortedPaths(files, user), p, 1) == [p]
  {
    SortedPathsOrdersTheRows(files, user);
    PositionSplits(SortedPaths(files, user), p);
  }

  lemma {:induction false} LeastOf(s: set<Path>) returns (m: Path)
    requires s != {}
    ensures m in s && forall x :: x in s ==> m <= x
  {
    var x :| x in s;
    var rest := s - {x};
    assert s == rest + {x};
    m := x;
    if rest != {} {
      var r := LeastOf(rest);
      m := if r < x then r else x;
    }
  }

  /** Between rounds: everything exclusive up to the token is in, and was linked. */
  ghost predicate Progress(files: seq<FileRow>, user: string, size: nat, token: Path, got: set<Path>) {
    && got == (set p | p in ExclusivePaths(files, user) && (p <= token && got != {}))
    && (got == {} ==> token == 0)
    && (got != {} ==> token in got)
    && forall q :: q in got ==> Linked(files, user, size, q)
  }

  /** A page has every exclusive path from the token to its last one, and no other. */
  lemma PageIsStretch(files: seq<FileRow>, user: string, token: Path, size: nat, page: seq<Path>)
    requires IsExclusivePage(files, user, token, size, page) && page != []
    ensures forall p :: p in page <==> p in ExclusivePaths(files, user) && token <= p <= page[|page| - 1]
  {
    SortedPathsAscend(files, user);
    var rows, last := SortedPaths(files, user), page[|page| - 1];
    assert last in page;
    forall p ensures p in page <==> p in ExclusivePaths(files, user) && token <= p <= last {
      if p in page {
        var k :| 0 <= k < |page| && page[k] == p;
      } else if p <= last {
        PositionMonotone(rows, p, last);
      }
    }
  }

  lemma PageIsLinked(files: seq<FileRow>, user: string, token: Path, size: nat, page: seq<Path>, q: Path)
    requires IsExclusivePage(files, user, token, size, page) && q in page
    requires token == 0 || (token in ExclusivePaths(files, user) && token < q)
    ensures Linked(files, user, size, q)
  {
    assert Position(SortedPaths(files, user), 0) == 0;
  }

  lemma RoundKeepsProgress(files: seq<FileRow>, user: string, size: nat, token: Path, got: set<Path>, page: seq<Path>)
    requires Progress(files, user, size, token, got)
    requires IsExclusivePage(files, user, token, size, page) && page != []
    ensures Progress(files, user, size, page[|page| - 1], got + Elems(page))
    ensures |page| >= 2 ==> page[|page| - 1] !in got
  {
    PageIsStretch(files, user, token, size, page);
    var last := page[|page| - 1];
    assert last in page && last in Elems(page);
    forall q | q in page && q !in got ensures Linked(files, user, size, q) {
      PageIsLinked(files, user, token, size, page, q);
    }
    if |page| >= 2 {
      assert page[0] in page;
    }
  }

  /** The first path missing would have been linked, and so on this page. */
  lemma FirstMissingIsOnPage(files: seq<FileRow>, user: string, size: nat, token: Path, got: set<Path>,
          page: seq<Path>, q: Path)
    requires Progress(files, user, size, token, got)
    requires IsExclusivePage(files, user, token, size, page)
    requires q in ExclusivePaths(files, user) && q !in got && Linked(files, user, size, q)
    requires forall e :: e in ExclusivePaths(files, user) && e < q ==> e in got
    ensures q in page
  {
    var rows := SortedPaths(files, user);
    SortedPathsAscend(files, user);
    if Position(rows, q) >= size {
      var e :| e in ExclusivePaths(files, user) && e < q && Position(rows, q) < Position(rows, e) + size;
      PositionMonotone(rows, e, token);
    }
  }

  lemma LastRoundHasReachedAll(files: seq<FileRow>, user: string, size: nat, token: Path, got: set<Path>,
          page: seq<Path>)
    requires Progress(files, user, size, token, got)
    requires IsExclusivePage(files, user, token, size, page)
    requires Elems(page) <= got
    ensures got == Reached(files, user, size)
  {
    forall m | m in Reached(files, user, size) ensures m in got {
      if m !in got {
        var q := FirstMissing(ExclusivePaths(files, user), got, m);
        FirstMissingIsOnPage(files, user, size, token, got, page, q);
      }
    }
  }

  lemma FirstMissing(all: set<Path>, got: set<Path>, m: Path) returns (q: Path)
    requires m in all && m !in got
    ensures q in all && q !in got && q <= m
    ensures forall e :: e in all && e < q ==> e in got
  {
    var missing := set x | x in all && x <= m && x !in got;
    assert m in missing;
    q := LeastOf(missing);
    forall e | e in all && e < q ensures e in got {
      assert e !in missing;
    }
  }

  /** The Redis set that keeps the paths to delete for one wallet. */
  class PathsToDelete {
    var paths: set<Path>

    constructor ()
      ensures paths == {}
    {
      paths := {};
    }

    method Sadd(found: seq<Path>) returns (added: nat)
      modifies this
      ensures paths == old(paths) + Elems(found)
      ensures added == |paths| - |old(paths)|
      ensures added == 0 <==> Elems(found) <= old(paths)
    {
      var before := paths;
      paths := paths + Elems(found);
      assert paths == before + (Elems(found) - before);
      added := |paths| - |before|;
      if Elems(found) - before == {} {
        NothingLeftMeansSubset(Elems(found), before);
      }
    }

    /** Collects page by page until a page is not full and brings nothing new. */
    method Gather(files: seq<FileRow>, user: Option<string>, filesPerQuery: nat) returns (count: nat)
      requires filesPerQuery >= 2
      modifies this
      ensures count == |paths|
      ensures user.None? ==> paths == {}
      ensures user.Some? ==> paths == Reached(files, user.value, filesPerQuery)
      ensures user.Some? ==> forall p :: p in paths ==> Exclusive(files, user.value, p)
    {
      paths := {};
      if user.None? {
        return 0;
      }
      var token := 0;
      var more := true;
      ghost var all := ExclusivePaths(files, user.value);
      while more
        invariant Progress(files, user.value, filesPerQuery, token, paths) && paths <= all
        invariant !more ==> paths == Reached(files, user.value, filesPerQuery)
        decreases all - paths, more
      {
        ghost var before := paths;
        var page := GetCNodeUserFiles(files, user.value, token, filesPerQuery);
        var added := 0;
        if |page| > 0 {
          RoundKeepsProgress(files, user.value, filesPerQuery, token, paths, page);
          assert page[|page| - 1] in Elems(page);
          added := Sadd(page);
          if added == 0 {
            assert paths == before;
            LastRoundHasReachedAll(files, user.value, filesPerQuery, token, paths, page);
          } else {
            assert all - paths < all - before;
          }
          token := page[|page| - 1];
        } else {
          LastRoundHasReachedAll(files, user.value, filesPerQuery, token, paths, page);
        }
        more := |page| == filesPerQuery || added > 0;
      }
      count := |paths|;
    }
  }
}
