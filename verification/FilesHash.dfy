/**
 * The text that is hashed to compare two nodes' files for a user: the user's
 * multihashes in clock order, joined by commas. The md5 over it is left out.
 */
module FilesHash {
  import opened Util
  import opened Text

  type User = string

  /** The Files table; a user has at most one file per clock value. */
  type Files = map<(User, nat), string>

  datatype Lookup = ByUUID(user: User) | ByWallet(wallet: string) | Neither

  datatype HashResult = Hashed(preHash: Option<string>) | LookupError

  /** A clock above every file's. */
  function Bound(files: Files): (b: nat)
    ensures forall k :: k in files ==> k.1 < b
  {
    var clocks := set k | k in files :: k.1;
    assert forall k :: k in files ==> k.1 in clocks;
    MaxOf(clocks) + 1
  }

  /** The user's clock values from `lo` up to, not including, `hi`, ascending. */
  function Clocks(files: Files, user: User, lo: nat, hi: nat): seq<nat>
    decreases hi - lo
  {
    if lo >= hi then []
    else (if (user, lo) in files then [lo] else []) + Clocks(files, user, lo + 1, hi)
  }

  ghost predicate StrictlyAscending(s: seq<nat>) {
    forall i, j :: 0 <= i < j < |s| ==> s[i] < s[j]
  }

  lemma {:induction false} ClocksAreOrdered(files: Files, user: User, lo: nat, hi: nat)
    ensures StrictlyAscending(Clocks(files, user, lo, hi))
    ensures forall c :: c in Clocks(files, user, lo, hi) <==> lo <= c < hi && (user, c) in files
    decreases hi - lo
  {
    if lo < hi {
      ClocksAreOrdered(files, user, lo + 1, hi);
      var rest := Clocks(files, user, lo + 1, hi);
      assert forall i :: 0 <= i < |rest| ==> rest[i] in rest;
    }
  }

  /** The multihashes in that order. */
  function Listing(files: Files, user: User, lo: nat, hi: nat): seq<string>
    decreases hi - lo
  {
    if lo >= hi then []
    else (if (user, lo) in files then [files[(user, lo)]] else []) + Listing(files, user, lo + 1, hi)
  }

  lemma {:induction false} ListingFollowsClocks(files: Files, user: User, lo: nat, hi: nat)
    ensures |Listing(files, user, lo, hi)| == |Clocks(files, user, lo, hi)|
    ensures forall i :: 0 <= i < |Clocks(files, user, lo, hi)| ==>
              && (user, Clocks(files, user, lo, hi)[i]) in files
              && Listing(files, user, lo, hi)[i] == files[(user, Clocks(files, user, lo, hi)[i])]
    decreases hi - lo
  {
    if lo < hi {
      ListingFollowsClocks(files, user, lo + 1, hi);
    }
  }

  lemma {:induction false} ListingSplits(files: Files, user: User, a: nat, b: nat, c: nat)
    requires a <= b <= c
    ensures Listing(files, user, a, c) == Listing(files, user, a, b) + Listing(files, user, b, c)
    decreases b - a
  {
    if a < b {
      ListingSplits(files, user, a + 1, b, c);
    }
  }

  lemma {:induction false} NothingAboveBound(files: Files, user: User, lo: nat, hi: nat)
    requires lo >= Bound(files)
    ensures Listing(files, user, lo, hi) == []
    decreases hi - lo
  {
    if lo < hi {
      NothingAboveBound(files, user, lo + 1, hi);
    }
  }

  /** The rows a query selects. A bound of zero counts as no bound at all. */
  function Selected(files: Files, user: User, clockMin: Option<nat>, clockMax: Option<nat>): seq<string> {
    Listing(files, user,
            if clockMin.Some? then clockMin.value else 0,
            if clockMax.Some? && clockMax.value != 0 then clockMax.value else Bound(files))
  }

  /** string_agg: null for no rows. */
  function Aggregate(hashes: seq<string>): Option<string> {
    if hashes == [] then None else Some(Join(hashes, ','))
  }

  function UserOf(wallets: map<string, User>, lookup: Lookup): Option<User> {
    match lookup
    case ByUUID(u) => Some(u)
    case ByWallet(w) => if w in wallets then Some(wallets[w]) else None
    case Neither => None
  }

  /** The single-user query, without its md5; an unknown wallet selects nothing. */
  function FetchPreHash(files: Files, wallets: map<string, User>, lookup: Lookup,
                        clockMin: Option<nat>, clockMax: Option<nat>): HashResult {
    if lookup.Neither? then LookupError
    else
      var user := UserOf(wallets, lookup);
      Hashed(if user.Some? then Aggregate(Selected(files, user.value, clockMin, clockMax)) else None)
  }

  ghost predicate CommaFree(files: Files) {
    forall k :: k in files ==> ',' !in files[k]
  }

  lemma {:induction false} ListingIsCommaFree(files: Files, user: User, lo: nat, hi: nat)
    requires CommaFree(files)
    ensures forall h :: h in Listing(files, user, lo, hi) ==> ',' !in h
    decreases hi - lo
  {
    if lo < hi {
      ListingIsCommaFree(files, user, lo + 1, hi);
    }
  }

  lemma AggregateIsInjective(a: seq<string>, b: seq<string>)
    requires forall h :: h in a || h in b ==> ',' !in h
    ensures Aggregate(a) == Aggregate(b) <==> a == b
  {
    if a != [] {
      SplitUndoesJoin(a, ',');
    }
    if b != [] {
      SplitUndoesJoin(b, ',');
    }
  }

  /** Two users, on two nodes or one, have the same text to hash exactly when they have the same file sequence. */
  lemma SameTextIffSameFiles(f1: Files, u1: User, f2: Files, u2: User, clockMin: Option<nat>, clockMax: Option<nat>)
    requires CommaFree(f1) && CommaFree(f2)
    ensures FetchPreHash(f1, map[], ByUUID(u1), clockMin, clockMax)
         == FetchPreHash(f2, map[], ByUUID(u2), clockMin, clockMax)
       <==> Selected(f1, u1, clockMin, clockMax) == Selected(f2, u2, clockMin, clockMax)
  {
    var lo := if clockMin.Some? then clockMin.value else 0;
    ListingIsCommaFree(f1, u1, lo, if clockMax.Some? && clockMax.value != 0 then clockMax.value else Bound(f1));
    ListingIsCommaFree(f2, u2, lo, if clockMax.Some? && clockMax.value != 0 then clockMax.value else Bound(f2));
    AggregateIsInjective(Selected(f1, u1, clockMin, clockMax), Selected(f2, u2, clockMin, clockMax));
  }

  /** Texts of adjacent ranges, put together. */
  function Concatenate(a: Option<string>, b: Option<string>): Option<string> {
    if a.None? then b else if b.None? then a else Some(a.value + [','] + b.value)
  }

  lemma AggregateAppend(a: seq<string>, b: seq<string>)
    ensures Aggregate(a + b) == Concatenate(Aggregate(a), Aggregate(b))
  {
    if a == [] {
      assert a + b == b;
    } else if b == [] {
      assert a + b == a;
    } else {
      JoinAppend(a, b, ',');
    }
  }

  /** The ranges [a, b) and [b, c) compose to [a, c), and [a, b) with "from b on" to "from a on". */
  lemma AdjacentRangesCompose(files: Files, user: User, a: nat, b: nat, c: nat)
    requires a <= b <= c && 0 < b
    ensures Aggregate(Selected(files, user, Some(a), Some(c)))
         == Concatenate(Aggregate(Selected(files, user, Some(a), Some(b))),
                        Aggregate(Selected(files, user, Some(b), Some(c))))
    ensures Aggregate(Selected(files, user, Some(a), None))
         == Concatenate(Aggregate(Selected(files, user, Some(a), Some(b))),
                        Aggregate(Selected(files, user, Some(b), None)))
  {
    ListingSplits(files, user, a, b, c);
    AggregateAppend(Listing(files, user, a, b), Listing(files, user, b, c));
    var top := Bound(files);
    if b <= top {
      ListingSplits(files, user, a, b, top);
    } else {
      NothingAboveBound(files, user, top, b);
      NothingAboveBound(files, user, b, top);
      if a <= top {
        ListingSplits(files, user, a, top, b);
      } else {
        NothingAboveBound(files, user, a, b);
        NothingAboveBound(files, user, a, top);
      }
    }
    assert Listing(files, user, a, top) == Listing(files, user, a, b) + Listing(files, user, b, top);
    AggregateAppend(Listing(files, user, a, b), Listing(files, user, b, top));
  }

  /**
   * The composition does need a middle bound above zero: an upper bound of zero is
   * dropped, so [0, 0) selects everything and composing doubles it, unless the
   * user has no files.
   */
  lemma ZeroUpperBoundIsDropped(files: Files, user: User)
    ensures Selected(files, user, Some(0), Some(0)) == Selected(files, user, None, None)
    ensures Selected(files, user, Some(0), Some(0)) + Selected(files, user, Some(0), None)
         == Selected(files, user, Some(0), None)
       <==> Selected(files, user, None, None) == []
  {
    var all := Selected(files, user, None, None);
    assert |all + all| == 2 * |all|;
  }

  /** All users' texts in one grouped query: null first, then whatever groups come back. */
  method FetchPreHashes(files: Files, users: seq<User>) returns (r: map<User, Option<string>>)
    ensures r.Keys == Elems(users)
    ensures forall u :: u in r ==> Hashed(r[u]) == FetchPreHash(files, map[], ByUUID(u), None, None)
  {
    r := map[];
    for i := 0 to |users|
      invariant r.Keys == Elems(users[..i]) && forall u :: u in r ==> r[u] == None
    {
      ElemsTake(users, i);
      r := r[users[i] := None];
    }
    assert users[..|users|] == users;
    if |users| == 0 {
      return;
    }
    var groups := SetToSeq(set k | k in files && k.0 in users :: k.0);
    for i := 0 to |groups|
      invariant r.Keys == Elems(users)
      invariant forall u :: u in r ==>
          r[u] == if u in groups[..i] then Aggregate(Selected(files, u, None, None)) else None
    {
      ElemsTake(groups, i);
      assert groups[i] in Elems(groups);
      r := r[groups[i] := Aggregate(Listing(files, groups[i], 0, Bound(files)))];
    }
    assert groups[..|groups|] == groups;
    forall u | u in r ensures Hashed(r[u]) == FetchPreHash(files, map[], ByUUID(u), None, None) {
      if u !in groups {
        assert u !in Elems(groups);
        ClocksAreOrdered(files, u, 0, Bound(files));
        ListingFollowsClocks(files, u, 0, Bound(files));
        NoFilesNoClocks(files, u, 0, Bound(files));
      }
    }
  }

  lemma {:induction false} NoFilesNoClocks(files: Files, user: User, lo: nat, hi: nat)
    requires forall k :: k in files ==> k.0 != user
    ensures Listing(files, user, lo, hi) == []
    decreases hi - lo
  {
    if lo < hi {
      NoFilesNoClocks(files, user, lo + 1, hi);
    }
  }
}
