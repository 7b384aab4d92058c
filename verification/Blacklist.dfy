/**
 * The blacklist index: Redis sets that shadow what the ContentBlacklist,
 * Tracks, AudiusUsers and Files tables imply, and the two caches that
 * `isServable` fills.
 *
 * The first half defines what the tables imply and what each kind of step may
 * do to the index; the class at the end is the stepwise code, proved against
 * those definitions.
 */
module Blacklist {
  import opened Util

  type Cid = string
  type BlockchainId = int

  /** `segments` is None when metadataJSON or its track_segments is missing. */
  datatype Track = Track(blockchainId: BlockchainId, owner: string, segments: Option<seq<Cid>>)
  datatype AudiusUser = AudiusUser(blockchainId: BlockchainId, owner: string)
  datatype FileRow = FileRow(trackId: Option<BlockchainId>, multihash: Cid, fileType: string)

  datatype Tables = Tables(tracks: seq<Track>, users: seq<AudiusUser>, files: seq<FileRow>, whitelist: set<Cid>)

  /** A row of ContentBlacklist. */
  datatype Entry = UserEntry(user: BlockchainId) | TrackEntry(track: BlockchainId) | CidEntry(cid: Cid)

  // ---------------------------------------------------------------- index

  /** The three Redis blacklist sets. */
  datatype Index = Index(tracks: set<BlockchainId>, users: set<BlockchainId>, cids: set<Cid>) {
    function Union(that: Index): Index {
      Index(tracks + that.tracks, users + that.users, cids + that.cids)
    }
    function Minus(that: Index): Index {
      Index(tracks - that.tracks, users - that.users, cids - that.cids)
    }
    function Meet(that: Index): Index {
      Index(tracks * that.tracks, users * that.users, cids * that.cids)
    }
    predicate Within(that: Index) {
      tracks <= that.tracks && users <= that.users && cids <= that.cids
    }
  }

  const EMPTY_INDEX := Index({}, {}, {})

  ghost predicate OwnedByOneOf(t: Tables, owner: string, ids: set<BlockchainId>) {
    exists u :: u in t.users && u.blockchainId in ids && u.owner == owner
  }

  /** The tracks of the users with the given ids. */
  ghost function TracksOfUsers(t: Tables, ids: set<BlockchainId>): set<BlockchainId> {
    set tr | tr in t.tracks && OwnedByOneOf(t, tr.owner, ids) :: tr.blockchainId
  }

  predicate SegmentListed(whitelist: set<Cid>, cid: Cid) {
    cid != "" && cid !in whitelist
  }

  predicate FileListed(whitelist: set<Cid>, f: FileRow) {
    f.fileType == "track" || f.fileType == "copy320" || f.multihash !in whitelist
  }

  ghost function SegmentCids(tracks: seq<Track>, ids: set<BlockchainId>, whitelist: set<Cid>): set<Cid> {
    set tr, c | tr in tracks && tr.blockchainId in ids && tr.segments.Some? && c in tr.segments.value
                && SegmentListed(whitelist, c) :: c
  }

  ghost function FileCids(files: seq<FileRow>, ids: set<BlockchainId>, whitelist: set<Cid>): set<Cid> {
    set f | f in files && f.trackId.Some? && f.trackId.value in ids && FileListed(whitelist, f) :: f.multihash
  }

  /** The CIDs the given tracks stand for: their segments and their Files rows. */
  ghost function CidsOfTracks(t: Tables, ids: set<BlockchainId>): set<Cid> {
    SegmentCids(t.tracks, ids, t.whitelist) + FileCids(t.files, ids, t.whitelist)
  }

  ghost function UserIds(es: set<Entry>): set<BlockchainId> {
    set e | e in es && e.UserEntry? :: e.user
  }

  ghost function TrackIdsIn(es: set<Entry>): set<BlockchainId> {
    set e | e in es && e.TrackEntry? :: e.track
  }

  ghost function CidsIn(es: set<Entry>): set<Cid> {
    set e | e in es && e.CidEntry? :: e.cid
  }

  ghost function AllTrackIds(t: Tables, es: set<Entry>): set<BlockchainId> {
    TrackIdsIn(es) + TracksOfUsers(t, UserIds(es))
  }

  /** Everything a set of ContentBlacklist rows implies for the Redis sets. */
  ghost function Footprint(t: Tables, es: set<Entry>): Index {
    Index(AllTrackIds(t, es),
          UserIds(es),
          CidsIn(es) + CidsOfTracks(t, AllTrackIds(t, es)))
  }

  lemma TracksOfUsersAdditive(t: Tables, a: set<BlockchainId>, b: set<BlockchainId>)
    ensures TracksOfUsers(t, a + b) == TracksOfUsers(t, a) + TracksOfUsers(t, b)
  {
    forall owner | OwnedByOneOf(t, owner, a) || OwnedByOneOf(t, owner, b)
      ensures OwnedByOneOf(t, owner, a + b)
    {
      var u :| u in t.users && (u.blockchainId in a || u.blockchainId in b) && u.owner == owner;
      assert u.blockchainId in a + b;
    }
  }

  lemma CidsOfTracksAdditive(t: Tables, a: set<BlockchainId>, b: set<BlockchainId>)
    ensures CidsOfTracks(t, a + b) == CidsOfTracks(t, a) + CidsOfTracks(t, b)
  {}

  /** Footprints compose: rows added together imply what they imply apart. */
  lemma FootprintAdditive(t: Tables, a: set<Entry>, b: set<Entry>)
    ensures Footprint(t, a + b) == Footprint(t, a).Union(Footprint(t, b))
  {
    assert UserIds(a + b) == UserIds(a) + UserIds(b);
    TracksOfUsersAdditive(t, UserIds(a), UserIds(b));
    assert TrackIdsIn(a + b) == TrackIdsIn(a) + TrackIdsIn(b);
    assert AllTrackIds(t, a + b) == AllTrackIds(t, a) + AllTrackIds(t, b);
    CidsOfTracksAdditive(t, AllTrackIds(t, a), AllTrackIds(t, b));
    assert CidsIn(a + b) == CidsIn(a) + CidsIn(b);
  }

  /** What is left after removing rows covers everything but the removed footprint. */
  lemma FootprintSplit(t: Tables, all: set<Entry>, gone: set<Entry>)
    ensures Footprint(t, all).Within(Footprint(t, all - gone).Union(Footprint(t, gone)))
    ensures Footprint(t, all - gone).Within(Footprint(t, all))
  {
    FootprintAdditive(t, all - gone, gone);
    FootprintAdditive(t, all, all - gone);
    FootprintAdditive(t, all, (all - gone) + gone);
    assert all + ((all - gone) + gone) == (all - gone) + gone;
    assert all + (all - gone) == all;
  }

  // ----------------------------------------------------------------- runs

  datatype State = State(entries: set<Entry>, index: Index)

  /**
   * `clean` says that no SADD of the step failed; `done` says how many of the
   * three SREMs, on tracks, users and CIDs in this order, took effect.
   */
  datatype Event =
    | Added(rows: set<Entry>, clean: bool)
    | Removed(rows: set<Entry>, done: nat)
    | Resynced(clean: bool)

  /** The part of a footprint that the first `done` SREMs take out. */
  function Cleaned(fp: Index, done: nat): Index {
    Index(if done >= 1 then fp.tracks else {}, if done >= 2 then fp.users else {}, if done >= 3 then fp.cids else {})
  }

  /** The part that stays behind when only the first `done` SREMs took effect. */
  function Left(fp: Index, done: nat): Index {
    Index(if done >= 1 then {} else fp.tracks, if done >= 2 then {} else fp.users, if done >= 3 then {} else fp.cids)
  }

  predicate RemovesAll(ev: Event) {
    ev.Removed? ==> ev.done >= 3
  }

  /** The rows whose footprint a step writes. */
  ghost function Written(s: State, ev: Event): set<Entry> {
    if ev.Resynced? then s.entries else ev.rows
  }

  /** What a step may do: a failed SADD leaves any part of its effect undone. */
  ghost predicate Step(t: Tables, s: State, ev: Event, s': State) {
    var fp := Footprint(t, Written(s, ev));
    match ev
    case Added(rows, clean) =>
      && s'.entries == s.entries + rows
      && s.index.Within(s'.index) && s'.index.Within(s.index.Union(fp))
      && (clean ==> s'.index == s.index.Union(fp))
    case Removed(rows, done) =>
      && s'.entries == s.entries - rows
      && s'.index == s.index.Minus(Cleaned(fp, done))
    case Resynced(clean) =>
      && s'.entries == s.entries
      && s.index.Within(s'.index) && s'.index.Within(s.index.Union(fp))
      && (clean ==> s'.index == s.index.Union(fp))
  }

  ghost predicate Run(t: Tables, states: seq<State>, events: seq<Event>) {
    && |states| == |events| + 1
    && forall i :: 0 <= i < |events| ==> Step(t, states[i], events[i], states[i + 1])
  }

  /** The index holds nothing that the tables do not imply. */
  ghost predicate Sound(t: Tables, s: State) {
    s.index.Within(Footprint(t, s.entries))
  }

  ghost predicate Exact(t: Tables, s: State) {
    s.index == Footprint(t, s.entries)
  }

  /** What the tables imply and the index misses. */
  ghost function Missing(t: Tables, s: State): Index {
    Footprint(t, s.entries).Minus(s.index)
  }

  lemma StepKeepsSound(t: Tables, s: State, ev: Event, s': State)
    requires Step(t, s, ev, s') && Sound(t, s)
    requires RemovesAll(ev)
    ensures Sound(t, s')
  {
    match ev
    case Added(rows, _) => FootprintAdditive(t, s.entries, rows);
    case Removed(rows, _) => FootprintSplit(t, s.entries, rows);
    case Resynced(_) =>
  }

  /**
   * On every run in which removals complete, even when adds and resyncs lose
   * some of their writes, no index set ever holds more than the tables imply.
   */
  lemma {:induction false} RunKeepsSound(t: Tables, states: seq<State>, events: seq<Event>)
    requires Run(t, states, events) && Sound(t, states[0])
    requires forall ev :: ev in events ==> RemovesAll(ev)
    ensures forall i :: 0 <= i < |states| ==> Sound(t, states[i])
  {
    if |events| > 0 {
      var last := |events| - 1;
      assert events[..last] <= events;
      RunKeepsSound(t, states[..last + 1], events[..last]);
      assert Sound(t, states[..last + 1][last]);
      assert events[last] in events;
      StepKeepsSound(t, states[last], events[last], states[last + 1]);
      forall i | 0 <= i < |states| ensures Sound(t, states[i]) {
        if i < last + 1 {
          assert states[i] == states[..last + 1][i];
        }
      }
    }
  }

  /** A clean add misses what was missing before, less what it wrote. */
  lemma MissingAfterAdd(t: Tables, s: State, rows: set<Entry>, s': State)
    requires Step(t, s, Added(rows, true), s')
    ensures Missing(t, s') == Missing(t, s).Minus(Footprint(t, rows))
    ensures Exact(t, s) ==> Exact(t, s')
  {
    FootprintAdditive(t, s.entries, rows);
  }

  /**
   * A clean removal under-approximates: it drops exactly the removed footprint,
   * including what the remaining rows still imply.
   */
  lemma MissingAfterRemove(t: Tables, s: State, rows: set<Entry>, s': State)
    requires Step(t, s, Removed(rows, 3), s') && Sound(t, s)
    ensures Missing(t, s')
         == Footprint(t, s'.entries).Meet(Missing(t, s).Union(Footprint(t, rows)))
  {
    FootprintSplit(t, s.entries, rows);
  }

  /** Removal keeps the index exact if and only if the two footprints are disjoint. */
  lemma RemoveExactIffDisjoint(t: Tables, s: State, rows: set<Entry>, s': State)
    requires Step(t, s, Removed(rows, 3), s') && Exact(t, s)
    ensures Exact(t, s')
       <==> Footprint(t, s.entries - rows).Meet(Footprint(t, rows)) == EMPTY_INDEX
  {
    MissingAfterRemove(t, s, rows, s');
    StepKeepsSound(t, s, Removed(rows, 3), s');
    assert Missing(t, s) == EMPTY_INDEX;
    assert Missing(t, s') == Footprint(t, s'.entries).Meet(Footprint(t, rows));
    MissingIffInexact(t, s');
  }

  lemma MissingIffInexact(t: Tables, s: State)
    requires Sound(t, s)
    ensures Missing(t, s) == EMPTY_INDEX <==> Exact(t, s)
  {
    var fp := Footprint(t, s.entries);
    if Missing(t, s) == EMPTY_INDEX {
      NothingLeftMeansSubset(fp.tracks, s.index.tracks);
      NothingLeftMeansSubset(fp.users, s.index.users);
      NothingLeftMeansSubset(fp.cids, s.index.cids);
    }
  }

  /**
   * A clean resync only ever adds, so it restores equality exactly when the
   * index was not already holding something stale.
   */
  lemma ResyncExactIffSound(t: Tables, s: State, s': State)
    requires Step(t, s, Resynced(true), s')
    ensures Exact(t, s') <==> Sound(t, s)
  {
    var fp := Footprint(t, s.entries);
    if Sound(t, s) {
      assert s.index.tracks + fp.tracks == fp.tracks;
      assert s.index.users + fp.users == fp.users;
      assert s.index.cids + fp.cids == fp.cids;
    } else {
      assert s.index.Within(s'.index);
    }
  }

  /**
   * Whatever adds, clean removals and partial writes a run went through, one
   * clean resync at its end makes the index exact.
   */
  lemma ResyncHealsEveryRun(t: Tables, states: seq<State>, events: seq<Event>)
    requires Run(t, states, events) && Sound(t, states[0])
    requires forall ev :: ev in events ==> RemovesAll(ev)
    requires |events| > 0 && events[|events| - 1] == Resynced(true)
    ensures Exact(t, states[|events|])
  {
    RunKeepsSound(t, states, events);
    ResyncExactIffSound(t, states[|events| - 1], states[|events|]);
  }

  /**
   * A removal of which only the first `done` SREMs took effect: the index stays
   * within what the tables imply if and only if the remaining rows imply what
   * was left behind of the rows that were listed. Rows that were not listed are
   * taken out of the sets all the same, and leave nothing behind.
   */
  lemma PartialRemoveSoundIff(t: Tables, s: State, rows: set<Entry>, done: nat, s': State)
    requires Step(t, s, Removed(rows, done), s') && Exact(t, s)
    ensures Sound(t, s') <==> Left(Footprint(t, rows * s.entries), done).Within(Footprint(t, s.entries - rows))
  {
    ListedAndOthers(t, s.entries, rows);
  }

  /** And it is exact if and only if, besides, they imply nothing of what was taken out. */
  lemma PartialRemoveExactIff(t: Tables, s: State, rows: set<Entry>, done: nat, s': State)
    requires Step(t, s, Removed(rows, done), s') && Exact(t, s)
    ensures var listed, rest := Footprint(t, rows * s.entries), Footprint(t, s.entries - rows);
      Exact(t, s') <==> Left(listed, done).Within(rest) && rest.Meet(Cleaned(Footprint(t, rows), done)) == EMPTY_INDEX
  {
    ListedAndOthers(t, s.entries, rows);
    var fp, listed, kept := Footprint(t, rows), Footprint(t, rows * s.entries), Footprint(t, s.entries - rows);
    assert s'.index == kept.Union(listed).Minus(Cleaned(fp, done));
    TakenFromUnion(kept.tracks, listed.tracks, fp.tracks, done >= 1);
    TakenFromUnion(kept.users, listed.users, fp.users, done >= 2);
    TakenFromUnion(kept.cids, listed.cids, fp.cids, done >= 3);
  }

  /** The listed ones among the rows, and what stays, make up the table; what is named covers what is listed. */
  lemma ListedAndOthers(t: Tables, entries: set<Entry>, rows: set<Entry>)
    ensures Footprint(t, entries) == Footprint(t, entries - rows).Union(Footprint(t, rows * entries))
    ensures Footprint(t, rows * entries).Within(Footprint(t, rows))
  {
    assert entries == (entries - rows) + rows * entries;
    FootprintAdditive(t, entries - rows, rows * entries);
    assert rows == (rows - entries) + rows * entries;
    FootprintAdditive(t, rows - entries, rows * entries);
  }

  lemma TakenFromUnion<T>(kept: set<T>, listed: set<T>, named: set<T>, cleaned: bool)
    requires listed <= named
    ensures (kept + listed) - (if cleaned then named else {}) == kept
       <==> (if cleaned then {} else listed) <= kept && kept * (if cleaned then named else {}) == {}
  {
    if cleaned {
      if kept * named == {} {
        forall x | x in kept ensures x !in named {
          assert x !in kept * named;
        }
      }
    } else {
      assert kept <= kept + listed;
    }
  }

  /** What the tables imply, and at most the footprint of `rows` besides. */
  ghost predicate SoundUpTo(t: Tables, s: State, rows: set<Entry>) {
    s.index.Within(Footprint(t, s.entries).Union(Footprint(t, rows)))
  }

  lemma StepKeepsSoundUpTo(t: Tables, s: State, ev: Event, s': State, rows: set<Entry>)
    requires Step(t, s, ev, s') && SoundUpTo(t, s, rows)
    requires RemovesAll(ev) || ev.rows == rows
    ensures SoundUpTo(t, s', rows)
    ensures ev.Removed? && ev.rows == rows && RemovesAll(ev) ==> Sound(t, s')
  {
    match ev
    case Added(more, _) => FootprintAdditive(t, s.entries, more);
    case Removed(gone, _) => FootprintSplit(t, s.entries, gone);
    case Resynced(_) =>
  }

  lemma {:induction false} RunKeepsSoundUpTo(t: Tables, states: seq<State>, events: seq<Event>, rows: set<Entry>)
    requires Run(t, states, events) && SoundUpTo(t, states[0], rows)
    requires forall ev :: ev in events ==> RemovesAll(ev) || ev.rows == rows
    ensures SoundUpTo(t, states[|events|], rows)
  {
    if |events| > 0 {
      var last := |events| - 1;
      assert events[..last] <= events && events[last] in events;
      RunKeepsSoundUpTo(t, states[..last + 1], events[..last], rows);
      StepKeepsSoundUpTo(t, states[last], events[last], states[last + 1], rows);
    }
  }

  /**
   * Repeating a failed removal heals it: whatever adds, resyncs, complete removals
   * and further failed attempts at the same rows lie between, once a removal of
   * these rows goes through nothing stale is left.
   */
  lemma RepeatedRemovalRestoresSoundness(t: Tables, states: seq<State>, events: seq<Event>, rows: set<Entry>)
    requires Run(t, states, events) && Sound(t, states[0])
    requires forall ev :: ev in events ==> RemovesAll(ev) || ev.rows == rows
    requires |events| > 0 && events[|events| - 1] == Removed(rows, 3)
    ensures Sound(t, states[|events|])
  {
    var last := |events| - 1;
    assert events[..last] <= events && events[last] in events;
    RunKeepsSoundUpTo(t, states[..last + 1], events[..last], rows);
    StepKeepsSoundUpTo(t, states[last], events[last], states[last + 1], rows);
  }

  /**
   * Nothing else heals it: what a failed removal left in any of the three sets
   * stays there through every later add and resync.
   */
  lemma {:induction false} StaleElementsStay(t: Tables, states: seq<State>, events: seq<Event>, stale: Index)
    requires Run(t, states, events) && stale.Within(states[0].index)
    requires forall ev :: ev in events ==> !ev.Removed?
    ensures stale.Within(states[|events|].index)
  {
    if |events| > 0 {
      var last := |events| - 1;
      assert events[..last] <= events && events[last] in events;
      StaleElementsStay(t, states[..last + 1], events[..last], stale);
      assert Step(t, states[last], events[last], states[last + 1]);
    }
  }

  /** Whichever of the three SREMs is the first to fail, the index can be left unsound. */
  lemma FailedRemoveCounterexample(done: nat) returns (t: Tables, s: State, rows: set<Entry>, s': State)
    requires done < 3
    ensures Step(t, s, Removed(rows, done), s') && Exact(t, s) && rows <= s.entries && !Sound(t, s')
  {
    t := Tables([], [], [], {});
    rows := {TrackEntry(1), UserEntry(2), CidEntry("cid")};
    s := State(rows, Footprint(t, rows));
    s' := State({}, s.index.Minus(Cleaned(s.index, done)));
    assert s.entries - rows == {};
    assert TrackEntry(1) in rows && TrackEntry(1).track in TrackIdsIn(rows);
    assert UserEntry(2) in rows && UserEntry(2).user in UserIds(rows);
    assert CidEntry("cid") in rows && CidEntry("cid").cid in CidsIn(rows);
    var none := Footprint(t, {});
    assert none.tracks == {} && none.users == {} && none.cids == {};
    PartialRemoveSoundIff(t, s, rows, done, s');
  }

  // ----------------------------------------------------------- servability

  /** The `trackId` argument of a request: absent, not an integer, or an integer. */
  datatype TrackArg = NoTrack | NotAnInteger | TrackId(id: int)

  /** The row the database query returns first for a track id. */
  function FirstTrack(tracks: seq<Track>, id: BlockchainId): (r: Option<Track>)
    ensures r.Some? ==> r.value in tracks && r.value.blockchainId == id
    ensures r.None? <==> forall tr :: tr in tracks ==> tr.blockchainId != id
  {
    if tracks == [] then None
    else if tracks[0].blockchainId == id then Some(tracks[0])
    else FirstTrack(tracks[1..], id)
  }

  /** The track exists and the CID is one of its segments. */
  predicate SegmentOf(t: Tables, cid: Cid, id: BlockchainId) {
    var row := FirstTrack(t.tracks, id);
    row.Some? && row.value.segments.Some? && cid in row.value.segments.value
  }

  /** The cache-free definition of servability. */
  predicate Servable(t: Tables, index: Index, cid: Cid, arg: TrackArg) {
    && !(arg.TrackId? && arg.id != 0 && arg.id in index.tracks)
    && (cid in index.cids ==> arg.TrackId? && arg.id > 0 && SegmentOf(t, cid, arg.id))
  }

  /** The positive map (track id to segment CIDs) and the negative set. */
  datatype Caches = Caches(segments: map<BlockchainId, set<Cid>>, invalid: set<BlockchainId>)

  /** Cached segments are the table's, and ids marked invalid have no track. */
  ghost predicate Faithful(t: Tables, c: Caches) {
    && (forall id :: id in c.segments ==>
          var row := FirstTrack(t.tracks, id);
          row.Some? && row.value.segments.Some? && c.segments[id] == Elems(row.value.segments.value))
    && (forall id :: id in c.invalid ==> FirstTrack(t.tracks, id).None?)
  }

  datatype Answer = Answer(serve: bool, caches: Caches)

  /**
   * What a call answers and leaves cached. `answered` of its Redis and database
   * reads succeed before one fails, and `stored` says whether its cache write
   * lands; a call makes at most five reads.
   */
  function AskWith(t: Tables, index: Index, c: Caches, cid: Cid, arg: TrackArg, answered: nat, stored: bool): Answer {
    var checked := if arg.TrackId? && arg.id != 0 then 1 else 0;
    if checked == 1 && (answered < 1 || arg.id in index.tracks) then Answer(false, c)
    else if answered < checked + 1 then Answer(false, c)
    else if cid !in index.cids then Answer(true, c)
    else if !arg.TrackId? || arg.id <= 0 || answered < 3 then Answer(false, c)
    else if arg.id in c.segments && c.segments[arg.id] != {} then Answer(cid in c.segments[arg.id], c)
    else if answered < 4 || arg.id in c.invalid || answered < 5 then Answer(false, c)
    else Answer(SegmentOf(t, cid, arg.id), if stored then AfterLookup(t, c, arg.id) else c)
  }

  /** What a database lookup leaves cached: the id as invalid, or its segments if it has any. */
  function AfterLookup(t: Tables, c: Caches, id: BlockchainId): Caches {
    var row := FirstTrack(t.tracks, id);
    if row.None? then c.(invalid := c.invalid + {id})
    else if row.value.segments.None? || row.value.segments.value == [] then c
    else c.(segments := c.segments[id := Elems(row.value.segments.value)])
  }

  const ALL_READS := 5

  /** A call in which no Redis or database call fails. */
  function Ask(t: Tables, index: Index, c: Caches, cid: Cid, arg: TrackArg): Answer {
    AskWith(t, index, c, cid, arg, ALL_READS, true)
  }

  /** The caches never change an answer, and every call leaves them faithful. */
  lemma AskAgreesWithTables(t: Tables, index: Index, c: Caches, cid: Cid, arg: TrackArg)
    requires Faithful(t, c)
    ensures Ask(t, index, c, cid, arg).serve == Servable(t, index, cid, arg)
    ensures forall answered, stored :: AskWith(t, index, c, cid, arg, answered, stored).serve ==>
        Servable(t, index, cid, arg)
    ensures forall answered, stored :: Faithful(t, AskWith(t, index, c, cid, arg, answered, stored).caches)
  {}

  // -------------------------------------------------- calls, expiries and uploads

  datatype CacheEvent =
    | Asked(index: Index, cid: Cid, arg: TrackArg, answered: nat, stored: bool)
    | Expired(id: BlockchainId)
    | Uploaded(track: Track)

  /** The tables after the uploads among the events; a new row comes after the old ones. */
  function TablesAfter(t: Tables, events: seq<CacheEvent>): Tables {
    if events == [] then t
    else
      var before := TablesAfter(t, events[..|events| - 1]);
      match events[|events| - 1]
      case Uploaded(track) => before.(tracks := before.tracks + [track])
      case _ => before
  }

  function CachesAfter(t: Tables, c: Caches, events: seq<CacheEvent>): Caches {
    if events == [] then c
    else
      var before := events[..|events| - 1];
      var was := CachesAfter(t, c, before);
      match events[|events| - 1]
      case Asked(index, cid, arg, answered, stored) =>
        AskWith(TablesAfter(t, before), index, was, cid, arg, answered, stored).caches
      case Expired(id) => was.(segments := was.segments - {id})
      case Uploaded(_) => was
  }

  const EMPTY_CACHES := Caches(map[], {})

  ghost predicate NoUploads(events: seq<CacheEvent>) {
    forall ev :: ev in events ==> !ev.Uploaded?
  }

  /**
   * With fixed tracks: from empty caches, after any calls (whatever the index was
   * and whatever failed at each) and any expiries, a call that does not fail
   * answers as the tables alone would, and one that fails serves no more.
   */
  lemma {:induction false} EveryReachableAnswerAgrees(t: Tables, events: seq<CacheEvent>, index: Index, cid: Cid,
          arg: TrackArg)
    requires NoUploads(events)
    ensures var c := CachesAfter(t, EMPTY_CACHES, events);
      && TablesAfter(t, events) == t && Faithful(t, c)
      && Ask(t, index, c, cid, arg).serve == Servable(t, index, cid, arg)
      && forall answered, stored :: AskWith(t, index, c, cid, arg, answered, stored).serve ==>
          Servable(t, index, cid, arg)
  {
    var c := CachesAfter(t, EMPTY_CACHES, events);
    if events != [] {
      var before := events[..|events| - 1];
      assert events[|events| - 1] in events && before <= events;
      EveryReachableAnswerAgrees(t, before, index, cid, arg);
      match events[|events| - 1]
      case Asked(index', cid', arg', _, _) =>
        AskAgreesWithTables(t, index', CachesAfter(t, EMPTY_CACHES, before), cid', arg');
      case _ =>
    }
    AskAgreesWithTables(t, index, c, cid, arg);
  }

  lemma {:induction false} FirstTrackStays(tracks: seq<Track>, more: Track, id: BlockchainId)
    ensures FirstTrack(tracks, id).Some? ==> FirstTrack(tracks + [more], id) == FirstTrack(tracks, id)
    ensures FirstTrack(tracks, id).None? ==>
              FirstTrack(tracks + [more], id) == if more.blockchainId == id then Some(more) else None
  {
    if tracks != [] {
      FirstTrackStays(tracks[1..], more, id);
      assert (tracks + [more])[1..] == tracks[1..] + [more];
    }
  }

  /** Cached segments are the table's. */
  ghost predicate PositiveFaithful(t: Tables, c: Caches) {
    forall id :: id in c.segments ==>
      var row := FirstTrack(t.tracks, id);
      row.Some? && row.value.segments.Some? && c.segments[id] == Elems(row.value.segments.value)
  }

  /** The event asks for a track that is not there yet, gets as far as the database, and notes it. */
  predicate AsksTooEarly(t: Tables, ev: CacheEvent, id: BlockchainId) {
    && ev.Asked? && ev.arg == TrackId(id) && id > 0
    && id !in ev.index.tracks && ev.cid in ev.index.cids
    && ev.answered >= ALL_READS && ev.stored
    && FirstTrack(t.tracks, id).None?
  }

  ghost predicate AskedTooEarly(t: Tables, events: seq<CacheEvent>, id: BlockchainId) {
    exists i :: 0 <= i < |events| && AsksTooEarly(TablesAfter(t, events[..i]), events[i], id)
  }

  lemma AskedTooEarlyStep(t: Tables, events: seq<CacheEvent>, id: BlockchainId)
    requires events != []
    ensures var before := events[..|events| - 1];
      AskedTooEarly(t, events, id)
      <==> AskedTooEarly(t, before, id) || AsksTooEarly(TablesAfter(t, before), events[|events| - 1], id)
  {
    var before := events[..|events| - 1];
    assert forall i :: 0 <= i < |before| ==> events[..i] == before[..i] && events[i] == before[i];
  }

  /**
   * What uploads leave true: positive entries stay right, and an id is marked as
   * invalid exactly when it was asked for too early, uploaded since or not.
   */
  lemma {:induction false} CachesOfEveryRun(t: Tables, events: seq<CacheEvent>, id: BlockchainId)
    ensures var now, c := TablesAfter(t, events), CachesAfter(t, EMPTY_CACHES, events);
      && PositiveFaithful(now, c)
      && (id in c.invalid <==> AskedTooEarly(t, events, id))
      && (id in c.invalid ==> id !in c.segments)
  {
    if events != [] {
      var before := events[..|events| - 1];
      CachesOfEveryRun(t, before, id);
      AskedTooEarlyStep(t, events, id);
      var ev := events[|events| - 1];
      match ev
      case Asked(_, _, _, _, _) => AskKeepsCaches(TablesAfter(t, before), CachesAfter(t, EMPTY_CACHES, before), ev, id);
      case Expired(_) =>
      case Uploaded(track) =>
        forall other { FirstTrackStays(TablesAfter(t, before).tracks, track, other); }
    }
  }

  lemma AskKeepsCaches(t: Tables, c: Caches, ev: CacheEvent, id: BlockchainId)
    requires ev.Asked? && PositiveFaithful(t, c) && (id in c.invalid ==> id !in c.segments)
    ensures var c' := AskWith(t, ev.index, c, ev.cid, ev.arg, ev.answered, ev.stored).caches;
      && PositiveFaithful(t, c')
      && (id in c'.invalid <==> id in c.invalid || AsksTooEarly(t, ev, id))
      && (id in c'.invalid ==> id !in c'.segments)
  {}

  /** The track is there and has segments to serve. */
  predicate HasSegments(t: Tables, id: BlockchainId) {
    var row := FirstTrack(t.tracks, id);
    row.Some? && row.value.segments.Some? && row.value.segments.value != []
  }

  /** Every later question about this track is answered as the tables alone would. */
  ghost predicate AlwaysAgrees(t: Tables, c: Caches, id: BlockchainId) {
    forall index, cid :: Ask(t, index, c, cid, TrackId(id)).serve == Servable(t, index, cid, TrackId(id))
  }

  /**
   * With uploads, exactly: all questions about a track are answered rightly if
   * and only if it has no segments or nobody asked for a blacklisted CID under its
   * id before it was uploaded. The code passes an expiry for such marks and never
   * applies it, so no time heals them.
   */
  lemma AgreesIffNotAskedTooEarly(t: Tables, events: seq<CacheEvent>, id: BlockchainId)
    ensures var now, c := TablesAfter(t, events), CachesAfter(t, EMPTY_CACHES, events);
      AlwaysAgrees(now, c, id) <==> !(AskedTooEarly(t, events, id) && HasSegments(now, id))
  {
    var now, c := TablesAfter(t, events), CachesAfter(t, EMPTY_CACHES, events);
    CachesOfEveryRun(t, events, id);
    if AskedTooEarly(t, events, id) && HasSegments(now, id) {
      AskedIdsArePositive(t, events, id);
      var cid := FirstTrack(now.tracks, id).value.segments.value[0];
      var index := Index({}, {}, {cid});
      assert Ask(now, index, c, cid, TrackId(id)).serve != Servable(now, index, cid, TrackId(id));
    }
  }

  lemma AskedIdsArePositive(t: Tables, events: seq<CacheEvent>, id: BlockchainId)
    requires AskedTooEarly(t, events, id)
    ensures id > 0
  {}

  /** A wrong answer is always a denial: whatever was asked and uploaded, no call serves too much. */
  lemma NothingIsServedWrongly(t: Tables, events: seq<CacheEvent>, index: Index, cid: Cid, arg: TrackArg,
          answered: nat, stored: bool)
    ensures var now, c := TablesAfter(t, events), CachesAfter(t, EMPTY_CACHES, events);
      AskWith(now, index, c, cid, arg, answered, stored).serve ==> Servable(now, index, cid, arg)
  {
    CachesOfEveryRun(t, events, 0);
  }

  /** A request for an unknown track, its upload, and the same request: denied, though the CID is the track's. */
  lemma UploadedTrackStaysDenied(t: Tables, cid: Cid, id: BlockchainId, owner: string)
    requires id > 0 && FirstTrack(t.tracks, id).None?
    ensures var index := Index({}, {}, {cid});
      var events := [Asked(index, cid, TrackId(id), ALL_READS, true), Uploaded(Track(id, owner, Some([cid])))];
      var now, c := TablesAfter(t, events), CachesAfter(t, EMPTY_CACHES, events);
      !Ask(now, index, c, cid, TrackId(id)).serve && Servable(now, index, cid, TrackId(id))
  {
    var index := Index({}, {}, {cid});
    var track := Track(id, owner, Some([cid]));
    var events := [Asked(index, cid, TrackId(id), ALL_READS, true), Uploaded(track)];
    assert events[..1] == [events[0]] && [events[0]][..0] == [];
    assert TablesAfter(t, events[..1]) == TablesAfter(t, []) == t;
    FirstTrackStays(t.tracks, track, id);
    assert CachesAfter(t, EMPTY_CACHES, events[..1]) == Caches(map[], {id});
  }

  /**
   * With an exact index, what is served is decided by the database: nothing of a
   * blacklisted track, and a blacklisted CID only as a segment of a given track
   * that is not blacklisted itself.
   */
  lemma ServedMeansNotBlacklisted(t: Tables, s: State, c: Caches, cid: Cid, arg: TrackArg)
    requires Exact(t, s) && Faithful(t, c)
    ensures Ask(t, s.index, c, cid, arg).serve <==>
      && (arg.TrackId? && arg.id != 0 ==> arg.id !in Footprint(t, s.entries).tracks)
      && (cid !in Footprint(t, s.entries).cids || (arg.TrackId? && arg.id > 0 && SegmentOf(t, cid, arg.id)))
  {
    AskAgreesWithTables(t, s.index, c, cid, arg);
  }

  // ------------------------------------------------------------- the manager

  const TRACKS_PER_BATCH := 200
  const MAX_SADD_ITEMS := 100000

  /** The argument of an add or remove request: values of one type. */
  datatype Request = Users(ids: seq<BlockchainId>) | TrackIds(ids: seq<BlockchainId>) | Cids(cids: seq<Cid>) {
    function Rows(): seq<Entry> {
      match this
      case Users(ids) => seq(|ids|, i requires 0 <= i < |ids| => UserEntry(ids[i]))
      case TrackIds(ids) => seq(|ids|, i requires 0 <= i < |ids| => TrackEntry(ids[i]))
      case Cids(cids) => seq(|cids|, i requires 0 <= i < |cids| => CidEntry(cids[i]))
    }

    function UserList(): seq<BlockchainId> { if Users? then ids else [] }
    function TrackList(): seq<BlockchainId> { if TrackIds? then ids else [] }
    function CidList(): seq<Cid> { if Cids? then cids else [] }
  }

  /** A request's rows name its values, and nothing else. */
  lemma RowsNameTheValues(request: Request)
    ensures UserIds(Elems(request.Rows())) == Elems(request.UserList())
    ensures TrackIdsIn(Elems(request.Rows())) == Elems(request.TrackList())
    ensures CidsIn(Elems(request.Rows())) == Elems(request.CidList())
  {
    var rows := request.Rows();
    match request
    case Users(ids) =>
      forall id | id in ids ensures id in UserIds(Elems(rows)) {
        var i :| 0 <= i < |ids| && ids[i] == id;
        assert rows[i] == UserEntry(id);
      }
    case TrackIds(ids) =>
      forall id | id in ids ensures id in TrackIdsIn(Elems(rows)) {
        var i :| 0 <= i < |ids| && ids[i] == id;
        assert rows[i] == TrackEntry(id);
      }
    case Cids(cids) =>
      forall cid | cid in cids ensures cid in CidsIn(Elems(rows)) {
        var i :| 0 <= i < |cids| && cids[i] == cid;
        assert rows[i] == CidEntry(cid);
      }
  }

  class BlacklistManager {
    const db: Tables
    const saddOk: nat -> bool  // whether the n-th SADD succeeds
    const sremOk: nat -> bool  // whether the n-th SREM is answered
    const sremLands: nat -> bool  // whether it takes effect although it is not
    const readOk: nat -> bool  // whether the n-th read succeeds

    var contentBlacklist: seq<Entry>
    var tracks: set<BlockchainId>
    var users: set<BlockchainId>
    var cids: set<Cid>
    var caches: Caches
    var sadds: nat
    var srems: nat
    var readCalls: nat

    constructor (db: Tables, saddOk: nat -> bool, sremOk: nat -> bool, sremLands: nat -> bool, readOk: nat -> bool)
      ensures this.db == db && contentBlacklist == [] && Current() == State({}, EMPTY_INDEX)
      ensures Faithful(db, caches)
    {
      this.db, this.saddOk, this.sremOk, this.sremLands, this.readOk := db, saddOk, sremOk, sremLands, readOk;
      contentBlacklist, tracks, users, cids := [], {}, {}, {};
      caches := Caches(map[], {});
      sadds, srems, readCalls := 0, 0, 0;
    }

    function CurrentIndex(): Index
      reads this
    {
      Index(tracks, users, cids)
    }

    ghost function Current(): State
      reads this
    {
      State(Elems(contentBlacklist), CurrentIndex())
    }

    ghost predicate SaddsOk(from: nat, to: nat) {
      forall n :: from <= n < to ==> saddOk(n)
    }

    ghost predicate SremsOk(from: nat, to: nat) {
      forall n :: from <= n < to ==> sremOk(n)
    }

    ghost predicate ReadsOk(from: nat, to: nat) {
      forall n :: from <= n < to ==> readOk(n)
    }

    /** Adds in chunks; an error ends the loop and is swallowed. */
    method AddToRedisInChunks<T(==)>(current: set<T>, data: seq<T>) returns (out: set<T>)
      modifies this`sadds
      ensures old(sadds) <= sadds
      ensures current <= out <= current + Elems(data)
      ensures SaddsOk(old(sadds), sadds) ==> out == current + Elems(data)
      ensures |data| <= MAX_SADD_ITEMS ==> out == current || out == current + Elems(data)
    {
      out := current;
      var i := 0;
      while i < |data|
        invariant i >= 0 && old(sadds) <= sadds
        invariant out == current + Elems(data[..Min(i, |data|)])
        invariant i == 0 || i >= MAX_SADD_ITEMS
      {
        var ok := saddOk(sadds);
        sadds := sadds + 1;
        if !ok {
          return;
        }
        var slice := data[i..Min(i + MAX_SADD_ITEMS, |data|)];
        assert data[..Min(i + MAX_SADD_ITEMS, |data|)] == data[..i] + slice;
        ElemsAppend(data[..i], slice);
        out := out + Elems(slice);
        i := i + MAX_SADD_ITEMS;
      }
      assert data[..Min(i, |data|)] == data;
    }

    method TracksFromUsers(ids: seq<BlockchainId>) returns (found: seq<BlockchainId>)
      ensures Elems(found) == TracksOfUsers(db, Elems(ids))
    {
      found := [];
      if |ids| > 0 {
        var owners := {};
        for i := 0 to |db.users|
          invariant owners == set u | u in db.users[..i] && u.blockchainId in ids :: u.owner
        {
          ElemsTake(db.users, i);
          if db.users[i].blockchainId in ids {
            owners := owners + {db.users[i].owner};
          }
        }
        assert db.users[..|db.users|] == db.users;
        assert forall o :: o in owners <==> OwnedByOneOf(db, o, Elems(ids));
        for i := 0 to |db.tracks|
          invariant Elems(found) == set tr | tr in db.tracks[..i] && tr.owner in owners :: tr.blockchainId
        {
          ElemsTake(db.tracks, i);
          if db.tracks[i].owner in owners {
            ElemsPush(found, db.tracks[i].blockchainId);
            found := found + [db.tracks[i].blockchainId];
          }
        }
        assert db.tracks[..|db.tracks|] == db.tracks;
      }
    }

    method CidsToBlacklist(ids: seq<BlockchainId>) returns (found: seq<Cid>)
      ensures Elems(found) == CidsOfTracks(db, Elems(ids))
    {
      var acc := {};
      for i := 0 to |db.tracks|
        invariant acc == SegmentCids(db.tracks[..i], Elems(ids), db.whitelist)
      {
        var track := db.tracks[i];
        ElemsTake(db.tracks, i);
        ghost var before := acc;
        if track.blockchainId in ids && track.segments.Some? {
          var segments := track.segments.value;
          for j := 0 to |segments|
            invariant acc == before + set c | c in segments[..j] && SegmentListed(db.whitelist, c)
          {
            ElemsTake(segments, j);
            if segments[j] != "" && segments[j] !in db.whitelist {
              acc := acc + {segments[j]};
            }
          }
          assert segments[..|segments|] == segments;
        }
      }
      assert db.tracks[..|db.tracks|] == db.tracks;
      ghost var segmentCids := acc;
      if |ids| > 0 {
        for i := 0 to |db.files|
          invariant acc == segmentCids + FileCids(db.files[..i], Elems(ids), db.whitelist)
        {
          var file := db.files[i];
          ElemsTake(db.files, i);
          if file.trackId.Some? && file.trackId.value in ids {
            if file.fileType == "track" || file.fileType == "copy320" || file.multihash !in db.whitelist {
              acc := acc + {file.multihash};
            }
          }
        }
        assert db.files[..|db.files|] == db.files;
      }
      found := SetToSeq(acc);
    }

    /** Adds the CIDs of the given tracks, two hundred tracks at a time. */
    method AddAggregateCids(ids: seq<BlockchainId>)
      modifies this`cids, this`sadds
      ensures old(sadds) <= sadds
      ensures old(cids) <= cids <= old(cids) + CidsOfTracks(db, Elems(ids))
      ensures SaddsOk(old(sadds), sadds) ==> cids == old(cids) + CidsOfTracks(db, Elems(ids))
    {
      var i := 0;
      while i < |ids|
        invariant i >= 0 && old(sadds) <= sadds
        invariant old(cids) <= cids <= old(cids) + CidsOfTracks(db, Elems(ids[..Min(i, |ids|)]))
        invariant SaddsOk(old(sadds), sadds) ==> cids == old(cids) + CidsOfTracks(db, Elems(ids[..Min(i, |ids|)]))
      {
        var slice := ids[i..Min(i + TRACKS_PER_BATCH, |ids|)];
        var segments := CidsToBlacklist(slice);
        cids := AddToRedisInChunks(cids, segments);
        assert ids[..Min(i + TRACKS_PER_BATCH, |ids|)] == ids[..i] + slice;
        ElemsAppend(ids[..i], slice);
        CidsOfTracksAdditive(db, Elems(ids[..i]), Elems(slice));
        i := i + TRACKS_PER_BATCH;
      }
      assert ids[..Min(i, |ids|)] == ids;
    }

    /** The three lists name the rows of `rows`. */
    ghost predicate Lists(rows: set<Entry>, trackIds: seq<BlockchainId>, userIds: seq<BlockchainId>,
            segments: seq<Cid>) {
      && TrackIdsIn(rows) == Elems(trackIds)
      && UserIds(rows) == Elems(userIds)
      && CidsIn(rows) == Elems(segments)
    }

    method FetchCidsAndAdd(trackIds: seq<BlockchainId>, userIds: seq<BlockchainId>, segments: seq<Cid>,
            ghost rows: set<Entry>)
      requires Lists(rows, trackIds, userIds, segments)
      modifies this`tracks, this`users, this`cids, this`sadds
      ensures old(sadds) <= sadds
      ensures var fp := Footprint(db, rows);
              && old(CurrentIndex()).Within(CurrentIndex())
              && CurrentIndex().Within(old(CurrentIndex()).Union(fp))
              && (SaddsOk(old(sadds), sadds) ==> CurrentIndex() == old(CurrentIndex()).Union(fp))
    {
      var fromUsers := TracksFromUsers(userIds);
      var all := trackIds + fromUsers;
      ElemsAppend(trackIds, fromUsers);
      var deduped := SetToSeq(Elems(all));
      tracks := AddToRedisInChunks(tracks, all);
      users := AddToRedisInChunks(users, userIds);
      cids := AddToRedisInChunks(cids, segments);
      AddAggregateCids(deduped);
    }

    /** One SREM, skipped for an empty list; an error is passed on. */
    method RemoveFromRedis<T(==)>(current: set<T>, data: seq<T>) returns (out: set<T>, ok: bool, ghost landed: bool)
      modifies this`srems
      ensures old(srems) <= srems && (ok <==> SremsOk(old(srems), srems))
      ensures out == if landed then current - Elems(data) else current
      ensures ok ==> landed
    {
      if |data| == 0 {
        return current, true, true;
      }
      ok := sremOk(srems);
      landed := ok || sremLands(srems);
      out := if ok || sremLands(srems) then current - Elems(data) else current;
      srems := srems + 1;
    }

    /** `done` SREMs took effect, in order; after the first error no further one is sent. */
    method FetchCidsAndRemove(trackIds: seq<BlockchainId>, userIds: seq<BlockchainId>, segments: seq<Cid>,
            ghost rows: set<Entry>)
      returns (ok: bool, ghost done: nat)
      requires Lists(rows, trackIds, userIds, segments)
      modifies this`tracks, this`users, this`cids, this`srems
      ensures old(srems) <= srems && (ok <==> SremsOk(old(srems), srems))
      ensures CurrentIndex() == old(CurrentIndex()).Minus(Cleaned(Footprint(db, rows), done))
      ensures ok ==> done == 3
    {
      var fromUsers := TracksFromUsers(userIds);
      var all := trackIds + fromUsers;
      ElemsAppend(trackIds, fromUsers);
      var deduped := SetToSeq(Elems(all));
      var fromTracks := CidsToBlacklist(deduped);
      ElemsAppend(fromTracks, segments);
      var allCids := SetToSeq(Elems(fromTracks + segments));
      assert Footprint(db, rows) == Index(Elems(all), Elems(userIds), Elems(allCids));
      ghost var landed;
      tracks, ok, landed := RemoveFromRedis(tracks, all);
      done := if landed then 1 else 0;
      if !ok { return; }
      users, ok, landed := RemoveFromRedis(users, userIds);
      done := if landed then 2 else 1;
      if !ok { return; }
      cids, ok, landed := RemoveFromRedis(cids, allCids);
      done := if landed then 3 else 2;
    }

    /** Inserts rows, ignoring those already there. */
    method InsertRows(rows: seq<Entry>)
      modifies this`contentBlacklist
      ensures Elems(contentBlacklist) == old(Elems(contentBlacklist)) + Elems(rows)
      ensures old(NoDuplicates(contentBlacklist)) ==> NoDuplicates(contentBlacklist)
    {
      for i := 0 to |rows|
        invariant Elems(contentBlacklist) == old(Elems(contentBlacklist)) + Elems(rows[..i])
        invariant old(NoDuplicates(contentBlacklist)) ==> NoDuplicates(contentBlacklist)
      {
        ElemsTake(rows, i);
        ElemsPush(contentBlacklist, rows[i]);
        if rows[i] !in contentBlacklist {
          contentBlacklist := contentBlacklist + [rows[i]];
        }
      }
    }

    method DeleteRows(rows: seq<Entry>)
      modifies this`contentBlacklist
      ensures Elems(contentBlacklist) == old(Elems(contentBlacklist)) - Elems(rows)
    {
      var table, kept := contentBlacklist, [];
      for i := 0 to |table|
        invariant Elems(kept) == Elems(table[..i]) - Elems(rows)
      {
        ElemsTake(table, i);
        ElemsPush(kept, table[i]);
        if table[i] !in rows {
          kept := kept + [table[i]];
        }
      }
      assert table[..|table|] == table;
      contentBlacklist := kept;
    }

    method Add(request: Request)
      modifies this`contentBlacklist, this`tracks, this`users, this`cids, this`sadds
      ensures old(sadds) <= sadds
      ensures Step(db, old(Current()), Added(Elems(request.Rows()), SaddsOk(old(sadds), sadds)), Current())
    {
      RowsNameTheValues(request);
      InsertRows(request.Rows());
      match request
      case Users(ids) => FetchCidsAndAdd([], ids, [], Elems(request.Rows()));
      case TrackIds(ids) => FetchCidsAndAdd(ids, [], [], Elems(request.Rows()));
      case Cids(cs) => FetchCidsAndAdd([], [], cs, Elems(request.Rows()));
    }

    method Remove(request: Request) returns (ok: bool, ghost done: nat)
      modifies this`contentBlacklist, this`tracks, this`users, this`cids, this`srems
      ensures old(srems) <= srems && (ok <==> SremsOk(old(srems), srems))
      ensures Step(db, old(Current()), Removed(Elems(request.Rows()), done), Current())
      ensures ok ==> done == 3
    {
      RowsNameTheValues(request);
      DeleteRows(request.Rows());
      match request
      case Users(ids) => ok, done := FetchCidsAndRemove([], ids, [], Elems(request.Rows()));
      case TrackIds(ids) => ok, done := FetchCidsAndRemove(ids, [], [], Elems(request.Rows()));
      case Cids(cs) => ok, done := FetchCidsAndRemove([], [], cs, Elems(request.Rows()));
    }

    /** The periodic re-add of everything ContentBlacklist lists. */
    method Resync()
      modifies this`tracks, this`users, this`cids, this`sadds
      ensures old(sadds) <= sadds
      ensures Step(db, old(Current()), Resynced(SaddsOk(old(sadds), sadds)), Current())
    {
      var trackIds, userIds, segments := [], [], [];
      var rows := contentBlacklist;
      for i := 0 to |rows|
        modifies {}
        invariant Lists(Elems(rows[..i]), trackIds, userIds, segments)
      {
        ElemsTake(rows, i);
        match rows[i]
        case TrackEntry(id) => ElemsPush(trackIds, id); trackIds := trackIds + [id];
        case UserEntry(id) => ElemsPush(userIds, id); userIds := userIds + [id];
        case CidEntry(cid) => ElemsPush(segments, cid); segments := segments + [cid];
      }
      assert rows[..|rows|] == rows;
      FetchCidsAndAdd(trackIds, userIds, segments, Elems(rows));
    }

    method Read() returns (ok: bool)
      modifies this`readCalls
      ensures readCalls == old(readCalls) + 1 && ok == readOk(old(readCalls))
    {
      ok := readOk(readCalls);
      readCalls := readCalls + 1;
    }

    /** Every track's segment list fits one SADD. */
    ghost predicate SegmentListsFitOneSadd() {
      forall tr :: tr in db.tracks && tr.segments.Some? ==> |tr.segments.value| <= MAX_SADD_ITEMS
    }

    /**
     * A failed read denies; a failed cache write changes no answer, and leaves
     * the caches faithful as long as no segment list is split over two SADDs.
     * `answered` reads succeeded, and `stored` says whether a cache write landed.
     */
    method IsServable(cid: Cid, arg: TrackArg) returns (serve: bool, ghost answered: nat, ghost stored: bool)
      requires PositiveFaithful(db, caches)
      modifies this`caches, this`readCalls, this`sadds
      ensures old(readCalls) <= readCalls && old(sadds) <= sadds
      ensures serve ==> Servable(db, CurrentIndex(), cid, arg)
      ensures Faithful(db, old(caches)) && ReadsOk(old(readCalls), readCalls) ==>
          serve == Servable(db, CurrentIndex(), cid, arg)
      ensures ReadsOk(old(readCalls), readCalls) ==> answered == ALL_READS
      ensures SaddsOk(old(sadds), sadds) ==> stored
      ensures SegmentListsFitOneSadd() || SaddsOk(old(sadds), sadds) ==>
                Answer(serve, caches) == AskWith(db, CurrentIndex(), old(caches), cid, arg, answered, stored)
      ensures SegmentListsFitOneSadd() || SaddsOk(old(sadds), sadds) ==>
                PositiveFaithful(db, caches) && (Faithful(db, old(caches)) ==> Faithful(db, caches))
    {
      serve, answered, stored := false, 0, true;
      var ok;
      if arg.TrackId? && arg.id != 0 {
        ok := Read();
        if !ok { return; }
        if arg.id in tracks { answered := ALL_READS; return; }
        answered := 1;
      }
      ok := Read();
      if !ok { return; }
      answered := ALL_READS;
      if cid !in cids {
        serve := true;
        return;
      }
      if !arg.TrackId? || arg.id <= 0 { return; }
      ok := Read();
      if !ok { answered := 2; return; }
      var cached := if arg.id in caches.segments then caches.segments[arg.id] else {};
      if cached == {} {
        ok := Read();
        if !ok { answered := 3; return; }
        if arg.id in caches.invalid { return; }
        ok := Read();
        if !ok { answered := 4; return; }
        cached, stored := Lookup(arg.id);
      }
      serve := cid in cached;
    }

    /** The segments in the database, cached for next time; an id without a track is marked. */
    method Lookup(id: BlockchainId) returns (found: set<Cid>, ghost stored: bool)
      modifies this`caches, this`sadds
      ensures old(sadds) <= sadds && (SaddsOk(old(sadds), sadds) ==> stored)
      ensures forall cid :: cid in found <==> SegmentOf(db, cid, id)
      ensures SegmentListsFitOneSadd() || SaddsOk(old(sadds), sadds) ==>
                caches == if stored then AfterLookup(db, old(caches), id) else old(caches)
    {
      found, stored := {}, true;
      var row := FirstTrack(db.tracks, id);
      if row.None? {
        var invalid := AddToRedisInChunks(caches.invalid, [id]);
        assert Elems([id]) == {id};
        stored := invalid == caches.invalid + {id};
        caches := caches.(invalid := invalid);
      } else if row.value.segments.Some? {
        var segments := row.value.segments.value;
        found := Elems(segments);
        var kept := AddToRedisInChunks({}, segments);
        assert {} + found == found;
        assert segments != [] ==> segments[0] in found;
        stored := kept == found;
        if kept != {} {
          caches := caches.(segments := caches.segments[id := kept]);
        }
      }
    }
  }
}
