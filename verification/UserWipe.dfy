/**
 * Deleting all of a user's rows from the database: one transaction, table by
 * table in the code's order, under the foreign keys of the schema (all of them
 * ON DELETE RESTRICT).
 */
module UserWipe {
  import opened Util
  import opened ClockLog

  type FileId = string

  /** A row of AudiusUsers or Tracks. */
  datatype DataRow = DataRow(owner: User, clock: nat)
  /** `ofTrack` says whether trackBlockchainId is set. */
  datatype FileRow = FileRow(fileUUID: FileId, owner: User, clock: nat, ofTrack: bool)
  datatype PlaylistRow = PlaylistRow(owner: User, clock: nat, metadataFile: FileId, imageFile: Option<FileId>) {
    predicate RefersTo(f: FileId) {
      metadataFile == f || imageFile == Some(f)
    }
  }
  datatype ClockRow = ClockRow(owner: User, clock: nat, sourceTable: Table)
  datatype TokenRow = TokenRow(owner: User, token: string)
  datatype UserRow = UserRow(uuid: User, wallet: string, clock: nat)

  datatype Tables = Tables(users: set<UserRow>, audiusUsers: set<DataRow>, tracks: set<DataRow>, files: set<FileRow>,
                           playlists: set<PlaylistRow>, clockRecords: set<ClockRow>, tokens: set<TokenRow>)

  predicate IsUser(t: Tables, u: User) {
    exists r :: r in t.users && r.uuid == u
  }

  predicate HasClockRecord(t: Tables, u: User, clock: nat) {
    exists r :: r in t.clockRecords && r.owner == u && r.clock == clock
  }

  predicate IsFile(t: Tables, f: FileId) {
    exists r :: r in t.files && r.fileUUID == f
  }

  /** The primary keys that the deletes rely on, and every foreign key. */
  ghost predicate Referential(t: Tables) {
    && (forall a, b :: a in t.users && b in t.users && (a.uuid == b.uuid || a.wallet == b.wallet) ==> a == b)
    && (forall a, b :: a in t.files && b in t.files && a.fileUUID == b.fileUUID ==> a == b)
    && (forall r :: r in t.audiusUsers ==> IsUser(t, r.owner) && HasClockRecord(t, r.owner, r.clock))
    && (forall r :: r in t.tracks ==> IsUser(t, r.owner) && HasClockRecord(t, r.owner, r.clock))
    && (forall r :: r in t.files ==> IsUser(t, r.owner) && HasClockRecord(t, r.owner, r.clock))
    && (forall r :: r in t.playlists ==>
          IsUser(t, r.owner) && IsFile(t, r.metadataFile) && (r.imageFile.Some? ==> IsFile(t, r.imageFile.value)))
    && (forall r :: r in t.clockRecords ==> IsUser(t, r.owner))
    && (forall r :: r in t.tokens ==> IsUser(t, r.owner))
  }

  /** Some Playlists row is the user's, or refers to one of the user's files. */
  predicate BlocksWipe(t: Tables, u: User, p: PlaylistRow) {
    p.owner == u || exists f :: f in t.files && f.owner == u && p.RefersTo(f.fileUUID)
  }

  predicate Blocked(t: Tables, u: User) {
    exists p :: p in t.playlists && BlocksWipe(t, u, p)
  }

  /** Every table without the user's rows; Playlists as it is. */
  function Wiped(t: Tables, u: User): Tables {
    Tables((set r | r in t.users && r.uuid != u),
           (set r | r in t.audiusUsers && r.owner != u), (set r | r in t.tracks && r.owner != u),
           (set r | r in t.files && r.owner != u), t.playlists,
           (set r | r in t.clockRecords && r.owner != u), (set r | r in t.tokens && r.owner != u))
  }

  /** Other users' rows, in every table. */
  function Others(t: Tables, u: User): Tables {
    Wiped(t, u).(playlists := set r | r in t.playlists && r.owner != u)
  }

  /** Playlists are created with metadata and image files of their own user. */
  ghost predicate OwnFilesOnly(t: Tables) {
    forall p, f :: p in t.playlists && f in t.files && p.RefersTo(f.fileUUID) ==> p.owner == f.owner
  }

  /** Then only the user's own Playlists rows can block the wipe. */
  lemma BlockedIffHasPlaylist(t: Tables, u: User)
    requires OwnFilesOnly(t)
    ensures Blocked(t, u) <==> exists p :: p in t.playlists && p.owner == u
  {
    if p :| p in t.playlists && p.owner == u {
      assert BlocksWipe(t, u, p);
    }
  }

  lemma WipedIsReferential(t: Tables, u: User)
    requires Referential(t) && !Blocked(t, u)
    ensures Referential(Wiped(t, u))
  {
    var t' := Wiped(t, u);
    forall v | v != u && IsUser(t, v) ensures IsUser(t', v) {
      var r :| r in t.users && r.uuid == v;
      assert r in t'.users;
    }
    forall v, k | v != u && HasClockRecord(t, v, k) ensures HasClockRecord(t', v, k) {
      var r :| r in t.clockRecords && r.owner == v && r.clock == k;
      assert r in t'.clockRecords;
    }
    forall p | p in t.playlists
      ensures p.owner != u && IsFile(t', p.metadataFile) && (p.imageFile.Some? ==> IsFile(t', p.imageFile.value))
    {
      assert !BlocksWipe(t, u, p);
      FileStays(t, u, p, p.metadataFile);
      if p.imageFile.Some? {
        FileStays(t, u, p, p.imageFile.value);
      }
    }
  }

  lemma FileStays(t: Tables, u: User, p: PlaylistRow, f: FileId)
    requires !BlocksWipe(t, u, p) && p.RefersTo(f) && IsFile(t, f)
    ensures IsFile(Wiped(t, u), f)
  {
    var r :| r in t.files && r.fileUUID == f;
    assert r in Wiped(t, u).files;
  }

  // ------------------------------------------------------- the log of one user

  /** One user's rows. */
  function Own(t: Tables, u: User): Tables {
    Tables((set r | r in t.users && r.uuid == u),
           (set r | r in t.audiusUsers && r.owner == u), (set r | r in t.tracks && r.owner == u),
           (set r | r in t.files && r.owner == u), (set r | r in t.playlists && r.owner == u),
           (set r | r in t.clockRecords && r.owner == u), (set r | r in t.tokens && r.owner == u))
  }

  /** The log that one user's rows make up. */
  ghost function LogOf(own: Tables, clock: nat): UserLog {
    UserLog(clock,
            map k | k in (set r | r in own.clockRecords :: r.clock) :: SourceAt(own.clockRecords, k),
            DataOf(own))
  }

  ghost function DataOf(own: Tables): set<(nat, Table)> {
    (set r | r in own.audiusUsers :: (r.clock, AudiusUser)) + (set r | r in own.tracks :: (r.clock, Track))
    + (set r | r in own.files :: (r.clock, File)) + (set r | r in own.playlists :: (r.clock, Playlist))
  }

  ghost function SourceAt(records: set<ClockRow>, k: nat): Table
    requires exists r :: r in records && r.clock == k
  {
    var r :| r in records && r.clock == k;
    r.sourceTable
  }

  /** The wipe is blocked exactly when the user's log has a Playlist row. */
  lemma BlockedIffLogHasPlaylist(t: Tables, u: User, clock: nat)
    requires OwnFilesOnly(t)
    ensures Blocked(t, u) <==> HasPlaylist(LogOf(Own(t, u), clock))
  {
    BlockedIffHasPlaylist(t, u);
    if p :| p in t.playlists && p.owner == u {
      assert p in Own(t, u).playlists;
      assert (p.clock, Playlist) in DataOf(Own(t, u));
    }
  }

  /** No other user's rows, and so no other user's log, are touched. */
  lemma WipeTouchesOneUser(t: Tables, u: User, other: User, clock: nat)
    requires other != u
    ensures Own(Wiped(t, u), other) == Own(t, other)
    ensures LogOf(Own(Wiped(t, u), other), clock) == LogOf(Own(t, other), clock)
  {
    var was, now := Own(t, other), Own(Wiped(t, u), other);
    assert now.users == was.users && now.audiusUsers == was.audiusUsers && now.tracks == was.tracks;
    assert now.files == was.files && now.clockRecords == was.clockRecords && now.tokens == was.tokens;
  }

  /** And of the user's own nothing is left when the wipe is not blocked. */
  lemma WipeEmptiesTheUser(t: Tables, u: User)
    requires !Blocked(t, u)
    ensures Own(Wiped(t, u), u) == Tables({}, {}, {}, {}, {}, {}, {})
  {
    forall p | p in t.playlists ensures p.owner != u {
      assert !BlocksWipe(t, u, p);
    }
  }

  // --------------------------------------------------------------- the deletes

  datatype Lookup = ByUUID(user: User) | ByWallet(wallet: string)

  predicate Found(t: Tables, lookup: Lookup, row: UserRow) {
    row in t.users && match lookup case ByUUID(u) => row.uuid == u case ByWallet(w) => row.wallet == w
  }

  class Database {
    var t: Tables

    constructor (t: Tables)
      ensures this.t == t
    {
      this.t := t;
    }

    method DestroyAudiusUsers(u: User)
      modifies this
      ensures t == old(t).(audiusUsers := set r | r in old(t).audiusUsers && r.owner != u)
    {
      t := t.(audiusUsers := set r | r in t.audiusUsers && r.owner != u);
    }

    /** Files rows go unless a Playlists row refers to one of them. */
    method DestroyFiles(u: User, ofTracksOnly: bool) returns (ok: bool)
      modifies this
      ensures ok <==>
        forall f, p ::
          f in old(t).files && f.owner == u && (ofTracksOnly ==> f.ofTrack) && p in old(t).playlists ==>
            !p.RefersTo(f.fileUUID)
      ensures t == if ok
          then old(t).(files := set f | f in old(t).files && !(f.owner == u && (ofTracksOnly ==> f.ofTrack)))
          else old(t)
    {
      var doomed := set f | f in t.files && f.owner == u && (ofTracksOnly ==> f.ofTrack);
      ok := forall f, p :: f in doomed && p in t.playlists ==> !p.RefersTo(f.fileUUID);
      if ok {
        t := t.(files := t.files - doomed);
        assert t.files == set f | f in old(t).files && !(f.owner == u && (ofTracksOnly ==> f.ofTrack));
      }
    }

    method DestroyTracks(u: User)
      modifies this
      ensures t == old(t).(tracks := set r | r in old(t).tracks && r.owner != u)
    {
      t := t.(tracks := set r | r in t.tracks && r.owner != u);
    }

    /** Clock records go unless a data row still refers to one of them. */
    method DestroyClockRecords(u: User) returns (ok: bool)
      modifies this
      ensures ok <==> forall c :: c in old(t).clockRecords && c.owner == u ==>
        && (forall r :: r in old(t).audiusUsers + old(t).tracks ==> !(r.owner == u && r.clock == c.clock))
        && (forall f :: f in old(t).files ==> !(f.owner == u && f.clock == c.clock))
      ensures t == if ok then old(t).(clockRecords := set r | r in old(t).clockRecords && r.owner != u) else old(t)
    {
      ok := forall c :: c in t.clockRecords && c.owner == u ==>
        && (forall r :: r in t.audiusUsers + t.tracks ==> !(r.owner == u && r.clock == c.clock))
        && (forall f :: f in t.files ==> !(f.owner == u && f.clock == c.clock));
      if ok {
        t := t.(clockRecords := set r | r in t.clockRecords && r.owner != u);
      }
    }

    method DestroyTokens(u: User)
      modifies this
      ensures t == old(t).(tokens := set r | r in old(t).tokens && r.owner != u)
    {
      t := t.(tokens := set r | r in t.tokens && r.owner != u);
    }

    /** The user's row goes unless any row still refers to it. */
    method DestroyUser(u: User) returns (ok: bool)
      modifies this
      ensures ok <==>
        && (forall r :: r in old(t).audiusUsers + old(t).tracks ==> r.owner != u)
        && (forall r :: r in old(t).files ==> r.owner != u) && (forall r :: r in old(t).playlists ==> r.owner != u)
        && (forall r :: r in old(t).clockRecords ==> r.owner != u) && (forall r :: r in old(t).tokens ==> r.owner != u)
      ensures t == if ok then old(t).(users := set r | r in old(t).users && r.uuid != u) else old(t)
    {
      ok := && (forall r :: r in t.audiusUsers + t.tracks ==> r.owner != u)
            && (forall r :: r in t.files ==> r.owner != u) && (forall r :: r in t.playlists ==> r.owner != u)
            && (forall r :: r in t.clockRecords ==> r.owner != u) && (forall r :: r in t.tokens ==> r.owner != u);
      if ok {
        t := t.(users := set r | r in t.users && r.uuid != u);
      }
    }

    /** The statements in their order; `answered(n)` says whether statement `n` gets through at all. */
    method DeleteRows(u: User, answered: nat -> bool) returns (ok: bool)
      requires Referential(t)
      modifies this
      ensures ok <==> !Blocked(old(t), u) && forall n :: 1 <= n <= 7 ==> answered(n)
      ensures ok ==> t == Wiped(old(t), u)
    {
      ghost var start := t;
      if !answered(1) { return false; }
      DestroyAudiusUsers(u);
      if !answered(2) { return false; }
      ok := DestroyFiles(u, true);
      if !ok { FileBlocks(start, u); return; }
      if !answered(3) { return false; }
      DestroyTracks(u);
      if !answered(4) { return false; }
      ok := DestroyFiles(u, false);
      if !ok { FileBlocks(start, u); return; }
      if !answered(5) { return false; }
      ok := DestroyClockRecords(u);
      if !answered(6) { return false; }
      DestroyTokens(u);
      if !answered(7) { return false; }
      ok := DestroyUser(u);
    }

    /** A file of the user's that a Playlists row refers to blocks the wipe. */
    static lemma FileBlocks(t: Tables, u: User)
      ensures (exists f, p :: f in t.files && f.owner == u && p in t.playlists && p.RefersTo(f.fileUUID)) ==>
          Blocked(t, u)
    {
      if f, p :| f in t.files && f.owner == u && p in t.playlists && p.RefersTo(f.fileUUID) {
        assert BlocksWipe(t, u, p);
      }
    }

    /**
     * The whole deletion. It reports no error for a user that is not there. It
     * wipes the user if and only if there is one, no Playlists row blocks it and
     * every statement gets through; in every other case nothing changes at all.
     */
    method DeleteAllCNodeUserData(lookup: Lookup, answered: nat -> bool) returns (error: bool)
      requires Referential(t)
      modifies this
      ensures Referential(t)
      ensures (forall row :: !Found(old(t), lookup, row)) ==> t == old(t) && (error <==> !answered(0))
      ensures forall row :: Found(old(t), lookup, row) ==>
        && (!error <==> !Blocked(old(t), row.uuid) && forall n :: 0 <= n <= 7 ==> answered(n))
        && t == (if error then old(t) else Wiped(old(t), row.uuid))
        && Others(t, row.uuid) == Others(old(t), row.uuid)
    {
      ghost var start := t;
      var before := t;
      if !answered(0) {
        return true;
      }
      if !(exists row :: row in t.users && Found(t, lookup, row)) {
        return false;
      }
      var row :| row in t.users && Found(t, lookup, row);
      var ok := DeleteRows(row.uuid, answered);
      if ok {
        WipedIsReferential(before, row.uuid);
      } else {
        t := before;
      }
      error := !ok;
    }
  }
}
