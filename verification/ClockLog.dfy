/**
 * The per-user clocked log. Every write increments the user's clock, adds a
 * ClockRecord with the new value and adds a data row with the same value, inside
 * a transaction that may run next to others and may roll back.
 */
module ClockLog {
  import opened Util

  type User = string
  type TxnId = nat
  datatype Table = AudiusUser | Track | File | Playlist

  /**
   * One user's log. `records` maps a clock value to the table it is for (the
   * primary key allows one record per value); `data` holds the data rows.
   */
  datatype UserLog = UserLog(clock: nat, records: map<nat, Table>, data: set<(nat, Table)>)

  const EMPTY_LOG := UserLog(0, map[], {})

  /** The clock values are 1, 2, ..., clock. */
  ghost predicate GapFree(log: UserLog) {
    forall k :: k in log.records <==> 1 <= k <= log.clock
  }

  /** Each record has one data row of its clock value, in the table it names, and no other row exists. */
  ghost predicate OneRowPerRecord(log: UserLog) {
    log.data == set k | k in log.records :: (k, log.records[k])
  }

  // ------------------------------------------------------- the three statements

  /** The clock update of a createNewDataRecord call. */
  function Increment(log: UserLog): UserLog {
    log.(clock := log.clock + 1)
  }

  /** The ClockRecord insert reads the clock; a duplicate key is an error. */
  function InsertRecord(log: UserLog, t: Table): Option<UserLog> {
    if log.clock in log.records then None else Some(log.(records := log.records[log.clock := t]))
  }

  /**
   * In every table but Files the pair of blockchain id and clock is unique across
   * all users; `taken` says whether some row has the pair that is to be inserted.
   */
  predicate PairIsTaken(t: Table, taken: bool) {
    taken && t != File
  }

  /**
   * The data insert reads the clock. Its (user, clock) must be new in its table,
   * and so must its pair of blockchain id and clock; every table but Playlists
   * also refers to the clock record by a foreign key.
   */
  function InsertData(log: UserLog, t: Table, taken: bool): Option<UserLog> {
    if (log.clock, t) in log.data || PairIsTaken(t, taken) || (t != Playlist && log.clock !in log.records) then None
    else Some(log.(data := log.data + {(log.clock, t)}))
  }

  // ------------------------------------------------------------- transactions

  /**
   * A transaction writing one user's log. `view` is its own uncommitted copy,
   * None until its first clock update has taken the user's row lock. Calls that
   * have done their first (or second) statement wait in `toRecord` (`toData`).
   * `overlapped` remembers whether a call started while another was under way.
   */
  datatype Txn = Txn(user: User, view: Option<UserLog>, toRecord: multiset<Table>, toData: multiset<Table>,
                     overlapped: bool, failed: bool) {
    predicate UnderWay() {
      |toRecord| + |toData| > 0
    }
  }

  /** `unpaired` remembers the users for whom an overlapped transaction has been committed. */
  datatype Db = Db(logs: map<User, UserLog>, txns: map<TxnId, Txn>, unpaired: set<User>)

  datatype Event =
    | CreateUser(user: User)
    | Begin(id: TxnId, user: User)
    | DoIncrement(id: TxnId, table: Table)
    | DoInsertRecord(id: TxnId, table: Table)
    | DoInsertData(id: TxnId, table: Table, taken: bool)
    | Commit(id: TxnId)
    | Rollback(id: TxnId)
    | WipeUser(user: User)
    | FixInconsistent(user: User)

  predicate Locked(db: Db, user: User) {
    exists id :: id in db.txns && db.txns[id].user == user && db.txns[id].view.Some?
  }

  ghost predicate Live(db: Db, id: TxnId) {
    id in db.txns && !db.txns[id].failed
  }

  /** Statements wait for the row lock; a commit waits for its calls to finish. */
  ghost predicate Enabled(db: Db, ev: Event) {
    match ev
    case CreateUser(u) => u !in db.logs
    case Begin(id, u) => id !in db.txns
    case DoIncrement(id, _) =>
      Live(db, id) && (db.txns[id].view.None? ==> !Locked(db, db.txns[id].user))
    case DoInsertRecord(id, t) => Live(db, id) && db.txns[id].view.Some? && t in db.txns[id].toRecord
    case DoInsertData(id, t, _) => Live(db, id) && db.txns[id].view.Some? && t in db.txns[id].toData
    case Commit(id) => Live(db, id) && |db.txns[id].toRecord| == 0 && |db.txns[id].toData| == 0
    case Rollback(id) => id in db.txns
    case WipeUser(u) => u in db.logs && !Locked(db, u)
    case FixInconsistent(u) => !Locked(db, u)
  }

  /** A Playlists row refers to its user and its metadata file, and no wipe deletes it. */
  predicate HasPlaylist(log: UserLog) {
    exists x :: x in log.data && x.1 == Playlist
  }

  /** UPDATE ... SET clock = MAX(clock): no row is updated when there is no record. */
  function Fixed(log: UserLog): UserLog {
    if |log.records| == 0 then log else log.(clock := MaxOf(log.records.Keys))
  }

  function Apply(db: Db, ev: Event): Db
    requires Enabled(db, ev)
  {
    match ev
    case CreateUser(u) => db.(logs := db.logs[u := EMPTY_LOG], unpaired := db.unpaired - {u})
    case Begin(id, u) => db.(txns := db.txns[id := Txn(u, None, multiset{}, multiset{}, false, false)])
    case DoIncrement(id, t) =>
      var txn := db.txns[id];
      // without a user row nothing is updated, and the record insert reads a null clock
      if txn.view.None? && txn.user !in db.logs then db.(txns := db.txns[id := txn.(failed := true)])
      else
        var view := if txn.view.Some? then txn.view.value else db.logs[txn.user];
        db.(txns := db.txns[id := txn.(view := Some(Increment(view)), toRecord := txn.toRecord + multiset{t},
                                       overlapped := txn.overlapped || txn.UnderWay())])
    case DoInsertRecord(id, t) =>
      var txn := db.txns[id];
      var view := InsertRecord(txn.view.value, t);
      var txn' := if view.None? then txn.(failed := true)
                  else txn.(view := view, toRecord := txn.toRecord - multiset{t}, toData := txn.toData + multiset{t});
      db.(txns := db.txns[id := txn'])
    case DoInsertData(id, t, taken) =>
      var txn := db.txns[id];
      var view := InsertData(txn.view.value, t, taken);
      var txn' := if view.None? then txn.(failed := true)
                  else txn.(view := view, toData := txn.toData - multiset{t});
      db.(txns := db.txns[id := txn'])
    case Commit(id) =>
      var txn := db.txns[id];
      Db(if txn.view.Some? then db.logs[txn.user := txn.view.value] else db.logs, db.txns - {id},
         if txn.overlapped then db.unpaired + {txn.user} else db.unpaired)
    case Rollback(id) => db.(txns := db.txns - {id})
    case WipeUser(u) => if HasPlaylist(db.logs[u]) then db else db.(logs := db.logs - {u})
    case FixInconsistent(u) => if u in db.logs then db.(logs := db.logs[u := Fixed(db.logs[u])]) else db
  }

  ghost predicate Run(states: seq<Db>, events: seq<Event>) {
    && |states| == |events| + 1
    && states[0] == Db(map[], map[], {})
    && forall i :: 0 <= i < |events| ==> Enabled(states[i], events[i]) && states[i + 1] == Apply(states[i], events[i])
  }

  // -------------------------------------------------------------- gap freedom

  /** Each record not yet made leaves one of the values 1..clock unused. */
  ghost predicate PendingCount(txn: Txn) {
    && (txn.view.None? ==> txn.toRecord == multiset{} && txn.toData == multiset{})
    && (txn.view.Some? && !txn.failed ==>
          var log := txn.view.value;
          && (forall k :: k in log.records ==> 1 <= k <= log.clock)
          && |log.records| + |txn.toRecord| == log.clock)
  }

  ghost predicate Inv(db: Db) {
    && (forall u :: u in db.logs ==> GapFree(db.logs[u]))
    && (forall id :: id in db.txns ==> PendingCount(db.txns[id]))
    && (forall id, id' :: id in db.txns && id' in db.txns && id != id' && db.txns[id].user == db.txns[id'].user
          ==> db.txns[id].view.None? || db.txns[id'].view.None?)
    && (forall id :: id in db.txns && db.txns[id].view.Some? ==> db.txns[id].user in db.logs)
  }

  /** The set {1, 2, ..., n}. */
  ghost function UpTo(n: nat): set<nat> {
    if n == 0 then {} else UpTo(n - 1) + {n}
  }

  lemma {:induction false} UpToHasAll(n: nat)
    ensures forall k :: k in UpTo(n) <==> 1 <= k <= n
    ensures |UpTo(n)| == n
  {
    if n > 0 {
      UpToHasAll(n - 1);
    }
  }

  lemma SubsetOfSameSize(a: set<nat>, b: set<nat>)
    requires a <= b && |a| >= |b|
    ensures a == b
  {
    assert b == a + (b - a);
    assert |b - a| == 0;
  }

  /** As many distinct values as the range 1..clock holds are the whole range. */
  lemma FullRangeIsGapFree(log: UserLog)
    requires forall k :: k in log.records ==> 1 <= k <= log.clock
    requires |log.records| == log.clock
    ensures GapFree(log)
  {
    UpToHasAll(log.clock);
    assert |log.records.Keys| == |log.records|;
    SubsetOfSameSize(log.records.Keys, UpTo(log.clock));
  }

  lemma GapFreeIsFullRange(log: UserLog)
    requires GapFree(log)
    ensures |log.records| == log.clock
  {
    UpToHasAll(log.clock);
    assert log.records.Keys == UpTo(log.clock);
    assert |log.records.Keys| == |log.records|;
  }

  /** The clock of a gap-free log is its highest record, so fixing it changes nothing. */
  lemma FixLeavesConsistentUsersAlone(log: UserLog)
    requires GapFree(log)
    ensures Fixed(log) == log
  {
    GapFreeIsFullRange(log);
    if |log.records| != 0 {
      assert log.clock in log.records.Keys;
    }
  }

  /** Fixing sets the clock to the highest record of any log that has one, and is idempotent. */
  lemma FixSetsClockToMaxRecord(log: UserLog)
    ensures log.records != map[] ==> Fixed(log).clock in log.records
    ensures log.records != map[] ==> forall k :: k in log.records ==> k <= Fixed(log).clock
    ensures Fixed(log).records == log.records && Fixed(log).data == log.data
    ensures Fixed(Fixed(log)) == Fixed(log)
  {
    if log.records != map[] {
      assert log.records.Keys != {};
    }
  }

  /** Replacing one transaction keeps the invariant if the new one counts right and holds its own lock. */
  lemma PutTxn(db: Db, id: TxnId, txn: Txn)
    requires Inv(db) && PendingCount(txn)
    requires txn.view.Some? ==> txn.user in db.logs
    requires txn.view.Some? ==>
      forall other :: other in db.txns && other != id && db.txns[other].user == txn.user ==> db.txns[other].view.None?
    ensures Inv(db.(txns := db.txns[id := txn]))
  {}

  lemma IncrementKeepsInv(db: Db, id: TxnId, t: Table)
    requires Inv(db) && Enabled(db, DoIncrement(id, t))
    ensures Inv(Apply(db, DoIncrement(id, t)))
  {
    var txn := db.txns[id];
    if txn.view.None? && txn.user in db.logs {
      GapFreeIsFullRange(db.logs[txn.user]);
    }
    PutTxn(db, id, Apply(db, DoIncrement(id, t)).txns[id]);
  }

  lemma InsertRecordKeepsInv(db: Db, id: TxnId, t: Table)
    requires Inv(db) && Enabled(db, DoInsertRecord(id, t))
    ensures Inv(Apply(db, DoInsertRecord(id, t)))
  {
    var view := db.txns[id].view.value;
    if view.clock !in view.records {
      assert |view.records[view.clock := t]| == |view.records| + 1;
    }
    PutTxn(db, id, Apply(db, DoInsertRecord(id, t)).txns[id]);
  }

  lemma InsertDataKeepsInv(db: Db, id: TxnId, t: Table, taken: bool)
    requires Inv(db) && Enabled(db, DoInsertData(id, t, taken))
    ensures Inv(Apply(db, DoInsertData(id, t, taken)))
  {
    PutTxn(db, id, Apply(db, DoInsertData(id, t, taken)).txns[id]);
  }

  lemma CommitKeepsInv(db: Db, id: TxnId)
    requires Inv(db) && Enabled(db, Commit(id))
    ensures Inv(Apply(db, Commit(id)))
  {
    if db.txns[id].view.Some? {
      FullRangeIsGapFree(db.txns[id].view.value);
    }
  }

  lemma FixChangesNothing(db: Db, u: User)
    requires Inv(db) && Enabled(db, FixInconsistent(u)) && u in db.logs
    ensures Apply(db, FixInconsistent(u)) == db
  {
    FixLeavesConsistentUsersAlone(db.logs[u]);
  }

  lemma StepKeepsInv(db: Db, ev: Event)
    requires Inv(db) && Enabled(db, ev)
    ensures Inv(Apply(db, ev))
  {
    match ev
    case Begin(id, u) => PutTxn(db, id, Apply(db, ev).txns[id]);
    case DoIncrement(id, t) => IncrementKeepsInv(db, id, t);
    case DoInsertRecord(id, t) => InsertRecordKeepsInv(db, id, t);
    case DoInsertData(id, t, taken) => InsertDataKeepsInv(db, id, t, taken);
    case Commit(id) => CommitKeepsInv(db, id);
    case FixInconsistent(u) =>
      if u in db.logs {
        FixChangesNothing(db, u);
      }
    case _ =>
  }

  /**
   * Under every interleaving of transactions, of calls within a transaction, of
   * rollbacks, wipes and clock fixes, every user's committed clock records are
   * exactly 1, 2, ..., clock.
   */
  lemma {:induction false} EveryRunIsGapFree(states: seq<Db>, events: seq<Event>)
    requires Run(states, events)
    ensures Inv(states[|events|])
    ensures forall u :: u in states[|events|].logs ==> GapFree(states[|events|].logs[u])
  {
    if |events| > 0 {
      var last := |events| - 1;
      var before := states[..last + 1];
      assert forall i :: 0 <= i <= last ==> before[i] == states[i];
      EveryRunIsGapFree(before, events[..last]);
      StepKeepsInv(states[last], events[last]);
    }
  }

  // ------------------------------------------------------ one data row per record

  /** A call under way has at most its newest record without a data row. */
  ghost predicate AtMostOneUnderWay(txn: Txn) {
    txn.view.Some? && !txn.failed ==>
      var log := txn.view.value;
      var rows := set k | k in log.records :: (k, log.records[k]);
      && |txn.toRecord| + |txn.toData| <= 1
      && (forall k :: k in log.records ==> 1 <= k <= log.clock)
      && (txn.toData == multiset{} ==> log.data == rows)
      && (forall t :: t in txn.toData ==>
            && log.clock in log.records && log.records[log.clock] == t
            && log.data == rows - {(log.clock, t)})
      && (|txn.toRecord| == 1 ==> log.clock !in log.records)
  }

  /** A clock value that is past lacks its record, or the data row of its record. */
  ghost predicate HoleAt(log: UserLog, k: nat) {
    1 <= k < log.clock && (k !in log.records || (k, log.records[k]) !in log.data)
  }

  ghost predicate HasHole(log: UserLog) {
    exists k :: HoleAt(log, k)
  }

  /** A hole behind the clock is never filled: every statement writes at the clock. */
  lemma HolesStay(log: UserLog, k: nat, t: Table, taken: bool)
    requires HoleAt(log, k)
    ensures HoleAt(Increment(log), k)
    ensures InsertRecord(log, t).Some? ==> HoleAt(InsertRecord(log, t).value, k)
    ensures InsertData(log, t, taken).Some? ==> HoleAt(InsertData(log, t, taken).value, k)
  {}

  /** A gap-free log with a hole lacks a data row. */
  lemma HolesAreUnpaired(log: UserLog)
    requires GapFree(log) && HasHole(log)
    ensures !OneRowPerRecord(log)
  {
    var k :| HoleAt(log, k);
    assert k in log.records && (k, log.records[k]) !in log.data;
  }

  /** A log that is complete, or the view of a transaction that has spoilt it or started from a spoilt one. */
  ghost predicate RowInv(db: Db) {
    && (forall u :: u in db.logs ==> if u in db.unpaired then HasHole(db.logs[u]) else OneRowPerRecord(db.logs[u]))
    && (forall id :: id in db.txns ==> TxnRows(db.txns[id], db.unpaired))
  }

  ghost predicate TxnRows(txn: Txn, unpaired: set<User>) {
    && (txn.view.None? ==> !txn.overlapped)
    && (txn.view.Some? && !txn.failed ==>
          if txn.overlapped || txn.user in unpaired then HasHole(txn.view.value) else AtMostOneUnderWay(txn))
  }

  lemma EmptyMultiset(m: multiset<Table>)
    requires |m| == 0
    ensures m == multiset{}
  {}

  lemma SingletonMultiset(m: multiset<Table>, t: Table)
    requires t in m && |m| <= 1
    ensures m == multiset{t}
  {
    var rest := m - multiset{t};
    assert m == rest + multiset{t};
    EmptyMultiset(rest);
  }

  /** A call that starts while another is under way leaves the other's clock value behind. */
  lemma OverlapMakesHole(txn: Txn)
    requires txn.view.Some? && !txn.failed && AtMostOneUnderWay(txn) && PendingCount(txn) && txn.UnderWay()
    ensures HasHole(Increment(txn.view.value))
  {
    var log := txn.view.value;
    if |txn.toRecord| == 1 {
      assert log.clock !in log.records;
    } else {
      EmptyMultiset(txn.toRecord);
      assert |txn.toData| == 1;
      var t :| t in txn.toData;
      assert (log.clock, t) !in log.data;
    }
    assert log.clock >= 1 by {
      if |txn.toRecord| != 1 {
        assert log.clock in log.records;
      }
    }
    assert HoleAt(Increment(log), log.clock);
  }

  lemma IncrementKeepsRows(db: Db, id: TxnId, t: Table)
    requires Inv(db) && RowInv(db) && Enabled(db, DoIncrement(id, t))
    ensures TxnRows(Apply(db, DoIncrement(id, t)).txns[id], db.unpaired)
  {
    var txn := db.txns[id];
    if txn.view.Some? {
      if txn.overlapped || txn.user in db.unpaired {
        var k :| HoleAt(txn.view.value, k);
        HolesStay(txn.view.value, k, t, false);
      } else if txn.UnderWay() {
        OverlapMakesHole(txn);
      } else {
        EmptyMultiset(txn.toRecord);
        EmptyMultiset(txn.toData);
      }
    } else if txn.user in db.logs && txn.user in db.unpaired {
      var k :| HoleAt(db.logs[txn.user], k);
      HolesStay(db.logs[txn.user], k, t, false);
    }
  }

  lemma InsertRecordKeepsRows(db: Db, id: TxnId, t: Table)
    requires Inv(db) && RowInv(db) && Enabled(db, DoInsertRecord(id, t))
    ensures TxnRows(Apply(db, DoInsertRecord(id, t)).txns[id], db.unpaired)
  {
    var txn := db.txns[id];
    if txn.overlapped || txn.user in db.unpaired {
      var k :| HoleAt(txn.view.value, k);
      HolesStay(txn.view.value, k, t, false);
    } else {
      OneRecordUnderWay(txn, t);
    }
  }

  lemma OneRecordUnderWay(txn: Txn, t: Table)
    requires txn.view.Some? && !txn.failed && AtMostOneUnderWay(txn) && PendingCount(txn) && t in txn.toRecord
    ensures var log := txn.view.value; var log' := InsertRecord(log, t);
      log'.Some?
        && AtMostOneUnderWay(txn.(view := log', toRecord := txn.toRecord - multiset{t},
                                  toData := txn.toData + multiset{t}))
  {
    SingletonMultiset(txn.toRecord, t);
    EmptyMultiset(txn.toData);
    var log := txn.view.value;
    var log' := log.(records := log.records[log.clock := t]);
    var rows' := set k | k in log'.records :: (k, log'.records[k]);
    assert (log.clock, t) !in log.data;
    forall x ensures x in rows' - {(log.clock, t)} <==> x in log.data {
      if x in rows' - {(log.clock, t)} {
        var k :| k in log'.records && x == (k, log'.records[k]);
        assert k in log.records;
      }
      if x in log.data {
        var k :| k in log.records && x == (k, log.records[k]);
        assert k in log'.records && k != log.clock;
      }
    }
    assert rows' - {(log.clock, t)} == log.data;
  }

  lemma InsertDataKeepsRows(db: Db, id: TxnId, t: Table, taken: bool)
    requires Inv(db) && RowInv(db) && Enabled(db, DoInsertData(id, t, taken))
    ensures TxnRows(Apply(db, DoInsertData(id, t, taken)).txns[id], db.unpaired)
  {
    var txn := db.txns[id];
    if txn.overlapped || txn.user in db.unpaired {
      var k :| HoleAt(txn.view.value, k);
      HolesStay(txn.view.value, k, t, taken);
    } else {
      SingletonMultiset(txn.toData, t);
      EmptyMultiset(txn.toRecord);
    }
  }

  lemma PutTxnKeepsRows(db: Db, id: TxnId, txn: Txn)
    requires RowInv(db) && TxnRows(txn, db.unpaired)
    ensures RowInv(db.(txns := db.txns[id := txn]))
  {}

  lemma CommitKeepsRows(db: Db, id: TxnId)
    requires Inv(db) && RowInv(db) && Enabled(db, Commit(id))
    ensures RowInv(Apply(db, Commit(id)))
  {
    EmptyMultiset(db.txns[id].toData);
  }

  /** A user's last row lock is gone when the user is, so a new user of that name starts afresh. */
  lemma CreateKeepsRows(db: Db, u: User)
    requires Inv(db) && RowInv(db) && Enabled(db, CreateUser(u))
    ensures RowInv(Apply(db, CreateUser(u)))
  {
    var db' := Apply(db, CreateUser(u));
    forall id | id in db'.txns ensures TxnRows(db'.txns[id], db'.unpaired) {
      assert db.txns[id].view.Some? ==> db.txns[id].user in db.logs;
    }
  }

  lemma StepKeepsRows(db: Db, ev: Event)
    requires Inv(db) && RowInv(db) && Enabled(db, ev)
    ensures RowInv(Apply(db, ev))
  {
    match ev
    case CreateUser(u) => CreateKeepsRows(db, u);
    case Begin(id, u) => PutTxnKeepsRows(db, id, Apply(db, ev).txns[id]);
    case DoIncrement(id, t) =>
      IncrementKeepsRows(db, id, t);
      PutTxnKeepsRows(db, id, Apply(db, ev).txns[id]);
    case DoInsertRecord(id, t) =>
      InsertRecordKeepsRows(db, id, t);
      PutTxnKeepsRows(db, id, Apply(db, ev).txns[id]);
    case DoInsertData(id, t, taken) =>
      InsertDataKeepsRows(db, id, t, taken);
      PutTxnKeepsRows(db, id, Apply(db, ev).txns[id]);
    case Commit(id) => CommitKeepsRows(db, id);
    case FixInconsistent(u) =>
      if u in db.logs {
        FixChangesNothing(db, u);
      }
    case _ =>
  }

  lemma {:induction false} EveryRunKeepsRows(states: seq<Db>, events: seq<Event>)
    requires Run(states, events)
    ensures Inv(states[|events|]) && RowInv(states[|events|])
  {
    EveryRunIsGapFree(states, events);
    if |events| > 0 {
      var last := |events| - 1;
      var before := states[..last + 1];
      assert forall i :: 0 <= i <= last ==> before[i] == states[i];
      EveryRunKeepsRows(before, events[..last]);
      StepKeepsRows(states[last], events[last]);
    }
  }

  /**
   * On every run, exactly: each committed record of a user has its data row, in
   * the table it names, and no other row exists, if and only if no transaction
   * with overlapping calls has been committed for this user.
   */
  lemma PairedIffNoOverlapCommitted(states: seq<Db>, events: seq<Event>, u: User)
    requires Run(states, events) && u in states[|events|].logs
    ensures OneRowPerRecord(states[|events|].logs[u]) <==> u !in states[|events|].unpaired
  {
    EveryRunKeepsRows(states, events);
    EveryRunIsGapFree(states, events);
    var log := states[|events|].logs[u];
    if u in states[|events|].unpaired {
      HolesAreUnpaired(log);
    }
  }

  /** The calls of a transaction are awaited one after the other. */
  ghost predicate Awaited(states: seq<Db>, events: seq<Event>)
    requires |states| == |events| + 1
  {
    forall i :: 0 <= i < |events| && events[i].DoIncrement? && events[i].id in states[i].txns ==>
      !states[i].txns[events[i].id].UnderWay()
  }

  ghost predicate NoOverlap(db: Db) {
    db.unpaired == {} && forall id :: id in db.txns ==> !db.txns[id].overlapped
  }

  lemma AwaitedStepKeepsNoOverlap(db: Db, ev: Event)
    requires Enabled(db, ev) && NoOverlap(db)
    requires ev.DoIncrement? ==> !db.txns[ev.id].UnderWay()
    ensures NoOverlap(Apply(db, ev))
  {}

  lemma {:induction false} AwaitedMeansNoOverlap(states: seq<Db>, events: seq<Event>)
    requires Run(states, events) && Awaited(states, events)
    ensures NoOverlap(states[|events|])
  {
    if |events| > 0 {
      var last := |events| - 1;
      var before := states[..last + 1];
      assert forall i :: 0 <= i <= last ==> before[i] == states[i];
      assert forall i :: 0 <= i < last ==> events[..last][i] == events[i];
      AwaitedMeansNoOverlap(before, events[..last]);
      AwaitedStepKeepsNoOverlap(states[last], events[last]);
    }
  }

  /**
   * So when each transaction awaits its calls one after the other, as all of the
   * node's callers do, every committed record has exactly one data row.
   */
  lemma AwaitedRunsPairRowsWithRecords(states: seq<Db>, events: seq<Event>)
    requires Run(states, events) && Awaited(states, events)
    ensures forall u :: u in states[|events|].logs ==> OneRowPerRecord(states[|events|].logs[u])
  {
    AwaitedMeansNoOverlap(states, events);
    forall u | u in states[|events|].logs ensures OneRowPerRecord(states[|events|].logs[u]) {
      PairedIffNoOverlapCommitted(states, events, u);
    }
  }

  /** And a commit of an overlapped transaction always breaks the pairing. */
  lemma OverlappedCommitBreaksThePairing(states: seq<Db>, events: seq<Event>, id: TxnId)
    requires Run(states, events) && Enabled(states[|events|], Commit(id)) && states[|events|].txns[id].overlapped
    ensures var db := Apply(states[|events|], Commit(id)); var u := states[|events|].txns[id].user;
      u in db.logs && GapFree(db.logs[u]) && !OneRowPerRecord(db.logs[u])
  {
    EveryRunKeepsRows(states, events);
    EveryRunIsGapFree(states, events);
    var txn := states[|events|].txns[id];
    FullRangeIsGapFree(txn.view.value);
    HolesAreUnpaired(txn.view.value);
  }

  /** A user and a transaction that has not written yet. */
  function Started(): Db {
    Db(map["u" := EMPTY_LOG], map[0 := Txn("u", None, multiset{}, multiset{}, false, false)], {})
  }

  lemma StartedIsReachable()
    ensures var users := Db(map["u" := EMPTY_LOG], map[], {});
      Leads(Db(map[], map[], {}), CreateUser("u"), users) && Leads(users, Begin(0, "u"), Started())
  {}

  lemma FirstIncrement(t: Table)
    ensures Leads(Started(), DoIncrement(0, t), Midway(Increment(EMPTY_LOG), multiset{t}, multiset{}, false))
  {
    assert multiset{} + multiset{t} == multiset{t};
  }

  /** One user without committed rows, one transaction under way. */
  function Midway(log: UserLog, toRecord: multiset<Table>, toData: multiset<Table>, overlapped: bool): Db {
    Db(map["u" := EMPTY_LOG], map[0 := Txn("u", Some(log), toRecord, toData, overlapped, false)], {})
  }

  ghost predicate Leads(db: Db, ev: Event, db': Db) {
    Enabled(db, ev) && Apply(db, ev) == db'
  }

  lemma MidwayIncrement(log: UserLog, d: multiset<Table>, t: Table)
    requires |d| > 0
    ensures Leads(Midway(log, multiset{}, d, false), DoIncrement(0, t), Midway(Increment(log), multiset{t}, d, true))
  {
    assert multiset{} + multiset{t} == multiset{t};
  }

  lemma MidwayInsertRecord(log: UserLog, d: multiset<Table>, t: Table, log': UserLog, o: bool)
    requires InsertRecord(log, t) == Some(log')
    ensures Leads(Midway(log, multiset{t}, d, o), DoInsertRecord(0, t), Midway(log', multiset{}, d + multiset{t}, o))
  {
    assert multiset{t} - multiset{t} == multiset{};
  }

  lemma MidwayInsertData(log: UserLog, d: multiset<Table>, t: Table, log': UserLog)
    requires InsertData(log, t, false) == Some(log')
    ensures Leads(Midway(log, multiset{}, d + multiset{t}, true), DoInsertData(0, t, false),
              Midway(log', multiset{}, d, true))
  {
    assert d + multiset{t} - multiset{t} == d;
  }

  lemma MidwayCommit(log: UserLog)
    ensures Leads(Midway(log, multiset{}, multiset{}, true), Commit(0), Db(map["u" := log], map[], {"u"}))
  {}

  /** The logs a File call and a Track call see when their statements alternate. */
  lemma AlternatingStatements(l2: UserLog, l4: UserLog, l5: UserLog, l6: UserLog)
    requires l2 == UserLog(1, map[1 := File], {})
    requires l4 == UserLog(2, map[1 := File, 2 := Track], {})
    requires l5 == UserLog(2, map[1 := File, 2 := Track], {(2, File)})
    requires l6 == UserLog(2, map[1 := File, 2 := Track], {(2, File), (2, Track)})
    ensures InsertRecord(Increment(EMPTY_LOG), File) == Some(l2)
    ensures InsertRecord(Increment(l2), Track) == Some(l4)
    ensures InsertData(l4, File, false) == Some(l5) && InsertData(l5, Track, false) == Some(l6)
    ensures GapFree(l6) && !OneRowPerRecord(l6)
  {
    assert map[][1 := File] == map[1 := File];
    assert map[1 := File][2 := Track] == map[1 := File, 2 := Track];
    assert {} + {(2, File)} == {(2, File)};
    assert {(2, File)} + {(2, Track)} == {(2, File), (2, Track)};
    assert (1, File) !in l6.data && 1 in l6.records;
  }

  /**
   * Not awaiting them breaks the pairing without any constraint noticing: a File
   * call and a Track call interleaved in one transaction commit two data rows at
   * clock 2 and none at clock 1.
   */
  lemma UnawaitedCallsCounterexample() returns (s0: Db, s1: Db, s2: Db, s3: Db, s4: Db, s5: Db, s6: Db, s7: Db)
    ensures var users := Db(map["u" := EMPTY_LOG], map[], {});
      Leads(Db(map[], map[], {}), CreateUser("u"), users) && Leads(users, Begin(0, "u"), s0)
    ensures Leads(s0, DoIncrement(0, File), s1) && Leads(s1, DoInsertRecord(0, File), s2)
    ensures Leads(s2, DoIncrement(0, Track), s3) && Leads(s3, DoInsertRecord(0, Track), s4)
    ensures Leads(s4, DoInsertData(0, File, false), s5) && Leads(s5, DoInsertData(0, Track, false), s6)
    ensures Leads(s6, Commit(0), s7)
    ensures "u" in s7.logs && !OneRowPerRecord(s7.logs["u"])
    ensures s7.logs["u"] == UserLog(2, map[1 := File, 2 := Track], {(2, File), (2, Track)})
  {
    var l2 := UserLog(1, map[1 := File], {});
    var l4 := UserLog(2, map[1 := File, 2 := Track], {});
    var l5 := UserLog(2, map[1 := File, 2 := Track], {(2, File)});
    var l6 := UserLog(2, map[1 := File, 2 := Track], {(2, File), (2, Track)});
    AlternatingStatements(l2, l4, l5, l6);
    var none: multiset<Table> := multiset{};
    StartedIsReachable();
    s0 := Started();
    s1 := Midway(Increment(EMPTY_LOG), multiset{File}, none, false);
    s2 := Midway(l2, none, none + multiset{File}, false);
    s3 := Midway(Increment(l2), multiset{Track}, none + multiset{File}, true);
    s4 := Midway(l4, none, none + multiset{File} + multiset{Track}, true);
    s5 := Midway(l5, none, none + multiset{Track}, true);
    s6 := Midway(l6, none, none, true);
    s7 := Db(map["u" := l6], map[], {"u"});
    FirstIncrement(File);
    MidwayInsertRecord(Increment(EMPTY_LOG), none, File, l2, false);
    MidwayIncrement(l2, none + multiset{File}, Track);
    MidwayInsertRecord(Increment(l2), none + multiset{File}, Track, l4, true);
    assert none + multiset{File} + multiset{Track} == none + multiset{Track} + multiset{File};
    MidwayInsertData(l4, none + multiset{Track}, File, l5);
    MidwayInsertData(l5, none, Track, l6);
    MidwayCommit(l6);
  }

  // ---------------------------------------------------------- one call, by itself

  /** What a call adds to a log: the next clock value, its record and its row. */
  function Extended(log: UserLog, t: Table): UserLog {
    UserLog(log.clock + 1, log.records[log.clock + 1 := t], log.data + {(log.clock + 1, t)})
  }

  /**
   * On a consistent log no statement of a call can fail, unless another row has
   * its pair of blockchain id and clock, and the result is consistent.
   */
  lemma CallExtendsTheLog(log: UserLog, t: Table, taken: bool)
    requires GapFree(log) && OneRowPerRecord(log)
    ensures InsertRecord(Increment(log), t).Some?
    ensures InsertData(InsertRecord(Increment(log), t).value, t, taken)
         == if PairIsTaken(t, taken) then None else Some(Extended(log, t))
    ensures GapFree(Extended(log, t)) && OneRowPerRecord(Extended(log, t))
  {
    assert (log.clock + 1, t) !in log.data;
    var log' := Extended(log, t);
    forall x ensures x in log'.data <==> x in set k | k in log'.records :: (k, log'.records[k]) {
      if x in log'.data {
        assert x.0 in log'.records;
      }
      if x in set k | k in log'.records :: (k, log'.records[k]) {
        var k :| k in log'.records && x == (k, log'.records[k]);
        if k != log.clock + 1 {
          assert k in log.records;
        }
      }
    }
  }

  /** The user's rows as one transaction sees them. */
  class TransactionView {
    var clock: nat
    var records: map<nat, Table>
    var data: set<(nat, Table)>

    constructor (log: UserLog)
      ensures Log() == log
    {
      clock, records, data := log.clock, log.records, log.data;
    }

    function Log(): UserLog
      reads this
    {
      UserLog(clock, records, data)
    }

    /**
     * One call: increment, clock record, data row; an error leaves it half done.
     * `taken` says whether the row's pair of blockchain id and clock exists already.
     */
    method CreateNewDataRecord(t: Table, taken: bool) returns (ok: bool)
      modifies this
      ensures ok <==> InsertRecord(Increment(old(Log())), t).Some?
                      && InsertData(InsertRecord(Increment(old(Log())), t).value, t, taken).Some?
      ensures old(GapFree(Log()) && OneRowPerRecord(Log())) ==>
                && (ok <==> !PairIsTaken(t, taken))
                && (ok ==> Log() == Extended(old(Log()), t) && GapFree(Log()) && OneRowPerRecord(Log()))
    {
      if GapFree(Log()) && OneRowPerRecord(Log()) {
        CallExtendsTheLog(Log(), t, taken);
      }
      clock := clock + 1;
      if clock in records {
        return false;
      }
      records := records[clock := t];
      if (clock, t) in data || PairIsTaken(t, taken) {
        return false;
      }
      data := data + {(clock, t)};
      ok := true;
    }
  }
}
