/**
 * The write quorum: a primary waits until one of its secondaries has synced a
 * write, and what that says about the three replicas.
 */
module WriteQuorum {
  import opened Util
  import opened ClockLog

  // ------------------------------------------------------------ one secondary

  /** What asking for a sync request gave. */
  datatype SyncRequest = Duplicate | Enqueued | NotCreated | RequestError

  /** How waiting for one secondary ended. */
  datatype SyncOutcome = DuplicateRequest | RequestNotCreated | CaughtUp(clock: int) | TimedOut | Failed

  predicate Resolved(o: SyncOutcome) {
    !o.TimedOut? && !o.Failed?
  }

  /** The first poll that shows the primary's clock or more. */
  function FirstCaughtUp(polls: seq<Option<int>>, primaryClockVal: int): SyncOutcome {
    if polls == [] then TimedOut
    else if polls[0].Some? && polls[0].value >= primaryClockVal then CaughtUp(polls[0].value)
    else FirstCaughtUp(polls[1..], primaryClockVal)
  }

  function SyncResult(request: SyncRequest, polls: seq<Option<int>>, primaryClockVal: int): SyncOutcome {
    match request
    case RequestError => Failed
    case Duplicate => DuplicateRequest
    case NotCreated => RequestNotCreated
    case Enqueued => FirstCaughtUp(polls, primaryClockVal)
  }

  /** Caught up means that a poll showed such a clock, and conversely. */
  lemma {:induction false} CaughtUpIffPolled(polls: seq<Option<int>>, primaryClockVal: int)
    ensures var o := FirstCaughtUp(polls, primaryClockVal);
      && (o.CaughtUp? <==> exists i :: 0 <= i < |polls| && polls[i].Some? && polls[i].value >= primaryClockVal)
      && (o.CaughtUp? ==> o.clock >= primaryClockVal && Some(o.clock) in polls)
      && (!o.CaughtUp? ==> o == TimedOut)
  {
    if polls != [] && !(polls[0].Some? && polls[0].value >= primaryClockVal) {
      CaughtUpIffPolled(polls[1..], primaryClockVal);
      assert polls == [polls[0]] + polls[1..];
    }
  }

  /** `polls` are the secondary's answers until the time is up; None is a failed poll. */
  method IssueSyncRequestsUntilSynced(request: SyncRequest, polls: seq<Option<int>>, primaryClockVal: int)
    returns (o: SyncOutcome)
    ensures o == SyncResult(request, polls, primaryClockVal)
    ensures o.CaughtUp? ==> request.Enqueued? && o.clock >= primaryClockVal && Some(o.clock) in polls
    ensures request.Enqueued? ==>
              (o.CaughtUp? <==> exists i :: 0 <= i < |polls| && polls[i].Some? && polls[i].value >= primaryClockVal)
    ensures request.Enqueued? && !o.CaughtUp? ==> o == TimedOut
  {
    CaughtUpIffPolled(polls, primaryClockVal);
    if request.RequestError? {
      return Failed;
    }
    if request.Duplicate? {
      return DuplicateRequest;
    }
    if request.NotCreated? {
      return RequestNotCreated;
    }
    for i := 0 to |polls|
      invariant FirstCaughtUp(polls[i..], primaryClockVal) == FirstCaughtUp(polls, primaryClockVal)
    {
      if polls[i].Some? && polls[i].value >= primaryClockVal {
        return CaughtUp(polls[i].value);
      }
    }
    o := TimedOut;
  }

  // ------------------------------------------------------------- the middleware

  datatype Header = Absent | Flag(value: bool) | Text(text: string)

  datatype Config = Config(enforceWriteQuorum: bool, manualSyncsDisabled: bool, endpoint: string)

  /** `wallet` is None when missing or empty, `endpoints` when missing or not an array. */
  datatype Session = NoSession | Session(wallet: Option<string>, nodeIsPrimary: bool, endpoints: Option<seq<string>>)

  /** The user's row as the primary reads it. */
  datatype ClockRead = ReadFails | NoUser | Clock(value: nat)

  datatype Outcome = Returned | Threw

  /** The documented precedence: the parameter, then an explicit header, then the configuration. */
  predicate Enforced(header: Header, ignoreWriteQuorum: bool, config: Config) {
    if ignoreWriteQuorum then false
    else if header == Flag(false) || header == Text("false") then false
    else if header == Flag(true) || header == Text("true") then true
    else config.enforceWriteQuorum
  }

  /** Everything that must hold before any secondary is asked. */
  predicate Ready(config: Config, session: Session, clock: ClockRead) {
    && !config.manualSyncsDisabled
    && session.Session? && session.wallet.Some? && session.nodeIsPrimary
    && session.endpoints.Some? && |session.endpoints.value| > 0 && session.endpoints.value[0] == config.endpoint
    && clock.Clock? && clock.value > 0
  }

  predicate Usable(isFqdn: string -> bool, endpoint: string) {
    endpoint != "" && isFqdn(endpoint)
  }

  /** Some usable secondary's sync resolved. */
  ghost predicate SomeSecondaryResolved(session: Session, isFqdn: string -> bool, sync: string -> SyncOutcome) {
    && session.Session? && session.endpoints.Some?
    && exists i :: 1 <= i < |session.endpoints.value|
         && Usable(isFqdn, session.endpoints.value[i]) && Resolved(sync(session.endpoints.value[i]))
  }

  /** When the middleware returns normally: always when not enforced, else when asked and answered. */
  ghost predicate Returns(header: Header, ignoreWriteQuorum: bool, config: Config, session: Session, clock: ClockRead,
                          isFqdn: string -> bool, sync: string -> SyncOutcome) {
    Enforced(header, ignoreWriteQuorum, config) ==>
      Ready(config, session, clock) && SomeSecondaryResolved(session, isFqdn, sync)
  }

  /** Waits for the first promise to resolve; rejects when all do, or when there is none. */
  method PromiseAny(outcomes: seq<SyncOutcome>) returns (ok: bool)
    ensures ok <==> exists i :: 0 <= i < |outcomes| && Resolved(outcomes[i])
  {
    ok := false;
    for i := 0 to |outcomes|
      invariant ok <==> exists j :: 0 <= j < i && Resolved(outcomes[j])
    {
      if Resolved(outcomes[i]) {
        ok := true;
      }
    }
  }

  /** The part inside the inner try: true when a secondary resolved. */
  method WaitForSecondaries(endpoints: seq<string>, isFqdn: string -> bool,
          sync: string -> SyncOutcome) returns (ok: bool)
    requires |endpoints| > 0
    ensures ok <==> exists i :: 1 <= i < |endpoints| && Usable(isFqdn, endpoints[i]) && Resolved(sync(endpoints[i]))
  {
    var outcomes := [];
    for i := 1 to |endpoints|
      invariant (exists j :: 0 <= j < |outcomes| && Resolved(outcomes[j]))
           <==> exists j :: 1 <= j < i && Usable(isFqdn, endpoints[j]) && Resolved(sync(endpoints[j]))
    {
      if Usable(isFqdn, endpoints[i]) {
        ghost var before := outcomes;
        outcomes := outcomes + [sync(endpoints[i])];
        assert outcomes[|before|] == sync(endpoints[i]);
        assert forall j :: 0 <= j < |before| ==> outcomes[j] == before[j];
      }
    }
    ok := PromiseAny(outcomes);
  }

  /**
   * Enforced, it returns normally exactly when the node was ready to ask and some
   * usable secondary's sync resolved; not enforced, it never throws.
   */
  method IssueAndWaitForSecondarySyncRequests(
    header: Header, ignoreWriteQuorum: bool, config: Config, session: Session, clock: ClockRead,
    isFqdn: string -> bool, sync: string -> SyncOutcome) returns (outcome: Outcome)
    ensures outcome == Returned <==> Returns(header, ignoreWriteQuorum, config, session, clock, isFqdn, sync)
    ensures Enforced(header, ignoreWriteQuorum, config) ==>
              (outcome == Returned <==> Ready(config, session, clock) && SomeSecondaryResolved(session, isFqdn, sync))
    ensures !Enforced(header, ignoreWriteQuorum, config) ==> outcome == Returned
  {
    var headerTrue := header == Flag(true) || header == Text("true");
    var headerFalse := header == Flag(false) || header == Text("false");
    var headerEmpty := !headerFalse || header == Text("null");
    var enforceWriteQuorum := false;
    if !ignoreWriteQuorum {
      if headerTrue {
        enforceWriteQuorum := true;
      } else if headerEmpty && config.enforceWriteQuorum {
        enforceWriteQuorum := true;
      }
    }
    if config.manualSyncsDisabled {
      return if enforceWriteQuorum then Threw else Returned;
    }
    if session.NoSession? || session.wallet.None? {
      return if enforceWriteQuorum then Threw else Returned;
    }
    var caught := false;  // an error reached the outer catch
    if !session.nodeIsPrimary || session.endpoints.None? {
      if !enforceWriteQuorum {
        return Returned;
      }
      caught := true;
    } else if |session.endpoints.value| == 0 || session.endpoints.value[0] != config.endpoint {
      caught := true;
    } else if !clock.Clock? || clock.value == 0 {
      caught := true;
    } else {
      var ok := WaitForSecondaries(session.endpoints.value, isFqdn, sync);
      caught := !ok && enforceWriteQuorum;
    }
    outcome := if caught && enforceWriteQuorum then Threw else Returned;
  }

  // ---------------------------------------------------------------- replication

  /** One user's log on the primary and on two secondaries. */
  datatype Cluster = Cluster(primary: UserLog, secondary1: UserLog, secondary2: UserLog)

  datatype ReplicaEvent =
    | PrimaryWrites(table: Table)
    | Sync1(upTo: nat)
    | Sync2(upTo: nat)
    | Wipe1
    | Wipe2

  /** The export has every clock record, and the rows of every table but Playlists. */
  predicate Exported(x: (nat, Table)) {
    x.1 != Playlist
  }

  /** What a replica has that synced up to `k`: all records, and the exported rows. */
  ghost function Replicated(log: UserLog, k: nat): UserLog {
    UserLog(k, map j | j in log.records && j <= k :: log.records[j], set x | x in log.data && x.0 <= k && Exported(x))
  }

  /** What a sync adds: the primary's records and exported rows above the secondary's clock. */
  ghost function Appended(secondary: UserLog, primary: UserLog, upTo: nat): UserLog {
    UserLog(upTo,
            secondary.records + map j | j in primary.records && secondary.clock < j <= upTo :: primary.records[j],
            secondary.data + set x | x in primary.data && secondary.clock < x.0 <= upTo && Exported(x))
  }

  ghost predicate SyncEnabled(secondary: UserLog, primary: UserLog, upTo: nat) {
    secondary.clock < upTo <= primary.clock
  }

  ghost predicate ReplicaEnabled(c: Cluster, ev: ReplicaEvent) {
    match ev
    case Sync1(upTo) => SyncEnabled(c.secondary1, c.primary, upTo)
    case Sync2(upTo) => SyncEnabled(c.secondary2, c.primary, upTo)
    case _ => true
  }

  /** A wipe goes through unless a Playlists row blocks it. */
  ghost function AfterWipe(log: UserLog): UserLog {
    if HasPlaylist(log) then log else EMPTY_LOG
  }

  ghost function ReplicaApply(c: Cluster, ev: ReplicaEvent): Cluster {
    match ev
    case PrimaryWrites(t) => c.(primary := Extended(c.primary, t))
    case Sync1(upTo) => c.(secondary1 := Appended(c.secondary1, c.primary, upTo))
    case Sync2(upTo) => c.(secondary2 := Appended(c.secondary2, c.primary, upTo))
    case Wipe1 => c.(secondary1 := AfterWipe(c.secondary1))
    case Wipe2 => c.(secondary2 := AfterWipe(c.secondary2))
  }

  ghost predicate ReplicaRun(states: seq<Cluster>, events: seq<ReplicaEvent>) {
    && |states| == |events| + 1
    && states[0] == Cluster(EMPTY_LOG, EMPTY_LOG, EMPTY_LOG)
    && forall i :: 0 <= i < |events| ==>
         ReplicaEnabled(states[i], events[i]) && states[i + 1] == ReplicaApply(states[i], events[i])
  }

  ghost predicate IsReplica(log: UserLog, primary: UserLog) {
    log.clock <= primary.clock && log == Replicated(primary, log.clock)
  }

  /** Each secondary's clock certifies the primary's records and exported rows up to it. */
  ghost predicate Certified(c: Cluster) {
    && GapFree(c.primary) && OneRowPerRecord(c.primary)
    && IsReplica(c.secondary1, c.primary) && IsReplica(c.secondary2, c.primary)
  }

  lemma WriteKeepsReplica(log: UserLog, primary: UserLog, t: Table)
    requires GapFree(primary) && OneRowPerRecord(primary) && IsReplica(log, primary)
    ensures IsReplica(log, Extended(primary, t))
  {
    var longer := Extended(primary, t);
    assert forall j :: j in primary.records ==> j != primary.clock + 1;
    assert Replicated(longer, log.clock).records == Replicated(primary, log.clock).records;
    assert Replicated(longer, log.clock).data == Replicated(primary, log.clock).data;
  }

  lemma SyncMakesReplica(log: UserLog, primary: UserLog, upTo: nat)
    requires IsReplica(log, primary) && SyncEnabled(log, primary, upTo)
    ensures IsReplica(Appended(log, primary, upTo), primary)
  {
    assert Appended(log, primary, upTo).records == Replicated(primary, upTo).records;
    assert Appended(log, primary, upTo).data == Replicated(primary, upTo).data;
  }

  lemma EmptyIsReplica(primary: UserLog)
    requires GapFree(primary) && OneRowPerRecord(primary)
    ensures IsReplica(EMPTY_LOG, primary)
  {
    assert Replicated(primary, 0).records == map[];
    assert Replicated(primary, 0).data == {};
  }

  /** A replica never has a Playlists row, so nothing blocks its wipe. */
  lemma ReplicasCanBeWiped(log: UserLog, primary: UserLog)
    requires IsReplica(log, primary)
    ensures AfterWipe(log) == EMPTY_LOG
  {}

  lemma ReplicaStepKeepsCertified(c: Cluster, ev: ReplicaEvent)
    requires Certified(c) && ReplicaEnabled(c, ev)
    ensures Certified(ReplicaApply(c, ev))
  {
    EmptyIsReplica(c.primary);
    match ev
    case PrimaryWrites(t) =>
      CallExtendsTheLog(c.primary, t, false);
      WriteKeepsReplica(c.secondary1, c.primary, t);
      WriteKeepsReplica(c.secondary2, c.primary, t);
    case Sync1(upTo) => SyncMakesReplica(c.secondary1, c.primary, upTo);
    case Sync2(upTo) => SyncMakesReplica(c.secondary2, c.primary, upTo);
    case Wipe1 => ReplicasCanBeWiped(c.secondary1, c.primary);
    case Wipe2 => ReplicasCanBeWiped(c.secondary2, c.primary);
  }

  /**
   * Through writes, syncs in chunks and wipes, every secondary has exactly the
   * primary's records and exported rows up to its own clock.
   */
  lemma {:induction false} EveryClusterIsCertified(states: seq<Cluster>, events: seq<ReplicaEvent>)
    requires ReplicaRun(states, events)
    ensures Certified(states[|events|])
  {
    if |events| == 0 {
      EmptyIsReplica(EMPTY_LOG);
    } else {
      var last := |events| - 1;
      var before := states[..last + 1];
      assert forall i :: 0 <= i <= last ==> before[i] == states[i];
      EveryClusterIsCertified(before, events[..last]);
      ReplicaStepKeepsCertified(states[last], events[last]);
    }
  }

  /** The replica has the primary's records 1..clock, each with its data row. */
  ghost predicate Holds(replica: UserLog, primary: UserLog, clock: nat) {
    forall k :: 1 <= k <= clock ==> HoldsRecord(replica, primary, k) && (k, primary.records[k]) in replica.data
  }

  ghost predicate HoldsRecord(replica: UserLog, primary: UserLog, k: nat) {
    k in primary.records && k in replica.records && replica.records[k] == primary.records[k]
  }

  /** The same, with the data rows of the exported tables only. */
  ghost predicate HoldsExported(replica: UserLog, primary: UserLog, clock: nat) {
    forall k :: 1 <= k <= clock ==>
      HoldsRecord(replica, primary, k) && (primary.records[k] != Playlist ==> (k, primary.records[k]) in replica.data)
  }

  /** Whichever replica is lost, another one holds everything up to `clock`. */
  ghost predicate SurvivesAnyLoss(c: Cluster, clock: nat) {
    && (Holds(c.secondary1, c.primary, clock) || Holds(c.secondary2, c.primary, clock))
    && (Holds(c.primary, c.primary, clock) || Holds(c.secondary2, c.primary, clock))
    && (Holds(c.primary, c.primary, clock) || Holds(c.secondary1, c.primary, clock))
  }

  ghost predicate ExportedSurvivesAnyLoss(c: Cluster, clock: nat) {
    && (HoldsExported(c.secondary1, c.primary, clock) || HoldsExported(c.secondary2, c.primary, clock))
    && (HoldsExported(c.primary, c.primary, clock) || HoldsExported(c.secondary2, c.primary, clock))
    && (HoldsExported(c.primary, c.primary, clock) || HoldsExported(c.secondary1, c.primary, clock))
  }

  /** No record up to `clock` is a playlist's. */
  ghost predicate NoPlaylists(primary: UserLog, clock: nat) {
    forall k :: 1 <= k <= clock && k in primary.records ==> primary.records[k] != Playlist
  }

  lemma ReplicaHoldsExported(log: UserLog, primary: UserLog, clock: nat)
    requires GapFree(primary) && OneRowPerRecord(primary) && IsReplica(log, primary) && clock <= log.clock
    ensures HoldsExported(log, primary, clock)
  {
    forall k | 1 <= k <= clock
      ensures HoldsRecord(log, primary, k) && (primary.records[k] != Playlist ==> (k, primary.records[k]) in log.data)
    {
      assert k in primary.records;
      assert (k, primary.records[k]) in primary.data;
    }
  }

  /** A replica that reaches the clock holds all of it exactly when none of it is a playlist's. */
  lemma ReplicaHoldsIffNoPlaylists(log: UserLog, primary: UserLog, clock: nat)
    requires GapFree(primary) && OneRowPerRecord(primary) && IsReplica(log, primary) && clock <= log.clock
    ensures Holds(log, primary, clock) <==> NoPlaylists(primary, clock)
  {
    ReplicaHoldsExported(log, primary, clock);
    if Holds(log, primary, clock) {
      forall k | 1 <= k <= clock && k in primary.records ensures primary.records[k] != Playlist {
        assert (k, primary.records[k]) in log.data;
      }
    }
  }

  /** With its clock behind `clock`, or empty, a replica may lack records. */
  lemma EmptyHoldsNothing(primary: UserLog, clock: nat)
    requires clock >= 1
    ensures !Holds(EMPTY_LOG, primary, clock) && !HoldsExported(EMPTY_LOG, primary, clock)
  {
    assert !HoldsRecord(EMPTY_LOG, primary, 1);
  }

  /** A caught-up answer is a clock the secondary really has. */
  ghost predicate Truthful(c: Cluster, o1: SyncOutcome, o2: SyncOutcome) {
    && (o1.CaughtUp? ==> o1.clock <= c.secondary1.clock)
    && (o2.CaughtUp? ==> o2.clock <= c.secondary2.clock)
  }

  /** The states of the replicas that the two outcomes leave possible. */
  ghost predicate Possible(c: Cluster, primary: UserLog, o1: SyncOutcome, o2: SyncOutcome) {
    c.primary == primary && Certified(c) && Truthful(c, o1, o2)
  }

  ghost predicate Guaranteed(primary: UserLog, clock: nat, o1: SyncOutcome, o2: SyncOutcome) {
    forall c: Cluster :: Possible(c, primary, o1, o2) ==> SurvivesAnyLoss(c, clock)
  }

  ghost predicate ExportedGuaranteed(primary: UserLog, clock: nat, o1: SyncOutcome, o2: SyncOutcome) {
    forall c: Cluster :: Possible(c, primary, o1, o2) ==> ExportedSurvivesAnyLoss(c, clock)
  }

  /** Each outcome fits the primary's log, and a caught-up one has reached the clock. */
  ghost predicate Outcomes(primary: UserLog, clock: nat, o1: SyncOutcome, o2: SyncOutcome) {
    && GapFree(primary) && OneRowPerRecord(primary) && 1 <= clock <= primary.clock
    && (o1.CaughtUp? ==> clock <= o1.clock <= primary.clock)
    && (o2.CaughtUp? ==> clock <= o2.clock <= primary.clock)
  }

  /** A state in which every secondary has just what its outcome says: its clock, or nothing. */
  ghost function Least(primary: UserLog, o1: SyncOutcome, o2: SyncOutcome): Cluster
    requires (o1.CaughtUp? ==> 0 <= o1.clock) && (o2.CaughtUp? ==> 0 <= o2.clock)
  {
    Cluster(primary,
            if o1.CaughtUp? then Replicated(primary, o1.clock) else EMPTY_LOG,
            if o2.CaughtUp? then Replicated(primary, o2.clock) else EMPTY_LOG)
  }

  /**
   * What a success guarantees. Every record and every exported row up to the
   * clock survives the loss of any one of the three replicas if and only if a
   * secondary answered with a clock that high; a sync that resolved because a
   * request was already queued, or could not be created, guarantees nothing.
   */
  lemma ExportedIsDurableIffCaughtUp(primary: UserLog, clock: nat, o1: SyncOutcome, o2: SyncOutcome)
    requires Outcomes(primary, clock, o1, o2)
    ensures ExportedGuaranteed(primary, clock, o1, o2) <==> o1.CaughtUp? || o2.CaughtUp?
  {
    if o1.CaughtUp? || o2.CaughtUp? {
      forall c: Cluster | Possible(c, primary, o1, o2) ensures ExportedSurvivesAnyLoss(c, clock) {
        if o1.CaughtUp? {
          ReplicaHoldsExported(c.secondary1, primary, clock);
        } else {
          ReplicaHoldsExported(c.secondary2, primary, clock);
        }
      }
    } else {
      EmptyHoldsNothing(primary, clock);
      assert !ExportedSurvivesAnyLoss(Least(primary, o1, o2), clock);
    }
  }

  /**
   * And everything up to the clock survives, every data row included, if and only
   * if besides no record up to it is a playlist's: Playlists rows are never
   * replicated, so only the primary has them.
   */
  lemma SuccessIsDurableIffCaughtUp(primary: UserLog, clock: nat, o1: SyncOutcome, o2: SyncOutcome)
    requires Outcomes(primary, clock, o1, o2)
    ensures Guaranteed(primary, clock, o1, o2) <==> (o1.CaughtUp? || o2.CaughtUp?) && NoPlaylists(primary, clock)
  {
    if (o1.CaughtUp? || o2.CaughtUp?) && NoPlaylists(primary, clock) {
      forall c: Cluster | Possible(c, primary, o1, o2) ensures SurvivesAnyLoss(c, clock) {
        if o1.CaughtUp? {
          ReplicaHoldsIffNoPlaylists(c.secondary1, primary, clock);
        } else {
          ReplicaHoldsIffNoPlaylists(c.secondary2, primary, clock);
        }
      }
    } else {
      var c := Least(primary, o1, o2);
      EmptyHoldsNothing(primary, clock);
      if o1.CaughtUp? {
        ReplicaHoldsIffNoPlaylists(c.secondary1, primary, clock);
      }
      if o2.CaughtUp? {
        ReplicaHoldsIffNoPlaylists(c.secondary2, primary, clock);
      }
      assert !SurvivesAnyLoss(c, clock);
    }
  }

  /** How waiting for one of the two secondaries ended; an unusable endpoint is not asked. */
  function OutcomeAt(endpoint: string, isFqdn: string -> bool, requests: string -> SyncRequest,
                     polls: string -> seq<Option<int>>, clock: nat): SyncOutcome {
    if Usable(isFqdn, endpoint) then SyncResult(requests(endpoint), polls(endpoint), clock) else Failed
  }

  /** A poll of a secondary shows no more than the primary has written. */
  ghost predicate PollsWithin(polls: seq<Option<int>>, primary: UserLog) {
    forall p :: p in polls && p.Some? ==> p.value <= primary.clock
  }

  /**
   * From the call to the replicas: when the write quorum is enforced and the
   * middleware returns, what it wrote is sure to survive any one loss if and only
   * if a secondary's request was enqueued and one of its polls showed the clock,
   * and no record up to the clock is a playlist's.
   */
  lemma EnforcedReturnMeans(header: Header, ignoreWriteQuorum: bool, config: Config, session: Session, primary: UserLog,
                            clock: nat, isFqdn: string -> bool,
                            requests: string -> SyncRequest, polls: string -> seq<Option<int>>)
    requires Enforced(header, ignoreWriteQuorum, config)
    requires Returns(header, ignoreWriteQuorum, config, session, Clock(clock), isFqdn,
                     e => SyncResult(requests(e), polls(e), clock))
    requires session.Session? && session.endpoints.Some? && |session.endpoints.value| == 3
    requires GapFree(primary) && OneRowPerRecord(primary) && clock <= primary.clock
    requires forall e :: e in session.endpoints.value ==> PollsWithin(polls(e), primary)
    ensures var o1 := OutcomeAt(session.endpoints.value[1], isFqdn, requests, polls, clock);
            var o2 := OutcomeAt(session.endpoints.value[2], isFqdn, requests, polls, clock);
      && (Resolved(o1) || Resolved(o2))
      && (ExportedGuaranteed(primary, clock, o1, o2) <==>
            exists e :: e in session.endpoints.value[1..] && ShowedTheClock(e, isFqdn, requests, polls, clock))
      && (Guaranteed(primary, clock, o1, o2) <==>
            && NoPlaylists(primary, clock)
            && exists e :: e in session.endpoints.value[1..] && ShowedTheClock(e, isFqdn, requests, polls, clock))
  {
    var e1, e2 := session.endpoints.value[1], session.endpoints.value[2];
    var o1 := OutcomeAt(e1, isFqdn, requests, polls, clock);
    var o2 := OutcomeAt(e2, isFqdn, requests, polls, clock);
    CaughtUpIffShowed(e1, isFqdn, requests, polls, clock, primary);
    CaughtUpIffShowed(e2, isFqdn, requests, polls, clock, primary);
    assert forall e :: e in session.endpoints.value[1..] <==> e == e1 || e == e2;
    ExportedIsDurableIffCaughtUp(primary, clock, o1, o2);
    SuccessIsDurableIffCaughtUp(primary, clock, o1, o2);
  }

  /** The secondary was asked for a sync, and one of its polls showed the clock. */
  ghost predicate ShowedTheClock(e: string, isFqdn: string -> bool, requests: string -> SyncRequest,
                                 polls: string -> seq<Option<int>>, clock: nat) {
    && Usable(isFqdn, e) && requests(e).Enqueued?
    && exists i :: 0 <= i < |polls(e)| && polls(e)[i].Some? && polls(e)[i].value >= clock
  }

  lemma CaughtUpIffShowed(e: string, isFqdn: string -> bool, requests: string -> SyncRequest,
                          polls: string -> seq<Option<int>>, clock: nat, primary: UserLog)
    requires PollsWithin(polls(e), primary)
    ensures var o := OutcomeAt(e, isFqdn, requests, polls, clock);
      && (o.CaughtUp? <==> ShowedTheClock(e, isFqdn, requests, polls, clock))
      && (o.CaughtUp? ==> clock <= o.clock <= primary.clock)
  {
    CaughtUpIffPolled(polls(e), clock);
  }
}
