/**
 * The per-wallet write lock: a Redis key set if absent with an expiry, and
 * deleted without asking whose it is. Redis calls are retried, and a call may
 * fail before or after the server has carried it out.
 */
module WalletLock {
  import opened Util

  type Pid = nat

  /** `owner` is the call that set the key; the program itself cannot see it. */
  datatype Key = Key(owner: Pid, until: int)

  datatype Phase =
    | Idle
    | Acquiring(expirationSec: nat)
    | Holding(until: int)   // in the critical section
    | Releasing(until: int) // past it, the delete not confirmed yet

  datatype State = State(now: int, key: Option<Key>, procs: map<Pid, Phase>)

  /** How a Redis call ends: answered, or failed before or after taking effect. */
  datatype Reply = Answered | LostBefore | LostAfter

  datatype Event =
    | Tick(seconds: nat)
    | Start(p: Pid, expirationSec: nat)
    | TrySet(p: Pid, reply: Reply)
    | GiveUp(p: Pid)
    | Finish(p: Pid)
    | TryDel(p: Pid, reply: Reply)
    | StrayDel(p: Pid)  // a release by a call that never acquired

  predicate Held(s: State) {
    s.key.Some? && s.now < s.key.value.until
  }

  function PhaseOf(s: State, p: Pid): Phase {
    if p in s.procs then s.procs[p] else Idle
  }

  predicate Enabled(s: State, ev: Event) {
    match ev
    case Tick(_) => true
    case Start(p, _) => PhaseOf(s, p).Idle?
    case TrySet(p, _) => PhaseOf(s, p).Acquiring?
    case GiveUp(p) => PhaseOf(s, p).Acquiring? || PhaseOf(s, p).Releasing?
    case Finish(p) => PhaseOf(s, p).Holding?
    case TryDel(p, _) => PhaseOf(s, p).Releasing?
    case StrayDel(p) => PhaseOf(s, p).Idle?
  }

  function Apply(s: State, ev: Event): State
    requires Enabled(s, ev)
  {
    match ev
    case Tick(d) => s.(now := s.now + d)
    case Start(p, exp) => s.(procs := s.procs[p := Acquiring(exp)])
    case TrySet(p, reply) =>
      var until := s.now + s.procs[p].expirationSec;
      var key' := if Held(s) || reply.LostBefore? then s.key else Some(Key(p, until));
      if !reply.Answered? then s.(key := key')
      else s.(key := key', procs := s.procs[p := if Held(s) then Idle else Holding(until)])
    case GiveUp(p) => s.(procs := s.procs[p := Idle])
    case Finish(p) => s.(procs := s.procs[p := Releasing(s.procs[p].until)])
    case TryDel(p, reply) =>
      var key' := if reply.LostBefore? then s.key else None;
      s.(key := key', procs := if reply.Answered? then s.procs[p := Idle] else s.procs)
    case StrayDel(p) => s.(key := None)
  }

  ghost predicate Run(states: seq<State>, events: seq<Event>) {
    && |states| == |events| + 1
    && states[0].key == None && (forall p :: PhaseOf(states[0], p).Idle?)
    && forall i :: 0 <= i < |events| ==> Enabled(states[i], events[i]) && states[i + 1] == Apply(states[i], events[i])
  }

  /** No two calls are in the critical section. */
  ghost predicate Exclusive(s: State) {
    forall p, q :: PhaseOf(s, p).Holding? && PhaseOf(s, q).Holding? ==> p == q
  }

  /** Whoever is in the critical section set the key, and it is still there. */
  ghost predicate HoldersOwnTheKey(s: State) {
    forall p :: PhaseOf(s, p).Holding? ==> s.key == Some(Key(p, PhaseOf(s, p).until))
  }

  /** Critical sections have ended when their key expires. */
  ghost predicate Timely(s: State) {
    forall p :: PhaseOf(s, p).Holding? ==> s.now < PhaseOf(s, p).until
  }

  /** The delete takes effect on a live key that another call set. */
  predicate ForeignDel(s: State, ev: Event) {
    match ev
    case TryDel(p, reply) => !reply.LostBefore? && Held(s) && s.key.value.owner != p
    case StrayDel(p) => Held(s) && s.key.value.owner != p
    case _ => false
  }

  lemma StepKeepsOwnership(s: State, ev: Event)
    requires Enabled(s, ev) && HoldersOwnTheKey(s) && Timely(s) && !ForeignDel(s, ev)
    ensures HoldersOwnTheKey(Apply(s, ev))
  {
    var s' := Apply(s, ev);
    forall p | PhaseOf(s', p).Holding? ensures s'.key == Some(Key(p, PhaseOf(s', p).until)) {
      assert ev != TrySet(p, Answered) ==> PhaseOf(s, p).Holding?;
    }
  }

  /**
   * Mutual exclusion on every run in which critical sections end in time and no
   * delete hits another call's key, however sets and deletes fail and are retried.
   */
  lemma {:induction false} NoForeignDelMeansExclusion(states: seq<State>, events: seq<Event>)
    requires Run(states, events)
    requires forall i :: 0 <= i < |states| ==> Timely(states[i])
    requires forall i :: 0 <= i < |events| ==> !ForeignDel(states[i], events[i])
    ensures forall i :: 0 <= i < |states| ==> HoldersOwnTheKey(states[i]) && Exclusive(states[i])
  {
    if |events| > 0 {
      var last := |events| - 1;
      var before := states[..last + 1];
      assert forall i :: 0 <= i <= last ==> before[i] == states[i];
      assert forall i :: 0 <= i < last ==> events[..last][i] == events[i];
      NoForeignDelMeansExclusion(before, events[..last]);
      assert HoldersOwnTheKey(before[last]);
      StepKeepsOwnership(states[last], events[last]);
    }
  }

  // ----------------------------------------------------- when deletes stay at home

  /** A releasing call's own key is still the one in Redis. */
  ghost predicate ReleasersOwnTheKey(s: State) {
    forall p :: PhaseOf(s, p).Releasing? ==> s.key == Some(Key(p, PhaseOf(s, p).until))
  }

  /** Releases, too, are over when the key expires. */
  ghost predicate TimelyReleases(s: State) {
    forall p :: PhaseOf(s, p).Releasing? ==> s.now < PhaseOf(s, p).until
  }

  /** Only holders release, and a delete that fails has not taken effect. */
  predicate Disciplined(ev: Event) {
    !ev.StrayDel? && !(ev.TryDel? && ev.reply.LostAfter?)
  }

  lemma DisciplineAvoidsForeignDels(s: State, ev: Event)
    requires Enabled(s, ev) && Disciplined(ev)
    requires HoldersOwnTheKey(s) && ReleasersOwnTheKey(s) && Timely(s) && TimelyReleases(s)
    ensures !ForeignDel(s, ev)
    ensures ReleasersOwnTheKey(Apply(s, ev))
  {
    var s' := Apply(s, ev);
    forall p | PhaseOf(s', p).Releasing? ensures s'.key == Some(Key(p, PhaseOf(s', p).until)) {
      assert ev != Finish(p) ==> PhaseOf(s, p).Releasing?;
      assert ev == Finish(p) ==> PhaseOf(s, p).Holding?;
    }
  }

  /**
   * The lock's promise: if only successful acquirers release, each within its
   * expiry, and a failed delete has no effect, critical sections never overlap.
   */
  lemma {:induction false} DisciplinedRunsAreExclusive(states: seq<State>, events: seq<Event>)
    requires Run(states, events)
    requires forall i :: 0 <= i < |states| ==> Timely(states[i]) && TimelyReleases(states[i])
    requires forall i :: 0 <= i < |events| ==> Disciplined(events[i])
    ensures forall i :: 0 <= i < |events| ==> !ForeignDel(states[i], events[i])
    ensures ReleasersOwnTheKey(states[|events|])
    ensures forall i :: 0 <= i < |states| ==> HoldersOwnTheKey(states[i]) && Exclusive(states[i])
  {
    if |events| > 0 {
      var last := |events| - 1;
      var before := states[..last + 1];
      assert forall i :: 0 <= i <= last ==> before[i] == states[i];
      assert forall i :: 0 <= i < last ==> events[..last][i] == events[i];
      DisciplinedRunsAreExclusive(before, events[..last]);
      assert HoldersOwnTheKey(before[last]);
      DisciplineAvoidsForeignDels(states[last], events[last]);
    }
    NoForeignDelMeansExclusion(states, events);
  }

  /**
   * The condition is needed: once a delete hits the key of a call in its critical
   * section, the very next set by anyone else puts two calls inside.
   */
  lemma ForeignDelLetsAnotherIn(s: State, ev: Event, holder: Pid, other: Pid)
    requires Enabled(s, ev) && HoldersOwnTheKey(s) && ForeignDel(s, ev)
    requires PhaseOf(s, holder).Holding? && PhaseOf(s, other).Acquiring?
    ensures var s' := Apply(s, ev);
      && Enabled(s', TrySet(other, Answered))
      && !Exclusive(Apply(s', TrySet(other, Answered)))
  {
    var s'' := Apply(Apply(s, ev), TrySet(other, Answered));
    assert PhaseOf(s'', holder).Holding? && PhaseOf(s'', other).Holding?;
  }

  /** Nor may a critical section outlive its key: when it does, the very next set puts two calls inside. */
  lemma OverrunLetsAnotherIn(s: State, d: nat, holder: Pid, other: Pid)
    requires HoldersOwnTheKey(s) && PhaseOf(s, holder).Holding? && PhaseOf(s, other).Acquiring?
    requires PhaseOf(s, holder).until <= s.now + d
    ensures var s' := Apply(s, Tick(d));
      && !Timely(s') && Enabled(s', TrySet(other, Answered))
      && !Exclusive(Apply(s', TrySet(other, Answered)))
  {
    var s' := Apply(s, Tick(d));
    var s'' := Apply(s', TrySet(other, Answered));
    assert PhaseOf(s', holder).Holding? && PhaseOf(s', holder).until <= s'.now;
    assert PhaseOf(s'', holder).Holding? && PhaseOf(s'', other).Holding?;
  }

  // ------------------------------------------------ exactly when two calls are inside

  /** A set is answered and finds no live key while `p`, another call, is in its critical section. */
  predicate EntersBeside(s: State, ev: Event, p: Pid) {
    ev.TrySet? && ev.reply.Answered? && !Held(s) && ev.p != p && PhaseOf(s, p).Holding?
  }

  lemma EnteringBeside(s: State, ev: Event, p: Pid)
    requires Enabled(s, ev) && EntersBeside(s, ev, p)
    ensures !Exclusive(Apply(s, ev))
  {
    var s' := Apply(s, ev);
    assert PhaseOf(s', p).Holding? && PhaseOf(s', ev.p).Holding?;
  }

  lemma StaysExclusive(s: State, ev: Event)
    requires Enabled(s, ev) && Exclusive(s) && forall p :: !EntersBeside(s, ev, p)
    ensures Exclusive(Apply(s, ev))
  {
    var s' := Apply(s, ev);
    forall p, q | PhaseOf(s', p).Holding? && PhaseOf(s', q).Holding? ensures p == q {
      assert ev != TrySet(p, Answered) ==> PhaseOf(s, p).Holding?;
      assert ev != TrySet(q, Answered) ==> PhaseOf(s, q).Holding?;
      assert !EntersBeside(s, ev, p) && !EntersBeside(s, ev, q);
    }
  }

  /** Critical sections overlap on a run if and only if some set finds no live key while another call is inside. */
  lemma {:induction false} ExclusiveIffNobodyEntersBeside(states: seq<State>, events: seq<Event>)
    requires Run(states, events)
    ensures (forall i :: 0 <= i < |states| ==> Exclusive(states[i]))
       <==> (forall i, p :: 0 <= i < |events| ==> !EntersBeside(states[i], events[i], p))
  {
    forall i, p | 0 <= i < |events| && EntersBeside(states[i], events[i], p) ensures !Exclusive(states[i + 1]) {
      assert Enabled(states[i], events[i]) && states[i + 1] == Apply(states[i], events[i]);
      EnteringBeside(states[i], events[i], p);
    }
    if forall i, p :: 0 <= i < |events| ==> !EntersBeside(states[i], events[i], p) {
      var n := 0;
      while n < |events|
        invariant n <= |events| && forall i :: 0 <= i <= n ==> Exclusive(states[i])
      {
        assert Enabled(states[n], events[n]) && states[n + 1] == Apply(states[n], events[n]);
        StaysExclusive(states[n], events[n]);
        n := n + 1;
      }
    }
  }

  /** A delete takes effect on the live key of call `p`, which has not asked for it. */
  predicate HitsKeyOf(s: State, ev: Event, p: Pid) {
    ForeignDel(s, ev) && s.key.value.owner == p
  }

  /** Some event while `p` was in the critical section it is still in. */
  ghost predicate HitWhileInside(states: seq<State>, events: seq<Event>, p: Pid, i: nat)
    requires i < |states| == |events| + 1
  {
    exists k :: 0 <= k < i && HitsKeyOf(states[k], events[k], p) && InsideFrom(states, p, k, i)
  }

  ghost predicate InsideFrom(states: seq<State>, p: Pid, k: nat, i: nat)
    requires i < |states|
  {
    forall m :: k <= m <= i ==> PhaseOf(states[m], p).Holding?
  }

  ghost predicate HasItsKey(s: State, p: Pid)
    requires PhaseOf(s, p).Holding?
  {
    s.key == Some(Key(p, PhaseOf(s, p).until))
  }

  /** A call in its critical section has its key, until that expires or another call's delete hits it. */
  lemma {:induction false} HolderHasItsKey(states: seq<State>, events: seq<Event>, p: Pid, i: nat)
    requires Run(states, events) && i <= |events| && PhaseOf(states[i], p).Holding?
    requires states[i].now < PhaseOf(states[i], p).until && !HitWhileInside(states, events, p, i)
    ensures HasItsKey(states[i], p)
  {
    var s, ev := states[i - 1], events[i - 1];
    assert Enabled(s, ev) && states[i] == Apply(s, ev);
    if ev != TrySet(p, Answered) {
      assert PhaseOf(s, p) == PhaseOf(states[i], p);
      HolderHasItsKey(states, events, p, i - 1);
      assert InsideFrom(states, p, i - 1, i);
      assert !HitsKeyOf(s, ev, p);
    }
  }

  /** Why a set could find no live key: the key of the call inside has expired, or was deleted by another call. */
  ghost predicate LostItsKey(states: seq<State>, events: seq<Event>, p: Pid, i: nat)
    requires i < |states| == |events| + 1 && PhaseOf(states[i], p).Holding?
  {
    PhaseOf(states[i], p).until <= states[i].now || HitWhileInside(states, events, p, i)
  }

  /**
   * The exact condition for both causes: critical sections never overlap on a run
   * if and only if no set is answered that finds no live key while another call is
   * inside whose key has expired or was deleted by someone else.
   */
  lemma ExclusiveIffNoKeyIsLost(states: seq<State>, events: seq<Event>)
    requires Run(states, events)
    ensures (forall i :: 0 <= i < |states| ==> Exclusive(states[i]))
       <==> (forall i, p :: 0 <= i < |events| && EntersBeside(states[i], events[i], p)
               ==> !LostItsKey(states, events, p, i))
  {
    ExclusiveIffNobodyEntersBeside(states, events);
    forall i, p | 0 <= i < |events| && EntersBeside(states[i], events[i], p) ensures LostItsKey(states, events, p, i) {
      if !LostItsKey(states, events, p, i) {
        HolderHasItsKey(states, events, p, i);
      }
    }
  }

  /** Event `i` is this call's own set, answered, which found no live key and put its own. */
  ghost predicate SetsTheKey(states: seq<State>, events: seq<Event>, p: Pid, until: int, i: nat)
    requires |states| == |events| + 1 && i < |events|
  {
    events[i] == TrySet(p, Answered) && !Held(states[i]) && states[i + 1].key == Some(Key(p, until))
  }

  ghost predicate FinishesIn(events: seq<Event>, p: Pid, from: nat, upTo: nat)
    requires upTo <= |events|
  {
    exists j :: from <= j < upTo && events[j] == Finish(p)
  }

  /**
   * A successful acquire means that this call itself set the key: on every run,
   * whoever is in its critical section got there by a set of its own that found
   * no live key and put its own, and has not finished since.
   */
  lemma {:induction false} HoldersSetTheKeyThemselves(states: seq<State>, events: seq<Event>, p: Pid,
          upTo: nat) returns (i: nat)
    requires Run(states, events) && upTo <= |events| && PhaseOf(states[upTo], p).Holding?
    ensures i < upTo && SetsTheKey(states, events, p, PhaseOf(states[upTo], p).until, i)
    ensures !FinishesIn(events, p, i, upTo)
  {
    i := upTo - 1;
    var ev := events[i];
    assert Enabled(states[i], ev) && states[upTo] == Apply(states[i], ev);
    if ev != TrySet(p, Answered) {
      assert PhaseOf(states[i], p) == PhaseOf(states[upTo], p) && ev != Finish(p);
      i := HoldersSetTheKeyThemselves(states, events, p, upTo - 1);
    }
  }

  // ------------------------------------------------------------ runs that go wrong

  /** The states that the events lead through; None if one is not enabled. */
  function Trace(s: State, events: seq<Event>): Option<seq<State>>
    decreases |events|
  {
    if events == [] then Some([s])
    else if !Enabled(s, events[0]) then None
    else
      var rest := Trace(Apply(s, events[0]), events[1..]);
      if rest.Some? then Some([s] + rest.value) else None
  }

  lemma {:induction false} TraceIsRun(s: State, events: seq<Event>)
    requires Trace(s, events).Some?
    ensures var states := Trace(s, events).value;
      && |states| == |events| + 1 && states[0] == s
      && forall i :: 0 <= i < |events| ==> Enabled(states[i], events[i]) && states[i + 1] == Apply(states[i], events[i])
    decreases |events|
  {
    if events != [] {
      var rest := Trace(Apply(s, events[0]), events[1..]).value;
      TraceIsRun(Apply(s, events[0]), events[1..]);
      var states := Trace(s, events).value;
      assert states == [s] + rest;
      forall i | 0 <= i < |events|
        ensures Enabled(states[i], events[i]) && states[i + 1] == Apply(states[i], events[i])
      {
        if i > 0 {
          assert states[i] == rest[i - 1] && states[i + 1] == rest[i] && events[i] == events[1..][i - 1];
        }
      }
    }
  }

  /** Where the events lead. */
  function End(s: State, events: seq<Event>): Option<State>
    decreases |events|
  {
    if events == [] then Some(s)
    else if !Enabled(s, events[0]) then None
    else End(Apply(s, events[0]), events[1..])
  }

  lemma {:induction false} TraceEnds(s: State, events: seq<Event>)
    ensures End(s, events).Some? <==> Trace(s, events).Some?
    ensures End(s, events).Some? ==>
        Trace(s, events).value != [] && Trace(s, events).value[|Trace(s, events).value| - 1] == End(s, events).value
    decreases |events|
  {
    if events != [] && Enabled(s, events[0]) {
      TraceEnds(Apply(s, events[0]), events[1..]);
    }
  }

  lemma {:induction false} EndAppend(s: State, a: seq<Event>, b: seq<Event>)
    ensures End(s, a + b) == if End(s, a).Some? then End(End(s, a).value, b) else None
    decreases |a|
  {
    if a == [] {
      assert a + b == b;
    } else {
      assert (a + b)[1..] == a[1..] + b;
      if Enabled(s, a[0]) {
        EndAppend(Apply(s, a[0]), a[1..], b);
      }
    }
  }

  lemma EndTwo(s: State, a: Event, b: Event)
    requires Enabled(s, a) && Enabled(Apply(s, a), b)
    ensures End(s, [a, b]) == Some(Apply(Apply(s, a), b))
  {
    assert [a, b] == [a] + [b];
    EndAppend(s, [a], [b]);
  }

  /** Nobody has the lock or wants it. */
  function Free(): State {
    State(0, None, map[])
  }

  const EXPIRATION := 1800

  /** Calls 0, 1 and 2 want the lock, and call 0 gets it. */
  function Opening(): seq<Event> {
    [Start(0, EXPIRATION), Start(1, EXPIRATION)] + [Start(2, EXPIRATION), TrySet(0, Answered)]
  }

  function Opened(): State {
    State(0, Some(Key(0, EXPIRATION)),
          map[0 := Holding(EXPIRATION), 1 := Acquiring(EXPIRATION), 2 := Acquiring(EXPIRATION)])
  }

  lemma OpeningLeadsToOpened()
    ensures End(Free(), Opening()) == Some(Opened())
  {
    var s := Apply(Apply(Free(), Start(0, EXPIRATION)), Start(1, EXPIRATION));
    EndTwo(Free(), Start(0, EXPIRATION), Start(1, EXPIRATION));
    EndTwo(s, Start(2, EXPIRATION), TrySet(0, Answered));
    EndAppend(Free(), [Start(0, EXPIRATION), Start(1, EXPIRATION)], [Start(2, EXPIRATION), TrySet(0, Answered)]);
    assert Apply(Apply(s, Start(2, EXPIRATION)), TrySet(0, Answered)).procs
        == map[0 := Holding(EXPIRATION), 1 := Acquiring(EXPIRATION), 2 := Acquiring(EXPIRATION)];
  }

  /** Events after the opening make a run from the free lock. */
  lemma RunAfterOpening(events: seq<Event>, end: State) returns (states: seq<State>)
    requires End(Opened(), events) == Some(end)
    ensures Run(states, Opening() + events) && states[|states| - 1] == end
  {
    OpeningLeadsToOpened();
    EndAppend(Free(), Opening(), events);
    TraceEnds(Free(), Opening() + events);
    TraceIsRun(Free(), Opening() + events);
    states := Trace(Free(), Opening() + events).value;
  }

  /**
   * A delete whose answer is lost is retried; if another call acquired the lock in
   * between, the retry deletes that call's key, and a third one gets in. No time
   * passes, so every critical section and release is in time.
   */
  lemma LostDeleteReplyCounterexample() returns (states: seq<State>, events: seq<Event>)
    ensures Run(states, events)
    ensures events == Opening() + ([Finish(0), TryDel(0, LostAfter)]
        + ([TrySet(1, Answered), TryDel(0, Answered)] + [TrySet(2, Answered)]))
    ensures !Exclusive(states[|events|])
  {
    var s1 := Apply(Apply(Opened(), Finish(0)), TryDel(0, LostAfter));
    var s2 := Apply(Apply(s1, TrySet(1, Answered)), TryDel(0, Answered));
    var s3 := Apply(s2, TrySet(2, Answered));
    EndTwo(Opened(), Finish(0), TryDel(0, LostAfter));
    EndTwo(s1, TrySet(1, Answered), TryDel(0, Answered));
    EndAppend(s1, [TrySet(1, Answered), TryDel(0, Answered)], [TrySet(2, Answered)]);
    var rest := [TrySet(1, Answered), TryDel(0, Answered)] + [TrySet(2, Answered)];
    EndAppend(Opened(), [Finish(0), TryDel(0, LostAfter)], rest);
    events := Opening() + ([Finish(0), TryDel(0, LostAfter)] + rest);
    states := RunAfterOpening([Finish(0), TryDel(0, LostAfter)] + rest, s3);
    assert PhaseOf(s3, 1).Holding? && PhaseOf(s3, 2).Holding?;
  }

  /**
   * Both sync routines release in a `finally` that also runs when acquiring
   * failed: call 1 fails because 0 holds the lock, releases all the same, and
   * call 2 enters while 0 is still inside.
   */
  lemma ReleaseAfterFailedAcquireCounterexample() returns (states: seq<State>, events: seq<Event>)
    ensures Run(states, events)
    ensures events == Opening() + ([TrySet(1, Answered), StrayDel(1)] + [TrySet(2, Answered)])
    ensures !Exclusive(states[|events|])
  {
    var s1 := Apply(Apply(Opened(), TrySet(1, Answered)), StrayDel(1));
    var s2 := Apply(s1, TrySet(2, Answered));
    EndTwo(Opened(), TrySet(1, Answered), StrayDel(1));
    EndAppend(Opened(), [TrySet(1, Answered), StrayDel(1)], [TrySet(2, Answered)]);
    events := Opening() + ([TrySet(1, Answered), StrayDel(1)] + [TrySet(2, Answered)]);
    states := RunAfterOpening([TrySet(1, Answered), StrayDel(1)] + [TrySet(2, Answered)], s2);
    assert PhaseOf(s2, 0).Holding? && PhaseOf(s2, 2).Holding?;
  }

  /** A critical section that outlives its key: call 1 enters while 0 is still inside. */
  lemma OverrunCounterexample() returns (states: seq<State>, events: seq<Event>)
    ensures Run(states, events)
    ensures events == Opening() + [Tick(EXPIRATION), TrySet(1, Answered)]
    ensures !Timely(states[|events| - 1]) && !Exclusive(states[|events|])
  {
    var s1 := Apply(Opened(), Tick(EXPIRATION));
    var s2 := Apply(s1, TrySet(1, Answered));
    EndTwo(Opened(), Tick(EXPIRATION), TrySet(1, Answered));
    events := Opening() + [Tick(EXPIRATION), TrySet(1, Answered)];
    states := RunAfterOpening([Tick(EXPIRATION), TrySet(1, Answered)], s2);
    assert PhaseOf(s2, 0).Holding? && PhaseOf(s2, 1).Holding?;
    assert events[5] == TrySet(1, Answered);
    assert states[6] == Apply(states[5], events[5]);
    OverrunMoment(states[5], states[6]);
  }

  /** With two calls inside after a set, one of them was past its key's expiry before it. */
  lemma OverrunMoment(s: State, s': State)
    requires Enabled(s, TrySet(1, Answered)) && s' == Apply(s, TrySet(1, Answered))
    requires PhaseOf(s', 0) == Holding(EXPIRATION) && PhaseOf(s', 1) == Holding(2 * EXPIRATION)
    requires PhaseOf(s, 1) == Acquiring(EXPIRATION)
    ensures !Timely(s)
  {
    assert PhaseOf(s, 0) == Holding(EXPIRATION);
  }

  // ------------------------------------------------------------------- the object

  const PRIMARY_SYNC_FROM_SECONDARY := "primarySyncFromSecondary"
  const SECONDARY_SYNC_FROM_PRIMARY := "secondarySyncFromPrimary"
  const RETRIES := 5

  datatype Result = Done | InvalidAcquirer | AlreadyHeld | CallFailed

  /** The lock of one wallet, as one caller drives it between other calls' steps. */
  class WalletWriteLock {
    var now: int
    var holder: Option<string>  // the key's value
    var expires: int

    constructor (now: int)
      ensures this.now == now && holder == None
    {
      this.now, holder, expires := now, None, now;
    }

    predicate IsHeld()
      reads this
    {
      holder.Some? && now < expires
    }

    /** Held, and by one of the two sync routines. */
    predicate SyncIsInProgress()
      reads this
    {
      IsHeld() && (holder.value == PRIMARY_SYNC_FROM_SECONDARY || holder.value == SECONDARY_SYNC_FROM_PRIMARY)
    }

    /**
     * SET NX EX, tried up to six times; `replies(n)` is how attempt `n` ends.
     * Success means an attempt of this call set the key; a set that took effect
     * but whose answer was lost makes the retry find the lock taken.
     */
    method Acquire(acquirer: string, expirationSec: nat, replies: nat -> Reply) returns (r: Result)
      requires expirationSec > 0
      modifies this`holder, this`expires
      ensures r == InvalidAcquirer <==> acquirer !in {PRIMARY_SYNC_FROM_SECONDARY, SECONDARY_SYNC_FROM_PRIMARY}
      ensures r == InvalidAcquirer ==> holder == old(holder) && expires == old(expires)
      ensures r == Done ==> !old(IsHeld()) && SyncIsInProgress()
      ensures r == Done ==> holder == Some(acquirer) && expires == now + expirationSec
      ensures old(IsHeld()) ==> r != Done && holder == old(holder) && expires == old(expires)
      ensures r == CallFailed ==> forall n :: 0 <= n <= RETRIES ==> !replies(n).Answered?
      ensures r == AlreadyHeld ==> old(IsHeld()) || exists n :: 0 <= n < RETRIES && replies(n).LostAfter?
      ensures replies(0).Answered? && !old(IsHeld()) && r != InvalidAcquirer ==> r == Done
    {
      if acquirer != PRIMARY_SYNC_FROM_SECONDARY && acquirer != SECONDARY_SYNC_FROM_PRIMARY {
        return InvalidAcquirer;
      }
      var attempt := 0;
      while attempt <= RETRIES
        invariant attempt <= RETRIES + 1
        invariant old(IsHeld()) ==> holder == old(holder) && expires == old(expires)
        invariant !old(IsHeld()) && IsHeld() ==> exists n :: 0 <= n < attempt && replies(n).LostAfter?
        invariant attempt == 0 ==> holder == old(holder) && expires == old(expires)
        invariant forall n :: 0 <= n < attempt ==> !replies(n).Answered?
      {
        var reply := replies(attempt);
        var acquired := !IsHeld();
        if acquired && !reply.LostBefore? {
          holder, expires := Some(acquirer), now + expirationSec;
        }
        if reply.Answered? {
          return if acquired then Done else AlreadyHeld;
        }
        attempt := attempt + 1;
      }
      r := CallFailed;
    }

    /** DEL, tried up to six times: it removes whatever key is there. */
    method Release(replies: nat -> Reply) returns (r: Result)
      modifies this`holder
      ensures r == Done <==> exists n :: 0 <= n <= RETRIES && replies(n).Answered?
      ensures r == Done ==> !IsHeld()
      ensures r != Done ==> r == CallFailed
      ensures r != Done ==>
          holder == if exists n :: 0 <= n <= RETRIES && replies(n).LostAfter? then None else old(holder)
    {
      var attempt := 0;
      while attempt <= RETRIES
        invariant attempt <= RETRIES + 1
        invariant forall n :: 0 <= n < attempt ==> !replies(n).Answered?
        invariant holder == if exists n :: 0 <= n < attempt && replies(n).LostAfter? then None else old(holder)
      {
        var reply := replies(attempt);
        if !reply.LostBefore? {
          holder := None;
        }
        if reply.Answered? {
          return Done;
        }
        attempt := attempt + 1;
      }
      r := CallFailed;
    }
  }
}
