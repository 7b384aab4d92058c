/**
 * Session tokens, kept in a database table and cached in Redis, and the check
 * that lets a request through as a user.
 */
module Sessions {
  import opened Util

  type Token = string
  type User = string

  /**
   * `users` are the CNodeUser rows. `issued` and `known` are every token and user
   * id ever generated: both are random, so none is generated twice.
   */
  datatype State = State(users: set<User>, db: map<Token, User>, redis: map<Token, User>,
                         issued: set<Token>, known: set<User>)

  const INITIAL := State({}, map[], map[], {}, {})

  /** `redisOk` and `dbOk` say whether the step's Redis or database call succeeds; a wipe is one that went through. */
  datatype Event =
    | CreateUser(user: User)
    | CreateSession(user: User, token: Token, redisOk: bool)
    | DeleteSession(token: Token, redisOk: bool)
    | DeleteSessions(tokens: set<Token>, dbOk: bool, redisOk: bool)
    | WipeUser(user: User)

  predicate Enabled(s: State, ev: Event) {
    match ev
    case CreateUser(u) => u !in s.known
    case CreateSession(u, t, _) => u in s.users && t !in s.issued
    case DeleteSession(t, _) => t in s.db
    case _ => true
  }

  function Apply(s: State, ev: Event): State
    requires Enabled(s, ev)
  {
    match ev
    case CreateUser(u) => s.(users := s.users + {u}, known := s.known + {u})
    case CreateSession(u, t, redisOk) =>
      s.(db := s.db[t := u], issued := s.issued + {t}, redis := if redisOk then s.redis[t := u] else s.redis)
    case DeleteSession(t, redisOk) =>
      s.(db := s.db - {t}, redis := if redisOk then s.redis - {t} else s.redis)
    case DeleteSessions(ts, dbOk, redisOk) =>
      s.(db := if dbOk then s.db - ts else s.db, redis := if redisOk then s.redis - ts else s.redis)
    case WipeUser(u) =>
      s.(users := s.users - {u}, db := map t | t in s.db && s.db[t] != u :: s.db[t])
  }

  /** Redis first, the database when Redis has nothing. */
  function Verify(s: State, t: Token): Option<User> {
    if t in s.redis then Some(s.redis[t]) else if t in s.db then Some(s.db[t]) else None
  }

  /** The user a request with this token is let through as. */
  function Authenticate(s: State, t: Token): Option<User> {
    var u := Verify(s, t);
    if u.Some? && u.value in s.users then u else None
  }

  ghost predicate Run(states: seq<State>, events: seq<Event>) {
    && |states| == |events| + 1 && states[0] == INITIAL
    && forall i :: 0 <= i < |events| ==> Enabled(states[i], events[i]) && states[i + 1] == Apply(states[i], events[i])
  }

  ghost predicate Consistent(s: State) {
    && (forall t :: t in s.db && t in s.redis ==> s.db[t] == s.redis[t])
    && s.db.Keys <= s.issued && s.redis.Keys <= s.issued
    && s.users <= s.known
    && (forall t :: t in s.db ==> s.db[t] in s.users)
    && (forall t :: t in s.redis ==> s.redis[t] in s.known)
  }

  lemma StepKeepsConsistent(s: State, ev: Event)
    requires Consistent(s) && Enabled(s, ev)
    ensures Consistent(Apply(s, ev))
    ensures s.issued <= Apply(s, ev).issued && s.known <= Apply(s, ev).known
  {}

  /** On every run the two bindings of a token agree, whichever Redis or database calls fail. */
  lemma {:induction false} BindingsNeverDisagree(states: seq<State>, events: seq<Event>)
    requires Run(states, events)
    ensures forall i :: 0 <= i < |states| ==> Consistent(states[i])
  {
    if |events| > 0 {
      var last := |events| - 1;
      var before := states[..last + 1];
      assert forall i :: 0 <= i <= last ==> before[i] == states[i];
      BindingsNeverDisagree(before, events[..last]);
      assert Consistent(before[last]);
      StepKeepsConsistent(states[last], events[last]);
    }
  }

  predicate IssuesTo(ev: Event, u: User, t: Token) {
    ev.CreateSession? && ev.user == u && ev.token == t
  }

  /** A binding that verifies is the one just made, or verified before. */
  lemma BindingsComeFromIssuing(s: State, ev: Event, t: Token)
    requires Consistent(s) && Enabled(s, ev) && Verify(Apply(s, ev), t).Some?
    ensures IssuesTo(ev, Verify(Apply(s, ev), t).value, t) || Verify(s, t) == Verify(Apply(s, ev), t)
  {}

  /** The binding of a token, if it has one, is the user it was issued to. */
  lemma {:induction false} VerifiedMeansIssuedTo(states: seq<State>, events: seq<Event>, t: Token)
    requires Run(states, events)
    ensures var v := Verify(states[|events|], t);
      v.Some? ==> exists i :: 0 <= i < |events| && IssuesTo(events[i], v.value, t)
  {
    if |events| > 0 {
      var last := |events| - 1;
      var before := states[..last + 1];
      assert forall i :: 0 <= i <= last ==> before[i] == states[i];
      VerifiedMeansIssuedTo(before, events[..last], t);
      BindingsNeverDisagree(states, events);
      var v := Verify(states[|events|], t);
      if v.Some? {
        BindingsComeFromIssuing(states[last], events[last], t);
        if !IssuesTo(events[last], v.value, t) {
          var i :| 0 <= i < last && IssuesTo(events[..last][i], v.value, t);
          assert events[..last][i] == events[i];
        }
      }
    }
  }

  ghost predicate Gone(s: State, t: Token) {
    t in s.issued && t !in s.db && t !in s.redis
  }

  /** A token that is gone from both stores never verifies again. */
  lemma {:induction false} GoneForGood(states: seq<State>, events: seq<Event>, t: Token, start: nat, upTo: nat)
    requires Run(states, events) && start <= upTo <= |events| && Gone(states[start], t)
    ensures Gone(states[upTo], t) && Verify(states[upTo], t).None?
    decreases upTo
  {
    if start < upTo {
      GoneForGood(states, events, t, start, upTo - 1);
    }
  }

  /** So a token whose deletion completed authenticates nobody in the rest of the run. */
  lemma DeletedTokensNeverVerify(states: seq<State>, events: seq<Event>, t: Token, i: nat, j: nat)
    requires Run(states, events) && i < |events| && events[i] == DeleteSession(t, true) && i < j <= |events|
    ensures Verify(states[j], t).None? && Authenticate(states[j], t).None?
  {
    BindingsNeverDisagree(states, events);
    assert Consistent(states[i]);
    GoneForGood(states, events, t, i + 1, j);
  }

  /** A bulk deletion that takes the token out of Redis. */
  predicate ClearsFromRedis(ev: Event, t: Token) {
    ev.DeleteSessions? && ev.redisOk && t in ev.tokens
  }

  ghost predicate ClearedIn(events: seq<Event>, t: Token, from: nat, upTo: nat)
    requires upTo <= |events|
  {
    exists k :: from <= k < upTo && ClearsFromRedis(events[k], t)
  }

  /**
   * A deletion that fails between the two stores leaves the cached binding in
   * force: for the rest of the run the token goes on verifying as its user until
   * a bulk deletion takes it out of Redis, and never again after that.
   */
  lemma {:induction false} HalfDeletedTokensVerifyUntilCleared(states: seq<State>, events: seq<Event>, t: Token,
          i: nat, j: nat)
    requires Run(states, events) && i < |events| && events[i] == DeleteSession(t, false)
    requires t in states[i].redis && i < j <= |events|
    ensures t !in states[j].db && t in states[j].issued
    ensures Verify(states[j], t) == if ClearedIn(events, t, i + 1, j) then None else Some(states[i].redis[t])
    decreases j
  {
    BindingsNeverDisagree(states, events);
    assert Consistent(states[i]);
    if j > i + 1 {
      HalfDeletedTokensVerifyUntilCleared(states, events, t, i, j - 1);
      assert Enabled(states[j - 1], events[j - 1]) && states[j] == Apply(states[j - 1], events[j - 1]);
      assert ClearedIn(events, t, i + 1, j)
        <==> ClearedIn(events, t, i + 1, j - 1) || ClearsFromRedis(events[j - 1], t);
    }
  }

  /** No state from `from` on verifies the token. */
  ghost predicate NeverVerifies(states: seq<State>, t: Token, from: nat) {
    forall j :: from <= j < |states| ==> Verify(states[j], t).None?
  }

  /**
   * The bulk deletion swallows a database error and clears Redis all the same: a
   * token stops verifying for the rest of the run if and only if the database
   * deletion succeeded and Redis was cleared of it or never had it.
   */
  lemma BulkDeletionHoldsIffDatabaseDid(states: seq<State>, events: seq<Event>, i: nat, t: Token)
    requires Run(states, events) && i < |events| && events[i].DeleteSessions?
    requires t in events[i].tokens && t in states[i].db
    ensures NeverVerifies(states, t, i + 1) <==> events[i].dbOk && (events[i].redisOk || t !in states[i].redis)
  {
    BindingsNeverDisagree(states, events);
    assert Consistent(states[i]);
    assert states[i + 1] == Apply(states[i], events[i]);
    if events[i].dbOk && (events[i].redisOk || t !in states[i].redis) {
      forall j | i + 1 <= j < |states| ensures Verify(states[j], t).None? {
        GoneForGood(states, events, t, i + 1, j);
      }
    } else {
      assert Verify(states[i + 1], t).Some?;
    }
  }

  /**
   * And a single deletion holds for the rest of the run if and only if Redis was
   * cleared of the token or never had it.
   */
  lemma DeletionHoldsIffUncached(states: seq<State>, events: seq<Event>, i: nat, t: Token)
    requires Run(states, events) && i < |events| && events[i].DeleteSession? && events[i].token == t
    ensures NeverVerifies(states, t, i + 1) <==> events[i].redisOk || t !in states[i].redis
  {
    BindingsNeverDisagree(states, events);
    assert Consistent(states[i]) && Enabled(states[i], events[i]);
    assert states[i + 1] == Apply(states[i], events[i]);
    if events[i].redisOk || t !in states[i].redis {
      forall j | i + 1 <= j < |states| ensures Verify(states[j], t).None? {
        GoneForGood(states, events, t, i + 1, j);
      }
    } else {
      assert Verify(states[i + 1], t).Some?;
    }
  }

  lemma {:induction false} WipedStaysWiped(states: seq<State>, events: seq<Event>, u: User, start: nat, upTo: nat)
    requires Run(states, events) && start <= upTo <= |events|
    requires u in states[start].known && u !in states[start].users
    ensures u in states[upTo].known && u !in states[upTo].users
    decreases upTo
  {
    if start < upTo {
      WipedStaysWiped(states, events, u, start, upTo - 1);
    }
  }

  /** After a wipe no request is let through as that user, whatever Redis still holds. */
  lemma WipedUsersNeverAuthenticate(states: seq<State>, events: seq<Event>, u: User, i: nat, j: nat, t: Token)
    requires Run(states, events) && i < |events| && events[i] == WipeUser(u)
    requires u in states[i].users && i < j <= |events|
    ensures Authenticate(states[j], t) != Some(u)
  {
    BindingsNeverDisagree(states, events);
    assert Consistent(states[i]);
    WipedStaysWiped(states, events, u, i + 1, j);
  }

  /** The wipe does leave the cached keys: verification alone would still accept them. */
  lemma WipeLeavesCachedSessions(s: State, u: User, t: Token)
    requires t in s.redis && s.redis[t] == u
    ensures var s' := Apply(s, WipeUser(u)); Verify(s', t) == Some(u) && Authenticate(s', t).None?
  {}

  class SessionManager {
    var users: set<User>
    var db: map<Token, User>
    var redis: map<Token, User>
    ghost var issued: set<Token>
    ghost var known: set<User>

    constructor ()
      ensures Current() == INITIAL
    {
      users, db, redis, issued, known := {}, map[], map[], {}, {};
    }

    ghost function Current(): State
      reads this
    {
      State(users, db, redis, issued, known)
    }

    /** `token` is the freshly generated one. */
    method CreateSession(user: User, token: Token, redisOk: bool) returns (ok: bool)
      requires user in users && token !in issued
      modifies this`db, this`redis, this`issued
      ensures Current() == Apply(old(Current()), Event.CreateSession(user, token, redisOk))
      ensures ok == redisOk && (ok && Consistent(old(Current())) ==> Verify(Current(), token) == Some(user))
    {
      db := db[token := user];
      issued := issued + {token};
      if redisOk {
        redis := redis[token := user];
      }
      ok := redisOk;
    }

    method VerifySession(token: Token) returns (user: Option<User>)
      ensures user == Verify(Current(), token)
    {
      if token in redis {
        return Some(redis[token]);
      }
      user := if token in db then Some(db[token]) else None;
    }

    /** Fails without effect when the database has no such token. */
    method DeleteSession(token: Token, redisOk: bool) returns (ok: bool)
      modifies this`db, this`redis
      ensures ok <==> token in old(db) && redisOk
      ensures Current() == if token in old(db)
          then Apply(old(Current()), Event.DeleteSession(token, redisOk)) else old(Current())
      ensures ok ==> Verify(Current(), token).None?
    {
      if token !in db {
        return false;
      }
      db := db - {token};
      if redisOk {
        redis := redis - {token};
      }
      ok := redisOk;
    }

    /** A failed destroy is swallowed by the database manager, so no second try follows it. */
    method DeleteSessions(tokens: set<Token>, dbOk: bool, redisOk: bool) returns (ok: bool)
      modifies this`db, this`redis
      ensures ok == redisOk
      ensures Current() == Apply(old(Current()), Event.DeleteSessions(tokens, dbOk, redisOk))
    {
      if dbOk {
        db := db - tokens;
      }
      if redisOk {
        redis := redis - tokens;
      }
      ok := redisOk;
    }

    /** The session part of authMiddleware. */
    method Authorize(token: Token) returns (user: Option<User>)
      ensures user == Authenticate(Current(), token)
    {
      var verified := VerifySession(token);
      if verified.None? || verified.value !in users {
        return None;
      }
      user := verified;
    }
  }
}
