/** The stored-session loader as the code runs it (pkg/middleware/stored_session.go:107-298), over a
    Redis that other requests change between any two of its calls (pkg/sessions/redis/lock.go).
    Each method is proved to make only the calls that the automaton of `Sessions` allows, with
    exactly the effects that `RefreshProtocol` gives them. */
module StoredSession {
  import opened Text
  import opened Sessions
  import opened RefreshProtocol
  import RequestLaws

  /** What others have done with the lock: nothing, let it go, or taken it until `expiry`. */
  datatype LockChange = Untouched | Gone | Taken(expiry: nat)

  /** What the rest of the world does before Redis serves a call, and how the call fares. A `store` of
      None leaves the entry alone; `issued` counts the leases that others took and lost meanwhile. */
  datatype Turn = Turn(
    delay: nat,
    store: Option<Option<Session>>,
    lock: LockChange,
    issued: nat,
    ticketValid: bool,
    fails: bool,
    applied: bool,
    message: string,
    provider: ProviderReply,
    valid: bool)

  /** One call of a request: the shared state it was served in, and the one it left. */
  datatype Entry = Entry(event: Event, pre: State, post: State)

  predicate SameShared(s: State, t: State) {
    s.now == t.now && s.store == t.store && s.lock == t.lock && s.nextToken == t.nextToken
  }

  /** The phase a request reaches by the calls of `log`, provided that each has the effect the
      protocol gives it. */
  function Replay(period: int, p: Phase, log: seq<Entry>): Option<Phase> {
    if log == [] then Some(p)
    else match Replay(period, p, log[..|log| - 1])
      case None => None
      case Some(q) =>
        var last := log[|log| - 1];
        match Effect(last.pre, q, last.event)
        case None => None
        case Some(t) => if SameShared(t, last.post) then Advance(period, q, last.event, last.pre.now) else None
  }

  /** The call `e` in phase `q` is one the code makes there, with the effect the protocol gives it. */
  predicate Makes(period: int, q: Phase, e: Entry, q': Phase) {
    && Effect(e.pre, q, e.event).Some? && SameShared(Effect(e.pre, q, e.event).value, e.post)
    && Advance(period, q, e.event, e.pre.now) == Some(q')
  }

  lemma ReplayStep(period: int, p: Phase, log: seq<Entry>, e: Entry, q: Phase, q': Phase)
    requires Replay(period, p, log) == Some(q) && Makes(period, q, e, q')
    ensures Replay(period, p, log + [e]) == Some(q')
  {
    assert (log + [e])[..|log|] == log;
  }

  /** What a call does to the shared state depends on the shared state only. */
  lemma EffectIsShared(s: State, s': State, p: Phase, e: Event)
    requires SameShared(s, s') && Effect(s', p, e).Some?
    ensures var t := Effect(s, p, e);
            t.Some? && SameShared(t.value, Effect(s', p, e).value) && t.value.requests == s.requests
  {
    hide Effect, SameShared;
    if e.TryLock? || e.Release? {
      LockEffectIsShared(s, s', p, e);
    } else if e.Load? || e.Reload? {
      LoadEffectIsShared(s, s', p, e);
    } else {
      StoreEffectIsShared(s, s', p, e);
    }
  }

  lemma LockEffectIsShared(s: State, s': State, p: Phase, e: Event)
    requires SameShared(s, s') && Effect(s', p, e).Some? && (e.TryLock? || e.Release?)
    ensures var t := Effect(s, p, e);
            t.Some? && SameShared(t.value, Effect(s', p, e).value) && t.value.requests == s.requests
  {
  }

  lemma LoadEffectIsShared(s: State, s': State, p: Phase, e: Event)
    requires SameShared(s, s') && Effect(s', p, e).Some? && (e.Load? || e.Reload?)
    ensures Effect(s, p, e) == Some(s) && Effect(s', p, e) == Some(s')
  {
  }

  lemma StoreEffectIsShared(s: State, s': State, p: Phase, e: Event)
    requires SameShared(s, s') && Effect(s', p, e).Some? && !e.TryLock? && !e.Release? && !e.Load? && !e.Reload?
    ensures var t := Effect(s, p, e);
            t.Some? && SameShared(t.value, Effect(s', p, e).value) && t.value.requests == s.requests
  {
  }

  /** Every call the code makes is a step of the protocol, in any global state that agrees with the
      Redis the call was served by. */
  lemma CallIsProtocolStep(period: int, s: State, id: nat, q: Phase, e: Entry, q': Phase)
    requires Makes(period, q, e, q') && SameShared(s, e.pre) && PhaseOf(s, id) == q
    ensures var t := Apply(period, s, Call(id, e.event));
            && t.Some? && SameShared(t.value, e.post) && PhaseOf(t.value, id) == q'
            && forall other :: other != id ==> PhaseOf(t.value, other) == PhaseOf(s, other)
  {
    hide Effect, Advance;
    EffectIsShared(s, e.pre, q, e.event);
  }

  function TraceOf(log: seq<Entry>): seq<Timed> {
    if log == [] then []
    else TraceOf(log[..|log| - 1]) + [Timed(log[|log| - 1].event, log[|log| - 1].pre.now)]
  }

  /** What holds of every trace of the automaton holds of every execution. */
  lemma {:induction false} ReplayIsTrace(period: int, p: Phase, log: seq<Entry>)
    requires Replay(period, p, log).Some?
    ensures Trace(period, p, TraceOf(log)) == Replay(period, p, log)
  {
    if log != [] {
      ReplayIsTrace(period, p, log[..|log| - 1]);
      assert TraceOf(log)[..|TraceOf(log)| - 1] == TraceOf(log[..|log| - 1]);
    }
  }

  /** Redis as one request sees it. `log` records the request's own calls: every operation that
      reaches Redis adds its entry there, and `Note` adds the steps that do not. */
  class Redis {
    const env: nat -> Turn
    var turns: nat
    var now: nat
    var store: Option<Session>
    var lock: Option<Lease>
    var nextToken: nat
    ghost var log: seq<Entry>

    ghost function Shared(): State
      reads this
    {
      State(now, store, lock, nextToken, map[], [], [], false)
    }

    /** The request has come to phase `p` by the calls it made. */
    ghost predicate At(period: int, p: Phase)
      reads this
    {
      Replay(period, Idle, log) == Some(p)
    }

    /** Other requests run, then it is this call's turn. */
    method Serve() returns (turn: Turn)
      modifies this
      ensures turn == env(old(turns)) && turns == old(turns) + 1
      ensures now == old(now) + turn.delay && log == old(log)
      ensures store == if turn.store.Some? then turn.store.value else old(store)
      ensures nextToken == old(nextToken) + turn.issued + if turn.lock.Taken? then 1 else 0
      ensures lock == match turn.lock
                      case Untouched => old(lock)
                      case Gone => None
                      case Taken(expiry) => Some(Lease(nextToken - 1, expiry))
    {
      turn := env(turns);
      turns := turns + 1;
      now := now + turn.delay;
      if turn.store.Some? { store := turn.store.value; }
      nextToken := nextToken + turn.issued;
      match turn.lock {
        case Untouched =>
        case Gone => lock := None;
        case Taken(expiry) => lock, nextToken := Some(Lease(nextToken, expiry)), nextToken + 1;
      }
    }

    /** A step of the request that does not go to Redis. */
    ghost method Note(e: Event)
      requires e == Event.Load(NoCookie) || e.CheckAge? || e.Poll? || e.Recheck? || e.CallProvider? || e.Validate?
      modifies this`log
      ensures log == old(log) + [Entry(e, Shared(), Shared())]
    {
      log := log + [Entry(e, Shared(), Shared())];
    }

    /** A missing entry and a failing connection are both errors (pkg/sessions/redis/redis_store.go:50-59). */
    method Load(again: bool) returns (reply: LoadReply, ghost pre: State)
      modifies this
      ensures Shared() == pre && old(now) <= now
      ensures reply.Found? ==> pre.store == Some(reply.session)
      ensures reply != NoCookie
      ensures log == old(log) + [Entry(if again then Event.Reload(reply) else Event.Load(reply), pre, Shared())]
    {
      var turn := Serve();
      pre := Shared();
      reply := if turn.fails || store.None? then LoadError else Found(store.value);
      log := log + [Entry(if again then Event.Reload(reply) else Event.Load(reply), pre, Shared())];
    }

    method Save(session: Session) returns (reply: SaveReply, ghost pre: State)
      modifies this
      ensures old(now) <= now
      ensures Shared() == if reply.SavedElsewhere? || (reply.SaveError? && !reply.stored) then pre
                          else pre.(store := Some(session))
      ensures log == old(log) + [Entry(Event.Save(reply), pre, Shared())]
    {
      var turn := Serve();
      pre := Shared();
      if turn.ticketValid && (!turn.fails || turn.applied) { store := Some(session); }
      reply := if turn.fails then SaveError(turn.ticketValid && turn.applied, turn.message)
               else if turn.ticketValid then SaveOk
               else SavedElsewhere;
      log := log + [Entry(Event.Save(reply), pre, Shared())];
    }

    method Clear(revoked: bool) returns (removed: bool, ghost pre: State)
      modifies this
      ensures old(now) <= now
      ensures Shared() == if removed then pre.(store := None) else pre
      ensures log == old(log) +
                     [Entry(if revoked then ClearRevoked(removed) else ClearAfterError(removed), pre, Shared())]
    {
      var turn := Serve();
      pre := Shared();
      removed := !turn.fails || turn.applied;
      if removed { store := None; }
      log := log + [Entry(if revoked then ClearRevoked(removed) else ClearAfterError(removed), pre, Shared())];
    }

    method Sleep(period: nat)
      modifies this
      ensures turns == old(turns) + 1 && log == old(log)
      ensures now == old(now) + period + env(old(turns)).delay
      ensures env(old(turns)).lock.Untouched? ==> lock == old(lock)
    {
      var turn := Serve();
      now := now + period;
    }
  }

  /** pkg/sessions/redis/lock.go: `token` is the field `lock`, set by a successful Obtain and never reset. */
  class Lock {
    const redis: Redis
    var token: Option<nat>

    constructor (redis: Redis)
      ensures this.redis == redis && token == None
    {
      this.redis, token := redis, None;
    }

    method Obtain(expiration: nat) returns (reply: LockReply, ghost pre: State)
      modifies this, redis
      ensures old(redis.now) <= pre.now && redis.turns == old(redis.turns) + 1
      ensures redis.env(old(redis.turns)).lock.Untouched? ==> pre.lock == old(redis.lock)
      ensures redis.env(old(redis.turns)).fails <==> reply.LockError?
      ensures match reply
              case Obtained(lease) =>
                && Free(pre.lock, pre.now) && lease == Lease(pre.nextToken, pre.now + expiration)
                && old(redis.nextToken) <= lease.token < redis.nextToken
                && redis.Shared() == pre.(lock := Some(lease), nextToken := pre.nextToken + 1)
                && token == Some(lease.token)
              case Busy => !Free(pre.lock, pre.now) && redis.Shared() == pre && token == old(token)
              case LockError(applied) =>
                && token == old(token)
                && (applied ==> Free(pre.lock, pre.now)
                                && redis.Shared() == pre.(lock := Some(Lease(pre.nextToken, pre.now + expiration)),
                                                          nextToken := pre.nextToken + 1))
                && (!applied ==> redis.Shared() == pre)
      ensures redis.log == old(redis.log) + [Entry(TryLock(reply), pre, redis.Shared())]
    {
      var turn := redis.Serve();
      pre := redis.Shared();
      var free := redis.lock.None? || redis.lock.value.expiry <= redis.now;
      var lease := Lease(redis.nextToken, redis.now + expiration);
      if free && (!turn.fails || turn.applied) {
        redis.lock, redis.nextToken := Some(lease), redis.nextToken + 1;
      }
      if turn.fails {
        reply := LockError(free && turn.applied);
      } else if free {
        token := Some(lease.token);
        reply := Obtained(lease);
      } else {
        reply := Busy;
      }
      redis.log := redis.log + [Entry(TryLock(reply), pre, redis.Shared())];
    }

    /** The key is deleted only if it still holds this lock's token. */
    method Release() returns (reached: bool, ghost pre: State)
      requires token.Some?
      modifies redis
      ensures old(redis.now) <= redis.now
      ensures redis.Shared() == if reached && pre.lock.Some? && pre.lock.value.token == token.value
                                then pre.(lock := None) else pre
      ensures redis.log == old(redis.log) + [Entry(Event.Release(reached), pre, redis.Shared())]
    {
      var turn := redis.Serve();
      pre := redis.Shared();
      reached := !turn.fails || turn.applied;
      if reached && redis.lock.Some? && redis.lock.value.token == token.value { redis.lock := None; }
      redis.log := redis.log + [Entry(Event.Release(reached), pre, redis.Shared())];
    }
  }

  /** pkg/apis/sessions/session_state.go: the stored fields, and the lock that is not stored. */
  class SessionState {
    var data: Session
    var lock: Lock

    constructor (data: Session, lock: Lock)
      ensures this.data == data && this.lock == lock
    {
      this.data, this.lock := data, lock;
    }
  }

  function AfterAttempt(deadline: nat, reply: LockReply, now: nat): Phase {
    match reply
    case Obtained(lease) => Locked(lease)
    case Busy => Waiting(deadline, now + RETRY_PERIOD)
    case LockError(_) => Failing
  }

  /** One iteration of the obtain loop: None when the timeout has passed. */
  method Attempt(period: int, lock: Lock, deadline: nat, ghost retryAt: nat)
    returns (reply: Option<LockReply>)
    requires retryAt <= lock.redis.now && lock.redis.At(period, Waiting(deadline, retryAt))
    modifies lock, lock.redis
    ensures reply.None? <==> deadline <= old(lock.redis.now)
    ensures reply == Some(Busy) ==> old(lock.redis.now) <= lock.redis.now
    ensures reply.Some? && reply.value.Obtained? ==> lock.token == Some(reply.value.lease.token)
    ensures lock.redis.At(period, if reply.None? then Failing else AfterAttempt(deadline, reply.value, lock.redis.now))
    ensures reply.Some? ==> lock.redis.turns == old(lock.redis.turns) + 1
    ensures reply.Some? && reply.value.LockError? ==> lock.redis.env(old(lock.redis.turns)).fails
    ensures reply == Some(Busy) && lock.redis.env(old(lock.redis.turns)).lock.Untouched? ==>
              lock.redis.lock == old(lock.redis.lock) && !Free(lock.redis.lock, lock.redis.now)
  {
    hide Replay;
    ghost var log, redis := lock.redis.log, lock.redis;
    ghost var polled := if deadline <= redis.now then Failing else Trying(deadline, redis.now);
    redis.Note(Poll);
    ReplayStep(period, Idle, log, redis.log[|log|], Waiting(deadline, retryAt), polled);
    if deadline <= lock.redis.now {
      return None;
    }
    log := redis.log;
    var answer, pre := lock.Obtain(LOCK_DURATION);
    reply := Some(answer);
    ReplayStep(period, Idle, log, redis.log[|log|], polled, AfterAttempt(deadline, answer, pre.now));
  }

  /** No one else touches the lock, Redis answers, and no turn takes longer than the timeout allows. */
  ghost predicate Quiet(env: nat -> Turn, from: nat) {
    forall k :: from <= k ==> env(k).lock.Untouched? && !env(k).fails
                              && env(k).delay <= OBTAIN_TIMEOUT - LOCK_DURATION - RETRY_PERIOD
  }

  /** A lone waiter: nobody else touches the lock, which is free or held by a lease taken by now. */
  ghost predicate LoneWaiter(redis: Redis)
    reads redis
  {
    Quiet(redis.env, redis.turns) && (redis.lock.Some? ==> redis.lock.value.expiry <= redis.now + LOCK_DURATION)
  }

  /** The obtain loop. It ends by the deadline whatever happens; and a lone waiter behind a lease that
      is never released, as its holder crashed, obtains the lock. */
  method ObtainLock(period: int, lock: Lock) returns (lease: Option<Lease>)
    requires lock.redis.At(period, Waiting(lock.redis.now + OBTAIN_TIMEOUT, lock.redis.now))
    modifies lock, lock.redis
    ensures lease.Some? ==> lock.token == Some(lease.value.token)
    ensures lock.redis.At(period, if lease.Some? then Locked(lease.value) else Failing)
    ensures old(LoneWaiter(lock.redis)) ==> lease.Some?
  {
    hide Replay;
    var deadline := lock.redis.now + OBTAIN_TIMEOUT;
    ghost var retryAt: nat := lock.redis.now;
    while true
      invariant old(lock.redis.turns) <= lock.redis.turns && retryAt <= lock.redis.now
      invariant lock.redis.At(period, Waiting(deadline, retryAt))
      invariant old(LoneWaiter(lock.redis)) ==> lock.redis.lock == old(lock.redis.lock) && lock.redis.now < deadline
      decreases if lock.redis.now < deadline then deadline - lock.redis.now else 0
    {
      var reply := Attempt(period, lock, deadline, retryAt);
      if reply.None? || reply.value.LockError? {
        return None;
      } else if reply.value.Obtained? {
        return Some(reply.value.lease);
      }
      retryAt := lock.redis.now + RETRY_PERIOD;
      lock.redis.Sleep(RETRY_PERIOD);
    }
  }

  /** Ask the provider and, when it refreshed the session (or cannot refresh at all), stamp and save
      it. The result is the error message, if any. */
  method RefreshSession(period: int, session: SessionState, redis: Redis, ghost lease: Lease, ghost since: nat)
    returns (err: Option<string>)
    requires redis.At(period, Due(lease, session.data, since))
    modifies session`data, redis
    ensures redis.At(period, if err.None? then Unvalidated(lease, session.data)
                             else AfterRefreshError(lease, session.data, err.value))
  {
    hide Replay;
    ghost var base, log := session.data, redis.log;
    var turn := redis.Serve();
    session.data := turn.provider.session;
    ghost var replied := AfterProvider(lease, base, since, turn.provider, redis.now);
    redis.Note(CallProvider(turn.provider));
    ReplayStep(period, Idle, log, redis.log[|log|], Due(lease, base, since), replied);
    match turn.provider {
      case Failed(_, message) =>
        return Some("error refreshing tokens: " + message);
      case NotRefreshed(_) =>
        return None;
      case _ =>
    }
    session.data := session.data.(createdAt := Some(redis.now));
    log := redis.log;
    var reply, pre := redis.Save(session.data);
    err := if reply.SaveError? then Some("error saving session: " + reply.message) else None;
    ReplayStep(period, Idle, log, redis.log[|log|], replied,
               if err.None? then Unvalidated(lease, session.data)
               else AfterRefreshError(lease, session.data, err.value));
  }

  method ValidateSession(period: int, session: SessionState, redis: Redis, ghost lease: Lease)
    returns (ok: bool, ghost basis: Basis)
    requires redis.At(period, Unvalidated(lease, session.data))
    modifies redis
    ensures redis.At(period, Releasing(lease, if ok then Hand(session.data, basis) else NoSession))
  {
    hide Replay;
    ghost var log := redis.log;
    basis := Validated(redis.now);
    var expired := IsExpired(session.data, redis.now);
    redis.Note(Validate(redis.env(redis.turns).valid));
    var turn := redis.Serve();
    ok := !expired && turn.valid;
    ReplayStep(period, Idle, log, redis.log[|log|], Unvalidated(lease, session.data),
               Releasing(lease, if ok then Hand(session.data, basis) else NoSession));
  }

  /** `*session = *freshSession` with the lock put back. */
  method Restore(session: SessionState, stored: Session)
    modifies session
    ensures session.data == stored && session.lock == old(session.lock)
  {
    var freshLock := new Lock(session.lock.redis);
    var freshSession := new SessionState(stored, freshLock);
    var lock := session.lock;
    session.data, session.lock := freshSession.data, freshSession.lock;
    session.lock := lock;
  }

  /** The part of `refreshSessionIfNeeded` that runs under the lock, up to the deferred release. */
  method RefreshUnderLock(period: int, session: SessionState, redis: Redis, ghost lease: Lease)
    returns (ok: bool, ghost basis: Basis)
    requires redis.At(period, Locked(lease))
    modifies session, redis
    ensures session.lock == old(session.lock)
    ensures redis.At(period, Releasing(lease, if ok then Hand(session.data, basis) else NoSession))
  {
    hide Replay;
    ghost var log := redis.log;
    var reply, pre := redis.Load(true);
    basis := NotDue(redis.now);
    ReplayStep(period, Idle, log, redis.log[|log|], Locked(lease),
               if reply.Found? then Reloaded(lease, reply.session) else Releasing(lease, NoSession));
    if !reply.Found? {
      return false, basis;
    }
    Restore(session, reply.session);

    ghost var since := redis.now;
    var due := NeedsRefresh(period, session.data, redis.now);
    log := redis.log;
    redis.Note(Recheck);
    ReplayStep(period, Idle, log, redis.log[|log|], Reloaded(lease, session.data),
               if due then Due(lease, session.data, since) else Releasing(lease, Hand(session.data, basis)));
    if !due {
      return true, basis;
    }
    var err := RefreshSession(period, session, redis, lease, since);
    if err.Some? && IsFatalRefreshError(err.value) {
      log := redis.log;
      var removed, atClear := redis.Clear(true);
      ReplayStep(period, Idle, log, redis.log[|log|], Fatal(lease), Releasing(lease, NoSession));
      return false, basis;
    }
    ok, basis := ValidateSession(period, session, redis, lease);
  }

  /** `refreshSessionIfNeeded`: whichever way it leaves after the lock was obtained, the lock that is
      released is the one obtained, on the same lock object. */
  method RefreshSessionIfNeeded(period: int, session: SessionState, redis: Redis)
    returns (ok: bool, ghost basis: Basis)
    requires session.lock.redis == redis
    requires redis.At(period, Loaded(session.data))
    modifies session, session.lock, redis
    ensures session.lock == old(session.lock)
    ensures redis.At(period, if ok then Done(Hand(session.data, basis)) else Failing)
  {
    hide Replay;
    ghost var log := redis.log;
    var due := NeedsRefresh(period, session.data, redis.now);
    basis := NotDue(redis.now);
    redis.Note(CheckAge);
    ReplayStep(period, Idle, log, redis.log[|log|], Loaded(session.data),
               if due then Waiting(redis.now + OBTAIN_TIMEOUT, redis.now) else Done(Hand(session.data, basis)));
    if !due {
      return true, basis;
    }
    var lease := ObtainLock(period, session.lock);
    if lease.None? {
      return false, basis;
    }
    ok, basis := RefreshUnderLock(period, session, redis, lease.value);
    log := redis.log;
    var reached, pre := session.lock.Release();
    ghost var outcome := if ok then Hand(session.data, basis) else NoSession;
    ReplayStep(period, Idle, log, redis.log[|log|], Releasing(lease.value, outcome),
               if ok then Done(outcome) else Failing);
  }

  lemma EmptyReplay(period: int, p: Phase)
    ensures Replay(period, p, []) == Some(p)
  {
  }

  /** The middleware, for a request with or without a ticket cookie: what it puts in the request scope. */
  method LoadSession(period: int, redis: Redis, hasCookie: bool)
    returns (handed: Option<Session>, ghost basis: Basis)
    modifies redis
    ensures redis.At(period, Done(if handed.Some? then Hand(handed.value, basis) else NoSession))
  {
    hide Replay;
    redis.log, basis := [], NotDue(redis.now);
    EmptyReplay(period, Idle);
    if !hasCookie {
      redis.Note(Load(NoCookie));
      ReplayStep(period, Idle, [], redis.log[0], Idle, Done(NoSession));
      return None, basis;
    }
    var reply, pre := redis.Load(false);
    ReplayStep(period, Idle, [], redis.log[0], Idle, if reply.Found? then Loaded(reply.session) else Failing);
    if reply.Found? {
      var lock := new Lock(redis);
      var session := new SessionState(reply.session, lock);
      var ok;
      ok, basis := RefreshSessionIfNeeded(period, session, redis);
      if ok {
        return Some(session.data), basis;
      }
    }
    ghost var log := redis.log;
    var removed, atClear := redis.Clear(false);
    ReplayStep(period, Idle, log, redis.log[|log|], Failing, Done(NoSession));
    return None, basis;
  }

  /** Every execution of the loader that hands on a session makes at most 500 attempts at the lock; and
      the session was found not due at its last check, or was unexpired and accepted by the provider
      after the refresh attempt. */
  lemma ExecutionsAreSafe(period: int, log: seq<Entry>, session: Session, basis: Basis)
    requires Replay(period, Idle, log) == Some(Done(Hand(session, basis)))
    ensures Attempts(TraceOf(log)) <= 500
    ensures BasisHolds(period, session, basis) && CheckedAt(TraceOf(log), basis)
  {
    ReplayIsTrace(period, Idle, log);
    AttemptsAreBounded(period, TraceOf(log));
    HandedSessionsAreChecked(period, TraceOf(log));
  }

  /** Every execution of the loader hands on no session if and only if some reply was a reason to
      refuse one; and what it hands on is what the provider gave, or else what was last read. */
  lemma ExecutionOutcome(period: int, log: seq<Entry>, outcome: Outcome)
    requires Replay(period, Idle, log) == Some(Done(outcome))
    ensures outcome.NoSession? <==> RequestLaws.Refused(TraceOf(log))
    ensures outcome.Hand? && RequestLaws.LastGiven(TraceOf(log)).Some? ==>
              outcome.session == RequestLaws.LastGiven(TraceOf(log)).value
    ensures outcome.Hand? && RequestLaws.LastGiven(TraceOf(log)).None? ==>
              RequestLaws.LastFound(TraceOf(log)) == Some(outcome.session)
  {
    ReplayIsTrace(period, Idle, log);
    RequestLaws.OutcomeIsExact(period, TraceOf(log));
  }

  // ----- an execution among the other requests -----

  /** A step of a whole system in which one request runs the code above. */
  datatype Item = Own(entry: Entry) | Other(action: Action)

  function ActionOf(id: nat, item: Item): Action {
    match item
    case Own(entry) => Call(id, entry.event)
    case Other(action) => action
  }

  function OwnCalls(items: seq<Item>): seq<Entry> {
    if items == [] then []
    else OwnCalls(items[..|items| - 1]) + if items[|items| - 1].Own? then [items[|items| - 1].entry] else []
  }

  /** The items fit together: each call of the request was served by a Redis that agrees with the state
      it is placed in, and each action of the others is one they can take there. Nothing is said of
      what the request's own calls do. */
  ghost predicate Placed(period: int, id: nat, start: State, items: seq<Item>) {
    items == [] ||
    var init, last := items[..|items| - 1], items[|items| - 1];
    && Placed(period, id, start, init)
    && var s := After(period, id, start, init);
    s.Some? ==>
      match last
      case Own(entry) => SameShared(s.value, entry.pre)
      case Other(action) => !(action.Call? && action.id == id) && Apply(period, s.value, action).Some?
  }

  /** The state the protocol reaches by the items' actions. */
  function After(period: int, id: nat, start: State, items: seq<Item>): Option<State> {
    if items == [] then Some(start)
    else match After(period, id, start, items[..|items| - 1])
      case None => None
      case Some(s) => Apply(period, s, ActionOf(id, items[|items| - 1]))
  }

  lemma PlacedStep(period: int, id: nat, start: State, items: seq<Item>)
    requires items != [] && Placed(period, id, start, items) && After(period, id, start, items).Some?
    ensures var init, last := items[..|items| - 1], items[|items| - 1];
            var s := After(period, id, start, init);
            && Placed(period, id, start, init)
            && s.Some? && Apply(period, s.value, ActionOf(id, last)) == After(period, id, start, items)
            && (last.Own? ==> SameShared(s.value, last.entry.pre))
  {
    hide Apply;
  }

  lemma OthersKeepPhase(period: int, s: State, a: Action, id: nat)
    requires Apply(period, s, a).Some? && !(a.Call? && a.id == id)
    ensures PhaseOf(Apply(period, s, a).value, id) == PhaseOf(s, id)
  {
    if a.Call? {
      EffectOnLock(s, PhaseOf(s, a.id), a.event);
    }
  }

  /** The request's calls are those of the items before, and the last item's if it is its own. */
  lemma PrefixReplays(period: int, items: seq<Item>)
    requires items != [] && Replay(period, Idle, OwnCalls(items)).Some?
    ensures var init, last := items[..|items| - 1], items[|items| - 1];
            && Replay(period, Idle, OwnCalls(init)).Some?
            && (last.Other? ==> OwnCalls(items) == OwnCalls(init))
            && (last.Own? ==> Makes(period, Replay(period, Idle, OwnCalls(init)).value, last.entry,
                                    Replay(period, Idle, OwnCalls(items)).value))
  {
    hide Effect, Advance, SameShared;
    var log, own := OwnCalls(items[..|items| - 1]), OwnCalls(items);
    if items[|items| - 1].Own? {
      assert own[..|own| - 1] == log && own[|own| - 1] == items[|items| - 1].entry;
    } else {
      assert own == log;
    }
  }

  lemma {:induction false} PlacedCallsApply(period: int, id: nat, start: State, items: seq<Item>)
    requires Placed(period, id, start, items) && id !in start.requests
    requires Replay(period, Idle, OwnCalls(items)).Some?
    ensures After(period, id, start, items).Some?
    ensures PhaseOf(After(period, id, start, items).value, id) == Replay(period, Idle, OwnCalls(items)).value
    ensures items != [] && items[|items| - 1].Own? ==>
              SameShared(After(period, id, start, items).value, items[|items| - 1].entry.post)
  {
    hide Apply, Effect, Advance, Makes, SameShared, Replay;
    EmptyReplay(period, Idle);
    if items != [] {
      var init, last := items[..|items| - 1], items[|items| - 1];
      PrefixReplays(period, items);
      PlacedCallsApply(period, id, start, init);
      var s := After(period, id, start, init).value;
      if last.Own? {
        var q := Replay(period, Idle, OwnCalls(init)).value;
        CallIsProtocolStep(period, s, id, q, last.entry, Replay(period, Idle, OwnCalls(items)).value);
      } else {
        OthersKeepPhase(period, s, last.action, id);
      }
    }
  }

  /** What holds of the items holds of those up to any point. */
  lemma {:induction false} PrefixFits(period: int, id: nat, start: State, items: seq<Item>, k: nat)
    requires Placed(period, id, start, items) && Replay(period, Idle, OwnCalls(items)).Some? && k <= |items|
    ensures Placed(period, id, start, items[..k]) && Replay(period, Idle, OwnCalls(items[..k])).Some?
  {
    if k == |items| {
      assert items[..k] == items;
    } else {
      var init := items[..|items| - 1];
      PrefixReplays(period, items);
      PrefixFits(period, id, start, init, k);
      assert init[..k] == items[..k];
    }
  }

  /** The state before the k-th item. */
  function Before(period: int, id: nat, start: State, items: seq<Item>, k: nat): Option<State>
    requires k <= |items|
  {
    After(period, id, start, items[..k])
  }

  /** A call of the request was served in `s`, and left `t`, as far as Redis is concerned. */
  predicate Agrees(item: Item, s: State, t: State) {
    item.Own? ==> SameShared(s, item.entry.pre) && SameShared(t, item.entry.post)
  }

  /** What the k-th item does. */
  lemma ItemFits(period: int, id: nat, start: State, items: seq<Item>, k: nat)
    requires Placed(period, id, start, items) && id !in start.requests
    requires Replay(period, Idle, OwnCalls(items)).Some? && k < |items|
    ensures var s, t := Before(period, id, start, items, k), Before(period, id, start, items, k + 1);
            && s.Some? && t.Some? && Apply(period, s.value, ActionOf(id, items[k])) == t
            && Agrees(items[k], s.value, t.value)
  {
    hide Apply, Replay, After, Placed, SameShared;
    var upTo := items[..k + 1];
    assert upTo[..|upTo| - 1] == items[..k];
    PrefixFits(period, id, start, items, k + 1);
    PlacedCallsApply(period, id, start, upTo);
    PlacedStep(period, id, start, upTo);
  }

  lemma {:induction false} StatesBetween(period: int, id: nat, start: State, items: seq<Item>, n: nat)
    returns (states: seq<State>, actions: seq<Action>)
    requires Placed(period, id, start, items) && id !in start.requests
    requires Replay(period, Idle, OwnCalls(items)).Some? && n <= |items|
    ensures |states| == n + 1 && forall k :: 0 <= k <= n ==> Before(period, id, start, items, k) == Some(states[k])
    ensures |actions| == n && forall k :: 0 <= k < n ==> actions[k] == ActionOf(id, items[k])
  {
    if n == 0 {
      states, actions := [start], [];
    } else {
      hide Before, Placed, Replay, OwnCalls, ActionOf, SameShared, Apply;
      states, actions := StatesBetween(period, id, start, items, n - 1);
      ItemFits(period, id, start, items, n - 1);
      states := states + [Before(period, id, start, items, n).value];
      actions := actions + [ActionOf(id, items[n - 1])];
    }
  }

  /** An execution of the loader, placed in any way among the actions of other requests, is part of a
      run of the protocol: so all that holds of every run holds of it. */
  lemma ExecutionsAreRuns(period: int, id: nat, start: State, items: seq<Item>)
    returns (states: seq<State>, actions: seq<Action>)
    requires Initial(start) && Placed(period, id, start, items) && Replay(period, Idle, OwnCalls(items)).Some?
    ensures Run(period, states, actions) && |actions| == |items|
    ensures forall k :: 0 <= k < |items| ==> actions[k] == ActionOf(id, items[k])
    ensures PhaseOf(states[|items|], id) == Replay(period, Idle, OwnCalls(items)).value
    ensures forall k :: 0 <= k < |items| ==> Agrees(items[k], states[k], states[k + 1])
  {
    EndsFit(period, id, start, items);
    assert id !in start.requests;
    hide Apply, Replay, Before, Placed, Agrees, Initial, ActionOf, OwnCalls, PhaseOf;
    states, actions := StatesBetween(period, id, start, items, |items|);
    forall k | 0 <= k < |items|
      ensures Apply(period, states[k], actions[k]) == Some(states[k + 1])
      ensures Agrees(items[k], states[k], states[k + 1])
    {
      ItemFits(period, id, start, items, k);
    }
    assert states[0] == start;
  }

  lemma EndsFit(period: int, id: nat, start: State, items: seq<Item>)
    requires Placed(period, id, start, items) && Replay(period, Idle, OwnCalls(items)).Some? && id !in start.requests
    ensures Before(period, id, start, items, 0) == Some(start)
    ensures var s := Before(period, id, start, items, |items|);
            s.Some? && PhaseOf(s.value, id) == Replay(period, Idle, OwnCalls(items)).value
  {
    hide Replay, Placed;
    assert items[..|items|] == items;
    PlacedCallsApply(period, id, start, items);
  }
}
