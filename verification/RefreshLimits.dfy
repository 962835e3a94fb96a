/** The assumptions of `RefreshProtocol` are needed, and the one about logins is exact: runs in which
    refreshes are lost or come too soon. */
module RefreshLimits {
  import opened Text
  import opened Sessions
  import opened RefreshProtocol

  function Final(states: seq<State>): State
    requires states != []
  {
    states[|states| - 1]
  }

  /** A run goes on with one more action. */
  lemma GoOn(period: int, states: seq<State>, actions: seq<Action>, a: Action, t: State)
    returns (states': seq<State>, actions': seq<Action>)
    requires Run(period, states, actions) && Apply(period, Final(states), a) == Some(t)
    ensures Run(period, states', actions') && Final(states') == t && states <= states'
    ensures AssumedRun(period, states, actions) && Assumed(Final(states), a) ==> AssumedRun(period, states', actions')
  {
    hide Apply, Assumed, Initial;
    states', actions' := states + [t], actions + [a];
  }

  function With(s: State, id: nat, p: Phase): State {
    s.(requests := s.requests[id := p])
  }

  /** A run goes on with a call of request `id`, which changes the rest of the state from `s` to `t`. */
  lemma GoOnCall(period: int, states: seq<State>, actions: seq<Action>, id: nat, e: Event, s: State, p: Phase,
                 t: State, q: Phase)
    returns (states': seq<State>, actions': seq<Action>)
    requires Run(period, states, actions) && Final(states) == With(s, id, p) && t.requests == s.requests
    requires Advance(period, p, e, s.now) == Some(q) && Effect(With(s, id, p), p, e) == Some(With(t, id, p))
    ensures Run(period, states', actions') && Final(states') == With(t, id, q) && states <= states'
    ensures AssumedRun(period, states, actions) && Assumed(With(s, id, p), Call(id, e)) ==>
              AssumedRun(period, states', actions')
  {
    assert s.requests[id := p][id := q] == s.requests[id := q];
    assert Apply(period, With(s, id, p), Call(id, e)) == Some(With(t, id, q));
    hide Apply, Advance, Effect, Run, AssumedRun, Assumed;
    states', actions' := GoOn(period, states, actions, Call(id, e), With(t, id, q));
  }

  /** A new request that finds a due session goes for the lock. */
  lemma ReachTrying(period: int, states: seq<State>, actions: seq<Action>, id: nat, session: Session)
    returns (states': seq<State>, actions': seq<Action>)
    requires Run(period, states, actions) && id !in Final(states).requests
    requires Final(states).store == Some(session) && NeedsRefresh(period, session, Final(states).now)
    ensures var s := Final(states);
            && Run(period, states', actions') && states <= states'
            && Final(states') == With(s, id, Trying(s.now + OBTAIN_TIMEOUT, s.now))
    ensures AssumedRun(period, states, actions) ==> AssumedRun(period, states', actions')
  {
    var s, deadline := Final(states), Final(states).now + OBTAIN_TIMEOUT;
    var waiting := Waiting(deadline, s.now);
    hide Run, AssumedRun, NeedsRefresh;
    states', actions' := GoOn(period, states, actions, Call(id, Load(Found(session))), With(s, id, Loaded(session)));
    states', actions' := GoOnCall(period, states', actions', id, CheckAge, s, Loaded(session), s, waiting);
    states', actions' := GoOnCall(period, states', actions', id, Poll, s, waiting, s, Trying(deadline, s.now));
  }

  /** ... finds it free and takes it. */
  lemma ReachLock(period: int, states: seq<State>, actions: seq<Action>, id: nat, session: Session)
    returns (states': seq<State>, actions': seq<Action>)
    requires Run(period, states, actions) && id !in Final(states).requests
    requires Final(states).store == Some(session) && Free(Final(states).lock, Final(states).now)
    requires NeedsRefresh(period, session, Final(states).now)
    ensures var s := Final(states);
            && Run(period, states', actions') && states <= states'
            && Final(states') == With(TakeLock(s), id, Locked(NewLease(s)))
    ensures AssumedRun(period, states, actions) ==> AssumedRun(period, states', actions')
  {
    var s, lease := Final(states), NewLease(Final(states));
    hide Run, AssumedRun, NeedsRefresh;
    states', actions' := ReachTrying(period, states, actions, id, session);
    states', actions' := GoOnCall(period, states', actions', id, TryLock(Obtained(lease)), s,
                                  Trying(s.now + OBTAIN_TIMEOUT, s.now), TakeLock(s), Locked(lease));
  }

  /** ... and gets as far as its re-check. */
  lemma ReachDue(period: int, states: seq<State>, actions: seq<Action>, id: nat, session: Session)
    returns (states': seq<State>, actions': seq<Action>)
    requires Run(period, states, actions) && id !in Final(states).requests
    requires Final(states).store == Some(session) && Free(Final(states).lock, Final(states).now)
    requires NeedsRefresh(period, session, Final(states).now)
    ensures var s := Final(states);
            && Run(period, states', actions') && states <= states'
            && Final(states') == With(TakeLock(s), id, Due(NewLease(s), session, s.now))
    ensures AssumedRun(period, states, actions) ==> AssumedRun(period, states', actions')
  {
    var s, lease := Final(states), NewLease(Final(states));
    hide Run, AssumedRun, NeedsRefresh;
    var k := TakeLock(s);
    states', actions' := ReachLock(period, states, actions, id, session);
    states', actions' := GoOnCall(period, states', actions', id, Reload(Found(session)), k, Locked(lease), k,
                                  Reloaded(lease, session));
    states', actions' := GoOnCall(period, states', actions', id, Recheck, k, Reloaded(lease, session), k,
                                  Due(lease, session, s.now));
  }

  function Renewed(session: Session, now: nat): Session {
    session.(createdAt := Some(now))
  }

  /** The state after request `id` has refreshed `session` and saved it. */
  function AfterSave(s: State, id: nat, lease: Lease, session: Session): State {
    var saved := Renewed(session, s.now);
    With(s, id, Unvalidated(lease, saved)).(
      store := Some(saved),
      writes := s.writes + [Write(saved, Some(session))],
      redeemed := s.redeemed + [Redemption(session.refreshToken, |s.writes|)])
  }

  lemma RefreshAndSave(period: int, states: seq<State>, actions: seq<Action>, s: State, id: nat, lease: Lease,
                       session: Session, since: nat)
    returns (states': seq<State>, actions': seq<Action>)
    requires Run(period, states, actions) && Final(states) == With(s, id, Due(lease, session, since))
    ensures Run(period, states', actions') && Final(states') == AfterSave(s, id, lease, session) && states <= states'
    ensures AssumedRun(period, states, actions) && s.now < lease.expiry ==> AssumedRun(period, states', actions')
  {
    hide Run, AssumedRun;
    var saved := Renewed(session, s.now);
    var asked := s.(redeemed := s.redeemed + [Redemption(session.refreshToken, |s.writes|)]);
    var stamped := Stamped(lease, session, saved, since);
    states', actions' := GoOnCall(period, states, actions, id, CallProvider(Refreshed(session)), s,
                                  Due(lease, session, since), asked, stamped);
    states', actions' := GoOnCall(period, states', actions', id, Save(SaveOk), asked, stamped,
                                  asked.(store := Some(saved), writes := s.writes + [Write(saved, Some(session))]),
                                  Unvalidated(lease, saved));
  }

  // ----- the lease assumption is needed -----

  const STALE := Session(Some(SECOND), None, "rt0", "")
  const PERIOD := 10 * SECOND

  function Start(): State {
    State(SECOND, None, None, 0, map[], [], [], false)
  }

  /** A stale session is stored at second 20. */
  function Stored(): State {
    Start().(now := 20 * SECOND, store := Some(STALE), writes := [Write(STALE, None)])
  }

  lemma ReachStored() returns (states: seq<State>, actions: seq<Action>)
    ensures AssumedRun(PERIOD, states, actions) && Final(states) == Stored()
  {
    states, actions := [Start()], [];
    assert Start().writes + [Write(STALE, None)] == [Write(STALE, None)];
    states, actions := GoOn(PERIOD, states, actions, Login(STALE),
                              Start().(store := Some(STALE), writes := [Write(STALE, None)]));
    states, actions := GoOn(PERIOD, states, actions, Tick(19 * SECOND), Stored());
  }

  lemma StaleIsDue(now: nat)
    requires now >= 20 * SECOND
    ensures NeedsRefresh(PERIOD, STALE, now)
  {
  }

  /** Without the lease assumption the chain breaks: a holder that stalls for three seconds between
      its re-check and its provider call refreshes a session that another request has replaced. */
  lemma LateHolderLosesUpdate() returns (states: seq<State>, actions: seq<Action>)
    ensures Run(PERIOD, states, actions)
    ensures var w := Final(states).writes;
            && |w| == 3
            && w[1].base == w[2].base == Some(w[0].session)
            && w[1].session.createdAt == w[2].session.createdAt
            && !Chained(PERIOD, w)
  {
    states, actions := ReachStored();
    StaleIsDue(20 * SECOND);
    StaleIsDue(23 * SECOND);
    hide Run, AssumedRun, NeedsRefresh;
    states, actions := ReachDue(PERIOD, states, actions, 1, STALE);
    var early, late := NewLease(Stored()), Lease(1, 25 * SECOND);
    var s := TakeLock(Stored()).(now := 23 * SECOND);
    var stalled := With(s, 1, Due(early, STALE, 20 * SECOND));
    states, actions := GoOn(PERIOD, states, actions, Tick(3 * SECOND), stalled);
    states, actions := ReachDue(PERIOD, states, actions, 2, STALE);
    states, actions := RefreshAndSave(PERIOD, states, actions, TakeLock(stalled), 2, late, STALE, 23 * SECOND);
    var t := AfterSave(TakeLock(stalled), 2, late, STALE);
    assert With(t, 1, Due(early, STALE, 20 * SECOND)) == t by {
      assert t.requests[1 := Due(early, STALE, 20 * SECOND)] == t.requests;
    }
    states, actions := RefreshAndSave(PERIOD, states, actions, t, 1, early, STALE, 20 * SECOND);
    assert !ChainedAt(PERIOD, Final(states).writes, 2);
  }

  // ----- logins that store an old session -----

  /** The run goes on to a refresh of the last write that comes within a period of the write `first`. */
  ghost predicate TooSoon(period: int, states: seq<State>, first: nat, states': seq<State>, actions': seq<Action>)
    requires states != [] && first < |Final(states).writes|
  {
    && AssumedRun(period, states', actions') && states <= states'
    && var w, w' := Final(states).writes, Final(states').writes;
    && w < w' && w'[|w|].base.Some? && w'[|w|].session.createdAt.Some? && w[first].session.createdAt.Some?
    && w'[|w|].session.createdAt.value - w[first].session.createdAt.value <= period
  }

  /** What the store holds after a login, with no lock taken since. */
  predicate JustLoggedIn(s: State, first: nat) {
    && first + 1 < |s.writes| && s.writes[first].base.Some? && s.writes[first].session.createdAt.Some?
    && s.writes[|s.writes| - 1].base.None? && s.store == Some(Last(s.writes)) && Free(s.lock, s.now)
  }

  /** A session that is due at `at` can be refreshed at `at`. */
  lemma RefreshAt(period: int, states: seq<State>, actions: seq<Action>, first: nat, id: nat, at: nat)
    returns (states': seq<State>, actions': seq<Action>)
    requires AssumedRun(period, states, actions) && JustLoggedIn(Final(states), first) && id !in Final(states).requests
    requires Final(states).now <= at && NeedsRefresh(period, Last(Final(states).writes), at)
    requires at <= Final(states).writes[first].session.createdAt.value + period
    ensures TooSoon(period, states, first, states', actions')
    ensures var session := Last(Final(states).writes);
            Final(states').writes == Final(states).writes + [Write(Renewed(session, at), Some(session))]
  {
    var s, session := Final(states), Last(Final(states).writes);
    assert Run(period, states, actions);
    hide Run, AssumedRun, NeedsRefresh;
    var t := s.(now := at);
    states', actions' := GoOn(period, states, actions, Tick(at - s.now), t);
    states', actions' := ReachDue(period, states', actions', id, session);
    states', actions' := RefreshAndSave(period, states', actions', TakeLock(t), id, NewLease(t), session, at);
  }

  /** After a login, a refresh can come within a period of an earlier one if and only if the session
      the login stored is due by then: so the condition of RefreshesAreSpaced cannot be weakened. */
  lemma EarlyLoginIsExact(period: int, states: seq<State>, actions: seq<Action>, first: nat, id: nat)
    requires AssumedRun(period, states, actions) && JustLoggedIn(Final(states), first) && id !in Final(states).requests
    requires Final(states).now <= Final(states).writes[first].session.createdAt.value + period
    ensures (exists states', actions' :: TooSoon(period, states, first, states', actions')) <==>
            NeedsRefresh(period, Last(Final(states).writes),
                         Final(states).writes[first].session.createdAt.value + period)
  {
    var w := Final(states).writes;
    var f := w[first].session.createdAt.value;
    if NeedsRefresh(period, Last(w), f + period) {
      var states', actions' := RefreshAt(period, states, actions, first, id, f + period);
    }
    if states', actions' :| TooSoon(period, states, first, states', actions') {
      var w' := Final(states').writes;
      NoLostUpdate(period, states', actions', |states'| - 1);
      assert ChainedAt(period, w', |w|);
      DueStaysDue(period, Last(w), w'[|w|].session.createdAt.value, f + period);
    }
  }

  /** Two refreshes two seconds apart, with a period of ten: the login between them stored a session
      that had been created before the first. */
  lemma EarlyLoginBreaksSpacing() returns (states: seq<State>, actions: seq<Action>)
    ensures AssumedRun(PERIOD, states, actions)
    ensures var w := Final(states).writes;
            && |w| == 4 && w[1].base.Some? && w[2].base.None? && w[3].base.Some?
            && w[1].session.createdAt == Some(20 * SECOND) && w[3].session.createdAt == Some(22 * SECOND)
  {
    states, actions := ReachStored();
    StaleIsDue(20 * SECOND);
    StaleIsDue(22 * SECOND);
    hide Run, AssumedRun, NeedsRefresh;
    var lease := NewLease(Stored());
    states, actions := ReachDue(PERIOD, states, actions, 1, STALE);
    states, actions := RefreshAndSave(PERIOD, states, actions, TakeLock(Stored()), 1, lease, STALE, 20 * SECOND);
    var s := AfterSave(TakeLock(Stored()), 1, lease, STALE).(now := 22 * SECOND);
    states, actions := GoOn(PERIOD, states, actions, Tick(2 * SECOND), s);
    var t := s.(store := Some(STALE), writes := s.writes + [Write(STALE, None)]);
    states, actions := GoOn(PERIOD, states, actions, Login(STALE), t);
    states, actions := RefreshAt(PERIOD, states, actions, 1, 2, 22 * SECOND);
  }
}
