/** Any number of requests that carry the same ticket, with the session store and the lock they
    share in Redis (pkg/middleware/stored_session.go, pkg/sessions/redis/lock.go,
    pkg/sessions/persistence/manager.go). Every interleaving of their calls is a run. */
module RefreshProtocol {
  import opened Text
  import opened Sessions

  /** One write to the store: by a login (no base) or by a refresh of `base`. */
  datatype Write = Write(session: Session, base: Option<Session>)

  /** A session given to the provider for refreshing, and how many writes came before. */
  datatype Redemption = Redemption(token: string, writesBefore: nat)

  /** `writes`, `redeemed` and `revoked` are history: no step depends on them. */
  datatype State = State(
    now: nat,
    store: Option<Session>,
    lock: Option<Lease>,
    nextToken: nat,
    requests: map<nat, Phase>,
    writes: seq<Write>,
    redeemed: seq<Redemption>,
    revoked: bool)

  datatype Action =
    | Tick(elapsed: nat)
    | Login(session: Session)
    | Vanish  // sign-out or expiry of the stored entry
    | Call(id: nat, event: Event)

  function PhaseOf(s: State, id: nat): Phase {
    if id in s.requests then s.requests[id] else Idle
  }

  /** Redis lets the key of a lease go when the lease runs out. */
  predicate Free(lock: Option<Lease>, now: nat) {
    lock.None? || lock.value.expiry <= now
  }

  /** `Manager.Save` stamps a session that has no creation time. */
  function StampIfMissing(session: Session, now: nat): Session {
    if session.createdAt.None? || session.createdAt.value == 0 then session.(createdAt := Some(now)) else session
  }

  /** What one call of a request in phase `p` does to the shared state; None when the reply is not
      one Redis can give. */
  function Effect(s: State, p: Phase, e: Event): Option<State> {
    match e
    case Load(Found(session)) => if s.store == Some(session) then Some(s) else None
    case Reload(Found(session)) => if s.store == Some(session) then Some(s) else None
    case TryLock(Obtained(lease)) =>
      if Free(s.lock, s.now) && lease == NewLease(s) then Some(TakeLock(s)) else None
    case TryLock(Busy) => if Free(s.lock, s.now) then None else Some(s)
    case TryLock(LockError(applied)) =>
      if !applied then Some(s) else if Free(s.lock, s.now) then Some(TakeLock(s)) else None
    case CallProvider(_) =>
      if p.Due? then Some(s.(redeemed := s.redeemed + [Redemption(p.session.refreshToken, |s.writes|)])) else None
    case Save(reply) =>
      if !p.Stamped? then None
      else if reply.SavedElsewhere? || (reply.SaveError? && !reply.stored) then Some(s)
      else Some(s.(store := Some(p.session), writes := s.writes + [Write(p.session, Some(p.base))]))
    case ClearRevoked(removed) => Some(if removed then s.(store := None, revoked := true) else s)
    case ClearAfterError(removed) => Some(if removed then s.(store := None) else s)
    case Release(reached) =>
      if !p.Releasing? then None
      else if reached && s.lock.Some? && s.lock.value.token == p.lease.token then Some(s.(lock := None))
      else Some(s)
    case _ => Some(s)
  }

  function NewLease(s: State): Lease {
    Lease(s.nextToken, s.now + LOCK_DURATION)
  }

  function TakeLock(s: State): State {
    s.(lock := Some(NewLease(s)), nextToken := s.nextToken + 1)
  }

  function Apply(period: int, s: State, a: Action): Option<State> {
    match a
    case Tick(elapsed) => Some(s.(now := s.now + elapsed))
    case Login(session) =>
      var saved := StampIfMissing(session, s.now);
      Some(s.(store := Some(saved), writes := s.writes + [Write(saved, None)], revoked := false))
    case Vanish => Some(s.(store := None))
    case Call(id, event) =>
      match (Advance(period, PhaseOf(s, id), event, s.now), Effect(s, PhaseOf(s, id), event))
      case (Some(q), Some(t)) => Some(t.(requests := t.requests[id := q]))
      case _ => None
  }

  predicate Initial(s: State) {
    && s.store == None && s.lock == None && s.requests == map[] && s.writes == [] && s.redeemed == []
    && !s.revoked && s.now > 0
  }

  /** A run: the states visited, and the action between each and the next. */
  predicate Run(period: int, states: seq<State>, actions: seq<Action>) {
    && |states| == |actions| + 1
    && Initial(states[0])
    && forall i :: 0 <= i < |actions| ==> Apply(period, states[i], actions[i]) == Some(states[i + 1])
  }

  // ----- the environment assumptions -----

  /** A holder that calls the provider, writes the store or clears a revoked session does so before
      its lease ends, and no login writes under a held lock. Nothing is assumed of reloads, of
      releases, of Vanish or of the clears that follow an error. */
  predicate Assumed(s: State, a: Action) {
    && (a.Login? ==> Free(s.lock, s.now))
    && (a.Call? && (a.event.CallProvider? || a.event.Save? || a.event.ClearRevoked?) && HasLease(PhaseOf(s, a.id)) ==>
          s.now < PhaseOf(s, a.id).lease.expiry)
  }

  predicate AssumedRun(period: int, states: seq<State>, actions: seq<Action>) {
    Run(period, states, actions) && forall i :: 0 <= i < |actions| ==> Assumed(states[i], actions[i])
  }

  // ----- the lock, under no assumption -----

  predicate InLease(s: State, id: nat) {
    HasLease(PhaseOf(s, id)) && s.now < PhaseOf(s, id).lease.expiry
  }

  /** Every lease in use is older than the next one; no two requests share one; and a lease that has
      not run out is the one Redis holds. */
  ghost predicate LockInv(s: State) {
    && (s.lock.Some? ==> s.lock.value.token < s.nextToken)
    && (forall id :: HasLease(PhaseOf(s, id)) ==> PhaseOf(s, id).lease.token < s.nextToken)
    && (forall id, other :: id != other && HasLease(PhaseOf(s, id)) && HasLease(PhaseOf(s, other)) ==>
                              PhaseOf(s, id).lease.token != PhaseOf(s, other).lease.token)
    && (forall id :: InLease(s, id) ==> s.lock == Some(PhaseOf(s, id).lease))
  }

  lemma AdvanceLease(period: int, p: Phase, e: Event, now: nat)
    requires Advance(period, p, e, now).Some?
    ensures var q := Advance(period, p, e, now).value;
            HasLease(q) ==> if e.TryLock? then e.lock.Obtained? && q == Locked(e.lock.lease)
                            else HasLease(p) && q.lease == p.lease && !e.Release?
    ensures Works(Advance(period, p, e, now).value) ==>
              Works(p) || (e.Reload? && e.reload.Found?)
  {
  }

  /** A call changes the lock only by taking a free one or by deleting its own. */
  lemma EffectOnLock(s: State, p: Phase, e: Event)
    requires Effect(s, p, e).Some?
    ensures var t := Effect(s, p, e).value;
            && t.now == s.now && t.requests == s.requests && s.nextToken <= t.nextToken
            && (t.lock == s.lock
                || (e.TryLock? && Free(s.lock, s.now) && t.lock == Some(NewLease(s)) && t.nextToken == s.nextToken + 1)
                || (e.Release? && p.Releasing? && s.lock.Some? && s.lock.value.token == p.lease.token
                    && t.lock == None))
            && (e.TryLock? && e.lock.Obtained? ==>
                  e.lock.lease == NewLease(s) && t.lock == Some(NewLease(s)) && Free(s.lock, s.now)
                  && t.nextToken == s.nextToken + 1)
  {
  }

  lemma CallKeepsLockInv(period: int, s: State, id: nat, e: Event, t: State)
    requires LockInv(s) && Apply(period, s, Call(id, e)) == Some(t)
    ensures LockInv(t)
  {
    AdvanceLease(period, PhaseOf(s, id), e, s.now);
    EffectOnLock(s, PhaseOf(s, id), e);
    assert PhaseOf(t, id) == Advance(period, PhaseOf(s, id), e, s.now).value;
    assert forall other :: other != id ==> PhaseOf(t, other) == PhaseOf(s, other);
    assert forall other :: InLease(t, other) && (other != id || !e.TryLock?) ==> InLease(s, other);
  }

  lemma StepKeepsLockInv(period: int, s: State, a: Action, t: State)
    requires LockInv(s) && Apply(period, s, a) == Some(t)
    ensures LockInv(t)
  {
    if a.Call? {
      CallKeepsLockInv(period, s, a.id, a.event, t);
    } else {
      assert forall id :: PhaseOf(t, id) == PhaseOf(s, id);
      assert forall id :: InLease(t, id) ==> InLease(s, id);
    }
  }

  lemma {:induction false} RunKeepsLockInv(period: int, states: seq<State>, actions: seq<Action>, i: nat)
    requires Run(period, states, actions) && i < |states|
    ensures LockInv(states[i])
  {
    if i > 0 {
      RunKeepsLockInv(period, states, actions, i - 1);
      StepKeepsLockInv(period, states[i - 1], actions[i - 1], states[i]);
    }
  }

  /** At most one request holds an unexpired lease, in every state of every run. */
  lemma MutualExclusion(period: int, states: seq<State>, actions: seq<Action>, i: nat, id: nat, other: nat)
    requires Run(period, states, actions) && i < |states|
    requires InLease(states[i], id) && InLease(states[i], other)
    ensures id == other
  {
    RunKeepsLockInv(period, states, actions, i);
  }

  /** A release that reaches Redis, however late, leaves the lock of every other request that is
      still in its lease, and never leaves its own. */
  lemma ReleaseSparesOthers(period: int, states: seq<State>, actions: seq<Action>, i: nat, id: nat, other: nat)
    requires Run(period, states, actions) && i < |actions|
    requires actions[i] == Call(id, Release(true)) && other != id
    ensures InLease(states[i], other) ==>
              InLease(states[i + 1], other)
              && states[i + 1].lock == states[i].lock == Some(PhaseOf(states[i], other).lease)
    ensures states[i + 1].lock.Some? ==> states[i + 1].lock.value.token != PhaseOf(states[i], id).lease.token
  {
    RunKeepsLockInv(period, states, actions, i);
    assert PhaseOf(states[i + 1], other) == PhaseOf(states[i], other);
  }

  // ----- the store, under the assumptions -----

  function Last(writes: seq<Write>): Session
    requires writes != []
  {
    writes[|writes| - 1].session
  }

  /** The i-th write, if a refresh, starts from the session of the write before it, at a time when that
      session was due, and so is created more than a period after it. */
  predicate ChainedAt(period: int, writes: seq<Write>, i: nat)
    requires i < |writes|
  {
    writes[i].base.Some? ==>
      && i > 0
      && writes[i].base.value == writes[i - 1].session
      && writes[i].session.createdAt.Some? && writes[i - 1].session.createdAt.Some?
      && NeedsRefresh(period, writes[i - 1].session, writes[i].session.createdAt.value)
      && writes[i].session.createdAt.value - writes[i - 1].session.createdAt.value > period
  }

  ghost predicate Chained(period: int, writes: seq<Write>) {
    forall i: nat :: i < |writes| ==> ChainedAt(period, writes, i)
  }

  predicate RedeemsLatest(writes: seq<Write>, r: Redemption) {
    0 < r.writesBefore <= |writes| && r.token == writes[r.writesBefore - 1].session.refreshToken
  }

  /** What a request in phase `p` at time `now` knows about the session it works from. */
  predicate WorkHolds(period: int, p: Phase, now: nat) {
    && (p.Due? || p.Stamped? ==> NeedsRefresh(period, BaseOf(p), p.since) && p.since <= now)
    && (p.Stamped? ==> p.session.createdAt.Some? && p.since <= p.session.createdAt.value <= now)
  }

  ghost predicate StoreInv(period: int, s: State) {
    && (s.store.Some? ==> s.writes != [] && s.store.value == Last(s.writes))
    && (forall id :: InLease(s, id) && Works(PhaseOf(s, id)) ==>
                       s.writes != [] && BaseOf(PhaseOf(s, id)) == Last(s.writes))
    && (forall id :: WorkHolds(period, PhaseOf(s, id), s.now))
    && (s.revoked ==> s.store == None && forall id :: InLease(s, id) ==> !Works(PhaseOf(s, id)))
  }

  ghost predicate HistoryInv(period: int, s: State) {
    && Chained(period, s.writes)
    && forall i :: 0 <= i < |s.redeemed| ==> RedeemsLatest(s.writes, s.redeemed[i])
  }

  ghost predicate Inv(period: int, s: State) {
    LockInv(s) && StoreInv(period, s) && HistoryInv(period, s)
  }

  lemma AdvanceWork(period: int, p: Phase, e: Event, now: nat)
    requires Advance(period, p, e, now).Some? && WorkHolds(period, p, now)
    ensures var q := Advance(period, p, e, now).value;
            && WorkHolds(period, q, now)
            && (Works(q) ==> BaseOf(q) == if e.Reload? && e.reload.Found? then e.reload.session
                                          else if Works(p) then BaseOf(p) else BaseOf(q))
  {
  }

  /** Time only takes leases away. */
  lemma TickKeepsStoreInv(period: int, s: State, elapsed: nat)
    requires StoreInv(period, s)
    ensures StoreInv(period, s.(now := s.now + elapsed))
  {
    var t := s.(now := s.now + elapsed);
    assert forall id :: PhaseOf(t, id) == PhaseOf(s, id);
    assert forall id :: InLease(t, id) ==> InLease(s, id);
  }

  /** A call changes the store's last write only by Save, and empties the store only by a clear. */
  lemma EffectOnStore(s: State, p: Phase, e: Event)
    requires Effect(s, p, e).Some?
    ensures var t := Effect(s, p, e).value;
            && t.now == s.now && t.requests == s.requests
            && (t.writes != s.writes ==>
                  e.Save? && p.Stamped? && t.writes == s.writes + [Write(p.session, Some(p.base))]
                  && t.store == Some(p.session))
            && (t.store == s.store || t.store == None || t.writes != s.writes)
            && (t.revoked != s.revoked ==> e.ClearRevoked? && t.revoked && t.store == None)
            && (e.Reload? && e.reload.Found? ==> s.store == Some(e.reload.session))
            && (t.redeemed != s.redeemed ==>
                  e.CallProvider? && p.Due?
                  && t.redeemed == s.redeemed + [Redemption(p.session.refreshToken, |s.writes|)])
  {
    if e.Save? && p.Stamped? {
      assert |s.writes + [Write(p.session, Some(p.base))]| == |s.writes| + 1;
    }
  }

  lemma CallKeepsStoreInv(period: int, s: State, id: nat, e: Event, t: State)
    requires LockInv(s) && StoreInv(period, s)
    requires Apply(period, s, Call(id, e)) == Some(t) && Assumed(s, Call(id, e))
    ensures StoreInv(period, t)
  {
    var p := PhaseOf(s, id);
    AdvanceLease(period, p, e, s.now);
    AdvanceWork(period, p, e, s.now);
    EffectOnStore(s, p, e);
    assert forall other :: other != id ==> PhaseOf(t, other) == PhaseOf(s, other);
    if e.Save? || e.ClearRevoked? {
      // Writing or revoking happens in lease, so every other request's lease has run out.
      assert InLease(s, id);
      assert forall other :: InLease(t, other) ==> other == id;
    }
    forall other | InLease(t, other) && Works(PhaseOf(t, other))
      ensures t.writes != [] && BaseOf(PhaseOf(t, other)) == Last(t.writes) && !t.revoked
    {
      if other != id {
        assert InLease(s, other);
      } else if Works(p) {
        assert InLease(s, id);
      }
    }
  }

  lemma LoginKeepsStoreInv(period: int, s: State, session: Session, t: State)
    requires LockInv(s) && StoreInv(period, s)
    requires Apply(period, s, Login(session)) == Some(t) && Assumed(s, Login(session))
    ensures StoreInv(period, t)
  {
    assert forall id :: PhaseOf(t, id) == PhaseOf(s, id);
    assert forall id :: !InLease(s, id);
    assert forall id :: InLease(t, id) ==> InLease(s, id);
  }

  lemma StepKeepsStoreInv(period: int, s: State, a: Action, t: State)
    requires LockInv(s) && StoreInv(period, s) && Apply(period, s, a) == Some(t) && Assumed(s, a)
    ensures StoreInv(period, t)
  {
    match a
    case Tick(elapsed) => TickKeepsStoreInv(period, s, elapsed);
    case Login(session) => LoginKeepsStoreInv(period, s, session, t);
    case Vanish =>
      assert forall id :: PhaseOf(t, id) == PhaseOf(s, id);
      assert forall id :: InLease(t, id) ==> InLease(s, id);
    case Call(id, e) => CallKeepsStoreInv(period, s, id, e, t);
  }

  lemma AppendKeepsHistory(period: int, writes: seq<Write>, w: Write, redeemed: seq<Redemption>)
    requires Chained(period, writes) && ChainedAt(period, writes + [w], |writes|)
    requires forall i :: 0 <= i < |redeemed| ==> RedeemsLatest(writes, redeemed[i])
    ensures Chained(period, writes + [w])
    ensures forall i :: 0 <= i < |redeemed| ==> RedeemsLatest(writes + [w], redeemed[i])
  {
    forall i: nat | i < |writes + [w]|
      ensures ChainedAt(period, writes + [w], i)
    {
      if i < |writes| {
        assert ChainedAt(period, writes, i);
      }
    }
  }

  lemma StepKeepsHistoryInv(period: int, s: State, a: Action, t: State)
    requires Inv(period, s) && Apply(period, s, a) == Some(t) && Assumed(s, a)
    ensures HistoryInv(period, t)
  {
    if a.Login? {
      AppendKeepsHistory(period, s.writes, t.writes[|s.writes|], s.redeemed);
    } else if a.Call? {
      var p := PhaseOf(s, a.id);
      EffectOnStore(s, p, a.event);
      if t.writes != s.writes {
        assert InLease(s, a.id);
        DueSessionIsOld(period, p.base, p.since, p.session.createdAt.value);
        DueStaysDue(period, p.base, p.since, p.session.createdAt.value);
        AppendKeepsHistory(period, s.writes, Write(p.session, Some(p.base)), s.redeemed);
      } else if t.redeemed != s.redeemed {
        assert InLease(s, a.id);
      }
    }
  }

  lemma {:induction false} RunKeepsInv(period: int, states: seq<State>, actions: seq<Action>, i: nat)
    requires AssumedRun(period, states, actions) && i < |states|
    ensures Inv(period, states[i])
  {
    if i > 0 {
      RunKeepsInv(period, states, actions, i - 1);
      StepKeepsLockInv(period, states[i - 1], actions[i - 1], states[i]);
      StepKeepsStoreInv(period, states[i - 1], actions[i - 1], states[i]);
      StepKeepsHistoryInv(period, states[i - 1], actions[i - 1], states[i]);
    }
  }

  // ----- theorems -----

  /** No lost update: whatever the interleaving, and with the entry vanishing at any moment, every
      refresh written starts from the session of the write just before it, and every session given
      to the provider is the one most recently written. */
  lemma NoLostUpdate(period: int, states: seq<State>, actions: seq<Action>, i: nat)
    requires AssumedRun(period, states, actions) && i < |states|
    ensures Chained(period, states[i].writes)
    ensures forall r :: r in states[i].redeemed ==> RedeemsLatest(states[i].writes, r)
  {
    RunKeepsInv(period, states, actions, i);
  }

  /** A refresh token that a later write has replaced, and that the provider never issues again, is
      never redeemed after that write. */
  lemma ReplacedTokensAreNotRedeemed(period: int, states: seq<State>, actions: seq<Action>, i: nat,
                                     r: Redemption, k: nat)
    requires AssumedRun(period, states, actions) && i < |states|
    requires r in states[i].redeemed && k + 1 < r.writesBefore
    requires forall n :: k < n < r.writesBefore && n < |states[i].writes| ==>
                           states[i].writes[n].session.refreshToken != states[i].writes[k].session.refreshToken
    ensures r.writesBefore <= |states[i].writes| && r.token != states[i].writes[k].session.refreshToken
  {
    NoLostUpdate(period, states, actions, i);
    assert RedeemsLatest(states[i].writes, r);
  }

  /** If a login came between the two writes, the session of the last one would not be due within a
      period of the first write (LaterLoginIsNotEarly: it was not created before that write). */
  predicate NoEarlyLogin(period: int, writes: seq<Write>, first: nat, second: nat)
    requires first < second < |writes|
  {
    period > 0 && writes[first].session.createdAt.Some? ==>
      forall k :: first < k < second && LastLogin(writes, k, second) ==>
                    !NeedsRefresh(period, writes[k].session, writes[first].session.createdAt.value + period)
  }

  predicate LastLogin(writes: seq<Write>, k: nat, second: nat)
    requires k < second < |writes|
  {
    writes[k].base.None? && forall m :: k < m < second ==> writes[m].base.Some?
  }

  lemma LaterLoginIsNotEarly(period: int, writes: seq<Write>, first: nat, second: nat)
    requires first < second < |writes|
    requires forall k :: first < k < second && writes[k].base.None? ==>
                           writes[first].session.createdAt.Some? && writes[k].session.createdAt.Some?
                           && writes[first].session.createdAt.value <= writes[k].session.createdAt.value
    ensures NoEarlyLogin(period, writes, first, second)
  {
  }

  lemma {:induction false} ChainIsSpaced(period: int, writes: seq<Write>, first: nat, second: nat)
    requires Chained(period, writes) && first < second < |writes|
    requires writes[first].base.Some? && writes[second].base.Some?
    requires ChainedAt(period, writes, first) && NoEarlyLogin(period, writes, first, second)
    ensures ChainedAt(period, writes, second)
    ensures writes[second].session.createdAt.value - writes[first].session.createdAt.value > period
  {
    assert ChainedAt(period, writes, second);
    var f, t := writes[first].session.createdAt.value, writes[second].session.createdAt.value;
    if first + 1 < second {
      if writes[second - 1].base.Some? {
        assert forall k :: first < k < second - 1 && LastLogin(writes, k, second - 1) ==> LastLogin(writes, k, second);
        ChainIsSpaced(period, writes, first, second - 1);
      } else {
        assert LastLogin(writes, second - 1, second);
        if t <= f + period {
          DueStaysDue(period, writes[second - 1].session, t, f + period);
        }
      }
    }
  }

  /** The creation times of any two refreshes written are more than a refresh period apart, unless a
      login between them stored a session that was already old. */
  lemma RefreshesAreSpaced(period: int, states: seq<State>, actions: seq<Action>, i: nat, first: nat, second: nat)
    requires AssumedRun(period, states, actions) && i < |states|
    requires first < second < |states[i].writes|
    requires states[i].writes[first].base.Some? && states[i].writes[second].base.Some?
    requires NoEarlyLogin(period, states[i].writes, first, second)
    ensures states[i].writes[first].session.createdAt.Some? && states[i].writes[second].session.createdAt.Some?
    ensures states[i].writes[second].session.createdAt.value - states[i].writes[first].session.createdAt.value > period
  {
    NoLostUpdate(period, states, actions, i);
    assert ChainedAt(period, states[i].writes, first);
    ChainIsSpaced(period, states[i].writes, first, second);
  }

  lemma {:induction false} RevokedUntilLogin(period: int, states: seq<State>, actions: seq<Action>, i: nat, j: nat)
    requires Run(period, states, actions) && i <= j < |states| && states[i].revoked
    requires forall k :: i <= k < j ==> !actions[k].Login?
    ensures states[j].revoked
  {
    if i < j {
      RevokedUntilLogin(period, states, actions, i, j - 1);
      var a := actions[j - 1];
      assert Apply(period, states[j - 1], a) == Some(states[j]);
      if a.Call? {
        EffectOnStore(states[j - 1], PhaseOf(states[j - 1], a.id), a.event);
      }
    }
  }

  /** After a fatal refresh error whose clear removed the entry, the store stays empty in every later
      state until a login: waiters with stale copies reload under the lock and find nothing. */
  lemma RevokedSessionsStayGone(period: int, states: seq<State>, actions: seq<Action>, i: nat, j: nat, id: nat)
    requires AssumedRun(period, states, actions) && i < j < |states|
    requires actions[i] == Call(id, ClearRevoked(true))
    requires forall k :: i <= k < j ==> !actions[k].Login?
    ensures states[j].store == None
  {
    RevokedUntilLogin(period, states, actions, i + 1, j);
    RunKeepsInv(period, states, actions, j);
  }

  predicate PastRefresh(p: Phase) {
    p.Unvalidated? || p.Releasing?
  }

  /** Sign-out, expiry of the entry, or the clear of a request that ended without a session. */
  predicate Removes(a: Action) {
    a.Vanish? || (a.Call? && a.event.ClearAfterError? && a.event.removed)
  }

  /** While a request is in its lease and past its refresh attempt, no one writes. */
  lemma PastRefreshStep(period: int, s: State, a: Action, t: State, id: nat)
    requires LockInv(s) && Apply(period, s, a) == Some(t) && Assumed(s, a)
    requires InLease(s, id) && PastRefresh(PhaseOf(s, id))
    ensures t.writes == s.writes
    ensures t.store == s.store || (t.store == None && Removes(a))
    ensures InLease(t, id) ==> PastRefresh(PhaseOf(t, id))
  {
    if a.Call? {
      var p := PhaseOf(s, a.id);
      EffectOnStore(s, p, a.event);
      assert InLease(s, a.id) ==> a.id == id;
      assert a.event.Save? || a.event.ClearRevoked? ==> HasLease(p);
    }
  }

  lemma {:induction false} PastRefreshRun(period: int, states: seq<State>, actions: seq<Action>, i: nat, j: nat,
                                          id: nat)
    requires AssumedRun(period, states, actions) && i <= j < |states| && PastRefresh(PhaseOf(states[i], id))
    requires forall k :: i <= k <= j ==> InLease(states[k], id)
    ensures states[j].writes == states[i].writes
    ensures states[j].store == states[i].store
            || (states[j].store == None && exists k :: i <= k < j && Removes(actions[k]))
    ensures PastRefresh(PhaseOf(states[j], id))
  {
    hide Apply, LockInv, InLease, PastRefresh, Assumed, Removes, Initial;
    if i < j {
      PastRefreshRun(period, states, actions, i, j - 1, id);
      RunKeepsLockInv(period, states, actions, j - 1);
      PastRefreshStep(period, states[j - 1], actions[j - 1], states[j], id);
    }
  }

  /** The provider did not refresh the session, and gave no reason to revoke it. */
  predicate LeavesSession(reply: ProviderReply) {
    reply.NotRefreshed? || (reply.Failed? && !IsFatalRefreshError("error refreshing tokens: " + reply.message))
  }

  /** A provider that fails without a fatal error leaves the stored session alone: in every
      interleaving, up to the end of the request's lease or its release, nothing is written, and the
      entry is the one that was there, or is gone because a sign-out, its expiry or another request's
      clear removed it. */
  lemma FailedRefreshLeavesStore(period: int, states: seq<State>, actions: seq<Action>, i: nat, j: nat, id: nat,
                                 reply: ProviderReply)
    requires AssumedRun(period, states, actions) && i < j < |states|
    requires actions[i] == Call(id, CallProvider(reply)) && LeavesSession(reply)
    requires forall k :: i < k <= j ==> InLease(states[k], id)
    ensures states[j].writes == states[i].writes
    ensures states[j].store == states[i].store
            || (states[j].store == None && exists k :: i < k < j && Removes(actions[k]))
  {
    var s, t := states[i], states[i + 1];
    assert Apply(period, s, actions[i]) == Some(t);
    assert t.writes == s.writes && t.store == s.store && PhaseOf(t, id).Unvalidated?;
    PastRefreshRun(period, states, actions, i + 1, j, id);
  }
}
