/** Session state (pkg/apis/sessions/session_state.go) and the way one request refreshes it
    (pkg/middleware/stored_session.go), as an automaton over the calls the request makes. */
module Sessions {
  import opened Text

  // Times are nanoseconds since Go's zero time.
  const MILLISECOND := 1_000_000

  const OBTAIN_TIMEOUT := 5 * SECOND
  const LOCK_DURATION := 2 * SECOND
  const RETRY_PERIOD := 10 * MILLISECOND

  /** `payload` stands for the claims and tokens the refresh logic does not look at. */
  datatype Session = Session(createdAt: Option<nat>, expiresOn: Option<nat>, refreshToken: string, payload: string)

  /** `Age`: measured from the current time cut down to a whole second; zero for a session without
      a creation time. */
  function Age(s: Session, now: nat): int {
    if s.createdAt.Some? && s.createdAt.value != 0 then (now - now % SECOND) - s.createdAt.value else 0
  }

  predicate IsExpired(s: Session, now: nat) {
    s.expiresOn.Some? && s.expiresOn.value != 0 && s.expiresOn.value < now
  }

  predicate NeedsRefresh(period: int, s: Session, now: nat) {
    period > 0 && Age(s, now) > period
  }

  function WholeSecond(k: nat): nat {
    k * SECOND
  }

  /** A session is due exactly when it has a creation time, refreshing is on, and some whole second
      that has come lies more than a period after its creation. */
  lemma DueFromAWholeSecond(period: int, s: Session, now: nat)
    ensures NeedsRefresh(period, s, now) <==>
            && period > 0 && s.createdAt.Some? && s.createdAt.value != 0
            && exists k: nat :: WholeSecond(k) <= now && WholeSecond(k) > s.createdAt.value + period
  {
    assert WholeSecond(now / SECOND) == now - now % SECOND;
    forall k: nat | WholeSecond(k) <= now
      ensures WholeSecond(k) <= WholeSecond(now / SECOND)
    {
      assert k <= now / SECOND;
    }
  }

  /** A session found due at one instant was created more than a period before every later one. */
  lemma DueSessionIsOld(period: int, s: Session, checkedAt: nat, later: nat)
    requires NeedsRefresh(period, s, checkedAt) && checkedAt <= later
    ensures s.createdAt.Some? && later - s.createdAt.value > period
  {
  }

  /** Waiting does not undo that a session is due. */
  lemma DueStaysDue(period: int, s: Session, checkedAt: nat, later: nat)
    requires NeedsRefresh(period, s, checkedAt) && checkedAt <= later
    ensures NeedsRefresh(period, s, later)
  {
  }

  // ----- fatal errors -----

  predicate Contains(s: string, sub: string) {
    exists i :: 0 <= i <= |s| && sub <= s[i..]
  }

  predicate IsFatalRefreshError(message: string) {
    Contains(message, "invalid_grant") || Contains(message, "invalid_client")
  }

  // ----- what the calls of a request can answer -----

  datatype Lease = Lease(token: nat, expiry: nat)

  datatype LoadReply = Found(session: Session) | NoCookie | LoadError

  /** `LockError` is any failure other than "not obtained"; the command may still have reached Redis. */
  datatype LockReply = Obtained(lease: Lease) | Busy | LockError(applied: bool)

  /** `session` is what the provider left in the session it was given. */
  datatype ProviderReply =
    | Refreshed(session: Session)
    | NotRefreshed(session: Session)
    | NotImplemented(session: Session)
    | Failed(session: Session, message: string)

  /** `SavedElsewhere`: the request's ticket no longer validates, so a new one was made and saved under. */
  datatype SaveReply = SaveOk | SavedElsewhere | SaveError(stored: bool, message: string)

  datatype Event =
    | Load(load: LoadReply)
    | CheckAge
    | Poll
    | TryLock(lock: LockReply)
    | Reload(reload: LoadReply)
    | Recheck
    | CallProvider(provider: ProviderReply)
    | Save(save: SaveReply)
    | Validate(valid: bool)
    | ClearRevoked(removed: bool)
    | Release(reached: bool)
    | ClearAfterError(removed: bool)
    | Crash

  /** Why a session may be handed to the next handler. */
  datatype Basis = NotDue(at: nat) | Validated(at: nat)

  datatype Outcome = Hand(session: Session, basis: Basis) | NoSession

  /** Where a request is. From `Locked` to `Releasing` it holds (or has held) its lease. */
  datatype Phase =
    | Idle
    | Loaded(session: Session)
    | Waiting(deadline: nat, retryAt: nat)
    | Trying(deadline: nat, polledAt: nat)
    | Locked(lease: Lease)
    | Reloaded(lease: Lease, session: Session)
    | Due(lease: Lease, session: Session, since: nat)
    | Stamped(lease: Lease, base: Session, session: Session, since: nat)
    | Unvalidated(lease: Lease, session: Session)
    | Fatal(lease: Lease)
    | Releasing(lease: Lease, outcome: Outcome)
    | Failing
    | Done(outcome: Outcome)
    | Crashed

  predicate HasLease(p: Phase) {
    p.Locked? || p.Reloaded? || p.Due? || p.Stamped? || p.Unvalidated? || p.Fatal? || p.Releasing?
  }

  /** The request works from a session it read under its lock and may still write a successor. */
  predicate Works(p: Phase) {
    p.Reloaded? || p.Due? || p.Stamped?
  }

  function BaseOf(p: Phase): Session
    requires Works(p)
  {
    if p.Stamped? then p.base else p.session
  }

  /** After `refreshSession` failed with `message`: clear the session or go on to validation. */
  function AfterRefreshError(lease: Lease, session: Session, message: string): Phase {
    if IsFatalRefreshError(message) then Fatal(lease) else Unvalidated(lease, session)
  }

  /** One call of the request at time `now`: the next phase, or None when the code does not make
      that call there. */
  function Advance(period: int, p: Phase, e: Event, now: nat): Option<Phase> {
    match (p, e)
    case (Done(_), _) => None
    case (Crashed, _) => None
    case (_, Crash) => Some(Crashed)
    case (Idle, Load(Found(session))) => Some(Loaded(session))
    case (Idle, Load(NoCookie)) => Some(Done(NoSession))
    case (Idle, Load(LoadError)) => Some(Failing)
    case (Loaded(session), CheckAge) =>
      if NeedsRefresh(period, session, now) then Some(Waiting(now + OBTAIN_TIMEOUT, now))
      else Some(Done(Hand(session, NotDue(now))))
    case (Waiting(deadline, retryAt), Poll) =>
      if now < retryAt then None
      else if deadline <= now then Some(Failing)
      else Some(Trying(deadline, now))
    case (Trying(deadline, polledAt), TryLock(reply)) =>
      if now < polledAt then None
      else (match reply
            case Obtained(lease) => Some(Locked(lease))
            case Busy => Some(Waiting(deadline, now + RETRY_PERIOD))
            case LockError(_) => Some(Failing))
    case (Locked(lease), Reload(Found(session))) => Some(Reloaded(lease, session))
    case (Locked(lease), Reload(_)) => Some(Releasing(lease, NoSession))
    case (Reloaded(lease, session), Recheck) =>
      if NeedsRefresh(period, session, now) then Some(Due(lease, session, now))
      else Some(Releasing(lease, Hand(session, NotDue(now))))
    case (Due(lease, session, since), CallProvider(reply)) => Some(AfterProvider(lease, session, since, reply, now))
    case (Stamped(lease, base, session, since), Save(reply)) =>
      Some(if reply.SaveError? then AfterRefreshError(lease, session, "error saving session: " + reply.message)
           else Unvalidated(lease, session))
    case (Unvalidated(lease, session), Validate(valid)) =>
      Some(Releasing(lease, if !IsExpired(session, now) && valid then Hand(session, Validated(now)) else NoSession))
    case (Fatal(lease), ClearRevoked(_)) => Some(Releasing(lease, NoSession))
    case (Releasing(lease, NoSession), Release(_)) => Some(Failing)
    case (Releasing(lease, outcome), Release(_)) => Some(Done(outcome))
    case (Failing, ClearAfterError(_)) => Some(Done(NoSession))
    case _ => None
  }

  function AfterProvider(lease: Lease, session: Session, since: nat, reply: ProviderReply, now: nat): Phase {
    match reply
    case Failed(left, message) => AfterRefreshError(lease, left, "error refreshing tokens: " + message)
    case NotRefreshed(left) => Unvalidated(lease, left)
    case Refreshed(left) => Stamped(lease, session, left.(createdAt := Some(now)), since)
    case NotImplemented(left) => Stamped(lease, session, left.(createdAt := Some(now)), since)
  }

  // ----- whole requests -----

  datatype Timed = Timed(event: Event, at: nat)

  /** The phase a request reaches from `p` by the calls of `trace`. */
  function Trace(period: int, p: Phase, trace: seq<Timed>): Option<Phase> {
    if trace == [] then Some(p)
    else match Trace(period, p, trace[..|trace| - 1])
      case None => None
      case Some(q) => Advance(period, q, trace[|trace| - 1].event, trace[|trace| - 1].at)
  }

  function Attempts(trace: seq<Timed>): nat {
    if trace == [] then 0
    else Attempts(trace[..|trace| - 1]) + if trace[|trace| - 1].event.TryLock? then 1 else 0
  }

  /** What `n` attempts leave of the obtain timeout: each failed one costs a retry period. */
  predicate WithinTimeout(p: Phase, n: nat) {
    && (p.Idle? || p.Loaded? ==> n == 0)
    && (p.Waiting? ==> n * RETRY_PERIOD <= p.retryAt - (p.deadline - OBTAIN_TIMEOUT))
    && (p.Trying? ==> n * RETRY_PERIOD <= p.polledAt - (p.deadline - OBTAIN_TIMEOUT) < OBTAIN_TIMEOUT)
    && n * RETRY_PERIOD <= OBTAIN_TIMEOUT
  }

  lemma AttemptsTakeTime(period: int, p: Phase, e: Event, now: nat, n: nat)
    requires WithinTimeout(p, n) && Advance(period, p, e, now).Some?
    ensures WithinTimeout(Advance(period, p, e, now).value, n + if e.TryLock? then 1 else 0)
  {
  }

  lemma {:induction false} TraceWithinTimeout(period: int, trace: seq<Timed>)
    requires Trace(period, Idle, trace).Some?
    ensures WithinTimeout(Trace(period, Idle, trace).value, Attempts(trace))
  {
    if trace != [] {
      var init, last := trace[..|trace| - 1], trace[|trace| - 1];
      TraceWithinTimeout(period, init);
      AttemptsTakeTime(period, Trace(period, Idle, init).value, last.event, last.at, Attempts(init));
    }
  }

  /** The obtain loop makes at most timeout / retry-period = 500 attempts, whatever the clock does
      between them and whatever the rest of the request does. */
  lemma AttemptsAreBounded(period: int, trace: seq<Timed>)
    requires Trace(period, Idle, trace).Some?
    ensures Attempts(trace) <= OBTAIN_TIMEOUT / RETRY_PERIOD == 500
  {
    TraceWithinTimeout(period, trace);
  }

  lemma AdvanceFromLease(period: int, p: Phase, e: Event, now: nat)
    requires HasLease(p) && !e.Crash? && Advance(period, p, e, now).Some?
    ensures var q := Advance(period, p, e, now).value;
            if e.Release? then q.Failing? || q.Done? else HasLease(q) && q.lease == p.lease
  {
  }

  lemma AdvanceWithoutLease(period: int, p: Phase, e: Event, now: nat)
    requires (p.Failing? || p.Done?) && !e.Crash? && Advance(period, p, e, now).Some?
    ensures Advance(period, p, e, now).value.Done?
  {
  }

  /** Once a lease is obtained, the request keeps that very lease through every phase, and the only
      call that ends it is Release: no exit path skips it. */
  lemma {:induction false} LeaseEndsOnlyByRelease(period: int, p: Phase, trace: seq<Timed>)
    requires HasLease(p) && Trace(period, p, trace).Some?
    requires forall i :: 0 <= i < |trace| ==> !trace[i].event.Crash?
    ensures var q := Trace(period, p, trace).value;
            if exists i :: 0 <= i < |trace| && trace[i].event.Release?
            then q.Failing? || q.Done?
            else HasLease(q) && q.lease == p.lease
  {
    if trace != [] {
      var init, last := trace[..|trace| - 1], trace[|trace| - 1];
      LeaseEndsOnlyByRelease(period, p, init);
      var q := Trace(period, p, init).value;
      assert Advance(period, q, last.event, last.at) == Trace(period, p, trace);
      hide Advance, Trace;
      assert forall i :: 0 <= i < |init| ==> init[i] == trace[i];
      if exists i :: 0 <= i < |init| && init[i].event.Release? {
        AdvanceWithoutLease(period, q, last.event, last.at);
      } else {
        AdvanceFromLease(period, q, last.event, last.at);
      }
    }
  }

  /** What a handed session has been checked for: it was not older than a period, counted to the last
      whole second, or its expiry time had not passed. */
  predicate BasisHolds(period: int, session: Session, basis: Basis) {
    match basis
    case NotDue(at) =>
      period <= 0 || session.createdAt.None? || session.createdAt.value == 0
      || at - at % SECOND <= session.createdAt.value + period
    case Validated(at) =>
      session.expiresOn.None? || session.expiresOn.value == 0 || at <= session.expiresOn.value
  }

  /** The provider has been asked to refresh the session. */
  predicate Attempted(p: Phase) {
    p.Stamped? || p.Unvalidated? || p.Fatal?
    || ((p.Done? || p.Releasing?) && p.outcome.Hand? && p.outcome.basis.Validated?)
  }

  predicate AskedBefore(trace: seq<Timed>, n: int) {
    exists m :: 0 <= m < n && m < |trace| && trace[m].event.CallProvider?
  }

  /** The provider accepted the session at time `at`, in a call made after it was asked to refresh it. */
  predicate ValidatedAfterAttempt(trace: seq<Timed>, at: nat) {
    exists n :: 0 <= n < |trace| && trace[n] == Timed(Validate(true), at) && AskedBefore(trace, n)
  }

  lemma {:induction false} AttemptIsInTrace(period: int, trace: seq<Timed>)
    requires Trace(period, Idle, trace).Some? && Attempted(Trace(period, Idle, trace).value)
    ensures AskedBefore(trace, |trace|)
  {
    if trace != [] {
      var init, last := trace[..|trace| - 1], trace[|trace| - 1];
      var p := Trace(period, Idle, init).value;
      if Attempted(p) {
        AttemptIsInTrace(period, init);
        var m :| 0 <= m < |init| && init[m].event.CallProvider?;
        assert trace[m].event.CallProvider?;
      } else {
        assert p.Due? && trace[|trace| - 1].event.CallProvider?;
      }
    }
  }

  predicate CheckedAt(trace: seq<Timed>, basis: Basis) {
    match basis
    case NotDue(at) => Timed(CheckAge, at) in trace || Timed(Recheck, at) in trace
    case Validated(at) => ValidatedAfterAttempt(trace, at)
  }

  lemma CheckedAtExtends(init: seq<Timed>, last: Timed, basis: Basis)
    requires CheckedAt(init, basis)
    ensures CheckedAt(init + [last], basis)
  {
    var trace := init + [last];
    assert forall i :: 0 <= i < |init| ==> init[i] == trace[i];
    if basis.Validated? {
      var n :| 0 <= n < |init| && init[n] == Timed(Validate(true), basis.at) && AskedBefore(init, n);
      var m :| 0 <= m < n && init[m].event.CallProvider?;
      assert trace[m].event.CallProvider? && AskedBefore(trace, n);
    }
  }

  /** A session reaches the next handler only if it was not due when last checked, or was unexpired
      and accepted by the provider in a validation that came after the refresh attempt. */
  lemma {:induction false} HandedSessionsAreChecked(period: int, trace: seq<Timed>)
    requires Trace(period, Idle, trace).Some?
    ensures var p := Trace(period, Idle, trace).value;
            (p.Done? || p.Releasing?) && p.outcome.Hand? ==>
              BasisHolds(period, p.outcome.session, p.outcome.basis) && CheckedAt(trace, p.outcome.basis)
  {
    if trace != [] {
      var init, last := trace[..|trace| - 1], trace[|trace| - 1];
      var p, q := Trace(period, Idle, init).value, Trace(period, Idle, trace).value;
      HandedSessionsAreChecked(period, init);
      assert trace == init + [last] && last == Timed(last.event, last.at);
      if p.Releasing? && p.outcome.Hand? {
        CheckedAtExtends(init, last, p.outcome.basis);
      } else if p.Unvalidated? && q.Releasing? && q.outcome.Hand? {
        AttemptIsInTrace(period, init);
        var m :| 0 <= m < |init| && init[m].event.CallProvider?;
        assert trace[m].event.CallProvider? && AskedBefore(trace, |init|);
      }
    }
  }

  // ----- what follows a refresh attempt -----

  /** A trace is its first call and a trace from where that leads. */
  lemma {:induction false} TraceFirst(period: int, p: Phase, trace: seq<Timed>)
    requires trace != []
    ensures var q := Advance(period, p, trace[0].event, trace[0].at);
            Trace(period, p, trace) == if q.None? then None else Trace(period, q.value, trace[1..])
  {
    hide Advance;
    var init, last := trace[..|trace| - 1], trace[|trace| - 1];
    var q := Advance(period, p, trace[0].event, trace[0].at);
    if |trace| == 1 {
      assert Trace(period, p, init) == Some(p);
      assert q.Some? ==> Trace(period, q.value, trace[1..]) == q;
    } else {
      TraceFirst(period, p, init);
      assert init[1..] == trace[1..][..|trace| - 2];
    }
  }

  lemma NothingAfterEnd(period: int, p: Phase, trace: seq<Timed>)
    requires (p.Done? || p.Crashed?) && Trace(period, p, trace).Some?
    ensures trace == []
  {
    if trace != [] {
      TraceFirst(period, p, trace);
    }
  }

  /** The first call of a request that runs to its end. */
  lemma FirstCall(period: int, p: Phase, trace: seq<Timed>)
    requires Trace(period, p, trace).Some? && Trace(period, p, trace).value.Done? && !p.Done?
    ensures trace != [] && !trace[0].event.Crash?
    ensures var q := Advance(period, p, trace[0].event, trace[0].at);
            q.Some? && Trace(period, q.value, trace[1..]) == Trace(period, p, trace)
  {
    assert trace != [];
    TraceFirst(period, p, trace);
    var q := Advance(period, p, trace[0].event, trace[0].at);
    if q.value.Crashed? {
      NothingAfterEnd(period, q.value, trace[1..]);
    }
  }

  /** From the release on: a session that is handed on is not cleared, and without one the request
      clears after the release. */
  lemma ReleaseThenEnd(period: int, lease: Lease, outcome: Outcome, trace: seq<Timed>)
    requires Trace(period, Releasing(lease, outcome), trace).Some?
             && Trace(period, Releasing(lease, outcome), trace).value.Done?
    ensures |trace| == (if outcome.NoSession? then 2 else 1) && trace[0].event.Release?
    ensures outcome.NoSession? ==> trace[1].event.ClearAfterError?
    ensures Trace(period, Releasing(lease, outcome), trace) == Some(Done(outcome))
  {
    FirstCall(period, Releasing(lease, outcome), trace);
    hide Trace;
    if outcome.NoSession? {
      FirstCall(period, Failing, trace[1..]);
      NothingAfterEnd(period, Done(outcome), trace[1..][1..]);
    } else {
      NothingAfterEnd(period, Done(outcome), trace[1..]);
    }
    EmptyTrace(period, Done(outcome));
  }

  lemma EmptyTrace(period: int, p: Phase)
    ensures Trace(period, p, []) == Some(p)
  {
  }

  /** The session has an expiry time, and it has passed. */
  predicate PastExpiry(session: Session, at: nat) {
    match session.expiresOn
    case None => false
    case Some(time) => 0 < time < at
  }

  /** Once a refresh attempt has ended without a fatal error, a request that runs to its end validates
      the session first, and clears the stored entry if and only if the session had expired or the
      provider rejected it; otherwise it hands the session on. */
  lemma ClearsExactlyRejected(period: int, lease: Lease, session: Session, trace: seq<Timed>)
    requires Trace(period, Unvalidated(lease, session), trace).Some?
             && Trace(period, Unvalidated(lease, session), trace).value.Done?
    ensures trace != [] && trace[0].event.Validate?
    ensures (exists k :: 0 <= k < |trace| && trace[k].event.ClearAfterError?) <==>
            PastExpiry(session, trace[0].at) || !trace[0].event.valid
    ensures Trace(period, Unvalidated(lease, session), trace).value.outcome.Hand? <==>
            !PastExpiry(session, trace[0].at) && trace[0].event.valid
    ensures forall k :: 0 <= k < |trace| ==> !trace[k].event.ClearRevoked? && !trace[k].event.Save?
  {
    FirstCall(period, Unvalidated(lease, session), trace);
    hide Trace;
    var q := Advance(period, Unvalidated(lease, session), trace[0].event, trace[0].at).value;
    ReleaseThenEnd(period, lease, q.outcome, trace[1..]);
    assert forall k :: 0 < k < |trace| ==> trace[k] == trace[1..][k - 1];
    if q.outcome.NoSession? {
      assert trace[2] == trace[1..][1];
    }
  }
}
