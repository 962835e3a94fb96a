/** What the store holds over whole runs: every session written by a refresh is the provider's answer
    to a call made for the session it replaces (pkg/middleware/stored_session.go:250-283). */
module RefreshWrites {
  import opened Text
  import opened Sessions
  import opened RefreshProtocol
  import opened RequestLaws

  /** The i-th action is a provider call of request `id` for `base`, answered with `session`, which is
      stamped with the time of the call. */
  predicate RenewedAt(states: seq<State>, actions: seq<Action>, i: nat, id: nat, base: Session, session: Session) {
    && i < |actions| && i < |states|
    && actions[i].Call? && actions[i].id == id && actions[i].event.CallProvider?
    && Renews(actions[i].event.provider) && session == Given(actions[i].event.provider, states[i].now)
    && PhaseOf(states[i], id).Due? && PhaseOf(states[i], id).session == base
  }

  /** What a request is about to save was given by the provider. */
  lemma {:induction false} StampedIsGiven(period: int, states: seq<State>, actions: seq<Action>, j: nat, id: nat)
    returns (i: nat)
    requires Run(period, states, actions) && j < |states| && PhaseOf(states[j], id).Stamped?
    ensures i < j && RenewedAt(states, actions, i, id, PhaseOf(states[j], id).base, PhaseOf(states[j], id).session)
  {
    hide Initial;
    assert j > 0 by {
      assert j == 0 ==> PhaseOf(states[0], id) == Idle by { StartsIdle(period, states, actions, id); }
    }
    var s, a := states[j - 1], actions[j - 1];
    assert Apply(period, s, a) == Some(states[j]);
    if PhaseOf(s, id) == PhaseOf(states[j], id) {
      i := StampedIsGiven(period, states, actions, j - 1, id);
    } else {
      StampedBy(period, s, a, states[j], id);
      i := j - 1;
    }
  }

  lemma StartsIdle(period: int, states: seq<State>, actions: seq<Action>, id: nat)
    requires Run(period, states, actions)
    ensures PhaseOf(states[0], id) == Idle
  {
    hide Apply;
  }

  /** Only the provider's answer puts a request in a position to save. */
  lemma StampedBy(period: int, s: State, a: Action, t: State, id: nat)
    requires Apply(period, s, a) == Some(t) && PhaseOf(t, id).Stamped? && PhaseOf(s, id) != PhaseOf(t, id)
    ensures a.Call? && a.id == id && a.event.CallProvider? && Renews(a.event.provider)
    ensures PhaseOf(s, id).Due? && PhaseOf(s, id).session == PhaseOf(t, id).base
    ensures PhaseOf(t, id).session == Given(a.event.provider, s.now)
  {
    if a.Call? {
      EffectOnLock(s, PhaseOf(s, a.id), a.event);
    }
  }

  /** Every refresh written is the provider's answer to a call made for the session it replaces: no
      token the provider gave is dropped, and none it did not give is stored. */
  lemma {:induction false} WritesAreGiven(period: int, states: seq<State>, actions: seq<Action>, j: nat, k: nat)
    returns (i: nat, id: nat)
    requires Run(period, states, actions) && j < |states|
    requires k < |states[j].writes| && states[j].writes[k].base.Some?
    ensures i < j && RenewedAt(states, actions, i, id, states[j].writes[k].base.value, states[j].writes[k].session)
  {
    assert j > 0 by { assert Initial(states[0]); }
    hide RenewedAt, Initial;
    var s, a, t := states[j - 1], actions[j - 1], states[j];
    assert Apply(period, s, a) == Some(t);
    WritesGrow(period, s, a, t);
    if k < |s.writes| {
      i, id := WritesAreGiven(period, states, actions, j - 1, k);
    } else {
      id := a.id;
      i := StampedIsGiven(period, states, actions, j - 1, id);
    }
  }

  /** The save took effect on this entry, whether or not it reported so. */
  predicate Reaches(reply: SaveReply) {
    reply.SaveOk? || (reply.SaveError? && reply.stored)
  }

  /** A step adds at most one write, and a call of a request only by a save that reached this
      entry; one with a base is what a request was about to save. */
  lemma WritesGrow(period: int, s: State, a: Action, t: State)
    requires Apply(period, s, a) == Some(t)
    ensures t.writes == s.writes || (|t.writes| == |s.writes| + 1 && t.writes[..|s.writes|] == s.writes)
    ensures forall k :: 0 <= k < |s.writes| ==> |t.writes| > k && t.writes[k] == s.writes[k]
    ensures |t.writes| > |s.writes| && t.writes[|s.writes|].base.Some? ==>
              && a.Call? && PhaseOf(s, a.id).Stamped?
              && t.writes[|s.writes|] == Write(PhaseOf(s, a.id).session, Some(PhaseOf(s, a.id).base))
    ensures a.Call? ==> (|t.writes| > |s.writes| <==> a.event.Save? && Reaches(a.event.save))
    ensures |t.writes| > |s.writes| ==> t.store == Some(Last(t.writes))
    ensures |t.writes| > |s.writes| && t.writes[|s.writes|].base.None? ==>
              && a.Login? && t.writes[|s.writes|].session.(createdAt := a.session.createdAt) == a.session
              && t.writes[|s.writes|].session.createdAt
                 == if HasTime(a.session) then a.session.createdAt else Some(s.now)
  {
    if a.Call? {
      EffectOnStore(s, PhaseOf(s, a.id), a.event);
    }
  }

  /** Whenever a request reads a session, it is the one most recently written, whatever else happens. */
  lemma ReadsSeeLastWrite(period: int, states: seq<State>, actions: seq<Action>, i: nat, session: Session)
    requires Run(period, states, actions) && i < |actions| && actions[i].Call?
    requires actions[i].event == Load(Found(session)) || actions[i].event == Reload(Found(session))
    ensures states[i].writes != [] && Last(states[i].writes) == session
  {
    StoreIsLastWrite(period, states, actions, i);
    assert Apply(period, states[i], actions[i]) == Some(states[i + 1]);
  }

  lemma {:induction false} StoreIsLastWrite(period: int, states: seq<State>, actions: seq<Action>, i: nat)
    requires Run(period, states, actions) && i < |states|
    ensures states[i].store.Some? ==> states[i].writes != [] && states[i].store.value == Last(states[i].writes)
  {
    if i > 0 {
      StoreIsLastWrite(period, states, actions, i - 1);
      var s, a := states[i - 1], actions[i - 1];
      assert Apply(period, s, a) == Some(states[i]);
      if a.Call? {
        EffectOnStore(s, PhaseOf(s, a.id), a.event);
      }
    }
  }

  /** The token redeemed after a refresh is the one the provider gave in that refresh. */
  lemma NextRefreshRedeemsNewToken(period: int, states: seq<State>, actions: seq<Action>, j: nat, r: Redemption)
    returns (i: nat, id: nat)
    requires AssumedRun(period, states, actions) && j < |states| && r in states[j].redeemed
    requires 0 < r.writesBefore <= |states[j].writes| && states[j].writes[r.writesBefore - 1].base.Some?
    ensures i < j && i < |actions| && actions[i].Call? && actions[i].id == id && actions[i].event.CallProvider?
    ensures Renews(actions[i].event.provider) && r.token == actions[i].event.provider.session.refreshToken
  {
    NoLostUpdate(period, states, actions, j);
    assert RedeemsLatest(states[j].writes, r);
    hide Run, Chained;
    i, id := WritesAreGiven(period, states, actions, j, r.writesBefore - 1);
  }

  /** Every session in the store has a creation time, so that its age is known. */
  predicate HasTime(session: Session) {
    session.createdAt.Some? && session.createdAt.value > 0
  }

  lemma {:induction false} StoredSessionsHaveTimes(period: int, states: seq<State>, actions: seq<Action>, j: nat,
                                                   k: nat)
    requires Run(period, states, actions) && j < |states| && k < |states[j].writes|
    ensures HasTime(states[j].writes[k].session) && states[j].now > 0
  {
    assert j > 0 by { assert Initial(states[0]); }
    var s, a, t := states[j - 1], actions[j - 1], states[j];
    assert Apply(period, s, a) == Some(t);
    TimePasses(period, states, actions, j - 1);
    WritesGrow(period, s, a, t);
    if k < |s.writes| {
      StoredSessionsHaveTimes(period, states, actions, j - 1, k);
    } else if t.writes[k].base.Some? {
      var i := StampedIsGiven(period, states, actions, j - 1, a.id);
      TimePasses(period, states, actions, i);
    }
  }

  lemma {:induction false} TimePasses(period: int, states: seq<State>, actions: seq<Action>, j: nat)
    requires Run(period, states, actions) && j < |states|
    ensures states[j].now > 0
  {
    if j > 0 {
      TimePasses(period, states, actions, j - 1);
      var s, a := states[j - 1], actions[j - 1];
      assert Apply(period, s, a) == Some(states[j]);
      if a.Call? {
        EffectOnLock(s, PhaseOf(s, a.id), a.event);
      }
    }
  }
}
