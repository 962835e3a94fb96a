/** What a whole request does, told from the replies it gets (pkg/middleware/stored_session.go:107-298):
    which session it hands on, exactly when it hands on none, and exactly when it clears the entry. */
module RequestLaws {
  import opened Text
  import opened Sessions

  // ----- fatal messages -----

  predicate Around(s: string, before: string, sub: string, after: string) {
    s == before + sub + after
  }

  /** The text occurs somewhere in the message. */
  ghost predicate Mentions(message: string, sub: string) {
    exists before, after :: Around(message, before, sub, after)
  }

  /** The error codes of section 5.2 of RFC 6749 after which a session is given up. */
  ghost predicate Revokes(message: string) {
    Mentions(message, "invalid_grant") || Mentions(message, "invalid_client")
  }

  lemma ContainsIsMentions(message: string, sub: string)
    ensures Contains(message, sub) <==> Mentions(message, sub)
  {
    if Contains(message, sub) {
      var i :| 0 <= i <= |message| && sub <= message[i..];
      assert message == message[..i] + message[i..] && message[i..] == sub + message[i + |sub|..];
      assert Around(message, message[..i], sub, message[i + |sub|..]);
    }
    if Mentions(message, sub) {
      var before, after :| Around(message, before, sub, after);
      assert message[|before|..] == sub + after;
    }
  }

  /** A prefix that ends in a space and has no "inv" in it. */
  predicate Wrapping(prefix: string) {
    && |prefix| > 2 && prefix[|prefix| - 1] == ' '
    && forall i :: 0 <= i < |prefix| - 2 && prefix[i] == 'i' && prefix[i + 1] == 'n' ==> prefix[i + 2] != 'v'
  }

  lemma NotAcross(prefix: string, message: string, sub: string, i: nat)
    requires |sub| > 3 && sub[0] == 'i' && sub[1] == 'n' && sub[2] == 'v' && ' ' !in sub
    requires Wrapping(prefix) && i < |prefix|
    ensures !(sub <= (prefix + message)[i..])
  {
    var rest, space := (prefix + message)[i..], |prefix| - 1 - i;
    assert rest[space] == ' ';
    if |sub| <= space {
      assert rest[0] == prefix[i] && rest[1] == prefix[i + 1] && rest[2] == prefix[i + 2];
    }
  }

  /** Text that starts with "inv" is found in a wrapped message exactly when it is in the message. */
  lemma PrefixHidesNothing(prefix: string, message: string, sub: string)
    requires |sub| > 3 && sub[0] == 'i' && sub[1] == 'n' && sub[2] == 'v' && ' ' !in sub && Wrapping(prefix)
    ensures Contains(prefix + message, sub) <==> Contains(message, sub)
  {
    var s := prefix + message;
    if Contains(message, sub) {
      var i :| 0 <= i <= |message| && sub <= message[i..];
      assert s[|prefix| + i..] == message[i..];
    }
    if Contains(s, sub) {
      var i :| 0 <= i <= |s| && sub <= s[i..];
      if i < |prefix| {
        NotAcross(prefix, message, sub, i);
      }
      assert s[i..] == message[i - |prefix|..];
    }
  }

  const REFRESHING := "error refreshing tokens: "
  const SAVING := "error saving session: "

  /** An error of the provider or of the store is fatal exactly when its own text mentions one of the
      codes, whatever it is wrapped in. */
  lemma FatalIsRevokes(message: string)
    ensures IsFatalRefreshError("error refreshing tokens: " + message) <==> Revokes(message)
    ensures IsFatalRefreshError("error saving session: " + message) <==> Revokes(message)
  {
    ContainsIsMentions(message, "invalid_grant");
    ContainsIsMentions(message, "invalid_client");
    hide Contains, Mentions;
    PrefixHidesNothing(REFRESHING, message, "invalid_grant");
    PrefixHidesNothing(REFRESHING, message, "invalid_client");
    PrefixHidesNothing(SAVING, message, "invalid_grant");
    PrefixHidesNothing(SAVING, message, "invalid_client");
  }

  // ----- what a trace says -----

  /** The session last read from the store. */
  function LastFound(trace: seq<Timed>): Option<Session> {
    if trace == [] then None
    else
      var e := trace[|trace| - 1].event;
      if e.Load? && e.load.Found? then Some(e.load.session)
      else if e.Reload? && e.reload.Found? then Some(e.reload.session)
      else LastFound(trace[..|trace| - 1])
  }

  /** A provider that refreshed the session, or that cannot refresh at all. */
  predicate Renews(reply: ProviderReply) {
    reply.Refreshed? || reply.NotImplemented?
  }

  /** What the provider made of the session: its answer, with a new creation time if it is to be saved. */
  function Given(reply: ProviderReply, at: nat): Session {
    if Renews(reply) then Session(Some(at), reply.session.expiresOn, reply.session.refreshToken, reply.session.payload)
    else reply.session
  }

  /** The session the provider last gave. */
  function LastGiven(trace: seq<Timed>): Option<Session> {
    if trace == [] then None
    else
      var t := trace[|trace| - 1];
      if t.event.CallProvider? then Some(Given(t.event.provider, t.at)) else LastGiven(trace[..|trace| - 1])
  }

  /** When the request first looked at the session's age. */
  function CheckTime(trace: seq<Timed>): Option<nat> {
    if trace == [] then None
    else if trace[|trace| - 1].event.CheckAge? then Some(trace[|trace| - 1].at)
    else CheckTime(trace[..|trace| - 1])
  }

  /** The reply `t`, after the calls `before`, is a reason to hand on no session. */
  ghost predicate Refuses(before: seq<Timed>, t: Timed) {
    match t.event
    case Load(reply) => !reply.Found?
    case Poll => CheckTime(before).Some? && CheckTime(before).value + 5 * SECOND <= t.at
    case TryLock(reply) => reply.LockError?
    case Reload(reply) => !reply.Found?
    case CallProvider(reply) => reply.Failed? && Revokes(reply.message)
    case Save(reply) => reply.SaveError? && Revokes(reply.message)
    case Validate(valid) => !valid || (LastGiven(before).Some? && PastExpiry(LastGiven(before).value, t.at))
    case _ => false
  }

  ghost predicate Refused(trace: seq<Timed>) {
    trace != [] && (Refused(trace[..|trace| - 1]) || Refuses(trace[..|trace| - 1], trace[|trace| - 1]))
  }

  /** The reply says that the session has been revoked. */
  ghost predicate SaysRevoked(e: Event) {
    || (e.CallProvider? && e.provider.Failed? && Revokes(e.provider.message))
    || (e.Save? && e.save.SaveError? && Revokes(e.save.message))
  }

  ghost predicate Has(trace: seq<Timed>, kind: Event -> bool) {
    exists m :: 0 <= m < |trace| && kind(trace[m].event)
  }

  lemma HasAppend(init: seq<Timed>, last: Timed, kind: Event -> bool)
    ensures Has(init + [last], kind) <==> Has(init, kind) || kind(last.event)
  {
    var trace := init + [last];
    if Has(init, kind) {
      var m :| 0 <= m < |init| && kind(init[m].event);
      assert kind(trace[m].event);
    }
    if kind(last.event) {
      assert kind(trace[|init|].event);
    }
    if Has(trace, kind) {
      var m :| 0 <= m < |trace| && kind(trace[m].event);
      assert m < |init| ==> kind(init[m].event);
    }
  }

  predicate IsClearRevoked(e: Event) {
    e.ClearRevoked?
  }

  predicate IsClearAfterError(e: Event) {
    e.ClearAfterError?
  }

  predicate IsNoCookie(e: Event) {
    e == Load(NoCookie)
  }

  // ----- where a request is, told from its trace -----

  predicate Doomed(p: Phase) {
    p.Fatal? || p.Failing? || ((p.Releasing? || p.Done?) && p.outcome.NoSession?)
  }

  /** What the trace tells of sessions and times. */
  datatype Story = Story(found: Option<Session>, given: Option<Session>, checked: Option<nat>)

  function Tell(trace: seq<Timed>): Story {
    Story(LastFound(trace), LastGiven(trace), CheckTime(trace))
  }

  /** How one more call goes on with it. */
  function Retell(story: Story, t: Timed): Story {
    match t.event
    case Load(Found(session)) => story.(found := Some(session))
    case Reload(Found(session)) => story.(found := Some(session))
    case CallProvider(reply) => story.(given := Some(Given(reply, t.at)))
    case CheckAge => story.(checked := Some(t.at))
    case _ => story
  }

  lemma TellStep(init: seq<Timed>, last: Timed)
    ensures Tell(init + [last]) == Retell(Tell(init), last)
  {
    assert (init + [last])[..|init|] == init;
  }

  predicate SessionIs(story: Story, session: Session, attempted: bool) {
    if attempted then story.given == Some(session) else story.given == None && story.found == Some(session)
  }

  /** The sessions and times a phase holds are those of the story. */
  predicate Told(story: Story, p: Phase) {
    match p
    case Idle => story.given == None
    case Loaded(session) => SessionIs(story, session, false)
    case Waiting(deadline, _) => story.given == None && story.checked == Some(deadline - 5 * SECOND)
    case Trying(deadline, _) => story.given == None && story.checked == Some(deadline - 5 * SECOND)
    case Locked(_) => story.given == None
    case Reloaded(_, session) => SessionIs(story, session, false)
    case Due(_, session, _) => SessionIs(story, session, false)
    case Stamped(_, base, session, _) => SessionIs(story, session, true) && story.found == Some(base)
    case Unvalidated(_, session) => SessionIs(story, session, true)
    case Releasing(_, outcome) => outcome.Hand? ==> SessionIs(story, outcome.session, outcome.basis.Validated?)
    case Done(outcome) => outcome.Hand? ==> SessionIs(story, outcome.session, outcome.basis.Validated?)
    case _ => true
  }

  lemma ToldStep(period: int, story: Story, p: Phase, t: Timed, q: Phase)
    requires Told(story, p) && Advance(period, p, t.event, t.at) == Some(q)
    ensures Told(Retell(story, t), q)
  {
    hide NeedsRefresh, IsFatalRefreshError, IsExpired;
  }

  lemma DoomedStep(period: int, init: seq<Timed>, p: Phase, last: Timed, q: Phase)
    requires Told(Tell(init), p) && Advance(period, p, last.event, last.at) == Some(q) && !last.event.Crash?
    ensures Doomed(q) <==> Doomed(p) || Refuses(init, last)
  {
    if last.event.CallProvider? && last.event.provider.Failed? {
      FatalIsRevokes(last.event.provider.message);
    } else if last.event.Save? && last.event.save.SaveError? {
      FatalIsRevokes(last.event.save.message);
    }
    hide IsFatalRefreshError, Revokes, LastFound, LastGiven, CheckTime;
  }

  predicate Crashes(trace: seq<Timed>) {
    exists m :: 0 <= m < |trace| && trace[m].event.Crash?
  }

  lemma {:induction false} TraceTells(period: int, trace: seq<Timed>)
    requires Trace(period, Idle, trace).Some? && !Crashes(trace)
    ensures Told(Tell(trace), Trace(period, Idle, trace).value)
    ensures Doomed(Trace(period, Idle, trace).value) <==> Refused(trace)
  {
    if trace != [] {
      var init, last := trace[..|trace| - 1], trace[|trace| - 1];
      assert forall m :: 0 <= m < |init| ==> init[m] == trace[m];
      TraceTells(period, init);
      var p, q := Trace(period, Idle, init).value, Trace(period, Idle, trace).value;
      assert Advance(period, p, last.event, last.at) == Some(q);
      assert trace == init + [last];
      hide Advance, Trace, Told, Tell, Doomed, Refuses;
      TellStep(init, last);
      ToldStep(period, Tell(init), p, last, q);
      DoomedStep(period, init, p, last, q);
    }
  }

  // ----- theorems -----

  /** A request that runs to its end hands on no session if and only if some reply was a reason to
      refuse one. The session it hands on is what the provider gave, if the provider was asked, and
      otherwise the one last read from the store. */
  lemma OutcomeIsExact(period: int, trace: seq<Timed>)
    requires Trace(period, Idle, trace).Some? && Trace(period, Idle, trace).value.Done?
    ensures var outcome := Trace(period, Idle, trace).value.outcome;
            && (outcome.NoSession? <==> Refused(trace))
            && (outcome.Hand? && LastGiven(trace).Some? ==> outcome.session == LastGiven(trace).value)
            && (outcome.Hand? && LastGiven(trace).None? ==> LastFound(trace) == Some(outcome.session))
  {
    DoneIsNotCrashed(period, trace);
    TraceTells(period, trace);
  }

  lemma CrashStep(period: int, p: Phase, e: Event, now: nat)
    requires Advance(period, p, e, now).Some? && !Advance(period, p, e, now).value.Crashed?
    ensures !p.Crashed? && !e.Crash? && !Advance(period, p, e, now).value.Idle?
  {
  }

  lemma {:induction false} DoneIsNotCrashed(period: int, trace: seq<Timed>)
    requires Trace(period, Idle, trace).Some? && !Trace(period, Idle, trace).value.Crashed?
    ensures !Crashes(trace)
  {
    if trace != [] {
      var init, last := trace[..|trace| - 1], trace[|trace| - 1];
      CrashStep(period, Trace(period, Idle, init).value, last.event, last.at);
      hide Advance;
      DoneIsNotCrashed(period, init);
      assert forall m :: 0 <= m < |init| ==> init[m] == trace[m];
    }
  }

  ghost predicate ClearedAfterError(trace: seq<Timed>, p: Phase) {
    Has(trace, IsClearAfterError) <==> p == Done(NoSession) && !Has(trace, IsNoCookie)
  }

  /** How far the two clears have come. */
  ghost predicate ClearsSoFar(trace: seq<Timed>, p: Phase) {
    && (Has(trace, SaysRevoked) <==> p.Fatal? || Has(trace, IsClearRevoked))
    && ClearedAfterError(trace, p)
  }

  lemma RevokedStep(period: int, p: Phase, e: Event, now: nat, q: Phase)
    requires Advance(period, p, e, now) == Some(q) && !e.Crash?
    ensures SaysRevoked(e) ==> q.Fatal?
    ensures q.Fatal? ==> SaysRevoked(e)
    ensures p.Fatal? ==> e.ClearRevoked?
    ensures e.ClearRevoked? ==> p.Fatal?
  {
    if e.CallProvider? && e.provider.Failed? {
      FatalIsRevokes(e.provider.message);
    } else if e.Save? && e.save.SaveError? {
      FatalIsRevokes(e.save.message);
    }
    hide IsFatalRefreshError, Revokes;
  }

  lemma AfterErrorStep(period: int, p: Phase, e: Event, now: nat, q: Phase)
    requires Advance(period, p, e, now) == Some(q) && !e.Crash?
    ensures !p.Done? && (IsNoCookie(e) ==> p.Idle? && q == Done(NoSession))
    ensures e.ClearAfterError? <==> q == Done(NoSession) && !IsNoCookie(e)
  {
    hide IsFatalRefreshError;
  }

  lemma ClearsStep(period: int, init: seq<Timed>, p: Phase, last: Timed, q: Phase)
    requires ClearsSoFar(init, p) && Advance(period, p, last.event, last.at) == Some(q) && !last.event.Crash?
    requires p.Idle? ==> init == []
    requires !p.Idle? && Has(init, IsNoCookie) ==> p.Done?
    ensures ClearsSoFar(init + [last], q)
    ensures Has(init + [last], IsNoCookie) ==> q.Done?
  {
    RevokedStep(period, p, last.event, last.at, q);
    AfterErrorStep(period, p, last.event, last.at, q);
    assert Has([], IsNoCookie) == false;
    hide Advance, Has, SaysRevoked;
    HasAppend(init, last, SaysRevoked);
    HasAppend(init, last, IsClearRevoked);
    HasAppend(init, last, IsClearAfterError);
    HasAppend(init, last, IsNoCookie);
  }

  lemma {:induction false} TraceClears(period: int, trace: seq<Timed>)
    requires Trace(period, Idle, trace).Some? && !Crashes(trace)
    ensures ClearsSoFar(trace, Trace(period, Idle, trace).value)
    ensures Trace(period, Idle, trace).value.Idle? ==> trace == []
    ensures Has(trace, IsNoCookie) ==> Trace(period, Idle, trace).value.Done?
  {
    hide Advance, Trace, ClearsSoFar, Has, Crashes;
    if trace == [] {
      NothingYet(period);
    } else {
      var init, last := trace[..|trace| - 1], trace[|trace| - 1];
      TraceLast(period, trace);
      assert trace == init + [last];
      CrashesAppend(init, last);
      TraceClears(period, init);
      NoCrashStep(period, Trace(period, Idle, init).value, last.event, last.at);
      ClearsStep(period, init, Trace(period, Idle, init).value, last, Trace(period, Idle, trace).value);
    }
  }

  lemma NothingYet(period: int)
    ensures Trace(period, Idle, []) == Some(Idle) && ClearsSoFar([], Idle) && !Has([], IsNoCookie)
  {
  }

  lemma TraceLast(period: int, trace: seq<Timed>)
    requires trace != [] && Trace(period, Idle, trace).Some?
    ensures var p, last := Trace(period, Idle, trace[..|trace| - 1]), trace[|trace| - 1];
            p.Some? && Advance(period, p.value, last.event, last.at) == Trace(period, Idle, trace)
  {
    hide Advance;
  }

  lemma CrashesAppend(init: seq<Timed>, last: Timed)
    requires !Crashes(init + [last])
    ensures !Crashes(init) && !last.event.Crash?
  {
    var trace := init + [last];
    assert trace[|init|] == last;
    assert forall m :: 0 <= m < |init| ==> init[m] == trace[m];
  }

  lemma NoCrashStep(period: int, p: Phase, e: Event, now: nat)
    requires Advance(period, p, e, now).Some? && !e.Crash?
    ensures !Advance(period, p, e, now).value.Idle?
  {
  }

  /** A request that runs to its end clears the entry as revoked if and only if the provider, or the
      store, gave an error that mentions one of the two codes; and it clears the entry after an error
      if and only if it hands on no session although it had a ticket. */
  lemma ClearsAreExact(period: int, trace: seq<Timed>)
    requires Trace(period, Idle, trace).Some? && Trace(period, Idle, trace).value.Done?
    ensures Has(trace, IsClearRevoked) <==> Has(trace, SaysRevoked)
    ensures Has(trace, IsClearAfterError) <==>
            Refused(trace) && !Has(trace, IsNoCookie)
  {
    DoneIsNotCrashed(period, trace);
    TraceClears(period, trace);
    TraceTells(period, trace);
  }

  // ----- only due sessions are refreshed -----

  /** Some whole second that had come by `at` lies more than a period after the session's creation. */
  ghost predicate OlderThan(period: int, session: Session, at: nat) {
    && period > 0 && session.createdAt.Some? && session.createdAt.value != 0
    && exists k: nat :: WholeSecond(k) <= at && WholeSecond(k) > session.createdAt.value + period
  }

  /** The k-th call looks at the age of the session read before it, and finds it old. */
  ghost predicate FindsOld(period: int, trace: seq<Timed>, k: int) {
    && 0 <= k < |trace| && (trace[k].event.CheckAge? || trace[k].event.Recheck?)
    && LastFound(trace[..k]).Some? && OlderThan(period, LastFound(trace[..k]).value, trace[k].at)
  }

  /** After each check the request goes on to the lock, or to the provider, if and only if the session
      was old. */
  lemma ChecksDecide(period: int, trace: seq<Timed>, k: nat)
    requires Trace(period, Idle, trace).Some? && k + 1 < |trace|
    requires trace[k].event.CheckAge? || trace[k].event.Recheck?
    requires !trace[k + 1].event.Crash?
    ensures FindsOld(period, trace, k) <==> trace[k + 1].event.Poll? || trace[k + 1].event.CallProvider?
    ensures trace[k].event.CheckAge? ==> FindsOld(period, trace, k)
  {
    TraceAt(period, trace, k);
    TraceAt(period, trace, k + 1);
    hide Trace, Advance, NeedsRefresh, LastFound, LastGiven, CheckTime;
    var p := Trace(period, Idle, trace[..k]).value;
    CheckStep(period, p, trace[k], Trace(period, Idle, trace[..k + 1]).value, trace[k + 1]);
    DoneIsNotCrashed(period, trace[..k]);
    TraceTells(period, trace[..k]);
    DueFromAWholeSecond(period, p.session, trace[k].at);
  }

  /** A check, and the call after it. */
  lemma CheckStep(period: int, p: Phase, t: Timed, q: Phase, next: Timed)
    requires t.event.CheckAge? || t.event.Recheck?
    requires Advance(period, p, t.event, t.at) == Some(q) && Advance(period, q, next.event, next.at).Some?
    requires !next.event.Crash?
    ensures p.Loaded? || p.Reloaded?
    ensures NeedsRefresh(period, p.session, t.at) <==> next.event.Poll? || next.event.CallProvider?
    ensures t.event.CheckAge? ==> NeedsRefresh(period, p.session, t.at)
  {
    hide NeedsRefresh;
  }

  lemma TraceAt(period: int, trace: seq<Timed>, k: nat)
    requires Trace(period, Idle, trace).Some? && k < |trace|
    ensures var p := Trace(period, Idle, trace[..k]);
            p.Some? && Trace(period, Idle, trace[..k + 1]).Some?
            && Advance(period, p.value, trace[k].event, trace[k].at) == Trace(period, Idle, trace[..k + 1])
  {
    hide Advance;
    PrefixTraces(period, trace, k + 1);
    assert trace[..k + 1][..k] == trace[..k];
  }

  lemma {:induction false} PrefixTraces(period: int, trace: seq<Timed>, k: nat)
    requires Trace(period, Idle, trace).Some? && k <= |trace|
    ensures Trace(period, Idle, trace[..k]).Some?
  {
    if k == |trace| {
      assert trace[..k] == trace;
    } else {
      var init := trace[..|trace| - 1];
      PrefixTraces(period, init, k);
      assert init[..k] == trace[..k];
    }
  }
}
