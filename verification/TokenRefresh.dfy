/**
 The token-refresh protocol of the admin client (apps/admin/src/lib/api-client.ts), as a state
 machine.  Any number of calls share one stored token pair and one module-level slot,
 `refreshInFlight`.  A step is one network delivery, or one start, login or logout, together with
 every continuation it releases: the microtask queue is drained before the next task, and the
 waiters of a promise are queued together.  ApiClient.dfy runs those continuations one by one.
 */
module TokenRefresh {
  import opened Options
  import opened Sequences

  type Token = nat

  datatype Tokens = Tokens(access: Token, refresh: Token)

  /** State of the promise that one call of `refreshTokens` returned. */
  datatype Status =
    | AwaitingResponse
    | AwaitingBody
    | Fulfilled(result: Option<Tokens>)
    | Rejected
  {
    predicate Pending() {
      AwaitingResponse? || AwaitingBody?
    }
  }

  /** `sent` is the refresh token posted to /auth/refresh, if one was. */
  datatype RefreshPromise = RefreshPromise(sent: Option<Token>, status: Status)

  datatype Outcome =
    | Returned              // the call fulfils
    | Failed(status: nat)   // it throws ApiError(status)
    | NetworkError          // it throws what a fetch threw

  datatype Phase =
    | Fetching(bearer: Option<Token>, retry: bool)
    | Waiting(promise: nat)
    | Done(outcome: Outcome)

  /** One call of `request` or `downloadFile`, with the fetches and the waits it has made so far. */
  datatype Call = Call(phase: Phase, fetches: nat, waits: nat)

  /** A call before its first fetch; the phase is overwritten by `Fetch`. */
  const UNSENT := Call(Done(Returned), 0, 0)

  /** `sentLog` lists the tokens posted to /auth/refresh; `issued` those the server has handed out. */
  datatype State = State(
    stored: Option<Tokens>,
    slot: Option<nat>,
    promises: seq<RefreshPromise>,
    calls: seq<Call>,
    sentLog: seq<Token>,
    issued: set<Token>)

  datatype Event =
    | StartCall
    | Response(call: nat, status: nat)
    | FetchFailed(call: nat)
    | RefreshAnswered(promise: nat, ok: bool)
    | RefreshBody(promise: nat, tokens: Tokens)
    | RefreshFailed(promise: nat)
    | LoginSucceeded(tokens: Tokens)
    | Logout

  ghost predicate WellFormed(s: State) {
    s.slot.Some? ==> s.slot.value < |s.promises|
  }

  /** A response is delivered once, and the server never hands out a refresh token twice. */
  ghost predicate Enabled(s: State, e: Event) {
    match e
    case StartCall => true
    case Response(c, _) => c < |s.calls| && s.calls[c].phase.Fetching?
    case FetchFailed(c) => c < |s.calls| && s.calls[c].phase.Fetching?
    case RefreshAnswered(p, _) => p < |s.promises| && s.promises[p].status.AwaitingResponse?
    case RefreshBody(p, t) => p < |s.promises| && s.promises[p].status.AwaitingBody? && t.refresh !in s.issued
    case RefreshFailed(p) => p < |s.promises| && s.promises[p].status.Pending()
    case LoginSucceeded(t) => t.refresh !in s.issued
    case Logout => true
  }

  function OutcomeOf(status: nat): Outcome {
    if 200 <= status < 300 then Returned else Failed(status)
  }

  /** Reads the stored tokens and issues the main fetch. */
  function Fetch(call: Call, stored: Option<Tokens>, retry: bool): Call {
    var bearer := if stored.Some? then Some(stored.value.access) else None;
    Call(Fetching(bearer, retry), call.fetches + 1, call.waits)
  }

  /** What one waiter does when the promise it awaits settles. */
  function Resume(call: Call, stored: Option<Tokens>, settled: Status): Call
    requires !settled.Pending()
  {
    match settled
    case Fulfilled(Some(_)) => Fetch(call, stored, false)
    case Fulfilled(None) => call.(phase := Done(Failed(401)))
    case Rejected => call.(phase := Done(NetworkError))
  }

  /** `refreshTokens()`, up to its first await. */
  function BeginRefresh(s: State): (s': State)
    ensures s'.slot == Some(|s.promises|) && WellFormed(s')
  {
    match s.stored
    case None =>
      s.(slot := Some(|s.promises|), promises := s.promises + [RefreshPromise(None, Fulfilled(None))])
    case Some(t) =>
      s.(slot := Some(|s.promises|),
         promises := s.promises + [RefreshPromise(Some(t.refresh), AwaitingResponse)],
         sentLog := s.sentLog + [t.refresh])
  }

  /** A retryable 401: share the promise in the slot, or start one, and await it. */
  function Join(s: State, c: nat): State
    requires WellFormed(s) && c < |s.calls|
  {
    var s1 := if s.slot.Some? then s else BeginRefresh(s);
    var p := s1.slot.value;
    var status := s1.promises[p].status;
    var call := s.calls[c].(phase := Waiting(p), waits := s.calls[c].waits + 1);
    if status.Pending() then
      s1.(calls := s.calls[c := call])
    else
      s1.(slot := if status.Fulfilled? then None else s1.slot,
          calls := s.calls[c := Resume(call, s1.stored, status)])
  }

  ghost predicate Waits(call: Call, p: nat) {
    call.phase == Waiting(p)
  }

  ghost predicate HasWaiter(s: State, p: nat) {
    exists c :: 0 <= c < |s.calls| && Waits(s.calls[c], p)
  }

  ghost function ResumeIfWaiting(call: Call, p: nat, stored: Option<Tokens>, settled: Status): Call
    requires !settled.Pending()
  {
    if Waits(call, p) then Resume(call, stored, settled) else call
  }

  /** Promise `p` settles: every call that awaits it goes on, and each that does not throw clears the slot. */
  ghost function Settle(s: State, p: nat, stored: Option<Tokens>, settled: Status): State
    requires p < |s.promises| && !settled.Pending()
  {
    s.(stored := stored,
       promises := s.promises[p := s.promises[p].(status := settled)],
       slot := if settled.Fulfilled? && HasWaiter(s, p) then None else s.slot,
       calls := seq(|s.calls|, c requires 0 <= c < |s.calls| => ResumeIfWaiting(s.calls[c], p, stored, settled)))
  }

  ghost function Step(s: State, e: Event): State
    requires WellFormed(s) && Enabled(s, e)
  {
    match e
    case StartCall =>
      s.(calls := s.calls + [Fetch(UNSENT, s.stored, true)])
    case Response(c, status) =>
      var ph := s.calls[c].phase;
      if status == 401 && ph.retry && ph.bearer.Some? then
        Join(s, c)
      else
        s.(calls := s.calls[c := s.calls[c].(phase := Done(OutcomeOf(status)))])
    case FetchFailed(c) =>
      s.(calls := s.calls[c := s.calls[c].(phase := Done(NetworkError))])
    case RefreshAnswered(p, ok) =>
      if ok then
        s.(promises := s.promises[p := s.promises[p].(status := AwaitingBody)])
      else
        Settle(s, p, None, Fulfilled(None))
    case RefreshBody(p, t) =>
      Settle(s, p, Some(t), Fulfilled(Some(t))).(issued := s.issued + {t.refresh})
    case RefreshFailed(p) =>
      Settle(s, p, s.stored, Rejected)
    case LoginSucceeded(t) =>
      s.(stored := Some(t), issued := s.issued + {t.refresh})
    case Logout =>
      s.(stored := None)
  }

  /** A fresh page: whatever pair the storage holds, no promise, no call, nothing sent. */
  ghost function Init(stored: Option<Tokens>): State {
    State(stored, None, [], [], [], if stored.Some? then {stored.value.refresh} else {})
  }

  ghost predicate IsRun(states: seq<State>, events: seq<Event>)
  {
    && |states| == |events| + 1
    && states[0] == Init(states[0].stored)
    && forall i :: 0 <= i < |events| ==> Next(states[i], events[i], states[i + 1])
  }

  ghost predicate Next(s: State, e: Event, s': State) {
    WellFormed(s) && Enabled(s, e) && s' == Step(s, e)
  }

  // ---------------------------------------------------------------- the invariant

  /** A token that was posted and is still stored is the one the slot's refresh posted. */
  ghost predicate SpentTokenIsGuarded(s: State) {
    s.stored.Some? && s.stored.value.refresh in s.sentLog ==>
      && s.slot.Some?
      && s.slot.value < |s.promises|
      && s.promises[s.slot.value].sent == Some(s.stored.value.refresh)
  }

  ghost predicate TokensInv(s: State) {
    && Distinct(s.sentLog)
    && (forall i :: 0 <= i < |s.sentLog| ==> s.sentLog[i] in s.issued)
    && (s.stored.Some? ==> s.stored.value.refresh in s.issued)
    && SpentTokenIsGuarded(s)
  }

  /** What the slot holds between two steps has not fulfilled. */
  ghost predicate SlotIsUnfulfilled(s: State) {
    s.slot.Some? ==> s.slot.value < |s.promises| && !s.promises[s.slot.value].status.Fulfilled?
  }

  /** A pending refresh is in the slot, and some call waits on it. */
  ghost predicate PendingIsInSlot(s: State) {
    forall p :: 0 <= p < |s.promises| && s.promises[p].status.Pending() ==> s.slot == Some(p) && HasWaiter(s, p)
  }

  ghost predicate WaitersAreOnSlot(s: State) {
    forall c :: 0 <= c < |s.calls| && s.calls[c].phase.Waiting? ==>
      s.slot == Some(s.calls[c].phase.promise) && s.slot.value < |s.promises| &&
        s.promises[s.slot.value].status.Pending()
  }

  ghost predicate SlotInv(s: State) {
    SlotIsUnfulfilled(s) && PendingIsInSlot(s) && WaitersAreOnSlot(s)
  }

  /** What the `retry` flag allows: the fetches and waits a call in each phase can have made. */
  ghost predicate CallInv(call: Call) {
    match call.phase
    case Fetching(_, true) => call.fetches == 1 && call.waits == 0
    case Waiting(_) => call.fetches == 1 && call.waits == 1
    case Fetching(_, false) => call.fetches == 2 && call.waits == 1
    case Done(_) => 1 <= call.fetches <= 1 + call.waits <= 2
  }

  ghost predicate CallsInv(s: State) {
    forall c :: 0 <= c < |s.calls| ==> CallInv(s.calls[c])
  }

  ghost predicate Inv(s: State) {
    TokensInv(s) && SlotInv(s) && CallsInv(s)
  }

  lemma StepKeepsTokensInv(s: State, e: Event)
    requires Inv(s) && Enabled(s, e)
    ensures TokensInv(Step(s, e))
  {
  }

  lemma PendingKeepsAWaiter(s: State, e: Event, p: nat)
    requires Inv(s) && Enabled(s, e)
    requires p < |Step(s, e).promises| && Step(s, e).promises[p].status.Pending()
    ensures HasWaiter(Step(s, e), p)
  {
    var s' := Step(s, e);
    if p < |s.promises| {
      var w :| 0 <= w < |s.calls| && Waits(s.calls[w], p);
      assert Waits(s'.calls[w], p);
    } else {
      assert Waits(s'.calls[e.call], p);
    }
  }

  lemma StepKeepsPendingInSlot(s: State, e: Event)
    requires Inv(s) && Enabled(s, e)
    ensures PendingIsInSlot(Step(s, e))
  {
    var s' := Step(s, e);
    forall p | 0 <= p < |s'.promises| && s'.promises[p].status.Pending()
      ensures s'.slot == Some(p) && HasWaiter(s', p)
    {
      PendingKeepsAWaiter(s, e, p);
    }
  }

  lemma StepKeepsSlotUnfulfilled(s: State, e: Event)
    requires Inv(s) && Enabled(s, e)
    ensures SlotIsUnfulfilled(Step(s, e))
  {
  }

  lemma StepKeepsWaitersOnSlot(s: State, e: Event)
    requires Inv(s) && Enabled(s, e)
    ensures WaitersAreOnSlot(Step(s, e))
  {
  }

  lemma StepKeepsCallsInv(s: State, e: Event)
    requires Inv(s) && Enabled(s, e)
    ensures CallsInv(Step(s, e))
  {
  }

  lemma {:induction false} RunKeepsInv(states: seq<State>, events: seq<Event>, i: nat)
    requires IsRun(states, events) && i < |states|
    ensures Inv(states[i])
  {
    if i > 0 {
      RunKeepsInv(states, events, i - 1);
      assert Next(states[i - 1], events[i - 1], states[i]);
      StepKeepsTokensInv(states[i - 1], events[i - 1]);
      StepKeepsSlotUnfulfilled(states[i - 1], events[i - 1]);
      StepKeepsWaitersOnSlot(states[i - 1], events[i - 1]);
      StepKeepsPendingInSlot(states[i - 1], events[i - 1]);
      StepKeepsCallsInv(states[i - 1], events[i - 1]);
    }
  }

  // ---------------------------------------------------------------- what every run satisfies

  /** No interleaving posts a refresh token twice, so the rotating server never sees a reused one. */
  lemma NoRefreshTokenSentTwice(states: seq<State>, events: seq<Event>, i: nat)
    requires IsRun(states, events) && i < |states|
    ensures Distinct(states[i].sentLog)
  {
    RunKeepsInv(states, events, i);
  }

  /** At every moment one refresh is pending at most, and all waiters wait on that one. */
  lemma OneRefreshServesAllWaiters(states: seq<State>, events: seq<Event>, i: nat)
    requires IsRun(states, events) && i < |states|
    ensures var s := states[i];
      && (forall p, q :: 0 <= p < q < |s.promises| ==>
        !(s.promises[p].status.Pending() && s.promises[q].status.Pending()))
      && (forall c :: 0 <= c < |s.calls| && s.calls[c].phase.Waiting? ==>
           s.calls[c].phase.promise < |s.promises| && s.promises[s.calls[c].phase.promise].status.Pending())
  {
    RunKeepsInv(states, events, i);
  }

  /** Calls make at most two main fetches and wait at most once; a second fetch follows a wait. */
  lemma FetchesAndWaitsAreBounded(states: seq<State>, events: seq<Event>, i: nat, c: nat)
    requires IsRun(states, events) && i < |states| && c < |states[i].calls|
    ensures states[i].calls[c].waits <= 1
    ensures 1 <= states[i].calls[c].fetches <= 1 + states[i].calls[c].waits
  {
    RunKeepsInv(states, events, i);
  }

  /** The slot holds a rejected refresh. */
  ghost predicate Jammed(s: State) {
    s.slot.Some? && s.slot.value < |s.promises| && s.promises[s.slot.value].status == Rejected
  }

  /** The event that settles a refresh, and how. */
  ghost predicate Settles(e: Event, p: nat, settled: Status) {
    || (e == RefreshAnswered(p, false) && settled == Fulfilled(None))
    || (e.RefreshBody? && e.promise == p && settled == Fulfilled(Some(e.tokens)))
    || (e == RefreshFailed(p) && settled == Rejected)
  }

  /** In every run: when a refresh settles it was in the slot, and its waiters are all the waiters there are. */
  lemma SettledIsInSlot(states: seq<State>, events: seq<Event>, i: nat, p: nat, settled: Status)
    requires IsRun(states, events) && i < |events| && Settles(events[i], p, settled)
    ensures Inv(states[i]) && Next(states[i], events[i], states[i + 1])
    ensures p < |states[i].promises| && states[i].promises[p].status.Pending() && states[i].slot == Some(p)
    ensures forall c :: 0 <= c < |states[i].calls| && states[i].calls[c].phase.Waiting? ==> Waits(states[i].calls[c], p)
  {
    RunKeepsInv(states, events, i);
    assert Next(states[i], events[i], states[i + 1]);
  }

  /**
   In every run nobody waits any more once a refresh settled.  The slot is empty afterwards exactly
   when the refresh fulfilled: after a rejection it still holds the rejected promise.
   */
  lemma SettledRefresh(states: seq<State>, events: seq<Event>, i: nat, p: nat, settled: Status)
    requires IsRun(states, events) && i < |events| && Settles(events[i], p, settled)
    ensures var s' := states[i + 1];
      && (forall c :: 0 <= c < |s'.calls| ==> !s'.calls[c].phase.Waiting?)
      && (s'.slot == None <==> settled.Fulfilled?)
      && (settled == Rejected ==> Jammed(s') && s'.slot == Some(p))
  {
    var s, s' := states[i], states[i + 1];
    SettledIsInSlot(states, events, i, p, settled);
    forall c | 0 <= c < |s'.calls| ensures !s'.calls[c].phase.Waiting? {
      assert s'.calls[c] == ResumeIfWaiting(s.calls[c], p, s'.stored, settled);
    }
  }

  /**
   In every run a waiter goes on as its refresh ended: with new tokens it retries once, sending
   exactly the access token the refresh wrote; refused, it reports its own 401; rejected, it rethrows.
   */
  lemma WaiterOutcome(states: seq<State>, events: seq<Event>, i: nat, p: nat, settled: Status, c: nat)
    requires IsRun(states, events) && i < |events| && Settles(events[i], p, settled)
    requires c < |states[i].calls| && states[i].calls[c].phase.Waiting?
    ensures c < |states[i + 1].calls|
    ensures var s, s' := states[i], states[i + 1];
      match settled
      case Fulfilled(Some(t)) => s'.stored == Some(t) && s'.calls[c].phase == Fetching(Some(t.access), false)
      case Fulfilled(None) => s'.stored == None && s'.calls[c].phase == Done(Failed(401))
      case Rejected => s'.stored == s.stored && s'.calls[c].phase == Done(NetworkError)
      case _ => false
  {
    SettledIsInSlot(states, events, i, p, settled);
    assert states[i + 1].calls[c] == ResumeIfWaiting(states[i].calls[c], p, states[i + 1].stored, settled);
  }

  // ---------------------------------------------------------------- the rejected refresh

  ghost predicate RetryableUnauthorized(s: State, e: Event) {
    && e.Response? && e.status == 401 && Enabled(s, e)
    && s.calls[e.call].phase.retry && s.calls[e.call].phase.bearer.Some?
  }

  /** One call, its 401 and a network failure of the refresh jam the slot of a page with stored tokens. */
  lemma JamIsReachable(t: Tokens)
    ensures exists states: seq<State>, events: seq<Event> ::
      IsRun(states, events) && states[0].stored == Some(t) && Jammed(states[|events|])
  {
    var s0 := Init(Some(t));
    var s1 := Step(s0, StartCall);
    var s2 := Step(s1, Response(0, 401));
    var s3 := Step(s2, RefreshFailed(0));
    var states, events := [s0, s1, s2, s3], [StartCall, Response(0, 401), RefreshFailed(0)];
    assert IsRun(states, events) && Jammed(states[|events|]);
  }

  /**
   In every run a 401 leads to a live refresh, or finds the stored tokens gone, exactly when the slot
   does not hold a rejected promise; otherwise the call throws the old error and posts nothing.
   */
  lemma UnauthorizedIsRefreshedIffNotJammed(states: seq<State>, events: seq<Event>, i: nat)
    requires IsRun(states, events) && i < |events| && RetryableUnauthorized(states[i], events[i])
    ensures events[i].call < |states[i + 1].calls|
    ensures var s, s' := states[i], states[i + 1]; var phase := s'.calls[events[i].call].phase;
      && (!Jammed(s) <==>
           || (phase.Waiting? && phase.promise < |s'.promises| && s'.promises[phase.promise].status.Pending())
           || (s.stored == None && phase == Done(Failed(401)) && s'.slot == None))
      && (Jammed(s) <==> phase == Done(NetworkError))
      && (Jammed(s) ==> s'.sentLog == s.sentLog && s'.slot == s.slot)
  {
    RunKeepsInv(states, events, i);
    assert Next(states[i], events[i], states[i + 1]);
  }

  /** Once a refresh was rejected the slot never changes and no refresh is sent, whatever follows, logins included. */
  lemma {:induction false} JammedForEver(states: seq<State>, events: seq<Event>, i: nat, j: nat)
    requires IsRun(states, events) && i <= j < |states| && Jammed(states[i])
    ensures Jammed(states[j])
    ensures states[j].slot == states[i].slot && states[j].sentLog == states[i].sentLog
  {
    if i < j {
      JammedForEver(states, events, i, j - 1);
      RunKeepsInv(states, events, j - 1);
      assert Next(states[j - 1], events[j - 1], states[j]);
    }
  }

  // ---------------------------------------------------------------- what a call reports

  /** A response of call `c`, received while it can still be refreshed. */
  ghost predicate Refreshable(s: State, e: Event, c: nat) {
    RetryableUnauthorized(s, e) && e.call == c
  }

  /** The event that ends call `c` in state `s`, for each outcome. */
  ghost predicate Ends(s: State, e: Event, c: nat, outcome: Outcome)
    requires c < |s.calls|
  {
    match outcome
    case Returned => e.Response? && e.call == c && 200 <= e.status < 300
    case Failed(status) =>
      || (e == Response(c, status) && !(200 <= status < 300) && !RetryableUnauthorized(s, e))
      || (status == 401 && Refreshable(s, e, c) && s.slot == None && s.stored == None)
      || (status == 401 && e.RefreshAnswered? && !e.ok && s.calls[c].phase == Waiting(e.promise))
    case NetworkError =>
      || e == FetchFailed(c)
      || (Refreshable(s, e, c) && Jammed(s))
      || (e.RefreshFailed? && s.calls[c].phase == Waiting(e.promise))
  }

  lemma FetchEnds(s: State, e: Event, c: nat, outcome: Outcome)
    requires Inv(s) && Enabled(s, e) && c < |s.calls|
    requires e.Response? || e.FetchFailed?
    ensures c < |Step(s, e).calls|
    ensures Step(s, e).calls[c].phase == Done(outcome) <==>
      s.calls[c].phase == Done(outcome) || Ends(s, e, c, outcome)
  {
  }

  lemma RefreshEnds(s: State, e: Event, c: nat, outcome: Outcome)
    requires Inv(s) && Enabled(s, e) && c < |s.calls|
    requires e.RefreshAnswered? || e.RefreshBody? || e.RefreshFailed?
    ensures c < |Step(s, e).calls|
    ensures Step(s, e).calls[c].phase == Done(outcome) <==>
      s.calls[c].phase == Done(outcome) || Ends(s, e, c, outcome)
  {
  }

  lemma CallStep(s: State, e: Event, c: nat, outcome: Outcome)
    requires Inv(s) && Enabled(s, e) && c < |s.calls|
    ensures c < |Step(s, e).calls|
    ensures Step(s, e).calls[c].phase == Done(outcome) <==>
      s.calls[c].phase == Done(outcome) || Ends(s, e, c, outcome)
  {
    if e.Response? || e.FetchFailed? {
      FetchEnds(s, e, c, outcome);
    } else if e.RefreshAnswered? || e.RefreshBody? || e.RefreshFailed? {
      RefreshEnds(s, e, c, outcome);
    }
  }

  /** Among the first `j` events of the run one ends call `c` with the outcome. */
  ghost predicate Ended(states: seq<State>, events: seq<Event>, j: nat, c: nat, outcome: Outcome)
    requires j <= |events| < |states|
  {
    exists i :: 0 <= i < j && c < |states[i].calls| && Ends(states[i], events[i], c, outcome)
  }

  lemma EndedNext(states: seq<State>, events: seq<Event>, j: nat, c: nat, outcome: Outcome)
    requires 0 < j <= |events| < |states|
    ensures Ended(states, events, j, c, outcome) <==>
      || Ended(states, events, j - 1, c, outcome)
      || (c < |states[j - 1].calls| && Ends(states[j - 1], events[j - 1], c, outcome))
  {
  }

  /**
   In every run a call has returned exactly if its fetch was answered with a status from 200 to 299;
   it has thrown a status exactly if it was answered with that one outside the range and could not be
   refreshed, or, for 401, its refresh was refused or found no tokens; and it has thrown a network
   error exactly if its fetch failed or the refresh it awaited was rejected.
   */
  lemma {:induction false} CallReports(states: seq<State>, events: seq<Event>, j: nat, c: nat, outcome: Outcome)
    requires IsRun(states, events) && j < |states| && c < |states[j].calls|
    ensures states[j].calls[c].phase == Done(outcome) <==> Ended(states, events, j, c, outcome)
  {
    if j > 0 {
      var s, e := states[j - 1], events[j - 1];
      assert Next(s, e, states[j]);
      RunKeepsInv(states, events, j - 1);
      EndedNext(states, events, j, c, outcome);
      if c < |s.calls| {
        CallReports(states, events, j - 1, c, outcome);
        CallStep(s, e, c, outcome);
      } else {
        CallsAreKept(states, events, j - 1);
      }
    }
  }

  lemma {:induction false} CallsAreKept(states: seq<State>, events: seq<Event>, j: nat)
    requires IsRun(states, events) && j < |states|
    ensures forall i :: 0 <= i <= j ==> |states[i].calls| <= |states[j].calls|
  {
    if j > 0 {
      CallsAreKept(states, events, j - 1);
      assert Next(states[j - 1], events[j - 1], states[j]);
    }
  }

  ghost function AccessOf(stored: Option<Tokens>): Option<Token> {
    match stored
    case None => None
    case Some(t) => Some(t.access)
  }

  /** The event starts call `c` while `bearer` is the access token stored. */
  ghost predicate StartsWith(s: State, e: Event, c: nat, bearer: Option<Token>) {
    e == StartCall && |s.calls| == c && bearer == AccessOf(s.stored)
  }

  /** In every run the first fetch of a call carries the access token that was stored when it started. */
  lemma {:induction false} FirstBearer(states: seq<State>, events: seq<Event>, j: nat, c: nat)
    requires IsRun(states, events) && j < |states| && c < |states[j].calls|
    requires states[j].calls[c].phase.Fetching? && states[j].calls[c].phase.retry
    ensures exists i :: 0 <= i < j && StartsWith(states[i], events[i], c, states[j].calls[c].phase.bearer)
  {
    assert Next(states[j - 1], events[j - 1], states[j]);
    if c < |states[j - 1].calls| {
      assert states[j].calls[c] == states[j - 1].calls[c];
      FirstBearer(states, events, j - 1, c);
    } else {
      assert StartsWith(states[j - 1], events[j - 1], c, states[j].calls[c].phase.bearer);
    }
  }

  // ---------------------------------------------------------------- what is stored and what is posted

  /** What an event writes to storage, if it writes: a login, a logout, or a refresh that fulfils. */
  predicate Writes(e: Event) {
    e.LoginSucceeded? || e.Logout? || e.RefreshBody? || (e.RefreshAnswered? && !e.ok)
  }

  function Written(e: Event): Option<Tokens>
    requires Writes(e)
  {
    if e.LoginSucceeded? || e.RefreshBody? then Some(e.tokens) else None
  }

  /** In every run the storage holds what the last event that writes it wrote. */
  lemma {:induction false} StoredIsLastWritten(states: seq<State>, events: seq<Event>, i: nat, j: nat)
    requires IsRun(states, events) && i <= j < |states|
    requires forall k :: i <= k < j ==> !Writes(events[k])
    ensures states[j].stored == if i > 0 && Writes(events[i - 1]) then Written(events[i - 1]) else states[i].stored
  {
    if i < j {
      StoredIsLastWritten(states, events, i, j - 1);
      assert Next(states[j - 1], events[j - 1], states[j]);
    } else if i > 0 {
      assert Next(states[i - 1], events[i - 1], states[i]);
    }
  }

  /**
   In every run the stored refresh token is posted exactly when a retryable 401 finds the slot empty
   and tokens stored; nothing else posts anything.
   */
  lemma PostedExactly(states: seq<State>, events: seq<Event>, i: nat)
    requires IsRun(states, events) && i < |events|
    ensures var s := states[i];
      if RetryableUnauthorized(s, events[i]) && s.slot == None && s.stored.Some?
      then states[i + 1].sentLog == s.sentLog + [s.stored.value.refresh]
      else states[i + 1].sentLog == s.sentLog
  {
    assert Next(states[i], events[i], states[i + 1]);
  }

  // ---------------------------------------------------------------- logins

  ghost predicate RefreshPending(s: State) {
    exists p :: 0 <= p < |s.promises| && s.promises[p].status.Pending()
  }

  /** While a refresh is pending nothing else is posted, and it was pending since it was begun. */
  lemma PendingStep(states: seq<State>, events: seq<Event>, k: nat, p: nat)
    requires IsRun(states, events) && k < |events| && p < |states[k].promises|
    requires p < |states[k + 1].promises| && states[k + 1].promises[p].status.Pending()
    ensures states[k].promises[p].status.Pending()
    ensures states[k + 1].sentLog == states[k].sentLog
    ensures states[k].issued <= states[k + 1].issued && |states[k].promises| <= |states[k + 1].promises|
  {
    RunKeepsInv(states, events, k);
    assert Next(states[k], events[k], states[k + 1]);
  }

  lemma {:induction false} PendingRun(states: seq<State>, events: seq<Event>, i: nat, j: nat, p: nat)
    requires IsRun(states, events) && i <= j < |states| && p < |states[i].promises|
    requires p < |states[j].promises| && states[j].promises[p].status.Pending()
    ensures states[i].promises[p].status.Pending()
    ensures states[j].sentLog == states[i].sentLog && states[i].issued <= states[j].issued
    decreases j - i
  {
    if i < j {
      PromisesAreKept(states, events, i, j - 1);
      PendingStep(states, events, j - 1, p);
      PendingRun(states, events, i, j - 1, p);
    }
  }

  lemma {:induction false} PromisesAreKept(states: seq<State>, events: seq<Event>, i: nat, j: nat)
    requires IsRun(states, events) && i <= j < |states|
    ensures |states[i].promises| <= |states[j].promises|
  {
    if i < j {
      PromisesAreKept(states, events, i, j - 1);
      assert Next(states[j - 1], events[j - 1], states[j]);
    }
  }

  /**
   In every run a refresh that was begun before a login and fulfils after it replaces what is stored
   then; the tokens of the login are gone without having been posted.
   */
  lemma PendingRefreshReplacesLogin(states: seq<State>, events: seq<Event>, i: nat, j: nat, p: nat, settled: Status)
    requires IsRun(states, events) && i < j < |events| && events[i].LoginSucceeded?
    requires p < |states[i].promises| && Settles(events[j], p, settled) && settled.Fulfilled?
    ensures states[i].promises[p].status.Pending()
    ensures states[i + 1].stored == Some(events[i].tokens)
    ensures states[j + 1].stored == settled.result != Some(events[i].tokens)
    ensures events[i].tokens.refresh !in states[j + 1].sentLog
  {
    SettledIsInSlot(states, events, j, p, settled);
    RunKeepsInv(states, events, i);
    assert Next(states[i], events[i], states[i + 1]);
    PendingRun(states, events, i + 1, j, p);
    PendingRun(states, events, i, j, p);
  }

  /** With none pending, tokens not posted yet stay stored until a login, a logout, or a refresh that posts them. */
  lemma {:induction false} StoredTokensLastUntilPosted(states: seq<State>, events: seq<Event>, i: nat, j: nat)
    requires IsRun(states, events) && i <= j < |states|
    requires states[i].stored.Some? && !RefreshPending(states[i])
    requires forall k :: i <= k < j ==> !events[k].LoginSucceeded? && !events[k].Logout?
    requires states[i].stored.value.refresh !in states[j].sentLog
    ensures states[j].stored == states[i].stored && !RefreshPending(states[j])
  {
    if i < j {
      var s, e := states[j - 1], events[j - 1];
      assert Next(s, e, states[j]);
      assert s.sentLog <= states[j].sentLog;
      StoredTokensLastUntilPosted(states, events, i, j - 1);
      RunKeepsInv(states, events, j - 1);
      assert |states[j].promises| > |s.promises| ==> e.Response?;
    }
  }

  /** A refresh that fulfils, with tokens or refused, overwrites what is stored. */
  predicate Overwrites(e: Event) {
    e.RefreshBody? || (e.RefreshAnswered? && !e.ok)
  }

  predicate IsLoginOrLogout(e: Event) {
    e.LoginSucceeded? || e.Logout?
  }

  /**
   In every run the tokens of a login are still stored, while no other login and no logout comes
   between, exactly if no refresh has fulfilled since.
   */
  lemma {:induction false} LoginTokensKeptIff(states: seq<State>, events: seq<Event>, i: nat, j: nat)
    requires IsRun(states, events) && i < j < |states| && events[i].LoginSucceeded?
    requires forall k :: i < k < j ==> !IsLoginOrLogout(events[k])
    ensures states[j].stored == Some(events[i].tokens) <==> forall k :: i < k < j ==> !Overwrites(events[k])
    ensures events[i].tokens.refresh in states[j].issued
  {
    assert Next(states[j - 1], events[j - 1], states[j]);
    if i + 1 < j {
      LoginTokensKeptIff(states, events, i, j - 1);
      assert Overwrites(events[j - 1]) || states[j].stored == states[j - 1].stored;
    }
  }

  /** A login while a refresh is pending, which is then refused: the tokens just received are gone. */
  lemma LoginCanLoseItsTokens(before: Tokens, t: Tokens)
    requires t.refresh != before.refresh
    ensures exists states: seq<State>, events: seq<Event> ::
      && IsRun(states, events) && states[0].stored == Some(before)
      && events == [StartCall, Response(0, 401), LoginSucceeded(t), RefreshAnswered(0, false)]
      && states[3].stored == Some(t) && states[4].stored == None && t.refresh !in states[4].sentLog
  {
    var s0 := Init(Some(before));
    var s1 := Step(s0, StartCall);
    var s2 := Step(s1, Response(0, 401));
    var s3 := Step(s2, LoginSucceeded(t));
    var s4 := Step(s3, RefreshAnswered(0, false));
    var states := [s0, s1, s2, s3, s4];
    var events := [StartCall, Response(0, 401), LoginSucceeded(t), RefreshAnswered(0, false)];
    assert Next(s0, events[0], s1) && Next(s1, events[1], s2) && Next(s2, events[2], s3) && Next(s3, events[3], s4);
    assert IsRun(states, events);
  }

  /** Some run goes on from a login, without another or a logout, and loses its tokens before they were posted. */
  ghost predicate CanLose(states: seq<State>, events: seq<Event>, t: Tokens) {
    exists after: seq<State>, more: seq<Event> :: Loses(states, events, after, more, t)
  }

  ghost predicate Loses(states: seq<State>, events: seq<Event>, after: seq<State>, more: seq<Event>, t: Tokens) {
    && IsRun(states + after, events + more)
    && (forall e :: e in more ==> !IsLoginOrLogout(e))
    && (states + after)[|events + more|].stored != Some(t)
    && t.refresh !in (states + after)[|events + more|].sentLog
  }

  lemma {:induction false} FreshToken(used: set<Token>) returns (t: Token)
    ensures forall u :: u in used ==> u < t
    decreases |used|
  {
    if used == {} {
      t := 0;
    } else {
      var u :| u in used;
      var rest := FreshToken(used - {u});
      t := if u < rest then rest else u + 1;
      assert forall v :: v in used ==> v == u || v in used - {u};
    }
  }

  lemma RunGoesOn(states: seq<State>, events: seq<Event>, e: Event)
    requires IsRun(states, events) && WellFormed(states[|events|]) && Enabled(states[|events|], e)
    ensures IsRun(states + [Step(states[|events|], e)], events + [e])
  {
    var longer, all := states + [Step(states[|events|], e)], events + [e];
    forall i | 0 <= i < |all| ensures Next(longer[i], all[i], longer[i + 1]) {
      assert i < |events| ==> Next(states[i], events[i], states[i + 1]);
    }
  }

  lemma PendingCanOverwrite(states: seq<State>, events: seq<Event>, i: nat, p: nat)
    requires IsRun(states, events) && i + 1 == |events| && events[i].LoginSucceeded?
    requires p < |states[i].promises| && states[i].promises[p].status.Pending()
    ensures CanLose(states, events, events[i].tokens)
  {
    var s, t := states[i + 1], events[i].tokens;
    RunKeepsInv(states, events, i);
    RunKeepsInv(states, events, i + 1);
    assert Next(states[i], events[i], s);
    var unused := FreshToken(s.issued);
    var e := if s.promises[p].status.AwaitingResponse? then RefreshAnswered(p, false)
      else RefreshBody(p, Tokens(0, unused));
    RunGoesOn(states, events, e);
    assert Loses(states, events, [Step(s, e)], [e], t);
  }

  /**
   The tokens a login stores can be lost before they were ever posted, with no other login and no
   logout, exactly if a refresh is pending when the login succeeds.
   */
  lemma LoginCanBeLostIff(states: seq<State>, events: seq<Event>, i: nat)
    requires IsRun(states, events) && i + 1 == |events| && events[i].LoginSucceeded?
    ensures CanLose(states, events, events[i].tokens) <==> RefreshPending(states[i])
  {
    var t := events[i].tokens;
    if RefreshPending(states[i]) {
      var p :| 0 <= p < |states[i].promises| && states[i].promises[p].status.Pending();
      PendingCanOverwrite(states, events, i, p);
    } else {
      forall after: seq<State>, more: seq<Event> ensures !Loses(states, events, after, more, t) {
        NotLost(states, events, i, after, more);
      }
    }
  }

  lemma NotLost(states: seq<State>, events: seq<Event>, i: nat, after: seq<State>, more: seq<Event>)
    requires IsRun(states, events) && i + 1 == |events| && events[i].LoginSucceeded? && !RefreshPending(states[i])
    ensures !Loses(states, events, after, more, events[i].tokens)
  {
    var longer, all := states + after, events + more;
    assert Next(states[i], events[i], states[i + 1]);
    if IsRun(longer, all) && (forall e :: e in more ==> !IsLoginOrLogout(e)) {
      forall k | i + 1 <= k < |all| ensures !all[k].LoginSucceeded? && !all[k].Logout? {
        assert all[k] in more;
      }
      if events[i].tokens.refresh !in longer[|all|].sentLog {
        StoredTokensLastUntilPosted(longer, all, i + 1, |all|);
      }
    }
  }

  // ---------------------------------------------------------------- progress

  /** Every unfinished call has a delivery that moves it on: there is no state in which it is stranded. */
  lemma NoCallIsStranded(states: seq<State>, events: seq<Event>, i: nat, c: nat)
    requires IsRun(states, events) && i < |states| && c < |states[i].calls|
    requires !states[i].calls[c].phase.Done?
    ensures WellFormed(states[i])
    ensures exists e :: IsDelivery(e) && Enabled(states[i], e) && Step(states[i], e).calls[c] != states[i].calls[c]
  {
    RunKeepsInv(states, events, i);
    var s := states[i];
    var e := if s.calls[c].phase.Fetching? then FetchFailed(c) else RefreshFailed(s.calls[c].phase.promise);
    if s.calls[c].phase.Waiting? {
      assert Waits(s.calls[c], e.promise);
    }
    assert IsDelivery(e) && Enabled(s, e) && Step(s, e).calls[c] != s.calls[c];
  }

  ghost predicate IsDelivery(e: Event) {
    e.Response? || e.FetchFailed? || e.RefreshAnswered? || e.RefreshBody? || e.RefreshFailed?
  }

  function CallWork(call: Call): nat {
    match call.phase
    case Fetching(_, true) => 9
    case Waiting(_) => 6
    case Fetching(_, false) => 3
    case Done(_) => 0
  }

  function CallsWork(calls: seq<Call>): nat {
    if calls == [] then 0 else CallWork(calls[0]) + CallsWork(calls[1..])
  }

  function RefreshWork(promise: RefreshPromise): nat {
    match promise.status
    case AwaitingResponse => 2
    case AwaitingBody => 1
    case _ => 0
  }

  function RefreshesWork(promises: seq<RefreshPromise>): nat {
    if promises == [] then 0 else RefreshWork(promises[0]) + RefreshesWork(promises[1..])
  }

  function Work(s: State): nat {
    CallsWork(s.calls) + RefreshesWork(s.promises)
  }

  lemma {:induction false} CallsWorkDrops(before: seq<Call>, after: seq<Call>, c: nat, k: nat)
    requires |before| == |after|
    requires forall i :: 0 <= i < |before| ==> CallWork(after[i]) <= CallWork(before[i])
    requires c < |before| ==> CallWork(after[c]) + k <= CallWork(before[c])
    ensures CallsWork(after) + (if c < |before| then k else 0) <= CallsWork(before)
  {
    if before == [] {
    } else if c == 0 {
      CallsWorkDrops(before[1..], after[1..], |before|, k);
    } else {
      CallsWorkDrops(before[1..], after[1..], c - 1, k);
    }
  }

  lemma {:induction false} RefreshesWorkUpdate(promises: seq<RefreshPromise>, p: nat, q: RefreshPromise)
    requires p < |promises|
    ensures RefreshesWork(promises[p := q]) == RefreshesWork(promises) - RefreshWork(promises[p]) + RefreshWork(q)
  {
    if p > 0 {
      RefreshesWorkUpdate(promises[1..], p - 1, q);
      assert promises[p := q][1..] == promises[1..][p - 1 := q];
    } else {
      assert promises[p := q][1..] == promises[1..];
    }
  }

  lemma {:induction false} RefreshesWorkAppend(promises: seq<RefreshPromise>, q: RefreshPromise)
    ensures RefreshesWork(promises + [q]) == RefreshesWork(promises) + RefreshWork(q)
  {
    if promises == [] {
      assert promises + [q] == [q];
    } else {
      RefreshesWorkAppend(promises[1..], q);
      assert (promises + [q])[1..] == promises[1..] + [q];
    }
  }

  /** A response or a failed fetch takes its call on by 3 at least, and a refresh begun adds 2. */
  lemma FetchDeliveryUsesWork(s: State, e: Event)
    requires Inv(s) && Enabled(s, e) && (e.Response? || e.FetchFailed?)
    ensures Work(Step(s, e)) < Work(s)
  {
    var s' := Step(s, e);
    CallsWorkDrops(s.calls, s'.calls, e.call, 3);
    if |s'.promises| > |s.promises| {
      RefreshesWorkAppend(s.promises, s'.promises[|s.promises|]);
    }
  }

  lemma RefreshDeliveryUsesWork(s: State, e: Event)
    requires Inv(s) && Enabled(s, e) && (e.RefreshAnswered? || e.RefreshBody? || e.RefreshFailed?)
    ensures Work(Step(s, e)) < Work(s)
  {
    var s' := Step(s, e);
    CallsWorkDrops(s.calls, s'.calls, |s.calls|, 0);
    RefreshesWorkUpdate(s.promises, e.promise, s'.promises[e.promise]);
  }

  /** Each delivery uses up work, although a 401 may start a refresh. */
  lemma DeliveryUsesWork(s: State, e: Event)
    requires Inv(s) && Enabled(s, e) && IsDelivery(e)
    ensures Work(Step(s, e)) < Work(s)
  {
    if e.Response? || e.FetchFailed? {
      FetchDeliveryUsesWork(s, e);
    } else {
      RefreshDeliveryUsesWork(s, e);
    }
  }

  lemma WorkNeverGrows(s: State, e: Event)
    requires Inv(s) && Enabled(s, e) && !e.StartCall?
    ensures Work(Step(s, e)) + (if IsDelivery(e) then 1 else 0) <= Work(s)
  {
    if IsDelivery(e) {
      DeliveryUsesWork(s, e);
    }
  }

  lemma RunUsesWork(states: seq<State>, events: seq<Event>, k: nat)
    requires IsRun(states, events) && k < |events| && !events[k].StartCall?
    ensures Work(states[k + 1]) + (if IsDelivery(events[k]) then 1 else 0) <= Work(states[k])
  {
    RunKeepsInv(states, events, k);
    assert Next(states[k], events[k], states[k + 1]);
    WorkNeverGrows(states[k], events[k]);
  }

  lemma {:induction false} DeliveriesCost(work: seq<nat>, events: seq<Event>, i: nat, j: nat)
    requires i <= j <= |events| && |work| == |events| + 1
    requires forall k :: i <= k < j ==> work[k + 1] + (if IsDelivery(events[k]) then 1 else 0) <= work[k]
    ensures Deliveries(events[i..j]) + work[j] <= work[i]
  {
    if i < j {
      DeliveriesCost(work, events, i, j - 1);
      assert events[i..j] == events[i..j - 1] + [events[j - 1]];
      DeliveriesAppend(events[i..j - 1], events[j - 1]);
    }
  }

  /** With no new call, at most `Work` further deliveries can happen, logins and logouts aside. */
  lemma DeliveriesAreBounded(states: seq<State>, events: seq<Event>, i: nat, j: nat)
    requires IsRun(states, events) && i <= j < |states|
    requires forall k :: i <= k < j ==> !events[k].StartCall?
    ensures Deliveries(events[i..j]) + Work(states[j]) <= Work(states[i])
  {
    var work := seq(|states|, k requires 0 <= k < |states| => Work(states[k]));
    forall k | i <= k < j ensures work[k + 1] + (if IsDelivery(events[k]) then 1 else 0) <= work[k] {
      RunUsesWork(states, events, k);
    }
    DeliveriesCost(work, events, i, j);
  }

  lemma DeliveriesAppend(events: seq<Event>, e: Event)
    ensures Deliveries(events + [e]) == Deliveries(events) + if IsDelivery(e) then 1 else 0
  {
    assert (events + [e])[..|events|] == events;
  }

  ghost function Deliveries(events: seq<Event>): nat {
    if events == [] then 0
    else Deliveries(events[..|events| - 1]) + if IsDelivery(events[|events| - 1]) then 1 else 0
  }
}
