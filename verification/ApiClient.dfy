/**
 The admin client itself (apps/admin/src/lib/api-client.ts): module variables, storage and the
 queue of continuations, updated in place.  Every method runs one delivery to the end, waiter by
 waiter, and is proved to take exactly the step of the machine in TokenRefresh.
 */
module AdminClient {
  import opened Options
  import opened Sequences
  import opened TokenRefresh

  class ApiClient {
    var stored: Option<Tokens>
    var refreshInFlight: Option<nat>
    var promises: seq<RefreshPromise>
    var reactions: seq<seq<nat>>        // the calls that await each promise, in the order they came
    var calls: seq<Call>
    ghost var sentLog: seq<Token>
    ghost var issued: set<Token>

    ghost function View(): State
      reads this
    {
      State(stored, refreshInFlight, promises, calls, sentLog, issued)
    }

    ghost predicate Valid()
      reads this
    {
      && WellFormed(View())
      && |reactions| == |promises|
      && (forall p :: 0 <= p < |promises| ==> Lists(reactions[p], calls, p))
      && (forall c :: 0 <= c < |calls| && calls[c].phase.Waiting? ==> calls[c].phase.promise < |promises|)
    }

    static ghost predicate Lists(waiters: seq<nat>, calls: seq<Call>, p: nat) {
      && Distinct(waiters)
      && (forall c :: c in waiters ==> c < |calls| && Waits(calls[c], p))
      && (forall c :: 0 <= c < |calls| && Waits(calls[c], p) ==> c in waiters)
    }

    constructor (tokens: Option<Tokens>)
      ensures Valid() && View() == Init(tokens)
    {
      stored, refreshInFlight := tokens, None;
      promises, reactions, calls := [], [], [];
      sentLog, issued := [], if tokens.Some? then {tokens.value.refresh} else {};
    }

    /** `request(path, options)` or `downloadFile(path)` up to the first await. */
    method Start()
      requires Valid()
      modifies this
      ensures Valid() && View() == Step(old(View()), StartCall)
    {
      calls := calls + [UNSENT];
      IssueFetch(|calls| - 1, true);
    }

    method IssueFetch(c: nat, retry: bool)
      requires c < |calls|
      modifies this`calls
      ensures calls == old(calls)[c := Fetch(old(calls)[c], stored, retry)]
    {
      var tokens := stored;
      var bearer := if tokens.Some? then Some(tokens.value.access) else None;
      calls := calls[c := Call(Fetching(bearer, retry), calls[c].fetches + 1, calls[c].waits)];
    }

    /** The main fetch of call `c` answers. */
    method OnResponse(c: nat, status: nat)
      requires Valid() && Enabled(View(), Response(c, status))
      modifies this
      ensures Valid() && View() == Step(old(View()), Response(c, status))
    {
      var sent := calls[c].phase;
      if status == 401 && sent.retry && sent.bearer.Some? {
        if refreshInFlight == None {
          var p := RefreshTokens();
          refreshInFlight := Some(p);
        }
        AwaitRefresh(c);
      } else {
        calls := calls[c := calls[c].(phase := Done(OutcomeOf(status)))];
      }
    }

    /** `await refreshInFlight` in call `c`: queue behind a pending promise, go on at once after a settled one. */
    method AwaitRefresh(c: nat)
      requires Valid() && refreshInFlight.Some? && c < |calls| && !calls[c].phase.Waiting?
      modifies this`calls, this`reactions, this`refreshInFlight
      ensures Valid() && View() == Join(old(View()), c)
    {
      var p := refreshInFlight.value;
      calls := calls[c := calls[c].(phase := Waiting(p), waits := calls[c].waits + 1)];
      if promises[p].status.Pending() {
        reactions := reactions[p := reactions[p] + [c]];
      } else {
        Continue(c, promises[p].status);
      }
    }

    method OnFetchFailed(c: nat)
      requires Valid() && Enabled(View(), FetchFailed(c))
      modifies this
      ensures Valid() && View() == Step(old(View()), FetchFailed(c))
    {
      calls := calls[c := calls[c].(phase := Done(NetworkError))];
    }

    /** `refreshTokens()` up to its first await; `p` is the promise it returns. */
    method RefreshTokens() returns (p: nat)
      requires Valid()
      modifies this`promises, this`reactions, this`sentLog
      ensures Valid() && p == old(|promises|) && reactions == old(reactions) + [[]]
      ensures View().(slot := Some(p)) == BeginRefresh(old(View()))
    {
      p := |promises|;
      var current := stored;
      if current == None {
        promises := promises + [RefreshPromise(None, Fulfilled(None))];
      } else {
        promises := promises + [RefreshPromise(Some(current.value.refresh), AwaitingResponse)];
        sentLog := sentLog + [current.value.refresh];
      }
      reactions := reactions + [[]];
    }

    /** What follows `await refreshInFlight` in call `c`. */
    method Continue(c: nat, settled: Status)
      requires c < |calls| && !settled.Pending()
      modifies this`calls, this`refreshInFlight
      ensures calls == old(calls)[c := Resume(old(calls)[c], stored, settled)]
      ensures refreshInFlight == if settled.Fulfilled? then None else old(refreshInFlight)
    {
      if settled == Rejected {
        calls := calls[c := calls[c].(phase := Done(NetworkError))];
        return;
      }
      refreshInFlight := None;
      if settled.result.Some? {
        IssueFetch(c, false);
      } else {
        calls := calls[c := calls[c].(phase := Done(Failed(401)))];
      }
    }

    /** Promise `p` settles and its waiters run, in the order they came. */
    method SettlePromise(p: nat, settled: Status)
      requires Valid() && p < |promises| && !settled.Pending()
      modifies this`promises, this`reactions, this`calls, this`refreshInFlight
      ensures Valid() && View() == Settle(old(View()), p, stored, settled)
    {
      var waiters := reactions[p];
      ghost var before := calls;
      assert Lists(waiters, before, p);
      promises := promises[p := promises[p].(status := settled)];
      reactions := reactions[p := []];
      for k := 0 to |waiters|
        modifies this`calls, this`refreshInFlight
        invariant |calls| == |before|
        invariant forall c :: 0 <= c < |calls| ==>
          calls[c] == if c in waiters[..k] then Resume(before[c], stored, settled) else before[c]
        invariant refreshInFlight == if settled.Fulfilled? && k > 0 then None else old(refreshInFlight)
      {
        assert waiters[k] in waiters && waiters[k] !in waiters[..k];
        assert waiters[..k + 1] == waiters[..k] + [waiters[k]];
        Continue(waiters[k], settled);
      }
      assert waiters[..|waiters|] == waiters;
      if |waiters| > 0 {
        assert waiters[0] in waiters && Waits(before[waiters[0]], p);
      }
      assert forall c :: 0 <= c < |calls| ==> calls[c] == ResumeIfWaiting(before[c], p, stored, settled);
    }

    /** /auth/refresh answers. */
    method OnRefreshAnswered(p: nat, ok: bool)
      requires Valid() && Enabled(View(), RefreshAnswered(p, ok))
      modifies this
      ensures Valid() && View() == Step(old(View()), RefreshAnswered(p, ok))
    {
      if ok {
        promises := promises[p := promises[p].(status := AwaitingBody)];
      } else {
        stored := None;
        SettlePromise(p, Fulfilled(None));
      }
    }

    /** The body of a successful refresh arrives. */
    method OnRefreshBody(p: nat, tokens: Tokens)
      requires Valid() && Enabled(View(), RefreshBody(p, tokens))
      modifies this
      ensures Valid() && View() == Step(old(View()), RefreshBody(p, tokens))
    {
      stored := Some(tokens);
      SettlePromise(p, Fulfilled(Some(tokens)));
      issued := issued + {tokens.refresh};
    }

    /** The refresh fetch, or the reading of its body, fails. */
    method OnRefreshFailed(p: nat)
      requires Valid() && Enabled(View(), RefreshFailed(p))
      modifies this
      ensures Valid() && View() == Step(old(View()), RefreshFailed(p))
    {
      SettlePromise(p, Rejected);
    }

    method OnLoginSucceeded(tokens: Tokens)
      requires Valid() && Enabled(View(), LoginSucceeded(tokens))
      modifies this
      ensures Valid() && View() == Step(old(View()), LoginSucceeded(tokens))
    {
      stored := Some(tokens);
      issued := issued + {tokens.refresh};
    }

    method OnLogout()
      requires Valid()
      modifies this
      ensures Valid() && View() == Step(old(View()), Logout)
    {
      stored := None;
    }
  }
}
