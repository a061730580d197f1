/** What the registry's numbers say after any run of finished requests and security events. */
module MetricTotals {
  import opened Decimals
  import opened JsStrings
  import opened MetricKeys
  import opened MetricLogs

  // ---------------------------------------------------------------- counting events

  function RequestsWith(events: seq<Event>, httpMethod: HttpMethod, route: string): nat {
    if events == [] then 0
    else
      var e := events[|events| - 1];
      RequestsWith(events[..|events| - 1], httpMethod, route)
      + if e.Request? && e.httpMethod == httpMethod && e.route == route then 1 else 0
  }

  /** Requests with `status / 100 == k`. */
  function RequestsInClass(events: seq<Event>, httpMethod: HttpMethod, route: string, k: nat): nat {
    if events == [] then 0
    else
      var e := events[|events| - 1];
      RequestsInClass(events[..|events| - 1], httpMethod, route, k)
      + if e.Request? && e.httpMethod == httpMethod && e.route == route && e.status / 100 == k then 1 else 0
  }

  function ErrorsWith(events: seq<Event>, httpMethod: HttpMethod, route: string): nat {
    if events == [] then 0
    else
      var e := events[|events| - 1];
      ErrorsWith(events[..|events| - 1], httpMethod, route)
      + if e.Request? && e.httpMethod == httpMethod && e.route == route && e.status >= 500 then 1 else 0
  }

  function TimeOf(events: seq<Event>, httpMethod: HttpMethod, route: string): int {
    if events == [] then 0
    else
      var e := events[|events| - 1];
      TimeOf(events[..|events| - 1], httpMethod, route)
      + if e.Request? && e.httpMethod == httpMethod && e.route == route then e.ms else 0
  }

  function Emitted(events: seq<Event>, t: SecurityEventType): nat {
    if events == [] then 0
    else Emitted(events[..|events| - 1], t) + if events[|events| - 1] == Security(t) then 1 else 0
  }

  function EmittedInAll(events: seq<Event>): nat {
    if events == [] then 0
    else EmittedInAll(events[..|events| - 1]) + if events[|events| - 1].Security? then 1 else 0
  }

  // ---------------------------------------------------------------- names and labels are told apart

  lemma NamesDiffer()
    ensures REQUESTS_TOTAL != REQUEST_ERRORS_TOTAL && REQUESTS_TOTAL != SECURITY_EVENTS_TOTAL
    ensures REQUEST_ERRORS_TOTAL != SECURITY_EVENTS_TOTAL
    ensures REQUEST_DURATION_MS != REQUESTS_TOTAL && REQUEST_DURATION_MS != SECURITY_EVENTS_TOTAL
  {
    assert |REQUESTS_TOTAL| == 19 && |REQUEST_ERRORS_TOTAL| == 25 && |SECURITY_EVENTS_TOTAL| == 21;
    assert |REQUEST_DURATION_MS| == 24;
  }

  lemma LabelNamesDiffer()
    ensures "method" != "route" && "method" != "status" && "route" != "status"
  {
    assert "method"[0] == 'm' && "route"[0] == 'r' && "status"[0] == 's';
  }

  lemma SameRouteLabelsIff(m1: HttpMethod, r1: string, m2: HttpMethod, r2: string)
    ensures SameLabels(RouteLabels(m1, r1), RouteLabels(m2, r2)) <==> m1 == m2 && r1 == r2
  {
    LabelNamesDiffer();
    assert Label("method", m1) in RouteLabels(m1, r1);
    assert Label("route", r1) in RouteLabels(m1, r1);
  }

  lemma SameStatusLabelsIff(m1: HttpMethod, r1: string, c1: string, m2: HttpMethod, r2: string, c2: string)
    ensures SameLabels(StatusLabels(m1, r1, c1), StatusLabels(m2, r2, c2)) <==> m1 == m2 && r1 == r2 && c1 == c2
  {
    LabelNamesDiffer();
    assert Label("method", m1) in StatusLabels(m1, r1, c1);
    assert Label("route", r1) in StatusLabels(m1, r1, c1);
    assert Label("status", c1) in StatusLabels(m1, r1, c1);
  }

  lemma SameSingleIff(l: Label, k: Label)
    ensures SameLabels([l], [k]) <==> l == k
  {
    assert l in [l];
  }

  lemma SameEventLabelsIff(e: SecurityEventType, f: SecurityEventType)
    ensures SameLabels(EventLabels(e), EventLabels(f)) <==> e == f
  {
    SameSingleIff(Label("event", EventName(e)), Label("event", EventName(f)));
    if EventName(e) == EventName(f) {
      EventNamesDiffer(e, f);
    }
  }

  /** A code by which the eleven names are told apart: the length and one character. */
  function Code(name: string): (int, char) {
    (|name|, if |name| == 13 then name[6] else if |name| == 15 then name[8] else if |name| == 24 then name[17] else 'x')
  }

  lemma EventNamesDiffer(e: SecurityEventType, f: SecurityEventType)
    requires EventName(e) == EventName(f)
    ensures e == f
  {
    assert Code(EventName(e)) == Code(EventName(f));
    LoginCodes();
    ResetCodes();
    OtherCodes();
  }

  lemma LoginCodes()
    ensures Code(EventName(LoginSuccess)) == (13, 'S') && Code(EventName(LoginFailure)) == (13, 'F')
    ensures Code(EventName(RefreshSuccess)) == (15, 'S') && Code(EventName(RefreshFailure)) == (15, 'F')
    ensures Code(EventName(RefreshReuseDetected)) == (22, 'x')
  {
  }

  lemma ResetCodes()
    ensures Code(EventName(PasswordResetRequested)) == (24, 'Q') && Code(EventName(PasswordResetCompleted)) == (24, 'M')
    ensures Code(EventName(EmailVerificationCompleted)) == (28, 'x')
  {
  }

  lemma OtherCodes()
    ensures Code(EventName(AuthorizationDenied)) == (20, 'x') && Code(EventName(RateLimitExceeded)) == (19, 'x')
    ensures Code(EventName(WebhookSignatureInvalid)) == (25, 'x')
  {
  }

  // ---------------------------------------------------------------- keys of metered calls are told apart

  predicate IsRequestOrSecurityName(name: string) {
    name in [REQUESTS_TOTAL, REQUEST_ERRORS_TOTAL, REQUEST_DURATION_MS, SECURITY_EVENTS_TOTAL]
  }

  /** The label names with which a metric of requests or security events is filed. */
  function LabelNames(name: string): seq<string>
    requires IsRequestOrSecurityName(name)
  {
    if name == REQUESTS_TOTAL then ["method", "route", "status"]
    else if name == SECURITY_EVENTS_TOTAL then ["event"]
    else ["method", "route"]
  }

  /** The labels are those of the metric, and only the route may hold a comma. */
  ghost predicate Metered(name: string, labels: seq<Label>) {
    && IsRequestOrSecurityName(name)
    && |labels| == |LabelNames(name)|
    && (forall i :: 0 <= i < |labels| ==> labels[i].name == LabelNames(name)[i])
    && CommasOnlyIn(labels, "route")
  }

  lemma LabelNamesDistinct(name: string, labels: seq<Label>)
    requires Metered(name, labels)
    ensures DistinctNames(labels)
  {
    LabelNamesDiffer();
  }

  lemma SeparatorFreeNames()
    ensures '{' !in REQUESTS_TOTAL && '{' !in REQUEST_ERRORS_TOTAL
    ensures '{' !in REQUEST_DURATION_MS && '{' !in SECURITY_EVENTS_TOTAL
    ensures ',' !in "method" && ',' !in "route" && ',' !in "status" && ',' !in "event"
  {
  }

  lemma PlainLoginNames()
    ensures ',' !in EventName(LoginSuccess) && ',' !in EventName(LoginFailure) && ',' !in EventName(RefreshSuccess)
    ensures ',' !in EventName(RefreshFailure) && ',' !in EventName(RefreshReuseDetected)
  {
  }

  lemma PlainResetNames()
    ensures ',' !in EventName(PasswordResetRequested) && ',' !in EventName(PasswordResetCompleted)
    ensures ',' !in EventName(EmailVerificationCompleted)
  {
  }

  lemma PlainRefusalNames()
    ensures ',' !in EventName(AuthorizationDenied) && ',' !in EventName(RateLimitExceeded)
    ensures ',' !in EventName(WebhookSignatureInvalid)
  {
  }

  lemma PlainStatusClass(status: nat)
    ensures ',' !in StatusClass(status)
  {
    var d := Decimal(status / 100);
    forall i | 0 <= i < |StatusClass(status)| ensures StatusClass(status)[i] != ',' {
      assert StatusClass(status)[i] == if i < |d| then d[i] else 'x';
    }
  }

  lemma RouteLabelsMetered(name: string, httpMethod: HttpMethod, route: string)
    requires name == REQUEST_ERRORS_TOTAL || name == REQUEST_DURATION_MS
    ensures Metered(name, RouteLabels(httpMethod, route))
  {
    NamesDiffer();
    SeparatorFreeNames();
  }

  lemma StatusLabelsMetered(httpMethod: HttpMethod, route: string, status: nat)
    ensures Metered(REQUESTS_TOTAL, StatusLabels(httpMethod, route, StatusClass(status)))
  {
    SeparatorFreeNames();
    PlainStatusClass(status);
  }

  lemma EventLabelsMetered(t: SecurityEventType)
    ensures Metered(SECURITY_EVENTS_TOTAL, EventLabels(t))
  {
    NamesDiffer();
    SeparatorFreeNames();
    PlainLoginNames();
    PlainResetNames();
    PlainRefusalNames();
  }

  /** A call of a request or security metric has that metric's labels; any other holds no brace. */
  ghost predicate WellCalled(u: Update) {
    if IsRequestOrSecurityName(u.name) then Metered(u.name, u.labels) else '{' !in u.name
  }

  lemma UpdatesAreWellCalled(e: Event)
    ensures forall u :: u in UpdatesOf(e) ==> WellCalled(u)
  {
    match e
    case Request(route, httpMethod, status, ms) =>
      StatusLabelsMetered(httpMethod, route, status);
      RouteLabelsMetered(REQUEST_ERRORS_TOTAL, httpMethod, route);
      RouteLabelsMetered(REQUEST_DURATION_MS, httpMethod, route);
    case Security(t) =>
      EventLabelsMetered(t);
    case Other(call) =>
  }

  lemma {:induction false} LogIsWellCalled(events: seq<Event>)
    ensures forall u :: u in LogOf(events) ==> WellCalled(u)
  {
    if events != [] {
      LogIsWellCalled(events[..|events| - 1]);
      UpdatesAreWellCalled(events[|events| - 1]);
    }
  }

  lemma NoBraces(events: seq<Event>)
    ensures forall i :: 0 <= i < |LogOf(events)| ==> '{' !in LogOf(events)[i].name
  {
    SeparatorFreeNames();
    LogIsWellCalled(events);
    forall i | 0 <= i < |LogOf(events)| ensures '{' !in LogOf(events)[i].name {
      assert WellCalled(LogOf(events)[i]);
    }
  }

  /** After any run the registry agrees with the run's log on every request and security metric. */
  lemma RunIsFiledAsLogged(events: seq<Event>, name: string, labels: seq<Label>, less: Order)
    requires StrictTotal(less) && Metered(name, labels)
    ensures FiledAsLogged(LogOf(events), name, labels, less)
  {
    var log := LogOf(events);
    LogIsWellCalled(events);
    NoBraces(events);
    SeparatorFreeNames();
    LabelNamesDistinct(name, labels);
    forall i | 0 <= i < |log| && log[i].name == name
      ensures SameNames(log[i].labels, labels) && CommasOnlyIn(log[i].labels, "route")
    {
      assert WellCalled(log[i]);
    }
    OwnLabelsAgree(log, name, labels, "route", less);
  }

  // ---------------------------------------------------------------- hits of one event

  lemma {:induction false} HitCountConcat(a: seq<Update>, b: seq<Update>, timed: bool, name: string, labels: seq<Label>)
    ensures HitCount(a + b, timed, name, labels) == HitCount(a, timed, name, labels) + HitCount(b, timed, name, labels)
  {
    if b == [] {
      assert a + b == a;
    } else {
      HitCountConcat(a, b[..|b| - 1], timed, name, labels);
      assert (a + b)[..|a + b| - 1] == a + b[..|b| - 1];
    }
  }

  lemma {:induction false} HitTimeConcat(a: seq<Update>, b: seq<Update>, name: string, labels: seq<Label>)
    ensures HitTime(a + b, name, labels) == HitTime(a, name, labels) + HitTime(b, name, labels)
  {
    if b == [] {
      assert a + b == a;
    } else {
      HitTimeConcat(a, b[..|b| - 1], name, labels);
      assert (a + b)[..|a + b| - 1] == a + b[..|b| - 1];
    }
  }

  ghost function One(b: bool): nat {
    if b then 1 else 0
  }

  lemma HitOne(u: Update, timed: bool, name: string, labels: seq<Label>)
    ensures HitCount([u], timed, name, labels) == One(Hits(u, timed, name, labels))
    ensures HitTime([u], name, labels) == if Hits(u, true, name, labels) then u.ms else 0
  {
    assert [u][..0] == [];
  }

  function TotalUpdate(e: Event): Update
    requires e.Request?
  {
    Counted(REQUESTS_TOTAL, StatusLabels(e.httpMethod, e.route, StatusClass(e.status)))
  }

  function ErrorUpdate(e: Event): Update
    requires e.Request?
  {
    Counted(REQUEST_ERRORS_TOTAL, RouteLabels(e.httpMethod, e.route))
  }

  function DurationUpdate(e: Event): Update
    requires e.Request?
  {
    Timed(REQUEST_DURATION_MS, RouteLabels(e.httpMethod, e.route), e.ms)
  }

  /** The hits of a request are those of its two or three calls. */
  lemma HitsOfRequest(e: Event, timed: bool, name: string, labels: seq<Label>)
    requires e.Request?
    ensures HitCount(UpdatesOf(e), timed, name, labels) ==
      One(Hits(TotalUpdate(e), timed, name, labels))
      + One(e.status >= 500 && Hits(ErrorUpdate(e), timed, name, labels))
      + One(Hits(DurationUpdate(e), timed, name, labels))
    ensures HitTime(UpdatesOf(e), name, labels) == if Hits(DurationUpdate(e), true, name, labels) then e.ms else 0
  {
    var a, b, c := TotalUpdate(e), ErrorUpdate(e), DurationUpdate(e);
    var errors := if e.status >= 500 then [b] else [];
    HitOne(a, timed, name, labels);
    HitOne(b, timed, name, labels);
    HitOne(c, timed, name, labels);
    HitCountConcat([a] + errors, [c], timed, name, labels);
    HitCountConcat([a], errors, timed, name, labels);
    HitTimeConcat([a] + errors, [c], name, labels);
    HitTimeConcat([a], errors, name, labels);
  }

  lemma SameClassIff(s: nat, k: nat)
    ensures StatusClass(s) == Decimal(k) + "xx" <==> s / 100 == k
  {
    if StatusClass(s) == Decimal(k) + "xx" {
      var t := StatusClass(s);
      assert Decimal(s / 100) == t[..|t| - 2] == Decimal(k);
      DecimalIsInjective(s / 100, k);
    }
  }

  function ClassLabels(httpMethod: HttpMethod, route: string, k: nat): seq<Label> {
    StatusLabels(httpMethod, route, Decimal(k) + "xx")
  }

  lemma EventHitsClass(e: Event, httpMethod: HttpMethod, route: string, k: nat)
    ensures HitCount(UpdatesOf(e), false, REQUESTS_TOTAL, ClassLabels(httpMethod, route, k)) ==
      One(e.Request? && e.httpMethod == httpMethod && e.route == route && e.status / 100 == k)
  {
    NamesDiffer();
    var labels := ClassLabels(httpMethod, route, k);
    match e
    case Request(r, m, status, ms) =>
      HitsOfRequest(e, false, REQUESTS_TOTAL, labels);
      SameStatusLabelsIff(m, r, StatusClass(status), httpMethod, route, Decimal(k) + "xx");
      SameClassIff(status, k);
    case Security(t) =>
      HitOne(Counted(SECURITY_EVENTS_TOTAL, EventLabels(t)), false, REQUESTS_TOTAL, labels);
    case Other(call) =>
      HitOne(call, false, REQUESTS_TOTAL, labels);
  }

  lemma EventHitsErrors(e: Event, httpMethod: HttpMethod, route: string)
    ensures HitCount(UpdatesOf(e), false, REQUEST_ERRORS_TOTAL, RouteLabels(httpMethod, route)) ==
      One(e.Request? && e.httpMethod == httpMethod && e.route == route && e.status >= 500)
  {
    NamesDiffer();
    var labels := RouteLabels(httpMethod, route);
    match e
    case Request(r, m, status, ms) =>
      HitsOfRequest(e, false, REQUEST_ERRORS_TOTAL, labels);
      SameRouteLabelsIff(m, r, httpMethod, route);
    case Security(t) =>
      HitOne(Counted(SECURITY_EVENTS_TOTAL, EventLabels(t)), false, REQUEST_ERRORS_TOTAL, labels);
    case Other(call) =>
      HitOne(call, false, REQUEST_ERRORS_TOTAL, labels);
  }

  lemma EventHitsDuration(e: Event, httpMethod: HttpMethod, route: string)
    ensures var mine := e.Request? && e.httpMethod == httpMethod && e.route == route;
      && HitCount(UpdatesOf(e), true, REQUEST_DURATION_MS, RouteLabels(httpMethod, route)) == One(mine)
      && HitTime(UpdatesOf(e), REQUEST_DURATION_MS, RouteLabels(httpMethod, route)) == if mine then e.ms else 0
  {
    var labels := RouteLabels(httpMethod, route);
    match e
    case Request(r, m, status, ms) =>
      HitsOfRequest(e, true, REQUEST_DURATION_MS, labels);
      SameRouteLabelsIff(m, r, httpMethod, route);
    case Security(t) =>
      HitOne(Counted(SECURITY_EVENTS_TOTAL, EventLabels(t)), true, REQUEST_DURATION_MS, labels);
    case Other(call) =>
      HitOne(call, true, REQUEST_DURATION_MS, labels);
  }

  lemma EventHitsSecurity(e: Event, t: SecurityEventType)
    ensures HitCount(UpdatesOf(e), false, SECURITY_EVENTS_TOTAL, EventLabels(t)) == One(e == Security(t))
  {
    NamesDiffer();
    match e
    case Request(r, m, status, ms) =>
      HitsOfRequest(e, false, SECURITY_EVENTS_TOTAL, EventLabels(t));
    case Security(u) =>
      HitOne(Counted(SECURITY_EVENTS_TOTAL, EventLabels(u)), false, SECURITY_EVENTS_TOTAL, EventLabels(t));
      SameEventLabelsIff(u, t);
    case Other(call) =>
      HitOne(call, false, SECURITY_EVENTS_TOTAL, EventLabels(t));
  }

  // ---------------------------------------------------------------- hits of a run

  lemma {:induction false} RunHits(events: seq<Event>, httpMethod: HttpMethod, route: string, k: nat)
    ensures HitCount(LogOf(events), false, REQUESTS_TOTAL, ClassLabels(httpMethod, route, k)) ==
      RequestsInClass(events, httpMethod, route, k)
    ensures HitCount(LogOf(events), false, REQUEST_ERRORS_TOTAL, RouteLabels(httpMethod, route)) ==
      ErrorsWith(events, httpMethod, route)
    ensures HitCount(LogOf(events), true, REQUEST_DURATION_MS, RouteLabels(httpMethod, route)) ==
      RequestsWith(events, httpMethod, route)
    ensures HitTime(LogOf(events), REQUEST_DURATION_MS, RouteLabels(httpMethod, route)) ==
      TimeOf(events, httpMethod, route)
  {
    if events != [] {
      var before, e := events[..|events| - 1], events[|events| - 1];
      var a, b := LogOf(before), UpdatesOf(e);
      RunHits(before, httpMethod, route, k);
      EventHitsClass(e, httpMethod, route, k);
      EventHitsErrors(e, httpMethod, route);
      EventHitsDuration(e, httpMethod, route);
      HitCountConcat(a, b, false, REQUESTS_TOTAL, ClassLabels(httpMethod, route, k));
      HitCountConcat(a, b, false, REQUEST_ERRORS_TOTAL, RouteLabels(httpMethod, route));
      HitCountConcat(a, b, true, REQUEST_DURATION_MS, RouteLabels(httpMethod, route));
      HitTimeConcat(a, b, REQUEST_DURATION_MS, RouteLabels(httpMethod, route));
    }
  }

  lemma {:induction false} RunHitsSecurity(events: seq<Event>, t: SecurityEventType)
    ensures HitCount(LogOf(events), false, SECURITY_EVENTS_TOTAL, EventLabels(t)) == Emitted(events, t)
  {
    if events != [] {
      RunHitsSecurity(events[..|events| - 1], t);
      EventHitsSecurity(events[|events| - 1], t);
      HitCountConcat(LogOf(events[..|events| - 1]), UpdatesOf(events[|events| - 1]), false,
        SECURITY_EVENTS_TOTAL, EventLabels(t));
    }
  }

  // ---------------------------------------------------------------- main results

  /** The counters and durations of a route after a run are those of its requests in the run. */
  lemma {:induction false} RouteNumbers(events: seq<Event>, httpMethod: HttpMethod, route: string, k: nat, less: Order)
    requires StrictTotal(less)
    ensures var counters := CountersOf(LogOf(events), less);
      && Get(counters, Key(REQUESTS_TOTAL, ClassLabels(httpMethod, route, k), less)) ==
        RequestsInClass(events, httpMethod, route, k)
      && Get(counters, Key(REQUEST_ERRORS_TOTAL, RouteLabels(httpMethod, route), less)) ==
        ErrorsWith(events, httpMethod, route)
    ensures var key := Key(REQUEST_DURATION_MS, RouteLabels(httpMethod, route), less);
      && Get(CountsOf(LogOf(events), less), key) == RequestsWith(events, httpMethod, route)
      && Get(SumsOf(LogOf(events), less), key) == TimeOf(events, httpMethod, route)
  {
    RunHits(events, httpMethod, route, k);
    SameClassIff(100 * k, k);
    StatusLabelsMetered(httpMethod, route, 100 * k);
    RunIsFiledAsLogged(events, REQUESTS_TOTAL, ClassLabels(httpMethod, route, k), less);
    RouteLabelsMetered(REQUEST_ERRORS_TOTAL, httpMethod, route);
    RunIsFiledAsLogged(events, REQUEST_ERRORS_TOTAL, RouteLabels(httpMethod, route), less);
    RouteLabelsMetered(REQUEST_DURATION_MS, httpMethod, route);
    RunIsFiledAsLogged(events, REQUEST_DURATION_MS, RouteLabels(httpMethod, route), less);
  }

  predicate OnRoute(e: Event, m: HttpMethod, r: string) {
    e.Request? && e.httpMethod == m && e.route == r
  }

  /** Every status seen on the route is at least `from` and below `below`. */
  predicate StatusesBelow(events: seq<Event>, m: HttpMethod, r: string, from: nat, below: nat) {
    forall i :: 0 <= i < |events| && OnRoute(events[i], m, r) ==> from <= events[i].status < below
  }

  function FiveClasses(events: seq<Event>, m: HttpMethod, r: string): nat {
    RequestsInClass(events, m, r, 1) + RequestsInClass(events, m, r, 2) + RequestsInClass(events, m, r, 3)
    + RequestsInClass(events, m, r, 4) + RequestsInClass(events, m, r, 5)
  }

  lemma {:induction false} ClassesPartition(events: seq<Event>, m: HttpMethod, r: string)
    ensures FiveClasses(events, m, r) <= RequestsWith(events, m, r)
    ensures FiveClasses(events, m, r) == RequestsWith(events, m, r) <==> StatusesBelow(events, m, r, 100, 600)
    ensures RequestsInClass(events, m, r, 5) <= ErrorsWith(events, m, r)
    ensures RequestsInClass(events, m, r, 5) == ErrorsWith(events, m, r) <==> StatusesBelow(events, m, r, 0, 600)
  {
    if events != [] {
      ClassesPartition(events[..|events| - 1], m, r);
      LastStatus(events, m, r, 100, 600);
      LastStatus(events, m, r, 0, 600);
    }
  }

  lemma LastStatus(events: seq<Event>, m: HttpMethod, r: string, from: nat, below: nat)
    requires events != []
    ensures var e := events[|events| - 1];
      StatusesBelow(events, m, r, from, below) <==>
        StatusesBelow(events[..|events| - 1], m, r, from, below) && (OnRoute(e, m, r) ==> from <= e.status < below)
  {
    var before := events[..|events| - 1];
    if StatusesBelow(events, m, r, from, below) {
      forall i | 0 <= i < |before| && OnRoute(before[i], m, r) ensures from <= before[i].status < below {
        assert OnRoute(events[i], m, r);
      }
    }
    if StatusesBelow(before, m, r, from, below) {
      forall i | 0 <= i < |before| && OnRoute(events[i], m, r) ensures from <= events[i].status < below {
        assert OnRoute(before[i], m, r);
      }
    }
  }

  function ClassCount(counters: map<string, int>, m: HttpMethod, r: string, k: nat, less: Order): int {
    Get(counters, Key(REQUESTS_TOTAL, ClassLabels(m, r, k), less))
  }

  function ClassSum(counters: map<string, int>, m: HttpMethod, r: string, less: Order): int {
    ClassCount(counters, m, r, 1, less) + ClassCount(counters, m, r, 2, less) + ClassCount(counters, m, r, 3, less)
    + ClassCount(counters, m, r, 4, less) + ClassCount(counters, m, r, 5, less)
  }

  /**
   The classes 1xx to 5xx of a route add up to its duration count exactly when all its statuses were
   100 to 599, and its errors are its 5xx exactly when none was 600 or more.
   */
  lemma RequestTotals(events: seq<Event>, m: HttpMethod, r: string, less: Order)
    requires StrictTotal(less)
    ensures var counters, durations := CountersOf(LogOf(events), less), CountsOf(LogOf(events), less);
      ClassSum(counters, m, r, less) == Get(durations, Key(REQUEST_DURATION_MS, RouteLabels(m, r), less)) <==>
        StatusesBelow(events, m, r, 100, 600)
    ensures var counters := CountersOf(LogOf(events), less);
      Get(counters, Key(REQUEST_ERRORS_TOTAL, RouteLabels(m, r), less)) == ClassCount(counters, m, r, 5, less) <==>
        StatusesBelow(events, m, r, 0, 600)
  {
    RouteNumbers(events, m, r, 1, less);
    RouteNumbers(events, m, r, 2, less);
    RouteNumbers(events, m, r, 3, less);
    RouteNumbers(events, m, r, 4, less);
    RouteNumbers(events, m, r, 5, less);
    ClassesPartition(events, m, r);
  }

  function SumOverTypes(f: SecurityEventType -> int): int {
    f(LoginSuccess) + f(LoginFailure) + f(RefreshSuccess) + f(RefreshFailure) + f(RefreshReuseDetected)
    + f(PasswordResetRequested) + f(PasswordResetCompleted) + f(EmailVerificationCompleted)
    + f(AuthorizationDenied) + f(RateLimitExceeded) + f(WebhookSignatureInvalid)
  }

  lemma SumOfSums(f: SecurityEventType -> int, g: SecurityEventType -> int, h: SecurityEventType -> int)
    requires forall t :: f(t) == g(t) + h(t)
    ensures SumOverTypes(f) == SumOverTypes(g) + SumOverTypes(h)
  {
  }

  lemma SumOfOne(u: SecurityEventType, f: SecurityEventType -> int)
    requires forall t :: f(t) == if t == u then 1 else 0
    ensures SumOverTypes(f) == 1
  {
    match u
    case LoginSuccess =>
    case LoginFailure =>
    case RefreshSuccess =>
    case RefreshFailure =>
    case RefreshReuseDetected =>
    case PasswordResetRequested =>
    case PasswordResetCompleted =>
    case EmailVerificationCompleted =>
    case AuthorizationDenied =>
    case RateLimitExceeded =>
    case WebhookSignatureInvalid =>
  }

  lemma {:induction false} EmittedAddUp(events: seq<Event>)
    ensures SumOverTypes(t => Emitted(events, t)) == EmittedInAll(events)
  {
    if events != [] {
      var before, e := events[..|events| - 1], events[|events| - 1];
      EmittedAddUp(before);
      var now: SecurityEventType -> int := t => if e == Security(t) then 1 else 0;
      SumOfSums(t => Emitted(events, t), t => Emitted(before, t), now);
      if e.Security? {
        SumOfOne(e.event, now);
      }
    }
  }

  lemma {:induction false} SecurityNumber(events: seq<Event>, t: SecurityEventType, less: Order)
    requires StrictTotal(less)
    ensures Get(CountersOf(LogOf(events), less), Key(SECURITY_EVENTS_TOTAL, EventLabels(t), less)) == Emitted(events, t)
  {
    RunHitsSecurity(events, t);
    EventLabelsMetered(t);
    RunIsFiledAsLogged(events, SECURITY_EVENTS_TOTAL, EventLabels(t), less);
  }

  /** Each security counter counts its events, and together they count every event emitted, once. */
  lemma {:induction false} SecurityTotals(events: seq<Event>, less: Order)
    requires StrictTotal(less)
    ensures var counters := CountersOf(LogOf(events), less);
      SumOverTypes(t => Get(counters, Key(SECURITY_EVENTS_TOTAL, EventLabels(t), less))) == EmittedInAll(events)
  {
    EmittedAddUp(events);
    forall t ensures Get(CountersOf(LogOf(events), less), Key(SECURITY_EVENTS_TOTAL, EventLabels(t), less)) ==
      Emitted(events, t) {
      SecurityNumber(events, t, less);
    }
  }

  // ---------------------------------------------------------------- the other services' counters

  function CallsOf(events: seq<Event>, call: OtherCall): nat {
    if events == [] then 0
    else CallsOf(events[..|events| - 1], call) + if events[|events| - 1] == Other(call) then 1 else 0
  }

  /** Wherever the name of `call` is used in the run, it is that call. */
  predicate OnlyCallOfItsName(events: seq<Event>, call: OtherCall) {
    forall i :: 0 <= i < |events| && events[i].Other? && events[i].call.name == call.name ==> events[i].call == call
  }

  lemma OtherNameInUpdates(e: Event, call: OtherCall)
    requires e.Other? && e.call.name == call.name ==> e.call == call
    requires call.Counted?
    ensures forall u :: u in UpdatesOf(e) && u.name == call.name ==> u == call
    ensures HitCount(UpdatesOf(e), false, call.name, call.labels) == One(e == Other(call))
  {
    match e
    case Request(_, _, _, _) =>
      HitsOfRequest(e, false, call.name, call.labels);
    case Security(t) =>
      HitOne(Counted(SECURITY_EVENTS_TOTAL, EventLabels(t)), false, call.name, call.labels);
    case Other(other) =>
      HitOne(other, false, call.name, call.labels);
  }

  lemma {:induction false} OtherNameInLog(events: seq<Event>, call: OtherCall)
    requires OnlyCallOfItsName(events, call) && call.Counted?
    ensures forall u :: u in LogOf(events) && u.name == call.name ==> u == call
    ensures HitCount(LogOf(events), false, call.name, call.labels) == CallsOf(events, call)
  {
    if events != [] {
      var before, e := events[..|events| - 1], events[|events| - 1];
      OtherNameInLog(before, call);
      OtherNameInUpdates(e, call);
      HitCountConcat(LogOf(before), UpdatesOf(e), false, call.name, call.labels);
    }
  }

  /** A counter that is always called with the same labels, of any form, holds the number of its calls. */
  lemma OtherNumber(events: seq<Event>, call: OtherCall, less: Order)
    requires OnlyCallOfItsName(events, call) && call.Counted?
    ensures Get(CountersOf(LogOf(events), less), Key(call.name, call.labels, less)) == CallsOf(events, call)
  {
    var log := LogOf(events);
    OtherNameInLog(events, call);
    NoBraces(events);
    forall i | 0 <= i < |log| && log[i].name == call.name ensures ToldApart(log[i], call.name, call.labels, less) {
      assert log[i] in log;
    }
    OtherNamesNeverMeet(log, call.name, call.labels, less);
  }

  lemma FailureNamesDiffer(f: Failure, g: Failure)
    requires FailureName(f) == FailureName(g)
    ensures f == g
  {
    assert |FailureName(f)| == |FailureName(g)| && FailureName(f)[0] == FailureName(g)[0];
  }

  lemma FailureIsOther(f: Failure)
    ensures IsOtherName(FailureName(f))
  {
    var n := FailureName(f);
    assert |REQUESTS_TOTAL| == 19 && |REQUEST_ERRORS_TOTAL| == 25 && |REQUEST_DURATION_MS| == 24;
    assert |SECURITY_EVENTS_TOTAL| == 21;
    assert n[0] != 'h' && n[0] != 's';
    assert '{' !in n;
  }

  /** All other calls of the run are the six that the services make. */
  predicate OnlyFailures(events: seq<Event>) {
    forall i :: 0 <= i < |events| && events[i].Other? ==> exists f :: events[i].call == FailureCall(f)
  }

  /** In a run with requests, security events and failures each failure counter counts its failures. */
  lemma FailureNumber(events: seq<Event>, f: Failure, less: Order)
    requires OnlyFailures(events)
    ensures IsOtherName(FailureName(f))
    ensures Get(CountersOf(LogOf(events), less), Key(FailureName(f), FailureLabels(f), less)) ==
      CallsOf(events, FailureCall(f))
  {
    FailureIsOther(f);
    forall i | 0 <= i < |events| && events[i].Other? && events[i].call.name == FailureName(f)
      ensures events[i].call == FailureCall(f)
    {
      var g :| events[i].call == FailureCall(g);
      FailureNamesDiffer(f, g);
    }
    OtherNumber(events, FailureCall(f), less);
  }

  // ---------------------------------------------------------------- the keys as they are reported

  /** Under an order that has method before route before status: the keys of a route. */
  lemma RouteKeys(httpMethod: HttpMethod, route: string, k: nat, less: Order)
    requires StrictTotal(less) && less("method", "route") && less("route", "status")
    ensures Key(REQUESTS_TOTAL, ClassLabels(httpMethod, route, k), less) == "http_requests_total" + "{" +
      Join(["method=" + httpMethod, "route=" + route, "status=" + (Decimal(k) + "xx")], ",") + "}"
    ensures Key(REQUEST_ERRORS_TOTAL, RouteLabels(httpMethod, route), less) == "http_request_errors_total" + "{" +
      Join(["method=" + httpMethod, "route=" + route], ",") + "}"
    ensures Key(REQUEST_DURATION_MS, RouteLabels(httpMethod, route), less) == "http_request_duration_ms" + "{" +
      Join(["method=" + httpMethod, "route=" + route], ",") + "}"
  {
    var texts := ["method=" + httpMethod, "route=" + route];
    EqualsSigns();
    KeyOfSorted(REQUESTS_TOTAL, ClassLabels(httpMethod, route, k), texts + ["status=" + (Decimal(k) + "xx")], less);
    KeyOfSorted(REQUEST_ERRORS_TOTAL, RouteLabels(httpMethod, route), texts, less);
    KeyOfSorted(REQUEST_DURATION_MS, RouteLabels(httpMethod, route), texts, less);
    assert texts + ["status=" + (Decimal(k) + "xx")] ==
      ["method=" + httpMethod, "route=" + route, "status=" + (Decimal(k) + "xx")];
  }

  lemma EqualsSigns()
    ensures "method" + "=" == "method=" && "route" + "=" == "route=" && "status" + "=" == "status="
    ensures "event" + "=" == "event=" && "provider" + "=" == "provider=" && "reason" + "=" == "reason="
  {
  }

  ghost predicate IsSecurityKey(e: SecurityEventType, text: string, less: Order) {
    Key(SECURITY_EVENTS_TOTAL, EventLabels(e), less) == "security_events_total" + "{" + ("event=" + text) + "}"
  }

  /** The keys of the security events. */
  lemma SecurityKeys(less: Order)
    requires StrictTotal(less)
    ensures IsSecurityKey(LoginSuccess, "LOGIN_SUCCESS", less) && IsSecurityKey(LoginFailure, "LOGIN_FAILURE", less)
    ensures IsSecurityKey(RefreshSuccess, "REFRESH_SUCCESS", less)
    ensures IsSecurityKey(RefreshFailure, "REFRESH_FAILURE", less)
    ensures IsSecurityKey(RefreshReuseDetected, "REFRESH_REUSE_DETECTED", less)
    ensures IsSecurityKey(PasswordResetRequested, "PASSWORD_RESET_REQUESTED", less)
    ensures IsSecurityKey(PasswordResetCompleted, "PASSWORD_RESET_COMPLETED", less)
    ensures IsSecurityKey(EmailVerificationCompleted, "EMAIL_VERIFICATION_COMPLETED", less)
    ensures IsSecurityKey(AuthorizationDenied, "AUTHORIZATION_DENIED", less)
    ensures IsSecurityKey(RateLimitExceeded, "RATE_LIMIT_EXCEEDED", less)
    ensures IsSecurityKey(WebhookSignatureInvalid, "WEBHOOK_SIGNATURE_INVALID", less)
  {
    EqualsSigns();
    forall e ensures IsSecurityKey(e, EventName(e), less) {
      KeyOfSorted(SECURITY_EVENTS_TOTAL, EventLabels(e), ["event=" + EventName(e)], less);
    }
  }

  /** The keys of the other services' counters: five bare names, and one with two labels. */
  lemma FailureKeys(less: Order)
    requires StrictTotal(less) && less("provider", "reason")
    ensures Key(FailureName(OutboxFailed), FailureLabels(OutboxFailed), less) == "outbox_failed_total"
    ensures Key(FailureName(EmailDeliveryFailed), FailureLabels(EmailDeliveryFailed), less) ==
      "email_delivery_failed_total"
    ensures Key(FailureName(RefundFailed), FailureLabels(RefundFailed), less) == "refund_failures_total"
    ensures Key(FailureName(RefundUnknown), FailureLabels(RefundUnknown), less) == "refund_unknown_total"
    ensures Key(FailureName(PaymentFailed), FailureLabels(PaymentFailed), less) == "payment_failures_total"
    ensures Key(FailureName(WebhookRejected), FailureLabels(WebhookRejected), less) ==
      "webhook_failures_total" + "{" + Join(["provider=" + "razorpay", "reason=" + "invalid_signature"], ",") + "}"
  {
    EqualsSigns();
    forall f: Failure | f != WebhookRejected ensures Key(FailureName(f), FailureLabels(f), less) == FailureName(f) {
      KeyOfSorted(FailureName(f), [], [], less);
    }
    KeyOfSorted("webhook_failures_total", FailureLabels(WebhookRejected),
      ["provider=" + "razorpay", "reason=" + "invalid_signature"], less);
  }
}
