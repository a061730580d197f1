/** What the registry must hold after a log of calls, and what a run of events makes of it. */
module MetricLogs {
  import opened Decimals
  import opened MetricKeys

  /** One call of `incrementCounter` or of `recordDuration`. */
  datatype Update =
    | Counted(name: string, labels: seq<Label>)
    | Timed(name: string, labels: seq<Label>, ms: int)

  function Bump(m: map<string, int>, key: string, amount: int): map<string, int> {
    m[key := (if key in m then m[key] else 0) + amount]
  }

  function CountersOf(log: seq<Update>, less: Order): map<string, int> {
    if log == [] then map[]
    else
      var u, m := log[|log| - 1], CountersOf(log[..|log| - 1], less);
      if u.Counted? then Bump(m, Key(u.name, u.labels, less), 1) else m
  }

  function SumsOf(log: seq<Update>, less: Order): map<string, int> {
    if log == [] then map[]
    else
      var u, m := log[|log| - 1], SumsOf(log[..|log| - 1], less);
      if u.Timed? then Bump(m, Key(u.name, u.labels, less), u.ms) else m
  }

  function CountsOf(log: seq<Update>, less: Order): map<string, int> {
    if log == [] then map[]
    else
      var u, m := log[|log| - 1], CountsOf(log[..|log| - 1], less);
      if u.Timed? then Bump(m, Key(u.name, u.labels, less), 1) else m
  }

  function Get(m: map<string, int>, key: string): int {
    if key in m then m[key] else 0
  }

  lemma AppendOne(log: seq<Update>, u: Update, less: Order)
    ensures CountersOf(log + [u], less) ==
      if u.Counted? then Bump(CountersOf(log, less), Key(u.name, u.labels, less), 1) else CountersOf(log, less)
    ensures SumsOf(log + [u], less) ==
      if u.Timed? then Bump(SumsOf(log, less), Key(u.name, u.labels, less), u.ms) else SumsOf(log, less)
    ensures CountsOf(log + [u], less) ==
      if u.Timed? then Bump(CountsOf(log, less), Key(u.name, u.labels, less), 1) else CountsOf(log, less)
  {
    assert (log + [u])[..|log|] == log;
  }

  /** Sums and counts are kept for the same keys, and every count is positive. */
  lemma {:induction false} SumsAndCountsAgree(log: seq<Update>, less: Order)
    ensures SumsOf(log, less).Keys == CountsOf(log, less).Keys
    ensures forall k :: k in CountsOf(log, less) ==> CountsOf(log, less)[k] >= 1
  {
    if log != [] {
      SumsAndCountsAgree(log[..|log| - 1], less);
    }
  }

  // ---------------------------------------------------------------- reading a counter

  ghost predicate Hits(u: Update, timed: bool, name: string, labels: seq<Label>) {
    u.Timed? == timed && u.name == name && SameLabels(u.labels, labels)
  }

  ghost function HitCount(log: seq<Update>, timed: bool, name: string, labels: seq<Label>): nat {
    if log == [] then 0
    else HitCount(log[..|log| - 1], timed, name, labels) + if Hits(log[|log| - 1], timed, name, labels) then 1 else 0
  }

  ghost function HitTime(log: seq<Update>, name: string, labels: seq<Label>): int {
    if log == [] then 0
    else
      var u := log[|log| - 1];
      HitTime(log[..|log| - 1], name, labels) + if Hits(u, true, name, labels) then u.ms else 0
  }

  ghost predicate PlainLog(log: seq<Update>) {
    forall i :: 0 <= i < |log| ==> Plain(log[i].name, log[i].labels)
  }

  /** The key of a call is the one asked for exactly if its name and labels are. */
  ghost predicate ToldApart(u: Update, name: string, labels: seq<Label>, less: Order) {
    Key(u.name, u.labels, less) == Key(name, labels, less) <==> u.name == name && SameLabels(u.labels, labels)
  }

  lemma PlainToldApart(u: Update, name: string, labels: seq<Label>, less: Order)
    requires StrictTotal(less) && Plain(name, labels) && Plain(u.name, u.labels)
    ensures ToldApart(u, name, labels, less)
  {
    if Key(u.name, u.labels, less) == Key(name, labels, less) {
      KeyIsInjective(u.name, u.labels, name, labels, less);
    }
    if u.name == name && SameLabels(u.labels, labels) {
      KeyIgnoresInsertionOrder(name, u.labels, labels, less);
    }
  }

  /** What the three maps hold under a key is exactly what the log says of that name and those labels. */
  ghost predicate FiledAsLogged(log: seq<Update>, name: string, labels: seq<Label>, less: Order) {
    var key := Key(name, labels, less);
    && Get(CountersOf(log, less), key) == HitCount(log, false, name, labels)
    && Get(CountsOf(log, less), key) == HitCount(log, true, name, labels)
    && Get(SumsOf(log, less), key) == HitTime(log, name, labels)
  }

  /** If no call is mistaken for the one asked about, the registry agrees with the log. */
  lemma {:induction false} ToldApartAgrees(log: seq<Update>, name: string, labels: seq<Label>, less: Order)
    requires forall i :: 0 <= i < |log| ==> ToldApart(log[i], name, labels, less)
    ensures FiledAsLogged(log, name, labels, less)
  {
    if log != [] {
      assert ToldApart(log[|log| - 1], name, labels, less);
      ToldApartAgrees(log[..|log| - 1], name, labels, less);
    }
  }

  /** Plain names and labels are always told apart. */
  lemma RegistryAgreesWithLog(log: seq<Update>, name: string, labels: seq<Label>, less: Order)
    requires StrictTotal(less) && PlainLog(log) && Plain(name, labels)
    ensures FiledAsLogged(log, name, labels, less)
  {
    forall i | 0 <= i < |log| ensures ToldApart(log[i], name, labels, less) {
      assert Plain(log[i].name, log[i].labels);
      PlainToldApart(log[i], name, labels, less);
    }
    ToldApartAgrees(log, name, labels, less);
  }

  /** If names hold no brace, only the calls of the name asked about need be told apart. */
  lemma OtherNamesNeverMeet(log: seq<Update>, name: string, labels: seq<Label>, less: Order)
    requires '{' !in name && forall i :: 0 <= i < |log| ==> '{' !in log[i].name
    requires forall i :: 0 <= i < |log| && log[i].name == name ==> ToldApart(log[i], name, labels, less)
    ensures FiledAsLogged(log, name, labels, less)
  {
    forall i | 0 <= i < |log| ensures ToldApart(log[i], name, labels, less) {
      if log[i].name != name && Key(log[i].name, log[i].labels, less) == Key(name, labels, less) {
        BracePartsAgree(log[i].name, LabelPart(log[i].labels, less), name, LabelPart(labels, less));
      }
    }
    ToldApartAgrees(log, name, labels, less);
  }

  /** `name` is always called with the labels named as in `labels`, and one of them may have any value. */
  ghost predicate CalledWithItsLabels(log: seq<Update>, name: string, labels: seq<Label>, open: string) {
    forall i :: 0 <= i < |log| && log[i].name == name ==>
      SameNames(log[i].labels, labels) && CommasOnlyIn(log[i].labels, open)
  }

  /** A metric that is called with its own labels is filed as logged, whatever else is in the log. */
  lemma OwnLabelsAgree(log: seq<Update>, name: string, labels: seq<Label>, open: string, less: Order)
    requires StrictTotal(less) && DistinctNames(labels) && CommasOnlyIn(labels, open)
    requires '{' !in name && forall i :: 0 <= i < |log| ==> '{' !in log[i].name
    requires CalledWithItsLabels(log, name, labels, open)
    ensures FiledAsLogged(log, name, labels, less)
  {
    forall i | 0 <= i < |log| && log[i].name == name ensures ToldApart(log[i], name, labels, less) {
      SameNamesKeyIff(name, labels, log[i].labels, open, less);
    }
    OtherNamesNeverMeet(log, name, labels, less);
  }

  // ---------------------------------------------------------------- the events that are metered

  const REQUESTS_TOTAL := "http_requests_total"
  const REQUEST_ERRORS_TOTAL := "http_request_errors_total"
  const REQUEST_DURATION_MS := "http_request_duration_ms"
  const SECURITY_EVENTS_TOTAL := "security_events_total"

  datatype SecurityEventType =
    | LoginSuccess | LoginFailure
    | RefreshSuccess | RefreshFailure | RefreshReuseDetected
    | PasswordResetRequested | PasswordResetCompleted
    | EmailVerificationCompleted
    | AuthorizationDenied
    | RateLimitExceeded
    | WebhookSignatureInvalid

  function EventName(e: SecurityEventType): string {
    match e
    case LoginSuccess => "LOGIN_SUCCESS"
    case LoginFailure => "LOGIN_FAILURE"
    case RefreshSuccess => "REFRESH_SUCCESS"
    case RefreshFailure => "REFRESH_FAILURE"
    case RefreshReuseDetected => "REFRESH_REUSE_DETECTED"
    case PasswordResetRequested => "PASSWORD_RESET_REQUESTED"
    case PasswordResetCompleted => "PASSWORD_RESET_COMPLETED"
    case EmailVerificationCompleted => "EMAIL_VERIFICATION_COMPLETED"
    case AuthorizationDenied => "AUTHORIZATION_DENIED"
    case RateLimitExceeded => "RATE_LIMIT_EXCEEDED"
    case WebhookSignatureInvalid => "WEBHOOK_SIGNATURE_INVALID"
  }

  /** A token (section 5.6.2 of RFC 9110), so without a comma. */
  type HttpMethod = m: string | ',' !in m witness "GET"

  predicate IsOtherName(name: string) {
    '{' !in name && name !in [REQUESTS_TOTAL, REQUEST_ERRORS_TOTAL, REQUEST_DURATION_MS, SECURITY_EVENTS_TOTAL]
  }

  /** A call to the registry for a metric of its own, with any labels. */
  type OtherCall = u: Update | IsOtherName(u.name) witness Counted("", [])

  /** A finished request, a security event that was emitted, or any other service's call. */
  datatype Event =
    | Request(route: string, httpMethod: HttpMethod, status: nat, ms: int)
    | Security(event: SecurityEventType)
    | Other(call: OtherCall)

  /** What the outbox, e-mail, refund and payment services count. */
  datatype Failure =
    | OutboxFailed | EmailDeliveryFailed | RefundFailed | RefundUnknown | PaymentFailed | WebhookRejected

  function FailureName(f: Failure): string {
    match f
    case OutboxFailed => "outbox_failed_total"
    case EmailDeliveryFailed => "email_delivery_failed_total"
    case RefundFailed => "refund_failures_total"
    case RefundUnknown => "refund_unknown_total"
    case PaymentFailed => "payment_failures_total"
    case WebhookRejected => "webhook_failures_total"
  }

  function FailureLabels(f: Failure): seq<Label> {
    if f.WebhookRejected? then [Label("provider", "razorpay"), Label("reason", "invalid_signature")] else []
  }

  function FailureCall(f: Failure): Update {
    Counted(FailureName(f), FailureLabels(f))
  }

  /** `${Math.floor(statusCode / 100)}xx` */
  function StatusClass(status: nat): string {
    Decimal(status / 100) + "xx"
  }

  function RouteLabels(httpMethod: HttpMethod, route: string): seq<Label> {
    [Label("method", httpMethod), Label("route", route)]
  }

  function StatusLabels(httpMethod: HttpMethod, route: string, statusClass: string): seq<Label> {
    [Label("method", httpMethod), Label("route", route), Label("status", statusClass)]
  }

  function EventLabels(e: SecurityEventType): seq<Label> {
    [Label("event", EventName(e))]
  }

  /** The calls that one event makes, in order. */
  function UpdatesOf(e: Event): seq<Update> {
    match e
    case Request(route, httpMethod, status, ms) =>
      [Counted(REQUESTS_TOTAL, StatusLabels(httpMethod, route, StatusClass(status)))]
      + (if status >= 500 then [Counted(REQUEST_ERRORS_TOTAL, RouteLabels(httpMethod, route))] else [])
      + [Timed(REQUEST_DURATION_MS, RouteLabels(httpMethod, route), ms)]
    case Security(event) => [Counted(SECURITY_EVENTS_TOTAL, EventLabels(event))]
    case Other(call) => [call]
  }

  function LogOf(events: seq<Event>): seq<Update> {
    if events == [] then [] else LogOf(events[..|events| - 1]) + UpdatesOf(events[|events| - 1])
  }
}
