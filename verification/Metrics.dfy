/**
 The metrics registry (apps/api/src/common/metrics/metrics.service.ts) and two of the services
 that feed it: the request interceptor (apps/api/src/common/interceptors/request-logging.interceptor.ts)
 and the security events (apps/api/src/common/security/security-events.service.ts).
 */
module Metrics {
  import opened Averages
  import opened Doubles
  import opened MetricKeys
  import opened MetricLogs

  class MetricsService {
    const less: Order
    var counters: map<string, int>
    var durationSumMs: map<string, int>
    var durationCount: map<string, int>
    ghost var log: seq<Update>

    ghost predicate Valid()
      reads this
    {
      && counters == CountersOf(log, less)
      && durationSumMs == SumsOf(log, less)
      && durationCount == CountsOf(log, less)
    }

    constructor (less: Order)
      ensures Valid() && log == [] && this.less == less
    {
      this.less := less;
      counters, durationSumMs, durationCount := map[], map[], map[];
      log := [];
    }

    method IncrementCounter(name: string, labels: seq<Label>)
      requires Valid()
      modifies this
      ensures Valid() && log == old(log) + [Counted(name, labels)]
    {
      var key := Key(name, labels, less);
      counters := counters[key := (if key in counters then counters[key] else 0) + 1];
      AppendOne(log, Counted(name, labels), less);
      log := log + [Counted(name, labels)];
    }

    method RecordDuration(name: string, labels: seq<Label>, durationMs: int)
      requires Valid()
      modifies this
      ensures Valid() && log == old(log) + [Timed(name, labels, durationMs)]
    {
      var key := Key(name, labels, less);
      AppendOne(log, Timed(name, labels, durationMs), less);
      durationSumMs := durationSumMs[key := (if key in durationSumMs then durationSumMs[key] else 0) + durationMs];
      durationCount := durationCount[key := (if key in durationCount then durationCount[key] else 0) + 1];
      assert durationSumMs == Bump(SumsOf(log, less), key, durationMs);
      assert durationCount == Bump(CountsOf(log, less), key, 1);
      log := log + [Timed(name, labels, durationMs)];
    }

    /** `fl` is the rounding to doubles; see `IsMean` for what an average is. */
    method Snapshot(fl: real -> real) returns (allCounters: map<string, int>, averages: map<string, real>)
      requires Valid() && RoundsToDoubles(fl)
      ensures allCounters == CountersOf(log, less)
      ensures averages.Keys == SumsOf(log, less).Keys == CountsOf(log, less).Keys
      ensures forall k :: k in averages ==> IsMean(fl, averages[k], SumsOf(log, less)[k], CountsOf(log, less)[k])
    {
      SumsAndCountsAgree(log, less);
      averages := map[];
      var left := durationSumMs.Keys;
      while left != {}
        invariant left <= durationSumMs.Keys && averages.Keys == durationSumMs.Keys - left
        invariant forall k :: k in averages ==> IsMean(fl, averages[k], durationSumMs[k], durationCount[k])
        decreases left
      {
        var key :| key in left;
        var sum := durationSumMs[key];
        var count := if key in durationCount then durationCount[key] else 1;
        var average := AverageMs(fl, sum, count);
        AverageIsMean(fl, sum, count);
        averages := averages[key := average];
        left := left - {key};
      }
      allCounters := counters;
    }
  }

  class RequestLoggingInterceptor {
    const metrics: MetricsService

    constructor (metrics: MetricsService)
      ensures this.metrics == metrics
    {
      this.metrics := metrics;
    }

    method Finish(httpMethod: HttpMethod, routeTemplate: string, statusCode: nat, durationMs: int)
      requires metrics.Valid()
      modifies metrics
      ensures metrics.Valid()
      ensures metrics.log == old(metrics.log) + UpdatesOf(Request(routeTemplate, httpMethod, statusCode, durationMs))
    {
      var statusClass := StatusClass(statusCode);
      metrics.IncrementCounter("http_requests_total", StatusLabels(httpMethod, routeTemplate, statusClass));
      if statusCode >= 500 {
        metrics.IncrementCounter("http_request_errors_total", RouteLabels(httpMethod, routeTemplate));
      }
      metrics.RecordDuration("http_request_duration_ms", RouteLabels(httpMethod, routeTemplate), durationMs);
    }
  }

  class SecurityEventsService {
    const metrics: MetricsService

    constructor (metrics: MetricsService)
      ensures this.metrics == metrics
    {
      this.metrics := metrics;
    }

    method Emit(event: SecurityEventType)
      requires metrics.Valid()
      modifies metrics
      ensures metrics.Valid() && metrics.log == old(metrics.log) + UpdatesOf(Security(event))
    {
      metrics.IncrementCounter("security_events_total", EventLabels(event));
    }
  }

  /** Feeds a run of events to a fresh registry, in order. */
  method Replay(events: seq<Event>, less: Order) returns (metrics: MetricsService)
    ensures fresh(metrics) && metrics.Valid() && metrics.less == less && metrics.log == LogOf(events)
  {
    metrics := new MetricsService(less);
    var interceptor := new RequestLoggingInterceptor(metrics);
    var security := new SecurityEventsService(metrics);
    for k := 0 to |events|
      invariant interceptor.metrics == security.metrics == metrics
      invariant metrics.Valid() && metrics.log == LogOf(events[..k])
    {
      assert events[..k + 1][..k] == events[..k];
      match events[k]
      case Request(route, httpMethod, status, ms) => interceptor.Finish(httpMethod, route, status, ms);
      case Security(event) => security.Emit(event);
      case Other(Counted(name, labels)) => metrics.IncrementCounter(name, labels);
      case Other(Timed(name, labels, ms)) => metrics.RecordDuration(name, labels, ms);
    }
    assert events[..|events|] == events;
  }
}
