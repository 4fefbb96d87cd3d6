/**
 * The visit counter: the file-server middleware counts every request it
 * passes on, the reset handler sets the count to zero and the metrics
 * handler reports it as plain text.
 */
module Metrics {
  import opened Wrappers
  import opened Decimal

  /** What happens to the counter: a request through the middleware, or a
      call of the reset handler. */
  datatype Event = Request | Reset

  /** The counter after one event. */
  function Step(hits: int, e: Event): int {
    match e
    case Request => hits + 1
    case Reset => 0
  }

  /** The counter after a run of events, oldest first. */
  function Replay(hits: int, events: seq<Event>): int {
    if |events| == 0 then hits
    else Step(Replay(hits, events[..|events| - 1]), events[|events| - 1])
  }

  /** The position of the last reset, or -1 when there is none. */
  function LastReset(events: seq<Event>): (i: int)
    ensures -1 <= i < |events|
    ensures i >= 0 ==> events[i] == Reset
    ensures forall j :: i < j < |events| ==> events[j] == Request
  {
    if |events| == 0 then -1
    else if events[|events| - 1] == Reset then |events| - 1
    else
      var earlier := events[..|events| - 1];
      var i := LastReset(earlier);
      assert forall j :: i < j < |earlier| ==> events[j] == earlier[j];
      assert events[|earlier|] == Request;
      i
  }

  const HitsPrefix: string := "Hits: "

  /** The body the metrics handler writes for a count. */
  function HitsReport(hits: int): string {
    HitsPrefix + Itoa(hits)
  }

  class ApiConfig {
    var fileserverHits: int

    constructor ()
      ensures fileserverHits == 0
    {
      fileserverHits := 0;
    }

    /** Counts one request on its way to the wrapped file server. */
    method MiddlewareIncrementMetrics()
      modifies this
      ensures fileserverHits == Step(old(fileserverHits), Request)
    {
      fileserverHits := fileserverHits + 1;
    }

    /** A GET is answered with `Hits: n` for the current count, which reads
        back as that count; any other method gets no body. */
    method ApiMetrics(httpMethod: string) returns (body: Option<string>)
      ensures body.Some? <==> httpMethod == "GET"
      ensures body.Some? ==>
        && |body.value| > |HitsPrefix|
        && body.value[..|HitsPrefix|] == HitsPrefix
        && ParseDecimal(body.value[|HitsPrefix|..]) == Some(fileserverHits)
    {
      if httpMethod == "GET" {
        var report := HitsReport(fileserverHits);
        ParseItoa(fileserverHits);
        assert report[|HitsPrefix|..] == Itoa(fileserverHits);
        return Some(report);
      }
      return None;
    }

    method ResetMetrics()
      modifies this
      ensures fileserverHits == Step(old(fileserverHits), Reset)
    {
      fileserverHits := 0;
    }
  }

  /** The counter equals the number of requests since the last reset, or,
      when there was none, the starting count plus all requests. */
  lemma {:induction false} ReplayCountsSinceLastReset(hits: int, events: seq<Event>)
    ensures var i := LastReset(events);
      Replay(hits, events) == (if i < 0 then hits else 0) + (|events| - 1 - i)
  {
    if |events| > 0 {
      var n := |events| - 1;
      ReplayCountsSinceLastReset(hits, events[..n]);
      if events[n] == Request {
        assert LastReset(events) == LastReset(events[..n]);
      }
    }
  }

  /** From a fresh configuration, `n` requests give a count of `n`, and a
      reset brings it back to zero whatever came before. */
  lemma CountFromStart(events: seq<Event>)
    ensures (forall j :: 0 <= j < |events| ==> events[j] == Request) ==> Replay(0, events) == |events|
    ensures |events| > 0 && events[|events| - 1] == Reset ==> Replay(0, events) == 0
  {
    ReplayCountsSinceLastReset(0, events);
  }
}
