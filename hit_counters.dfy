/**
 The node-local activity counters of the cluster sample application.

 Two module-level counters live in the server process: the main page counter,
 which starts at 1, and the health-check counter, which starts at 0. The `/`
 handler builds the page from the current counters and only then adds one to
 the page counter; the `/healthcheck` handler answers "OK" and adds one to the
 health-check counter.

 The functions below state the behaviour over a whole sequence of requests;
 the class `Counters` is the mutable state the handlers update in place and is
 proved to follow those functions.
 */
module HitCounters {

  import opened NetworkAddresses

  /** The two kinds of request that touch the counters; `MainPage` is a page that was built and sent. */
  datatype Request = MainPage | HealthCheck

  /** The values of the two counters at one moment. */
  datatype Tally = Tally(pageHits: nat, healthHits: nat)

  /** The counters when the process starts. */
  const Initial: Tally := Tally(1, 0)

  /** The effect of serving one request on the counters. */
  function Step(t: Tally, r: Request): Tally
  {
    match r
    case MainPage => Tally(t.pageHits + 1, t.healthHits)
    case HealthCheck => Tally(t.pageHits, t.healthHits + 1)
  }

  /** The counters after serving `trace`, oldest request first, from the start of the process. */
  function Run(trace: seq<Request>): Tally
  {
    if trace == [] then Initial
    else Step(Run(trace[..|trace| - 1]), trace[|trace| - 1])
  }

  /**
   The counters displayed by each main page served in `trace`, in order.
   The page is built before the increment, so it shows the counters as they
   were just before that request.
   */
  function Shown(trace: seq<Request>): seq<Tally>
  {
    if trace == [] then []
    else
      var before := trace[..|trace| - 1];
      Shown(before) + (if trace[|trace| - 1] == MainPage then [Run(before)] else [])
  }

  /**
   After any sequence of requests the page counter is one more than the number
   of pages served and the health counter is the number of health checks served:
   no request is lost and none is counted twice.
   */
  lemma {:induction false} RunCounts(trace: seq<Request>)
    ensures Run(trace) == Tally(1 + multiset(trace)[MainPage], multiset(trace)[HealthCheck])
  {
    if trace != [] {
      var before := trace[..|trace| - 1];
      assert trace == before + [trace[|trace| - 1]];
      assert multiset(trace) == multiset(before) + multiset{trace[|trace| - 1]};
      RunCounts(before);
    }
  }

  /**
   One tally is shown per main page served, and the n-th main page served
   (counting from 1) displays a page counter of exactly n.
   */
  lemma {:induction false} NthVisitShowsN(trace: seq<Request>)
    ensures |Shown(trace)| == multiset(trace)[MainPage]
    ensures forall k :: 0 <= k < |Shown(trace)| ==> Shown(trace)[k].pageHits == k + 1
  {
    if trace != [] {
      var before := trace[..|trace| - 1];
      assert trace == before + [trace[|trace| - 1]];
      assert multiset(trace) == multiset(before) + multiset{trace[|trace| - 1]};
      NthVisitShowsN(before);
      RunCounts(before);
    }
  }

  /**
   Both counters never decrease as more requests are served, and never drop
   below their initial values.
   */
  lemma RunMonotone(trace: seq<Request>, more: seq<Request>)
    ensures Initial.pageHits <= Run(trace).pageHits <= Run(trace + more).pageHits
    ensures Initial.healthHits <= Run(trace).healthHits <= Run(trace + more).healthHits
  {
    assert multiset(trace + more) == multiset(trace) + multiset(more);
    RunCounts(trace);
    RunCounts(trace + more);
  }

  /**
   Serving more requests never rewrites what earlier pages displayed: the
   tallies shown so far are a prefix of those shown later.
   */
  lemma {:induction false} ShownExtends(trace: seq<Request>, more: seq<Request>)
    ensures Shown(trace) <= Shown(trace + more)
    decreases |more|
  {
    if more != [] {
      var shorter := more[..|more| - 1];
      assert (trace + more)[..|trace + more| - 1] == trace + shorter;
      ShownExtends(trace, shorter);
    } else {
      assert trace + more == trace;
    }
  }

  /**
   The counters of one server process. `served` is the history of requests
   handled so far; it exists only for the proof.
   */
  class Counters {
    var mainPageHits: nat
    var healthCheckHits: nat
    ghost var served: seq<Request>

    /** The counters agree with the requests served so far. */
    ghost predicate Valid()
      reads this
    {
      Tally(mainPageHits, healthCheckHits) == Run(served)
    }

    /** The current values of the counters. */
    function State(): Tally
      reads this
    {
      Tally(mainPageHits, healthCheckHits)
    }

    /** Process start: the page counter is 1 and the health counter is 0. */
    constructor ()
      ensures Valid() && served == []
      ensures mainPageHits == 1 && healthCheckHits == 0
    {
      mainPageHits := 1;
      healthCheckHits := 0;
      served := [];
    }

    /**
     The `/` handler. `built` says whether building the page succeeded: it
     queries the network interfaces, and that query can throw. When it throws
     the handler stops before the increment, nothing is displayed and neither
     counter changes. Otherwise it returns the counters the page displays,
     which are the counters before this request, then adds one to the page
     counter.
     */
    method HandleMainPage(built: bool) returns (shown: Option<Tally>)
      requires Valid()
      modifies this
      ensures Valid()
      ensures !built ==> shown == None && served == old(served) && State() == old(State())
      ensures built ==> shown == Some(old(State())) && served == old(served) + [MainPage]
      ensures built ==> mainPageHits == old(mainPageHits) + 1 && healthCheckHits == old(healthCheckHits)
      ensures built ==> Shown(served) == old(Shown(served)) + [shown.value]
      ensures built ==> shown.value.pageHits == |Shown(served)|
    {
      if !built {
        return None;
      }
      shown := Some(Tally(mainPageHits, healthCheckHits));
      mainPageHits := mainPageHits + 1;
      served := served + [MainPage];
      assert served[..|served| - 1] == old(served);
      NthVisitShowsN(old(served));
      RunCounts(old(served));
    }

    /** The `/healthcheck` handler: answers "OK", then adds one to the health counter. */
    method HandleHealthCheck() returns (body: string)
      requires Valid()
      modifies this
      ensures Valid() && served == old(served) + [HealthCheck]
      ensures body == "OK"
      ensures healthCheckHits == old(healthCheckHits) + 1 && mainPageHits == old(mainPageHits)
      ensures Shown(served) == old(Shown(served))
    {
      body := "OK";
      healthCheckHits := healthCheckHits + 1;
      served := served + [HealthCheck];
      assert served[..|served| - 1] == old(served);
    }
  }
}
