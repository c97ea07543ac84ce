/** The servlet filter: the request-count cache updated in place, the
    response it marks on rejection, and the chain it always continues. */
module Filter {
  import opened RequestGate

  /** HttpStatus.OK, the status a response starts with. */
  const Ok: int := 200

  /** HttpStatus.TOO_MANY_REQUESTS. */
  const TooManyRequests: int := 429

  /** The fixed text written on rejection (the placeholder is sent as is). */
  const RateLimitMessage: string := "Rate limit exceeded. Try again in #{n} seconds."

  /** The HTTP response as the filter sees it: a status and the text
      written through its writer. */
  class Response {
    var status: int
    var body: string

    constructor ()
      ensures status == Ok && body == ""
    {
      status := Ok;
      body := "";
    }

    method SetStatus(code: int)
      modifies this
      ensures status == code && body == old(body)
    {
      status := code;
    }

    /** getWriter().write(text): the text is appended to the body. */
    method Write(text: string)
      modifies this
      ensures body == old(body) + text && status == old(status)
    {
      body := body + text;
    }
  }

  /** The remainder of the filter chain. Downstream behaviour is not part of
      this model; the chain only records each response it is handed. */
  class FilterChain {
    var forwarded: seq<Response>

    constructor ()
      ensures forwarded == []
    {
      forwarded := [];
    }

    method DoFilter(response: Response)
      modifies this
      ensures forwarded == old(forwarded) + [response]
    {
      forwarded := forwarded + [response];
    }
  }

  /** The rate-limiting filter. The cache holds one count per key; only
      KeyName is used. */
  class FilterRequest {
    const maxRequestsPerHour: nat
    var requestCounts: Store

    /** The filter as the application builds it: maximum 3, empty cache. */
    constructor ()
      ensures maxRequestsPerHour == DefaultMaxRequestsPerHour
      ensures requestCounts == map[]
    {
      maxRequestsPerHour := DefaultMaxRequestsPerHour;
      requestCounts := map[];
    }

    /** A filter with another maximum and a preloaded cache, as the tests
        set it up. */
    constructor WithState(max: nat, counts: Store)
      ensures maxRequestsPerHour == max
      ensures requestCounts == counts
    {
      maxRequestsPerHour := max;
      requestCounts := counts;
    }

    /** isMaximumRequestsPerHourExceeded. `loadFails` stands for the cache
        load throwing ExecutionException. */
    method IsMaximumRequestsPerHourExceeded(loadFails: bool) returns (exceeded: bool)
      modifies this
      ensures exceeded <==> !loadFails && Read(old(requestCounts)) >= maxRequestsPerHour
      ensures loadFails ==> requestCounts == old(requestCounts)
      ensures !loadFails ==> requestCounts == old(requestCounts)[KeyName := Read(old(requestCounts)) + 1]
      ensures Outcome(exceeded, requestCounts) == Check(old(requestCounts), maxRequestsPerHour, loadFails)
    {
      if loadFails {
        exceeded := false;
      } else {
        var requests := Read(requestCounts);
        exceeded := requests >= maxRequestsPerHour;
        requests := requests + 1;
        requestCounts := requestCounts[KeyName := requests];
      }
    }

    /** doFilter: on rejection the response gets status 429 and the fixed
        message; in both cases the chain is continued exactly once with the
        same response. */
    method DoFilter(response: Response, chain: FilterChain, loadFails: bool)
      modifies this, response, chain
      ensures requestCounts == Check(old(requestCounts), maxRequestsPerHour, loadFails).store
      ensures Check(old(requestCounts), maxRequestsPerHour, loadFails).exceeded ==>
                response.status == TooManyRequests && response.body == old(response.body) + RateLimitMessage
      ensures !Check(old(requestCounts), maxRequestsPerHour, loadFails).exceeded ==>
                response.status == old(response.status) && response.body == old(response.body)
      ensures chain.forwarded == old(chain.forwarded) + [response]
    {
      var exceeded := IsMaximumRequestsPerHourExceeded(loadFails);
      if exceeded {
        response.SetStatus(TooManyRequests);
        response.Write(RateLimitMessage);
      }
      chain.DoFilter(response);
    }

    /** The cache evicting the bucket after an hour without access. */
    method Expire()
      modifies this
      ensures requestCounts == Evict(old(requestCounts))
    {
      requestCounts := requestCounts - {KeyName};
    }
  }

  /** One request through a filter whose cache already holds `preloaded`,
      as in the three filter tests: 429 exactly when the count read has
      reached the maximum, 200 otherwise, and the chain runs once. */
  method FilterPreloaded(max: nat, preloaded: nat) returns (status: int, body: string, chainCalls: nat)
    ensures status == (if preloaded >= max then TooManyRequests else Ok)
    ensures body == (if preloaded >= max then RateLimitMessage else "")
    ensures chainCalls == 1
  {
    var filter := new FilterRequest.WithState(max, map[KeyName := preloaded]);
    var response := new Response();
    var chain := new FilterChain();
    filter.DoFilter(response, chain, false);
    status, body, chainCalls := response.status, response.body, |chain.forwarded|;
  }

  /** A sequence of requests through a filter built with an empty cache, each
      on a fresh response; fails[i] says whether the i-th load throws. The
      statuses follow the decisions of the gate, so a request is answered 429
      exactly when its load succeeds and at least max earlier loads have. */
  method ServeFresh(max: nat, fails: seq<bool>) returns (statuses: seq<int>)
    ensures |statuses| == |fails|
    ensures forall i :: 0 <= i < |fails| ==>
              statuses[i] == (if Decisions(map[], max, fails)[i] then TooManyRequests else Ok)
    ensures forall i :: 0 <= i < |fails| ==>
              (statuses[i] == TooManyRequests <==> !fails[i] && Successes(fails[..i]) >= max)
  {
    var filter := new FilterRequest.WithState(max, map[]);
    var chain := new FilterChain();
    statuses := [];
    var i := 0;
    while i < |fails|
      invariant 0 <= i <= |fails|
      invariant filter.maxRequestsPerHour == max
      invariant filter.requestCounts == After(map[], max, fails[..i])
      invariant |statuses| == i
      invariant forall k :: 0 <= k < i ==>
                  statuses[k] == (if Decisions(map[], max, fails[..i])[k] then TooManyRequests else Ok)
    {
      var response := new Response();
      RunSnoc(map[], max, fails[..i], fails[i]);
      assert fails[..i + 1] == fails[..i] + [fails[i]];
      filter.DoFilter(response, chain, fails[i]);
      statuses := statuses + [response.status];
      i := i + 1;
    }
    assert fails[..i] == fails;
    forall j | 0 <= j < |fails|
      ensures statuses[j] == TooManyRequests <==> !fails[j] && Successes(fails[..j]) >= max
    {
      DecisionAt(map[], max, fails, j);
    }
  }
}
