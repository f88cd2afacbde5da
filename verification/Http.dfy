/** Failover, broadcast and submit-only ejection of the terminus HTTP client, and the
    validation of the settings it runs under. One attempt is atomic and is given by
    its outcome. */
module Http {

  type Url = string

  import opened Options

  datatype Response = Response(code: int, jsonBody: bool, body: string)

  /** What calling the callback on one URL comes to. `Failed` is an exception that is
      logged and returned; `Fatal` one that is raised again. `ErrorResponse` is a
      response carried by an exception. */
  datatype Attempt = Timeout | Failed | Fatal | ErrorResponse(response: Response) | Returned(response: Response)

  datatype Problem = ServerError | NotFound | Other404

  datatype Result = Success(response: Response) | NotFoundError | RequestError | Raised

  /** `check_http_response`. */
  function Check(r: Response): Option<Problem> {
    if r.code >= 500 then Some(ServerError)
    else if r.code == 404 then Some(if r.jsonBody then NotFound else Other404)
    else None
  }

  predicate HasResponse(a: Attempt) { a.Returned? || a.ErrorResponse? }

  predicate Succeeds(a: Attempt) { HasResponse(a) && Check(a.response) == None }

  // ---------------------------------------------------------------------------
  // What outlives a request
  // ---------------------------------------------------------------------------

  /** Which submit-only URLs are left, and which of them timed out last time. */
  datatype Hosts = Hosts(submitOnly: seq<Url>, flagged: set<Url>)

  function Without(urls: seq<Url>, url: Url): (r: seq<Url>)
    ensures forall u :: u in r <==> u in urls && u != url
  {
    if urls == [] then []
    else Without(urls[..|urls| - 1], url) + (if urls[|urls| - 1] == url then [] else [urls[|urls| - 1]])
  }

  /** The effect of one attempt: a callback that returns clears the flag, a timeout
      sets it, and a timeout under the flag drops the URL. */
  function AfterAttempt(h: Hosts, url: Url, a: Attempt): Hosts {
    if url !in h.submitOnly then h
    else if a.Returned? then h.(flagged := h.flagged - {url})
    else if !a.Timeout? then h
    else if url in h.flagged then Hosts(Without(h.submitOnly, url), h.flagged - {url})
    else h.(flagged := h.flagged + {url})
  }

  function AfterAttempts(h: Hosts, urls: seq<Url>, env: seq<Attempt>): Hosts
    requires |urls| == |env|
  {
    if urls == [] then h
    else AfterAttempt(AfterAttempts(h, urls[..|urls| - 1], env[..|env| - 1]), urls[|urls| - 1], env[|env| - 1])
  }

  // ---------------------------------------------------------------------------
  // The loops, in terms of the outcomes
  // ---------------------------------------------------------------------------

  /** The problem of the last attempt that had a response. */
  function LastProblem(env: seq<Attempt>): Option<Problem> {
    if env == [] then None
    else if HasResponse(env[|env| - 1]) then Check(env[|env| - 1].response)
    else LastProblem(env[..|env| - 1])
  }

  /** `raise_request_error`. */
  function ErrorOf(env: seq<Attempt>): Result {
    if LastProblem(env) == Some(NotFound) then NotFoundError else RequestError
  }

  /** Where failover stops: at the first success or fatal exception. */
  function FirstStop(env: seq<Attempt>): (k: nat)
    ensures k <= |env| && (k < |env| ==> Succeeds(env[k]) || env[k].Fatal?)
    ensures forall i :: 0 <= i < k ==> !Succeeds(env[i]) && !env[i].Fatal?
  {
    if env == [] || Succeeds(env[0]) || env[0].Fatal? then 0 else 1 + FirstStop(env[1..])
  }

  function FailoverResult(env: seq<Attempt>): Result {
    var k := FirstStop(env);
    if k == |env| then ErrorOf(env) else if env[k].Fatal? then Raised else Success(env[k].response)
  }

  /** How many attempts failover makes. */
  function Tries(env: seq<Attempt>): (n: nat)
    ensures n <= |env|
  {
    if FirstStop(env) < |env| then FirstStop(env) + 1 else |env|
  }

  function TryOrder(count: nat, start: nat): (order: seq<nat>)
    ensures |order| == count
  {
    seq(count, i requires 0 <= i < count => (i + start) % count)
  }

  /** The URLs of the first `n` attempts. */
  function Tried(urls: seq<Url>, start: nat, n: nat): (r: seq<Url>)
    requires n <= |urls|
    ensures |r| == n
  {
    if n == 0 then [] else Tried(urls, start, n - 1) + [urls[TryOrder(|urls|, start)[n - 1]]]
  }

  /** Attempts are made up to and including a fatal one. */
  function BroadcastTries(env: seq<Attempt>): (n: nat)
    ensures n <= |env|
    ensures n < |env| ==> n > 0 && env[n - 1].Fatal?
    ensures forall i :: 0 <= i < n - 1 ==> !env[i].Fatal?
  {
    if env == [] then 0 else if env[0].Fatal? then 1 else 1 + BroadcastTries(env[1..])
  }

  function Successes(env: seq<Attempt>): nat {
    if env == [] then 0 else Successes(env[..|env| - 1]) + (if Succeeds(env[|env| - 1]) then 1 else 0)
  }

  function LastSuccess(env: seq<Attempt>): Option<Response> {
    if env == [] then None
    else if Succeeds(env[|env| - 1]) then Some(env[|env| - 1].response) else LastSuccess(env[..|env| - 1])
  }

  function BroadcastResult(env: seq<Attempt>, min: int): Result {
    if exists k :: 0 <= k < |env| && env[k].Fatal? then Raised
    else if Successes(env) < min || LastSuccess(env).None? then ErrorOf(env)
    else Success(LastSuccess(env).value)
  }

  // ---------------------------------------------------------------------------
  // The client
  // ---------------------------------------------------------------------------

  datatype Config = Config(serverUrls: seq<Url>, submitOnlyUrls: seq<Url>, minSuccessful: int,
                           commandBroadcast: bool, stickyReadFailover: bool, softWriteFailure: bool)

  class Client {
    const config: Config
    var lastGoodIndex: nat           // of the last good query server, or so it is named
    var submitOnlyUrls: seq<Url>     // the live list in the configuration
    var timeouts: map<Url, bool>

    constructor (config: Config)
      ensures this.config == config && lastGoodIndex == 0
      ensures View() == Hosts(config.submitOnlyUrls, {})
    {
      this.config := config;
      lastGoodIndex, submitOnlyUrls, timeouts := 0, config.submitOnlyUrls, map[];
    }

    ghost function View(): Hosts
      reads this
    {
      Hosts(submitOnlyUrls, set u | u in timeouts && timeouts[u])
    }

    lemma ViewIs()
      ensures View().submitOnly == submitOnlyUrls
    {}

    /** `check_for_repeated_timeout`. */
    method CheckForRepeatedTimeout(url: Url)
      modifies this`submitOnlyUrls, this`timeouts
      ensures View() == AfterAttempt(old(View()), url, Timeout)
    {
      if url in submitOnlyUrls {
        if url in timeouts && timeouts[url] {
          submitOnlyUrls := Without(submitOnlyUrls, url);
          timeouts := timeouts[url := false];
        } else {
          timeouts := timeouts[url := true];
        }
      }
    }

    /** `with_http_error_logging` around one call: the response, or nothing when an
        exception was returned; `raised` when it was not caught but raised again. */
    method Try(url: Url, a: Attempt) returns (response: Option<Response>, raised: bool)
      modifies this`submitOnlyUrls, this`timeouts
      ensures View() == AfterAttempt(old(View()), url, a)
      ensures response == if HasResponse(a) then Some(a.response) else None
      ensures raised <==> a.Fatal?
    {
      response, raised := None, false;
      match a
      case Timeout => CheckForRepeatedTimeout(url);
      case Failed =>
      case Fatal => raised := true;
      case ErrorResponse(r) => response := Some(r);
      case Returned(r) =>
        if url in submitOnlyUrls { timeouts := timeouts[url := false]; }
        response := Some(r);
    }

    /** `failover_action`; `env[k]` is the outcome of the `k`-th attempt. */
    method Failover(urls: seq<Url>, sticky: bool, env: seq<Attempt>) returns (result: Result, attempted: seq<Url>)
      requires |env| == |urls|
      modifies this
      ensures result == FailoverResult(env)
      ensures var start, k := if sticky then old(lastGoodIndex) else 0, FirstStop(env);
        && attempted == Tried(urls, start, Tries(env))
        && View() == AfterAttempts(old(View()), attempted, env[..Tries(env)])
        && lastGoodIndex == if 0 < k < |env| && Succeeds(env[k]) then TryOrder(|urls|, start)[k] else old(lastGoodIndex)
    {
      hide AfterAttempts, LastProblem, TryOrder, FirstStop, Check;
      var start := if sticky then lastGoodIndex else 0;
      var order := TryOrder(|urls|, start);
      var response: Option<Response>, responseError: Option<Problem> := None, None;
      attempted := [];
      StartAttempts(View(), env);
      for k := 0 to |order|
        invariant k <= FirstStop(env) && lastGoodIndex == old(lastGoodIndex)
        invariant attempted == Tried(urls, start, k)
        invariant View() == AfterAttempts(old(View()), attempted, env[..k])
        invariant responseError == LastProblem(env[..k]) && (response.Some? ==> responseError.Some?)
      {
        OrderIsDistinct(|urls|, start, 0, k);
        var url, a := urls[order[k]], env[k];
        NextAttempt(old(View()), attempted, url, env, k);
        attempted := attempted + [url];
        var r, raised := Try(url, a);
        if raised { return Raised, attempted; }
        if r.Some? {
          response := r;
          responseError := Check(r.value);
          if responseError.None? {
            if order[k] != order[0] { lastGoodIndex := order[k]; }
            return Success(r.value), attempted;
          }
        }
      }
      assert env[..|env|] == env;
      result := if responseError == Some(NotFound) then NotFoundError else RequestError;
    }

    /** `broadcast_action`. */
    method Broadcast(urls: seq<Url>, env: seq<Attempt>) returns (result: Result, attempted: seq<Url>)
      requires |env| == |urls|
      modifies this`submitOnlyUrls, this`timeouts
      ensures result == BroadcastResult(env, config.minSuccessful)
      ensures attempted == urls[..BroadcastTries(env)]
      ensures View() == AfterAttempts(old(View()), attempted, env[..BroadcastTries(env)])
    {
      hide AfterAttempts, LastProblem, Check, BroadcastTries, Successes, LastSuccess;
      var responseError: Option<Problem>, lastSuccess: Option<Response> := None, None;
      var count := 0;
      attempted := [];
      StartAttempts(View(), env);
      for k := 0 to |urls|
        invariant forall i :: 0 <= i < k ==> !env[i].Fatal?
        invariant attempted == urls[..k] && View() == AfterAttempts(old(View()), attempted, env[..k])
        invariant responseError == LastProblem(env[..k])
        invariant count == Successes(env[..k]) && lastSuccess == LastSuccess(env[..k])
      {
        var url, a := urls[k], env[k];
        NextAttempt(old(View()), attempted, url, env, k);
        attempted := attempted + [url];
        var r, raised := Try(url, a);
        if raised {
          StopsAtFatal(env, k);
          return Raised, attempted;
        }
        if r.Some? {
          responseError := Check(r.value);
          if responseError.None? {
            count := count + 1;
            lastSuccess := r;
          }
        }
      }
      NoFatal(env);
      assert env[..|env|] == env && urls[..|urls|] == urls;
      if count < config.minSuccessful || lastSuccess.None? {
        result := if responseError == Some(NotFound) then NotFoundError else RequestError;
      } else {
        result := Success(lastSuccess.value);
      }
    }

    /** `action` in query mode. */
    method Query(env: seq<Attempt>) returns (result: Result, attempted: seq<Url>)
      requires |env| == |config.serverUrls|
      modifies this
      ensures Memory(lastGoodIndex, View()) == AfterRequest(config, old(Memory(lastGoodIndex, View())), Asking(env))
      ensures (result, attempted) == ResultOf(config, old(Memory(lastGoodIndex, View())), Asking(env))
    {
      hide AfterAttempts, FailoverResult, BroadcastResult, Tried, FirstStop, Tries, TryOrder, Succeeds;
      hide AfterRequest, ResultOf, View;
      FailoverIs(config, Memory(lastGoodIndex, View()), Asking(env));
      result, attempted := Failover(config.serverUrls, config.stickyReadFailover, env);
    }

    /** `action` in command mode: broadcast or failover over both lists. */
    method Command(env: seq<Attempt>) returns (result: Result, attempted: seq<Url>)
      requires |env| == |config.serverUrls + submitOnlyUrls|
      modifies this
      ensures Memory(lastGoodIndex, View()) == AfterRequest(config, old(Memory(lastGoodIndex, View())), Sending(env))
      ensures (result, attempted) == ResultOf(config, old(Memory(lastGoodIndex, View())), Sending(env))
    {
      hide AfterAttempts, FailoverResult, BroadcastResult, Tried, FirstStop, Tries, TryOrder, Succeeds;
      hide AfterRequest, ResultOf, View;
      var urls := config.serverUrls + submitOnlyUrls;
      ghost var m := Memory(lastGoodIndex, View());
      ViewIs();
      if config.commandBroadcast {
        BroadcastIs(config, m, Sending(env));
        result, attempted := Broadcast(urls, env);
      } else {
        FailoverIs(config, m, Sending(env));
        result, attempted := Failover(urls, false, env);
      }
    }
  }

  lemma StartAttempts(h: Hosts, env: seq<Attempt>)
    ensures AfterAttempts(h, [], env[..0]) == h && LastProblem(env[..0]) == None
    ensures Successes(env[..0]) == 0 && LastSuccess(env[..0]) == None
  {}

  lemma NextAttempt(h: Hosts, urls: seq<Url>, url: Url, env: seq<Attempt>, k: nat)
    requires k < |env| && |urls| == k
    ensures AfterAttempts(h, urls + [url], env[..k + 1]) == AfterAttempt(AfterAttempts(h, urls, env[..k]), url, env[k])
    ensures LastProblem(env[..k + 1]) == if HasResponse(env[k]) then Check(env[k].response) else LastProblem(env[..k])
    ensures Successes(env[..k + 1]) == Successes(env[..k]) + if Succeeds(env[k]) then 1 else 0
    ensures LastSuccess(env[..k + 1]) == if Succeeds(env[k]) then Some(env[k].response) else LastSuccess(env[..k])
  {
    assert env[..k + 1][..k] == env[..k] && (urls + [url])[..k] == urls;
  }

  lemma {:induction false} StopsAtFatal(env: seq<Attempt>, k: nat)
    requires k < |env| && env[k].Fatal? && forall i :: 0 <= i < k ==> !env[i].Fatal?
    ensures BroadcastTries(env) == k + 1
    decreases |env|
  {
    if k > 0 { StopsAtFatal(env[1..], k - 1); }
  }

  lemma {:induction false} NoFatal(env: seq<Attempt>)
    requires forall i :: 0 <= i < |env| ==> !env[i].Fatal?
    ensures BroadcastTries(env) == |env|
    decreases |env|
  {
    if env != [] { NoFatal(env[1..]); }
  }

  // ---------------------------------------------------------------------------
  // Success and failure in terms of the answers
  // ---------------------------------------------------------------------------

  /** An answer is a success unless its code is 404, or 500 and up. */
  lemma SucceedsIff(a: Attempt)
    ensures Succeeds(a) <==> (a.Returned? || a.ErrorResponse?) && a.response.code < 500 && a.response.code != 404
  {}

  /** Attempt `j` is the last that was answered. */
  ghost predicate LastAnswered(env: seq<Attempt>, j: int) {
    0 <= j < |env| && HasResponse(env[j]) && forall k :: j < k < |env| ==> !HasResponse(env[k])
  }

  /** The answer says that there is no such thing, in what seems to be JSON. */
  predicate SaysNotFound(a: Attempt) {
    HasResponse(a) && a.response.code == 404 && a.response.jsonBody
  }

  lemma {:induction false} LastProblemIs(env: seq<Attempt>)
    ensures LastProblem(env) == Some(NotFound) <==> exists j :: LastAnswered(env, j) && SaysNotFound(env[j])
    decreases |env|
  {
    if env == [] {
    } else {
      var n := |env| - 1;
      LastProblemIs(env[..n]);
      if HasResponse(env[n]) {
        assert LastAnswered(env, n);
      } else {
        assert forall j :: 0 <= j < n ==> env[..n][j] == env[j];
        assert forall j :: LastAnswered(env, j) <==> LastAnswered(env[..n], j);
      }
    }
  }

  /** A failed request that was not cut short by a fatal error reports "not found" exactly
      when the last answer says so, and otherwise a failed submission. */
  lemma {:induction false} ErrorReported(env: seq<Attempt>, min: int)
    ensures var notFound := exists j :: LastAnswered(env, j) && SaysNotFound(env[j]);
            var noFatal := forall k :: 0 <= k < |env| ==> !env[k].Fatal?;
      && (FailoverResult(env) == NotFoundError <==>
            noFatal && (forall k :: 0 <= k < |env| ==> !Succeeds(env[k])) && notFound)
      && (FailoverResult(env) == RequestError <==>
            noFatal && (forall k :: 0 <= k < |env| ==> !Succeeds(env[k])) && !notFound)
      && (BroadcastResult(env, min) == NotFoundError <==>
            noFatal && (Successes(env) < min || LastSuccess(env) == None) && notFound)
      && (BroadcastResult(env, min) == RequestError <==>
            noFatal && (Successes(env) < min || LastSuccess(env) == None) && !notFound)
  {
    hide Succeeds, LastAnswered, SaysNotFound, LastProblem, Successes, LastSuccess;
    LastProblemIs(env);
    FailsOnlyAtEnd(env);
  }

  lemma FailsOnlyAtEnd(env: seq<Attempt>)
    ensures FirstStop(env) == |env| <==> forall k :: 0 <= k < |env| ==> !Succeeds(env[k]) && !env[k].Fatal?
  {
    hide Succeeds;
  }

  // ---------------------------------------------------------------------------
  // The try order
  // ---------------------------------------------------------------------------

  lemma Multiple(d: int, n: int)
    requires n > 0
    ensures (d >= 1 ==> d * n >= n) && (d <= -1 ==> d * n <= -n)
  {}

  lemma UniqueRemainder(x: int, q: int, r: int, n: int)
    requires n > 0 && x == q * n + r && 0 <= r < n
    ensures x % n == r
  {
    var d := q - x / n;
    assert x == (x / n) * n + x % n;
    assert d * n == x % n - r;
    Multiple(d, n);
  }

  /** The `k`-th server tried is `k` places after the first, around the list. */
  lemma OrderAt(n: nat, start: nat, k: nat)
    requires k < n
    ensures TryOrder(n, start)[k] == if k + start % n < n then k + start % n else k + start % n - n
  {
    var q, s := start / n, start % n;
    assert start == q * n + s;
    if k + s < n {
      UniqueRemainder(k + start, q, k + s, n);
    } else {
      assert (q + 1) * n == q * n + n;
      UniqueRemainder(k + start, q + 1, k + s - n, n);
    }
  }

  lemma OrderIsDistinct(n: nat, start: nat, i: nat, k: nat)
    requires i <= k < n
    ensures TryOrder(n, start)[i] == TryOrder(n, start)[k] <==> i == k
    ensures TryOrder(n, start)[k] < n
  {
    OrderAt(n, start, i);
    OrderAt(n, start, k);
  }

  // ---------------------------------------------------------------------------
  // Requests
  // ---------------------------------------------------------------------------

  /** Everything that outlives a request. */
  datatype Memory = Memory(lastGoodIndex: nat, hosts: Hosts)

  datatype Request = Asking(env: seq<Attempt>) | Sending(env: seq<Attempt>)

  function UrlsOf(c: Config, m: Memory, r: Request): seq<Url> {
    if r.Asking? then c.serverUrls else c.serverUrls + m.hosts.submitOnly
  }

  /** The environment answers every attempt the request may make. */
  predicate Answers(c: Config, m: Memory, r: Request) { |r.env| == |UrlsOf(c, m, r)| }

  function StartOf(c: Config, m: Memory, r: Request): nat {
    if r.Asking? && c.stickyReadFailover then m.lastGoodIndex else 0
  }

  predicate IsBroadcast(c: Config, r: Request) { r.Sending? && c.commandBroadcast }

  function ResultOf(c: Config, m: Memory, r: Request): (x: (Result, seq<Url>))
    requires Answers(c, m, r)
  {
    var urls := UrlsOf(c, m, r);
    if IsBroadcast(c, r) then (BroadcastResult(r.env, c.minSuccessful), urls[..BroadcastTries(r.env)])
    else (FailoverResult(r.env), Tried(urls, StartOf(c, m, r), Tries(r.env)))
  }

  /** The outcomes of the attempts made. */
  function Outcomes(c: Config, m: Memory, r: Request): (env: seq<Attempt>)
    requires Answers(c, m, r)
    ensures |env| == |ResultOf(c, m, r).1|
  {
    r.env[..if IsBroadcast(c, r) then BroadcastTries(r.env) else Tries(r.env)]
  }

  function AfterRequest(c: Config, m: Memory, r: Request): Memory
    requires Answers(c, m, r)
  {
    var k := FirstStop(r.env);
    Memory(if !IsBroadcast(c, r) && 0 < k < |r.env| && Succeeds(r.env[k])
           then TryOrder(|r.env|, StartOf(c, m, r))[k] else m.lastGoodIndex,
           AfterAttempts(m.hosts, ResultOf(c, m, r).1, Outcomes(c, m, r)))
  }

  lemma FailoverIs(c: Config, m: Memory, r: Request)
    requires Answers(c, m, r) && !IsBroadcast(c, r)
    ensures var urls, start, k := UrlsOf(c, m, r), StartOf(c, m, r), FirstStop(r.env);
      && ResultOf(c, m, r) == (FailoverResult(r.env), Tried(urls, start, Tries(r.env)))
      && AfterRequest(c, m, r)
         == Memory(if 0 < k < |r.env| && Succeeds(r.env[k]) then TryOrder(|r.env|, start)[k] else m.lastGoodIndex,
                   AfterAttempts(m.hosts, Tried(urls, start, Tries(r.env)), r.env[..Tries(r.env)]))
  {
    hide AfterAttempts, Tried, FailoverResult, Tries;
  }

  lemma BroadcastIs(c: Config, m: Memory, r: Request)
    requires Answers(c, m, r) && IsBroadcast(c, r)
    ensures var urls, n := UrlsOf(c, m, r), BroadcastTries(r.env);
      && ResultOf(c, m, r) == (BroadcastResult(r.env, c.minSuccessful), urls[..n])
      && AfterRequest(c, m, r) == Memory(m.lastGoodIndex, AfterAttempts(m.hosts, urls[..n], r.env[..n]))
  {
    hide AfterAttempts, BroadcastResult, BroadcastTries;
  }

  /** Which index a request writes: that of the server which answered, if it was not the
      first one tried. A broadcast writes none. */
  lemma {:induction false} IndexWritten(c: Config, m: Memory, r: Request, k: nat)
    requires Answers(c, m, r)
    ensures r.Sending? && c.commandBroadcast ==> AfterRequest(c, m, r).lastGoodIndex == m.lastGoodIndex
    ensures (forall i :: 0 <= i < |r.env| ==> !Succeeds(r.env[i])) ==>
      AfterRequest(c, m, r).lastGoodIndex == m.lastGoodIndex
    ensures !(r.Sending? && c.commandBroadcast) && k < |r.env| && Succeeds(r.env[k]) &&
            (forall i :: 0 <= i < k ==> !Succeeds(r.env[i])) && (forall i :: 0 <= i < k ==> !r.env[i].Fatal?) ==>
      AfterRequest(c, m, r).lastGoodIndex ==
        if k == 0 then m.lastGoodIndex
        else if r.Asking? && c.stickyReadFailover then (k + m.lastGoodIndex) % |r.env| else k
  {
    hide AfterAttempts, Succeeds, ResultOf, Outcomes;
    if k < |r.env| {
      OrderAt(|r.env|, 0, k);
      ZeroRemainder(|r.env|);
    }
  }

  lemma ZeroRemainder(n: nat)
    requires n > 0
    ensures 0 % n == 0
  {}

  /** A command, and a query that is not sticky, asks from the first URL on: the server URLs
      and after them, for a command only, the submit-only ones. */
  lemma {:induction false} AskedInOrder(c: Config, m: Memory, r: Request)
    requires Answers(c, m, r)
    ensures r.Sending? ==> ResultOf(c, m, r).1 <= c.serverUrls + m.hosts.submitOnly
    ensures r.Asking? && !c.stickyReadFailover ==> ResultOf(c, m, r).1 <= c.serverUrls
    ensures r.Asking? ==> forall url :: url in ResultOf(c, m, r).1 ==> url in c.serverUrls
  {
    var urls := UrlsOf(c, m, r);
    if !IsBroadcast(c, r) {
      TriedFromFirst(urls, Tries(r.env));
      forall url | url !in urls ensures url !in Tried(urls, StartOf(c, m, r), Tries(r.env)) {
        TriedAreUrls(urls, StartOf(c, m, r), Tries(r.env), url);
      }
    }
  }

  lemma {:induction false} TriedFromFirst(urls: seq<Url>, n: nat)
    requires n <= |urls|
    ensures Tried(urls, 0, n) == urls[..n]
    decreases n
  {
    hide TryOrder;
    if n > 0 {
      TriedFromFirst(urls, n - 1);
      OrderAt(|urls|, 0, n - 1);
    }
  }

  /** The try order is a rotation that visits every server exactly once. */
  lemma OrderIsRotation(n: nat, start: nat)
    ensures forall i, k :: 0 <= i < k < n ==> TryOrder(n, start)[i] != TryOrder(n, start)[k]
    ensures forall i :: 0 <= i < n ==> TryOrder(n, start)[i] < n
    ensures forall j :: 0 <= j < n ==> j in TryOrder(n, start)
    ensures forall i :: 0 <= i < n - 1 ==> TryOrder(n, start)[i + 1] == NextAround(TryOrder(n, start)[i], n)
  {
    hide TryOrder;
    forall i, k | 0 <= i <= k < n
      ensures TryOrder(n, start)[k] < n && (i < k ==> TryOrder(n, start)[i] != TryOrder(n, start)[k])
    {
      OrderIsDistinct(n, start, i, k);
    }
    forall j | 0 <= j < n ensures j in TryOrder(n, start) {
      var s := start % n;
      var i := if j >= s then j - s else j + n - s;
      OrderAt(n, start, i);
      assert TryOrder(n, start)[i] == j;
    }
    forall i | 0 <= i < n - 1 ensures TryOrder(n, start)[i + 1] == NextAround(TryOrder(n, start)[i], n) {
      OrderAt(n, start, i);
      OrderAt(n, start, i + 1);
    }
  }

  function NextAround(i: nat, n: nat): nat { if i + 1 == n then 0 else i + 1 }

  /** Failover returns iff some attempt it may make succeeds before a fatal one; it
      returns the first success, and with no fatal outcome any success is enough. */
  lemma FailoverReturns(env: seq<Attempt>)
    ensures FailoverResult(env).Success? <==>
              exists k :: 0 <= k < |env| && Succeeds(env[k]) && forall i :: 0 <= i < k ==> !env[i].Fatal?
    ensures forall k ::
      0 <= k < |env| && Succeeds(env[k]) && (forall i :: 0 <= i < k ==> !Succeeds(env[i]) && !env[i].Fatal?) ==>
              FailoverResult(env) == Success(env[k].response)
  {}

  /** A request writes the index only when failover succeeds past the first server. */
  predicate Writes(c: Config, r: Request) {
    !IsBroadcast(c, r) && 0 < FirstStop(r.env) < |r.env| && Succeeds(r.env[FirstStop(r.env)])
  }

  /** The memory after a run of requests; one the environment does not answer is not made. */
  ghost function After(c: Config, m: Memory, rs: seq<Request>): Memory {
    if rs == [] then m
    else
      var before, r := After(c, m, rs[..|rs| - 1]), rs[|rs| - 1];
      if Answers(c, before, r) then AfterRequest(c, before, r) else before
  }

  lemma {:induction false} IndexIsKept(c: Config, m: Memory, rs: seq<Request>)
    requires forall k :: 0 <= k < |rs| ==> !Writes(c, rs[k])
    ensures After(c, m, rs).lastGoodIndex == m.lastGoodIndex
    decreases |rs|
  {
    if rs != [] { IndexIsKept(c, m, rs[..|rs| - 1]); }
  }

  /** What the last request of the run that writes the index writes there. */
  ghost function LastWritten(c: Config, m: Memory, rs: seq<Request>): Option<nat> {
    if rs == [] then None
    else
      var before, r := After(c, m, rs[..|rs| - 1]), rs[|rs| - 1];
      if Answers(c, before, r) && Writes(c, r) then Some(AfterRequest(c, before, r).lastGoodIndex)
      else LastWritten(c, m, rs[..|rs| - 1])
  }

  lemma {:induction false} IndexIsLastWritten(c: Config, m: Memory, rs: seq<Request>)
    ensures var w := LastWritten(c, m, rs);
            After(c, m, rs).lastGoodIndex == if w.Some? then w.value else m.lastGoodIndex
    ensures (forall k :: 0 <= k < |rs| ==> !Writes(c, rs[k])) ==> LastWritten(c, m, rs).None?
    decreases |rs|
  {
    hide FirstStop, TryOrder, AfterAttempts, ResultOf, Outcomes, UrlsOf;
    if rs != [] {
      var front := rs[..|rs| - 1];
      IndexIsLastWritten(c, m, front);
      assert forall k :: 0 <= k < |front| ==> front[k] == rs[k];
    }
  }

  /** After a sticky query answered by server `j` and any requests, the next sticky query
      tries server `j` first if and only if none of them wrote the index, or the last one
      that did wrote `j` or an index that is `j` around the list of server URLs. */
  lemma StickyStartsWhereItSucceeded(c: Config, m: Memory, env: seq<Attempt>, rs: seq<Request>)
    requires c.stickyReadFailover && |env| == |c.serverUrls|
    requires FailoverResult(env).Success?
    ensures var n, k, m1 := |c.serverUrls|, FirstStop(env), AfterRequest(c, m, Asking(env));
            var j, w := TryOrder(n, m.lastGoodIndex)[k], LastWritten(c, m1, rs);
            n > 0 && (TryOrder(n, After(c, m1, rs).lastGoodIndex)[0] == j <==> w.None? || w.value % n == j)
  {
    hide TryOrder, AfterAttempts, FirstStop, FailoverResult, After, AfterRequest;
    var n, k, m1 := |c.serverUrls|, FirstStop(env), AfterRequest(c, m, Asking(env));
    IndexAfterSticky(c, m, env);
    IndexIsLastWritten(c, m1, rs);
    OrderIsDistinct(n, m.lastGoodIndex, k, k);
    StartsAt(n, TryOrder(n, m.lastGoodIndex)[k]);
    FirstTried(n, After(c, m1, rs).lastGoodIndex);
  }

  lemma FirstTried(n: nat, start: nat)
    requires n > 0
    ensures TryOrder(n, start)[0] == start % n
  {}

  /** A command that fails over to the submit-only host moves the next sticky query: the
      last good query server is `b`, and the query starts at `a`, which failed. */
  lemma CommandMovesSticky()
    ensures var c := Config(["a", "b"], ["c"], 1, false, true, false);
      var ok := Returned(Response(200, false, ""));
      var m1 := AfterRequest(c, Fresh(c), Asking([Failed, ok]));
      && Valid(c) && TryOrder(2, m1.lastGoodIndex)[0] == 1
      && TryOrder(2, After(c, m1, [Sending([Failed, Failed, ok])]).lastGoodIndex)[0] == 0
  {
    hide TryOrder, AfterAttempts, Valid, Fresh;
    var c := Config(["a", "b"], ["c"], 1, false, true, false);
    var ok := Returned(Response(200, false, ""));
    var query, command := [Failed, ok], [Failed, Failed, ok];
    TwoServersFit();
    StopsAt(query, 1);
    StopsAt(command, 2);
    var m := Fresh(c);
    var m1 := AfterRequest(c, m, Asking(query));
    NobodyDropped(c, m, query);
    OrderAt(2, 0, 1);
    OrderAt(3, 0, 2);
    FirstTried(2, 1);
    FirstTried(2, 2);
    assert [Sending(command)][..0] == [];
    assert After(c, m1, []) == m1;
  }

  lemma TwoServersFit()
    ensures var c := Config(["a", "b"], ["c"], 1, false, true, false);
      Valid(c) && Fresh(c) == Memory(0, Hosts(["c"], {}))
  {}

  /** An attempt at a server URL leaves the submit-only hosts alone. */
  lemma {:induction false} NobodyDropped(c: Config, m: Memory, env: seq<Attempt>)
    requires c.serverUrls == ["a", "b"] && m.hosts == Hosts(["c"], {}) && |env| == 2 && FirstStop(env) == 1
    requires m.lastGoodIndex == 0 && c.stickyReadFailover
    ensures AfterRequest(c, m, Asking(env)).hosts == m.hosts
  {
    OrderAt(2, 0, 0);
    OrderAt(2, 0, 1);
    assert Tried(c.serverUrls, 0, 1) == ["a"];
    assert Tried(c.serverUrls, 0, 2) == ["a", "b"];
    assert env[..2] == env;
    NextAttempt(m.hosts, [], "a", env, 0);
    NextAttempt(m.hosts, ["a"], "b", env, 1);
    StartAttempts(m.hosts, env);
  }

  lemma StopsAt(env: seq<Attempt>, k: nat)
    requires k < |env| && Succeeds(env[k]) && forall i :: 0 <= i < k ==> env[i].Failed?
    ensures FirstStop(env) == k
  {
    assert forall i :: 0 <= i < k ==> !Succeeds(env[i]) && !env[i].Fatal?;
  }

  lemma IndexAfterSticky(c: Config, m: Memory, env: seq<Attempt>)
    requires c.stickyReadFailover && |env| == |c.serverUrls| && FailoverResult(env).Success?
    ensures FirstStop(env) < |env|
    ensures var k := FirstStop(env);
            AfterRequest(c, m, Asking(env)).lastGoodIndex
            == if k > 0 then TryOrder(|env|, m.lastGoodIndex)[k] else m.lastGoodIndex
  {
    hide TryOrder, AfterAttempts;
  }

  lemma StartsAt(n: nat, j: nat)
    requires j < n
    ensures TryOrder(n, j)[0] == j
  {
    UniqueRemainder(j, 0, j, n);
  }

  // ---------------------------------------------------------------------------
  // Ejection of submit-only URLs
  // ---------------------------------------------------------------------------

  /** What was attempted over a run, in order. */
  ghost function History(c: Config, m: Memory, rs: seq<Request>): seq<(Url, Attempt)> {
    if rs == [] then []
    else
      var before, r := After(c, m, rs[..|rs| - 1]), rs[|rs| - 1];
      History(c, m, rs[..|rs| - 1])
      + if Answers(c, before, r) then Zip(ResultOf(c, before, r).1, Outcomes(c, before, r)) else []
  }

  function Zip(urls: seq<Url>, env: seq<Attempt>): (z: seq<(Url, Attempt)>)
    requires |urls| == |env|
    ensures |z| == |urls|
  {
    seq(|urls|, k requires 0 <= k < |urls| => (urls[k], env[k]))
  }

  /** Timeouts of the URL since its callback last returned, or since the start. */
  function Streak(h: seq<(Url, Attempt)>, url: Url): nat {
    if h == [] then 0
    else
      var last := h[|h| - 1];
      if last.0 != url then Streak(h[..|h| - 1], url)
      else if last.1.Timeout? then Streak(h[..|h| - 1], url) + 1
      else if last.1.Returned? then 0
      else Streak(h[..|h| - 1], url)
  }

  /** The URL has timed out twice with no return in between. */
  ghost predicate TwiceOut(h: seq<(Url, Attempt)>, url: Url) {
    exists n :: 0 <= n <= |h| && Streak(h[..n], url) >= 2
  }

  /** The list and the flags say exactly what the history says. */
  ghost predicate Agrees(c: Config, hosts: Hosts, h: seq<(Url, Attempt)>) {
    forall url ::
      && (url in hosts.submitOnly <==> url in c.submitOnlyUrls && !TwiceOut(h, url))
      && (url in hosts.submitOnly ==> (url in hosts.flagged <==> Streak(h, url) == 1))
  }

  lemma StreakStep(h: seq<(Url, Attempt)>, x: (Url, Attempt), url: Url)
    ensures Streak(h + [x], url) == if x.0 != url then Streak(h, url)
                                    else if x.1.Timeout? then Streak(h, url) + 1
                                    else if x.1.Returned? then 0 else Streak(h, url)
    ensures TwiceOut(h + [x], url) <==> TwiceOut(h, url) || Streak(h + [x], url) >= 2
  {
    var h' := h + [x];
    assert h'[..|h|] == h && h'[..|h'|] == h';
    forall n | 0 <= n <= |h| ensures h'[..n] == h[..n] {}
  }

  /** One attempt at a submit-only URL keeps the agreement. */
  lemma AttemptAgrees(c: Config, hosts: Hosts, h: seq<(Url, Attempt)>, url: Url, a: Attempt)
    requires Agrees(c, hosts, h)
    ensures Agrees(c, AfterAttempt(hosts, url, a), h + [(url, a)])
  {
    forall u
      ensures var after := AfterAttempt(hosts, url, a); var h' := h + [(url, a)];
        && (u in after.submitOnly <==> u in c.submitOnlyUrls && !TwiceOut(h', u))
        && (u in after.submitOnly ==> (u in after.flagged <==> Streak(h', u) == 1))
    {
      StreakStep(h, (url, a), u);
      StreakBelowTwo(h, u);
    }
  }

  lemma StreakBelowTwo(h: seq<(Url, Attempt)>, url: Url)
    ensures !TwiceOut(h, url) ==> Streak(h, url) < 2
  {
    assert h[..|h|] == h;
  }

  lemma {:induction false} AttemptsAgree(c: Config, hosts: Hosts, h: seq<(Url, Attempt)>, urls: seq<Url>,
        env: seq<Attempt>)
    requires |urls| == |env| && Agrees(c, hosts, h)
    ensures Agrees(c, AfterAttempts(hosts, urls, env), h + Zip(urls, env))
    decreases |urls|
  {
    if urls == [] {
      assert h + Zip(urls, env) == h;
    } else {
      hide Agrees, AfterAttempt;
      var n := |urls| - 1;
      AttemptsAgree(c, hosts, h, urls[..n], env[..n]);
      AttemptAgrees(c, AfterAttempts(hosts, urls[..n], env[..n]), h + Zip(urls[..n], env[..n]), urls[n], env[n]);
      assert h + Zip(urls, env) == h + Zip(urls[..n], env[..n]) + [(urls[n], env[n])];
    }
  }

  /** The state of a fresh client. */
  function Fresh(c: Config): Memory { Memory(0, Hosts(c.submitOnlyUrls, {})) }

  /** Over every run, a submit-only URL is in the list exactly until its second
      timeout with no return in between. */
  lemma {:induction false} Ejection(c: Config, rs: seq<Request>)
    ensures Agrees(c, After(c, Fresh(c), rs).hosts, History(c, Fresh(c), rs))
    decreases |rs|
  {
    if rs != [] {
      hide Agrees, AfterAttempts, ResultOf, Outcomes;
      var front, r := rs[..|rs| - 1], rs[|rs| - 1];
      Ejection(c, front);
      var before := After(c, Fresh(c), front);
      if Answers(c, before, r) {
        AttemptsAgree(c, before.hosts, History(c, Fresh(c), front), ResultOf(c, before, r).1, Outcomes(c, before, r));
      } else {
        assert History(c, Fresh(c), rs) == History(c, Fresh(c), front);
      }
    } else {
      assert forall url :: !TwiceOut([], url);
    }
  }

  /** Two timeouts in a row drop the first URL; a return between them takes its flag back. */
  lemma TwoTimeoutsExample()
    ensures var h := Hosts(["a", "b"], {});
      && AfterAttempts(h, ["a", "b", "a"], [Timeout, Timeout, Timeout]) == Hosts(["b"], {"b"})
      && AfterAttempts(h, ["a", "a", "a"], [Timeout, Returned(Response(500, false, "")), Timeout])
         == Hosts(["a", "b"], {"a"})
  {
    var h, r := Hosts(["a", "b"], {}), Returned(Response(500, false, ""));
    assert AfterAttempt(AfterAttempt(AfterAttempt(h, "a", Timeout), "b", Timeout), "a", Timeout) == Hosts(["b"], {"b"})
      by { assert ["a", "b"][..1] == ["a"] && ["a"][..0] == []; }
    assert AfterAttempt(AfterAttempt(AfterAttempt(h, "a", Timeout), "a", r), "a", Timeout) == Hosts(["a", "b"], {"a"});
    ThreeAttempts(h, "a", "b", "a", Timeout, Timeout, Timeout);
    ThreeAttempts(h, "a", "a", "a", Timeout, r, Timeout);
  }

  lemma ThreeAttempts(h: Hosts, u: Url, v: Url, w: Url, a: Attempt, b: Attempt, c: Attempt)
    ensures AfterAttempts(h, [u, v, w], [a, b, c]) == AfterAttempt(AfterAttempt(AfterAttempt(h, u, a), v, b), w, c)
  {
    hide AfterAttempt;
    assert [u, v, w][..2] == [u, v] && [u, v][..1] == [u] && [u][..0] == [];
    assert [a, b, c][..2] == [a, b] && [a, b][..1] == [a] && [a][..0] == [];
    assert AfterAttempts(h, [u], [a]) == AfterAttempt(h, u, a);
    assert AfterAttempts(h, [u, v], [a, b]) == AfterAttempt(AfterAttempt(h, u, a), v, b);
  }

  /** A dropped URL is not attempted by any later request, unless it is a server URL. */
  lemma DroppedIsNotAttempted(c: Config, rs: seq<Request>, r: Request, url: Url)
    requires Answers(c, After(c, Fresh(c), rs), r)
    requires TwiceOut(History(c, Fresh(c), rs), url) && url !in c.serverUrls
    ensures url !in ResultOf(c, After(c, Fresh(c), rs), r).1
  {
    hide Streak, TwiceOut, After, History;
    var m := After(c, Fresh(c), rs);
    Ejection(c, rs);
    var urls := UrlsOf(c, m, r);
    assert url !in urls;
    if !IsBroadcast(c, r) {
      TriedAreUrls(urls, StartOf(c, m, r), Tries(r.env), url);
    }
  }

  lemma {:induction false} TriedAreUrls(urls: seq<Url>, start: nat, n: nat, url: Url)
    requires n <= |urls| && url !in urls
    ensures url !in Tried(urls, start, n)
    decreases n
  {
    if n > 0 {
      OrderIsDistinct(|urls|, start, n - 1, n - 1);
      TriedAreUrls(urls, start, n - 1, url);
    }
  }

  /** The live list only ever loses URLs, so it stays apart from the server list. */
  lemma ListsStayApart(c: Config, rs: seq<Request>)
    requires forall u :: u in c.submitOnlyUrls ==> u !in c.serverUrls
    ensures forall u :: u in After(c, Fresh(c), rs).hosts.submitOnly ==> u in c.submitOnlyUrls && u !in c.serverUrls
  {
    Ejection(c, rs);
  }

  // ---------------------------------------------------------------------------
  // Broadcast
  // ---------------------------------------------------------------------------

  /** Without fatal outcomes, a broadcast attempts every URL once, in order, and
      returns the last success exactly when there are enough successes. */
  lemma BroadcastQuorum(env: seq<Attempt>, min: int)
    requires forall k :: 0 <= k < |env| ==> !env[k].Fatal?
    ensures BroadcastTries(env) == |env|
    ensures BroadcastResult(env, min).Success? <==> Successes(env) >= (if min > 1 then min else 1)
    ensures BroadcastResult(env, min).Success? ==>
      exists k :: 0 <= k < |env| && Succeeds(env[k]) && BroadcastResult(env, min) == Success(env[k].response)
                  && forall i :: k < i < |env| ==> !Succeeds(env[i])
  {
    NoFatal(env);
    LastSuccessIs(env);
  }

  lemma {:induction false} LastSuccessIs(env: seq<Attempt>)
    ensures LastSuccess(env).Some? <==> Successes(env) >= 1
    ensures LastSuccess(env).Some? ==>
      exists k :: 0 <= k < |env| && Succeeds(env[k]) && LastSuccess(env) == Some(env[k].response)
                  && forall i :: k < i < |env| ==> !Succeeds(env[i])
    decreases |env|
  {
    if env != [] {
      var front := env[..|env| - 1];
      LastSuccessIs(front);
      if !Succeeds(env[|env| - 1]) && LastSuccess(front).Some? {
        var k :| 0 <= k < |front| && Succeeds(front[k]) && LastSuccess(front) == Some(front[k].response)
                 && forall i :: k < i < |front| ==> !Succeeds(front[i]);
        assert env[k] == front[k] && forall i :: k < i < |front| ==> env[i] == front[i];
      }
    }
  }

  lemma {:induction false} SuccessesOfPrefix(env: seq<Attempt>, n: nat)
    requires n <= |env| && forall k :: 0 <= k < n ==> Succeeds(env[k])
    ensures Successes(env) >= n
    decreases |env|
  {
    if n < |env| {
      SuccessesOfPrefix(env[..|env| - 1], n);
    } else if n > 0 {
      SuccessesOfPrefix(env[..n - 1], n - 1);
    }
  }

  // ---------------------------------------------------------------------------
  // Settings
  // ---------------------------------------------------------------------------

  datatype SettingsError = SoftFailureWithQuorum | Overlap(urls: seq<Url>) | QuorumWithoutBroadcast | QuorumTooLarge

  datatype Loaded = Accepted(config: Config) | Rejected(error: SettingsError)

  /** `array & array`: the elements of the first that the second has, each once. */
  function Common(a: seq<Url>, b: seq<Url>): (r: seq<Url>)
    ensures forall u :: u in r <==> u in a && u in b
  {
    if a == [] then []
    else
      var front, u := Common(a[..|a| - 1], b), a[|a| - 1];
      if u in b && u !in front then front + [u] else front
  }

  /** Settings under which the client runs. */
  ghost predicate Valid(c: Config) {
    && (c.minSuccessful > 1 ==> c.commandBroadcast && !c.softWriteFailure)
    && c.minSuccessful <= |c.serverUrls|
    && forall u :: u in c.serverUrls ==> u !in c.submitOnlyUrls
  }

  /** The validation at the end of `Config.load`. */
  method Validate(c: Config) returns (r: Loaded)
    ensures r == Accepted(c) <==> Valid(c)
    ensures r.Accepted? ==> r.config == c
    ensures var soft := c.softWriteFailure && c.minSuccessful > 1;
            var overlap := exists u :: u in c.serverUrls && u in c.submitOnlyUrls;
            var unsent := c.minSuccessful > 1 && !c.commandBroadcast;
      && (r == Rejected(SoftFailureWithQuorum) <==> soft)
      && (r.Rejected? && r.error.Overlap? <==> !soft && overlap)
      && (r == Rejected(QuorumWithoutBroadcast) <==> !soft && !overlap && unsent)
      && (r == Rejected(QuorumTooLarge) <==> !soft && !overlap && !unsent && c.minSuccessful > |c.serverUrls|)
    ensures r.Rejected? && r.error.Overlap? ==>
      forall u :: u in r.error.urls <==> u in c.serverUrls && u in c.submitOnlyUrls
  {
    if c.softWriteFailure && c.minSuccessful > 1 { return Rejected(SoftFailureWithQuorum); }
    var overlapping := Common(c.serverUrls, c.submitOnlyUrls);
    if |overlapping| > 0 {
      assert overlapping[0] in overlapping;
      return Rejected(Overlap(overlapping));
    }
    if c.minSuccessful > 1 && !c.commandBroadcast { return Rejected(QuorumWithoutBroadcast); }
    if c.minSuccessful > |c.serverUrls| { return Rejected(QuorumTooLarge); }
    return Accepted(c);
  }

  /** Under accepted settings with a server URL, a command succeeds whenever all
      server URLs do, whatever the submit-only hosts answer. */
  lemma ServersSuffice(c: Config, m: Memory, env: seq<Attempt>)
    requires Valid(c) && |c.serverUrls| > 0 && Answers(c, m, Sending(env))
    requires forall k :: 0 <= k < |c.serverUrls| ==> Succeeds(env[k])
    requires forall k :: 0 <= k < |env| ==> !env[k].Fatal?
    ensures ResultOf(c, m, Sending(env)).0.Success?
  {
    if c.commandBroadcast {
      SuccessesOfPrefix(env, |c.serverUrls|);
      BroadcastQuorum(env, c.minSuccessful);
    } else {
      FailoverReturns(env);
      assert Succeeds(env[0]);
    }
  }
}
