/** The rate limiter: a list of recent request times per client, pruned and
    extended by every request, whether it is admitted or not. */
module RateLimit {
  import opened Text

  /** A request as the limiter sees it; the address may be missing. */
  datatype Arrival = Arrival(host: Option<string>, time: real)
  {
    function Client(): string {
      if host.Some? then host.value else "unknown"
    }
  }

  /** Different hosts are different clients, except that requests without an address
      share the name of a host called "unknown". */
  lemma ClientMeans(a: Arrival, b: Arrival)
    ensures a.Client() == b.Client() <==>
            a.host == b.host || (a.host == None && b.host == Some("unknown")) || (b.host == None && a.host == Some("unknown"))
  {}

  type Log = seq<Arrival>
  type Clients = map<string, seq<real>>

  /** The times later than the cutoff, in their order. */
  function Prune(times: seq<real>, cutoff: real): seq<real> {
    if times == [] then []
    else Prune(times[..|times| - 1], cutoff) + if times[|times| - 1] > cutoff then [times[|times| - 1]] else []
  }

  function Requests(clients: Clients, client: string): seq<real> {
    if client in clients then clients[client] else []
  }

  function After(clients: Clients, a: Arrival, window: real): Clients {
    clients[a.Client() := Prune(Requests(clients, a.Client()), a.time - window) + [a.time]]
  }

  function AfterAll(log: Log, window: real): Clients {
    if log == [] then map[] else After(AfterAll(log[..|log| - 1], window), log[|log| - 1], window)
  }

  /** The verdict on the last request of a log. */
  predicate AdmitsLast(log: Log, maxRequests: int, window: real)
    requires log != []
  {
    |Requests(AfterAll(log, window), log[|log| - 1].Client())| <= maxRequests
  }

  class RateLimitMiddleware {
    const maxRequests: int
    const window: real
    var clients: Clients

    constructor (maxRequests: int, window: real)
      ensures this.maxRequests == maxRequests && this.window == window && clients == AfterAll([], window)
    {
      this.maxRequests, this.window, clients := maxRequests, window, map[];
    }

    /** The times later than the cutoff. */
    static method Recent(times: seq<real>, cutoff: real) returns (kept: seq<real>)
      ensures kept == Prune(times, cutoff)
    {
      kept := [];
      var i := 0;
      while i < |times|
        invariant i <= |times| && kept == Prune(times[..i], cutoff)
      {
        assert times[..i + 1][..i] == times[..i];
        if times[i] > cutoff {
          kept := kept + [times[i]];
        }
        i := i + 1;
      }
      assert times[..i] == times;
    }

    /** Prunes the client's list, records the request and rejects it if the list has
        become too long. */
    method Dispatch(a: Arrival) returns (admitted: bool)
      modifies this`clients
      ensures clients == After(old(clients), a, window)
      ensures admitted <==> |Requests(clients, a.Client())| <= maxRequests
      ensures forall c | c != a.Client() :: Requests(clients, c) == Requests(old(clients), c)
    {
      hide Prune;
      var client := a.Client();
      if client in clients {
        var kept := Recent(clients[client], a.time - window);
        clients := clients[client := kept];
      } else {
        clients := clients[client := []];
        PruneNothing(a.time - window);
      }
      var requests := clients[client] + [a.time];
      clients := clients[client := requests];
      return |requests| <= maxRequests;
    }
  }

  // ---- the lists are windows of the log

  /** A client's request times, admitted or not. */
  function ArrivalsOf(log: Log, client: string): seq<real> {
    if log == [] then []
    else
      var a := log[|log| - 1];
      ArrivalsOf(log[..|log| - 1], client) + if a.Client() == client then [a.time] else []
  }

  /** Each client's clock never goes back. */
  predicate ClockIsMonotone(log: Log) {
    forall i, j | 0 <= i < j < |log| && log[i].Client() == log[j].Client() :: log[i].time <= log[j].time
  }

  lemma {:induction false} PruneTwice(times: seq<real>, early: real, late: real)
    requires early <= late
    ensures Prune(Prune(times, early), late) == Prune(times, late)
  {
    if times == [] {
    } else {
      var front, t := times[..|times| - 1], times[|times| - 1];
      PruneTwice(front, early, late);
      PruneMore(Prune(front, early), t, late);
    }
  }

  lemma PruneMore(times: seq<real>, t: real, cutoff: real)
    ensures Prune(times + [t], cutoff) == Prune(times, cutoff) + if t > cutoff then [t] else []
    ensures Prune(times + [], cutoff) == Prune(times, cutoff)
  {
    assert (times + [t])[..|times|] == times;
    assert times + [] == times;
  }

  /** What a client's list holds, computed from the log alone: after its last
      request, its earlier ones of that window and the request itself. */
  function WindowOf(log: Log, client: string, window: real): seq<real> {
    var times := ArrivalsOf(log, client);
    if times == [] then []
    else var now := times[|times| - 1]; Prune(times[..|times| - 1], now - window) + [now]
  }

  lemma {:induction false} LastArrival(log: Log, client: string) returns (i: nat)
    requires ArrivalsOf(log, client) != []
    ensures i < |log| && log[i].Client() == client
    ensures var times := ArrivalsOf(log, client); log[i].time == times[|times| - 1]
  {
    i := |log| - 1;
    if log[i].Client() != client {
      i := LastArrival(log[..i], client);
    }
  }

  lemma ArrivalsNext(log: Log, client: string)
    requires log != []
    ensures var front, last := log[..|log| - 1], log[|log| - 1];
            ArrivalsOf(log, client) ==
            if last.Client() == client then ArrivalsOf(front, client) + [last.time] else ArrivalsOf(front, client)
  {
    var front := log[..|log| - 1];
    assert ArrivalsOf(front, client) + [] == ArrivalsOf(front, client);
  }

  /** One more request of a client whose list is the window of its log. */
  lemma WindowNext(times: seq<real>, before: real, now: real, window: real)
    requires before <= now
    ensures Prune(Prune(times, before - window) + [before], now - window) == Prune(times + [before], now - window)
  {
    PruneTwice(times, before - window, now - window);
    PruneMore(Prune(times, before - window), before, now - window);
    PruneMore(times, before, now - window);
  }

  /** The limiter forgets only what no longer matters: its list for any client is
      the window of the client's full log of requests, rejected ones included. */
  lemma {:induction false} ListIsWindow(log: Log, client: string, window: real)
    requires ClockIsMonotone(log)
    ensures Requests(AfterAll(log, window), client) == WindowOf(log, client, window)
  {
    hide ArrivalsOf, Prune, ClockIsMonotone;
    if log == [] {
      NoArrivals(client);
    } else {
      var front, last := log[..|log| - 1], log[|log| - 1];
      ClockOfFront(log);
      ListIsWindow(front, client, window);
      ArrivalsNext(log, client);
      if last.Client() == client {
        var times := ArrivalsOf(front, client);
        assert (times + [last.time])[..|times|] == times;
        if times == [] {
          PruneNothing(last.time - window);
        } else {
          var earlier, before := times[..|times| - 1], times[|times| - 1];
          BeforeLast(log, client);
          WindowNext(earlier, before, last.time, window);
          assert earlier + [before] == times;
        }
      }
    }
  }

  lemma NoArrivals(client: string)
    ensures ArrivalsOf([], client) == []
  {}

  lemma PruneNothing(cutoff: real)
    ensures Prune([], cutoff) == []
  {}

  lemma ClockOfFront(log: Log)
    requires log != [] && ClockIsMonotone(log)
    ensures ClockIsMonotone(log[..|log| - 1])
  {}

  lemma BeforeLast(log: Log, client: string)
    requires log != [] && ClockIsMonotone(log) && log[|log| - 1].Client() == client
    ensures var times := ArrivalsOf(log[..|log| - 1], client);
            times != [] ==> times[|times| - 1] <= log[|log| - 1].time
  {
    hide ArrivalsOf;
    var front := log[..|log| - 1];
    if ArrivalsOf(front, client) != [] {
      var i := LastArrival(front, client);
      assert log[i] == front[i];
    }
  }

  /** The requests of a client later than the cutoff, by their place in the log. */
  function Later(log: Log, client: string, cutoff: real): set<int> {
    set i | 0 <= i < |log| && log[i].Client() == client && log[i].time > cutoff
  }

  lemma {:induction false} PruneCounts(log: Log, client: string, cutoff: real)
    ensures |Prune(ArrivalsOf(log, client), cutoff)| == |Later(log, client, cutoff)|
  {
    hide ArrivalsOf, Prune;
    if log == [] {
      NoArrivals(client);
      PruneNothing(cutoff);
      assert Later(log, client, cutoff) == {};
    } else {
      var front, last := log[..|log| - 1], log[|log| - 1];
      PruneCounts(front, client, cutoff);
      ArrivalsNext(log, client);
      PruneMore(ArrivalsOf(front, client), last.time, cutoff);
      var before := Later(front, client, cutoff);
      assert |log| - 1 !in before;
      assert Later(log, client, cutoff) == if last.Client() == client && last.time > cutoff then before + {|log| - 1} else before;
    }
  }

  /** A request is rejected exactly when its client's requests in the window that
      ends with it, itself included, exceed the maximum. */
  lemma RejectedIffTooMany(log: Log, maxRequests: int, window: real)
    requires log != [] && ClockIsMonotone(log)
    ensures var last := log[|log| - 1];
            AdmitsLast(log, maxRequests, window) <==>
            |Prune(ArrivalsOf(log[..|log| - 1], last.Client()), last.time - window)| + 1 <= maxRequests
  {
    hide ArrivalsOf, AfterAll, Prune, ClockIsMonotone;
    var front, last := log[..|log| - 1], log[|log| - 1];
    ListIsWindow(log, last.Client(), window);
    ArrivalsNext(log, last.Client());
    var times := ArrivalsOf(front, last.Client());
    assert (times + [last.time])[..|times|] == times;
  }

  /** The same, counting the earlier requests of the window by their place in the log. */
  lemma RejectedByCount(log: Log, maxRequests: int, window: real)
    requires log != [] && ClockIsMonotone(log)
    ensures var last := log[|log| - 1];
            AdmitsLast(log, maxRequests, window) <==>
            |set i | 0 <= i < |log| - 1 && log[i].Client() == last.Client() && log[i].time > last.time - window| + 1 <= maxRequests
  {
    hide AdmitsLast, ClockIsMonotone, Prune, ArrivalsOf;
    var front, last := log[..|log| - 1], log[|log| - 1];
    RejectedIffTooMany(log, maxRequests, window);
    PruneCounts(front, last.Client(), last.time - window);
    assert Later(front, last.Client(), last.time - window)
        == set i | 0 <= i < |log| - 1 && log[i].Client() == last.Client() && log[i].time > last.time - window;
  }

  // ---- no window holds too many admitted requests

  /** The times of a client's admitted requests. */
  function AdmittedOf(log: Log, client: string, maxRequests: int, window: real): seq<real> {
    if log == [] then []
    else
      AdmittedOf(log[..|log| - 1], client, maxRequests, window)
      + if log[|log| - 1].Client() == client && AdmitsLast(log, maxRequests, window) then [log[|log| - 1].time] else []
  }

  /** Any two instants in the set are less than `window` apart, as in every
      half-open interval of that length. */
  ghost predicate NoLongerThan(during: real -> bool, window: real) {
    forall s, t | during(s) && during(t) :: s - t < window
  }

  function Inside(times: seq<real>, during: real -> bool): seq<real> {
    if times == [] then []
    else Inside(times[..|times| - 1], during) + if during(times[|times| - 1]) then [times[|times| - 1]] else []
  }

  lemma InsideMore(times: seq<real>, t: real, during: real -> bool)
    ensures Inside(times + [t], during) == Inside(times, during) + if during(t) then [t] else []
    ensures Inside(times + [], during) == Inside(times, during)
  {
    assert (times + [t])[..|times|] == times;
    assert times + [] == times;
  }

  lemma InsideNothing(during: real -> bool)
    ensures Inside([], during) == []
  {}

  /** Admitted requests later than a cutoff are among the requests later than it. */
  lemma {:induction false} AdmittedArrive(log: Log, client: string, maxRequests: int, window: real, during: real -> bool, cutoff: real)
    requires forall t | during(t) :: t > cutoff
    ensures |Inside(AdmittedOf(log, client, maxRequests, window), during)| <= |Prune(ArrivalsOf(log, client), cutoff)|
  {
    hide AdmitsLast, Inside;
    if log == [] {
      assert Inside([], during) == [] by { InsideNothing(during); }
    } else {
      var front, last := log[..|log| - 1], log[|log| - 1];
      AdmittedArrive(front, client, maxRequests, window, during, cutoff);
      InsideMore(AdmittedOf(front, client, maxRequests, window), last.time, during);
      PruneMore(ArrivalsOf(front, client), last.time, cutoff);
    }
  }

  /** No half-open window of the configured length, wherever it lies, holds more than
      the maximum number of admitted requests of a client. */
  lemma {:induction false} WindowsAreBounded(log: Log, client: string, maxRequests: int, window: real, during: real -> bool)
    requires ClockIsMonotone(log) && NoLongerThan(during, window)
    ensures |Inside(AdmittedOf(log, client, maxRequests, window), during)| <= if maxRequests < 0 then 0 else maxRequests
  {
    hide AdmitsLast, Inside, ClockIsMonotone, Prune, ArrivalsOf, AfterAll;
    if log == [] {
      assert Inside([], during) == [] by { InsideNothing(during); }
    } else {
      var front, last := log[..|log| - 1], log[|log| - 1];
      ClockOfFront(log);
      WindowsAreBounded(front, client, maxRequests, window, during);
      InsideMore(AdmittedOf(front, client, maxRequests, window), last.time, during);
      if last.Client() == client && AdmitsLast(log, maxRequests, window) && during(last.time) {
        AdmittedArrive(front, client, maxRequests, window, during, last.time - window);
        RejectedIffTooMany(log, maxRequests, window);
      }
    }
  }

  /** The verdict on the request at place `i` of the log. */
  predicate AdmittedAt(log: Log, i: int, maxRequests: int, window: real)
    requires 0 <= i < |log|
  {
    AdmitsLast(log[..i + 1], maxRequests, window)
  }

  /** The admitted requests of a client in the window, by their place in the log. */
  ghost function AdmittedIn(log: Log, client: string, maxRequests: int, window: real, during: real -> bool): set<int> {
    set i | 0 <= i < |log| && log[i].Client() == client && during(log[i].time) && AdmittedAt(log, i, maxRequests, window)
  }

  lemma AdmittedNext(log: Log, client: string, maxRequests: int, window: real)
    requires log != []
    ensures var front, last := log[..|log| - 1], log[|log| - 1];
            AdmittedOf(log, client, maxRequests, window) ==
            AdmittedOf(front, client, maxRequests, window)
            + if last.Client() == client && AdmittedAt(log, |log| - 1, maxRequests, window) then [last.time] else []
  {
    hide AdmitsLast;
    assert log[..|log|] == log;
  }

  lemma InNext(log: Log, client: string, maxRequests: int, window: real, during: real -> bool)
    requires log != []
    ensures var front, last := log[..|log| - 1], log[|log| - 1];
            var before := AdmittedIn(front, client, maxRequests, window, during);
            && |log| - 1 !in before
            && AdmittedIn(log, client, maxRequests, window, during) ==
               if last.Client() == client && during(last.time) && AdmittedAt(log, |log| - 1, maxRequests, window)
               then before + {|log| - 1} else before
  {
    hide AdmitsLast;
    var front := log[..|log| - 1];
    forall i | 0 <= i < |front|
      ensures AdmittedAt(log, i, maxRequests, window) == AdmittedAt(front, i, maxRequests, window) && log[i] == front[i]
    {
      assert log[..i + 1] == front[..i + 1];
    }
  }

  lemma {:induction false} AdmittedCounts(log: Log, client: string, maxRequests: int, window: real, during: real -> bool)
    ensures |Inside(AdmittedOf(log, client, maxRequests, window), during)| == |AdmittedIn(log, client, maxRequests, window, during)|
  {
    hide AdmittedAt, Inside, AdmittedIn;
    if log == [] {
      InsideNothing(during);
      InNothing(client, maxRequests, window, during);
    } else {
      var front, last := log[..|log| - 1], log[|log| - 1];
      AdmittedCounts(front, client, maxRequests, window, during);
      AdmittedNext(log, client, maxRequests, window);
      InsideMore(AdmittedOf(front, client, maxRequests, window), last.time, during);
      InNext(log, client, maxRequests, window, during);
    }
  }

  lemma InNothing(client: string, maxRequests: int, window: real, during: real -> bool)
    ensures AdmittedIn([], client, maxRequests, window, during) == {}
  {}

  /** The same, counting requests: no window of the configured length holds more than
      the maximum number of requests of a client that were admitted. */
  lemma AdmittedAreBounded(log: Log, client: string, maxRequests: int, window: real, during: real -> bool)
    requires ClockIsMonotone(log) && forall s, t | during(s) && during(t) :: s - t < window
    ensures |set i | 0 <= i < |log| && log[i].Client() == client && during(log[i].time)
                     && AdmittedAt(log, i, maxRequests, window)| <= if maxRequests < 0 then 0 else maxRequests
  {
    hide AdmittedAt, AdmittedOf, Inside;
    WindowsAreBounded(log, client, maxRequests, window, during);
    AdmittedCounts(log, client, maxRequests, window, during);
    assert AdmittedIn(log, client, maxRequests, window, during)
        == set i | 0 <= i < |log| && log[i].Client() == client && during(log[i].time) && AdmittedAt(log, i, maxRequests, window);
  }

  lemma HalfOpenWindows(a: real, window: real)
    ensures NoLongerThan(t => a <= t < a + window, window)
    ensures NoLongerThan(t => a < t <= a + window, window)
  {}

  // ---- clients do not affect each other

  /** The log of one client alone. */
  function Only(log: Log, client: string): Log {
    if log == [] then []
    else Only(log[..|log| - 1], client) + if log[|log| - 1].Client() == client then [log[|log| - 1]] else []
  }

  /** What one more request does to a client's list and admitted requests. */
  lemma OneMore(log: Log, a: Arrival, client: string, maxRequests: int, window: real)
    ensures var before, after := Requests(AfterAll(log, window), client), Requests(AfterAll(log + [a], window), client);
            && after == (if a.Client() == client then Prune(before, a.time - window) + [a.time] else before)
            && AdmittedOf(log + [a], client, maxRequests, window) ==
               AdmittedOf(log, client, maxRequests, window)
               + if a.Client() == client && |after| <= maxRequests then [a.time] else []
  {
    hide Prune;
    assert (log + [a])[..|log|] == log;
  }

  /** Whatever the clocks and whoever else sends requests, a client's list and its
      admitted requests are those it would have had alone. */
  lemma {:induction false} ClientsAreIndependent(log: Log, client: string, maxRequests: int, window: real)
    ensures Requests(AfterAll(log, window), client) == Requests(AfterAll(Only(log, client), window), client)
    ensures AdmittedOf(log, client, maxRequests, window) == AdmittedOf(Only(log, client), client, maxRequests, window)
  {
    hide Requests, AfterAll, AdmittedOf, Prune;
    if log == [] {
    } else {
      var front, last := log[..|log| - 1], log[|log| - 1];
      ClientsAreIndependent(front, client, maxRequests, window);
      var alone := Only(front, client);
      assert log == front + [last];
      OneMore(front, last, client, maxRequests, window);
      OneMore(alone, last, client, maxRequests, window);
      var admitted := AdmittedOf(front, client, maxRequests, window);
      assert alone + [] == alone && admitted + [] == admitted;
    }
  }
}
