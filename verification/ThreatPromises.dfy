/** When the address cache keeps what its code promises: the size limit, one fetch
    per address, and results that stay until they expire or are evicted. */
module ThreatPromises {
  import opened Text
  import opened OrderedDict
  import opened ThreatCache

  // ---- the limit

  /** The step adds an entry to a full cache without evicting one. */
  predicate Overfills(s: State, step: Step, limit: nat) {
    step.MarkPending? && !Has(s.cache.data, step.ip) && |s.cache.data| >= limit
  }

  lemma SizeAfter(s: State, step: Step, limit: nat)
    requires KeysAgree(s.cache) && |s.cache.data| <= limit
    ensures |Take(s, step, limit).cache.data| <= limit <==> !Overfills(s, step, limit)
  {
    hide Has, Get, Put, Remove, MoveToEnd, IsLocal;
    var c := s.cache;
    match step
    case LookUp(ip, valid, now) =>
      if Has(c.data, ip) {
        DistinctKeys(c);
        MoveEffect(c.data, ip, ip);
        RemoveEffect(c.data, ip, ip);
      }
    case MarkPending(ip, now) => PutEffect(c.data, ip, PENDING, ip);
    case Fetched(ip, m, now) => StoreEffect(c, ip, m, now, limit, ip);
    case FetchFails(ip) =>
  }

  lemma AfterNext(run: seq<Step>, limit: nat, n: nat)
    requires n < |run|
    ensures After(run[..n + 1], limit) == Take(After(run[..n], limit), run[n], limit)
    ensures IsRun(run[..n + 1], limit) ==> IsRun(run[..n], limit) && Enabled(After(run[..n], limit), run[n])
  {
    hide Take, Enabled;
    assert run[..n + 1][..n] == run[..n];
  }

  ghost predicate NeverOverfills(run: seq<Step>, limit: nat) {
    forall n | 0 <= n < |run| :: !Overfills(After(run[..n], limit), run[n], limit)
  }

  ghost predicate WithinLimit(run: seq<Step>, limit: nat) {
    forall n | 0 <= n <= |run| :: |After(run[..n], limit).cache.data| <= limit
  }

  lemma {:induction false} WithinUpTo(run: seq<Step>, limit: nat, n: nat)
    requires NeverOverfills(run, limit) && n <= |run|
    ensures |After(run[..n], limit).cache.data| <= limit
  {
    hide Take;
    if n == 0 {
      EmptyRun(limit);
    } else {
      WithinUpTo(run, limit, n - 1);
      KeysAlwaysAgree(run[..n - 1], limit);
      AfterNext(run, limit, n - 1);
      SizeAfter(After(run[..n - 1], limit), run[n - 1], limit);
    }
  }

  /** The cache stays within its limit throughout a run exactly when no placeholder
      is ever inserted for a new address into a full cache. */
  lemma LimitHolds(run: seq<Step>, limit: nat)
    ensures WithinLimit(run, limit) <==> NeverOverfills(run, limit)
  {
    hide After, Overfills;
    if WithinLimit(run, limit) {
      forall n | 0 <= n < |run|
        ensures !Overfills(After(run[..n], limit), run[n], limit)
      {
        KeysAlwaysAgree(run[..n], limit);
        AfterNext(run, limit, n);
        SizeAfter(After(run[..n], limit), run[n], limit);
        assert |After(run[..n + 1], limit).cache.data| <= limit;
      }
    }
    if NeverOverfills(run, limit) {
      forall n | 0 <= n <= |run|
        ensures |After(run[..n], limit).cache.data| <= limit
      {
        WithinUpTo(run, limit, n);
      }
    }
  }

  // ---- one fetch per address

  /** Marking an address starts a second concurrent fetch of it exactly when one is
      under way, whichever run led there. */
  lemma SecondFetch(run: seq<Step>, limit: nat, ip: string, now: real)
    requires IsRun(run, limit) && Enabled(After(run, limit), MarkPending(ip, now))
    ensures IsRun(run + [MarkPending(ip, now)], limit)
    ensures After(run + [MarkPending(ip, now)], limit).fetching[ip] > 1 <==> ip in After(run, limit).fetching
  {
    hide Insert;
    TakeOne(run, limit, MarkPending(ip, now));
  }

  // ---- results that are kept

  /** The last step of a run that stores the address. */
  function LastStoring(run: seq<Step>, ip: string): Option<Step> {
    if run == [] then None
    else
      var step := run[|run| - 1];
      if (step.MarkPending? || step.Fetched?) && step.ip == ip then Some(step) else LastStoring(run[..|run| - 1], ip)
  }

  /** The cache holds what a fetch found for the address. */
  predicate HoldsResult(run: seq<Step>, limit: nat, ip: string) {
    Has(After(run, limit).cache.data, ip) && LastStoring(run, ip).Some? && LastStoring(run, ip).value.Fetched?
  }

  /** Some address's result, held before the step, gives way to a placeholder. */
  ghost predicate Discards(run: seq<Step>, step: Step, limit: nat) {
    exists ip :: HoldsResult(run, limit, ip) && LastStoring(run + [step], ip) == Some(step) && step.MarkPending?
  }

  lemma {:induction false} StoringAgrees(run: seq<Step>, ip: string)
    ensures LastStore(run, ip) == match LastStoring(run, ip)
                                  case None => None
                                  case Some(step) => if step.MarkPending? then Some(Stored(PENDING, step.now))
                                                     else if step.Fetched? then Some(Stored(step.metadata, step.now)) else None
    ensures LastStoring(run, ip).Some? ==> LastStoring(run, ip).value in run
  {
    if run == [] {
    } else {
      StoringAgrees(run[..|run| - 1], ip);
    }
  }

  /** No fetch finds just what a placeholder says; in the program a fetched entry
      always has a city and a placeholder never has one. */
  predicate Telling(run: seq<Step>) {
    forall step | step in run && step.Fetched? :: step.metadata != PENDING
  }

  /** A result is held exactly when an entry other than a placeholder is. */
  lemma ResultIsVisible(run: seq<Step>, limit: nat, ip: string)
    requires Telling(run)
    ensures var d := After(run, limit).cache.data; HoldsResult(run, limit, ip) <==> Has(d, ip) && Get(d, ip) != PENDING
  {
    hide Has, Get, After, LastStore, LastStoring, KeysAgree;
    HoldsLastStore(run, limit, ip);
    KeysAlwaysAgree(run, limit);
    StampOfHeld(After(run, limit).cache, ip);
    StoringAgrees(run, ip);
  }

  lemma StoringNext(run: seq<Step>, step: Step, ip: string)
    ensures LastStoring(run + [step], ip) ==
            if (step.MarkPending? || step.Fetched?) && step.ip == ip then Some(step) else LastStoring(run, ip)
  {
    assert (run + [step])[..|run|] == run;
  }

  lemma {:induction false} StoredIp(run: seq<Step>, ip: string)
    ensures var last := LastStoring(run, ip);
            last.Some? ==> (last.value.MarkPending? || last.value.Fetched?) && last.value.ip == ip
  {
    if run == [] {
    } else {
      StoredIp(run[..|run| - 1], ip);
    }
  }

  /** Marking an address discards a fetched result exactly when the cache holds an
      entry for that address that is not a placeholder. */
  lemma DiscardsResult(run: seq<Step>, limit: nat, ip: string, now: real)
    requires IsRun(run, limit) && Telling(run) && Enabled(After(run, limit), MarkPending(ip, now))
    ensures var d := After(run, limit).cache.data;
            Discards(run, MarkPending(ip, now), limit) <==> Has(d, ip) && Get(d, ip) != PENDING
  {
    hide Has, Get, After, LastStoring, HoldsResult, Telling;
    var step := MarkPending(ip, now);
    ResultIsVisible(run, limit, ip);
    StoringNext(run, step, ip);
    if Discards(run, step, limit) {
      var j :| HoldsResult(run, limit, j) && LastStoring(run + [step], j) == Some(step);
      StoredIp(run + [step], j);
    }
  }

  // ---- lookups that do not overlap

  /** The step is a lookup that misses while another lookup of the address is
      between its sections or a fetch of it is under way. */
  predicate Overlaps(s: State, step: Step) {
    && step.LookUp? && Lookup(s.cache, step.ip, step.valid, step.now).1.Miss?
    && (step.ip in s.missed || step.ip in s.fetching)
  }

  /** No two lookups or fetches of an address at once, and an address that was missed
      is not in the cache. */
  ghost predicate OneEach(s: State) {
    forall ip :: s.missed[ip] + s.fetching[ip] <= 1 && (ip in s.missed ==> !Has(s.cache.data, ip))
  }

  lemma KeysAfter(s: State, step: Step, limit: nat, ip: string)
    requires KeysAgree(s.cache)
    ensures var d, d' := s.cache.data, Take(s, step, limit).cache.data;
            && (Has(d', ip) ==> Has(d, ip) || ((step.MarkPending? || step.Fetched?) && step.ip == ip))
            && (step.LookUp? && Lookup(s.cache, step.ip, step.valid, step.now).1.Miss? && step.ip == ip ==> !Has(d', ip))
  {
    hide Has, Get, Put, Remove, MoveToEnd, IsLocal;
    var c := s.cache;
    DistinctKeys(c);
    match step
    case LookUp(j, valid, now) =>
      if Has(c.data, j) {
        MoveEffect(c.data, j, ip);
        RemoveEffect(c.data, j, ip);
      }
    case MarkPending(j, now) => PutEffect(c.data, j, PENDING, ip);
    case Fetched(j, m, now) => StoreEffect(c, j, m, now, limit, ip);
    case FetchFails(j) =>
  }

  lemma OneEachAfter(s: State, step: Step, limit: nat)
    requires KeysAgree(s.cache) && OneEach(s) && Enabled(s, step) && !Overlaps(s, step)
    ensures OneEach(Take(s, step, limit))
  {
    hide Has, Lookup, Insert, Store, KeysAgree;
    forall ip
      ensures var t := Take(s, step, limit); t.missed[ip] + t.fetching[ip] <= 1 && (ip in t.missed ==> !Has(t.cache.data, ip))
    {
      KeysAfter(s, step, limit, ip);
      assert s.missed[step.ip] + s.fetching[step.ip] <= 1;
      assert s.missed[ip] + s.fetching[ip] <= 1;
    }
  }

  ghost predicate NeverOverlaps(run: seq<Step>, limit: nat) {
    forall n | 0 <= n < |run| :: !Overlaps(After(run[..n], limit), run[n])
  }

  lemma {:induction false} OneEachUpTo(run: seq<Step>, limit: nat, n: nat)
    requires n <= |run| && IsRun(run[..n], limit) && NeverOverlaps(run, limit)
    ensures OneEach(After(run[..n], limit))
  {
    hide Take, Enabled, Overlaps;
    if n == 0 {
      EmptyRun(limit);
    } else {
      AfterNext(run, limit, n - 1);
      OneEachUpTo(run, limit, n - 1);
      KeysAlwaysAgree(run[..n - 1], limit);
      OneEachAfter(After(run[..n - 1], limit), run[n - 1], limit);
    }
  }

  lemma {:induction false} PrefixIsRun(run: seq<Step>, limit: nat, n: nat)
    requires IsRun(run, limit) && n <= |run|
    ensures IsRun(run[..n], limit)
  {
    if n == |run| {
      assert run[..n] == run;
    } else {
      PrefixIsRun(run[..|run| - 1], limit, n);
      assert run[..|run| - 1][..n] == run[..n];
    }
  }

  /** The promise kept: in a run in which no lookup of an address misses while another
      of it is between its sections or a fetch of it is under way, no address is
      ever fetched twice at once and no placeholder discards a result. */
  lemma FetchedOnce(run: seq<Step>, limit: nat)
    requires IsRun(run, limit) && NeverOverlaps(run, limit)
    ensures forall n, ip | 0 <= n <= |run| :: After(run[..n], limit).fetching[ip] <= 1
    ensures forall n | 0 <= n < |run| :: !Discards(run[..n], run[n], limit)
  {
    hide After, IsRun, Overlaps, LastStoring, Has;
    forall n | 0 <= n <= |run|
      ensures forall ip :: After(run[..n], limit).fetching[ip] <= 1
    {
      PrefixIsRun(run, limit, n);
      OneEachUpTo(run, limit, n);
    }
    forall n | 0 <= n < |run|
      ensures !Discards(run[..n], run[n], limit)
    {
      PrefixIsRun(run, limit, n + 1);
      AfterNext(run, limit, n);
      OneEachUpTo(run, limit, n);
      if Discards(run[..n], run[n], limit) {
        var ip :| HoldsResult(run[..n], limit, ip) && LastStoring(run[..n] + [run[n]], ip) == Some(run[n]);
        StoredIp(run[..n] + [run[n]], ip);
      }
    }
  }
}
