/** The bounded per-port history of snapshots, and the live port table read off it. */
module SlidingWindow {
  import opened Text
  import opened SlotCodec
  import opened PortScan

  const TTL_SECONDS := 5.0

  /** One measurement of one port.  The dispatcher overwrites the last two fields
      after the snapshot has been cached. */
  class PortSnapshot {
    const timestamp: real
    const port: u16
    const pid: u32
    const appName: string
    const kbIn: real
    const kbOut: real
    const protocol: string
    const org: string
    const country: string
    var riskScore: nat
    var remoteIp: string

    constructor (timestamp: real, port: u16, pid: u32, appName: string, kbIn: real, kbOut: real, protocol: string,
                 riskScore: nat, remoteIp: string, org: string, country: string)
      ensures this.timestamp == timestamp && this.port == port && this.pid == pid && this.appName == appName
      ensures this.kbIn == kbIn && this.kbOut == kbOut && this.protocol == protocol
      ensures this.riskScore == riskScore && this.remoteIp == remoteIp && this.org == org && this.country == country
    {
      this.timestamp, this.port, this.pid, this.appName := timestamp, port, pid, appName;
      this.kbIn, this.kbOut, this.protocol := kbIn, kbOut, protocol;
      this.riskScore, this.remoteIp, this.org, this.country := riskScore, remoteIp, org, country;
    }
  }

  type Cache = map<u16, seq<PortSnapshot>>

  function Deque(cache: Cache, port: u16): seq<PortSnapshot> {
    if port in cache then cache[port] else []
  }

  /** `deque(maxlen=max).append(s)` */
  function Appended(dq: seq<PortSnapshot>, s: PortSnapshot, max: nat): seq<PortSnapshot> {
    var longer := dq + [s];
    if |longer| > max then longer[|longer| - max..] else longer
  }

  /** The new entry is kept last, with as many of the latest as there is room for. */
  lemma AppendedMeans(dq: seq<PortSnapshot>, s: PortSnapshot, max: nat)
    ensures var n := if |dq| < max then |dq| + 1 else max;
            |dq| <= max ==> Appended(dq, s, max) == (dq + [s])[|dq| + 1 - n..]
    ensures max > 0 ==> Appended(dq, s, max) != [] && Appended(dq, s, max)[|Appended(dq, s, max)| - 1] == s
  {}

  function AfterAdd(cache: Cache, s: PortSnapshot, max: nat): Cache {
    cache[s.port := Appended(Deque(cache, s.port), s, max)]
  }

  /** What is left after popping stale entries from the left. */
  function Popped(dq: seq<PortSnapshot>, cutoff: real): seq<PortSnapshot> {
    if dq != [] && dq[0].timestamp < cutoff then Popped(dq[1..], cutoff) else dq
  }

  function AfterEvict(cache: Cache, cutoff: real): Cache {
    map p | p in cache && Popped(cache[p], cutoff) != [] :: Popped(cache[p], cutoff)
  }

  /** The entries no older than the cutoff, in order. */
  function Recent(dq: seq<PortSnapshot>, cutoff: real): seq<PortSnapshot> {
    if dq == [] then []
    else (if dq[0].timestamp >= cutoff then [dq[0]] else []) + Recent(dq[1..], cutoff)
  }

  /** `get_history(port, seconds)` at time `now`; all entries without a limit. */
  function History(cache: Cache, port: u16, seconds: Option<real>, now: real): seq<PortSnapshot> {
    match seconds
    case None => Deque(cache, port)
    case Some(s) => Recent(Deque(cache, port), now - s)
  }

  /** The number of entries over all ports. */
  ghost function TotalEntries(cache: Cache): nat
    decreases cache.Keys
  {
    if cache == map[] then 0
    else
      var p :| p in cache;
      |cache[p]| + TotalEntries(cache - {p})
  }

  lemma {:induction false} TotalRemove(cache: Cache, p: u16)
    requires p in cache
    ensures TotalEntries(cache) == |cache[p]| + TotalEntries(cache - {p})
    decreases cache.Keys
  {
    var q :| q in cache && TotalEntries(cache) == |cache[q]| + TotalEntries(cache - {q});
    if q == p {
    } else {
      TotalRemove(cache - {q}, p);
      TotalRemove(cache - {p}, q);
      assert cache - {q} - {p} == cache - {p} - {q};
    }
  }

  // ---- one port's history

  predicate Chronological(dq: seq<PortSnapshot>) {
    forall i, j | 0 <= i < j < |dq| :: dq[i].timestamp <= dq[j].timestamp
  }

  /** In time order, popping from the left removes exactly the stale entries. */
  lemma {:induction false} PoppedIsRecent(dq: seq<PortSnapshot>, cutoff: real)
    requires Chronological(dq)
    ensures Popped(dq, cutoff) == Recent(dq, cutoff)
  {
    if dq == [] {
    } else {
      PoppedIsRecent(dq[1..], cutoff);
      if dq[0].timestamp >= cutoff {
        AllRecent(dq, cutoff);
      }
    }
  }

  /** Filtering goes entry by entry and keeps those not older than the cutoff. */
  lemma {:induction false} RecentMeans(a: seq<PortSnapshot>, s: PortSnapshot, cutoff: real)
    ensures Recent(a + [s], cutoff) == Recent(a, cutoff) + if s.timestamp < cutoff then [] else [s]
  {
    if a == [] {
      assert [s][1..] == [];
    } else {
      RecentMeans(a[1..], s, cutoff);
      assert (a + [s])[0] == a[0] && (a + [s])[1..] == a[1..] + [s];
      var head: seq<PortSnapshot> := if a[0].timestamp >= cutoff then [a[0]] else [];
      var x, y := Recent(a[1..], cutoff), if s.timestamp < cutoff then [] else [s];
      assert head + (x + y) == head + x + y;
    }
  }

  lemma {:induction false} AllRecent(dq: seq<PortSnapshot>, cutoff: real)
    requires forall i | 0 <= i < |dq| :: dq[i].timestamp >= cutoff
    ensures Recent(dq, cutoff) == dq
  {
    if dq == [] {
    } else {
      AllRecent(dq[1..], cutoff);
      assert dq == [dq[0]] + dq[1..];
    }
  }

  lemma {:induction false} RecentTwice(dq: seq<PortSnapshot>, early: real, late: real)
    requires early <= late
    ensures Recent(Recent(dq, early), late) == Recent(dq, late)
  {
    if dq == [] {
    } else {
      RecentTwice(dq[1..], early, late);
      if dq[0].timestamp >= early {
        assert ([dq[0]] + Recent(dq[1..], early))[1..] == Recent(dq[1..], early);
      } else {
        assert Recent(dq, early) == Recent(dq[1..], early);
      }
    }
  }

  lemma {:induction false} PoppedIsSuffix(dq: seq<PortSnapshot>, cutoff: real) returns (k: nat)
    ensures k <= |dq| && Popped(dq, cutoff) == dq[k..]
    ensures forall i | 0 <= i < k :: dq[i].timestamp < cutoff
    ensures k < |dq| ==> dq[k].timestamp >= cutoff
  {
    k := 0;
    if dq != [] && dq[0].timestamp < cutoff {
      k := PoppedIsSuffix(dq[1..], cutoff);
      k := k + 1;
      assert forall i | 1 <= i < k :: dq[i] == dq[1..][i - 1];
    }
  }

  lemma DequeAfterAdd(cache: Cache, s: PortSnapshot, max: nat, port: u16)
    ensures Deque(AfterAdd(cache, s, max), port)
         == if port == s.port then Appended(Deque(cache, port), s, max) else Deque(cache, port)
  {}

  lemma DequeAfterEvict(cache: Cache, cutoff: real, port: u16)
    ensures Deque(AfterEvict(cache, cutoff), port) == Popped(Deque(cache, port), cutoff)
    ensures port in AfterEvict(cache, cutoff) <==> Popped(Deque(cache, port), cutoff) != []
  {}

  // ---- runs of adds and cleanups

  datatype Op = Add(snapshot: PortSnapshot) | Evict(now: real, maxAge: real)

  function AfterOp(max: nat, cache: Cache, op: Op): Cache {
    match op
    case Add(s) => AfterAdd(cache, s, max)
    case Evict(now, maxAge) => AfterEvict(cache, now - maxAge)
  }

  function AfterOps(max: nat, ops: seq<Op>): Cache {
    if ops == [] then map[] else AfterOp(max, AfterOps(max, ops[..|ops| - 1]), ops[|ops| - 1])
  }

  /** What an operation does to one port's history. */
  function DequeAfter(max: nat, dq: seq<PortSnapshot>, op: Op, port: u16): seq<PortSnapshot> {
    match op
    case Add(s) => if s.port == port then Appended(dq, s, max) else dq
    case Evict(now, maxAge) => Popped(dq, now - maxAge)
  }

  lemma DequeAfterOp(max: nat, cache: Cache, op: Op, port: u16)
    ensures Deque(AfterOp(max, cache, op), port) == DequeAfter(max, Deque(cache, port), op, port)
  {
    match op
    case Add(s) => DequeAfterAdd(cache, s, max, port);
    case Evict(now, maxAge) => DequeAfterEvict(cache, now - maxAge, port);
  }

  /** The unbounded log: every snapshot ever added for the port. */
  function Log(ops: seq<Op>, port: u16): seq<PortSnapshot> {
    if ops == [] then []
    else
      LogAfter(Log(ops[..|ops| - 1], port), ops[|ops| - 1], port)
  }

  ghost predicate IsSuffix(a: seq<PortSnapshot>, b: seq<PortSnapshot>) {
    |a| <= |b| && a == b[|b| - |a|..]
  }

  function LogAfter(log: seq<PortSnapshot>, op: Op, port: u16): seq<PortSnapshot> {
    log + if op.Add? && op.snapshot.port == port then [op.snapshot] else []
  }

  lemma SuffixStep(max: nat, dq: seq<PortSnapshot>, log: seq<PortSnapshot>, op: Op, port: u16)
    requires IsSuffix(dq, log) && |dq| <= max
    ensures IsSuffix(DequeAfter(max, dq, op, port), LogAfter(log, op, port)) && |DequeAfter(max, dq, op, port)| <= max
  {
    if op.Evict? {
      var k := PoppedIsSuffix(dq, op.now - op.maxAge);
    }
  }

  /** A port's history is the end of its log, no longer than the bound. */
  lemma {:induction false} HistoryIsLogSuffix(max: nat, ops: seq<Op>, port: u16)
    ensures IsSuffix(Deque(AfterOps(max, ops), port), Log(ops, port))
    ensures |Deque(AfterOps(max, ops), port)| <= max
  {
    hide Deque, AfterOp, IsSuffix, DequeAfter;
    if ops == [] {
      NothingYet(max, port);
    } else {
      var front, op := ops[..|ops| - 1], ops[|ops| - 1];
      HistoryIsLogSuffix(max, front, port);
      DequeAfterOp(max, AfterOps(max, front), op, port);
      SuffixStep(max, Deque(AfterOps(max, front), port), Log(front, port), op, port);
    }
  }

  lemma NothingYet(max: nat, port: u16)
    ensures Deque(AfterOps(max, []), port) == [] && IsSuffix([], Log([], port))
  {}

  /** Until the first cleanup a history is as long as its log and the bound allow. */
  lemma {:induction false} HistoryIsFull(max: nat, ops: seq<Op>, port: u16)
    requires forall i | 0 <= i < |ops| :: ops[i].Add?
    ensures |Deque(AfterOps(max, ops), port)| == if |Log(ops, port)| < max then |Log(ops, port)| else max
  {
    hide Deque, AfterOp;
    if ops == [] {
      NothingYet(max, port);
    } else {
      var front, op := ops[..|ops| - 1], ops[|ops| - 1];
      HistoryIsFull(max, front, port);
      DequeAfterOp(max, AfterOps(max, front), op, port);
    }
  }

  /** Snapshots of a port are added in time order. */
  ghost predicate InOrder(ops: seq<Op>) {
    forall port: u16 :: Chronological(Log(ops, port))
  }

  lemma DequeInOrder(max: nat, ops: seq<Op>, port: u16)
    requires InOrder(ops)
    ensures Chronological(Deque(AfterOps(max, ops), port))
  {
    HistoryIsLogSuffix(max, ops, port);
    assert Chronological(Log(ops, port));
  }

  /** A cleanup keeps, for each port, exactly the entries that are not older than
      the maximum age, and leaves no empty history behind. */
  lemma EvictRemovesExactlyStale(max: nat, ops: seq<Op>, now: real, maxAge: real, port: u16)
    requires InOrder(ops)
    ensures var before, after := AfterOps(max, ops), AfterEvict(AfterOps(max, ops), now - maxAge);
            && Deque(after, port) == Recent(Deque(before, port), now - maxAge)
            && (port in after <==> Recent(Deque(before, port), now - maxAge) != [])
    ensures var before, after := Deque(AfterOps(max, ops), port), Deque(AfterEvict(AfterOps(max, ops), now - maxAge), port);
            exists k | 0 <= k <= |before| ::
              && after == before[k..]
              && (forall i | 0 <= i < k :: before[i].timestamp < now - maxAge)
              && (forall i | k <= i < |before| :: before[i].timestamp >= now - maxAge)
  {
    hide AfterOps, InOrder, AfterEvict, Recent;
    DequeInOrder(max, ops, port);
    var k := PoppedIsSuffix(Deque(AfterOps(max, ops), port), now - maxAge);
    PoppedIsRecent(Deque(AfterOps(max, ops), port), now - maxAge);
    DequeAfterEvict(AfterOps(max, ops), now - maxAge, port);
  }

  /** A cleanup is invisible to a query, at the same time, that reaches no further
      back than the maximum age. */
  lemma EvictKeepsHistory(max: nat, ops: seq<Op>, now: real, maxAge: real, port: u16, seconds: real)
    requires InOrder(ops) && seconds <= maxAge
    ensures History(AfterEvict(AfterOps(max, ops), now - maxAge), port, Some(seconds), now)
         == History(AfterOps(max, ops), port, Some(seconds), now)
  {
    hide AfterEvict, Deque, AfterOps, Recent, InOrder;
    EvictRemovesExactlyStale(max, ops, now, maxAge, port);
    RecentTwice(Deque(AfterOps(max, ops), port), now - maxAge, now - seconds);
  }

  // ---- the live table

  function Fresh(s: PortSnapshot, now: real): Option<PortSnapshot> {
    if now - s.timestamp <= TTL_SECONDS then Some(s) else None
  }

  function LastOf(dq: seq<PortSnapshot>, now: real): Option<PortSnapshot> {
    if dq == [] then None else Fresh(dq[|dq| - 1], now)
  }

  /** The live table's entry for a port, from the cache or from the unbounded log. */
  function InCache(cache: Cache, now: real): u16 -> Option<PortSnapshot> {
    (p: u16) => LastOf(Deque(cache, p), now)
  }

  function InLog(ops: seq<Op>, now: real): u16 -> Option<PortSnapshot> {
    (p: u16) => LastOf(Log(ops, p), now)
  }

  /** No cleanup is later than `now` or keeps less than the table shows. */
  predicate CleanupsBefore(ops: seq<Op>, now: real) {
    forall i | 0 <= i < |ops| && ops[i].Evict? :: ops[i].now <= now && ops[i].maxAge >= TTL_SECONDS
  }

  /** Ends like the log, or has lost only what the table would not show. */
  predicate EndsLike(dq: seq<PortSnapshot>, log: seq<PortSnapshot>, now: real) {
    if dq != [] then log != [] && dq[|dq| - 1] == log[|log| - 1] else LastOf(log, now) == None
  }

  lemma EndsLikeStep(max: nat, dq: seq<PortSnapshot>, log: seq<PortSnapshot>, op: Op, port: u16, now: real)
    requires max >= 1 && EndsLike(dq, log, now)
    requires op.Evict? ==> op.now <= now && op.maxAge >= TTL_SECONDS
    ensures EndsLike(DequeAfter(max, dq, op, port), LogAfter(log, op, port), now)
  {
    if op.Evict? {
      var k := PoppedIsSuffix(dq, op.now - op.maxAge);
    }
  }

  lemma {:induction false} CacheEndsLikeLog(max: nat, ops: seq<Op>, now: real, port: u16)
    requires max >= 1 && CleanupsBefore(ops, now)
    ensures EndsLike(Deque(AfterOps(max, ops), port), Log(ops, port), now)
  {
    hide Deque, AfterOp, DequeAfter, EndsLike;
    if ops == [] {
      NothingYet(max, port);
      NothingEndsLikeNothing(now);
    } else {
      var front, op := ops[..|ops| - 1], ops[|ops| - 1];
      CacheEndsLikeLog(max, front, now, port);
      DequeAfterOp(max, AfterOps(max, front), op, port);
      EndsLikeStep(max, Deque(AfterOps(max, front), port), Log(front, port), op, port, now);
    }
  }

  lemma NothingEndsLikeNothing(now: real)
    ensures EndsLike([], [], now)
  {}

  /** The bound and the cleanups are invisible to the live table: for every port it
      shows what the unbounded log of all snapshots would show. */
  lemma BoundedCacheIsInvisible(max: nat, ops: seq<Op>, now: real, port: u16)
    requires max >= 1 && CleanupsBefore(ops, now)
    ensures InCache(AfterOps(max, ops), now)(port) == InLog(ops, now)(port)
  {
    CacheEndsLikeLog(max, ops, now, port);
  }

  /** `rows` lists, by strictly ascending port, exactly the ports' entries. */
  ghost predicate IsTable(rows: seq<PortSnapshot>, entry: u16 -> Option<PortSnapshot>) {
    && (forall i, j | 0 <= i < j < |rows| :: rows[i].port < rows[j].port)
    && (forall i | 0 <= i < |rows| :: entry(rows[i].port) == Some(rows[i]))
    && (forall p: u16 | entry(p).Some? :: entry(p).value in rows)
  }

  /** So the table read off the cache is the table of the unbounded log. */
  lemma TableOfUnboundedLog(max: nat, ops: seq<Op>, now: real, rows: seq<PortSnapshot>)
    requires max >= 1 && CleanupsBefore(ops, now)
    ensures IsTable(rows, InCache(AfterOps(max, ops), now)) <==> IsTable(rows, InLog(ops, now))
  {
    hide Deque, LastOf, Log, AfterOps;
    forall p: u16
      ensures InCache(AfterOps(max, ops), now)(p) == InLog(ops, now)(p)
    {
      BoundedCacheIsInvisible(max, ops, now, p);
    }
  }

  /** The live table, spelled out: the last snapshot of every port that is at most five
      seconds old, and nothing else. */
  lemma TableMeans(cache: Cache, now: real, rows: seq<PortSnapshot>, s: PortSnapshot)
    requires IsTable(rows, InCache(cache, now))
    ensures forall i, j | 0 <= i < j < |rows| :: rows[i].port < rows[j].port
    ensures s in rows <==> exists p: u16 :: p in cache && cache[p] != [] && s == cache[p][|cache[p]| - 1] && now - s.timestamp <= 5.0
  {
    if s in rows {
      var i :| 0 <= i < |rows| && rows[i] == s;
      assert InCache(cache, now)(s.port) == Some(s);
    }
    if p: u16 :| p in cache && cache[p] != [] && s == cache[p][|cache[p]| - 1] && now - s.timestamp <= 5.0 {
      assert InCache(cache, now)(p) == Some(s);
    }
  }

  /** There is only one such table. */
  lemma TableIsUnique(a: seq<PortSnapshot>, b: seq<PortSnapshot>, entry: u16 -> Option<PortSnapshot>)
    requires IsTable(a, entry) && IsTable(b, entry)
    ensures a == b
  {
    TablePrefix(a, b, entry, |a|);
    TablePrefix(b, a, entry, |b|);
  }

  /** Row `n` of one table is not before row `n` of a table that agrees with it so far. */
  lemma RowIsInOther(a: seq<PortSnapshot>, b: seq<PortSnapshot>, entry: u16 -> Option<PortSnapshot>, n: nat) returns (i: nat)
    requires IsTable(a, entry) && IsTable(b, entry) && n < |a| && n <= |b|
    requires forall k | 0 <= k < n :: a[k] == b[k]
    ensures n <= i < |b| && b[i] == a[n]
  {
    var s := a[n];
    assert entry(s.port) == Some(s);
    i :| 0 <= i < |b| && b[i] == s;
    assert forall k | 0 <= k < n :: b[k].port < s.port;
  }

  lemma RowsAscend(rows: seq<PortSnapshot>, entry: u16 -> Option<PortSnapshot>, m: nat, n: nat)
    requires IsTable(rows, entry) && m <= n < |rows|
    ensures rows[m].port <= rows[n].port && entry(rows[m].port) == Some(rows[m])
  {}

  lemma {:induction false} TablePrefix(a: seq<PortSnapshot>, b: seq<PortSnapshot>, entry: u16 -> Option<PortSnapshot>, n: nat)
    requires IsTable(a, entry) && IsTable(b, entry) && n <= |a|
    ensures n <= |b| && forall k | 0 <= k < n :: a[k] == b[k]
  {
    hide IsTable;
    if n == 0 {
    } else {
      TablePrefix(a, b, entry, n - 1);
      var i := RowIsInOther(a, b, entry, n - 1);
      var j := RowIsInOther(b, a, entry, n - 1);
      RowsAscend(a, entry, n - 1, j);
      RowsAscend(b, entry, n - 1, i);
    }
  }

  // ---- the cache object

  class SlidingWindowCache {
    const maxEntries: nat
    var cache: Cache

    constructor (maxEntries: nat)
      ensures cache == map[] && this.maxEntries == maxEntries
    {
      this.maxEntries := maxEntries;
      cache := map[];
    }

    method AddSnapshot(snapshot: PortSnapshot)
      modifies this`cache
      ensures cache == AfterAdd(old(cache), snapshot, maxEntries)
    {
      var port := snapshot.port;
      if port !in cache {
        cache := cache[port := []];
      }
      var dq := cache[port] + [snapshot];
      cache := cache[port := if |dq| > maxEntries then dq[|dq| - maxEntries..] else dq];
    }

    method GetHistory(port: u16, seconds: Option<real>, now: real) returns (entries: seq<PortSnapshot>)
      ensures entries == History(cache, port, seconds, now)
    {
      if port !in cache {
        return [];
      }
      entries := cache[port];
      if seconds.Some? {
        var cutoff := now - seconds.value;
        var kept, i := [], 0;
        while i < |entries|
          invariant i <= |entries| && kept + Recent(entries[i..], cutoff) == Recent(entries, cutoff)
        {
          assert entries[i..][1..] == entries[i + 1..];
          if entries[i].timestamp >= cutoff {
            kept := kept + [entries[i]];
          }
          i := i + 1;
        }
        entries := kept;
      }
    }

    /** Pops the stale entries at the left of one history. */
    method PopStale(dq: seq<PortSnapshot>, cutoff: real) returns (rest: seq<PortSnapshot>, popped: nat)
      ensures rest == Popped(dq, cutoff) && popped == |dq| - |rest|
    {
      rest, popped := dq, 0;
      while rest != [] && rest[0].timestamp < cutoff
        invariant popped + |rest| == |dq| && Popped(rest, cutoff) == Popped(dq, cutoff)
        decreases |rest|
      {
        rest, popped := rest[1..], popped + 1;
      }
    }

    /** Cleans up port by port, in whatever order the ports come, and drops the
        ports left empty. */
    method EvictStale(now: real, maxAge: real) returns (evicted: nat)
      modifies this`cache
      ensures cache == AfterEvict(old(cache), now - maxAge)
      ensures evicted == TotalEntries(old(cache)) - TotalEntries(cache)
    {
      hide Popped, TotalEntries;
      var cutoff := now - maxAge;
      evicted := 0;
      ghost var before := cache;
      var todo := cache.Keys;
      while todo != {}
        invariant todo <= before.Keys && todo <= cache.Keys
        invariant forall p | p in todo :: cache[p] == before[p]
        invariant forall p | p !in todo :: p in cache <==> p in before && Popped(before[p], cutoff) != []
        invariant forall p | p in cache && p !in todo :: cache[p] == Popped(before[p], cutoff)
        invariant evicted == TotalEntries(before) - TotalEntries(cache)
        decreases todo
      {
        var port :| port in todo;
        var dq, popped := PopStale(cache[port], cutoff);
        TotalReplace(cache, port, dq);
        evicted := evicted + popped;
        if dq == [] {
          cache := cache - {port};
        } else {
          cache := cache[port := dq];
        }
        todo := todo - {port};
      }
      assert cache == AfterEvict(before, cutoff);
    }
  }

  lemma TotalReplace(cache: Cache, port: u16, dq: seq<PortSnapshot>)
    requires port in cache
    ensures TotalEntries(cache - {port}) == TotalEntries(cache) - |cache[port]|
    ensures TotalEntries(cache[port := dq]) == TotalEntries(cache) - |cache[port]| + |dq|
  {
    TotalRemove(cache, port);
    TotalRemove(cache[port := dq], port);
    assert cache[port := dq] - {port} == cache - {port};
  }
}
