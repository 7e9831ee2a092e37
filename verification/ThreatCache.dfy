/** The cache of address metadata.  A lookup is two critical sections, with the fetch
    it starts ending in a third; each is one atomic step, and the steps of any
    number of lookups and fetches may interleave. */
module ThreatCache {
  import opened Text
  import opened OrderedDict

  datatype Metadata = Metadata(org: string, city: Option<string>, country: string, latitude: real, longitude: real, risk: nat)

  const PENDING := Metadata("Resolving...", None, "??", 0.0, 0.0, 0)
  const TTL := 3600.0

  /** The two maps: metadata in order of use, and the time of each store. */
  datatype Cache = Cache(data: Dict<string, Metadata>, stamps: map<string, real>)

  datatype Answer = Local | Invalid | Hit(metadata: Metadata) | Miss

  predicate StartsWith(s: string, prefix: string) {
    prefix <= s
  }

  predicate IsLocal(ip: string) {
    ip == "" || StartsWith(ip, "127.") || StartsWith(ip, "192.168.") || StartsWith(ip, "10.")
  }

  lemma IsLocalMeans(ip: string)
    ensures IsLocal(ip) <==>
            ip == "" || (|ip| >= 4 && ip[..4] == "127.") || (|ip| >= 8 && ip[..8] == "192.168.") || (|ip| >= 3 && ip[..3] == "10.")
  {}

  function Stamp(c: Cache, ip: string): real {
    if ip in c.stamps then c.stamps[ip] else 0.0
  }

  predicate Fresh(c: Cache, ip: string, now: real) {
    now - Stamp(c, ip) < TTL
  }

  /** The first critical section: a fresh entry moves to the end, a stale one goes. */
  function Lookup(c: Cache, ip: string, valid: bool, now: real): (Cache, Answer) {
    if IsLocal(ip) then (c, Local)
    else if !valid then (c, Invalid)
    else if !Has(c.data, ip) then (c, Miss)
    else if Fresh(c, ip, now) then (c.(data := MoveToEnd(c.data, ip)), Hit(Get(c.data, ip)))
    else (Cache(Remove(c.data, ip), c.stamps - {ip}), Miss)
  }

  function Insert(c: Cache, ip: string, m: Metadata, now: real): Cache {
    Cache(Put(c.data, ip, m), c.stamps[ip := now])
  }

  /** The section in which a fetch that succeeded stores what it found: at most one
      entry, the oldest, is evicted. */
  function Store(c: Cache, ip: string, m: Metadata, now: real, limit: nat): Cache {
    var c1 := Insert(c, ip, m, now);
    if |c1.data| > limit then Cache(c1.data[1..], c1.stamps - {c1.data[0].key}) else c1
  }

  class ThreatIntel {
    const limit: nat
    var metadataCache: Dict<string, Metadata>
    var cacheTimestamps: map<string, real>

    ghost function Contents(): Cache
      reads this
    {
      Cache(metadataCache, cacheTimestamps)
    }

    constructor (limit: nat)
      ensures this.limit == limit && Contents() == Cache([], map[])
    {
      this.limit, metadataCache, cacheTimestamps := limit, [], map[];
    }

    method LookUp(ip: string, valid: bool, now: real) returns (answer: Answer)
      modifies this
      ensures (Contents(), answer) == Lookup(old(Contents()), ip, valid, now)
    {
      hide MoveToEnd, Remove;
      if IsLocal(ip) {
        return Local;
      }
      if !valid {
        return Invalid;
      }
      if Has(metadataCache, ip) {
        var stamp := if ip in cacheTimestamps then cacheTimestamps[ip] else 0.0;
        if now - stamp < TTL {
          answer := Hit(Get(metadataCache, ip));
          metadataCache := MoveToEnd(metadataCache, ip);
          return;
        }
        metadataCache := Remove(metadataCache, ip);
        cacheTimestamps := cacheTimestamps - {ip};
      }
      return Miss;
    }

    /** The second section of a lookup that missed; it does not look at the limit. */
    method MarkPending(ip: string, now: real)
      modifies this
      ensures Contents() == Insert(old(Contents()), ip, PENDING, now)
    {
      metadataCache := Put(metadataCache, ip, PENDING);
      cacheTimestamps := cacheTimestamps[ip := now];
    }

    method StoreFetched(ip: string, m: Metadata, now: real)
      modifies this
      ensures Contents() == Store(old(Contents()), ip, m, now, limit)
    {
      hide IndexOf;
      metadataCache := Put(metadataCache, ip, m);
      cacheTimestamps := cacheTimestamps[ip := now];
      if |metadataCache| > limit {
        var oldest := metadataCache[0].key;
        metadataCache := metadataCache[1..];
        if oldest in cacheTimestamps {
          cacheTimestamps := cacheTimestamps - {oldest};
        }
      }
    }
  }

  // ---- one step

  /** Both maps have the same keys. */
  ghost predicate KeysAgree(c: Cache) {
    Distinct(c.data) && forall ip :: Has(c.data, ip) <==> ip in c.stamps
  }

  lemma LookupKeepsKeys(c: Cache, ip: string, valid: bool, now: real)
    requires KeysAgree(c)
    ensures KeysAgree(Lookup(c, ip, valid, now).0)
  {
    hide IsLocal, Has, MoveToEnd, Remove, Get;
    if Has(c.data, ip) {
      MoveEffect(c.data, ip, ip);
      RemoveEffect(c.data, ip, ip);
      forall j
        ensures Has(MoveToEnd(c.data, ip), j) <==> Has(c.data, j)
        ensures Has(Remove(c.data, ip), j) <==> Has(c.data, j) && j != ip
      {
        MoveEffect(c.data, ip, j);
        RemoveEffect(c.data, ip, j);
      }
    }
  }

  /** A lookup, spelled out: local and invalid addresses do not touch the cache; an entry
      younger than an hour is returned and moved to the end; an older one goes from
      both maps; and no other entry changes. */
  lemma LookupMeans(c: Cache, ip: string, valid: bool, now: real, j: string)
    requires KeysAgree(c)
    ensures var (c', answer) := Lookup(c, ip, valid, now);
            && (IsLocal(ip) ==> answer == Local && c' == c)
            && (!IsLocal(ip) && !valid ==> answer == Invalid && c' == c)
            && (!IsLocal(ip) && valid ==>
                  && (ip !in c.stamps ==> answer == Miss && c' == c)
                  && (ip in c.stamps && now - c.stamps[ip] < 3600.0 ==>
                        && Has(c.data, ip) && answer == Hit(Get(c.data, ip)) && c'.stamps == c.stamps
                        && c'.data != [] && c'.data[|c'.data| - 1] == Entry(ip, Get(c.data, ip)))
                  && (ip in c.stamps && now - c.stamps[ip] >= 3600.0 ==>
                        answer == Miss && c'.stamps == c.stamps - {ip} && !Has(c'.data, ip)))
            && (j != ip || answer != Miss ==>
                  (Has(c'.data, j) <==> Has(c.data, j)) && (Has(c'.data, j) ==> Get(c'.data, j) == Get(c.data, j)))
  {
    hide Has, Get, MoveToEnd, Remove, IsLocal;
    DistinctKeys(c);
    if Has(c.data, ip) {
      MoveEffect(c.data, ip, j);
      RemoveEffect(c.data, ip, j);
      MoveEffect(c.data, ip, ip);
      RemoveEffect(c.data, ip, ip);
      MovedLast(c.data, ip);
    }
  }

  lemma MovedLast(d: Dict<string, Metadata>, ip: string)
    requires Has(d, ip)
    ensures var e := MoveToEnd(d, ip); e != [] && e[|e| - 1] == Entry(ip, Get(d, ip))
  {}

  /** A placeholder says that the address is being resolved, and nothing about it. */
  lemma MarkMeans(c: Cache, ip: string, now: real, j: string)
    requires KeysAgree(c)
    ensures var c' := Insert(c, ip, PENDING, now);
            && Has(c'.data, ip) && Get(c'.data, ip) == Metadata("Resolving...", None, "??", 0.0, 0.0, 0)
            && c'.stamps == c.stamps[ip := now]
            && (j != ip ==> (Has(c'.data, j) <==> Has(c.data, j)) && (Has(c'.data, j) ==> Get(c'.data, j) == Get(c.data, j)))
  {
    hide Has, Get, Put;
    DistinctKeys(c);
    PutEffect(c.data, ip, PENDING, j);
    PutEffect(c.data, ip, PENDING, ip);
  }

  lemma InsertKeepsKeys(c: Cache, ip: string, m: Metadata, now: real)
    requires KeysAgree(c)
    ensures KeysAgree(Insert(c, ip, m, now))
  {
    hide Has, Put, Get;
    PutEffect(c.data, ip, m, ip);
    forall j
      ensures Has(Put(c.data, ip, m), j) <==> j == ip || Has(c.data, j)
    {
      PutEffect(c.data, ip, m, j);
    }
  }

  lemma StoreKeepsKeys(c: Cache, ip: string, m: Metadata, now: real, limit: nat)
    requires KeysAgree(c)
    ensures KeysAgree(Store(c, ip, m, now, limit))
  {
    hide Has, Put, Get;
    var c1 := Insert(c, ip, m, now);
    InsertKeepsKeys(c, ip, m, now);
    if c1.data != [] {
      PopEffect(c1.data, ip);
      forall j
        ensures Has(c1.data[1..], j) <==> Has(c1.data, j) && j != c1.data[0].key
      {
        PopEffect(c1.data, j);
      }
    }
  }

  datatype Stored = Stored(metadata: Metadata, time: real)

  /** The entry that a store of `ip` finds or makes at the front. */
  function Oldest(c: Cache, ip: string): string {
    if c.data == [] then ip else c.data[0].key
  }

  predicate Overflows(c: Cache, ip: string, limit: nat) {
    |c.data| + (if Has(c.data, ip) then 0 else 1) > limit
  }

  /** A completed fetch never leaves the cache larger than the limit or than it was,
      whichever is more; it drops the oldest entry and nothing else, exactly when the
      limit is passed; and so it throws away its own result exactly when the limit
      is passed and that address is the oldest. */
  lemma StoreEffect(c: Cache, ip: string, m: Metadata, now: real, limit: nat, j: string)
    requires KeysAgree(c)
    ensures var c' := Store(c, ip, m, now, limit);
            && |c'.data| <= (if |c.data| > limit then |c.data| else limit)
            && (Has(c'.data, j) <==> (j == ip || Has(c.data, j)) && !(Overflows(c, ip, limit) && j == Oldest(c, ip)))
            && (Has(c'.data, j) ==> j in c'.stamps && Stored(Get(c'.data, j), c'.stamps[j]) ==
                                                      if j == ip then Stored(m, now) else Stored(Get(c.data, j), c.stamps[j]))
  {
    hide Has, Get, Put;
    var c1 := Insert(c, ip, m, now);
    PutEffect(c.data, ip, m, j);
    FrontAfterPut(c.data, ip, m);
    PopEffect(c1.data, j);
    StoreKeepsKeys(c, ip, m, now, limit);
  }

  lemma FrontAfterPut(d: Dict<string, Metadata>, ip: string, m: Metadata)
    ensures Put(d, ip, m) != [] && Put(d, ip, m)[0].key == if d == [] then ip else d[0].key
  {}

  // ---- runs

  /** `missed` holds the lookups between their two sections, `fetching` the fetches
      under way. */
  datatype State = State(cache: Cache, missed: multiset<string>, fetching: multiset<string>)

  datatype Step =
    | LookUp(ip: string, valid: bool, now: real)
    | MarkPending(ip: string, now: real)
    | Fetched(ip: string, metadata: Metadata, now: real)
    | FetchFails(ip: string)

  /** The step can be taken: a second section follows a miss, and a fetch ends once. */
  predicate Enabled(s: State, step: Step) {
    match step
    case LookUp(_, _, _) => true
    case MarkPending(ip, _) => ip in s.missed
    case Fetched(ip, _, _) => ip in s.fetching
    case FetchFails(ip) => ip in s.fetching
  }

  function Take(s: State, step: Step, limit: nat): State {
    match step
    case LookUp(ip, valid, now) =>
      var (cache, answer) := Lookup(s.cache, ip, valid, now);
      s.(cache := cache, missed := if answer.Miss? then s.missed + multiset{ip} else s.missed)
    case MarkPending(ip, now) =>
      State(Insert(s.cache, ip, PENDING, now), s.missed - multiset{ip}, s.fetching + multiset{ip})
    case Fetched(ip, m, now) =>
      s.(cache := Store(s.cache, ip, m, now, limit), fetching := s.fetching - multiset{ip})
    case FetchFails(ip) =>
      s.(fetching := s.fetching - multiset{ip})
  }

  const EMPTY := State(Cache([], map[]), multiset{}, multiset{})

  function After(run: seq<Step>, limit: nat): State {
    if run == [] then EMPTY else Take(After(run[..|run| - 1], limit), run[|run| - 1], limit)
  }

  predicate IsRun(run: seq<Step>, limit: nat) {
    run == [] || (IsRun(run[..|run| - 1], limit) && Enabled(After(run[..|run| - 1], limit), run[|run| - 1]))
  }

  /** At every boundary between steps both maps have the same keys. */
  lemma {:induction false} KeysAlwaysAgree(run: seq<Step>, limit: nat)
    ensures KeysAgree(After(run, limit).cache)
  {
    hide KeysAgree, Lookup, Insert, Store;
    if run == [] {
      NothingCached();
    } else {
      var s := After(run[..|run| - 1], limit);
      KeysAlwaysAgree(run[..|run| - 1], limit);
      match run[|run| - 1]
      case LookUp(ip, valid, now) => LookupKeepsKeys(s.cache, ip, valid, now);
      case MarkPending(ip, now) => InsertKeepsKeys(s.cache, ip, PENDING, now);
      case Fetched(ip, m, now) => StoreKeepsKeys(s.cache, ip, m, now, limit);
      case FetchFails(ip) =>
    }
  }

  lemma NothingCached()
    ensures KeysAgree(EMPTY.cache)
  {}

  /** What the last step of a run that stores the address puts under it. */
  function LastStore(run: seq<Step>, ip: string): Option<Stored> {
    if run == [] then None
    else
      match run[|run| - 1]
      case MarkPending(j, now) => if j == ip then Some(Stored(PENDING, now)) else LastStore(run[..|run| - 1], ip)
      case Fetched(j, m, now) => if j == ip then Some(Stored(m, now)) else LastStore(run[..|run| - 1], ip)
      case _ => LastStore(run[..|run| - 1], ip)
  }

  /** What the cache holds for an address. */
  function Held(c: Cache, ip: string): Option<Stored> {
    if Has(c.data, ip) && ip in c.stamps then Some(Stored(Get(c.data, ip), c.stamps[ip])) else None
  }

  lemma LookupHolds(c: Cache, j: string, valid: bool, now: real, ip: string)
    requires Distinct(c.data)
    ensures Held(Lookup(c, j, valid, now).0, ip) in {None, Held(c, ip)}
  {
    hide Has, Get, MoveToEnd, Remove, IsLocal;
    if Has(c.data, j) {
      MoveEffect(c.data, j, ip);
      RemoveEffect(c.data, j, ip);
    }
  }

  lemma InsertHolds(c: Cache, j: string, m: Metadata, now: real, ip: string)
    requires Distinct(c.data)
    ensures Held(Insert(c, j, m, now), ip) == if j == ip then Some(Stored(m, now)) else Held(c, ip)
  {
    hide Has, Get, Put;
    PutEffect(c.data, j, m, ip);
  }

  lemma StoreHolds(c: Cache, j: string, m: Metadata, now: real, limit: nat, ip: string)
    requires KeysAgree(c)
    ensures Held(Store(c, j, m, now, limit), ip) in {None, if j == ip then Some(Stored(m, now)) else Held(c, ip)}
  {
    hide Has, Get, Store;
    StoreEffect(c, j, m, now, limit, ip);
  }

  /** Whatever the cache holds is what was stored last, with the time of that store. */
  lemma {:induction false} HoldsLastStore(run: seq<Step>, limit: nat, ip: string)
    ensures Held(After(run, limit).cache, ip) in {None, LastStore(run, ip)}
  {
    hide Held, KeysAgree, Store, Lookup, Insert;
    if run == [] {
      NotCached(ip);
    } else {
      var front := run[..|run| - 1];
      var c := After(front, limit).cache;
      HoldsLastStore(front, limit, ip);
      KeysAlwaysAgree(front, limit);
      DistinctKeys(c);
      match run[|run| - 1]
      case LookUp(j, valid, now) => LookupHolds(c, j, valid, now, ip);
      case MarkPending(j, now) => InsertHolds(c, j, PENDING, now, ip);
      case Fetched(j, m, now) => StoreHolds(c, j, m, now, limit, ip);
      case FetchFails(j) =>
    }
  }

  lemma NotCached(ip: string)
    ensures Held(EMPTY.cache, ip) == None
  {}

  lemma DistinctKeys(c: Cache)
    requires KeysAgree(c)
    ensures Distinct(c.data)
  {}

  lemma StampOfHeld(c: Cache, ip: string)
    requires KeysAgree(c)
    ensures Has(c.data, ip) ==> ip in c.stamps
  {}

  /** A hit is the latest thing stored for the address that was asked for, and was
      stored less than the time to live ago. */
  lemma HitIsLatest(run: seq<Step>, limit: nat, ip: string, valid: bool, now: real)
    ensures var answer := Lookup(After(run, limit).cache, ip, valid, now).1;
            answer.Hit? ==>
              var last := LastStore(run, ip);
              last.Some? && last.value.metadata == answer.metadata && now - last.value.time < 3600.0
  {
    hide Has, Get, IsLocal, After, LastStore, KeysAgree;
    HoldsLastStore(run, limit, ip);
    KeysAlwaysAgree(run, limit);
    StampOfHeld(After(run, limit).cache, ip);
  }

  // ---- what is evicted

  /** The step uses the address: a hit, or a store for an address not in the cache.
      A store for one that is there leaves its place alone. */
  predicate Uses(c: Cache, step: Step, ip: string) {
    match step
    case LookUp(j, valid, now) => j == ip && Lookup(c, j, valid, now).1.Hit?
    case MarkPending(j, _) => j == ip && !Has(c.data, ip)
    case Fetched(j, _, _) => j == ip && !Has(c.data, ip)
    case FetchFails(_) => false
  }

  /** The number of the last step of a run that uses the address. */
  function LastUse(run: seq<Step>, limit: nat, ip: string): (n: nat)
    ensures n <= |run|
  {
    if run == [] then 0
    else
      var front := run[..|run| - 1];
      if Uses(After(front, limit).cache, run[|run| - 1], ip) then |run| else LastUse(front, limit, ip)
  }

  ghost predicate Ordered(d: Dict<string, Metadata>, use: string -> nat) {
    forall i, j | 0 <= i < j < |d| :: use(d[i].key) < use(d[j].key)
  }

  /** `later` is `use` after one more step, number `n`, which uses `ip` or nothing. */
  ghost predicate UsedNext(use: string -> nat, later: string -> nat, n: nat, ip: string, used: bool) {
    forall k :: use(k) < n && later(k) == if used && k == ip then n else use(k)
  }

  lemma MovedInOrder(d: Dict<string, Metadata>, use: string -> nat, later: string -> nat, n: nat, ip: string)
    requires Distinct(d) && Has(d, ip) && Ordered(d, use) && UsedNext(use, later, n, ip, true)
    ensures Ordered(MoveToEnd(d, ip), later)
  {
    RemovedInOrder(d, use, ip);
    forall e | e in Remove(d, ip)
      ensures e.key != ip
    {
      var i :| 0 <= i < |Remove(d, ip)| && Remove(d, ip)[i] == e;
      RemoveEffect(d, ip, ip);
      AtIndex(Remove(d, ip), i);
    }
    AddedInOrder(Remove(d, ip), use, later, n, ip, Get(d, ip));
  }

  lemma RemovedInOrder(d: Dict<string, Metadata>, use: string -> nat, ip: string)
    requires Has(d, ip) && Ordered(d, use)
    ensures Ordered(Remove(d, ip), use)
  {
    var e, k := Remove(d, ip), IndexOf(d, ip);
    assert forall i | 0 <= i < |e| :: e[i] == d[if i < k then i else i + 1];
  }

  lemma AddedInOrder(d: Dict<string, Metadata>, use: string -> nat, later: string -> nat, n: nat, ip: string, m: Metadata)
    requires Ordered(d, use) && UsedNext(use, later, n, ip, true) && forall e | e in d :: e.key != ip
    ensures Ordered(d + [Entry(ip, m)], later)
  {
    assert forall i | 0 <= i < |d| :: d[i] in d && later(d[i].key) == use(d[i].key);
  }

  lemma PutInOrder(d: Dict<string, Metadata>, use: string -> nat, later: string -> nat, n: nat, ip: string, m: Metadata)
    requires Ordered(d, use) && UsedNext(use, later, n, ip, !Has(d, ip))
    ensures Ordered(Put(d, ip, m), later)
  {
    if !Has(d, ip) {
      AddedInOrder(d, use, later, n, ip, m);
    }
  }

  /** In every interleaving the entries are in order of last use, so that the entry
      that a completed fetch evicts is the one unused for longest. */
  lemma {:induction false} OrderIsRecency(run: seq<Step>, limit: nat)
    ensures var d := After(run, limit).cache.data;
            forall i, j | 0 <= i < j < |d| :: LastUse(run, limit, d[i].key) < LastUse(run, limit, d[j].key)
  {
    hide Has, Get, Put, Remove, MoveToEnd, IsLocal, UsedNext, KeysAgree;
    if run == [] {
    } else {
      var front, step := run[..|run| - 1], run[|run| - 1];
      var c := After(front, limit).cache;
      var use, later := (k: string) => LastUse(front, limit, k), (k: string) => LastUse(run, limit, k);
      OrderIsRecency(front, limit);
      KeysAlwaysAgree(front, limit);
      DistinctKeys(c);
      NextUse(run, limit);
      if step.LookUp? && !IsLocal(step.ip) && step.valid && Has(c.data, step.ip) {
        if Fresh(c, step.ip, step.now) {
          MovedInOrder(c.data, use, later, |run|, step.ip);
        } else {
          RemovedInOrder(c.data, later, step.ip);
        }
      } else if step.MarkPending? {
        PutInOrder(c.data, use, later, |run|, step.ip, PENDING);
      } else if step.Fetched? {
        PutInOrder(c.data, use, later, |run|, step.ip, step.metadata);
      }
      assert Ordered(After(run, limit).cache.data, later);
    }
  }

  lemma NextUse(run: seq<Step>, limit: nat)
    requires run != []
    ensures var front, step := run[..|run| - 1], run[|run| - 1];
            UsedNext(k => LastUse(front, limit, k), k => LastUse(run, limit, k), |run|, step.ip,
                     Uses(After(front, limit).cache, step, step.ip))
  {
    hide Lookup, After;
  }

  // ---- what does not hold

  /** A lookup, its second section and a fetch that fails, for each address. */
  function Flood(ips: seq<string>, now: real): seq<Step> {
    if ips == [] then []
    else
      var ip := ips[|ips| - 1];
      Flood(ips[..|ips| - 1], now) + [LookUp(ip, true, now), MarkPending(ip, now), FetchFails(ip)]
  }

  lemma TakeOne(run: seq<Step>, limit: nat, step: Step)
    requires IsRun(run, limit)
    ensures After(run + [step], limit) == Take(After(run, limit), step, limit)
    ensures IsRun(run + [step], limit) <==> Enabled(After(run, limit), step)
  {
    hide Take, Enabled;
    assert (run + [step])[..|run|] == run;
  }

  /** The addresses of the cache in order, with nothing under way. */
  ghost predicate Quiet(s: State, ips: seq<string>) {
    && |s.cache.data| == |ips| && (forall i | 0 <= i < |ips| :: s.cache.data[i].key == ips[i])
    && s.missed == multiset{} && s.fetching == multiset{}
  }

  /** The limit does not bound the cache: addresses whose fetches fail all stay, so
      there is a run that ends with as many entries as there are addresses to
      look up and with nothing under way. */
  lemma {:induction false} PlaceholdersIgnoreTheLimit(ips: seq<string>, now: real, limit: nat)
    requires forall i | 0 <= i < |ips| :: !IsLocal(ips[i])
    requires forall i, j | 0 <= i < j < |ips| :: ips[i] != ips[j]
    ensures IsRun(Flood(ips, now), limit) && Quiet(After(Flood(ips, now), limit), ips)
  {
    hide IsLocal, Take, Enabled, After, IsRun, Quiet;
    if ips == [] {
      EmptyRun(limit);
      QuietAtFirst();
    } else {
      var front, ip := ips[..|ips| - 1], ips[|ips| - 1];
      PlaceholdersIgnoreTheLimit(front, now, limit);
      var run := Flood(front, now);
      var a, b, c := LookUp(ip, true, now), MarkPending(ip, now), FetchFails(ip);
      TakeOne(run, limit, a);
      FloodStep(After(run, limit), front, ip, now, limit);
      TakeOne(run + [a], limit, b);
      TakeOne(run + [a] + [b], limit, c);
      assert run + [a] + [b] + [c] == Flood(ips, now);
      assert front + [ip] == ips;
    }
  }

  lemma QuietAtFirst()
    ensures Quiet(EMPTY, [])
  {}

  lemma FloodStep(s: State, front: seq<string>, ip: string, now: real, limit: nat)
    requires !IsLocal(ip) && ip !in front && Quiet(s, front)
    ensures var s1 := Take(s, LookUp(ip, true, now), limit); var s2 := Take(s1, MarkPending(ip, now), limit);
            && Enabled(s, LookUp(ip, true, now)) && Enabled(s1, MarkPending(ip, now)) && Enabled(s2, FetchFails(ip))
            && Quiet(Take(s2, FetchFails(ip), limit), front + [ip])
  {
    hide IsLocal;
    forall i | 0 <= i < |front|
      ensures s.cache.data[i].key != ip
    {
      assert front[i] != ip;
    }
    assert IndexOf(s.cache.data, ip) == |front|;
  }

  /** The cache with a single entry. */
  function Single(ip: string, m: Metadata, time: real): Cache {
    Cache([Entry(ip, m)], map[ip := time])
  }

  lemma SingleEntry(ip: string, m: Metadata, time: real, m': Metadata, now: real, limit: nat)
    requires !IsLocal(ip) && 0.0 <= now - time < TTL && limit > 0
    ensures Lookup(Single(ip, m, time), ip, true, now) == (Single(ip, m, time), Hit(m))
    ensures Insert(Single(ip, m, time), ip, m', now) == Single(ip, m', now)
    ensures Store(Single(ip, m, time), ip, m', now, limit) == Single(ip, m', now)
  {
    hide IsLocal;
    var d := [Entry(ip, m)];
    assert IndexOf(d, ip) == 0;
    assert MoveToEnd(d, ip) == d;
    assert map[ip := time][ip := now] == map[ip := now];
  }

  lemma FirstEntry(ip: string, now: real)
    requires !IsLocal(ip)
    ensures Lookup(EMPTY.cache, ip, true, now) == (EMPTY.cache, Miss)
    ensures Insert(EMPTY.cache, ip, PENDING, now) == Single(ip, PENDING, now)
  {
    hide IsLocal;
  }

  /** Two lookups of one address that both miss can fetch it twice, and the second
      one's placeholder then hides what the first fetch found. */
  lemma LatePlaceholderHidesResult(ip: string, m: Metadata, limit: nat)
    requires !IsLocal(ip) && limit > 0
    ensures var run := [LookUp(ip, true, 0.0), LookUp(ip, true, 0.0), MarkPending(ip, 0.0), Fetched(ip, m, 1.0)];
            var late := MarkPending(ip, 2.0);
            && IsRun(run + [late], limit)
            && Lookup(After(run, limit).cache, ip, true, 2.0).1 == Hit(m)
            && Lookup(After(run + [late], limit).cache, ip, true, 2.0).1 == Hit(PENDING)
            && ip in After(run + [late], limit).fetching
  {
    hide IsLocal, Lookup, Insert, Store, Single, After, IsRun;
    var a, c, d, e := LookUp(ip, true, 0.0), MarkPending(ip, 0.0), Fetched(ip, m, 1.0), MarkPending(ip, 2.0);
    EmptyRun(limit);
    FirstEntry(ip, 0.0);
    TakeOne([], limit, a);
    TakeOne([] + [a], limit, a);
    TakeOne([] + [a] + [a], limit, c);
    SingleEntry(ip, PENDING, 0.0, m, 1.0, limit);
    TakeOne([] + [a] + [a] + [c], limit, d);
    SingleEntry(ip, m, 1.0, PENDING, 2.0, limit);
    TakeOne([] + [a] + [a] + [c] + [d], limit, e);
    SingleEntry(ip, PENDING, 2.0, PENDING, 2.0, limit);
    assert [] + [a] + [a] + [c] + [d] == [a, a, c, d];
  }

  lemma EmptyRun(limit: nat)
    ensures After([], limit) == EMPTY && IsRun([], limit)
  {}
}
