/** The cleanup of the snapshot cache runs on the scheduler's thread, while the
    dispatcher adds snapshots on another and no lock is taken.  Both are modelled
    step by step, and their steps interleave freely. */
module ConcurrentCleanup {
  import opened Text
  import opened SlotCodec
  import opened SlidingWindow

  /** Where a cleanup stands: between ports, at the test of the front entry, about to
      pop it, at the test for an empty deque, or about to delete the port. */
  datatype Cleaner =
    | Resting
    | Scanning(todo: seq<u16>, cutoff: real)
    | AtFront(port: u16, todo: seq<u16>, cutoff: real)
    | Popping(port: u16, todo: seq<u16>, cutoff: real)
    | AtEmpty(port: u16, todo: seq<u16>, cutoff: real)
    | Deleting(port: u16, todo: seq<u16>, cutoff: real)

  /** Where an add stands: it has found the port missing and will create its deque,
      is about to look the deque up, or holds it and is about to append.
      `deleted` says that the port has been deleted since the add found it. */
  datatype Adder =
    | Idle
    | Creating(snapshot: PortSnapshot)
    | Fetching(snapshot: PortSnapshot, deleted: bool)
    | Appending(snapshot: PortSnapshot, deleted: bool)

  datatype State = State(cache: Cache, cleaner: Cleaner, adder: Adder)

  datatype Step = BeginAdd(snapshot: PortSnapshot) | AddStep | BeginCleanup(ports: seq<u16>, cutoff: real) | CleanStep

  predicate Enumerates(ports: seq<u16>, cache: Cache) {
    && (forall i, j | 0 <= i < j < |ports| :: ports[i] != ports[j])
    && (forall p | p in ports :: p in cache) && (forall p | p in cache :: p in ports)
  }

  function NextAdder(max: nat, s: State): State {
    match s.adder
    case Idle => s
    case Creating(x) => s.(cache := s.cache[x.port := []], adder := Fetching(x, false))
    case Fetching(x, deleted) =>
      // a missing key ends the add with an exception
      s.(adder := if x.port in s.cache then Appending(x, false) else Idle)
    case Appending(x, deleted) =>
      // the deque of a deleted port is no longer in the cache
      s.(cache := if deleted then s.cache else AfterAdd(s.cache, x, max), adder := Idle)
  }

  function AdderAfterDelete(a: Adder, port: u16): Adder {
    match a
    case Fetching(x, deleted) => if x.port == port then Fetching(x, true) else a
    case Appending(x, deleted) => if x.port == port then Appending(x, true) else a
    case _ => a
  }

  function NextCleaner(s: State): State {
    match s.cleaner
    case Resting => s
    case Scanning(todo, cutoff) =>
      s.(cleaner := if todo == [] then Resting else AtFront(todo[0], todo[1..], cutoff))
    case AtFront(p, todo, cutoff) =>
      var dq := Deque(s.cache, p);
      s.(cleaner := if dq != [] && dq[0].timestamp < cutoff then Popping(p, todo, cutoff) else AtEmpty(p, todo, cutoff))
    case Popping(p, todo, cutoff) =>
      var dq := Deque(s.cache, p);
      s.(cache := if dq == [] then s.cache else s.cache[p := dq[1..]], cleaner := AtFront(p, todo, cutoff))
    case AtEmpty(p, todo, cutoff) =>
      s.(cleaner := if Deque(s.cache, p) == [] then Deleting(p, todo, cutoff) else Scanning(todo, cutoff))
    case Deleting(p, todo, cutoff) =>
      State(s.cache - {p}, Scanning(todo, cutoff), AdderAfterDelete(s.adder, p))
  }

  /** One step; a step that is not possible changes nothing. */
  function Next(max: nat, s: State, step: Step): State {
    match step
    case BeginAdd(x) =>
      if s.adder.Idle? then s.(adder := if x.port in s.cache then Fetching(x, false) else Creating(x)) else s
    case AddStep => NextAdder(max, s)
    case BeginCleanup(ports, cutoff) =>
      if s.cleaner.Resting? && Enumerates(ports, s.cache) then s.(cleaner := Scanning(ports, cutoff)) else s
    case CleanStep => NextCleaner(s)
  }

  function After(max: nat, run: seq<Step>): State {
    if run == [] then State(map[], Resting, Idle) else Next(max, After(max, run[..|run| - 1]), run[|run| - 1])
  }

  // ---- the log, and what becomes of the last add

  /** The step ends an add for the port, be it with an exception. */
  predicate AddEnds(s: State, step: Step, p: u16) {
    && step.AddStep?
    && ((s.adder.Appending? && s.adder.snapshot.port == p)
        || (s.adder.Fetching? && s.adder.snapshot.port == p && p !in s.cache))
  }

  /** Every snapshot that was added for the port. */
  function Added(max: nat, run: seq<Step>, p: u16): seq<PortSnapshot> {
    if run == [] then []
    else
      var front := run[..|run| - 1];
      var s := After(max, front);
      Added(max, front, p) + if AddEnds(s, run[|run| - 1], p) then [s.adder.snapshot] else []
  }

  datatype Fate = Kept | AtRisk | Lost

  /** The cleanup has found the port's deque empty and is about to delete it, or it
      has found its front stale and is about to pop what is the only entry that the
      deque can hold. */
  predicate Exposed(max: nat, c: Cleaner, p: u16) {
    (c.Deleting? && c.port == p) || (max == 1 && c.Popping? && c.port == p)
  }

  /** What becomes of the last add for a port: it is lost if the port is deleted while
      the add is under way, or if it ends between the cleanup's test and what the
      cleanup does next. */
  function FateOf(max: nat, run: seq<Step>, p: u16): Fate {
    if run == [] then Kept
    else
      var front, step := run[..|run| - 1], run[|run| - 1];
      var s, fate := After(max, front), FateOf(max, front, p);
      if AddEnds(s, step, p) then
        if s.adder.deleted then Lost else if Exposed(max, s.cleaner, p) then AtRisk else Kept
      else if fate == AtRisk && step.CleanStep? && Exposed(max, s.cleaner, p) then Lost
      else fate
  }

  // ---- the invariant

  predicate CleanerPlaced(s: State) {
    match s.cleaner
    case Resting => true
    case Scanning(todo, _) => Ahead(todo, s.cache)
    case AtFront(p, todo, _) => p in s.cache && p !in todo && Ahead(todo, s.cache)
    case Popping(p, todo, _) => p in s.cache && p !in todo && Ahead(todo, s.cache)
    case AtEmpty(p, todo, _) => p in s.cache && p !in todo && Ahead(todo, s.cache)
    case Deleting(p, todo, _) => p in s.cache && p !in todo && Ahead(todo, s.cache)
  }

  /** The ports still to be dealt with are distinct and in the cache. */
  predicate Ahead(todo: seq<u16>, cache: Cache) {
    (forall i, j | 0 <= i < j < |todo| :: todo[i] != todo[j]) && forall p | p in todo :: p in cache
  }

  predicate AdderPlaced(s: State) {
    match s.adder
    case Idle => true
    case Creating(x) => x.port !in s.cache
    case Fetching(x, deleted) => deleted <==> x.port !in s.cache
    case Appending(x, deleted) => deleted <==> x.port !in s.cache
  }

  lemma AheadShrinks(todo: seq<u16>, cache: Cache)
    requires todo != [] && Ahead(todo, cache)
    ensures todo[0] in cache && todo[0] !in todo[1..] && Ahead(todo[1..], cache)
  {
    assert todo[0] in todo;
    forall p | p in todo[1..]
      ensures p in todo && p != todo[0]
    {
      var i :| 1 <= i < |todo| && todo[i] == p;
    }
  }

  lemma AheadWithout(todo: seq<u16>, cache: Cache, p: u16)
    requires Ahead(todo, cache) && p !in todo
    ensures Ahead(todo, cache - {p})
  {}

  lemma {:induction false} AlwaysPlaced(max: nat, run: seq<Step>)
    ensures CleanerPlaced(After(max, run)) && AdderPlaced(After(max, run))
  {
    hide Ahead, Enumerates;
    if run == [] {
    } else {
      AlwaysPlaced(max, run[..|run| - 1]);
      PlacedNext(max, After(max, run[..|run| - 1]), run[|run| - 1]);
    }
  }

  lemma PlacedNext(max: nat, s: State, step: Step)
    requires CleanerPlaced(s) && AdderPlaced(s)
    ensures var s' := Next(max, s, step); CleanerPlaced(s') && AdderPlaced(s')
  {
    hide Ahead, Enumerates, Appended;
    match step
    case BeginAdd(_) =>
    case AddStep =>
      var s' := NextAdder(max, s);
      assert s.cache.Keys <= s'.cache.Keys;
      if !s.cleaner.Resting? {
        AheadGrows(s.cleaner.todo, s.cache, s'.cache);
      }
    case BeginCleanup(ports, cutoff) =>
      EnumerationIsAhead(ports, s.cache);
    case CleanStep =>
      match s.cleaner {
        case Resting =>
        case Scanning(todo, cutoff) => if todo != [] { AheadShrinks(todo, s.cache); }
        case AtFront(p, todo, cutoff) =>
        case Popping(p, todo, cutoff) => AheadGrows(todo, s.cache, NextCleaner(s).cache);
        case AtEmpty(p, todo, cutoff) =>
        case Deleting(p, todo, cutoff) => AheadWithout(todo, s.cache, p);
      }
  }

  lemma AheadGrows(todo: seq<u16>, cache: Cache, cache': Cache)
    ensures cache.Keys <= cache'.Keys && Ahead(todo, cache) ==> Ahead(todo, cache')
  {}

  lemma EnumerationIsAhead(ports: seq<u16>, cache: Cache)
    ensures Enumerates(ports, cache) ==> Ahead(ports, cache)
  {}

  /** What the port's deque, log and last add have to do with one another. */
  predicate Agrees(max: nat, dq: seq<PortSnapshot>, log: seq<PortSnapshot>, fate: Fate, c: Cleaner, p: u16, now: real) {
    && |dq| <= max
    && (match fate
        case Kept => EndsLike(dq, log, now)
        case AtRisk => Exposed(max, c, p) && dq != [] && log != [] && dq[|dq| - 1] == log[|log| - 1]
        case Lost => dq == [] && log != [])
    && (c.Deleting? && c.port == p && fate != AtRisk ==> dq == [])
    && (c.Popping? && c.port == p ==> dq != [] && (fate != AtRisk && |dq| == 1 ==> dq[0].timestamp < c.cutoff))
    && (!c.Resting? ==> c.cutoff <= now - TTL_SECONDS)
  }

  predicate CutoffsBefore(run: seq<Step>, now: real) {
    forall step | step in run && step.BeginCleanup? :: step.cutoff <= now - TTL_SECONDS
  }

  lemma AddAgrees(max: nat, s: State, log: seq<PortSnapshot>, fate: Fate, p: u16, now: real)
    requires max >= 1 && AdderPlaced(s) && Agrees(max, Deque(s.cache, p), log, fate, s.cleaner, p, now)
    ensures var ends, s' := AddEnds(s, AddStep, p), NextAdder(max, s);
            var log' := if ends then log + [s.adder.snapshot] else log;
            var fate' := if !ends then fate else if s.adder.deleted then Lost else if Exposed(max, s.cleaner, p) then AtRisk else Kept;
            Agrees(max, Deque(s'.cache, p), log', fate', s'.cleaner, p, now)
  {}

  lemma CleanAgrees(max: nat, s: State, log: seq<PortSnapshot>, fate: Fate, p: u16, now: real)
    requires max >= 1 && CleanerPlaced(s) && Agrees(max, Deque(s.cache, p), log, fate, s.cleaner, p, now)
    ensures var s' := NextCleaner(s);
            var fate' := if fate == AtRisk && Exposed(max, s.cleaner, p) then Lost else fate;
            Agrees(max, Deque(s'.cache, p), log, fate', s'.cleaner, p, now)
  {
    hide Ahead;
  }

  lemma {:induction false} AlwaysAgrees(max: nat, run: seq<Step>, p: u16, now: real)
    requires max >= 1 && CutoffsBefore(run, now)
    ensures var s := After(max, run);
            Agrees(max, Deque(s.cache, p), Added(max, run, p), FateOf(max, run, p), s.cleaner, p, now)
  {
    hide Agrees, CleanerPlaced, AdderPlaced, Exposed, NextAdder, NextCleaner, AddEnds;
    if run == [] {
      NothingAgrees(max, p, now);
    } else {
      var front, step := run[..|run| - 1], run[|run| - 1];
      var s := After(max, front);
      AlwaysAgrees(max, front, p, now);
      AlwaysPlaced(max, front);
      assert step in run;
      var log, fate := Added(max, front, p), FateOf(max, front, p);
      assert log + [] == log;
      OnlyAddsEnd(s, step, p);
      match step
      case BeginAdd(_) =>
      case AddStep => AddAgrees(max, s, log, fate, p, now);
      case BeginCleanup(ports, cutoff) => StartAgrees(max, Deque(s.cache, p), log, fate, s.cleaner, ports, cutoff, p, now);
      case CleanStep => CleanAgrees(max, s, log, fate, p, now);
    }
  }

  lemma OnlyAddsEnd(s: State, step: Step, p: u16)
    ensures AddEnds(s, step, p) ==> step.AddStep?
  {}

  lemma NothingAgrees(max: nat, p: u16, now: real)
    ensures Agrees(max, Deque(map[], p), [], Kept, Resting, p, now)
  {}

  lemma StartAgrees(max: nat, dq: seq<PortSnapshot>, log: seq<PortSnapshot>, fate: Fate, c: Cleaner, ports: seq<u16>, cutoff: real, p: u16, now: real)
    requires Agrees(max, dq, log, fate, c, p, now) && cutoff <= now - TTL_SECONDS
    ensures c.Resting? ==> Agrees(max, dq, log, fate, Scanning(ports, cutoff), p, now)
  {}

  // ---- the table

  function InAdded(max: nat, run: seq<Step>, now: real): u16 -> Option<PortSnapshot> {
    (p: u16) => LastOf(Added(max, run, p), now)
  }

  /** However adds and cleanups interleave, a port's entry in the live table is that
      of the unbounded log, unless the last add for the port was lost and what it
      added is not yet too old to show: and then it is not. */
  lemma EntryUnderRaces(max: nat, run: seq<Step>, now: real, p: u16)
    requires max >= 1 && CutoffsBefore(run, now)
    ensures InCache(After(max, run).cache, now)(p) == InAdded(max, run, now)(p) <==>
            !(FateOf(max, run, p) == Lost && InAdded(max, run, now)(p).Some?)
  {
    hide After, Added, FateOf, Exposed;
    AlwaysAgrees(max, run, p, now);
  }

  lemma {:induction false} AddedForPort(max: nat, run: seq<Step>, p: u16)
    ensures forall x | x in Added(max, run, p) :: x.port == p
  {
    hide After;
    if run == [] {
    } else {
      AddedForPort(max, run[..|run| - 1], p);
    }
  }

  /** What is shown for a port, from the cache or from the log, is a snapshot of it. */
  lemma EntryForPort(max: nat, run: seq<Step>, now: real, p: u16)
    requires max >= 1 && CutoffsBefore(run, now)
    ensures var a, b := InCache(After(max, run).cache, now)(p), InAdded(max, run, now)(p);
            (a.Some? ==> a.value.port == p) && (b.Some? ==> b.value.port == p)
  {
    hide After, Added, FateOf, Exposed;
    AlwaysAgrees(max, run, p, now);
    AddedForPort(max, run, p);
  }

  /** Two entry functions of one table agree at every port. */
  lemma SameEntry(rows: seq<PortSnapshot>, a: u16 -> Option<PortSnapshot>, b: u16 -> Option<PortSnapshot>, p: u16)
    requires IsTable(rows, a) && IsTable(rows, b)
    requires (a(p).Some? ==> a(p).value.port == p) && (b(p).Some? ==> b(p).value.port == p)
    ensures a(p) == b(p)
  {}

  /** The live table is the table of the unbounded log exactly when no port's last add
      was lost while its snapshot would still show. */
  lemma TableUnderRaces(max: nat, run: seq<Step>, now: real, rows: seq<PortSnapshot>)
    requires max >= 1 && CutoffsBefore(run, now) && IsTable(rows, InCache(After(max, run).cache, now))
    ensures IsTable(rows, InAdded(max, run, now)) <==>
            forall p: u16 :: !(FateOf(max, run, p) == Lost && InAdded(max, run, now)(p).Some?)
  {
    hide After, Added, FateOf, Fresh, LastOf, CutoffsBefore;
    var a, b := InCache(After(max, run).cache, now), InAdded(max, run, now);
    forall p: u16
      ensures a(p) == b(p) <==> !(FateOf(max, run, p) == Lost && b(p).Some?)
      ensures IsTable(rows, b) ==> a(p) == b(p)
    {
      EntryUnderRaces(max, run, now, p);
      EntryForPort(max, run, now, p);
      if IsTable(rows, b) {
        SameEntry(rows, a, b, p);
      }
    }
  }

  // ---- a lost snapshot

  /** A run that leads to a state, with its log and last add for the port. */
  predicate Leads(max: nat, run: seq<Step>, p: u16, s: State, log: seq<PortSnapshot>, fate: Fate) {
    After(max, run) == s && Added(max, run, p) == log && FateOf(max, run, p) == fate
  }

  lemma Lead(max: nat, run: seq<Step>, p: u16, s: State, log: seq<PortSnapshot>, fate: Fate, step: Step) returns (more: seq<Step>)
    requires Leads(max, run, p, s, log, fate)
    ensures Leads(max, more, p, Next(max, s, step),
                  if AddEnds(s, step, p) then log + [s.adder.snapshot] else log,
                  if AddEnds(s, step, p) then if s.adder.deleted then Lost else if Exposed(max, s.cleaner, p) then AtRisk else Kept
                  else if fate == AtRisk && step.CleanStep? && Exposed(max, s.cleaner, p) then Lost
                  else fate)
  {
    hide Next, AddEnds, Exposed;
    more := run + [step];
    assert more[..|run|] == run;
    assert log + [] == log;
  }

  /** A snapshot that is added between the test for an empty deque and the deletion is
      lost: the cache has forgotten the port, while the log would show it. */
  lemma SnapshotIsLost(max: nat, a: PortSnapshot, b: PortSnapshot, cutoff: real, now: real) returns (run: seq<Step>)
    requires max >= 1 && a.port == b.port && a.timestamp < cutoff && now - b.timestamp <= TTL_SECONDS
    ensures FateOf(max, run, b.port) == Lost
    ensures InCache(After(max, run).cache, now)(b.port) == None && InAdded(max, run, now)(b.port) == Some(b)
  {
    hide After, Added, FateOf;
    var p := a.port;
    var s0 := State(map[], Resting, Idle);
    assert Leads(max, [], p, s0, [], Kept) by { NothingDone(max, p); }
    run := Lead(max, [], p, s0, [], Kept, BeginAdd(a));
    run := Lead(max, run, p, State(map[], Resting, Creating(a)), [], Kept, AddStep);
    run := Lead(max, run, p, State(map[p := []], Resting, Fetching(a, false)), [], Kept, AddStep);
    run := Lead(max, run, p, State(map[p := []], Resting, Appending(a, false)), [], Kept, AddStep);
    FirstInDeque(max, a);
    assert [] + [a] == [a];
    run := LostAfterOne(max, run, a, b, cutoff);
  }

  lemma FirstInDeque(max: nat, s: PortSnapshot)
    requires max >= 1
    ensures AfterAdd(map[s.port := []], s, max) == map[s.port := [s]]
  {
    var cache: Cache := map[s.port := []];
    assert Deque(cache, s.port) == [] && [] + [s] == [s];
    assert Appended([], s, max) == [s];
    assert cache[s.port := [s]] == map[s.port := [s]];
  }

  lemma NothingDone(max: nat, p: u16)
    ensures Leads(max, [], p, State(map[], Resting, Idle), [], Kept)
  {}

  lemma LostAfterOne(max: nat, run0: seq<Step>, a: PortSnapshot, b: PortSnapshot, cutoff: real) returns (run: seq<Step>)
    requires max >= 1 && a.port == b.port && a.timestamp < cutoff
    requires Leads(max, run0, a.port, State(map[a.port := [a]], Resting, Idle), [a], Kept)
    ensures Leads(max, run, a.port, State(map[], Scanning([], cutoff), Idle), [a, b], Lost)
  {
    hide After, Added, FateOf, Leads;
    var p := a.port;
    assert [p][0] == p && [p][1..] == [] && [a][0] == a && [a][1..] == [];
    assert Deque(map[p := [a]], p) == [a] && Deque(map[p := []], p) == [];
    run := Lead(max, run0, p, State(map[p := [a]], Resting, Idle), [a], Kept, BeginCleanup([p], cutoff));
    run := Lead(max, run, p, State(map[p := [a]], Scanning([p], cutoff), Idle), [a], Kept, CleanStep);
    run := Lead(max, run, p, State(map[p := [a]], AtFront(p, [], cutoff), Idle), [a], Kept, CleanStep);
    run := Lead(max, run, p, State(map[p := [a]], Popping(p, [], cutoff), Idle), [a], Kept, CleanStep);
    assert map[p := [a]][p := []] == map[p := []];
    run := Lead(max, run, p, State(map[p := []], AtFront(p, [], cutoff), Idle), [a], Kept, CleanStep);
    run := Lead(max, run, p, State(map[p := []], AtEmpty(p, [], cutoff), Idle), [a], Kept, CleanStep);
    run := Lead(max, run, p, State(map[p := []], Deleting(p, [], cutoff), Idle), [a], Kept, BeginAdd(b));
    run := Lead(max, run, p, State(map[p := []], Deleting(p, [], cutoff), Fetching(b, false)), [a], Kept, AddStep);
    run := Lead(max, run, p, State(map[p := []], Deleting(p, [], cutoff), Appending(b, false)), [a], Kept, AddStep);
    FirstInDeque(max, b);
    assert [a] + [b] == [a, b];
    run := Lead(max, run, p, State(map[p := [b]], Deleting(p, [], cutoff), Idle), [a, b], AtRisk, CleanStep);
    assert map[p := [b]] - {p} == map[];
  }

  // ---- undisturbed cleanups

  /** What a cleanup leaves when nothing comes between its steps. */
  function Cleaned(cache: Cache, todo: seq<u16>, cutoff: real): Cache
    decreases todo
  {
    if todo == [] then cache
    else
      var left := Popped(Deque(cache, todo[0]), cutoff);
      Cleaned(if left == [] then cache - {todo[0]} else cache[todo[0] := left], todo[1..], cutoff)
  }

  /** `n` steps of the cleanup with nothing in between. */
  function Clean(s: State, n: nat): State
    decreases n
  {
    if n == 0 then s else Clean(NextCleaner(s), n - 1)
  }

  lemma {:induction false} PopAll(s: State, port: u16, todo: seq<u16>, cutoff: real) returns (n: nat)
    requires s.adder.Idle? && s.cleaner == AtFront(port, todo, cutoff) && port in s.cache
    ensures var left := Popped(s.cache[port], cutoff);
            Clean(s, n) == State(if left == [] then s.cache - {port} else s.cache[port := left], Scanning(todo, cutoff), Idle)
    decreases |s.cache[port]|
  {
    var dq := s.cache[port];
    if dq != [] && dq[0].timestamp < cutoff {
      var s1 := NextCleaner(s);
      var s2 := NextCleaner(s1);
      assert s2 == State(s.cache[port := dq[1..]], AtFront(port, todo, cutoff), Idle);
      var m := PopAll(s2, port, todo, cutoff);
      n := m + 2;
      assert s.cache[port := dq[1..]] - {port} == s.cache - {port};
      assert Clean(s, n) == Clean(s1, m + 1) == Clean(s2, m);
    } else if dq == [] {
      n := 3;
      var s1 := NextCleaner(s);
      var s2 := NextCleaner(s1);
      assert Clean(s, 3) == Clean(s1, 2) == Clean(s2, 1) == Clean(NextCleaner(s2), 0);
    } else {
      n := 2;
      var s1 := NextCleaner(s);
      assert s.cache[port := dq] == s.cache;
      assert Clean(s, 2) == Clean(s1, 1) == Clean(NextCleaner(s1), 0);
    }
  }

  lemma {:induction false} CleanMore(s: State, m: nat, n: nat)
    ensures Clean(s, m + n) == Clean(Clean(s, m), n)
    decreases m
  {
    if m == 0 {
    } else {
      CleanMore(NextCleaner(s), m - 1, n);
    }
  }

  lemma {:induction false} CleanAll(s: State, todo: seq<u16>, cutoff: real) returns (n: nat)
    requires s.adder.Idle? && s.cleaner == Scanning(todo, cutoff) && Ahead(todo, s.cache)
    ensures Clean(s, n) == State(Cleaned(s.cache, todo, cutoff), Resting, Idle)
    decreases todo
  {
    if todo == [] {
      n := 1;
      assert Clean(s, 1) == Clean(NextCleaner(s), 0);
    } else {
      AheadShrinks(todo, s.cache);
      var s1 := NextCleaner(s);
      var m := PopAll(s1, todo[0], todo[1..], cutoff);
      var s2 := Clean(s1, m);
      AheadRest(s.cache, s2.cache, todo);
      var k := CleanAll(s2, todo[1..], cutoff);
      n := 1 + m + k;
      CleanMore(s1, m, k);
    }
  }

  lemma AheadRest(cache: Cache, cache': Cache, todo: seq<u16>)
    requires todo != [] && Ahead(todo, cache) && cache.Keys - {todo[0]} <= cache'.Keys
    ensures Ahead(todo[1..], cache')
  {
    AheadShrinks(todo, cache);
  }

  /** With nothing in between, a cleanup is the atomic cleanup: it pops every port's
      stale entries and deletes the ports left empty. */
  lemma QuietCleanup(max: nat, s: State, ports: seq<u16>, cutoff: real) returns (n: nat)
    requires s.adder.Idle? && s.cleaner.Resting? && Enumerates(ports, s.cache)
    ensures Clean(Next(max, s, BeginCleanup(ports, cutoff)), n) == State(AfterEvict(s.cache, cutoff), Resting, Idle)
  {
    EnumerationIsAhead(ports, s.cache);
    n := CleanAll(Next(max, s, BeginCleanup(ports, cutoff)), ports, cutoff);
    CleanedIs(s.cache, ports, cutoff);
  }

  /** The ports in the list are cleaned, the others untouched. */
  lemma {:induction false} CleanedAt(cache: Cache, todo: seq<u16>, cutoff: real, p: u16)
    requires Ahead(todo, cache)
    decreases todo
    ensures var c := Cleaned(cache, todo, cutoff);
            && Deque(c, p) == (if p in todo then Popped(Deque(cache, p), cutoff) else Deque(cache, p))
            && (p in c <==> if p in todo then Popped(Deque(cache, p), cutoff) != [] else p in cache)
  {
    hide Popped;
    if todo == [] {
    } else {
      AheadShrinks(todo, cache);
      var left := Popped(Deque(cache, todo[0]), cutoff);
      var next := if left == [] then cache - {todo[0]} else cache[todo[0] := left];
      AheadRest(cache, next, todo);
      CleanedAt(next, todo[1..], cutoff, p);
      assert p in todo <==> p == todo[0] || p in todo[1..];
    }
  }

  lemma CleanedIs(cache: Cache, ports: seq<u16>, cutoff: real)
    requires Enumerates(ports, cache)
    ensures Cleaned(cache, ports, cutoff) == AfterEvict(cache, cutoff)
  {
    hide Popped, Cleaned;
    EnumerationIsAhead(ports, cache);
    forall p: u16
      ensures var c := Cleaned(cache, ports, cutoff);
              && (p in c <==> p in AfterEvict(cache, cutoff)) && (p in c ==> c[p] == AfterEvict(cache, cutoff)[p])
    {
      CleanedAt(cache, ports, cutoff, p);
      DequeAfterEvict(cache, cutoff, p);
    }
  }
}
