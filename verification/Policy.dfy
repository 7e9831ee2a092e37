/** The policy engine: the first enabled rule that matches a port snapshot and is
    not cooling down for that port fires. */
module Policy {
  import opened Text
  import opened SlotCodec
  import Decimal

  datatype Rule = Rule(id: string, name: string, enabled: bool, minKbs: real, minRisk: int,
                       targetApp: Option<string>, excludeApps: seq<string>, action: string)
  {
    /** Not an excluded application and, if one is named, the target application. */
    predicate MatchesApp(appName: string) {
      && (forall a | a in excludeApps :: Lower(a) != Lower(appName))
      && (targetApp.Some? && targetApp.value != "" ==> Lower(appName) == Lower(targetApp.value))
    }

    predicate MatchesTraffic(totalKbs: real) {
      totalKbs >= minKbs
    }

    predicate MatchesRisk(risk: int) {
      risk >= minRisk
    }
  }

  /** What the engine looks at in a snapshot. */
  datatype View = View(port: u16, pid: u32, appName: string, kbIn: real, kbOut: real, risk: nat)

  datatype Evaluated = Evaluated(policyId: string, policyName: string, action: string, targetPort: u16,
                                 targetPid: u32, appName: string, risk: nat)

  datatype Engine = Engine(policies: seq<Rule>, lastTrigger: map<string, real>, cooldown: int)

  /** The clock readings of one evaluation: `clock(i)` is taken at rule `i`. */
  type Clock = nat -> real

  function Key(id: string, port: u16): string {
    id + [':'] + Decimal.Print(port)
  }

  /** A decimal port holds no colon, so keys of different rules or ports differ. */
  lemma KeyInjective(id: string, port: u16, id': string, port': u16)
    requires Key(id, port) == Key(id', port')
    ensures id == id' && port == port'
  {
    Decimal.SuffixInjective(id, port, id', port', ':');
  }

  function LastTrigger(e: Engine, key: string): real {
    if key in e.lastTrigger then e.lastTrigger[key] else 0.0
  }

  /** Enabled and matching. */
  predicate Eligible(r: Rule, v: View) {
    r.enabled && r.MatchesRisk(v.risk) && r.MatchesTraffic(v.kbIn + v.kbOut) && r.MatchesApp(v.appName)
  }

  predicate CoolingDown(e: Engine, r: Rule, v: View, now: real) {
    now - LastTrigger(e, Key(r.id, v.port)) < e.cooldown as real
  }

  predicate Fires(e: Engine, r: Rule, v: View, now: real) {
    Eligible(r, v) && !CoolingDown(e, r, v, now)
  }

  /** The position of the first rule from `i` on that fires, or the number of rules. */
  function FirstFiring(e: Engine, v: View, clock: Clock, i: nat): (k: nat)
    requires i <= |e.policies|
    ensures i <= k <= |e.policies|
    ensures forall j | i <= j < k :: !Fires(e, e.policies[j], v, clock(j))
    ensures k < |e.policies| ==> Fires(e, e.policies[k], v, clock(k))
    decreases |e.policies| - i
  {
    if i == |e.policies| || Fires(e, e.policies[i], v, clock(i)) then i else FirstFiring(e, v, clock, i + 1)
  }

  function EventOf(r: Rule, v: View): Evaluated {
    Evaluated(r.id, r.name, r.action, v.port, v.pid, v.appName, v.risk)
  }

  function Outcome(e: Engine, v: View, clock: Clock): Option<Evaluated> {
    var k := FirstFiring(e, v, clock, 0);
    if k == |e.policies| then None else Some(EventOf(e.policies[k], v))
  }

  function AfterEvaluate(e: Engine, v: View, clock: Clock): Engine {
    var k := FirstFiring(e, v, clock, 0);
    if k == |e.policies| then e
    else e.(lastTrigger := e.lastTrigger[Key(e.policies[k].id, v.port) := clock(k)])
  }

  function Without(policies: seq<Rule>, id: string): seq<Rule> {
    if policies == [] then []
    else Without(policies[..|policies| - 1], id) + if policies[|policies| - 1].id != id then [policies[|policies| - 1]] else []
  }

  // ---- what an evaluation means

  /** The clock reading at rule `k` is at least the cooldown after the rule's last
      trigger on the port, which is time 0 if there was none. */
  predicate OffCooldown(e: Engine, k: nat, port: u16, now: real)
    requires k < |e.policies|
  {
    var key := e.policies[k].id + ":" + Decimal.Print(port);
    now - (if key in e.lastTrigger then e.lastTrigger[key] else 0.0) >= e.cooldown as real
  }

  /** The rule's own conditions, field by field. */
  predicate Applies(p: Rule, v: View) {
    && p.enabled
    && p.minKbs <= v.kbIn + v.kbOut
    && p.minRisk <= v.risk
    && (forall a | a in p.excludeApps :: Lower(a) != Lower(v.appName))
    && (p.targetApp == None || p.targetApp == Some("") || Lower(p.targetApp.value) == Lower(v.appName))
  }

  /** An event comes from the first rule whose conditions all hold and that is off
      cooldown; it names the rule and the snapshot, and its time is remembered
      under the rule and port alone.  Without an event there is no such rule, and
      nothing changes. */
  lemma EvaluateMeans(e: Engine, v: View, clock: Clock)
    ensures var event, e' := Outcome(e, v, clock), AfterEvaluate(e, v, clock);
            && e'.policies == e.policies && e'.cooldown == e.cooldown
            && (event.None? ==>
                  && e' == e
                  && forall k: nat | k < |e.policies| :: !(Applies(e.policies[k], v) && OffCooldown(e, k, v.port, clock(k))))
            && (event.Some? ==> exists k: nat ::
                 (&& k < |e.policies|
                  && Applies(e.policies[k], v) && OffCooldown(e, k, v.port, clock(k))
                  && (forall j: nat | j < k :: !(Applies(e.policies[j], v) && OffCooldown(e, j, v.port, clock(j))))
                  && event.value == Evaluated(e.policies[k].id, e.policies[k].name, e.policies[k].action,
                                              v.port, v.pid, v.appName, v.risk)
                  && e'.lastTrigger == e.lastTrigger[e.policies[k].id + ":" + Decimal.Print(v.port) := clock(k)]))
  {
    hide Applies, OffCooldown, Fires;
    forall k: nat | k < |e.policies|
      ensures Fires(e, e.policies[k], v, clock(k)) <==> Applies(e.policies[k], v) && OffCooldown(e, k, v.port, clock(k))
    {
      FiresMeans(e, v, k, clock(k));
    }
    var k := FirstFiring(e, v, clock, 0);
    if k < |e.policies| {
      assert Applies(e.policies[k], v) && OffCooldown(e, k, v.port, clock(k));
    }
  }

  lemma FiresMeans(e: Engine, v: View, k: nat, now: real)
    requires k < |e.policies|
    ensures Fires(e, e.policies[k], v, now) <==> Applies(e.policies[k], v) && OffCooldown(e, k, v.port, now)
  {
    assert [':'] == ":";
  }

  /** Raising the rate or the risk of a snapshot never silences the engine: whatever
      fires still does, or an earlier rule does. */
  lemma EvaluateIsMonotone(e: Engine, v: View, v': View, clock: Clock)
    requires v' == v.(kbIn := v'.kbIn, kbOut := v'.kbOut, risk := v'.risk)
    requires v.kbIn + v.kbOut <= v'.kbIn + v'.kbOut && v.risk <= v'.risk
    ensures Outcome(e, v, clock).Some? ==> Outcome(e, v', clock).Some?
    ensures forall k: nat | k < |e.policies| && Applies(e.policies[k], v) && OffCooldown(e, k, v.port, clock(k)) ::
              Applies(e.policies[k], v') && OffCooldown(e, k, v'.port, clock(k))
  {
    var k := FirstFiring(e, v, clock, 0);
    if k < |e.policies| {
      assert Fires(e, e.policies[k], v', clock(k));
    }
  }

  /** The engines treat the port alike. */
  ghost predicate SameFor(e: Engine, e': Engine, port: u16) {
    && e'.policies == e.policies && e'.cooldown == e.cooldown
    && forall id :: LastTrigger(e', Key(id, port)) == LastTrigger(e, Key(id, port))
  }

  /** Evaluating one port changes nothing for another. */
  lemma EvaluateLeavesOthers(e: Engine, v: View, clock: Clock, port: u16)
    requires port != v.port
    ensures SameFor(e, AfterEvaluate(e, v, clock), port)
  {
    hide FirstFiring, Key;
    var k := FirstFiring(e, v, clock, 0);
    if k < |e.policies| {
      forall id
        ensures Key(id, port) != Key(e.policies[k].id, v.port)
      {
        if Key(id, port) == Key(e.policies[k].id, v.port) {
          KeyInjective(id, port, e.policies[k].id, v.port);
        }
      }
    }
  }

  lemma {:induction false} FirstFiringSame(e: Engine, e': Engine, v: View, clock: Clock, i: nat)
    requires SameFor(e, e', v.port) && i <= |e.policies|
    ensures FirstFiring(e', v, clock, i) == FirstFiring(e, v, clock, i)
    decreases |e.policies| - i
  {
    hide Eligible, Key;
    if i < |e.policies| {
      assert CoolingDown(e', e.policies[i], v, clock(i)) == CoolingDown(e, e.policies[i], v, clock(i));
      FirstFiringSame(e, e', v, clock, i + 1);
    }
  }

  // ---- the engine object

  class PolicyEngine {
    var policies: seq<Rule>
    var lastTrigger: map<string, real>
    var cooldown: int

    ghost function Abstract(): Engine
      reads this
    {
      Engine(policies, lastTrigger, cooldown)
    }

    constructor ()
      ensures Abstract() == Engine([], map[], 60)
    {
      policies, lastTrigger, cooldown := [], map[], 60;
    }

    method Evaluate(v: View, clock: Clock) returns (event: Option<Evaluated>)
      modifies this`lastTrigger
      ensures event == Outcome(old(Abstract()), v, clock)
      ensures Abstract() == AfterEvaluate(old(Abstract()), v, clock)
      // an event comes from an enabled policy whose every condition holds ...
      ensures event.Some? ==> exists k: nat :: k < |policies| && var p := policies[k];
                p.enabled && p.minKbs <= v.kbIn + v.kbOut && p.minRisk <= v.risk
                && (forall a | a in p.excludeApps :: Lower(a) != Lower(v.appName))
                && (p.targetApp == None || p.targetApp == Some("") || Lower(p.targetApp.value) == Lower(v.appName))
                && OffCooldown(old(Abstract()), k, v.port, clock(k))
                && event.value == Evaluated(p.id, p.name, p.action, v.port, v.pid, v.appName, v.risk)
      // ... and without an event there is no such policy
      ensures event.None? ==> forall k: nat | k < |policies| :: var p := policies[k];
                !(p.enabled && p.minKbs <= v.kbIn + v.kbOut && p.minRisk <= v.risk
                  && (forall a | a in p.excludeApps :: Lower(a) != Lower(v.appName))
                  && (p.targetApp == None || p.targetApp == Some("") || Lower(p.targetApp.value) == Lower(v.appName))
                  && OffCooldown(old(Abstract()), k, v.port, clock(k)))
    {
      EvaluateMeans(Abstract(), v, clock);
      var i := 0;
      while i < |policies|
        invariant i <= |policies| && Abstract() == old(Abstract())
        invariant FirstFiring(Abstract(), v, clock, 0) == FirstFiring(Abstract(), v, clock, i)
      {
        var policy := policies[i];
        var key, now := Key(policy.id, v.port), clock(i);
        var last := if key in lastTrigger then lastTrigger[key] else 0.0;
        if policy.enabled && !(now - last < cooldown as real) && policy.MatchesRisk(v.risk)
           && policy.MatchesTraffic(v.kbIn + v.kbOut) && policy.MatchesApp(v.appName)
        {
          event := Some(Evaluated(policy.id, policy.name, policy.action, v.port, v.pid, v.appName, v.risk));
          lastTrigger := lastTrigger[key := now];
          return;
        }
        i := i + 1;
      }
      event := None;
    }

    method AddPolicy(rule: Rule)
      modifies this`policies
      ensures policies == old(policies) + [rule]
      ensures Abstract() == Next(Run(old(Abstract()), []), Op.Add(rule)).engine
    {
      policies := policies + [rule];
    }

    method RemovePolicy(id: string) returns (removed: bool)
      modifies this`policies
      ensures policies == Without(old(policies), id)
      ensures removed <==> exists r :: r in old(policies) && r.id == id
      ensures Abstract() == Next(Run(old(Abstract()), []), Op.Remove(id)).engine
    {
      var kept, i := [], 0;
      while i < |policies|
        invariant i <= |policies| && kept == Without(policies[..i], id)
      {
        if policies[i].id != id {
          kept := kept + [policies[i]];
        }
        assert policies[..i + 1][..i] == policies[..i];
        i := i + 1;
      }
      assert policies[..i] == policies;
      WithoutShorter(policies, id);
      removed := |kept| < |policies|;
      policies := kept;
    }

    method SetCooldown(seconds: int)
      modifies this`cooldown
      ensures cooldown >= 1 && cooldown >= seconds && (cooldown == 1 || cooldown == seconds)
      ensures Abstract() == Next(Run(old(Abstract()), []), Op.SetCooldown(seconds)).engine
    {
      cooldown := if seconds < 1 then 1 else seconds;
    }
  }

  lemma {:induction false} WithoutShorter(policies: seq<Rule>, id: string)
    ensures |Without(policies, id)| <= |policies|
    ensures |Without(policies, id)| < |policies| <==> exists r :: r in policies && r.id == id
    ensures forall r :: r in Without(policies, id) <==> r in policies && r.id != id
  {
    if policies == [] {
    } else {
      WithoutShorter(policies[..|policies| - 1], id);
      assert policies == policies[..|policies| - 1] + [policies[|policies| - 1]];
    }
  }

  lemma WithoutNothing(id: string)
    ensures Without([], id) == []
  {}

  lemma WithoutLast(policies: seq<Rule>, id: string)
    requires policies != []
    ensures var last := policies[|policies| - 1];
            Without(policies, id) == Without(policies[..|policies| - 1], id) + if last.id != id then [last] else []
  {}

  /** Removing goes rule by rule, so that the rules that stay keep their order. */
  lemma {:induction false} WithoutMeans(a: seq<Rule>, b: seq<Rule>, id: string)
    ensures Without(a + b, id) == Without(a, id) + Without(b, id)
    ensures |b| == 1 ==> Without(b, id) == if b[0].id == id then [] else b
  {
    hide Without;
    WithoutNothing(id);
    if b == [] {
      assert a + b == a && Without(a, id) + [] == Without(a, id);
    } else {
      var front, last := b[..|b| - 1], b[|b| - 1];
      WithoutMeans(a, front, id);
      assert (a + b)[..|a + b| - 1] == a + front && (a + b)[|a + b| - 1] == last;
      WithoutLast(a + b, id);
      WithoutLast(b, id);
      var tail := if last.id != id then [last] else [];
      assert Without(a, id) + Without(front, id) + tail == Without(a, id) + (Without(front, id) + tail);
      assert |b| == 1 ==> front == [] && b == [last];
    }
  }

  // ---- whole runs

  datatype Op =
    | Evaluate(view: View, clock: Clock, from: real, until: real)
    | Add(rule: Rule)
    | Remove(id: string)
    | SetCooldown(seconds: int)

  /** A rule firing on a port, and the cooldown in force when it did. */
  datatype Trigger = Trigger(id: string, port: u16, time: real, cooldown: int)

  datatype Run = Run(engine: Engine, log: seq<Trigger>)

  function Next(r: Run, op: Op): Run {
    match op
    case Evaluate(v, clock, _, _) =>
      var k := FirstFiring(r.engine, v, clock, 0);
      Run(AfterEvaluate(r.engine, v, clock),
          r.log + if k == |r.engine.policies| then []
                  else [Trigger(r.engine.policies[k].id, v.port, clock(k), r.engine.cooldown)])
    case Add(rule) => r.(engine := r.engine.(policies := r.engine.policies + [rule]))
    case Remove(id) => r.(engine := r.engine.(policies := Without(r.engine.policies, id)))
    case SetCooldown(seconds) => r.(engine := r.engine.(cooldown := if seconds < 1 then 1 else seconds))
  }

  function After(ops: seq<Op>): Run {
    if ops == [] then Run(Engine([], map[], 60), []) else Next(After(ops[..|ops| - 1]), ops[|ops| - 1])
  }

  /** The rules added and not removed by id afterwards, in the order of adding. */
  ghost function Kept(ops: seq<Op>): seq<Rule> {
    if ops == [] then []
    else (if ops[0].Add? && Remove(ops[0].rule.id) !in ops[1..] then [ops[0].rule] else []) + Kept(ops[1..])
  }

  lemma {:induction false} KeptNext(ops: seq<Op>, op: Op)
    ensures Kept(ops + [op]) ==
            match op
            case Add(rule) => Kept(ops) + [rule]
            case Remove(id) => Without(Kept(ops), id)
            case _ => Kept(ops)
  {
    hide Without;
    if ops == [] {
      assert ops + [op] == [op] && [op][1..] == [];
      if op.Remove? {
        WithoutNothing(op.id);
      }
    } else {
      var first, rest := ops[0], ops[1..];
      assert (ops + [op])[0] == first && (ops + [op])[1..] == rest + [op];
      KeptNext(rest, op);
      var one := if first.Add? && Remove(first.rule.id) !in rest then [first.rule] else [];
      assert op.Add? ==> one + (Kept(rest) + [op.rule]) == one + Kept(rest) + [op.rule];
      if op.Remove? {
        WithoutMeans(one, Kept(rest), op.id);
        WithoutOne(one, op.id);
      }
    }
  }

  lemma WithoutOne(one: seq<Rule>, id: string)
    requires |one| <= 1
    ensures Without(one, id) == if one != [] && one[0].id == id then [] else one
  {
    WithoutNothing(id);
    if one != [] {
      WithoutMeans([], one, id);
    }
  }

  /** After any run the engine holds exactly the rules that were added and not removed
      since, in the order of adding. */
  lemma {:induction false} PoliciesAreKept(ops: seq<Op>)
    ensures After(ops).engine.policies == Kept(ops)
  {
    hide FirstFiring, Without, Kept;
    if ops == [] {
      NothingKept();
    } else {
      var front, op := ops[..|ops| - 1], ops[|ops| - 1];
      PoliciesAreKept(front);
      KeptNext(front, op);
      assert ops == front + [op];
    }
  }

  lemma NothingKept()
    ensures Kept([]) == []
  {}

  /** The log gains exactly the event of an evaluation, with the time that is remembered
      for it and the cooldown in force. */
  lemma LogMeans(r: Run, op: Op)
    ensures var r' := Next(r, op);
            if op.Evaluate? && Outcome(r.engine, op.view, op.clock).Some? then
              var event := Outcome(r.engine, op.view, op.clock).value;
              var key := event.policyId + ":" + Decimal.Print(event.targetPort);
              && key in r'.engine.lastTrigger
              && r'.log == r.log + [Trigger(event.policyId, event.targetPort, r'.engine.lastTrigger[key], r.engine.cooldown)]
            else r'.log == r.log
  {
    assert [':'] == ":";
    assert r.log + [] == r.log;
  }

  /** The clock never goes back: within an evaluation its readings lie between
      `from` and `until`, and evaluations follow one another. */
  ghost predicate Timed(ops: seq<Op>) {
    && (forall i | 0 <= i < |ops| && ops[i].Evaluate? ::
          forall k: nat :: ops[i].from <= ops[i].clock(k) <= ops[i].until)
    && (forall i, j | 0 <= i < j < |ops| && ops[i].Evaluate? && ops[j].Evaluate? :: ops[i].until <= ops[j].from)
  }

  /** The engine remembers the latest trigger of every rule and port. */
  ghost predicate Remembers(r: Run) {
    forall i | 0 <= i < |r.log| ::
      var key := Key(r.log[i].id, r.log[i].port);
      key in r.engine.lastTrigger && r.log[i].time <= r.engine.lastTrigger[key]
  }

  ghost predicate Spaced(log: seq<Trigger>) {
    forall i, j | 0 <= i < j < |log| ::
      && log[i].time <= log[j].time
      && (log[i].id == log[j].id && log[i].port == log[j].port ==> log[j].time - log[i].time >= log[j].cooldown as real)
  }

  ghost predicate Earlier(log: seq<Trigger>, time: real) {
    forall i | 0 <= i < |log| :: log[i].time <= time
  }

  lemma EvaluateKeeps(r: Run, op: Op)
    requires op.Evaluate? && Remembers(r) && Spaced(r.log) && Earlier(r.log, op.from)
    requires forall k: nat :: op.from <= op.clock(k) <= op.until
    ensures var r' := Next(r, op); Remembers(r') && Spaced(r'.log) && Earlier(r'.log, op.until)
  {
    var k := FirstFiring(r.engine, op.view, op.clock, 0);
    assert op.from <= op.clock(k) <= op.until;
    if k < |r.engine.policies| {
      var t := Trigger(r.engine.policies[k].id, op.view.port, op.clock(k), r.engine.cooldown);
      forall i | 0 <= i < |r.log|
        ensures Key(r.log[i].id, r.log[i].port) == Key(t.id, t.port) ==> r.log[i].id == t.id && r.log[i].port == t.port
      {
        if Key(r.log[i].id, r.log[i].port) == Key(t.id, t.port) {
          KeyInjective(r.log[i].id, r.log[i].port, t.id, t.port);
        }
      }
    }
  }

  lemma {:induction false} AlwaysSpaced(ops: seq<Op>, until: real)
    requires Timed(ops)
    requires forall i | 0 <= i < |ops| && ops[i].Evaluate? :: ops[i].until <= until
    ensures Remembers(After(ops)) && Spaced(After(ops).log) && Earlier(After(ops).log, until)
  {
    if ops == [] {
    } else {
      var front, op := ops[..|ops| - 1], ops[|ops| - 1];
      if op.Evaluate? {
        AlwaysSpaced(front, op.from);
        EvaluateKeeps(After(front), op);
      } else {
        AlwaysSpaced(front, until);
      }
    }
  }

  /** Whatever is evaluated, added, removed or configured, two triggers of one rule
      on one port are at least the cooldown in force at the later one apart. */
  lemma CooldownHolds(ops: seq<Op>, until: real, i: nat, j: nat)
    requires Timed(ops)
    requires forall k | 0 <= k < |ops| && ops[k].Evaluate? :: ops[k].until <= until
    requires i < j < |After(ops).log|
    requires After(ops).log[i].id == After(ops).log[j].id && After(ops).log[i].port == After(ops).log[j].port
    ensures After(ops).log[j].time - After(ops).log[i].time >= After(ops).log[j].cooldown as real
  {
    AlwaysSpaced(ops, until);
  }

  /** The triggers of one rule on one port in the interval `a <= t <= b`. */
  function Hits(log: seq<Trigger>, id: string, port: u16, a: real, b: real): seq<Trigger> {
    if log == [] then []
    else
      var t := log[|log| - 1];
      Hits(log[..|log| - 1], id, port, a, b) + if t.id == id && t.port == port && a <= t.time <= b then [t] else []
  }

  lemma LastPair(log: seq<Trigger>, s: Trigger)
    requires Spaced(log) && log != [] && s in log[..|log| - 1]
    requires s.id == log[|log| - 1].id && s.port == log[|log| - 1].port
    ensures log[|log| - 1].time >= s.time + log[|log| - 1].cooldown as real
  {
    var i :| 0 <= i < |log| - 1 && log[i] == s;
  }

  lemma {:induction false} HitsAreTriggers(log: seq<Trigger>, id: string, port: u16, a: real, b: real)
    ensures forall t :: t in Hits(log, id, port, a, b) <==> t in log && t.id == id && t.port == port && a <= t.time <= b
  {
    if log == [] {
    } else {
      HitsAreTriggers(log[..|log| - 1], id, port, a, b);
      assert log == log[..|log| - 1] + [log[|log| - 1]];
    }
  }

  /** The last of `n` triggers is at least `n - 1` cooldowns after `a`. */
  predicate Spans(h: seq<Trigger>, a: real, c: int) {
    h != [] ==> h[|h| - 1].time >= a + ((|h| - 1) * c) as real
  }

  lemma SpansNext(h: seq<Trigger>, t: Trigger, a: real, c: int)
    requires Spans(h, a, c) && a <= t.time
    requires h != [] ==> t.time >= h[|h| - 1].time + c as real
    ensures Spans(h + [t], a, c)
  {
    assert |h| * c == (|h| - 1) * c + c;
  }

  lemma {:induction false} HitsSpan(log: seq<Trigger>, id: string, port: u16, a: real, b: real, c: int)
    requires Spaced(log)
    requires forall t | t in log :: t.cooldown == c
    ensures Spans(Hits(log, id, port, a, b), a, c)
  {
    hide Spans;
    if log == [] {
      SpansNone(a, c);
    } else {
      var front, t := log[..|log| - 1], log[|log| - 1];
      var h := Hits(front, id, port, a, b);
      HitsSpan(front, id, port, a, b, c);
      if t.id == id && t.port == port && a <= t.time <= b {
        HitsAreTriggers(front, id, port, a, b);
        if h != [] {
          assert h[|h| - 1] in h;
          LastPair(log, h[|h| - 1]);
        }
        SpansNext(h, t, a, c);
      } else {
        assert h + [] == h;
      }
    }
  }

  lemma SpansNone(a: real, c: int)
    ensures Spans([], a, c)
  {}

  /** With a fixed cooldown `c`, an interval of length `b - a` holds at most
      floor((b - a) / c) + 1 triggers of one rule on one port. */
  lemma TriggersPerInterval(ops: seq<Op>, until: real, id: string, port: u16, a: real, b: real, c: int)
    requires Timed(ops) && a <= b && c >= 1
    requires forall i | 0 <= i < |ops| && ops[i].Evaluate? :: ops[i].until <= until
    requires forall t | t in After(ops).log :: t.cooldown == c
    ensures |Hits(After(ops).log, id, port, a, b)| <= ((b - a) / c as real).Floor + 1
  {
    AlwaysSpaced(ops, until);
    HitsSpan(After(ops).log, id, port, a, b, c);
    HitsAreTriggers(After(ops).log, id, port, a, b);
    IntervalBound(Hits(After(ops).log, id, port, a, b), a, b, c);
  }

  lemma IntervalBound(h: seq<Trigger>, a: real, b: real, c: int)
    requires a <= b && c >= 1
    requires Spans(h, a, c)
    requires forall t | t in h :: t.time <= b
    ensures |h| <= ((b - a) / c as real).Floor + 1
  {
    if h == [] {
      QuotientBound(0, c, b - a);
    } else {
      assert h[|h| - 1] in h;
      QuotientBound(|h| - 1, c, b - a);
    }
  }

  lemma QuotientBound(n: nat, c: int, length: real)
    requires c >= 1 && (n * c) as real <= length
    ensures n <= (length / c as real).Floor
  {
    var q, d := length / c as real, c as real;
    assert q * d == length;
    assert (n * c) as real == n as real * d;
    Cancel(n as real, q, d);
  }

  lemma Cancel(x: real, y: real, d: real)
    requires x * d <= y * d && d > 0.0
    ensures x <= y
  {
    assert x > y ==> (x - y) * d > 0.0;
  }

  // ---- fairness

  /** The positions of the rules that are enabled and match, in list order. */
  function EligibleAt(policies: seq<Rule>, v: View): (ks: seq<nat>)
    ensures forall i | 0 <= i < |ks| :: ks[i] < |policies| && Eligible(policies[ks[i]], v)
    ensures forall i, j | 0 <= i < j < |ks| :: ks[i] < ks[j]
    ensures forall k: nat | k < |policies| && Eligible(policies[k], v) :: k in ks
  {
    if policies == [] then []
    else
      var front := EligibleAt(policies[..|policies| - 1], v);
      front + if Eligible(policies[|policies| - 1], v) then [|policies| - 1] else []
  }

  /** Every reading of the clock falls within one cooldown from `start`. */
  ghost predicate InPeriod(clock: Clock, start: real, cooldown: int) {
    forall k: nat :: start <= clock(k) < start + cooldown as real
  }

  /** The eligible rules have distinct ids and are off cooldown at `start`. */
  ghost predicate Ready(e: Engine, v: View, start: real) {
    && (forall i, j | 0 <= i < j < |e.policies| && Eligible(e.policies[i], v) && Eligible(e.policies[j], v) ::
          e.policies[i].id != e.policies[j].id)
    && (forall i | 0 <= i < |e.policies| && Eligible(e.policies[i], v) ::
          start - LastTrigger(e, Key(e.policies[i].id, v.port)) >= e.cooldown as real)
  }

  function AfterTurns(e: Engine, v: View, clocks: seq<Clock>): Engine {
    if clocks == [] then e
    else AfterEvaluate(AfterTurns(e, v, clocks[..|clocks| - 1]), v, clocks[|clocks| - 1])
  }

  /** After `n` turns the first `n` eligible rules have fired since `start` and
      nothing else has changed. */
  ghost predicate Fired(e: Engine, e': Engine, v: View, start: real, n: nat) {
    && e'.policies == e.policies && e'.cooldown == e.cooldown
    && var ks := EligibleAt(e.policies, v);
       forall i | 0 <= i < |ks| ::
         var key := Key(e.policies[ks[i]].id, v.port);
         if i < n then start <= LastTrigger(e', key) else LastTrigger(e', key) == LastTrigger(e, key)
  }

  lemma WhoCanFire(e: Engine, e': Engine, v: View, clock: Clock, start: real, n: nat, i: nat)
    requires Ready(e, v, start) && InPeriod(clock, start, e.cooldown) && Fired(e, e', v, start, n)
    requires i < |EligibleAt(e.policies, v)|
    ensures var k := EligibleAt(e.policies, v)[i]; Fires(e', e.policies[k], v, clock(k)) <==> i >= n
  {
    var k := EligibleAt(e.policies, v)[i];
    var key := Key(e.policies[k].id, v.port);
    assert start - LastTrigger(e, key) >= e.cooldown as real;
    assert start <= clock(k) < start + e.cooldown as real;
  }

  lemma WhoFires(e: Engine, e': Engine, v: View, clock: Clock, start: real, n: nat)
    requires Ready(e, v, start) && InPeriod(clock, start, e.cooldown) && Fired(e, e', v, start, n)
    ensures var ks := EligibleAt(e.policies, v);
            FirstFiring(e', v, clock, 0) == if n < |ks| then ks[n] else |e.policies|
  {
    hide CoolingDown, Eligible, Ready, InPeriod, Key;
    var ks, k := EligibleAt(e.policies, v), FirstFiring(e', v, clock, 0);
    if n < |ks| {
      WhoCanFire(e, e', v, clock, start, n, n);
    }
    if k < |e.policies| {
      assert k in ks;
      var i :| 0 <= i < |ks| && ks[i] == k;
      WhoCanFire(e, e', v, clock, start, n, i);
      assert ks[n] <= ks[i];
    }
  }

  lemma NextTurn(e: Engine, e': Engine, v: View, clock: Clock, start: real, n: nat)
    requires Ready(e, v, start) && InPeriod(clock, start, e.cooldown) && Fired(e, e', v, start, n)
    ensures Fired(e, AfterEvaluate(e', v, clock), v, start, n + 1)
  {
    WhoFires(e, e', v, clock, start, n);
    var ks := EligibleAt(e.policies, v);
    if n < |ks| {
      var e1, fired := AfterEvaluate(e', v, clock), Key(e.policies[ks[n]].id, v.port);
      forall i | 0 <= i < |ks|
        ensures var key := Key(e.policies[ks[i]].id, v.port);
                if i < n + 1 then start <= LastTrigger(e1, key) else LastTrigger(e1, key) == LastTrigger(e, key)
      {
        var key := Key(e.policies[ks[i]].id, v.port);
        if i != n {
          assert if i < n then ks[i] < ks[n] else ks[n] < ks[i];
          assert e.policies[ks[i]].id != e.policies[ks[n]].id;
          if key == fired {
            KeyInjective(e.policies[ks[i]].id, v.port, e.policies[ks[n]].id, v.port);
          }
        }
      }
    }
  }

  lemma {:induction false} TurnsFired(e: Engine, v: View, clocks: seq<Clock>, start: real)
    requires Ready(e, v, start) && forall i | 0 <= i < |clocks| :: InPeriod(clocks[i], start, e.cooldown)
    ensures Fired(e, AfterTurns(e, v, clocks), v, start, |clocks|)
  {
    if clocks == [] {
    } else {
      TurnsFired(e, v, clocks[..|clocks| - 1], start);
      NextTurn(e, AfterTurns(e, v, clocks[..|clocks| - 1]), v, clocks[|clocks| - 1], start, |clocks| - 1);
    }
  }

  /** Fairness: when the enabled rules that match a snapshot have distinct ids and
      are all off cooldown, successive evaluations within one cooldown fire each of
      them exactly once, in list order, and then nothing. */
  lemma EachFiresInTurn(e: Engine, v: View, clocks: seq<Clock>, start: real, n: nat)
    requires Ready(e, v, start) && forall i | 0 <= i < |clocks| :: InPeriod(clocks[i], start, e.cooldown)
    requires n < |clocks|
    ensures var ks := EligibleAt(e.policies, v);
            Outcome(AfterTurns(e, v, clocks[..n]), v, clocks[n]) ==
            if n < |ks| then Some(EventOf(e.policies[ks[n]], v)) else None
  {
    TurnsFired(e, v, clocks[..n], start);
    WhoFires(e, AfterTurns(e, v, clocks[..n]), v, clocks[n], start, n);
  }
}
