/** The firewall chain together with the table of blocked ports: manual blocks and
    unblocks and the policy engine's automatic blocks act on both. */
module Enforcement {
  import opened Text
  import opened LinuxBridge
  import Decimal

  /** A row of the table, which is keyed by port. */
  datatype Row = Row(blockType: string, blockedAt: real, reason: string)

  type Table = map<nat, Row>

  datatype System = System(chain: Chain, table: Table)

  /** A request, with the ways its commands end and whether its database write is
      committed or raises. */
  datatype Request =
    | ManualBlock(port: int, protocol: string, check: CheckResult, insert: Result, saved: bool, now: real)
    | ManualUnblock(unblocked: nat, deletions: Deletions, saved: bool)
    | PolicyAction(action: string, target: nat, check: CheckResult, insert: Result, saved: bool, now: real)

  datatype Reply = Done(success: bool) | Error

  /** `add_blocked_port`: a new row, or a new value for the row that is there. */
  function AddRow(table: Table, port: nat, reason: string, saved: bool, now: real): Table {
    if saved then table[port := Row("hard", now, reason)] else table
  }

  function BlockBoth(s: System, compatible: bool, port: int, protocol: string, check: CheckResult, insert: Result,
                     reason: string, saved: bool, now: real): System {
    var (chain, outcome) := Block(s.chain, compatible, port, protocol, check, insert);
    System(chain, if outcome.Blocked? && port > 0 then AddRow(s.table, port, reason, saved, now) else s.table)
  }

  /** The system after one request. */
  function After(s: System, compatible: bool, r: Request): System {
    match r
    case ManualBlock(port, protocol, check, insert, saved, now) =>
      BlockBoth(s, compatible, port, protocol, check, insert, "User blocked " + protocol, saved, now)
    case ManualUnblock(port, d, saved) =>
      if compatible then System(Unblock(s.chain, port, d), if saved then s.table - {port} else s.table) else s
    case PolicyAction(action, port, check, insert, saved, now) =>
      if action == "block" then BlockBoth(s, compatible, port, TCP, check, insert, "Policy Engine Auto-Block", saved, now)
      else s
  }

  function AfterAll(s: System, compatible: bool, rs: seq<Request>): System {
    if rs == [] then s else After(AfterAll(s, compatible, rs[..|rs| - 1]), compatible, rs[|rs| - 1])
  }

  class FirewallCommandHandler {
    const bridge: Bridge
    var table: Table

    ghost function Contents(): System
      reads this, bridge
    {
      System(bridge.chain, table)
    }

    constructor (bridge: Bridge)
      ensures this.bridge == bridge && table == map[]
    {
      this.bridge, table := bridge, map[];
    }

    /** The row is written only after the bridge has blocked the port. */
    method HandleBlock(port: int, protocol: string, check: CheckResult, insert: Result, saved: bool, now: real)
      returns (reply: Reply)
      modifies this`table, bridge`chain
      ensures Contents() == After(old(Contents()), bridge.compatible, ManualBlock(port, protocol, check, insert, saved, now))
      ensures reply == if Block(old(bridge.chain), bridge.compatible, port, protocol, check, insert).1.Blocked? && saved
                       then Done(true) else Error
      ensures table == if reply == Done(true) then old(table)[port := Row("hard", now, "User blocked " + protocol)] else old(table)
    {
      hide Managed, IsProtocol;
      var outcome := bridge.BlockPort(port, protocol, check, insert);
      if outcome.BlockError? {
        return Error;
      }
      if !saved {
        return Error;
      }
      table := table[port := Row("hard", now, "User blocked " + protocol)];
      return Done(true);
    }

    /** The row goes whether or not the rules could be deleted. */
    method HandleUnblock(port: nat, d: Deletions, saved: bool) returns (reply: Reply)
      modifies this`table, bridge`chain
      ensures Contents() == After(old(Contents()), bridge.compatible, ManualUnblock(port, d, saved))
      ensures reply == if bridge.compatible && !saved then Error else Done(bridge.compatible)
      ensures table == if reply == Done(true) then old(table) - {port} else old(table)
    {
      hide Unblock;
      var success := bridge.UnblockPort(port, d);
      if success {
        if !saved {
          return Error;
        }
        table := table - {port};
      }
      return Done(success);
    }

    /** A rule that fires with action "block" blocks its port over TCP; whatever
        goes wrong is logged and dropped. */
    method OnPolicyEvaluated(action: string, port: nat, check: CheckResult, insert: Result, saved: bool, now: real)
      modifies this`table, bridge`chain
      ensures Contents() == After(old(Contents()), bridge.compatible, PolicyAction(action, port, check, insert, saved, now))
      ensures table == if action == "block" && saved && Block(old(bridge.chain), bridge.compatible, port, "tcp", check, insert).1.Blocked?
                       then old(table)[port := Row("hard", now, "Policy Engine Auto-Block")] else old(table)
    {
      hide Managed, IsProtocol;
      if action == "block" {
        var outcome := bridge.BlockPort(port, TCP, check, insert);
        if outcome.Blocked? && saved {
          table := table[port := Row("hard", now, "Policy Engine Auto-Block")];
        }
      }
    }
  }

  // ---- agreement of table and chain

  /** The chain drops the port's traffic. */
  ghost predicate HasRule(chain: Chain, port: nat) {
    exists r | r in chain :: ManagedFor(r, port)
  }

  /** A DROP rule of the port over TCP or UDP that names either product. */
  predicate OurDrop(r: Rule, port: nat) {
    && r.PortRule? && r.dport == port && r.target == "DROP" && (r.protocol == "tcp" || r.protocol == "udp")
    && (r.comment == "Vigilant_Block_" + Decimal.Print(port) + "_" + r.protocol
        || r.comment == "Sentinel_Block_" + Decimal.Print(port) + "_" + r.protocol)
  }

  lemma HasRuleMeans(chain: Chain, port: nat)
    ensures HasRule(chain, port) <==> exists r | r in chain :: OurDrop(r, port)
  {
    hide ManagedFor, OurDrop;
    forall r
      ensures ManagedFor(r, port) <==> OurDrop(r, port)
    {
      SameRule(r, port);
    }
  }

  lemma SameRule(r: Rule, port: nat)
    ensures ManagedFor(r, port) <==> OurDrop(r, port)
  {
    hide ManagedFor;
    ManagedForMeans(r, port);
  }

  /** Every port in the table has a rule. */
  ghost predicate Covered(s: System) {
    forall p | p in s.table :: HasRule(s.chain, p)
  }

  /** The table lists exactly the ports that have a rule. */
  ghost predicate Agree(s: System) {
    forall p: nat :: p in s.table <==> HasRule(s.chain, p)
  }

  /** After an unblock a port has a rule iff it had one that was not deleted or had
      a second copy. */
  lemma UnblockHasRule(chain: Chain, port: nat, d: Deletions, p: nat)
    ensures HasRule(Unblock(chain, port, d), p) <==>
            exists r | r in chain :: ManagedFor(r, p) && (Deleted(r, port, d) ==> Occurs(chain, r) > 1)
  {
    hide Unblock, ManagedFor, Deleted, Occurs;
    forall r
      ensures r in Unblock(chain, port, d) <==> r in chain && (Deleted(r, port, d) ==> Occurs(chain, r) > 1)
    {
      UnblockOccurs(chain, port, d, r);
      OccursIsMember(chain, r);
      OccursIsMember(Unblock(chain, port, d), r);
    }
  }

  lemma DeletedIsManagedFor(r: Rule, port: nat, d: Deletions, p: nat)
    requires Deleted(r, port, d) && ManagedFor(r, p)
    ensures p == port
  {}

  /** A block leaves the other ports alone and gives its own port a rule exactly
      when it finds or inserts one. */
  lemma BlockHasRule(chain: Chain, compatible: bool, port: int, protocol: string, check: CheckResult, insert: Result, p: nat)
    ensures var (c, outcome) := Block(chain, compatible, port, protocol, check, insert);
            && (HasRule(c, p) <==> HasRule(chain, p) || (p == port && Inserts(chain, compatible, port, protocol, check, insert)))
            && (outcome.Blocked? ==> port > 0 && HasRule(c, port))
  {
    if BlockArgumentsOk(compatible, port, protocol) {
      var rule, c := Managed(VIGILANT, port, Lower(protocol)), Block(chain, compatible, port, protocol, check, insert).0;
      ManagedIsManaged(VIGILANT, port, Lower(protocol));
      PushedHasRule(chain, rule, port, p);
      if rule in c {
        assert HasRule(c, port);
      }
    }
  }

  /** The block adds a rule to the chain. */
  predicate Inserts(chain: Chain, compatible: bool, port: int, protocol: string, check: CheckResult, insert: Result) {
    && BlockArgumentsOk(compatible, port, protocol) && !check.CheckRaised? && Applied(insert)
    && !(check.Truthful? && Managed(VIGILANT, port, Lower(protocol)) in chain)
  }

  lemma PushedHasRule(chain: Chain, rule: Rule, port: nat, p: nat)
    requires ManagedFor(rule, port)
    ensures HasRule([rule] + chain, p) <==> HasRule(chain, p) || p == port
  {
    var c := [rule] + chain;
    assert rule in c && forall r :: r in c <==> r == rule || r in chain;
    if HasRule(chain, p) {
      var r :| r in chain && ManagedFor(r, p);
      assert r in c;
    }
  }

  /** An unblock whose removal of the row is not committed. */
  predicate RemovalLost(r: Request) {
    r.ManualUnblock? && !r.saved
  }

  lemma BlockKeepsCovered(s: System, compatible: bool, port: int, protocol: string, check: CheckResult, insert: Result,
                          reason: string, saved: bool, now: real)
    requires Covered(s)
    ensures Covered(BlockBoth(s, compatible, port, protocol, check, insert, reason, saved, now))
  {
    hide Block, HasRule;
    var s' := BlockBoth(s, compatible, port, protocol, check, insert, reason, saved, now);
    forall p | p in s'.table
      ensures HasRule(s'.chain, p)
    {
      BlockHasRule(s.chain, compatible, port, protocol, check, insert, p);
    }
  }

  /** An unblock that deletes the last rule of a listed port and cannot remove its row. */
  ghost predicate Uncovers(s: System, compatible: bool, r: Request) {
    && r.ManualUnblock? && compatible && !r.saved && r.unblocked in s.table
    && !(exists rule | rule in s.chain ::
           ManagedFor(rule, r.unblocked) && (Deleted(rule, r.unblocked, r.deletions) ==> Occurs(s.chain, rule) > 1))
  }

  /** One request keeps every listed port covered exactly when it is not such an
      unblock. */
  lemma CoveredAfter(s: System, compatible: bool, r: Request)
    requires Covered(s)
    ensures Covered(After(s, compatible, r)) <==> !Uncovers(s, compatible, r)
  {
    hide Block, Unblock, Covered, HasRule, ManagedFor, Deleted, Occurs, BlockBoth;
    match r
    case ManualBlock(port, protocol, check, insert, saved, now) =>
      BlockKeepsCovered(s, compatible, port, protocol, check, insert, "User blocked " + protocol, saved, now);
    case ManualUnblock(port, d, saved) =>
      if compatible {
        UnblockCovered(s, port, d, saved);
      }
    case PolicyAction(action, port, check, insert, saved, now) =>
      BlockKeepsCovered(s, compatible, port, TCP, check, insert, "Policy Engine Auto-Block", saved, now);
  }

  lemma UnblockCovered(s: System, port: nat, d: Deletions, saved: bool)
    requires Covered(s)
    ensures Covered(After(s, true, ManualUnblock(port, d, saved))) <==> !Uncovers(s, true, ManualUnblock(port, d, saved))
  {
    hide Unblock, ManagedFor, Deleted, Occurs;
    var s' := After(s, true, ManualUnblock(port, d, saved));
    forall p | p in s.table
      ensures HasRule(s'.chain, p) <==>
              p != port || exists rule | rule in s.chain :: ManagedFor(rule, port) && (Deleted(rule, port, d) ==> Occurs(s.chain, rule) > 1)
    {
      UnblockHasRule(s.chain, port, d, p);
      if p != port {
        var rule :| rule in s.chain && ManagedFor(rule, p);
        if Deleted(rule, port, d) {
          DeletedIsManagedFor(rule, port, d, p);
        }
      }
    }
  }

  ghost predicate CoveredThroughout(s: System, compatible: bool, rs: seq<Request>) {
    forall n | 0 <= n <= |rs| :: Covered(AfterAll(s, compatible, rs[..n]))
  }

  ghost predicate NeverUncovers(s: System, compatible: bool, rs: seq<Request>) {
    forall n | 0 <= n < |rs| :: !Uncovers(AfterAll(s, compatible, rs[..n]), compatible, rs[n])
  }

  lemma {:induction false} CoveredUpTo(s: System, compatible: bool, rs: seq<Request>, n: nat)
    requires Covered(s) && NeverUncovers(s, compatible, rs) && n <= |rs|
    ensures Covered(AfterAll(s, compatible, rs[..n]))
  {
    hide Covered, After, Uncovers;
    if n == 0 {
    } else {
      CoveredUpTo(s, compatible, rs, n - 1);
      assert rs[..n][..n - 1] == rs[..n - 1];
      CoveredAfter(AfterAll(s, compatible, rs[..n - 1]), compatible, rs[n - 1]);
    }
  }

  /** Throughout a run every listed port is covered exactly when no request of the run
      deletes the last rule of a port whose row it cannot remove. */
  lemma CoverageHolds(s: System, compatible: bool, rs: seq<Request>)
    requires Covered(s)
    ensures CoveredThroughout(s, compatible, rs) <==> NeverUncovers(s, compatible, rs)
  {
    hide Covered, After, Uncovers;
    if CoveredThroughout(s, compatible, rs) {
      forall n | 0 <= n < |rs|
        ensures !Uncovers(AfterAll(s, compatible, rs[..n]), compatible, rs[n])
      {
        assert rs[..n + 1][..n] == rs[..n];
        CoveredAfter(AfterAll(s, compatible, rs[..n]), compatible, rs[n]);
        assert Covered(AfterAll(s, compatible, rs[..n + 1]));
      }
    }
    if NeverUncovers(s, compatible, rs) {
      forall n | 0 <= n <= |rs|
        ensures Covered(AfterAll(s, compatible, rs[..n]))
      {
        CoveredUpTo(s, compatible, rs, n);
      }
    }
  }

  /** Whatever the interleaving of manual blocks, unblocks and automatic blocks, and
      whichever rule edits fail, every port in the table keeps a DROP rule, as
      long as the removal of rows is committed. */
  lemma {:induction false} TableIsCovered(s: System, compatible: bool, rs: seq<Request>)
    requires Covered(s)
    requires forall r | r in rs :: !RemovalLost(r)
    ensures Covered(AfterAll(s, compatible, rs))
    ensures forall p | p in AfterAll(s, compatible, rs).table ::
              exists r | r in AfterAll(s, compatible, rs).chain :: r.PortRule? && r.dport == p && r.target == "DROP"
  {
    hide After, Covered;
    CoveredDrops(s);
    if rs == [] {
    } else {
      var front := rs[..|rs| - 1];
      TableIsCovered(s, compatible, front);
      var t := AfterAll(s, compatible, front);
      assert !RemovalLost(rs[|rs| - 1]);
      CoveredAfter(t, compatible, rs[|rs| - 1]);
      CoveredDrops(After(t, compatible, rs[|rs| - 1]));
    }
  }

  lemma CoveredDrops(s: System)
    requires Covered(s)
    ensures forall p | p in s.table :: exists r | r in s.chain :: r.PortRule? && r.dport == p && r.target == "DROP"
  {
    hide HasRule;
    forall p | p in s.table
      ensures exists r | r in s.chain :: r.PortRule? && r.dport == p && r.target == "DROP"
    {
      HasRuleMeans(s.chain, p);
      var r :| r in s.chain && OurDrop(r, p);
    }
  }

  /** A block that inserts a rule but never gets to write the row. */
  predicate RowLost(s: System, compatible: bool, port: int, protocol: string, check: CheckResult, insert: Result, saved: bool) {
    && Inserts(s.chain, compatible, port, protocol, check, insert)
    && !(insert.Ok? && saved) && port !in s.table
  }

  lemma BlockAgrees(s: System, compatible: bool, port: int, protocol: string, check: CheckResult, insert: Result,
                    reason: string, saved: bool, now: real)
    requires Agree(s)
    ensures Agree(BlockBoth(s, compatible, port, protocol, check, insert, reason, saved, now)) <==>
            !RowLost(s, compatible, port, protocol, check, insert, saved)
  {
    hide Block, HasRule, Inserts;
    var s' := BlockBoth(s, compatible, port, protocol, check, insert, reason, saved, now);
    BlockSucceeds(s.chain, compatible, port, protocol, check, insert);
    forall p: nat
      ensures (p in s'.table <==> HasRule(s'.chain, p)) <==>
              !(p == port && RowLost(s, compatible, port, protocol, check, insert, saved))
    {
      BlockHasRule(s.chain, compatible, port, protocol, check, insert, p);
    }
    if RowLost(s, compatible, port, protocol, check, insert, saved) {
      InsertsIsInRange(s.chain, compatible, port, protocol, check, insert);
      var p: nat := port;
      assert !(p in s'.table <==> HasRule(s'.chain, p));
    }
  }

  lemma InsertsIsInRange(chain: Chain, compatible: bool, port: int, protocol: string, check: CheckResult, insert: Result)
    requires Inserts(chain, compatible, port, protocol, check, insert)
    ensures port > 0
  {}

  lemma BlockSucceeds(chain: Chain, compatible: bool, port: int, protocol: string, check: CheckResult, insert: Result)
    ensures var outcome := Block(chain, compatible, port, protocol, check, insert).1;
            && (Inserts(chain, compatible, port, protocol, check, insert) ==> (outcome.Blocked? <==> insert.Ok?))
            && (outcome.Blocked? ==> port > 0)
  {}

  /** A rule of the port stays although it was to be deleted. */
  ghost predicate RuleStays(chain: Chain, port: nat, d: Deletions) {
    exists r | r in chain :: ManagedFor(r, port) && !Deleted(r, port, d)
  }

  lemma UnblockAgrees(s: System, port: nat, d: Deletions, saved: bool)
    requires Agree(s) && NoDuplicates(s.chain)
    ensures Agree(After(s, true, ManualUnblock(port, d, saved))) <==>
            (port in s.table ==> (saved <==> !RuleStays(s.chain, port, d)))
  {
    hide Unblock, ManagedFor, Deleted, Occurs;
    var s' := After(s, true, ManualUnblock(port, d, saved));
    forall p: nat
      ensures HasRule(s'.chain, p) <==> if p == port then RuleStays(s.chain, port, d) else HasRule(s.chain, p)
    {
      UnblockHasRule(s.chain, port, d, p);
      forall r | r in s.chain && ManagedFor(r, p)
        ensures Occurs(s.chain, r) <= 1 && (p != port ==> !Deleted(r, port, d))
      {
        ManagedForIsManaged(r, p);
        if Deleted(r, port, d) {
          DeletedIsManagedFor(r, port, d, p);
        }
      }
    }
  }

  lemma ManagedForIsManaged(r: Rule, p: nat)
    requires ManagedFor(r, p)
    ensures IsManaged(r)
  {}

  /** The condition on one request under which table and chain stay in agreement. */
  ghost predicate KeepsAgreement(s: System, compatible: bool, r: Request) {
    match r
    case ManualBlock(port, protocol, check, insert, saved, _) =>
      !RowLost(s, compatible, port, protocol, check, insert, saved)
    case ManualUnblock(port, d, saved) =>
      compatible && port in s.table ==> (saved <==> !RuleStays(s.chain, port, d))
    case PolicyAction(action, port, check, insert, saved, _) =>
      action == "block" ==> !RowLost(s, compatible, port, TCP, check, insert, saved)
  }

  /** One request keeps table and chain in agreement exactly when it neither loses
      the row of a rule it inserts nor, for a port in the table, drops the row
      of a rule that stays or keeps the row of rules that go. */
  lemma AgreementAfter(s: System, compatible: bool, r: Request)
    requires Agree(s) && NoDuplicates(s.chain)
    ensures Agree(After(s, compatible, r)) <==> KeepsAgreement(s, compatible, r)
  {
    hide Block, Unblock, Agree, NoDuplicates, BlockBoth, RowLost, RuleStays;
    match r
    case ManualBlock(port, protocol, check, insert, saved, now) =>
      BlockAgrees(s, compatible, port, protocol, check, insert, "User blocked " + protocol, saved, now);
    case ManualUnblock(port, d, saved) =>
      if compatible {
        UnblockAgrees(s, port, d, saved);
      }
    case PolicyAction(action, port, check, insert, saved, now) =>
      BlockAgrees(s, compatible, port, TCP, check, insert, "Policy Engine Auto-Block", saved, now);
  }

  /** No deletion fails, no insertion is applied in spite of an exception, `-C` does
      not miss a rule and all database writes are committed. */
  predicate Faultless(r: Request) {
    match r
    case ManualBlock(_, _, check, insert, saved, _) => saved && !check.Misses? && !insert.Raised?
    case ManualUnblock(_, d, saved) => saved && AllApplied(d)
    case PolicyAction(_, _, check, insert, saved, _) => saved && !check.Misses? && !insert.Raised?
  }

  lemma FaultlessKeepsAgreement(s: System, compatible: bool, r: Request)
    requires Faultless(r)
    ensures KeepsAgreement(s, compatible, r)
  {
    if r.ManualUnblock? {
      forall rule | ManagedFor(rule, r.unblocked)
        ensures Deleted(rule, r.unblocked, r.deletions)
      {}
    }
  }

  lemma FaultlessKeepsNoDuplicates(s: System, compatible: bool, r: Request)
    requires Faultless(r) && NoDuplicates(s.chain)
    ensures NoDuplicates(After(s, compatible, r).chain)
  {
    hide Block, Unblock, NoDuplicates, BlockArgumentsOk, Managed;
    match r
    case ManualBlock(port, protocol, check, insert, saved, now) =>
      BlockDuplicates(s.chain, compatible, port, protocol, check, insert);
    case ManualUnblock(port, d, saved) =>
      UnblockKeepsNoDuplicates(s.chain, port, d);
    case PolicyAction(action, port, check, insert, saved, now) =>
      BlockDuplicates(s.chain, compatible, port, TCP, check, insert);
  }

  /** Over any run without such faults the table lists exactly the ports that have a
      DROP rule, and no managed rule is doubled. */
  lemma {:induction false} TableAgrees(s: System, compatible: bool, rs: seq<Request>)
    requires Agree(s) && NoDuplicates(s.chain)
    requires forall r | r in rs :: Faultless(r)
    ensures Agree(AfterAll(s, compatible, rs)) && NoDuplicates(AfterAll(s, compatible, rs).chain)
    ensures var t := AfterAll(s, compatible, rs);
            forall p: nat :: p in t.table <==> exists r | r in t.chain :: OurDrop(r, p)
  {
    hide After, Agree, NoDuplicates, Faultless, KeepsAgreement, OurDrop;
    AgreeDrops(s);
    if rs == [] {
    } else {
      var front := rs[..|rs| - 1];
      var t, r := AfterAll(s, compatible, front), rs[|rs| - 1];
      TableAgrees(s, compatible, front);
      FaultlessKeepsAgreement(t, compatible, r);
      FaultlessKeepsNoDuplicates(t, compatible, r);
      AgreementAfter(t, compatible, r);
      AgreeDrops(After(t, compatible, r));
    }
  }

  lemma AgreeDrops(s: System)
    requires Agree(s)
    ensures forall p: nat :: p in s.table <==> exists r | r in s.chain :: OurDrop(r, p)
  {
    hide HasRule, OurDrop;
    forall p: nat
      ensures p in s.table <==> exists r | r in s.chain :: OurDrop(r, p)
    {
      HasRuleMeans(s.chain, p);
    }
  }
}
