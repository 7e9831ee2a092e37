/** The Linux firewall bridge: an ordered INPUT chain that is edited through
    commands which may fail, time out or misreport. */
module LinuxBridge {
  import opened Text
  import Decimal

  /** A rule as `iptables` knows it: one matching a destination port with a
      comment, or any other, known by its listing text. */
  datatype Rule =
    | PortRule(protocol: string, dport: nat, target: string, comment: string)
    | Other(text: string)

  type Chain = seq<Rule>

  /** How a command that edits the chain ends.  An exception, such as a timeout,
      leaves open whether the edit was applied. */
  datatype Result = Ok | Failed | Raised(applied: bool)

  /** How `iptables -C` ends: with the truth, with a non-zero exit although the rule
      may be there, or with an exception. */
  datatype CheckResult = Truthful | Misses | CheckRaised

  predicate Applied(r: Result) {
    r.Ok? || (r.Raised? && r.applied)
  }

  const VIGILANT := "Vigilant"
  const SENTINEL := "Sentinel"
  const TCP := "tcp"
  const UDP := "udp"

  function Comment(prefix: string, port: nat, protocol: string): string {
    prefix + "_Block_" + Decimal.Print(port) + "_" + protocol
  }

  /** The DROP rule that the bridge manages for a port, under either product name. */
  function Managed(prefix: string, port: nat, protocol: string): Rule {
    PortRule(protocol, port, "DROP", Comment(prefix, port, protocol))
  }

  predicate IsProtocol(p: string) {
    p == TCP || p == UDP
  }

  predicate IsPrefix(p: string) {
    p == VIGILANT || p == SENTINEL
  }

  /** A managed rule of the given port. */
  predicate ManagedFor(r: Rule, port: nat) {
    r.PortRule? && r.dport == port && IsProtocol(r.protocol)
    && (r == Managed(VIGILANT, port, r.protocol) || r == Managed(SENTINEL, port, r.protocol))
  }

  predicate IsManaged(r: Rule) {
    r.PortRule? && ManagedFor(r, r.dport)
  }

  // ---- editing the chain

  /** `-D` by specification: the first occurrence goes. */
  function RemoveFirst(chain: Chain, rule: Rule): Chain {
    if chain == [] then []
    else if chain[0] == rule then chain[1..]
    else [chain[0]] + RemoveFirst(chain[1..], rule)
  }

  function Delete(chain: Chain, rule: Rule, r: Result): Chain {
    if Applied(r) then RemoveFirst(chain, rule) else chain
  }

  datatype Blocked = Blocked | BlockError

  predicate BlockArgumentsOk(compatible: bool, port: int, protocol: string) {
    compatible && 1 <= port <= 65535 && IsProtocol(Lower(protocol))
  }

  /** The chain and the verdict after `block_port`. */
  function Block(chain: Chain, compatible: bool, port: int, protocol: string, check: CheckResult, insert: Result): (Chain, Blocked) {
    if !BlockArgumentsOk(compatible, port, protocol) || check.CheckRaised? then (chain, BlockError)
    else
      var rule := Managed(VIGILANT, port, Lower(protocol));
      if check.Truthful? && rule in chain then (chain, Blocked)
      else (if Applied(insert) then [rule] + chain else chain, if insert.Ok? then Blocked else BlockError)
  }

  /** How the four deletions of one `unblock_port` end. */
  datatype Deletions = Deletions(tcpVigilant: Result, tcpSentinel: Result, udpVigilant: Result, udpSentinel: Result)

  const ALL_OK := Deletions(Ok, Ok, Ok, Ok)

  predicate AllApplied(d: Deletions) {
    Applied(d.tcpVigilant) && Applied(d.tcpSentinel) && Applied(d.udpVigilant) && Applied(d.udpSentinel)
  }

  function Unblock(chain: Chain, port: nat, d: Deletions): Chain {
    var c1 := Delete(chain, Managed(VIGILANT, port, TCP), d.tcpVigilant);
    var c2 := Delete(c1, Managed(SENTINEL, port, TCP), d.tcpSentinel);
    var c3 := Delete(c2, Managed(VIGILANT, port, UDP), d.udpVigilant);
    Delete(c3, Managed(SENTINEL, port, UDP), d.udpSentinel)
  }

  // ---- editing laws

  /** The rules satisfying `keep`, in chain order. */
  function Select(chain: Chain, keep: Rule -> bool): Chain {
    if chain == [] then [] else (if keep(chain[0]) then [chain[0]] else []) + Select(chain[1..], keep)
  }

  /** Selecting goes rule by rule. */
  lemma {:induction false} SelectMeans(a: Chain, b: Chain, keep: Rule -> bool, r: Rule)
    ensures Select(a + b, keep) == Select(a, keep) + Select(b, keep)
    ensures Select([r], keep) == if keep(r) then [r] else []
  {
    hide Select;
    SelectOne(r, keep);
    if a == [] {
      SelectNone(keep);
      assert a + b == b && [] + Select(b, keep) == Select(b, keep);
    } else {
      SelectMeans(a[1..], b, keep, r);
      SelectFirst(a, keep);
      SelectFirst(a + b, keep);
      assert (a + b)[1..] == a[1..] + b;
      var head: Chain, x, y := if keep(a[0]) then [a[0]] else [], Select(a[1..], keep), Select(b, keep);
      assert head + (x + y) == head + x + y;
    }
  }

  lemma SelectNone(keep: Rule -> bool)
    ensures Select([], keep) == []
  {}

  lemma SelectFirst(chain: Chain, keep: Rule -> bool)
    requires chain != []
    ensures Select(chain, keep) == (if keep(chain[0]) then [chain[0]] else []) + Select(chain[1..], keep)
  {}

  lemma SelectOne(r: Rule, keep: Rule -> bool)
    ensures Select([r], keep) == if keep(r) then [r] else []
  {
    assert [r][1..] == [];
  }

  lemma {:induction false} SelectSame(chain: Chain, keep: Rule -> bool, keep': Rule -> bool)
    requires forall r :: keep(r) == keep'(r)
    ensures Select(chain, keep) == Select(chain, keep')
  {
    if chain == [] {
    } else {
      SelectSame(chain[1..], keep, keep');
    }
  }

  predicate NotManaged(r: Rule) {
    !IsManaged(r)
  }

  /** How often a rule occurs in the chain. */
  function Occurs(chain: Chain, r: Rule): nat {
    if chain == [] then 0 else (if chain[0] == r then 1 else 0) + Occurs(chain[1..], r)
  }

  lemma {:induction false} OccursIsMember(chain: Chain, r: Rule)
    ensures Occurs(chain, r) > 0 <==> r in chain
  {
    if chain == [] {
    } else {
      OccursIsMember(chain[1..], r);
      assert chain == [chain[0]] + chain[1..];
    }
  }

  lemma {:induction false} RemoveFirstAbsent(chain: Chain, rule: Rule)
    requires rule !in chain
    ensures RemoveFirst(chain, rule) == chain
  {
    if chain == [] {
    } else {
      RemoveFirstAbsent(chain[1..], rule);
      assert chain == [chain[0]] + chain[1..];
    }
  }

  lemma {:induction false} RemoveFirstAt(chain: Chain, rule: Rule, i: nat)
    requires i <= |chain| && rule !in chain[..i] && (i < |chain| ==> chain[i] == rule)
    ensures RemoveFirst(chain, rule) == if i < |chain| then chain[..i] + chain[i + 1..] else chain
  {
    if i == 0 {
    } else {
      assert chain[0] == chain[..i][0];
      assert chain[1..][..i - 1] == chain[..i][1..];
      RemoveFirstAt(chain[1..], rule, i - 1);
      assert chain == [chain[0]] + chain[1..];
    }
  }

  lemma {:induction false} RemoveFirstOccurs(chain: Chain, rule: Rule, r: Rule)
    ensures var n := Occurs(chain, r); Occurs(RemoveFirst(chain, rule), r) == if r == rule && n > 0 then n - 1 else n
  {
    if chain == [] {
    } else {
      RemoveFirstOccurs(chain[1..], rule, r);
      if chain[0] != rule {
        var rest := RemoveFirst(chain[1..], rule);
        assert ([chain[0]] + rest)[1..] == rest;
      }
    }
  }

  lemma DeleteOccurs(chain: Chain, rule: Rule, result: Result, r: Rule)
    ensures var n := Occurs(chain, r);
            Occurs(Delete(chain, rule, result), r) == if Applied(result) && r == rule && n > 0 then n - 1 else n
  {
    RemoveFirstOccurs(chain, rule, r);
  }

  lemma {:induction false} RemoveFirstKeepsSelected(chain: Chain, rule: Rule, keep: Rule -> bool)
    requires !keep(rule)
    ensures Select(RemoveFirst(chain, rule), keep) == Select(chain, keep)
  {
    if chain == [] {
    } else {
      RemoveFirstKeepsSelected(chain[1..], rule, keep);
      if chain[0] != rule {
        var rest := RemoveFirst(chain[1..], rule);
        assert ([chain[0]] + rest)[1..] == rest;
      }
    }
  }

  lemma ManagedIsManaged(prefix: string, port: nat, protocol: string)
    requires IsPrefix(prefix) && IsProtocol(protocol)
    ensures IsManaged(Managed(prefix, port, protocol)) && ManagedFor(Managed(prefix, port, protocol), port)
  {}

  lemma DeleteKeepsForeign(chain: Chain, prefix: string, port: nat, protocol: string, result: Result)
    requires IsPrefix(prefix) && IsProtocol(protocol)
    ensures Select(Delete(chain, Managed(prefix, port, protocol), result), NotManaged) == Select(chain, NotManaged)
  {
    hide Managed, IsManaged, Select;
    ManagedIsManaged(prefix, port, protocol);
    RemoveFirstKeepsSelected(chain, Managed(prefix, port, protocol), NotManaged);
  }

  /** Rules that the bridge does not manage keep their places relative to one
      another, whatever is blocked or unblocked and whichever commands fail. */
  lemma ForeignRulesKeepOrder(chain: Chain, compatible: bool, port: int, protocol: string, check: CheckResult, insert: Result,
                              unblocked: nat, d: Deletions)
    ensures Select(Block(chain, compatible, port, protocol, check, insert).0, NotManaged) == Select(chain, NotManaged)
    ensures Select(Unblock(chain, unblocked, d), NotManaged) == Select(chain, NotManaged)
  {
    hide Managed, IsManaged, Delete;
    if BlockArgumentsOk(compatible, port, protocol) {
      var rule := Managed(VIGILANT, port, Lower(protocol));
      ManagedIsManaged(VIGILANT, port, Lower(protocol));
      assert ([rule] + chain)[1..] == chain;
    }
    var c1 := Delete(chain, Managed(VIGILANT, unblocked, TCP), d.tcpVigilant);
    var c2 := Delete(c1, Managed(SENTINEL, unblocked, TCP), d.tcpSentinel);
    var c3 := Delete(c2, Managed(VIGILANT, unblocked, UDP), d.udpVigilant);
    DeleteKeepsForeign(chain, VIGILANT, unblocked, TCP, d.tcpVigilant);
    DeleteKeepsForeign(c1, SENTINEL, unblocked, TCP, d.tcpSentinel);
    DeleteKeepsForeign(c2, VIGILANT, unblocked, UDP, d.udpVigilant);
    DeleteKeepsForeign(c3, SENTINEL, unblocked, UDP, d.udpSentinel);
  }

  // ---- what a block does to traffic

  /** What the port rules of the chain do with a protocol and port: the first one that
      matches decides. */
  function Verdict(chain: Chain, protocol: string, port: nat): Option<string> {
    if chain == [] then None
    else if chain[0].PortRule? && chain[0].protocol == protocol && chain[0].dport == port then Some(chain[0].target)
    else Verdict(chain[1..], protocol, port)
  }

  /** A block is accepted on exactly these arguments; unless it finds its rule it
      inserts it, and then the port's traffic is dropped and nothing else changes. */
  lemma BlockMeans(chain: Chain, compatible: bool, port: int, protocol: string, check: CheckResult, insert: Result)
    ensures var (c, outcome) := Block(chain, compatible, port, protocol, check, insert);
            var proto := Lower(protocol);
            var ok := compatible && 1 <= port <= 65535 && (proto == "tcp" || proto == "udp") && !check.CheckRaised?;
            && (!ok ==> c == chain && outcome == BlockError)
            && (ok ==>
                  var rule := PortRule(proto, port, "DROP", "Vigilant_Block_" + Decimal.Print(port) + "_" + proto);
                  var found := check.Truthful? && rule in chain;
                  && (found ==> c == chain && outcome == Blocked)
                  && (!found ==> (outcome == Blocked <==> insert.Ok?))
                  && (!found && (insert.Ok? || (insert.Raised? && insert.applied)) ==>
                        && c == [rule] + chain
                        && Verdict(c, proto, port) == Some("DROP")
                        && forall q, p | q != proto || p != port :: Verdict(c, q, p) == Verdict(chain, q, p))
                  && (!found && (insert.Failed? || (insert.Raised? && !insert.applied)) ==> c == chain))
  {
    var proto := Lower(protocol);
    if BlockArgumentsOk(compatible, port, protocol) && !check.CheckRaised? {
      var rule := Managed(VIGILANT, port, proto);
      assert VIGILANT + "_Block_" == "Vigilant_Block_";
      assert rule.comment == "Vigilant_Block_" + Decimal.Print(port) + "_" + proto;
      assert ([rule] + chain)[1..] == chain;
    }
  }

  /** The managed rules of a port, spelled out. */
  lemma ManagedForMeans(r: Rule, port: nat)
    ensures ManagedFor(r, port) <==>
            && r.PortRule? && r.dport == port && r.target == "DROP" && (r.protocol == "tcp" || r.protocol == "udp")
            && (r.comment == "Vigilant_Block_" + Decimal.Print(port) + "_" + r.protocol
                || r.comment == "Sentinel_Block_" + Decimal.Print(port) + "_" + r.protocol)
  {
    assert VIGILANT + "_Block_" == "Vigilant_Block_" && SENTINEL + "_Block_" == "Sentinel_Block_";
  }

  /** A second successful block of the same port and protocol changes nothing. */
  lemma BlockIsIdempotent(chain: Chain, port: int, protocol: string, insert: Result, again: Result)
    requires Block(chain, true, port, protocol, Truthful, insert).1 == Blocked
    ensures var c := Block(chain, true, port, protocol, Truthful, insert).0;
            Block(c, true, port, protocol, Truthful, again) == (c, Blocked)
  {
    var c := Block(chain, true, port, protocol, Truthful, insert).0;
    var rule := Managed(VIGILANT, port, Lower(protocol));
    assert c != chain ==> c[0] == rule;
  }

  /** Rules of different prefix or protocol differ even for one port. */
  lemma ManagedDistinct(port: nat)
    ensures Managed(VIGILANT, port, TCP) != Managed(SENTINEL, port, TCP)
    ensures Managed(VIGILANT, port, UDP) != Managed(SENTINEL, port, UDP)
  {
    assert Comment(VIGILANT, port, TCP)[0] == 'V' && Comment(SENTINEL, port, TCP)[0] == 'S';
    assert Comment(VIGILANT, port, UDP)[0] == 'V' && Comment(SENTINEL, port, UDP)[0] == 'S';
  }

  /** The deletion of a rule is among those that an unblock applies. */
  predicate Deleted(r: Rule, port: nat, d: Deletions) {
    || (Applied(d.tcpVigilant) && r == Managed(VIGILANT, port, TCP))
    || (Applied(d.tcpSentinel) && r == Managed(SENTINEL, port, TCP))
    || (Applied(d.udpVigilant) && r == Managed(VIGILANT, port, UDP))
    || (Applied(d.udpSentinel) && r == Managed(SENTINEL, port, UDP))
  }

  /** An unblock takes away exactly one copy of each of the port's managed rules
      whose deletion is applied, and nothing else. */
  lemma UnblockOccurs(chain: Chain, port: nat, d: Deletions, r: Rule)
    ensures var before, after := Occurs(chain, r), Occurs(Unblock(chain, port, d), r);
            after == if Deleted(r, port, d) && before > 0 then before - 1 else before
  {
    hide Occurs, Delete, Applied, Comment;
    var c1 := Delete(chain, Managed(VIGILANT, port, TCP), d.tcpVigilant);
    var c2 := Delete(c1, Managed(SENTINEL, port, TCP), d.tcpSentinel);
    var c3 := Delete(c2, Managed(VIGILANT, port, UDP), d.udpVigilant);
    DeleteOccurs(chain, Managed(VIGILANT, port, TCP), d.tcpVigilant, r);
    DeleteOccurs(c1, Managed(SENTINEL, port, TCP), d.tcpSentinel, r);
    DeleteOccurs(c2, Managed(VIGILANT, port, UDP), d.udpVigilant, r);
    DeleteOccurs(c3, Managed(SENTINEL, port, UDP), d.udpSentinel, r);
    ManagedDistinct(port);
  }

  lemma UnblockRestoresInserted(chain: Chain, port: nat, protocol: string)
    requires IsProtocol(protocol)
    requires forall r | r in chain :: !ManagedFor(r, port)
    ensures Unblock([Managed(VIGILANT, port, protocol)] + chain, port, ALL_OK) == chain
  {
    hide Comment;
    var c := [Managed(VIGILANT, port, protocol)] + chain;
    assert RemoveFirst(c, Managed(VIGILANT, port, protocol)) == chain by { assert c[1..] == chain; }
    ManagedDistinct(port);
    RemoveFirstAbsent(chain, Managed(SENTINEL, port, TCP));
    RemoveFirstAbsent(chain, Managed(VIGILANT, port, UDP));
    RemoveFirstAbsent(chain, Managed(SENTINEL, port, UDP));
    if protocol == UDP {
      RemoveFirstAbsent(c, Managed(VIGILANT, port, TCP));
      RemoveFirstAbsent(c, Managed(SENTINEL, port, TCP));
    }
  }

  /** Unblocking a port right after blocking it restores the very chain exactly
      when the chain held no managed rule for the port before. */
  lemma UnblockUndoesBlock(chain: Chain, port: int, protocol: string)
    requires BlockArgumentsOk(true, port, protocol)
    ensures Unblock(Block(chain, true, port, protocol, Truthful, Ok).0, port, ALL_OK) == chain
       <==> forall r | r in chain :: !ManagedFor(r, port)
  {
    var rule, c := Managed(VIGILANT, port, Lower(protocol)), Block(chain, true, port, protocol, Truthful, Ok).0;
    if forall r | r in chain :: !ManagedFor(r, port) {
      UnblockRestoresInserted(chain, port, Lower(protocol));
    } else {
      var r :| r in chain && ManagedFor(r, port);
      UnblockOccurs(c, port, ALL_OK, rule);
      UnblockOccurs(c, port, ALL_OK, r);
      OccursIsMember(chain, r);
      OccursIsMember(chain, rule);
      assert ([rule] + chain)[1..] == chain;
    }
  }

  /** No managed rule occurs twice. */
  ghost predicate NoDuplicates(chain: Chain) {
    forall r :: IsManaged(r) ==> Occurs(chain, r) <= 1
  }

  /** Blocking makes a duplicate exactly when `-C` misses a rule that is there and
      the insertion is applied all the same. */
  lemma BlockDuplicates(chain: Chain, compatible: bool, port: int, protocol: string, check: CheckResult, insert: Result)
    requires NoDuplicates(chain)
    ensures NoDuplicates(Block(chain, compatible, port, protocol, check, insert).0) <==>
            !(BlockArgumentsOk(compatible, port, protocol) && check.Misses? && Applied(insert)
              && Managed(VIGILANT, port, Lower(protocol)) in chain)
  {
    if BlockArgumentsOk(compatible, port, protocol) {
      var rule, c := Managed(VIGILANT, port, Lower(protocol)), Block(chain, compatible, port, protocol, check, insert).0;
      assert IsManaged(rule);
      OccursIsMember(chain, rule);
      assert ([rule] + chain)[1..] == chain;
    }
  }

  lemma UnblockKeepsNoDuplicates(chain: Chain, port: nat, d: Deletions)
    requires NoDuplicates(chain)
    ensures NoDuplicates(Unblock(chain, port, d))
  {
    forall r | IsManaged(r)
      ensures Occurs(Unblock(chain, port, d), r) <= 1
    {
      UnblockOccurs(chain, port, d, r);
    }
  }

  datatype Op =
    | BlockPort(port: int, protocol: string, check: CheckResult, insert: Result)
    | UnblockPort(unblocked: nat, deletions: Deletions)

  function AfterOps(chain: Chain, ops: seq<Op>): Chain {
    if ops == [] then chain
    else
      var c := AfterOps(chain, ops[..|ops| - 1]);
      match ops[|ops| - 1]
      case BlockPort(port, protocol, check, insert) => Block(c, true, port, protocol, check, insert).0
      case UnblockPort(port, d) => Unblock(c, port, d)
  }

  /** Over any run of blocks and unblocks, with any failures as long as `-C` does not
      miss a rule, no managed rule is ever doubled and all other rules keep
      their places relative to one another. */
  lemma {:induction false} EditingLaws(chain: Chain, ops: seq<Op>)
    requires NoDuplicates(chain)
    requires forall i | 0 <= i < |ops| && ops[i].BlockPort? :: !ops[i].check.Misses?
    ensures NoDuplicates(AfterOps(chain, ops))
    ensures Select(AfterOps(chain, ops), NotManaged) == Select(chain, NotManaged)
  {
    hide Block, Unblock, NoDuplicates;
    if ops == [] {
    } else {
      var front := ops[..|ops| - 1];
      var c := AfterOps(chain, front);
      EditingLaws(chain, front);
      match ops[|ops| - 1]
      case BlockPort(port, protocol, check, insert) =>
        BlockDuplicates(c, true, port, protocol, check, insert);
        ForeignRulesKeepOrder(c, true, port, protocol, check, insert, 0, ALL_OK);
      case UnblockPort(port, d) =>
        UnblockKeepsNoDuplicates(c, port, d);
        ForeignRulesKeepOrder(c, true, 0, "", Truthful, Ok, port, d);
    }
  }

  // ---- listing and cleaning up

  /** The text of a rule in `iptables -L INPUT -n`. */
  function Listed(r: Rule): string {
    match r
    case PortRule(protocol, dport, target, comment) =>
      target + " " + protocol + " -- 0.0.0.0/0 0.0.0.0/0 " + protocol + " dpt:" + Decimal.Print(dport) + " /* " + comment + " */"
    case Other(text) => text
  }

  const VIGILANT_TAG := "Vigilant_Block_"
  const SENTINEL_TAG := "Sentinel_Block_"

  predicate TaggedText(text: string) {
    Contains(text, VIGILANT_TAG) || Contains(text, SENTINEL_TAG)
  }

  /** The rules that a cleanup is after. */
  predicate Tagged(r: Rule) {
    TaggedText(Listed(r))
  }

  /** Line `n` of the listing is there and holds a tagged rule. */
  predicate TaggedAt(chain: Chain, n: int) {
    1 <= n <= |chain| && Tagged(chain[n - 1])
  }

  predicate NotTagged(r: Rule) {
    !Tagged(r)
  }

  /** Every managed rule is tagged. */
  lemma ManagedIsTagged(r: Rule)
    requires IsManaged(r)
    ensures Tagged(r)
  {
    hide Contains;
    var tag := if r == Managed(VIGILANT, r.dport, r.protocol) then VIGILANT_TAG else SENTINEL_TAG;
    var rest := Decimal.Print(r.dport) + "_" + r.protocol;
    assert r.comment == "" + tag + rest;
    ContainsMiddle("", tag, rest);
    ContainsInside(r.target + " " + r.protocol + " -- 0.0.0.0/0 0.0.0.0/0 " + r.protocol + " dpt:" + Decimal.Print(r.dport) + " /* ",
                   r.comment, " */", tag);
  }

  /** Line `n` of the listing, numbered from 1. */
  function NumberedLine(n: nat, r: Rule): string {
    Decimal.Print(n) + " " + Listed(r)
  }

  function NumberedLines(chain: Chain): seq<string> {
    seq(|chain|, i requires 0 <= i < |chain| => NumberedLine(i + 1, chain[i]))
  }

  /** The output of `iptables -L INPUT -n --line-numbers`, line by line. */
  function Listing(chain: Chain): seq<string> {
    ["Chain INPUT (policy ACCEPT)", "num target prot opt source destination"] + NumberedLines(chain)
  }

  /** `line.split()[0]`, or nothing if the line is blank. */
  function FirstWord(line: string): string {
    if line == "" then ""
    else if IsSpace(line[0]) then FirstWord(line[1..])
    else Word(line)
  }

  function Word(s: string): string {
    if s == "" || IsSpace(s[0]) then "" else [s[0]] + Word(s[1..])
  }

  /** The line number to delete for a line of the listing, if it is tagged. */
  function NumberOf(line: string): Option<nat> {
    var first := FirstWord(line);
    if TaggedText(line) && first != "" && Decimal.AllDigits(first) then Some(Decimal.Value(first)) else None
  }

  lemma {:induction false} WordBeforeSpace(w: string, rest: string)
    requires forall i | 0 <= i < |w| :: !IsSpace(w[i])
    ensures Word(w + " " + rest) == w
  {
    var s := w + " " + rest;
    if w == "" {
    } else {
      WordBeforeSpace(w[1..], rest);
      assert s[1..] == w[1..] + " " + rest;
    }
  }

  lemma ContainsAfterDigits(n: nat, text: string, tag: string)
    requires tag != "" && !Decimal.IsDigit(tag[0]) && tag[0] != ' '
    ensures Contains(Decimal.Print(n) + " " + text, tag) <==> Contains(text, tag)
  {
    hide Decimal.Print, OccursAt;
    var head := Decimal.Print(n) + " ";
    forall i | 0 <= i <= |head + text| && OccursAt(head + text, tag, i)
      ensures |head| <= i && OccursAt(text, tag, i - |head|)
    {
      OccursPast(head, text, tag, i);
    }
    forall i | 0 <= i <= |text| && OccursAt(text, tag, i)
      ensures OccursAt(head + text, tag, |head| + i)
    {
      OccursLater(head, text, tag, i);
    }
  }

  /** An occurrence cannot begin in a text that lacks the first character. */
  lemma OccursPast(head: string, text: string, tag: string, i: nat)
    requires tag != "" && tag[0] !in head && i <= |head + text| && OccursAt(head + text, tag, i)
    ensures |head| <= i && OccursAt(text, tag, i - |head|)
  {
    var line := head + text;
    assert line[i] == tag[0];
    assert forall k | 0 <= k < |head| :: line[k] == head[k] && head[k] in head;
    assert line[i..i + |tag|] == text[i - |head|..i - |head| + |tag|];
  }

  lemma OccursLater(head: string, text: string, tag: string, i: nat)
    requires i <= |text| && OccursAt(text, tag, i)
    ensures OccursAt(head + text, tag, |head| + i)
  {
    assert (head + text)[|head| + i..|head| + i + |tag|] == text[i..i + |tag|];
  }

  /** A numbered line yields its own number exactly when its rule is tagged. */
  lemma NumberOfLine(n: nat, r: Rule)
    ensures NumberOf(NumberedLine(n, r)) == if Tagged(r) then Some(n) else None
  {
    var line := NumberedLine(n, r);
    WordBeforeSpace(Decimal.Print(n), Listed(r));
    assert !IsSpace(line[0]);
    Decimal.ValueOfPrint(n);
    ContainsAfterDigits(n, Listed(r), VIGILANT_TAG);
    ContainsAfterDigits(n, Listed(r), SENTINEL_TAG);
  }

  lemma HeaderHasNoNumber(line: string)
    requires line != "" && !IsSpace(line[0]) && !Decimal.IsDigit(line[0])
    ensures NumberOf(line) == None
  {}

  /** The numbers collected from the first `k` lines of a listing. */
  function Numbers(lines: seq<string>): seq<nat> {
    if lines == [] then []
    else
      var n := NumberOf(lines[|lines| - 1]);
      Numbers(lines[..|lines| - 1]) + if n.Some? then [n.value] else []
  }

  /** The 1-based positions of the tagged rules among the first `k`, last first. */
  function TaggedDown(chain: Chain, k: nat): seq<nat>
    requires k <= |chain|
  {
    if k == 0 then [] else (if TaggedAt(chain, k) then [k] else []) + TaggedDown(chain, k - 1)
  }

  function Reversed(ns: seq<nat>): seq<nat> {
    if ns == [] then [] else [ns[|ns| - 1]] + Reversed(ns[..|ns| - 1])
  }

  /** The lines yield the numbers of the tagged rules and nothing else. */
  ghost predicate Numbered(lines: seq<string>, chain: Chain) {
    && |lines| == |chain| + 2
    && NumberOf(lines[0]) == None && NumberOf(lines[1]) == None
    && forall i | 2 <= i < |lines| :: NumberOf(lines[i]) == if Tagged(chain[i - 2]) then Some(i - 1) else None
  }

  lemma ListingIsNumbered(chain: Chain)
    ensures Numbered(Listing(chain), chain)
  {
    hide NumberOf, Tagged, NumberedLine;
    var lines := Listing(chain);
    HeaderHasNoNumber(lines[0]);
    HeaderHasNoNumber(lines[1]);
    forall i | 2 <= i < |lines|
      ensures NumberOf(lines[i]) == if Tagged(chain[i - 2]) then Some(i - 1) else None
    {
      assert lines[i] == NumberedLine(i - 1, chain[i - 2]);
      NumberOfLine(i - 1, chain[i - 2]);
    }
  }

  lemma NumbersNext(lines: seq<string>, i: nat)
    requires i < |lines|
    ensures Numbers(lines[..i + 1]) == match NumberOf(lines[i]) case None => Numbers(lines[..i]) case Some(n) => Numbers(lines[..i]) + [n]
  {
    hide NumberOf;
    assert lines[..i + 1][..i] == lines[..i];
    assert Numbers(lines[..i]) + [] == Numbers(lines[..i]);
  }

  lemma {:induction false} NumbersOfLines(lines: seq<string>, chain: Chain, k: nat)
    requires Numbered(lines, chain) && k <= |chain|
    ensures Reversed(Numbers(lines[..k + 2])) == TaggedDown(chain, k)
  {
    hide NumberOf, Tagged;
    if k == 0 {
      NumbersNext(lines, 0);
      NumbersNext(lines, 1);
    } else {
      NumbersOfLines(lines, chain, k - 1);
      NumbersNext(lines, k + 1);
      var ns := Numbers(lines[..k + 1]);
      if TaggedAt(chain, k) {
        assert (ns + [k])[..|ns|] == ns;
      }
    }
  }

  /** The rules from position `k` (0-based) on, without the tagged ones that are gone. */
  function SurvivorsFrom(chain: Chain, k: nat, gone: nat -> bool): Chain
    requires k <= |chain|
    decreases |chain| - k
  {
    if k == |chain| then []
    else (if TaggedAt(chain, k + 1) && gone(k + 1) then [] else [chain[k]]) + SurvivorsFrom(chain, k + 1, gone)
  }

  /** `-D INPUT n` */
  function DeleteLine(chain: Chain, n: nat): Chain
    requires 1 <= n <= |chain|
  {
    chain[..n - 1] + chain[n..]
  }

  lemma DeleteNext(chain: Chain, n: nat, gone: nat -> bool)
    requires TaggedAt(chain, n)
    ensures var c := chain[..n] + SurvivorsFrom(chain, n, gone);
            (if gone(n) then DeleteLine(c, n) else c) == chain[..n - 1] + SurvivorsFrom(chain, n - 1, gone)
  {
    if gone(n) {
      var rest := SurvivorsFrom(chain, n, gone);
      var c := chain[..n] + rest;
      assert c[..n - 1] == chain[..n - 1] && c[n..] == rest;
      assert [] + rest == rest;
    } else {
      SkipUntagged(chain, n, gone);
    }
  }

  lemma SkipUntagged(chain: Chain, n: nat, gone: nat -> bool)
    requires 1 <= n <= |chain| && (TaggedAt(chain, n) ==> !gone(n))
    ensures chain[..n] + SurvivorsFrom(chain, n, gone) == chain[..n - 1] + SurvivorsFrom(chain, n - 1, gone)
  {
    hide Tagged;
    var rest := SurvivorsFrom(chain, n, gone);
    assert SurvivorsFrom(chain, n - 1, gone) == [chain[n - 1]] + rest;
    assert chain[..n] == chain[..n - 1] + [chain[n - 1]];
    assert chain[..n - 1] + ([chain[n - 1]] + rest) == chain[..n - 1] + [chain[n - 1]] + rest;
  }

  /** How many of the tagged lines from position `k` on satisfy `p`. */
  function CountFrom(chain: Chain, k: nat, p: nat -> bool): nat
    requires k <= |chain|
    decreases |chain| - k
  {
    if k == |chain| then 0
    else (if TaggedAt(chain, k + 1) && p(k + 1) then 1 else 0) + CountFrom(chain, k + 1, p)
  }

  // ---- what a cleanup achieves

  /** Deletions go from the last line up and stop at the first exception. */
  ghost predicate Attempted(chain: Chain, fate: nat -> Result, n: nat) {
    forall m: nat | n < m && TaggedAt(chain, m) :: !fate(m).Raised?
  }

  /** The lines whose deletion is applied. */
  ghost function Gone(chain: Chain, fate: nat -> Result): nat -> bool {
    (n: nat) => Attempted(chain, fate, n) && Applied(fate(n))
  }

  function Succeeds(fate: nat -> Result): nat -> bool {
    (n: nat) => fate(n).Ok?
  }

  /** What a cleanup leaves, whichever deletions fail. */
  ghost function Survivors(chain: Chain, fate: nat -> Result): Chain {
    SurvivorsFrom(chain, 0, Gone(chain, fate))
  }

  ghost predicate SomeRaise(chain: Chain, fate: nat -> Result) {
    !Attempted(chain, fate, 0)
  }

  lemma {:induction false} SurvivorsKeepUntagged(chain: Chain, k: nat, gone: nat -> bool)
    requires k <= |chain|
    ensures Select(SurvivorsFrom(chain, k, gone), NotTagged) == Select(chain[k..], NotTagged)
    ensures |SurvivorsFrom(chain, k, gone)| + CountFrom(chain, k, gone) == |chain| - k
    ensures (forall n :: gone(n)) ==> SurvivorsFrom(chain, k, gone) == Select(chain[k..], NotTagged)
    decreases |chain| - k
  {
    hide Tagged;
    if k == |chain| {
    } else {
      SurvivorsKeepUntagged(chain, k + 1, gone);
      var rest := SurvivorsFrom(chain, k + 1, gone);
      assert chain[k..][1..] == chain[k + 1..];
      assert ([chain[k]] + rest)[1..] == rest;
      assert [] + rest == rest;
    }
  }

  lemma {:induction false} CountSame(chain: Chain, k: nat, p: nat -> bool, q: nat -> bool)
    requires k <= |chain|
    requires forall n: nat | k < n && TaggedAt(chain, n) :: p(n) == q(n)
    ensures CountFrom(chain, k, p) == CountFrom(chain, k, q)
    decreases |chain| - k
  {
    if k == |chain| {
    } else {
      CountSame(chain, k + 1, p, q);
    }
  }

  /** Whichever deletions fail or raise, a cleanup removes tagged rules only and
      keeps all others in their order; if none raises, the number reported is
      exactly the number removed; and if none fails either, exactly the rules
      without a tag remain. */
  lemma CleanupUnderFailures(chain: Chain, fate: nat -> Result)
    ensures Select(Survivors(chain, fate), NotTagged) == Select(chain, NotTagged)
    ensures !SomeRaise(chain, fate) ==>
              |Survivors(chain, fate)| == |chain| - CountFrom(chain, 0, Succeeds(fate))
    ensures (forall n: nat :: fate(n).Ok?) ==> Survivors(chain, fate) == Select(chain, NotTagged)
  {
    hide Tagged;
    var gone := Gone(chain, fate);
    SurvivorsKeepUntagged(chain, 0, gone);
    assert chain[0..] == chain;
    if forall n: nat :: fate(n).Ok? {
      forall n: nat
        ensures gone(n)
      {
        assert fate(n).Ok?;
      }
    }
    if !SomeRaise(chain, fate) {
      forall n: nat | 0 < n && TaggedAt(chain, n)
        ensures Succeeds(fate)(n) == gone(n)
      {
        assert Attempted(chain, fate, n);
        assert !fate(n).Raised?;
      }
      CountSame(chain, 0, Succeeds(fate), gone);
    }
  }

  /** The listing text of the rule names neither product. */
  ghost predicate Unmarked(r: Rule) {
    forall pre, post :: Listed(r) != pre + "Vigilant_Block_" + post && Listed(r) != pre + "Sentinel_Block_" + post
  }

  lemma UnmarkedIsNotTagged(r: Rule)
    ensures Unmarked(r) <==> NotTagged(r)
  {
    hide Listed, Contains;
    ContainsMeans(Listed(r), VIGILANT_TAG);
    ContainsMeans(Listed(r), SENTINEL_TAG);
  }

  lemma SelectUnmarked(chain: Chain)
    ensures Select(chain, Unmarked) == Select(chain, NotTagged)
  {
    hide Unmarked, NotTagged;
    forall r
      ensures Unmarked(r) == NotTagged(r)
    {
      UnmarkedIsNotTagged(r);
    }
    SelectSame(chain, Unmarked, NotTagged);
  }

  lemma {:induction false} SelectedAreKept(chain: Chain, keep: Rule -> bool)
    ensures forall r :: r in Select(chain, keep) <==> r in chain && keep(r)
  {
    if chain == [] {
    } else {
      SelectedAreKept(chain[1..], keep);
      assert chain == [chain[0]] + chain[1..];
    }
  }

  /** A cleanup in terms of the listing: rules that name neither product stay, each copy
      and in order, whatever fails; if nothing fails no other rule stays; and the
      number reported is the number removed. */
  lemma CleanupMeans(chain: Chain, fate: nat -> Result)
    ensures Select(Survivors(chain, fate), Unmarked) == Select(chain, Unmarked)
    ensures !SomeRaise(chain, fate) ==> CountFrom(chain, 0, Succeeds(fate)) == |chain| - |Survivors(chain, fate)|
    ensures (forall n: nat :: fate(n).Ok?) ==> forall r | r in Survivors(chain, fate) :: Unmarked(r)
  {
    hide Tagged, Survivors, SomeRaise, CountFrom, Unmarked, NotTagged;
    CleanupUnderFailures(chain, fate);
    SelectUnmarked(chain);
    SelectUnmarked(Survivors(chain, fate));
    if forall n: nat :: fate(n).Ok? {
      SelectedAreKept(chain, NotTagged);
      forall r | r in Survivors(chain, fate)
        ensures Unmarked(r)
      {
        UnmarkedIsNotTagged(r);
      }
    }
  }

  /** Nothing that is gone lies below line `n`. */
  lemma {:induction false} UntouchedBelow(chain: Chain, n: nat, gone: nat -> bool)
    requires n <= |chain|
    requires forall m: nat | m <= n && TaggedAt(chain, m) :: !gone(m)
    ensures chain[..n] + SurvivorsFrom(chain, n, gone) == SurvivorsFrom(chain, 0, gone)
  {
    if n == 0 {
      assert chain[..0] + SurvivorsFrom(chain, 0, gone) == SurvivorsFrom(chain, 0, gone);
    } else {
      SkipUntagged(chain, n, gone);
      UntouchedBelow(chain, n - 1, gone);
    }
  }

  lemma CountNext(chain: Chain, n: nat, p: nat -> bool)
    requires 1 <= n <= |chain|
    ensures CountFrom(chain, n - 1, p) == (if TaggedAt(chain, n) && p(n) then 1 else 0) + CountFrom(chain, n, p)
  {}

  /** The next number to delete: the last tagged line among the first `k`. */
  lemma {:induction false} NextTagged(chain: Chain, k: nat) returns (n: nat)
    requires k <= |chain| && TaggedDown(chain, k) != []
    ensures 1 <= n <= k && TaggedAt(chain, n)
    ensures TaggedDown(chain, k)[0] == n && TaggedDown(chain, k)[1..] == TaggedDown(chain, n - 1)
    ensures forall m: nat | n < m <= k :: !TaggedAt(chain, m)
  {
    hide Tagged;
    n := k;
    if !TaggedAt(chain, k) {
      n := NextTagged(chain, k - 1);
    }
  }

  /** Lines without a tag are passed over. */
  lemma {:induction false} SkipLines(chain: Chain, n: nat, k: nat, gone: nat -> bool, p: nat -> bool)
    requires n <= k <= |chain|
    requires forall m: nat | n < m <= k :: !TaggedAt(chain, m)
    ensures chain[..k] + SurvivorsFrom(chain, k, gone) == chain[..n] + SurvivorsFrom(chain, n, gone)
    ensures CountFrom(chain, k, p) == CountFrom(chain, n, p)
  {
    hide Tagged, SurvivorsFrom, CountFrom;
    if n == k {
    } else {
      SkipUntagged(chain, k, gone);
      CountNext(chain, k, p);
      SkipLines(chain, n, k - 1, gone, p);
    }
  }

  lemma {:induction false} NoneTagged(chain: Chain, k: nat)
    requires k <= |chain| && TaggedDown(chain, k) == []
    ensures forall m: nat | m <= k :: !TaggedAt(chain, m)
  {
    hide Tagged;
    if k == 0 {
    } else {
      NoneTagged(chain, k - 1);
    }
  }

  // ---- the bridge

  datatype CleanupOutcome = Removed(count: nat) | CleanupError

  class Bridge {
    var chain: Chain
    const compatible: bool

    constructor (compatible: bool, chain: Chain)
      ensures this.compatible == compatible && this.chain == chain
    {
      this.compatible, this.chain := compatible, chain;
    }

    /** Adds the DROP rule of a port unless `-C` finds it. */
    method BlockPort(port: int, protocol: string, check: CheckResult, insert: Result) returns (outcome: Blocked)
      modifies this`chain
      ensures (chain, outcome) == Block(old(chain), compatible, port, protocol, check, insert)
    {
      if !compatible || !(1 <= port <= 65535) || !IsProtocol(Lower(protocol)) {
        return BlockError;
      }
      var proto := Lower(protocol);
      var rule := PortRule(proto, port, "DROP", Comment(VIGILANT, port, proto));
      if check.CheckRaised? {
        return BlockError;
      }
      if check.Truthful? && rule in chain {
        return Blocked;
      }
      if Applied(insert) {
        chain := [rule] + chain;
      }
      outcome := if insert.Ok? then Blocked else BlockError;
    }

    /** `-D INPUT` of one rule; a rule that is not there is an error that is ignored. */
    method DeleteRule(rule: Rule, result: Result)
      modifies this`chain
      ensures chain == Delete(old(chain), rule, result)
    {
      if Applied(result) {
        var i := 0;
        while i < |chain| && chain[i] != rule
          invariant i <= |chain| && rule !in chain[..i]
        {
          i := i + 1;
        }
        RemoveFirstAt(chain, rule, i);
        if i < |chain| {
          chain := chain[..i] + chain[i + 1..];
        }
      }
    }

    /** Deletes the port's managed rules; reports success whatever happens. */
    method UnblockPort(port: nat, d: Deletions) returns (success: bool)
      modifies this`chain
      ensures success == compatible
      ensures chain == if compatible then Unblock(old(chain), port, d) else old(chain)
    {
      if !compatible {
        return false;
      }
      DeleteRule(Managed(VIGILANT, port, TCP), d.tcpVigilant);
      DeleteRule(Managed(SENTINEL, port, TCP), d.tcpSentinel);
      DeleteRule(Managed(VIGILANT, port, UDP), d.udpVigilant);
      DeleteRule(Managed(SENTINEL, port, UDP), d.udpSentinel);
      return true;
    }

    /** The numbers of the listing's tagged lines, last first. */
    method CollectNumbers() returns (toDelete: seq<nat>)
      ensures toDelete == TaggedDown(chain, |chain|)
    {
      hide NumberOf, Tagged, Listing;
      var lines, ascending := Listing(chain), [];
      ListingIsNumbered(chain);
      var i := 0;
      while i < |lines|
        invariant i <= |lines| && ascending == Numbers(lines[..i])
      {
        var n := NumberOf(lines[i]);
        if n.Some? {
          ascending := ascending + [n.value];
        }
        assert lines[..i + 1][..i] == lines[..i];
        i := i + 1;
      }
      NumbersOfLines(lines, chain, |chain|);
      toDelete := Reversed(ascending);
    }

    /** `-D INPUT n` */
    method DeleteNumber(n: nat, result: Result)
      requires 1 <= n <= |chain|
      modifies this`chain
      ensures chain == if Applied(result) then DeleteLine(old(chain), n) else old(chain)
    {
      if Applied(result) {
        chain := chain[..n - 1] + chain[n..];
      }
    }

    /** Deletes all tagged rules by line number, from the bottom up. */
    method CleanupAllRules(list: Result, fate: nat -> Result) returns (outcome: CleanupOutcome)
      modifies this`chain
      ensures !compatible ==> chain == old(chain) && outcome == Removed(0)
      ensures compatible && !list.Ok? ==> chain == old(chain) && outcome == CleanupError
      ensures compatible && list.Ok? ==>
                && chain == Survivors(old(chain), fate)
                && outcome == if SomeRaise(old(chain), fate) then CleanupError else Removed(CountFrom(old(chain), 0, Succeeds(fate)))
      // rules whose listing names neither product stay, whatever fails ...
      ensures Select(chain, Unmarked) == Select(old(chain), Unmarked)
      // ... no other stays if nothing fails, and the report counts what went
      ensures compatible && list.Ok? && (forall n: nat :: fate(n).Ok?) ==> forall r | r in chain :: Unmarked(r)
      ensures outcome.Removed? ==> outcome.count == |old(chain)| - |chain|
    {
      if !compatible {
        return Removed(0);
      }
      if !list.Ok? {
        return CleanupError;
      }
      hide *;
      CleanupMeans(chain, fate);
      var toDelete := CollectNumbers();
      var removed := 0;
      ghost var before, k: nat := chain, |chain|;
      BeforeCleanup(before, fate);
      while toDelete != []
        invariant CleaningUp(before, fate, k, chain, toDelete, removed)
        decreases |toDelete|
      {
        var n := toDelete[0];
        var result := fate(n);
        CleanupStep(before, fate, k, chain, toDelete, removed);
        DeleteNumber(n, result);
        if result.Raised? {
          return CleanupError;
        }
        if result.Ok? {
          removed := removed + 1;
        }
        toDelete := toDelete[1..];
        k := n - 1;
      }
      AfterCleanup(before, fate, k, chain, removed);
      outcome := Removed(removed);
    }
  }

  /** The chain when the lines above number `k` are still to be dealt with. */
  ghost function PartlyCleaned(chain: Chain, k: nat, fate: nat -> Result): Chain
    requires k <= |chain|
  {
    chain[..k] + SurvivorsFrom(chain, k, Gone(chain, fate))
  }

  /** A cleanup of `before` has dealt with the tagged lines above number `k`, none
      of which raised; `toDelete` holds the others, last first. */
  ghost predicate CleaningUp(before: Chain, fate: nat -> Result, k: nat, chain: Chain, toDelete: seq<nat>, removed: nat) {
    && k <= |before| && toDelete == TaggedDown(before, k) && Attempted(before, fate, k)
    && chain == PartlyCleaned(before, k, fate)
    && removed == CountFrom(before, k, Succeeds(fate))
  }

  lemma BeforeCleanup(chain: Chain, fate: nat -> Result)
    ensures CleaningUp(chain, fate, |chain|, chain, TaggedDown(chain, |chain|), 0)
  {
    hide Tagged, TaggedDown;
    assert chain == PartlyCleaned(chain, |chain|, fate);
  }

  lemma AfterCleanup(before: Chain, fate: nat -> Result, k: nat, chain: Chain, removed: nat)
    requires CleaningUp(before, fate, k, chain, [], removed)
    ensures chain == Survivors(before, fate) && !SomeRaise(before, fate)
    ensures removed == CountFrom(before, 0, Succeeds(fate))
  {
    hide Tagged, SurvivorsFrom, CountFrom;
    NoneTagged(before, k);
    SkipLines(before, 0, k, Gone(before, fate), Succeeds(fate));
    assert before[..0] + Survivors(before, fate) == Survivors(before, fate);
  }

  /** Dealing with the next number: its line is deleted if the command is applied,
      and an exception leaves all lines above it as they are. */
  lemma CleanupStep(before: Chain, fate: nat -> Result, k: nat, chain: Chain, toDelete: seq<nat>, removed: nat)
    requires toDelete != [] && CleaningUp(before, fate, k, chain, toDelete, removed)
    ensures var n := toDelete[0];
            && 1 <= n <= |chain|
            && var c := if Applied(fate(n)) then DeleteLine(chain, n) else chain;
            && (fate(n).Raised? ==> c == Survivors(before, fate) && SomeRaise(before, fate))
            && (!fate(n).Raised? ==>
                  CleaningUp(before, fate, n - 1, c, toDelete[1..], removed + if fate(n).Ok? then 1 else 0))
  {
    hide Tagged, SurvivorsFrom, CountFrom, TaggedDown, Applied, SomeRaise, Survivors;
    var n := NextTagged(before, k);
    SkipLines(before, n, k, Gone(before, fate), Succeeds(fate));
    assert Attempted(before, fate, n);
    DeleteNext(before, n, Gone(before, fate));
    CountNext(before, n, Succeeds(fate));
    if fate(n).Raised? {
      StoppedAt(before, n, fate);
    }
  }

  lemma StoppedAt(chain: Chain, n: nat, fate: nat -> Result)
    requires TaggedAt(chain, n) && fate(n).Raised?
    ensures PartlyCleaned(chain, n - 1, fate) == Survivors(chain, fate) && SomeRaise(chain, fate)
  {
    hide Tagged, SurvivorsFrom, Applied;
    forall m: nat | m < n
      ensures !Attempted(chain, fate, m)
    {
      assert TaggedAt(chain, n) && fate(n).Raised?;
    }
    UntouchedBelow(chain, n - 1, Gone(chain, fate));
  }
}
