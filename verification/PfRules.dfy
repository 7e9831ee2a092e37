/** The macOS firewall bridge: rules by port in an insertion-ordered dictionary,
    printed to a rules file and parsed back by a process that was restarted. */
module PfRules {
  import opened Text
  import opened OrderedDict
  import Decimal

  /** Rule texts by port. */
  type Active = Dict<nat, string>

  // ---- the pattern `port\s+(\d+)\s*$`

  /** What a match at `i` is: the word, white space, the group of digits and white
      space up to the end. */
  ghost predicate MatchesAt(s: string, i: nat, gap: string, digits: string, tail: string) {
    && i <= |s| && s[i..] == "port" + gap + digits + tail
    && gap != "" && AllSpace(gap) && digits != "" && Decimal.AllDigits(digits) && AllSpace(tail)
  }

  function TrimRight(s: string): (t: string)
    ensures |t| <= |s| && t == s[..|t|] && AllSpace(s[|t|..])
    ensures t != "" ==> !IsSpace(t[|t| - 1])
  {
    if s != "" && IsSpace(s[|s| - 1]) then TrimRight(s[..|s| - 1]) else s
  }

  function TrailingDigits(s: string): (d: string)
    ensures |d| <= |s| && d == s[|s| - |d|..] && Decimal.AllDigits(d)
    ensures |d| < |s| ==> !Decimal.IsDigit(s[|s| - |d| - 1])
  {
    if s != "" && Decimal.IsDigit(s[|s| - 1]) then TrailingDigits(s[..|s| - 1]) + [s[|s| - 1]] else ""
  }

  /** The group that a search for the pattern captures, read from the right. */
  function Search(s: string): (r: Option<string>)
    ensures r.Some? ==> r.value != "" && Decimal.AllDigits(r.value)
  {
    var t := TrimRight(s);
    var digits := TrailingDigits(t);
    var u := t[..|t| - |digits|];
    var v := TrimRight(u);
    if digits != "" && |v| < |u| && |v| >= 4 && v[|v| - 4..] == "port" then Some(digits) else None
  }

  /** White space at the end is trimmed, and nothing else. */
  lemma {:induction false} TrimRightUnique(a: string, w: string)
    requires AllSpace(w) && (a != "" ==> !IsSpace(a[|a| - 1]))
    ensures TrimRight(a + w) == a
  {
    if w == "" {
      assert a + w == a;
    } else {
      TrimRightUnique(a, w[..|w| - 1]);
      assert (a + w)[..|a + w| - 1] == a + w[..|w| - 1];
    }
  }

  lemma TrailingDigitsUnique(a: string, d: string)
    requires Decimal.AllDigits(d) && (a != "" ==> !Decimal.IsDigit(a[|a| - 1]))
    ensures TrailingDigits(a + d) == d
  {
    hide TrailingDigits, Decimal.IsDigit;
    var s := a + d;
    var e := TrailingDigits(s);
    var cut := |s| - |e|;
    assert a != "" ==> s[|a| - 1] == a[|a| - 1];
    forall k | |a| <= k < |s|
      ensures Decimal.IsDigit(s[k])
    {
      assert s[k] == d[k - |a|];
    }
    forall k | cut <= k < |s|
      ensures Decimal.IsDigit(s[k])
    {
      assert s[k] == e[k - cut];
    }
    assert cut == |a| && s[|a|..] == d;
  }

  lemma CharacterKinds(c: char)
    ensures !(IsSpace(c) && Decimal.IsDigit(c)) && !IsSpace('t')
  {}

  /** Every match captures the same digits, and they are what the search returns. */
  lemma SearchFindsMatch(s: string, i: nat, gap: string, digits: string, tail: string)
    requires MatchesAt(s, i, gap, digits, tail)
    ensures Search(s) == Some(digits)
  {
    hide TrimRight, TrailingDigits, IsSpace, Decimal.IsDigit;
    var v := s[..i] + "port";
    var u := v + gap;
    var t := u + digits;
    assert s == t + tail by {
      assert s == s[..i] + s[i..];
    }
    CharacterKinds(digits[|digits| - 1]);
    CharacterKinds(gap[|gap| - 1]);
    TrimRightUnique(t, tail);
    TrailingDigitsUnique(u, digits);
    assert t[..|t| - |digits|] == u;
    TrimRightUnique(v, gap);
    assert v[|v| - 4..] == "port";
  }

  lemma SearchFindsOnlyMatches(s: string) returns (i: nat, gap: string, tail: string)
    requires Search(s).Some?
    ensures MatchesAt(s, i, gap, Search(s).value, tail)
  {
    hide TrimRight, TrailingDigits;
    var t := TrimRight(s);
    var digits := TrailingDigits(t);
    var u := t[..|t| - |digits|];
    var v := TrimRight(u);
    i, gap, tail := |v| - 4, u[|v|..], s[|t|..];
    assert s == t + tail;
    assert t == u + digits;
    assert u == v + gap;
    assert v == v[..i] + "port";
    DropFirst(v[..i], "port", gap, digits, tail);
  }

  lemma DropFirst(head: string, a: string, b: string, c: string, d: string)
    ensures (head + a + b + c + d)[|head|..] == a + b + c + d
  {}

  /** The search succeeds with `digits` exactly when the pattern matches somewhere
      with that group, and then it matches in one place only. */
  lemma SearchIsExact(s: string, digits: string)
    ensures Search(s) == Some(digits) <==> exists i, gap, tail :: MatchesAt(s, i, gap, digits, tail)
    ensures forall i, gap, tail, j, gap', tail' ::
              MatchesAt(s, i, gap, digits, tail) && MatchesAt(s, j, gap', digits, tail') ==> i == j
  {
    hide Search;
    if Search(s) == Some(digits) {
      var i, gap, tail := SearchFindsOnlyMatches(s);
    }
    forall i, gap, tail | MatchesAt(s, i, gap, digits, tail)
      ensures Search(s) == Some(digits)
    {
      SearchFindsMatch(s, i, gap, digits, tail);
    }
    forall i, gap, tail, j, gap', tail' | MatchesAt(s, i, gap, digits, tail) && MatchesAt(s, j, gap', digits, tail')
      ensures i == j
    {
      OneMatch(s, i, gap, digits, tail, j, gap', tail');
      OneMatch(s, j, gap', digits, tail', i, gap, tail);
    }
  }

  lemma OneMatch(s: string, i: nat, gap: string, digits: string, tail: string, j: nat, gap': string, tail': string)
    requires MatchesAt(s, i, gap, digits, tail) && MatchesAt(s, j, gap', digits, tail')
    ensures i >= j
  {
    var w := "port" + gap' + digits + tail';
    if i < j {
      assert s[j..] == s[i..][j - i..];
      assert s[i..][j - i] == 'p' && s[i..][j - i + 1] == 'o' by {
        assert s[j..][0] == w[0] && s[j..][1] == w[1];
      }
      var x := "port" + gap + digits + tail;
      assert forall k | 4 <= k < |x| :: IsSpace(x[k]) || Decimal.IsDigit(x[k]) by {
        Digitish(gap, digits, tail);
      }
    }
  }

  lemma Digitish(gap: string, digits: string, tail: string)
    requires AllSpace(gap) && Decimal.AllDigits(digits) && AllSpace(tail)
    ensures var x := "port" + gap + digits + tail;
            forall k | 4 <= k < |x| :: IsSpace(x[k]) || Decimal.IsDigit(x[k])
  {
    var x := "port" + gap + digits + tail;
    forall k | 4 <= k < |x|
      ensures IsSpace(x[k]) || Decimal.IsDigit(x[k])
    {
      if k < 4 + |gap| {
        assert x[k] == gap[k - 4];
      } else if k < 4 + |gap| + |digits| {
        assert x[k] == digits[k - 4 - |gap|];
      } else {
        assert x[k] == tail[k - 4 - |gap| - |digits|];
      }
    }
  }

  // ---- printing and parsing

  function Lines(text: string): (ls: seq<string>)
    ensures |ls| > 0
  {
    Split(text, '\n')
  }

  /** The contents of the rules file. */
  function Write(active: Active): string {
    if active == [] then "" else active[0].value + ['\n'] + Write(active[1..])
  }

  /** The entry that a line of the file yields. */
  function Parse(line: string): Option<Entry<nat, string>> {
    var rule := Strip(line);
    match Search(rule)
    case None => None
    case Some(digits) => Some(Entry(Decimal.Value(digits), rule))
  }

  function Load(active: Active, lines: seq<string>): Active
    decreases lines
  {
    if lines == [] then active
    else
      var e := Parse(lines[0]);
      Load(if e.Some? then Put(active, e.value.key, e.value.value) else active, lines[1..])
  }

  /** The rule that reading back the lines of a rule's text yields. */
  function Reread(rule: string): string {
    var ls := Lines(rule);
    Strip(ls[|ls| - 1])
  }

  function RereadAll(active: Active): (r: Active)
    ensures |r| == |active| && forall i | 0 <= i < |active| :: r[i] == Entry(active[i].key, Reread(active[i].value))
  {
    seq(|active|, i requires 0 <= i < |active| => Entry(active[i].key, Reread(active[i].value)))
  }

  /** A rule's text: one line that reads back as itself, or two of which only the
      second reads back, as a rule for the same port. */
  predicate RuleFor(rule: string, port: nat) {
    var ls := Lines(rule);
    && (|ls| == 1 || (|ls| == 2 && Parse(ls[0]) == None))
    && Parse(ls[|ls| - 1]) == Some(Entry(port, Reread(rule)))
    && (|ls| == 1 ==> Reread(rule) == rule)
  }

  predicate Valid(active: Active) {
    Distinct(active) && forall i | 0 <= i < |active| :: RuleFor(active[i].value, active[i].key)
  }

  predicate OneLine(rule: string) {
    '\n' !in rule
  }

  lemma LinesOfConcat(a: string, b: string)
    ensures Lines(a + ['\n'] + b) == Lines(a) + Lines(b)
  {
    SplitConcat(a, b, '\n');
  }

  lemma {:induction false} LinesAreLines(s: string)
    ensures forall i | 0 <= i < |Lines(s)| :: OneLine(Lines(s)[i])
    ensures OneLine(s) <==> |Lines(s)| == 1
    ensures OneLine(s) ==> Lines(s) == [s]
  {
    if s == "" {
    } else {
      LinesAreLines(s[1..]);
      assert s == [s[0]] + s[1..];
    }
  }

  lemma {:induction false} StripIsPart(s: string)
    ensures |Strip(s)| <= |s| && forall c | c in Strip(s) :: c in s
    ensures Strip(Strip(s)) == Strip(s)
  {
    if s != "" && IsSpace(s[0]) {
      StripIsPart(s[1..]);
    } else if s != "" && IsSpace(s[|s| - 1]) {
      StripIsPart(s[..|s| - 1]);
    }
  }

  lemma RereadIsOneLine(rule: string)
    ensures OneLine(Reread(rule)) && Reread(Reread(rule)) == Reread(rule)
  {
    LinesAreLines(rule);
    var ls := Lines(rule);
    StripIsPart(ls[|ls| - 1]);
    LinesAreLines(Reread(rule));
  }

  lemma RereadRuleFor(rule: string, port: nat)
    requires RuleFor(rule, port)
    ensures RuleFor(Reread(rule), port)
  {
    hide Search, Strip;
    RereadIsOneLine(rule);
    LinesAreLines(Reread(rule));
    var ls := Lines(rule);
    StripIsPart(ls[|ls| - 1]);
  }

  lemma RereadAllValid(active: Active)
    requires Valid(active)
    ensures Valid(RereadAll(active)) && RereadAll(RereadAll(active)) == RereadAll(active)
    ensures forall e | e in RereadAll(active) :: OneLine(e.value)
  {
    hide RuleFor, Reread, OneLine;
    forall i | 0 <= i < |active|
      ensures RuleFor(Reread(active[i].value), active[i].key) && OneLine(Reread(active[i].value))
      ensures Reread(Reread(active[i].value)) == Reread(active[i].value)
    {
      RereadRuleFor(active[i].value, active[i].key);
      RereadIsOneLine(active[i].value);
    }
  }

  lemma RereadSame(active: Active)
    requires Valid(active)
    ensures RereadAll(active) == active <==> forall e | e in active :: OneLine(e.value)
  {
    hide Reread, OneLine, Parse;
    forall i | 0 <= i < |active|
      ensures Reread(active[i].value) == active[i].value <==> OneLine(active[i].value)
    {
      assert RuleFor(active[i].value, active[i].key);
      LinesAreLines(active[i].value);
      RereadIsOneLine(active[i].value);
    }
  }

  /** Reading the lines of one rule puts it under its port. */
  lemma LoadRule(active: Active, rule: string, port: nat, rest: seq<string>)
    requires RuleFor(rule, port)
    ensures Load(active, Lines(rule) + rest) == Load(Put(active, port, Reread(rule)), rest)
  {
    hide Parse, Put, Reread;
    var ls := Lines(rule);
    var all := ls + rest;
    if |ls| == 1 {
      assert all[0] == ls[0] && all[1..] == rest;
    } else {
      assert all[0] == ls[0] && all[1..][0] == ls[1] && all[1..][1..] == rest;
    }
  }

  lemma PutNew(active: Active, port: nat, rule: string)
    requires !Has(active, port)
    ensures Put(active, port, rule) == active + [Entry(port, rule)]
  {}

  /** The port at place `i` keeps its place. */
  lemma PutAt(active: Active, i: nat, rule: string)
    requires i < |active| && Distinct(active)
    ensures IndexOf(active, active[i].key) == i
    ensures Put(active, active[i].key, rule) == active[i := Entry(active[i].key, rule)]
  {}

  predicate SamePorts(a: Active, b: Active) {
    |a| == |b| && forall i | 0 <= i < |a| :: a[i].key == b[i].key
  }

  /** Reading a written file into a dictionary that has its ports, from place `k` on. */
  lemma {:induction false} LoadOver(x: Active, active: Active, k: nat)
    requires Valid(active) && SamePorts(x, active) && k <= |active|
    ensures Load(x, Lines(Write(active[k..]))) == x[..k] + RereadAll(active)[k..]
    decreases |active| - k
  {
    hide RuleFor, Reread, Put, Lines, Load;
    if k == |active| {
      assert Write(active[k..]) == "";
      EmptyFile(x);
      assert x[..k] + RereadAll(active)[k..] == x;
    } else {
      var e := active[k];
      LoadNext(x, active, k);
      PutAt(x, k, Reread(e.value));
      var y := Put(x, e.key, Reread(e.value));
      LoadOver(y, active, k + 1);
      assert y[..k + 1] + RereadAll(active)[k + 1..] == x[..k] + RereadAll(active)[k..];
    }
  }

  lemma EmptyFile(x: Active)
    ensures Load(x, Lines("")) == x
  {
    hide Put, Search, Strip;
    assert Lines("") == [""];
    EmptyLine();
  }

  lemma EmptyLine()
    ensures Parse("") == None
  {
    assert Strip("") == "" && TrimRight("") == "" && TrailingDigits("") == "";
  }

  /** Reading one more rule of a written file. */
  lemma LoadNext(x: Active, active: Active, k: nat)
    requires k < |active| && RuleFor(active[k].value, active[k].key)
    ensures Load(x, Lines(Write(active[k..]))) ==
            Load(Put(x, active[k].key, Reread(active[k].value)), Lines(Write(active[k + 1..])))
  {
    hide Load, Put, Lines, RuleFor, Reread;
    var e := active[k];
    assert active[k..][1..] == active[k + 1..];
    LinesOfConcat(e.value, Write(active[k + 1..]));
    LoadRule(x, e.value, e.key, Lines(Write(active[k + 1..])));
  }

  /** Reading a written file into an empty dictionary, from place `k` on. */
  lemma {:induction false} LoadFresh(active: Active, k: nat)
    requires Valid(active) && k <= |active|
    ensures Load(RereadAll(active)[..k], Lines(Write(active[k..]))) == RereadAll(active)
    decreases |active| - k
  {
    hide RuleFor, Reread, Put, Lines, Load;
    var all := RereadAll(active);
    if k == |active| {
      assert Write(active[k..]) == "";
      EmptyFile(all);
      assert all[..k] == all;
    } else {
      var e := active[k];
      LoadNext(all[..k], active, k);
      PutNew(all[..k], e.key, Reread(e.value));
      assert all[..k] + [all[k]] == all[..k + 1];
      LoadFresh(active, k + 1);
    }
  }

  /** Parsing what was written recovers every port in its place, each with the text
      that its rule reads back as. */
  lemma LoadWritten(x: Active, active: Active)
    requires Valid(active)
    ensures Load([], Lines(Write(active))) == RereadAll(active)
    ensures SamePorts(x, active) ==> Load(x, Lines(Write(active))) == RereadAll(active)
  {
    hide Lines, Load, RuleFor, Reread;
    assert active[0..] == active;
    LoadFresh(active, 0);
    assert RereadAll(active)[..0] == [];
    if SamePorts(x, active) {
      LoadOver(x, active, 0);
      assert x[..0] + RereadAll(active)[0..] == RereadAll(active);
    }
  }

  // ---- the rule text

  predicate IsAlnum(c: char) {
    'a' <= c <= 'z' || 'A' <= c <= 'Z' || '0' <= c <= '9'
  }

  predicate AllAlnum(s: string) {
    s != "" && forall i | 0 <= i < |s| :: IsAlnum(s[i])
  }

  /** `re.match(r"^[a-zA-Z0-9]+$", interface)`: `$` also matches before a newline at
      the very end. */
  predicate InterfaceAccepted(interface: string) {
    AllAlnum(interface) || (interface != "" && interface[|interface| - 1] == '\n' && AllAlnum(interface[..|interface| - 1]))
  }

  predicate IsProtocol(p: string) {
    p == "tcp" || p == "udp"
  }

  const HEAD := "block drop on "
  const TO_PORT := " from any to any port "

  function RuleText(interface: string, protocol: string, port: nat): string {
    HEAD + interface + " proto " + protocol + TO_PORT + Decimal.Print(port)
  }

  /** A text that ends in the port clause reads back as a rule for that port. */
  lemma ParsePortClause(head: string, port: nat)
    requires head != "" && !IsSpace(head[0])
    ensures var s := head + TO_PORT + Decimal.Print(port); Strip(s) == s && Parse(s) == Some(Entry(port, s))
  {
    hide Search;
    var d := Decimal.Print(port);
    var s := head + TO_PORT + d;
    assert s[0] == head[0] && s[|s| - 1] == d[|d| - 1];
    StripNothing(s);
    var i := |head| + 17;
    assert TO_PORT[17..] == "port" + " ";
    assert s[i..] == TO_PORT[17..] + d;
    assert s[i..] == "port" + " " + d + "";
    SearchFindsMatch(s, i, " ", d, "");
    Decimal.ValueOfPrint(port);
  }

  lemma NoNewline(head: string, protocol: string, port: nat)
    requires OneLine(head) && IsProtocol(protocol)
    ensures OneLine(head + " proto " + protocol + TO_PORT + Decimal.Print(port))
  {}

  lemma MatchShape(s: string, i: nat, gap: string, digits: string, tail: string)
    requires MatchesAt(s, i, gap, digits, tail)
    ensures i + 4 < |s| && s[i] == 'p' && s[i + 1] == 'o' && IsSpace(s[i + 4])
  {
    var m := "port" + gap + digits + tail;
    assert m[4] == gap[0];
    assert s[i] == m[0] && s[i + 1] == m[1] && s[i + 4] == m[4];
  }

  /** A text that starts like a rule and stops after the interface is not a rule. */
  lemma HeadIsNoRule(interface: string)
    requires AllAlnum(interface)
    ensures Parse(HEAD + interface) == None
  {
    hide Search;
    var s := HEAD + interface;
    assert s[|s| - 1] == interface[|interface| - 1];
    StripNothing(s);
    forall k | 0 <= k < |s| - 4 && s[k] == 'p' && IsSpace(s[k + 4])
      ensures s[k + 1] != 'o'
    {
      HeadShape(interface, k);
    }
    if Search(s).Some? {
      var i, gap, tail := SearchFindsOnlyMatches(s);
      MatchShape(s, i, gap, Search(s).value, tail);
    }
  }

  lemma HeadShape(interface: string, k: nat)
    requires AllAlnum(interface)
    ensures var s := HEAD + interface;
            k + 4 < |s| && s[k] == 'p' && IsSpace(s[k + 4]) ==> s[k + 1] != 'o'
  {
    var s := HEAD + interface;
    if |HEAD| <= k + 4 < |s| {
      assert s[k + 4] == interface[k + 4 - |HEAD|];
    } else if k + 4 < |HEAD| {
      assert s[k] == HEAD[k] && s[k + 1] == HEAD[k + 1];
    }
  }

  lemma StripLeadingSpace(s: string)
    requires s != "" && !IsSpace(s[0]) && !IsSpace(s[|s| - 1])
    ensures Strip([' '] + s) == s
  {
    assert ([' '] + s)[1..] == s;
    StripNothing(s);
  }

  lemma PlainRuleText(interface: string, protocol: string, port: nat)
    requires AllAlnum(interface) && IsProtocol(protocol)
    ensures RuleFor(RuleText(interface, protocol, port), port) && OneLine(RuleText(interface, protocol, port))
  {
    hide Search, Strip, Parse;
    var head := HEAD + interface + " proto " + protocol;
    var rule := RuleText(interface, protocol, port);
    assert rule == head + TO_PORT + Decimal.Print(port);
    ParsePortClause(head, port);
    NoNewline(HEAD + interface, protocol, port);
    LinesAreLines(rule);
  }

  /** What follows the newline of a broken rule. */
  lemma SecondLine(protocol: string, port: nat)
    requires IsProtocol(protocol)
    ensures var line := " proto " + protocol + TO_PORT + Decimal.Print(port);
            OneLine(line) && Parse(line) == Some(Entry(port, Strip(line)))
  {
    hide Search, Strip, IsProtocol;
    var head, tail := "proto " + protocol, TO_PORT + Decimal.Print(port);
    var second, line := head + TO_PORT + Decimal.Print(port), " proto " + protocol + TO_PORT + Decimal.Print(port);
    NoNewline("", protocol, port);
    assert line == "" + line;
    assert line == [' '] + second;
    ParsePortClause(head, port);
    assert second[0] == 'p' && Decimal.IsDigit(second[|second| - 1]);
    StripLeadingSpace(second);
  }

  lemma BrokenRuleText(name: string, protocol: string, port: nat)
    requires AllAlnum(name) && IsProtocol(protocol)
    ensures RuleFor(RuleText(name + ['\n'], protocol, port), port) && !OneLine(RuleText(name + ['\n'], protocol, port))
  {
    hide Parse, Strip;
    var rule := RuleText(name + ['\n'], protocol, port);
    var first, second := HEAD + name, " proto " + protocol + TO_PORT + Decimal.Print(port);
    assert rule == first + ['\n'] + second;
    LinesOfConcat(first, second);
    LinesAreLines(first);
    SecondLine(protocol, port);
    LinesAreLines(second);
    HeadIsNoRule(name);
    assert rule[|first|] == '\n';
  }

  /** The printed rule is one line exactly when the interface has no newline; either
      way it reads back as a rule for its port. */
  lemma RuleTextIsRule(interface: string, protocol: string, port: nat)
    requires InterfaceAccepted(interface) && IsProtocol(protocol)
    ensures RuleFor(RuleText(interface, protocol, port), port)
    ensures OneLine(RuleText(interface, protocol, port)) <==> AllAlnum(interface)
  {
    hide RuleText, RuleFor, OneLine;
    if AllAlnum(interface) {
      PlainRuleText(interface, protocol, port);
    } else {
      var name := interface[..|interface| - 1];
      assert interface == name + ['\n'];
      BrokenRuleText(name, protocol, port);
    }
  }

  // ---- the bridge

  /** The dictionary and the rules file. */
  datatype State = State(active: Active, file: Option<string>)

  predicate BlockArgumentsOk(compatible: bool, port: int, protocol: string, interface: string) {
    compatible && 1 <= port <= 65535 && IsProtocol(Lower(protocol)) && InterfaceAccepted(interface)
  }

  function Content(s: State): string {
    if s.file.Some? then s.file.value else ""
  }

  /** What a restarted process reads from the file. */
  function Parsed(s: State): Active {
    Load([], Lines(Content(s)))
  }

  /** How writing the file ends.  An error is logged and ignored; it leaves the file
      as it was if it could not be opened, and cut off somewhere otherwise. */
  datatype Written = Complete | NotOpened | CutOff(length: nat)

  function FileAfter(file: Option<string>, text: string, w: Written): Option<string> {
    match w
    case Complete => Some(text)
    case NotOpened => file
    case CutOff(n) => Some(if n < |text| then text[..n] else text)
  }

  function Block(s: State, compatible: bool, port: int, protocol: string, interface: string, w: Written): State {
    if BlockArgumentsOk(compatible, port, protocol, interface) then
      var active := Put(s.active, port, RuleText(interface, Lower(protocol), port));
      State(active, FileAfter(s.file, Write(active), w))
    else s
  }

  /** The dictionary after the file has been consulted for a port that is not in it. */
  function Loaded(s: State, port: nat): Active {
    if !Has(s.active, port) && s.file.Some? then Load(s.active, Lines(s.file.value)) else s.active
  }

  function Unblock(s: State, port: nat, w: Written): State {
    var active := Loaded(s, port);
    if Has(active, port) then State(Remove(active, port), FileAfter(s.file, Write(Remove(active, port)), w))
    else State(active, s.file)
  }

  function Cleanup(s: State, raised: bool): State {
    State([], if raised then s.file else None)
  }

  /** An operation whose file accesses succeed. */
  datatype Op =
    | BlockOp(port: int, protocol: string, interface: string)
    | UnblockOp(unblocked: nat)
    | CleanupOp

  function After(s: State, op: Op): State {
    match op
    case BlockOp(port, protocol, interface) => Block(s, true, port, protocol, interface, Complete)
    case UnblockOp(port) => Unblock(s, port, Complete)
    case CleanupOp => Cleanup(s, false)
  }

  const START := State([], None)

  function AfterAll(ops: seq<Op>): State {
    if ops == [] then START else After(AfterAll(ops[..|ops| - 1]), ops[|ops| - 1])
  }

  class DarwinBridge {
    const compatible: bool
    var active: Active
    var file: Option<string>

    ghost function Contents(): State
      reads this
    {
      State(active, file)
    }

    constructor (compatible: bool, file: Option<string>)
      ensures this.compatible == compatible && Contents() == State([], file)
    {
      this.compatible, active, this.file := compatible, [], file;
    }

    /** Rewrites the file from the dictionary, a rule a line. */
    method WritePfRules(w: Written)
      modifies this`file
      ensures file == FileAfter(old(file), Write(active), w)
    {
      hide Write;
      if w.NotOpened? {
        return;
      }
      var text, i := "", 0;
      assert active[0..] == active;
      WriteEnds(active);
      while i < |active|
        invariant i <= |active| && text + Write(active[i..]) == Write(active)
      {
        WriteNext(active, i);
        ghost var rest := Write(active[i + 1..]);
        assert text + (active[i].value + ['\n'] + rest) == text + active[i].value + ['\n'] + rest;
        text := text + active[i].value + ['\n'];
        i := i + 1;
      }
      assert text + "" == text;
      file := Some(if w.CutOff? && w.length < |text| then text[..w.length] else text);
    }

    /** Reads the rules of the file into the dictionary. */
    method ReadPfRules()
      requires file.Some?
      modifies this`active
      ensures active == Load(old(active), Lines(file.value))
    {
      hide Put, Parse;
      var lines, i := Lines(file.value), 0;
      assert lines[0..] == lines;
      while i < |lines|
        invariant i <= |lines| && Load(active, lines[i..]) == Load(old(active), lines)
      {
        assert lines[i..][0] == lines[i] && lines[i..][1..] == lines[i + 1..];
        var entry := Parse(lines[i]);
        if entry.Some? {
          active := Put(active, entry.value.key, entry.value.value);
        }
        i := i + 1;
      }
    }

    /** The rule that drops the port's traffic is recorded and written before `pfctl` runs, so it stays if that
        raises. */
    method BlockPort(port: int, protocol: string, interface: string, pfctlRaises: bool, w: Written) returns (success: bool)
      modifies this
      ensures Contents() == Block(old(Contents()), compatible, port, protocol, interface, w)
      ensures success <==> BlockArgumentsOk(compatible, port, protocol, interface) && !pfctlRaises
      // the rule's text, letter by letter
      ensures BlockArgumentsOk(compatible, port, protocol, interface) ==>
                && Has(active, port)
                && Get(active, port) == "block drop on " + interface + " proto " + Lower(protocol)
                                        + " from any to any port " + Decimal.Print(port)
      // and no other entry changes
      ensures forall p: nat | p != port :: (Has(active, p) <==> Has(old(active), p)) && (Has(active, p) ==> Get(active, p) == Get(old(active), p))
      ensures !BlockArgumentsOk(compatible, port, protocol, interface) ==> active == old(active) && file == old(file)
    {
      if !compatible || !(1 <= port <= 65535) || !IsProtocol(Lower(protocol)) || !InterfaceAccepted(interface) {
        return false;
      }
      PutMeans(active, port, RuleText(interface, Lower(protocol), port));
      active := Put(active, port, RuleText(interface, Lower(protocol), port));
      WritePfRules(w);
      return !pfctlRaises;
    }

    /** Looks a port up in the file if it is not in the dictionary; reports success
        whatever it finds. */
    method UnblockPort(port: nat, w: Written) returns (success: bool)
      modifies this
      ensures success
      ensures Contents() == Unblock(old(Contents()), port, w)
    {
      hide Put, Load;
      if !Has(active, port) && file.Some? {
        ReadPfRules();
      }
      if Has(active, port) {
        active := Remove(active, port);
        WritePfRules(w);
      }
      return true;
    }

    /** Forgets all rules at once; the file goes only if nothing raises. */
    method CleanupAllRules(raises: bool) returns (removed: Option<nat>)
      modifies this
      ensures Contents() == Cleanup(old(Contents()), raises)
      ensures removed == if raises then None else Some(|old(active)|)
      ensures active == [] && file == if raises then old(file) else None
    {
      var count := |active|;
      active := [];
      if raises {
        return None;
      }
      file := None;
      return Some(count);
    }
  }

  lemma WriteNext(active: Active, k: nat)
    requires k < |active|
    ensures Write(active[k..]) == active[k].value + ['\n'] + Write(active[k + 1..])
  {
    assert active[k..][1..] == active[k + 1..];
  }

  lemma WriteEnds(active: Active)
    ensures Write(active[|active|..]) == ""
  {}

  // ---- runs

  /** The file was written from `a`, and the dictionary is `a` or what was read back
      from it. */
  predicate WrittenFrom(s: State, a: Active) {
    Valid(a) && Content(s) == Write(a) && (s.active == a || s.active == RereadAll(a))
  }

  ghost predicate Reachable(s: State) {
    exists a :: WrittenFrom(s, a)
  }

  lemma ReachableIsValid(s: State)
    requires Reachable(s)
    ensures Valid(s.active)
  {
    var a :| WrittenFrom(s, a);
    RereadAllValid(a);
  }

  lemma PutValid(active: Active, port: nat, rule: string)
    requires Valid(active) && RuleFor(rule, port)
    ensures Valid(Put(active, port, rule))
  {
    hide RuleFor;
  }

  lemma RemoveValid(active: Active, port: nat)
    requires Valid(active) && Has(active, port)
    ensures Valid(Remove(active, port)) && !Has(Remove(active, port), port)
  {
    hide RuleFor;
  }

  lemma LoadedIs(s: State, a: Active, port: nat)
    requires WrittenFrom(s, a)
    ensures Loaded(s, port) == s.active || Loaded(s, port) == RereadAll(a)
    ensures Has(Loaded(s, port), port) <==> Has(s.active, port)
  {
    hide Valid, Load, Write, Lines;
    LoadWritten(s.active, a);
    SameIndex(s.active, RereadAll(a), port);
  }

  lemma SameIndex(a: Active, b: Active, port: nat)
    requires SamePorts(a, b)
    ensures IndexOf(a, port) == IndexOf(b, port)
  {}

  lemma StaysReachable(s: State, op: Op)
    requires Reachable(s)
    ensures Reachable(After(s, op))
  {
    hide Valid, Load, Write, Lines, Put, Remove, RuleText, RuleFor, Has, Loaded;
    ReachableIsValid(s);
    match op
    case BlockOp(port, protocol, interface) =>
      if BlockArgumentsOk(true, port, protocol, interface) {
        var rule := RuleText(interface, Lower(protocol), port);
        RuleTextIsRule(interface, Lower(protocol), port);
        PutValid(s.active, port, rule);
        assert WrittenFrom(After(s, op), Put(s.active, port, rule));
      }
    case UnblockOp(port) =>
      var a :| WrittenFrom(s, a);
      var active := Loaded(s, port);
      LoadedIs(s, a, port);
      RereadAllValid(a);
      if Has(active, port) {
        RemoveValid(active, port);
        assert WrittenFrom(After(s, op), Remove(active, port));
      } else {
        assert WrittenFrom(After(s, op), a);
      }
    case CleanupOp =>
      NothingWritten();
  }

  lemma NothingWritten()
    ensures Reachable(START)
  {
    assert WrittenFrom(START, []);
  }

  lemma {:induction false} RunsStayReachable(ops: seq<Op>)
    ensures Reachable(AfterAll(ops))
  {
    hide Reachable, After;
    if ops == [] {
      NothingWritten();
    } else {
      RunsStayReachable(ops[..|ops| - 1]);
      StaysReachable(AfterAll(ops[..|ops| - 1]), ops[|ops| - 1]);
    }
  }

  /** After any run the file parses back to the same ports in the same order, and to
      exactly the dictionary if and only if no rule in it holds a newline. */
  lemma RoundTrip(ops: seq<Op>)
    ensures var s := AfterAll(ops);
            && SamePorts(Parsed(s), s.active) && Distinct(s.active)
            && (Parsed(s) == s.active <==> forall e | e in s.active :: OneLine(e.value))
  {
    hide Load, Write, Lines, RuleFor, OneLine;
    var s := AfterAll(ops);
    RunsStayReachable(ops);
    ReachableIsValid(s);
    var a :| WrittenFrom(s, a);
    LoadWritten([], a);
    RereadAllValid(a);
    RereadSame(a);
  }

  /** With interfaces that hold no newline, no rule does. */
  lemma {:induction false} PlainInterfaces(ops: seq<Op>)
    requires forall op | op in ops && op.BlockOp? :: '\n' !in op.interface
    ensures forall e | e in AfterAll(ops).active :: OneLine(e.value)
  {
    hide Load, Write, Lines, RuleFor, OneLine, RuleText, Valid, InterfaceAccepted;
    if ops == [] {
    } else {
      var front, op := ops[..|ops| - 1], ops[|ops| - 1];
      PlainInterfaces(front);
      var s := AfterAll(front);
      RunsStayReachable(front);
      match op
      case BlockOp(port, protocol, interface) =>
        assert op in ops;
        if BlockArgumentsOk(true, port, protocol, interface) {
          PlainIsAlnum(interface);
          RuleTextIsRule(interface, Lower(protocol), port);
        }
      case UnblockOp(port) =>
        var a :| WrittenFrom(s, a);
        LoadedIs(s, a, port);
        RereadAllValid(a);
      case CleanupOp =>
    }
  }

  lemma PlainIsAlnum(interface: string)
    requires InterfaceAccepted(interface) && '\n' !in interface
    ensures AllAlnum(interface)
  {}

  /** `block_port(80, "tcp", "en0\n")` is accepted, and reading its file back loses
      the first half of the rule. */
  lemma NewlineInterfaceBreaksRoundTrip()
    ensures var s := AfterAll([BlockOp(80, "tcp", "en0\n")]);
            |s.active| == 1 && Parsed(s) != s.active
  {
    var interface, ops := "en0\n", [BlockOp(80, "tcp", "en0\n")];
    var s := AfterAll(ops);
    assert ops[..0] == [];
    assert Lower("tcp") == "tcp";
    assert AllAlnum("en0") && interface[..3] == "en0";
    assert BlockArgumentsOk(true, 80, "tcp", interface);
    RuleTextIsRule(interface, "tcp", 80);
    assert s.active == [Entry(80, RuleText(interface, "tcp", 80))];
    RoundTrip(ops);
    assert s.active[0] in s.active;
  }

  // ---- restarting

  lemma {:induction false} LineCount(active: Active)
    ensures |Lines(Write(active))| >= |active| + 1
    ensures |Lines(Write(active))| == |active| + 1 <==> forall e | e in active :: OneLine(e.value)
  {
    hide Lines, OneLine;
    if active == [] {
      EmptyLines();
    } else {
      LineCount(active[1..]);
      LinesOfConcat(active[0].value, Write(active[1..]));
      LinesAreLines(active[0].value);
      assert active == [active[0]] + active[1..];
    }
  }

  lemma EmptyLines()
    ensures Lines("") == [""]
  {}

  /** A restarted process that unblocks a port leaves the file that the old process
      would have left, exactly when the old one would write nothing or no other
      rule holds a newline. */
  lemma RestartedUnblock(ops: seq<Op>, port: nat)
    ensures var s := AfterAll(ops);
            Unblock(State([], s.file), port, Complete).file == Unblock(s, port, Complete).file <==>
            (Has(s.active, port) ==> forall e | e in s.active && e.key != port :: OneLine(e.value))
  {
    hide Load, Write, Lines, RuleFor, OneLine, AfterAll, Valid, RereadAll;
    var s := AfterAll(ops);
    RunsStayReachable(ops);
    ReachableIsValid(s);
    var a :| WrittenFrom(s, a);
    RestartedDictionary(s, a, port);
    var all := RereadAll(a);
    if Has(s.active, port) {
      SamePortsReread(s, a);
      RemoveBoth(s.active, all, port);
      var mine, theirs := Remove(s.active, port), Remove(all, port);
      LineCount(mine);
      LineCount(theirs);
      RereadAllValid(a);
      if forall e | e in s.active && e.key != port :: OneLine(e.value) {
        RereadSameButOne(s, a, port);
      }
    }
  }

  /** A restarted process starts from what it reads back. */
  lemma RestartedDictionary(s: State, a: Active, port: nat)
    requires WrittenFrom(s, a)
    ensures s.file.Some? ==> Loaded(State([], s.file), port) == RereadAll(a)
    ensures s.file.None? ==> s.active == []
    ensures Loaded(s, port) == if Has(s.active, port) || s.file.None? then s.active else RereadAll(a)
    ensures Has(RereadAll(a), port) <==> Has(s.active, port)
  {
    hide Valid, Load, Lines, RuleFor;
    LoadWritten(s.active, a);
    SameIndex(s.active, RereadAll(a), port);
  }

  lemma SamePortsReread(s: State, a: Active)
    requires WrittenFrom(s, a)
    ensures SamePorts(s.active, RereadAll(a))
  {}

  lemma RemoveBoth(a: Active, b: Active, port: nat)
    requires SamePorts(a, b) && Has(a, port) && Distinct(a)
    ensures Has(b, port) && |Remove(a, port)| == |Remove(b, port)|
    ensures forall e :: e in Remove(a, port) <==> e in a && e.key != port
    ensures forall e | e in Remove(b, port) :: e in b
  {
    SameIndex(a, b, port);
    var i := IndexOf(a, port);
    forall e
      ensures e in Remove(a, port) <==> e in a && e.key != port
    {
      if e in a && e.key != port {
        var j :| 0 <= j < |a| && a[j] == e;
        assert if j < i then e == Remove(a, port)[j] else e == Remove(a, port)[j - 1];
      }
    }
  }

  lemma RemoveSame(a: Active, b: Active, port: nat)
    requires SamePorts(a, b) && Has(a, port) && Has(b, port) && Distinct(a)
    requires forall i | 0 <= i < |a| && a[i].key != port :: a[i] == b[i]
    ensures Remove(a, port) == Remove(b, port)
  {
    SameIndex(a, b, port);
    var i := IndexOf(a, port);
    assert forall j | 0 <= j < |a| && j != i :: a[j].key != port;
    assert a[..i] == b[..i] && a[i + 1..] == b[i + 1..];
  }

  lemma RereadSameButOne(s: State, a: Active, port: nat)
    requires WrittenFrom(s, a) && Has(s.active, port) && Has(RereadAll(a), port)
    requires forall e | e in s.active && e.key != port :: OneLine(e.value)
    ensures Remove(s.active, port) == Remove(RereadAll(a), port)
  {
    hide RuleFor, OneLine, Reread, Remove, Has, Write, Content;
    if s.active == a {
      forall i | 0 <= i < |a| && a[i].key != port
        ensures RereadAll(a)[i] == a[i]
      {
        assert a[i] in s.active;
        RereadOneLine(a[i].value, a[i].key);
      }
      RemoveSame(a, RereadAll(a), port);
    }
  }

  lemma RereadOneLine(rule: string, port: nat)
    requires RuleFor(rule, port) && OneLine(rule)
    ensures Reread(rule) == rule
  {
    hide Parse, Reread;
    LinesAreLines(rule);
  }

  /** A cleanup that raises leaves the file behind: it then agrees with the emptied
      dictionary exactly when no rule was active. */
  lemma FailedCleanup(ops: seq<Op>)
    ensures var s := Cleanup(AfterAll(ops), true);
            Parsed(s) == s.active <==> AfterAll(ops).active == []
  {
    hide Parsed, AfterAll;
    RoundTrip(ops);
    assert Parsed(Cleanup(AfterAll(ops), true)) == Parsed(AfterAll(ops)) by { SameFile(AfterAll(ops), true); }
  }

  lemma SameFile(s: State, raised: bool)
    ensures raised ==> Parsed(Cleanup(s, raised)) == Parsed(s)
  {}

  /** The file holds the ports of the dictionary, in their order. */
  predicate InStep(s: State) {
    SamePorts(Parsed(s), s.active)
  }

  lemma BlockNotOpened(s: State, port: int, protocol: string, interface: string)
    requires InStep(s)
    ensures InStep(Block(s, true, port, protocol, interface, NotOpened)) <==>
            !BlockArgumentsOk(true, port, protocol, interface) || Has(s.active, port)
  {
    hide Parsed, RuleText, BlockArgumentsOk;
    var b := Block(s, true, port, protocol, interface, NotOpened);
    ParsedFile(b, s);
    if BlockArgumentsOk(true, port, protocol, interface) {
      PortInRange(port, protocol, interface);
      PutPorts(s.active, port, RuleText(interface, Lower(protocol), port));
    }
  }

  lemma PortInRange(port: int, protocol: string, interface: string)
    requires BlockArgumentsOk(true, port, protocol, interface)
    ensures port > 0
  {}

  lemma UnblockNotOpened(s: State, a: Active, port: nat)
    requires WrittenFrom(s, a) && InStep(s)
    ensures InStep(Unblock(s, port, NotOpened)) <==> !Has(s.active, port)
  {
    hide Parsed, Valid, Load, Lines, Write, WrittenFrom, Loaded;
    var u := Unblock(s, port, NotOpened);
    ParsedFile(u, s);
    LoadedIs(s, a, port);
    LoadedSame(s, a, port);
  }

  lemma ParsedFile(a: State, b: State)
    ensures a.file == b.file ==> Parsed(a) == Parsed(b)
  {}

  /** Consulting the file does not change which ports there are. */
  lemma LoadedSame(s: State, a: Active, port: nat)
    requires WrittenFrom(s, a)
    ensures SamePorts(Loaded(s, port), s.active)
  {
    hide Valid, Load, Lines, Write;
    LoadedIs(s, a, port);
  }

  /** `Put` touches the entry of one key. */
  lemma PutMeans(active: Active, port: nat, rule: string)
    ensures var after := Put(active, port, rule);
            && Has(after, port) && Get(after, port) == rule
            && forall p: nat | p != port :: (Has(after, p) <==> Has(active, p)) && (Has(after, p) ==> Get(after, p) == Get(active, p))
  {
    hide Has, Get, Put;
    PutKey(active, port, rule, port);
    forall p: nat | p != port
      ensures (Has(Put(active, port, rule), p) <==> Has(active, p))
      ensures Has(Put(active, port, rule), p) ==> Get(Put(active, port, rule), p) == Get(active, p)
    {
      PutKey(active, port, rule, p);
    }
  }

  lemma PutKey(active: Active, port: nat, rule: string, p: nat)
    ensures var after := Put(active, port, rule);
            && (Has(after, p) <==> p == port || Has(active, p))
            && (Has(after, p) ==> Get(after, p) == if p == port then rule else Get(active, p))
  {
    var i := IndexOf(active, port);
    var after := Put(active, port, rule);
    if p == port {
      IndexAt(after, i);
    } else {
      SameOrLater(active, after, p, i);
    }
  }

  /** The first entry with a key is where it is found. */
  lemma IndexAt(d: Active, i: nat)
    requires i < |d| && forall j | 0 <= j < i :: d[j].key != d[i].key
    ensures IndexOf(d, d[i].key) == i
  {}

  lemma SameOrLater(active: Active, after: Active, p: nat, i: nat)
    requires i <= |active| && |after| == (if i < |active| then |active| else |active| + 1) && i < |after|
    requires forall j | 0 <= j < |active| && j != i :: after[j] == active[j]
    requires after[i].key != p && (i < |active| ==> active[i].key != p)
    ensures Has(after, p) <==> Has(active, p)
    ensures Has(after, p) ==> Get(after, p) == Get(active, p)
  {
    var k := IndexOf(active, p);
    if k < |active| {
      assert after[k] == active[k];
      IndexAt(after, k);
    } else {
      assert forall j | 0 <= j < |after| :: after[j].key != p;
    }
  }

  /** After an unblock the port is not active, and the others are as the dictionary,
      or the file that was consulted, had them. */
  lemma UnblockMeans(ops: seq<Op>, port: nat, w: Written, p: nat)
    ensures var s := AfterAll(ops);
            var after := Unblock(s, port, w).active;
            Has(after, p) <==> p != port && Has(s.active, p)
  {
    hide Load, Lines, Write, Has, Get, Remove, Loaded, WrittenFrom, FileAfter;
    var s := AfterAll(ops);
    RunsStayReachable(ops);
    var a :| WrittenFrom(s, a);
    LoadedIs(s, a, port);
    LoadedIs(s, a, p);
    LoadedHas(s, a, port, p);
    LoadedDistinct(s, a, port);
    if Has(Loaded(s, port), port) {
      RemoveEffect(Loaded(s, port), port, p);
    }
  }

  lemma LoadedDistinct(s: State, a: Active, port: nat)
    requires WrittenFrom(s, a)
    ensures Distinct(Loaded(s, port))
  {
    hide RuleFor, Load, Write, Lines, Loaded;
    LoadedIs(s, a, port);
    RereadAllValid(a);
  }

  lemma LoadedHas(s: State, a: Active, port: nat, p: nat)
    requires WrittenFrom(s, a)
    ensures Has(Loaded(s, port), p) <==> Has(s.active, p)
  {
    hide Load, Write, Lines, RuleFor, Loaded;
    LoadedSame(s, a, port);
    SameIndex(Loaded(s, port), s.active, p);
  }

  /** The file is the rules in order, each ended by a newline. */
  lemma {:induction false} WriteMeans(active: Active, e: Entry<nat, string>)
    ensures Write(active + [e]) == Write(active) + e.value + "\n"
    ensures Write([]) == ""
  {
    if active == [] {
      assert [e][1..] == [];
      assert [] + [e] == [e];
    } else {
      WriteMeans(active[1..], e);
      assert (active + [e])[1..] == active[1..] + [e];
      var line, rest := active[0].value + ['\n'], Write(active[1..]);
      assert line + (rest + e.value + "\n") == line + rest + e.value + "\n";
    }
  }

  /** Which arguments a block accepts. */
  lemma ArgumentsMean(compatible: bool, port: int, protocol: string, interface: string)
    ensures BlockArgumentsOk(compatible, port, protocol, interface) <==>
            && compatible && 1 <= port <= 65535 && (Lower(protocol) == "tcp" || Lower(protocol) == "udp")
            && exists name, end ::
                 && interface == name + end && name != "" && (end == "" || end == "\n")
                 && forall c | c in name :: 'a' <= c <= 'z' || 'A' <= c <= 'Z' || '0' <= c <= '9'
  {
    hide Lower;
    if InterfaceAccepted(interface) {
      if AllAlnum(interface) {
        assert interface == interface + "";
      } else {
        var name := interface[..|interface| - 1];
        assert interface == name + "\n";
      }
    }
    if name, end :| interface == name + end && name != "" && (end == "" || end == "\n")
                    && forall c | c in name :: 'a' <= c <= 'z' || 'A' <= c <= 'Z' || '0' <= c <= '9' {
      assert forall i | 0 <= i < |name| :: name[i] in name && interface[i] == name[i];
      assert end == "\n" ==> interface[..|interface| - 1] == name;
    }
  }

  lemma PutPorts(active: Active, port: nat, rule: string)
    ensures SamePorts(active, Put(active, port, rule)) <==> Has(active, port)
    ensures |Put(active, port, rule)| == |active| <==> Has(active, port)
  {}

  /** If the file cannot be opened, a block leaves it in step with the dictionary
      exactly when it is rejected or the port was active, and an unblock exactly when
      the port was not. */
  lemma FileNotOpened(ops: seq<Op>, port: nat, protocol: string, interface: string)
    ensures InStep(AfterAll(ops))
    ensures InStep(Block(AfterAll(ops), true, port, protocol, interface, NotOpened)) <==>
            !BlockArgumentsOk(true, port, protocol, interface) || Has(AfterAll(ops).active, port)
    ensures InStep(Unblock(AfterAll(ops), port, NotOpened)) <==> !Has(AfterAll(ops).active, port)
  {
    hide Parsed, AfterAll, Block, Unblock, BlockArgumentsOk, WrittenFrom, Distinct, OneLine;
    var s := AfterAll(ops);
    RoundTrip(ops);
    RunsStayReachable(ops);
    var a :| WrittenFrom(s, a);
    BlockNotOpened(s, port, protocol, interface);
    UnblockNotOpened(s, a, port);
  }

  /** A process that starts with a block knows that block's rule only. */
  lemma FirstBlock(file: Option<string>, port: int, protocol: string, interface: string)
    requires BlockArgumentsOk(true, port, protocol, interface)
    ensures var parsed := Parsed(Block(State([], file), true, port, protocol, interface, Complete));
            forall p :: Has(parsed, p) <==> p == port
  {
    hide RuleText, RuleFor, Write, Put, Parsed, Has, InterfaceAccepted, IsProtocol;
    var rule := RuleText(interface, Lower(protocol), port);
    RuleTextIsRule(interface, Lower(protocol), port);
    PutFirst(port, rule);
    OnlyRule(port, rule);
    assert Block(State([], file), true, port, protocol, interface, Complete) == State([Entry(port, rule)], Some(Write([Entry(port, rule)])));
  }

  lemma PutFirst(port: nat, rule: string)
    ensures Put([], port, rule) == [Entry(port, rule)]
  {
    assert [] + [Entry(port, rule)] == [Entry(port, rule)];
  }

  lemma OnlyRule(port: nat, rule: string)
    requires RuleFor(rule, port)
    ensures var parsed := Parsed(State([Entry(port, rule)], Some(Write([Entry(port, rule)]))));
            forall p :: Has(parsed, p) <==> p == port
  {
    hide RuleFor, Write, Load, Lines, Has, Reread;
    var only := [Entry(port, rule)];
    LoadWritten([], only);
    assert RereadAll(only) == [Entry(port, Reread(rule))];
    forall p
      ensures Has(RereadAll(only), p) <==> p == port
    {
      HasOnly(Entry(port, Reread(rule)), p);
    }
  }

  lemma HasOnly(e: Entry<nat, string>, p: nat)
    ensures Has([e], p) <==> p == e.key
  {}

  lemma InStepHas(s: State, e: Entry<nat, string>)
    requires InStep(s) && e in s.active
    ensures Has(Parsed(s), e.key)
  {
    hide Parsed;
    var i :| 0 <= i < |s.active| && s.active[i] == e;
    assert Parsed(s)[i].key == e.key;
  }

  /** A restarted process that blocks before it reads the file overwrites it: the old
      ports all survive exactly when the block is rejected or there was none but
      the port that is blocked. */
  lemma RestartedBlock(ops: seq<Op>, port: int, protocol: string, interface: string)
    ensures var s := AfterAll(ops);
            var restarted := Block(State([], s.file), true, port, protocol, interface, Complete);
            (forall e | e in s.active :: Has(Parsed(restarted), e.key)) <==>
            !BlockArgumentsOk(true, port, protocol, interface) || forall e | e in s.active :: e.key == port
  {
    hide Parsed, AfterAll, BlockArgumentsOk, Has, InStep, RuleText;
    var s := AfterAll(ops);
    var restarted := Block(State([], s.file), true, port, protocol, interface, Complete);
    if BlockArgumentsOk(true, port, protocol, interface) {
      FirstBlock(s.file, port, protocol, interface);
    } else {
      FileNotOpened(ops, 0, protocol, interface);
      ParsedFile(restarted, s);
      forall e | e in s.active
        ensures Has(Parsed(restarted), e.key)
      {
        InStepHas(s, e);
      }
    }
  }
}
