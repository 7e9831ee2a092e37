/** Internet addresses as text: `inet_ntoa` prints four decimal fields, `inet_aton`
    (as in the GNU C library) reads one to four fields that may be decimal, octal
    or hexadecimal, the last one filling the remaining bytes. */
module Inet {
  import opened Text
  import opened SlotCodec
  import Decimal

  function Ntoa(a: Address): string {
    Join([Decimal.Print(a[0]), Decimal.Print(a[1]), Decimal.Print(a[2]), Decimal.Print(a[3])], '.')
  }

  // ---- fields

  function DigitOf(c: char): nat {
    if '0' <= c <= '9' then c as int - '0' as int
    else if 'a' <= c <= 'f' then c as int - 'a' as int + 10
    else if 'A' <= c <= 'F' then c as int - 'A' as int + 10
    else 99
  }

  predicate AllIn(s: string, base: nat) {
    forall i | 0 <= i < |s| :: DigitOf(s[i]) < base
  }

  function ValueIn(s: string, base: nat): nat {
    if s == "" then 0 else base * ValueIn(s[..|s| - 1], base) + DigitOf(s[|s| - 1])
  }

  /** A number as C writes it: `0x...` hexadecimal, `0...` octal, or decimal. */
  function Number(f: string): Option<nat> {
    if |f| >= 2 && f[0] == '0' && (f[1] == 'x' || f[1] == 'X') then
      if |f| > 2 && AllIn(f[2..], 16) then Some(ValueIn(f[2..], 16)) else None
    else if f != "" && f[0] == '0' then
      if AllIn(f, 8) then Some(ValueIn(f, 8)) else None
    else if f != "" && Decimal.AllDigits(f) then Some(Decimal.Value(f)) else None
  }

  // ---- addresses

  /** White space, which ends the address; what follows it is ignored. */
  predicate EndsAddress(c: char) {
    c == ' ' || c == '\t' || c == '\n' || c == '\r' || c == 11 as char || c == 12 as char
  }

  function UpToSpace(s: string): string {
    if s == "" || EndsAddress(s[0]) then "" else [s[0]] + UpToSpace(s[1..])
  }

  /** The `w` low-order bytes of `n`, most significant first. */
  function BigEndian(n: nat, w: nat): (bs: seq<byte>)
    ensures |bs| == w
  {
    seq(w, i requires 0 <= i < w => n / Pow256(w - 1 - i) % 256)
  }

  predicate AllNumbers(f: seq<string>) {
    forall i | 0 <= i < |f| :: Number(f[i]).Some?
  }

  /** Every field but the last is one byte; the last fills the remaining bytes. */
  function FromFields(f: seq<string>): Option<Address>
    requires 0 < |f| <= 4 && AllNumbers(f)
  {
    var front, last := seq(|f| - 1, i requires 0 <= i < |f| - 1 => Number(f[i]).value), Number(f[|f| - 1]).value;
    if (forall i | 0 <= i < |front| :: front[i] < 256) && last < Pow256(5 - |f|)
    then Some(front + BigEndian(last, 5 - |f|)) else None
  }

  function Aton(s: string): Option<Address> {
    var f := Split(UpToSpace(s), '.');
    if 0 as char in s || |f| > 4 || !AllNumbers(f) then None else FromFields(f)
  }

  /** The address as one number, its first byte the most significant. */
  function AddressNumber(a: Address): nat {
    var b0: nat, b1: nat, b2: nat, b3: nat := a[0], a[1], a[2], a[3];
    b0 * 0x100_0000 + b1 * 0x1_0000 + b2 * 0x100 + b3
  }

  lemma OneByte(n: nat)
    requires n < 0x100
    ensures BigEndian(n, 1) == [n]
  {
    assert Pow256(0) == 1;
  }

  lemma TwoBytes(n: nat)
    requires n < 0x1_0000
    ensures BigEndian(n, 2) == [n / 0x100, n % 0x100]
  {
    assert Pow256(0) == 1 && Pow256(1) == 0x100;
  }

  lemma ThreeBytes(n: nat)
    requires n < 0x100_0000
    ensures BigEndian(n, 3) == [n / 0x1_0000, n / 0x100 % 0x100, n % 0x100]
  {
    assert Pow256(0) == 1 && Pow256(1) == 0x100 && Pow256(2) == 0x1_0000;
  }

  lemma FourBytes(n: nat)
    requires n < 0x1_0000_0000
    ensures BigEndian(n, 4) == [n / 0x100_0000, n / 0x1_0000 % 0x100, n / 0x100 % 0x100, n % 0x100]
  {
    assert Pow256(0) == 1 && Pow256(1) == 0x100 && Pow256(2) == 0x1_0000 && Pow256(3) == 0x100_0000;
  }

  lemma Recompose(n: nat)
    ensures n == n / 0x100_0000 * 0x100_0000 + n / 0x1_0000 % 0x100 * 0x1_0000 + n / 0x100 % 0x100 * 0x100 + n % 0x100
    ensures n == n / 0x1_0000 * 0x1_0000 + n / 0x100 % 0x100 * 0x100 + n % 0x100
    ensures n == n / 0x100 * 0x100 + n % 0x100
  {
    var x, y := n / 0x100, n / 0x1_0000;
    DivideTwice(n, 0x100);
    DivideTwice(n, 0x1_0000);
    DivideTwice(x, 0x100);
    assert y == x / 0x100 && n / 0x100_0000 == y / 0x100;
  }

  lemma OneField(f: seq<string>)
    requires |f| == 1 && AllNumbers(f) && FromFields(f).Some?
    ensures AddressNumber(FromFields(f).value) == Number(f[0]).value
  {
    hide Number, BigEndian;
    assert Pow256(4) == 0x1_0000_0000;
    var v := Number(f[0]).value;
    FourBytes(v);
    Recompose(v);
    assert FromFields(f).value == BigEndian(v, 4);
  }

  lemma TwoFields(f: seq<string>)
    requires |f| == 2 && AllNumbers(f) && FromFields(f).Some?
    ensures AddressNumber(FromFields(f).value) == Number(f[0]).value * 0x100_0000 + Number(f[1]).value
  {
    hide Number, BigEndian;
    assert Pow256(3) == 0x100_0000;
    var v := Number(f[1]).value;
    ThreeBytes(v);
    Recompose(v);
    assert FromFields(f).value == [Number(f[0]).value] + BigEndian(v, 3);
  }

  lemma ThreeFields(f: seq<string>)
    requires |f| == 3 && AllNumbers(f) && FromFields(f).Some?
    ensures AddressNumber(FromFields(f).value) == Number(f[0]).value * 0x100_0000 + Number(f[1]).value * 0x1_0000 + Number(f[2]).value
  {
    hide Number, BigEndian;
    assert Pow256(2) == 0x1_0000;
    var v := Number(f[2]).value;
    TwoBytes(v);
    Recompose(v);
    assert FromFields(f).value == [Number(f[0]).value, Number(f[1]).value] + BigEndian(v, 2);
  }

  lemma AllFields(f: seq<string>)
    requires |f| == 4 && AllNumbers(f) && FromFields(f).Some?
    ensures AddressNumber(FromFields(f).value) ==
            Number(f[0]).value * 0x100_0000 + Number(f[1]).value * 0x1_0000 + Number(f[2]).value * 0x100 + Number(f[3]).value
  {
    hide Number, BigEndian;
    assert Pow256(1) == 0x100;
    OneByte(Number(f[3]).value);
    assert FromFields(f).value == [Number(f[0]).value, Number(f[1]).value, Number(f[2]).value] + BigEndian(Number(f[3]).value, 1);
  }

  /** Each field but the last is the next byte; the last is the rest of the number. */
  lemma FromFieldsMeans(f: seq<string>)
    requires 0 < |f| <= 4 && AllNumbers(f) && FromFields(f).Some?
    ensures var n, v := AddressNumber(FromFields(f).value), seq(|f|, i requires 0 <= i < |f| => Number(f[i]).value);
            && (|f| == 1 ==> n == v[0])
            && (|f| == 2 ==> n == v[0] * 0x100_0000 + v[1])
            && (|f| == 3 ==> n == v[0] * 0x100_0000 + v[1] * 0x1_0000 + v[2])
            && (|f| == 4 ==> n == v[0] * 0x100_0000 + v[1] * 0x1_0000 + v[2] * 0x100 + v[3])
  {
    hide Number, FromFields, AddressNumber;
    if |f| == 1 {
      OneField(f);
    } else if |f| == 2 {
      TwoFields(f);
    } else if |f| == 3 {
      ThreeFields(f);
    } else {
      AllFields(f);
    }
  }

  /** Decimal, octal and hexadecimal fields, and what is no number. */
  lemma NumberMeans()
    ensures Number("10") == Some(10) && Number("010") == Some(8) && Number("0x1F") == Some(31) && Number("0") == Some(0)
    ensures Number("08") == None && Number("0x") == None && Number("") == None && Number("1a") == None && Number("-1") == None
  {
    assert "10"[..1] == "1" && "1"[..0] == "" && "010"[..2] == "01" && "01"[..1] == "0" && "0"[..0] == "";
    assert "0x1F"[2..] == "1F" && "1F"[..1] == "1";
    assert "08"[1] == '8' && DigitOf('8') == 8;
    assert !Decimal.IsDigit("1a"[1]) && !Decimal.IsDigit("-1"[0]);
  }

  // ---- the canonical form

  predicate IsField(s: string) {
    && s != "" && Decimal.AllDigits(s)
    && (|s| > 1 ==> s[0] != '0')
    && Decimal.Value(s) < 256
  }

  /** Four decimal fields below 256 without leading zeros. */
  predicate Canonical(s: string) {
    var f := Split(s, '.');
    |f| == 4 && forall i | 0 <= i < 4 :: IsField(f[i])
  }

  lemma FieldNumber(f: string)
    requires IsField(f)
    ensures Number(f) == Some(Decimal.Value(f)) && '.' !in f
  {
    if f[0] == '0' {
      assert f == "0" && f[..0] == "";
      assert ValueIn(f, 8) == 0 && Decimal.Value(f) == 0;
    }
  }

  lemma {:induction false} UpToSpaceAll(s: string)
    requires forall i | 0 <= i < |s| :: !EndsAddress(s[i])
    ensures UpToSpace(s) == s
  {
    if s == "" {
    } else {
      UpToSpaceAll(s[1..]);
    }
  }

  lemma JoinAttach(c: char, parts: seq<string>, sep: char)
    requires |parts| > 0
    ensures Join(Attach(c, parts, sep), sep) == [c] + Join(parts, sep)
  {
    if c == sep {
      assert ([""] + parts)[1..] == parts;
    } else if |parts| > 1 {
      assert ([[c] + parts[0]] + parts[1..])[1..] == parts[1..];
    }
  }

  lemma {:induction false} JoinSplit(s: string, sep: char)
    ensures Join(Split(s, sep), sep) == s
  {
    hide Attach;
    if s == "" {
    } else {
      JoinSplit(s[1..], sep);
      SplitNext(s, sep);
      JoinAttach(s[0], Split(s[1..], sep), sep);
      assert [s[0]] + s[1..] == s;
    }
  }

  predicate DigitOrDot(c: char) {
    Decimal.IsDigit(c) || c == '.'
  }

  lemma JoinFour(f: seq<string>)
    requires |f| == 4
    ensures Join(f, '.') == f[0] + ['.'] + (f[1] + ['.'] + (f[2] + ['.'] + f[3]))
  {
    assert f[1..][1..] == f[2..] && f[2..][1..] == f[3..];
    assert Join(f[3..], '.') == f[3];
    assert Join(f[2..], '.') == f[2] + ['.'] + f[3];
    assert Join(f[1..], '.') == f[1] + ['.'] + (f[2] + ['.'] + f[3]);
  }

  /** A canonical address is digits and dots only. */
  lemma CanonicalText(s: string)
    requires Canonical(s)
    ensures forall i | 0 <= i < |s| :: DigitOrDot(s[i])
  {
    var f := Split(s, '.');
    JoinSplit(s, '.');
    JoinFour(f);
    DigitsAndDots(f[2], f[3]);
    DigitsAndDots(f[1], f[2] + ['.'] + f[3]);
    DigitsAndDots(f[0], f[1] + ['.'] + (f[2] + ['.'] + f[3]));
  }

  lemma DigitsAndDots(a: string, b: string)
    requires Decimal.AllDigits(a) && forall i | 0 <= i < |b| :: DigitOrDot(b[i])
    ensures forall i | 0 <= i < |a + ['.'] + b| :: DigitOrDot((a + ['.'] + b)[i])
  {}

  lemma FourFields(f: seq<string>)
    requires |f| == 4 && AllNumbers(f) && forall i | 0 <= i < 4 :: Number(f[i]).value < 256
    ensures FromFields(f) == Some([Number(f[0]).value, Number(f[1]).value, Number(f[2]).value, Number(f[3]).value])
  {
    hide Number, BigEndian;
    assert Pow256(1) == 0x100;
    OneByte(Number(f[3]).value);
    assert FromFields(f).Some?;
    assert FromFields(f).value == [Number(f[0]).value, Number(f[1]).value, Number(f[2]).value, Number(f[3]).value];
  }

  /** A canonical address is read field by field. */
  lemma CanonicalAton(s: string)
    requires Canonical(s)
    ensures var f := Split(s, '.');
            Aton(s) == Some([Decimal.Value(f[0]), Decimal.Value(f[1]), Decimal.Value(f[2]), Decimal.Value(f[3])])
  {
    hide Number, FromFields, IsField;
    var f := Split(s, '.');
    CanonicalText(s);
    assert 0 as char !in s by {
      assert forall c | DigitOrDot(c) :: c != 0 as char;
    }
    UpToSpaceAll(s);
    FieldBound(f[0]);
    FieldBound(f[1]);
    FieldBound(f[2]);
    FieldBound(f[3]);
    assert forall i | 0 <= i < 4 :: Number(f[i]).Some? && Number(f[i]).value < 256;
    FourFields(f);
  }

  lemma FieldBound(f: string)
    requires IsField(f)
    ensures Decimal.AllDigits(f) && Decimal.Value(f) < 256 && Number(f) == Some(Decimal.Value(f))
  {
    FieldNumber(f);
  }

  lemma FieldOfPrint(b: byte)
    ensures IsField(Decimal.Print(b)) && Decimal.Value(Decimal.Print(b)) == b
    ensures '.' !in Decimal.Print(b)
  {
    Decimal.ValueOfPrint(b);
  }

  lemma SplitNtoa(a: Address)
    ensures Split(Ntoa(a), '.') == [Decimal.Print(a[0]), Decimal.Print(a[1]), Decimal.Print(a[2]), Decimal.Print(a[3])]
    ensures Canonical(Ntoa(a))
  {
    FieldOfPrint(a[0]);
    FieldOfPrint(a[1]);
    FieldOfPrint(a[2]);
    FieldOfPrint(a[3]);
    SplitJoin([Decimal.Print(a[0]), Decimal.Print(a[1]), Decimal.Print(a[2]), Decimal.Print(a[3])], '.');
  }

  /** An address survives being printed and parsed. */
  lemma AtonNtoa(a: Address)
    ensures Aton(Ntoa(a)) == Some(a)
  {
    hide Aton, Ntoa;
    SplitNtoa(a);
    CanonicalAton(Ntoa(a));
    FieldOfPrint(a[0]);
    FieldOfPrint(a[1]);
    FieldOfPrint(a[2]);
    FieldOfPrint(a[3]);
    assert a == [a[0], a[1], a[2], a[3]];
  }

  /** Text that parses as an address is what is printed for that address exactly when
      it is canonical; shorthand, octal and hexadecimal forms print differently. */
  lemma NtoaAton(s: string)
    requires Aton(s).Some?
    ensures Ntoa(Aton(s).value) == s <==> Canonical(s)
  {
    hide Aton, Canonical, Ntoa;
    SplitNtoa(Aton(s).value);
    if Canonical(s) {
      CanonicalPrinted(s);
    }
  }

  lemma CanonicalPrinted(s: string)
    requires Canonical(s)
    ensures Aton(s).Some? && Ntoa(Aton(s).value) == s
  {
    hide Aton;
    var f := Split(s, '.');
    CanonicalAton(s);
    JoinSplit(s, '.');
    Decimal.PrintOfValue(f[0]);
    Decimal.PrintOfValue(f[1]);
    Decimal.PrintOfValue(f[2]);
    Decimal.PrintOfValue(f[3]);
    assert f == [f[0], f[1], f[2], f[3]];
  }

  /** The text that a reader gets for the text that a writer was given. */
  function ReadBack(s: string): string {
    match Aton(s)
    case None => "0.0.0.0"
    case Some(a) => Ntoa(a)
  }

  /** It is the same text exactly when that is canonical. */
  lemma ReadBackIff(s: string)
    ensures ReadBack(s) == s <==> Canonical(s)
  {
    hide Aton, Ntoa, Canonical;
    if Aton(s).Some? {
      NtoaAton(s);
    } else {
      ZeroAddress();
      SplitNtoa([0, 0, 0, 0]);
      if Canonical(s) {
        CanonicalPrinted(s);
      } else {
        assert s != "0.0.0.0";
      }
    }
  }

  lemma ZeroAddress()
    ensures Ntoa([0, 0, 0, 0]) == "0.0.0.0"
  {
    assert Decimal.Print(0) == "0";
    JoinFour(["0", "0", "0", "0"]);
  }
}
