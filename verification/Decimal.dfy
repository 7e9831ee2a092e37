/** Decimal numerals: what an f-string prints for a natural number and what
    `int(...)` reads back.  Ports are printed into trigger keys, rule comments
    and rule lines, so these facts carry the uniqueness arguments elsewhere. */
module Decimal {

  predicate IsDigit(c: char) {
    '0' <= c <= '9'
  }

  predicate AllDigits(s: string) {
    forall i | 0 <= i < |s| :: IsDigit(s[i])
  }

  function DigitChar(d: nat): (c: char)
    requires d < 10
    ensures IsDigit(c)
  {
    ('0' as int + d) as char
  }

  function DigitValue(c: char): (d: nat)
    requires IsDigit(c)
    ensures d < 10 && DigitChar(d) == c
  {
    c as int - '0' as int
  }

  /** The shortest decimal numeral of `n`. */
  function Print(n: nat): (s: string)
    ensures |s| > 0 && AllDigits(s)
    ensures |s| > 1 ==> s[0] != '0'
    ensures s[0] == '0' ==> n == 0
  {
    if n < 10 then [DigitChar(n)] else Print(n / 10) + [DigitChar(n % 10)]
  }

  function Value(s: string): nat
    requires AllDigits(s)
  {
    if s == "" then 0 else 10 * Value(s[..|s| - 1]) + DigitValue(s[|s| - 1])
  }

  /** Reading back what was printed gives the number. */
  lemma {:induction false} ValueOfPrint(n: nat)
    ensures Value(Print(n)) == n
  {
    if n >= 10 {
      ValueOfPrint(n / 10);
      var s := Print(n);
      assert s[..|s| - 1] == Print(n / 10);
    } else {
      assert Print(n)[..0] == "";
    }
  }

  /** A numeral without a leading zero is the one that is printed for its value. */
  lemma {:induction false} PrintOfValue(s: string)
    requires s != "" && AllDigits(s) && (|s| > 1 ==> s[0] != '0')
    ensures Print(Value(s)) == s
    ensures s[0] != '0' ==> Value(s) > 0
  {
    var front, d := s[..|s| - 1], DigitValue(s[|s| - 1]);
    assert s == front + [s[|s| - 1]];
    if front == "" {
    } else {
      PrintOfValue(front);
    }
  }

  function Pow10(n: nat): nat {
    if n == 0 then 1 else 10 * Pow10(n - 1)
  }

  /** The leading part of a numeral counts ten times more for every digit that follows. */
  lemma {:induction false} ValueConcat(a: string, b: string)
    requires AllDigits(a) && AllDigits(b)
    ensures AllDigits(a + b) && Value(a + b) == Value(a) * Pow10(|b|) + Value(b)
  {
    hide Value, IsDigit;
    if b == "" {
      assert a + b == a;
      ValueOfNothing();
    } else {
      var front := b[..|b| - 1];
      ValueConcat(a, front);
      assert (a + b)[..|a + b| - 1] == a + front;
      ValueStep(a + b);
      ValueStep(b);
      Distribute(Value(a), Pow10(|front|), Value(front), DigitValue(b[|b| - 1]));
    }
  }

  lemma ValueOfNothing()
    ensures Value("") == 0
  {}

  lemma ValueStep(s: string)
    requires s != "" && AllDigits(s)
    ensures Value(s) == 10 * Value(s[..|s| - 1]) + DigitValue(s[|s| - 1])
  {}

  lemma Distribute(x: nat, p: nat, y: nat, d: nat)
    ensures 10 * (x * p + y) + d == x * (10 * p) + (10 * y + d)
  {}

  /** The value of a numeral is the number that it is commonly read as. */
  lemma ValueMeans(c: char)
    requires IsDigit(c)
    ensures Value([c]) == c as int - '0' as int
    ensures Print(80) == "80" && Print(65535) == "65535"
  {
    assert [c][..0] == "";
  }

  lemma PrintInjective(m: nat, n: nat)
    requires Print(m) == Print(n)
    ensures m == n
  {
    ValueOfPrint(m);
    ValueOfPrint(n);
  }

  /** The last separator is followed by the digits only. */
  lemma LastSeparator(a: string, p: string, b: string, q: string, sep: char)
    requires !IsDigit(sep) && AllDigits(p)
    requires a + [sep] + p == b + [sep] + q
    ensures |b| <= |a|
  {
    var s := a + [sep] + p;
    assert s[|b|] == sep by { assert (b + [sep] + q)[|b|] == sep; }
    forall i | |a| < i < |s|
      ensures IsDigit(s[i])
    {
      assert s[i] == p[i - |a| - 1];
    }
  }

  /** `prefix + sep + n` determines both halves when `sep` is not a digit: the
      numeral after the last separator is the number. */
  lemma SuffixInjective(a: string, m: nat, b: string, n: nat, sep: char)
    requires !IsDigit(sep)
    requires a + [sep] + Print(m) == b + [sep] + Print(n)
    ensures a == b && m == n
  {
    LastSeparator(a, Print(m), b, Print(n), sep);
    LastSeparator(b, Print(n), a, Print(m), sep);
    var s := a + [sep] + Print(m);
    assert s[..|a|] == a && s[..|b|] == b;
    assert s[|a| + 1..] == Print(m) && s[|b| + 1..] == Print(n);
    PrintInjective(m, n);
  }
}
