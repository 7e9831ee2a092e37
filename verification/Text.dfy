/** Strings as the program handles them: joining and splitting on a separator,
    trimming, lower-casing and substring search. */
module Text {

  datatype Option<+T> = None | Some(value: T)

  /** The ASCII white space that Python's `str.strip` removes and `\s` matches. */
  predicate IsSpace(c: char) {
    c == ' ' || c == '\t' || c == '\n' || c == '\r' || c == 11 as char || c == 12 as char
    || 28 as char <= c <= 31 as char
  }

  predicate AllSpace(s: string) {
    forall i | 0 <= i < |s| :: IsSpace(s[i])
  }

  /** `sep.join(parts)` */
  function Join(parts: seq<string>, sep: char): string {
    if |parts| == 0 then ""
    else if |parts| == 1 then parts[0]
    else parts[0] + [sep] + Join(parts[1..], sep)
  }

  /** Puts a character in front of what was split. */
  function Attach(c: char, parts: seq<string>, sep: char): (r: seq<string>)
    requires |parts| > 0
    ensures |r| > 0
  {
    if c == sep then [""] + parts else [[c] + parts[0]] + parts[1..]
  }

  /** `s.split(sep)`: never empty. */
  function Split(s: string, sep: char): (parts: seq<string>)
    ensures |parts| > 0
  {
    if s == "" then [""] else Attach(s[0], Split(s[1..], sep), sep)
  }

  lemma {:induction false} SplitOne(s: string, sep: char)
    requires sep !in s
    ensures Split(s, sep) == [s]
  {
    if s == "" {
    } else {
      SplitOne(s[1..], sep);
      assert [s[0]] + s[1..] == s;
    }
  }

  lemma SplitNext(s: string, sep: char)
    requires s != ""
    ensures Split(s, sep) == Attach(s[0], Split(s[1..], sep), sep)
  {}

  lemma AttachConcat(c: char, p: seq<string>, q: seq<string>, sep: char)
    requires |p| > 0
    ensures Attach(c, p + q, sep) == Attach(c, p, sep) + q
  {
    assert (p + q)[1..] == p[1..] + q;
  }

  /** A separator between two strings separates their parts. */
  lemma {:induction false} SplitConcat(a: string, b: string, sep: char)
    ensures Split(a + [sep] + b, sep) == Split(a, sep) + Split(b, sep)
  {
    hide Split, Attach;
    var t := a + [sep] + b;
    SplitNext(t, sep);
    if a == "" {
      assert t[1..] == b;
      SplitEmpty(b, sep);
    } else {
      assert t[1..] == a[1..] + [sep] + b;
      SplitConcat(a[1..], b, sep);
      SplitNext(a, sep);
      AttachConcat(a[0], Split(a[1..], sep), Split(b, sep), sep);
    }
  }

  lemma SplitEmpty(b: string, sep: char)
    ensures Attach(sep, Split(b, sep), sep) == Split("", sep) + Split(b, sep)
  {}

  /** Splitting undoes joining when no part holds the separator. */
  lemma {:induction false} SplitJoin(parts: seq<string>, sep: char)
    requires |parts| > 0
    requires forall p | p in parts :: sep !in p
    ensures Split(Join(parts, sep), sep) == parts
  {
    if |parts| == 1 {
      SplitOne(parts[0], sep);
    } else {
      SplitJoin(parts[1..], sep);
      SplitOne(parts[0], sep);
      SplitConcat(parts[0], Join(parts[1..], sep), sep);
      assert [parts[0]] + parts[1..] == parts;
    }
  }

  /** `s.strip()` */
  function Strip(s: string): string {
    if s != "" && IsSpace(s[0]) then Strip(s[1..])
    else if s != "" && IsSpace(s[|s| - 1]) then Strip(s[..|s| - 1])
    else s
  }

  lemma StripStep(s: string)
    ensures Strip(s) == if s != "" && IsSpace(s[0]) then Strip(s[1..])
                        else if s != "" && IsSpace(s[|s| - 1]) then Strip(s[..|s| - 1]) else s
  {}

  lemma Around(a: string, pre: string, t: string, post: string, b: string)
    ensures a + (pre + t + post) + b == (a + pre) + t + (post + b)
  {}

  /** What is trimmed is white space at either end, and no more is left there. */
  lemma {:induction false} StripMeans(s: string) returns (pre: string, post: string)
    ensures s == pre + Strip(s) + post && AllSpace(pre) && AllSpace(post)
    ensures var t := Strip(s); t != "" ==> !IsSpace(t[0]) && !IsSpace(t[|t| - 1])
  {
    hide IsSpace, Strip;
    StripStep(s);
    if s != "" && IsSpace(s[0]) {
      pre, post := StripMeans(s[1..]);
      Around([s[0]], pre, Strip(s), post, "");
      pre := [s[0]] + pre;
    } else if s != "" && IsSpace(s[|s| - 1]) {
      pre, post := StripMeans(s[..|s| - 1]);
      Around("", pre, Strip(s), post, [s[|s| - 1]]);
      post := post + [s[|s| - 1]];
    } else {
      pre, post := "", "";
    }
  }

  lemma StripNothing(s: string)
    requires s != "" ==> !IsSpace(s[0]) && !IsSpace(s[|s| - 1])
    ensures Strip(s) == s
  {}

  function LowerChar(c: char): char {
    if 'A' <= c <= 'Z' then (c as int + 32) as char else c
  }

  /** `s.lower()` on ASCII text. */
  function Lower(s: string): (r: string)
    ensures |r| == |s|
    ensures forall i | 0 <= i < |s| && 'A' <= s[i] <= 'Z' :: r[i] as int == s[i] as int + 32
    ensures forall i | 0 <= i < |s| && !('A' <= s[i] <= 'Z') :: r[i] == s[i]
  {
    seq(|s|, i requires 0 <= i < |s| => LowerChar(s[i]))
  }

  predicate OccursAt(s: string, sub: string, i: int) {
    0 <= i <= |s| - |sub| && s[i..i + |sub|] == sub
  }

  /** `sub in s` */
  predicate Contains(s: string, sub: string) {
    exists i | 0 <= i <= |s| :: OccursAt(s, sub, i)
  }

  /** A string contains another exactly when it is that with something around it. */
  lemma ContainsMeans(s: string, sub: string)
    ensures Contains(s, sub) <==> exists pre, post :: s == pre + sub + post
  {
    if Contains(s, sub) {
      var i :| 0 <= i <= |s| && OccursAt(s, sub, i);
      assert s == s[..i] + sub + s[i + |sub|..];
    }
    forall pre, post | s == pre + sub + post
      ensures Contains(s, sub)
    {
      ContainsMiddle(pre, sub, post);
    }
  }

  lemma ContainsMiddle(pre: string, sub: string, post: string)
    ensures Contains(pre + sub + post, sub)
  {
    assert OccursAt(pre + sub + post, sub, |pre|);
  }

  lemma ContainsInside(pre: string, s: string, post: string, sub: string)
    requires Contains(s, sub)
    ensures Contains(pre + s + post, sub)
  {
    var i :| 0 <= i <= |s| && OccursAt(s, sub, i);
    var t := pre + s + post;
    assert t[|pre|..|pre| + |s|] == s;
    assert t[|pre| + i..|pre| + i + |sub|] == s[i..i + |sub|];
    assert OccursAt(t, sub, |pre| + i);
  }
}
