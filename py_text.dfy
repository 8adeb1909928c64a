/**
 * Python `str` semantics that several parts of the toolkit rely on:
 * `isspace`, `strip`, `split` on one character, `splitlines`, `re.split`
 * on a character class, ASCII `lower`, prefix/suffix/substring tests and
 * decimal formatting of naturals.
 */
module PyText {

  /** `str.isspace()` for one character (the Unicode whitespace set Python uses). */
  predicate IsSpace(c: char) {
    ('\U{9}' <= c <= '\U{d}') || ('\U{1c}' <= c <= '\U{20}') || c == '\U{85}' || c == '\U{a0}'
    || c == '\U{1680}' || ('\U{2000}' <= c <= '\U{200a}') || c == '\U{2028}' || c == '\U{2029}'
    || c == '\U{202f}' || c == '\U{205f}' || c == '\U{3000}'
  }

  /** The characters at which `str.splitlines()` ends a line. */
  predicate IsLineBreak(c: char) {
    ('\U{a}' <= c <= '\U{d}') || ('\U{1c}' <= c <= '\U{1e}') || c == '\U{85}' || c == '\U{2028}' || c == '\U{2029}'
  }

  predicate IsDigit(c: char) { '0' <= c <= '9' }

  predicate AllDigits(s: string) { forall i :: 0 <= i < |s| ==> IsDigit(s[i]) }

  predicate NoSpace(s: string) { forall i :: 0 <= i < |s| ==> !IsSpace(s[i]) }

  /** `str.lstrip()`: drops the maximal leading run of whitespace. */
  function LStrip(s: string): (r: string)
    ensures |r| <= |s| && r == s[|s| - |r|..]
    ensures r == [] || !IsSpace(r[0])
    ensures forall i :: 0 <= i < |s| - |r| ==> IsSpace(s[i])
  {
    if |s| > 0 && IsSpace(s[0]) then LStrip(s[1..]) else s
  }

  /** `str.rstrip()`: drops the maximal trailing run of whitespace. */
  function RStrip(s: string): (r: string)
    ensures |r| <= |s| && r == s[..|r|]
    ensures r == [] || !IsSpace(r[|r| - 1])
    ensures forall i :: |r| <= i < |s| ==> IsSpace(s[i])
  {
    if |s| > 0 && IsSpace(s[|s| - 1]) then RStrip(s[..|s| - 1]) else s
  }

  /** `str.strip()`. */
  function Strip(s: string): (r: string)
    ensures |r| <= |s|
    ensures r == [] || (!IsSpace(r[0]) && !IsSpace(r[|r| - 1]))
    decreases |s|
  {
    if |s| > 0 && IsSpace(s[0]) then Strip(s[1..]) else RStrip(s)
  }

  /** `strip()` is `lstrip()` followed by `rstrip()`. */
  lemma {:induction false} StripBothEnds(s: string)
    ensures Strip(s) == RStrip(LStrip(s))
    decreases |s|
  {
    if |s| > 0 && IsSpace(s[0]) {
      StripBothEnds(s[1..]);
    }
  }

  /** A string with no whitespace at either end is left alone by `strip()`. */
  lemma StripTrimmed(s: string)
    requires s == [] || (!IsSpace(s[0]) && !IsSpace(s[|s| - 1]))
    ensures Strip(s) == s
  {
  }

  /** `strip()` adds no character. */
  lemma StripWithout(s: string, c: char)
    requires c !in s
    ensures c !in Strip(s)
  {
    StripBothEnds(s);
    var l := LStrip(s);
    assert forall x :: x in l ==> x in s;
    var r := RStrip(l);
    assert forall x :: x in r ==> x in l;
  }

  lemma StripIdempotent(s: string)
    ensures Strip(Strip(s)) == Strip(s)
  {
    StripTrimmed(Strip(s));
  }

  /** `str.lower()` restricted to ASCII letters. */
  function LowerChar(c: char): char {
    if 'A' <= c <= 'Z' then (c as int + 32) as char else c
  }

  function Lower(s: string): (r: string)
    ensures |r| == |s|
    ensures forall i :: 0 <= i < |s| ==> r[i] == LowerChar(s[i])
  {
    if s == [] then [] else [LowerChar(s[0])] + Lower(s[1..])
  }

  /** Lower-casing twice is lower-casing once. */
  lemma LowerIdempotent(s: string)
    ensures Lower(Lower(s)) == Lower(s)
  {
    assert forall i :: 0 <= i < |s| ==> LowerChar(LowerChar(s[i])) == LowerChar(s[i]);
  }

  function UpperChar(c: char): char {
    if 'a' <= c <= 'z' then (c as int - 32) as char else c
  }

  /** `s.startswith(p)` */
  predicate StartsWith(s: string, p: string) { p <= s }

  /** `s.endswith(p)` */
  predicate EndsWith(s: string, p: string) { |p| <= |s| && s[|s| - |p|..] == p }

  /** `pat` occurs in `s` starting at index `i`. */
  predicate OccursAt(s: string, pat: string, i: int) {
    0 <= i && i + |pat| <= |s| && s[i..i + |pat|] == pat
  }

  lemma OccursAtTail(s: string, pat: string, i: int)
    requires |s| > 0 && i >= 1
    ensures OccursAt(s, pat, i) <==> OccursAt(s[1..], pat, i - 1)
  {
    if i + |pat| <= |s| {
      assert s[i..i + |pat|] == s[1..][i - 1..i - 1 + |pat|];
    }
  }

  /** `sub in s` */
  predicate Contains(s: string, sub: string)
    decreases |s|
  {
    sub <= s || (|s| > 0 && Contains(s[1..], sub))
  }

  /** `Contains` holds exactly when `sub` occurs at some index. */
  lemma {:induction false} ContainsAt(s: string, sub: string, i: int)
    requires OccursAt(s, sub, i)
    ensures Contains(s, sub)
    decreases |s|
  {
    if i > 0 {
      OccursAtTail(s, sub, i);
      ContainsAt(s[1..], sub, i - 1);
    } else {
      assert s[..|sub|] == sub;
    }
  }

  lemma {:induction false} ContainsWitness(s: string, sub: string) returns (i: int)
    requires Contains(s, sub)
    ensures OccursAt(s, sub, i)
    decreases |s|
  {
    if sub <= s {
      i := 0;
      assert s[0..|sub|] == sub;
    } else {
      var j := ContainsWitness(s[1..], sub);
      i := j + 1;
      OccursAtTail(s, sub, i);
    }
  }

  /** Index of the first occurrence of a non-empty `pat` in `s`, or -1. */
  function Find(s: string, pat: string): (r: int)
    requires |pat| > 0
    ensures r == -1 || OccursAt(s, pat, r)
    ensures forall i :: 0 <= i < (if r < 0 then |s| else r) ==> !OccursAt(s, pat, i)
    decreases |s|
  {
    if |s| < |pat| then -1
    else if s[..|pat|] == pat then 0
    else
      var k := Find(s[1..], pat);
      assert !OccursAt(s, pat, 0);
      assert forall i :: 1 <= i ==> (OccursAt(s, pat, i) <==> OccursAt(s[1..], pat, i - 1)) by {
        forall i | 1 <= i { OccursAtTail(s, pat, i); }
      }
      if k < 0 then -1 else k + 1
  }

  /**
   * `s.split(pat)[0]` for a non-empty separator: the text before the first
   * occurrence of `pat`, or all of `s` when `pat` does not occur.
   */
  function BeforeFirst(s: string, pat: string): (r: string)
    requires |pat| > 0
    ensures r <= s
    ensures r != s ==> OccursAt(s, pat, |r|)
    ensures forall i :: 0 <= i < |r| ==> !OccursAt(s, pat, i)
    ensures r == s ==> !Contains(s, pat)
  {
    var k := Find(s, pat);
    if k < 0 then NoOccurrence(s, pat); s else s[..k]
  }

  lemma NoOccurrence(s: string, pat: string)
    requires |pat| > 0
    requires forall i :: 0 <= i < |s| ==> !OccursAt(s, pat, i)
    ensures !Contains(s, pat)
  {
    if Contains(s, pat) {
      var w := ContainsWitness(s, pat);
    }
  }

  /** The number of occurrences of `c` in `s`. */
  function CountChar(s: string, c: char): (n: nat)
    ensures n <= |s|
    ensures n == 0 <==> c !in s
  {
    if s == [] then 0 else (if s[0] == c then 1 else 0) + CountChar(s[1..], c)
  }

  lemma {:induction false} CountCharAppend(a: string, b: string, c: char)
    ensures CountChar(a + b, c) == CountChar(a, c) + CountChar(b, c)
  {
    if a == [] {
      assert a + b == b;
    } else {
      assert (a + b)[1..] == a[1..] + b;
      CountCharAppend(a[1..], b, c);
    }
  }

  /** `s.replace(a, b)` for single characters. */
  function ReplaceChar(s: string, a: char, b: char): (r: string)
    ensures |r| == |s|
    ensures forall i :: 0 <= i < |s| ==> r[i] == (if s[i] == a then b else s[i])
  {
    if s == [] then [] else [if s[0] == a then b else s[0]] + ReplaceChar(s[1..], a, b)
  }

  /** `s.replace(c, "")` for one character. */
  function RemoveChar(s: string, c: char): (r: string)
    ensures |r| == |s| - CountChar(s, c)
    ensures c !in r
  {
    if s == [] then [] else (if s[0] == c then [] else [s[0]]) + RemoveChar(s[1..], c)
  }

  /** `sep.join(parts)` */
  function Join(parts: seq<string>, sep: string): string {
    if |parts| == 0 then "" else if |parts| == 1 then parts[0] else parts[0] + sep + Join(parts[1..], sep)
  }

  /** Index of the first occurrence of `c` in `s`, or `|s|`. */
  function IndexOf(s: string, c: char): (i: nat)
    ensures i <= |s|
    ensures i < |s| ==> s[i] == c
    ensures c !in s[..i]
  {
    if s == [] then 0 else if s[0] == c then 0 else 1 + IndexOf(s[1..], c)
  }

  /** `s.split(c)` for a one-character separator. */
  function Split(s: string, c: char): (parts: seq<string>)
    ensures |parts| >= 1
    ensures forall k :: 0 <= k < |parts| ==> c !in parts[k]
    ensures Join(parts, [c]) == s
    decreases |s|
  {
    var i := IndexOf(s, c);
    if i == |s| then [s]
    else
      var rest := Split(s[i + 1..], c);
      assert s == s[..i] + [c] + s[i + 1..];
      [s[..i]] + rest
  }

  /** `s.split(c)` has one part more than `s` has separators. */
  lemma {:induction false} SplitCount(s: string, c: char)
    ensures |Split(s, c)| == CountChar(s, c) + 1
    decreases |s|
  {
    var i := IndexOf(s, c);
    if i < |s| {
      assert s == s[..i] + ([c] + s[i + 1..]);
      CountCharAppend(s[..i], [c] + s[i + 1..], c);
      CountCharAppend([c], s[i + 1..], c);
      SplitCount(s[i + 1..], c);
    } else {
      assert s[..i] == s;
    }
  }

  /** `Split` undoes `Join` when no part contains the separator. */
  lemma {:induction false} SplitJoin(parts: seq<string>, c: char)
    requires |parts| >= 1
    requires forall k :: 0 <= k < |parts| ==> c !in parts[k]
    ensures Split(Join(parts, [c]), c) == parts
  {
    if |parts| > 1 {
      var s := Join(parts, [c]);
      assert s == parts[0] + [c] + Join(parts[1..], [c]);
      assert s == parts[0] + ([c] + Join(parts[1..], [c]));
      IndexOfPrefix(parts[0], c, [c] + Join(parts[1..], [c]));
      assert IndexOf(s, c) == |parts[0]|;
      assert s[..|parts[0]|] == parts[0];
      assert s[|parts[0]| + 1..] == Join(parts[1..], [c]);
      SplitJoin(parts[1..], c);
      assert Split(s, c) == [s[..|parts[0]|]] + Split(s[|parts[0]| + 1..], c);
      assert parts == [parts[0]] + parts[1..];
    } else {
      IndexOfPrefix(parts[0], c, []);
      assert parts[0] + [] == parts[0];
    }
  }

  lemma {:induction false} IndexOfPrefix(a: string, c: char, b: string)
    requires c !in a
    requires b == [] || b[0] == c
    ensures IndexOf(a + b, c) == |a|
  {
    if a != [] {
      assert (a + b)[1..] == a[1..] + b;
      IndexOfPrefix(a[1..], c, b);
    } else {
      assert a + b == b;
    }
  }

  /** Index of the first line break in `s`, or `|s|`. */
  function LineBreakAt(s: string): (i: nat)
    ensures i <= |s|
    ensures i < |s| ==> IsLineBreak(s[i])
    ensures forall j :: 0 <= j < i ==> !IsLineBreak(s[j])
  {
    if s == [] then 0 else if IsLineBreak(s[0]) then 0 else 1 + LineBreakAt(s[1..])
  }

  /**
   * `str.splitlines()`: lines end at any line-break character, `"\r\n"`
   * counts as one break, and no empty line follows a final break.
   */
  function SplitLines(s: string): (lines: seq<string>)
    ensures forall k, j :: 0 <= k < |lines| && 0 <= j < |lines[k]| ==> !IsLineBreak(lines[k][j])
    ensures s == [] <==> lines == []
    decreases |s|
  {
    if s == [] then []
    else
      var i := LineBreakAt(s);
      if i == |s| then [s]
      else
        var skip := if s[i] == '\r' && i + 1 < |s| && s[i + 1] == '\n' then 2 else 1;
        [s[..i]] + SplitLines(s[i + skip..])
  }

  /** A non-empty text without line breaks is one line. */
  lemma SplitLinesSingle(s: string)
    requires s != [] && forall j :: 0 <= j < |s| ==> !IsLineBreak(s[j])
    ensures SplitLines(s) == [s]
  {
  }

  /** Index of the first character of `s` satisfying `p`, or `|s|`. */
  function IndexWhere(s: string, p: char -> bool): (i: nat)
    ensures i <= |s|
    ensures i < |s| ==> p(s[i])
    ensures forall j :: 0 <= j < i ==> !p(s[j])
  {
    if s == [] then 0 else if p(s[0]) then 0 else 1 + IndexWhere(s[1..], p)
  }

  /** Index of the first character of `s` not satisfying `p`, or `|s|`. */
  function IndexWhereNot(s: string, p: char -> bool): (i: nat)
    ensures i <= |s|
    ensures i < |s| ==> !p(s[i])
    ensures forall j :: 0 <= j < i ==> p(s[j])
  {
    if s == [] then 0 else if !p(s[0]) then 0 else 1 + IndexWhereNot(s[1..], p)
  }

  lemma {:induction false} IndexWherePrefix(a: string, p: char -> bool, b: string)
    requires forall j :: 0 <= j < |a| ==> !p(a[j])
    requires b == [] || p(b[0])
    ensures IndexWhere(a + b, p) == |a|
  {
    if a != [] {
      assert (a + b)[1..] == a[1..] + b;
      IndexWherePrefix(a[1..], p, b);
    } else {
      assert a + b == b;
    }
  }

  lemma {:induction false} IndexWhereNotPrefix(a: string, p: char -> bool, b: string)
    requires forall j :: 0 <= j < |a| ==> p(a[j])
    requires b == [] || !p(b[0])
    ensures IndexWhereNot(a + b, p) == |a|
  {
    if a != [] {
      assert (a + b)[1..] == a[1..] + b;
      IndexWhereNotPrefix(a[1..], p, b);
    } else {
      assert a + b == b;
    }
  }

  /**
   * `re.split(r'[...]+', s, maxsplit=limit)` where the bracketed class is the
   * predicate `sep` and `limit < 0` stands for no limit.
   */
  function SplitRuns(s: string, sep: char -> bool, limit: int): (parts: seq<string>)
    ensures |parts| >= 1
    ensures forall k :: 0 <= k < |parts| - 1 ==> forall j :: 0 <= j < |parts[k]| ==> !sep(parts[k][j])
    ensures limit >= 0 ==> |parts| <= limit + 1
    decreases |s|
  {
    var i := IndexWhere(s, sep);
    if i == |s| || limit == 0 then [s]
    else
      var rest := s[i..];
      var j := IndexWhereNot(rest, sep);
      assert j > 0;
      [s[..i]] + SplitRuns(rest[j..], sep, if limit < 0 then limit else limit - 1)
  }

  /**
   * Splitting `a`, a run of separators and `b` where `a` holds no separator
   * and `b` does not start with one: `a` is the first part and `b` is split
   * with one split fewer.
   */
  lemma SplitRunsStep(a: string, run: string, b: string, sep: char -> bool, limit: int)
    requires forall j :: 0 <= j < |a| ==> !sep(a[j])
    requires run != [] && forall j :: 0 <= j < |run| ==> sep(run[j])
    requires b == [] || !sep(b[0])
    requires limit != 0
    ensures SplitRuns(a + run + b, sep, limit) == [a] + SplitRuns(b, sep, if limit < 0 then limit else limit - 1)
  {
    var s := a + run + b;
    assert s == a + (run + b);
    IndexWherePrefix(a, sep, run + b);
    assert s[..|a|] == a && s[|a|..] == run + b;
    IndexWhereNotPrefix(run, sep, b);
    assert (run + b)[|run|..] == b;
  }

  /** A text with no separator is a single part. */
  lemma SplitRunsNone(s: string, sep: char -> bool, limit: int)
    requires forall j :: 0 <= j < |s| ==> !sep(s[j])
    ensures SplitRuns(s, sep, limit) == [s]
  {
  }

  /** The decimal digit for `d < 10`. */
  function DigitChar(d: nat): char
    requires d < 10
  {
    ('0' as int + d) as char
  }

  /** `str(n)` for a natural number. */
  function NatToString(n: nat): (s: string)
    ensures |s| >= 1 && AllDigits(s)
    ensures s[0] == '0' ==> n == 0
  {
    if n < 10 then [DigitChar(n)] else NatToString(n / 10) + [DigitChar(n % 10)]
  }

  /** The value of a string of decimal digits. */
  function DigitsValue(s: string): nat
    requires AllDigits(s)
  {
    if s == [] then 0 else DigitsValue(s[..|s| - 1]) * 10 + (s[|s| - 1] as int - '0' as int)
  }

  lemma {:induction false} DigitsValueOfNatToString(n: nat)
    ensures DigitsValue(NatToString(n)) == n
  {
    if n >= 10 {
      var s := NatToString(n);
      assert s[..|s| - 1] == NatToString(n / 10);
      DigitsValueOfNatToString(n / 10);
    }
  }

  /** Different numbers print differently. */
  lemma NatToStringInjective(m: nat, n: nat)
    requires NatToString(m) == NatToString(n)
    ensures m == n
  {
    DigitsValueOfNatToString(m);
    DigitsValueOfNatToString(n);
  }

  /** `format(n, '0<width>')`: `str(n)` left-padded with zeros to `width`. */
  function ZeroPad(n: nat, width: nat): (s: string)
    ensures |s| == if |NatToString(n)| < width then width else |NatToString(n)|
    ensures AllDigits(s)
  {
    var d := NatToString(n);
    if |d| < width then seq(width - |d|, _ => '0') + d else d
  }

  /** Natural numbers up to 999 print in at most three digits. */
  lemma NatToStringShort(n: nat)
    requires n < 1000
    ensures |NatToString(n)| <= 3
  {
    if n >= 10 { NatToStringTwoDigits(n / 10); }
  }

  lemma NatToStringTwoDigits(n: nat)
    requires n < 100
    ensures |NatToString(n)| <= 2
  {
    if n >= 10 { assert n / 10 < 10; }
  }

  /** ZeroPad does not lose information. */
  lemma ZeroPadInjective(m: nat, n: nat, width: nat)
    requires ZeroPad(m, width) == ZeroPad(n, width)
    ensures m == n
  {
    var a, b := ZeroPad(m, width), ZeroPad(n, width);
    DigitsValueOfNatToString(m);
    DigitsValueOfNatToString(n);
    LeadingZeros(NatToString(m), width);
    LeadingZeros(NatToString(n), width);
  }

  lemma {:induction false} LeadingZeros(d: string, width: nat)
    requires AllDigits(d)
    ensures var s := if |d| < width then seq(width - |d|, _ => '0') + d else d;
      AllDigits(s) && DigitsValue(s) == DigitsValue(d)
    decreases width
  {
    if |d| < width {
      var s := seq(width - |d|, _ => '0') + d;
      var t := seq(width - 1 - |d|, _ => '0') + d;
      assert s == ['0'] + t;
      LeadingZeros(d, width - 1);
      assert t == if |d| < width - 1 then seq(width - 1 - |d|, _ => '0') + d else d;
      ZeroPrefixValue(t);
    }
  }

  lemma {:induction false} ZeroPrefixValue(t: string)
    requires AllDigits(t)
    ensures AllDigits(['0'] + t) && DigitsValue(['0'] + t) == DigitsValue(t)
    decreases |t|
  {
    if t != [] {
      var s := ['0'] + t;
      assert s[..|s| - 1] == ['0'] + t[..|t| - 1];
      ZeroPrefixValue(t[..|t| - 1]);
    }
  }
}
