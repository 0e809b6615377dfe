/**
  Character classification and the few string helpers of the .NET runtime that the
  lexer relies on: Char.IsWhiteSpace, Char.IsLetterOrDigit, String.Trim and the
  decimal rendering of Int32.ToString.
 */
module Chars {

  import opened Outcomes

  /** Char.IsWhiteSpace: the space separators, the line and paragraph separators,
      U+0009 to U+000D, U+0085 and U+00A0. */
  predicate IsWhiteSpace(c: char) {
    || ('\t' <= c <= '\r')
    || c == ' '
    || c == '\U{85}'
    || c == '\U{A0}'
    || c == '\U{1680}'
    || ('\U{2000}' <= c <= '\U{200A}')
    || c == '\U{2028}'
    || c == '\U{2029}'
    || c == '\U{202F}'
    || c == '\U{205F}'
    || c == '\U{3000}'
  }

  /** Char.IsLetterOrDigit restricted to the Latin-1 range: ASCII digits and letters
      and the Latin-1 letters; every character above U+00FF counts as neither. */
  predicate IsLetterOrDigit(c: char) {
    || ('0' <= c <= '9')
    || ('A' <= c <= 'Z')
    || ('a' <= c <= 'z')
    || c == '\U{AA}'
    || c == '\U{B5}'
    || c == '\U{BA}'
    || ('\U{C0}' <= c <= '\U{D6}')
    || ('\U{D8}' <= c <= '\U{F6}')
    || ('\U{F8}' <= c <= '\U{FF}')
  }

  lemma LetterOrDigitIsNotWhiteSpace(c: char)
    requires IsLetterOrDigit(c)
    ensures !IsWhiteSpace(c)
  {
  }

  /** True when no character of `s` is white space. */
  predicate NoWhiteSpace(s: string) {
    forall k :: 0 <= k < |s| ==> !IsWhiteSpace(s[k])
  }

  /** `s` with every white-space character removed: the comparison under which
      the lexer's output is lossless. */
  function Strip(s: string): (r: string)
    ensures |r| <= |s|
  {
    if |s| == 0 then []
    else (if IsWhiteSpace(s[0]) then [] else [s[0]]) + Strip(s[1..])
  }

  lemma {:induction false} StripConcat(a: string, b: string)
    ensures Strip(a + b) == Strip(a) + Strip(b)
  {
    if |a| == 0 {
      assert a + b == b;
    } else {
      assert (a + b)[1..] == a[1..] + b;
      StripConcat(a[1..], b);
    }
  }

  /** Strip of a run cut in two at `j`. */
  lemma StripSlices(s: string, i: int, j: int, k: int)
    requires 0 <= i <= j <= k <= |s|
    ensures Strip(s[i..k]) == Strip(s[i..j]) + Strip(s[j..k])
  {
    assert s[i..k] == s[i..j] + s[j..k];
    StripConcat(s[i..j], s[j..k]);
  }

  lemma {:induction false} StripAllWhite(s: string)
    requires forall k :: 0 <= k < |s| ==> IsWhiteSpace(s[k])
    ensures Strip(s) == []
  {
    if |s| > 0 {
      StripAllWhite(s[1..]);
    }
  }

  lemma {:induction false} StripNoWhite(s: string)
    requires NoWhiteSpace(s)
    ensures Strip(s) == s
  {
    if |s| > 0 {
      StripNoWhite(s[1..]);
      assert s == [s[0]] + s[1..];
    }
  }

  /** Number of leading white-space characters of `s`. */
  function LeadingWhite(s: string): (n: nat)
    ensures n <= |s|
  {
    if |s| == 0 || !IsWhiteSpace(s[0]) then 0 else 1 + LeadingWhite(s[1..])
  }

  lemma {:induction false} LeadingWhiteFacts(s: string)
    ensures forall k :: 0 <= k < LeadingWhite(s) ==> IsWhiteSpace(s[k])
    ensures LeadingWhite(s) < |s| ==> !IsWhiteSpace(s[LeadingWhite(s)])
  {
    if |s| > 0 && IsWhiteSpace(s[0]) {
      LeadingWhiteFacts(s[1..]);
    }
  }

  /** Index at which the trailing white space of `s` begins. */
  function TrailingStart(s: string): (n: nat)
    ensures n <= |s|
  {
    if |s| == 0 || !IsWhiteSpace(s[|s| - 1]) then |s| else TrailingStart(s[..|s| - 1])
  }

  lemma {:induction false} TrailingStartFacts(s: string)
    ensures forall k :: TrailingStart(s) <= k < |s| ==> IsWhiteSpace(s[k])
    ensures TrailingStart(s) > 0 ==> !IsWhiteSpace(s[TrailingStart(s) - 1])
  {
    if |s| > 0 && IsWhiteSpace(s[|s| - 1]) {
      TrailingStartFacts(s[..|s| - 1]);
    }
  }

  /** String.Trim: `s` without its leading and trailing white space. */
  function Trim(s: string): string
  {
    var a := LeadingWhite(s);
    var b := TrailingStart(s);
    if b <= a then [] else s[a..b]
  }

  /** No white space at either end of `s`. */
  predicate Trimmed(s: string) {
    |s| > 0 ==> !IsWhiteSpace(s[0]) && !IsWhiteSpace(s[|s| - 1])
  }

  /** Trim keeps a run of `s` after its leading white space, has no white space at
      either end, and drops only white space. */
  lemma TrimFacts(s: string)
    ensures LeadingWhite(s) + |Trim(s)| <= |s|
    ensures Trim(s) == s[LeadingWhite(s)..LeadingWhite(s) + |Trim(s)|]
    ensures Trimmed(Trim(s))
    ensures Strip(Trim(s)) == Strip(s)
  {
    LeadingWhiteFacts(s);
    TrailingStartFacts(s);
    TrimEnds(s);
    TrimStrip(s);
  }

  lemma TrimEnds(s: string)
    ensures Trimmed(Trim(s))
  {
    var a := LeadingWhite(s);
    var b := TrailingStart(s);
    if a < b {
      LeadingWhiteFacts(s);
      TrailingStartFacts(s);
      var t := s[a..b];
      assert t[0] == s[a] && t[|t| - 1] == s[b - 1];
    }
  }

  lemma TrimStrip(s: string)
    ensures Strip(Trim(s)) == Strip(s)
  {
    var a := LeadingWhite(s);
    var b := TrailingStart(s);
    LeadingWhiteFacts(s);
    TrailingStartFacts(s);
    if b <= a {
      assert forall k :: 0 <= k < |s| ==> IsWhiteSpace(s[k]) by {
        forall k | 0 <= k < |s| ensures IsWhiteSpace(s[k]) {
          if k >= b {} else {}
        }
      }
      StripAllWhite(s);
    } else {
      StripAround(s, a, b);
    }
  }

  /** Removing white space from both ends of a run leaves its Strip alone. */
  lemma StripAround(s: string, a: int, b: int)
    requires 0 <= a <= b <= |s|
    requires forall k :: 0 <= k < a ==> IsWhiteSpace(s[k])
    requires forall k :: b <= k < |s| ==> IsWhiteSpace(s[k])
    ensures Strip(s[a..b]) == Strip(s)
  {
    var u := s[..b];
    assert s[a..b] == u[a..];
    assert forall k :: 0 <= k < a ==> u[k] == s[k];
    StripWhiteSuffix(s, b);
    StripWhitePrefix(u, a);
  }

  lemma {:induction false} StripWhitePrefix(s: string, a: int)
    requires 0 <= a <= |s|
    requires forall k :: 0 <= k < a ==> IsWhiteSpace(s[k])
    ensures Strip(s[a..]) == Strip(s)
    decreases a
  {
    if a > 0 {
      assert s[1..][a - 1..] == s[a..];
      StripWhitePrefix(s[1..], a - 1);
    }
  }

  lemma StripWhiteSuffix(s: string, b: int)
    requires 0 <= b <= |s|
    requires forall k :: b <= k < |s| ==> IsWhiteSpace(s[k])
    ensures Strip(s[..b]) == Strip(s)
  {
    assert s == s[..b] + s[b..];
    TailWhite(s, b);
    StripAllWhite(s[b..]);
    StripConcat(s[..b], s[b..]);
  }

  lemma TailWhite(s: string, b: int)
    requires 0 <= b <= |s|
    requires forall k :: b <= k < |s| ==> IsWhiteSpace(s[k])
    ensures forall k :: 0 <= k < |s[b..]| ==> IsWhiteSpace(s[b..][k])
  {
    forall k | 0 <= k < |s[b..]|
      ensures IsWhiteSpace(s[b..][k])
    {
      assert s[b..][k] == s[b + k];
    }
  }

  /** A run with no white space at either end is its own Trim. */
  lemma TrimOfTrimmed(s: string)
    requires Trimmed(s)
    ensures Trim(s) == s
  {
    if |s| > 0 {
      assert LeadingWhite(s) == 0;
      assert TrailingStart(s) == |s|;
    }
  }

  lemma TrimIdempotent(s: string)
    ensures Trim(Trim(s)) == Trim(s)
  {
    TrimFacts(s);
    TrimOfTrimmed(Trim(s));
  }

  // ---------------------------------------------------------------------------
  // Decimal rendering (Int32.ToString with the invariant culture's "-").

  predicate IsDigit(c: char) {
    '0' <= c <= '9'
  }

  function DigitChar(d: nat): (c: char)
    requires d < 10
    ensures IsDigit(c)
  {
    (48 + d) as char
  }

  function DigitValue(c: char): (d: nat)
    requires IsDigit(c)
    ensures d < 10
  {
    c as int - 48
  }

  /** Decimal digits of `n`, most significant first, with no leading zero. */
  function NatToString(n: nat): (r: string)
    ensures |r| > 0
    ensures forall k :: 0 <= k < |r| ==> IsDigit(r[k])
    ensures |r| > 1 ==> r[0] != '0'
  {
    if n < 10 then [DigitChar(n)] else NatToString(n / 10) + [DigitChar(n % 10)]
  }

  function IntToString(i: int): (r: string)
    ensures |r| > 0
  {
    if i < 0 then "-" + NatToString(-i) else NatToString(i)
  }

  /** The value of a string of decimal digits. */
  function DigitsValue(s: string): nat
    requires forall k :: 0 <= k < |s| ==> IsDigit(s[k])
  {
    if |s| == 0 then 0 else 10 * DigitsValue(s[..|s| - 1]) + DigitValue(s[|s| - 1])
  }

  lemma {:induction false} NatToStringRoundTrip(n: nat)
    ensures DigitsValue(NatToString(n)) == n
  {
    if n >= 10 {
      NatToStringRoundTrip(n / 10);
      var r := NatToString(n);
      assert r[..|r| - 1] == NatToString(n / 10);
    }
  }

  /** Reads back what IntToString wrote. */
  function ParseInt(s: string): Option<int>
  {
    if |s| > 0 && s[0] == '-' then
      if |s| > 1 && forall k :: 1 <= k < |s| ==> IsDigit(s[k]) then Some(0 - DigitsValue(s[1..])) else None
    else if |s| > 0 && forall k :: 0 <= k < |s| ==> IsDigit(s[k]) then Some(DigitsValue(s))
    else None
  }

  lemma IntToStringRoundTrip(i: int)
    ensures ParseInt(IntToString(i)) == Some(i)
  {
    if i < 0 {
      var d := NatToString(-i);
      var r := "-" + d;
      assert r[1..] == d;
      forall k | 1 <= k < |r| ensures IsDigit(r[k]) {
        assert r[k] == d[k - 1];
      }
      NatToStringRoundTrip(-i);
    } else {
      var r := NatToString(i);
      assert IsDigit(r[0]);
      NatToStringRoundTrip(i);
    }
  }

  lemma IntToStringInjective(i: int, j: int)
    requires IntToString(i) == IntToString(j)
    ensures i == j
  {
    IntToStringRoundTrip(i);
    IntToStringRoundTrip(j);
  }

  // ---------------------------------------------------------------------------
  // String.Join.

  /** The parts with `sep` between neighbours. */
  function Join(sep: string, parts: seq<string>): string
  {
    if |parts| == 0 then ""
    else if |parts| == 1 then parts[0]
    else parts[0] + sep + Join(sep, parts[1..])
  }

  /** Joining one more part adds the separator and the part at the end. */
  lemma {:induction false} JoinSnoc(sep: string, parts: seq<string>, last: string)
    requires |parts| > 0
    ensures Join(sep, parts + [last]) == Join(sep, parts) + sep + last
    decreases |parts|
  {
    var all := parts + [last];
    if |parts| == 1 {
      assert all[1..] == [last];
    } else {
      assert all[1..] == parts[1..] + [last];
      JoinSnoc(sep, parts[1..], last);
    }
  }
}
