/**
 * The handful of Python `str` operations the pipeline relies on:
 * `strip()`, `split(sep)`, `sep.join(parts)`, `lower()`, `endswith`,
 * the substring test `sub in s`, `rsplit(sep, 1)[1]` and `str(int)`.
 * Strings are sequences of Unicode scalar values: Python strings without lone surrogates.
 */
module Strings {

  /** `c.isspace()`: the characters that `str.strip()` with no argument removes. */
  predicate IsSpace(c: char) {
    ('\t' <= c <= '\r') || ('\U{1c}' <= c <= '\U{1f}') || c == ' ' ||
    c == '\U{85}' || c == '\U{a0}' || c == '\U{1680}' ||
    ('\U{2000}' <= c <= '\U{200a}') || c == '\U{2028}' || c == '\U{2029}' ||
    c == '\U{202f}' || c == '\U{205f}' || c == '\U{3000}'
  }

  /** A string that `strip()` reduces to the empty string (Python: `not s.strip()`). */
  predicate IsBlank(s: string) {
    forall i :: 0 <= i < |s| ==> IsSpace(s[i])
  }

  /** `s.lstrip()`. */
  function TrimStart(s: string): string
  {
    if |s| > 0 && IsSpace(s[0]) then TrimStart(s[1..]) else s
  }

  /** `s.rstrip()`. */
  function TrimEnd(s: string): string
  {
    if |s| > 0 && IsSpace(s[|s| - 1]) then TrimEnd(s[..|s| - 1]) else s
  }

  /** `s.strip()`: whitespace removed at both ends (StripIsStrippedSlice, StripExists). */
  function Strip(s: string): string
  {
    TrimEnd(TrimStart(s))
  }

  /** `lstrip()` drops the leading whitespace and nothing else. */
  lemma {:induction false} TrimStartSpec(s: string)
    ensures |TrimStart(s)| <= |s| && TrimStart(s) == s[|s| - |TrimStart(s)|..]
    ensures forall i :: 0 <= i < |s| - |TrimStart(s)| ==> IsSpace(s[i])
    ensures TrimStart(s) == [] || !IsSpace(TrimStart(s)[0])
  {
    if |s| > 0 && IsSpace(s[0]) {
      TrimStartSpec(s[1..]);
    }
  }

  /** `rstrip()` drops the trailing whitespace and nothing else. */
  lemma {:induction false} TrimEndSpec(s: string)
    ensures |TrimEnd(s)| <= |s| && TrimEnd(s) == s[..|TrimEnd(s)|]
    ensures forall i :: |TrimEnd(s)| <= i < |s| ==> IsSpace(s[i])
    ensures TrimEnd(s) == [] || !IsSpace(TrimEnd(s)[|TrimEnd(s)| - 1])
  {
    if |s| > 0 && IsSpace(s[|s| - 1]) {
      TrimEndSpec(s[..|s| - 1]);
    }
  }

  /** `s[lo..hi]` is what remains of `s` once whitespace is cut from both ends. */
  ghost predicate IsStrippedSlice(s: string, lo: nat, hi: nat) {
    lo <= hi <= |s| &&
    (forall i :: 0 <= i < lo ==> IsSpace(s[i])) &&
    (forall i :: hi <= i < |s| ==> IsSpace(s[i])) &&
    (lo < hi ==> !IsSpace(s[lo]) && !IsSpace(s[hi - 1]))
  }

  lemma {:induction false} TrimStartAt(s: string, lo: nat)
    requires lo <= |s|
    requires forall i :: 0 <= i < lo ==> IsSpace(s[i])
    requires lo < |s| ==> !IsSpace(s[lo])
    ensures TrimStart(s) == s[lo..]
    decreases lo
  {
    if lo > 0 {
      TrimStartAt(s[1..], lo - 1);
      assert s[1..][lo - 1..] == s[lo..];
    }
  }

  lemma {:induction false} TrimEndAt(s: string, hi: nat)
    requires hi <= |s|
    requires forall i :: hi <= i < |s| ==> IsSpace(s[i])
    requires 0 < hi ==> !IsSpace(s[hi - 1])
    ensures TrimEnd(s) == s[..hi]
    decreases |s| - hi
  {
    if hi < |s| {
      TrimEndAt(s[..|s| - 1], hi);
      assert s[..|s| - 1][..hi] == s[..hi];
    }
  }

  /**
   * `strip()` is characterised independently of how it is computed: it is
   * the one slice with only whitespace outside it and non-whitespace at
   * both of its ends.
   */
  lemma {:induction false} StripIsStrippedSlice(s: string, lo: nat, hi: nat)
    requires IsStrippedSlice(s, lo, hi)
    ensures Strip(s) == s[lo..hi]
  {
    if lo == hi {
      TrimStartAt(s, |s|);
    } else {
      TrimStartAt(s, lo);
      var t := s[lo..];
      forall i | hi - lo <= i < |t| ensures IsSpace(t[i]) {
        assert t[i] == s[lo + i];
      }
      TrimEndAt(t, hi - lo);
      assert t[..hi - lo] == s[lo..hi];
    }
  }

  /**
   * `strip()` does cut whitespace from both ends: its result is such a
   * slice, empty exactly when the string is blank.
   */
  lemma StripExists(s: string)
    ensures exists lo: nat, hi: nat :: IsStrippedSlice(s, lo, hi) && Strip(s) == s[lo..hi]
    ensures Strip(s) == [] <==> IsBlank(s)
    ensures Strip(s) != [] ==> !IsSpace(Strip(s)[0]) && !IsSpace(Strip(s)[|Strip(s)| - 1])
  {
    var t := TrimStart(s);
    TrimStartSpec(s);
    TrimEndSpec(t);
    var lo := |s| - |t|;
    var hi := lo + |TrimEnd(t)|;
    forall i | hi <= i < |s| ensures IsSpace(s[i]) {
      assert s[i] == t[i - lo];
    }
    if lo < hi {
      assert s[lo] == TrimEnd(t)[0];
      assert s[hi - 1] == TrimEnd(t)[|TrimEnd(t)| - 1];
    }
    assert IsStrippedSlice(s, lo, hi);
    assert Strip(s) == s[lo..hi];
    if lo < hi {
      assert !IsSpace(s[lo]);
    }
  }

  /** A string with no whitespace at either end is its own `strip()`. */
  lemma StripUnchanged(s: string)
    requires s == [] || (!IsSpace(s[0]) && !IsSpace(s[|s| - 1]))
    ensures Strip(s) == s
  {
    StripIsStrippedSlice(s, 0, |s|);
  }

  /** `strip()` is idempotent. */
  lemma StripIdempotent(s: string)
    ensures Strip(Strip(s)) == Strip(s)
  {
    StripExists(s);
    StripUnchanged(Strip(s));
  }

  /** Number of occurrences of `c` in `s` (`s.count(c)`). */
  function Count(s: string, c: char): (n: nat)
    ensures n <= |s|
    ensures n == 0 <==> c !in s
  {
    if s == [] then 0 else Count(s[1..], c) + (if s[0] == c then 1 else 0)
  }

  lemma {:induction false} CountAppend(a: string, b: string, c: char)
    ensures Count(a + b, c) == Count(a, c) + Count(b, c)
  {
    if a != [] {
      assert (a + b)[1..] == a[1..] + b;
      CountAppend(a[1..], b, c);
    } else {
      assert a + b == b;
    }
  }

  /** Position of the first `c` in `s` (`s.index(c)`). */
  function IndexOf(s: string, c: char): (i: nat)
    requires c in s
    ensures i < |s| && s[i] == c && c !in s[..i]
  {
    if s[0] == c then 0 else 1 + IndexOf(s[1..], c)
  }

  /** The first `c` in `s` is at `j` when `s[j]` is `c` and no earlier character is. */
  lemma {:induction false} IndexOfAt(s: string, c: char, j: nat)
    requires j < |s| && s[j] == c && c !in s[..j]
    ensures IndexOf(s, c) == j
    decreases j
  {
    if j > 0 {
      assert s[..j][0] == s[0];
      assert s[1..][..j - 1] == s[..j][1..];
      IndexOfAt(s[1..], c, j - 1);
    }
  }

  /** `"".join(parts)`: the parts one after the other. */
  function Concat(parts: seq<string>): string
  {
    if parts == [] then "" else Concat(parts[..|parts| - 1]) + parts[|parts| - 1]
  }

  /** Concatenating two lists of parts concatenates their texts. */
  lemma {:induction false} ConcatAppend(a: seq<string>, b: seq<string>)
    ensures Concat(a + b) == Concat(a) + Concat(b)
    decreases |b|
  {
    if b == [] {
      assert a + b == a;
    } else {
      var front, last := b[..|b| - 1], b[|b| - 1];
      assert (a + b)[..|a + b| - 1] == a + front;
      assert (a + b)[|a + b| - 1] == last;
      assert Concat(a + b) == Concat(a + front) + last;
      ConcatAppend(a, front);
      assert Concat(b) == Concat(front) + last;
    }
  }

  /** A character occurs in a concatenation only if it occurs in one of the parts. */
  lemma {:induction false} ConcatAvoids(parts: seq<string>, c: char)
    requires forall k :: 0 <= k < |parts| ==> c !in parts[k]
    ensures c !in Concat(parts)
  {
    if parts != [] {
      ConcatAvoids(parts[..|parts| - 1], c);
    }
  }

  /** `sep.join(parts)`, with the single character `sep`. */
  function Join(parts: seq<string>, sep: char): string
  {
    if |parts| == 0 then ""
    else if |parts| == 1 then parts[0]
    else parts[0] + [sep] + Join(parts[1..], sep)
  }

  lemma {:induction false} JoinSnoc(parts: seq<string>, last: string, sep: char)
    requires parts != []
    ensures Join(parts + [last], sep) == Join(parts, sep) + [sep] + last
    decreases |parts|
  {
    if |parts| > 1 {
      assert (parts + [last])[1..] == parts[1..] + [last];
      JoinSnoc(parts[1..], last, sep);
    }
  }

  /**
   * `s.split(sep)` for a one-character separator: `k` separators give
   * `k + 1` segments (so `""` splits to `[""]`) and no segment contains
   * the separator. JoinSplit shows that nothing is lost.
   */
  function Split(s: string, sep: char): (r: seq<string>)
    ensures |r| == Count(s, sep) + 1
    ensures forall k :: 0 <= k < |r| ==> sep !in r[k]
    decreases |s|
  {
    if sep !in s then [s]
    else
      var i := IndexOf(s, sep);
      assert s == s[..i] + [sep] + s[i + 1..];
      CountAppend(s[..i] + [sep], s[i + 1..], sep);
      CountAppend(s[..i], [sep], sep);
      [s[..i]] + Split(s[i + 1..], sep)
  }

  /** Joining the segments of `s` back with the separator gives `s` again. */
  lemma {:induction false} JoinSplit(s: string, sep: char)
    ensures Join(Split(s, sep), sep) == s
    decreases |s|
  {
    if sep in s {
      var i := IndexOf(s, sep);
      JoinSplit(s[i + 1..], sep);
      assert s == s[..i] + [sep] + s[i + 1..];
    }
  }

  /**
   * Split inverts Join: a list of at least one separator-free segment
   * joined by `sep` splits back into exactly that list. Together with
   * Split's own contract this says Split is the unique such decomposition.
   */
  lemma {:induction false} SplitJoin(parts: seq<string>, sep: char)
    requires |parts| >= 1
    requires forall k :: 0 <= k < |parts| ==> sep !in parts[k]
    ensures Split(Join(parts, sep), sep) == parts
    decreases |parts|
  {
    if |parts| > 1 {
      var s := Join(parts, sep);
      var rest := Join(parts[1..], sep);
      assert s == parts[0] + [sep] + rest;
      assert sep in s by { assert s[|parts[0]|] == sep; }
      assert s[..|parts[0]|] == parts[0];
      IndexOfAt(s, sep, |parts[0]|);
      var i := IndexOf(s, sep);
      assert s[..i] == parts[0];
      assert s[i + 1..] == rest;
      SplitJoin(parts[1..], sep);
    }
  }

  /** `s.endswith(suffix)`. */
  predicate EndsWith(s: string, suffix: string) {
    |suffix| <= |s| && s[|s| - |suffix|..] == suffix
  }

  /** `sub in s` for strings: `sub` occurs in `s` as a contiguous piece. */
  predicate Contains(s: string, sub: string)
    decreases |s|
  {
    |sub| <= |s| && (s[..|sub|] == sub || Contains(s[1..], sub))
  }

  /** `c.lower()` for the ASCII letters; every other character is kept. */
  function LowerChar(c: char): char {
    if 'A' <= c <= 'Z' then (c as int - 'A' as int + 'a' as int) as char else c
  }

  /**
   * `s.lower()`, restricted to ASCII case mapping: the result has the same
   * length and holds no upper-case ASCII letter; letters are mapped
   * position by position.
   */
  function Lower(s: string): (r: string)
    ensures |r| == |s|
    ensures forall i :: 0 <= i < |s| ==> r[i] == LowerChar(s[i])
    ensures forall i :: 0 <= i < |r| ==> !('A' <= r[i] <= 'Z')
  {
    seq(|s|, i requires 0 <= i < |s| => LowerChar(s[i]))
  }

  /**
   * `s.rsplit(c, 1)[1]` when `c` occurs in `s`: the text after the last
   * `c`. It contains no `c`, and `s` ends with `c` followed by it.
   */
  function AfterLast(s: string, c: char): (r: string)
    requires c in s
    ensures c !in r
    ensures EndsWith(s, [c] + r)
  {
    if s[|s| - 1] == c then ""
    else
      assert c in s[..|s| - 1] by {
        var k :| 0 <= k < |s| && s[k] == c;
        assert s[..|s| - 1][k] == c;
      }
      AfterLast(s[..|s| - 1], c) + [s[|s| - 1]]
  }

  function DigitChar(d: nat): char
    requires d < 10
  {
    ('0' as int + d) as char
  }

  /** Decimal digits of `n`, as `str(n)` gives them: at least one digit, no leading zero. */
  function NatToString(n: nat): (r: string)
    ensures |r| >= 1
    ensures forall i :: 0 <= i < |r| ==> '0' <= r[i] <= '9'
    ensures r[0] == '0' ==> n == 0
  {
    if n < 10 then [DigitChar(n)] else NatToString(n / 10) + [DigitChar(n % 10)]
  }

  /** The value of a string of decimal digits. */
  function DigitsValue(s: string): nat
    requires forall i :: 0 <= i < |s| ==> '0' <= s[i] <= '9'
  {
    if s == [] then 0 else 10 * DigitsValue(s[..|s| - 1]) + (s[|s| - 1] as int - '0' as int)
  }

  /** Reading the digits of `n` back gives `n`. */
  lemma {:induction false} NatToStringValue(n: nat)
    ensures DigitsValue(NatToString(n)) == n
  {
    if n >= 10 {
      var r := NatToString(n);
      assert r == NatToString(n / 10) + [DigitChar(n % 10)];
      assert r[..|r| - 1] == NatToString(n / 10);
      assert r[|r| - 1] as int - '0' as int == n % 10;
      NatToStringValue(n / 10);
    }
  }

  /** `str(x)` for a Python int: a minus sign before the digits of a negative number. */
  function IntToString(x: int): string
  {
    if x < 0 then "-" + NatToString(-x) else NatToString(x)
  }

  /** `str(x)` is a minus sign exactly for negative `x`, followed by decimal digits. */
  lemma IntToStringDigits(x: int)
    ensures x < 0 <==> (IntToString(x) != [] && IntToString(x)[0] == '-')
    ensures forall i :: 0 <= i < |IntToString(x)| ==> IntToString(x)[i] == '-' || '0' <= IntToString(x)[i] <= '9'
  {
  }
}
