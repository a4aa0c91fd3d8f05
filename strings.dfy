/** The optional value that TypeScript writes as `T | undefined`. */
module Options {
  datatype Option<+T> = None | Some(value: T) {
    /** `x ?? fallback` */
    function GetOr(fallback: T): T {
      match this
      case Some(v) => v
      case None => fallback
    }
  }

  /** The outcome of an operation that can throw: its value, or the message of the error it throws. */
  datatype Result<+T> = Ok(value: T) | Err(error: string)
}

/**
 * The JavaScript string built-ins the repository relies on (`substring`,
 * `split`, `endsWith`, `replace`, `replaceAll` with a string pattern,
 * `repeat`, `padStart`, `Number.prototype.toString`), written out on
 * `seq<char>`.
 */
module Strings {

  predicate StartsWith(s: string, prefix: string) {
    |prefix| <= |s| && s[..|prefix|] == prefix
  }

  predicate EndsWith(s: string, suffix: string) {
    |suffix| <= |s| && s[|s| - |suffix|..] == suffix
  }

  function Min(a: int, b: int): int { if a < b then a else b }

  lemma SliceConcat(s: string, i: nat, j: nat, k: nat)
    requires i <= j <= k <= |s|
    ensures s[i..k] == s[i..j] + s[j..k]
  {
  }

  /** `s.substring(from, to)` for `0 <= from <= to`: both ends clamp to the length. */
  function Substring(s: string, from: nat, to: nat): (r: string)
    requires from <= to
    ensures to <= |s| ==> r == s[from..to]
    ensures |s| <= from ==> r == ""
  {
    s[Min(from, |s|)..Min(to, |s|)]
  }

  /** `s.slice(0, n)` for `n >= 0`. */
  function Prefix(s: string, n: nat): (r: string)
    ensures |r| == Min(n, |s|) && r == s[..|r|]
  {
    s[..Min(n, |s|)]
  }

  /** pattern occurs in s starting at index j */
  predicate OccursAt(s: string, pattern: string, j: nat) {
    j + |pattern| <= |s| && s[j..j + |pattern|] == pattern
  }

  /** The first occurrence of pattern in s at or after start, or -1. */
  function FindFrom(s: string, pattern: string, start: nat): (i: int)
    requires |pattern| > 0
    ensures i < 0 ==> i == -1
    ensures 0 <= i ==> start <= i && OccursAt(s, pattern, i)
    ensures forall j: nat :: start <= j && (i < 0 || j < i) ==> !OccursAt(s, pattern, j)
    decreases |s| - start
  {
    if |s| < start + |pattern| then -1
    else if OccursAt(s, pattern, start) then start
    else FindFrom(s, pattern, start + 1)
  }

  /** `s.indexOf(pattern)` for a non-empty pattern: the first occurrence, or -1. */
  function Find(s: string, pattern: string): (i: int)
    requires |pattern| > 0
    ensures i < 0 ==> i == -1
    ensures 0 <= i ==> OccursAt(s, pattern, i)
  {
    FindFrom(s, pattern, 0)
  }

  /** Find reports the first occurrence: there is none before it, nor any at all when it reports -1. */
  lemma FindIsFirst(s: string, pattern: string)
    requires |pattern| > 0
    ensures forall j: nat :: (Find(s, pattern) < 0 || j < Find(s, pattern)) ==> !OccursAt(s, pattern, j)
  {
  }

  predicate Contains(s: string, pattern: string) {
    exists j: nat | j <= |s| :: OccursAt(s, pattern, j)
  }

  lemma FindContains(s: string, pattern: string)
    requires |pattern| > 0
    ensures Find(s, pattern) >= 0 <==> Contains(s, pattern)
  {
    FindIsFirst(s, pattern);
    if Find(s, pattern) >= 0 {
      assert OccursAt(s, pattern, Find(s, pattern));
    }
  }

  /** `s.split(separator)` for a non-empty separator. */
  function SplitOn(s: string, separator: string): (r: seq<string>)
    requires |separator| > 0
    ensures |r| >= 1
    decreases |s|
  {
    var i := Find(s, separator);
    if i < 0 then [s] else [s[..i]] + SplitOn(s[i + |separator|..], separator)
  }

  /** `parts.join(separator)` */
  function Join(parts: seq<string>, separator: string): string {
    if parts == [] then ""
    else if |parts| == 1 then parts[0]
    else parts[0] + separator + Join(parts[1..], separator)
  }

  lemma {:induction false} JoinSplitOn(s: string, separator: string)
    requires |separator| > 0
    ensures Join(SplitOn(s, separator), separator) == s
    decreases |s|
  {
    var i := Find(s, separator);
    if i >= 0 {
      var j := i + |separator|;
      JoinSplitOn(s[j..], separator);
      JoinCons(s[..i], SplitOn(s[j..], separator), separator);
      SliceAround(s, i, j);
    }
  }

  /** Splitting a join on a one-character separator no part contains gives the parts back. */
  lemma {:induction false} SplitOnJoin(parts: seq<string>, c: char)
    requires |parts| >= 1
    requires forall k :: 0 <= k < |parts| ==> c !in parts[k]
    ensures SplitOn(Join(parts, [c]), [c]) == parts
  {
    var head := parts[0];
    var s := Join(parts, [c]);
    FindIsFirst(s, [c]);
    if |parts| == 1 {
      forall j: nat | j + 1 <= |s| ensures !OccursAt(s, [c], j) {
        assert s[j] in head;
      }
    } else {
      var tail := parts[1..];
      JoinCons(head, tail, [c]);
      assert parts == [head] + tail;
      assert s == head + [c] + Join(tail, [c]);
      assert OccursAt(s, [c], |head|) by {
        assert s[|head|..|head| + 1] == [c];
      }
      forall j: nat | j < |head| ensures !OccursAt(s, [c], j) {
        assert s[j] == head[j];
      }
      assert Find(s, [c]) == |head|;
      assert s[|head| + 1..] == Join(tail, [c]);
      assert s[..|head|] == head;
      SplitOnJoin(tail, c);
    }
  }

  lemma JoinCons(head: string, tail: seq<string>, separator: string)
    requires |tail| >= 1
    ensures Join([head] + tail, separator) == head + separator + Join(tail, separator)
  {
    assert ([head] + tail)[1..] == tail;
  }

  lemma SliceAround(s: string, i: nat, j: nat)
    requires i <= j <= |s|
    ensures s == s[..i] + s[i..j] + s[j..]
  {
  }

  /** `s.replace(pattern, replacement)` with a string pattern: the first occurrence only. */
  function ReplaceFirst(s: string, pattern: string, replacement: string): string
    requires |pattern| > 0
  {
    var i := Find(s, pattern);
    if i < 0 then s else s[..i] + replacement + s[i + |pattern|..]
  }

  /**
   * `s.replaceAll(pattern, replacement)` with a string pattern: the
   * occurrences, found left to right without overlap, are exactly the
   * separators split finds.
   */
  function ReplaceAll(s: string, pattern: string, replacement: string): string
    requires |pattern| > 0
  {
    Join(SplitOn(s, pattern), replacement)
  }

  /** With no occurrence of the pattern, replaceAll changes nothing. */
  lemma ReplaceAllAbsent(s: string, pattern: string, replacement: string)
    requires |pattern| > 0 && !Contains(s, pattern)
    ensures ReplaceAll(s, pattern, replacement) == s
  {
    FindContains(s, pattern);
  }

  /** A string without the character c does not contain the one-character pattern [c]. */
  lemma CharAbsent(s: string, c: char)
    requires c !in s
    ensures !Contains(s, [c])
  {
    forall j: nat | j <= |s| ensures !OccursAt(s, [c], j) {
      if j + 1 <= |s| {
        assert s[j] in s;
      }
    }
  }

  /** `s.repeat(n)` */
  function Repeat(s: string, n: nat): (r: string)
    ensures |r| == |s| * n
  {
    if n == 0 then "" else s + Repeat(s, n - 1)
  }

  /** `s.padStart(width, fill)` with a one-character fill. */
  function PadStart(s: string, width: nat, fill: char): (r: string)
    ensures |r| == if |s| < width then width else |s|
    ensures r[|r| - |s|..] == s
  {
    if |s| < width then Repeat([fill], width - |s|) + s else s
  }

  predicate IsDigit(c: char) { '0' <= c <= '9' }

  function DigitChar(d: nat): char
    requires d < 10
  {
    "0123456789"[d]
  }

  function DigitValue(c: char): nat
    requires IsDigit(c)
    ensures DigitValue(c) < 10
  {
    (c as int) - ('0' as int)
  }

  /** The decimal form of a natural number, as `n.toString()` writes it. */
  function NatToString(n: nat): (r: string)
    ensures |r| >= 1
    ensures forall k :: 0 <= k < |r| ==> IsDigit(r[k])
    ensures n > 0 ==> r[0] != '0'
    ensures n < 10 ==> |r| == 1
    ensures 10 <= n < 100 ==> |r| == 2
  {
    if n < 10 then [DigitChar(n)] else NatToString(n / 10) + [DigitChar(n % 10)]
  }

  /**
   * `Number(digits)` for a string of decimal digits (only ever applied to
   * one; a character that is not a digit would count as 0).
   */
  function DecimalValue(digits: string): nat {
    if digits == [] then 0
    else
      var last := digits[|digits| - 1];
      10 * DecimalValue(digits[..|digits| - 1]) + (if IsDigit(last) then DigitValue(last) else 0)
  }

  /** A digit string that starts with a non-zero digit denotes a positive number. */
  lemma {:induction false} DecimalValuePositive(digits: string)
    requires |digits| >= 1 && '1' <= digits[0] <= '9'
    ensures DecimalValue(digits) >= 1
  {
    if |digits| > 1 {
      DecimalValuePositive(digits[..|digits| - 1]);
    }
  }

  lemma {:induction false} DecimalValueOfNatToString(n: nat)
    ensures DecimalValue(NatToString(n)) == n
  {
    var r := NatToString(n);
    if n >= 10 {
      DecimalValueOfNatToString(n / 10);
      assert r[..|r| - 1] == NatToString(n / 10);
    }
  }

  /** `i.toString()` for an integer. */
  function IntToString(i: int): (r: string)
    ensures |r| >= 1
  {
    if i < 0 then "-" + NatToString(-i) else NatToString(i)
  }

  /** The inverse of IntToString, reading an optional minus sign and decimal digits. */
  function ParseInt(s: string): int
    requires |s| >= 1
    requires s[0] == '-' ==> |s| >= 2
  {
    if s[0] == '-' then 0 - DecimalValue(s[1..]) else DecimalValue(s) as int
  }

  lemma IntToStringRoundTrip(i: int)
    ensures var s := IntToString(i); |s| >= 1 && (s[0] == '-' <==> i < 0) && ParseInt(s) == i
  {
    var s := IntToString(i);
    if i < 0 {
      DecimalValueOfNatToString(-i);
      assert s[1..] == NatToString(-i);
    } else {
      DecimalValueOfNatToString(i);
    }
  }

  /** A character JavaScript's `\s` class matches. */
  predicate IsJsSpace(c: char) {
    var n := c as int;
    n == 0x20 || (0x09 <= n <= 0x0D) || n == 0xA0 || n == 0x1680 || (0x2000 <= n <= 0x200A)
    || n == 0x2028 || n == 0x2029 || n == 0x202F || n == 0x205F || n == 0x3000 || n == 0xFEFF
  }

  /** The length of the longest prefix of s in which every character is JavaScript whitespace. */
  function LeadingSpaceLength(s: string): (n: nat)
    ensures n <= |s|
    ensures forall k :: 0 <= k < n ==> IsJsSpace(s[k])
    ensures n == |s| || !IsJsSpace(s[n])
  {
    if s == [] || !IsJsSpace(s[0]) then 0 else 1 + LeadingSpaceLength(s[1..])
  }

  /** The number of occurrences of c in s. */
  function CountChar(s: string, c: char): nat {
    if s == [] then 0 else (if s[0] == c then 1 else 0) + CountChar(s[1..], c)
  }

  lemma {:induction false} CountCharAppend(a: string, b: string, c: char)
    ensures CountChar(a + b, c) == CountChar(a, c) + CountChar(b, c)
  {
    if a != [] {
      assert (a + b)[1..] == a[1..] + b;
      CountCharAppend(a[1..], b, c);
    } else {
      assert a + b == b;
    }
  }

  lemma {:induction false} SplitOnChar(s: string, c: char)
    ensures var r := SplitOn(s, [c]);
      (forall k :: 0 <= k < |r| ==> c !in r[k]) && |r| == CountChar(s, c) + 1
    decreases |s|
  {
    var i := Find(s, [c]);
    var r := SplitOn(s, [c]);
    FindIsFirst(s, [c]);
    if i < 0 {
      assert forall j :: 0 <= j < |s| ==> s[j] != c by {
        forall j | 0 <= j < |s| ensures s[j] != c {
          assert !OccursAt(s, [c], j);
          assert s[j..j + 1] == [s[j]];
        }
      }
      CountCharNone(s, c);
    } else {
      var rest := s[i + 1..];
      SplitOnChar(rest, c);
      assert r == [s[..i]] + SplitOn(rest, [c]);
      assert forall j :: 0 <= j < i ==> s[..i][j] != c by {
        forall j | 0 <= j < i ensures s[..i][j] != c {
          assert !OccursAt(s, [c], j);
          assert s[j..j + 1] == [s[j]];
        }
      }
      CountCharNone(s[..i], c);
      assert OccursAt(s, [c], i);
      assert s[i..i + 1] == [c];
      assert s == s[..i] + [c] + rest;
      CountCharAppend(s[..i] + [c], rest, c);
      CountCharAppend(s[..i], [c], c);
    }
  }

  lemma CountCharNone(s: string, c: char)
    requires forall j :: 0 <= j < |s| ==> s[j] != c
    ensures CountChar(s, c) == 0 && c !in s
  {
  }
}
