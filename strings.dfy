/**
 * The JavaScript string operations the rename engine is built from, written
 * out over `seq<char>`: integer `toString`, `padStart`, `lastIndexOf`,
 * `replace` with a string pattern (first occurrence), global literal
 * replacement, `trim`, and `join` with its inverse `split`.
 */
module Strings {

  // ---------------------------------------------------------------------
  // Decimal rendering of integers (`Number.prototype.toString()`)
  // ---------------------------------------------------------------------

  predicate IsDigit(c: char) {
    '0' <= c <= '9'
  }

  predicate AllDigits(s: string) {
    forall i :: 0 <= i < |s| ==> IsDigit(s[i])
  }

  function DigitChar(d: nat): (c: char)
    requires d < 10
    ensures IsDigit(c) && c as int - '0' as int == d
  {
    ('0' as int + d) as char
  }

  function DigitValue(c: char): (d: nat)
    requires IsDigit(c)
    ensures d < 10
  {
    c as int - '0' as int
  }

  /** Decimal digits of `n`, most significant first, without leading zeros. */
  function NatDigits(n: nat): (s: string)
    ensures |s| >= 1 && AllDigits(s)
    ensures (s[0] == '0') == (n == 0)
    decreases n
  {
    if n < 10 then [DigitChar(n)] else NatDigits(n / 10) + [DigitChar(n % 10)]
  }

  /** Reads a string of decimal digits back as a number (leading zeros allowed). */
  function ParseNat(s: string): nat
    requires AllDigits(s)
  {
    if s == [] then 0 else ParseNat(s[..|s| - 1]) * 10 + DigitValue(s[|s| - 1])
  }

  lemma {:induction false} ParseNatDigits(n: nat)
    ensures ParseNat(NatDigits(n)) == n
  {
    var s := NatDigits(n);
    if n >= 10 {
      assert s[..|s| - 1] == NatDigits(n / 10);
      ParseNatDigits(n / 10);
    }
  }

  /** Leading zeros do not change the value a digit string denotes. */
  lemma {:induction false} ParseNatLeadingZeros(z: string, s: string)
    requires forall i :: 0 <= i < |z| ==> z[i] == '0'
    requires AllDigits(s)
    ensures AllDigits(z + s) && ParseNat(z + s) == ParseNat(s)
  {
    if s == [] {
      assert z + s == z;
      ParseNatZeros(z);
    } else {
      assert (z + s)[..|z + s| - 1] == z + s[..|s| - 1];
      ParseNatLeadingZeros(z, s[..|s| - 1]);
    }
  }

  lemma {:induction false} ParseNatZeros(z: string)
    requires forall i :: 0 <= i < |z| ==> z[i] == '0'
    ensures AllDigits(z) && ParseNat(z) == 0
  {
    if z != [] {
      ParseNatZeros(z[..|z| - 1]);
    }
  }

  /** Only digits and minus signs. */
  predicate NumericText(s: string) {
    forall i :: 0 <= i < |s| ==> IsDigit(s[i]) || s[i] == '-'
  }

  /** JavaScript's `String(n)` for an integer-valued number. */
  function Decimal(n: int): (s: string)
    ensures |s| >= 1 && NumericText(s)
    ensures (s[0] == '-') == (n < 0)
  {
    if n < 0 then "-" + NatDigits(-n) else NatDigits(n)
  }

  /** Reads back an optionally signed decimal numeral. */
  function ParseInt(s: string): int
    requires |s| >= 1 && (if s[0] == '-' then AllDigits(s[1..]) else AllDigits(s))
  {
    if s[0] == '-' then -(ParseNat(s[1..]) as int) else ParseNat(s)
  }

  /** `Decimal` is injective: reading its output back gives the number. */
  lemma DecimalRoundTrip(n: int)
    ensures var s := Decimal(n);
      (if s[0] == '-' then AllDigits(s[1..]) else AllDigits(s)) && ParseInt(s) == n
  {
    if n < 0 {
      assert Decimal(n)[1..] == NatDigits(-n);
      ParseNatDigits(-n);
    } else {
      ParseNatDigits(n);
    }
  }

  // ---------------------------------------------------------------------
  // `String.prototype.padStart(width, pad)` with a one-character pad
  // ---------------------------------------------------------------------

  /**
   * Lengthens `s` to `width` by putting copies of `pad` in front; never
   * truncates (a `width` at or below `|s|`, including a negative one, leaves
   * `s` as it is).
   */
  function PadStart(s: string, width: int, pad: char): (r: string)
    ensures |r| == if width > |s| then width else |s|
    ensures r[|r| - |s|..] == s
    ensures forall i :: 0 <= i < |r| - |s| ==> r[i] == pad
  {
    if width <= |s| then s else seq(width - |s|, _ => pad) + s
  }

  /** Zero padding keeps the value of a digit string. */
  lemma PadStartValue(s: string, width: int)
    requires AllDigits(s)
    ensures AllDigits(PadStart(s, width, '0'))
    ensures ParseNat(PadStart(s, width, '0')) == ParseNat(s)
  {
    var r := PadStart(s, width, '0');
    var z := r[..|r| - |s|];
    assert r == z + s;
    ParseNatLeadingZeros(z, s);
  }

  // ---------------------------------------------------------------------
  // `String.prototype.lastIndexOf(c)` for one character
  // ---------------------------------------------------------------------

  /** Index of the last `c` in `s`, or -1 when `s` has none. */
  function LastIndexOf(s: string, c: char): (k: int)
    ensures -1 <= k < |s|
    ensures k == -1 <==> c !in s
    ensures k >= 0 ==> s[k] == c && forall j :: k < j < |s| ==> s[j] != c
  {
    if |s| == 0 then -1
    else if s[|s| - 1] == c then |s| - 1
    else
      assert s == s[..|s| - 1] + [s[|s| - 1]];
      LastIndexOf(s[..|s| - 1], c)
  }

  // ---------------------------------------------------------------------
  // Literal occurrences and replacement
  // ---------------------------------------------------------------------

  /** `p` occurs in `s` starting at position `i`. */
  predicate OccursAt(s: string, p: string, i: nat) {
    i + |p| <= |s| && s[i..i + |p|] == p
  }

  /** No occurrence of `p` in `s` starts before position `k`. */
  predicate NoOccurrenceBefore(s: string, p: string, k: nat) {
    forall i :: 0 <= i < k ==> !OccursAt(s, p, i)
  }

  /**
   * `s.replace(p, r)` with a string pattern: the first occurrence of `p`,
   * if any, becomes `r` (an empty `p` matches at the very start).
   */
  function ReplaceFirst(s: string, p: string, r: string): (t: string)
    ensures |t| == |s| || |t| + |p| == |s| + |r|
    decreases |s|
  {
    if |s| < |p| then s
    else if s[..|p|] == p then r + s[|p|..]
    else [s[0]] + ReplaceFirst(s[1..], p, r)
  }

  /**
   * `s.replace(new RegExp(literal p, 'g'), r)`: scanning left to right, every
   * occurrence of `p` that does not overlap an earlier replaced one becomes `r`.
   */
  function ReplaceAll(s: string, p: string, r: string): (t: string)
    requires |p| > 0
    ensures |r| == |p| ==> |t| == |s|
    decreases |s|
  {
    if |s| < |p| then s
    else if s[..|p|] == p then r + ReplaceAll(s[|p|..], p, r)
    else [s[0]] + ReplaceAll(s[1..], p, r)
  }

  lemma ShiftOccurrence(c: char, s: string, p: string, i: nat)
    ensures OccursAt([c] + s, p, i + 1) == OccursAt(s, p, i)
  {
    if i + |p| <= |s| {
      assert ([c] + s)[i + 1..i + 1 + |p|] == s[i..i + |p|];
    }
  }

  /**
   * Dropping the first character of `a + p + b` (with `a` non-empty) keeps
   * "no occurrence before the end of `a`", one position earlier.
   */
  lemma NoOccurrenceShift(a: string, p: string, b: string)
    requires a != [] && NoOccurrenceBefore(a + p + b, p, |a|)
    ensures !OccursAt(a + p + b, p, 0)
    ensures (a + p + b)[1..] == a[1..] + p + b
    ensures NoOccurrenceBefore(a[1..] + p + b, p, |a| - 1)
  {
    var s := a + p + b;
    assert s[1..] == a[1..] + p + b;
    forall i | 0 <= i < |a| - 1 ensures !OccursAt(a[1..] + p + b, p, i) {
      ShiftOccurrence(s[0], s[1..], p, i);
      assert [s[0]] + s[1..] == s;
    }
  }

  /** Without any occurrence of `p`, `ReplaceFirst` changes nothing. */
  lemma {:induction false} ReplaceFirstNoMatch(s: string, p: string, r: string)
    requires NoOccurrenceBefore(s, p, |s| + 1)
    ensures ReplaceFirst(s, p, r) == s
  {
    if |s| >= |p| {
      assert !OccursAt(s, p, 0);
      assert s[..|p|] != p;
      forall i | 0 <= i < |s[1..]| + 1 ensures !OccursAt(s[1..], p, i) {
        ShiftOccurrence(s[0], s[1..], p, i);
        assert [s[0]] + s[1..] == s;
      }
      ReplaceFirstNoMatch(s[1..], p, r);
      assert s == [s[0]] + s[1..];
    }
  }

  /** `ReplaceFirst` rewrites exactly the leftmost occurrence and nothing else. */
  lemma {:induction false} ReplaceFirstAt(a: string, p: string, b: string, r: string)
    requires NoOccurrenceBefore(a + p + b, p, |a|)
    ensures ReplaceFirst(a + p + b, p, r) == a + r + b
  {
    var s := a + p + b;
    if a == [] {
      assert s[..|p|] == p && s[|p|..] == b;
    } else {
      NoOccurrenceShift(a, p, b);
      var t := a[1..] + p + b;
      assert s[..|p|] != p;
      assert s == [a[0]] + t;
      assert ReplaceFirst(s, p, r) == [a[0]] + ReplaceFirst(t, p, r);
      ReplaceFirstAt(a[1..], p, b, r);
      assert [a[0]] + (a[1..] + r + b) == a + r + b;
    }
  }

  /** Without any occurrence of `p`, `ReplaceAll` changes nothing. */
  lemma {:induction false} ReplaceAllNoMatch(s: string, p: string, r: string)
    requires |p| > 0
    requires NoOccurrenceBefore(s, p, |s| + 1)
    ensures ReplaceAll(s, p, r) == s
  {
    if |s| >= |p| {
      assert !OccursAt(s, p, 0);
      assert s[..|p|] != p;
      forall i | 0 <= i < |s[1..]| + 1 ensures !OccursAt(s[1..], p, i) {
        ShiftOccurrence(s[0], s[1..], p, i);
        assert [s[0]] + s[1..] == s;
      }
      ReplaceAllNoMatch(s[1..], p, r);
      assert s == [s[0]] + s[1..];
    }
  }

  /**
   * `ReplaceAll` rewrites the leftmost occurrence and then carries on after
   * it: occurrences never overlap and the scan never goes back.
   */
  lemma {:induction false} ReplaceAllAt(a: string, p: string, b: string, r: string)
    requires |p| > 0
    requires NoOccurrenceBefore(a + p + b, p, |a|)
    ensures ReplaceAll(a + p + b, p, r) == a + r + ReplaceAll(b, p, r)
  {
    var s := a + p + b;
    if a == [] {
      assert s[..|p|] == p && s[|p|..] == b;
    } else {
      NoOccurrenceShift(a, p, b);
      var t := a[1..] + p + b;
      var rest := ReplaceAll(b, p, r);
      assert s[..|p|] != p;
      assert s == [a[0]] + t;
      assert ReplaceAll(s, p, r) == [a[0]] + ReplaceAll(t, p, r);
      ReplaceAllAt(a[1..], p, b, r);
      assert [a[0]] + (a[1..] + r + rest) == a + r + rest;
    }
  }

  /** Replacing a pattern by itself is the identity. */
  lemma {:induction false} ReplaceAllSelf(s: string, p: string)
    requires |p| > 0
    ensures ReplaceAll(s, p, p) == s
  {
    if |s| >= |p| {
      if s[..|p|] == p {
        ReplaceAllSelf(s[|p|..], p);
        assert s == s[..|p|] + s[|p|..];
      } else {
        ReplaceAllSelf(s[1..], p);
        assert s == [s[0]] + s[1..];
      }
    }
  }

  /** A string in which the first character of `p` never appears has no occurrence of `p`. */
  lemma NoOccurrenceWithoutHead(s: string, p: string, k: nat)
    requires |p| > 0
    requires forall i :: 0 <= i < |s| && i < k ==> s[i] != p[0]
    ensures NoOccurrenceBefore(s, p, k)
  {
    forall i | 0 <= i < k ensures !OccursAt(s, p, i) {
      if i + |p| <= |s| {
        assert s[i..i + |p|][0] == s[i];
      }
    }
  }

  // ---------------------------------------------------------------------
  // `String.prototype.trim`
  // ---------------------------------------------------------------------

  /** The characters ECMAScript's `trim` removes: WhiteSpace and LineTerminator. */
  predicate IsWhitespace(c: char) {
    || c == ' ' || c == '\t' || c == '\n' || c == '\r'
    || c == '\U{000B}' || c == '\U{000C}' || c == '\U{00A0}' || c == '\U{1680}'
    || ('\U{2000}' <= c <= '\U{200A}')
    || c == '\U{2028}' || c == '\U{2029}' || c == '\U{202F}' || c == '\U{205F}'
    || c == '\U{3000}' || c == '\U{FEFF}'
  }

  predicate IsBlank(s: string) {
    forall i :: 0 <= i < |s| ==> IsWhitespace(s[i])
  }

  /** The number of whitespace characters `s` starts with. */
  function LeadingBlanks(s: string): (n: nat)
    ensures n <= |s| && IsBlank(s[..n])
    ensures n == |s| || !IsWhitespace(s[n])
  {
    if |s| > 0 && IsWhitespace(s[0]) then
      var n := LeadingBlanks(s[1..]);
      BlankPrefixCons(s, n);
      assert n < |s[1..]| ==> s[1..][n] == s[n + 1];
      n + 1
    else 0
  }

  /** A whitespace character in front of a blank prefix gives a longer blank prefix. */
  lemma BlankPrefixCons(s: string, n: nat)
    requires |s| > 0 && IsWhitespace(s[0]) && n < |s| && IsBlank(s[1..][..n])
    ensures IsBlank(s[..n + 1])
  {
    var prefix, rest := s[..n + 1], s[1..][..n];
    forall i | 0 <= i < n + 1 ensures IsWhitespace(prefix[i]) {
      if i > 0 {
        assert prefix[i] == rest[i - 1];
      }
    }
  }

  function TrimStart(s: string): (r: string)
    ensures |r| <= |s| && r == s[|s| - |r|..]
    ensures IsBlank(s[..|s| - |r|])
    ensures r == [] || !IsWhitespace(r[0])
  {
    s[LeadingBlanks(s)..]
  }

  function TrimEnd(s: string): (r: string)
    ensures |r| <= |s| && r == s[..|r|]
    ensures IsBlank(s[|r|..])
    ensures r == [] || !IsWhitespace(r[|r| - 1])
  {
    if |s| > 0 && IsWhitespace(s[|s| - 1]) then TrimEnd(s[..|s| - 1]) else s
  }

  /** `s.trim()`: a part of `s` that neither starts nor ends with whitespace. */
  function Trim(s: string): (t: string)
    ensures |t| <= |s|
    ensures t == [] || (!IsWhitespace(t[0]) && !IsWhitespace(t[|t| - 1]))
  {
    TrimEnd(TrimStart(s))
  }

  /** `s.trim()` is empty exactly when `s` consists of whitespace only. */
  lemma TrimEmptyIffBlank(s: string)
    ensures Trim(s) == [] <==> IsBlank(s)
  {
    var t := TrimStart(s);
    assert s == s[..|s| - |t|] + t;
    if Trim(s) == [] {
      assert IsBlank(t[|TrimEnd(t)|..]);
      assert t[|TrimEnd(t)|..] == t;
    }
  }

  // ---------------------------------------------------------------------
  // `Array.prototype.join(sep)` and its inverse
  // ---------------------------------------------------------------------

  /** `parts.join(sep)`. */
  function Join(parts: seq<string>, sep: string): (r: string)
    ensures |parts| == 0 ==> r == []
    ensures |parts| > 0 ==> |r| >= |parts[0]| && r[..|parts[0]|] == parts[0]
  {
    if |parts| == 0 then ""
    else if |parts| == 1 then parts[0]
    else parts[0] + sep + Join(parts[1..], sep)
  }

  /** Position of the first occurrence of `p` in `s`, scanning from `i`. */
  function FindFrom(s: string, p: string, i: nat): (k: int)
    requires |p| > 0 && i <= |s|
    ensures k == -1 || (i <= k && OccursAt(s, p, k))
    ensures k == -1 ==> forall j :: i <= j <= |s| ==> !OccursAt(s, p, j)
    ensures k >= 0 ==> forall j :: i <= j < k ==> !OccursAt(s, p, j)
    decreases |s| - i
  {
    if i + |p| > |s| then -1
    else if s[i..i + |p|] == p then i
    else FindFrom(s, p, i + 1)
  }

  /** `s.split(sep)` for a non-empty separator. */
  function Split(s: string, sep: string): (r: seq<string>)
    requires |sep| > 0
    ensures |r| >= 1
    decreases |s|
  {
    var k := FindFrom(s, sep, 0);
    if k < 0 then [s] else [s[..k]] + Split(s[k + |sep|..], sep)
  }

  /** No part contains the character `c`. */
  predicate NoPartContains(parts: seq<string>, c: char) {
    forall j, i :: 0 <= j < |parts| && 0 <= i < |parts[j]| ==> parts[j][i] != c
  }

  /** In `p + sep + rest`, when `p` lacks the separator's first character, the first separator is the one after `p`. */
  lemma FirstSeparator(p: string, sep: string, rest: string)
    requires |sep| > 0 && forall i :: 0 <= i < |p| ==> p[i] != sep[0]
    ensures FindFrom(p + sep + rest, sep, 0) == |p|
  {
    var s := p + sep + rest;
    assert forall i :: 0 <= i < |p| ==> s[i] == p[i];
    NoOccurrenceWithoutHead(s, sep, |p|);
    assert s[|p|..|p| + |sep|] == sep;
    assert OccursAt(s, sep, |p|);
  }

  /**
   * When no part contains the first character of the separator, splitting a
   * joined list at the separator gives the list back.
   */
  lemma {:induction false} SplitJoin(parts: seq<string>, sep: string)
    requires |parts| >= 1 && |sep| > 0
    requires NoPartContains(parts, sep[0])
    ensures Split(Join(parts, sep), sep) == parts
  {
    var s := Join(parts, sep);
    if |parts| == 1 {
      NoOccurrenceWithoutHead(s, sep, |s| + 1);
      assert FindFrom(s, sep, 0) == -1;
    } else {
      var p := parts[0];
      var rest := Join(parts[1..], sep);
      assert s == p + sep + rest;
      assert forall i :: 0 <= i < |p| ==> p[i] != sep[0] by {
        assert p == parts[0];
      }
      FirstSeparator(p, sep, rest);
      assert Split(s, sep) == [s[..|p|]] + Split(s[|p| + |sep|..], sep);
      assert s[..|p|] == p;
      assert s[|p| + |sep|..] == rest;
      assert NoPartContains(parts[1..], sep[0]) by {
        forall j, i | 0 <= j < |parts[1..]| && 0 <= i < |parts[1..][j]| ensures parts[1..][j][i] != sep[0] {
          assert parts[1..][j] == parts[j + 1];
        }
      }
      SplitJoin(parts[1..], sep);
      assert parts == [p] + parts[1..];
    }
  }
}
