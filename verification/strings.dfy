/** String helpers with the meaning JavaScript's string methods have in the
    original code: `startsWith`, `endsWith`, `includes`, `split`, `join`,
    `trim() === ''`, ASCII `toLowerCase`, decimal and hexadecimal rendering. */
module Strings {

  predicate StartsWith(s: string, p: string) {
    |p| <= |s| && s[..|p|] == p
  }

  predicate EndsWith(s: string, p: string) {
    |p| <= |s| && s[|s| - |p|..] == p
  }

  /** `s.includes(p)`. */
  predicate Contains(s: string, p: string) {
    exists k | 0 <= k <= |s| :: StartsWith(s[k..], p)
  }

  /** Characters matched by JavaScript's `\s` and removed by `trim()`:
      the white-space and line-terminator code points of ECMAScript. */
  predicate IsJsSpace(c: char) {
    c == '\t' || c == '\n' || c == '\U{000B}' || c == '\U{000C}' || c == '\r' || c == ' '
    || c == '\U{00A0}' || c == '\U{1680}' || ('\U{2000}' <= c <= '\U{200A}')
    || c == '\U{2028}' || c == '\U{2029}' || c == '\U{202F}' || c == '\U{205F}'
    || c == '\U{3000}' || c == '\U{FEFF}'
  }

  /** Characters that the regular-expression `.` does not match. */
  predicate IsLineTerminator(c: char) {
    c == '\n' || c == '\r' || c == '\U{2028}' || c == '\U{2029}'
  }

  /** `s.trim() === ''`. */
  predicate IsBlank(s: string) {
    forall k | 0 <= k < |s| :: IsJsSpace(s[k])
  }

  predicate IsDigit(c: char) {
    '0' <= c <= '9'
  }

  predicate AllDigits(s: string) {
    forall k | 0 <= k < |s| :: IsDigit(s[k])
  }

  /** Length of the longest prefix of `s[i..]` made of characters satisfying `p`. */
  function RunLength(s: string, i: nat, p: char -> bool): (n: nat)
    requires i <= |s|
    ensures i + n <= |s|
    ensures forall k | i <= k < i + n :: p(s[k])
    ensures i + n == |s| || !p(s[i + n])
    decreases |s| - i
  {
    if i < |s| && p(s[i]) then 1 + RunLength(s, i + 1, p) else 0
  }

  /** The run starting at `a` ends at `b` when `s[a..b]` satisfy `p` and
      `s[b]` does not. */
  lemma {:induction false} RunUpTo(s: string, a: nat, b: nat, p: char -> bool)
    requires a <= b <= |s|
    requires forall k | a <= k < b :: p(s[k])
    requires b == |s| || !p(s[b])
    ensures RunLength(s, a, p) == b - a
    decreases b - a
  {
    if a < b {
      RunUpTo(s, a + 1, b, p);
    }
  }

  /** Every character of a run satisfies `p` in the slice too. */
  lemma SliceAll(s: string, a: nat, b: nat, p: char -> bool)
    requires a <= b <= |s|
    requires forall k | a <= k < b :: p(s[k])
    ensures forall k | 0 <= k < b - a :: p(s[a..b][k])
  {
    var f := s[a..b];
    assert forall k | 0 <= k < |f| :: f[k] == s[a + k];
  }

  /** Concatenation of five parts, regrouped from the right. */
  lemma Assoc4(a: string, b: string, c: string, d: string, e: string)
    ensures a + (b + (c + (d + e))) == a + b + c + d + e
  {
  }

  /** A slice is the concatenation of its two parts. */
  lemma SliceSplit(s: string, i: nat, a: nat, b: nat)
    requires i <= a <= b <= |s|
    ensures s[i..b] == s[i..a] + s[a..b]
  {
  }

  /** Index of the first occurrence of `c` in `s` at or after `i`. */
  function IndexOfFrom(s: string, i: nat, c: char): (r: int)
    requires i <= |s|
    ensures r == -1 || (i <= r < |s| && s[r] == c)
    ensures forall k | i <= k < (if r == -1 then |s| else r) :: s[k] != c
    decreases |s| - i
  {
    if i == |s| then -1 else if s[i] == c then i else IndexOfFrom(s, i + 1, c)
  }

  /** A pattern with a character the text lacks does not occur in it. */
  lemma AbsentCharNotContained(s: string, p: string, j: nat)
    requires j < |p| && p[j] !in s
    ensures !Contains(s, p)
  {
    forall k | 0 <= k <= |s| ensures !StartsWith(s[k..], p) {
      if j < |s| - k {
        assert s[k..][j] == s[k + j];
        assert s[k + j] in s;
      }
    }
  }

  /** `s.split(c)[0]`: everything before the first `c`. */
  function Before(s: string, c: char): (r: string)
    ensures c !in r
    ensures StartsWith(s, r)
    ensures |r| < |s| ==> s[|r|] == c
  {
    var k := IndexOfFrom(s, 0, c);
    if k == -1 then s else s[..k]
  }

  /** Without a `c`, the split keeps the whole text. */
  lemma BeforeAbsent(s: string, c: char)
    requires c !in s
    ensures Before(s, c) == s
  {
    assert forall i | 0 <= i < |s| :: s[i] in s;
  }

  function LowerChar(c: char): char {
    if 'A' <= c <= 'Z' then (c as int + 32) as char else c
  }

  /** `toLowerCase()` restricted to ASCII letters. */
  function ToLower(s: string): (r: string)
    ensures |r| == |s|
    ensures forall k | 0 <= k < |s| :: r[k] == LowerChar(s[k])
  {
    seq(|s|, k requires 0 <= k < |s| => LowerChar(s[k]))
  }

  /** `xs.join(sep)`. */
  function Join(xs: seq<string>, sep: string): string {
    if |xs| == 0 then ""
    else if |xs| == 1 then xs[0]
    else xs[0] + sep + Join(xs[1..], sep)
  }

  /** `xs.join('')`. */
  function Concat(xs: seq<string>): string {
    if |xs| == 0 then "" else xs[0] + Concat(xs[1..])
  }

  /** `s.split(c)` for a one-character separator: at least one piece, none
      containing the separator. */
  function Split(s: string, c: char): (r: seq<string>)
    ensures |r| > 0
    ensures forall k | 0 <= k < |r| :: c !in r[k]
  {
    if |s| == 0 then [""]
    else
      var rest := Split(s[1..], c);
      if s[0] == c then [""] + rest else [[s[0]] + rest[0]] + rest[1..]
  }

  /** Joining the pieces of a split with the separator gives back the text. */
  lemma {:induction false} JoinSplit(s: string, c: char)
    ensures Join(Split(s, c), [c]) == s
    decreases |s|
  {
    if |s| > 0 {
      var rest := Split(s[1..], c);
      JoinSplit(s[1..], c);
      if s[0] == c {
        assert Split(s, c) == [""] + rest;
        assert Join([""] + rest, [c]) == "" + [c] + Join(rest, [c]);
      } else {
        var r := Split(s, c);
        assert r == [[s[0]] + rest[0]] + rest[1..];
        if |rest| == 1 {
          assert Join(r, [c]) == [s[0]] + rest[0];
        } else {
          assert r[1..] == rest[1..];
          assert Join(r, [c]) == [s[0]] + rest[0] + [c] + Join(rest[1..], [c]);
          assert Join(rest, [c]) == rest[0] + [c] + Join(rest[1..], [c]);
        }
      }
    }
  }

  /** Splitting text that does not contain the separator gives one piece. */
  lemma {:induction false} SplitWithout(s: string, c: char)
    requires c !in s
    ensures Split(s, c) == [s]
    decreases |s|
  {
    if |s| > 0 {
      assert s[0] != c && c !in s[1..];
      SplitWithout(s[1..], c);
      assert [s[0]] + s[1..] == s;
    }
  }

  /** Splitting pieces joined by the separator gives the pieces back. */
  lemma {:induction false} SplitJoin(xs: seq<string>, c: char)
    requires |xs| > 0
    requires forall k | 0 <= k < |xs| :: c !in xs[k]
    ensures Split(Join(xs, [c]), c) == xs
    decreases |xs|
  {
    if |xs| == 1 {
      SplitWithout(xs[0], c);
    } else {
      SplitJoin(xs[1..], c);
      SplitPrefix(xs[0], Join(xs[1..], [c]), c);
    }
  }

  /** Splitting `a + c + b`, where `a` has no separator, puts `a` first. */
  lemma {:induction false} SplitPrefix(a: string, b: string, c: char)
    requires c !in a
    ensures Split(a + [c] + b, c) == [a] + Split(b, c)
    decreases |a|
  {
    if |a| == 0 {
      assert a + [c] + b == [c] + b;
      assert ([c] + b)[1..] == b;
    } else {
      assert (a + [c] + b)[1..] == a[1..] + [c] + b;
      SplitPrefix(a[1..], b, c);
      assert [a[0]] + a[1..] == a;
    }
  }

  // ----- decimal and hexadecimal rendering -----

  function DigitChar(d: nat): char
    requires d < 16
  {
    if d < 10 then ('0' as int + d) as char else ('a' as int + d - 10) as char
  }

  function DigitValue(c: char): nat
    requires IsDigit(c)
  {
    c as int - '0' as int
  }

  /** `String(n)` for a non-negative integer. */
  function NatToString(n: nat): (r: string)
    ensures |r| > 0 && AllDigits(r)
  {
    if n < 10 then [DigitChar(n)] else NatToString(n / 10) + [DigitChar(n % 10)]
  }

  /** `String(n)` for an integer. */
  function IntToString(n: int): string {
    if n < 0 then "-" + NatToString(-n) else NatToString(n)
  }

  /** The value of a string of decimal digits. */
  function ParseDigits(s: string): nat
    requires AllDigits(s)
  {
    if |s| == 0 then 0 else 10 * ParseDigits(s[..|s| - 1]) + DigitValue(s[|s| - 1])
  }

  /** Reading a rendered number gives the number back. */
  lemma {:induction false} ParseNatToString(n: nat)
    ensures ParseDigits(NatToString(n)) == n
  {
    if n >= 10 {
      var r := NatToString(n);
      assert r[..|r| - 1] == NatToString(n / 10);
      ParseNatToString(n / 10);
    }
  }

  /** Distinct numbers render to distinct strings. */
  lemma NatToStringInjective(a: nat, b: nat)
    requires NatToString(a) == NatToString(b)
    ensures a == b
  {
    ParseNatToString(a);
    ParseNatToString(b);
  }

  /** `n.toString(16)` for a non-negative integer (lower-case digits). */
  function NatToHex(n: nat): (r: string)
    ensures |r| > 0
  {
    if n < 16 then [DigitChar(n)] else NatToHex(n / 16) + [DigitChar(n % 16)]
  }

  /** `n.toString(16)` for an integer. */
  function IntToHex(n: int): string {
    if n < 0 then "-" + NatToHex(-n) else NatToHex(n)
  }

  /** `s.padStart(width, c)`. */
  function PadStart(s: string, width: nat, c: char): (r: string)
    ensures |r| == if |s| < width then width else |s|
    ensures EndsWith(r, s)
    ensures forall k | 0 <= k < |r| - |s| :: r[k] == c
  {
    if |s| < width then seq(width - |s|, _ => c) + s else s
  }

  predicate IsHexDigit(c: char) {
    IsDigit(c) || ('a' <= c <= 'f') || ('A' <= c <= 'F')
  }

  function HexValue(c: char): nat
    requires IsHexDigit(c)
  {
    if IsDigit(c) then DigitValue(c)
    else if 'a' <= c <= 'f' then c as int - 'a' as int + 10
    else c as int - 'A' as int + 10
  }

  predicate AllHexDigits(s: string) {
    forall k | 0 <= k < |s| :: IsHexDigit(s[k])
  }

  /** The value of a string of hexadecimal digits. */
  function ParseHexDigits(s: string): nat
    requires AllHexDigits(s)
  {
    if |s| == 0 then 0 else 16 * ParseHexDigits(s[..|s| - 1]) + HexValue(s[|s| - 1])
  }

  lemma {:induction false} NatToHexDigits(n: nat)
    ensures AllHexDigits(NatToHex(n))
    ensures forall k | 0 <= k < |NatToHex(n)| :: '0' <= NatToHex(n)[k] <= '9' || 'a' <= NatToHex(n)[k] <= 'f'
  {
    if n >= 16 {
      NatToHexDigits(n / 16);
    }
  }

  /** Reading a hexadecimal rendering gives the number back. */
  lemma {:induction false} ParseNatToHex(n: nat)
    ensures AllHexDigits(NatToHex(n)) && ParseHexDigits(NatToHex(n)) == n
  {
    NatToHexDigits(n);
    if n >= 16 {
      var r := NatToHex(n);
      assert r[..|r| - 1] == NatToHex(n / 16);
      ParseNatToHex(n / 16);
    }
  }

  /** Leading zeros do not change the value of a hexadecimal string. */
  lemma {:induction false} LeadingZerosHex(z: string, s: string)
    requires forall k | 0 <= k < |z| :: z[k] == '0'
    requires AllHexDigits(s)
    ensures AllHexDigits(z + s) && ParseHexDigits(z + s) == ParseHexDigits(s)
    decreases |s|
  {
    if |s| == 0 {
      assert z + s == z;
      ZerosHex(z);
    } else {
      assert (z + s)[..|z + s| - 1] == z + s[..|s| - 1];
      LeadingZerosHex(z, s[..|s| - 1]);
    }
  }

  /** Padding with zeros does not change the value of a hexadecimal string. */
  lemma PaddedHex(s: string, width: nat)
    requires AllHexDigits(s)
    ensures AllHexDigits(PadStart(s, width, '0'))
    ensures ParseHexDigits(PadStart(s, width, '0')) == ParseHexDigits(s)
  {
    var p := PadStart(s, width, '0');
    var m := |p| - |s|;
    assert p[m..] == s;
    assert p == p[..m] + p[m..];
    LeadingZerosHex(p[..m], s);
  }

  lemma {:induction false} ZerosHex(z: string)
    requires forall k | 0 <= k < |z| :: z[k] == '0'
    ensures AllHexDigits(z) && ParseHexDigits(z) == 0
  {
    if |z| > 0 {
      ZerosHex(z[..|z| - 1]);
    }
  }
}
