/** The pieces of Python's `str` behaviour the core relies on: `lower()`,
    `isspace()`/`strip()`, `split(sep)`, `splitlines()`, `str(int)` and `format(v, "016x")`. */
module Text {

  /** `str.lower()` restricted to ASCII letters.  The lowered text is only
      compared with modes, image extensions and hidden file names; the
      non-ASCII characters Python lowers into ASCII (U+0130 to "i" plus a
      combining dot, U+212A to "k") cannot make a string equal to one of
      those, since none contains a "k". */
  function LowerChar(c: char): char
  {
    if 'A' <= c <= 'Z' then (c as int + 32) as char else c
  }

  function Lower(s: string): (r: string)
    ensures |r| == |s|
    ensures forall i :: 0 <= i < |s| ==> r[i] == LowerChar(s[i])
  {
    if s == [] then [] else [LowerChar(s[0])] + Lower(s[1..])
  }

  /** Lower-casing twice is lower-casing once. */
  lemma LowerIdempotent(s: string)
    ensures Lower(Lower(s)) == Lower(s)
  {
  }

  /** Python's `str.isspace()` for one character. */
  predicate IsSpace(c: char)
  {
    var n := c as int;
    n == 0x20 || 0x09 <= n <= 0x0d || 0x1c <= n <= 0x1f || n == 0x85 || n == 0xa0
    || n == 0x1680 || 0x2000 <= n <= 0x200a || n == 0x2028 || n == 0x2029
    || n == 0x202f || n == 0x205f || n == 0x3000
  }

  /** `not s.strip()`: the string is empty or all whitespace. */
  predicate IsBlank(s: string)
  {
    forall i :: 0 <= i < |s| ==> IsSpace(s[i])
  }

  /** The line boundaries recognised by Python's `str.splitlines()`. */
  predicate IsLineBreak(c: char)
  {
    var n := c as int;
    0x0a <= n <= 0x0d || 0x1c <= n <= 0x1e || n == 0x85 || n == 0x2028 || n == 0x2029
  }

  predicate NoLineBreak(s: string)
  {
    forall i :: 0 <= i < |s| ==> !IsLineBreak(s[i])
  }

  /** Index of the first line boundary in s, or |s| when there is none. */
  function LineEnd(s: string): (i: nat)
    ensures i <= |s|
    ensures NoLineBreak(s[..i])
    ensures i < |s| ==> IsLineBreak(s[i])
  {
    if s == [] || IsLineBreak(s[0]) then 0
    else
      var j := LineEnd(s[1..]);
      assert s[1..][..j] == s[1..j + 1];
      1 + j
  }

  /** Python's `s.splitlines()` (no `keepends`): "\r\n" is one boundary and a
      final boundary does not start an extra empty line. */
  function SplitLines(s: string): seq<string>
    decreases |s|
  {
    if s == [] then []
    else
      var i := LineEnd(s);
      if i == |s| then [s]
      else
        var w := if s[i] == '\r' && i + 1 < |s| && s[i + 1] == '\n' then 2 else 1;
        [s[..i]] + SplitLines(s[i + w..])
  }

  lemma LineEndOf(line: string, rest: string)
    requires NoLineBreak(line)
    ensures LineEnd(line + "\n" + rest) == |line|
  {
    if line != [] {
      assert (line + "\n" + rest)[1..] == line[1..] + "\n" + rest;
      LineEndOf(line[1..], rest);
    }
  }

  /** A line without boundaries followed by "\n" splits off as one line. */
  lemma SplitLinesCons(line: string, rest: string)
    requires NoLineBreak(line)
    ensures SplitLines(line + "\n" + rest) == [line] + SplitLines(rest)
  {
    var s := line + "\n" + rest;
    LineEndOf(line, rest);
    assert s[..|line|] == line;
    assert s[|line| + 1..] == rest;
  }

  /** `sep.join(parts)`. */
  function Join(parts: seq<string>, sep: char): string
  {
    if parts == [] then []
    else if |parts| == 1 then parts[0]
    else parts[0] + [sep] + Join(parts[1..], sep)
  }

  /** Index of the first occurrence of c in s, or |s| when there is none. */
  function IndexOf(s: string, c: char): (i: nat)
    ensures i <= |s|
    ensures c !in s[..i]
    ensures i < |s| ==> s[i] == c
  {
    if s == [] || s[0] == c then 0
    else
      var j := IndexOf(s[1..], c);
      assert s[..j + 1] == [s[0]] + s[1..][..j];
      1 + j
  }

  /** `s.split(sep)` with a one-character separator: always at least one part,
      and no part contains the separator. */
  function Split(s: string, sep: char): (r: seq<string>)
    ensures |r| >= 1
    ensures forall k :: 0 <= k < |r| ==> sep !in r[k]
    decreases |s|
  {
    var i := IndexOf(s, sep);
    if i == |s| then (assert s[..i] == s; [s]) else [s[..i]] + Split(s[i + 1..], sep)
  }

  /** Splitting loses nothing: joining the parts back gives the string. */
  lemma {:induction false} JoinSplit(s: string, sep: char)
    ensures Join(Split(s, sep), sep) == s
    decreases |s|
  {
    var i := IndexOf(s, sep);
    if i < |s| {
      var rest := Split(s[i + 1..], sep);
      JoinSplit(s[i + 1..], sep);
      var parts := [s[..i]] + rest;
      assert parts[1..] == rest;
      assert Join(parts, sep) == s[..i] + [sep] + s[i + 1..];
      assert s == s[..i] + [sep] + s[i + 1..];
    }
  }

  lemma SplitInjective(a: string, b: string, sep: char)
    requires Split(a, sep) == Split(b, sep)
    ensures a == b
  {
    JoinSplit(a, sep);
    JoinSplit(b, sep);
  }

  // ---------------------------------------------------------------
  // Digits: str(int) and format(v, "x")
  // ---------------------------------------------------------------

  /** The lower-case digit for 0 <= d < 16. */
  function DigitChar(d: nat): (c: char)
    requires d < 16
    ensures IsDigitChar(c)
  {
    if d < 10 then ('0' as int + d) as char else ('a' as int + d - 10) as char
  }

  predicate IsDigitChar(c: char)
  {
    '0' <= c <= '9' || 'a' <= c <= 'f'
  }

  function DigitValue(c: char): nat
  {
    if '0' <= c <= '9' then c as nat - '0' as nat
    else if 'a' <= c <= 'f' then c as nat - 'a' as nat + 10
    else 0
  }

  /** The digits of n in the given base, most significant first, no leading zeros. */
  function Digits(n: nat, base: nat): (r: string)
    requires 2 <= base <= 16
    ensures |r| >= 1
    ensures forall i :: 0 <= i < |r| ==> IsDigitChar(r[i])
  {
    if n < base then [DigitChar(n)] else Digits(n / base, base) + [DigitChar(n % base)]
  }

  /** Reads back a digit string (leading zeros allowed). */
  function ParseDigits(s: string, base: nat): nat
  {
    if s == [] then 0 else ParseDigits(s[..|s| - 1], base) * base + DigitValue(s[|s| - 1])
  }

  lemma DigitValueChar(d: nat)
    requires d < 16
    ensures DigitValue(DigitChar(d)) == d
  {
  }

  lemma DivMod(n: nat, base: nat)
    requires 2 <= base
    ensures n / base * base + n % base == n && n % base < base
    ensures n > 0 ==> n / base < n
  {
  }

  lemma ParseSnoc(t: string, c: char, base: nat)
    ensures ParseDigits(t + [c], base) == ParseDigits(t, base) * base + DigitValue(c)
  {
    assert (t + [c])[..|t|] == t;
  }

  lemma DigitsOneRoundTrip(n: nat, base: nat)
    requires 2 <= base <= 16 && n < base
    ensures ParseDigits(Digits(n, base), base) == n
  {
    assert Digits(n, base) == [] + [DigitChar(n)];
    ParseSnoc([], DigitChar(n), base);
    DigitValueChar(n);
  }

  lemma DigitsStepRoundTrip(n: nat, base: nat)
    requires 2 <= base <= 16 && n >= base
    requires ParseDigits(Digits(n / base, base), base) == n / base
    ensures ParseDigits(Digits(n, base), base) == n
  {
    DivMod(n, base);
    ParseSnoc(Digits(n / base, base), DigitChar(n % base), base);
    DigitValueChar(n % base);
  }

  /** Printing a number in a base and reading the digits back gives the number. */
  lemma {:induction false} ParseDigitsRoundTrip(n: nat, base: nat)
    requires 2 <= base <= 16
    ensures ParseDigits(Digits(n, base), base) == n
  {
    if n < base {
      DigitsOneRoundTrip(n, base);
    } else {
      DivMod(n, base);
      ParseDigitsRoundTrip(n / base, base);
      DigitsStepRoundTrip(n, base);
    }
  }

  lemma {:induction false} ParseDigitsLeadingZeros(k: nat, s: string, base: nat)
    ensures ParseDigits(Zeros(k) + s, base) == ParseDigits(s, base)
    decreases |s|
  {
    if s == [] {
      assert Zeros(k) + s == Zeros(k);
      ZerosParse(k, base);
    } else {
      assert (Zeros(k) + s)[..|Zeros(k) + s| - 1] == Zeros(k) + s[..|s| - 1];
      ParseDigitsLeadingZeros(k, s[..|s| - 1], base);
    }
  }

  lemma {:induction false} ZerosParse(k: nat, base: nat)
    ensures ParseDigits(Zeros(k), base) == 0
  {
    if k > 0 {
      ZerosParse(k - 1, base);
      var z := Zeros(k);
      assert z[..k - 1] == Zeros(k - 1);
      assert DigitValue(z[k - 1]) == 0;
    }
  }

  function Zeros(k: nat): (r: string)
    ensures |r| == k && forall i :: 0 <= i < k ==> r[i] == '0'
  {
    if k == 0 then [] else Zeros(k - 1) + ['0']
  }

  /** Python's `str(n)` for an int. */
  function Decimal(n: int): string
  {
    if n < 0 then "-" + Digits(-n, 10) else Digits(n, 10)
  }

  /** f"{v:016x}": lower-case hexadecimal, zero-padded to at least 16 digits. */
  function Hex16(v: nat): string
  {
    PaddedHex(v, 16)
  }

  /** Lower-case hexadecimal zero-padded to at least w digits. */
  function PaddedHex(v: nat, w: nat): string
  {
    var d := Digits(v, 16);
    if |d| < w then Zeros(w - |d|) + d else d
  }

  function Pow16(k: nat): nat
  {
    if k == 0 then 1 else 16 * Pow16(k - 1)
  }

  lemma {:induction false} DigitsLength(n: nat, k: nat)
    requires 1 <= k && n < Pow16(k)
    ensures |Digits(n, 16)| <= k
  {
    if n >= 16 {
      DigitsLength(n / 16, k - 1);
    }
  }

  lemma PaddedHexRoundTrip(v: nat, w: nat)
    requires 1 <= w && v < Pow16(w)
    ensures |PaddedHex(v, w)| == w
    ensures forall i :: 0 <= i < w ==> IsDigitChar(PaddedHex(v, w)[i])
    ensures ParseDigits(PaddedHex(v, w), 16) == v
  {
    DigitsLength(v, w);
    var d := Digits(v, 16);
    ParseDigitsRoundTrip(v, 16);
    if |d| < w {
      ParseDigitsLeadingZeros(w - |d|, d, 16);
    }
  }

  /** A 64-bit fingerprint formats to exactly 16 lower-case hex digits, and the
      key reads back to the fingerprint. */
  lemma Hex16RoundTrip(v: nat)
    requires v < Pow16(16)
    ensures |Hex16(v)| == 16
    ensures forall i :: 0 <= i < 16 ==> IsDigitChar(Hex16(v)[i])
    ensures ParseDigits(Hex16(v), 16) == v
  {
    PaddedHexRoundTrip(v, 16);
  }

  lemma DecimalSign(n: int)
    ensures Decimal(n)[0] == '-' <==> n < 0
  {
  }

  /** Different integers print differently. */
  lemma DecimalInjective(a: int, b: int)
    requires Decimal(a) == Decimal(b)
    ensures a == b
  {
    DecimalSign(a);
    DecimalSign(b);
    var ma: nat := if a < 0 then -a else a;
    var mb: nat := if b < 0 then -b else b;
    ParseDigitsRoundTrip(ma, 10);
    ParseDigitsRoundTrip(mb, 10);
    if a < 0 {
      assert Decimal(a)[1..] == Digits(ma, 10);
      assert Decimal(b)[1..] == Digits(mb, 10);
    }
  }
}
