/** The C library primitives the connector leans on, stated over `seq<char>`:
    the characters a NUL-terminated buffer holds, `strstr`, `strtoul` in base
    10 and the `%u` conversion of `printf`. */
module CStrings {
  import opened Wrappers

  /** `unsigned long` on the LP64 targets the simulator runs on. */
  const UlongModulus: nat := 0x1_0000_0000_0000_0000
  const UlongMax: nat := UlongModulus - 1
  /** `uint32_t` and `unsigned`. */
  const U32Modulus: nat := 0x1_0000_0000

  /** Conversion of a non-negative value to `uint32_t`: reduction modulo 2^32. */
  function U32(x: nat): (r: nat)
    ensures r < U32Modulus
    ensures x < U32Modulus ==> r == x
    ensures (x - r) % U32Modulus == 0
  {
    if x < U32Modulus then x else x % U32Modulus
  }

  /** The characters a C string stored in `s` holds: everything before the
      first NUL (all of `s` when it has none). */
  function CString(s: seq<char>): (r: seq<char>)
    ensures r <= s
    ensures '\0' !in r
    ensures |r| < |s| ==> s[|r|] == '\0'
    ensures '\0' !in s ==> r == s
  {
    if |s| == 0 || s[0] == '\0' then [] else [s[0]] + CString(s[1..])
  }

  // ---------------------------------------------------------------- strstr

  predicate OccursAt(s: seq<char>, pat: seq<char>, i: nat)
  {
    i + |pat| <= |s| && s[i..i + |pat|] == pat
  }

  /** `pat` does not occur in `s` at or after `from`. */
  ghost predicate NoOccurrence(s: seq<char>, pat: seq<char>, from: nat)
  {
    forall j: nat :: from <= j ==> !OccursAt(s, pat, j)
  }

  /** `at` is the leftmost occurrence of `pat` in `s` at or after `from`. */
  ghost predicate FirstOccurrence(s: seq<char>, pat: seq<char>, from: nat, at: nat)
  {
    from <= at && OccursAt(s, pat, at)
    && forall j: nat :: from <= j < at ==> !OccursAt(s, pat, j)
  }

  lemma FirstOccurrenceUnique(s: seq<char>, pat: seq<char>, from: nat, a: nat, b: nat)
    requires FirstOccurrence(s, pat, from, a) && FirstOccurrence(s, pat, from, b)
    ensures a == b
  {
  }

  lemma MismatchAt(s: seq<char>, pat: seq<char>, i: nat)
    requires 0 < |pat| && i < |s| && s[i] != pat[0]
    ensures !OccursAt(s, pat, i)
  {
    if i + |pat| <= |s| {
      assert s[i..i + |pat|][0] == s[i];
    }
  }

  /** `strstr(s + from, pat)`, as an offset into `s`. */
  function Find(s: seq<char>, pat: seq<char>, from: nat): (r: Option<nat>)
    ensures r.Some? <==> !NoOccurrence(s, pat, from)
    ensures r.Some? ==> FirstOccurrence(s, pat, from, r.value)
    decreases |s| + 1 - from
  {
    if from + |pat| > |s| then None
    else if s[from..from + |pat|] == pat then assert OccursAt(s, pat, from); Some(from)
    else Find(s, pat, from + 1)
  }

  /** `strstr` finds the leftmost occurrence, whichever it is. */
  lemma FindFirst(s: seq<char>, pat: seq<char>, from: nat, at: nat)
    requires FirstOccurrence(s, pat, from, at)
    ensures Find(s, pat, from) == Some(at)
  {
    FirstOccurrenceUnique(s, pat, from, at, Find(s, pat, from).value);
  }

  /** `strstr(s, pat) != NULL`. */
  predicate Contains(s: seq<char>, pat: seq<char>)
  {
    Find(s, pat, 0).Some?
  }

  // --------------------------------------------------------------- strtoul

  predicate IsDigit(c: char)
  {
    '0' <= c <= '9'
  }

  predicate AllDigits(d: seq<char>)
  {
    forall i :: 0 <= i < |d| ==> IsDigit(d[i])
  }

  /** The characters `isspace` accepts in the C locale. */
  predicate IsSpace(c: char)
  {
    c == ' ' || c == '\t' || c == '\n' || c as int == 11 || c as int == 12 || c == '\r'
  }

  function DigitValue(c: char): nat
    requires IsDigit(c)
  {
    (c as int) - ('0' as int)
  }

  function DigitChar(n: nat): (c: char)
    requires n < 10
    ensures IsDigit(c) && DigitValue(c) == n
  {
    ('0' as int + n) as char
  }

  /** The longest run of decimal digits `s` starts with. */
  function DigitPrefix(s: seq<char>): (r: seq<char>)
    ensures r <= s && AllDigits(r)
    ensures |r| < |s| ==> !IsDigit(s[|r|])
  {
    if |s| == 0 || !IsDigit(s[0]) then [] else [s[0]] + DigitPrefix(s[1..])
  }

  /** The number a run of decimal digits spells, most significant first. */
  function DigitsValue(d: seq<char>): nat
    requires AllDigits(d)
  {
    if |d| == 0 then 0 else 10 * DigitsValue(d[..|d| - 1]) + DigitValue(d[|d| - 1])
  }

  function SkipSpace(s: seq<char>): (r: seq<char>)
    ensures |r| <= |s| && r == s[|s| - |r|..]
    ensures |r| > 0 ==> !IsSpace(r[0])
    ensures forall i :: 0 <= i < |s| - |r| ==> IsSpace(s[i])
  {
    if |s| > 0 && IsSpace(s[0]) then SkipSpace(s[1..]) else s
  }

  /** The value of the digits `u` starts with (0 when there are none). */
  function Magnitude(u: seq<char>): nat
  {
    DigitsValue(DigitPrefix(u))
  }

  /** An out-of-range magnitude reads as `ULONG_MAX`. */
  function Saturate(m: nat): (r: nat)
    ensures r <= UlongMax
  {
    if m > UlongMax then UlongMax else m
  }

  /** A minus sign negates an in-range magnitude modulo 2^64. */
  function Negate(m: nat): (r: nat)
    ensures r <= UlongMax
    ensures m == 0 ==> r == 0
    ensures 0 < m <= UlongMax ==> r == UlongModulus - m && r + m == UlongModulus
  {
    if m > UlongMax then UlongMax else (UlongModulus - m) % UlongModulus
  }

  /** `strtoul(s, NULL, 10)`: leading white space, an optional sign, then
      digits; no digits reads as 0. */
  function StrToUL(s: seq<char>): (r: nat)
    ensures r <= UlongMax
  {
    var t := SkipSpace(s);
    if |t| > 0 && t[0] == '-' then Negate(Magnitude(t[1..]))
    else if |t| > 0 && t[0] == '+' then Saturate(Magnitude(t[1..]))
    else Saturate(Magnitude(t))
  }

  // ------------------------------------------------------------ %u format

  /** The `%u` conversion: decimal digits without leading zeros. */
  function Decimal(n: nat): (r: seq<char>)
    ensures |r| >= 1 && AllDigits(r)
    ensures n > 0 ==> r[0] != '0'
  {
    if n < 10 then [DigitChar(n)] else Decimal(n / 10) + [DigitChar(n % 10)]
  }

  /** Reading back what `%u` printed gives the number printed. */
  lemma {:induction false} DecimalRoundTrip(n: nat)
    ensures DigitsValue(Decimal(n)) == n
  {
    if n >= 10 {
      DecimalRoundTrip(n / 10);
      var d := Decimal(n);
      assert d[..|d| - 1] == Decimal(n / 10);
    }
  }

  /** 10 to the power k. */
  function Pow10(k: nat): (r: nat)
    ensures r >= 1
  {
    if k == 0 then 1 else 10 * Pow10(k - 1)
  }

  /** `%u` prints a number below 10^k in at most k digits. */
  lemma {:induction false} DecimalLength(n: nat, k: nat)
    requires 1 <= k && n < Pow10(k)
    ensures |Decimal(n)| <= k
  {
    if n >= 10 {
      DecimalLength(n / 10, k - 1);
    }
  }

  lemma {:induction false} DigitPrefixOfDigits(d: seq<char>, rest: seq<char>)
    requires AllDigits(d)
    requires |rest| == 0 || !IsDigit(rest[0])
    ensures DigitPrefix(d + rest) == d
  {
    if |d| > 0 {
      assert (d + rest)[1..] == d[1..] + rest;
      DigitPrefixOfDigits(d[1..], rest);
    } else {
      assert d + rest == rest;
    }
  }

  /** `strtoul` reads a leading digit run and stops at the first non-digit. */
  lemma StrToULDigits(d: seq<char>, rest: seq<char>)
    requires |d| >= 1 && AllDigits(d)
    requires |rest| == 0 || !IsDigit(rest[0])
    ensures StrToUL(d + rest) == Saturate(DigitsValue(d))
  {
    var s := d + rest;
    assert s[0] == d[0];
    UnsignedStrToUL(s);
    DigitPrefixOfDigits(d, rest);
  }

  /** Text that starts with a digit has no white space or sign to skip. */
  lemma UnsignedStrToUL(s: seq<char>)
    requires |s| > 0 && IsDigit(s[0])
    ensures StrToUL(s) == Saturate(Magnitude(s))
  {
    assert !IsSpace(s[0]);
    assert SkipSpace(s) == s;
  }

  /** Leading white space is skipped. */
  lemma StrToULSkipsSpace(c: char, s: seq<char>)
    requires IsSpace(c)
    ensures StrToUL([c] + s) == StrToUL(s)
  {
    assert ([c] + s)[1..] == s;
  }

  /** White space followed by nothing, or by a character that is neither a
      sign nor a digit, reads as 0. */
  lemma {:induction false} StrToULNoDigits(ws: seq<char>, rest: seq<char>)
    requires forall i :: 0 <= i < |ws| ==> IsSpace(ws[i])
    requires |rest| == 0 || (!IsSpace(rest[0]) && !IsDigit(rest[0]) && rest[0] != '-' && rest[0] != '+')
    ensures StrToUL(ws + rest) == 0
    decreases |ws|
  {
    if |ws| == 0 {
      assert ws + rest == rest;
      NoDigitsAtStart(rest);
    } else {
      var tail := ws[1..] + rest;
      assert ws + rest == [ws[0]] + tail;
      StrToULSkipsSpace(ws[0], tail);
      StrToULNoDigits(ws[1..], rest);
    }
  }

  /** A sign with no digit after it reads as 0. */
  lemma StrToULSignNoDigits(sign: char, rest: seq<char>)
    requires sign == '-' || sign == '+'
    requires |rest| == 0 || !IsDigit(rest[0])
    ensures StrToUL([sign] + rest) == 0
  {
    var s := [sign] + rest;
    assert s[1..] == rest;
    SignedStrToUL(s);
    assert DigitPrefix(rest) == [];
    assert Magnitude(rest) == 0;
  }

  lemma NoDigitsAtStart(s: seq<char>)
    requires |s| == 0 || (!IsSpace(s[0]) && !IsDigit(s[0]) && s[0] != '-' && s[0] != '+')
    ensures StrToUL(s) == 0
  {
    assert SkipSpace(s) == s;
    assert DigitPrefix(s) == [];
    assert Magnitude(s) == 0;
  }

  /** A minus sign before a digit run negates the magnitude modulo 2^64: a
      nonzero value in range reads as 2^64 minus that value, and a run too
      long for 64 bits still saturates to `ULONG_MAX`. */
  lemma StrToULNegative(d: seq<char>, rest: seq<char>)
    requires |d| >= 1 && AllDigits(d)
    requires |rest| == 0 || !IsDigit(rest[0])
    ensures StrToUL(['-'] + (d + rest)) == Negate(DigitsValue(d))
    ensures 0 < DigitsValue(d) <= UlongMax ==> StrToUL(['-'] + (d + rest)) == UlongModulus - DigitsValue(d)
    ensures DigitsValue(d) > UlongMax ==> StrToUL(['-'] + (d + rest)) == UlongMax
  {
    var t := d + rest;
    var s := ['-'] + t;
    assert s[1..] == t;
    SignedStrToUL(s);
    MagnitudeOfDigits(d, rest);
  }

  /** A plus sign before a digit run changes nothing. */
  lemma StrToULPlus(d: seq<char>, rest: seq<char>)
    requires |d| >= 1 && AllDigits(d)
    requires |rest| == 0 || !IsDigit(rest[0])
    ensures StrToUL(['+'] + (d + rest)) == Saturate(DigitsValue(d))
  {
    var t := d + rest;
    var s := ['+'] + t;
    assert s[1..] == t;
    SignedStrToUL(s);
    MagnitudeOfDigits(d, rest);
  }

  /** The magnitude of a digit run followed by a non-digit is the run's value. */
  lemma MagnitudeOfDigits(d: seq<char>, rest: seq<char>)
    requires AllDigits(d)
    requires |rest| == 0 || !IsDigit(rest[0])
    ensures Magnitude(d + rest) == DigitsValue(d)
  {
    DigitPrefixOfDigits(d, rest);
  }

  /** Text that starts with a sign has no white space to skip. */
  lemma SignedStrToUL(s: seq<char>)
    requires |s| > 0 && (s[0] == '-' || s[0] == '+')
    ensures s[0] == '-' ==> StrToUL(s) == Negate(Magnitude(s[1..]))
    ensures s[0] == '+' ==> StrToUL(s) == Saturate(Magnitude(s[1..]))
  {
    assert !IsSpace(s[0]);
    assert SkipSpace(s) == s;
  }

  /** `strtoul` reads back a `%u` field that is followed by a non-digit. */
  lemma DecimalStrToUL(n: nat, rest: seq<char>)
    requires n <= UlongMax
    requires |rest| == 0 || !IsDigit(rest[0])
    ensures StrToUL(Decimal(n) + rest) == n
  {
    StrToULDigits(Decimal(n), rest);
    DecimalRoundTrip(n);
  }
}
