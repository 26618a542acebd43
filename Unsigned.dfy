/** The `%u` conversion as the traffic-light module uses it: `snprintf`
    prints the cycle rate in decimal into the status text, and `sscanf`
    reads a rate back out of a buffer written to the device. Characters
    stand for the bytes of those buffers. */
module Unsigned {

  datatype Option<T> = None | Some(value: T)

  /** An `unsigned int` holds values below 2^32. */
  const UINT_MOD: nat := 0x1_0000_0000

  predicate IsDigit(c: char) { '0' <= c <= '9' }

  /** ASCII white space, which `sscanf` skips before a number. */
  predicate IsSpace(c: char) { c == ' ' || '\t' <= c <= '\r' }

  predicate AllDigits(s: string) { forall i :: 0 <= i < |s| ==> IsDigit(s[i]) }

  function DigitValue(c: char): (d: nat)
    requires IsDigit(c)
    ensures d < 10
  {
    c as int - '0' as int
  }

  function DigitChar(d: nat): (c: char)
    requires d < 10
    ensures IsDigit(c) && DigitValue(c) == d
  {
    ('0' as int + d) as char
  }

  function Pow10(k: nat): (p: nat)
    ensures p >= 1
  {
    if k == 0 then 1 else 10 * Pow10(k - 1)
  }

  /** The decimal text of `n`, without leading zeros: what `%u` prints. */
  function Format(n: nat): (r: string)
    ensures |r| >= 1 && AllDigits(r)
    ensures (r[0] == '0') == (n == 0)
  {
    if n < 10 then [DigitChar(n)] else Format(n / 10) + [DigitChar(n % 10)]
  }

  /** The number a string of decimal digits denotes. */
  function Value(s: string): nat
    requires AllDigits(s)
  {
    if s == [] then 0 else Value(s[..|s| - 1]) * 10 + DigitValue(s[|s| - 1])
  }

  /** The input with its leading white space removed. */
  function SkipSpaces(s: string): (r: string)
    ensures |r| <= |s| && r == s[|s| - |r|..]
    ensures r == [] || !IsSpace(r[0])
  {
    if s != [] && IsSpace(s[0]) then SkipSpaces(s[1..]) else s
  }

  /** The longest prefix of `s` made of digits. */
  function DigitRun(s: string): (r: string)
    ensures r <= s && AllDigits(r)
    ensures |r| == |s| || !IsDigit(s[|r|])
  {
    if s == [] || !IsDigit(s[0]) then [] else [s[0]] + DigitRun(s[1..])
  }

  /** `sscanf(buf, "%u", &v)`: skip white space, read the longest run of
      digits (there must be at least one) and store its value into an
      `unsigned int`, which keeps it modulo 2^32. `None` stands for a
      conversion count other than 1. */
  function ParseUnsigned(buf: string): (r: Option<nat>)
    ensures r.Some? <==> (var t := SkipSpaces(buf); t != [] && IsDigit(t[0]))
    ensures r.Some? ==> r.value < UINT_MOD
  {
    var digits := DigitRun(SkipSpaces(buf));
    if digits == [] then None else Some(Value(digits) % UINT_MOD)
  }

  /** Reading a formatted number back yields the number. */
  lemma {:induction false} ValueOfFormat(n: nat)
    ensures Value(Format(n)) == n
  {
    var r := Format(n);
    if n < 10 {
      assert r[..|r| - 1] == [];
    } else {
      assert r[..|r| - 1] == Format(n / 10);
      ValueOfFormat(n / 10);
    }
  }

  /** A run of digits followed by a non-digit is read exactly. */
  lemma {:induction false} DigitRunOfDigits(d: string, rest: string)
    requires AllDigits(d)
    requires rest == [] || !IsDigit(rest[0])
    ensures DigitRun(d + rest) == d
  {
    if d != [] {
      assert (d + rest)[1..] == d[1..] + rest;
      DigitRunOfDigits(d[1..], rest);
    } else {
      assert d + rest == rest;
    }
  }

  /** Round trip: `sscanf("%u")` of the text `%u` prints, followed by
      anything that is not a digit, gives back the number modulo 2^32. */
  lemma ParseFormat(n: nat, rest: string)
    requires rest == [] || !IsDigit(rest[0])
    ensures ParseUnsigned(Format(n) + rest) == Some(n % UINT_MOD)
  {
    var f := Format(n);
    assert (f + rest)[0] == f[0];
    assert SkipSpaces(f + rest) == f + rest;
    DigitRunOfDigits(f, rest);
    ValueOfFormat(n);
  }

  /** A number below 10^k prints in at most k digits. */
  lemma {:induction false} FormatLength(n: nat, k: nat)
    requires 1 <= k && n < Pow10(k)
    ensures |Format(n)| <= k
  {
    if n >= 10 {
      assert k >= 2 && Pow10(k) == 10 * Pow10(k - 1);
      assert n / 10 < Pow10(k - 1);
      FormatLength(n / 10, k - 1);
    }
  }

  /** An `unsigned int` prints in at most ten digits. */
  lemma FormatLengthUint(n: nat)
    requires n < UINT_MOD
    ensures |Format(n)| <= 10
  {
    assert Pow10(10) == 10000000000;
    FormatLength(n, 10);
  }
}
