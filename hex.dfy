/**
 * Hexadecimal argument parsing, a subset of `std::stol(s, 0, 16)` and
 * `std::stoull(s, 0, 16)`: read the longest run of hex digits at the front
 * of the string and ignore the rest; fail when there is no digit, or when
 * the value does not fit the result type.  Leading whitespace, a sign and
 * an optional "0x" prefix, which the library functions also accept, are not
 * modelled (see "## Left out" in README.md): on "0x10" this model reads 0
 * where `std::stol` reads 16.
 */
module Hex {
  import opened Wrappers

  /** LONG_MAX, the largest value `std::stol` returns on LP64 Linux. */
  const LongMax: nat := 0x7FFF_FFFF_FFFF_FFFF
  /** ULLONG_MAX, the largest value `std::stoull` returns. */
  const ULongLongMax: nat := 0xFFFF_FFFF_FFFF_FFFF

  /** The two exceptions the conversions throw. */
  datatype NumberError = InvalidArgument | OutOfRange

  predicate IsHexDigit(c: char)
  {
    '0' <= c <= '9' || 'a' <= c <= 'f' || 'A' <= c <= 'F'
  }

  predicate AllHexDigits(s: string)
  {
    forall i :: 0 <= i < |s| ==> IsHexDigit(s[i])
  }

  function DigitValue(c: char): (v: nat)
    requires IsHexDigit(c)
    ensures v < 16
  {
    if '0' <= c <= '9' then (c - '0') as nat
    else if 'a' <= c <= 'f' then (c - 'a') as nat + 10
    else (c - 'A') as nat + 10
  }

  /** The lower-case digit for `v`, as `std::hex` prints it. */
  function HexDigit(v: nat): (c: char)
    requires v < 16
    ensures IsHexDigit(c) && DigitValue(c) == v
  {
    if v < 10 then '0' + v as char else 'a' + (v - 10) as char
  }

  /** The value of a string of hex digits, most significant first. */
  function HexValue(ds: string): nat
    requires AllHexDigits(ds)
  {
    if ds == [] then 0
    else 16 * HexValue(ds[..|ds| - 1]) + DigitValue(ds[|ds| - 1])
  }

  /** The length of the run of hex digits at the front of `s`. */
  function DigitRun(s: string): (k: nat)
    ensures k <= |s|
    ensures AllHexDigits(s[..k])
    ensures k < |s| ==> !IsHexDigit(s[k])
  {
    if s == [] || !IsHexDigit(s[0]) then 0
    else
      var k := 1 + DigitRun(s[1..]);
      assert forall i :: 1 <= i < k ==> s[..k][i] == s[1..][..k - 1][i - 1];
      k
  }

  /** `n` in lower-case hex without leading zeros ("0" for zero). */
  function ToHex(n: nat): (s: string)
    ensures |s| >= 1 && AllHexDigits(s)
  {
    if n < 16 then [HexDigit(n)]
    else ToHex(n / 16) + [HexDigit(n % 16)]
  }

  /** Hex digits read back the number that was printed. */
  lemma {:induction false} HexValueOfToHex(n: nat)
    ensures HexValue(ToHex(n)) == n
  {
    var s := ToHex(n);
    if n >= 16 {
      HexValueOfToHex(n / 16);
      assert s[..|s| - 1] == ToHex(n / 16);
    }
  }

  /**
   * The conversion: the digit run at the front of `s` and its value, or
   * `InvalidArgument` when there is none and `OutOfRange` when the value
   * exceeds `max`.
   */
  function ParseHex(s: string, max: nat): (r: Result<nat, NumberError>)
    ensures r == Err(InvalidArgument) <==> s == [] || !IsHexDigit(s[0])
    ensures r.Ok? ==> r.value <= max
  {
    var k := DigitRun(s);
    if k == 0 then Err(InvalidArgument)
    else
      var v := HexValue(s[..k]);
      if v > max then Err(OutOfRange) else Ok(v)
  }

  /** What follows the digit run is ignored. */
  lemma TrailingTextIgnored(ds: string, rest: string, max: nat)
    requires AllHexDigits(ds)
    requires rest == [] || !IsHexDigit(rest[0])
    ensures ParseHex(ds + rest, max) == ParseHex(ds, max)
  {
    var s := ds + rest;
    DigitRunOfDigits(ds, rest);
    assert s[..|ds|] == ds;
    assert ds[..|ds|] == ds;
  }

  /** The digit run of digits followed by a non-digit is exactly those digits. */
  lemma {:induction false} DigitRunOfDigits(ds: string, rest: string)
    requires AllHexDigits(ds)
    requires rest == [] || !IsHexDigit(rest[0])
    ensures DigitRun(ds + rest) == |ds|
    ensures DigitRun(ds) == |ds|
  {
    if ds != [] {
      DigitRunOfDigits(ds[1..], rest);
      assert (ds + rest)[1..] == ds[1..] + rest;
    }
  }

  /** Printing in hex and parsing back gives the number, when it fits. */
  lemma ParseToHex(n: nat, max: nat)
    requires n <= max
    ensures ParseHex(ToHex(n), max) == Ok(n)
  {
    var s := ToHex(n);
    DigitRunOfDigits(s, []);
    assert s + [] == s;
    assert s[..|s|] == s;
    HexValueOfToHex(n);
  }

  /** Printing in hex and parsing back overflows exactly when the number does not fit. */
  lemma ParseToHexTooBig(n: nat, max: nat)
    requires n > max
    ensures ParseHex(ToHex(n), max) == Err(OutOfRange)
  {
    var s := ToHex(n);
    DigitRunOfDigits(s, []);
    assert s + [] == s;
    assert s[..|s|] == s;
    HexValueOfToHex(n);
  }

  /**
   * A whole run of hex digits, in either case, parses to its value when
   * that fits and overflows when it does not.
   */
  lemma ParseDigits(ds: string, max: nat)
    requires ds != [] && AllHexDigits(ds)
    ensures ParseHex(ds, max) == if HexValue(ds) <= max then Ok(HexValue(ds)) else Err(OutOfRange)
  {
    DigitRunOfDigits(ds, []);
    assert ds[..|ds|] == ds;
  }

  /** A zero in front of hex digits does not change their value. */
  lemma {:induction false} HexValueLeadingZero(ds: string)
    requires AllHexDigits(ds)
    ensures AllHexDigits("0" + ds) && HexValue("0" + ds) == HexValue(ds)
    decreases |ds|
  {
    var z := "0" + ds;
    if ds == [] {
      assert z[..0] == [];
    } else {
      HexValueLeadingZero(ds[..|ds| - 1]);
      assert z[..|z| - 1] == "0" + ds[..|ds| - 1];
    }
  }

  /**
   * A leading zero is ignored when a digit follows it: "0ff" reads as "ff",
   * overflow included.  (Without a digit after it, as in "0x10", the zero is
   * the whole run and this model reads 0, where `std::stol` would skip the
   * "0x" and read 16; README.md lists this under "## Left out".)
   */
  lemma LeadingZeroIgnored(s: string, max: nat)
    requires s != [] && IsHexDigit(s[0])
    ensures ParseHex("0" + s, max) == ParseHex(s, max)
  {
    var k := DigitRun(s);
    var z := "0" + s;
    assert z[1..] == s;
    assert DigitRun(z) == k + 1;
    assert z[..k + 1] == "0" + s[..k];
    HexValueLeadingZero(s[..k]);
  }
}
