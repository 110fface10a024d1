/**
 * Python's `int(s, 16)` on a segment of a filename: an optional sign `+` or
 * `-` followed by one or more ASCII hexadecimal digits in either case.
 * `ToHex` writes a number the way the filename convention does (lower-case,
 * no sign, no prefix) and is the partner `ParseHex` inverts.
 *
 * Python also accepts a `0x` prefix, surrounding whitespace, single `_`
 * between digits and non-ASCII decimal digits; such segments are rejected
 * here (see README, "Left out").
 */
module Hex {
  import opened Wrappers

  predicate IsHexDigit(c: char)
  {
    '0' <= c <= '9' || 'a' <= c <= 'f' || 'A' <= c <= 'F'
  }

  /** The value of one hexadecimal digit; upper and lower case agree. */
  function DigitValue(c: char): (d: nat)
    requires IsHexDigit(c)
    ensures d < 16
  {
    if '0' <= c <= '9' then c as int - '0' as int
    else if 'a' <= c <= 'f' then c as int - 'a' as int + 10
    else c as int - 'A' as int + 10
  }

  /** An unsigned number: a non-empty run of hex digits. */
  predicate IsHexString(s: string)
  {
    |s| > 0 && forall i :: 0 <= i < |s| ==> IsHexDigit(s[i])
  }

  /** The base-16 value of a run of hex digits, most significant first. */
  function Value(s: string): (v: nat)
    requires forall i :: 0 <= i < |s| ==> IsHexDigit(s[i])
  {
    if |s| == 0 then 0 else Value(s[..|s| - 1]) * 16 + DigitValue(s[|s| - 1])
  }

  /**
   * `int(s, 16)`: the value, or `None` where Python raises `ValueError`.
   * A result is negative only for a leading `-`, and a run of digits alone
   * is read as its unsigned value.
   */
  function ParseHex(s: string): (r: Option<int>)
    ensures r.Some? ==> |s| > 0
    ensures r.Some? && r.value < 0 ==> s[0] == '-'
    ensures '-' !in s ==> (r.Some? ==> r.value >= 0)
    ensures IsHexString(s) ==> r == Some(Value(s))
    ensures |s| > 0 && s[0] == '-' && IsHexString(s[1..]) ==> r == Some(-(Value(s[1..]) as int))
  {
    if IsHexString(s) then Some(Value(s))
    else if |s| > 0 && s[0] in "+-" && IsHexString(s[1..]) then
      if s[0] == '-' then Some(-(Value(s[1..]) as int)) else Some(Value(s[1..]))
    else None
  }

  /** The lower-case digit for a value below 16. */
  function HexDigit(d: nat): (c: char)
    requires d < 16
    ensures IsHexDigit(c) && DigitValue(c) == d
    ensures !('A' <= c <= 'F')
  {
    if d < 10 then ('0' as int + d) as char else ('a' as int + d - 10) as char
  }

  /** `format(n, 'x')`: lower-case hex without leading zeros; parsing it gives `n` back. */
  function ToHex(n: nat): (s: string)
    ensures IsHexString(s) && Value(s) == n
    ensures ParseHex(s) == Some(n)
  {
    if n < 16 then [HexDigit(n)]
    else
      var s := ToHex(n / 16) + [HexDigit(n % 16)];
      assert s[..|s| - 1] == ToHex(n / 16);
      s
  }

  /** A sign before any run of hex digits, as `int('-1f', 16) == -0x1f` and `int('+0023', 16) == 0x23`. */
  lemma SignedValues(h: string)
    requires IsHexString(h)
    ensures ParseHex("-" + h) == Some(-(Value(h) as int))
    ensures ParseHex("+" + h) == Some(Value(h) as int)
  {
    assert ("-" + h)[1..] == h && ("+" + h)[1..] == h;
    assert !IsHexString("-" + h) by { assert !IsHexDigit(("-" + h)[0]); }
    assert !IsHexString("+" + h) by { assert !IsHexDigit(("+" + h)[0]); }
  }

  /** Leading zeros do not change the value: "0023" and "23" both give 0x23. */
  lemma {:induction false} LeadingZeros(z: string, s: string)
    requires forall i :: 0 <= i < |z| ==> z[i] == '0'
    requires IsHexString(s)
    ensures ParseHex(z + s) == ParseHex(s)
  {
    var zs := z + s;
    assert IsHexString(zs) by {
      forall i | 0 <= i < |zs| ensures IsHexDigit(zs[i]) {
        if i < |z| { assert zs[i] == z[i]; } else { assert zs[i] == s[i - |z|]; }
      }
    }
    ValueLeadingZeros(z, s);
  }

  lemma {:induction false} ValueLeadingZeros(z: string, s: string)
    requires forall i :: 0 <= i < |z| ==> z[i] == '0'
    requires forall i :: 0 <= i < |s| ==> IsHexDigit(s[i])
    ensures forall i :: 0 <= i < |z + s| ==> IsHexDigit((z + s)[i])
    ensures Value(z + s) == Value(s)
  {
    if |s| == 0 {
      assert z + s == z;
      ValueOfZeros(z);
    } else {
      var s' := s[..|s| - 1];
      assert (z + s)[..|z + s| - 1] == z + s';
      ValueLeadingZeros(z, s');
    }
  }

  lemma {:induction false} ValueOfZeros(z: string)
    requires forall i :: 0 <= i < |z| ==> z[i] == '0'
    ensures Value(z) == 0
  {
    if |z| > 0 {
      ValueOfZeros(z[..|z| - 1]);
    }
  }
}
