/** Decimal integers as java.lang.Integer reads and writes them: parseInt
    (optional sign, digits, 32-bit range) and toString. Only the ASCII digits
    '0'..'9' are modelled; parseInt also reads the other Unicode decimal
    digits, which the model does not read. */
module Numbers {
  import opened Wrappers

  const IntMin: int := -0x8000_0000
  const IntMax: int := 0x7fff_ffff

  /** The range of a Java `int`. */
  predicate IsInt32(v: int) {
    IntMin <= v <= IntMax
  }

  predicate IsDigit(c: char) {
    '0' <= c <= '9'
  }

  predicate AllDigits(s: string) {
    forall i :: 0 <= i < |s| ==> IsDigit(s[i])
  }

  function DigitChar(d: nat): (c: char)
    requires d < 10
    ensures IsDigit(c) && DigitValue(c) == d
  {
    ('0' as int + d) as char
  }

  /** The value of one decimal digit. */
  function DigitValue(c: char): (v: nat)
    requires IsDigit(c)
    ensures v < 10
  {
    c as int - '0' as int
  }

  /** The value of a string of decimal digits, most significant first. */
  function DigitsValue(s: string): nat
    requires AllDigits(s)
  {
    if s == [] then 0
    else 10 * DigitsValue(s[..|s| - 1]) + DigitValue(s[|s| - 1])
  }

  /** The shortest decimal spelling of `n`: no leading zero except for 0 itself. */
  function Digits(n: nat): (s: string)
    ensures 1 <= |s| && AllDigits(s)
    ensures |s| > 1 ==> s[0] != '0'
    ensures n < 10 ==> |s| == 1
    ensures n < 100 ==> |s| <= 2
  {
    if n < 10 then [DigitChar(n)] else Digits(n / 10) + [DigitChar(n % 10)]
  }

  lemma {:induction false} DigitsValueOfDigits(n: nat)
    ensures DigitsValue(Digits(n)) == n
  {
    if n >= 10 {
      var s := Digits(n);
      assert s[..|s| - 1] == Digits(n / 10);
      DigitsValueOfDigits(n / 10);
    }
  }

  /** Leading zeros do not change the value. */
  lemma {:induction false} DigitsValueLeadingZeros(z: string, s: string)
    requires AllDigits(s)
    requires forall i :: 0 <= i < |z| ==> z[i] == '0'
    ensures AllDigits(z + s) && DigitsValue(z + s) == DigitsValue(s)
  {
    if s != [] {
      assert (z + s)[..|z + s| - 1] == z + s[..|s| - 1];
      DigitsValueLeadingZeros(z, s[..|s| - 1]);
    } else {
      assert z + s == z;
      ZerosValue(z);
    }
  }

  lemma {:induction false} ZerosValue(z: string)
    requires forall i :: 0 <= i < |z| ==> z[i] == '0'
    ensures AllDigits(z) && DigitsValue(z) == 0
  {
    if z != [] {
      ZerosValue(z[..|z| - 1]);
    }
  }

  /** `k` zero digits. */
  function Zeros(k: nat): (z: string)
    ensures |z| == k && forall i :: 0 <= i < k ==> z[i] == '0'
  {
    if k == 0 then [] else Zeros(k - 1) + ['0']
  }

  /** `n` written with leading zeros up to `width` digits, as a fixed-width
      pattern letter prints it. */
  function PadDigits(n: nat, width: nat): (s: string)
    ensures AllDigits(s) && |s| == if |Digits(n)| < width then width else |Digits(n)|
  {
    var d := Digits(n);
    if |d| < width then Zeros(width - |d|) + d else d
  }

  lemma {:induction false} PadDigitsValue(n: nat, width: nat)
    ensures DigitsValue(PadDigits(n, width)) == n
  {
    DigitsValueOfDigits(n);
    var d := Digits(n);
    if |d| < width {
      DigitsValueLeadingZeros(Zeros(width - |d|), d);
    }
  }

  /** Integer.parseInt(s, 10): an optional '-' or '+', then one or more
      digits, whose value must fit in an `int`; anything else is the
      NumberFormatException, here None. */
  function ParseInt(s: string): (r: Option<int>)
    ensures r.Some? ==> IsInt32(r.value)
    ensures r.Some? ==> s != [] && (IsDigit(s[0]) || s[0] == '-' || s[0] == '+')
  {
    if s == [] then None
    else
      var negative := s[0] == '-';
      var digits := if s[0] == '-' || s[0] == '+' then s[1..] else s;
      if digits == [] || !AllDigits(digits) then None
      else
        var v: int := if negative then 0 - DigitsValue(digits) as int else DigitsValue(digits);
        if IsInt32(v) then Some(v) else None
  }

  /** Integer.toString: a '-' for negative values, then the digits. */
  function Decimal(v: int): (s: string)
    ensures s != [] && (s[0] == '-' || IsDigit(s[0])) && IsDigit(s[|s| - 1])
  {
    if v < 0 then "-" + Digits(-v) else Digits(v)
  }

  /** Parsing what toString wrote gives the value back, for every `int`. */
  lemma {:induction false} ParseIntDecimal(v: int)
    requires IsInt32(v)
    ensures ParseInt(Decimal(v)) == Some(v)
  {
    if v < 0 {
      var d := Digits(-v);
      DigitsValueOfDigits(-v);
      calc {
        ParseInt(Decimal(v));
        ParseInt("-" + d);
        { ParseIntNegative(d); }
        Some(-(DigitsValue(d) as int));
        Some(v);
      }
    } else {
      var d := Digits(v);
      DigitsValueOfDigits(v);
      calc {
        ParseInt(Decimal(v));
        ParseInt(d);
        { ParseIntUnsigned(d); }
        Some(DigitsValue(d) as int);
        Some(v);
      }
    }
  }

  lemma {:induction false} ParseIntUnsigned(d: string)
    requires d != [] && AllDigits(d) && DigitsValue(d) <= IntMax
    ensures ParseInt(d) == Some(DigitsValue(d))
  {
    assert IsDigit(d[0]);
  }

  lemma {:induction false} ParseIntNegative(d: string)
    requires d != [] && AllDigits(d) && DigitsValue(d) <= -IntMin
    ensures ParseInt("-" + d) == Some(-(DigitsValue(d) as int))
  {
    var s := "-" + d;
    assert s[0] == '-' && s[1..] == d;
  }

  lemma {:induction false} ParseIntPlus(d: string)
    requires d != [] && AllDigits(d) && DigitsValue(d) <= IntMax
    ensures ParseInt("+" + d) == Some(DigitsValue(d))
  {
    var s := "+" + d;
    assert s[0] == '+' && s[1..] == d;
  }

  /** Reads the longest run of at most `max` leading digits. */
  function TakeDigits(s: string, max: nat): (r: (string, string))
    ensures |r.0| <= max && AllDigits(r.0)
  {
    if max == 0 || s == [] || !IsDigit(s[0]) then ([], s)
    else
      var tail := TakeDigits(s[1..], max - 1);
      ([s[0]] + tail.0, tail.1)
  }

  /** The run and the remaining text make up the input, and the run stops
      early only at a non-digit. */
  lemma {:induction false} TakeDigitsSplits(s: string, max: nat)
    ensures TakeDigits(s, max).0 + TakeDigits(s, max).1 == s
    ensures |TakeDigits(s, max).0| < max && TakeDigits(s, max).1 != [] ==> !IsDigit(TakeDigits(s, max).1[0])
  {
    if max > 0 && s != [] && IsDigit(s[0]) {
      TakeDigitsSplits(s[1..], max - 1);
      var tail := TakeDigits(s[1..], max - 1);
      assert [s[0]] + tail.0 + tail.1 == [s[0]] + s[1..] == s;
    }
  }

  /** A run of digits followed by a non-digit is read exactly. */
  lemma {:induction false} TakeDigitsOf(ds: string, rest: string, max: nat)
    requires AllDigits(ds) && |ds| <= max
    requires rest == [] || !IsDigit(rest[0])
    ensures TakeDigits(ds + rest, max) == (ds, rest)
  {
    if ds != [] {
      assert (ds + rest)[0] == ds[0] && (ds + rest)[1..] == ds[1..] + rest;
      TakeDigitsOf(ds[1..], rest, max - 1);
      assert [ds[0]] + ds[1..] == ds;
    } else {
      assert ds + rest == rest;
    }
  }
}
