/**
 The integer conversion inside `read_integer`: parsing a signed base-10
 `i64` and the `as i32` cast; plus the canonical decimal text of an
 integer, used as the inverse of the parse.
 */
module Decimal {
  import opened Io
  import Utf8

  const I64Min: int := -0x8000_0000_0000_0000
  const I64Max: int := 0x7fff_ffff_ffff_ffff

  const Zero: byte := 48
  const Plus: byte := 43
  const Minus: byte := 45

  predicate IsDigit(b: byte) {
    Zero <= b <= Zero + 9
  }

  predicate AllDigits(d: seq<byte>) {
    forall i :: 0 <= i < |d| ==> IsDigit(d[i])
  }

  /** The value of a string of decimal digits, most significant first. */
  function DigitsValue(d: seq<byte>): (n: nat)
    requires AllDigits(d)
  {
    if |d| == 0 then 0 else DigitsValue(d[..|d| - 1]) * 10 + (d[|d| - 1] - Zero)
  }

  /** Rust's `str::parse::<i64>`: an optional sign, at least one digit, and a value inside `i64`. */
  function ParseI64(t: seq<byte>): (r: Option<int>)
    ensures r.Some? ==> I64Min <= r.value <= I64Max
    ensures r.Some? ==> |t| > 0 && (t[0] == Plus || t[0] == Minus || IsDigit(t[0]))
    ensures r.Some? ==> forall i :: 1 <= i < |t| ==> IsDigit(t[i])
    ensures r.Some? ==> IsDigit(t[|t| - 1])
  {
    if |t| == 0 then None
    else
      var neg := t[0] == Minus;
      var d := if t[0] == Plus || t[0] == Minus then t[1..] else t;
      if |d| == 0 || !AllDigits(d) then None
      else
        var m: int := DigitsValue(d);
        var v := if neg then -m else m;
        if I64Min <= v <= I64Max then Some(v) else None
  }

  /** `v as i32`: keeps the low 32 bits, read as two's complement. */
  function Wrap32(v: int): (r: i32)
    ensures (r - v) % 0x1_0000_0000 == 0
    ensures -0x8000_0000 <= v <= 0x7fff_ffff ==> r == v
  {
    (v + 0x8000_0000) % 0x1_0000_0000 - 0x8000_0000
  }

  /** `as i32` sends every multiple of 2^32 to 0. */
  lemma Wrap32Multiple(n: int)
    requires n % 0x1_0000_0000 == 0
    ensures Wrap32(n) == 0
  {
    var q := n / 0x1_0000_0000;
    assert n + 0x8000_0000 == q * 0x1_0000_0000 + 0x8000_0000;
    assert (n + 0x8000_0000) / 0x1_0000_0000 == q;
  }

  /** The shortest decimal digits of `n`. */
  function Digits(n: nat): (d: seq<byte>)
    ensures |d| > 0 && AllDigits(d)
  {
    if n < 10 then [Zero + n] else Digits(n / 10) + [Zero + n % 10]
  }

  /** The decimal text of `n`, as Rust's `to_string` writes it. */
  function DecimalText(n: int): (t: seq<byte>)
    ensures |t| > 0
  {
    if n < 0 then [Minus] + Digits(-n) else Digits(n)
  }

  lemma {:induction false} DigitsValueOfDigits(n: nat)
    ensures DigitsValue(Digits(n)) == n
  {
    if n >= 10 {
      var d := Digits(n);
      assert d[..|d| - 1] == Digits(n / 10);
      DigitsValueOfDigits(n / 10);
    }
  }

  /** Parsing the decimal text of any `i64` gives it back. */
  lemma ParseDecimalText(n: int)
    requires I64Min <= n <= I64Max
    ensures ParseI64(DecimalText(n)) == Some(n)
  {
    if n < 0 {
      DigitsValueOfDigits(-n);
      ParseSigned(Minus, Digits(-n));
    } else {
      DigitsValueOfDigits(n);
      ParseSignedDigits(Digits(n));
    }
  }

  /** The decimal text of an integer has no whitespace at either end, so `trim` leaves it alone. */
  lemma TrimDecimalText(n: int)
    ensures Utf8.SpaceLen(DecimalText(n)) == 0 && Utf8.SpaceLenEnd(DecimalText(n)) == 0
    ensures Utf8.Trim(DecimalText(n)) == DecimalText(n)
  {
    var t := DecimalText(n);
    assert t[0] == Minus || IsDigit(t[0]);
    assert IsDigit(t[|t| - 1]);
    assert Utf8.SpaceLen(t) == 0 && Utf8.SpaceLenEnd(t) == 0;
  }

  /** The decimal text holds only ASCII digits and a leading minus sign. */
  lemma DecimalTextShape(n: int)
    ensures Utf8.IsAscii(DecimalText(n))
    ensures forall i :: 0 <= i < |DecimalText(n)| ==> DecimalText(n)[i] != CR
  {
  }

  /**
   The converse of `ParseI64`'s contract: a run of digits, bare or after
   a sign, parses to its value with that sign whenever that value fits in
   `i64`, and fails otherwise. A `+` changes nothing.
   */
  lemma ParseSignedDigits(d: seq<byte>)
    requires |d| > 0 && AllDigits(d)
    ensures ParseI64(d) == (if DigitsValue(d) <= I64Max then Some(DigitsValue(d)) else None)
    ensures ParseI64([Plus] + d) == ParseI64(d)
    ensures ParseI64([Minus] + d) == (if DigitsValue(d) <= -I64Min then Some(-(DigitsValue(d) as int)) else None)
  {
    ParseSigned(Plus, d);
    ParseSigned(Minus, d);
  }

  /** One sign in front of a run of digits. */
  lemma ParseSigned(sign: byte, d: seq<byte>)
    requires sign == Plus || sign == Minus
    requires |d| > 0 && AllDigits(d)
    ensures ParseI64([sign] + d) == (
      if sign == Minus then (if DigitsValue(d) <= -I64Min then Some(-(DigitsValue(d) as int)) else None)
      else if DigitsValue(d) <= I64Max then Some(DigitsValue(d)) else None)
  {
    assert ([sign] + d)[1..] == d;
  }

  /** A sign on its own is not a number, nor is the empty text. */
  lemma ParseNoDigits()
    ensures ParseI64([]).None? && ParseI64([Plus]).None? && ParseI64([Minus]).None?
  {
  }

  /** `k` ASCII zeros. */
  function Zeros(k: nat): (z: seq<byte>)
    ensures |z| == k && AllDigits(z)
  {
    if k == 0 then [] else Zeros(k - 1) + [Zero]
  }

  lemma {:induction false} ZerosValue(k: nat)
    ensures DigitsValue(Zeros(k)) == 0
  {
    if k > 0 {
      assert Zeros(k)[..k - 1] == Zeros(k - 1);
      ZerosValue(k - 1);
    }
  }

  /** Leading zeros do not change the value of a run of digits. */
  lemma {:induction false} LeadingZerosValue(k: nat, d: seq<byte>)
    requires AllDigits(d)
    decreases |d|
    ensures AllDigits(Zeros(k) + d) && DigitsValue(Zeros(k) + d) == DigitsValue(d)
  {
    var z := Zeros(k);
    if |d| == 0 {
      assert z + d == z;
      ZerosValue(k);
    } else {
      var s := z + d;
      assert s[..|s| - 1] == z + d[..|d| - 1];
      assert s[|s| - 1] == d[|d| - 1];
      LeadingZerosValue(k, d[..|d| - 1]);
    }
  }

  /** Leading zeros, after an optional sign, do not change what `parse::<i64>` gives. */
  lemma ParseLeadingZeros(k: nat, d: seq<byte>)
    requires |d| > 0 && AllDigits(d)
    ensures ParseI64(Zeros(k) + d) == ParseI64(d)
    ensures ParseI64([Plus] + (Zeros(k) + d)) == ParseI64(d)
    ensures ParseI64([Minus] + (Zeros(k) + d)) == ParseI64([Minus] + d)
  {
    LeadingZerosValue(k, d);
    ParseSignedDigits(d);
    ParseSignedDigits(Zeros(k) + d);
  }
}
