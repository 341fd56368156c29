/**
 * Integer widths and the decimal helpers of the utility library
 * (`xatoi`, `Num8sToStr`, `strcatNum8s`). The library is not part of this
 * model; the functions below state the behaviour assumed of it:
 *   - `xatoi` skips leading spaces, accepts an optional '-', then a maximal
 *     run of decimal digits, and hands back the value (as a 32-bit `long`)
 *     together with the rest of the input; without a digit it fails;
 *   - `Num8sToStr` writes a signed 8-bit value in decimal, '-' first when
 *     negative, without leading zeros.
 */
module Numbers {
  import opened Wrappers
  import opened Bytes

  /** `int8_t`. */
  type Int8 = x: int | -128 <= x < 128

  /** The C conversion `(int8_t)v`: two's-complement wrap-around modulo 256. */
  function ToInt8(v: int): (r: Int8)
    ensures (r - v) % 256 == 0
  {
    (v + 128) % 256 - 128
  }

  /** The C conversion `(uint8_t)v`: wrap-around modulo 256. */
  function ToUint8(v: int): (r: Byte)
    ensures (r - v) % 256 == 0
    ensures 0 <= v < 256 ==> r == v
  {
    v % 256
  }

  /** The C conversion to a 32-bit `long`: two's-complement wrap-around modulo 2^32. */
  function ToInt32(v: int): (r: int)
    ensures -0x8000_0000 <= r < 0x8000_0000
    ensures (r - v) % 0x1_0000_0000 == 0
  {
    (v + 0x8000_0000) % 0x1_0000_0000 - 0x8000_0000
  }

  /** `(int8_t)` leaves an 8-bit value alone. */
  lemma ToInt8Identity(v: Int8)
    ensures ToInt8(v) == v
  {
  }

  /** The conversion to `long` leaves a 32-bit value alone. */
  lemma ToInt32Identity(v: int)
    requires -0x8000_0000 <= v < 0x8000_0000
    ensures ToInt32(v) == v
  {
  }

  lemma ToInt8Periodic(v: int, k: int)
    ensures ToInt8(v + 256 * k) == ToInt8(v)
  {
    var q, r := (v + 128) / 256, (v + 128) % 256;
    assert v + 256 * k + 128 == 256 * (q + k) + r;
  }

  /** Narrowing to `long` first does not change the final `(int8_t)` value. */
  lemma Int8OfInt32(v: int)
    ensures ToInt8(ToInt32(v)) == ToInt8(v)
  {
    var m := (v + 0x8000_0000) / 0x1_0000_0000;
    assert ToInt32(v) == v + 256 * (-0x100_0000 * m);
    ToInt8Periodic(v, -0x100_0000 * m);
  }

  predicate IsDigit(c: Byte) { DIGIT_ZERO <= c <= DIGIT_NINE }

  predicate AllDigits(d: seq<Byte>) {
    forall i | 0 <= i < |d| :: IsDigit(d[i])
  }

  /** The value of a string of decimal digits, most significant first. */
  function DigitsValue(d: seq<Byte>): nat
    requires AllDigits(d)
  {
    if d == [] then 0 else DigitsValue(d[..|d| - 1]) * 10 + (d[|d| - 1] - DIGIT_ZERO)
  }

  /** The decimal digits of `n`, without leading zeros. */
  function NatDigits(n: nat): (d: seq<Byte>)
    ensures 1 <= |d| && AllDigits(d) && DigitsValue(d) == n
  {
    if n < 10 then [DIGIT_ZERO + n]
    else
      var d := NatDigits(n / 10) + [DIGIT_ZERO + n % 10];
      assert d[..|d| - 1] == NatDigits(n / 10);
      d
  }

  /** `Num8sToStr` (and the text `strcatNum8s` appends), for any integer. */
  function DecimalString(v: int): seq<Byte> {
    if v < 0 then [MINUS] + NatDigits(-v) else NatDigits(v)
  }

  /** `n` spaces. */
  function Spaces(n: nat): (s: seq<Byte>)
    ensures |s| == n && forall i | 0 <= i < n :: s[i] == SPACE
  {
    seq(n, _ => SPACE)
  }

  /** The rest of the input after the leading spaces. */
  function SkipSpaces(s: seq<Byte>): (t: seq<Byte>)
    ensures |t| <= |s|
    ensures Head(t) != SPACE
  {
    if s != [] && s[0] == SPACE then SkipSpaces(s[1..]) else s
  }

  /** What `SkipSpaces` leaves is a suffix of its input. */
  lemma {:induction false} SkipSpacesSuffix(s: seq<Byte>)
    ensures SkipSpaces(s) == s[|s| - |SkipSpaces(s)|..]
  {
    if s != [] && s[0] == SPACE {
      SkipSpacesSuffix(s[1..]);
    }
  }

  /** Length of the run of decimal digits that starts the input. */
  function DigitRun(s: seq<Byte>): (n: nat)
    ensures n <= |s| && AllDigits(s[..n])
    ensures n < |s| ==> !IsDigit(s[n])
  {
    if s != [] && IsDigit(s[0]) then
      var n := 1 + DigitRun(s[1..]);
      assert s[..n] == [s[0]] + s[1..][..n - 1];
      n
    else 0
  }

  /** A scanned number and the input that follows it. */
  datatype Scan = Scan(value: int, rest: seq<Byte>)

  /** `xatoi`: read an optionally signed decimal number. */
  function Xatoi(s: seq<Byte>): Option<Scan> {
    ScanNumber(SkipSpaces(s))
  }

  /** The part of `xatoi` after the leading spaces: sign and digits. */
  function ScanNumber(t: seq<Byte>): Option<Scan> {
    var negative := Head(t) == MINUS;
    match ScanMagnitude(if negative then t[1..] else t)
    case None => None
    case Some(m) => Some(Scan(ToInt32(if negative then -m.value else m.value), m.rest))
  }

  /** The value of the maximal run of digits that starts the input, and what follows; `None` without a digit. */
  function ScanMagnitude(u: seq<Byte>): (r: Option<Scan>)
    ensures r.Some? ==> r.value.value >= 0 && |r.value.rest| < |u|
  {
    var n := DigitRun(u);
    if n == 0 then None else Some(Scan(DigitsValue(u[..n]), u[n..]))
  }

  // ---------------------------------------------------------------------
  // Properties of the helpers

  /** A scan succeeds only on a digit, possibly after spaces and a sign, and consumes input. */
  lemma XatoiNeedsDigit(s: seq<Byte>)
    requires Xatoi(s).Some?
    ensures |Xatoi(s).value.rest| < |s|
    ensures var t := SkipSpaces(s); IsDigit(Head(t)) || (Head(t) == MINUS && IsDigit(Head(t[1..])))
  {
  }

  lemma ScanNumberStart(t: seq<Byte>)
    requires ScanNumber(t).Some?
    ensures t != [] && (t[0] == MINUS || IsDigit(t[0]))
  {
    var u := if Head(t) == MINUS then t[1..] else t;
    var n := DigitRun(u);
    assert n > 0;
    if Head(t) != MINUS {
      assert t[..n][0] == t[0];
    }
  }

  /** A scan succeeds only on input that starts with a space, a '-' or a digit. */
  lemma XatoiStart(s: seq<Byte>)
    requires Xatoi(s).Some?
    ensures s != [] && (s[0] == SPACE || s[0] == MINUS || IsDigit(s[0]))
  {
    ScanNumberStart(SkipSpaces(s));
    if s != [] && s[0] != SPACE {
      assert SkipSpaces(s) == s;
    }
  }

  lemma {:induction false} SkipSpacesOver(n: nat, s: seq<Byte>)
    requires Head(s) != SPACE
    ensures SkipSpaces(Spaces(n) + s) == s
  {
    if n > 0 {
      assert (Spaces(n) + s)[1..] == Spaces(n - 1) + s;
      SkipSpacesOver(n - 1, s);
    }
  }

  lemma {:induction false} DigitRunOver(d: seq<Byte>, rest: seq<Byte>)
    requires AllDigits(d) && !IsDigit(Head(rest))
    ensures DigitRun(d + rest) == |d|
  {
    if d != [] {
      assert (d + rest)[1..] == d[1..] + rest;
      DigitRunOver(d[1..], rest);
    }
  }

  lemma NatDigitsLength(n: nat)
    ensures n < 10 ==> |NatDigits(n)| == 1
    ensures n < 100 ==> |NatDigits(n)| <= 2
    ensures n < 1000 ==> |NatDigits(n)| <= 3
  {
    if n >= 10 {
      NatDigitsLength(n / 10);
    }
  }

  /** A signed 8-bit value takes one to four characters, the first a digit or '-'. */
  lemma DecimalInt8Length(v: Int8)
    ensures 1 <= |DecimalString(v)| <= 4
    ensures DecimalString(v)[0] == MINUS || IsDigit(DecimalString(v)[0])
    ensures NoNul(DecimalString(v))
  {
    var w: int := v;
    var m: nat := if w < 0 then -w else w;
    NatDigitsLength(m);
  }

  /**
   * Round trip of the decimal helpers: scanning a number written by
   * `DecimalString`, after any spaces and before a non-digit, gives the
   * number back (as a `long`) and stops right after it.
   */
  lemma ScanNumberDecimal(v: int, rest: seq<Byte>)
    requires !IsDigit(Head(rest))
    ensures ScanNumber(DecimalString(v) + rest) == Some(Scan(ToInt32(v), rest))
  {
    if v < 0 {
      ScanNegativeDecimal(v, rest);
    } else {
      ScanNonNegativeDecimal(v, rest);
    }
  }

  lemma ScanNegativeDecimal(v: int, rest: seq<Byte>)
    requires v < 0 && !IsDigit(Head(rest))
    ensures ScanNumber(DecimalString(v) + rest) == Some(Scan(ToInt32(v), rest))
  {
    var t := DecimalString(v) + rest;
    NegativeDecimalParts(v, rest);
    SignedScan(t, true, -v, v, rest);
  }

  /** A negative number is written as '-' and the digits of its magnitude. */
  lemma NegativeDecimalParts(v: int, rest: seq<Byte>)
    requires v < 0 && !IsDigit(Head(rest))
    ensures var t := DecimalString(v) + rest;
      Head(t) == MINUS && ScanMagnitude(t[1..]) == Some(Scan(-v, rest))
  {
    var d := NatDigits(-v);
    assert DecimalString(v) == [MINUS] + d;
    SignedParts(MINUS, d, rest);
    MagnitudeOver(d, rest);
  }

  lemma SignedParts(sign: Byte, d: seq<Byte>, rest: seq<Byte>)
    ensures var t := ([sign] + d) + rest; Head(t) == sign && t[1..] == d + rest
  {
    var t := ([sign] + d) + rest;
    assert t == [sign] + (d + rest);
  }

  lemma ScanNonNegativeDecimal(v: int, rest: seq<Byte>)
    requires v >= 0 && !IsDigit(Head(rest))
    ensures ScanNumber(DecimalString(v) + rest) == Some(Scan(ToInt32(v), rest))
  {
    var t := DecimalString(v) + rest;
    assert Head(t) != MINUS && ScanMagnitude(t) == Some(Scan(v, rest)) by {
      var d := NatDigits(v);
      MagnitudeOver(d, rest);
      assert t == d + rest && t[0] == d[0];
    }
    SignedScan(t, false, v, v, rest);
  }

  /** The sign test of `xatoi`: after a '-' the magnitude is read from the next byte on and negated. */
  lemma SignedScan(t: seq<Byte>, negative: bool, m: int, v: int, rest: seq<Byte>)
    requires negative <==> Head(t) == MINUS
    requires ScanMagnitude(if negative then t[1..] else t) == Some(Scan(m, rest))
    requires v == if negative then -m else m
    ensures ScanNumber(t) == Some(Scan(ToInt32(v), rest))
  {
  }

  /** Scanning a run of digits gives their value and stops after them. */
  lemma MagnitudeOver(d: seq<Byte>, rest: seq<Byte>)
    requires 1 <= |d| && AllDigits(d) && !IsDigit(Head(rest))
    ensures ScanMagnitude(d + rest) == Some(Scan(DigitsValue(d), rest))
  {
    var u := d + rest;
    DigitRunOver(d, rest);
    assert u[..|d|] == d && u[|d|..] == rest;
  }

  lemma {:induction false} XatoiDecimal(n: nat, v: int, rest: seq<Byte>)
    requires !IsDigit(Head(rest))
    ensures Xatoi(Spaces(n) + (DecimalString(v) + rest)) == Some(Scan(ToInt32(v), rest))
  {
    var body := DecimalString(v) + rest;
    assert Head(body) != SPACE;
    SkipSpacesOver(n, body);
    ScanNumberDecimal(v, rest);
  }

  // ---------------------------------------------------------------------
  // What `xatoi` accepts, and only that

  /** The input starts with a number: a digit, or '-' and a digit. */
  predicate StartsNumber(t: seq<Byte>) {
    IsDigit(Head(t)) || (Head(t) == MINUS && IsDigit(Head(Tail(t))))
  }

  /** The text of a number: an optional '-' and at least one digit. */
  predicate IsNumberText(x: seq<Byte>) {
    if Head(x) == MINUS then 2 <= |x| && AllDigits(x[1..]) else 1 <= |x| && AllDigits(x)
  }

  /** The value a number text denotes. */
  function NumberValue(x: seq<Byte>): int
    requires IsNumberText(x)
  {
    if Head(x) == MINUS then -(DigitsValue(x[1..]) as int) else DigitsValue(x)
  }

  /** The input is its leading spaces followed by what `SkipSpaces` leaves. */
  lemma {:induction false} SkipSpacesSplit(s: seq<Byte>)
    ensures s == Spaces(|s| - |SkipSpaces(s)|) + SkipSpaces(s)
  {
    if s != [] && s[0] == SPACE {
      SkipSpacesSplit(s[1..]);
      assert s == [SPACE] + s[1..];
      assert [SPACE] + Spaces(|s[1..]| - |SkipSpaces(s)|) == Spaces(|s| - |SkipSpaces(s)|);
    } else {
      assert Spaces(0) == [];
    }
  }

  /** Input that starts with a non-space is left as it is. */
  lemma SkipNoSpaces(s: seq<Byte>)
    requires Head(s) != SPACE
    ensures SkipSpaces(s) == s
  {
  }

  /** A successful magnitude scan read a maximal, non-empty run of digits `d`, and its value. */
  lemma ScanMagnitudeSound(u: seq<Byte>) returns (d: seq<Byte>)
    requires ScanMagnitude(u).Some?
    ensures var m := ScanMagnitude(u).value;
      u == d + m.rest && 1 <= |d| && AllDigits(d) && !IsDigit(Head(m.rest)) && m.value == DigitsValue(d)
  {
    d := u[..DigitRun(u)];
    assert u == d + u[DigitRun(u)..];
  }

  /** A successful scan after the spaces read the text `x` of a number, up to a non-digit, and its value as a `long`. */
  lemma ScanNumberSound(t: seq<Byte>) returns (x: seq<Byte>)
    requires ScanNumber(t).Some?
    ensures var r := ScanNumber(t).value;
      t == x + r.rest && IsNumberText(x) && !IsDigit(Head(r.rest)) && r.value == ToInt32(NumberValue(x))
  {
    if Head(t) == MINUS {
      var u := t[1..];
      var d := ScanMagnitudeSound(u);
      x := [MINUS] + d;
      assert x[1..] == d;
      assert t == [MINUS] + u;
      SignedNumberText(t, d, ScanMagnitude(u).value.rest);
    } else {
      x := ScanMagnitudeSound(t);
      assert Head(x) == x[0] == t[0];
    }
  }

  lemma SignedNumberText(t: seq<Byte>, d: seq<Byte>, rest: seq<Byte>)
    requires t == [MINUS] + (d + rest) && 1 <= |d| && AllDigits(d)
    ensures t == ([MINUS] + d) + rest && IsNumberText([MINUS] + d)
    ensures NumberValue([MINUS] + d) == -(DigitsValue(d) as int)
  {
    var x := [MINUS] + d;
    assert Head(x) == MINUS && x[1..] == d;
    assert t == x + rest by {
      AppendAssoc([MINUS], d, rest);
    }
  }

  /**
   * Soundness of the scan: a successful `xatoi` read `n` spaces, then the text
   * `x` of a number up to the first byte that is not a digit, and hands back
   * the value of that text narrowed to a `long`, with the bytes after it.
   */
  lemma XatoiSound(s: seq<Byte>) returns (n: nat, x: seq<Byte>)
    requires Xatoi(s).Some?
    ensures var r := Xatoi(s).value;
      s == Spaces(n) + (x + r.rest) && IsNumberText(x) && !IsDigit(Head(r.rest)) && r.value == ToInt32(NumberValue(x))
  {
    var t := SkipSpaces(s);
    n := |s| - |t|;
    assert s == Spaces(n) + t by {
      SkipSpacesSplit(s);
    }
    x := ScanNumberSound(t);
  }

  /** Completeness of the scan: spaces, a number text and a non-digit scan to the text's value. */
  lemma XatoiNumberText(n: nat, x: seq<Byte>, rest: seq<Byte>)
    requires IsNumberText(x) && !IsDigit(Head(rest))
    ensures Xatoi(Spaces(n) + (x + rest)) == Some(Scan(ToInt32(NumberValue(x)), rest))
  {
    var t := x + rest;
    assert t[0] == x[0];
    SkipSpacesOver(n, t);
    if Head(x) == MINUS {
      assert t[1..] == x[1..] + rest;
      MagnitudeOver(x[1..], rest);
      SignedScan(t, true, DigitsValue(x[1..]), NumberValue(x), rest);
    } else {
      MagnitudeOver(x, rest);
      SignedScan(t, false, DigitsValue(x), NumberValue(x), rest);
    }
  }

  /** Input that starts with a number scans successfully. */
  lemma ScanStartsNumber(t: seq<Byte>)
    requires StartsNumber(t)
    ensures ScanNumber(t).Some?
  {
    var u := if Head(t) == MINUS then t[1..] else t;
    assert IsDigit(Head(u));
  }
}
