/**
 Reading and writing integers.  The reader accumulates modulo the width of the type
 and finds out from the number of digits, and from the top bit, whether it
 overflowed.
 */
module Integers {
  import opened Common
  import opened XmlText

  datatype Width = Bits16 | Bits32 | Bits64

  /** The number of values of the unsigned type. */
  function Modulus(w: Width): nat {
    match w
    case Bits16 => 0x1_0000
    case Bits32 => 0x1_0000_0000
    case Bits64 => 0x1_0000_0000_0000_0000
  }

  function Wrap(w: Width, v: int): nat {
    match w
    case Bits16 => v % 0x1_0000
    case Bits32 => Wrap32(v)
    case Bits64 => v % 0x1_0000_0000_0000_0000
  }

  /** Half the modulus: what the top bit stands for. */
  function Half(w: Width): nat {
    match w
    case Bits16 => 0x8000
    case Bits32 => 0x8000_0000
    case Bits64 => 0x8000_0000_0000_0000
  }

  function MaxDigits(w: Width): nat {
    match w
    case Bits16 => 5
    case Bits32 => 10
    case Bits64 => 20
  }

  function MaxLead(w: Width): char {
    match w
    case Bits16 => '6'
    case Bits32 => '4'
    case Bits64 => '1'
  }

  function HexDigits(w: Width): nat {
    match w
    case Bits16 => 4
    case Bits32 => 8
    case Bits64 => 16
  }

  // The number that a text stands for, without any limit

  predicate IsHexPrefix(s: string) {
    |s| >= 2 && s[0] == '0' && (s[1] == 'x' || s[1] == 'X')
  }

  function Magnitude(s: string): nat {
    if IsHexPrefix(s) then Value(s[2..DigitsEnd(s, 2, true)], true) else Value(s[..DigitsEnd(s, 0, false)], false)
  }

  function Signed(s: string): int {
    if s != "" && s[0] == '-' then -(Magnitude(s[1..]) as int)
    else if s != "" && s[0] == '+' then Magnitude(s[1..])
    else Magnitude(s)
  }

  function Denoted(text: string): int {
    Signed(text[SpaceRun(text)..])
  }

  function Clamp(v: int, lo: int, hi: int): int
    requires lo <= hi
  {
    if v < lo then lo else if v > hi then hi else v
  }

  // How many digits a number has

  function Power(b: nat, n: nat): (p: nat) {
    if n == 0 then 1 else b * Power(b, n - 1)
  }

  lemma {:induction false} ValueBounds(s: string, hex: bool)
    requires forall i :: 0 <= i < |s| ==> IsDigit(s[i], hex)
    ensures Value(s, hex) < Power(Base(hex), |s|)
    ensures s != "" ==> DigitValue(s[0]) * Power(Base(hex), |s| - 1) <= Value(s, hex)
    ensures s != "" ==> Value(s, hex) < (DigitValue(s[0]) + 1) * Power(Base(hex), |s| - 1)
  {
    if |s| == 1 {
      assert s[..0] == "";
      assert Value(s, hex) == DigitValue(s[0]);
    } else if |s| > 1 {
      var front, last := s[..|s| - 1], s[|s| - 1];
      assert IsDigit(last, hex);
      ValueBounds(front, hex);
      var b, p, d, v, n := Base(hex), Power(Base(hex), |s| - 2), DigitValue(s[0]), Value(front, hex), DigitValue(last);
      assert n < b;
      Scaled(b, p, d, v, n);
      assert Power(b, |s| - 1) == b * p && Power(b, |s|) == b * (b * p);
      Scaled(b, b * p, 0, v, n);
    }
  }

  lemma Scaled(b: nat, p: nat, d: nat, v: nat, n: nat)
    requires n < b && (b == 10 || b == 16)
    ensures d * p <= v ==> d * (b * p) <= b * v + n
    ensures v < (d + 1) * p ==> b * v + n < (d + 1) * (b * p)
    ensures v < p ==> b * v + n < b * p
  {
    Regrouped(d, b, p);
    Regrouped(d + 1, b, p);
  }

  lemma Regrouped(d: nat, b: nat, p: nat)
    ensures d * (b * p) == b * (d * p)
  {
  }

  lemma {:induction false} PowerGrows(b: nat, m: nat, n: nat)
    requires m <= n && (b == 10 || b == 16)
    ensures 0 < Power(b, m) <= Power(b, n)
    decreases n
  {
    if m < n {
      PowerGrows(b, m, n - 1);
    } else if m > 0 {
      PowerGrows(b, m - 1, n - 1);
    }
  }

  lemma Powers()
    ensures Power(10, 4) == 10000
    ensures Power(10, 9) == 10_0000_0000
    ensures Power(10, 19) == 1000_0000_0000_0000_0000
    ensures Power(16, 4) == 0x1_0000
    ensures Power(16, 8) == 0x1_0000_0000
    ensures Power(16, 16) == 0x1_0000_0000_0000_0000
  {
  }

  /** The test for overflow after reading the digits s, which have been accumulated to result. */
  predicate DecimalOverflow(w: Width, s: string, result: nat) {
    |s| >= MaxDigits(w) &&
    !(|s| == MaxDigits(w) && (s[0] < MaxLead(w) || (s[0] == MaxLead(w) && result >= Half(w))))
  }

  /** The test is right for digits without leading zeros, although the accumulated number has wrapped around. */
  lemma OverflowFound(w: Width, s: string)
    requires (forall i :: 0 <= i < |s| ==> IsDigit(s[i], false)) && (s != "" ==> s[0] != '0')
    ensures DecimalOverflow(w, s, Wrap(w, Value(s, false))) <==> Value(s, false) >= Modulus(w)
  {
    hide Power, Value;
    var v, m := Value(s, false), MaxDigits(w);
    ValueBounds(s, false);
    Powers();
    if |s| < m {
      PowerGrows(10, |s|, m - 1);
    } else if |s| > m {
      PowerGrows(10, m, |s| - 1);
      PowerStep(10, m);
      LeadAtLeast(DigitValue(s[0]), Power(10, |s| - 1));
    } else {
      var d := DigitValue(s[0]);
      LeadCases(w, d, v);
    }
  }

  lemma PowerStep(b: nat, n: nat)
    requires n > 0
    ensures Power(b, n) == b * Power(b, n - 1)
  {
  }

  lemma LeadAtLeast(d: nat, p: nat)
    requires d >= 1
    ensures d * p >= p
  {
  }

  /** A number with the most digits that fit: it is its first digit, or the top bit, that tells. */
  lemma LeadCases(w: Width, d: nat, v: nat)
    requires 1 <= d <= 9
    requires
      var p := match w case Bits16 => 10000 case Bits32 => 10_0000_0000 case Bits64 => 1000_0000_0000_0000_0000;
      d * p <= v < (d + 1) * p
    ensures
      var lead := MaxLead(w) as int - '0' as int;
      d < lead || (d == lead && Wrap(w, v) >= Half(w)) <==> v < Modulus(w)
  {
  }

  lemma HexOverflow(w: Width, s: string)
    requires (forall i :: 0 <= i < |s| ==> IsDigit(s[i], true)) && (s != "" ==> s[0] != '0')
    ensures |s| > HexDigits(w) <==> Value(s, true) >= Modulus(w)
  {
    hide Power, Value;
    var m := HexDigits(w);
    ValueBounds(s, true);
    Powers();
    if |s| <= m {
      PowerGrows(16, |s|, m);
    } else {
      PowerGrows(16, m, |s| - 1);
      LeadAtLeast(DigitValue(s[0]), Power(16, |s| - 1));
    }
  }

  // Reading

  /** The character at a position of a zero-terminated string. */
  function At(text: string, i: nat): char {
    if i < |text| then text[i] else '\0'
  }

  lemma WrapStep(w: Width, v: nat, b: nat, d: nat)
    requires b == 10 || b == 16
    ensures Wrap(w, b * Wrap(w, v) + d) == Wrap(w, b * v + d)
  {
    var m, r := Modulus(w), Wrap(w, v);
    var q := v / m;
    assert v == m * q + r;
    WrapShift(w, b * r + d, b * q);
    hide Wrap, Modulus;
    Distributed(b, m, q, r);
  }

  lemma Distributed(b: nat, m: nat, q: nat, r: nat)
    ensures b * (m * q + r) == b * r + m * (b * q)
  {
    assert b * (m * q) == m * (b * q);
  }

  lemma WrapShift(w: Width, x: nat, k: nat)
    ensures Wrap(w, x + Modulus(w) * k) == Wrap(w, x)
  {
    var q, r := x / Modulus(w), Wrap(w, x);
    assert x == Modulus(w) * q + r;
    assert x + Modulus(w) * k == Modulus(w) * (q + k) + r;
    WrapUnique(w, x + Modulus(w) * k, q + k, r);
  }

  lemma WrapUnique(w: Width, a: int, q: int, r: nat)
    requires a == Modulus(w) * q + r && r < Modulus(w)
    ensures Wrap(w, a) == r
  {
    match w
    case Bits16 => Rest16(a, q, r);
    case Bits32 => Rest32(a, q, r);
    case Bits64 => Rest64(a, q, r);
  }

  lemma Rest16(a: int, q: int, r: nat)
    requires a == 0x1_0000 * q + r && r < 0x1_0000
    ensures a % 0x1_0000 == r
  {
  }

  lemma Rest32(a: int, q: int, r: nat)
    requires a == 0x1_0000_0000 * q + r && r < 0x1_0000_0000
    ensures a % 0x1_0000_0000 == r
  {
  }

  lemma Rest64(a: int, q: int, r: nat)
    requires a == 0x1_0000_0000_0000_0000 * q + r && r < 0x1_0000_0000_0000_0000
    ensures a % 0x1_0000_0000_0000_0000 == r
  {
  }

  /** The loop that reads digits, in the arithmetic of the type. */
  method ReadDigits(w: Width, text: string, start: nat, hex: bool) returns (s: nat, result: nat)
    requires start <= |text|
    ensures s == DigitsEnd(text, start, hex)
    ensures result == Wrap(w, Value(text[start..s], hex))
  {
    hide Value, DigitsEnd, Wrap, DigitValue;
    s, result := start, 0;
    assert text[start..start] == "";
    NoDigits(w, hex);
    while IsDigit(At(text, s), hex)
      invariant start <= s <= |text| && forall i :: start <= i < s ==> IsDigit(text[i], hex)
      invariant result == Wrap(w, Value(text[start..s], hex))
      decreases |text| - s
    {
      MoreDigits(text, start, s, hex);
      WrapStep(w, Value(text[start..s], hex), Base(hex), DigitValue(text[s]));
      result := Wrap(w, Base(hex) * result + DigitValue(text[s]));
      s := s + 1;
    }
    EndOfDigits(text, start, s, hex);
  }

  lemma NoDigits(w: Width, hex: bool)
    ensures Wrap(w, Value("", hex)) == 0
  {
  }

  lemma MoreDigits(text: string, start: nat, s: nat, hex: bool)
    requires start <= s < |text| && forall i :: start <= i <= s ==> IsDigit(text[i], hex)
    ensures Value(text[start..s + 1], hex) == Base(hex) * Value(text[start..s], hex) + DigitValue(text[s])
  {
    assert text[start..s + 1][..s - start] == text[start..s];
  }

  lemma EndOfDigits(text: string, start: nat, s: nat, hex: bool)
    requires start <= s <= |text| && (forall i :: start <= i < s ==> IsDigit(text[i], hex))
    requires s < |text| ==> !IsDigit(text[s], hex)
    ensures DigitsEnd(text, start, hex) == s
  {
  }

  /** Past leading zeros: they do not change the value of the digits. */
  method SkipZeros(text: string, start: nat, hex: bool) returns (s: nat)
    requires start <= |text|
    ensures start <= s <= |text| && At(text, s) != '0'
    ensures DigitsEnd(text, s, hex) == DigitsEnd(text, start, hex)
    ensures Value(text[s..DigitsEnd(text, start, hex)], hex) == Value(text[start..DigitsEnd(text, start, hex)], hex)
  {
    hide Value, DigitsEnd;
    s := start;
    while At(text, s) == '0'
      invariant start <= s <= |text| && forall i :: start <= i < s ==> text[i] == '0'
      decreases |text| - s
    {
      s := s + 1;
    }
    ZerosSkipped(text, start, s, hex);
  }

  lemma ZerosSkipped(text: string, start: nat, s: nat, hex: bool)
    requires start <= s <= |text| && forall i :: start <= i < s ==> text[i] == '0'
    ensures s <= DigitsEnd(text, start, hex) == DigitsEnd(text, s, hex)
    ensures Value(text[s..DigitsEnd(text, start, hex)], hex) == Value(text[start..DigitsEnd(text, start, hex)], hex)
  {
    hide Value;
    var e := DigitsEnd(text, s, hex);
    EndOfDigits(text, start, e, hex);
    var zeros, digits := text[start..s], text[s..e];
    assert text[start..e] == zeros + digits;
    LeadingZeros(zeros, digits, hex);
  }

  lemma {:induction false} LeadingZeros(zeros: string, s: string, hex: bool)
    requires (forall i :: 0 <= i < |zeros| ==> zeros[i] == '0') && forall i :: 0 <= i < |s| ==> IsDigit(s[i], hex)
    ensures Value(zeros + s, hex) == Value(s, hex)
    decreases |zeros| + |s|
  {
    hide Value, DigitValue, Base;
    var all := zeros + s;
    assert forall i :: 0 <= i < |all| ==> IsDigit(all[i], hex);
    if s != "" {
      LeadingZeros(zeros, s[..|s| - 1], hex);
      assert all[..|all| - 1] == zeros + s[..|s| - 1];
      ValueLast(all, hex);
      ValueLast(s, hex);
    } else if zeros != "" {
      LeadingZeros(zeros[..|zeros| - 1], s, hex);
      assert all[..|all| - 1] == zeros[..|zeros| - 1] + s;
      ValueLast(all, hex);
      ZeroAdds(hex, s);
    }
  }

  lemma ValueLast(s: string, hex: bool)
    requires s != "" && forall i :: 0 <= i < |s| ==> IsDigit(s[i], hex)
    ensures Value(s, hex) == Base(hex) * Value(s[..|s| - 1], hex) + DigitValue(s[|s| - 1])
  {
  }

  lemma ZeroAdds(hex: bool, s: string)
    requires s == ""
    ensures Base(hex) * Value(s, hex) + DigitValue('0') == Value(s, hex) == 0
  {
  }

  /** The digits after the sign: their value in the arithmetic of the type, and whether it is not the true value. */
  method ReadMagnitude(w: Width, text: string, start: nat) returns (result: nat, overflow: bool)
    requires start <= |text|
    ensures overflow <==> Magnitude(text[start..]) >= Modulus(w)
    ensures !overflow ==> result == Magnitude(text[start..])
  {
    hide Value, DigitsEnd, Wrap, DigitValue;
    MagnitudeAt(text, start);
    if At(text, start) == '0' && (At(text, start + 1) == 'x' || At(text, start + 1) == 'X') {
      var from := SkipZeros(text, start + 2, true);
      var s: nat;
      s, result := ReadDigits(w, text, from, true);
      HexOverflow(w, text[from..s]);
      overflow := s - from > HexDigits(w);
      WrapSmall(w, Value(text[from..s], true));
    } else {
      var from := SkipZeros(text, start, false);
      var s: nat;
      s, result := ReadDigits(w, text, from, false);
      OverflowFound(w, text[from..s]);
      overflow := DecimalOverflow(w, text[from..s], result);
      WrapSmall(w, Value(text[from..s], false));
    }
  }

  lemma WrapSmall(w: Width, v: nat)
    ensures v < Modulus(w) ==> Wrap(w, v) == v
  {
  }

  lemma MagnitudeAt(text: string, start: nat)
    requires start <= |text|
    ensures
      var hex := At(text, start) == '0' && (At(text, start + 1) == 'x' || At(text, start + 1) == 'X');
      Magnitude(text[start..]) ==
        if hex then Value(text[start + 2..DigitsEnd(text, start + 2, true)], true)
        else Value(text[start..DigitsEnd(text, start, false)], false)
  {
    hide Value;
    var t := text[start..];
    assert forall i :: 0 <= i < |t| ==> t[i] == text[start + i];
    if IsHexPrefix(t) {
      ShiftedEnd(text, start, 2, true);
    } else {
      ShiftedEnd(text, start, 0, false);
    }
  }

  lemma ShiftedEnd(text: string, start: nat, i: nat, hex: bool)
    requires start + i <= |text|
    ensures DigitsEnd(text[start..], i, hex) + start == DigitsEnd(text, start + i, hex)
    ensures text[start..][i..DigitsEnd(text[start..], i, hex)] == text[start + i..DigitsEnd(text, start + i, hex)]
  {
    var e := DigitsEnd(text, start + i, hex);
    ShiftedDigits(text, start, i, e, hex);
    SliceShifted(text, start, i, e);
  }

  lemma ShiftedDigits(text: string, start: nat, i: nat, e: nat, hex: bool)
    requires start + i <= |text| && e == DigitsEnd(text, start + i, hex)
    ensures DigitsEnd(text[start..], i, hex) == e - start
  {
    var t := text[start..];
    forall j | i <= j < e - start
      ensures IsDigit(t[j], hex)
    {
      assert t[j] == text[start + j];
    }
    EndOfDigits(t, i, e - start, hex);
  }

  lemma SliceShifted(text: string, start: nat, i: nat, e: nat)
    requires start + i <= e <= |text|
    ensures text[start..][i..e - start] == text[start + i..e]
  {
  }

  /** The smallest and the largest value of the type, as unsigned numbers. */
  predicate AreLimits(w: Width, signed: bool, minv: nat, maxv: nat) {
    if signed then minv == Half(w) && maxv == Half(w) - 1 else minv == 0 && maxv == Modulus(w) - 1
  }

  function Least(w: Width, signed: bool): int {
    if signed then 0 - Half(w) else 0
  }

  /** string_to_integer: the number that the text denotes, or the limit that it exceeds. */
  method StringToInteger(w: Width, text: string, signed: bool, minv: nat, maxv: nat) returns (r: nat)
    requires AreLimits(w, signed, minv, maxv)
    ensures r == Wrap(w, Clamp(Denoted(text), Least(w, signed), maxv))
  {
    hide Magnitude, SpaceRun;
    var s := 0;
    while IsSpace(At(text, s))
      invariant s <= |text| && forall i :: 0 <= i < s ==> IsSpace(text[i])
      decreases |text| - s
    {
      s := s + 1;
    }
    SpacesEnd(text, s);
    ghost var t := text[s..];
    var negative := At(text, s) == '-';
    if At(text, s) == '+' || At(text, s) == '-' {
      assert t[0] == text[s] && t[1..] == text[s + 1..];
      s := s + 1;
    } else {
      assert t != "" ==> t[0] == text[s];
    }
    var result, overflow := ReadMagnitude(w, text, s);
    ghost var v: int := Magnitude(text[s..]);
    assert Denoted(text) == if negative then 0 - v else v;
    Limited(w, signed, minv, maxv, v, result, negative, overflow);
    if negative {
      r := if overflow || result > Wrap(w, 0 - minv) then minv else Wrap(w, 0 - result);
    } else {
      r := if overflow || result > maxv then maxv else result;
    }
  }

  lemma SpacesEnd(text: string, s: nat)
    requires s <= |text| && (forall i :: 0 <= i < s ==> IsSpace(text[i])) && (s < |text| ==> !IsSpace(text[s]))
    ensures SpaceRun(text) == s
  {
  }

  /** The comparisons at the end of string_to_integer clamp the number. */
  lemma Limited(w: Width, signed: bool, minv: nat, maxv: nat, v: nat, result: nat, negative: bool, overflow: bool)
    requires AreLimits(w, signed, minv, maxv) && (overflow <==> v >= Modulus(w)) && (!overflow ==> result == v)
    ensures negative ==>
      Wrap(w, Clamp(0 - v, Least(w, signed), maxv)) ==
      if overflow || result > Wrap(w, 0 - minv) then minv else Wrap(w, 0 - result)
    ensures !negative ==>
      Wrap(w, Clamp(v, Least(w, signed), maxv)) == if overflow || result > maxv then maxv else result
  {
    hide Wrap, Modulus;
    Halves(w);
    WrapSmall(w, 0);
    WrapSmall(w, maxv);
    if minv > 0 {
      WrapNegative(w, minv);
    }
    if v < Modulus(w) {
      WrapSmall(w, v);
    }
  }

  lemma Halves(w: Width)
    ensures Half(w) > 0 && Modulus(w) == Half(w) + Half(w)
  {
  }

  lemma WrapNegative(w: Width, v: nat)
    requires 0 < v <= Modulus(w)
    ensures Wrap(w, 0 - v) == Modulus(w) - v
  {
    hide Wrap;
    WrapUnique(w, 0 - v, -1, Modulus(w) - v);
  }

  // Writing

  /** The decimal digits of a number. */
  function Decimal(n: nat): (s: string)
    ensures s != "" && forall i :: 0 <= i < |s| ==> '0' <= s[i] <= '9'
  {
    if n < 10 then [(n + '0' as int) as char] else Decimal(n / 10) + [(n % 10 + '0' as int) as char]
  }

  /** integer_to_string: the digits are written from the end of the buffer, and a minus in front of them. */
  method IntegerToString(w: Width, a: array<char>, begin: nat, end: nat, value: nat, negative: bool) returns (r: nat)
    requires value < Modulus(w) && begin + MaxDigits(w) < end <= a.Length
    modifies a
    ensures begin <= r < end
    ensures
      var rest := if negative then Wrap(w, 0 - value) else value;
      a[r..end] == (if negative then "-" else "") + Decimal(rest)
    ensures forall i :: 0 <= i < begin || end <= i < a.Length ==> a[i] == old(a[i])
  {
    hide Decimal, Wrap, Modulus, MaxDigits;
    var rest: nat := if negative then Wrap(w, 0 - value) else value;
    RestInRange(w, value);
    DigitCount(w, rest);
    r := WriteDigits(a, end, rest);
    a[r - 1] := '-';
    assert a[r..end] == Decimal(rest);
    assert a[r - 1..end] == "-" + a[r..end];
    r := if negative then r - 1 else r;
  }

  /** The digits, written backwards; r is where they start. */
  method WriteDigits(a: array<char>, end: nat, value: nat) returns (r: nat)
    requires |Decimal(value)| < end <= a.Length
    modifies a
    ensures r == end - |Decimal(value)| && a[r..end] == Decimal(value)
    ensures forall i :: 0 <= i < r || end <= i < a.Length ==> a[i] == old(a[i])
  {
    hide Decimal;
    ghost var digits := Decimal(value);
    var rest: nat := value;
    r := end;
    var more := true;
    assert a[end..end] == "";
    while more
      invariant 0 < r <= end && (more ==> Decimal(rest) + a[r..end] == digits) && (!more ==> a[r..end] == digits)
      invariant end - r <= |digits|
      invariant forall i :: 0 <= i < r || end <= i < a.Length ==> a[i] == old(a[i])
      decreases rest, more
    {
      ghost var tail := a[r..end];
      DecimalStep(rest);
      r := r - 1;
      a[r] := (rest % 10 + '0' as int) as char;
      assert a[r..end] == [(rest % 10 + '0' as int) as char] + tail;
      rest := rest / 10;
      more := rest != 0;
    }
  }

  lemma RestInRange(w: Width, value: nat)
    requires value < Modulus(w)
    ensures Wrap(w, 0 - value) < Modulus(w)
  {
  }

  lemma DecimalStep(n: nat)
    ensures n >= 10 ==> Decimal(n) == Decimal(n / 10) + [(n % 10 + '0' as int) as char]
    ensures n < 10 ==> Decimal(n) == [(n % 10 + '0' as int) as char]
    ensures |Decimal(n / 10)| <= |Decimal(n)|
  {
  }

  lemma {:induction false} DecimalLength(n: nat, d: nat)
    requires d > 0 && n < Power(10, d)
    ensures |Decimal(n)| <= d
    decreases d
  {
    assert Power(10, 0) == 1 && Power(10, d) == 10 * Power(10, d - 1);
    if n >= 10 && d > 1 {
      DecimalLength(n / 10, d - 1);
    }
  }

  lemma DigitCount(w: Width, n: nat)
    requires n < Modulus(w)
    ensures |Decimal(n)| <= MaxDigits(w)
  {
    Powers();
    PowerStep(10, MaxDigits(w));
    DecimalLength(n, MaxDigits(w));
  }

  lemma {:induction false} DecimalValue(n: nat)
    ensures Value(Decimal(n), false) == n
    ensures n > 0 ==> Decimal(n)[0] != '0'
  {
    var s := Decimal(n);
    assert forall i :: 0 <= i < |s| ==> IsDigit(s[i], false);
    if n >= 10 {
      DecimalValue(n / 10);
      assert s[..|s| - 1] == Decimal(n / 10);
    } else {
      assert s[..0] == "";
    }
  }

  lemma MagnitudeOfDecimal(n: nat)
    ensures Magnitude(Decimal(n)) == n
  {
    hide Value;
    var digits := Decimal(n);
    DecimalValue(n);
    assert !IsHexPrefix(digits) by {
      assert |digits| >= 2 ==> '0' <= digits[1] <= '9';
    }
    EndOfDigits(digits, 0, |digits|, false);
    assert digits[..|digits|] == digits;
  }

  /** What is written denotes the number that was to be written. */
  lemma WrittenDenotes(n: nat, negative: bool)
    ensures Denoted((if negative then "-" else "") + Decimal(n)) == if negative then 0 - n else n
  {
    hide Magnitude, Decimal;
    var digits := Decimal(n);
    MagnitudeOfDecimal(n);
    if negative {
      var text := "-" + digits;
      assert text[1..] == digits;
      SignedIs(text, 0 - n);
    } else {
      assert '0' <= digits[0] <= '9';
      assert digits[0] != '-' && digits[0] != '+' && "" + digits == digits;
      SignedIs(digits, n);
    }
  }

  lemma SignedIs(text: string, v: int)
    requires text != "" && !IsSpace(text[0]) && Signed(text) == v
    ensures Denoted(text) == v
  {
    hide Signed;
    SpacesEnd(text, 0);
    assert text[0..] == text;
  }

  /** A signed or unsigned value, given as an unsigned number, is written and read back, the least value included. */
  method WriteAndRead(w: Width, signed: bool, v: int, minv: nat, maxv: nat) returns (r: nat)
    requires AreLimits(w, signed, minv, maxv) && Least(w, signed) <= v <= maxv
    ensures r == Wrap(w, v)
  {
    hide Wrap, Decimal, Denoted, Modulus, Half;
    var a := new char[64];
    DigitRoom(w);
    InRange(w, signed, v, minv, maxv);
    NegatedTwice(w, v);
    var first := IntegerToString(w, a, 0, 64, Wrap(w, v), v < 0);
    WrittenDenotes(if v < 0 then 0 - v else v, v < 0);
    r := StringToInteger(w, a[first..64], signed, minv, maxv);
  }

  lemma DigitRoom(w: Width)
    ensures 0 < MaxDigits(w) < 64
  {
  }

  lemma NegatedTwice(w: Width, v: int)
    requires 0 - Half(w) <= v < Modulus(w)
    ensures Wrap(w, v) < Modulus(w) && (v < 0 ==> Wrap(w, 0 - Wrap(w, v)) == 0 - v) && (v >= 0 ==> Wrap(w, v) == v)
  {
    if v < 0 {
      WrapUnique(w, v, -1, Modulus(w) + v);
      WrapUnique(w, 0 - (Modulus(w) + v), -1, 0 - v);
    } else {
      WrapUnique(w, v, 0, v);
    }
  }

  lemma InRange(w: Width, signed: bool, v: int, minv: nat, maxv: nat)
    requires AreLimits(w, signed, minv, maxv) && Least(w, signed) <= v <= maxv
    ensures 0 - Half(w) <= v < Modulus(w)
  {
  }
}
