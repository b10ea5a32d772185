/**
 How characters are written in each encoding, as the standards show it: by the bits of each unit and the order of its
 bytes.
 */
module Encodings {

  import opened Utf
  import opened BufferedWriter

  predicate AreBytes(b: seq<nat>) {
    forall i :: 0 <= i < |b| ==> b[i] < 0x100
  }

  /** The table of section 3 of RFC 3629: 0xxxxxxx, 110xxxxx 10xxxxxx and so on, with the bits of the character as x. */
  predicate IsUtf8(c: nat, b: seq<nat>) {
    && AreBytes(b) && (forall i :: 1 <= i < |b| ==> 0x80 <= b[i] <= 0xBF)
    && if c <= 0x7F then b == [c]
       else if c <= 0x7FF then |b| == 2 && 0xC0 <= b[0] <= 0xDF && c == (b[0] - 0xC0) * 0x40 + (b[1] - 0x80)
       else if c <= 0xFFFF then
         |b| == 3 && 0xE0 <= b[0] <= 0xEF && c == ((b[0] - 0xE0) * 0x40 + (b[1] - 0x80)) * 0x40 + (b[2] - 0x80)
       else
         && |b| == 4 && 0xF0 <= b[0] <= 0xF7
         && c == (((b[0] - 0xF0) * 0x40 + (b[1] - 0x80)) * 0x40 + (b[2] - 0x80)) * 0x40 + (b[3] - 0x80)
  }

  /** The unit of two bytes at position i. */
  function Unit2(b: seq<nat>, i: nat, big: bool): nat
    requires i + 1 < |b|
  {
    if big then b[i] * 0x100 + b[i + 1] else b[i + 1] * 0x100 + b[i]
  }

  /** Section 2.1 of RFC 2781: one unit, or two surrogates with ten bits each. */
  predicate IsUtf16(c: nat, b: seq<nat>, big: bool) {
    && AreBytes(b)
    && if c <= 0xFFFF then |b| == 2 && Unit2(b, 0, big) == c
       else
         && |b| == 4 && 0xD800 <= Unit2(b, 0, big) <= 0xDBFF && 0xDC00 <= Unit2(b, 2, big) <= 0xDFFF
         && c == 0x10000 + (Unit2(b, 0, big) - 0xD800) * 0x400 + (Unit2(b, 2, big) - 0xDC00)
  }

  predicate IsUtf32(c: nat, b: seq<nat>, big: bool) {
    && AreBytes(b) && |b| == 4
    && c == if big then ((b[0] * 0x100 + b[1]) * 0x100 + b[2]) * 0x100 + b[3]
            else ((b[3] * 0x100 + b[2]) * 0x100 + b[1]) * 0x100 + b[0]
  }

  /** What is not in Latin-1 is written as a question mark. */
  predicate IsLatin1(c: nat, b: seq<nat>) {
    if c <= 0xFF then b == [c] else b == [0x3F]
  }

  predicate IsWritten(enc: Encoding, c: nat, b: seq<nat>) {
    match enc
    case NativeUtf8 => IsUtf8(c, b)
    case Utf16Le => IsUtf16(c, b, false)
    case Utf16Be => IsUtf16(c, b, true)
    case Utf32Le => IsUtf32(c, b, false)
    case Utf32Be => IsUtf32(c, b, true)
    case EncLatin1 => IsLatin1(c, b)
  }

  function EncodedAs(enc: Encoding, c: nat): seq<nat> {
    Bytes(Encode(TargetOf(enc), ScalarUnit(c)), Width(enc), IsBigEndian(enc))
  }

  lemma OneUnit(v: nat, width: nat, big: bool)
    ensures Bytes([v], width, big) == UnitBytes(v, width, big)
  {
    BytesNone(width, big);
    assert [v][..0] == [];
  }

  lemma TwoUnits(v: nat, w: nat, width: nat, big: bool)
    ensures Bytes([v, w], width, big) == UnitBytes(v, width, big) + UnitBytes(w, width, big)
  {
    OneUnit(v, width, big);
    assert [v, w][..1] == [v];
  }

  lemma {:induction false} SameBytes(us: seq<nat>, big: bool)
    ensures Bytes(us, 1, big) == us
    decreases |us|
  {
    if us != [] {
      SameBytes(us[..|us| - 1], big);
    } else {
      BytesNone(1, big);
    }
  }

  lemma Utf8Written(c: nat)
    requires IsScalar(c)
    ensures IsUtf8(c, Encode(Utf8, ScalarUnit(c)))
  {
    hide IsUtf8;
    if c < 0x80 {
      OneWritten(c);
    } else if c < 0x800 {
      TwoWritten(c);
    } else if c < 0x10000 {
      ThreeWritten(c);
    } else {
      FourWritten(c);
    }
  }

  lemma OneWritten(c: nat)
    requires c < 0x80
    ensures IsUtf8(c, [c])
  {
  }

  lemma TwoWritten(c: nat)
    requires 0x80 <= c < 0x800
    ensures IsUtf8(c, [0xC0 + c / 0x40, 0x80 + c % 0x40])
  {
    Split2(c);
  }

  lemma ThreeWritten(c: nat)
    requires 0x800 <= c < 0x10000
    ensures IsUtf8(c, [0xE0 + c / 0x1000 % 0x10, 0x80 + c / 0x40 % 0x40, 0x80 + c % 0x40])
  {
    Split3(c);
  }

  lemma FourWritten(c: nat)
    requires 0x10000 <= c < 0x110000
    ensures IsUtf8(c, [0xF0 + c / 0x40000 % 0x10, 0x80 + c / 0x1000 % 0x40, 0x80 + c / 0x40 % 0x40, 0x80 + c % 0x40])
  {
    Split4(c);
  }

  lemma TwoBytes(v: nat, big: bool)
    requires v <= 0xFFFF
    ensures
      var b := UnitBytes(v, 2, big);
      |b| == 2 && AreBytes(b) && Unit2(b, 0, big) == v
  {
  }

  lemma Utf16Written(c: nat, big: bool)
    requires IsScalar(c)
    ensures IsUtf16(c, Bytes(Encode(Utf16, ScalarUnit(c)), 2, big), big)
  {
    hide UnitBytes, Bytes;
    if c <= 0xFFFF {
      OneUnit(c, 2, big);
      TwoBytes(c, big);
      assert Encode(Utf16, Low(c)) == [c];
    } else {
      SurrogatesAre(c);
      var d := c - 0x10000;
      var v, w := 0xD800 + d / 0x400, 0xDC00 + d % 0x400;
      TwoUnits(v, w, 2, big);
      TwoBytes(v, big);
      TwoBytes(w, big);
      Surrogates(c, UnitBytes(v, 2, big), UnitBytes(w, 2, big), v, w, big);
    }
  }

  lemma Surrogates(c: nat, x: seq<nat>, y: seq<nat>, v: nat, w: nat, big: bool)
    requires 0xFFFF < c < 0x110000 && v == 0xD800 + (c - 0x10000) / 0x400 && w == 0xDC00 + (c - 0x10000) % 0x400
    requires |x| == |y| == 2 && AreBytes(x) && AreBytes(y) && Unit2(x, 0, big) == v && Unit2(y, 0, big) == w
    ensures IsUtf16(c, x + y, big)
  {
    assert Unit2(x + y, 0, big) == v && Unit2(x + y, 2, big) == w;
  }

  lemma Utf32Written(c: nat, big: bool)
    requires IsScalar(c)
    ensures IsUtf32(c, Bytes(Encode(Utf32, ScalarUnit(c)), 4, big), big)
  {
    hide Bytes;
    OneUnit(c, 4, big);
    FourBytes(c);
    assert Encode(Utf32, ScalarUnit(c)) == [c];
    var high, middle, low := c / 0x1_0000 % 0x100, c / 0x100 % 0x100, c % 0x100;
    assert UnitBytes(c, 4, big) == if big then [0, high, middle, low] else [low, middle, high, 0];
  }

  lemma FourBytes(c: nat)
    requires c < 0x110000
    ensures c / 0x100_0000 == 0
    ensures
      var high, middle, low := c / 0x1_0000 % 0x100, c / 0x100 % 0x100, c % 0x100;
      high < 0x100 && middle < 0x100 && low < 0x100 && c == (high * 0x100 + middle) * 0x100 + low
  {
    var high, rest := c / 0x1_0000, c % 0x1_0000;
    assert high % 0x100 == high && rest / 0x100 % 0x100 == rest / 0x100;
    assert c / 0x100 == high * 0x100 + rest / 0x100;
  }

  /** Each character is written as its encoding's standard says. */
  lemma CharacterWritten(enc: Encoding, c: nat)
    requires IsScalar(c)
    ensures IsWritten(enc, c, EncodedAs(enc, c))
  {
    hide IsUtf8, IsUtf16, IsUtf32, Bytes, Encode, IsScalar;
    match enc
    case NativeUtf8 =>
      Utf8Written(c);
      SameBytes(Encode(Utf8, ScalarUnit(c)), false);
    case Utf16Le => Utf16Written(c, false);
    case Utf16Be => Utf16Written(c, true);
    case Utf32Le => Utf32Written(c, false);
    case Utf32Be => Utf32Written(c, true);
    case EncLatin1 =>
      SameBytes(Encode(Latin1, ScalarUnit(c)), false);
      Latin1Written(c);
  }

  lemma Latin1Written(c: nat)
    ensures IsLatin1(c, Encode(Latin1, ScalarUnit(c)))
  {
  }

  /** The pieces are those of the characters, and they make up the bytes. */
  ghost predicate WrittenAs(enc: Encoding, cs: seq<nat>, pieces: seq<seq<nat>>, bytes: seq<nat>)
    decreases |pieces|
  {
    |pieces| == |cs| &&
    if cs == [] then bytes == []
    else
      && |pieces[0]| <= |bytes| && bytes[..|pieces[0]|] == pieces[0] && IsWritten(enc, cs[0], pieces[0])
      && WrittenAs(enc, cs[1..], pieces[1..], bytes[|pieces[0]|..])
  }

  /** The text of a sequence of characters in UTF-8. */
  function Text8(cs: seq<nat>): (s: string)
    requires forall c :: c in cs ==> IsScalar(c)
  {
    RoundTrip8(cs);
    Chars(EncodeAll(Utf8, ScalarUnits(cs)))
  }

  /** Transcoding writes the characters of a text one after the other, each as the encoding's standard says. */
  lemma Transcoded(enc: Encoding, cs: seq<nat>) returns (pieces: seq<seq<nat>>)
    requires forall c :: c in cs ==> IsScalar(c)
    ensures WrittenAs(enc, cs, pieces, Transcode(enc, Text8(cs)))
  {
    hide Bytes, EncodeAll, Chars, Decode8, WrittenAs, IsScalar;
    RoundTrip8(cs);
    pieces := AllWritten(enc, cs);
    if enc == NativeUtf8 {
      var bytes := EncodeAll(Utf8, ScalarUnits(cs));
      SameBytes(bytes, false);
      CodesOf(bytes);
    }
  }

  lemma CodesOf(bytes: seq<nat>)
    requires forall b :: b in bytes ==> b < 0x100
    ensures CharCodes(Chars(bytes)) == bytes
  {
  }

  lemma {:induction false} AllWritten(enc: Encoding, cs: seq<nat>) returns (pieces: seq<seq<nat>>)
    requires forall c :: c in cs ==> IsScalar(c)
    ensures WrittenAs(enc, cs, pieces, Bytes(EncodeAll(TargetOf(enc), ScalarUnits(cs)), Width(enc), IsBigEndian(enc)))
    decreases |cs|
  {
    hide Bytes, EncodeAll, Encode, IsScalar, IsWritten;
    var target, width, big := TargetOf(enc), Width(enc), IsBigEndian(enc);
    if cs == [] {
      NoUnits(target);
      BytesNone(width, big);
      assert ScalarUnits(cs) == [];
      pieces := [];
    } else {
      var rest := AllWritten(enc, cs[1..]);
      var u, us := ScalarUnit(cs[0]), ScalarUnits(cs[1..]);
      assert ScalarUnits(cs) == [u] + us;
      EncodeAllConcat(target, [u], us);
      EncodeAllOne(target, u);
      BytesConcat(Encode(target, u), EncodeAll(target, us), width, big);
      CharacterWritten(enc, cs[0]);
      pieces := [EncodedAs(enc, cs[0])] + rest;
      assert pieces[1..] == rest;
    }
  }
}
