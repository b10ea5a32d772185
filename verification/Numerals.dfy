/**
 Numbers spelled with a table of digits, and how they are read: by string_to_integer and in character references.
 */
module Numerals {
  import opened Common
  import opened XmlText
  import opened Integers
  import Utf
  import XmlDecode

  /** The digits of a base, by their values; those of base 16 in either case. */
  function Digits(hex: bool, upper: bool): string {
    if !hex then "0123456789" else if upper then "0123456789ABCDEF" else "0123456789abcdef"
  }

  /** A digit has the value of its place in the table. */
  lemma DigitAt(k: nat, hex: bool, upper: bool)
    requires k < Base(hex)
    ensures IsDigit(Digits(hex, upper)[k], hex) && DigitValue(Digits(hex, upper)[k]) == k
  {
    var table := Digits(hex, upper);
    assert k < 10 ==> table[k] as int == '0' as int + k;
    assert k >= 10 ==> table[k] as int == (if upper then 'A' else 'a') as int + k - 10;
  }

  /** What is in neither table is no digit. */
  lemma NoOtherDigits(c: char, hex: bool)
    ensures IsDigit(c, hex) <==> c in Digits(hex, false) || c in Digits(hex, true)
  {
    var lower, upper := Digits(hex, false), Digits(hex, true);
    if IsDigit(c, hex) {
      var k := DigitValue(c);
      assert k < Base(hex) && (lower[k] == c || upper[k] == c);
    }
  }

  /** The text spells the number: each digit is the one for its remainder, in whichever case, after any zeros. */
  ghost predicate Spells(s: string, n: nat, hex: bool)
    decreases |s|
  {
    && s != ""
    && (s[|s| - 1] == Digits(hex, false)[n % Base(hex)] || s[|s| - 1] == Digits(hex, true)[n % Base(hex)])
    && if |s| == 1 then n < Base(hex) else Spells(s[..|s| - 1], n / Base(hex), hex)
  }

  /** Every number has a spelling, and in base 16 one in each case. */
  lemma {:induction false} HasSpelling(n: nat, hex: bool, upper: bool) returns (s: string)
    ensures Spells(s, n, hex) && forall c :: c in s ==> c in Digits(hex, upper)
    decreases n
  {
    var last := Digits(hex, upper)[n % Base(hex)];
    assert last in Digits(hex, upper);
    if n < Base(hex) {
      s := [last];
    } else {
      var front := HasSpelling(n / Base(hex), hex, upper);
      s := front + [last];
      assert s[..|s| - 1] == front;
    }
  }

  /** A spelling consists of digits, and its value is the number. */
  lemma {:induction false} SpelledValue(s: string, n: nat, hex: bool)
    requires Spells(s, n, hex)
    ensures s != "" && (forall i :: 0 <= i < |s| ==> IsDigit(s[i], hex)) && Value(s, hex) == n
    decreases |s|
  {
    hide Digits, DigitValue, IsDigit;
    DigitAt(n % Base(hex), hex, false);
    DigitAt(n % Base(hex), hex, true);
    if |s| > 1 {
      SpelledValue(s[..|s| - 1], n / Base(hex), hex);
      assert forall i :: 0 <= i < |s| - 1 ==> s[..|s| - 1][i] == s[i];
    } else {
      assert s[..0] == "";
    }
  }

  /** What may stand behind the digits. */
  predicate Stops(rest: string, hex: bool) {
    rest != "" ==> !IsDigit(rest[0], hex)
  }

  predicate IsPrefix(prefix: string) {
    prefix == "0x" || prefix == "0X"
  }

  /** Whatever follows the digits, the number is theirs. */
  lemma SpelledMagnitude(prefix: string, s: string, n: nat, hex: bool, rest: string)
    requires Spells(s, n, hex) && Stops(rest, hex) && if hex then IsPrefix(prefix) else prefix == ""
    requires !hex && s == "0" ==> rest == "" || (rest[0] != 'x' && rest[0] != 'X')
    ensures Magnitude(prefix + s + rest) == n
  {
    hide Value, IsDigit, Spells, DigitsEnd;
    var text := prefix + s + rest;
    SpelledValue(s, n, hex);
    DigitsBetween(prefix, s, rest, hex);
    if hex {
      assert text[0] == prefix[0] && text[1] == prefix[1];
    } else {
      assert text[..|s|] == text[0..|s|];
      NoPrefix(s, rest);
    }
  }

  lemma DigitsBetween(head: string, s: string, rest: string, hex: bool)
    requires (forall i :: 0 <= i < |s| ==> IsDigit(s[i], hex)) && Stops(rest, hex)
    ensures
      var text, end := head + s + rest, |head| + |s|;
      text[|head|..end] == s && DigitsEnd(text, |head|, hex) == end
  {
    hide IsDigit;
    var text, end := head + s + rest, |head| + |s|;
    forall i | |head| <= i < end
      ensures IsDigit(text[i], hex)
    {
      assert text[i] == s[i - |head|];
    }
    assert end < |text| ==> text[end] == rest[0];
    EndOfDigits(text, |head|, end, hex);
  }

  lemma NoPrefix(s: string, rest: string)
    requires s != "" && forall i :: 0 <= i < |s| ==> IsDigit(s[i], false)
    requires s == "0" ==> rest == "" || (rest[0] != 'x' && rest[0] != 'X')
    ensures !IsHexPrefix("" + s + rest)
  {
    if |s| > 1 {
      assert IsDigit(s[1], false) && ("" + s + rest)[1] == s[1];
    } else {
      assert s == [s[0]] && (rest != "" ==> ("" + s + rest)[1] == rest[0]);
    }
  }

  /** A number may have white space and a sign in front of it. */
  lemma SpelledDenotes(space: string, sign: string, number: string, n: nat)
    requires (forall i :: 0 <= i < |space| ==> IsSpace(space[i])) && (sign == "" || sign == "-" || sign == "+")
    requires number != "" && !IsSpace(number[0]) && number[0] != '-' && number[0] != '+' && Magnitude(number) == n
    ensures Denoted(space + sign + number) == if sign == "-" then 0 - n else n
  {
    hide Magnitude, IsSpace;
    var text := space + sign + number;
    SignIsNoSpace(sign);
    SignedParts(space, sign, number);
    SpacesEnd(text, |space|);
    assert Denoted(text) == if sign == "-" then 0 - Magnitude(number) else Magnitude(number);
  }

  lemma SignedParts(space: string, sign: string, number: string)
    requires number != "" && |sign| <= 1
    ensures
      var text, signed := space + sign + number, sign + number;
      && text[|space|..] == signed && (forall i :: 0 <= i < |space| ==> text[i] == space[i])
      && text[|space|] == signed[0]
      && if sign == "" then signed == number else signed[1..] == number && signed[0] == sign[0]
  {
  }

  lemma SignIsNoSpace(sign: string)
    ensures sign == "-" || sign == "+" ==> !IsSpace(sign[0])
  {
  }

  /** string_to_integer reads every number back, in either base and case; one outside gives the nearest limit. */
  method ReadSpelled(w: Width, signed: bool, minv: nat, maxv: nat, space: string, sign: string, prefix: string,
                     s: string, rest: string, ghost n: nat, ghost hex: bool)
    returns (r: nat)
    requires AreLimits(w, signed, minv, maxv) && Spells(s, n, hex) && Stops(rest, hex)
    requires if hex then IsPrefix(prefix) else prefix == ""
    requires !hex && s == "0" ==> rest == "" || (rest[0] != 'x' && rest[0] != 'X')
    requires (forall i :: 0 <= i < |space| ==> IsSpace(space[i])) && (sign == "" || sign == "-" || sign == "+")
    ensures
      var v := if sign == "-" then 0 - n else n;
      r == Wrap(w, if v < Least(w, signed) then Least(w, signed) else if v > maxv then maxv else v)
  {
    hide Wrap, Denoted, Magnitude, Spells, Digits;
    var number := prefix + s + rest;
    SpelledMagnitude(prefix, s, n, hex, rest);
    FirstOfNumber(prefix, s, n, hex, rest);
    SpelledDenotes(space, sign, number, n);
    r := StringToInteger(w, space + sign + number, signed, minv, maxv);
  }

  lemma FirstOfNumber(prefix: string, s: string, n: nat, hex: bool, rest: string)
    requires Spells(s, n, hex) && if hex then IsPrefix(prefix) else prefix == ""
    ensures
      var number := prefix + s + rest;
      number != "" && !IsSpace(number[0]) && number[0] != '-' && number[0] != '+'
  {
    hide Spells, Digits;
    SpelledValue(s, n, hex);
    var number := prefix + s + rest;
    assert number[0] == if hex then prefix[0] else s[0];
  }

  // Character references (section 4.1 of XML 1.0)

  /** A reference to a character by its number, in either base and case, expands to the UTF-8 bytes of the character. */
  lemma SpelledReference(head: string, s: string, n: nat, hex: bool, rest: string)
    requires Spells(s, n, hex) && Utf.IsScalar(n) && head == if hex then "&#x" else "&#"
    ensures ReferenceAt(head + s + (";" + rest)) == Some(Reference(Utf8(n), |head| + |s| + 1))
    ensures Utf.Decode8(Utf8(n)) == [Utf.ScalarUnit(n)]
  {
    hide Value, Utf8, Number, Spells, DigitsEnd, Wrap32, ReferenceAt, Utf.Decode8, IsDigit;
    var text := head + s + (";" + rest);
    SpelledValue(s, n, hex);
    SemicolonStops(rest, hex);
    DigitsBetween(head, s, ";" + rest, hex);
    NumberFound(text, |head|, |head| + |s|, hex);
    FirstDigit(s[0]);
    assert text[0] == head[0] && text[1] == head[1] && text[2] == if hex then head[2] else s[0];
    XmlDecode.FirstTwo(text);
    ScalarFits(n);
    ScalarBytes(n);
  }

  lemma SemicolonStops(rest: string, hex: bool)
    ensures Stops(";" + rest, hex)
  {
  }

  lemma FirstDigit(c: char)
    ensures IsDigit(c, false) ==> c != 'x'
  {
  }

  lemma NumberFound(text: string, skip: nat, end: nat, hex: bool)
    requires skip < end < |text| && DigitsEnd(text, skip, hex) == end && text[end] == ';'
    ensures Number(text, skip, hex) == Some(Reference(Utf8(Wrap32(Value(text[skip..end], hex))), end + 1))
  {
    hide Value, Utf8, Wrap32, DigitsEnd;
  }

  lemma ScalarFits(n: nat)
    requires Utf.IsScalar(n)
    ensures Wrap32(n) == n
  {
  }

  /** Those bytes decode to the character. */
  lemma ScalarBytes(n: nat)
    requires Utf.IsScalar(n)
    ensures Utf.Decode8(Utf8(n)) == [Utf.ScalarUnit(n)]
  {
    hide Utf.Decode8, Utf.Encode, Utf.EncodeAll;
    Utf.RoundTrip8([n]);
    Utf.EncodeAllOne(Utf.Utf8, Utf.ScalarUnit(n));
    assert Utf.ScalarUnits([n]) == [Utf.ScalarUnit(n)];
  }

  /** Digits and a semicolon stand behind what begins a reference by number. */
  ghost predicate IsNumbered(s: string, head: string, hex: bool) {
    head <= s && exists end ::
      |head| < end < |s| && s[end] == ';' && forall i :: |head| <= i < end ==> IsDigit(s[i], hex)
  }

  /** The references are those to characters by number and the five entities of section 4.6, and no others. */
  lemma OnlyReferences(s: string)
    ensures ReferenceAt(s).Some? <==>
      || IsNumbered(s, "&#x", true) || IsNumbered(s, "&#", false)
      || "&lt;" <= s || "&gt;" <= s || "&amp;" <= s || "&apos;" <= s || "&quot;" <= s
  {
    hide Number, IsNumbered, ReferenceAt;
    NumberedParts(s, "&#x", true);
    NumberedParts(s, "&#", false);
    LetterStops(s);
    var heads := ["&#x", "&#", "&lt;", "&gt;", "&amp;", "&apos;", "&quot;"];
    forall k | 0 <= k < |heads|
      ensures heads[k] <= s ==> |s| >= 2 && s[0] == heads[k][0] && s[1] == heads[k][1]
    {
    }
    if |s| < 2 || s[0] != '&' {
      NoReferenceAt(s);
    } else {
      XmlDecode.FirstTwo(s);
      if s[1] != '#' {
        XmlDecode.OneEntity(s);
      }
    }
  }

  lemma NoReferenceAt(s: string)
    requires |s| < 2 || s[0] != '&'
    ensures ReferenceAt(s) == None
  {
    hide Number;
  }

  lemma NumberedParts(s: string, head: string, hex: bool)
    ensures head <= s ==> (Number(s, |head|, hex).Some? <==> IsNumbered(s, head, hex))
    ensures !(head <= s) ==> !IsNumbered(s, head, hex)
  {
    hide Utf8, Wrap32, Value, IsDigit;
    if IsNumbered(s, head, hex) {
      var end: nat :| |head| < end < |s| && s[end] == ';' && forall i :: |head| <= i < end ==> IsDigit(s[i], hex);
      NoDigit(hex);
      EndOfDigits(s, |head|, end, hex);
    }
  }

  lemma NoDigit(hex: bool)
    ensures !IsDigit(';', hex)
  {
  }

  /** A letter behind the number sign is no decimal digit. */
  lemma LetterStops(s: string)
    ensures "&#x" <= s ==> !IsNumbered(s, "&#", false) && "&#" <= s
  {
    if "&#x" <= s {
      assert s[..3] == "&#x" && s[..2] == "&#" && s[2] == s[..3][2];
      FirstDigit(s[2]);
    }
  }
}
