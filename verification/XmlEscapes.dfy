/**
 Decoding undoes escaping.
 */
module XmlEscapes {
  import opened Common
  import opened XmlText
  import XmlDecode
  import opened XmlPrint

  /** What is written as it is must also be read as it is. */
  predicate Survives(c: char, attr: bool, spaces: Spaces) {
    c != '\0' && (!IsSpecial(c, attr) ==> IsPlain(c, true, spaces))
  }

  lemma ControlDecoded(c: char, rest: string)
    requires '\0' < c < ' '
    ensures ReferenceAt(ControlReference(c) + rest) == Some(Reference([c], 5))
  {
    var s := ControlReference(c) + rest;
    var tens, ones := (c as int / 10 + '0' as int) as char, (c as int % 10 + '0' as int) as char;
    assert s[0] == '&' && s[1] == '#' && s[2] == tens && s[3] == ones && s[4] == ';';
    XmlDecode.FirstTwo(s);
    assert s[2] != 'x';
    XmlDecode.NumberIs(s, 2, 4, false);
    assert s[2..4] == [tens, ones];
    TwoDigits(tens, ones);
    assert Value(s[2..4], false) == c as int;
  }

  lemma TwoDigits(tens: char, ones: char)
    requires IsDigit(tens, false) && IsDigit(ones, false)
    ensures Value([tens, ones], false) == 10 * (tens as int - '0' as int) + ones as int - '0' as int
  {
    assert [tens, ones][..1] == [tens];
    assert [tens][..0] == "";
    assert Value([tens], false) == 10 * Value("", false) + DigitValue(tens);
  }

  lemma EntityDecoded(rest: string)
    ensures ReferenceAt("&amp;" + rest) == Some(Reference("&", 5))
    ensures ReferenceAt("&lt;" + rest) == Some(Reference("<", 4))
    ensures ReferenceAt("&gt;" + rest) == Some(Reference(">", 4))
    ensures ReferenceAt("&quot;" + rest) == Some(Reference("\"", 6))
    ensures ReferenceAt("&apos;" + rest) == Some(Reference("'", 6))
  {
    hide Number, ReferenceAt;
    Prefixed("&amp;", rest);
    Prefixed("&lt;", rest);
    Prefixed("&gt;", rest);
    Prefixed("&quot;", rest);
    Prefixed("&apos;", rest);
    XmlDecode.OneEntity("&amp;" + rest);
    XmlDecode.OneEntity("&lt;" + rest);
    XmlDecode.OneEntity("&gt;" + rest);
    XmlDecode.OneEntity("&quot;" + rest);
    XmlDecode.OneEntity("&apos;" + rest);
  }

  lemma Prefixed(s: string, rest: string)
    ensures s <= s + rest
  {
  }

  /** The reader turns what is written for a character back into the character. */
  lemma UnescapedChar(c: char, attr: bool, f: Format, spaces: Spaces, rest: string)
    requires Survives(c, attr, spaces) && !f.skipControl
    ensures Decoded(EscapedChar(c, attr, f) + rest, true, spaces) == [c] + Decoded(rest, true, spaces)
  {
    hide ReferenceAt, Decoded, Number;
    var e := EscapedChar(c, attr, f);
    EntityDecoded(rest);
    if '\0' < c < ' ' {
      ControlDecoded(c, rest);
    }
    assert (e + rest)[|e|..] == rest;
    if e == [c] {
      XmlDecode.DecodedStep(e + rest, true, spaces);
      assert IsPlain(c, true, spaces);
      StepPlain(e + rest, true, spaces);
    } else {
      XmlDecode.DecodedStep(e + rest, true, spaces);
      EscapeIsReference(c, attr, f, rest);
    }
  }

  lemma EscapeIsReference(c: char, attr: bool, f: Format, rest: string)
    requires c != '\0' && !f.skipControl && EscapedChar(c, attr, f) != [c]
    ensures |EscapedChar(c, attr, f)| > 0 && EscapedChar(c, attr, f)[0] == '&'
    ensures ReferenceAt(EscapedChar(c, attr, f) + rest) == Some(Reference([c], |EscapedChar(c, attr, f)|))
  {
    hide ReferenceAt, Number;
    EntityDecoded(rest);
    if '\0' < c < ' ' {
      ControlDecoded(c, rest);
    }
  }

  /** Reading an escaped text gives the text back. */
  lemma {:induction false} Unescaped(s: string, attr: bool, f: Format, spaces: Spaces)
    requires !f.skipControl && forall i :: 0 <= i < |s| ==> Survives(s[i], attr, spaces)
    ensures Decoded(Escaped(s, attr, f), true, spaces) == s
  {
    hide Decoded, EscapedChar, Survives;
    if s == "" {
      assert Decoded("", true, spaces) == "" by {
        NothingDecoded(spaces);
      }
    } else {
      Unescaped(s[1..], attr, f, spaces);
      UnescapedChar(s[0], attr, f, spaces, Escaped(s[1..], attr, f));
      assert [s[0]] + s[1..] == s;
    }
  }

  lemma NothingDecoded(spaces: Spaces)
    ensures Decoded("", true, spaces) == ""
  {
  }

  function WithoutLast(s: string): string {
    if s == "" then "" else s[..|s| - 1]
  }

  /** Without its last character, what is written for a text is not read as the text. */
  lemma {:induction false} LastIsNeeded(s: string, attr: bool, f: Format, spaces: Spaces)
    requires s != "" && !f.skipControl && forall i :: 0 <= i < |s| ==> Survives(s[i], attr, spaces)
    ensures Decoded(WithoutLast(Escaped(s, attr, f)), true, spaces) != s
    ensures NulFree(Decoded(WithoutLast(Escaped(s, attr, f)), true, spaces))
  {
    hide Decoded, EscapedChar, Survives;
    var first, rest := EscapedChar(s[0], attr, f), Escaped(s[1..], attr, f);
    OneNeeded(s[0], attr, f, spaces);
    if |s| == 1 {
      assert s == [s[0]] && Escaped(s, attr, f) == first + rest == first;
    } else {
      LastIsNeeded(s[1..], attr, f, spaces);
      SomethingWritten(s[1..], attr, f);
      assert WithoutLast(first + rest) == first + WithoutLast(rest);
      UnescapedChar(s[0], attr, f, spaces, WithoutLast(rest));
      NulFreeHead(s[0], Decoded(WithoutLast(rest), true, spaces));
      assert [s[0]] + s[1..] == s;
    }
  }

  lemma SomethingWritten(s: string, attr: bool, f: Format)
    requires s != "" && !f.skipControl
    ensures Escaped(s, attr, f) != ""
  {
    assert EscapedChar(s[0], attr, f) != "";
  }

  lemma NulFreeHead(c: char, s: string)
    requires c != '\0' && NulFree(s)
    ensures NulFree([c] + s)
  {
  }

  lemma OneNeeded(c: char, attr: bool, f: Format, spaces: Spaces)
    requires Survives(c, attr, spaces) && !f.skipControl
    ensures c != '\0'
    ensures
      var r := Decoded(WithoutLast(EscapedChar(c, attr, f)), true, spaces);
      r != [c] && NulFree(r)
  {
    hide Decoded, ReferenceAt;
    var e := EscapedChar(c, attr, f);
    if e == [c] {
      assert WithoutLast(e) == "";
      NothingDecoded(spaces);
    } else {
      CutOff(c, attr, f, spaces);
      CutReference(WithoutLast(e), spaces);
    }
  }

  lemma CutOff(c: char, attr: bool, f: Format, spaces: Spaces)
    requires c != '\0' && !f.skipControl && EscapedChar(c, attr, f) != [c]
    ensures
      var r := WithoutLast(EscapedChar(c, attr, f));
      |r| >= 2 && r[0] == '&' && ';' !in r && NulFree(r) && forall i :: 1 <= i < |r| ==> IsPlain(r[i], true, spaces)
  {
  }

  lemma CutReference(r: string, spaces: Spaces)
    requires r != "" && r[0] == '&' && ';' !in r && forall i :: 1 <= i < |r| ==> IsPlain(r[i], true, spaces)
    ensures Decoded(r, true, spaces) == r
  {
    hide Decoded, ReferenceAt, IsPlain;
    NoSemicolon(r);
    XmlDecode.DecodedStep(r, true, spaces);
    DecodedPlain(r[1..], |r| - 1, true, spaces);
    assert r[1..][..|r| - 1] == r[1..] && r[1..][|r| - 1..] == "";
    NothingDecoded(spaces);
    assert ['&'] + r[1..] == r;
  }

  /** A reference ends with a semicolon. */
  lemma NoSemicolon(s: string)
    requires ';' !in s
    ensures ReferenceAt(s) == None
  {
    assert "&amp;"[4] == ';' && "&apos;"[5] == ';' && "&gt;"[3] == ';' && "&lt;"[3] == ';' && "&quot;"[5] == ';';
  }

  /** Attribute values survive however white space is treated, except when it is normalized. */
  lemma AttributeSurvives(s: string, spaces: Spaces)
    requires NulFree(s) && spaces != Normalize
    ensures forall i :: 0 <= i < |s| ==> Survives(s[i], true, spaces)
  {
  }

  /** Character data survives if it has no carriage return, or if line ends are kept. */
  lemma PcdataSurvives(s: string, spaces: Spaces)
    requires NulFree(s) && ((spaces == LineEnds && '\r' !in s) || spaces == Keep)
    ensures forall i :: 0 <= i < |s| ==> Survives(s[i], false, spaces)
  {
  }

  /**
   Escaped text cannot be mistaken for markup or for the end of the buffer, nor for the end of the value or of the
   markup.
   */
  lemma {:induction false} EscapedIsSafe(s: string, attr: bool, f: Format)
    requires NulFree(s)
    ensures forall i :: 0 <= i < |Escaped(s, attr, f)| ==>
      var c := Escaped(s, attr, f)[i];
      c != '<' && c != '\0' && if attr then c != Quote(f) else c != '>'
  {
    hide EscapedChar;
    if s != "" {
      EscapedIsSafe(s[1..], attr, f);
      EscapedCharIsSafe(s[0], attr, f);
    }
  }

  lemma EscapedCharIsSafe(c: char, attr: bool, f: Format)
    requires c != '\0'
    ensures forall i :: 0 <= i < |EscapedChar(c, attr, f)| ==>
      var d := EscapedChar(c, attr, f)[i];
      d != '<' && d != '\0' && if attr then d != Quote(f) else d != '>'
  {
  }

  /**
   With line ends normalized, printing character data and reading it back gives the same text exactly when it has no
   carriage return.
   */
  lemma PcdataRoundTrip(s: string, f: Format)
    requires NulFree(s) && !f.skipControl
    ensures Decoded(Escaped(s, false, f), true, LineEnds) == s <==> '\r' !in s
  {
    if '\r' !in s {
      PcdataSurvives(s, LineEnds);
      Unescaped(s, false, f, LineEnds);
    } else {
      NoReturns(s, f);
    }
  }

  /** No carriage return comes out of reading character data. */
  lemma {:induction false} NoReturns(s: string, f: Format)
    requires NulFree(s) && !f.skipControl
    ensures '\r' !in Decoded(Escaped(s, false, f), true, LineEnds)
  {
    hide Decoded, EscapedChar, Survives;
    if s == "" {
      NothingDecoded(LineEnds);
    } else if s[0] == '\r' {
      var rest := Escaped(s[1..], false, f);
      NoReturns(s[1..], f);
      assert Escaped(s, false, f) == ['\r'] + rest by {
        ReturnIsLiteral(f);
      }
      XmlDecode.DecodedStep(['\r'] + rest, true, LineEnds);
      if rest != "" && rest[0] == '\n' {
        StepPlain(rest, true, LineEnds);
        assert (['\r'] + rest)[2..] == rest[1..];
      } else {
        assert (['\r'] + rest)[1..] == rest;
      }
    } else {
      NoReturns(s[1..], f);
      CharSurvives(s[0]);
      UnescapedChar(s[0], false, f, LineEnds, Escaped(s[1..], false, f));
    }
  }

  lemma CharSurvives(c: char)
    requires c != '\0' && c != '\r'
    ensures Survives(c, false, LineEnds)
  {
  }

  lemma ReturnIsLiteral(f: Format)
    ensures EscapedChar('\r', false, f) == ['\r']
  {
  }
}
