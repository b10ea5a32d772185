/**
 Line ends and white space as XML 1.0 describes them: by replacing every occurrence of one text by another, in one pass
 after the other.
 */
module XmlLines {
  import opened Common
  import opened XmlText
  import XmlDecode

  /** Every occurrence of one text, from the left, is replaced by another. */
  function Replaced(s: string, what: string, by': string): string
    requires what != ""
  {
    if what <= s then by' + Replaced(s[|what|..], what, by')
    else if s == "" then ""
    else [s[0]] + Replaced(s[1..], what, by')
  }

  /** Section 2.11: each carriage return with its line feed, and then each other one, becomes a line feed. */
  function Lines(s: string): string {
    Replaced(Replaced(s, "\r\n", "\n"), "\r", "\n")
  }

  /** Section 3.3.3: after that, each white space character becomes a space. */
  function Blanks(s: string): string {
    Replaced(Replaced(Lines(s), "\n", " "), "\t", " ")
  }

  /** What becomes of literal text under the options. */
  function Literal(s: string, spaces: Spaces): string
    requires !spaces.Normalize?
  {
    match spaces
    case Keep => s
    case LineEnds => Lines(s)
    case ToSpace => Blanks(s)
  }

  lemma ReplacedStep(c: char, s: string, what: string, by': string)
    requires what != ""
    ensures c != what[0] ==> Replaced([c] + s, what, by') == [c] + Replaced(s, what, by')
    ensures what == [c] ==> Replaced([c] + s, what, by') == by' + Replaced(s, what, by')
  {
    var t := [c] + s;
    assert t[1..] == s;
    if c != what[0] {
      assert !(what <= t);
    } else if what == [c] {
      assert what <= t;
    }
  }

  lemma PairReplaced(s: string)
    requires s != ""
    ensures
      Replaced(s, "\r\n", "\n") ==
      if |s| >= 2 && s[0] == '\r' && s[1] == '\n' then "\n" + Replaced(s[2..], "\r\n", "\n")
      else [s[0]] + Replaced(s[1..], "\r\n", "\n")
  {
    var pair := "\r\n";
    assert pair[0] == '\r' && pair[1] == '\n';
    if |s| >= 2 && s[0] == '\r' && s[1] == '\n' {
      assert s[..2] == pair;
      assert pair <= s;
    } else {
      assert !(pair <= s);
    }
  }

  /** How many characters the first character of the result stands for. */
  function FirstLength(s: string, spaces: Spaces): (k: nat)
    requires s != ""
    ensures 1 <= k <= |s|
  {
    if !spaces.Keep? && |s| >= 2 && s[0] == '\r' && s[1] == '\n' then 2 else 1
  }

  function FirstWritten(c: char, spaces: Spaces): char {
    if spaces.ToSpace? && IsSpace(c) then ' ' else if spaces.LineEnds? && c == '\r' then '\n' else c
  }

  lemma LiteralStep(s: string, spaces: Spaces)
    requires s != "" && !spaces.Normalize?
    ensures Literal(s, spaces) == [FirstWritten(s[0], spaces)] + Literal(s[FirstLength(s, spaces)..], spaces)
  {
    hide Replaced;
    if spaces.Keep? {
      assert s == [s[0]] + s[1..];
    } else {
      PairReplaced(s);
      var length := FirstLength(s, spaces);
      var rest := Replaced(s[length..], "\r\n", "\n");
      var c := if length == 2 then '\n' else s[0];
      ReplacedStep(c, rest, "\r", "\n");
      var d, lines := if c == '\r' then '\n' else c, Replaced(rest, "\r", "\n");
      assert Lines(s) == [d] + lines;
      if spaces.ToSpace? {
        ReplacedStep(d, lines, "\n", " ");
        ReplacedStep(if d == '\n' then ' ' else d, Replaced(lines, "\n", " "), "\t", " ");
      }
    }
  }

  lemma LiteralEmpty(spaces: Spaces)
    requires !spaces.Normalize?
    ensures Literal("", spaces) == ""
  {
  }

  /** No reference begins in the first n characters. */
  ghost predicate NoReference(s: string, n: nat) {
    forall i :: 0 <= i < n <= |s| && s[i] == '&' ==> ReferenceAt(s[i..]) == None
  }

  /** A text without references is decoded by replacing its line ends, or its white space. */
  lemma DecodedLiteral(s: string, escapes: bool, spaces: Spaces)
    requires !spaces.Normalize? && (escapes ==> NoReference(s, |s|))
    ensures Decoded(s, escapes, spaces) == Literal(s, spaces)
  {
    DecodedUpTo(s, |s|, escapes, spaces);
    assert s[..|s|] == s && s[|s|..] == "";
  }

  /** The text in front of a reference is decoded so; the reference expands, and decoding goes on behind it. */
  lemma DecodedReference(s: string, n: nat, spaces: Spaces)
    requires !spaces.Normalize? && n < |s| && NoReference(s, n) && s[n] == '&' && ReferenceAt(s[n..]).Some?
    ensures
      var r := ReferenceAt(s[n..]).value;
      Decoded(s, true, spaces) == Literal(s[..n], spaces) + (r.text + Decoded(s[n + r.length..], true, spaces))
  {
    hide Decoded, Literal, ReferenceAt;
    DecodedUpTo(s, n, true, spaces);
    XmlDecode.DecodedStep(s[n..], true, spaces);
    var r := ReferenceAt(s[n..]).value;
    assert s[n..][r.length..] == s[n + r.length..];
  }

  lemma {:induction false} DecodedUpTo(s: string, n: nat, escapes: bool, spaces: Spaces)
    requires !spaces.Normalize? && n <= |s| && (escapes ==> NoReference(s, n))
    requires n < |s| ==> s[n] == '&'
    ensures Decoded(s, escapes, spaces) == Literal(s[..n], spaces) + Decoded(s[n..], escapes, spaces)
    decreases n
  {
    hide Decoded, Literal, NoReference, FirstLength, FirstWritten, Step;
    if n == 0 {
      LiteralEmpty(spaces);
      assert s[..0] == "" && s[0..] == s;
    } else {
      XmlDecode.DecodedStep(s, escapes, spaces);
      StepOfLiteral(s, n, escapes, spaces);
      LiteralStep(s[..n], spaces);
      var length := FirstLength(s[..n], spaces);
      NoReferenceOn(s, n, length, escapes);
      DecodedUpTo(s[length..], n - length, escapes, spaces);
      assert s[length..][..n - length] == s[..n][length..] && s[length..][n - length..] == s[n..];
    }
  }

  lemma StepOfLiteral(s: string, n: nat, escapes: bool, spaces: Spaces)
    requires !spaces.Normalize? && 0 < n <= |s| && (escapes ==> NoReference(s, n)) && (n < |s| ==> s[n] == '&')
    ensures Step(s, escapes, spaces) == Reference([FirstWritten(s[0], spaces)], FirstLength(s[..n], spaces))
    ensures n < |s| ==>
      var k := FirstLength(s[..n], spaces); k <= n && s[k..][n - k] == '&'
  {
    hide ReferenceAt;
    assert s[0..] == s;
    PairAtStart(s);
  }

  lemma PairAtStart(s: string)
    ensures "\r\n" <= s <==> |s| >= 2 && s[0] == '\r' && s[1] == '\n'
  {
    var pair := "\r\n";
    assert pair[0] == '\r' && pair[1] == '\n';
    if |s| >= 2 && s[0] == '\r' && s[1] == '\n' {
      assert s[..2] == pair;
    }
  }

  lemma NoReferenceOn(s: string, n: nat, k: nat, escapes: bool)
    requires k <= n <= |s| && (escapes ==> NoReference(s, n))
    ensures escapes ==> NoReference(s[k..], n - k)
  {
    hide ReferenceAt;
    if escapes {
      forall i | 0 <= i < n - k && s[k..][i] == '&'
        ensures ReferenceAt(s[k..][i..]) == None
      {
        assert s[k..][i..] == s[k + i..];
      }
    }
  }
}
