/**
 What the parser makes of the text of an XML document: line ends (section 2.11 of XML 1.0), references (section 4.1) and
 white space in attribute values, as a function on strings of bytes.
 */
module XmlText {

  import opened Common
  import Utf

  // Character classes

  predicate IsSpace(c: char) {
    c == ' ' || c == '\t' || c == '\n' || c == '\r'
  }

  predicate IsStartSymbol(c: char) {
    c as int > 127 || 'a' <= c <= 'z' || 'A' <= c <= 'Z' || c == '_' || c == ':'
  }

  predicate IsSymbol(c: char) {
    IsStartSymbol(c) || '0' <= c <= '9' || c == '-' || c == '.'
  }

  predicate IsDigit(c: char, hex: bool) {
    '0' <= c <= '9' || (hex && ('a' <= c <= 'f' || 'A' <= c <= 'F'))
  }

  function DigitValue(c: char): nat
    requires IsDigit(c, true) || IsDigit(c, false)
  {
    if c <= '9' then c as int - '0' as int
    else if c <= 'F' then c as int - 'A' as int + 10
    else c as int - 'a' as int + 10
  }

  // UTF-8 (section 3 of RFC 3629)

  /** utf8_writer::any, for every 32-bit value. */
  function Utf8(v: nat): (r: string)
    ensures 1 <= |r| <= 4 && (v < 0x80 ==> r == [v as char])
  {
    var u := Utf.ScalarUnit(v);
    var bytes := Utf.Encode(Utf.Utf8, u);
    Utf.Encode8Bytes(u);
    Utf.Chars(bytes)
  }

  // References

  function Base(hex: bool): nat {
    if hex then 16 else 10
  }

  /** Where the run of digits that starts at position i ends. */
  function DigitsEnd(s: string, i: nat, hex: bool): (k: nat)
    requires i <= |s|
    ensures i <= k <= |s| && (forall j :: i <= j < k ==> IsDigit(s[j], hex)) && (k < |s| ==> !IsDigit(s[k], hex))
    decreases |s| - i
  {
    if i == |s| || !IsDigit(s[i], hex) then i else DigitsEnd(s, i + 1, hex)
  }

  /** The number that a string of digits denotes. */
  function Value(s: string, hex: bool): nat
    requires forall i :: 0 <= i < |s| ==> IsDigit(s[i], hex)
  {
    if s == "" then 0
    else
      assert IsDigit(s[|s| - 1], hex);
      Base(hex) * Value(s[..|s| - 1], hex) + DigitValue(s[|s| - 1])
  }

  /** A reference at the start of a text: what it expands to and how long it is. */
  datatype Reference = Reference(text: string, length: nat)

  function Number(s: string, skip: nat, hex: bool): (r: Option<Reference>)
    requires skip <= |s|
    ensures r.Some? ==> skip + 1 < r.value.length <= |s| && s[r.value.length - 1] == ';'
  {
    var k := DigitsEnd(s, skip, hex);
    if k == skip || k == |s| || s[k] != ';' then None else Some(Reference(Utf8(Wrap32(Value(s[skip..k], hex))), k + 1))
  }

  /** A character reference or one of the five predefined entities; anything else is not a reference. */
  function ReferenceAt(s: string): (r: Option<Reference>)
    ensures r.Some? ==> 0 < r.value.length <= |s| && 0 < |r.value.text| <= r.value.length
  {
    if "&#x" <= s then Number(s, 3, true)
    else if "&#" <= s then Number(s, 2, false)
    else if "&amp;" <= s then Some(Reference("&", 5))
    else if "&apos;" <= s then Some(Reference("'", 6))
    else if "&gt;" <= s then Some(Reference(">", 4))
    else if "&lt;" <= s then Some(Reference("<", 4))
    else if "&quot;" <= s then Some(Reference("\"", 6))
    else None
  }

  /**
   A text without the blanks at both ends and with one space for every run of them in between.  A blank is a space, or
   any white space character if every one counts; after says whether one has passed.
   */
  function Single(t: string, every: bool, after: bool): string {
    if t == "" then ""
    else if IsBlank(t[0], every) then
      var rest := Single(t[1..], every, true);
      if after || rest == "" then rest else " " + rest
    else [t[0]] + Single(t[1..], every, false)
  }

  predicate IsBlank(c: char, every: bool) {
    if every then IsSpace(c) else c == ' '
  }

  // Decoding

  /** What happens to white space: nothing, line ends become \n, each becomes a space, or runs become one space. */
  datatype Spaces = Keep | LineEnds | ToSpace | Normalize

  function SpaceRun(s: string): (k: nat)
    ensures k <= |s| && (forall i :: 0 <= i < k ==> IsSpace(s[i])) && (k < |s| ==> !IsSpace(s[k]))
  {
    if s == "" || !IsSpace(s[0]) then 0 else 1 + SpaceRun(s[1..])
  }

  /** How many characters a line end has: \r\n counts as one. */
  function LineEnd(s: string): (k: nat)
    requires s != ""
    ensures 1 <= k <= |s|
  {
    if "\r\n" <= s then 2 else 1
  }

  /** The decoding of the first characters of a text, and how many they are. */
  function Step(s: string, escapes: bool, spaces: Spaces): (r: Reference)
    requires s != ""
    ensures 0 < r.length <= |s| && |r.text| <= r.length
  {
    if escapes && s[0] == '&' && ReferenceAt(s).Some? then ReferenceAt(s).value
    else if spaces == LineEnds && s[0] == '\r' then Reference("\n", LineEnd(s))
    else if spaces == ToSpace && IsSpace(s[0]) then Reference(" ", LineEnd(s))
    else if spaces == Normalize && IsSpace(s[0]) then Reference(" ", SpaceRun(s))
    else Reference([s[0]], 1)
  }

  function Decoded(s: string, escapes: bool, spaces: Spaces): string
    decreases |s|
  {
    if s == "" then ""
    else
      var step := Step(s, escapes, spaces);
      step.text + Decoded(s[step.length..], escapes, spaces)
  }

  function TrimLeft(s: string): string {
    s[SpaceRun(s)..]
  }

  /** Where the text before position k ends when trailing white space is cut off. */
  function TrimEnd(s: string, k: nat): (r: nat)
    requires k <= |s|
    ensures r <= k && (forall i :: r <= i < k ==> IsSpace(s[i])) && (r > 0 ==> !IsSpace(s[r - 1]))
  {
    if k == 0 || !IsSpace(s[k - 1]) then k else TrimEnd(s, k - 1)
  }

  function TrimRight(s: string): string {
    s[..TrimEnd(s, |s|)]
  }

  /** Characters that decoding leaves alone. */
  predicate IsPlain(c: char, escapes: bool, spaces: Spaces) {
    !(escapes && c == '&') && !(spaces == LineEnds && c == '\r') && !(spaces.ToSpace? && IsSpace(c) && c != ' ') &&
    !(spaces.Normalize? && IsSpace(c))
  }

  lemma {:induction false} DecodedPlain(s: string, k: nat, escapes: bool, spaces: Spaces)
    requires k <= |s| && forall i :: 0 <= i < k ==> IsPlain(s[i], escapes, spaces)
    ensures Decoded(s, escapes, spaces) == s[..k] + Decoded(s[k..], escapes, spaces)
  {
    hide Decoded, IsPlain;
    if k == 0 {
      assert s[k..] == s;
    } else {
      assert IsPlain(s[0], escapes, spaces);
      StepPlain(s, escapes, spaces);
      DecodedPlain(s[1..], k - 1, escapes, spaces);
      assert s[..k] == [s[0]] + s[1..][..k - 1] && s[k..] == s[1..][k - 1..];
    }
  }

  lemma StepPlain(s: string, escapes: bool, spaces: Spaces)
    requires s != "" && IsPlain(s[0], escapes, spaces)
    ensures Decoded(s, escapes, spaces) == [s[0]] + Decoded(s[1..], escapes, spaces)
  {
    hide ReferenceAt;
    assert Step(s, escapes, spaces) == Reference([s[0]], 1);
  }

  /** Decoding never makes a text longer, so it can be done in place. */
  lemma {:induction false} DecodedShrinks(s: string, escapes: bool, spaces: Spaces)
    ensures |Decoded(s, escapes, spaces)| <= |s|
    decreases |s|
  {
    if s != "" {
      DecodedShrinks(s[Step(s, escapes, spaces).length..], escapes, spaces);
    }
  }
}
