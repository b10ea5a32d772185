/**
 The printer: character escaping, and the walk over the linked node tree that
 writes a document without recursion.  Raw format, that is without indentation.
 */
module XmlPrint {
  import opened XmlTree
  import opened BufferedWriter
  import Traversal
  import Utf

  datatype Format = Format(singleQuote: bool, noEscapes: bool, noEmptyTags: bool, skipControl: bool)

  // Escaping

  /** The characters that are not written as they are, in attribute values and in character data. */
  predicate IsSpecial(c: char, attr: bool) {
    if attr then c < ' ' || c == '&' || c == '<' || c == '"' || c == '\''
    else (c < ' ' && c != '\t' && c != '\n' && c != '\r') || c == '&' || c == '<' || c == '>'
  }

  function ControlReference(c: char): string
    requires c < ' '
  {
    "&#" + [(c as int / 10 + '0' as int) as char, (c as int % 10 + '0' as int) as char] + ";"
  }

  function EscapedChar(c: char, attr: bool, f: Format): string {
    if !IsSpecial(c, attr) then [c]
    else if c == '&' then "&amp;"
    else if c == '<' then "&lt;"
    else if c == '>' then "&gt;"
    else if c == '"' then (if f.singleQuote then "\"" else "&quot;")
    else if c == '\'' then (if f.singleQuote then "&apos;" else "'")
    else if f.skipControl then ""
    else ControlReference(c)
  }

  function Escaped(s: string, attr: bool, f: Format): string {
    if s == "" then "" else EscapedChar(s[0], attr, f) + Escaped(s[1..], attr, f)
  }

  function OutputText(s: string, attr: bool, f: Format): string {
    if f.noEscapes then s else Escaped(s, attr, f)
  }

  lemma {:induction false} EscapedPlain(s: string, k: nat, attr: bool, f: Format)
    requires k <= |s| && forall i :: 0 <= i < k ==> !IsSpecial(s[i], attr)
    ensures Escaped(s, attr, f) == s[..k] + Escaped(s[k..], attr, f)
  {
    hide IsSpecial, Escaped, EscapedChar;
    if k == 0 {
      assert s[k..] == s;
    } else {
      FirstPlain(s, attr, f);
      EscapedPlain(s[1..], k - 1, attr, f);
      assert s[1..][k - 1..] == s[k..] && s[..k] == [s[0]] + s[1..][..k - 1];
    }
  }

  lemma FirstPlain(s: string, attr: bool, f: Format)
    requires s != "" && !IsSpecial(s[0], attr)
    ensures Escaped(s, attr, f) == [s[0]] + Escaped(s[1..], attr, f)
  {
  }

  lemma {:induction false} AsciiIsSeparate(enc: Encoding, s: string)
    requires forall i :: 0 <= i < |s| ==> s[i] as int < 0x80
    ensures Separate(enc, s)
  {
    if s != "" {
      AsciiIsSeparate(enc, s[1..]);
    }
  }

  /** A text in front of, or after, an ASCII character is separate if the whole is. */
  lemma AsciiCut(enc: Encoding, s: string, k: nat)
    requires Separate(enc, s) && k <= |s| && (k < |s| ==> s[k] as int < 0x80)
    ensures Separate(enc, s[..k]) && Separate(enc, s[k..])
    ensures k < |s| ==> Separate(enc, s[k + 1..])
  {
    if enc != NativeUtf8 {
      Cut(s, k);
      if k < |s| {
        var t := s[k..];
        WellFormedStep(t);
        assert t[1..] == s[k + 1..] && t[0] == s[k];
      }
    }
  }

  lemma EscapedCharAscii(c: char, attr: bool, f: Format)
    requires IsSpecial(c, attr)
    ensures c as int < 0x80 && |EscapedChar(c, attr, f)| <= 6
    ensures forall i :: 0 <= i < |EscapedChar(c, attr, f)| ==> EscapedChar(c, attr, f)[i] as int < 0x80
  {
  }

  lemma EscapedStep(s: string, p: nat, attr: bool, f: Format)
    requires p < |s|
    ensures Escaped(s[p..], attr, f) == EscapedChar(s[p], attr, f) + Escaped(s[p + 1..], attr, f)
  {
    assert s[p..][1..] == s[p + 1..];
  }

  /** text_output_escaped. */
  method TextOutputEscaped(w: Writer, s: string, attr: bool, f: Format)
    requires w.Valid() && Separate(w.enc, s)
    modifies w, w.buffer, w.scratch
    ensures w.Valid() && w.Contents() == old(w.Contents()) + Escaped(s, attr, f)
  {
    hide Separate, Escaped, EscapedChar, Writer.Valid, Writer.Contents, IsSpecial;
    var p := 0;
    ghost var start := w.Contents();
    assert s[0..] == s;
    while p < |s|
      invariant p <= |s| && w.Valid() && Separate(w.enc, s[p..])
      invariant w.Contents() + Escaped(s[p..], attr, f) == start + Escaped(s, attr, f)
    {
      var prev := p;
      while p < |s| && !IsSpecial(s[p], attr)
        invariant prev <= p <= |s| && forall i :: prev <= i < p ==> !IsSpecial(s[i], attr)
      {
        p := p + 1;
      }
      UsualPart(w.enc, s, prev, p, attr, f);
      w.WriteBuffer(s[prev..p]);
      if p < |s| {
        EscapedStep(s, p, attr, f);
        WriteSpecial(w, s[p], attr, f);
        p := p + 1;
      }
    }
    NothingEscaped(attr, f);
    assert s[p..] == "";
  }

  lemma NothingEscaped(attr: bool, f: Format)
    ensures Escaped("", attr, f) == ""
  {
  }

  lemma UsualPart(enc: Encoding, s: string, prev: nat, p: nat, attr: bool, f: Format)
    requires prev <= p <= |s| && Separate(enc, s[prev..]) && (p < |s| ==> IsSpecial(s[p], attr))
    requires forall i :: prev <= i < p ==> !IsSpecial(s[i], attr)
    ensures Separate(enc, s[prev..p]) && Separate(enc, s[p..]) && (p < |s| ==> Separate(enc, s[p + 1..]))
    ensures Escaped(s[prev..], attr, f) == s[prev..p] + Escaped(s[p..], attr, f)
  {
    hide Separate, Escaped;
    var t, k := s[prev..], p - prev;
    assert forall i :: 0 <= i < |t| ==> t[i] == s[prev + i];
    if p < |s| {
      EscapedCharAscii(s[p], attr, f);
    }
    AsciiCut(enc, t, k);
    EscapedPlain(t, k, attr, f);
    assert t[..k] == s[prev..p] && t[k..] == s[p..];
    assert p < |s| ==> t[k + 1..] == s[p + 1..];
  }

  /** The cases of the switch for special characters. */
  method WriteSpecial(w: Writer, c: char, attr: bool, f: Format)
    requires w.Valid() && IsSpecial(c, attr)
    modifies w, w.buffer, w.scratch
    ensures w.Valid() && w.Contents() == old(w.Contents()) + EscapedChar(c, attr, f)
  {
    hide Writer.Valid, Writer.Contents, Separate, IsSpecial;
    EscapedCharAscii(c, attr, f);
    AsciiIsSeparate(w.enc, EscapedChar(c, attr, f));
    if c == '&' {
      w.Write("&amp;");
    } else if c == '<' {
      w.Write("&lt;");
    } else if c == '>' {
      w.Write("&gt;");
    } else if c == '"' {
      w.Write(if f.singleQuote then "\"" else "&quot;");
    } else if c == '\'' {
      w.Write(if f.singleQuote then "&apos;" else "'");
    } else if !f.skipControl {
      ControlSpecial(c, attr);
      w.Write(ControlReference(c));
    }
  }

  lemma ControlSpecial(c: char, attr: bool)
    requires IsSpecial(c, attr) && c !in {'&', '<', '>', '"', '\''}
    ensures c < ' '
  {
  }

  method TextOutput(w: Writer, s: string, attr: bool, f: Format)
    requires w.Valid() && Separate(w.enc, s)
    modifies w, w.buffer, w.scratch
    ensures w.Valid() && w.Contents() == old(w.Contents()) + OutputText(s, attr, f)
  {
    if f.noEscapes {
      w.WriteString(s);
    } else {
      TextOutputEscaped(w, s, attr, f);
    }
  }

  // Nodes

  const DEFAULT_NAME := ":anonymous"

  function NameOr(name: string): string {
    if name == "" then DEFAULT_NAME else name
  }

  function Quote(f: Format): char {
    if f.singleQuote then '\'' else '"'
  }

  function AttributeText(a: Attribute, f: Format): string {
    " " + NameOr(a.name) + "=" + [Quote(f)] + OutputText(a.value, true, f) + [Quote(f)]
  }

  function AttributesText(attributes: seq<Attribute>, f: Format): string {
    if attributes == [] then "" else AttributeText(attributes[0], f) + AttributesText(attributes[1..], f)
  }

  function EndText(d: NodeData): string {
    "</" + NameOr(d.name) + ">"
  }

  /** The end of a start tag, with the element's own value if it has one, and the end tag if there are no children. */
  function StartEnd(d: NodeData, hasChild: bool, f: Format): string {
    if d.value == "" then
      if hasChild then ">" else if f.noEmptyTags then ">" + EndText(d) else "/>"
    else
      ">" + OutputText(d.value, false, f) + if hasChild then "" else EndText(d)
  }

  function StartText(d: NodeData, hasChild: bool, f: Format): string {
    "<" + NameOr(d.name) + AttributesText(d.attributes, f) + StartEnd(d, hasChild, f)
  }

  lemma Appended3(s: string, a: string, b: string, c: string)
    ensures s + a + b + c == s + (a + b + c)
  {
  }

  lemma Appended4(s: string, a: string, b: string, c: string, d: string)
    ensures s + a + b + c + d == s + (a + b + c + d)
  {
  }

  datatype Section = Comment | Pi | Cdata

  /** Where the content of a section must be broken up: -- or a final -, ?>, and ]]>. */
  predicate Breaks(s: string, i: nat, kind: Section)
    requires i < |s|
  {
    match kind
    case Comment => s[i] == '-' && (i + 1 == |s| || s[i + 1] == '-')
    case Pi => s[i] == '?' && i + 1 < |s| && s[i + 1] == '>'
    case Cdata => s[i] == ']' && i + 2 < |s| && s[i + 1] == ']' && s[i + 2] == '>'
  }

  /** What is written there, and how many characters it stands for. */
  function Break(kind: Section): string {
    match kind
    case Comment => "- "
    case Pi => "? >"
    case Cdata => "]]" + "]]>" + "<![CDATA["
  }

  function BreakLength(kind: Section): nat {
    if kind.Comment? then 1 else 2
  }

  function Body(s: string, i: nat, kind: Section): string
    decreases |s| - i
  {
    if i >= |s| then ""
    else if Breaks(s, i, kind) then Break(kind) + Body(s, i + BreakLength(kind), kind)
    else [s[i]] + Body(s, i + 1, kind)
  }

  function SimpleText(d: NodeData, f: Format): string {
    match d.kind
    case KPcdata => OutputText(d.value, false, f)
    case KCdata => "<![CDATA[" + Body(d.value, 0, Cdata) + "]]>"
    case KComment => "<!--" + Body(d.value, 0, Comment) + "-->"
    case KPi => "<?" + NameOr(d.name) + (if d.value == "" then "" else " " + Body(d.value, 0, Pi)) + "?>"
    case KDeclaration => "<?" + NameOr(d.name) + AttributesText(d.attributes, f) + "?>"
    case KDoctype => "<!DOCTYPE" + (if d.value == "" then "" else " " + d.value) + ">"
    case _ => ""
  }

  /** What is written on entering a node, and on leaving it. */
  function OpenText(d: NodeData, hasChild: bool, f: Format): string {
    if d.kind == KElement then StartText(d, hasChild, f) else SimpleText(d, f)
  }

  function CloseText(d: NodeData, hasChild: bool): string {
    if d.kind == KElement && hasChild then EndText(d) else ""
  }

  /** The text of the subtrees that fill the interval [i, j). */
  ghost function Printed(t: Tree, f: Format, i: nat, j: nat): string
    requires t.Valid() && j <= t.Count()
    decreases j - i
  {
    if i >= j || i + t.size[i] > j then ""
    else
      OpenText(t.data[i], t.size[i] > 1, f) + Printed(t, f, i + 1, i + t.size[i]) +
      CloseText(t.data[i], t.size[i] > 1) + Printed(t, f, i + t.size[i], j)
  }

  /** The text of the subtree of a node: its tags around those of its children. */
  ghost function NodeText(t: Tree, f: Format, i: nat): string
    requires t.Valid() && i < t.Count()
  {
    Printed(t, f, i, i + t.size[i])
  }

  /** What follows the subtree of node i inside the subtree of root. */
  ghost function After(t: Tree, f: Format, root: nat, i: nat): string
    requires t.Valid() && i < t.Count()
    decreases i
  {
    if i <= root then ""
    else
      var p := t.parent[i];
      Printed(t, f, i + t.size[i], p + t.size[p]) + CloseText(t.data[p], true) + After(t, f, root, p)
  }

  /** The strings of a node can be written piece by piece. */
  predicate DataSeparate(enc: Encoding, d: NodeData) {
    Separate(enc, d.name) && Separate(enc, d.value) &&
    forall a :: a in d.attributes ==> Separate(enc, a.name) && Separate(enc, a.value)
  }

  lemma NameIsSeparate(enc: Encoding, name: string)
    requires Separate(enc, name)
    ensures Separate(enc, NameOr(name))
  {
    hide Separate;
    assert forall i :: 0 <= i < |DEFAULT_NAME| ==> DEFAULT_NAME[i] as int < 0x80;
    AsciiIsSeparate(enc, DEFAULT_NAME);
  }

  /** Short pieces of markup. */
  method WriteAscii(w: Writer, d: string)
    requires w.Valid() && 1 <= |d| <= 6 && forall i :: 0 <= i < |d| ==> d[i] as int < 0x80
    modifies w, w.buffer, w.scratch
    ensures w.Valid() && w.Contents() == old(w.Contents()) + d
  {
    AsciiIsSeparate(w.enc, d);
    w.Write(d);
  }

  method WriteName(w: Writer, name: string)
    requires w.Valid() && Separate(w.enc, name)
    modifies w, w.buffer, w.scratch
    ensures w.Valid() && w.Contents() == old(w.Contents()) + NameOr(name)
  {
    NameIsSeparate(w.enc, name);
    w.WriteString(NameOr(name));
  }

  /** node_output_attributes. */
  method NodeOutputAttributes(w: Writer, d: NodeData, f: Format)
    requires w.Valid() && DataSeparate(w.enc, d)
    modifies w, w.buffer, w.scratch
    ensures w.Valid() && w.Contents() == old(w.Contents()) + AttributesText(d.attributes, f)
  {
    hide Writer.Valid, Writer.Contents, Separate, OutputText, NameOr;
    ghost var start := w.Contents();
    var k := 0;
    assert d.attributes[0..] == d.attributes;
    while k < |d.attributes|
      invariant k <= |d.attributes| && w.Valid()
      invariant w.Contents() + AttributesText(d.attributes[k..], f) == start + AttributesText(d.attributes, f)
    {
      var a := d.attributes[k];
      assert a in d.attributes && d.attributes[k..][1..] == d.attributes[k + 1..];
      NodeOutputAttribute(w, a, f);
      k := k + 1;
    }
  }

  method NodeOutputAttribute(w: Writer, a: Attribute, f: Format)
    requires w.Valid() && Separate(w.enc, a.name) && Separate(w.enc, a.value)
    modifies w, w.buffer, w.scratch
    ensures w.Valid() && w.Contents() == old(w.Contents()) + AttributeText(a, f)
  {
    hide Writer.Valid, Writer.Contents, Separate, OutputText, NameOr;
    ghost var start, value := w.Contents(), OutputText(a.value, true, f);
    Appended4(start + " " + NameOr(a.name), "=", [Quote(f)], value, [Quote(f)]);
    Appended3(start, " ", NameOr(a.name), "=" + [Quote(f)] + value + [Quote(f)]);
    AttributeTextIs(a, f);
    WriteAscii(w, " ");
    WriteName(w, a.name);
    WriteAscii(w, "=" + [Quote(f)]);
    TextOutput(w, a.value, true, f);
    WriteAscii(w, [Quote(f)]);
  }

  lemma AttributeTextIs(a: Attribute, f: Format)
    ensures AttributeText(a, f) == " " + NameOr(a.name) + ("=" + [Quote(f)] + OutputText(a.value, true, f) + [Quote(f)])
  {
  }

  /** node_output_end. */
  method NodeOutputEnd(w: Writer, d: NodeData)
    requires w.Valid() && DataSeparate(w.enc, d)
    modifies w, w.buffer, w.scratch
    ensures w.Valid() && w.Contents() == old(w.Contents()) + EndText(d)
  {
    hide Writer.Valid, Writer.Contents, Separate, NameOr;
    Appended3(w.Contents(), "</", NameOr(d.name), ">");
    WriteAscii(w, "</");
    WriteName(w, d.name);
    WriteAscii(w, ">");
  }

  /** node_output_start: whether the children and an end tag are still to come. */
  method NodeOutputStart(w: Writer, d: NodeData, hasChild: bool, f: Format) returns (more: bool)
    requires w.Valid() && DataSeparate(w.enc, d)
    modifies w, w.buffer, w.scratch
    ensures w.Valid() && w.Contents() == old(w.Contents()) + StartText(d, hasChild, f) && more == hasChild
  {
    hide Writer.Valid, Writer.Contents, Separate, OutputText, NameOr, AttributesText, StartEnd;
    Appended4(w.Contents(), "<", NameOr(d.name), AttributesText(d.attributes, f), StartEnd(d, hasChild, f));
    WriteAscii(w, "<");
    WriteName(w, d.name);
    NodeOutputAttributes(w, d, f);
    NodeOutputStartEnd(w, d, hasChild, f);
    more := hasChild;
  }

  method NodeOutputStartEnd(w: Writer, d: NodeData, hasChild: bool, f: Format)
    requires w.Valid() && DataSeparate(w.enc, d)
    modifies w, w.buffer, w.scratch
    ensures w.Valid() && w.Contents() == old(w.Contents()) + StartEnd(d, hasChild, f)
  {
    hide Writer.Valid, Writer.Contents, Separate, OutputText, EndText;
    ghost var start := w.Contents();
    if d.value == "" {
      if !hasChild {
        if f.noEmptyTags {
          assert start + ">" + EndText(d) == start + (">" + EndText(d));
          WriteAscii(w, ">");
          NodeOutputEnd(w, d);
        } else {
          WriteAscii(w, "/>");
        }
      } else {
        WriteAscii(w, ">");
      }
    } else {
      Appended3(start, ">", OutputText(d.value, false, f), if hasChild then "" else EndText(d));
      WriteAscii(w, ">");
      TextOutput(w, d.value, false, f);
      if !hasChild {
        NodeOutputEnd(w, d);
      }
    }
  }

  // Comments, processing instructions, CDATA sections

  lemma FirstOfBody(s: string, i: nat, kind: Section)
    ensures i < |s| && !kind.Cdata? ==> |Body(s, i, kind)| > 0 && Body(s, i, kind)[0] == s[i]
    ensures i >= |s| ==> Body(s, i, kind) == ""
  {
  }

  /** A printed comment has no -- before its end. */
  lemma {:induction false} CommentIsLegal(s: string, i: nat)
    ensures
      var b := Body(s, i, Comment);
      forall k :: 0 <= k < |b| && b[k] == '-' ==> k + 1 < |b| && b[k + 1] != '-'
    decreases |s| - i
  {
    if i < |s| {
      CommentIsLegal(s, i + 1);
      FirstOfBody(s, i + 1, Comment);
    }
  }

  /** A printed processing instruction has no ?> before its end. */
  lemma {:induction false} PiIsLegal(s: string, i: nat)
    ensures
      var b := Body(s, i, Pi);
      forall k :: 0 <= k < |b| - 1 && b[k] == '?' ==> b[k + 1] != '>'
    decreases |s| - i
  {
    if i < |s| {
      if Breaks(s, i, Pi) {
        PiIsLegal(s, i + 2);
        assert Body(s, i, Pi) == "? >" + Body(s, i + 2, Pi);
      } else {
        PiIsLegal(s, i + 1);
        FirstOfBody(s, i + 1, Pi);
      }
    }
  }

  lemma BodyStep(s: string, i: nat, kind: Section)
    requires i < |s| && !Breaks(s, i, kind)
    ensures Body(s, i, kind) == [s[i]] + Body(s, i + 1, kind)
  {
  }

  lemma {:induction false} BodyPlain(s: string, i: nat, k: nat, kind: Section)
    requires i <= k <= |s| && forall j :: i <= j < k ==> !Breaks(s, j, kind)
    ensures Body(s, i, kind) == s[i..k] + Body(s, k, kind)
    decreases k - i
  {
    hide Breaks, Body;
    if i < k {
      BodyStep(s, i, kind);
      BodyPlain(s, i + 1, k, kind);
      assert s[i..k] == [s[i]] + s[i + 1..k];
    }
  }

  /** The text up to a break, and the text after it, are separate. */
  lemma BreakCut(enc: Encoding, s: string, i: nat, k: nat, kind: Section)
    requires i <= k <= |s| && Separate(enc, s[i..]) && (k < |s| ==> Breaks(s, k, kind))
    ensures Separate(enc, s[i..k])
    ensures k < |s| ==> k + BreakLength(kind) <= |s| && Separate(enc, s[i..k + BreakLength(kind)]) &&
                        Separate(enc, s[k + BreakLength(kind)..])
  {
    hide Separate;
    var t := s[i..];
    AsciiCut(enc, t, k - i);
    assert t[..k - i] == s[i..k];
    if k < |s| {
      var b := BreakLength(kind);
      assert t[k - i + 1..] == s[k + 1..];
      if b == 2 {
        AsciiCut(enc, s[k + 1..], 0);
        assert s[k + 1..][0] == s[k + 1] && s[k + 1..][1..] == s[k + 2..];
      }
      AsciiIsSeparate(enc, s[k..k + b]);
      SeparateConcat(enc, s[i..k], s[k..k + b]);
      assert s[i..k] + s[k..k + b] == s[i..k + b];
    }
  }

  lemma SeparateConcat(enc: Encoding, s: string, t: string)
    requires Separate(enc, s) && Separate(enc, t)
    ensures Separate(enc, s + t)
  {
    hide Transcode;
    TranscodeConcat(enc, s, t);
  }

  /** The inner loop of the three output functions. */
  method FindBreak(s: string, i: nat, kind: Section) returns (k: nat)
    requires i <= |s|
    ensures i <= k <= |s| && (k < |s| ==> Breaks(s, k, kind)) && forall j :: i <= j < k ==> !Breaks(s, j, kind)
  {
    k := i;
    while k < |s| && !Breaks(s, k, kind)
      invariant i <= k <= |s| && forall j :: i <= j < k ==> !Breaks(s, j, kind)
    {
      k := k + 1;
    }
  }

  /** The loops of node_output_comment and node_output_pi_value. */
  method OutputBody(w: Writer, s: string, kind: Section)
    requires w.Valid() && Separate(w.enc, s) && !kind.Cdata?
    modifies w, w.buffer, w.scratch
    ensures w.Valid() && w.Contents() == old(w.Contents()) + Body(s, 0, kind)
  {
    hide Writer.Valid, Writer.Contents, Separate, Body, Breaks, Break;
    ghost var start := w.Contents();
    var i := 0;
    assert s[0..] == s;
    while i < |s|
      invariant i <= |s| && w.Valid() && Separate(w.enc, s[i..])
      invariant w.Contents() + Body(s, i, kind) == start + Body(s, 0, kind)
    {
      var k := FindBreak(s, i, kind);
      BodyPlain(s, i, k, kind);
      BreakCut(w.enc, s, i, k, kind);
      w.WriteBuffer(s[i..k]);
      if k < |s| {
        BodyBreak(s, k, kind);
        WriteAscii(w, Break(kind));
        k := k + BreakLength(kind);
      }
      i := k;
      assert i == |s| ==> s[i..] == "";
      EmptyIsSeparate(w.enc);
    }
    BodyEnd(s, kind);
  }

  lemma BodyBreak(s: string, k: nat, kind: Section)
    requires k < |s| && Breaks(s, k, kind)
    ensures Body(s, k, kind) == Break(kind) + Body(s, k + BreakLength(kind), kind)
    ensures !kind.Cdata? ==> |Break(kind)| <= 3 && forall i :: 0 <= i < |Break(kind)| ==> Break(kind)[i] as int < 0x80
    ensures k + BreakLength(kind) <= |s| && |Break(kind)| > 0
  {
  }

  lemma BodyEnd(s: string, kind: Section)
    ensures Body(s, |s|, kind) == ""
  {
  }

  /** text_output_cdata. */
  method TextOutputCdata(w: Writer, s: string)
    requires w.Valid() && Separate(w.enc, s)
    modifies w, w.buffer, w.scratch
    ensures w.Valid() && w.Contents() == old(w.Contents()) + "<![CDATA[" + Body(s, 0, Cdata) + "]]>"
  {
    hide Writer.Valid, Writer.Contents, Separate, Body, Breaks, Break, SectionsLeft;
    ghost var goal := w.Contents() + SectionsLeft(s, 0);
    AllLeft(w.Contents(), s);
    var i := 0;
    var more := true;
    assert s[0..] == s;
    while more
      invariant i <= |s| && w.Valid() && Separate(w.enc, s[i..])
      invariant w.Contents() + (if more then SectionsLeft(s, i) else "") == goal
      decreases |s| - i, more
    {
      ghost var before := w.Contents();
      OpenCdata(w);
      var k := FindBreak(s, i, Cdata);
      BodyPlain(s, i, k, Cdata);
      BreakCut(w.enc, s, i, k, Cdata);
      if k < |s| {
        SectionBreak(s, i, k);
        k := k + 2;
      }
      SectionTurn(before, s, i, k);
      w.WriteBuffer(s[i..k]);
      WriteAscii(w, "]]>");
      i := k;
      more := i < |s|;
      assert i == |s| ==> s[i..] == "";
      EmptyIsSeparate(w.enc);
    }
  }

  /** What the text from position i on is written as. */
  ghost function SectionsLeft(s: string, i: nat): string {
    "<![CDATA[" + Body(s, i, Cdata) + "]]>"
  }

  lemma AllLeft(before: string, s: string)
    ensures before + SectionsLeft(s, 0) == before + "<![CDATA[" + Body(s, 0, Cdata) + "]]>"
  {
    hide Body;
  }

  /** One section is written; others follow if it ends with a break. */
  lemma SectionTurn(before: string, s: string, i: nat, k: nat)
    requires i <= k <= |s|
    requires k < |s| ==> Body(s, i, Cdata) == s[i..k] + "]]>" + "<![CDATA[" + Body(s, k, Cdata)
    requires k == |s| ==> Body(s, i, Cdata) == s[i..k] + Body(s, k, Cdata)
    ensures
      before + "<![CDATA[" + s[i..k] + "]]>" + (if k < |s| then SectionsLeft(s, k) else "") ==
      before + SectionsLeft(s, i)
  {
    hide Body;
    if k == |s| {
      BodyEnd(s, Cdata);
      assert s[i..k] + "" == s[i..k];
    }
  }

  /** Leaving a section after ]] and opening another one gives the break. */
  lemma SectionBreak(s: string, i: nat, k: nat)
    requires i <= k < |s| && Breaks(s, k, Cdata) && Body(s, i, Cdata) == s[i..k] + Body(s, k, Cdata)
    ensures k + 2 < |s| && Body(s, i, Cdata) == s[i..k + 2] + "]]>" + "<![CDATA[" + Body(s, k + 2, Cdata)
  {
    hide Body;
    var rest := Body(s, k + 2, Cdata);
    BodyBreak(s, k, Cdata);
    assert s[k..k + 2] == "]]";
    assert s[i..k] + s[k..k + 2] == s[i..k + 2];
    Reassociated(s[i..k], "]]", "]]>", "<![CDATA[", rest);
  }

  lemma Reassociated(a: string, b: string, c: string, d: string, e: string)
    ensures a + (b + c + d + e) == a + b + c + d + e
  {
  }

  method OpenCdata(w: Writer)
    requires w.Valid()
    modifies w, w.buffer, w.scratch
    ensures w.Valid() && w.Contents() == old(w.Contents()) + "<![CDATA["
  {
    hide Writer.Valid, Writer.Contents;
    WriteAscii(w, "<![CD");
    WriteAscii(w, "ATA[");
  }

  /** node_output_simple. */
  method NodeOutputSimple(w: Writer, d: NodeData, f: Format)
    requires w.Valid() && DataSeparate(w.enc, d) && d.kind != KElement && d.kind != KDocument
    modifies w, w.buffer, w.scratch
    ensures w.Valid() && w.Contents() == old(w.Contents()) + SimpleText(d, f)
  {
    hide Writer.Valid, Writer.Contents, Separate, OutputText, NameOr, AttributesText, Body;
    ghost var start := w.Contents();
    match d.kind {
      case KPcdata =>
        TextOutput(w, d.value, false, f);
      case KCdata =>
        Appended3(start, "<![CDATA[", Body(d.value, 0, Cdata), "]]>");
        TextOutputCdata(w, d.value);
      case KComment =>
        Appended3(start, "<!--", Body(d.value, 0, Comment), "-->");
        WriteAscii(w, "<!--");
        OutputBody(w, d.value, Comment);
        WriteAscii(w, "-->");
      case KPi =>
        OutputPi(w, d);
      case KDeclaration =>
        Appended4(start, "<?", NameOr(d.name), AttributesText(d.attributes, f), "?>");
        WriteAscii(w, "<?");
        WriteName(w, d.name);
        NodeOutputAttributes(w, d, f);
        WriteAscii(w, "?>");
      case KDoctype =>
        OutputDoctype(w, d);
    }
  }

  method OutputPi(w: Writer, d: NodeData)
    requires w.Valid() && DataSeparate(w.enc, d)
    modifies w, w.buffer, w.scratch
    ensures w.Valid() && w.Contents() == old(w.Contents()) +
      ("<?" + NameOr(d.name) + (if d.value == "" then "" else " " + Body(d.value, 0, Pi)) + "?>")
  {
    hide Writer.Valid, Writer.Contents, Separate, NameOr, Body;
    ghost var start, value := w.Contents(), if d.value == "" then "" else " " + Body(d.value, 0, Pi);
    Appended4(start, "<?", NameOr(d.name), value, "?>");
    WriteAscii(w, "<?");
    WriteName(w, d.name);
    ghost var named := w.Contents();
    if d.value != "" {
      assert named + " " + Body(d.value, 0, Pi) == named + value;
      WriteAscii(w, " ");
      OutputBody(w, d.value, Pi);
    } else {
      assert named + value == named;
    }
    WriteAscii(w, "?>");
  }

  method OutputDoctype(w: Writer, d: NodeData)
    requires w.Valid() && DataSeparate(w.enc, d)
    modifies w, w.buffer, w.scratch
    ensures w.Valid() && w.Contents() == old(w.Contents()) +
      ("<!DOCTYPE" + (if d.value == "" then "" else " " + d.value) + ">")
  {
    hide Writer.Valid, Writer.Contents, Separate;
    ghost var start, value := w.Contents(), if d.value == "" then "" else " " + d.value;
    Appended3(start, "<!DOCTYPE", value, ">");
    assert start + "<!DOC" + "TYPE" == start + "<!DOCTYPE";
    WriteAscii(w, "<!DOC");
    WriteAscii(w, "TYPE");
    ghost var named := w.Contents();
    if d.value != "" {
      assert named + " " + d.value == named + value;
      WriteAscii(w, " ");
      w.WriteString(d.value);
    } else {
      assert named + value == named;
    }
    WriteAscii(w, ">");
  }

  // The walk

  lemma PrintedStep(t: Tree, f: Format, i: nat, j: nat)
    requires t.Valid() && i < j <= t.Count() && i + t.size[i] <= j
    ensures Printed(t, f, i, j) ==
      OpenText(t.data[i], t.size[i] > 1, f) + Printed(t, f, i + 1, i + t.size[i]) +
        CloseText(t.data[i], t.size[i] > 1) +
      Printed(t, f, i + t.size[i], j)
    ensures Printed(t, f, i, j) == NodeText(t, f, i) + Printed(t, f, i + t.size[i], j)
  {
    hide OpenText, CloseText;
    PrintedNone(t, f, i + t.size[i]);
  }

  lemma PrintedNone(t: Tree, f: Format, i: nat)
    requires t.Valid() && i <= t.Count()
    ensures Printed(t, f, i, i) == ""
  {
  }

  /** Entering a node: what it opens with, then its first child and what follows that. */
  lemma Entered(t: Tree, f: Format, root: nat, i: nat)
    requires t.Valid() && root <= i < t.Count() && t.FirstChild(i) != -1
    ensures NodeText(t, f, i) + After(t, f, root, i) == OpenText(t.data[i], true, f) +
      (NodeText(t, f, i + 1) + After(t, f, root, i + 1))
  {
    hide OpenText, CloseText, NodeText, Printed, Tree.Nested;
    t.FirstChildIsChild(i);
    t.ParentEnds(i + 1);
    var open, close, after := OpenText(t.data[i], true, f), CloseText(t.data[i], true), After(t, f, root, i);
    var first, others := NodeText(t, f, i + 1), Printed(t, f, i + 1 + t.size[i + 1], i + t.size[i]);
    NodeTextIs(t, f, i);
    PrintedStep(t, f, i + 1, i + t.size[i]);
    assert After(t, f, root, i + 1) == others + close + after;
    hide After;
    assert open + (first + others) + close + after == open + (first + (others + close + after));
  }

  lemma NodeTextIs(t: Tree, f: Format, i: nat)
    requires t.Valid() && i < t.Count()
    ensures NodeText(t, f, i) ==
      OpenText(t.data[i], t.size[i] > 1, f) + Printed(t, f, i + 1, i + t.size[i]) + CloseText(t.data[i], t.size[i] > 1)
    ensures t.size[i] == 1 ==> NodeText(t, f, i) == OpenText(t.data[i], false, f)
  {
    hide OpenText;
    PrintedStep(t, f, i, i + t.size[i]);
    PrintedNone(t, f, i + t.size[i]);
  }

  /** Leaving a node that has a next sibling. */
  lemma LeftForSibling(t: Tree, f: Format, root: nat, i: nat)
    requires t.Valid() && root < i < t.Count() && t.IsAncestor(root, i) && t.NextSibling(i) != -1
    ensures t.IsAncestor(root, t.NextSibling(i))
    ensures After(t, f, root, i) == NodeText(t, f, t.NextSibling(i)) + After(t, f, root, t.NextSibling(i))
  {
    hide OpenText, CloseText, NodeText, Printed, Tree.Nested;
    var p, n := t.parent[i], t.NextSibling(i);
    t.AncestorOfParent(root, i);
    t.NextIsSibling(i);
    t.ParentEnds(n);
    PrintedStep(t, f, n, p + t.size[p]);
    Appended3(NodeText(t, f, n), Printed(t, f, n + t.size[n], p + t.size[p]), CloseText(t.data[p], true),
              After(t, f, root, p));
  }

  /** Leaving a last child: its parent ends. */
  lemma LeftForParent(t: Tree, f: Format, root: nat, i: nat)
    requires t.Valid() && root < i < t.Count() && t.IsAncestor(root, i) && t.NextSibling(i) == -1
    ensures root <= t.parent[i] && (root < t.parent[i] ==> t.IsAncestor(root, t.parent[i]))
    ensures After(t, f, root, i) == CloseText(t.data[t.parent[i]], true) + After(t, f, root, t.parent[i])
  {
    hide OpenText, CloseText, NodeText, Printed, Tree.Nested;
    t.AncestorOfParent(root, i);
    t.LastChildEnds(i);
    PrintedNone(t, f, i + t.size[i]);
  }

  /** Only a document or an element has children. */
  ghost predicate ProperParents(t: Tree)
    requires |t.size| == t.Count()
  {
    forall i :: 0 <= i < t.Count() && t.size[i] > 1 ==> t.data[i].kind == KDocument || t.data[i].kind == KElement
  }

  lemma RootAfter(t: Tree, f: Format, root: nat)
    requires t.Valid() && root < t.Count()
    ensures NodeText(t, f, root) + After(t, f, root, root) == NodeText(t, f, root)
  {
  }

  lemma ChildInside(t: Tree, root: nat, i: nat)
    requires t.Valid() && root <= i < t.Count() && (i == root || t.IsAncestor(root, i)) && t.FirstChild(i) != -1
    ensures t.IsAncestor(root, i + 1)
  {
    t.FirstChildIsChild(i);
    if i != root {
      t.SubtreeInside(root, i);
    }
  }

  /**
   The inner loop of node_output: to the next sibling of the nearest node that has one, closing elements on the way.
   */
  method Climb(w: Writer, ghost t: Tree, h: Traversal.Heap, data: seq<NodeData>, root: nat, from: nat, f: Format)
    returns (node: nat)
    requires w.Valid() && Traversal.Linked(t, h) && data == t.data && root <= from < |h|
    requires from == root || t.IsAncestor(root, from)
    requires forall i :: 0 <= i < |data| ==> DataSeparate(w.enc, data[i])
    modifies w, w.buffer, w.scratch
    ensures w.Valid() && root <= node < |h| && (node != root ==> node > from && t.IsAncestor(root, node))
    ensures node != root ==>
      w.Contents() + (NodeText(t, f, node) + After(t, f, root, node)) == old(w.Contents()) + After(t, f, root, from)
    ensures node == root ==> w.Contents() == old(w.Contents()) + After(t, f, root, from)
  {
    hide Writer.Valid, Writer.Contents, Separate, DataSeparate, NodeText, Printed, OpenText, CloseText, Tree.Nested;
    hide StartText, EndText, After;
    ghost var goal := w.Contents() + After(t, f, root, from);
    node := from;
    while node != root
      invariant w.Valid() && root <= node <= from && from < node + t.size[node]
      invariant node == root || t.IsAncestor(root, node)
      invariant w.Contents() + After(t, f, root, node) == goal
      decreases node
    {
      if h[node].nextSibling != Traversal.NULL {
        LeftForSibling(t, f, root, node);
        node := h[node].nextSibling;
        return;
      }
      LeftForParent(t, f, root, node);
      t.ParentEnds(node);
      node := h[node].parent;
      CloseTextIs(data[node]);
      if h[node].kind == KElement {
        NodeOutputEnd(w, data[node]);
      }
    }
    NothingAfter(t, f, root);
  }

  lemma NothingAfter(t: Tree, f: Format, root: nat)
    requires t.Valid() && root < t.Count()
    ensures After(t, f, root, root) == ""
  {
  }

  lemma CloseTextIs(d: NodeData)
    ensures CloseText(d, true) == if d.kind == KElement then EndText(d) else ""
  {
  }

  /** node_output, in raw format: the walk writes the text of the subtree of root. */
  method NodeOutput(w: Writer, ghost t: Tree, h: Traversal.Heap, data: seq<NodeData>, root: nat, f: Format)
    requires w.Valid() && Traversal.Linked(t, h) && ProperParents(t) && data == t.data && root < |h|
    requires forall i :: 0 <= i < |data| ==> DataSeparate(w.enc, data[i])
    modifies w, w.buffer, w.scratch
    ensures w.Valid() && w.Contents() == old(w.Contents()) + NodeText(t, f, root)
  {
    hide Writer.Valid, Writer.Contents, Separate, DataSeparate, NodeText, Printed, CloseText, After, Tree.Nested;
    hide StartText, EndText, SimpleText, ProperParents;
    ghost var goal := w.Contents() + NodeText(t, f, root);
    var node := root;
    var more := true;
    RootAfter(t, f, root);
    while more
      invariant w.Valid() && root <= node < |h|
      invariant more ==> (node == root || t.IsAncestor(root, node)) &&
                         w.Contents() + (NodeText(t, f, node) + After(t, f, root, node)) == goal
      invariant !more ==> w.Contents() == goal
      decreases if more then |h| - node else 0
    {
      ghost var start, after := w.Contents(), After(t, f, root, node);
      Parents(t, node);
      NodeTextIs(t, f, node);
      if h[node].firstChild != Traversal.NULL {
        Entered(t, f, root, node);
        ChildInside(t, root, node);
      }
      if h[node].kind == KElement {
        var children := NodeOutputStart(w, data[node], h[node].firstChild != Traversal.NULL, f);
        if children {
          node := h[node].firstChild;
          continue;
        }
      } else if h[node].kind == KDocument {
        if h[node].firstChild != Traversal.NULL {
          node := h[node].firstChild;
          continue;
        }
      } else {
        NodeOutputSimple(w, data[node], f);
      }
      assert w.Contents() == start + NodeText(t, f, node);
      assert start + NodeText(t, f, node) + after == goal;
      node := Climb(w, t, h, data, root, node, f);
      more := node != root;
    }
  }

  lemma Parents(t: Tree, i: nat)
    requires t.Valid() && ProperParents(t) && i < t.Count()
    ensures t.size[i] > 1 ==> t.data[i].kind == KDocument || t.data[i].kind == KElement
    ensures forall f :: t.data[i].kind == KDocument ==> SimpleText(t.data[i], f) == ""
  {
  }
}
