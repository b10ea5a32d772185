/**
 What the parser still has in front of it while it reads a printed document: the
 nodes it has created are the first ones of the document, in document order, and
 the text that is left prints the others and closes the open elements.
 */
module XmlScript {
  import opened Common
  import opened XmlTree
  import T = XmlText
  import opened XmlPrint
  import opened XmlEscapes

  /** A name that the parser reads as a whole. */
  predicate LegalName(s: string) {
    s != "" && T.IsStartSymbol(s[0]) && forall i :: 0 <= i < |s| ==> T.IsSymbol(s[i])
  }

  /** A text that is not taken for white space between tags, and that line-end normalization leaves alone. */
  predicate LegalText(s: string) {
    NulFree(s) && '\r' !in s && exists i :: 0 <= i < |s| && !T.IsSpace(s[i])
  }

  predicate LegalAttribute(a: Attribute) {
    LegalName(a.name) && NulFree(a.value)
  }

  /** The content of a comment or a CDATA section that is written as it is and read back so. */
  predicate LegalSection(s: string, kind: Section) {
    NulFree(s) && '\r' !in s && Unbroken(s, kind)
  }

  predicate Unbroken(s: string, kind: Section) {
    forall i :: 0 <= i < |s| ==> !Breaks(s, i, kind)
  }

  /** The value of a processing instruction: the white space in front of it would be skipped. */
  predicate LegalPi(s: string) {
    NulFree(s) && Unbroken(s, Pi) && (s != "" ==> !T.IsSpace(s[0]))
  }

  /** The name of the XML declaration, in whatever case. */
  predicate IsXml(s: string) {
    |s| == 3 && s[0] in {'x', 'X'} && s[1] in {'m', 'M'} && s[2] in {'l', 'L'}
  }

  /** The parser looks for the end of a declaration before it reads the attributes. */
  predicate LegalDeclared(a: Attribute) {
    LegalAttribute(a) && Unbroken(a.value, Pi)
  }

  predicate LegalNode(d: NodeData) {
    match d.kind
    case KElement => LegalName(d.name) && d.value == "" && forall a :: a in d.attributes ==> LegalAttribute(a)
    case KPcdata => d.name == "" && d.attributes == [] && LegalText(d.value)
    case KComment => d.name == "" && d.attributes == [] && LegalSection(d.value, Comment)
    case KCdata => d.name == "" && d.attributes == [] && LegalSection(d.value, Cdata)
    case KPi => LegalName(d.name) && !IsXml(d.name) && d.attributes == [] && LegalPi(d.value)
    case KDeclaration =>
      LegalName(d.name) && IsXml(d.name) && d.value == "" && forall a :: a in d.attributes ==> LegalDeclared(a)
    case _ => false
  }

  /**
   A document that prints and parses back: only elements have children; no text is next to other text; declarations are
   at the top.
   */
  ghost predicate Legal(t: Tree)
    requires t.Valid()
  {
    && t.data[0] == NodeData(KDocument, "", "", [])
    && (forall i :: 0 < i < t.Count() ==> LegalNode(t.data[i]))
    && (forall i :: 0 < i < t.Count() && t.data[i].kind != KElement ==> t.size[i] == 1)
    && (forall i :: 0 < i < t.Count() && t.data[i].kind == KDeclaration ==> t.parent[i] == 0)
    && (forall i :: 0 < i < t.Count() - 1 && t.data[i].kind == KPcdata && t.parent[i + 1] == t.parent[i] ==>
          t.data[i + 1].kind != KPcdata)
  }

  /** The last thing at the top of the document is a text. */
  ghost predicate EndsInText(t: Tree)
    requires t.Valid()
  {
    t.Count() > 1 && t.data[t.Count() - 1].kind == KPcdata && t.parent[t.Count() - 1] == 0
  }

  /** What is written with a tag and attributes. */
  predicate HasTag(kind: Kind) {
    kind == KElement || kind == KDeclaration
  }

  /** Tag k has no content and no tag of its own to close it. */
  predicate IsEmptyTag(t: Tree, f: Format, k: nat)
    requires k < |t.size| && k < |t.data|
  {
    t.data[k].kind == KDeclaration || (t.size[k] == 1 && !f.noEmptyTags)
  }

  ghost predicate Writable(t: Tree, f: Format) {
    t.Valid() && Legal(t) && !f.noEscapes && !f.skipControl
  }

  /** Node c is open, and k is the next node to be read: a child of c, unless c has ended. */
  ghost predicate Open(t: Tree, c: nat, k: nat)
    requires t.Valid()
  {
    c < k <= t.Count() && c < t.Count() && k <= c + t.size[c] && (k < c + t.size[c] ==> t.parent[k] == c) &&
    (c == 0 || t.data[c].kind == KElement)
  }

  ghost function Closing(t: Tree, c: nat): string
    requires c < t.Count()
  {
    if c == 0 then "" else EndText(t.data[c])
  }

  /** The text that is left when c is open and k is the next node. */
  ghost function Inside(t: Tree, f: Format, c: nat, k: nat): string
    requires t.Valid() && Open(t, c, k)
  {
    Printed(t, f, k, c + t.size[c]) + Closing(t, c) + After(t, f, 0, c)
  }

  function Angle(r: string): string {
    ">" + r
  }

  function EmptyEnd(r: string): string {
    "/" + Angle(r)
  }

  lemma OpenNext(t: Tree, c: nat, k: nat)
    requires t.Valid() && Legal(t) && Open(t, c, k) && k < c + t.size[c]
    ensures t.size[k] == 1 ==> Open(t, c, k + 1)
    ensures t.data[k].kind == KElement ==> Open(t, k, k + 1)
  {
    t.ParentEnds(k);
    if t.size[k] == 1 && k + 1 < c + t.size[c] {
      t.NextIsSibling(k);
    }
    if t.FirstChild(k) != -1 {
      t.FirstChildIsChild(k);
    }
  }

  lemma AfterIsInside(t: Tree, f: Format, c: nat)
    requires Writable(t, f) && 0 < c < t.Count()
    ensures 0 <= t.parent[c] < c && Open(t, t.parent[c], c + t.size[c])
    ensures After(t, f, 0, c) == Inside(t, f, t.parent[c], c + t.size[c])
  {
    hide Tree.Nested, Printed, LegalNode, After, Legal, CloseText, Closing, Open;
    ParentOpen(t, c);
    AfterStep(t, f, c);
    ParentCloses(t, c);
    hide Inside;
    InsideIs(t, f, t.parent[c], c + t.size[c]);
  }

  lemma ParentOpen(t: Tree, c: nat)
    requires t.Valid() && Legal(t) && 0 < c < t.Count()
    ensures 0 <= t.parent[c] < c && Open(t, t.parent[c], c + t.size[c])
  {
    hide Tree.Nested, LegalNode, Legal;
    t.ParentEnds(c);
    if t.NextSibling(c) != -1 {
      t.NextIsSibling(c);
    }
    ParentCloses(t, c);
  }

  lemma InsideIs(t: Tree, f: Format, c: nat, k: nat)
    requires t.Valid() && Open(t, c, k)
    ensures Inside(t, f, c, k) == Printed(t, f, k, c + t.size[c]) + Closing(t, c) + After(t, f, 0, c)
  {
    hide Printed, Closing, After, Tree.Nested;
  }

  lemma ParentCloses(t: Tree, c: nat)
    requires t.Valid() && Legal(t) && 0 < c < t.Count()
    ensures
      var p := t.parent[c];
      CloseText(t.data[p], true) == Closing(t, p) && (p == 0 || t.data[p].kind == KElement)
  {
    hide Tree.Nested, LegalNode, Legal, EndText;
    t.ParentEnds(c);
    if t.parent[c] > 0 {
      KindOf(t, t.parent[c]);
    } else {
      DocumentFirst(t);
    }
  }

  lemma AfterStep(t: Tree, f: Format, c: nat)
    requires t.Valid() && 0 < c < t.Count()
    ensures
      var p := t.parent[c];
      p + t.size[p] <= t.Count() &&
      After(t, f, 0, c) == Printed(t, f, c + t.size[c], p + t.size[p]) + CloseText(t.data[p], true) + After(t, f, 0, p)
  {
    hide OpenText, CloseText, Printed, Tree.Nested;
  }

  lemma DocumentFirst(t: Tree)
    requires t.Valid() && Legal(t)
    ensures t.data[0] == NodeData(KDocument, "", "", [])
  {
  }

  lemma KindOf(t: Tree, i: nat)
    requires t.Valid() && Legal(t) && 0 < i < t.Count()
    ensures LegalNode(t.data[i]) && (t.data[i].kind == KElement || t.size[i] == 1)
    ensures t.data[i].kind == KDeclaration ==> t.parent[i] == 0
  {
  }

  /** An element to come: its start tag, then its content or what follows it. */
  lemma InsideElement(t: Tree, f: Format, c: nat, k: nat)
    requires Writable(t, f) && Open(t, c, k) && k < c + t.size[c] && t.data[k].kind == KElement
    ensures if IsEmptyTag(t, f, k) then Open(t, c, k + 1) else Open(t, k, k + 1)
    ensures Inside(t, f, c, k) ==
      "<" + t.data[k].name + AttributesText(t.data[k].attributes, f) +
      if IsEmptyTag(t, f, k) then EmptyEnd(Inside(t, f, c, k + 1)) else Angle(Inside(t, f, k, k + 1))
  {
    hide Tree.Nested, EndText, AttributesText, Printed, After, Legal, LegalNode, StartEnd, Inside, InsideAfter, NameOr;
    var d := t.data[k];
    var leaf := t.size[k] == 1;
    KindOf(t, k);
    LegalTag(d);
    OpenNext(t, c, k);
    ElementText(t, f, c, k);
    StartEndIs(d, !leaf, f);
    InsideOpened(t, f, c, k);
    if leaf {
      PrintedNone(t, f, k + 1);
      InsideLeaf(t, f, c, k);
    }
    TailText("<" + d.name + AttributesText(d.attributes, f), Printed(t, f, k + 1, k + t.size[k]), EndText(d),
             InsideAfter(t, f, c, k), leaf, f.noEmptyTags);
  }

  lemma TailText(head: string, inner: string, end: string, next: string, leaf: bool, noEmpty: bool)
    requires leaf ==> inner == ""
    ensures
      head + (if !leaf then ">" else if noEmpty then ">" + end else "/>") + inner +
      (if !leaf then end else "") + next ==
      head + if leaf && !noEmpty then EmptyEnd(next) else Angle(inner + end + next)
  {
    if leaf && !noEmpty {
      assert "/>" + next == EmptyEnd(next);
      assert head + "/>" + "" + "" + next == head + ("/>" + next);
    } else if leaf {
      assert head + (">" + end) + "" + "" + next == head + (">" + ("" + end + next));
    } else {
      assert head + ">" + inner + end + next == head + (">" + (inner + end + next));
    }
  }

  lemma LegalTag(d: NodeData)
    requires LegalNode(d) && HasTag(d.kind)
    ensures d.value == "" && LegalName(d.name) && NameOr(d.name) == d.name
    ensures forall a :: a in d.attributes ==> LegalAttribute(a)
  {
  }

  lemma StartEndIs(d: NodeData, hasChild: bool, f: Format)
    requires d.value == ""
    ensures StartEnd(d, hasChild, f) == if hasChild then ">" else if f.noEmptyTags then ">" + EndText(d) else "/>"
  {
  }

  /** What follows the whole of node k inside c. */
  ghost function InsideAfter(t: Tree, f: Format, c: nat, k: nat): string
    requires t.Valid() && c < t.Count() && k < t.Count() && c + t.size[c] <= t.Count()
  {
    Printed(t, f, k + t.size[k], c + t.size[c]) + Closing(t, c) + After(t, f, 0, c)
  }

  lemma ElementText(t: Tree, f: Format, c: nat, k: nat)
    requires t.Valid() && Open(t, c, k) && k < c + t.size[c] && t.data[k].kind == KElement
    requires NameOr(t.data[k].name) == t.data[k].name
    ensures
      var d := t.data[k];
      Inside(t, f, c, k) ==
      "<" + d.name + AttributesText(d.attributes, f) + StartEnd(d, t.size[k] > 1, f) +
      Printed(t, f, k + 1, k + t.size[k]) + (if t.size[k] > 1 then EndText(d) else "") + InsideAfter(t, f, c, k)
  {
    hide Tree.Nested, EndText, AttributesText, Printed, After, StartEnd;
    t.ParentEnds(k);
    PrintedStep(t, f, k, c + t.size[c]);
    var d, close, after := t.data[k], Closing(t, c), After(t, f, 0, c);
    var rest := Printed(t, f, k + t.size[k], c + t.size[c]);
    var head := OpenText(d, t.size[k] > 1, f) + Printed(t, f, k + 1, k + t.size[k]) + CloseText(d, t.size[k] > 1);
    assert OpenText(d, t.size[k] > 1, f) ==
      "<" + d.name + AttributesText(d.attributes, f) + StartEnd(d, t.size[k] > 1, f);
    assert CloseText(d, t.size[k] > 1) == if t.size[k] > 1 then EndText(d) else "";
    Appended3(head, rest, close, after);
  }

  /** Inside element k: its children, its end tag, and what follows it. */
  lemma InsideOpened(t: Tree, f: Format, c: nat, k: nat)
    requires Writable(t, f) && Open(t, c, k) && k < c + t.size[c] && t.data[k].kind == KElement && Open(t, k, k + 1)
    ensures Inside(t, f, k, k + 1) == Printed(t, f, k + 1, k + t.size[k]) + EndText(t.data[k]) + InsideAfter(t, f, c, k)
  {
    hide Tree.Nested, EndText, Printed, After, Legal;
    AfterIsInside(t, f, k);
  }

  /** Behind a leaf: what follows it. */
  lemma InsideLeaf(t: Tree, f: Format, c: nat, k: nat)
    requires t.Valid() && Open(t, c, k) && k < c + t.size[c] && t.size[k] == 1 && Open(t, c, k + 1)
    ensures Inside(t, f, c, k + 1) == InsideAfter(t, f, c, k)
  {
    hide Tree.Nested, EndText, Printed, After;
  }

  /** A node to come that is written without a tag. */
  lemma LeafPrinted(t: Tree, f: Format, c: nat, k: nat)
    requires Writable(t, f) && Open(t, c, k) && k < c + t.size[c] && t.data[k].kind != KElement
    ensures t.size[k] == 1 && Open(t, c, k + 1)
    ensures Inside(t, f, c, k) == SimpleText(t.data[k], f) + Inside(t, f, c, k + 1)
  {
    hide Tree.Nested, Printed, After, Closing, SimpleText, Legal, LegalNode, Inside, Open;
    InsideFirst(t, c, k);
    KindOf(t, k);
    OpenNext(t, c, k);
    InsideLeaf(t, f, c, k);
    InsideIs(t, f, c, k);
    PrintedStep(t, f, k, c + t.size[c]);
    PrintedNone(t, f, k + 1);
    var text, rest := SimpleText(t.data[k], f), Printed(t, f, k + 1, c + t.size[c]);
    assert OpenText(t.data[k], false, f) == text;
    assert Printed(t, f, k, c + t.size[c]) == text + rest;
    Appended3(text, rest, Closing(t, c), After(t, f, 0, c));
  }

  lemma InsideFirst(t: Tree, c: nat, k: nat)
    requires t.Valid() && Open(t, c, k) && k < c + t.size[c]
    ensures 0 < k < t.Count() && t.parent[k] == c && k < c + t.size[c] <= t.Count()
  {
    hide Tree.Nested;
  }

  lemma TextNode(t: Tree, k: nat)
    requires t.Valid() && Legal(t) && 0 < k < t.Count() && t.data[k].kind == KPcdata
    ensures t.size[k] == 1 && LegalText(t.data[k].value)
  {
    hide LegalText, Tree.Nested;
    assert LegalNode(t.data[k]);
  }

  lemma TextNeighbour(t: Tree, c: nat, k: nat)
    requires t.Valid() && Legal(t) && 0 < k < t.Count() - 1 && t.data[k].kind == KPcdata
    requires t.parent[k] == t.parent[k + 1] == c
    ensures t.data[k + 1].kind != KPcdata
  {
    hide LegalNode, Tree.Nested;
  }

  function Opening(kind: Kind): string {
    match kind
    case KComment => "!--"
    case KCdata => "![CDATA["
    case _ => ""
  }

  function Mark(kind: Kind): string {
    match kind
    case KComment => "-->"
    case KCdata => "]]>"
    case _ => ""
  }

  predicate IsSection(kind: Kind) {
    kind == KComment || kind == KCdata
  }

  function SectionOf(kind: Kind): Section {
    if kind == KComment then Comment else Cdata
  }

  /** What is written for a comment or a CDATA section. */
  lemma SectionJoined(d: NodeData, f: Format, rest: string)
    requires IsSection(d.kind) && Body(d.value, 0, SectionOf(d.kind)) == d.value
    ensures SimpleText(d, f) + rest == "<" + (Opening(d.kind) + (d.value + (Mark(d.kind) + rest)))
  {
    hide Body;
    if d.kind == KComment {
      Delimited("!--", d.value, "-->", rest);
      assert "<!--" == "<" + Opening(d.kind);
    } else {
      Delimited("![CDATA[", d.value, "]]>", rest);
      assert "<![CDATA[" == "<" + Opening(d.kind);
    }
  }

  lemma Delimited(open: string, value: string, mark: string, rest: string)
    ensures "<" + open + value + mark + rest == "<" + (open + (value + (mark + rest)))
  {
  }

  lemma BodyWhole(s: string, kind: Section)
    requires Unbroken(s, kind)
    ensures Body(s, 0, kind) == s
  {
    BodyPlain(s, 0, |s|, kind);
    assert s[0..|s|] == s;
  }

  /** What comes after the name of a processing instruction. */
  function PiTail(value: string, rest: string): string {
    if value == "" then "?>" + rest else " " + (value + ("?>" + rest))
  }

  lemma NameIs(name: string)
    requires LegalName(name)
    ensures NameOr(name) == name
  {
  }

  lemma PiJoined(d: NodeData, f: Format, rest: string)
    requires d.kind == KPi && NameOr(d.name) == d.name && Body(d.value, 0, Pi) == d.value
    ensures SimpleText(d, f) + rest == "<" + ("?" + (d.name + PiTail(d.value, rest)))
  {
    assert "<?" == "<" + "?";
    if d.value == "" {
      assert "<?" + d.name + "" + "?>" + rest == "<" + ("?" + (d.name + ("?>" + rest)));
    } else {
      assert "<?" + d.name + (" " + d.value) + "?>" + rest ==
        "<" + ("?" + (d.name + (" " + (d.value + ("?>" + rest)))));
    }
  }

  /** An end tag to come. */
  lemma InsideEnd(t: Tree, f: Format, c: nat, k: nat)
    requires Writable(t, f) && Open(t, c, k) && 0 < c && k == c + t.size[c]
    ensures 0 <= t.parent[c] < c && Open(t, t.parent[c], k)
    ensures Inside(t, f, c, k) == "</" + t.data[c].name + ">" + Inside(t, f, t.parent[c], k)
    ensures LegalNode(t.data[c]) && LegalName(t.data[c].name)
  {
    hide Tree.Nested, Printed, After, Legal, Inside, LegalName;
    KindOf(t, c);
    AfterIsInside(t, f, c);
    InsideIs(t, f, c, k);
    PrintedNone(t, f, k);
    LegalTag(t.data[c]);
  }

  /** Nothing is left when the document has ended. */
  lemma InsideDone(t: Tree, f: Format)
    requires t.Valid() && Open(t, 0, t.Count())
    ensures Inside(t, f, 0, t.Count()) == ""
  {
    hide Tree.Nested;
    PrintedNone(t, f, t.Count());
  }

  /** At the start, everything is left. */
  lemma InsideAll(t: Tree, f: Format)
    requires Writable(t, f)
    ensures Open(t, 0, 1) && Inside(t, f, 0, 1) == NodeText(t, f, 0)
  {
    hide Tree.Nested, Printed, Legal, Inside, NodeText;
    DocumentFirst(t);
    if t.FirstChild(0) != -1 {
      t.FirstChildIsChild(0);
    }
    InsideIs(t, f, 0, 1);
    NodeTextIs(t, f, 0);
    assert SimpleText(t.data[0], f) == "";
  }

  // The buffer

  /**
   The text r starts at position s of the buffer, which ends at n.  The last character may be the one that the parser
   took out of the buffer to put a zero in its place; it is, unless it was a zero or the bracket that ended the text.
   */
  ghost predicate Sees(buf: string, n: nat, endch: char, s: nat, r: string) {
    && |buf| == n + 1 && buf[n] == '\0' && s <= n
    && ((|r| == n - s && (endch == '\0' || (r == "" && endch == '>'))) || (|r| == n - s + 1 && r[|r| - 1] == endch))
    && forall i :: 0 <= i < |r| && s + i < n ==> buf[s + i] == r[i]
  }

  /** Reading on over the first characters of the text. */
  lemma SeesOn(buf: string, n: nat, endch: char, s: nat, head: string, r: string)
    requires Sees(buf, n, endch, s, head + r) && s + |head| <= n
    ensures Sees(buf, n, endch, s + |head|, r)
    ensures forall i :: 0 <= i < |head| ==> buf[s + i] == head[i]
  {
    var all := head + r;
    assert forall i :: 0 <= i < |r| ==> all[|head| + i] == r[i];
    assert forall i :: 0 <= i < |head| ==> all[i] == head[i];
  }

  /** What has not been read yet is not affected by what is written behind it. */
  lemma SeesStill(buf: string, buf': string, n: nat, endch: char, s: nat, r: string)
    requires Sees(buf, n, endch, s, r) && |buf'| == |buf| && forall i :: s <= i <= n ==> buf'[i] == buf[i]
    ensures Sees(buf', n, endch, s, r)
  {
  }

  /** A zero-terminated string in the part of the buffer before s. */
  ghost predicate Stored(buf: string, s: nat, off: int, text: string) {
    0 <= off && off + |text| < s <= |buf| && buf[off + |text|] == '\0' &&
    forall i :: 0 <= i < |text| ==> buf[off + i] == text[i]
  }

  lemma StoredStill(buf: string, buf': string, s: nat, s': nat, off: int, text: string)
    requires Stored(buf, s, off, text) && s <= s' <= |buf'| && forall i :: 0 <= i < s ==> buf'[i] == buf[i]
    ensures Stored(buf', s', off, text)
  {
  }

  lemma EscapedNotEmpty(s: string, f: Format)
    requires s != "" && !f.skipControl
    ensures Escaped(s, false, f) != ""
  {
  }
}
