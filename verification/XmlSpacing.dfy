/**
 The text of a document with white space between its markup, read from left to right: what is still in front of the
 parser when a node is open and another one is next.
 */
module XmlSpacing {

  import opened Common
  import opened XmlTree
  import T = XmlText
  import opened XmlPrint
  import opened XmlEscapes
  import opened XmlScript

  predicate AllSpace(s: string) {
    forall i :: 0 <= i < |s| ==> T.IsSpace(s[i])
  }

  type Blank = s: string | AllSpace(s)

  /** White space for every place in a document: in front of a node, and in front of what closes one. */
  datatype Spacing = Spacing(before: nat -> Blank, closing: nat -> Blank)

  const NoSpacing := Spacing(_ => "", _ => "")

  /** Node c is open and k is next, and no text is there on either side that white space would be a part of. */
  ghost predicate Loose(t: Tree, c: nat, k: nat)
    requires t.Valid() && Open(t, c, k)
  {
    && (k < c + t.size[c] ==> t.data[k].kind != KPcdata)
    && (c < k - 1 && t.parent[k - 1] == c ==> t.data[k - 1].kind != KPcdata)
  }

  /** The white space that stands there. */
  ghost function SpaceAt(t: Tree, g: Spacing, c: nat, k: nat): Blank
    requires t.Valid() && Open(t, c, k)
  {
    if !Loose(t, c, k) then "" else if k < c + t.size[c] then g.before(k) else g.closing(c)
  }

  /** The text that is left when c is open and k is the next node. */
  ghost function Ahead(t: Tree, f: Format, g: Spacing, c: nat, k: nat): string
    requires Writable(t, f) && Open(t, c, k)
    decreases t.Count() - k, c, 2
  {
    SpaceAt(t, g, c, k) + Token(t, f, g, c, k)
  }

  /** The same without the white space in front. */
  ghost function Token(t: Tree, f: Format, g: Spacing, c: nat, k: nat): string
    requires Writable(t, f) && Open(t, c, k)
    decreases t.Count() - k, c, 1
  {
    if k == c + t.size[c] then
      if c == 0 then ""
      else
        ParentOpen(t, c);
        EndText(t.data[c]) + Ahead(t, f, g, t.parent[c], k)
    else if t.data[k].kind == KElement then
      "<" + t.data[k].name + AttributesText(t.data[k].attributes, f) + StartTail(t, f, g, c, k)
    else
      LeafOpen(t, c, k);
      SimpleText(t.data[k], f) + Ahead(t, f, g, c, k + 1)
  }

  /**
   What comes after the attributes of node k, a child of c; the parser makes a slash of a declaration's question mark.
   */
  ghost function StartTail(t: Tree, f: Format, g: Spacing, c: nat, k: nat): string
    requires Writable(t, f) && Open(t, c, k) && k < c + t.size[c] && HasTag(t.data[k].kind)
    decreases t.Count() - k, c, 0
  {
    TagOpen(t, f, c, k);
    if IsEmptyTag(t, f, k) then EmptyEnd(Ahead(t, f, g, c, k + 1)) else Angle(Ahead(t, f, g, k, k + 1))
  }

  lemma LeafOpen(t: Tree, c: nat, k: nat)
    requires t.Valid() && Legal(t) && Open(t, c, k) && k < c + t.size[c] && t.data[k].kind != KElement
    ensures 0 < k < t.Count() && t.size[k] == 1 && Open(t, c, k + 1)
  {
    hide Tree.Nested, Legal, Open;
    InsideFirst(t, c, k);
    KindOf(t, k);
    OpenNext(t, c, k);
  }

  lemma TagOpen(t: Tree, f: Format, c: nat, k: nat)
    requires t.Valid() && Legal(t) && Open(t, c, k) && k < c + t.size[c] && HasTag(t.data[k].kind)
    ensures k < t.Count() && if IsEmptyTag(t, f, k) then Open(t, c, k + 1) else Open(t, k, k + 1)
  {
    hide Tree.Nested, Legal, Open;
    InsideFirst(t, c, k);
    KindOf(t, k);
    OpenNext(t, c, k);
  }

  lemma FirstOpen(t: Tree)
    requires t.Valid() && Legal(t)
    ensures Open(t, 0, 1)
  {
    hide Tree.Nested, Legal;
    if t.FirstChild(0) != -1 {
      t.FirstChildIsChild(0);
    }
  }

  /** The printed document with that white space in it. */
  ghost function Spaced(t: Tree, f: Format, g: Spacing): string
    requires Writable(t, f)
  {
    FirstOpen(t);
    Ahead(t, f, g, 0, 1)
  }

  /** Without any, it is what the printer writes. */
  lemma SpacedPlain(t: Tree, f: Format)
    requires Writable(t, f)
    ensures Spaced(t, f, NoSpacing) == NodeText(t, f, 0)
  {
    hide Ahead, Inside, NodeText, Legal, Tree.Nested;
    FirstOpen(t);
    AheadPlain(t, f, 0, 1);
    InsideAll(t, f);
  }

  lemma {:induction false} AheadPlain(t: Tree, f: Format, c: nat, k: nat)
    requires Writable(t, f) && Open(t, c, k)
    ensures Ahead(t, f, NoSpacing, c, k) == Inside(t, f, c, k)
    decreases t.Count() - k, c
  {
    hide Tree.Nested, Legal, Inside, AttributesText, SimpleText, Open, LegalName, SpaceAt, Ahead, EndText;
    OpenBounds(t, c, k);
    NothingBetween(t, f, c, k);
    if k == c + t.size[c] {
      if c == 0 {
        InsideDone(t, f);
      } else {
        ParentOpen(t, c);
        InsideEnd(t, f, c, k);
        TokenEnd(t, f, NoSpacing, c, k);
        AheadPlain(t, f, t.parent[c], k);
      }
    } else if t.data[k].kind == KElement {
      TagOpen(t, f, c, k);
      InsideElement(t, f, c, k);
      if IsEmptyTag(t, f, k) {
        AheadPlain(t, f, c, k + 1);
      } else {
        AheadPlain(t, f, k, k + 1);
      }
    } else {
      LeafOpen(t, c, k);
      LeafPrinted(t, f, c, k);
      AheadPlain(t, f, c, k + 1);
    }
  }

  lemma NothingBetween(t: Tree, f: Format, c: nat, k: nat)
    requires Writable(t, f) && Open(t, c, k)
    ensures Ahead(t, f, NoSpacing, c, k) == Token(t, f, NoSpacing, c, k)
  {
    hide Tree.Nested, Legal, Token, Open, Loose;
    assert SpaceAt(t, NoSpacing, c, k) == "";
  }

  lemma OpenBounds(t: Tree, c: nat, k: nat)
    requires t.Valid() && Open(t, c, k)
    ensures c < k <= c + t.size[c] <= t.Count() && c < t.Count()
  {
    hide Tree.Nested;
  }

  // What comes next

  /** Character data: what follows it is markup, without white space between. */
  lemma TokenText(t: Tree, f: Format, g: Spacing, c: nat, k: nat)
    requires Writable(t, f) && Open(t, c, k) && k < c + t.size[c] && t.data[k].kind == KPcdata
    ensures LegalText(t.data[k].value) && Open(t, c, k + 1)
    ensures Token(t, f, g, c, k) == Escaped(t.data[k].value, false, f) + Token(t, f, g, c, k + 1)
    ensures k + 1 == c + t.size[c] || t.data[k + 1].kind != KPcdata
  {
    hide Tree.Nested, Legal, LegalText, Escaped, Open;
    InsideFirst(t, c, k);
    LeafOpen(t, c, k);
    TextNode(t, k);
    NoSpaceAfter(t, f, g, c, k);
    hide Token, Ahead;
    TokenSimple(t, f, g, c, k);
    assert SimpleText(t.data[k], f) == Escaped(t.data[k].value, false, f);
    if k + 1 < c + t.size[c] {
      OpenBounds(t, c, k + 1);
      InsideFirst(t, c, k + 1);
      TextNeighbour(t, c, k);
    }
  }

  lemma NoSpaceAfter(t: Tree, f: Format, g: Spacing, c: nat, k: nat)
    requires Writable(t, f) && Open(t, c, k) && k < c + t.size[c] && t.data[k].kind == KPcdata && Open(t, c, k + 1)
    ensures Ahead(t, f, g, c, k + 1) == Token(t, f, g, c, k + 1)
  {
    hide Tree.Nested, Legal, Token;
    assert SpaceAt(t, g, c, k + 1) == "";
  }

  lemma TokenSimple(t: Tree, f: Format, g: Spacing, c: nat, k: nat)
    requires Writable(t, f) && Open(t, c, k) && k < c + t.size[c] && t.data[k].kind != KElement
    ensures 0 < k < t.Count() && t.parent[k] == c && Open(t, c, k + 1)
    ensures Token(t, f, g, c, k) == SimpleText(t.data[k], f) + Ahead(t, f, g, c, k + 1)
  {
    hide Tree.Nested, Legal, SimpleText, Ahead, Open;
    InsideFirst(t, c, k);
    LeafOpen(t, c, k);
  }

  lemma TokenElement(t: Tree, f: Format, g: Spacing, c: nat, k: nat)
    requires Writable(t, f) && Open(t, c, k) && k < c + t.size[c] && t.data[k].kind == KElement
    ensures Token(t, f, g, c, k) ==
      "<" + t.data[k].name + AttributesText(t.data[k].attributes, f) + StartTail(t, f, g, c, k)
  {
    hide Tree.Nested, Legal, AttributesText, StartTail, Open;
  }

  /** A comment or a CDATA section. */
  lemma TokenSection(t: Tree, f: Format, g: Spacing, c: nat, k: nat)
    requires Writable(t, f) && Open(t, c, k) && k < c + t.size[c] && IsSection(t.data[k].kind)
    ensures
      var d := t.data[k];
      && LegalSection(d.value, SectionOf(d.kind)) && d.name == "" && d.attributes == [] && t.size[k] == 1
      && Open(t, c, k + 1)
      && Token(t, f, g, c, k) == "<" + (Opening(d.kind) + (d.value + (Mark(d.kind) + Ahead(t, f, g, c, k + 1))))
  {
    hide Tree.Nested, Legal, Token, Ahead, Body, Open, Breaks;
    InsideFirst(t, c, k);
    KindOf(t, k);
    TokenSimple(t, f, g, c, k);
    var d := t.data[k];
    BodyWhole(d.value, SectionOf(d.kind));
    SectionJoined(d, f, Ahead(t, f, g, c, k + 1));
  }

  /** A processing instruction. */
  lemma TokenPi(t: Tree, f: Format, g: Spacing, c: nat, k: nat)
    requires Writable(t, f) && Open(t, c, k) && k < c + t.size[c] && t.data[k].kind == KPi
    ensures
      var d := t.data[k];
      && LegalName(d.name) && !IsXml(d.name) && LegalPi(d.value) && d.attributes == [] && t.size[k] == 1
      && Open(t, c, k + 1)
      && Token(t, f, g, c, k) == "<" + ("?" + (d.name + PiTail(d.value, Ahead(t, f, g, c, k + 1))))
  {
    hide Tree.Nested, Legal, Token, Ahead, Body, Open, Breaks, LegalName;
    InsideFirst(t, c, k);
    KindOf(t, k);
    TokenSimple(t, f, g, c, k);
    var d := t.data[k];
    BodyWhole(d.value, Pi);
    NameIs(d.name);
    PiJoined(d, f, Ahead(t, f, g, c, k + 1));
  }

  /** The declaration. */
  lemma TokenDeclaration(t: Tree, f: Format, g: Spacing, c: nat, k: nat)
    requires Writable(t, f) && Open(t, c, k) && k < c + t.size[c] && t.data[k].kind == KDeclaration
    ensures
      var d := t.data[k];
      && LegalName(d.name) && IsXml(d.name) && d.value == "" && t.size[k] == 1 && c == 0 && Open(t, c, k + 1)
      && Token(t, f, g, c, k) ==
            "<" + ("?" + (d.name + (AttributesText(d.attributes, f) + ("?>" + Ahead(t, f, g, c, k + 1)))))
  {
    hide Tree.Nested, Legal, Token, Ahead, AttributesText, Open, LegalName;
    InsideFirst(t, c, k);
    KindOf(t, k);
    TokenSimple(t, f, g, c, k);
    var d := t.data[k];
    NameIs(d.name);
    var rest := Ahead(t, f, g, c, k + 1);
    assert "<?" == "<" + "?";
    assert "<?" + d.name + AttributesText(d.attributes, f) + "?>" + rest ==
      "<" + ("?" + (d.name + (AttributesText(d.attributes, f) + ("?>" + rest))));
  }

  /** An end tag. */
  lemma TokenEnd(t: Tree, f: Format, g: Spacing, c: nat, k: nat)
    requires Writable(t, f) && Open(t, c, k) && 0 < c && k == c + t.size[c]
    ensures 0 <= t.parent[c] < c && Open(t, t.parent[c], k)
    ensures Token(t, f, g, c, k) == "</" + t.data[c].name + ">" + Ahead(t, f, g, t.parent[c], k)
    ensures LegalNode(t.data[c]) && LegalName(t.data[c].name)
  {
    hide Tree.Nested, Legal, LegalName, Ahead, Open;
    OpenBounds(t, c, k);
    KindOf(t, c);
    OpenKind(t, c, k);
    LegalTag(t.data[c]);
    ParentOpen(t, c);
  }

  lemma OpenKind(t: Tree, c: nat, k: nat)
    requires t.Valid() && Open(t, c, k)
    ensures c == 0 || t.data[c].kind == KElement
  {
  }

  /** The character behind the < of a node. */
  predicate FirstOfTag(kind: Kind, c: char) {
    match kind
    case KElement => T.IsStartSymbol(c)
    case KComment => c == '!'
    case KCdata => c == '!'
    case KPi => c == '?'
    case KDeclaration => c == '?'
    case _ => false
  }

  /** A document that is not finished goes on with text or with markup. */
  lemma TokenStarts(t: Tree, f: Format, g: Spacing, c: nat, k: nat)
    requires Writable(t, f) && Open(t, c, k)
    ensures
      var r := Token(t, f, g, c, k);
      if k == c + t.size[c] && c == 0 then r == ""
      else if k < c + t.size[c] && t.data[k].kind == KPcdata then r != "" && r[0] != '<' && r[0] != '\0'
      else |r| >= 3 && r[0] == '<' && r[1] != '\0' && (r[1] == '/' <==> k == c + t.size[c]) &&
           (k < c + t.size[c] ==> FirstOfTag(t.data[k].kind, r[1]))
  {
    hide Tree.Nested, Legal, Ahead, AttributesText, Escaped, LegalSection, LegalPi, PiTail, Open, StartTail, Token;
    OpenBounds(t, c, k);
    if k == c + t.size[c] {
      if c == 0 {
        TokenDone(t, f, g);
      } else {
        TokenEnd(t, f, g, c, k);
      }
    } else {
      InsideFirst(t, c, k);
      KindOf(t, k);
      match t.data[k].kind
      case KPcdata =>
        TokenText(t, f, g, c, k);
        EscapedIsSafe(t.data[k].value, false, f);
        EscapedNotEmpty(t.data[k].value, f);
      case KElement =>
        TokenElement(t, f, g, c, k);
        LegalTag(t.data[k]);
        TailStarts(t, f, g, c, k);
      case KPi => TokenPi(t, f, g, c, k);
      case KDeclaration => TokenDeclaration(t, f, g, c, k);
      case _ => TokenSection(t, f, g, c, k);
    }
  }

  lemma TokenDone(t: Tree, f: Format, g: Spacing)
    requires Writable(t, f) && Open(t, 0, t.Count())
    ensures Token(t, f, g, 0, t.Count()) == ""
  {
    hide Tree.Nested, Legal;
  }

  /** The text after the attributes of a start tag. */
  lemma TailStarts(t: Tree, f: Format, g: Spacing, c: nat, k: nat)
    requires Writable(t, f) && Open(t, c, k) && k < c + t.size[c] && HasTag(t.data[k].kind)
    ensures StartTail(t, f, g, c, k) != ""
    ensures StartTail(t, f, g, c, k)[0] == '>' || StartTail(t, f, g, c, k)[0] == '/'
    ensures |StartTail(t, f, g, c, k)| >= 2
  {
    hide Tree.Nested, Legal, Open, Token;
    OpenBounds(t, c, k);
    InsideFirst(t, c, k);
    TagOpen(t, f, c, k);
    if !IsEmptyTag(t, f, k) {
      // a child follows, or the end tag
      SomethingInside(t, f, g, k, k + 1);
    }
  }

  lemma SomethingInside(t: Tree, f: Format, g: Spacing, c: nat, k: nat)
    requires Writable(t, f) && Open(t, c, k) && 0 < c
    ensures Token(t, f, g, c, k) != ""
  {
    hide Tree.Nested, Legal, Ahead, AttributesText, Open, StartTail, Escaped, Body;
    OpenBounds(t, c, k);
    if k < c + t.size[c] && t.data[k].kind != KElement {
      InsideFirst(t, c, k);
      KindOf(t, k);
      TokenSimple(t, f, g, c, k);
      if t.data[k].kind == KPcdata {
        SomethingWritten(t.data[k].value, false, f);
      }
    }
  }
}
