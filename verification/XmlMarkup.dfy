/**
 What is in front of the tag parser when a comment, a CDATA section, a processing instruction or the XML declaration
 of a printed document is next.
 */
module XmlMarkup {

  import opened Common
  import opened XmlTree
  import opened XmlText
  import opened XmlDecode
  import opened XmlPrint
  import opened XmlEscapes
  import opened XmlScript
  import opened XmlSpacing
  import opened XmlRecords
  import opened XmlPlan

  // Nodes that are complete at once

  /** Node k is next, a child of c without children. */
  ghost predicate LeafIsNext(p: Plan, buf: string, n: nat, nodes: seq<NodeRec>, c: nat, s: nat)
    requires p.Plan? && Writable(p.t, p.f)
  {
    var k := |nodes|;
    && k < p.t.Count() && Open(p.t, c, k) && k < c + p.t.size[c] && p.t.data[k].kind != KElement
    && Open(p.t, c, k + 1) && p.t.parent[k] == c && AllMatch(buf, s, nodes, p.t, k)
  }

  /** The newest record is complete, and what follows its node is next. */
  ghost predicate NewestDone(p: Plan, buf: string, n: nat, endch: char, nodes: seq<NodeRec>, c: nat, s: nat)
    requires p.Plan? && Writable(p.t, p.f)
  {
    && 0 < |nodes| <= p.t.Count() && Open(p.t, c, |nodes|)
    && NodeMatches(buf, s, nodes[|nodes| - 1], p.t, |nodes| - 1, |p.t.data[|nodes| - 1].attributes|)
    && Sees(buf, n, endch, s, Ahead(p.t, p.f, p.g, c, |nodes|))
  }

  /** It has been read: its record is complete, and what follows it is next. */
  lemma LeafRead(p: Plan, before: string, after: string, n: nat, endch: char, nodes: seq<NodeRec>, nodes': seq<NodeRec>,
                 c: nat, start: nat, s: nat)
    requires p.Plan? && Writable(p.t, p.f) && LeafIsNext(p, before, n, nodes, c, start)
    requires start <= s <= |before| == |after| && forall i :: 0 <= i < start ==> after[i] == before[i]
    requires |nodes'| == |nodes| + 1 && nodes'[..|nodes|] == nodes
    requires NewestDone(p, after, n, endch, nodes', c, s)
    ensures At(p, after, n, endch, nodes', c, s)
  {
    hide NodeMatches, Sees, Open, Tree.Nested, Legal, Ahead, Token;
    assert nodes[..|nodes|] == nodes;
    AheadSeen(p, after, n, endch, c, |nodes'|, s);
    AllStill(before, after, start, s, nodes, nodes', p.t, |nodes|);
  }

  // Comments and CDATA sections

  ghost function SectionRest(t: Tree, f: Format, g: Spacing, c: nat, k: nat): string
    requires Writable(t, f) && Open(t, c, k + 1) && k < t.Count()
  {
    t.data[k].value + (Mark(t.data[k].kind) + Ahead(t, f, g, c, k + 1))
  }

  /** Behind the opening of a section. */
  ghost predicate AtSection(p: Plan, buf: string, n: nat, endch: char, nodes: seq<NodeRec>, c: nat, s: nat,
                            kind: Kind) {
    p.Plan? && Writable(p.t, p.f) ==>
      && |nodes| < p.t.Count() && Open(p.t, c, |nodes| + 1)
      && p.t.data[|nodes|].kind == kind && IsSection(kind) && LegalSection(p.t.data[|nodes|].value, SectionOf(kind))
      && Sees(buf, n, endch, s, SectionRest(p.t, p.f, p.g, c, |nodes|))
      && LeafIsNext(p, buf, n, nodes, c, s)
  }

  lemma MarkupNext(p: Plan, buf: string, n: nat, endch: char, nodes: seq<NodeRec>, c: nat, s: nat)
    requires p.Plan? && Writable(p.t, p.f) && AtTag(p, buf, n, endch, nodes, c, s)
    requires |nodes| < c + p.t.size[c] && |nodes| < p.t.Count()
    requires p.t.data[|nodes|].kind != KElement && p.t.data[|nodes|].kind != KPcdata
    ensures LeafIsNext(p, buf, n, nodes, c, s)
    ensures Sees(buf, n, endch, s, Token(p.t, p.f, p.g, c, |nodes|)[1..])
  {
    hide AllMatch, Sees, Tree.Nested, Legal, Ahead, Token;
    InsideOf(p.t, c, |nodes|);
    TokenSimple(p.t, p.f, p.g, c, |nodes|);
  }

  /** Reading the opening of a section. */
  lemma SectionOpens(p: Plan, buf: string, n: nat, endch: char, nodes: seq<NodeRec>, c: nat, s: nat)
    requires p.Plan? && Writable(p.t, p.f) && AtTag(p, buf, n, endch, nodes, c, s)
    requires |nodes| < c + p.t.size[c] && |nodes| < p.t.Count() && IsSection(p.t.data[|nodes|].kind)
    ensures
      var kind := p.t.data[|nodes|].kind;
      && s + |Opening(kind)| <= n < |buf|
      && (forall i :: 0 <= i < |Opening(kind)| ==> buf[s + i] == Opening(kind)[i])
      && AtSection(p, buf, n, endch, nodes, c, s + |Opening(kind)|, kind)
  {
    hide AllMatch, Sees, Tree.Nested, Legal, Ahead, Token, LegalSection, Open, AtTag;
    var t, f, g, k := p.t, p.f, p.g, |nodes|;
    MarkupNext(p, buf, n, endch, nodes, c, s);
    TokenSection(t, f, g, c, k);
    var kind := t.data[k].kind;
    var rest := SectionRest(t, f, g, c, k);
    assert Token(t, f, g, c, k)[1..] == Opening(kind) + rest;
    RoomFor2(buf, n, endch, s, Opening(kind), rest);
    SeesOn(buf, n, endch, s, Opening(kind), rest);
    AllOn(buf, s, s + |Opening(kind)|, nodes, t, k);
  }

  lemma RoomFor2(buf: string, n: nat, endch: char, s: nat, head: string, r: string)
    requires Sees(buf, n, endch, s, head + r) && |r| >= 1
    ensures s + |head| <= n < |buf|
  {
  }

  function MarkChar(kind: Kind): char {
    if kind == KComment then '-' else ']'
  }

  /** The mark that ends a section is where its value ends, and nowhere before. */
  lemma MarkEnds(buf: string, n: nat, endch: char, s: nat, value: string, kind: Kind, rest: string, stop: nat)
    requires Sees(buf, n, endch, s, value + (Mark(kind) + rest)) && IsSection(kind)
    requires LegalSection(value, SectionOf(kind))
    requires EndsAt(buf, s, stop, MarkChar(kind), endch)
    ensures stop == s + |value| && stop + 2 <= n < |buf| && buf[stop] == MarkChar(kind) && buf[s..stop] == value
    ensures
      if buf[stop + 2] == '>' then stop + 3 <= n && Sees(buf, n, endch, stop + 3, rest)
      else Sees(buf, n, endch, stop + 2, rest)
  {
    hide LegalSection, EndsAt, Sees;
    var end := s + |value|;
    MarkSeen(buf, n, endch, s, value, kind, rest);
    NoMarkBefore(buf, n, endch, s, value, kind);
    OnlyMark(buf, s, end, stop, MarkChar(kind), endch);
    assert forall i :: 0 <= i < |value| ==> buf[s..end][i] == value[i];
  }

  lemma OnlyMark(buf: string, s: nat, end: nat, stop: nat, mark: char, endch: char)
    requires s <= end < |buf| && MarkAt(buf, end, mark, endch) && EndsAt(buf, s, stop, mark, endch)
    requires forall i :: s <= i < end ==> buf[i] != '\0' && !MarkAt(buf, i, mark, endch)
    ensures stop == end
  {
    hide MarkAt;
  }

  /** Where the mark is. */
  lemma MarkSeen(buf: string, n: nat, endch: char, s: nat, value: string, kind: Kind, rest: string)
    requires Sees(buf, n, endch, s, value + (Mark(kind) + rest)) && IsSection(kind)
    ensures s + |value| + 2 <= n < |buf| && forall i :: 0 <= i < |value| ==> buf[s + i] == value[i]
    ensures
      var end := s + |value|;
      && buf[end] == buf[end + 1] == MarkChar(kind) && MarkAt(buf, end, MarkChar(kind), endch)
      && (if buf[end + 2] == '>' then end + 3 <= n && Sees(buf, n, endch, end + 3, rest)
          else Sees(buf, n, endch, end + 2, rest))
  {
    var end := s + |value|;
    RoomFor2(buf, n, endch, s, value, Mark(kind) + rest);
    SeesOn(buf, n, endch, s, value, Mark(kind) + rest);
    hide Sees;
    var two := [MarkChar(kind), MarkChar(kind)];
    assert Mark(kind) + rest == two + Angle(rest);
    RoomFor2(buf, n, endch, end, two, Angle(rest));
    SeesOn(buf, n, endch, end, two, Angle(rest));
    assert buf[end + 0] == two[0] && buf[end + 1] == two[1];
    AngleSeen(buf, n, endch, end + 2, rest);
  }

  /** A value that needs no break has no mark in it, and makes none with the mark behind it. */
  lemma NoMarkBefore(buf: string, n: nat, endch: char, s: nat, value: string, kind: Kind)
    requires IsSection(kind) && LegalSection(value, SectionOf(kind)) && s + |value| + 2 <= n < |buf|
    requires forall i :: 0 <= i < |value| ==> buf[s + i] == value[i]
    requires buf[s + |value|] == buf[s + |value| + 1] == MarkChar(kind)
    ensures forall i :: s <= i < s + |value| ==> buf[i] != '\0' && !MarkAt(buf, i, MarkChar(kind), endch)
  {
    forall i | s <= i < s + |value|
      ensures buf[i] != '\0' && !MarkAt(buf, i, MarkChar(kind), endch)
    {
      var j := i - s;
      assert buf[s + j] == value[j] && value[j] in value;
      assert !Breaks(value, j, SectionOf(kind));
      assert j + 1 < |value| ==> buf[s + (j + 1)] == value[j + 1];
      assert j + 2 < |value| ==> buf[s + (j + 2)] == value[j + 2] && value[j + 2] in value;
    }
  }

  lemma {:induction false} PlainDecoded(s: string)
    requires '\r' !in s
    ensures Decoded(s, false, LineEnds) == s
  {
    DecodedPlain(s, |s|, false, LineEnds);
    assert s[..|s|] == s && s[|s|..] == "";
  }

  /** Its end is in the buffer, and its value needs no conversion. */
  lemma SectionEnds(p: Plan, buf: string, n: nat, endch: char, nodes: seq<NodeRec>, c: nat, start: nat, stop: nat,
                    kind: Kind)
    requires p.Plan? && Writable(p.t, p.f) && AtSection(p, buf, n, endch, nodes, c, start, kind)
    requires |buf| == n + 1 && EndsAt(buf, start, stop, MarkChar(kind), endch)
    ensures start <= stop && stop + 2 <= n && buf[stop] == MarkChar(kind) && (buf[stop + 2] == '>' ==> stop + 3 <= n)
    ensures Decoded(buf[start..stop], false, LineEnds) == buf[start..stop]
  {
    hide Sees, Tree.Nested, Legal, Ahead, Token, EndsAt, Open, Decoded;
    var value, rest := p.t.data[|nodes|].value, Ahead(p.t, p.f, p.g, c, |nodes| + 1);
    MarkEnds(buf, n, endch, start, value, kind, rest, stop);
    PlainDecoded(value);
  }

  lemma StoresIs(a: array<char>, begin: nat, text: string)
    requires Stores(a, begin, text)
    ensures begin + |text| < a.Length && a[..][begin..begin + |text|] == text && a[..][begin + |text|] == '\0'
  {
  }

  lemma OpeningIs(buf: string, s: nat, kind: Kind)
    requires IsSection(kind) && s + |Opening(kind)| < |buf|
    requires forall i :: 0 <= i < |Opening(kind)| ==> buf[s + i] == Opening(kind)[i]
    ensures |Opening(kind)| == if kind == KComment then 3 else 8
    ensures kind == KComment ==> buf[s + 1] == buf[s + 2] == '-'
    ensures kind == KCdata ==>
      && buf[s + 1] == '[' && buf[s + 2] == 'C' && buf[s + 3] == 'D' && buf[s + 4] == 'A' && buf[s + 5] == 'T'
      && buf[s + 6] == 'A' && buf[s + 7] == '['
  {
    if kind == KComment {
      assert buf[s + 1] == Opening(kind)[1] && buf[s + 2] == Opening(kind)[2];
    } else {
      assert buf[s + 1] == Opening(kind)[1] && buf[s + 2] == Opening(kind)[2] && buf[s + 3] == Opening(kind)[3];
      assert buf[s + 4] == Opening(kind)[4] && buf[s + 5] == Opening(kind)[5] && buf[s + 6] == Opening(kind)[6];
      assert buf[s + 7] == Opening(kind)[7];
    }
  }

  /** A section has been stored. */
  lemma SectionRead(p: Plan, before: string, after: string, n: nat, endch: char, nodes: seq<NodeRec>,
                    nodes': seq<NodeRec>, c: nat, start: nat, stop: nat, s: nat, kind: Kind)
    requires p.Plan? && Writable(p.t, p.f) && AtSection(p, before, n, endch, nodes, c, start, kind)
    requires |before| == |after| == n + 1 && EndsAt(before, start, stop, MarkChar(kind), endch)
    requires nodes' == nodes + [NodeRec(kind, c, -1, start, [])]
    requires stop + 2 < |before| ==> s == if before[stop + 2] == '>' then stop + 3 else stop + 2
    requires forall i :: 0 <= i < start || stop < i <= n ==> after[i] == before[i]
    requires
      var text := if start <= stop then before[start..stop] else "";
      start + |text| <= n && after[start..start + |text|] == text && after[start + |text|] == '\0'
    ensures At(p, after, n, endch, nodes', c, s)
  {
    hide AllMatch, NodeMatches, Sees, Tree.Nested, Legal, Ahead, Token, LegalSection, EndsAt, Open;
    var t, f, g, k := p.t, p.f, p.g, |nodes|;
    var value, rest := t.data[k].value, Ahead(t, f, g, c, k + 1);
    MarkEnds(before, n, endch, start, value, kind, rest, stop);
    SeesStill(before, after, n, endch, s, rest);
    StoredHere(after, start, value, s);
    SectionMatches(after, s, nodes'[k], t, f, g, c, k);
    LeafRead(p, before, after, n, endch, nodes, nodes', c, start, s);
  }

  lemma SectionMatches(buf: string, s: nat, r: NodeRec, t: Tree, f: Format, g: Spacing, c: nat, k: nat)
    requires Writable(t, f) && Open(t, c, k) && k < c + t.size[c] && IsSection(t.data[k].kind)
    requires r.kind == t.data[k].kind
    requires r.parent == t.parent[k] && r.name == -1 && r.attributes == [] && Stored(buf, s, r.value, t.data[k].value)
    ensures NodeMatches(buf, s, r, t, k, |t.data[k].attributes|)
  {
    hide Legal, Tree.Nested, LegalSection, Open, Stored;
    TokenSection(t, f, g, c, k);
  }

  // Processing instructions and the declaration

  predicate IsQuestion(kind: Kind) {
    kind == KPi || kind == KDeclaration
  }

  /** What comes after the name. */
  ghost function QuestionRest(t: Tree, f: Format, g: Spacing, c: nat, k: nat): string
    requires Writable(t, f) && Open(t, c, k + 1) && k < t.Count()
  {
    var rest := Ahead(t, f, g, c, k + 1);
    if t.data[k].kind == KPi then PiTail(t.data[k].value, rest)
    else AttributesText(t.data[k].attributes, f) + ("?>" + rest)
  }

  /** The name of a processing instruction, or of the declaration, stands from target to end. */
  ghost predicate AtQuestion(p: Plan, buf: string, n: nat, endch: char, nodes: seq<NodeRec>, c: nat, target: nat,
                             end: nat)
  {
    p.Plan? && Writable(p.t, p.f) ==>
      && |nodes| < p.t.Count() && Open(p.t, c, |nodes| + 1) && IsQuestion(p.t.data[|nodes|].kind)
      && end == target + |p.t.data[|nodes|].name| < n < |buf|
      && (forall i :: 0 <= i < |p.t.data[|nodes|].name| ==> buf[target + i] == p.t.data[|nodes|].name[i])
      && Sees(buf, n, endch, end, QuestionRest(p.t, p.f, p.g, c, |nodes|))
      && LeafIsNext(p, buf, n, nodes, c, target)
  }

  lemma QuestionShape(t: Tree, f: Format, g: Spacing, c: nat, k: nat)
    requires Writable(t, f) && Open(t, c, k) && k < c + t.size[c] && IsQuestion(t.data[k].kind)
    ensures k < t.Count() && LegalName(t.data[k].name) && Open(t, c, k + 1) && t.parent[k] == c
    ensures t.data[k].kind == KDeclaration <==> IsXml(t.data[k].name)
    ensures t.data[k].kind == KDeclaration ==> c == 0
    ensures Token(t, f, g, c, k)[1..] == "?" + (t.data[k].name + QuestionRest(t, f, g, c, k))
    ensures
      var r := QuestionRest(t, f, g, c, k);
      && |r| >= 2
      && (r[0] == '?' <==> if t.data[k].kind == KPi then t.data[k].value == "" else t.data[k].attributes == [])
      && (r[0] == '?' || r[0] == ' ')
  {
    hide Tree.Nested, Legal, Ahead, Token, LegalName, AttributesText, LegalPi, IsXml;
    InsideOf(t, c, k);
    if t.data[k].kind == KPi {
      TokenPi(t, f, g, c, k);
    } else {
      TokenDeclaration(t, f, g, c, k);
      AttributesStart(t.data[k].attributes, f);
    }
  }

  lemma AttributesStart(attributes: seq<Attribute>, f: Format)
    ensures attributes == [] ==> AttributesText(attributes, f) == ""
    ensures attributes != [] ==> |AttributesText(attributes, f)| >= 2 && AttributesText(attributes, f)[0] == ' '
  {
  }

  /** The name has been read. */
  lemma QuestionNamed(p: Plan, buf: string, n: nat, endch: char, nodes: seq<NodeRec>, c: nat, s: nat, e: nat)
    requires p.Plan? && Writable(p.t, p.f) && AtTag(p, buf, n, endch, nodes, c, s)
    requires |nodes| < c + p.t.size[c] && |nodes| < p.t.Count() && IsQuestion(p.t.data[|nodes|].kind)
    requires s + 1 <= e <= n < |buf| && !IsSymbol(buf[e]) && forall i :: s + 1 <= i < e ==> IsSymbol(buf[i])
    ensures AtQuestion(p, buf, n, endch, nodes, c, s + 1, e) && e < n && buf[e] != '\0'
    ensures p.t.data[|nodes|].kind == KDeclaration <==> IsXml(buf[s + 1..e])
    ensures p.t.data[|nodes|].kind == KDeclaration ==> c == 0
  {
    hide AllMatch, Sees, Tree.Nested, Legal, Ahead, Token, LegalName, Open, IsXml, QuestionRest;
    var t, f, g, k := p.t, p.f, p.g, |nodes|;
    MarkupNext(p, buf, n, endch, nodes, c, s);
    QuestionShape(t, f, g, c, k);
    var name, rest := t.data[k].name, QuestionRest(t, f, g, c, k);
    RoomFor2(buf, n, endch, s, "?", name + rest);
    SeesOn(buf, n, endch, s, "?", name + rest);
    NameEnds(buf, n, endch, s + 1, name, rest, e);
    assert buf[s + 1..e] == name;
    AllOn(buf, s, s + 1, nodes, t, k);
  }

  lemma ThreeLetters(buf: string, target: nat, end: nat)
    requires target <= end <= |buf|
    ensures IsXml(buf[target..end]) <==>
      target + 3 == end && (buf[target] == 'x' || buf[target] == 'X') &&
      (buf[target + 1] == 'm' || buf[target + 1] == 'M') && (buf[target + 2] == 'l' || buf[target + 2] == 'L')
  {
    var name := buf[target..end];
    if target + 3 == end {
      assert name[0] == buf[target] && name[1] == buf[target + 1] && name[2] == buf[target + 2];
    }
  }

  /** The first character of a name. */
  lemma QuestionStarts(p: Plan, buf: string, n: nat, endch: char, nodes: seq<NodeRec>, c: nat, s: nat)
    requires p.Plan? && Writable(p.t, p.f) && AtTag(p, buf, n, endch, nodes, c, s)
    requires |nodes| < c + p.t.size[c] && |nodes| < p.t.Count() && IsQuestion(p.t.data[|nodes|].kind)
    ensures s + 1 <= n < |buf| && IsStartSymbol(buf[s + 1])
  {
    hide AllMatch, Sees, Tree.Nested, Legal, Ahead, Token, Open, QuestionRest;
    var t, f, g, k := p.t, p.f, p.g, |nodes|;
    MarkupNext(p, buf, n, endch, nodes, c, s);
    QuestionShape(t, f, g, c, k);
    var name, rest := t.data[k].name, QuestionRest(t, f, g, c, k);
    RoomFor2(buf, n, endch, s, "?", name + rest);
    SeesOn(buf, n, endch, s, "?", name + rest);
    FirstSeen(buf, n, endch, s + 1, name + rest);
  }

  /** The name has been cut out of the buffer: the record of the node, as far as it is known. */
  lemma QuestionCut(p: Plan, before: string, after: string, n: nat, endch: char, nodes: seq<NodeRec>, c: nat,
                    target: nat, end: nat)
    requires p.Plan? && Writable(p.t, p.f) && AtQuestion(p, before, n, endch, nodes, c, target, end)
    requires Cut(before, after, end)
    ensures
      var t, k := p.t, |nodes|;
      && Stored(after, end + 1, target, t.data[k].name) && |QuestionRest(t, p.f, p.g, c, k)| >= 2
      && before[end] == QuestionRest(t, p.f, p.g, c, k)[0]
      && Sees(after, n, endch, end + 1, QuestionRest(t, p.f, p.g, c, k)[1..])
      && (before[end] == '?' <==> if t.data[k].kind == KPi then t.data[k].value == "" else t.data[k].attributes == [])
      && (before[end] == '?' || before[end] == ' ')
  {
    hide AllMatch, Tree.Nested, Legal, Ahead, Token, Open, LegalName, Sees;
    var t, f, g, k := p.t, p.f, p.g, |nodes|;
    QuestionShape(t, f, g, c, k);
    hide QuestionRest;
    SeesOne(before, n, endch, end, QuestionRest(t, f, g, c, k));
    SeesCut(before, after, n, endch, end, QuestionRest(t, f, g, c, k)[1..]);
  }

  /** Without a value or attributes, it ends at once. */
  lemma BareQuestion(p: Plan, before: string, after: string, n: nat, endch: char, nodes: seq<NodeRec>,
                     nodes': seq<NodeRec>, c: nat, target: nat, end: nat, kind: Kind)
    requires p.Plan? && Writable(p.t, p.f) && AtQuestion(p, before, n, endch, nodes, c, target, end)
    requires Cut(before, after, end) && before[end] == '?'
    requires kind == p.t.data[|nodes|].kind && nodes' == nodes + [NodeRec(kind, c, target, -1, [])]
    ensures
      (after[end + 1] == '>' && end + 2 <= n && At(p, after, n, endch, nodes', c, end + 2)) ||
      (after[end + 1] == '\0' && endch == '>' && At(p, after, n, endch, nodes', c, end + 1))
  {
    hide AllMatch, Tree.Nested, Legal, Ahead, Token, Open, Sees, NodeMatches;
    var t, f, g, k := p.t, p.f, p.g, |nodes|;
    var rest := Ahead(t, f, g, c, k + 1);
    QuestionCut(p, before, after, n, endch, nodes, c, target, end);
    NoAttributes(f);
    assert QuestionRest(t, f, g, c, k)[1..] == Angle(rest);
    AngleSeen(after, n, endch, end + 1, rest);
    BareMatches(after, end + 1, nodes'[k], t, f, g, c, k);
    LeafStill(p, before, after, nodes, nodes', c, target, end + 1);
    if end + 2 <= n {
      NodeStill(after, after, end + 1, end + 2, nodes'[k], t, k, |t.data[k].attributes|);
      LeafStill(p, before, after, nodes, nodes', c, target, end + 2);
    }
    LeafDone(p, after, n, endch, nodes', c, end + 1);
    if end + 2 <= n {
      LeafDone(p, after, n, endch, nodes', c, end + 2);
    }
  }

  lemma BareMatches(buf: string, s: nat, r: NodeRec, t: Tree, f: Format, g: Spacing, c: nat, k: nat)
    requires Writable(t, f) && Open(t, c, k) && k < c + t.size[c] && IsQuestion(t.data[k].kind)
    requires r == NodeRec(t.data[k].kind, c, r.name, -1, []) && Stored(buf, s, r.name, t.data[k].name)
    requires if t.data[k].kind == KPi then t.data[k].value == "" else t.data[k].attributes == []
    ensures t.parent[k] == c && NodeMatches(buf, s, r, t, k, |t.data[k].attributes|)
  {
    hide Legal, Tree.Nested, LegalName, LegalPi, Stored, AttributesText;
    InsideOf(t, c, k);
    if t.data[k].kind == KPi {
      TokenPi(t, f, g, c, k);
    }
  }

  /** The nodes in front of a new one. */
  lemma LeafStill(p: Plan, before: string, after: string, nodes: seq<NodeRec>, nodes': seq<NodeRec>, c: nat, start: nat,
                  s: nat)
    requires p.Plan? && p.t.Valid() && AllMatch(before, start, nodes, p.t, |nodes|)
    requires start <= s <= |before| == |after| && forall i :: 0 <= i < start ==> after[i] == before[i]
    requires |nodes'| == |nodes| + 1 && nodes'[..|nodes|] == nodes
    ensures AllMatch(after, s, nodes', p.t, |nodes|)
  {
    hide NodeMatches, Tree.Nested;
    assert nodes[..|nodes|] == nodes;
    AllStill(before, after, start, s, nodes, nodes', p.t, |nodes|);
  }

  /** The newest node is complete, and what follows it is next. */
  lemma LeafDone(p: Plan, buf: string, n: nat, endch: char, nodes: seq<NodeRec>, c: nat, s: nat)
    requires p.Plan? && Writable(p.t, p.f) && 0 < |nodes| <= p.t.Count() && Open(p.t, c, |nodes|)
    ensures
      AllMatch(buf, s, nodes, p.t, |nodes| - 1) && Sees(buf, n, endch, s, Ahead(p.t, p.f, p.g, c, |nodes|)) &&
      NodeMatches(buf, s, nodes[|nodes| - 1], p.t, |nodes| - 1, |p.t.data[|nodes| - 1].attributes|) ==>
      At(p, buf, n, endch, nodes, c, s)
  {
    hide NodeMatches, Tree.Nested, Legal, Sees, Ahead, Token, Open;
    if Sees(buf, n, endch, s, Ahead(p.t, p.f, p.g, c, |nodes|)) {
      AheadSeen(p, buf, n, endch, c, |nodes|, s);
    }
  }

  /** Where the question mark in front of a closing bracket is, and nowhere before. */
  lemma QuestionEnds(buf: string, n: nat, endch: char, s: nat, value: string, rest: string, q: nat)
    requires Sees(buf, n, endch, s, value + ("?>" + rest)) && Unbroken(value, Pi) && NulFree(value)
    requires s <= q <= n < |buf| && (buf[q] == '\0' || (buf[q] == '?' && q < n && ClosesAt(buf, q + 1, endch)))
    requires forall i :: s <= i < q ==> i < n && buf[i] != '\0' && !(buf[i] == '?' && ClosesAt(buf, i + 1, endch))
    ensures q == s + |value| < n && buf[q] == '?' && Sees(buf, n, endch, q + 1, Angle(rest))
    ensures forall i :: 0 <= i < |value| ==> buf[s + i] == value[i]
  {
    var end := s + |value|;
    RoomFor2(buf, n, endch, s, value, "?>" + rest);
    SeesOn(buf, n, endch, s, value, "?>" + rest);
    assert "?>" + rest == "?" + Angle(rest);
    RoomFor2(buf, n, endch, end, "?", Angle(rest));
    SeesOn(buf, n, endch, end, "?", Angle(rest));
    hide Sees;
    assert buf[end + 0] == "?"[0];
    AngleSeen(buf, n, endch, end + 1, rest);
    NoQuestionBefore(buf, n, endch, s, value);
  }

  predicate ClosesAt(buf: string, i: nat, endch: char)
    requires i < |buf|
  {
    buf[i] == '>' || (buf[i] == '\0' && endch == '>')
  }

  lemma NoQuestionBefore(buf: string, n: nat, endch: char, s: nat, value: string)
    requires Unbroken(value, Pi) && NulFree(value) && s + |value| < n < |buf| && buf[s + |value|] == '?'
    requires forall i :: 0 <= i < |value| ==> buf[s + i] == value[i]
    ensures forall i :: s <= i < s + |value| ==> buf[i] != '\0' && !(buf[i] == '?' && ClosesAt(buf, i + 1, endch))
  {
    forall i | s <= i < s + |value|
      ensures buf[i] != '\0' && !(buf[i] == '?' && ClosesAt(buf, i + 1, endch))
    {
      var j := i - s;
      assert buf[s + j] == value[j] && value[j] in value && !Breaks(value, j, Pi);
      assert j + 1 < |value| ==> buf[s + (j + 1)] == value[j + 1] && value[j + 1] in value;
    }
  }

  /** The node that is open is not a declaration. */
  lemma CursorKind(p: Plan, buf: string, n: nat, endch: char, nodes: seq<NodeRec>, c: nat, target: nat, end: nat)
    requires p.Plan? && Writable(p.t, p.f) && AtQuestion(p, buf, n, endch, nodes, c, target, end)
    ensures c < |nodes| && nodes[c].kind != KDeclaration
  {
    hide NodeMatches, Tree.Nested, Legal, Sees, QuestionRest;
    QuestionPlace(p, buf, n, endch, nodes, c, target, end);
    DocumentFirst(p.t);
    RecordKind(buf, target, nodes[c], p.t, c, |p.t.data[c].attributes|);
  }

  lemma RecordKind(buf: string, s: nat, r: NodeRec, t: Tree, i: nat, j: nat)
    requires i < |t.data| && i < |t.parent| && NodeMatches(buf, s, r, t, i, j)
    ensures r.kind == t.data[i].kind && r.parent == t.parent[i]
  {
  }

  /** One space stands behind the name. */
  lemma QuestionSpace(p: Plan, before: string, after: string, n: nat, endch: char, nodes: seq<NodeRec>, c: nat,
                      target: nat, end: nat, s: nat)
    requires p.Plan? && Writable(p.t, p.f) && AtQuestion(p, before, n, endch, nodes, c, target, end)
    requires Cut(before, after, end) && before[end] == ' '
    requires end + 1 <= s <= |after| && forall i :: end + 1 <= i < s ==> IsSpace(after[i])
    ensures s == end + 1
  {
    hide AllMatch, Tree.Valid, Legal, Ahead, Token, Open, Sees, AtQuestion;
    QuestionPlace(p, before, n, endch, nodes, c, target, end);
    var k := |nodes|;
    if p.t.data[k].kind == KPi {
      PiValueNext(p, before, after, n, endch, nodes, c, target, end, p.t.data[k].value, Ahead(p.t, p.f, p.g, c, k + 1));
    } else {
      DeclaredNext(p, before, after, n, endch, nodes, c, target, end);
      DeclaredLegal(p.t, p.f, k);
      SecondIsName(p.t.data[k].attributes, p.f);
      FirstSeen(after, n, endch, end + 1,
                AttributesText(p.t.data[k].attributes, p.f)[1..] + ("?>" + Ahead(p.t, p.f, p.g, c, k + 1)));
    }
  }

  lemma SecondIsName(attributes: seq<Attribute>, f: Format)
    requires attributes != [] && forall a :: a in attributes ==> LegalDeclared(a)
    ensures |AttributesText(attributes, f)| >= 2 && !IsSpace(AttributesText(attributes, f)[1])
  {
    hide Escaped, Unbroken;
    assert attributes[0] in attributes;
  }

  /** The value of a processing instruction begins where the white space behind its name ends. */
  lemma PiValueNext(p: Plan, before: string, after: string, n: nat, endch: char, nodes: seq<NodeRec>, c: nat,
                    target: nat, end: nat, value: string, rest: string)
    requires p.Plan? && Writable(p.t, p.f) && |nodes| < p.t.Count() && Open(p.t, c, |nodes| + 1)
    requires p.t.data[|nodes|].kind == KPi && value == p.t.data[|nodes|].value
    requires rest == Ahead(p.t, p.f, p.g, c, |nodes| + 1)
    requires AtQuestion(p, before, n, endch, nodes, c, target, end) && Cut(before, after, end) && before[end] == ' '
    ensures value != "" && NulFree(value) && Unbroken(value, Pi)
    ensures Sees(after, n, endch, end + 1, value + ("?>" + rest))
    ensures end + 1 < n < |after| && !IsSpace(after[end + 1])
  {
    hide AllMatch, Tree.Valid, Legal, Ahead, Token, Open, Sees, LegalName, Unbroken, QuestionRest, AtQuestion, NulFree,
      IsSpace;
    QuestionPlace(p, before, n, endch, nodes, c, target, end);
    QuestionCut(p, before, after, n, endch, nodes, c, target, end);
    PiRest(p.t, p.f, p.g, c, |nodes|, value, rest);
    assert (" " + (value + ("?>" + rest)))[1..] == value + ("?>" + rest);
    FirstSeen(after, n, endch, end + 1, value + ("?>" + rest));
  }

  lemma QuestionPlace(p: Plan, buf: string, n: nat, endch: char, nodes: seq<NodeRec>, c: nat, target: nat, end: nat)
    requires p.Plan? && Writable(p.t, p.f) && AtQuestion(p, buf, n, endch, nodes, c, target, end)
    ensures
      var t, k := p.t, |nodes|;
      && 0 < k < t.Count() && t.parent[k] == c < k && Open(t, c, k) && k < c + t.size[c] && Open(t, c, k + 1)
      && IsQuestion(t.data[k].kind) && end < n < |buf|
  {
    hide AllMatch, Tree.Nested, Legal, Sees, QuestionRest;
    InsideOf(p.t, c, |nodes|);
  }

  lemma PiRest(t: Tree, f: Format, g: Spacing, c: nat, k: nat, value: string, rest: string)
    requires Writable(t, f) && Open(t, c, k) && k < c + t.size[c] && k < t.Count() && Open(t, c, k + 1)
    requires t.data[k].kind == KPi && value == t.data[k].value != "" && rest == Ahead(t, f, g, c, k + 1)
    ensures QuestionRest(t, f, g, c, k) == " " + (value + ("?>" + rest))
    ensures NulFree(value) && Unbroken(value, Pi) && !IsSpace(value[0])
  {
    hide Tree.Valid, Legal, Ahead, Token, Open, LegalName, Unbroken, NulFree, IsSpace, IsXml, AttributesText;
    TokenPi(t, f, g, c, k);
  }

  /** A processing instruction with a value has been read. */
  lemma PiRead(p: Plan, before: string, cut: string, after: string, n: nat, endch: char, nodes: seq<NodeRec>,
               nodes': seq<NodeRec>, c: nat, target: nat, end: nat, q: nat)
    requires p.Plan? && Writable(p.t, p.f) && AtQuestion(p, before, n, endch, nodes, c, target, end)
    requires Cut(before, cut, end) && before[end] == ' ' && p.t.data[|nodes|].kind == KPi
    requires nodes' == nodes + [NodeRec(KPi, c, target, end + 1, [])] && Cut(cut, after, q) && |cut| == n + 1
    requires end + 1 <= q <= n && (cut[q] == '\0' || (cut[q] == '?' && q < n && ClosesAt(cut, q + 1, endch)))
    requires forall i :: end + 1 <= i < q ==> i < n && cut[i] != '\0' && !(cut[i] == '?' && ClosesAt(cut, i + 1, endch))
    ensures q < n && cut[q] == '?'
    ensures
      (after[q + 1] == '>' && q + 2 <= n && At(p, after, n, endch, nodes', c, q + 2)) ||
      (after[q + 1] == '\0' && endch == '>' && At(p, after, n, endch, nodes', c, q + 1))
  {
    hide AllMatch, Tree.Nested, Legal, Ahead, Token, Open, Sees, NodeMatches, LegalName, Unbroken, QuestionRest,
      AtQuestion;
    QuestionPlace(p, before, n, endch, nodes, c, target, end);
    var t, f, g, k := p.t, p.f, p.g, |nodes|;
    var value, rest := t.data[k].value, Ahead(t, f, g, c, k + 1);
    PiValueNext(p, before, cut, n, endch, nodes, c, target, end, value, rest);
    QuestionEnds(cut, n, endch, end + 1, value, rest, q);
    SeesStill(cut, after, n, endch, q + 1, Angle(rest));
    AngleSeen(after, n, endch, q + 1, rest);
    PiMatches(p, before, cut, after, n, endch, nodes, nodes', c, target, end, q);
    if q + 2 <= n {
      NodeStill(after, after, q + 1, q + 2, nodes'[k], t, k, |t.data[k].attributes|);
      AllOn(after, q + 1, q + 2, nodes', t, k);
      LeafDone(p, after, n, endch, nodes', c, q + 2);
    }
    LeafDone(p, after, n, endch, nodes', c, q + 1);
  }

  lemma PiMatches(p: Plan, before: string, cut: string, after: string, n: nat, endch: char, nodes: seq<NodeRec>,
                  nodes': seq<NodeRec>, c: nat, target: nat, end: nat, q: nat)
    requires p.Plan? && Writable(p.t, p.f) && AtQuestion(p, before, n, endch, nodes, c, target, end)
    requires Cut(before, cut, end) && before[end] == ' ' && p.t.data[|nodes|].kind == KPi
    requires nodes' == nodes + [NodeRec(KPi, c, target, end + 1, [])] && |cut| == n + 1
    requires |nodes| < p.t.Count() && q == end + 1 + |p.t.data[|nodes|].value| < n && Cut(cut, after, q)
    requires forall i :: 0 <= i < |p.t.data[|nodes|].value| ==> cut[end + 1 + i] == p.t.data[|nodes|].value[i]
    ensures
      var t, k := p.t, |nodes|;
      && AllMatch(after, q + 1, nodes', t, k) && NodeMatches(after, q + 1, nodes'[k], t, k, |t.data[k].attributes|)
      && Open(t, c, k + 1) && k < t.Count()
  {
    hide AllMatch, Tree.Nested, Legal, Ahead, Token, Open, Sees, NodeMatches, LegalName, QuestionRest;
    var t, f, g, k := p.t, p.f, p.g, |nodes|;
    QuestionCut(p, before, cut, n, endch, nodes, c, target, end);
    LeafStill(p, before, after, nodes, nodes', c, target, q + 1);
    StoredStill(cut, after, end + 1, q + 1, target, t.data[k].name);
    ValueStored(after, end + 1, q, t.data[k].value);
    InsideOf(t, c, k);
    TokenPi(t, f, g, c, k);
    PiRecord(after, q + 1, nodes'[k], t, k);
  }

  lemma ValueStored(buf: string, s: nat, q: nat, value: string)
    requires q == s + |value| < |buf| && buf[q] == '\0' && forall i :: 0 <= i < |value| ==> buf[s + i] == value[i]
    ensures Stored(buf, q + 1, s, value)
  {
  }

  lemma PiRecord(buf: string, s: nat, r: NodeRec, t: Tree, k: nat)
    requires k < |t.data| && k < |t.parent| && t.data[k].kind == KPi && t.data[k].attributes == []
    requires r.kind == KPi && r.parent == t.parent[k] && r.attributes == [] && Stored(buf, s, r.name, t.data[k].name)
    requires if t.data[k].value != "" then Stored(buf, s, r.value, t.data[k].value) else r.value == -1
    ensures NodeMatches(buf, s, r, t, k, |t.data[k].attributes|)
  {
    hide Stored;
  }

  // The attributes of a declaration have no end mark in them

  lemma UnbrokenJoin(x: string, y: string)
    requires Unbroken(x, Pi) && Unbroken(y, Pi) && (x == "" || y == "" || x[|x| - 1] != '?' || y[0] != '>')
    ensures Unbroken(x + y, Pi)
  {
    forall i | 0 <= i < |x + y|
      ensures !Breaks(x + y, i, Pi)
    {
      if i < |x| {
        assert !Breaks(x, i, Pi);
      } else {
        assert !Breaks(y, i - |x|, Pi);
      }
    }
  }

  lemma NoQuestion(x: string)
    requires '?' !in x
    ensures Unbroken(x, Pi)
  {
  }

  lemma {:induction false} EscapedUnbroken(s: string, f: Format)
    requires Unbroken(s, Pi) && !f.skipControl
    ensures Unbroken(Escaped(s, true, f), Pi)
    ensures s != "" ==> Escaped(s, true, f) != "" && (Escaped(s, true, f)[0] == '>' ==> s[0] == '>')
  {
    hide Unbroken, Breaks;
    if s == "" {
      NoQuestion("");
    } else {
      var head, tail := EscapedChar(s[0], true, f), Escaped(s[1..], true, f);
      UnbrokenTail(s);
      EscapedUnbroken(s[1..], f);
      OneUnbroken(s[0], f);
      if |s| > 1 {
        FirstTwo(s);
      }
      UnbrokenJoin(head, tail);
    }
  }

  lemma FirstTwo(s: string)
    requires Unbroken(s, Pi) && |s| > 1
    ensures s[0] != '?' || s[1..][0] != '>'
  {
    assert !Breaks(s, 0, Pi);
  }

  lemma UnbrokenTail(s: string)
    requires Unbroken(s, Pi) && s != ""
    ensures Unbroken(s[1..], Pi)
  {
    forall i | 0 <= i < |s| - 1
      ensures !Breaks(s[1..], i, Pi)
    {
      assert !Breaks(s, i + 1, Pi);
    }
  }

  lemma OneUnbroken(c: char, f: Format)
    requires !f.skipControl
    ensures
      var r := EscapedChar(c, true, f);
      r != "" && Unbroken(r, Pi) && (r[|r| - 1] == '?' ==> c == '?') && (r[0] == '>' ==> c == '>')
  {
    if !IsSpecial(c, true) {
      assert Unbroken([c], Pi);
    } else {
      NoQuestion(EscapedChar(c, true, f));
    }
  }

  lemma AttributeUnbroken(a: Attribute, f: Format)
    requires LegalDeclared(a) && !f.skipControl && !f.noEscapes
    ensures
      var r := AttributeText(a, f);
      Unbroken(r, Pi) && NulFree(r) && r != "" && r[0] == ' ' && r[|r| - 1] != '?'
  {
    hide Unbroken, Breaks, Escaped;
    var q := [Quote(f)];
    var value := Escaped(a.value, true, f);
    EscapedUnbroken(a.value, f);
    EscapedIsSafe(a.value, true, f);
    var head := " " + NameOr(a.name) + "=" + q;
    NameHasNoQuestion(a.name);
    NoQuestion(head);
    NoQuestion(q);
    UnbrokenJoin(head, value);
    UnbrokenJoin(head + value, q);
    assert AttributeText(a, f) == head + value + q;
  }

  lemma NameHasNoQuestion(name: string)
    requires LegalName(name)
    ensures '?' !in NameOr(name) && NulFree(NameOr(name))
  {
  }

  lemma {:induction false} AttributesUnbroken(attributes: seq<Attribute>, f: Format)
    requires (forall a :: a in attributes ==> LegalDeclared(a)) && !f.skipControl && !f.noEscapes
    ensures
      var r := AttributesText(attributes, f);
      Unbroken(r, Pi) && NulFree(r) && (attributes != [] ==> r != "" && r[0] == ' ')
  {
    hide Unbroken, Breaks, LegalDeclared, AttributeText;
    if attributes == [] {
      NoQuestion("");
    } else {
      AttributesUnbroken(attributes[1..], f);
      assert attributes[0] in attributes;
      AttributeUnbroken(attributes[0], f);
      UnbrokenJoin(AttributeText(attributes[0], f), AttributesText(attributes[1..], f));
    }
  }

  /** The attributes of the declaration begin behind its name. */
  lemma DeclaredNext(p: Plan, before: string, after: string, n: nat, endch: char, nodes: seq<NodeRec>, c: nat,
                     target: nat, end: nat)
    requires p.Plan? && Writable(p.t, p.f) && |nodes| < p.t.Count() && Open(p.t, c, |nodes| + 1)
    requires p.t.data[|nodes|].kind == KDeclaration
    requires AtQuestion(p, before, n, endch, nodes, c, target, end) && Cut(before, after, end) && before[end] == ' '
    ensures
      var text, rest := AttributesText(p.t.data[|nodes|].attributes, p.f), Ahead(p.t, p.f, p.g, c, |nodes| + 1);
      && p.t.data[|nodes|].attributes != [] && |text| >= 2 && text[0] == ' ' && NulFree(text) && Unbroken(text, Pi)
      && Sees(after, n, endch, end + 1, text[1..] + ("?>" + rest))
  {
    hide AllMatch, Tree.Nested, Legal, Ahead, Token, Open, Sees, LegalName, Unbroken, AttributesText, LegalDeclared;
    var t, f, g, k := p.t, p.f, p.g, |nodes|;
    var text, rest := AttributesText(t.data[k].attributes, f), Ahead(t, f, g, c, k + 1);
    QuestionCut(p, before, after, n, endch, nodes, c, target, end);
    InsideOf(t, c, k);
    DeclaredLegal(t, f, k);
    AttributesUnbroken(t.data[k].attributes, f);
    AttributesStart(t.data[k].attributes, f);
    assert QuestionRest(t, f, g, c, k)[1..] == text[1..] + ("?>" + rest);
  }

  lemma DeclaredLegal(t: Tree, f: Format, k: nat)
    requires Writable(t, f) && 0 < k < t.Count() && t.data[k].kind == KDeclaration
    ensures forall a :: a in t.data[k].attributes ==> LegalDeclared(a)
    ensures !f.skipControl && !f.noEscapes
  {
    hide Tree.Nested, LegalDeclared;
    assert LegalNode(t.data[k]);
  }

  /** The attributes of the declaration are read like those of an element without content. */
  lemma DeclaredRead(p: Plan, before: string, cut: string, after: string, n: nat, endch: char, nodes: seq<NodeRec>,
                     nodes': seq<NodeRec>, c: nat, target: nat, end: nat, q: nat)
    requires p.Plan? && Writable(p.t, p.f) && AtQuestion(p, before, n, endch, nodes, c, target, end)
    requires Cut(before, cut, end) && before[end] == ' ' && p.t.data[|nodes|].kind == KDeclaration
    requires nodes' == nodes + [NodeRec(KDeclaration, c, target, -1, [])] && |cut| == n + 1
    requires end + 1 <= q <= n && (cut[q] == '\0' || (cut[q] == '?' && q < n && ClosesAt(cut, q + 1, endch)))
    requires forall i :: end + 1 <= i < q ==> i < n && cut[i] != '\0' && !(cut[i] == '?' && ClosesAt(cut, i + 1, endch))
    requires |after| == |cut| && after[q] == '/' && forall i :: 0 <= i <= n && i != q ==> after[i] == cut[i]
    ensures q < n && cut[q] == '?'
    ensures InTag(p, after, n, endch, nodes', 0, end + 1, 1) && HasAttributes(p, |nodes|)
  {
    hide AllMatch, Tree.Nested, Legal, Ahead, Token, Open, Sees, NodeMatches, LegalName, Unbroken, QuestionRest,
      AtQuestion, AttributesText, TagRest, NulFree;
    QuestionPlace(p, before, n, endch, nodes, c, target, end);
    var t, f, g, k := p.t, p.f, p.g, |nodes|;
    var text, rest := AttributesText(t.data[k].attributes, f), Ahead(t, f, g, c, k + 1);
    DeclaredNext(p, before, cut, n, endch, nodes, c, target, end);
    UnbrokenTail(text);
    NulFreeTail(text);
    QuestionEnds(cut, n, endch, end + 1, text[1..], rest, q);
    SeesStill(cut, after, n, endch, q + 1, Angle(rest));
    SeesJoin(after, n, endch, end + 1, text[1..], q, rest);
    DeclaredParts(p, before, cut, after, n, endch, nodes, nodes', c, target, end);
    DeclaredRest(t, f, g, c, k, text, rest);
    SpaceFirst(after, n, endch, end + 1, text, rest);
  }

  lemma CutZero(buf: string, e: nat)
    requires e < |buf|
    ensures Cut(buf, buf[e := '\0'], e)
  {
  }

  lemma IsCut(before: string, after: string, e: nat)
    requires e < |before| && after == before[e := '\0']
    ensures Cut(before, after, e)
  {
  }

  lemma CutSlash(buf: string, e: nat)
    requires e < |buf|
    ensures |buf[e := '/']| == |buf| && buf[e := '/'][e] == '/'
    ensures forall i :: 0 <= i < |buf| && i != e ==> buf[e := '/'][i] == buf[i]
  {
  }

  lemma NulFreeTail(s: string)
    requires NulFree(s) && s != ""
    ensures NulFree(s[1..])
  {
  }

  lemma SeesJoin(buf: string, n: nat, endch: char, s: nat, text: string, q: nat, rest: string)
    requires |buf| == n + 1 && q == s + |text| < n && buf[q] == '/' && Sees(buf, n, endch, q + 1, Angle(rest)) && s <= n
    requires forall i :: 0 <= i < |text| ==> buf[s + i] == text[i]
    ensures Sees(buf, n, endch, s, text + EmptyEnd(rest))
  {
    var all := text + EmptyEnd(rest);
    assert forall i :: 0 <= i < |text| ==> all[i] == text[i];
    assert all[|text|] == '/' && forall i :: 0 <= i < |Angle(rest)| ==> all[|text| + 1 + i] == Angle(rest)[i];
  }

  lemma DeclaredRest(t: Tree, f: Format, g: Spacing, c: nat, k: nat, text: string, rest: string)
    requires Writable(t, f) && 0 < k < t.Count() && t.data[k].kind == KDeclaration && t.parent[k] == c < k
    requires Open(t, c, k) && k < c + t.size[c] && Open(t, c, k + 1) && rest == Ahead(t, f, g, c, k + 1)
    requires text == AttributesText(t.data[k].attributes, f)
    ensures TagRest(t, f, g, k, 0) == text + EmptyEnd(rest)
  {
    hide Tree.Nested, Legal, Ahead, Token, Open, AttributesText;
    assert t.data[k].attributes[0..] == t.data[k].attributes;
    TailIs(t, f, g, c, k);
  }

  lemma SpaceFirst(buf: string, n: nat, endch: char, s: nat, text: string, rest: string)
    requires |text| >= 1 && Sees(buf, n, endch, s, text[1..] + EmptyEnd(rest))
    ensures Sees(buf, n, endch, s, (text + EmptyEnd(rest))[1..])
  {
    assert (text + EmptyEnd(rest))[1..] == text[1..] + EmptyEnd(rest);
  }

  lemma DeclaredParts(p: Plan, before: string, cut: string, after: string, n: nat, endch: char, nodes: seq<NodeRec>,
                      nodes': seq<NodeRec>, c: nat, target: nat, end: nat)
    requires p.Plan? && Writable(p.t, p.f) && AtQuestion(p, before, n, endch, nodes, c, target, end)
    requires Cut(before, cut, end) && p.t.data[|nodes|].kind == KDeclaration
    requires nodes' == nodes + [NodeRec(KDeclaration, c, target, -1, [])]
    requires |after| == |cut| && forall i :: 0 <= i <= end ==> after[i] == cut[i]
    ensures
      var t, k := p.t, |nodes|;
      && 0 < k < t.Count() && t.parent[k] == c < k && Open(t, c, k) && k < c + t.size[c] && Open(t, c, k + 1)
      && AllMatch(after, end + 1, nodes', t, k) && NodeMatches(after, end + 1, nodes'[k], t, k, 0)
  {
    hide AllMatch, Tree.Nested, Legal, Ahead, Token, Sees, NodeMatches, LegalName, QuestionRest;
    var t, k := p.t, |nodes|;
    QuestionCut(p, before, cut, n, endch, nodes, c, target, end);
    InsideOf(t, c, k);
    LeafStill(p, before, after, nodes, nodes', c, target, end + 1);
    StoredStill(cut, after, end + 1, end + 1, target, t.data[k].name);
    DeclaredRecord(after, end + 1, nodes'[k], t, k);
  }

  lemma DeclaredRecord(buf: string, s: nat, r: NodeRec, t: Tree, k: nat)
    requires k < |t.data| && k < |t.parent| && t.data[k].kind == KDeclaration && r.kind == KDeclaration
    requires r.parent == t.parent[k] && r.attributes == [] && r.value == -1 && Stored(buf, s, r.name, t.data[k].name)
    ensures NodeMatches(buf, s, r, t, k, 0)
  {
    hide Stored;
  }
}
