/**
 A document that is printed and parsed again is the same document, also with white space between its markup.
 */
module XmlRoundTrip {
  import opened XmlTree
  import opened XmlPrint
  import opened XmlEscapes
  import opened XmlScript
  import opened XmlSpacing
  import opened XmlParser
  import opened XmlPlan
  import opened XmlMarkup
  import opened XmlRecords
  import opened BufferedWriter
  import Traversal

  ghost predicate EndOfDocument(t: Tree, c: char)
    requires t.Valid()
  {
    c != '<' && c != '\0' && (EndsInText(t) ==> c != '>')
  }

  ghost predicate EndsWell(t: Tree, s: string)
    requires t.Valid()
  {
    s != "" ==> EndOfDocument(t, s[|s| - 1])
  }

  lemma JoinEnds(t: Tree, head: string, rest: string)
    requires t.Valid() && EndsWell(t, rest) && (rest == "" ==> EndsWell(t, head))
    ensures EndsWell(t, head + rest)
  {
    hide Tree.Nested, EndOfDocument;
    if rest == "" {
      assert head + rest == head;
    }
  }

  /**
   A printed document ends with no character that opens a tag or ends the buffer; a text ends with none that closes a
   tag.
   */
  lemma {:induction false} LastChar(t: Tree, f: Format, g: Spacing, c: nat, k: nat)
    requires Writable(t, f) && Open(t, c, k)
    ensures EndsWell(t, Ahead(t, f, g, c, k))
    decreases t.Count() - k, c, 2
  {
    hide Tree.Nested, Legal, Ahead, Token, Open, EndsWell;
    TokenLast(t, f, g, c, k);
    SpaceLast(t, g, c, k);
    AheadIs(t, f, g, c, k);
    JoinEnds(t, SpaceAt(t, g, c, k), Token(t, f, g, c, k));
  }

  lemma AheadIs(t: Tree, f: Format, g: Spacing, c: nat, k: nat)
    requires Writable(t, f) && Open(t, c, k)
    ensures Ahead(t, f, g, c, k) == SpaceAt(t, g, c, k) + Token(t, f, g, c, k)
  {
    hide Tree.Nested, Legal, Token, Open, SpaceAt;
  }

  lemma SpaceLast(t: Tree, g: Spacing, c: nat, k: nat)
    requires t.Valid() && Open(t, c, k)
    ensures EndsWell(t, SpaceAt(t, g, c, k))
  {
    hide Tree.Nested, Open, SpaceAt;
    var w := SpaceAt(t, g, c, k);
    assert AllSpace(w);
  }

  lemma {:induction false} TokenLast(t: Tree, f: Format, g: Spacing, c: nat, k: nat)
    requires Writable(t, f) && Open(t, c, k)
    ensures EndsWell(t, Token(t, f, g, c, k))
    decreases t.Count() - k, c, 1
  {
    hide Tree.Nested, Legal, Ahead, Token, StartTail, Open, EndOfDocument, AttributesText, SimpleText, LegalName;
    OpenBounds(t, c, k);
    if k == c + t.size[c] {
      if c == 0 {
        TokenDone(t, f, g);
      } else {
        TokenEnd(t, f, g, c, k);
        LastChar(t, f, g, t.parent[c], k);
        NothingAhead(t, f, g, t.parent[c], k);
        BracketLast(t, c, k, "</" + t.data[c].name);
        JoinEnds(t, "</" + t.data[c].name + ">", Ahead(t, f, g, t.parent[c], k));
      }
    } else if t.data[k].kind == KElement {
      InsideFirst(t, c, k);
      TokenElement(t, f, g, c, k);
      TailStarts(t, f, g, c, k);
      TailLast(t, f, g, c, k);
      JoinEnds(t, "<" + t.data[k].name + AttributesText(t.data[k].attributes, f), StartTail(t, f, g, c, k));
    } else {
      TokenSimple(t, f, g, c, k);
      LastChar(t, f, g, c, k + 1);
      NothingAhead(t, f, g, c, k + 1);
      SimpleLast(t, f, k);
      JoinEnds(t, SimpleText(t.data[k], f), Ahead(t, f, g, c, k + 1));
    }
  }

  lemma {:induction false} TailLast(t: Tree, f: Format, g: Spacing, c: nat, k: nat)
    requires Writable(t, f) && Open(t, c, k) && k < c + t.size[c] && 0 < k < t.Count() && t.data[k].kind == KElement
    ensures EndsWell(t, StartTail(t, f, g, c, k))
    decreases t.Count() - k, c, 0
  {
    hide Tree.Nested, Legal, Ahead, Open, EndsInText;
    TagOpen(t, f, c, k);
    if IsEmptyTag(t, f, k) {
      if k + 1 == t.Count() {
        NotText(t, k);
      }
      var rest := Ahead(t, f, g, c, k + 1);
      LastChar(t, f, g, c, k + 1);
      NothingAhead(t, f, g, c, k + 1);
      JoinEnds(t, ">", rest);
      JoinEnds(t, "/", ">" + rest);
    } else {
      LastChar(t, f, g, k, k + 1);
      NothingAhead(t, f, g, k, k + 1);
      JoinEnds(t, ">", Ahead(t, f, g, k, k + 1));
    }
  }

  lemma NothingAhead(t: Tree, f: Format, g: Spacing, c: nat, k: nat)
    requires Writable(t, f) && Open(t, c, k)
    ensures Ahead(t, f, g, c, k) == "" ==> c == 0 && k == t.Count()
  {
    hide Tree.Nested, Legal, Token, Open;
    OpenBounds(t, c, k);
    TokenStarts(t, f, g, c, k);
  }

  /** A bracket is the last character of a document whose last node is an element. */
  lemma BracketLast(t: Tree, c: nat, k: nat, head: string)
    requires t.Valid() && Open(t, c, k) && 0 < c
    ensures k == t.Count() ==> EndsWell(t, head + ">")
  {
    hide Tree.Nested;
    if k == t.Count() {
      NotText(t, c);
    }
  }

  /** What is written for the last node at the top. */
  lemma SimpleLast(t: Tree, f: Format, k: nat)
    requires Writable(t, f) && 0 < k < t.Count() && t.data[k].kind != KElement
    ensures k + 1 == t.Count() ==> EndsWell(t, SimpleText(t.data[k], f))
  {
    hide Tree.Nested, AttributesText, Legal, LegalName, LegalSection, LegalPi, Escaped;
    KindOf(t, k);
    var d := t.data[k];
    if k + 1 == t.Count() {
      if d.kind == KPcdata {
        EscapedIsSafe(d.value, false, f);
      } else {
        NotText(t, k);
        match d.kind
        case KComment => Ends("<!--" + Body(d.value, 0, Comment), "-->");
        case KCdata => Ends("<![CDATA[" + Body(d.value, 0, Cdata), "]]>");
        case KPi => Ends("<?" + NameOr(d.name) + (if d.value == "" then "" else " " + Body(d.value, 0, Pi)), "?>");
        case _ => Ends("<?" + NameOr(d.name) + AttributesText(d.attributes, f), "?>");
      }
    }
  }

  lemma NotText(t: Tree, k: nat)
    requires t.Valid() && 0 < k < t.Count() && k + t.size[k] == t.Count() && t.data[k].kind != KPcdata
    ensures !EndsInText(t)
  {
    hide Tree.Nested;
    EndOf(t, k);
  }

  lemma Ends(head: string, tail: string)
    requires tail != ""
    ensures (head + tail)[|head + tail| - 1] == tail[|tail| - 1]
  {
  }

  /** has_element_node_siblings, from the first child of the root on. */
  method HasElement(nodes: seq<NodeRec>) returns (found: bool)
    ensures found <==> exists i :: 0 < i < |nodes| && nodes[i].parent == 0 && nodes[i].kind == KElement
  {
    var i := 1;
    while i < |nodes|
      invariant 1 <= i
      invariant forall j :: 0 < j < i && j < |nodes| ==> !(nodes[j].parent == 0 && nodes[j].kind == KElement)
    {
      if nodes[i].parent == 0 && nodes[i].kind == KElement {
        return true;
      }
      i := i + 1;
    }
    found := false;
  }

  /** The byte order mark: U+FEFF in UTF-8. */
  const MARK: string := [0xEF as char, 0xBB as char, 0xBF as char]

  /** U+FEFF in front of a text is a byte order mark and not part of it. */
  ghost predicate HasMark(s: string) {
    MARK <= s
  }

  /** How much of the buffer the parser skips in front of the text. */
  function MarkLength(marked: bool): nat {
    if marked then |MARK| else 0
  }

  /**
   The whole text of a document, or the text and a zero behind it, and a byte order mark in front of it or none; a mark
   alone is not recognized, because its last character is taken out.
   */
  ghost predicate IsTextOf(buf: string, p: Plan, marked: bool) {
    p.Plan? && Writable(p.t, p.f) ==>
      var text, k := Spaced(p.t, p.f, p.g), MarkLength(marked);
      && k <= |buf| && (buf[k..] == text || buf[k..] == text + ['\0'])
      && if marked then |buf| > k && MARK <= buf else !HasMark(text)
  }

  /** A zero stands behind the text. */
  ghost predicate EndsInZero(buf: string) {
    buf != "" && buf[|buf| - 1] == '\0'
  }

  ghost predicate HasTopElement(t: Tree) {
    exists i :: 0 < i < |t.parent| && i < |t.data| && t.parent[i] == 0 && t.data[i].kind == KElement
  }

  /** What the parser says of a document that it has read to the end. */
  ghost function StatusOf(t: Tree, o: ParseOptions): Status {
    if o.fragment || HasTopElement(t) then StatusOk else NoDocumentElement
  }

  /** xml_parser::parse: the last character makes room for a zero while the tree is parsed. */
  method Parse(a: array<char>, o: ParseOptions, ghost p: Plan, ghost marked: bool)
    returns (status: Status, nodes: seq<NodeRec>, ghost late: bool, ghost closed: set<nat>)
    requires PlanFits(p, o) && (p.Plan? ==> IsTextOf(a[..], p, marked))
    modifies a
    ensures p.Plan? ==>
      status == StatusOf(p.t, o) &&
      (|nodes| == p.t.Count() && AllMatch(a[..], a.Length, nodes, p.t, |nodes|) <==>
        (EndsInText(p.t) ==> EndsInZero(old(a[..]))))
    ensures status == StatusOk && !o.fragment ==>
      exists i :: 0 < i < |nodes| && nodes[i].parent == 0 && nodes[i].kind == KElement
    ensures status == StatusOk ==> forall i :: 0 <= i < |nodes| && nodes[i].kind == KElement ==> i in closed
    ensures a.Length > 0 && old(a[a.Length - 1]) == '<' ==> status != StatusOk
    ensures Sound(nodes, a.Length) && Preorder(nodes) && HaveKeys(nodes)
    ensures (KeysAscend(nodes) <==> !late) && (late ==> o.declaration)
  {
    hide Sound, At, AllMatch, Preorder, HaveKeys, KeysAscend, Tidy, IsCursor, HasTopElement, Spaced,
      DocumentRead, HasMark, Whole, EndsInText, Tree.Nested, Legal, OpenOnPath, IsTextOf;
    nodes, late, closed := [NodeRec(KDocument, -1, -1, -1, [])], false, {};
    if a.Length == 0 {
      SoundStart(a.Length);
      OneRecord(nodes[0]);
      if p.Plan? {
        TextEmpty(p, a[..], nodes, marked);
      }
      return if o.fragment then StatusOk else NoDocumentElement, nodes, late, closed;
    }
    ghost var text := a[..];
    var n := a.Length - 1;
    var endch := a[n];
    a[n] := '\0';
    var start := if a[0] == 0xEF as char && a[1] == 0xBB as char && a[2] == 0xBF as char then 3 else 0;
    MarkIs(a[..]);
    if p.Plan? {
      AtStart(p, text, a[..], n, endch, nodes, marked, start);
      TextOnTop(p, o, endch);
    }
    var parser := new Parser(a, n, endch, o, p);
    parser.Further(0, start);
    var ok;
    ok, closed := parser.ParseTree(start);
    nodes, late := parser.nodes, parser.late;
    SoundMore(nodes, n);
    if !ok {
      return parser.status, nodes, late, closed;
    }
    // since the last character was taken out, a stray < there has not been seen
    if endch == '<' {
      return UnrecognizedTag, nodes, late, closed;
    }
    var found := HasElement(nodes);
    if p.Plan? {
      Loaded(p, o, a[..], n, endch, nodes);
    }
    status := if !o.fragment && !found then NoDocumentElement else StatusOk;
  }

  lemma SoundMore(nodes: seq<NodeRec>, n: nat)
    requires Sound(nodes, n)
    ensures Sound(nodes, n + 1)
  {
  }

  lemma TextEmpty(p: Plan, buf: string, nodes: seq<NodeRec>, marked: bool)
    requires p.Plan? && Writable(p.t, p.f) && IsTextOf(buf, p, marked) && buf == ""
    requires nodes == [NodeRec(KDocument, -1, -1, -1, [])]
    ensures p.t.Count() == 1 && !HasTopElement(p.t) && !EndsInText(p.t) && AllMatch(buf, 0, nodes, p.t, 1)
  {
    hide Tree.Nested, Legal, Ahead;
    FirstOpen(p.t);
    NothingAhead(p.t, p.f, p.g, 0, 1);
    DocumentMatches(buf, nodes, p.t);
  }

  /** Before the first token, the whole document is in front of the parser, behind the mark if there is one. */
  lemma AtStart(p: Plan, text: string, buf: string, n: nat, endch: char, nodes: seq<NodeRec>, marked: bool, start: nat)
    requires p.Plan? && Writable(p.t, p.f) && IsTextOf(text, p, marked) && |text| == |buf| == n + 1
    requires endch == text[n] && buf == text[n := '\0'] && nodes == [NodeRec(KDocument, -1, -1, -1, [])]
    requires start == if MARK <= buf then 3 else 0
    ensures start <= n && At(p, buf, n, endch, nodes, 0, start) && endch != '<' && EndFits(p, endch)
    ensures Whole(p.t, endch) <==> (EndsInText(p.t) ==> EndsInZero(text))
  {
    hide Tree.Nested, Legal, Ahead, Open, EndsInText;
    var t, f, g := p.t, p.f, p.g;
    FirstOpen(t);
    LastChar(t, f, g, 0, 1);
    StartIs(text, buf, Spaced(t, f, g), marked);
    TextSeen(text, buf, n, endch, Spaced(t, f, g), start);
    AheadSeen(p, buf, n, endch, 0, 1, start);
    DocumentMatches(buf, nodes, t);
    AllOn(buf, 0, start, nodes, t, 1);
    CountIsOpen(t);
    CharTaken(text, Spaced(t, f, g), start);
  }

  lemma MarkIs(buf: string)
    ensures MARK <= buf <==> |buf| >= 3 && buf[0] == 0xEF as char && buf[1] == 0xBB as char && buf[2] == 0xBF as char
  {
    if |buf| >= 3 {
      assert buf[..3] == [buf[0], buf[1], buf[2]];
    }
  }

  /** The mark is seen in the buffer exactly if there is one. */
  lemma StartIs(text: string, buf: string, all: string, marked: bool)
    requires text != "" && buf == text[|text| - 1 := '\0']
    requires
      var k := MarkLength(marked);
      && k <= |text| && (text[k..] == all || text[k..] == all + ['\0'])
      && if marked then |text| > k && MARK <= text else !HasMark(all)
    ensures MARK <= buf <==> marked
  {
    if marked {
      assert buf[..3] == text[..3] == MARK;
    } else if MARK <= buf {
      MarkStays(text, buf, all);
    }
  }

  lemma MarkStays(text: string, buf: string, all: string)
    requires text != "" && buf == text[|text| - 1 := '\0'] && MARK <= buf
    requires text[0..] == all || text[0..] == all + ['\0']
    ensures MARK <= all
  {
    assert buf[2] == MARK[2] && |text| > 3;
    assert all[..3] == text[..3] == buf[..3];
  }

  lemma TextSeen(text: string, buf: string, n: nat, endch: char, all: string, k: nat)
    requires |text| == n + 1 && k <= n && buf == text[n := '\0'] && endch == text[n]
    requires text[k..] == all || text[k..] == all + ['\0']
    ensures Sees(buf, n, endch, k, all)
  {
    var rest := text[k..];
    assert forall i :: 0 <= i < |all| ==> all[i] == rest[i] == text[k + i];
  }

  /** The character that is taken out is the last one of the text, or the zero behind it. */
  lemma CharTaken(text: string, all: string, k: nat)
    requires text != "" && k < |text| && (text[k..] == all || text[k..] == all + ['\0'])
    ensures text[|text| - 1] == if text[k..] == all then all[|all| - 1] else '\0'
  {
    assert text[|text| - 1] == text[k..][|text| - 1 - k];
  }

  lemma CountIsOpen(t: Tree)
    requires t.Valid() && Open(t, 0, 1)
    ensures 1 <= t.Count()
  {
  }

  lemma DocumentMatches(buf: string, nodes: seq<NodeRec>, t: Tree)
    requires t.Valid() && Legal(t) && nodes == [NodeRec(KDocument, -1, -1, -1, [])]
    ensures AllMatch(buf, 0, nodes, t, 1)
  {
    hide Tree.Nested;
    DocumentFirst(t);
  }

  lemma Loaded(p: Plan, o: ParseOptions, buf: string, n: nat, endch: char, nodes: seq<NodeRec>)
    requires p.Plan? && PlanFits(p, o) && DocumentRead(p, buf, n, endch, nodes) && (!Whole(p.t, endch) ==> o.fragment)
    ensures |nodes| == p.t.Count() && AllMatch(buf, n + 1, nodes, p.t, |nodes|) <==> Whole(p.t, endch)
    ensures !o.fragment ==>
      ((exists i :: 0 < i < |nodes| && nodes[i].parent == 0 && nodes[i].kind == KElement) <==> HasTopElement(p.t))
  {
    hide Legal, Tree.Nested, HasTopElement, EndsInText, AllMatch;
    if Whole(p.t, endch) {
      FoundOnTop(p, buf, n + 1, nodes);
    }
  }

  lemma FoundOnTop(p: Plan, buf: string, s: nat, nodes: seq<NodeRec>)
    requires p.Plan? && Writable(p.t, p.f) && AllMatch(buf, s, nodes, p.t, |nodes|) && |nodes| == p.t.Count()
    ensures (exists i :: 0 < i < |nodes| && nodes[i].parent == 0 && nodes[i].kind == KElement) <==> HasTopElement(p.t)
  {
    hide NodeMatches, Tree.Nested, Legal;
    forall i | 0 <= i < |nodes|
      ensures nodes[i].parent == p.t.parent[i] && nodes[i].kind == p.t.data[i].kind
    {
      RecordKind(buf, s, nodes[i], p.t, i, |p.t.data[i].attributes|);
    }
  }

  /** A text at the top is only there if fragments are accepted. */
  lemma TextOnTop(p: Plan, o: ParseOptions, endch: char)
    requires p.Plan? && PlanFits(p, o)
    ensures !Whole(p.t, endch) ==> o.fragment
  {
    hide Legal, Tree.Nested;
  }

  /**
   Save a document to memory and load it again in place: every node that the parser has built has the kind, the parent,
   the name, the value and the attributes of the node with the same number, and there are no others, unless the document
   ends in a text and nothing is behind it in the buffer; the parser can only complain that there is no element.
   */
  method SaveAndLoad(ghost t: Tree, h: Traversal.Heap, data: seq<NodeData>, f: Format, o: ParseOptions,
                     bigMachine: bool, terminated: bool)
    returns (buffer: array<char>, status: Status, nodes: seq<NodeRec>)
    requires Traversal.Linked(t, h) && data == t.data && Writable(t, f) && PlanFits(Plan(t, f, NoSpacing), o)
    requires !HasMark(NodeText(t, f, 0))
    ensures status == StatusOf(t, o)
    ensures |nodes| == t.Count() && AllMatch(buffer[..], buffer.Length, nodes, t, |nodes|) <==>
      (EndsInText(t) ==> terminated)
  {
    hide Writer.Valid, Writer.Contents, NodeText, AllMatch, Legal, Tree.Nested, ProperParents, StatusOf, HasMark,
      EndsInText;
    var w := new Writer(NativeUtf8, bigMachine);
    LegalParents(t);
    NodeOutput(w, t, h, data, 0, f);
    ghost var text := NodeText(t, f, 0);
    assert w.Contents() == text;
    w.Flush();
    assert w.emitted == CharCodes(text);
    buffer := Load(w.emitted, terminated, text);
    SpacedPlain(t, f);
    ghost var late, closed;
    assert buffer[..][0..] == buffer[..];
    NoZeroLast(t, f, buffer[..], terminated);
    status, nodes, late, closed := Parse(buffer, o, Plan(t, f, NoSpacing), false);
  }

  lemma NoZeroLast(t: Tree, f: Format, buf: string, terminated: bool)
    requires Writable(t, f)
    requires var text := Spaced(t, f, NoSpacing); buf == if terminated then text + ['\0'] else text
    ensures EndsInZero(buf) <==> terminated
  {
    hide Ahead, Legal, Tree.Nested, Open, EndsInText;
    FirstOpen(t);
    LastChar(t, f, NoSpacing, 0, 1);
  }

  lemma LegalParents(t: Tree)
    requires t.Valid() && Legal(t)
    ensures ProperParents(t)
  {
    hide Tree.Nested;
    forall i | 0 <= i < t.Count() && t.size[i] > 1
      ensures t.data[i].kind == KDocument || t.data[i].kind == KElement
    {
      if i > 0 {
        KindOf(t, i);
      } else {
        DocumentFirst(t);
      }
    }
  }

  /** The bytes of a file as a buffer, with or without a zero behind them. */
  method Load(bytes: seq<nat>, terminated: bool, ghost text: string) returns (buffer: array<char>)
    requires bytes == CharCodes(text)
    ensures fresh(buffer) && buffer[..] == if terminated then text + ['\0'] else text
  {
    buffer := new char[|bytes| + if terminated then 1 else 0](_ => '\0');
    var i := 0;
    while i < |bytes|
      invariant i <= |bytes| <= buffer.Length
      invariant forall j :: 0 <= j < i ==> buffer[j] == text[j]
      invariant forall j :: i <= j < buffer.Length ==> buffer[j] == '\0'
    {
      assert bytes[i] == text[i] as nat;
      buffer[i] := bytes[i] as char;
      i := i + 1;
    }
  }

  /** A tree is determined by the parents of its nodes. */
  lemma ParentsDetermine(t: Tree, u: Tree, i: nat)
    requires t.Valid() && u.Valid() && t.parent == u.parent && i < t.Count()
    ensures t.Count() == u.Count() && t.size[i] == u.size[i]
  {
    EndOf(t, i);
    EndOf(u, i);
  }

  /** The subtree of node i ends at the next node whose parent comes before i. */
  lemma EndOf(t: Tree, i: nat)
    requires t.Valid() && i < t.Count()
    ensures forall j :: i < j < i + t.size[i] ==> t.parent[j] >= i
    ensures i + t.size[i] < t.Count() ==> t.parent[i + t.size[i]] < i
  {
    forall j | i < j < i + t.size[i]
      ensures t.parent[j] >= i
    {
      t.AncestorOfParent(i, j);
    }
    var e := i + t.size[i];
    if e < t.Count() {
      t.ParentEnds(e);
      if t.parent[e] > i {
        t.SubtreeInside(i, t.parent[e]);
      }
    }
  }
}
