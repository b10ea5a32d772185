/**
 What is in front of the tag parser, and behind it, when it reads a printed document.
 */
module XmlPlan {

  import opened Common
  import opened XmlTree
  import opened XmlText
  import opened XmlDecode
  import opened XmlPrint
  import opened XmlEscapes
  import opened XmlScript
  import opened XmlSpacing
  import opened XmlTokens
  import opened XmlRecords

  datatype ParseOptions = ParseOptions(
    comments: bool, cdata: bool, pi: bool, declaration: bool, doctype: bool, escapes: bool, eol: bool, wconv: bool,
    wnorm: bool, trimPcdata: bool, wsPcdata: bool, wsPcdataSingle: bool, fragment: bool, embedPcdata: bool)

  /** The printed document that is in the buffer, if that is what is being parsed, and the white space in it. */
  datatype Plan = NoPlan | Plan(t: Tree, f: Format, g: Spacing)

  ghost predicate PlanFits(p: Plan, o: ParseOptions) {
    p.Plan? ==>
      && Writable(p.t, p.f) && o.escapes && o.eol && !o.wnorm && !o.trimPcdata && !o.embedPcdata
      && (forall i :: 0 <= i < p.t.Count() ==> IsKept(p.t.data[i].kind, o))
      && (forall i :: 0 < i < p.t.Count() && p.t.data[i].kind == KPcdata && p.t.parent[i] == 0 ==> o.fragment)
      && Drops(p.t, p.g, o)
  }

  /** The white space between the markup makes no nodes. */
  ghost predicate Drops(t: Tree, g: Spacing, o: ParseOptions)
    requires t.Valid()
  {
    forall c: nat, k: nat :: Open(t, c, k) && SpaceAt(t, g, c, k) != "" ==> IsDropped(t, o, c, k)
  }

  /** parse_ws_pcdata_single keeps white space that is all that an element has. */
  ghost predicate IsDropped(t: Tree, o: ParseOptions, c: nat, k: nat)
    requires t.Valid() && Open(t, c, k)
  {
    if o.wsPcdataSingle then c == 0 || k < c + t.size[c] || t.size[c] > 1 else !o.wsPcdata
  }

  /** The parser makes nodes of that kind. */
  predicate IsKept(kind: Kind, o: ParseOptions) {
    match kind
    case KComment => o.comments
    case KCdata => o.cdata
    case KPi => o.pi
    case KDeclaration => o.declaration
    case _ => true
  }

  ghost predicate AttrMatches(buf: string, s: nat, r: AttrRec, a: Attribute) {
    Stored(buf, s, r.name, a.name) && Stored(buf, s, r.value, a.value)
  }

  /** The node at the cursor has these attributes behind those it had, and nothing else is new. */
  ghost predicate Took(buf: string, was: seq<NodeRec>, now: seq<NodeRec>, cursor: nat, done: seq<Attribute>, s: nat)
    requires cursor < |was|
  {
    |now| == |was| &&
    var before, after := was[cursor].attributes, now[cursor].attributes;
    && now == was[cursor := was[cursor].(attributes := after)]
    && |after| == |before| + |done| && after[..|before|] == before
    && forall m :: 0 <= m < |done| ==> AttrMatches(buf, s, after[|before| + m], done[m])
  }

  predicate HasName(d: NodeData) {
    HasTag(d.kind) || d.kind == KPi
  }

  predicate HasValue(d: NodeData) {
    d.kind == KPcdata || IsSection(d.kind) || (d.kind == KPi && d.value != "")
  }

  /** The record stands for node i, as far as its first j attributes. */
  ghost predicate NodeMatches(buf: string, s: nat, r: NodeRec, t: Tree, i: nat, j: nat)
    requires i < |t.data| && i < |t.parent|
  {
    var d := t.data[i];
    && r.kind == d.kind && r.parent == t.parent[i]
    && (if HasName(d) then Stored(buf, s, r.name, d.name) else r.name == -1)
    && (if HasValue(d) then Stored(buf, s, r.value, d.value) else r.value == -1)
    && |r.attributes| == j <= |d.attributes|
    && forall m :: 0 <= m < j ==> AttrMatches(buf, s, r.attributes[m], d.attributes[m])
  }

  /** The first k nodes have been read in full. */
  ghost predicate AllMatch(buf: string, s: nat, nodes: seq<NodeRec>, t: Tree, k: nat) {
    k <= |nodes| && k <= |t.data| && k <= |t.parent| &&
    forall i :: 0 <= i < k ==> NodeMatches(buf, s, nodes[i], t, i, |t.data[i].attributes|)
  }

  lemma NodeStill(buf: string, buf': string, s: nat, s': nat, r: NodeRec, t: Tree, i: nat, j: nat)
    requires i < |t.data| && i < |t.parent| && NodeMatches(buf, s, r, t, i, j)
    requires s <= s' <= |buf'| == |buf| && forall m :: 0 <= m < s ==> buf'[m] == buf[m]
    ensures NodeMatches(buf', s', r, t, i, j)
  {
    hide Stored;
    var d := t.data[i];
    if HasName(d) {
      StoredStill(buf, buf', s, s', r.name, d.name);
    }
    if HasValue(d) {
      StoredStill(buf, buf', s, s', r.value, d.value);
    }
    forall m | 0 <= m < j
      ensures AttrMatches(buf', s', r.attributes[m], d.attributes[m])
    {
      assert AttrMatches(buf, s, r.attributes[m], d.attributes[m]);
      StoredStill(buf, buf', s, s', r.attributes[m].name, d.attributes[m].name);
      StoredStill(buf, buf', s, s', r.attributes[m].value, d.attributes[m].value);
    }
  }

  lemma AllStill(buf: string, buf': string, s: nat, s': nat, nodes: seq<NodeRec>, nodes': seq<NodeRec>, t: Tree, k: nat)
    requires AllMatch(buf, s, nodes, t, k) && k <= |nodes'| && nodes'[..k] == nodes[..k]
    requires s <= s' <= |buf'| == |buf| && forall m :: 0 <= m < s ==> buf'[m] == buf[m]
    ensures AllMatch(buf', s', nodes', t, k)
  {
    hide NodeMatches;
    forall i | 0 <= i < k
      ensures NodeMatches(buf', s', nodes'[i], t, i, |t.data[i].attributes|)
    {
      assert nodes'[..k][i] == nodes[..k][i];
      NodeStill(buf, buf', s, s', nodes[i], t, i, |t.data[i].attributes|);
    }
  }

  /**
   Between two tokens: cursor c is open, and what is left of the document is what is left of the buffer, apart from the
   white space that stands there.
   */
  ghost predicate At(p: Plan, buf: string, n: nat, endch: char, nodes: seq<NodeRec>, c: nat, s: nat) {
    p.Plan? && Writable(p.t, p.f) ==>
      && |nodes| <= p.t.Count() && Open(p.t, c, |nodes|)
      && AllMatch(buf, s, nodes, p.t, |nodes|)
      && SeesAhead(p, buf, n, endch, c, |nodes|, s)
  }

  ghost predicate SeesAhead(p: Plan, buf: string, n: nat, endch: char, c: nat, k: nat, s: nat)
    requires p.Plan? && Writable(p.t, p.f) && Open(p.t, c, k)
  {
    exists w :: IsBlankAt(p, c, k, w) && Sees(buf, n, endch, s, w + Token(p.t, p.f, p.g, c, k))
  }

  /** White space, where there is some. */
  ghost predicate IsBlankAt(p: Plan, c: nat, k: nat, w: string)
    requires p.Plan? && Writable(p.t, p.f) && Open(p.t, c, k)
  {
    AllSpace(w) && (w != "" ==> SpaceAt(p.t, p.g, c, k) != "")
  }

  lemma AheadSeen(p: Plan, buf: string, n: nat, endch: char, c: nat, k: nat, s: nat)
    requires p.Plan? && Writable(p.t, p.f) && Open(p.t, c, k)
    requires Sees(buf, n, endch, s, Ahead(p.t, p.f, p.g, c, k))
    ensures SeesAhead(p, buf, n, endch, c, k, s)
  {
    hide Sees, Token, SpaceAt, Tree.Nested, Legal, Open;
    assert IsBlankAt(p, c, k, SpaceAt(p.t, p.g, c, k));
  }

  /** At a bracket, or where it was taken out of the buffer: what follows it is next. */
  lemma EitherSeen(p: Plan, buf: string, n: nat, endch: char, c: nat, k: nat, s: nat)
    requires p.Plan? && Writable(p.t, p.f) && Open(p.t, c, k)
    ensures Sees(buf, n, endch, s, Ahead(p.t, p.f, p.g, c, k)) ==> SeesAhead(p, buf, n, endch, c, k, s)
    ensures Sees(buf, n, endch, s + 1, Ahead(p.t, p.f, p.g, c, k)) ==> SeesAhead(p, buf, n, endch, c, k, s + 1)
  {
    hide Sees, Ahead, Tree.Nested, Legal, Open, SeesAhead;
    if Sees(buf, n, endch, s, Ahead(p.t, p.f, p.g, c, k)) {
      AheadSeen(p, buf, n, endch, c, k, s);
    }
    if Sees(buf, n, endch, s + 1, Ahead(p.t, p.f, p.g, c, k)) {
      AheadSeen(p, buf, n, endch, c, k, s + 1);
    }
  }

  /** No white space stands in front of the next token. */
  ghost predicate AtToken(p: Plan, buf: string, n: nat, endch: char, nodes: seq<NodeRec>, c: nat, s: nat) {
    p.Plan? && Writable(p.t, p.f) ==>
      && |nodes| <= p.t.Count() && Open(p.t, c, |nodes|)
      && AllMatch(buf, s, nodes, p.t, |nodes|)
      && Sees(buf, n, endch, s, Token(p.t, p.f, p.g, c, |nodes|))
  }

  /** White space has been passed: markup follows it, or the end of the buffer. */
  ghost predicate SpaceRead(p: Plan, buf: string, n: nat, endch: char, nodes: seq<NodeRec>, c: nat, s: nat) {
    && At(p, buf, n, endch, nodes, c, s) && s <= n < |buf|
    && (buf[s] == '<' || buf[s] == '\0') && (buf[s] == '<' ==> s < n)
    && (p.Plan? && Writable(p.t, p.f) ==>
          && SpaceAt(p.t, p.g, c, |nodes|) != ""
          && (buf[s] == '<' && buf[s + 1] == '/' ==> 0 < c && |nodes| == c + p.t.size[c]))
  }

  /** Where neither a tag nor the end is next, it is white space that stands there, or text. */
  lemma SpaceOrToken(p: Plan, buf: string, n: nat, endch: char, nodes: seq<NodeRec>, c: nat, start: nat, s: nat)
    requires p.Plan? && Writable(p.t, p.f) && At(p, buf, n, endch, nodes, c, start)
    requires start <= s <= n < |buf| && !IsSpace(buf[s]) && forall i :: start <= i < s ==> IsSpace(buf[i])
    ensures AtToken(p, buf, n, endch, nodes, c, start) || SpaceRead(p, buf, n, endch, nodes, c, s)
  {
    hide Sees, Open, AllMatch, Tree.Nested, Legal, Token, IsSpace, Loose, AllSpace;
    var t, f, g, k := p.t, p.f, p.g, |nodes|;
    var r := Token(t, f, g, c, k);
    var w :| IsBlankAt(p, c, k, w) && Sees(buf, n, endch, start, w + r);
    if w == "" {
      assert w + r == r;
    } else {
      OpenBounds(t, c, k);
      NotInText(t, g, c, k);
      TokenStarts(t, f, g, c, k);
      var v := SpaceEnds(buf, n, endch, start, w, r, s);
      AllOn(buf, start, s, nodes, t, k);
      assert IsBlankAt(p, c, k, v);
      if buf[s] == '<' {
        SlashSeen(buf, n, endch, s, r);
      }
    }
  }

  lemma NotInText(t: Tree, g: Spacing, c: nat, k: nat)
    requires t.Valid() && Open(t, c, k) && SpaceAt(t, g, c, k) != ""
    ensures k < c + t.size[c] ==> t.data[k].kind != KPcdata
    ensures c < k - 1 && t.parent[k - 1] == c ==> t.data[k - 1].kind != KPcdata
  {
    hide Open, Tree.Nested;
  }

  /** The scan stops behind the white space, or at the end of the buffer; v is what has not been read of it. */
  lemma SpaceEnds(buf: string, n: nat, endch: char, start: nat, w: string, r: string, s: nat) returns (v: string)
    requires AllSpace(w) && w != "" && Sees(buf, n, endch, start, w + r) && (r == "" || (|r| >= 3 && r[0] == '<'))
    requires start <= s <= n < |buf| && !IsSpace(buf[s]) && forall i :: start <= i < s ==> IsSpace(buf[i])
    ensures AllSpace(v) && Sees(buf, n, endch, s, v + r) && (buf[s] == '<' || buf[s] == '\0')
    ensures buf[s] == '<' ==> r != "" && v + r == r && s < n
  {
    var end := start + |w|;
    if end <= n {
      SeesOn(buf, n, endch, start, w, r);
      assert forall i :: start <= i < end ==> buf[i] == w[i - start];
      v := "";
      assert v + r == r;
      if r != "" {
        FirstSeen(buf, n, endch, end, r);
      }
    } else {
      v := [endch];
      assert w + r == w && w[|w| - 1] == endch;
      assert forall i :: start <= i < n ==> buf[i] == (w + r)[i - start];
    }
  }

  lemma SlashSeen(buf: string, n: nat, endch: char, s: nat, r: string)
    requires |r| >= 3 && Sees(buf, n, endch, s, r)
    ensures s + 1 < n && buf[s + 1] == r[1]
  {
    assert buf[s + 1] == r[1];
  }

  /** Behind the < of a tag. */
  ghost predicate AtTag(p: Plan, buf: string, n: nat, endch: char, nodes: seq<NodeRec>, c: nat, s: nat) {
    p.Plan? && Writable(p.t, p.f) ==>
      && |nodes| <= p.t.Count() && Open(p.t, c, |nodes|)
      && AllMatch(buf, s, nodes, p.t, |nodes|)
      && var r := Token(p.t, p.f, p.g, c, |nodes|);
         |r| >= 3 && r[0] == '<' && Sees(buf, n, endch, s, r[1..])
  }

  /** In the start tag of the newest node, with j attributes read: tail is what follows the other attributes. */
  ghost predicate InTag(p: Plan, buf: string, n: nat, endch: char, nodes: seq<NodeRec>, j: nat, s: nat, drop: nat) {
    p.Plan? && Writable(p.t, p.f) ==>
      var t, k := p.t, |nodes| - 1;
      && TagIsOpen(t, k)
      && AllMatch(buf, s, nodes, t, k) && NodeMatches(buf, s, nodes[k], t, k, j)
      && var r := TagRest(t, p.f, p.g, k, j);
         drop <= |r| && Sees(buf, n, endch, s, r[drop..])
  }

  ghost predicate TagIsOpen(t: Tree, k: int)
    requires t.Valid()
  {
    && 0 < k < t.Count() && HasTag(t.data[k].kind) && 0 <= t.parent[k] < k
    && Open(t, t.parent[k], k) && k < t.parent[k] + t.size[t.parent[k]]
  }

  /** The rest of the start tag of node k behind its first j attributes, and all that follows. */
  ghost function TagRest(t: Tree, f: Format, g: Spacing, k: nat, j: nat): string
    requires Writable(t, f) && TagIsOpen(t, k) && j <= |t.data[k].attributes|
  {
    AttributesText(t.data[k].attributes[j..], f) + StartTail(t, f, g, t.parent[k], k)
  }

  /** What holds of the nodes whatever is parsed. */
  ghost predicate Sound(nodes: seq<NodeRec>, n: nat) {
    && |nodes| > 0 && nodes[0].kind == KDocument && nodes[0].parent == -1 && nodes[0].name == -1
    && (forall i :: 0 < i < |nodes| ==> 0 <= nodes[i].parent < i)
    && (forall i :: 0 <= i < |nodes| ==> -1 <= nodes[i].name <= n && -1 <= nodes[i].value <= n)
    && nodes[0].value == -1 && nodes[0].attributes == []
    && (forall i :: 0 <= i < |nodes| ==> AttributesNamed(nodes[i]))
  }

  /** Where the text that starts with a name goes on behind it. */
  lemma NameEnds(buf: string, n: nat, endch: char, s: nat, name: string, rest: string, e: nat)
    requires Sees(buf, n, endch, s, name + rest) && LegalName(name) && |rest| >= 2 && !IsSymbol(rest[0])
    requires s <= e <= n && !IsSymbol(buf[e]) && forall i :: s <= i < e ==> IsSymbol(buf[i])
    ensures e == s + |name| < n && buf[e] == rest[0] && Sees(buf, n, endch, e, rest)
    ensures forall i :: 0 <= i < |name| ==> buf[s + i] == name[i]
  {
    SeesOn(buf, n, endch, s, name, rest);
    assert forall i :: s <= i < s + |name| ==> buf[i] == name[i - s];
    assert buf[s + |name|] == rest[0] by {
      assert (name + rest)[|name|] == rest[0];
    }
  }

  /** White space of the plan is passed over. */
  lemma SpaceIsDropped(p: Plan, o: ParseOptions, buf: string, n: nat, endch: char, nodes: seq<NodeRec>, c: nat, s: nat)
    requires p.Plan? && PlanFits(p, o) && SpaceRead(p, buf, n, endch, nodes, c, s)
    ensures buf[s] == '<' || buf[s] == '\0'
    ensures !(o.wsPcdata || o.wsPcdataSingle) ||
            (o.wsPcdataSingle && (buf[s] != '<' || buf[s + 1] != '/' || c + 1 < |nodes|))
    ensures At(p, buf, n, endch, nodes, c, s)
  {
    hide SeesAhead, AllMatch, Tree.Nested, Legal, SpaceAt;
    assert IsDropped(p.t, o, c, |nodes|);
  }

  /** Only a name or a slash can come behind the < that is written for a node. */
  lemma TagStarts(p: Plan, buf: string, n: nat, endch: char, nodes: seq<NodeRec>, cursor: nat, s: nat)
    requires p.Plan? && Writable(p.t, p.f) && AtTag(p, buf, n, endch, nodes, cursor, s) && |buf| == n + 1
    ensures s < n
    ensures
      var k := |nodes|;
      if buf[s] == '/' then k == cursor + p.t.size[cursor]
      else k < cursor + p.t.size[cursor] && k < p.t.Count() && FirstOfTag(p.t.data[k].kind, buf[s])
  {
    hide Sees, Open, AllMatch, Tree.Nested, Legal, Ahead, Token;
    var r := Token(p.t, p.f, p.g, cursor, |nodes|);
    TokenStarts(p.t, p.f, p.g, cursor, |nodes|);
    FirstSeen(buf, n, endch, s, r[1..]);
    OpenEnds(p.t, cursor, |nodes|);
  }

  lemma TagBegins(p: Plan, buf: string, n: nat, endch: char, nodes: seq<NodeRec>, cursor: nat, s: nat)
    requires p.Plan? && Writable(p.t, p.f) && At(p, buf, n, endch, nodes, cursor, s) && s < n < |buf| && buf[s] == '<'
    ensures AtTag(p, buf, n, endch, nodes, cursor, s + 1)
  {
    hide Sees, Open, AllMatch, Tree.Nested, Legal, Token, SpaceAt;
    var r := Token(p.t, p.f, p.g, cursor, |nodes|);
    var w :| IsBlankAt(p, cursor, |nodes|, w) && Sees(buf, n, endch, s, w + r);
    NoSpaceSeen(buf, n, endch, s, w, r);
    TokenStarts(p.t, p.f, p.g, cursor, |nodes|);
    MarkupSeen(buf, n, endch, s, r);
    SeesOne(buf, n, endch, s, r);
    AllOn(buf, s, s + 1, nodes, p.t, |nodes|);
  }

  lemma NoSpaceSeen(buf: string, n: nat, endch: char, s: nat, w: string, r: string)
    requires AllSpace(w) && Sees(buf, n, endch, s, w + r) && s < n && !IsSpace(buf[s])
    ensures w == "" && w + r == r
  {
    FirstOfBoth(buf, n, endch, s, w, r);
  }

  lemma FirstOfBoth(buf: string, n: nat, endch: char, s: nat, w: string, r: string)
    requires Sees(buf, n, endch, s, w + r)
    ensures w != "" && s < n ==> buf[s] == w[0]
  {
    assert w != "" && s < n ==> (w + r)[0] == w[0] && buf[s + 0] == (w + r)[0];
  }

  lemma MarkupSeen(buf: string, n: nat, endch: char, s: nat, r: string)
    requires Sees(buf, n, endch, s, r) && s < n && buf[s] == '<'
    ensures r != "" && r[0] == '<'
  {
    assert |r| > 0 ==> buf[s + 0] == r[0];
  }

  /** The character that was taken out of the buffer belongs to no text. */
  ghost predicate Whole(t: Tree, endch: char)
    requires t.Valid()
  {
    EndsInText(t) ==> endch == '\0'
  }

  /** No text ends with a bracket. */
  ghost predicate EndFits(p: Plan, endch: char) {
    p.Plan? && Writable(p.t, p.f) && EndsInText(p.t) ==> endch != '>'
  }

  /**
   The end of the buffer: the nodes are those of the document, if no character of a text is missing, and only then.
   */
  ghost predicate DocumentRead(p: Plan, buf: string, n: nat, endch: char, nodes: seq<NodeRec>) {
    p.Plan? && Writable(p.t, p.f) ==>
      (Whole(p.t, endch) <==> |nodes| == p.t.Count() && AllMatch(buf, n + 1, nodes, p.t, |nodes|))
  }

  /** When the text ends, the document does. */
  lemma DocumentEnds(p: Plan, buf: string, n: nat, endch: char, nodes: seq<NodeRec>, cursor: nat, s: nat)
    requires p.Plan? && Writable(p.t, p.f) && At(p, buf, n, endch, nodes, cursor, s) && s <= n < |buf| && buf[s] == '\0'
    requires EndFits(p, endch)
    ensures cursor == 0 && DocumentRead(p, buf, n, endch, nodes)
  {
    hide Sees, Open, AllMatch, Tree.Nested, Legal, Ahead, Token, EndsInText;
    ZeroSeen(p, buf, n, endch, nodes, cursor, s);
    AllOn(buf, s, n + 1, nodes, p.t, |nodes|);
  }

  lemma ZeroSeen(p: Plan, buf: string, n: nat, endch: char, nodes: seq<NodeRec>, cursor: nat, s: nat)
    requires p.Plan? && Writable(p.t, p.f) && At(p, buf, n, endch, nodes, cursor, s) && s <= n < |buf| && buf[s] == '\0'
    requires EndFits(p, endch)
    ensures cursor == 0
    ensures if Whole(p.t, endch) then |nodes| == p.t.Count() else |nodes| < p.t.Count()
  {
    hide Sees, Open, AllMatch, Tree.Nested, Legal, Token, Then, Escaped, EndsInText, SpaceAt;
    var t, f, g, k := p.t, p.f, p.g, |nodes|;
    var r := Token(t, f, g, cursor, k);
    var w :| IsBlankAt(p, cursor, k, w) && Sees(buf, n, endch, s, w + r);
    TokenStarts(t, f, g, cursor, k);
    OpenEnds(t, cursor, k);
    if w != "" {
      LastSpace(buf, n, endch, s, w, r);
      SpaceAtEnd(t, g, cursor, k);
    } else {
      assert w + r == r;
      TokenAtEnd(p, buf, n, endch, nodes, cursor, s);
    }
  }

  lemma LastSpace(buf: string, n: nat, endch: char, s: nat, w: string, r: string)
    requires w != "" && AllSpace(w) && Sees(buf, n, endch, s, w + r) && s <= n < |buf| && buf[s] == '\0'
    ensures r == ""
  {
    FirstOfBoth(buf, n, endch, s, w, r);
  }

  lemma SpaceAtEnd(t: Tree, g: Spacing, c: nat, k: nat)
    requires t.Valid() && Open(t, c, k) && SpaceAt(t, g, c, k) != "" && c == 0 && k == t.size[0]
    ensures k == t.Count() && !EndsInText(t)
  {
    hide Tree.Nested;
    NotInText(t, g, c, k);
  }

  lemma TokenAtEnd(p: Plan, buf: string, n: nat, endch: char, nodes: seq<NodeRec>, cursor: nat, s: nat)
    requires p.Plan? && Writable(p.t, p.f) && |nodes| <= p.t.Count() && Open(p.t, cursor, |nodes|)
    requires Sees(buf, n, endch, s, Token(p.t, p.f, p.g, cursor, |nodes|)) && s <= n < |buf| && buf[s] == '\0'
    requires EndFits(p, endch)
    ensures cursor == 0
    ensures if Whole(p.t, endch) then |nodes| == p.t.Count() else |nodes| < p.t.Count()
  {
    hide Sees, Open, AllMatch, Tree.Nested, Legal, Token, Then, Escaped, EndsInText;
    var t, f, g, k := p.t, p.f, p.g, |nodes|;
    var r := Token(t, f, g, cursor, k);
    TokenStarts(t, f, g, cursor, k);
    OpenEnds(t, cursor, k);
    if k < cursor + t.size[cursor] && t.data[k].kind == KPcdata {
      AfterText(t, f, g, cursor, k);
      OneSeen(buf, n, endch, s, r);
      ThenLength(Escaped(t.data[k].value, false, f), Token(t, f, g, cursor, k + 1));
    } else if r != "" {
      LongSeen(buf, n, endch, s, r);
    } else {
      NoneSeen(buf, n, endch, s);
    }
  }

  lemma NoneSeen(buf: string, n: nat, endch: char, s: nat)
    requires Sees(buf, n, endch, s, "")
    ensures endch == '\0' || endch == '>'
  {
  }

  lemma ThenLength(head: string, r: string)
    ensures |Then(head, r)| == |head| + |r|
  {
  }

  lemma OneSeen(buf: string, n: nat, endch: char, s: nat, r: string)
    requires Sees(buf, n, endch, s, r) && r != "" && buf[s] == '\0' != r[0]
    ensures |r| == 1 && endch != '\0'
  {
  }

  lemma LongSeen(buf: string, n: nat, endch: char, s: nat, r: string)
    requires Sees(buf, n, endch, s, r) && |r| >= 2
    ensures buf[s] == r[0]
  {
    assert buf[s + 0] == r[0];
  }

  /** A document type that is closed has its name in the buffer in full. */
  lemma InDoctype(buf: string, start: nat, s: nat, n: nat, endch: char)
    requires start + 6 <= n < |buf| && start <= s <= n && buf[n] == '\0'
    requires buf[start] == 'D' && buf[start + 1] == 'O' && buf[start + 2] == 'C' && buf[start + 3] == 'T'
    requires buf[start + 4] == 'Y' && buf[start + 5] == 'P'
    requires forall i :: start <= i < s ==> buf[i] != '\0'
    requires buf[start + 6] == 'E' || (buf[start + 6] == '\0' && endch == 'E')
    requires buf[s] == '>' || (buf[s] == '\0' && endch == '>')
    ensures start + 7 <= n
  {
  }

  /** Where the terminator of a comment or CDATA section is, or the end of the buffer. */
  ghost function MarkEnd(buf: string, n: nat, s: nat, mark: char, endch: char): (r: nat)
    requires s <= n < |buf| && buf[n] == '\0'
    ensures r <= n && EndsAt(buf, s, r, mark, endch)
    decreases n - s
  {
    if buf[s] == '\0' || MarkAt(buf, s, mark, endch) then s else MarkEnd(buf, n, s + 1, mark, endch)
  }

  lemma StoresSlice(a: array<char>, before: string, begin: nat, s: nat)
    requires |before| == a.Length && begin <= s < a.Length && a[s] == '\0'
    requires forall i :: begin <= i < s ==> a[i] == before[i]
    ensures Stores(a, begin, before[begin..s])
  {
    assert a[begin..s] == before[begin..s];
  }

  /**
   Text that is not only white space is next, so the scan for a tag stops inside it, unless the only such character is
   the one that was taken out of the buffer.
   */
  lemma TextNext(p: Plan, buf: string, n: nat, endch: char, nodes: seq<NodeRec>, cursor: nat, start: nat, s: nat)
    requires p.Plan? && Writable(p.t, p.f) && AtToken(p, buf, n, endch, nodes, cursor, start) && cursor < |nodes|
    requires start <= s <= n < |buf| && !IsSpace(buf[s]) && forall i :: start <= i < s ==> IsSpace(buf[i])
    requires start < n && buf[start] != '<' && buf[start] != '\0'
    ensures |nodes| < p.t.Count() && p.t.data[|nodes|].kind == KPcdata && p.t.parent[|nodes|] == cursor
    ensures buf[s] != '<' && (0 < cursor ==> nodes[cursor].parent != -1)
    ensures buf[s] == '\0' ==> cursor == 0 && s == n && DocumentRead(p, buf, n, endch, nodes)
  {
    hide Sees, Open, Tree.Nested, Legal, Ahead, Token, NodeMatches, Escaped, LegalText, AllMatch, EndsInText;
    var t, f, g, k := p.t, p.f, p.g, |nodes|;
    TextIsNext(p, buf, n, endch, nodes, cursor, start);
    var text, rest := t.data[k].value, Token(t, f, g, cursor, k + 1);
    TextIsLegal(text);
    TextSpace(text, f);
    SomethingWritten(text, false, f);
    EscapedIsSafe(text, false, f);
    TextReaches(buf, n, endch, start, Escaped(text, false, f), rest);
    SpaceStops(buf, n, start, Escaped(text, false, f), s);
    if 0 < cursor {
      ParentKnown(buf, start, nodes, t, cursor);
    }
  }

  /** The characters of a text that are in the buffer: all, unless nothing follows it. */
  lemma TextReaches(buf: string, n: nat, endch: char, s: nat, e: string, rest: string)
    requires Sees(buf, n, endch, s, Then(e, rest)) && (rest == "" || |rest| >= 3) && e != "" && '\0' !in e
    ensures forall i :: s <= i < n && i < s + |e| ==> buf[i] == e[i - s]
    ensures n < |buf| && buf[n] == '\0' && (rest != "" ==> s + |e| + 2 <= n)
    ensures rest == "" && endch == '\0' ==> s + |e| == n
    ensures rest == "" && endch != '\0' ==> s + |e| == n + 1
  {
    forall i | s <= i < n && i < s + |e|
      ensures buf[i] == e[i - s]
    {
      assert Then(e, rest)[i - s] == buf[s + (i - s)];
    }
    if rest == "" {
      assert Then(e, rest) == e;
    }
  }

  lemma SpaceStops(buf: string, n: nat, start: nat, e: string, s: nat)
    requires start <= s <= n < |buf| && forall i :: start <= i < s ==> IsSpace(buf[i])
    requires exists j :: 0 <= j < |e| && !IsSpace(e[j])
    requires forall i :: start <= i < n && i < start + |e| ==> buf[i] == e[i - start]
    requires forall i :: 0 <= i < |e| ==> e[i] != '<' && e[i] != '\0'
    requires start + |e| <= n + 1 && buf[n] == '\0'
    ensures buf[s] != '<'
    ensures buf[s] == '\0' ==> s == n == start + |e| - 1
  {
    var j :| 0 <= j < |e| && !IsSpace(e[j]);
    assert start + j < n ==> buf[start + j] == e[j];
  }

  lemma ParentKnown(buf: string, s: nat, nodes: seq<NodeRec>, t: Tree, c: nat)
    requires t.Valid() && 0 < c < t.Count() && c < |nodes| && AllMatch(buf, s, nodes, t, |nodes|)
    ensures nodes[c].parent != -1
  {
    hide Tree.Nested, NodeMatches;
    ParentNotRoot(buf, s, nodes[c], t, c);
  }

  lemma ParentNotRoot(buf: string, s: nat, r: NodeRec, t: Tree, c: nat)
    requires t.Valid() && 0 < c < t.Count() && NodeMatches(buf, s, r, t, c, |t.data[c].attributes|)
    ensures r.parent != -1
  {
    t.ParentEnds(c);
  }

  ghost predicate TextAhead(p: Plan, buf: string, n: nat, endch: char, nodes: seq<NodeRec>, c: nat, s: nat)
    requires p.Plan? && Writable(p.t, p.f)
  {
    && NextText(p.t, p.f, p.g, c, |nodes|) && Sees(buf, n, endch, s, TextThen(p.t, p.f, p.g, c, |nodes|))
    && AllMatch(buf, s, nodes, p.t, |nodes|)
  }

  /** The text node that is next, and what follows it. */
  lemma TextIsNext(p: Plan, buf: string, n: nat, endch: char, nodes: seq<NodeRec>, cursor: nat, start: nat)
    requires p.Plan? && Writable(p.t, p.f) && AtToken(p, buf, n, endch, nodes, cursor, start)
    requires start < n < |buf| && buf[start] != '<' && buf[start] != '\0'
    ensures TextAhead(p, buf, n, endch, nodes, cursor, start)
  {
    hide Sees, Tree.Nested, Legal, Ahead, Token, NodeMatches, AllMatch, Open, NextText, TextThen;
    NextIsText(p.t, p.f, p.g, cursor, |nodes|, buf, n, endch, start);
    AfterText(p.t, p.f, p.g, cursor, |nodes|);
  }

  /** Nothing comes after node k, a child of c. */
  ghost predicate IsLast(t: Tree, c: nat, k: nat) {
    c == 0 && k + 1 == t.Count()
  }

  /** Node k, a child of c, is a text, and markup follows it, or nothing. */
  ghost predicate NextText(t: Tree, f: Format, g: Spacing, c: nat, k: nat) {
    && Writable(t, f) && c < k < t.Count() && Open(t, c, k) && k < c + t.size[c] && t.parent[k] == c
    && t.data[k].kind == KPcdata && LegalText(t.data[k].value) && Open(t, c, k + 1)
    && (IsLast(t, c, k) ==> EndsInText(t))
    && var rest := Token(t, f, g, c, k + 1);
       if IsLast(t, c, k) then rest == "" else |rest| >= 3 && rest[0] == '<' && rest[1] != '\0'
  }

  ghost function TextThen(t: Tree, f: Format, g: Spacing, c: nat, k: nat): string
    requires Writable(t, f) && k < t.Count() && Open(t, c, k + 1)
  {
    Then(Escaped(t.data[k].value, false, f), Token(t, f, g, c, k + 1))
  }

  lemma NextIsText(t: Tree, f: Format, g: Spacing, c: nat, k: nat, buf: string, n: nat, endch: char, s: nat)
    requires Writable(t, f) && Open(t, c, k) && Sees(buf, n, endch, s, Token(t, f, g, c, k)) && s < n < |buf|
    requires buf[s] != '<'
    ensures c < t.Count() && c < k < c + t.size[c] <= t.Count() && t.data[k].kind == KPcdata
  {
    hide Sees, Tree.Nested, Legal, Ahead, Token, Open;
    TokenStarts(t, f, g, c, k);
    OpenEnds(t, c, k);
    NotMarkup(buf, n, endch, s, Token(t, f, g, c, k));
  }

  lemma AfterText(t: Tree, f: Format, g: Spacing, c: nat, k: nat)
    requires Writable(t, f) && Open(t, c, k) && k < c + t.size[c] && t.data[k].kind == KPcdata
    ensures k < t.Count() && Open(t, c, k + 1) && Token(t, f, g, c, k) == TextThen(t, f, g, c, k)
    ensures NextText(t, f, g, c, k)
  {
    hide Tree.Nested, Legal, Ahead, Token, Escaped, LegalText, Open;
    TokenText(t, f, g, c, k);
    TokenStarts(t, f, g, c, k + 1);
    InsideOf(t, c, k);
  }

  lemma NotMarkup(buf: string, n: nat, endch: char, s: nat, r: string)
    requires Sees(buf, n, endch, s, r) && s < n && buf[s] != '<'
    ensures r != "" && r[0] != '<'
  {
    assert |r| > 0 ==> buf[s + 0] == r[0];
  }

  /** What is written for a text with a character that is not white space has one, too. */
  lemma {:induction false} TextSpace(s: string, f: Format)
    requires !f.skipControl && exists i :: 0 <= i < |s| && !IsSpace(s[i])
    ensures exists i :: 0 <= i < |Escaped(s, false, f)| && !IsSpace(Escaped(s, false, f)[i])
  {
    var e, rest := EscapedChar(s[0], false, f), Escaped(s[1..], false, f);
    if !IsSpace(s[0]) {
      assert Escaped(s, false, f)[0] == e[0] && !IsSpace(e[0]);
    } else {
      var i :| 0 <= i < |s| && !IsSpace(s[i]);
      assert s[1..][i - 1] == s[i];
      TextSpace(s[1..], f);
      var j :| 0 <= j < |rest| && !IsSpace(rest[j]);
      assert Escaped(s, false, f)[|e| + j] == rest[j];
    }
  }

  /** What is in the buffer of a text that is written as e. */
  function Reached(e: string, whole: bool): string {
    if whole then e else WithoutLast(e)
  }

  /** Where the text that is next ends in the buffer: at the next tag, or at the end of the buffer. */
  lemma TextStops(p: Plan, buf: string, n: nat, endch: char, nodes: seq<NodeRec>, cursor: nat, start: nat, stop: nat)
    requires p.Plan? && Writable(p.t, p.f) && AtToken(p, buf, n, endch, nodes, cursor, start)
    requires start < n < |buf| && buf[start] != '<' && buf[start] != '\0'
    requires start <= stop <= n && (buf[stop] == '<' || buf[stop] == '\0')
    requires forall i :: start <= i < stop ==> buf[i] != '<' && buf[i] != '\0'
    ensures |nodes| < p.t.Count()
    ensures
      var last := IsLast(p.t, cursor, |nodes|);
      && (if last then stop == n else stop + 2 <= n && buf[stop] == '<' && buf[stop + 1] != '\0')
      && buf[start..stop] == Reached(Escaped(p.t.data[|nodes|].value, false, p.f), !last || endch == '\0')
  {
    hide Sees, Tree.Nested, Legal, Ahead, Token, NodeMatches, Escaped, LegalText, AllMatch, Open, EndsInText;
    TextIsNext(p, buf, n, endch, nodes, cursor, start);
    var text, rest := p.t.data[|nodes|].value, Token(p.t, p.f, p.g, cursor, |nodes| + 1);
    var e := Escaped(text, false, p.f);
    TextIsLegal(text);
    SomethingWritten(text, false, p.f);
    EscapedIsSafe(text, false, p.f);
    TextReaches(buf, n, endch, start, e, rest);
    if rest != "" {
      SeesOn(buf, n, endch, start, e, rest);
      SeesOne(buf, n, endch, start + |e|, rest);
      FirstSeen(buf, n, endch, start + |e| + 1, rest[1..]);
    }
    StopsHere(buf, n, start, e, stop, if rest == "" && endch != '\0' then start + |e| - 1 else start + |e|);
  }

  lemma StopsHere(buf: string, n: nat, start: nat, e: string, stop: nat, end: nat)
    requires start <= stop <= n < |buf| && (buf[stop] == '<' || buf[stop] == '\0') && e != ""
    requires forall i :: start <= i < stop ==> buf[i] != '<' && buf[i] != '\0'
    requires forall i :: 0 <= i < |e| ==> e[i] != '<' && e[i] != '\0'
    requires forall i :: start <= i < n && i < start + |e| ==> buf[i] == e[i - start]
    requires start + |e| - 1 <= end <= start + |e| && start <= end <= n && (buf[end] == '<' || buf[end] == '\0')
    ensures stop == end && buf[start..stop] == Reached(e, end == start + |e|)
  {
    assert forall i :: 0 <= i < end - start ==> buf[start..end][i] == buf[start + i];
  }

  lemma TextIsLegal(text: string)
    requires LegalText(text)
    ensures NulFree(text) && '\r' !in text && exists i :: 0 <= i < |text| && !IsSpace(text[i])
  {
  }

  function Then(head: string, rest: string): string {
    head + rest
  }

  /** The text that was in the buffer has been decoded in place, and its node is the newest. */
  ghost predicate TextIn(before: string, after: string, n: nat, start: nat, stop: nat) {
    && start <= stop <= n && |before| == |after| == n + 1
    && (forall i :: 0 <= i < start ==> after[i] == before[i]) && (forall i :: stop < i <= n ==> after[i] == before[i])
    && var text := PcdataText(before[start..stop], false, true, true);
       start + |text| <= stop && after[start..start + |text|] == text && after[start + |text|] == '\0'
  }

  lemma IsTextIn(a: array<char>, before: string, n: nat, start: nat, stop: nat)
    requires start <= stop <= n && |before| == a.Length == n + 1
    requires forall i :: 0 <= i < start || stop < i <= n ==> a[i] == before[i]
    requires Stores(a, start, PcdataText(before[start..stop], false, true, true))
    requires start + |PcdataText(before[start..stop], false, true, true)| <= stop
    ensures TextIn(before, a[..], n, start, stop)
  {
    hide PcdataText;
    var text := PcdataText(before[start..stop], false, true, true);
    assert a[..][start..start + |text|] == a[start..start + |text|];
  }

  /** Markup follows it. */
  lemma TextRead(p: Plan, before: string, after: string, n: nat, endch: char, nodes: seq<NodeRec>, nodes': seq<NodeRec>,
                 cursor: nat, start: nat, stop: nat)
    requires p.Plan? && Writable(p.t, p.f) && AtToken(p, before, n, endch, nodes, cursor, start)
    requires start < n && TextIn(before, after, n, start, stop) && before[start] != '<' && before[start] != '\0'
    requires |nodes| < p.t.Count() && before[start..stop] == Escaped(p.t.data[|nodes|].value, false, p.f)
    requires !IsLast(p.t, cursor, |nodes|)
    requires Added(nodes, nodes', NodeRec(KPcdata, cursor, -1, start, []))
    ensures AtTag(p, after, n, endch, nodes', cursor, stop + 1)
  {
    hide Sees, Tree.Nested, Legal, Ahead, Token, NodeMatches, Escaped, LegalText, AllMatch, Open, AtToken, AtTag,
      PcdataText, Then, EndsInText, IsLast;
    var t, f, g, k := p.t, p.f, p.g, |nodes|;
    TextIsNext(p, before, n, endch, nodes, cursor, start);
    var text, rest := t.data[k].value, Token(t, f, g, cursor, k + 1);
    TextDecoded(text, f, before[start..stop]);
    SliceLength(before, start, stop, Escaped(text, false, f));
    SeesText(before, n, endch, start, Escaped(text, false, f), rest);
    StoredHere(after, start, text, stop + 1);
    SeesStill(before, after, n, endch, stop + 1, rest[1..]);
    InsideOf(t, cursor, k);
    TextStored(before, after, nodes, nodes', t, cursor, start, stop + 1);
    TextAdded(p, after, n, endch, nodes, nodes', cursor, stop + 1, rest);
  }

  lemma SliceLength(buf: string, start: nat, stop: nat, e: string)
    requires start <= stop <= |buf| && buf[start..stop] == e
    ensures stop == start + |e|
  {
  }

  /** Nothing follows it: its node is the last one, and its last character may be missing. */
  lemma TextLast(p: Plan, before: string, after: string, n: nat, endch: char, nodes: seq<NodeRec>, nodes': seq<NodeRec>,
                 cursor: nat, start: nat)
    requires p.Plan? && Writable(p.t, p.f) && AtToken(p, before, n, endch, nodes, cursor, start)
    requires start < n && TextIn(before, after, n, start, n) && before[start] != '<' && before[start] != '\0'
    requires |nodes| < p.t.Count() && IsLast(p.t, cursor, |nodes|)
    requires before[start..n] == Reached(Escaped(p.t.data[|nodes|].value, false, p.f), endch == '\0')
    requires Added(nodes, nodes', NodeRec(KPcdata, cursor, -1, start, []))
    ensures DocumentRead(p, after, n, endch, nodes')
  {
    hide Sees, Tree.Nested, Legal, Ahead, Token, NodeMatches, Escaped, LegalText, AllMatch, Open, AtToken, PcdataText,
      Then, EndsInText;
    var t, f, g, k := p.t, p.f, p.g, |nodes|;
    TextIsNext(p, before, n, endch, nodes, cursor, start);
    var text := t.data[k].value;
    if endch == '\0' {
      TextDecoded(text, f, before[start..n]);
      StoredHere(after, start, text, n + 1);
      TextStored(before, after, nodes, nodes', t, cursor, start, n + 1);
    } else {
      TextCut(text, f, before[start..n]);
      if AllMatch(after, n + 1, nodes', t, |nodes'|) {
        ValueOf(after, n + 1, nodes', t, k);
        StoredOnce(after, n + 1, start, text, PcdataText(before[start..n], false, true, true));
      }
    }
  }

  lemma ValueOf(buf: string, s: nat, nodes: seq<NodeRec>, t: Tree, k: nat)
    requires k < |nodes| && AllMatch(buf, s, nodes, t, |nodes|) && t.data[k].kind == KPcdata
    ensures Stored(buf, s, nodes[k].value, t.data[k].value)
  {
    hide Stored;
    assert NodeMatches(buf, s, nodes[k], t, k, |t.data[k].attributes|);
  }

  /** One place holds one zero-terminated string. */
  lemma StoredOnce(buf: string, s: nat, off: nat, x: string, y: string)
    requires Stored(buf, s, off, x) && NulFree(x) && NulFree(y)
    requires off + |y| < |buf| && buf[off..off + |y|] == y && buf[off + |y|] == '\0'
    ensures x == y
  {
    var z := buf[off..off + |y|];
    forall i | off <= i < off + |y|
      ensures buf[i] != '\0'
    {
      assert buf[i] == z[i - off];
    }
    forall i | off <= i < off + |x|
      ensures buf[i] != '\0'
    {
      assert buf[off + (i - off)] == x[i - off];
    }
    assert |x| == |y| && forall i :: 0 <= i < |z| ==> z[i] == buf[off + i];
  }

  lemma TextCut(text: string, f: Format, slice: string)
    requires LegalText(text) && !f.skipControl && slice == WithoutLast(Escaped(text, false, f))
    ensures PcdataText(slice, false, true, true) != text && NulFree(PcdataText(slice, false, true, true))
    ensures NulFree(text)
  {
    hide Decoded, Escaped;
    TextIsLegal(text);
    PcdataSurvives(text, LineEnds);
    LastIsNeeded(text, false, f, LineEnds);
  }

  lemma TextDecoded(text: string, f: Format, slice: string)
    requires LegalText(text) && !f.skipControl && slice == Escaped(text, false, f)
    ensures PcdataText(slice, false, true, true) == text
  {
    hide Decoded, Escaped;
    TextIsLegal(text);
    PcdataRoundTrip(text, f);
  }

  lemma SeesText(buf: string, n: nat, endch: char, s: nat, head: string, r: string)
    requires Sees(buf, n, endch, s, Then(head, r)) && |r| >= 3
    ensures s + |head| + 2 <= n && Sees(buf, n, endch, s + |head| + 1, r[1..])
  {
    SeesOn(buf, n, endch, s, head, r);
    SeesOne(buf, n, endch, s + |head|, r);
  }

  lemma TextAdded(p: Plan, buf: string, n: nat, endch: char, nodes: seq<NodeRec>, nodes': seq<NodeRec>, cursor: nat,
                  s: nat, rest: string)
    requires p.Plan? && Writable(p.t, p.f) && |nodes| < p.t.Count() && |nodes'| == |nodes| + 1
    requires Open(p.t, cursor, |nodes| + 1) && rest == Token(p.t, p.f, p.g, cursor, |nodes| + 1)
    requires AllMatch(buf, s, nodes', p.t, |nodes'|) && |rest| >= 3 && rest[0] == '<'
    requires Sees(buf, n, endch, s, rest[1..])
    ensures AtTag(p, buf, n, endch, nodes', cursor, s)
  {
    hide Sees, Tree.Nested, Legal, Ahead, Token, AllMatch, Open;
  }

  lemma TextStored(before: string, after: string, nodes: seq<NodeRec>, nodes': seq<NodeRec>, t: Tree, cursor: nat,
                   start: nat, s: nat)
    requires t.Valid() && Legal(t) && 0 < |nodes| < t.Count() && AllMatch(before, start, nodes, t, |nodes|)
    requires Added(nodes, nodes', NodeRec(KPcdata, cursor, -1, start, [])) && t.parent[|nodes|] == cursor
    requires start <= s <= |before| == |after| && t.data[|nodes|].kind == KPcdata
    requires forall i :: 0 <= i < start ==> after[i] == before[i]
    requires Stored(after, s, start, t.data[|nodes|].value)
    ensures AllMatch(after, s, nodes', t, |nodes'|)
  {
    hide Tree.Nested, NodeMatches, Legal, Stored;
    assert nodes[..|nodes|] == nodes;
    AllStill(before, after, start, s, nodes, nodes', t, |nodes|);
    TextNodeMatches(after, s, nodes'[|nodes|], t, |nodes|);
  }

  lemma TextNodeMatches(buf: string, s: nat, r: NodeRec, t: Tree, k: nat)
    requires t.Valid() && Legal(t) && 0 < k < t.Count() && t.data[k].kind == KPcdata && r.kind == KPcdata
    requires r.parent == t.parent[k] && Stored(buf, s, r.value, t.data[k].value) && r.name == -1 && r.attributes == []
    ensures NodeMatches(buf, s, r, t, k, |t.data[k].attributes|)
  {
    assert LegalNode(t.data[k]);
  }

  /** A name and the bracket behind it. */
  function Bracketed(name: string, rest: string): string {
    name + Angle(rest)
  }

  lemma SoundStart(n: nat)
    ensures Sound([NodeRec(KDocument, -1, -1, -1, [])], n)
  {
  }

  lemma SoundRoot(nodes: seq<NodeRec>, n: nat)
    requires Sound(nodes, n)
    ensures |nodes| > 0
  {
  }

  lemma SoundDocument(nodes: seq<NodeRec>, n: nat)
    requires Sound(nodes, n)
    ensures |nodes| > 0 && nodes[0].kind == KDocument && nodes[0].parent == -1
  {
  }

  lemma SoundNode(nodes: seq<NodeRec>, n: nat, c: nat)
    requires Sound(nodes, n) && c < |nodes|
    ensures -1 <= nodes[c].name <= n && (nodes[c].name != -1 ==> 0 < c && 0 <= nodes[c].parent < c)
    ensures nodes[c].parent != -1 ==> 0 < c
  {
  }

  lemma SoundParent(nodes: seq<NodeRec>, n: nat, c: nat)
    requires Sound(nodes, n) && 0 < c < |nodes|
    ensures 0 <= nodes[c].parent < c
  {
  }

  /** The buffer has a zero at position e now. */
  ghost predicate Cut(before: string, after: string, e: nat) {
    e < |before| == |after| && after[e] == '\0' && forall i :: 0 <= i < |before| && i != e ==> after[i] == before[i]
  }

  ghost predicate Added(nodes: seq<NodeRec>, nodes': seq<NodeRec>, r: NodeRec) {
    |nodes'| == |nodes| + 1 && nodes'[..|nodes|] == nodes && nodes'[|nodes|] == r
  }

  /** The next thing to read is the name of an element: its node, and the rest of its tag. */
  lemma TagOpens(p: Plan, before: string, after: string, n: nat, endch: char, nodes: seq<NodeRec>, nodes': seq<NodeRec>,
                 cursor: nat, start: nat, e: nat)
    requires p.Plan? && Writable(p.t, p.f) && AtTag(p, before, n, endch, nodes, cursor, start)
    requires start <= e <= n < |before| && !IsSymbol(before[e]) && forall i :: start <= i < e ==> IsSymbol(before[i])
    requires IsStartSymbol(before[start]) && Cut(before, after, e)
    requires Added(nodes, nodes', NodeRec(KElement, cursor, start, -1, []))
    ensures e < n && NewTag(p, after, n, endch, nodes', cursor, e + 1, before[e])
  {
    hide Sees, Open, AllMatch, NodeMatches, Tree.Nested, Legal, StartTail, TagRest, IsSymbol, IsStartSymbol, Cut,
      NewTag, At;
    var t, f, g, k := p.t, p.f, p.g, |nodes|;
    NextElement(p, before, n, endch, nodes, cursor, start, e);
    ElementStored(before, after, nodes, nodes', t, cursor, start, e);
    TagCut(p, before, after, n, endch, nodes', cursor, e);
  }

  lemma TagCut(p: Plan, before: string, after: string, n: nat, endch: char, nodes: seq<NodeRec>, cursor: nat, e: nat)
    requires p.Plan? && Writable(p.t, p.f) && 1 < |nodes| <= p.t.Count() && e < n && Cut(before, after, e)
    requires
      var t, k := p.t, |nodes| - 1;
      && t.data[k].kind == KElement && t.parent[k] == cursor < k && Open(t, cursor, k) && k < cursor + t.size[cursor]
      && AllMatch(after, e + 1, nodes, t, k) && NodeMatches(after, e + 1, nodes[k], t, k, 0)
      && TagRest(t, p.f, p.g, k, 0) != "" && Sees(before, n, endch, e, TagRest(t, p.f, p.g, k, 0))
    requires |before| > e
    ensures NewTag(p, after, n, endch, nodes, cursor, e + 1, before[e])
  {
    hide Sees, Open, AllMatch, NodeMatches, Tree.Nested, Legal, TagRest, Cut;
    var r := TagRest(p.t, p.f, p.g, |nodes| - 1, 0);
    SeesOne(before, n, endch, e, r);
    SeesCut(before, after, n, endch, e, r[1..]);
  }

  /** The newest node is an element whose name has been read, with the character ch behind it. */
  ghost predicate NewTag(p: Plan, buf: string, n: nat, endch: char, nodes: seq<NodeRec>, cursor: nat, s: nat,
                         ch: char) {
    p.Plan? && Writable(p.t, p.f) ==>
      var t, k := p.t, |nodes| - 1;
      && 0 < k < t.Count() && t.data[k].kind == KElement && t.parent[k] == cursor < k
      && Open(t, cursor, k) && k < cursor + t.size[cursor]
      && AllMatch(buf, s, nodes, t, k) && NodeMatches(buf, s, nodes[k], t, k, 0)
      && var r := TagRest(t, p.f, p.g, k, 0);
         r != "" && r[0] == ch && Sees(buf, n, endch, s, r[1..])
  }

  /** A space goes before an attribute, a bracket or a slash ends the tag. */
  lemma NewTagNext(p: Plan, buf: string, n: nat, endch: char, nodes: seq<NodeRec>, cursor: nat, s: nat, ch: char)
    requires p.Plan? && Writable(p.t, p.f) && NewTag(p, buf, n, endch, nodes, cursor, s, ch) && s <= n < |buf|
    requires |nodes| >= 1
    ensures ch == '>' || ch == '/' || ch == ' '
    ensures ch == ' ' ==> InTag(p, buf, n, endch, nodes, 0, s, 1) && HasAttributes(p, |nodes| - 1)
    ensures ch == '>' ==> At(p, buf, n, endch, nodes, |nodes| - 1, s)
    ensures ch == '/' ==>
      (buf[s] == '>' && s + 1 <= n && At(p, buf, n, endch, nodes, cursor, s + 1)) ||
      (buf[s] == '\0' && endch == '>' && At(p, buf, n, endch, nodes, cursor, s))
  {
    hide Sees, Open, AllMatch, NodeMatches, Tree.Nested, Legal, StartTail, TagRest, At, InTag, HasAttributes;
    var t, f, g, k := p.t, p.f, p.g, |nodes| - 1;
    TagRestStarts(t, f, g, k, 0);
    if t.data[k].attributes == [] {
      BareTagCloses(p, buf, n, endch, nodes, cursor, s);
    } else {
      TagEntered(p, buf, n, endch, nodes, s);
    }
  }

  lemma SeesCut(before: string, after: string, n: nat, endch: char, e: nat, r: string)
    requires Sees(before, n, endch, e + 1, r) && Cut(before, after, e)
    ensures Sees(after, n, endch, e + 1, r)
  {
    SeesStill(before, after, n, endch, e + 1, r);
  }

  lemma SeesOne(buf: string, n: nat, endch: char, s: nat, r: string)
    requires Sees(buf, n, endch, s, r) && r != "" && s < n
    ensures Sees(buf, n, endch, s + 1, r[1..]) && buf[s] == r[0]
  {
    assert buf[s + 0] == r[0];
    assert forall i :: 0 <= i < |r| - 1 ==> r[1..][i] == r[i + 1];
  }

  lemma TagEntered(p: Plan, buf: string, n: nat, endch: char, nodes: seq<NodeRec>, s: nat)
    requires p.Plan? && Writable(p.t, p.f) && TagIsOpen(p.t, |nodes| - 1)
    requires
      var t, k := p.t, |nodes| - 1;
      && t.data[k].attributes != []
      && AllMatch(buf, s, nodes, t, k) && NodeMatches(buf, s, nodes[k], t, k, 0)
      && TagRest(t, p.f, p.g, k, 0) != "" && Sees(buf, n, endch, s, TagRest(t, p.f, p.g, k, 0)[1..])
    ensures InTag(p, buf, n, endch, nodes, 0, s, 1) && HasAttributes(p, |nodes| - 1)
  {
    hide Open, AllMatch, NodeMatches, Sees, TagRest, Tree.Nested, Legal;
  }

  /** The element that is next, and where its name ends. */
  lemma NextElement(p: Plan, buf: string, n: nat, endch: char, nodes: seq<NodeRec>, cursor: nat, start: nat, e: nat)
    requires p.Plan? && Writable(p.t, p.f) && AtTag(p, buf, n, endch, nodes, cursor, start)
    requires start <= e <= n < |buf| && !IsSymbol(buf[e]) && forall i :: start <= i < e ==> IsSymbol(buf[i])
    requires IsStartSymbol(buf[start])
    ensures
      var k := |nodes|;
      && 0 < k < p.t.Count() && p.t.data[k].kind == KElement && p.t.parent[k] == cursor < k
      && Open(p.t, cursor, k) && k < cursor + p.t.size[cursor]
      && e == start + |p.t.data[k].name| < n
      && (forall i :: 0 <= i < |p.t.data[k].name| ==> buf[start + i] == p.t.data[k].name[i])
      && TagRest(p.t, p.f, p.g, k, 0) != "" && buf[e] == TagRest(p.t, p.f, p.g, k, 0)[0]
      && Sees(buf, n, endch, e, TagRest(p.t, p.f, p.g, k, 0))
  {
    hide Sees, Open, AllMatch, Tree.Nested, Legal, AttributesText, Ahead, Token, StartTail, LegalName, LegalNode;
    var t, f, g, k := p.t, p.f, p.g, |nodes|;
    var r := Token(t, f, g, cursor, k);
    TokenStarts(t, f, g, cursor, k);
    FirstSeen(buf, n, endch, start, r[1..]);
    OpenEnds(t, cursor, k);
    InsideOf(t, cursor, k);
    TokenElement(t, f, g, cursor, k);
    KindOf(t, k);
    LegalTag(t.data[k]);
    var name, rest := t.data[k].name, TagRest(t, f, g, k, 0);
    assert t.data[k].attributes[0..] == t.data[k].attributes;
    assert r[1..] == name + rest;
    TagRestStarts(t, f, g, k, 0);
    NameEnds(buf, n, endch, start, name, rest, e);
  }

  lemma NoAttributes(f: Format)
    ensures AttributesText([], f) == ""
  {
  }

  lemma TailIs(t: Tree, f: Format, g: Spacing, c: nat, k: nat)
    requires Writable(t, f) && Open(t, c, k) && k < c + t.size[c] && HasTag(t.data[k].kind)
    ensures IsEmptyTag(t, f, k) ==> Open(t, c, k + 1) && StartTail(t, f, g, c, k) == EmptyEnd(Ahead(t, f, g, c, k + 1))
    ensures !IsEmptyTag(t, f, k) ==> Open(t, k, k + 1) && StartTail(t, f, g, c, k) == Angle(Ahead(t, f, g, k, k + 1))
  {
    hide Tree.Nested, Legal, LegalNode, Open, Ahead, Token, Angle, EmptyEnd;
    InsideOf(t, c, k);
    KindOf(t, k);
    OpenNext(t, c, k);
  }

  lemma TailHead(t: Tree, f: Format, g: Spacing, c: nat, k: nat)
    requires Writable(t, f) && Open(t, c, k) && k < c + t.size[c] && HasTag(t.data[k].kind)
    ensures |StartTail(t, f, g, c, k)| >= 2 && StartTail(t, f, g, c, k)[0] == if IsEmptyTag(t, f, k) then '/' else '>'
  {
    hide Tree.Nested, Legal, Open, Ahead, Token, StartTail, Angle, EmptyEnd;
    InsideOf(t, c, k);
    TailIs(t, f, g, c, k);
    TailStarts(t, f, g, c, k);
    if IsEmptyTag(t, f, k) {
      AngleStarts(Ahead(t, f, g, c, k + 1));
    } else {
      AngleStarts(Ahead(t, f, g, k, k + 1));
    }
  }

  lemma AngleStarts(r: string)
    ensures Angle(r) != "" && Angle(r)[0] == '>' && EmptyEnd(r)[0] == '/' && EmptyEnd(r)[1..] == Angle(r)
    ensures Angle(r)[1..] == r
  {
  }

  lemma InsideOf(t: Tree, c: nat, k: nat)
    requires t.Valid() && Open(t, c, k) && k < c + t.size[c]
    ensures t.parent[k] == c && 0 < k < t.Count()
  {
  }

  /** The newest node is an element whose name has been cut out of the buffer. */
  lemma ElementStored(before: string, after: string, nodes: seq<NodeRec>, nodes': seq<NodeRec>, t: Tree, cursor: nat,
                      start: nat, e: nat)
    requires t.Valid() && 0 < |nodes| < t.Count() && AllMatch(before, start, nodes, t, |nodes|)
    requires Added(nodes, nodes', NodeRec(KElement, cursor, start, -1, [])) && t.parent[|nodes|] == cursor
    requires e < |before| && Cut(before, after, e) && t.data[|nodes|].kind == KElement
    requires e == start + |t.data[|nodes|].name|
      && forall i :: 0 <= i < |t.data[|nodes|].name| ==> before[start + i] == t.data[|nodes|].name[i]
    ensures AllMatch(after, e + 1, nodes', t, |nodes|) && NodeMatches(after, e + 1, nodes'[|nodes|], t, |nodes|, 0)
  {
    hide Tree.Nested, NodeMatches;
    assert nodes[..|nodes|] == nodes;
    AllStill(before, after, start, e + 1, nodes, nodes', t, |nodes|);
    NamedElement(after, e + 1, nodes'[|nodes|], t, |nodes|);
  }

  lemma NamedElement(buf: string, s: nat, r: NodeRec, t: Tree, k: nat)
    requires k < |t.data| && k < |t.parent| && t.data[k].kind == KElement && r.kind == KElement
    requires r.parent == t.parent[k]
    requires Stored(buf, s, r.name, t.data[k].name) && r.value == -1 && r.attributes == []
    ensures NodeMatches(buf, s, r, t, k, 0)
  {
  }

  /** A start tag without attributes. */
  lemma BareTagCloses(p: Plan, buf: string, n: nat, endch: char, nodes: seq<NodeRec>, cursor: nat, s: nat)
    requires p.Plan? && Writable(p.t, p.f) && 1 < |nodes| <= p.t.Count() && s <= n < |buf|
    requires Open(p.t, cursor, |nodes| - 1) && |nodes| - 1 < cursor + p.t.size[cursor]
    requires p.t.data[|nodes| - 1].kind == KElement && p.t.data[|nodes| - 1].attributes == []
    requires AllMatch(buf, s, nodes, p.t, |nodes| - 1) && NodeMatches(buf, s, nodes[|nodes| - 1], p.t, |nodes| - 1, 0)
    requires
      var tail := StartTail(p.t, p.f, p.g, cursor, |nodes| - 1);
      |tail| >= 2 && Sees(buf, n, endch, s, tail[1..])
    ensures
      var tail := StartTail(p.t, p.f, p.g, cursor, |nodes| - 1);
      && (tail[0] == '>' ==> At(p, buf, n, endch, nodes, |nodes| - 1, s))
      && (tail[0] == '/' ==>
            (buf[s] == '>' && s + 1 <= n && At(p, buf, n, endch, nodes, cursor, s + 1)) ||
            (buf[s] == '\0' && endch == '>' && At(p, buf, n, endch, nodes, cursor, s)))
  {
    hide Sees, NodeMatches, Tree.Nested, Legal, Ahead, Token, Open, StartTail;
    var t, f, g, k := p.t, p.f, p.g, |nodes| - 1;
    var tail := StartTail(t, f, g, cursor, k);
    TailIs(t, f, g, cursor, k);
    TailHead(t, f, g, cursor, k);
    assert AllMatch(buf, s, nodes, t, |nodes|);
    if IsEmptyTag(t, f, k) {
      AngleStarts(Ahead(t, f, g, cursor, k + 1));
      AngleSeen(buf, n, endch, s, Ahead(t, f, g, cursor, k + 1));
      EitherSeen(p, buf, n, endch, cursor, k + 1, s);
      if s + 1 <= n {
        AllOn(buf, s, s + 1, nodes, t, k + 1);
      }
    } else {
      AngleStarts(Ahead(t, f, g, k, k + 1));
      AheadSeen(p, buf, n, endch, k, k + 1, s);
    }
  }

  /** Behind </ : the name of the open element, which is where the parser has put it, and what follows. */
  lemma EndTagSeen(p: Plan, buf: string, n: nat, endch: char, nodes: seq<NodeRec>, cursor: nat, start: nat)
    returns (text: string, rest: string)
    requires p.Plan? && Writable(p.t, p.f) && AtTag(p, buf, n, endch, nodes, cursor, start)
    requires cursor < |nodes| && start < n < |buf| && buf[start] == '/'
    ensures 0 < cursor < p.t.Count() && text == p.t.data[cursor].name && LegalName(text)
    ensures nodes[cursor].parent == p.t.parent[cursor] && nodes[cursor].name >= 0
    ensures Stored(buf, start + 1, nodes[cursor].name, text)
    ensures Open(p.t, p.t.parent[cursor], |nodes|) && |nodes| == cursor + p.t.size[cursor]
    ensures rest == Ahead(p.t, p.f, p.g, p.t.parent[cursor], |nodes|)
    ensures Sees(buf, n, endch, start + 1, Bracketed(text, rest))
  {
    hide Sees, Open, Tree.Nested, Legal, Ahead, Token, LegalName, Stored;
    var t, f, g, k := p.t, p.f, p.g, |nodes|;
    var r := Token(t, f, g, cursor, k);
    TokenStarts(t, f, g, cursor, k);
    FirstSeen(buf, n, endch, start, r[1..]);
    OpenEnds(t, cursor, k);
    TokenEnd(t, f, g, cursor, k);
    text := t.data[cursor].name;
    assert NodeMatches(buf, start, nodes[cursor], t, cursor, |t.data[cursor].attributes|);
    StoredStill(buf, buf, start, start + 1, nodes[cursor].name, text);
    StoredAt(buf, start, nodes[cursor].name, text);
    rest := Ahead(t, f, g, t.parent[cursor], k);
    assert r[1..] == "/" + Bracketed(text, rest);
    SeesOn(buf, n, endch, start, "/", Bracketed(text, rest));
  }

  lemma StoredAt(buf: string, s: nat, off: int, text: string)
    requires Stored(buf, s, off, text)
    ensures 0 <= off
  {
  }

  lemma OpenEnds(t: Tree, c: nat, k: nat)
    requires t.Valid() && Open(t, c, k)
    ensures c < t.Count() && c < k <= c + t.size[c] && (c == 0 || t.data[c].kind == KElement)
  {
  }

  lemma EndNameGoesOn(buf: string, n: nat, endch: char, mark: nat, name: int, text: string, r: string, s: nat)
    requires Sees(buf, n, endch, mark, Bracketed(text, r))
    requires Stored(buf, mark, name, text) && mark <= s <= n < |buf| && s - mark <= |text| && IsSymbol(buf[s])
    ensures s - mark < |text| && buf[s] == buf[name + (s - mark)]
  {
    SeesOn(buf, n, endch, mark, text, Angle(r));
    AngleSeen(buf, n, endch, mark + |text|, r);
    assert forall i :: mark <= i < mark + |text| ==> buf[i] == text[i - mark];
  }

  lemma EndNameStops(buf: string, n: nat, endch: char, mark: nat, name: int, text: string, r: string, s: nat)
    requires Sees(buf, n, endch, mark, Bracketed(text, r))
    requires Stored(buf, mark, name, text) && mark <= s <= n < |buf| && s - mark <= |text| && !IsSymbol(buf[s])
    requires LegalName(text)
    ensures s - mark == |text| && buf[name + |text|] == '\0'
  {
    SeesOn(buf, n, endch, mark, text, Angle(r));
    assert forall i :: mark <= i < mark + |text| ==> buf[i] == text[i - mark];
  }

  lemma EndTagRead(p: Plan, buf: string, n: nat, endch: char, nodes: seq<NodeRec>, cursor: nat, start: nat,
                   text: string, from: nat, s: nat)
    requires p.Plan? && Writable(p.t, p.f) && AtTag(p, buf, n, endch, nodes, cursor, start)
    requires 0 < cursor < p.t.Count() && 0 <= p.t.parent[cursor] < cursor && Open(p.t, p.t.parent[cursor], |nodes|)
    requires Sees(buf, n, endch, start + 1, Bracketed(text, Ahead(p.t, p.f, p.g, p.t.parent[cursor], |nodes|)))
    requires from == start + 1 + |text| <= s <= n < |buf| && !IsSpace(buf[s])
    requires forall i :: from <= i < s ==> IsSpace(buf[i])
    ensures s == from
    ensures if s < n then buf[s] == '>' && At(p, buf, n, endch, nodes, p.t.parent[cursor], s + 1)
            else buf[s] == '\0' && endch == '>' && At(p, buf, n, endch, nodes, p.t.parent[cursor], s)
  {
    hide Sees, Open, Tree.Nested, Legal, Ahead, Token, NodeMatches;
    var next := Ahead(p.t, p.f, p.g, p.t.parent[cursor], |nodes|);
    SeesOn(buf, n, endch, start + 1, text, Angle(next));
    AngleSeen(buf, n, endch, from, next);
    EitherSeen(p, buf, n, endch, p.t.parent[cursor], |nodes|, s);
    AllOn(buf, start, s, nodes, p.t, |nodes|);
    if s < n {
      AllOn(buf, start, s + 1, nodes, p.t, |nodes|);
    }
  }

  ghost predicate HasAttributes(p: Plan, k: nat) {
    p.Plan? && k < |p.t.data| ==> p.t.data[k].attributes != []
  }

  lemma NewestNode(p: Plan, buf: string, n: nat, endch: char, nodes: seq<NodeRec>, j: nat, s: nat, drop: nat)
    requires p.Plan? && Writable(p.t, p.f) && InTag(p, buf, n, endch, nodes, j, s, drop)
    ensures 0 < |nodes| - 1 < |p.t.data| && HasTag(p.t.data[|nodes| - 1].kind) && |nodes[|nodes| - 1].attributes| == j
    ensures j <= |p.t.data[|nodes| - 1].attributes| && TagIsOpen(p.t, |nodes| - 1)
  {
    hide AllMatch, Open, Sees, StartTail;
  }

  lemma FirstSeen(buf: string, n: nat, endch: char, s: nat, r: string)
    requires Sees(buf, n, endch, s, r) && |r| >= 2
    ensures s < n && buf[s] == r[0]
  {
    assert buf[s + 0] == r[0];
  }

  /** The pieces of the text of an attribute, and what follows it. */
  datatype Pieces = Pieces(name: string, value: string, rest: string, quote: char) {
    function All(): string {
      name + ("=" + AfterEquals())
    }

    function AfterEquals(): string {
      [quote] + AfterQuote()
    }

    function AfterQuote(): string {
      value + ([quote] + rest)
    }
  }

  ghost function PiecesOf(t: Tree, f: Format, g: Spacing, k: nat, j: nat): Pieces
    requires Writable(t, f) && TagIsOpen(t, k) && j < |t.data[k].attributes|
  {
    var at := t.data[k].attributes[j];
    Pieces(at.name, Escaped(at.value, true, f),
           AttributesText(t.data[k].attributes[j + 1..], f) + StartTail(t, f, g, t.parent[k], k), Quote(f))
  }

  lemma AttributePieces(p: Plan, buf: string, n: nat, endch: char, nodes: seq<NodeRec>, j: nat, s: nat)
    returns (v: Pieces)
    requires p.Plan? && Writable(p.t, p.f) && InTag(p, buf, n, endch, nodes, j, s, 1)
    requires j < |p.t.data[|nodes| - 1].attributes|
    ensures v == PiecesOf(p.t, p.f, p.g, |nodes| - 1, j)
    ensures
      var at := p.t.data[|nodes| - 1].attributes[j];
      v.name == at.name && v.value == Escaped(at.value, true, p.f) && v.quote == Quote(p.f)
    ensures LegalAttribute(p.t.data[|nodes| - 1].attributes[j])
    ensures Sees(buf, n, endch, s, v.All())
    ensures |v.rest| >= 2 && !IsStartSymbol(v.rest[0]) && v.rest[0] != '\0'
  {
    hide AttributesText, StartTail, Escaped, Tree.Nested, Writable, AllMatch, NodeMatches, Sees, LegalAttribute;
    v := PiecesOf(p.t, p.f, p.g, |nodes| - 1, j);
    AttributeFirst(p.t, p.f, p.g, |nodes| - 1, j, v);
  }

  lemma AttributeFirst(t: Tree, f: Format, g: Spacing, k: nat, j: nat, v: Pieces)
    requires Writable(t, f) && TagIsOpen(t, k) && j < |t.data[k].attributes|
    requires v == PiecesOf(t, f, g, k, j)
    ensures LegalAttribute(t.data[k].attributes[j])
    ensures TagRest(t, f, g, k, j) != "" && TagRest(t, f, g, k, j)[0] == ' ' && TagRest(t, f, g, k, j)[1..] == v.All()
    ensures |v.rest| >= 2 && !IsStartSymbol(v.rest[0]) && v.rest[0] != '\0'
  {
    hide StartTail, Escaped, Tree.Nested, Legal, LegalNode;
    var d := t.data[k];
    var at := d.attributes[j];
    TailStarts(t, f, g, t.parent[k], k);
    KindOf(t, k);
    LegalTag(d);
    assert at in d.attributes;
    assert d.attributes[j..][0] == at && d.attributes[j..][1..] == d.attributes[j + 1..];
    assert AttributesText(d.attributes[j..], f) == AttributeText(at, f) + AttributesText(d.attributes[j + 1..], f);
    assert NameOr(at.name) == at.name && OutputText(at.value, true, f) == v.value by {
      WritesEscapes(t, f);
    }
    AttributeJoined(v.name, v.value, AttributesText(d.attributes[j + 1..], f), StartTail(t, f, g, t.parent[k], k),
                    v.quote);
    RestStarts(d.attributes[j + 1..], f, StartTail(t, f, g, t.parent[k], k));
    RestStarts(d.attributes[j..], f, StartTail(t, f, g, t.parent[k], k));
  }

  lemma WritesEscapes(t: Tree, f: Format)
    requires Writable(t, f)
    ensures !f.noEscapes && !f.skipControl && t.Valid() && Legal(t)
  {
  }

  lemma AttributeLegal(t: Tree, f: Format, k: nat, j: nat)
    requires Writable(t, f) && 0 < k < t.Count() && HasTag(t.data[k].kind) && j < |t.data[k].attributes|
    ensures
      var at := t.data[k].attributes[j];
      LegalName(at.name) && NulFree(at.value) && !f.skipControl && at.name != "" && IsStartSymbol(at.name[0])
  {
    hide Tree.Nested, Legal, LegalNode;
    KindOf(t, k);
    LegalTag(t.data[k]);
    assert t.data[k].attributes[j] in t.data[k].attributes;
  }

  lemma AttributeJoined(name: string, value: string, more: string, tail: string, q: char)
    ensures (" " + name + "=" + [q] + value + [q] + more + tail)[1..] ==
      name + ("=" + ([q] + (value + ([q] + (more + tail)))))
  {
  }

  lemma RestStarts(attributes: seq<Attribute>, f: Format, tail: string)
    requires |tail| >= 2 && (tail[0] == '>' || tail[0] == '/')
    ensures
      var r := AttributesText(attributes, f) + tail;
      |r| >= 2 && r[0] == (if attributes == [] then tail[0] else ' ')
  {
    hide Escaped;
  }

  lemma AttributeNameEnds(buf: string, n: nat, endch: char, s: nat, v: Pieces, e: nat)
    requires Sees(buf, n, endch, s, v.All()) && LegalName(v.name)
    requires s <= e <= n && !IsSymbol(buf[e]) && forall i :: s <= i < e ==> IsSymbol(buf[i])
    ensures e == s + |v.name| < n && buf[e] == '=' && Sees(buf, n, endch, e, "=" + v.AfterEquals())
    ensures forall i :: 0 <= i < |v.name| ==> buf[s + i] == v.name[i]
  {
    hide Sees, LegalName;
    NameEnds(buf, n, endch, s, v.name, "=" + v.AfterEquals(), e);
  }

  lemma EqualsRead(before: string, named: string, n: nat, endch: char, start: nat, v: Pieces, e: nat)
    requires Sees(before, n, endch, e, "=" + v.AfterEquals()) && e == start + |v.name| < n
    requires named == before[e := '\0'] && forall i :: 0 <= i < |v.name| ==> before[start + i] == v.name[i]
    ensures Sees(named, n, endch, e + 1, v.AfterEquals()) && Stored(named, e + 1, start, v.name)
  {
    SeesOn(before, n, endch, e, "=", v.AfterEquals());
    SeesStill(before, named, n, endch, e + 1, v.AfterEquals());
  }

  lemma QuoteNext(named: string, n: nat, endch: char, e: nat, v: Pieces, s: nat)
    requires Sees(named, n, endch, e, v.AfterEquals()) && IsQuote(v.quote) && |v.rest| >= 2
    requires e <= s <= n && !IsSpace(named[s]) && forall i :: e <= i < s ==> IsSpace(named[i])
    ensures s == e && e < n && named[s] == v.quote && Sees(named, n, endch, s + 1, v.AfterQuote())
  {
    SeesOn(named, n, endch, e, [v.quote], v.AfterQuote());
    assert named[e + 0] == [v.quote][0];
  }

  lemma ValueEnds(named: string, n: nat, endch: char, s: nat, v: Pieces, stop: nat)
    requires Sees(named, n, endch, s, v.AfterQuote()) && |v.rest| >= 2 && QuotedTo(named, s, stop, v.quote)
    requires v.quote != '\0' && forall i :: 0 <= i < |v.value| ==> v.value[i] != v.quote && v.value[i] != '\0'
    ensures stop == s + |v.value| < n && named[s..stop] == v.value && named[stop] == v.quote
    ensures Sees(named, n, endch, stop + 1, v.rest)
  {
    SeesOn(named, n, endch, s, v.value, [v.quote] + v.rest);
    var q := s + |v.value|;
    SeesOn(named, n, endch, q, [v.quote], v.rest);
    assert named[q + 0] == [v.quote][0];
    assert forall i :: s <= i < q ==> named[i] == v.value[i - s];
    assert forall i :: 0 <= i < |v.value| ==> named[s..q][i] == named[s + i];
  }

  /** The value that has been decoded in place is the one that was printed. */
  lemma ValueRead(at: Attribute, f: Format, spaces: Spaces, slice: string)
    requires NulFree(at.value) && !f.skipControl && spaces != Normalize && slice == Escaped(at.value, true, f)
    ensures AttributeValue(slice, spaces, true) == at.value && |at.value| <= |slice|
  {
    AttributeSurvives(at.value, spaces);
    Unescaped(at.value, true, f, spaces);
    DecodedShrinks(slice, true, spaces);
  }

  lemma StoredHere(buf: string, begin: nat, text: string, s: nat)
    requires begin + |text| < s <= |buf| && buf[begin..begin + |text|] == text && buf[begin + |text|] == '\0'
    ensures Stored(buf, s, begin, text)
  {
    var slice := buf[begin..begin + |text|];
    assert forall i :: 0 <= i < |text| ==> slice[i] == buf[begin + i];
  }

  lemma QuotedDone(before: string, after: string, n: nat, endch: char, value: nat, s: nat, rest: string, text: string)
    requires |before| == |after| == n + 1 && value + |text| < s <= n + 1 && |rest| >= 2
    requires after[value..value + |text|] == text && after[value + |text|] == '\0'
    requires Sees(before, n, endch, s, rest) && forall i :: s <= i <= n ==> after[i] == before[i]
    ensures s < n && Sees(after, n, endch, s, rest) && Stored(after, s, value, text) && after[s] == rest[0]
  {
    StoredHere(after, value, text, s);
    SeesStill(before, after, n, endch, s, rest);
    FirstSeen(after, n, endch, s, rest);
    hide Sees, Stored;
  }

  /** The newest node has one more attribute. */
  lemma AttributeDone(p: Plan, before: string, named: string, after: string, n: nat, endch: char, nodes: seq<NodeRec>,
                      nodes': seq<NodeRec>, j: nat, start: nat, mid: nat, value: nat, s: nat, v: Pieces)
    requires p.Plan? && Writable(p.t, p.f) && TagIsOpen(p.t, |nodes| - 1)
    requires InTag(p, before, n, endch, nodes, j, start, 1)
    requires j < |p.t.data[|nodes| - 1].attributes| && start < mid < value < s <= n
    requires |before| == |named| == |after| == n + 1 && after[n] == '\0'
    requires forall i :: 0 <= i < start ==> named[i] == before[i]
    requires forall i :: 0 <= i < mid ==> after[i] == named[i]
    requires
      var at := p.t.data[|nodes| - 1].attributes[j];
      v == PiecesOf(p.t, p.f, p.g, |nodes| - 1, j) &&
      Stored(named, mid, start, at.name) && Stored(after, s, value, at.value) && Sees(after, n, endch, s, v.rest)
    requires
      var k := |nodes| - 1;
      nodes' == nodes[k := nodes[k].(attributes := nodes[k].attributes + [AttrRec(start, value)])]
    ensures InTag(p, after, n, endch, nodes', j + 1, s, 0)
  {
    hide Sees, Stored, Legal, AttributesText, StartTail, Tree.Nested, AllMatch, NodeMatches, Open;
    var t, k := p.t, |nodes| - 1;
    assert nodes'[..k] == nodes[..k];
    AllStill(before, after, start, s, nodes, nodes', t, k);
    NodeStill(before, after, start, s, nodes[k], t, k, j);
    StoredStill(named, after, mid, s, start, p.t.data[k].attributes[j].name);
    NextAttribute(after, s, nodes[k], nodes'[k], t, k, j, AttrRec(start, value));
    assert v.rest[0..] == v.rest;
  }

  lemma NextAttribute(buf: string, s: nat, r: NodeRec, r': NodeRec, t: Tree, k: nat, j: nat, rec: AttrRec)
    requires k < |t.data| && k < |t.parent| && NodeMatches(buf, s, r, t, k, j) && j < |t.data[k].attributes|
    requires r' == r.(attributes := r.attributes + [rec]) && AttrMatches(buf, s, rec, t.data[k].attributes[j])
    ensures NodeMatches(buf, s, r', t, k, j + 1)
  {
    hide Stored, AttrMatches;
  }

  /** White space in front of the next attribute, or the end of the tag. */
  lemma TagSkip(p: Plan, buf: string, n: nat, endch: char, nodes: seq<NodeRec>, j: nat, from: nat, s: nat, drop: nat)
    requires p.Plan? && Writable(p.t, p.f) && InTag(p, buf, n, endch, nodes, j, from, drop)
    requires drop == (if j == 0 then 1 else 0) && HasAttributes(p, |nodes| - 1)
    requires from <= s <= n < |buf| && !IsSpace(buf[s]) && forall i :: from <= i < s ==> IsSpace(buf[i])
    ensures 1 <= |nodes| <= |p.t.data|
    ensures
      var d := p.t.data[|nodes| - 1];
      if j < |d.attributes| then IsStartSymbol(buf[s]) && InTag(p, buf, n, endch, nodes, j, s, 1)
      else j == |d.attributes| && (buf[s] == '/' || buf[s] == '>') && InTag(p, buf, n, endch, nodes, j, s, 0)
  {
    NewestNode(p, buf, n, endch, nodes, j, from, drop);
    hide InTag, Writable, IsSpace, IsStartSymbol;
    if j < |p.t.data[|nodes| - 1].attributes| {
      SkipToAttribute(p, buf, n, endch, nodes, j, from, s, drop);
    } else {
      SkipToEnd(p, buf, n, endch, nodes, j, from, s);
    }
  }

  lemma SkipToAttribute(p: Plan, buf: string, n: nat, endch: char, nodes: seq<NodeRec>, j: nat, from: nat, s: nat,
                        drop: nat)
    requires p.Plan? && Writable(p.t, p.f) && InTag(p, buf, n, endch, nodes, j, from, drop) && drop <= 1
    requires from <= s <= n < |buf| && !IsSpace(buf[s]) && forall i :: from <= i < s ==> IsSpace(buf[i])
    requires 1 <= |nodes| <= |p.t.data| && j < |p.t.data[|nodes| - 1].attributes|
    ensures IsStartSymbol(buf[s]) && InTag(p, buf, n, endch, nodes, j, s, 1)
  {
    hide AllMatch, NodeMatches, TagRest, Tree.Nested, Legal, Open, Sees;
    var t, f, g, k := p.t, p.f, p.g, |nodes| - 1;
    TagRestStarts(t, f, g, k, j);
    SkipFirst(buf, n, endch, from, s, TagRest(t, f, g, k, j), drop);
    AllOn(buf, from, s, nodes, t, k);
    NodeStill(buf, buf, from, s, nodes[k], t, k, j);
  }

  lemma SkipToEnd(p: Plan, buf: string, n: nat, endch: char, nodes: seq<NodeRec>, j: nat, from: nat, s: nat)
    requires p.Plan? && Writable(p.t, p.f) && InTag(p, buf, n, endch, nodes, j, from, 0)
    requires from <= s <= n < |buf| && !IsSpace(buf[s]) && forall i :: from <= i < s ==> IsSpace(buf[i])
    requires 1 <= |nodes| <= |p.t.data| && j == |p.t.data[|nodes| - 1].attributes|
    ensures s == from && (buf[s] == '/' || buf[s] == '>')
  {
    hide AllMatch, NodeMatches, TagRest, Tree.Nested, Legal, Open, Sees;
    var r := TagRest(p.t, p.f, p.g, |nodes| - 1, j);
    TagRestStarts(p.t, p.f, p.g, |nodes| - 1, j);
    assert r[0..] == r;
    FirstSeen(buf, n, endch, from, r);
  }

  lemma TagRestStarts(t: Tree, f: Format, g: Spacing, k: nat, j: nat)
    requires Writable(t, f) && TagIsOpen(t, k) && j <= |t.data[k].attributes|
    ensures
      var r := TagRest(t, f, g, k, j);
      if j < |t.data[k].attributes| then |r| >= 3 && r[0] == ' ' && IsStartSymbol(r[1])
      else r == StartTail(t, f, g, t.parent[k], k) && |r| >= 2 && (r[0] == '/' || r[0] == '>')
  {
    hide Tree.Nested, Legal, Open, StartTail, PiecesOf, LegalName, AttributesText;
    TailStarts(t, f, g, t.parent[k], k);
    if j < |t.data[k].attributes| {
      var v := PiecesOf(t, f, g, k, j);
      AttributeFirst(t, f, g, k, j, v);
      AttributeLegal(t, f, k, j);
      PiecesName(t, f, g, k, j);
      assert TagRest(t, f, g, k, j)[1..][0] == v.name[0] && |v.All()| >= 2;
    } else {
      NoAttributes(f);
      assert t.data[k].attributes[j..] == [];
    }
  }

  lemma PiecesName(t: Tree, f: Format, g: Spacing, k: nat, j: nat)
    requires Writable(t, f) && TagIsOpen(t, k) && j < |t.data[k].attributes|
    ensures PiecesOf(t, f, g, k, j).name == t.data[k].attributes[j].name
  {
  }

  lemma SkipFirst(buf: string, n: nat, endch: char, from: nat, s: nat, r: string, drop: nat)
    requires |r| >= 3 && r[0] == ' ' && !IsSpace(r[1]) && drop <= 1 && Sees(buf, n, endch, from, r[drop..])
    requires from <= s <= n < |buf| && !IsSpace(buf[s]) && forall i :: from <= i < s ==> IsSpace(buf[i])
    ensures Sees(buf, n, endch, s, r[1..]) && buf[s] == r[1]
  {
    FirstSeen(buf, n, endch, from, r[drop..]);
    if drop == 0 {
      assert r == [r[0]] + r[1..] && r[0..] == r;
      SeesOn(buf, n, endch, from, [r[0]], r[1..]);
      FirstSeen(buf, n, endch, from + 1, r[1..]);
    }
  }

  lemma AllRead(p: Plan, buf: string, n: nat, endch: char, nodes: seq<NodeRec>, j: nat, s: nat)
    requires p.Plan? && Writable(p.t, p.f) && InTag(p, buf, n, endch, nodes, j, s, 0)
    requires |nodes| >= 1 && |nodes| - 1 < |p.t.data| && j == |p.t.data[|nodes| - 1].attributes|
    ensures AllMatch(buf, s, nodes, p.t, |nodes|)
    ensures Sees(buf, n, endch, s, StartTail(p.t, p.f, p.g, p.t.parent[|nodes| - 1], |nodes| - 1))
  {
    hide NodeMatches, Tree.Nested, StartTail, Open, Legal, Sees;
    var t, k := p.t, |nodes| - 1;
    var r := TagRest(t, p.f, p.g, k, j);
    TagRestStarts(t, p.f, p.g, k, j);
    assert r[0..] == r;
  }

  /** The end of the tag of an element without content. */
  lemma SlashCloses(p: Plan, buf: string, n: nat, endch: char, nodes: seq<NodeRec>, j: nat, s: nat)
    requires p.Plan? && Writable(p.t, p.f) && InTag(p, buf, n, endch, nodes, j, s, 0) && s < n < |buf| && buf[s] == '/'
    requires |nodes| >= 1 && |nodes| - 1 < |p.t.data| && j == |p.t.data[|nodes| - 1].attributes|
    ensures nodes[|nodes| - 1].parent == p.t.parent[|nodes| - 1]
    ensures (buf[s + 1] == '>' && s + 2 <= n && At(p, buf, n, endch, nodes, p.t.parent[|nodes| - 1], s + 2)) ||
            (buf[s + 1] == '\0' && endch == '>' && At(p, buf, n, endch, nodes, p.t.parent[|nodes| - 1], s + 1))
  {
    hide NodeMatches, AllMatch, Tree.Nested, Open, Legal, Sees, Ahead, Token, StartTail;
    var t, f, g, k := p.t, p.f, p.g, |nodes| - 1;
    var c: nat := t.parent[k];
    AllRead(p, buf, n, endch, nodes, j, s);
    NewestParent(buf, s, nodes, t);
    TailIs(t, f, g, c, k);
    TailHead(t, f, g, c, k);
    FirstSeen(buf, n, endch, s, StartTail(t, f, g, c, k));
    SeesOn(buf, n, endch, s, "/", Angle(Ahead(t, f, g, c, k + 1)));
    AngleSeen(buf, n, endch, s + 1, Ahead(t, f, g, c, k + 1));
    EitherSeen(p, buf, n, endch, c, k + 1, s + 1);
    AllOn(buf, s, s + 1, nodes, t, k + 1);
    if s + 2 <= n {
      AllOn(buf, s, s + 2, nodes, t, k + 1);
    }
  }

  lemma AllOn(buf: string, s: nat, s': nat, nodes: seq<NodeRec>, t: Tree, k: nat)
    requires AllMatch(buf, s, nodes, t, k) && s <= s' <= |buf|
    ensures AllMatch(buf, s', nodes, t, k)
  {
    hide NodeMatches;
    AllStill(buf, buf, s, s', nodes, nodes, t, k);
  }

  lemma NewestParent(buf: string, s: nat, nodes: seq<NodeRec>, t: Tree)
    requires |nodes| >= 1 && AllMatch(buf, s, nodes, t, |nodes|)
    ensures nodes[|nodes| - 1].parent == t.parent[|nodes| - 1]
  {
    assert NodeMatches(buf, s, nodes[|nodes| - 1], t, |nodes| - 1, |t.data[|nodes| - 1].attributes|);
  }

  /** A closing bracket: in the buffer, or the character that was taken out of it. */
  lemma AngleSeen(buf: string, n: nat, endch: char, s: nat, r: string)
    requires Sees(buf, n, endch, s, Angle(r))
    ensures (s < n && buf[s] == '>' && Sees(buf, n, endch, s + 1, r)) ||
            (s == n && buf[s] == '\0' && endch == '>' && Sees(buf, n, endch, s, r))
  {
    if s < n {
      SeesOn(buf, n, endch, s, ">", r);
      assert buf[s + 0] == ">"[0];
    }
  }

  /** The end of the tag of an element with content. */
  lemma AngleCloses(p: Plan, buf: string, n: nat, endch: char, nodes: seq<NodeRec>, j: nat, s: nat)
    requires p.Plan? && Writable(p.t, p.f) && InTag(p, buf, n, endch, nodes, j, s, 0) && s < n < |buf| && buf[s] == '>'
    requires |nodes| >= 1 && |nodes| - 1 < |p.t.data| && j == |p.t.data[|nodes| - 1].attributes|
    ensures At(p, buf, n, endch, nodes, |nodes| - 1, s + 1)
  {
    hide NodeMatches, AllMatch, Tree.Nested, Open, Legal, Sees, Ahead, Token, StartTail;
    var t, f, g, k := p.t, p.f, p.g, |nodes| - 1;
    var c: nat := t.parent[k];
    AllRead(p, buf, n, endch, nodes, j, s);
    TailIs(t, f, g, c, k);
    TailHead(t, f, g, c, k);
    FirstSeen(buf, n, endch, s, StartTail(t, f, g, c, k));
    SeesOn(buf, n, endch, s, ">", Ahead(t, f, g, k, k + 1));
    AheadSeen(p, buf, n, endch, k, k + 1, s + 1);
    AllOn(buf, s, s + 1, nodes, t, k + 1);
  }
}
