/**
 White space between the markup of a document makes no difference to what is parsed, and what is kept of it if it is
 asked for is the white space itself.
 */
module XmlLayout {

  import opened Common
  import opened XmlTree
  import opened XmlDecode
  import opened XmlEscapes
  import opened XmlLines
  import opened XmlParser
  import opened XmlPlan
  import opened XmlPrint
  import opened XmlRecords
  import opened XmlRoundTrip
  import opened XmlScript
  import opened XmlSpacing
  import T = XmlText

  /** The same zero-terminated string stands at both places, or there is none at either. */
  ghost predicate SameString(buf: string, i: int, buf': string, j: int) {
    if i == -1 || j == -1 then i == j
    else exists text :: NulFree(text) && Stored(buf, |buf|, i, text) && Stored(buf', |buf'|, j, text)
  }

  /** Two records of the same node, in buffers in which its strings may stand at different places. */
  ghost predicate SameRecord(buf: string, r: NodeRec, buf': string, r': NodeRec) {
    && r.kind == r'.kind && r.parent == r'.parent
    && SameString(buf, r.name, buf', r'.name) && SameString(buf, r.value, buf', r'.value)
    && |r.attributes| == |r'.attributes|
    && forall m :: 0 <= m < |r.attributes| ==>
         && SameString(buf, r.attributes[m].name, buf', r'.attributes[m].name)
         && SameString(buf, r.attributes[m].value, buf', r'.attributes[m].value)
  }

  ghost predicate SameRecords(buf: string, nodes: seq<NodeRec>, buf': string, nodes': seq<NodeRec>) {
    |nodes| == |nodes'| && forall i :: 0 <= i < |nodes| ==> SameRecord(buf, nodes[i], buf', nodes'[i])
  }

  lemma StringsAgree(buf: string, i: int, buf': string, j: int, text: string)
    requires NulFree(text) && Stored(buf, |buf|, i, text) && Stored(buf', |buf'|, j, text)
    ensures SameString(buf, i, buf', j)
  {
  }

  lemma NameHasNoZero(s: string)
    requires LegalName(s)
    ensures NulFree(s)
  {
  }

  lemma AttributesAgree(buf: string, r: NodeRec, buf': string, r': NodeRec, d: NodeData)
    requires |r.attributes| == |r'.attributes| == |d.attributes| && forall a :: a in d.attributes ==> LegalAttribute(a)
    requires forall m :: 0 <= m < |d.attributes| ==> AttrMatches(buf, |buf|, r.attributes[m], d.attributes[m])
    requires forall m :: 0 <= m < |d.attributes| ==> AttrMatches(buf', |buf'|, r'.attributes[m], d.attributes[m])
    ensures forall m :: 0 <= m < |d.attributes| ==>
      && SameString(buf, r.attributes[m].name, buf', r'.attributes[m].name)
      && SameString(buf, r.attributes[m].value, buf', r'.attributes[m].value)
  {
    hide Stored, SameString, NulFree, LegalName;
    forall m | 0 <= m < |d.attributes|
      ensures SameString(buf, r.attributes[m].name, buf', r'.attributes[m].name)
      ensures SameString(buf, r.attributes[m].value, buf', r'.attributes[m].value)
    {
      var a := d.attributes[m];
      assert a in d.attributes;
      assert AttrMatches(buf, |buf|, r.attributes[m], a) && AttrMatches(buf', |buf'|, r'.attributes[m], a);
      NameHasNoZero(a.name);
      StringsAgree(buf, r.attributes[m].name, buf', r'.attributes[m].name, a.name);
      StringsAgree(buf, r.attributes[m].value, buf', r'.attributes[m].value, a.value);
    }
  }

  lemma DataLegal(t: Tree, i: nat)
    requires t.Valid() && Legal(t) && i < t.Count()
    ensures
      var d := t.data[i];
      && (HasName(d) ==> LegalName(d.name)) && (HasValue(d) ==> NulFree(d.value))
      && forall a :: a in d.attributes ==> LegalAttribute(a)
  {
    hide Tree.Nested, LegalName, NulFree, Unbroken;
    if i == 0 {
      DocumentFirst(t);
    } else {
      KindOf(t, i);
    }
  }

  /** Records that stand for the same node. */
  lemma RecordAgrees(buf: string, r: NodeRec, buf': string, r': NodeRec, t: Tree, i: nat)
    requires t.Valid() && Legal(t) && i < t.Count()
    requires NodeMatches(buf, |buf|, r, t, i, |t.data[i].attributes|)
    requires NodeMatches(buf', |buf'|, r', t, i, |t.data[i].attributes|)
    ensures SameRecord(buf, r, buf', r')
  {
    hide Tree.Nested, Legal, Stored, NulFree, LegalName, LegalAttribute, AttrMatches, SameString;
    DataLegal(t, i);
    var d := t.data[i];
    AttributesAgree(buf, r, buf', r', d);
    if HasName(d) {
      NameHasNoZero(d.name);
      StringsAgree(buf, r.name, buf', r'.name, d.name);
    } else {
      NoneAgree(buf, buf');
    }
    if HasValue(d) {
      StringsAgree(buf, r.value, buf', r'.value, d.value);
    } else {
      NoneAgree(buf, buf');
    }
  }

  lemma NoneAgree(buf: string, buf': string)
    ensures SameString(buf, -1, buf', -1)
  {
  }

  lemma RecordsAgree(buf: string, nodes: seq<NodeRec>, buf': string, nodes': seq<NodeRec>, t: Tree)
    requires t.Valid() && Legal(t) && |nodes| == |nodes'| == t.Count()
    requires AllMatch(buf, |buf|, nodes, t, t.Count()) && AllMatch(buf', |buf'|, nodes', t, t.Count())
    ensures SameRecords(buf, nodes, buf', nodes')
  {
    hide Tree.Nested, Legal, NodeMatches, SameRecord;
    forall i | 0 <= i < |nodes|
      ensures SameRecord(buf, nodes[i], buf', nodes'[i])
    {
      RecordAgrees(buf, nodes[i], buf', nodes'[i], t, i);
    }
  }

  /**
   The text is in the buffer, with a zero behind it or without; a text node at its end needs the zero.  It does not
   begin with a byte order mark.
   */
  ghost predicate InBuffer(buf: string, text: string, t: Tree)
    requires t.Valid()
  {
    && (buf == text || buf == text + ['\0']) && (EndsInText(t) ==> EndsInZero(buf))
    && !HasMark(text)
  }

  /** The options fit a document without white space if they fit it with some. */
  lemma PlainFits(t: Tree, f: Format, g: Spacing, o: ParseOptions)
    requires PlanFits(Plan(t, f, g), o)
    ensures PlanFits(Plan(t, f, NoSpacing), o)
  {
    hide Legal, Tree.Nested, Open, Loose;
    forall c: nat, k: nat | Open(t, c, k)
      ensures SpaceAt(t, NoSpacing, c, k) == ""
    {
    }
  }

  /** A printed document, and the same with any white space between its markup, give the same records. */
  method ParseBoth(plain: array<char>, spaced: array<char>, o: ParseOptions, ghost t: Tree, ghost f: Format,
                   ghost g: Spacing)
    returns (status: Status, nodes: seq<NodeRec>, status': Status, nodes': seq<NodeRec>)
    requires plain != spaced && PlanFits(Plan(t, f, g), o)
    requires InBuffer(plain[..], NodeText(t, f, 0), t) && InBuffer(spaced[..], Spaced(t, f, g), t)
    modifies plain, spaced
    ensures status == status' && |nodes| == t.Count() && SameRecords(plain[..], nodes, spaced[..], nodes')
  {
    hide AllMatch, SameRecords, HasMark, Legal, Tree.Nested, Spaced, StatusOf, Preorder, HaveKeys, KeysAscend,
      EndsInText,
      NodeText, Sound;
    PlainFits(t, f, g, o);
    SpacedPlain(t, f);
    ghost var late, closed;
    assert plain[..][0..] == plain[..] && spaced[..][0..] == spaced[..];
    status, nodes, late, closed := Parse(plain, o, Plan(t, f, NoSpacing), false);
    status', nodes', late, closed := Parse(spaced, o, Plan(t, f, g), false);
    RecordsAgree(plain[..], nodes, spaced[..], nodes', t);
  }

  /** White space that is kept is the value of its node, with line ends as everywhere. */
  lemma SpaceIsItsValue(w: string, eol: bool, escapes: bool)
    requires AllSpace(w)
    ensures PcdataText(w, false, eol, escapes) == if eol then Lines(w) else w
  {
    hide T.Decoded, Lines;
    var spaces := if eol then T.LineEnds else T.Keep;
    assert NoReference(w, |w|);
    DecodedLiteral(w, escapes, spaces);
  }
}
