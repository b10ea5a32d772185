/**
 The tag parser: it cuts the buffer into zero-terminated strings in place and
 builds the node list, keeping a cursor at the innermost open node.

 The last character of the text is taken out of the buffer and kept in endch, with
 a zero in its place, so that every scan stops at the end.
 */
module XmlParser {
  import opened Common
  import opened XmlTree
  import opened XmlText
  import opened XmlDecode
  import opened XmlPrint
  import opened XmlEscapes
  import opened XmlScript
  import opened XmlSpacing
  import opened XmlTokens
  import opened XmlRecords
  import opened XmlPlan
  import opened XmlMarkup

  datatype Status =
    | StatusOk | UnrecognizedTag | BadPi | BadComment | BadCdata | BadDoctype | BadStartElement | BadAttribute
    | BadEndElement | EndElementMismatch | NoDocumentElement

  datatype Next = NextToken | NextTag | NextEnd

  // Scanning

  /** PUGI__SKIPWS. */
  method SkipWs(a: array<char>, s: nat, n: nat) returns (r: nat)
    requires s <= n < a.Length && a[n] == '\0'
    ensures s <= r <= n && !IsSpace(a[r]) && forall i :: s <= i < r ==> IsSpace(a[i])
  {
    r := s;
    while IsSpace(a[r])
      invariant s <= r <= n && forall i :: s <= i < r ==> IsSpace(a[i])
      decreases n - r
    {
      r := r + 1;
    }
  }

  /** The end of a name. */
  method ScanSymbols(a: array<char>, s: nat, n: nat) returns (r: nat)
    requires s <= n < a.Length && a[n] == '\0'
    ensures s <= r <= n && !IsSymbol(a[r]) && forall i :: s <= i < r ==> IsSymbol(a[i])
  {
    r := s;
    while IsSymbol(a[r])
      invariant s <= r <= n && forall i :: s <= i < r ==> IsSymbol(a[i])
      decreases n - r
    {
      r := r + 1;
    }
  }

  class Parser {
    const a: array<char>
    const n: nat
    const endch: char
    const o: ParseOptions
    ghost const p: Plan
    var nodes: seq<NodeRec>
    var status: Status
    var errorOffset: nat
    ghost var late: bool  // whether an attribute was appended to a node that was not the newest one

    ghost predicate Valid()
      reads this, a
    {
      a.Length == n + 1 && a[n] == '\0' && PlanFits(p, o) && EndFits(p, endch) && Sound(nodes, n)
    }

    /** The order of the nodes and their strings when everything in front of s has been read. */
    ghost predicate Ordered(s: nat)
      reads this
    {
      Tidy(nodes, s, late, o.declaration)
    }

    lemma Further(s: nat, s': nat)
      requires Ordered(s) && s <= s'
      ensures Ordered(s')
    {
      TidyOn(nodes, s, s', late, o.declaration);
    }

    constructor (a: array<char>, n: nat, endch: char, o: ParseOptions, ghost p: Plan)
      requires a.Length == n + 1 && a[n] == '\0' && PlanFits(p, o) && EndFits(p, endch)
      ensures Valid() && this.a == a && this.n == n && this.endch == endch && this.o == o && this.p == p
      ensures nodes == [NodeRec(KDocument, -1, -1, -1, [])] && status == StatusOk && !late
      ensures Ordered(0) && IsCursor(nodes, 0) && OpenOnPath(nodes, {}, 0)
    {
      hide Sound, Tidy, IsCursor, EndFits;
      SoundStart(n);
      TidyStart(o.declaration);
      this.a, this.n, this.endch, this.o, this.p := a, n, endch, o, p;
      nodes, status, errorOffset, late := [NodeRec(KDocument, -1, -1, -1, [])], StatusOk, 0, false;
    }

    /** append_new_node, and the cursor moves to it. */
    method PushNode(kind: Kind, cursor: nat) returns (c: nat)
      requires Valid() && cursor < |nodes|
      modifies this`nodes
      ensures Valid() && c == |old(nodes)| && nodes == old(nodes) + [NodeRec(kind, cursor, -1, -1, [])]
    {
      nodes := nodes + [NodeRec(kind, cursor, -1, -1, [])];
      c := |nodes| - 1;
    }

    method SetName(c: nat, name: nat)
      requires Valid() && 0 < c < |nodes| && name <= n
      modifies this`nodes
      ensures Valid() && nodes == old(nodes)[c := old(nodes)[c].(name := name)]
    {
      nodes := nodes[c := nodes[c].(name := name)];
    }

    method SetValue(c: nat, value: nat)
      requires Valid() && 0 < c < |nodes| && value <= n
      modifies this`nodes
      ensures Valid() && nodes == old(nodes)[c := old(nodes)[c].(value := value)]
    {
      nodes := nodes[c := nodes[c].(value := value)];
    }

    /** PUGI__THROW_ERROR. */
    method Throw(e: Status, offset: nat)
      requires Valid() && e != StatusOk
      modifies this`status, this`errorOffset
      ensures Valid() && status == e && errorOffset == offset
    {
      status, errorOffset := e, offset;
    }

    method AppendAttribute(c: nat, name: nat)
      requires Valid() && 0 < c < |nodes|
      modifies this`nodes
      ensures Valid()
      ensures nodes == old(nodes)[c := old(nodes)[c].(attributes := old(nodes)[c].attributes + [AttrRec(name, -1)])]
    {
      nodes := nodes[c := nodes[c].(attributes := nodes[c].attributes + [AttrRec(name, -1)])];
    }

    method SetAttributeValue(c: nat, value: nat)
      requires Valid() && 0 < c < |nodes| && nodes[c].attributes != []
      modifies this`nodes
      ensures Valid()
      ensures
        var l := old(nodes)[c].attributes;
        nodes == old(nodes)[c := old(nodes)[c].(attributes := l[..|l| - 1] + [l[|l| - 1].(value := value)])]
    {
      var l := nodes[c].attributes;
      nodes := nodes[c := nodes[c].(attributes := l[..|l| - 1] + [l[|l| - 1].(value := value)])];
    }

    /** The name of an attribute and the equals sign. */
    method AttributeName(start: nat, ghost planned: bool, ghost v: Pieces) returns (s: nat, ok: bool)
      requires Valid() && start <= n && IsStartSymbol(a[start])
      requires planned ==> LegalName(v.name) && Sees(a[..], n, endch, start, v.All())
      modifies this`status, this`errorOffset, a
      ensures Valid() && (ok ==> start < s <= n && status == old(status)) && (!ok ==> status != StatusOk)
      ensures forall i :: 0 <= i < start ==> a[i] == old(a[i])
      ensures planned ==> ok && Sees(a[..], n, endch, s, v.AfterEquals()) && Stored(a[..], s, start, v.name)
      ensures
        var b, eq := old(a[..]), EqualsAt(old(a[..]), n, start);
        && (ok <==> b[eq] == '=' && eq < n)
        && (ok ==> s == eq + 1 && Stored(a[..], s, start, NameFrom(b, n, start)) && SameFrom(b, a[..], n, s))
    {
      hide Sees, Stored, LegalName, Sound, PlanFits, Pieces.All, Pieces.AfterEquals, IsStartSymbol, EndFits, NameFrom,
        SpaceEnd;
      ghost var before := a[..];
      var e := ScanSymbols(a, start, n);
      if planned {
        AttributeNameEnds(before, n, endch, start, v, e);
      }
      var ch := a[e];
      a[e] := '\0';
      s := e + 1;
      NameCut(before, a[..], n, start, e);
      if planned {
        EqualsRead(before, a[..], n, endch, start, v, e);
      }
      if IsSpace(ch) {
        s := SkipWs(a, s, n);
        SpaceScanned(a[..], n, e + 1, s);
        ch := a[s];
        s := s + 1;
      }
      if ch != '=' {
        Throw(BadAttribute, s);
        return s, false;
      }
      ok := true;
      StoredStill(a[..], a[..], e + 1, s, start, before[start..e]);
    }

    /** What becomes of white space in attribute values. */
    function ValueSpaces(): Spaces {
      AttributeSpaces(o.wnorm, o.wconv, o.eol)
    }

    /** The quoted value of an attribute. */
    method AttributeQuoted(start: nat, ghost planned: bool, ghost v: Pieces, ghost at: Attribute, ghost f: Format)
      returns (value: int, s: nat, ok: bool)
      requires Valid() && start <= n
      requires planned ==> Sees(a[..], n, endch, start, v.AfterEquals()) && o.escapes && !o.wnorm &&
                           v.quote == Quote(f) && v.value == Escaped(at.value, true, f) && NulFree(at.value) &&
                           !f.skipControl
      requires |v.rest| >= 2 && !IsStartSymbol(v.rest[0])
      modifies this`status, this`errorOffset, a
      ensures Valid() && (ok ==> start < value < s <= n && status == old(status)) && (!ok ==> status != StatusOk)
      ensures -1 <= value <= n
      ensures forall i :: 0 <= i < start ==> a[i] == old(a[i])
      ensures planned ==> ok && Sees(a[..], n, endch, s, v.rest) && Stored(a[..], s, value, at.value)
      ensures
        var b, q := old(a[..]), SpaceEnd(old(a[..]), n, start);
        && (ok <==> IsQuoted(b, n, q))
        && (ok ==>
              var stop := QuoteEnd(b, n, q + 1, b[q]);
              && value == q + 1 && s == stop + 1 && SameFrom(b, a[..], n, s)
              && Stored(a[..], s, value, AttributeValue(b[value..stop], ValueSpaces(), o.escapes)))
    {
      hide Sees, Stored, Sound, PlanFits, Escaped, AttributeValue, Pieces.AfterEquals, Pieces.AfterQuote,
        IsStartSymbol, NulFree, EndFits, SpaceEnd, QuoteEnd;
      ghost var before := a[..];
      s := SkipWs(a, start, n);
      SpaceScanned(before, n, start, s);
      if planned {
        QuoteNext(before, n, endch, start, v, s);
      }
      if a[s] != '"' && a[s] != '\'' {
        Throw(BadAttribute, s);
        return -1, s, false;
      }
      var ch := a[s];
      s := s + 1;
      value := s;
      ghost var stop := QuoteEnd(a[..], n, s, ch);
      if planned {
        EscapedIsSafe(at.value, true, f);
        ValueEnds(before, n, endch, s, v, stop);
        ValueRead(at, f, ValueSpaces(), before[value..stop]);
      }
      s, ok := AttributeText(value, ch, planned, stop, v.rest, at.value);
      if ok && IsStartSymbol(a[s]) {
        Throw(BadAttribute, s);
        ok := false;
      }
    }

    /** The value up to the closing quote is decoded in place. */
    method AttributeText(value: nat, ch: char, ghost planned: bool, ghost stop: nat, ghost rest: string,
                         ghost text: string)
      returns (s: nat, ok: bool)
      requires Valid() && 0 < value <= n && IsQuote(ch) && a[value - 1] == ch && QuotedTo(a[..], value, stop, ch)
      requires stop <= n
      requires planned ==>
        a[stop] == ch && Sees(a[..], n, endch, stop + 1, rest) && |rest| >= 2 && |text| <= stop - value &&
        AttributeValue(a[..][value..stop], ValueSpaces(), o.escapes) == text
      modifies this`status, this`errorOffset, a
      ensures Valid() && (ok ==> value < s <= n && status == old(status)) && (!ok ==> status != StatusOk)
      ensures forall i :: 0 <= i < value ==> a[i] == old(a[i])
      ensures planned ==> ok && Sees(a[..], n, endch, s, rest) && Stored(a[..], s, value, text) && a[s] == rest[0]
      ensures ok <==> old(a[stop]) == ch
      ensures ok ==> s == stop + 1 && SameFrom(old(a[..]), a[..], n, s) &&
                     Stored(a[..], s, value, AttributeValue(old(a[..])[value..stop], ValueSpaces(), o.escapes))
    {
      hide Sees, Stored, Sound, PlanFits, EndFits, AttributeValue;
      ghost var before := a[..];
      assert before[value..stop] == a[value..stop];
      var r := ConvertAttribute(a, value, ch, o.escapes, ValueSpaces(), stop);
      if r.None? {
        Throw(BadAttribute, value);
        return value, false;
      }
      s, ok := r.value, true;
      ValueInPlace(before, a[..], value, stop, AttributeValue(before[value..stop], ValueSpaces(), o.escapes)) by {
        StoresIs(a, value, AttributeValue(before[value..stop], ValueSpaces(), o.escapes));
        ValueShrinks(before[value..stop], ValueSpaces(), o.escapes);
      }
      if planned {
        StoresIs(a, value, text);
        QuotedDone(before, a[..], n, endch, value, s, rest, text);
      }
    }

    /** The cursor is the newest node, or a declaration that is open. */
    ghost predicate TakesAttributes(cursor: nat)
      requires cursor < |nodes|
      reads this
    {
      IsCursor(nodes, cursor) && (cursor == |nodes| - 1 || nodes[cursor].kind == KDeclaration)
    }

    /** AppendAttribute, with what it does to the order. */
    method StartAttribute(c: nat, name: nat)
      requires Valid() && 0 < c < |nodes| && Ordered(name) && TakesAttributes(c)
      modifies this`nodes, this`late
      ensures Valid() && 0 < c < |nodes| && Ordered(name + 1) && TakesAttributes(c)
      ensures nodes == old(nodes)[c := old(nodes)[c].(attributes := old(nodes)[c].attributes + [AttrRec(name, -1)])]
      ensures late == (old(late) || c != |old(nodes)| - 1)
    {
      hide Sound, Tidy, IsCursor, EndFits;
      TidyAttribute(nodes, c, name, late, o.declaration, AttrRec(name, -1));
      late := late || c != |nodes| - 1;
      AppendAttribute(c, name);
    }

    /** SetAttributeValue, which does nothing to the order. */
    method EndAttribute(c: nat, value: nat, ghost s: nat)
      requires Valid() && 0 < c < |nodes| && nodes[c].attributes != [] && Ordered(s) && TakesAttributes(c)
      modifies this`nodes
      ensures Valid() && 0 < c < |nodes| && Ordered(s) && TakesAttributes(c)
      ensures
        var l := old(nodes)[c].attributes;
        nodes == old(nodes)[c := old(nodes)[c].(attributes := l[..|l| - 1] + [l[|l| - 1].(value := value)])]
    {
      hide Sound, Tidy, IsCursor, EndFits;
      ghost var l := nodes[c].attributes;
      NamedCursor(nodes, c);
      TidySame(nodes, c, s, late, o.declaration, nodes[c].(attributes := l[..|l| - 1] + [l[|l| - 1].(value := value)]));
      SetAttributeValue(c, value);
    }

    /** The node at the cursor has the attribute that begins at start, and nothing else is new. */
    ghost predicate NewAttribute(b: string, was: seq<NodeRec>, cursor: nat, start: nat, s: nat)
      requires start <= n < |b| && b[n] == '\0' && IsAttribute(b, n, start) && cursor < |was|
      reads this, a
    {
      var rec := AttrRec(start, ValueAt(b, n, start).0);
      && nodes == was[cursor := was[cursor].(attributes := was[cursor].attributes + [rec])]
      && AttrMatches(a[..], s, rec, AttributeAt(b, n, start, ValueSpaces(), o.escapes))
    }

    /** The text of an attribute: its name, the equals sign, and its quoted value, if there is a quote. */
    method ReadAttribute(start: nat, ghost planned: bool, ghost v: Pieces, ghost at: Attribute, ghost f: Format)
      returns (value: int, s: nat, ok: bool, ghost named: nat, ghost middle: string)
      requires Valid() && start <= n && IsStartSymbol(a[start]) && |v.rest| >= 2 && !IsStartSymbol(v.rest[0])
      requires planned ==> LegalName(v.name) && Sees(a[..], n, endch, start, v.All()) && o.escapes && !o.wnorm &&
                           v.quote == Quote(f) && v.value == Escaped(at.value, true, f) && NulFree(at.value) &&
                           !f.skipControl
      modifies this`status, this`errorOffset, a
      ensures Valid() && -1 <= value <= n && (ok ==> start < value < s <= n && status == old(status))
      ensures !ok ==> status != StatusOk
      ensures forall i :: 0 <= i < start ==> a[i] == old(a[i])
      ensures planned ==>
        && ok && start < named < value && Stored(middle, named, start, v.name) && |middle| == n + 1
        && (forall i :: 0 <= i < start ==> middle[i] == old(a[i])) && (forall i :: 0 <= i < named ==> a[i] == middle[i])
        && Sees(a[..], n, endch, s, v.rest) && Stored(a[..], s, value, at.value)
      ensures ok <==> IsAttribute(old(a[..]), n, start)
      ensures ok ==>
        && (value, s - 1) == ValueAt(old(a[..]), n, start) && SameFrom(old(a[..]), a[..], n, s)
        && AttrMatches(a[..], s, AttrRec(start, value),
                       AttributeAt(old(a[..]), n, start, ValueSpaces(), o.escapes))
    {
      hide Sees, Sound, Stored, Escaped, LegalName, PlanFits, EndFits, NameFrom, SpaceEnd, QuoteEnd, AttributeValue,
        EqualsAt, Pieces.All, Pieces.AfterEquals, IsQuoted, IsStartSymbol, NulFree, SameFrom;
      ghost var before := a[..];
      s, ok := AttributeName(start, planned, v);
      value, named, middle := -1, s, a[..];
      if !ok {
        return;
      }
      value, s, ok := AttributeQuoted(s, planned, v, at, f);
      QuotedBehind(before, middle, n, start, named);
      if ok {
        StoredStill(middle, a[..], named, s, start, NameFrom(before, n, start));
        SameBehind(before, middle, a[..], n, named, s);
      }
    }

    /** One attribute of the node at the cursor. */
    method ParseAttribute(start: nat, cursor: nat, ghost j: nat) returns (s: nat, ok: bool)
      requires Valid() && start <= n && 0 < cursor < |nodes| && IsStartSymbol(a[start])
      requires Ordered(start) && TakesAttributes(cursor)
      requires p.Plan? ==> cursor == |nodes| - 1 && InTag(p, a[..], n, endch, nodes, j, start, 1) &&
                           j < |p.t.data[cursor].attributes|
      modifies this, a
      ensures Ordered(if ok then s else n + 1) && 0 < cursor < |nodes| && TakesAttributes(cursor)
      ensures Valid() && |nodes| == |old(nodes)| && (ok ==> start < s <= n) && (!ok ==> status != StatusOk)
      ensures ok ==> status == old(status)
      ensures p.Plan? ==> ok && InTag(p, a[..], n, endch, nodes, j + 1, s, 0)
      ensures ok <==> IsAttribute(old(a[..]), n, start)
      ensures ok ==>
        && s == ValueAt(old(a[..]), n, start).1 + 1 && SameFrom(old(a[..]), a[..], n, s)
        && NewAttribute(old(a[..]), old(nodes), cursor, start, s)
      ensures forall i :: 0 <= i < start ==> a[i] == old(a[i])
    {
      hide Sees, Writable, InTag, Sound, Stored, Escaped, LegalName, LegalAttribute, PiecesOf, AttributesText,
        Tree.Valid, Tidy, IsCursor, IsAttribute, ValueAt, AttributeAt, AttrMatches, SameFrom, Pieces.All;
      ghost var before, v := a[..], Pieces("", "", "//", '"');
      ghost var at, f := Attribute("", ""), Format(false, false, false, false);
      if p.Plan? {
        NewestNode(p, before, n, endch, nodes, j, start, 1);
        v := AttributePieces(p, before, n, endch, nodes, j, start);
        at, f := p.t.data[cursor].attributes[j], p.f;
        AttributeLegal(p.t, p.f, cursor, j);
      }
      StartAttribute(cursor, start);
      var value: int;
      ghost var named, middle;
      value, s, ok, named, middle := ReadAttribute(start, p.Plan?, v, at, f);
      if value != -1 {
        EndAttribute(cursor, value, start + 1);
      }
      Further(start + 1, if ok then s else n + 1);
      if p.Plan? {
        AttributeDone(p, before, middle, a[..], n, endch, old(nodes), nodes, j, start, named, value, s, v);
      }
    }

    /** The node at the cursor has these attributes behind those it had, and nothing else is new. */
    ghost predicate TookAttributes(was: seq<NodeRec>, cursor: nat, done: seq<Attribute>, s: nat)
      requires cursor < |was|
      reads this, a
    {
      Took(a[..], was, nodes, cursor, done, s)
    }

    lemma NothingTaken(cursor: nat, s: nat)
      requires cursor < |nodes|
      ensures TookAttributes(nodes, cursor, [], s)
    {
    }

    /** White space has been passed. */
    lemma StillTaken(b: string, was: seq<NodeRec>, cursor: nat, done: seq<Attribute>, from: nat, s: nat)
      requires SameFrom(b, a[..], n, from) && cursor < |was| && TookAttributes(was, cursor, done, from)
      requires from <= s <= n < a.Length && !IsSpace(a[s]) && forall i :: from <= i < s ==> IsSpace(a[i])
      ensures s == SpaceEnd(b, n, from) && SameFrom(b, a[..], n, s)
      ensures TookAttributes(was, cursor, done, s) && TookAttributes(was, cursor, done, n + 1)
      ensures b[s] == a[s] && (s < n ==> b[s + 1] == a[s + 1])
      ensures cursor < |nodes| && nodes[cursor].parent == was[cursor].parent
    {
      hide IsSpace, SpaceEnd;
      SpaceSame(b, a[..], n, from);
      SpaceScanned(a[..], n, from, s);
      TakenOn(was, cursor, done, from, s);
      TakenOn(was, cursor, done, from, n + 1);
      hide TookAttributes;
    }

    lemma TakenOn(was: seq<NodeRec>, cursor: nat, done: seq<Attribute>, s: nat, s': nat)
      requires cursor < |was| && TookAttributes(was, cursor, done, s) && s <= s' <= a.Length
      ensures TookAttributes(was, cursor, done, s')
    {
      hide Stored;
      var k, after := |was[cursor].attributes|, nodes[cursor].attributes;
      forall m | 0 <= m < |done|
        ensures AttrMatches(a[..], s', after[k + m], done[m])
      {
        assert AttrMatches(a[..], s, after[k + m], done[m]);
        StoredStill(a[..], a[..], s, s', after[k + m].name, done[m].name);
        StoredStill(a[..], a[..], s, s', after[k + m].value, done[m].value);
      }
    }

    lemma AttributeTaken(was: seq<NodeRec>, between: seq<NodeRec>, before: string, cursor: nat, done: seq<Attribute>,
                         from: nat, start: nat, s: nat)
      requires cursor < |was| && cursor < |between|
      requires |before| == a.Length && start <= n < |before| && before[n] == '\0'
      requires IsAttribute(before, n, start) && from <= start <= s <= a.Length
      requires Took(before, was, between, cursor, done, from)
      requires forall i :: 0 <= i < start ==> a[i] == before[i]
      requires NewAttribute(before, between, cursor, start, s)
      ensures TookAttributes(was, cursor, done + [AttributeAt(before, n, start, ValueSpaces(), o.escapes)], s)
    {
      hide IsAttribute, ValueAt, AttributeAt, Stored;
      var all := done + [AttributeAt(before, n, start, ValueSpaces(), o.escapes)];
      var x, y, z := was[cursor].attributes, between[cursor].attributes, nodes[cursor].attributes;
      assert z[..|x|] == y[..|x|];
      forall m | 0 <= m < |all|
        ensures AttrMatches(a[..], s, z[|x| + m], all[m])
      {
        if m < |done| {
          assert AttrMatches(before, from, y[|x| + m], done[m]);
          StoredStill(before, a[..], from, s, y[|x| + m].name, done[m].name);
          StoredStill(before, a[..], from, s, y[|x| + m].value, done[m].value);
        }
      }
    }

    /** The end of a start tag, where no attribute is next. */
    method ParseTagEnd(start: nat, cursor: nat, ghost j: nat) returns (s: nat, c: nat, ok: bool)
      requires Valid() && start <= n && 0 < cursor < |nodes| && Ordered(start) && TakesAttributes(cursor)
      requires p.Plan? ==>
        && cursor == |nodes| - 1 && InTag(p, a[..], n, endch, nodes, j, start, 0) && cursor < |p.t.data|
        && j == |p.t.data[cursor].attributes| && (a[start] == '/' || a[start] == '>')
      modifies this`status, this`errorOffset
      ensures Valid() && (!ok ==> status != StatusOk) && (ok ==> c < |nodes| && status == old(status))
      ensures if ok then s <= n && Ordered(s) && IsCursor(nodes, c) else Ordered(n + 1)
      ensures p.Plan? ==> ok && At(p, a[..], n, endch, nodes, c, s)
      ensures
        var end := TagEndAt(a[..], n, endch, start);
        && (ok <==> end.Some?)
        && (ok ==> s == end.value.end && c == if end.value.closed then nodes[cursor].parent else cursor)
    {
      hide Sees, Writable, InTag, Sound, At, Tree.Valid, Tidy, IsCursor, EndFits;
      s, c := start, cursor;
      if a[s] == '/' {
        if p.Plan? {
          SlashCloses(p, a[..], n, endch, nodes, j, s);
        }
        s := s + 1;
        Further(s - 1, s);
        TidyPop(nodes, cursor, s, late, o.declaration);
        if a[s] == '>' {
          Further(s, s + 1);
          return s + 1, PopNode(cursor), true;
        } else if a[s] == '\0' && endch == '>' {
          return s, PopNode(cursor), true;
        } else {
          Further(s, n + 1);
          Throw(BadStartElement, s);
          return s, cursor, false;
        }
      } else if a[s] == '>' {
        if p.Plan? {
          AngleCloses(p, a[..], n, endch, nodes, j, s);
        }
        Further(s, s + 1);
        return s + 1, cursor, true;
      } else if a[s] == '\0' && endch == '>' {
        return s, cursor, true;
      } else {
        Further(s, n + 1);
        Throw(BadStartElement, s);
        return s, cursor, false;
      }
    }

    /**
     LOC_ATTRIBUTES: the attributes of a start tag, and its end; c is the cursor afterwards, the node itself or, if the
     tag has closed it, its parent.
     */
    method ParseAttributes(start: nat, cursor: nat) returns (s: nat, c: nat, ok: bool)
      requires Valid() && start <= n && 0 < cursor < |nodes| && Ordered(start) && TakesAttributes(cursor)
      requires p.Plan? ==>
        cursor == |nodes| - 1 && InTag(p, a[..], n, endch, nodes, 0, start, 1) && HasAttributes(p, cursor)
      modifies this, a
      ensures Valid() && |nodes| == |old(nodes)| && (!ok ==> status != StatusOk)
      ensures ok ==> start <= s <= n && c < |nodes| && status == old(status)
      ensures if ok then Ordered(s) && IsCursor(nodes, c) else Ordered(n + 1)
      ensures p.Plan? ==> ok && At(p, a[..], n, endch, nodes, c, s)
      ensures
        var tag := TagAt(old(a[..]), n, endch, start, ValueSpaces(), o.escapes);
        && (ok <==> tag.Some?)
        && (ok ==>
              && s == tag.value.end && c == (if tag.value.closed then old(nodes)[cursor].parent else cursor)
              && TookAttributes(old(nodes), cursor, tag.value.attributes, n + 1))
      ensures forall i :: 0 <= i < start ==> a[i] == old(a[i])
    {
      hide Sees, Writable, InTag, Sound, At, HasAttributes, Tree.Valid, Tidy, IsCursor, EndFits, IsAttribute, ValueAt,
        SameFrom, NewAttribute, Took, AttributeAt, SpaceEnd, TagAt, IsSpace, Prepended;
      s, c := start, cursor;
      ghost var b, was, j := a[..], nodes, 0;
      ghost var done: seq<Attribute>, tag := [], TagAt(b, n, endch, start, ValueSpaces(), o.escapes);
      NothingPrepended(tag);
      NothingTaken(cursor, s);
      SameAtAll(b, n, s);
      while true
        invariant Valid() && start <= s <= n && |nodes| == |old(nodes)| && status == old(status)
        invariant Ordered(s) && TakesAttributes(cursor)
        invariant p.Plan? ==> InTag(p, a[..], n, endch, nodes, j, s, if j == 0 then 1 else 0)
        invariant SameFrom(b, a[..], n, s) && TookAttributes(was, cursor, done, s)
        invariant tag == Prepended(done, TagAt(b, n, endch, s, ValueSpaces(), o.escapes))
        invariant forall i :: 0 <= i < start ==> a[i] == old(a[i])
        decreases n - s
      {
        ghost var from := s;
        s := SkipWs(a, s, n);
        Further(from, s);
        StillTaken(b, was, cursor, done, from, s);
        TagGoesOn(b, n, endch, from, ValueSpaces(), o.escapes, done);
        if p.Plan? {
          TagSkip(p, a[..], n, endch, nodes, j, from, s, if j == 0 then 1 else 0);
        }
        if IsStartSymbol(a[s]) {
          ghost var before, between, at := a[..], nodes, s;
          AttributeSame(b, before, n, at, ValueSpaces(), o.escapes);
          s, ok := ParseAttribute(s, cursor, j);
          if !ok {
            return;
          }
          AttributeTaken(was, between, before, cursor, done, from, at, s);
          SameBehind(b, before, a[..], n, at, s);
          done := done + [AttributeAt(b, n, at, ValueSpaces(), o.escapes)];
          j := j + 1;
        } else {
          s, c, ok := ParseTagEnd(s, cursor, j);
          return;
        }
      }
    }

    /** PUGI__POPNODE. */
    function PopNode(cursor: nat): (c: nat)
      requires Valid() && 0 < cursor < |nodes|
      reads this, a
      ensures c < cursor && c == nodes[cursor].parent
    {
      nodes[cursor].parent
    }

    /** A new node whose name begins at start; the cursor may move to it. */
    method PushNamed(kind: Kind, cursor: nat, start: nat) returns (c: nat)
      requires Valid() && start <= n && cursor < |nodes| && Ordered(start) && IsCursor(nodes, cursor)
      requires kind == KDeclaration ==> o.declaration
      modifies this`nodes
      ensures Valid() && c == |old(nodes)| && nodes == old(nodes) + [NodeRec(kind, cursor, start, -1, [])]
      ensures Ordered(start + 1) && IsCursor(nodes, cursor) && IsCursor(nodes, c)
    {
      hide Sound, Tidy, IsCursor, EndFits;
      ghost var r := NodeRec(kind, cursor, start, -1, []);
      TidyPush(nodes, cursor, start, late, o.declaration, r, start + 1);
      c := PushNode(kind, cursor);
      SetName(c, start);
    }

    /** A new node without a name, whose value begins at start. */
    method PushValue(kind: Kind, cursor: nat, start: nat, ghost s: nat)
      requires Valid() && s <= start <= n && cursor < |nodes| && Ordered(s) && IsCursor(nodes, cursor)
      requires kind != KDeclaration
      modifies this`nodes
      ensures Valid() && nodes == old(nodes) + [NodeRec(kind, cursor, -1, start, [])]
      ensures Ordered(start + 1) && IsCursor(nodes, cursor)
    {
      hide Sound, Tidy, IsCursor, EndFits;
      ghost var r := NodeRec(kind, cursor, -1, start, []);
      TidyPush(nodes, cursor, s, late, o.declaration, r, start + 1);
      var c := PushNode(kind, cursor);
      SetValue(c, start);
    }

    /** The node of an element, and its name, which stands from start to e and is cut off there. */
    method OpenElement(start: nat, cursor: nat) returns (c: nat, e: nat, ch: char)
      requires Valid() && start <= n && cursor < |nodes| && IsStartSymbol(a[start])
      requires Ordered(start) && IsCursor(nodes, cursor)
      requires p.Plan? ==> AtTag(p, a[..], n, endch, nodes, cursor, start)
      modifies this`nodes, a
      ensures Valid() && c == |old(nodes)| && nodes == old(nodes) + [NodeRec(KElement, cursor, start, -1, [])]
      ensures start < e <= n && ch == old(a[e]) && a[..] == old(a[..])[e := '\0']
      ensures e == start + |NameFrom(old(a[..]), n, start)|
      ensures Stored(a[..], e + 1, start, NameFrom(old(a[..]), n, start))
      ensures Ordered(start + 1) && IsCursor(nodes, c) && IsCursor(nodes, cursor)
      ensures p.Plan? ==> e < n && NewTag(p, a[..], n, endch, nodes, cursor, e + 1, ch)
    {
      hide Sees, Writable, InTag, Sound, AtTag, HasAttributes, NewTag, Tree.Valid, Tidy, IsCursor, EndFits, NameFrom,
        SpaceEnd, Stored;
      ghost var before := a[..];
      c := PushNamed(KElement, cursor, start);
      e := ScanSymbols(a, start, n);
      ch := a[e];
      a[e] := '\0';
      NameCut(before, a[..], n, start, e);
      if p.Plan? {
        TagOpens(p, before, a[..], n, endch, old(nodes), nodes, cursor, start, e);
      }
    }

    /** The node is the newest one, an element with that name, and has the attributes of its tag. */
    ghost predicate ElementRead(was: seq<NodeRec>, cursor: nat, start: nat, name: string, attributes: seq<Attribute>)
      reads this, a
    {
      && Took(a[..], was + [NodeRec(KElement, cursor, start, -1, [])], nodes, |was|, attributes, n + 1)
      && Stored(a[..], n + 1, start, name)
    }

    lemma ElementIs(was: seq<NodeRec>, cursor: nat, start: nat, name: string, attributes: seq<Attribute>,
                    before: string, e: nat)
      requires Took(a[..], was + [NodeRec(KElement, cursor, start, -1, [])], nodes, |was|, attributes, n + 1)
      requires Stored(before, e + 1, start, name) && e <= n < a.Length && forall i :: 0 <= i <= e ==> a[i] == before[i]
      ensures ElementRead(was, cursor, start, name, attributes)
    {
      hide Took, Stored;
      StoredStill(before, a[..], e + 1, n + 1, start, name);
    }

    lemma NoAttributesTaken(was: seq<NodeRec>, r: NodeRec, buf: string, s: nat)
      ensures Took(buf, was + [r], was + [r], |was|, [], s)
    {
      var all := was + [r];
      assert all == all[|was| := all[|was|].(attributes := all[|was|].attributes)];
    }

    /** The start tag of an element; start is its name.  It is the next node, and the cursor unless it is closed. */
    method ParseElement(start: nat, cursor: nat) returns (s: nat, c: nat, ok: bool)
      requires Valid() && start <= n && cursor < |nodes| && IsStartSymbol(a[start])
      requires Ordered(start) && IsCursor(nodes, cursor)
      requires p.Plan? ==> AtTag(p, a[..], n, endch, nodes, cursor, start)
      modifies this, a
      ensures Valid() && (!ok ==> status != StatusOk)
      ensures ok ==> start <= s <= n && c < |nodes| && status == old(status)
      ensures if ok then Ordered(s) && IsCursor(nodes, c) else Ordered(n + 1)
      ensures p.Plan? ==> ok && At(p, a[..], n, endch, nodes, c, s)
      ensures
        var b := old(a[..]);
        var tag := StartTagAt(b, n, endch, start, ValueSpaces(), o.escapes);
        && (ok <==> tag.Some?)
        && (ok ==>
              && s == tag.value.end && c == (if tag.value.closed then cursor else |old(nodes)|)
              && ElementRead(old(nodes), cursor, start, NameFrom(b, n, start), tag.value.attributes))
    {
      hide Sees, Writable, InTag, Sound, At, AtTag, HasAttributes, NewTag, Tree.Valid, Tidy, IsCursor, EndFits, Took,
        Stored, NameFrom, TagAt;
      ghost var before, was := a[..], nodes;
      ghost var r, name := NodeRec(KElement, cursor, start, -1, []), NameFrom(before, n, start);
      var e: nat, ch: char;
      c, e, ch := OpenElement(start, cursor);
      s := e + 1;
      Further(start + 1, s);
      NoAttributesTaken(was, r, a[..], n + 1);
      ElementIs(was, cursor, start, name, [], a[..], e);
      if p.Plan? {
        NewTagNext(p, a[..], n, endch, nodes, cursor, s, ch);
      }
      if ch == '>' {
        return s, c, true;
      } else if IsSpace(ch) {
        ghost var middle := a[..];
        TagSame(before, middle, n, endch, s, ValueSpaces(), o.escapes);
        s, c, ok := ParseAttributes(s, c);
        if ok {
          ElementIs(was, cursor, start, name, TagAt(middle, n, endch, e + 1, ValueSpaces(), o.escapes).value.attributes,
                    middle, e);
        }
      } else if ch == '/' {
        TidyPop(nodes, c, s, late, o.declaration);
        if !(a[s] == '>' || (a[s] == '\0' && endch == '>')) {
          Further(s, n + 1);
          Throw(BadStartElement, s);
          return s, c, false;
        }
        Further(s, if a[s] == '>' then s + 1 else s);
        return if a[s] == '>' then s + 1 else s, PopNode(c), true;
      } else if ch == '\0' {
        // the zero has been stepped over
        s := s - 1;
        if endch != '>' {
          Further(s + 1, n + 1);
          Throw(BadStartElement, s);
          return s, c, false;
        }
        Further(start + 1, s);
        ok := true;
      } else {
        Further(s, n + 1);
        Throw(BadStartElement, s);
        return s, c, false;
      }
    }

    /** The comparison of the name in an end tag with that of the open element, which may go on behind it. */
    method SameName(mark: nat, from: nat, ghost planned: bool, ghost text: string, ghost rest: string)
      returns (s: nat, ok: bool)
      requires Valid() && mark <= n && from <= n
      requires planned ==>
        && Sees(a[..], n, endch, mark, Bracketed(text, rest))
        && Stored(a[..], mark, from, text)
        && LegalName(text)
      ensures mark <= s <= n && from + (s - mark) <= n
      ensures ok ==> !IsSymbol(a[s]) && s == mark + |NameFrom(a[..], n, mark)|
      ensures ok <==> BeginsWith(a[..], from, NameFrom(a[..], n, mark))
      ensures planned ==> ok && s - mark == |text| && a[from + |text|] == '\0'
    {
      hide Sees, Stored, LegalName, Sound, PlanFits, Bracketed, EndFits, NameFrom, BeginsWith;
      s := mark;
      var name := from;
      while IsSymbol(a[s])
        invariant mark <= s <= n && name == from + (s - mark) <= n && (planned ==> s - mark <= |text|)
        invariant forall i :: mark <= i < s ==> IsSymbol(a[i]) && a[i] == a[i + (from - mark)]
        decreases n - s
      {
        if planned {
          EndNameGoesOn(a[..], n, endch, mark, from, text, rest, s);
        }
        if a[s] != a[name] {
          NameDiffers(a[..], n, mark, from, s);
          return s, false;
        }
        s, name := s + 1, name + 1;
      }
      NameScanned(a[..], n, mark, s);
      NameBegins(a[..], mark, from, s);
      if planned {
        EndNameStops(a[..], n, endch, mark, from, text, rest, s);
      }
      ok := true;
    }

    /** The end tag has the name of the open element, and a bracket ends it. */
    ghost predicate EndTagFits(buf: string, start: nat, name: int)
      requires start < n < |buf| && buf[n] == '\0'
    {
      && name >= 0 && IsString(buf, name, NameFrom(buf, n, start + 1))
      && EndsWith(buf[BehindName(buf, n, start + 1)], '>')
    }

    /** Behind the bracket that ends it, or where the bracket was taken out of the buffer. */
    ghost function EndTagEnd(buf: string, start: nat): nat
      requires start < n < |buf| && buf[n] == '\0'
    {
      var stop := BehindName(buf, n, start + 1);
      if buf[stop] == '>' then stop + 1 else stop
    }

    /** An end tag; start is its slash.  It closes the open element exactly if it fits. */
    method ParseEndTag(start: nat, cursor: nat) returns (s: nat, c: nat, ok: bool)
      requires Valid() && start < n && cursor < |nodes| && a[start] == '/' && Ordered(start) && IsCursor(nodes, cursor)
      requires p.Plan? ==> AtTag(p, a[..], n, endch, nodes, cursor, start)
      modifies this`status, this`errorOffset
      ensures Valid() && (!ok ==> status != StatusOk)
      ensures ok ==> start < s <= n && c < |nodes| && status == old(status)
      ensures if ok then Ordered(s) && IsCursor(nodes, c) else Ordered(n + 1)
      ensures p.Plan? ==> ok && At(p, a[..], n, endch, nodes, c, s)
      ensures ok <==> EndTagFits(a[..], start, nodes[cursor].name)
      ensures ok ==> c == nodes[cursor].parent && s == EndTagEnd(a[..], start)
    {
      hide Sound, PlanFits, At, AtTag, Tidy, IsCursor, EndFits, EndTagFits, EndTagEnd;
      var e: Status;
      s, c, e := ReadEndTag(start, cursor);
      ok := e == StatusOk;
      Further(start, if ok then s else n + 1);
      if !ok {
        Throw(e, s);
      }
    }

    /** The name in an end tag, with the error there is in it, if any. */
    method ReadEndName(start: nat, cursor: nat, ghost planned: bool, ghost text: string, ghost rest: string)
      returns (s: nat, e: Status)
      requires Valid() && start < n && cursor < |nodes| && a[start] == '/'
      requires planned ==>
        && nodes[cursor].name >= 0 && Sees(a[..], n, endch, start + 1, Bracketed(text, rest))
        && Stored(a[..], start + 1, nodes[cursor].name, text) && LegalName(text)
      ensures e == StatusOk <==> nodes[cursor].name >= 0 &&
                                 IsString(a[..], nodes[cursor].name, NameFrom(a[..], n, start + 1))
      ensures e == StatusOk ==> start < s <= n && s == start + 1 + |NameFrom(a[..], n, start + 1)|
      ensures planned ==> e == StatusOk && s == start + 1 + |text|
    {
      hide Sees, Sound, Stored, LegalName, Bracketed, IsSymbol, EndFits, BeginsWith, IsString, NameFrom, PlanFits;
      SoundNode(nodes, n, cursor);
      var mark, name := start + 1, nodes[cursor].name;
      if name == -1 {
        return mark, EndElementMismatch;
      }
      var same: bool;
      s, same := SameName(mark, name, planned, text, rest);
      StringBegins(a[..], name, NameFrom(a[..], n, mark));
      if !same {
        return mark, EndElementMismatch;
      }
      name := name + (s - mark);
      if a[name] != '\0' {
        if a[s] == '\0' && a[name] == endch && a[name + 1] == '\0' {
          return s, BadEndElement;
        }
        return mark, EndElementMismatch;
      }
      e := StatusOk;
    }

    /** The end tag as it is read, with the error it has, if any. */
    method ReadEndTag(start: nat, cursor: nat) returns (s: nat, c: nat, e: Status)
      requires Valid() && start < n && cursor < |nodes| && a[start] == '/' && Ordered(start) && IsCursor(nodes, cursor)
      requires p.Plan? ==> AtTag(p, a[..], n, endch, nodes, cursor, start)
      ensures e == StatusOk ==> start < s <= n && c < |nodes| && IsCursor(nodes, c)
      ensures p.Plan? ==> e == StatusOk && At(p, a[..], n, endch, nodes, c, s)
      ensures e == StatusOk <==> EndTagFits(a[..], start, nodes[cursor].name)
      ensures e == StatusOk ==> c == nodes[cursor].parent && s == EndTagEnd(a[..], start)
    {
      hide Sees, Writable, Sound, At, AtTag, Stored, Open, LegalName, Tree.Nested, Bracketed, IsSymbol, Tidy,
        IsCursor, EndFits, IsString, NameFrom, SpaceEnd, TextEnd;
      SoundNode(nodes, n, cursor);
      ghost var text, rest := "", "";
      if p.Plan? {
        text, rest := EndTagSeen(p, a[..], n, endch, nodes, cursor, start);
      }
      c := cursor;
      s, e := ReadEndName(start, cursor, p.Plan?, text, rest);
      if e != StatusOk {
        return;
      }
      TidyPop(nodes, cursor, start, late, o.declaration);
      c := PopNode(cursor);
      ghost var from := s;
      s := SkipWs(a, s, n);
      SpaceThenText(a[..], n, from, s);
      if p.Plan? {
        EndTagRead(p, a[..], n, endch, nodes, cursor, start, text, from, s);
      }
      if a[s] == '\0' {
        e := if endch == '>' then StatusOk else BadEndElement;
      } else if a[s] != '>' {
        e := BadEndElement;
      } else {
        s := s + 1;
      }
    }

    predicate HasChild(c: nat)
      requires c < |nodes|
      reads this
    {
      // an open node's first child, if it has one, is the node that was appended next
      c + 1 < |nodes|
    }

    /** The document has been read, and the buffer ends. */
    ghost predicate AtEnd(cursor: nat, s: nat)
      reads this, a
    {
      cursor == 0 && s < a.Length && a[s] == '\0' && DocumentRead(p, a[..], n, endch, nodes)
    }

    /** Behind character data: behind the < of a tag, or at the end of the buffer; white space may just be passed. */
    ghost predicate BehindText(cursor: nat, s: nat, next: Next)
      reads this, a
    {
      match next
      case NextTag => AtTag(p, a[..], n, endch, nodes, cursor, s)
      case NextToken => At(p, a[..], n, endch, nodes, cursor, s) || AtEnd(cursor, s)
      case NextEnd => AtEnd(cursor, s)
    }

    /**
     White space up to the end tag of a node without children is kept if it is asked for; any other white space between
     tags is kept only if all of it is.
     */
    ghost predicate KeepsSpace(was: seq<NodeRec>, cursor: nat, next: string) {
      !o.trimPcdata && if o.wsPcdataSingle then "</" <= next && |was| <= cursor + 1 else o.wsPcdata
    }

    /** The node whose text may become its own value: it is no root and has neither a child nor a value. */
    ghost predicate Embeds(was: seq<NodeRec>, cursor: nat)
      requires cursor < |was|
    {
      o.embedPcdata && was[cursor].parent != -1 && |was| == cursor + 1 && was[cursor].value == -1
    }

    /** Character data has become a text node, or the value of its element. */
    ghost predicate TextKept(before: string, was: seq<NodeRec>, cursor: nat, from: nat, stop: nat)
      requires from <= stop < |before| && cursor < |was|
      reads this, a
    {
      && Stores(a, from, PcdataText(before[from..stop], o.trimPcdata, o.eol, o.escapes))
      && |before| == a.Length && (forall i :: 0 <= i < from || stop < i < a.Length ==> a[i] == before[i])
      && nodes == if Embeds(was, cursor) then was[cursor := was[cursor].(value := from)]
                  else was + [NodeRec(KPcdata, cursor, -1, from, [])]
    }

    /**
     Character data, or white space between tags.  It goes to the next tag or to the end, and is passed over if it is
     white space that is not kept; there is text in elements, and at the top of fragments.
     */
    method ParsePcdata(start: nat, cursor: nat) returns (s: nat, next: Next)
      requires Valid() && start < n && cursor < |nodes| && a[start] != '<' && a[start] != '\0'
      requires Ordered(start) && IsCursor(nodes, cursor)
      requires p.Plan? ==> At(p, a[..], n, endch, nodes, cursor, start)
      modifies this`nodes, a
      ensures Valid() && start < s <= n && cursor < |nodes|
      ensures Ordered(s) && IsCursor(nodes, cursor)
      ensures p.Plan? ==> BehindText(cursor, s, next)
      ensures
        var b, was, stop := old(a[..]), old(nodes), TextEnd(old(a[..]), n, start);
        if AllSpace(b[start..stop]) && !KeepsSpace(was, cursor, b[stop..]) then
          next == NextToken && s == stop && nodes == was && a[..] == b
        else
          && s == (if b[stop] == '<' then stop + 1 else stop)
          && if was[cursor].parent != -1 || o.fragment then
               && next == (if b[s] == '\0' then NextEnd else NextTag)
               && TextKept(b, was, cursor, if o.trimPcdata then SpaceEnd(b, n, start) else start, stop)
             else next == (if b[stop] == '\0' then NextEnd else NextTag) && nodes == was && a[..] == b
    {
      hide Sees, Writable, Sound, At, AtToken, AtTag, SpaceRead, Tree.Valid, Decoded, Tidy, IsCursor, DocumentRead,
        EndFits, TextKept, AllSpace;
      ghost var before, was := a[..], nodes;
      SoundNode(nodes, n, cursor);
      SoundDocument(nodes, n);
      var mark := start;
      s := SkipWs(a, start, n);
      Further(start, s);
      SpaceThenText(before, n, start, s);
      if p.Plan? {
        SpaceOrToken(p, before, n, endch, nodes, cursor, start, s);
        if AtToken(p, before, n, endch, nodes, cursor, start) {
          TextNext(p, before, n, endch, nodes, cursor, start, s);
          TopText(cursor);
        } else {
          SpaceIsDropped(p, o, before, n, endch, nodes, cursor, s);
        }
      }
      if a[s] == '<' || a[s] == '\0' {
        if !(o.wsPcdata || o.wsPcdataSingle) || o.trimPcdata {
          return s, NextToken;
        } else if o.wsPcdataSingle {
          if a[s] != '<' || a[s + 1] != '/' || HasChild(cursor) {
            return s, NextToken;
          }
        }
      }
      if !o.trimPcdata {
        s := mark;
      }
      ghost var from := s;
      if nodes[cursor].parent != -1 || o.fragment {
        s, next := ReadText(s, cursor);
      } else {
        s := ScanForTag(s);
        Further(from, if a[s] == '\0' then s else s + 1);
        return if a[s] == '\0' then s else s + 1, if a[s] == '\0' then NextEnd else NextTag;
      }
    }

    /** Text at the top is only there if it is asked for. */
    lemma TopText(cursor: nat)
      requires p.Plan? && PlanFits(p, o) && |nodes| > 0 && |nodes| < p.t.Count() && p.t.data[|nodes|].kind == KPcdata
      requires p.t.parent[|nodes|] == cursor
      ensures cursor == 0 ==> o.fragment
    {
      hide Tree.Nested, Legal;
    }

    lemma IsKeptText(before: string, was: seq<NodeRec>, cursor: nat, from: nat, stop: nat)
      requires from <= stop < |before| == a.Length && cursor < |was|
      requires Stores(a, from, PcdataText(before[from..stop], o.trimPcdata, o.eol, o.escapes))
      requires forall i :: 0 <= i < from || stop < i < a.Length ==> a[i] == before[i]
      requires nodes == if Embeds(was, cursor) then was[cursor := was[cursor].(value := from)]
                        else was + [NodeRec(KPcdata, cursor, -1, from, [])]
      ensures TextKept(before, was, cursor, from, stop)
    {
      hide PcdataText, Stores, Embeds;
    }

    /** The character data goes into a new node, or into its element. */
    method ReadText(start: nat, cursor: nat) returns (s: nat, next: Next)
      requires Valid() && start < n && cursor < |nodes| && (nodes[cursor].parent != -1 ==> 0 < cursor)
      requires a[start] != '<' && a[start] != '\0'
      requires Ordered(start) && IsCursor(nodes, cursor)
      requires p.Plan? ==> AtToken(p, a[..], n, endch, nodes, cursor, start)
      modifies this`nodes, a
      ensures Valid() && start < s <= n && cursor < |nodes|
      ensures Ordered(s) && IsCursor(nodes, cursor)
      ensures p.Plan? ==> BehindText(cursor, s, next)
      ensures
        var b, stop := old(a[..]), TextEnd(old(a[..]), n, start);
        && TextKept(b, old(nodes), cursor, start, stop)
        && s == (if b[stop] == '<' then stop + 1 else stop) && next == (if b[s] == '\0' then NextEnd else NextTag)
    {
      hide Sees, Writable, Sound, AtToken, AtTag, Tree.Valid, PcdataText, Added, Tidy, IsCursor, DocumentRead, EndFits,
        TextIn, TextKept, TextEnd, Embeds, BehindText;
      ghost var before := a[..];
      ghost var stop := TextEnd(before, n, start);
      AddText(start, cursor);
      SameSlice(a, before, start, stop);
      s := ConvertPcdata(a, start, o.trimPcdata, o.eol, o.escapes, stop);
      IsKeptText(before, old(nodes), cursor, start, stop);
      Further(start + 1, s);
      next := if a[s] == '\0' then NextEnd else NextTag;
      if p.Plan? {
        TextPlanned(before, old(nodes), cursor, start, stop, s, next);
      }
    }

    /** What the text of the plan is followed by. */
    lemma TextPlanned(before: string, was: seq<NodeRec>, cursor: nat, start: nat, stop: nat, s: nat, next: Next)
      requires Valid() && p.Plan? && |before| == n + 1 && AtToken(p, before, n, endch, was, cursor, start)
      requires start < n && before[start] != '<' && before[start] != '\0' && before[n] == '\0'
      requires stop == TextEnd(before, n, start) && s == (if before[stop] == '<' then stop + 1 else stop) && s <= n
      requires Stores(a, start, PcdataText(before[start..stop], o.trimPcdata, o.eol, o.escapes))
      requires start + |PcdataText(before[start..stop], o.trimPcdata, o.eol, o.escapes)| <= stop
      requires forall i :: 0 <= i < start || stop < i < a.Length ==> a[i] == before[i]
      requires a[stop] == before[stop] || a[stop] == '\0'
      requires !o.embedPcdata ==> Added(was, nodes, NodeRec(KPcdata, cursor, -1, start, []))
      requires next == if a[s] == '\0' then NextEnd else NextTag
      ensures BehindText(cursor, s, next)
    {
      hide Sees, Writable, Sound, AtToken, AtTag, Tree.Valid, PcdataText, Added, DocumentRead, EndFits, TextIn, TextEnd;
      TextStops(p, before, n, endch, was, cursor, start, stop);
      IsTextIn(a, before, n, start, stop);
      if IsLast(p.t, cursor, |was|) {
        TextLast(p, before, a[..], n, endch, was, nodes, cursor, start);
      } else {
        TextRead(p, before, a[..], n, endch, was, nodes, cursor, start, stop);
      }
    }

    method AddText(start: nat, cursor: nat)
      requires Valid() && start <= n && cursor < |nodes| && (nodes[cursor].parent != -1 ==> 0 < cursor)
      requires Ordered(start) && IsCursor(nodes, cursor)
      modifies this`nodes
      ensures Valid() && cursor < |nodes| && Ordered(start + 1) && IsCursor(nodes, cursor)
      ensures !o.embedPcdata ==> Added(old(nodes), nodes, NodeRec(KPcdata, cursor, -1, start, []))
      ensures nodes == if Embeds(old(nodes), cursor) then old(nodes)[cursor := old(nodes)[cursor].(value := start)]
                       else old(nodes) + [NodeRec(KPcdata, cursor, -1, start, [])]
    {
      hide Sound, Tidy, IsCursor, EndFits;
      if o.embedPcdata && nodes[cursor].parent != -1 && !HasChild(cursor) && nodes[cursor].value == -1 {
        NamedCursor(nodes, cursor);
        TidySame(nodes, cursor, start, late, o.declaration, nodes[cursor].(value := start));
        SetValue(cursor, start);
        Further(start, start + 1);
      } else {
        PushValue(KPcdata, cursor, start, start);
      }
    }

    /** PUGI__SCANFOR(*s == '<'). */
    method ScanForTag(start: nat) returns (s: nat)
      requires Valid() && start <= n
      ensures s == TextEnd(a[..], n, start)
    {
      s := start;
      while a[s] != '\0' && a[s] != '<'
        invariant start <= s <= n && TextEnd(a[..], n, s) == TextEnd(a[..], n, start)
        decreases n - s
      {
        s := s + 1;
      }
    }

    /** PUGI__ENDSWITH. */
    predicate EndsWith(c: char, e: char) {
      c == e || (c == '\0' && endch == e)
    }

    /** parse_doctype_primitive: a quoted string, a processing instruction or a comment inside a document type. */
    method ParseDoctypePrimitive(start: nat) returns (s: nat, ok: bool)
      requires Valid() && start < n && a[start] != '\0'
      modifies this`status, this`errorOffset
      ensures Valid() && (ok ==> start < s <= n && status == old(status)) && (!ok ==> status != StatusOk)
      ensures ok ==> forall i :: start <= i < s ==> a[i] != '\0'
    {
      hide Sound, PlanFits, EndFits;
      s := start;
      var skip := 0;
      if a[s] == '"' || a[s] == '\'' {
        var ch := a[s];
        s := s + 1;
        while a[s] != '\0' && a[s] != ch
          invariant start < s <= n && forall i :: start <= i < s ==> a[i] != '\0'
          decreases n - s
        {
          s := s + 1;
        }
        skip := 1;
      } else if a[s] == '<' && a[s + 1] == '?' {
        s := s + 2;
        while a[s] != '\0' && !(a[s] == '?' && a[s + 1] == '>')
          invariant start < s <= n && forall i :: start <= i < s ==> a[i] != '\0'
          decreases n - s
        {
          s := s + 1;
        }
        skip := 2;
      } else if a[s] == '<' && a[s + 1] == '!' && a[s + 2] == '-' && a[s + 3] == '-' {
        s := s + 4;
        while a[s] != '\0' && !(a[s] == '-' && a[s + 1] == '-' && a[s + 2] == '>')
          invariant start < s <= n && forall i :: start <= i < s ==> a[i] != '\0'
          decreases n - s
        {
          s := s + 1;
        }
        skip := 3;
      } else {
        Throw(BadDoctype, s);
        return s, false;
      }
      if a[s] == '\0' {
        Throw(BadDoctype, s);
        return s, false;
      }
      s := s + skip;
      ok := true;
    }

    /** parse_doctype_ignore: nested conditional sections. */
    method ParseDoctypeIgnore(start: nat) returns (s: nat, ok: bool)
      requires Valid() && start + 3 <= n && forall i :: start <= i < start + 3 ==> a[i] != '\0'
      modifies this`status, this`errorOffset
      ensures Valid() && (ok ==> start < s <= n && status == old(status)) && (!ok ==> status != StatusOk)
      ensures ok ==> forall i :: start <= i < s ==> a[i] != '\0'
    {
      hide Sound, PlanFits, EndFits;
      var depth := 0;
      s := start + 3;
      while a[s] != '\0'
        invariant start < s <= n && status == old(status) && forall i :: start <= i < s ==> a[i] != '\0'
        decreases n - s
      {
        if a[s] == '<' && a[s + 1] == '!' && a[s + 2] == '[' {
          s := s + 3;
          depth := depth + 1;
        } else if a[s] == ']' && a[s + 1] == ']' && a[s + 2] == '>' {
          s := s + 3;
          if depth == 0 {
            return s, true;
          }
          depth := depth - 1;
        } else {
          s := s + 1;
        }
      }
      Throw(BadDoctype, s);
      ok := false;
    }

    /** parse_doctype_group: to the bracket that closes the document type. */
    method ParseDoctypeGroup(start: nat) returns (s: nat, ok: bool)
      requires Valid() && start + 2 <= n && a[start + 1] != '\0'
      modifies this`status, this`errorOffset
      ensures Valid() && (!ok ==> status != StatusOk)
      ensures ok ==> start + 2 <= s <= n && status == old(status) && EndsWith(a[s], '>')
      ensures ok ==> forall i :: start < i < s ==> a[i] != '\0'
    {
      hide Sound, PlanFits, EndFits;
      var depth := 0;
      s := start + 2;
      while a[s] != '\0'
        invariant start + 2 <= s <= n && status == old(status) && forall i :: start < i < s ==> a[i] != '\0'
        decreases n - s
      {
        if a[s] == '<' && a[s + 1] == '!' && a[s + 2] != '-' {
          if a[s + 2] == '[' {
            s, ok := ParseDoctypeIgnore(s);
            if !ok {
              return;
            }
          } else {
            s := s + 2;
            depth := depth + 1;
          }
        } else if a[s] == '<' || a[s] == '"' || a[s] == '\'' {
          s, ok := ParseDoctypePrimitive(s);
          if !ok {
            return;
          }
        } else if a[s] == '>' {
          if depth == 0 {
            return s, true;
          }
          depth := depth - 1;
          s := s + 1;
        } else {
          s := s + 1;
        }
      }
      if depth != 0 || endch != '>' {
        Throw(BadDoctype, s);
        return s, false;
      }
      ok := true;
    }

    /** The order at s, where a string may begin that is empty because the text ends there. */
    ghost predicate OrderedAt(s: nat)
      reads this, a
    {
      Ordered(s) || (s < a.Length && a[s] == '\0' && Ordered(s + 1))
    }

    /** <!DOCTYPE; start is its D. */
    method ParseDoctype(start: nat, cursor: nat) returns (s: nat, c: nat, ok: bool)
      requires Valid() && 2 <= start && start + 6 <= n && cursor < |nodes| && p.NoPlan?
      requires a[start - 1] != '\0' && Ordered(start) && IsCursor(nodes, cursor)
      requires a[start] == 'D' && a[start + 1] == 'O' && a[start + 2] == 'C' && a[start + 3] == 'T'
      requires a[start + 4] == 'Y' && a[start + 5] == 'P' && EndsWith(a[start + 6], 'E')
      modifies this, a
      ensures Valid() && (!ok ==> status != StatusOk)
      ensures ok ==> start < s <= n && c < |nodes| && status == old(status)
      ensures if ok then OrderedAt(s) && IsCursor(nodes, c) else Ordered(n + 1)
      ensures ok ==> old(nodes)[cursor].parent == -1 && c == cursor
      ensures ok && !o.doctype ==> nodes == old(nodes)
      ensures ok && o.doctype ==> exists mark :: nodes == old(nodes) + [NodeRec(KDoctype, cursor, -1, mark, [])]
    {
      hide Sound, Tidy, IsCursor, EndFits;
      Further(start, n + 1);
      c := cursor;
      s := start - 2;
      if nodes[cursor].parent != -1 {
        Throw(BadDoctype, s);
        return s, c, false;
      }
      var mark := s + 9;
      s, ok := ParseDoctypeGroup(s);
      if !ok {
        return;
      }
      InDoctype(a[..], start, s, n, endch);
      if a[s] != '\0' {
        a[s] := '\0';
        s := s + 1;
      }
      Further(start, s);
      if o.doctype {
        mark := SkipWs(a, mark, n);
        PushValue(KDoctype, cursor, mark, start);
        Further(mark + 1, if mark < s then s else s + 1);
        c := cursor;
      }
    }

    /** A comment or a CDATA section of the document comes next. */
    ghost predicate SectionNext(cursor: nat)
      requires p.Plan?
      reads this
    {
      && Writable(p.t, p.f) && cursor < p.t.Count() && |nodes| < cursor + p.t.size[cursor] && |nodes| < p.t.Count()
      && IsSection(p.t.data[|nodes|].kind) && IsKept(p.t.data[|nodes|].kind, o)
    }

    /** A comment, a CDATA section or a document type; start is the exclamation mark. */
    method ParseExclamation(start: nat, cursor: nat) returns (s: nat, c: nat, ok: bool)
      requires Valid() && 1 <= start < n && cursor < |nodes| && a[start] == '!'
      requires Ordered(start) && IsCursor(nodes, cursor)
      requires p.Plan? ==> SectionNext(cursor) && AtTag(p, a[..], n, endch, nodes, cursor, start)
      modifies this, a
      ensures Valid() && (!ok ==> status != StatusOk)
      ensures ok ==> start < s <= n && c < |nodes| && status == old(status)
      ensures p.Plan? ==> ok && c == cursor && At(p, a[..], n, endch, nodes, c, s)
      ensures if ok then OrderedAt(s) && IsCursor(nodes, c) else Ordered(n + 1)
      ensures ok ==> c == cursor && NoNewElements(old(nodes), nodes)
    {
      hide Sound, Tidy, IsCursor, AtTag, AtSection, At, Writable, EndFits, NoNewElements, SectionStored, EndsAt;
      ghost var was := nodes;
      OtherAdded(was, NodeRec(KComment, cursor, -1, start + 3, []));
      OtherAdded(was, NodeRec(KCdata, cursor, -1, start + 8, []));
      if p.Plan? {
        SectionOpens(p, a[..], n, endch, nodes, cursor, start);
        OpeningIs(a[..], start, p.t.data[|nodes|].kind);
      }
      Further(start, n + 1);
      c := cursor;
      s := start + 1;
      Further(start, s);
      if a[s] == '-' {
        s := s + 1;
        if a[s] != '-' {
          Throw(BadComment, s);
          return s, c, false;
        }
        Further(start + 1, s + 1);
        s, c, ok := ParseComment(s + 1, cursor);
      } else if a[s] == '[' {
        if !(a[s + 1] == 'C' && a[s + 2] == 'D' && a[s + 3] == 'A' && a[s + 4] == 'T' && a[s + 5] == 'A' &&
             a[s + 6] == '[') {
          Throw(BadCdata, s);
          return s, c, false;
        }
        Further(start + 1, s + 7);
        s, c, ok := ParseCdata(s + 7, cursor);
      } else if a[s] == 'D' && a[s + 1] == 'O' && a[s + 2] == 'C' && a[s + 3] == 'T' && a[s + 4] == 'Y' &&
                a[s + 5] == 'P' && EndsWith(a[s + 6], 'E') {
        s, c, ok := ParseDoctype(s, cursor);
        if ok && o.doctype {
          ghost var mark :| nodes == was + [NodeRec(KDoctype, cursor, -1, mark, [])];
          OtherAdded(was, NodeRec(KDoctype, cursor, -1, mark, []));
        }
      } else {
        Throw(if a[s] == '\0' && endch == '-' then BadComment else if a[s] == '\0' && endch == '[' then BadCdata
              else UnrecognizedTag, s);
        return s, c, false;
      }
    }

    /** What a section whose content stands from start to stop is stored as. */
    ghost function SectionValue(before: string, start: nat, stop: nat): string
      requires start <= stop <= |before|
    {
      if o.eol then Decoded(before[start..stop], false, LineEnds) else before[start..stop]
    }

    /**
     The content of a section has been read up to its end mark at stop, and stored if it is kept; s is behind the
     mark.
     */
    ghost predicate SectionStored(before: string, start: nat, stop: nat, keep: bool, s: nat)
      reads a
    {
      && start <= stop && stop + 2 < |before| == a.Length == n + 1
      && s == (if before[stop + 2] == '>' then stop + 3 else stop + 2) && s <= n
      && (forall i :: 0 <= i < start || stop < i <= n ==> a[i] == before[i])
      && (keep ==> Stores(a, start, SectionValue(before, start, stop)))
    }

    /** The content of a comment, stored as a node if the options ask for it. */
    method ParseComment(start: nat, cursor: nat) returns (s: nat, c: nat, ok: bool)
      requires Valid() && start <= n && cursor < |nodes| && Ordered(start) && IsCursor(nodes, cursor)
      requires p.Plan? ==> o.comments && AtSection(p, a[..], n, endch, nodes, cursor, start, KComment)
      modifies this, a
      ensures Valid() && (!ok ==> status != StatusOk)
      ensures ok ==> start < s <= n && c < |nodes| && status == old(status)
      ensures p.Plan? ==> ok && c == cursor && At(p, a[..], n, endch, nodes, c, s)
      ensures if ok then Ordered(s) && IsCursor(nodes, c) else Ordered(n + 1)
      ensures ok && o.comments ==> nodes == old(nodes) + [NodeRec(KComment, cursor, -1, start, [])] && c == cursor
      ensures ok && !o.comments ==> nodes == old(nodes) && c == cursor && a[..] == old(a[..])
      ensures ok ==> exists stop: nat :: EndsAt(old(a[..]), start, stop, '-', endch) &&
                                         SectionStored(old(a[..]), start, stop, o.comments, s)
    {
      hide Sound, Tidy, IsCursor, At, AtSection, Writable, EndFits, EndsAt, SectionStored, SectionValue;
      Further(start, start + 1);
      c := cursor;
      ghost var before, stop := a[..], MarkEnd(a[..], n, start, '-', endch);
      if o.comments {
        PushValue(KComment, cursor, start, start);
      }
      s, ok := ReadComment(start, stop);
      if p.Plan? {
        KeptSection(before, start, stop, s, ok, old(nodes), cursor, KComment);
      }
      Further(start + 1, if ok then s else n + 1);
    }

    method ReadComment(start: nat, ghost stop: nat) returns (s: nat, ok: bool)
      requires Valid() && start <= n && stop <= n && EndsAt(a[..], start, stop, '-', endch)
      modifies this`status, this`errorOffset, a
      ensures Valid() && ok == (old(a[stop]) != '\0')
      ensures if ok then start < s <= n && SectionStored(old(a[..]), start, stop, o.comments, s) &&
                         status == old(status)
              else status != StatusOk
      ensures !o.comments ==> a[..] == old(a[..])
    {
      hide Sound, PlanFits, EndFits, Decoded, Stores;
      ok := false;
      ghost var before := a[..];
      if o.eol && o.comments {
        var r := ConvertComment(a, start, endch, stop);
        if r.None? {
          Throw(BadComment, start);
          return start, false;
        }
        return r.value, true;
      }
      s := ScanForMark(start, '-', stop);
      if a[s] == '\0' {
        Throw(BadComment, s);
        return;
      }
      if o.comments {
        a[s] := '\0';
        StoresSlice(a, before, start, s);
      }
      s := s + if a[s + 2] == '>' then 3 else 2;
      ok := true;
    }

    /** The content of a CDATA section. */
    method ParseCdata(start: nat, cursor: nat) returns (s: nat, c: nat, ok: bool)
      requires Valid() && start <= n && cursor < |nodes| && Ordered(start) && IsCursor(nodes, cursor)
      requires p.Plan? ==> o.cdata && AtSection(p, a[..], n, endch, nodes, cursor, start, KCdata)
      modifies this, a
      ensures Valid() && (!ok ==> status != StatusOk)
      ensures ok ==> start < s <= n && c < |nodes| && status == old(status)
      ensures p.Plan? ==> ok && c == cursor && At(p, a[..], n, endch, nodes, c, s)
      ensures if ok then Ordered(s) && IsCursor(nodes, c) else Ordered(n + 1)
      ensures ok && o.cdata ==> nodes == old(nodes) + [NodeRec(KCdata, cursor, -1, start, [])] && c == cursor
      ensures ok && !o.cdata ==> nodes == old(nodes) && c == cursor && a[..] == old(a[..])
      ensures ok ==> exists stop: nat :: EndsAt(old(a[..]), start, stop, ']', endch) &&
                                         SectionStored(old(a[..]), start, stop, o.cdata, s)
    {
      hide Sound, Tidy, IsCursor, At, AtSection, Writable, EndFits, EndsAt, SectionStored, SectionValue;
      Further(start, start + 1);
      c := cursor;
      ghost var before, stop := a[..], MarkEnd(a[..], n, start, ']', endch);
      if o.cdata {
        PushValue(KCdata, cursor, start, start);
      }
      s, ok := ReadCdata(start, stop);
      if p.Plan? {
        KeptSection(before, start, stop, s, ok, old(nodes), cursor, KCdata);
      }
      Further(start + 1, if ok then s else n + 1);
    }

    method ReadCdata(start: nat, ghost stop: nat) returns (s: nat, ok: bool)
      requires Valid() && start <= n && stop <= n && EndsAt(a[..], start, stop, ']', endch)
      modifies this`status, this`errorOffset, a
      ensures Valid() && ok == (old(a[stop]) != '\0')
      ensures if ok then start < s <= n && SectionStored(old(a[..]), start, stop, o.cdata, s) && status == old(status)
              else status != StatusOk
      ensures !o.cdata ==> a[..] == old(a[..])
    {
      hide Sound, PlanFits, EndFits, Decoded, Stores;
      ok := false;
      ghost var before := a[..];
      if o.cdata && o.eol {
        var r := ConvertCdata(a, start, endch, stop);
        if r.None? {
          Throw(BadCdata, start);
          return start, false;
        }
        s := r.value;
      } else {
        s := ScanForMark(start, ']', stop);
        if a[s] == '\0' {
          Throw(BadCdata, s);
          return;
        }
        if o.cdata {
          a[s] := '\0';
          StoresSlice(a, before, start, s);
        }
        s := s + 1;
      }
      s := s + if a[s + 1] == '>' then 2 else 1;
      ok := true;
    }

    lemma KeptSection(before: string, start: nat, stop: nat, s: nat, ok: bool, was: seq<NodeRec>, cursor: nat,
                      kind: Kind)
      requires Valid() && p.Plan? && AtSection(p, before, n, endch, was, cursor, start, kind) && |before| == n + 1
      requires EndsAt(before, start, stop, MarkChar(kind), endch) && ok == (before[stop] != '\0')
      requires ok ==> SectionStored(before, start, stop, true, s)
      requires nodes == was + [NodeRec(kind, cursor, -1, start, [])]
      ensures ok && At(p, a[..], n, endch, nodes, cursor, s)
    {
      hide Sound, EndFits, At, AtSection, Writable, EndsAt, Decoded, Stores;
      SectionEnds(p, before, n, endch, was, cursor, start, stop, kind);
      StoresIs(a, start, before[start..stop]);
      SectionRead(p, before, a[..], n, endch, was, nodes, cursor, start, stop, s, kind);
    }

    method ScanForMark(start: nat, mark: char, ghost stop: nat) returns (s: nat)
      requires Valid() && start <= n && mark != '\0' && stop <= n && EndsAt(a[..], start, stop, mark, endch)
      ensures s == stop
    {
      hide Sound, PlanFits, EndFits;
      s := start;
      while a[s] != '\0' && !(a[s] == mark && a[s + 1] == mark && EndsWith(a[s + 2], '>'))
        invariant start <= s <= stop
        decreases n - s
      {
        s := s + 1;
      }
    }

    /** A processing instruction or the declaration of the document comes next. */
    ghost predicate QuestionNext(cursor: nat)
      requires p.Plan?
      reads this
    {
      && Writable(p.t, p.f) && cursor < p.t.Count() && |nodes| < cursor + p.t.size[cursor] && |nodes| < p.t.Count()
      && IsQuestion(p.t.data[|nodes|].kind) && IsKept(p.t.data[|nodes|].kind, o)
    }

    /** A processing instruction has been read, or the name of the declaration, which is the cursor now. */
    ghost predicate BehindQuestion(c: nat, s: nat)
      reads this, a
    {
      c < |nodes| &&
      if nodes[c].kind == KDeclaration then
        0 < c == |nodes| - 1 && InTag(p, a[..], n, endch, nodes, 0, s, 1) && HasAttributes(p, c)
      else
        At(p, a[..], n, endch, nodes, c, s)
    }

    lemma PiIsRead(c: nat, s: nat, buf: string, read: seq<NodeRec>)
      requires nodes == read && a[..] == buf && c < |nodes| && nodes[c].kind != KDeclaration
      requires At(p, buf, n, endch, read, c, s)
      ensures BehindQuestion(c, s)
    {
      hide At, InTag, HasAttributes;
    }

    lemma DeclarationOpens(c: nat, s: nat, buf: string, read: seq<NodeRec>)
      requires nodes == read && a[..] == buf && 0 < c == |nodes| - 1 && nodes[c].kind == KDeclaration
      requires InTag(p, buf, n, endch, read, 0, s, 1) && HasAttributes(p, c)
      ensures BehindQuestion(c, s)
    {
      hide At, InTag, HasAttributes;
    }

    /** There is one node more, of that kind and with its name at target; a declaration may be the cursor now. */
    ghost predicate QuestionRead(was: seq<NodeRec>, cursor: nat, kind: Kind, target: nat, c: nat)
      reads this
    {
      && |nodes| == |was| + 1 && nodes[..|was|] == was
      && nodes[|was|] == NodeRec(kind, cursor, target, nodes[|was|].value, [])
      && (c == cursor || (kind == KDeclaration && c == |was|))
    }

    /** The declaration has the name xml, in whatever case. */
    ghost function KindOfQuestion(buf: string, start: nat): (kind: Kind)
      requires start < n < |buf| && buf[n] == '\0'
      ensures IsQuestion(kind)
    {
      if IsXml(NameFrom(buf, n, start + 1)) then KDeclaration else KPi
    }

    /** The name behind the question mark. */
    method QuestionName(start: nat, cursor: nat) returns (s: nat, declaration: bool, ok: bool)
      requires Valid() && start < n && a[start] == '?'
      requires p.Plan? ==> QuestionNext(cursor) && AtTag(p, a[..], n, endch, nodes, cursor, start)
      modifies this`status, this`errorOffset
      ensures Valid() && (!ok ==> status != StatusOk) && (ok ==> start + 1 <= s < n && status == old(status))
      ensures ok ==> declaration == (KindOfQuestion(a[..], start) == KDeclaration)
      ensures p.Plan? ==>
        && ok && AtQuestion(p, a[..], n, endch, nodes, cursor, start + 1, s)
        && p.t.data[|nodes|].kind == (if declaration then KDeclaration else KPi) && (declaration ==> cursor == 0)
    {
      hide Sound, AtTag, AtQuestion, Writable, EndFits, IsXml, PlanFits;
      if p.Plan? {
        QuestionStarts(p, a[..], n, endch, nodes, cursor, start);
      }
      s, ok, declaration := start + 1, false, false;
      var target := s;
      if !IsStartSymbol(a[s]) {
        Throw(BadPi, s);
        return;
      }
      s := ScanSymbols(a, s, n);
      if p.Plan? {
        QuestionNamed(p, a[..], n, endch, nodes, cursor, start, s);
      }
      if a[s] == '\0' {
        Throw(BadPi, s);
        return;
      }
      declaration := target + 3 == s && (a[target] == 'x' || a[target] == 'X') &&
                     (a[target + 1] == 'm' || a[target + 1] == 'M') &&
                     (a[target + 2] == 'l' || a[target + 2] == 'L');
      ThreeLetters(a[..], target, s);
      NameScanned(a[..], n, target, s);
      ok := true;
    }

    /**
     A processing instruction or the XML declaration; start is the question mark.  It is passed over if its kind is not
     kept; otherwise it becomes the next node, and the declaration becomes the cursor, for its attributes.
     */
    method ParseQuestion(start: nat, cursor: nat) returns (s: nat, c: nat, ok: bool)
      requires Valid() && start < n && cursor < |nodes| && a[start] == '?'
      requires Ordered(start) && IsCursor(nodes, cursor)
      requires p.Plan? ==> QuestionNext(cursor) && AtTag(p, a[..], n, endch, nodes, cursor, start)
      modifies this, a
      ensures Valid() && (!ok ==> status != StatusOk)
      ensures ok ==> start < s <= n && c < |nodes| && status == old(status)
      ensures ok && nodes[c].kind == KDeclaration ==> 0 < c
      ensures if ok then Ordered(s) && IsCursor(nodes, c) else Ordered(n + 1)
      ensures p.Plan? ==> ok && BehindQuestion(c, s)
      ensures ok ==>
        var kind := KindOfQuestion(old(a[..]), start);
        if IsKept(kind, o) then QuestionRead(old(nodes), cursor, kind, start + 1, c)
        else nodes == old(nodes) && c == cursor && a[..] == old(a[..])
    {
      hide Sound, Tidy, IsCursor, AtTag, AtQuestion, Writable, BehindQuestion, EndFits, QuestionRead, KindOfQuestion;
      Further(start, n + 1);
      SoundDocument(nodes, n);
      c := cursor;
      var target := start + 1;
      Further(start, target);
      var declaration: bool;
      s, declaration, ok := QuestionName(start, cursor);
      if !ok {
        return;
      }
      ok := false;
      if if declaration then o.declaration else o.pi {
        if declaration && nodes[cursor].parent != -1 {
          Throw(BadPi, s);
          return;
        }
        s, c, ok := ParsePi(target, s, cursor, declaration);
      } else {
        s := ScanForPiEnd(s);
        if a[s] == '\0' {
          Throw(BadPi, s);
          return;
        }
        s := s + if a[s + 1] == '>' then 2 else 1;
        Further(start, s);
        ok := true;
      }
    }

    /** Node c has its name, which stands from target to end, and what comes behind that has not been read. */
    ghost predicate PiNamed(c: nat, target: nat, end: nat, before: string, was: seq<NodeRec>)
      requires p.Plan? && c < |nodes|
      reads this, a
    {
      && Writable(p.t, p.f) && 0 <= nodes[c].parent < |was| < p.t.Count() && was[nodes[c].parent].kind != KDeclaration
      && p.t.data[|was|].kind == nodes[c].kind
      && AtQuestion(p, before, n, endch, was, nodes[c].parent, target, end) && Cut(before, a[..], end)
      && (before[end] == ' ' || before[end] == '?')
      && nodes == was + [NodeRec(nodes[c].kind, nodes[c].parent, target, -1, [])]
    }

    /** A new node whose name stands from target to end, and the character behind the name. */
    method NamePi(target: nat, end: nat, cursor: nat, declaration: bool) returns (c: nat, ch: char)
      requires Valid() && target <= end < n && cursor < |nodes| && Ordered(target) && IsCursor(nodes, cursor)
      requires declaration ==> o.declaration
      requires p.Plan? ==>
        Writable(p.t, p.f) && |nodes| < p.t.Count() && AtQuestion(p, a[..], n, endch, nodes, cursor, target, end) &&
        p.t.data[|nodes|].kind == if declaration then KDeclaration else KPi
      modifies this`nodes, a
      ensures Valid() && c == |old(nodes)| && ch == old(a[end]) && a[..] == old(a[..])[end := '\0']
      ensures nodes == old(nodes) + [NodeRec(if declaration then KDeclaration else KPi, cursor, target, -1, [])]
      ensures Ordered(target + 1) && IsCursor(nodes, c) && IsCursor(nodes, cursor)
      ensures p.Plan? ==> PiNamed(c, target, end, old(a[..]), old(nodes))
    {
      hide Sound, Tidy, IsCursor, AtQuestion, Writable, Cut, PlanFits, Tree.Valid, EndFits;
      ghost var before := a[..];
      if p.Plan? {
        CursorKind(p, before, n, endch, nodes, cursor, target, end);
        QuestionCut(p, before, before[end := '\0'], n, endch, nodes, cursor, target, end) by {
          IsCut(before, before[end := '\0'], end);
        }
      }
      c := PushNamed(if declaration then KDeclaration else KPi, cursor, target);
      ch := a[end];
      a[end] := '\0';
      IsCut(before, a[..], end);
    }

    /** The node of a processing instruction, or of the declaration, whose attributes are still to be read. */
    method ParsePi(target: nat, end: nat, cursor: nat, declaration: bool) returns (s: nat, c: nat, ok: bool)
      requires Valid() && target <= end < n && cursor < |nodes| && Ordered(target) && IsCursor(nodes, cursor)
      requires declaration ==> o.declaration
      requires p.Plan? ==>
        Writable(p.t, p.f) && |nodes| < p.t.Count() && AtQuestion(p, a[..], n, endch, nodes, cursor, target, end) &&
        p.t.data[|nodes|].kind == if declaration then KDeclaration else KPi
      modifies this, a
      ensures Valid() && (!ok ==> status != StatusOk)
      ensures ok ==> end < s <= n && c < |nodes| && status == old(status)
      ensures ok && nodes[c].kind == KDeclaration ==> 0 < c
      ensures if ok then Ordered(s) && IsCursor(nodes, c) else Ordered(n + 1)
      ensures p.Plan? ==> ok && BehindQuestion(c, s)
      ensures ok ==> QuestionRead(old(nodes), cursor, if declaration then KDeclaration else KPi, target, c)
    {
      hide Sound, Tidy, IsCursor, AtQuestion, Writable, At, BehindQuestion, PlanFits, Cut, Tree.Valid, EndFits;
      SoundDocument(nodes, n);
      ghost var before, was := a[..], nodes;
      var ch: char;
      c, ch := NamePi(target, end, cursor, declaration);
      s, ok := end + 1, false;
      Further(target + 1, n + 1);
      if ch == '?' {
        if p.Plan? {
          BareQuestion(p, before, a[..], n, endch, was, nodes, cursor, target, end,
                       if declaration then KDeclaration else KPi);
        }
        if !EndsWith(a[s], '>') {
          Throw(BadPi, s);
          return;
        }
        s := s + if a[s] == '>' then 1 else 0;
        Further(target + 1, s);
        TidyPop(nodes, c, target + 1, late, o.declaration);
        c := PopNode(c);
        if p.Plan? {
          PiIsRead(c, s, a[..], nodes);
        }
        ok := true;
      } else if IsSpace(ch) {
        s := SkipWs(a, s, n);
        if p.Plan? {
          QuestionSpace(p, before, a[..], n, endch, was, cursor, target, end, s);
        }
        s, c, ok := ParsePiValue(s, c, declaration, target, end, before, was);
      } else {
        Throw(BadPi, s);
      }
    }

    /** The node may have a value now, and nothing else is new. */
    ghost predicate OnlyValueNew(was: seq<NodeRec>, node: nat)
      requires node < |was|
      reads this
    {
      |nodes| == |was| && nodes == was[node := was[node].(value := nodes[node].value)]
    }

    /** The value of a processing instruction; of a declaration, only the end is looked for. */
    method ParsePiValue(start: nat, node: nat, declaration: bool, ghost target: nat, ghost end: nat,
                        ghost before: string, ghost was: seq<NodeRec>)
      returns (s: nat, c: nat, ok: bool)
      requires Valid() && target < start <= n && 0 < node == |nodes| - 1 && Ordered(target + 1) && IsCursor(nodes, node)
      requires nodes[node].kind == if declaration then KDeclaration else KPi
      requires nodes[node].name >= 0 && nodes[node].parent >= 0
      requires p.Plan? ==> start == end + 1 && PiNamed(node, target, end, before, was) && before[end] == ' '
      modifies this, a
      ensures Valid() && (!ok ==> status != StatusOk)
      ensures ok ==> start <= s <= n && c < |nodes| && status == old(status)
      ensures ok && nodes[c].kind == KDeclaration ==> 0 < c
      ensures if ok then Ordered(s) && IsCursor(nodes, c) else Ordered(n + 1)
      ensures p.Plan? ==> ok && BehindQuestion(c, s)
      ensures ok ==> OnlyValueNew(old(nodes), node) && c == if declaration then node else old(nodes)[node].parent
    {
      hide Sound, Tidy, IsCursor, AtQuestion, Writable, At, InTag, BehindQuestion, HasAttributes, Cut, EndFits;
      SoundDocument(nodes, n);
      ok, c := false, node;
      Further(target + 1, n + 1);
      ghost var cut := a[..];
      s := ScanForPiEnd(start);
      ghost var read := was + [NodeRec(KPi, nodes[c].parent, target, start, [])];
      if p.Plan? && declaration {
        CutSlash(cut, s);
        DeclaredRead(p, before, cut, cut[s := '/'], n, endch, was, nodes, nodes[c].parent, target, end, s);
      } else if p.Plan? {
        CutZero(cut, s);
        PiRead(p, before, cut, cut[s := '\0'], n, endch, was, read, nodes[c].parent, target, end, s);
      }
      if a[s] == '\0' {
        Throw(BadPi, s);
        return;
      }
      ok := true;
      if declaration {
        // the attributes are read as those of an element, and the slash ends it
        a[s] := '/';
        if p.Plan? {
          DeclarationOpens(c, start, cut[s := '/'], nodes);
        }
        s := start;
        Further(target + 1, s);
      } else {
        TidySame(nodes, c, target + 1, late, o.declaration, nodes[c].(value := start));
        SetValue(c, start);
        TidyPop(nodes, c, target + 1, late, o.declaration);
        c := PopNode(c);
        a[s] := '\0';
        ghost var after := cut[s := '\0'];
        s := s + 1;
        Further(target + 1, s);
        if a[s] == '>' {
          Further(s, s + 1);
          s := s + 1;
        }
        if p.Plan? {
          PiIsRead(c, s, after, read);
        }
      }
    }

    /** PUGI__SCANFOR(s[0] == '?' && PUGI__ENDSWITH(s[1], '>')). */
    method ScanForPiEnd(start: nat) returns (s: nat)
      requires Valid() && start <= n
      ensures start <= s <= n && (a[s] == '\0' || (a[s] == '?' && s < n && EndsWith(a[s + 1], '>')))
      ensures forall i :: start <= i < s ==> a[i] != '\0' && !(a[i] == '?' && EndsWith(a[i + 1], '>'))
    {
      hide Sound, PlanFits, EndFits;
      s := start;
      while a[s] != '\0' && !(a[s] == '?' && EndsWith(a[s + 1], '>'))
        invariant start <= s <= n
        invariant forall i :: start <= i < s ==> a[i] != '\0' && !(a[i] == '?' && EndsWith(a[i + 1], '>'))
        decreases n - s
      {
        s := s + 1;
      }
    }

    /** The element that the tag at start closes: its own one, or the one that is open, if it has its name. */
    ghost function ClosedBy(b: string, was: seq<NodeRec>, start: nat, cursor: nat): set<nat>
      requires start <= n < |b| && b[n] == '\0' && cursor < |was|
    {
      if IsStartSymbol(b[start]) then
        var tag := StartTagAt(b, n, endch, start, ValueSpaces(), o.escapes);
        if tag.Some? && tag.value.closed then {|was|} else {}
      else if b[start] == '/' && start < n && EndTagFits(b, start, was[cursor].name) then {cursor} else {}
    }

    lemma ElementOpens(was: seq<NodeRec>, cursor: nat, start: nat, name: string, attributes: seq<Attribute>,
                       closed: set<nat>)
      requires OpenOnPath(was, closed, cursor) && cursor < |was| && ElementRead(was, cursor, start, name, attributes)
      ensures OpenOnPath(nodes, closed, |was|) && OpenOnPath(nodes, closed + {|was|}, cursor)
    {
      hide AttrMatches, Stored, OpenOnPath;
      OneOpened(was, nodes, closed, cursor);
    }

    lemma QuestionOpens(was: seq<NodeRec>, cursor: nat, kind: Kind, target: nat, c: nat, closed: set<nat>)
      requires OpenOnPath(was, closed, cursor) && cursor < |was| && QuestionRead(was, cursor, kind, target, c)
      requires IsQuestion(kind)
      ensures OpenOnPath(nodes, closed, c)
    {
      hide OpenOnPath;
      assert forall i :: 0 <= i < |was| ==> nodes[i] == nodes[..|was|][i];
      OneOpened(was, nodes, closed, cursor);
      StillOpen(was, nodes, closed, cursor);
    }

    /** A declaration is closed by its own tag, and is no element. */
    lemma DeclarationCloses(was: seq<NodeRec>, cursor: nat, attributes: seq<Attribute>, closed: set<nat>)
      requires OpenOnPath(was, closed, cursor) && cursor < |was| && was[cursor].kind == KDeclaration
      requires TookAttributes(was, cursor, attributes, n + 1)
      ensures OpenOnPath(nodes, closed, cursor)
      ensures 0 <= was[cursor].parent < cursor ==> OpenOnPath(nodes, closed, was[cursor].parent)
    {
      hide AttrMatches, OpenOnPath;
      StillOpen(was, nodes, closed, cursor);
      if 0 <= was[cursor].parent < cursor {
        OneClosed(nodes, closed, cursor);
      }
    }

    /** A processing instruction or declaration, with the attributes of a declaration that is open. */
    method ParseQuestionTag(start: nat, cursor: nat, ghost closed: set<nat>) returns (s: nat, c: nat, ok: bool)
      requires Valid() && start < n && cursor < |nodes| && a[start] == '?'
      requires Ordered(start) && IsCursor(nodes, cursor) && OpenOnPath(nodes, closed, cursor)
      requires p.Plan? ==> QuestionNext(cursor) && AtTag(p, a[..], n, endch, nodes, cursor, start)
      modifies this, a
      ensures Valid() && (!ok ==> status != StatusOk)
      ensures ok ==> start <= s <= n && c < |nodes| && status == old(status)
      ensures if ok then Ordered(s) && IsCursor(nodes, c) else Ordered(n + 1)
      ensures p.Plan? ==> ok && At(p, a[..], n, endch, nodes, c, s)
      ensures ok ==> OpenOnPath(nodes, closed, c)
    {
      hide Sound, At, AtTag, Writable, Tidy, IsCursor, InTag, HasAttributes, EndFits, OpenOnPath, QuestionRead, Took,
        KindOfQuestion, TagAt;
      ghost var was, kind := nodes, KindOfQuestion(a[..], start);
      s, c, ok := ParseQuestion(start, cursor);
      if ok && IsKept(kind, o) {
        QuestionOpens(was, cursor, kind, start + 1, c, closed);
      }
      if ok && nodes[c].kind == KDeclaration && c > 0 {
        SoundParent(nodes, n, c);
        ghost var with, at, tag := nodes, c, TagAt(a[..], n, endch, s, ValueSpaces(), o.escapes);
        s, c, ok := ParseAttributes(s, c);
        if ok {
          DeclarationCloses(with, at, tag.value.attributes, closed);
        }
      }
    }

    /** LOC_TAG: behind a <. */
    method ParseTag(start: nat, cursor: nat, ghost closed: set<nat>)
      returns (s: nat, c: nat, ok: bool, ghost closed': set<nat>)
      requires Valid() && 1 <= start <= n && cursor < |nodes|
      requires Ordered(start) && IsCursor(nodes, cursor) && OpenOnPath(nodes, closed, cursor)
      requires p.Plan? ==> AtTag(p, a[..], n, endch, nodes, cursor, start)
      modifies this, a
      ensures Valid() && (!ok ==> status != StatusOk)
      ensures ok ==> start <= s <= n && c < |nodes| && status == old(status)
      ensures if ok then OrderedAt(s) && IsCursor(nodes, c) else Ordered(n + 1)
      ensures p.Plan? ==> ok && At(p, a[..], n, endch, nodes, c, s)
      ensures closed' == closed + ClosedBy(old(a[..]), old(nodes), start, cursor)
      ensures ok ==> OpenOnPath(nodes, closed', c)
    {
      hide Sound, At, AtTag, Writable, Tidy, IsCursor, InTag, HasAttributes, EndFits, OpenOnPath, ElementRead,
        QuestionRead, Took, IsString, BehindName, EndTagEnd, StartTagAt, TagAt, NameFrom, NoNewElements;
      s, c, ok := start, cursor, false;
      ghost var was := nodes;
      closed' := closed + ClosedBy(a[..], nodes, start, cursor);
      if p.Plan? {
        TagStarts(p, a[..], n, endch, nodes, cursor, start);
      }
      if IsStartSymbol(a[s]) {
        ghost var name, tag := NameFrom(a[..], n, start), StartTagAt(a[..], n, endch, start, ValueSpaces(), o.escapes);
        s, c, ok := ParseElement(s, cursor);
        if ok {
          ElementOpens(was, cursor, start, name, tag.value.attributes, closed);
          assert closed' == if tag.value.closed then closed + {|was|} else closed;
        }
      } else if a[s] == '/' {
        SoundNode(nodes, n, cursor);
        s, c, ok := ParseEndTag(s, cursor);
        if ok {
          OneClosed(nodes, closed, cursor);
        }
      } else if a[s] == '?' {
        assert closed' == closed;
        s, c, ok := ParseQuestionTag(s, cursor, closed);
      } else if a[s] == '!' {
        assert closed' == closed;
        s, c, ok := ParseExclamation(s, cursor);
        if ok {
          StillOpen(was, nodes, closed, cursor);
        }
      } else {
        Further(start, n + 1);
        Throw(if a[s] == '\0' && endch == '?' then BadPi else UnrecognizedTag, s);
      }
    }

    lemma TidyEnd(s: nat)
      requires OrderedAt(s)
      ensures Preorder(nodes) && HaveKeys(nodes) && (KeysAscend(nodes) <==> !late) && (late ==> o.declaration)
    {
      TidyParts(nodes, if Ordered(s) then s else s + 1, late, o.declaration);
      hide Tidy;
    }

    /** Character data makes no elements. */
    lemma TextMakesNone(before: string, was: seq<NodeRec>, cursor: nat, from: nat, stop: nat)
      requires from <= stop < |before| && cursor < |was| && (nodes == was || TextKept(before, was, cursor, from, stop))
      ensures NoNewElements(was, nodes)
    {
      hide PcdataText, Stores;
    }

    /** parse_tree: token by token, until the text ends; at the end only the root may be open, and no element is. */
    method ParseTree(start: nat) returns (ok: bool, ghost closed: set<nat>)
      requires Valid() && start <= n && status == StatusOk
      requires Ordered(start) && IsCursor(nodes, 0) && OpenOnPath(nodes, {}, 0)
      requires p.Plan? ==> At(p, a[..], n, endch, nodes, 0, start)
      modifies this, a
      ensures Valid() && (ok <==> status == StatusOk)
      ensures Sound(nodes, n) && Preorder(nodes) && HaveKeys(nodes) && (KeysAscend(nodes) <==> !late)
      ensures late ==> o.declaration
      ensures p.Plan? ==> ok && DocumentRead(p, a[..], n, endch, nodes)
      ensures ok ==> forall i :: 0 <= i < |nodes| && nodes[i].kind == KElement ==> i in closed
    {
      hide Sound, At, AtTag, Writable, AllMatch, Tidy, IsCursor, DocumentRead, EndFits, OpenOnPath, TextKept,
        KeepsSpace, TextEnd, SpaceEnd, ClosedBy, NoNewElements, AllSpace, Preorder, HaveKeys, KeysAscend;
      var s: nat, c: nat := start, 0;
      closed := {};
      SoundRoot(nodes, n);
      while a[s] != '\0'
        invariant Valid() && start <= s <= n && c < |nodes| && status == StatusOk
        invariant OrderedAt(s) && IsCursor(nodes, c) && OpenOnPath(nodes, closed, c)
        invariant p.Plan? ==> At(p, a[..], n, endch, nodes, c, s) || AtEnd(c, s)
        decreases n - s
      {
        if a[s] == '<' {
          if p.Plan? {
            TagBegins(p, a[..], n, endch, nodes, c, s);
          }
          s := s + 1;
          Further(s - 1, s);
        } else {
          var next: Next;
          s, next := ReadPcdata(s, c, closed);
          if next == NextToken {
            continue;
          } else if next == NextEnd {
            break;
          }
        }
        s, c, ok, closed := ParseTag(s, c, closed);
        if !ok {
          TidyParts(nodes, n + 1, late, o.declaration);
          return;
        }
      }
      TidyEnd(s);
      if p.Plan? && At(p, a[..], n, endch, nodes, c, s) {
        DocumentEnds(p, a[..], n, endch, nodes, c, s);
      }
      if c != 0 {
        Throw(EndElementMismatch, s);
        return false, closed;
      }
      SoundDocument(nodes, n);
      AllAreClosed(nodes, closed);
      ok := true;
    }

    /** ParsePcdata, with what it does to the open elements. */
    method ReadPcdata(start: nat, cursor: nat, ghost closed: set<nat>) returns (s: nat, next: Next)
      requires Valid() && start < n && cursor < |nodes| && a[start] != '<' && a[start] != '\0'
      requires Ordered(start) && IsCursor(nodes, cursor) && OpenOnPath(nodes, closed, cursor)
      requires p.Plan? ==> At(p, a[..], n, endch, nodes, cursor, start)
      modifies this`nodes, a
      ensures Valid() && start < s <= n && cursor < |nodes|
      ensures Ordered(s) && IsCursor(nodes, cursor) && OpenOnPath(nodes, closed, cursor)
      ensures p.Plan? ==> BehindText(cursor, s, next)
    {
      hide Sound, At, AtTag, Writable, Tidy, IsCursor, DocumentRead, EndFits, OpenOnPath, TextKept, KeepsSpace, TextEnd,
        SpaceEnd, AllSpace, NoNewElements;
      ghost var b, was := a[..], nodes;
      ghost var from, stop := if o.trimPcdata then SpaceEnd(b, n, start) else start, TextEnd(b, n, start);
      SpaceThenText(b, n, start, SpaceEnd(b, n, start));
      s, next := ParsePcdata(start, cursor);
      TextMakesNone(b, was, cursor, from, stop);
      StillOpen(was, nodes, closed, cursor);
    }
  }
}
