/**
 What the tag parser accepts on any text: names, white space, character data and the attributes of a start tag, read
 from a text that does not change.  The text ends at n, where the parser has put a zero in the place of endch.
 */
module XmlTokens {

  import opened Common
  import opened XmlTree
  import opened XmlText
  import opened XmlDecode
  import opened XmlScript
  import opened XmlSpacing

  // The characters of names (section 2.3 of XML 1.0, with every byte above 127)

  /** The letters, digits and blanks, one by one. */
  datatype CharacterClass = UpperCase | LowerCase | Digits | Blanks

  function Members(k: CharacterClass): string {
    match k
    case UpperCase => "ABCDEFGHIJKLMNOPQRSTUVWXYZ"
    case LowerCase => "abcdefghijklmnopqrstuvwxyz"
    case Digits => "0123456789"
    case Blanks => " \t\n\r"
  }

  /** A name begins with a letter, _, a colon or a byte above 127; digits, hyphens and periods may follow. */
  lemma NameCharacters(c: char)
    ensures IsStartSymbol(c) <==>
      c in Members(UpperCase) || c in Members(LowerCase) || c == '_' || c == ':' || c as int > 127
    ensures IsSymbol(c) <==> IsStartSymbol(c) || c in Members(Digits) || c == '-' || c == '.'
    ensures IsSpace(c) <==> c in Members(Blanks)
  {
    InRow(UpperCase, 'A', c);
    InRow(LowerCase, 'a', c);
    InRow(Digits, '0', c);
    BlanksAre(c);
    hide Members;
  }

  lemma BlanksAre(c: char)
    ensures IsSpace(c) <==> c in Members(Blanks)
  {
    var m := Members(Blanks);
    assert m[0] == ' ' && m[1] == '\t' && m[2] == '\n' && m[3] == '\r';
  }

  lemma InRow(k: CharacterClass, first: char, c: char)
    requires (k == UpperCase && first == 'A') || (k == LowerCase && first == 'a') || (k == Digits && first == '0')
    ensures c in Members(k) <==> first as int <= c as int < first as int + |Members(k)|
    ensures |Members(k)| == if k == Digits then 10 else 26
  {
    forall i: nat | i < |Members(k)|
      ensures Members(k)[i] as int == first as int + i
    {
      RowAt(k, first, i);
    }
    if first as int <= c as int < first as int + |Members(k)| {
      assert Members(k)[c as int - first as int] == c;
    }
  }

  lemma RowAt(k: CharacterClass, first: char, i: nat)
    requires (k == UpperCase && first == 'A') || (k == LowerCase && first == 'a') || (k == Digits && first == '0')
    requires i < |Members(k)|
    ensures Members(k)[i] as int == first as int + i
  {
    match k
    case UpperCase => UpperAt(i);
    case LowerCase => LowerAt(i);
    case Digits =>
  }

  lemma UpperAt(i: nat)
    requires i < 26
    ensures Members(UpperCase)[i] as int == 'A' as int + i
  {
  }

  lemma LowerAt(i: nat)
    requires i < 26
    ensures Members(LowerCase)[i] as int == 'a' as int + i
  {
  }

  /** Where character data ends. */
  ghost function TextEnd(buf: string, n: nat, s: nat): (r: nat)
    requires s <= n < |buf| && buf[n] == '\0'
    ensures s <= r <= n && (buf[r] == '<' || buf[r] == '\0')
    ensures forall i :: s <= i < r ==> buf[i] != '<' && buf[i] != '\0'
    decreases n - s
  {
    if buf[s] == '<' || buf[s] == '\0' then s else TextEnd(buf, n, s + 1)
  }

  /** The longest name that begins at s. */
  ghost function NameFrom(buf: string, n: nat, s: nat): (name: string)
    requires s <= n < |buf| && buf[n] == '\0'
    ensures s + |name| <= n && buf[s..s + |name|] == name && !IsSymbol(buf[s + |name|])
    ensures forall i :: 0 <= i < |name| ==> IsSymbol(name[i])
    decreases n - s
  {
    if IsSymbol(buf[s]) then [buf[s]] + NameFrom(buf, n, s + 1) else ""
  }

  lemma {:induction false} NameScanned(buf: string, n: nat, s: nat, e: nat)
    requires s <= e <= n < |buf| && buf[n] == '\0' && !IsSymbol(buf[e]) && forall i :: s <= i < e ==> IsSymbol(buf[i])
    ensures NameFrom(buf, n, s) == buf[s..e]
    decreases e - s
  {
    if s < e {
      NameScanned(buf, n, s + 1, e);
      assert buf[s..e] == [buf[s]] + buf[s + 1..e];
    }
  }

  /** Where white space ends. */
  ghost function SpaceEnd(buf: string, n: nat, s: nat): (r: nat)
    requires s <= n < |buf| && buf[n] == '\0'
    ensures s <= r <= n && !IsSpace(buf[r]) && forall i :: s <= i < r ==> IsSpace(buf[i])
    decreases n - s
  {
    if IsSpace(buf[s]) then SpaceEnd(buf, n, s + 1) else s
  }

  lemma SpaceScanned(buf: string, n: nat, start: nat, s: nat)
    requires start <= s <= n < |buf| && buf[n] == '\0' && !IsSpace(buf[s])
    requires forall i :: start <= i < s ==> IsSpace(buf[i])
    ensures SpaceEnd(buf, n, start) == s
  {
  }

  /** Where the white space behind a name ends. */
  ghost function BehindName(buf: string, n: nat, s: nat): (r: nat)
    requires s <= n < |buf| && buf[n] == '\0'
    ensures s <= r <= n
  {
    SpaceEnd(buf, n, s + |NameFrom(buf, n, s)|)
  }

  predicate BeginsWith(buf: string, off: int, text: string) {
    0 <= off && off + |text| <= |buf| && buf[off..off + |text|] == text
  }

  /** The zero-terminated string at a place in the buffer. */
  predicate IsString(buf: string, off: int, text: string) {
    BeginsWith(buf, off, text) && off + |text| < |buf| && buf[off + |text|] == '\0'
  }

  lemma StringBegins(buf: string, off: int, text: string)
    ensures IsString(buf, off, text) <==>
      BeginsWith(buf, off, text) && off + |text| < |buf| && buf[off + |text|] == '\0'
  {
  }

  lemma NameDiffers(buf: string, n: nat, mark: nat, from: nat, s: nat)
    requires mark <= s <= n < |buf| && buf[n] == '\0' && IsSymbol(buf[s])
    requires forall i :: mark <= i < s ==> IsSymbol(buf[i])
    requires from + (s - mark) <= n && buf[s] != buf[from + (s - mark)]
    ensures !BeginsWith(buf, from, NameFrom(buf, n, mark))
  {
    NameGoesOn(buf, n, mark, s);
    var tag, k := NameFrom(buf, n, mark), s - mark;
    BeginsAt(buf, mark, tag, k);
    if BeginsWith(buf, from, tag) {
      BeginsAt(buf, from, tag, k);
    }
  }

  lemma BeginsAt(buf: string, off: nat, text: string, k: nat)
    requires k < |text| && BeginsWith(buf, off, text)
    ensures buf[off + k] == text[k]
  {
    assert buf[off..off + |text|][k] == buf[off + k];
  }

  lemma {:induction false} NameGoesOn(buf: string, n: nat, mark: nat, s: nat)
    requires mark <= s <= n < |buf| && buf[n] == '\0' && IsSymbol(buf[s])
    requires forall i :: mark <= i < s ==> IsSymbol(buf[i])
    ensures s < mark + |NameFrom(buf, n, mark)|
    decreases s - mark
  {
    if mark < s {
      NameGoesOn(buf, n, mark + 1, s);
    }
  }

  lemma NameBegins(buf: string, mark: nat, from: nat, s: nat)
    requires mark <= s <= |buf| && from + (s - mark) <= |buf|
    requires forall i :: mark <= i < s ==> buf[i] == buf[i + (from - mark)]
    ensures BeginsWith(buf, from, buf[mark..s])
  {
    var x, y := buf[from..from + (s - mark)], buf[mark..s];
    assert forall i :: 0 <= i < s - mark ==> y[i] == buf[mark + i] == x[i];
  }

  /** Character data is white space if nothing else comes before its end. */
  lemma SpaceThenText(buf: string, n: nat, start: nat, s: nat)
    requires start <= s <= n < |buf| && buf[n] == '\0' && !IsSpace(buf[s])
    requires forall i :: start <= i < s ==> IsSpace(buf[i])
    ensures SpaceEnd(buf, n, start) == s && TextEnd(buf, n, start) == TextEnd(buf, n, s)
    ensures
      var stop := TextEnd(buf, n, start);
      && s <= stop && (stop == s <==> buf[s] == '<' || buf[s] == '\0') && (AllSpace(buf[start..stop]) <==> stop == s)
      && ("</" <= buf[stop..] <==> stop < n && buf[stop] == '<' && buf[stop + 1] == '/')
  {
    TextEndOn(buf, n, start, s);
    var stop := TextEnd(buf, n, start);
    var text, rest := buf[start..stop], buf[stop..];
    assert forall i :: 0 <= i < |text| ==> text[i] == buf[start + i];
    assert |rest| >= 2 ==> rest[0] == buf[stop] && rest[1] == buf[stop + 1];
    if s < stop {
      assert text[s - start] == buf[s];
    }
  }

  lemma {:induction false} TextEndOn(buf: string, n: nat, start: nat, s: nat)
    requires start <= s <= n < |buf| && buf[n] == '\0' && forall i :: start <= i < s ==> IsSpace(buf[i])
    ensures TextEnd(buf, n, start) == TextEnd(buf, n, s)
    decreases s - start
  {
    if start < s {
      TextEndOn(buf, n, start + 1, s);
    }
  }

  /** Where the quote that closes an attribute value is, or the end of the buffer. */
  ghost function QuoteEnd(buf: string, n: nat, s: nat, quote: char): (r: nat)
    requires s <= n < |buf| && buf[n] == '\0'
    ensures r <= n && QuotedTo(buf, s, r, quote)
    decreases n - s
  {
    if buf[s] == quote || buf[s] == '\0' then s else QuoteEnd(buf, n, s + 1, quote)
  }

  /** The name has been cut out: the white space behind it is still there. */
  lemma NameCut(before: string, after: string, n: nat, start: nat, e: nat)
    requires start <= e <= n < |before| && before[n] == '\0' && after == before[e := '\0']
    requires !IsSymbol(before[e]) && forall i :: start <= i < e ==> IsSymbol(before[i])
    ensures NameFrom(before, n, start) == before[start..e] && Stored(after, e + 1, start, before[start..e])
    ensures BehindName(before, n, start) == if IsSpace(before[e]) then SpaceEnd(after, n, e + 1) else e
    ensures after[n] == '\0'
  {
    hide NameFrom, IsSymbol;
    NameScanned(before, n, start, e);
    CutStored(before, after, start, e);
    if IsSpace(before[e]) {
      SpaceSame(before, after, n, e + 1);
    }
  }

  lemma CutStored(before: string, after: string, start: nat, e: nat)
    requires start <= e < |before| && after == before[e := '\0']
    ensures Stored(after, e + 1, start, before[start..e])
  {
    var name := before[start..e];
    assert forall i :: 0 <= i < |name| ==> name[i] == after[start + i];
  }

  // Start tags

  /** Where the equals sign of an attribute should be, whose name begins at s. */
  ghost function EqualsAt(buf: string, n: nat, s: nat): (r: nat)
    requires s <= n < |buf| && buf[n] == '\0'
    ensures s <= r <= n
  {
    BehindName(buf, n, s)
  }

  /** An attribute: a name, an equals sign, and a quoted value, with no name right behind it. */
  ghost predicate IsAttribute(buf: string, n: nat, s: nat)
    requires s <= n < |buf| && buf[n] == '\0'
  {
    var eq := EqualsAt(buf, n, s);
    buf[eq] == '=' && eq < n && IsQuoted(buf, n, SpaceEnd(buf, n, eq + 1))
  }

  ghost predicate IsQuoted(buf: string, n: nat, q: nat)
    requires q <= n < |buf| && buf[n] == '\0'
  {
    && IsQuote(buf[q]) && q < n
    && var stop := QuoteEnd(buf, n, q + 1, buf[q]);
       buf[stop] == buf[q] && !IsStartSymbol(buf[stop + 1])
  }

  /** Where the value of an attribute begins and ends. */
  ghost function ValueAt(buf: string, n: nat, s: nat): (r: (nat, nat))
    requires s <= n < |buf| && buf[n] == '\0' && IsAttribute(buf, n, s)
    ensures s < r.0 <= r.1 < n
  {
    var q := SpaceEnd(buf, n, EqualsAt(buf, n, s) + 1);
    (q + 1, QuoteEnd(buf, n, q + 1, buf[q]))
  }

  ghost function AttributeAt(buf: string, n: nat, s: nat, spaces: Spaces, escapes: bool): Attribute
    requires s <= n < |buf| && buf[n] == '\0' && IsAttribute(buf, n, s)
  {
    var (value, stop) := ValueAt(buf, n, s);
    Attribute(NameFrom(buf, n, s), AttributeValue(buf[value..stop], spaces, escapes))
  }

  lemma ValueInPlace(before: string, after: string, value: nat, stop: nat, text: string)
    requires |before| == |after| && value + |text| <= stop < |before|
    requires after[value..value + |text|] == text && after[value + |text|] == '\0'
    ensures Stored(after, stop + 1, value, text)
  {
    var slice := after[value..value + |text|];
    assert forall i :: 0 <= i < |text| ==> slice[i] == after[value + i];
  }

  /** A value is not longer than what it is read from. */
  lemma ValueShrinks(s: string, spaces: Spaces, escapes: bool)
    ensures |AttributeValue(s, spaces, escapes)| <= |s|
  {
    if spaces == Normalize {
      DecodedShrinks(TrimLeft(s), escapes, Normalize);
    } else {
      DecodedShrinks(s, escapes, spaces);
    }
  }

  /** The attributes of a start tag, where the tag ends, and whether it ends the element. */
  datatype TagRead = TagRead(attributes: seq<Attribute>, end: nat, closed: bool)

  /** The rest of a start tag from s on, if it is one. */
  ghost function TagAt(buf: string, n: nat, endch: char, s: nat, spaces: Spaces, escapes: bool): (r: Option<TagRead>)
    requires s <= n < |buf| && buf[n] == '\0'
    ensures r.Some? ==> s <= r.value.end <= n
    decreases n - s
  {
    var p := SpaceEnd(buf, n, s);
    if IsStartSymbol(buf[p]) then
      if !IsAttribute(buf, n, p) then None
      else
        var rest := TagAt(buf, n, endch, ValueAt(buf, n, p).1 + 1, spaces, escapes);
        if rest.None? then None
        else Some(rest.value.(attributes := [AttributeAt(buf, n, p, spaces, escapes)] + rest.value.attributes))
    else TagEndAt(buf, n, endch, p)
  }

  /** The end of a start tag; the bracket may be the character that was taken out of the text. */
  ghost function TagEndAt(buf: string, n: nat, endch: char, p: nat): (r: Option<TagRead>)
    requires p <= n < |buf| && buf[n] == '\0'
    ensures r.Some? ==> p <= r.value.end <= n
  {
    if buf[p] == '>' then Some(TagRead([], p + 1, false))
    else if buf[p] == '\0' && endch == '>' then Some(TagRead([], p, false))
    else if buf[p] == '/' && buf[p + 1] == '>' then Some(TagRead([], p + 2, true))
    else if buf[p] == '/' && buf[p + 1] == '\0' && endch == '>' then Some(TagRead([], p + 1, true))
    else None
  }

  /** The same tag with attributes in front. */
  ghost function Prepended(done: seq<Attribute>, r: Option<TagRead>): Option<TagRead> {
    if r.None? then None else Some(r.value.(attributes := done + r.value.attributes))
  }

  lemma TagStep(buf: string, n: nat, endch: char, s: nat, spaces: Spaces, escapes: bool, done: seq<Attribute>)
    requires s <= n < |buf| && buf[n] == '\0' && IsStartSymbol(buf[SpaceEnd(buf, n, s)])
    ensures
      var p := SpaceEnd(buf, n, s);
      Prepended(done, TagAt(buf, n, endch, s, spaces, escapes)) ==
      if !IsAttribute(buf, n, p) then None
      else Prepended(done + [AttributeAt(buf, n, p, spaces, escapes)],
                     TagAt(buf, n, endch, ValueAt(buf, n, p).1 + 1, spaces, escapes))
  {
    hide IsAttribute, ValueAt, AttributeAt, SpaceEnd;
    var p := SpaceEnd(buf, n, s);
    if IsAttribute(buf, n, p) {
      var first, rest := AttributeAt(buf, n, p, spaces, escapes),
                         TagAt(buf, n, endch, ValueAt(buf, n, p).1 + 1, spaces, escapes);
      if rest.Some? {
        assert done + ([first] + rest.value.attributes) == done + [first] + rest.value.attributes;
      }
    }
  }

  lemma TagStop(buf: string, n: nat, endch: char, s: nat, spaces: Spaces, escapes: bool, done: seq<Attribute>)
    requires s <= n < |buf| && buf[n] == '\0' && !IsStartSymbol(buf[SpaceEnd(buf, n, s)])
    ensures
      var end := TagEndAt(buf, n, endch, SpaceEnd(buf, n, s));
      && Prepended(done, TagAt(buf, n, endch, s, spaces, escapes)) == Prepended(done, end)
      && (end.Some? ==> Prepended(done, end) == Some(TagRead(done, end.value.end, end.value.closed)))
  {
    hide SpaceEnd, IsStartSymbol;
    var end := TagEndAt(buf, n, endch, SpaceEnd(buf, n, s));
    assert done + [] == done;
  }

  /** Behind white space, an attribute comes next, or the end of the tag. */
  lemma TagGoesOn(buf: string, n: nat, endch: char, s: nat, spaces: Spaces, escapes: bool, done: seq<Attribute>)
    requires s <= n < |buf| && buf[n] == '\0'
    ensures
      var p, tag := SpaceEnd(buf, n, s), Prepended(done, TagAt(buf, n, endch, s, spaces, escapes));
      if IsStartSymbol(buf[p]) then
        if IsAttribute(buf, n, p) then
          tag == Prepended(done + [AttributeAt(buf, n, p, spaces, escapes)],
                           TagAt(buf, n, endch, ValueAt(buf, n, p).1 + 1, spaces, escapes))
        else tag == None
      else
        var end := TagEndAt(buf, n, endch, p);
        tag == if end.None? then None else Some(TagRead(done, end.value.end, end.value.closed))
  {
    hide SpaceEnd, TagAt, IsAttribute, AttributeAt, ValueAt, IsStartSymbol;
    if IsStartSymbol(buf[SpaceEnd(buf, n, s)]) {
      TagStep(buf, n, endch, s, spaces, escapes, done);
    } else {
      TagStop(buf, n, endch, s, spaces, escapes, done);
    }
  }

  lemma SameAtAll(buf: string, n: nat, s: nat)
    requires s <= n < |buf| && buf[n] == '\0'
    ensures SameFrom(buf, buf, n, s)
  {
  }

  lemma NothingPrepended(r: Option<TagRead>)
    ensures Prepended([], r) == r
  {
    if r.Some? {
      assert [] + r.value.attributes == r.value.attributes;
    }
  }

  /** A start tag whose name begins at s; without white space behind the name it has no attributes. */
  ghost function StartTagAt(buf: string, n: nat, endch: char, s: nat, spaces: Spaces, escapes: bool)
    : (r: Option<TagRead>)
    requires s <= n < |buf| && buf[n] == '\0'
    ensures r.Some? ==> s <= r.value.end <= n
  {
    var e := s + |NameFrom(buf, n, s)|;
    if IsSpace(buf[e]) then TagAt(buf, n, endch, e + 1, spaces, escapes) else TagEndAt(buf, n, endch, e)
  }

  // What is read depends only on what has not been read

  ghost predicate SameFrom(buf: string, buf': string, n: nat, s: nat) {
    s <= n < |buf| == |buf'| && buf[n] == buf'[n] == '\0' && forall i :: s <= i <= n ==> buf'[i] == buf[i]
  }

  lemma {:induction false} NameSame(buf: string, buf': string, n: nat, s: nat)
    requires SameFrom(buf, buf', n, s)
    ensures NameFrom(buf', n, s) == NameFrom(buf, n, s)
    decreases n - s
  {
    if IsSymbol(buf[s]) {
      NameSame(buf, buf', n, s + 1);
    }
  }

  lemma {:induction false} SpaceSame(buf: string, buf': string, n: nat, s: nat)
    requires SameFrom(buf, buf', n, s)
    ensures SpaceEnd(buf', n, s) == SpaceEnd(buf, n, s)
    decreases n - s
  {
    if IsSpace(buf[s]) {
      SpaceSame(buf, buf', n, s + 1);
    }
  }

  lemma {:induction false} QuoteSame(buf: string, buf': string, n: nat, s: nat, quote: char)
    requires SameFrom(buf, buf', n, s)
    ensures QuoteEnd(buf', n, s, quote) == QuoteEnd(buf, n, s, quote)
    decreases n - s
  {
    if buf[s] != quote && buf[s] != '\0' {
      QuoteSame(buf, buf', n, s + 1, quote);
    }
  }

  lemma EqualsSame(buf: string, buf': string, n: nat, s: nat)
    requires SameFrom(buf, buf', n, s)
    ensures EqualsAt(buf', n, s) == EqualsAt(buf, n, s)
  {
    hide NameFrom, SpaceEnd, IsSymbol, IsSpace;
    NameSame(buf, buf', n, s);
    SpaceSame(buf, buf', n, s + |NameFrom(buf, n, s)|);
  }

  lemma QuotedSame(buf: string, buf': string, n: nat, q: nat)
    requires SameFrom(buf, buf', n, q)
    ensures IsQuoted(buf', n, q) == IsQuoted(buf, n, q)
    ensures q < n ==> QuoteEnd(buf', n, q + 1, buf'[q]) == QuoteEnd(buf, n, q + 1, buf[q])
  {
    hide QuoteEnd, IsSymbol, IsSpace, IsStartSymbol;
    if q < n {
      QuoteSame(buf, buf', n, q + 1, buf[q]);
    }
  }

  /** The value of an attribute, read when its name has been cut out. */
  lemma QuotedBehind(buf: string, buf': string, n: nat, s: nat, named: nat)
    requires s <= n < |buf| && buf[n] == '\0' && buf[EqualsAt(buf, n, s)] == '=' && named == EqualsAt(buf, n, s) + 1
    requires SameFrom(buf, buf', n, named)
    ensures
      var q := SpaceEnd(buf, n, named);
      && SpaceEnd(buf', n, named) == q && IsQuoted(buf', n, q) == IsQuoted(buf, n, q)
      && (IsQuoted(buf, n, q) ==>
            var stop := QuoteEnd(buf, n, q + 1, buf[q]);
            && buf'[q] == buf[q] && QuoteEnd(buf', n, q + 1, buf[q]) == stop
            && buf'[q + 1..stop] == buf[q + 1..stop])
  {
    hide NameFrom, SpaceEnd, QuoteEnd, EqualsAt, IsQuoted;
    SpaceSame(buf, buf', n, named);
    var q := SpaceEnd(buf, n, named);
    QuotedSame(buf, buf', n, q);
    if IsQuoted(buf, n, q) {
      QuotedBounds(buf, n, q);
      ValueSame(buf, buf', n, named, q + 1, QuoteEnd(buf, n, q + 1, buf[q]));
    }
  }

  lemma QuotedBounds(buf: string, n: nat, q: nat)
    requires q <= n < |buf| && buf[n] == '\0' && IsQuoted(buf, n, q)
    ensures q < n && q + 1 <= QuoteEnd(buf, n, q + 1, buf[q]) < n
  {
  }

  lemma SameBehind(x: string, y: string, z: string, n: nat, s: nat, s': nat)
    requires SameFrom(x, y, n, s) && SameFrom(y, z, n, s') && s <= s'
    ensures SameFrom(x, z, n, s')
  {
  }

  lemma AttributeSame(buf: string, buf': string, n: nat, s: nat, spaces: Spaces, escapes: bool)
    requires SameFrom(buf, buf', n, s)
    ensures IsAttribute(buf', n, s) == IsAttribute(buf, n, s)
    ensures IsAttribute(buf, n, s) ==>
      && ValueAt(buf', n, s) == ValueAt(buf, n, s)
      && AttributeAt(buf', n, s, spaces, escapes) == AttributeAt(buf, n, s, spaces, escapes)
  {
    hide NameFrom, SpaceEnd, QuoteEnd, AttributeValue, IsQuoted, EqualsAt, IsSymbol, IsSpace;
    NameSame(buf, buf', n, s);
    EqualsSame(buf, buf', n, s);
    var eq := EqualsAt(buf, n, s);
    if eq < n {
      SpaceSame(buf, buf', n, eq + 1);
      QuotedSame(buf, buf', n, SpaceEnd(buf, n, eq + 1));
      if IsAttribute(buf, n, s) {
        ValueSame(buf, buf', n, s, ValueAt(buf, n, s).0, ValueAt(buf, n, s).1);
      }
    }
  }

  lemma ValueSame(buf: string, buf': string, n: nat, s: nat, value: nat, stop: nat)
    requires SameFrom(buf, buf', n, s) && s <= value <= stop <= n
    ensures buf'[value..stop] == buf[value..stop]
  {
  }

  lemma {:induction false} TagSame(buf: string, buf': string, n: nat, endch: char, s: nat, spaces: Spaces,
                                   escapes: bool)
    requires SameFrom(buf, buf', n, s)
    ensures TagAt(buf', n, endch, s, spaces, escapes) == TagAt(buf, n, endch, s, spaces, escapes)
    decreases n - s
  {
    hide NameFrom, SpaceEnd, QuoteEnd, AttributeAt, IsAttribute, ValueAt, IsSymbol, IsSpace, IsStartSymbol;
    SpaceSame(buf, buf', n, s);
    var p := SpaceEnd(buf, n, s);
    AttributeSame(buf, buf', n, p, spaces, escapes);
    if IsStartSymbol(buf[p]) && IsAttribute(buf, n, p) {
      TagSame(buf, buf', n, endch, ValueAt(buf, n, p).1 + 1, spaces, escapes);
    }
  }
}
