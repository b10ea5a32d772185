/**
 A text that contains the end mark of a CDATA section is written as several sections, whose contents together are the
 text.
 */
module XmlSections {
  import opened Common
  import opened XmlTree
  import opened XmlPrint
  import opened XmlScript

  /** Where the first end mark behind position i is, or the end of the text. */
  function NextMark(s: string, i: nat): (k: nat)
    requires i <= |s|
    ensures i <= k <= |s| && (k < |s| ==> Breaks(s, k, Cdata)) && forall j :: i <= j < k ==> !Breaks(s, j, Cdata)
    decreases |s| - i
  {
    if i == |s| || Breaks(s, i, Cdata) then i else NextMark(s, i + 1)
  }

  /** The contents of the sections that the text from position i on is written as. */
  function Sections(s: string, i: nat): seq<string>
    requires i <= |s|
    decreases |s| - i
  {
    var k := NextMark(s, i);
    if k == |s| then [s[i..]] else [s[i..k + 2]] + Sections(s, k + 2)
  }

  function SectionText(piece: string, f: Format): string {
    SimpleText(NodeData(KCdata, "", piece, []), f)
  }

  function Texts(pieces: seq<string>, f: Format): (r: seq<string>)
    ensures |r| == |pieces| && forall i :: 0 <= i < |r| ==> r[i] == SectionText(pieces[i], f)
  {
    seq(|pieces|, i requires 0 <= i < |pieces| => SectionText(pieces[i], f))
  }

  /**
   What is written for any text as a CDATA section is what is written for its pieces, each of which is read back as it
   is; there is one piece exactly when the text has no end mark in it.
   */
  lemma SectionsReadBack(s: string, f: Format)
    requires NulFree(s) && '\r' !in s
    ensures
      var pieces := Sections(s, 0);
      && SectionText(s, f) == Joined(Texts(pieces, f)) && Joined(pieces) == s
      && (forall i :: 0 <= i < |pieces| ==> LegalNode(NodeData(KCdata, "", pieces[i], [])))
      && (|pieces| == 1 <==> Unbroken(s, Cdata))
  {
    SectionsJoin(s, 0);
    SectionsWritten(s, 0, f);
    SectionsLegal(s, 0);
    assert s[0..] == s;
  }

  lemma {:induction false} SectionsJoin(s: string, i: nat)
    requires i <= |s|
    ensures Joined(Sections(s, i)) == s[i..]
    decreases |s| - i
  {
    hide Joined;
    var k := NextMark(s, i);
    if k == |s| {
      JoinedFirst(s[i..], []);
      NothingJoined();
      assert [s[i..]] + [] == [s[i..]];
    } else {
      SectionsJoin(s, k + 2);
      JoinedFirst(s[i..k + 2], Sections(s, k + 2));
      assert s[i..k + 2] + s[k + 2..] == s[i..];
    }
  }

  lemma {:induction false} SectionsLegal(s: string, i: nat)
    requires i <= |s| && NulFree(s) && '\r' !in s
    ensures forall j :: 0 <= j < |Sections(s, i)| ==> LegalNode(NodeData(KCdata, "", Sections(s, i)[j], []))
    ensures |Sections(s, i)| >= 1 && (|Sections(s, i)| == 1 <==> forall j :: i <= j < |s| ==> !Breaks(s, j, Cdata))
    decreases |s| - i
  {
    var k := NextMark(s, i);
    if k == |s| {
      PieceUnbroken(s, i, k, |s|);
      assert s[i..|s|] == s[i..];
    } else {
      SectionsLegal(s, k + 2);
      PieceUnbroken(s, i, k, k + 2);
    }
  }

  lemma PieceUnbroken(s: string, i: nat, k: nat, end: nat)
    requires i <= k <= end <= |s| && end <= k + 2 && forall j :: i <= j < k ==> !Breaks(s, j, Cdata)
    ensures Unbroken(s[i..end], Cdata) && (NulFree(s) ==> NulFree(s[i..end])) && ('\r' !in s ==> '\r' !in s[i..end])
  {
    var piece := s[i..end];
    forall j | 0 <= j < |piece|
      ensures !Breaks(piece, j, Cdata)
    {
      assert i + j < k ==> !Breaks(s, i + j, Cdata);
      assert piece[j] == s[i + j];
      assert j + 2 < |piece| ==> piece[j + 1] == s[i + (j + 1)] && piece[j + 2] == s[i + (j + 2)];
    }
  }

  lemma {:induction false} SectionsWritten(s: string, i: nat, f: Format)
    requires i <= |s|
    ensures "<![CDATA[" + Body(s, i, Cdata) + "]]>" == Joined(Texts(Sections(s, i), f))
    decreases |s| - i
  {
    hide Body, Breaks, Break, Joined, Texts, SectionText;
    var k := NextMark(s, i);
    BodyPlain(s, i, k, Cdata);
    if k == |s| {
      PieceWritten(s, i, k, |s|, f);
      BodyEnds(s);
      TextsFirst(s[i..], [], f);
      assert s[i..|s|] == s[i..] && [s[i..]] + [] == [s[i..]] && Body(s, i, Cdata) == s[i..];
    } else {
      BodyBreak(s, k, Cdata);
      PieceWritten(s, i, k, k + 2, f);
      SectionsWritten(s, k + 2, f);
      MarkIs(s, i, k);
      TextsFirst(s[i..k + 2], Sections(s, k + 2), f);
      Reopened(s[i..k], Body(s, k + 2, Cdata));
    }
  }

  lemma Reopened(head: string, rest: string)
    ensures "<![CDATA[" + (head + (Break(Cdata) + rest)) + "]]>" ==
      ("<![CDATA[" + (head + "]]") + "]]>") + ("<![CDATA[" + rest + "]]>")
  {
  }

  lemma TextsFirst(piece: string, rest: seq<string>, f: Format)
    ensures Joined(Texts([piece] + rest, f)) == SectionText(piece, f) + Joined(Texts(rest, f))
    ensures rest == [] ==> Joined(Texts(rest, f)) == ""
  {
    assert Texts([piece] + rest, f) == [SectionText(piece, f)] + Texts(rest, f);
    JoinedFirst(SectionText(piece, f), Texts(rest, f));
  }

  lemma MarkIs(s: string, i: nat, k: nat)
    requires i <= k < |s| && Breaks(s, k, Cdata)
    ensures s[i..k + 2] == s[i..k] + "]]"
  {
  }

  lemma BodyEnds(s: string)
    ensures Body(s, |s|, Cdata) == ""
  {
  }

  lemma PieceWritten(s: string, i: nat, k: nat, end: nat, f: Format)
    requires i <= k <= end <= |s| && end <= k + 2 && forall j :: i <= j < k ==> !Breaks(s, j, Cdata)
    ensures SectionText(s[i..end], f) == "<![CDATA[" + s[i..end] + "]]>"
  {
    hide Body, Breaks;
    PieceUnbroken(s, i, k, end);
    BodyWhole(s[i..end], Cdata);
  }
}
