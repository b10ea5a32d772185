/**
 The normalization of attribute values in section 3.3.3 of XML 1.0, and exactly when the parser's own agrees with it.
 */
module XmlNormalization {

  import opened Common
  import opened XmlText
  import opened XmlDecode

  /**
   The value of an attribute whose type is not CDATA: expand references and turn every white space character that is not
   from a reference into a space, then drop spaces at both ends and collapse the others.
   */
  function StandardValue(s: string, escapes: bool): string {
    Single(Decoded(s, escapes, ToSpace), false, true)
  }

  // The condition

  /** Nothing is left but white space and references to white space. */
  predicate WhiteTail(s: string, escapes: bool)
    decreases |s|
  {
    s == "" || (
      var step := Step(s, escapes, Normalize);
      IsSpace(step.text[0]) && WhiteTail(s[step.length..], escapes))
  }

  /** Nothing is left but white space and references to a space. */
  predicate SpaceTail(s: string, escapes: bool)
    decreases |s|
  {
    s == "" || (
      var step := Step(s, escapes, Normalize);
      step.text == " " && SpaceTail(s[step.length..], escapes))
  }

  /**
   No reference to a space comes first, after a space or before one, up to the white space at the end; and no
   reference there is to a tab or a line end.
   */
  predicate Harmless(s: string, escapes: bool, after: bool)
    decreases |s|
  {
    if WhiteTail(s, escapes) then SpaceTail(s, escapes)
    else
      var step := Step(s, escapes, Normalize);
      (step.text == " " ==> !after) && Harmless(s[step.length..], escapes, step.text == " ")
  }

  // One step

  /** A space, or characters without a space in them that are white only if it is one. */
  predicate Piece(w: string) {
    w == " " || (w != "" && ' ' !in w && (|w| == 1 || !IsSpace(w[0])) && (|w| == 1 || !IsSpace(w[|w| - 1])))
  }

  lemma Utf8Piece(v: nat)
    ensures Piece(Utf8(v))
  {
    var u := Utf.ScalarUnit(v);
    var bytes := Utf.Encode(Utf.Utf8, u);
    Utf.Encode8Bytes(u);
    assert |bytes| > 1 ==> forall i :: 0 <= i < |bytes| ==> bytes[i] >= 0x80;
  }

  lemma NumberPiece(s: string, skip: nat, hex: bool)
    requires skip <= |s|
    ensures Number(s, skip, hex).Some? ==> Piece(Number(s, skip, hex).value.text)
  {
    var k := DigitsEnd(s, skip, hex);
    if k < |s| {
      Utf8Piece(Wrap32(Value(s[skip..k], hex)));
    }
  }

  lemma ReferencePiece(s: string)
    ensures ReferenceAt(s).Some? ==> Piece(ReferenceAt(s).value.text)
  {
    hide Number;
    if "&#x" <= s {
      NumberPiece(s, 3, true);
    } else if "&#" <= s {
      NumberPiece(s, 2, false);
    }
  }

  lemma StepPiece(s: string, escapes: bool)
    requires s != ""
    ensures Piece(Step(s, escapes, Normalize).text)
  {
    hide ReferenceAt;
    ReferencePiece(s);
  }

  lemma StepOfSpace(s: string, escapes: bool)
    requires s != "" && IsSpace(s[0])
    ensures Step(s, escapes, ToSpace) == Reference(" ", LineEnd(s))
    ensures Step(s, escapes, Normalize) == Reference(" ", SpaceRun(s)) && SpaceRun(s) > 0
  {
  }

  lemma StepOfOther(s: string, escapes: bool)
    requires s != "" && !IsSpace(s[0])
    ensures Step(s, escapes, ToSpace) == Step(s, escapes, Normalize)
  {
    hide ReferenceAt;
  }

  /** A run of white space without its first line end. */
  lemma RunAfter(s: string)
    requires s != "" && IsSpace(s[0])
    ensures SpaceRun(s) == LineEnd(s) + SpaceRun(s[LineEnd(s)..])
  {
    if LineEnd(s) == 2 {
      assert s[1..][1..] == s[2..];
    }
  }

  // What the standard keeps

  lemma SingleSpace(r: string, after: bool)
    ensures Single(" " + r, false, after) ==
      if after || Single(r, false, true) == "" then Single(r, false, true) else " " + Single(r, false, true)
  {
    assert (" " + r)[1..] == r;
  }

  lemma {:induction false} SingleWord(w: string, r: string, after: bool)
    requires w != "" && ' ' !in w
    ensures Single(w + r, false, after) == w + Single(r, false, false)
  {
    assert (w + r)[1..] == w[1..] + r;
    if |w| == 1 {
      assert w[1..] + r == r;
    } else {
      SingleWord(w[1..], r, false);
    }
  }

  lemma {:induction false} NoFirstSpace(t: string)
    ensures Single(t, false, true) == "" || Single(t, false, true)[0] != ' '
  {
    if t != "" {
      NoFirstSpace(t[1..]);
    }
  }

  /** White space that is turned into spaces one by one or all at once comes to the same. */
  lemma {:induction false} SingleSame(s: string, escapes: bool, after: bool)
    ensures Single(Decoded(s, escapes, ToSpace), false, after) == Single(Decoded(s, escapes, Normalize), false, after)
    decreases |s|
  {
    if s != "" {
      hide Single, Decoded, SpaceRun, LineEnd, Step, Piece;
      DecodedStep(s, escapes, ToSpace);
      DecodedStep(s, escapes, Normalize);
      if IsSpace(s[0]) {
        var next, last := s[LineEnd(s)..], s[SpaceRun(s)..];
        StepOfSpace(s, escapes);
        RunAfter(s);
        assert next[SpaceRun(next)..] == last;
        SingleSpace(Decoded(next, escapes, ToSpace), after);
        SingleSpace(Decoded(last, escapes, Normalize), after);
        SingleSame(next, escapes, true);
        RestOfRun(next, escapes);
      } else {
        var rest := s[Step(s, escapes, Normalize).length..];
        StepOfOther(s, escapes);
        SingleSame(rest, escapes, false);
        SingleSame(rest, escapes, true);
        SinglePiece(s, escapes, Decoded(rest, escapes, ToSpace), Decoded(rest, escapes, Normalize), after);
      }
    }
  }

  lemma RestOfRun(s: string, escapes: bool)
    ensures Single(Decoded(s, escapes, Normalize), false, true) ==
      Single(Decoded(s[SpaceRun(s)..], escapes, Normalize), false, true)
  {
    hide Single, Decoded;
    if s != "" && IsSpace(s[0]) {
      StepOfSpace(s, escapes);
      DecodedStep(s, escapes, Normalize);
      SingleSpace(Decoded(s[SpaceRun(s)..], escapes, Normalize), true);
    } else {
      assert s[0..] == s;
    }
  }

  lemma SinglePiece(s: string, escapes: bool, r1: string, r2: string, after: bool)
    requires s != "" && Single(r1, false, false) == Single(r2, false, false)
    requires Single(r1, false, true) == Single(r2, false, true)
    ensures
      var w := Step(s, escapes, Normalize).text;
      Single(w + r1, false, after) == Single(w + r2, false, after)
  {
    hide Single, Step;
    var w := Step(s, escapes, Normalize).text;
    StepPiece(s, escapes);
    if w == " " {
      SingleSpace(r1, after);
      SingleSpace(r2, after);
    } else {
      SingleWord(w, r1, after);
      SingleWord(w, r2, after);
    }
  }

  // What the parser keeps

  lemma {:induction false} TrimEndIs(s: string, k: nat, e: nat)
    requires e <= k <= |s| && (forall i :: e <= i < k ==> IsSpace(s[i])) && (e > 0 ==> !IsSpace(s[e - 1]))
    ensures TrimEnd(s, k) == e
  {
    hide IsSpace;
    if k > e {
      TrimEndIs(s, k - 1, e);
    }
  }

  /** Of two texts one behind the other, the second loses its white space first. */
  lemma TrimSecond(w: string, r: string)
    requires TrimRight(r) != ""
    ensures TrimRight(w + r) == w + TrimRight(r)
  {
    var t, k := w + r, TrimEnd(r, |r|);
    hide TrimEnd, IsSpace;
    assert forall j :: |w| <= j < |t| ==> t[j] == r[j - |w|];
    TrimEndIs(t, |t|, |w| + k);
    assert t[..|w| + k] == w + r[..k];
  }

  lemma TrimFirst(w: string, r: string)
    requires TrimRight(r) == "" && w != ""
    ensures !IsSpace(w[|w| - 1]) ==> TrimRight(w + r) == w
    ensures (forall i :: 0 <= i < |w| ==> IsSpace(w[i])) ==> TrimRight(w + r) == ""
  {
    var t := w + r;
    hide TrimEnd, IsSpace;
    assert TrimEnd(r, |r|) == 0;
    assert forall j :: |w| <= j < |t| ==> t[j] == r[j - |w|];
    assert forall j :: 0 <= j < |w| ==> t[j] == w[j];
    if !IsSpace(w[|w| - 1]) {
      TrimEndIs(t, |t|, |w|);
      assert t[..|w|] == w;
    } else if forall i :: 0 <= i < |w| ==> IsSpace(w[i]) {
      TrimEndIs(t, |t|, 0);
    }
  }

  lemma TrimJoin(w: string, r: string)
    requires w != ""
    ensures TrimRight(r) != "" ==> TrimRight(w + r) == w + TrimRight(r)
    ensures TrimRight(r) == "" && !IsSpace(w[|w| - 1]) ==> TrimRight(w + r) == w
    ensures TrimRight(r) == "" && (forall i :: 0 <= i < |w| ==> IsSpace(w[i])) ==> TrimRight(w + r) == ""
  {
    hide TrimRight, IsSpace;
    if TrimRight(r) != "" {
      TrimSecond(w, r);
    } else {
      TrimFirst(w, r);
    }
  }

  /** The two tails are what is trimmed, here and there. */
  lemma {:induction false} Tails(s: string, escapes: bool, after: bool)
    ensures WhiteTail(s, escapes) <==> TrimRight(Decoded(s, escapes, Normalize)) == ""
    ensures SpaceTail(s, escapes) <==> Single(Decoded(s, escapes, Normalize), false, after) == ""
    ensures SpaceTail(s, escapes) ==> WhiteTail(s, escapes)
    decreases |s|
  {
    if s != "" {
      hide Single, Decoded, Step, TrimRight;
      var step := Step(s, escapes, Normalize);
      var rest := Decoded(s[step.length..], escapes, Normalize);
      DecodedStep(s, escapes, Normalize);
      StepPiece(s, escapes);
      TrimJoin(step.text, rest);
      if step.text == " " {
        Tails(s[step.length..], escapes, true);
        SingleSpace(rest, after);
      } else {
        Tails(s[step.length..], escapes, false);
        SingleWord(step.text, rest, after);
      }
    }
  }

  lemma Cancel(w: string, x: string, y: string)
    ensures w + x == w + y <==> x == y
  {
    assert (w + x)[|w|..] == x && (w + y)[|w|..] == y;
  }

  lemma {:induction false} SameExactly(s: string, escapes: bool, after: bool)
    ensures
      var t := Decoded(s, escapes, Normalize);
      TrimRight(t) == Single(t, false, after) <==> Harmless(s, escapes, after)
    decreases |s|
  {
    hide Single, Decoded, Step, TrimRight, SpaceTail;
    Tails(s, escapes, after);
    if !WhiteTail(s, escapes) {
      var step := Step(s, escapes, Normalize);
      var w, rest := step.text, Decoded(s[step.length..], escapes, Normalize);
      DecodedStep(s, escapes, Normalize);
      StepPiece(s, escapes);
      Tails(s[step.length..], escapes, w == " ");
      SameExactly(s[step.length..], escapes, w == " ");
      TrimJoin(w, rest);
      assert TrimRight(w + rest) == w + TrimRight(rest);
      if w == " " {
        SingleSpace(rest, after);
        NoFirstSpace(rest);
        assert (w + TrimRight(rest))[0] == ' ';
      } else {
        SingleWord(w, rest, after);
      }
      Cancel(w, TrimRight(rest), Single(rest, false, w == " "));
    }
  }

  /** The parser's normalization is that of section 3.3.3 exactly for the values in which references do no harm. */
  lemma NormalizationAgrees(s: string, escapes: bool)
    ensures
      AttributeValue(s, Normalize, escapes) == StandardValue(s, escapes) <==>
      Harmless(s[SpaceRun(s)..], escapes, true)
  {
    hide Single, Decoded, TrimRight, Harmless;
    SingleSame(s, escapes, true);
    RestOfRun(s, escapes);
    SameExactly(s[SpaceRun(s)..], escapes, true);
  }

  /** No reference in the text stands for a white space character. */
  predicate ReferencesVisible(s: string, escapes: bool)
    decreases |s|
  {
    s == "" || (
      && (escapes && s[0] == '&' && ReferenceAt(s).Some? ==> !IsSpace(ReferenceAt(s).value.text[0]))
      && ReferencesVisible(s[Step(s, escapes, Normalize).length..], escapes))
  }

  lemma {:induction false} VisibleIsHarmless(s: string, escapes: bool, after: bool)
    requires ReferencesVisible(s, escapes) && (after && s != "" ==> !IsSpace(s[0]))
    ensures Harmless(s, escapes, after)
    ensures WhiteTail(s, escapes) ==> SpaceTail(s, escapes)
    decreases |s|
  {
    if s != "" {
      hide ReferenceAt;
      var step := Step(s, escapes, Normalize);
      VisibleIsHarmless(s[step.length..], escapes, step.text == " ");
    }
  }

  /** So it is for every value without references to white space. */
  lemma VisibleReferencesAgree(s: string, escapes: bool)
    requires ReferencesVisible(s[SpaceRun(s)..], escapes)
    ensures AttributeValue(s, Normalize, escapes) == StandardValue(s, escapes)
  {
    hide AttributeValue, StandardValue, Harmless, ReferencesVisible;
    VisibleIsHarmless(s[SpaceRun(s)..], escapes, true);
    NormalizationAgrees(s, escapes);
  }

  lemma SpaceReference(spaces: Spaces)
    ensures Decoded("&#32;a", true, spaces) == " a"
  {
    var s := "&#32;a";
    assert ReferenceAt(s) == Some(Reference(" ", 5)) by {
      assert s[2..4] == "32" && "32"[..1] == "3" && "3"[..0] == "";
      assert DigitsEnd(s, 4, false) == 4 && DigitsEnd(s, 3, false) == 4 && DigitsEnd(s, 2, false) == 4;
      assert Value("3", false) == 3 && Value("32", false) == 32;
    }
    hide ReferenceAt;
    assert Step(s, true, spaces) == Reference(" ", 5) && s[5..] == "a";
    assert Step("a", true, spaces) == Reference("a", 1) && "a"[1..] == "";
    assert Decoded("a", true, spaces) == "a";
  }

  /** A space from a reference is trimmed in section 3.3.3 and not by the parser. */
  lemma ReferencedSpaceDiffers()
    ensures AttributeValue("&#32;a", Normalize, true) == " a" && StandardValue("&#32;a", true) == "a"
  {
    SpaceReference(Normalize);
    SpaceReference(ToSpace);
    KeepsSpace("&#32;a");
    assert Single(" a", false, true) == "a" by {
      assert " a"[1..] == "a" && "a"[1..] == "";
    }
  }

  lemma KeepsSpace(s: string)
    requires s != "" && !IsSpace(s[0]) && Decoded(s, true, Normalize) == " a"
    ensures AttributeValue(s, Normalize, true) == " a"
  {
    hide Decoded;
    assert TrimLeft(s) == s;
    assert TrimEnd(" a", 2) == 2;
  }
}
