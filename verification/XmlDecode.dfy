/**
 Decoding of text in place.  Decoded text is never longer than its source, so a
 gap grows between what has been written and what is still to be read; text is
 moved across the gap only when the next gap opens.
 */
module XmlDecode {
  import opened Common
  import opened XmlText

  lemma SameSlice(a: array<char>, before: string, lo: nat, hi: nat)
    requires |before| == a.Length && lo <= hi <= a.Length && forall i :: lo <= i < hi ==> a[i] == before[i]
    ensures a[lo..hi] == before[lo..hi]
  {
  }

  /** memmove, towards the front. */
  method MoveDown(a: array<char>, dst: nat, src: nat, n: nat)
    requires dst <= src && src + n <= a.Length
    modifies a
    ensures a[..] == MovedDown(old(a[..]), dst, src, n)
  {
    hide MovedDown;
    ghost var was := a[..];
    var k := 0;
    MovedStep(was, dst, src, 0);
    while k < n
      invariant k <= n && a[..] == MovedDown(was, dst, src, k)
    {
      MovedStep(was, dst, src, k);
      a[dst + k] := a[src + k];
      k := k + 1;
    }
  }

  lemma MovedStep(s: string, dst: nat, src: nat, k: nat)
    requires dst <= src && src + k <= |s|
    ensures k == 0 ==> MovedDown(s, dst, src, k) == s
    ensures |MovedDown(s, dst, src, k)| == |s|
    ensures src + k < |s| ==>
      var t := MovedDown(s, dst, src, k);
      t[src + k] == s[src + k] && MovedDown(s, dst, src, k + 1) == t[dst + k := s[src + k]]
  {
  }

  ghost function MovedDown(s: string, dst: nat, src: nat, n: nat): string
    requires dst <= src && src + n <= |s|
  {
    s[..dst] + s[src..src + n] + s[dst + n..]
  }

  /** utf8_writer::any, in place. */
  method WriteUtf8(a: array<char>, s: nat, code: nat) returns (r: nat)
    requires s + |Utf8(code)| <= a.Length
    modifies a
    ensures r == s + |Utf8(code)| && a[s..r] == Utf8(code)
    ensures forall i :: 0 <= i < s || r <= i < a.Length ==> a[i] == old(a[i])
  {
    if code < 0x80 {
      a[s] := code as char;
      r := s + 1;
    } else if code < 0x800 {
      a[s] := (0xC0 + code / 0x40) as char;
      a[s + 1] := (0x80 + code % 0x40) as char;
      r := s + 2;
    } else if code < 0x10000 {
      a[s] := (0xE0 + code / 0x1000) as char;
      a[s + 1] := (0x80 + code / 0x40 % 0x40) as char;
      a[s + 2] := (0x80 + code % 0x40) as char;
      r := s + 3;
    } else {
      a[s] := (0xF0 + code / 0x40000 % 0x10) as char;
      a[s + 1] := (0x80 + code / 0x1000 % 0x40) as char;
      a[s + 2] := (0x80 + code / 0x40 % 0x40) as char;
      a[s + 3] := (0x80 + code % 0x40) as char;
      r := s + 4;
    }
  }

  lemma MovedSlices(before: string, begin: nat, dst: nat, src: nat, s: nat)
    requires begin <= dst <= src <= s <= |before|
    ensures
      var after := MovedDown(before, dst, src, s - src);
      && |after| == |before| && after[begin..dst + (s - src)] == before[begin..dst] + before[src..s]
      && forall i :: 0 <= i < begin || s <= i < |before| ==> after[i] == before[i]
  {
  }

  class Gap {
    /** Where the gap ends, or -1 when there is none. */
    var end: int
    var size: nat

    constructor ()
      ensures end == -1 && size == 0
    {
      end, size := -1, 0;
    }

    /** The gap lies inside [begin, s). */
    ghost predicate Valid(a: array<char>, begin: nat, s: nat)
      reads this
    {
      begin <= s <= a.Length && -1 <= end <= s && if end == -1 then size == 0 else begin + size <= end
    }

    /** What has been written from begin on, when reading has come to s. */
    ghost function View(a: array<char>, begin: nat, s: nat): string
      requires Valid(a, begin, s)
      reads this, a
    {
      Head(a, begin, s) + Tail(a, s)
    }

    ghost function Head(a: array<char>, begin: nat, s: nat): string
      requires Valid(a, begin, s)
      reads this, a
    {
      a[begin..if end == -1 then s else end - size]
    }

    ghost function Tail(a: array<char>, s: nat): string
      requires s <= a.Length && -1 <= end <= s
      reads this, a
    {
      if end == -1 then "" else a[end..s]
    }

    /** Move what follows the gap down to its start. */
    method Collapse(a: array<char>, s: nat, ghost begin: nat)
      requires Valid(a, begin, s) && end != -1
      modifies a
      ensures a[begin..s - size] == old(View(a, begin, s))
      ensures forall i :: 0 <= i < begin || s <= i < a.Length ==> a[i] == old(a[i])
    {
      ghost var before := a[..];
      MoveDown(a, end - size, end, s - end);
      MovedSlices(before, begin, end - size, end, s);
      assert a[begin..s - size] == a[..][begin..s - size];
    }

    /** Skip count characters: they become part of the gap. */
    method Push(a: array<char>, s: nat, count: nat, ghost begin: nat) returns (r: nat)
      requires Valid(a, begin, s) && s + count <= a.Length
      modifies this, a
      ensures r == s + count && Valid(a, begin, r) && View(a, begin, r) == old(View(a, begin, s))
      ensures forall i :: 0 <= i < begin || s <= i < a.Length ==> a[i] == old(a[i])
    {
      if end != -1 {
        Collapse(a, s, begin);
      }
      r := s + count;
      end := r;
      size := size + count;
    }

    /** Close the gap and return where the text ends. */
    method Flush(a: array<char>, s: nat, ghost begin: nat) returns (r: nat)
      requires Valid(a, begin, s)
      modifies a
      ensures begin <= r <= s && a[begin..r] == old(View(a, begin, s))
      ensures forall i :: 0 <= i < begin || s <= i < a.Length ==> a[i] == old(a[i])
    {
      if end != -1 {
        Collapse(a, s, begin);
        r := s - size;
      } else {
        r := s;
      }
    }

    /** Write a character at the reading position. */
    method Put(a: array<char>, s: nat, c: char, ghost begin: nat)
      requires Valid(a, begin, s) && s < a.Length
      modifies a
      ensures Valid(a, begin, s + 1) && View(a, begin, s + 1) == old(View(a, begin, s)) + [c]
      ensures forall i :: 0 <= i < begin || s < i < a.Length ==> a[i] == old(a[i])
    {
      ghost var head, tail := Head(a, begin, s), Tail(a, s);
      a[s] := c;
      assert Head(a, begin, s) == head && Tail(a, s) == tail;
      ViewGrows(a, begin, s, s + 1);
    }

    method PutCode(a: array<char>, s: nat, code: nat, ghost begin: nat) returns (r: nat)
      requires Valid(a, begin, s) && s + |Utf8(code)| <= a.Length
      modifies a
      ensures r == s + |Utf8(code)| && Valid(a, begin, r) && View(a, begin, r) == old(View(a, begin, s)) + Utf8(code)
      ensures forall i :: 0 <= i < begin || r <= i < a.Length ==> a[i] == old(a[i])
    {
      hide Utf8;
      ghost var head, tail := Head(a, begin, s), Tail(a, s);
      r := WriteUtf8(a, s, code);
      assert Head(a, begin, s) == head && Tail(a, s) == tail;
      ViewGrows(a, begin, s, r);
    }

    /** Writing at the reading position adds to the text. */
    lemma ViewGrows(a: array<char>, begin: nat, s: nat, r: nat)
      requires Valid(a, begin, s) && s <= r <= a.Length
      ensures Valid(a, begin, r) && View(a, begin, r) == View(a, begin, s) + a[s..r]
    {
      if end == -1 {
        assert a[begin..r] == a[begin..s] + a[s..r];
      } else {
        assert a[end..r] == a[end..s] + a[s..r];
      }
    }
  }

  // References

  /** The characters that end a piece of text; none of them occurs in a reference. */
  predicate IsStop(c: char) {
    c == '\0' || c == '<' || c == '"' || c == '\''
  }

  predicate IsReferenceChar(c: char) {
    c == '#' || '0' <= c <= '9' || 'a' <= c <= 'z' || 'A' <= c <= 'Z'
  }

  lemma NotPrefix(s: string, name: string, i: nat)
    requires i < |name| && (i >= |s| || s[i] != name[i])
    ensures !(name <= s)
  {
  }

  lemma Wrap32Step(v: nat, hex: bool, d: nat)
    ensures Wrap32(Base(hex) * Wrap32(v) + d) == Wrap32(Base(hex) * v + d)
  {
    var q := v / 0x1_0000_0000;
    assert v == 0x1_0000_0000 * q + Wrap32(v);
    Wrap32Shift(Base(hex) * Wrap32(v) + d, Base(hex) * q);
    if hex {
      assert 16 * v + d == 16 * Wrap32(v) + d + 0x1_0000_0000 * (16 * q);
    } else {
      assert 10 * v + d == 10 * Wrap32(v) + d + 0x1_0000_0000 * (10 * q);
    }
  }

  lemma Wrap32Shift(x: nat, k: nat)
    ensures Wrap32(x + 0x1_0000_0000 * k) == Wrap32(x)
  {
  }

  lemma ValueEmpty(hex: bool)
    ensures Wrap32(Value("", hex)) == 0
  {
  }

  lemma ValueStep(t: string, i: nat, k: nat, hex: bool)
    requires i <= k < |t| && forall j :: i <= j <= k ==> IsDigit(t[j], hex)
    ensures Value(t[i..k + 1], hex) == Base(hex) * Value(t[i..k], hex) + DigitValue(t[k])
  {
    assert t[i..k + 1][..k - i] == t[i..k];
  }

  lemma NumberIs(s: string, skip: nat, k: nat, hex: bool)
    requires skip <= k <= |s| && (forall j :: skip <= j < k ==> IsDigit(s[j], hex)) && (k < |s| ==> !IsDigit(s[k], hex))
    ensures
      Number(s, skip, hex) ==
      if k == skip || k == |s| || s[k] != ';' then None
      else Some(Reference(Utf8(Wrap32(Value(s[skip..k], hex))), k + 1))
  {
    hide Value, Wrap32, Utf8;
    assert DigitsEnd(s, skip, hex) == k;
  }

  /** The digits up to position k, as they have been accumulated. */
  ghost predicate Accumulated(t: string, skip: nat, k: nat, hex: bool, ucsc: int) {
    && skip <= k <= |t| && (forall i :: skip <= i < k ==> IsDigit(t[i], hex))
    && ucsc == Wrap32(Value(t[skip..k], hex))
  }

  lemma NothingAccumulated(t: string, skip: nat, hex: bool)
    requires skip <= |t|
    ensures Accumulated(t, skip, skip, hex, 0)
  {
    ValueEmpty(hex);
    assert t[skip..skip] == "";
  }

  lemma DigitAccumulated(t: string, skip: nat, k: nat, hex: bool, ucsc: int)
    requires Accumulated(t, skip, k, hex, ucsc) && k < |t| && IsDigit(t[k], hex)
    ensures ucsc >= 0 && Accumulated(t, skip, k + 1, hex, Wrap32(Base(hex) * ucsc + DigitValue(t[k])))
  {
    hide Value, Wrap32, DigitValue, Base;
    ValueStep(t, skip, k, hex);
    Wrap32Step(Value(t[skip..k], hex), hex, DigitValue(t[k]));
  }

  lemma NumberAccumulated(t: string, skip: nat, k: nat, hex: bool, ucsc: int)
    requires Accumulated(t, skip, k, hex, ucsc) && (k < |t| ==> !IsDigit(t[k], hex))
    ensures ucsc >= 0
    ensures
      Number(t, skip, hex) ==
      if k == skip || k == |t| || t[k] != ';' then None else Some(Reference(Utf8(ucsc), k + 1))
  {
    NumberIs(t, skip, k, hex);
    hide Value, Wrap32, Utf8, Number;
  }

  /** The digits of a character reference, accumulated in 32 bits; -1 when they do not end in a semicolon. */
  method ScanNumber(a: array<char>, s: nat, skip: nat, hex: bool, ghost stop: nat) returns (stre: nat, ucsc: int)
    requires s + skip <= stop < a.Length && IsStop(a[stop])
    ensures s + skip <= stre <= stop
    ensures ucsc < 0 ==> Number(a[s..stop], skip, hex) == None
    ensures ucsc < 0 ==> forall i :: s + skip <= i < stre ==> IsReferenceChar(a[i])
    ensures ucsc >= 0 ==> Number(a[s..stop], skip, hex) == Some(Reference(Utf8(ucsc), stre - s))
  {
    hide Accumulated, Wrap32, Utf8, DigitValue, Base, Number;
    ghost var t := a[s..stop];
    assert forall i :: 0 <= i < |t| ==> t[i] == a[s + i];
    stre := s + skip;
    ucsc := 0;
    NothingAccumulated(t, skip, hex);
    if a[stre] == ';' {
      NumberAccumulated(t, skip, skip, hex, 0);
      return stre, -1;
    }
    while IsDigit(a[stre], hex)
      invariant s + skip <= stre <= stop && (a[stre] == ';' ==> stre > s + skip)
      invariant forall i :: s + skip <= i < stre ==> IsReferenceChar(a[i])
      invariant ucsc >= 0 && Accumulated(t, skip, stre - s, hex, ucsc)
      decreases stop - stre
    {
      DigitAccumulated(t, skip, stre - s, hex, ucsc);
      ucsc := Wrap32(Base(hex) * ucsc + DigitValue(a[stre]));
      stre := stre + 1;
    }
    NumberAccumulated(t, skip, stre - s, hex, ucsc);
    if a[stre] == ';' {
      stre := stre + 1;
    } else {
      ucsc := -1;
    }
  }

  /** Reads a reference without changing the buffer: the code it stands for, or -1 when there is none. */
  method ScanReference(a: array<char>, s: nat, ghost stop: nat) returns (stre: nat, code: int)
    requires s < stop < a.Length && IsStop(a[stop]) && a[s] == '&'
    ensures s < stre <= stop
    ensures code < 0 ==> ReferenceAt(a[s..stop]) == None && forall i :: s < i < stre ==> IsReferenceChar(a[i])
    ensures code >= 0 ==> ReferenceAt(a[s..stop]) == Some(Reference(Utf8(code), stre - s))
  {
    hide Number, Utf8, Value, ReferenceAt;
    ghost var t := a[s..stop];
    assert forall i :: 0 <= i < |t| ==> t[i] == a[s + i];
    stre := s + 1;
    code := -1;
    FirstTwo(t);
    if a[stre] == '#' {
      if a[stre + 1] == 'x' {
        stre, code := ScanNumber(a, s, 3, true, stop);
      } else {
        stre, code := ScanNumber(a, s, 2, false, stop);
      }
    } else if a[stre] == 'a' {
      stre, code := ScanAmpApos(a, s, stop);
    } else if a[stre] == 'g' || a[stre] == 'l' {
      stre, code := ScanGtLt(a, s, stop);
    } else if a[stre] == 'q' {
      stre, code := ScanQuot(a, s, stop);
    }
  }

  /** The character after & tells what kind of reference can follow. */
  lemma FirstTwo(t: string)
    requires t != "" && t[0] == '&'
    ensures |t| < 2 || t[1] !in {'#', 'a', 'g', 'l', 'q'} ==> ReferenceAt(t) == None
    ensures |t| >= 2 && t[1] == '#' ==>
      ReferenceAt(t) == if |t| > 2 && t[2] == 'x' then Number(t, 3, true) else Number(t, 2, false)
  {
    hide Number;
    if |t| < 2 || t[1] != '#' {
      NotPrefix(t, "&#x", 1);
      NotPrefix(t, "&#", 1);
    } else if |t| < 3 || t[2] != 'x' {
      NotPrefix(t, "&#x", 2);
    }
    if |t| < 2 || t[1] !in {'#', 'a', 'g', 'l', 'q'} {
      NotPrefix(t, "&amp;", 1);
      NotPrefix(t, "&apos;", 1);
      NotPrefix(t, "&gt;", 1);
      NotPrefix(t, "&lt;", 1);
      NotPrefix(t, "&quot;", 1);
    }
  }

  /** The cases that start with a: &amp; and &apos;. */
  method ScanAmpApos(a: array<char>, s: nat, ghost stop: nat) returns (stre: nat, code: int)
    requires s + 1 < stop < a.Length && IsStop(a[stop]) && a[s] == '&' && a[s + 1] == 'a'
    ensures s < stre <= stop
    ensures code < 0 ==> ReferenceAt(a[s..stop]) == None && forall i :: s < i < stre ==> IsReferenceChar(a[i])
    ensures code >= 0 ==> ReferenceAt(a[s..stop]) == Some(Reference(Utf8(code), stre - s))
  {
    hide Number, ReferenceAt, Utf8;
    ghost var t := a[s..stop];
    assert forall i :: 0 <= i < |t| ==> t[i] == a[s + i];
    OneEntity(t);
    stre := s + 2;
    code := -1;
    if a[stre] == 'm' {
      NotPrefix(t, "&apos;", 2);
      stre := stre + 1;
      if a[stre] != 'p' {
        NotPrefix(t, "&amp;", 3);
        return;
      }
      stre := stre + 1;
      if a[stre] != ';' {
        NotPrefix(t, "&amp;", 4);
        return;
      }
      assert t[..5] == "&amp;";
      stre := stre + 1;
      code := '&' as int;
    } else if a[stre] == 'p' {
      NotPrefix(t, "&amp;", 2);
      stre := stre + 1;
      if a[stre] != 'o' {
        NotPrefix(t, "&apos;", 3);
        return;
      }
      stre := stre + 1;
      if a[stre] != 's' {
        NotPrefix(t, "&apos;", 4);
        return;
      }
      stre := stre + 1;
      if a[stre] != ';' {
        NotPrefix(t, "&apos;", 5);
        return;
      }
      assert t[..6] == "&apos;";
      stre := stre + 1;
      code := '\'' as int;
    } else {
      NotPrefix(t, "&amp;", 2);
      NotPrefix(t, "&apos;", 2);
    }
  }

  /** The cases &gt; and &lt;. */
  method ScanGtLt(a: array<char>, s: nat, ghost stop: nat) returns (stre: nat, code: int)
    requires s + 1 < stop < a.Length && IsStop(a[stop]) && a[s] == '&' && (a[s + 1] == 'g' || a[s + 1] == 'l')
    ensures s < stre <= stop
    ensures code < 0 ==> ReferenceAt(a[s..stop]) == None && forall i :: s < i < stre ==> IsReferenceChar(a[i])
    ensures code >= 0 ==> ReferenceAt(a[s..stop]) == Some(Reference(Utf8(code), stre - s))
  {
    hide Number, ReferenceAt, Utf8;
    ghost var t := a[s..stop];
    assert forall i :: 0 <= i < |t| ==> t[i] == a[s + i];
    OneEntity(t);
    stre := s + 2;
    code := -1;
    if a[stre] != 't' {
      NotPrefix(t, "&gt;", 2);
      NotPrefix(t, "&lt;", 2);
      return;
    }
    stre := stre + 1;
    if a[stre] != ';' {
      NotPrefix(t, "&gt;", 3);
      NotPrefix(t, "&lt;", 3);
      return;
    }
    stre := stre + 1;
    if a[s + 1] == 'g' {
      assert t[..4] == "&gt;";
      code := '>' as int;
    } else {
      assert t[..4] == "&lt;";
      code := '<' as int;
    }
  }

  method ScanQuot(a: array<char>, s: nat, ghost stop: nat) returns (stre: nat, code: int)
    requires s + 1 < stop < a.Length && IsStop(a[stop]) && a[s] == '&' && a[s + 1] == 'q'
    ensures s < stre <= stop
    ensures code < 0 ==> ReferenceAt(a[s..stop]) == None && forall i :: s < i < stre ==> IsReferenceChar(a[i])
    ensures code >= 0 ==> ReferenceAt(a[s..stop]) == Some(Reference(Utf8(code), stre - s))
  {
    hide Number, ReferenceAt, Utf8;
    ghost var t := a[s..stop];
    assert forall i :: 0 <= i < |t| ==> t[i] == a[s + i];
    OneEntity(t);
    stre := s + 2;
    code := -1;
    if a[stre] != 'u' {
      NotPrefix(t, "&quot;", 2);
      return;
    }
    stre := stre + 1;
    if a[stre] != 'o' {
      NotPrefix(t, "&quot;", 3);
      return;
    }
    stre := stre + 1;
    if a[stre] != 't' {
      NotPrefix(t, "&quot;", 4);
      return;
    }
    stre := stre + 1;
    if a[stre] != ';' {
      NotPrefix(t, "&quot;", 5);
      return;
    }
    assert t[..6] == "&quot;";
    stre := stre + 1;
    code := '"' as int;
  }

  /** The second character tells which entity a text can start with. */
  lemma OneEntity(t: string)
    requires |t| >= 2 && t[0] == '&' && t[1] != '#'
    ensures t[1] == 'a' && "&amp;" <= t ==> ReferenceAt(t) == Some(Reference(Utf8('&' as int), 5))
    ensures t[1] == 'a' && "&apos;" <= t ==> ReferenceAt(t) == Some(Reference(Utf8('\'' as int), 6))
    ensures t[1] == 'a' && !("&amp;" <= t) && !("&apos;" <= t) ==> ReferenceAt(t) == None
    ensures t[1] == 'g' ==> ReferenceAt(t) == if "&gt;" <= t then Some(Reference(Utf8('>' as int), 4)) else None
    ensures t[1] == 'l' ==> ReferenceAt(t) == if "&lt;" <= t then Some(Reference(Utf8('<' as int), 4)) else None
    ensures t[1] == 'q' ==> ReferenceAt(t) == if "&quot;" <= t then Some(Reference(Utf8('"' as int), 6)) else None
  {
    hide Number;
    NotPrefix(t, "&#x", 1);
    NotPrefix(t, "&#", 1);
    if t[1] != 'a' {
      NotPrefix(t, "&amp;", 1);
      NotPrefix(t, "&apos;", 1);
    } else {
      NotPrefix(t, "&gt;", 1);
      NotPrefix(t, "&lt;", 1);
      NotPrefix(t, "&quot;", 1);
    }
    if t[1] != 'g' {
      NotPrefix(t, "&gt;", 1);
    }
    if t[1] != 'l' {
      NotPrefix(t, "&lt;", 1);
    }
    if "&apos;" <= t {
      NotPrefix(t, "&amp;", 2);
    }
  }

  /** A malformed reference stands for itself, up to where reading gave up. */
  lemma Literal(t: string, k: nat, spaces: Spaces)
    requires 0 < k <= |t| && t[0] == '&' && ReferenceAt(t) == None
    requires forall i :: 1 <= i < k ==> IsReferenceChar(t[i])
    ensures Decoded(t, true, spaces) == t[..k] + Decoded(t[k..], true, spaces)
  {
    hide ReferenceAt, Decoded;
    DecodedStep(t, true, spaces);
    assert Step(t, true, spaces) == Reference([t[0]], 1);
    DecodedPlain(t[1..], k - 1, true, spaces);
    assert t[..k] == [t[0]] + t[1..][..k - 1] && t[k..] == t[1..][k - 1..];
  }

  lemma DecodedStep(t: string, escapes: bool, spaces: Spaces)
    requires t != ""
    ensures
      var step := Step(t, escapes, spaces);
      Decoded(t, escapes, spaces) == step.text + Decoded(t[step.length..], escapes, spaces)
  {
  }

  /** strconv_escape: what has been written and what is still to be decoded together stay the same. */
  method Escape(a: array<char>, s: nat, g: Gap, ghost begin: nat, ghost stop: nat, ghost spaces: Spaces)
    returns (r: nat)
    requires s < stop < a.Length && IsStop(a[stop]) && a[s] == '&' && g.Valid(a, begin, s)
    modifies a, g
    ensures s < r <= stop && g.Valid(a, begin, r)
    ensures g.View(a, begin, r) + Decoded(old(a[r..stop]), true, spaces) ==
            old(g.View(a, begin, s)) + Decoded(old(a[s..stop]), true, spaces)
    ensures forall i :: 0 <= i < begin || r <= i < a.Length ==> a[i] == old(a[i])
  {
    hide Decoded, ReferenceAt, Utf8, Gap.View;
    ghost var t, view := a[s..stop], g.View(a, begin, s);
    var stre, code := ScanReference(a, s, stop);
    assert t[stre - s..] == a[stre..stop];
    if code >= 0 {
      DecodedStep(t, true, spaces);
      var s' := g.PutCode(a, s, code, begin);
      r := g.Push(a, s', stre - s', begin);
      assert old(a[r..stop]) == t[stre - s..];
    } else {
      assert forall i :: 1 <= i < stre - s ==> t[i] == a[s + i];
      Literal(t, stre - s, spaces);
      g.ViewGrows(a, begin, s, stre);
      assert t[..stre - s] == a[s..stre];
      r := stre;
    }
  }

  // Conversions

  /** The classes of characters at which the conversions stop scanning; each has the terminator in it. */
  datatype CharType = ParsePcdata | ParseAttr | ParseAttrWs | ParseAttrWsOrSpace | ParseCdata | ParseComment

  predicate Is(c: char, ct: CharType) {
    c == '\0' || c == '\r' ||
    match ct
    case ParsePcdata => c == '&' || c == '<'
    case ParseAttr => c == '&' || c == '\'' || c == '"'
    case ParseAttrWs => c == '&' || c == '\'' || c == '"' || c == '\n' || c == '\t'
    case ParseAttrWsOrSpace => c == '&' || c == '\'' || c == '"' || IsSpace(c)
    case ParseCdata => c == ']' || c == '>'
    case ParseComment => c == '-' || c == '>'
  }

  /** PUGI__SCANWHILE_UNROLL, without the unrolling. */
  method ScanTo(a: array<char>, s: nat, ct: CharType, ghost stop: nat) returns (r: nat)
    requires s <= stop < a.Length && Is(a[stop], ct)
    ensures s <= r <= stop && Is(a[r], ct) && forall i :: s <= i < r ==> !Is(a[i], ct)
  {
    r := s;
    while !Is(a[r], ct)
      invariant s <= r <= stop && forall i :: s <= i < r ==> !Is(a[i], ct)
      decreases stop - r
    {
      r := r + 1;
    }
  }

  /** The text that the decoding of the rest will complete. */
  ghost function Whole(a: array<char>, g: Gap, begin: nat, s: nat, stop: nat, escapes: bool, spaces: Spaces): string
    requires g.Valid(a, begin, s) && s <= stop <= a.Length
    reads a, g
  {
    g.View(a, begin, s) + Decoded(a[s..stop], escapes, spaces)
  }

  /** Passing over characters that decoding leaves alone. */
  lemma Passed(a: array<char>, g: Gap, begin: nat, s: nat, r: nat, stop: nat, escapes: bool, spaces: Spaces)
    requires g.Valid(a, begin, s) && s <= r <= stop <= a.Length
    requires forall i :: s <= i < r ==> IsPlain(a[i], escapes, spaces)
    ensures g.Valid(a, begin, r)
    ensures Whole(a, g, begin, r, stop, escapes, spaces) == Whole(a, g, begin, s, stop, escapes, spaces)
  {
    hide Decoded, IsPlain, Gap.View;
    var t := a[s..stop];
    assert forall i :: 0 <= i < |t| ==> t[i] == a[s + i];
    DecodedPlain(t, r - s, escapes, spaces);
    g.ViewGrows(a, begin, s, r);
    assert t[..r - s] == a[s..r] && t[r - s..] == a[r..stop];
  }

  lemma Finished(a: array<char>, g: Gap, begin: nat, stop: nat, escapes: bool, spaces: Spaces)
    requires g.Valid(a, begin, stop) && stop <= a.Length
    ensures Whole(a, g, begin, stop, stop, escapes, spaces) == g.View(a, begin, stop)
  {
  }

  /** A carriage return, alone or before a line feed, becomes c. */
  method LineBreak(a: array<char>, s: nat, g: Gap, c: char, ghost begin: nat, ghost stop: nat, ghost escapes: bool,
                   ghost spaces: Spaces)
    returns (r: nat)
    requires s < stop < a.Length && a[s] == '\r' && a[stop] != '\n' && g.Valid(a, begin, s)
    requires (spaces == LineEnds && c == '\n') || (spaces == ToSpace && c == ' ')
    modifies a, g
    ensures s < r <= stop && g.Valid(a, begin, r)
    ensures Whole(a, g, begin, r, stop, escapes, spaces) == old(Whole(a, g, begin, s, stop, escapes, spaces))
    ensures forall i :: 0 <= i < begin || r <= i < a.Length ==> a[i] == old(a[i])
  {
    hide Decoded, ReferenceAt, Gap.View;
    ghost var before, t := a[..], a[s..stop];
    assert t == before[s..stop];
    DecodedStep(t, escapes, spaces);
    assert LineEnd(t) == if a[s + 1] == '\n' then 2 else 1;
    g.Put(a, s, c, begin);
    r := s + 1;
    if a[r] == '\n' {
      r := g.Push(a, r, 1, begin);
    }
    SameSlice(a, before, r, stop);
    SliceOfSlice(before, s, r, stop);
  }

  /** A decoded string in the buffer, with the zero that ends it. */
  ghost predicate Stores(a: array<char>, begin: nat, text: string)
    reads a
  {
    begin + |text| < a.Length && a[begin..begin + |text|] == text && a[begin + |text|] == '\0'
  }

  ghost function PcdataText(s: string, trim: bool, eol: bool, escapes: bool): string {
    var text := Decoded(s, escapes, if eol then LineEnds else Keep);
    if trim then TrimRight(text) else text
  }

  /** strconv_pcdata_impl::parse: character data, which ends before a tag or at the end of the buffer. */
  method ConvertPcdata(a: array<char>, begin: nat, trim: bool, eol: bool, escapes: bool, ghost stop: nat)
    returns (r: nat)
    requires begin <= stop < a.Length && (a[stop] == '<' || a[stop] == '\0')
    requires forall i :: begin <= i < stop ==> a[i] != '<' && a[i] != '\0'
    modifies a
    ensures r == if old(a[stop]) == '<' then stop + 1 else stop
    ensures Stores(a, begin, PcdataText(old(a[begin..stop]), trim, eol, escapes))
    ensures begin + |PcdataText(old(a[begin..stop]), trim, eol, escapes)| <= stop
    ensures forall i :: 0 <= i < begin || stop < i < a.Length ==> a[i] == old(a[i])
    ensures a[stop] == old(a[stop]) || a[stop] == '\0'
  {
    hide Decoded, ReferenceAt, Gap.View, Whole;
    var g := new Gap();
    var s := begin;
    ghost var spaces := if eol then LineEnds else Keep;
    ghost var text := Decoded(a[begin..stop], escapes, spaces);
    Start(a, g, begin, stop, escapes, spaces);
    while true
      invariant begin <= s <= stop && g.Valid(a, begin, s)
      invariant Whole(a, g, begin, s, stop, escapes, spaces) == text
      invariant forall i :: 0 <= i < begin || s <= i < a.Length ==> a[i] == old(a[i])
      decreases stop - s
    {
      var r' := ScanTo(a, s, ParsePcdata, stop);
      Passed(a, g, begin, s, r', stop, escapes, spaces);
      s := r';
      if a[s] == '<' {
        Finished(a, g, begin, stop, escapes, spaces);
        var end := g.Flush(a, s, begin);
        Terminate(a, begin, end, trim, stop, text);
        return s + 1;
      } else if eol && a[s] == '\r' {
        s := LineBreak(a, s, g, '\n', begin, stop, escapes, spaces);
      } else if escapes && a[s] == '&' {
        s := EscapeWhole(a, s, g, begin, stop, spaces);
      } else if a[s] == '\0' {
        Finished(a, g, begin, stop, escapes, spaces);
        var end := g.Flush(a, s, begin);
        Terminate(a, begin, end, trim, stop, text);
        return s;
      } else {
        Passed(a, g, begin, s, s + 1, stop, escapes, spaces);
        s := s + 1;
      }
    }
  }

  lemma Start(a: array<char>, g: Gap, begin: nat, stop: nat, escapes: bool, spaces: Spaces)
    requires g.end == -1 && g.size == 0 && begin <= stop <= a.Length
    ensures Whole(a, g, begin, begin, stop, escapes, spaces) == Decoded(a[begin..stop], escapes, spaces)
  {
  }

  method EscapeWhole(a: array<char>, s: nat, g: Gap, ghost begin: nat, ghost stop: nat, ghost spaces: Spaces)
    returns (r: nat)
    requires s < stop < a.Length && IsStop(a[stop]) && a[s] == '&' && g.Valid(a, begin, s)
    modifies a, g
    ensures s < r <= stop && g.Valid(a, begin, r)
    ensures Whole(a, g, begin, r, stop, true, spaces) == old(Whole(a, g, begin, s, stop, true, spaces))
    ensures forall i :: 0 <= i < begin || r <= i < a.Length ==> a[i] == old(a[i])
  {
    hide Decoded, Gap.View;
    ghost var before := a[..];
    r := Escape(a, s, g, begin, stop, spaces);
    SameSlice(a, before, r, stop);
  }

  /** Cut trailing white space if asked to, and end the string. */
  method Terminate(a: array<char>, begin: nat, end: nat, trim: bool, ghost stop: nat, ghost text: string)
    requires begin <= end <= stop < a.Length && a[begin..end] == text
    modifies a
    ensures
      var r := if trim then TrimRight(text) else text;
      Stores(a, begin, r) && begin + |r| <= stop
    ensures forall i :: 0 <= i < begin || end < i < a.Length ==> a[i] == old(a[i])
    ensures a[stop] == old(a[stop]) || a[stop] == '\0'
  {
    hide TrimRight;
    var e := end;
    if trim {
      e := TrimmedEnd(a, begin, end, text);
    }
    ghost var r := text[..e - begin];
    assert forall i :: 0 <= i < |text| ==> text[i] == a[begin + i];
    a[e] := '\0';
    assert forall i :: 0 <= i < |r| ==> r[i] == a[begin + i];
    assert a[begin..e] == r;
  }

  method TrimmedEnd(a: array<char>, begin: nat, end: nat, ghost text: string) returns (e: nat)
    requires begin <= end <= a.Length && a[begin..end] == text
    ensures begin <= e <= end && TrimRight(text) == text[..e - begin]
  {
    assert forall i :: 0 <= i < |text| ==> text[i] == a[begin + i];
    e := end;
    while e > begin && IsSpace(a[e - 1])
      invariant begin <= e <= end && forall i :: e - begin <= i < |text| ==> IsSpace(text[i])
    {
      assert text[e - 1 - begin] == a[e - 1];
      e := e - 1;
    }
    assert e > begin ==> text[e - 1 - begin] == a[e - 1];
    TrimRightIs(text, e - begin);
  }

  // Comments and CDATA sections

  /** The terminator --> or ]]> starts at i; its last character may be the one that was cut off the buffer. */
  predicate MarkAt(t: string, i: nat, mark: char, endch: char) {
    i + 2 < |t| && t[i] == t[i + 1] == mark && (t[i + 2] == '>' || (t[i + 2] == '\0' && endch == '>'))
  }

  /** stop is where a comment or a CDATA section ends, or where the buffer does. */
  ghost predicate EndsAt(t: string, begin: nat, stop: nat, mark: char, endch: char) {
    begin <= stop < |t| && (t[stop] == '\0' || MarkAt(t, stop, mark, endch)) &&
    forall i :: begin <= i < stop ==> t[i] != '\0' && !MarkAt(t, i, mark, endch)
  }

  /** strconv_comment and, with another mark, strconv_cdata, up to the terminator. */
  method UntilMark(a: array<char>, begin: nat, mark: char, endch: char, ghost stop: nat) returns (s: nat, found: bool)
    requires (mark == '-' || mark == ']') && EndsAt(a[..], begin, stop, mark, endch)
    modifies a
    ensures s == stop && found == (old(a[stop]) != '\0')
    ensures found ==> Stores(a, begin, Decoded(old(a[begin..stop]), false, LineEnds))
    ensures found ==> begin + |Decoded(old(a[begin..stop]), false, LineEnds)| <= stop
    ensures forall i :: 0 <= i < begin || stop < i < a.Length ==> a[i] == old(a[i])
    ensures a[stop] == old(a[stop]) || a[stop] == '\0'
  {
    hide Decoded, ReferenceAt, Gap.View, Whole;
    var g := new Gap();
    s := begin;
    ghost var text := Decoded(a[begin..stop], false, LineEnds);
    Start(a, g, begin, stop, false, LineEnds);
    while true
      invariant begin <= s <= stop && g.Valid(a, begin, s)
      invariant Whole(a, g, begin, s, stop, false, LineEnds) == text
      invariant forall i :: 0 <= i < begin || s <= i < a.Length ==> a[i] == old(a[i])
      decreases stop - s
    {
      var r := ScanTo(a, s, if mark == '-' then ParseComment else ParseCdata, stop);
      Passed(a, g, begin, s, r, stop, false, LineEnds);
      s := r;
      StillEnds(a, old(a[..]), begin, s, stop, mark, endch);
      if a[s] == '\r' {
        s := LineBreak(a, s, g, '\n', begin, stop, false, LineEnds);
      } else if a[s] == mark && a[s + 1] == mark && (a[s + 2] == '>' || (a[s + 2] == '\0' && endch == '>')) {
        Finished(a, g, begin, stop, false, LineEnds);
        var end := g.Flush(a, s, begin);
        Terminate(a, begin, end, false, stop, text);
        return s, true;
      } else if a[s] == '\0' {
        return s, false;
      } else {
        Passed(a, g, begin, s, s + 1, stop, false, LineEnds);
        s := s + 1;
      }
    }
  }

  /** Writing behind the reading position does not move the terminator. */
  lemma StillEnds(a: array<char>, before: string, begin: nat, s: nat, stop: nat, mark: char, endch: char)
    requires |before| == a.Length && begin <= s <= stop && EndsAt(before, begin, stop, mark, endch) && mark != '\0'
    requires forall i :: s <= i < a.Length ==> a[i] == before[i]
    ensures EndsAt(a[..], s, stop, mark, endch)
    ensures a[s] == mark ==> s + 1 < a.Length
    ensures s + 1 < a.Length && a[s] == a[s + 1] == mark ==> s + 2 < a.Length
  {
  }

  /** strconv_comment: past the end of the comment, if it has one. */
  method ConvertComment(a: array<char>, begin: nat, endch: char, ghost stop: nat) returns (r: Option<nat>)
    requires EndsAt(a[..], begin, stop, '-', endch)
    modifies a
    ensures r == if old(a[stop]) == '\0' then None else Some(if old(a[stop + 2]) == '>' then stop + 3 else stop + 2)
    ensures r.Some? ==> Stores(a, begin, Decoded(old(a[begin..stop]), false, LineEnds))
    ensures forall i :: 0 <= i < begin || stop < i < a.Length ==> a[i] == old(a[i])
    ensures a[stop] == old(a[stop]) || a[stop] == '\0'
  {
    hide Decoded;
    var s, found := UntilMark(a, begin, '-', endch, stop);
    r := if found then Some(s + (if a[s + 2] == '>' then 3 else 2)) else None;
  }

  /** strconv_cdata: to the second bracket of the terminator, if there is one. */
  method ConvertCdata(a: array<char>, begin: nat, endch: char, ghost stop: nat) returns (r: Option<nat>)
    requires EndsAt(a[..], begin, stop, ']', endch)
    modifies a
    ensures r == if old(a[stop]) == '\0' then None else Some(stop + 1)
    ensures r.Some? ==> Stores(a, begin, Decoded(old(a[begin..stop]), false, LineEnds))
    ensures forall i :: 0 <= i < begin || stop < i < a.Length ==> a[i] == old(a[i])
    ensures a[stop] == old(a[stop]) || a[stop] == '\0'
  {
    hide Decoded;
    var s, found := UntilMark(a, begin, ']', endch, stop);
    r := if found then Some(s + 1) else None;
  }

  // Attribute values

  ghost function AttributeValue(s: string, spaces: Spaces, escapes: bool): string {
    if spaces == Normalize then TrimRight(Decoded(TrimLeft(s), escapes, Normalize)) else Decoded(s, escapes, spaces)
  }

  /** stop is where the closing quote of an attribute value is, or where the buffer ends. */
  ghost predicate QuotedTo(t: string, begin: nat, stop: nat, quote: char) {
    begin <= stop < |t| && (t[stop] == quote || t[stop] == '\0') &&
    forall i :: begin <= i < stop ==> t[i] != quote && t[i] != '\0'
  }

  predicate IsQuote(c: char) {
    c == '"' || c == '\''
  }

  /** parse_simple. */
  method AttributeSimple(a: array<char>, begin: nat, quote: char, escapes: bool, ghost stop: nat)
    returns (r: Option<nat>)
    requires IsQuote(quote) && QuotedTo(a[..], begin, stop, quote)
    modifies a
    ensures r == if old(a[stop]) == '\0' then None else Some(stop + 1)
    ensures r.Some? ==> Stores(a, begin, AttributeValue(old(a[begin..stop]), Keep, escapes))
    ensures forall i :: 0 <= i < begin || stop < i < a.Length ==> a[i] == old(a[i])
    ensures a[stop] == old(a[stop]) || a[stop] == '\0'
  {
    hide Decoded, ReferenceAt, Gap.View, Whole;
    var g := new Gap();
    var s := begin;
    ghost var text := Decoded(a[begin..stop], escapes, Keep);
    Start(a, g, begin, stop, escapes, Keep);
    while true
      invariant begin <= s <= stop && g.Valid(a, begin, s)
      invariant Whole(a, g, begin, s, stop, escapes, Keep) == text
      invariant forall i :: 0 <= i < begin || s <= i < a.Length ==> a[i] == old(a[i])
      decreases stop - s
    {
      var r' := ScanTo(a, s, ParseAttr, stop);
      Passed(a, g, begin, s, r', stop, escapes, Keep);
      s := r';
      if a[s] == quote {
        Finished(a, g, begin, stop, escapes, Keep);
        var end := g.Flush(a, s, begin);
        Terminate(a, begin, end, false, stop, text);
        return Some(s + 1);
      } else if escapes && a[s] == '&' {
        s := EscapeWhole(a, s, g, begin, stop, Keep);
      } else if a[s] == '\0' {
        return None;
      } else {
        Passed(a, g, begin, s, s + 1, stop, escapes, Keep);
        s := s + 1;
      }
    }
  }

  /** parse_eol. */
  method AttributeEol(a: array<char>, begin: nat, quote: char, escapes: bool, ghost stop: nat) returns (r: Option<nat>)
    requires IsQuote(quote) && QuotedTo(a[..], begin, stop, quote)
    modifies a
    ensures r == if old(a[stop]) == '\0' then None else Some(stop + 1)
    ensures r.Some? ==> Stores(a, begin, AttributeValue(old(a[begin..stop]), LineEnds, escapes))
    ensures forall i :: 0 <= i < begin || stop < i < a.Length ==> a[i] == old(a[i])
    ensures a[stop] == old(a[stop]) || a[stop] == '\0'
  {
    hide Decoded, ReferenceAt, Gap.View, Whole;
    var g := new Gap();
    var s := begin;
    ghost var text := Decoded(a[begin..stop], escapes, LineEnds);
    Start(a, g, begin, stop, escapes, LineEnds);
    while true
      invariant begin <= s <= stop && g.Valid(a, begin, s)
      invariant Whole(a, g, begin, s, stop, escapes, LineEnds) == text
      invariant forall i :: 0 <= i < begin || s <= i < a.Length ==> a[i] == old(a[i])
      decreases stop - s
    {
      var r' := ScanTo(a, s, ParseAttr, stop);
      Passed(a, g, begin, s, r', stop, escapes, LineEnds);
      s := r';
      if a[s] == quote {
        Finished(a, g, begin, stop, escapes, LineEnds);
        var end := g.Flush(a, s, begin);
        Terminate(a, begin, end, false, stop, text);
        return Some(s + 1);
      } else if a[s] == '\r' {
        s := LineBreak(a, s, g, '\n', begin, stop, escapes, LineEnds);
      } else if escapes && a[s] == '&' {
        s := EscapeWhole(a, s, g, begin, stop, LineEnds);
      } else if a[s] == '\0' {
        return None;
      } else {
        Passed(a, g, begin, s, s + 1, stop, escapes, LineEnds);
        s := s + 1;
      }
    }
  }

  /** White space other than a carriage return becomes a space. */
  method SpaceFor(a: array<char>, s: nat, g: Gap, ghost begin: nat, ghost stop: nat, ghost escapes: bool)
    requires s < stop < a.Length && IsSpace(a[s]) && a[s] != '\r' && g.Valid(a, begin, s)
    modifies a
    ensures g.Valid(a, begin, s + 1)
    ensures Whole(a, g, begin, s + 1, stop, escapes, ToSpace) == old(Whole(a, g, begin, s, stop, escapes, ToSpace))
    ensures forall i :: 0 <= i < begin || s < i < a.Length ==> a[i] == old(a[i])
  {
    hide Decoded, ReferenceAt, Gap.View;
    ghost var t := a[s..stop];
    DecodedStep(t, escapes, ToSpace);
    assert t[0] == a[s];
    g.Put(a, s, ' ', begin);
    assert a[s + 1..stop] == t[1..];
  }

  /** parse_wconv. */
  method AttributeWconv(a: array<char>, begin: nat, quote: char, escapes: bool, ghost stop: nat)
    returns (r: Option<nat>)
    requires IsQuote(quote) && QuotedTo(a[..], begin, stop, quote)
    modifies a
    ensures r == if old(a[stop]) == '\0' then None else Some(stop + 1)
    ensures r.Some? ==> Stores(a, begin, AttributeValue(old(a[begin..stop]), ToSpace, escapes))
    ensures forall i :: 0 <= i < begin || stop < i < a.Length ==> a[i] == old(a[i])
    ensures a[stop] == old(a[stop]) || a[stop] == '\0'
  {
    hide Decoded, ReferenceAt, Gap.View, Whole;
    var g := new Gap();
    var s := begin;
    ghost var text := Decoded(a[begin..stop], escapes, ToSpace);
    Start(a, g, begin, stop, escapes, ToSpace);
    while true
      invariant begin <= s <= stop && g.Valid(a, begin, s)
      invariant Whole(a, g, begin, s, stop, escapes, ToSpace) == text
      invariant forall i :: 0 <= i < begin || s <= i < a.Length ==> a[i] == old(a[i])
      decreases stop - s
    {
      var r' := ScanTo(a, s, ParseAttrWs, stop);
      Passed(a, g, begin, s, r', stop, escapes, ToSpace);
      s := r';
      if a[s] == quote {
        Finished(a, g, begin, stop, escapes, ToSpace);
        var end := g.Flush(a, s, begin);
        Terminate(a, begin, end, false, stop, text);
        return Some(s + 1);
      } else if IsSpace(a[s]) {
        if a[s] == '\r' {
          s := LineBreak(a, s, g, ' ', begin, stop, escapes, ToSpace);
        } else {
          SpaceFor(a, s, g, begin, stop, escapes);
          s := s + 1;
        }
      } else if escapes && a[s] == '&' {
        s := EscapeWhole(a, s, g, begin, stop, ToSpace);
      } else if a[s] == '\0' {
        return None;
      } else {
        Passed(a, g, begin, s, s + 1, stop, escapes, ToSpace);
        s := s + 1;
      }
    }
  }

  lemma SpaceRunIs(t: string, k: nat)
    requires k <= |t| && (forall i :: 0 <= i < k ==> IsSpace(t[i])) && (k < |t| ==> !IsSpace(t[k]))
    ensures SpaceRun(t) == k
  {
  }

  /** Past a run of white space. */
  method SkipSpace(a: array<char>, s: nat, ghost stop: nat) returns (r: nat)
    requires s <= stop < a.Length && !IsSpace(a[stop])
    ensures s <= r <= stop && r == s + SpaceRun(a[s..stop]) && !IsSpace(a[r])
  {
    r := s;
    while IsSpace(a[r])
      invariant s <= r <= stop && forall i :: s <= i < r ==> IsSpace(a[i])
      decreases stop - r
    {
      r := r + 1;
    }
    assert r < stop ==> a[s..stop][r - s] == a[r];
    SpaceRunIs(a[s..stop], r - s);
  }

  /** A run of white space becomes one space. */
  method SpaceForRun(a: array<char>, s: nat, g: Gap, ghost begin: nat, ghost stop: nat, ghost escapes: bool)
    returns (r: nat)
    requires s < stop < a.Length && IsSpace(a[s]) && !IsSpace(a[stop]) && g.Valid(a, begin, s)
    modifies a, g
    ensures s < r <= stop && g.Valid(a, begin, r)
    ensures Whole(a, g, begin, r, stop, escapes, Normalize) == old(Whole(a, g, begin, s, stop, escapes, Normalize))
    ensures forall i :: 0 <= i < begin || r <= i < a.Length ==> a[i] == old(a[i])
  {
    hide Decoded, ReferenceAt, Gap.View, SpaceRun, Step;
    ghost var before, t := a[..], a[s..stop];
    assert t[0] == a[s];
    RunDecoded(t, escapes);
    RunGrows(t);
    assert t[1..] == a[s + 1..stop];
    g.Put(a, s, ' ', begin);
    r := s + 1;
    SameSlice(a, before, r, stop);
    if IsSpace(a[r]) {
      var str := SkipSpace(a, r, stop);
      r := g.Push(a, r, str - r, begin);
      SameSlice(a, before, r, stop);
    } else {
      assert r < stop ==> t[1..][0] == a[r];
      SpaceRunIs(t[1..], 0);
    }
    assert before[r..stop] == t[r - s..];
  }

  lemma RunDecoded(t: string, escapes: bool)
    requires t != "" && IsSpace(t[0])
    ensures Decoded(t, escapes, Normalize) == " " + Decoded(t[SpaceRun(t)..], escapes, Normalize)
  {
    hide ReferenceAt;
  }

  lemma RunGrows(t: string)
    requires t != "" && IsSpace(t[0])
    ensures SpaceRun(t) == 1 + SpaceRun(t[1..])
  {
  }

  /** Trailing white space is overwritten with zeros, backwards; the quote in front of the value stops the loop. */
  method EraseTail(a: array<char>, begin: nat, end: nat, ghost text: string)
    requires 0 < begin <= end < a.Length && !IsSpace(a[begin - 1]) && a[begin..end] == text
    modifies a
    ensures Stores(a, begin, TrimRight(text)) && begin + |TrimRight(text)| <= end && a[end] == '\0'
    ensures forall i :: 0 <= i < begin || end < i < a.Length ==> a[i] == old(a[i])
  {
    var str := end;
    assert forall i :: 0 <= i < |text| ==> a[begin..end][i] == a[begin + i];
    a[str] := '\0';
    str := str - 1;
    while IsSpace(a[str])
      invariant begin - 1 <= str < end && a[str + 1] == a[end] == '\0' && !IsSpace(a[begin - 1])
      invariant forall i :: 0 <= i < str + 1 - begin ==> a[begin + i] == text[i]
      invariant forall i :: str + 1 - begin <= i < |text| ==> IsSpace(text[i])
      invariant forall i :: 0 <= i < begin || end < i < a.Length ==> a[i] == old(a[i])
      decreases str
    {
      assert a[begin + (str - begin)] == text[str - begin];
      a[str] := '\0';
      str := str - 1;
    }
    assert str >= begin ==> a[begin + (str - begin)] == text[str - begin];
    TrimRightIs(text, str + 1 - begin);
    assert a[begin..str + 1] == text[..str + 1 - begin];
  }

  lemma TrimRightIs(t: string, k: nat)
    requires k <= |t| && (forall i :: k <= i < |t| ==> IsSpace(t[i])) && (k > 0 ==> !IsSpace(t[k - 1]))
    ensures TrimRight(t) == t[..k]
  {
  }

  /** parse_wnorm. */
  method AttributeWnorm(a: array<char>, begin: nat, quote: char, escapes: bool, ghost stop: nat)
    returns (r: Option<nat>)
    requires IsQuote(quote) && QuotedTo(a[..], begin, stop, quote) && 0 < begin && a[begin - 1] == quote
    modifies a
    ensures r == if old(a[stop]) == '\0' then None else Some(stop + 1)
    ensures r.Some? ==> Stores(a, begin, AttributeValue(old(a[begin..stop]), Normalize, escapes))
    ensures forall i :: 0 <= i < begin || stop < i < a.Length ==> a[i] == old(a[i])
    ensures a[stop] == old(a[stop]) || a[stop] == '\0'
  {
    hide Decoded, ReferenceAt, Gap.View, Whole, SpaceRun;
    var g := new Gap();
    var s := begin;
    ghost var text := Decoded(TrimLeft(a[begin..stop]), escapes, Normalize);
    s := TrimStart(a, begin, g, stop, escapes);
    while true
      invariant begin <= s <= stop && g.Valid(a, begin, s)
      invariant Whole(a, g, begin, s, stop, escapes, Normalize) == text
      invariant forall i :: 0 <= i < begin || s <= i < a.Length ==> a[i] == old(a[i])
      decreases stop - s
    {
      var r' := ScanTo(a, s, ParseAttrWsOrSpace, stop);
      Passed(a, g, begin, s, r', stop, escapes, Normalize);
      s := r';
      if a[s] == quote {
        Finished(a, g, begin, stop, escapes, Normalize);
        var end := g.Flush(a, s, begin);
        EraseTail(a, begin, end, text);
        return Some(s + 1);
      } else if IsSpace(a[s]) {
        s := SpaceForRun(a, s, g, begin, stop, escapes);
      } else if escapes && a[s] == '&' {
        s := EscapeWhole(a, s, g, begin, stop, Normalize);
      } else if a[s] == '\0' {
        return None;
      } else {
        Passed(a, g, begin, s, s + 1, stop, escapes, Normalize);
        s := s + 1;
      }
    }
  }

  lemma EmptyView(a: array<char>, g: Gap, begin: nat)
    requires g.end == -1 && g.size == 0 && begin <= a.Length
    ensures g.View(a, begin, begin) == ""
  {
  }

  /** Leading white space goes into the gap. */
  method TrimStart(a: array<char>, begin: nat, g: Gap, ghost stop: nat, ghost escapes: bool) returns (s: nat)
    requires begin <= stop < a.Length && !IsSpace(a[stop]) && g.end == -1 && g.size == 0
    modifies a, g
    ensures begin <= s <= stop && g.Valid(a, begin, s)
    ensures Whole(a, g, begin, s, stop, escapes, Normalize) ==
      Decoded(TrimLeft(old(a[begin..stop])), escapes, Normalize)
    ensures forall i :: 0 <= i < a.Length ==> a[i] == old(a[i])
  {
    hide Decoded, SpaceRun, Gap.View;
    ghost var before := a[..];
    s := begin;
    assert g.View(a, begin, s) == "" by {
      EmptyView(a, g, begin);
    }
    if IsSpace(a[s]) {
      var str := SkipSpace(a, s, stop);
      s := g.Push(a, s, str - s, begin);
      SameSlice(a, before, s, stop);
    } else {
      assert s < stop ==> a[s..stop][0] == a[s];
      SpaceRunIs(a[s..stop], 0);
    }
    assert before[s..stop] == TrimLeft(before[begin..stop]);
  }

  /** The conversion that get_strconv_attribute chooses for the parser's options. */
  function AttributeSpaces(wnorm: bool, wconv: bool, eol: bool): Spaces {
    if wnorm then Normalize else if wconv then ToSpace else if eol then LineEnds else Keep
  }

  /** strconv_attribute. */
  method ConvertAttribute(a: array<char>, begin: nat, quote: char, escapes: bool, spaces: Spaces, ghost stop: nat)
    returns (r: Option<nat>)
    requires IsQuote(quote) && QuotedTo(a[..], begin, stop, quote) && 0 < begin && a[begin - 1] == quote
    modifies a
    ensures r == if old(a[stop]) == '\0' then None else Some(stop + 1)
    ensures r.Some? ==> Stores(a, begin, AttributeValue(old(a[begin..stop]), spaces, escapes))
    ensures forall i :: 0 <= i < begin || stop < i < a.Length ==> a[i] == old(a[i])
    ensures a[stop] == old(a[stop]) || a[stop] == '\0'
  {
    hide Decoded, AttributeValue;
    match spaces
    case Keep => r := AttributeSimple(a, begin, quote, escapes, stop);
    case LineEnds => r := AttributeEol(a, begin, quote, escapes, stop);
    case ToSpace => r := AttributeWconv(a, begin, quote, escapes, stop);
    case Normalize => r := AttributeWnorm(a, begin, quote, escapes, stop);
  }
}
