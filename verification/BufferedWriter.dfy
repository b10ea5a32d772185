/**
 The buffered writer: what it emits does not depend on how the text was cut into
 pieces and chunks.
 */
module BufferedWriter {
  import opened Utf

  datatype Encoding = NativeUtf8 | Utf16Le | Utf16Be | Utf32Le | Utf32Be | EncLatin1

  /** 10240 bytes are split between a character and four bytes of scratch space for it. */
  const CAPACITY: nat := 10240 / 5

  function TargetOf(enc: Encoding): Target {
    match enc
    case NativeUtf8 => Utf8
    case Utf16Le | Utf16Be => Utf16
    case Utf32Le | Utf32Be => Utf32
    case EncLatin1 => Latin1
  }

  function Width(enc: Encoding): nat {
    match TargetOf(enc)
    case Utf16 => 2
    case Utf32 => 4
    case _ => 1
  }

  /** Whether the most significant byte of a unit comes first. */
  predicate IsBigEndian(enc: Encoding) {
    enc == Utf16Be || enc == Utf32Be
  }

  /** The bytes of a unit, as a machine of the given byte order stores it. */
  function UnitBytes(v: nat, width: nat, big: bool): seq<nat> {
    if width == 2 then (if big then [v / 0x100, v % 0x100] else [v % 0x100, v / 0x100])
    else if width == 4 then
      if big then [v / 0x100_0000, v / 0x1_0000 % 0x100, v / 0x100 % 0x100, v % 0x100]
      else [v % 0x100, v / 0x100 % 0x100, v / 0x1_0000 % 0x100, v / 0x100_0000]
    else [v]
  }

  function Bytes(units: seq<nat>, width: nat, big: bool): seq<nat> {
    if units == [] then [] else Bytes(units[..|units| - 1], width, big) + UnitBytes(units[|units| - 1], width, big)
  }

  function CharCodes(s: string): seq<nat> {
    seq(|s|, i requires 0 <= i < |s| => s[i] as nat)
  }

  /** A whole text in the given encoding, converted at once. */
  function Transcode(enc: Encoding, s: string): seq<nat> {
    if enc == NativeUtf8 then CharCodes(s)
    else Bytes(EncodeAll(TargetOf(enc), Decode8(s)), Width(enc), IsBigEndian(enc))
  }

  // Cutting a text between characters

  lemma TakePrefix(s: string, k: nat)
    requires s != "" && Take8(s).length <= k <= |s| && Take8(s).unit.Some?
    ensures Take8(s[..k]) == Take8(s)
  {
    var t := s[..k];
    assert forall i :: 0 <= i < k ==> t[i] == s[i];
  }

  lemma TakeMore(s: string, rest: string)
    requires s != "" && Take8(s).unit.Some?
    ensures Take8(s + rest) == Take8(s)
  {
    var t := s + rest;
    assert forall i :: 0 <= i < |s| ==> t[i] == s[i];
  }

  lemma WellFormedStep(s: string)
    requires s != ""
    ensures WellFormed(s) <==> Take8(s).unit.Some? && WellFormed(s[Take8(s).length..])
    ensures Decode8(s) == GivenUnit(Take8(s).unit) + Decode8(s[Take8(s).length..])
  {
  }

  /** What the decoder makes of a text it accepts does not depend on what follows. */
  lemma {:induction false} WellFormedConcat(s: string, rest: string)
    requires WellFormed(s)
    ensures Decode8(s + rest) == Decode8(s) + Decode8(rest)
    ensures WellFormed(rest) ==> WellFormed(s + rest)
    decreases |s|
  {
    hide Take8, Decode8, WellFormed;
    if s == "" {
      assert s + rest == rest;
      Decode8None();
    } else {
      WellFormedStep(s);
      WellFormedStep(s + rest);
      TakeMore(s, rest);
      var n := Take8(s).length;
      assert (s + rest)[n..] == s[n..] + rest;
      WellFormedConcat(s[n..], rest);
    }
  }

  lemma InSequence(s: string, k: nat)
    requires s != "" && Take8(s).unit.Some? && k < Take8(s).length
    ensures IsContinuation(s[k]) <==> k > 0
  {
  }

  /** A well-formed text can be cut in front of any byte that is not a continuation. */
  lemma {:induction false} Cut(s: string, k: nat)
    requires WellFormed(s) && k <= |s| && (k < |s| ==> !IsContinuation(s[k]))
    ensures WellFormed(s[..k]) && WellFormed(s[k..])
    decreases |s|
  {
    if k == 0 {
      assert s[..k] == "" && s[k..] == s;
    } else {
      var n := Take8(s).length;
      if k < n {
        InSequence(s, k);
      }
      TakePrefix(s, k);
      hide Take8;
      assert k < |s| ==> s[n..][k - n] == s[k];
      Cut(s[n..], k - n);
      assert s[..k][n..] == s[n..][..k - n] && s[k..] == s[n..][k - n..];
    }
  }

  /** At most three continuation bytes follow each other. */
  lemma {:induction false} NotFour(s: string, i: nat)
    requires WellFormed(s) && i + 4 <= |s|
    ensures !(IsContinuation(s[i]) && IsContinuation(s[i + 1]) && IsContinuation(s[i + 2]) && IsContinuation(s[i + 3]))
    decreases |s|
  {
    var n := Take8(s).length;
    InSequence(s, 0);
    if i >= n {
      hide Take8;
      NotFour(s[n..], i - n);
    } else if i > 0 {
      InSequence(s[n..], 0);
    }
  }

  /** get_valid_length. */
  method GetValidLength(data: string) returns (k: nat)
    ensures k <= |data| && (|data| >= 5 ==> k > 0)
    ensures k < |data| && k > 0 ==> !IsContinuation(data[k])
    ensures k == |data| >= 5 ==> forall j :: k - 4 <= j < k ==> IsContinuation(data[j])
    ensures |data| < 5 ==> k == 0
  {
    if |data| < 5 {
      return 0;
    }
    var i := 1;
    while i <= 4
      invariant 1 <= i <= 5 && forall j :: |data| - i < j < |data| ==> IsContinuation(data[j])
    {
      // either a standalone character or a leading one
      if !IsContinuation(data[|data| - i]) {
        return |data| - i;
      }
      i := i + 1;
    }
    k := |data|;
  }

  /** The part of a chunk that get_valid_length selects ends between two characters. */
  lemma ChunkCut(s: string, n: nat, k: nat)
    requires WellFormed(s) && k <= n <= |s| && (n >= 5 || k == 0)
    requires k < n && k > 0 ==> !IsContinuation(s[k])
    requires k == n >= 5 ==> forall j :: k - 4 <= j < k ==> IsContinuation(s[j])
    ensures WellFormed(s[..k]) && WellFormed(s[k..])
  {
    if k == 0 {
      assert s[..k] == "" && s[k..] == s;
    } else if k == n {
      NotFour(s, n - 4);
    } else {
      Cut(s, k);
    }
  }

  // Converting in pieces

  lemma BytesStep(us: seq<nat>, width: nat, big: bool)
    requires us != []
    ensures Bytes(us, width, big) == Bytes(us[..|us| - 1], width, big) + UnitBytes(us[|us| - 1], width, big)
  {
  }

  lemma {:induction false} BytesConcat(us: seq<nat>, vs: seq<nat>, width: nat, big: bool)
    ensures Bytes(us + vs, width, big) == Bytes(us, width, big) + Bytes(vs, width, big)
    decreases |vs|
  {
    hide UnitBytes, Bytes;
    if vs == [] {
      assert us + vs == us;
      BytesNone(width, big);
    } else {
      var front, last, all := vs[..|vs| - 1], vs[|vs| - 1], us + vs;
      BytesConcat(us, front, width, big);
      assert all[..|all| - 1] == us + front && all[|all| - 1] == last;
      BytesStep(vs, width, big);
      BytesStep(all, width, big);
      assert Bytes(all, width, big) == Bytes(us, width, big) + Bytes(front, width, big) + UnitBytes(last, width, big);
    }
  }

  lemma BytesNone(width: nat, big: bool)
    ensures Bytes([], width, big) == []
  {
  }

  /** A text that may be cut off here without changing its conversion. */
  predicate Separate(enc: Encoding, s: string) {
    enc == NativeUtf8 || WellFormed(s)
  }

  lemma TranscodeConcat(enc: Encoding, s: string, rest: string)
    requires Separate(enc, s)
    ensures Transcode(enc, s + rest) == Transcode(enc, s) + Transcode(enc, rest)
    ensures Separate(enc, rest) ==> Separate(enc, s + rest)
  {
    hide Bytes, EncodeAll, Decode8, WellFormed;
    if enc == NativeUtf8 {
      assert CharCodes(s + rest) == CharCodes(s) + CharCodes(rest);
    } else {
      WellFormedConcat(s, rest);
      EncodeAllConcat(TargetOf(enc), Decode8(s), Decode8(rest));
      BytesConcat(EncodeAll(TargetOf(enc), Decode8(s)), EncodeAll(TargetOf(enc), Decode8(rest)), Width(enc),
                  IsBigEndian(enc));
    }
  }

  lemma TakeFits(enc: Encoding, s: string)
    requires s != "" && enc != NativeUtf8
    ensures |EncodeAll(TargetOf(enc), GivenUnit(Take8(s).unit))| <= Take8(s).length
  {
    var u := Take8(s).unit;
    if u.Some? {
      EncodeAllOne(TargetOf(enc), u.value);
    } else {
      assert EncodeAll(TargetOf(enc), []) == [];
    }
  }

  /** No conversion has more units than its input has bytes, so a chunk fits the scratch space. */
  lemma {:induction false} Fits(enc: Encoding, s: string)
    requires enc != NativeUtf8
    ensures |EncodeAll(TargetOf(enc), Decode8(s))| <= |s|
    decreases |s|
  {
    hide Encode, Take8, EncodeAll;
    if s == "" {
      assert EncodeAll(TargetOf(enc), []) == [] by {
        NoUnits(TargetOf(enc));
      }
    } else {
      TakeFits(enc, s);
      Fits(enc, s[Take8(s).length..]);
      EncodeAllConcat(TargetOf(enc), GivenUnit(Take8(s).unit), Decode8(s[Take8(s).length..]));
    }
  }

  lemma NoUnits(target: Target)
    ensures EncodeAll(target, []) == []
  {
  }

  // Byte order

  function Swap(v: nat, width: nat): nat {
    if width == 2 then Swap16(v) else if width == 4 then Swap32(v) else v
  }

  /** Largest value of a unit, plus one. */
  function Limit(width: nat): nat {
    if width == 2 then 0x1_0000 else if width == 4 then 0x1_0000_0000 else 0x100
  }

  /** Storing swapped units on one kind of machine gives the bytes of the units on the other. */
  lemma SwappedBytes(v: nat, width: nat, big: bool)
    requires v < Limit(width)
    ensures UnitBytes(Swap(v, width), width, big) == UnitBytes(v, width, !big)
  {
    if width == 2 {
      var a, b := v / 0x100, v % 0x100;
      assert Swap16(v) == b * 0x100 + a && Swap16(v) / 0x100 == b && Swap16(v) % 0x100 == a;
    } else if width == 4 {
      SwappedBytes4(v / 0x100_0000, v / 0x1_0000 % 0x100, v / 0x100 % 0x100, v % 0x100);
    }
  }

  lemma SwappedBytes4(a: nat, b: nat, c: nat, d: nat)
    requires a < 0x100 && b < 0x100 && c < 0x100 && d < 0x100
    ensures
      var w := d * 0x100_0000 + c * 0x1_0000 + b * 0x100 + a;
      w / 0x100_0000 == d && w / 0x1_0000 % 0x100 == c && w / 0x100 % 0x100 == b && w % 0x100 == a
  {
    var w := d * 0x100_0000 + c * 0x1_0000 + b * 0x100 + a;
    assert w / 0x100 == d * 0x1_0000 + c * 0x100 + b;
    assert w / 0x1_0000 == d * 0x100 + c;
  }

  lemma {:induction false} SwappedAll(us: seq<nat>, vs: seq<nat>, width: nat, big: bool)
    requires |vs| == |us| && forall i :: 0 <= i < |us| ==> us[i] < Limit(width) && vs[i] == Swap(us[i], width)
    ensures Bytes(vs, width, big) == Bytes(us, width, !big)
    decreases |us|
  {
    if us != [] {
      hide UnitBytes, Bytes, Swap;
      SwappedAll(us[..|us| - 1], vs[..|us| - 1], width, big);
      BytesStep(us, width, !big);
      BytesStep(vs, width, big);
      SwappedBytes(us[|us| - 1], width, big);
    } else {
      assert vs == [];
    }
  }

  lemma Take8Limit(s: string)
    requires s != "" && Take8(s).unit.Some?
    ensures Take8(s).unit.value.code < 0x20_0000
  {
  }

  lemma {:induction false} Decode8Limit(s: string)
    ensures forall u :: u in Decode8(s) ==> u.code < 0x20_0000
    decreases |s|
  {
    if s != "" {
      Decode8Limit(s[Take8(s).length..]);
      if Take8(s).unit.Some? {
        Take8Limit(s);
      }
      hide Take8;
    }
  }

  lemma {:induction false} UnitsLimit(enc: Encoding, us: seq<Unit>)
    requires enc != NativeUtf8 && forall u :: u in us ==> u.code < 0x20_0000
    ensures forall v :: v in EncodeAll(TargetOf(enc), us) ==> v < Limit(Width(enc))
    decreases |us|
  {
    if us != [] {
      UnitsLimit(enc, us[..|us| - 1]);
      assert us[|us| - 1] in us;
      UnitLimit(enc, us[|us| - 1]);
      hide Encode;
    }
  }

  lemma UnitLimit(enc: Encoding, u: Unit)
    requires enc != NativeUtf8 && u.code < 0x20_0000
    ensures forall v :: v in Encode(TargetOf(enc), u) ==> v < Limit(Width(enc))
  {
  }

  /** xml_buffered_writer, together with the sink it writes to. */
  class Writer {
    const enc: Encoding
    /** Whether the machine stores the most significant byte first. */
    const bigMachine: bool
    const buffer: array<char>
    const scratch: array<nat>
    var bufsize: nat
    /** The bytes that the sink has received. */
    var emitted: seq<nat>
    /** The text that those bytes stand for. */
    ghost var flushed: string

    ghost predicate Valid()
      reads this, buffer
    {
      && buffer.Length == CAPACITY && scratch.Length == CAPACITY && bufsize <= CAPACITY
      && Separate(enc, flushed) && Separate(enc, buffer[..bufsize])
      && emitted == Transcode(enc, flushed)
    }

    /** Everything that has been written so far. */
    ghost function Contents(): string
      requires Valid()
      reads this, buffer
    {
      flushed + buffer[..bufsize]
    }

    constructor (enc: Encoding, bigMachine: bool)
      ensures Valid() && Contents() == "" && this.enc == enc && fresh(buffer) && fresh(scratch)
    {
      this.enc, this.bigMachine := enc, bigMachine;
      buffer := new char[CAPACITY](_ => '\0');
      scratch := new nat[CAPACITY](_ => 0);
      bufsize, emitted, flushed := 0, [], "";
      new;
      Empty(enc);
      assert buffer[..0] == "";
    }

    /** convert_buffer_output: the bytes of a converted chunk, in the byte order of the encoding. */
    method ConvertBufferOutput(data: string) returns (bytes: seq<nat>)
      requires enc != NativeUtf8 && |data| <= CAPACITY == scratch.Length
      modifies scratch
      ensures bytes == Transcode(enc, data)
      ensures |bytes| <= 4 * CAPACITY
    {
      hide EncodeAll, Decode8, Bytes, Swap, UnitBytes;
      ghost var units := EncodeAll(TargetOf(enc), Decode8(data));
      Fits(enc, data);
      Decode8Limit(data);
      UnitsLimit(enc, Decode8(data));
      var end := Process8(data, 0, TargetOf(enc), false, scratch, 0);
      assert scratch[0..end] == units;
      var swap := Width(enc) > 1 && bigMachine != IsBigEndian(enc);
      if swap {
        SwapUnits(end, units);
        assert forall i :: 0 <= i < |units| ==> units[i] in units;
        SwappedAll(units, scratch[..end], Width(enc), bigMachine);
      } else if Width(enc) == 1 {
        OneByte(units, bigMachine, IsBigEndian(enc));
      }
      bytes := Bytes(scratch[..end], Width(enc), bigMachine);
      BytesLength(scratch[..end], Width(enc), bigMachine);
    }

    /** The loop that swaps the bytes of every unit. */
    method SwapUnits(end: nat, ghost units: seq<nat>)
      requires end <= scratch.Length && scratch[0..end] == units
      modifies scratch
      ensures forall i :: 0 <= i < end ==> scratch[i] == Swap(units[i], Width(enc))
    {
      assert forall i :: 0 <= i < end ==> scratch[i] == scratch[0..end][i];
      var i := 0;
      while i < end
        invariant i <= end && |units| == end
        invariant forall j :: 0 <= j < i ==> scratch[j] == Swap(units[j], Width(enc))
        invariant forall j :: i <= j < end ==> scratch[j] == units[j]
      {
        scratch[i] := Swap(scratch[i], Width(enc));
        i := i + 1;
      }
    }

    /** flush(data, size). */
    method FlushData(data: string)
      requires enc != NativeUtf8 ==> |data| <= CAPACITY == scratch.Length
      modifies this`emitted, scratch
      ensures emitted == old(emitted) + Transcode(enc, data)
    {
      if |data| == 0 {
        Empty(enc);
        return;
      }
      if enc == NativeUtf8 {
        emitted := emitted + CharCodes(data);
      } else {
        var bytes := ConvertBufferOutput(data);
        emitted := emitted + bytes;
      }
    }

    /** flush(). */
    method Flush()
      requires Valid()
      modifies this`emitted, this`bufsize, this`flushed, scratch
      ensures Valid() && bufsize == 0 && Contents() == old(Contents())
      ensures emitted == Transcode(enc, Contents())
    {
      hide Transcode, Separate;
      FlushData(buffer[..bufsize]);
      TranscodeConcat(enc, flushed, buffer[..bufsize]);
      flushed := flushed + buffer[..bufsize];
      bufsize := 0;
      EmptyIsSeparate(enc);
      assert buffer[..bufsize] == "";
      assert flushed + "" == flushed;
    }

    /** The overloads of write: up to six characters. */
    method Write(d: string)
      requires Valid() && 1 <= |d| <= 6 && Separate(enc, d)
      modifies this`emitted, this`bufsize, this`flushed, buffer, scratch
      ensures Valid() && Contents() == old(Contents()) + d
    {
      hide Transcode, Separate;
      if bufsize > CAPACITY - |d| {
        Flush();
      }
      Append(d);
    }

    /** memcpy to the end of the buffer. */
    method Append(d: string)
      requires Valid() && bufsize + |d| <= CAPACITY && Separate(enc, d)
      modifies this`bufsize, buffer
      ensures Valid() && Contents() == old(Contents()) + d
    {
      hide Transcode, Separate;
      ghost var before := buffer[..bufsize];
      var i := 0;
      while i < |d|
        invariant i <= |d|
        invariant forall j :: 0 <= j < bufsize ==> buffer[j] == before[j]
        invariant forall j :: 0 <= j < i ==> buffer[bufsize + j] == d[j]
        modifies buffer
      {
        buffer[bufsize + i] := d[i];
        i := i + 1;
      }
      TranscodeConcat(enc, before, d);
      bufsize := bufsize + |d|;
      assert buffer[..bufsize] == before + d;
      assert flushed + (before + d) == flushed + before + d;
    }

    /** write_direct: large pieces are converted in chunks that end between characters. */
    method WriteDirect(data: string)
      requires Valid() && Separate(enc, data)
      modifies this`emitted, this`bufsize, this`flushed, buffer, scratch
      ensures Valid() && Contents() == old(Contents()) + data
    {
      hide Transcode, WellFormed;
      Flush();
      var p := 0;
      assert data[0..] == data && data[..0] == "";
      if |data| > CAPACITY {
        if enc == NativeUtf8 {
          FlushAll(data);
          return;
        }
        p := WriteChunks(data);
      }
      assert data[..p] + data[p..] == data;
      Append(data[p..]);
    }

    method FlushAll(data: string)
      requires Valid() && bufsize == 0 && enc == NativeUtf8
      modifies this`emitted, this`flushed, scratch
      ensures Valid() && bufsize == 0 && Contents() == old(Contents()) + data
    {
      FlushData(data);
      TranscodeConcat(enc, flushed, data);
      flushed := flushed + data;
    }

    /** The chunk loop: every chunk has at least one character, and what is left fits the buffer. */
    method WriteChunks(data: string) returns (p: nat)
      requires Valid() && bufsize == 0 && enc != NativeUtf8 && WellFormed(data)
      modifies this`emitted, this`flushed, scratch
      ensures Valid() && bufsize == 0 && p <= |data| && |data| - p <= CAPACITY && WellFormed(data[p..])
      ensures Contents() == old(Contents()) + data[..p]
    {
      hide Transcode, WellFormed;
      p := 0;
      ghost var start := flushed;
      assert data[0..] == data && data[..0] == "" && buffer[..bufsize] == "";
      while |data| - p > CAPACITY
        invariant p <= |data| && WellFormed(data[p..])
        invariant Valid() && bufsize == 0 && flushed == start + data[..p]
        modifies this`emitted, this`flushed, scratch
      {
        var q := WriteChunk(data, p);
        assert data[..p] + data[p..q] == data[..q];
        p := q;
      }
      assert buffer[..bufsize] == "";
    }

    method WriteChunk(data: string, p: nat) returns (q: nat)
      requires Valid() && bufsize == 0 && enc != NativeUtf8 && p + CAPACITY < |data| && WellFormed(data[p..])
      modifies this`emitted, this`flushed, scratch
      ensures Valid() && p < q <= |data| && WellFormed(data[q..])
      ensures flushed == old(flushed) + data[p..q]
    {
      hide Transcode, WellFormed;
      var size := GetValidLength(data[p..p + CAPACITY]);
      assert data[p..p + CAPACITY] == data[p..][..CAPACITY];
      ChunkCut(data[p..], CAPACITY, size);
      q := p + size;
      assert data[p..][..size] == data[p..q] && data[p..][size..] == data[q..];
      FlushData(data[p..q]);
      TranscodeConcat(enc, flushed, data[p..q]);
      flushed := flushed + data[p..q];
    }

    /** write_buffer. */
    method WriteBuffer(data: string)
      requires Valid() && Separate(enc, data)
      modifies this`emitted, this`bufsize, this`flushed, buffer, scratch
      ensures Valid() && Contents() == old(Contents()) + data
    {
      hide Transcode, Separate;
      if bufsize + |data| <= CAPACITY {
        Append(data);
      } else {
        WriteDirect(data);
      }
    }

    /** write_string: fill the buffer, and give back a character that does not fit in full. */
    method WriteString(data: string)
      requires Valid() && Separate(enc, data)
      modifies this`emitted, this`bufsize, this`flushed, buffer, scratch
      ensures Valid() && Contents() == old(Contents()) + data
    {
      hide Transcode, Separate, WellFormed;
      ghost var before, contents := buffer[..bufsize], Contents();
      var offset := Fill(data);
      var length := offset - bufsize;
      var kept := length;
      if offset == CAPACITY {
        kept := GetValidLength(data[..length]);
        StringCut(enc, data, length, kept);
      } else {
        assert data[..kept] == data && data[kept..] == "";
      }
      Accept(data[..kept], before);
      Joined(contents, data, kept);
      if offset == CAPACITY {
        WriteDirect(data[kept..]);
      }
    }

    /** Copy as much of a string as fits behind the contents of the buffer. */
    method Fill(data: string) returns (offset: nat)
      requires Valid()
      modifies buffer
      ensures Valid() && bufsize <= offset <= CAPACITY && offset - bufsize <= |data|
      ensures offset < CAPACITY ==> offset == bufsize + |data|
      ensures buffer[..bufsize] == old(buffer[..bufsize])
      ensures forall j :: bufsize <= j < offset ==> buffer[j] == data[j - bufsize]
    {
      hide Transcode, Separate;
      offset := bufsize;
      ghost var before := buffer[..bufsize];
      while offset - bufsize < |data| && offset < CAPACITY
        invariant bufsize <= offset <= CAPACITY && offset - bufsize <= |data|
        invariant forall j :: 0 <= j < bufsize ==> buffer[j] == before[j]
        invariant forall j :: bufsize <= j < offset ==> buffer[j] == data[j - bufsize]
      {
        buffer[offset] := data[offset - bufsize];
        offset := offset + 1;
      }
      assert buffer[..bufsize] == before;
    }

    /** The characters behind the end of the buffer become part of it. */
    method Accept(d: string, ghost before: string)
      requires Valid() && bufsize + |d| <= CAPACITY && Separate(enc, d) && before == buffer[..bufsize]
      requires forall j :: bufsize <= j < bufsize + |d| ==> buffer[j] == d[j - bufsize]
      modifies this`bufsize
      ensures Valid() && Contents() == old(Contents()) + d
    {
      hide Transcode, Separate;
      TranscodeConcat(enc, before, d);
      bufsize := bufsize + |d|;
      assert buffer[..bufsize] == before + d;
      assert flushed + (before + d) == flushed + before + d;
    }
  }

  lemma Joined(s: string, t: string, k: nat)
    requires k <= |t|
    ensures s + t[..k] + t[k..] == s + t
  {
    assert t[..k] + t[k..] == t;
  }

  lemma StringCut(enc: Encoding, s: string, n: nat, k: nat)
    requires Separate(enc, s) && k <= n <= |s| && (n >= 5 || k == 0)
    requires k < n && k > 0 ==> !IsContinuation(s[..n][k])
    requires k == n >= 5 ==> forall j :: k - 4 <= j < k ==> IsContinuation(s[..n][j])
    ensures Separate(enc, s[..k]) && Separate(enc, s[k..])
  {
    if enc != NativeUtf8 {
      assert forall j :: 0 <= j < n ==> s[..n][j] == s[j];
      ChunkCut(s, n, k);
    }
  }

  lemma Empty(enc: Encoding)
    ensures Transcode(enc, "") == [] && Separate(enc, "")
  {
    NoUnits(TargetOf(enc));
  }

  lemma EmptyIsSeparate(enc: Encoding)
    ensures Separate(enc, "")
  {
  }

  lemma {:induction false} OneByte(us: seq<nat>, big: bool, big': bool)
    ensures Bytes(us, 1, big) == Bytes(us, 1, big')
  {
    if us != [] {
      OneByte(us[..|us| - 1], big, big');
    }
  }

  lemma {:induction false} BytesLength(us: seq<nat>, width: nat, big: bool)
    requires width == 1 || width == 2 || width == 4
    ensures |Bytes(us, width, big)| == width * |us|
  {
    if us != [] {
      BytesLength(us[..|us| - 1], width, big);
    }
  }

  // Whole runs

  datatype Call = CallWrite(d: string) | CallWriteBuffer(d: string) | CallWriteString(d: string) | CallFlush

  function Piece(c: Call): string {
    if c.CallFlush? then "" else c.d
  }

  function Pieces(calls: seq<Call>): string {
    if calls == [] then "" else Pieces(calls[..|calls| - 1]) + Piece(calls[|calls| - 1])
  }

  predicate Allowed(enc: Encoding, c: Call) {
    Separate(enc, Piece(c)) && (c.CallWrite? ==> 1 <= |c.d| <= 6)
  }

  method Perform(w: Writer, c: Call)
    requires w.Valid() && Allowed(w.enc, c)
    modifies w`emitted, w`bufsize, w`flushed, w.buffer, w.scratch
    ensures w.Valid() && w.Contents() == old(w.Contents()) + Piece(c)
  {
    hide Transcode, Separate;
    match c
    case CallWrite(d) => w.Write(d);
    case CallWriteBuffer(d) => w.WriteBuffer(d);
    case CallWriteString(d) => w.WriteString(d);
    case CallFlush =>
      w.Flush();
  }

  lemma PiecesGrow(calls: seq<Call>, i: nat)
    requires i < |calls|
    ensures Pieces(calls[..i + 1]) == Pieces(calls[..i]) + Piece(calls[i])
  {
    assert calls[..i + 1][..i] == calls[..i];
  }

  /** Any run of calls, ended by a flush, emits what converting all the text at once would give. */
  method Run(enc: Encoding, bigMachine: bool, calls: seq<Call>) returns (w: Writer)
    requires forall i :: 0 <= i < |calls| ==> Allowed(enc, calls[i])
    ensures w.emitted == Transcode(enc, Pieces(calls))
  {
    hide Transcode, Separate, Pieces, Piece, Allowed;
    w := new Writer(enc, bigMachine);
    var i := 0;
    NoPieces();
    assert calls[..0] == [];
    while i < |calls|
      invariant i <= |calls| && fresh(w) && fresh(w.buffer) && fresh(w.scratch)
      invariant w.Valid() && w.enc == enc && w.Contents() == Pieces(calls[..i])
    {
      PiecesGrow(calls, i);
      Perform(w, calls[i]);
      i := i + 1;
    }
    assert calls[..i] == calls;
    w.Flush();
  }

  lemma NoPieces()
    ensures Pieces([]) == ""
  {
  }
}
