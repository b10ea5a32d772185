/**
 Transcoding between UTF-8 (section 3 of RFC 3629), UTF-16 (section 2 of RFC
 2781), UTF-32 and Latin-1, malformed input included.
 */
module Utf {

  import opened Common

  /** A decoded value, and by which of the two entry points of a writer it is passed on. */
  datatype Unit = Low(code: nat) | High(code: nat)

  datatype Target = Utf8 | Utf16 | Utf32 | Latin1

  /** What a writer stores for one value; each element is truncated to the width of the target's units. */
  function Encode(target: Target, u: Unit): (r: seq<nat>)
    ensures 1 <= |r| <= 4
  {
    var c := u.code;
    match target
    case Utf8 =>
      if u.High? then
        [0xF0 + c / 0x40000 % 0x10, 0x80 + c / 0x1000 % 0x40, 0x80 + c / 0x40 % 0x40, 0x80 + c % 0x40]
      else if c < 0x80 then [c]
      else if c < 0x800 then [0xC0 + c / 0x40, 0x80 + c % 0x40]
      else [0xE0 + c / 0x1000 % 0x10, 0x80 + c / 0x40 % 0x40, 0x80 + c % 0x40]
    case Utf16 =>
      if u.High? then
        var d := (c - 0x10000) % 0x1_0000_0000;
        [(0xD800 + d / 0x400) % 0x10000, 0xDC00 + d % 0x400]
      else [c % 0x10000]
    case Utf32 => [c]
    case Latin1 => if u.High? || c > 255 then ['?' as nat] else [c]
  }

  function EncodeAll(target: Target, us: seq<Unit>): seq<nat> {
    if us == [] then [] else EncodeAll(target, us[..|us| - 1]) + Encode(target, us[|us| - 1])
  }

  // UTF-8

  predicate IsContinuation(c: char) {
    0x80 <= c as int < 0xC0
  }

  /** One step of the decoder: how many bytes it consumes, and the value it passes on, if any. */
  datatype Taken = Taken(length: nat, unit: Option<Unit>)

  function Bits(c: char): nat
    requires IsContinuation(c)
  {
    c as int - 0x80
  }

  function Take8(s: string): (r: Taken)
    requires s != ""
    ensures 1 <= r.length <= |s| && r.length <= 4
  {
    var b := s[0] as int;
    if b < 0x80 then Taken(1, Some(Low(b)))
    else if 0xC0 <= b < 0xE0 && |s| >= 2 && IsContinuation(s[1]) then
      Taken(2, Some(Low((b - 0xC0) * 0x40 + Bits(s[1]))))
    else if 0xE0 <= b < 0xF0 && |s| >= 3 && IsContinuation(s[1]) && IsContinuation(s[2]) then
      Taken(3, Some(Low((b - 0xE0) * 0x1000 + Bits(s[1]) * 0x40 + Bits(s[2]))))
    else if 0xF0 <= b < 0xF8 && |s| >= 4 && IsContinuation(s[1]) && IsContinuation(s[2]) && IsContinuation(s[3]) then
      Taken(4, Some(High((b - 0xF0) * 0x40000 + Bits(s[1]) * 0x1000 + Bits(s[2]) * 0x40 + Bits(s[3]))))
    else Taken(1, None)
  }

  function GivenUnit(u: Option<Unit>): seq<Unit> {
    if u.Some? then [u.value] else []
  }

  function Decode8(s: string): seq<Unit>
    decreases |s|
  {
    if s == "" then [] else GivenUnit(Take8(s).unit) + Decode8(s[Take8(s).length..])
  }

  /** Every byte belongs to a sequence that the decoder accepts. */
  predicate WellFormed(s: string)
    decreases |s|
  {
    s == "" || (Take8(s).unit.Some? && WellFormed(s[Take8(s).length..]))
  }

  lemma {:induction false} EncodeAllConcat(target: Target, us: seq<Unit>, vs: seq<Unit>)
    ensures EncodeAll(target, us + vs) == EncodeAll(target, us) + EncodeAll(target, vs)
    decreases |vs|
  {
    hide Encode;
    if vs == [] {
      assert us + vs == us;
    } else {
      EncodeAllConcat(target, us, vs[..|vs| - 1]);
      assert (us + vs)[..|us + vs| - 1] == us + vs[..|vs| - 1];
    }
  }

  lemma EncodeAllOne(target: Target, u: Unit)
    ensures EncodeAll(target, [u]) == Encode(target, u)
  {
    assert EncodeAll(target, []) == [];
    assert [u][..0] == [];
  }

  /** The counters: how many units a value takes. */
  function Count(target: Target, u: Unit): (n: nat)
    ensures n == |Encode(target, u)|
  {
    match target
    case Utf8 => if u.High? then 4 else if u.code < 0x80 then 1 else if u.code < 0x800 then 2 else 3
    case Utf16 => if u.High? then 2 else 1
    case Utf32 => 1
    case Latin1 => 1
  }

  /** low or high of a writer, or of the counter that goes with it. */
  method Emit(target: Target, counting: bool, out: array<nat>, result: nat, u: Unit) returns (r: nat)
    requires counting || result + |Encode(target, u)| <= out.Length
    modifies out
    ensures r == result + |Encode(target, u)|
    ensures !counting ==> out[result..r] == Encode(target, u)
    ensures forall i :: 0 <= i < out.Length && (counting || !(result <= i < r)) ==> out[i] == old(out[i])
  {
    hide Encode;
    if counting {
      return result + Count(target, u);
    }
    var units := Encode(target, u);
    r := result;
    while r < result + |units|
      invariant result <= r <= result + |units|
      invariant forall i :: result <= i < r ==> out[i] == units[i - result]
      invariant forall i :: 0 <= i < out.Length && !(result <= i < r) ==> out[i] == old(out[i])
    {
      out[r] := units[r - result];
      r := r + 1;
    }
  }

  /** Where the decoder stands: done has been passed on, rest has not been read. */
  ghost predicate Passing(target: Target, counting: bool, out: array<nat>, from: nat, result: nat, done: seq<Unit>)
    reads out
  {
    result == from + |EncodeAll(target, done)| &&
    (!counting ==> result <= out.Length && out[from..result] == EncodeAll(target, done))
  }

  /** The decoder passes on one more value. */
  method PassOn(target: Target, counting: bool, out: array<nat>, from: nat, result: nat, u: Unit, ghost done: seq<Unit>,
                ghost rest: seq<Unit>)
    returns (r: nat)
    requires Passing(target, counting, out, from, result, done)
    requires counting || from + |EncodeAll(target, done + [u] + rest)| <= out.Length
    modifies out
    ensures Passing(target, counting, out, from, r, done + [u])
    ensures forall i :: 0 <= i < out.Length && (counting || !(from <= i < r)) ==> out[i] == old(out[i])
  {
    hide Encode, EncodeAll;
    EncodeAllConcat(target, done, [u]);
    EncodeAllConcat(target, done + [u], rest);
    EncodeAllOne(target, u);
    ghost var before := out[..];
    r := Emit(target, counting, out, result, u);
    assert !counting ==> out[from..result] == before[from..result];
    assert !counting ==> out[from..r] == out[from..result] + out[result..r];
  }

  /** The decoder has passed on the values in done; rest is what it will still find. */
  ghost predicate Come(all: seq<Unit>, rest: seq<Unit>, target: Target, counting: bool, out: array<nat>, from: nat,
                       result: nat, done: seq<Unit>)
    reads out
  {
    all == done + rest && Passing(target, counting, out, from, result, done)
  }

  lemma ComeStart(all: seq<Unit>, target: Target, counting: bool, out: array<nat>, from: nat)
    requires counting || from <= out.Length
    ensures Come(all, all, target, counting, out, from, from, [])
  {
    assert EncodeAll(target, []) == [];
  }

  lemma ComeEnd(all: seq<Unit>, target: Target, counting: bool, out: array<nat>, from: nat, result: nat,
                done: seq<Unit>)
    requires Come(all, [], target, counting, out, from, result, done)
    ensures done == all && Passing(target, counting, out, from, result, done)
  {
  }

  method PassTaken(taken: Option<Unit>, target: Target, counting: bool, out: array<nat>, from: nat, result: nat,
                   ghost all: seq<Unit>, ghost rest: seq<Unit>, ghost rest': seq<Unit>, ghost done: seq<Unit>)
    returns (r: nat, ghost done': seq<Unit>)
    requires rest == GivenUnit(taken) + rest'
    requires counting || from + |EncodeAll(target, all)| <= out.Length
    requires Come(all, rest, target, counting, out, from, result, done)
    modifies out
    ensures r >= result && Come(all, rest', target, counting, out, from, r, done')
    ensures forall i :: 0 <= i < out.Length && (counting || !(from <= i < r)) ==> out[i] == old(out[i])
  {
    hide EncodeAll, Encode;
    r, done' := result, done;
    if taken.Some? {
      done' := done + [taken.value];
      assert all == done' + rest';
      EncodeAllConcat(target, done, [taken.value]);
      r := PassOn(target, counting, out, from, result, taken.value, done, rest');
    }
  }

  /**
   utf8_decoder::process: decode into a writer, or into a counter.  After an ASCII byte at an aligned address, ASCII
   bytes are taken four at a time.
   */
  method Process8(data: string, address: nat, target: Target, counting: bool, out: array<nat>, from: nat)
    returns (result: nat)
    requires counting || from + |EncodeAll(target, Decode8(data))| <= out.Length
    modifies out
    ensures result == from + |EncodeAll(target, Decode8(data))|
    ensures !counting ==> out[from..result] == EncodeAll(target, Decode8(data))
    ensures forall i :: 0 <= i < out.Length && (counting || !(from <= i < result)) ==> out[i] == old(out[i])
  {
    hide EncodeAll, Decode8, Take8, Encode, Come;
    result := from;
    var p := 0;
    ghost var all, done: seq<Unit> := Decode8(data), [];
    assert data[0..] == data;
    ComeStart(all, target, counting, out, from);
    while p < |data|
      invariant p <= |data| && Come(all, Decode8(data[p..]), target, counting, out, from, result, done)
      invariant forall i :: 0 <= i < out.Length && (counting || !(from <= i < result)) ==> out[i] == old(out[i])
    {
      if data[p] as int < 0x80 {
        result, done, p := PassAscii(data, p, target, counting, out, from, result, done);
        if (address + p) % 4 == 0 {
          while |data| - p >= 4 && data[p] as int < 0x80 && data[p + 1] as int < 0x80 && data[p + 2] as int < 0x80 &&
                data[p + 3] as int < 0x80
            invariant p <= |data| && Come(all, Decode8(data[p..]), target, counting, out, from, result, done)
            invariant forall i :: 0 <= i < out.Length && (counting || !(from <= i < result)) ==> out[i] == old(out[i])
          {
            result, done, p := PassAscii(data, p, target, counting, out, from, result, done);
            result, done, p := PassAscii(data, p, target, counting, out, from, result, done);
            result, done, p := PassAscii(data, p, target, counting, out, from, result, done);
            result, done, p := PassAscii(data, p, target, counting, out, from, result, done);
          }
        }
      } else {
        var taken := TakeMultibyte(data, p);
        Decode8Step(data, p, taken);
        result, done := PassTaken(taken.unit, target, counting, out, from, result, all, Decode8(data[p..]),
                                  Decode8(data[p + taken.length..]), done);
        p := p + taken.length;
      }
    }
    Decode8None();
    assert data[p..] == "";
    ComeEnd(all, target, counting, out, from, result, done);
  }

  lemma Decode8None()
    ensures Decode8("") == []
  {
  }

  method PassAscii(data: string, p: nat, target: Target, counting: bool, out: array<nat>, from: nat, result: nat,
                   ghost done: seq<Unit>)
    returns (r: nat, ghost done': seq<Unit>, q: nat)
    requires p < |data| && data[p] as int < 0x80
    requires counting || from + |EncodeAll(target, Decode8(data))| <= out.Length
    requires Come(Decode8(data), Decode8(data[p..]), target, counting, out, from, result, done)
    modifies out
    ensures q == p + 1 && r >= result
    ensures Come(Decode8(data), Decode8(data[q..]), target, counting, out, from, r, done')
    ensures forall i :: 0 <= i < out.Length && (counting || !(from <= i < r)) ==> out[i] == old(out[i])
  {
    hide EncodeAll, Decode8, Take8, Encode, Come;
    q := p + 1;
    AsciiStep(data, p);
    Decode8Step(data, p, Taken(1, Some(Low(data[p] as int))));
    r, done' := PassTaken(Some(Low(data[p] as int)), target, counting, out, from, result, Decode8(data),
                          Decode8(data[p..]), Decode8(data[q..]), done);
  }

  lemma Decode8Step(data: string, p: nat, t: Taken)
    requires p < |data| && t == Take8(data[p..])
    ensures p + t.length <= |data| && Decode8(data[p..]) == GivenUnit(t.unit) + Decode8(data[p + t.length..])
  {
    assert data[p..][t.length..] == data[p + t.length..];
  }

  lemma AsciiStep(data: string, p: nat)
    requires p < |data| && data[p] as int < 0x80
    ensures Take8(data[p..]) == Taken(1, Some(Low(data[p] as int)))
  {
  }

  /** The decoder's branches for a byte that is not ASCII. */
  method TakeMultibyte(data: string, p: nat) returns (t: Taken)
    requires p < |data| && data[p] as int >= 0x80
    ensures t == Take8(data[p..])
  {
    var lead, size := data[p] as int, |data| - p;
    if 0 <= lead - 0xC0 < 0x20 && size >= 2 && IsContinuation(data[p + 1]) {
      return Taken(2, Some(Low((lead - 0xC0) * 0x40 + Bits(data[p + 1]))));
    } else if 0 <= lead - 0xE0 < 0x10 && size >= 3 && IsContinuation(data[p + 1]) && IsContinuation(data[p + 2]) {
      return Taken(3, Some(Low((lead - 0xE0) * 0x1000 + Bits(data[p + 1]) * 0x40 + Bits(data[p + 2]))));
    } else if 0 <= lead - 0xF0 < 0x08 && size >= 4 && IsContinuation(data[p + 1]) && IsContinuation(data[p + 2]) &&
              IsContinuation(data[p + 3]) {
      return Taken(4, Some(High((lead - 0xF0) * 0x40000 + Bits(data[p + 1]) * 0x1000 + Bits(data[p + 2]) * 0x40 +
                                Bits(data[p + 3]))));
    } else {
      return Taken(1, None);
    }
  }

  // UTF-16 and UTF-32

  /** endian_swap of 16 bits. */
  function Swap16(v: nat): nat {
    v % 0x100 * 0x100 + v / 0x100
  }

  /** endian_swap of 32 bits. */
  function Swap32(v: nat): nat {
    v % 0x100 * 0x100_0000 + v / 0x100 % 0x100 * 0x1_0000 + v / 0x1_0000 % 0x100 * 0x100 + v / 0x100_0000
  }

  function Unit16(v: nat, swap: bool): nat {
    if swap then Swap16(v) else v
  }

  function Take16(s: seq<nat>, swap: bool): (r: Taken)
    requires s != []
    ensures 1 <= r.length <= |s|
  {
    var lead := Unit16(s[0], swap);
    if lead < 0xD800 then Taken(1, Some(Low(lead)))
    else if 0xE000 <= lead < 0x10000 then Taken(1, Some(Low(lead)))
    else if 0xD800 <= lead < 0xDC00 && |s| >= 2 && 0xDC00 <= Unit16(s[1], swap) < 0xE000 then
      Taken(2, Some(High(0x10000 + (lead - 0xD800) * 0x400 + (Unit16(s[1], swap) - 0xDC00))))
    else Taken(1, None)
  }

  function Decode16(s: seq<nat>, swap: bool): seq<Unit>
    decreases |s|
  {
    if s == [] then [] else GivenUnit(Take16(s, swap).unit) + Decode16(s[Take16(s, swap).length..], swap)
  }

  lemma Decode16Step(data: seq<nat>, swap: bool, p: nat, t: Taken)
    requires p < |data| && t == Take16(data[p..], swap)
    ensures p + t.length <= |data|
    ensures Decode16(data[p..], swap) == GivenUnit(t.unit) + Decode16(data[p + t.length..], swap)
  {
    assert data[p..][t.length..] == data[p + t.length..];
  }

  /** utf16_decoder::process. */
  method Process16(data: seq<nat>, swap: bool, target: Target, counting: bool, out: array<nat>, from: nat)
    returns (result: nat)
    requires counting || from + |EncodeAll(target, Decode16(data, swap))| <= out.Length
    modifies out
    ensures result == from + |EncodeAll(target, Decode16(data, swap))|
    ensures !counting ==> out[from..result] == EncodeAll(target, Decode16(data, swap))
    ensures forall i :: 0 <= i < out.Length && (counting || !(from <= i < result)) ==> out[i] == old(out[i])
  {
    hide EncodeAll, Decode16, Take16, Encode, Come, Unit16;
    result := from;
    var p := 0;
    ghost var all, done: seq<Unit> := Decode16(data, swap), [];
    assert data[0..] == data;
    ComeStart(all, target, counting, out, from);
    while p < |data|
      invariant p <= |data| && Come(all, Decode16(data[p..], swap), target, counting, out, from, result, done)
      invariant forall i :: 0 <= i < out.Length && (counting || !(from <= i < result)) ==> out[i] == old(out[i])
    {
      var taken := TakeSurrogates(data, swap, p);
      Decode16Step(data, swap, p, taken);
      result, done := PassTaken(taken.unit, target, counting, out, from, result, all, Decode16(data[p..], swap),
                                Decode16(data[p + taken.length..], swap), done);
      p := p + taken.length;
    }
    Decode16None(swap);
    assert data[p..] == [];
    ComeEnd(all, target, counting, out, from, result, done);
  }

  lemma Decode16None(swap: bool)
    ensures Decode16([], swap) == []
  {
  }

  /** The decoder's branches. */
  method TakeSurrogates(data: seq<nat>, swap: bool, p: nat) returns (t: Taken)
    requires p < |data|
    ensures t == Take16(data[p..], swap)
  {
    var lead := if swap then Swap16(data[p]) else data[p];
    if lead < 0xD800 {
      return Taken(1, Some(Low(lead)));
    } else if 0 <= lead - 0xE000 < 0x2000 {
      return Taken(1, Some(Low(lead)));
    } else if 0 <= lead - 0xD800 < 0x400 && |data| - p >= 2 {
      var next := if swap then Swap16(data[p + 1]) else data[p + 1];
      if 0 <= next - 0xDC00 < 0x400 {
        return Taken(2, Some(High(0x10000 + (lead - 0xD800) * 0x400 + (next - 0xDC00))));
      } else {
        return Taken(1, None);
      }
    } else {
      return Taken(1, None);
    }
  }

  /** convert_buffer_generic on UTF-16 input: the first pass counts, the second writes exactly that much. */
  method ConvertBuffer16(contents: seq<nat>, swap: bool) returns (buffer: array<nat>, length: nat)
    ensures length == |EncodeAll(Utf8, Decode16(contents, swap))| + 1 && buffer.Length == length
    ensures buffer[..] == EncodeAll(Utf8, Decode16(contents, swap)) + [0]
  {
    hide EncodeAll, Decode16;
    var none := new nat[0];
    var n := Process16(contents, swap, Utf8, true, none, 0);
    buffer := new nat[n + 1];
    var end := Process16(contents, swap, Utf8, false, buffer, 0);
    buffer[end] := 0;
    length := n + 1;
    assert buffer[..] == buffer[0..end] + [0];
  }

  // UTF-32 and Latin-1

  function Unit32(v: nat, swap: bool): Unit {
    var lead := if swap then Swap32(v) else v;
    if lead < 0x10000 then Low(lead) else High(lead)
  }

  function Decode32(s: seq<nat>, swap: bool): (us: seq<Unit>)
    ensures |us| == |s|
  {
    seq(|s|, i requires 0 <= i < |s| => Unit32(s[i], swap))
  }

  function DecodeLatin1(s: string): (us: seq<Unit>)
    ensures |us| == |s|
  {
    seq(|s|, i requires 0 <= i < |s| => Low(s[i] as int))
  }

  lemma Decode32At(s: seq<nat>, swap: bool, p: nat)
    requires p < |s|
    ensures Decode32(s, swap)[p] == Unit32(s[p], swap)
  {
  }

  /** utf32_decoder::process. */
  method Process32(data: seq<nat>, swap: bool, target: Target, counting: bool, out: array<nat>, from: nat)
    returns (result: nat)
    requires counting || from + |EncodeAll(target, Decode32(data, swap))| <= out.Length
    modifies out
    ensures result == from + |EncodeAll(target, Decode32(data, swap))|
    ensures !counting ==> out[from..result] == EncodeAll(target, Decode32(data, swap))
    ensures forall i :: 0 <= i < out.Length && (counting || !(from <= i < result)) ==> out[i] == old(out[i])
  {
    hide EncodeAll, Encode, Come, Decode32;
    result := from;
    var p := 0;
    ghost var all, done: seq<Unit> := Decode32(data, swap), [];
    ComeStart(all, target, counting, out, from);
    assert all[0..] == all;
    while p < |data|
      invariant p <= |data| && Come(all, all[p..], target, counting, out, from, result, done)
      invariant forall i :: 0 <= i < out.Length && (counting || !(from <= i < result)) ==> out[i] == old(out[i])
    {
      var lead := if swap then Swap32(data[p]) else data[p];
      var u := if lead < 0x10000 then Low(lead) else High(lead);
      Decode32At(data, swap, p);
      assert all[p..] == [u] + all[p + 1..];
      result, done := PassTaken(Some(u), target, counting, out, from, result, all, all[p..], all[p + 1..], done);
      p := p + 1;
    }
    assert all[p..] == [];
    ComeEnd(all, target, counting, out, from, result, done);
  }

  /** latin1_decoder::process. */
  method ProcessLatin1(data: string, target: Target, counting: bool, out: array<nat>, from: nat) returns (result: nat)
    requires counting || from + |EncodeAll(target, DecodeLatin1(data))| <= out.Length
    modifies out
    ensures result == from + |EncodeAll(target, DecodeLatin1(data))|
    ensures !counting ==> out[from..result] == EncodeAll(target, DecodeLatin1(data))
    ensures forall i :: 0 <= i < out.Length && (counting || !(from <= i < result)) ==> out[i] == old(out[i])
  {
    hide EncodeAll, Encode, Come;
    result := from;
    var p := 0;
    ghost var all, done: seq<Unit> := DecodeLatin1(data), [];
    ComeStart(all, target, counting, out, from);
    assert all[0..] == all;
    while p < |data|
      invariant p <= |data| && Come(all, all[p..], target, counting, out, from, result, done)
      invariant forall i :: 0 <= i < out.Length && (counting || !(from <= i < result)) ==> out[i] == old(out[i])
    {
      var u := Low(data[p] as int);
      assert all[p..] == [u] + all[p + 1..];
      result, done := PassTaken(Some(u), target, counting, out, from, result, all, all[p..], all[p + 1..], done);
      p := p + 1;
    }
    assert all[p..] == [];
    ComeEnd(all, target, counting, out, from, result, done);
  }

  /** convert_buffer_generic on UTF-32 input. */
  method ConvertBuffer32(contents: seq<nat>, swap: bool) returns (buffer: array<nat>, length: nat)
    ensures length == |EncodeAll(Utf8, Decode32(contents, swap))| + 1 && buffer.Length == length
    ensures buffer[..] == EncodeAll(Utf8, Decode32(contents, swap)) + [0]
  {
    hide EncodeAll, Decode32;
    var none := new nat[0];
    var n := Process32(contents, swap, Utf8, true, none, 0);
    buffer := new nat[n + 1];
    var end := Process32(contents, swap, Utf8, false, buffer, 0);
    buffer[end] := 0;
    length := n + 1;
    assert buffer[..] == buffer[0..end] + [0];
  }

  function Codes(s: string): (r: seq<nat>)
    ensures |r| == |s| && forall i :: 0 <= i < |s| ==> r[i] == s[i] as int
  {
    seq(|s|, i requires 0 <= i < |s| => s[i] as int)
  }

  /** ASCII characters need no conversion. */
  lemma {:induction false} AsciiIsUtf8(s: string)
    requires forall i :: 0 <= i < |s| ==> s[i] as int < 0x80
    ensures EncodeAll(Utf8, DecodeLatin1(s)) == Codes(s)
    decreases |s|
  {
    if s != "" {
      var last := |s| - 1;
      AsciiIsUtf8(s[..last]);
      assert DecodeLatin1(s)[..last] == DecodeLatin1(s[..last]);
      assert Encode(Utf8, Low(s[last] as int)) == [s[last] as int];
    }
  }

  lemma Latin1Split(s: string, n: nat)
    requires n <= |s| && forall i :: 0 <= i < n ==> s[i] as int < 0x80
    ensures EncodeAll(Utf8, DecodeLatin1(s)) == Codes(s[..n]) + EncodeAll(Utf8, DecodeLatin1(s[n..]))
  {
    hide EncodeAll;
    AsciiIsUtf8(s[..n]);
    assert DecodeLatin1(s) == DecodeLatin1(s[..n]) + DecodeLatin1(s[n..]);
    EncodeAllConcat(Utf8, DecodeLatin1(s[..n]), DecodeLatin1(s[n..]));
  }

  /** get_latin1_7bit_prefix_length. */
  method AsciiPrefix(data: string) returns (n: nat)
    ensures n <= |data| && (forall i :: 0 <= i < n ==> data[i] as int < 0x80) && (n < |data| ==> data[n] as int >= 0x80)
  {
    for i := 0 to |data|
      invariant forall k :: 0 <= k < i ==> data[k] as int < 0x80
    {
      if data[i] as int > 127 {
        return i;
      }
    }
    return |data|;
  }

  /** convert_buffer_latin1: the ASCII prefix is copied, and the rest decoded. */
  method ConvertBufferLatin1(contents: string) returns (buffer: array<nat>, length: nat)
    ensures length == |EncodeAll(Utf8, DecodeLatin1(contents))| + 1 && buffer.Length == length
    ensures buffer[..] == EncodeAll(Utf8, DecodeLatin1(contents)) + [0]
  {
    hide EncodeAll, DecodeLatin1;
    var prefix := AsciiPrefix(contents);
    Latin1Split(contents, prefix);
    var postfix, codes := contents[prefix..], Codes(contents[..prefix]);
    if postfix == "" {
      NoLatin1();
      buffer := new nat[prefix + 1](i => if 0 <= i < |codes| then codes[i] else 0);
      length := prefix + 1;
      assert buffer[..] == codes + [0];
      return;
    }
    var none := new nat[0];
    var n := ProcessLatin1(postfix, Utf8, true, none, 0);
    buffer := new nat[prefix + n + 1](i => if 0 <= i < |codes| then codes[i] else 0);
    assert buffer[..prefix] == codes;
    var end := ProcessLatin1(postfix, Utf8, false, buffer, prefix);
    buffer[end] := 0;
    length := prefix + n + 1;
    assert buffer[..prefix] == codes;
    assert buffer[..] == buffer[..prefix] + buffer[prefix..end] + [0];
  }

  lemma NoLatin1()
    ensures EncodeAll(Utf8, DecodeLatin1("")) == []
  {
  }

  // Round trips

  /** A Unicode scalar value. */
  predicate IsScalar(c: nat) {
    c < 0xD800 || 0xE000 <= c < 0x110000
  }

  /** How a writer is called for a scalar value: its function any. */
  function ScalarUnit(c: nat): Unit {
    if c < 0x10000 then Low(c) else High(c)
  }

  function ScalarUnits(cs: seq<nat>): seq<Unit> {
    seq(|cs|, i requires 0 <= i < |cs| => ScalarUnit(cs[i]))
  }

  /** Bytes as the characters of a native string. */
  function Chars(bytes: seq<nat>): (s: string)
    requires forall b :: b in bytes ==> b < 0x100
    ensures |s| == |bytes| && forall i :: 0 <= i < |s| ==> s[i] as int == bytes[i]
  {
    assert forall i :: 0 <= i < |bytes| ==> bytes[i] in bytes;
    seq(|bytes|, i requires 0 <= i < |bytes| => bytes[i] as char)
  }

  lemma Encode8Bytes(u: Unit)
    requires u.Low? ==> u.code < 0x10000
    ensures forall b :: b in Encode(Utf8, u) ==> b < 0x100
  {
  }

  lemma {:induction false} EncodeAll8Bytes(us: seq<Unit>)
    requires forall u :: u in us && u.Low? ==> u.code < 0x10000
    ensures forall b :: b in EncodeAll(Utf8, us) ==> b < 0x100
    decreases |us|
  {
    if us != [] {
      EncodeAll8Bytes(us[..|us| - 1]);
      Encode8Bytes(us[|us| - 1]);
    }
  }

  lemma Split2(c: nat)
    requires 0x80 <= c < 0x800
    ensures 0xC0 <= 0xC0 + c / 0x40 < 0xE0 && c == c / 0x40 * 0x40 + c % 0x40
  {
  }

  lemma Split3(c: nat)
    requires 0x800 <= c < 0x10000
    ensures 0xE0 + c / 0x1000 % 0x10 == 0xE0 + c / 0x1000 < 0xF0
    ensures c == c / 0x1000 % 0x10 * 0x1000 + c / 0x40 % 0x40 * 0x40 + c % 0x40
  {
    assert c / 0x1000 == c / 0x40 / 0x40;
  }

  lemma Split4(c: nat)
    requires 0x10000 <= c < 0x110000
    ensures 0xF0 + c / 0x40000 % 0x10 == 0xF0 + c / 0x40000 < 0xF8
    ensures c == c / 0x40000 % 0x10 * 0x40000 + c / 0x1000 % 0x40 * 0x1000 + c / 0x40 % 0x40 * 0x40 + c % 0x40
  {
    assert c / 0x1000 == c / 0x40 / 0x40;
    assert c / 0x40000 == c / 0x1000 / 0x40;
  }

  lemma TakenAre(s: string, bytes: seq<nat>)
    requires 1 <= |bytes| <= 4 && |s| >= |bytes| && forall i :: 0 <= i < |bytes| ==> s[i] as int == bytes[i]
    requires forall i :: 1 <= i < |bytes| ==> 0x80 <= bytes[i] < 0xC0
    ensures |bytes| == 1 && bytes[0] < 0x80 ==> Take8(s) == Taken(1, Some(Low(bytes[0])))
    ensures |bytes| == 2 && 0xC0 <= bytes[0] < 0xE0 ==>
      Take8(s) == Taken(2, Some(Low((bytes[0] - 0xC0) * 0x40 + bytes[1] - 0x80)))
    ensures |bytes| == 3 && 0xE0 <= bytes[0] < 0xF0 ==>
      Take8(s) == Taken(3, Some(Low((bytes[0] - 0xE0) * 0x1000 + (bytes[1] - 0x80) * 0x40 + bytes[2] - 0x80)))
    ensures |bytes| == 4 && 0xF0 <= bytes[0] < 0xF8 ==>
      Take8(s) ==
        Taken(4, Some(High((bytes[0] - 0xF0) * 0x40000 + (bytes[1] - 0x80) * 0x1000 + (bytes[2] - 0x80) * 0x40 +
                                     bytes[3] - 0x80)))
  {
    assert |bytes| > 1 ==> s[1] as int == bytes[1];
    assert |bytes| > 2 ==> s[2] as int == bytes[2];
    assert |bytes| > 3 ==> s[3] as int == bytes[3];
  }

  /** What the decoder takes from a string that starts with the encoding of a scalar value. */
  lemma Take8Encoded(c: nat, s: string)
    requires IsScalar(c)
    requires
      var bytes := Encode(Utf8, ScalarUnit(c));
      |bytes| <= |s| && forall i :: 0 <= i < |bytes| ==> s[i] as int == bytes[i]
    ensures Take8(s) == Taken(|Encode(Utf8, ScalarUnit(c))|, Some(ScalarUnit(c)))
  {
    hide Take8;
    if c < 0x80 {
      TakenAre(s, [c]);
    } else if c < 0x800 {
      Split2(c);
      TakenAre(s, [0xC0 + c / 0x40, 0x80 + c % 0x40]);
    } else if c < 0x10000 {
      Split3(c);
      TakenAre(s, [0xE0 + c / 0x1000 % 0x10, 0x80 + c / 0x40 % 0x40, 0x80 + c % 0x40]);
    } else {
      Split4(c);
      TakenAre(s, [0xF0 + c / 0x40000 % 0x10, 0x80 + c / 0x1000 % 0x40, 0x80 + c / 0x40 % 0x40, 0x80 + c % 0x40]);
    }
  }

  /** Decoding the UTF-8 encoding of any sequence of scalar values returns the sequence. */
  lemma {:induction false} RoundTrip8(cs: seq<nat>)
    requires forall c :: c in cs ==> IsScalar(c)
    ensures forall b :: b in EncodeAll(Utf8, ScalarUnits(cs)) ==> b < 0x100
    ensures
      var s := Chars(EncodeAll(Utf8, ScalarUnits(cs)));
      Decode8(s) == ScalarUnits(cs) && WellFormed(s)
    decreases |cs|
  {
    EncodeAll8Bytes(ScalarUnits(cs));
    if cs != [] {
      hide Take8, Encode, EncodeAll, Chars, Decode8;
      RoundTrip8(cs[1..]);
      var u, us := ScalarUnit(cs[0]), ScalarUnits(cs[1..]);
      assert ScalarUnits(cs) == [u] + us;
      EncodeAllConcat(Utf8, [u], us);
      EncodeAllOne(Utf8, u);
      var head, tail := Encode(Utf8, u), EncodeAll(Utf8, us);
      CharsConcat(head, tail);
      var s := Chars(head + tail);
      Take8Encoded(cs[0], s);
      Decode8Step(s, 0, Take8(s));
      assert s[0..] == s;
    }
  }

  lemma CharsConcat(head: seq<nat>, tail: seq<nat>)
    requires forall b :: b in head + tail ==> b < 0x100
    ensures forall b :: b in tail ==> b < 0x100
    ensures
      var s := Chars(head + tail);
      |head| <= |s| && s[|head|..] == Chars(tail) && forall i :: 0 <= i < |head| ==> s[i] as int == head[i]
  {
    forall b | b in tail
      ensures b in head + tail
    {
    }
    var s := Chars(head + tail);
    forall i | 0 <= i < |head| + |tail|
      ensures s[i] as int == (head + tail)[i]
    {
      assert (head + tail)[i] in head + tail;
    }
    assert s[|head|..] == Chars(tail);
  }

  lemma Take16Encoded(c: nat, rest: seq<nat>)
    requires IsScalar(c)
    ensures
      var units := Encode(Utf16, ScalarUnit(c));
      Take16(units + rest, false) == Taken(|units|, Some(ScalarUnit(c)))
  {
    if c >= 0x10000 {
      SurrogatesAre(c);
      var d := c - 0x10000;
      var s := [0xD800 + d / 0x400, 0xDC00 + d % 0x400] + rest;
      assert s[0] == 0xD800 + d / 0x400 && s[1] == 0xDC00 + d % 0x400;
    } else {
      assert Encode(Utf16, Low(c)) == [c];
    }
  }

  lemma SurrogatesAre(c: nat)
    requires 0x10000 <= c < 0x110000
    ensures
      var d := c - 0x10000;
      Encode(Utf16, High(c)) == [0xD800 + d / 0x400, 0xDC00 + d % 0x400] && d / 0x400 < 0x400
  {
    var d := c - 0x10000;
    assert d % 0x1_0000_0000 == d;
  }

  lemma {:induction false} Plain16(cs: seq<nat>)
    requires forall c :: c in cs ==> IsScalar(c)
    ensures Decode16(EncodeAll(Utf16, ScalarUnits(cs)), false) == ScalarUnits(cs)
    ensures forall v :: v in EncodeAll(Utf16, ScalarUnits(cs)) ==> v < 0x10000
    decreases |cs|
  {
    hide Encode, Decode16, IsScalar;
    if cs == [] {
      assert EncodeAll(Utf16, ScalarUnits(cs)) == [];
      NothingDecoded16();
    } else {
      hide EncodeAll;
      Plain16(cs[1..]);
      Encoded16(cs);
      Encode16Small(cs[0]);
      var head, tail := Encode(Utf16, ScalarUnit(cs[0])), EncodeAll(Utf16, ScalarUnits(cs[1..]));
      Decoded16(cs[0], head, tail);
      assert ScalarUnits(cs) == [ScalarUnit(cs[0])] + ScalarUnits(cs[1..]);
    }
  }

  lemma NothingDecoded16()
    ensures Decode16([], false) == []
  {
  }

  lemma Encoded16(cs: seq<nat>)
    requires cs != []
    ensures EncodeAll(Utf16, ScalarUnits(cs)) ==
      Encode(Utf16, ScalarUnit(cs[0])) + EncodeAll(Utf16, ScalarUnits(cs[1..]))
  {
    hide Encode, EncodeAll;
    var u, us := ScalarUnit(cs[0]), ScalarUnits(cs[1..]);
    assert ScalarUnits(cs) == [u] + us;
    EncodeAllConcat(Utf16, [u], us);
    EncodeAllOne(Utf16, u);
  }

  lemma Decoded16(c: nat, head: seq<nat>, tail: seq<nat>)
    requires IsScalar(c) && head == Encode(Utf16, ScalarUnit(c))
    ensures Decode16(head + tail, false) == [ScalarUnit(c)] + Decode16(tail, false)
  {
    hide Take16, Encode, Decode16, IsScalar;
    Take16Encoded(c, tail);
    Decode16Step(head + tail, false, 0, Take16(head + tail, false));
    assert (head + tail)[|head|..] == tail && (head + tail)[0..] == head + tail;
  }

  lemma Encode16Small(c: nat)
    requires IsScalar(c)
    ensures forall v :: v in Encode(Utf16, ScalarUnit(c)) ==> v < 0x10000
  {
  }

  /** The units in the machine's byte order, or in the other one. */
  function Ordered16(s: seq<nat>, swap: bool): (r: seq<nat>)
    ensures |r| == |s|
  {
    if swap then seq(|s|, i requires 0 <= i < |s| => Swap16(s[i])) else s
  }

  lemma SwapTwice(v: nat)
    requires v < 0x10000
    ensures Swap16(Swap16(v)) == v
  {
    var low, high := v % 0x100, v / 0x100;
    assert Swap16(v) == low * 0x100 + high && high < 0x100;
    assert (low * 0x100 + high) % 0x100 == high && (low * 0x100 + high) / 0x100 == low;
  }

  lemma {:induction false} DecodeOrdered(s: seq<nat>, swap: bool)
    requires forall v :: v in s ==> v < 0x10000
    ensures Decode16(Ordered16(s, swap), swap) == Decode16(s, false)
    decreases |s|
  {
    if s != [] && swap {
      var r := Ordered16(s, true);
      forall i | 0 <= i < |s|
        ensures Unit16(r[i], true) == s[i]
      {
        assert s[i] in s;
        SwapTwice(s[i]);
      }
      var n := Take16(s, false).length;
      assert Take16(r, true) == Take16(s, false);
      assert r[n..] == Ordered16(s[n..], true);
      assert forall v :: v in s[n..] ==> v in s;
      DecodeOrdered(s[n..], swap);
    }
  }

  /** Decoding the UTF-16 encoding of any sequence of scalar values, in either byte order, returns the sequence. */
  lemma RoundTrip16(cs: seq<nat>, swap: bool)
    requires forall c :: c in cs ==> IsScalar(c)
    ensures Decode16(Ordered16(EncodeAll(Utf16, ScalarUnits(cs)), swap), swap) == ScalarUnits(cs)
  {
    hide Decode16, EncodeAll, Ordered16;
    Plain16(cs);
    DecodeOrdered(EncodeAll(Utf16, ScalarUnits(cs)), swap);
  }
}
