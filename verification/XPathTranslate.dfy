/**
 translate(), as it runs in place on a zero-terminated buffer: character by
 character, or through a table built beforehand.
 */
module XPathTranslate {
  import opened Common
  import opened XPathLibrary
  import opened XPathModel
  import opened XPathFacts
  import opened XPathOptimize

  /** The buffer holds a zero-terminated string of the given length. */
  ghost predicate TextIn(buffer: array<char>, len: nat)
    reads buffer
  {
    len < buffer.Length && buffer[len] == '\0' && NulFree(buffer[..len])
  }

  lemma TextGrows(s: string, k: nat, from: string, to: string)
    requires k < |s|
    ensures TranslateText(s[..k + 1], from, to) ==
            TranslateText(s[..k], from, to) +
            (var p := IndexOf(from, s[k]); if p == |from| then [s[k]] else if p < |to| then [to[p]] else [])
  {
    assert s[..k + 1][..k] == s[..k];
  }

  lemma TableGrows(s: string, k: nat, table: seq<nat>)
    requires k < |s|
    ensures TranslateByTable(s[..k + 1], table) ==
            TranslateByTable(s[..k], table) +
            (var c := s[k];
             if c as int >= |table| then [c] else if table[c as int] < 128 then [table[c as int] as char] else [])
  {
    assert s[..k + 1][..k] == s[..k];
  }

  lemma TranslatedIsNulFree(s: string, from: string, to: string)
    requires NulFree(s) && NulFree(to)
    ensures NulFree(TranslateText(s, from, to))
  {
  }

  /** translate: the write position never passes the read position. */
  method Translate(buffer: array<char>, len: nat, from: string, to: string) returns (write: nat)
    requires TextIn(buffer, len) && NulFree(from) && NulFree(to)
    modifies buffer
    ensures write <= len && TextIn(buffer, write)
    ensures buffer[..write] == TranslateText(old(buffer[..len]), from, to)
    ensures forall i :: len < i < buffer.Length ==> buffer[i] == old(buffer[i])
  {
    ghost var s := buffer[..len];
    var read := 0;
    write := 0;
    while buffer[read] != '\0'
      invariant write <= read <= len
      invariant buffer[..write] == TranslateText(s[..read], from, to)
      invariant forall i :: read <= i < buffer.Length ==> buffer[i] == old(buffer[i])
      decreases len - read
    {
      var ch := buffer[read];
      assert ch == s[read];
      TextGrows(s, read, from, to);
      read := read + 1;
      var pos := IndexOf(from, ch);
      if pos == |from| {
        buffer[write] := ch;
        write := write + 1;
      } else if pos < |to| {
        buffer[write] := to[pos];
        write := write + 1;
      }
    }
    assert s[..read] == s;
    TranslatedIsNulFree(s, from, to);
    buffer[write] := '\0';
  }

  /** The codes of the first i characters of `from` have their entries, the others none yet. */
  ghost predicate Filled(codes: seq<nat>, from: string, to: string, i: nat) {
    |codes| == 128 && forall c: nat :: c < 128 ==>
      codes[c] == if IndexOf(from, c as char) < i then TableEntry(from, to, c) else 0
  }

  lemma NothingFilled(codes: seq<nat>, from: string, to: string)
    requires |codes| == 128 && forall c :: 0 <= c < 128 ==> codes[c] == 0
    ensures Filled(codes, from, to, 0)
  {
  }

  lemma FilledNext(codes: seq<nat>, from: string, to: string, i: nat, fc: nat, tc: nat)
    requires Filled(codes, from, to, i) && i < |from| && fc == from[i] as nat
    requires tc == (if i < |to| then to[i] as nat else 0)
    requires fc < 128 && tc < 128 && NulFree(from) && NulFree(to)
    ensures Filled(if codes[fc] == 0 then codes[fc := if tc != 0 then tc else 128] else codes, from, to, i + 1)
  {
    assert fc as char == from[i] && IndexOf(from, from[i]) <= i;
  }

  /** The codes below i that have no entry stand for themselves. */
  ghost predicate Completed(codes: seq<nat>, from: string, to: string, i: nat) {
    |codes| == 128 && forall c: nat :: c < 128 ==>
      codes[c] == if c < i || IndexOf(from, c as char) < |from| then TableEntry(from, to, c) else 0
  }

  lemma CompletedNext(codes: seq<nat>, from: string, to: string, i: nat)
    requires Completed(codes, from, to, i) && i < 128 && NulFree(from) && NulFree(to)
    ensures Completed(if codes[i] == 0 then codes[i := i] else codes, from, to, i + 1)
  {
    hide IndexOf;
  }

  /** translate_table_generate: no table when a character that matters does not fit one. */
  method TranslateTableGenerate(from: string, to: string) returns (table: Option<seq<nat>>)
    requires NulFree(from) && NulFree(to)
    ensures table == if TableFits(from, to) then Some(TableOf(from, to)) else None
  {
    hide Filled, Completed, IndexOf, TableOf, TableEntry;
    var codes: array<nat> := new nat[128](_ => 0);
    var i: nat, j: nat := 0, 0;
    NothingFilled(codes[..], from, to);
    while i < |from|
      invariant i <= |from| && j == (if i < |to| then i else |to|)
      invariant forall k :: 0 <= k < i ==> from[k] as int < 128 && (k < |to| ==> to[k] as int < 128)
      invariant Filled(codes[..], from, to, i)
    {
      var fc: nat := from[i] as nat;
      var tc: nat := if j < |to| then to[j] as nat else 0;
      if fc >= 128 || tc >= 128 {
        return None;
      }
      ghost var was: seq<nat> := codes[..];
      FilledNext(was, from, to, i, fc, tc);
      if codes[fc] == 0 {
        codes[fc] := if tc != 0 then tc else 128;
        assert codes[..] == was[fc := if tc != 0 then tc else 128];
      }
      i := i + 1;
      if tc != 0 {
        j := j + 1;
      }
    }
    FilledAll(codes[..], from, to);
    i := 0;
    while i < 128
      invariant i <= 128 && Completed(codes[..], from, to, i)
    {
      ghost var was: seq<nat> := codes[..];
      CompletedNext(was, from, to, i);
      if codes[i] == 0 {
        codes[i] := i;
        assert codes[..] == was[i := i];
      }
      i := i + 1;
    }
    CompletedAll(codes[..], from, to);
    table := Some(codes[..]);
  }

  lemma FilledAll(codes: seq<nat>, from: string, to: string)
    requires Filled(codes, from, to, |from|)
    ensures Completed(codes, from, to, 0)
  {
    hide IndexOf, TableEntry;
  }

  lemma CompletedAll(codes: seq<nat>, from: string, to: string)
    requires Completed(codes, from, to, 128)
    ensures codes == TableOf(from, to)
  {
    hide IndexOf, TableEntry;
  }

  lemma TableCode(from: string, to: string, c: nat)
    requires TableFits(from, to) && NulFree(from) && NulFree(to) && c < 128
    ensures TableEntry(from, to, c) <= 128 && (TableEntry(from, to, c) == 0 ==> c == 0)
  {
  }

  lemma ByTableIsNulFree(s: string, from: string, to: string)
    requires NulFree(s) && TableFits(from, to) && NulFree(from) && NulFree(to)
    ensures NulFree(TranslateByTable(s, TableOf(from, to)))
  {
    TableTranslates(s, from, to);
    TranslatedIsNulFree(s, from, to);
  }

  lemma NothingTranslated(table: seq<nat>)
    ensures TranslateByTable([], table) == []
  {
  }

  lemma TerminatorAt(s: string)
    requires NulFree(s)
    ensures forall i :: 0 <= i < |s| ==> s[i] != '\0'
  {
  }

  /** translate_table: every code is written, and one that stands for dropping the character is overwritten later. */
  method TranslateTable(buffer: array<char>, len: nat, table: seq<nat>, ghost from: string, ghost to: string)
    returns (write: nat)
    requires TextIn(buffer, len) && NulFree(from) && NulFree(to) && TableFits(from, to) && table == TableOf(from, to)
    modifies buffer
    ensures write <= len && TextIn(buffer, write)
    ensures buffer[..write] == TranslateText(old(buffer[..len]), from, to)
    ensures forall i :: len < i < buffer.Length ==> buffer[i] == old(buffer[i])
  {
    hide TranslateText, TranslateByTable, NulFree;
    ghost var s := buffer[..len];
    NothingTranslated(table);
    TerminatorAt(s);
    var read := 0;
    write := 0;
    while buffer[read] != '\0'
      invariant write <= read <= len
      invariant buffer[..write] == TranslateByTable(s[..read], table)
      invariant forall i :: read <= i < buffer.Length ==> buffer[i] == old(buffer[i])
      decreases len - read
    {
      var ch := buffer[read];
      assert ch == s[read];
      TableGrows(s, read, table);
      read := read + 1;
      if ch as int < 128 {
        TableCode(from, to, ch as int);
        var code := table[ch as int];
        buffer[write] := code as char;
        write := write + 1 - code / 128;
      } else {
        buffer[write] := ch;
        write := write + 1;
      }
    }
    assert s[..read] == s;
    ByTableIsNulFree(s, from, to);
    TableTranslates(s, from, to);
    buffer[write] := '\0';
  }
}
