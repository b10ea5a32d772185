/**
 Notions that several parts of the model share.
 */
module Common {

  datatype Option<T> = None | Some(value: T)

  /** A text that ends where its terminator is. */
  predicate NulFree(s: string) {
    '\0' !in s
  }

  function Joined(strings: seq<string>): string {
    if strings == [] then "" else Joined(strings[..|strings| - 1]) + strings[|strings| - 1]
  }

  lemma NothingJoined()
    ensures Joined([]) == ""
  {
  }

  lemma {:induction false} JoinedFirst(first: string, rest: seq<string>)
    ensures Joined([first] + rest) == first + Joined(rest)
  {
    var all := [first] + rest;
    if rest != [] {
      JoinedFirst(first, rest[..|rest| - 1]);
      assert all[..|all| - 1] == [first] + rest[..|rest| - 1];
    } else {
      assert all[..0] == [] && Joined([]) == "";
    }
  }

  lemma SliceOfSlice(s: string, lo: nat, mid: nat, hi: nat)
    requires lo <= mid <= hi <= |s|
    ensures s[lo..hi][mid - lo..] == s[mid..hi]
  {
  }

  ghost predicate Distinct<T>(s: seq<T>) {
    forall i, j :: 0 <= i < j < |s| ==> s[i] != s[j]
  }

  /** A list without its element k. */
  ghost function Removed<T>(s: seq<T>, k: nat): (r: seq<T>)
    requires k < |s|
    ensures |r| == |s| - 1
  {
    s[..k] + s[k + 1..]
  }

  lemma RemovedAt<T>(s: seq<T>, k: nat, i: int)
    requires k < |s|
    ensures 0 <= i < |s| - 1 ==> Removed(s, k)[i] == s[if i < k then i else i + 1]
  {
  }

  lemma RemovedDistinct<T>(s: seq<T>, k: nat)
    requires Distinct(s) && k < |s|
    ensures Distinct(Removed(s, k))
  {
  }

  /** With `once`, only the first element of a list is looked at. */
  function Taken<T>(list: seq<T>, once: bool): seq<T> {
    if once && |list| > 0 then list[..1] else list
  }

  /** What 32 bits keep of a number. */
  function Wrap32(v: int): nat {
    v % 0x1_0000_0000
  }

  ghost function Pow2(n: nat): nat {
    if n == 0 then 1 else 2 * Pow2(n - 1)
  }
}
