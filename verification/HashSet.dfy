/**
 Duplicate removal for node sets: an open-addressing hash table with triangular
 probing on a power-of-two size, and the compaction that keeps first occurrences.
 */
module HashSet {

  import opened Common

  /** The sum of the probe steps 1, 2, ..., i. */
  function Triangle(i: nat): nat {
    if i == 0 then 0 else Triangle(i - 1) + i
  }

  /** A power of two that divides a product with an odd factor divides the other factor. */
  lemma {:induction false} OddFactor(m: nat, a: nat, o: nat, q: nat) returns (r: nat)
    requires a * (2 * o + 1) == q * Pow2(m)
    ensures a == r * Pow2(m)
  {
    if m == 0 {
      r := a;
    } else {
      var p := Pow2(m - 1);
      var b := q * p - a * o;
      Halve(a, o, q, p, b);
      r := OddFactor(m - 1, b, o, q);
      assert r * Pow2(m) == 2 * (r * p);
    }
  }

  lemma Halve(a: nat, o: nat, q: nat, p: nat, b: int)
    requires a * (2 * o + 1) == q * (2 * p) && b == q * p - a * o
    ensures a == 2 * b && b >= 0 && b * (2 * o + 1) == q * p
  {
    assert a * (2 * o + 1) == 2 * (a * o) + a;
    assert q * (2 * p) == 2 * (q * p);
    assert 2 * (b * (2 * o + 1)) == (2 * b) * (2 * o + 1);
  }

  /** A positive multiple of p is at least p. */
  lemma AtLeast(x: nat, r: nat, p: nat)
    requires x == r * p && 0 < x
    ensures p <= x
  {
    if r != 0 {
      assert r * p == (r - 1) * p + p;
    }
  }

  lemma OddCase(m: nat, o: nat, x: nat, q: nat)
    requires 0 < x && x * (2 * o + 1) == q * Pow2(m)
    ensures Pow2(m) <= x
  {
    var r := OddFactor(m, x, o, q);
    AtLeast(x, r, Pow2(m));
  }

  lemma Commute(x: nat, y: nat)
    ensures x * y == y * x
  {
  }

  /** Of two factors with an odd sum one is odd, so 2^m can divide their product only by dividing the other. */
  lemma NoMultiple(m: nat, d: nat, s: nat, q: nat)
    requires 0 < d < Pow2(m) && 0 < s < Pow2(m) && (d + s) % 2 == 1
    ensures d * s != q * Pow2(m)
  {
    Commute(d, s);
    if d * s == q * Pow2(m) {
      if d % 2 == 1 {
        var o := d / 2;
        assert 2 * o + 1 == d;
        OddCase(m, o, s, q);
      } else {
        var o := s / 2;
        assert 2 * o + 1 == s;
        OddCase(m, o, d, q);
      }
    }
  }

  lemma {:induction false} TriangleGap(i: nat, d: nat)
    ensures 2 * (Triangle(i + d) - Triangle(i)) == d * (2 * i + d + 1)
    decreases d
  {
    if d != 0 {
      TriangleGap(i, d - 1);
      assert (d - 1) * (2 * i + d) == d * (2 * i + d) - (2 * i + d);
      assert d * (2 * i + d + 1) == d * (2 * i + d) + d;
    }
  }

  lemma TwicePow2(m: nat, q: nat)
    ensures q * Pow2(m + 1) == 2 * (q * Pow2(m))
  {
    assert q * (2 * Pow2(m)) == 2 * (q * Pow2(m));
  }

  lemma PowerTwice(m: nat, j: nat)
    requires j < Pow2(m)
    ensures Pow2(m + 1) == 2 * Pow2(m) && 2 * j + 1 < Pow2(m + 1)
  {
  }

  /** Two different probes among the first 2^m lie no multiple of 2^m apart, so they hit different buckets. */
  lemma TrianglesDistinct(m: nat, i: nat, j: nat, q: nat)
    requires i < j < Pow2(m)
    ensures Triangle(j) - Triangle(i) != q * Pow2(m)
  {
    PowerTwice(m, j);
    hide Pow2, Triangle;
    var d := j - i;
    TriangleGap(i, d);
    OddSum(i, d);
    NoMultiple(m + 1, d, 2 * i + d + 1, q);
    TwicePow2(m, q);
    assert i + d == j;
  }

  lemma OddSum(i: nat, d: nat)
    ensures (d + (2 * i + d + 1)) % 2 == 1
  {
    assert d + (2 * i + d + 1) == 2 * (i + d) + 1;
  }

  /** The i-th bucket that an insertion starting at bucket b0 looks at: i more than the one before, wrapped around. */
  ghost function Probe(b0: nat, i: nat, size: nat): (b: nat)
    requires b0 < size && i <= size
    ensures b < size
  {
    if i == 0 then b0
    else
      var b := Probe(b0, i - 1, size) + i;
      if b < size then b else b - size
  }

  lemma Distribute(x: int, y: int, z: int)
    ensures (x + y) * z == x * z + y * z && (x - y) * z == x * z - y * z
  {
  }

  lemma NegativeProduct(x: int, p: nat)
    requires x <= 0
    ensures x * p <= 0
  {
  }

  lemma {:induction false} TriangleGrows(i: nat, j: nat)
    requires i < j
    ensures Triangle(i) < Triangle(j)
  {
    if i < j - 1 {
      TriangleGrows(i, j - 1);
    }
  }

  lemma {:induction false} ProbeOffset(b0: nat, i: nat, size: nat) returns (q: nat)
    requires b0 < size && i <= size
    ensures b0 + Triangle(i) == q * size + Probe(b0, i, size)
  {
    if i == 0 {
      q := 0;
    } else {
      var q' := ProbeOffset(b0, i - 1, size);
      var d := if Probe(b0, i - 1, size) + i < size then 0 else 1;
      q := q' + d;
      Distribute(q', d, size);
    }
  }

  lemma EqualRemainders(x: nat, y: nat, p: nat, size: nat, qx: nat, qy: nat)
    requires x < y && x == qx * size + p && y == qy * size + p
    ensures qx < qy && y - x == (qy - qx) * size
  {
    Distribute(qy, qx, size);
    if qy <= qx {
      NegativeProduct(qy - qx, size);
    }
  }

  lemma ProbesDistinct(b0: nat, m: nat, i: nat, j: nat)
    requires b0 < Pow2(m) && i < j < Pow2(m)
    ensures Probe(b0, i, Pow2(m)) != Probe(b0, j, Pow2(m))
  {
    var qi := ProbeOffset(b0, i, Pow2(m));
    var qj := ProbeOffset(b0, j, Pow2(m));
    if Probe(b0, i, Pow2(m)) == Probe(b0, j, Pow2(m)) {
      TriangleGrows(i, j);
      EqualRemainders(b0 + Triangle(i), b0 + Triangle(j), Probe(b0, i, Pow2(m)), Pow2(m), qi, qj);
      TrianglesDistinct(m, i, j, qj - qi);
    }
  }

  /** The buckets of the first n probes. */
  ghost function Visited(b0: nat, m: nat, n: nat): set<nat>
    requires b0 < Pow2(m) && n <= Pow2(m)
  {
    if n == 0 then {} else Visited(b0, m, n - 1) + {Probe(b0, n - 1, Pow2(m))}
  }

  lemma {:induction false} VisitedBy(b0: nat, m: nat, n: nat, e: nat) returns (i: nat)
    requires b0 < Pow2(m) && n <= Pow2(m) && e in Visited(b0, m, n)
    ensures i < n && Probe(b0, i, Pow2(m)) == e
  {
    if e == Probe(b0, n - 1, Pow2(m)) {
      i := n - 1;
    } else {
      i := VisitedBy(b0, m, n - 1, e);
    }
  }

  lemma {:induction false} VisitedCount(b0: nat, m: nat, n: nat)
    requires b0 < Pow2(m) && n <= Pow2(m)
    ensures |Visited(b0, m, n)| == n
  {
    if n != 0 {
      VisitedCount(b0, m, n - 1);
      var p := Probe(b0, n - 1, Pow2(m));
      if p in Visited(b0, m, n - 1) {
        var i := VisitedBy(b0, m, n - 1, p);
        ProbesDistinct(b0, m, i, n - 1);
      }
    }
  }

  ghost function Below(n: nat): set<nat> {
    if n == 0 then {} else Below(n - 1) + {n - 1}
  }

  lemma {:induction false} BelowCount(n: nat)
    ensures |Below(n)| == n && forall i: nat :: i in Below(n) <==> i < n
  {
    if n != 0 {
      BelowCount(n - 1);
    }
  }

  lemma SubsetOfSameSize<T>(x: set<T>, y: set<T>)
    requires x <= y && |x| == |y|
    ensures x == y
  {
    assert |y - x| == 0;
  }

  /** On a table of 2^m buckets, 2^m probes look at every bucket once. */
  lemma ProbesCover(b0: nat, m: nat, e: nat) returns (i: nat)
    requires b0 < Pow2(m) && e < Pow2(m)
    ensures i < Pow2(m) && Probe(b0, i, Pow2(m)) == e
    ensures forall j: nat :: j < Pow2(m) && j != i ==> Probe(b0, j, Pow2(m)) != e
  {
    var size := Pow2(m);
    VisitedCount(b0, m, size);
    BelowCount(size);
    forall x | x in Visited(b0, m, size)
      ensures x in Below(size)
    {
      var i := VisitedBy(b0, m, size, x);
    }
    SubsetOfSameSize(Visited(b0, m, size), Below(size));
    i := VisitedBy(b0, m, size, e);
    forall j: nat | j < size && j != i
      ensures Probe(b0, j, size) != e
    {
      if i < j {
        ProbesDistinct(b0, m, i, j);
      } else {
        ProbesDistinct(b0, m, j, i);
      }
    }
  }

  /** Some probe before the one that finds bucket b found no empty bucket. */
  ghost predicate Reached(s: seq<nat>, b0: nat, b: nat)
    requires b0 < |s|
  {
    exists i: nat :: i < |s| && Probe(b0, i, |s|) == b && NoEmptyBefore(s, b0, i)
  }

  ghost predicate NoEmptyBefore(s: seq<nat>, b0: nat, i: nat)
    requires b0 < |s| && i < |s|
  {
    forall j: nat :: j < i ==> s[Probe(b0, j, |s|)] != 0
  }

  /** x & (size - 1), for a power of two. */
  function Mask(x: nat, size: nat): (b: nat)
    requires 0 < size
    ensures b < size
  {
    x % size
  }

  /** No key is stored twice, and each is found by probing from its hash. */
  ghost predicate TableOk(s: seq<nat>, hash: nat -> nat) {
    && 0 < |s|
    && (forall b, c :: 0 <= b < c < |s| && s[b] != 0 ==> s[b] != s[c])
    && (forall b :: 0 <= b < |s| && s[b] != 0 ==> Reached(s, Mask(hash(s[b]), |s|), b))
  }

  /**
   hash_insert.  A null bucket is 0, and `hash` stands for the mixing function.  The table is never full, so the loop
   always ends at the key or at an empty bucket.
   */
  method HashInsert(table: array<nat>, hash: nat -> nat, key: nat, ghost m: nat) returns (inserted: bool, ghost at: nat)
    requires 0 < table.Length == Pow2(m) && key != 0 && TableOk(table[..], hash) && 0 in table[..]
    modifies table
    ensures TableOk(table[..], hash)
    ensures inserted <==> key !in old(table[..])
    ensures at < table.Length && table[at] == key && old(table[at]) == (if inserted then 0 else key)
    ensures forall b {:trigger table[b]} :: 0 <= b < table.Length && b != at ==> table[b] == old(table[b])
  {
    hide Mask, TableOk, Pow2;
    var size := table.Length;
    var bucket := Mask(hash(key), size);
    ghost var b0, s := bucket, table[..];
    var probe := 0;
    while probe < size
      invariant probe <= size && bucket == Probe(b0, probe, size) && table[..] == s
      invariant forall j: nat :: j < probe ==> s[Probe(b0, j, size)] != 0 && s[Probe(b0, j, size)] != key
    {
      if table[bucket] == 0 {
        at := bucket;
        KeyAbsent(s, hash, key, probe);
        table[bucket] := key;
        StillOk(s, table[..], hash, key, probe);
        return true, at;
      }
      if table[bucket] == key {
        return false, bucket;
      }
      WrapOnce(bucket + probe + 1, size);
      bucket := Mask(bucket + probe + 1, size);
      probe := probe + 1;
    }
    ghost var e :| 0 <= e < size && s[e] == 0;
    ghost var i := ProbesCover(b0, m, e);
    assert false;
  }

  lemma WrapOnce(x: nat, size: nat)
    requires 0 < size && x < 2 * size
    ensures Mask(x, size) == if x < size then x else x - size
  {
  }

  /** A key that was stored would have been met before the first empty bucket. */
  lemma KeyAbsent(s: seq<nat>, hash: nat -> nat, key: nat, probe: nat)
    requires TableOk(s, hash) && key != 0 && probe < |s|
    requires s[Probe(Mask(hash(key), |s|), probe, |s|)] == 0
    requires forall j: nat :: j < probe ==> s[Probe(Mask(hash(key), |s|), j, |s|)] != key
    ensures key !in s
  {
    forall b | 0 <= b < |s|
      ensures s[b] != key
    {
    }
  }

  lemma StillOk(s: seq<nat>, s': seq<nat>, hash: nat -> nat, key: nat, probe: nat)
    requires TableOk(s, hash) && key != 0 && key !in s && probe < |s| == |s'|
    requires NoEmptyBefore(s, Mask(hash(key), |s|), probe)
    requires s' == s[Probe(Mask(hash(key), |s|), probe, |s|) := key]
    ensures TableOk(s', hash)
  {
    var at := Probe(Mask(hash(key), |s|), probe, |s|);
    forall b | 0 <= b < |s'| && s'[b] != 0
      ensures Reached(s', Mask(hash(s'[b]), |s'|), b)
    {
      var i: nat;
      if b == at {
        i := probe;
      } else {
        i :| i < |s| && Probe(Mask(hash(s[b]), |s|), i, |s|) == b && NoEmptyBefore(s, Mask(hash(s[b]), |s|), i);
      }
      assert NoEmptyBefore(s', Mask(hash(s'[b]), |s'|), i);
    }
  }

  /** The first occurrence of each element, in the original order. */
  function Dedup<T(==)>(s: seq<T>): seq<T> {
    if s == [] then []
    else
      var front, x := s[..|s| - 1], s[|s| - 1];
      Dedup(front) + (if x in front then [] else [x])
  }

  /** No earlier element of s is equal to s[i]. */
  ghost predicate FirstAt<T(!new)>(s: seq<T>, i: nat) {
    i < |s| && forall j :: 0 <= j < i ==> s[j] != s[i]
  }

  /** The list at is that of the first occurrences in s, and d has the elements there. */
  ghost predicate FirstOccurrences<T(!new)>(s: seq<T>, d: seq<T>, at: seq<nat>) {
    && |at| == |d|
    && (forall k :: 0 <= k < |at| ==> FirstAt(s, at[k]) && d[k] == s[at[k]])
    && (forall j, k :: 0 <= j < k < |at| ==> at[j] < at[k])
    && (forall i: nat :: FirstAt(s, i) ==> i in at)
  }

  lemma FirstAtFront<T(!new)>(s: seq<T>, i: nat)
    requires i + 1 < |s|
    ensures FirstAt(s, i) <==> FirstAt(s[..|s| - 1], i)
  {
  }

  lemma FirstAtLast<T(!new)>(s: seq<T>)
    requires s != []
    ensures FirstAt(s, |s| - 1) <==> s[|s| - 1] !in s[..|s| - 1]
  {
    var front := s[..|s| - 1];
    assert forall j :: 0 <= j < |front| ==> front[j] == s[j] && front[j] in front;
  }

  lemma MoreOccurrences<T(!new)>(s: seq<T>, d: seq<T>, at: seq<nat>)
    requires s != [] && FirstOccurrences(s[..|s| - 1], d, at)
    ensures s[|s| - 1] in s[..|s| - 1] ==> FirstOccurrences(s, d, at)
    ensures s[|s| - 1] !in s[..|s| - 1] ==> FirstOccurrences(s, d + [s[|s| - 1]], at + [|s| - 1])
  {
    var n := |s| - 1;
    FirstAtLast(s);
    assert forall k :: 0 <= k < |at| ==> at[k] < n && s[..n][at[k]] == s[at[k]] by {
      assert forall k :: 0 <= k < |at| ==> FirstAt(s[..n], at[k]);
    }
    forall i: nat | i < n
      ensures FirstAt(s, i) <==> FirstAt(s[..n], i)
    {
      FirstAtFront(s, i);
    }
    assert forall i: nat :: FirstAt(s, i) ==> i <= n;
    hide FirstAt;
    var at' := at + [n];
    assert forall i :: i in at ==> i in at';
    assert n in at';
  }

  /** Where the elements of Dedup(s) come from: all the first occurrences, in their order. */
  lemma {:induction false} DedupPositions<T(!new)>(s: seq<T>) returns (at: seq<nat>)
    ensures FirstOccurrences(s, Dedup(s), at)
  {
    if s == [] {
      at := [];
    } else {
      var front, n := s[..|s| - 1], |s| - 1;
      at := DedupPositions(front);
      MoreOccurrences(s, Dedup(front), at);
      at := at + (if s[n] in front then [] else [n]);
    }
  }

  lemma {:induction false} DedupElements<T>(s: seq<T>)
    ensures forall x :: x in Dedup(s) <==> x in s
    ensures forall j, k :: 0 <= j < k < |Dedup(s)| ==> Dedup(s)[j] != Dedup(s)[k]
  {
    if s != [] {
      DedupElements(s[..|s| - 1]);
      assert s == s[..|s| - 1] + [s[|s| - 1]];
      var d := Dedup(s[..|s| - 1]);
      assert forall j :: 0 <= j < |d| ==> d[j] in d;
    }
  }

  ghost function Occupied(s: seq<nat>): set<nat> {
    set b: nat | b < |s| && s[b] != 0
  }

  lemma RoomLeft(s: seq<nat>)
    requires |Occupied(s)| < |s|
    ensures 0 in s
  {
    BelowCount(|s|);
    assert Occupied(s) <= Below(|s|);
    assert |Below(|s|) - Occupied(s)| > 0;
    var b :| b in Below(|s|) - Occupied(s);
    assert s[b] == 0;
  }

  lemma Occupies(s: seq<nat>, at: nat, key: nat)
    requires at < |s| && s[at] == 0 && key != 0
    ensures |Occupied(s[at := key])| == |Occupied(s)| + 1
  {
    assert Occupied(s[at := key]) == Occupied(s) + {at};
  }

  /** The table holds exactly the addresses of the elements seen so far. */
  ghost predicate Holds<T>(table: seq<nat>, key: T -> nat, seen: seq<T>) {
    && (forall x :: x in seen ==> key(x) in table)
    && (forall k :: k in table && k != 0 ==> exists x :: x in seen && key(x) == k)
  }

  /** Different elements have different addresses, and none is null. */
  ghost predicate Addresses<T>(key: T -> nat, s: seq<T>) {
    && (forall x :: x in s ==> key(x) != 0)
    && (forall x, y :: x in s && y in s && key(x) == key(y) ==> x == y)
  }

  /** The size of the hash table: the first power of two with room for one and a half times the elements. */
  method TableSize(n: nat) returns (size: nat, ghost m: nat)
    ensures size == Pow2(m) && n + n / 2 <= size && (m == 0 || Pow2(m - 1) < n + n / 2)
  {
    size, m := 1, 0;
    while size < n + n / 2
      invariant size == Pow2(m) && (m == 0 || Pow2(m - 1) < n + n / 2)
      decreases n + n / 2 - size
    {
      size, m := size * 2, m + 1;
    }
  }

  /** remove_duplicates on more than two elements: each element moves down, unless its address is in the table. */
  method Compact<T(==)>(a: array<T>, n: nat, key: T -> nat, hash: nat -> nat) returns (write: nat)
    requires 2 < n <= a.Length && Addresses(key, a[..n])
    modifies a
    ensures write <= n && a[..write] == Dedup(old(a[..n]))
    ensures forall i {:trigger a[i]} :: n <= i < a.Length ==> a[i] == old(a[i])
  {
    hide TableOk, Holds, Occupied, Pow2, Addresses, Dedup, Mask;
    var size, m := TableSize(n);
    var table := new nat[size](_ => 0);
    ghost var s := a[..n];
    EmptyTable(table[..], key, hash, s);
    write := 0;
    var it := 0;
    while it < n
      invariant write <= it <= n && fresh(table) && table.Length == Pow2(m)
      invariant TableOk(table[..], hash) && Holds(table[..], key, s[..it]) && |Occupied(table[..])| <= it
      invariant a[..write] == Dedup(s[..it])
      invariant forall i {:trigger a[i]} :: it <= i < a.Length ==> a[i] == old(a[i])
    {
      ghost var before := table[..];
      var x := a[it];
      assert x == s[it];
      RoomLeft(before);
      KeyOf(key, s, it);
      var inserted, at := HashInsert(table, hash, key(x), m);
      assert table[..] == if inserted then before[at := key(x)] else before;
      Seen(before, table[..], key, s, it, at);
      if inserted {
        Occupies(before, at, key(x));
        ghost var kept := a[..write];
        a[write] := x;
        write := write + 1;
        assert a[..write] == kept + [x];
      }
      it := it + 1;
    }
    assert s[..n] == s;
  }

  lemma EmptyTable<T>(table: seq<nat>, key: T -> nat, hash: nat -> nat, s: seq<T>)
    requires 0 < |table| && forall b :: 0 <= b < |table| ==> table[b] == 0
    ensures TableOk(table, hash) && Holds(table, key, s[..0]) && |Occupied(table)| == 0 && Dedup(s[..0]) == []
  {
    assert Occupied(table) == {};
  }

  lemma KeyOf<T>(key: T -> nat, s: seq<T>, it: nat)
    requires Addresses(key, s) && it < |s|
    ensures key(s[it]) != 0
  {
  }

  lemma Seen<T>(before: seq<nat>, after: seq<nat>, key: T -> nat, s: seq<T>, it: nat, at: nat)
    requires Addresses(key, s) && it < |s| && Holds(before, key, s[..it]) && at < |before|
    requires after == if key(s[it]) in before then before else before[at := key(s[it])]
    requires key(s[it]) in before || before[at] == 0
    ensures Holds(after, key, s[..it + 1])
    ensures key(s[it]) in before <==> s[it] in s[..it]
    ensures Dedup(s[..it + 1]) == Dedup(s[..it]) + (if key(s[it]) in before then [] else [s[it]])
  {
    var front, x := s[..it], s[it];
    assert s[..it + 1] == front + [x] && s[..it + 1][..it] == front;
    assert key(x) in before <==> x in front;
    if key(x) !in before {
      forall k | k in before
        ensures k == 0 || k in after
      {
        var b :| 0 <= b < |before| && before[b] == k;
        assert k == 0 || after[b] == k;
      }
      assert after[at] == key(x);
      forall k | k in after && k != 0
        ensures exists y :: y in front + [x] && key(y) == k
      {
        if k == key(x) {
          assert x in front + [x];
        } else {
          assert k in before;
          var y :| y in front && key(y) == k;
        }
      }
    } else {
      forall k | k in after && k != 0
        ensures exists y :: y in front + [x] && key(y) == k
      {
        var y :| y in front && key(y) == k;
      }
    }
  }

  /** One element of each run of equal neighbours. */
  function Runs<T(==)>(s: seq<T>): seq<T> {
    if |s| <= 1 then s
    else
      var n := |s| - 1;
      Runs(s[..n]) + (if s[n] == s[n - 1] then [] else [s[n]])
  }

  lemma RunsStep<T>(s: seq<T>, k: nat)
    requires 0 < k < |s|
    ensures Runs(s[..k + 1]) == Runs(s[..k]) + (if s[k] == s[k - 1] then [] else [s[k]])
  {
    assert s[..k + 1][..k] == s[..k];
  }

  lemma RunsShort<T>(s: seq<T>)
    ensures |s| <= 1 ==> Runs(s) == s
    ensures |s| >= 1 ==> Runs(s[..1]) == s[..1]
  {
  }

  /** unique. */
  method Unique<T(==)>(a: array<T>, n: nat) returns (end: nat)
    requires n <= a.Length
    modifies a
    ensures end <= n && a[..end] == Runs(old(a[..n]))
    ensures forall i {:trigger a[i]} :: n <= i < a.Length ==> a[i] == old(a[i])
  {
    ghost var s := a[..n];
    var begin := 0;
    hide Runs;
    assert n > 0 ==> Runs(s[..1]) == s[..1] by {
      RunsShort(s);
    }
    while n - begin > 1 && a[begin] != a[begin + 1]
      invariant 0 <= begin <= n && (begin == n ==> n == 0)
      invariant begin < n ==> Runs(s[..begin + 1]) == s[..begin + 1]
      invariant forall i {:trigger a[i]} :: 0 <= i < a.Length ==> a[i] == old(a[i])
    {
      assert s[begin] != s[begin + 1];
      begin := begin + 1;
      RunsStep(s, begin);
    }
    if begin == n {
      RunsShort(s);
      return begin;
    }
    assert a[..begin + 1] == s[..begin + 1];
    end := MergeRuns(a, n, begin, s);
  }

  /** The second loop of unique: `write` is the last element kept. */
  method MergeRuns<T(==)>(a: array<T>, n: nat, first: nat, ghost s: seq<T>) returns (end: nat)
    requires first < n <= a.Length && s == a[..n] && a[..first + 1] == Runs(s[..first + 1])
    modifies a
    ensures end <= n && a[..end] == Runs(s)
    ensures forall i {:trigger a[i]} :: n <= i < a.Length ==> a[i] == old(a[i])
  {
    hide Runs;
    var write, begin := first, first + 1;
    while begin != n
      invariant 0 <= write < begin <= n && a[write] == s[begin - 1]
      invariant a[..write + 1] == Runs(s[..begin])
      invariant forall i {:trigger a[i]} :: begin <= i < a.Length ==> a[i] == old(a[i])
    {
      RunsStep(s, begin);
      assert a[begin] == s[begin];
      if a[begin] != a[write] {
        ghost var kept := a[..write + 1];
        write := write + 1;
        a[write] := a[begin];
        assert a[..write + 1] == kept + [a[write]];
      }
      begin := begin + 1;
    }
    assert s[..n] == s;
    end := write + 1;
  }

  /** remove_duplicates on an unsorted node set. */
  method RemoveDuplicates<T(==)>(a: array<T>, n: nat, key: T -> nat, hash: nat -> nat) returns (end: nat)
    requires n <= a.Length && Addresses(key, a[..n])
    modifies a
    ensures end <= n && a[..end] == Dedup(old(a[..n]))
    ensures forall i {:trigger a[i]} :: n <= i < a.Length ==> a[i] == old(a[i])
  {
    if n > 2 {
      end := Compact(a, n, key, hash);
    } else {
      ghost var s := a[..n];
      ShortRuns(s);
      end := Unique(a, n);
    }
  }

  lemma DedupShort<T>(s: seq<T>)
    requires |s| <= 1
    ensures Dedup(s) == s
  {
    if |s| == 1 {
      assert s[..0] == [];
    }
  }

  lemma ShortRuns<T>(s: seq<T>)
    requires |s| <= 2
    ensures Runs(s) == Dedup(s)
  {
    DedupShort(s[..if |s| == 2 then 1 else |s|]);
    if |s| < 2 {
      assert s[..|s|] == s;
    }
  }
}
