/**
 The nine worker threads of the backgeocoding controller as a state machine: they take tiles from a queue, give up when
 an exception was counted, compute, write band after band, and register what they catch.
 */
module WorkerPool {

  const WORKERS: nat := 9

  /** A caught exception. */
  type Exception = nat

  datatype Thread =
    | Ready                               // about to take a tile
    | Holding(tile: nat)                  // has a tile and is about to look at the count of exceptions
    | Computing(tile: nat)                // saw no exception; reads and computes
    | Writing(tile: nat, band: nat)       // has computed, and has written the bands below this one
    | Caught(tile: nat, what: Exception)  // waits for the lock of the exceptions
    | Listed(tile: nat)                   // holds the lock and has added its exception, but not counted it
    | Ended

  datatype State = State(
    queue: seq<nat>,
    threads: seq<Thread>,
    exceptions: seq<Exception>,
    thrown: nat,
    written: seq<(nat, nat)>,  // tile and band of every write, in order
    dropped: set<nat>)         // tiles that a worker took and did not write

  ghost predicate Locked(s: State) {
    exists i :: 0 <= i < |s.threads| && s.threads[i].Listed?
  }

  /**
   A run of the controller starts with all tiles queued and the count at zero; the list of exceptions is not cleared.
   */
  function Start(tiles: nat, exceptions: seq<Exception>): State {
    State(seq(tiles, k => k), seq(WORKERS, _ => Ready), exceptions, 0, [], {})
  }

  /** Thread i makes its next step; a computation and a write may throw. */
  ghost predicate Step(s: State, t: State, i: nat, bands: nat) {
    && i < |s.threads|
    && match s.threads[i]
      case Ready =>
        if s.queue == [] then t == s.(threads := s.threads[i := Ended])
        else t == s.(queue := s.queue[1..], threads := s.threads[i := Holding(s.queue[0])])
      case Holding(tile) =>
        if s.thrown != 0 then t == s.(threads := s.threads[i := Ready], dropped := s.dropped + {tile})
        else t == s.(threads := s.threads[i := Computing(tile)])
      case Computing(tile) =>
        || t == s.(threads := s.threads[i := Writing(tile, 0)])
        || Throws(s, t, i, tile)
      case Writing(tile, band) =>
        if band == bands then t == s.(threads := s.threads[i := Ready])
        else
          || t == s.(threads := s.threads[i := Writing(tile, band + 1)], written := s.written + [(tile, band)])
          || Throws(s, t, i, tile)
      case Caught(tile, what) =>
        !Locked(s) && t == s.(threads := s.threads[i := Listed(tile)], exceptions := s.exceptions + [what])
      case Listed(tile) =>
        t == s.(threads := s.threads[i := Ready], thrown := s.thrown + 1, dropped := s.dropped + {tile})
      case Ended => false
  }

  ghost predicate Throws(s: State, t: State, i: nat, tile: nat)
    requires i < |s.threads|
  {
    t.threads != [] && |t.threads| == |s.threads| && t.threads[i].Caught? &&
    t == s.(threads := s.threads[i := Caught(tile, t.threads[i].what)])
  }

  ghost predicate IsOver(s: State) {
    forall i :: 0 <= i < |s.threads| ==> s.threads[i].Ended?
  }

  ghost predicate SomeStep(s: State, t: State, bands: nat) {
    exists i: nat :: Step(s, t, i, bands)
  }

  /** A run: any interleaving of the threads' steps. */
  ghost predicate Run(states: seq<State>, tiles: nat, exceptions: seq<Exception>, bands: nat) {
    && states != [] && states[0] == Start(tiles, exceptions)
    && forall k :: 0 < k < |states| ==> SomeStep(states[k - 1], states[k], bands)
  }

  // Where a tile is

  /** The tile a thread has, if any. */
  predicate Has(th: Thread, tile: nat) {
    !th.Ready? && !th.Ended? && th.tile == tile
  }

  /** How often a thread of the list has the tile. */
  ghost function Held(threads: seq<Thread>, tile: nat): nat {
    if threads == [] then 0
    else Held(threads[..|threads| - 1], tile) + if Has(threads[|threads| - 1], tile) then 1 else 0
  }

  lemma {:induction false} HeldUpdate(threads: seq<Thread>, i: nat, th: Thread, tile: nat)
    requires i < |threads|
    ensures Held(threads[i := th], tile) ==
      Held(threads, tile) - (if Has(threads[i], tile) then 1 else 0) + if Has(th, tile) then 1 else 0
  {
    var last := |threads| - 1;
    if i == last {
      assert threads[i := th][..last] == threads[..last];
    } else {
      assert threads[i := th][..last] == threads[..last][i := th];
      HeldUpdate(threads[..last], i, th, tile);
    }
  }

  lemma {:induction false} HeldAtLeast(threads: seq<Thread>, i: nat, tile: nat)
    requires i < |threads| && Has(threads[i], tile)
    ensures Held(threads, tile) >= 1
  {
    if i < |threads| - 1 {
      HeldAtLeast(threads[..|threads| - 1], i, tile);
    }
  }

  lemma {:induction false} HeldNone(threads: seq<Thread>, tile: nat)
    requires forall i :: 0 <= i < |threads| ==> !Has(threads[i], tile)
    ensures Held(threads, tile) == 0
  {
    if threads != [] {
      HeldNone(threads[..|threads| - 1], tile);
    }
  }

  /** How often the tile's band was written. */
  ghost function Writes(log: seq<(nat, nat)>, tile: nat, band: nat): nat {
    multiset(log)[(tile, band)]
  }

  lemma WritesPlus(log: seq<(nat, nat)>, w: (nat, nat), tile: nat, band: nat)
    ensures Writes(log + [w], tile, band) == Writes(log, tile, band) + if w == (tile, band) then 1 else 0
  {
    assert multiset(log + [w]) == multiset(log) + multiset{w};
  }

  // What every step keeps

  /** How far the log is with the tile that a thread has. */
  ghost predicate Progress(th: Thread, log: seq<(nat, nat)>, tile: nat, bands: nat) {
    match th
    case Holding(_) => forall b: nat :: Writes(log, tile, b) == 0
    case Computing(_) => forall b: nat :: Writes(log, tile, b) == 0
    case Writing(_, k) => k <= bands && forall b: nat :: Writes(log, tile, b) == if b < k then 1 else 0
    case _ => true
  }

  predicate Queued(s: State, tiles: nat, tile: nat) {
    tiles - |s.queue| <= tile
  }

  /** A tile is queued, or one thread has it, or it was dropped, or it is written; and nothing is written twice. */
  ghost predicate Placed(s: State, tiles: nat, bands: nat, tile: nat) {
    && Held(s.threads, tile) <= 1
    && (Queued(s, tiles, tile) ==>
          Held(s.threads, tile) == 0 && tile !in s.dropped && forall b: nat :: Writes(s.written, tile, b) == 0)
    && (tile in s.dropped ==> Held(s.threads, tile) == 0)
    && (forall b: nat :: Writes(s.written, tile, b) <= 1)
    && (forall j :: 0 <= j < |s.threads| && Has(s.threads[j], tile) ==> Progress(s.threads[j], s.written, tile, bands))
    && (!Queued(s, tiles, tile) && Held(s.threads, tile) == 0 && tile !in s.dropped ==> IsWritten(s, bands, tile))
  }

  /** Every band of the tile was written exactly once, and no other. */
  ghost predicate IsWritten(s: State, bands: nat, tile: nat) {
    forall b: nat :: Writes(s.written, tile, b) == if b < bands then 1 else 0
  }

  /** The queue holds the last tiles in order, and threads have earlier ones. */
  ghost predicate InOrder(s: State, tiles: nat) {
    && |s.threads| == WORKERS && |s.queue| <= tiles
    && (forall j :: 0 <= j < |s.queue| ==> s.queue[j] == tiles - |s.queue| + j)
    && (forall i :: 0 <= i < |s.threads| && !s.threads[i].Ready? && !s.threads[i].Ended? ==>
      s.threads[i].tile < tiles - |s.queue|)
    && (forall i :: 0 <= i < |s.threads| && s.threads[i].Ended? ==> s.queue == [])
  }

  /** The list of exceptions holds those from before and the counted ones; one thread at most has the lock. */
  ghost predicate Counted(s: State, old': seq<Exception>) {
    && (forall i, j :: 0 <= i < j < |s.threads| ==> !(s.threads[i].Listed? && s.threads[j].Listed?))
    && old' <= s.exceptions
    && |s.exceptions| == |old'| + s.thrown + (if Locked(s) then 1 else 0)
    && (s.dropped != {} ==> s.thrown > 0)
  }

  ghost predicate Invariant(s: State, tiles: nat, bands: nat, old': seq<Exception>) {
    InOrder(s, tiles) && Counted(s, old') && forall tile: nat :: tile < tiles ==> Placed(s, tiles, bands, tile)
  }

  lemma StartInvariant(tiles: nat, bands: nat, old': seq<Exception>)
    ensures Invariant(Start(tiles, old'), tiles, bands, old')
  {
    var s := Start(tiles, old');
    forall tile: nat | tile < tiles
      ensures Placed(s, tiles, bands, tile)
    {
      HeldNone(s.threads, tile);
    }
  }

  lemma StepInOrder(s: State, t: State, i: nat, tiles: nat, bands: nat)
    requires InOrder(s, tiles) && Step(s, t, i, bands)
    ensures InOrder(t, tiles)
  {
    hide Locked;
  }

  lemma StepCounted(s: State, t: State, i: nat, bands: nat, old': seq<Exception>)
    requires Counted(s, old') && Step(s, t, i, bands)
    ensures Counted(t, old')
  {
    if s.threads[i].Caught? {
      assert t.threads[i].Listed?;
    } else if s.threads[i].Listed? {
      assert !Locked(t);
    } else if Locked(s) {
      var j :| 0 <= j < |s.threads| && s.threads[j].Listed?;
      assert t.threads[j].Listed?;
    }
  }

  /** A step of a thread that does not have the tile, and does not take it, leaves the tile where it is. */
  lemma StepElsewhere(s: State, t: State, i: nat, tiles: nat, bands: nat, tile: nat)
    requires Placed(s, tiles, bands, tile) && i < |s.threads| && |t.threads| == |s.threads|
    requires t.threads == s.threads[i := t.threads[i]] && !Has(s.threads[i], tile) && !Has(t.threads[i], tile)
    requires Queued(t, tiles, tile) == Queued(s, tiles, tile) && (tile in t.dropped <==> tile in s.dropped)
    requires forall b: nat :: Writes(t.written, tile, b) == Writes(s.written, tile, b)
    ensures Placed(t, tiles, bands, tile)
  {
    HeldUpdate(s.threads, i, t.threads[i], tile);
    hide Writes, Held;
    forall j | 0 <= j < |t.threads| && Has(t.threads[j], tile)
      ensures Progress(t.threads[j], t.written, tile, bands)
    {
      assert Progress(s.threads[j], s.written, tile, bands);
    }
  }

  /** A step of the thread that has the tile, or takes it. */
  lemma StepOfHolder(s: State, t: State, i: nat, tiles: nat, bands: nat, tile: nat)
    requires Placed(s, tiles, bands, tile) && i < |s.threads| && |t.threads| == |s.threads|
    requires t.threads == s.threads[i := t.threads[i]]
    requires Has(s.threads[i], tile) || (Queued(s, tiles, tile) && Has(t.threads[i], tile))
    requires !Queued(t, tiles, tile)
    requires tile in t.dropped <==> Has(s.threads[i], tile) && !Has(t.threads[i], tile) && !s.threads[i].Writing?
    requires forall b: nat :: Writes(t.written, tile, b) <= 1
    requires Has(t.threads[i], tile) ==> Progress(t.threads[i], t.written, tile, bands)
    requires !Has(t.threads[i], tile) && tile !in t.dropped ==> IsWritten(t, bands, tile)
    ensures Placed(t, tiles, bands, tile)
  {
    HeldUpdate(s.threads, i, t.threads[i], tile);
    if Has(s.threads[i], tile) {
      HeldAtLeast(s.threads, i, tile);
    }
    hide Writes;
    forall j | 0 <= j < |t.threads| && Has(t.threads[j], tile)
      ensures j == i
    {
      if j != i {
        HeldAtLeast(s.threads[i := Ready], j, tile);
        HeldUpdate(s.threads, i, Ready, tile);
      }
    }
  }

  lemma StepPlaced(s: State, t: State, i: nat, tiles: nat, bands: nat, old': seq<Exception>, tile: nat)
    requires Invariant(s, tiles, bands, old') && Step(s, t, i, bands) && tile < tiles
    ensures Placed(t, tiles, bands, tile)
  {
    hide Writes, Held;
    var th := s.threads[i];
    assert Placed(s, tiles, bands, tile);
    assert t.threads == s.threads[i := t.threads[i]];
    if Has(th, tile) {
      HeldAtLeast(s.threads, i, tile);
      assert Progress(th, s.written, tile, bands);
    }
    if th.Writing? {
      forall b: nat
        ensures Writes(s.written + [(th.tile, th.band)], tile, b) ==
          Writes(s.written, tile, b) + if (th.tile, th.band) == (tile, b) then 1 else 0
      {
        WritesPlus(s.written, (th.tile, th.band), tile, b);
      }
    }
    if Has(th, tile) || (Queued(s, tiles, tile) && Has(t.threads[i], tile)) {
      StepOfHolder(s, t, i, tiles, bands, tile);
    } else {
      StepElsewhere(s, t, i, tiles, bands, tile);
    }
  }

  /** Whatever thread makes whatever step, the invariant stays. */
  lemma StepKeepsInvariant(s: State, t: State, i: nat, tiles: nat, bands: nat, old': seq<Exception>)
    requires Invariant(s, tiles, bands, old') && Step(s, t, i, bands)
    ensures Invariant(t, tiles, bands, old')
  {
    StepInOrder(s, t, i, tiles, bands);
    StepCounted(s, t, i, bands, old');
    hide Placed, InOrder, Counted, Step;
    forall tile: nat | tile < tiles
      ensures Placed(t, tiles, bands, tile)
    {
      StepPlaced(s, t, i, tiles, bands, old', tile);
    }
  }

  lemma {:induction false} RunKeepsInvariant(states: seq<State>, tiles: nat, bands: nat, old': seq<Exception>, k: nat)
    requires Run(states, tiles, old', bands) && k < |states|
    ensures Invariant(states[k], tiles, bands, old')
  {
    if k == 0 {
      StartInvariant(tiles, bands, old');
    } else {
      RunKeepsInvariant(states, tiles, bands, old', k - 1);
      assert SomeStep(states[k - 1], states[k], bands);
      var i: nat :| Step(states[k - 1], states[k], i, bands);
      StepKeepsInvariant(states[k - 1], states[k], i, tiles, bands, old');
    }
  }

  // How a run ends

  datatype Outcome = Returned | Rethrown(what: Exception)

  /** What the controller does once all threads are joined. */
  function Conclusion(s: State): Outcome
    requires s.thrown != 0 ==> s.exceptions != []
  {
    if s.thrown != 0 then Rethrown(s.exceptions[0]) else Returned
  }

  /**
   However the threads interleave: a run that is over without a counted exception has written every band of every tile
   exactly once; otherwise the list of exceptions is not empty, and its first entry is thrown again. No band is ever
   written twice.
   */
  lemma RunEndsWell(states: seq<State>, tiles: nat, bands: nat, old': seq<Exception>)
    requires Run(states, tiles, old', bands) && IsOver(states[|states| - 1])
    ensures
      var s := states[|states| - 1];
      && |s.exceptions| == |old'| + s.thrown && old' <= s.exceptions
      && (s.thrown == 0 ==>
        Conclusion(s) == Returned && forall tile: nat :: tile < tiles ==> IsWritten(s, bands, tile))
      && (s.thrown != 0 ==> s.exceptions != [] && Conclusion(s) == Rethrown((old' + s.exceptions[|old'|..])[0]))
      && forall tile: nat, b: nat :: tile < tiles ==> Writes(s.written, tile, b) <= 1
  {
    var s := states[|states| - 1];
    RunKeepsInvariant(states, tiles, bands, old', |states| - 1);
    hide Writes;
    assert s.threads[0].Ended? && !Locked(s);
    assert s.exceptions == old' + s.exceptions[|old'|..];
    forall tile: nat | tile < tiles
      ensures s.thrown == 0 ==> IsWritten(s, bands, tile)
    {
      assert Placed(s, tiles, bands, tile);
      HeldNone(s.threads, tile);
    }
    forall tile: nat, b: nat | tile < tiles
      ensures Writes(s.written, tile, b) <= 1
    {
      assert Placed(s, tiles, bands, tile);
    }
  }

  /**
   The exception that is thrown again is the first one of this run exactly when none was left from an earlier run, or
   one like it: the list is not cleared when a run starts.
   */
  lemma FirstOfThisRun(states: seq<State>, tiles: nat, bands: nat, old': seq<Exception>)
    requires Run(states, tiles, old', bands) && IsOver(states[|states| - 1]) && states[|states| - 1].thrown != 0
    ensures
      var s := states[|states| - 1];
      && |old'| < |s.exceptions|
      && (Conclusion(s) == Rethrown(s.exceptions[|old'|]) <==> old' == [] || old'[0] == s.exceptions[|old'|])
      && (s.exceptions[|old'|] !in old' ==> (Conclusion(s) == Rethrown(s.exceptions[|old'|]) <==> old' == []))
      && (old' != [] ==> Conclusion(s) == Rethrown(old'[0]))
  {
    RunEndsWell(states, tiles, bands, old');
  }

  /** The state in which the first threads have ended and the others are ready. */
  function Ending(s: State, ended: nat): State {
    s.(threads := seq(WORKERS, i => if i < ended then Ended else Ready))
  }

  lemma EndingSteps(s: State, k: nat, bands: nat)
    requires s.queue == [] && k < WORKERS
    ensures SomeStep(Ending(s, k), Ending(s, k + 1), bands)
  {
    assert Ending(s, k).threads[k := Ended] == Ending(s, k + 1).threads;
    assert Step(Ending(s, k), Ending(s, k + 1), k, bands);
  }

  /**
   After a run that left exceptions behind, there is a run that ends with the exception of another one: its only tile is
   taken by the first thread, whose computation throws.
   */
  lemma LeftoverIsThrown(old': seq<Exception>, what: Exception, bands: nat) returns (states: seq<State>)
    requires old' != []
    ensures Run(states, 1, old', bands) && IsOver(states[|states| - 1])
    ensures
      var s := states[|states| - 1];
      s.exceptions == old' + [what] && s.thrown == 1 && Conclusion(s) == Rethrown(old'[0])
  {
    var s0 := Start(1, old');
    var s1 := s0.(queue := [], threads := s0.threads[0 := Holding(0)]);
    var s2 := s1.(threads := s1.threads[0 := Computing(0)]);
    var s3 := s2.(threads := s2.threads[0 := Caught(0, what)]);
    var s4 := s3.(threads := s3.threads[0 := Listed(0)], exceptions := old' + [what]);
    var s5 := s4.(threads := s4.threads[0 := Ready], thrown := 1, dropped := {0});
    assert Step(s0, s1, 0, bands) && Step(s1, s2, 0, bands) && Step(s2, s3, 0, bands);
    assert Step(s3, s4, 0, bands) && Step(s4, s5, 0, bands);
    assert s5 == Ending(s5, 0);
    var first := [s0, s1, s2, s3, s4];
    states := first + seq(WORKERS + 1, k requires k >= 0 => Ending(s5, k));
    hide Step;
    forall k | 0 < k < |states|
      ensures SomeStep(states[k - 1], states[k], bands)
    {
      if k > 5 {
        EndingSteps(s5, k - 6, bands);
      }
    }
  }

  // Every run ends

  ghost function Rank(th: Thread, bands: nat): nat {
    match th
    case Ended => 0
    case Ready => 1
    case Listed(_) => 2
    case Caught(_, _) => 3
    case Writing(_, b) => if b <= bands then 4 + bands - b else 4
    case Computing(_) => bands + 5
    case Holding(_) => bands + 6
  }

  ghost function Ranks(threads: seq<Thread>, bands: nat): nat {
    if threads == [] then 0 else Ranks(threads[..|threads| - 1], bands) + Rank(threads[|threads| - 1], bands)
  }

  lemma {:induction false} RanksUpdate(threads: seq<Thread>, i: nat, th: Thread, bands: nat)
    requires i < |threads|
    ensures Ranks(threads[i := th], bands) == Ranks(threads, bands) - Rank(threads[i], bands) + Rank(th, bands)
  {
    var last := |threads| - 1;
    if i == last {
      assert threads[i := th][..last] == threads[..last];
    } else {
      assert threads[i := th][..last] == threads[..last][i := th];
      RanksUpdate(threads[..last], i, th, bands);
    }
  }

  ghost function Work(s: State, bands: nat): nat {
    |s.queue| * (bands + 6) + Ranks(s.threads, bands)
  }

  /** Every step brings the run closer to its end. */
  lemma StepDescends(s: State, t: State, i: nat, tiles: nat, bands: nat, old': seq<Exception>)
    requires Invariant(s, tiles, bands, old') && Step(s, t, i, bands)
    ensures Work(t, bands) < Work(s, bands)
  {
    hide Ranks;
    var th := s.threads[i];
    RanksUpdate(s.threads, i, t.threads[i], bands);
    assert t.threads == s.threads[i := t.threads[i]];
    if th.Writing? {
      WritingIsBounded(s, i, tiles, bands, old');
    }
    if th.Ready? && s.queue != [] {
      assert |s.queue| * (bands + 6) == |t.queue| * (bands + 6) + (bands + 6);
    }
  }

  lemma WritingIsBounded(s: State, i: nat, tiles: nat, bands: nat, old': seq<Exception>)
    requires Invariant(s, tiles, bands, old') && i < |s.threads| && s.threads[i].Writing? && s.threads[i].tile < tiles
    ensures s.threads[i].band <= bands
  {
    assert Placed(s, tiles, bands, s.threads[i].tile);
    assert Has(s.threads[i], s.threads[i].tile);
  }

  /** As long as the run is not over, some thread can step: the lock never blocks all of them. */
  lemma SomeoneCanStep(s: State, bands: nat)
    requires !IsOver(s)
    ensures exists t :: SomeStep(s, t, bands)
  {
    var i :| 0 <= i < |s.threads| && !s.threads[i].Ended?;
    if Locked(s) {
      var j :| 0 <= j < |s.threads| && s.threads[j].Listed?;
      ListedSteps(s, j, bands);
    } else {
      FreeSteps(s, i, bands);
    }
  }

  lemma ListedSteps(s: State, j: nat, bands: nat)
    requires j < |s.threads| && s.threads[j].Listed?
    ensures exists t :: SomeStep(s, t, bands)
  {
    var tile := s.threads[j].tile;
    var t := s.(threads := s.threads[j := Ready], thrown := s.thrown + 1, dropped := s.dropped + {tile});
    assert Step(s, t, j, bands);
    assert SomeStep(s, t, bands);
  }

  lemma FreeSteps(s: State, i: nat, bands: nat)
    requires i < |s.threads| && !s.threads[i].Ended? && !Locked(s)
    ensures exists t :: SomeStep(s, t, bands)
  {
    var t :=
      match s.threads[i]
      case Ready =>
        if s.queue == [] then s.(threads := s.threads[i := Ended])
        else s.(queue := s.queue[1..], threads := s.threads[i := Holding(s.queue[0])])
      case Holding(tile) =>
        if s.thrown != 0 then s.(threads := s.threads[i := Ready], dropped := s.dropped + {tile})
        else s.(threads := s.threads[i := Computing(tile)])
      case Computing(tile) => s.(threads := s.threads[i := Writing(tile, 0)])
      case Writing(tile, b) =>
        if b == bands then s.(threads := s.threads[i := Ready])
        else s.(threads := s.threads[i := Writing(tile, b + 1)], written := s.written + [(tile, b)])
      case Caught(tile, what) => s.(threads := s.threads[i := Listed(tile)], exceptions := s.exceptions + [what])
      case _ => s;
    assert Step(s, t, i, bands);
    assert SomeStep(s, t, bands);
  }
}
