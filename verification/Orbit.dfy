/**
 The satellite orbit: state vectors at increasing times, and position and velocity in between by Lagrange interpolation
 over a window of at most eight of them.
 */
module Orbit {

  import opened Common
  import opened Lagrange

  datatype Vector = Vector(x: real, y: real, z: real)

  datatype StateVector = StateVector(time: real, position: Vector, velocity: Vector)

  datatype PositionVelocity = PositionVelocity(position: Vector, velocity: Vector)

  /** How many vectors a window holds, when there are that many. */
  const WINDOW: nat := 8

  // The vectors that are kept

  /** Whether vector i is later than every vector before it. */
  predicate IsRecord(vs: seq<StateVector>, i: nat)
    requires i < |vs|
  {
    forall j :: 0 <= j < i ==> vs[j].time < vs[i].time
  }

  /** Those of the first k vectors that are later than every vector before them. */
  function Records(vs: seq<StateVector>, k: nat): seq<StateVector>
    requires k <= |vs|
  {
    if k == 0 then [] else Records(vs, k - 1) + if IsRecord(vs, k - 1) then [vs[k - 1]] else []
  }

  ghost predicate Ordered(vs: seq<StateVector>) {
    forall i, j :: 0 <= i < j < |vs| ==> vs[i].time < vs[j].time
  }

  /** The records are in strictly increasing time, and the last one is as late as any of the vectors. */
  lemma {:induction false} RecordsOrdered(vs: seq<StateVector>, k: nat)
    requires k <= |vs|
    ensures Ordered(Records(vs, k))
    ensures k > 0 ==> Records(vs, k) != [] && Records(vs, k)[0] == vs[0]
    ensures forall i :: 0 <= i < |Records(vs, k)| ==> Records(vs, k)[i] in vs[..k]
    ensures forall j :: 0 <= j < k ==> vs[j].time <= Records(vs, k)[|Records(vs, k)| - 1].time
  {
    if k > 0 {
      var before := Records(vs, k - 1);
      RecordsOrdered(vs, k - 1);
      if IsRecord(vs, k - 1) {
        forall i | 0 <= i < |before|
          ensures before[i].time < vs[k - 1].time
        {
          var j :| 0 <= j < k - 1 && vs[..k - 1][j] == before[i];
        }
      } else {
        var j :| 0 <= j < k - 1 && vs[j].time >= vs[k - 1].time;
      }
    }
  }

  /** Vectors that are in strictly increasing time are all kept. */
  lemma {:induction false} NothingRedundant(vs: seq<StateVector>, k: nat)
    requires Ordered(vs) && k <= |vs|
    ensures Records(vs, k) == vs[..k]
  {
    if k > 0 {
      NothingRedundant(vs, k - 1);
      assert vs[..k] == vs[..k - 1] + [vs[k - 1]];
    }
  }

  method RemoveRedundantVectors(vs: seq<StateVector>) returns (kept: seq<StateVector>)
    ensures kept == Records(vs, |vs|)
  {
    kept := [];
    var currentTime := 0.0;
    for i := 0 to |vs|
      invariant kept == Records(vs, i)
      invariant i > 0 ==> forall j :: 0 <= j < i ==> vs[j].time <= currentTime
      invariant i > 0 ==> exists j :: 0 <= j < i && vs[j].time == currentTime
    {
      if i == 0 || vs[i].time > currentTime {
        currentTime := vs[i].time;
        kept := kept + [vs[i]];
      }
    }
  }

  // The window

  /** The conversion to an integer, which drops the fraction. */
  function Truncated(x: real): (n: int)
    ensures x >= 0.0 ==> n as real <= x < n as real + 1.0
    ensures x <= 0.0 ==> n as real - 1.0 < x <= n as real
  {
    if x >= 0.0 then x.Floor else 0 - (0.0 - x).Floor
  }

  function Max(a: int, b: int): int {
    if a < b then b else a
  }

  function Min(a: int, b: int): int {
    if b < a then b else a
  }

  /** The mean distance of the vectors in time; not used when there are eight or fewer. */
  function MeanStep(vs: seq<StateVector>): real
    requires |vs| > 0
  {
    if |vs| == 1 then 0.0 else (vs[|vs| - 1].time - vs[0].time) / ((|vs| - 1) as real)
  }

  lemma MeanStepPositive(vs: seq<StateVector>)
    requires Ordered(vs) && |vs| > 1
    ensures MeanStep(vs) > 0.0
  {
    var d, n := vs[|vs| - 1].time - vs[0].time, (|vs| - 1) as real;
    assert d > 0.0 && n > 0.0;
    assert (d / n) * n == d;
  }

  /** The first and the last index of the window for a time. */
  function Window(vs: seq<StateVector>, dt: real, time: real): (w: (nat, nat))
    requires |vs| > 0 && (|vs| > WINDOW ==> dt > 0.0)
    ensures w.0 <= w.1 < |vs| && w.1 - w.0 + 1 == Min(|vs|, WINDOW)
  {
    if |vs| <= WINDOW then (0, |vs| - 1)
    else
      var first := Max(Truncated((time - vs[0].time) / dt) - WINDOW / 2 + 1, 0);
      var last := Min(first + WINDOW - 1, |vs| - 1);
      (if last < |vs| - 1 then first else last - WINDOW + 1, last)
  }

  ghost predicate EvenlySpaced(vs: seq<StateVector>, dt: real) {
    forall i :: 0 <= i < |vs| ==> vs[i].time == vs[0].time + Times(i as real, dt)
  }

  lemma Quotients(d: real, dt: real, q: real)
    requires dt > 0.0 && q == d / dt
    ensures Times(q, dt) == d
  {
  }

  lemma BetweenSteps(q: real, dt: real, low: int, high: int)
    requires dt > 0.0
    ensures Times(low as real, dt) <= Times(q, dt) ==> low as real <= q
    ensures Times(q, dt) < Times(high as real, dt) ==> q < high as real
  {
    if q < low as real {
      assert (low as real - q) * dt > 0.0;
    }
    if q >= high as real {
      assert (q - high as real) * dt >= 0.0;
    }
  }

  lemma Steps(q: real, f: real, g: real, dt: real)
    requires dt > 0.0 && f <= q < g
    ensures Times(f, dt) <= Times(q, dt) < Times(g, dt)
  {
    assert (q - f) * dt >= 0.0;
    assert (g - q) * dt > 0.0;
  }

  // Interpolation

  datatype Channel = X | Y | Z | VelocityX | VelocityY | VelocityZ

  function Get(v: StateVector, c: Channel): real {
    match c
    case X => v.position.x
    case Y => v.position.y
    case Z => v.position.z
    case VelocityX => v.velocity.x
    case VelocityY => v.velocity.y
    case VelocityZ => v.velocity.z
  }

  ghost function Clock(vs: seq<StateVector>): (ts: seq<real>)
    ensures |ts| == |vs| && forall i :: 0 <= i < |vs| ==> ts[i] == vs[i].time
    ensures Ordered(vs) ==> Increasing(ts) && Distinct(ts)
  {
    seq(|vs|, i requires 0 <= i < |vs| => vs[i].time)
  }

  ghost function Column(vs: seq<StateVector>, c: Channel): (ys: seq<real>)
    ensures |ys| == |vs| && forall i :: 0 <= i < |vs| ==> ys[i] == Get(vs[i], c)
  {
    seq(|vs|, i requires 0 <= i < |vs| => Get(vs[i], c))
  }

  /** The vectors of the window for a time. */
  ghost function Near(vs: seq<StateVector>, time: real): (ws: seq<StateVector>)
    requires |vs| > 0 && Ordered(vs)
    ensures |ws| == Min(|vs|, WINDOW) && Ordered(ws)
  {
    if |vs| > 1 then MeanStepPositive(vs); var w := Window(vs, MeanStep(vs), time); vs[w.0..w.1 + 1]
    else vs
  }

  /**
   Among evenly spaced vectors, a time with at least four vectors at or before it and four after it lies in the middle
   of its window: four on either side.
   */
  lemma WindowIsCentred(vs: seq<StateVector>, time: real)
    requires |vs| > WINDOW && Ordered(vs) && EvenlySpaced(vs, MeanStep(vs))
    requires vs[3].time <= time < vs[|vs| - 4].time
    ensures var ws := Near(vs, time); ws[3].time <= time < ws[4].time
  {
    MeanStepPositive(vs);
    var dt := MeanStep(vs);
    var q := (time - vs[0].time) / dt;
    Quotients(time - vs[0].time, dt, q);
    BetweenSteps(q, dt, 3, |vs| - 4);
    assert vs[3].time == vs[0].time + Times(3 as real, dt);
    var f := Truncated(q);
    Steps(q, f as real, (f + 1) as real, dt);
    assert vs[f].time <= time < vs[f + 1].time;
    assert Window(vs, dt, time).0 == f - 3;
  }

  /** Among evenly spaced vectors, every vector is in the window for its own time. */
  lemma VectorInItsWindow(vs: seq<StateVector>, k: nat)
    requires k < |vs| && Ordered(vs) && EvenlySpaced(vs, MeanStep(vs))
    ensures vs[k] in Near(vs, vs[k].time)
  {
    if |vs| > WINDOW {
      MeanStepPositive(vs);
      var dt := MeanStep(vs);
      var q := (vs[k].time - vs[0].time) / dt;
      Quotients(vs[k].time - vs[0].time, dt, q);
      Steps(k as real, k as real, (k + 1) as real, dt);
      BetweenSteps(q, dt, k, k + 1);
      var lo := Window(vs, dt, vs[k].time).0;
      assert lo <= k <= lo + 7;
      assert vs[lo..lo + 8][k - lo] == vs[k];
    }
  }

  ghost function At(vs: seq<StateVector>, time: real, c: Channel): real
    requires |vs| > 0 && Ordered(vs)
  {
    Interpolate(Clock(Near(vs, time)), Column(Near(vs, time), c), time)
  }

  ghost function PositionAt(vs: seq<StateVector>, time: real): Vector
    requires |vs| > 0 && Ordered(vs)
  {
    Vector(At(vs, time, X), At(vs, time, Y), At(vs, time, Z))
  }

  ghost function VelocityAt(vs: seq<StateVector>, time: real): Vector
    requires |vs| > 0 && Ordered(vs)
  {
    Vector(At(vs, time, VelocityX), At(vs, time, VelocityY), At(vs, time, VelocityZ))
  }

  /** Whether a coordinate of the vectors follows a polynomial in time. */
  ghost predicate Follows(vs: seq<StateVector>, c: Channel, p: seq<real>) {
    forall i :: 0 <= i < |vs| ==> Get(vs[i], c) == Eval(p, vs[i].time)
  }

  /**
   A coordinate that follows a polynomial in the window, of degree below the number of vectors there, is returned
   exactly at every time.
   */
  lemma OrbitIsExact(vs: seq<StateVector>, time: real, c: Channel, p: seq<real>)
    requires |vs| > 0 && Ordered(vs)
    requires Follows(Near(vs, time), c, p) && |p| <= Min(|vs|, WINDOW)
    ensures At(vs, time, c) == Eval(p, time)
  {
    var ws := Near(vs, time);
    Exact(Clock(ws), Column(ws, c), p, time);
  }

  /** At the time of a vector of the window, the interpolation returns that vector. */
  lemma OrbitAtVector(vs: seq<StateVector>, k: nat)
    requires Ordered(vs) && k < |vs| && vs[k] in Near(vs, vs[k].time)
    ensures PositionAt(vs, vs[k].time) == vs[k].position && VelocityAt(vs, vs[k].time) == vs[k].velocity
  {
    var ws := Near(vs, vs[k].time);
    var n :| 0 <= n < |ws| && ws[n] == vs[k];
    forall c: Channel
      ensures At(vs, vs[k].time, c) == Get(vs[k], c)
    {
      AtNode(Clock(ws), Column(ws, c), n, |ws|);
    }
  }

  function Accumulate(sum: Vector, weight: real, v: Vector): Vector {
    Vector(sum.x + Times(weight, v.x), sum.y + Times(weight, v.y), sum.z + Times(weight, v.z))
  }

  /** The first k terms of the interpolated position. */
  ghost function PositionSum(ws: seq<StateVector>, time: real, k: nat): Vector
    requires Ordered(ws) && k <= |ws|
  {
    var ts := Clock(ws);
    Vector(Sum(ts, Column(ws, X), time, k), Sum(ts, Column(ws, Y), time, k), Sum(ts, Column(ws, Z), time, k))
  }

  ghost function VelocitySum(ws: seq<StateVector>, time: real, k: nat): Vector
    requires Ordered(ws) && k <= |ws|
  {
    var ts := Clock(ws);
    Vector(Sum(ts, Column(ws, VelocityX), time, k), Sum(ts, Column(ws, VelocityY), time, k),
           Sum(ts, Column(ws, VelocityZ), time, k))
  }

  lemma NextTerm(ws: seq<StateVector>, time: real, k: nat)
    requires Ordered(ws) && k < |ws|
    ensures
      var weight := Weight(Clock(ws), k, time, |ws|);
      && PositionSum(ws, time, k + 1) == Accumulate(PositionSum(ws, time, k), weight, ws[k].position)
      && VelocitySum(ws, time, k + 1) == Accumulate(VelocitySum(ws, time, k), weight, ws[k].velocity)
  {
    hide Weight, Times;
  }

  lemma NoTerm(ws: seq<StateVector>, time: real)
    requires Ordered(ws)
    ensures PositionSum(ws, time, 0) == Vector(0.0, 0.0, 0.0) == VelocitySum(ws, time, 0)
  {
  }

  lemma AllTerms(vs: seq<StateVector>, time: real)
    requires |vs| > 0 && Ordered(vs)
    ensures PositionSum(Near(vs, time), time, |Near(vs, time)|) == PositionAt(vs, time)
    ensures VelocitySum(Near(vs, time), time, |Near(vs, time)|) == VelocityAt(vs, time)
  {
    hide Sum, Near;
  }

  /** The time of an image line. */
  function LineTime(firstLine: real, lineInterval: real, line: nat): real {
    firstLine + line as real * lineInterval
  }

  class OrbitStateVectors {
    const vectors: seq<StateVector>
    const dt: real
    var timeMap: map<real, PositionVelocity>
    var sensorPosition: seq<Vector>
    var sensorVelocity: seq<Vector>

    /** The vectors are in order, and what is remembered for a time is what the vectors give. */
    ghost predicate Valid()
      reads this
    {
      && |vectors| > 0
      && Ordered(vectors)
      && dt == MeanStep(vectors)
      && forall t :: t in timeMap ==> timeMap[t] == PositionVelocity(PositionAt(vectors, t), VelocityAt(vectors, t))
    }

    constructor (stateVectors: seq<StateVector>)
      requires |stateVectors| > 0
      ensures Valid() && vectors == Records(stateVectors, |stateVectors|) && timeMap == map[]
    {
      var kept := RemoveRedundantVectors(stateVectors);
      RecordsOrdered(stateVectors, |stateVectors|);
      vectors := kept;
      dt := MeanStep(kept);
      timeMap := map[];
      sensorPosition, sensorVelocity := [], [];
    }

    /** Also computes the sensor's position and velocity at every image line. */
    constructor WithLines(stateVectors: seq<StateVector>, firstLine: real, lineInterval: real, height: nat)
      requires |stateVectors| > 0
      ensures Valid() && vectors == Records(stateVectors, |stateVectors|)
      ensures |sensorPosition| == height && |sensorVelocity| == height
      ensures forall i :: 0 <= i < height ==>
        sensorPosition[i] == PositionAt(vectors, LineTime(firstLine, lineInterval, i))
      ensures forall i :: 0 <= i < height ==>
        sensorVelocity[i] == VelocityAt(vectors, LineTime(firstLine, lineInterval, i))
    {
      hide LineTime, PositionAt, VelocityAt, MeanStep, Records, Ordered;
      var kept := RemoveRedundantVectors(stateVectors);
      RecordsOrdered(stateVectors, |stateVectors|);
      vectors := kept;
      dt := MeanStep(kept);
      timeMap := map[];
      sensorPosition, sensorVelocity := [], [];
      new;
      for i := 0 to height
        invariant Valid() && |sensorPosition| == i && |sensorVelocity| == i
        invariant forall k :: 0 <= k < i ==>
          sensorPosition[k] == PositionAt(vectors, LineTime(firstLine, lineInterval, k))
        invariant forall k :: 0 <= k < i ==>
          sensorVelocity[k] == VelocityAt(vectors, LineTime(firstLine, lineInterval, k))
      {
        var pv := GetPositionVelocity(LineTime(firstLine, lineInterval, i));
        sensorPosition := sensorPosition + [pv.position];
        sensorVelocity := sensorVelocity + [pv.velocity];
      }
    }

    method FindWindow(time: real) returns (first: nat, last: nat)
      requires Valid()
      ensures first <= last < |vectors| && vectors[first..last + 1] == Near(vectors, time)
    {
      if |vectors| > 1 {
        MeanStepPositive(vectors);
      }
      var i0, i1: int;
      if |vectors| <= WINDOW {
        i0 := 0;
        i1 := |vectors| - 1;
      } else {
        i0 := Max(Truncated((time - vectors[0].time) / dt) - WINDOW / 2 + 1, 0);
        i1 := Min(i0 + WINDOW - 1, |vectors| - 1);
        i0 := if i1 < |vectors| - 1 then i0 else i1 - WINDOW + 1;
      }
      first, last := i0, i1;
    }

    method WeightOf(first: nat, last: nat, i: nat, time: real) returns (weight: real)
      requires Valid() && first <= i <= last < |vectors|
      ensures weight == Weight(Clock(vectors[first..last + 1]), i - first, time, last + 1 - first)
    {
      hide Weight, Times, Ratio, Near, MeanStep, PositionAt, VelocityAt;
      ghost var ts := Clock(vectors[first..last + 1]);
      weight := 1.0;
      NoFactor(ts, i - first, time);
      for j := first to last + 1
        invariant weight == Weight(ts, i - first, time, j - first)
      {
        if j != i {
          var time2 := vectors[j].time;
          NextFactor(ts, i - first, time, j + 1 - first);
          weight := Times(weight, Ratio(time, vectors[i].time, time2));
        }
      }
    }

    method GetPosition(time: real) returns (position: Vector)
      requires Valid()
      ensures position == PositionAt(vectors, time)
    {
      hide Near, PositionAt, VelocityAt, PositionSum, VelocitySum, Accumulate, Weight;
      var first, last := FindWindow(time);
      ghost var ws := vectors[first..last + 1];
      position := Vector(0.0, 0.0, 0.0);
      NoTerm(ws, time);
      for i := first to last + 1
        invariant position == PositionSum(ws, time, i - first)
      {
        var weight := WeightOf(first, last, i, time);
        NextTerm(ws, time, i - first);
        position := Accumulate(position, weight, vectors[i].position);
      }
      AllTerms(vectors, time);
    }

    method GetVelocity(time: real) returns (velocity: Vector)
      requires Valid()
      ensures velocity == VelocityAt(vectors, time)
    {
      hide Near, PositionAt, VelocityAt, PositionSum, VelocitySum, Accumulate, Weight;
      var first, last := FindWindow(time);
      ghost var ws := vectors[first..last + 1];
      velocity := Vector(0.0, 0.0, 0.0);
      NoTerm(ws, time);
      for i := first to last + 1
        invariant velocity == VelocitySum(ws, time, i - first)
      {
        var weight := WeightOf(first, last, i, time);
        NextTerm(ws, time, i - first);
        velocity := Accumulate(velocity, weight, vectors[i].velocity);
      }
      AllTerms(vectors, time);
    }

    /** Remembered or computed, the answer is that of GetPosition and GetVelocity, and it is remembered from then on. */
    method GetPositionVelocity(time: real) returns (pv: PositionVelocity)
      requires Valid()
      modifies this`timeMap
      ensures Valid()
      ensures pv == PositionVelocity(PositionAt(vectors, time), VelocityAt(vectors, time))
      ensures timeMap == old(timeMap)[time := pv]
    {
      hide Near, PositionAt, VelocityAt, PositionSum, VelocitySum, Accumulate, Weight;
      if time in timeMap {
        return timeMap[time];
      }
      var first, last := FindWindow(time);
      ghost var ws := vectors[first..last + 1];
      var position, velocity := Vector(0.0, 0.0, 0.0), Vector(0.0, 0.0, 0.0);
      NoTerm(ws, time);
      for i := first to last + 1
        invariant timeMap == old(timeMap)
        invariant position == PositionSum(ws, time, i - first)
        invariant velocity == VelocitySum(ws, time, i - first)
      {
        var weight := WeightOf(first, last, i, time);
        NextTerm(ws, time, i - first);
        position := Accumulate(position, weight, vectors[i].position);
        velocity := Accumulate(velocity, weight, vectors[i].velocity);
      }
      AllTerms(vectors, time);
      pv := PositionVelocity(position, velocity);
      timeMap := timeMap[time := pv];
    }
  }
}
