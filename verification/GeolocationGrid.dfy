/**
 Lookup in the geolocation grid of a sub-swath: the cell of an azimuth time and a slant range time, and bilinear values.
 */
module GeolocationGrid {

  import opened Common

  /** Azimuth and slant range times of the grid's points, line by line. */
  datatype Grid = Grid(azimuthTime: seq<seq<real>>, slantRangeTime: seq<seq<real>>) {
    function Lines(): nat {
      |azimuthTime|
    }

    function Points(): nat
      requires |slantRangeTime| > 0
    {
      |slantRangeTime[0]|
    }

    /** At least two lines of at least two points, with increasing range times on the first line. */
    ghost predicate Valid() {
      && |azimuthTime| >= 2 && |slantRangeTime| == |azimuthTime| && |slantRangeTime[0]| >= 2
      && IsField(azimuthTime) && IsField(slantRangeTime)
      && forall j, k :: 0 <= j < k < |slantRangeTime[0]| ==> slantRangeTime[0][j] < slantRangeTime[0][k]
    }

    /** A value for every point of the grid. */
    ghost predicate IsField(f: seq<seq<real>>)
      requires |slantRangeTime| > 0
    {
      |f| == |azimuthTime| && forall i :: 0 <= i < |f| ==> |f[i]| == |slantRangeTime[0]|
    }
  }

  /** The corners of a cell and the position in it. */
  datatype Index = Index(i0: int, i1: int, j0: int, j1: int, muX: real, muY: real)

  /** Between a and b, or beyond. */
  function Blend(a: real, b: real, mu: real): real {
    (1.0 - mu) * a + mu * b
  }

  /** The azimuth time of a line at a position between two points. */
  function LineTime(g: Grid, i: nat, j: nat, mu: real): real
    requires i < |g.azimuthTime| && j + 1 < |g.azimuthTime[i]|
  {
    Blend(g.azimuthTime[i][j], g.azimuthTime[i][j + 1], mu)
  }

  /** The part of the distance from a to b at x, which is negative before a and above 1 after b. */
  function Part(a: real, b: real, x: real): (mu: real)
    requires a < b
    ensures Blend(a, b, mu) == x
    ensures (x < a ==> mu < 0.0) && (x >= a ==> mu >= 0.0) && (x < b ==> mu < 1.0) && (x >= b ==> mu >= 1.0)
  {
    PartOf(a, b, x, (x - a) / (b - a));
    (x - a) / (b - a)
  }

  lemma PartOf(a: real, b: real, x: real, mu: real)
    requires a < b && mu == (x - a) / (b - a)
    ensures Blend(a, b, mu) == x
    ensures (x < a ==> mu < 0.0) && (x >= a ==> mu >= 0.0) && (x < b ==> mu < 1.0) && (x >= b ==> mu >= 1.0)
  {
    var d := b - a;
    assert mu * d == x - a;
    Shifted(a, b, mu);
    Sign(mu, d);
    Sign(mu - 1.0, d);
  }

  lemma Shifted(a: real, b: real, mu: real)
    ensures (1.0 - mu) * a + mu * b == a + mu * (b - a)
    ensures (mu - 1.0) * (b - a) == mu * (b - a) - (b - a)
  {
  }

  lemma Sign(mu: real, d: real)
    requires d > 0.0
    ensures mu < 0.0 <==> mu * d < 0.0
  {
  }

  /** The number of the cell of x among increasing times: the first or last one when x is outside. */
  ghost predicate CellOf(x: real, first: real, last: real, low: real, high: real, k: nat, cells: nat) {
    && k < cells && low < high
    && (x < first ==> k == 0)
    && (x >= last ==> k == cells - 1)
    && (first <= x < last ==> low <= x < high)
  }

  /** The range cell of a slant range time; none for the last time of the first line. */
  ghost predicate RangeCell(g: Grid, slant: real, j: nat)
    requires g.Valid()
  {
    var t := g.slantRangeTime[0];
    slant != t[|t| - 1] && j + 1 < |t| && CellOf(slant, t[0], t[|t| - 1], t[j], t[j + 1], j, |t| - 1)
  }

  lemma OneRangeCell(g: Grid, slant: real, j: nat, k: nat)
    requires g.Valid() && RangeCell(g, slant, j) && RangeCell(g, slant, k)
    ensures j == k
  {
  }

  ghost predicate TimesIncrease(g: Grid, j: nat, mu: real)
    requires g.Valid() && j + 1 < |g.slantRangeTime[0]|
  {
    forall i, k :: 0 <= i < k < |g.azimuthTime| ==> LineTime(g, i, j, mu) < LineTime(g, k, j, mu)
  }

  /** At the position of the slant range time between its two points, the lines' azimuth times increase. */
  ghost predicate LinesIncrease(g: Grid, slant: real)
    requires g.Valid()
  {
    forall j: nat :: RangeCell(g, slant, j) ==>
      TimesIncrease(g, j, Part(g.slantRangeTime[0][j], g.slantRangeTime[0][j + 1], slant))
  }

  /** The index is that of a cell of the grid, and its position in the cell is that of the two times. */
  ghost predicate Located(g: Grid, azimuth: real, slant: real, x: Index)
    requires g.Valid()
  {
    && 0 <= x.i0 && x.i1 == x.i0 + 1 < |g.azimuthTime| && 0 <= x.j0 && x.j1 == x.j0 + 1 < |g.slantRangeTime[0]|
    && RangeCell(g, slant, x.j0)
    && Blend(g.slantRangeTime[0][x.j0], g.slantRangeTime[0][x.j1], x.muX) == slant
    && var n := |g.azimuthTime|;
    && CellOf(azimuth, LineTime(g, 0, x.j0, x.muX), LineTime(g, n - 1, x.j0, x.muX),
              LineTime(g, x.i0, x.j0, x.muX), LineTime(g, x.i1, x.j0, x.muX), x.i0, n - 1)
    && Blend(LineTime(g, x.i0, x.j0, x.muX), LineTime(g, x.i1, x.j0, x.muX), x.muY) == azimuth
  }

  /** The search for the range cell; -1 when there is none. */
  method FindRangeCell(g: Grid, slant: real) returns (j0: int)
    requires g.Valid()
    ensures j0 == -1 <==> slant == g.slantRangeTime[0][g.Points() - 1]
    ensures j0 != -1 ==> 0 <= j0 && RangeCell(g, slant, j0)
  {
    var t := g.slantRangeTime[0];
    j0 := -1;
    if slant < t[0] {
      j0 := 0;
    } else if slant > t[|t| - 1] {
      j0 := |t| - 2;
    } else {
      for j := 0 to |t| - 1
        invariant j0 == -1 && t[j] <= slant
      {
        if t[j] <= slant && t[j + 1] > slant {
          j0 := j;
          break;
        }
      }
    }
  }

  method ComputeIndex(azimuth: real, slant: real, g: Grid) returns (r: Option<Index>)
    requires g.Valid() && LinesIncrease(g, slant)
    ensures r.None? <==> slant == g.slantRangeTime[0][g.Points() - 1]
    ensures r.Some? ==> Located(g, azimuth, slant, r.value)
  {
    hide Blend, LineTime, CellOf;
    var j0 := FindRangeCell(g, slant);
    if j0 == -1 {
      return None;
    }
    var j1 := j0 + 1;
    var muX := Part(g.slantRangeTime[0][j0], g.slantRangeTime[0][j1], slant);
    assert TimesIncrease(g, j0, muX);
    var i0, muY := FindLine(g, azimuth, j0, muX);
    r := Some(Index(i0, i0 + 1, j0, j1, muX, muY));
  }

  /** The search for the two lines around an azimuth time, at a position between two points. */
  method FindLine(g: Grid, azimuth: real, j0: nat, muX: real) returns (i0: nat, muY: real)
    requires g.Valid() && j0 + 1 < |g.slantRangeTime[0]| && TimesIncrease(g, j0, muX)
    ensures i0 + 1 < |g.azimuthTime|
    ensures CellOf(azimuth, LineTime(g, 0, j0, muX), LineTime(g, g.Lines() - 1, j0, muX),
                   LineTime(g, i0, j0, muX), LineTime(g, i0 + 1, j0, muX), i0, g.Lines() - 1)
    ensures Blend(LineTime(g, i0, j0, muX), LineTime(g, i0 + 1, j0, muX), muY) == azimuth
  {
    hide Blend, Part, LineTime;
    var n := g.Lines();
    for i := 0 to n - 1
      invariant i > 0 ==> LineTime(g, i, j0, muX) <= azimuth && i < n - 1
    {
      var time0, time1 := LineTime(g, i, j0, muX), LineTime(g, i + 1, j0, muX);
      if (i == 0 && azimuth < time0) || (i == n - 2 && azimuth >= time1) || (time0 <= azimuth && time1 > azimuth) {
        return i, Part(time0, time1, azimuth);
      }
    }
    assert false;
  }

  // Values

  /** The value of a field in a cell, from its four corners. */
  function Value(f: seq<seq<real>>, x: Index): real
    requires 0 <= x.i0 < |f| && 0 <= x.i1 < |f|
    requires 0 <= x.j0 < |f[x.i0]| && 0 <= x.j1 < |f[x.i0]| && x.j0 < |f[x.i1]| && x.j1 < |f[x.i1]|
  {
    Blend(Blend(f[x.i0][x.j0], f[x.i0][x.j1], x.muX), Blend(f[x.i1][x.j0], f[x.i1][x.j1], x.muX), x.muY)
  }

  /** A field that is affine in the azimuth time of the point and the range time of its column. */
  ghost predicate Affine(g: Grid, f: seq<seq<real>>, a: real, b: real, c: real)
    requires g.Valid()
  {
    && g.IsField(f)
    && forall i, j :: 0 <= i < |f| && 0 <= j < |f[i]| ==>
      f[i][j] == a * g.azimuthTime[i][j] + b * g.slantRangeTime[0][j] + c
  }

  lemma BlendAffine(a: real, b: real, c: real, x0: real, x1: real, y0: real, y1: real, mu: real)
    ensures Blend(a * x0 + b * y0 + c, a * x1 + b * y1 + c, mu) == a * Blend(x0, x1, mu) + b * Blend(y0, y1, mu) + c
  {
    var nu := 1.0 - mu;
    assert nu * (a * x0 + b * y0 + c) == a * (nu * x0) + b * (nu * y0) + nu * c;
    assert mu * (a * x1 + b * y1 + c) == a * (mu * x1) + b * (mu * y1) + mu * c;
    assert nu * c + mu * c == c;
    assert a * (nu * x0) + a * (mu * x1) == a * (nu * x0 + mu * x1);
    assert b * (nu * y0) + b * (mu * y1) == b * (nu * y0 + mu * y1);
  }

  lemma AffineRow(g: Grid, slant: real, x: Index, f: seq<seq<real>>, a: real, b: real, c: real, i: nat)
    requires g.Valid() && Affine(g, f, a, b, c) && i < |f|
    requires 0 <= x.j0 && x.j1 == x.j0 + 1 < |g.slantRangeTime[0]|
    requires Blend(g.slantRangeTime[0][x.j0], g.slantRangeTime[0][x.j1], x.muX) == slant
    ensures Blend(f[i][x.j0], f[i][x.j1], x.muX) == a * LineTime(g, i, x.j0, x.muX) + b * slant + c
  {
    var t := g.slantRangeTime[0];
    BlendAffine(a, b, c, g.azimuthTime[i][x.j0], g.azimuthTime[i][x.j1], t[x.j0], t[x.j1], x.muX);
    hide Blend;
  }

  lemma BlendSame(v: real, mu: real)
    ensures Blend(v, v, mu) == v
  {
    assert (1.0 - mu) * v + mu * v == v;
  }

  /** Inside the grid and beyond its edges, an affine field is returned exactly. */
  lemma AffineIsExact(g: Grid, azimuth: real, slant: real, x: Index, f: seq<seq<real>>, a: real, b: real, c: real)
    requires g.Valid() && Located(g, azimuth, slant, x) && Affine(g, f, a, b, c)
    ensures Value(f, x) == a * azimuth + b * slant + c
  {
    hide Blend, LineTime, RangeCell, CellOf;
    var y0, y1 := LineTime(g, x.i0, x.j0, x.muX), LineTime(g, x.i1, x.j0, x.muX);
    AffineRow(g, slant, x, f, a, b, c, x.i0);
    AffineRow(g, slant, x, f, a, b, c, x.i1);
    assert Blend(f[x.i0][x.j0], f[x.i0][x.j1], x.muX) == a * y0 + b * slant + c;
    assert Blend(f[x.i1][x.j0], f[x.i1][x.j1], x.muX) == a * y1 + b * slant + c;
    assert Value(f, x) == Blend(a * y0 + b * slant + c, a * y1 + b * slant + c, x.muY);
    AffineColumn(azimuth, slant, y0, y1, x.muY, a, b, c);
  }

  lemma AffineColumn(azimuth: real, slant: real, y0: real, y1: real, mu: real, a: real, b: real, c: real)
    requires Blend(y0, y1, mu) == azimuth
    ensures Blend(a * y0 + b * slant + c, a * y1 + b * slant + c, mu) == a * azimuth + b * slant + c
  {
    BlendAffine(a, b, c, y0, y1, slant, slant, mu);
    BlendSame(slant, mu);
    hide Blend;
  }
}
