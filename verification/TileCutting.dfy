/**
 How the backgeocoding controller cuts the raster of all bursts into tiles for its workers.
 */
module TileCutting {

  /** How many pixels a tile should have at most. */
  const RECOMMENDED_TILE_AREA: nat := 4000000

  datatype Rectangle = Rectangle(x: int, y: int, width: int, height: int)

  datatype WorkerParams = WorkerParams(index: int, area: Rectangle, masterBurst: int, slaveBurst: int)

  ghost predicate Contains(r: Rectangle, x: int, y: int) {
    r.x <= x < r.x + r.width && r.y <= y < r.y + r.height
  }

  ghost predicate Apart(a: Rectangle, b: Rectangle) {
    a.x + a.width <= b.x || b.x + b.width <= a.x || a.y + a.height <= b.y || b.y + b.height <= a.y
  }

  ghost predicate Covered(ws: seq<WorkerParams>, x: int, y: int) {
    exists k :: 0 <= k < |ws| && Contains(ws[k].area, x, y)
  }

  /**
   Tile k is the one of its burst and number, has pixels, and is not too large; if it is not the last one of its burst,
   it is as wide as the recommended area allows.
   */
  ghost predicate GoodTile(w: WorkerParams, k: nat, lines: int, samples: int, offset: int)
    requires lines > 0
  {
    && w.index == k + 1 && w.slaveBurst == w.masterBurst + offset && w.masterBurst >= 0
    && w.area.y == w.masterBurst * lines && w.area.height == lines
    && 0 <= w.area.x && 0 < w.area.width && w.area.x + w.area.width <= samples
    && w.area.width * lines <= RECOMMENDED_TILE_AREA
    && (w.area.x + w.area.width < samples ==> IsWidest(w.area.width, lines))
  }

  /** The tile could not be a pixel wider. */
  ghost predicate IsWidest(width: int, lines: int)
    requires lines > 0
  {
    width == RECOMMENDED_TILE_AREA / lines && width * lines <= RECOMMENDED_TILE_AREA < (width + 1) * lines
  }

  lemma NextBurst(burst: int, lines: int)
    ensures (burst + 1) * lines == burst * lines + lines
  {
  }

  /** The recommended width times the lines of a burst is not more than the recommended area. */
  lemma WidthFits(lines: int, width: int)
    requires 0 < lines && 0 <= width <= RECOMMENDED_TILE_AREA / lines
    ensures width * lines <= RECOMMENDED_TILE_AREA
    ensures width == RECOMMENDED_TILE_AREA / lines ==> IsWidest(width, lines)
  {
    var q := RECOMMENDED_TILE_AREA / lines;
    assert q * lines <= RECOMMENDED_TILE_AREA < (q + 1) * lines;
    assert (q - width) * lines >= 0;
  }

  /** The tiles partition the raster: each is inside it, no two share a pixel, and every pixel is in one. */
  ghost predicate Partition(ws: seq<WorkerParams>, bursts: int, lines: int, samples: int) {
    && (forall k :: 0 <= k < |ws| ==>
      var r := ws[k].area; 0 <= r.x && r.x + r.width <= samples && 0 <= r.y && r.y + r.height <= bursts * lines)
    && (forall i, j :: 0 <= i < j < |ws| ==> Apart(ws[i].area, ws[j].area))
    && (forall x, y :: 0 <= x < samples && 0 <= y < bursts * lines ==> Covered(ws, x, y))
  }

  /** The earlier bursts are cut, and this one up to a sample. */
  ghost predicate InBurst(ws: seq<WorkerParams>, burst: int, lines: int, samples: int, sample: int) {
    && (forall k :: 0 <= k < |ws| ==>
      var r := ws[k].area;
      && 0 <= r.x && r.x + r.width <= samples && 0 <= r.y && r.y + r.height <= burst * lines + lines
      && (r.y + r.height <= burst * lines || r.x + r.width <= sample))
    && (forall i, j :: 0 <= i < j < |ws| ==> Apart(ws[i].area, ws[j].area))
    && (forall x, y :: 0 <= x < samples && 0 <= y < burst * lines + lines && (y < burst * lines || x < sample) ==>
      Covered(ws, x, y))
  }

  lemma CoveredStill(ws: seq<WorkerParams>, w: WorkerParams, x: int, y: int)
    ensures Covered(ws, x, y) ==> Covered(ws + [w], x, y)
    ensures Contains(w.area, x, y) ==> Covered(ws + [w], x, y)
  {
    if Covered(ws, x, y) {
      var k :| 0 <= k < |ws| && Contains(ws[k].area, x, y);
      assert Contains((ws + [w])[k].area, x, y);
    }
    if Contains(w.area, x, y) {
      assert (ws + [w])[|ws|] == w;
    }
  }

  lemma InBurstGrows(ws: seq<WorkerParams>, burst: int, lines: int, samples: int, sample: int, w: WorkerParams)
    requires InBurst(ws, burst, lines, samples, sample) && 0 <= sample && 0 <= burst * lines
    requires w.area.x == sample && w.area.y == burst * lines && w.area.height == lines && 0 < w.area.width
    requires w.area.x + w.area.width <= samples
    ensures InBurst(ws + [w], burst, lines, samples, sample + w.area.width)
    ensures w.area.x + w.area.width == samples ==>
      forall end :: end >= samples ==> InBurst(ws + [w], burst, lines, samples, end)
  {
    var b := burst * lines;
    forall x, y | 0 <= x < samples && 0 <= y < b + lines && (y < b || x < sample + w.area.width)
      ensures Covered(ws + [w], x, y)
    {
      CoveredStill(ws, w, x, y);
      if y >= b && x >= sample {
        assert Contains(w.area, x, y);
      }
    }
  }

  lemma BurstDone(ws: seq<WorkerParams>, burst: int, lines: int, samples: int, sample: int)
    requires InBurst(ws, burst, lines, samples, sample) && sample >= samples
    ensures Partition(ws, burst + 1, lines, samples)
  {
    NextBurst(burst, lines);
  }

  lemma NothingCut(lines: int, samples: int)
    ensures Partition([], 0, lines, samples)
  {
  }

  lemma NoBursts(bursts: int, lines: int, samples: int)
    requires bursts < 0 < lines
    ensures Partition([], bursts, lines, samples)
  {
    assert bursts * lines <= 0;
  }

  lemma BurstStarts(ws: seq<WorkerParams>, burst: int, lines: int, samples: int)
    requires Partition(ws, burst, lines, samples) && burst >= 0 && lines > 0
    ensures InBurst(ws, burst, lines, samples, 0) && burst * lines >= 0
  {
    assert burst * lines >= 0;
  }

  lemma IsGood(w: WorkerParams, k: nat, lines: int, samples: int, offset: int)
    requires w.index == k + 1 && w.slaveBurst == w.masterBurst + offset && w.masterBurst >= 0
    requires w.area.y == w.masterBurst * lines && w.area.height == lines
    requires 0 <= w.area.x && 0 < w.area.width && w.area.x + w.area.width <= samples
    requires lines > 0 && w.area.width * lines <= RECOMMENDED_TILE_AREA
    requires w.area.x + w.area.width < samples ==> IsWidest(w.area.width, lines)
    ensures GoodTile(w, k, lines, samples, offset)
  {
  }

  // The two loops, turn by turn

  /** Where the loops are: the burst, and the sample at which the next tile of the burst starts. */
  datatype Position = Position(burst: int, sample: int)

  /** The next turn of the loop over the samples, or, behind the last one, of the loop over the bursts. */
  function Turn(p: Position, lines: int, samples: int): Position
    requires lines > 0
  {
    if p.sample < samples then Position(p.burst, p.sample + RECOMMENDED_TILE_AREA / lines) else Position(p.burst + 1, 0)
  }

  /** Where the loops are after some turns. */
  function After(turns: nat, lines: int, samples: int): Position
    requires lines > 0
  {
    if turns == 0 then Position(0, 0) else Turn(After(turns - 1, lines, samples), lines, samples)
  }

  /**
   What a caller can check: there is nothing to cut, or the lines of a burst are not more than the recommended area.
   */
  predicate CanCut(bursts: int, lines: int, samples: int) {
    bursts <= 0 || samples <= 0 || lines <= RECOMMENDED_TILE_AREA
  }

  method CutTiles(bursts: int, lines: int, samples: int, offset: int)
    returns (workers: seq<WorkerParams>, ghost turns: nat)
    requires lines > 0 && CanCut(bursts, lines, samples)
    ensures forall k :: 0 <= k < |workers| ==> GoodTile(workers[k], k, lines, samples, offset)
    ensures Partition(workers, bursts, lines, samples)
    ensures After(turns, lines, samples).burst >= bursts
  {
    hide InBurst, Partition, GoodTile, IsWidest;
    workers := [];
    turns := 0;
    var recommendedWidth := RECOMMENDED_TILE_AREA / lines;
    assert lines <= RECOMMENDED_TILE_AREA ==> recommendedWidth > 0;
    var index, burst := 0, 0;
    NothingCut(lines, samples);
    while burst < bursts
      invariant 0 <= burst && (burst <= bursts || burst == 0) && index == |workers| && (burst == 0 ==> workers == [])
      invariant After(turns, lines, samples) == Position(burst, 0)
      invariant forall k :: 0 <= k < |workers| ==> GoodTile(workers[k], k, lines, samples, offset)
      invariant Partition(workers, burst, lines, samples)
    {
      var firstLine := burst * lines;
      var sample := 0;
      BurstStarts(workers, burst, lines, samples);
      while sample < samples
        invariant 0 <= sample && index == |workers|
        invariant After(turns, lines, samples) == Position(burst, sample)
        invariant forall k :: 0 <= k < |workers| ==> GoodTile(workers[k], k, lines, samples, offset)
        invariant InBurst(workers, burst, lines, samples, sample)
        decreases samples - sample
      {
        var actualWidth := if sample + recommendedWidth < samples then recommendedWidth else samples - sample;
        WidthFits(lines, actualWidth);
        index := index + 1;
        var area := Rectangle(sample, firstLine, actualWidth, lines);
        var params := WorkerParams(index, area, burst, burst + offset);
        InBurstGrows(workers, burst, lines, samples, sample, params);
        IsGood(params, |workers|, lines, samples, offset);
        workers := workers + [params];
        sample := sample + recommendedWidth;
        turns := turns + 1;
      }
      BurstDone(workers, burst, lines, samples, sample);
      burst := burst + 1;
      turns := turns + 1;
    }
    if bursts < 0 {
      NoBursts(bursts, lines, samples);
    }
  }

  /** With more lines than the recommended area, the first tile of the first burst is cut for ever. */
  lemma {:induction false} StuckAtFirst(turns: nat, lines: int, samples: int)
    requires lines > RECOMMENDED_TILE_AREA && samples > 0
    ensures After(turns, lines, samples) == Position(0, 0)
  {
    assert RECOMMENDED_TILE_AREA / lines == 0;
    if turns > 0 {
      StuckAtFirst(turns - 1, lines, samples);
    }
  }

  /** The turns that one burst takes. */
  lemma {:induction false} BurstEnds(turns: nat, lines: int, samples: int, burst: int, sample: int) returns (end: nat)
    requires lines > 0 && CanCut(1, lines, samples)
    requires sample >= 0 && After(turns, lines, samples) == Position(burst, sample)
    ensures After(end, lines, samples) == Position(burst + 1, 0)
    decreases samples - sample
  {
    assert lines <= RECOMMENDED_TILE_AREA ==> RECOMMENDED_TILE_AREA / lines > 0;
    if sample < samples {
      end := BurstEnds(turns + 1, lines, samples, burst, sample + RECOMMENDED_TILE_AREA / lines);
    } else {
      end := turns + 1;
    }
  }

  lemma {:induction false} BurstsEnd(bursts: nat, lines: int, samples: int) returns (turns: nat)
    requires lines > 0 && (bursts > 0 ==> CanCut(1, lines, samples))
    ensures After(turns, lines, samples) == Position(bursts, 0)
  {
    turns := 0;
    if bursts > 0 {
      turns := BurstsEnd(bursts - 1, lines, samples);
      turns := BurstEnds(turns, lines, samples, bursts - 1, 0);
    }
  }

  /** The loops end exactly when there is nothing to cut or the lines of a burst are at most 4000000. */
  lemma CutEnds(bursts: int, lines: int, samples: int)
    requires lines > 0
    ensures (exists turns: nat :: After(turns, lines, samples).burst >= bursts) <==> CanCut(bursts, lines, samples)
  {
    if CanCut(bursts, lines, samples) {
      var turns := BurstsEnd(if bursts <= 0 then 0 else bursts, lines, samples);
      assert After(turns, lines, samples).burst >= bursts;
    } else {
      forall turns: nat
        ensures After(turns, lines, samples).burst == 0
      {
        StuckAtFirst(turns, lines, samples);
      }
    }
  }
}
