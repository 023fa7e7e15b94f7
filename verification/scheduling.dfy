/** The render schedule of TestProject/Program.cs: the samples per pixel are split into
    batches, the image into square tiles, and the shader is dispatched once per batch and
    tile. The model keeps the arithmetic in naturals; with the program's constants every
    quantity fits its unsigned 32-bit variable (ProgramConstants). */
module Scheduling {

  const Width: nat := 1280
  const Height: nat := 720
  const TotalSamplesPerPixel: nat := 2048
  const BatchSize: nat := 128
  const TileSize: nat := 256
  const MaxBounces: nat := 128

  /** `totalBatches = total / batch`, plus one when there is a remainder: the least number of
      batches of `batch` samples that hold `total` samples. */
  function TotalBatches(total: nat, batch: nat): (r: nat)
    requires batch > 0
    ensures r * batch >= total
    ensures r > 0 ==> (r - 1) * batch < total
  {
    var q := total / batch;
    assert total == q * batch + total % batch;
    if total % batch != 0 then q + 1 else q
  }

  /** `samplesInThisBatch`: the remainder for the last batch when there is one, otherwise
      the full batch size. */
  function SamplesInBatch(b: nat, total: nat, batch: nat): (r: nat)
    requires batch > 0
    ensures 0 < r <= batch
  {
    if b == TotalBatches(total, batch) - 1 && total % batch != 0 then total % batch else batch
  }

  /** The samples given to every pixel by batches 0 .. k - 1. */
  function SamplesBefore(k: nat, total: nat, batch: nat): nat
    requires batch > 0
  {
    if k == 0 then 0 else SamplesBefore(k - 1, total, batch) + SamplesInBatch(k - 1, total, batch)
  }

  /** Every batch before the last is full. */
  lemma {:induction false} FullBatchesBefore(k: nat, total: nat, batch: nat)
    requires batch > 0 && k < TotalBatches(total, batch)
    ensures SamplesBefore(k, total, batch) == k * batch
  {
    if k > 0 {
      FullBatchesBefore(k - 1, total, batch);
    }
  }

  /** The batches together give every pixel exactly `total` samples. */
  lemma {:induction false} BatchesSumToTotal(total: nat, batch: nat)
    requires batch > 0
    ensures SamplesBefore(TotalBatches(total, batch), total, batch) == total
  {
    var n := TotalBatches(total, batch);
    if n > 0 {
      FullBatchesBefore(n - 1, total, batch);
      var q := total / batch;
      assert total == q * batch + total % batch;
      if total % batch == 0 {
        assert n == q;
        assert (n - 1) * batch + batch == n * batch;
      } else {
        assert n - 1 == q;
      }
    } else {
      assert total == 0 by { assert n * batch >= total; }
    }
  }

  /** `(extent + tileSize - 1) / tileSize`: the least number of tiles that cover `extent`
      pixels. */
  function NumTiles(extent: nat, tileSize: nat): (r: nat)
    requires tileSize > 0
    ensures r * tileSize >= extent
    ensures r > 0 ==> (r - 1) * tileSize < extent
  {
    var r := (extent + tileSize - 1) / tileSize;
    assert extent + tileSize - 1 == r * tileSize + (extent + tileSize - 1) % tileSize;
    r
  }

  /** `(int)Math.Min(tileSize, extent - offset)` for tile t, whose offset is `t * tileSize`. */
  function TileExtent(t: nat, extent: nat, tileSize: nat): int
    requires tileSize > 0
  {
    var rest := extent - t * tileSize;
    if tileSize <= rest then tileSize else rest
  }

  /** Every tile of the row (or column) has between 1 and tileSize pixels. */
  lemma TileExtentInRange(t: nat, extent: nat, tileSize: nat)
    requires tileSize > 0 && t < NumTiles(extent, tileSize)
    ensures 1 <= TileExtent(t, extent, tileSize) <= tileSize
  {
    var n := NumTiles(extent, tileSize);
    assert t * tileSize <= (n - 1) * tileSize;
  }

  /** Tile t covers pixels [t * tileSize, t * tileSize + TileExtent). */
  predicate InTile(p: nat, t: nat, extent: nat, tileSize: nat)
    requires tileSize > 0
  {
    t * tileSize <= p < t * tileSize + TileExtent(t, extent, tileSize)
  }

  /** The tiles cover the extent: pixel p lies in tile p / tileSize, which exists. */
  lemma TilesCover(p: nat, extent: nat, tileSize: nat)
    requires tileSize > 0 && p < extent
    ensures p / tileSize < NumTiles(extent, tileSize)
    ensures InTile(p, p / tileSize, extent, tileSize)
  {
    var t := p / tileSize;
    var n := NumTiles(extent, tileSize);
    assert p == t * tileSize + p % tileSize;
  }

  /** ... and disjointly: a pixel lies in no other tile. */
  lemma TilesDisjoint(p: nat, t: nat, extent: nat, tileSize: nat)
    requires tileSize > 0 && InTile(p, t, extent, tileSize)
    ensures t == p / tileSize
  {
    assert TileExtent(t, extent, tileSize) <= tileSize;
    assert t * tileSize + tileSize == (t + 1) * tileSize;
    DivUnique(p, tileSize, t);
  }

  /** The quotient is the only t with t * d <= p < (t + 1) * d. */
  lemma DivUnique(p: nat, d: nat, t: nat)
    requires d > 0 && t * d <= p < (t + 1) * d
    ensures p / d == t
  {
    var u := p / d;
    assert p == u * d + p % d && 0 <= p % d < d;
    assert (u + 1) * d == u * d + d;
    if t < u {
      MulMonotone(t + 1, u, d);
      assert false;
    } else if t > u {
      MulMonotone(u + 1, t, d);
      assert false;
    }
  }

  lemma MulMonotone(a: nat, b: nat, c: nat)
    requires a <= b
    ensures a * c <= b * c
  {
  }

  /** The two tile loops of one batch: one dispatch per tile, row by row, counted. */
  method DispatchTiles(numTilesX: nat, numTilesY: nat) returns (count: nat)
    ensures count == numTilesX * numTilesY
  {
    count := 0;
    var tileY := 0;
    while tileY < numTilesY
      invariant tileY <= numTilesY
      invariant count == tileY * numTilesX
    {
      var tileX := 0;
      while tileX < numTilesX
        invariant tileX <= numTilesX
        invariant count == tileY * numTilesX + tileX
      {
        count := count + 1;
        tileX := tileX + 1;
      }
      assert (tileY + 1) * numTilesX == tileY * numTilesX + numTilesX;
      tileY := tileY + 1;
    }
  }

  /** The dispatch loop of the program: one dispatch per batch and tile. It counts the
      dispatches (completedWorkItems) and the samples each batch adds to every pixel; at the
      end every work item is done and every pixel has received exactly `total` samples (its
      tile being unique in each batch by TilesCover and TilesDisjoint). */
  method Render(width: nat, height: nat, total: nat, batch: nat, tileSize: nat)
    returns (completedWorkItems: nat, samplesPerPixel: nat)
    requires batch > 0 && tileSize > 0
    ensures completedWorkItems == TotalBatches(total, batch) * (NumTiles(width, tileSize) * NumTiles(height, tileSize))
    ensures samplesPerPixel == total
  {
    var totalBatches := TotalBatches(total, batch);
    var numTilesX := NumTiles(width, tileSize);
    var numTilesY := NumTiles(height, tileSize);
    var perBatch := numTilesX * numTilesY;
    completedWorkItems := 0;
    samplesPerPixel := 0;
    var currentBatch := 0;
    while currentBatch < totalBatches
      invariant currentBatch <= totalBatches
      invariant completedWorkItems == currentBatch * perBatch
      invariant samplesPerPixel == SamplesBefore(currentBatch, total, batch)
    {
      var samplesInThisBatch := SamplesInBatch(currentBatch, total, batch);
      var dispatched := DispatchTiles(numTilesX, numTilesY);
      assert (currentBatch + 1) * perBatch == currentBatch * perBatch + perBatch;
      completedWorkItems := completedWorkItems + dispatched;
      samplesPerPixel := samplesPerPixel + samplesInThisBatch;
      currentBatch := currentBatch + 1;
    }
    BatchesSumToTotal(total, batch);
  }

  /** With the program's constants: 16 batches of 128 samples, 5 by 3 tiles, and 240 work
      items, all far below 2^32, so the unsigned arithmetic never wraps; the last column of
      tiles is 1280 - 4 * 256 = 256 wide and the last row 720 - 2 * 256 = 208 high. */
  lemma ProgramConstants()
    ensures TotalBatches(TotalSamplesPerPixel, BatchSize) == 16
    ensures NumTiles(Width, TileSize) == 5 && NumTiles(Height, TileSize) == 3
    ensures TotalBatches(TotalSamplesPerPixel, BatchSize) * (NumTiles(Width, TileSize) * NumTiles(Height, TileSize)) == 240
    ensures TileExtent(4, Width, TileSize) == 256 && TileExtent(2, Height, TileSize) == 208
    ensures forall b: nat :: SamplesInBatch(b, TotalSamplesPerPixel, BatchSize) == BatchSize
  {
  }
}
