/**
  What analysing an image and reconstructing it from the map gives back:
  every `pixel_size` square becomes one flat colour, the colour of its
  top-left pixel, and squares whose top-left pixel is the background
  colour come back black.
 */
module RoundTrip {
  import opened Wrappers
  import opened PixelData
  import opened PixelText
  import opened Sampler
  import opened Reconstructor
  import opened Shuffler
  import opened Arith

  /** The pixel `(X, Y)` of the reconstruction, stated on the original image. */
  ghost function Downsampled(img: array2<Rgb>, ps: nat, X: nat, Y: nat): Rgb
    reads img
    requires ps > 0 && X < img.Length1 && Y < img.Length0
  {
    var p := img[(Y / ps) * ps, (X / ps) * ps];
    if p == Background then Black else p
  }

  /** Blocks that were sampled from one image agree on the colour of each cell. */
  lemma SampledCellsAgree(img: array2<Rgb>, ps: nat)
    requires ps > 0
    ensures CellsAgree(SampleBlocks(img, ps))
  {
    var bs := SampleBlocks(img, ps);
    SampleBlocksExact(img, ps);
    forall i, j | 0 <= i < |bs| && 0 <= j < |bs| && bs[i].col == bs[j].col && bs[i].row == bs[j].row
      ensures bs[i].colour == bs[j].colour
    {
      assert Kept(img, ps, bs[i]) && Kept(img, ps, bs[j]);
    }
  }

  /** Painting the sampled blocks gives every pixel the colour of its square's top-left pixel. */
  lemma PaintSampled(img: array2<Rgb>, ps: nat, X: nat, Y: nat)
    requires ps > 0 && X < img.Length1 && Y < img.Length0
    ensures Painted(SampleBlocks(img, ps), ps, X, Y) == Downsampled(img, ps, X, Y)
  {
    var bs := SampleBlocks(img, ps);
    var col, row := X / ps, Y / ps;
    assert col * ps <= X && row * ps <= Y;
    var p := img[row * ps, col * ps];
    SampleBlocksExact(img, ps);
    if p != Background {
      var b := Block(col, row, p);
      assert Kept(img, ps, b);
      var k :| 0 <= k < |bs| && bs[k] == b;
      CoversCell(b, ps, X, Y);
      SampledCellsAgree(img, ps);
      PaintedCovered(bs, ps, X, Y, k);
    } else {
      forall i | 0 <= i < |bs| ensures !Covers(bs[i], ps, X, Y) {
        assert Kept(img, ps, bs[i]);
        CoversCell(bs[i], ps, X, Y);
      }
      PaintedUncovered(bs, ps, X, Y);
    }
  }

  /**
    The map AnalyzePixelArt writes for a positive pixel size decodes without
    error, and ReconstructPixelArt paints it into the downsampled image.
   */
  lemma ReconstructAnalysed(img: array2<Rgb>, ps: nat)
    requires ps > 0
    ensures DecodeEntries(EncodeBlocks(SampleBlocks(img, ps))) == Success(SampleBlocks(img, ps))
    ensures forall X: nat, Y: nat :: X < img.Length1 && Y < img.Length0 ==>
      Painted(SampleBlocks(img, ps), ps, X, Y) == Downsampled(img, ps, X, Y)
  {
    DecodeEncodeBlocks(SampleBlocks(img, ps));
    forall X: nat, Y: nat | X < img.Length1 && Y < img.Length0
      ensures Painted(SampleBlocks(img, ps), ps, X, Y) == Downsampled(img, ps, X, Y)
    {
      PaintSampled(img, ps, X, Y);
    }
  }

  /**
    The sampler walks `ceil(n / ps)` blocks along a side of `n` pixels, the
    shuffle grid has `floor(n / ps)`: one fewer exactly when `ps` does not
    divide `n`.
   */
  lemma GridWithinSample(n: nat, ps: nat)
    requires ps > 0
    ensures PyFloorDiv(n, ps) <= BlockCount(n, ps)
    ensures PyFloorDiv(n, ps) == BlockCount(n, ps) <==> n % ps == 0
  {
    var q, r := n / ps, n % ps;
    assert n == q * ps + r;
    MulStep(q, ps);
    if r == 0 {
      DivUnique(n + ps - 1, ps, q);
    } else {
      MulStep(q + 1, ps);
      DivUnique(n + ps - 1, ps, q + 1);
    }
  }

  /** Every entry the sampler writes is a colour the shuffle moves. */
  lemma ShuffleAnalysed(img: array2<Rgb>, ps: nat)
    requires ps > 0
    ensures ColouredValues(EncodeBlocks(SampleBlocks(img, ps))) == Values(EncodeBlocks(SampleBlocks(img, ps)))
    ensures |ColouredValues(EncodeBlocks(SampleBlocks(img, ps)))| == |SampleBlocks(img, ps)|
  {
    SampledEntries(img, ps);
    ColouredValuesAll(EncodeBlocks(SampleBlocks(img, ps)));
  }

  /**
    A 3 x 2 image in one colour, sampled with blocks of 2, gives two
    entries (columns 0 and 1), but its shuffle grid has one position, so
    the shuffled map keeps one of the two colours.
   */
  lemma EdgeColumnDropped(img: array2<Rgb>, c: Rgb, shuffled: seq<Position>)
    requires img.Length0 == 2 && img.Length1 == 3 && c != Background
    requires forall y, x :: 0 <= y < 2 && 0 <= x < 3 ==> img[y, x] == c
    requires multiset(shuffled) == multiset(Grid(Metadata(3, 2, 2)))
    ensures |SampleBlocks(img, 2)| == 2
    ensures |Grid(Metadata(3, 2, 2))| == 1
    ensures |Placements(ColouredValues(EncodeBlocks(SampleBlocks(img, 2))), shuffled)| == 1
  {
    var bs := SampleBlocks(img, 2);
    SampleBlocksExact(img, 2);
    SampleBlocksInGrid(img, 2);
    assert BlockCount(2, 2) == 1 && BlockCount(3, 2) == 2;
    assert Kept(img, 2, Block(0, 0, c)) && Kept(img, 2, Block(1, 0, c));
    var i :| 0 <= i < |bs| && bs[i] == Block(0, 0, c);
    var j :| 0 <= j < |bs| && bs[j] == Block(1, 0, c);
    assert i != j;
    assert PyFloorDiv(3, 2) == 1 && PyFloorDiv(2, 2) == 1;
    assert |Grid(Metadata(3, 2, 2))| == 1;
    assert |shuffled| == 1 by {
      assert |multiset(shuffled)| == |multiset(Grid(Metadata(3, 2, 2)))|;
    }
    ShuffleAnalysed(img, 2);
  }
}
