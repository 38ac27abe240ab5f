/**
  reconstruct_pixel_art: allocate a black `width x height` image, then for
  every map entry, in dict order, parse its key and colour and fill the
  block's `pixel_size x pixel_size` square, clipped to the image.

  The image is the PIL pixel-access object: `out[X, Y]`, `out.Length0`
  columns (the width) of `out.Length1` pixels (the height).
 */
module Reconstructor {
  import opened Wrappers
  import opened PixelData
  import opened PyText
  import opened PixelText
  import opened Arith

  /** Pixel `(X, Y)` lies in the square a block of size `ps` at `(col, row)` fills. */
  predicate Covers(b: Block, ps: int, X: int, Y: int) {
    b.col * ps <= X < b.col * ps + ps && b.row * ps <= Y < b.row * ps + ps
  }

  /** The image keeps only the writes that land on it. */
  predicate InImage(X: int, Y: int, width: int, height: int) {
    0 <= X < width && 0 <= Y < height
  }

  /**
    The colour pixel `(X, Y)` has after the blocks `bs` are painted in order
    over a black image: the last block covering it wins.
   */
  function Painted(bs: seq<Block>, ps: int, X: int, Y: int): Rgb {
    if |bs| == 0 then Black
    else if Covers(bs[|bs| - 1], ps, X, Y) then bs[|bs| - 1].colour
    else Painted(bs[..|bs| - 1], ps, X, Y)
  }

  lemma PaintedSnoc(bs: seq<Block>, b: Block, ps: int, X: int, Y: int)
    ensures Painted(bs + [b], ps, X, Y) == if Covers(b, ps, X, Y) then b.colour else Painted(bs, ps, X, Y)
  {
    assert (bs + [b])[..|bs|] == bs;
  }

  /** A pixel no block covers stays black. */
  lemma {:induction false} PaintedUncovered(bs: seq<Block>, ps: int, X: int, Y: int)
    requires forall i :: 0 <= i < |bs| ==> !Covers(bs[i], ps, X, Y)
    ensures Painted(bs, ps, X, Y) == Black
  {
    if |bs| > 0 {
      PaintedUncovered(bs[..|bs| - 1], ps, X, Y);
    }
  }

  /**
    With a positive block size the squares tile the plane: a pixel lies in
    the square of exactly one cell, `(X / ps, Y / ps)`.
   */
  lemma CoversCell(b: Block, ps: int, X: int, Y: int)
    requires ps > 0
    ensures Covers(b, ps, X, Y) <==> b.col == X / ps && b.row == Y / ps
  {
    if Covers(b, ps, X, Y) {
      DivUnique(X, ps, b.col);
      DivUnique(Y, ps, b.row);
    }
  }

  /** The blocks that share a cell share a colour: the map is a function of the coordinates. */
  predicate CellsAgree(bs: seq<Block>) {
    forall i, j :: 0 <= i < |bs| && 0 <= j < |bs| && bs[i].col == bs[j].col && bs[i].row == bs[j].row ==>
      bs[i].colour == bs[j].colour
  }

  /** A pixel covered by a block gets that block's colour, whatever else was painted. */
  lemma {:induction false} PaintedCovered(bs: seq<Block>, ps: int, X: int, Y: int, k: nat)
    requires ps > 0 && CellsAgree(bs) && k < |bs| && Covers(bs[k], ps, X, Y)
    ensures Painted(bs, ps, X, Y) == bs[k].colour
  {
    var n := |bs| - 1;
    CoversCell(bs[k], ps, X, Y);
    CoversCell(bs[n], ps, X, Y);
    if !Covers(bs[n], ps, X, Y) {
      var pre := bs[..n];
      assert pre[k] == bs[k];
      assert CellsAgree(pre) by {
        forall i, j | 0 <= i < |pre| && 0 <= j < |pre| && pre[i].col == pre[j].col && pre[i].row == pre[j].row
          ensures pre[i].colour == pre[j].colour
        {
          assert pre[i] == bs[i] && pre[j] == bs[j];
        }
      }
      PaintedCovered(pre, ps, X, Y, k);
    }
  }

  /**
    The reconstructed image does not depend on the order of the entries:
    any reordering of blocks that agree on their cells paints the same image.
   */
  lemma PaintedOrderFree(bs: seq<Block>, cs: seq<Block>, ps: int, X: int, Y: int)
    requires ps > 0 && CellsAgree(bs) && multiset(bs) == multiset(cs)
    ensures CellsAgree(cs)
    ensures Painted(bs, ps, X, Y) == Painted(cs, ps, X, Y)
  {
    assert CellsAgree(cs) by {
      forall i, j | 0 <= i < |cs| && 0 <= j < |cs| && cs[i].col == cs[j].col && cs[i].row == cs[j].row
        ensures cs[i].colour == cs[j].colour
      {
        InMultiset(cs, bs, i);
        InMultiset(cs, bs, j);
        var i' :| 0 <= i' < |bs| && bs[i'] == cs[i];
        var j' :| 0 <= j' < |bs| && bs[j'] == cs[j];
      }
    }
    if k :| 0 <= k < |bs| && Covers(bs[k], ps, X, Y) {
      InMultiset(bs, cs, k);
      var k' :| 0 <= k' < |cs| && cs[k'] == bs[k];
      PaintedCovered(bs, ps, X, Y, k);
      PaintedCovered(cs, ps, X, Y, k');
    } else {
      forall i | 0 <= i < |cs| ensures !Covers(cs[i], ps, X, Y) {
        InMultiset(cs, bs, i);
      }
      PaintedUncovered(bs, ps, X, Y);
      PaintedUncovered(cs, ps, X, Y);
    }
  }

  lemma InMultiset(a: seq<Block>, b: seq<Block>, i: nat)
    requires multiset(a) == multiset(b) && i < |a|
    ensures exists j :: 0 <= j < |b| && b[j] == a[i]
  {
    assert a[i] in multiset(a);
    assert a[i] in b;
  }

  /**
    The clip test as line 175 writes it: only the upper bounds. A key with
    a negative coordinate gets through it.
   */
  predicate ClipGuardAsWritten(X: int, Y: int, width: int, height: int) {
    X < width && Y < height
  }

  /**
    The key "-1,0" with a block size of 1 asks for pixel (-1, 0) of a 1 x 1
    image: the written test lets it through although it is outside the image.
   */
  lemma NegativeKeyPassesGuard()
    ensures ParseKey("-1,0") == Some((-1, 0))
    ensures ClipGuardAsWritten(-1 * 1 + 0, 0 * 1 + 0, 1, 1)
    ensures !InImage(-1 * 1 + 0, 0 * 1 + 0, 1, 1)
  {
    KeyMinusOneZero();
    ParseFormatKey(-1, 0);
  }

  lemma KeyMinusOneZero()
    ensures FormatKey(-1, 0) == "-1,0"
  {
    assert FormatNat(1) == "1" && FormatNat(0) == "0";
    assert FormatInt(-1) == "-1";
  }

  /**
    The `for py` / `for px` loops for one entry, with the clip test written
    with both bounds: every pixel of the square inside the image becomes
    `c`, and nothing else changes.
   */
  method FillBlock(out: array2<Rgb>, left: int, top: int, ps: int, c: Rgb)
    modifies out
    ensures forall X, Y :: 0 <= X < out.Length0 && 0 <= Y < out.Length1 ==>
      out[X, Y] == if left <= X < left + ps && top <= Y < top + ps then c else old(out[X, Y])
  {
    var py := 0;
    while py < ps
      invariant if ps <= 0 then py == 0 else 0 <= py <= ps
      invariant forall X, Y :: 0 <= X < out.Length0 && 0 <= Y < out.Length1 ==>
        out[X, Y] == if left <= X < left + ps && top <= Y < top + py then c else old(out[X, Y])
      decreases ps - py
    {
      FillRow(out, left, top + py, ps, c);
      py := py + 1;
    }
  }

  /** The `for px` loop: row `ay` of the square, clipped to the image. */
  method FillRow(out: array2<Rgb>, left: int, ay: int, ps: int, c: Rgb)
    modifies out
    ensures forall X, Y :: 0 <= X < out.Length0 && 0 <= Y < out.Length1 ==>
      out[X, Y] == if left <= X < left + ps && Y == ay then c else old(out[X, Y])
  {
    var px := 0;
    while px < ps
      invariant if ps <= 0 then px == 0 else 0 <= px <= ps
      invariant forall X, Y :: 0 <= X < out.Length0 && 0 <= Y < out.Length1 ==>
        out[X, Y] == if left <= X < left + px && Y == ay then c else old(out[X, Y])
      decreases ps - px
    {
      var ax := left + px;
      if InImage(ax, ay, out.Length0, out.Length1) {
        out[ax, ay] := c;
      }
      px := px + 1;
    }
  }

  /**
    One entry's square painted over the image: an image that shows the
    blocks `bs` then shows the blocks `bs + [b]`.
   */
  method PaintBlock(out: array2<Rgb>, b: Block, ps: int, ghost bs: seq<Block>)
    requires forall X, Y :: 0 <= X < out.Length0 && 0 <= Y < out.Length1 ==> out[X, Y] == Painted(bs, ps, X, Y)
    modifies out
    ensures forall X, Y :: 0 <= X < out.Length0 && 0 <= Y < out.Length1 ==> out[X, Y] == Painted(bs + [b], ps, X, Y)
  {
    FillBlock(out, b.col * ps, b.row * ps, ps, b.colour);
    forall X, Y | 0 <= X < out.Length0 && 0 <= Y < out.Length1
      ensures out[X, Y] == Painted(bs + [b], ps, X, Y)
    {
      PaintedSnoc(bs, b, ps, X, Y);
    }
  }

  /**
    reconstruct_pixel_art(pixel_data). The first entry whose key or colour
    does not parse ends the call with that error; otherwise the result is a
    fresh `width x height` image in which every pixel has the colour
    `Painted` gives it for the decoded entries.
   */
  method ReconstructPixelArt(data: PixelData) returns (res: Result<array2<Rgb>, Error>)
    ensures DecodeEntries(data.pixels).Failure? ==> res == Failure(DecodeEntries(data.pixels).error)
    ensures DecodeEntries(data.pixels).Success? ==> res.Success?
    ensures res.Success? ==>
      fresh(res.value) && res.value.Length0 == data.metadata.width && res.value.Length1 == data.metadata.height &&
      forall X, Y :: 0 <= X < res.value.Length0 && 0 <= Y < res.value.Length1 ==>
        res.value[X, Y] == Painted(DecodeEntries(data.pixels).value, data.metadata.pixelSize, X, Y)
  {
    var ps := data.metadata.pixelSize;
    var out := new Rgb[data.metadata.width, data.metadata.height]((X, Y) => Black);
    var m := data.pixels;
    ghost var rs := ParseEntries(m);
    ghost var bs: seq<Block> := [];
    var i := 0;
    while i < |m|
      invariant 0 <= i <= |m|
      invariant Collect(rs[..i]) == Success(bs)
      invariant out.Length0 == data.metadata.width && out.Length1 == data.metadata.height
      invariant forall X, Y :: 0 <= X < out.Length0 && 0 <= Y < out.Length1 ==> out[X, Y] == Painted(bs, ps, X, Y)
    {
      // The key is parsed first, then the colour: DecodeEntry keeps that order.
      var r := DecodeEntry(m[i]);
      if r.Failure? {
        CollectStop(rs, i, bs, r.error);
        return Failure(r.error);
      }
      PaintBlock(out, r.value, ps, bs);
      CollectExtend(rs, i, bs, r.value);
      bs := bs + [r.value];
      i := i + 1;
    }
    assert rs[..i] == rs;
    return Success(out);
  }
}
