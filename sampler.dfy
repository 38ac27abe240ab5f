/**
  analyze_pixel_art: step over the image in `pixel_size` strides, read the
  top-left pixel of each block, and keep every colour other than (41, 41, 41)
  under its `"col,row"` key.

  The image is the numpy array of the RGB-converted picture: `img[y, x]`,
  `img.Length0` rows (the height) of `img.Length1` pixels (the width).
 */
module Sampler {
  import opened Wrappers
  import opened PixelData
  import opened PixelText
  import opened Arith

  /** How many values `range(0, n, ps)` takes: ceil(n / ps). */
  function BlockCount(n: nat, ps: nat): nat
    requires ps > 0
  {
    (n + ps - 1) / ps
  }

  /** Block `c` starts inside a line of `n` pixels exactly when `c < ceil(n / ps)`. */
  lemma BlockCountBound(c: nat, n: nat, ps: nat)
    requires ps > 0
    ensures c * ps < n <==> c < BlockCount(n, ps)
  {
    var q, r := (n + ps - 1) / ps, (n + ps - 1) % ps;
    assert n + ps - 1 == q * ps + r && 0 <= r < ps;
    if c < q {
      MulLe(c + 1, q, ps);
    } else {
      MulLe(q, c, ps);
    }
  }

  /**
    `b` is a block the sampler keeps: it starts inside the image, its colour is
    the image's pixel at the block's top-left corner, and that pixel is not the
    background.
   */
  ghost predicate Kept(img: array2<Rgb>, ps: nat, b: Block)
    reads img
    requires ps > 0
  {
    0 <= b.col && b.col * ps < img.Length1 && 0 <= b.row && b.row * ps < img.Length0 &&
    b.colour == img[b.row * ps, b.col * ps] && b.colour != Background
  }

  /**
    The inner loop: the blocks kept on pixel row `y` (block-row `row`), from
    pixel column `x` (block-column `col`) on.
   */
  function SampleRow(img: array2<Rgb>, ps: nat, y: nat, row: nat, x: nat, col: nat): (r: seq<Block>)
    reads img
    requires ps > 0 && y < img.Length0
    decreases img.Length1 - x
  {
    if x >= img.Length1 then []
    else
      var c := img[y, x];
      (if c == Background then [] else [Block(col, row, c)]) + SampleRow(img, ps, y, row, x + ps, col + 1)
  }

  /** The outer loop: the blocks kept on pixel rows `y`, `y + ps`, ... (block-rows `row`, `row + 1`, ...). */
  function SampleRows(img: array2<Rgb>, ps: nat, y: nat, row: nat): (r: seq<Block>)
    reads img
    requires ps > 0
    decreases img.Length0 - y
  {
    if y >= img.Length0 then [] else SampleRow(img, ps, y, row, 0, 0) + SampleRows(img, ps, y + ps, row + 1)
  }

  /** The blocks analyze_pixel_art keeps, in the order it visits them. */
  function SampleBlocks(img: array2<Rgb>, ps: nat): (r: seq<Block>)
    reads img
    requires ps > 0
  {
    SampleRows(img, ps, 0, 0)
  }

  lemma SampleRowStep(img: array2<Rgb>, ps: nat, y: nat, row: nat, x: nat, col: nat)
    requires ps > 0 && y < img.Length0 && x < img.Length1
    ensures SampleRow(img, ps, y, row, x, col) ==
      (if img[y, x] == Background then [] else [Block(col, row, img[y, x])]) + SampleRow(img, ps, y, row, x + ps, col + 1)
  {
  }

  lemma SampleRowsStep(img: array2<Rgb>, ps: nat, y: nat, row: nat)
    requires ps > 0 && y < img.Length0
    ensures SampleRows(img, ps, y, row) == SampleRow(img, ps, y, row, 0, 0) + SampleRows(img, ps, y + ps, row + 1)
  {
  }

  /** Row-major order on grid cells: `a` is in an earlier row, or earlier in the same row. */
  predicate Before(a: Block, b: Block) {
    a.row < b.row || (a.row == b.row && a.col < b.col)
  }

  /** The blocks come in strictly increasing row-major order. */
  predicate Ascending(bs: seq<Block>) {
    forall i, j :: 0 <= i < j < |bs| ==> Before(bs[i], bs[j])
  }

  /** Two ascending runs, the first wholly before the second, make one. */
  lemma AscendingConcat(a: seq<Block>, b: seq<Block>)
    requires Ascending(a) && Ascending(b)
    requires forall i, j :: 0 <= i < |a| && 0 <= j < |b| ==> Before(a[i], b[j])
    ensures Ascending(a + b)
  {
    var ab := a + b;
    forall i, j | 0 <= i < j < |ab| ensures Before(ab[i], ab[j]) {
      if j < |a| {
        assert ab[i] == a[i] && ab[j] == a[j];
      } else if i >= |a| {
        assert ab[i] == b[i - |a|] && ab[j] == b[j - |a|];
      } else {
        assert ab[i] == a[i] && ab[j] == b[j - |a|];
      }
    }
  }

  /** The blocks of a row lie on its block-row, at block-column `col` or right of it. */
  lemma {:induction false} SampleRowPlace(img: array2<Rgb>, ps: nat, y: nat, row: nat, x: nat, col: nat)
    requires ps > 0 && y < img.Length0
    ensures forall k :: 0 <= k < |SampleRow(img, ps, y, row, x, col)| ==>
      SampleRow(img, ps, y, row, x, col)[k].row == row && col <= SampleRow(img, ps, y, row, x, col)[k].col
    decreases img.Length1 - x
  {
    if x < img.Length1 {
      var rest := SampleRow(img, ps, y, row, x + ps, col + 1);
      var here: seq<Block> := if img[y, x] == Background then [] else [Block(col, row, img[y, x])];
      SampleRowPlace(img, ps, y, row, x + ps, col + 1);
      SampleRowStep(img, ps, y, row, x, col);
      forall k | 0 <= k < |here + rest| ensures (here + rest)[k].row == row && col <= (here + rest)[k].col {
        if k >= |here| {
          assert (here + rest)[k] == rest[k - |here|];
        }
      }
    }
  }

  /** The blocks of a row come left to right. */
  lemma {:induction false} SampleRowOrdered(img: array2<Rgb>, ps: nat, y: nat, row: nat, x: nat, col: nat)
    requires ps > 0 && y < img.Length0
    ensures Ascending(SampleRow(img, ps, y, row, x, col))
    decreases img.Length1 - x
  {
    if x < img.Length1 {
      var rest := SampleRow(img, ps, y, row, x + ps, col + 1);
      var here: seq<Block> := if img[y, x] == Background then [] else [Block(col, row, img[y, x])];
      SampleRowOrdered(img, ps, y, row, x + ps, col + 1);
      SampleRowPlace(img, ps, y, row, x + ps, col + 1);
      SampleRowStep(img, ps, y, row, x, col);
      AscendingConcat(here, rest);
    }
  }

  /** The blocks of the rows from block-row `row` on lie on it or below it. */
  lemma {:induction false} SampleRowsPlace(img: array2<Rgb>, ps: nat, y: nat, row: nat)
    requires ps > 0
    ensures forall k :: 0 <= k < |SampleRows(img, ps, y, row)| ==> row <= SampleRows(img, ps, y, row)[k].row
    decreases img.Length0 - y
  {
    if y < img.Length0 {
      var here: seq<Block>, below: seq<Block> := SampleRow(img, ps, y, row, 0, 0), SampleRows(img, ps, y + ps, row + 1);
      SampleRowPlace(img, ps, y, row, 0, 0);
      SampleRowsPlace(img, ps, y + ps, row + 1);
      SampleRowsStep(img, ps, y, row);
      forall k: nat | k < |here + below| ensures row <= (here + below)[k].row {
        if k >= |here| {
          assert (here + below)[k] == below[k - |here|];
        }
      }
    }
  }

  /** Blocks come row by row, and left to right within a row. */
  lemma {:induction false} SampleRowsOrdered(img: array2<Rgb>, ps: nat, y: nat, row: nat)
    requires ps > 0
    ensures Ascending(SampleRows(img, ps, y, row))
    decreases img.Length0 - y
  {
    if y < img.Length0 {
      var here: seq<Block>, below: seq<Block> := SampleRow(img, ps, y, row, 0, 0), SampleRows(img, ps, y + ps, row + 1);
      SampleRowPlace(img, ps, y, row, 0, 0);
      SampleRowOrdered(img, ps, y, row, 0, 0);
      SampleRowsPlace(img, ps, y + ps, row + 1);
      SampleRowsOrdered(img, ps, y + ps, row + 1);
      SampleRowsStep(img, ps, y, row);
      AscendingConcat(here, below);
    }
  }

  /** Every block of a row is kept, when the counters match the pixel coordinates. */
  lemma {:induction false} SampleRowSound(img: array2<Rgb>, ps: nat, y: nat, row: nat, x: nat, col: nat)
    requires ps > 0 && y < img.Length0 && y == row * ps && x == col * ps
    ensures forall b :: b in SampleRow(img, ps, y, row, x, col) ==> Kept(img, ps, b)
    decreases img.Length1 - x
  {
    if x < img.Length1 {
      MulStep(col, ps);
      SampleRowSound(img, ps, y, row, x + ps, col + 1);
      SampleRowStep(img, ps, y, row, x, col);
    }
  }

  /** Every block of the rows from `y` on is kept, when `row` counts the strides. */
  lemma {:induction false} SampleRowsSound(img: array2<Rgb>, ps: nat, y: nat, row: nat)
    requires ps > 0 && y == row * ps
    ensures forall b :: b in SampleRows(img, ps, y, row) ==> Kept(img, ps, b)
    decreases img.Length0 - y
  {
    if y < img.Length0 {
      MulStep(row, ps);
      SampleRowSound(img, ps, y, row, 0, 0);
      SampleRowsSound(img, ps, y + ps, row + 1);
      SampleRowsStep(img, ps, y, row);
    }
  }

  /** A non-background block start at or right of `x` on this row is sampled. */
  lemma {:induction false} SampleRowComplete(img: array2<Rgb>, ps: nat, y: nat, row: nat, x: nat, col: nat, c: nat)
    requires ps > 0 && y < img.Length0 && x == col * ps && col <= c
    requires c * ps < img.Length1 && img[y, c * ps] != Background
    ensures Block(c, row, img[y, c * ps]) in SampleRow(img, ps, y, row, x, col)
    decreases c - col
  {
    MulLe(col, c, ps);
    SampleRowStep(img, ps, y, row, x, col);
    if col < c {
      MulStep(col, ps);
      SampleRowComplete(img, ps, y, row, x + ps, col + 1, c);
    }
  }

  /** A non-background block start at or below block-row `row` is sampled. */
  lemma {:induction false} SampleRowsComplete(img: array2<Rgb>, ps: nat, y: nat, row: nat, r: nat, c: nat)
    requires ps > 0 && y == row * ps && row <= r
    requires r * ps < img.Length0 && c * ps < img.Length1 && img[r * ps, c * ps] != Background
    ensures Block(c, r, img[r * ps, c * ps]) in SampleRows(img, ps, y, row)
    decreases r - row
  {
    MulLe(row, r, ps);
    SampleRowsStep(img, ps, y, row);
    if row < r {
      MulStep(row, ps);
      SampleRowsComplete(img, ps, y + ps, row + 1, r, c);
    } else {
      SampleRowComplete(img, ps, y, row, 0, 0, c);
    }
  }

  /**
    What analyze_pixel_art keeps: for every block `(c, r)` that starts inside
    the image, the top-left pixel `img[r * ps, c * ps]` when it is not the
    background, and nothing else.
   */
  lemma SampleBlocksExact(img: array2<Rgb>, ps: nat)
    requires ps > 0
    ensures forall b: Block :: b in SampleBlocks(img, ps) <==> Kept(img, ps, b)
  {
    SampleRowsSound(img, ps, 0, 0);
    forall b: Block | Kept(img, ps, b) ensures b in SampleBlocks(img, ps) {
      SampleRowsComplete(img, ps, 0, 0, b.row, b.col);
    }
  }

  /** One stride of `ps` uses up one of the ceil(n / ps) block positions. */
  lemma BlockCountStep(n: nat, ps: nat)
    requires ps > 0 && n > 0
    ensures BlockCount(n, ps) == 1 + (if n > ps then BlockCount(n - ps, ps) else 0)
  {
    if n > ps {
      DivStep(n - ps + ps - 1, ps);
    } else {
      DivUnique(n + ps - 1, ps, 1);
    }
  }

  /** A row has at most one block per position left in it. */
  lemma {:induction false} SampleRowSize(img: array2<Rgb>, ps: nat, y: nat, row: nat, x: nat, col: nat)
    requires ps > 0 && y < img.Length0 && x <= img.Length1
    ensures |SampleRow(img, ps, y, row, x, col)| <= BlockCount(img.Length1 - x, ps)
    decreases img.Length1 - x
  {
    if x < img.Length1 {
      BlockCountStep(img.Length1 - x, ps);
      SampleRowStep(img, ps, y, row, x, col);
      if x + ps <= img.Length1 {
        SampleRowSize(img, ps, y, row, x + ps, col + 1);
      }
    }
  }

  /** The rows from `y` on hold at most one block per grid cell left. */
  lemma {:induction false} SampleRowsSize(img: array2<Rgb>, ps: nat, y: nat, row: nat)
    requires ps > 0 && y <= img.Length0
    ensures |SampleRows(img, ps, y, row)| <= BlockCount(img.Length0 - y, ps) * BlockCount(img.Length1, ps)
    decreases img.Length0 - y
  {
    if y < img.Length0 {
      var cols := BlockCount(img.Length1, ps);
      SampleRowSize(img, ps, y, row, 0, 0);
      BlockCountStep(img.Length0 - y, ps);
      SampleRowsStep(img, ps, y, row);
      if y + ps <= img.Length0 {
        SampleRowsSize(img, ps, y + ps, row + 1);
        MulStep(BlockCount(img.Length0 - (y + ps), ps), cols);
      }
    }
  }

  /** Blocks come row by row and left to right, so no grid cell is kept twice. */
  lemma SampleBlocksOrdered(img: array2<Rgb>, ps: nat)
    requires ps > 0
    ensures Ascending(SampleBlocks(img, ps))
  {
    SampleRowsOrdered(img, ps, 0, 0);
  }

  /**
    Every block lies in the ceil(width / ps) x ceil(height / ps) grid, and there
    are at most that many of them.
   */
  lemma SampleBlocksInGrid(img: array2<Rgb>, ps: nat)
    requires ps > 0
    ensures forall b :: b in SampleBlocks(img, ps) ==>
      0 <= b.col < BlockCount(img.Length1, ps) && 0 <= b.row < BlockCount(img.Length0, ps)
    ensures |SampleBlocks(img, ps)| <= BlockCount(img.Length0, ps) * BlockCount(img.Length1, ps)
  {
    assert |SampleBlocks(img, ps)| <= BlockCount(img.Length0, ps) * BlockCount(img.Length1, ps) by {
      SampleRowsSize(img, ps, 0, 0);
      assert img.Length0 - 0 == img.Length0;
    }
    forall b | b in SampleBlocks(img, ps)
      ensures 0 <= b.col < BlockCount(img.Length1, ps) && 0 <= b.row < BlockCount(img.Length0, ps)
    {
      SampleRowsSound(img, ps, 0, 0);
      assert Kept(img, ps, b);
      BlockCountBound(b.col, img.Length1, ps);
      BlockCountBound(b.row, img.Length0, ps);
    }
  }

  /** A block below, or right of, every block seen so far gets a key none of them has. */
  lemma FreshKey(seen: seq<Block>, col: nat, row: nat)
    requires forall i :: 0 <= i < |seen| ==> seen[i].row < row || (seen[i].row == row && seen[i].col < col)
    ensures forall i :: 0 <= i < |seen| ==> EncodeBlocks(seen)[i].key != FormatKey(col, row)
  {
    forall i | 0 <= i < |seen| ensures EncodeBlocks(seen)[i].key != FormatKey(col, row) {
      if EncodeBlocks(seen)[i].key == FormatKey(col, row) {
        FormatKeyInjective(seen[i].col, seen[i].row, col, row);
      }
    }
  }

  /**
    The map as stored: never the same key twice, and never the value
    "rgb(41, 41, 41)".
   */
  lemma SampledEntries(img: array2<Rgb>, ps: nat)
    requires ps > 0
    ensures DistinctKeys(EncodeBlocks(SampleBlocks(img, ps)))
    ensures forall e :: e in EncodeBlocks(SampleBlocks(img, ps)) ==> e.value != BackgroundText
  {
    var bs := SampleBlocks(img, ps);
    var m := EncodeBlocks(bs);
    SampleBlocksOrdered(img, ps);
    SampleRowsSound(img, ps, 0, 0);
    forall i, j | 0 <= i < j < |m| ensures m[i].key != m[j].key {
      if m[i].key == m[j].key {
        FormatKeyInjective(bs[i].col, bs[i].row, bs[j].col, bs[j].row);
      }
    }
    forall e | e in m ensures e.value != BackgroundText {
      var i :| 0 <= i < |m| && m[i] == e;
      assert bs[i] in bs;
      BackgroundTextIff(bs[i].colour);
    }
  }

  /** Storing one more kept block of the current row keeps the map equal to the encoded blocks. */
  lemma StoreBlock(pixels: seq<Entry>, done: seq<Block>, line: seq<Block>, b: Block, col: nat, row: nat)
    requires pixels == EncodeBlocks(done + line)
    requires forall i :: 0 <= i < |done| ==> done[i].row < row
    requires forall i :: 0 <= i < |line| ==> line[i].row == row && line[i].col < col
    requires b.col == col && b.row == row
    ensures Put(pixels, FormatKey(col, row), FormatColor(b.colour)) == EncodeBlocks(done + (line + [b]))
  {
    var seen := done + line;
    assert forall i :: 0 <= i < |seen| ==> seen[i].row < row || (seen[i].row == row && seen[i].col < col) by {
      forall i | 0 <= i < |seen| ensures seen[i].row < row || (seen[i].row == row && seen[i].col < col) {
        if i >= |done| {
          assert seen[i] == line[i - |done|];
        }
      }
    }
    FreshKey(seen, col, row);
    PutNewKey(pixels, FormatKey(col, row), FormatColor(b.colour));
    EncodeAppend(seen, b);
    Assoc(done, line, [b]);
  }

  /** One kept block of the inner loop: storing it keeps every invariant of the loop. */
  lemma StoreStep(img: array2<Rgb>, ps: nat, y: nat, row: nat, x: nat, col: nat,
                  pixels: seq<Entry>, done: seq<Block>, line: seq<Block>)
    requires ps > 0 && y < img.Length0 && x < img.Length1 && img[y, x] != Background
    requires pixels == EncodeBlocks(done + line)
    requires forall i :: 0 <= i < |done| ==> done[i].row < row
    requires forall i :: 0 <= i < |line| ==> line[i].row == row && line[i].col < col
    requires line + SampleRow(img, ps, y, row, x, col) == SampleRow(img, ps, y, row, 0, 0)
    ensures Put(pixels, FormatKey(col, row), FormatColor(img[y, x])) == EncodeBlocks(done + (line + [Block(col, row, img[y, x])]))
    ensures line + [Block(col, row, img[y, x])] + SampleRow(img, ps, y, row, x + ps, col + 1) == SampleRow(img, ps, y, row, 0, 0)
    ensures forall i :: 0 <= i < |line| + 1 ==>
      (line + [Block(col, row, img[y, x])])[i].row == row && (line + [Block(col, row, img[y, x])])[i].col < col + 1
  {
    var b := Block(col, row, img[y, x]);
    StoreBlock(pixels, done, line, b, col, row);
    SampleRowStep(img, ps, y, row, x, col);
    Assoc(line, [b], SampleRow(img, ps, y, row, x + ps, col + 1));
  }

  lemma Assoc(a: seq<Block>, b: seq<Block>, c: seq<Block>)
    ensures a + b + c == a + (b + c)
  {
  }

  /**
    analyze_pixel_art(image, pixel_size). A zero step makes `range` raise; a
    negative step gives empty ranges and so an empty map.
   */
  method AnalyzePixelArt(img: array2<Rgb>, ps: int) returns (res: Result<PixelData, Error>)
    ensures ps == 0 ==> res == Failure(RangeStepZero)
    ensures ps < 0 ==> res == Success(PixelData(Metadata(img.Length1, img.Length0, ps), []))
    ensures ps > 0 ==> res == Success(PixelData(Metadata(img.Length1, img.Length0, ps), EncodeBlocks(SampleBlocks(img, ps))))
  {
    var height, width := img.Length0, img.Length1;
    if ps == 0 {
      return Failure(RangeStepZero);
    }
    var pixels: seq<Entry> := [];
    if ps > 0 {
      var y := 0;
      ghost var row := 0;
      ghost var done: seq<Block> := [];
      while y < height
        invariant row == y / ps
        invariant pixels == EncodeBlocks(done)
        invariant done + SampleRows(img, ps, y, row) == SampleBlocks(img, ps)
        invariant forall i :: 0 <= i < |done| ==> done[i].row < row
        decreases height - y
      {
        ghost var line;
        pixels, line := SampleLine(img, ps, y, pixels, row, done);
        assert forall i :: 0 <= i < |done + line| ==> (done + line)[i].row < row + 1 by {
          SampleRowPlace(img, ps, y, row, 0, 0);
          forall i | 0 <= i < |done + line| ensures (done + line)[i].row < row + 1 {
            if i >= |done| {
              assert (done + line)[i] == line[i - |done|] && line[i - |done|] in line;
            }
          }
        }
        assert (y + ps) / ps == row + 1 by {
          DivStep(y, ps);
        }
        assert done + line + SampleRows(img, ps, y + ps, row + 1) == SampleBlocks(img, ps) by {
          SampleRowsStep(img, ps, y, row);
          Assoc(done, line, SampleRows(img, ps, y + ps, row + 1));
        }
        done := done + line;
        y, row := y + ps, row + 1;
      }
      assert done + SampleRows(img, ps, y, row) == done;
    }
    res := Success(PixelData(Metadata(width, height, ps), pixels));
  }

  /**
    The `for x` loop of analyze_pixel_art on pixel row `y`: stores the row's
    kept blocks after the `done` ones already in `pixels`.
   */
  method SampleLine(img: array2<Rgb>, ps: nat, y: nat, pixels: seq<Entry>, ghost row: nat, ghost done: seq<Block>)
    returns (pixels': seq<Entry>, ghost line: seq<Block>)
    requires ps > 0 && y < img.Length0 && row == y / ps
    requires pixels == EncodeBlocks(done)
    requires forall i :: 0 <= i < |done| ==> done[i].row < row
    ensures line == SampleRow(img, ps, y, row, 0, 0)
    ensures pixels' == EncodeBlocks(done + line)
  {
    pixels', line := pixels, [];
    var x := 0;
    ghost var col := 0;
    while x < img.Length1
      invariant col == x / ps
      invariant pixels' == EncodeBlocks(done + line)
      invariant line + SampleRow(img, ps, y, row, x, col) == SampleRow(img, ps, y, row, 0, 0)
      invariant forall i :: 0 <= i < |line| ==> line[i].row == row && line[i].col < col
      decreases img.Length1 - x
    {
      pixels', line := SamplePixel(img, ps, y, x, pixels', row, col, done, line);
      assert (x + ps) / ps == col + 1 by {
        DivStep(x, ps);
      }
      x, col := x + ps, col + 1;
    }
    assert line + SampleRow(img, ps, y, row, x, col) == line;
  }

  /**
    One pass of the `for x` loop body: reads the block's top-left pixel and,
    unless it is the background, stores it under `"x // ps,y // ps"`.
   */
  method SamplePixel(img: array2<Rgb>, ps: nat, y: nat, x: nat, pixels: seq<Entry>,
                     ghost row: nat, ghost col: nat, ghost done: seq<Block>, ghost line: seq<Block>)
    returns (pixels': seq<Entry>, ghost line': seq<Block>)
    requires ps > 0 && y < img.Length0 && x < img.Length1 && row == y / ps && col == x / ps
    requires pixels == EncodeBlocks(done + line)
    requires forall i :: 0 <= i < |done| ==> done[i].row < row
    requires forall i :: 0 <= i < |line| ==> line[i].row == row && line[i].col < col
    requires line + SampleRow(img, ps, y, row, x, col) == SampleRow(img, ps, y, row, 0, 0)
    ensures pixels' == EncodeBlocks(done + line')
    ensures line' + SampleRow(img, ps, y, row, x + ps, col + 1) == SampleRow(img, ps, y, row, 0, 0)
    ensures forall i :: 0 <= i < |line'| ==> line'[i].row == row && line'[i].col < col + 1
  {
    var color := img[y, x];
    if color != Background {
      var key := FormatKey(x / ps, y / ps);
      StoreStep(img, ps, y, row, x, col, pixels, done, line);
      pixels' := Put(pixels, key, FormatColor(color));
      line' := line + [Block(col, row, color)];
    } else {
      SampleRowStep(img, ps, y, row, x, col);
      assert [] + SampleRow(img, ps, y, row, x + ps, col + 1) == SampleRow(img, ps, y, row, x + ps, col + 1);
      pixels', line' := pixels, line;
    }
  }
}
