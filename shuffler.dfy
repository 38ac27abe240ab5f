/**
  shuffle_pixels: gather the colours that are not the background, in dict
  order; list every position of the `width // pixel_size` by
  `height // pixel_size` grid row by row; shuffle that list; give the i-th
  colour the i-th shuffled position. Colours beyond the number of positions
  are dropped.

  `random.shuffle` is not modelled: the caller passes the shuffled list,
  which must hold the same positions as the one the routine builds.
 */
module Shuffler {
  import opened Wrappers
  import opened PixelData
  import opened PixelText
  import opened Arith

  type Position = (int, int)

  /** The first `n` positions of a grid `gw` wide, row by row. */
  function GridPrefix(gw: int, n: nat): (ps: seq<Position>)
    requires gw > 0
    ensures |ps| == n && forall i :: 0 <= i < n ==> ps[i] == (i % gw, i / gw)
  {
    seq(n, i requires 0 <= i < n => (i % gw, i / gw))
  }

  /** `available_positions` before the shuffle: `(x, y)` for every `y < gh` and `x < gw`. */
  function GridPositions(gw: int, gh: int): seq<Position> {
    if gw <= 0 || gh <= 0 then [] else GridPrefix(gw, gw * gh)
  }

  /** The grid `shuffle_pixels` works on, from the metadata; `// 0` is an error. */
  function Grid(md: Metadata): seq<Position>
    requires md.pixelSize != 0
  {
    GridPositions(PyFloorDiv(md.width, md.pixelSize), PyFloorDiv(md.height, md.pixelSize))
  }

  /** The position at index `y * gw + x` of the list is `(x, y)`. */
  lemma GridIndex(gw: int, x: int, y: int)
    requires 0 <= x < gw && 0 <= y
    ensures (y * gw + x) % gw == x && (y * gw + x) / gw == y
  {
    DivUnique(y * gw + x, gw, y);
  }

  /** The list holds exactly the positions of the grid ... */
  lemma GridPositionsMember(gw: int, gh: int, p: Position)
    ensures p in GridPositions(gw, gh) <==> 0 <= p.0 < gw && 0 <= p.1 < gh
  {
    if gw > 0 && gh > 0 {
      var ps := GridPositions(gw, gh);
      if 0 <= p.0 < gw && 0 <= p.1 < gh {
        var i := GridIndexBound(gw, gh, p.0, p.1);
        assert ps[i] == p;
      }
      if p in ps {
        var i :| 0 <= i < |ps| && ps[i] == p;
        GridRowBound(gw, gh, i);
      }
    }
  }

  /** A cell of the grid sits at index `y * gw + x`, inside the list. */
  lemma GridIndexBound(gw: int, gh: int, x: int, y: int) returns (i: nat)
    requires 0 <= x < gw && 0 <= y < gh
    ensures i == y * gw + x && i < gw * gh && i % gw == x && i / gw == y
  {
    GridIndex(gw, x, y);
    MulLe(y + 1, gh, gw);
    MulStep(y, gw);
    i := y * gw + x;
  }

  /** An index inside the list lies on one of its `gh` rows. */
  lemma GridRowBound(gw: int, gh: int, i: int)
    requires gw > 0 && 0 <= i < gw * gh
    ensures 0 <= i / gw < gh
  {
    if i / gw >= gh {
      MulLe(gh, i / gw, gw);
      assert false;
    }
  }

  /** ... each once, ... */
  lemma GridPositionsDistinct(gw: int, gh: int)
    ensures Distinct(GridPositions(gw, gh))
  {
    var ps := GridPositions(gw, gh);
    forall i, j | 0 <= i < j < |ps| ensures ps[i] != ps[j] {
      assert i == (i / gw) * gw + i % gw && j == (j / gw) * gw + j % gw;
    }
  }

  /** ... and there are `gw * gh` of them when both sides are positive. */
  lemma GridPositionsSize(gw: int, gh: int)
    ensures |GridPositions(gw, gh)| == if gw <= 0 || gh <= 0 then 0 else gw * gh
  {
  }

  predicate Distinct<T(==)>(s: seq<T>) {
    forall i, j :: 0 <= i < j < |s| ==> s[i] != s[j]
  }

  /** A list is free of repeats exactly when its multiset counts every element at most once. */
  lemma {:induction false} DistinctCounts<T>(s: seq<T>)
    ensures Distinct(s) <==> forall x :: multiset(s)[x] <= 1
  {
    if |s| > 0 {
      var n := |s| - 1;
      var pre := s[..n];
      assert s == pre + [s[n]];
      DistinctCounts(pre);
      if Distinct(s) {
        assert Distinct(pre) by {
          forall i, j | 0 <= i < j < |pre| ensures pre[i] != pre[j] {
            assert pre[i] == s[i] && pre[j] == s[j];
          }
        }
        assert s[n] !in pre by {
          forall i | 0 <= i < |pre| ensures pre[i] != s[n] {
            assert pre[i] == s[i];
          }
        }
      }
      if forall x :: multiset(s)[x] <= 1 {
        assert forall x :: multiset(pre)[x] <= multiset(s)[x];
        assert multiset(pre)[s[n]] == 0;
        forall i, j | 0 <= i < j < |s| ensures s[i] != s[j] {
          if j < n {
            assert s[i] == pre[i] && s[j] == pre[j];
          } else {
            assert s[i] == pre[i];
          }
        }
      }
    }
  }

  /** A reordering of a list without repeats has none either. */
  lemma PermutationDistinct<T>(a: seq<T>, b: seq<T>)
    requires multiset(a) == multiset(b) && Distinct(b)
    ensures Distinct(a)
  {
    DistinctCounts(a);
    DistinctCounts(b);
  }

  /** `colored_pixels`: the values that are not the background text, in dict order. */
  function ColouredValues(m: seq<Entry>): seq<string> {
    if |m| == 0 then []
    else ColouredValues(m[..|m| - 1]) + (if m[|m| - 1].value != BackgroundText then [m[|m| - 1].value] else [])
  }

  /**
    Each value that is not the background text is collected as often as it
    occurs in the dict, and the background text not at all.
   */
  lemma {:induction false} ColouredValuesCount(m: seq<Entry>, v: string)
    ensures multiset(ColouredValues(m))[v] == if v == BackgroundText then 0 else multiset(Values(m))[v]
  {
    if |m| > 0 {
      var n := |m| - 1;
      ColouredValuesCount(m[..n], v);
      ValuesSnoc(m);
    }
  }

  /** A dict that holds no background text gives up all its values, in order. */
  lemma {:induction false} ColouredValuesAll(m: seq<Entry>)
    requires forall e :: e in m ==> e.value != BackgroundText
    ensures ColouredValues(m) == Values(m)
  {
    if |m| > 0 {
      ColouredValuesAll(m[..|m| - 1]);
      ValuesSnoc(m);
    }
  }

  lemma ColouredValuesSnoc(m: seq<Entry>, i: nat)
    requires i < |m|
    ensures ColouredValues(m[..i + 1]) ==
      ColouredValues(m[..i]) + if m[i].value != BackgroundText then [m[i].value] else []
  {
    assert m[..i + 1][..i] == m[..i];
  }

  lemma ValuesSnoc(m: seq<Entry>)
    requires |m| > 0
    ensures Values(m) == Values(m[..|m| - 1]) + [m[|m| - 1].value]
  {
  }

  /** Every key of the dict is two comma-separated ints. */
  predicate KeysParse(m: seq<Entry>) {
    forall i :: 0 <= i < |m| ==> ParseKey(m[i].key).Some?
  }

  lemma KeysParseSnoc(m: seq<Entry>, i: nat)
    requires i < |m|
    ensures KeysParse(m[..i + 1]) <==> KeysParse(m[..i]) && ParseKey(m[i].key).Some?
    ensures ParseKey(m[i].key).None? ==> !KeysParse(m)
  {
    assert m[..i + 1][i] == m[i];
    if !KeysParse(m[..i + 1]) {
      var j :| 0 <= j <= i && ParseKey(m[..i + 1][j].key).None?;
      if j < i {
        assert m[..i + 1][j] == m[..i][j];
      }
    }
  }

  /** The i-th colour at the i-th shuffled position, for as many as there are of both. */
  function Placements(colours: seq<string>, spots: seq<Position>): (m: seq<Entry>)
    ensures |m| == if |colours| <= |spots| then |colours| else |spots|
  {
    var n := if |colours| <= |spots| then |colours| else |spots|;
    seq(n, i requires 0 <= i < n => Entry(FormatKey(spots[i].0, spots[i].1), colours[i]))
  }

  /** Distinct positions give distinct keys, each of which parses back to its position. */
  lemma PlacementsKeys(colours: seq<string>, spots: seq<Position>)
    requires Distinct(spots)
    ensures DistinctKeys(Placements(colours, spots))
    ensures forall i :: 0 <= i < |Placements(colours, spots)| ==>
      ParseKey(Placements(colours, spots)[i].key) == Some(spots[i])
  {
    var m := Placements(colours, spots);
    forall i, j | 0 <= i < j < |m| ensures m[i].key != m[j].key {
      if m[i].key == m[j].key {
        FormatKeyInjective(spots[i].0, spots[i].1, spots[j].0, spots[j].1);
      }
    }
    forall i | 0 <= i < |m| ensures ParseKey(m[i].key) == Some(spots[i]) {
      ParseFormatKey(spots[i].0, spots[i].1);
    }
  }

  /** One more colour adds its entry when a position is left for it, and nothing otherwise. */
  lemma PlacementsSnoc(colours: seq<string>, spots: seq<Position>, i: nat)
    requires i < |colours|
    ensures Placements(colours[..i + 1], spots) ==
      if i < |spots| then Placements(colours[..i], spots) + [Entry(FormatKey(spots[i].0, spots[i].1), colours[i])]
      else Placements(colours[..i], spots)
  {
  }

  /** When every colour finds a position, the colours come out in the order they went in. */
  lemma PlacementsValues(colours: seq<string>, spots: seq<Position>)
    requires |colours| <= |spots|
    ensures Values(Placements(colours, spots)) == colours
  {
  }

  /**
    The `enumerate(colored_pixels)` loop. With distinct positions every
    `shuffled_data['pixels'][coord] = color` adds a new key.
   */
  method Place(colours: seq<string>, spots: seq<Position>) returns (pixels: seq<Entry>)
    requires Distinct(spots)
    ensures pixels == Placements(colours, spots)
  {
    pixels := [];
    var i := 0;
    while i < |colours|
      invariant 0 <= i <= |colours|
      invariant pixels == Placements(colours[..i], spots)
    {
      if i < |spots| {
        var (x, y) := spots[i];
        var coord := FormatKey(x, y);
        forall j | 0 <= j < |pixels| ensures pixels[j].key != coord {
          if pixels[j].key == coord {
            FormatKeyInjective(spots[j].0, spots[j].1, x, y);
          }
        }
        PutNewKey(pixels, coord, colours[i]);
        pixels := Put(pixels, coord, colours[i]);
      }
      PlacementsSnoc(colours, spots, i);
      i := i + 1;
    }
    assert colours[..i] == colours;
  }

  /**
    The `for coord, color in ...items()` loop that fills `colored_pixels`;
    None where a key makes `int` raise.
   */
  method GatherColours(m: seq<Entry>) returns (colours: Option<seq<string>>)
    ensures KeysParse(m) ==> colours == Some(ColouredValues(m))
    ensures !KeysParse(m) ==> colours.None?
  {
    var found: seq<string> := [];
    var i := 0;
    while i < |m|
      invariant 0 <= i <= |m|
      invariant found == ColouredValues(m[..i])
      invariant KeysParse(m[..i])
    {
      KeysParseSnoc(m, i);
      if ParseKey(m[i].key).None? {
        return None;
      }
      ColouredValuesSnoc(m, i);
      if m[i].value != BackgroundText {
        found := found + [m[i].value];
      }
      i := i + 1;
    }
    assert m[..i] == m;
    return Some(found);
  }

  /** The nested `for y` / `for x` loops that list the grid. */
  method ListPositions(gw: int, gh: int) returns (positions: seq<Position>)
    ensures positions == GridPositions(gw, gh)
  {
    positions := [];
    var y := 0;
    while y < gh
      invariant if gh <= 0 then y == 0 else 0 <= y <= gh
      invariant positions == if gw <= 0 then [] else GridPrefix(gw, y * gw)
    {
      positions := ListRow(gw, y, positions);
      y := y + 1;
    }
    if gw > 0 && gh > 0 {
      assert y == gh;
      assert y * gw == gw * gh;
    }
  }

  /** The `for x in range(grid_width)` loop: row `y` appended to the rows above it. */
  method ListRow(gw: int, y: nat, above: seq<Position>) returns (positions: seq<Position>)
    requires above == if gw <= 0 then [] else GridPrefix(gw, y * gw)
    ensures positions == if gw <= 0 then [] else GridPrefix(gw, (y + 1) * gw)
  {
    positions := above;
    var x := 0;
    while x < gw
      invariant if gw <= 0 then x == 0 else 0 <= x <= gw
      invariant positions == if gw <= 0 then [] else GridPrefix(gw, y * gw + x)
    {
      GridIndex(gw, x, y);
      positions := positions + [(x, y)];
      x := x + 1;
    }
    MulStep(y, gw);
  }

  /**
    shuffle_pixels(pixel_data), with `shuffled` standing for the list
    `random.shuffle` leaves behind. A pixel size of 0 fails on the floor
    division before anything else; a key that is not two ints fails while
    the colours are gathered; otherwise the result keeps the metadata and
    places the non-background colours at the shuffled positions.
   */
  method ShufflePixels(data: PixelData, shuffled: seq<Position>) returns (res: Result<PixelData, Error>)
    requires data.metadata.pixelSize != 0 ==> multiset(shuffled) == multiset(Grid(data.metadata))
    ensures data.metadata.pixelSize == 0 ==> res == Failure(DivisionByZero)
    ensures data.metadata.pixelSize != 0 && !KeysParse(data.pixels) ==> res == Failure(BadKey)
    ensures data.metadata.pixelSize != 0 && KeysParse(data.pixels) ==>
      res == Success(PixelData(data.metadata, Placements(ColouredValues(data.pixels), shuffled)))
  {
    var md := data.metadata;
    if md.pixelSize == 0 {
      return Failure(DivisionByZero);
    }
    var gw := PyFloorDiv(md.width, md.pixelSize);
    var gh := PyFloorDiv(md.height, md.pixelSize);

    var gathered := GatherColours(data.pixels);
    if gathered.None? {
      return Failure(BadKey);
    }
    var colours := gathered.value;

    var available := ListPositions(gw, gh);
    // random.shuffle(available_positions): `shuffled` is a reordering of the list just built
    assert multiset(shuffled) == multiset(available);
    GridPositionsDistinct(gw, gh);
    available := shuffled;
    PermutationDistinct(available, Grid(md));

    var pixels := Place(colours, available);
    return Success(PixelData(md, pixels));
  }

  /** Every key of `m` is `"x,y"` for a cell `(x, y)` of a `gw x gh` grid. */
  predicate KeysInGrid(m: seq<Entry>, gw: int, gh: int) {
    forall e :: e in m ==> exists x, y :: ParseKey(e.key) == Some((x, y)) && 0 <= x < gw && 0 <= y < gh
  }

  /**
    What the shuffled map holds: distinct keys, every one naming a cell of
    the grid, `min(k, gw * gh)` entries for `k` non-background colours and,
    when they all fit, exactly those colours, each as often as before.
   */
  lemma ShuffleResult(data: PixelData, shuffled: seq<Position>)
    requires data.metadata.pixelSize != 0 && multiset(shuffled) == multiset(Grid(data.metadata))
    ensures var out := Placements(ColouredValues(data.pixels), shuffled);
      && DistinctKeys(out)
      && KeysInGrid(out, PyFloorDiv(data.metadata.width, data.metadata.pixelSize),
                         PyFloorDiv(data.metadata.height, data.metadata.pixelSize))
      && |out| == (if |ColouredValues(data.pixels)| <= |Grid(data.metadata)| then |ColouredValues(data.pixels)| else |Grid(data.metadata)|)
      && (|ColouredValues(data.pixels)| <= |Grid(data.metadata)| ==>
            forall v :: multiset(Values(out))[v] == if v == BackgroundText then 0 else multiset(Values(data.pixels))[v])
  {
    var md := data.metadata;
    var gw := PyFloorDiv(md.width, md.pixelSize);
    var gh := PyFloorDiv(md.height, md.pixelSize);
    var cs := ColouredValues(data.pixels);
    assert |shuffled| == |Grid(md)| by {
      assert |multiset(shuffled)| == |multiset(Grid(md))|;
    }
    GridPositionsDistinct(gw, gh);
    PermutationDistinct(shuffled, Grid(md));
    PlacementsKeys(cs, shuffled);
    PlacementsInGrid(cs, shuffled, gw, gh);
    if |cs| <= |Grid(md)| {
      PlacedColourCounts(data.pixels, shuffled);
    }
  }

  /** Every key placed on a reordering of the grid names a cell of the grid. */
  lemma PlacementsInGrid(colours: seq<string>, spots: seq<Position>, gw: int, gh: int)
    requires multiset(spots) == multiset(GridPositions(gw, gh))
    ensures KeysInGrid(Placements(colours, spots), gw, gh)
  {
    var out := Placements(colours, spots);
    forall e | e in out ensures exists x, y :: ParseKey(e.key) == Some((x, y)) && 0 <= x < gw && 0 <= y < gh {
      var i :| 0 <= i < |out| && out[i] == e;
      SpotInGrid(spots, i, gw, gh);
    }
  }

  /** The key written for a position of a reordered grid parses back to a cell of the grid. */
  lemma SpotInGrid(spots: seq<Position>, i: nat, gw: int, gh: int)
    requires multiset(spots) == multiset(GridPositions(gw, gh)) && i < |spots|
    ensures ParseKey(FormatKey(spots[i].0, spots[i].1)) == Some(spots[i])
    ensures 0 <= spots[i].0 < gw && 0 <= spots[i].1 < gh
  {
    assert spots[i] in multiset(GridPositions(gw, gh));
    GridPositionsMember(gw, gh, spots[i]);
    ParseFormatKey(spots[i].0, spots[i].1);
  }

  /** When every colour finds a position, the placed values are the non-background values, counted as before. */
  lemma PlacedColourCounts(m: seq<Entry>, spots: seq<Position>)
    requires |ColouredValues(m)| <= |spots|
    ensures forall v ::
      multiset(Values(Placements(ColouredValues(m), spots)))[v] == if v == BackgroundText then 0 else multiset(Values(m))[v]
  {
    PlacementsValues(ColouredValues(m), spots);
    forall v ensures multiset(Values(Placements(ColouredValues(m), spots)))[v] ==
      (if v == BackgroundText then 0 else multiset(Values(m))[v])
    {
      ColouredValuesCount(m, v);
    }
  }
}
