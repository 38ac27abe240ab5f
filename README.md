# Pixel shuffle: the block-colour pipeline

`src/pixel_shuffle.py` is a small web app. You upload a picture and it
turns the picture into a grid of flat colour blocks. It can then scatter
those blocks to random places in the grid. Under the UI sit three routines
and two text formats. This project models them in Dafny:

- **Sampler.** `analyze_pixel_art` steps over the image in `pixel_size`
  strides. It reads only the top-left pixel of each block, skips the
  background colour (41, 41, 41), and stores the rest in a dict. The key is
  `"col,row"` and the value is `"rgb(r, g, b)"`.
- **Reconstructor.** `reconstruct_pixel_art` starts from a black
  `width x height` image. For each entry of the dict, it parses the key and
  the colour and fills that block's `pixel_size x pixel_size` square,
  clipped to the image.
- **Shuffler.** `shuffle_pixels` collects the colours that are not the
  background text and lists the positions of the
  `width // pixel_size x height // pixel_size` grid row by row. It shuffles
  that list and gives the i-th colour the i-th position.
- **Text formats.** A key is written `f"{x},{y}"` and read back with
  `split(',')` and `int`. A colour is written `f"rgb{(r, g, b)}"` and read
  back with `strip('rgb()').split(',')` and `int`.

## How the model is laid out

- `wrappers.dfy` holds `Option` and `Result`.
- `pytext.dfy` (`PyText`) models the Python built-ins the formats rely on:
  `str` of an int, `int` of a string (surrounding whitespace, an optional
  sign, decimal digits), `str.split` and `str.strip`.
- `pixeldata.dfy` (`PixelData`) holds the values:
  - the colour `Rgb` and the `Metadata` record;
  - the `pixels` dict, modelled as an insertion-ordered sequence of
    entries;
  - `Put`, which models `d[k] = v`: an existing key is replaced in place,
    and a new key goes at the end.
- `pixeltext.dfy` (`PixelText`) holds:
  - the key and colour formats and their parsers, with round-trip lemmas;
  - `Block`, the decoded form of an entry;
  - `DecodeEntries`, where the first entry that fails to parse decides the
    error.
- `sampler.dfy` (`Sampler`):
  - The routine is the method `AnalyzePixelArt`. The image is an
    `array2<Rgb>` indexed `[y, x]`, as in numpy.
  - Its nested loops are `SampleLine` and `SamplePixel`.
  - It is proved against the specification function `SampleBlocks`. The
    lemmas show which blocks that function keeps, their order, and how many
    there are.
- `reconstructor.dfy` (`Reconstructor`):
  - The routine is the method `ReconstructPixelArt`. It returns a fresh
    `array2<Rgb>` indexed `[X, Y]`, as PIL's pixel-access object is.
  - It is proved against `Painted`: the colour of a pixel after the blocks
    are painted in order, where the last block that covers the pixel wins.
- `shuffler.dfy` (`Shuffler`):
  - The routine is the method `ShufflePixels`, with its loops
    `GatherColours`, `ListPositions`/`ListRow` and `Place`.
  - It is proved against `Placements`, `ColouredValues` and
    `GridPositions`.
  - `random.shuffle` is not modelled. The caller passes the shuffled list,
    which must hold the same positions as the grid.
- `roundtrip.dfy` (`RoundTrip`) relates the routines to each other:
  - Sampling and then reconstructing gives the downsampled image.
  - Sampling and the shuffle grid disagree at the image's edges.

Error paths are modelled, not excluded:
- a `pixel_size` of 0 makes `range(0, n, 0)` fail in the sampler, and
  `width // 0` fail in the shuffler;
- a key that is not two comma-separated ints fails in the shuffler and the
  reconstructor;
- a colour that is not three comma-separated bytes fails in the
  reconstructor. The source is more lenient than that when nothing gets
  painted; see "Left out".

A negative `pixel_size` is modelled too:
- the sampler's `range` is then empty;
- Python's floor division gives the shuffler an empty grid;
- the reconstructor's `range(pixel_size)` paints nothing.

Where the code and the design differ, the model follows the code:
- The reconstructed background is black (0, 0, 0) (line 162), not the
  (41, 41, 41) background the sampler drops.
- The shuffler keeps every colour only when the colours fit into the
  `floor`-sized grid. An image whose sides are not multiples of
  `pixel_size` can have more sampled blocks than grid positions, and the
  extra colours are then dropped (`GridWithinSample`, `EdgeColumnDropped`).

## Model

| member | source | states |
|---|---|---|
| PyText.FormatNat | src/pixel_shuffle.py:150 | `str(n)` of a non-negative int is a non-empty string of decimal digits |
| PyText.DigitsValueOfFormatNat | src/pixel_shuffle.py:150-151 | the digits `str(n)` writes read back as `n` |
| PyText.FormatNatInjective | src/pixel_shuffle.py:150-151 | different numbers are written as different digit strings |
| PyText.LStrip | src/pixel_shuffle.py:168 | left `strip` removes a prefix, and what is left does not start with a stripped character |
| PyText.RStrip | src/pixel_shuffle.py:168 | right `strip` removes a suffix, and what is left does not end with a stripped character |
| PyText.LStripPrefix | src/pixel_shuffle.py:168 | a prefix made only of stripped characters makes no difference to the left strip |
| PyText.RStripSuffix | src/pixel_shuffle.py:168 | a suffix made only of stripped characters makes no difference to the right strip |
| PyText.StripKeeps | src/pixel_shuffle.py:168 | text whose two ends are not stripped characters is left unchanged |
| PyText.Split | src/pixel_shuffle.py:99 | `split(sep)` gives at least one piece, and no piece holds the separator |
| PyText.SplitNoSep | src/pixel_shuffle.py:166 | text without the separator splits into itself alone |
| PyText.SplitAt | src/pixel_shuffle.py:166 | splitting `a + sep + b`, with no separator in `a`, gives `a` followed by the pieces of `b` |
| PyText.PyIntOfFormatNat | src/pixel_shuffle.py:168 | `int` of whitespace followed by `str(n)` gives back `n` (the `" 41"` pieces of a colour) |
| PyText.PyInt | src/pixel_shuffle.py:99 | models `int(s)`: strip the ASCII characters `\t\n\v\f\r` and space and the non-ASCII `str.isspace` characters from both ends, then an optional sign and decimal digits; none otherwise. `PyIntOfFormatInt` and `PyIntOfFormatNat` pin it down on every numeral the program writes |
| PyText.Strip | src/pixel_shuffle.py:168 | models `strip(chars)` as the left strip followed by the right strip; `LStripPrefix`, `RStripSuffix` and `StripKeeps` characterise what it removes |
| PyText.FormatInt | src/pixel_shuffle.py:150 | `str(i)` of any int is non-empty |
| PyText.SeparatorNotStripped | src/pixel_shuffle.py:99 | `int()` strips only ASCII `\t\n\v\f\r` and space among ASCII characters: the separator 0x1C is not whitespace here, so `int("\x1c1")` is an error |
| PyText.PyIntOfFormatInt | src/pixel_shuffle.py:99 | `int(str(i)) == i` for every int of at most 4300 digits, negative ones included, which covers every numeral the program writes; the model's round trip holds for every int (see Left out) |
| PyText.FormatIntInjective | src/pixel_shuffle.py:121 | different ints are written differently |
| PixelData.Put | src/pixel_shuffle.py:151 | `d[k] = v` leaves the dict the same size or one entry longer |
| PixelData.PutLookup | src/pixel_shuffle.py:151 | after `d[k] = v`, `k` maps to `v` and every other key keeps its value |
| PixelData.PutKeys | src/pixel_shuffle.py:151 | `d[k] = v` appends `k` to the key order when it is new, and leaves the key order alone otherwise |
| PixelData.PutDistinct | src/pixel_shuffle.py:122 | `d[k] = v` never makes a key appear twice |
| PixelData.PutNewKey | src/pixel_shuffle.py:122 | storing under an absent key appends exactly that entry |
| PixelText.FormatKey | src/pixel_shuffle.py:150 | models `f"{x},{y}"`: two numerals around one comma. `ParseFormatKey` and `FormatKeyInjective` pin it down |
| PixelText.ParseKey | src/pixel_shuffle.py:166 | models `x, y = map(int, key.split(','))`: exactly two pieces, each an `int`, or the ValueError case. `ParseFormatKey` shows it inverts `FormatKey` |
| PixelText.FormatColor | src/pixel_shuffle.py:151 | models `f"rgb{color}"` for a byte triple, written `rgb(r, g, b)`. `ParseFormatColor` and `FormatColorInjective` pin it down |
| PixelText.ParseColor | src/pixel_shuffle.py:168 | models `tuple(map(int, color.strip('rgb()').split(',')))`, kept only when it is three ints in 0..255 (see Left out). `ParseFormatColor` shows it inverts `FormatColor` |
| PixelText.DecodeEntry | src/pixel_shuffle.py:166-168 | one entry parsed as the loop does: a bad key fails first, then a bad colour. `DecodeEncodeBlock` shows every written entry decodes to its block |
| PixelText.ParseFormatKey | src/pixel_shuffle.py:166 | parsing the key written for `(x, y)` gives `(x, y)` back, for all ints |
| PixelText.FormatKeyInjective | src/pixel_shuffle.py:150 | two blocks get the same key only if they are in the same cell |
| PixelText.ParseFormatColor | src/pixel_shuffle.py:168 | parsing `f"rgb{(r, g, b)}"` gives the colour back, for every byte triple |
| PixelText.FormatColorInjective | src/pixel_shuffle.py:151 | different colours are written as different strings |
| PixelText.BackgroundTextIff | src/pixel_shuffle.py:100 | a colour's text is `"rgb(41, 41, 41)"` exactly when the colour is (41, 41, 41), in both directions |
| PixelText.EncodeBlocksDistinct | src/pixel_shuffle.py:150-151 | the written map holds no key twice exactly when no two blocks share a cell, in both directions |
| PixelText.Collect | src/pixel_shuffle.py:165-168 | a successful decoding has one block per entry |
| PixelText.CollectPrefixFailure | src/pixel_shuffle.py:165-168 | once an entry fails to parse, later entries do not change the outcome |
| PixelText.CollectExtend | src/pixel_shuffle.py:165-168 | an entry that parses adds its block at the end |
| PixelText.CollectStop | src/pixel_shuffle.py:165-168 | the first entry that fails to parse gives the error of the whole map |
| PixelText.DecodeEncodeBlock | src/pixel_shuffle.py:150-151 | an entry written by the sampler decodes to the block it was written from |
| PixelText.DecodeEncodeBlocks | src/pixel_shuffle.py:150-151 | a whole map written from blocks decodes without error to the same blocks, in order |
| Arith.PyFloorDiv | src/pixel_shuffle.py:93-94 | `a // b` is the floor of a / b, for either sign of `b` |
| Arith.DivUnique | src/pixel_shuffle.py:150 | `x // ps` is the unique `q` with `q*ps <= x < (q+1)*ps` |
| Arith.DivStep | src/pixel_shuffle.py:145 | one more stride of `ps` adds one to `x // ps` |
| Sampler.BlockCountBound | src/pixel_shuffle.py:144-145 | a block index `c` starts inside a side of `n` pixels exactly when `c < ceil(n / ps)` |
| Sampler.SampleRowsSound | src/pixel_shuffle.py:144-151 | every sampled block is the top-left pixel of its block, inside the image, and not the background |
| Sampler.SampleRowsComplete | src/pixel_shuffle.py:144-151 | every block whose top-left pixel is inside the image and not the background is sampled |
| Sampler.SampleBlocksExact | src/pixel_shuffle.py:144-151 | a block is in the sampled list exactly when its colour is the block's top-left pixel, inside the image and not (41, 41, 41) |
| Sampler.SampleRowsOrdered | src/pixel_shuffle.py:144-145 | the blocks of the remaining rows come in strictly increasing row-major order |
| Sampler.SampleBlocksOrdered | src/pixel_shuffle.py:144-145 | all sampled blocks come in strictly increasing row-major order, so no cell appears twice |
| Sampler.SampleRowsSize | src/pixel_shuffle.py:144-145 | the remaining rows give at most `ceil` many blocks per row, times the number of rows left |
| Sampler.SampleBlocksInGrid | src/pixel_shuffle.py:144-150 | every key is inside `[0, ceil(w/ps)) x [0, ceil(h/ps))`, and there are at most `ceil(h/ps) * ceil(w/ps)` entries |
| Sampler.FreshKey | src/pixel_shuffle.py:150 | a cell after all earlier ones has a key that no earlier entry holds |
| Sampler.StoreBlock | src/pixel_shuffle.py:151 | storing the next block appends its entry to the map of the blocks before it |
| Sampler.SampledEntries | src/pixel_shuffle.py:149-151 | the sampled map has distinct keys, and no value is `"rgb(41, 41, 41)"` |
| Sampler.AnalyzePixelArt | src/pixel_shuffle.py:127-153 | `pixel_size` 0 fails, a negative one gives an empty map; otherwise the result is the metadata `(width, height, pixel_size)` and the entries of `SampleBlocks` in row-major order |
| Sampler.SampleLine | src/pixel_shuffle.py:145-151 | the `for x` loop appends exactly the kept blocks of row `y // ps` |
| Sampler.SamplePixel | src/pixel_shuffle.py:147-151 | one `x` step stores the block when its pixel is not the background, and skips it otherwise |
| Reconstructor.Painted | src/pixel_shuffle.py:162-176 | the colour of pixel `(X, Y)` after painting the blocks in order over black, where the last block covering the pixel wins. `PaintedSnoc`, `PaintedCovered` and `PaintedUncovered` characterise it |
| Reconstructor.PaintedSnoc | src/pixel_shuffle.py:171-176 | painting one more block changes exactly the pixels its square covers |
| Reconstructor.PaintedUncovered | src/pixel_shuffle.py:162 | a pixel that no block covers stays black |
| Reconstructor.CoversCell | src/pixel_shuffle.py:173-174 | for a positive block size, a block covers pixel `(X, Y)` exactly when it is in cell `(X // ps, Y // ps)` |
| Reconstructor.PaintedCovered | src/pixel_shuffle.py:171-176 | a pixel covered by a block gets that block's colour, whatever else is painted, when the blocks of one cell share a colour |
| Reconstructor.PaintedOrderFree | src/pixel_shuffle.py:165 | for a positive block size, any reordering of blocks that agree on each cell's colour paints the same image. Keys such as `"1,0"` and `"01,0"` name the same cell, so a hand-made map can break that condition |
| Reconstructor.NegativeKeyPassesGuard | src/pixel_shuffle.py:175 | the key `"-1,0"` parses to `(-1, 0)`, and its pixel passes the clip test as written, although it lies outside a 1 x 1 image |
| Reconstructor.FillRow | src/pixel_shuffle.py:172-176 | row `ay` of the square becomes `c` where it is inside the image, and every other pixel is unchanged |
| Reconstructor.FillBlock | src/pixel_shuffle.py:171-176 | the whole square, clipped to the image, becomes `c`, and every other pixel is unchanged |
| Reconstructor.PaintBlock | src/pixel_shuffle.py:170-176 | an image that shows the blocks `bs` shows `bs + [b]` after one more entry is painted |
| Reconstructor.ReconstructPixelArt | src/pixel_shuffle.py:155-178 | fails with the error of the first entry that does not parse; otherwise returns a fresh `width x height` image whose every pixel is `Painted` for the decoded entries |
| RoundTrip.SampledCellsAgree | src/pixel_shuffle.py:147-151 | sampled blocks in the same cell have the same colour |
| RoundTrip.PaintSampled | src/pixel_shuffle.py:144-151 | painting the sampled blocks gives every pixel its block's top-left colour, or black where that colour is (41, 41, 41) |
| RoundTrip.ReconstructAnalysed | src/pixel_shuffle.py:162-176 | the map the sampler writes decodes without error, and reconstructing it gives the downsampled image at every pixel |
| RoundTrip.GridWithinSample | src/pixel_shuffle.py:93-94 | the shuffle grid's side `n // ps` is at most the sampler's `ceil(n / ps)`, and equal exactly when `ps` divides `n` |
| RoundTrip.ShuffleAnalysed | src/pixel_shuffle.py:100 | the shuffler collects every value the sampler wrote, since none is the background text |
| RoundTrip.EdgeColumnDropped | src/pixel_shuffle.py:119 | a one-colour 3 x 2 image with blocks of 2 samples two blocks but has one grid position, so its shuffle keeps one colour |
| Shuffler.GridIndex | src/pixel_shuffle.py:106-107 | `(x, y)` is at index `y * gw + x` of the list |
| Shuffler.GridPositionsMember | src/pixel_shuffle.py:104-107 | the list holds `(x, y)` exactly when `0 <= x < gw` and `0 <= y < gh` |
| Shuffler.GridPositionsDistinct | src/pixel_shuffle.py:104-107 | no position is listed twice |
| Shuffler.GridPositionsSize | src/pixel_shuffle.py:104-107 | the list has `gw * gh` positions when both are positive, and none otherwise |
| Shuffler.DistinctCounts | src/pixel_shuffle.py:109 | a list is free of repeats exactly when its multiset counts each element at most once |
| Shuffler.PermutationDistinct | src/pixel_shuffle.py:109 | a shuffle of a list without repeats has none either |
| Shuffler.ColouredValuesCount | src/pixel_shuffle.py:97-101 | each value other than `"rgb(41, 41, 41)"` is collected as often as it occurs in the dict, and the background text never |
| Shuffler.ColouredValuesAll | src/pixel_shuffle.py:100-101 | a dict without background text gives up all its values, in order |
| Shuffler.KeysParseSnoc | src/pixel_shuffle.py:99 | the keys parse up to entry `i + 1` exactly when they parse up to `i` and key `i` parses |
| Shuffler.PlacementsKeys | src/pixel_shuffle.py:121-122 | with distinct positions, keys are distinct, and entry i's key parses back to position i |
| Shuffler.PlacementsValues | src/pixel_shuffle.py:118-122 | when every colour finds a position, the values are the colours in order |
| Shuffler.GatherColours | src/pixel_shuffle.py:97-101 | the `colored_pixels` loop fails exactly when some key does not parse, and otherwise collects `ColouredValues` |
| Shuffler.ListPositions | src/pixel_shuffle.py:104-107 | the nested loops build exactly `GridPositions(gw, gh)` |
| Shuffler.ListRow | src/pixel_shuffle.py:106-107 | the `for x` loop appends row `y` to the rows above it |
| Shuffler.Place | src/pixel_shuffle.py:117-122 | the placing loop builds exactly `Placements`, with each store adding a new key |
| Shuffler.ShufflePixels | src/pixel_shuffle.py:87-124 | `pixel_size` 0 fails, and so does a key that is not two ints; otherwise the metadata is kept and colour i goes to shuffled position i |
| Shuffler.PlacementsInGrid | src/pixel_shuffle.py:117-122 | when the positions are a reordering of the grid, every key the placing loop writes is `"x,y"` for a cell with `0 <= x < gw` and `0 <= y < gh` |
| Shuffler.PlacedColourCounts | src/pixel_shuffle.py:97-122 | when every colour finds a position, the placed values hold each non-background value of the input as often as it occurred, and the background text never |
| Shuffler.ShuffleResult | src/pixel_shuffle.py:112-122 | the shuffled map has distinct keys, every key is a cell of the grid, it has `min(k, gw*gh)` entries, and when the colours fit it holds exactly the non-background colours of the input, each as often as before |

## Left out

- The Streamlit UI, session state, uploads, buttons and `main` (src/pixel_shuffle.py:180-266) are not modelled. They are glue over a framework that is not part of this model.
- The CSS and page setup (src/pixel_shuffle.py:9-56) are presentation only.
- `create_grid_html` (src/pixel_shuffle.py:58-85) is not modelled. It builds HTML markup with random floating-point animation delays, and its grid fill repeats the reconstruct logic.
- PIL and numpy are not modelled: decoding and converting the image, `np.array`, `Image.new` and `.load()`. The input is an `array2<Rgb>` of byte triples, and the output is a freshly allocated `array2<Rgb>`.
- The randomness of `random.shuffle` is not modelled. The shuffled list is a parameter that must be a permutation of the grid positions. Uniformity is a statistical property and is out of reach of the proofs.
- The default `pixel_size=25` of `analyze_pixel_art` is not modelled; the block size is always passed in.
- PyText.PyInt accepts surrounding whitespace (ASCII `\t\n\v\f\r` and space, and the non-ASCII `str.isspace` characters; not the separators 0x1C-0x1F, which `int()` rejects), a sign and ASCII digits. It does not accept Python's `_` digit separators or non-ASCII decimal digits. It also has no limit on length: CPython's `int()` raises ValueError on a decimal numeral of more than 4300 digits (the default of `sys.set_int_max_str_digits`). A hand-made key such as "1" followed by 4300 zeros and ",0" therefore makes lines 99 and 166 raise, while the model parses it.
- PyText.FormatInt has no length limit either: CPython's `str()` raises ValueError on an int of more than 4300 digits. The program only formats block coordinates, which are far below that.
- PixelText.ParseColor: returns None unless the pieces are exactly three ints in 0..255. Line 168 as written yields `(1, 2)` for `"rgb(1, 2)"`, `(1, 2, 3, 4)` for `"rgb(1, 2, 3, 4)"` and `(300, 0, 0)` for `"rgb(300, 0, 0)"`, and leaves such tuples to PIL, which is not modelled. It fails only where some piece is not an int, as the model does.
- PixelText.DecodeEntry: inherits ParseColor's restriction, so such colours become BadColour at decoding time instead of reaching the pixel write.
- Reconstructor.ReconstructPixelArt: fails with BadColour as soon as it reaches a colour whose pieces are all ints but which is not three ints in 0..255, such as `"rgb(1, 2)"`. Line 168 raises only for a piece that is not an int. Such a tuple reaches PIL only when line 176 writes a pixel. So when the entry's square lies outside the image, or `pixel_size <= 0`, the source returns an image without error, and the model does not capture those cases. When a write does happen, what PIL does with the tuple (raise, clip, or ignore a fourth value) is not visible, so the model does not keep such colours.
- Reconstructor.FillRow: follows the clip test with both bounds (see Findings). What PIL does with the negative coordinates the written test lets through is not modelled.
- PixelData.Metadata: width and height are natural numbers, since they come from an image's size. Negative sizes in a hand-made map are not modelled.
- Python dicts are values here. The input map is a Dafny value, so "the input dict is not modified" holds by construction rather than by a proof.

## Findings

| source | as written | input that shows it | evidently intended | confidence | as-written member | corrected member |
|---|---|---|---|---|---|---|
| src/pixel_shuffle.py:175 | the clip test checks `actual_x < width and actual_y < height` only | key `"-1,0"` with `pixel_size` 1 on a 1 x 1 image asks for pixel (-1, 0), which passes the test | only pixels with `0 <= actual_x < width` and `0 <= actual_y < height` are written | medium, not executed | Reconstructor.NegativeKeyPassesGuard | Reconstructor.FillRow |
