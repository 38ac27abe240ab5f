/**
  The two text formats of the pixel map: keys written `f"{x},{y}"` and read
  back with `split(',')` and `int`, and colours written `f"rgb{color}"` for a
  tuple `color` and read back with `strip('rgb()').split(',')` and `int`.
 */
module PixelText {
  import opened Wrappers
  import opened PyText
  import opened PixelData

  /** `f"{x},{y}"` */
  function FormatKey(x: int, y: int): string {
    FormatInt(x) + "," + FormatInt(y)
  }

  /** `x, y = map(int, key.split(','))`; None where Python raises ValueError. */
  function ParseKey(key: string): Option<(int, int)> {
    var parts := Split(key, ',');
    if |parts| != 2 then None
    else match (PyInt(parts[0]), PyInt(parts[1]))
      case (Some(x), Some(y)) => Some((x, y))
      case _ => None
  }

  /** `f"rgb{color}"` for the tuple `(r, g, b)`: Python writes a tuple as `(r, g, b)`. */
  function FormatColor(c: Rgb): string {
    "rgb(" + FormatNat(c.r) + ", " + FormatNat(c.g) + ", " + FormatNat(c.b) + ")"
  }

  /** The characters `strip('rgb()')` removes from both ends. */
  const ColorChars: set<char> := {'r', 'g', 'b', '(', ')'}

  /**
    `tuple(map(int, color.strip('rgb()').split(',')))`, kept only when it is
    a triple of bytes, the only value an RGB pixel can be set to.
   */
  function ParseColor(s: string): Option<Rgb> {
    var parts := Split(Strip(s, ColorChars), ',');
    if |parts| != 3 then None
    else match (PyInt(parts[0]), PyInt(parts[1]), PyInt(parts[2]))
      case (Some(r), Some(g), Some(b)) =>
        if 0 <= r < 256 && 0 <= g < 256 && 0 <= b < 256 then Some(Rgb(r, g, b)) else None
      case _ => None
  }

  /** The text shuffle_pixels compares against to recognise the background. */
  const BackgroundText := "rgb(41, 41, 41)"

  lemma NoCommaInDigits(d: string)
    requires AllDigits(d)
    ensures forall i :: 0 <= i < |d| ==> d[i] != ','
  {
  }

  lemma NoCommaInInt(i: int)
    ensures forall k :: 0 <= k < |FormatInt(i)| ==> FormatInt(i)[k] != ','
  {
    var d := FormatNat(if i < 0 then -i else i);
    NoCommaInDigits(d);
    if i < 0 {
      assert forall k :: 1 <= k < |FormatInt(i)| ==> FormatInt(i)[k] == d[k - 1];
    }
  }

  /** Reading back a written key gives the same coordinates. */
  lemma ParseFormatKey(x: int, y: int)
    ensures ParseKey(FormatKey(x, y)) == Some((x, y))
  {
    var a, b := FormatInt(x), FormatInt(y);
    NoCommaInInt(x);
    NoCommaInInt(y);
    SplitAt(a, ',', b);
    SplitNoSep(b, ',');
    assert FormatKey(x, y) == a + [','] + b;
    PyIntOfFormatInt(x);
    PyIntOfFormatInt(y);
    ParseKeyParts(FormatKey(x, y), a, b, x, y);
  }

  lemma ParseKeyParts(key: string, a: string, b: string, x: int, y: int)
    requires Split(key, ',') == [a, b] && PyInt(a) == Some(x) && PyInt(b) == Some(y)
    ensures ParseKey(key) == Some((x, y))
  {
  }

  /** Distinct coordinates get distinct keys. */
  lemma FormatKeyInjective(x1: int, y1: int, x2: int, y2: int)
    requires FormatKey(x1, y1) == FormatKey(x2, y2)
    ensures x1 == x2 && y1 == y2
  {
    ParseFormatKey(x1, y1);
    ParseFormatKey(x2, y2);
  }

  lemma DigitNotColorChar(c: char)
    requires IsDigit(c)
    ensures c !in ColorChars
  {
  }

  /** `strip('rgb()')` removes exactly the `rgb(` prefix and the `)` suffix. */
  lemma StripColorText(inner: string)
    requires |inner| >= 1 && IsDigit(inner[0]) && IsDigit(inner[|inner| - 1])
    ensures Strip("rgb(" + inner + ")", ColorChars) == inner
  {
    var closed := inner + ")";
    var prefix := "rgb(";
    assert prefix + inner + ")" == prefix + closed;
    assert forall i :: 0 <= i < |prefix| ==> prefix[i] in ColorChars;
    LStripPrefix(prefix, closed, ColorChars);
    DigitNotColorChar(inner[0]);
    assert closed[0] !in ColorChars;
    assert LStrip(closed, ColorChars) == closed;
    assert forall i :: 0 <= i < |")"| ==> ")"[i] in ColorChars;
    RStripSuffix(inner, ")", ColorChars);
    DigitNotColorChar(inner[|inner| - 1]);
    assert RStrip(inner, ColorChars) == inner;
  }

  /** `split(',')` of `"a, b, d"` gives the three numerals, the last two after a space. */
  lemma SplitColorText(a: string, b: string, d: string)
    requires AllDigits(a) && AllDigits(b) && AllDigits(d)
    ensures Split(a + ", " + b + ", " + d, ',') == [a, " " + b, " " + d]
  {
    NoCommaInDigits(a);
    NoCommaInDigits(b);
    NoCommaInDigits(d);
    var mid, tail := " " + b, " " + d;
    assert a + ", " + b + ", " + d == a + [','] + (mid + [','] + tail);
    SplitAt(a, ',', mid + [','] + tail);
    SplitAt(mid, ',', tail);
    SplitNoSep(tail, ',');
  }

  /** Reading back a written colour gives the same triple. */
  lemma ParseFormatColor(c: Rgb)
    ensures ParseColor(FormatColor(c)) == Some(c)
  {
    ColorTextParts(c);
    ColorPartValues(c);
    ParseColorParts(FormatColor(c), [FormatNat(c.r), " " + FormatNat(c.g), " " + FormatNat(c.b)], c);
  }

  lemma ColorTextParts(c: Rgb)
    ensures Split(Strip(FormatColor(c), ColorChars), ',') == [FormatNat(c.r), " " + FormatNat(c.g), " " + FormatNat(c.b)]
  {
    var a, b, d := FormatNat(c.r), FormatNat(c.g), FormatNat(c.b);
    var inner := a + ", " + b + ", " + d;
    assert Strip(FormatColor(c), ColorChars) == inner by {
      assert FormatColor(c) == "rgb(" + inner + ")";
      assert inner[0] == a[0] && inner[|inner| - 1] == d[|d| - 1];
      StripColorText(inner);
    }
    SplitColorText(a, b, d);
  }

  lemma ColorPartValues(c: Rgb)
    ensures PyInt(FormatNat(c.r)) == Some(c.r as int)
    ensures PyInt(" " + FormatNat(c.g)) == Some(c.g as int)
    ensures PyInt(" " + FormatNat(c.b)) == Some(c.b as int)
  {
    PyIntOfFormatNatBare(c.r);
    PyIntOfFormatNat(" ", c.g);
    PyIntOfFormatNat(" ", c.b);
  }

  lemma ParseColorParts(s: string, parts: seq<string>, c: Rgb)
    requires Split(Strip(s, ColorChars), ',') == parts && |parts| == 3
    requires PyInt(parts[0]) == Some(c.r as int) && PyInt(parts[1]) == Some(c.g as int) && PyInt(parts[2]) == Some(c.b as int)
    ensures ParseColor(s) == Some(c)
  {
  }

  lemma FormatColorInjective(c1: Rgb, c2: Rgb)
    requires FormatColor(c1) == FormatColor(c2)
    ensures c1 == c2
  {
    ParseFormatColor(c1);
    ParseFormatColor(c2);
  }

  /**
    The string test in shuffle_pixels agrees with the tuple test in
    analyze_pixel_art: a written colour equals "rgb(41, 41, 41)" exactly
    when the colour is (41, 41, 41).
   */
  lemma BackgroundTextIff(c: Rgb)
    ensures FormatColor(c) == BackgroundText <==> c == Background
  {
    assert FormatColor(Background) == BackgroundText;
    if FormatColor(c) == BackgroundText {
      FormatColorInjective(c, Background);
    }
  }

  /** A map entry with its key and colour read back as numbers. */
  datatype Block = Block(col: int, row: int, colour: Rgb)

  /** The entry the program writes for a block: `"col,row"` and `"rgb(r, g, b)"`. */
  function EncodeBlock(b: Block): Entry {
    Entry(FormatKey(b.col, b.row), FormatColor(b.colour))
  }

  /** The entries written for a sequence of blocks, in the same order. */
  function EncodeBlocks(bs: seq<Block>): (m: seq<Entry>)
    ensures |m| == |bs| && forall i :: 0 <= i < |bs| ==> m[i] == EncodeBlock(bs[i])
  {
    seq(|bs|, i requires 0 <= i < |bs| => EncodeBlock(bs[i]))
  }

  lemma EncodeAppend(bs: seq<Block>, b: Block)
    ensures EncodeBlocks(bs + [b]) == EncodeBlocks(bs) + [EncodeBlock(b)]
  {
  }

  /**
    The written map holds no key twice exactly when no two blocks are in the
    same cell; the colours play no part in the keys.
   */
  lemma EncodeBlocksDistinct(bs: seq<Block>)
    ensures DistinctKeys(EncodeBlocks(bs)) <==>
      forall i, j :: 0 <= i < j < |bs| ==> (bs[i].col, bs[i].row) != (bs[j].col, bs[j].row)
  {
    var m := EncodeBlocks(bs);
    forall i, j | 0 <= i < j < |bs| && m[i].key == m[j].key
      ensures (bs[i].col, bs[i].row) == (bs[j].col, bs[j].row)
    {
      FormatKeyInjective(bs[i].col, bs[i].row, bs[j].col, bs[j].row);
    }
  }

  /** Parsing one entry as reconstruct_pixel_art does: the key first, then the colour. */
  function DecodeEntry(e: Entry): Result<Block, Error> {
    match ParseKey(e.key)
    case None => Failure(BadKey)
    case Some((x, y)) =>
      match ParseColor(e.value)
      case None => Failure(BadColour)
      case Some(c) => Success(Block(x, y, c))
  }

  /** Each entry of the map parsed on its own. */
  function ParseEntries(m: seq<Entry>): (rs: seq<Result<Block, Error>>)
    ensures |rs| == |m| && forall i :: 0 <= i < |m| ==> rs[i] == DecodeEntry(m[i])
  {
    seq(|m|, i requires 0 <= i < |m| => DecodeEntry(m[i]))
  }

  /** The parsed entries in dict order; the first one that failed decides the error. */
  function Collect(rs: seq<Result<Block, Error>>): (r: Result<seq<Block>, Error>)
    ensures r.Success? ==> |r.value| == |rs|
  {
    if |rs| == 0 then Success([])
    else match Collect(rs[..|rs| - 1])
      case Failure(e) => Failure(e)
      case Success(bs) =>
        match rs[|rs| - 1]
        case Failure(e) => Failure(e)
        case Success(b) => Success(bs + [b])
  }

  /** The loop of reconstruct_pixel_art parses every entry before it draws with it. */
  function DecodeEntries(m: seq<Entry>): Result<seq<Block>, Error> {
    Collect(ParseEntries(m))
  }

  /** A failure among the first `n` results decides the whole collection. */
  lemma {:induction false} CollectPrefixFailure(rs: seq<Result<Block, Error>>, n: nat)
    requires n <= |rs| && Collect(rs[..n]).Failure?
    ensures Collect(rs) == Collect(rs[..n])
    decreases |rs| - n
  {
    if n < |rs| {
      assert rs[..n + 1][..n] == rs[..n];
      CollectPrefixFailure(rs, n + 1);
    } else {
      assert rs[..n] == rs;
    }
  }

  /** Results that all succeed collect to their values, in order. */
  lemma {:induction false} CollectSuccesses(rs: seq<Result<Block, Error>>, bs: seq<Block>)
    requires |rs| == |bs| && forall i :: 0 <= i < |bs| ==> rs[i] == Success(bs[i])
    ensures Collect(rs) == Success(bs)
  {
    if |bs| > 0 {
      var n := |bs| - 1;
      CollectSuccesses(rs[..n], bs[..n]);
      assert bs[..n] + [bs[n]] == bs;
    }
  }

  /** One more entry that parses extends the collected blocks. */
  lemma CollectExtend(rs: seq<Result<Block, Error>>, n: nat, bs: seq<Block>, b: Block)
    requires n < |rs| && Collect(rs[..n]) == Success(bs) && rs[n] == Success(b)
    ensures Collect(rs[..n + 1]) == Success(bs + [b])
  {
    assert rs[..n + 1][..n] == rs[..n];
  }

  /** The first entry that does not parse decides the outcome for the whole map. */
  lemma CollectStop(rs: seq<Result<Block, Error>>, n: nat, bs: seq<Block>, e: Error)
    requires n < |rs| && Collect(rs[..n]) == Success(bs) && rs[n] == Failure(e)
    ensures Collect(rs) == Failure(e)
  {
    assert rs[..n + 1][..n] == rs[..n];
    CollectPrefixFailure(rs, n + 1);
  }

  /** Entries written by the program parse back to the blocks they were written from. */
  lemma DecodeEncodeBlocks(bs: seq<Block>)
    ensures DecodeEntries(EncodeBlocks(bs)) == Success(bs)
  {
    var rs := ParseEntries(EncodeBlocks(bs));
    forall i | 0 <= i < |bs| ensures rs[i] == Success(bs[i]) {
      DecodeEncodeBlock(bs[i]);
    }
    CollectSuccesses(rs, bs);
  }

  /** One written entry parses back to its block. */
  lemma DecodeEncodeBlock(b: Block)
    ensures DecodeEntry(EncodeBlock(b)) == Success(b)
  {
    ParseFormatKey(b.col, b.row);
    ParseFormatColor(b.colour);
  }


}
