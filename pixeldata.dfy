/**
  The values the pixel pipeline passes around: RGB triples, the metadata
  record and the `pixel_data` dictionary, whose `pixels` part maps a
  `"col,row"` key to an `"rgb(r, g, b)"` string. A Python dict keeps its
  keys in insertion order, so it is modelled as a sequence of entries.
  `DistinctKeys` states that no key appears twice; the maps the sampler
  and the shuffler build have it (`PutDistinct`). The operations do not
  demand it of their input, so they also accept sequences with repeated
  keys, which no dict can hold: every entry is decoded in order.
 */
module PixelData {
  import opened Wrappers

  /** One channel of a numpy `uint8` image. */
  type Byte = x: int | 0 <= x < 256

  datatype Rgb = Rgb(r: Byte, g: Byte, b: Byte)

  /** The colour the sampler leaves out of the map. */
  const Background := Rgb(41, 41, 41)

  /** The colour `Image.new('RGB', ..., color='black')` starts from. */
  const Black := Rgb(0, 0, 0)

  /** `pixel_data['metadata']`: the source image size and the block edge. */
  datatype Metadata = Metadata(width: nat, height: nat, pixelSize: int)

  datatype Entry = Entry(key: string, value: string)

  /** `pixel_data` as a whole. */
  datatype PixelData = PixelData(metadata: Metadata, pixels: seq<Entry>)

  /** The exceptions the three routines can raise. */
  datatype Error =
    | RangeStepZero   // `range(0, n, 0)`: ValueError
    | DivisionByZero  // `width // 0`: ZeroDivisionError
    | BadKey          // a key that is not two comma-separated ints: ValueError
    | BadColour       // a colour that does not parse to three bytes

  function Keys(m: seq<Entry>): (ks: seq<string>)
    ensures |ks| == |m| && forall i :: 0 <= i < |m| ==> ks[i] == m[i].key
  {
    seq(|m|, i requires 0 <= i < |m| => m[i].key)
  }

  function Values(m: seq<Entry>): (vs: seq<string>)
    ensures |vs| == |m| && forall i :: 0 <= i < |m| ==> vs[i] == m[i].value
  {
    seq(|m|, i requires 0 <= i < |m| => m[i].value)
  }

  /** A dict never holds the same key twice. */
  predicate DistinctKeys(m: seq<Entry>) {
    forall i, j :: 0 <= i < j < |m| ==> m[i].key != m[j].key
  }

  /**
    `d[k] = v`: an existing key keeps its place and takes the new value,
    a new key goes at the end.
   */
  function Put(m: seq<Entry>, k: string, v: string): (r: seq<Entry>)
    ensures |r| == |m| || |r| == |m| + 1
  {
    if |m| == 0 then [Entry(k, v)]
    else if m[0].key == k then [Entry(k, v)] + m[1..]
    else [m[0]] + Put(m[1..], k, v)
  }

  /** `d.get(k)`: the value stored under `k`, if any. */
  function Lookup(m: seq<Entry>, k: string): Option<string> {
    if |m| == 0 then None
    else if m[0].key == k then Some(m[0].value)
    else Lookup(m[1..], k)
  }

  /** After `d[k] = v`, `k` maps to `v` and every other key to what it mapped to before. */
  lemma {:induction false} PutLookup(m: seq<Entry>, k: string, v: string, k': string)
    ensures Lookup(Put(m, k, v), k') == if k' == k then Some(v) else Lookup(m, k')
  {
    if |m| > 0 && m[0].key != k {
      PutLookup(m[1..], k, v, k');
    }
  }

  /** `d[k] = v` adds `k` at the end of the keys when it is new and leaves them alone otherwise. */
  lemma {:induction false} PutKeys(m: seq<Entry>, k: string, v: string)
    ensures Keys(Put(m, k, v)) == if k in Keys(m) then Keys(m) else Keys(m) + [k]
  {
    if |m| > 0 {
      assert Keys(m) == [m[0].key] + Keys(m[1..]);
      if m[0].key != k {
        PutKeys(m[1..], k, v);
        assert Keys(Put(m, k, v)) == [m[0].key] + Keys(Put(m[1..], k, v));
      } else {
        assert Keys(Put(m, k, v)) == [k] + Keys(m[1..]);
      }
    }
  }

  /** `d[k] = v` never makes a key appear twice. */
  lemma PutDistinct(m: seq<Entry>, k: string, v: string)
    requires DistinctKeys(m)
    ensures DistinctKeys(Put(m, k, v))
  {
    PutKeys(m, k, v);
    var r := Put(m, k, v);
    forall i, j | 0 <= i < j < |r| ensures r[i].key != r[j].key {
      assert Keys(r)[i] == r[i].key && Keys(r)[j] == r[j].key;
      if j < |m| {
        assert Keys(m)[i] == m[i].key && Keys(m)[j] == m[j].key;
      } else {
        assert Keys(m)[i] == m[i].key;
      }
    }
  }

  /** Storing under a key the dict does not hold yet appends the entry. */
  lemma {:induction false} PutNewKey(m: seq<Entry>, k: string, v: string)
    requires forall i :: 0 <= i < |m| ==> m[i].key != k
    ensures Put(m, k, v) == m + [Entry(k, v)]
  {
    if |m| > 0 {
      PutNewKey(m[1..], k, v);
      assert [m[0]] + (m[1..] + [Entry(k, v)]) == m + [Entry(k, v)];
    }
  }
}
