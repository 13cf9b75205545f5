/**
 * instancedpoc.c, the proof-of-concept grapher: a row-major scan over every
 * pixel that appends a colour (and its cube position) whenever a read-only
 * lookup in `drawn_pixel_map` says the colour is absent. The map is `malloc`ed
 * and never written, so its contents are an arbitrary input here.
 */
module InstancedPoc {
  import opened Colors
  import opened PixelMap
  import opened Sampler

  /**
   * `color_in_list` of instancedpoc.c: the byte shifted right by `index % 8`,
   * taken as a truth value, with no mask of the lowest bit.
   */
  predicate PocColorInList(m: seq<bv8>, index: int)
    requires 0 <= index < 8 * |m|
    ensures BitAt(m, index) ==> PocColorInList(m, index)
  {
    (m[index / 8] >> (index % 8)) != 0
  }

  /** `color_in_list` of instancedpoc.c as the scan calls it: reads the map, never writes it. */
  method ColorInList(index: int, drawnPixelMap: seq<bv8>) returns (present: bool)
    requires 0 <= index < 8 * |drawnPixelMap|
    ensures present == PocColorInList(drawnPixelMap, index)
    ensures present <==> exists t :: index % 8 <= t < 8 && TestBit(drawnPixelMap[index / 8], t)
  {
    PocLookupMeaning(drawnPixelMap, index);
    var byteIndex := index / 8;
    var curBitfield := drawnPixelMap[byteIndex];
    present := curBitfield >> (index - byteIndex * 8) != 0;
  }

  lemma ShiftNonZero(b: bv8, s: int)
    requires 0 <= s < 8
    ensures (b >> s) != 0 <==> exists t :: s <= t < 8 && TestBit(b, t)
  {
    if (b >> s) != 0 {
      assert || (s <= 0 && TestBit(b, 0)) || (s <= 1 && TestBit(b, 1))
             || (s <= 2 && TestBit(b, 2)) || (s <= 3 && TestBit(b, 3))
             || (s <= 4 && TestBit(b, 4)) || (s <= 5 && TestBit(b, 5))
             || (s <= 6 && TestBit(b, 6)) || (s <= 7 && TestBit(b, 7));
    } else {
      forall t | s <= t < 8 ensures !TestBit(b, t) {
        var sb, tb := s as bv8, t as bv8;
        assert (b >> sb) == 0 && sb <= tb < 8 ==> (b >> tb) & 1 == 0;
      }
    }
  }

  /**
   * The lookup reports a colour present exactly when some bit at or above
   * `index % 8` of byte `index / 8` is set.
   */
  lemma {:induction false} PocLookupMeaning(m: seq<bv8>, index: int)
    requires 0 <= index < 8 * |m|
    ensures PocColorInList(m, index) <==> exists t :: index % 8 <= t < 8 && TestBit(m[index / 8], t)
  {
    ShiftNonZero(m[index / 8], index % 8);
  }

  /** Whenever main.c's masked test finds the bit set, this lookup also says present. */
  lemma {:induction false} PocLookupNoFalseNegative(m: seq<bv8>, index: int)
    requires 0 <= index < 8 * |m| && BitAt(m, index)
    ensures PocColorInList(m, index)
  {
    PocLookupMeaning(m, index);
    assert TestBit(m[index / 8], index % 8);
  }

  /**
   * Without the mask, a set bit of a neighbouring index is taken for this one:
   * with bit 1 of byte 0 set, index 0 is reported present although its own bit
   * is clear.
   */
  lemma PocLookupFalsePositive()
    ensures var m := [2 as bv8];
      PocColorInList(m, 0) && !BitAt(m, 0) && BitAt(m, 1)
  {
  }

  /** The pixels of row `y`, columns `0 .. x-1`, left to right. */
  function Row(y: int, x: nat): (r: seq<(int, int)>)
    ensures |r| == x && forall k :: 0 <= k < x ==> r[k] == (k, y)
  {
    if x == 0 then [] else Row(y, x - 1) + [(x - 1, y)]
  }

  /** The pixels of rows `0 .. h-1` of a `w`-wide image, rows outer, columns inner. */
  function RowMajor(w: nat, h: nat): (v: seq<(int, int)>)
    ensures forall k :: 0 <= k < |v| ==> 0 <= v[k].0 < w && 0 <= v[k].1 < h
  {
    if h == 0 then [] else RowMajor(w, h - 1) + Row(h - 1, w)
  }

  lemma MulMono(a: int, b: int, w: nat)
    requires a <= b
    ensures a * w <= b * w
  {
  }

  /** The scan makes `w * h` visits, each to a pixel inside the image. */
  lemma {:induction false} RowMajorInside(w: nat, h: nat)
    ensures var v := RowMajor(w, h);
      && |v| == w * h
      && (forall k :: 0 <= k < |v| ==> 0 <= v[k].0 < w && 0 <= v[k].1 < h)
  {
    if h > 0 {
      RowMajorInside(w, h - 1);
      assert w * h == w * (h - 1) + w;
    }
  }

  /** The visits of the first `y` rows come first among those of all `h` rows. */
  lemma {:induction false} RowMajorPrefix(w: nat, y: nat, h: nat)
    requires y <= h
    ensures RowMajor(w, y) <= RowMajor(w, h)
    decreases h
  {
    if y < h {
      RowMajorPrefix(w, y, h - 1);
    }
  }

  /** Pixel (x, y) is visit number y * w + x, so every pixel is visited. */
  lemma {:induction false} RowMajorIndex(w: nat, h: nat, x: int, y: int)
    requires 0 <= x < w && 0 <= y < h
    ensures y * w + x < |RowMajor(w, h)| && RowMajor(w, h)[y * w + x] == (x, y)
  {
    RowMajorInside(w, h);
    RowMajorInside(w, h - 1);
    var prev := RowMajor(w, h - 1);
    assert |prev| == (h - 1) * w;
    if y < h - 1 {
      RowMajorIndex(w, h - 1, x, y);
    } else {
      assert y * w + x - |prev| == x;
    }
  }

  /**
   * Visits are ordered by row, then by column; in particular no pixel is
   * visited twice.
   */
  lemma {:induction false} RowMajorOrdered(w: nat, h: nat)
    ensures var v := RowMajor(w, h);
      forall j, k :: 0 <= j < k < |v| ==> v[j].1 < v[k].1 || (v[j].1 == v[k].1 && v[j].0 < v[k].0)
  {
    if h > 0 {
      RowMajorOrdered(w, h - 1);
      RowMajorInside(w, h - 1);
    }
  }

  /** The colours the scan keeps from a list of visited pixels: those the lookup reports absent. */
  function Kept(img: Image, key: Color -> int, m: seq<bv8>, visits: seq<(int, int)>): (r: seq<Color>)
    requires KeyInRange(key) && |m| == MapBytes
    ensures |r| <= |visits|
  {
    if visits == [] then []
    else
      var last := visits[|visits| - 1];
      var c := img.pixel(last.0, last.1);
      Kept(img, key, m, visits[..|visits| - 1]) + (if PocColorInList(m, key(c)) then [] else [c])
  }

  lemma KeptSnoc(img: Image, key: Color -> int, m: seq<bv8>, visits: seq<(int, int)>, v: (int, int))
    requires KeyInRange(key) && |m| == MapBytes
    ensures Kept(img, key, m, visits + [v])
         == Kept(img, key, m, visits)
            + (if PocColorInList(m, key(img.pixel(v.0, v.1))) then [] else [img.pixel(v.0, v.1)])
  {
    assert (visits + [v])[..|visits|] == visits;
  }

  /** `now` agrees with `was` from index `from` on: the slots a loop has not written yet. */
  ghost predicate SameFrom<T>(from: int, now: seq<T>, was: seq<T>)
  {
    |now| == |was| && forall k :: 0 <= k < |now| && from <= k ==> now[k] == was[k]
  }

  lemma SameFromTrans<T>(i: int, j: int, a: seq<T>, b: seq<T>, c: seq<T>)
    requires i <= j && SameFrom(i, b, a) && SameFrom(j, c, b)
    ensures SameFrom(j, c, a)
  {
  }

  /** The position a cube is drawn at, before the float scaling by `graph_limit / 255`. */
  datatype CubePosition = CubePosition(x: Byte, y: Byte, z: Byte)

  function PositionOf(c: Color): CubePosition
  {
    CubePosition(c.r, c.g, c.b)
  }

  /**
   * The populate loop of instancedpoc.c `main`: rows outer, columns inner; each
   * pixel whose colour the lookup reports absent is appended to `colorList`,
   * and its position to `cubePosition` at the same index.
   */
  method PocPopulate(img: Image, key: Color -> int, drawnPixelMap: seq<bv8>,
                     colorList: array<Color>, cubePosition: array<CubePosition>)
    returns (colorCnt: int)
    requires img.width >= 0 && img.height >= 0 && KeyInRange(key) && |drawnPixelMap| == MapBytes
    requires colorList.Length == img.height * img.width && cubePosition.Length == img.height * img.width
    modifies colorList, cubePosition
    ensures 0 <= colorCnt <= img.width * img.height
    ensures colorList[..colorCnt] == Kept(img, key, drawnPixelMap, RowMajor(img.width, img.height))
    ensures forall k :: 0 <= k < colorCnt ==> cubePosition[k] == PositionOf(colorList[k])
    ensures SameFrom(colorCnt, colorList[..], old(colorList[..]))
    ensures SameFrom(colorCnt, cubePosition[..], old(cubePosition[..]))
  {
    colorCnt := 0;
    RowMajorInside(img.width, img.height);
    assert |RowMajor(img.width, img.height)| == colorList.Length;
    for y := 0 to img.height
      invariant 0 <= colorCnt <= |RowMajor(img.width, y)| <= colorList.Length
      invariant colorList[..colorCnt] == Kept(img, key, drawnPixelMap, RowMajor(img.width, y))
      invariant forall k :: 0 <= k < colorCnt ==> cubePosition[k] == PositionOf(colorList[k])
      invariant SameFrom(colorCnt, colorList[..], old(colorList[..]))
      invariant SameFrom(colorCnt, cubePosition[..], old(cubePosition[..]))
    {
      ghost var done := RowMajor(img.width, y);
      assert RowMajor(img.width, y + 1) == done + Row(y, img.width);
      RowMajorPrefix(img.width, y + 1, img.height);
      assert |done| + img.width <= colorList.Length;
      ghost var c0, l0, p0 := colorCnt, colorList[..], cubePosition[..];
      colorCnt := ScanRow(img, key, drawnPixelMap, y, colorList, cubePosition, colorCnt, done);
      SameFromTrans(c0, colorCnt, old(colorList[..]), l0, colorList[..]);
      SameFromTrans(c0, colorCnt, old(cubePosition[..]), p0, cubePosition[..]);
    }
  }

  /** One pass of the inner (column) loop of the populate scan, over row `y`. */
  method ScanRow(img: Image, key: Color -> int, drawnPixelMap: seq<bv8>, y: int,
                 colorList: array<Color>, cubePosition: array<CubePosition>, colorCnt0: int,
                 ghost done: seq<(int, int)>)
    returns (colorCnt: int)
    requires img.width >= 0 && KeyInRange(key) && |drawnPixelMap| == MapBytes
    requires 0 <= colorCnt0 <= |done| && |done| + img.width <= colorList.Length == cubePosition.Length
    requires colorList[..colorCnt0] == Kept(img, key, drawnPixelMap, done)
    requires forall k :: 0 <= k < colorCnt0 ==> cubePosition[k] == PositionOf(colorList[k])
    modifies colorList, cubePosition
    ensures colorCnt0 <= colorCnt <= |done| + img.width
    ensures colorList[..colorCnt] == Kept(img, key, drawnPixelMap, done + Row(y, img.width))
    ensures forall k :: 0 <= k < colorCnt ==> cubePosition[k] == PositionOf(colorList[k])
    ensures SameFrom(colorCnt, colorList[..], old(colorList[..]))
    ensures SameFrom(colorCnt, cubePosition[..], old(cubePosition[..]))
  {
    colorCnt := colorCnt0;
    ghost var visited := done;
    for x := 0 to img.width
      invariant colorCnt0 <= colorCnt <= |done| + x
      invariant visited == done + Row(y, x)
      invariant colorList[..colorCnt] == Kept(img, key, drawnPixelMap, visited)
      invariant forall k :: 0 <= k < colorCnt ==> cubePosition[k] == PositionOf(colorList[k])
      invariant SameFrom(colorCnt, colorList[..], old(colorList[..]))
      invariant SameFrom(colorCnt, cubePosition[..], old(cubePosition[..]))
    {
      var color := img.pixel(x, y);
      KeptSnoc(img, key, drawnPixelMap, visited, (x, y));
      var present := ColorInList(key(color), drawnPixelMap);
      if !present {
        ghost var l0, p0 := colorList[..], cubePosition[..];
        Append(colorList, cubePosition, colorCnt, color);
        SameFromTrans(colorCnt, colorCnt + 1, old(colorList[..]), l0, colorList[..]);
        SameFromTrans(colorCnt, colorCnt + 1, old(cubePosition[..]), p0, cubePosition[..]);
        colorCnt := colorCnt + 1;
      }
      visited := visited + [(x, y)];
    }
  }

  /** Stores `color` and its cube position at index `colorCnt` of the two lists. */
  method Append(colorList: array<Color>, cubePosition: array<CubePosition>, colorCnt: int, color: Color)
    requires 0 <= colorCnt < colorList.Length == cubePosition.Length
    requires forall k :: 0 <= k < colorCnt ==> cubePosition[k] == PositionOf(colorList[k])
    modifies colorList, cubePosition
    ensures colorList[..colorCnt + 1] == old(colorList[..colorCnt]) + [color]
    ensures forall k :: 0 <= k < colorCnt + 1 ==> cubePosition[k] == PositionOf(colorList[k])
    ensures SameFrom(colorCnt + 1, colorList[..], old(colorList[..]))
    ensures SameFrom(colorCnt + 1, cubePosition[..], old(cubePosition[..]))
  {
    colorList[colorCnt] := color;
    cubePosition[colorCnt] := PositionOf(color);
  }

  /** With a map that happens to be all zero, the scan keeps every pixel, one entry per visit. */
  lemma {:induction false} ZeroMapKeepsEveryPixel(img: Image, key: Color -> int, visits: seq<(int, int)>)
    requires KeyInRange(key)
    ensures Kept(img, key, Zeros(MapBytes), visits) == seq(|visits|, k requires 0 <= k < |visits| => img.pixel(visits[k].0, visits[k].1))
  {
    if visits != [] {
      var c := img.pixel(visits[|visits| - 1].0, visits[|visits| - 1].1);
      ZeroMapKeepsEveryPixel(img, key, visits[..|visits| - 1]);
      assert !PocColorInList(Zeros(MapBytes), key(c)) by {
        assert Zeros(MapBytes)[key(c) / 8] == 0;
      }
    }
  }

  /** A 2 x 1 image of a single colour. */
  function TwinImage(): Image
  {
    Image(2, 1, (x, y) => Color(7, 7, 7, 255))
  }

  /**
   * Nothing is de-duplicated: on a map that is all zero, the scan of a 2 x 1
   * image whose pixels share one colour lists that colour twice.
   */
  lemma PocKeepsDuplicates()
    ensures var r := Kept(TwinImage(), PackedIndex, Zeros(MapBytes), RowMajor(2, 1));
      |r| == 2 && r[0] == r[1]
  {
    ZeroMapKeepsEveryPixel(TwinImage(), PackedIndex, RowMajor(2, 1));
    assert RowMajor(2, 1) == [(0, 0), (1, 0)] by {
      assert RowMajor(2, 0) == [];
    }
  }

  /** The row-major scan written as sampler draws: draw k selects visit k. */
  function RowMajorRolls(w: nat, h: nat): (rolls: seq<Roll>)
    ensures |rolls| == |RowMajor(w, h)|
    ensures forall k :: 0 <= k < |rolls| ==> (rolls[k].x, rolls[k].y) == RowMajor(w, h)[k]
  {
    var v := RowMajor(w, h);
    seq(|v|, k requires 0 <= k < |v| => Roll(v[k].0, v[k].1))
  }

  /**
   * The scan done with main.c's test-and-mark instead (the sampler with the
   * row-major draws and no cap short of one colour per pixel) keeps no two
   * colours with the same index, whatever the map held before.
   */
  lemma {:induction false} MarkingScanDistinct(img: Image, key: Color -> int, bits: seq<bv8>)
    requires img.width > 0 && img.height > 0 && KeyInRange(key) && |bits| == MapBytes
    ensures var rolls, v := RowMajorRolls(img.width, img.height), RowMajor(img.width, img.height);
      forall k :: 0 <= k < |rolls| ==> Drawn(img, rolls[k]) == img.pixel(v[k].0, v[k].1)
    ensures var rolls := RowMajorRolls(img.width, img.height);
      DistinctKeys(key, SampleLoop(img, key, rolls, |rolls|, 0, [], bits).colors)
    ensures var rolls := RowMajorRolls(img.width, img.height);
      bits == Zeros(MapBytes) ==>
      forall k :: 0 <= k < |rolls| ==>
        key(Drawn(img, rolls[k])) in Keys(key, SampleLoop(img, key, rolls, |rolls|, 0, [], bits).colors)
  {
    var rolls, v := RowMajorRolls(img.width, img.height), RowMajor(img.width, img.height);
    forall k | 0 <= k < |rolls| ensures Coord(img, rolls[k]) == v[k] {
      ModSmall(v[k].0, img.width);
      ModSmall(v[k].1, img.height);
    }
    SampleLoopDistinct(img, key, rolls, |rolls|, 0, [], bits);
    if bits == Zeros(MapBytes) {
      var p := SampleLoop(img, key, rolls, |rolls|, 0, [], bits);
      ZerosUnmarked(MapBytes);
      SampleLoopMarked(img, key, rolls, |rolls|, 0, [], bits);
      SampleLoopBounds(img, key, rolls, |rolls|, 0, [], bits);
      forall k | 0 <= k < |rolls| ensures key(Drawn(img, rolls[k])) in Keys(key, p.colors) {
        if |p.colors| < |rolls| {
          SampleLoopComplete(img, key, rolls, |rolls|, 0, [], bits, k);
        } else {
          SampleLoopFull(img, key, rolls, |rolls|, 0, [], bits, k);
        }
      }
    }
  }

  lemma ModSmall(a: int, n: int)
    requires 0 <= a < n
    ensures a % n == a
  {
  }
}
