/**
 * The bounded random sampler of main.c (`populate_color_list`) and the reset
 * part of `process_image`. `rand()` becomes a sequence of raw draws, the pixel
 * accessor a function of the image, and the colour index a parameter `key`.
 */
module Sampler {
  import opened Colors
  import opened PixelMap

  /** Sample budget: the number of loop iterations (main.c `MAX_SAMPLES`). */
  const MaxSamples: int := 100000
  /** Capacity of `color_list` (main.c `MAX_COLORS`). */
  const MaxColors: int := 40000

  /** A decoded image: its size and `GetImageColor` as a function of (x, y). */
  datatype Image = Image(width: int, height: int, pixel: (int, int) -> Color)

  /** The two raw `rand()` results consumed by one iteration. */
  datatype Roll = Roll(x: nat, y: nat)

  /** The sampler's state: the unique-colour list so far and the pixel map. */
  datatype Pass = Pass(colors: seq<Color>, bits: seq<bv8>)

  /** The coordinate drawn from a roll: `rand() % width`, `rand() % height`. */
  function Coord(img: Image, roll: Roll): (p: (int, int))
    requires img.width > 0 && img.height > 0
    ensures 0 <= p.0 < img.width && 0 <= p.1 < img.height
  {
    (roll.x % img.width, roll.y % img.height)
  }

  /** The colour of the pixel a roll selects. */
  function Drawn(img: Image, roll: Roll): Color
    requires img.width > 0 && img.height > 0
  {
    var p := Coord(img, roll);
    img.pixel(p.0, p.1)
  }

  /** What the sampler may be run on. */
  ghost predicate Runnable(img: Image, key: Color -> int, i: nat, rolls: seq<Roll>, bits: seq<bv8>)
  {
    img.width > 0 && img.height > 0 && KeyInRange(key) && |bits| == MapBytes && i <= |rolls|
  }

  /**
   * The sampling loop from iteration `i` on: before each draw it stops when the
   * draws are used up or the list holds `bound` colours; otherwise it draws a
   * pixel, tests and marks its index, and appends the colour if it was fresh.
   */
  function SampleLoop(img: Image, key: Color -> int, rolls: seq<Roll>, bound: int,
                      i: nat, colors: seq<Color>, bits: seq<bv8>): (p: Pass)
    requires Runnable(img, key, i, rolls, bits)
    ensures colors <= p.colors && |p.bits| == |bits|
    ensures |p.colors| <= |colors| + (|rolls| - i)
    decreases |rolls| - i
  {
    if i == |rolls| || |colors| >= bound then Pass(colors, bits)
    else
      var c := Drawn(img, rolls[i]);
      if BitAt(bits, key(c)) then SampleLoop(img, key, rolls, bound, i + 1, colors, bits)
      else SampleLoop(img, key, rolls, bound, i + 1, colors + [c], Mark(bits, key(c)))
  }

  /** One iteration of the loop, unfolded. */
  lemma SampleLoopStep(img: Image, key: Color -> int, rolls: seq<Roll>, bound: int,
                       i: nat, colors: seq<Color>, bits: seq<bv8>)
    requires Runnable(img, key, i, rolls, bits) && i < |rolls| && |colors| < bound
    ensures var c := Drawn(img, rolls[i]);
      SampleLoop(img, key, rolls, bound, i, colors, bits)
      == if BitAt(bits, key(c)) then SampleLoop(img, key, rolls, bound, i + 1, colors, bits)
         else SampleLoop(img, key, rolls, bound, i + 1, colors + [c], Mark(bits, key(c)))
  {
  }

  /** No two colours of a list share an index (so, in particular, no two are equal). */
  ghost predicate DistinctKeys(key: Color -> int, colors: seq<Color>)
  {
    forall j, k :: 0 <= j < k < |colors| ==> key(colors[j]) != key(colors[k])
  }

  /** Every colour of the list has its bit set in the map. */
  ghost predicate AllMarked(key: Color -> int, colors: seq<Color>, bits: seq<bv8>)
    requires KeyInRange(key) && |bits| == MapBytes
  {
    forall c :: c in colors ==> BitAt(bits, key(c))
  }

  /** The indices of a list of colours. */
  ghost function Keys(key: Color -> int, colors: seq<Color>): set<int>
  {
    set c | c in colors :: key(c)
  }

  lemma KeysAppend(key: Color -> int, colors: seq<Color>, c: Color)
    ensures Keys(key, colors + [c]) == Keys(key, colors) + {key(c)}
  {
    assert forall d :: d in colors + [c] <==> d in colors || d == c;
  }

  /**
   * The loop only ever appends, never appends more than one colour per draw,
   * and stops at `bound` colours once it started below it.
   */
  lemma {:induction false} SampleLoopBounds(img: Image, key: Color -> int, rolls: seq<Roll>, bound: int,
                                            i: nat, colors: seq<Color>, bits: seq<bv8>)
    requires Runnable(img, key, i, rolls, bits)
    ensures var p := SampleLoop(img, key, rolls, bound, i, colors, bits);
      && |p.bits| == MapBytes
      && colors <= p.colors
      && |p.colors| <= |colors| + (|rolls| - i)
      && (|colors| <= bound ==> |p.colors| <= bound)
    decreases |rolls| - i
  {
    if i == |rolls| || |colors| >= bound {
    } else {
      var c := Drawn(img, rolls[i]);
      if BitAt(bits, key(c)) {
        SampleLoopBounds(img, key, rolls, bound, i + 1, colors, bits);
      } else {
        SampleLoopBounds(img, key, rolls, bound, i + 1, colors + [c], Mark(bits, key(c)));
      }
    }
  }

  /** Appending a colour whose index is unmarked, and marking it, keeps the invariant. */
  lemma AppendFresh(key: Color -> int, colors: seq<Color>, bits: seq<bv8>, c: Color)
    requires KeyInRange(key) && |bits| == MapBytes
    requires DistinctKeys(key, colors) && AllMarked(key, colors, bits) && !BitAt(bits, key(c))
    ensures DistinctKeys(key, colors + [c]) && AllMarked(key, colors + [c], Mark(bits, key(c)))
    ensures Marked(Mark(bits, key(c))) == Marked(bits) + {key(c)}
    ensures Keys(key, colors + [c]) == Keys(key, colors) + {key(c)}
  {
    var bits' := Mark(bits, key(c));
    forall d | d in colors + [c] ensures BitAt(bits', key(d)) {
      MarkBit(bits, key(c), key(d));
    }
    assert forall j :: 0 <= j < |colors| ==> BitAt(bits, key(colors[j]));
    MarkedAfterMark(bits, key(c));
    KeysAppend(key, colors, c);
  }

  /**
   * The de-duplication invariant: if the list has distinct indices that are all
   * marked, so does the final list.
   */
  lemma {:induction false} SampleLoopDistinct(img: Image, key: Color -> int, rolls: seq<Roll>, bound: int,
                                              i: nat, colors: seq<Color>, bits: seq<bv8>)
    requires Runnable(img, key, i, rolls, bits)
    requires DistinctKeys(key, colors) && AllMarked(key, colors, bits)
    ensures var p := SampleLoop(img, key, rolls, bound, i, colors, bits);
      && |p.bits| == MapBytes
      && DistinctKeys(key, p.colors)
      && AllMarked(key, p.colors, p.bits)
    decreases |rolls| - i
  {
    if i == |rolls| || |colors| >= bound {
    } else {
      var c := Drawn(img, rolls[i]);
      if BitAt(bits, key(c)) {
        SampleLoopDistinct(img, key, rolls, bound, i + 1, colors, bits);
      } else {
        AppendFresh(key, colors, bits, c);
        SampleLoopDistinct(img, key, rolls, bound, i + 1, colors + [c], Mark(bits, key(c)));
      }
    }
  }

  /**
   * The map gains exactly the indices of the colours the loop appends: with the
   * list's own colours already marked, the final marked set is the initial one
   * plus the indices of the final list.
   */
  lemma {:induction false} SampleLoopMarked(img: Image, key: Color -> int, rolls: seq<Roll>, bound: int,
                                            i: nat, colors: seq<Color>, bits: seq<bv8>)
    requires Runnable(img, key, i, rolls, bits)
    requires Keys(key, colors) <= Marked(bits)
    ensures var p := SampleLoop(img, key, rolls, bound, i, colors, bits);
      |p.bits| == MapBytes && Marked(p.bits) == Marked(bits) + Keys(key, p.colors)
    decreases |rolls| - i, 1
  {
    if i == |rolls| || |colors| >= bound {
    } else {
      var c := Drawn(img, rolls[i]);
      if BitAt(bits, key(c)) {
        SampleLoopMarked(img, key, rolls, bound, i + 1, colors, bits);
      } else {
        SampleLoopMarkedFresh(img, key, rolls, bound, i, colors, bits);
      }
    }
  }

  /** The step of `SampleLoopMarked` where the drawn colour is new: it is marked and appended. */
  lemma {:induction false} SampleLoopMarkedFresh(img: Image, key: Color -> int, rolls: seq<Roll>, bound: int,
                                                 i: nat, colors: seq<Color>, bits: seq<bv8>)
    requires Runnable(img, key, i, rolls, bits)
    requires Keys(key, colors) <= Marked(bits)
    requires i < |rolls| && |colors| < bound && !BitAt(bits, key(Drawn(img, rolls[i])))
    ensures var p := SampleLoop(img, key, rolls, bound, i, colors, bits);
      |p.bits| == MapBytes && Marked(p.bits) == Marked(bits) + Keys(key, p.colors)
    decreases |rolls| - i, 0
  {
    var c := Drawn(img, rolls[i]);
    var bits' := Mark(bits, key(c));
    var p := SampleLoop(img, key, rolls, bound, i + 1, colors + [c], bits');
    assert SampleLoop(img, key, rolls, bound, i, colors, bits) == p;
    MarkedAfterMark(bits, key(c));
    KeysAppend(key, colors, c);
    SampleLoopMarked(img, key, rolls, bound, i + 1, colors + [c], bits');
    SampleLoopBounds(img, key, rolls, bound, i + 1, colors + [c], bits');
    assert c in p.colors by { assert p.colors[|colors|] == c; }
    Absorb(Marked(bits), key(c), Keys(key, p.colors));
  }

  lemma Absorb(a: set<int>, x: int, b: set<int>)
    requires x in b
    ensures (a + {x}) + b == a + b
  {
  }

  /** Bits once set stay set while the loop runs. */
  lemma {:induction false} SampleLoopMonotone(img: Image, key: Color -> int, rolls: seq<Roll>, bound: int,
                                              i: nat, colors: seq<Color>, bits: seq<bv8>, k: int)
    requires Runnable(img, key, i, rolls, bits)
    requires 0 <= k < ColorSpace && BitAt(bits, k)
    ensures var p := SampleLoop(img, key, rolls, bound, i, colors, bits);
      |p.bits| == MapBytes && BitAt(p.bits, k)
    decreases |rolls| - i
  {
    if i == |rolls| || |colors| >= bound {
    } else {
      var c := Drawn(img, rolls[i]);
      if BitAt(bits, key(c)) {
        SampleLoopMonotone(img, key, rolls, bound, i + 1, colors, bits, k);
      } else {
        MarkBit(bits, key(c), k);
        SampleLoopMonotone(img, key, rolls, bound, i + 1, colors + [c], Mark(bits, key(c)), k);
      }
    }
  }

  /**
   * Nothing drawn is lost: when the loop used every draw without reaching the
   * cap, the index of every colour it drew is marked at the end.
   */
  lemma {:induction false} SampleLoopComplete(img: Image, key: Color -> int, rolls: seq<Roll>, bound: int,
                                              i: nat, colors: seq<Color>, bits: seq<bv8>, j: int)
    requires Runnable(img, key, i, rolls, bits)
    requires i <= j < |rolls|
    requires |SampleLoop(img, key, rolls, bound, i, colors, bits).colors| < bound
    ensures var p := SampleLoop(img, key, rolls, bound, i, colors, bits);
      |p.bits| == MapBytes && BitAt(p.bits, key(Drawn(img, rolls[j])))
    decreases |rolls| - i
  {
    var c := Drawn(img, rolls[i]);
    SampleLoopBounds(img, key, rolls, bound, i, colors, bits);
    var bits' := if BitAt(bits, key(c)) then bits else Mark(bits, key(c));
    var colors' := if BitAt(bits, key(c)) then colors else colors + [c];
    assert SampleLoop(img, key, rolls, bound, i, colors, bits)
        == SampleLoop(img, key, rolls, bound, i + 1, colors', bits');
    if j == i {
      MarkBit(bits, key(c), key(c));
      SampleLoopMonotone(img, key, rolls, bound, i + 1, colors', bits', key(c));
    } else {
      SampleLoopComplete(img, key, rolls, bound, i + 1, colors', bits', j);
    }
  }

  /**
   * A loop that listed one colour for every draw it had listed every colour it
   * drew.
   */
  lemma {:induction false} SampleLoopFull(img: Image, key: Color -> int, rolls: seq<Roll>, bound: int,
                                          i: nat, colors: seq<Color>, bits: seq<bv8>, j: int)
    requires Runnable(img, key, i, rolls, bits)
    requires i <= j < |rolls|
    requires |SampleLoop(img, key, rolls, bound, i, colors, bits).colors| == |colors| + (|rolls| - i)
    ensures Drawn(img, rolls[j]) in SampleLoop(img, key, rolls, bound, i, colors, bits).colors
    decreases |rolls| - i
  {
    var c := Drawn(img, rolls[i]);
    var bits' := if BitAt(bits, key(c)) then bits else Mark(bits, key(c));
    var colors' := if BitAt(bits, key(c)) then colors else colors + [c];
    var p := SampleLoop(img, key, rolls, bound, i + 1, colors', bits');
    assert SampleLoop(img, key, rolls, bound, i, colors, bits) == p;
    assert colors' == colors + [c];
    if j == i {
      assert p.colors[|colors|] == c;
    } else {
      SampleLoopFull(img, key, rolls, bound, i + 1, colors', bits', j);
    }
  }

  /**
   * If the next `bound - |colors|` draws have pairwise different indices, none
   * of them marked yet, the loop fills the list to exactly `bound` colours.
   */
  lemma {:induction false} FreshDrawsFill(img: Image, key: Color -> int, rolls: seq<Roll>, bound: int,
                                          i: nat, colors: seq<Color>, bits: seq<bv8>)
    requires Runnable(img, key, i, rolls, bits)
    requires |colors| <= bound && i + (bound - |colors|) <= |rolls|
    requires forall j, j' :: i <= j < j' < i + (bound - |colors|) ==>
               key(Drawn(img, rolls[j])) != key(Drawn(img, rolls[j']))
    requires forall j :: i <= j < i + (bound - |colors|) ==> !BitAt(bits, key(Drawn(img, rolls[j])))
    ensures |SampleLoop(img, key, rolls, bound, i, colors, bits).colors| == bound
    decreases |rolls| - i
  {
    if |colors| < bound {
      var c := Drawn(img, rolls[i]);
      var bits' := Mark(bits, key(c));
      forall j | i + 1 <= j < i + (bound - |colors|)
        ensures !BitAt(bits', key(Drawn(img, rolls[j])))
      {
        MarkBit(bits, key(c), key(Drawn(img, rolls[j])));
      }
      FreshDrawsFill(img, key, rolls, bound, i + 1, colors + [c], bits');
    }
  }

  /**
   * `populate_color_list` as written: it breaks only once `color_cnt > MAX_COLORS`,
   * so the list may grow to `MAX_COLORS + 1` colours, one more than `color_list` holds.
   */
  function PopulateAsWritten(img: Image, key: Color -> int, rolls: seq<Roll>, bits: seq<bv8>): (p: Pass)
    requires Runnable(img, key, 0, rolls, bits)
    ensures |p.colors| <= MaxColors + 1 && |p.colors| <= |rolls|
    ensures DistinctKeys(key, p.colors)
  {
    SampleLoopBounds(img, key, rolls, MaxColors + 1, 0, [], bits);
    SampleLoopDistinct(img, key, rolls, MaxColors + 1, 0, [], bits);
    SampleLoop(img, key, rolls, MaxColors + 1, 0, [], bits)
  }

  /**
   * An image of 65536 x 1 pixels whose pixel at column x has packed index
   * 255 x + 127, so that main.c's index of it is x (the exact sum lies halfway
   * between x and x + 1).
   */
  function RampImage(): (img: Image)
    ensures img.width == 65536 && img.height == 1
    ensures forall x | 0 <= x < 65536 :: SourceIndex(img.pixel(x, 0)) == x
  {
    Image(65536, 1, (x, y) => if 0 <= x < 65536 then ColorOf(255 * x + 127) else Color(0, 0, 0, 255))
  }

  /** Draws that walk the columns left to right. */
  function RampRolls(): (rolls: seq<Roll>)
    ensures |rolls| == MaxSamples && forall j | 0 <= j < MaxSamples :: rolls[j] == Roll(j, 0)
  {
    seq(MaxSamples, j requires 0 <= j => Roll(j, 0))
  }

  /**
   * The off-by-one made concrete: on a cleared map, the ramp image and the
   * left-to-right draws, the code as written, with its own index, collects
   * MAX_COLORS + 1 colours, and so stores the last of them at
   * `color_list[MAX_COLORS]`, past the end.
   */
  lemma OverflowWitness()
    ensures |PopulateAsWritten(RampImage(), SourceIndex, RampRolls(), Zeros(MapBytes)).colors|
         == MaxColors + 1
  {
    var img, rolls, bits := RampImage(), RampRolls(), Zeros(MapBytes);
    forall j | 0 <= j <= MaxColors ensures SourceIndex(Drawn(img, rolls[j])) == j {
      assert Coord(img, rolls[j]) == (j, 0);
    }
    ZerosUnmarked(MapBytes);
    forall j | 0 <= j <= MaxColors ensures !BitAt(bits, SourceIndex(Drawn(img, rolls[j]))) {
      assert SourceIndex(Drawn(img, rolls[j])) !in Marked(bits);
    }
    FreshDrawsFill(img, SourceIndex, rolls, MaxColors + 1, 0, [], bits);
  }

  /**
   * `populate_color_list` (main.c) with the cap test corrected to
   * `color_cnt >= MAX_COLORS`: at most MAX_SAMPLES draws, each at a coordinate
   * inside the image; fresh colours are appended to `colorList`.
   */
  method PopulateColorList(img: Image, key: Color -> int, rolls: seq<Roll>,
                           colorList: array<Color>, drawnPixelMap: array<bv8>) returns (colorCnt: int)
    requires img.width > 0 && img.height > 0 && KeyInRange(key)
    requires |rolls| == MaxSamples
    requires colorList.Length == MaxColors && drawnPixelMap.Length == MapBytes
    modifies colorList, drawnPixelMap
    ensures 0 <= colorCnt <= MaxColors
    ensures var p := SampleLoop(img, key, rolls, MaxColors, 0, [], old(drawnPixelMap[..]));
      && colorCnt == |p.colors|
      && colorList[..colorCnt] == p.colors
      && drawnPixelMap[..] == p.bits
    ensures DistinctKeys(key, colorList[..colorCnt])
    ensures colorList[colorCnt..] == old(colorList[colorCnt..])
  {
    ghost var start := drawnPixelMap[..];
    colorCnt := 0;
    for i := 0 to MaxSamples
      invariant 0 <= colorCnt <= MaxColors
      invariant SampleLoop(img, key, rolls, MaxColors, i, colorList[..colorCnt], drawnPixelMap[..])
             == SampleLoop(img, key, rolls, MaxColors, 0, [], start)
      invariant colorList[colorCnt..] == old(colorList[colorCnt..])
    {
      ghost var colors, bits := colorList[..colorCnt], drawnPixelMap[..];
      if colorCnt >= MaxColors {
        break;
      }
      var coord := Coord(img, rolls[i]);
      var color := img.pixel(coord.0, coord.1);
      var present := ColorInList(key(color), drawnPixelMap);
      SampleLoopStep(img, key, rolls, MaxColors, i, colors, bits);
      if !present {
        colorList[colorCnt] := color;
        colorCnt := colorCnt + 1;
        assert colorList[..colorCnt] == colors + [color];
        assert colorList[colorCnt..] == old(colorList[colorCnt..]);
      } else {
        MarkIdempotent(bits, key(color));
        assert colorList[..colorCnt] == colors;
      }
    }
    SampleLoopDistinct(img, key, rolls, MaxColors, 0, [], start);
  }

  /** The per-image state of main.c (`struct image_info`), restricted to the sampler's buffers. */
  class ImageInfo {
    var drawnPixelMap: array<bv8>
    var colorList: array<Color>
    var colorCnt: int
    var numPixels: int

    ghost predicate Valid()
      reads this
    {
      drawnPixelMap.Length == MapBytes && colorList.Length == MaxColors && 0 <= colorCnt <= MaxColors
    }

    /** `init_info` (main.c): a zeroed pixel map and an empty colour list. */
    constructor ()
      ensures Valid() && fresh(drawnPixelMap) && fresh(colorList)
      ensures drawnPixelMap[..] == Zeros(MapBytes) && colorCnt == 0
    {
      drawnPixelMap := new bv8[MapBytes](_ => 0);
      colorList := new Color[MaxColors](_ => Color(0, 0, 0, 0));
      colorCnt, numPixels := 0, 0;
    }

    /**
     * The reset-and-sample part of `process_image` (main.c): the pixel map and
     * the colour list are zeroed, then the sampler runs. Afterwards the marked
     * indices are exactly those of the listed colours, so nothing seen in a
     * previous image is reported as present.
     */
    method ProcessImage(img: Image, key: Color -> int, rolls: seq<Roll>)
      requires Valid()
      requires img.width > 0 && img.height > 0 && KeyInRange(key) && |rolls| == MaxSamples
      modifies this`colorCnt, this`numPixels, drawnPixelMap, colorList
      ensures Valid() && drawnPixelMap == old(drawnPixelMap) && colorList == old(colorList)
      ensures var p := SampleLoop(img, key, rolls, MaxColors, 0, [], Zeros(MapBytes));
        && colorCnt == |p.colors|
        && colorList[..colorCnt] == p.colors
        && drawnPixelMap[..] == p.bits
      ensures DistinctKeys(key, colorList[..colorCnt])
      ensures Marked(drawnPixelMap[..]) == Keys(key, colorList[..colorCnt])
      ensures forall j :: colorCnt <= j < MaxColors ==> colorList[j] == Color(0, 0, 0, 0)
      ensures numPixels == img.width * img.height
    {
      ClearMap(drawnPixelMap);
      forall j | 0 <= j < colorList.Length {
        colorList[j] := Color(0, 0, 0, 0);
      }
      numPixels := img.width * img.height;
      ghost var zeros := drawnPixelMap[..];
      assert zeros == Zeros(MapBytes);
      colorCnt := PopulateColorList(img, key, rolls, colorList, drawnPixelMap);
      assert Keys(key, []) == {};
      SampleLoopMarked(img, key, rolls, MaxColors, 0, [], zeros);
      assert forall j :: colorCnt <= j < MaxColors ==> colorList[j] == colorList[colorCnt..][j - colorCnt];
    }
  }
}
