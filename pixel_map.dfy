/**
 * The colour identity bitset of main.c: a byte buffer of 2^24 / 8 bytes in
 * which bit `index % 8` of byte `index / 8` records that a colour with that
 * index has been seen during the current pass.
 */
module PixelMap {
  import opened Colors

  /** Size in bytes of `drawn_pixel_map`: one bit per 24-bit colour index (2^24 / 8). */
  const MapBytes: int := 0x20_0000

  /** Bit `t` of a byte: shift right by `t`, mask with 1. */
  predicate TestBit(b: bv8, t: int)
    requires 0 <= t < 8
  {
    (b >> t) & 1 == 1
  }

  /** The byte with bit `t` or-ed in. */
  function SetBit(b: bv8, t: int): bv8
    requires 0 <= t < 8
  {
    b | (1 << t)
  }

  /** Bit `index % 8` of byte `index / 8`. */
  predicate BitAt(m: seq<bv8>, index: int)
    requires 0 <= index < 8 * |m|
  {
    TestBit(m[index / 8], index % 8)
  }

  /** The buffer after bit `index` has been or-ed in. */
  function Mark(m: seq<bv8>, index: int): (m': seq<bv8>)
    requires 0 <= index < 8 * |m|
    ensures |m'| == |m|
    ensures forall j :: 0 <= j < |m| && j != index / 8 ==> m'[j] == m[j]
  {
    m[index / 8 := SetBit(m[index / 8], index % 8)]
  }

  /** The set of indices whose bit is set. */
  ghost function Marked(m: seq<bv8>): set<int>
  {
    set i | 0 <= i < 8 * |m| && BitAt(m, i)
  }

  /** A buffer of `n` zero bytes, what `calloc` and `memset(.., 0, ..)` leave behind. */
  function Zeros(n: nat): (m: seq<bv8>)
    ensures |m| == n && forall j :: 0 <= j < n ==> m[j] == 0
  {
    seq(n, _ => 0)
  }

  /** Or-ing bit `s` into a byte leaves every other bit as it was and sets bit `s`. */
  lemma OrBit(b: bv8, s: int, t: int)
    requires 0 <= s < 8 && 0 <= t < 8
    ensures TestBit(SetBit(b, s), t) <==> TestBit(b, t) || s == t
  {
    var sb, tb := s as bv8, t as bv8;
    assert ((b | (1 << sb)) >> tb) & 1 == 1 <==> (b >> tb) & 1 == 1 || sb == tb;
  }

  /** Or-ing in a bit that is already set leaves the byte as it was. */
  lemma SetBitIdempotent(b: bv8, s: int)
    requires 0 <= s < 8 && TestBit(b, s)
    ensures SetBit(b, s) == b
  {
    var sb := s as bv8;
    assert (b >> sb) & 1 == 1;
    assert b | (1 << sb) == b;
  }

  /** Marking sets exactly the bit it was asked to and no other. */
  lemma {:induction false} MarkBit(m: seq<bv8>, index: int, j: int)
    requires 0 <= index < 8 * |m| && 0 <= j < 8 * |m|
    ensures BitAt(Mark(m, index), j) <==> BitAt(m, j) || j == index
  {
    if j / 8 == index / 8 {
      OrBit(m[index / 8], index % 8, j % 8);
      assert j != index ==> j % 8 != index % 8;
    }
  }

  /** The marked set of a marked buffer grows by exactly the marked index. */
  lemma MarkedAfterMark(m: seq<bv8>, index: int)
    requires 0 <= index < 8 * |m|
    ensures Marked(Mark(m, index)) == Marked(m) + {index}
  {
    forall j | 0 <= j < 8 * |m|
      ensures j in Marked(Mark(m, index)) <==> j in Marked(m) + {index}
    {
      MarkBit(m, index, j);
    }
  }

  /** Marking an index whose bit is already set changes nothing. */
  lemma {:induction false} MarkIdempotent(m: seq<bv8>, index: int)
    requires 0 <= index < 8 * |m| && BitAt(m, index)
    ensures Mark(m, index) == m
  {
    SetBitIdempotent(m[index / 8], index % 8);
  }

  /** No bit of a zeroed buffer is set. */
  lemma ZerosUnmarked(n: nat)
    ensures Marked(Zeros(n)) == {}
  {
    forall j | 0 <= j < 8 * n ensures !BitAt(Zeros(n), j) {
      assert Zeros(n)[j / 8] == 0;
    }
  }

  /**
   * `color_in_list` (main.c): tests bit `index` and, when it is clear, sets it.
   * Returns whether the bit was already set.
   */
  method ColorInList(index: int, drawnPixelMap: array<bv8>) returns (present: bool)
    requires drawnPixelMap.Length == MapBytes
    requires 0 <= index < ColorSpace
    modifies drawnPixelMap
    ensures present == old(BitAt(drawnPixelMap[..], index))
    ensures drawnPixelMap[..] == Mark(old(drawnPixelMap[..]), index)
    ensures Marked(drawnPixelMap[..]) == old(Marked(drawnPixelMap[..])) + {index}
  {
    ghost var before := drawnPixelMap[..];
    var byteIndex := index / 8;
    var shift := index - byteIndex * 8;
    var curBitfield := drawnPixelMap[byteIndex];
    present := TestBit(curBitfield, shift);
    if !present {
      drawnPixelMap[byteIndex] := SetBit(curBitfield, shift);
      assert drawnPixelMap[..] == Mark(before, index);
    } else {
      MarkIdempotent(before, index);
    }
    MarkedAfterMark(before, index);
  }

  /** The `memset` of `drawn_pixel_map` at the start of `process_image` (main.c). */
  method ClearMap(drawnPixelMap: array<bv8>)
    modifies drawnPixelMap
    ensures drawnPixelMap[..] == Zeros(drawnPixelMap.Length)
    ensures Marked(drawnPixelMap[..]) == {}
  {
    forall j | 0 <= j < drawnPixelMap.Length {
      drawnPixelMap[j] := 0;
    }
    ZerosUnmarked(drawnPixelMap.Length);
  }

  /** After a clear, the first test of any index reports it absent and the second present. */
  lemma {:induction false} FirstTestAfterClear(index: int)
    requires 0 <= index < ColorSpace
    ensures !BitAt(Zeros(MapBytes), index)
    ensures BitAt(Mark(Zeros(MapBytes), index), index)
  {
    ZerosUnmarked(MapBytes);
    assert index !in Marked(Zeros(MapBytes));
    MarkBit(Zeros(MapBytes), index, index);
  }

  /**
   * With the index main.c computes, a colour is reported as already listed
   * although only a different colour was: after black is listed on a cleared
   * map, the test of (1, 0, 0) answers true.
   */
  lemma {:induction false} SourceIndexFalseHit()
    ensures var black, red := Color(0, 0, 0, 255), Color(1, 0, 0, 255);
      && black != red
      && !BitAt(Zeros(MapBytes), SourceIndex(red))
      && BitAt(Mark(Zeros(MapBytes), SourceIndex(black)), SourceIndex(red))
  {
    SourceIndexCollides();
    FirstTestAfterClear(0);
  }
}
