/**
 * Colours as the image library hands them over: four 8-bit channels.
 * The colour identity index is a parameter of every operation that needs it.
 * `SourceIndex` is the index `color_in_list` computes (main.c:75-76);
 * `PackedIndex` is the one-slot-per-triple index the 2^24-bit map
 * (main.c:156) is sized for.
 */
module Colors {

  /** An 8-bit unsigned channel value (C `unsigned char`). */
  type Byte = x: int | 0 <= x < 256

  /** raylib `Color`: red, green, blue and alpha channels. */
  datatype Color = Color(r: Byte, g: Byte, b: Byte, a: Byte)

  /** Number of distinct RGB triples (2^24), i.e. the number of bits in the pixel map. */
  const ColorSpace: int := 0x100_0000

  /** A colour index function keeps every colour inside the 24-bit map. */
  ghost predicate KeyInRange(key: Color -> int)
  {
    forall c :: 0 <= key(c) < ColorSpace
  }

  /** The packed 24-bit RGB index: one slot per distinct RGB triple, opacity ignored. */
  function PackedIndex(c: Color): (k: int)
    ensures 0 <= k < ColorSpace
    ensures k % 256 == c.r && (k / 256) % 256 == c.g && k / 65536 == c.b
  {
    c.r + 256 * c.g + 65536 * c.b
  }

  /** The colour whose packed index is `v`: the inverse of `PackedIndex`. */
  function ColorOf(v: int): (c: Color)
    requires 0 <= v < ColorSpace
    ensures PackedIndex(c) == v && c.a == 255
  {
    assert v / 256 == (v / 256) % 256 + 256 * (v / 65536);
    Color(v % 256, (v / 256) % 256, v / 65536, 255)
  }

  /**
   * The index `color_in_list` computes: `r / 255.0f + (g / 255.0f) * 256 +
   * (b / 255.0f) * 65536`, truncated to `unsigned int`, taken in exact
   * arithmetic. That sum is the packed index divided by 255, so it never
   * exceeds 65793 and 255 consecutive packed indices share one value.
   */
  function SourceIndex(c: Color): (k: int)
    ensures 0 <= k <= 65793
    ensures 255 * k <= PackedIndex(c) < 255 * (k + 1)
  {
    PackedIndex(c) / 255
  }

  /** Distinct colours collide under the index main.c computes: (1, 0, 0) and (0, 0, 0) both get 0. */
  lemma SourceIndexCollides()
    ensures Color(1, 0, 0, 255) != Color(0, 0, 0, 255)
    ensures SourceIndex(Color(1, 0, 0, 255)) == SourceIndex(Color(0, 0, 0, 255)) == 0
  {
  }

  /** Two colours share a packed index exactly when they agree on red, green and blue. */
  lemma PackedIndexInjective(c: Color, d: Color)
    ensures PackedIndex(c) == PackedIndex(d) <==> (c.r, c.g, c.b) == (d.r, d.g, d.b)
  {
    if PackedIndex(c) == PackedIndex(d) {
      assert c.r == PackedIndex(c) % 256 == d.r;
      assert c.g == (PackedIndex(c) / 256) % 256 == d.g;
      assert c.b == PackedIndex(c) / 65536 == d.b;
    }
  }
}
