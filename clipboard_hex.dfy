/**
 * The hex code main.c puts on the clipboard when a palette entry is clicked:
 * `snprintf(buf, 20, "#%x%x%x", r, g, b)`, each channel in lower-case hex
 * without padding. The string is never longer than 7 characters, so the
 * 20-byte buffer never truncates it.
 */
module ClipboardHex {
  import opened Wrappers
  import opened Colors
  import opened HexText

  /** The clipboard string of a palette colour, as main.c formats it. */
  function ClipboardText(c: Color): (s: string)
    ensures 4 <= |s| <= 7 && s[0] == '#'
  {
    "#" + Hex(c.r) + Hex(c.g) + Hex(c.b)
  }

  /**
   * Unpadded channels make the string ambiguous: (0x12, 0x3, 0x4) and
   * (0x1, 0x23, 0x4) both print as "#1234".
   */
  lemma ClipboardTextCollides()
    ensures Color(0x12, 3, 4, 255) != Color(1, 0x23, 4, 255)
    ensures ClipboardText(Color(0x12, 3, 4, 255)) == ClipboardText(Color(1, 0x23, 4, 255)) == "#1234"
  {
    assert Hex(3) == "3" && Hex(4) == "4";
    assert Hex(0x12) == "12" by { assert Hex(1) == "1"; }
    assert Hex(0x23) == "23" by { assert Hex(2) == "2"; }
  }

  /** The clipboard string with each channel padded to two digits (`"#%02x%02x%02x"`). */
  function PaddedClipboardText(c: Color): (s: string)
    ensures |s| == 7 && s[0] == '#'
  {
    "#" + Hex2(c.r) + Hex2(c.g) + Hex2(c.b)
  }

  /** Reads a `#rrggbb` string back into its three channels. */
  function ParseClipboardText(s: string): Option<(int, int, int)>
  {
    if |s| != 7 || s[0] != '#' then None
    else match (HexValue(s[1..3]), HexValue(s[3..5]), HexValue(s[5..7]))
      case (Some(r), Some(g), Some(b)) => Some((r, g, b))
      case _ => None
  }

  /** The padded form round-trips: the channels are recovered from the string. */
  lemma {:induction false} PaddedRoundTrip(c: Color)
    ensures ParseClipboardText(PaddedClipboardText(c)) == Some((c.r, c.g, c.b))
  {
    var s := PaddedClipboardText(c);
    assert s[1..3] == Hex2(c.r) && s[3..5] == Hex2(c.g) && s[5..7] == Hex2(c.b);
    Hex2Value(c.r);
    Hex2Value(c.g);
    Hex2Value(c.b);
  }

  /** Hence distinct RGB triples give distinct padded strings. */
  lemma {:induction false} PaddedInjective(c: Color, d: Color)
    requires PaddedClipboardText(c) == PaddedClipboardText(d)
    ensures (c.r, c.g, c.b) == (d.r, d.g, d.b)
  {
    PaddedRoundTrip(c);
    PaddedRoundTrip(d);
  }
}
