/**
 * Hexadecimal digits and numerals, shared by the clipboard string of main.c
 * (`%x`) and the `#RRGGBB` reader of color_script.py (`int(.., 16)`).
 */
module HexText {
  import opened Wrappers

  /** The lower-case hex digit for a value below 16, as `%x` prints it. */
  function HexDigit(d: int): (c: char)
    requires 0 <= d < 16
    ensures '0' <= c <= '9' || 'a' <= c <= 'f'
  {
    if d < 10 then ('0' as int + d) as char else ('a' as int + d - 10) as char
  }

  /** The value of a hex digit of either case, if `c` is one. */
  function DigitValue(c: char): (d: Option<int>)
    ensures d.Some? ==> 0 <= d.value < 16
  {
    if '0' <= c <= '9' then Some(c as int - '0' as int)
    else if 'a' <= c <= 'f' then Some(c as int - 'a' as int + 10)
    else if 'A' <= c <= 'F' then Some(c as int - 'A' as int + 10)
    else None
  }

  lemma DigitRoundTrip(d: int)
    requires 0 <= d < 16
    ensures DigitValue(HexDigit(d)) == Some(d)
  {
  }

  /** The value of a string of hex digits, most significant first ("" reads as 0). */
  function HexValue(s: string): (v: Option<int>)
    ensures v.Some? <==> forall i :: 0 <= i < |s| ==> DigitValue(s[i]).Some?
    ensures v.Some? ==> v.value >= 0
  {
    if |s| == 0 then Some(0)
    else
      var v, d := HexValue(s[..|s| - 1]), DigitValue(s[|s| - 1]);
      if v.Some? && d.Some? then Some(16 * v.value + d.value) else None
  }

  /** 16 to the power `n`. */
  function Pow16(n: nat): (p: nat)
    ensures p >= 1
  {
    if n == 0 then 1 else 16 * Pow16(n - 1)
  }

  /** Reading a concatenation: the digits of `t` are the low-order ones. */
  lemma {:induction false} HexValueAppend(s: string, t: string)
    requires HexValue(s).Some? && HexValue(t).Some?
    ensures HexValue(s + t) == Some(HexValue(s).value * Pow16(|t|) + HexValue(t).value)
    decreases |t|
  {
    if |t| == 0 {
      assert s + t == s;
    } else {
      var t' := t[..|t| - 1];
      var d := DigitValue(t[|t| - 1]);
      assert HexValue(t').Some? && d.Some?;
      var sv, tv := HexValue(s).value, HexValue(t').value;
      assert (s + t)[..|s + t| - 1] == s + t';
      assert (s + t)[|s + t| - 1] == t[|t| - 1];
      HexValueAppend(s, t');
      var p := Pow16(|t'|);
      assert HexValue(s + t) == Some(16 * (sv * p + tv) + d.value);
      assert HexValue(t) == Some(16 * tv + d.value);
      assert Pow16(|t|) == 16 * p;
      Regroup(sv, p, tv, d.value);
    }
  }

  lemma Regroup(a: int, b: int, c: int, d: int)
    ensures 16 * (a * b + c) + d == a * (16 * b) + (16 * c + d)
  {
  }

  /** `%x` of a non-negative value: no leading zeros, "0" for zero. */
  function Hex(n: nat): (s: string)
    ensures 1 <= |s| && (|s| == 1 <==> n < 16)
    ensures |s| > 1 ==> s[0] != '0'
    ensures n < 256 ==> |s| <= 2
  {
    if n < 16 then [HexDigit(n)] else Hex(n / 16) + [HexDigit(n % 16)]
  }

  /** `%x` output reads back as the value printed. */
  lemma {:induction false} HexRoundTrip(n: nat)
    ensures HexValue(Hex(n)) == Some(n)
  {
    var s := Hex(n);
    if n < 16 {
      assert s[..0] == [];
      DigitRoundTrip(n);
    } else {
      var t, d := Hex(n / 16), n % 16;
      HexRoundTrip(n / 16);
      DigitRoundTrip(d);
      assert s[..|s| - 1] == t && s[|s| - 1] == HexDigit(d);
      assert HexValue(s) == Some(16 * (n / 16) + d);
    }
  }

  /** Two hex digits, as `%02x` prints a byte. */
  function Hex2(n: int): (s: string)
    requires 0 <= n < 256
    ensures |s| == 2
  {
    [HexDigit(n / 16), HexDigit(n % 16)]
  }

  lemma {:induction false} Hex2Value(n: int)
    requires 0 <= n < 256
    ensures HexValue(Hex2(n)) == Some(n)
  {
    var s := Hex2(n);
    DigitRoundTrip(n / 16);
    DigitRoundTrip(n % 16);
    assert s[..1][..0] == [];
    assert s[..1] == [HexDigit(n / 16)];
    assert HexValue(s[..1]) == Some(n / 16);
  }
}
