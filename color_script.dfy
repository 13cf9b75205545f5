/**
 * color_script.py: the build-time script that reads a named-colour table and
 * writes the C source of that table together with a nearest-colour lookup.
 * A file is a sequence of lines as Python's `for line in file` yields them;
 * opening, writing and printing are not modelled.
 */
module ColorScript {
  import opened Wrappers
  import opened Colors
  import opened HexText
  import opened PyText

  /** One table row `(name, r, g, b)`; the channels are Python integers. */
  datatype Entry = Entry(name: string, r: int, g: int, b: int)

  function Rgb(e: Entry): (int, int, int)
  {
    (e.r, e.g, e.b)
  }

  // ---------------------------------------------------------------------------
  // parse_color_file
  // ---------------------------------------------------------------------------

  /** The tab-separated fields of a line once its surrounding blanks are stripped. */
  function Fields(line: string): (fs: seq<string>)
    ensures forall k :: 0 <= k < |fs| ==> '\t' !in fs[k]
    ensures Join(fs, '\t') == Strip(line)
  {
    SplitSpec(Strip(line), '\t');
    Split(Strip(line), '\t')
  }

  /** Only lines with exactly three fields are used; all others are skipped. */
  predicate Accepted(line: string)
  {
    |Fields(line)| == 3
  }

  /** A line is used exactly when it holds two tabs once stripped. */
  lemma AcceptedTabs(line: string)
    ensures Accepted(line) <==> multiset(Strip(line))['\t'] == 2
  {
    SplitCount(Strip(line), '\t');
  }

  /**
   * The entry of an accepted line: the first field holds the three channel
   * numbers, the third the name with its spaces made underscores. `None` where
   * `map(int, ..)` or the three-way unpacking raises `ValueError`.
   */
  function ParseLine(line: string): (e: Option<Entry>)
    requires Accepted(line)
    ensures e.Some? ==> ' ' !in e.value.name
  {
    var parts := Fields(line);
    var nums := Words(parts[0]);
    if |nums| != 3 then None
    else match (ParseInt(nums[0]), ParseInt(nums[1]), ParseInt(nums[2]))
      case (Some(r), Some(g), Some(b)) => Some(Entry(Replace(parts[2], ' ', '_'), r, g, b))
      case _ => None
  }

  /** Every accepted line parses. */
  predicate AllParse(lines: seq<string>)
  {
    |lines| > 0 ==>
      var last := lines[|lines| - 1];
      AllParse(lines[..|lines| - 1]) && (Accepted(last) ==> ParseLine(last).Some?)
  }

  /** A prefix of a file whose accepted lines all parse has the same property. */
  lemma {:induction false} AllParsePrefix(lines: seq<string>, k: nat)
    requires AllParse(lines) && k <= |lines|
    ensures AllParse(lines[..k])
    decreases |lines|
  {
    if k < |lines| {
      assert lines[..|lines| - 1][..k] == lines[..k];
      AllParsePrefix(lines[..|lines| - 1], k);
    } else {
      assert lines[..k] == lines;
    }
  }

  /** `AllParse` says of each line on its own that, when accepted, it parses. */
  lemma {:induction false} AllParseMeaning(lines: seq<string>)
    ensures AllParse(lines) <==> forall i :: 0 <= i < |lines| && Accepted(lines[i]) ==> ParseLine(lines[i]).Some?
    decreases |lines|
  {
    if |lines| > 0 {
      var init := lines[..|lines| - 1];
      AllParseMeaning(init);
      assert forall i :: 0 <= i < |init| ==> init[i] == lines[i];
    }
  }

  /** The entries of the accepted lines, in file order. */
  function Entries(lines: seq<string>): (es: seq<Entry>)
    requires AllParse(lines)
    ensures |es| <= |lines|
  {
    if |lines| == 0 then []
    else
      var last := lines[|lines| - 1];
      Entries(lines[..|lines| - 1]) + (if Accepted(last) then [ParseLine(last).value] else [])
  }

  /** The number of accepted lines. */
  function AcceptedCount(lines: seq<string>): nat
  {
    if |lines| == 0 then 0
    else AcceptedCount(lines[..|lines| - 1]) + (if Accepted(lines[|lines| - 1]) then 1 else 0)
  }

  /** One entry per accepted line, so the merged table is no longer than the number of accepted lines. */
  lemma {:induction false} EntriesCount(lines: seq<string>)
    requires AllParse(lines)
    ensures |Entries(lines)| == AcceptedCount(lines)
    ensures |Collapse(Entries(lines))| <= AcceptedCount(lines)
    decreases |lines|
  {
    if |lines| > 0 {
      EntriesCount(lines[..|lines| - 1]);
    }
  }

  /**
   * Adjacent duplicates merged: an entry is kept unless the entry right after
   * it has the same RGB, so of each run of equal RGB only the last survives.
   */
  function Collapse(es: seq<Entry>): (cs: seq<Entry>)
    ensures |cs| <= |es|
    ensures |es| > 0 ==> |cs| > 0 && cs[|cs| - 1] == es[|es| - 1] && Rgb(cs[0]) == Rgb(es[0])
  {
    if |es| <= 1 then es
    else (if Rgb(es[0]) == Rgb(es[1]) then [] else [es[0]]) + Collapse(es[1..])
  }

  /** No two neighbours share an RGB triple. */
  predicate NoAdjacentDuplicates(es: seq<Entry>)
  {
    forall k :: 0 <= k < |es| - 1 ==> Rgb(es[k]) != Rgb(es[k + 1])
  }

  /**
   * One step of the loop: the new entry replaces the last kept entry when
   * their RGB agree, and is appended otherwise.
   */
  function Push(cs: seq<Entry>, e: Entry): (cs': seq<Entry>)
    ensures |cs'| > 0 && cs'[|cs'| - 1] == e
  {
    if |cs| > 0 && Rgb(cs[|cs| - 1]) == Rgb(e) then cs[..|cs| - 1] + [e] else cs + [e]
  }

  lemma PushAfterPrefix(h: seq<Entry>, cs: seq<Entry>, e: Entry)
    requires |cs| > 0
    ensures h + Push(cs, e) == Push(h + cs, e)
  {
    if Rgb(cs[|cs| - 1]) == Rgb(e) {
      assert (h + cs)[..|h + cs| - 1] == h + cs[..|cs| - 1];
    }
  }

  /** Merging the table one entry longer is one more loop step on the merged table. */
  lemma {:induction false} CollapseSnoc(es: seq<Entry>, e: Entry)
    ensures Collapse(es + [e]) == Push(Collapse(es), e)
    decreases |es|
  {
    if |es| == 0 {
      assert es + [e] == [e];
    } else if |es| == 1 {
      assert es + [e] == [es[0], e];
      assert (es + [e])[1..] == [e];
    } else {
      var tail := es[1..];
      var head := if Rgb(es[0]) == Rgb(es[1]) then [] else [es[0]];
      assert (es + [e])[1..] == tail + [e];
      assert Collapse(es + [e]) == head + Collapse(tail + [e]);
      assert Collapse(es) == head + Collapse(tail);
      CollapseSnoc(tail, e);
      PushAfterPrefix(head, Collapse(tail), e);
    }
  }

  /** The merged table has no two neighbours with the same RGB. */
  lemma {:induction false} CollapseNoAdjacent(es: seq<Entry>)
    ensures NoAdjacentDuplicates(Collapse(es))
    decreases |es|
  {
    if |es| > 1 {
      CollapseNoAdjacent(es[1..]);
      var rest := Collapse(es[1..]);
      if Rgb(es[0]) != Rgb(es[1]) {
        assert Collapse(es) == [es[0]] + rest;
        assert Rgb(rest[0]) == Rgb(es[1]);
      }
    }
  }

  /** A table without adjacent duplicates is left as it is; so merging twice is merging once. */
  lemma {:induction false} CollapseFixed(es: seq<Entry>)
    requires NoAdjacentDuplicates(es)
    ensures Collapse(es) == es
    decreases |es|
  {
    if |es| > 1 {
      var rest := es[1..];
      forall k | 0 <= k < |rest| - 1
        ensures Rgb(rest[k]) != Rgb(rest[k + 1])
      {
        assert rest[k] == es[k + 1] && rest[k + 1] == es[k + 2];
      }
      CollapseFixed(rest);
      assert Rgb(es[0]) != Rgb(es[1]);
      assert Collapse(es) == [es[0]] + rest;
      assert es == [es[0]] + rest;
    }
  }

  /** Every kept entry is one of the input entries. */
  lemma {:induction false} CollapseKeepsInput(es: seq<Entry>)
    ensures forall k :: 0 <= k < |Collapse(es)| ==> Collapse(es)[k] in es
    decreases |es|
  {
    if |es| > 1 {
      CollapseKeepsInput(es[1..]);
    }
  }

  /** The body of the loop for an accepted line: drop the last entry if it has the new RGB, then append. */
  method PopAndAppend(colors: seq<Entry>, e: Entry) returns (colors': seq<Entry>)
    ensures colors' == Push(colors, e)
  {
    colors' := colors;
    if |colors'| > 0 && Rgb(colors'[|colors'| - 1]) == Rgb(e) {
      colors' := colors'[..|colors'| - 1];
    }
    colors' := colors' + [e];
  }

  /**
   * `parse_color_file` over the lines of a file: the accepted lines' entries
   * with adjacent duplicates merged, or the index of the first accepted line
   * whose numbers raise `ValueError`.
   */
  method ParseColorFile(lines: seq<string>) returns (result: Result<seq<Entry>, nat>)
    ensures result.Success? <==> AllParse(lines)
    ensures result.Success? ==> result.value == Collapse(Entries(lines))
    ensures result.Failure? ==>
      && result.error < |lines|
      && Accepted(lines[result.error])
      && ParseLine(lines[result.error]).None?
      && AllParse(lines[..result.error])
  {
    var colors: seq<Entry> := [];
    for i := 0 to |lines|
      invariant AllParse(lines[..i])
      invariant colors == Collapse(Entries(lines[..i]))
    {
      ParseStep(lines, i);
      if Accepted(lines[i]) {
        var e := ParseLine(lines[i]);
        if e.None? {
          if AllParse(lines) {
            AllParsePrefix(lines, i + 1);
          }
          return Failure(i);
        }
        CollapseSnoc(Entries(lines[..i]), e.value);
        colors := PopAndAppend(colors, e.value);
      }
    }
    assert lines[..|lines|] == lines;
    return Success(colors);
  }

  /** What one more line adds to `AllParse` and to `Entries`. */
  lemma ParseStep(lines: seq<string>, i: nat)
    requires i < |lines|
    ensures AllParse(lines[..i + 1]) <==> AllParse(lines[..i]) && (Accepted(lines[i]) ==> ParseLine(lines[i]).Some?)
    ensures AllParse(lines[..i + 1]) && Accepted(lines[i]) ==> Entries(lines[..i + 1]) == Entries(lines[..i]) + [ParseLine(lines[i]).value]
    ensures AllParse(lines[..i + 1]) && !Accepted(lines[i]) ==> Entries(lines[..i + 1]) == Entries(lines[..i])
  {
    assert lines[..i + 1][..i] == lines[..i];
  }

  /** The names of the parsed table hold no spaces. */
  lemma {:induction false} ParsedNamesHaveNoSpaces(lines: seq<string>)
    requires AllParse(lines)
    ensures forall k :: 0 <= k < |Collapse(Entries(lines))| ==> ' ' !in Collapse(Entries(lines))[k].name
    decreases |lines|
  {
    var es := Entries(lines);
    CollapseKeepsInput(es);
    if |lines| > 0 {
      ParsedNamesHaveNoSpaces(lines[..|lines| - 1]);
      EntriesNamesHaveNoSpaces(lines[..|lines| - 1]);
    }
    EntriesNamesHaveNoSpaces(lines);
  }

  lemma {:induction false} EntriesNamesHaveNoSpaces(lines: seq<string>)
    requires AllParse(lines)
    ensures forall e :: e in Entries(lines) ==> ' ' !in e.name
    decreases |lines|
  {
    if |lines| > 0 {
      EntriesNamesHaveNoSpaces(lines[..|lines| - 1]);
    }
  }

  lemma {:induction false} WordsOfNumbers(a: string, b: string, c: string)
    requires |a| > 0 && NoSpace(a) && |b| > 0 && NoSpace(b) && |c| > 0 && NoSpace(c)
    ensures Words(a + " " + b + " " + c) == [a, b, c]
  {
    var tc := " " + c;
    var tb := " " + (b + tc);
    assert tc[1..] == c && tb[1..] == b + tc;
    WordsLeading(c, "");
    assert c + "" == c;
    WordsLeading(b, tc);
    WordsLeading(a, tb);
    SpacedRegroup(a, b, c);
  }

  lemma SpacedRegroup(a: string, b: string, c: string)
    ensures a + " " + b + " " + c == a + (" " + (b + (" " + c)))
  {
  }

  /** A word followed by nothing or by a blank is the first word. */
  lemma {:induction false} WordsLeading(w: string, rest: string)
    requires |w| > 0 && NoSpace(w)
    requires |rest| == 0 || IsSpace(rest[0])
    ensures Words(w + rest) == [w] + (if |rest| == 0 then [] else Words(rest[1..]))
  {
    var s := w + rest;
    WordOfWord(w, rest);
    assert s[|w|..] == rest;
    if |rest| > 0 {
      assert Words(rest) == Words(rest[1..]);
    }
  }

  lemma {:induction false} WordOfWord(w: string, rest: string)
    requires NoSpace(w)
    requires |rest| == 0 || IsSpace(rest[0])
    ensures Word(w + rest) == w
    decreases |w|
  {
    if |w| > 0 {
      assert (w + rest)[1..] == w[1..] + rest;
      WordOfWord(w[1..], rest);
      assert w == [w[0]] + w[1..];
    } else {
      assert w + rest == rest;
    }
  }

  lemma NumbersHaveNoTab(a: string, b: string, c: string)
    requires forall i :: 0 <= i < |a| ==> a[i] == '-' || '0' <= a[i] <= '9'
    requires forall i :: 0 <= i < |b| ==> b[i] == '-' || '0' <= b[i] <= '9'
    requires forall i :: 0 <= i < |c| ==> c[i] == '-' || '0' <= c[i] <= '9'
    ensures '\t' !in a + " " + b + " " + c
  {
    var s := a + " " + b + " " + c;
    forall i | 0 <= i < |s| ensures s[i] != '\t' {
      if i < |a| {
        assert s[i] == a[i];
      } else if |a| < i <= |a| + |b| {
        assert s[i] == b[i - |a| - 1];
      } else if |a| + |b| + 1 < i {
        assert s[i] == c[i - |a| - |b| - 2];
      }
    }
  }

  /**
   * A line written in the layout the parser expects, `r g b<TAB>..<TAB>name`,
   * followed by any trailing whitespace such as the `"\n"` that iterating over
   * a file leaves on each line, parses back to its numbers and to the name with
   * spaces made underscores.
   */
  lemma {:induction false} ParseLineRoundTrip(r: int, g: int, b: int, mid: string, name: string, rest: string)
    requires '\t' !in mid && '\t' !in name
    requires |name| > 0 && !IsSpace(name[|name| - 1])
    requires forall i :: 0 <= i < |rest| ==> IsSpace(rest[i])
    ensures var line := IntToString(r) + " " + IntToString(g) + " " + IntToString(b) + "\t" + mid + "\t" + name + rest;
      Accepted(line) && ParseLine(line) == Some(Entry(Replace(name, ' ', '_'), r, g, b))
  {
    var core := IntToString(r) + " " + IntToString(g) + " " + IntToString(b) + "\t" + mid + "\t" + name;
    ParseCoreLine(r, g, b, mid, name);
    ParsePadded(core, rest);
  }

  /** Trailing whitespace changes neither whether a line is used nor what it parses to. */
  lemma ParsePadded(core: string, rest: string)
    requires |core| > 0 && !IsSpace(core[0]) && !IsSpace(core[|core| - 1])
    requires forall i :: 0 <= i < |rest| ==> IsSpace(rest[i])
    ensures Accepted(core + rest) == Accepted(core)
    ensures Accepted(core) ==> ParseLine(core + rest) == ParseLine(core)
  {
    StripPadded("", core, rest);
    StripPadded("", core, "");
    assert "" + core + rest == core + rest;
    assert "" + core + "" == core;
    assert Fields(core + rest) == Fields(core);
  }

  /** `ParseLineRoundTrip` for a line without trailing whitespace; also, such a line is its own strip. */
  lemma {:induction false} ParseCoreLine(r: int, g: int, b: int, mid: string, name: string)
    requires '\t' !in mid && '\t' !in name
    requires |name| > 0 && !IsSpace(name[|name| - 1])
    ensures var line := IntToString(r) + " " + IntToString(g) + " " + IntToString(b) + "\t" + mid + "\t" + name;
      Strip(line) == line && |line| > 0 && !IsSpace(line[0]) && !IsSpace(line[|line| - 1])
      && Accepted(line) && ParseLine(line) == Some(Entry(Replace(name, ' ', '_'), r, g, b))
  {
    var nums := IntToString(r) + " " + IntToString(g) + " " + IntToString(b);
    var line := nums + "\t" + mid + "\t" + name;
    NumbersHaveNoTab(IntToString(r), IntToString(g), IntToString(b));
    JoinThree(nums, mid, name, '\t');
    StripPadded("", line, "");
    assert "" + line + "" == line;
    var parts := [nums, mid, name];
    assert forall k :: 0 <= k < 3 ==> '\t' !in parts[k];
    SplitJoin(parts, '\t');
    WordsOfNumbers(IntToString(r), IntToString(g), IntToString(b));
    ParseIntRoundTrip(r);
    ParseIntRoundTrip(g);
    ParseIntRoundTrip(b);
  }

  // ---------------------------------------------------------------------------
  // The `#RRGGBB` reader of `__main__`
  // ---------------------------------------------------------------------------

  /**
   * `int(s, 16)`: blanks around, an optional sign, an optional `0x`/`0X`, then
   * at least one hex digit of either case; anything else raises (`None`).
   */
  function ParseHexInt(s: string): (r: Option<int>)
    ensures r.Some? ==> |Strip(s)| > 0 && (r.value < 0 ==> Strip(s)[0] == '-')
  {
    var t := Strip(s);
    var negative := |t| > 0 && t[0] == '-';
    var u := if |t| > 0 && (t[0] == '-' || t[0] == '+') then t[1..] else t;
    var digits := if |u| >= 2 && u[0] == '0' && (u[1] == 'x' || u[1] == 'X') then u[2..] else u;
    if |digits| == 0 then None
    else match HexValue(digits)
      case Some(v) => Some(if negative then -v else v)
      case None => None
  }

  /**
   * `v >> 16 & 0xFF`, `v >> 8 & 0xFF` and `v & 0xFF`. Python's `>>` rounds
   * toward minus infinity and `& 0xFF` keeps the low byte of the two's
   * complement, which are Dafny's `/` and `%` by a positive divisor.
   */
  function Channels(v: int): (c: (int, int, int))
    ensures 0 <= c.0 < 256 && 0 <= c.1 < 256 && 0 <= c.2 < 256
  {
    ((v / 0x1_0000) % 256, (v / 0x100) % 256, v % 256)
  }

  /** For a 24-bit value the three channels put back together (`r << 16 | g << 8 | b`) give the value. */
  lemma ChannelsPack(v: int)
    requires 0 <= v < 0x100_0000
    ensures var (r, g, b) := Channels(v); 0x1_0000 * r + 0x100 * g + b == v
  {
    var (r, g, b) := Channels(v);
    assert v / 0x1_0000 == r;
    assert (v / 0x100) == 0x100 * r + g;
  }

  /** And three channels packed into a value are read back unchanged. */
  lemma PackChannels(r: int, g: int, b: int)
    requires 0 <= r < 256 && 0 <= g < 256 && 0 <= b < 256
    ensures Channels(0x1_0000 * r + 0x100 * g + b) == (r, g, b)
  {
    var v := 0x1_0000 * r + 0x100 * g + b;
    assert v / 0x100 == 0x100 * r + g;
    assert v / 0x1_0000 == r;
  }

  /**
   * One line of the hex table as `__main__` reads it: the name is the first
   * tab-separated field as it stands, the colour the second field without its
   * first character. `None` where `parts[1]` raises `IndexError` or
   * `int(.., 16)` raises `ValueError`.
   */
  function HexLine(line: string): (e: Option<Entry>)
    ensures e.Some? ==> 0 <= e.value.r < 256 && 0 <= e.value.g < 256 && 0 <= e.value.b < 256
  {
    var parts := Split(line, '\t');
    if |parts| < 2 then None
    else
      var color := if |parts[1]| == 0 then "" else parts[1][1..];
      match ParseHexInt(color)
        case None => None
        case Some(v) => var c := Channels(v); Some(Entry(parts[0], c.0, c.1, c.2))
  }

  lemma {:induction false} HexValueOfHex6(r: int, g: int, b: int)
    requires 0 <= r < 256 && 0 <= g < 256 && 0 <= b < 256
    ensures HexValue(Hex2(r) + Hex2(g) + Hex2(b)) == Some(0x1_0000 * r + 0x100 * g + b)
  {
    Hex2Value(r);
    Hex2Value(g);
    Hex2Value(b);
    HexValueOfPairs(Hex2(r), Hex2(g), Hex2(b), r, g, b);
  }

  /** Three two-digit groups read as one six-digit number. */
  lemma {:induction false} HexValueOfPairs(rs: string, gs: string, bs: string, r: int, g: int, b: int)
    requires |gs| == 2 && |bs| == 2
    requires HexValue(rs) == Some(r) && HexValue(gs) == Some(g) && HexValue(bs) == Some(b)
    ensures HexValue(rs + gs + bs) == Some(0x1_0000 * r + 0x100 * g + b)
  {
    var p := Pow16(2);
    assert p == 256;
    HexValueAppend(rs, gs);
    HexValueAppend(rs + gs, bs);
    ShiftByte(r, g, b, p);
  }

  lemma ShiftByte(r: int, g: int, b: int, p: int)
    requires p == 256
    ensures (r * p + g) * p + b == 0x1_0000 * r + 0x100 * g + b
  {
  }

  /**
   * A line of the form `name<TAB>#rrggbb`, with or without its newline,
   * reads back as that name and those channels.
   */
  lemma {:induction false} HexLineRoundTrip(name: string, r: int, g: int, b: int, rest: string)
    requires '\t' !in name && 0 <= r < 256 && 0 <= g < 256 && 0 <= b < 256
    requires rest == "" || rest == "\n"
    ensures HexLine(name + "\t#" + Hex2(r) + Hex2(g) + Hex2(b) + rest) == Some(Entry(name, r, g, b))
  {
    var hex := Hex2(r) + Hex2(g) + Hex2(b);
    var field := "#" + hex + rest;
    HexLineRegroup(name, Hex2(r), Hex2(g), Hex2(b), rest);
    Hex6Digits(r, g, b);
    FieldHasNoTab(hex, rest);
    SplitAtTab(name, field);
    FieldTail(hex, rest);
    HexValueOfHex6(r, g, b);
    ParseHex6(hex, rest, 0x1_0000 * r + 0x100 * g + b);
    HexLineOf(name + ['\t'] + field, name, field, r, g, b);
  }

  lemma SplitAtTab(name: string, field: string)
    requires '\t' !in name && '\t' !in field
    ensures Split(name + ['\t'] + field, '\t') == [name, field]
  {
    JoinTwo(name, field, '\t');
    SplitJoin([name, field], '\t');
  }

  lemma FieldTail(hex: string, rest: string)
    ensures ("#" + hex + rest)[1..] == hex + rest
  {
  }

  lemma HexLineOf(line: string, name: string, field: string, r: int, g: int, b: int)
    requires 0 <= r < 256 && 0 <= g < 256 && 0 <= b < 256
    requires Split(line, '\t') == [name, field] && |field| > 0
    requires ParseHexInt(field[1..]) == Some(0x1_0000 * r + 0x100 * g + b)
    ensures HexLine(line) == Some(Entry(name, r, g, b))
  {
    PackChannels(r, g, b);
  }

  lemma HexLineRegroup(name: string, x: string, y: string, z: string, rest: string)
    ensures name + "\t#" + x + y + z + rest == name + ['\t'] + ("#" + (x + y + z) + rest)
  {
  }

  /** The six characters of `#rrggbb` after the `#` are lower-case hex digits. */
  lemma Hex6Digits(r: int, g: int, b: int)
    requires 0 <= r < 256 && 0 <= g < 256 && 0 <= b < 256
    ensures var hex := Hex2(r) + Hex2(g) + Hex2(b);
      |hex| == 6 && forall i :: 0 <= i < 6 ==> '0' <= hex[i] <= '9' || 'a' <= hex[i] <= 'f'
  {
  }

  lemma FieldHasNoTab(hex: string, rest: string)
    requires forall i :: 0 <= i < |hex| ==> '0' <= hex[i] <= '9' || 'a' <= hex[i] <= 'f'
    requires forall i :: 0 <= i < |rest| ==> rest[i] != '\t'
    ensures '\t' !in "#" + hex + rest
  {
    var field := "#" + hex + rest;
    forall i | 0 <= i < |field| ensures field[i] != '\t' {
      if 1 <= i <= |hex| {
        assert field[i] == hex[i - 1];
      } else if i > |hex| {
        assert field[i] == rest[i - 1 - |hex|];
      }
    }
  }

  /** `int(hex + rest, 16)` for six hex digits, with or without the newline. */
  lemma ParseHex6(hex: string, rest: string, v: int)
    requires |hex| == 6 && forall i :: 0 <= i < 6 ==> '0' <= hex[i] <= '9' || 'a' <= hex[i] <= 'f'
    requires rest == "" || rest == "\n"
    requires HexValue(hex) == Some(v)
    ensures ParseHexInt(hex + rest) == Some(v)
  {
    StripPadded("", hex, rest);
    assert "" + hex + rest == hex + rest;
    ParseStrippedHex(hex + rest, hex, v);
  }

  /** `int(s, 16)` when `s` strips to plain hex digits without a sign or a `0x`. */
  lemma ParseStrippedHex(s: string, t: string, v: int)
    requires Strip(s) == t && |t| >= 2
    requires '0' <= t[0] <= '9' || 'a' <= t[0] <= 'f'
    requires '0' <= t[1] <= '9' || 'a' <= t[1] <= 'f'
    requires HexValue(t) == Some(v)
    ensures ParseHexInt(s) == Some(v)
  {
  }

  /**
   * The loop of `__main__`: one entry per line, in order, or the index of the
   * first line that raises.
   */
  method ReadHexTable(lines: seq<string>) returns (result: Result<seq<Entry>, nat>)
    ensures result.Success? ==>
      |result.value| == |lines| && forall i :: 0 <= i < |lines| ==> HexLine(lines[i]) == Some(result.value[i])
    ensures result.Failure? ==>
      && result.error < |lines|
      && HexLine(lines[result.error]).None?
      && forall i :: 0 <= i < result.error ==> HexLine(lines[i]).Some?
  {
    var colors: seq<Entry> := [];
    for i := 0 to |lines|
      invariant |colors| == i
      invariant forall j :: 0 <= j < i ==> HexLine(lines[j]) == Some(colors[j])
    {
      var e := HexLine(lines[i]);
      if e.None? {
        return Failure(i);
      }
      colors := colors + [e.value];
    }
    return Success(colors);
  }

  // ---------------------------------------------------------------------------
  // generate_c_array
  // ---------------------------------------------------------------------------

  /** Each line followed by a newline, all concatenated. */
  function Terminated(ls: seq<string>): string
  {
    if |ls| == 0 then "" else ls[0] + "\n" + Terminated(ls[1..])
  }

  lemma {:induction false} TerminatedAppend(a: seq<string>, b: seq<string>)
    ensures Terminated(a + b) == Terminated(a) + Terminated(b)
    decreases |a|
  {
    if |a| == 0 {
      assert a + b == b;
    } else {
      assert (a + b)[1..] == a[1..] + b;
      TerminatedAppend(a[1..], b);
    }
  }

  /** Joining with newlines is terminating all lines but the last. */
  lemma {:induction false} JoinTerminated(a: seq<string>, last: string)
    ensures Join(a + [last], '\n') == Terminated(a) + last
    decreases |a|
  {
    if |a| == 0 {
      assert a + [last] == [last];
    } else {
      assert (a + [last])[1..] == a[1..] + [last];
      JoinTerminated(a[1..], last);
    }
  }

  const TypedefLine: string := "typedef struct { const char* name; unsigned char r, g, b; } Color;"

  /** The lines before the initializers. */
  const HeaderLines: seq<string> := [TypedefLine, "", "Color colors[] = {"]

  /** A table row `{ "name", r, g, b },` indented by four spaces, from the texts of its fields. */
  function Row(name: string, rs: string, gs: string, bs: string): string
  {
    "    { \"" + name + "\", " + rs + ", " + gs + ", " + bs + " },"
  }

  /** The initializer of one table row, the channels printed in decimal. */
  function Initializer(e: Entry): (line: string)
    ensures '\n' !in e.name ==> '\n' !in line
  {
    NoNewlineInInt(e.r);
    NoNewlineInInt(e.g);
    NoNewlineInInt(e.b);
    Row(e.name, IntToString(e.r), IntToString(e.g), IntToString(e.b))
  }

  function Initializers(es: seq<Entry>): seq<string>
  {
    if |es| == 0 then [] else Initializers(es[..|es| - 1]) + [Initializer(es[|es| - 1])]
  }

  /** One initializer per row, in row order. */
  lemma {:induction false} InitializersSpec(es: seq<Entry>)
    ensures |Initializers(es)| == |es|
    ensures forall k :: 0 <= k < |es| ==> Initializers(es)[k] == Initializer(es[k])
    decreases |es|
  {
    if |es| > 0 {
      var init := es[..|es| - 1];
      InitializersSpec(init);
      var ls, last := Initializers(init), Initializer(es[|es| - 1]);
      assert Initializers(es) == ls + [last];
      forall k | 0 <= k < |es| ensures Initializers(es)[k] == Initializer(es[k]) {
        if k < |init| {
          assert (ls + [last])[k] == ls[k];
          assert init[k] == es[k];
        } else {
          assert k == |es| - 1;
        }
      }
    }
  }

  function CountLine(n: nat): string
  {
    "const int color_count = " + IntToString(n) + ";"
  }

  /** The emitted nearest-colour function, line by line. */
  const FindClosestColorLines: seq<string> := [
    "const char* find_closest_color(unsigned char r, unsigned char g, unsigned char b) {",
    "    int min_distance = 195076; // Maximum possible distance in RGB space",
    "    const char* closest_color = \"Unknown\";",
    "    for (int i = 0; i < color_count; i++) {",
    "        int dr = colors[i].r - r;",
    "        int dg = colors[i].g - g;",
    "        int db = colors[i].b - b;",
    "        int distance = dr * dr + dg * dg + db * db;",
    "        if (distance < min_distance) {",
    "            min_distance = distance;",
    "            closest_color = colors[i].name;",
    "        }",
    "    }",
    "    return closest_color;",
    "}"]

  /** The lines after the initializers: the closing brace, the count and the lookup function. */
  function FooterLines(n: nat): seq<string>
  {
    ["};", "", CountLine(n), ""] + FindClosestColorLines
  }

  /** The lines of the generated C source, the last one empty (the text ends in a newline). */
  function CArrayLines(colors: seq<Entry>): (ls: seq<string>)
    ensures |ls| >= 23 && ls[..3] == HeaderLines && ls[|ls| - 1] == ""
  {
    HeaderLines + Initializers(colors) + FooterLines(|colors|) + [""]
  }

  lemma TerminatedTwo(a: string, b: string)
    ensures Terminated([a, b]) == a + "\n" + b + "\n"
  {
    assert [a, b][1..] == [b];
    assert [b][1..] == [];
    assert Terminated([b]) == b + "\n";
    assert a + "\n" + (b + "\n") == a + "\n" + b + "\n";
  }

  lemma TerminatedThree(a: string, b: string, c: string)
    ensures Terminated([a, b, c]) == a + "\n" + b + "\n" + c + "\n"
  {
    assert [a, b, c][1..] == [b, c];
    TerminatedTwo(b, c);
    assert a + "\n" + (b + "\n" + c + "\n") == a + "\n" + b + "\n" + c + "\n";
  }

  /** The two writes before the loop produce the header lines. */
  lemma HeaderText()
    ensures Terminated(HeaderLines) == TypedefLine + "\n\n" + "Color colors[] = {\n"
  {
    TerminatedThree(TypedefLine, "", "Color colors[] = {");
  }

  /** The two writes after the loop, then the lookup function `f`, produce the footer lines. */
  lemma FooterText(n: nat, f: seq<string>)
    ensures Terminated(["};", "", CountLine(n), ""] + f) == "};\n\n" + CountLine(n) + "\n\n" + Terminated(f)
  {
    var c := CountLine(n);
    assert ["};", "", c, ""] == ["};", ""] + [c, ""];
    TerminatedAppend(["};", ""], [c, ""]);
    TerminatedAppend(["};", ""] + [c, ""], f);
    TerminatedTwo("};", "");
    TerminatedTwo(c, "");
    assert "};" + "\n" + "" + "\n" == "};\n\n";
    assert c + "\n" + "" + "\n" == c + "\n\n";
  }

  lemma InitializersSnoc(colors: seq<Entry>, i: nat)
    requires i < |colors|
    ensures Terminated(Initializers(colors[..i + 1])) == Terminated(Initializers(colors[..i])) + Initializer(colors[i]) + "\n"
  {
    assert colors[..i + 1][..i] == colors[..i];
    TerminatedSnoc(Initializers(colors[..i]), Initializer(colors[i]));
  }

  lemma TerminatedSnoc(ls: seq<string>, line: string)
    ensures Terminated(ls + [line]) == Terminated(ls) + line + "\n"
  {
    TerminatedAppend(ls, [line]);
    assert [line][1..] == [];
    assert Terminated([line]) == line + "\n" + "";
    AppendLine(Terminated(ls), "", line);
  }

  /** The whole text: header, one line per row, footer. */
  lemma CArrayText(colors: seq<Entry>)
    ensures Join(CArrayLines(colors), '\n')
      == Terminated(HeaderLines) + Terminated(Initializers(colors)) + Terminated(FooterLines(|colors|))
  {
    JoinTerminated(HeaderLines + Initializers(colors) + FooterLines(|colors|), "");
    TerminatedAppend(HeaderLines + Initializers(colors), FooterLines(|colors|));
    TerminatedAppend(HeaderLines, Initializers(colors));
  }

  /** `generate_c_array`: the C source, built by appending to `c_code` piece by piece. */
  method GenerateCArray(colors: seq<Entry>) returns (cCode: string)
    ensures cCode == Join(CArrayLines(colors), '\n')
  {
    cCode := TypedefLine + "\n\n";
    cCode := cCode + "Color colors[] = {\n";
    HeaderText();
    ghost var header := cCode;
    assert colors[..0] == [];
    for i := 0 to |colors|
      invariant cCode == header + Terminated(Initializers(colors[..i]))
    {
      InitializersSnoc(colors, i);
      AppendLine(header, Terminated(Initializers(colors[..i])), Initializer(colors[i]));
      cCode := cCode + Initializer(colors[i]) + "\n";
    }
    assert colors[..|colors|] == colors;
    ghost var body := Terminated(Initializers(colors));
    cCode := cCode + "};\n\n";
    cCode := cCode + CountLine(|colors|) + "\n\n";
    cCode := cCode + Terminated(FindClosestColorLines);
    FooterText(|colors|, FindClosestColorLines);
    CArrayText(colors);
    AppendFooter(header, body, "};\n\n", CountLine(|colors|), "\n\n", Terminated(FindClosestColorLines));
  }

  lemma AppendLine(a: string, b: string, line: string)
    ensures a + b + line + "\n" == a + (b + line + "\n")
  {
  }

  lemma AppendFooter(a: string, b: string, c: string, d: string, e: string, f: string)
    ensures a + b + c + d + e + f == a + b + (c + d + e + f)
  {
  }

  lemma NoNewlineInInt(n: int)
    ensures '\n' !in IntToString(n) && '"' !in IntToString(n) && ',' !in IntToString(n)
  {
  }


  /**
   * With no newline in any name, the block the loop writes splits into exactly
   * one line per colour, in input order (and the empty rest after the last
   * newline).
   */
  lemma {:induction false} InitializerBlockLines(colors: seq<Entry>)
    requires forall k :: 0 <= k < |colors| ==> '\n' !in colors[k].name
    ensures Split(Terminated(Initializers(colors)), '\n') == Initializers(colors) + [""]
  {
    var inits := Initializers(colors);
    InitializersSpec(colors);
    var ls := inits + [""];
    forall k | 0 <= k < |ls| ensures '\n' !in ls[k] {
      if k < |colors| {
        assert ls[k] == inits[k];
      }
    }
    JoinTerminated(inits, "");
    assert Terminated(inits) + "" == Terminated(inits);
    SplitJoin(ls, '\n');
  }

  /**
   * Where things sit in the generated lines: the three header lines, then
   * line `3 + k` holds the initializer of `colors[k]`, and two lines after the
   * last initializer comes the count.
   */
  lemma CArrayLayout(colors: seq<Entry>)
    ensures |CArrayLines(colors)| == |colors| + 23
    ensures forall k :: 0 <= k < |colors| ==> CArrayLines(colors)[3 + k] == Initializer(colors[k])
    ensures CArrayLines(colors)[|colors| + 5] == CountLine(|colors|)
  {
    InitializersSpec(colors);
    var footer := FooterLines(|colors|);
    assert |FindClosestColorLines| == 15;
    assert |footer| == 19 && footer[2] == CountLine(|colors|);
    LayoutOf(HeaderLines, Initializers(colors), footer);
  }

  lemma LayoutOf(header: seq<string>, inits: seq<string>, footer: seq<string>)
    requires |header| == 3 && |footer| >= 3
    ensures var ls := header + inits + footer + [""];
      && |ls| == |inits| + |footer| + 4
      && (forall k :: 0 <= k < |inits| ==> ls[3 + k] == inits[k])
      && ls[|inits| + 5] == footer[2]
  {
  }

  /** `color_count` reads back as the number of table rows. */
  lemma {:induction false} ColorCountRoundTrip(n: nat)
    ensures var line := CountLine(n);
      |line| > 25 && line[..24] == "const int color_count = " && ParseInt(line[24..|line| - 1]) == Some(n)
  {
    var line := CountLine(n);
    assert line[24..|line| - 1] == IntToString(n);
    ParseIntRoundTrip(n);
  }

  /**
   * Reads an initializer line back: the text between the first two quotes is
   * the name, then three comma-separated numbers and ` }` before the final comma.
   */
  function ParseInitializer(line: string): Option<Entry>
  {
    var q := Split(line, '"');
    if |q| != 3 || q[0] != "    { " then None
    else
      var f := Split(q[2], ',');
      if |f| != 5 || f[0] != "" || f[4] != "" || |f[3]| < 2 || f[3][|f[3]| - 2..] != " }" then None
      else
        var r, g, b := ParseInt(Strip(f[1])), ParseInt(Strip(f[2])), ParseInt(Strip(f[3][..|f[3]| - 2]));
        if r.Some? && g.Some? && b.Some? then Some(Entry(q[1], r.value, g.value, b.value)) else None
  }

  lemma {:induction false} StripNumber(n: int)
    ensures Strip(" " + IntToString(n)) == IntToString(n)
  {
    var s := IntToString(n);
    StripPadded(" ", s, "");
    assert " " + s + "" == " " + s;
  }

  /** A row reads back as the name and the numbers its fields hold, when no field has a quote or comma. */
  lemma ParseRow(name: string, rs: string, gs: string, bs: string, r: int, g: int, b: int)
    requires '"' !in name
    requires '"' !in rs && '"' !in gs && '"' !in bs && ',' !in rs && ',' !in gs && ',' !in bs
    requires ParseInt(Strip(" " + rs)) == Some(r) && ParseInt(Strip(" " + gs)) == Some(g)
    requires ParseInt(Strip(" " + bs)) == Some(b)
    ensures ParseInitializer(Row(name, rs, gs, bs)) == Some(Entry(name, r, g, b))
  {
    InitializerQuotes(name, rs, gs, bs);
    TailFields(rs, gs, bs);
    var last := " " + bs + " }";
    assert |last| >= 2 && last[|last| - 2..] == " }" && last[..|last| - 2] == " " + bs;
  }

  /** Each initializer holds its row: name and channels read back unchanged when the name has no quote. */
  lemma {:induction false} InitializerRoundTrip(e: Entry)
    requires '"' !in e.name
    ensures ParseInitializer(Initializer(e)) == Some(e)
  {
    NoNewlineInInt(e.r);
    NoNewlineInInt(e.g);
    NoNewlineInInt(e.b);
    StripNumber(e.r);
    StripNumber(e.g);
    StripNumber(e.b);
    ParseIntRoundTrip(e.r);
    ParseIntRoundTrip(e.g);
    ParseIntRoundTrip(e.b);
    ParseRow(e.name, IntToString(e.r), IntToString(e.g), IntToString(e.b), e.r, e.g, e.b);
  }

  /** The quotes split an initializer into its indent, the name and the numbers. */
  lemma InitializerQuotes(name: string, rs: string, gs: string, bs: string)
    requires '"' !in name && '"' !in rs && '"' !in gs && '"' !in bs
    ensures Split("    { \"" + name + "\", " + rs + ", " + gs + ", " + bs + " },", '"')
      == ["    { ", name, ", " + rs + ", " + gs + ", " + bs + " },"]
  {
    var tail := ", " + rs + ", " + gs + ", " + bs + " },";
    assert "    { \"" == "    { " + ['"'];
    assert "\", " == ['"'] + ", ";
    RowRegroup("    { ", ['"'], name, ", ", rs, gs, bs, " },");
    assert '"' !in tail;
    SplitThree("    { ", name, tail, '"');
  }

  /** Moving the quotes of a row out of the literals around them. */
  lemma RowRegroup(indent: string, q: string, name: string, c: string, rs: string, gs: string, bs: string, close: string)
    ensures (indent + q) + name + (q + c) + rs + c + gs + c + bs + close
      == indent + q + name + q + (c + rs + c + gs + c + bs + close)
  {
  }

  /** The commas split the numbers part into five fields. */
  lemma TailFields(rs: string, gs: string, bs: string)
    requires ',' !in rs && ',' !in gs && ',' !in bs
    ensures Split(", " + rs + ", " + gs + ", " + bs + " },", ',') == ["", " " + rs, " " + gs, " " + bs + " }", ""]
  {
    assert ", " == [','] + " ";
    assert " }," == " }" + [','];
    TailRegroup([','], " ", rs, gs, bs, " }");
    SplitFive("", " " + rs, " " + gs, " " + bs + " }", "", ',');
  }

  /** Moving the commas of the numbers part out of the literals around them. */
  lemma TailRegroup(c: string, sp: string, rs: string, gs: string, bs: string, close: string)
    ensures "" + c + (sp + rs) + c + (sp + gs) + c + (sp + bs + close) + c + ""
      == (c + sp) + rs + (c + sp) + gs + (c + sp) + bs + (close + c)
  {
  }

  // ---------------------------------------------------------------------------
  // The emitted find_closest_color
  // ---------------------------------------------------------------------------

  /** A row of the emitted C table: the initializer's values stored as `unsigned char`. */
  datatype CColor = CColor(name: string, r: Byte, g: Byte, b: Byte)

  /** The C table the generated initializers define; C converts each channel to `unsigned char`, modulo 256. */
  function CTable(colors: seq<Entry>): (t: seq<CColor>)
    ensures |t| == |colors|
    ensures forall k :: 0 <= k < |t| ==>
              (0 <= colors[k].r < 256 && 0 <= colors[k].g < 256 && 0 <= colors[k].b < 256 ==>
                 t[k] == CColor(colors[k].name, colors[k].r, colors[k].g, colors[k].b))
  {
    seq(|colors|, k requires 0 <= k < |colors| => CColor(colors[k].name, colors[k].r % 256, colors[k].g % 256, colors[k].b % 256))
  }

  lemma SquareBound(x: int)
    requires -255 <= x <= 255
    ensures 0 <= x * x <= 65025
  {
    var a := if x < 0 then -x else x;
    assert x * x == a * a;
    MulMonotone(a, a, 255);
    MulMonotone(255, a, 255);
  }

  lemma MulMonotone(a: int, b: int, c: int)
    requires 0 <= a && 0 <= b <= c
    ensures 0 <= a * b <= a * c
  {
  }

  /** Squared RGB distance; at most 3 * 255^2 = 195075, below the initial 195076. */
  function Distance(c: CColor, r: Byte, g: Byte, b: Byte): (d: int)
    ensures 0 <= d <= 195075
  {
    SquareBound(c.r - r);
    SquareBound(c.g - g);
    SquareBound(c.b - b);
    (c.r - r) * (c.r - r) + (c.g - g) * (c.g - g) + (c.b - b) * (c.b - b)
  }

  /** Entry `i` is at minimal distance and no earlier entry is. */
  ghost predicate IsFirstClosest(colors: seq<CColor>, r: Byte, g: Byte, b: Byte, i: int)
  {
    && 0 <= i < |colors|
    && (forall j :: 0 <= j < |colors| ==> Distance(colors[i], r, g, b) <= Distance(colors[j], r, g, b))
    && (forall j :: 0 <= j < i ==> Distance(colors[j], r, g, b) > Distance(colors[i], r, g, b))
  }

  /**
   * The emitted `find_closest_color`: the name of the first entry at minimal
   * squared distance; "Unknown" for an empty table.
   */
  method FindClosestColor(colors: seq<CColor>, r: Byte, g: Byte, b: Byte) returns (closest: string)
    ensures |colors| == 0 ==> closest == "Unknown"
    ensures |colors| > 0 ==> exists i :: IsFirstClosest(colors, r, g, b, i) && closest == colors[i].name
  {
    var minDistance := 195076;
    closest := "Unknown";
    ghost var best := -1;
    for i := 0 to |colors|
      invariant i == 0 <==> best == -1
      invariant best == -1 ==> closest == "Unknown" && minDistance == 195076
      invariant best != -1 ==>
        && IsFirstClosest(colors[..i], r, g, b, best)
        && closest == colors[best].name
        && minDistance == Distance(colors[best], r, g, b)
    {
      var dr := colors[i].r - r;
      var dg := colors[i].g - g;
      var db := colors[i].b - b;
      var distance := dr * dr + dg * dg + db * db;
      assert distance == Distance(colors[i], r, g, b);
      if distance < minDistance {
        minDistance := distance;
        closest := colors[i].name;
        best := i;
      }
    }
    assert colors[..|colors|] == colors;
  }

  /** The bound is tight: black against white is 195075 apart. */
  lemma MaxDistanceAttained()
    ensures Distance(CColor("white", 255, 255, 255), 0, 0, 0) == 195075
  {
  }
}
