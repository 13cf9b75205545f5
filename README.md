# Colour sampler and palette tables

A model of the colour-sampling core of a small raylib image viewer and of
the Python script that generates its table of named colours.

The viewer (`main.c`) loads an image and draws random pixels from it. It keeps
each new colour in a colour list. A 2 MiB bitmap, the *pixel map*, is sized for one bit per
24-bit RGB colour and records which colour indices are already listed (the
index main.c computes uses far fewer bits; see "Findings").
`color_in_list` tests a colour's bit and sets it. `process_image` clears the
map before each image. When a palette entry is clicked, the viewer copies the
entry's hex code to the clipboard and adds a short-lived "copied" particle to a
fixed pool. An older prototype (`instancedpoc.c`) scans every pixel in
row-major order, using a read-only lookup. The generator script
(`color_script.py`) reads a colour list and prints C source: a `colors[]`
initializer table, `color_count`, and a `find_closest_color` function that
returns the first entry nearest in squared RGB distance.

Modules:

- `Wrappers`: `Option` and `Result`.
- `Colors`: the channel type, `Color`, the 2^24 colour space, the index
  `color_in_list` computes and the packed RGB index.
- `PixelMap`: the bitmap as a `seq<bv8>`, and `color_in_list` / the reset as
  methods on an `array<bv8>`.
- `Sampler`: `populate_color_list` as a specification function over the random
  draws, the corrected loop as a method on arrays, and the `image_info` record
  as a class.
- `Particles`: the particle pool, `Add_Particle` and the expiry rule.
- `HexText`, `ClipboardHex`: `%x` / `%02x` numerals and the clipboard string.
- `InstancedPoc`: the prototype's lookup and its row-major scan.
- `PyText`: the Python string operations the script relies on (`strip`,
  `split`, `replace`, `int`, `str`).
- `ColorScript`: `parse_color_file`, the `__main__` hex reader,
  `generate_c_array` and the behaviour of the emitted `find_closest_color`.

Inputs that the program takes from outside are parameters of the model:

- The colour index is a parameter `key` with values in `[0, 2^24)`.
  - `Colors.SourceIndex` is the index main.c:75-76 computes. It is the packed
    RGB value divided by 255, so neighbouring colours share a bit (see
    "Findings").
  - `Colors.PackedIndex` is the one-bit-per-triple index the 2^24-bit map
    (main.c:156) is sized for.
  - The sampler lemmas hold for any key in that range. The witness of the
    main.c:91 finding uses `SourceIndex`.
- Each `rand()` pair is a `Roll`, and the sequence of rolls is a parameter.
- Each clock read in the particle loop is one element of a `clock` sequence.
- Files are sequences of lines.

## Model

| member | source | states |
|---|---|---|
| Colors.PackedIndex | main.c:156 | the one-bit-per-triple index the 2^24-bit map is sized for: it lies in the map and red, green and blue are recoverable from it |
| Colors.PackedIndexInjective | main.c:156 | two colours share the packed index iff they agree on red, green and blue, so each triple has its own bit |
| Colors.ColorOf | main.c:156 | every bit of the map belongs to exactly one colour: the colour built from a packed value has that packed index |
| Colors.SourceIndex | main.c:75-76 | the index `color_in_list` computes, in exact arithmetic, is the packed index divided by 255: at most 65793; every value below 65793 is shared by 255 consecutive packed indices, and 65793 belongs to packed 16777215 alone |
| Colors.SourceIndexCollides | main.c:75-76 | (1, 0, 0) and (0, 0, 0) get the same index 0 |
| PixelMap.Mark | main.c:79-82 | setting a colour's bit changes only the byte that holds it |
| PixelMap.OrBit | main.c:78-82 | after `\|= 1 << t` a bit is set iff it was set before or it is bit t |
| PixelMap.SetBitIdempotent | main.c:79-82 | or-ing in a bit that is already set leaves the byte unchanged |
| PixelMap.MarkBit | main.c:77-82 | after marking `index`, bit j of the map is set iff it was set before or j is `index`; in particular a second test of the same colour answers true |
| PixelMap.MarkedAfterMark | main.c:79-82 | marking adds exactly `index` to the set of marked colours |
| PixelMap.MarkIdempotent | main.c:79-83 | marking a colour that is already present leaves the map unchanged |
| PixelMap.ZerosUnmarked | main.c:123 | a zeroed map has no colour marked |
| PixelMap.ColorInList | main.c:73-85 | returns whether the colour's bit was set before the call; afterwards the map is the old map with that bit set, so the marked set has grown by exactly that colour |
| PixelMap.ClearMap | main.c:123 | every byte of the map is zero and no colour is marked |
| PixelMap.FirstTestAfterClear | main.c:123 | after a reset the first test of any colour answers false and marks it |
| PixelMap.SourceIndexFalseHit | main.c:73-84 | with main.c's index, after black is listed on a cleared map, the test of (1, 0, 0) answers true although that colour was never listed |
| Sampler.Coord | main.c:94 | `rand() % width`, `rand() % height` is always a pixel inside the image |
| Sampler.SampleLoop | main.c:90-99 | the sampling loop from a given draw on: the list only grows, by at most one colour per remaining draw, and the map keeps its size |
| Sampler.SampleLoopBounds | main.c:90-99 | the list only grows, by at most one colour per draw, and never past the bound |
| Sampler.SampleLoopDistinct | main.c:90-99 | the loop keeps no two colours with the same index, and every listed colour is marked |
| Sampler.SampleLoopMarked | main.c:90-99 | the marked set afterwards is the marked set before plus the indices of the colours listed |
| Sampler.SampleLoopMarkedFresh | main.c:96-98 | the same, for an iteration whose colour is new |
| Sampler.SampleLoopMonotone | main.c:79-82 | a colour marked before the loop is still marked after it |
| Sampler.SampleLoopComplete | main.c:90-99 | unless the list reached the bound, every drawn colour is marked afterwards |
| Sampler.SampleLoopFull | main.c:90-99 | when the loop listed one colour for each of its draws, every drawn colour is in the list |
| Sampler.FreshDrawsFill | main.c:90-99 | enough draws of distinct, unmarked colours fill the list exactly to the bound |
| Sampler.PopulateAsWritten | main.c:87-101 | the loop as written, breaking only once the count exceeds MAX_COLORS: up to MAX_COLORS + 1 colours, all distinct |
| Sampler.OverflowWitness | main.c:75-97 | with main.c's own index, a 65536×1 image whose column x has index x, read left to right on a cleared map, lists MAX_COLORS + 1 colours |
| Sampler.PopulateColorList | main.c:87-101 | with the corrected cap of the main.c:91 finding (`color_cnt >= MAX_COLORS`): the array count and prefix equal the capped loop, and the map is the loop's final map; the colours are distinct and the rest of the array is untouched |
| Sampler.ImageInfo.constructor | main.c:155-160 | `init_info`: a fresh zeroed map and an empty list |
| Sampler.ImageInfo.ProcessImage | main.c:118-132 | clears the map and the list, samples with the corrected cap of the main.c:91 finding, and records `num_pixels`; the listed colours are distinct, the marked set equals their indices, and the unused list slots are zero |
| Particles.Elapsed | main.c:181-182 | the unsigned 64-bit difference: the plain difference when the clock is not behind, otherwise it wraps by 2^64 |
| Particles.Expire | main.c:176-217 | a slot stays alive iff it was alive and its lifetime exceeds the elapsed time; no other field changes |
| Particles.DrawAndRenderCopyParticles | main.c:174-219 | every slot is the expiry rule applied with its own clock reading |
| Particles.ExpiryMonotone | main.c:180-182 | once the clock is past the start, a particle alive at a later reading is alive at an earlier one |
| Particles.ClockBehindExpires | main.c:180-182 | a clock reading behind the start time kills a particle whose lifetime fits in the rest of the 64-bit range |
| Particles.CopiedText | main.c:229-230 | the text fits the 48 characters `snprintf(.., 49, ..)` leaves and is a prefix of the full message, the whole message when it fits |
| Particles.Labelled | main.c:226-230 | the stored particle is the new one with its text filled in: times, liveness and name are kept, and the text fits its buffer and is a prefix of the message |
| Particles.FirstFree | main.c:225-232 | the first slot that is not alive, and every earlier slot is alive |
| Particles.Oldest | main.c:233-236 | the first slot with the smallest start time (strict `<` keeps the earliest) |
| Particles.AddParticleSpec | main.c:222-246 | with a free slot, the first free slot gets the labelled particle; otherwise the first oldest slot does; all other slots are kept |
| Particles.AddParticle | main.c:222-246 | the pool afterwards is `AddParticleSpec` of the pool before |
| Particles.AddedParticleSurvives | main.c:222-246 | the particle just added is in the pool and survives an expiry pass whose clock has not passed its lifetime |
| HexText.HexDigit | main.c:449 | a lower-case hex digit character |
| HexText.DigitValue | color_script.py:54 | a hex digit of either case reads as a value below 16 |
| HexText.DigitRoundTrip | main.c:449 | reading a printed digit gives its value back |
| HexText.HexValue | color_script.py:54 | a string reads as a number iff every character is a hex digit, and the number is not negative |
| HexText.HexValueAppend | color_script.py:54 | reading a concatenation: the second part's digits are the low-order ones |
| HexText.Hex | main.c:449 | `%x` of a value: at least one digit, no leading zero, at most two digits for a byte |
| HexText.HexRoundTrip | main.c:449 | reading `%x` output gives back the value printed |
| HexText.Hex2 | main.c:449 | `%02x` of a byte is exactly two digits |
| HexText.Hex2Value | main.c:449 | reading `%02x` output gives back the byte |
| ClipboardHex.ClipboardText | main.c:448-450 | the clipboard string starts with `#` and has 4 to 7 characters, so the 20-byte buffer never truncates it |
| ClipboardHex.ClipboardTextCollides | main.c:449 | two different colours give the same clipboard string "#1234" |
| ClipboardHex.PaddedClipboardText | main.c:449 | the padded form always has 7 characters and starts with `#` |
| ClipboardHex.PaddedRoundTrip | main.c:449 | the padded string reads back as the colour's red, green and blue |
| ClipboardHex.PaddedInjective | main.c:449 | distinct RGB triples give distinct padded strings |
| InstancedPoc.ColorInList | instancedpoc.c:10-17 | reads the map without writing it, and answers true iff some bit of the colour's byte at or above the colour's own bit is set |
| InstancedPoc.PocColorInList | instancedpoc.c:14-16 | the unmasked test never misses a colour whose own bit is set |
| InstancedPoc.ShiftNonZero | instancedpoc.c:16 | a right shift of a byte is non-zero iff some bit at or above the shift is set |
| InstancedPoc.PocLookupMeaning | instancedpoc.c:14-16 | the lookup answers true iff some bit of the colour's byte at or above its own bit is set |
| InstancedPoc.PocLookupNoFalseNegative | instancedpoc.c:14-16 | a colour whose bit is set is reported present |
| InstancedPoc.PocLookupFalsePositive | instancedpoc.c:16 | a map whose byte 0 is 2 reports colour 0 present although its bit is clear |
| InstancedPoc.Row | instancedpoc.c:52 | one row of the scan visits x = 0 .. width-1 at that y, in order |
| InstancedPoc.RowMajor | instancedpoc.c:51-52 | every visit of the two nested loops lies inside the image |
| InstancedPoc.RowMajorInside | instancedpoc.c:51-52 | the scan makes width × height visits, all inside the image |
| InstancedPoc.RowMajorPrefix | instancedpoc.c:51 | the scan of the first y rows is a prefix of the whole scan |
| InstancedPoc.RowMajorIndex | instancedpoc.c:51-53 | pixel (x, y) is visit number y × width + x |
| InstancedPoc.RowMajorOrdered | instancedpoc.c:51-52 | visits are strictly increasing in (y, x), so no pixel is visited twice |
| InstancedPoc.Kept | instancedpoc.c:51-63 | at most one colour is kept per visited pixel |
| InstancedPoc.KeptSnoc | instancedpoc.c:53-60 | one more visit appends the pixel's colour iff the lookup reports it absent |
| InstancedPoc.PocPopulate | instancedpoc.c:49-63 | the count is at most width × height; the list prefix is the colours the scan keeps, cubePosition[k] is the position of colour k, and both arrays are unchanged from index count on |
| InstancedPoc.ScanRow | instancedpoc.c:52-62 | one row of the scan extends the kept list by that row's visits, keeps the positions paired, and leaves both arrays unchanged from the new count on |
| InstancedPoc.Append | instancedpoc.c:55-60 | appends the colour and its position at the same index; the slots after it are unchanged |
| InstancedPoc.ZeroMapKeepsEveryPixel | instancedpoc.c:49-63 | on a zeroed map the scan keeps every visited pixel, duplicates included |
| InstancedPoc.PocKeepsDuplicates | instancedpoc.c:49-63 | a 2×1 image of one colour gives a list with that colour twice |
| InstancedPoc.RowMajorRolls | instancedpoc.c:51-52 | the row-major visits written as sampler draws: draw k selects visit k |
| InstancedPoc.MarkingScanDistinct | instancedpoc.c:49-63 | the scan run with main.c's test-and-mark draws pixel k of the row-major order at step k and keeps no two colours with the same index; on a cleared map the index of every scanned pixel's colour is among the kept colours' indices |
| PyText.StripLeftSpec | color_script.py:5 | `lstrip` removes exactly the leading whitespace |
| PyText.StripRightSpec | color_script.py:5 | `rstrip` removes exactly the trailing whitespace |
| PyText.Strip | color_script.py:5 | `strip()` leaves a string that neither starts nor ends with whitespace unchanged |
| PyText.StripSpec | color_script.py:5 | `strip` gives an infix with only whitespace removed around it and no whitespace at either end |
| PyText.StripIdempotent | color_script.py:5 | stripping twice is stripping once |
| PyText.StripLeftBlanks | color_script.py:5 | leading blanks before a non-blank start are removed |
| PyText.StripRightBlanks | color_script.py:5 | trailing blanks after a non-blank end are removed |
| PyText.StripPadded | color_script.py:5 | a word padded with whitespace strips back to the word |
| PyText.Split | color_script.py:5 | `split(sep)` always gives at least one part |
| PyText.SplitSpec | color_script.py:5 | no part contains the separator and joining the parts gives back the string |
| PyText.SplitCount | color_script.py:5-6 | `split(sep)` gives one piece more than there are separators |
| PyText.SplitJoin | color_script.py:5 | splitting a join of separator-free parts gives back the parts |
| PyText.SplitThree | color_script.py:5 | three separator-free parts split back into those three parts |
| PyText.SplitFive | color_script.py:23 | five separator-free parts split back into those five parts |
| PyText.Word | color_script.py:7 | the leading run of non-whitespace: a whitespace-free prefix ended by whitespace or by the end of the string |
| PyText.Words | color_script.py:7 | `split()` gives no more words than characters, and a non-empty string without whitespace is its only word |
| PyText.WordsSpec | color_script.py:7 | `split()` gives non-empty, whitespace-free words |
| PyText.NonSpaceAppend | color_script.py:7 | dropping whitespace distributes over concatenation |
| PyText.NonSpaceOfWord | color_script.py:7 | a whitespace-free string keeps all its characters |
| PyText.WordsKeepText | color_script.py:7 | the words together hold exactly the non-whitespace characters of the string |
| PyText.Replace | color_script.py:8 | `replace(" ", "_")` replaces every space and keeps every other character in place |
| PyText.Digits | color_script.py:23 | decimal digits with no leading zero |
| PyText.IntToString | color_script.py:23 | `str(int)`: an optional minus and digits, with no whitespace |
| PyText.DigitsValue | color_script.py:7 | printed digits read back as the number |
| PyText.ParseInt | color_script.py:7 | `int()` fails on the empty string, and a negative result comes from a leading minus |
| PyText.ParseDigits | color_script.py:7 | `int` of digits, with or without a minus sign |
| PyText.ParseIntRoundTrip | color_script.py:7 | `int(str(n)) == n` |
| ColorScript.ParseLine | color_script.py:5-8 | an accepted line whose first field holds three integers gives an entry whose name has no space |
| ColorScript.Fields | color_script.py:5 | the fields of a stripped line hold no tab and joined with tabs give the stripped line back |
| ColorScript.AcceptedTabs | color_script.py:5-6 | a line is used (three fields) iff the stripped line holds exactly two tabs |
| ColorScript.AllParsePrefix | color_script.py:4-7 | if every accepted line parses, so does every accepted line of a prefix |
| ColorScript.AllParseMeaning | color_script.py:4-7 | the run does not raise iff every line with three tab fields has three integers in its first field |
| ColorScript.Entries | color_script.py:4-14 | at most one entry per line |
| ColorScript.EntriesCount | color_script.py:4-14 | one entry per accepted line, so the result is no longer than the number of accepted lines |
| ColorScript.Collapse | color_script.py:9-14 | no longer than its input; the last entry is the last input entry, and the first keeps the first input's RGB |
| ColorScript.Push | color_script.py:9-14 | the new entry always ends the list |
| ColorScript.PushAfterPrefix | color_script.py:9-14 | pushing onto a list with a prefix in front only touches the part after the prefix |
| ColorScript.CollapseSnoc | color_script.py:9-14 | merging a list with one more entry is pushing that entry onto the merged list |
| ColorScript.CollapseNoAdjacent | color_script.py:9-14 | no two adjacent entries of the result share an RGB triple |
| ColorScript.CollapseFixed | color_script.py:9-14 | a list without adjacent duplicates is unchanged |
| ColorScript.CollapseKeepsInput | color_script.py:9-14 | every entry of the result comes from the input |
| ColorScript.PopAndAppend | color_script.py:9-14 | pops the last entry when it has the same RGB, then appends |
| ColorScript.ParseColorFile | color_script.py:1-17 | succeeds iff no accepted line fails `int`; the result is the merged entries; a failure names the first accepted line that raises |
| ColorScript.ParseStep | color_script.py:4-14 | one more line: how acceptance and the entry list change |
| ColorScript.ParsedNamesHaveNoSpaces | color_script.py:8 | no name in the parsed table contains a space |
| ColorScript.EntriesNamesHaveNoSpaces | color_script.py:8 | no name in the entry list contains a space |
| ColorScript.WordsOfNumbers | color_script.py:7 | three space-separated numerals split into those three numerals |
| ColorScript.WordsLeading | color_script.py:7 | the first word of a string that begins with a word is that word |
| ColorScript.WordOfWord | color_script.py:7 | the leading word of a word followed by whitespace is the word |
| ColorScript.ParseLineRoundTrip | color_script.py:5-8 | a line `r g b<TAB>mid<TAB>name` followed by any whitespace, such as the line's own `\n`, is accepted and parses to (name with `_` for spaces, r, g, b) |
| ColorScript.ParsePadded | color_script.py:5-8 | trailing whitespace changes neither whether a line is used nor what it parses to |
| ColorScript.Channels | color_script.py:54-56 | the shifts and masks give three bytes |
| ColorScript.ChannelsPack | color_script.py:54-56 | for a 24-bit value the three channels put back together give the value |
| ColorScript.PackChannels | color_script.py:54-56 | packing three bytes and taking the channels gives the bytes back |
| ColorScript.HexLine | color_script.py:49-56 | an entry read from a hex line has three channels that are bytes |
| ColorScript.ParseHexInt | color_script.py:54 | `int(.., 16)` fails when only whitespace is left after stripping, and a negative result comes from a leading minus |
| ColorScript.ParseHex6 | color_script.py:51-54 | six lower-case hex digits followed by nothing or a newline read as their value |
| ColorScript.HexValueOfHex6 | color_script.py:54 | six hex digits read as the packed 24-bit value |
| ColorScript.HexValueOfPairs | color_script.py:54 | three digit pairs read as the packed value of their bytes |
| ColorScript.HexLineRoundTrip | color_script.py:49-56 | `name<TAB>#rrggbb` followed by "" or a newline reads back as (name, r, g, b) |
| ColorScript.ReadHexTable | color_script.py:44-61 | one entry per line, in order; on failure, the first line that raises |
| ColorScript.TerminatedAppend | color_script.py:20-25 | newline-terminated lines concatenate piecewise |
| ColorScript.JoinTerminated | color_script.py:19-42 | joining lines with newlines is terminating all but the last |
| ColorScript.InitializersSpec | color_script.py:22-23 | one initializer line per colour, in order |
| ColorScript.HeaderText | color_script.py:20-21 | the header text is the typedef, a blank line, and the array opener |
| ColorScript.FooterText | color_script.py:24-41 | the footer text is the closing brace, `color_count` and the lookup function |
| ColorScript.InitializersSnoc | color_script.py:22-23 | one more colour appends one initializer line |
| ColorScript.Initializer | color_script.py:23 | an initializer line has no newline when the name has none, so it stays one line of the output |
| ColorScript.TerminatedSnoc | color_script.py:22-23 | one more line appends that line and a newline |
| ColorScript.CArrayText | color_script.py:19-42 | the line list joined with newlines is the header, the initializers and the footer |
| ColorScript.CArrayLines | color_script.py:19-42 | the output starts with the three header lines and ends with a newline |
| ColorScript.GenerateCArray | color_script.py:19-42 | the generated text is the header, one initializer per colour and the footer, joined with newlines |
| ColorScript.InitializerBlockLines | color_script.py:22-23 | the initializer block splits back into its lines |
| ColorScript.CArrayLayout | color_script.py:19-42 | the text splits at newlines into the colour count plus 23 pieces, the last one empty after the final newline, so the text has the colour count plus 22 lines; line 3 + k is colour k's initializer and the `color_count` line follows the table |
| ColorScript.ColorCountRoundTrip | color_script.py:25 | the `color_count` line reads back as the number of colours |
| ColorScript.StripNumber | color_script.py:23 | a numeral after a space strips back to the numeral |
| ColorScript.ParseRow | color_script.py:23 | a row built from a name and three numerals reads back as the entry |
| ColorScript.InitializerRoundTrip | color_script.py:23 | an initializer line reads back as its entry |
| ColorScript.InitializerQuotes | color_script.py:23 | splitting an initializer at the quotes isolates the name |
| ColorScript.TailFields | color_script.py:23 | splitting the part after the name at commas isolates the three numerals |
| ColorScript.CTable | color_script.py:20-23 | one C entry per colour; byte channels are stored unchanged |
| ColorScript.Distance | color_script.py:31-34 | the squared RGB distance lies in [0, 195075], below the initial minimum 195076, so any non-empty table replaces "Unknown" |
| ColorScript.FindClosestColor | color_script.py:27-41 | "Unknown" for an empty table; otherwise the name of the first entry with the smallest distance (strict `<`) |
| ColorScript.MaxDistanceAttained | color_script.py:28 | black against white reaches 195075, so the initial 195076 is one above the maximum |

## Left out

- Colors.SourceIndex: takes the float index of main.c:75-76 and instancedpoc.c:12-13 in exact arithmetic. Single-precision rounding can move the truncated value by one where the exact sum lies within a rounding error of an integer. The witnesses stay clear of such points: (1, 0, 0) against (0, 0, 0), and sums halfway between two integers.
- `rand()` is modelled as a sequence of draws. The clock is modelled as one reading per slot. Both come from outside the program.
- The following are calls into code that is not part of this model:
  - `gen_median_palette_from_color_list`, `find_closest_color` and the `colors.h` table;
  - `load_transforms_from_color_list`, `rgb_to_hsv` and `Draw_Image_In_Region`;
  - the raylib drawing, window and clipboard calls;
  - `malloc`, `calloc` and `free`.
- The palette and palette-name resets of `process_image` (main.c:125-126) are not modelled. The palette belongs to the palette generator, which is not part of this model.
- Some particle fields are floats and are left out: location, velocity, colour and the alpha fade. So is the on-screen text shift. Only the slot choice, the timing and the text are modelled.
- `NUM_PARTICLES` is the length of the particle array.
- Particles.AddParticle: requires some slot to be free or to have a start time below `UINT64_MAX`. If every slot is alive with that start time, the source writes to index -1, which is undefined behaviour.
- Particles.CopiedText: counts characters, not the bytes `snprintf` counts. Names are treated as single-byte text.
- The hex-code particle text (main.c:452-460) is not modelled beyond the particle's start time and name.
- `InstancedPoc.PocPopulate`: the float cube position (`color / 255 * graph_limit`) is kept as the colour's channel triple, with the same index pairing.
- Python `int` is modelled on a whitespace-free word: an optional sign and ASCII digits. Underscores and Unicode digits are not modelled.
- `int(.., 16)` is modelled with surrounding whitespace, an optional sign, an optional `0x`/`0X` prefix and hex digits of either case. Underscores and Unicode whitespace beyond the modelled set are not modelled.
- The `colors[-1]` truthiness test (color_script.py:11) is always true for a non-empty tuple, so the model drops it.
- The file reads and writes, and the prints of the script, are not modelled. The commented-out call of `parse_color_file` (color_script.py:63) is not modelled either.
- ColorScript.InitializerBlockLines: splits back only the initializer block. The fixed header and lookup lines are not proved to be newline-free.
- ColorScript.CArrayLayout: states the positions of the initializers and the count line. It does not split the whole text back.
- ColorScript.HexLineRoundTrip: covers lines that end in "" or a single newline, with exactly two hex digits per channel.
- ColorScript.InitializerRoundTrip: covers names without a double quote `"`. Such a name would end the generated C string literal early anyway.
- InstancedPoc.PocPopulate: the buffer sizes are the exact product `width * height`. instancedpoc.c:26-27 computes `image.height * image.width` in `int`, and `color_cnt` (instancedpoc.c:49) is an `int`; both overflow, with undefined behaviour, above 2^31 - 1 pixels.
- Sampler.Coord: the coordinates are exact integers. main.c:94 stores `rand() % width` and `rand() % height` in a float `Vector2` and passes them back to `GetImageColor` as `int`; above 2^24 columns or rows, rounding could turn `width - 1` into `width`, outside the image.
- Sampler.ImageInfo.ProcessImage: `num_pixels` is the exact product. main.c:127 computes `width * height` in `int`, which overflows, with undefined behaviour, above 2^31 - 1 pixels.
- `Sampler.ImageInfo` holds only the map, the colour list, the count and `num_pixels`. The palette, the transforms and the textures are left out.

## Findings

| source | as written | input that shows it | evidently intended | confidence | as-written member | corrected member |
|---|---|---|---|---|---|---|
| main.c:75-76 | the index is `r / 255.0f + (g / 255.0f) * 256 + (b / 255.0f) * 65536` truncated, which is the packed value divided by 255, so at most 65794 of the 2^24 bits are used and every index below 65793 is shared by 255 neighbouring colours | after black is listed on a cleared map, colour (1, 0, 0) is reported as already listed | `r + g * 256 + b * 65536`, one bit per RGB triple as the map's size implies | not executed | PixelMap.SourceIndexFalseHit | Colors.PackedIndexInjective |
| main.c:91 | the loop breaks only once `color_cnt > MAX_COLORS`, so it can write `color_list[MAX_COLORS]`, one past the 40000-entry buffer | with main.c's own index, a 65536×1 image whose pixel x has packed value 255x + 127 (index x), draws (0,0), (1,0), …, on a cleared map: 40001 colours are stored | stop at `color_cnt >= MAX_COLORS` | not executed | Sampler.OverflowWitness | Sampler.PopulateColorList |
| main.c:449 | `"#%x%x%x"` prints channels without padding | colours (0x12, 3, 4) and (1, 0x23, 4) both give "#1234" | `"#%02x%02x%02x"`, which round-trips | not executed | ClipboardHex.ClipboardTextCollides | ClipboardHex.PaddedRoundTrip |
| instancedpoc.c:16 | returns `byte >> bit` without `& 1`, so any higher bit of the same byte counts | a map whose byte 0 is 2 reports colour 0 present | mask with `& 0x1`, as main.c:78 does | not executed | InstancedPoc.PocLookupFalsePositive | PixelMap.ColorInList |
| instancedpoc.c:54 | the lookup never sets the colour's bit, so repeated colours are all kept | a 2×1 image of one colour gives that colour twice | test and mark, as main.c:79-82 does, which keeps each index once and, on a cleared map, keeps every scanned pixel's index | not executed | InstancedPoc.PocKeepsDuplicates | InstancedPoc.MarkingScanDistinct |
