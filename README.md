# BuildLeds colour pipeline in Dafny

BuildLeds is an OctoPrint plugin that lights an RGBW LED strip. The strip is driven by a
controller on the I2C bus. The plugin reads a colour setting such as `"#808080"` and turns it
into four byte levels (red, green, blue, white). This project models the pure part of that
pipeline, which lives in `BuildledsPlugin` and has three steps:

- `html_to_rgb` parses the colour string. It strips every leading `#` and cuts the rest (the
  body) into chunks of `len(body) // 3` characters. It starts one chunk at each index of
  `range(0, len(body), len(body) // 3)` and reads each chunk as a base-16 integer. That is module
  `HtmlColour` in `html_colour.dfy`.
- `rgb_to_rgbw` converts an RGB triple into an RGBW quadruple. That is module `Rgbw` in
  `rgbw.dfy`. The conversion works in four stages:
  - Black is returned at once.
  - Otherwise the channels are scaled by `255 / max`.
  - A whiteness ("luminance") is estimated from the largest and smallest scaled channels.
  - The white level is the truncated luminance, and each colour level is the truncated input
    channel minus the luminance. All four are then clamped to [0, 255].
- `clamp`, in the same module.

The model follows the code exactly in these respects:

- Every branch is the plugin's own, and so are both error conditions. A body of fewer than three
  characters gives `range` a step of 0, which raises before any chunk is read (`ZeroStep`). A
  chunk that is not a hex literal raises as well (`InvalidLiteral`), and the first such chunk is
  the one reported. One restriction applies: `int(s, 16)` is modelled on plain hex digits only
  (see `HtmlColour.ParseHex` under "Left out").
- Python's slices that run past the end of the body are kept, in `PySlice`.
- The order of the outputs is kept: red, green, blue, white.
- Lines 62-63 bind green's scaled value to the name `b_h` and blue's to `g_h`. The model keeps
  that binding, in `Rgbw.Luminance`, and proves that it is unobservable:
  - only the largest and the smallest scaled value enter the whiteness, so the luminance equals
    the whiteness with every channel under its own name (the contract of `Rgbw.Luminance`);
  - exchanging the green and blue inputs exchanges exactly the green and blue outputs
    (`Rgbw.GreenBlueSymmetric`).

The arithmetic of `rgb_to_rgbw` is done over exact reals. Under exact arithmetic the whiteness
formula collapses. For any colour that is not black, the luminance equals the smallest input
channel, whatever the sign of the largest. So the conversion is
`(clamp(r - min), clamp(g - min), clamp(b - min), clamp(min))` (`Rgbw.ClosedForm`). On byte
inputs this is exactly `(r - min, g - min, b - min, min)` (`Rgbw.ByteColours`).

Three consequences of the code are worth stating plainly:

- **Bodies whose length is not a multiple of three.** A hex body of length 4, 5, 7, … parses
  successfully into four or more integers (`HtmlColour.NonThirdsNotThreeGroups`). The parser
  itself does not fail. The failure comes later, when `update_leds` unpacks the tuple into three
  names. For example, `"#12345"` has step 1, so it parses to (1, 2, 3, 4, 5): the j-th value is
  `int(body[j * step:(j + 1) * step], 16)` (`HtmlColour.HtmlToRgbValueAt`).
- **The range of each group.** Groups of k digits give values below 16^k (`HtmlColour.ThreeGroups`).
  So three groups are guaranteed to be bytes only when each has at most two digits
  (`HtmlColour.SixHexDigits` for two). Longer groups can exceed 255: `"#fff000000"` gives
  (4095, 0, 0) (`HtmlColour.LongGroupExceedsByte`).
- **The green/blue exchange in the converter has no effect on any output** (see above).

## Model

| member | source | states |
|---|---|---|
| HtmlColour.StripHashes | octoprint_BuildLeds/__init__.py:46 | the body is the input with a run of '#' removed from its front, and it does not itself start with '#' |
| HtmlColour.StripHashesOfHashes | octoprint_BuildLeds/__init__.py:46 | any number of leading '#' in front of a body that does not start with '#' is stripped to exactly that body |
| HtmlColour.HexValue | octoprint_BuildLeds/__init__.py:48 | the value of k hex digits is below 16^k |
| HtmlColour.ParseHex | octoprint_BuildLeds/__init__.py:48 | `int(s, 16)` succeeds exactly on non-empty strings of hex digits, with a value below 16^len; otherwise it fails naming the chunk |
| HtmlColour.PyRange | octoprint_BuildLeds/__init__.py:48 | every index produced by `range(start, stop, step)` lies in [start, stop) |
| HtmlColour.PyRangeAt | octoprint_BuildLeds/__init__.py:48 | the j-th index of `range(start, stop, step)` is `start + j * step` |
| HtmlColour.PySlice | octoprint_BuildLeds/__init__.py:48 | a slice `s[i:j]` is at most j - i long, and is non-empty when it starts inside the string |
| HtmlColour.Chunks | octoprint_BuildLeds/__init__.py:48 | one chunk per start index |
| HtmlColour.ChunkAt | octoprint_BuildLeds/__init__.py:48 | the j-th chunk is the slice `body[starts[j]:starts[j] + step]` |
| HtmlColour.ParseAll | octoprint_BuildLeds/__init__.py:48 | a successful parse gives one integer per chunk, the j-th being `int(chunk_j, 16)`; a failure is always a bad literal |
| HtmlColour.ParseAllFailsAtFirst | octoprint_BuildLeds/__init__.py:48 | parsing fails exactly when some chunk is not a literal, and then names the first such chunk, all chunks before it being literals |
| HtmlColour.HtmlToRgb | octoprint_BuildLeds/__init__.py:45-48 | the step-0 failure happens exactly when the stripped body is shorter than three characters |
| HtmlColour.ParseAllSucceedsIff | octoprint_BuildLeds/__init__.py:48 | non-empty chunks all parse exactly when their concatenation is all hex digits |
| HtmlColour.ChunksNonEmpty | octoprint_BuildLeds/__init__.py:47-48 | every chunk that starts inside the body is non-empty |
| HtmlColour.ChunksCover | octoprint_BuildLeds/__init__.py:47-48 | the chunks at `range(i, len, step)` concatenate back to the body from i on: no character is skipped or read twice |
| HtmlColour.HtmlToRgbSucceedsIff | octoprint_BuildLeds/__init__.py:45-48 | for a body of at least three characters, parsing succeeds exactly when the body is all hex digits, fails only on a bad literal, and gives one integer per start index |
| HtmlColour.ChunkSliceAt | octoprint_BuildLeds/__init__.py:47-48 | the j-th chunk at `range(0, len, step)` is `body[j * step:(j + 1) * step]` |
| HtmlColour.ChunkValueAt | octoprint_BuildLeds/__init__.py:47-48 | the j-th value parsed from the chunks at `range(0, len, step)` is `int(body[j * step:(j + 1) * step], 16)` |
| HtmlColour.HtmlToRgbValueAt | octoprint_BuildLeds/__init__.py:45-48 | when `html_to_rgb` succeeds, with `step = len(body) // 3`, its j-th value is `int(body[j * step:(j + 1) * step], 16)` |
| HtmlColour.ThirdsRange | octoprint_BuildLeds/__init__.py:47-48 | a body of length 3k starts chunks at exactly 0, k and 2k |
| HtmlColour.NonThirdsRange | octoprint_BuildLeds/__init__.py:47-48 | a body of length at least 3 that is not a multiple of 3 starts at least four chunks |
| HtmlColour.ThirdsChunks | octoprint_BuildLeds/__init__.py:47-48 | the chunks of a body of length 3k are its three thirds |
| HtmlColour.ThreeGroups | octoprint_BuildLeds/__init__.py:45-48 | a hex body of length 3k behind any number of '#' parses to the values of its three thirds, each below 16^k |
| HtmlColour.SixHexDigits | octoprint_BuildLeds/__init__.py:45-48 | six hex digits behind any number of '#' give exactly three integers in [0, 255] |
| HtmlColour.LongGroupExceedsByte | octoprint_BuildLeds/__init__.py:45-48 | a body of three three-digit groups can parse to a value above 255: "#fff000000" gives (4095, 0, 0) |
| HtmlColour.NonThirdsNotThreeGroups | octoprint_BuildLeds/__init__.py:47-48 | a body whose length is not a multiple of 3 never parses to three groups (at least four when it parses) |
| HtmlColour.RoundTrip | octoprint_BuildLeds/__init__.py:45-48 | formatting bytes r, g, b as "#rrggbb", behind any extra '#', and parsing gives back exactly (r, g, b) |
| Rgbw.IntMax3 | octoprint_BuildLeds/__init__.py:54 | `max(r_i, g_i, b_i)` is at least each channel and equal to one of them |
| Rgbw.Max3 | octoprint_BuildLeds/__init__.py:66 | `max(r_h, g_h, b_h)` is at least each value and equal to one of them |
| Rgbw.Min3 | octoprint_BuildLeds/__init__.py:67 | `min(r_h, g_h, b_h)` is at most each value and equal to one of them |
| Rgbw.Clamp | octoprint_BuildLeds/__init__.py:85-86 | with lo <= hi the result is in [lo, hi], is v when v is in range, and is the nearer bound otherwise; with hi < lo it is lo |
| Rgbw.ClampIdempotent | octoprint_BuildLeds/__init__.py:85-86 | clamping twice to the same bounds is clamping once |
| Rgbw.Trunc | octoprint_BuildLeds/__init__.py:71-74 | `int(x)` truncates toward zero: the result lies within one of x on the side of zero |
| Rgbw.RgbToRgbw | octoprint_BuildLeds/__init__.py:51-82 | every output level is a byte for every input, and black gives (0, 0, 0, 0) without dividing |
| Rgbw.Whiteness | octoprint_BuildLeds/__init__.py:66-68 | the whiteness times `multiplier` is the sum of the largest and smallest scaled values minus 255: the midpoint moved from [127.5, 255] to [0, 255], scaled back (LuminanceIsMin and WhitenessOfScaled give its value) |
| Rgbw.WhitenessIgnoresSwap | octoprint_BuildLeds/__init__.py:66-68 | exchanging two scaled values leaves the whiteness unchanged |
| Rgbw.Luminance | octoprint_BuildLeds/__init__.py:60-68 | the luminance computed with green's and blue's scaled values under each other's names equals the whiteness with each channel under its own name (LuminanceIsMin gives its value) |
| Rgbw.WhitenessOfScaled | octoprint_BuildLeds/__init__.py:60-68 | when the largest value is scaled to 255, the whiteness formula gives back the smallest unscaled value |
| Rgbw.LuminanceIsMin | octoprint_BuildLeds/__init__.py:60-68 | with `multiplier = 255 / max`, the luminance of a colour is its smallest channel |
| Rgbw.ClosedForm | octoprint_BuildLeds/__init__.py:54-82 | a colour that is not black gives (clamp(r - min), clamp(g - min), clamp(b - min), clamp(min)) |
| Rgbw.ByteColours | octoprint_BuildLeds/__init__.py:51-82 | byte inputs give (r - min, g - min, b - min, min): white is the common part, the levels add back up to the input, and some colour level is 0 |
| Rgbw.GreyIsWhite | octoprint_BuildLeds/__init__.py:51-82 | a grey v (the default "#808080" included) gives pure white (0, 0, 0, v) |
| Rgbw.GreenBlueSymmetric | octoprint_BuildLeds/__init__.py:51-82 | exchanging the green and blue inputs exchanges the green and blue outputs and nothing else |

## Left out

- `set_levels` (lines 89-94) writes the four levels to registers 0-3 of the controller through `smbus2.SMBus`. That is I/O on the I2C bus and is not modelled.
- `update_leds`, `on_after_startup` and `on_settings_save` (lines 13-15, 30-41) read the settings store, log, and call the two conversions and `set_levels`. This host glue is not modelled. That includes unpacking the parsed tuple into exactly three names, which raises for four or more groups.
- The OctoPrint metadata are not modelled: `get_template_configs`, `get_settings_defaults`, `get_assets`, `get_update_information` and `__plugin_load__`.
- Rgbw.RgbToRgbw: the conversion is computed over exact reals, not IEEE doubles. Float products and quotients can round, so a value such as `int(luminance)` may differ by one from the exact result. Very large integers, which overflow a float, are not modelled either.
- HtmlColour.ParseHex: only strings made entirely of the hex digits 0-9, a-f and A-F are accepted. Python's `int(s, 16)` also accepts surrounding whitespace, a `+` or `-` sign, `_` between digits, a `0x` prefix and non-ASCII digits. A chunk containing any of these is modelled as a bad literal.
- The two Python exceptions (`ValueError` from `range` with step 0, and `ValueError` from `int`) are modelled as the two cases of `ParseError`.
