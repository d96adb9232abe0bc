# Colour string codec of madcaps

madcaps is a three.js visual demo. Its one piece of exactly specifiable
logic is the pair of colour helpers in `src/helpers.js`, and this project
models and proves them:

- `hexToRgb(hex)` runs `/^#?([a-f\d]{2})([a-f\d]{2})([a-f\d]{2})$/i`. On a match
  it returns `{ r, g, b }`, each channel being `parseInt(pair, 16) / 255`;
  otherwise it returns `null`.
- `rgbToHex(s)` takes the maximal decimal-digit runs of `s`
  (`s.match(/[0-9]+/g)`). It folds them, starting from `'#'`, appending
  `(run | 256).toString(16).slice(1)` for each run. When `s` has no digit,
  `match` returns `null` and the `reduce` call throws a TypeError. The demo
  feeds it the browser's computed body background (`src/app.js:68`), which
  is serialised as `rgb(r, g, b)`, or as `rgba(r, g, b, 0)` when the
  background is transparent.

Modules:

- `Wrappers`: `Option` stands for a value or `null`, and `Result` for a
  value or a thrown exception.
- `Radix`: `parseInt(_, 16)`, `Number(digits)`, `String(n)` and
  `Number.prototype.toString(16)`, all on integers.
- `Int32`: ToInt32 and the 32-bit OR that JavaScript's `|` performs. OR is
  defined bit by bit on integers.
- `DigitMatch`: `match(/[0-9]+/g)` as the list of maximal digit runs. It is
  characterised by a gap/run decomposition, with an existence lemma and a
  uniqueness lemma.
- `Helpers`: the two functions, their properties, and the round trip.

`rgbToHex` is modelled on its exact JavaScript semantics, not just for
bytes. Each run goes through `Number`, then ToInt32 on both operands of
`|`, then the 32-bit OR, then `toString(16)` (with a minus sign for a
negative result), then `slice(1)`. So a run of 256 or more is also given
the value the source computes. The byte case is what the lemmas describe.

A transparent background's `rgba(r, g, b, 0)` has four digit runs, so on
it the source produces `#rrggbb00`, nine characters rather than a six-digit
colour (`Helpers.RgbToHexOfTransparentRgba`).

## Model

| member | source | states |
|---|---|---|
| Helpers.HexToRgb | src/helpers.js:5-13 | when hexToRgb returns an object, its three channels lie in [0, 1] |
| Helpers.HexPair | src/helpers.js:6 | the capture group `([a-f\d]{2})` at position i matches exactly when two hex digits start there, and captures those two characters |
| Helpers.FoldCase | src/helpers.js:6 | ASCII case folding of the `/i` flag; no `ensures` of its own, described by Helpers.FoldCaseKeepsHex and Helpers.HexToRgbIgnoresCase |
| Helpers.ExecHexColor | src/helpers.js:6 | a successful `exec` yields three capture groups, each exactly two hex digits |
| Helpers.Channel | src/helpers.js:9-11 | `parseInt(pair, 16) / 255` of a two-hex-digit group lies in [0, 1] |
| Helpers.HexToRgbDefinedIff | src/helpers.js:6-12 | hexToRgb is non-null if and only if the input is six hex digits, optionally after a single leading `#`; wrong length, a non-hex character, or extra text give null |
| Helpers.HexToRgbChannels | src/helpers.js:8-12 | r, g, b come in order from digits 1-2, 3-4 and 5-6; each is that pair's base-16 value (below 256) divided by 255 |
| Helpers.HexToRgbIgnoresCase | src/helpers.js:6 | two inputs that differ only in ASCII letter case give identical results (the `/i` flag) |
| Helpers.HexToRgbOptionalHash | src/helpers.js:6 | adding a `#` in front of an input that does not already start with one leaves the result unchanged (`#?`) |
| Helpers.RgbToHex | src/helpers.js:15 | rgbToHex throws exactly when the string contains no decimal digit |
| Helpers.Segment | src/helpers.js:15 | the callback's (b OR 256).toString(16).slice(1); no `ensures` of its own, described by Helpers.SegmentOfByte |
| Helpers.Reduce | src/helpers.js:15 | `.reduce((a, b) => a + ..., '#')` as a left fold; no `ensures` of its own, described by Helpers.ReduceAppends |
| Helpers.ReduceAppends | src/helpers.js:15 | the `reduce` fold equals the accumulator followed by every segment, in order, each one once |
| Helpers.RgbToHexIsSegments | src/helpers.js:15 | the output is `#` followed by one segment per digit run, in the order of the runs |
| Helpers.SegmentOfByte | src/helpers.js:15 | the segment `(b OR 256).toString(16).slice(1)` of a run with value b in 0..255 is exactly two lower-case hex digits, zero-padded, that `parseInt(_, 16)` reads back as b |
| Helpers.RgbToHexOfBytes | src/helpers.js:15 | when every run is a byte, the output has length 1 + 2 * (number of runs) and is lower-case hex after `#`, and pair i decodes to run i |
| Helpers.RgbToHexOfRgbString | src/helpers.js:15 | `rgbToHex("rgb(r, g, b)")` is `#` followed by the zero-padded hex of r, g and b: 7 characters |
| Helpers.RgbToHexOfTransparentRgba | src/helpers.js:15 | `rgbToHex("rgba(r, g, b, 0)")` is `#rrggbb00`: 9 characters |
| Helpers.DigitRunsOfRgbString | src/helpers.js:15 | the digit runs of `rgb(r, g, b)` are exactly the decimal forms of r, g and b |
| Helpers.HexToRgbOfHexBytes | src/helpers.js:5-13 | hexToRgb of `#` and three zero-padded two-digit hex bytes gives back each byte over 255 |
| Helpers.RoundTrip | src/helpers.js:5-15 | for bytes r, g, b, `hexToRgb(rgbToHex("rgb(r, g, b)"))` is non-null and equals r/255, g/255, b/255 |
| DigitMatch.LeadingDigits | src/helpers.js:15 | the `[0-9]+` match at a position is the longest digit prefix: every character in it is a digit, and the next one is not |
| DigitMatch.DigitRuns | src/helpers.js:15 | every match of `/[0-9]+/g` is non-empty and made only of digits |
| DigitMatch.DigitRunsEmptyIff | src/helpers.js:15 | `match` gives no runs (null) if and only if the string has no decimal digit |
| DigitMatch.DigitRunsOfJoin | src/helpers.js:15 | splitting a string into digit-free gaps and maximal digit runs in any way, the runs are exactly what `match` returns, in order |
| DigitMatch.GapsJoinRuns | src/helpers.js:15 | every string is the interleaving of digit-free gaps with the runs `match` returns, and those runs are maximal |
| Radix.ParseHex | src/helpers.js:9-11 | `parseInt(_, 16)` on a string of hex digits; no `ensures` of its own, described by Radix.ParseHexPair and Radix.ToHexDigits |
| Radix.DecimalValue | src/helpers.js:15 | `Number(run)`, the conversion the OR operator applies to a digit run; no `ensures` of its own, described by Radix.DecimalString, whose result it reads back |
| Radix.ToStringRadix16 | src/helpers.js:15 | `x.toString(16)`, a minus sign before ToHex of a negative number; always non-empty, described by Radix.ToHexDigits and Radix.ToHexOfByteWithBit8 |
| Radix.ToHexDigits | src/helpers.js:15 | `n.toString(16)` is lower-case hex without leading zeros, and `parseInt(_, 16)` reads it back as n |
| Radix.ToHexOfByteWithBit8 | src/helpers.js:15 | `(256 + b).toString(16)` is `1` followed by the two zero-padded hex digits of b |
| Radix.ParseHexPair | src/helpers.js:9-11 | `parseInt` of a two-hex-digit pair is 16 × (first digit) + (second digit), so it is below 256 |
| Int32.ToInt32 | src/helpers.js:15 | ToInt32 lands in the signed 32-bit range, agrees with its input modulo 2^32, and keeps values already in range |
| Int32.BitOr | src/helpers.js:15 | x OR y on two ToInt32-reduced operands: the OR of their 32-bit patterns read back as a signed 32-bit integer, always in range; described by Int32.OrByteWith256 |
| Int32.OrBitsHighBit | src/helpers.js:15 | setting bit j in a number whose bits all lie below bit j adds 2^j |
| Int32.OrByteWith256 | src/helpers.js:15 | b OR 256 equals 256 + b for every byte b |

## Left out

- `radians` and `distance` (`src/helpers.js:1-3`, `35-37`): floating-point `Math.PI`, `Math.sqrt` and `Math.pow` arithmetic.
- `rInterval` (`src/helpers.js:17-33`): a timer loop driven by `Date.now` and `requestAnimationFrame`.
- `src/app.js`: scene setup, the controls and panel, `addBlocksWall`, `draw` and the animation loop. They are calls into three.js, gsap and DOM APIs. `src/index.js` and the webpack files are build configuration.
- Helpers.HexToRgb: each channel is the exact rational n / 255, not the nearest IEEE-754 double that JavaScript's `/` gives.
- Helpers.RgbToHex: requires every digit run to have a value of at most 2^53. Above that, `Number(run)` rounds to a double, and that rounding is not modelled.
- The thrown TypeError is modelled as a `Failure` value, not as an exception.
- Strings are sequences of Unicode scalar values, while JavaScript strings are sequences of UTF-16 code units. So a lone surrogate cannot be represented, and a character outside the Basic Multilingual Plane has length 1 here instead of 2. No result changes: the pattern rejects, and `match` skips, every non-ASCII character.
- Non-string arguments are not modelled. `exec` converts its argument with ToString, so `hexToRgb(123456)` matches `"123456"`. `rgbToHex` calls `s.match`, which a number, boolean, `null` or `undefined` does not have, so it throws a TypeError.
- hexToRgb's pattern is modelled directly by its meaning, not by a general regular expression engine. Case folding is ASCII-only, which is what non-Unicode `/i` matching does for these character classes.
- No lemma states the segment of a run of 256 or more. `Helpers.Segment` computes it as the source does, but the lemmas only cover byte-valued runs.
