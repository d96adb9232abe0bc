/** The colour string codec of src/helpers.js.

    `hexToRgb` parses `#rrggbb` (the `#` optional, letters in either case)
    into an object of three channels, each the two-digit hex value divided
    by 255, and gives `null` for anything else.

    `rgbToHex` extracts the runs of decimal digits of a string such as the
    CSS computed colour `rgb(12, 34, 255)` and folds them into `#` followed
    by `(run | 256).toString(16).slice(1)` per run; on a string without
    digits `match` gives `null` and the call throws a TypeError. */
module Helpers {
  import opened Wrappers
  import opened Radix
  import opened Int32
  import opened DigitMatch

  /** The object `{ r, g, b }` built by hexToRgb. The channels are exact
      rationals: the model does not round the division by 255. */
  datatype Rgb = Rgb(r: real, g: real, b: real)

  type Byte = x: int | 0 <= x < 256

  /** What `null.reduce(...)` throws. */
  datatype Error = TypeError

  // =====================================================================
  // hexToRgb
  // =====================================================================

  /** The strings `/^#?([a-f\d]{2})([a-f\d]{2})([a-f\d]{2})$/i` accepts,
      stated without the matcher: six hex digits, possibly after one `#`. */
  predicate IsHexColor(s: string) {
    || (|s| == 6 && AllHex(s))
    || (|s| == 7 && s[0] == '#' && AllHex(s[1..]))
  }

  /** The capture group `([a-f\d]{2})` tried at position i. */
  function HexPair(s: string, i: nat): (group: Option<string>)
    ensures group.Some? ==> i + 2 <= |s| && group.value == s[i..i + 2]
    ensures group.Some? ==> AllHex(group.value)
    ensures group.Some? <==> (i + 2 <= |s| && IsHexDigit(s[i]) && IsHexDigit(s[i + 1]))
  {
    if i + 2 <= |s| && IsHexDigit(s[i]) && IsHexDigit(s[i + 1]) then Some(s[i..i + 2])
    else None
  }

  /** `exec` of the pattern: its three capture groups, or `null`. The
      greedy `#?` consumes a leading `#`; leaving it unconsumed cannot
      lead to a match, since `#` is not a hex digit. `$` then demands that
      the input ends after the third group. */
  function ExecHexColor(s: string): (groups: Option<(string, string, string)>)
    ensures groups.Some? ==> |groups.value.0| == 2 && AllHex(groups.value.0)
    ensures groups.Some? ==> |groups.value.1| == 2 && AllHex(groups.value.1)
    ensures groups.Some? ==> |groups.value.2| == 2 && AllHex(groups.value.2)
  {
    var start := if 0 < |s| && s[0] == '#' then 1 else 0;
    match (HexPair(s, start), HexPair(s, start + 2), HexPair(s, start + 4))
    case (Some(r), Some(g), Some(b)) => if start + 6 == |s| then Some((r, g, b)) else None
    case _ => None
  }

  /** `parseInt(group, 16) / 255`. */
  function Channel(group: string): (c: real)
    requires |group| == 2 && AllHex(group)
    ensures 0.0 <= c <= 1.0
  {
    ParseHexPair(group);
    ParseHex(group) as real / 255.0
  }

  function HexToRgb(hex: string): (color: Option<Rgb>)
    ensures color.Some? ==> 0.0 <= color.value.r <= 1.0
    ensures color.Some? ==> 0.0 <= color.value.g <= 1.0
    ensures color.Some? ==> 0.0 <= color.value.b <= 1.0
  {
    match ExecHexColor(hex)
    case None => None
    case Some((r, g, b)) => Some(Rgb(Channel(r), Channel(g), Channel(b)))
  }

  /** The base-16 value of the digit pair hi lo. */
  function PairValue(hi: char, lo: char): (v: nat)
    requires IsHexDigit(hi) && IsHexDigit(lo)
    ensures v < 256
  {
    16 * HexDigitValue(hi) + HexDigitValue(lo)
  }

  /** The six digits of a hex colour, after the optional `#`. */
  function HexDigits(s: string): (d: string)
    requires IsHexColor(s)
    ensures |d| == 6 && AllHex(d)
  {
    if |s| == 7 then s[1..] else s
  }

  /** hexToRgb gives an object exactly for the inputs the pattern accepts:
      the wrong length, a character that is not a hex digit, or any text
      before the `#` or after the sixth digit give `null`. */
  lemma HexToRgbDefinedIff(s: string)
    ensures HexToRgb(s).Some? <==> IsHexColor(s)
  {
    var start := if 0 < |s| && s[0] == '#' then 1 else 0;
    var matched := && HexPair(s, start).Some? && HexPair(s, start + 2).Some?
                   && HexPair(s, start + 4).Some? && start + 6 == |s|;
    assert HexToRgb(s).Some? <==> matched;
    if matched {
      assert forall i | start <= i < start + 6 :: IsHexDigit(s[i]) by {
        forall i | start <= i < start + 6 ensures IsHexDigit(s[i]) {
          var k := start + (i - start) / 2 * 2;
          assert s[i] == HexPair(s, k).value[i - k];
        }
      }
      if start == 1 {
        forall j | 0 <= j < 6 ensures IsHexDigit(s[1..][j]) {
          assert s[1..][j] == s[j + 1];
        }
      }
    }
    if IsHexColor(s) {
      if |s| == 7 {
        forall i | 1 <= i < 7 ensures IsHexDigit(s[i]) {
          assert s[i] == s[1..][i - 1];
        }
      } else {
        assert IsHexDigit(s[0]);
      }
      assert matched;
    }
  }

  /** A channel is its pair's base-16 value over 255. */
  lemma ChannelOfPair(group: string)
    requires |group| == 2 && AllHex(group)
    ensures Channel(group) == PairValue(group[0], group[1]) as real / 255.0
  {
    ParseHexPair(group);
  }

  /** The channels come in order from digits 1-2, 3-4 and 5-6, each the
      base-16 value of its pair over 255. */
  lemma HexToRgbChannels(s: string)
    requires IsHexColor(s)
    ensures var d := HexDigits(s);
      HexToRgb(s) == Some(Rgb(PairValue(d[0], d[1]) as real / 255.0,
                              PairValue(d[2], d[3]) as real / 255.0,
                              PairValue(d[4], d[5]) as real / 255.0))
  {
    HexToRgbDefinedIff(s);
    var d := HexDigits(s);
    var start := if |s| == 7 then 1 else 0;
    var (r, g, b) := ExecHexColor(s).value;
    assert r == s[start..start + 2] && g == s[start + 2..start + 4] && b == s[start + 4..start + 6];
    assert r[0] == d[0] && r[1] == d[1] && g[0] == d[2] && g[1] == d[3] && b[0] == d[4] && b[1] == d[5];
    ChannelOfPair(r);
    ChannelOfPair(g);
    ChannelOfPair(b);
  }

  /** ASCII case folding, as the `/i` flag applies it to this pattern. */
  function FoldCase(c: char): char {
    if 'A' <= c <= 'Z' then (c as int + 32) as char else c
  }

  predicate SameIgnoringCase(s: string, t: string) {
    |s| == |t| && forall i | 0 <= i < |s| :: FoldCase(s[i]) == FoldCase(t[i])
  }

  lemma FoldCaseKeepsHex(c: char, d: char)
    requires FoldCase(c) == FoldCase(d)
    ensures IsHexDigit(c) <==> IsHexDigit(d)
    ensures IsHexDigit(c) ==> HexDigitValue(c) == HexDigitValue(d)
    ensures c == '#' <==> d == '#'
  {
  }

  /** A case variant of a hex colour is a hex colour whose digit pairs have
      the same values. */
  lemma SameHexDigits(s: string, t: string)
    requires SameIgnoringCase(s, t) && IsHexColor(s)
    ensures IsHexColor(t)
    ensures var ds, dt := HexDigits(s), HexDigits(t);
      && PairValue(ds[0], ds[1]) == PairValue(dt[0], dt[1])
      && PairValue(ds[2], ds[3]) == PairValue(dt[2], dt[3])
      && PairValue(ds[4], ds[5]) == PairValue(dt[4], dt[5])
  {
    var start := if |s| == 7 then 1 else 0;
    forall i | start <= i < |s| ensures IsHexDigit(t[i]) && HexDigitValue(s[i]) == HexDigitValue(t[i]) {
      if start == 1 {
        assert s[i] == s[1..][i - 1];
      }
      FoldCaseKeepsHex(s[i], t[i]);
    }
    if start == 1 {
      FoldCaseKeepsHex(s[0], t[0]);
      forall i | 0 <= i < 6 ensures IsHexDigit(t[1..][i]) {
        assert t[1..][i] == t[i + 1];
      }
    }
    var ds, dt := HexDigits(s), HexDigits(t);
    forall i | 0 <= i < 6 ensures HexDigitValue(ds[i]) == HexDigitValue(dt[i]) {
      assert ds[i] == s[start + i] && dt[i] == t[start + i];
    }
  }

  /** Inputs that differ only in letter case give the same result. */
  lemma HexToRgbIgnoresCase(s: string, t: string)
    requires SameIgnoringCase(s, t)
    ensures HexToRgb(s) == HexToRgb(t)
  {
    HexToRgbDefinedIff(s);
    HexToRgbDefinedIff(t);
    if IsHexColor(s) {
      SameHexDigits(s, t);
      HexToRgbChannels(s);
      HexToRgbChannels(t);
    } else if IsHexColor(t) {
      SameHexDigits(t, s);
    }
  }

  /** The leading `#` is optional: adding one to an input that does not
      already start with `#` changes nothing. */
  lemma HexToRgbOptionalHash(t: string)
    requires t == [] || t[0] != '#'
    ensures HexToRgb("#" + t) == HexToRgb(t)
  {
    var s := "#" + t;
    assert s[1..] == t;
    HexToRgbDefinedIff(s);
    HexToRgbDefinedIff(t);
    if IsHexColor(t) {
      assert |t| == 6;
      HexToRgbChannels(s);
      HexToRgbChannels(t);
    }
  }

  // =====================================================================
  // rgbToHex
  // =====================================================================

  /** A digit run whose value `Number(run)` is exact. */
  predicate IsExactRun(run: string) {
    AllDecimal(run) && DecimalValue(run) <= MAX_EXACT_INTEGER
  }

  predicate AllExactRuns(runs: seq<string>) {
    forall i | 0 <= i < |runs| :: IsExactRun(runs[i])
  }

  /** `(run | 256).toString(16).slice(1)`: `|` converts both operands with
      ToInt32; the slice drops the first hex digit of a non-negative result
      and the minus sign of a negative one. */
  function Segment(run: string): string
    requires IsExactRun(run)
  {
    ToStringRadix16(BitOr(ToInt32(DecimalValue(run)), ToInt32(256)))[1..]
  }

  /** The segment of every run, in order. */
  function SegmentList(runs: seq<string>): (segments: seq<string>)
    requires AllExactRuns(runs)
    ensures |segments| == |runs|
    ensures forall i | 0 <= i < |runs| :: segments[i] == Segment(runs[i])
  {
    seq(|runs|, i requires 0 <= i < |runs| => Segment(runs[i]))
  }

  /** `runs.reduce((a, b) => a + Segment(b), acc)`, with the callback's
      segments taken from SegmentList: a left fold that appends each
      segment to the accumulator. */
  function Reduce(acc: string, segments: seq<string>): string
    decreases |segments|
  {
    if segments == [] then acc else Reduce(acc + segments[0], segments[1..])
  }

  function RgbToHex(s: string): (res: Result<string, Error>)
    requires AllExactRuns(DigitRuns(s))
    ensures res.Failure? <==> NoDecimal(s)
  {
    DigitRunsEmptyIff(s);
    var runs := DigitRuns(s);
    if runs == [] then Failure(TypeError) else Success(Reduce("#", SegmentList(runs)))
  }

  /** The concatenation of a list of strings, first to last. */
  function Concat(parts: seq<string>): string
    decreases |parts|
  {
    if parts == [] then "" else parts[0] + Concat(parts[1..])
  }

  /** The fold appends the segments in order, each once. */
  lemma {:induction false} ReduceAppends(acc: string, segments: seq<string>)
    ensures Reduce(acc, segments) == acc + Concat(segments)
    decreases |segments|
  {
    if segments == [] {
      assert acc + "" == acc;
    } else {
      var head, tail := segments[0], segments[1..];
      ReduceAppends(acc + head, tail);
      assert (acc + head) + Concat(tail) == acc + (head + Concat(tail));
    }
  }

  /** The output of rgbToHex: `#` and then one segment per digit run of the
      input, in the order of the runs. */
  lemma RgbToHexIsSegments(s: string)
    requires AllExactRuns(DigitRuns(s))
    ensures RgbToHex(s).Success? ==> RgbToHex(s).value == "#" + Concat(SegmentList(DigitRuns(s)))
    ensures RgbToHex(s).Success? ==> RgbToHex(s).value[0] == '#'
  {
    ReduceAppends("#", SegmentList(DigitRuns(s)));
  }

  /** A byte as two lower-case hex digits, zero-padded. */
  function HexByte(v: Byte): (pair: string)
    ensures |pair| == 2 && AllLowerHex(pair) && AllHex(pair)
    ensures ParseHex(pair) == v && PairValue(pair[0], pair[1]) == v
  {
    var pair := [HexDigit(v / 16), HexDigit(v % 16)];
    ParseHexPair(pair);
    pair
  }

  /** A run with value b in 0..255 becomes exactly two lower-case hex
      digits, zero-padded, that parseInt reads back as b. */
  lemma SegmentOfByte(run: string)
    requires IsExactRun(run) && DecimalValue(run) < 256
    ensures Segment(run) == HexByte(DecimalValue(run))
    ensures |Segment(run)| == 2 && AllLowerHex(Segment(run)) && AllHex(Segment(run))
    ensures ParseHex(Segment(run)) == DecimalValue(run)
  {
    var b := DecimalValue(run);
    var x := BitOr(ToInt32(b), ToInt32(256));
    assert x == 256 + b by {
      assert ToInt32(b) == b && ToInt32(256) == 256;
      OrByteWith256(b);
    }
    var hex := ToStringRadix16(x);
    assert hex == ['1', HexDigit(b / 16), HexDigit(b % 16)] by {
      ToHexOfByteWithBit8(b);
    }
    assert Segment(run) == hex[1..];
  }

  /** Concatenated two-character parts: part i occupies positions 2i and
      2i + 1. */
  lemma {:induction false} ConcatOfPairs(parts: seq<string>)
    requires forall i | 0 <= i < |parts| :: |parts[i]| == 2
    ensures |Concat(parts)| == 2 * |parts|
    ensures forall i | 0 <= i < |parts| :: Concat(parts)[2 * i..2 * i + 2] == parts[i]
    decreases |parts|
  {
    if parts != [] {
      var head, tail := parts[0], parts[1..];
      assert forall i | 0 <= i < |tail| :: tail[i] == parts[i + 1];
      ConcatOfPairs(tail);
      var all := Concat(parts);
      assert all == head + Concat(tail);
      forall i | 0 <= i < |parts| ensures all[2 * i..2 * i + 2] == parts[i] {
        if i == 0 {
          assert all[0..2] == head;
        } else {
          assert tail[i - 1] == parts[i];
          assert all[2 * i..2 * i + 2] == Concat(tail)[2 * (i - 1)..2 * (i - 1) + 2];
        }
      }
    }
  }

  /** The segments of byte-valued runs: two lower-case hex digits each,
      reading back as the run's value. */
  lemma SegmentListOfBytes(runs: seq<string>)
    requires AllExactRuns(runs)
    requires forall i | 0 <= i < |runs| :: DecimalValue(runs[i]) < 256
    ensures forall i | 0 <= i < |runs| ::
      && |SegmentList(runs)[i]| == 2 && AllLowerHex(SegmentList(runs)[i])
      && AllHex(SegmentList(runs)[i])
      && ParseHex(SegmentList(runs)[i]) == DecimalValue(runs[i])
  {
    forall i | 0 <= i < |runs|
      ensures |SegmentList(runs)[i]| == 2 && AllLowerHex(SegmentList(runs)[i])
      ensures AllHex(SegmentList(runs)[i])
      ensures ParseHex(SegmentList(runs)[i]) == DecimalValue(runs[i])
    {
      SegmentOfByte(runs[i]);
    }
  }

  /** `#` followed by two-digit lower-case hex parts: part i sits right
      after the `#` at positions 1 + 2i and 2 + 2i. */
  lemma HashThenPairs(parts: seq<string>)
    requires forall i | 0 <= i < |parts| :: |parts[i]| == 2 && AllLowerHex(parts[i])
    ensures |"#" + Concat(parts)| == 1 + 2 * |parts|
    ensures AllLowerHex(("#" + Concat(parts))[1..])
    ensures forall i | 0 <= i < |parts| :: ("#" + Concat(parts))[1 + 2 * i..3 + 2 * i] == parts[i]
  {
    ConcatOfPairs(parts);
    var body := Concat(parts);
    var out := "#" + body;
    assert out[1..] == body;
    forall i | 0 <= i < |parts| ensures out[1 + 2 * i..3 + 2 * i] == parts[i] {
      assert out[1 + 2 * i..3 + 2 * i] == body[2 * i..2 * i + 2];
    }
    ConcatLowerHex(parts);
  }

  /** Concatenating lower-case hex strings gives a lower-case hex string. */
  lemma {:induction false} ConcatLowerHex(parts: seq<string>)
    requires forall i | 0 <= i < |parts| :: AllLowerHex(parts[i])
    ensures AllLowerHex(Concat(parts))
    decreases |parts|
  {
    if parts != [] {
      var head, tail := parts[0], parts[1..];
      assert forall i | 0 <= i < |tail| :: tail[i] == parts[i + 1];
      ConcatLowerHex(tail);
      var all := Concat(parts);
      assert all == head + Concat(tail);
      forall k | 0 <= k < |all| ensures IsLowerHexDigit(all[k]) {
        if k >= |head| {
          assert all[k] == Concat(tail)[k - |head|];
        }
      }
    }
  }

  /** `#` followed by parts that are the two-digit hex forms of the values
      of some digit runs: the pair at pair position i reads back as run i. */
  lemma HashThenBytePairs(parts: seq<string>, runs: seq<string>)
    requires |parts| == |runs|
    requires forall i | 0 <= i < |runs| :: AllDecimal(runs[i])
    requires forall i | 0 <= i < |parts| ::
      && |parts[i]| == 2 && AllLowerHex(parts[i]) && AllHex(parts[i])
      && ParseHex(parts[i]) == DecimalValue(runs[i])
    ensures |"#" + Concat(parts)| == 1 + 2 * |runs|
    ensures AllLowerHex(("#" + Concat(parts))[1..])
    ensures forall i | 0 <= i < |runs| ::
      && AllHex(("#" + Concat(parts))[1 + 2 * i..3 + 2 * i])
      && ParseHex(("#" + Concat(parts))[1 + 2 * i..3 + 2 * i]) == DecimalValue(runs[i])
  {
    HashThenPairs(parts);
  }

  /** For runs that are all bytes, the output has length 1 + 2 * (number
      of runs), is lower-case hex after the `#`, and the digit pair at pair
      position i reads back as run i. */
  lemma RgbToHexOfBytes(s: string)
    requires AllExactRuns(DigitRuns(s)) && !NoDecimal(s)
    requires forall i | 0 <= i < |DigitRuns(s)| :: DecimalValue(DigitRuns(s)[i]) < 256
    ensures RgbToHex(s).Success?
    ensures |RgbToHex(s).value| == 1 + 2 * |DigitRuns(s)|
    ensures AllLowerHex(RgbToHex(s).value[1..])
    ensures forall i | 0 <= i < |DigitRuns(s)| ::
      && AllHex(RgbToHex(s).value[1 + 2 * i..3 + 2 * i])
      && ParseHex(RgbToHex(s).value[1 + 2 * i..3 + 2 * i]) == DecimalValue(DigitRuns(s)[i])
  {
    var runs := DigitRuns(s);
    SegmentListOfBytes(runs);
    RgbToHexIsSegments(s);
    HashThenBytePairs(SegmentList(runs), runs);
  }

  // =====================================================================
  // The CSS computed colour and the round trip
  // =====================================================================

  /** How a browser serialises an opaque computed colour: `rgb(r, g, b)`. */
  function RgbString(r: Byte, g: Byte, b: Byte): string {
    "rgb(" + DecimalString(r) + ", " + DecimalString(g) + ", " + DecimalString(b) + ")"
  }

  /** The computed colour of a transparent background: `rgba(r, g, b, 0)`. */
  function TransparentRgbaString(r: Byte, g: Byte, b: Byte): string {
    "rgba(" + DecimalString(r) + ", " + DecimalString(g) + ", " + DecimalString(b) + ", 0)"
  }

  /** The gaps and runs of `rgb(r, g, b)`. */
  function RgbGaps(): seq<string> {
    ["rgb(", ", ", ", ", ")"]
  }

  function RgbRuns(r: Byte, g: Byte, b: Byte): seq<string> {
    [DecimalString(r), DecimalString(g), DecimalString(b)]
  }

  lemma RgbSplitIsMaximal(r: Byte, g: Byte, b: Byte)
    ensures MaximalSplit(RgbGaps(), RgbRuns(r, g, b))
  {
    var gaps := RgbGaps();
    assert NoDecimal(gaps[0]) && NoDecimal(gaps[1]) && NoDecimal(gaps[2]) && NoDecimal(gaps[3]);
  }

  lemma RgbSplitJoins(r: Byte, g: Byte, b: Byte)
    ensures Join(RgbGaps(), RgbRuns(r, g, b)) == RgbString(r, g, b)
  {
    JoinThree("rgb(", ", ", ", ", ")", DecimalString(r), DecimalString(g), DecimalString(b));
  }

  lemma DigitRunsOfRgbString(r: Byte, g: Byte, b: Byte)
    ensures DigitRuns(RgbString(r, g, b)) == [DecimalString(r), DecimalString(g), DecimalString(b)]
  {
    RgbSplitIsMaximal(r, g, b);
    RgbSplitJoins(r, g, b);
    DigitRunsOfJoin(RgbGaps(), RgbRuns(r, g, b));
  }

  /** The gaps and runs of `rgba(r, g, b, 0)`. */
  function RgbaGaps(): seq<string> {
    ["rgba(", ", ", ", ", ", ", ")"]
  }

  function RgbaRuns(r: Byte, g: Byte, b: Byte): seq<string> {
    [DecimalString(r), DecimalString(g), DecimalString(b), "0"]
  }

  lemma RgbaSplitIsMaximal(r: Byte, g: Byte, b: Byte)
    ensures MaximalSplit(RgbaGaps(), RgbaRuns(r, g, b))
  {
    var gaps, runs := RgbaGaps(), RgbaRuns(r, g, b);
    assert NoDecimal(gaps[0]) && NoDecimal(gaps[1]) && NoDecimal(gaps[2]);
    assert NoDecimal(gaps[3]) && NoDecimal(gaps[4]) && AllDecimal(runs[3]);
  }

  lemma RgbaSplitJoins(r: Byte, g: Byte, b: Byte)
    ensures Join(RgbaGaps(), RgbaRuns(r, g, b)) == TransparentRgbaString(r, g, b)
  {
    JoinFour("rgba(", ", ", ", ", ", ", ")", DecimalString(r), DecimalString(g), DecimalString(b), "0");
  }

  lemma DigitRunsOfTransparentRgbaString(r: Byte, g: Byte, b: Byte)
    ensures DigitRuns(TransparentRgbaString(r, g, b))
         == [DecimalString(r), DecimalString(g), DecimalString(b), "0"]
  {
    RgbaSplitIsMaximal(r, g, b);
    RgbaSplitJoins(r, g, b);
    DigitRunsOfJoin(RgbaGaps(), RgbaRuns(r, g, b));
  }

  // The lemmas below come in a three-run and a four-run form (`rgb(...)`
  // and `rgba(...)`) rather than one lemma over a list of runs. Each is
  // stated over abstract strings so that, where it is applied, the solver
  // does not unfold Segment and HexByte inside a general sequence argument,
  // which exceeds its resource limit.

  /** The concatenation of three parts, written out. */
  lemma ConcatThree(a: string, b: string, c: string)
    ensures Concat([a, b, c]) == a + b + c
  {
    assert [a, b, c][1..] == [b, c] && [b, c][1..] == [c] && [c][1..] == [];
    assert Concat([c]) == c + "" == c;
    assert Concat([b, c]) == b + c;
  }

  /** `#` and the concatenation of three or four parts, written out. */
  lemma HashConcat3(a: string, b: string, c: string)
    ensures "#" + Concat([a, b, c]) == "#" + a + b + c
  {
    ConcatThree(a, b, c);
  }

  lemma HashConcat4(a: string, b: string, c: string, d: string)
    ensures "#" + Concat([a, b, c, d]) == "#" + a + b + c + d
  {
    assert [a, b, c, d][1..] == [b, c, d];
    ConcatThree(b, c, d);
  }

  /** The segments of three or four byte-valued runs. */
  lemma SegmentListOfThree(x: string, y: string, z: string, vx: Byte, vy: Byte, vz: Byte)
    requires AllDecimal(x) && AllDecimal(y) && AllDecimal(z)
    requires DecimalValue(x) == vx && DecimalValue(y) == vy && DecimalValue(z) == vz
    ensures AllExactRuns([x, y, z])
    ensures SegmentList([x, y, z]) == [HexByte(vx), HexByte(vy), HexByte(vz)]
  {
    var runs := [x, y, z];
    var segments := SegmentList(runs);
    SegmentAt(runs, 0, vx);
    SegmentAt(runs, 1, vy);
    SegmentAt(runs, 2, vz);
    ListOfThree(segments, HexByte(vx), HexByte(vy), HexByte(vz));
  }

  lemma SegmentListOfFour(w: string, x: string, y: string, z: string, vw: Byte, vx: Byte, vy: Byte, vz: Byte)
    requires AllDecimal(w) && AllDecimal(x) && AllDecimal(y) && AllDecimal(z)
    requires DecimalValue(w) == vw && DecimalValue(x) == vx
    requires DecimalValue(y) == vy && DecimalValue(z) == vz
    ensures AllExactRuns([w, x, y, z])
    ensures SegmentList([w, x, y, z]) == [HexByte(vw), HexByte(vx), HexByte(vy), HexByte(vz)]
  {
    var runs := [w, x, y, z];
    var segments := SegmentList(runs);
    SegmentAt(runs, 0, vw);
    SegmentAt(runs, 1, vx);
    SegmentAt(runs, 2, vy);
    SegmentAt(runs, 3, vz);
    ListOfFour(segments, HexByte(vw), HexByte(vx), HexByte(vy), HexByte(vz));
  }

  /** The segment at position i of byte-valued run i. */
  lemma SegmentAt(runs: seq<string>, i: nat, v: Byte)
    requires AllExactRuns(runs) && i < |runs| && DecimalValue(runs[i]) == v
    ensures SegmentList(runs)[i] == HexByte(v)
  {
    SegmentOfByte(runs[i]);
  }

  /** A list is determined by its length and its elements. */
  lemma ListOfThree<T>(s: seq<T>, a: T, b: T, c: T)
    requires |s| == 3 && s[0] == a && s[1] == b && s[2] == c
    ensures s == [a, b, c]
  {
  }

  lemma ListOfFour<T>(s: seq<T>, a: T, b: T, c: T, d: T)
    requires |s| == 4 && s[0] == a && s[1] == b && s[2] == c && s[3] == d
    ensures s == [a, b, c, d]
  {
  }

  /** rgbToHex on a string with three byte-valued digit runs. */
  lemma RgbToHexOfThreeRuns(s: string, x: string, y: string, z: string, vx: Byte, vy: Byte, vz: Byte)
    requires DigitRuns(s) == [x, y, z]
    requires AllDecimal(x) && AllDecimal(y) && AllDecimal(z)
    requires DecimalValue(x) == vx && DecimalValue(y) == vy && DecimalValue(z) == vz
    ensures AllExactRuns(DigitRuns(s))
    ensures RgbToHex(s) == Success("#" + HexByte(vx) + HexByte(vy) + HexByte(vz))
  {
    SegmentListOfThree(x, y, z, vx, vy, vz);
    assert !NoDecimal(s) by {
      DigitRunsEmptyIff(s);
    }
    RgbToHexIsSegments(s);
    HashConcat3(HexByte(vx), HexByte(vy), HexByte(vz));
  }

  /** rgbToHex on a string with four byte-valued digit runs. */
  lemma RgbToHexOfFourRuns(s: string, w: string, x: string, y: string, z: string,
                           vw: Byte, vx: Byte, vy: Byte, vz: Byte)
    requires DigitRuns(s) == [w, x, y, z]
    requires AllDecimal(w) && AllDecimal(x) && AllDecimal(y) && AllDecimal(z)
    requires DecimalValue(w) == vw && DecimalValue(x) == vx
    requires DecimalValue(y) == vy && DecimalValue(z) == vz
    ensures AllExactRuns(DigitRuns(s))
    ensures RgbToHex(s) == Success("#" + HexByte(vw) + HexByte(vx) + HexByte(vy) + HexByte(vz))
  {
    SegmentListOfFour(w, x, y, z, vw, vx, vy, vz);
    assert !NoDecimal(s) by {
      DigitRunsEmptyIff(s);
    }
    RgbToHexIsSegments(s);
    HashConcat4(HexByte(vw), HexByte(vx), HexByte(vy), HexByte(vz));
  }

  /** `rgbToHex("rgb(r, g, b)")` is `#` and the two zero-padded lower-case
      hex digits of r, g and b: seven characters. */
  lemma RgbToHexOfRgbString(r: Byte, g: Byte, b: Byte)
    ensures AllExactRuns(DigitRuns(RgbString(r, g, b)))
    ensures RgbToHex(RgbString(r, g, b)) == Success("#" + HexByte(r) + HexByte(g) + HexByte(b))
    ensures |RgbToHex(RgbString(r, g, b)).value| == 7
  {
    DigitRunsOfRgbString(r, g, b);
    RgbToHexOfThreeRuns(RgbString(r, g, b), DecimalString(r), DecimalString(g), DecimalString(b), r, g, b);
  }

  /** A transparent computed colour has four digit runs, so rgbToHex gives
      nine characters, `#rrggbb00`, not a six-digit colour. */
  lemma RgbToHexOfTransparentRgba(r: Byte, g: Byte, b: Byte)
    ensures AllExactRuns(DigitRuns(TransparentRgbaString(r, g, b)))
    ensures RgbToHex(TransparentRgbaString(r, g, b))
         == Success("#" + HexByte(r) + HexByte(g) + HexByte(b) + "00")
    ensures |RgbToHex(TransparentRgbaString(r, g, b)).value| == 9
  {
    DigitRunsOfTransparentRgbaString(r, g, b);
    assert DecimalValue("0") == 0 by { assert "0"[..0] == []; }
    assert HexByte(0) == "00";
    RgbToHexOfFourRuns(TransparentRgbaString(r, g, b), DecimalString(r), DecimalString(g), DecimalString(b), "0", r, g, b, 0);
  }

  /** hexToRgb of `#` and three zero-padded hex bytes gives back the bytes
      over 255. */
  lemma HexToRgbOfHexBytes(r: Byte, g: Byte, b: Byte)
    ensures HexToRgb("#" + HexByte(r) + HexByte(g) + HexByte(b))
         == Some(Rgb(r as real / 255.0, g as real / 255.0, b as real / 255.0))
  {
    var hr, hg, hb := HexByte(r), HexByte(g), HexByte(b);
    var hex := "#" + hr + hg + hb;
    var d := hex[1..];
    assert d == hr + hg + hb;
    assert d[0] == hr[0] && d[1] == hr[1] && d[2] == hg[0];
    assert d[3] == hg[1] && d[4] == hb[0] && d[5] == hb[1];
    assert AllHex(d);
    assert IsHexColor(hex) && HexDigits(hex) == d;
    assert PairValue(d[0], d[1]) == r && PairValue(d[2], d[3]) == g && PairValue(d[4], d[5]) == b;
    HexToRgbChannels(hex);
  }

  /** Round trip: the hex string rgbToHex makes from `rgb(r, g, b)` is
      accepted by hexToRgb, which gives back r / 255, g / 255, b / 255. */
  lemma RoundTrip(r: Byte, g: Byte, b: Byte)
    ensures AllExactRuns(DigitRuns(RgbString(r, g, b)))
    ensures RgbToHex(RgbString(r, g, b)).Success?
    ensures HexToRgb(RgbToHex(RgbString(r, g, b)).value)
         == Some(Rgb(r as real / 255.0, g as real / 255.0, b as real / 255.0))
  {
    RgbToHexOfRgbString(r, g, b);
    HexToRgbOfHexBytes(r, g, b);
  }
}
