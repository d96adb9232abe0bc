/** `s.match(/[0-9]+/g)`: the list of maximal runs of decimal digits in s,
    left to right (an empty list stands for the `null` that `match` returns
    when nothing matches).

    Its meaning is pinned down by a decomposition: s is the interleaving
    gap0 run0 gap1 run1 ... gapN of digit-free gaps and non-empty digit
    runs whose inner gaps are non-empty. Such a decomposition exists
    (GapsJoinRuns) and DigitRuns recovers the runs of every one of them
    (DigitRunsOfJoin), so the runs are exactly the maximal ones. */
module DigitMatch {
  import opened Radix

  /** Length of the longest prefix of s made only of decimal digits. */
  function LeadingDigits(s: string): (n: nat)
    ensures n <= |s| && AllDecimal(s[..n])
    ensures n == |s| || !IsDecimalDigit(s[n])
  {
    if s == [] || !IsDecimalDigit(s[0]) then 0
    else
      var n := 1 + LeadingDigits(s[1..]);
      assert s[..n] == [s[0]] + s[1..][..n - 1];
      n
  }

  /** The global leftmost-longest matches of `[0-9]+` in s. */
  function DigitRuns(s: string): (runs: seq<string>)
    ensures forall i | 0 <= i < |runs| :: 0 < |runs[i]| && AllDecimal(runs[i])
    decreases |s|
  {
    if s == [] then []
    else if !IsDecimalDigit(s[0]) then DigitRuns(s[1..])
    else
      var n := LeadingDigits(s);
      [s[..n]] + DigitRuns(s[n..])
  }

  /** The digit-free stretches around and between the runs of s. */
  function Gaps(s: string): (gaps: seq<string>)
    ensures |gaps| == |DigitRuns(s)| + 1
    decreases |s|
  {
    if s == [] then [""]
    else if !IsDecimalDigit(s[0]) then
      var g := Gaps(s[1..]);
      [[s[0]] + g[0]] + g[1..]
    else
      [""] + Gaps(s[LeadingDigits(s)..])
  }

  /** gaps[0] + runs[0] + gaps[1] + ... + runs[N-1] + gaps[N]. */
  function Join(gaps: seq<string>, runs: seq<string>): string
    requires |gaps| == |runs| + 1
    decreases |runs|
  {
    if runs == [] then gaps[0]
    else gaps[0] + runs[0] + Join(gaps[1..], runs[1..])
  }

  /** Join of one, three and four runs, written out. These fixed-arity
      forms stand in for an induction over the run list: with the concrete
      strings of a computed colour in scope, that induction is too costly
      for the solver, while these lemmas only see abstract strings. */
  lemma JoinOne(g0: string, g1: string, x: string)
    ensures Join([g0, g1], [x]) == g0 + x + g1
  {
    assert [g0, g1][1..] == [g1] && [x][1..] == [];
  }

  lemma JoinThree(g0: string, g1: string, g2: string, g3: string, x: string, y: string, z: string)
    ensures Join([g0, g1, g2, g3], [x, y, z]) == g0 + x + g1 + y + g2 + z + g3
  {
    assert [g0, g1, g2, g3][1..] == [g1, g2, g3] && [x, y, z][1..] == [y, z];
    assert [g1, g2, g3][1..] == [g2, g3] && [y, z][1..] == [z];
    JoinOne(g2, g3, z);
  }

  lemma JoinFour(g0: string, g1: string, g2: string, g3: string, g4: string,
                 w: string, x: string, y: string, z: string)
    ensures Join([g0, g1, g2, g3, g4], [w, x, y, z]) == g0 + w + g1 + x + g2 + y + g3 + z + g4
  {
    assert [g0, g1, g2, g3, g4][1..] == [g1, g2, g3, g4] && [w, x, y, z][1..] == [x, y, z];
    JoinThree(g1, g2, g3, g4, x, y, z);
  }

  /** gaps and runs describe a split of a string into maximal digit runs. */
  predicate MaximalSplit(gaps: seq<string>, runs: seq<string>) {
    && |gaps| == |runs| + 1
    && (forall i | 0 <= i < |runs| :: 0 < |runs[i]| && AllDecimal(runs[i]))
    && (forall i | 0 <= i < |gaps| :: NoDecimal(gaps[i]))
    && (forall i | 0 < i < |runs| :: 0 < |gaps[i]|)
  }

  /** `match` returns `null` exactly when s contains no decimal digit. */
  lemma {:induction false} DigitRunsEmptyIff(s: string)
    ensures DigitRuns(s) == [] <==> NoDecimal(s)
    decreases |s|
  {
    if s != [] && !IsDecimalDigit(s[0]) {
      DigitRunsEmptyIff(s[1..]);
      assert NoDecimal(s) <==> NoDecimal(s[1..]) by {
        assert forall i | 1 <= i < |s| :: s[i] == s[1..][i - 1];
      }
    }
  }

  /** A digit-free prefix contributes no run. */
  lemma {:induction false} DigitRunsSkipGap(gap: string, t: string)
    requires NoDecimal(gap)
    ensures DigitRuns(gap + t) == DigitRuns(t)
    decreases |gap|
  {
    if gap == [] {
      assert gap + t == t;
    } else {
      assert (gap + t)[0] == gap[0];
      assert (gap + t)[1..] == gap[1..] + t;
      DigitRunsSkipGap(gap[1..], t);
    }
  }

  /** A run of digits followed by the end of the string or a non-digit is
      matched whole. */
  lemma {:induction false} LeadingDigitsOfRun(run: string, t: string)
    requires AllDecimal(run)
    requires t == [] || !IsDecimalDigit(t[0])
    ensures LeadingDigits(run + t) == |run|
    decreases |run|
  {
    if run != [] {
      assert (run + t)[1..] == run[1..] + t;
      LeadingDigitsOfRun(run[1..], t);
    }
  }

  lemma DigitRunsTakeRun(run: string, t: string)
    requires 0 < |run| && AllDecimal(run)
    requires t == [] || !IsDecimalDigit(t[0])
    ensures DigitRuns(run + t) == [run] + DigitRuns(t)
  {
    LeadingDigitsOfRun(run, t);
    var s := run + t;
    assert s[..|run|] == run && s[|run|..] == t;
  }

  /** A joined string starting with a non-empty gap starts with a non-digit. */
  lemma JoinStart(gaps: seq<string>, runs: seq<string>)
    requires MaximalSplit(gaps, runs)
    requires 0 < |gaps[0]|
    ensures 0 < |Join(gaps, runs)| && !IsDecimalDigit(Join(gaps, runs)[0])
  {
    assert gaps[0][0] == Join(gaps, runs)[0];
  }

  lemma MaximalSplitTail(gaps: seq<string>, runs: seq<string>)
    requires MaximalSplit(gaps, runs) && 0 < |runs|
    ensures MaximalSplit(gaps[1..], runs[1..])
  {
    assert forall i | 0 <= i < |runs| - 1 :: runs[1..][i] == runs[i + 1];
    assert forall i | 0 <= i < |gaps| - 1 :: gaps[1..][i] == gaps[i + 1];
  }

  /** Uniqueness: whatever maximal split produced s, DigitRuns finds its
      runs, in order and nothing else. */
  lemma {:induction false} DigitRunsOfJoin(gaps: seq<string>, runs: seq<string>)
    requires MaximalSplit(gaps, runs)
    ensures DigitRuns(Join(gaps, runs)) == runs
    decreases |runs|
  {
    if runs == [] {
      DigitRunsSkipGap(gaps[0], []);
      assert gaps[0] + [] == gaps[0];
    } else {
      MaximalSplitTail(gaps, runs);
      var rest := Join(gaps[1..], runs[1..]);
      if |runs| > 1 {
        JoinStart(gaps[1..], runs[1..]);
      } else {
        assert rest == gaps[1];
        assert rest == [] || !IsDecimalDigit(rest[0]);
      }
      assert Join(gaps, runs) == gaps[0] + (runs[0] + rest);
      DigitRunsSkipGap(gaps[0], runs[0] + rest);
      DigitRunsTakeRun(runs[0], rest);
      DigitRunsOfJoin(gaps[1..], runs[1..]);
    }
  }

  /** Existence: s splits into Gaps(s) and DigitRuns(s). */
  lemma GapsJoinRuns(s: string)
    ensures MaximalSplit(Gaps(s), DigitRuns(s))
    ensures Join(Gaps(s), DigitRuns(s)) == s
  {
    GapsAreMaximal(s);
    JoinGaps(s);
  }

  lemma {:induction false} JoinGaps(s: string)
    ensures Join(Gaps(s), DigitRuns(s)) == s
    decreases |s|
  {
    if s == [] {
    } else if !IsDecimalDigit(s[0]) {
      var t := s[1..];
      JoinGaps(t);
      JoinConsGap(s[0], Gaps(t), DigitRuns(t));
      assert s == [s[0]] + t;
    } else {
      var n := LeadingDigits(s);
      var t := s[n..];
      JoinGaps(t);
      JoinConsRun(s[..n], Gaps(t), DigitRuns(t));
      assert s == s[..n] + t;
    }
  }

  lemma JoinConsGap(c: char, g: seq<string>, runs: seq<string>)
    requires |g| == |runs| + 1
    ensures Join([[c] + g[0]] + g[1..], runs) == [c] + Join(g, runs)
  {
    var gs := [[c] + g[0]] + g[1..];
    assert gs[0] == [c] + g[0] && gs[1..] == g[1..];
    if runs != [] {
      assert Join(g, runs) == g[0] + runs[0] + Join(g[1..], runs[1..]);
      calc {
        Join(gs, runs);
        gs[0] + runs[0] + Join(gs[1..], runs[1..]);
        ([c] + g[0]) + runs[0] + Join(g[1..], runs[1..]);
        [c] + (g[0] + runs[0] + Join(g[1..], runs[1..]));
      }
    }
  }

  lemma JoinConsRun(run: string, g: seq<string>, runs: seq<string>)
    requires |g| == |runs| + 1
    ensures Join([""] + g, [run] + runs) == run + Join(g, runs)
  {
    var gs, rs := [""] + g, [run] + runs;
    assert gs[0] == "" && gs[1..] == g && rs[0] == run && rs[1..] == runs;
    assert "" + run == run;
  }

  lemma {:induction false} GapsAreMaximal(s: string)
    ensures MaximalSplit(Gaps(s), DigitRuns(s))
    decreases |s|
  {
    if s == [] {
    } else if !IsDecimalDigit(s[0]) {
      GapsAreMaximal(s[1..]);
      GapStepMaximal(s);
    } else {
      var t := s[LeadingDigits(s)..];
      GapsAreMaximal(t);
      if 0 < |DigitRuns(t)| {
        assert 0 < |t| && !IsDecimalDigit(t[0]);
      }
      RunStepMaximal(s);
    }
  }

  lemma GapStepMaximal(s: string)
    requires 0 < |s| && !IsDecimalDigit(s[0])
    requires MaximalSplit(Gaps(s[1..]), DigitRuns(s[1..]))
    ensures MaximalSplit(Gaps(s), DigitRuns(s))
  {
    var g := Gaps(s[1..]);
    assert DigitRuns(s) == DigitRuns(s[1..]);
    assert Gaps(s) == [[s[0]] + g[0]] + g[1..];
    ConsGapMaximal(s[0], g, DigitRuns(s[1..]));
  }

  /** Prepending a non-digit to the first gap keeps a split maximal. */
  lemma ConsGapMaximal(c: char, g: seq<string>, runs: seq<string>)
    requires !IsDecimalDigit(c) && MaximalSplit(g, runs)
    ensures MaximalSplit([[c] + g[0]] + g[1..], runs)
  {
    var first := [c] + g[0];
    var gs := [first] + g[1..];
    forall i | 1 <= i < |gs| ensures gs[i] == g[i] {
      assert gs[i] == g[1..][i - 1];
    }
    assert NoDecimal(first) by {
      assert NoDecimal(g[0]);
      forall i | 1 <= i < |first| ensures !IsDecimalDigit(first[i]) {
        assert first[i] == g[0][i - 1];
      }
    }
  }

  lemma RunStepMaximal(s: string)
    requires 0 < |s| && IsDecimalDigit(s[0])
    requires MaximalSplit(Gaps(s[LeadingDigits(s)..]), DigitRuns(s[LeadingDigits(s)..]))
    requires 0 < |DigitRuns(s[LeadingDigits(s)..])| ==> 0 < |Gaps(s[LeadingDigits(s)..])[0]|
    ensures MaximalSplit(Gaps(s), DigitRuns(s))
  {
    var n := LeadingDigits(s);
    var t := s[n..];
    assert Gaps(s) == [""] + Gaps(t);
    assert DigitRuns(s) == [s[..n]] + DigitRuns(t);
    ConsRunMaximal(s[..n], Gaps(t), DigitRuns(t));
  }

  /** Putting a run, behind an empty gap, in front of a split whose first
      gap is non-empty (or that has no runs) keeps it maximal. */
  lemma ConsRunMaximal(run: string, g: seq<string>, runs: seq<string>)
    requires 0 < |run| && AllDecimal(run) && MaximalSplit(g, runs)
    requires 0 < |runs| ==> 0 < |g[0]|
    ensures MaximalSplit([""] + g, [run] + runs)
  {
    var gs, rs := [""] + g, [run] + runs;
    forall i | 1 <= i < |gs| ensures gs[i] == g[i - 1] {
    }
    forall i | 1 <= i < |rs| ensures rs[i] == runs[i - 1] {
    }
  }
}
