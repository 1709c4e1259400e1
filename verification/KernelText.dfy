/** Error output of the kernel tools: dropping warnings and telling conntrack's summary line
    from real errors. */
module KernelText {
  import opened Strings

  predicate HasWarning(line: string) {
    Contains(line, "Warning") || Contains(line, "warning") || Contains(line, "WARNING")
  }

  predicate Harmless(line: string) {
    !HasWarning(line)
  }

  /** The lines of an output that mention no warning. */
  function KeptLines(output: string): seq<string> {
    Filter(Harmless, Split(output, '\n'))
  }

  /** What `filterWarnings` returns. */
  function WithoutWarnings(output: string): string {
    if output == "" then "" else Join(KeptLines(output), "\n")
  }

  /** `filterWarnings`. */
  method FilterWarnings(output: string) returns (r: string)
    ensures r == WithoutWarnings(output)
  {
    if output == "" {
      return output;
    }
    var lines := Split(output, '\n');
    var filteredLines := FilterLines(lines, Harmless);
    r := Join(filteredLines, "\n");
  }

  /** What is dropped, in so many words: every line that contains one of three spellings of the
      word, and no other, with the order kept. */
  lemma WarningsAreDropped(output: string, keep: string -> bool)
    requires forall line :: keep(line) <==>
               !Contains(line, "Warning") && !Contains(line, "warning") && !Contains(line, "WARNING")
    ensures WithoutWarnings(output) == if output == "" then "" else Join(Filter(keep, Split(output, '\n')), "\n")
  {
    FilterSame(Harmless, keep, Split(output, '\n'));
  }

  /** The text splits back into exactly the kept lines unless every line was dropped. */
  lemma KeptLinesExact(output: string)
    ensures Split(WithoutWarnings(output), '\n') == KeptLines(output) <==> KeptLines(output) != []
  {
    if output == "" {
      assert !OccursAt("", "Warning", 0) && !OccursAt("", "warning", 0) && !OccursAt("", "WARNING", 0);
      assert Split(output, '\n') == [""];
      assert Harmless("");
      FilterAll(Harmless, [""]);
    } else if KeptLines(output) != [] {
      SplitJoin(KeptLines(output), '\n');
    }
  }

  /** Filtering again changes nothing. */
  lemma FilterWarningsIdempotent(output: string)
    ensures WithoutWarnings(WithoutWarnings(output)) == WithoutWarnings(output)
  {
    KeptLinesExact(output);
    if KeptLines(output) != [] {
      FilterAll(Harmless, KeptLines(output));
    }
  }

  // ----- the summary line -----

  /** What follows a run of digits, of which there must be at least one. */
  function SkipDigits(s: string): Option<string> {
    if s == "" || !IsDigit(s[0]) then None
    else if |s| >= 2 && IsDigit(s[1]) then SkipDigits(s[1..])
    else Some(s[1..])
  }

  function Expect(s: Option<string>, text: string): Option<string> {
    if s.Some? && text <= s.value then Some(s.value[|text|..]) else None
  }

  function Number(s: Option<string>): Option<string> {
    if s.Some? then SkipDigits(s.value) else None
  }

  const HEAD: string := "conntrack v"
  const MIDDLE: string := " (conntrack-tools): "
  const TAIL: string := " flow entries have been shown"

  /** `^conntrack v\d+\.\d+\.\d+ \(conntrack-tools\): \d+ flow entries have been shown\.?$` */
  predicate IsSummary(line: string) {
    var major := Number(Expect(Some(line), HEAD));
    var minor := Number(Expect(major, "."));
    var patch := Number(Expect(minor, "."));
    var count := Number(Expect(patch, MIDDLE));
    var rest := Expect(count, TAIL);
    rest == Some("") || rest == Some(".")
  }

  predicate IsNumber(d: string) {
    d != "" && forall c :: c in d ==> IsDigit(c)
  }

  lemma {:induction false} SkipDigitsReads(d: string, rest: string)
    requires IsNumber(d) && (rest == "" || !IsDigit(rest[0]))
    ensures SkipDigits(d + rest) == Some(rest)
  {
    assert d[0] in d && (d + rest)[1..] == d[1..] + rest;
    if |d| > 1 {
      assert d[1] in d && forall c :: c in d[1..] ==> c in d;
      SkipDigitsReads(d[1..], rest);
    } else {
      assert d[1..] + rest == rest;
    }
  }

  lemma {:induction false} SkipDigitsSplits(s: string) returns (d: string)
    requires SkipDigits(s).Some?
    ensures IsNumber(d) && s == d + SkipDigits(s).value
  {
    if |s| >= 2 && IsDigit(s[1]) {
      var rest := SkipDigitsSplits(s[1..]);
      d := [s[0]] + rest;
      assert s == [s[0]] + s[1..];
    } else {
      d := [s[0]];
    }
  }

  lemma ExpectReads(text: string, rest: string)
    ensures Expect(Some(text + rest), text) == Some(rest)
  {
    assert (text + rest)[|text|..] == rest;
  }

  /** The summary line conntrack prints for a version and a count. */
  function Summary(major: string, minor: string, patch: string, count: string, stop: string): string {
    HEAD + (major + ("." + (minor + ("." + (patch + (MIDDLE + (count + (TAIL + stop))))))))
  }

  lemma SummaryIs(major: string, minor: string, patch: string, count: string, stop: string)
    ensures Summary(major, minor, patch, count, stop) ==
            "conntrack v" + major + "." + minor + "." + patch + " (conntrack-tools): " + count
            + " flow entries have been shown" + stop
  {
    Flatten(HEAD, major, ".", minor + ("." + (patch + (MIDDLE + (count + (TAIL + stop))))));
    Flatten(HEAD + major + ".", minor, ".", patch + (MIDDLE + (count + (TAIL + stop))));
    Flatten(HEAD + major + "." + minor + ".", patch, MIDDLE, count + (TAIL + stop));
    Flatten(HEAD + major + "." + minor + "." + patch + MIDDLE, count, TAIL, stop);
  }

  lemma Flatten(a: string, b: string, c: string, d: string)
    ensures a + (b + (c + d)) == a + b + c + d
  {
  }

  /** Every printed summary is recognised. */
  lemma SummaryRecognised(major: string, minor: string, patch: string, count: string, stop: string)
    requires IsNumber(major) && IsNumber(minor) && IsNumber(patch) && IsNumber(count)
    requires stop == "" || stop == "."
    ensures IsSummary(Summary(major, minor, patch, count, stop))
  {
    var e := TAIL + stop;
    var d := MIDDLE + (count + e);
    var c := "." + (patch + d);
    var b := "." + (minor + c);
    ExpectReads(HEAD, major + b);
    SkipDigitsReads(major, b);
    ExpectReads(".", minor + c);
    SkipDigitsReads(minor, c);
    ExpectReads(".", patch + d);
    SkipDigitsReads(patch, d);
    ExpectReads(MIDDLE, count + e);
    SkipDigitsReads(count, e);
    ExpectReads(TAIL, stop);
  }

  lemma ExpectSplits(s: string, text: string)
    requires Expect(Some(s), text).Some?
    ensures s == text + Expect(Some(s), text).value
  {
  }

  /** And nothing else is. */
  lemma SummaryOnly(line: string) returns (major: string, minor: string, patch: string, count: string, stop: string)
    requires IsSummary(line)
    ensures IsNumber(major) && IsNumber(minor) && IsNumber(patch) && IsNumber(count)
    ensures stop == "" || stop == "."
    ensures line == Summary(major, minor, patch, count, stop)
  {
    var l1 := Expect(Some(line), HEAD).value;
    ExpectSplits(line, HEAD);
    major := SkipDigitsSplits(l1);
    var l2 := SkipDigits(l1).value;
    ExpectSplits(l2, ".");
    var l3 := Expect(Some(l2), ".").value;
    minor := SkipDigitsSplits(l3);
    var l4 := SkipDigits(l3).value;
    ExpectSplits(l4, ".");
    var l5 := Expect(Some(l4), ".").value;
    patch := SkipDigitsSplits(l5);
    var l6 := SkipDigits(l5).value;
    ExpectSplits(l6, MIDDLE);
    var l7 := Expect(Some(l6), MIDDLE).value;
    count := SkipDigitsSplits(l7);
    var l8 := SkipDigits(l7).value;
    ExpectSplits(l8, TAIL);
    stop := Expect(Some(l8), TAIL).value;
  }

  // ----- separating the summary -----

  predicate NotSummary(line: string) {
    !IsSummary(line)
  }

  function SummaryLines(output: string): seq<string> {
    Filter(IsSummary, Split(output, '\n'))
  }

  function RemainingLines(output: string): seq<string> {
    Filter(NotSummary, Split(output, '\n'))
  }

  /** `splitConntrackSummary`. */
  method SplitConntrackSummary(output: string) returns (summary: string, remaining: string)
    ensures summary == Join(SummaryLines(output), "\n")
    ensures remaining == Join(RemainingLines(output), "\n")
  {
    var lines := Split(output, '\n');
    if output == "" {
      FilterMore(IsSummary, [], "");
      FilterMore(NotSummary, [], "");
      assert lines == [] + [""];
      return "", "";
    }
    var summaryLines, remainingLines := [], [];
    for i := 0 to |lines|
      invariant summaryLines == Filter(IsSummary, lines[..i])
      invariant remainingLines == Filter(NotSummary, lines[..i])
    {
      var line := lines[i];
      assert lines[..i + 1] == lines[..i] + [line];
      FilterMore(IsSummary, lines[..i], line);
      FilterMore(NotSummary, lines[..i], line);
      if IsSummary(line) {
        summaryLines := summaryLines + [line];
      } else {
        remainingLines := remainingLines + [line];
      }
    }
    assert lines[..|lines|] == lines;
    return Join(summaryLines, "\n"), Join(remainingLines, "\n");
  }

  /** `xs` is `a` and `b` merged, each in its own order. */
  ghost predicate Merges<T>(a: seq<T>, b: seq<T>, xs: seq<T>)
    decreases |xs|
  {
    if xs == [] then a == [] && b == []
    else
      || (a != [] && a[0] == xs[0] && Merges(a[1..], b, xs[1..]))
      || (b != [] && b[0] == xs[0] && Merges(a, b[1..], xs[1..]))
  }

  lemma {:induction false} FiltersMerge(lines: seq<string>)
    ensures Merges(Filter(IsSummary, lines), Filter(NotSummary, lines), lines)
  {
    if lines != [] {
      FiltersMerge(lines[1..]);
      var a, b := Filter(IsSummary, lines[1..]), Filter(NotSummary, lines[1..]);
      assert ([lines[0]] + a)[1..] == a && ([lines[0]] + b)[1..] == b;
      assert [] + a == a && [] + b == b;
    }
  }

  /** The two groups are a stable partition of the lines: merged in order they give all lines
      back, one group is all summaries and the other has none. */
  lemma SummaryPartition(output: string)
    ensures Merges(SummaryLines(output), RemainingLines(output), Split(output, '\n'))
    ensures forall line :: line in SummaryLines(output) ==> IsSummary(line)
    ensures forall line :: line in RemainingLines(output) ==> !IsSummary(line)
  {
    FiltersMerge(Split(output, '\n'));
  }

  // ----- which error output passes -----

  /** The check `GetConntrack` makes on standard error: the summary to append, or the error. */
  method AcceptStderr(stderr: string) returns (ok: bool, summary: string)
    ensures ok <==> RemainingLines(stderr) == [] || RemainingLines(stderr) == [""]
    ensures ok && stderr != "" ==> summary == Join(SummaryLines(stderr), "\n") != ""
    ensures stderr == "" ==> summary == ""
  {
    summary := "";
    JoinEmpty(RemainingLines(stderr));
    if stderr != "" {
      var remaining;
      summary, remaining := SplitConntrackSummary(stderr);
      if remaining != "" {
        return false, summary;
      }
      AcceptedHasSummary(stderr);
    } else {
      assert Split("", '\n') == [""];
      FilterMore(NotSummary, [], "");
      assert [] + [""] == [""];
    }
    ok := true;
  }

  lemma JoinEmpty(lines: seq<string>)
    ensures Join(lines, "\n") == "" <==> lines == [] || lines == [""]
  {
    if |lines| == 1 {
      assert lines == [lines[0]];
    }
  }

  lemma SummaryNotEmpty(line: string)
    requires IsSummary(line)
    ensures line != ""
  {
  }

  /** Some accepted error output that is not empty always carries a summary. */
  lemma AcceptedHasSummary(stderr: string)
    requires stderr != "" && (RemainingLines(stderr) == [] || RemainingLines(stderr) == [""])
    ensures Join(SummaryLines(stderr), "\n") != ""
  {
    var s, r, lines := SummaryLines(stderr), RemainingLines(stderr), Split(stderr, '\n');
    JoinEmpty(s);
    JoinSplit(stderr, '\n');
    if s == [] {
      FiltersMerge(lines);
      MergesOne(r, lines);
      assert false;
    } else if s == [""] {
      assert s[0] in s;
      SummaryNotEmpty(s[0]);
      assert false;
    }
  }

  lemma {:induction false} MergesOne<T>(b: seq<T>, xs: seq<T>)
    requires Merges([], b, xs)
    ensures b == xs
  {
    if xs != [] {
      MergesOne(b[1..], xs[1..]);
      assert b == [b[0]] + b[1..];
    }
  }
}
