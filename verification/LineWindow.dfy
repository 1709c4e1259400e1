/** The pipeline every log and command output goes through: drop blank lines, keep matching
    lines, cut a window with head and tail. */
module LineWindow {
  import opened Strings

  datatype HeadTailParams = HeadTailParams(head: int, tail: int, applyTailFirst: bool)

  function Head<T>(lines: seq<T>, n: int): seq<T> {
    if |lines| == 0 then lines
    else if n <= 0 || n >= |lines| then lines
    else lines[..n]
  }

  function Tail<T>(lines: seq<T>, n: int): seq<T> {
    if |lines| == 0 then lines
    else if n <= 0 || n >= |lines| then lines
    else lines[|lines| - n..]
  }

  /** `Apply`. */
  function Apply<T>(h: HeadTailParams, lines: seq<T>, defaultMaxLines: int): seq<T> {
    if h.head == 0 && h.tail == 0 then Head(lines, defaultMaxLines)
    else if h.head != 0 && h.tail != 0 then
      if h.applyTailFirst then Head(Tail(lines, h.tail), h.head)
      else Tail(Head(lines, h.head), h.tail)
    else if h.head != 0 then Head(lines, h.head)
    else Tail(lines, h.tail)
  }

  // ----- the window -----

  /** How many of `len` lines a limit lets through; zero and negative limits let all through. */
  function Limit(n: int, len: nat): nat {
    if n <= 0 || n > len then len else n
  }

  datatype Window = Window(lo: nat, hi: nat)

  /** First and past-the-end line kept out of `len`. Limits that are not set keep all, except
      that the default stands in for the head when neither is set. */
  function WindowOf(h: HeadTailParams, len: nat, defaultMaxLines: int): Window {
    var head := if h.head == 0 && h.tail == 0 then defaultMaxLines else h.head;
    if h.applyTailFirst then
      var lo := len - Limit(h.tail, len);
      Window(lo, lo + Limit(head, len - lo))
    else
      var hi := Limit(head, len);
      Window(hi - Limit(h.tail, hi), hi)
  }

  /** Applying the parameters is cutting that window, for every combination of signs. */
  lemma ApplyIsWindow<T>(h: HeadTailParams, lines: seq<T>, defaultMaxLines: int)
    ensures var w := WindowOf(h, |lines|, defaultMaxLines);
            w.lo <= w.hi <= |lines| && Apply(h, lines, defaultMaxLines) == lines[w.lo..w.hi]
  {
    var head := if h.head == 0 && h.tail == 0 then defaultMaxLines else h.head;
    HeadIsLimit(lines, head);
    TailIsLimit(lines, h.tail);
    HeadIsLimit(Tail(lines, h.tail), head);
    TailIsLimit(Head(lines, head), h.tail);
    assert Apply(h, lines, defaultMaxLines)
        == if h.applyTailFirst then Head(Tail(lines, h.tail), head) else Tail(Head(lines, head), h.tail);
  }

  /** The same in the terms of the tool descriptions: the first `head` lines, the last `tail`
      lines, the default number of first lines when neither is asked for, and both limits in the
      order asked for; a negative limit is none. */
  lemma ApplyCases<T>(h: HeadTailParams, lines: seq<T>, defaultMaxLines: int)
    ensures var (r, n) := (Apply(h, lines, defaultMaxLines), |lines|);
      && (h.head == h.tail == 0 ==> r == if 0 < defaultMaxLines < n then lines[..defaultMaxLines] else lines)
      && (0 < h.head && h.tail <= 0 ==> r == if h.head < n then lines[..h.head] else lines)
      && (h.head <= 0 < h.tail ==> r == if h.tail < n then lines[n - h.tail..] else lines)
      && (h.head <= 0 && h.tail <= 0 && h.head + h.tail < 0 ==> r == lines)
      && (0 < h.head && 0 < h.tail && h.applyTailFirst ==>
           r == if n <= h.tail then (if h.head < n then lines[..h.head] else lines)
                else if h.head < h.tail then lines[n - h.tail..n - h.tail + h.head]
                else lines[n - h.tail..])
      && (0 < h.head && 0 < h.tail && !h.applyTailFirst ==>
           r == if n <= h.head then (if h.tail < n then lines[n - h.tail..] else lines)
                else if h.tail < h.head then lines[h.head - h.tail..h.head]
                else lines[..h.head])
  {
    ApplyIsWindow(h, lines, defaultMaxLines);
    assert lines[..|lines|] == lines && lines[0..] == lines;
  }

  lemma HeadIsLimit<T>(lines: seq<T>, n: int)
    ensures Head(lines, n) == lines[..Limit(n, |lines|)]
  {
  }

  lemma TailIsLimit<T>(lines: seq<T>, n: int)
    ensures Tail(lines, n) == lines[|lines| - Limit(n, |lines|)..]
  {
  }

  /** With both limits set, the order in which they apply does not matter exactly when one of
      them lets all lines through. */
  lemma OrderMatters(head: int, tail: int, len: nat, defaultMaxLines: int)
    requires head != 0 && tail != 0
    ensures WindowOf(HeadTailParams(head, tail, true), len, defaultMaxLines)
         == WindowOf(HeadTailParams(head, tail, false), len, defaultMaxLines)
        <==> head < 0 || head >= len || tail < 0 || tail >= len
  {
  }

  /** When the windows differ so do the lines: over distinct lines the two orders yield the same
      text under the very same condition. */
  lemma OrderMattersForLines<T>(head: int, tail: int, lines: seq<T>, defaultMaxLines: int)
    requires head != 0 && tail != 0
    requires forall i, j :: 0 <= i < j < |lines| ==> lines[i] != lines[j]
    ensures Apply(HeadTailParams(head, tail, true), lines, defaultMaxLines)
         == Apply(HeadTailParams(head, tail, false), lines, defaultMaxLines)
        <==> head < 0 || head >= |lines| || tail < 0 || tail >= |lines|
  {
    var a, b := HeadTailParams(head, tail, true), HeadTailParams(head, tail, false);
    var v, w := WindowOf(a, |lines|, defaultMaxLines), WindowOf(b, |lines|, defaultMaxLines);
    ApplyIsWindow(a, lines, defaultMaxLines);
    ApplyIsWindow(b, lines, defaultMaxLines);
    OrderMatters(head, tail, |lines|, defaultMaxLines);
    var x, y := lines[v.lo..v.hi], lines[w.lo..w.hi];
    if v != w {
      assert v.lo < v.hi && w.lo < w.hi;
      assert x[0] == lines[v.lo] && y[0] == lines[w.lo];
      assert |x| == v.hi - v.lo && |y| == w.hi - w.lo;
      assert v.lo != w.lo || |x| != |y|;
    }
  }

  // ----- selecting lines -----

  predicate NonBlank(line: string) {
    TrimSpace(line) != ""
  }

  /** A line stays exactly when something in it is not white space. */
  lemma NonBlankExact(line: string)
    ensures NonBlank(line) <==> exists c :: c in line && !IsSpace(c)
  {
    TrimSubset(line);
    if TrimSpace(line) != "" {
      assert TrimSpace(line)[0] in TrimSpace(line);
    }
    TrimKeeps(line);
  }

  /** `StripEmptyLines`. */
  method StripEmptyLines(lines: seq<string>) returns (r: seq<string>)
    ensures r == Filter(NonBlank, lines)
  {
    if |lines| == 0 {
      return lines;
    }
    r := FilterLines(lines, NonBlank);
  }

  /** A search pattern: not given, not a regular expression, or the lines it matches. */
  datatype Pattern = NoPattern | BadPattern | Matching(matches: string -> bool)
  {
    predicate Allows(line: string) {
      Matching? ==> matches(line)
    }
  }

  datatype Execution = Lines(lines: seq<string>) | PatternNotSupported | InvalidPattern | FetchFailed

  /** `ExecuteWithMatch`; `fetched` is what the function it is given returns. */
  method ExecuteWithMatch(p: Pattern, fetched: Option<seq<string>>, checkMatch: bool) returns (r: Execution)
    ensures r.PatternNotSupported? <==> !checkMatch && p != NoPattern
    ensures r.InvalidPattern? <==> checkMatch && p.BadPattern?
    ensures r.FetchFailed? <==> fetched.None? && (if checkMatch then !p.BadPattern? else p.NoPattern?)
    ensures r.Lines? ==> fetched.Some? && r.lines == Filter(l => p.Allows(l), fetched.value)
    ensures r.Lines? && p.Matching? ==> r.lines == Filter(p.matches, fetched.value)
    ensures r.Lines? && p.NoPattern? ==> r.lines == fetched.value
  {
    if fetched.Some? && p.Matching? {
      FilterSame(p.matches, l => p.Allows(l), fetched.value);
    }
    if fetched.Some? && p.NoPattern? {
      FilterAll(l => p.Allows(l), fetched.value);
    }
    if !checkMatch {
      if p != NoPattern {
        return PatternNotSupported;
      }
      return if fetched.Some? then Lines(fetched.value) else FetchFailed;
    }
    if p.NoPattern? {
      return if fetched.Some? then Lines(fetched.value) else FetchFailed;
    }
    if p.BadPattern? {
      return InvalidPattern;
    }
    if fetched.None? {
      return FetchFailed;
    }
    var matched := FilterLines(fetched.value, l => p.Allows(l));
    return Lines(matched);
  }

  /** Stripping blank lines and matching commute. */
  lemma StripAndMatchCommute(p: Pattern, lines: seq<string>)
    ensures Filter(l => p.Allows(l), Filter(NonBlank, lines)) == Filter(NonBlank, Filter(l => p.Allows(l), lines))
  {
    FilterTwice(l => p.Allows(l), NonBlank, l => p.Allows(l) && NonBlank(l), lines);
  }

  // ----- the whole pipeline -----

  /** Lines of a file as they are returned to the client. */
  method GetOutput(lines: seq<string>, p: Pattern, h: HeadTailParams, defaultMaxLines: int)
    returns (r: Option<seq<string>>)
    ensures r.None? <==> p.BadPattern?
    ensures r.Some? ==> r.value == Output(lines, p, h, defaultMaxLines)
  {
    var stripped := StripEmptyLines(lines);
    var matched := ExecuteWithMatch(p, Some(stripped), true);
    if !matched.Lines? {
      return None;
    }
    r := Some(Apply(h, matched.lines, defaultMaxLines));
  }

  function Output(lines: seq<string>, p: Pattern, h: HeadTailParams, defaultMaxLines: int): seq<string> {
    Apply(h, Filter(l => p.Allows(l), Filter(NonBlank, lines)), defaultMaxLines)
  }

  /** What comes out in terms of the runes of a line and the pattern alone. */
  lemma OutputExact(lines: seq<string>, p: Pattern, h: HeadTailParams, defaultMaxLines: int, keep: string -> bool)
    requires !p.BadPattern?
    requires forall l :: keep(l) <==> (exists c :: c in l && !IsSpace(c)) && (p.Matching? ==> p.matches(l))
    ensures Output(lines, p, h, defaultMaxLines) == Apply(h, Filter(keep, lines), defaultMaxLines)
  {
    forall l ensures keep(l) <==> p.Allows(l) && NonBlank(l) {
      NonBlankExact(l);
    }
    FilterTwice(l => p.Allows(l), NonBlank, keep, lines);
  }

  ghost predicate Wanted(p: Pattern, line: string) {
    p.Allows(line) && NonBlank(line)
  }

  /** What the client gets are lines of the file in their order, all of them wanted, and no
      wanted line between two of them is missing. How many there are is the width of the
      window over the number of wanted lines. */
  lemma OutputIsContiguous(lines: seq<string>, p: Pattern, h: HeadTailParams, defaultMaxLines: int)
    returns (wanted: seq<nat>, ix: seq<nat>)
    ensures Selects(l => Wanted(p, l), lines, wanted) && Increasing(wanted)
    ensures var w := WindowOf(h, |wanted|, defaultMaxLines);
            w.lo <= w.hi <= |wanted| && ix == wanted[w.lo..w.hi]
    ensures PickedAt(lines, ix, Output(lines, p, h, defaultMaxLines))
    ensures NoGaps(lines, l => Wanted(p, l), ix)
  {
    var want := l => Wanted(p, l);
    var all := Filter(want, lines);
    FilterTwice(l => p.Allows(l), NonBlank, want, lines);
    wanted := FilterInOrder(want, lines);
    ApplyIsWindow(h, all, defaultMaxLines);
    var w := WindowOf(h, |wanted|, defaultMaxLines);
    ix := wanted[w.lo..w.hi];
    PickedSlice(lines, wanted, all, w.lo, w.hi);
    SliceHasNoGaps(lines, want, wanted, w.lo, w.hi);
    assert want == (l => Wanted(p, l));
  }

  /** Between two picked positions every passing one is picked. */
  ghost predicate NoGaps<T(!new)>(xs: seq<T>, keep: T -> bool, ix: seq<nat>) {
    forall a, b, i: nat :: 0 <= a <= b < |ix| && ix[a] <= i <= ix[b] && i < |xs| && keep(xs[i]) ==> i in ix
  }

  lemma PickedSlice<T>(xs: seq<T>, ix: seq<nat>, picked: seq<T>, lo: nat, hi: nat)
    requires PickedAt(xs, ix, picked) && lo <= hi <= |ix|
    ensures PickedAt(xs, ix[lo..hi], picked[lo..hi])
  {
  }

  lemma SliceHasNoGaps<T(!new)>(xs: seq<T>, keep: T -> bool, ix: seq<nat>, lo: nat, hi: nat)
    requires Selects(keep, xs, ix) && Increasing(ix) && lo <= hi <= |ix|
    ensures NoGaps(xs, keep, ix[lo..hi])
  {
    var jx := ix[lo..hi];
    forall a, b, i: nat | 0 <= a <= b < |jx| && jx[a] <= i <= jx[b] && i < |xs| && keep(xs[i]) ensures i in jx {
      assert i in ix;
      var k :| 0 <= k < |ix| && ix[k] == i;
      assert lo + a <= k <= lo + b;
      assert jx[k - lo] == i;
    }
  }
}
