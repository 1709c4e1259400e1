/** The pieces of Go's `strings` and `unicode` packages that the repository leans on,
    written over sequences of runes, with the round trips the other modules need. */
module Strings {

  datatype Option<+T> = None | Some(value: T)

  /** `unicode.IsSpace`. */
  predicate IsSpace(c: char) {
    var n := c as int;
    || 9 <= n <= 13 || n == 0x20 || n == 0x85 || n == 0xA0 || n == 0x1680
    || 0x2000 <= n <= 0x200A || n == 0x2028 || n == 0x2029 || n == 0x202F || n == 0x205F || n == 0x3000
  }

  predicate IsDigit(c: char) { '0' <= c <= '9' }

  predicate IsLetter(c: char) { 'a' <= c <= 'z' || 'A' <= c <= 'Z' }

  // ----- substrings -----

  predicate OccursAt(s: string, sub: string, i: int) {
    0 <= i && i + |sub| <= |s| && s[i..i + |sub|] == sub
  }

  /** `strings.Contains`. */
  predicate Contains(s: string, sub: string) {
    exists i :: 0 <= i <= |s| && OccursAt(s, sub, i)
  }

  /** `strings.HasSuffix`. */
  predicate HasSuffix(s: string, suffix: string) {
    |suffix| <= |s| && s[|s| - |suffix|..] == suffix
  }

  /** `strings.TrimSuffix`. */
  function TrimSuffix(s: string, suffix: string): string {
    if HasSuffix(s, suffix) then s[..|s| - |suffix|] else s
  }

  /** `strings.Index`, looking no earlier than `from`. */
  function IndexFrom(s: string, sub: string, from: nat): (r: int)
    requires from <= |s|
    ensures r == -1 || (from <= r && OccursAt(s, sub, r))
    ensures forall i :: from <= i < (if r == -1 then |s| + 1 else r) ==> !OccursAt(s, sub, i)
    decreases |s| - from
  {
    if OccursAt(s, sub, from) then from
    else if from == |s| then -1
    else IndexFrom(s, sub, from + 1)
  }

  /** `strings.Index`. */
  function Index(s: string, sub: string): (r: int)
    ensures r == -1 || OccursAt(s, sub, r)
    ensures forall i :: 0 <= i < (if r == -1 then |s| + 1 else r) ==> !OccursAt(s, sub, i)
  {
    IndexFrom(s, sub, 0)
  }

  /** `strings.LastIndex` for a one-rune pattern. */
  function LastIndex(s: string, c: char): (r: int)
    ensures -1 <= r < |s|
    ensures r >= 0 ==> s[r] == c
    ensures forall i :: r < i < |s| ==> s[i] != c
  {
    if s == [] then -1
    else if s[|s| - 1] == c then |s| - 1
    else LastIndex(s[..|s| - 1], c)
  }

  /** The last occurrence is determined by what follows it. */
  lemma LastIndexUnique(s: string, c: char, i: nat)
    requires i < |s| && s[i] == c
    requires c !in s[i + 1..]
    ensures LastIndex(s, c) == i
  {
    forall k | i < k < |s| ensures s[k] != c {
      assert s[k] == s[i + 1..][k - i - 1];
    }
  }

  /** `strings.ReplaceAll` for a non-empty pattern: leftmost, non-overlapping, left to right. */
  function ReplaceAll(s: string, old_: string, new_: string): string
    requires old_ != ""
  {
    if s == "" then ""
    else if old_ <= s then new_ + ReplaceAll(s[|old_|..], old_, new_)
    else [s[0]] + ReplaceAll(s[1..], old_, new_)
  }

  // ----- splitting and joining -----

  /** Puts a rune in front of the first part. */
  function GrowFirst(c: char, parts: seq<string>): seq<string>
    requires parts != []
  {
    [[c] + parts[0]] + parts[1..]
  }

  /** `strings.Split` on a single rune. */
  function Split(s: string, sep: char): (r: seq<string>)
    ensures |r| >= 1
    ensures forall p :: p in r ==> sep !in p
  {
    if s == "" then [""]
    else
      var rest := Split(s[1..], sep);
      if s[0] == sep then [""] + rest else GrowFirst(s[0], rest)
  }

  /** `strings.Join`. */
  function Join(parts: seq<string>, sep: string): string {
    if |parts| == 0 then ""
    else if |parts| == 1 then parts[0]
    else parts[0] + sep + Join(parts[1..], sep)
  }

  /** Joining undoes splitting. */
  lemma {:induction false} JoinSplit(s: string, sep: char)
    ensures Join(Split(s, sep), [sep]) == s
  {
    if s != "" {
      JoinSplit(s[1..], sep);
      var rest := Split(s[1..], sep);
      if s[0] == sep {
        assert ([""] + rest)[1..] == rest;
      } else if |rest| > 1 {
        assert GrowFirst(s[0], rest)[1..] == rest[1..];
      }
    }
  }

  /** A separator-free string is a single part. */
  lemma {:induction false} SplitFree(s: string, sep: char)
    requires sep !in s
    ensures Split(s, sep) == [s]
  {
    if s != "" {
      assert s[0] != sep && s == [s[0]] + s[1..];
      SplitFree(s[1..], sep);
    }
  }

  /** Splitting is a homomorphism: a separator in the middle just cuts the list of parts. */
  lemma SplitAppend(a: string, b: string, sep: char)
    ensures Split(a + [sep] + b, sep) == Split(a, sep) + Split(b, sep)
  {
    SplitAt(a + [sep] + b, a, b, sep);
  }

  lemma {:induction false} SplitAt(s: string, a: string, b: string, sep: char)
    requires s == a + [sep] + b
    ensures Split(s, sep) == Split(a, sep) + Split(b, sep)
    decreases |a|
  {
    SplitStep(s, sep);
    if a == "" {
      assert s[1..] == b;
    } else {
      assert s[1..] == a[1..] + [sep] + b;
      SplitAt(s[1..], a[1..], b, sep);
      SplitStep(a, sep);
      var ra, rb := Split(a[1..], sep), Split(b, sep);
      if a[0] == sep {
        assert [""] + (ra + rb) == ([""] + ra) + rb;
      } else {
        GrowFirstAppend(a[0], ra, rb);
      }
    }
  }

  lemma SplitStep(s: string, sep: char)
    requires s != ""
    ensures Split(s, sep) == var rest := Split(s[1..], sep); if s[0] == sep then [""] + rest else GrowFirst(s[0], rest)
  {
  }

  lemma GrowFirstAppend(c: char, a: seq<string>, b: seq<string>)
    requires a != []
    ensures GrowFirst(c, a + b) == GrowFirst(c, a) + b
  {
    assert (a + b)[1..] == a[1..] + b;
  }

  /** Splitting undoes joining of separator-free parts, unless there are no parts at all. */
  lemma {:induction false} SplitJoin(parts: seq<string>, sep: char)
    requires parts != []
    requires forall p :: p in parts ==> sep !in p
    ensures Split(Join(parts, [sep]), sep) == parts
  {
    SplitFree(parts[0], sep);
    if |parts| > 1 {
      SplitJoin(parts[1..], sep);
      SplitAppend(parts[0], Join(parts[1..], [sep]), sep);
      assert parts == [parts[0]] + parts[1..];
    }
  }

  /** How often a rune occurs. */
  function Count(s: string, c: char): nat {
    if s == "" then 0 else (if s[0] == c then 1 else 0) + Count(s[1..], c)
  }

  /** One more part than separators. */
  lemma {:induction false} SplitCount(s: string, sep: char)
    ensures |Split(s, sep)| == Count(s, sep) + 1
  {
    if s != "" {
      SplitCount(s[1..], sep);
    }
  }

  // ----- trimming and fields -----

  function TrimLeft(s: string): (r: string)
    ensures r == "" || !IsSpace(r[0])
  {
    if s != "" && IsSpace(s[0]) then TrimLeft(s[1..]) else s
  }

  function TrimRight(s: string): (r: string)
    ensures r == "" || !IsSpace(r[|r| - 1])
    ensures r <= s
  {
    if s != "" && IsSpace(s[|s| - 1]) then TrimRight(s[..|s| - 1]) else s
  }

  /** `strings.TrimSpace`. */
  function TrimSpace(s: string): (r: string)
    ensures Trimmed(r)
  {
    TrimRight(TrimLeft(s))
  }

  /** No white space at either end. */
  predicate Trimmed(s: string) {
    s == "" || (!IsSpace(s[0]) && !IsSpace(s[|s| - 1]))
  }

  lemma TrimSpaceFixed(s: string)
    requires Trimmed(s)
    ensures TrimSpace(s) == s
  {
  }

  lemma {:induction false} TrimLeftSubset(s: string)
    ensures forall c :: c in TrimLeft(s) ==> c in s
  {
    if s != "" {
      TrimLeftSubset(s[1..]);
    }
  }

  lemma TrimSubset(s: string)
    ensures forall c :: c in TrimSpace(s) ==> c in s
  {
    TrimLeftSubset(s);
  }

  lemma {:induction false} TrimLeftKeeps(s: string)
    ensures forall c :: c in s && !IsSpace(c) ==> c in TrimLeft(s)
  {
    if s != "" && IsSpace(s[0]) {
      TrimLeftKeeps(s[1..]);
      assert s == [s[0]] + s[1..];
    }
  }

  lemma {:induction false} TrimRightKeeps(s: string)
    ensures forall c :: c in s && !IsSpace(c) ==> c in TrimRight(s)
  {
    if s != "" && IsSpace(s[|s| - 1]) {
      TrimRightKeeps(s[..|s| - 1]);
      assert s == s[..|s| - 1] + [s[|s| - 1]];
    }
  }

  /** Trimming removes nothing but white space. */
  lemma TrimKeeps(s: string)
    ensures forall c :: c in s && !IsSpace(c) ==> c in TrimSpace(s)
  {
    TrimLeftKeeps(s);
    TrimRightKeeps(TrimLeft(s));
  }

  // ----- filtering -----

  /** A filter that keeps order. */
  function Filter<T(!new)>(keep: T -> bool, xs: seq<T>): (r: seq<T>)
    ensures forall x :: x in r <==> x in xs && keep(x)
    ensures |r| <= |xs|
  {
    if xs == [] then []
    else (if keep(xs[0]) then [xs[0]] else []) + Filter(keep, xs[1..])
  }

  lemma {:induction false} FilterAppend<T(!new)>(keep: T -> bool, xs: seq<T>, ys: seq<T>)
    ensures Filter(keep, xs + ys) == Filter(keep, xs) + Filter(keep, ys)
  {
    if xs == [] {
      assert xs + ys == ys;
    } else {
      assert (xs + ys)[1..] == xs[1..] + ys;
      FilterAppend(keep, xs[1..], ys);
    }
  }

  /** Filtering one more element. */
  lemma FilterMore<T(!new)>(keep: T -> bool, xs: seq<T>, x: T)
    ensures Filter(keep, xs + [x]) == if keep(x) then Filter(keep, xs) + [x] else Filter(keep, xs)
  {
    FilterAppend(keep, xs, [x]);
  }

  lemma {:induction false} FilterAll<T(!new)>(keep: T -> bool, xs: seq<T>)
    requires forall x :: x in xs ==> keep(x)
    ensures Filter(keep, xs) == xs
  {
    if xs != [] {
      FilterAll(keep, xs[1..]);
    }
  }

  /** Tests that agree on the elements select the same. */
  lemma {:induction false} FilterSame<T(!new)>(f: T -> bool, g: T -> bool, xs: seq<T>)
    requires forall x :: x in xs ==> f(x) == g(x)
    ensures Filter(f, xs) == Filter(g, xs)
  {
    if xs != [] {
      FilterSame(f, g, xs[1..]);
    }
  }

  /** The loop that appends the lines passing a test to a new slice. */
  method FilterLines(lines: seq<string>, keep: string -> bool) returns (kept: seq<string>)
    ensures kept == Filter(keep, lines)
  {
    kept := [];
    for i := 0 to |lines|
      invariant kept == Filter(keep, lines[..i])
    {
      var line := lines[i];
      assert lines[..i + 1] == lines[..i] + [line];
      FilterMore(keep, lines[..i], line);
      if keep(line) {
        kept := kept + [line];
      }
    }
    assert lines[..|lines|] == lines;
  }

  predicate Increasing(ix: seq<nat>) {
    forall a, b :: 0 <= a < b < |ix| ==> ix[a] < ix[b]
  }

  /** `picked` is what stands in `xs` at the increasing positions `ix`. */
  ghost predicate PickedAt<T>(xs: seq<T>, ix: seq<nat>, picked: seq<T>) {
    && Increasing(ix)
    && |picked| == |ix|
    && forall k :: 0 <= k < |ix| ==> ix[k] < |xs| && picked[k] == xs[ix[k]]
  }

  /** The positions `ix` are those whose element passes. */
  ghost predicate Selects<T(!new)>(keep: T -> bool, xs: seq<T>, ix: seq<nat>) {
    && (forall k :: 0 <= k < |ix| ==> ix[k] < |xs| && keep(xs[ix[k]]))
    && (forall i: nat :: i < |xs| && keep(xs[i]) ==> i in ix)
  }

  lemma SelectsMore<T(!new)>(keep: T -> bool, xs: seq<T>, ix: seq<nat>, x: T)
    requires Selects(keep, xs, ix)
    ensures Selects(keep, xs + [x], if keep(x) then ix + [|xs|] else ix)
  {
    var ys, jx := xs + [x], if keep(x) then ix + [|xs|] else ix;
    forall i: nat | i < |ys| && keep(ys[i]) ensures i in jx {
      if i < |xs| {
        assert ys[i] == xs[i];
        assert i in ix;
      } else {
        assert jx[|ix|] == i;
      }
    }
  }

  lemma PickedMore<T>(xs: seq<T>, ix: seq<nat>, picked: seq<T>, x: T)
    requires PickedAt(xs, ix, picked)
    ensures PickedAt(xs + [x], ix, picked) && PickedAt(xs + [x], ix + [|xs|], picked + [x])
  {
  }

  /** Filtering picks, in order, exactly the positions whose element passes. */
  lemma {:induction false} FilterInOrder<T(!new)>(keep: T -> bool, xs: seq<T>) returns (ix: seq<nat>)
    ensures PickedAt(xs, ix, Filter(keep, xs))
    ensures Selects(keep, xs, ix)
  {
    if xs == [] {
      ix := [];
    } else {
      var n := |xs| - 1;
      var front, last := xs[..n], xs[n];
      assert xs == front + [last];
      ix := FilterInOrder(keep, front);
      FilterMore(keep, front, last);
      SelectsMore(keep, front, ix, last);
      PickedMore(front, ix, Filter(keep, front), last);
      if keep(last) {
        ix := ix + [n];
      }
    }
  }

  /** Filters commute, and filtering twice is filtering for both conditions. */
  lemma {:induction false} FilterTwice<T(!new)>(f: T -> bool, g: T -> bool, both: T -> bool, xs: seq<T>)
    requires forall x :: both(x) <==> f(x) && g(x)
    ensures Filter(f, Filter(g, xs)) == Filter(both, xs) == Filter(g, Filter(f, xs))
  {
    if xs != [] {
      FilterTwice(f, g, both, xs[1..]);
      var one := [xs[0]];
      FilterAppend(f, if g(xs[0]) then one else [], Filter(g, xs[1..]));
      FilterAppend(g, if f(xs[0]) then one else [], Filter(f, xs[1..]));
    }
  }
}
