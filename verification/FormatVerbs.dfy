/** `stripFormatVerbs` of the tool catalogue: three passes through a two-rune sentinel.

    The meaning is a single left-to-right scan. The three passes compute that scan exactly on
    the inputs in which the sentinel itself does not occur. */
module FormatVerbs {
  import opened Strings

  const SENTINEL: string := "\U{E000}\U{E001}"

  // ----- the fixed expression  %[0-9.*+# \-]*[a-zA-Z] -----

  predicate IsFlag(c: char) {
    IsDigit(c) || c == '.' || c == '*' || c == '+' || c == '#' || c == ' ' || c == '-'
  }

  /** How many runes the part after the percent sign matches at the head of `s`, or -1. */
  function VerbTail(s: string): (n: int)
    ensures n == -1 || 1 <= n <= |s|
  {
    if s == "" then -1
    else if IsLetter(s[0]) then 1
    else if !IsFlag(s[0]) then -1
    else var n := VerbTail(s[1..]); if n == -1 then -1 else n + 1
  }

  /** `w` is a string the expression matches. */
  predicate IsVerb(w: string) {
    && |w| >= 2
    && w[0] == '%'
    && IsLetter(w[|w| - 1])
    && forall i :: 1 <= i < |w| - 1 ==> IsFlag(w[i])
  }

  /** Length of the verb at the head of `s`, 0 when there is none. */
  function VerbLength(s: string): (n: nat)
    ensures n <= |s|
    ensures n > 0 ==> n >= 2
  {
    if s != "" && s[0] == '%' && VerbTail(s[1..]) != -1 then 1 + VerbTail(s[1..]) else 0
  }

  /** The matcher finds a verb exactly when some prefix is one, and there is never a choice. */
  lemma VerbLengthExact(s: string, n: nat)
    requires n <= |s|
    ensures IsVerb(s[..n]) <==> n > 0 && VerbLength(s) == n
  {
    if n >= 2 && s[0] == '%' {
      VerbTailExact(s[1..], n - 1);
      forall i | 1 <= i < n - 1 ensures s[..n][i] == s[1..][i - 1] {}
      assert s[..n][n - 1] == s[1..][n - 2];
      if IsVerb(s[..n]) {
        forall i | 0 <= i < n - 2 ensures IsFlag(s[1..][i]) {
          assert IsFlag(s[..n][i + 1]);
        }
      }
    }
  }

  lemma {:induction false} VerbTailExact(s: string, n: nat)
    requires 1 <= n <= |s|
    ensures VerbTail(s) == n <==> IsLetter(s[n - 1]) && forall i :: 0 <= i < n - 1 ==> IsFlag(s[i])
  {
    if n > 1 {
      VerbTailExact(s[1..], n - 1);
      assert s[1..][n - 2] == s[n - 1];
      if !IsLetter(s[0]) && IsFlag(s[0]) {
        forall i | 0 <= i < n - 2 ensures s[1..][i] == s[i + 1] {}
        assert (forall i :: 0 <= i < n - 1 ==> IsFlag(s[i]))
          <==> (forall i :: 0 <= i < n - 2 ==> IsFlag(s[1..][i])) by {
          if forall i :: 0 <= i < n - 2 ==> IsFlag(s[1..][i]) {
            forall i | 0 <= i < n - 1 ensures IsFlag(s[i]) {
              if i > 0 { assert IsFlag(s[1..][i - 1]); }
            }
          }
        }
      }
    }
  }

  /** `reFormatVerb.ReplaceAllString(s, "N")`. */
  function ReplaceVerbs(s: string): string
  {
    if s == "" then ""
    else if VerbLength(s) > 0 then "N" + ReplaceVerbs(s[VerbLength(s)..])
    else [s[0]] + ReplaceVerbs(s[1..])
  }

  /** The function as written: hide `%%`, replace the verbs, bring `%` back. */
  function StripFormatVerbs(s: string): string {
    var hidden := ReplaceAll(s, "%%", SENTINEL);
    var named := ReplaceVerbs(hidden);
    ReplaceAll(named, SENTINEL, "%")
  }

  /** The meaning: one scan, `%%` to `%`, a verb to `N`, anything else copied. */
  function Scan(s: string): string {
    if s == "" then ""
    else if "%%" <= s then "%" + Scan(s[2..])
    else if VerbLength(s) > 0 then "N" + Scan(s[VerbLength(s)..])
    else [s[0]] + Scan(s[1..])
  }

  /** The same scan, except that a sentinel in the input also reads as `%`. */
  function ScanMarked(s: string): string {
    if s == "" then ""
    else if "%%" <= s || SENTINEL <= s then "%" + ScanMarked(s[2..])
    else if VerbLength(s) > 0 then "N" + ScanMarked(s[VerbLength(s)..])
    else [s[0]] + ScanMarked(s[1..])
  }

  // ----- three passes are one marked scan -----

  function Hide(s: string): string { ReplaceAll(s, "%%", SENTINEL) }

  function Show(s: string): string { ReplaceAll(s, SENTINEL, "%") }

  /** Hiding leaves a stretch without percent signs alone. */
  lemma {:induction false} HideKeeps(w: string, s: string)
    requires '%' !in w
    ensures Hide(w + s) == w + Hide(s)
  {
    if w == "" {
      assert w + s == s;
    } else {
      assert w[0] in w;
      assert (w + s)[1..] == w[1..] + s;
      HideKeeps(w[1..], s);
      assert w == [w[0]] + w[1..];
    }
  }

  /** Hiding neither creates nor destroys the rest of a verb. */
  lemma {:induction false} HideVerbTail(s: string)
    ensures VerbTail(Hide(s)) == VerbTail(s)
  {
    if s != "" && !("%%" <= s) {
      HideVerbTail(s[1..]);
      assert Hide(s)[1..] == Hide(s[1..]);
    }
  }

  /** A verb without its percent sign has none. */
  lemma VerbHasOnePercent(s: string)
    requires VerbLength(s) > 0
    ensures '%' !in s[1..VerbLength(s)]
  {
    var n := VerbLength(s);
    VerbLengthExact(s, n);
    var w := s[..n];
    forall i | 1 <= i < n ensures w[i] != '%' {
      if i < n - 1 { assert IsFlag(w[i]); }
    }
    assert w[1..] == s[1..n];
  }

  /** The hidden text never starts with the second sentinel rune unless the text did. */
  lemma HideHead(s: string)
    ensures Hide(s) == "" <==> s == ""
    ensures s != "" ==> Hide(s)[0] == (if "%%" <= s then SENTINEL[0] else s[0])
  {
  }

  lemma VerbsHead(s: string)
    ensures ReplaceVerbs(s) == "" <==> s == ""
    ensures s != "" ==> ReplaceVerbs(s)[0] == (if VerbLength(s) > 0 then 'N' else s[0])
  {
  }

  lemma HideVerb(s: string)
    requires VerbLength(s) > 0 && !("%%" <= s)
    ensures var n := VerbLength(s); ReplaceVerbs(Hide(s)) == "N" + ReplaceVerbs(Hide(s[n..]))
  {
    var n := VerbLength(s);
    var w, rest := s[1..n], s[n..];
    assert s[1..] == w + rest;
    VerbHasOnePercent(s);
    HideKeeps(w, rest);
    HideVerbTail(s[1..]);
    assert Hide(s) == ['%'] + (w + Hide(rest));
    assert Hide(s)[1..] == w + Hide(rest);
    assert Hide(s)[n..] == Hide(rest);
  }

  lemma ReplaceHere(s: string, old_: string, new_: string)
    requires old_ != "" && old_ <= s
    ensures ReplaceAll(s, old_, new_) == new_ + ReplaceAll(s[|old_|..], old_, new_)
  {
  }

  lemma HidePercents(s: string)
    requires "%%" <= s
    ensures ReplaceVerbs(Hide(s)) == SENTINEL + ReplaceVerbs(Hide(s[2..]))
  {
    var r := Hide(s[2..]);
    ReplaceHere(s, "%%", SENTINEL);
    assert SENTINEL == [SENTINEL[0], SENTINEL[1]];
    VerbsCopyTwo(SENTINEL[0], SENTINEL[1], r);
  }

  lemma VerbsCopyTwo(c: char, d: char, r: string)
    requires c != '%' && d != '%'
    ensures ReplaceVerbs([c, d] + r) == [c, d] + ReplaceVerbs(r)
  {
    assert ([c, d] + r)[1..] == [d] + r && ([d] + r)[1..] == r;
    assert ReplaceVerbs([d] + r) == [d] + ReplaceVerbs(r);
  }

  lemma HideOther(s: string)
    requires s != "" && VerbLength(s) == 0 && !("%%" <= s)
    ensures ReplaceVerbs(Hide(s)) == [s[0]] + ReplaceVerbs(Hide(s[1..]))
  {
    HideVerbTail(s[1..]);
    assert Hide(s)[1..] == Hide(s[1..]);
  }

  lemma ShowMarked(y: string)
    ensures Show(SENTINEL + y) == "%" + Show(y)
  {
    assert (SENTINEL + y)[2..] == y;
  }

  lemma ShowOther(c: char, y: string)
    requires !(c == SENTINEL[0] && y != "" && y[0] == SENTINEL[1])
    ensures Show([c] + y) == [c] + Show(y)
  {
    assert ([c] + y)[1..] == y;
    assert y != "" ==> ([c] + y)[1] == y[0];
  }

  /** On every input, sentinels included, the three passes are one marked scan. */
  lemma {:induction false} ThreePassesAreOneScan(s: string)
    ensures StripFormatVerbs(s) == ScanMarked(s)
    decreases |s|
  {
    if s == "" {
    } else if "%%" <= s {
      HidePercents(s);
      ShowMarked(ReplaceVerbs(Hide(s[2..])));
      ThreePassesAreOneScan(s[2..]);
    } else if SENTINEL <= s {
      HideOther(s);
      HideOther(s[1..]);
      assert s[1..][1..] == s[2..];
      var y := ReplaceVerbs(Hide(s[2..]));
      assert ReplaceVerbs(Hide(s)) == SENTINEL + y;
      ShowMarked(y);
      ThreePassesAreOneScan(s[2..]);
    } else if VerbLength(s) > 0 {
      var n := VerbLength(s);
      HideVerb(s);
      ShowOther('N', ReplaceVerbs(Hide(s[n..])));
      ThreePassesAreOneScan(s[n..]);
    } else {
      HideOther(s);
      HideHead(s[1..]);
      VerbsHead(Hide(s[1..]));
      ShowOther(s[0], ReplaceVerbs(Hide(s[1..])));
      ThreePassesAreOneScan(s[1..]);
    }
  }

  // ----- when the marked scan is the plain scan -----

  lemma SentinelStep(s: string, n: nat)
    requires n <= |s|
    requires forall i :: 0 <= i < n ==> !OccursAt(s, SENTINEL, i)
    ensures Contains(s, SENTINEL) <==> Contains(s[n..], SENTINEL)
  {
    forall i | 0 <= i <= |s| - n
      ensures OccursAt(s[n..], SENTINEL, i) <==> OccursAt(s, SENTINEL, n + i)
    {
      if i + 2 <= |s| - n {
        assert s[n..][i..i + 2] == s[n + i..n + i + 2];
      }
    }
    if Contains(s, SENTINEL) {
      var i :| 0 <= i <= |s| && OccursAt(s, SENTINEL, i);
      assert OccursAt(s[n..], SENTINEL, i - n);
    }
  }

  lemma NoSentinelInVerb(s: string, n: nat)
    requires n <= |s|
    requires (n == 2 && "%%" <= s) || (0 < n && n == VerbLength(s))
    ensures forall i :: 0 <= i < n ==> !OccursAt(s, SENTINEL, i)
  {
    if n == VerbLength(s) { VerbLengthExact(s, n); }
    forall i | 0 <= i < n ensures !OccursAt(s, SENTINEL, i) {
      assert s[..n][i] == s[i];
      assert i + 2 <= |s| ==> s[i..i + 2][0] == s[i];
    }
  }

  /** Marking can only shorten the result, and does so exactly when there is something to mark. */
  lemma {:induction false} MarkingShortens(s: string)
    ensures |ScanMarked(s)| <= |Scan(s)|
    ensures Contains(s, SENTINEL) ==> |ScanMarked(s)| < |Scan(s)|
    ensures !Contains(s, SENTINEL) ==> ScanMarked(s) == Scan(s)
    decreases |s|
  {
    if s == "" {
      assert !OccursAt(s, SENTINEL, 0);
    } else if "%%" <= s {
      NoSentinelInVerb(s, 2);
      SentinelStep(s, 2);
      MarkingShortens(s[2..]);
    } else if SENTINEL <= s {
      assert OccursAt(s, SENTINEL, 0);
      assert Scan(s) == [s[0]] + Scan(s[1..]);
      assert Scan(s[1..]) == [s[1]] + Scan(s[2..]) by { assert s[1..][1..] == s[2..]; }
      MarkingShortens(s[2..]);
    } else if VerbLength(s) > 0 {
      var n := VerbLength(s);
      NoSentinelInVerb(s, n);
      SentinelStep(s, n);
      MarkingShortens(s[n..]);
    } else {
      assert 2 <= |s| ==> s[..2] == s[0..2];
      SentinelStep(s, 1);
      MarkingShortens(s[1..]);
    }
  }

  /** The sentinel form computes the scan on exactly the inputs in which the sentinel does not
      occur; odd runs of `%` and flags that no letter follows make no difference. */
  lemma StripFormatVerbsIsScan(s: string)
    ensures StripFormatVerbs(s) == Scan(s) <==> !Contains(s, "\U{E000}\U{E001}")
  {
    ThreePassesAreOneScan(s);
    MarkingShortens(s);
  }

  // ----- the meaning, spelled out -----

  lemma NoSentinelAfter(s: string, n: nat)
    requires n <= |s| && !Contains(s, SENTINEL)
    ensures !Contains(s[n..], SENTINEL)
  {
    forall i | 0 <= i <= |s| - n ensures !OccursAt(s[n..], SENTINEL, i) {
      assert !OccursAt(s, SENTINEL, n + i);
      if i + 2 <= |s| - n {
        assert s[n..][i..i + 2] == s[n + i..n + i + 2];
      }
    }
  }

  lemma IsVerbExact(w: string)
    ensures IsVerb(w) <==>
            && |w| >= 2 && w[0] == '%'
            && ('a' <= w[|w| - 1] <= 'z' || 'A' <= w[|w| - 1] <= 'Z')
            && forall i :: 1 <= i < |w| - 1 ==> w[i] in "0123456789.*+# -"
  {
    forall c ensures IsFlag(c) <==> c in "0123456789.*+# -" {
      FlagExact(c);
    }
  }

  lemma FlagExact(c: char)
    ensures IsFlag(c) <==> c in "0123456789.*+# -"
  {
    var flags := "0123456789.*+# -";
    if IsDigit(c) {
      assert flags[c as int - '0' as int] == c;
    }
    assert flags[10] == '.' && flags[11] == '*' && flags[12] == '+' && flags[13] == '#';
    assert flags[14] == ' ' && flags[15] == '-';
  }

  /** How a text without the sentinel is read: a doubled percent sign gives one, a verb gives `N`,
      and a rune that starts neither stays. */
  lemma StripReads(s: string)
    requires s != "" && !Contains(s, SENTINEL)
    ensures "%%" <= s ==> StripFormatVerbs(s) == "%" + StripFormatVerbs(s[2..])
    ensures forall n: nat :: n <= |s| && !("%%" <= s) && IsVerb(s[..n]) ==>
              StripFormatVerbs(s) == "N" + StripFormatVerbs(s[n..])
    ensures !("%%" <= s) && (forall n: nat :: n <= |s| ==> !IsVerb(s[..n])) ==>
              StripFormatVerbs(s) == [s[0]] + StripFormatVerbs(s[1..])
  {
    StripFormatVerbsIsScan(s);
    NoSentinelAfter(s, 1);
    StripFormatVerbsIsScan(s[1..]);
    if "%%" <= s {
      NoSentinelAfter(s, 2);
      StripFormatVerbsIsScan(s[2..]);
    }
    forall n: nat | n <= |s| && !("%%" <= s) && IsVerb(s[..n])
      ensures StripFormatVerbs(s) == "N" + StripFormatVerbs(s[n..])
    {
      VerbLengthExact(s, n);
      NoSentinelAfter(s, n);
      StripFormatVerbsIsScan(s[n..]);
    }
    VerbLengthExact(s, VerbLength(s));
  }
}
