/** The README generator: generated text is spliced between the first start marker and the
    first end marker of the file. */
module ReadmeSplice {
  import opened Strings

  const START: string := "<!-- TOOLS_SECTION_START -->"
  const END: string := "<!-- TOOLS_SECTION_END -->"

  predicate NewlineAfterStart(c: string)
    requires Index(c, START) != -1
  {
    var i := Index(c, START) + |START|;
    i < |c| && c[i] == '\n'
  }

  /** Where the kept head of the file ends: after the start marker and one newline, if any. */
  function AfterStart(c: string): (r: nat)
    requires Index(c, START) != -1
    ensures r <= |c|
  {
    Index(c, START) + |START| + (if NewlineAfterStart(c) then 1 else 0)
  }

  predicate HasSection(c: string) {
    Index(c, START) != -1 && Index(c, END) > Index(c, START)
  }

  /** The new contents of the file, or `None` for the error that leaves it alone. */
  function Update(c: string, generated: string): Option<string> {
    var s, e := Index(c, START), Index(c, END);
    if s == -1 || e == -1 || e <= s then None
    else Some(c[..AfterStart(c)] + generated + "\n" + c[e..])
  }

  // ----- the markers cannot overlap themselves, each other or a newline -----

  lemma MarkerShape()
    ensures |START| == 28 && |END| == 26
    ensures START[0] == '<' && END[0] == '<'
    ensures START[20] != END[20]
    ensures forall k :: 1 <= k < |START| ==> START[k] != '<'
    ensures forall k :: 0 <= k < |END| ==> END[k] != '\n'
  {
    StartShape();
    assert '\n' !in END;
  }

  lemma StartShape()
    ensures forall k :: 1 <= k < |START| ==> START[k] != '<'
  {
    var rest := "!-- TOOLS_SECTION_START -->";
    assert '<' !in rest && START == ['<'] + rest;
  }

  lemma OccursChar(s: string, sub: string, i: int, k: int)
    requires OccursAt(s, sub, i) && 0 <= k < |sub|
    ensures s[i + k] == sub[k]
  {
    assert s[i..i + |sub|][k] == s[i + k];
  }

  /** No end marker can begin in the start marker or the newline kept after it. */
  lemma NoEndInStart(s: string, p: int, i: int)
    requires OccursAt(s, START, p)
    requires p <= i < p + |START| || (i == p + |START| && i < |s| && s[i] == '\n')
    ensures !OccursAt(s, END, i)
  {
    MarkerShape();
    if i < p + |START| {
      OccursChar(s, START, p, i - p);
      OccursChar(s, START, p, 20);
    }
    assert i + 26 <= |s| ==> s[i..i + 26][0] == s[i] && s[i..i + 26][20] == s[i + 20];
  }

  /** Everything about one update that later updates depend on. */
  lemma Spliced(c: string, g: string) returns (n: string, head: nat)
    requires HasSection(c)
    ensures Update(c, g) == Some(n)
    ensures head == AfterStart(c) <= Index(c, END)
    ensures n == c[..head] + g + "\n" + c[Index(c, END)..]
    ensures Index(n, START) == Index(c, START)
    ensures forall i :: 0 <= i < head ==> !OccursAt(n, END, i)
  {
    MarkerShape();
    var s, e := Index(c, START), Index(c, END);
    head := AfterStart(c);
    if e < head {
      NoEndInStart(c, s, e);
      assert false;
    }
    n := c[..head] + g + "\n" + c[e..];
    assert n[..head] == c[..head];
    OccursWithin(c, n, START, s, head);
    forall i | 0 <= i < s ensures !OccursAt(n, START, i) {
      OccursWithin(c, n, START, i, head);
    }
    forall i | 0 <= i < head ensures !OccursAt(n, END, i) {
      if i < s {
        OccursWithin(c, n, END, i, head);
      } else {
        assert i == s + |START| ==> n[i] == c[i];
        NoEndInStart(n, s, i);
      }
    }
  }

  lemma OccursWithin(c: string, n: string, sub: string, i: nat, head: nat)
    requires head <= |c| && head <= |n| && c[..head] == n[..head]
    requires i + |sub| <= head
    ensures OccursAt(c, sub, i) <==> OccursAt(n, sub, i)
  {
    assert c[i..i + |sub|] == c[..head][i..i + |sub|];
    assert n[i..i + |sub|] == n[..head][i..i + |sub|];
  }

  /** In the updated file the first end marker is the first one of the generated text, or the
      old one when the generated text has none: none straddles a splice boundary. */
  lemma FirstEnd(c: string, g: string)
    requires HasSection(c)
    ensures Update(c, g).Some?
    ensures var n := Update(c, g).value; var head := AfterStart(c);
            Index(n, END) == head + (if Contains(g, END) then Index(g, END) else |g| + 1)
  {
    MarkerShape();
    var n, head := Spliced(c, g);
    var e := Index(c, END);
    assert '\n' !in END;
    assert c[e..][..|END|] == c[e..e + |END|];
    FirstInSplice(c[..head], g, c[e..], END);
  }

  /** The same for any marker without newlines: the newline after the text is a wall. */
  lemma FirstInSplice(head: string, g: string, rest: string, mark: string)
    requires mark != "" && '\n' !in mark && mark <= rest
    requires forall i :: 0 <= i < |head| ==> !OccursAt(head + g + "\n" + rest, mark, i)
    ensures Index(head + g + "\n" + rest, mark)
         == |head| + (if Contains(g, mark) then Index(g, mark) else |g| + 1)
  {
    var n := head + g + "\n" + rest;
    var p := |head| + |g|;
    assert n[|head|..p] == g;
    var first := if Contains(g, mark) then Index(g, mark) else |g| + 1;
    if Contains(g, mark) {
      assert first != -1 by {
        var i :| 0 <= i <= |g| && OccursAt(g, mark, i);
      }
      MarkAcross(n, |head|, g, mark, first);
    } else {
      assert n[p + 1..] == rest;
      assert n[p + 1..p + 1 + |mark|] == rest[..|mark|];
    }
    NoMarkBefore(n, |head|, g, mark, first);
    FirstOccurrence(n, mark, |head| + first);
  }

  lemma NoMarkBefore(n: string, head: nat, g: string, mark: string, first: nat)
    requires '\n' !in mark && mark != ""
    requires head + |g| < |n| && n[head..head + |g|] == g && n[head + |g|] == '\n'
    requires first <= |g| + 1 && forall i :: 0 <= i < first ==> !OccursAt(g, mark, i)
    ensures forall k :: head <= k < head + first ==> !OccursAt(n, mark, k)
  {
    forall k | head <= k < head + first ensures !OccursAt(n, mark, k) {
      MarkAcross(n, head, g, mark, k - head);
    }
  }

  lemma FirstOccurrence(s: string, sub: string, i: nat)
    requires OccursAt(s, sub, i)
    requires forall k :: 0 <= k < i ==> !OccursAt(s, sub, k)
    ensures Index(s, sub) == i
  {
  }

  lemma MarkAcross(n: string, head: nat, g: string, mark: string, i: nat)
    requires '\n' !in mark && mark != ""
    requires i <= |g| && head + |g| < |n|
    requires n[head..head + |g|] == g && n[head + |g|] == '\n'
    ensures OccursAt(n, mark, head + i) <==> OccursAt(g, mark, i)
  {
    var j := i + |mark|;
    if j <= |g| {
      forall k | i <= k < j ensures n[head + k] == g[k] {
        assert n[head + k] == n[head..head + |g|][k];
      }
      assert n[head + i..head + j] == g[i..j];
    } else {
      assert head + j <= |n| ==> n[head + i..head + j][|g| - i] == '\n';
    }
  }

  /** An update succeeds exactly when the file has its section. It leaves alone the file up to the
      start marker and from the end marker on, and puts the text on lines of its own in between. */
  lemma UpdateKeepsOutside(c: string, g: string)
    ensures Update(c, g).Some? <==>
            && Index(c, "<!-- TOOLS_SECTION_START -->") != -1
            && Index(c, "<!-- TOOLS_SECTION_END -->") > Index(c, "<!-- TOOLS_SECTION_START -->")
    ensures Update(c, g).Some? ==>
            var n := Update(c, g).value; var s, e := Index(c, START) + |START|, Index(c, END);
            && s <= |c| && 0 <= e <= |c|
            && n == c[..s] + (if s < |c| && c[s] == '\n' then "\n" else "") + g + "\n" + c[e..]
            && HasSection(n)
  {
    if HasSection(c) {
      FirstEnd(c, g);
      var n, head := Spliced(c, g);
      var s := Index(c, START) + |START|;
      if head == s + 1 {
        assert c[..head] == c[..s] + "\n";
      } else {
        assert c[..s] + "" == c[..s];
      }
    }
  }

  /** A caller can check before an update whether a later one will absorb it: the text has no
      end marker, and either the file already has its newline after the start marker or the
      text begins with something other than a newline. */
  predicate Absorbable(c: string, g: string)
    requires Index(c, START) != -1
  {
    && !Contains(g, END)
    && (NewlineAfterStart(c) || (g != "" && g[0] != '\n'))
  }

  lemma SpliceLength(c: string, g: string, head: nat, e: nat)
    requires head <= |c| && e <= |c|
    ensures |c[..head] + g + "\n" + c[e..]| == head + |g| + 1 + (|c| - e)
  {
  }

  /** Later updates absorb earlier ones on exactly the absorbable texts. */
  lemma UpdateAbsorbs(c: string, g1: string, g2: string)
    requires HasSection(c)
    ensures Update(c, g1).Some? && Update(Update(c, g1).value, g2).Some?
    ensures Update(Update(c, g1).value, g2) == Update(c, g2) <==> Absorbable(c, g1)
  {
    FirstEnd(c, g1);
    var n, head := Spliced(c, g1);
    var s, e := Index(c, START), Index(c, END);
    var m, head' := Spliced(n, g2);
    var k, _ := Spliced(c, g2);
    var e' := Index(n, END);
    SpliceLength(n, g2, head', e');
    SpliceLength(c, g2, head, e);
    assert head' == head + (if head == s + |START| && n[head] == '\n' then 1 else 0);
    assert n[head] == (if g1 == "" then '\n' else g1[0]);
    if Contains(g1, END) {
      var i :| 0 <= i <= |g1| && OccursAt(g1, END, i);
      assert |m| > |k|;
    } else {
      assert n[e'..] == c[e..];
      if head' == head {
        assert n[..head] == c[..head];
      }
    }
  }

  /** Running the generator twice is running it once. */
  lemma UpdateIdempotent(c: string, g: string)
    requires HasSection(c)
    ensures Update(c, g).Some?
    ensures Update(Update(c, g).value, g) == Update(c, g) <==> Absorbable(c, g)
  {
    UpdateAbsorbs(c, g, g);
  }

  // ----- table cells -----

  /** `escapeTableCell`. */
  function EscapeTableCell(s: string): string {
    TrimSpace(ReplaceAll(ReplaceAll(s, "|", "&#124;"), "\n", " "))
  }

  lemma {:induction false} ReplaceRemoves(s: string, c: char, by_: string)
    requires c !in by_
    ensures c !in ReplaceAll(s, [c], by_)
  {
    if s != "" {
      assert [c] <= s <==> s[0] == c;
      ReplaceRemoves(s[1..], c, by_);
    }
  }

  lemma {:induction false} ReplaceKeepsOut(s: string, d: char, c: char, by_: string)
    requires d !in s && d !in by_
    ensures d !in ReplaceAll(s, [c], by_)
  {
    if s != "" {
      assert s[0] in s;
      ReplaceKeepsOut(s[1..], d, c, by_);
    }
  }

  lemma {:induction false} ReplaceNothing(s: string, c: char, by_: string)
    requires c !in s
    ensures ReplaceAll(s, [c], by_) == s
  {
    if s != "" {
      assert s[0] in s;
      ReplaceNothing(s[1..], c, by_);
      assert s == [s[0]] + s[1..];
    }
  }

  /** What a rune becomes in a cell. */
  function CellRune(c: char): string {
    if c == '|' then "&#124;" else if c == '\n' then " " else [c]
  }

  function CellRunes(s: string): string {
    if s == "" then "" else CellRune(s[0]) + CellRunes(s[1..])
  }

  lemma {:induction false} ReplaceInFront(w: string, s: string, c: char, by_: string)
    requires c !in w
    ensures ReplaceAll(w + s, [c], by_) == w + ReplaceAll(s, [c], by_)
  {
    if w == "" {
      assert w + s == s;
    } else {
      assert w[0] in w && (w + s)[1..] == w[1..] + s;
      ReplaceInFront(w[1..], s, c, by_);
      assert w == [w[0]] + w[1..];
    }
  }

  lemma {:induction false} TwoPasses(s: string)
    ensures ReplaceAll(ReplaceAll(s, "|", "&#124;"), "\n", " ") == CellRunes(s)
  {
    if s != "" {
      TwoPasses(s[1..]);
      var rest := ReplaceAll(s[1..], "|", "&#124;");
      if s[0] == '|' {
        assert ReplaceAll(s, "|", "&#124;") == "&#124;" + rest;
        ReplaceInFront("&#124;", rest, '\n', " ");
      } else {
        assert ReplaceAll(s, "|", "&#124;") == [s[0]] + rest;
        assert ([s[0]] + rest)[1..] == rest;
      }
    }
  }

  /** The two replacements are one pass over the runes, and of what they leave nothing is lost but
      white space at the ends. */
  lemma EscapeTableCellExact(s: string)
    ensures EscapeTableCell(s) == TrimSpace(CellRunes(s))
    ensures forall c :: c in s && c != '|' && !IsSpace(c) ==> c in EscapeTableCell(s)
  {
    TwoPasses(s);
    RunesKept(s);
    TrimKeeps(CellRunes(s));
  }

  lemma {:induction false} RunesKept(s: string)
    ensures forall c :: c in s && c != '|' && !IsSpace(c) ==> c in CellRunes(s)
  {
    if s != "" {
      RunesKept(s[1..]);
      assert s == [s[0]] + s[1..];
    }
  }

  /** A cell holds neither of the characters that end a cell or a row, and escaping again
      changes nothing. */
  lemma EscapeTableCellSafe(s: string)
    ensures '|' !in EscapeTableCell(s) && '\n' !in EscapeTableCell(s)
    ensures EscapeTableCell(EscapeTableCell(s)) == EscapeTableCell(s)
  {
    var bars := ReplaceAll(s, "|", "&#124;");
    var lines := ReplaceAll(bars, "\n", " ");
    ReplaceRemoves(s, '|', "&#124;");
    ReplaceRemoves(bars, '\n', " ");
    ReplaceKeepsOut(bars, '|', '\n', " ");
    TrimSubset(lines);
    var cell := TrimSpace(lines);
    ReplaceNothing(cell, '|', "&#124;");
    ReplaceNothing(cell, '\n', " ");
    TrimSpaceFixed(cell);
  }
}
