/** Container log files of a sosreport: recognising
    `<pod>_<namespace>_<container>-<hex id>.log[.gz]` and picking the first one. */
module ContainerLogs {
  import opened Strings
  import opened Paths

  /** `unicode.ASCII_Hex_Digit`. */
  predicate IsHexDigit(c: char) {
    IsDigit(c) || 'a' <= c <= 'f' || 'A' <= c <= 'F'
  }

  predicate IsHex(s: string) {
    s != "" && forall c :: c in s ==> IsHexDigit(c)
  }

  lemma HexDigitsAre(c: char)
    ensures IsHexDigit(c) <==> c in "0123456789abcdefABCDEF"
  {
    var digits := "0123456789abcdefABCDEF";
    if IsDigit(c) {
      assert digits[c as int - '0' as int] == c;
    } else if 'a' <= c <= 'f' {
      assert digits[10 + (c as int - 'a' as int)] == c;
    } else if 'A' <= c <= 'F' {
      assert digits[16 + (c as int - 'A' as int)] == c;
    }
  }

  /** `parseContainerName`. */
  function ParseContainerName(remainder: string): Option<string> {
    var i := LastIndex(remainder, '-');
    if i <= 0 then None
    else if !IsHex(remainder[i + 1..]) then None
    else Some(remainder[..i])
  }

  /** `matchesContainerLogFile`. */
  predicate MatchesFile(logPath: string, namespace: string, name: string, container: string) {
    var base := TrimSuffix(Base(logPath), ".gz");
    var prefix := name + "_" + namespace + "_";
    && HasSuffix(base, ".log")
    && var stem := TrimSuffix(base, ".log");
    && prefix <= stem
    && var parsed := ParseContainerName(stem[|prefix|..]);
    && parsed.Some?
    && (container == "" || parsed.value == container)
  }

  // ----- the printer -----

  function Stem(pod: string, namespace: string, container: string, id: string): string {
    pod + "_" + namespace + "_" + (container + "-" + id)
  }

  /** The file name of a container's log. */
  function LogName(pod: string, namespace: string, container: string, id: string, zipped: bool): string {
    Stem(pod, namespace, container, id) + ".log" + (if zipped then ".gz" else "")
  }

  lemma LogNameIs(pod: string, namespace: string, container: string, id: string)
    ensures var name := pod + "_" + namespace + "_" + container + "-" + id + ".log";
            LogName(pod, namespace, container, id, false) == name
            && LogName(pod, namespace, container, id, true) == name + ".gz"
  {
    var front := pod + "_" + namespace + "_";
    assert front + container + "-" + id == front + (container + "-" + id);
    assert Stem(pod, namespace, container, id) + ".log" + "" == Stem(pod, namespace, container, id) + ".log";
  }

  /** Printing a container and its id and parsing them back, both ways. */
  lemma ParseContainerNameExact(remainder: string, container: string)
    ensures ParseContainerName(remainder) == Some(container) <==>
            container != "" && exists id :: IsHex(id) && remainder == container + "-" + id
  {
    var i := LastIndex(remainder, '-');
    if ParseContainerName(remainder) == Some(container) {
      var id := remainder[i + 1..];
      assert IsHex(id) && remainder == container + "-" + id;
    }
    if container != "" && exists id :: IsHex(id) && remainder == container + "-" + id {
      var id :| IsHex(id) && remainder == container + "-" + id;
      assert remainder[|container|] == '-' && remainder[|container| + 1..] == id;
      assert '-' !in id;
      assert remainder[..|container|] == container;
      LastIndexUnique(remainder, '-', |container|);
    }
  }

  lemma SuffixEnds(s: string, suffix: string)
    requires suffix != ""
    ensures HasSuffix(s, suffix) ==> s != "" && s[|s| - 1] == suffix[|suffix| - 1]
  {
    assert |suffix| <= |s| ==> s[|s| - |suffix|..][|suffix| - 1] == s[|s| - 1];
  }

  /** Taking the suffixes off is the inverse of putting them on. */
  lemma SuffixesExact(base: string, stem: string)
    ensures var t := TrimSuffix(base, ".gz");
            HasSuffix(t, ".log") && TrimSuffix(t, ".log") == stem <==>
            base == stem + ".log" || base == stem + ".log" + ".gz"
  {
    var t := TrimSuffix(base, ".gz");
    if HasSuffix(t, ".log") && TrimSuffix(t, ".log") == stem {
      assert t == stem + ".log";
      assert base == t || base == t + ".gz";
    }
    if base == stem + ".log" {
      assert base[|base| - 1] == 'g';
      SuffixEnds(base, ".gz");
      assert t == base;
    }
    if base == stem + ".log" + ".gz" {
      assert t == stem + ".log";
    }
  }

  ghost predicate Describes(base: string, pod: string, namespace: string, container: string) {
    exists id :: IsHex(id) && (|| base == LogName(pod, namespace, container, id, false)
                               || base == LogName(pod, namespace, container, id, true))
  }

  /** A path matches exactly when its last element is the printed name of one of the pod's
      containers, and of the container asked for when one was. */
  lemma MatchesFileExact(logPath: string, namespace: string, name: string, container: string)
    ensures MatchesFile(logPath, namespace, name, container) <==>
            exists c :: c != "" && (container == "" || c == container)
                        && Describes(Base(logPath), name, namespace, c)
  {
    var base := Base(logPath);
    var prefix := name + "_" + namespace + "_";
    var t := TrimSuffix(base, ".gz");
    var stem := TrimSuffix(t, ".log");
    if MatchesFile(logPath, namespace, name, container) {
      var remainder := stem[|prefix|..];
      var c := ParseContainerName(remainder).value;
      ParseContainerNameExact(remainder, c);
      var id :| IsHex(id) && remainder == c + "-" + id;
      assert stem == prefix + remainder == Stem(name, namespace, c, id);
      SuffixesExact(base, stem);
      assert Describes(base, name, namespace, c);
    }
    if exists c :: c != "" && (container == "" || c == container) && Describes(base, name, namespace, c) {
      var c :| c != "" && (container == "" || c == container) && Describes(base, name, namespace, c);
      DescribedMatches(logPath, namespace, name, c);
    }
  }

  lemma DescribedMatches(logPath: string, namespace: string, name: string, c: string)
    requires c != "" && Describes(Base(logPath), name, namespace, c)
    ensures MatchesFile(logPath, namespace, name, c) && MatchesFile(logPath, namespace, name, "")
  {
    var id :| IsHex(id) && (|| Base(logPath) == LogName(name, namespace, c, id, false)
                            || Base(logPath) == LogName(name, namespace, c, id, true));
    var prefix := name + "_" + namespace + "_";
    var stem := Stem(name, namespace, c, id);
    SuffixesExact(Base(logPath), stem);
    assert stem == prefix + (c + "-" + id);
    assert stem[|prefix|..] == c + "-" + id;
    ParseContainerNameExact(c + "-" + id, c);
  }

  /** Every log written under its own name in any directory is found again. */
  lemma LogNameRoundTrip(dir: string, pod: string, namespace: string, container: string, id: string, zipped: bool)
    requires '/' !in pod && '/' !in namespace && '/' !in container
    requires container != "" && IsHex(id)
    ensures var p := dir + "/" + LogName(pod, namespace, container, id, zipped);
            MatchesFile(p, namespace, pod, container) && MatchesFile(p, namespace, pod, "")
  {
    var base := LogName(pod, namespace, container, id, zipped);
    assert '/' !in ".log" && '/' !in ".gz" && '/' !in "_" && '/' !in "-" && '/' !in id;
    BaseOfFile(dir, base);
    assert Describes(base, pod, namespace, container);
    DescribedMatches(dir + "/" + base, namespace, pod, container);
  }

  // ----- unique decoding -----

  lemma UnderscoreSplits(a: string, s: string, b: string, t: string)
    requires '_' !in a && '_' !in b
    requires a + "_" + s == b + "_" + t
    ensures a == b && s == t
  {
    var p := a + "_" + s;
    FirstUnderscore(p, a, s);
    FirstUnderscore(p, b, t);
    assert p[..|a|] == a && p[..|b|] == b;
    assert p[|a| + 1..] == s && (b + "_" + t)[|b| + 1..] == t;
  }

  lemma FirstUnderscore(p: string, a: string, s: string)
    requires '_' !in a && p == a + "_" + s
    ensures |a| < |p| && p[|a|] == '_' && forall k :: 0 <= k < |a| ==> p[k] != '_'
    ensures p[..|a|] == a && p[|a| + 1..] == s
  {
    forall k | 0 <= k < |a| ensures p[k] != '_' {
      assert p[k] == a[k] && a[k] in a;
    }
  }

  /** The matched part of a name: the last element without its suffixes. */
  function StemOf(logPath: string): string {
    TrimSuffix(TrimSuffix(Base(logPath), ".gz"), ".log")
  }

  lemma MatchedStem(logPath: string, namespace: string, name: string, container: string) returns (rest: string)
    requires MatchesFile(logPath, namespace, name, container)
    ensures StemOf(logPath) == name + "_" + (namespace + "_" + rest)
    ensures ParseContainerName(rest).Some? && (container != "" ==> ParseContainerName(rest) == Some(container))
  {
    var prefix := name + "_" + namespace + "_";
    var stem := StemOf(logPath);
    rest := stem[|prefix|..];
    PrefixAndRest(stem, prefix);
    Regroup(name, "_", namespace, "_", rest);
  }

  lemma PrefixAndRest(s: string, prefix: string)
    requires prefix <= s
    ensures s == prefix + s[|prefix|..]
  {
  }

  lemma Regroup(a: string, b: string, c: string, d: string, e: string)
    ensures a + b + c + d + e == a + b + (c + d + e)
  {
  }

  /** For names without underscores, as Kubernetes names are, a file matches one pod, one
      namespace and one container. */
  lemma DecodesUniquely(logPath: string, ns1: string, pod1: string, c1: string, ns2: string, pod2: string, c2: string)
    requires '_' !in ns1 && '_' !in pod1 && '_' !in ns2 && '_' !in pod2
    requires MatchesFile(logPath, ns1, pod1, c1) && MatchesFile(logPath, ns2, pod2, c2)
    ensures pod1 == pod2 && ns1 == ns2 && (c1 != "" && c2 != "" ==> c1 == c2)
  {
    var r1 := MatchedStem(logPath, ns1, pod1, c1);
    var r2 := MatchedStem(logPath, ns2, pod2, c2);
    UnderscoreSplits(pod1, ns1 + "_" + r1, pod2, ns2 + "_" + r2);
    UnderscoreSplits(ns1, r1, ns2, r2);
  }

  lemma StemReads(pod: string, infix: string, namespace: string, container: string, id: string)
    ensures Stem(pod + "_" + infix, namespace, container, id)
         == Stem(pod, infix, namespace + "_" + container, id)
         == Stem(pod, infix + "_" + namespace, container, id)
  {
    var rest := container + "-" + id;
    assert (pod + "_" + infix) + "_" + namespace + "_" + rest == pod + "_" + infix + "_" + (namespace + "_" + rest);
    assert (namespace + "_" + container) + "-" + id == namespace + "_" + rest;
    assert pod + "_" + (infix + "_" + namespace) + "_" + rest == pod + "_" + infix + "_" + (namespace + "_" + rest);
  }

  /** With one underscore more, in the pod's, the namespace's or the container's name, the same
      file can be read in three ways. */
  lemma UnderscoresAreAmbiguous(
    dir: string, pod: string, infix: string, namespace: string, container: string, id: string)
    requires '/' !in pod && '/' !in infix && '/' !in namespace && '/' !in container
    requires container != "" && IsHex(id)
    ensures var p := dir + "/" + LogName(pod + "_" + infix, namespace, container, id, false);
            && MatchesFile(p, namespace, pod + "_" + infix, container)
            && MatchesFile(p, infix + "_" + namespace, pod, container)
            && MatchesFile(p, infix, pod, namespace + "_" + container)
  {
    StemReads(pod, infix, namespace, container, id);
    var joined, longer, middle := pod + "_" + infix, namespace + "_" + container, infix + "_" + namespace;
    assert '/' !in joined && '/' !in longer && '/' !in middle;
    LogNameRoundTrip(dir, joined, namespace, container, id, false);
    LogNameRoundTrip(dir, pod, middle, container, id, false);
    LogNameRoundTrip(dir, pod, infix, longer, id, false);
  }

  // ----- exactly when decoding is unique -----

  datatype Reading = Reading(pod: string, namespace: string, container: string)

  /** The file can be taken for a log of this container. */
  predicate Reads(logPath: string, r: Reading) {
    r.container != "" && MatchesFile(logPath, r.namespace, r.pod, r.container)
  }

  /** Suffix, dash and hex id are in place, with something in front of the dash. */
  predicate LogShaped(logPath: string) {
    && HasLogSuffix(logPath)
    && var i := LastIndex(StemOf(logPath), '-');
       i >= 1 && IsHex(StemOf(logPath)[i + 1..])
  }

  /** The stem up to its last dash. */
  function BeforeDash(logPath: string): (r: string)
    requires LogShaped(logPath)
    ensures r != ""
  {
    StemOf(logPath)[..LastIndex(StemOf(logPath), '-')]
  }

  /** The same less the one rune that a container name must at least have. */
  function Labels(logPath: string): string
    requires LogShaped(logPath)
  {
    BeforeDash(logPath)[..|BeforeDash(logPath)| - 1]
  }

  predicate HasLogSuffix(logPath: string) {
    HasSuffix(TrimSuffix(Base(logPath), ".gz"), ".log")
  }

  /** `f` cut at two underscores. */
  predicate IsCut(f: string, a: string, b: string, c: string) {
    f == a + "_" + (b + "_" + c)
  }

  lemma CutAtDash(stem: string, before: string, id: string)
    requires '-' !in id && stem == before + "-" + id
    ensures LastIndex(stem, '-') == |before| && stem[..|before|] == before && stem[|before| + 1..] == id
  {
    assert stem[|before|] == '-' && stem[|before| + 1..] == id;
    LastIndexUnique(stem, '-', |before|);
  }

  lemma MoveDash(a: string, b: string, c: string, id: string)
    ensures a + "_" + (b + "_" + (c + "-" + id)) == (a + "_" + (b + "_" + c)) + "-" + id
    ensures a + "_" + (b + "_" + (c + "-" + id)) == Stem(a, b, c, id)
  {
    Reassociate(a, "_", b, "_", c, "-", id);
  }

  lemma Reassociate(a: string, s: string, b: string, t: string, c: string, u: string, d: string)
    ensures a + s + (b + t + (c + u + d)) == (a + s + (b + t + c)) + u + d
    ensures a + s + (b + t + (c + u + d)) == a + s + b + t + (c + u + d)
  {
  }

  lemma MatchHasLogSuffix(logPath: string, namespace: string, name: string, container: string)
    requires MatchesFile(logPath, namespace, name, container)
    ensures HasLogSuffix(logPath)
  {
  }

  lemma StemDescribes(logPath: string, pod: string, namespace: string, container: string, id: string)
    requires HasLogSuffix(logPath) && IsHex(id) && StemOf(logPath) == Stem(pod, namespace, container, id)
    ensures Describes(Base(logPath), pod, namespace, container)
  {
    SuffixesExact(Base(logPath), StemOf(logPath));
  }

  /** Reading a file is cutting what is before its dash at two underscores. */
  lemma MatchCuts(logPath: string, pod: string, namespace: string, c: string)
    requires c != "" && MatchesFile(logPath, namespace, pod, c)
    ensures LogShaped(logPath) && IsCut(BeforeDash(logPath), pod, namespace, c)
  {
    var rest := MatchedStem(logPath, namespace, pod, c);
    ParseContainerNameExact(rest, c);
    var id :| IsHex(id) && rest == c + "-" + id;
    MoveDash(pod, namespace, c, id);
    assert '-' !in id;
    CutAtDash(StemOf(logPath), pod + "_" + (namespace + "_" + c), id);
    MatchHasLogSuffix(logPath, namespace, pod, c);
  }

  lemma AtDash(s: string, i: nat)
    requires i < |s| && s[i] == '-'
    ensures s == s[..i] + "-" + s[i + 1..]
  {
  }

  lemma CutMatches(logPath: string, pod: string, namespace: string, c: string)
    requires c != "" && LogShaped(logPath) && IsCut(BeforeDash(logPath), pod, namespace, c)
    ensures MatchesFile(logPath, namespace, pod, c)
  {
    var stem := StemOf(logPath);
    var i := LastIndex(stem, '-');
    AtDash(stem, i);
    MoveDash(pod, namespace, c, stem[i + 1..]);
    StemDescribes(logPath, pod, namespace, c, stem[i + 1..]);
    DescribedMatches(logPath, namespace, pod, c);
  }

  lemma DropLast(f: string, a: string, b: string, c: string)
    requires c != "" && IsCut(f, a, b, c)
    ensures f != "" && f[|f| - 1] == c[|c| - 1] && IsCut(f[..|f| - 1], a, b, c[..|c| - 1])
  {
    var front := a + "_" + (b + "_" + c[..|c| - 1]);
    assert |front| == |f| - 1;
    assert f[..|f| - 1] == front;
  }

  lemma AddLast(f: string, a: string, b: string, init: string)
    requires f != "" && IsCut(f[..|f| - 1], a, b, init)
    ensures IsCut(f, a, b, init + [f[|f| - 1]])
  {
    var last := [f[|f| - 1]];
    assert f == f[..|f| - 1] + last;
    Reassociate(a, "_", b, "_", init, last, "");
    assert init + last + "" == init + last;
    assert (a + "_" + (b + "_" + init)) + last + "" == f;
  }

  /** Any cut of a text at two underscores accounts for all its parts. */
  lemma CutCounts(f: string, a: string, b: string, c: string)
    requires IsCut(f, a, b, c)
    ensures Split(f, '_') == Split(a, '_') + Split(b, '_') + Split(c, '_')
  {
    assert f == a + ['_'] + (b + ['_'] + c);
    SplitAppend(a, b + ['_'] + c, '_');
    SplitAppend(b, c, '_');
  }

  /** With two underscores there is no choice where to cut. */
  lemma CutUnique(f: string, a: string, b: string, c: string)
    requires IsCut(f, a, b, c) && |Split(f, '_')| == 3
    ensures Split(f, '_') == [a, b, c]
  {
    CutCounts(f, a, b, c);
    JoinSplit(a, '_');
    JoinSplit(b, '_');
    JoinSplit(c, '_');
    assert Split(a, '_') == [a] && Split(b, '_') == [b] && Split(c, '_') == [c];
  }

  lemma JoinCuts(parts: seq<string>)
    requires |parts| >= 3
    ensures IsCut(Join(parts, "_"), parts[0], parts[1], Join(parts[2..], "_"))
    ensures |parts| > 3 ==>
              IsCut(Join(parts, "_"), parts[0] + "_" + parts[1], parts[2], Join(parts[3..], "_"))
  {
    assert parts[1..][1..] == parts[2..];
    assert parts[2..][1..] == parts[3..];
    Regroup(parts[0], "_", parts[1], "_", Join(parts[2..], "_"));
  }

  lemma LabelsCutRead(logPath: string, a: string, b: string, init: string) returns (r: Reading)
    requires LogShaped(logPath) && IsCut(Labels(logPath), a, b, init)
    ensures Reads(logPath, r) && r.pod == a && r.namespace == b
  {
    var f := BeforeDash(logPath);
    var c := init + [f[|f| - 1]];
    AddLast(f, a, b, init);
    CutMatches(logPath, a, b, c);
    r := Reading(a, b, c);
  }

  /** The reading that cuts at the first two underscores. */
  lemma FirstReading(logPath: string) returns (r: Reading)
    requires LogShaped(logPath) && |Split(Labels(logPath), '_')| >= 3
    ensures var parts := Split(Labels(logPath), '_');
            Reads(logPath, r) && r.pod == parts[0] && r.namespace == parts[1]
  {
    var parts := Split(Labels(logPath), '_');
    JoinSplit(Labels(logPath), '_');
    JoinCuts(parts);
    r := LabelsCutRead(logPath, parts[0], parts[1], Join(parts[2..], "_"));
  }

  /** The reading that cuts one underscore later, if there are three. */
  lemma SecondReading(logPath: string) returns (r: Reading)
    requires LogShaped(logPath) && |Split(Labels(logPath), '_')| > 3
    ensures var parts := Split(Labels(logPath), '_');
            Reads(logPath, r) && r.pod == parts[0] + "_" + parts[1]
  {
    var parts := Split(Labels(logPath), '_');
    JoinSplit(Labels(logPath), '_');
    JoinCuts(parts);
    r := LabelsCutRead(logPath, parts[0] + "_" + parts[1], parts[2], Join(parts[3..], "_"));
  }

  function InitOf(r: Reading): string
    requires r.container != ""
  {
    r.container[..|r.container| - 1]
  }

  lemma LabelsCut(logPath: string, r: Reading)
    requires r.container != "" && LogShaped(logPath) && IsCut(BeforeDash(logPath), r.pod, r.namespace, r.container)
    ensures IsCut(Labels(logPath), r.pod, r.namespace, InitOf(r))
    ensures r.container[|r.container| - 1] == BeforeDash(logPath)[|BeforeDash(logPath)| - 1]
  {
    DropLast(BeforeDash(logPath), r.pod, r.namespace, r.container);
  }

  lemma ReadingCuts(logPath: string, r: Reading)
    requires Reads(logPath, r)
    ensures LogShaped(logPath) && IsCut(Labels(logPath), r.pod, r.namespace, InitOf(r))
    ensures r.container[|r.container| - 1] == BeforeDash(logPath)[|BeforeDash(logPath)| - 1]
  {
    MatchCuts(logPath, r.pod, r.namespace, r.container);
    LabelsCut(logPath, r);
  }

  lemma TwoReadings(logPath: string)
    requires LogShaped(logPath) && |Split(Labels(logPath), '_')| > 3
    ensures exists x, y :: Reads(logPath, x) && Reads(logPath, y) && x != y
  {
    var x := FirstReading(logPath);
    var y := SecondReading(logPath);
    assert |x.pod| < |y.pod|;
  }

  ghost predicate ReadsOnlyAs(logPath: string, r: Reading) {
    Reads(logPath, r) && forall q :: Reads(logPath, q) ==> q == r
  }

  lemma TwoCutsOneReading(logPath: string, r: Reading, q: Reading)
    requires Reads(logPath, r) && Reads(logPath, q)
    requires LogShaped(logPath) && |Split(Labels(logPath), '_')| == 3
    ensures q == r
  {
    ReadingCuts(logPath, r);
    ReadingCuts(logPath, q);
    CutUnique(Labels(logPath), r.pod, r.namespace, InitOf(r));
    CutUnique(Labels(logPath), q.pod, q.namespace, InitOf(q));
    SameParts(r, q);
  }

  lemma SameParts(r: Reading, q: Reading)
    requires r.container != "" && q.container != ""
    requires [r.pod, r.namespace, InitOf(r)] == [q.pod, q.namespace, InitOf(q)]
    requires r.container[|r.container| - 1] == q.container[|q.container| - 1]
    ensures r == q
  {
    var x, y := [r.pod, r.namespace, InitOf(r)], [q.pod, q.namespace, InitOf(q)];
    assert x[0] == y[0] && x[1] == y[1] && x[2] == y[2];
    assert r.container == InitOf(r) + [r.container[|r.container| - 1]];
    assert q.container == InitOf(q) + [q.container[|q.container| - 1]];
  }

  /** Among all pods, namespaces and container names, a file has exactly one reading precisely when
      it is shaped like a log and there are exactly two underscores at least two positions before
      the last dash of its stem. */
  lemma UniqueReadingExact(logPath: string)
    ensures (exists r :: ReadsOnlyAs(logPath, r)) <==>
            LogShaped(logPath) && Count(Labels(logPath), '_') == 2
  {
    if r :| ReadsOnlyAs(logPath, r) {
      ReadingCuts(logPath, r);
      var f := Labels(logPath);
      SplitCount(f, '_');
      CutCounts(f, r.pod, r.namespace, InitOf(r));
      if |Split(f, '_')| > 3 {
        TwoReadings(logPath);
      }
    }
    if LogShaped(logPath) && Count(Labels(logPath), '_') == 2 {
      SplitCount(Labels(logPath), '_');
      var r := FirstReading(logPath);
      forall q | Reads(logPath, q) ensures q == r {
        TwoCutsOneReading(logPath, r, q);
      }
      assert ReadsOnlyAs(logPath, r);
    }
  }

  // ----- picking a log -----

  datatype Lookup = MissingName | NoFile | Unreadable(path: string) | Found(path: string, lines: seq<string>)

  /** `files[i][j]` matches and nothing listed before it does. */
  ghost predicate IsFirst(files: seq<seq<string>>, matches: string -> bool, i: int, j: int) {
    && 0 <= i < |files| && 0 <= j < |files[i]|
    && matches(files[i][j])
    && (forall b :: 0 <= b < j ==> !matches(files[i][b]))
    && NoneBefore(files, matches, i)
  }

  ghost predicate NoneBefore(files: seq<seq<string>>, matches: string -> bool, i: int) {
    forall a, b :: 0 <= a < i && a < |files| && 0 <= b < |files[a]| ==> !matches(files[a][b])
  }

  function TrimPrefix(s: string, prefix: string): string {
    if prefix <= s then s[|prefix|..] else s
  }

  function FullPath(sosreport: string, logPath: string): string {
    JoinPath(sosreport, TrimPrefix(logPath, "host/"))
  }

  /** The path read for a file the manifest lists: the one prefix manifests put in front of paths
      below the host's root is dropped, and nothing else. */
  lemma FullPathDropsHost(sosreport: string, path: string)
    ensures FullPath(sosreport, "host/" + path) == JoinPath(sosreport, path)
    ensures !("host/" <= path) ==> FullPath(sosreport, path) == JoinPath(sosreport, path)
  {
    assert ("host/" + path)[5..] == path;
  }

  function Matcher(namespace: string, name: string, container: string): string -> bool {
    p => MatchesFile(p, namespace, name, container)
  }

  /** The lookup of `getPodLogs`. Nothing is found exactly when no listed file matches; only the
      first matching file in manifest order is ever read, and failing to read it is an error even
      when later files match too. `read` stands for opening, decompressing and filtering a file. */
  method GetPodLog(sosreport: string, files: seq<seq<string>>, namespace: string, name: string, container: string,
                   read: string -> Option<seq<string>>) returns (r: Lookup)
    ensures r.MissingName? <==> namespace == "" || name == ""
    ensures !r.MissingName? ==> (r.NoFile? <==> NoneBefore(files, Matcher(namespace, name, container), |files|))
    ensures r.Unreadable? || r.Found? ==>
              exists i, j :: IsFirst(files, Matcher(namespace, name, container), i, j)
                             && r.path == FullPath(sosreport, files[i][j])
    ensures r.Unreadable? ==> read(r.path) == None
    ensures r.Found? ==> read(r.path) == Some(r.lines)
  {
    if namespace == "" || name == "" {
      return MissingName;
    }
    r := FindLog(sosreport, files, Matcher(namespace, name, container), read);
  }

  /** Its nested loops. */
  method FindLog(sosreport: string, files: seq<seq<string>>, matches: string -> bool,
                 read: string -> Option<seq<string>>)
    returns (r: Lookup)
    ensures !r.MissingName?
    ensures r.NoFile? <==> NoneBefore(files, matches, |files|)
    ensures !r.NoFile? ==> exists i, j :: IsFirst(files, matches, i, j) && r.path == FullPath(sosreport, files[i][j])
    ensures r.Unreadable? ==> read(r.path) == None
    ensures r.Found? ==> read(r.path) == Some(r.lines)
  {
    var result: Lookup := NoFile;
    var matchedAny := false;
    var i := 0;
    while i < |files| && !matchedAny
      invariant 0 <= i <= |files|
      invariant !matchedAny ==> result.NoFile? && NoneBefore(files, matches, i)
      invariant matchedAny ==> result.Found? && read(result.path) == Some(result.lines)
      invariant matchedAny ==>
                  exists a, b :: IsFirst(files, matches, a, b) && result.path == FullPath(sosreport, files[a][b])
      decreases |files| - i, !matchedAny
    {
      var j := 0;
      while j < |files[i]|
        invariant 0 <= j <= |files[i]|
        invariant forall b :: 0 <= b < j ==> !matches(files[i][b])
        invariant result.NoFile? && !matchedAny
      {
        var logPath := files[i][j];
        if matches(logPath) {
          matchedAny := true;
          assert IsFirst(files, matches, i, j);
          var fullPath := FullPath(sosreport, logPath);
          var lines := read(fullPath);
          if lines.None? {
            return Unreadable(fullPath);
          }
          result := Found(fullPath, lines.value);
          break;
        }
        j := j + 1;
      }
      i := i + 1;
    }
    return result;
  }
}
