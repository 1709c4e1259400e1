/** Unpacking the database archive of a must-gather below its network logs directory. */
module Extraction {
  import opened Strings
  import opened Paths

  datatype Kind = Directory | Regular | OtherType

  /** What the operating system makes of an entry: how many of the directories asked for come
      into being before `MkdirAll` gives up, whether the file can be opened, how much of it has
      been copied when an error strikes, and whether one does. */
  datatype Fate = Fate(made: nat, opens: bool, copied: nat, copies: bool)

  /** One result of `tarReader.Next`, with the bytes that can be read after it. */
  datatype Entry = Corrupt | Entry(kind: Kind, name: string, content: string, fate: Fate)

  datatype Outcome = Done | BadHeader | BadPath(name: string) | Unsupported(name: string) | SystemError

  /** Directories, and files with what is in them, by their components. */
  datatype Disk = Disk(dirs: set<seq<string>>, files: map<seq<string>, string>)

  /** `os.MkdirAll`, possibly cut short after `made` levels. */
  function MkdirAll(d: Disk, path: seq<string>, made: nat): Disk {
    d.(dirs := d.dirs + set k | 0 <= k <= |path| && k <= made :: path[..k])
  }

  /** A file that was opened for writing, which truncates it, after the copy has run its course:
      all of the entry, or as much as was copied before an error. */
  function FileAfter(e: Entry): string
    requires e.Entry?
  {
    if e.fate.copies || e.fate.copied > |e.content| then e.content else e.content[..e.fate.copied]
  }

  function Parent(path: seq<string>): seq<string> {
    if path == [] then [] else path[..|path| - 1]
  }

  /** The body of the loop for one entry. */
  function Step(root: string, d: Disk, e: Entry): (Disk, Outcome) {
    if e.Corrupt? then (d, BadHeader)
    else
      var dest := JoinPath(root, e.name);
      match e.kind
      case Directory =>
        if !InsideByText(root, dest) then (d, BadPath(e.name))
        else (MkdirAll(d, Comps(dest), e.fate.made),
              if e.fate.made < |Comps(dest)| then SystemError else Done)
      case OtherType => (d, Unsupported(e.name))
      case Regular =>
        if !InsideByText(root, dest) then (d, BadPath(e.name))
        else
          var parent := Parent(Comps(dest));
          var d1 := MkdirAll(d, parent, e.fate.made);
          if e.fate.made < |parent| then (d1, SystemError)
          else if !e.fate.opens || Comps(dest) in d1.dirs then (d1, SystemError)
          else (d1.(files := d1.files[Comps(dest) := FileAfter(e)]), if e.fate.copies then Done else SystemError)
  }

  function Extracted(root: string, d: Disk, entries: seq<Entry>): (Disk, Outcome)
    decreases |entries|
  {
    if entries == [] then (d, Done)
    else
      var (d1, out) := Step(root, d, entries[0]);
      if out != Done then (d1, out) else Extracted(root, d1, entries[1..])
  }

  class NetworkLogs {
    const root: string
    var disk: Disk

    constructor (root: string, disk: Disk)
      ensures this.root == root && this.disk == disk
    {
      this.root := root;
      this.disk := disk;
    }

    /** The extraction loop; it returns at the first entry that does not go through. */
    method ExtractAll(entries: seq<Entry>) returns (out: Outcome)
      modifies this`disk
      ensures (disk, out) == Extracted(root, old(disk), entries)
    {
      var i := 0;
      while i < |entries|
        invariant 0 <= i <= |entries|
        invariant Extracted(root, disk, entries[i..]) == Extracted(root, old(disk), entries)
      {
        var e := entries[i];
        assert entries[i..][0] == e && entries[i..][1..] == entries[i + 1..];
        if e.Corrupt? {
          return BadHeader;
        }
        var dest := JoinPath(root, e.name);
        if e.kind == Directory {
          if !InsideByText(root, dest) {
            return BadPath(e.name);
          }
          disk := MkdirAll(disk, Comps(dest), e.fate.made);
          if e.fate.made < |Comps(dest)| {
            return SystemError;
          }
        } else {
          if e.kind != Regular {
            return Unsupported(e.name);
          }
          if !InsideByText(root, dest) {
            return BadPath(e.name);
          }
          disk := MkdirAll(disk, Parent(Comps(dest)), e.fate.made);
          if e.fate.made < |Parent(Comps(dest))| || !e.fate.opens || Comps(dest) in disk.dirs {
            return SystemError;
          }
          disk := disk.(files := disk.files[Comps(dest) := FileAfter(e)]);
          if !e.fate.copies {
            return SystemError;
          }
        }
        i := i + 1;
      }
      return Done;
    }
  }

  // ----- confinement -----

  /** The root and everything above it exist, and directories have their parents. */
  ghost predicate Rooted(root: seq<string>, d: Disk) {
    && root in d.dirs
    && forall p, k :: p in d.dirs && 0 <= k <= |p| ==> p[..k] in d.dirs
  }

  /** `d1` has everything `d0` had, and whatever is not strictly below the root is exactly as it
      was: the same directories, the same files, with the same contents. */
  ghost predicate ChangedOnlyBelow(root: seq<string>, d0: Disk, d1: Disk) {
    && d0.dirs <= d1.dirs && d0.files.Keys <= d1.files.Keys
    && (forall p :: p in d1.dirs && p !in d0.dirs ==> root < p)
    && (forall p :: p in d1.files && !(root < p) ==> p in d0.files && d1.files[p] == d0.files[p])
  }

  lemma MkdirAllBelow(root: seq<string>, d: Disk, path: seq<string>, made: nat)
    requires Rooted(root, d)
    requires root <= path || path <= root
    ensures Rooted(root, MkdirAll(d, path, made))
    ensures ChangedOnlyBelow(root, d, MkdirAll(d, path, made))
  {
    var d1 := MkdirAll(d, path, made);
    forall p, k | p in d1.dirs && 0 <= k <= |p| ensures p[..k] in d1.dirs {
      if p !in d.dirs {
        var n :| 0 <= n <= |path| && n <= made && p == path[..n];
        assert p[..k] == path[..k];
      }
    }
    forall n | 0 <= n <= |path| && n <= |root| ensures path[..n] in d.dirs {
      assert path[..n] == root[..n];
    }
    forall p | p in d1.dirs && p !in d.dirs ensures root < p {
      var n :| 0 <= n <= |path| && n <= made && p == path[..n];
    }
  }

  /** An entry is let through by the test exactly when walking its name from the root ends
      below the root, whatever detours it takes. */
  lemma AcceptedExactly(root: string, name: string)
    requires IsAbs(root) && Comps(root) != []
    ensures IsAbs(JoinPath(root, name))
    ensures InsideByText(root, JoinPath(root, name)) <==>
            Comps(root) <= Walk(true, Comps(root), Split(name, '/'))
  {
    JoinWalks(root, name);
    InsideByTextExact(root, JoinPath(root, name));
  }

  lemma StepBelow(root: string, d: Disk, e: Entry)
    requires IsAbs(root) && Comps(root) != [] && Rooted(Comps(root), d)
    ensures var d1 := Step(root, d, e).0; Rooted(Comps(root), d1) && ChangedOnlyBelow(Comps(root), d, d1)
  {
    if e.Entry? {
      var r, dest := Comps(root), JoinPath(root, e.name);
      JoinWalks(root, e.name);
      InsideByTextExact(root, dest);
      if InsideByText(root, dest) {
        MkdirAllBelow(r, d, Comps(dest), e.fate.made);
        var parent := Parent(Comps(dest));
        if r == Comps(dest) {
          assert parent <= r;
        } else {
          assert r == Comps(dest)[..|r|] == parent[..|r|];
        }
        MkdirAllBelow(r, d, parent, e.fate.made);
      }
    }
  }

  /** Whatever the archive holds and wherever the run stops, nothing outside the network logs
      directory is created, removed or written to, and neither is the directory itself. */
  lemma {:induction false} ExtractionConfined(root: string, d: Disk, entries: seq<Entry>)
    requires IsAbs(root) && Comps(root) != [] && Rooted(Comps(root), d)
    ensures ChangedOnlyBelow(Comps(root), d, Extracted(root, d, entries).0)
    decreases |entries|
  {
    if entries != [] {
      StepBelow(root, d, entries[0]);
      var (d1, out) := Step(root, d, entries[0]);
      if out == Done {
        ExtractionConfined(root, d1, entries[1..]);
      }
    }
  }

  /** A run over two batches is the first run followed by the second, unless the first one
      stopped; then the rest of the archive is never looked at. */
  lemma {:induction false} ExtractionSequential(root: string, d: Disk, a: seq<Entry>, b: seq<Entry>)
    ensures var (d1, out) := Extracted(root, d, a);
            Extracted(root, d, a + b) == if out == Done then Extracted(root, d1, b) else (d1, out)
    decreases |a|
  {
    if a == [] {
      assert a + b == b;
    } else {
      assert (a + b)[1..] == a[1..] + b;
      ExtractionSequential(root, Step(root, d, a[0]).0, a[1..], b);
    }
  }

  /** What a fully unpacked entry has left on the disk. */
  ghost predicate Unpacked(root: string, d: Disk, e: Entry) {
    && e.Entry?
    && InsideByText(root, JoinPath(root, e.name))
    && match e.kind
       case Directory => Comps(JoinPath(root, e.name)) in d.dirs
       case Regular => Comps(JoinPath(root, e.name)) in d.files && Parent(Comps(JoinPath(root, e.name))) in d.dirs
       case OtherType => false
  }

  lemma StepUnpacks(root: string, d: Disk, e: Entry)
    ensures var (d1, out) := Step(root, d, e);
            d.dirs <= d1.dirs && d.files.Keys <= d1.files.Keys && (out == Done ==> Unpacked(root, d1, e))
  {
    if e.Entry? {
      var path := Comps(JoinPath(root, e.name));
      assert path[..|path|] == path && Parent(path)[..|Parent(path)|] == Parent(path);
    }
  }

  /** A run that reports success has unpacked every entry, all of them regular files and
      directories inside the root; whatever it reports, nothing that was there is gone. */
  lemma {:induction false} SuccessUnpacksAll(root: string, d: Disk, entries: seq<Entry>)
    ensures var (d1, out) := Extracted(root, d, entries);
            && d.dirs <= d1.dirs && d.files.Keys <= d1.files.Keys
            && (out == Done ==> forall e :: e in entries ==> Unpacked(root, d1, e))
    decreases |entries|
  {
    if entries != [] {
      StepUnpacks(root, d, entries[0]);
      var (d1, out) := Step(root, d, entries[0]);
      if out == Done {
        SuccessUnpacksAll(root, d1, entries[1..]);
        assert entries == [entries[0]] + entries[1..];
      }
    }
  }

  /** The entry would write to the file at `path`. */
  predicate Writes(root: string, e: Entry, path: seq<string>) {
    e.Entry? && e.kind == Regular && Comps(JoinPath(root, e.name)) == path
  }

  /** A file that no entry is for is left alone, wherever the run stops. */
  lemma {:induction false} KeptUnlessWritten(root: string, d: Disk, entries: seq<Entry>, path: seq<string>)
    requires forall e :: e in entries ==> !Writes(root, e, path)
    ensures var d1 := Extracted(root, d, entries).0;
            (path in d1.files <==> path in d.files) && (path in d.files ==> d1.files[path] == d.files[path])
    decreases |entries|
  {
    if entries != [] {
      assert entries[0] in entries;
      var (d1, out) := Step(root, d, entries[0]);
      if out == Done {
        KeptUnlessWritten(root, d1, entries[1..], path);
      }
    }
  }

  /** After a successful run every file holds all of the last entry that was for it. */
  lemma {:induction false} LastEntryStays(root: string, d: Disk, entries: seq<Entry>, i: nat, path: seq<string>)
    requires i < |entries| && Writes(root, entries[i], path)
    requires forall e :: e in entries[i + 1..] ==> !Writes(root, e, path)
    requires Extracted(root, d, entries).1 == Done
    ensures var d1 := Extracted(root, d, entries).0; path in d1.files && d1.files[path] == entries[i].content
    decreases |entries|
  {
    var d1 := Step(root, d, entries[0]).0;
    if i == 0 {
      KeptUnlessWritten(root, d1, entries[1..], path);
    } else {
      assert entries[1..][i - 1 + 1..] == entries[i + 1..];
      LastEntryStays(root, d1, entries[1..], i - 1, path);
    }
  }

  /** Wherever the run stops, a file is as it was before or holds the beginning of what an entry
      for it had: contents are never mixed. */
  lemma {:induction false} FilesArePrefixes(root: string, d: Disk, entries: seq<Entry>, path: seq<string>)
    ensures var d1 := Extracted(root, d, entries).0;
            path in d1.files ==>
              || (path in d.files && d1.files[path] == d.files[path])
              || exists e :: e in entries && Writes(root, e, path) && d1.files[path] <= e.content
    decreases |entries|
  {
    if entries != [] {
      var (d1, out) := Step(root, d, entries[0]);
      assert path in d1.files && !(path in d.files && d1.files[path] == d.files[path]) ==>
        entries[0] in entries && Writes(root, entries[0], path) && d1.files[path] <= entries[0].content;
      if out == Done {
        FilesArePrefixes(root, d1, entries[1..], path);
      }
    }
  }

  // ----- the exact outcome -----

  /** Where a name leads from the root, and the directory an entry of that name asks for. */
  function Target(root: string, name: string): seq<string> {
    Walk(true, Comps(root), Split(name, '/'))
  }

  function Asked(root: string, e: Entry): seq<string>
    requires e.Entry?
  {
    if e.kind == Regular then Parent(Target(root, e.name)) else Target(root, e.name)
  }

  /** `path` is a directory after these entries: it was one, or leads to what one of them asks for. */
  ghost predicate IsDir(root: string, d: Disk, entries: seq<Entry>, path: seq<string>) {
    path in d.dirs || exists e :: e in entries && e.Entry? && path <= Asked(root, e)
  }

  /** An entry that gets through after the ones before it: a directory or a regular file below the
      root, whose directories are all made, and whose file is opened, no directory being in its
      place, and copied. */
  ghost predicate Good(root: string, d: Disk, before: seq<Entry>, e: Entry) {
    && e.Entry? && (e.kind == Directory || e.kind == Regular)
    && Comps(root) <= Target(root, e.name)
    && |Asked(root, e)| <= e.fate.made
    && (e.kind == Regular ==> e.fate.opens && e.fate.copies && !IsDir(root, d, before, Target(root, e.name)))
  }

  ghost predicate AllGood(root: string, d: Disk, entries: seq<Entry>) {
    forall i :: 0 <= i < |entries| ==> Good(root, d, entries[..i], entries[i])
  }

  /** What one entry does: it gets through or says what is wrong with it, and the directories it
      asks for come into being, as far as they can be made. */
  lemma StepExact(root: string, d: Disk, e: Entry)
    requires IsAbs(root) && Comps(root) != []
    ensures var (d1, out) := Step(root, d, e);
      && (out == Done <==>
           && e.Entry? && (e.kind == Directory || e.kind == Regular)
           && Comps(root) <= Target(root, e.name) && |Asked(root, e)| <= e.fate.made
           && (e.kind == Regular ==> e.fate.opens && e.fate.copies && Target(root, e.name) !in d.dirs))
      && (out == Done
          || out == (if e.Corrupt? then BadHeader
                     else if e.kind == OtherType then Unsupported(e.name)
                     else if !(Comps(root) <= Target(root, e.name)) then BadPath(e.name)
                     else SystemError))
      && forall p :: p in d1.dirs <==> p in d.dirs || AsksFor(root, e, p)
  {
    if e.Entry? {
      AcceptedExactly(root, e.name);
      JoinWalks(root, e.name);
      var target := Target(root, e.name);
      assert target == Comps(JoinPath(root, e.name));
      if e.kind != OtherType && Comps(root) <= target {
        MkdirAllExact(d, Asked(root, e), e.fate.made);
      }
    }
  }

  /** The entry makes `path` a directory, if nobody did before. */
  ghost predicate AsksFor(root: string, e: Entry, path: seq<string>) {
    && e.Entry? && (e.kind == Directory || e.kind == Regular) && Comps(root) <= Target(root, e.name)
    && path <= Asked(root, e) && |path| <= e.fate.made
  }

  lemma MkdirAllExact(d: Disk, path: seq<string>, made: nat)
    ensures forall p :: p in MkdirAll(d, path, made).dirs <==> p in d.dirs || (p <= path && |p| <= made)
  {
    forall p ensures p in MkdirAll(d, path, made).dirs <==> p in d.dirs || (p <= path && |p| <= made) {
      if p <= path && |p| <= made {
        assert p == path[..|p|];
      }
    }
  }

  /** Once all of some entries are good, what they ask for are the directories. */
  lemma OneMoreGood(root: string, d: Disk, d1: Disk, front: seq<Entry>, e: Entry)
    requires IsAbs(root) && Comps(root) != [] && Good(root, d, front, e)
    requires forall p :: p in d1.dirs <==> IsDir(root, d, front, p)
    ensures forall p :: p in Step(root, d1, e).0.dirs <==> IsDir(root, d, front + [e], p)
  {
    StepExact(root, d1, e);
    forall p ensures p in Step(root, d1, e).0.dirs <==> IsDir(root, d, front + [e], p) {
      assert AsksFor(root, e, p) <==> p <= Asked(root, e);
      assert e in front + [e];
    }
  }

  lemma AllGoodMore(root: string, d: Disk, front: seq<Entry>, e: Entry)
    ensures AllGood(root, d, front + [e]) <==> AllGood(root, d, front) && Good(root, d, front, e)
  {
    var all := front + [e];
    assert all[..|front|] == front && all[|front|] == e;
    assert forall i :: 0 <= i < |front| ==> all[..i] == front[..i] && all[i] == front[i];
  }

  /** An archive is unpacked to its end exactly when every entry is good after those before it,
      and then the directories are those that were there and those asked for. */
  lemma {:induction false} DoneExactly(root: string, d: Disk, entries: seq<Entry>)
    requires IsAbs(root) && Comps(root) != []
    ensures var (d1, out) := Extracted(root, d, entries);
            && (out == Done <==> AllGood(root, d, entries))
            && (out == Done ==> forall p :: p in d1.dirs <==> IsDir(root, d, entries, p))
    decreases |entries|
  {
    if entries != [] {
      var front, e := entries[..|entries| - 1], entries[|entries| - 1];
      assert entries == front + [e];
      DoneExactly(root, d, front);
      AllGoodMore(root, d, front, e);
      ExtractionSequential(root, d, front, [e]);
      var (d1, out) := Extracted(root, d, front);
      if out == Done {
        SingleEntry(root, d1, e);
        StepExact(root, d1, e);
        if Good(root, d, front, e) {
          OneMoreGood(root, d, d1, front, e);
        }
      }
    }
  }

  lemma SingleEntry(root: string, d: Disk, e: Entry)
    ensures Extracted(root, d, [e]) == Step(root, d, e)
  {
    assert [e][1..] == [];
  }

  /** Otherwise the first entry that is not good decides: its error is reported, what it had made
      so far stays, and the entries after it make no difference. */
  lemma FirstBadDecides(root: string, d: Disk, front: seq<Entry>, e: Entry, rest: seq<Entry>)
    requires IsAbs(root) && Comps(root) != []
    requires AllGood(root, d, front) && !Good(root, d, front, e)
    ensures var (d1, out) := Extracted(root, d, front + [e] + rest);
      && out == (if e.Corrupt? then BadHeader
                 else if e.kind == OtherType then Unsupported(e.name)
                 else if !(Comps(root) <= Target(root, e.name)) then BadPath(e.name)
                 else SystemError)
      && (forall p :: p in d1.dirs <==> IsDir(root, d, front, p) || AsksFor(root, e, p))
  {
    DoneExactly(root, d, front);
    ExtractionSequential(root, d, front, [e] + rest);
    assert front + [e] + rest == front + ([e] + rest);
    var d0 := Extracted(root, d, front).0;
    ExtractionSequential(root, d0, [e], rest);
    SingleEntry(root, d0, e);
    StepExact(root, d0, e);
  }

  /** A copy that breaks off leaves as much of the content as had been copied by then. */
  lemma BrokenOffCopy(root: string, d: Disk, front: seq<Entry>, e: Entry, rest: seq<Entry>)
    requires IsAbs(root) && Comps(root) != []
    requires AllGood(root, d, front) && e.Entry? && e.kind == Regular && !e.fate.copies
    requires Good(root, d, front, e.(fate := e.fate.(copies := true)))
    ensures var d1 := Extracted(root, d, front + [e] + rest).0; var path := Target(root, e.name);
      && path in d1.files && d1.files[path] <= e.content
      && |d1.files[path]| == if e.fate.copied <= |e.content| then e.fate.copied else |e.content|
  {
    DoneExactly(root, d, front);
    ExtractionSequential(root, d, front, [e] + rest);
    assert front + [e] + rest == front + ([e] + rest);
    var d0 := Extracted(root, d, front).0;
    ExtractionSequential(root, d0, [e], rest);
    SingleEntry(root, d0, e);
    BrokenOffStep(root, d0, e);
  }

  lemma BrokenOffStep(root: string, d: Disk, e: Entry)
    requires IsAbs(root) && Comps(root) != [] && e.Entry? && e.kind == Regular && !e.fate.copies && e.fate.opens
    requires Comps(root) <= Target(root, e.name) && |Asked(root, e)| <= e.fate.made
    requires Target(root, e.name) !in d.dirs
    ensures var (d1, out) := Step(root, d, e); var path := Target(root, e.name);
      && out == SystemError && path in d1.files && d1.files[path] <= e.content
      && |d1.files[path]| == if e.fate.copied <= |e.content| then e.fate.copied else |e.content|
  {
    AcceptedExactly(root, e.name);
    JoinWalks(root, e.name);
    MkdirAllExact(d, Asked(root, e), e.fate.made);
  }

  // ----- where the root comes from -----

  const NETWORK_LOGS: string := "network_logs"

  /** The path `getNetworkLogsDirectory` assembles. */
  function NetworkLogsPath(mustGather: string, dirName: string): string {
    Clean(mustGather + "/" + dirName + "/" + NETWORK_LOGS)
  }

  /** For every must-gather path that passes validation the root is absolute and has at least
      two components, so the exceptional root `/` never arises. */
  lemma NetworkLogsRoot(mustGather: string, dirName: string)
    requires ValidPath(mustGather, false)
    requires Plain(dirName) && dirName != ".."
    ensures var root := NetworkLogsPath(mustGather, dirName);
            IsAbs(root) && Comps(root) == Comps(mustGather) + [dirName, "network_logs"]
  {
    assert '/' !in NETWORK_LOGS;
    CompsBelow(mustGather, dirName, NETWORK_LOGS);
  }

  lemma CompsBelow(p: string, a: string, b: string)
    requires IsAbs(p) && Plain(a) && a != ".." && Plain(b) && b != ".."
    ensures var q := Clean(p + "/" + a + "/" + b); IsAbs(q) && Comps(q) == Comps(p) + [a, b]
  {
    var tail := a + ['/'] + b;
    var q := p + "/" + a + "/" + b;
    assert q == p + ['/'] + tail;
    CleanCanonical(q, q);
    SplitAppend(p, tail, '/');
    SplitAppend(a, b, '/');
    SplitFree(a, '/');
    SplitFree(b, '/');
    assert [a] + [b] == [a, b];
    WalkAppend(true, [], Split(p, '/'), [a, b]);
    WalkTwo(Comps(p), a, b);
  }

  lemma WalkTwo(stack: seq<string>, a: string, b: string)
    requires Plain(a) && a != ".." && Plain(b) && b != ".."
    ensures Walk(true, stack, [a, b]) == stack + [a, b]
  {
    assert Walk(true, stack, [a, b]) == Walk(true, stack + [a], [b]) by { assert [a, b][1..] == [b]; }
    assert Walk(true, stack + [a], [b]) == stack + [a] + [b] by { assert [b][1..] == []; }
  }
}
