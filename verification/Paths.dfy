/** Lexical paths. `filepath.Clean` is written as a stack machine over the slash-separated
    elements, following its documentation; the repository's three path checks are then
    related to the components a path has after cleaning. */
module Paths {
  import opened Strings

  /** `filepath.IsAbs` on a slash-separated system. */
  predicate IsAbs(p: string) {
    p != "" && p[0] == '/'
  }

  /** One element of a path applied to the components kept so far. */
  function Push(rooted: bool, stack: seq<string>, c: string): seq<string> {
    if c == "" || c == "." then stack
    else if c == ".." then
      if stack != [] && stack[|stack| - 1] != ".." then stack[..|stack| - 1]
      else if rooted then stack
      else stack + [".."]
    else stack + [c]
  }

  function Walk(rooted: bool, stack: seq<string>, parts: seq<string>): seq<string>
    decreases |parts|
  {
    if parts == [] then stack else Walk(rooted, Push(rooted, stack, parts[0]), parts[1..])
  }

  /** The components that remain of a path after cleaning. */
  function Comps(p: string): seq<string> {
    Walk(IsAbs(p), [], Split(p, '/'))
  }

  function Render(rooted: bool, stack: seq<string>): string {
    if rooted then "/" + Join(stack, "/")
    else if stack == [] then "."
    else Join(stack, "/")
  }

  /** `filepath.Clean`. */
  function Clean(p: string): string {
    Render(IsAbs(p), Comps(p))
  }

  /** `filepath.Join` of two elements. */
  function JoinPath(a: string, b: string): string {
    if a != "" then Clean(a + "/" + b) else if b != "" then Clean(b) else ""
  }

  // ----- what cleaning leaves -----

  predicate Plain(c: string) {
    '/' !in c && c != "" && c != "."
  }

  /** Plain components, with `..` only in front, and not at all below a root. */
  ghost predicate Normal(rooted: bool, stack: seq<string>) {
    && (forall c :: c in stack ==> Plain(c))
    && (rooted ==> ".." !in stack)
    && (forall i :: 0 < i < |stack| && stack[i] == ".." ==> stack[i - 1] == "..")
  }

  lemma {:induction false} WalkAppend(rooted: bool, stack: seq<string>, a: seq<string>, b: seq<string>)
    ensures Walk(rooted, stack, a + b) == Walk(rooted, Walk(rooted, stack, a), b)
    decreases |a|
  {
    if a == [] {
      assert a + b == b;
    } else {
      assert (a + b)[1..] == a[1..] + b;
      WalkAppend(rooted, Push(rooted, stack, a[0]), a[1..], b);
    }
  }

  lemma {:induction false} WalkNormal(rooted: bool, stack: seq<string>, parts: seq<string>)
    requires Normal(rooted, stack) && forall c :: c in parts ==> '/' !in c
    ensures Normal(rooted, Walk(rooted, stack, parts))
    decreases |parts|
  {
    if parts != [] {
      var next := Push(rooted, stack, parts[0]);
      assert forall c :: c in next ==> c in stack || c == parts[0];
      WalkNormal(rooted, next, parts[1..]);
    }
  }

  lemma CompsNormal(p: string)
    ensures Normal(IsAbs(p), Comps(p))
  {
    WalkNormal(IsAbs(p), [], Split(p, '/'));
  }

  /** A normal path walks back onto itself. */
  lemma {:induction false} WalkFixed(rooted: bool, stack: seq<string>, parts: seq<string>)
    requires Normal(rooted, stack + parts)
    ensures Walk(rooted, stack, parts) == stack + parts
    decreases |parts|
  {
    if parts != [] {
      var c := parts[0];
      assert (stack + parts)[|stack|] == c;
      assert c in stack + parts && Plain(c);
      if c == ".." && stack != [] {
        assert (stack + parts)[|stack| - 1] == stack[|stack| - 1];
      }
      assert Push(rooted, stack, c) == stack + [c];
      assert (stack + [c]) + parts[1..] == stack + parts;
      WalkFixed(rooted, stack + [c], parts[1..]);
    }
  }

  lemma {:induction false} JoinHead(stack: seq<string>)
    requires stack != [] && Plain(stack[0])
    ensures Join(stack, "/") != "" && Join(stack, "/")[0] == stack[0][0] != '/'
  {
    assert stack[0][0] in stack[0];
  }

  /** Reading back a rendered stack. */
  lemma CompsRender(rooted: bool, stack: seq<string>)
    requires Normal(rooted, stack)
    ensures IsAbs(Render(rooted, stack)) == rooted
    ensures Comps(Render(rooted, stack)) == stack
  {
    var text := Render(rooted, stack);
    assert [] + stack == stack;
    WalkFixed(rooted, [], stack);
    if stack != [] {
      SplitJoin(stack, '/');
      JoinHead(stack);
      assert stack[0] in stack;
    }
    if rooted {
      SplitAppend("", Join(stack, "/"), '/');
      assert text == "" + ['/'] + Join(stack, "/");
      assert Split(text, '/') == [""] + Split(Join(stack, "/"), '/');
      assert ([""] + Split(Join(stack, "/"), '/'))[1..] == Split(Join(stack, "/"), '/');
      if stack == [] {
        assert Split("", '/') == [""] && [""][1..] == [];
        assert Walk(true, [], [""]) == [];
      }
    } else if stack == [] {
      SplitFree(".", '/');
    }
  }

  /** Cleaning keeps the components; cleaning twice is cleaning once; and two paths clean to
      the same text exactly when they agree on being absolute and on their components. */
  lemma CleanCanonical(p: string, q: string)
    ensures IsAbs(Clean(p)) == IsAbs(p) && Comps(Clean(p)) == Comps(p)
    ensures Clean(Clean(p)) == Clean(p)
    ensures Clean(p) == Clean(q) <==> IsAbs(p) == IsAbs(q) && Comps(p) == Comps(q)
  {
    CompsNormal(p);
    CompsNormal(q);
    CompsRender(IsAbs(p), Comps(p));
    CompsRender(IsAbs(q), Comps(q));
  }

  /** The elements between two slashes may be left out if the walk over them leads back to where
      it set out from. */
  lemma Detour(a: string, mid: string, b: string)
    requires forall stack :: Walk(IsAbs(a + "/"), stack, Split(mid, '/')) == stack
    ensures Clean(a + "/" + mid + "/" + b) == Clean(a + "/" + b)
  {
    var long, short, rooted := a + "/" + mid + "/" + b, a + "/" + b, IsAbs(a + "/");
    var p, m, q := Split(a, '/'), Split(mid, '/'), Split(b, '/');
    assert long == a + ['/'] + (mid + ['/'] + b) && short == a + ['/'] + b;
    SplitAppend(a, mid + ['/'] + b, '/');
    SplitAppend(mid, b, '/');
    SplitAppend(a, b, '/');
    WalkAppend(rooted, [], p, m + q);
    WalkAppend(rooted, Walk(rooted, [], p), m, q);
    WalkAppend(rooted, [], p, q);
    assert IsAbs(long) == rooted && IsAbs(short) == rooted;
    CleanCanonical(long, short);
  }

  /** The rules of cleaning: repeated slashes are one, `.` elements go, and an element goes together
      with the `..` after it. */
  lemma CleanDrops(a: string, c: string, b: string)
    requires Plain(c) && c != ".."
    ensures Clean(a + "/" + "" + "/" + b) == Clean(a + "/" + b)
    ensures Clean(a + "/" + "." + "/" + b) == Clean(a + "/" + b)
    ensures Clean(a + "/" + (c + "/..") + "/" + b) == Clean(a + "/" + b)
  {
    var rooted := IsAbs(a + "/");
    forall stack ensures Walk(rooted, stack, Split("", '/')) == stack {
      WalkOne(rooted, stack, "");
    }
    Detour(a, "", b);
    SplitFree(".", '/');
    forall stack ensures Walk(rooted, stack, Split(".", '/')) == stack {
      WalkOne(rooted, stack, ".");
    }
    Detour(a, ".", b);
    UpAndDown(rooted, c);
    Detour(a, c + "/..", b);
  }

  lemma WalkOne(rooted: bool, stack: seq<string>, c: string)
    ensures Walk(rooted, stack, [c]) == Push(rooted, stack, c)
  {
    assert [c][1..] == [];
  }

  lemma UpAndDown(rooted: bool, c: string)
    requires Plain(c) && c != ".."
    ensures forall stack :: Walk(rooted, stack, Split(c + "/..", '/')) == stack
  {
    assert c + "/.." == c + ['/'] + "..";
    SplitAppend(c, "..", '/');
    SplitFree(c, '/');
    SplitFree("..", '/');
    forall stack ensures Walk(rooted, stack, Split(c + "/..", '/')) == stack {
      WalkAppend(rooted, stack, [c], [".."]);
      WalkOne(rooted, stack, c);
      WalkOne(rooted, stack + [c], "..");
    }
  }

  /** `..` at the root leads nowhere. */
  lemma CleanAtRoot(b: string)
    ensures Clean("/../" + b) == Clean("/" + b)
  {
    var long, short := "/../" + b, "/" + b;
    assert long == "" + ['/'] + (".." + ['/'] + b) && short == "" + ['/'] + b;
    SplitAppend("", ".." + ['/'] + b, '/');
    SplitAppend("..", b, '/');
    SplitAppend("", b, '/');
    SplitFree("..", '/');
    var q := Split(b, '/');
    assert Split(long, '/') == ["", ".."] + q && Split(short, '/') == [""] + q;
    WalkAppend(true, [], ["", ".."], q);
    WalkAppend(true, [], [""], q);
    WalkOne(true, [], "");
    WalkAppend(true, [], [""], [".."]);
    assert [""] + [".."] == ["", ".."];
    WalkOne(true, [], "..");
    CleanCanonical(long, short);
  }

  /** What the rules leave is left alone: plain elements, after `..` elements only when relative. */
  lemma CleanFixed(ups: nat, parts: seq<string>)
    requires forall c :: c in parts ==> Plain(c) && c != ".."
    ensures Clean("/" + Join(parts, "/")) == "/" + Join(parts, "/")
    ensures var all := seq(ups, _ => "..") + parts; all != [] ==> Clean(Join(all, "/")) == Join(all, "/")
    ensures Clean("") == "."
  {
    CompsRender(true, parts);
    var all := seq(ups, _ => "..") + parts;
    assert forall i :: 0 <= i < |all| && all[i] == ".." ==> i < ups by {
      forall i | ups <= i < |all| ensures all[i] != ".." {
        assert all[i] in parts;
      }
    }
    CompsRender(false, all);
    CompsRender(false, []);
    WalkOne(false, [], "");
  }

  /** Joining continues the walk of the first path with the elements of the second. */
  lemma JoinWalks(a: string, b: string)
    requires a != ""
    ensures IsAbs(JoinPath(a, b)) == IsAbs(a)
    ensures Comps(JoinPath(a, b)) == Walk(IsAbs(a), Comps(a), Split(b, '/'))
  {
    var p := a + "/" + b;
    CleanCanonical(p, p);
    assert p == a + ['/'] + b;
    SplitAppend(a, b, '/');
    WalkAppend(IsAbs(a), [], Split(a, '/'), Split(b, '/'));
  }

  /** Joining a plain name adds one component. */
  lemma JoinPlain(a: string, name: string)
    requires a != "" && Plain(name) && name != ".."
    ensures Comps(JoinPath(a, name)) == Comps(a) + [name]
  {
    JoinWalks(a, name);
    SplitFree(name, '/');
    assert [name][1..] == [];
  }

  // ----- the containment test -----

  /** Every component followed by its slash. */
  function Terminated(parts: seq<string>): string {
    if parts == [] then "" else parts[0] + "/" + Terminated(parts[1..])
  }

  lemma {:induction false} TerminatedJoin(parts: seq<string>)
    requires parts != []
    ensures Join(parts, "/") + "/" == Terminated(parts)
  {
    if |parts| > 1 {
      TerminatedJoin(parts[1..]);
      assert Join(parts, "/") + "/" == parts[0] + "/" + (Join(parts[1..], "/") + "/");
    }
  }

  lemma {:induction false} TerminatedPrefix(x: seq<string>, y: seq<string>)
    requires forall c :: c in x ==> '/' !in c
    requires forall c :: c in y ==> '/' !in c
    ensures Terminated(x) <= Terminated(y) <==> x <= y
    decreases |x|
  {
    if x != [] && y != [] {
      var a, b := x[0], y[0];
      var tx, ty := Terminated(x[1..]), Terminated(y[1..]);
      if a == b {
        TerminatedPrefix(x[1..], y[1..]);
        assert x <= y <==> x[1..] <= y[1..] by {
          assert x == [a] + x[1..] && y == [a] + y[1..];
        }
        var h := a + "/";
        assert Terminated(x) == h + tx && Terminated(y) == h + ty;
        assert (h + tx)[|h|..] == tx && (h + ty)[|h|..] == ty;
        assert h + tx <= h + ty <==> tx <= ty by {
          if h + tx <= h + ty {
            assert (h + ty)[..|h + tx|] == h + tx;
            assert ty[..|tx|] == (h + ty)[|h|..|h + tx|];
          }
        }
      } else {
        SlashSeparates(a, tx, b, ty);
      }
    }
  }

  ghost function Difference(a: string, b: string): (k: nat)
    requires |a| == |b| && a != b
    ensures k < |a| && a[k] != b[k]
  {
    if a[0] != b[0] then 0
    else
      assert a == [a[0]] + a[1..] && b == [b[0]] + b[1..];
      1 + Difference(a[1..], b[1..])
  }

  /** Different slash-free heads followed by a slash are never prefixes of one another. */
  lemma SlashSeparates(a: string, s: string, b: string, t: string)
    requires '/' !in a && '/' !in b && a != b
    ensures !(a + "/" + s <= b + "/" + t)
  {
    var p, q := a + "/" + s, b + "/" + t;
    assert p[|a|] == '/' && q[|b|] == '/';
    assert forall k :: 0 <= k < |a| ==> p[k] == a[k] && a[k] in a;
    assert forall k :: 0 <= k < |b| ==> q[k] == b[k] && b[k] in b;
    var k := if |a| < |b| then |a| else if |b| < |a| then |b| else Difference(a, b);
    assert p[k] != q[k];
  }

  /** The test of the extraction loop: a string prefix with slashes appended. */
  predicate InsideByText(root: string, dest: string) {
    Clean(root) + "/" <= Clean(dest) + "/"
  }

  /** The string test is the component test for every absolute root except `/` itself, which
      lets only `/` through. */
  lemma InsideByTextExact(root: string, dest: string)
    requires IsAbs(root) && IsAbs(dest)
    ensures InsideByText(root, dest) <==>
            Comps(root) <= Comps(dest) && (Comps(root) == [] ==> Comps(dest) == [])
  {
    var x, y := Comps(root), Comps(dest);
    CompsNormal(root);
    CompsNormal(dest);
    TerminatedPrefix(x, y);
    if x != [] {
      TerminatedJoin(x);
      assert Clean(root) + "/" == "/" + Terminated(x);
    } else {
      assert Clean(root) + "/" == "//";
    }
    if y != [] {
      TerminatedJoin(y);
      JoinHead(y);
      assert y[0] in y;
      assert Clean(dest) + "/" == "/" + Terminated(y);
      assert (Clean(dest) + "/")[1] != '/';
    } else {
      assert Clean(dest) + "/" == "//";
      if x != [] {
        JoinHead(x);
        assert x[0] in x;
        assert (Clean(root) + "/")[1] != '/';
      }
    }
    if x != [] && y != [] {
      assert ("/" + Terminated(x))[1..] == Terminated(x) && ("/" + Terminated(y))[1..] == Terminated(y);
      if "/" + Terminated(x) <= "/" + Terminated(y) {
        assert Terminated(y)[..|Terminated(x)|] == ("/" + Terminated(y))[1..|Terminated(x)| + 1];
      }
    }
  }

  // ----- relative paths -----

  /** `validateRelativePath`: true when no error is returned. */
  predicate ValidRelative(rel: string) {
    !Contains(Clean(rel), "..") && !IsAbs(Clean(rel))
  }

  /** As long as the walk on its own never climbs out, it behaves the same on any stack. */
  lemma {:induction false} WalkOnTop(rooted: bool, base: seq<string>, top: seq<string>, parts: seq<string>)
    requires ".." !in Walk(false, top, parts) && ".." !in top
    ensures Walk(rooted, base + top, parts) == base + Walk(false, top, parts)
    decreases |parts|
  {
    if parts != [] {
      var c := parts[0];
      var next := Push(false, top, c);
      if ".." in next {
        WalkKeepsDots(next, parts[1..]);
        assert false;
      }
      assert Push(rooted, base + top, c) == base + next;
      WalkOnTop(rooted, base, next, parts[1..]);
    }
  }

  /** Once a relative walk has climbed out, it stays out. */
  lemma {:induction false} WalkKeepsDots(stack: seq<string>, parts: seq<string>)
    requires ".." in stack
    ensures ".." in Walk(false, stack, parts)
    decreases |parts|
  {
    if parts != [] {
      var next := Push(false, stack, parts[0]);
      if |next| < |stack| {
        var i :| 0 <= i < |stack| && stack[i] == "..";
        assert next[i] == "..";
      }
      WalkKeepsDots(next, parts[1..]);
    }
  }

  /** Below any absolute root, a relative path lands at the root's components followed by its
      own exactly when its own have no `..`. */
  lemma JoinStaysInside(root: string, rel: string)
    requires !IsAbs(rel)
    ensures ".." !in Comps(rel) ==> Comps(JoinPath(root, rel)) == Comps(root) + Comps(rel)
    ensures IsAbs(root) ==>
              (Comps(JoinPath(root, rel)) == Comps(root) + Comps(rel) <==> ".." !in Comps(rel))
  {
    if root != "" {
      JoinWalks(root, rel);
      if ".." !in Comps(rel) {
        WalkOnTop(IsAbs(root), Comps(root), [], Split(rel, '/'));
        assert Comps(root) + [] == Comps(root);
      } else if IsAbs(root) {
        CompsNormal(JoinPath(root, rel));
        assert ".." in Comps(root) + Comps(rel);
      }
    } else {
      assert Comps("") == [] by { assert Split("", '/') == [""]; assert [""][1..] == []; }
      CleanCanonical(rel, rel);
      assert [] + Comps(rel) == Comps(rel);
    }
  }

  lemma DotsAt(s: string, i: int)
    ensures OccursAt(s, "..", i) <==> 0 <= i && i + 2 <= |s| && s[i] == '.' && s[i + 1] == '.'
  {
    if 0 <= i && i + 2 <= |s| {
      var w := s[i..i + 2];
      assert w[0] == s[i] && w[1] == s[i + 1];
      assert w == [s[i], s[i + 1]];
    }
  }

  /** A slash cannot be inside a pair of dots. */
  lemma DotsInPair(a: string, rest: string)
    ensures Contains(a + "/" + rest, "..") <==> Contains(a, "..") || Contains(rest, "..")
  {
    var s := a + "/" + rest;
    var k := |a| + 1;
    forall i ensures OccursAt(s, "..", i) <==> OccursAt(a, "..", i) || OccursAt(rest, "..", i - k) {
      DotsAt(s, i);
      DotsAt(a, i);
      DotsAt(rest, i - k);
    }
    if Contains(rest, "..") {
      var i :| 0 <= i <= |rest| && OccursAt(rest, "..", i);
      assert OccursAt(rest, "..", (i + k) - k);
      assert OccursAt(s, "..", i + k);
    }
  }

  lemma {:induction false} DotsInJoin(parts: seq<string>)
    ensures Contains(Join(parts, "/"), "..") <==> exists c :: c in parts && Contains(c, "..")
  {
    if |parts| == 0 {
      assert !OccursAt("", "..", 0);
    } else if |parts| > 1 {
      DotsInJoin(parts[1..]);
      DotsInPair(parts[0], Join(parts[1..], "/"));
      assert forall c :: c in parts <==> c == parts[0] || c in parts[1..];
    }
  }

  /** What the check accepts, in terms of components: it also refuses harmless names such as
      `a..b`. */
  lemma ValidRelativeExact(rel: string)
    ensures ValidRelative(rel) <==> !IsAbs(rel) && forall c :: c in Comps(rel) ==> !Contains(c, "..")
  {
    CleanCanonical(rel, rel);
    DotsInJoin(Comps(rel));
    assert !OccursAt(".", "..", 0);
    if Comps(rel) == [] && !IsAbs(rel) {
      assert !Contains(Clean(rel), "..");
    }
  }

  /** An accepted relative path names something below the root it is joined to, and which one
      does not depend on the root. */
  lemma ValidRelativeStaysInside(root: string, rel: string)
    requires ValidRelative(rel)
    ensures Comps(JoinPath(root, rel)) == Comps(root) + Comps(rel)
  {
    ValidRelativeExact(rel);
    assert OccursAt("..", "..", 0);
    assert Contains("..", "..");
    JoinStaysInside(root, rel);
  }

  // ----- absolute paths -----

  predicate SafePathChar(c: char) {
    IsLetter(c) || IsDigit(c) || c == '/' || c == '_' || c == '.' || c == '~' || c == '-'
  }

  /** `ValidatePath`: true when no error is returned. */
  predicate ValidPath(path: string, allowEmpty: bool) {
    if path == "" then allowEmpty
    else IsAbs(path) && ".." !in Split(path, '/') && forall c :: c in path ==> SafePathChar(c)
  }

  predicate Kept(c: string) {
    c != "" && c != "."
  }

  lemma {:induction false} WalkFilters(stack: seq<string>, parts: seq<string>)
    requires ".." !in parts
    ensures Walk(true, stack, parts) == stack + Filter(Kept, parts)
    decreases |parts|
  {
    if parts != [] {
      assert parts[0] in parts;
      WalkFilters(Push(true, stack, parts[0]), parts[1..]);
    }
  }

  /** Cleaning an absolute path only drops empty and `.` elements exactly when it has no `..`. */
  lemma CleanOnlyDrops(path: string)
    requires IsAbs(path)
    ensures Comps(path) == Filter(Kept, Split(path, '/')) <==> ".." !in Split(path, '/')
  {
    CompsNormal(path);
    if ".." !in Split(path, '/') {
      WalkFilters([], Split(path, '/'));
      assert [] + Filter(Kept, Split(path, '/')) == Filter(Kept, Split(path, '/'));
    } else {
      assert ".." in Filter(Kept, Split(path, '/'));
    }
  }

  /** So an accepted path never climbs while it is being cleaned. */
  lemma ValidPathNeverClimbs(path: string, allowEmpty: bool)
    requires ValidPath(path, allowEmpty)
    ensures Comps(path) == Filter(Kept, Split(path, '/'))
  {
    if path != "" {
      CleanOnlyDrops(path);
    } else {
      assert [""][1..] == [];
    }
  }

  /** What is accepted: an absolute path that cleaning does not shorten by more than its empty and
      `.` elements, made of a few characters. */
  lemma ValidPathExact(path: string, allowEmpty: bool)
    ensures ValidPath(path, allowEmpty) <==>
            if path == "" then allowEmpty
            else && path[0] == '/'
                 && Comps(path) == Filter(Kept, Split(path, '/'))
                 && forall c :: c in path ==>
                      'a' <= c <= 'z' || 'A' <= c <= 'Z' || '0' <= c <= '9' || c in "/_.~-"
  {
    if IsAbs(path) {
      CleanOnlyDrops(path);
    }
    forall c ensures SafePathChar(c) <==>
      'a' <= c <= 'z' || 'A' <= c <= 'Z' || '0' <= c <= '9' || c in "/_.~-"
    {
    }
  }

  // ----- the last element -----

  function DropSlashes(p: string): (r: string)
    ensures r == "" || r[|r| - 1] != '/'
  {
    if p != "" && p[|p| - 1] == '/' then DropSlashes(p[..|p| - 1]) else p
  }

  /** `filepath.Base`. */
  function Base(p: string): string {
    if p == "" then "."
    else
      var q := DropSlashes(p);
      if q == "" then "/" else q[LastIndex(q, '/') + 1..]
  }

  /** The last element of a path that ends in a plain name is that name, below any directory. */
  lemma BaseOfFile(dir: string, name: string)
    requires name != "" && '/' !in name
    ensures Base(name) == name && Base(dir + "/" + name) == name
  {
    var p := dir + "/" + name;
    assert p[|p| - 1] == name[|name| - 1] && name[|name| - 1] in name;
    assert name[|name| - 1] != '/' && DropSlashes(name) == name && DropSlashes(p) == p;
    assert p[|dir|] == '/' && p[|dir| + 1..] == name;
    LastIndexUnique(p, '/', |dir|);
    assert LastIndex(name, '/') == -1 by {
      forall i | 0 <= i < |name| ensures name[i] != '/' { assert name[i] in name; }
    }
  }

  /** The last element does not depend on slashes after it; without any element it is a slash, and
      a dot for the empty path. */
  lemma BaseRules(p: string)
    ensures p != "" ==> Base(p + "/") == Base(p)
    ensures Base("/") == "/" && Base("") == "."
  {
    assert (p + "/")[..|p|] == p;
    assert DropSlashes(p + "/") == DropSlashes(p);
    assert "/"[..0] == "";
    assert DropSlashes("/") == "";
  }

  lemma BaseHasNoSlash(p: string)
    ensures Base(p) != "" && (Base(p) == "/" || '/' !in Base(p))
  {
    if p != "" {
      var q := DropSlashes(p);
      if q != "" {
        forall i | LastIndex(q, '/') < i < |q| ensures q[i] != '/' {}
      }
    }
  }

  /** A name is its own last element exactly when it is not empty and has no slash, the name
      `/` aside. */
  lemma BaseFixed(p: string)
    ensures Base(p) == p <==> p == "/" || (p != "" && '/' !in p)
  {
    BaseHasNoSlash(p);
    assert DropSlashes("/") == "" by { assert "/"[..0] == ""; }
    if p != "" && '/' !in p {
      BaseOfFile("", p);
    }
  }
}
