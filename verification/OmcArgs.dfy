/** What a command line says: different requests never run the same one. */
module OmcArgs {
  import opened Strings
  import opened OmcClient

  /** Requests that ask for the same thing: an unset namespace of a single resource is the
      default one, and an output type omc is not told about is none. */
  function Meaning(r: Request): Request {
    match r
    case GetResource(kind, namespace, name, output) =>
      GetResource(kind, if namespace == "" then "default" else namespace, name, KnownOutput(output))
    case ListResources(kind, namespace, selector, output) =>
      ListResources(kind, namespace, selector, KnownOutput(output))
    case _ => r
  }

  function KnownOutput(output: string): string {
    if output == "json" || output == "yaml" || output == "wide" || "jsonpath=" <= output then output else ""
  }

  lemma OutputArgsRead(o1: string, o2: string, rest1: seq<string>, rest2: seq<string>)
    requires rest1 == [] || rest1[0] == "-n" || rest1[0] == "-A"
    requires rest2 == [] || rest2[0] == "-n" || rest2[0] == "-A"
    requires OutputArgs(o1) + rest1 == OutputArgs(o2) + rest2
    ensures KnownOutput(o1) == KnownOutput(o2) && rest1 == rest2
  {
    var x, y := OutputArgs(o1) + rest1, OutputArgs(o2) + rest2;
    assert "-o"[1] != "-n"[1] && "-o"[1] != "-A"[1];
    assert if OutputArgs(o1) == [] then x == rest1 else x[0] == "-o" && x[1] == o1 && x[2..] == rest1;
    assert if OutputArgs(o2) == [] then y == rest2 else y[0] == "-o" && y[1] == o2 && y[2..] == rest2;
  }

  lemma GetArgsRead(r1: Request, r2: Request)
    requires r1.GetResource? && r2.GetResource? && Args(r1) == Args(r2)
    ensures Meaning(r1) == Meaning(r2)
  {
    var a := Args(r1);
    assert a[1] == r1.kind && a[2] == r1.name && Args(r2)[1] == r2.kind && Args(r2)[2] == r2.name;
    assert a[4] == Meaning(r1).namespace && Args(r2)[4] == Meaning(r2).namespace;
    assert a[5..] == OutputArgs(r1.output) + [] && Args(r2)[5..] == OutputArgs(r2.output) + [];
    OutputArgsRead(r1.output, r2.output, [], []);
  }

  function NamespaceArgs(namespace: string): seq<string> {
    if namespace != "" then ["-n", namespace] else ["-A"]
  }

  function SelectorArgs(selector: string): seq<string> {
    if selector != "" then ["-l", selector] else []
  }

  lemma SelectorArgsRead(s1: string, s2: string, rest1: seq<string>, rest2: seq<string>)
    requires rest1 != [] && (rest1[0] == "-o" || rest1[0] == "-n" || rest1[0] == "-A")
    requires rest2 != [] && (rest2[0] == "-o" || rest2[0] == "-n" || rest2[0] == "-A")
    requires SelectorArgs(s1) + rest1 == SelectorArgs(s2) + rest2
    ensures s1 == s2 && rest1 == rest2
  {
    var x, y := SelectorArgs(s1) + rest1, SelectorArgs(s2) + rest2;
    assert "-l"[1] != "-o"[1] && "-l"[1] != "-n"[1] && "-l"[1] != "-A"[1];
    assert s1 != "" <==> x[0] == "-l";
    assert s2 != "" <==> y[0] == "-l";
    if s1 != "" {
      assert x[1] == s1 && y[1] == s2;
      assert x[2..] == rest1 && y[2..] == rest2;
    } else {
      assert x == rest1 && y == rest2;
    }
  }

  lemma ListShape(r: Request)
    requires r.ListResources?
    ensures |Args(r)| >= 2 && Args(r)[1] == r.kind
    ensures Args(r)[2..] == SelectorArgs(r.labelSelector) + (OutputArgs(r.output) + NamespaceArgs(r.namespace))
  {
    var rest := SelectorArgs(r.labelSelector) + (OutputArgs(r.output) + NamespaceArgs(r.namespace));
    assert Args(r) == ["get", r.kind] + rest;
    assert (["get", r.kind] + rest)[2..] == rest;
  }

  lemma NamespaceArgsRead(n1: string, n2: string)
    requires NamespaceArgs(n1) == NamespaceArgs(n2)
    ensures n1 == n2
  {
    assert |NamespaceArgs(n1)| == |NamespaceArgs(n2)|;
    assert n1 != "" ==> NamespaceArgs(n1)[1] == n1;
    assert n2 != "" ==> NamespaceArgs(n2)[1] == n2;
  }

  lemma ListArgsRead(r1: Request, r2: Request)
    requires r1.ListResources? && r2.ListResources? && Args(r1) == Args(r2)
    ensures Meaning(r1) == Meaning(r2)
  {
    var n1, n2 := NamespaceArgs(r1.namespace), NamespaceArgs(r2.namespace);
    ListShape(r1);
    ListShape(r2);
    TailHead(r1.output, r1.namespace);
    TailHead(r2.output, r2.namespace);
    SelectorArgsRead(r1.labelSelector, r2.labelSelector, OutputArgs(r1.output) + n1, OutputArgs(r2.output) + n2);
    OutputArgsRead(r1.output, r2.output, n1, n2);
    NamespaceArgsRead(r1.namespace, r2.namespace);
  }

  lemma TailHead(output: string, namespace: string)
    ensures var tail := OutputArgs(output) + NamespaceArgs(namespace);
            tail != [] && (tail[0] == "-o" || tail[0] == "-n" || tail[0] == "-A")
  {
  }

  function FlagArgs(flag: string, value: string): seq<string> {
    if value != "" then [flag, value] else []
  }

  function SwitchArgs(flag: string, on: bool): seq<string> {
    if on then [flag] else []
  }

  lemma FlagArgsRead(flag: string, v1: string, v2: string, rest1: seq<string>, rest2: seq<string>)
    requires rest1 == [] || rest1[0] != flag
    requires rest2 == [] || rest2[0] != flag
    requires FlagArgs(flag, v1) + rest1 == FlagArgs(flag, v2) + rest2
    ensures v1 == v2 && rest1 == rest2
  {
    var x, y := FlagArgs(flag, v1) + rest1, FlagArgs(flag, v2) + rest2;
    assert v1 != "" <==> x != [] && x[0] == flag;
    assert v2 != "" <==> y != [] && y[0] == flag;
    if v1 != "" {
      assert x[1] == v1 && y[1] == v2;
      assert x[2..] == rest1 && y[2..] == rest2;
    } else {
      assert x == rest1 && y == rest2;
    }
  }

  lemma SwitchesRead(p1: bool, r1: bool, p2: bool, r2: bool)
    requires SwitchArgs("-p", p1) + SwitchArgs("-r", r1) == SwitchArgs("-p", p2) + SwitchArgs("-r", r2)
    ensures p1 == p2 && r1 == r2
  {
    assert "-p"[1] != "-r"[1];
    var x, y := SwitchArgs("-p", p1) + SwitchArgs("-r", r1), SwitchArgs("-p", p2) + SwitchArgs("-r", r2);
    assert p1 <==> x != [] && x[0] == "-p";
    assert p2 <==> y != [] && y[0] == "-p";
    assert |x| == |y|;
  }

  function LogSwitches(r: Request): seq<string>
    requires r.GetPodLogs?
  {
    SwitchArgs("-p", r.previous) + SwitchArgs("-r", r.rotated)
  }

  lemma LogShape(r: Request)
    requires r.GetPodLogs?
    ensures |Args(r)| >= 2 && Args(r)[1] == r.name
    ensures Args(r)[2..] == FlagArgs("-c", r.container) + (FlagArgs("-n", r.namespace) + LogSwitches(r))
    ensures var s := LogSwitches(r); s == [] || (s[0] != "-n" && s[0] != "-c")
    ensures var n := FlagArgs("-n", r.namespace) + LogSwitches(r); n == [] || n[0] != "-c"
  {
    var rest := FlagArgs("-c", r.container) + (FlagArgs("-n", r.namespace) + LogSwitches(r));
    assert Args(r) == ["logs", r.name] + rest;
    assert (["logs", r.name] + rest)[2..] == rest;
    assert "-c"[1] != "-n"[1] && "-c"[1] != "-p"[1] && "-c"[1] != "-r"[1] && "-n"[1] != "-p"[1] && "-n"[1] != "-r"[1];
  }

  lemma LogArgsRead(r1: Request, r2: Request)
    requires r1.GetPodLogs? && r2.GetPodLogs? && Args(r1) == Args(r2)
    ensures r1 == r2
  {
    LogShape(r1);
    LogShape(r2);
    var s1, s2 := LogSwitches(r1), LogSwitches(r2);
    var n1, n2 := FlagArgs("-n", r1.namespace) + s1, FlagArgs("-n", r2.namespace) + s2;
    FlagArgsRead("-c", r1.container, r2.container, n1, n2);
    FlagArgsRead("-n", r1.namespace, r2.namespace, s1, s2);
    SwitchesRead(r1.previous, r1.rotated, r2.previous, r2.rotated);
  }

  /** The first argument gives the kind of request away, and between the two kinds of `get`, the
      third one does: a name that passed validation is not a flag. */
  lemma KindRead(r1: Request, r2: Request)
    requires ValidRequest(r1) && ValidRequest(r2) && Args(r1) == Args(r2)
    ensures r1.GetResource? == r2.GetResource? && r1.ListResources? == r2.ListResources?
    ensures r1.GetPodLogs? == r2.GetPodLogs? && r1.GetOvnKInfo? == r2.GetOvnKInfo?
  {
    FirstArg(r1);
    FirstArg(r2);
    assert "get"[0] != "logs"[0] && "get"[0] != "ovnk"[0] && "logs"[0] != "ovnk"[0];
    if r1.GetResource? || r1.ListResources? {
      ThirdArg(r1);
      ThirdArg(r2);
    }
  }

  lemma FirstArg(r: Request)
    ensures Args(r) != []
    ensures Args(r)[0] == (if r.GetPodLogs? then "logs" else if r.GetOvnKInfo? then "ovnk" else "get")
  {
  }

  lemma ThirdArg(r: Request)
    requires ValidRequest(r) && (r.GetResource? || r.ListResources?)
    ensures |Args(r)| >= 3 && Args(r)[2] != ""
    ensures r.ListResources? <==> Args(r)[2][0] == '-'
  {
    if r.ListResources? {
      var tail := OutputArgs(r.output) + NamespaceArgs(r.namespace);
      assert Args(r) == ["get", r.kind] + (SelectorArgs(r.labelSelector) + tail);
      assert Args(r)[2] == (SelectorArgs(r.labelSelector) + tail)[0];
    }
  }

  /** Two validated requests run the same command line exactly when they ask for the same. */
  lemma ArgsExact(r1: Request, r2: Request)
    requires ValidRequest(r1) && ValidRequest(r2)
    ensures Args(r1) == Args(r2) <==> Meaning(r1) == Meaning(r2)
  {
    if Args(r1) == Args(r2) {
      KindRead(r1, r2);
      match r1
      case GetResource(_, _, _, _) => GetArgsRead(r1, r2);
      case ListResources(_, _, _, _) => ListArgsRead(r1, r2);
      case GetPodLogs(_, _, _, _, _) => LogArgsRead(r1, r2);
      case GetOvnKInfo(_) => assert Args(r1)[1] == r1.infoType && Args(r2)[1] == r2.infoType;
    }
  }

  // ----- reading a command line -----

  /** What omc is told by the options of a command. */
  datatype Options = Options(
    namespace: Option<string>, all: bool, selector: string, output: string, container: string,
    previous: bool, rotated: bool)

  const NO_OPTIONS: Options := Options(None, false, "", "", "", false, false)

  /** Options are read from left to right: switches stand alone, the others take the next argument
      as their value, whatever that is. */
  function ReadOptions(args: seq<string>, o: Options): Option<Options> {
    if args == [] then Some(o)
    else if args[0] == "-A" then ReadOptions(args[1..], o.(all := true))
    else if args[0] == "-p" then ReadOptions(args[1..], o.(previous := true))
    else if args[0] == "-r" then ReadOptions(args[1..], o.(rotated := true))
    else if |args| == 1 then None
    else if args[0] == "-n" then ReadOptions(args[2..], o.(namespace := Some(args[1])))
    else if args[0] == "-l" then ReadOptions(args[2..], o.(selector := args[1]))
    else if args[0] == "-o" then ReadOptions(args[2..], o.(output := args[1]))
    else if args[0] == "-c" then ReadOptions(args[2..], o.(container := args[1]))
    else None
  }

  lemma SwitchRead(flag: string, rest: seq<string>, o: Options)
    requires flag == "-A" || flag == "-p" || flag == "-r"
    ensures ReadOptions([flag] + rest, o) ==
            ReadOptions(rest, if flag == "-A" then o.(all := true)
                              else if flag == "-p" then o.(previous := true)
                              else o.(rotated := true))
  {
    assert ([flag] + rest)[1..] == rest;
  }

  lemma ValueRead(flag: string, value: string, rest: seq<string>, o: Options)
    requires flag == "-n" || flag == "-l" || flag == "-o" || flag == "-c"
    ensures ReadOptions([flag, value] + rest, o) ==
            ReadOptions(rest, if flag == "-n" then o.(namespace := Some(value))
                              else if flag == "-l" then o.(selector := value)
                              else if flag == "-o" then o.(output := value)
                              else o.(container := value))
  {
    var args := [flag, value] + rest;
    assert args[2..] == rest;
    assert flag[1] != "-A"[1] && flag[1] != "-p"[1] && flag[1] != "-r"[1];
  }

  lemma OutputRead(output: string, rest: seq<string>, o: Options)
    requires o.output == ""
    ensures ReadOptions(OutputArgs(output) + rest, o) == ReadOptions(rest, o.(output := KnownOutput(output)))
  {
    if OutputArgs(output) != [] {
      ValueRead("-o", output, rest, o);
    } else {
      assert [] + rest == rest;
    }
  }

  lemma FlagRead(flag: string, value: string, rest: seq<string>, o: Options)
    requires (flag == "-l" && o.selector == "") || (flag == "-c" && o.container == "")
    ensures ReadOptions(FlagArgs(flag, value) + rest, o) ==
            ReadOptions(rest, if flag == "-l" then o.(selector := value) else o.(container := value))
  {
    if value != "" {
      ValueRead(flag, value, rest, o);
    } else {
      assert [] + rest == rest;
    }
  }

  /** omc is told exactly what a get asks for. */
  lemma GetUnderstood(kind: string, namespace: string, name: string, output: string)
    ensures var args := Args(GetResource(kind, namespace, name, output));
            && args == ["get", kind, name] + args[3..]
            && ReadOptions(args[3..], NO_OPTIONS) ==
               Some(NO_OPTIONS.(namespace := Some(if namespace == "" then "default" else namespace),
                                output := KnownOutput(output)))
  {
    var args := Args(GetResource(kind, namespace, name, output));
    var ns := if namespace == "" then "default" else namespace;
    assert args[3..] == ["-n", ns] + OutputArgs(output);
    ValueRead("-n", ns, OutputArgs(output), NO_OPTIONS);
    OutputRead(output, [], NO_OPTIONS.(namespace := Some(ns)));
    assert OutputArgs(output) + [] == OutputArgs(output);
  }

  /** And what a listing asks for: one namespace, or all of them when none is given. */
  lemma ListUnderstood(kind: string, namespace: string, selector: string, output: string)
    ensures var args := Args(ListResources(kind, namespace, selector, output));
            && args == ["get", kind] + args[2..]
            && ReadOptions(args[2..], NO_OPTIONS) ==
               Some(NO_OPTIONS.(namespace := if namespace == "" then None else Some(namespace),
                                all := namespace == "", selector := selector, output := KnownOutput(output)))
  {
    var r := ListResources(kind, namespace, selector, output);
    ListShape(r);
    var o := NO_OPTIONS.(selector := selector);
    FlagRead("-l", selector, OutputArgs(output) + NamespaceArgs(namespace), NO_OPTIONS);
    OutputRead(output, NamespaceArgs(namespace), o);
    NamespaceRead(namespace, o.(output := KnownOutput(output)));
    assert Args(r) == ["get", kind] + Args(r)[2..];
  }

  lemma NamespaceRead(namespace: string, o: Options)
    requires o.namespace == None && !o.all
    ensures ReadOptions(NamespaceArgs(namespace), o) ==
            Some(o.(namespace := if namespace == "" then None else Some(namespace), all := namespace == ""))
  {
    if namespace != "" {
      ValueRead("-n", namespace, [], o);
      assert ["-n", namespace] + [] == ["-n", namespace];
    } else {
      SwitchRead("-A", [], o);
      assert ["-A"] + [] == ["-A"];
    }
  }

  /** And what a log request asks for. */
  lemma LogsUnderstood(namespace: string, name: string, container: string, previous: bool, rotated: bool)
    ensures var args := Args(GetPodLogs(namespace, name, container, previous, rotated));
            && args == ["logs", name] + args[2..]
            && ReadOptions(args[2..], NO_OPTIONS) ==
               Some(NO_OPTIONS.(namespace := if namespace == "" then None else Some(namespace),
                                container := container, previous := previous, rotated := rotated))
  {
    var r := GetPodLogs(namespace, name, container, previous, rotated);
    LogShape(r);
    var o := NO_OPTIONS.(container := container);
    FlagRead("-c", container, FlagArgs("-n", namespace) + LogSwitches(r), NO_OPTIONS);
    if namespace != "" {
      ValueRead("-n", namespace, LogSwitches(r), o);
      SwitchesUnderstood(r, o.(namespace := Some(namespace)));
    } else {
      assert [] + LogSwitches(r) == LogSwitches(r);
      SwitchesUnderstood(r, o);
    }
    assert Args(r) == ["logs", name] + Args(r)[2..];
  }

  lemma SwitchesUnderstood(r: Request, o: Options)
    requires r.GetPodLogs? && !o.previous && !o.rotated
    ensures ReadOptions(LogSwitches(r), o) == Some(o.(previous := r.previous, rotated := r.rotated))
  {
    var last := SwitchArgs("-r", r.rotated);
    if r.previous {
      SwitchRead("-p", last, o);
    } else {
      assert [] + last == last;
    }
    if r.rotated {
      SwitchRead("-r", [], o.(previous := r.previous));
      assert ["-r"] + [] == ["-r"];
    }
  }
}
