/** Requests on the omc client, one at a time: which command line a request becomes, what it
    does to omc's current selection, and what it answers. */
module OmcClient {
  import opened Strings
  import opened Paths

  // ----- requests and their command lines -----

  datatype Request =
    | GetResource(kind: string, namespace: string, name: string, output: string)
    | ListResources(kind: string, namespace: string, labelSelector: string, output: string)
    | GetPodLogs(namespace: string, name: string, container: string, previous: bool, rotated: bool)
    | GetOvnKInfo(infoType: string)

  datatype Job = Job(path: string, request: Request)

  /** The part of `strings.ToLower` that can yield an ASCII letter. */
  function Lower(c: char): char {
    if 'A' <= c <= 'Z' then (c as int + 32) as char
    else if c == '\U{212A}' then 'k'
    else if c == '\U{0130}' then 'i'
    else c
  }

  predicate NameEdge(c: char) {
    'a' <= c <= 'z' || IsDigit(c)
  }

  predicate NameChar(c: char) {
    NameEdge(c) || c == '.' || c == '_' || c == '-'
  }

  /** `validateKubernetesName`: true when no error is returned. */
  predicate ValidName(name: string, allowEmpty: bool) {
    if name == "" then allowEmpty
    else
      && name[0] != '-'
      && NameEdge(Lower(name[0])) && NameEdge(Lower(name[|name| - 1]))
      && forall c :: c in name ==> NameChar(Lower(c))
  }

  predicate MetaCharacter(c: char) {
    c == ';' || c == '&' || c == '|' || c == '$' || c == '`' || c == '<' || c == '>' || c == '\\'
  }

  /** The checks made before the lock is taken. */
  predicate ValidRequest(r: Request) {
    match r
    case GetResource(kind, namespace, name, _) =>
      ValidName(kind, false) && ValidName(name, false) && ValidName(namespace, true)
    case ListResources(kind, namespace, selector, _) =>
      ValidName(kind, false) && ValidName(namespace, true) && forall c :: c in selector ==> !MetaCharacter(c)
    case GetPodLogs(namespace, name, container, _, _) =>
      ValidName(name, false) && ValidName(namespace, true) && ValidName(container, true)
    case GetOvnKInfo(infoType) =>
      infoType == "extrainfo" || infoType == "hostnetinfo" || infoType == "subnets"
  }

  /** `appendOutputTypeArgs`. */
  function OutputArgs(output: string): seq<string> {
    if output == "json" || output == "yaml" || output == "wide" || "jsonpath=" <= output
    then ["-o", output] else []
  }

  /** The arguments of the command that answers a request. */
  function Args(r: Request): seq<string> {
    match r
    case GetResource(kind, namespace, name, output) =>
      ["get", kind, name, "-n", if namespace == "" then "default" else namespace] + OutputArgs(output)
    case ListResources(kind, namespace, selector, output) =>
      ["get", kind] + (if selector != "" then ["-l", selector] else [])
      + OutputArgs(output) + (if namespace != "" then ["-n", namespace] else ["-A"])
    case GetPodLogs(namespace, name, container, previous, rotated) =>
      ["logs", name] + (if container != "" then ["-c", container] else [])
      + (if namespace != "" then ["-n", namespace] else [])
      + (if previous then ["-p"] else []) + (if rotated then ["-r"] else [])
    case GetOvnKInfo(infoType) => ["ovnk", infoType]
  }

  // ----- what happens to a request -----

  /** What the file system and omc make of one request: whether the path passes its check,
      whether `use` succeeds and what it leaves selected when it does not, and whether the
      query command succeeds. Cancellation is a failure of the command it hits. */
  datatype Fate = Fate(pathOk: bool, useOk: bool, left: Option<string>, queryOk: bool)

  predicate Possible(job: Job, f: Fate) {
    f.pathOk ==> ValidPath(job.path, false)
  }

  datatype Response = Failed | Answer(text: string)

  /** The answers of omc, by selection and arguments. */
  type Omc = (Option<string>, seq<string>) -> string

  datatype Event =
    | Acquired
    | Used(path: string, ok: bool)
    | Queried(selection: Option<string>, args: seq<string>, ok: bool)
    | Released

  const NO_JSON: string := "{\n  \"apiVersion\": \"v1\",\n  \"kind\": \"List\",\n  \"items\": []\n}"
  const NO_YAML: string := "apiVersion: v1\nkind: List\nitems: []"

  function LowerAll(s: string): string {
    seq(|s|, i requires 0 <= i < |s| => Lower(s[i]))
  }

  /** From the output of a successful query to the response. */
  function Interpret(r: Request, output: string): Response {
    if (r.GetResource? || r.ListResources?) && Contains(LowerAll(output), "no resources") then
      if r.GetResource? then Failed
      else if r.output == "json" then Answer(NO_JSON)
      else if r.output == "yaml" then Answer(NO_YAML)
      else Answer("")
    else Answer(output)
  }

  /** A request served alone: a function of its own path and request, and of its fate. What was
      selected before plays no part. */
  function Result(omc: Omc, job: Job, f: Fate): Response {
    if !f.pathOk || !f.useOk || !f.queryOk then Failed
    else Interpret(job.request, omc(Some(job.path), Args(job.request)))
  }

  /** What a request served alone does while it holds the lock, up to letting go of it. */
  function Work(job: Job, f: Fate): seq<Event> {
    [Acquired]
    + (if f.pathOk then [Used(job.path, f.useOk)] else [])
    + (if f.pathOk && f.useOk then [Queried(Some(job.path), Args(job.request), f.queryOk)] else [])
  }

  function Served(job: Job, f: Fate): seq<Event> {
    Work(job, f) + [Released]
  }

  function SelectionAfter(job: Job, f: Fate, selection: Option<string>): Option<string> {
    if !f.pathOk then selection else if f.useOk then Some(job.path) else f.left
  }

  // ----- what the answers and the record are, spelled out -----

  /** `c` is the small letter, or other character, `d` in either case. */
  predicate SameLetter(c: char, d: char) {
    c == d || ('A' <= c <= 'Z' && c as int + 32 == d as int)
  }

  /** The words "no resources" stand somewhere in the output, in any mixture of cases. */
  ghost predicate SaysNoResources(output: string) {
    exists i :: SaysItAt(output, i)
  }

  predicate SaysItAt(output: string, i: int) {
    0 <= i && i + 12 <= |output| && forall k :: 0 <= k < 12 ==> SameLetter(output[i + k], "no resources"[k])
  }

  lemma LowerIsSameLetter(c: char, k: nat)
    requires k < 12
    ensures Lower(c) == "no resources"[k] <==> SameLetter(c, "no resources"[k])
  {
    var d := "no resources"[k];
    assert d == 'n' || d == 'o' || d == ' ' || d == 'r' || d == 'e' || d == 's' || d == 'u' || d == 'c';
  }

  lemma SaysItAtExact(output: string, i: int)
    ensures SaysItAt(output, i) <==> OccursAt(LowerAll(output), "no resources", i)
  {
    if 0 <= i && i + 12 <= |output| {
      var w := LowerAll(output)[i..i + 12];
      assert forall k :: 0 <= k < 12 ==> w[k] == Lower(output[i + k]);
      forall k | 0 <= k < 12 ensures w[k] == "no resources"[k] <==> SameLetter(output[i + k], "no resources"[k]) {
        LowerIsSameLetter(output[i + k], k);
      }
    }
  }

  lemma SaysNoResourcesExact(output: string)
    ensures SaysNoResources(output) <==> Contains(LowerAll(output), "no resources")
  {
    forall i ensures SaysItAt(output, i) <==> OccursAt(LowerAll(output), "no resources", i) {
      SaysItAtExact(output, i);
    }
  }

  /** The response a request must get: omc's own text for its path and arguments when everything
      went well, with the two exceptions for "no resources", and an error otherwise. */
  ghost predicate RightAnswer(omc: Omc, job: Job, f: Fate, r: Response) {
    var text := omc(Some(job.path), Args(job.request));
    if !(f.pathOk && f.useOk && f.queryOk) then r == Failed
    else match job.request
      case GetPodLogs(_, _, _, _, _) => r == Answer(text)
      case GetOvnKInfo(_) => r == Answer(text)
      case GetResource(_, _, _, _) => if SaysNoResources(text) then r == Failed else r == Answer(text)
      case ListResources(_, _, _, output) =>
        if SaysNoResources(text) then r == Answer(EmptyList(output)) else r == Answer(text)
  }

  /** How a list without items reads in each output type. */
  function EmptyList(output: string): string {
    if output == "json" then "{\n  \"apiVersion\": \"v1\",\n  \"kind\": \"List\",\n  \"items\": []\n}"
    else if output == "yaml" then "apiVersion: v1\nkind: List\nitems: []"
    else ""
  }

  lemma ResultIsRight(omc: Omc, job: Job, f: Fate)
    ensures RightAnswer(omc, job, f, Result(omc, job, f))
  {
    SaysNoResourcesExact(omc(Some(job.path), Args(job.request)));
  }

  /** A request served alone runs `use` for its own path and then its own query, each at most once
      and only as far as everything before went well, between lock and unlock. */
  lemma ServedIs(job: Job, f: Fate, selection: Option<string>)
    ensures !f.pathOk ==> Served(job, f) == [Acquired, Released] && SelectionAfter(job, f, selection) == selection
    ensures f.pathOk && !f.useOk ==>
              Served(job, f) == [Acquired, Used(job.path, false), Released]
              && SelectionAfter(job, f, selection) == f.left
    ensures f.pathOk && f.useOk ==>
              Served(job, f) ==
                [Acquired, Used(job.path, true), Queried(Some(job.path), Args(job.request), f.queryOk), Released]
              && SelectionAfter(job, f, selection) == Some(job.path)
  {
  }

  // ----- the validated names -----

  /** `^[a-z0-9]([a-z0-9._-]*[a-z0-9])?$`, read as a single character or two with more between. */
  ghost predicate MatchesNamePattern(s: string) {
    || (|s| == 1 && ('a' <= s[0] <= 'z' || '0' <= s[0] <= '9'))
    || exists a, mid, b :: s == [a] + mid + [b]
         && ('a' <= a <= 'z' || '0' <= a <= '9') && ('a' <= b <= 'z' || '0' <= b <= '9')
         && forall c :: c in mid ==> 'a' <= c <= 'z' || '0' <= c <= '9' || c == '.' || c == '_' || c == '-'
  }

  /** A non-empty name is valid exactly when its lower-case form matches the pattern and it does
      not start with a dash. */
  lemma ValidNameExact(name: string, allowEmpty: bool)
    ensures ValidName(name, allowEmpty) <==>
            if name == "" then allowEmpty else name[0] != '-' && MatchesNamePattern(LowerAll(name))
  {
    if name != "" {
      if ValidName(name, allowEmpty) && |name| > 1 {
        NameParts(name);
      }
      if MatchesNamePattern(LowerAll(name)) {
        PatternParts(name);
      }
    }
  }

  lemma NameParts(name: string)
    requires |name| > 1 && ValidName(name, false)
    ensures var s := LowerAll(name); var n := |s| - 1;
            && s == [s[0]] + s[1..n] + [s[n]] && NameEdge(s[0]) && NameEdge(s[n])
            && forall c :: c in s[1..n] ==> NameChar(c)
  {
    var s, n := LowerAll(name), |name| - 1;
    forall c | c in s[1..n] ensures NameChar(c) {
      var i :| 0 <= i < n - 1 && s[1..n][i] == c;
      assert name[i + 1] in name && Lower(name[i + 1]) == c;
    }
  }

  lemma PatternParts(name: string)
    requires name != "" && MatchesNamePattern(LowerAll(name))
    ensures NameEdge(Lower(name[0])) && NameEdge(Lower(name[|name| - 1]))
    ensures forall c :: c in name ==> NameChar(Lower(c))
  {
    var s := LowerAll(name);
    assert s[0] == Lower(name[0]) && s[|s| - 1] == Lower(name[|name| - 1]);
    forall c | c in name ensures NameChar(Lower(c)) {
      var i :| 0 <= i < |name| && name[i] == c;
      assert s[i] == Lower(c) && s[i] in s;
    }
  }

  /** Not empty unless it may be, no dash in front, and matching the pattern in lower case. */
  ghost predicate NamePasses(name: string, allowEmpty: bool) {
    if name == "" then allowEmpty else name[0] != '-' && MatchesNamePattern(LowerAll(name))
  }

  /** Which requests are accepted: those whose names pass, whose selector has no shell
      metacharacter and whose info type is one of three. */
  lemma AcceptedExactly(r: Request)
    ensures ValidRequest(r) <==>
            match r
            case GetResource(kind, namespace, name, _) =>
              NamePasses(kind, false) && NamePasses(name, false) && NamePasses(namespace, true)
            case ListResources(kind, namespace, selector, _) =>
              NamePasses(kind, false) && NamePasses(namespace, true) && forall c :: c in selector ==> c !in ";&|$`<>\\"
            case GetPodLogs(namespace, name, container, _, _) =>
              NamePasses(name, false) && NamePasses(namespace, true) && NamePasses(container, true)
            case GetOvnKInfo(infoType) => infoType in {"extrainfo", "hostnetinfo", "subnets"}
  {
    forall name, allowEmpty ensures ValidName(name, allowEmpty) <==> NamePasses(name, allowEmpty) {
      ValidNameExact(name, allowEmpty);
    }
    forall c ensures MetaCharacter(c) <==> c in ";&|$`<>\\" {
      MetaCharacterExact(c);
    }
  }

  lemma MetaCharacterExact(c: char)
    ensures MetaCharacter(c) <==> c in ";&|$`<>\\"
  {
    var s := ";&|$`<>\\";
    assert s[0] == ';' && s[1] == '&' && s[2] == '|' && s[3] == '$';
    assert s[4] == '`' && s[5] == '<' && s[6] == '>' && s[7] == '\\';
  }

  /** The client, with omc's selection and a record of what has been done. Calls are made while
      the lock is free: `Lock` waits until it is. */
  class Client {
    var locked: bool
    var selection: Option<string>
    var log: seq<Event>

    constructor (selection: Option<string>)
      ensures !locked && log == [] && this.selection == selection
    {
      this.locked := false;
      this.selection := selection;
      this.log := [];
    }

    method Lock()
      requires !locked
      modifies this`locked, this`log
      ensures locked && log == old(log) + [Acquired]
    {
      locked := true;
      log := log + [Acquired];
    }

    method Unlock()
      requires locked
      modifies this`locked, this`log
      ensures !locked && log == old(log) + [Released]
    {
      locked := false;
      log := log + [Released];
    }

    /** `useMustGather`, to be called with the lock held. */
    method UseMustGather(path: string, f: Fate) returns (ok: bool)
      requires locked && (f.pathOk ==> ValidPath(path, false))
      modifies this`selection, this`log
      ensures ok == (f.pathOk && f.useOk)
      ensures log == old(log) + if f.pathOk then [Used(path, f.useOk)] else []
      ensures selection == if !f.pathOk then old(selection) else if f.useOk then Some(path) else f.left
    {
      if !f.pathOk {
        return false;
      }
      log := log + [Used(path, f.useOk)];
      selection := if f.useOk then Some(path) else f.left;
      return f.useOk;
    }

    /** Runs a query command against whatever is selected. */
    method Query(args: seq<string>, f: Fate, omc: Omc) returns (ok: bool, output: string)
      requires locked
      modifies this`log
      ensures ok == f.queryOk && output == omc(selection, args)
      ensures log == old(log) + [Queried(selection, args, f.queryOk)]
    {
      log := log + [Queried(selection, args, f.queryOk)];
      return f.queryOk, omc(selection, args);
    }

    /** What every method below promises about an accepted request: it leaves the lock free, and
        the response, the selection and the record are those of the request served alone. */
    twostate predicate ServedAlone(job: Job, f: Fate, omc: Omc, r: Response)
      reads this
    {
      && !locked
      && r == Result(omc, job, f)
      && log == old(log) + Served(job, f)
      && selection == SelectionAfter(job, f, old(selection))
    }

    method GetResource(path: string, kind: string, namespace: string, name: string, output: string, f: Fate, omc: Omc)
      returns (r: Response)
      requires !locked && (f.pathOk ==> ValidPath(path, false))
      modifies this
      ensures var request := Request.GetResource(kind, namespace, name, output);
              if ValidRequest(request) then ServedAlone(Job(path, request), f, omc, r)
              else r == Failed && unchanged(this)
      ensures var request := Request.GetResource(kind, namespace, name, output);
              ValidRequest(request) ==>
                if !(f.pathOk && f.useOk && f.queryOk) then r == Failed
                else var text := omc(Some(path), Args(request));
                     r == if SaysNoResources(text) then Failed else Answer(text)
    {
      if !ValidName(kind, false) || !ValidName(name, false) || !ValidName(namespace, true) {
        return Failed;
      }
      ghost var request := Request.GetResource(kind, namespace, name, output);
      Lock();
      var used := UseMustGather(path, f);
      if !used {
        Unlock();
        return Failed;
      }
      var args := [];
      args := args + ["get", kind, name];
      args := args + ["-n", if namespace == "" then "default" else namespace];
      args := args + OutputArgs(output);
      assert args == Args(request);
      var ok, text := Query(args, f, omc);
      if !ok {
        Unlock();
        return Failed;
      }
      SaysNoResourcesExact(text);
      if Contains(LowerAll(text), "no resources") {
        r := Failed;
      } else {
        r := Answer(text);
      }
      Unlock();
    }

    method ListResources(path: string, kind: string, namespace: string, labelSelector: string, output: string,
                         f: Fate, omc: Omc)
      returns (r: Response)
      requires !locked && (f.pathOk ==> ValidPath(path, false))
      modifies this
      ensures var request := Request.ListResources(kind, namespace, labelSelector, output);
              if ValidRequest(request) then ServedAlone(Job(path, request), f, omc, r)
              else r == Failed && unchanged(this)
      ensures var request := Request.ListResources(kind, namespace, labelSelector, output);
              ValidRequest(request) ==>
                if !(f.pathOk && f.useOk && f.queryOk) then r == Failed
                else var text := omc(Some(path), Args(request));
                     r == if SaysNoResources(text) then Answer(EmptyList(output)) else Answer(text)
    {
      ghost var request := Request.ListResources(kind, namespace, labelSelector, output);
      if !ValidName(kind, false) || !ValidName(namespace, true) || exists c :: c in labelSelector && MetaCharacter(c) {
        return Failed;
      }
      Lock();
      var used := UseMustGather(path, f);
      if !used {
        Unlock();
        return Failed;
      }
      var args := ["get", kind];
      if labelSelector != "" {
        args := args + ["-l", labelSelector];
      }
      args := args + OutputArgs(output);
      if namespace != "" {
        args := args + ["-n", namespace];
      } else {
        args := args + ["-A"];
      }
      assert args == Args(request);
      var ok, text := Query(args, f, omc);
      if !ok {
        Unlock();
        return Failed;
      }
      SaysNoResourcesExact(text);
      if Contains(LowerAll(text), "no resources") {
        r := if output == "json" then Answer(NO_JSON) else if output == "yaml" then Answer(NO_YAML) else Answer("");
      } else {
        r := Answer(text);
      }
      Unlock();
    }

    /** The argument list of a log request, grown step by step. */
    static method PodLogsArgs(namespace: string, name: string, container: string, previous: bool, rotated: bool)
      returns (args: seq<string>)
      ensures args == Args(Request.GetPodLogs(namespace, name, container, previous, rotated))
    {
      args := ["logs", name];
      if container != "" {
        args := args + ["-c", container];
      }
      if namespace != "" {
        args := args + ["-n", namespace];
      }
      if previous {
        args := args + ["-p"];
      }
      if rotated {
        args := args + ["-r"];
      }
    }

    method GetPodLogs(path: string, namespace: string, name: string, container: string, previous: bool, rotated: bool,
                      f: Fate, omc: Omc)
      returns (r: Response)
      requires !locked && (f.pathOk ==> ValidPath(path, false))
      modifies this
      ensures var request := Request.GetPodLogs(namespace, name, container, previous, rotated);
              if ValidRequest(request) then ServedAlone(Job(path, request), f, omc, r)
              else r == Failed && unchanged(this)
      ensures var request := Request.GetPodLogs(namespace, name, container, previous, rotated);
              ValidRequest(request) ==>
                r == if f.pathOk && f.useOk && f.queryOk then Answer(omc(Some(path), Args(request))) else Failed
    {
      ghost var request := Request.GetPodLogs(namespace, name, container, previous, rotated);
      if !ValidName(name, false) || !ValidName(namespace, true) || !ValidName(container, true) {
        return Failed;
      }
      Lock();
      var used := UseMustGather(path, f);
      if !used {
        Unlock();
        return Failed;
      }
      var args := PodLogsArgs(namespace, name, container, previous, rotated);
      var ok, text := Query(args, f, omc);
      Unlock();
      return if ok then Answer(text) else Failed;
    }

    method GetOvnKInfo(path: string, infoType: string, f: Fate, omc: Omc) returns (r: Response)
      requires !locked && (f.pathOk ==> ValidPath(path, false))
      modifies this
      ensures var request := Request.GetOvnKInfo(infoType);
              if ValidRequest(request) then ServedAlone(Job(path, request), f, omc, r)
              else r == Failed && unchanged(this)
      ensures var request := Request.GetOvnKInfo(infoType);
              ValidRequest(request) ==>
                r == if f.pathOk && f.useOk && f.queryOk then Answer(omc(Some(path), Args(request))) else Failed
    {
      if infoType != "extrainfo" && infoType != "hostnetinfo" && infoType != "subnets" {
        return Failed;
      }
      var args := ["ovnk", infoType];
      Lock();
      var used := UseMustGather(path, f);
      if !used {
        Unlock();
        return Failed;
      }
      var ok, text := Query(args, f, omc);
      Unlock();
      return if ok then Answer(text) else Failed;
    }
  }
}
