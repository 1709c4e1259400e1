/** One debug-node call: create a pod, wait until it runs, run a command in it, delete it. */
module DebugPod {
  import opened Strings
  import opened Paths

  datatype Pod = Pod(namespace: string, name: string)

  datatype Call = Call(node: string, namespace: string, hostPath: string, mountPath: string)

  /** The checks made before anything is created. */
  predicate ValidCall(c: Call) {
    c.node != "" && ValidPath(c.hostPath, true) && ValidPath(c.mountPath, true)
  }

  /** The namespace a call works in. */
  function NamespaceOf(c: Call): string {
    if c.namespace == "" then "default" else c.namespace
  }

  datatype Output = Output(stdout: string, stderr: string)

  datatype Context = Caller | Background

  /** What a call does to the cluster, as the API server sees it. */
  datatype Event =
    | Created(pod: Pod)
    | SawRunning(pod: Pod)
    | Exec(pod: Pod)
    | Deleted(pod: Pod, context: Context, ok: bool)
    | Returned

  /** How a call can go, all of it decided by the time it returns. */
  datatype Life =
    | Rejected                                                      // did not pass the checks
    | NotCreated                                                    // Create returned an error
    | NeverRan(pod: Pod, deleteOk: bool)                            // polling failed or timed out
    | NotRunning(pod: Pod, deleteOk: bool)                          // stopped running before exec
    | Ran(pod: Pod, output: Option<Output>, deleteOk: bool)         // the command was run

  predicate HasPod(l: Life) {
    !l.Rejected? && !l.NotCreated?
  }

  function LifeOutput(l: Life): Option<Output> {
    if l.Ran? then l.output else None
  }

  /** Everything a call does up to its clean-up. */
  function Before(l: Life): seq<Event> {
    match l
    case Rejected => []
    case NotCreated => []
    case NeverRan(p, _) => [Created(p)]
    case NotRunning(p, _) => [Created(p), SawRunning(p)]
    case Ran(p, _, _) => [Created(p), SawRunning(p), SawRunning(p), Exec(p)]
  }

  /** Everything a call does. */
  function Trace(l: Life): seq<Event> {
    Before(l) + (if HasPod(l) then [Deleted(l.pod, Background, l.deleteOk)] else []) + [Returned]
  }

  // ----- the call itself -----

  datatype Phase = Pending | Running | Succeeded | Failed | Unknown

  /** One answer to a Get: an error, or the pod's phase. */
  datatype GetResult = GetError | Is(phase: Phase)

  /** What the cluster makes of the call. A list of polls that ends without the pod running
      stands for the deadline passing. */
  datatype Fate = Fate(
    created: Option<string>, polls: seq<GetResult>, guard: GetResult, output: Option<Output>, deleteOk: bool)

  /** Does polling see the pod running before it sees an error or runs out? */
  predicate ReachesRunning(polls: seq<GetResult>) {
    polls != [] && !polls[0].GetError? && (polls[0].phase.Running? || ReachesRunning(polls[1..]))
  }

  function LifeOf(c: Call, f: Fate): Life {
    if !ValidCall(c) then Rejected
    else if f.created.None? then NotCreated
    else
      var pod := Pod(NamespaceOf(c), f.created.value);
      if !ReachesRunning(f.polls) then NeverRan(pod, f.deleteOk)
      else if f.guard != Is(Running) then NotRunning(pod, f.deleteOk)
      else Ran(pod, f.output, f.deleteOk)
  }

  /** What is on record of a call that got as far as creating a pod. */
  lemma TraceCases(c: Call, f: Fate)
    requires ValidCall(c) && f.created.Some?
    ensures var pod := Pod(NamespaceOf(c), f.created.value);
            Trace(LifeOf(c, f)) ==
              if !ReachesRunning(f.polls) then [Created(pod), Deleted(pod, Background, f.deleteOk), Returned]
              else if f.guard != Is(Running) then
                [Created(pod), SawRunning(pod), Deleted(pod, Background, f.deleteOk), Returned]
              else
                [Created(pod), SawRunning(pod), SawRunning(pod), Exec(pod),
                 Deleted(pod, Background, f.deleteOk), Returned]
  {
  }

  class Cluster {
    var live: set<Pod>
    var log: seq<Event>

    constructor ()
      ensures live == {} && log == []
    {
      live := {};
      log := [];
    }

    /** The clean-up closure of `createPod`: it deletes under a context of its own. */
    method CleanupPod(pod: Pod, ok: bool)
      modifies this
      ensures log == old(log) + [Deleted(pod, Background, ok)]
      ensures live == if ok then old(live) - {pod} else old(live)
    {
      log := log + [Deleted(pod, Background, ok)];
      if ok {
        live := live - {pod};
      }
    }

    /** `createPod`: a pod that was seen running, or none; then whatever was created has already
        been cleaned up. */
    method CreatePod(namespace: string, f: Fate) returns (r: Option<Pod>)
      modifies this
      ensures r.Some? <==> f.created.Some? && ReachesRunning(f.polls)
      ensures r.Some? ==> var pod := Pod(namespace, f.created.value);
                          && r.value == pod && live == old(live) + {pod}
                          && log == old(log) + [Created(pod), SawRunning(pod)]
      ensures r.None? && f.created.Some? ==> var pod := Pod(namespace, f.created.value);
                          && log == old(log) + [Created(pod), Deleted(pod, Background, f.deleteOk)]
                          && live == if f.deleteOk then old(live) - {pod} else old(live) + {pod}
      ensures f.created.None? ==> unchanged(this)
    {
      if f.created.None? {
        return None;
      }
      var pod := Pod(namespace, f.created.value);
      live := live + {pod};
      log := log + [Created(pod)];
      var running := false;
      var i := 0;
      assert f.polls[0..] == f.polls;
      while i < |f.polls| && !running
        invariant 0 <= i <= |f.polls|
        invariant live == old(live) + {pod} && log == old(log) + [Created(pod)]
        invariant running ==> ReachesRunning(f.polls)
        invariant !running ==> ReachesRunning(f.polls) == ReachesRunning(f.polls[i..])
        decreases |f.polls| - i
      {
        assert f.polls[i..][1..] == f.polls[i + 1..];
        if f.polls[i].GetError? {
          break;
        }
        running := f.polls[i].phase.Running?;
        i := i + 1;
      }
      if !running {
        CleanupPod(pod, f.deleteOk);
        return None;
      }
      log := log + [SawRunning(pod)];
      return Some(pod);
    }

    /** `ExecPod`: nothing is run in a pod that is not running. */
    method ExecPod(pod: Pod, f: Fate) returns (r: Option<Output>)
      modifies this`log
      ensures log == old(log) + if f.guard == Is(Running) then [SawRunning(pod), Exec(pod)] else []
      ensures r == if f.guard == Is(Running) then f.output else None
    {
      if f.guard.GetError? {
        return None;
      }
      if f.guard.phase != Running {
        return None;
      }
      log := log + [SawRunning(pod)];
      log := log + [Exec(pod)];
      return f.output;
    }

    /** `DebugNode`. What it does, returns and leaves behind follows from its life alone; a pod
        stays behind exactly when deleting it failed. The caller gets what the command printed
        exactly when the pod was created, polled until it ran and was still running. */
    method DebugNode(c: Call, f: Fate) returns (r: Option<Output>)
      requires f.created.Some? ==> Pod(NamespaceOf(c), f.created.value) !in live
      modifies this
      ensures r == LifeOutput(LifeOf(c, f))
      ensures log == old(log) + Trace(LifeOf(c, f))
      ensures var l := LifeOf(c, f); live == old(live) + (if HasPod(l) && !l.deleteOk then {l.pod} else {})
      ensures c.node != "" && ValidPath(c.hostPath, true) && ValidPath(c.mountPath, true) && f.created.Some? ==>
        var pod := Pod(if c.namespace == "" then "default" else c.namespace, f.created.value);
        && live == old(live) + (if f.deleteOk then {} else {pod})
        && if !ReachesRunning(f.polls) then
             r == None && log == old(log) + [Created(pod), Deleted(pod, Background, f.deleteOk), Returned]
           else if f.guard != Is(Running) then
             && r == None
             && log == old(log) + [Created(pod), SawRunning(pod), Deleted(pod, Background, f.deleteOk), Returned]
           else
             && r == f.output
             && log == old(log) + [Created(pod), SawRunning(pod), SawRunning(pod), Exec(pod),
                                   Deleted(pod, Background, f.deleteOk), Returned]
      ensures c.node == "" || !ValidPath(c.hostPath, true) || !ValidPath(c.mountPath, true) || f.created.None? ==>
        r == None && live == old(live) && log == old(log) + [Returned]
    {
      r := None;
      if ValidCall(c) {
        ghost var l := LifeOf(c, f);
        if f.created.Some? { TraceCases(c, f); }
        var pod := CreatePod(NamespaceOf(c), f);
        if pod.Some? {
          r := ExecPod(pod.value, f);
          CleanupPod(pod.value, f.deleteOk);
        }
      }
      log := log + [Returned];
    }
  }

  /** Polling succeeds exactly when some poll sees the pod running and none before it failed. */
  lemma {:induction false} ReachesRunningExact(polls: seq<GetResult>)
    ensures ReachesRunning(polls) <==>
            exists i :: 0 <= i < |polls| && polls[i] == Is(Running) && forall j :: 0 <= j < i ==> polls[j].Is?
  {
    if polls != [] {
      var rest := polls[1..];
      ReachesRunningExact(rest);
      if ReachesRunning(polls) && !polls[0].phase.Running? {
        var i :| 0 <= i < |rest| && rest[i] == Is(Running) && forall j :: 0 <= j < i ==> rest[j].Is?;
        assert polls[i + 1] == Is(Running);
        forall j | 0 <= j < i + 1 ensures polls[j].Is? {
          assert j > 0 ==> polls[j] == rest[j - 1];
        }
      }
      forall i | 0 <= i < |polls| && polls[i] == Is(Running) && forall j :: 0 <= j < i ==> polls[j].Is?
        ensures ReachesRunning(polls)
      {
        if i > 0 {
          assert polls[0].Is?;
          assert rest[i - 1] == Is(Running);
          forall j | 0 <= j < i - 1 ensures rest[j].Is? {
            assert rest[j] == polls[j + 1];
          }
        }
      }
    }
  }
}
