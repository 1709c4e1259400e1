/** Any number of concurrent debug-node calls on one cluster.

    Pods change phase and disappear by themselves, every API request may fail, contexts expire
    at any time, and a Create may take effect although it reports an error. Generated pod names
    are never given out twice. */
module DebugPodProtocol {
  import opened Strings
  import opened DebugPod

  datatype Pc =
    | Start
    | Creating                                             // checks passed
    | Polling(pod: Pod)                                    // created, not seen running yet
    | Guarding(pod: Pod)                                   // seen running, about to check again
    | Executing(pod: Pod)                                  // checked again, about to exec
    | Cleaning(life: Life)                                 // about to delete, the rest decided
    | Leaving(life: Life)                                  // about to return
    | Done(life: Life)

  datatype State = State(
    pods: map<Pod, Phase>,          // what exists in the cluster
    used: set<Pod>,                 // every pod ever created here
    unowned: set<Pod>,              // there before, or created by a Create that reported an error
    vanished: set<Pod>,             // removed by somebody else
    expired: set<nat>,              // calls whose context has expired
    pcs: map<nat, Pc>,
    log: seq<(nat, Event)>)

  datatype Act =
    | Validate
    | CreateOk(pod: Pod)
    | CreateFails
    | CreateLost(pod: Pod)
    | PollOk                        // Get answers with the phase the pod has
    | PollFails                     // Get fails, the minute is over, or the context expired
    | GuardOk
    | GuardFails
    | RunExec(output: Option<Output>)
    | Delete(ok: bool)
    | Return
    | Expire
    // steps of the environment, whichever call they are booked under
    | SetPhase(pod: Pod, phase: Phase)
    | Vanish(pod: Pod)

  type Calls = map<nat, Call>

  function Initial(calls: Calls, pods: map<Pod, Phase>): State {
    State(pods, pods.Keys, pods.Keys, {}, {}, map t | t in calls :: Start, [])
  }

  /** The program point at which a call takes a step. */
  predicate At(pc: Pc, a: Act) {
    match a
    case Validate => pc.Start?
    case CreateOk(_) => pc.Creating?
    case CreateFails => pc.Creating?
    case CreateLost(_) => pc.Creating?
    case PollOk => pc.Polling?
    case PollFails => pc.Polling?
    case GuardOk => pc.Guarding?
    case GuardFails => pc.Guarding?
    case RunExec(_) => pc.Executing?
    case Delete(_) => pc.Cleaning? && HasPod(pc.life)
    case Return => pc.Leaving?
    case _ => true
  }

  /** With an expired context no request made under it succeeds; the clean-up has its own. */
  predicate Enabled(calls: Calls, s: State, t: nat, a: Act) {
    && t in calls && t in s.pcs
    && var pc := s.pcs[t];
       && At(pc, a)
       && match a
          case CreateOk(p) => t !in s.expired && p !in s.used && p.namespace == NamespaceOf(calls[t])
          case CreateLost(p) => p !in s.used && p.namespace == NamespaceOf(calls[t])
          case PollOk => t !in s.expired && pc.pod in s.pods
          case GuardOk => t !in s.expired && pc.pod in s.pods
          case RunExec(output) => output.Some? ==> t !in s.expired
          case Delete(ok) => ok ==> pc.life.pod in s.pods
          case Expire => t !in s.expired
          case SetPhase(p, _) => p in s.pods
          case Vanish(p) => p in s.pods
          case _ => true
  }

  function WithDelete(l: Life, ok: bool): Life {
    match l
    case NeverRan(p, _) => NeverRan(p, ok)
    case NotRunning(p, _) => NotRunning(p, ok)
    case Ran(p, out, _) => Ran(p, out, ok)
    case _ => l
  }

  /** Where a step takes a call, and the event the API server sees, if any. `running` is what a
      Get would say about the call's pod. */
  function Next(valid: bool, pc: Pc, running: bool, a: Act): (Pc, Option<Event>)
    requires At(pc, a)
  {
    match a
    case Validate => (if valid then Creating else Leaving(Rejected), None)
    case CreateOk(p) => (Polling(p), Some(Created(p)))
    case CreateFails => (Leaving(NotCreated), None)
    case CreateLost(_) => (Leaving(NotCreated), None)
    case PollOk => if running then (Guarding(pc.pod), Some(SawRunning(pc.pod))) else (pc, None)
    case PollFails => (Cleaning(NeverRan(pc.pod, false)), None)
    case GuardOk =>
      if running then (Executing(pc.pod), Some(SawRunning(pc.pod))) else (Cleaning(NotRunning(pc.pod, false)), None)
    case GuardFails => (Cleaning(NotRunning(pc.pod, false)), None)
    case RunExec(output) => (Cleaning(Ran(pc.pod, output, false)), Some(Exec(pc.pod)))
    case Delete(ok) => (Leaving(WithDelete(pc.life, ok)), Some(Deleted(pc.life.pod, Background, ok)))
    case Return => (Done(pc.life), Some(Returned))
    case _ => (pc, None)
  }

  predicate SeenRunning(s: State, pc: Pc) {
    PcHasPod(pc) && PodOf(pc) in s.pods && s.pods[PodOf(pc)].Running?
  }

  function NextOf(calls: Calls, s: State, t: nat, a: Act): (Pc, Option<Event>)
    requires Enabled(calls, s, t, a)
  {
    Next(ValidCall(calls[t]), s.pcs[t], SeenRunning(s, s.pcs[t]), a)
  }

  /** What exists in the cluster after a step. */
  function PodsAfter(s: State, pc: Pc, a: Act): map<Pod, Phase>
    requires At(pc, a)
  {
    match a
    case CreateOk(p) => s.pods[p := Pending]
    case CreateLost(p) => s.pods[p := Pending]
    case Delete(ok) => if ok then s.pods - {pc.life.pod} else s.pods
    case SetPhase(p, phase) => s.pods[p := phase]
    case Vanish(p) => s.pods - {p}
    case _ => s.pods
  }

  function Apply(calls: Calls, s: State, t: nat, a: Act): State
    requires Enabled(calls, s, t, a)
  {
    var (pc, e) := NextOf(calls, s, t, a);
    State(PodsAfter(s, s.pcs[t], a),
          if a.CreateOk? || a.CreateLost? then s.used + {a.pod} else s.used,
          if a.CreateLost? then s.unowned + {a.pod} else s.unowned,
          if a.Vanish? then s.vanished + {a.pod} else s.vanished,
          if a.Expire? then s.expired + {t} else s.expired,
          s.pcs[t := pc],
          if e.Some? then s.log + [(t, e.value)] else s.log)
  }

  /** The state after a schedule, if every step of it was possible. */
  function Run(calls: Calls, pods: map<Pod, Phase>, schedule: seq<(nat, Act)>): Option<State> {
    if schedule == [] then Some(Initial(calls, pods))
    else
      var n := |schedule| - 1;
      var before := Run(calls, pods, schedule[..n]);
      var (t, a) := schedule[n];
      if before.Some? && Enabled(calls, before.value, t, a) then Some(Apply(calls, before.value, t, a)) else None
  }

  // ----- what each event may rely on -----

  /** An event is in order after what has happened before it. */
  ghost predicate Fine(past: seq<(nat, Event)>, e: (nat, Event)) {
    match e.1
    case Created(p) =>
      // the first thing ever done with this pod, and the call's only pod
      && (forall x :: x in past ==> x.1 == Returned || x.1.pod != p)
      && (forall q :: (e.0, Created(q)) !in past)
    case SawRunning(p) => (e.0, Created(p)) in past
    case Exec(p) =>
      // the call's own pod, seen running twice, not deleted by anyone
      && Project(past, e.0) == [Created(p), SawRunning(p), SawRunning(p)]
      && (forall u: nat, c, ok :: (u, Deleted(p, c, ok)) !in past)
    case Deleted(p, c, _) =>
      // the call's own pod, once, under a context of its own, before the call returns
      && (e.0, Created(p)) in past && c == Background && (e.0, Returned) !in past
      && (forall u: nat, d, ok :: (u, Deleted(p, d, ok)) !in past)
    case Returned =>
      // nothing of the call's is left undeleted
      && (e.0, Returned) !in past
      && (forall p :: (e.0, Created(p)) in past ==> exists ok :: (e.0, Deleted(p, Background, ok)) in past)
  }

  ghost predicate Orderly(log: seq<(nat, Event)>) {
    forall i :: 0 <= i < |log| ==> Fine(log[..i], log[i])
  }

  lemma OrderlyMore(log: seq<(nat, Event)>, e: (nat, Event))
    requires Orderly(log) && Fine(log, e)
    ensures Orderly(log + [e])
  {
    forall i | 0 <= i < |log| + 1 ensures Fine((log + [e])[..i], (log + [e])[i]) {
      assert (log + [e])[..i] == log[..i];
      if i == |log| { assert log[..i] == log; }
    }
  }

  // ----- the invariant -----

  function PcHasPod(pc: Pc): bool {
    match pc
    case Polling(_) => true
    case Guarding(_) => true
    case Executing(_) => true
    case Cleaning(l) => HasPod(l)
    case Leaving(l) => HasPod(l)
    case Done(l) => HasPod(l)
    case _ => false
  }

  function PodOf(pc: Pc): Pod
    requires PcHasPod(pc)
  {
    match pc
    case Polling(p) => p
    case Guarding(p) => p
    case Executing(p) => p
    case Cleaning(l) => l.pod
    case Leaving(l) => l.pod
    case Done(l) => l.pod
  }

  /** What a call at a program point has done. */
  function Doing(pc: Pc): seq<Event> {
    match pc
    case Start => []
    case Creating => []
    case Polling(p) => [Created(p)]
    case Guarding(p) => [Created(p), SawRunning(p)]
    case Executing(p) => [Created(p), SawRunning(p), SawRunning(p)]
    case Cleaning(l) => Before(l)
    case Leaving(l) => Before(l) + (if HasPod(l) then [Deleted(l.pod, Background, l.deleteOk)] else [])
    case Done(l) => Trace(l)
  }

  /** What one call has done, in the order it did it. */
  function Project(log: seq<(nat, Event)>, t: nat): seq<Event> {
    if log == [] then []
    else
      var n := |log| - 1;
      Project(log[..n], t) + (if log[n].0 == t then [log[n].1] else [])
  }

  lemma ProjectMore(log: seq<(nat, Event)>, e: (nat, Event), t: nat)
    ensures Project(log + [e], t) == Project(log, t) + (if e.0 == t then [e.1] else [])
  {
    assert (log + [e])[..|log|] == log;
  }

  lemma {:induction false} InProject(log: seq<(nat, Event)>, t: nat, e: Event)
    ensures e in Project(log, t) <==> (t, e) in log
  {
    if log != [] {
      var n := |log| - 1;
      InProject(log[..n], t, e);
      assert log == log[..n] + [log[n]];
      assert log[n] == (t, e) <==> log[n].0 == t && log[n].1 == e;
    }
  }

  ghost predicate CallsOk(calls: Calls, s: State) {
    && s.pcs.Keys == calls.Keys
    && (forall t :: t in calls ==> Project(s.log, t) == Doing(s.pcs[t]))
    && (forall e :: e in s.log ==> e.0 in calls)
    && (forall t :: t in calls ==> Fits(calls[t], s.pcs[t]))
  }

  /** A call is turned away exactly when it does not pass the checks, and only calls with a pod
      clean up. */
  predicate Fits(c: Call, pc: Pc) {
    && (pc.Cleaning? ==> HasPod(pc.life))
    && match pc
       case Start => true
       case Leaving(l) => l.Rejected? <==> !ValidCall(c)
       case Done(l) => l.Rejected? <==> !ValidCall(c)
       case _ => ValidCall(c)
  }

  /** Calls have pods of their own, in their own namespace. */
  ghost predicate PodsApart(calls: Calls, s: State)
    requires s.pcs.Keys == calls.Keys
  {
    && (forall t :: t in calls && PcHasPod(s.pcs[t]) ==>
         var p := PodOf(s.pcs[t]); p in s.used && p !in s.unowned && p.namespace == NamespaceOf(calls[t]))
    && (forall t, u :: t in calls && u in calls && t != u && PcHasPod(s.pcs[t]) && PcHasPod(s.pcs[u]) ==>
         PodOf(s.pcs[t]) != PodOf(s.pcs[u]))
  }

  predicate DeletedBy(pc: Pc, p: Pod) {
    (pc.Leaving? || pc.Done?) && HasPod(pc.life) && pc.life.pod == p && pc.life.deleteOk
  }

  /** A call has this pod. */
  ghost predicate Owned(calls: Calls, s: State, p: Pod)
    requires s.pcs.Keys == calls.Keys
  {
    exists t :: t in calls && PcHasPod(s.pcs[t]) && PodOf(s.pcs[t]) == p
  }

  ghost predicate DeletedByCall(calls: Calls, s: State, p: Pod)
    requires s.pcs.Keys == calls.Keys
  {
    exists t :: t in calls && DeletedBy(s.pcs[t], p)
  }

  /** A pod exists exactly when it was created, nobody else removed it and no call deleted it. */
  ghost predicate Present(calls: Calls, s: State, p: Pod)
    requires s.pcs.Keys == calls.Keys
  {
    p in s.pods <==> p in s.used && p !in s.vanished && !DeletedByCall(calls, s, p)
  }

  /** Every pod ever created is accounted for: it exists unless somebody removed it or the call
      that created it has deleted it; and it belongs to the one call whose Create returned it, or to none. */
  ghost predicate Accounted(calls: Calls, s: State)
    requires s.pcs.Keys == calls.Keys
  {
    && (forall p :: Present(calls, s, p))
    && (forall p :: p in s.used ==> p in s.unowned || Owned(calls, s, p))
    && s.unowned <= s.used && s.vanished <= s.used
  }

  ghost predicate Inv(calls: Calls, s: State) {
    CallsOk(calls, s) && PodsApart(calls, s) && Accounted(calls, s) && Orderly(s.log)
  }

  // ----- one call's own steps -----

  /** A step of a call adds its event to what the call has done. */
  lemma NextRecords(valid: bool, pc: Pc, running: bool, a: Act)
    requires At(pc, a)
    ensures var (pc1, e) := Next(valid, pc, running, a);
            Doing(pc1) == Doing(pc) + (if e.Some? then [e.value] else [])
  {
    var pc1 := Next(valid, pc, running, a).0;
    match a
    case PollOk =>
    case GuardOk =>
    case RunExec(_) =>
    case Delete(ok) => assert Before(pc1.life) == Before(pc.life);
    case Return =>
    case _ =>
  }

  lemma NextFits(c: Call, pc: Pc, running: bool, a: Act)
    requires At(pc, a) && Fits(c, pc)
    ensures Fits(c, Next(ValidCall(c), pc, running, a).0)
  {
  }

  /** A call gets its pod from its Create and keeps it. */
  lemma NextPod(valid: bool, pc: Pc, running: bool, a: Act)
    requires At(pc, a)
    ensures var pc1 := Next(valid, pc, running, a).0;
            && (PcHasPod(pc) ==> PcHasPod(pc1) && PodOf(pc1) == PodOf(pc))
            && (!PcHasPod(pc) && PcHasPod(pc1) ==> a.CreateOk? && PodOf(pc1) == a.pod)
            && (a.CreateOk? ==> PcHasPod(pc1))
            && (forall p :: DeletedBy(pc1, p) <==> DeletedBy(pc, p) || (a == Delete(true) && p == PodOf(pc)))
  {
  }

  /** Everything a call does to a pod, it does to its own. */
  lemma DoingPod(pc: Pc, e: Event)
    requires e in Doing(pc) && e != Returned
    ensures PcHasPod(pc) && PodOf(pc) == e.pod
  {
    match pc
    case Done(l) => BeforePod(l, e);
    case Leaving(l) => BeforePod(l, e);
    case Cleaning(l) => BeforePod(l, e);
    case _ =>
  }

  lemma BeforePod(l: Life, e: Event)
    ensures e in Before(l) ==> HasPod(l) && e != Returned && e.pod == l.pod && !e.Deleted?
  {
  }

  /** Which events of interest a call at a program point has behind it. */
  lemma DoingMembers(pc: Pc)
    requires pc.Cleaning? ==> HasPod(pc.life)
    ensures PcHasPod(pc) ==> Created(PodOf(pc)) in Doing(pc)
    ensures pc.Guarding? || pc.Executing? ==> SawRunning(PodOf(pc)) in Doing(pc)
    ensures !pc.Leaving? && !pc.Done? ==> forall p, c, ok :: Deleted(p, c, ok) !in Doing(pc)
    ensures pc.Leaving? && HasPod(pc.life) ==> Deleted(pc.life.pod, Background, pc.life.deleteOk) in Doing(pc)
    ensures !pc.Done? ==> Returned !in Doing(pc)
  {
    if pc.Cleaning? || pc.Leaving? || pc.Done? {
      BeforeMembers(pc.life);
    }
    if pc.Leaving? && HasPod(pc.life) {
      assert Doing(pc)[|Before(pc.life)|] == Deleted(pc.life.pod, Background, pc.life.deleteOk);
    }
    if pc.Done? && HasPod(pc.life) {
      assert Doing(pc)[0] == Before(pc.life)[0];
    }
  }

  lemma BeforeMembers(l: Life)
    ensures HasPod(l) ==> Before(l) != [] && Before(l)[0] == Created(l.pod)
    ensures Returned !in Before(l) && forall p, c, ok :: Deleted(p, c, ok) !in Before(l)
  {
  }

  // ----- the record -----

  /** What is in the record, read off the program counters. */
  lemma Recorded(calls: Calls, s: State, t: nat, e: Event)
    requires CallsOk(calls, s)
    ensures (t, e) in s.log <==> t in calls && e in Doing(s.pcs[t])
  {
    InProject(s.log, t, e);
    assert (t, e) in s.log ==> (t, e).0 in calls;
  }

  /** Whatever is recorded about a pod was done by the call that has it. */
  lemma RecordedPod(calls: Calls, s: State, t: nat, e: Event)
    requires CallsOk(calls, s) && (t, e) in s.log && e != Returned
    ensures t in calls && PcHasPod(s.pcs[t]) && PodOf(s.pcs[t]) == e.pod
  {
    Recorded(calls, s, t, e);
    DoingPod(s.pcs[t], e);
  }

  lemma FreshPod(calls: Calls, s: State, t: nat, p: Pod)
    requires CallsOk(calls, s) && PodsApart(calls, s) && t in calls && s.pcs[t].Creating? && p !in s.used
    ensures Fine(s.log, (t, Created(p)))
  {
    forall x | x in s.log && x.1 != Returned ensures x.1.pod != p {
      RecordedPod(calls, s, x.0, x.1);
    }
    forall q ensures (t, Created(q)) !in s.log {
      Recorded(calls, s, t, Created(q));
    }
  }

  /** Nobody has deleted the pod of a call that has not got there. */
  lemma NotDeleted(calls: Calls, s: State, t: nat)
    requires CallsOk(calls, s) && PodsApart(calls, s)
    requires t in calls && PcHasPod(s.pcs[t]) && !s.pcs[t].Leaving? && !s.pcs[t].Done?
    ensures forall u: nat, c, ok :: (u, Deleted(PodOf(s.pcs[t]), c, ok)) !in s.log
  {
    forall u: nat, c, ok ensures (u, Deleted(PodOf(s.pcs[t]), c, ok)) !in s.log {
      var e := Deleted(PodOf(s.pcs[t]), c, ok);
      Recorded(calls, s, u, e);
      if (u, e) in s.log {
        RecordedPod(calls, s, u, e);
        DoingMembers(s.pcs[t]);
        assert false;
      }
    }
  }

  lemma FineOnOwnPod(calls: Calls, s: State, t: nat, a: Act)
    requires CallsOk(calls, s) && PodsApart(calls, s) && Enabled(calls, s, t, a)
    requires a.PollOk? || a.GuardOk? || a.RunExec? || a.Delete?
    ensures var e := NextOf(calls, s, t, a).1; e.Some? ==> Fine(s.log, (t, e.value))
  {
    var pc := s.pcs[t];
    DoingMembers(pc);
    Recorded(calls, s, t, Created(PodOf(pc)));
    Recorded(calls, s, t, SawRunning(PodOf(pc)));
    Recorded(calls, s, t, Returned);
    NotDeleted(calls, s, t);
  }

  lemma FineReturn(calls: Calls, s: State, t: nat)
    requires CallsOk(calls, s) && t in calls && s.pcs[t].Leaving?
    ensures Fine(s.log, (t, Returned))
  {
    var pc := s.pcs[t];
    DoingMembers(pc);
    Recorded(calls, s, t, Returned);
    forall p | (t, Created(p)) in s.log ensures exists ok :: (t, Deleted(p, Background, ok)) in s.log {
      RecordedPod(calls, s, t, Created(p));
      Recorded(calls, s, t, Deleted(p, Background, pc.life.deleteOk));
    }
  }

  /** A step adds only what is in order. */
  lemma StepIsFine(calls: Calls, s: State, t: nat, a: Act)
    requires CallsOk(calls, s) && PodsApart(calls, s) && Enabled(calls, s, t, a)
    ensures var e := NextOf(calls, s, t, a).1; e.Some? ==> Fine(s.log, (t, e.value))
  {
    if a.CreateOk? {
      FreshPod(calls, s, t, a.pod);
    } else if a.Return? {
      FineReturn(calls, s, t);
    } else if a.PollOk? || a.GuardOk? || a.RunExec? || a.Delete? {
      FineOnOwnPod(calls, s, t, a);
    }
  }

  lemma StepKeepsCalls(calls: Calls, s: State, t: nat, a: Act)
    requires CallsOk(calls, s) && Enabled(calls, s, t, a)
    ensures CallsOk(calls, Apply(calls, s, t, a))
  {
    var s1 := Apply(calls, s, t, a);
    var (pc, e) := NextOf(calls, s, t, a);
    NextRecords(ValidCall(calls[t]), s.pcs[t], SeenRunning(s, s.pcs[t]), a);
    NextFits(calls[t], s.pcs[t], SeenRunning(s, s.pcs[t]), a);
    assert s1.pcs.Keys == calls.Keys;
    forall u | u in calls ensures Project(s1.log, u) == Doing(s1.pcs[u]) {
      if e.Some? {
        ProjectMore(s.log, (t, e.value), u);
      }
      assert Doing(s.pcs[u]) + [] == Doing(s.pcs[u]);
    }
  }

  lemma StepKeepsPods(calls: Calls, s: State, t: nat, a: Act)
    requires s.pcs.Keys == calls.Keys && PodsApart(calls, s) && Accounted(calls, s) && Enabled(calls, s, t, a)
    ensures Apply(calls, s, t, a).pcs.Keys == calls.Keys && PodsApart(calls, Apply(calls, s, t, a))
  {
    var s1 := Apply(calls, s, t, a);
    NextPod(ValidCall(calls[t]), s.pcs[t], SeenRunning(s, s.pcs[t]), a);
    assert s1.pcs.Keys == calls.Keys;
    forall u | u in calls && PcHasPod(s1.pcs[u])
      ensures var p := PodOf(s1.pcs[u]); p in s1.used && p !in s1.unowned && p.namespace == NamespaceOf(calls[u])
    {
      assert u != t || PcHasPod(s.pcs[t]) || (a.CreateOk? && PodOf(s1.pcs[t]) == a.pod);
    }
    forall u, v | u in calls && v in calls && u != v && PcHasPod(s1.pcs[u]) && PcHasPod(s1.pcs[v])
      ensures PodOf(s1.pcs[u]) != PodOf(s1.pcs[v])
    {
      assert u != t ==> s1.pcs[u] == s.pcs[u];
      assert v != t ==> s1.pcs[v] == s.pcs[v];
    }
  }

  /** The pods of the calls stay accounted for. */
  lemma StepKeepsAccount(calls: Calls, s: State, t: nat, a: Act)
    requires s.pcs.Keys == calls.Keys && PodsApart(calls, s) && Accounted(calls, s) && Enabled(calls, s, t, a)
    ensures Apply(calls, s, t, a).pcs.Keys == calls.Keys && Accounted(calls, Apply(calls, s, t, a))
  {
    var s1 := Apply(calls, s, t, a);
    NextPod(ValidCall(calls[t]), s.pcs[t], SeenRunning(s, s.pcs[t]), a);
    assert s1.pcs.Keys == calls.Keys;
    forall p | p in s1.used ensures p in s1.unowned || Owned(calls, s1, p) {
      if p in s.used && p !in s.unowned {
        var u :| u in calls && PcHasPod(s.pcs[u]) && PodOf(s.pcs[u]) == p;
        assert PcHasPod(s1.pcs[u]) && PodOf(s1.pcs[u]) == p;
      } else if p !in s1.unowned {
        assert PcHasPod(s1.pcs[t]) && PodOf(s1.pcs[t]) == p;
      }
    }
    if a.Vanish? {
      assert Present(calls, s, a.pod);
    }
    forall p ensures Present(calls, s1, p) {
      PresentAfter(calls, s, t, a, p);
    }
  }

  lemma DeletedAfter(calls: Calls, s: State, t: nat, a: Act, p: Pod)
    requires s.pcs.Keys == calls.Keys && Enabled(calls, s, t, a)
    ensures Apply(calls, s, t, a).pcs.Keys == calls.Keys
    ensures DeletedByCall(calls, Apply(calls, s, t, a), p)
            <==> DeletedByCall(calls, s, p) || (a == Delete(true) && p == PodOf(s.pcs[t]))
  {
    var s1 := Apply(calls, s, t, a);
    NextPod(ValidCall(calls[t]), s.pcs[t], SeenRunning(s, s.pcs[t]), a);
    assert s1.pcs.Keys == calls.Keys;
    forall u | u in calls
      ensures DeletedBy(s1.pcs[u], p) <==>
              DeletedBy(s.pcs[u], p) || (u == t && a == Delete(true) && p == PodOf(s.pcs[t]))
    {
    }
  }

  lemma DeletedIsUsed(calls: Calls, s: State, p: Pod)
    requires s.pcs.Keys == calls.Keys && PodsApart(calls, s)
    ensures DeletedByCall(calls, s, p) ==> p in s.used
  {
  }

  lemma PresentAfter(calls: Calls, s: State, t: nat, a: Act, p: Pod)
    requires s.pcs.Keys == calls.Keys && PodsApart(calls, s) && Accounted(calls, s) && Enabled(calls, s, t, a)
    ensures Apply(calls, s, t, a).pcs.Keys == calls.Keys && Present(calls, Apply(calls, s, t, a), p)
  {
    DeletedAfter(calls, s, t, a, p);
    DeletedIsUsed(calls, s, p);
    assert Present(calls, s, p);
    assert s.vanished <= s.used;
  }

  /** Every run keeps the invariant. */
  lemma {:induction false} RunsAreOrderly(calls: Calls, pods: map<Pod, Phase>, schedule: seq<(nat, Act)>)
    requires Run(calls, pods, schedule).Some?
    ensures Inv(calls, Run(calls, pods, schedule).value)
    decreases |schedule|
  {
    if schedule == [] {
      assert Initial(calls, pods).pcs.Keys == calls.Keys;
    } else {
      var n := |schedule| - 1;
      RunsAreOrderly(calls, pods, schedule[..n]);
      var s := Run(calls, pods, schedule[..n]).value;
      var (t, a) := schedule[n];
      StepKeepsInv(calls, s, t, a);
    }
  }

  lemma StepKeepsInv(calls: Calls, s: State, t: nat, a: Act)
    requires Inv(calls, s) && Enabled(calls, s, t, a)
    ensures Inv(calls, Apply(calls, s, t, a))
  {
    StepKeepsCalls(calls, s, t, a);
    StepKeepsPods(calls, s, t, a);
    StepKeepsAccount(calls, s, t, a);
    StepIsFine(calls, s, t, a);
    var e := NextOf(calls, s, t, a).1;
    if e.Some? {
      OrderlyMore(s.log, (t, e.value));
    }
  }

  // ----- consequences -----

  predicate AllDone(s: State) {
    forall t :: t in s.pcs ==> s.pcs[t].Done?
  }

  /** The calls that returned, each on its own, did what a call alone in the cluster does: there
      is a fate under which `DebugNode` would have left the same record and the same result. */
  lemma CallsActAlone(calls: Calls, pods: map<Pod, Phase>, schedule: seq<(nat, Act)>, t: nat) returns (f: Fate)
    requires Run(calls, pods, schedule).Some?
    requires t in calls && t in Run(calls, pods, schedule).value.pcs && Run(calls, pods, schedule).value.pcs[t].Done?
    ensures var s := Run(calls, pods, schedule).value;
            LifeOf(calls[t], f) == s.pcs[t].life && Project(s.log, t) == Trace(LifeOf(calls[t], f))
  {
    RunsAreOrderly(calls, pods, schedule);
    var s := Run(calls, pods, schedule).value;
    var l := s.pcs[t].life;
    assert Fits(calls[t], s.pcs[t]);
    if HasPod(l) {
      assert l.pod == PodOf(s.pcs[t]) && l.pod.namespace == NamespaceOf(calls[t]);
    }
    var ran := [Is(Running)];
    assert ReachesRunning(ran) && !ReachesRunning([]);
    f := match l
      case Rejected => Fate(None, [], GetError, None, false)
      case NotCreated => Fate(None, [], GetError, None, false)
      case NeverRan(p, ok) => Fate(Some(p.name), [], GetError, None, ok)
      case NotRunning(p, ok) => Fate(Some(p.name), ran, GetError, None, ok)
      case Ran(p, out, ok) => Fate(Some(p.name), ran, Is(Running), out, ok);
  }

  predicate Decided(pc: Pc) {
    pc.Cleaning? || pc.Leaving? || pc.Done?
  }

  lemma OutputsStep(valid: bool, pc: Pc, running: bool, a: Act, o: Output)
    requires At(pc, a)
    ensures var pc1 := Next(valid, pc, running, a).0;
            Decided(pc1) && LifeOutput(pc1.life) == Some(o)
            <==> (Decided(pc) && LifeOutput(pc.life) == Some(o)) || a == RunExec(Some(o))
  {
  }

  /** In every run the result of a call is what its command printed: it is an output exactly when
      executing the command in the call's pod succeeded with that output. */
  lemma {:induction false} ResultsAreOutputs(
    calls: Calls, pods: map<Pod, Phase>, schedule: seq<(nat, Act)>, t: nat, o: Output)
    requires Run(calls, pods, schedule).Some?
    requires t in calls
    ensures var s := Run(calls, pods, schedule).value;
            && t in s.pcs
            && (Decided(s.pcs[t]) && LifeOutput(s.pcs[t].life) == Some(o) <==> (t, RunExec(Some(o))) in schedule)
    decreases |schedule|
  {
    if schedule != [] {
      var n := |schedule| - 1;
      ResultsAreOutputs(calls, pods, schedule[..n], t, o);
      var s := Run(calls, pods, schedule[..n]).value;
      var (u, a) := schedule[n];
      assert schedule == schedule[..n] + [schedule[n]];
      OutputsStep(ValidCall(calls[u]), s.pcs[u], SeenRunning(s, s.pcs[u]), a, o);
    }
  }

  /** Every event of the record was added by a step of its call, taken right after the events
      before it. */
  lemma {:induction false} EventTaken(calls: Calls, pods: map<Pod, Phase>, schedule: seq<(nat, Act)>, i: nat)
    returns (n: nat)
    requires Run(calls, pods, schedule).Some? && i < |Run(calls, pods, schedule).value.log|
    ensures n < |schedule| && Run(calls, pods, schedule[..n]).Some?
    ensures var log, s := Run(calls, pods, schedule).value.log, Run(calls, pods, schedule[..n]).value;
            var (t, a) := schedule[n];
            s.log == log[..i] && Enabled(calls, s, t, a) && (t, NextOf(calls, s, t, a).1) == (log[i].0, Some(log[i].1))
    decreases |schedule|
  {
    var m := |schedule| - 1;
    var s, s1 := Run(calls, pods, schedule[..m]).value, Run(calls, pods, schedule).value;
    assert s1 == Apply(calls, s, schedule[m].0, schedule[m].1);
    if i < |s.log| {
      n := EventTaken(calls, pods, schedule[..m], i);
      assert schedule[..m][..n] == schedule[..n] && s.log[..i] == s1.log[..i];
    } else {
      n := m;
      assert s1.log[..i] == s.log;
    }
  }

  ghost predicate DeletesPod(e: (nat, Event), p: Pod) {
    e.1.Deleted? && e.1.pod == p
  }

  lemma NoneDeletes(past: seq<(nat, Event)>, p: Pod)
    requires forall u: nat, c, ok :: (u, Deleted(p, c, ok)) !in past
    ensures forall j :: 0 <= j < |past| ==> !DeletesPod(past[j], p)
  {
    forall j | 0 <= j < |past| ensures !DeletesPod(past[j], p) {
      var e := past[j];
      assert e in past;
      if e.1.Deleted? {
        assert e == (e.0, Deleted(e.1.pod, e.1.context, e.1.ok));
      }
    }
  }

  lemma DeletedFirst(log: seq<(nat, Event)>, k: nat, p: Pod)
    requires Orderly(log) && k < |log| && DeletesPod(log[k], p)
    ensures forall j :: 0 <= j < k ==> !DeletesPod(log[j], p)
    ensures (log[k].0, Created(p)) in log[..k] && (log[k].0, Returned) !in log[..k] && log[k].1.context == Background
  {
    assert Fine(log[..k], log[k]);
    NoneDeletes(log[..k], p);
    assert forall j :: 0 <= j < k ==> log[..k][j] == log[j];
  }

  /** No two deletions of one pod. */
  lemma DeletedOnce(log: seq<(nat, Event)>, j: nat, k: nat, p: Pod)
    requires Orderly(log) && j < |log| && k < |log| && DeletesPod(log[j], p) && DeletesPod(log[k], p)
    ensures j == k
  {
    DeletedFirst(log, j, p);
    DeletedFirst(log, k, p);
  }

  /** A call that created a pod and returned has deleted it. */
  lemma DeletedBeforeReturn(calls: Calls, s: State, t: nat, p: Pod) returns (ok: bool)
    requires CallsOk(calls, s) && (t, Created(p)) in s.log && (t, Returned) in s.log
    ensures (t, Deleted(p, Background, ok)) in s.log
  {
    RecordedPod(calls, s, t, Created(p));
    Recorded(calls, s, t, Returned);
    DoingMembers(s.pcs[t]);
    var l := s.pcs[t].life;
    ok := l.deleteOk;
    assert Trace(l)[|Before(l)|] == Deleted(p, Background, ok);
    Recorded(calls, s, t, Deleted(p, Background, ok));
  }

  /** Event `k` of the record is a Delete that could succeed if only the pod was there, whatever
      had become of the caller's context. */
  ghost predicate CouldDelete(calls: Calls, pods: map<Pod, Phase>, schedule: seq<(nat, Act)>,
                              log: seq<(nat, Event)>, k: nat)
  {
    && k < |log| && log[k].1.Deleted?
    && exists n :: 0 <= n < |schedule| && schedule[n] == (log[k].0, Delete(log[k].1.ok))
         && var s := Run(calls, pods, schedule[..n]);
            s.Some? && s.value.log == log[..k]
            && (log[k].1.pod in s.value.pods ==> Enabled(calls, s.value, log[k].0, Delete(true)))
  }

  lemma DeletesCould(calls: Calls, pods: map<Pod, Phase>, schedule: seq<(nat, Act)>, k: nat)
    requires Run(calls, pods, schedule).Some?
    requires k < |Run(calls, pods, schedule).value.log| && Run(calls, pods, schedule).value.log[k].1.Deleted?
    ensures CouldDelete(calls, pods, schedule, Run(calls, pods, schedule).value.log, k)
  {
    var n := EventTaken(calls, pods, schedule, k);
    var s := Run(calls, pods, schedule[..n]).value;
    DeleteNow(calls, s, schedule[n].0, schedule[n].1);
  }

  lemma DeleteNow(calls: Calls, s: State, t: nat, a: Act)
    requires Enabled(calls, s, t, a) && NextOf(calls, s, t, a).1.Some? && NextOf(calls, s, t, a).1.value.Deleted?
    ensures var e := NextOf(calls, s, t, a).1.value;
            a == Delete(e.ok) && (e.pod in s.pods ==> Enabled(calls, s, t, Delete(true)))
  {
  }

  /** In every run, once a call has returned, the pod it created has been deleted exactly once:
      by that call, after its creation and before its return, and not under the caller's
      context: even when that had expired the Delete could succeed. */
  lemma DeletedExactlyOnce(calls: Calls, pods: map<Pod, Phase>, schedule: seq<(nat, Act)>, t: nat, p: Pod)
    returns (k: nat)
    requires Run(calls, pods, schedule).Some?
    requires (t, Created(p)) in Run(calls, pods, schedule).value.log
    requires (t, Returned) in Run(calls, pods, schedule).value.log
    ensures var log := Run(calls, pods, schedule).value.log;
            && k < |log| && DeletesPod(log[k], p) && log[k].0 == t && log[k].1.context == Background
            && (forall j: nat :: j < |log| && DeletesPod(log[j], p) ==> j == k)
            && (t, Created(p)) in log[..k] && (t, Returned) !in log[..k]
            && CouldDelete(calls, pods, schedule, log, k)
  {
    RunsAreOrderly(calls, pods, schedule);
    var s := Run(calls, pods, schedule).value;
    var ok := DeletedBeforeReturn(calls, s, t, p);
    k :| 0 <= k < |s.log| && s.log[k] == (t, Deleted(p, Background, ok));
    DeletedFirst(s.log, k, p);
    DeletesCould(calls, pods, schedule, k);
    forall j: nat | j < |s.log| && DeletesPod(s.log[j], p) ensures j == k {
      DeletedOnce(s.log, j, k, p);
    }
  }

  lemma ExecFirst(log: seq<(nat, Event)>, i: nat, p: Pod)
    requires Orderly(log) && i < |log| && log[i].1 == Exec(p)
    ensures Project(log[..i], log[i].0) == [Created(p), SawRunning(p), SawRunning(p)]
    ensures forall j :: 0 <= j < i ==> !DeletesPod(log[j], p)
  {
    assert Fine(log[..i], log[i]);
    NoneDeletes(log[..i], p);
    assert forall j :: 0 <= j < i ==> log[..i][j] == log[j];
  }

  /** Where in the record the `k`-th event of a call is. */
  lemma {:induction false} ProjectPosition(log: seq<(nat, Event)>, t: nat, k: nat) returns (i: nat)
    requires k < |Project(log, t)|
    ensures i < |log| && log[i] == (t, Project(log, t)[k]) && Project(log[..i], t) == Project(log, t)[..k]
  {
    var n := |log| - 1;
    if k < |Project(log[..n], t)| {
      i := ProjectPosition(log[..n], t, k);
      assert log[..n][..i] == log[..i];
    } else {
      i := n;
      assert log[n] == (log[n].0, log[n].1);
    }
  }

  lemma {:induction false} ProjectGrows(log: seq<(nat, Event)>, t: nat, i: nat)
    requires i <= |log|
    ensures |Project(log[..i], t)| <= |Project(log, t)|
  {
    if i < |log| {
      var n := |log| - 1;
      ProjectGrows(log[..n], t, i);
      assert log[..n][..i] == log[..i];
    } else {
      assert log[..i] == log;
    }
  }

  lemma ProjectMonotone(log: seq<(nat, Event)>, t: nat, i: nat, j: nat)
    requires i <= j <= |log|
    ensures |Project(log[..i], t)| <= |Project(log[..j], t)|
  {
    ProjectGrows(log[..j], t, i);
    assert log[..j][..i] == log[..i];
  }

  /** Before a command is executed, the call's two sightings of its pod, in order. */
  lemma TwoSightings(past: seq<(nat, Event)>, t: nat, p: Pod) returns (j: nat, k: nat)
    requires Project(past, t) == [Created(p), SawRunning(p), SawRunning(p)]
    ensures j < k < |past| && past[j] == (t, SawRunning(p)) && past[k] == (t, SawRunning(p))
    ensures Project(past[..j], t) == [Created(p)] && Project(past[..k], t) == [Created(p), SawRunning(p)]
  {
    j := ProjectPosition(past, t, 1);
    k := ProjectPosition(past, t, 2);
    if k <= j {
      ProjectMonotone(past, t, k, j);
    }
  }

  /** Event `i` of the record was added by step `a` of its call, a Get that was answered while the
      pod existed and its phase was Running. */
  ghost predicate Sighted(calls: Calls, pods: map<Pod, Phase>, schedule: seq<(nat, Act)>,
                          log: seq<(nat, Event)>, i: nat, a: Act)
  {
    && i < |log| && log[i].1.SawRunning?
    && exists n :: 0 <= n < |schedule| && schedule[n] == (log[i].0, a)
         && var s := Run(calls, pods, schedule[..n]);
            s.Some? && s.value.log == log[..i] && log[i].1.pod in s.value.pods && s.value.pods[log[i].1.pod].Running?
  }

  lemma SightedNow(calls: Calls, s: State, t: nat, a: Act)
    requires Enabled(calls, s, t, a) && NextOf(calls, s, t, a).1.Some? && NextOf(calls, s, t, a).1.value.SawRunning?
    ensures var p := NextOf(calls, s, t, a).1.value.pod; p in s.pods && s.pods[p].Running?
    ensures a == PollOk || a == GuardOk
  {
  }

  /** In every run a recorded sighting is one: when it was made the pod existed and was running.
      A call's first sighting is the poll's and its second is the guard's. */
  lemma SightingsAreReal(calls: Calls, pods: map<Pod, Phase>, schedule: seq<(nat, Act)>, i: nat)
    requires Run(calls, pods, schedule).Some?
    requires i < |Run(calls, pods, schedule).value.log| && Run(calls, pods, schedule).value.log[i].1.SawRunning?
    ensures var log := Run(calls, pods, schedule).value.log; var own := |Project(log[..i], log[i].0)|;
            && (own == 1 || own == 2)
            && Sighted(calls, pods, schedule, log, i, if own == 1 then PollOk else GuardOk)
  {
    var n := EventTaken(calls, pods, schedule, i);
    RunsAreOrderly(calls, pods, schedule[..n]);
    var s := Run(calls, pods, schedule[..n]).value;
    SightedNow(calls, s, schedule[n].0, schedule[n].1);
    SightingPoint(calls, s, schedule[n].0, schedule[n].1);
  }

  lemma SightingPoint(calls: Calls, s: State, t: nat, a: Act)
    requires CallsOk(calls, s) && Enabled(calls, s, t, a)
    ensures a == PollOk ==> |Project(s.log, t)| == 1
    ensures a == GuardOk ==> |Project(s.log, t)| == 2
  {
    assert Project(s.log, t) == Doing(s.pcs[t]);
  }

  /** Every step of a run was possible when it was taken. */
  lemma {:induction false} StepTaken(calls: Calls, pods: map<Pod, Phase>, schedule: seq<(nat, Act)>, n: nat)
    requires Run(calls, pods, schedule).Some? && n < |schedule|
    ensures Run(calls, pods, schedule[..n]).Some?
    ensures Enabled(calls, Run(calls, pods, schedule[..n]).value, schedule[n].0, schedule[n].1)
    decreases |schedule|
  {
    var m := |schedule| - 1;
    if n < m {
      StepTaken(calls, pods, schedule[..m], n);
      assert schedule[..m][..n] == schedule[..n];
    }
  }

  predicate About(e: (nat, Event), p: Pod) {
    !e.1.Returned? && e.1.pod == p
  }

  lemma OneCallPerPod(calls: Calls, s: State, p: Pod, x: (nat, Event), y: (nat, Event))
    requires CallsOk(calls, s) && PodsApart(calls, s) && x in s.log && y in s.log && About(x, p) && About(y, p)
    ensures x.0 == y.0
  {
    assert x == (x.0, x.1) && y == (y.0, y.1);
    RecordedPod(calls, s, x.0, x.1);
    RecordedPod(calls, s, y.0, y.1);
  }

  /** In every run a command is only executed in the call's own pod, after the pod was created,
      then found running by a poll and then found running again by the guard, each time while
      its phase was Running, and before anybody deletes it; no other call ever touches it. */
  lemma ExecOnlyInOwnRunningPod(calls: Calls, pods: map<Pod, Phase>, schedule: seq<(nat, Act)>, i: nat, p: Pod)
    returns (j: nat, k: nat)
    requires Run(calls, pods, schedule).Some?
    requires i < |Run(calls, pods, schedule).value.log| && Run(calls, pods, schedule).value.log[i].1 == Exec(p)
    ensures var log := Run(calls, pods, schedule).value.log; var t := log[i].0;
            && j < k < i && log[j] == log[k] == (t, SawRunning(p)) && (t, Created(p)) in log[..j]
            && Sighted(calls, pods, schedule, log, j, PollOk) && Sighted(calls, pods, schedule, log, k, GuardOk)
            && (forall m :: 0 <= m < i ==> !DeletesPod(log[m], p))
            && (forall e :: e in log && About(e, p) ==> e.0 == t)
  {
    RunsAreOrderly(calls, pods, schedule);
    var s := Run(calls, pods, schedule).value;
    var t := s.log[i].0;
    ExecFirst(s.log, i, p);
    j, k := TwoSightings(s.log[..i], t, p);
    assert s.log[..i][..j] == s.log[..j] && s.log[..i][..k] == s.log[..k];
    InProject(s.log[..j], t, Created(p));
    SightingsAreReal(calls, pods, schedule, j);
    SightingsAreReal(calls, pods, schedule, k);
    forall e | e in s.log && About(e, p) ensures e.0 == t {
      OneCallPerPod(calls, s, p, s.log[i], e);
    }
  }

  // ----- expired contexts -----

  /** A call whose context has expired can still delete its pod: the clean-up succeeds whenever the
      pod exists, whatever has become of the caller's context. */
  lemma CleanupSurvivesExpiry(calls: Calls, pods: map<Pod, Phase>, schedule: seq<(nat, Act)>, t: nat)
    requires Run(calls, pods, schedule).Some?
    requires t in calls && t in Run(calls, pods, schedule).value.pcs
    requires var s := Run(calls, pods, schedule).value; s.pcs[t].Cleaning? && PodOfCleaning(s.pcs[t]) in s.pods
    ensures var s := Run(calls, pods, schedule).value;
            var s1 := Run(calls, pods, schedule + [(t, Delete(true))]);
            && s1.Some? && s1.value.pods == s.pods - {PodOfCleaning(s.pcs[t])}
            && t in s1.value.pcs && s1.value.pcs[t].Leaving?
  {
    RunsAreOrderly(calls, pods, schedule);
    var s := Run(calls, pods, schedule).value;
    assert Fits(calls[t], s.pcs[t]);
    RunMore(calls, pods, schedule, t, Delete(true));
  }

  function PodOfCleaning(pc: Pc): Pod
    requires pc.Cleaning?
  {
    if HasPod(pc.life) then pc.life.pod else Pod("", "")
  }

  lemma RunMore(calls: Calls, pods: map<Pod, Phase>, schedule: seq<(nat, Act)>, t: nat, a: Act)
    requires Run(calls, pods, schedule).Some? && Enabled(calls, Run(calls, pods, schedule).value, t, a)
    ensures Run(calls, pods, schedule + [(t, a)]) == Some(Apply(calls, Run(calls, pods, schedule).value, t, a))
  {
    assert (schedule + [(t, a)])[..|schedule|] == schedule;
  }

  predicate CleansUp(e: Event) {
    e.Exec? || e.Deleted? || e.Returned?
  }

  /** All that call `t` has added to the record since `log0` is on its way out. */
  ghost predicate OnlyCleansUp(log0: seq<(nat, Event)>, log: seq<(nat, Event)>, t: nat) {
    log0 <= log && forall i :: |log0| <= i < |log| && log[i].0 == t ==> CleansUp(log[i].1)
  }

  lemma ExpiredStep(calls: Calls, s: State, u: nat, a: Act, t: nat, log0: seq<(nat, Event)>)
    requires Enabled(calls, s, u, a) && t in s.expired && OnlyCleansUp(log0, s.log, t)
    ensures var s1 := Apply(calls, s, u, a); t in s1.expired && OnlyCleansUp(log0, s1.log, t)
  {
    var e := NextOf(calls, s, u, a).1;
    assert u == t && e.Some? ==> CleansUp(e.value);
  }

  /** Once its context has expired, a call neither creates a pod nor gets to see one running; all
      that is left to it is to exec, to delete and to return. */
  lemma {:induction false} ExpiredCallsOnlyCleanUp(
    calls: Calls, pods: map<Pod, Phase>, schedule: seq<(nat, Act)>, n: nat, t: nat)
    requires Run(calls, pods, schedule).Some? && n <= |schedule| && Run(calls, pods, schedule[..n]).Some?
    requires t in Run(calls, pods, schedule[..n]).value.expired
    ensures var log0, s := Run(calls, pods, schedule[..n]).value.log, Run(calls, pods, schedule).value;
            t in s.expired && OnlyCleansUp(log0, s.log, t)
    decreases |schedule|
  {
    if n == |schedule| {
      assert schedule[..n] == schedule;
    } else {
      var m := |schedule| - 1;
      assert schedule[..m][..n] == schedule[..n];
      ExpiredCallsOnlyCleanUp(calls, pods, schedule[..m], n, t);
      var log0, s := Run(calls, pods, schedule[..n]).value.log, Run(calls, pods, schedule[..m]).value;
      ExpiredStep(calls, s, schedule[m].0, schedule[m].1, t, log0);
    }
  }

  /** And no command it still executes succeeds. */
  lemma ExpiredExecsFail(
    calls: Calls, pods: map<Pod, Phase>, schedule: seq<(nat, Act)>, n: nat, m: nat, t: nat, output: Option<Output>)
    requires Run(calls, pods, schedule).Some? && n <= m < |schedule| && Run(calls, pods, schedule[..n]).Some?
    requires t in Run(calls, pods, schedule[..n]).value.expired
    requires schedule[m] == (t, RunExec(output))
    ensures output == None
  {
    StepTaken(calls, pods, schedule, m);
    assert schedule[..m][..n] == schedule[..n];
    ExpiredCallsOnlyCleanUp(calls, pods, schedule[..m], n, t);
  }

  /** The pods of the calls that returned without having been able to delete them. */
  ghost function Undeleted(calls: Calls, s: State): set<Pod>
    requires s.pcs.Keys == calls.Keys && AllDone(s)
  {
    set t | t in calls && HasPod(s.pcs[t].life) && !s.pcs[t].life.deleteOk :: s.pcs[t].life.pod
  }

  lemma OwnedLeftBehind(calls: Calls, s: State, p: Pod, t: nat)
    requires s.pcs.Keys == calls.Keys && PodsApart(calls, s) && AllDone(s)
    requires t in calls && PcHasPod(s.pcs[t]) && PodOf(s.pcs[t]) == p
    ensures DeletedByCall(calls, s, p) <==> s.pcs[t].life.deleteOk
    ensures p in Undeleted(calls, s) <==> !s.pcs[t].life.deleteOk
  {
    assert forall u :: u in calls && u != t && PcHasPod(s.pcs[u]) ==> PodOf(s.pcs[u]) != p;
    assert DeletedBy(s.pcs[t], p) <==> s.pcs[t].life.deleteOk;
  }

  lemma UnownedLeftBehind(calls: Calls, s: State, p: Pod)
    requires s.pcs.Keys == calls.Keys && AllDone(s) && !Owned(calls, s, p)
    ensures !DeletedByCall(calls, s, p) && p !in Undeleted(calls, s)
  {
  }

  lemma LeftBehind(calls: Calls, s: State, p: Pod)
    requires s.pcs.Keys == calls.Keys && PodsApart(calls, s) && Accounted(calls, s) && AllDone(s)
    ensures p in s.pods <==> p in s.unowned + Undeleted(calls, s) - s.vanished
  {
    assert Present(calls, s, p);
    if Owned(calls, s, p) {
      var t :| t in calls && PcHasPod(s.pcs[t]) && PodOf(s.pcs[t]) == p;
      assert p in s.used && p !in s.unowned;
      OwnedLeftBehind(calls, s, p, t);
    } else {
      UnownedLeftBehind(calls, s, p);
    }
  }

  /** When all calls have returned, what is left in the cluster is what was there before, what was
      created by a Create that reported an error, and what could not be deleted; minus whatever
      somebody else removed. */
  lemma NothingElseIsLeft(calls: Calls, pods: map<Pod, Phase>, schedule: seq<(nat, Act)>)
    requires Run(calls, pods, schedule).Some? && AllDone(Run(calls, pods, schedule).value)
    ensures var s := Run(calls, pods, schedule).value;
            && s.pcs.Keys == calls.Keys
            && s.pods.Keys == s.unowned + Undeleted(calls, s) - s.vanished
  {
    RunsAreOrderly(calls, pods, schedule);
    var s := Run(calls, pods, schedule).value;
    forall p ensures p in s.pods <==> p in s.unowned + Undeleted(calls, s) - s.vanished {
      LeftBehind(calls, s, p);
    }
  }

  function Rank(pc: Pc): nat {
    match pc
    case Start => 7
    case Creating => 6
    case Polling(_) => 5
    case Guarding(_) => 4
    case Executing(_) => 3
    case Cleaning(_) => 2
    case Leaving(_) => 1
    case Done(_) => 0
  }

  /** A step either brings a call nearer to its return or leaves it where it is; of its own steps
      only a poll that does not see the pod running does the latter. */
  lemma NextDescends(valid: bool, pc: Pc, running: bool, a: Act)
    requires At(pc, a)
    ensures var pc1 := Next(valid, pc, running, a).0;
            if pc1 == pc then a.PollOk? || a.Expire? || a.SetPhase? || a.Vanish? else Rank(pc1) < Rank(pc)
  {
  }

  /** How many of its own steps have moved a call on. */
  function Moves(calls: Calls, pods: map<Pod, Phase>, schedule: seq<(nat, Act)>, t: nat): nat
    requires Run(calls, pods, schedule).Some?
  {
    if schedule == [] then 0
    else
      var n := |schedule| - 1;
      var s := Run(calls, pods, schedule[..n]).value;
      var (u, a) := schedule[n];
      Moves(calls, pods, schedule[..n], t) + (if u == t && NextOf(calls, s, u, a).0 != s.pcs[u] then 1 else 0)
  }

  /** In every run a call moves on at most seven times, and after seven moves it has returned:
      apart from polls that do not see the pod running it takes no more steps than that. */
  lemma {:induction false} MovesAreBounded(calls: Calls, pods: map<Pod, Phase>, schedule: seq<(nat, Act)>, t: nat)
    requires Run(calls, pods, schedule).Some? && t in calls
    ensures var s := Run(calls, pods, schedule).value;
            && t in s.pcs && Moves(calls, pods, schedule, t) + Rank(s.pcs[t]) <= 7
            && (Moves(calls, pods, schedule, t) == 7 ==> s.pcs[t].Done?)
    decreases |schedule|
  {
    if schedule != [] {
      var n := |schedule| - 1;
      MovesAreBounded(calls, pods, schedule[..n], t);
      var s := Run(calls, pods, schedule[..n]).value;
      var (u, a) := schedule[n];
      NextDescends(ValidCall(calls[u]), s.pcs[u], SeenRunning(s, s.pcs[u]), a);
    }
  }

  /** The step toward its return that a call can take even when every request fails. */
  function WayOut(pc: Pc): Act {
    match pc
    case Start => Validate
    case Creating => CreateFails
    case Polling(_) => PollFails
    case Guarding(_) => GuardFails
    case Executing(_) => RunExec(None)
    case Cleaning(_) => Delete(false)
    case _ => Return
  }

  lemma WayOutDescends(c: Call, pc: Pc, running: bool)
    requires Fits(c, pc) && !pc.Done?
    ensures At(pc, WayOut(pc)) && Rank(Next(ValidCall(c), pc, running, WayOut(pc)).0) < Rank(pc)
  {
  }

  lemma OneStepOut(calls: Calls, pods: map<Pod, Phase>, schedule: seq<(nat, Act)>, t: nat) returns (a: Act)
    requires Run(calls, pods, schedule).Some?
    requires t in calls && t in Run(calls, pods, schedule).value.pcs && !Run(calls, pods, schedule).value.pcs[t].Done?
    ensures var s, s1 := Run(calls, pods, schedule).value, Run(calls, pods, schedule + [(t, a)]);
            s1.Some? && t in s1.value.pcs && Rank(s1.value.pcs[t]) < Rank(s.pcs[t])
  {
    RunsAreOrderly(calls, pods, schedule);
    var s := Run(calls, pods, schedule).value;
    assert Fits(calls[t], s.pcs[t]);
    a := WayOut(s.pcs[t]);
    WayOutDescends(calls[t], s.pcs[t], SeenRunning(s, s.pcs[t]));
    RunMore(calls, pods, schedule, t, a);
  }

  /** Whatever has happened to it, its context, its pod or the other calls, a call can return by
      its own steps alone, in at most as many as its program point has left. */
  lemma {:induction false} CanAlwaysReturn(calls: Calls, pods: map<Pod, Phase>, schedule: seq<(nat, Act)>, t: nat)
    returns (rest: seq<(nat, Act)>)
    requires Run(calls, pods, schedule).Some?
    requires t in calls && t in Run(calls, pods, schedule).value.pcs
    ensures |rest| <= Rank(Run(calls, pods, schedule).value.pcs[t]) && forall x :: x in rest ==> x.0 == t
    ensures var s1 := Run(calls, pods, schedule + rest); s1.Some? && t in s1.value.pcs && s1.value.pcs[t].Done?
    decreases Rank(Run(calls, pods, schedule).value.pcs[t])
  {
    if Run(calls, pods, schedule).value.pcs[t].Done? {
      rest := [];
      assert schedule + rest == schedule;
    } else {
      var a := OneStepOut(calls, pods, schedule, t);
      var more := CanAlwaysReturn(calls, pods, schedule + [(t, a)], t);
      rest := [(t, a)] + more;
      assert schedule + [(t, a)] + more == schedule + rest;
    }
  }

  // ----- whatever can befall a call alone can befall it among others -----

  /** Call `t` has come to `pc`; nobody else has moved, and the pods are these. */
  ghost predicate Came(s0: State, s: State, t: nat, pc: Pc, pods: set<Pod>) {
    s.pcs == s0.pcs[t := pc] && s.pods.Keys == pods && s.expired == s0.expired && s0.used <= s.used
  }

  /** A call that is about to start, with its context alive and the name of its pod unused. */
  ghost predicate Ready(calls: Calls, s: State, t: nat, f: Fate) {
    && t in calls && t in s.pcs && s.pcs[t].Start? && t !in s.expired
    && (f.created.Some? ==> Pod(NamespaceOf(calls[t]), f.created.value) !in s.used)
  }

  lemma TurnedAway(calls: Calls, pods: map<Pod, Phase>, schedule: seq<(nat, Act)>, t: nat, f: Fate)
    returns (schedule1: seq<(nat, Act)>)
    requires Run(calls, pods, schedule).Some? && Ready(calls, Run(calls, pods, schedule).value, t, f)
    requires !HasPod(LifeOf(calls[t], f))
    ensures Run(calls, pods, schedule1).Some?
    ensures var s, s1 := Run(calls, pods, schedule).value, Run(calls, pods, schedule1).value;
            Came(s, s1, t, Leaving(LifeOf(calls[t], f)), s.pods.Keys)
  {
    RunMore(calls, pods, schedule, t, Validate);
    schedule1 := schedule + [(t, Validate)];
    if ValidCall(calls[t]) {
      RunMore(calls, pods, schedule1, t, CreateFails);
      schedule1 := schedule1 + [(t, CreateFails)];
    }
  }

  lemma GetsPod(calls: Calls, pods: map<Pod, Phase>, schedule: seq<(nat, Act)>, t: nat, f: Fate)
    returns (schedule1: seq<(nat, Act)>)
    requires Run(calls, pods, schedule).Some? && Ready(calls, Run(calls, pods, schedule).value, t, f)
    requires HasPod(LifeOf(calls[t], f))
    ensures Run(calls, pods, schedule1).Some?
    ensures var s, s1 := Run(calls, pods, schedule).value, Run(calls, pods, schedule1).value;
            var pod := Pod(NamespaceOf(calls[t]), f.created.value);
            Came(s, s1, t, Polling(pod), s.pods.Keys + {pod})
  {
    var pod := Pod(NamespaceOf(calls[t]), f.created.value);
    RunMore(calls, pods, schedule, t, Validate);
    RunMore(calls, pods, schedule + [(t, Validate)], t, CreateOk(pod));
    schedule1 := schedule + [(t, Validate)] + [(t, CreateOk(pod))];
  }

  /** A pod that is polled can be found running. */
  lemma StartsRunning(calls: Calls, pods: map<Pod, Phase>, schedule: seq<(nat, Act)>, t: nat, pod: Pod)
    returns (schedule1: seq<(nat, Act)>)
    requires Run(calls, pods, schedule).Some?
    requires var s := Run(calls, pods, schedule).value;
             t in calls && t in s.pcs && s.pcs[t] == Polling(pod) && t !in s.expired && pod in s.pods
    ensures Run(calls, pods, schedule1).Some?
    ensures var s, s1 := Run(calls, pods, schedule).value, Run(calls, pods, schedule1).value;
            Came(s, s1, t, Guarding(pod), s.pods.Keys) && pod in s1.pods && s1.pods[pod].Running?
  {
    RunMore(calls, pods, schedule, t, SetPhase(pod, Running));
    RunMore(calls, pods, schedule + [(t, SetPhase(pod, Running))], t, PollOk);
    schedule1 := schedule + [(t, SetPhase(pod, Running))] + [(t, PollOk)];
  }

  lemma Executes(
      calls: Calls, pods: map<Pod, Phase>, schedule: seq<(nat, Act)>, t: nat, pod: Pod, output: Option<Output>)
    returns (schedule1: seq<(nat, Act)>)
    requires Run(calls, pods, schedule).Some?
    requires var s := Run(calls, pods, schedule).value;
             && t in calls && t in s.pcs && s.pcs[t] == Guarding(pod) && t !in s.expired
             && pod in s.pods && s.pods[pod].Running?
    ensures Run(calls, pods, schedule1).Some?
    ensures var s, s1 := Run(calls, pods, schedule).value, Run(calls, pods, schedule1).value;
            Came(s, s1, t, Cleaning(Ran(pod, output, false)), s.pods.Keys)
  {
    RunMore(calls, pods, schedule, t, GuardOk);
    RunMore(calls, pods, schedule + [(t, GuardOk)], t, RunExec(output));
    schedule1 := schedule + [(t, GuardOk)] + [(t, RunExec(output))];
  }

  /** From polling to the clean-up, as the fate has it. */
  lemma GetsToCleanup(calls: Calls, pods: map<Pod, Phase>, schedule: seq<(nat, Act)>, t: nat, f: Fate)
    returns (schedule1: seq<(nat, Act)>)
    requires Run(calls, pods, schedule).Some? && t in calls && HasPod(LifeOf(calls[t], f))
    requires var s := Run(calls, pods, schedule).value; var pod := LifeOf(calls[t], f).pod;
             t in s.pcs && s.pcs[t] == Polling(pod) && t !in s.expired && pod in s.pods
    ensures Run(calls, pods, schedule1).Some?
    ensures var s, s1 := Run(calls, pods, schedule).value, Run(calls, pods, schedule1).value;
            Came(s, s1, t, Cleaning(WithDelete(LifeOf(calls[t], f), false)), s.pods.Keys)
  {
    var l := LifeOf(calls[t], f);
    if l.NeverRan? {
      RunMore(calls, pods, schedule, t, PollFails);
      schedule1 := schedule + [(t, PollFails)];
    } else {
      schedule1 := StartsRunning(calls, pods, schedule, t, l.pod);
      if l.NotRunning? {
        RunMore(calls, pods, schedule1, t, GuardFails);
        schedule1 := schedule1 + [(t, GuardFails)];
      } else {
        schedule1 := Executes(calls, pods, schedule1, t, l.pod, l.output);
      }
    }
  }

  lemma CleansUpAfterwards(calls: Calls, pods: map<Pod, Phase>, schedule: seq<(nat, Act)>, t: nat, l: Life)
    returns (schedule1: seq<(nat, Act)>)
    requires Run(calls, pods, schedule).Some? && t in calls && HasPod(l)
    requires var s := Run(calls, pods, schedule).value;
             t in s.pcs && s.pcs[t] == Cleaning(WithDelete(l, false)) && l.pod in s.pods
    ensures Run(calls, pods, schedule1).Some?
    ensures var s, s1 := Run(calls, pods, schedule).value, Run(calls, pods, schedule1).value;
            Came(s, s1, t, Leaving(l), s.pods.Keys - (if l.deleteOk then {l.pod} else {}))
  {
    RunMore(calls, pods, schedule, t, Delete(l.deleteOk));
    schedule1 := schedule + [(t, Delete(l.deleteOk))];
  }

  lemma ReturnsNow(calls: Calls, pods: map<Pod, Phase>, schedule: seq<(nat, Act)>, t: nat, l: Life)
    returns (schedule1: seq<(nat, Act)>)
    requires Run(calls, pods, schedule).Some? && t in calls
    requires t in Run(calls, pods, schedule).value.pcs && Run(calls, pods, schedule).value.pcs[t] == Leaving(l)
    ensures Run(calls, pods, schedule1).Some?
    ensures var s, s1 := Run(calls, pods, schedule).value, Run(calls, pods, schedule1).value;
            Came(s, s1, t, Done(l), s.pods.Keys) && Project(s1.log, t) == Trace(l)
  {
    RunMore(calls, pods, schedule, t, Return);
    schedule1 := schedule + [(t, Return)];
    ReturnedTrace(calls, pods, schedule1, t);
  }

  /** A call that returned has done all that its life says. */
  lemma ReturnedTrace(calls: Calls, pods: map<Pod, Phase>, schedule: seq<(nat, Act)>, t: nat)
    requires Run(calls, pods, schedule).Some?
    requires t in calls && t in Run(calls, pods, schedule).value.pcs && Run(calls, pods, schedule).value.pcs[t].Done?
    ensures var s := Run(calls, pods, schedule).value; Project(s.log, t) == Trace(s.pcs[t].life)
  {
    RunsAreOrderly(calls, pods, schedule);
    assert CallsOk(calls, Run(calls, pods, schedule).value);
  }

  lemma CameFurther(s: State, s1: State, s2: State, t: nat, pc1: Pc, pc2: Pc, pods1: set<Pod>, pods2: set<Pod>)
    requires Came(s, s1, t, pc1, pods1) && Came(s1, s2, t, pc2, pods2)
    ensures Came(s, s2, t, pc2, pods2)
  {
  }

  /** A call that gets a pod can meet with any fate up to its return. */
  lemma LivesThrough(calls: Calls, pods: map<Pod, Phase>, schedule: seq<(nat, Act)>, t: nat, f: Fate)
    returns (schedule1: seq<(nat, Act)>)
    requires Run(calls, pods, schedule).Some? && Ready(calls, Run(calls, pods, schedule).value, t, f)
    requires HasPod(LifeOf(calls[t], f))
    ensures Run(calls, pods, schedule1).Some?
    ensures var s, s1 := Run(calls, pods, schedule).value, Run(calls, pods, schedule1).value;
            var l := LifeOf(calls[t], f);
            Came(s, s1, t, Leaving(l), s.pods.Keys + {l.pod} - (if l.deleteOk then {l.pod} else {}))
  {
    var l := LifeOf(calls[t], f);
    var s := Run(calls, pods, schedule).value;
    var schedule2 := GetsPod(calls, pods, schedule, t, f);
    var s2 := Run(calls, pods, schedule2).value;
    var schedule3 := GetsToCleanup(calls, pods, schedule2, t, f);
    var s3 := Run(calls, pods, schedule3).value;
    schedule1 := CleansUpAfterwards(calls, pods, schedule3, t, l);
    var s1 := Run(calls, pods, schedule1).value;
    CameFurther(s, s2, s3, t, s2.pcs[t], s3.pcs[t], s2.pods.Keys, s3.pods.Keys);
    CameFurther(s, s3, s1, t, s3.pcs[t], Leaving(l), s3.pods.Keys, s1.pods.Keys);
  }

  /** Nothing is ruled out: from any reachable state a call that is about to start can meet with
      any fate it could meet with alone, and then leaves behind, returns and has done the same. */
  lemma AnyFateHappens(calls: Calls, pods: map<Pod, Phase>, schedule: seq<(nat, Act)>, t: nat, f: Fate)
    returns (schedule1: seq<(nat, Act)>)
    requires Run(calls, pods, schedule).Some? && Ready(calls, Run(calls, pods, schedule).value, t, f)
    ensures Run(calls, pods, schedule1).Some?
    ensures var s, s1 := Run(calls, pods, schedule).value, Run(calls, pods, schedule1).value;
            var l := LifeOf(calls[t], f);
            && Came(s, s1, t, Done(l), s.pods.Keys + (if HasPod(l) && !l.deleteOk then {l.pod} else {}))
            && Project(s1.log, t) == Trace(l)
  {
    var l := LifeOf(calls[t], f);
    var s := Run(calls, pods, schedule).value;
    var before: seq<(nat, Act)>;
    if HasPod(l) {
      PodIsNew(calls, pods, schedule, l.pod);
      before := LivesThrough(calls, pods, schedule, t, f);
    } else {
      before := TurnedAway(calls, pods, schedule, t, f);
    }
    var s2 := Run(calls, pods, before).value;
    schedule1 := ReturnsNow(calls, pods, before, t, l);
    CameFurther(s, s2, Run(calls, pods, schedule1).value, t, Leaving(l), Done(l), s2.pods.Keys, s2.pods.Keys);
  }

  /** Only pods that were created at some time exist. */
  lemma PodIsNew(calls: Calls, pods: map<Pod, Phase>, schedule: seq<(nat, Act)>, p: Pod)
    requires Run(calls, pods, schedule).Some? && p !in Run(calls, pods, schedule).value.used
    ensures p !in Run(calls, pods, schedule).value.pods
  {
    RunsAreOrderly(calls, pods, schedule);
    assert Present(calls, Run(calls, pods, schedule).value, p);
  }
}
