/** Any number of concurrent requests on one omc client.

    Each request is a process with its own program counter; a step of the system is a step of
    one of them, and file system and commands may fail at any point. The requests share the
    client's lock and omc's one current selection. */
module OmcProtocol {
  import opened Strings
  import opened Paths
  import opened OmcClient

  datatype Pc =
    | Start                                     // not looked at yet
    | Waiting                                   // validated, about to lock
    | Holding                                   // has the lock
    | Checked                                   // the path passed its check
    | Selected                                  // `use` succeeded
    | Leaving(fate: Fate, response: Response)   // about to unlock, response decided
    | Finished(response: Response)

  datatype State = State(lock: Option<nat>, selection: Option<string>, pcs: map<nat, Pc>, log: seq<(nat, Event)>)

  datatype Act =
    | Validate | Acquire | CheckPath(ok: bool) | Use(ok: bool, left: Option<string>) | RunQuery(ok: bool) | Release

  type Jobs = map<nat, Job>

  function Initial(jobs: Jobs, selection: Option<string>): State {
    State(None, selection, map t | t in jobs :: Start, [])
  }

  /** Can request `t` take this step now? */
  predicate Enabled(jobs: Jobs, s: State, t: nat, a: Act) {
    && t in jobs && t in s.pcs
    && match a
       case Validate => s.pcs[t].Start?
       case Acquire => s.pcs[t].Waiting? && s.lock.None?
       case CheckPath(ok) => s.pcs[t].Holding? && (ok ==> ValidPath(jobs[t].path, false))
       case Use(_, _) => s.pcs[t].Checked?
       case RunQuery(_) => s.pcs[t].Selected?
       case Release => s.pcs[t].Leaving?
  }

  function Apply(omc: Omc, jobs: Jobs, s: State, t: nat, a: Act): State
    requires Enabled(jobs, s, t, a)
  {
    var job := jobs[t];
    match a
    case Validate =>
      s.(pcs := s.pcs[t := if ValidRequest(job.request) then Waiting else Finished(Failed)])
    case Acquire =>
      s.(lock := Some(t), pcs := s.pcs[t := Holding], log := s.log + [(t, Acquired)])
    case CheckPath(ok) =>
      s.(pcs := s.pcs[t := if ok then Checked else Leaving(Fate(false, false, None, false), Failed)])
    case Use(ok, left) =>
      s.(selection := if ok then Some(job.path) else left,
         pcs := s.pcs[t := if ok then Selected else Leaving(Fate(true, false, left, false), Failed)],
         log := s.log + [(t, Used(job.path, ok))])
    case RunQuery(ok) =>
      var args := Args(job.request);
      var response := if ok then Interpret(job.request, omc(s.selection, args)) else Failed;
      s.(pcs := s.pcs[t := Leaving(Fate(true, true, None, ok), response)],
         log := s.log + [(t, Queried(s.selection, args, ok))])
    case Release =>
      s.(lock := None, pcs := s.pcs[t := Finished(s.pcs[t].response)], log := s.log + [(t, Released)])
  }

  /** The state after a schedule, if every step of it was possible. */
  function Run(omc: Omc, jobs: Jobs, selection: Option<string>, schedule: seq<(nat, Act)>): Option<State> {
    if schedule == [] then Some(Initial(jobs, selection))
    else
      var n := |schedule| - 1;
      var before := Run(omc, jobs, selection, schedule[..n]);
      var (t, a) := schedule[n];
      if before.Some? && Enabled(jobs, before.value, t, a) then Some(Apply(omc, jobs, before.value, t, a)) else None
  }

  // ----- serial histories -----

  /** One request served from lock to unlock. */
  datatype Turn = Turn(t: nat, fate: Fate)

  function Tag(t: nat, events: seq<Event>): seq<(nat, Event)> {
    seq(|events|, i requires 0 <= i < |events| => (t, events[i]))
  }

  predicate TurnsOf(jobs: Jobs, turns: seq<Turn>) {
    forall k :: 0 <= k < |turns| ==>
      turns[k].t in jobs && Possible(jobs[turns[k].t], turns[k].fate) && ValidRequest(jobs[turns[k].t].request)
  }

  /** The record of the requests served one after the other. */
  function Serial(jobs: Jobs, turns: seq<Turn>): seq<(nat, Event)>
    requires TurnsOf(jobs, turns)
  {
    if turns == [] then []
    else
      var last := turns[|turns| - 1];
      Serial(jobs, turns[..|turns| - 1]) + Tag(last.t, Served(jobs[last.t], last.fate))
  }

  function SelectionAt(jobs: Jobs, turns: seq<Turn>, selection: Option<string>): Option<string>
    requires TurnsOf(jobs, turns)
  {
    if turns == [] then selection
    else
      var last := turns[|turns| - 1];
      SelectionAfter(jobs[last.t], last.fate, SelectionAt(jobs, turns[..|turns| - 1], selection))
  }

  // ----- the invariant -----

  predicate Holds(pc: Pc) {
    pc.Holding? || pc.Checked? || pc.Selected? || pc.Leaving?
  }

  /** What the holder of the lock has done since it got it. */
  function Doing(job: Job, pc: Pc): seq<Event>
    requires Holds(pc)
  {
    match pc
    case Selected => [Acquired, Used(job.path, true)]
    case Leaving(f, _) => Work(job, f)
    case _ => [Acquired]
  }

  function SelectionNow(job: Job, pc: Pc, before: Option<string>): Option<string>
    requires Holds(pc)
  {
    match pc
    case Selected => Some(job.path)
    case Leaving(f, _) => SelectionAfter(job, f, before)
    case _ => before
  }

  /** What holds of one request, given the turns completed so far. */
  ghost predicate RequestOk(omc: Omc, job: Job, pc: Pc, t: nat, turns: seq<Turn>) {
    && (!pc.Start? && !pc.Finished? ==> ValidRequest(job.request))
    && (pc.Checked? || pc.Selected? ==> ValidPath(job.path, false))
    && (pc.Leaving? ==> Possible(job, pc.fate) && pc.response == Result(omc, job, pc.fate))
    && (pc.Finished? && !ValidRequest(job.request) ==> pc.response == Failed)
    && ((exists k :: 0 <= k < |turns| && turns[k].t == t) <==> pc.Finished? && ValidRequest(job.request))
    && (forall k :: 0 <= k < |turns| && turns[k].t == t ==>
         pc.Finished? && pc.response == Result(omc, job, turns[k].fate))
  }

  /** The lock is held by exactly the one request inside, and record and selection are those of
      the completed turns in lock order followed by what that request has done so far. */
  ghost predicate LockOk(jobs: Jobs, selection: Option<string>, s: State, turns: seq<Turn>)
    requires s.pcs.Keys == jobs.Keys && TurnsOf(jobs, turns)
  {
    && (forall t :: t in jobs ==> (s.lock == Some(t) <==> Holds(s.pcs[t])))
    && match s.lock
       case None =>
         s.log == Serial(jobs, turns) && s.selection == SelectionAt(jobs, turns, selection)
       case Some(t) =>
         && t in jobs
         && s.log == Serial(jobs, turns) + Tag(t, Doing(jobs[t], s.pcs[t]))
         && s.selection == SelectionNow(jobs[t], s.pcs[t], SelectionAt(jobs, turns, selection))
  }

  ghost predicate Inv(omc: Omc, jobs: Jobs, selection: Option<string>, s: State, turns: seq<Turn>) {
    && s.pcs.Keys == jobs.Keys
    && TurnsOf(jobs, turns)
    && (forall i, j :: 0 <= i < j < |turns| ==> turns[i].t != turns[j].t)
    && (forall t :: t in jobs ==> RequestOk(omc, jobs[t], s.pcs[t], t, turns))
    && LockOk(jobs, selection, s, turns)
  }

  lemma TagMore(t: nat, events: seq<Event>, e: Event)
    ensures Tag(t, events + [e]) == Tag(t, events) + [(t, e)]
  {
  }

  lemma RequestInside(omc: Omc, jobs: Jobs, selection: Option<string>, s: State, turns: seq<Turn>, t: nat, a: Act)
    requires Inv(omc, jobs, selection, s, turns) && Enabled(jobs, s, t, a) && !a.Release?
    ensures RequestOk(omc, jobs[t], Apply(omc, jobs, s, t, a).pcs[t], t, turns)
  {
    assert RequestOk(omc, jobs[t], s.pcs[t], t, turns);
    assert Holds(s.pcs[t]) ==> s.lock == Some(t);
  }

  /** What the holder of the lock does is added to what it has done. */
  lemma DoingMore(omc: Omc, jobs: Jobs, s: State, t: nat, a: Act)
    requires Enabled(jobs, s, t, a) && Holds(s.pcs[t]) && !a.Release?
    requires s.pcs[t].Selected? ==> s.selection == Some(jobs[t].path)
    ensures var s1 := Apply(omc, jobs, s, t, a); var job := jobs[t];
            && t in s1.pcs && Holds(s1.pcs[t])
            && s1.log == s.log + Tag(t, Doing(job, s1.pcs[t])[|Doing(job, s.pcs[t])|..])
            && Doing(job, s.pcs[t]) <= Doing(job, s1.pcs[t])
  {
  }

  lemma TagAppend(t: nat, a: seq<Event>, b: seq<Event>)
    requires a <= b
    ensures Tag(t, a) + Tag(t, b[|a|..]) == Tag(t, b)
  {
  }

  lemma LockInside(omc: Omc, jobs: Jobs, selection: Option<string>, s: State, turns: seq<Turn>, t: nat, a: Act)
    requires s.pcs.Keys == jobs.Keys && TurnsOf(jobs, turns) && LockOk(jobs, selection, s, turns)
    requires Enabled(jobs, s, t, a) && !a.Release?
    ensures var s1 := Apply(omc, jobs, s, t, a); s1.pcs.Keys == jobs.Keys && LockOk(jobs, selection, s1, turns)
  {
    var s1 := Apply(omc, jobs, s, t, a);
    assert s1.pcs.Keys == jobs.Keys;
    forall u | u in jobs ensures s1.lock == Some(u) <==> Holds(s1.pcs[u]) {
      assert u != t ==> s1.pcs[u] == s.pcs[u];
    }
    if a.Acquire? {
      assert Tag(t, [Acquired]) == [(t, Acquired)];
    } else if !a.Validate? {
      DoingMore(omc, jobs, s, t, a);
      TagAppend(t, Doing(jobs[t], s.pcs[t]), Doing(jobs[t], s1.pcs[t]));
      assert s1.log == Serial(jobs, turns) + Tag(t, Doing(jobs[t], s1.pcs[t]));
    }
  }

  /** Steps of a request that does not complete its turn. */
  lemma StepInside(omc: Omc, jobs: Jobs, selection: Option<string>, s: State, turns: seq<Turn>, t: nat, a: Act)
    requires Inv(omc, jobs, selection, s, turns) && Enabled(jobs, s, t, a) && !a.Release?
    ensures Inv(omc, jobs, selection, Apply(omc, jobs, s, t, a), turns)
  {
    LockInside(omc, jobs, selection, s, turns, t, a);
    RequestInside(omc, jobs, selection, s, turns, t, a);
    var s1 := Apply(omc, jobs, s, t, a);
    forall u | u in jobs ensures RequestOk(omc, jobs[u], s1.pcs[u], u, turns) {
      assert u != t ==> RequestOk(omc, jobs[u], s.pcs[u], u, turns);
    }
  }

  /** Unlocking completes a turn. */
  lemma StepRelease(omc: Omc, jobs: Jobs, selection: Option<string>, s: State, turns: seq<Turn>, t: nat)
    returns (turns1: seq<Turn>)
    requires Inv(omc, jobs, selection, s, turns) && Enabled(jobs, s, t, Release)
    ensures Inv(omc, jobs, selection, Apply(omc, jobs, s, t, Release), turns1)
    ensures turns1 == turns + [Turn(t, s.pcs[t].fate)]
  {
    var s1 := Apply(omc, jobs, s, t, Release);
    var f := s.pcs[t].fate;
    assert RequestOk(omc, jobs[t], s.pcs[t], t, turns);
    assert s.lock == Some(t);
    turns1 := turns + [Turn(t, f)];
    assert s1.pcs.Keys == jobs.Keys;
    forall k | 0 <= k < |turns| ensures turns[k].t != t {}
    forall u | u in jobs ensures RequestOk(omc, jobs[u], s1.pcs[u], u, turns1) {
      assert RequestOk(omc, jobs[u], s.pcs[u], u, turns);
      OneMoreTurn(omc, jobs[u], s.pcs[u], s1.pcs[u], u, turns, Turn(t, f));
    }
    ReleaseLock(omc, jobs, selection, s, turns, t);
  }

  lemma OneMoreTurn(omc: Omc, job: Job, pc: Pc, pc1: Pc, u: nat, turns: seq<Turn>, turn: Turn)
    requires RequestOk(omc, job, pc, u, turns)
    requires u != turn.t ==> pc1 == pc
    requires u == turn.t ==> pc.Leaving? && turn.fate == pc.fate && pc1 == Finished(pc.response)
    ensures RequestOk(omc, job, pc1, u, turns + [turn])
  {
    var turns1 := turns + [turn];
    assert turns1[|turns|] == turn;
    assert forall k :: 0 <= k < |turns| ==> turns1[k] == turns[k];
    if exists k :: 0 <= k < |turns| && turns[k].t == u {
      var k :| 0 <= k < |turns| && turns[k].t == u;
      assert turns1[k].t == u;
    }
  }

  lemma ReleaseLock(omc: Omc, jobs: Jobs, selection: Option<string>, s: State, turns: seq<Turn>, t: nat)
    requires s.pcs.Keys == jobs.Keys && TurnsOf(jobs, turns) && LockOk(jobs, selection, s, turns)
    requires Enabled(jobs, s, t, Release)
    requires Possible(jobs[t], s.pcs[t].fate) && ValidRequest(jobs[t].request)
    ensures var turns1 := turns + [Turn(t, s.pcs[t].fate)];
            var s1 := Apply(omc, jobs, s, t, Release);
            TurnsOf(jobs, turns1) && s1.pcs.Keys == jobs.Keys && LockOk(jobs, selection, s1, turns1)
  {
    var job, f := jobs[t], s.pcs[t].fate;
    var turns1 := turns + [Turn(t, f)];
    assert s.lock == Some(t);
    assert turns1[|turns|] == Turn(t, f) && turns1[..|turns1| - 1] == turns;
    assert TurnsOf(jobs, turns1);
    TagMore(t, Work(job, f), Released);
    assert Apply(omc, jobs, s, t, Release).log == Serial(jobs, turns) + (Tag(t, Work(job, f)) + [(t, Released)]);
    assert Apply(omc, jobs, s, t, Release).pcs.Keys == jobs.Keys;
  }

  /** Every run of any number of requests is serial: in the order in which they got the lock, the
      completed requests have done and answered exactly what each would have alone. */
  lemma {:induction false} RunsAreSerial(omc: Omc, jobs: Jobs, selection: Option<string>, schedule: seq<(nat, Act)>)
    returns (turns: seq<Turn>)
    requires Run(omc, jobs, selection, schedule).Some?
    ensures Inv(omc, jobs, selection, Run(omc, jobs, selection, schedule).value, turns)
    decreases |schedule|
  {
    if schedule == [] {
      turns := [];
      assert Initial(jobs, selection).pcs.Keys == jobs.Keys;
    } else {
      var n := |schedule| - 1;
      turns := RunsAreSerial(omc, jobs, selection, schedule[..n]);
      var s := Run(omc, jobs, selection, schedule[..n]).value;
      var (t, a) := schedule[n];
      if a.Release? {
        turns := StepRelease(omc, jobs, selection, s, turns, t);
      } else {
        StepInside(omc, jobs, selection, s, turns, t, a);
      }
    }
  }

  // ----- consequences -----

  /** An event that is right for its own request, whatever the others were doing. */
  ghost predicate OwnEvent(jobs: Jobs, e: (nat, Event)) {
    && e.0 in jobs
    && (e.1.Queried? ==> e.1.selection == Some(jobs[e.0].path) && e.1.args == Args(jobs[e.0].request))
    && (e.1.Used? ==> e.1.path == jobs[e.0].path)
  }

  lemma {:induction false} SerialOwn(jobs: Jobs, turns: seq<Turn>)
    requires TurnsOf(jobs, turns)
    ensures forall i :: 0 <= i < |Serial(jobs, turns)| ==> OwnEvent(jobs, Serial(jobs, turns)[i])
  {
    if turns != [] {
      SerialOwn(jobs, turns[..|turns| - 1]);
    }
  }

  /** Every query command of every run finds omc's selection at its own request's path and runs
      its own request's arguments, also after `use` commands of other requests failed. */
  lemma QueriesSeeOwnPath(omc: Omc, jobs: Jobs, selection: Option<string>, schedule: seq<(nat, Act)>)
    requires Run(omc, jobs, selection, schedule).Some?
    ensures forall e :: e in Run(omc, jobs, selection, schedule).value.log ==> OwnEvent(jobs, e)
  {
    var turns := RunsAreSerial(omc, jobs, selection, schedule);
    SerialOwn(jobs, turns);
    var s := Run(omc, jobs, selection, schedule).value;
    if s.lock.Some? {
      var t := s.lock.value;
      forall e | e in Tag(t, Doing(jobs[t], s.pcs[t])) ensures OwnEvent(jobs, e) {}
    }
  }

  predicate AllFinished(s: State) {
    forall t :: t in s.pcs ==> s.pcs[t].Finished?
  }

  /** A request can always be answered: unless all are, some step is possible. */
  lemma NeverStuck(omc: Omc, jobs: Jobs, selection: Option<string>, s: State, turns: seq<Turn>) returns (t: nat, a: Act)
    requires Inv(omc, jobs, selection, s, turns) && !AllFinished(s)
    ensures Enabled(jobs, s, t, a)
  {
    if s.lock.Some? {
      t := s.lock.value;
      match s.pcs[t]
      case Holding => a := CheckPath(false);
      case Checked => a := Use(false, None);
      case Selected => a := RunQuery(false);
      case Leaving(_, _) => a := Release;
    } else {
      t :| t in s.pcs && !s.pcs[t].Finished?;
      assert !Holds(s.pcs[t]);
      a := if s.pcs[t].Start? then Validate else Acquire;
    }
  }

  function Rank(pc: Pc): nat {
    match pc
    case Start => 6
    case Waiting => 5
    case Holding => 4
    case Checked => 3
    case Selected => 2
    case Leaving(_, _) => 1
    case Finished(_) => 0
  }

  ghost function TotalRank(pcs: map<nat, Pc>, ts: set<nat>): nat
    requires ts <= pcs.Keys
  {
    if ts == {} then 0 else var t :| t in ts; Rank(pcs[t]) + TotalRank(pcs, ts - {t})
  }

  lemma {:induction false} TotalRankPick(pcs: map<nat, Pc>, ts: set<nat>, t: nat)
    requires ts <= pcs.Keys && t in ts
    ensures TotalRank(pcs, ts) == Rank(pcs[t]) + TotalRank(pcs, ts - {t})
    decreases |ts|
  {
    var u :| u in ts && TotalRank(pcs, ts) == Rank(pcs[u]) + TotalRank(pcs, ts - {u});
    if u != t {
      TotalRankPick(pcs, ts - {u}, t);
      TotalRankPick(pcs, ts - {t}, u);
      assert ts - {u} - {t} == ts - {t} - {u};
    }
  }

  lemma {:induction false} TotalRankSame(p: map<nat, Pc>, q: map<nat, Pc>, ts: set<nat>)
    requires ts <= p.Keys && ts <= q.Keys && forall t :: t in ts ==> p[t] == q[t]
    ensures TotalRank(p, ts) == TotalRank(q, ts)
    decreases |ts|
  {
    if ts != {} {
      var t :| t in ts;
      TotalRankPick(p, ts, t);
      TotalRankPick(q, ts, t);
      TotalRankSame(p, q, ts - {t});
    }
  }

  /** Every step brings the system closer to its end. */
  lemma StepsDescend(omc: Omc, jobs: Jobs, s: State, t: nat, a: Act)
    requires s.pcs.Keys == jobs.Keys && Enabled(jobs, s, t, a)
    ensures var s1 := Apply(omc, jobs, s, t, a);
            s1.pcs.Keys == jobs.Keys && TotalRank(s1.pcs, jobs.Keys) < TotalRank(s.pcs, jobs.Keys)
  {
    var s1 := Apply(omc, jobs, s, t, a);
    TotalRankPick(s.pcs, jobs.Keys, t);
    TotalRankPick(s1.pcs, jobs.Keys, t);
    TotalRankSame(s.pcs, s1.pcs, jobs.Keys - {t});
  }

  lemma {:induction false} RankAtStart(pcs: map<nat, Pc>, ts: set<nat>)
    requires ts <= pcs.Keys && forall t :: t in ts ==> pcs[t].Start?
    ensures TotalRank(pcs, ts) == 6 * |ts|
    decreases |ts|
  {
    if ts != {} {
      var t :| t in ts;
      TotalRankPick(pcs, ts, t);
      RankAtStart(pcs, ts - {t});
    }
  }

  /** No run is longer than six steps a request. */
  lemma {:induction false} RunsAreBounded(omc: Omc, jobs: Jobs, selection: Option<string>, schedule: seq<(nat, Act)>)
    requires Run(omc, jobs, selection, schedule).Some?
    ensures var s := Run(omc, jobs, selection, schedule).value;
            s.pcs.Keys == jobs.Keys && |schedule| + TotalRank(s.pcs, jobs.Keys) <= 6 * |jobs|
    decreases |schedule|
  {
    if schedule == [] {
      assert Initial(jobs, selection).pcs.Keys == jobs.Keys;
      RankAtStart(Initial(jobs, selection).pcs, jobs.Keys);
    } else {
      var n := |schedule| - 1;
      RunsAreBounded(omc, jobs, selection, schedule[..n]);
      var (t, a) := schedule[n];
      StepsDescend(omc, jobs, Run(omc, jobs, selection, schedule[..n]).value, t, a);
    }
  }

  /** A run that cannot be continued has answered every request: the lock is free again, every
      accepted request had exactly one turn, and the record and the selection are those of the
      turns taken one after the other. */
  lemma CompleteRunsAreSerial(omc: Omc, jobs: Jobs, selection: Option<string>, schedule: seq<(nat, Act)>)
    returns (turns: seq<Turn>)
    requires Run(omc, jobs, selection, schedule).Some?
    requires forall t, a :: !Enabled(jobs, Run(omc, jobs, selection, schedule).value, t, a)
    ensures var s := Run(omc, jobs, selection, schedule).value;
            && TurnsOf(jobs, turns)
            && s.lock == None && AllFinished(s) && s.pcs.Keys == jobs.Keys
            && s.log == Serial(jobs, turns) && s.selection == SelectionAt(jobs, turns, selection)
            && (forall i, j :: 0 <= i < j < |turns| ==> turns[i].t != turns[j].t)
            && (forall t :: t in jobs ==>
                 ((exists k :: 0 <= k < |turns| && turns[k].t == t) <==> ValidRequest(jobs[t].request)))
            && (forall k :: 0 <= k < |turns| ==>
                 var pc := s.pcs[turns[k].t];
                 && pc == Finished(Result(omc, jobs[turns[k].t], turns[k].fate))
                 && RightAnswer(omc, jobs[turns[k].t], turns[k].fate, pc.response))
  {
    turns := RunsAreSerial(omc, jobs, selection, schedule);
    var s := Run(omc, jobs, selection, schedule).value;
    assert s.lock.Some? ==> Holds(s.pcs[s.lock.value]);
    if !AllFinished(s) {
      var t, a := NeverStuck(omc, jobs, selection, s, turns);
      assert false;
    }
    forall t | t in jobs ensures (exists k :: 0 <= k < |turns| && turns[k].t == t) <==> ValidRequest(jobs[t].request) {
      assert RequestOk(omc, jobs[t], s.pcs[t], t, turns);
    }
    forall k | 0 <= k < |turns|
      ensures var pc := s.pcs[turns[k].t];
        && pc == Finished(Result(omc, jobs[turns[k].t], turns[k].fate))
        && RightAnswer(omc, jobs[turns[k].t], turns[k].fate, pc.response)
    {
      assert RequestOk(omc, jobs[turns[k].t], s.pcs[turns[k].t], turns[k].t, turns);
      ResultIsRight(omc, jobs[turns[k].t], turns[k].fate);
    }
  }

  // ----- every serial history is a run -----

  lemma RunMore(omc: Omc, jobs: Jobs, selection: Option<string>, schedule: seq<(nat, Act)>, t: nat, a: Act)
    requires Run(omc, jobs, selection, schedule).Some?
    requires Enabled(jobs, Run(omc, jobs, selection, schedule).value, t, a)
    ensures Run(omc, jobs, selection, schedule + [(t, a)])
         == Some(Apply(omc, jobs, Run(omc, jobs, selection, schedule).value, t, a))
  {
    assert (schedule + [(t, a)])[..|schedule|] == schedule;
  }

  /** `t` has the lock and has just got it; the rest of the state is `s`. */
  ghost predicate Entered(s: State, s1: State, t: nat) {
    s1 == State(Some(t), s.selection, s.pcs[t := Holding], s.log + [(t, Acquired)])
  }

  lemma Enter(omc: Omc, jobs: Jobs, selection: Option<string>, schedule: seq<(nat, Act)>, t: nat)
    returns (schedule1: seq<(nat, Act)>)
    requires Run(omc, jobs, selection, schedule).Some?
    requires var s := Run(omc, jobs, selection, schedule).value;
             t in jobs && t in s.pcs && s.pcs[t].Start? && s.lock.None? && ValidRequest(jobs[t].request)
    ensures Run(omc, jobs, selection, schedule1).Some?
    ensures Entered(Run(omc, jobs, selection, schedule).value, Run(omc, jobs, selection, schedule1).value, t)
  {
    var s := Run(omc, jobs, selection, schedule).value;
    RunMore(omc, jobs, selection, schedule, t, Validate);
    RunMore(omc, jobs, selection, schedule + [(t, Validate)], t, Acquire);
    schedule1 := schedule + [(t, Validate)] + [(t, Acquire)];
    assert s.pcs[t := Waiting][t := Holding] == s.pcs[t := Holding];
  }

  /** `t` is about to unlock after all its work. */
  ghost predicate Worked(omc: Omc, job: Job, s: State, s1: State, t: nat, f: Fate) {
    && t in s1.pcs && s1.lock == Some(t) && s1.pcs[t].Leaving? && s1.pcs == s.pcs[t := s1.pcs[t]]
    && s1.pcs[t].response == Result(omc, job, f)
    && s1.log == s.log + Tag(t, Work(job, f))
    && s1.selection == SelectionAfter(job, f, s.selection)
  }

  lemma WorkThrough(
      omc: Omc, jobs: Jobs, selection: Option<string>, schedule: seq<(nat, Act)>, s: State, t: nat, f: Fate)
    returns (schedule1: seq<(nat, Act)>)
    requires Run(omc, jobs, selection, schedule).Some? && t in jobs && t in s.pcs && Possible(jobs[t], f)
    requires Entered(s, Run(omc, jobs, selection, schedule).value, t)
    ensures Run(omc, jobs, selection, schedule1).Some?
    ensures Worked(omc, jobs[t], s, Run(omc, jobs, selection, schedule1).value, t, f)
  {
    RunMore(omc, jobs, selection, schedule, t, CheckPath(f.pathOk));
    schedule1 := schedule + [(t, CheckPath(f.pathOk))];
    if f.pathOk {
      RunMore(omc, jobs, selection, schedule1, t, Use(f.useOk, f.left));
      schedule1 := schedule1 + [(t, Use(f.useOk, f.left))];
      if f.useOk {
        RunMore(omc, jobs, selection, schedule1, t, RunQuery(f.queryOk));
        schedule1 := schedule1 + [(t, RunQuery(f.queryOk))];
      }
    }
  }

  /** Taking one more turn, with any fate. */
  lemma TakeTurn(omc: Omc, jobs: Jobs, selection: Option<string>, schedule: seq<(nat, Act)>, t: nat, f: Fate)
    returns (schedule1: seq<(nat, Act)>)
    requires Run(omc, jobs, selection, schedule).Some?
    requires var s := Run(omc, jobs, selection, schedule).value;
             t in jobs && t in s.pcs && s.pcs[t].Start? && s.lock.None?
    requires ValidRequest(jobs[t].request) && Possible(jobs[t], f)
    ensures Run(omc, jobs, selection, schedule1).Some?
    ensures var s, s1 := Run(omc, jobs, selection, schedule).value, Run(omc, jobs, selection, schedule1).value;
            && s1.lock.None? && s1.pcs == s.pcs[t := Finished(Result(omc, jobs[t], f))]
            && s1.log == s.log + Tag(t, Served(jobs[t], f))
            && s1.selection == SelectionAfter(jobs[t], f, s.selection)
  {
    var s := Run(omc, jobs, selection, schedule).value;
    schedule1 := Enter(omc, jobs, selection, schedule, t);
    schedule1 := WorkThrough(omc, jobs, selection, schedule1, s, t, f);
    RunMore(omc, jobs, selection, schedule1, t, Release);
    TagMore(t, Work(jobs[t], f), Released);
    schedule1 := schedule1 + [(t, Release)];
  }

  /** The requests of these turns are answered and all others still at their start. */
  ghost predicate OnlyTurnsTaken(omc: Omc, jobs: Jobs, pcs: map<nat, Pc>, turns: seq<Turn>)
    requires pcs.Keys == jobs.Keys && TurnsOf(jobs, turns)
  {
    && (forall k :: 0 <= k < |turns| ==> pcs[turns[k].t] == Finished(Result(omc, jobs[turns[k].t], turns[k].fate)))
    && (forall t :: t in jobs && (forall k :: 0 <= k < |turns| ==> turns[k].t != t) ==> pcs[t].Start?)
  }

  lemma OnlyTurnsTakenMore(omc: Omc, jobs: Jobs, pcs: map<nat, Pc>, turns: seq<Turn>, turn: Turn)
    requires pcs.Keys == jobs.Keys && TurnsOf(jobs, turns) && TurnsOf(jobs, turns + [turn])
    requires turn.t in jobs && forall k :: 0 <= k < |turns| ==> turns[k].t != turn.t
    requires OnlyTurnsTaken(omc, jobs, pcs, turns)
    ensures pcs[turn.t].Start?
    ensures var pcs1 := pcs[turn.t := Finished(Result(omc, jobs[turn.t], turn.fate))];
            pcs1.Keys == jobs.Keys && OnlyTurnsTaken(omc, jobs, pcs1, turns + [turn])
  {
    var pcs1 := pcs[turn.t := Finished(Result(omc, jobs[turn.t], turn.fate))];
    assert pcs1.Keys == jobs.Keys;
    var turns1 := turns + [turn];
    assert turns1[|turns|] == turn;
    forall t | t in jobs && (forall k :: 0 <= k < |turns1| ==> turns1[k].t != t) ensures pcs1[t].Start? {
      assert t != turn.t;
      forall k | 0 <= k < |turns| ensures turns[k].t != t {
        assert turns1[k] == turns[k];
      }
    }
  }

  /** Nothing is ruled out: whatever turns accepted requests take, in whatever order and with
      whatever fates, there is a run with that record, that selection and those responses. */
  lemma {:induction false} SerialHistoriesAreRuns(omc: Omc, jobs: Jobs, selection: Option<string>, turns: seq<Turn>)
    returns (schedule: seq<(nat, Act)>)
    requires TurnsOf(jobs, turns)
    requires forall i, j :: 0 <= i < j < |turns| ==> turns[i].t != turns[j].t
    ensures Run(omc, jobs, selection, schedule).Some?
    ensures var s := Run(omc, jobs, selection, schedule).value;
            && s.lock.None? && s.pcs.Keys == jobs.Keys
            && s.log == Serial(jobs, turns) && s.selection == SelectionAt(jobs, turns, selection)
            && OnlyTurnsTaken(omc, jobs, s.pcs, turns)
    decreases |turns|
  {
    if turns == [] {
      schedule := [];
      assert Initial(jobs, selection).pcs.Keys == jobs.Keys;
    } else {
      var n := |turns| - 1;
      var front, turn := turns[..n], turns[n];
      assert turns == front + [turn];
      var before := SerialHistoriesAreRuns(omc, jobs, selection, front);
      var s := Run(omc, jobs, selection, before).value;
      OnlyTurnsTakenMore(omc, jobs, s.pcs, front, turn);
      schedule := TakeTurn(omc, jobs, selection, before, turn.t, turn.fate);
    }
  }

  // ----- the serial order, run on the client itself -----

  method Serve(c: Client, job: Job, f: Fate, omc: Omc) returns (r: Response)
    requires !c.locked && Possible(job, f) && ValidRequest(job.request)
    modifies c
    ensures !c.locked && r == Result(omc, job, f)
    ensures c.log == old(c.log) + Served(job, f) && c.selection == SelectionAfter(job, f, old(c.selection))
  {
    match job.request
    case GetResource(kind, namespace, name, output) =>
      r := c.GetResource(job.path, kind, namespace, name, output, f, omc);
    case ListResources(kind, namespace, selector, output) =>
      r := c.ListResources(job.path, kind, namespace, selector, output, f, omc);
    case GetPodLogs(namespace, name, container, previous, rotated) =>
      r := c.GetPodLogs(job.path, namespace, name, container, previous, rotated, f, omc);
    case GetOvnKInfo(infoType) =>
      r := c.GetOvnKInfo(job.path, infoType, f, omc);
  }

  function Untag(log: seq<(nat, Event)>): seq<Event> {
    seq(|log|, i requires 0 <= i < |log| => log[i].1)
  }

  lemma SerialMore(jobs: Jobs, turns: seq<Turn>, turn: Turn, selection: Option<string>)
    requires TurnsOf(jobs, turns + [turn]) && TurnsOf(jobs, turns) && turn.t in jobs
    ensures Untag(Serial(jobs, turns + [turn])) == Untag(Serial(jobs, turns)) + Served(jobs[turn.t], turn.fate)
    ensures SelectionAt(jobs, turns + [turn], selection)
         == SelectionAfter(jobs[turn.t], turn.fate, SelectionAt(jobs, turns, selection))
  {
    assert (turns + [turn])[..|turns|] == turns;
    assert Untag(Tag(turn.t, Served(jobs[turn.t], turn.fate))) == Served(jobs[turn.t], turn.fate);
  }

  /** Each request is answered as if alone. */
  ghost predicate Responses(omc: Omc, jobs: Jobs, turns: seq<Turn>, responses: seq<Response>)
    requires TurnsOf(jobs, turns)
  {
    && |responses| == |turns|
    && forall k :: 0 <= k < |turns| ==>
         responses[k] == Result(omc, jobs[turns[k].t], turns[k].fate)
         && RightAnswer(omc, jobs[turns[k].t], turns[k].fate, responses[k])
  }

  lemma ResponsesMore(omc: Omc, jobs: Jobs, turns: seq<Turn>, responses: seq<Response>, turn: Turn, r: Response)
    requires TurnsOf(jobs, turns) && TurnsOf(jobs, turns + [turn]) && Responses(omc, jobs, turns, responses)
    requires turn.t in jobs && r == Result(omc, jobs[turn.t], turn.fate)
    ensures Responses(omc, jobs, turns + [turn], responses + [r])
  {
    ResultIsRight(omc, jobs[turn.t], turn.fate);
  }

  /** Calling the client's methods one after the other, in the order of the turns, leaves the
      record, the selection and the responses of the concurrent run. */
  method ServeInTurn(c: Client, jobs: Jobs, turns: seq<Turn>, omc: Omc) returns (responses: seq<Response>)
    requires !c.locked && c.log == [] && TurnsOf(jobs, turns)
    modifies c
    ensures !c.locked
    ensures c.log == Untag(Serial(jobs, turns)) && c.selection == SelectionAt(jobs, turns, old(c.selection))
    ensures Responses(omc, jobs, turns, responses)
    decreases |turns|
  {
    if turns == [] {
      return [];
    }
    var n := |turns| - 1;
    var front, turn := turns[..n], turns[n];
    assert turns == front + [turn];
    SerialMore(jobs, front, turn, c.selection);
    responses := ServeInTurn(c, jobs, front, omc);
    var r := Serve(c, jobs[turn.t], turn.fate, omc);
    ResponsesMore(omc, jobs, front, responses, turn, r);
    responses := responses + [r];
  }
}
