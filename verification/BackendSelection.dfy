/** Choosing a backend for an agent command, as steps of many agents interleaved with other writers that
    share one writer lease and one recovery journal. */
module BackendSelection {
  import opened Wrappers

  type Pid = nat

  datatype Code = Success | OwnerUnavailable | WorkspaceMismatch | InternalError | OtherError | Interrupted

  /** Where an agent command stands. `Undoing` is the release on the way out of `_select_backend`;
      `Finally` is the last block of `_dispatch`, which every way out of its body runs through. */
  datatype Pc =
    | Admitting | Preflight | Leasing
    | Routing | Running
    | Rechecking | Building | Undoing(outcome: Code) | Local
    | Finally(outcome: Code)
    | Done(code: Code)

  /** `retained` says that `_dispatch` was handed the authority; `acquired` and `released` count the
      leases taken and the releases called. */
  datatype Agent = Agent(pc: Pc, refused: bool, retained: bool, acquired: nat, released: nat)

  /** `journal` names the process that created the pending recovery journal. */
  datatype World = World(lease: Option<Pid>, journal: Option<Pid>, advertised: bool, agents: map<Pid, Agent>)

  /** What can go either way in one agent step: the call raises; `lstat` gives no definite answer; an
      interrupt arrives; the handler's outcome and the failure class the recorder saw; whether a raising
      release still freed the lease. */
  datatype Luck = Luck(
    raises: bool, unclear: bool, interrupted: bool, outcome: Code, recorded: Option<Code>, freed: bool)

  datatype Step =
    | AgentStep(pid: Pid, luck: Luck)
    | AgentJournals(pid: Pid, pending: bool)
    | WriterAcquires(pid: Pid)
    | WriterReleases(pid: Pid)
    | WriterJournals(pid: Pid, pending: bool)
    | Advertise(present: bool)
    | ProcessExits(pid: Pid)

  /** Only a definite "no such name" reads as absence. */
  predicate PendingJournalPresent(journal: Option<Pid>, luck: Luck) {
    luck.unclear || journal.Some?
  }

  /** A redacted online failure gets back the class the recorder preserved. */
  function Reclassified(outcome: Code, recorded: Option<Code>): Code {
    if outcome == InternalError && (recorded == Some(OwnerUnavailable) || recorded == Some(WorkspaceMismatch))
    then recorded.value else outcome
  }

  function Raised(luck: Luck): Code {
    if luck.interrupted then Interrupted else InternalError
  }

  /** An admission failure keeps its own code only if it is one of the frozen admission codes. */
  function NotAdmitted(luck: Luck): Code {
    if luck.interrupted then Interrupted
    else if luck.outcome == WorkspaceMismatch || luck.outcome == OtherError then luck.outcome
    else InternalError
  }

  /** What a command and the shared state look like after one of its steps. */
  datatype Move = Move(agent: Agent, lease: Option<Pid>, journal: Option<Pid>)

  /** The lease after a release: a release that raises may or may not have freed it. */
  function Freed(lease: Option<Pid>, luck: Luck): Option<Pid> {
    if luck.raises && !luck.freed then lease else None
  }

  /** One step of `_dispatch` and `_select_backend`. */
  function Moved(a: Agent, pid: Pid, lease: Option<Pid>, journal: Option<Pid>, advertised: bool, luck: Luck): Move {
    var Go := (pc: Pc) => Move(a.(pc := pc), lease, journal);
    var pending := PendingJournalPresent(journal, luck);
    match a.pc
    case Admitting => if luck.raises then Go(Done(NotAdmitted(luck))) else Go(Preflight)
    case Preflight => if pending then Go(Done(InternalError)) else Go(Leasing)
    case Leasing =>
      if luck.raises then Go(Finally(Raised(luck)))
      else if lease.Some? then Move(a.(pc := Routing, refused := true), lease, journal)
      else Move(a.(pc := Rechecking, acquired := a.acquired + 1), Some(pid), journal)
    case Routing =>
      if luck.unclear || luck.raises then Go(Finally(Raised(luck)))
      else if !advertised then Go(Finally(OwnerUnavailable))
      else Go(Running)
    case Running =>
      if luck.raises then Go(Finally(Raised(luck))) else Go(Finally(Reclassified(luck.outcome, luck.recorded)))
    case Rechecking =>
      if luck.interrupted then Go(Undoing(Interrupted))
      else if pending then Go(Undoing(InternalError))
      else Go(Building)
    case Building =>
      // Opening the local Store replays, and so consumes, any journal it finds, even if it then raises.
      if luck.raises then Move(a.(pc := Undoing(Raised(luck))), lease, None)
      else Move(a.(pc := Local, retained := true), lease, None)
    case Undoing(outcome) => Move(a.(pc := Finally(outcome), released := a.released + 1), Freed(lease, luck), journal)
    case Local => if luck.raises then Go(Finally(Raised(luck))) else Go(Finally(luck.outcome))
    case Finally(outcome) =>
      if a.retained then Move(a.(pc := Done(outcome), released := a.released + 1), Freed(lease, luck), journal)
      else Go(Done(outcome))
    case Done(_) => Move(a, lease, journal)
  }

  function Advance(w: World, pid: Pid, luck: Luck): World
    requires pid in w.agents
  {
    var move := Moved(w.agents[pid], pid, w.lease, w.journal, w.advertised, luck);
    World(move.lease, move.journal, w.advertised, w.agents[pid := move.agent])
  }

  predicate Enabled(w: World, step: Step) {
    match step
    case AgentStep(pid, _) => pid in w.agents
    case AgentJournals(pid, _) => pid in w.agents && w.agents[pid].pc.Local?
    case WriterAcquires(pid) => pid !in w.agents && w.lease.None?
    case WriterReleases(pid) => pid !in w.agents && w.lease == Some(pid)
    case WriterJournals(pid, _) => pid !in w.agents && w.lease == Some(pid)
    case Advertise(_) => true
    case ProcessExits(pid) => pid in w.agents && w.agents[pid].pc.Done? && w.lease == Some(pid)
  }

  function Apply(w: World, step: Step): World
    requires Enabled(w, step)
  {
    match step
    case AgentStep(pid, luck) => Advance(w, pid, luck)
    case AgentJournals(pid, pending) => w.(journal := if pending then Some(pid) else None)
    case WriterAcquires(pid) => w.(lease := Some(pid))
    case WriterReleases(_) => w.(lease := None)
    case WriterJournals(pid, pending) => w.(journal := if pending then Some(pid) else None)
    case Advertise(present) => w.(advertised := present)
    case ProcessExits(_) => w.(lease := None)
  }

  /** Every agent is about to start; lease, journal and advertisement may be anything. */
  ghost predicate Start(w: World) {
    && (forall pid | pid in w.agents :: w.agents[pid] == Agent(Admitting, false, false, 0, 0))
    && (w.lease.Some? ==> w.lease.value !in w.agents)
  }

  ghost predicate Run(w: World, steps: seq<Step>, v: World)
    decreases |steps|
  {
    if steps == [] then w == v
    else Enabled(w, steps[0]) && Run(Apply(w, steps[0]), steps[1..], v)
  }

  predicate HoldsLease(a: Agent) {
    a.pc.Rechecking? || a.pc.Building? || a.pc.Undoing? || a.pc.Local? || (a.pc.Finally? && a.retained)
  }

  ghost predicate AgentOk(lease: Option<Pid>, journal: Option<Pid>, pid: Pid, a: Agent) {
    && (HoldsLease(a) ==> lease == Some(pid) && a.acquired == 1 && a.released == 0 && !a.refused)
    && (a.pc.Building? ==> journal.None?)
    && (a.pc.Local? ==> journal.None? || journal == Some(pid))
    && (a.pc.Routing? || a.pc.Running? ==> a.refused)
    && (a.refused ==> a.pc.Routing? || a.pc.Running? || a.pc.Finally? || a.pc.Done?)
    && (a.pc.Local? ==> a.retained)
    && (a.retained ==> a.acquired == 1 && !a.refused && (a.pc.Local? || a.pc.Finally? || a.pc.Done?))
    && (!HoldsLease(a) ==> a.acquired == a.released <= 1)
    && (a.refused || a.pc.Admitting? || a.pc.Preflight? || a.pc.Leasing? ==> a.acquired == 0)
    && (lease == Some(pid) ==> HoldsLease(a) || a.pc.Finally? || a.pc.Done?)
    && (Succeeds(a.pc) ==> a.refused || a.retained)
  }

  predicate Succeeds(pc: Pc) {
    match pc
    case Undoing(outcome) => outcome == Success
    case Finally(outcome) => outcome == Success
    case Done(code) => code == Success
    case _ => false
  }

  ghost predicate Inv(w: World) {
    forall pid | pid in w.agents :: AgentOk(w.lease, w.journal, pid, w.agents[pid])
  }

  lemma {:induction false} MovedSelf(a: Agent, pid: Pid, lease: Option<Pid>, journal: Option<Pid>, advertised: bool,
      luck: Luck)
    requires AgentOk(lease, journal, pid, a)
    ensures var move := Moved(a, pid, lease, journal, advertised, luck);
            AgentOk(move.lease, move.journal, pid, move.agent)
  {
  }

  /** A step of one command cannot upset another: it takes the lease only when it is free, gives up only its
      own, and consumes a journal only under its own lease. */
  lemma {:induction false} MovedOther(a: Agent, pid: Pid, lease: Option<Pid>, journal: Option<Pid>, advertised: bool,
      luck: Luck, other: Pid, b: Agent)
    requires pid != other && AgentOk(lease, journal, pid, a) && AgentOk(lease, journal, other, b)
    ensures var move := Moved(a, pid, lease, journal, advertised, luck);
            AgentOk(move.lease, move.journal, other, b)
  {
  }

  lemma {:induction false} AdvanceInv(w: World, pid: Pid, luck: Luck)
    requires Inv(w) && pid in w.agents
    ensures Inv(Advance(w, pid, luck))
  {
    var v := Advance(w, pid, luck);
    var a := w.agents[pid];
    assert AgentOk(w.lease, w.journal, pid, a);
    forall other | other in v.agents ensures AgentOk(v.lease, v.journal, other, v.agents[other]) {
      if other == pid {
        MovedSelf(a, pid, w.lease, w.journal, w.advertised, luck);
      } else {
        assert AgentOk(w.lease, w.journal, other, w.agents[other]);
        MovedOther(a, pid, w.lease, w.journal, w.advertised, luck, other, w.agents[other]);
      }
    }
  }

  /** Writers and exits: they move the lease or the journal only while no command holds the lease. */
  lemma {:induction false} OutsideInv(w: World, v: World, pid: Pid)
    requires Inv(w) && v.agents == w.agents
    requires w.lease == Some(pid) && (pid in w.agents ==> w.agents[pid].pc.Done?)
    requires v.lease == w.lease || v.lease == None
    ensures Inv(v)
  {
    forall other | other in v.agents ensures AgentOk(v.lease, v.journal, other, v.agents[other]) {
      assert AgentOk(w.lease, w.journal, other, w.agents[other]);
    }
  }

  lemma {:induction false} AcquiredInv(w: World, v: World, pid: Pid)
    requires Inv(w) && pid !in w.agents && w.lease.None? && v == w.(lease := Some(pid))
    ensures Inv(v)
  {
    forall other | other in v.agents ensures AgentOk(v.lease, v.journal, other, v.agents[other]) {
      assert AgentOk(w.lease, w.journal, other, w.agents[other]);
    }
  }

  lemma {:induction false} OwnJournalInv(w: World, v: World, pid: Pid)
    requires Inv(w) && pid in w.agents && w.agents[pid].pc.Local?
    requires v == w.(journal := v.journal) && (v.journal.Some? ==> v.journal == Some(pid))
    ensures Inv(v)
  {
    assert AgentOk(w.lease, w.journal, pid, w.agents[pid]);
    forall other | other in v.agents ensures AgentOk(v.lease, v.journal, other, v.agents[other]) {
      assert AgentOk(w.lease, w.journal, other, w.agents[other]);
    }
  }

  lemma {:induction false} StepInv(w: World, step: Step)
    requires Inv(w) && Enabled(w, step)
    ensures Inv(Apply(w, step))
  {
    match step
    case AgentStep(pid, luck) => AdvanceInv(w, pid, luck);
    case WriterReleases(pid) => OutsideInv(w, Apply(w, step), pid);
    case WriterJournals(pid, _) => OutsideInv(w, Apply(w, step), pid);
    case ProcessExits(pid) => OutsideInv(w, Apply(w, step), pid);
    case WriterAcquires(pid) => AcquiredInv(w, Apply(w, step), pid);
    case AgentJournals(pid, pending) => OwnJournalInv(w, Apply(w, step), pid);
    case Advertise(_) =>
  }

  lemma {:induction false} RunInv(w: World, steps: seq<Step>, v: World)
    requires Inv(w) && Run(w, steps, v)
    ensures Inv(v)
    decreases |steps|
  {
    if steps != [] {
      StepInv(w, steps[0]);
      RunInv(Apply(w, steps[0]), steps[1..], v);
    }
  }

  /** In every interleaving: local work happens only under the agent's own lease, so by one agent at a time;
      a local backend is built only with no journal pending; a refused lease never leads to local work;
      a finished command has released exactly the leases it acquired, at most one; and success is reported
      only by a command that reached a running owner or held the lease for local work. */
  lemma {:induction false} EveryInterleavingIsSafe(w: World, steps: seq<Step>, v: World)
    requires Start(w) && Run(w, steps, v)
    ensures forall pid | pid in v.agents && HoldsLease(v.agents[pid]) :: v.lease == Some(pid)
    ensures forall p, q | p in v.agents && q in v.agents && HoldsLease(v.agents[p]) && HoldsLease(v.agents[q]) :: p == q
    ensures forall pid | pid in v.agents && v.agents[pid].pc.Building? :: v.journal.None?
    ensures forall pid | pid in v.agents && v.agents[pid].refused ::
              !HoldsLease(v.agents[pid]) && v.agents[pid].acquired == 0
    ensures forall pid | pid in v.agents && v.agents[pid].pc.Running? :: v.agents[pid].refused
    ensures forall pid | pid in v.agents && v.agents[pid].pc.Done? ::
              v.agents[pid].acquired == v.agents[pid].released <= 1
    ensures forall pid | pid in v.agents && v.agents[pid].pc == Done(Success) ::
              v.agents[pid].refused || v.agents[pid].acquired == 1
  {
    RunInv(w, steps, v);
    forall pid | pid in v.agents ensures AgentOk(v.lease, v.journal, pid, v.agents[pid]) {
    }
  }

  // ---- how a command ends, read off what happened to it ----

  /** One step a command took: the shared state it found, and what went which way. */
  datatype Moment = Moment(found: World, luck: Luck)

  /** The steps of one command in a run, in order. */
  ghost function Moments(w: World, steps: seq<Step>, pid: Pid): seq<Moment>
    requires CanRun(w, steps)
    decreases |steps|
  {
    if steps == [] then []
    else
      (if steps[0].AgentStep? && steps[0].pid == pid then [Moment(w, steps[0].luck)] else []) +
      Moments(Apply(w, steps[0]), steps[1..], pid)
  }

  ghost predicate CanRun(w: World, steps: seq<Step>)
    decreases |steps|
  {
    steps == [] || (Enabled(w, steps[0]) && CanRun(Apply(w, steps[0]), steps[1..]))
  }

  lemma {:induction false} RunCanRun(w: World, steps: seq<Step>, v: World)
    requires Run(w, steps, v)
    ensures CanRun(w, steps)
    decreases |steps|
  {
    if steps != [] {
      RunCanRun(Apply(w, steps[0]), steps[1..], v);
    }
  }

  predicate Admitted(h: seq<Moment>) {
    |h| >= 1 && !h[0].luck.raises
  }

  /** A look at the journal name that found, for certain, nothing. */
  predicate SawNoJournal(m: Moment) {
    !m.luck.unclear && m.found.journal.None?
  }

  /** Past the preflight, so that the lease is attempted next. */
  predicate ReachedLease(h: seq<Moment>) {
    Admitted(h) && |h| >= 2 && SawNoJournal(h[1])
  }

  /** The one attempt found the lease held. */
  predicate LeaseRefused(h: seq<Moment>) {
    ReachedLease(h) && |h| >= 3 && !h[2].luck.raises && h[2].found.lease.Some?
  }

  /** The one attempt found the lease free. */
  predicate LeaseTaken(h: seq<Moment>) {
    ReachedLease(h) && |h| >= 3 && !h[2].luck.raises && h[2].found.lease.None?
  }

  /** The owner's advertisement could be looked for, and was built upon if there. */
  predicate LookedForOwner(h: seq<Moment>) {
    LeaseRefused(h) && |h| >= 4 && !h[3].luck.unclear && !h[3].luck.raises
  }

  /** The second look, with the lease in hand, found no journal either. */
  predicate StillNoJournal(h: seq<Moment>) {
    LeaseTaken(h) && |h| >= 4 && !h[3].luck.interrupted && SawNoJournal(h[3])
  }

  predicate BuiltLocal(h: seq<Moment>) {
    StillNoJournal(h) && |h| >= 5 && !h[4].luck.raises
  }

  predicate FailsAs(luck: Luck, code: Code) {
    code == if luck.interrupted then Interrupted else InternalError
  }

  /** An internal error behind which the recorder preserved one of the two online classes. */
  predicate Preserved(luck: Luck) {
    luck.outcome == InternalError && luck.recorded in {Some(OwnerUnavailable), Some(WorkspaceMismatch)}
  }

  /** A handler's outcome is reported as it is, except that a preserved class replaces the internal error. */
  predicate ReportedAs(luck: Luck, code: Code) {
    if Preserved(luck) then luck.recorded == Some(code) else code == luck.outcome
  }

  /** The code a command ends with, place by place where its story can end. */
  predicate Ends(h: seq<Moment>, code: Code) {
    && |h| >= 1
    && (!Admitted(h) ==>
          if h[0].luck.interrupted then code == Interrupted
          else if h[0].luck.outcome in {WorkspaceMismatch, OtherError} then code == h[0].luck.outcome
          else code == InternalError)
    && (Admitted(h) ==> |h| >= 2 && (!SawNoJournal(h[1]) ==> code == InternalError))
    && (ReachedLease(h) ==> |h| >= 3 && (h[2].luck.raises ==> FailsAs(h[2].luck, code)))
    && (LeaseRefused(h) ==> |h| >= 4 && (h[3].luck.unclear || h[3].luck.raises ==> FailsAs(h[3].luck, code)))
    && (LookedForOwner(h) && !h[3].found.advertised ==> code == OwnerUnavailable)
    && (LookedForOwner(h) && h[3].found.advertised ==>
          |h| >= 5 && if h[4].luck.raises then FailsAs(h[4].luck, code) else ReportedAs(h[4].luck, code))
    && (LeaseTaken(h) ==> |h| >= 4 && (h[3].luck.interrupted ==> code == Interrupted) &&
                          (!h[3].luck.interrupted && !SawNoJournal(h[3]) ==> code == InternalError))
    && (StillNoJournal(h) ==> |h| >= 5 && (h[4].luck.raises ==> FailsAs(h[4].luck, code)))
    && (BuiltLocal(h) ==> |h| >= 6 && if h[5].luck.raises then FailsAs(h[5].luck, code) else code == h[5].luck.outcome)
  }

  /** Where a command stands is what its story so far says. */
  ghost predicate Told(h: seq<Moment>, a: Agent) {
    && (a.refused <==> LeaseRefused(h)) && (a.retained <==> BuiltLocal(h))
    && a.acquired == (if LeaseTaken(h) then 1 else 0)
    && match a.pc
       case Admitting => h == []
       case Preflight => Admitted(h) && |h| == 1
       case Leasing => ReachedLease(h) && |h| == 2
       case Routing => LeaseRefused(h) && |h| == 3
       case Running => LookedForOwner(h) && h[3].found.advertised && |h| == 4
       case Rechecking => LeaseTaken(h) && |h| == 3
       case Building => StillNoJournal(h) && |h| == 4
       case Local => BuiltLocal(h) && |h| == 5
       case Undoing(code) => LeaseTaken(h) && Ends(h, code)
       case Finally(code) => Ends(h, code)
       case Done(code) => Ends(h, code)
  }

  predicate Early(pc: Pc) {
    pc.Admitting? || pc.Preflight? || pc.Leasing? || pc.Routing? || pc.Rechecking?
  }

  lemma {:induction false} ToldEarly(h: seq<Moment>, a: Agent, pid: Pid, w: World, luck: Luck)
    requires Told(h, a) && Early(a.pc)
    ensures Told(h + [Moment(w, luck)], Moved(a, pid, w.lease, w.journal, w.advertised, luck).agent)
  {
  }

  lemma {:induction false} ToldLate(h: seq<Moment>, a: Agent, pid: Pid, w: World, luck: Luck)
    requires Told(h, a) && !Early(a.pc)
    ensures Told(h + [Moment(w, luck)], Moved(a, pid, w.lease, w.journal, w.advertised, luck).agent)
  {
  }

  lemma {:induction false} ToldStep(h: seq<Moment>, a: Agent, pid: Pid, w: World, luck: Luck)
    requires Told(h, a)
    ensures Told(h + [Moment(w, luck)], Moved(a, pid, w.lease, w.journal, w.advertised, luck).agent)
  {
    if Early(a.pc) {
      ToldEarly(h, a, pid, w, luck);
    } else {
      ToldLate(h, a, pid, w, luck);
    }
  }

  /** What a command's own steps keep true of its story holds after every run. */
  lemma {:induction false} KeptOn(told: (seq<Moment>, Agent) -> bool, w: World, steps: seq<Step>, v: World, pid: Pid,
      h: seq<Moment>)
    requires forall h, a, w: World, luck | told(h, a) ::
               told(h + [Moment(w, luck)], Moved(a, pid, w.lease, w.journal, w.advertised, luck).agent)
    requires Run(w, steps, v) && CanRun(w, steps) && pid in w.agents && told(h, w.agents[pid])
    ensures pid in v.agents && told(h + Moments(w, steps, pid), v.agents[pid])
    decreases |steps|
  {
    if steps == [] {
      assert h + [] == h;
    } else {
      var u := Apply(w, steps[0]);
      var rest := Moments(u, steps[1..], pid);
      if steps[0].AgentStep? && steps[0].pid == pid {
        KeptOn(told, u, steps[1..], v, pid, h + [Moment(w, steps[0].luck)]);
        assert h + ([Moment(w, steps[0].luck)] + rest) == h + [Moment(w, steps[0].luck)] + rest;
      } else {
        KeptOn(told, u, steps[1..], v, pid, h);
        assert [] + rest == rest;
      }
    }
  }

  lemma {:induction false} ToldKept(pid: Pid)
    ensures forall h, a, w: World, luck | Told(h, a) ::
              Told(h + [Moment(w, luck)], Moved(a, pid, w.lease, w.journal, w.advertised, luck).agent)
  {
    forall h, a, w: World, luck | Told(h, a)
      ensures Told(h + [Moment(w, luck)], Moved(a, pid, w.lease, w.journal, w.advertised, luck).agent)
    {
      ToldStep(h, a, pid, w, luck);
    }
  }

  /** In every run every command is where its own moments put it, and ends with the code they call for: the
      lease decides local or owner, a journal seen or feared refuses, a missing advertisement is
      "owner unavailable", and a handler's outcome is passed on. */
  lemma {:induction false} EveryEndIsExplained(w: World, steps: seq<Step>, v: World, pid: Pid)
    requires Start(w) && Run(w, steps, v) && pid in w.agents
    ensures CanRun(w, steps) && pid in v.agents
    ensures Told(Moments(w, steps, pid), v.agents[pid])
  {
    RunCanRun(w, steps, v);
    ToldKept(pid);
    KeptOn(Told, w, steps, v, pid, []);
    assert [] + Moments(w, steps, pid) == Moments(w, steps, pid);
  }

  /** Success is earned: by the owner's handler behind a refused lease, or by the local one under its own. */
  lemma {:induction false} SuccessIsEarned(w: World, steps: seq<Step>, v: World, pid: Pid)
    requires Start(w) && Run(w, steps, v) && pid in w.agents && pid in v.agents && v.agents[pid].pc == Done(Success)
    ensures CanRun(w, steps)
    ensures var h := Moments(w, steps, pid);
            || (LookedForOwner(h) && h[3].found.advertised && |h| >= 5 && !h[4].luck.raises &&
                h[4].luck.outcome == Success)
            || (BuiltLocal(h) && |h| >= 6 && !h[5].luck.raises && h[5].luck.outcome == Success)
  {
    EveryEndIsExplained(w, steps, v, pid);
  }

  /** Recovery evidence is never consumed: whatever step an agent takes in any run, a pending journal that
      step changes was made by that agent itself. */
  lemma {:induction false} AgentsKeepForeignJournals(w: World, steps: seq<Step>, v: World, step: Step)
    requires Start(w) && Run(w, steps, v) && Enabled(v, step)
    requires step.AgentStep? || step.AgentJournals?
    requires v.journal.Some? && v.journal.value != step.pid
    ensures Apply(v, step).journal == v.journal
  {
    RunInv(w, steps, v);
    assert AgentOk(v.lease, v.journal, step.pid, v.agents[step.pid]);
  }

  /** The agent as it would stand had it skipped the second look. */
  function WithoutRecheck(w: World, pid: Pid): World
    requires pid in w.agents
  {
    w.(agents := w.agents[pid := w.agents[pid].(pc := Building)])
  }

  /** The recheck matters: from any start with a free lease and no journal, a run puts an agent in front of
      another writer's pending journal with the lease in hand, and there building at once would consume it. */
  lemma {:induction false} RecheckIsNeeded(w: World, pid: Pid, writer: Pid)
    requires Start(w) && pid in w.agents && writer !in w.agents && w.lease.None? && w.journal.None?
    ensures exists steps, v ::
              && Run(w, steps, v) && pid in v.agents && v.agents[pid].pc.Rechecking? && v.journal == Some(writer)
              && forall luck :: Advance(WithoutRecheck(v, pid), pid, luck).journal == None
  {
    var luck := Luck(false, false, false, Success, None, true);
    var go := AgentStep(pid, luck);
    var w1 := Apply(w, go);
    var w2 := Apply(w1, go);
    var w3 := Apply(w2, WriterAcquires(writer));
    var w4 := Apply(w3, WriterJournals(writer, true));
    var w5 := Apply(w4, WriterReleases(writer));
    var w6 := Apply(w5, go);
    assert Run(w6, [], w6);
    assert Run(w5, [go], w6) by { assert [go][1..] == []; }
    var tail4 := [WriterReleases(writer), go];
    assert Run(w4, tail4, w6) by { assert tail4[1..] == [go]; }
    var tail3 := [WriterJournals(writer, true)] + tail4;
    assert Run(w3, tail3, w6) by { assert tail3[1..] == tail4; }
    var tail2 := [WriterAcquires(writer)] + tail3;
    assert Run(w2, tail2, w6) by { assert tail2[1..] == tail3; }
    var tail1 := [go] + tail2;
    assert Run(w1, tail1, w6) by { assert tail1[1..] == tail2; }
    var all := [go] + tail1;
    assert Run(w, all, w6) by { assert all[1..] == tail1; }
    assert forall luck :: Advance(WithoutRecheck(w6, pid), pid, luck).journal == None;
  }
}
