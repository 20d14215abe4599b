/** The running-server checkpoint: one POST, at most one identical replay, over a network that may lose or
    delay requests and replies, against an owner that records each Idempotency-Key it has honoured. */
module CheckpointClient {
  import opened Wrappers

  type Key = string

  /** A worklog entry with the key it was written under. */
  datatype Entry = Entry(key: Key, body: string)

  /** One POST: attempt number, Idempotency-Key header, pre-serialized body. */
  datatype Request = Request(attempt: nat, key: Key, body: string)

  /** A reply, reduced to what the client reads: status, the "data" object, and "meta.replayed" when it is a bool. */
  datatype Reply = Reply(attempt: nat, status: int, data: Option<Entry>, replayed: Option<bool>)

  /** How one send ends for the client: an OSError or TimeoutError, or a reply. */
  datatype Attempt = Raised | Replied(reply: Reply)

  datatype Answer = Committed(entry: Entry, replayed: bool) | Unknown | Failed

  function Interpret(reply: Reply): Answer {
    if !(200 <= reply.status < 300) then Failed
    else if reply.data.None? || reply.replayed.None? then Failed
    else Committed(reply.data.value, reply.replayed.value)
  }

  /** What `checkpoint` returns once these sends have ended; None while another send is due. */
  function Outcome(observed: seq<Attempt>): Option<Answer> {
    if observed == [] then None
    else
      match observed[0]
      case Replied(reply) => Some(Interpret(reply))
      case Raised =>
        if |observed| == 1 then None
        else
          match observed[1]
          case Replied(reply) => Some(Interpret(reply))
          case Raised => Some(Unknown)
  }

  /** Owner, network and one client intent. `sent` and `issued` record every POST sent and every reply
      the owner gave to this intent. */
  datatype State = State(
    log: seq<Entry>, ledger: map<Key, Entry>,
    wire: seq<Request>, replies: seq<Reply>,
    sent: seq<Request>, issued: seq<Reply>,
    waiting: bool, observed: seq<Attempt>)

  datatype Intent = Intent(key: Key, body: string)

  /** The owner's freedom: honour a request, refuse one it has no record of, or honour it and answer
      with a payload the client cannot read. */
  datatype Act = Honour | Refuse(status: int) | Mumble

  datatype Step =
    | Send
    | Deliver(request: nat, act: Act)
    | LoseRequest(request: nat)
    | Arrive(reply: nat)
    | LoseReply(reply: nat)
    | GiveUp
    | OtherWrite(entry: Entry)

  function Drop<T>(s: seq<T>, i: nat): seq<T>
    requires i < |s|
  {
    s[..i] + s[i + 1..]
  }

  predicate Enabled(intent: Intent, s: State, step: Step) {
    match step
    case Send => !s.waiting && Outcome(s.observed).None?
    case Deliver(i, act) => i < |s.wire| && (act.Refuse? ==> !(200 <= act.status < 300))
    case LoseRequest(i) => i < |s.wire|
    case Arrive(j) => j < |s.replies|
    case LoseReply(j) => j < |s.replies|
    case GiveUp => s.waiting
    case OtherWrite(entry) => entry.key !in s.ledger && entry.key != intent.key
  }

  /** The owner: a recorded key is replayed before any refusal, and a recorded key with another body conflicts. */
  function Handle(s: State, request: Request, act: Act): (State, Reply)
  {
    if request.key in s.ledger then
      var entry := s.ledger[request.key];
      if entry.body != request.body then (s, Reply(request.attempt, 409, None, None))
      else (s, Reply(request.attempt, 200, if act.Mumble? then None else Some(entry), Some(true)))
    else
      match act
      case Refuse(status) => (s, Reply(request.attempt, status, None, None))
      case _ =>
        var entry := Entry(request.key, request.body);
        (s.(log := s.log + [entry], ledger := s.ledger[request.key := entry]),
         Reply(request.attempt, 201, if act.Mumble? then None else Some(entry), Some(false)))
  }

  function Apply(intent: Intent, s: State, step: Step): State
    requires Enabled(intent, s, step)
  {
    match step
    case Send =>
      var request := Request(|s.sent|, intent.key, intent.body);
      s.(wire := s.wire + [request], sent := s.sent + [request], waiting := true)
    case Deliver(i, act) =>
      var (t, reply) := Handle(s, s.wire[i], act);
      t.(wire := Drop(s.wire, i), replies := s.replies + [reply], issued := s.issued + [reply])
    case LoseRequest(i) => s.(wire := Drop(s.wire, i))
    case Arrive(j) =>
      var t := s.(replies := Drop(s.replies, j));
      // A reply to an abandoned connection reaches nobody.
      if s.waiting && s.replies[j].attempt + 1 == |s.sent| then
        t.(waiting := false, observed := s.observed + [Replied(s.replies[j])])
      else t
    case LoseReply(j) => s.(replies := Drop(s.replies, j))
    case GiveUp => s.(waiting := false, observed := s.observed + [Raised])
    case OtherWrite(entry) => s.(log := s.log + [entry], ledger := s.ledger[entry.key := entry])
  }

  /** The owner's log and ledger agree: one entry per recorded key. */
  ghost predicate Agrees(log: seq<Entry>, ledger: map<Key, Entry>) {
    && (forall i, j | 0 <= i < j < |log| :: log[i].key != log[j].key)
    && (forall e | e in log :: e.key in ledger && ledger[e.key] == e)
    && (forall k | k in ledger :: ledger[k].key == k && ledger[k] in log)
  }

  /** A run starts from any owner state, which may already hold this very key. */
  ghost predicate Start(s: State) {
    && Agrees(s.log, s.ledger)
    && s.wire == [] && s.replies == [] && s.sent == [] && s.issued == []
    && !s.waiting && s.observed == []
  }

  ghost predicate Run(intent: Intent, s: State, steps: seq<Step>, t: State)
    decreases |steps|
  {
    if steps == [] then s == t
    else Enabled(intent, s, steps[0]) && Run(intent, Apply(intent, s, steps[0]), steps[1..], t)
  }

  /** A reply that reads as a commit names this intent's entry, and the owner has it on record. */
  predicate Truthful(intent: Intent, ledger: map<Key, Entry>, reply: Reply) {
    200 <= reply.status < 300 ==>
      && intent.key in ledger && ledger[intent.key] == Entry(intent.key, intent.body)
      && (reply.data.Some? ==> reply.data.value == ledger[intent.key])
  }

  /** The client's side: at most two sends, all alike, a third never due, and no answer before it is earned. */
  ghost predicate ClientInv(intent: Intent, s: State) {
    && |s.sent| == |s.observed| + (if s.waiting then 1 else 0) <= 2
    && (s.waiting ==> Outcome(s.observed).None?)
    && (|s.observed| == 2 ==> s.observed[0].Raised?)
    && (forall i | 0 <= i < |s.sent| :: s.sent[i] == Request(i, intent.key, intent.body))
    && (forall i | 0 <= i < |s.observed| && s.observed[i].Replied? :: s.observed[i].reply.attempt == i)
  }

  /** What travels was sent or issued, and what was received was issued. */
  ghost predicate WireInv(s: State) {
    && (forall r | r in s.wire :: r in s.sent)
    && (forall r | r in s.replies :: r in s.issued)
    && (forall a | a in s.observed && a.Replied? :: a.reply in s.issued)
  }

  /** The owner's side: every reply is truthful, and none claims a fresh write after a success. */
  ghost predicate IssuedInv(intent: Intent, ledger: map<Key, Entry>, issued: seq<Reply>) {
    && (forall i | 0 <= i < |issued| :: Truthful(intent, ledger, issued[i]))
    && (forall i | 0 <= i < |issued| && issued[i].replayed == Some(false) :: 200 <= issued[i].status < 300)
    && (forall i, j | 0 <= i < j < |issued| :: issued[j].replayed != Some(false) || !(200 <= issued[i].status < 300))
  }

  ghost predicate Inv(intent: Intent, s: State) {
    && Agrees(s.log, s.ledger) && ClientInv(intent, s) && WireInv(s) && IssuedInv(intent, s.ledger, s.issued)
  }

  lemma {:induction false} StartInv(intent: Intent, s: State)
    requires Start(s)
    ensures Inv(intent, s)
  {
  }

  lemma {:induction false} AppendAgrees(log: seq<Entry>, ledger: map<Key, Entry>, entry: Entry)
    requires Agrees(log, ledger) && entry.key !in ledger
    ensures Agrees(log + [entry], ledger[entry.key := entry])
  {
  }

  /** A longer ledger keeps every truthful reply truthful. */
  lemma {:induction false} IssuedGrows(intent: Intent, ledger: map<Key, Entry>, issued: seq<Reply>, entry: Entry)
    requires IssuedInv(intent, ledger, issued) && entry.key !in ledger
    ensures IssuedInv(intent, ledger[entry.key := entry], issued)
  {
    forall i | 0 <= i < |issued| ensures Truthful(intent, ledger[entry.key := entry], issued[i]) {
      assert Truthful(intent, ledger, issued[i]);
    }
  }

  lemma {:induction false} IssueOne(intent: Intent, ledger: map<Key, Entry>, issued: seq<Reply>, reply: Reply)
    requires IssuedInv(intent, ledger, issued) && Truthful(intent, ledger, reply)
    requires reply.replayed == Some(false) ==>
               200 <= reply.status < 300 && forall i | 0 <= i < |issued| :: !(200 <= issued[i].status < 300)
    ensures IssuedInv(intent, ledger, issued + [reply])
  {
  }

  lemma {:induction false} HandleInv(intent: Intent, s: State, attempt: nat, act: Act)
    requires Agrees(s.log, s.ledger) && IssuedInv(intent, s.ledger, s.issued)
    requires act.Refuse? ==> !(200 <= act.status < 300)
    ensures var (t, reply) := Handle(s, Request(attempt, intent.key, intent.body), act);
            && Agrees(t.log, t.ledger) && IssuedInv(intent, t.ledger, s.issued + [reply])
            && t == s.(log := t.log, ledger := t.ledger) && s.log <= t.log
  {
    var request := Request(attempt, intent.key, intent.body);
    var (t, reply) := Handle(s, request, act);
    if request.key !in s.ledger && !act.Refuse? {
      var entry := Entry(request.key, request.body);
      AppendAgrees(s.log, s.ledger, entry);
      forall i | 0 <= i < |s.issued| ensures !(200 <= s.issued[i].status < 300) {
        assert Truthful(intent, s.ledger, s.issued[i]);
      }
      IssuedGrows(intent, s.ledger, s.issued, entry);
    }
    IssueOne(intent, t.ledger, s.issued, reply);
  }

  lemma {:induction false} DeliverInv(intent: Intent, s: State, i: nat, act: Act)
    requires Inv(intent, s) && Enabled(intent, s, Deliver(i, act))
    ensures Inv(intent, Apply(intent, s, Deliver(i, act)))
    ensures s.log <= Apply(intent, s, Deliver(i, act)).log
  {
    assert s.wire[i] in s.wire;
    HandleInv(intent, s, s.wire[i].attempt, act);
  }

  lemma {:induction false} ArriveInv(intent: Intent, s: State, j: nat)
    requires Inv(intent, s) && j < |s.replies|
    ensures Inv(intent, Apply(intent, s, Arrive(j)))
  {
    assert s.replies[j] in s.replies;
    var t := Apply(intent, s, Arrive(j));
    assert forall r | r in t.replies :: r in s.replies;
    assert forall a | a in t.observed :: a in s.observed || a == Replied(s.replies[j]);
  }

  lemma {:induction false} OwnSteps(intent: Intent, s: State, step: Step)
    requires Inv(intent, s) && Enabled(intent, s, step) && (step.Send? || step.GiveUp?)
    ensures Inv(intent, Apply(intent, s, step))
  {
    var t := Apply(intent, s, step);
    assert forall a | a in t.observed :: a in s.observed || a == Raised;
    assert forall r | r in t.wire :: r in s.wire || r == t.sent[|t.sent| - 1];
    assert forall r | r in s.sent :: r in t.sent;
  }

  lemma {:induction false} LossInv(intent: Intent, s: State, step: Step)
    requires Inv(intent, s) && Enabled(intent, s, step) && (step.LoseRequest? || step.LoseReply?)
    ensures Inv(intent, Apply(intent, s, step))
  {
    var t := Apply(intent, s, step);
    assert forall r | r in t.wire :: r in s.wire;
    assert forall r | r in t.replies :: r in s.replies;
  }

  lemma {:induction false} StepInv(intent: Intent, s: State, step: Step)
    requires Inv(intent, s) && Enabled(intent, s, step)
    ensures Inv(intent, Apply(intent, s, step))
    ensures s.log <= Apply(intent, s, step).log
  {
    match step
    case Deliver(i, act) => DeliverInv(intent, s, i, act);
    case Arrive(j) => ArriveInv(intent, s, j);
    case OtherWrite(entry) =>
      AppendAgrees(s.log, s.ledger, entry);
      IssuedGrows(intent, s.ledger, s.issued, entry);
    case LoseRequest(_) => LossInv(intent, s, step);
    case LoseReply(_) => LossInv(intent, s, step);
    case Send => OwnSteps(intent, s, step);
    case GiveUp => OwnSteps(intent, s, step);
  }

  lemma {:induction false} RunInv(intent: Intent, s: State, steps: seq<Step>, t: State)
    requires Inv(intent, s) && Run(intent, s, steps, t)
    ensures Inv(intent, t) && s.log <= t.log
    decreases |steps|
  {
    if steps != [] {
      StepInv(intent, s, steps[0]);
      RunInv(intent, Apply(intent, s, steps[0]), steps[1..], t);
    }
  }

  /** In every run: the intent's key heads at most one worklog entry; at most two POSTs go out, alike in
      key and bytes, the second only after the first raised; what a send sees is a reply to that very send;
      "committed" is answered only with this intent's entry, which is in the log; "unknown" is answered exactly
      when both sends raised; at most one reply claims a fresh write; nothing logged is lost. */
  lemma {:induction false} EveryRunIsSafe(intent: Intent, s: State, steps: seq<Step>, t: State)
    requires Start(s) && Run(intent, s, steps, t)
    ensures forall i, j | 0 <= i < j < |t.log| :: !(t.log[i].key == intent.key && t.log[j].key == intent.key)
    ensures |t.sent| <= 2 && forall r | r in t.sent :: r.key == intent.key && r.body == intent.body
    ensures Outcome(t.observed).Some? && Outcome(t.observed).value.Committed? ==>
              Outcome(t.observed).value.entry == Entry(intent.key, intent.body) &&
              Outcome(t.observed).value.entry in t.log
    ensures Outcome(t.observed) == Some(Unknown) <==> t.observed == [Raised, Raised]
    ensures Outcome(t.observed) == Some(Unknown) ==> |t.sent| == 2
    ensures |t.sent| == 2 ==> t.observed != [] && t.observed[0] == Raised
    ensures forall i | 0 <= i < |t.observed| && t.observed[i].Replied? :: t.observed[i].reply.attempt == i
    ensures forall i, j | 0 <= i < j < |t.issued| ::
              !(t.issued[i].replayed == Some(false) && t.issued[j].replayed == Some(false))
    ensures s.log <= t.log
  {
    StartInv(intent, s);
    RunInv(intent, s, steps, t);
    forall i, j | 0 <= i < j < |t.issued|
      ensures !(t.issued[i].replayed == Some(false) && t.issued[j].replayed == Some(false))
    {
      assert 200 <= t.issued[i].status < 300 || t.issued[i].replayed != Some(false);
    }
    if Outcome(t.observed).Some? && Outcome(t.observed).value.Committed? {
      var last := if t.observed[0].Replied? then t.observed[0] else t.observed[1];
      assert last in t.observed && last.reply in t.issued;
      var k :| 0 <= k < |t.issued| && t.issued[k] == last.reply;
      assert Truthful(intent, t.ledger, t.issued[k]);
    }
  }

  /** How many steps of a run are of this kind. */
  ghost function Count(steps: seq<Step>, kind: Step -> bool): nat {
    if steps == [] then 0 else (if kind(steps[0]) then 1 else 0) + Count(steps[1..], kind)
  }

  lemma {:induction false} Balance(intent: Intent, s: State, steps: seq<Step>, t: State, lost: Step -> bool,
      off: Step -> bool)
    requires Run(intent, s, steps, t)
    requires forall step :: lost(step) == step.LoseRequest?
    requires forall step :: off(step) == (step.LoseReply? || step.Arrive?)
    ensures |t.sent| - |t.issued| - |t.wire| == |s.sent| - |s.issued| - |s.wire| + Count(steps, lost)
    ensures |t.issued| - |t.replies| == |s.issued| - |s.replies| + Count(steps, off)
    decreases |steps|
  {
    if steps != [] {
      Balance(intent, Apply(intent, s, steps[0]), steps[1..], t, lost, off);
    }
  }

  /** Nothing is duplicated and nothing vanishes: every request sent was answered by the owner once, was lost,
      or is still under way; and every reply given has arrived, was lost, or is still under way. */
  lemma {:induction false} EachOnce(intent: Intent, s: State, steps: seq<Step>, t: State)
    requires Start(s) && Run(intent, s, steps, t)
    ensures |t.sent| == |t.issued| + |t.wire| + Count(steps, (step: Step) => step.LoseRequest?)
    ensures |t.issued| == |t.replies| + Count(steps, (step: Step) => step.LoseReply? || step.Arrive?)
  {
    Balance(intent, s, steps, t, (step: Step) => step.LoseRequest?, (step: Step) => step.LoseReply? || step.Arrive?);
  }

  lemma {:induction false} LoggedStays(intent: Intent, s: State, steps: seq<Step>, t: State, k: nat)
    requires Inv(intent, s) && Run(intent, s, steps, t) && k < |steps| && steps[k].OtherWrite?
    ensures steps[k].entry in t.log
    decreases |steps|
  {
    var u := Apply(intent, s, steps[0]);
    StepInv(intent, s, steps[0]);
    if k > 0 {
      LoggedStays(intent, u, steps[1..], t, k - 1);
    } else {
      assert u.log[|s.log|] == steps[0].entry;
      RunInv(intent, u, steps[1..], t);
    }
  }

  /** Whatever another writer wrote during the run is in the log at its end. */
  lemma {:induction false} OthersAreKept(intent: Intent, s: State, steps: seq<Step>, t: State, k: nat)
    requires Start(s) && Run(intent, s, steps, t) && k < |steps| && steps[k].OtherWrite?
    ensures steps[k].entry in t.log
  {
    StartInv(intent, s);
    LoggedStays(intent, s, steps, t, k);
  }

  /** The attempt that decides: the first, unless it raised. */
  function Deciding(observed: seq<Attempt>): Option<Attempt> {
    if observed != [] && observed[0].Replied? then Some(observed[0])
    else if |observed| > 1 then Some(observed[1])
    else None
  }

  /** How sends become an answer: none before one is decided; "committed" for a status from 200 to 299 with both
      the entry and a boolean "replayed", which are passed on; "unknown" for a second failure to get a reply;
      "failed" for every other reply. */
  lemma {:induction false} AnswerMeans(observed: seq<Attempt>, answer: Answer)
    ensures Outcome(observed) == Some(answer) <==>
              match Deciding(observed)
              case None => false
              case Some(Raised) => answer == Unknown
              case Some(Replied(reply)) =>
                if 200 <= reply.status <= 299 && reply.data.Some? && reply.replayed.Some?
                then answer == Committed(reply.data.value, reply.replayed.value)
                else answer == Failed
  {
  }

  lemma {:induction false} RunAppend(intent: Intent, s: State, steps: seq<Step>, t: State, step: Step)
    requires Run(intent, s, steps, t) && Enabled(intent, t, step)
    ensures Run(intent, s, steps + [step], Apply(intent, t, step))
    decreases |steps|
  {
    if steps == [] {
      assert ([] + [step])[1..] == [];
    } else {
      assert (steps + [step])[1..] == steps[1..] + [step];
      RunAppend(intent, Apply(intent, s, steps[0]), steps[1..], t, step);
    }
  }

  /** "Unknown" claims no more than it should: from any start in which the key is new, one run ends
      unknown with the entry in the log and another ends unknown without it. */
  lemma {:induction false} UnknownIsHonest(intent: Intent, s: State)
    requires Start(s) && intent.key !in s.ledger
    ensures exists steps, t :: Run(intent, s, steps, t) && Outcome(t.observed) == Some(Unknown) &&
                               Entry(intent.key, intent.body) in t.log
    ensures exists steps, t :: Run(intent, s, steps, t) && Outcome(t.observed) == Some(Unknown) &&
                               Entry(intent.key, intent.body) !in t.log
  {
    var s1 := Apply(intent, s, Send);
    RunAppend(intent, s, [], s, Send);
    var s2 := Apply(intent, s1, GiveUp);
    RunAppend(intent, s, [] + [Send], s1, GiveUp);
    var s3 := Apply(intent, s2, Send);
    RunAppend(intent, s, [] + [Send] + [GiveUp], s2, Send);
    var s4 := Apply(intent, s3, GiveUp);
    RunAppend(intent, s, [] + [Send] + [GiveUp] + [Send], s3, GiveUp);
    var steps := [] + [Send] + [GiveUp] + [Send] + [GiveUp];
    assert s4.observed == [Raised, Raised] && s4.log == s.log;
    assert Entry(intent.key, intent.body) !in s4.log;
    // A request still on the wire arrives after the client has given up.
    var late := Deliver(0, Honour);
    var s5 := Apply(intent, s4, late);
    RunAppend(intent, s, steps, s4, late);
    assert Entry(intent.key, intent.body) in s5.log;
    assert Run(intent, s, steps + [late], s5);
  }

  /** Nothing lost: the first send commits, with "replayed" telling whether the key was already recorded. */
  lemma {:induction false} CalmRunCommits(intent: Intent, s: State, t: State)
    requires Start(s)
    requires intent.key in s.ledger ==> s.ledger[intent.key].body == intent.body
    requires Run(intent, s, [Send, Deliver(0, Honour), Arrive(0)], t)
    ensures Outcome(t.observed) == Some(Committed(Entry(intent.key, intent.body), intent.key in s.ledger))
    ensures t.log == if intent.key in s.ledger then s.log else s.log + [Entry(intent.key, intent.body)]
  {
    var steps := [Send, Deliver(0, Honour), Arrive(0)];
    assert steps[1..] == [Deliver(0, Honour), Arrive(0)];
    assert steps[1..][1..] == [Arrive(0)] && steps[1..][1..][1..] == [];
  }

  lemma {:induction false} RunFrom(intent: Intent, s: State, steps: seq<Step>, k: nat, t: State)
    requires k < |steps| && Run(intent, s, steps[k..], t)
    ensures Enabled(intent, s, steps[k]) && Run(intent, Apply(intent, s, steps[k]), steps[k + 1..], t)
  {
    assert steps[k..][1..] == steps[k + 1..];
  }

  /** Four steps in, the entry is written and recorded, its reply is gone, and the client has seen one failure. */
  lemma {:induction false} ReplyLost(intent: Intent, s: State, steps: seq<Step>, t: State) returns (m: State)
    requires Start(s) && intent.key !in s.ledger && |steps| > 4
    requires steps[..4] == [Send, Deliver(0, Honour), LoseReply(0), GiveUp] && Run(intent, s, steps, t)
    ensures Run(intent, m, steps[4..], t)
    ensures var entry := Entry(intent.key, intent.body);
            m.log == s.log + [entry] && m.ledger == s.ledger[intent.key := entry]
    ensures m.wire == [] && m.replies == [] && |m.sent| == 1 && !m.waiting && m.observed == [Raised]
  {
    assert steps[0..] == steps && steps[0] == steps[..4][0] && steps[1] == steps[..4][1];
    assert steps[2] == steps[..4][2] && steps[3] == steps[..4][3];
    RunFrom(intent, s, steps, 0, t);
    m := Apply(intent, s, Send);
    RunFrom(intent, m, steps, 1, t);
    m := Apply(intent, m, Deliver(0, Honour));
    RunFrom(intent, m, steps, 2, t);
    m := Apply(intent, m, LoseReply(0));
    RunFrom(intent, m, steps, 3, t);
    m := Apply(intent, m, GiveUp);
  }

  /** From there a second send that nothing befalls is answered with the entry on record. */
  lemma {:induction false} ReplayAnswered(intent: Intent, m: State, steps: seq<Step>, t: State)
    requires steps == [Send, Deliver(0, Honour), Arrive(0)] && Run(intent, m, steps, t)
    requires m.wire == [] && m.replies == [] && |m.sent| == 1 && !m.waiting && m.observed == [Raised]
    requires intent.key in m.ledger && m.ledger[intent.key] == Entry(intent.key, intent.body)
    ensures Outcome(t.observed) == Some(Committed(Entry(intent.key, intent.body), true))
    ensures t.log == m.log && |t.sent| == 2
  {
    assert steps[0..] == steps;
    RunFrom(intent, m, steps, 0, t);
    var n := Apply(intent, m, Send);
    RunFrom(intent, n, steps, 1, t);
    n := Apply(intent, n, Deliver(0, Honour));
    RunFrom(intent, n, steps, 2, t);
  }

  /** A lost reply costs nothing: the identical replay answers "committed" with the entry the first send wrote. */
  lemma {:induction false} ReplayRecovers(intent: Intent, s: State, t: State)
    requires Start(s) && intent.key !in s.ledger
    requires Run(intent, s, [Send, Deliver(0, Honour), LoseReply(0), GiveUp, Send, Deliver(0, Honour), Arrive(0)], t)
    ensures Outcome(t.observed) == Some(Committed(Entry(intent.key, intent.body), true))
    ensures t.log == s.log + [Entry(intent.key, intent.body)] && |t.sent| == 2
  {
    var steps := [Send, Deliver(0, Honour), LoseReply(0), GiveUp, Send, Deliver(0, Honour), Arrive(0)];
    var m := ReplyLost(intent, s, steps, t);
    ReplayAnswered(intent, m, steps[4..], t);
  }

  // ---- the third answer ----

  predicate Success(reply: Reply) {
    200 <= reply.status < 300
  }

  /** The owner has answered this intent, and never with a success. */
  ghost predicate OnlyRefused(issued: seq<Reply>) {
    issued != [] && forall i | 0 <= i < |issued| :: !Success(issued[i])
  }

  /** No request is handled twice, and an owner that only ever refused this intent has not written it. */
  ghost predicate RefusalInv(intent: Intent, s: State) {
    && |s.wire| + |s.issued| <= |s.sent|
    && (OnlyRefused(s.issued) ==> Entry(intent.key, intent.body) !in s.log)
  }

  lemma {:induction false} RefusedUnwritten(intent: Intent, s: State, attempt: nat, act: Act)
    requires Agrees(s.log, s.ledger) && (act.Refuse? ==> !(200 <= act.status < 300))
    ensures var (t, reply) := Handle(s, Request(attempt, intent.key, intent.body), act);
            !Success(reply) ==> Entry(intent.key, intent.body) !in t.log
  {
  }

  lemma {:induction false} RefusalStep(intent: Intent, s: State, step: Step)
    requires Inv(intent, s) && RefusalInv(intent, s) && Enabled(intent, s, step)
    ensures RefusalInv(intent, Apply(intent, s, step))
  {
    if step.Deliver? {
      assert s.wire[step.request] in s.wire;
      RefusedUnwritten(intent, s, s.wire[step.request].attempt, step.act);
      var t := Apply(intent, s, step);
      if OnlyRefused(t.issued) {
        assert !Success(t.issued[|s.issued|]);
      }
    }
  }

  lemma {:induction false} RefusalRun(intent: Intent, s: State, steps: seq<Step>, t: State)
    requires Inv(intent, s) && RefusalInv(intent, s) && Run(intent, s, steps, t)
    ensures Inv(intent, t) && RefusalInv(intent, t)
    decreases |steps|
  {
    if steps != [] {
      StepInv(intent, s, steps[0]);
      RefusalStep(intent, s, steps[0]);
      RefusalRun(intent, Apply(intent, s, steps[0]), steps[1..], t);
    }
  }

  /** A reply with a success status was read as a failure only for its payload: the entry is in the log. Any
      other status on the first and only send excludes the entry. */
  lemma {:induction false} FailedMeans(intent: Intent, s: State, steps: seq<Step>, t: State)
    requires Start(s) && Run(intent, s, steps, t) && Outcome(t.observed) == Some(Failed)
    ensures var last := t.observed[|t.observed| - 1];
            && last.Replied?
            && (Success(last.reply) ==> Entry(intent.key, intent.body) in t.log)
            && (!Success(last.reply) && |t.sent| == 1 ==> Entry(intent.key, intent.body) !in t.log)
  {
    StartInv(intent, s);
    RefusalRun(intent, s, steps, t);
    var last := t.observed[|t.observed| - 1];
    assert last in t.observed && last.reply in t.issued;
    var k :| 0 <= k < |t.issued| && t.issued[k] == last.reply;
    assert Truthful(intent, t.ledger, t.issued[k]);
  }

  /** What the client has seen when its second send is refused. */
  function RefusedReplay(status: int): seq<Attempt> {
    [Raised, Replied(Reply(1, status, None, None))]
  }

  /** Two sends out, both still on the wire, and the first given up. */
  lemma {:induction false} BothOut(intent: Intent, s: State) returns (steps: seq<Step>, m: State)
    requires Start(s)
    ensures Run(intent, s, steps, m)
    ensures m.log == s.log && m.ledger == s.ledger && m.observed == [Raised] && m.waiting && m.replies == []
    ensures m.wire == m.sent == [Request(0, intent.key, intent.body), Request(1, intent.key, intent.body)]
  {
    steps, m := [], s;
    RunAppend(intent, s, steps, m, Send);
    steps, m := steps + [Send], Apply(intent, m, Send);
    RunAppend(intent, s, steps, m, GiveUp);
    steps, m := steps + [GiveUp], Apply(intent, m, GiveUp);
    RunAppend(intent, s, steps, m, Send);
    steps, m := steps + [Send], Apply(intent, m, Send);
  }

  /** The refused replay, with the first request still on the wire. */
  lemma {:induction false} ReplayRefused(intent: Intent, s: State, status: int) returns (steps: seq<Step>, m: State)
    requires Start(s) && intent.key !in s.ledger && !(200 <= status < 300)
    ensures Run(intent, s, steps, m)
    ensures m.log == s.log && m.ledger == s.ledger && m.observed == RefusedReplay(status)
    ensures m.wire == [Request(0, intent.key, intent.body)]
  {
    steps, m := BothOut(intent, s);
    RunAppend(intent, s, steps, m, Deliver(1, Refuse(status)));
    steps, m := steps + [Deliver(1, Refuse(status))], Apply(intent, m, Deliver(1, Refuse(status)));
    assert m.wire == [Request(0, intent.key, intent.body)];
    RunAppend(intent, s, steps, m, Arrive(0));
    steps, m := steps + [Arrive(0)], Apply(intent, m, Arrive(0));
  }

  /** After a replay a refusal decides nothing: from every start in which the key is new and for every
      refusing status, the client can see the very same thing with the entry in the log and without it, since
      the first POST may arrive late. So `FailedMeans` gives the exact condition under which "failed"
      excludes the entry: one send, and a status outside 200 to 299. */
  lemma {:induction false} RefusedReplayDecidesNothing(intent: Intent, s: State, status: int)
    requires Start(s) && intent.key !in s.ledger && !(200 <= status < 300)
    ensures Outcome(RefusedReplay(status)) == Some(Failed)
    ensures exists steps, t :: Run(intent, s, steps, t) && t.observed == RefusedReplay(status) &&
                               Entry(intent.key, intent.body) in t.log
    ensures exists steps, t :: Run(intent, s, steps, t) && t.observed == RefusedReplay(status) &&
                               Entry(intent.key, intent.body) !in t.log
  {
    var steps, m := ReplayRefused(intent, s, status);
    assert Entry(intent.key, intent.body) !in m.log;
    var late := Deliver(0, Honour);
    RunAppend(intent, s, steps, m, late);
    var t := Apply(intent, m, late);
    assert Entry(intent.key, intent.body) in t.log;
  }
}
