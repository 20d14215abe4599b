/** The default view of `agent context`: this Task's recent worklog, newest first, cut to fit one envelope. */
module CoreContext {
  import opened Wrappers
  import opened Orders
  import opened Text
  import opened Calendar
  import opened Shrinking

  const MAX_ENTRIES: nat := 5
  const ENVELOPE_MAX_BYTES: nat := 32768

  /** A worklog entry from the backend; `date` is None when it is missing or no string. */
  datatype Entry = Entry(task: string, date: Option<string>, body: string)

  // ---- the window ----

  /** `fromisoformat`, kept only when `isoformat` gives the same text back. */
  function ReadDate(text: string): Option<Date> {
    if |text| != 10 then None
    else
      match (Number(text[..4]), Number(text[5..7]), Number(text[8..]))
      case (Some(y), Some(m), Some(d)) =>
        var date := Date(y, m, d);
        if Valid(date) && Format(date) == text then Some(date) else None
      case _ => None
  }

  lemma {:induction false} ReadsCanonical(text: string, d: Date)
    ensures ReadDate(text) == Some(d) <==> Canonical(text, d)
  {
    if Canonical(text, d) {
      FormatParts(d);
      var (y, m, n) := (Padded(d.year, 4), Padded(d.month, 2), Padded(d.day, 2));
      assert text == y + "-" + m + "-" + n;
      assert text[..4] == y && text[5..7] == m && text[8..] == n;
      DigitsValuePadded(d.year, 4);
      DigitsValuePadded(d.month, 2);
      DigitsValuePadded(d.day, 2);
    }
  }

  predicate InWindow(e: Entry, task: string, today: Date) {
    && e.task == task && e.date.Some? && ReadDate(e.date.value).Some?
    && var d := ReadDate(e.date.value).value;
       Ordinal(today) - 30 <= Ordinal(d) <= Ordinal(today)
  }

  /** An entry that passed the filter. */
  datatype Dated = Dated(date: string, body: string)

  function Kept(entries: seq<Entry>, task: string, today: Date): (r: seq<Dated>)
    ensures forall x :: x in r <==>
              exists e :: e in entries && InWindow(e, task, today) && x == Dated(e.date.value, e.body)
  {
    if entries == [] then []
    else
      var front, last := Kept(entries[..|entries| - 1], task, today), entries[|entries| - 1];
      assert forall e :: e in entries <==> e in entries[..|entries| - 1] || e == last;
      if InWindow(last, task, today) then front + [Dated(last.date.value, last.body)] else front
  }

  predicate Newer(a: Dated, b: Dated) {
    TextLess(b.date, a.date)
  }

  /** `sort(reverse=True)` by date: newest first, entries of one date in their original order. */
  function NewestFirst(entries: seq<Dated>): (r: seq<Dated>)
    ensures multiset(r) == multiset(entries) && |r| == |entries| && Sorted(Newer, r)
  {
    assert StrictWeak(Newer) by { TextLessTotal(); }
    SortBy(Newer, entries)
  }

  /** `_filter_entries`; None when the window's lower end is before the first date of the calendar. */
  function Filtered(entries: seq<Entry>, task: string, today: Date): Option<seq<Dated>> {
    if Ordinal(today) - 30 < 1 then None else Some(NewestFirst(Kept(entries, task, today)))
  }

  method FilterEntries(entries: seq<Entry>, task: string, today: Date) returns (r: Option<seq<Dated>>)
    ensures r == Filtered(entries, task, today)
  {
    if Ordinal(today) - 30 < 1 {
      return None;
    }
    var result: seq<Dated> := [];
    for i := 0 to |entries|
      invariant result == Kept(entries[..i], task, today)
    {
      assert entries[..i + 1][..i] == entries[..i];
      if InWindow(entries[i], task, today) {
        result := result + [Dated(entries[i].date.value, entries[i].body)];
      }
    }
    assert entries[..|entries|] == entries;
    return Some(NewestFirst(result));
  }

  ghost predicate Reviews(entries: seq<Entry>, task: string, today: Date, x: Dated)
    requires Valid(today)
  {
    exists e :: e in entries && e.task == task && e.date.Some? && e.date.value in Reviewed(today) &&
                x == Dated(e.date.value, e.body)
  }

  lemma {:induction false} KeptAreReviewed(entries: seq<Entry>, task: string, today: Date, x: Dated)
    requires Valid(today) && LocalWindowExists(today)
    ensures x in Kept(entries, task, today) <==> Reviews(entries, task, today, x)
  {
    forall e | e in entries && e.date.Some?
      ensures InWindow(e, task, today) <==> e.task == task && e.date.value in Reviewed(today)
    {
      WindowIsReviewed(e, task, today);
    }
  }

  lemma {:induction false} SortedSameMembers(entries: seq<Dated>, x: Dated)
    ensures x in NewestFirst(entries) <==> x in entries
  {
    assert x in multiset(NewestFirst(entries)) <==> x in multiset(entries);
  }

  /** No entry's date is smaller than that of a later one. */
  ghost predicate NewestComesFirst(entries: seq<Dated>) {
    forall i, j | 0 <= i < j < |entries| :: !TextLess(entries[i].date, entries[j].date)
  }

  /** The filter keeps this Task's entries of exactly the 31 dates the transport reviews, newest first. */
  lemma {:induction false} FilterKeepsReviewedDates(entries: seq<Entry>, task: string, today: Date)
    requires Valid(today)
    ensures Filtered(entries, task, today).Some? <==> LocalWindowExists(today)
    ensures Filtered(entries, task, today).Some? ==>
              && Sorted(Newer, Filtered(entries, task, today).value)
              && NewestComesFirst(Filtered(entries, task, today).value)
              && forall x :: x in Filtered(entries, task, today).value <==> Reviews(entries, task, today, x)
  {
    LocalWindowFrom(today);
    if Filtered(entries, task, today).Some? {
      forall x ensures x in Filtered(entries, task, today).value <==> Reviews(entries, task, today, x) {
        KeptAreReviewed(entries, task, today, x);
        SortedSameMembers(Kept(entries, task, today), x);
      }
    }
  }

  /** What the filter shows of entries of one date. */
  function Shown(entries: seq<Entry>, date: string): (r: seq<Dated>)
    ensures |r| == |entries| && forall i | 0 <= i < |r| :: r[i] == Dated(date, entries[i].body)
  {
    Mapped((e: Entry) => Dated(date, e.body), entries)
  }

  lemma {:induction false} KeptStep(front: seq<Entry>, last: Entry, task: string, today: Date, date: string,
      onDate: Dated -> bool)
    requires forall x :: onDate(x) == (x.date == date)
    ensures Where(onDate, Kept(front + [last], task, today)) ==
            Where(onDate, Kept(front, task, today)) +
            (if InWindow(last, task, today) && last.date == Some(date) then [Dated(date, last.body)] else [])
  {
    assert (front + [last])[..|front|] == front;
    if InWindow(last, task, today) {
      WhereLast(onDate, Kept(front, task, today), Dated(last.date.value, last.body));
    }
  }

  lemma {:induction false} ShownStep(front: seq<Entry>, last: Entry, date: string, own: Entry -> bool)
    ensures Shown(Where(own, front + [last]), date) ==
            Shown(Where(own, front), date) + (if own(last) then [Dated(date, last.body)] else [])
  {
    WhereLast(own, front, last);
  }

  lemma {:induction false} OnDate(e: Entry, task: string, today: Date, date: string)
    requires Valid(today) && LocalWindowExists(today)
    ensures InWindow(e, task, today) && e.date == Some(date) <==>
              e.task == task && e.date == Some(date) && date in Reviewed(today)
  {
    if e.date.Some? {
      WindowIsReviewed(e, task, today);
    }
  }

  lemma {:induction false} KeptOnDate(entries: seq<Entry>, task: string, today: Date, date: string,
      onDate: Dated -> bool, own: Entry -> bool)
    requires Valid(today) && LocalWindowExists(today)
    requires forall x :: onDate(x) == (x.date == date)
    requires forall e :: own(e) == (e.task == task && e.date == Some(date))
    ensures Where(onDate, Kept(entries, task, today)) ==
            if date in Reviewed(today) then Shown(Where(own, entries), date) else []
  {
    if entries != [] {
      var front, last := entries[..|entries| - 1], entries[|entries| - 1];
      assert entries == front + [last];
      KeptOnDate(front, task, today, date, onDate, own);
      KeptStep(front, last, task, today, date, onDate);
      ShownStep(front, last, date, own);
      OnDate(last, task, today, date);
    }
  }

  /** No entry is lost, repeated or moved past another of its date: on each reviewed date the filter shows this
      Task's entries as often and in the order in which the backend gave them, and on any other date none. */
  lemma {:induction false} FilterIsStable(entries: seq<Entry>, task: string, today: Date, date: string)
    requires Valid(today) && Filtered(entries, task, today).Some?
    ensures Where((x: Dated) => x.date == date, Filtered(entries, task, today).value) ==
            if date in Reviewed(today)
            then Shown(Where((e: Entry) => e.task == task && e.date == Some(date), entries), date) else []
  {
    var onDate := (x: Dated) => x.date == date;
    var own := (e: Entry) => e.task == task && e.date == Some(date);
    TextLessTotal();
    LocalWindowFrom(today);
    assert StrictWeak(Newer) && Level(Newer, onDate);
    SortStable(Newer, onDate, Kept(entries, task, today));
    KeptOnDate(entries, task, today, date, onDate, own);
  }

  lemma {:induction false} WindowIsReviewed(e: Entry, task: string, today: Date)
    requires Valid(today) && LocalWindowExists(today) && e.date.Some?
    ensures InWindow(e, task, today) <==> e.task == task && e.date.value in Reviewed(today)
  {
    ReviewedIsHandler(today, e.date.value);
    if HandlerKeeps(today, e.date.value) {
      var d :| Canonical(e.date.value, d) && Ordinal(today) - 30 <= Ordinal(d) <= Ordinal(today);
      ReadsCanonical(e.date.value, d);
    }
    if ReadDate(e.date.value).Some? {
      ReadsCanonical(e.date.value, ReadDate(e.date.value).value);
    }
  }

  // ---- the envelope ----

  /** `core` stands for the Task projection and the fixed omission categories. */
  datatype Data = Data(workspace: string, core: string, worklog: seq<Dated>, overflow: bool)

  datatype MetaValue = Text(text: string) | Flag(flag: bool)

  datatype Envelope = Envelope(contract: string, data: Data, meta: map<string, MetaValue>)

  /** Canonical JSON of an envelope, encoded, without the final newline. */
  type Dump = Envelope -> seq<bv8>

  datatype Outcome = Outcome(
    command: string, data: Data, commitState: Option<string>, intentId: Option<string>, replayed: Option<bool>,
    taskId: Option<string>, transport: Option<string>, workspace: Option<string>)

  const CONTRACT: string := "workstack.cli.v1"
  const COMMAND: string := "agent.context"

  /** The handler's private estimate. */
  function EstimatedBytes(dump: Dump, data: Data, task: string, transport: string, workspace: string): nat {
    |dump(Envelope(CONTRACT, data,
                   map["command" := Text(COMMAND), "task_id" := Text(task), "transport" := Text(transport),
                       "workspace_uid" := Text(workspace)]))| + 1
  }

  /** The attributes `_outcome_meta` copies, in its order, as far as they are set. */
  function Attributes(o: Outcome): seq<(string, Option<MetaValue>)> {
    [("commit_state", Lift(o.commitState)), ("intent_id", Lift(o.intentId)),
     ("replayed", if o.replayed.Some? then Some(Flag(o.replayed.value)) else None),
     ("task_id", Lift(o.taskId)), ("transport", Lift(o.transport)), ("workspace_uid", Lift(o.workspace))]
  }

  function Lift(s: Option<string>): Option<MetaValue> {
    if s.Some? then Some(Text(s.value)) else None
  }

  function WithSet(meta: map<string, MetaValue>, attributes: seq<(string, Option<MetaValue>)>): map<string, MetaValue>
    decreases |attributes|
  {
    if attributes == [] then meta
    else
      var (name, value) := attributes[0];
      WithSet(if value.Some? then meta[name := value.value] else meta, attributes[1..])
  }

  method OutcomeMeta(o: Outcome) returns (meta: map<string, MetaValue>)
    ensures meta == WithSet(map["command" := Text(o.command)], Attributes(o))
  {
    meta := map["command" := Text(o.command)];
    var attributes := Attributes(o);
    var i := 0;
    assert attributes[0..] == attributes;
    while i < |attributes|
      invariant 0 <= i <= |attributes|
      invariant WithSet(meta, attributes[i..]) == WithSet(map["command" := Text(o.command)], attributes)
    {
      assert attributes[i..][1..] == attributes[i + 1..];
      if attributes[i].1.Some? {
        meta := meta[attributes[i].0 := attributes[i].1.value];
      }
      i := i + 1;
    }
  }

  lemma {:induction false} SetOne(meta: map<string, MetaValue>, attributes: seq<(string, Option<MetaValue>)>,
      name: string)
    requires forall i, j | 0 <= i < j < |attributes| :: attributes[i].0 != attributes[j].0
    ensures (forall i | 0 <= i < |attributes| :: attributes[i].0 != name) ==>
              (name in WithSet(meta, attributes) <==> name in meta) &&
              (name in meta ==> WithSet(meta, attributes)[name] == meta[name])
    ensures forall i | 0 <= i < |attributes| && attributes[i].0 == name && name !in meta ::
              Held(WithSet(meta, attributes), name) == attributes[i].1
    decreases |attributes|
  {
    if attributes != [] {
      var (first, value) := attributes[0];
      var rest := attributes[1..];
      assert forall i | 0 <= i < |rest| :: rest[i] == attributes[i + 1];
      SetOne(if value.Some? then meta[first := value.value] else meta, rest, name);
    }
  }

  function Held(meta: map<string, MetaValue>, name: string): Option<MetaValue> {
    if name in meta then Some(meta[name]) else None
  }

  const NAMES: seq<string> := ["commit_state", "intent_id", "replayed", "task_id", "transport", "workspace_uid"]

  lemma {:induction false} DistinctNames()
    ensures |NAMES| == 6 && (forall i, j | 0 <= i < j < 6 :: NAMES[i] != NAMES[j])
    ensures forall i | 0 <= i < 6 :: NAMES[i] != "command"
  {
    assert |"commit_state"| == 12 && |"intent_id"| == 9 && |"replayed"| == 8 && |"task_id"| == 7;
    assert |"transport"| == 9 && |"workspace_uid"| == 13 && |"command"| == 7;
    assert "intent_id"[0] == 'i' && "transport"[0] == 't' && "task_id"[0] == 't' && "command"[0] == 'c';
  }

  /** Each attribute is in the metadata under its own name exactly when it is set, and nothing else is. */
  lemma {:induction false} MetaMeans(o: Outcome, name: string)
    ensures var meta := WithSet(map["command" := Text(o.command)], Attributes(o));
            Held(meta, name) ==
            if name == "command" then Some(Text(o.command))
            else if name == "commit_state" then Lift(o.commitState)
            else if name == "intent_id" then Lift(o.intentId)
            else if name == "replayed" then (if o.replayed.Some? then Some(Flag(o.replayed.value)) else None)
            else if name == "task_id" then Lift(o.taskId)
            else if name == "transport" then Lift(o.transport)
            else if name == "workspace_uid" then Lift(o.workspace)
            else None
  {
    var a := Attributes(o);
    DistinctNames();
    assert forall i | 0 <= i < 6 :: a[i].0 == NAMES[i];
    SetOne(map["command" := Text(o.command)], a, name);
    assert a[0].0 == "commit_state" && a[1].0 == "intent_id" && a[2].0 == "replayed";
    assert a[3].0 == "task_id" && a[4].0 == "transport" && a[5].0 == "workspace_uid";
  }

  /** The renderer's bytes for a success, before its own size check. */
  function RenderedBytes(dump: Dump, o: Outcome): seq<bv8> {
    dump(Envelope(CONTRACT, o.data, WithSet(map["command" := Text(o.command)], Attributes(o)))) + [10]
  }

  function ContextOutcome(data: Data, task: string, transport: string, workspace: string): Outcome {
    Outcome(COMMAND, data, None, None, None, Some(task), Some(transport), Some(workspace))
  }

  /** The private estimate is the renderer's byte count. */
  lemma {:induction false} EstimateIsExact(dump: Dump, data: Data, task: string, transport: string, workspace: string)
    ensures EstimatedBytes(dump, data, task, transport, workspace) ==
            |RenderedBytes(dump, ContextOutcome(data, task, transport, workspace))|
  {
    var o := ContextOutcome(data, task, transport, workspace);
    var a := Attributes(o);
    var m := map["command" := Text(COMMAND)];
    assert a[1..] == [("intent_id", None), ("replayed", None), a[3], a[4], a[5]];
    assert a[1..][1..] == [("replayed", None), a[3], a[4], a[5]];
    assert a[1..][1..][1..] == [a[3], a[4], a[5]];
    assert [a[3], a[4], a[5]][1..] == [a[4], a[5]] && [a[4], a[5]][1..] == [a[5]] && [a[5]][1..] == [];
    assert WithSet(m, a) == WithSet(m, a[1..]) == WithSet(m, a[1..][1..]) == WithSet(m, [a[3], a[4], a[5]]);
    var m1 := m["task_id" := Text(task)];
    var m2 := m1["transport" := Text(transport)];
    var m3 := m2["workspace_uid" := Text(workspace)];
    assert WithSet(m, [a[3], a[4], a[5]]) == WithSet(m1, [a[4], a[5]]) == WithSet(m2, [a[5]]) == WithSet(m3, []) == m3;
    assert m3 == map["command" := Text(COMMAND), "task_id" := Text(task), "transport" := Text(transport),
                     "workspace_uid" := Text(workspace)];
  }

  // ---- the core answer ----

  datatype Answer = Fits(data: Data) | TooLarge

  /** The data after `k` entries have been popped: any pop raises the overflow marker. */
  function Popped(data: Data): nat -> Data {
    (k: nat) =>
      if k <= |data.worklog|
      then data.(worklog := data.worklog[..|data.worklog| - k], overflow := data.overflow || k > 0)
      else data
  }

  /** `_core_outcome`. */
  function CoreAnswer(data: Data, size: Data -> nat): Answer {
    if size(data.(worklog := [])) > ENVELOPE_MAX_BYTES then TooLarge
    else
      var (q, fits) := FirstFit(Popped(data), size, ENVELOPE_MAX_BYTES, |data.worklog|, 0);
      if fits then Fits(q) else TooLarge
  }

  /** The mapping the loop pops from; `recent_worklog` is the very list it pops. */
  class CoreData {
    const workspace: string
    const core: string
    var worklog: seq<Dated>
    var overflow: bool

    constructor (data: Data)
      ensures Value() == data
    {
      workspace, core, worklog, overflow := data.workspace, data.core, data.worklog, data.overflow;
    }

    function Value(): Data
      reads this
    {
      Data(workspace, core, worklog, overflow)
    }

    method Answer(size: Data -> nat) returns (answer: Answer)
      modifies this
      ensures answer == CoreAnswer(old(Value()), size)
      ensures answer.Fits? ==> answer.data == Value()
    {
      ghost var p := Value();
      ghost var k := 0;
      if size(Value().(worklog := [])) > ENVELOPE_MAX_BYTES {
        return TooLarge;
      }
      assert worklog[..|worklog|] == worklog;
      while size(Value()) > ENVELOPE_MAX_BYTES
        invariant 0 <= k <= |p.worklog| && Value() == Popped(p)(k) && |worklog| == |p.worklog| - k
        invariant FirstFit(Popped(p), size, ENVELOPE_MAX_BYTES, |p.worklog|, k) ==
                  FirstFit(Popped(p), size, ENVELOPE_MAX_BYTES, |p.worklog|, 0)
        decreases |p.worklog| - k
      {
        if worklog == [] {
          return TooLarge;
        }
        assert p.worklog[..|p.worklog| - k][..|p.worklog| - k - 1] == p.worklog[..|p.worklog| - (k + 1)];
        worklog := worklog[..|worklog| - 1];
        if !overflow {
          overflow := true;
        }
        k := k + 1;
      }
      return Fits(Value());
    }
  }

  /** What `handle_context` assembles: the first five filtered entries, and whether there were more. */
  function Assembled(workspace: string, core: string, filtered: seq<Dated>): Data {
    Data(workspace, core, if |filtered| > MAX_ENTRIES then filtered[..MAX_ENTRIES] else filtered,
         |filtered| > MAX_ENTRIES)
  }

  /** The answer that shows the `n` newest entries, marked when that is not all of them. */
  function Showing(workspace: string, core: string, filtered: seq<Dated>, n: nat): Data
    requires n <= |filtered|
  {
    Data(workspace, core, filtered[..n], n < |filtered|)
  }

  /** As many entries as may be shown at all: the first five. */
  function AtMost(filtered: seq<Dated>): (n: nat)
    ensures n <= |filtered|
  {
    if |filtered| > 5 then 5 else |filtered|
  }

  /** Popping `k` entries off what was assembled shows the newest ones that are left. */
  lemma {:induction false} PoppedShows(workspace: string, core: string, filtered: seq<Dated>, k: nat)
    requires k <= AtMost(filtered)
    ensures var p := Assembled(workspace, core, filtered);
            |p.worklog| == AtMost(filtered) &&
            Popped(p)(k) == Showing(workspace, core, filtered, AtMost(filtered) - k)
  {
    var p := Assembled(workspace, core, filtered);
    assert p.worklog == filtered[..AtMost(filtered)];
    assert p.worklog[..|p.worklog| - k] == filtered[..AtMost(filtered) - k];
  }

  /** The Task projection with no entry, carrying the marker that the five-entry cap calls for, is too large. */
  predicate BareTooLarge(workspace: string, core: string, filtered: seq<Dated>, size: Data -> nat) {
    size(Data(workspace, core, [], |filtered| > 5)) > 32768
  }

  lemma {:induction false} StagesShow(workspace: string, core: string, filtered: seq<Dated>, size: Data -> nat)
    ensures var p := Assembled(workspace, core, filtered);
            && |p.worklog| == AtMost(filtered)
            && p.(worklog := []) == Data(workspace, core, [], |filtered| > 5)
            && forall k | 0 <= k <= AtMost(filtered) ::
                 Popped(p)(k) == Showing(workspace, core, filtered, AtMost(filtered) - k)
  {
    forall k | 0 <= k <= AtMost(filtered)
      ensures Popped(Assembled(workspace, core, filtered))(k) ==
              Showing(workspace, core, filtered, AtMost(filtered) - k)
    {
      PoppedShows(workspace, core, filtered, k);
    }
    PoppedShows(workspace, core, filtered, 0);
  }

  /** What is answered, by the number of entries shown: the most that fit, if the bare projection fits. */
  lemma {:induction false} AnswerShows(workspace: string, core: string, filtered: seq<Dated>, size: Data -> nat)
    ensures var answer := CoreAnswer(Assembled(workspace, core, filtered), size);
            && (answer.TooLarge? <==>
                  || BareTooLarge(workspace, core, filtered, size)
                  || forall n | 0 <= n <= AtMost(filtered) :: size(Showing(workspace, core, filtered, n)) > 32768)
            && (answer.Fits? ==>
                  exists n :: 0 <= n <= AtMost(filtered) && answer.data == Showing(workspace, core, filtered, n) &&
                              size(answer.data) <= 32768 &&
                              forall m | n < m <= AtMost(filtered) ::
                                size(Showing(workspace, core, filtered, m)) > 32768)
  {
    var p, top := Assembled(workspace, core, filtered), AtMost(filtered);
    var show := (n: nat) => if n <= |filtered| then Showing(workspace, core, filtered, n) else p;
    StagesShow(workspace, core, filtered, size);
    FirstFitShowsMost(Popped(p), show, size, ENVELOPE_MAX_BYTES, top);
    if CoreAnswer(p, size).Fits? {
      var q := CoreAnswer(p, size).data;
      var n: nat :| n <= top && q == show(n) && size(q) <= ENVELOPE_MAX_BYTES &&
                    forall m | n < m <= top :: size(show(m)) > ENVELOPE_MAX_BYTES;
      forall m | n < m <= top ensures size(Showing(workspace, core, filtered, m)) > 32768 {
        assert size(show(m)) > ENVELOPE_MAX_BYTES;
      }
      assert q == Showing(workspace, core, filtered, n);
    }
    if n :| 0 <= n <= top && size(Showing(workspace, core, filtered, n)) <= 32768 {
      assert size(show(n)) <= ENVELOPE_MAX_BYTES;
    }
  }

  /** The default answer. It is rendered in at most 32768 bytes; it shows the newest of this Task's in-window
      entries, as many of the first five as fit and no fewer; its overflow marker is there exactly when an
      in-window entry was left out. It is refused exactly when the Task projection alone is too large, under
      the marker the cap calls for, or no number of entries fits under the marker it must carry. */
  lemma {:induction false} CoreAnswerIsSound(core: string, filtered: seq<Dated>, dump: Dump, task: string,
      transport: string, workspace: string)
    ensures var size := (data: Data) => EstimatedBytes(dump, data, task, transport, workspace);
            match CoreAnswer(Assembled(workspace, core, filtered), size)
            case Fits(q) =>
              && |RenderedBytes(dump, ContextOutcome(q, task, transport, workspace))| <= 32768
              && !BareTooLarge(workspace, core, filtered, size)
              && q.workspace == workspace && q.core == core && q.worklog <= filtered && |q.worklog| <= 5
              && (NewestComesFirst(filtered) ==> NewestComesFirst(q.worklog))
              && (q.overflow <==> |q.worklog| < |filtered|)
              && (forall m | |q.worklog| < m <= AtMost(filtered) ::
                    size(Showing(workspace, core, filtered, m)) > 32768)
            case TooLarge =>
              || BareTooLarge(workspace, core, filtered, size)
              || forall n | 0 <= n <= AtMost(filtered) :: size(Showing(workspace, core, filtered, n)) > 32768
  {
    var size := (data: Data) => EstimatedBytes(dump, data, task, transport, workspace);
    AnswerShows(workspace, core, filtered, size);
    var answer := CoreAnswer(Assembled(workspace, core, filtered), size);
    if answer.Fits? {
      EstimateIsExact(dump, answer.data, task, transport, workspace);
    }
  }
}
