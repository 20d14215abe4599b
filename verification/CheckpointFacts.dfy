/** The resume snapshot of one Task: which audit row is selected, what is reported about it, and the
    version a prepared brief is frozen against. */
module CheckpointFacts {
  import opened Wrappers
  import opened Orders
  import opened Text

  /** What the payload of a row reads as. */
  datatype Summary = Summary(
    readable: bool, taskId: Option<string>, taskTitle: Option<string>,
    done: seq<string>, next: seq<string>, blockers: seq<string>, extras: nat)

  datatype Row = Row(
    workspace: string, taskId: Option<string>, date: string, ordinal: nat, entryDigest: Option<string>,
    checkpointId: Option<string>, origin: Option<string>, superseded: bool, revision: nat, summary: Summary)

  datatype Binding = ByLocator | ByPayload

  datatype Status = Empty | Unreadable | Partial | Ready

  datatype Reason = UnpresentedValues | RecordedTaskMismatch | NoReadableSummary

  datatype Provenance = Provenance(
    checkpointId: Option<string>, entryDigest: Option<string>, date: string, ordinal: nat, revision: nat,
    origin: Option<string>, binding: Binding, recordedTaskId: Option<string>, recordedTaskTitle: Option<string>)

  datatype Facts = Facts(
    status: Status, provenance: Option<Provenance>, done: seq<string>, next: seq<string>, blockers: seq<string>,
    reasons: seq<Reason>, active: nat, superseded: nat, version: string)

  /** A recorded row names its Task in the locator; only a legacy row falls back to its payload. */
  function BindingOf(row: Row, task: string): Option<Binding> {
    if row.taskId.Some? then (if row.taskId.value == task then Some(ByLocator) else None)
    else if row.summary.taskId == Some(task) then Some(ByPayload)
    else None
  }

  predicate IsLater(a: Row, b: Row) {
    if a.date != b.date then TextLess(b.date, a.date) else a.ordinal > b.ordinal
  }

  /** What one pass found. */
  datatype Found = Found(latest: Option<(Row, Binding)>, active: nat, superseded: nat)

  function Note(found: Found, row: Row, workspace: string, task: string): Found {
    var binding := BindingOf(row, task);
    if row.workspace != workspace || binding.None? then found
    else if row.superseded then found.(superseded := found.superseded + 1)
    else
      var latest :=
        if found.latest.None? || IsLater(row, found.latest.value.0) then Some((row, binding.value)) else found.latest;
      Found(latest, found.active + 1, found.superseded)
  }

  function FoundIn(rows: seq<Row>, workspace: string, task: string): Found {
    if rows == [] then Found(None, 0, 0)
    else Note(FoundIn(rows[..|rows| - 1], workspace, task), rows[|rows| - 1], workspace, task)
  }

  class Records {
    var latest: Option<(Row, Binding)>
    var active: nat
    var superseded: nat

    constructor ()
      ensures latest == None && active == 0 && superseded == 0
    {
      latest, active, superseded := None, 0, 0;
    }

    method Collect(rows: seq<Row>, workspace: string, task: string)
      requires latest == None && active == 0 && superseded == 0
      modifies this
      ensures Found(latest, active, superseded) == FoundIn(rows, workspace, task)
    {
      for i := 0 to |rows|
        invariant Found(latest, active, superseded) == FoundIn(rows[..i], workspace, task)
      {
        var row := rows[i];
        assert rows[..i + 1][..i] == rows[..i];
        if row.workspace != workspace {
          continue;
        }
        var binding := BindingOf(row, task);
        if binding.None? {
          continue;
        }
        if row.superseded {
          superseded := superseded + 1;
          continue;
        }
        active := active + 1;
        if latest.None? || IsLater(row, latest.value.0) {
          latest := Some((row, binding.value));
        }
      }
      assert rows[..|rows|] == rows;
    }
  }

  // ---- the report ----

  function StatusText(status: Status): string {
    match status case Empty => "empty" case Unreadable => "unreadable" case Partial => "partial" case Ready => "ready"
  }

  function Identity(p: Provenance): string {
    if p.checkpointId.Some? then p.checkpointId.value else "legacy@" + p.date + "#" + Decimal(p.ordinal)
  }

  function DigestText(p: Provenance): string {
    if p.entryDigest.Some? && p.entryDigest.value != "" then p.entryDigest.value else "no-digest"
  }

  function Version(status: Status, workspace: string, task: string, provenance: Option<Provenance>): string {
    var binding := "v1" + ":" + (StatusText(status) + ":" + (workspace + ":" + task));
    match provenance
    case None => binding
    case Some(p) => binding + ":" + (Identity(p) + ":" + (DigestText(p) + ":" + ("r" + Decimal(p.revision))))
  }

  function ProvenanceOf(row: Row, binding: Binding): Provenance {
    Provenance(row.checkpointId, row.entryDigest, row.date, row.ordinal, row.revision, row.origin, binding,
               row.summary.taskId, row.summary.taskTitle)
  }

  function Reasons(summary: Summary, binding: Binding, task: string): seq<Reason> {
    (if summary.extras > 0 then [UnpresentedValues] else []) +
    (if binding.ByLocator? && summary.taskId.Some? && summary.taskId.value != task
     then [RecordedTaskMismatch] else []) +
    (if !summary.readable then [NoReadableSummary] else [])
  }

  function Select(workspace: string, task: string, found: Found): Facts {
    match found.latest
    case None =>
      Facts(Empty, None, [], [], [], [], found.active, found.superseded, Version(Empty, workspace, task, None))
    case Some((row, binding)) =>
      var p := ProvenanceOf(row, binding);
      var reasons := Reasons(row.summary, binding, task);
      if !row.summary.readable then
        Facts(Unreadable, Some(p), [], [], [], reasons, found.active, found.superseded,
              Version(Unreadable, workspace, task, Some(p)))
      else
        var status := if UnpresentedValues in reasons || RecordedTaskMismatch in reasons then Partial else Ready;
        Facts(status, Some(p), row.summary.done, row.summary.next, row.summary.blockers, reasons,
              found.active, found.superseded, Version(status, workspace, task, Some(p)))
  }

  /** `project_checkpoint_facts` on rows already validated. */
  function Project(rows: seq<Row>, workspace: string, task: string): Facts {
    Select(workspace, task, FoundIn(rows, workspace, task))
  }

  method ProjectFacts(rows: seq<Row>, workspace: string, task: string) returns (facts: Facts)
    ensures facts == Project(rows, workspace, task)
  {
    var records := new Records();
    records.Collect(rows, workspace, task);
    facts := Select(workspace, task, Found(records.latest, records.active, records.superseded));
  }

  // ---- which rows matter ----

  /** A row of this Task: its locator names the Task, or it has none and its payload names it. */
  predicate Counts(row: Row, workspace: string, task: string) {
    row.workspace == workspace && (row.taskId == Some(task) || (row.taskId.None? && row.summary.taskId == Some(task)))
  }

  predicate Active(row: Row, workspace: string, task: string) {
    Counts(row, workspace, task) && !row.superseded
  }

  /** This Task's rows, in order; with `activeOnly`, without the superseded ones. */
  function Own(rows: seq<Row>, workspace: string, task: string, activeOnly: bool): (r: seq<Row>)
    ensures forall x :: x in r <==> x in rows && Counts(x, workspace, task) && !(activeOnly && x.superseded)
  {
    if rows == [] then []
    else
      var front, last := Own(rows[..|rows| - 1], workspace, task, activeOnly), rows[|rows| - 1];
      assert forall x :: x in rows <==> x in rows[..|rows| - 1] || x == last;
      if Counts(last, workspace, task) && !(activeOnly && last.superseded) then front + [last] else front
  }

  function CountedAs(found: Found, activeOnly: bool): Found {
    if activeOnly then found.(superseded := 0) else found
  }

  lemma {:induction false} NoteShown(found: Found, row: Row, workspace: string, task: string, activeOnly: bool)
    ensures CountedAs(Note(found, row, workspace, task), activeOnly) ==
            if Counts(row, workspace, task) && !(activeOnly && row.superseded)
            then Note(CountedAs(found, activeOnly), row, workspace, task)
            else CountedAs(found, activeOnly)
  {
  }

  lemma {:induction false} FoundOneMore(rows: seq<Row>, row: Row, workspace: string, task: string)
    ensures FoundIn(rows + [row], workspace, task) == Note(FoundIn(rows, workspace, task), row, workspace, task)
  {
    assert (rows + [row])[..|rows|] == rows;
  }

  lemma {:induction false} OwnRowsFound(rows: seq<Row>, workspace: string, task: string, activeOnly: bool)
    ensures FoundIn(Own(rows, workspace, task, activeOnly), workspace, task) ==
            CountedAs(FoundIn(rows, workspace, task), activeOnly)
  {
    if rows != [] {
      var front, last := rows[..|rows| - 1], rows[|rows| - 1];
      OwnRowsFound(front, workspace, task, activeOnly);
      FoundOneMore(Own(front, workspace, task, activeOnly), last, workspace, task);
      NoteShown(FoundIn(front, workspace, task), last, workspace, task, activeOnly);
    }
  }

  /** Two audits with the same rows for this Task, in the same order, report the same. */
  lemma {:induction false} OnlyOwnRowsMatter(a: seq<Row>, b: seq<Row>, workspace: string, task: string)
    requires Own(a, workspace, task, false) == Own(b, workspace, task, false)
    ensures Project(a, workspace, task) == Project(b, workspace, task)
  {
    OwnRowsFound(a, workspace, task, false);
    OwnRowsFound(b, workspace, task, false);
  }

  lemma {:induction false} SelectIgnoresCount(workspace: string, task: string, f: Found, g: Found)
    requires f.(superseded := 0) == g.(superseded := 0)
    ensures Select(workspace, task, f).(superseded := 0) == Select(workspace, task, g).(superseded := 0)
  {
  }

  /** Superseded rows change nothing but their own count. */
  lemma {:induction false} SupersededOnlyCounted(a: seq<Row>, b: seq<Row>, workspace: string, task: string)
    requires Own(a, workspace, task, true) == Own(b, workspace, task, true)
    ensures Project(a, workspace, task).(superseded := 0) == Project(b, workspace, task).(superseded := 0)
  {
    OwnRowsFound(a, workspace, task, true);
    OwnRowsFound(b, workspace, task, true);
    SelectIgnoresCount(workspace, task, FoundIn(a, workspace, task), FoundIn(b, workspace, task));
  }

  // ---- order of the audit rows ----

  /** The slot of `x` is not before that of `y`: no smaller date, and on the same date no smaller ordinal. */
  predicate NotBefore(x: Row, y: Row) {
    !TextLess(x.date, y.date) && (x.date == y.date ==> x.ordinal >= y.ordinal)
  }

  /** An active row of this Task whose slot is not before that of any other. */
  ghost predicate Top(rows: seq<Row>, x: Row, workspace: string, task: string) {
    x in rows && Active(x, workspace, task) && forall y | y in rows && Active(y, workspace, task) :: NotBefore(x, y)
  }

  lemma {:induction false} LaterWeak(x: Row, y: Row, z: Row)
    ensures IsLater(x, y) ==> !IsLater(y, x)
    ensures IsLater(x, z) ==> IsLater(x, y) || IsLater(y, z)
    ensures NotBefore(x, y) <==> !IsLater(y, x)
  {
    TextLessTotal();
  }

  /** The selected row is a top one. */
  lemma {:induction false} SelectedIsTop(rows: seq<Row>, workspace: string, task: string)
    ensures var latest := FoundIn(rows, workspace, task).latest;
            && (latest.None? <==> forall x | x in rows :: !Active(x, workspace, task))
            && (latest.Some? ==> Top(rows, latest.value.0, workspace, task) &&
                                 Some(latest.value.1) == BindingOf(latest.value.0, task))
  {
    if rows != [] {
      var front, last := rows[..|rows| - 1], rows[|rows| - 1];
      SelectedIsTop(front, workspace, task);
      assert last == rows[|rows| - 1] && last in rows;
      assert forall x :: x in rows <==> x in front || x == last;
      var latest := FoundIn(front, workspace, task).latest;
      if latest.Some? && Active(last, workspace, task) {
        forall y | y in front && Active(y, workspace, task)
          ensures IsLater(last, latest.value.0) ==> NotBefore(last, y)
        {
          LaterWeak(last, y, latest.value.0);
          LaterWeak(latest.value.0, y, y);
        }
        LaterWeak(latest.value.0, last, last);
      }
      LaterWeak(last, last, last);
    }
  }

  /** No row before place `k` is a top one. */
  ghost predicate FirstTop(rows: seq<Row>, k: nat, workspace: string, task: string) {
    && k < |rows| && Top(rows, rows[k], workspace, task)
    && forall i | 0 <= i < k :: !Top(rows, rows[i], workspace, task)
  }

  /** Of the top rows it is the first. */
  lemma {:induction false} SelectedIsFirst(rows: seq<Row>, k: nat, workspace: string, task: string)
    requires FirstTop(rows, k, workspace, task)
    ensures FoundIn(rows, workspace, task).latest.Some? && FoundIn(rows, workspace, task).latest.value.0 == rows[k]
    decreases |rows|
  {
    var front, last := rows[..|rows| - 1], rows[|rows| - 1];
    assert forall x :: x in rows <==> x in front || x == last;
    SelectedIsTop(rows, workspace, task);
    SelectedIsTop(front, workspace, task);
    if k + 1 < |rows| {
      FrontTop(rows, front, k, workspace, task);
      SelectedIsFirst(front, k, workspace, task);
      assert last in rows;
      LaterWeak(rows[k], last, last);
    } else if FoundIn(front, workspace, task).latest.Some? {
      var x := FoundIn(front, workspace, task).latest.value.0;
      var i :| 0 <= i < |front| && front[i] == x;
      assert rows[i] == x && !Top(rows, x, workspace, task);
      TopOfFront(rows, front, last, x, workspace, task);
    }
  }

  /** A top row of all but the last that is no top row of all: the last is later than it. */
  lemma {:induction false} TopOfFront(rows: seq<Row>, front: seq<Row>, last: Row, x: Row, workspace: string,
      task: string)
    requires (forall y :: y in rows <==> y in front || y == last) && Top(front, x, workspace, task)
    ensures Top(rows, x, workspace, task) || IsLater(last, x)
  {
    LaterWeak(x, last, last);
  }

  lemma {:induction false} NotBeforeTransitive(x: Row, y: Row, z: Row)
    requires NotBefore(x, y) && NotBefore(y, z)
    ensures NotBefore(x, z)
  {
    TextLessTotal();
  }

  /** A top row of all but the last is a top row of all as soon as one of them is. */
  lemma {:induction false} TopBoth(rows: seq<Row>, front: seq<Row>, last: Row, x: Row, y: Row, workspace: string,
      task: string)
    requires forall z :: z in rows <==> z in front || z == last
    requires Top(front, x, workspace, task) && Top(rows, y, workspace, task) && y in front
    ensures Top(rows, x, workspace, task)
  {
    forall z | z in rows && Active(z, workspace, task) ensures NotBefore(x, z) {
      NotBeforeTransitive(x, y, z);
    }
  }

  lemma {:induction false} FrontTop(rows: seq<Row>, front: seq<Row>, k: nat, workspace: string, task: string)
    requires FirstTop(rows, k, workspace, task) && k + 1 < |rows| && front == rows[..|rows| - 1]
    ensures FirstTop(front, k, workspace, task)
  {
    var last := rows[|rows| - 1];
    assert last in rows && rows[k] in front;
    assert forall x :: x in rows <==> x in front || x == last;
    forall i | 0 <= i < k ensures !Top(front, front[i], workspace, task) {
      assert front[i] == rows[i];
      if Top(front, front[i], workspace, task) {
        TopBoth(rows, front, last, front[i], rows[k], workspace, task);
      }
    }
  }

  lemma {:induction false} CountsAre(rows: seq<Row>, workspace: string, task: string,
      active: Row -> bool, superseded: Row -> bool)
    requires forall r :: active(r) == Active(r, workspace, task)
    requires forall r :: superseded(r) == (Counts(r, workspace, task) && r.superseded)
    ensures FoundIn(rows, workspace, task).active == |Where(active, rows)|
    ensures FoundIn(rows, workspace, task).superseded == |Where(superseded, rows)|
  {
    if rows != [] {
      var front, last := rows[..|rows| - 1], rows[|rows| - 1];
      CountsAre(front, workspace, task, active, superseded);
      WhereLast(active, front, last);
      WhereLast(superseded, front, last);
      assert rows == front + [last];
    }
  }

  lemma {:induction false} CountsPermute(a: seq<Row>, b: seq<Row>, workspace: string, task: string)
    requires multiset(a) == multiset(b)
    ensures FoundIn(a, workspace, task).active == FoundIn(b, workspace, task).active
    ensures FoundIn(a, workspace, task).superseded == FoundIn(b, workspace, task).superseded
  {
    var active := (r: Row) => Active(r, workspace, task);
    var superseded := (r: Row) => Counts(r, workspace, task) && r.superseded;
    CountsAre(a, workspace, task, active, superseded);
    CountsAre(b, workspace, task, active, superseded);
    WherePermutes(active, a, b);
    WherePermutes(superseded, a, b);
  }

  /** What is reported when this row is the selected one, counts aside. */
  function Shown(row: Row, workspace: string, task: string): Facts
    requires Active(row, workspace, task)
  {
    Select(workspace, task, Found(Some((row, BindingOf(row, task).value)), 0, 0))
  }

  /** Rows sharing the greatest slot read alike; true in particular when slots are distinct. */
  ghost predicate TiesReadAlike(rows: seq<Row>, workspace: string, task: string) {
    forall x, y | Top(rows, x, workspace, task) && Top(rows, y, workspace, task) ::
      Shown(x, workspace, task) == Shown(y, workspace, task)
  }

  ghost predicate OrderIrrelevant(rows: seq<Row>, workspace: string, task: string) {
    forall other | multiset(other) == multiset(rows) ::
      Project(other, workspace, task) == Project(rows, workspace, task)
  }

  lemma {:induction false} TopPermutes(a: seq<Row>, b: seq<Row>, x: Row, workspace: string, task: string)
    requires multiset(a) == multiset(b) && Top(a, x, workspace, task)
    ensures Top(b, x, workspace, task)
  {
    assert x in multiset(b);
    forall y | y in b && Active(y, workspace, task) ensures NotBefore(x, y) {
      assert y in multiset(a);
    }
  }

  lemma {:induction false} SameWhenAlike(rows: seq<Row>, other: seq<Row>, workspace: string, task: string)
    requires TiesReadAlike(rows, workspace, task) && multiset(other) == multiset(rows)
    ensures Project(other, workspace, task) == Project(rows, workspace, task)
  {
    CountsPermute(rows, other, workspace, task);
    SelectedIsTop(rows, workspace, task);
    SelectedIsTop(other, workspace, task);
    var p, q := FoundIn(rows, workspace, task).latest, FoundIn(other, workspace, task).latest;
    if p.Some? {
      TopPermutes(rows, other, p.value.0, workspace, task);
    }
    if q.Some? {
      TopPermutes(other, rows, q.value.0, workspace, task);
      assert Shown(p.value.0, workspace, task) == Shown(q.value.0, workspace, task);
    }
  }

  /** With this row first, it is the one reported. */
  lemma {:induction false} PutFirst(rows: seq<Row>, x: Row, workspace: string, task: string) returns (other: seq<Row>)
    requires Top(rows, x, workspace, task)
    ensures multiset(other) == multiset(rows)
    ensures var facts := Project(other, workspace, task);
            facts.(active := 0, superseded := 0) == Shown(x, workspace, task)
  {
    var i :| 0 <= i < |rows| && rows[i] == x;
    WithoutAt(rows, i);
    other := [x] + (rows[..i] + rows[i + 1..]);
    TopPermutes(rows, other, x, workspace, task);
    SelectedIsTop(other, workspace, task);
    SelectedIsFirst(other, 0, workspace, task);
  }

  /** The facts do not depend on the order of the audit rows exactly when rows that share the greatest slot
      among this Task's active rows read alike. */
  lemma {:induction false} OrderIrrelevantExactly(rows: seq<Row>, workspace: string, task: string)
    ensures OrderIrrelevant(rows, workspace, task) <==> TiesReadAlike(rows, workspace, task)
  {
    if TiesReadAlike(rows, workspace, task) {
      forall other | multiset(other) == multiset(rows)
        ensures Project(other, workspace, task) == Project(rows, workspace, task)
      {
        SameWhenAlike(rows, other, workspace, task);
      }
    } else {
      var x, y :| Top(rows, x, workspace, task) && Top(rows, y, workspace, task) &&
                  Shown(x, workspace, task) != Shown(y, workspace, task);
      var a := PutFirst(rows, x, workspace, task);
      var b := PutFirst(rows, y, workspace, task);
      assert Project(a, workspace, task) != Project(b, workspace, task);
    }
  }

  /** With distinct slots the report is that of the one row with the greatest date and, on it, ordinal. */
  lemma {:induction false} DistinctSlotsSelectGreatest(rows: seq<Row>, workspace: string, task: string)
    requires forall x, y | x in rows && y in rows && Active(x, workspace, task) && Active(y, workspace, task) ::
               x == y || x.date != y.date || x.ordinal != y.ordinal
    ensures OrderIrrelevant(rows, workspace, task)
    ensures forall x | Top(rows, x, workspace, task) ::
              Project(rows, workspace, task).(active := 0, superseded := 0) == Shown(x, workspace, task)
  {
    TextLessTotal();
    forall x, y | Top(rows, x, workspace, task) && Top(rows, y, workspace, task) ensures x == y {
      assert NotBefore(x, y) && NotBefore(y, x);
    }
    OrderIrrelevantExactly(rows, workspace, task);
    SelectedIsTop(rows, workspace, task);
  }

  /** The recorded Task contradicts the one the row is filed under. */
  predicate Disputed(row: Row, task: string) {
    row.taskId == Some(task) && row.summary.taskId.Some? && row.summary.taskId != Some(task)
  }

  /** The facts show this row: its stored identity always, its text only if it reads, and by status and
      reasons what could not be shown or is disputed. */
  ghost predicate Shows(f: Facts, x: Row, task: string) {
    && f.status != Empty && f.provenance.Some?
    && var p := f.provenance.value;
       && p.checkpointId == x.checkpointId && p.entryDigest == x.entryDigest && p.date == x.date
       && p.ordinal == x.ordinal && p.revision == x.revision && p.origin == x.origin
       && p.recordedTaskId == x.summary.taskId && p.recordedTaskTitle == x.summary.taskTitle
       && (p.binding == ByLocator <==> x.taskId == Some(task))
       && (f.status == Unreadable <==> !x.summary.readable)
       && (f.status == Partial <==> x.summary.readable && (x.summary.extras > 0 || Disputed(x, task)))
       && (if x.summary.readable
           then f.done == x.summary.done && f.next == x.summary.next && f.blockers == x.summary.blockers
           else f.done == f.next == f.blockers == [])
       && (UnpresentedValues in f.reasons <==> x.summary.extras > 0)
       && (RecordedTaskMismatch in f.reasons <==> Disputed(x, task))
       && (NoReadableSummary in f.reasons <==> !x.summary.readable)
  }

  lemma {:induction false} SelectShows(x: Row, binding: Binding, workspace: string, task: string, found: Found)
    requires found.latest == Some((x, binding)) && BindingOf(x, task) == Some(binding)
    ensures Shows(Select(workspace, task, found), x, task)
  {
  }

  /** What is reported, said of the rows and not of the pass: nothing when this Task has no active row;
      otherwise a row no active one is later than; the two counts of this Task's rows; and the version of just
      the status and provenance reported. */
  lemma {:induction false} ReportMeans(rows: seq<Row>, workspace: string, task: string)
    ensures var f := Project(rows, workspace, task);
            && (f.status == Empty <==> forall x | x in rows :: !Active(x, workspace, task))
            && (f.status == Empty ==> f.provenance == None && f.done == f.next == f.blockers == [] && f.reasons == [])
            && (f.status != Empty ==> exists x :: Top(rows, x, workspace, task) && Shows(f, x, task))
            && f.active == |Where((x: Row) => Active(x, workspace, task), rows)|
            && f.superseded == |Where((x: Row) => Counts(x, workspace, task) && x.superseded, rows)|
            && f.version == Version(f.status, workspace, task, f.provenance)
  {
    SelectedIsTop(rows, workspace, task);
    var found := FoundIn(rows, workspace, task);
    if found.latest.Some? {
      var (x, binding) := found.latest.value;
      SelectShows(x, binding, workspace, task, found);
      assert Top(rows, x, workspace, task) && Shows(Project(rows, workspace, task), x, task);
    }
    var active := (x: Row) => Active(x, workspace, task);
    var superseded := (x: Row) => Counts(x, workspace, task) && x.superseded;
    CountsAre(rows, workspace, task, active, superseded);
  }

  // ---- the version ----

  /** Row fields as the audit validation leaves them. */
  predicate WellSpelled(p: Provenance) {
    && (p.checkpointId.Some? ==> "CP-" <= p.checkpointId.value && ':' !in p.checkpointId.value)
    && |p.date| == 10 && ':' !in p.date
    && (p.entryDigest.Some? ==> "sha256:" <= p.entryDigest.value && ':' !in p.entryDigest.value[7..])
  }

  /** The part of the provenance the version stands for. */
  datatype Stamp = Stamp(
    checkpointId: Option<string>, date: string, ordinal: nat, digest: Option<string>, revision: nat)

  function StampOf(p: Provenance): Stamp {
    if p.checkpointId.Some? then Stamp(p.checkpointId, "", 0, p.entryDigest, p.revision)
    else Stamp(None, p.date, p.ordinal, p.entryDigest, p.revision)
  }

  lemma {:induction false} DecimalInjective(m: nat, n: nat)
    requires Decimal(m) == Decimal(n)
    ensures m == n
  {
    DigitsValueDecimal(m);
    DigitsValueDecimal(n);
  }

  lemma {:induction false} IdentityInjective(p: Provenance, q: Provenance)
    requires WellSpelled(p) && WellSpelled(q) && Identity(p) == Identity(q)
    ensures p.checkpointId == q.checkpointId
    ensures p.checkpointId.None? ==> p.date == q.date && p.ordinal == q.ordinal
    ensures ':' !in Identity(p)
  {
    if p.checkpointId.None? && q.checkpointId.None? {
      var s := Identity(p);
      assert s[7..17] == p.date && s[7..17] == q.date;
      assert s[18..] == Decimal(p.ordinal) && s[18..] == Decimal(q.ordinal);
      DecimalInjective(p.ordinal, q.ordinal);
    } else {
      assert Identity(p)[0] == Identity(q)[0];
      assert "CP-"[0] != "legacy@"[0];
    }
    NotInDigits(Decimal(p.ordinal), ':');
  }

  lemma {:induction false} TwoFields(c: string, d: string)
    requires ':' !in c && ':' !in d
    ensures Split(c + ":" + d, ':') == [c, d]
  {
    SplitFirst(c, d, ':');
  }

  lemma {:induction false} ThreeFields(b: string, rest: string, c: string, d: string)
    requires ':' !in b && Split(rest, ':') == [c, d]
    ensures Split(b + ":" + rest, ':') == [b, c, d]
  {
    SplitFirst(b, rest, ':');
  }

  lemma {:induction false} MoreFields(a: string, rest: string, b: string, c: string, d: string)
    requires ':' !in a && Split(rest, ':') == [b, c, d]
    ensures Split(a + ":" + rest, ':') == [a, b, c, d]
  {
    SplitFirst(a, rest, ':');
  }

  lemma {:induction false} FourFields(a: string, b: string, c: string, d: string)
    requires ':' !in a && ':' !in b && ':' !in c && ':' !in d
    ensures Split(a + ":" + (b + ":" + (c + ":" + d)), ':') == [a, b, c, d]
  {
    TwoFields(c, d);
    ThreeFields(b, c + ":" + d, c, d);
    MoreFields(a, b + ":" + (c + ":" + d), b, c, d);
  }

  lemma {:induction false} TailFields(head: string, id: string, digest: string, last: string)
    requires ':' !in id && ':' !in last
    ensures Split(head + ":" + (id + ":" + (digest + ":" + last)), ':') ==
            Split(head, ':') + ([id] + (Split(digest, ':') + [last]))
  {
    SplitConcat(digest, last, ':');
    SplitFirst(id, digest + ":" + last, ':');
    SplitConcat(head, id + ":" + (digest + ":" + last), ':');
  }

  function Head(status: Status, workspace: string, task: string): seq<string> {
    ["v1", StatusText(status), workspace, task]
  }

  lemma {:induction false} HeadFields(status: Status, workspace: string, task: string)
    requires ':' !in workspace && ':' !in task
    ensures Split(Version(status, workspace, task, None), ':') == Head(status, workspace, task)
  {
    FourFields("v1", StatusText(status), workspace, task);
  }

  lemma {:induction false} VersionFields(status: Status, workspace: string, task: string, p: Provenance)
    requires ':' !in workspace && ':' !in task && WellSpelled(p)
    ensures Split(Version(status, workspace, task, Some(p)), ':') ==
            Head(status, workspace, task) +
            ([Identity(p)] + (Split(DigestText(p), ':') + ["r" + Decimal(p.revision)]))
  {
    HeadFields(status, workspace, task);
    IdentityInjective(p, p);
    NotInDigits(Decimal(p.revision), ':');
    TailFields(Version(status, workspace, task, None), Identity(p), DigestText(p), "r" + Decimal(p.revision));
  }

  lemma {:induction false} DigestInjective(p: Provenance, q: Provenance)
    requires WellSpelled(p) && WellSpelled(q) && DigestText(p) == DigestText(q)
    ensures p.entryDigest == q.entryDigest
  {
    if p.entryDigest.None? != q.entryDigest.None? {
      assert "no-digest"[0] != "sha256:"[0];
      assert DigestText(p)[0] == DigestText(q)[0];
    }
  }

  lemma {:induction false} SameFields(head: seq<string>, a: string, x: seq<string>, u: string, head': seq<string>,
      b: string, y: seq<string>, v: string)
    requires |head| == |head'| && head + ([a] + (x + [u])) == head' + ([b] + (y + [v]))
    ensures head == head' && a == b && x == y && u == v
  {
    var s, t := head + ([a] + (x + [u])), head' + ([b] + (y + [v]));
    assert s[..|head|] == head && t[..|head|] == head';
    assert s[|head|] == a && t[|head|] == b;
    assert s[|head| + 1..|s| - 1] == x && t[|head| + 1..|t| - 1] == y;
    assert s[|s| - 1] == u && t[|t| - 1] == v;
  }

  lemma {:induction false} SameVersionSameStamp(workspace: string, task: string, s: Status, t: Status, p: Provenance,
      q: Provenance)
    requires ':' !in workspace && ':' !in task && WellSpelled(p) && WellSpelled(q)
    requires Version(s, workspace, task, Some(p)) == Version(t, workspace, task, Some(q))
    ensures StatusText(s) == StatusText(t) && StampOf(p) == StampOf(q)
  {
    VersionFields(s, workspace, task, p);
    VersionFields(t, workspace, task, q);
    var h, k := Head(s, workspace, task), Head(t, workspace, task);
    SameFields(h, Identity(p), Split(DigestText(p), ':'), "r" + Decimal(p.revision),
               k, Identity(q), Split(DigestText(q), ':'), "r" + Decimal(q.revision));
    assert h[1] == k[1];
    IdentityInjective(p, q);
    JoinSplit(DigestText(p), ':');
    JoinSplit(DigestText(q), ':');
    DigestInjective(p, q);
    assert ("r" + Decimal(p.revision))[1..] == Decimal(p.revision);
    assert ("r" + Decimal(q.revision))[1..] == Decimal(q.revision);
    DecimalInjective(p.revision, q.revision);
  }

  lemma {:induction false} StatusInjective(s: Status, t: Status)
    requires StatusText(s) == StatusText(t)
    ensures s == t
  {
    assert StatusText(s)[0] == StatusText(t)[0];
  }

  /** The version is a faithful identity: for one workspace and Task it changes exactly when the status or
      the selected record's identity, digest or revision does. */
  lemma {:induction false} VersionIsIdentity(workspace: string, task: string, s: Status, t: Status,
      p: Option<Provenance>, q: Option<Provenance>)
    requires ':' !in workspace && ':' !in task
    requires (p.Some? ==> WellSpelled(p.value)) && (q.Some? ==> WellSpelled(q.value))
    ensures Version(s, workspace, task, p) == Version(t, workspace, task, q) <==>
            s == t && (p.None? <==> q.None?) && (p.Some? && q.Some? ==> StampOf(p.value) == StampOf(q.value))
  {
    HeadFields(s, workspace, task);
    HeadFields(t, workspace, task);
    if Version(s, workspace, task, p) == Version(t, workspace, task, q) {
      match (p, q) {
        case (Some(x), Some(y)) => SameVersionSameStamp(workspace, task, s, t, x, y);
        case (Some(x), None) => VersionFields(s, workspace, task, x);
        case (None, Some(y)) => VersionFields(t, workspace, task, y);
        case (None, None) => assert Head(s, workspace, task)[1] == Head(t, workspace, task)[1];
      }
      StatusInjective(s, t);
    }
  }
}
