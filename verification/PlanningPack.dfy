/** The planning view of `agent context`: three capped blocks built from the read material, shrunk to the
    envelope, and checked by a separately written validator. */
module PlanningPack {
  import opened Wrappers
  import opened Orders
  import opened Text
  import opened Shrinking

  const OBJECTIVES_CAP: nat := 5
  const RELATIONSHIPS_CAP: nat := 10
  const SOURCES_CAP: nat := 5
  const DISPLAY_TITLE_MAX: nat := 500
  const RESOURCE_TYPE_MAX: nat := 1024

  // ---- the read material ----

  datatype Objective = Objective(id: string, quarter: Option<string>, status: string, title: string)

  datatype Task = Task(
    id: string, parent: Option<string>, dependencies: seq<string>, objectiveIds: seq<string>, status: string,
    title: string)

  datatype Connection = Connection(targetKind: string, targetId: string, reasons: seq<string>)

  datatype Evidence = Evidence(answerScope: string, confidence: string, count: nat, truncated: bool)

  datatype ContextItem = ContextItem(
    kind: string, id: string, displayTitle: string, provider: string, resourceType: string, status: string,
    connections: seq<Connection>, retrieval: Option<Evidence>)

  // ---- what is rendered ----

  datatype Kind = Parent | Dependency | Child | Dependent

  datatype ObjectiveItem = ObjectiveItem(id: string, quarter: Option<string>, status: string, title: string)
  datatype RelationItem = RelationItem(kind: Kind, id: string, status: string, title: string)
  datatype SourceItem = SourceItem(
    id: string, displayTitle: string, reasons: seq<string>, provider: string, resourceType: string, status: string,
    evidence: Option<Evidence>)

  function KindOrder(kind: Kind): nat {
    match kind case Parent => 0 case Dependency => 1 case Child => 2 case Dependent => 3
  }

  predicate IsObjectiveId(s: string) {
    |s| >= 3 && s[..2] == "O-" && AllDigits(s[2..]) && s[2] != '0'
  }

  predicate IsTaskId(s: string) {
    |s| >= 6 && s[..2] == "T-" && AllDigits(s[2..])
  }

  predicate IsCaptureId(s: string) {
    |s| >= 6 && s[..2] == "C-" && AllDigits(s[2..])
  }

  predicate IsReason(s: string) {
    s == "capture-conversion" || s == "capture-link"
  }

  /** An objective id is a positive number in plain decimal. */
  lemma {:induction false} ObjectiveIdsSpelled(s: string)
    ensures IsObjectiveId(s) <==> exists n: nat :: n >= 1 && s == "O-" + Decimal(n)
  {
    if IsObjectiveId(s) {
      var digits := s[2..];
      var n := DigitsValue(digits, 0);
      PlainDecimal(digits);
      assert s == "O-" + digits;
      assert n >= 1;
    }
    if n: nat :| n >= 1 && s == "O-" + Decimal(n) {
      assert s[2..] == Decimal(n);
      NoLeadingZero(n);
    }
  }

  // ---- projection and item checks ----

  predicate ObjectiveOk(item: ObjectiveItem) {
    && IsObjectiveId(item.id) && item.quarter != Some("")
    && item.status in ["active", "done", "dropped"] && item.title != ""
  }

  predicate RelationOk(item: RelationItem) {
    && IsTaskId(item.id)
    && item.status in ["open", "started", "done", "dropped"] && item.title != ""
  }

  predicate EvidenceOk(e: Evidence) {
    && e.answerScope in ["single_source", "synthesized"] && e.confidence in ["low", "medium", "high"]
    && 1 <= e.count <= 10
  }

  predicate ReasonsOk(reasons: seq<string>) {
    && 1 <= |reasons| <= 2 && (forall i | 0 <= i < |reasons| :: IsReason(reasons[i]))
    && reasons == SortTexts(set r | r in reasons)
  }

  predicate SourceOk(item: SourceItem) {
    && IsCaptureId(item.id) && 1 <= |item.displayTitle| <= DISPLAY_TITLE_MAX && ReasonsOk(item.reasons)
    && item.provider in ["manual", "microsoft-outlook", "microsoft-sharepoint", "microsoft-teams"]
    && 1 <= |item.resourceType| <= RESOURCE_TYPE_MAX
    && item.status in ["inbox", "linked", "converted", "dismissed"]
    && (item.evidence.Some? ==> EvidenceOk(item.evidence.value))
  }

  function ProjectObjective(o: Objective): Option<ObjectiveItem> {
    var item := ObjectiveItem(o.id, o.quarter, o.status, o.title);
    if ObjectiveOk(item) then Some(item) else None
  }

  function ProjectRelation(kind: Kind, t: Task): Option<RelationItem> {
    var item := RelationItem(kind, t.id, t.status, t.title);
    if RelationOk(item) then Some(item) else None
  }

  /** The reasons of the first connection to this Task; None when there is none or it gives no reason. */
  function LinkReasons(connections: seq<Connection>, task: string): Option<seq<string>> {
    if connections == [] then None
    else if connections[0].targetKind == "task" && connections[0].targetId == task then
      if connections[0].reasons == [] then None else Some(SortTexts(set r | r in connections[0].reasons))
    else LinkReasons(connections[1..], task)
  }

  function ProjectSource(c: ContextItem, reasons: seq<string>, evidence: bool): Option<SourceItem> {
    var item := SourceItem(c.id, c.displayTitle, reasons, c.provider, c.resourceType, c.status,
                           if evidence then c.retrieval else None);
    if SourceOk(item) then Some(item) else None
  }

  // ---- the blocks; None is the ValueError ----

  function FindObjective(objectives: seq<Objective>, id: string): (r: Option<Objective>)
    ensures r.Some? ==> r.value in objectives && r.value.id == id
  {
    if objectives == [] then None
    else if objectives[0].id == id then Some(objectives[0])
    else FindObjective(objectives[1..], id)
  }

  function FindTask(tasks: seq<Task>, id: string): (r: Option<Task>)
    ensures r.Some? ==> r.value in tasks && r.value.id == id
    ensures r.None? ==> forall t | t in tasks :: t.id != id
  {
    if tasks == [] then None
    else if tasks[0].id == id then Some(tasks[0])
    else FindTask(tasks[1..], id)
  }

  predicate Indexed(ids: seq<string>, isId: string -> bool) {
    (forall i | 0 <= i < |ids| :: isId(ids[i])) && forall i, j | 0 <= i < j < |ids| :: ids[i] != ids[j]
  }

  function TaskIds(tasks: seq<Task>): (ids: seq<string>)
    ensures |ids| == |tasks| && forall i | 0 <= i < |tasks| :: ids[i] == tasks[i].id
  {
    seq(|tasks|, i requires 0 <= i < |tasks| => tasks[i].id)
  }

  function ObjectiveIds(objectives: seq<Objective>): (ids: seq<string>)
    ensures |ids| == |objectives| && forall i | 0 <= i < |objectives| :: ids[i] == objectives[i].id
  {
    seq(|objectives|, i requires 0 <= i < |objectives| => objectives[i].id)
  }

  function ResolveObjectives(ids: seq<string>, objectives: seq<Objective>): Option<seq<ObjectiveItem>> {
    if ids == [] then Some([])
    else if !IsObjectiveId(ids[0]) then None
    else
      match (FindObjective(objectives, ids[0]), ResolveObjectives(ids[1..], objectives))
      case (_, None) => None
      case (None, Some(rest)) => Some(rest)
      case (Some(o), Some(rest)) =>
        match ProjectObjective(o) case None => None case Some(item) => Some([item] + rest)
  }

  predicate ObjectiveLess(a: ObjectiveItem, b: ObjectiveItem) {
    TextLess(a.id, b.id)
  }

  predicate SourceLess(a: SourceItem, b: SourceItem) {
    TextLess(a.id, b.id)
  }

  type Key = (Kind, string)

  predicate KeyLess(a: Key, b: Key) {
    KindOrder(a.0) < KindOrder(b.0) || (a.0 == b.0 && TextLess(a.1, b.1))
  }

  predicate RelationLess(a: RelationItem, b: RelationItem) {
    KeyLess((a.kind, a.id), (b.kind, b.id))
  }

  lemma {:induction false} BlockOrders()
    ensures StrictWeak(ObjectiveLess) && StrictWeak(SourceLess) && StrictWeak(RelationLess) && StrictTotal(KeyLess)
  {
    TextLessTotal();
  }

  function SortObjectives(items: seq<ObjectiveItem>): (r: seq<ObjectiveItem>)
    ensures multiset(r) == multiset(items) && Sorted(ObjectiveLess, r)
  {
    BlockOrders();
    SortBy(ObjectiveLess, items)
  }

  function SortSources(items: seq<SourceItem>): (r: seq<SourceItem>)
    ensures multiset(r) == multiset(items) && Sorted(SourceLess, r)
  {
    BlockOrders();
    SortBy(SourceLess, items)
  }

  function SortRelations(items: seq<RelationItem>): (r: seq<RelationItem>)
    ensures multiset(r) == multiset(items) && Sorted(RelationLess, r)
  {
    BlockOrders();
    SortBy(RelationLess, items)
  }

  predicate AllTaskIds(ids: seq<string>) {
    forall i | 0 <= i < |ids| :: IsTaskId(ids[i])
  }

  /** The edges other records declare towards this Task. */
  function Incoming(id: string, tasks: seq<Task>): Option<seq<Key>> {
    if tasks == [] then Some([])
    else
      var record := tasks[|tasks| - 1];
      match Incoming(id, tasks[..|tasks| - 1])
      case None => None
      case Some(front) =>
        if !IsTaskId(record.id) then None
        else if record.id == id then Some(front)
        else if !AllTaskIds(record.dependencies) then None
        else Some(front + (if record.parent == Some(id) then [(Child, record.id)] else [])
                        + (if id in record.dependencies then [(Dependent, record.id)] else []))
  }

  function Pairs(id: string, task: Task, tasks: seq<Task>): Option<seq<Key>> {
    if (task.parent.Some? && !IsTaskId(task.parent.value)) || !AllTaskIds(task.dependencies) then None
    else
      match Incoming(id, tasks)
      case None => None
      case Some(incoming) =>
        Some((if task.parent.Some? then [(Parent, task.parent.value)] else []) +
             seq(|task.dependencies|, i requires 0 <= i < |task.dependencies| => (Dependency, task.dependencies[i])) +
             incoming)
  }

  /** Resolved pairs, each once, in the order first met. */
  function Resolve(pairs: seq<Key>, tasks: seq<Task>): Option<seq<RelationItem>> {
    if pairs == [] then Some([])
    else
      var front, last := pairs[..|pairs| - 1], pairs[|pairs| - 1];
      match (Resolve(front, tasks), FindTask(tasks, last.1))
      case (None, _) => None
      case (Some(items), None) => Some(items)
      case (Some(items), Some(record)) =>
        if last in front then Some(items)
        else match ProjectRelation(last.0, record) case None => None case Some(item) => Some(items + [item])
  }

  function Relationships(id: string, task: Task, tasks: seq<Task>): Option<seq<RelationItem>> {
    if !Indexed(TaskIds(tasks), IsTaskId) then None
    else
      match Pairs(id, task, tasks)
      case None => None
      case Some(pairs) =>
        match Resolve(pairs, tasks) case None => None case Some(items) => Some(SortRelations(items))
  }

  function ResolveSources(task: string, context: seq<ContextItem>, evidence: bool): Option<seq<SourceItem>> {
    if context == [] then Some([])
    else
      match ResolveSources(task, context[1..], evidence)
      case None => None
      case Some(rest) =>
        if context[0].kind != "capture" then Some(rest)
        else
          match LinkReasons(context[0].connections, task)
          case None => Some(rest)
          case Some(reasons) =>
            match ProjectSource(context[0], reasons, evidence) case None => None case Some(item) => Some([item] + rest)
  }

  datatype Blocks = Blocks(objectives: seq<ObjectiveItem>, relationships: seq<RelationItem>, sources: seq<SourceItem>)
  datatype Flags = Flags(objectives: bool, relationships: bool, sources: bool, worklog: bool)

  function Capped<T>(items: seq<T>, cap: nat): seq<T> {
    if |items| > cap then items[..cap] else items
  }

  function CappedBlocks(b: Blocks): Blocks {
    Blocks(Capped(b.objectives, OBJECTIVES_CAP), Capped(b.relationships, RELATIONSHIPS_CAP),
           Capped(b.sources, SOURCES_CAP))
  }

  function CapFlags(b: Blocks, more: bool): Flags {
    Flags(|b.objectives| > OBJECTIVES_CAP, |b.relationships| > RELATIONSHIPS_CAP, |b.sources| > SOURCES_CAP, more)
  }

  /** The uncapped blocks. */
  function Resolved(id: string, objectives: seq<Objective>, tasks: seq<Task>, context: seq<ContextItem>,
      evidence: bool): Option<Blocks>
  {
    if !Indexed(TaskIds(tasks), IsTaskId) || !Indexed(ObjectiveIds(objectives), IsObjectiveId) then None
    else
      match FindTask(tasks, id)
      case None => None
      case Some(selected) =>
        match (ResolveObjectives(selected.objectiveIds, objectives), Relationships(id, selected, tasks),
               ResolveSources(id, context, evidence))
        case (Some(o), Some(r), Some(s)) => Some(Blocks(SortObjectives(o), r, SortSources(s)))
        case _ => None
  }

  /** `build_planning_blocks`: the capped blocks and which of them overflowed (the worklog's flag is the caller's). */
  function Build(id: string, objectives: seq<Objective>, tasks: seq<Task>, context: seq<ContextItem>, evidence: bool,
      worklog: bool): Option<(Blocks, Flags)>
  {
    match Resolved(id, objectives, tasks, context, evidence)
    case None => None
    case Some(b) =>
      Some((CappedBlocks(b), CapFlags(b, worklog)))
  }

  // ---- duality of relationship edges, before capping ----

  /** The record declares the edge that this kind names, seen from the Task with this id. */
  predicate Declares(kind: Kind, id: string, own: Task, record: Task) {
    match kind
    case Parent => own.parent == Some(record.id)
    case Dependency => record.id in own.dependencies
    case Child => record.id != id && record.parent == Some(id)
    case Dependent => record.id != id && id in record.dependencies
  }

  lemma {:induction false} IncomingMeans(id: string, tasks: seq<Task>)
    requires Incoming(id, tasks).Some?
    ensures forall kind, u :: (kind, u) in Incoming(id, tasks).value <==>
              exists t :: t in tasks && t.id == u && t.id != id &&
                          ((kind.Child? && t.parent == Some(id)) || (kind.Dependent? && id in t.dependencies))
    decreases |tasks|
  {
    if tasks != [] {
      var front, last := tasks[..|tasks| - 1], tasks[|tasks| - 1];
      IncomingMeans(id, front);
      assert forall t :: t in tasks <==> t in front || t == last;
    }
  }

  lemma {:induction false} PairsMean(id: string, task: Task, tasks: seq<Task>, kind: Kind, record: Task)
    requires Pairs(id, task, tasks).Some? && record in tasks && task in tasks && task.id == id
    requires forall t | t in tasks && t.id == record.id :: t == record
    ensures (kind, record.id) in Pairs(id, task, tasks).value <==> Declares(kind, id, task, record)
  {
    IncomingMeans(id, tasks);
    var incoming := Incoming(id, tasks).value;
    var parents: seq<Key> := if task.parent.Some? then [(Parent, task.parent.value)] else [];
    var dependencies: seq<Key> :=
      seq(|task.dependencies|, i requires 0 <= i < |task.dependencies| => (Dependency, task.dependencies[i]));
    assert Pairs(id, task, tasks).value == parents + dependencies + incoming;
    assert forall k :: k in parents + dependencies + incoming <==> k in parents || k in dependencies || k in incoming;
    if record.id in task.dependencies {
      var i :| 0 <= i < |task.dependencies| && task.dependencies[i] == record.id;
      assert dependencies[i] == (Dependency, record.id);
    }
  }

  function KeyOf(item: RelationItem): Key {
    (item.kind, item.id)
  }

  function Keys(items: seq<RelationItem>): (keys: seq<Key>)
    ensures |keys| == |items| && forall i | 0 <= i < |items| :: keys[i] == KeyOf(items[i])
  {
    seq(|items|, i requires 0 <= i < |items| => KeyOf(items[i]))
  }

  lemma {:induction false} ResolveMeans(pairs: seq<Key>, tasks: seq<Task>)
    requires Resolve(pairs, tasks).Some?
    ensures var items := Resolve(pairs, tasks).value;
            && Distinct(Keys(items))
            && (forall i | 0 <= i < |items| :: RelationOk(items[i]))
            && forall k :: k in Keys(items) <==> k in pairs && FindTask(tasks, k.1).Some?
    decreases |pairs|
  {
    if pairs != [] {
      var front, last := pairs[..|pairs| - 1], pairs[|pairs| - 1];
      ResolveMeans(front, tasks);
      assert forall k :: k in pairs <==> k in front || k == last;
      var before, items := Resolve(front, tasks).value, Resolve(pairs, tasks).value;
      if items != before {
        assert Keys(items) == Keys(before) + [last];
      }
    }
  }

  lemma {:induction false} KeysPermute(a: seq<RelationItem>, b: seq<RelationItem>)
    requires multiset(a) == multiset(b)
    ensures multiset(Keys(a)) == multiset(Keys(b))
  {
    var f := (item: RelationItem) => KeyOf(item);
    MappedPermutes(f, a, b);
    assert Mapped(f, a) == Keys(a) && Mapped(f, b) == Keys(b);
  }

  /** The keys rendered for a Task, before capping. */
  ghost predicate Edge(id: string, task: Task, tasks: seq<Task>, kind: Kind, u: string)
    requires Relationships(id, task, tasks).Some?
  {
    (kind, u) in Keys(Relationships(id, task, tasks).value)
  }

  lemma {:induction false} RelationshipsMean(id: string, task: Task, tasks: seq<Task>)
    requires Relationships(id, task, tasks).Some? && FindTask(tasks, id) == Some(task)
    ensures Distinct(Keys(Relationships(id, task, tasks).value))
    ensures forall kind, record | record in tasks ::
              Edge(id, task, tasks, kind, record.id) <==> Declares(kind, id, task, record)
    ensures forall kind, u | Edge(id, task, tasks, kind, u) :: FindTask(tasks, u).Some?
  {
    var pairs := Pairs(id, task, tasks).value;
    var items := Resolve(pairs, tasks).value;
    var sorted := SortRelations(items);
    ResolveMeans(pairs, tasks);
    KeysPermute(items, sorted);
    DistinctPermutes(Keys(items), Keys(sorted));
    forall k: Key ensures k in Keys(sorted) <==> k in Keys(items) {
      assert k in multiset(Keys(sorted)) <==> k in multiset(Keys(items));
    }
    forall kind, record | record in tasks
      ensures Edge(id, task, tasks, kind, record.id) <==> Declares(kind, id, task, record)
    {
      UniqueRecord(tasks, record);
      PairsMean(id, task, tasks, kind, record);
    }
  }

  /** Relationships come parents first, then dependencies, children and dependents, each kind in the order of
      ids. */
  lemma {:induction false} RelationshipsInOrder(id: string, task: Task, tasks: seq<Task>, i: nat, j: nat)
    requires Relationships(id, task, tasks).Some? && i < j < |Relationships(id, task, tasks).value|
    ensures var a, b := Relationships(id, task, tasks).value[i], Relationships(id, task, tasks).value[j];
            && (b.kind.Parent? ==> a.kind.Parent?) && (a.kind.Dependent? ==> b.kind.Dependent?)
            && (b.kind.Dependency? ==> a.kind.Parent? || a.kind.Dependency?)
            && (a.kind == b.kind ==> TextLess(a.id, b.id))
  {
    var items := Resolve(Pairs(id, task, tasks).value, tasks).value;
    var sorted := SortRelations(items);
    ResolveMeans(Pairs(id, task, tasks).value, tasks);
    KeysPermute(items, sorted);
    DistinctPermutes(Keys(items), Keys(sorted));
    TextLessTotal();
    assert !RelationLess(sorted[j], sorted[i]) && Keys(sorted)[i] != Keys(sorted)[j];
  }

  lemma {:induction false} UniqueRecord(tasks: seq<Task>, record: Task)
    requires Indexed(TaskIds(tasks), IsTaskId) && record in tasks
    ensures forall t | t in tasks && t.id == record.id :: t == record
    ensures FindTask(tasks, record.id) == Some(record)
  {
    forall t | t in tasks && t.id == record.id ensures t == record {
      var i :| 0 <= i < |tasks| && tasks[i] == t;
      var j :| 0 <= j < |tasks| && tasks[j] == record;
      assert TaskIds(tasks)[i] == TaskIds(tasks)[j];
    }
  }

  /** The other end of an edge. */
  function Opposite(kind: Kind): Kind {
    match kind case Parent => Child case Child => Parent case Dependency => Dependent case Dependent => Dependency
  }

  lemma {:induction false} DeclaresOpposite(kind: Kind, t: Task, u: Task)
    requires t.id != u.id
    ensures Declares(kind, t.id, t, u) <==> Declares(Opposite(kind), u.id, u, t)
  {
  }

  lemma {:induction false} EdgeMeans(t: Task, tasks: seq<Task>, kind: Kind, record: Task)
    requires Relationships(t.id, t, tasks).Some? && t in tasks && record in tasks
    ensures Edge(t.id, t, tasks, kind, record.id) <==> Declares(kind, t.id, t, record)
    ensures Distinct(Keys(Relationships(t.id, t, tasks).value))
  {
    UniqueRecord(tasks, t);
    RelationshipsMean(t.id, t, tasks);
  }

  /** For two different Tasks of one projection, each edge one of them shows is the opposite edge on the
      other, and each edge is shown once. */
  lemma {:induction false} EdgesAreDual(t: Task, u: Task, tasks: seq<Task>, kind: Kind)
    requires t in tasks && u in tasks && t.id != u.id
    requires Relationships(t.id, t, tasks).Some? && Relationships(u.id, u, tasks).Some?
    ensures Edge(t.id, t, tasks, kind, u.id) <==> Edge(u.id, u, tasks, Opposite(kind), t.id)
    ensures Distinct(Keys(Relationships(t.id, t, tasks).value))
  {
    EdgeMeans(t, tasks, kind, u);
    EdgeMeans(u, tasks, Opposite(kind), t);
    DeclaresOpposite(kind, t, u);
  }

  // ---- the data that is rendered, and its validator ----

  datatype Marker =
    | Actions | Attachments | CaptureBodies | CaptureLocators | Notes | ProvenanceOmitted | WorkSessions
    | ObjectivesOverflow | RelationshipsOverflow | SourcesOverflow | WorklogOverflow

  const CATEGORIES: seq<Marker> :=
    [Actions, Attachments, CaptureBodies, CaptureLocators, Notes, ProvenanceOmitted, WorkSessions]

  /** `core` stands for the workspace and Task projection, which nothing here changes. */
  datatype Pack = Pack(core: string, blocks: Blocks, worklog: seq<string>, omitted: seq<Marker>, evidenceView: bool)

  /** The fixed categories, a marker per overflowed block (already in alphabetical order), the core marker last. */
  function Markers(flags: Flags): seq<Marker> {
    CATEGORIES
    + (if flags.objectives then [ObjectivesOverflow] else [])
    + (if flags.relationships then [RelationshipsOverflow] else [])
    + (if flags.sources then [SourcesOverflow] else [])
    + (if flags.worklog then [WorklogOverflow] else [])
  }

  function ObjectiveItemIds(items: seq<ObjectiveItem>): (ids: seq<string>)
    ensures |ids| == |items| && forall i | 0 <= i < |items| :: ids[i] == items[i].id
  {
    seq(|items|, i requires 0 <= i < |items| => items[i].id)
  }

  function SourceItemIds(items: seq<SourceItem>): (ids: seq<string>)
    ensures |ids| == |items| && forall i | 0 <= i < |items| :: ids[i] == items[i].id
  {
    seq(|items|, i requires 0 <= i < |items| => items[i].id)
  }

  function SortKeys(keys: seq<Key>): (r: seq<Key>)
    ensures multiset(r) == multiset(keys) && Sorted(KeyLess, r)
  {
    BlockOrders();
    SortBy(KeyLess, keys)
  }

  ghost predicate ObjectivesValid(items: seq<ObjectiveItem>) {
    && |items| <= OBJECTIVES_CAP && (forall i | 0 <= i < |items| :: ObjectiveOk(items[i]))
    && Distinct(ObjectiveItemIds(items)) && ObjectiveItemIds(items) == SortedTexts(ObjectiveItemIds(items))
  }

  ghost predicate RelationshipsValid(items: seq<RelationItem>) {
    && |items| <= RELATIONSHIPS_CAP && (forall i | 0 <= i < |items| :: RelationOk(items[i]))
    && Distinct(Keys(items)) && Keys(items) == SortKeys(Keys(items))
  }

  ghost predicate SourcesValid(items: seq<SourceItem>, evidenceView: bool) {
    && |items| <= SOURCES_CAP && SourcesOk(items, evidenceView)
    && Distinct(SourceItemIds(items)) && SourceItemIds(items) == SortedTexts(SourceItemIds(items))
  }

  ghost predicate MarkersValid(omitted: seq<Marker>) {
    Distinct(omitted) && forall m | m in CATEGORIES :: m in omitted
  }

  /** `validate_planning_data` accepts. */
  ghost predicate Validated(p: Pack) {
    && ObjectivesValid(p.blocks.objectives) && RelationshipsValid(p.blocks.relationships)
    && SourcesValid(p.blocks.sources, p.evidenceView) && MarkersValid(p.omitted)
  }

  // ---- what the validator accepts ----

  /** `sorted` changes nothing and no id repeats: the ids strictly rise. */
  lemma {:induction false} RisingIds(ids: seq<string>)
    ensures Distinct(ids) && ids == SortedTexts(ids) <==> StrictlySorted(TextLess, ids)
  {
    TextLessTotal();
    if StrictlySorted(TextLess, ids) {
      SortedTextsFixed(ids);
    }
  }

  lemma {:induction false} RisingKeys(keys: seq<Key>)
    ensures Distinct(keys) && keys == SortKeys(keys) <==> StrictlySorted(KeyLess, keys)
  {
    BlockOrders();
    if StrictlySorted(KeyLess, keys) {
      SortedKeysFixed(keys);
    }
  }

  lemma {:induction false} ObjectivesValidMeans(items: seq<ObjectiveItem>)
    ensures ObjectivesValid(items) <==>
              |items| <= 5 && (forall x | x in items :: ObjectiveOk(x)) &&
              StrictlySorted(TextLess, ObjectiveItemIds(items))
  {
    RisingIds(ObjectiveItemIds(items));
    assert forall i | 0 <= i < |items| :: items[i] in items;
  }

  lemma {:induction false} RelationshipsValidMeans(items: seq<RelationItem>)
    ensures RelationshipsValid(items) <==>
              |items| <= 10 && (forall x | x in items :: RelationOk(x)) && StrictlySorted(KeyLess, Keys(items))
  {
    RisingKeys(Keys(items));
    assert forall i | 0 <= i < |items| :: items[i] in items;
  }

  lemma {:induction false} SourcesValidMeans(items: seq<SourceItem>, evidenceView: bool)
    ensures SourcesValid(items, evidenceView) <==>
              |items| <= 5 && (forall x | x in items :: SourceOk(x) && (x.evidence.Some? ==> evidenceView)) &&
              StrictlySorted(TextLess, SourceItemIds(items))
  {
    RisingIds(SourceItemIds(items));
    assert forall i | 0 <= i < |items| :: items[i] in items;
  }

  lemma {:induction false} CategoriesAre(omitted: seq<Marker>)
    ensures (forall m | m in CATEGORIES :: m in omitted) <==>
              {Actions, Attachments, CaptureBodies, CaptureLocators, Notes, ProvenanceOmitted, WorkSessions} <=
              (set m | m in omitted)
  {
    assert forall m :: m in CATEGORIES <==>
             m in {Actions, Attachments, CaptureBodies, CaptureLocators, Notes, ProvenanceOmitted, WorkSessions};
  }

  /** The validator, said with orders instead of sorting: at most five objectives and five sources and ten
      relationships, each well formed, strictly rising by id, or by kind and id; evidence only in its own view;
      and an omission list that holds the fixed categories and nothing twice. */
  lemma {:induction false} ValidatedMeans(p: Pack)
    ensures Validated(p) <==>
              && |p.blocks.objectives| <= 5 && (forall x | x in p.blocks.objectives :: ObjectiveOk(x))
              && StrictlySorted(TextLess, ObjectiveItemIds(p.blocks.objectives))
              && |p.blocks.relationships| <= 10 && (forall x | x in p.blocks.relationships :: RelationOk(x))
              && StrictlySorted(KeyLess, Keys(p.blocks.relationships))
              && |p.blocks.sources| <= 5
              && (forall x | x in p.blocks.sources :: SourceOk(x) && (x.evidence.Some? ==> p.evidenceView))
              && StrictlySorted(TextLess, SourceItemIds(p.blocks.sources))
              && Distinct(p.omitted)
              && {Actions, Attachments, CaptureBodies, CaptureLocators, Notes, ProvenanceOmitted, WorkSessions} <=
                 (set m | m in p.omitted)
  {
    ObjectivesValidMeans(p.blocks.objectives);
    RelationshipsValidMeans(p.blocks.relationships);
    SourcesValidMeans(p.blocks.sources, p.evidenceView);
    CategoriesAre(p.omitted);
  }

  // ---- shrinking ----

  function Min(a: int, b: int): int {
    if a < b then a else b
  }

  function Total(p: Pack): nat {
    |p.blocks.sources| + |p.blocks.relationships| + |p.blocks.objectives| + |p.worklog|
  }

  /** How many items of each block have gone after `k`: sources first, then relationships, objectives, worklog. */
  datatype Cuts = Cuts(sources: nat, relationships: nat, objectives: nat, worklog: nat)

  function CutsAt(p: Pack, k: nat): (c: Cuts)
    requires k <= Total(p)
    ensures c.sources + c.relationships + c.objectives + c.worklog == k
    ensures c.sources <= |p.blocks.sources| && c.relationships <= |p.blocks.relationships|
    ensures c.objectives <= |p.blocks.objectives| && c.worklog <= |p.worklog|
    ensures c.relationships > 0 ==> c.sources == |p.blocks.sources|
    ensures c.objectives > 0 ==> c.sources == |p.blocks.sources| && c.relationships == |p.blocks.relationships|
    ensures c.worklog > 0 ==>
              c.sources == |p.blocks.sources| && c.relationships == |p.blocks.relationships| &&
              c.objectives == |p.blocks.objectives|
  {
    var s := Min(k, |p.blocks.sources|);
    var r := Min(k - s, |p.blocks.relationships|);
    var o := Min(k - s - r, |p.blocks.objectives|);
    Cuts(s, r, o, k - s - r - o)
  }

  /** The list without its last `n` items. */
  function Shorter<T>(items: seq<T>, n: nat): (r: seq<T>)
    requires n <= |items|
    ensures |r| == |items| - n
  {
    items[..|items| - n]
  }

  /** The data without that many last items of each block. */
  function Without(p: Pack, c: Cuts, omitted: seq<Marker>): Pack
    requires c.sources <= |p.blocks.sources| && c.relationships <= |p.blocks.relationships|
    requires c.objectives <= |p.blocks.objectives| && c.worklog <= |p.worklog|
  {
    var b := p.blocks;
    Pack(p.core,
         Blocks(Shorter(b.objectives, c.objectives), Shorter(b.relationships, c.relationships),
                Shorter(b.sources, c.sources)),
         Shorter(p.worklog, c.worklog), omitted, p.evidenceView)
  }

  /** A block's flag is up if it was up before or the block has lost an item. */
  function FlagsFor(flags: Flags, c: Cuts): Flags {
    Flags(flags.objectives || c.objectives > 0, flags.relationships || c.relationships > 0,
          flags.sources || c.sources > 0, flags.worklog || c.worklog > 0)
  }

  function FlagsAfter(p: Pack, flags: Flags, k: nat): Flags
    requires k <= Total(p)
  {
    FlagsFor(flags, CutsAt(p, k))
  }

  /** The data after `k` items have been given up. */
  function Trimmed(p: Pack, flags: Flags, k: nat): Pack
    requires k <= Total(p)
  {
    Without(p, CutsAt(p, k), if k == 0 then p.omitted else Markers(FlagsAfter(p, flags, k)))
  }

  function Stage(p: Pack, flags: Flags): nat -> Pack {
    (k: nat) => if k <= Total(p) then Trimmed(p, flags, k) else p
  }

  /** Give up items one at a time until the data fits; false when even the emptied data does not. */
  function Shrunk(p: Pack, flags: Flags, size: Pack -> nat, limit: nat): (Pack, bool) {
    FirstFit(Stage(p, flags), size, limit, Total(p), 0)
  }

  /** The data without the last item of the furthest block that has one. */
  function WithoutLast(p: Pack): Pack {
    var b := p.blocks;
    if b.sources != [] then p.(blocks := b.(sources := b.sources[..|b.sources| - 1]))
    else if b.relationships != [] then p.(blocks := b.(relationships := b.relationships[..|b.relationships| - 1]))
    else if b.objectives != [] then p.(blocks := b.(objectives := b.objectives[..|b.objectives| - 1]))
    else if p.worklog != [] then p.(worklog := p.worklog[..|p.worklog| - 1])
    else p
  }

  /** The flag of that block, raised. */
  function RaisedOne(p: Pack, flags: Flags): Flags {
    if p.blocks.sources != [] then flags.(sources := true)
    else if p.blocks.relationships != [] then flags.(relationships := true)
    else if p.blocks.objectives != [] then flags.(objectives := true)
    else if p.worklog != [] then flags.(worklog := true)
    else flags
  }

  lemma {:induction false} ShorterByNone<T>(s: seq<T>)
    ensures Shorter(s, 0) == s
  {
  }

  lemma {:induction false} OneGivenUp(p: Pack, flags: Flags, omitted: seq<Marker>)
    ensures Total(p) > 0 ==> Trimmed(p, flags, 1).(omitted := omitted) == WithoutLast(p).(omitted := omitted)
    ensures Total(p) > 0 ==> FlagsAfter(p, flags, 1) == RaisedOne(p, flags)
  {
    ShorterByNone(p.blocks.sources);
    ShorterByNone(p.blocks.relationships);
    ShorterByNone(p.blocks.objectives);
    ShorterByNone(p.worklog);
  }

  /** The `data` mapping while it is being shrunk. */
  class PlanningData {
    const core: string
    const evidenceView: bool
    var objectives: seq<ObjectiveItem>
    var relationships: seq<RelationItem>
    var sources: seq<SourceItem>
    var worklog: seq<string>
    var omitted: seq<Marker>

    constructor (p: Pack)
      ensures Value() == p
    {
      core, evidenceView := p.core, p.evidenceView;
      objectives, relationships, sources := p.blocks.objectives, p.blocks.relationships, p.blocks.sources;
      worklog, omitted := p.worklog, p.omitted;
    }

    function Value(): Pack
      reads this
    {
      Pack(core, Blocks(objectives, relationships, sources), worklog, omitted, evidenceView)
    }

    /** `_drop_one`: gives up the last item of the furthest block that has one. The flags returned include it. */
    method DropOne(flags: Flags) returns (dropped: bool, after: Flags)
      modifies this`objectives, this`relationships, this`sources, this`worklog
      ensures dropped <==> Total(old(Value())) > 0
      ensures !dropped ==> after == flags && Value() == old(Value())
      ensures dropped ==> Value() == Trimmed(old(Value()), flags, 1).(omitted := omitted)
      ensures dropped ==> after == FlagsAfter(old(Value()), flags, 1)
    {
      dropped, after := true, flags;
      OneGivenUp(Value(), flags, omitted);
      if sources != [] {
        sources := sources[..|sources| - 1];
        after := flags.(sources := true);
      } else if relationships != [] {
        relationships := relationships[..|relationships| - 1];
        after := flags.(relationships := true);
      } else if objectives != [] {
        objectives := objectives[..|objectives| - 1];
        after := flags.(objectives := true);
      } else if worklog != [] {
        worklog := worklog[..|worklog| - 1];
        after := flags.(worklog := true);
      } else {
        dropped := false;
      }
    }

    /** One round of the loop: an item less, and the omission markers rewritten. */
    method DropAndMark(flags: Flags) returns (dropped: bool, after: Flags)
      modifies this
      ensures dropped <==> Total(old(Value())) > 0
      ensures !dropped ==> Value() == old(Value())
      ensures dropped ==> after == FlagsAfter(old(Value()), flags, 1)
      ensures dropped ==> Value() == Trimmed(old(Value()), flags, 1).(omitted := Markers(after))
    {
      dropped, after := DropOne(flags);
      if dropped {
        omitted := Markers(after);
      }
    }

    /** `shrink_planning_data`. */
    method Shrink(flags: Flags, size: Pack -> nat, limit: nat) returns (fits: bool)
      modifies this
      ensures (Value(), fits) == Shrunk(old(Value()), flags, size, limit)
    {
      ghost var p := Value();
      ghost var stage := Stage(p, flags);
      ghost var k := 0;
      var now := flags;
      var current := Value();
      TrimmedNothing(p, flags);
      while size(current) > limit
        invariant current == Value()
        invariant 0 <= k <= Total(p) && AtStage(p, flags, k, current, now)
        invariant FirstFit(stage, size, limit, Total(p), k) == FirstFit(stage, size, limit, Total(p), 0)
        invariant stage(k) == current
        decreases Total(p) - k
      {
        var dropped;
        StageTotal(p, flags, k, current, now);
        dropped, now := DropAndMark(now);
        if !dropped {
          return false;
        }
        NextStage(p, flags, k, current, now);
        current := Value();
        k := k + 1;
      }
      return true;
    }
  }

  ghost predicate AtStage(p: Pack, flags: Flags, k: nat, q: Pack, now: Flags)
    requires k <= Total(p)
  {
    q == Trimmed(p, flags, k) && now == FlagsAfter(p, flags, k)
  }

  lemma {:induction false} StageTotal(p: Pack, flags: Flags, k: nat, q: Pack, now: Flags)
    requires k <= Total(p) && AtStage(p, flags, k, q, now)
    ensures Total(q) == Total(p) - k
  {
    TrimmedTotal(p, flags, k);
  }

  lemma {:induction false} NextStage(p: Pack, flags: Flags, k: nat, q: Pack, next: Flags)
    requires k < Total(p) && Total(q) == Total(p) - k && q == Trimmed(p, flags, k)
    requires next == FlagsAfter(q, FlagsAfter(p, flags, k), 1)
    ensures AtStage(p, flags, k + 1, Trimmed(q, FlagsAfter(p, flags, k), 1).(omitted := Markers(next)), next)
  {
    TrimmedOneMore(p, flags, k);
  }

  lemma {:induction false} TrimmedNothing(p: Pack, flags: Flags)
    ensures Trimmed(p, flags, 0) == p && FlagsAfter(p, flags, 0) == flags
  {
  }

  lemma {:induction false} ShorterTwice<T>(s: seq<T>, n: nat, m: nat)
    requires n + m <= |s|
    ensures Shorter(Shorter(s, n), m) == Shorter(s, n + m)
  {
  }

  function Plus(c: Cuts, d: Cuts): Cuts {
    Cuts(c.sources + d.sources, c.relationships + d.relationships, c.objectives + d.objectives, c.worklog + d.worklog)
  }

  lemma {:induction false} WithoutMore(p: Pack, c: Cuts, d: Cuts, omitted: seq<Marker>, last: seq<Marker>)
    requires c.sources + d.sources <= |p.blocks.sources|
    requires c.relationships + d.relationships <= |p.blocks.relationships|
    requires c.objectives + d.objectives <= |p.blocks.objectives| && c.worklog + d.worklog <= |p.worklog|
    ensures Without(Without(p, c, omitted), d, last) == Without(p, Plus(c, d), last)
  {
    ShorterTwice(p.blocks.sources, c.sources, d.sources);
    ShorterTwice(p.blocks.relationships, c.relationships, d.relationships);
    ShorterTwice(p.blocks.objectives, c.objectives, d.objectives);
    ShorterTwice(p.worklog, c.worklog, d.worklog);
  }

  lemma {:induction false} OneCut(p: Pack, k: nat, q: Pack)
    requires k < Total(p) && q == Without(p, CutsAt(p, k), q.omitted)
    ensures Total(q) == Total(p) - k
    ensures CutsAt(p, k + 1) == Plus(CutsAt(p, k), CutsAt(q, 1))
  {
  }

  /** Cutting `k` items and then one more is cutting `k + 1`, whatever is written as omitted. */
  lemma {:induction false} WithoutOneMore(p: Pack, k: nat, omitted: seq<Marker>, last: seq<Marker>)
    requires k < Total(p)
    ensures var q := Without(p, CutsAt(p, k), omitted);
            && Total(q) == Total(p) - k
            && CutsAt(p, k + 1) == Plus(CutsAt(p, k), CutsAt(q, 1))
            && Without(q, CutsAt(q, 1), last) == Without(p, CutsAt(p, k + 1), last)
  {
    var q := Without(p, CutsAt(p, k), omitted);
    OneCut(p, k, q);
    WithoutMore(p, CutsAt(p, k), CutsAt(q, 1), omitted, last);
  }

  lemma {:induction false} FlagsMore(flags: Flags, c: Cuts, d: Cuts)
    ensures FlagsFor(FlagsFor(flags, c), d) == FlagsFor(flags, Plus(c, d))
  {
  }

  lemma {:induction false} TrimmedTotal(p: Pack, flags: Flags, k: nat)
    requires k <= Total(p)
    ensures Total(Trimmed(p, flags, k)) == Total(p) - k
  {
  }

  /** Giving up one more item after `k` is giving up `k + 1`. */
  lemma {:induction false} TrimmedOneMore(p: Pack, flags: Flags, k: nat)
    requires k < Total(p) && Total(Trimmed(p, flags, k)) == Total(p) - k
    ensures FlagsAfter(Trimmed(p, flags, k), FlagsAfter(p, flags, k), 1) == FlagsAfter(p, flags, k + 1)
    ensures Trimmed(Trimmed(p, flags, k), FlagsAfter(p, flags, k), 1)
              .(omitted := Markers(FlagsAfter(p, flags, k + 1))) ==
            Trimmed(p, flags, k + 1)
  {
    var q := Trimmed(p, flags, k);
    WithoutOneMore(p, k, q.omitted, Markers(FlagsAfter(p, flags, k + 1)));
    FlagsMore(flags, CutsAt(p, k), CutsAt(q, 1));
  }

  // ---- what is built passes the validator ----

  lemma {:induction false} DistinctTail(ids: seq<string>)
    requires Distinct(ids) && ids != []
    ensures Distinct(ids[1..]) && ids[0] !in ids[1..]
  {
    forall i | 0 <= i < |ids| - 1 ensures ids[1..][i] != ids[0] {
      assert ids[0] != ids[i + 1];
    }
  }

  /** The ids the Task lists that the material holds, in the order listed, repeats and all. */
  function KnownIds(ids: seq<string>, objectives: seq<Objective>): seq<string> {
    if ids == [] then []
    else (if FindObjective(objectives, ids[0]).Some? then [ids[0]] else []) + KnownIds(ids[1..], objectives)
  }

  lemma {:induction false} ResolveObjectivesOk(ids: seq<string>, objectives: seq<Objective>)
    requires ResolveObjectives(ids, objectives).Some?
    ensures var items := ResolveObjectives(ids, objectives).value;
            && (forall i | 0 <= i < |items| :: ObjectiveOk(items[i]))
            && ObjectiveItemIds(items) == KnownIds(ids, objectives)
  {
    if ids != [] {
      ResolveObjectivesOk(ids[1..], objectives);
      var tail := ResolveObjectives(ids[1..], objectives).value;
      var items := ResolveObjectives(ids, objectives).value;
      if items != tail {
        assert ObjectiveItemIds(items) == [items[0].id] + ObjectiveItemIds(tail);
      }
    }
  }

  lemma {:induction false} DistinctCons(id: string, ids: seq<string>)
    requires Distinct(ids) && id !in ids
    ensures Distinct([id] + ids)
  {
  }

  lemma {:induction false} KnownIdsListed(ids: seq<string>, objectives: seq<Objective>)
    ensures forall id | id in KnownIds(ids, objectives) :: id in ids
  {
    if ids != [] {
      KnownIdsListed(ids[1..], objectives);
      assert forall id | id in ids[1..] :: id in ids;
    }
  }

  lemma {:induction false} KnownIdsDistinct(ids: seq<string>, objectives: seq<Objective>)
    requires Distinct(ids)
    ensures Distinct(KnownIds(ids, objectives))
  {
    if ids != [] {
      var rest := KnownIds(ids[1..], objectives);
      DistinctTail(ids);
      KnownIdsListed(ids[1..], objectives);
      KnownIdsDistinct(ids[1..], objectives);
      DistinctCons(ids[0], rest);
      assert [] + rest == rest;
    }
  }

  /** A Capture of the context that is linked to this Task. */
  predicate LinkedCapture(c: ContextItem, task: string) {
    c.kind == "capture" && LinkReasons(c.connections, task).Some?
  }

  /** The ids of the linked Captures in the order of the context, repeats and all. */
  function LinkedIds(task: string, context: seq<ContextItem>): seq<string> {
    if context == [] then []
    else (if LinkedCapture(context[0], task) then [context[0].id] else []) + LinkedIds(task, context[1..])
  }

  ghost predicate SourcesOk(items: seq<SourceItem>, evidence: bool) {
    forall i | 0 <= i < |items| :: SourceOk(items[i]) && (items[i].evidence.Some? ==> evidence)
  }

  lemma {:induction false} SourceConsIds(item: SourceItem, tail: seq<SourceItem>)
    ensures SourceItemIds([item] + tail) == [item.id] + SourceItemIds(tail)
  {
  }

  lemma {:induction false} ResolveSourcesStep(task: string, context: seq<ContextItem>, evidence: bool)
    requires context != [] && ResolveSources(task, context, evidence).Some?
    ensures ResolveSources(task, context[1..], evidence).Some?
    ensures var tail := ResolveSources(task, context[1..], evidence).value;
            var items := ResolveSources(task, context, evidence).value;
            if LinkedCapture(context[0], task)
            then items != [] && items == [items[0]] + tail && SourcesOk([items[0]], evidence) &&
                 items[0].id == context[0].id
            else items == tail
  {
  }

  lemma {:induction false} ResolveSourcesOk(task: string, context: seq<ContextItem>, evidence: bool)
    requires ResolveSources(task, context, evidence).Some?
    ensures SourcesOk(ResolveSources(task, context, evidence).value, evidence)
    ensures SourceItemIds(ResolveSources(task, context, evidence).value) == LinkedIds(task, context)
  {
    if context != [] {
      ResolveSourcesStep(task, context, evidence);
      ResolveSourcesOk(task, context[1..], evidence);
      if LinkedCapture(context[0], task) {
        var items := ResolveSources(task, context, evidence).value;
        var tail := ResolveSources(task, context[1..], evidence).value;
        SourceConsIds(items[0], tail);
        assert [items[0]][0] == items[0];
      }
    }
  }

  /** The ids of the Capture items of the context. */
  function CaptureIds(context: seq<ContextItem>): (ids: seq<string>) {
    if context == [] then []
    else (if context[0].kind == "capture" then [context[0].id] else []) + CaptureIds(context[1..])
  }

  lemma {:induction false} LinkedIdsListed(task: string, context: seq<ContextItem>)
    ensures forall id | id in LinkedIds(task, context) :: id in CaptureIds(context)
  {
    if context != [] {
      LinkedIdsListed(task, context[1..]);
      assert forall id | id in CaptureIds(context[1..]) :: id in CaptureIds(context);
    }
  }

  lemma {:induction false} CaptureIdsTail(context: seq<ContextItem>)
    requires context != [] && Distinct(CaptureIds(context))
    ensures Distinct(CaptureIds(context[1..]))
    ensures context[0].kind == "capture" ==> context[0].id !in CaptureIds(context[1..])
  {
    var ids, rest := CaptureIds(context), CaptureIds(context[1..]);
    if context[0].kind == "capture" {
      assert ids[1..] == rest;
      DistinctTail(ids);
    } else {
      assert ids == rest;
    }
  }

  lemma {:induction false} LinkedIdsDistinct(task: string, context: seq<ContextItem>)
    requires Distinct(CaptureIds(context))
    ensures Distinct(LinkedIds(task, context))
  {
    if context != [] {
      var rest := LinkedIds(task, context[1..]);
      CaptureIdsTail(context);
      LinkedIdsListed(task, context[1..]);
      LinkedIdsDistinct(task, context[1..]);
      if LinkedCapture(context[0], task) {
        DistinctCons(context[0].id, rest);
      } else {
        assert [] + rest == rest;
      }
    }
  }

  /** The full blocks hold valid items in order. */
  ghost predicate Orderly(b: Blocks, evidence: bool) {
    && (forall i | 0 <= i < |b.objectives| :: ObjectiveOk(b.objectives[i])) && Sorted(ObjectiveLess, b.objectives)
    && (forall i | 0 <= i < |b.relationships| :: RelationOk(b.relationships[i]))
    && Sorted(RelationLess, b.relationships)
    && Distinct(Keys(b.relationships))
    && SourcesOk(b.sources, evidence) && Sorted(SourceLess, b.sources)
  }

  lemma {:induction false} SortedTextsPermute(a: seq<string>, b: seq<string>)
    requires multiset(a) == multiset(b)
    ensures SortedTexts(a) == SortedTexts(b)
  {
    TextLessTotal();
    SortedUnique(TextLess, SortedTexts(a), SortedTexts(b));
  }

  lemma {:induction false} ObjectiveIdsSorted(items: seq<ObjectiveItem>)
    requires Sorted(ObjectiveLess, items)
    ensures ObjectiveItemIds(items) == SortedTexts(ObjectiveItemIds(items))
  {
    var ids := ObjectiveItemIds(items);
    forall i, j | 0 <= i < j < |ids| ensures !TextLess(ids[j], ids[i]) {
      assert !ObjectiveLess(items[j], items[i]);
    }
    SortedTextsFixed(ids);
  }

  lemma {:induction false} SourceIdsSorted(items: seq<SourceItem>)
    requires Sorted(SourceLess, items)
    ensures SourceItemIds(items) == SortedTexts(SourceItemIds(items))
  {
    var ids := SourceItemIds(items);
    forall i, j | 0 <= i < j < |ids| ensures !TextLess(ids[j], ids[i]) {
      assert !SourceLess(items[j], items[i]);
    }
    SortedTextsFixed(ids);
  }

  /** Sorting objectives sorts their ids. */
  lemma {:induction false} SortedObjectiveIds(items: seq<ObjectiveItem>)
    ensures ObjectiveItemIds(SortObjectives(items)) == SortedTexts(ObjectiveItemIds(items))
  {
    var f, sorted := (item: ObjectiveItem) => item.id, SortObjectives(items);
    MappedPermutes(f, sorted, items);
    assert Mapped(f, items) == ObjectiveItemIds(items) && Mapped(f, sorted) == ObjectiveItemIds(sorted);
    SortedTextsPermute(ObjectiveItemIds(sorted), ObjectiveItemIds(items));
    ObjectiveIdsSorted(sorted);
  }

  lemma {:induction false} SortedSourceIds(items: seq<SourceItem>)
    ensures SourceItemIds(SortSources(items)) == SortedTexts(SourceItemIds(items))
  {
    var f, sorted := (item: SourceItem) => item.id, SortSources(items);
    MappedPermutes(f, sorted, items);
    assert Mapped(f, items) == SourceItemIds(items) && Mapped(f, sorted) == SourceItemIds(sorted);
    SortedTextsPermute(SourceItemIds(sorted), SourceItemIds(items));
    SourceIdsSorted(sorted);
  }

  lemma {:induction false} ResolvedObjectives(ids: seq<string>, objectives: seq<Objective>)
    requires ResolveObjectives(ids, objectives).Some?
    ensures var sorted := SortObjectives(ResolveObjectives(ids, objectives).value);
            && (forall i | 0 <= i < |sorted| :: ObjectiveOk(sorted[i]))
            && ObjectiveItemIds(sorted) == SortedTexts(KnownIds(ids, objectives))
  {
    var items := ResolveObjectives(ids, objectives).value;
    var sorted := SortObjectives(items);
    ResolveObjectivesOk(ids, objectives);
    forall i | 0 <= i < |sorted| ensures ObjectiveOk(sorted[i]) {
      assert sorted[i] in multiset(items);
    }
    SortedObjectiveIds(items);
  }

  lemma {:induction false} ResolvedRelationships(id: string, task: Task, tasks: seq<Task>)
    requires Relationships(id, task, tasks).Some?
    ensures var sorted := Relationships(id, task, tasks).value;
            && (forall i | 0 <= i < |sorted| :: RelationOk(sorted[i]))
            && Distinct(Keys(sorted)) && Sorted(RelationLess, sorted)
  {
    var items := Resolve(Pairs(id, task, tasks).value, tasks).value;
    var sorted := SortRelations(items);
    ResolveMeans(Pairs(id, task, tasks).value, tasks);
    forall i | 0 <= i < |sorted| ensures RelationOk(sorted[i]) {
      assert sorted[i] in multiset(items);
    }
    KeysPermute(items, sorted);
    DistinctPermutes(Keys(items), Keys(sorted));
  }

  lemma {:induction false} SourcesOkPermute(items: seq<SourceItem>, sorted: seq<SourceItem>, evidence: bool)
    requires multiset(sorted) == multiset(items) && SourcesOk(items, evidence)
    ensures SourcesOk(sorted, evidence)
  {
    forall i | 0 <= i < |sorted| ensures SourceOk(sorted[i]) && (sorted[i].evidence.Some? ==> evidence) {
      assert sorted[i] in multiset(items);
    }
  }

  lemma {:induction false} ResolvedSources(task: string, context: seq<ContextItem>, evidence: bool)
    requires ResolveSources(task, context, evidence).Some?
    ensures var sorted := SortSources(ResolveSources(task, context, evidence).value);
            SourcesOk(sorted, evidence) && SourceItemIds(sorted) == SortedTexts(LinkedIds(task, context))
  {
    var items := ResolveSources(task, context, evidence).value;
    ResolveSourcesOk(task, context, evidence);
    SourcesOkPermute(items, SortSources(items), evidence);
    SortedSourceIds(items);
  }

  /** What was resolved, before any cap: valid items in order, relationships once each, and the ids of the
      other two blocks are those of the material, sorted. */
  lemma {:induction false} ResolvedIsOrderly(id: string, objectives: seq<Objective>, tasks: seq<Task>,
      context: seq<ContextItem>, evidence: bool)
    requires Resolved(id, objectives, tasks, context, evidence).Some?
    ensures var b := Resolved(id, objectives, tasks, context, evidence).value;
            var listed := FindTask(tasks, id).value.objectiveIds;
            && Orderly(b, evidence)
            && ObjectiveItemIds(b.objectives) == SortedTexts(KnownIds(listed, objectives))
            && SourceItemIds(b.sources) == SortedTexts(LinkedIds(id, context))
  {
    var selected := FindTask(tasks, id).value;
    ResolvedObjectives(selected.objectiveIds, objectives);
    ResolvedRelationships(id, selected, tasks);
    ResolvedSources(id, context, evidence);
  }

  // ---- the blocks are complete ----

  /** The first connection to this Task decides: its reasons, sorted and each once, unless it gives none. */
  lemma {:induction false} LinkMeans(connections: seq<Connection>, task: string, k: nat)
    requires k < |connections| && connections[k].targetKind == "task" && connections[k].targetId == task
    requires forall i | 0 <= i < k :: connections[i].targetKind != "task" || connections[i].targetId != task
    ensures LinkReasons(connections, task).None? <==> connections[k].reasons == []
    ensures LinkReasons(connections, task).Some? ==>
              var reasons := LinkReasons(connections, task).value;
              StrictlySorted(TextLess, reasons) && forall r :: r in reasons <==> r in connections[k].reasons
  {
    if k > 0 {
      assert forall i | 0 <= i < k - 1 :: connections[1..][i] == connections[i + 1];
      LinkMeans(connections[1..], task, k - 1);
    }
  }

  lemma {:induction false} NoLink(connections: seq<Connection>, task: string)
    requires forall i | 0 <= i < |connections| :: connections[i].targetKind != "task" || connections[i].targetId != task
    ensures LinkReasons(connections, task).None?
  {
    if connections != [] {
      assert forall i | 0 <= i < |connections| - 1 :: connections[1..][i] == connections[i + 1];
      NoLink(connections[1..], task);
    }
  }

  /** What a linked Capture is rendered as. */
  function Rendered(c: ContextItem, task: string, evidence: bool): Option<SourceItem>
    requires LinkedCapture(c, task)
  {
    ProjectSource(c, LinkReasons(c.connections, task).value, evidence)
  }

  /** The item shows this linked Capture, field by field; evidence only in the view that carries it. */
  ghost predicate RendersAs(c: ContextItem, task: string, evidence: bool, x: SourceItem) {
    && LinkedCapture(c, task) && SourceOk(x)
    && x.id == c.id && x.displayTitle == c.displayTitle && x.provider == c.provider
    && x.resourceType == c.resourceType && x.status == c.status
    && Some(x.reasons) == LinkReasons(c.connections, task)
    && x.evidence == if evidence then c.retrieval else None
  }

  /** A linked Capture no valid item shows. */
  ghost predicate Unshowable(c: ContextItem, task: string, evidence: bool) {
    LinkedCapture(c, task) && forall x :: !RendersAs(c, task, evidence, x)
  }

  lemma {:induction false} ShowsRendered(c: ContextItem, task: string, evidence: bool, x: SourceItem)
    requires LinkedCapture(c, task)
    ensures RendersAs(c, task, evidence, x) <==> Rendered(c, task, evidence) == Some(x)
  {
    var reasons := LinkReasons(c.connections, task).value;
    var item := SourceItem(c.id, c.displayTitle, reasons, c.provider, c.resourceType, c.status,
                           if evidence then c.retrieval else None);
    assert RendersAs(c, task, evidence, x) <==> SourceOk(x) && x == item;
  }

  lemma {:induction false} UnshowableIsUnrendered(c: ContextItem, task: string, evidence: bool)
    requires LinkedCapture(c, task)
    ensures Unshowable(c, task, evidence) <==> Rendered(c, task, evidence).None?
  {
    forall x ensures RendersAs(c, task, evidence, x) <==> Rendered(c, task, evidence) == Some(x) {
      ShowsRendered(c, task, evidence, x);
    }
  }

  lemma {:induction false} SourcesOneMore(task: string, context: seq<ContextItem>, evidence: bool)
    requires context != []
    ensures var r, tail := ResolveSources(task, context, evidence), ResolveSources(task, context[1..], evidence);
            && (r.None? <==> tail.None? || Unshowable(context[0], task, evidence))
            && (r.Some? ==> forall x :: x in r.value <==> x in tail.value || RendersAs(context[0], task, evidence, x))
  {
    if LinkedCapture(context[0], task) {
      UnshowableIsUnrendered(context[0], task, evidence);
    }
  }

  /** The sources are exactly the linked Captures, each rendered; the only refusal is a linked Capture that
      no valid item shows. */
  lemma {:induction false} SourcesMean(task: string, context: seq<ContextItem>, evidence: bool)
    ensures var r := ResolveSources(task, context, evidence);
            && (r.None? <==> exists c :: c in context && Unshowable(c, task, evidence))
            && (r.Some? ==> forall x :: x in r.value <==> exists c :: c in context && RendersAs(c, task, evidence, x))
  {
    if context != [] {
      SourcesMean(task, context[1..], evidence);
      SourcesOneMore(task, context, evidence);
      assert forall c :: c in context <==> c == context[0] || c in context[1..];
    }
  }

  /** The objective a listed id stands for, if the material has it. */
  ghost predicate ListedAs(ids: seq<string>, objectives: seq<Objective>, x: ObjectiveItem) {
    exists o :: o in objectives && o.id in ids && FindObjective(objectives, o.id) == Some(o) &&
                x == ObjectiveItem(o.id, o.quarter, o.status, o.title)
  }

  /** The objectives are exactly those listed by the Task and present in the material. */
  lemma {:induction false} ObjectivesMean(ids: seq<string>, objectives: seq<Objective>)
    requires ResolveObjectives(ids, objectives).Some?
    ensures forall x :: x in ResolveObjectives(ids, objectives).value <==> ListedAs(ids, objectives, x)
  {
    if ids != [] {
      var rest := ids[1..];
      ObjectivesMean(rest, objectives);
      assert forall id :: id in ids <==> id == ids[0] || id in rest;
      forall x
        ensures ListedAs(ids, objectives, x) <==> ListedAs(rest, objectives, x) || StandsFor(ids[0], objectives, x)
      {
        ListedOneMore(ids, objectives, x);
      }
    }
  }

  ghost predicate StandsFor(id: string, objectives: seq<Objective>, x: ObjectiveItem) {
    FindObjective(objectives, id).Some? && ProjectObjective(FindObjective(objectives, id).value) == Some(x)
  }

  lemma {:induction false} ListedOneMore(ids: seq<string>, objectives: seq<Objective>, x: ObjectiveItem)
    requires ids != []
    requires FindObjective(objectives, ids[0]).Some? ==> ProjectObjective(FindObjective(objectives, ids[0]).value).Some?
    ensures ListedAs(ids, objectives, x) <==> ListedAs(ids[1..], objectives, x) || StandsFor(ids[0], objectives, x)
  {
    assert forall id :: id in ids <==> id == ids[0] || id in ids[1..];
  }

  /** Every rendered edge shows the status and title of the record it leads to. */
  lemma {:induction false} EdgesShowRecords(pairs: seq<Key>, tasks: seq<Task>, item: RelationItem)
    requires Resolve(pairs, tasks).Some? && item in SortRelations(Resolve(pairs, tasks).value)
    ensures var record := FindTask(tasks, item.id);
            record.Some? && item.status == record.value.status && item.title == record.value.title
  {
    var items := Resolve(pairs, tasks).value;
    assert item in multiset(items);
    ItemsShowRecords(pairs, tasks, item);
  }

  lemma {:induction false} ItemsShowRecords(pairs: seq<Key>, tasks: seq<Task>, item: RelationItem)
    requires Resolve(pairs, tasks).Some? && item in Resolve(pairs, tasks).value
    ensures var record := FindTask(tasks, item.id);
            record.Some? && item.status == record.value.status && item.title == record.value.title
    decreases |pairs|
  {
    var front, last := pairs[..|pairs| - 1], pairs[|pairs| - 1];
    if item in Resolve(front, tasks).value {
      ItemsShowRecords(front, tasks, item);
    }
  }

  // ---- what a request is refused for ----

  /** A listed objective id stops the request when it is no objective id, or the objective it names cannot be
      shown. An id the material does not hold stops nothing. */
  ghost predicate StopsObjective(id: string, objectives: seq<Objective>) {
    || !IsObjectiveId(id)
    || exists o :: o in objectives && o.id == id && !ObjectiveOk(ObjectiveItem(o.id, o.quarter, o.status, o.title))
  }

  lemma {:induction false} FoundObjective(objectives: seq<Objective>, o: Objective)
    requires Indexed(ObjectiveIds(objectives), IsObjectiveId) && o in objectives
    ensures FindObjective(objectives, o.id) == Some(o)
  {
    if objectives[0] != o {
      var rest := objectives[1..];
      var ids := ObjectiveIds(objectives);
      var j :| 0 < j < |objectives| && objectives[j] == o;
      assert ids[0] != ids[j];
      assert forall i | 0 <= i < |rest| :: ObjectiveIds(rest)[i] == ids[i + 1];
      FoundObjective(rest, o);
    }
  }

  lemma {:induction false} StopsFound(id: string, objectives: seq<Objective>)
    requires Indexed(ObjectiveIds(objectives), IsObjectiveId)
    ensures StopsObjective(id, objectives) <==>
              !IsObjectiveId(id) ||
              (FindObjective(objectives, id).Some? && ProjectObjective(FindObjective(objectives, id).value).None?)
  {
    forall o | o in objectives && o.id == id ensures FindObjective(objectives, id) == Some(o) {
      FoundObjective(objectives, o);
    }
  }

  lemma {:induction false} ObjectivesRefused(ids: seq<string>, objectives: seq<Objective>)
    requires Indexed(ObjectiveIds(objectives), IsObjectiveId)
    ensures ResolveObjectives(ids, objectives).None? <==> exists id :: id in ids && StopsObjective(id, objectives)
  {
    if ids != [] {
      ObjectivesRefused(ids[1..], objectives);
      StopsFound(ids[0], objectives);
      assert forall id :: id in ids <==> id == ids[0] || id in ids[1..];
    }
  }

  lemma {:induction false} IncomingRefused(id: string, tasks: seq<Task>)
    ensures Incoming(id, tasks).None? <==>
              exists t :: t in tasks && (!IsTaskId(t.id) || (t.id != id && !AllTaskIds(t.dependencies)))
    decreases |tasks|
  {
    if tasks != [] {
      var front, last := tasks[..|tasks| - 1], tasks[|tasks| - 1];
      IncomingRefused(id, front);
      assert forall t :: t in tasks <==> t in front || t == last;
    }
  }

  lemma {:induction false} ResolveRefused(pairs: seq<Key>, tasks: seq<Task>)
    ensures Resolve(pairs, tasks).None? <==>
              exists k :: k in pairs && FindTask(tasks, k.1).Some? &&
                          ProjectRelation(k.0, FindTask(tasks, k.1).value).None?
    decreases |pairs|
  {
    if pairs != [] {
      var front, last := pairs[..|pairs| - 1], pairs[|pairs| - 1];
      ResolveRefused(front, tasks);
      assert forall k :: k in pairs <==> k in front || k == last;
    }
  }

  /** A record this Task is related to, in any of the four ways, cannot be shown. */
  ghost predicate StopsRelation(kind: Kind, id: string, task: Task, record: Task) {
    Declares(kind, id, task, record) && !RelationOk(RelationItem(kind, record.id, record.status, record.title))
  }

  /** Some id by which this Task's edges are declared, from either end, is no Task id. */
  ghost predicate IllDeclared(id: string, task: Task, tasks: seq<Task>) {
    || (task.parent.Some? && !IsTaskId(task.parent.value)) || !AllTaskIds(task.dependencies)
    || exists t :: t in tasks && t.id != id && !AllTaskIds(t.dependencies)
  }

  lemma {:induction false} PairsRefused(id: string, task: Task, tasks: seq<Task>)
    requires Indexed(TaskIds(tasks), IsTaskId)
    ensures Pairs(id, task, tasks).None? <==> IllDeclared(id, task, tasks)
  {
    IncomingRefused(id, tasks);
    forall t | t in tasks ensures IsTaskId(t.id) {
      var i :| 0 <= i < |tasks| && tasks[i] == t;
      assert TaskIds(tasks)[i] == t.id;
    }
  }

  lemma {:induction false} PairStops(id: string, task: Task, tasks: seq<Task>)
    requires Indexed(TaskIds(tasks), IsTaskId) && task in tasks && task.id == id
    requires Pairs(id, task, tasks).Some?
    ensures Resolve(Pairs(id, task, tasks).value, tasks).None? <==>
              exists kind, t :: t in tasks && StopsRelation(kind, id, task, t)
  {
    var pairs := Pairs(id, task, tasks).value;
    ResolveRefused(pairs, tasks);
    if kind, t :| t in tasks && StopsRelation(kind, id, task, t) {
      UniqueRecord(tasks, t);
      PairsMean(id, task, tasks, kind, t);
      assert (kind, t.id) in pairs;
    }
    if k :| k in pairs && FindTask(tasks, k.1).Some? && ProjectRelation(k.0, FindTask(tasks, k.1).value).None? {
      var t := FindTask(tasks, k.1).value;
      UniqueRecord(tasks, t);
      PairsMean(id, task, tasks, k.0, t);
      assert t in tasks && StopsRelation(k.0, id, task, t);
    }
  }

  lemma {:induction false} RelationshipsRefused(id: string, task: Task, tasks: seq<Task>)
    requires Indexed(TaskIds(tasks), IsTaskId) && task in tasks && task.id == id
    ensures Relationships(id, task, tasks).None? <==>
              IllDeclared(id, task, tasks) || exists kind, t :: t in tasks && StopsRelation(kind, id, task, t)
  {
    PairsRefused(id, task, tasks);
    if !IllDeclared(id, task, tasks) {
      PairStops(id, task, tasks);
    }
  }

  /** What stops the request of this Task. */
  ghost predicate Stops(task: Task, objectives: seq<Objective>, tasks: seq<Task>, context: seq<ContextItem>,
      evidence: bool)
  {
    || (exists i :: i in task.objectiveIds && StopsObjective(i, objectives))
    || IllDeclared(task.id, task, tasks)
    || (exists kind, t :: t in tasks && StopsRelation(kind, task.id, task, t))
    || (exists c :: c in context && Unshowable(c, task.id, evidence))
  }

  lemma {:induction false} StopsRefuses(task: Task, objectives: seq<Objective>, tasks: seq<Task>,
      context: seq<ContextItem>, evidence: bool)
    requires Indexed(TaskIds(tasks), IsTaskId) && Indexed(ObjectiveIds(objectives), IsObjectiveId) && task in tasks
    ensures Stops(task, objectives, tasks, context, evidence) <==>
              || ResolveObjectives(task.objectiveIds, objectives).None?
              || Relationships(task.id, task, tasks).None?
              || ResolveSources(task.id, context, evidence).None?
  {
    ObjectivesRefused(task.objectiveIds, objectives);
    RelationshipsRefused(task.id, task, tasks);
    SourcesMean(task.id, context, evidence);
  }

  /** Exactly when no planning answer is built, read off the material: record ids that are ill-formed or
      repeat, a Task that is absent, a listed objective id that is ill-formed or names an objective that cannot
      be shown, an ill-formed parent or dependency id, a related record that cannot be shown, or a linked Capture
      that no valid item shows. A listed objective, a parent or a dependency that is merely not held is not among
      them. */
  lemma {:induction false} BuildRefused(id: string, objectives: seq<Objective>, tasks: seq<Task>,
      context: seq<ContextItem>, evidence: bool, worklog: bool)
    ensures Build(id, objectives, tasks, context, evidence, worklog).None? <==>
              || !Indexed(TaskIds(tasks), IsTaskId) || !Indexed(ObjectiveIds(objectives), IsObjectiveId)
              || (forall t | t in tasks :: t.id != id)
              || exists t :: t in tasks && t.id == id && Stops(t, objectives, tasks, context, evidence)
  {
    if Indexed(TaskIds(tasks), IsTaskId) && Indexed(ObjectiveIds(objectives), IsObjectiveId) {
      forall t | t in tasks && t.id == id
        ensures FindTask(tasks, id) == Some(t)
        ensures Stops(t, objectives, tasks, context, evidence) <==>
                  Build(id, objectives, tasks, context, evidence, worklog).None?
      {
        UniqueRecord(tasks, t);
        StopsRefuses(t, objectives, tasks, context, evidence);
      }
    }
  }

  // ---- the planning answer ----

  lemma {:induction false} MarkersMean(flags: Flags)
    ensures ObjectivesOverflow in Markers(flags) <==> flags.objectives
    ensures RelationshipsOverflow in Markers(flags) <==> flags.relationships
    ensures SourcesOverflow in Markers(flags) <==> flags.sources
    ensures WorklogOverflow in Markers(flags) <==> flags.worklog
    ensures forall m | m in CATEGORIES :: m in Markers(flags)
  {
    var a: seq<Marker> := if flags.objectives then [ObjectivesOverflow] else [];
    var b: seq<Marker> := if flags.relationships then [RelationshipsOverflow] else [];
    var c: seq<Marker> := if flags.sources then [SourcesOverflow] else [];
    var d: seq<Marker> := if flags.worklog then [WorklogOverflow] else [];
    assert forall m :: m in CATEGORIES + a + b + c + d <==> m in CATEGORIES || m in a || m in b || m in c || m in d;
  }

  /** Places in the fixed order of markers. */
  function Place(m: Marker): nat {
    match m
    case Actions => 0 case Attachments => 1 case CaptureBodies => 2 case CaptureLocators => 3 case Notes => 4
    case ProvenanceOmitted => 5 case WorkSessions => 6
    case ObjectivesOverflow => 7 case RelationshipsOverflow => 8 case SourcesOverflow => 9 case WorklogOverflow => 10
  }

  ghost predicate Rising(markers: seq<Marker>) {
    forall i, j | 0 <= i < j < |markers| :: Place(markers[i]) < Place(markers[j])
  }

  lemma {:induction false} RisingAppend(markers: seq<Marker>, m: Marker, add: bool)
    requires Rising(markers) && forall x | x in markers :: Place(x) < Place(m)
    ensures var r := markers + (if add then [m] else []);
            Rising(r) && forall x | x in r :: Place(x) <= Place(m)
  {
  }

  lemma {:induction false} MarkersDoNotRepeat(flags: Flags)
    ensures Distinct(Markers(flags)) && Rising(Markers(flags))
  {
    RisingAppend(CATEGORIES, ObjectivesOverflow, flags.objectives);
    var a := CATEGORIES + (if flags.objectives then [ObjectivesOverflow] else []);
    RisingAppend(a, RelationshipsOverflow, flags.relationships);
    var b := a + (if flags.relationships then [RelationshipsOverflow] else []);
    RisingAppend(b, SourcesOverflow, flags.sources);
    var c := b + (if flags.sources then [SourcesOverflow] else []);
    RisingAppend(c, WorklogOverflow, flags.worklog);
  }

  lemma {:induction false} SortedKeysFixed(keys: seq<Key>)
    requires Sorted(KeyLess, keys)
    ensures SortKeys(keys) == keys
  {
    BlockOrders();
    SortedUnique(KeyLess, SortKeys(keys), keys);
  }

  lemma {:induction false} PrefixSorted<T(!new)>(lt: (T, T) -> bool, all: seq<T>, items: seq<T>)
    requires Sorted(lt, all) && items <= all
    ensures Sorted(lt, items)
  {
  }

  lemma {:induction false} ObjectivesPrefixValid(all: seq<ObjectiveItem>, items: seq<ObjectiveItem>)
    requires (forall i | 0 <= i < |all| :: ObjectiveOk(all[i])) && Sorted(ObjectiveLess, all)
    requires items <= all && |items| <= OBJECTIVES_CAP
    ensures ObjectivesValid(items) <==> Distinct(ObjectiveItemIds(items))
  {
    PrefixSorted(ObjectiveLess, all, items);
    ObjectiveIdsSorted(items);
    assert forall i | 0 <= i < |items| :: items[i] == all[i];
  }

  lemma {:induction false} SourcesPrefixValid(all: seq<SourceItem>, items: seq<SourceItem>, evidence: bool)
    requires SourcesOk(all, evidence) && Sorted(SourceLess, all) && items <= all && |items| <= SOURCES_CAP
    ensures SourcesValid(items, evidence) <==> Distinct(SourceItemIds(items))
  {
    PrefixSorted(SourceLess, all, items);
    SourceIdsSorted(items);
    assert forall i | 0 <= i < |items| :: items[i] == all[i];
  }

  lemma {:induction false} RelationshipsPrefixValid(all: seq<RelationItem>, items: seq<RelationItem>)
    requires (forall i | 0 <= i < |all| :: RelationOk(all[i])) && Sorted(RelationLess, all) && Distinct(Keys(all))
    requires items <= all && |items| <= RELATIONSHIPS_CAP
    ensures RelationshipsValid(items)
  {
    var keys := Keys(items);
    forall i, j | 0 <= i < j < |keys| ensures !KeyLess(keys[j], keys[i]) && keys[i] != keys[j] {
      assert !RelationLess(all[j], all[i]);
      assert Keys(all)[i] != Keys(all)[j];
    }
    SortedKeysFixed(keys);
  }

  /** What is rendered holds prefixes of what was resolved, given up strictly in order. */
  ghost predicate CutInOrder(b: Blocks, p: Pack, q: Pack) {
    && q.core == p.core && q.evidenceView == p.evidenceView
    && q.blocks.objectives <= b.objectives && q.blocks.relationships <= b.relationships
    && q.blocks.sources <= b.sources && q.worklog <= p.worklog
    && (|q.blocks.relationships| < |p.blocks.relationships| ==> q.blocks.sources == [])
    && (|q.blocks.objectives| < |p.blocks.objectives| ==> q.blocks.sources == [] && q.blocks.relationships == [])
    && (|q.worklog| < |p.worklog| ==>
          q.blocks.sources == [] && q.blocks.relationships == [] && q.blocks.objectives == [])
  }

  /** Each overflow marker is there exactly when its list lost an item, to its cap or to shrinking. */
  ghost predicate MarkersTell(b: Blocks, p: Pack, more: bool, q: Pack) {
    && (ObjectivesOverflow in q.omitted <==> |q.blocks.objectives| < |b.objectives|)
    && (RelationshipsOverflow in q.omitted <==> |q.blocks.relationships| < |b.relationships|)
    && (SourcesOverflow in q.omitted <==> |q.blocks.sources| < |b.sources|)
    && (WorklogOverflow in q.omitted <==> more || |q.worklog| < |p.worklog|)
  }

  lemma {:induction false} TrimmedInOrder(b: Blocks, p: Pack, flags: Flags, n: nat)
    requires n <= Total(p) && p.blocks == CappedBlocks(b)
    ensures CutInOrder(b, p, Trimmed(p, flags, n))
    ensures Trimmed(p, flags, n).blocks.objectives <= p.blocks.objectives
    ensures Trimmed(p, flags, n).blocks.relationships <= p.blocks.relationships
    ensures Trimmed(p, flags, n).blocks.sources <= p.blocks.sources
  {
  }

  lemma {:induction false} TrimmedMarkers(b: Blocks, p: Pack, more: bool, n: nat)
    requires n <= Total(p) && p.blocks == CappedBlocks(b) && p.omitted == Markers(CapFlags(b, more))
    ensures MarkersTell(b, p, more, Trimmed(p, CapFlags(b, more), n))
    ensures MarkersValid(Trimmed(p, CapFlags(b, more), n).omitted)
  {
    var flags := CapFlags(b, more);
    var after := FlagsFor(flags, CutsAt(p, n));
    assert n == 0 ==> after == flags;
    assert Trimmed(p, flags, n).omitted == Markers(after);
    MarkersMean(after);
    MarkersDoNotRepeat(after);
  }

  lemma {:induction false} TrimmedValidates(b: Blocks, p: Pack, more: bool, n: nat)
    requires n <= Total(p) && p.blocks == CappedBlocks(b) && p.omitted == Markers(CapFlags(b, more))
    requires Orderly(b, p.evidenceView)
    ensures var q := Trimmed(p, CapFlags(b, more), n);
            Validated(q) <==>
              Distinct(ObjectiveItemIds(q.blocks.objectives)) && Distinct(SourceItemIds(q.blocks.sources))
  {
    var q := Trimmed(p, CapFlags(b, more), n);
    TrimmedInOrder(b, p, CapFlags(b, more), n);
    TrimmedMarkers(b, p, more, n);
    ObjectivesPrefixValid(b.objectives, q.blocks.objectives);
    RelationshipsPrefixValid(b.relationships, q.blocks.relationships);
    SourcesPrefixValid(b.sources, q.blocks.sources, p.evidenceView);
  }

  /** The least number of items was given up that makes the answer fit. */
  ghost predicate LeastCut(p: Pack, flags: Flags, size: Pack -> nat, limit: nat, q: Pack) {
    exists n :: 0 <= n <= Total(p) && q == Stage(p, flags)(n) && size(q) <= limit &&
                forall m | 0 <= m < n :: size(Stage(p, flags)(m)) > limit
  }

  /** A successful shrink ends at some stage, the first that fits. */
  lemma {:induction false} ShrunkStage(p: Pack, flags: Flags, size: Pack -> nat, limit: nat) returns (n: nat)
    requires Shrunk(p, flags, size, limit).1
    ensures n <= Total(p) && Shrunk(p, flags, size, limit).0 == Trimmed(p, flags, n)
    ensures LeastCut(p, flags, size, limit, Shrunk(p, flags, size, limit).0)
  {
    var stage := Stage(p, flags);
    var q := Shrunk(p, flags, size, limit).0;
    FirstFitIsLeast(stage, size, limit, Total(p), 0);
    n :| n <= Total(p) && q == stage(n) && size(q) <= limit && forall m | 0 <= m < n :: size(stage(m)) > limit;
  }

  /** A successful shrink: the least cut, in order, with truthful markers, and valid exactly when what is
      rendered repeats no id. */
  lemma {:induction false} ShrunkIsSound(b: Blocks, p: Pack, more: bool, size: Pack -> nat, limit: nat)
    requires p.blocks == CappedBlocks(b) && p.omitted == Markers(CapFlags(b, more)) && Orderly(b, p.evidenceView)
    requires Shrunk(p, CapFlags(b, more), size, limit).1
    ensures var q := Shrunk(p, CapFlags(b, more), size, limit).0;
            && LeastCut(p, CapFlags(b, more), size, limit, q) && CutInOrder(b, p, q) && MarkersTell(b, p, more, q)
            && (Validated(q) <==>
                  Distinct(ObjectiveItemIds(q.blocks.objectives)) && Distinct(SourceItemIds(q.blocks.sources)))
  {
    var flags := CapFlags(b, more);
    var n := ShrunkStage(p, flags, size, limit);
    TrimmedInOrder(b, p, flags, n);
    TrimmedMarkers(b, p, more, n);
    TrimmedValidates(b, p, more, n);
  }

  // ---- validity, read off the material ----

  /** What a planning request is made of. */
  datatype Material = Material(id: string, objectives: seq<Objective>, tasks: seq<Task>, context: seq<ContextItem>,
                               evidence: bool, core: string, worklog: seq<string>, more: bool)

  function BlocksOf(m: Material): Option<Blocks> {
    Resolved(m.id, m.objectives, m.tasks, m.context, m.evidence)
  }

  function BuildOf(m: Material): Option<(Blocks, Flags)> {
    Build(m.id, m.objectives, m.tasks, m.context, m.evidence, m.more)
  }

  function ListedIds(m: Material): seq<string> {
    match FindTask(m.tasks, m.id) case None => [] case Some(task) => KnownIds(task.objectiveIds, m.objectives)
  }

  /** The data as it is first assembled from the built blocks. */
  function Assembled(m: Material): Pack
    requires BuildOf(m).Some?
  {
    Pack(m.core, BuildOf(m).value.0, m.worklog, Markers(BuildOf(m).value.1), m.evidence)
  }

  /** The `n` least ids, a repeated id counted as often as it occurs. */
  function LeastIds(ids: seq<string>, n: nat): seq<string> {
    Capped(SortedTexts(ids), n)
  }

  /** No id is among the `objectives` least listed ids twice, nor among the `sources` least linked ids. */
  ghost predicate LeastDistinct(m: Material, objectives: nat, sources: nat) {
    Distinct(LeastIds(ListedIds(m), objectives)) && Distinct(LeastIds(LinkedIds(m.id, m.context), sources))
  }

  lemma {:induction false} ObjectivePrefixIds(items: seq<ObjectiveItem>, all: seq<ObjectiveItem>, ids: seq<string>)
    requires items <= all && ObjectiveItemIds(all) == SortedTexts(ids)
    ensures ObjectiveItemIds(items) == LeastIds(ids, |items|)
  {
    assert SortedTexts(ids)[..|items|] == ObjectiveItemIds(items);
    assert |items| == |all| ==> items == all;
  }

  lemma {:induction false} SourcePrefixIds(items: seq<SourceItem>, all: seq<SourceItem>, ids: seq<string>)
    requires items <= all && SourceItemIds(all) == SortedTexts(ids)
    ensures SourceItemIds(items) == LeastIds(ids, |items|)
  {
    assert SortedTexts(ids)[..|items|] == SourceItemIds(items);
    assert |items| == |all| ==> items == all;
  }

  /** The whole planning answer. When the blocks can be built and shrinking succeeds, what is rendered fits
      the limit after the least cut that makes it fit, is cut in order with truthful markers, and passes the
      validator exactly when the ids of the material, as many of the least as are rendered, do not repeat. */
  lemma {:induction false} PlanningAnswer(m: Material, size: Pack -> nat, limit: nat)
    requires BuildOf(m).Some? && Shrunk(Assembled(m), BuildOf(m).value.1, size, limit).1
    ensures var b, p, flags := BlocksOf(m).value, Assembled(m), BuildOf(m).value.1;
            var q := Shrunk(p, flags, size, limit).0;
            && LeastCut(p, flags, size, limit, q) && CutInOrder(b, p, q) && MarkersTell(b, p, m.more, q)
            && (Validated(q) <==> LeastDistinct(m, |q.blocks.objectives|, |q.blocks.sources|))
  {
    var b, p := BlocksOf(m).value, Assembled(m);
    var q := Shrunk(p, BuildOf(m).value.1, size, limit).0;
    ResolvedIsOrderly(m.id, m.objectives, m.tasks, m.context, m.evidence);
    ShrunkIsSound(b, p, m.more, size, limit);
    ObjectivePrefixIds(q.blocks.objectives, b.objectives, ListedIds(m));
    SourcePrefixIds(q.blocks.sources, b.sources, LinkedIds(m.id, m.context));
  }

  lemma {:induction false} LeastFewer(ids: seq<string>, n: nat, cap: nat)
    requires n <= cap && Distinct(LeastIds(ids, cap))
    ensures Distinct(LeastIds(ids, n))
  {
    assert LeastIds(ids, n) <= LeastIds(ids, cap);
  }

  lemma {:induction false} LeastOfDistinct(ids: seq<string>, n: nat)
    requires Distinct(ids)
    ensures Distinct(LeastIds(ids, n))
  {
    DistinctPermutes(ids, SortedTexts(ids));
  }

  lemma {:induction false} RenderedWithinCaps(m: Material, size: Pack -> nat, limit: nat)
    requires BuildOf(m).Some? && Shrunk(Assembled(m), BuildOf(m).value.1, size, limit).1
    ensures var q := Shrunk(Assembled(m), BuildOf(m).value.1, size, limit).0;
            |q.blocks.objectives| <= OBJECTIVES_CAP && |q.blocks.sources| <= SOURCES_CAP
  {
    var p, flags := Assembled(m), BuildOf(m).value.1;
    var n := ShrunkStage(p, flags, size, limit);
    TrimmedInOrder(BlocksOf(m).value, p, flags, n);
  }

  /** The answer as assembled already fits, so nothing is cut. */
  lemma {:induction false} UncutAnswer(m: Material, size: Pack -> nat, limit: nat)
    requires BuildOf(m).Some? && size(Assembled(m)) <= limit
    ensures Shrunk(Assembled(m), BuildOf(m).value.1, size, limit) == (Assembled(m), true)
    ensures Validated(Assembled(m)) <==> LeastDistinct(m, OBJECTIVES_CAP, SOURCES_CAP)
    ensures var b := Assembled(m).blocks;
            && |b.objectives| == (if |ListedIds(m)| > 5 then 5 else |ListedIds(m)|)
            && |b.relationships| == (if |BlocksOf(m).value.relationships| > 10 then 10
                                     else |BlocksOf(m).value.relationships|)
            && |b.sources| == (if |LinkedIds(m.id, m.context)| > 5 then 5 else |LinkedIds(m.id, m.context)|)
  {
    var p, flags := Assembled(m), BuildOf(m).value.1;
    TrimmedNothing(p, flags);
    assert Stage(p, flags)(0) == p;
    PlanningAnswer(m, size, limit);
    LeastCapped(m);
  }

  lemma {:induction false} LeastAtCap(ids: seq<string>, n: nat, cap: nat)
    requires n == if |ids| > cap then cap else |ids|
    ensures LeastIds(ids, n) == LeastIds(ids, cap)
  {
    var sorted := SortedTexts(ids);
    assert |ids| <= cap ==> sorted[..n] == sorted;
  }

  /** What the caps leave of the sorted ids is what `LeastIds` takes at the caps. */
  lemma {:induction false} LeastCapped(m: Material)
    requires BuildOf(m).Some?
    ensures var p := Assembled(m);
            LeastDistinct(m, |p.blocks.objectives|, |p.blocks.sources|) <==>
            LeastDistinct(m, OBJECTIVES_CAP, SOURCES_CAP)
    ensures |Assembled(m).blocks.objectives| == if |ListedIds(m)| > 5 then 5 else |ListedIds(m)|
    ensures |Assembled(m).blocks.sources| ==
            if |LinkedIds(m.id, m.context)| > 5 then 5 else |LinkedIds(m.id, m.context)|
  {
    var b, p := BlocksOf(m).value, Assembled(m);
    ResolvedIsOrderly(m.id, m.objectives, m.tasks, m.context, m.evidence);
    assert |b.objectives| == |ObjectiveItemIds(b.objectives)| == |ListedIds(m)|;
    assert |b.sources| == |SourceItemIds(b.sources)| == |LinkedIds(m.id, m.context)|;
    LeastAtCap(ListedIds(m), |p.blocks.objectives|, OBJECTIVES_CAP);
    LeastAtCap(LinkedIds(m.id, m.context), |p.blocks.sources|, SOURCES_CAP);
  }

  /** Whatever the size function, the limit and the cut, the answer passes its validator. */
  ghost predicate AlwaysValid(m: Material)
    requires BuildOf(m).Some?
  {
    forall size: Pack -> nat, limit: nat :: AnswerValid(m, size, limit)
  }

  ghost predicate AnswerValid(m: Material, size: Pack -> nat, limit: nat)
    requires BuildOf(m).Some?
  {
    var (q, fits) := Shrunk(Assembled(m), BuildOf(m).value.1, size, limit);
    fits ==> Validated(q)
  }

  lemma {:induction false} StaysValid(m: Material, size: Pack -> nat, limit: nat)
    requires BuildOf(m).Some? && LeastDistinct(m, OBJECTIVES_CAP, SOURCES_CAP)
    ensures AnswerValid(m, size, limit)
  {
    var (q, fits) := Shrunk(Assembled(m), BuildOf(m).value.1, size, limit);
    if fits {
      PlanningAnswer(m, size, limit);
      RenderedWithinCaps(m, size, limit);
      LeastFewer(ListedIds(m), |q.blocks.objectives|, OBJECTIVES_CAP);
      LeastFewer(LinkedIds(m.id, m.context), |q.blocks.sources|, SOURCES_CAP);
    }
  }

  lemma {:induction false} UncutInvalid(m: Material)
    requires BuildOf(m).Some? && !LeastDistinct(m, OBJECTIVES_CAP, SOURCES_CAP)
    ensures exists size: Pack -> nat, limit: nat :: !AnswerValid(m, size, limit)
  {
    var free := (q: Pack) => 0;
    UncutAnswer(m, free, 0);
    assert !AnswerValid(m, free, 0);
  }

  /** The built answer is sure to pass its validator if and only if no objective id among the five least that
      the Task lists and the material holds, and no Capture id among the five least that are linked, occurs
      twice. Both lists can be read off the material before the call. */
  lemma {:induction false} AlwaysValidExactly(m: Material)
    requires BuildOf(m).Some?
    ensures AlwaysValid(m) <==> LeastDistinct(m, OBJECTIVES_CAP, SOURCES_CAP)
  {
    if LeastDistinct(m, OBJECTIVES_CAP, SOURCES_CAP) {
      forall size: Pack -> nat, limit: nat ensures AnswerValid(m, size, limit) {
        StaysValid(m, size, limit);
      }
    } else {
      UncutInvalid(m);
    }
  }

  /** In particular when the material repeats no objective id in the Task and no Capture id in the context. */
  lemma {:induction false} PlainMaterialValid(m: Material)
    requires BuildOf(m).Some?
    requires Distinct(FindTask(m.tasks, m.id).value.objectiveIds) && Distinct(CaptureIds(m.context))
    ensures AlwaysValid(m)
  {
    KnownIdsDistinct(FindTask(m.tasks, m.id).value.objectiveIds, m.objectives);
    LinkedIdsDistinct(m.id, m.context);
    LeastOfDistinct(ListedIds(m), OBJECTIVES_CAP);
    LeastOfDistinct(LinkedIds(m.id, m.context), SOURCES_CAP);
    AlwaysValidExactly(m);
  }

  /** The failing family for Captures: two of the five least linked ids are one. The blocks are built and, if
      the answer fits as assembled, it is the one that is refused. */
  lemma {:induction false} RepeatedCaptureRefused(m: Material, size: Pack -> nat, limit: nat)
    requires BuildOf(m).Some? && size(Assembled(m)) <= limit
    requires !Distinct(LeastIds(LinkedIds(m.id, m.context), SOURCES_CAP))
    ensures Shrunk(Assembled(m), BuildOf(m).value.1, size, limit) == (Assembled(m), true)
    ensures !Validated(Assembled(m))
  {
    UncutAnswer(m, size, limit);
  }

  // ---- a failing material ----

  function OneNote(): ContextItem {
    ContextItem("capture", "C-0001", "Note", "manual", "note", "linked",
                [Connection("task", "T-0001", ["capture-link"])], None)
  }

  function OneTask(): Task {
    Task("T-0001", None, [], [], "open", "Write")
  }

  /** A Task with one linked Capture, which the context lists twice. */
  function ListedTwice(): Material {
    Material("T-0001", [], [OneTask()], [OneNote(), OneNote()], false, "", [], false)
  }

  lemma {:induction false} SortOne(x: string)
    ensures SortTexts({x}) == [x]
  {
    TextLessTotal();
    assert {x} - {x} == {};
    assert SortSet(TextLess, {x}) == [x] + SortSet(TextLess, {x} - {x});
  }

  lemma {:induction false} OneNoteLinked()
    ensures LinkReasons(OneNote().connections, "T-0001") == Some(["capture-link"])
  {
    var reasons := ["capture-link"];
    assert (set r | r in reasons) == {"capture-link"};
    SortOne("capture-link");
  }

  lemma {:induction false} OneNoteRendered()
    ensures ProjectSource(OneNote(), ["capture-link"], false).Some?
  {
    var reasons := ["capture-link"];
    assert (set r | r in reasons) == {"capture-link"};
    SortOne("capture-link");
    assert "C-0001"[2..] == "0001" && "C-0001"[..2] == "C-";
  }

  lemma {:induction false} TwiceSources()
    ensures ResolveSources("T-0001", [OneNote(), OneNote()], false).Some?
    ensures LinkedIds("T-0001", [OneNote(), OneNote()]) == ["C-0001", "C-0001"]
  {
    var context := [OneNote(), OneNote()];
    assert context[1..] == [OneNote()] && [OneNote()][1..] == [];
    OneNoteLinked();
    OneNoteRendered();
    assert LinkedIds("T-0001", [OneNote()]) == ["C-0001"] + LinkedIds("T-0001", []);
  }

  lemma {:induction false} OneTaskAlone()
    ensures Indexed(TaskIds([OneTask()]), IsTaskId) && FindTask([OneTask()], "T-0001") == Some(OneTask())
    ensures Relationships("T-0001", OneTask(), [OneTask()]).Some?
  {
    var tasks := [OneTask()];
    assert "T-0001"[2..] == "0001" && "T-0001"[..2] == "T-";
    assert tasks[..0] == [];
    assert Incoming("T-0001", tasks) == Some([]);
    assert Pairs("T-0001", OneTask(), tasks).Some? && |Pairs("T-0001", OneTask(), tasks).value| == 0;
  }

  lemma {:induction false} ListedTwiceBuilt()
    ensures BuildOf(ListedTwice()).Some?
    ensures LinkedIds(ListedTwice().id, ListedTwice().context) == ["C-0001", "C-0001"]
  {
    TwiceSources();
    OneTaskAlone();
    assert ObjectiveIds([]) == [];
  }

  /** A concrete material of that family: its blocks are built, and what is assembled from them, the answer
      whenever it fits, is refused by the validator. */
  lemma {:induction false} ListedTwiceRefused(size: Pack -> nat, limit: nat)
    ensures BuildOf(ListedTwice()).Some?
    ensures size(Assembled(ListedTwice())) <= limit ==>
              Shrunk(Assembled(ListedTwice()), BuildOf(ListedTwice()).value.1, size, limit) ==
              (Assembled(ListedTwice()), true)
    ensures !Validated(Assembled(ListedTwice()))
  {
    ListedTwiceBuilt();
    SortedTwins(["C-0001", "C-0001"]);
    RepeatedRefused(ListedTwice(), size, limit);
  }

  lemma {:induction false} RepeatedRefused(m: Material, size: Pack -> nat, limit: nat)
    requires BuildOf(m).Some? && !Distinct(LeastIds(LinkedIds(m.id, m.context), SOURCES_CAP))
    ensures size(Assembled(m)) <= limit ==>
              Shrunk(Assembled(m), BuildOf(m).value.1, size, limit) == (Assembled(m), true)
    ensures !Validated(Assembled(m))
  {
    var free := (q: Pack) => 0;
    RepeatedCaptureRefused(m, free, 0);
    if size(Assembled(m)) <= limit {
      RepeatedCaptureRefused(m, size, limit);
    }
  }

  lemma {:induction false} SortedTwins(ids: seq<string>)
    requires |ids| == 2 && ids[0] == ids[1]
    ensures !Distinct(LeastIds(ids, SOURCES_CAP))
  {
    var sorted := SortedTexts(ids);
    assert sorted[0] in multiset(ids) && sorted[1] in multiset(ids);
    assert LeastIds(ids, SOURCES_CAP)[0] == LeastIds(ids, SOURCES_CAP)[1];
  }
}
