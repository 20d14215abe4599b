/** The append-only ledger of unlink receipts inside the activity log. */
module UnlinkReceipts {
  import opened Wrappers
  import opened Text

  const MAX_BLOB: nat := 8192
  const MAX_REVISION: int := 9007199254740991
  const EVENT_TYPE: string := "capture.unlink_receipt"

  /** The free fields of a receipt; format, schema version and commit state are fixed. */
  datatype Receipt = Receipt(
    receiptId: string, workspace: string, captureId: string, taskId: string, taskUid: string,
    statusBefore: string, beforeRevision: int, afterRevision: int, afterDigest: string, key: string)

  /** `details` of an event: not a dict, or a dict with its "receipt" entry (when that is a string) and
      whether it holds anything else. */
  datatype Details = NoDict | Dict(blob: Option<string>, others: bool)

  datatype Event = Event(
    id: string, kind: string, createdAt: string, captureId: Option<string>, taskId: Option<string>, details: Details)

  datatype Code = Malformed | NotFound | IdempotencyConflict

  /** What a stored blob parses to: the identity recovered from its receipt_id, and the receipt it is
      when it passes validation. */
  datatype Parsed = Parsed(receiptId: Option<string>, receipt: Option<Receipt>)

  /** The parts left to the libraries: field patterns, UUIDv5 of workspace and key, canonical JSON and its parser. */
  datatype Codec = Codec(
    isUuid: string -> bool, isCaptureId: string -> bool, fieldsOk: Receipt -> bool,
    derive: (string, string) -> string, serialize: Receipt -> string, parse: string -> Option<Parsed>)

  /** `validate_receipt` accepts. */
  predicate Valid(c: Codec, r: Receipt) {
    && c.fieldsOk(r) && c.isUuid(r.workspace) && c.isUuid(r.receiptId) && c.isCaptureId(r.captureId)
    && r.receiptId == c.derive(r.workspace, r.key)
    && 0 <= r.beforeRevision <= MAX_REVISION && 0 <= r.afterRevision <= MAX_REVISION
    && r.afterRevision == r.beforeRevision + 1
  }

  /** Canonical JSON of a valid receipt parses back to that receipt under its own identity, and the parser
      reports a receipt only when it is valid. */
  ghost predicate Faithful(c: Codec) {
    && (forall r | Valid(c, r) ::
          c.serialize(r) != "" && c.parse(c.serialize(r)) == Some(Parsed(Some(r.receiptId), Some(r))))
    && (forall blob | c.parse(blob).Some? && c.parse(blob).value.receipt.Some? ::
          Valid(c, c.parse(blob).value.receipt.value) &&
          c.parse(blob).value.receiptId == Some(c.parse(blob).value.receipt.value.receiptId))
  }

  // ---- event numbers ----

  /** The number in an id spelled "E-digits" (either case, one trailing newline allowed). */
  function EventNumber(id: string): Option<nat> {
    var body := if id != "" && id[|id| - 1] == '\n' then id[..|id| - 1] else id;
    if |body| < 3 || (body[0] != 'E' && body[0] != 'e') || body[1] != '-' || !AllDigits(body[2..]) then None
    else Some(DigitsValue(body[2..], 0))
  }

  /** The id's letter, digits and possible newline, as they are spelled. */
  ghost predicate SpellsNumber(id: string, digits: string, n: nat) {
    && digits != "" && AllDigits(digits) && n == DigitsValue(digits, 0)
    && id in {"E-" + digits, "e-" + digits, "E-" + digits + "\n", "e-" + digits + "\n"}
  }

  /** An id has a number exactly when it is so spelled. */
  lemma {:induction false} EventNumberMeans(id: string, n: nat)
    ensures EventNumber(id) == Some(n) <==> exists digits :: SpellsNumber(id, digits, n)
  {
    if EventNumber(id) == Some(n) {
      var body := if id[|id| - 1] == '\n' then id[..|id| - 1] else id;
      var front, digits := body[..2], body[2..];
      assert front == [body[0], '-'] && (front == "E-" || front == "e-");
      assert body == front + digits;
      assert id == front + digits || id == front + digits + "\n";
      assert SpellsNumber(id, digits, n);
    }
    if digits :| SpellsNumber(id, digits, n) {
      NumberIsRead(id, digits, n);
    }
  }

  lemma {:induction false} NumberIsRead(id: string, digits: string, n: nat)
    requires SpellsNumber(id, digits, n)
    ensures EventNumber(id) == Some(n)
  {
    assert ("E-" + digits)[2..] == digits && ("e-" + digits)[2..] == digits;
    assert ("E-" + digits + "\n")[..|digits| + 2] == "E-" + digits;
    assert ("e-" + digits + "\n")[..|digits| + 2] == "e-" + digits;
    assert IsDigit(digits[|digits| - 1]);
  }

  /** The largest number in the log, or 0. */
  function Largest(events: seq<Event>): (n: nat)
    ensures forall i | 0 <= i < |events| && EventNumber(events[i].id).Some? :: EventNumber(events[i].id).value <= n
    ensures n == 0 || exists i :: 0 <= i < |events| && EventNumber(events[i].id) == Some(n)
  {
    if events == [] then 0
    else
      var before := Largest(events[..|events| - 1]);
      match EventNumber(events[|events| - 1].id)
      case Some(n) => if n > before then n else before
      case None => before
  }

  method NextEventId(events: seq<Event>) returns (id: string)
    ensures id == "E-" + Padded(Largest(events) + 1, 6)
  {
    var largest := 0;
    for i := 0 to |events|
      invariant largest == Largest(events[..i])
    {
      assert events[..i + 1][..i] == events[..i];
      var number := EventNumber(events[i].id);
      if number.Some? && number.value > largest {
        largest := number.value;
      }
    }
    assert events[..|events|] == events;
    id := "E-" + Padded(largest + 1, 6);
  }

  lemma {:induction false} NextNumber(n: nat)
    ensures EventNumber("E-" + Padded(n, 6)) == Some(n)
  {
    var digits := Padded(n, 6);
    var id := "E-" + digits;
    assert id[|id| - 1] == digits[|digits| - 1] && IsDigit(digits[|digits| - 1]);
    assert id[2..] == digits;
    DigitsValuePadded(n, 6);
  }

  // ---- classification ----

  datatype Classified = Classified(envelopeOk: bool, receipt: Option<Receipt>, receiptId: string)

  function Classify(c: Codec, event: Event): Option<Classified> {
    if event.kind != EVENT_TYPE || event.details.NoDict? || event.details.blob.None? then None
    else
      var blob := event.details.blob.value;
      if !(1 <= |blob| <= MAX_BLOB) || c.parse(blob).None? then None
      else
        var parsed := c.parse(blob).value;
        if parsed.receiptId.None? then None
        else
          var canonical :=
            if !event.details.others && parsed.receipt.Some? && c.serialize(parsed.receipt.value) == blob
            then parsed.receipt else None;
          var bound := canonical.None? || (event.captureId == Some(canonical.value.captureId) &&
                                           event.taskId == Some(canonical.value.taskId));
          Some(Classified(bound, canonical, parsed.receiptId.value))
  }

  function Matching(c: Codec, events: seq<Event>, receiptId: string): seq<Classified> {
    if events == [] then []
    else
      var rest := Matching(c, events[1..], receiptId);
      match Classify(c, events[0])
      case Some(item) => if item.receiptId == receiptId then [item] + rest else rest
      case None => rest
  }

  /** The receipt on record for an identity, or the refusal its rows call for. */
  function CanonicalFor(c: Codec, events: seq<Event>, receiptId: string,
      taintedAlone: Code): Result<Option<Receipt>, Code>
  {
    var matches := Matching(c, events, receiptId);
    if matches == [] then Ok(None)
    else if exists i | 0 <= i < |matches| :: matches[i].receipt.Some? && !matches[i].envelopeOk then Err(Malformed)
    else if exists i | 0 <= i < |matches| :: matches[i].receipt.None? then
      if exists i | 0 <= i < |matches| :: matches[i].receipt.Some? then Err(Malformed) else Err(taintedAlone)
    else if exists i | 0 <= i < |matches| ::
              matches[i].receipt.Some? && matches[0].receipt.Some? &&
              c.serialize(matches[i].receipt.value) != c.serialize(matches[0].receipt.value) then
      Err(IdempotencyConflict)
    else Ok(matches[0].receipt)
  }

  function ReceiptEvent(c: Codec, events: seq<Event>, r: Receipt, createdAt: string): Event {
    Event("E-" + Padded(Largest(events) + 1, 6), EVENT_TYPE, createdAt, Some(r.captureId), Some(r.taskId),
          Dict(Some(c.serialize(r)), false))
  }

  /** The log and answer of recording a receipt. */
  function Recorded(c: Codec, events: seq<Event>, r: Receipt, createdAt: string): (seq<Event>, Result<Receipt, Code>) {
    if !Valid(c, r) then (events, Err(Malformed))
    else
      match CanonicalFor(c, events, r.receiptId, Malformed)
      case Err(e) => (events, Err(e))
      case Ok(Some(existing)) =>
        if c.serialize(existing) != c.serialize(r) then (events, Err(IdempotencyConflict)) else (events, Ok(existing))
      case Ok(None) => (events + [ReceiptEvent(c, events, r, createdAt)], Ok(r))
  }

  function Find(c: Codec, events: seq<Event>, receiptId: string, workspace: string,
      captureId: string): Result<Receipt, Code>
  {
    if !c.isUuid(receiptId) || !c.isUuid(workspace) || !c.isCaptureId(captureId) then Err(Malformed)
    else
      match CanonicalFor(c, events, receiptId, NotFound)
      case Err(e) => Err(e)
      case Ok(None) => Err(NotFound)
      case Ok(Some(r)) => if r.workspace != workspace || r.captureId != captureId then Err(NotFound) else Ok(r)
  }

  /** The activity document a caller persists. */
  class Activity {
    var events: seq<Event>

    constructor ()
      ensures events == []
    {
      events := [];
    }

    method Record(c: Codec, r: Receipt, createdAt: string) returns (answer: Result<Receipt, Code>)
      modifies this
      ensures (events, answer) == Recorded(c, old(events), r, createdAt)
    {
      if !Valid(c, r) {
        return Err(Malformed);
      }
      var existing := CanonicalFor(c, events, r.receiptId, Malformed);
      if existing.Err? {
        return Err(existing.error);
      }
      if existing.value.Some? {
        if c.serialize(existing.value.value) != c.serialize(r) {
          return Err(IdempotencyConflict);
        }
        return Ok(existing.value.value);
      }
      var id := NextEventId(events);
      var details := Dict(Some(c.serialize(r)), false);
      events := events + [Event(id, EVENT_TYPE, createdAt, Some(r.captureId), Some(r.taskId), details)];
      return Ok(r);
    }
  }

  // ---- logs grown by this module ----

  /** Each receipt event is canonical, and no two name one identity. */
  ghost predicate Ledger(c: Codec, events: seq<Event>) {
    && (forall i | 0 <= i < |events| && Classify(c, events[i]).Some? :: Canonical(c, Classify(c, events[i]).value))
    && (forall i, j | 0 <= i < j < |events| && Classify(c, events[i]).Some? && Classify(c, events[j]).Some? ::
          Classify(c, events[i]).value.receiptId != Classify(c, events[j]).value.receiptId)
  }

  ghost predicate Canonical(c: Codec, item: Classified) {
    Sound(item) && Valid(c, item.receipt.value) && item.receipt.value.receiptId == item.receiptId
  }

  ghost predicate Holds(c: Codec, events: seq<Event>, r: Receipt) {
    exists i :: 0 <= i < |events| && Classify(c, events[i]) == Some(Classified(true, Some(r), r.receiptId))
  }

  ghost predicate Unnamed(c: Codec, events: seq<Event>, receiptId: string) {
    forall i | 0 <= i < |events| && Classify(c, events[i]).Some? :: Classify(c, events[i]).value.receiptId != receiptId
  }

  lemma {:induction false} LedgerTail(c: Codec, events: seq<Event>)
    requires Ledger(c, events) && events != []
    ensures Ledger(c, events[1..])
  {
    var tail := events[1..];
    forall i | 0 <= i < |tail| && Classify(c, tail[i]).Some? ensures Canonical(c, Classify(c, tail[i]).value) {
      assert tail[i] == events[i + 1];
    }
    forall i, j | 0 <= i < j < |tail| && Classify(c, tail[i]).Some? && Classify(c, tail[j]).Some?
      ensures Classify(c, tail[i]).value.receiptId != Classify(c, tail[j]).value.receiptId
    {
      assert tail[i] == events[i + 1] && tail[j] == events[j + 1];
    }
  }

  lemma {:induction false} UnnamedMatchesNothing(c: Codec, events: seq<Event>, receiptId: string)
    ensures Unnamed(c, events, receiptId) <==> Matching(c, events, receiptId) == []
  {
    if events != [] {
      var tail := events[1..];
      UnnamedMatchesNothing(c, tail, receiptId);
      if Unnamed(c, events, receiptId) {
        forall i | 0 <= i < |tail| && Classify(c, tail[i]).Some?
          ensures Classify(c, tail[i]).value.receiptId != receiptId
        {
          assert tail[i] == events[i + 1];
        }
      }
      if Matching(c, events, receiptId) == [] {
        forall i | 0 <= i < |events| && Classify(c, events[i]).Some?
          ensures Classify(c, events[i]).value.receiptId != receiptId
        {
          assert i > 0 ==> events[i] == tail[i - 1];
        }
      }
    }
  }

  lemma {:induction false} HeldMatchesOnce(c: Codec, events: seq<Event>, r: Receipt, i: nat)
    requires Ledger(c, events)
    requires i < |events| && Classify(c, events[i]) == Some(Classified(true, Some(r), r.receiptId))
    ensures Matching(c, events, r.receiptId) == [Classified(true, Some(r), r.receiptId)]
  {
    var tail := events[1..];
    LedgerTail(c, events);
    if i == 0 {
      forall k | 0 <= k < |tail| && Classify(c, tail[k]).Some?
        ensures Classify(c, tail[k]).value.receiptId != r.receiptId
      {
        assert tail[k] == events[k + 1];
      }
      UnnamedMatchesNothing(c, tail, r.receiptId);
    } else {
      HeldMatchesOnce(c, tail, r, i - 1);
    }
  }

  /** In a ledger the answer for an identity is its one receipt, or nothing; never a refusal. */
  lemma {:induction false} LedgerAnswers(c: Codec, events: seq<Event>, receiptId: string, tainted: Code)
    requires Ledger(c, events)
    ensures CanonicalFor(c, events, receiptId, tainted).Ok?
    ensures CanonicalFor(c, events, receiptId, tainted) == Ok(None) <==> Unnamed(c, events, receiptId)
    ensures forall r: Receipt | r.receiptId == receiptId ::
              CanonicalFor(c, events, receiptId, tainted) == Ok(Some(r)) <==> Holds(c, events, r)
  {
    UnnamedMatchesNothing(c, events, receiptId);
    if !Unnamed(c, events, receiptId) {
      var i: nat :| i < |events| && Classify(c, events[i]).Some? && Classify(c, events[i]).value.receiptId == receiptId;
      var item := Classify(c, events[i]).value;
      assert Canonical(c, item);
      var held := item.receipt.value;
      HeldMatchesOnce(c, events, held, i);
      forall r: Receipt | r.receiptId == receiptId
        ensures CanonicalFor(c, events, receiptId, tainted) == Ok(Some(r)) <==> Holds(c, events, r)
      {
        if Holds(c, events, r) {
          var k: nat :| k < |events| && Classify(c, events[k]) == Some(Classified(true, Some(r), r.receiptId));
          HeldMatchesOnce(c, events, r, k);
        }
      }
    }
  }

  lemma {:induction false} AppendUnclassified(c: Codec, events: seq<Event>, event: Event)
    requires Ledger(c, events) && Classify(c, event).None?
    ensures Ledger(c, events + [event])
    ensures forall r :: Holds(c, events, r) ==> Holds(c, events + [event], r)
  {
    forall r | Holds(c, events, r) ensures Holds(c, events + [event], r) {
      var k :| 0 <= k < |events| && Classify(c, events[k]) == Some(Classified(true, Some(r), r.receiptId));
      assert (events + [event])[k] == events[k];
    }
  }

  lemma {:induction false} OwnEvent(c: Codec, events: seq<Event>, r: Receipt, createdAt: string)
    requires Faithful(c) && Valid(c, r)
    ensures Classify(c, ReceiptEvent(c, events, r, createdAt)) ==
            if |c.serialize(r)| <= MAX_BLOB then Some(Classified(true, Some(r), r.receiptId)) else None
  {
  }

  lemma {:induction false} AppendOwn(c: Codec, events: seq<Event>, r: Receipt, event: Event)
    requires Ledger(c, events) && Valid(c, r) && Unnamed(c, events, r.receiptId)
    requires Classify(c, event) == Some(Classified(true, Some(r), r.receiptId))
    ensures Ledger(c, events + [event]) && Holds(c, events + [event], r)
    ensures forall q :: Holds(c, events, q) ==> Holds(c, events + [event], q)
  {
    assert (events + [event])[|events|] == event;
    forall q | Holds(c, events, q) ensures Holds(c, events + [event], q) {
      var k :| 0 <= k < |events| && Classify(c, events[k]) == Some(Classified(true, Some(q), q.receiptId));
      assert (events + [event])[k] == events[k];
    }
  }

  /** Recording keeps the ledger and everything it holds. */
  lemma {:induction false} RecordKeepsLedger(c: Codec, events: seq<Event>, r: Receipt, createdAt: string)
    requires Faithful(c) && Ledger(c, events)
    ensures var log := Recorded(c, events, r, createdAt).0;
            Ledger(c, log) && forall q :: Holds(c, events, q) ==> Holds(c, log, q)
  {
    if Valid(c, r) {
      LedgerAnswers(c, events, r.receiptId, Malformed);
      OwnEvent(c, events, r, createdAt);
      if Unnamed(c, events, r.receiptId) {
        var event := ReceiptEvent(c, events, r, createdAt);
        if |c.serialize(r)| <= MAX_BLOB {
          AppendOwn(c, events, r, event);
        } else {
          AppendUnclassified(c, events, event);
        }
      }
    }
  }

  /** A first record of a new identity. Recording it again changes nothing, and looking it up finds it,
      exactly when its canonical text fits the blob limit. */
  lemma {:induction false} RecordedIsFound(c: Codec, events: seq<Event>, r: Receipt, first: string, again: string)
    requires Faithful(c) && Ledger(c, events) && Valid(c, r) && Unnamed(c, events, r.receiptId)
    ensures var (log, answer) := Recorded(c, events, r, first);
            && answer == Ok(r) && |log| == |events| + 1
            && (Recorded(c, log, r, again) == (log, Ok(r)) <==> |c.serialize(r)| <= MAX_BLOB)
            && (Find(c, log, r.receiptId, r.workspace, r.captureId) == Ok(r) <==> |c.serialize(r)| <= MAX_BLOB)
  {
    LedgerAnswers(c, events, r.receiptId, Malformed);
    OwnEvent(c, events, r, first);
    var event := ReceiptEvent(c, events, r, first);
    var log := events + [event];
    if |c.serialize(r)| <= MAX_BLOB {
      AppendOwn(c, events, r, event);
    } else {
      AppendUnclassified(c, events, event);
      assert Unnamed(c, log, r.receiptId);
    }
    LedgerAnswers(c, log, r.receiptId, Malformed);
    LedgerAnswers(c, log, r.receiptId, NotFound);
  }

  /** A held receipt is found for its own workspace and Capture and for no other, and a different receipt
      under its identity is refused without touching the log. */
  lemma {:induction false} HeldIsFoundByOwner(c: Codec, events: seq<Event>, r: Receipt, q: Receipt, workspace: string,
      captureId: string, createdAt: string)
    requires Faithful(c) && Ledger(c, events) && Holds(c, events, r) && Valid(c, r)
    requires c.isUuid(workspace) && c.isCaptureId(captureId)
    ensures Find(c, events, r.receiptId, workspace, captureId) ==
            if workspace == r.workspace && captureId == r.captureId then Ok(r) else Err(NotFound)
    ensures Valid(c, q) && q.receiptId == r.receiptId ==>
              Recorded(c, events, q, createdAt) == (events, if q == r then Ok(r) else Err(IdempotencyConflict))
  {
    LedgerAnswers(c, events, r.receiptId, NotFound);
    LedgerAnswers(c, events, r.receiptId, Malformed);
    if Valid(c, q) && q.receiptId == r.receiptId && c.serialize(q) == c.serialize(r) {
      assert c.parse(c.serialize(q)) == Some(Parsed(Some(q.receiptId), Some(q)));
    }
  }

  // ---- runs ----

  datatype Action = Foreign(event: Event) | RecordReceipt(receipt: Receipt, createdAt: string)

  function Act(c: Codec, events: seq<Event>, action: Action): seq<Event> {
    match action
    case Foreign(event) => events + [event]
    case RecordReceipt(r, createdAt) => Recorded(c, events, r, createdAt).0
  }

  function After(c: Codec, events: seq<Event>, actions: seq<Action>): seq<Event>
    decreases |actions|
  {
    if actions == [] then events else After(c, Act(c, events, actions[0]), actions[1..])
  }

  /** Other events are not receipt events. */
  ghost predicate Foreigners(c: Codec, actions: seq<Action>) {
    forall a | a in actions && a.Foreign? :: Classify(c, a.event).None?
  }

  /** In every run from a ledger (the empty log is one) the log stays a ledger and never loses a receipt. */
  lemma {:induction false} RunKeepsLedger(c: Codec, events: seq<Event>, actions: seq<Action>)
    requires Faithful(c) && Ledger(c, events) && Foreigners(c, actions)
    ensures Ledger(c, After(c, events, actions))
    ensures forall r :: Holds(c, events, r) ==> Holds(c, After(c, events, actions), r)
    decreases |actions|
  {
    if actions != [] {
      var action := actions[0];
      assert action in actions;
      match action {
        case Foreign(event) => AppendUnclassified(c, events, event);
        case RecordReceipt(r, createdAt) => RecordKeepsLedger(c, events, r, createdAt);
      }
      RunKeepsLedger(c, Act(c, events, action), actions[1..]);
    }
  }

  /** The number after the largest: above all of the log, and one above the largest. */
  ghost predicate ComesNext(events: seq<Event>, n: nat) {
    && n >= 1
    && (forall i | 0 <= i < |events| && EventNumber(events[i].id).Some? :: EventNumber(events[i].id).value < n)
    && (n > 1 ==> exists i :: 0 <= i < |events| && EventNumber(events[i].id) == Some(n - 1))
  }

  lemma {:induction false} LargestIsNext(events: seq<Event>, n: nat)
    requires n == Largest(events) + 1
    ensures ComesNext(events, n)
  {
  }

  /** From any log whatever, a recorded receipt's event number is one more than the largest already in the log,
      and 1 when there is none. */
  lemma {:induction false} NumbersIncrease(c: Codec, events: seq<Event>, r: Receipt, createdAt: string)
    requires |Recorded(c, events, r, createdAt).0| > |events|
    ensures var log := Recorded(c, events, r, createdAt).0;
            && |log| == |events| + 1 && log[..|events|] == events
            && EventNumber(log[|events|].id).Some?
            && ComesNext(events, EventNumber(log[|events|].id).value)
  {
    var event, n := ReceiptEvent(c, events, r, createdAt), Largest(events) + 1;
    NextNumber(n);
    LargestIsNext(events, n);
    assert Recorded(c, events, r, createdAt).0 == events + [event] && EventNumber(event.id) == Some(n);
  }

  // ---- what a row of the log is ----

  /** A receipt row: an event of the receipt type whose details hold a text within the limit that parses. */
  ghost predicate IsReceiptRow(c: Codec, event: Event, blob: string, parsed: Parsed) {
    && event.kind == "capture.unlink_receipt" && event.details.Dict? && event.details.blob == Some(blob)
    && 1 <= |blob| <= 8192 && c.parse(blob) == Some(parsed)
  }

  /** Nothing is wrong with it: the details hold just the canonical text of a receipt, and the event is filed
      under that receipt's Capture and Task. */
  ghost predicate WellFiled(c: Codec, event: Event, blob: string, parsed: Parsed) {
    && !event.details.NoDict? && !event.details.others
    && parsed.receipt.Some? && c.serialize(parsed.receipt.value) == blob
    && event.captureId == Some(parsed.receipt.value.captureId)
    && event.taskId == Some(parsed.receipt.value.taskId)
  }

  /** How a row is classified, by its fields: it names an identity when it is a receipt row whose text gives one,
      and it is sound when it is well filed besides. */
  lemma {:induction false} RowMeans(c: Codec, event: Event, receiptId: string)
    ensures (Classify(c, event).Some? && Classify(c, event).value.receiptId == receiptId) <==>
              exists blob, parsed :: IsReceiptRow(c, event, blob, parsed) && parsed.receiptId == Some(receiptId)
    ensures forall blob, parsed | IsReceiptRow(c, event, blob, parsed) && parsed.receiptId == Some(receiptId) ::
              && (Sound(Classify(c, event).value) <==> WellFiled(c, event, blob, parsed))
              && (Sound(Classify(c, event).value) ==> Classify(c, event).value.receipt == parsed.receipt)
  {
    if Classify(c, event).Some? {
      var blob := event.details.blob.value;
      assert IsReceiptRow(c, event, blob, c.parse(blob).value);
    }
  }

  // ---- any log, tainted or not ----

  /** The row of the log that names this identity. */
  ghost predicate Names(c: Codec, events: seq<Event>, i: int, receiptId: string) {
    0 <= i < |events| && Classify(c, events[i]).Some? && Classify(c, events[i]).value.receiptId == receiptId
  }

  /** A row nothing is wrong with: its body is canonical and its envelope agrees with it. */
  predicate Sound(item: Classified) {
    item.envelopeOk && item.receipt.Some?
  }

  lemma {:induction false} MatchingRows(c: Codec, events: seq<Event>, receiptId: string)
    ensures forall item :: item in Matching(c, events, receiptId) <==>
              exists i :: Names(c, events, i, receiptId) && Classify(c, events[i]).value == item
  {
    if events != [] {
      var rest := events[1..];
      MatchingRows(c, rest, receiptId);
      forall item
        ensures item in Matching(c, events, receiptId) <==>
                  exists i :: Names(c, events, i, receiptId) && Classify(c, events[i]).value == item
      {
        MatchingOneMore(c, events, receiptId, item);
      }
    }
  }

  lemma {:induction false} MatchingOneMore(c: Codec, events: seq<Event>, receiptId: string, item: Classified)
    requires events != []
    requires item in Matching(c, events[1..], receiptId) <==>
               exists i :: Names(c, events[1..], i, receiptId) && Classify(c, events[1..][i]).value == item
    ensures item in Matching(c, events, receiptId) <==>
              exists i :: Names(c, events, i, receiptId) && Classify(c, events[i]).value == item
  {
    var rest := events[1..];
    if k :| Names(c, events, k, receiptId) && Classify(c, events[k]).value == item {
      if k > 0 {
        assert rest[k - 1] == events[k];
        assert Names(c, rest, k - 1, receiptId);
      }
    }
    if k :| Names(c, rest, k, receiptId) && Classify(c, rest[k]).value == item {
      assert rest[k] == events[k + 1];
      assert Names(c, events, k + 1, receiptId);
    }
  }

  lemma {:induction false} FirstRow(c: Codec, events: seq<Event>, receiptId: string, i: nat)
    requires Names(c, events, i, receiptId)
    requires forall k | 0 <= k < i :: !Names(c, events, k, receiptId)
    ensures Matching(c, events, receiptId) != []
    ensures Matching(c, events, receiptId)[0] == Classify(c, events[i]).value
  {
    if i > 0 {
      assert !Names(c, events, 0, receiptId);
      assert events[1..][i - 1] == events[i];
      forall k | 0 <= k < i - 1 ensures !Names(c, events[1..], k, receiptId) {
        assert events[1..][k] == events[k + 1] && !Names(c, events, k + 1, receiptId);
      }
      FirstRow(c, events[1..], receiptId, i - 1);
    }
  }

  /** All rows in the list are sound and serialize alike. */
  ghost predicate Agreed(c: Codec, matches: seq<Classified>) {
    && (forall item | item in matches :: Sound(item))
    && (forall x, y | x in matches && y in matches && Sound(x) && Sound(y) ::
          c.serialize(x.receipt.value) == c.serialize(y.receipt.value))
  }

  lemma {:induction false} AnsweredIfAgreed(c: Codec, events: seq<Event>, receiptId: string, tainted: Code)
    ensures var matches := Matching(c, events, receiptId);
            CanonicalFor(c, events, receiptId, tainted).Ok? <==> matches == [] || Agreed(c, matches)
    ensures var matches := Matching(c, events, receiptId);
            CanonicalFor(c, events, receiptId, tainted).Ok? && matches != [] ==>
              CanonicalFor(c, events, receiptId, tainted).value == matches[0].receipt && matches[0].receipt.Some?
  {
    var matches := Matching(c, events, receiptId);
    var answer := CanonicalFor(c, events, receiptId, tainted);
    if answer.Ok? && matches != [] {
      forall item | item in matches ensures Sound(item) {
        var i :| 0 <= i < |matches| && matches[i] == item;
      }
      forall x | x in matches ensures c.serialize(x.receipt.value) == c.serialize(matches[0].receipt.value) {
        var i :| 0 <= i < |matches| && matches[i] == x;
      }
    }
    if matches != [] && Agreed(c, matches) {
      forall i | 0 <= i < |matches|
        ensures Sound(matches[i]) &&
                c.serialize(matches[i].receipt.value) == c.serialize(matches[0].receipt.value)
      {
        assert matches[i] in matches && matches[0] in matches;
      }
    }
  }

  /** Each row naming the identity is sound, and all of them serialize alike. */
  ghost predicate RowsAgree(c: Codec, events: seq<Event>, receiptId: string) {
    && (forall i | Names(c, events, i, receiptId) :: Sound(Classify(c, events[i]).value))
    && (forall i, j | Names(c, events, i, receiptId) && Names(c, events, j, receiptId) &&
                      Sound(Classify(c, events[i]).value) && Sound(Classify(c, events[j]).value) ::
          c.serialize(Classify(c, events[i]).value.receipt.value) ==
          c.serialize(Classify(c, events[j]).value.receipt.value))
  }

  lemma {:induction false} AgreedRows(c: Codec, events: seq<Event>, receiptId: string)
    ensures Agreed(c, Matching(c, events, receiptId)) <==> RowsAgree(c, events, receiptId)
  {
    MatchingRows(c, events, receiptId);
    var matches := Matching(c, events, receiptId);
    forall i | Names(c, events, i, receiptId) ensures Classify(c, events[i]).value in matches {
    }
    if RowsAgree(c, events, receiptId) {
      forall x, y | x in matches && y in matches && Sound(x) && Sound(y)
        ensures c.serialize(x.receipt.value) == c.serialize(y.receipt.value)
      {
        var i :| Names(c, events, i, receiptId) && Classify(c, events[i]).value == x;
        var j :| Names(c, events, j, receiptId) && Classify(c, events[j]).value == y;
      }
    }
  }

  /** On any log whatever, an identity is answered exactly when no row names it, or every row naming it is
      sound and they all serialize alike; the answer then is the first such row's receipt. */
  lemma {:induction false} AnsweredExactly(c: Codec, events: seq<Event>, receiptId: string, tainted: Code)
    ensures CanonicalFor(c, events, receiptId, tainted).Ok? <==> RowsAgree(c, events, receiptId)
    ensures RowsAgree(c, events, receiptId) ==>
              forall i | Names(c, events, i, receiptId) && (forall k | 0 <= k < i :: !Names(c, events, k, receiptId)) ::
                CanonicalFor(c, events, receiptId, tainted) == Ok(Classify(c, events[i]).value.receipt)
    ensures CanonicalFor(c, events, receiptId, tainted) == Ok(None) <==> Unnamed(c, events, receiptId)
  {
    AnsweredIfAgreed(c, events, receiptId, tainted);
    AgreedRows(c, events, receiptId);
    UnnamedMatchesNothing(c, events, receiptId);
    forall i | Names(c, events, i, receiptId) && (forall k | 0 <= k < i :: !Names(c, events, k, receiptId))
      ensures Matching(c, events, receiptId) != []
      ensures Matching(c, events, receiptId)[0] == Classify(c, events[i]).value
    {
      FirstRow(c, events, receiptId, i);
    }
  }

  lemma {:induction false} MatchesRefusedAs(c: Codec, events: seq<Event>, receiptId: string, tainted: Code)
    requires var matches := Matching(c, events, receiptId); matches != [] && !Agreed(c, matches)
    ensures var matches := Matching(c, events, receiptId);
            CanonicalFor(c, events, receiptId, tainted) ==
            Err(if forall item | item in matches :: Sound(item) then IdempotencyConflict
                else if forall item | item in matches :: item.receipt.None? then tainted
                else Malformed)
  {
    var matches := Matching(c, events, receiptId);
    AnsweredIfAgreed(c, events, receiptId, tainted);
    if item :| item in matches && !Sound(item) {
      var i :| 0 <= i < |matches| && matches[i] == item;
    }
    if item :| item in matches && item.receipt.Some? {
      var i :| 0 <= i < |matches| && matches[i] == item;
    }
    forall i | 0 <= i < |matches| ensures matches[i] in matches {
    }
  }

  /** What a log that does not answer an identity is refused for: a conflict when every row naming it is sound,
      the caller's code when no row's text is canonical, and malformed in every other case. */
  lemma {:induction false} RefusedAs(c: Codec, events: seq<Event>, receiptId: string, tainted: Code)
    requires !RowsAgree(c, events, receiptId)
    ensures CanonicalFor(c, events, receiptId, tainted) ==
            Err(if forall i | Names(c, events, i, receiptId) :: Sound(Classify(c, events[i]).value)
                then IdempotencyConflict
                else if forall i | Names(c, events, i, receiptId) :: Classify(c, events[i]).value.receipt.None?
                then tainted
                else Malformed)
  {
    AgreedRows(c, events, receiptId);
    MatchingRows(c, events, receiptId);
    forall i | Names(c, events, i, receiptId) ensures Classify(c, events[i]).value in Matching(c, events, receiptId) {
    }
    MatchesRefusedAs(c, events, receiptId, tainted);
  }

  /** What a lookup answers on any log: malformed arguments are refused before the log is read; a log that does not
      answer the identity refuses; and the receipt on record is given to its own workspace and Capture only. */
  lemma {:induction false} FindMeans(c: Codec, events: seq<Event>, receiptId: string, workspace: string,
      captureId: string)
    ensures var r := Find(c, events, receiptId, workspace, captureId);
            if !c.isUuid(receiptId) || !c.isUuid(workspace) || !c.isCaptureId(captureId) then r == Err(Malformed)
            else if !RowsAgree(c, events, receiptId) then
              var answer := CanonicalFor(c, events, receiptId, NotFound);
              answer.Err? && r == Err(answer.error)
            else
              && (Unnamed(c, events, receiptId) ==> r == Err(NotFound))
              && forall i | Names(c, events, i, receiptId) &&
                            (forall k | 0 <= k < i :: !Names(c, events, k, receiptId)) ::
                   var held := Classify(c, events[i]).value.receipt.value;
                   r == if held.workspace == workspace && held.captureId == captureId then Ok(held) else Err(NotFound)
  {
    AnsweredExactly(c, events, receiptId, NotFound);
    if RowsAgree(c, events, receiptId) {
      forall i | Names(c, events, i, receiptId) ensures Sound(Classify(c, events[i]).value) {
      }
    }
  }

  /** What may be recorded: fields of the right shape, an identity derived from workspace and key, and two
      consecutive safe revisions. */
  predicate Recordable(c: Codec, r: Receipt) {
    && c.fieldsOk(r) && c.isUuid(r.workspace) && c.isUuid(r.receiptId) && c.isCaptureId(r.captureId)
    && r.receiptId == c.derive(r.workspace, r.key)
    && 0 <= r.beforeRevision < r.afterRevision <= 9007199254740991 && r.afterRevision - r.beforeRevision == 1
  }

  /** On any log a record appends exactly when the receipt may be recorded and no row names its identity, and
      then exactly one well-filed event; otherwise the log stays as it is. */
  lemma {:induction false} RecordsExactly(c: Codec, events: seq<Event>, r: Receipt, createdAt: string)
    ensures var (log, answer) := Recorded(c, events, r, createdAt);
            if Recordable(c, r) && Unnamed(c, events, r.receiptId) then
              && answer == Ok(r) && |log| == |events| + 1 && log[..|events|] == events
              && log[|events|] == Event(log[|events|].id, "capture.unlink_receipt", createdAt, Some(r.captureId),
                                        Some(r.taskId), Dict(Some(c.serialize(r)), false))
            else log == events && (!Recordable(c, r) ==> answer == Err(Malformed))
  {
    AnsweredExactly(c, events, r.receiptId, Malformed);
  }

  /** One bad row is enough: a lookup of the identity refuses, a record under it is refused as malformed, and
      the log stays as it is. */
  lemma {:induction false} OneBadRowRefuses(c: Codec, events: seq<Event>, i: nat, r: Receipt, workspace: string,
      captureId: string, createdAt: string)
    requires Names(c, events, i, r.receiptId) && !Sound(Classify(c, events[i]).value)
    ensures Find(c, events, r.receiptId, workspace, captureId).Err?
    ensures Recorded(c, events, r, createdAt) == (events, Err(Malformed))
  {
    AnsweredExactly(c, events, r.receiptId, NotFound);
    AnsweredExactly(c, events, r.receiptId, Malformed);
    BadRowIsMalformed(c, events, i, r.receiptId);
  }

  lemma {:induction false} BadRowIsMalformed(c: Codec, events: seq<Event>, i: nat, receiptId: string)
    requires Names(c, events, i, receiptId) && !Sound(Classify(c, events[i]).value)
    ensures CanonicalFor(c, events, receiptId, Malformed) == Err(Malformed)
  {
    MatchingRows(c, events, receiptId);
    var matches := Matching(c, events, receiptId);
    assert Classify(c, events[i]).value in matches;
    var k :| 0 <= k < |matches| && matches[k] == Classify(c, events[i]).value;
  }

  lemma {:induction false} LogGrows(c: Codec, events: seq<Event>, actions: seq<Action>)
    ensures events <= After(c, events, actions)
    decreases |actions|
  {
    if actions != [] {
      LogGrows(c, Act(c, events, actions[0]), actions[1..]);
    }
  }

  /** The log is append-only, so a bad row refuses its identity in every later state, whatever is recorded or
      appended since. */
  lemma {:induction false} BadRowForever(c: Codec, events: seq<Event>, actions: seq<Action>, i: nat, r: Receipt,
      workspace: string, captureId: string, createdAt: string)
    requires Names(c, events, i, r.receiptId) && !Sound(Classify(c, events[i]).value)
    ensures var log := After(c, events, actions);
            && Find(c, log, r.receiptId, workspace, captureId).Err?
            && Recorded(c, log, r, createdAt) == (log, Err(Malformed))
  {
    var log := After(c, events, actions);
    LogGrows(c, events, actions);
    assert log[i] == events[i];
    assert Names(c, log, i, r.receiptId);
    OneBadRowRefuses(c, log, i, r, workspace, captureId, createdAt);
  }

  // ---- beyond the blob limit ----

  /** A Capture id longer than the blob limit: the id pattern puts no upper bound on its digits. */
  function LongId(): (id: string)
    ensures |id| == MAX_BLOB + 2
  {
    "C-" + Zeros(MAX_BLOB)
  }

  /** The codec admits that id, no other field depends on it, and the canonical text spells it out. */
  ghost predicate SpellsLongId(c: Codec, r: Receipt) {
    var long := r.(captureId := LongId());
    c.isCaptureId(LongId()) && c.fieldsOk(long) == c.fieldsOk(r) && |c.serialize(long)| >= |LongId()|
  }

  /** Valid receipts beyond the limit exist: any valid receipt becomes one. Recorded, it is never found, and
      recording it again appends it again. */
  lemma {:induction false} OverlongIsLost(c: Codec, events: seq<Event>, r: Receipt, first: string, again: string)
    requires Faithful(c) && Ledger(c, events) && Valid(c, r) && SpellsLongId(c, r)
    requires Unnamed(c, events, r.receiptId)
    ensures var long := r.(captureId := LongId());
            var (log, answer) := Recorded(c, events, long, first);
            && Valid(c, long) && |c.serialize(long)| > MAX_BLOB
            && answer == Ok(long) && |log| == |events| + 1
            && Find(c, log, long.receiptId, long.workspace, long.captureId) == Err(NotFound)
            && |Recorded(c, log, long, again).0| == |events| + 2
  {
    var long := r.(captureId := LongId());
    var log := events + [ReceiptEvent(c, events, long, first)];
    LedgerAnswers(c, events, long.receiptId, Malformed);
    OwnEvent(c, events, long, first);
    AppendUnclassified(c, events, ReceiptEvent(c, events, long, first));
    assert Unnamed(c, log, long.receiptId);
    LedgerAnswers(c, log, long.receiptId, Malformed);
    LedgerAnswers(c, log, long.receiptId, NotFound);
  }
}
