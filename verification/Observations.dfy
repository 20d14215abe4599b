/** The bounded cache of past source-check observations: one row per Capture, evicted oldest first. */
module Observations {
  import opened Wrappers
  import opened Orders
  import opened Rfc3339

  /** One observation record. `acceptedAt` is the instant its accepted_at text parses to, `body` its
      compact JSON encoding as bytes. */
  datatype Row = Row(captureId: string, nonce: string, acceptedAt: Instant, body: seq<bv8>)

  datatype Code =
    | Protocol(code: string) | RowTooLarge | TooMany | DuplicateCapture | Conflict | Stale | TooLarge

  const MAX_ROWS: nat := 128
  const MAX_ROW_BYTES: nat := 40 * 1024
  const MAX_BYTES: nat := 1024 * 1024

  /** The schema, protocol and workspace checks, which return the normalized record or a refusal code. */
  type Protocol = Row -> Result<Row, Code>

  /** A normalized record passes the checks again, unchanged. */
  ghost predicate Normalizing(check: Protocol) {
    forall r :: check(r).Ok? ==> check(check(r).value) == check(r)
  }

  function ValidateRow(check: Protocol, record: Row): Result<Row, Code> {
    match check(record)
    case Err(e) => Err(e)
    case Ok(row) => if |row.body| > MAX_ROW_BYTES then Err(RowTooLarge) else Ok(row)
  }

  function ValidateRows(check: Protocol, records: seq<Row>): (r: Result<seq<Row>, Code>)
    ensures r.Ok? ==> |r.value| == |records| &&
                      forall i | 0 <= i < |records| :: ValidateRow(check, records[i]) == Ok(r.value[i])
  {
    Each((record: Row) => ValidateRow(check, record), records)
  }

  // ---- sizes and orders ----

  function Commas(rows: seq<Row>): nat {
    if rows == [] then 0 else |rows[0].body| + 1 + Commas(rows[1..])
  }

  /** The byte length of the compact JSON list: brackets, rows, and a comma between two rows. */
  function CompactSize(rows: seq<Row>): nat {
    if rows == [] then 2 else 1 + Commas(rows)
  }

  /** The compact JSON list itself. */
  function Rendered(rows: seq<Row>): seq<bv8> {
    [0x5B] + Listed(rows) + [0x5D]
  }

  /** The rows, with a comma between two of them. */
  function Listed(rows: seq<Row>): seq<bv8> {
    if rows == [] then []
    else if |rows| == 1 then rows[0].body
    else rows[0].body + [0x2C] + Listed(rows[1..])
  }

  lemma {:induction false} ListedLength(rows: seq<Row>)
    requires rows != []
    ensures |Listed(rows)| + 1 == Commas(rows)
  {
    if |rows| > 1 {
      ListedLength(rows[1..]);
    } else {
      assert Commas(rows[1..]) == 0;
    }
  }

  lemma {:induction false} CompactSizeIsLength(rows: seq<Row>)
    ensures CompactSize(rows) == |Rendered(rows)|
  {
    if rows != [] {
      ListedLength(rows);
    }
  }

  predicate Fits(rows: seq<Row>) {
    |rows| <= MAX_ROWS && CompactSize(rows) <= MAX_BYTES
  }

  predicate IdLess(a: Row, b: Row) {
    TextLess(a.captureId, b.captureId)
  }

  /** The eviction key: accepted instant, then nonce, then capture id. */
  predicate Older(a: Row, b: Row) {
    InstantLess(a.acceptedAt, b.acceptedAt) || (a.acceptedAt == b.acceptedAt && (
      TextLess(a.nonce, b.nonce) || (a.nonce == b.nonce && TextLess(a.captureId, b.captureId))))
  }

  lemma {:induction false} IdLessWeak()
    ensures StrictWeak(IdLess)
  {
    TextLessTotal();
  }

  lemma {:induction false} OlderWeak()
    ensures StrictWeak(Older)
  {
    TextLessTotal();
    InstantLessTotal();
  }

  function SortById(rows: seq<Row>): (r: seq<Row>)
    ensures multiset(r) == multiset(rows) && |r| == |rows|
    ensures Sorted(IdLess, r)
  {
    IdLessWeak();
    SortBy(IdLess, rows)
  }

  function SortByAge(rows: seq<Row>): (r: seq<Row>)
    ensures multiset(r) == multiset(rows) && |r| == |rows|
    ensures Sorted(Older, r)
  {
    OlderWeak();
    SortBy(Older, rows)
  }

  ghost predicate UniqueIds(rows: seq<Row>) {
    Distinct(Ids(rows))
  }

  ghost predicate UniqueNonces(rows: seq<Row>) {
    Distinct(Nonces(rows))
  }

  // ---- validating a stored list ----

  predicate HasRepeat(texts: seq<string>) {
    exists i, j | 0 <= i < j < |texts| :: texts[i] == texts[j]
  }

  function Ids(rows: seq<Row>): (s: seq<string>)
    ensures |s| == |rows| && forall i | 0 <= i < |rows| :: s[i] == rows[i].captureId
  {
    seq(|rows|, i requires 0 <= i < |rows| => rows[i].captureId)
  }

  function Nonces(rows: seq<Row>): (s: seq<string>)
    ensures |s| == |rows| && forall i | 0 <= i < |rows| :: s[i] == rows[i].nonce
  {
    seq(|rows|, i requires 0 <= i < |rows| => rows[i].nonce)
  }

  /** The checks on a list whose rows are valid. */
  function CheckedList(rows: seq<Row>): Result<seq<Row>, Code> {
    if HasRepeat(Ids(rows)) then Err(DuplicateCapture)
    else if HasRepeat(Nonces(rows)) then Err(Conflict)
    else
      var sorted := SortById(rows);
      if CompactSize(sorted) > MAX_BYTES then Err(TooLarge) else Ok(sorted)
  }

  function ValidateList(check: Protocol, records: seq<Row>): Result<seq<Row>, Code> {
    if |records| > MAX_ROWS then Err(TooMany)
    else match ValidateRows(check, records) case Err(e) => Err(e) case Ok(rows) => CheckedList(rows)
  }

  /** What the store may hold. */
  ghost predicate Stored(check: Protocol, rows: seq<Row>) {
    && StrictlySorted(IdLess, rows) && UniqueNonces(rows) && Fits(rows)
    && forall i | 0 <= i < |rows| :: ValidateRow(check, rows[i]) == Ok(rows[i])
  }

  // ---- eviction ----

  function Others(rows: seq<Row>, retained: Row): (r: seq<Row>)
    ensures forall x :: x in r <==> x in rows && x != retained
    ensures |r| <= |rows|
  {
    if rows == [] then []
    else if rows[0] == retained then Others(rows[1..], retained)
    else [rows[0]] + Others(rows[1..], retained)
  }

  /** `min` with the eviction key: the first of the oldest rows. */
  function Oldest(rows: seq<Row>): (r: Row)
    requires rows != []
    ensures r in rows
  {
    if |rows| == 1 then rows[0]
    else
      var rest := Oldest(rows[1..]);
      if Older(rest, rows[0]) then rest else rows[0]
  }

  /** `list.remove`. */
  function Remove(rows: seq<Row>, x: Row): (r: seq<Row>)
    requires x in rows
    ensures multiset(r) == multiset(rows) - multiset{x}
    ensures |r| == |rows| - 1
  {
    assert rows == [rows[0]] + rows[1..];
    if rows[0] == x then rows[1..] else [rows[0]] + Remove(rows[1..], x)
  }

  /** Drop the oldest other row until both caps hold. */
  function Evicted(rows: seq<Row>, retained: Row): Result<seq<Row>, Code>
    decreases |rows|
  {
    if Fits(rows) then Ok(SortById(rows))
    else
      var others := Others(rows, retained);
      if others == [] then Err(TooLarge) else Evicted(Remove(rows, Oldest(others)), retained)
  }

  method Evict(given: seq<Row>, retained: Row) returns (r: Result<seq<Row>, Code>)
    ensures r == Evicted(given, retained)
  {
    var rows := given;
    while |rows| > MAX_ROWS || CompactSize(rows) > MAX_BYTES
      invariant Evicted(rows, retained) == Evicted(given, retained)
      decreases |rows|
    {
      var others := Others(rows, retained);
      if others == [] {
        return Err(TooLarge);
      }
      rows := Remove(rows, Oldest(others));
    }
    return Ok(SortById(rows));
  }

  function Find(rows: seq<Row>, nonce: string): Option<Row> {
    if rows == [] then None
    else if rows[0].nonce == nonce then Some(rows[0])
    else Find(rows[1..], nonce)
  }

  function FindCapture(rows: seq<Row>, captureId: string): Option<Row> {
    if rows == [] then None
    else if rows[0].captureId == captureId then Some(rows[0])
    else FindCapture(rows[1..], captureId)
  }

  function Without(rows: seq<Row>, captureId: string): (r: seq<Row>)
    ensures forall x :: x in r <==> x in rows && x.captureId != captureId
    ensures |r| <= |rows|
  {
    if rows == [] then []
    else if rows[0].captureId == captureId then Without(rows[1..], captureId)
    else [rows[0]] + Without(rows[1..], captureId)
  }

  /** Where a valid new row goes in a valid list. */
  function Placed(existing: seq<Row>, incoming: Row): Result<seq<Row>, Code> {
    match Find(existing, incoming.nonce)
    case Some(item) => if item == incoming then Ok(existing) else Err(Conflict)
    case None =>
      var prior := FindCapture(existing, incoming.captureId);
      if prior.Some? && InstantLess(incoming.acceptedAt, prior.value.acceptedAt) then Err(Stale)
      else Evicted(Without(existing, incoming.captureId) + [incoming], incoming)
  }

  /** `plan_observation_upsert`. */
  function Upserted(check: Protocol, records: seq<Row>, record: Row): Result<seq<Row>, Code> {
    match ValidateList(check, records)
    case Err(e) => Err(e)
    case Ok(existing) =>
      match ValidateRow(check, record) case Err(e) => Err(e) case Ok(incoming) => Placed(existing, incoming)
  }

  // ---- what eviction keeps ----

  /** Drop from the front of an oldest-first list until what is left fits beside the retained row. */
  function Survivors(byAge: seq<Row>, retained: Row): (r: seq<Row>)
    ensures exists k :: 0 <= k <= |byAge| && r == byAge[k..]
  {
    if byAge == [] || Fits([retained] + byAge) then
      assert byAge[0..] == byAge;
      byAge
    else
      var r := Survivors(byAge[1..], retained);
      var k :| 0 <= k <= |byAge| - 1 && r == byAge[1..][k..];
      assert r == byAge[k + 1..];
      r
  }

  lemma {:induction false} CommasConcat(a: seq<Row>, b: seq<Row>)
    ensures Commas(a + b) == Commas(a) + Commas(b)
  {
    if a == [] {
      assert a + b == b;
    } else {
      assert (a + b)[1..] == a[1..] + b;
      CommasConcat(a[1..], b);
    }
  }

  lemma {:induction false} CommasPermute(a: seq<Row>, b: seq<Row>)
    requires multiset(a) == multiset(b)
    ensures Commas(a) == Commas(b)
    decreases |a|
  {
    if a == [] {
      assert |multiset(b)| == 0;
    } else {
      var j := MatchFirst(a, b);
      CommasPermute(a[1..], b[..j] + b[j + 1..]);
      assert b == b[..j] + ([b[j]] + b[j + 1..]);
      CommasConcat(b[..j], [b[j]] + b[j + 1..]);
      CommasConcat(b[..j], b[j + 1..]);
    }
  }

  /** Both caps depend only on which rows are held. */
  lemma {:induction false} FitsPermutes(a: seq<Row>, b: seq<Row>)
    requires multiset(a) == multiset(b)
    ensures Fits(a) <==> Fits(b)
    ensures CompactSize(a) == CompactSize(b)
  {
    assert |multiset(a)| == |a| && |multiset(b)| == |b|;
    CommasPermute(a, b);
  }

  lemma {:induction false} UniqueNoncesPermute(a: seq<Row>, b: seq<Row>)
    requires UniqueNonces(a) && multiset(a) == multiset(b)
    ensures UniqueNonces(b)
  {
    var f := (row: Row) => row.nonce;
    MappedPermutes(f, a, b);
    assert Mapped(f, a) == Nonces(a) && Mapped(f, b) == Nonces(b);
    DistinctPermutes(Nonces(a), Nonces(b));
  }

  lemma {:induction false} UniqueIdsPermute(a: seq<Row>, b: seq<Row>)
    requires UniqueIds(a) && multiset(a) == multiset(b)
    ensures UniqueIds(b)
  {
    var f := (row: Row) => row.captureId;
    MappedPermutes(f, a, b);
    assert Mapped(f, a) == Ids(a) && Mapped(f, b) == Ids(b);
    DistinctPermutes(Ids(a), Ids(b));
  }

  lemma {:induction false} OthersMultiset(rows: seq<Row>, retained: Row)
    ensures multiset(Others(rows, retained)) == multiset(rows)[retained := 0]
  {
    if rows != [] {
      assert rows == [rows[0]] + rows[1..];
      OthersMultiset(rows[1..], retained);
    }
  }

  lemma {:induction false} OldestIsOldest(rows: seq<Row>)
    requires rows != []
    ensures forall y | y in rows :: !Older(y, Oldest(rows))
  {
    OlderWeak();
    if |rows| > 1 {
      OldestIsOldest(rows[1..]);
      assert forall y | y in rows :: y == rows[0] || y in rows[1..];
    }
  }

  lemma {:induction false} NoncesSeparate(rows: seq<Row>)
    requires UniqueNonces(rows)
    ensures Separates(Older, rows)
  {
    TextLessTotal();
    InstantLessTotal();
    forall x, y | x in rows && y in rows ensures x == y || Older(x, y) || Older(y, x) {
      var i :| 0 <= i < |rows| && rows[i] == x;
      var j :| 0 <= j < |rows| && rows[j] == y;
      assert i != j ==> Nonces(rows)[i] != Nonces(rows)[j];
    }
  }

  lemma {:induction false} OlderAsymmetric()
    ensures Asymmetric(Older)
  {
    OlderWeak();
  }

  lemma {:induction false} OldestFirst(others: seq<Row>)
    requires UniqueNonces(others) && others != []
    ensures SortByAge(others)[0] == Oldest(others)
  {
    var byAge, v := SortByAge(others), Oldest(others);
    OldestIsOldest(others);
    NoncesSeparate(others);
    OlderAsymmetric();
    assert v in multiset(byAge) && byAge[0] in multiset(others);
    SortedHead(Older, byAge, v);
  }

  lemma {:induction false} UniqueNoncesPart(all: seq<Row>, part: seq<Row>, rest: seq<Row>)
    requires UniqueNonces(all) && multiset(all) == multiset(part) + multiset(rest)
    ensures UniqueNonces(part) && Separates(Older, part)
  {
    assert multiset(part + rest) == multiset(all);
    UniqueNoncesPermute(all, part + rest);
    assert Nonces(part + rest)[..|part|] == Nonces(part);
    NoncesSeparate(part);
  }

  lemma {:induction false} SortedTail(byAge: seq<Row>, fewer: seq<Row>)
    requires UniqueNonces(byAge) && byAge != [] && Sorted(Older, byAge)
    requires multiset(byAge) == multiset{byAge[0]} + multiset(fewer)
    ensures SortByAge(fewer) == byAge[1..]
  {
    var tail := byAge[1..];
    assert byAge == [byAge[0]] + tail;
    CancelOne(byAge[0], multiset(tail), multiset(fewer));
    UniqueNoncesPart(byAge, tail, [byAge[0]]);
    OlderAsymmetric();
    SortedUnique(Older, tail, SortByAge(fewer));
  }

  /** Removing the oldest row removes the first of the oldest-first list. */
  lemma {:induction false} DropOldest(others: seq<Row>, fewer: seq<Row>)
    requires UniqueNonces(others) && others != []
    requires multiset(others) == multiset{Oldest(others)} + multiset(fewer)
    ensures SortByAge(fewer) == SortByAge(others)[1..]
  {
    var byAge := SortByAge(others);
    OldestFirst(others);
    UniqueNoncesPermute(others, byAge);
    SortedTail(byAge, fewer);
  }

  lemma {:induction false} UniqueNoncesDistinct(rows: seq<Row>)
    requires UniqueNonces(rows)
    ensures Distinct(rows)
  {
    forall i, j | 0 <= i < j < |rows| ensures rows[i] != rows[j] {
      assert Nonces(rows)[i] != Nonces(rows)[j];
    }
  }

  lemma {:induction false} RetainedAndOthers(rows: seq<Row>, retained: Row)
    requires UniqueNonces(rows) && retained in rows
    ensures multiset(rows) == multiset{retained} + multiset(Others(rows, retained))
    ensures UniqueNonces(Others(rows, retained))
  {
    OthersMultiset(rows, retained);
    UniqueNoncesDistinct(rows);
    DistinctOnce(rows, retained);
    assert retained in multiset(rows);
    UniqueNoncesPart(rows, Others(rows, retained), [retained]);
  }

  lemma {:induction false} CancelRetained<T>(all: multiset<T>, fewer: multiset<T>, others: multiset<T>,
      left: multiset<T>, v: T, retained: T)
    requires all == multiset{retained} + others && all == multiset{v} + fewer
    requires fewer == multiset{retained} + left
    ensures others == multiset{v} + left
  {
    CancelOne(retained, others, multiset{v} + left);
  }

  lemma {:induction false} RemoveKeeps(rows: seq<Row>, v: Row, retained: Row)
    requires UniqueNonces(rows) && v in rows && retained in rows && v != retained
    ensures UniqueNonces(Remove(rows, v)) && retained in Remove(rows, v)
    ensures multiset(rows) == multiset{v} + multiset(Remove(rows, v))
  {
    var fewer := Remove(rows, v);
    assert v in multiset(rows) && retained in multiset(rows);
    assert multiset(rows) == multiset{v} + multiset(fewer);
    UniqueNoncesPart(rows, fewer, [v]);
    assert retained in multiset(fewer);
  }

  lemma {:induction false} WithoutOldest(rows: seq<Row>, retained: Row)
    requires UniqueNonces(rows) && retained in rows && Others(rows, retained) != []
    ensures var others := Others(rows, retained);
            var fewer := Remove(rows, Oldest(others));
            && UniqueNonces(fewer) && retained in fewer
            && SortByAge(Others(fewer, retained)) == SortByAge(others)[1..]
  {
    var others := Others(rows, retained);
    var v := Oldest(others);
    var fewer := Remove(rows, v);
    RetainedAndOthers(rows, retained);
    RemoveKeeps(rows, v, retained);
    RetainedAndOthers(fewer, retained);
    CancelRetained(multiset(rows), multiset(fewer), multiset(others), multiset(Others(fewer, retained)), v, retained);
    DropOldest(others, Others(fewer, retained));
  }

  /** An eviction came out right: the rows to keep, sorted by id, or a refusal if they do not fit. */
  ghost predicate Meets(r: Result<seq<Row>, Code>, kept: seq<Row>) {
    if Fits(kept) then r.Ok? && multiset(r.value) == multiset(kept) && Sorted(IdLess, r.value)
    else r == Err(TooLarge)
  }

  lemma {:induction false} EvictNothing(rows: seq<Row>, retained: Row, byAge: seq<Row>)
    requires multiset(rows) == multiset([retained] + byAge)
    requires Fits(rows) || (byAge == [] && Others(rows, retained) == [])
    ensures Meets(Evicted(rows, retained), [retained] + Survivors(byAge, retained))
  {
    FitsPermutes(rows, [retained] + byAge);
  }

  lemma {:induction false} EvictOne(rows: seq<Row>, retained: Row, byAge: seq<Row>)
    requires multiset(rows) == multiset([retained] + byAge)
    requires !Fits(rows) && byAge != [] && Others(rows, retained) != []
    requires Meets(Evicted(Remove(rows, Oldest(Others(rows, retained))), retained),
                   [retained] + Survivors(byAge[1..], retained))
    ensures Meets(Evicted(rows, retained), [retained] + Survivors(byAge, retained))
  {
    FitsPermutes(rows, [retained] + byAge);
  }

  lemma {:induction false} HeadAdded<T>(x: T, s: seq<T>)
    ensures multiset([x] + s) == multiset{x} + multiset(s)
  {
  }

  lemma {:induction false} EvictionMeets(rows: seq<Row>, retained: Row)
    requires UniqueNonces(rows) && retained in rows
    ensures Meets(Evicted(rows, retained), [retained] + Survivors(SortByAge(Others(rows, retained)), retained))
    decreases |rows|
  {
    var others := Others(rows, retained);
    var byAge := SortByAge(others);
    RetainedAndOthers(rows, retained);
    HeadAdded(retained, byAge);
    if Fits(rows) || others == [] {
      EvictNothing(rows, retained, byAge);
    } else {
      WithoutOldest(rows, retained);
      EvictionMeets(Remove(rows, Oldest(others)), retained);
      EvictOne(rows, retained, byAge);
    }
  }

  /** What is evicted, said without the loop: the shortest run of oldest other rows whose removal makes
      the rest fit; refused exactly when even the retained row alone does not fit. */
  lemma {:induction false} EvictedMeans(rows: seq<Row>, retained: Row)
    requires UniqueNonces(rows) && retained in rows
    ensures var kept := [retained] + Survivors(SortByAge(Others(rows, retained)), retained);
            if Fits(kept) then
              Evicted(rows, retained).Ok? && multiset(Evicted(rows, retained).value) == multiset(kept)
            else Evicted(rows, retained) == Err(TooLarge)
    ensures Evicted(rows, retained).Ok? ==> Sorted(IdLess, Evicted(rows, retained).value)
  {
    EvictionMeets(rows, retained);
  }

  /** No shorter run of oldest rows would have been enough. */
  lemma {:induction false} SurvivorsAreMost(byAge: seq<Row>, retained: Row, j: nat)
    requires j <= |byAge| && |byAge[j..]| > |Survivors(byAge, retained)|
    ensures !Fits([retained] + byAge[j..])
  {
    assert byAge[0..] == byAge;
    if j > 0 {
      assert byAge[1..][j - 1..] == byAge[j..];
      SurvivorsAreMost(byAge[1..], retained, j - 1);
    }
  }

  // ---- the upsert ----

  lemma {:induction false} StrictIdsUnique(rows: seq<Row>)
    requires StrictlySorted(IdLess, rows)
    ensures UniqueIds(rows) && Separates(IdLess, rows)
  {
    IdLessWeak();
    forall i, j | 0 <= i < j < |rows| ensures Ids(rows)[i] != Ids(rows)[j] {
      assert IdLess(rows[i], rows[j]);
    }
    forall x, y | x in rows && y in rows ensures x == y || IdLess(x, y) || IdLess(y, x) {
      var i :| 0 <= i < |rows| && rows[i] == x;
      var j :| 0 <= j < |rows| && rows[j] == y;
    }
  }

  lemma {:induction false} SortedUniqueIsStrict(rows: seq<Row>)
    requires Sorted(IdLess, rows) && UniqueIds(rows)
    ensures StrictlySorted(IdLess, rows)
  {
    TextLessTotal();
    forall i, j | 0 <= i < j < |rows| ensures IdLess(rows[i], rows[j]) {
      assert Ids(rows)[i] != Ids(rows)[j] && !IdLess(rows[j], rows[i]);
    }
  }

  lemma {:induction false} SortStored(rows: seq<Row>)
    requires StrictlySorted(IdLess, rows)
    ensures SortById(rows) == rows
  {
    StrictIdsUnique(rows);
    IdLessWeak();
    SortedUnique(IdLess, rows, SortById(rows));
  }

  lemma {:induction false} ValidateStoredRows(check: Protocol, rows: seq<Row>)
    requires forall i | 0 <= i < |rows| :: ValidateRow(check, rows[i]) == Ok(rows[i])
    ensures ValidateRows(check, rows) == Ok(rows)
  {
    assert ValidateRows(check, rows).Ok? && ValidateRows(check, rows).value == rows;
  }

  lemma {:induction false} StoredChecked(rows: seq<Row>)
    requires StrictlySorted(IdLess, rows) && UniqueNonces(rows) && Fits(rows)
    ensures CheckedList(rows) == Ok(rows)
  {
    StrictIdsUnique(rows);
    SortStored(rows);
  }

  /** A stored list is read back as it stands. */
  lemma {:induction false} StoredValidates(check: Protocol, rows: seq<Row>)
    requires Stored(check, rows)
    ensures ValidateList(check, rows) == Ok(rows)
  {
    ValidateStoredRows(check, rows);
    StoredChecked(rows);
  }

  /** A list with an invalid row is refused for the first such row, unless it is too long. */
  lemma {:induction false} InvalidRowRefused(check: Protocol, records: seq<Row>, k: nat)
    requires k < |records| && ValidateRow(check, records[k]).Err?
    requires forall i | 0 <= i < k :: ValidateRow(check, records[i]).Ok?
    ensures ValidateList(check, records) ==
            if |records| > 128 then Err(TooMany) else Err(ValidateRow(check, records[k]).error)
  {
    FirstOfEach((record: Row) => ValidateRow(check, record), records, k);
  }

  lemma {:induction false} SortedChecked(rows: seq<Row>)
    requires UniqueIds(rows) && UniqueNonces(rows) && |rows| <= MAX_ROWS
    ensures var r := CheckedList(rows);
            if |Rendered(rows)| > 1048576 then r == Err(TooLarge)
            else r.Ok? && multiset(r.value) == multiset(rows) &&
                 StrictlySorted(IdLess, r.value) && UniqueNonces(r.value) && Fits(r.value)
  {
    var sorted := SortById(rows);
    FitsPermutes(rows, sorted);
    CompactSizeIsLength(rows);
    UniqueIdsPermute(rows, sorted);
    UniqueNoncesPermute(rows, sorted);
    SortedUniqueIsStrict(sorted);
  }

  ghost predicate SharedCapture(rows: seq<Row>) {
    exists i, j :: 0 <= i < j < |rows| && rows[i].captureId == rows[j].captureId
  }

  ghost predicate SharedNonce(rows: seq<Row>) {
    exists i, j :: 0 <= i < j < |rows| && rows[i].nonce == rows[j].nonce
  }

  lemma {:induction false} RepeatsShared(rows: seq<Row>)
    ensures HasRepeat(Ids(rows)) <==> SharedCapture(rows)
    ensures HasRepeat(Nonces(rows)) <==> SharedNonce(rows)
    ensures UniqueIds(rows) <==> !SharedCapture(rows)
    ensures UniqueNonces(rows) <==> !SharedNonce(rows)
  {
    if SharedCapture(rows) {
      var i, j :| 0 <= i < j < |rows| && rows[i].captureId == rows[j].captureId;
      assert Ids(rows)[i] == Ids(rows)[j];
    }
    if SharedNonce(rows) {
      var i, j :| 0 <= i < j < |rows| && rows[i].nonce == rows[j].nonce;
      assert Nonces(rows)[i] == Nonces(rows)[j];
    }
  }

  /** How a list of valid rows is judged; what is accepted is those rows, ready to be stored. */
  lemma {:induction false} ValidateDecides(check: Protocol, records: seq<Row>, rows: seq<Row>)
    requires |records| == |rows| && forall i | 0 <= i < |records| :: ValidateRow(check, records[i]) == Ok(rows[i])
    ensures var r := ValidateList(check, records);
            if |records| > 128 then r == Err(TooMany)
            else if SharedCapture(rows) then r == Err(DuplicateCapture)
            else if SharedNonce(rows) then r == Err(Conflict)
            else if |Rendered(rows)| > 1048576 then r == Err(TooLarge)
            else r.Ok? && multiset(r.value) == multiset(rows) && (Normalizing(check) ==> Stored(check, r.value))
  {
    assert ValidateRows(check, records).Ok? && ValidateRows(check, records).value == rows;
    RepeatsShared(rows);
    if |records| <= MAX_ROWS && !SharedCapture(rows) && !SharedNonce(rows) {
      SortedChecked(rows);
      if Normalizing(check) && CheckedList(rows).Ok? {
        ValidPermutes(check, records, rows, CheckedList(rows).value);
      }
    }
  }

  lemma {:induction false} ValidPermutes(check: Protocol, records: seq<Row>, rows: seq<Row>, sorted: seq<Row>)
    requires Normalizing(check) && multiset(sorted) == multiset(rows)
    requires |records| == |rows| && forall i | 0 <= i < |records| :: ValidateRow(check, records[i]) == Ok(rows[i])
    ensures forall i | 0 <= i < |sorted| :: ValidateRow(check, sorted[i]) == Ok(sorted[i])
  {
    forall i | 0 <= i < |sorted| ensures ValidateRow(check, sorted[i]) == Ok(sorted[i]) {
      assert sorted[i] in multiset(rows);
      var k :| 0 <= k < |rows| && rows[k] == sorted[i];
      assert check(check(records[k]).value) == check(records[k]);
    }
  }

  lemma {:induction false} NoncesTail(rows: seq<Row>)
    requires UniqueNonces(rows) && rows != []
    ensures UniqueNonces(rows[1..])
    ensures forall x | x in rows[1..] :: x.nonce != rows[0].nonce
  {
    var nonces := Nonces(rows);
    forall i, j | 0 <= i < j < |rows| - 1 ensures Nonces(rows[1..])[i] != Nonces(rows[1..])[j] {
      assert nonces[i + 1] != nonces[j + 1];
    }
    forall x | x in rows[1..] ensures x.nonce != rows[0].nonce {
      var i :| 0 <= i < |rows| - 1 && rows[1..][i] == x;
      assert nonces[0] != nonces[i + 1];
    }
  }

  lemma {:induction false} IdsTail(rows: seq<Row>)
    requires UniqueIds(rows) && rows != []
    ensures UniqueIds(rows[1..])
    ensures forall x | x in rows[1..] :: x.captureId != rows[0].captureId
  {
    var ids := Ids(rows);
    forall i, j | 0 <= i < j < |rows| - 1 ensures Ids(rows[1..])[i] != Ids(rows[1..])[j] {
      assert ids[i + 1] != ids[j + 1];
    }
    forall x | x in rows[1..] ensures x.captureId != rows[0].captureId {
      var i :| 0 <= i < |rows| - 1 && rows[1..][i] == x;
      assert ids[0] != ids[i + 1];
    }
  }

  lemma {:induction false} FindMeans(rows: seq<Row>, nonce: string)
    requires UniqueNonces(rows)
    ensures Find(rows, nonce).None? <==> forall x | x in rows :: x.nonce != nonce
    ensures forall x | x in rows && x.nonce == nonce :: Find(rows, nonce) == Some(x)
  {
    if rows != [] {
      NoncesTail(rows);
      FindMeans(rows[1..], nonce);
      assert forall x :: x in rows <==> x == rows[0] || x in rows[1..];
    }
  }

  lemma {:induction false} FindCaptureMeans(rows: seq<Row>, captureId: string)
    requires UniqueIds(rows)
    ensures FindCapture(rows, captureId).None? <==> forall x | x in rows :: x.captureId != captureId
    ensures forall x | x in rows && x.captureId == captureId :: FindCapture(rows, captureId) == Some(x)
  {
    if rows != [] {
      IdsTail(rows);
      FindCaptureMeans(rows[1..], captureId);
      assert forall x :: x in rows <==> x == rows[0] || x in rows[1..];
    }
  }

  ghost function Matching(rows: seq<Row>, captureId: string): seq<Row> {
    if rows == [] then []
    else if rows[0].captureId == captureId then [rows[0]] + Matching(rows[1..], captureId)
    else Matching(rows[1..], captureId)
  }

  lemma {:induction false} WithoutSplits(rows: seq<Row>, captureId: string)
    ensures multiset(rows) == multiset(Without(rows, captureId)) + multiset(Matching(rows, captureId))
  {
    if rows != [] {
      assert rows == [rows[0]] + rows[1..];
      WithoutSplits(rows[1..], captureId);
    }
  }

  lemma {:induction false} WithoutUnique(rows: seq<Row>, captureId: string)
    requires UniqueNonces(rows) && UniqueIds(rows)
    ensures UniqueNonces(Without(rows, captureId)) && UniqueIds(Without(rows, captureId))
  {
    WithoutSplits(rows, captureId);
    UniqueNoncesPart(rows, Without(rows, captureId), Matching(rows, captureId));
    PartUniqueIds(rows, Without(rows, captureId), Matching(rows, captureId));
  }

  lemma {:induction false} AppendUnique(rows: seq<Row>, x: Row)
    requires UniqueNonces(rows) && UniqueIds(rows)
    requires forall y | y in rows :: y.nonce != x.nonce && y.captureId != x.captureId
    ensures UniqueNonces(rows + [x]) && UniqueIds(rows + [x])
  {
  }

  lemma {:induction false} OthersAppend(rows: seq<Row>, x: Row)
    requires x !in rows
    ensures Others(rows + [x], x) == rows
  {
    if rows == [] {
      assert rows + [x] == [x];
    } else {
      assert (rows + [x])[1..] == rows[1..] + [x];
      OthersAppend(rows[1..], x);
    }
  }

  /** The rows kept beside a new row: everything but its own Capture's row, less the oldest that do not fit. */
  function KeptBeside(rows: seq<Row>, incoming: Row): seq<Row> {
    Survivors(SortByAge(Without(rows, incoming.captureId)), incoming)
  }

  lemma {:induction false} SurvivorsFit(byAge: seq<Row>, retained: Row)
    requires |retained.body| <= MAX_ROW_BYTES
    ensures Fits([retained] + Survivors(byAge, retained))
    decreases |byAge|
  {
    if byAge == [] {
      assert Commas([retained]) == |retained.body| + 1;
      assert [retained] + byAge == [retained];
    } else if !Fits([retained] + byAge) {
      SurvivorsFit(byAge[1..], retained);
    }
  }

  lemma {:induction false} PartUniqueIds(all: seq<Row>, part: seq<Row>, rest: seq<Row>)
    requires UniqueIds(all) && multiset(all) == multiset(part) + multiset(rest)
    ensures UniqueIds(part)
  {
    assert multiset(part + rest) == multiset(all);
    UniqueIdsPermute(all, part + rest);
    assert Ids(part + rest)[..|part|] == Ids(part);
  }

  /** The eviction step of an upsert: it cannot refuse, the new row stays, and the others that stay are
      exactly the youngest that fit beside it. */
  lemma {:induction false} EvictAppended(others: seq<Row>, incoming: Row)
    requires UniqueNonces(others + [incoming]) && UniqueIds(others + [incoming])
    requires |incoming.body| <= MAX_ROW_BYTES
    ensures var r := Evicted(others + [incoming], incoming);
            && r.Ok?
            && multiset(r.value) == multiset([incoming] + Survivors(SortByAge(others), incoming))
            && StrictlySorted(IdLess, r.value) && UniqueNonces(r.value) && Fits(r.value)
  {
    var rows := others + [incoming];
    assert incoming !in others by {
      forall i | 0 <= i < |others| ensures others[i] != incoming {
        assert Nonces(rows)[i] != Nonces(rows)[|others|];
      }
    }
    OthersAppend(others, incoming);
    EvictedMeans(rows, incoming);
    SurvivorsFit(SortByAge(others), incoming);
    var r, kept := Evicted(rows, incoming).value, [incoming] + Survivors(SortByAge(others), incoming);
    FitsPermutes(r, kept);
    var gone := SurvivorsLeaveOut(SortByAge(others), incoming);
    AddUp(multiset(rows), multiset(others), incoming, multiset(gone),
          multiset(Survivors(SortByAge(others), incoming)), multiset(r));
    PartStorable(rows, r, gone);
  }

  lemma {:induction false} AddUp<T>(all: multiset<T>, others: multiset<T>, x: T, gone: multiset<T>, left: multiset<T>,
      kept: multiset<T>)
    requires all == others + multiset{x} && others == gone + left && kept == multiset{x} + left
    ensures all == kept + gone
  {
  }

  lemma {:induction false} SurvivorsLeaveOut(byAge: seq<Row>, incoming: Row) returns (gone: seq<Row>)
    ensures multiset(byAge) == multiset(gone) + multiset(Survivors(byAge, incoming))
  {
    var k :| 0 <= k <= |byAge| && Survivors(byAge, incoming) == byAge[k..];
    gone := byAge[..k];
    assert byAge == gone + byAge[k..];
  }

  lemma {:induction false} PartStorable(rows: seq<Row>, r: seq<Row>, gone: seq<Row>)
    requires UniqueNonces(rows) && UniqueIds(rows) && Sorted(IdLess, r)
    requires multiset(rows) == multiset(r) + multiset(gone)
    ensures StrictlySorted(IdLess, r) && UniqueNonces(r)
  {
    UniqueNoncesPart(rows, r, gone);
    PartUniqueIds(rows, r, gone);
    SortedUniqueIsStrict(r);
  }

  ghost predicate NonceTaken(rows: seq<Row>, incoming: Row) {
    exists x :: x in rows && x.nonce == incoming.nonce
  }

  ghost predicate NewerHeld(rows: seq<Row>, incoming: Row) {
    exists x :: x in rows && x.captureId == incoming.captureId && InstantLess(incoming.acceptedAt, x.acceptedAt)
  }

  /** The list an upsert that is not refused returns. */
  ghost predicate PlacedWell(rows: seq<Row>, incoming: Row, r: Result<seq<Row>, Code>) {
    && r.Ok? && multiset(r.value) == multiset([incoming] + KeptBeside(rows, incoming))
    && StrictlySorted(IdLess, r.value) && UniqueNonces(r.value) && Fits(r.value)
  }

  lemma {:induction false} PlacedNew(rows: seq<Row>, incoming: Row)
    requires UniqueIds(rows) && UniqueNonces(rows) && |incoming.body| <= MAX_ROW_BYTES
    requires !NonceTaken(rows, incoming)
    ensures PlacedWell(rows, incoming, Evicted(Without(rows, incoming.captureId) + [incoming], incoming))
  {
    WithoutUnique(rows, incoming.captureId);
    AppendUnique(Without(rows, incoming.captureId), incoming);
    EvictAppended(Without(rows, incoming.captureId), incoming);
  }

  lemma {:induction false} PlacedDecides(rows: seq<Row>, incoming: Row)
    requires UniqueIds(rows) && UniqueNonces(rows) && |incoming.body| <= MAX_ROW_BYTES
    ensures var r := Placed(rows, incoming);
            if incoming in rows then r == Ok(rows)
            else if NonceTaken(rows, incoming) then r == Err(Conflict)
            else if NewerHeld(rows, incoming) then r == Err(Stale)
            else PlacedWell(rows, incoming, r)
  {
    FindMeans(rows, incoming.nonce);
    FindCaptureMeans(rows, incoming.captureId);
    if !NonceTaken(rows, incoming) {
      PlacedNew(rows, incoming);
    }
  }

  /** Exactly when an upsert is refused, and what it returns otherwise. */
  lemma {:induction false} UpsertDecides(check: Protocol, rows: seq<Row>, record: Row)
    requires Stored(check, rows)
    ensures var r := Upserted(check, rows, record);
            match check(record)
            case Err(e) => r == Err(e)
            case Ok(incoming) =>
              if |incoming.body| > 40960 then r == Err(RowTooLarge)
              else if incoming in rows then r == Ok(rows)
              else if NonceTaken(rows, incoming) then r == Err(Conflict)
              else if NewerHeld(rows, incoming) then r == Err(Stale)
              else PlacedWell(rows, incoming, r)
  {
    StoredValidates(check, rows);
    StrictIdsUnique(rows);
    if ValidateRow(check, record).Ok? {
      PlacedDecides(rows, ValidateRow(check, record).value);
    }
  }

  lemma {:induction false} LeftOutIsOlder(byAge: seq<Row>, k: nat, x: Row, y: Row)
    requires Sorted(Older, byAge) && UniqueNonces(byAge) && k <= |byAge| && x in byAge[..k] && y in byAge[k..]
    ensures !InstantLess(y.acceptedAt, x.acceptedAt)
    ensures x.acceptedAt == y.acceptedAt ==> TextLess(x.nonce, y.nonce)
  {
    TextLessTotal();
    var i :| 0 <= i < k && byAge[..k][i] == x;
    var j :| 0 <= j < |byAge| - k && byAge[k..][j] == y;
    assert !Older(byAge[k + j], byAge[i]);
    assert Nonces(byAge)[i] != Nonces(byAge)[k + j];
  }

  lemma {:induction false} EitherSide<T>(all: seq<T>, k: nat, r: seq<T>, added: T, x: T, y: T)
    requires k <= |all| && multiset(r) == multiset([added] + all[k..])
    requires x in all && x !in r && y in r && y != added
    ensures x in all[..k] && y in all[k..]
  {
    assert all == all[..k] + all[k..];
    assert y in multiset(r) && x !in multiset(r);
    assert y in multiset([added] + all[k..]) && x !in multiset([added] + all[k..]);
    assert forall z :: z in all[k..] ==> z in [added] + all[k..];
  }

  /** The row was held, is not the incoming Capture's own, and is gone. */
  predicate Evictee(rows: seq<Row>, incoming: Row, r: seq<Row>, x: Row) {
    x in rows && x.captureId != incoming.captureId && x !in r
  }

  lemma {:induction false} EvicteeIsOlder(rows: seq<Row>, incoming: Row, r: seq<Row>, x: Row, y: Row)
    requires UniqueIds(rows) && UniqueNonces(rows) && multiset(r) == multiset([incoming] + KeptBeside(rows, incoming))
    requires Evictee(rows, incoming, r, x) && y in r && y != incoming
    ensures !InstantLess(y.acceptedAt, x.acceptedAt)
    ensures x.acceptedAt == y.acceptedAt ==> TextLess(x.nonce, y.nonce)
  {
    var others := Without(rows, incoming.captureId);
    var byAge, kept := SortByAge(others), KeptBeside(rows, incoming);
    WithoutUnique(rows, incoming.captureId);
    UniqueNoncesPermute(others, byAge);
    assert x in multiset(byAge);
    var k :| 0 <= k <= |byAge| && kept == byAge[k..];
    EitherSide(byAge, k, r, incoming, x, y);
    LeftOutIsOlder(byAge, k, x, y);
  }

  /** What an accepted upsert gives up, by the fields of the rows: no row that goes was accepted later than
      one that stays, and of rows accepted at one instant the smaller nonce goes first. */
  lemma {:induction false} UpsertDropsOldest(check: Protocol, rows: seq<Row>, record: Row, x: Row, y: Row)
    requires Stored(check, rows) && Upserted(check, rows, record).Ok? && check(record).Ok?
    requires var incoming, r := check(record).value, Upserted(check, rows, record).value;
             Evictee(rows, incoming, r, x) && y in r && y != incoming
    ensures x.acceptedAt.utcSecond <= y.acceptedAt.utcSecond
    ensures x.acceptedAt.utcSecond == y.acceptedAt.utcSecond ==> !TextLess(y.acceptedAt.fraction, x.acceptedAt.fraction)
    ensures x.acceptedAt == y.acceptedAt ==> TextLess(x.nonce, y.nonce)
  {
    UpsertDecides(check, rows, record);
    StrictIdsUnique(rows);
    EvicteeIsOlder(rows, check(record).value, Upserted(check, rows, record).value, x, y);
  }

  lemma {:induction false} KeptMembers(rows: seq<Row>, incoming: Row, r: seq<Row>)
    requires multiset(r) == multiset([incoming] + KeptBeside(rows, incoming))
    ensures incoming in r && forall x | x in r :: x == incoming || x in rows
  {
    var byAge := SortByAge(Without(rows, incoming.captureId));
    var kept := [incoming] + KeptBeside(rows, incoming);
    assert incoming in multiset(kept);
    assert incoming in multiset(r);
    forall x | x in r ensures x == incoming || x in rows {
      assert x in multiset(r);
      assert x in multiset(kept);
      if x != incoming {
        assert x in multiset(byAge);
      }
    }
  }

  /** An accepted upsert leaves a storable list that holds the new row; all its other rows were held before. */
  lemma {:induction false} UpsertKeepsStored(check: Protocol, rows: seq<Row>, record: Row)
    requires Normalizing(check) && Stored(check, rows) && Upserted(check, rows, record).Ok?
    ensures var r := Upserted(check, rows, record).value;
            && Stored(check, r)
            && ValidateRow(check, record).Ok? && ValidateRow(check, record).value in r
            && forall x | x in r :: x == ValidateRow(check, record).value || x in rows
  {
    UpsertDecides(check, rows, record);
    var incoming := ValidateRow(check, record).value;
    var r := Upserted(check, rows, record).value;
    if incoming !in rows {
      KeptMembers(rows, incoming, r);
    }
    forall i | 0 <= i < |r| ensures ValidateRow(check, r[i]) == Ok(r[i]) {
      assert r[i] == incoming || r[i] in rows;
    }
  }

  /** Repeating an accepted upsert changes nothing. */
  lemma {:induction false} UpsertTwice(check: Protocol, rows: seq<Row>, record: Row)
    requires Normalizing(check) && Stored(check, rows) && Upserted(check, rows, record).Ok?
    ensures var r := Upserted(check, rows, record).value; Upserted(check, r, record) == Ok(r)
  {
    UpsertKeepsStored(check, rows, record);
    UpsertDecides(check, Upserted(check, rows, record).value, record);
  }

  /** The list after a run of upserts; a refused one leaves it alone. */
  function AfterRun(check: Protocol, records: seq<Row>): seq<Row> {
    if records == [] then []
    else
      var before := AfterRun(check, records[..|records| - 1]);
      match Upserted(check, before, records[|records| - 1])
      case Ok(rows) => rows
      case Err(_) => before
  }

  lemma {:induction false} EveryRunIsStored(check: Protocol, records: seq<Row>)
    requires Normalizing(check)
    ensures Stored(check, AfterRun(check, records))
  {
    if records != [] {
      var front := records[..|records| - 1];
      EveryRunIsStored(check, front);
      if Upserted(check, AfterRun(check, front), records[|records| - 1]).Ok? {
        UpsertKeepsStored(check, AfterRun(check, front), records[|records| - 1]);
      }
    }
  }
}
