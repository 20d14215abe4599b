/** Reading the output of `git cat-file --batch`: one header line, blob and newline per requested object. */
module GitBatch {
  import opened Wrappers
  import opened Orders
  import opened Text

  /** A byte string, one character per byte. */
  type Bytes = string

  /** What was asked for. */
  datatype Entry = Entry(sha: string, path: string)

  datatype Blob = Blob(path: string, bytes: Bytes)

  /** The module's own error, or the ValueError of `int` on a bad size. */
  datatype Refusal = Truncated | HeaderMismatch | BadSize | ShortRead | TrailingData

  /** One object at the front of the data: its bytes, and how much of the data it took. */
  function ParseOne(data: Bytes, sha: string): (r: Result<(Bytes, nat), Refusal>)
    ensures r.Ok? ==> 0 < r.value.1 <= |data|
  {
    if '\n' !in data then Err(Truncated)
    else
      var newline := IndexOf(data, '\n');
      var header := Split(data[..newline], ' ');
      if |header| != 3 || header[0] != sha || header[1] != "blob" then Err(HeaderMismatch)
      else
        match ParseInt(header[2])
        case None => Err(BadSize)
        case Some(size) =>
          var start := newline + 1;
          if size < 0 || start + size >= |data| || data[start + size] != '\n' then Err(ShortRead)
          else Ok((data[start..start + size], start + size + 1))
  }

  /** Any reader of one object that uses up some of the data it is given. */
  type Reader = (Bytes, string) -> Result<(Bytes, nat), Refusal>

  ghost predicate Progresses(read: Reader) {
    forall data, sha :: read(data, sha).Ok? ==> 0 < read(data, sha).value.1 <= |data|
  }

  /** The objects read one after the other from `offset` on, and where reading stopped. */
  function ReadAll(read: Reader, data: Bytes, offset: nat, entries: seq<Entry>): (r: Result<(seq<Blob>, nat), Refusal>)
    requires offset <= |data| && Progresses(read)
    ensures r.Ok? ==> offset <= r.value.1 <= |data| && |r.value.0| == |entries|
    decreases |entries|
  {
    if entries == [] then Ok(([], offset))
    else
      match read(data[offset..], entries[0].sha)
      case Err(e) => Err(e)
      case Ok((bytes, used)) =>
        match ReadAll(read, data, offset + used, entries[1..])
        case Err(e) => Err(e)
        case Ok((rest, end)) => Ok(([Blob(entries[0].path, bytes)] + rest, end))
  }

  /** All objects in the order asked, and nothing left over. */
  function ReadExactly(read: Reader, data: Bytes, entries: seq<Entry>): Result<seq<Blob>, Refusal>
    requires Progresses(read)
  {
    match ReadAll(read, data, 0, entries)
    case Err(e) => Err(e)
    case Ok((blobs, end)) => if end != |data| then Err(TrailingData) else Ok(blobs)
  }

  lemma {:induction false} ParseProgresses()
    ensures Progresses(ParseOne)
  {
  }

  function Parsed(data: Bytes, entries: seq<Entry>): Result<seq<Blob>, Refusal> {
    ParseProgresses();
    ReadExactly(ParseOne, data, entries)
  }

  /** The loop over the requested objects. */
  method ReadBatch(read: Reader, data: Bytes, entries: seq<Entry>) returns (r: Result<seq<Blob>, Refusal>)
    requires Progresses(read)
    ensures r == ReadExactly(read, data, entries)
  {
    var offset := 0;
    var blobs: seq<Blob> := [];
    assert entries[0..] == entries;
    ContinueNothing(ReadAll(read, data, 0, entries));
    for i := 0 to |entries|
      invariant 0 <= offset <= |data|
      invariant Continued(blobs, ReadAll(read, data, offset, entries[i..])) == ReadAll(read, data, 0, entries)
    {
      ContinueStep(read, data, offset, entries, i, blobs);
      var one := read(data[offset..], entries[i].sha);
      if one.Err? {
        return Err(one.error);
      }
      blobs := blobs + [Blob(entries[i].path, one.value.0)];
      offset := offset + one.value.1;
    }
    assert blobs + [] == blobs;
    if offset != |data| {
      return Err(TrailingData);
    }
    return Ok(blobs);
  }

  method ParseBatch(data: Bytes, entries: seq<Entry>) returns (r: Result<seq<Blob>, Refusal>)
    ensures r == Parsed(data, entries)
  {
    ParseProgresses();
    r := ReadBatch(ParseOne, data, entries);
  }

  function Continued(front: seq<Blob>, r: Result<(seq<Blob>, nat), Refusal>): Result<(seq<Blob>, nat), Refusal> {
    match r case Err(e) => Err(e) case Ok((rest, end)) => Ok((front + rest, end))
  }

  lemma {:induction false} ContinueNothing(r: Result<(seq<Blob>, nat), Refusal>)
    ensures Continued([], r) == r
  {
    assert r.Ok? ==> [] + r.value.0 == r.value.0;
  }

  lemma {:induction false} ContinueStep(read: Reader, data: Bytes, offset: nat, entries: seq<Entry>, i: nat,
      blobs: seq<Blob>)
    requires offset <= |data| && i < |entries| && Progresses(read)
    ensures var one := read(data[offset..], entries[i].sha);
            Continued(blobs, ReadAll(read, data, offset, entries[i..])) ==
            if one.Err? then Err(one.error)
            else Continued(blobs + [Blob(entries[i].path, one.value.0)],
                           ReadAll(read, data, offset + one.value.1, entries[i + 1..]))
  {
    assert entries[i..][1..] == entries[i + 1..];
    var one := read(data[offset..], entries[i].sha);
    if one.Ok? {
      var rest := ReadAll(read, data, offset + one.value.1, entries[i + 1..]);
      var blob := Blob(entries[i].path, one.value.0);
      assert rest.Ok? ==> blobs + ([blob] + rest.value.0) == blobs + [blob] + rest.value.0;
    }
  }

  // ---- what is accepted ----

  /** A requested object id is one word on one line. */
  predicate OneWord(sha: string) {
    ' ' !in sha && '\n' !in sha
  }

  /** A size field that reads as this length; git writes it in plain decimal. */
  predicate ReadsAs(size: string, length: nat) {
    OneWord(size) && ParseInt(size) == Some(length)
  }

  function Record(sha: string, size: string, bytes: Bytes): Bytes {
    sha + " " + "blob" + " " + size + "\n" + bytes + "\n"
  }

  function Stream(entries: seq<Entry>, sizes: seq<string>, blobs: seq<Blob>): Bytes
    requires |sizes| == |blobs| == |entries|
  {
    if entries == [] then ""
    else Record(entries[0].sha, sizes[0], blobs[0].bytes) + Stream(entries[1..], sizes[1..], blobs[1..])
  }

  ghost predicate Spells(entries: seq<Entry>, sizes: seq<string>, blobs: seq<Blob>) {
    && |sizes| == |blobs| == |entries|
    && forall i | 0 <= i < |entries| :: ReadsAs(sizes[i], |blobs[i].bytes|) && blobs[i].path == entries[i].path
  }

  lemma {:induction false} ThreeWords(a: string, b: string, c: string)
    requires ' ' !in a && ' ' !in b && ' ' !in c
    ensures Split(a + " " + b + " " + c, ' ') == [a, b, c]
  {
    assert a + " " + b + " " + c == a + " " + (b + " " + c);
    SplitFirst(b, c, ' ');
    SplitFirst(a, b + " " + c, ' ');
  }

  lemma {:induction false} HeaderLine(line: string, after: string)
    requires '\n' !in line
    ensures '\n' in line + "\n" + after && IndexOf(line + "\n" + after, '\n') == |line|
    ensures (line + "\n" + after)[..|line|] == line && (line + "\n" + after)[|line| + 1..] == after
  {
    var s := line + "\n" + after;
    assert s[..|line|] == line;
    IndexOfUnique(s, '\n', |line|);
  }

  lemma {:induction false} AfterHeader(line: string, bytes: Bytes, tail: Bytes)
    ensures var data := line + "\n" + (bytes + "\n" + tail); var start := |line| + 1;
            && start + |bytes| < |data| && data[start + |bytes|] == '\n' && data[start..start + |bytes|] == bytes
  {
  }

  lemma {:induction false} ParseLine(data: Bytes, line: string, sha: string, size: string, bytes: Bytes)
    requires '\n' in data && IndexOf(data, '\n') == |line| && data[..|line|] == line
    requires Split(line, ' ') == [sha, "blob", size] && ParseInt(size) == Some(|bytes|)
    requires |line| + 1 + |bytes| < |data| && data[|line| + 1 + |bytes|] == '\n'
    requires data[|line| + 1..|line| + 1 + |bytes|] == bytes
    ensures ParseOne(data, sha) == Ok((bytes, |line| + 1 + |bytes| + 1))
  {
  }

  /** A record is its header line, a newline, the bytes and a newline. */
  lemma {:induction false} RecordIs(sha: string, size: string, bytes: Bytes, line: string)
    requires line == sha + " " + "blob" + " " + size
    ensures Record(sha, size, bytes) == line + "\n" + bytes + "\n"
  {
  }

  lemma {:induction false} ParseShaped(data: Bytes, record: Bytes, line: string, sha: string, size: string,
      bytes: Bytes, tail: Bytes)
    requires '\n' !in line && Split(line, ' ') == [sha, "blob", size] && ParseInt(size) == Some(|bytes|)
    requires record == line + "\n" + bytes + "\n" && data == record + tail
    ensures ParseOne(data, sha) == Ok((bytes, |record|))
  {
    RecordShape(line, bytes, tail);
    ParseHeaded(data, line, sha, size, bytes, tail);
  }

  lemma {:induction false} ParseHeaded(data: Bytes, line: string, sha: string, size: string, bytes: Bytes, tail: Bytes)
    requires '\n' !in line && Split(line, ' ') == [sha, "blob", size] && ParseInt(size) == Some(|bytes|)
    requires data == line + "\n" + (bytes + "\n" + tail)
    ensures ParseOne(data, sha) == Ok((bytes, |line| + 1 + |bytes| + 1))
  {
    HeaderLine(line, bytes + "\n" + tail);
    AfterHeader(line, bytes, tail);
    ParseLine(data, line, sha, size, bytes);
  }

  lemma {:induction false} RecordShape(line: string, bytes: Bytes, tail: Bytes)
    ensures (line + "\n" + bytes + "\n") + tail == line + "\n" + (bytes + "\n" + tail)
  {
  }

  lemma {:induction false} RecordLine(sha: string, size: string)
    requires OneWord(sha) && OneWord(size)
    ensures var line := sha + " " + "blob" + " " + size;
            '\n' !in line && Split(line, ' ') == [sha, "blob", size]
  {
    ThreeWords(sha, "blob", size);
  }

  /** A well-formed record is read back as it was written, whatever follows it. */
  lemma {:induction false} ParseRecord(sha: string, size: string, bytes: Bytes, tail: Bytes)
    requires OneWord(sha) && ReadsAs(size, |bytes|)
    ensures ParseOne(Record(sha, size, bytes) + tail, sha) == Ok((bytes, |Record(sha, size, bytes)|))
  {
    var line := sha + " " + "blob" + " " + size;
    RecordLine(sha, size);
    RecordIs(sha, size, bytes, line);
    ParseShaped(Record(sha, size, bytes) + tail, Record(sha, size, bytes), line, sha, size, bytes, tail);
  }

  /** Every accepted object is spelled by such a record. */
  lemma {:induction false} RecordParsed(data: Bytes, sha: string) returns (size: string)
    requires ParseOne(data, sha).Ok?
    ensures var (bytes, used) := ParseOne(data, sha).value;
            ReadsAs(size, |bytes|) && data[..used] == Record(sha, size, bytes)
  {
    var (bytes, used) := ParseOne(data, sha).value;
    var newline := IndexOf(data, '\n');
    var line := data[..newline];
    var header := Split(line, ' ');
    size := header[2];
    HeaderWords(line, sha, size);
    assert data[..used] == line + "\n" + bytes + "\n";
  }

  lemma {:induction false} HeaderWords(line: string, sha: string, size: string)
    requires '\n' !in line && Split(line, ' ') == [sha, "blob", size]
    ensures OneWord(size) && line == sha + " " + "blob" + " " + size
  {
    JoinSplit(line, ' ');
    assert Joined([size], ' ') == size;
    assert Joined(["blob", size], ' ') == "blob" + " " + size by { assert ["blob", size][1..] == [size]; }
    assert Joined([sha, "blob", size], ' ') == sha + " " + ("blob" + " " + size) by {
      assert [sha, "blob", size][1..] == ["blob", size];
    }
    assert line == sha + " " + ("blob" + " " + size);
    assert size == line[|sha| + 6..];
  }

  /** The header line names the object, its type and this size field. */
  predicate HeaderFor(line: string, sha: string, size: string) {
    ' ' !in size && line == sha + " " + "blob" + " " + size
  }

  lemma {:induction false} HeaderSplit(line: string, sha: string, size: string)
    requires ' ' !in sha && ' ' !in size
    ensures Split(line, ' ') == [sha, "blob", size] <==> HeaderFor(line, sha, size)
  {
    ThreeWords(sha, "blob", size);
    if Split(line, ' ') == [sha, "blob", size] {
      JoinSplit(line, ' ');
      JoinedThree(sha, "blob", size);
    }
  }

  lemma {:induction false} JoinedThree(a: string, b: string, c: string)
    ensures Joined([a, b, c], ' ') == a + " " + b + " " + c
  {
    JoinedStep(b, [c], ' ');
    JoinedStep(a, [b, c], ' ');
    assert [b] + [c] == [b, c] && [a] + [b, c] == [a, b, c];
    assert a + [' '] + (b + [' '] + c) == a + " " + b + " " + c;
  }

  /** A header line that is the object's is the only one that is not refused as a mismatch. */
  lemma {:induction false} HeaderDecides(data: Bytes, line: string, after: Bytes, sha: string)
    requires ' ' !in sha && '\n' !in line && data == line + "\n" + after
    ensures ParseOne(data, sha) == Err(HeaderMismatch) <==> forall size :: !HeaderFor(line, sha, size)
  {
    HeaderLine(line, after);
    var words := Split(line, ' ');
    forall size | HeaderFor(line, sha, size) ensures words == [sha, "blob", size] {
      HeaderSplit(line, sha, size);
    }
    if |words| == 3 && words[0] == sha && words[1] == "blob" {
      assert words == [sha, "blob", words[2]];
      HeaderSplit(line, sha, words[2]);
    }
  }

  lemma {:induction false} AfterLine(line: string, after: Bytes, n: nat)
    requires n < |after|
    ensures var data := line + "\n" + after;
            data[|line| + 1 + n] == after[n] && data[|line| + 1..|line| + 1 + n] == after[..n]
  {
  }

  /** What stands after a line of the data: whether that many bytes and a newline are there, and the bytes. */
  lemma {:induction false} AfterLineHolds(data: Bytes, line: string, after: Bytes, n: int)
    requires data == line + "\n" + after && n >= 0
    ensures var start := |line| + 1;
            && (start + n >= |data| || data[start + n] != '\n' <==> n >= |after| || after[n] != '\n')
            && (n < |after| ==> data[start..start + n] == after[..n])
  {
    if n < |after| {
      AfterLine(line, after, n);
    }
  }

  lemma {:induction false} SizeDecides(data: Bytes, sha: string, newline: nat, size: string)
    requires '\n' in data && newline == IndexOf(data, '\n') && Split(data[..newline], ' ') == [sha, "blob", size]
    ensures ParseOne(data, sha) ==
            match ParseInt(size)
            case None => Err(BadSize)
            case Some(n) =>
              if n < 0 || newline + 1 + n >= |data| || data[newline + 1 + n] != '\n' then Err(ShortRead)
              else Ok((data[newline + 1..newline + 1 + n], newline + 1 + n + 1))
  {
  }

  /** What the object is, given the size its header states. */
  function Held(after: Bytes, start: nat, n: int): Result<(Bytes, nat), Refusal> {
    if n < 0 || n >= |after| || after[n] != '\n' then Err(ShortRead) else Ok((after[..n], start + n + 1))
  }

  lemma {:induction false} HeldAfter(data: Bytes, line: string, after: Bytes, n: int)
    requires data == line + "\n" + after
    ensures Held(after, |line| + 1, n) ==
            if n < 0 || |line| + 1 + n >= |data| || data[|line| + 1 + n] != '\n' then Err(ShortRead)
            else Ok((data[|line| + 1..|line| + 1 + n], |line| + 1 + n + 1))
  {
    if n >= 0 {
      AfterLineHolds(data, line, after, n);
    }
  }

  lemma {:induction false} HeldBySize(data: Bytes, line: string, after: Bytes, sha: string, size: string)
    requires data == line + "\n" + after && '\n' in data && IndexOf(data, '\n') == |line|
    requires Split(data[..|line|], ' ') == [sha, "blob", size]
    ensures ParseOne(data, sha) ==
            match ParseInt(size) case None => Err(BadSize) case Some(n) => Held(after, |line| + 1, n)
  {
    SizeDecides(data, sha, |line|, size);
    if ParseInt(size).Some? {
      HeldAfter(data, line, after, ParseInt(size).value);
    }
  }

  /** Behind its header an object is refused for a size that is no number, or for data that does not hold that
      many bytes and a newline after the line; those bytes are the object. */
  lemma {:induction false} BodyDecides(data: Bytes, line: string, after: Bytes, sha: string, size: string)
    requires ' ' !in sha && '\n' !in line && data == line + "\n" + after && HeaderFor(line, sha, size)
    ensures ParseOne(data, sha) ==
            match ParseInt(size) case None => Err(BadSize) case Some(n) => Held(after, |line| + 1, n)
  {
    HeaderLine(line, after);
    HeaderSplit(line, sha, size);
    HeldBySize(data, line, after, sha, size);
  }

  /** Without a line there is nothing to read. */
  lemma {:induction false} NoLineRefused(data: Bytes, sha: string)
    ensures ParseOne(data, sha) == Err(Truncated) <==> '\n' !in data
  {
  }

  /** The reader reads back every well-formed record, whatever follows it. */
  ghost predicate ReadsRecords(read: Reader) {
    forall sha, size, bytes, tail | OneWord(sha) && ReadsAs(size, |bytes|) ::
      read(Record(sha, size, bytes) + tail, sha) == Ok((bytes, |Record(sha, size, bytes)|))
  }

  /** The reader accepts nothing else. */
  ghost predicate OnlyRecords(read: Reader)
    requires Progresses(read)
  {
    forall data, sha | read(data, sha).Ok? ::
      exists size :: ReadsAs(size, |read(data, sha).value.0|) &&
                     data[..read(data, sha).value.1] == Record(sha, size, read(data, sha).value.0)
  }

  lemma {:induction false} ParseOneReadsRecords()
    ensures Progresses(ParseOne) && ReadsRecords(ParseOne) && OnlyRecords(ParseOne)
  {
    forall sha, size, bytes, tail | OneWord(sha) && ReadsAs(size, |bytes|)
      ensures ParseOne(Record(sha, size, bytes) + tail, sha) == Ok((bytes, |Record(sha, size, bytes)|))
    {
      ParseRecord(sha, size, bytes, tail);
    }
    forall data, sha | ParseOne(data, sha).Ok?
      ensures exists size :: ReadsAs(size, |ParseOne(data, sha).value.0|) &&
                             data[..ParseOne(data, sha).value.1] == Record(sha, size, ParseOne(data, sha).value.0)
    {
      var size := RecordParsed(data, sha);
    }
  }

  lemma {:induction false} ReadOneMore(read: Reader, data: Bytes, offset: nat, entries: seq<Entry>, blobs: seq<Blob>,
      used: nat, end: nat)
    requires Progresses(read) && offset + used <= |data|
    requires entries != [] && blobs != [] && blobs[0].path == entries[0].path
    requires read(data[offset..], entries[0].sha) == Ok((blobs[0].bytes, used))
    requires ReadAll(read, data, offset + used, entries[1..]) == Ok((blobs[1..], end))
    ensures ReadAll(read, data, offset, entries) == Ok((blobs, end))
  {
    assert blobs == [blobs[0]] + blobs[1..];
  }

  lemma {:induction false} StreamHead(data: Bytes, offset: nat, record: Bytes, rest: Bytes, tail: Bytes)
    requires offset <= |data| && data[offset..] == (record + rest) + tail
    ensures offset + |record| <= |data|
    ensures data[offset..] == record + (rest + tail) && data[offset + |record|..] == rest + tail
  {
    assert (record + rest) + tail == record + (rest + tail);
    DropFront(data, offset, record, rest + tail);
  }

  /** The reader reads this record for this entry, whatever follows. */
  ghost predicate ReadsOne(read: Reader, record: Bytes, sha: string, bytes: Bytes) {
    forall tail :: read(record + tail, sha) == Ok((bytes, |record|))
  }

  lemma {:induction false} ReadRecords(read: Reader, data: Bytes, offset: nat, entries: seq<Entry>, records: seq<Bytes>,
      blobs: seq<Blob>, tail: Bytes)
    requires Progresses(read) && offset <= |data| && |records| == |blobs| == |entries|
    requires forall i | 0 <= i < |entries| ::
               ReadsOne(read, records[i], entries[i].sha, blobs[i].bytes) && blobs[i].path == entries[i].path
    requires data[offset..] == Flat(records) + tail
    ensures ReadAll(read, data, offset, entries) == Ok((blobs, offset + |Flat(records)|))
    decreases |entries|
  {
    if entries != [] {
      var record, rest := records[0], Flat(records[1..]);
      StreamHead(data, offset, record, rest, tail);
      assert ReadsOne(read, record, entries[0].sha, blobs[0].bytes);
      ReadRecords(read, data, offset + |record|, entries[1..], records[1..], blobs[1..], tail);
      ReadOneMore(read, data, offset, entries, blobs, |record|, offset + |record| + |rest|);
    }
  }

  function Records(entries: seq<Entry>, sizes: seq<string>, blobs: seq<Blob>): (r: seq<Bytes>)
    requires |sizes| == |blobs| == |entries|
    ensures |r| == |entries|
  {
    seq(|entries|, i requires 0 <= i < |entries| => Record(entries[i].sha, sizes[i], blobs[i].bytes))
  }

  lemma {:induction false} RecordsTail(entries: seq<Entry>, sizes: seq<string>, blobs: seq<Blob>)
    requires |sizes| == |blobs| == |entries| && entries != []
    ensures Records(entries, sizes, blobs)[1..] == Records(entries[1..], sizes[1..], blobs[1..])
  {
  }

  lemma {:induction false} StreamIsFlat(entries: seq<Entry>, sizes: seq<string>, blobs: seq<Blob>)
    requires |sizes| == |blobs| == |entries|
    ensures Stream(entries, sizes, blobs) == Flat(Records(entries, sizes, blobs))
  {
    if entries != [] {
      RecordsTail(entries, sizes, blobs);
      StreamIsFlat(entries[1..], sizes[1..], blobs[1..]);
    }
  }

  lemma {:induction false} ReadsSpelled(read: Reader, sha: string, size: string, bytes: Bytes)
    requires ReadsRecords(read) && OneWord(sha) && ReadsAs(size, |bytes|)
    ensures ReadsOne(read, Record(sha, size, bytes), sha, bytes)
  {
  }

  /** Reading never looks past what it accepts: whatever follows, the same objects end at the same place. */
  lemma {:induction false} ReadStream(read: Reader, data: Bytes, entries: seq<Entry>, sizes: seq<string>,
      blobs: seq<Blob>, tail: Bytes)
    requires Progresses(read) && ReadsRecords(read) && Spells(entries, sizes, blobs)
    requires forall i | 0 <= i < |entries| :: OneWord(entries[i].sha)
    requires data == Stream(entries, sizes, blobs) + tail
    ensures ReadAll(read, data, 0, entries) == Ok((blobs, |Stream(entries, sizes, blobs)|))
  {
    StreamIsFlat(entries, sizes, blobs);
    forall i | 0 <= i < |entries|
      ensures ReadsOne(read, Records(entries, sizes, blobs)[i], entries[i].sha, blobs[i].bytes)
    {
      ReadsSpelled(read, entries[i].sha, sizes[i], blobs[i].bytes);
    }
    assert data[0..] == data;
    ReadRecords(read, data, 0, entries, Records(entries, sizes, blobs), blobs, tail);
  }

  lemma {:induction false} DropFront(data: Bytes, offset: nat, front: Bytes, rest: Bytes)
    requires offset <= |data| && data[offset..] == front + rest
    ensures offset + |front| <= |data| && data[offset + |front|..] == rest
  {
    assert data[offset + |front|..] == data[offset..][|front|..];
  }

  lemma {:induction false} SpellsCons(entry: Entry, size: string, blob: Blob, entries: seq<Entry>, sizes: seq<string>,
      blobs: seq<Blob>)
    requires Spells(entries, sizes, blobs) && ReadsAs(size, |blob.bytes|) && blob.path == entry.path
    ensures Spells([entry] + entries, [size] + sizes, [blob] + blobs)
    ensures Stream([entry] + entries, [size] + sizes, [blob] + blobs) ==
            Record(entry.sha, size, blob.bytes) + Stream(entries, sizes, blobs)
  {
    assert ([entry] + entries)[1..] == entries && ([size] + sizes)[1..] == sizes && ([blob] + blobs)[1..] == blobs;
  }

  lemma {:induction false} StreamRead(read: Reader, data: Bytes, offset: nat, entries: seq<Entry>)
    returns (sizes: seq<string>)
    requires Progresses(read) && OnlyRecords(read)
    requires offset <= |data| && ReadAll(read, data, offset, entries).Ok?
    ensures var (blobs, end) := ReadAll(read, data, offset, entries).value;
            Spells(entries, sizes, blobs) && data[offset..end] == Stream(entries, sizes, blobs)
    decreases |entries|
  {
    if entries == [] {
      sizes := [];
    } else {
      var (bytes, used) := read(data[offset..], entries[0].sha).value;
      var size := OneRecord(read, data[offset..], entries[0].sha);
      var rest := StreamRead(read, data, offset + used, entries[1..]);
      var (later, end) := ReadAll(read, data, offset + used, entries[1..]).value;
      sizes := [size] + rest;
      SpellsCons(entries[0], size, Blob(entries[0].path, bytes), entries[1..], rest, later);
      assert entries == [entries[0]] + entries[1..];
      SliceSplit(data, offset, used, end);
    }
  }

  lemma {:induction false} OneRecord(read: Reader, data: Bytes, sha: string) returns (size: string)
    requires Progresses(read) && OnlyRecords(read) && read(data, sha).Ok?
    ensures ReadsAs(size, |read(data, sha).value.0|)
    ensures data[..read(data, sha).value.1] == Record(sha, size, read(data, sha).value.0)
  {
    size :| ReadsAs(size, |read(data, sha).value.0|) &&
            data[..read(data, sha).value.1] == Record(sha, size, read(data, sha).value.0);
  }

  lemma {:induction false} SliceSplit(data: Bytes, offset: nat, used: nat, end: nat)
    requires offset + used <= end <= |data|
    ensures data[offset..end] == data[offset..][..used] + data[offset + used..end]
  {
  }

  lemma {:induction false} ReadExactlyIffStream(read: Reader, data: Bytes, entries: seq<Entry>, blobs: seq<Blob>)
    requires Progresses(read) && ReadsRecords(read) && OnlyRecords(read)
    requires forall i | 0 <= i < |entries| :: OneWord(entries[i].sha)
    ensures ReadExactly(read, data, entries) == Ok(blobs) <==>
            exists sizes :: Spells(entries, sizes, blobs) && data == Stream(entries, sizes, blobs)
  {
    assert data[0..] == data;
    if ReadExactly(read, data, entries) == Ok(blobs) {
      var sizes := StreamRead(read, data, 0, entries);
      assert data[0..|data|] == data;
    }
    if exists sizes :: Spells(entries, sizes, blobs) && data == Stream(entries, sizes, blobs) {
      var sizes :| Spells(entries, sizes, blobs) && data == Stream(entries, sizes, blobs);
      assert data + "" == data;
      ReadStream(read, data, entries, sizes, blobs, "");
    }
  }

  /** A batch is accepted with these blobs exactly when it is their records in the order asked, each size
      field reading as its blob's length, and nothing else. */
  lemma {:induction false} ParsedIffStream(data: Bytes, entries: seq<Entry>, blobs: seq<Blob>)
    requires forall i | 0 <= i < |entries| :: OneWord(entries[i].sha)
    ensures Parsed(data, entries) == Ok(blobs) <==>
            exists sizes :: Spells(entries, sizes, blobs) && data == Stream(entries, sizes, blobs)
  {
    ParseOneReadsRecords();
    ReadExactlyIffStream(ParseOne, data, entries, blobs);
  }

  function PlainSizes(blobs: seq<Blob>): (sizes: seq<string>)
    ensures |sizes| == |blobs| && forall i | 0 <= i < |blobs| :: sizes[i] == Decimal(|blobs[i].bytes|)
  {
    seq(|blobs|, i requires 0 <= i < |blobs| => Decimal(|blobs[i].bytes|))
  }

  /** What git writes for any blobs, their sizes in plain decimal, is read back as those blobs in order. */
  lemma {:induction false} ReadsWhatGitWrites(entries: seq<Entry>, blobs: seq<Blob>)
    requires |blobs| == |entries| && forall i | 0 <= i < |entries| :: blobs[i].path == entries[i].path
    requires forall i | 0 <= i < |entries| :: OneWord(entries[i].sha)
    ensures Parsed(Stream(entries, PlainSizes(blobs), blobs), entries) == Ok(blobs)
  {
    var sizes := PlainSizes(blobs);
    forall i | 0 <= i < |entries| ensures ReadsAs(sizes[i], |blobs[i].bytes|) {
      ParseIntDigits(sizes[i]);
      DigitsValueDecimal(|blobs[i].bytes|);
      NotInDigits(sizes[i], ' ');
      NotInDigits(sizes[i], '\n');
    }
    ParsedIffStream(Stream(entries, sizes, blobs), entries, blobs);
  }

  lemma {:induction false} ReadExactlyIsExact(read: Reader, data: Bytes, extra: Bytes, entries: seq<Entry>)
    requires Progresses(read) && ReadsRecords(read) && OnlyRecords(read)
    requires forall i | 0 <= i < |entries| :: OneWord(entries[i].sha)
    requires extra != "" && ReadExactly(read, data, entries).Ok?
    ensures ReadExactly(read, data + extra, entries) == Err(TrailingData)
  {
    var blobs := ReadExactly(read, data, entries).value;
    ReadExactlyIffStream(read, data, entries, blobs);
    var sizes :| Spells(entries, sizes, blobs) && data == Stream(entries, sizes, blobs);
    ReadStream(read, data + extra, entries, sizes, blobs, extra);
  }

  /** No accepted batch is a proper prefix of another: anything after an accepted batch is refused as
      trailing data, and so an accepted batch cut short is refused too. */
  lemma {:induction false} AcceptedIsExact(data: Bytes, extra: Bytes, entries: seq<Entry>)
    requires forall i | 0 <= i < |entries| :: OneWord(entries[i].sha)
    requires extra != ""
    ensures Parsed(data, entries).Ok? ==> Parsed(data + extra, entries) == Err(TrailingData)
  {
    ParseOneReadsRecords();
    if Parsed(data, entries).Ok? {
      ReadExactlyIsExact(ParseOne, data, extra, entries);
    }
  }
}
