/** SQR1 transfer frames: cutting an archive into text frames, and the two restorers that put it back. */
module Sqr1Frames {
  import opened Wrappers
  import opened Orders
  import opened Text
  import B = Base45

  type byte = B.byte

  /** SHA-256 and CRC-32 are whatever functions the library provides. */
  datatype Hashes = Hashes(sha256: seq<byte> -> seq<byte>, crc32: seq<byte> -> nat)

  datatype Refusal =
    | InvalidFrame | BadPayload(why: B.Refusal) | ChecksumMismatch | BadNumber
    | QrFailed | NoFrames | ZeroChunk | SequenceMismatch | SetMismatch | DigestMismatch

  function HexBytes(data: seq<byte>): (s: string)
    ensures forall c | c in s :: IsHex(c)
  {
    if data == [] then "" else Hex(data[0], 2) + HexBytes(data[1..])
  }

  /** `sha256(raw).hexdigest().upper()`. */
  function Digest(h: Hashes, raw: seq<byte>): string {
    HexBytes(h.sha256(raw))
  }

  /** `"{:08X}".format(crc32(chunk) & 0xFFFFFFFF)`. */
  function Checksum(h: Hashes, chunk: seq<byte>): string {
    Hex(h.crc32(chunk) % 0x1_0000_0000, 8)
  }

  // ---- making frames ----

  function Chunks(raw: seq<byte>, size: nat): (chunks: seq<seq<byte>>)
    requires size > 0
    ensures chunks == [] <==> raw == []
    ensures Flat(chunks) == raw
  {
    if raw == [] then []
    else if |raw| <= size then
      FlatOne(raw);
      [raw]
    else
      var rest := Chunks(raw[size..], size);
      assert ([raw[..size]] + rest)[1..] == rest;
      [raw[..size]] + rest
  }

  /** Characters a QR alphanumeric frame cannot carry become '-'. The argument is the upper-cased name. */
  function SafeName(upper: string): (s: string)
    ensures |s| == |upper|
    ensures ':' in s <==> ':' in upper
  {
    var s := seq(|upper|, i requires 0 <= i < |upper| => if B.Value(upper[i]).Some? then upper[i] else '-');
    assert forall i | 0 <= i < |s| :: s[i] == ':' <==> upper[i] == ':';
    s
  }

  function Payload(h: Hashes, index: nat, total: nat, chunk: seq<byte>): string {
    Padded(index, 4) + ":" + (Padded(total, 4) + ":" + (Checksum(h, chunk) + ":" + B.Encoded(chunk)))
  }

  function FrameText(h: Hashes, name: string, digest: string, index: nat, total: nat, chunk: seq<byte>): string {
    "SQR1" + ":" + (name + ":" + (digest + ":" + Payload(h, index, total, chunk)))
  }

  function FrameTexts(h: Hashes, name: string, raw: seq<byte>, chunks: seq<seq<byte>>): (texts: seq<string>)
    ensures |texts| == |chunks|
  {
    seq(|chunks|, i requires 0 <= i < |chunks| =>
      FrameText(h, name, Digest(h, raw), i + 1, |chunks|, chunks[i]))
  }

  /** The frames written for an archive. A zero chunk size makes `range` raise; a negative one cuts nothing. */
  function Made(h: Hashes, upper: string, raw: seq<byte>, chunkSize: int): Result<seq<string>, Refusal> {
    if chunkSize == 0 then Err(ZeroChunk)
    else Ok(FrameTexts(h, SafeName(upper), raw, if chunkSize < 0 then [] else Chunks(raw, chunkSize)))
  }

  lemma {:induction false} FrameAt(h: Hashes, name: string, raw: seq<byte>, chunks: seq<seq<byte>>, i: nat)
    requires i < |chunks|
    ensures FrameTexts(h, name, raw, chunks)[i] == FrameText(h, name, Digest(h, raw), i + 1, |chunks|, chunks[i])
  {
  }

  lemma {:induction false} FramesOneMore(h: Hashes, name: string, raw: seq<byte>, chunks: seq<seq<byte>>, k: nat)
    requires k < |chunks|
    ensures FrameTexts(h, name, raw, chunks)[..k + 1] ==
            FrameTexts(h, name, raw, chunks)[..k] +
            [FrameText(h, name, Digest(h, raw), k + 1, |chunks|, chunks[k])]
  {
    FrameAt(h, name, raw, chunks, k);
    TakeNext(FrameTexts(h, name, raw, chunks), k);
  }

  /** At most `size` bytes from a place on. */
  function Stretch(raw: seq<byte>, at: nat, size: nat): seq<byte>
    requires at <= |raw|
  {
    raw[at..if at + size < |raw| then at + size else |raw|]
  }

  /** Cutting yields as few stretches of at most `size` bytes as the archive needs. */
  lemma {:induction false} ChunkCount(raw: seq<byte>, size: nat)
    requires size > 0
    ensures raw != [] ==> (|Chunks(raw, size)| - 1) * size < |raw| <= |Chunks(raw, size)| * size
  {
    if |raw| > size {
      var n := |Chunks(raw[size..], size)|;
      ChunkCount(raw[size..], size);
      assert (n + 1 - 1) * size == (n - 1) * size + size && (n + 1) * size == n * size + size;
    }
  }

  lemma {:induction false} StretchShift(raw: seq<byte>, at: nat, size: nat)
    requires size <= at <= |raw|
    ensures Stretch(raw, at, size) == Stretch(raw[size..], at - size, size)
  {
  }

  lemma {:induction false} OneLess(i: nat, size: nat)
    requires i > 0
    ensures (i - 1) * size == i * size - size
  {
  }

  lemma {:induction false} ChunkAt(raw: seq<byte>, size: nat, i: nat, at: nat)
    requires size > 0 && i < |Chunks(raw, size)| && at == i * size
    ensures at <= |raw| && Chunks(raw, size)[i] == Stretch(raw, at, size)
  {
    if i > 0 {
      OneLess(i, size);
      ChunkAt(raw[size..], size, i - 1, at - size);
      StretchShift(raw, at, size);
    }
  }

  /** What is written for a chunk size: nothing for zero but a refusal, no frame for a negative one, and else
      as many frames as the archive needs, each carrying its stretch of `chunkSize` bytes (the last one what
      is left) under its number, the total, the archive's digest and the stretch's checksum. */
  lemma {:induction false} FramesCarrySlices(h: Hashes, upper: string, raw: seq<byte>, chunkSize: int, i: nat)
    ensures Made(h, upper, raw, chunkSize).Err? <==> chunkSize == 0
    ensures chunkSize < 0 ==> Made(h, upper, raw, chunkSize) == Ok([])
    ensures chunkSize > 0 && raw == [] ==> Made(h, upper, raw, chunkSize) == Ok([])
    ensures chunkSize > 0 && raw != [] ==>
              var n := |Made(h, upper, raw, chunkSize).value|; (n - 1) * chunkSize < |raw| <= n * chunkSize
    ensures chunkSize > 0 && i < |Made(h, upper, raw, chunkSize).value| ==>
              var texts := Made(h, upper, raw, chunkSize).value;
              i * chunkSize <= |raw| &&
              var slice := Stretch(raw, i * chunkSize, chunkSize);
              texts[i] == "SQR1" + ":" + (SafeName(upper) + ":" + (HexBytes(h.sha256(raw)) + ":" +
                          (Padded(i + 1, 4) + ":" + (Padded(|texts|, 4) + ":" +
                          (Hex(h.crc32(slice) % 0x1_0000_0000, 8) + ":" + B.Encoded(slice))))))
  {
    if chunkSize > 0 {
      ChunkCount(raw, chunkSize);
      var chunks := Chunks(raw, chunkSize);
      if i < |chunks| {
        ChunkAt(raw, chunkSize, i, i * chunkSize);
        FrameAt(h, SafeName(upper), raw, chunks, i);
      }
    }
  }

  // ---- what a frame is written with ----

  /** Every character is one a QR code carries in its alphanumeric mode. */
  ghost predicate Carriable(s: string) {
    forall c | c in s :: B.Value(c).Some?
  }

  lemma {:induction false} EncodedCarriable(data: seq<byte>)
    ensures Carriable(B.Encoded(data))
  {
    if |data| == 1 {
      B.ValueOfLetter(data[0] % 45);
      B.ValueOfLetter(data[0] / 45);
    } else if |data| > 1 {
      EncodedCarriable(data[2..]);
      PairCarriable(data[0], data[1]);
    }
  }

  lemma {:induction false} PairCarriable(a: byte, b: byte)
    ensures Carriable(B.EncodePair(a, b))
  {
    B.OneValue(a, b);
    ValueCarriable(a * 256 + b);
  }

  lemma {:induction false} ValueCarriable(value: nat)
    requires value < 65536
    ensures Carriable(B.EncodeValue(value))
  {
    B.ThreeDigits(value);
    B.ValueOfLetter(value % 45);
    B.ValueOfLetter((value / 45) % 45);
    B.ValueOfLetter(value / 2025);
  }

  lemma {:induction false} FieldCarriable(field: string, rest: string)
    requires Carriable(field) && Carriable(rest)
    ensures Carriable(field + ":" + rest)
  {
  }

  lemma {:induction false} FrameCarriable(h: Hashes, name: string, digest: string, index: nat, total: nat,
      chunk: seq<byte>)
    requires Carriable(name) && Carriable(digest)
    ensures Carriable(FrameText(h, name, digest, index, total, chunk))
  {
    EncodedCarriable(chunk);
    FieldCarriable(Checksum(h, chunk), B.Encoded(chunk));
    FieldCarriable(Padded(total, 4), Checksum(h, chunk) + ":" + B.Encoded(chunk));
    FieldCarriable(Padded(index, 4), Padded(total, 4) + ":" + (Checksum(h, chunk) + ":" + B.Encoded(chunk)));
    FieldCarriable(digest, Payload(h, index, total, chunk));
    FieldCarriable(name, digest + ":" + Payload(h, index, total, chunk));
    FieldCarriable("SQR1", name + ":" + (digest + ":" + Payload(h, index, total, chunk)));
  }

  lemma {:induction false} SafeNameCarriable(upper: string)
    ensures Carriable(SafeName(upper))
    ensures Carriable(upper) ==> SafeName(upper) == upper
    ensures forall k | 0 <= k < |upper| && SafeName(upper)[k] != upper[k] ::
              SafeName(upper)[k] == '-' && B.Value(upper[k]).None?
  {
    var s := SafeName(upper);
    if Carriable(upper) {
      forall k | 0 <= k < |upper| ensures s[k] == upper[k] {
        assert upper[k] in upper;
      }
    }
  }

  /** Every frame can be carried by an alphanumeric QR code, whatever the archive is called; a name that
      can be carried is kept, and a character that cannot is the only thing that changes. */
  lemma {:induction false} FramesCarriable(h: Hashes, upper: string, raw: seq<byte>, chunkSize: int, i: nat)
    requires Made(h, upper, raw, chunkSize).Ok? && i < |Made(h, upper, raw, chunkSize).value|
    ensures Carriable(Made(h, upper, raw, chunkSize).value[i])
    ensures Carriable(upper) ==> SafeName(upper) == upper
    ensures forall k | 0 <= k < |upper| && SafeName(upper)[k] != upper[k] ::
              SafeName(upper)[k] == '-' && B.Value(upper[k]).None?
  {
    SafeNameCarriable(upper);
    var chunks := if chunkSize < 0 then [] else Chunks(raw, chunkSize);
    FrameAt(h, SafeName(upper), raw, chunks, i);
    FrameCarriable(h, SafeName(upper), Digest(h, raw), i + 1, |chunks|, chunks[i]);
  }

  method MakeFrames(h: Hashes, upper: string, raw: seq<byte>, chunkSize: int)
    returns (r: Result<seq<string>, Refusal>)
    ensures r == Made(h, upper, raw, chunkSize)
  {
    if chunkSize == 0 {
      return Err(ZeroChunk);
    }
    var digest := Digest(h, raw);
    var chunks := if chunkSize < 0 then [] else Chunks(raw, chunkSize);
    var safe := SafeName(upper);
    var written: seq<string> := [];
    ghost var expected := FrameTexts(h, safe, raw, chunks);
    for index := 0 to |chunks|
      invariant written == expected[..index]
    {
      var text := B.Encode(chunks[index]);
      FramesOneMore(h, safe, raw, chunks, index);
      written := written + ["SQR1" + ":" + (safe + ":" + (digest + ":" + (Padded(index + 1, 4) + ":" +
        (Padded(|chunks|, 4) + ":" + (Checksum(h, chunks[index]) + ":" + text)))))];
    }
    assert expected[..|chunks|] == expected;
    return Ok(written);
  }

  // ---- reading frames ----

  /** What the text restorer sorts: a tuple, compared in this order. */
  datatype Item = Item(index: int, total: int, digest: string, chunk: seq<byte>)
  datatype Frame = Frame(name: string, item: Item)

  /** What the seven parts of a frame text read as. */
  function ParseParts(h: Hashes, parts: seq<string>): Result<Frame, Refusal> {
    if |parts| != 7 || parts[0] != "SQR1" then Err(InvalidFrame)
    else
      match B.Decoded(parts[6])
      case Err(why) => Err(BadPayload(why))
      case Ok(chunk) =>
        if Checksum(h, chunk) != parts[5] then Err(ChecksumMismatch)
        else
          match (ParseInt(parts[3]), ParseInt(parts[4]))
          case (Some(index), Some(total)) => Ok(Frame(parts[1], Item(index, total, parts[2], chunk)))
          case _ => Err(BadNumber)
  }

  function ParseFrame(h: Hashes, text: string): Result<Frame, Refusal> {
    ParseParts(h, SplitAtMost(text, ':', 6))
  }

  function ParseAll(h: Hashes, texts: seq<string>): (r: Result<seq<Frame>, Refusal>)
    ensures r.Ok? <==> forall i | 0 <= i < |texts| :: ParseFrame(h, texts[i]).Ok?
    ensures r.Ok? ==> |r.value| == |texts| &&
                      forall i | 0 <= i < |texts| :: r.value[i] == ParseFrame(h, texts[i]).value
  {
    Each((text: string) => ParseFrame(h, text), texts)
  }

  function Items(frames: seq<Frame>): (items: seq<Item>)
    ensures |items| == |frames|
    ensures forall i | 0 <= i < |frames| :: items[i] == frames[i].item
  {
    seq(|frames|, i requires 0 <= i < |frames| => frames[i].item)
  }

  predicate ByteLess(a: byte, b: byte) {
    a < b
  }

  predicate BytesLess(a: seq<byte>, b: seq<byte>) {
    LexLess(ByteLess, a, b)
  }

  predicate ItemLess(a: Item, b: Item) {
    a.index < b.index || (a.index == b.index && (
      a.total < b.total || (a.total == b.total && (
        TextLess(a.digest, b.digest) || (a.digest == b.digest && BytesLess(a.chunk, b.chunk))))))
  }

  lemma {:induction false} BytesLessTotal()
    ensures StrictTotal(BytesLess)
  {
    forall a, b | BytesLess(a, b) ensures !BytesLess(b, a) { LexAsymmetric(ByteLess, a, b); }
    forall a, b, c | BytesLess(a, c) ensures BytesLess(a, b) || BytesLess(b, c) { LexCotransitive(ByteLess, a, b, c); }
    forall a, b ensures a == b || BytesLess(a, b) || BytesLess(b, a) { LexConnected(ByteLess, a, b); }
  }

  lemma {:induction false} ItemLessTotal()
    ensures StrictTotal(ItemLess)
  {
    TextLessTotal();
    BytesLessTotal();
  }

  function SortItems(items: seq<Item>): (sorted: seq<Item>)
    ensures |sorted| == |items| && multiset(sorted) == multiset(items)
  {
    ItemLessTotal();
    SortBy(ItemLess, items)
  }

  function ChunksOf(items: seq<Item>): (chunks: seq<seq<byte>>)
    ensures |chunks| == |items|
    ensures forall i | 0 <= i < |items| :: chunks[i] == items[i].chunk
  {
    seq(|items|, i requires 0 <= i < |items| => items[i].chunk)
  }

  predicate Numbered(items: seq<Item>) {
    forall i | 0 <= i < |items| :: items[i].index == i + 1
  }

  /** The text restorer's checks, on the frames it has parsed. */
  function RestoredItems(h: Hashes, items: seq<Item>): Result<seq<byte>, Refusal> {
    if items == [] then Err(NoFrames)
    else
      var sorted := SortItems(items);
      var total, digest := sorted[0].total, sorted[0].digest;
      var raw := Flat(ChunksOf(sorted));
      if |sorted| != total || !Numbered(sorted) then Err(SequenceMismatch)
      else if exists i | 0 <= i < |sorted| :: sorted[i].total != total || sorted[i].digest != digest then
        Err(SetMismatch)
      else if Digest(h, raw) != digest then Err(DigestMismatch)
      else Ok(raw)
  }

  /** The text restorer, on the frame texts in whatever order the directory lists them. */
  function Restored(h: Hashes, texts: seq<string>): Result<seq<byte>, Refusal> {
    match ParseAll(h, texts)
    case Err(e) => Err(e)
    case Ok(frames) => RestoredItems(h, Items(frames))
  }

  method Restore(h: Hashes, texts: seq<string>) returns (r: Result<seq<byte>, Refusal>)
    ensures r == Restored(h, texts)
  {
    var parsed: seq<Item> := [];
    for k := 0 to |texts|
      invariant AllParse(h, texts[..k]) && parsed == ItemsOf(h, texts[..k])
    {
      var frame := ParseFrame(h, texts[k]);
      if frame.Err? {
        FirstRefusal(h, texts, k);
        return Err(frame.error);
      }
      ParseOneMore(h, texts, k);
      parsed := parsed + [frame.value.item];
    }
    assert texts[..|texts|] == texts;
    return RestoredItems(h, parsed);
  }

  ghost predicate AllParse(h: Hashes, texts: seq<string>) {
    forall i | 0 <= i < |texts| :: ParseFrame(h, texts[i]).Ok?
  }

  ghost function ItemsOf(h: Hashes, texts: seq<string>): (items: seq<Item>)
    requires AllParse(h, texts)
    ensures |items| == |texts|
    ensures forall i | 0 <= i < |texts| :: items[i] == ParseFrame(h, texts[i]).value.item
  {
    Items(ParseAll(h, texts).value)
  }

  lemma {:induction false} ParseOneMore(h: Hashes, texts: seq<string>, k: nat)
    requires k < |texts| && AllParse(h, texts[..k]) && ParseFrame(h, texts[k]).Ok?
    ensures AllParse(h, texts[..k + 1])
    ensures ItemsOf(h, texts[..k + 1]) == ItemsOf(h, texts[..k]) + [ParseFrame(h, texts[k]).value.item]
  {
    assert texts[..k + 1] == texts[..k] + [texts[k]];
  }

  lemma {:induction false} FirstRefusal(h: Hashes, texts: seq<string>, k: nat)
    requires k < |texts| && ParseFrame(h, texts[k]).Err? && AllParse(h, texts[..k])
    ensures ParseAll(h, texts) == Err(ParseFrame(h, texts[k]).error)
  {
    assert forall i | 0 <= i < k :: texts[..k][i] == texts[i];
    FirstOfEach((text: string) => ParseFrame(h, text), texts, k);
  }

  // ---- what the text restorer accepts ----

  /** Frames 1..n of one archive, in order, each naming the total and the archive's digest. */
  ghost predicate Complete(h: Hashes, order: seq<Item>, raw: seq<byte>) {
    && order != [] && Numbered(order)
    && (forall i | 0 <= i < |order| :: order[i].total == |order| && order[i].digest == Digest(h, raw))
    && Flat(ChunksOf(order)) == raw
  }

  /** Some arrangement of the parsed frames is complete. No sorting is mentioned. */
  ghost predicate Accepts(h: Hashes, texts: seq<string>, raw: seq<byte>) {
    && ParseAll(h, texts).Ok?
    && exists order :: multiset(order) == multiset(Items(ParseAll(h, texts).value)) && Complete(h, order, raw)
  }

  lemma {:induction false} SortFindsOrder(items: seq<Item>, order: seq<Item>)
    requires multiset(order) == multiset(items) && Numbered(order)
    ensures SortItems(items) == order
  {
    ItemLessTotal();
    SortedUnique(ItemLess, SortBy(ItemLess, items), order);
  }

  lemma {:induction false} AcceptedIsRestored(h: Hashes, items: seq<Item>, order: seq<Item>, raw: seq<byte>)
    requires multiset(order) == multiset(items) && Complete(h, order, raw)
    ensures RestoredItems(h, items) == Ok(raw)
  {
    SortFindsOrder(items, order);
    assert |multiset(items)| == |items| && |multiset(order)| == |order|;
    assert forall i | 0 <= i < |order| :: order[i].total == order[0].total && order[i].digest == order[0].digest;
  }

  lemma {:induction false} RestoredIsComplete(h: Hashes, items: seq<Item>, raw: seq<byte>)
    requires RestoredItems(h, items) == Ok(raw)
    ensures Complete(h, SortItems(items), raw)
  {
  }

  lemma {:induction false} RestoredIffAccepts(h: Hashes, texts: seq<string>, raw: seq<byte>)
    ensures Restored(h, texts) == Ok(raw) <==> Accepts(h, texts, raw)
  {
    if ParseAll(h, texts).Ok? {
      var items := Items(ParseAll(h, texts).value);
      if RestoredItems(h, items) == Ok(raw) {
        RestoredIsComplete(h, items, raw);
      } else if Accepts(h, texts, raw) {
        var order: seq<Item> :| multiset(order) == multiset(items) && Complete(h, order, raw);
        AcceptedIsRestored(h, items, order, raw);
      }
    }
  }

  lemma {:induction false} AllParsePermutes(h: Hashes, a: seq<string>, b: seq<string>)
    requires multiset(a) == multiset(b) && AllParse(h, a)
    ensures AllParse(h, b)
  {
    forall i | 0 <= i < |b| ensures ParseFrame(h, b[i]).Ok? {
      assert b[i] in multiset(a);
    }
  }

  lemma {:induction false} ItemsPermute(h: Hashes, a: seq<string>, b: seq<string>)
    requires multiset(a) == multiset(b) && AllParse(h, a) && AllParse(h, b)
    ensures multiset(ItemsOf(h, a)) == multiset(ItemsOf(h, b))
  {
    var f := (text: string) => var r := ParseFrame(h, text); if r.Ok? then r.value.item else Item(0, 0, "", []);
    MappedPermutes(f, a, b);
    assert Mapped(f, a) == ItemsOf(h, a) && Mapped(f, b) == ItemsOf(h, b);
  }

  /** The order in which frames are read does not matter. */
  lemma {:induction false} ReadingOrderIrrelevant(h: Hashes, a: seq<string>, b: seq<string>, raw: seq<byte>)
    requires multiset(a) == multiset(b)
    ensures Restored(h, a) == Ok(raw) <==> Restored(h, b) == Ok(raw)
  {
    RestoredIffAccepts(h, a, raw);
    RestoredIffAccepts(h, b, raw);
    if AllParse(h, a) || AllParse(h, b) {
      if AllParse(h, a) { AllParsePermutes(h, a, b); } else { AllParsePermutes(h, b, a); }
      ItemsPermute(h, a, b);
    }
  }

  lemma {:induction false} AcceptedFrame(h: Hashes, texts: seq<string>, raw: seq<byte>, i: nat)
    requires Accepts(h, texts, raw) && i < |texts|
    ensures ParseFrame(h, texts[i]).Ok?
    ensures var item := ParseFrame(h, texts[i]).value.item;
            item.total == |texts| && item.digest == Digest(h, raw) && 1 <= item.index <= |texts|
  {
    var items := Items(ParseAll(h, texts).value);
    var order: seq<Item> :| multiset(order) == multiset(items) && Complete(h, order, raw);
    assert |multiset(items)| == |items| && |multiset(order)| == |order|;
    assert items[i] in multiset(order);
  }

  lemma {:induction false} AcceptedTotal(h: Hashes, texts: seq<string>, raw: seq<byte>, text: string)
    requires Accepts(h, texts, raw) && text in texts
    ensures ParseFrame(h, text).Ok? && ParseFrame(h, text).value.item.total == |texts|
  {
    var i :| 0 <= i < |texts| && texts[i] == text;
    AcceptedFrame(h, texts, raw, i);
  }

  /** From an accepted set no frame can be dropped, none repeated, and no other text added. */
  lemma {:induction false} NothingMissingNothingMore(h: Hashes, texts: seq<string>, extra: string, larger: seq<string>,
      raw: seq<byte>, other: seq<byte>)
    requires multiset(larger) == multiset(texts) + multiset{extra}
    ensures !(Restored(h, texts) == Ok(raw) && Restored(h, larger) == Ok(other))
  {
    RestoredIffAccepts(h, texts, raw);
    RestoredIffAccepts(h, larger, other);
    if Accepts(h, texts, raw) && Accepts(h, larger, other) {
      assert |multiset(texts)| == |texts| && |multiset(larger)| == |larger|;
      assert texts != [];
      assert texts[0] in multiset(larger);
      AcceptedTotal(h, texts, raw, texts[0]);
      AcceptedTotal(h, larger, other, texts[0]);
    }
  }

  lemma {:induction false} WrongCount(h: Hashes, texts: seq<string>, total: nat)
    requires AllParse(h, texts) && total != |texts| && texts != []
    requires forall i | 0 <= i < |texts| :: ParseFrame(h, texts[i]).value.item.total == total
    ensures Restored(h, texts) == Err(SequenceMismatch)
  {
    var items := ItemsOf(h, texts);
    var sorted := SortItems(items);
    assert sorted[0] in multiset(items);
  }

  /** An accepted set that has lost a frame is refused as an incomplete sequence, or for having no frame. */
  lemma {:induction false} OneMissing(h: Hashes, texts: seq<string>, lost: string, all: seq<string>, raw: seq<byte>)
    requires multiset(all) == multiset(texts) + multiset{lost} && Restored(h, all) == Ok(raw)
    ensures Restored(h, texts) == Err(if texts == [] then NoFrames else SequenceMismatch)
  {
    RestoredIffAccepts(h, all, raw);
    assert |multiset(texts)| == |texts| && |multiset(all)| == |all|;
    forall i | 0 <= i < |texts|
      ensures ParseFrame(h, texts[i]).Ok? && ParseFrame(h, texts[i]).value.item.total == |all|
    {
      assert texts[i] in multiset(all);
      AcceptedTotal(h, all, raw, texts[i]);
    }
    if texts != [] {
      WrongCount(h, texts, |all|);
    }
  }

  /** Two accepted sets with a frame in common restore bytes of the same SHA-256 digest; frames that
      name different digests or totals are never accepted together. */
  lemma {:induction false} NoForeignFrames(h: Hashes, a: seq<string>, b: seq<string>, x: seq<byte>, y: seq<byte>,
      i: nat, j: nat, k: nat)
    requires Restored(h, a) == Ok(x) && Restored(h, b) == Ok(y)
    requires i < |a| && j < |b| && k < |a|
    ensures a[i] == b[j] ==> Digest(h, x) == Digest(h, y) && |a| == |b|
    ensures ParseFrame(h, a[i]).Ok? && ParseFrame(h, a[k]).Ok?
    ensures var p, q := ParseFrame(h, a[i]).value.item, ParseFrame(h, a[k]).value.item;
            p.digest == q.digest && p.total == q.total
  {
    RestoredIffAccepts(h, a, x);
    RestoredIffAccepts(h, b, y);
    AcceptedFrame(h, a, x, i);
    AcceptedFrame(h, a, x, k);
    AcceptedFrame(h, b, y, j);
  }

  // ---- what a refusal means ----

  /** The items are frames 1, 2, and so on, in this order. */
  ghost predicate Arranged(items: seq<Item>, order: seq<Item>) {
    multiset(order) == multiset(items) && Numbered(order)
  }

  /** The first frame's total and digest are those of all. */
  ghost predicate Uniform(order: seq<Item>) {
    forall i | 0 <= i < |order| :: order[i].total == order[0].total && order[i].digest == order[0].digest
  }

  /** What parsed frames are refused for, by what can be done with them: they cannot be put in sequence, or are
      not as many as frame 1 says; they disagree; or together they are not the archive they name. */
  lemma {:induction false} ItemsRefusedAs(h: Hashes, items: seq<Item>)
    ensures items == [] ==> RestoredItems(h, items) == Err(NoFrames)
    ensures items != [] && (forall order: seq<Item> :: !Arranged(items, order)) ==>
              RestoredItems(h, items) == Err(SequenceMismatch)
    ensures forall order: seq<Item> | items != [] && Arranged(items, order) && order != [] ::
              RestoredItems(h, items) ==
              if |order| != order[0].total then Err(SequenceMismatch)
              else if !Uniform(order) then Err(SetMismatch)
              else if HexBytes(h.sha256(Flat(ChunksOf(order)))) != order[0].digest then Err(DigestMismatch)
              else Ok(Flat(ChunksOf(order)))
  {
    if items != [] {
      forall order | Arranged(items, order) ensures SortItems(items) == order {
        SortFindsOrder(items, order);
      }
      if Numbered(SortItems(items)) {
        assert Arranged(items, SortItems(items));
      }
    }
  }

  // ---- what a frame text may be ----

  /** The text of a frame, number fields spelled as they were. */
  function Spelled(h: Hashes, name: string, digest: string, index: string, total: string, chunk: seq<byte>): string {
    "SQR1" + ":" + (name + ":" + (digest + ":" + (index + ":" + (total + ":" +
      (Hex(h.crc32(chunk) % 0x1_0000_0000, 8) + ":" + B.Encoded(chunk))))))
  }

  /** Two number fields that read as the frame's numbers, in a text spelled with its other parts. */
  ghost predicate SpellsFrame(h: Hashes, text: string, frame: Frame, index: string, total: string) {
    && ':' !in frame.name && ':' !in frame.item.digest && ':' !in index && ':' !in total
    && ParseInt(index) == Some(frame.item.index) && ParseInt(total) == Some(frame.item.total)
    && text == Spelled(h, frame.name, frame.item.digest, index, total, frame.item.chunk)
  }

  lemma {:induction false} SevenJoined(parts: seq<string>)
    requires |parts| == 7
    ensures Joined(parts, ':') ==
            parts[0] + ":" + (parts[1] + ":" + (parts[2] + ":" + (parts[3] + ":" + (parts[4] + ":" +
              (parts[5] + ":" + parts[6])))))
  {
    assert parts[1..][1..] == parts[2..] && parts[2..][1..] == parts[3..] && parts[3..][1..] == parts[4..];
    assert parts[4..][1..] == parts[5..] && parts[5..][1..] == parts[6..] && parts[6..] == [parts[6]];
    assert Joined(parts[5..], ':') == parts[5] + ":" + Joined(parts[6..], ':');
    assert Joined(parts[4..], ':') == parts[4] + ":" + Joined(parts[5..], ':');
    assert Joined(parts[3..], ':') == parts[3] + ":" + Joined(parts[4..], ':');
    assert Joined(parts[2..], ':') == parts[2] + ":" + Joined(parts[3..], ':');
    assert Joined(parts[1..], ':') == parts[1] + ":" + Joined(parts[2..], ':');
  }

  /** Any splitter that cuts off a first field free of ':' and stops at the limit. */
  ghost predicate CutsFields(split: (string, nat) -> seq<string>) {
    && (forall s :: split(s, 0) == [s])
    && (forall field: string, rest: string, limit: nat | ':' !in field && limit > 0 ::
          split(field + ":" + rest, limit) == [field] + split(rest, limit - 1))
  }

  lemma {:induction false} SplitCuts(split: (string, nat) -> seq<string>)
    requires forall s, k :: split(s, k) == SplitAtMost(s, ':', k)
    ensures CutsFields(split)
  {
    forall field: string, rest: string, k: nat | ':' !in field && k > 0
      ensures split(field + ":" + rest, k) == [field] + split(rest, k - 1)
    {
      SplitField(field, rest, ':', k);
    }
  }

  lemma {:induction false} SixCut(split: (string, nat) -> seq<string>, a: string, b: string, c: string, d: string,
      e: string, f: string, g: string)
    requires CutsFields(split) && Free([a, b, c, d, e, f], ':')
    ensures split(a + ":" + (b + ":" + (c + ":" + (d + ":" + (e + ":" + (f + ":" + g))))), 6) == [a, b, c, d, e, f, g]
  {
    var free := [a, b, c, d, e, f];
    assert free[0] == a && free[1] == b && free[2] == c && free[3] == d && free[4] == e && free[5] == f;
    var t1 := f + ":" + g;
    var t2 := e + ":" + t1;
    var t3 := d + ":" + t2;
    var t4 := c + ":" + t3;
    var t5 := b + ":" + t4;
    assert split(t1, 1) == [f] + split(g, 0) == [f, g];
    assert split(t2, 2) == [e] + split(t1, 1) == [e, f, g];
    assert split(t3, 3) == [d] + split(t2, 2) == [d, e, f, g];
    assert split(t4, 4) == [c] + split(t3, 3) == [c, d, e, f, g];
    assert split(t5, 5) == [b] + split(t4, 4) == [b, c, d, e, f, g];
    assert split(a + ":" + t5, 6) == [a] + split(t5, 5);
  }

  lemma {:induction false} SixSplit(a: string, b: string, c: string, d: string, e: string, f: string, g: string)
    requires Free([a, b, c, d, e, f], ':')
    ensures SplitAtMost(a + ":" + (b + ":" + (c + ":" + (d + ":" + (e + ":" + (f + ":" + g))))), ':', 6) ==
            [a, b, c, d, e, f, g]
  {
    var split := (s: string, k: nat) => SplitAtMost(s, ':', k);
    SplitCuts(split);
    SixCut(split, a, b, c, d, e, f, g);
  }

  lemma {:induction false} ReadIsSpelled(h: Hashes, text: string, frame: Frame) returns (index: string, total: string)
    requires ParseFrame(h, text) == Ok(frame)
    ensures SpellsFrame(h, text, frame, index, total)
  {
    var parts := SplitAtMost(text, ':', 6);
    JoinSplitAtMost(text, ':', 6);
    forall i | 0 <= i < 6 ensures ':' !in parts[i] {
      SplitAtMostFree(text, ':', 6, i);
    }
    SevenJoined(parts);
    index, total := parts[3], parts[4];
    B.AcceptedTexts(parts[6], frame.item.chunk);
  }

  lemma {:induction false} PartsRead(h: Hashes, text: string, name: string, digest: string, index: string,
      total: string, sum: string, payload: string, chunk: seq<byte>, i: int, t: int)
    requires Free(["SQR1", name, digest, index, total, sum], ':')
    requires text ==
             "SQR1" + ":" + (name + ":" + (digest + ":" + (index + ":" + (total + ":" + (sum + ":" + payload)))))
    requires sum == Checksum(h, chunk) && B.Decoded(payload) == Ok(chunk)
    requires ParseInt(index) == Some(i) && ParseInt(total) == Some(t)
    ensures ParseFrame(h, text) == Ok(Frame(name, Item(i, t, digest, chunk)))
  {
    SixSplit("SQR1", name, digest, index, total, sum, payload);
    var parts := ["SQR1", name, digest, index, total, sum, payload];
    PartsParse(h, parts, i, t, chunk);
    ParseSplit(h, text, parts, Frame(name, Item(i, t, digest, chunk)));
  }

  lemma {:induction false} FreeParts(name: string, digest: string, index: string, total: string, sum: string)
    requires ':' !in name && ':' !in digest && ':' !in index && ':' !in total && ':' !in sum
    ensures Free(["SQR1", name, digest, index, total, sum], ':')
  {
  }

  lemma {:induction false} SpelledIsRead(h: Hashes, text: string, frame: Frame, index: string, total: string)
    requires SpellsFrame(h, text, frame, index, total)
    ensures ParseFrame(h, text) == Ok(frame)
  {
    var chunk := frame.item.chunk;
    FreeParts(frame.name, frame.item.digest, index, total, Checksum(h, chunk));
    B.DecodeEncode(chunk);
    PartsRead(h, text, frame.name, frame.item.digest, index, total, Checksum(h, chunk), B.Encoded(chunk), chunk,
              frame.item.index, frame.item.total);
  }

  /** A text reads as a frame if and only if it is spelled as one: the format mark, a name, a digest, two
      numbers, the CRC-32 of the chunk in eight digits, and the chunk's one Base45 text. */
  lemma {:induction false} AcceptedFrames(h: Hashes, text: string, frame: Frame)
    ensures ParseFrame(h, text) == Ok(frame) <==> exists index, total :: SpellsFrame(h, text, frame, index, total)
  {
    if ParseFrame(h, text) == Ok(frame) {
      var index, total := ReadIsSpelled(h, text, frame);
    }
    if index, total :| SpellsFrame(h, text, frame, index, total) {
      SpelledIsRead(h, text, frame, index, total);
    }
  }

  /** What stands before the payload. */
  function Header(name: string, digest: string, index: string, total: string, sum: string): string {
    "SQR1" + ":" + name + ":" + digest + ":" + index + ":" + total + ":" + sum + ":"
  }

  lemma {:induction false} HeaderShape(m: string, a: string, b: string, c: string, d: string, e: string,
      payload: string)
    ensures (m + ":" + a + ":" + b + ":" + c + ":" + d + ":" + e + ":") + payload ==
            m + ":" + (a + ":" + (b + ":" + (c + ":" + (d + ":" + (e + ":" + payload)))))
  {
  }

  lemma {:induction false} WrongChecksum(h: Hashes, text: string, a: string, b: string, c: string, d: string,
      sum: string, other: seq<byte>)
    requires Free(["SQR1", a, b, c, d, sum], ':') && Checksum(h, other) != sum
    requires text == "SQR1" + ":" + (a + ":" + (b + ":" + (c + ":" + (d + ":" + (sum + ":" + B.Encoded(other))))))
    ensures ParseFrame(h, text) == Err(ChecksumMismatch)
  {
    SixSplit("SQR1", a, b, c, d, sum, B.Encoded(other));
    B.DecodeEncode(other);
  }

  lemma {:induction false} SpelledHeader(h: Hashes, text: string, frame: Frame, index: string, total: string)
    requires SpellsFrame(h, text, frame, index, total)
    ensures var sum := Checksum(h, frame.item.chunk);
            && text == Header(frame.name, frame.item.digest, index, total, sum) + B.Encoded(frame.item.chunk)
            && Free(["SQR1", frame.name, frame.item.digest, index, total, sum], ':')
  {
    HeaderShape("SQR1", frame.name, frame.item.digest, index, total, Checksum(h, frame.item.chunk),
                B.Encoded(frame.item.chunk));
  }

  /** A payload put in place of another under the same header is refused, unless CRC-32 takes the two chunks
      for one. */
  lemma {:induction false} AlteredPayload(h: Hashes, text: string, frame: Frame, front: string, other: seq<byte>)
    requires ParseFrame(h, text) == Ok(frame) && text == front + B.Encoded(frame.item.chunk)
    requires h.crc32(frame.item.chunk) % 0x1_0000_0000 != h.crc32(other) % 0x1_0000_0000
    ensures ParseFrame(h, front + B.Encoded(other)) == Err(ChecksumMismatch)
  {
    var index, total := ReadIsSpelled(h, text, frame);
    var sum := Checksum(h, frame.item.chunk);
    SpelledHeader(h, text, frame, index, total);
    SameFront(front, Header(frame.name, frame.item.digest, index, total, sum), B.Encoded(frame.item.chunk));
    HeaderShape("SQR1", frame.name, frame.item.digest, index, total, sum, B.Encoded(other));
    if Checksum(h, other) == sum {
      Crc32Tells(h, frame.item.chunk, other);
    }
    WrongChecksum(h, front + B.Encoded(other), frame.name, frame.item.digest, index, total, sum, other);
  }

  lemma {:induction false} SameFront(a: string, b: string, tail: string)
    requires a + tail == b + tail
    ensures a == b
  {
    assert |a| == |b|;
    assert a == (a + tail)[..|a|] == (b + tail)[..|b|] == b;
  }

  lemma {:induction false} Crc32Tells(h: Hashes, chunk: seq<byte>, other: seq<byte>)
    requires Checksum(h, chunk) == Checksum(h, other)
    ensures h.crc32(chunk) % 0x1_0000_0000 == h.crc32(other) % 0x1_0000_0000
  {
    assert Power16(4) == 65536 by { assert Power16(2) == 16 * Power16(1) == 256; }
    assert Power16(8) == 0x1_0000_0000 by { assert Power16(6) == 16 * Power16(5) == 256 * Power16(4); }
    HexTells(h.crc32(chunk) % 0x1_0000_0000, h.crc32(other) % 0x1_0000_0000, 8);
  }

  // ---- round trip ----

  /** Each field followed by a ':'. */
  function Headed(fields: seq<string>): (s: string)
    ensures fields != [] ==> s != ""
  {
    if fields == [] then "" else fields[0] + ":" + Headed(fields[1..])
  }

  lemma {:induction false} HeadedCons(field: string, rest: seq<string>)
    ensures Headed([field] + rest) == field + ":" + Headed(rest)
  {
    assert ([field] + rest)[1..] == rest;
  }

  lemma {:induction false} HeadedFields(s: string)
    ensures Headed(Split(s, ':')) == s + ":"
  {
    if ':' !in s {
      assert Headed([s]) == s + ":" + "";
    } else {
      var cut := IndexOf(s, ':');
      var front, rest := s[..cut], s[cut + 1..];
      HeadedFields(rest);
      HeadedCons(front, Split(rest, ':'));
      CutAt(s, cut);
      assert front + ":" + (rest + ":") == (front + ":" + rest) + ":";
    }
  }

  lemma {:induction false} HeadedConcat(a: seq<string>, b: seq<string>)
    ensures Headed(a + b) == Headed(a) + Headed(b)
  {
    if a == [] {
      assert a + b == b;
    } else {
      assert (a + b)[1..] == a[1..] + b;
      HeadedConcat(a[1..], b);
    }
  }

  lemma {:induction false} HeadedStep(fields: seq<string>, u: string)
    requires fields != []
    ensures Headed(fields) + u == fields[0] + ":" + (Headed(fields[1..]) + u)
  {
    var first, rest := fields[0], Headed(fields[1..]);
    assert (first + ":" + rest) + u == first + ":" + (rest + u);
  }

  lemma {:induction false} TakeOneMore<T>(s: seq<T>, limit: nat, last: T)
    requires 1 <= limit <= |s|
    ensures s[1..][limit - 1..] == s[limit..]
    ensures [s[0]] + (s[1..][..limit - 1] + [last]) == s[..limit] + [last]
  {
  }

  lemma {:induction false} CutHeaded(split: (string, nat) -> seq<string>, fields: seq<string>, u: string, limit: nat)
    requires CutsFields(split) && limit <= |fields| && Free(fields, ':')
    ensures split(Headed(fields) + u, limit) == fields[..limit] + [Headed(fields[limit..]) + u]
    decreases limit
  {
    if limit == 0 {
      assert fields[0..] == fields;
    } else {
      var rest := fields[1..];
      HeadedStep(fields, u);
      assert split(fields[0] + ":" + (Headed(rest) + u), limit) == [fields[0]] + split(Headed(rest) + u, limit - 1);
      CutHeaded(split, rest, u, limit - 1);
      TakeOneMore(fields, limit, Headed(rest[limit - 1..]) + u);
    }
  }

  /** Splitting stops after `limit` fields and leaves the rest, colons and all, in the last part. */
  lemma {:induction false} SplitHeaded(fields: seq<string>, u: string, limit: nat)
    requires limit <= |fields| && Free(fields, ':')
    ensures SplitAtMost(Headed(fields) + u, ':', limit) == fields[..limit] + [Headed(fields[limit..]) + u]
  {
    var split := (s: string, k: nat) => SplitAtMost(s, ':', k);
    SplitCuts(split);
    CutHeaded(split, fields, u, limit);
  }

  function HeaderFields(h: Hashes, name: string, raw: seq<byte>, index: nat, total: nat, chunk: seq<byte>): seq<string>
  {
    ["SQR1"] + Split(name, ':') + [Digest(h, raw), Padded(index, 4), Padded(total, 4), Checksum(h, chunk)]
  }

  lemma {:induction false} HeadedFour(a: string, b: string, c: string, d: string)
    ensures Headed([a, b, c, d]) == a + ":" + (b + ":" + (c + ":" + (d + ":")))
  {
    assert [a, b, c, d][1..] == [b, c, d] && [b, c, d][1..] == [c, d] && [c, d][1..] == [d] && [d][1..] == [];
    assert Headed([d]) == d + ":" + "" == d + ":";
    assert Headed([c, d]) == c + ":" + Headed([d]);
    assert Headed([b, c, d]) == b + ":" + Headed([c, d]);
  }

  lemma {:induction false} FrameTextHeaded(h: Hashes, name: string, raw: seq<byte>, index: nat, total: nat,
      chunk: seq<byte>)
    ensures FrameText(h, name, Digest(h, raw), index, total, chunk) ==
            Headed(HeaderFields(h, name, raw, index, total, chunk)) + B.Encoded(chunk)
    ensures Free(HeaderFields(h, name, raw, index, total, chunk), ':')
  {
    var a, b, c, d := Digest(h, raw), Padded(index, 4), Padded(total, 4), Checksum(h, chunk);
    NotInDigits(b, ':');
    NotInDigits(c, ':');
    HeadedFour(a, b, c, d);
    HeadedFields(name);
    HeadedConcat(["SQR1"], Split(name, ':'));
    HeadedConcat(["SQR1"] + Split(name, ':'), [a, b, c, d]);
    assert Headed(["SQR1"]) == "SQR1" + ":" + "";
    FrameShape("SQR1", name, a, b, c, d, B.Encoded(chunk));
  }

  lemma {:induction false} FrameShape(m: string, name: string, a: string, b: string, c: string, d: string, text: string)
    ensures m + ":" + (name + ":" + (a + ":" + (b + ":" + (c + ":" + (d + ":" + text))))) ==
            (m + ":" + "") + (name + ":") + (a + ":" + (b + ":" + (c + ":" + (d + ":")))) + text
  {
  }

  /** How a frame, whatever the archive's name, is cut into seven parts. */
  lemma {:induction false} SplitFrame(h: Hashes, name: string, raw: seq<byte>, index: nat, total: nat, chunk: seq<byte>)
    ensures var fields := HeaderFields(h, name, raw, index, total, chunk);
            |fields| >= 6 &&
            SplitAtMost(FrameText(h, name, Digest(h, raw), index, total, chunk), ':', 6) ==
            fields[..6] + [Headed(fields[6..]) + B.Encoded(chunk)]
  {
    FrameTextHeaded(h, name, raw, index, total, chunk);
    SplitHeaded(HeaderFields(h, name, raw, index, total, chunk), B.Encoded(chunk), 6);
  }

  lemma {:induction false} SplitOwnFrame(h: Hashes, name: string, raw: seq<byte>, index: nat, total: nat,
      chunk: seq<byte>)
    requires ':' !in name
    ensures SplitAtMost(FrameText(h, name, Digest(h, raw), index, total, chunk), ':', 6) ==
            ["SQR1", name, Digest(h, raw), Padded(index, 4), Padded(total, 4), Checksum(h, chunk), B.Encoded(chunk)]
  {
    SplitFrame(h, name, raw, index, total, chunk);
    var fields := HeaderFields(h, name, raw, index, total, chunk);
    assert fields == ["SQR1", name, Digest(h, raw), Padded(index, 4), Padded(total, 4), Checksum(h, chunk)];
    assert fields[..6] == fields && fields[6..] == [];
    assert Headed([]) + B.Encoded(chunk) == B.Encoded(chunk);
  }

  lemma {:induction false} PartsParse(h: Hashes, parts: seq<string>, index: int, total: int, chunk: seq<byte>)
    requires |parts| == 7 && parts[0] == "SQR1" && B.Decoded(parts[6]) == Ok(chunk)
    requires Checksum(h, chunk) == parts[5]
    requires ParseInt(parts[3]) == Some(index) && ParseInt(parts[4]) == Some(total)
    ensures ParseParts(h, parts) == Ok(Frame(parts[1], Item(index, total, parts[2], chunk)))
  {
  }

  lemma {:induction false} ParseSevenParts(h: Hashes, parts: seq<string>, index: nat, total: nat, chunk: seq<byte>)
    requires |parts| == 7 && parts[0] == "SQR1" && parts[3] == Padded(index, 4) && parts[4] == Padded(total, 4)
    requires parts[5] == Checksum(h, chunk) && parts[6] == B.Encoded(chunk)
    ensures ParseParts(h, parts) == Ok(Frame(parts[1], Item(index, total, parts[2], chunk)))
  {
    B.DecodeEncode(chunk);
    ParsePadded(index, 4);
    ParsePadded(total, 4);
    PartsParse(h, parts, index, total, chunk);
  }

  lemma {:induction false} ParseSplit(h: Hashes, text: string, parts: seq<string>, frame: Frame)
    requires SplitAtMost(text, ':', 6) == parts && ParseParts(h, parts) == Ok(frame)
    ensures ParseFrame(h, text) == Ok(frame)
  {
  }

  lemma {:induction false} ParseListed(h: Hashes, parts: seq<string>, name: string, digest: string, index: nat,
      total: nat, sum: string, payload: string, chunk: seq<byte>)
    requires parts == ["SQR1", name, digest, Padded(index, 4), Padded(total, 4), sum, payload]
    requires sum == Checksum(h, chunk) && payload == B.Encoded(chunk)
    ensures ParseParts(h, parts) == Ok(Frame(name, Item(index, total, digest, chunk)))
  {
    ParseSevenParts(h, parts, index, total, chunk);
  }

  lemma {:induction false} ParseOwnFrame(h: Hashes, name: string, raw: seq<byte>, index: nat, total: nat,
      chunk: seq<byte>, text: string)
    requires ':' !in name && text == FrameText(h, name, Digest(h, raw), index, total, chunk)
    ensures ParseFrame(h, text) == Ok(Frame(name, Item(index, total, Digest(h, raw), chunk)))
  {
    var parts := SplitAtMost(text, ':', 6);
    SplitOwnFrame(h, name, raw, index, total, chunk);
    ParseListed(h, parts, name, Digest(h, raw), index, total, Checksum(h, chunk), B.Encoded(chunk), chunk);
    ParseSplit(h, text, parts, Frame(name, Item(index, total, Digest(h, raw), chunk)));
  }

  /** What each own frame should parse as. */
  function OwnFrame(h: Hashes, name: string, raw: seq<byte>, chunks: seq<seq<byte>>, i: nat): Frame
    requires i < |chunks|
  {
    Frame(name, Item(i + 1, |chunks|, Digest(h, raw), chunks[i]))
  }

  lemma {:induction false} ParseOwnAt(h: Hashes, name: string, raw: seq<byte>, chunks: seq<seq<byte>>, i: nat)
    requires ':' !in name && i < |chunks|
    ensures ParseFrame(h, FrameTexts(h, name, raw, chunks)[i]) == Ok(OwnFrame(h, name, raw, chunks, i))
  {
    FrameAt(h, name, raw, chunks, i);
    ParseOwnFrame(h, name, raw, i + 1, |chunks|, chunks[i], FrameTexts(h, name, raw, chunks)[i]);
  }

  lemma {:induction false} OwnItemsComplete(h: Hashes, order: seq<Item>, raw: seq<byte>, chunks: seq<seq<byte>>)
    requires |order| == |chunks| && chunks != [] && Flat(chunks) == raw
    requires forall i | 0 <= i < |order| :: order[i] == Item(i + 1, |chunks|, Digest(h, raw), chunks[i])
    ensures Complete(h, order, raw)
  {
    assert ChunksOf(order) == chunks;
  }

  lemma {:induction false} ParsedAsOwn(h: Hashes, name: string, raw: seq<byte>, chunks: seq<seq<byte>>,
      texts: seq<string>)
    requires chunks != [] && Flat(chunks) == raw && |texts| == |chunks|
    requires forall i | 0 <= i < |texts| :: ParseFrame(h, texts[i]) == Ok(OwnFrame(h, name, raw, chunks, i))
    ensures Restored(h, texts) == Ok(raw)
  {
    OwnItemsComplete(h, ItemsOf(h, texts), raw, chunks);
    RestoredIffAccepts(h, texts, raw);
  }

  lemma {:induction false} RoundTrip(h: Hashes, name: string, raw: seq<byte>, chunks: seq<seq<byte>>)
    requires ':' !in name && chunks != [] && Flat(chunks) == raw
    ensures Restored(h, FrameTexts(h, name, raw, chunks)) == Ok(raw)
  {
    forall i | 0 <= i < |chunks|
      ensures ParseFrame(h, FrameTexts(h, name, raw, chunks)[i]) == Ok(OwnFrame(h, name, raw, chunks, i))
    {
      ParseOwnAt(h, name, raw, chunks, i);
    }
    ParsedAsOwn(h, name, raw, chunks, FrameTexts(h, name, raw, chunks));
  }

  // ---- a ':' in the archive name ----

  /** The text every frame then carries where its index should be. */
  function ColonIndex(h: Hashes, name: string, raw: seq<byte>): string
    requires ':' in name
  {
    (["SQR1"] + Split(name, ':') + [Digest(h, raw)])[3]
  }

  lemma {:induction false} ParsedIndex(h: Hashes, text: string)
    requires ParseFrame(h, text).Ok?
    ensures |SplitAtMost(text, ':', 6)| == 7
    ensures ParseInt(SplitAtMost(text, ':', 6)[3]) == Some(ParseFrame(h, text).value.item.index)
  {
  }

  lemma {:induction false} FourthField(h: Hashes, name: string, raw: seq<byte>, i: nat, total: nat, chunk: seq<byte>)
    requires ':' in name
    ensures |SplitAtMost(FrameText(h, name, Digest(h, raw), i, total, chunk), ':', 6)| == 7
    ensures SplitAtMost(FrameText(h, name, Digest(h, raw), i, total, chunk), ':', 6)[3] == ColonIndex(h, name, raw)
  {
    SplitFrame(h, name, raw, i, total, chunk);
    var front := ["SQR1"] + Split(name, ':') + [Digest(h, raw)];
    var back := [Padded(i, 4), Padded(total, 4), Checksum(h, chunk)];
    assert HeaderFields(h, name, raw, i, total, chunk) == front + back;
    assert (front + back)[..6][3] == front[3];
  }

  lemma {:induction false} ColonFixesIndex(h: Hashes, name: string, raw: seq<byte>, chunks: seq<seq<byte>>, i: nat)
    requires ':' in name && i < |chunks|
    requires ParseFrame(h, FrameTexts(h, name, raw, chunks)[i]).Ok?
    ensures ParseInt(ColonIndex(h, name, raw)) ==
            Some(ParseFrame(h, FrameTexts(h, name, raw, chunks)[i]).value.item.index)
  {
    FrameAt(h, name, raw, chunks, i);
    FourthField(h, name, raw, i + 1, |chunks|, chunks[i]);
    ParsedIndex(h, FrameTexts(h, name, raw, chunks)[i]);
  }

  lemma {:induction false} ParsedChunk(h: Hashes, text: string)
    requires ParseFrame(h, text).Ok?
    ensures |SplitAtMost(text, ':', 6)| == 7
    ensures B.Decoded(SplitAtMost(text, ':', 6)[6]) == Ok(ParseFrame(h, text).value.item.chunk)
  {
  }

  lemma {:induction false} LongerPayload(fields: seq<string>, payload: string)
    requires |fields| >= 7
    ensures |Headed(fields[6..]) + payload| > |payload|
  {
    assert fields[6..] != [];
    assert |Headed(fields[6..])| > 0;
  }

  /** Part of the header is then decoded in front of the payload. */
  lemma {:induction false} ColonSpoilsPayload(h: Hashes, name: string, raw: seq<byte>, i: nat, total: nat,
      chunk: seq<byte>, text: string)
    requires ':' in name && text == FrameText(h, name, Digest(h, raw), i, total, chunk)
    requires ParseFrame(h, text).Ok?
    ensures ParseFrame(h, text).value.item.chunk != chunk
  {
    ParsedChunk(h, text);
    SplitFrame(h, name, raw, i, total, chunk);
    LongerPayload(HeaderFields(h, name, raw, i, total, chunk), B.Encoded(chunk));
    B.AcceptedTexts(SplitAtMost(text, ':', 6)[6], chunk);
  }

  lemma {:induction false} OneItem(items: seq<Item>, order: seq<Item>)
    requires |items| == 1 && multiset(order) == multiset(items)
    ensures Flat(ChunksOf(order)) == items[0].chunk
  {
    assert |multiset(items)| == |items| && |multiset(order)| == |order|;
    assert order[0] in multiset(items);
    assert ChunksOf(order) == [items[0].chunk];
    FlatOne(items[0].chunk);
  }

  lemma {:induction false} SameIndexNotNumbered(items: seq<Item>, order: seq<Item>)
    requires |items| >= 2 && forall i | 0 <= i < |items| :: items[i].index == items[0].index
    requires multiset(order) == multiset(items)
    ensures !Numbered(order)
  {
    assert |multiset(items)| == |items| && |multiset(order)| == |order|;
    assert order[0] in multiset(items) && order[1] in multiset(items);
  }

  lemma {:induction false} ManyFramesCollide(h: Hashes, texts: seq<string>, index: Option<int>)
    requires AllParse(h, texts)
    requires forall i | 0 <= i < |texts| :: index == Some(ParseFrame(h, texts[i]).value.item.index)
    ensures forall i | 0 <= i < |texts| :: ItemsOf(h, texts)[i].index == ItemsOf(h, texts)[0].index
  {
  }

  lemma {:induction false} ManyNotNumbered(h: Hashes, name: string, raw: seq<byte>, chunks: seq<seq<byte>>,
      texts: seq<string>, order: seq<Item>)
    requires ':' in name && |chunks| >= 2 && texts == FrameTexts(h, name, raw, chunks) && AllParse(h, texts)
    requires multiset(order) == multiset(ItemsOf(h, texts))
    ensures !Numbered(order)
  {
    forall i | 0 <= i < |texts|
      ensures ParseInt(ColonIndex(h, name, raw)) == Some(ParseFrame(h, texts[i]).value.item.index)
    {
      ColonFixesIndex(h, name, raw, chunks, i);
    }
    ManyFramesCollide(h, texts, ParseInt(ColonIndex(h, name, raw)));
    SameIndexNotNumbered(ItemsOf(h, texts), order);
  }

  lemma {:induction false} OneParsed(h: Hashes, text: string, chunk: seq<byte>, order: seq<Item>)
    requires AllParse(h, [text]) && ParseFrame(h, text).Ok? && ParseFrame(h, text).value.item.chunk != chunk
    requires multiset(order) == multiset(ItemsOf(h, [text]))
    ensures Flat(ChunksOf(order)) != chunk
  {
    OneItem(ItemsOf(h, [text]), order);
  }

  lemma {:induction false} OneSpoiled(h: Hashes, name: string, chunk: seq<byte>, text: string, order: seq<Item>)
    requires ':' in name && text == FrameText(h, name, Digest(h, chunk), 1, 1, chunk)
    requires AllParse(h, [text]) && multiset(order) == multiset(ItemsOf(h, [text]))
    ensures Flat(ChunksOf(order)) != chunk
  {
    assert [text][0] == text;
    ColonSpoilsPayload(h, name, chunk, 1, 1, chunk, text);
    OneParsed(h, text, chunk, order);
  }

  lemma {:induction false} SingleSpoiled(h: Hashes, name: string, chunk: seq<byte>, chunks: seq<seq<byte>>,
      texts: seq<string>, order: seq<Item>)
    requires ':' in name && |chunks| == 1 && chunks[0] == chunk && texts == FrameTexts(h, name, chunk, chunks)
    requires AllParse(h, texts) && multiset(order) == multiset(ItemsOf(h, texts))
    ensures Flat(ChunksOf(order)) != chunk
  {
    FrameAt(h, name, chunk, chunks, 0);
    assert texts == [texts[0]];
    OneSpoiled(h, name, chunk, texts[0], order);
  }

  lemma {:induction false} ColonNotAccepted(h: Hashes, name: string, raw: seq<byte>, chunks: seq<seq<byte>>,
      texts: seq<string>, order: seq<Item>)
    requires ':' in name && Flat(chunks) == raw && chunks != []
    requires texts == FrameTexts(h, name, raw, chunks) && AllParse(h, texts)
    requires multiset(order) == multiset(ItemsOf(h, texts))
    ensures !Numbered(order) || Flat(ChunksOf(order)) != raw
  {
    if |chunks| >= 2 {
      ManyNotNumbered(h, name, raw, chunks, texts, order);
    } else {
      FlatOne(chunks[0]);
      assert chunks == [chunks[0]];
      SingleSpoiled(h, name, raw, chunks, texts, order);
    }
  }

  lemma {:induction false} ColonBreaksRoundTrip(h: Hashes, name: string, raw: seq<byte>, chunks: seq<seq<byte>>)
    requires ':' in name && Flat(chunks) == raw
    ensures Restored(h, FrameTexts(h, name, raw, chunks)) != Ok(raw)
  {
    var texts := FrameTexts(h, name, raw, chunks);
    RestoredIffAccepts(h, texts, raw);
    if Accepts(h, texts, raw) {
      var items := Items(ParseAll(h, texts).value);
      var order: seq<Item> :| multiset(order) == multiset(items) && Complete(h, order, raw);
      assert |multiset(items)| == |items| && |multiset(order)| == |order|;
      ColonNotAccepted(h, name, raw, chunks, texts, order);
    }
  }

  /** Restoring what was made gives the archive back exactly when the archive is not empty, the chunk
      size is positive, and the archive's name has no ':'. */
  lemma {:induction false} RoundTripExactly(h: Hashes, upper: string, raw: seq<byte>, chunkSize: int)
    ensures (Made(h, upper, raw, chunkSize).Ok? &&
             Restored(h, Made(h, upper, raw, chunkSize).value) == Ok(raw))
            <==> raw != [] && chunkSize >= 1 && ':' !in upper
  {
    var name := SafeName(upper);
    if chunkSize >= 1 {
      var chunks := Chunks(raw, chunkSize);
      if ':' in name {
        ColonBreaksRoundTrip(h, name, raw, chunks);
      } else if raw != [] {
        RoundTrip(h, name, raw, chunks);
      }
    }
  }

  // ---- foreign frames, when SHA-256 tells the two archives apart ----

  ghost predicate NoCollision(h: Hashes, x: seq<byte>, y: seq<byte>) {
    h.sha256(x) == h.sha256(y) ==> x == y
  }

  lemma {:induction false} HexByteTells(a: byte, b: byte)
    requires Hex(a, 2) == Hex(b, 2)
    ensures a == b
  {
    assert Power16(2) == 16 * Power16(1) == 256;
    HexTells(a, b, 2);
  }

  lemma {:induction false} HexBytesTell(x: seq<byte>, y: seq<byte>)
    requires HexBytes(x) == HexBytes(y)
    ensures x == y
    decreases |x|
  {
    if x != [] && y != [] {
      var s := HexBytes(x);
      assert s[..2] == Hex(x[0], 2) && s[..2] == Hex(y[0], 2);
      assert s[2..] == HexBytes(x[1..]) && s[2..] == HexBytes(y[1..]);
      HexByteTells(x[0], y[0]);
      HexBytesTell(x[1..], y[1..]);
      assert x == [x[0]] + x[1..] && y == [y[0]] + y[1..];
    }
  }

  /** Any accepted list with a single frame of an archive in it restores that very archive, whatever the
      other frames are, unless SHA-256 takes the two archives for one. */
  lemma {:induction false} OneFrameDecides(h: Hashes, upper: string, raw: seq<byte>, chunkSize: int, texts: seq<string>,
      restored: seq<byte>, i: nat, j: nat)
    requires raw != [] && chunkSize >= 1 && ':' !in upper
    requires var made := Made(h, upper, raw, chunkSize); j < |made.value| && i < |texts| && texts[i] == made.value[j]
    requires Restored(h, texts) == Ok(restored) && NoCollision(h, restored, raw)
    ensures restored == raw
  {
    var frames := Made(h, upper, raw, chunkSize).value;
    RoundTripExactly(h, upper, raw, chunkSize);
    NoForeignFrames(h, texts, frames, restored, raw, i, j, i);
    HexBytesTell(h.sha256(restored), h.sha256(raw));
  }

  // ---- the image restorer ----

  /** What the QR reader reports for one image: nothing, or a text. */
  type Reading = Option<string>

  function ParseReading(h: Hashes, reading: Reading): Result<Frame, Refusal> {
    if reading.None? || reading.value == "" then Err(QrFailed) else ParseFrame(h, reading.value)
  }

  function ParseReadings(h: Hashes, readings: seq<Reading>): (r: Result<seq<Frame>, Refusal>)
    ensures r.Ok? <==> forall i | 0 <= i < |readings| :: ParseReading(h, readings[i]).Ok?
    ensures r.Ok? ==> |r.value| == |readings| &&
                      forall i | 0 <= i < |readings| :: r.value[i] == ParseReading(h, readings[i]).value
  {
    Each((reading: Reading) => ParseReading(h, reading), readings)
  }

  predicate FrameBefore(a: Frame, b: Frame) {
    a.item.index < b.item.index
  }

  /** The image restorer's checks, in its own order: count, agreement with the first image, sequence, digest. */
  function RestoredFrames(h: Hashes, frames: seq<Frame>): Result<seq<byte>, Refusal> {
    if frames == [] then Err(NoFrames)
    else
      var first := frames[0];
      if |frames| != first.item.total then Err(SequenceMismatch)
      else if exists i | 0 <= i < |frames| :: frames[i].name != first.name ||
                   frames[i].item.digest != first.item.digest || frames[i].item.total != first.item.total then
        Err(SetMismatch)
      else
        var sorted := SortBy(FrameBefore, frames);
        var raw := Flat(ChunksOf(Items(sorted)));
        if !Numbered(Items(sorted)) then Err(SequenceMismatch)
        else if Digest(h, raw) != first.item.digest then Err(DigestMismatch)
        else Ok(raw)
  }

  function RestoredFromImages(h: Hashes, readings: seq<Reading>): Result<seq<byte>, Refusal> {
    match ParseReadings(h, readings)
    case Err(e) => Err(e)
    case Ok(frames) => RestoredFrames(h, frames)
  }

  ghost predicate OneName(frames: seq<Frame>) {
    forall i | 0 <= i < |frames| :: frames[i].name == frames[0].name
  }

  lemma {:induction false} SortedFramesItems(frames: seq<Frame>)
    ensures multiset(Items(SortBy(FrameBefore, frames))) == multiset(Items(frames))
  {
    var f := (frame: Frame) => frame.item;
    var sorted := SortBy(FrameBefore, frames);
    MappedPermutes(f, sorted, frames);
    assert Mapped(f, sorted) == Items(sorted) && Mapped(f, frames) == Items(frames);
  }

  /** Sorting frames by index alone numbers them whenever any arrangement does. */
  lemma {:induction false} SortedFramesNumbered(frames: seq<Frame>, order: seq<Item>)
    requires multiset(order) == multiset(Items(frames)) && Numbered(order)
    ensures Items(SortBy(FrameBefore, frames)) == order
  {
    var sorted := Items(SortBy(FrameBefore, frames));
    SortedFramesItems(frames);
    ItemLessTotal();
    forall i, j | 0 <= i < j < |sorted| ensures !ItemLess(sorted[j], sorted[i]) {
      assert sorted[i] in multiset(order) && sorted[j] in multiset(order);
      var p :| 0 <= p < |order| && order[p] == sorted[i];
      var q :| 0 <= q < |order| && order[q] == sorted[j];
      assert !FrameBefore(SortBy(FrameBefore, frames)[j], SortBy(FrameBefore, frames)[i]);
      assert p == q ==> sorted[i] == sorted[j];
    }
    SortedUnique(ItemLess, sorted, order);
  }

  lemma {:induction false} ImagesRestoreItems(h: Hashes, frames: seq<Frame>, raw: seq<byte>)
    requires RestoredFrames(h, frames) == Ok(raw)
    ensures RestoredItems(h, Items(frames)) == Ok(raw) && OneName(frames)
  {
    var sorted := SortBy(FrameBefore, frames);
    var order := Items(sorted);
    SortedFramesItems(frames);
    forall i | 0 <= i < |order|
      ensures order[i].total == |order| && order[i].digest == Digest(h, raw)
    {
      assert sorted[i] in multiset(frames);
    }
    AcceptedIsRestored(h, Items(frames), order, raw);
  }

  lemma {:induction false} ItemsRestoreImages(h: Hashes, frames: seq<Frame>, raw: seq<byte>)
    requires RestoredItems(h, Items(frames)) == Ok(raw) && OneName(frames)
    ensures RestoredFrames(h, frames) == Ok(raw)
  {
    var items := Items(frames);
    var order := SortItems(items);
    RestoredIsComplete(h, items, raw);
    SortedFramesNumbered(frames, order);
    forall i | 0 <= i < |frames|
      ensures items[i].total == |frames| && items[i].digest == Digest(h, raw)
    {
      assert items[i] in multiset(order);
    }
  }

  /** All frames name the archive, digest and total the first one names. */
  ghost predicate OneSet(frames: seq<Frame>) {
    forall i | 0 <= i < |frames| ::
      frames[i].name == frames[0].name && frames[i].item.digest == frames[0].item.digest &&
      frames[i].item.total == frames[0].item.total
  }

  /** What read images are refused for: too few or too many for the first one's total, disagreement with the
      first one, no sequence, or not the archive they name. */
  lemma {:induction false} ImagesRefusedAs(h: Hashes, frames: seq<Frame>)
    ensures var r := RestoredFrames(h, frames);
            if frames == [] then r == Err(NoFrames)
            else if |frames| != frames[0].item.total then r == Err(SequenceMismatch)
            else if !OneSet(frames) then r == Err(SetMismatch)
            else
              && ((forall order: seq<Item> :: !Arranged(Items(frames), order)) ==> r == Err(SequenceMismatch))
              && forall order: seq<Item> | Arranged(Items(frames), order) ::
                   r == if HexBytes(h.sha256(Flat(ChunksOf(order)))) != frames[0].item.digest then Err(DigestMismatch)
                        else Ok(Flat(ChunksOf(order)))
  {
    if frames != [] {
      var sorted := Items(SortBy(FrameBefore, frames));
      SortedFramesItems(frames);
      forall order | Arranged(Items(frames), order) ensures sorted == order {
        SortedFramesNumbered(frames, order);
      }
      assert Numbered(sorted) ==> Arranged(Items(frames), sorted);
    }
  }

  /** An image without a readable code, or with an empty text, stops the image restorer if none before it does. */
  lemma {:induction false} UnreadImage(h: Hashes, readings: seq<Reading>, k: nat)
    requires k < |readings| && readings[k] in {None, Some("")}
    requires forall i | 0 <= i < k :: ParseReading(h, readings[i]).Ok?
    ensures RestoredFromImages(h, readings) == Err(QrFailed)
  {
    FirstOfEach((reading: Reading) => ParseReading(h, reading), readings, k);
  }

  ghost predicate AllRead(readings: seq<Reading>) {
    forall i | 0 <= i < |readings| :: readings[i].Some?
  }

  ghost function TextsOf(readings: seq<Reading>): (texts: seq<string>)
    requires AllRead(readings)
    ensures |texts| == |readings| && forall i | 0 <= i < |texts| :: texts[i] == readings[i].value
  {
    seq(|readings|, i requires 0 <= i < |readings| => readings[i].value)
  }

  lemma {:induction false} EmptyTextIsNoFrame(h: Hashes)
    ensures ParseFrame(h, "").Err?
  {
    assert SplitAtMost("", ':', 6) == [""];
  }

  lemma {:induction false} ReadingsAreTexts(h: Hashes, readings: seq<Reading>)
    requires AllRead(readings)
    ensures ParseReadings(h, readings).Ok? <==> ParseAll(h, TextsOf(readings)).Ok?
    ensures ParseReadings(h, readings).Ok? ==>
              ParseReadings(h, readings).value == ParseAll(h, TextsOf(readings)).value
  {
    EmptyTextIsNoFrame(h);
    var texts := TextsOf(readings);
    forall i | 0 <= i < |readings|
      ensures ParseReading(h, readings[i]).Ok? <==> ParseFrame(h, texts[i]).Ok?
      ensures ParseReading(h, readings[i]).Ok? ==> ParseReading(h, readings[i]) == ParseFrame(h, texts[i])
    {
    }
  }

  /** The image restorer returns bytes exactly when every image was read, the text restorer returns
      the same bytes from the texts read, and all frames carry one archive name. */
  lemma {:induction false} RestorersAgree(h: Hashes, readings: seq<Reading>, raw: seq<byte>)
    ensures RestoredFromImages(h, readings) == Ok(raw) <==>
              AllRead(readings) &&
              Restored(h, TextsOf(readings)) == Ok(raw) &&
              OneName(ParseAll(h, TextsOf(readings)).value)
  {
    if AllRead(readings) {
      ReadingsAreTexts(h, readings);
      if ParseReadings(h, readings).Ok? {
        var frames := ParseReadings(h, readings).value;
        if RestoredFrames(h, frames) == Ok(raw) {
          ImagesRestoreItems(h, frames, raw);
        } else if RestoredItems(h, Items(frames)) == Ok(raw) && OneName(frames) {
          ItemsRestoreImages(h, frames, raw);
        }
      }
    }
  }
}
