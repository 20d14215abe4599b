/** Base45 as the QR transfer tool packs and unpacks it (section 4 of RFC 9285). */
module Base45 {
  import opened Wrappers

  type byte = x: int | 0 <= x < 256

  /** KeyError for a character outside the alphabet, IndexError for a single left-over character,
      ValueError for a group whose value does not fit its bytes. */
  datatype Refusal = UnknownCharacter | LeftOver | TripletTooLarge | PairTooLarge

  /** The alphabet: ten digits, twenty-six capitals, nine further characters. */
  function Letter(v: nat): char
    requires v < 45
  {
    if v < 10 then '0' + v as char
    else if v < 36 then 'A' + (v - 10) as char
    else " $%*+-./:"[v - 36]
  }

  /** The inverse table. */
  function Value(c: char): (r: Option<nat>)
    ensures r.Some? ==> r.value < 45 && Letter(r.value) == c
  {
    if '0' <= c <= '9' then Some((c - '0') as nat)
    else if 'A' <= c <= 'Z' then Some((c - 'A') as nat + 10)
    else if c == ' ' then Some(36)
    else if c == '$' then Some(37)
    else if c == '%' then Some(38)
    else if c == '*' then Some(39)
    else if c == '+' then Some(40)
    else if c == '-' then Some(41)
    else if c == '.' then Some(42)
    else if c == '/' then Some(43)
    else if c == ':' then Some(44)
    else None
  }

  lemma {:induction false} ValueOfLetter(v: nat)
    requires v < 45
    ensures Value(Letter(v)) == Some(v)
  {
    if v >= 36 {
      assert v == 36 || v == 37 || v == 38 || v == 39 || v == 40 || v == 41 || v == 42 || v == 43 || v == 44;
    }
  }

  // ---- one group ----

  function EncodePair(a: byte, b: byte): string {
    EncodeValue(a * 256 + b)
  }

  function EncodeValue(value: nat): string
    requires value < 65536
  {
    [Letter(value % 45), Letter((value / 45) % 45), Letter(value / 2025)]
  }

  function EncodeLast(a: byte): string {
    [Letter(a % 45), Letter(a / 45)]
  }

  function DecodeTriplet(c: char, d: char, e: char): Result<seq<byte>, Refusal> {
    match (Value(c), Value(d), Value(e))
    case (Some(x), Some(y), Some(z)) =>
      var value := x + y * 45 + z * 2025;
      if value > 65535 then Err(TripletTooLarge) else Ok([value / 256, value % 256])
    case _ => Err(UnknownCharacter)
  }

  function DecodePair(c: char, d: char): Result<seq<byte>, Refusal> {
    match (Value(c), Value(d))
    case (Some(x), Some(y)) =>
      var value := x + y * 45;
      if value > 255 then Err(PairTooLarge) else Ok([value])
    case _ => Err(UnknownCharacter)
  }

  lemma {:induction false} ThreeDigits(value: nat)
    ensures value == value % 45 + (value / 45 % 45) * 45 + (value / 2025) * 2025
    ensures value < 65536 ==> value / 2025 < 45
  {
    var q := value / 45;
    assert value == 45 * q + value % 45 && q == 45 * (q / 45) + q % 45;
    assert value / 2025 == q / 45;
  }

  lemma {:induction false} DigitsUnique(x: nat, y: nat, z: nat, p: nat, q: nat, r: nat)
    requires x < 45 && y < 45 && p < 45 && q < 45
    requires x + y * 45 + z * 2025 == p + q * 45 + r * 2025
    ensures x == p && y == q && z == r
  {
    assert x - p == 45 * (q + r * 45 - y - z * 45);
    assert y - q == 45 * (r - z);
  }

  lemma {:induction false} TwoBytes(value: nat)
    requires value < 65536
    ensures value / 256 < 256 && value / 256 * 256 + value % 256 == value
  {
  }

  lemma {:induction false} OneValue(a: byte, b: byte)
    ensures (a * 256 + b) / 256 == a && (a * 256 + b) % 256 == b && a * 256 + b < 65536
  {
  }

  /** Three letters stand for one value below 65536, and name it by its base-45 digits. */
  lemma {:induction false} TripletOf(value: nat)
    requires value < 65536
    ensures var t := EncodeValue(value);
            |t| == 3 && DecodeTriplet(t[0], t[1], t[2]) == Ok([value / 256, value % 256])
  {
    ThreeDigits(value);
    ValueOfLetter(value % 45);
    ValueOfLetter((value / 45) % 45);
    ValueOfLetter(value / 2025);
  }

  lemma {:induction false} ValueRoundTrip(value: nat, a: byte, b: byte)
    requires value < 65536 && value / 256 == a && value % 256 == b
    ensures var t := EncodeValue(value); DecodeTriplet(t[0], t[1], t[2]) == Ok([a, b])
  {
    TripletOf(value);
  }

  lemma {:induction false} PairRoundTrip(a: byte, b: byte)
    ensures var t := EncodePair(a, b); DecodeTriplet(t[0], t[1], t[2]) == Ok([a, b])
  {
    OneValue(a, b);
    ValueRoundTrip(a * 256 + b, a, b);
  }

  lemma {:induction false} LastRoundTrip(a: byte)
    ensures var t := EncodeLast(a); DecodePair(t[0], t[1]) == Ok([a])
  {
    ValueOfLetter(a % 45);
    ValueOfLetter(a / 45);
  }

  lemma {:induction false} LettersOf(value: nat, x: nat, y: nat, z: nat)
    requires value == x + y * 45 + z * 2025 && value < 65536
    requires x < 45 && y < 45
    ensures value % 45 == x && (value / 45) % 45 == y && value / 2025 == z
  {
    ThreeDigits(value);
    DigitsUnique(x, y, z, value % 45, (value / 45) % 45, value / 2025);
  }

  lemma {:induction false} TripletRoundTrip(c: char, d: char, e: char)
    requires DecodeTriplet(c, d, e).Ok?
    ensures var bytes := DecodeTriplet(c, d, e).value;
            |bytes| == 2 && EncodePair(bytes[0], bytes[1]) == [c, d, e]
  {
    var x, y, z := Value(c).value, Value(d).value, Value(e).value;
    var value := x + y * 45 + z * 2025;
    TwoBytes(value);
    LettersOf(value, x, y, z);
  }

  lemma {:induction false} TwoDigits(x: nat, y: nat)
    requires x < 45
    ensures (x + y * 45) % 45 == x && (x + y * 45) / 45 == y
  {
  }

  lemma {:induction false} PairTextRoundTrip(c: char, d: char)
    requires DecodePair(c, d).Ok?
    ensures var bytes := DecodePair(c, d).value; |bytes| == 1 && EncodeLast(bytes[0]) == [c, d]
  {
    TwoDigits(Value(c).value, Value(d).value);
  }

  // ---- whole texts ----

  function Encoded(data: seq<byte>): string {
    if data == [] then ""
    else if |data| == 1 then EncodeLast(data[0])
    else EncodePair(data[0], data[1]) + Encoded(data[2..])
  }

  function Prepend(front: seq<byte>, rest: Result<seq<byte>, Refusal>): Result<seq<byte>, Refusal> {
    if rest.Ok? then Ok(front + rest.value) else rest
  }

  function Decoded(text: string): Result<seq<byte>, Refusal> {
    if text == "" then Ok([])
    else if |text| == 1 then Err(if Value(text[0]).None? then UnknownCharacter else LeftOver)
    else if |text| == 2 then DecodePair(text[0], text[1])
    else
      var head := DecodeTriplet(text[0], text[1], text[2]);
      if head.Err? then head else Prepend(head.value, Decoded(text[3..]))
  }

  lemma {:induction false} EncodedStep(data: seq<byte>, index: nat)
    requires index + 1 < |data|
    ensures Encoded(data[index..]) == EncodePair(data[index], data[index + 1]) + Encoded(data[index + 2..])
  {
    assert data[index..][2..] == data[index + 2..];
  }

  method Encode(data: seq<byte>) returns (text: string)
    ensures text == Encoded(data)
  {
    text := "";
    var index := 0;
    assert data[0..] == data;
    while index + 1 < |data|
      invariant 0 <= index <= |data|
      invariant text + Encoded(data[index..]) == Encoded(data)
    {
      EncodedStep(data, index);
      text := text + EncodePair(data[index], data[index + 1]);
      index := index + 2;
    }
    assert index < |data| ==> data[index..] == [data[index]];
    if index < |data| {
      text := text + [Letter(data[index] % 45), Letter(data[index] / 45)];
    }
  }

  lemma {:induction false} DecodedStep(text: string, index: nat, output: seq<byte>)
    requires index + 3 <= |text|
    ensures var group := DecodeTriplet(text[index], text[index + 1], text[index + 2]);
            Prepend(output, Decoded(text[index..])) ==
            if group.Err? then group else Prepend(output + group.value, Decoded(text[index + 3..]))
  {
    var group := DecodeTriplet(text[index], text[index + 1], text[index + 2]);
    assert text[index..][3..] == text[index + 3..];
    var tail := Decoded(text[index + 3..]);
    if group.Ok? && tail.Ok? {
      assert output + (group.value + tail.value) == output + group.value + tail.value;
    }
  }

  lemma {:induction false} PrependNothing(r: Result<seq<byte>, Refusal>)
    ensures Prepend([], r) == r
  {
    assert r.Ok? ==> [] + r.value == r.value;
  }

  method Decode(text: string) returns (r: Result<seq<byte>, Refusal>)
    ensures r == Decoded(text)
  {
    var output: seq<byte> := [];
    var index := 0;
    assert text[0..] == text;
    PrependNothing(Decoded(text));
    while index < |text|
      invariant 0 <= index <= |text|
      invariant Prepend(output, Decoded(text[index..])) == Decoded(text)
    {
      if |text| - index >= 3 {
        DecodedStep(text, index, output);
        var group := DecodeTriplet(text[index], text[index + 1], text[index + 2]);
        if group.Err? {
          return group;
        }
        output := output + group.value;
        index := index + 3;
      } else {
        ghost var rest := text[index..];
        if Value(text[index]).None? {
          return Err(UnknownCharacter);
        }
        if index + 1 == |text| {
          return Err(LeftOver);
        }
        var group := DecodePair(text[index], text[index + 1]);
        if group.Err? {
          return group;
        }
        assert Prepend(output, Decoded(rest)) == Ok(output + group.value);
        return Ok(output + group.value);
      }
    }
    assert text[index..] == "" && output + [] == output;
    return Ok(output);
  }

  lemma {:induction false} DecodeEncode(data: seq<byte>)
    ensures Decoded(Encoded(data)) == Ok(data)
  {
    if |data| == 0 {
    } else if |data| == 1 {
      LastRoundTrip(data[0]);
      assert data == [data[0]];
    } else {
      var t := EncodePair(data[0], data[1]);
      PairRoundTrip(data[0], data[1]);
      DecodeEncode(data[2..]);
      assert (t + Encoded(data[2..]))[3..] == Encoded(data[2..]);
      assert data == [data[0], data[1]] + data[2..];
    }
  }

  lemma {:induction false} EncodedTwo(head: seq<byte>, tail: seq<byte>)
    requires |head| == 2
    ensures Encoded(head + tail) == EncodePair(head[0], head[1]) + Encoded(tail)
  {
    assert (head + tail)[2..] == tail;
  }

  lemma {:induction false} ThreeAndRest(text: string)
    requires |text| >= 3
    ensures text == [text[0], text[1], text[2]] + text[3..]
  {
  }

  /** Every accepted text is the canonical text of the bytes it decodes to. */
  lemma {:induction false} EncodeDecode(text: string)
    requires Decoded(text).Ok?
    ensures Encoded(Decoded(text).value) == text
  {
    if |text| == 0 {
    } else if |text| == 2 {
      PairTextRoundTrip(text[0], text[1]);
      assert text == [text[0], text[1]];
    } else {
      TripletRoundTrip(text[0], text[1], text[2]);
      EncodeDecode(text[3..]);
      EncodedTwo(DecodeTriplet(text[0], text[1], text[2]).value, Decoded(text[3..]).value);
      ThreeAndRest(text);
    }
  }

  /** No two texts decode alike, and the accepted texts are exactly the encodings. */
  lemma {:induction false} AcceptedTexts(text: string, data: seq<byte>)
    ensures Decoded(text) == Ok(data) <==> text == Encoded(data)
  {
    DecodeEncode(data);
    if Decoded(text).Ok? {
      EncodeDecode(text);
    }
  }

  lemma {:induction false} GroupText(a: byte, b: byte, x: nat, y: nat, z: nat)
    requires a * 256 + b == x + y * 45 + z * 2025 && x < 45 && y < 45 && z < 45
    ensures EncodePair(a, b) == [Letter(x), Letter(y), Letter(z)]
  {
    OneValue(a, b);
    LettersOf(a * 256 + b, x, y, z);
  }

  lemma {:induction false} EncodedSeven(data: seq<byte>)
    requires |data| == 7
    ensures Encoded(data) ==
            EncodePair(data[0], data[1]) +
            (EncodePair(data[2], data[3]) + (EncodePair(data[4], data[5]) + EncodeLast(data[6])))
  {
    assert data[2..][2..] == data[4..] && data[4..][2..] == data[6..] && data[6..] == [data[6]];
    assert Encoded(data[4..]) == EncodePair(data[4], data[5]) + Encoded(data[6..]);
    assert Encoded(data[2..]) == EncodePair(data[2], data[3]) + Encoded(data[4..]);
  }

  /** The first two examples of section 4.3 of RFC 9285: "AB" and "Hello!!". */
  lemma {:induction false} PublishedExamples(ab: seq<byte>, hello: seq<byte>)
    requires ab == [65, 66] && hello == [72, 101, 108, 108, 111, 33, 33]
    ensures Encoded(ab) == "BB8" && Encoded(hello) == "%69 VD92EX0"
  {
    assert ab[2..] == [];
    GroupText(ab[0], ab[1], 11, 11, 8);
    EncodedSeven(hello);
    GroupText(hello[0], hello[1], 38, 6, 9);
    GroupText(hello[2], hello[3], 36, 31, 13);
    GroupText(hello[4], hello[5], 9, 2, 14);
  }
}
