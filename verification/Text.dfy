/** The string operations the modelled Python code uses: `str.split`, fixed-width formatting, `int`. */
module Text {
  import opened Wrappers
  import opened Orders

  /** `s.split(sep, limit)`: at most `limit` cuts, from the left. */
  function SplitAtMost(s: string, sep: char, limit: nat): (parts: seq<string>)
    ensures 1 <= |parts| <= limit + 1
    decreases |s|, limit
  {
    if limit == 0 || sep !in s then [s]
    else
      var cut := IndexOf(s, sep);
      [s[..cut]] + SplitAtMost(s[cut + 1..], sep, limit - 1)
  }

  predicate Free(fields: seq<string>, sep: char) {
    forall i | 0 <= i < |fields| :: sep !in fields[i]
  }

  /** `s.split(sep)`. */
  function Split(s: string, sep: char): (fields: seq<string>)
    ensures fields != [] && Free(fields, sep)
    ensures |fields| == 1 ==> fields == [s]
    ensures sep in s ==> |fields| >= 2
  {
    if sep !in s then [s]
    else
      var cut := IndexOf(s, sep);
      [s[..cut]] + Split(s[cut + 1..], sep)
  }

  /** `sep.join(fields)`. */
  function Joined(fields: seq<string>, sep: char): string
    requires fields != []
  {
    if |fields| == 1 then fields[0] else fields[0] + [sep] + Joined(fields[1..], sep)
  }

  lemma {:induction false} JoinedStep(field: string, rest: seq<string>, sep: char)
    requires rest != []
    ensures Joined([field] + rest, sep) == field + [sep] + Joined(rest, sep)
  {
    assert ([field] + rest)[1..] == rest;
  }

  lemma {:induction false} CutAt(s: string, cut: nat)
    requires cut < |s|
    ensures s == s[..cut] + [s[cut]] + s[cut + 1..]
  {
  }

  lemma {:induction false} JoinSplit(s: string, sep: char)
    ensures Joined(Split(s, sep), sep) == s
  {
    if sep in s {
      var cut := IndexOf(s, sep);
      JoinSplit(s[cut + 1..], sep);
      JoinedStep(s[..cut], Split(s[cut + 1..], sep), sep);
      CutAt(s, cut);
    }
  }

  lemma {:induction false} SplitMember(s: string, sep: char, i: nat, c: char)
    requires i < |Split(s, sep)| && c in Split(s, sep)[i]
    ensures c in s
  {
    if sep in s && i > 0 {
      SplitMember(s[IndexOf(s, sep) + 1..], sep, i - 1, c);
    }
  }

  lemma {:induction false} SplitFirst(field: string, rest: string, sep: char)
    requires sep !in field
    ensures Split(field + [sep] + rest, sep) == [field] + Split(rest, sep)
  {
    var s := field + [sep] + rest;
    assert s[..|field|] == field && s[|field|] == sep;
    IndexOfUnique(s, sep, |field|);
    assert s[|field| + 1..] == rest;
  }

  lemma {:induction false} SplitConcatStep(field: string, rest: string, b: string, sep: char)
    requires sep !in field && Split(rest + [sep] + b, sep) == Split(rest, sep) + Split(b, sep)
    ensures Split(field + [sep] + rest + [sep] + b, sep) == Split(field + [sep] + rest, sep) + Split(b, sep)
  {
    var x, y, s := Split(rest, sep), Split(b, sep), rest + [sep] + b;
    calc {
      Split(field + [sep] + rest + [sep] + b, sep);
      { assert field + [sep] + rest + [sep] + b == field + [sep] + s; }
      Split(field + [sep] + s, sep);
      { SplitFirst(field, s, sep); }
      [field] + (x + y);
      { assert [field] + (x + y) == ([field] + x) + y; }
      ([field] + x) + y;
      { SplitFirst(field, rest, sep); }
      Split(field + [sep] + rest, sep) + y;
    }
  }

  lemma {:induction false} SplitConcat(a: string, b: string, sep: char)
    ensures Split(a + [sep] + b, sep) == Split(a, sep) + Split(b, sep)
    decreases |a|
  {
    if sep !in a {
      SplitFirst(a, b, sep);
    } else {
      var cut := IndexOf(a, sep);
      var field, rest := a[..cut], a[cut + 1..];
      assert a == field + [sep] + rest;
      SplitConcat(rest, b, sep);
      SplitConcatStep(field, rest, b, sep);
    }
  }

  lemma {:induction false} SplitJoin(fields: seq<string>, sep: char)
    requires fields != [] && Free(fields, sep)
    ensures Split(Joined(fields, sep), sep) == fields
  {
    if |fields| == 1 {
      assert Split(fields[0], sep) == [fields[0]];
    } else {
      var rest := fields[1..];
      SplitJoin(rest, sep);
      SplitConcat(fields[0], Joined(rest, sep), sep);
      assert Split(fields[0], sep) == [fields[0]];
      assert fields == [fields[0]] + rest;
    }
  }

  function IndexOf(s: string, c: char): (k: nat)
    requires c in s
    ensures k < |s| && s[k] == c && c !in s[..k]
  {
    if s[0] == c then 0 else
      var k := IndexOf(s[1..], c);
      TakeShift(s, k);
      k + 1
  }

  lemma {:induction false} TakeShift(s: string, k: nat)
    requires k < |s|
    ensures s[..k + 1] == [s[0]] + s[1..][..k]
  {
  }

  lemma {:induction false} IndexOfUnique(s: string, c: char, k: nat)
    requires k < |s| && s[k] == c && c !in s[..k]
    ensures c in s && IndexOf(s, c) == k
  {
    if k > 0 {
      assert s[..k][0] == s[0];
      TakeShift(s, k - 1);
      IndexOfUnique(s[1..], c, k - 1);
    }
  }

  /** A first field free of the separator is cut off as it stands. */
  lemma {:induction false} SplitField(field: string, rest: string, sep: char, limit: nat)
    requires sep !in field && limit > 0
    ensures SplitAtMost(field + [sep] + rest, sep, limit) == [field] + SplitAtMost(rest, sep, limit - 1)
  {
    var s := field + [sep] + rest;
    assert s[..|field|] == field && s[|field|] == sep;
    IndexOfUnique(s, sep, |field|);
    assert s[|field| + 1..] == rest;
  }

  /** Only the last part may hold a separator. */
  lemma {:induction false} SplitAtMostFree(s: string, sep: char, limit: nat, i: nat)
    requires i < |SplitAtMost(s, sep, limit)| - 1
    ensures sep !in SplitAtMost(s, sep, limit)[i]
    decreases |s|, limit
  {
    if i > 0 {
      SplitAtMostFree(s[IndexOf(s, sep) + 1..], sep, limit - 1, i - 1);
    }
  }

  /** Joining the parts gives the text back. */
  lemma {:induction false} JoinSplitAtMost(s: string, sep: char, limit: nat)
    ensures Joined(SplitAtMost(s, sep, limit), sep) == s
    decreases |s|, limit
  {
    if limit > 0 && sep in s {
      var cut := IndexOf(s, sep);
      JoinSplitAtMost(s[cut + 1..], sep, limit - 1);
      JoinedStep(s[..cut], SplitAtMost(s[cut + 1..], sep, limit - 1), sep);
      CutAt(s, cut);
    }
  }

  // ---- decimal numbers ----

  predicate IsDigit(c: char) {
    '0' <= c <= '9'
  }

  function DigitValue(c: char): nat
    requires IsDigit(c)
  {
    (c - '0') as nat
  }

  function DigitChar(v: nat): (c: char)
    requires v < 10
    ensures IsDigit(c) && DigitValue(c) == v
  {
    '0' + v as char
  }

  predicate AllDigits(s: string) {
    forall i | 0 <= i < |s| :: IsDigit(s[i])
  }

  function Decimal(n: nat): (s: string)
    ensures s != "" && AllDigits(s)
  {
    if n < 10 then [DigitChar(n)] else Decimal(n / 10) + [DigitChar(n % 10)]
  }

  function Zeros(k: nat): (s: string)
    ensures |s| == k && AllDigits(s)
  {
    seq(k, i => '0')
  }

  /** `"{:0{width}d}".format(n)` for a non-negative number. */
  function Padded(n: nat, width: nat): (s: string)
    ensures s != "" && AllDigits(s) && |s| >= width
  {
    var d := Decimal(n);
    if |d| >= width then d else Zeros(width - |d|) + d
  }

  predicate IsSpace(c: char) {
    c == ' ' || '\t' <= c <= '\r' || 0x1c as char <= c <= 0x1f as char
  }

  function StripLeft(s: string): (r: string) {
    if s != "" && IsSpace(s[0]) then StripLeft(s[1..]) else s
  }

  function StripRight(s: string): (r: string) {
    if s != "" && IsSpace(s[|s| - 1]) then StripRight(s[..|s| - 1]) else s
  }

  /** Digits, with single underscores allowed between two of them. */
  function DigitsFrom(s: string, acc: nat, afterDigit: bool): Option<nat> {
    if s == "" then (if afterDigit then Some(acc) else None)
    else if IsDigit(s[0]) then DigitsFrom(s[1..], acc * 10 + DigitValue(s[0]), true)
    else if s[0] == '_' && afterDigit then DigitsFrom(s[1..], acc, false)
    else None
  }

  /** Python's `int(text)` on ASCII text; None is its ValueError. */
  function ParseInt(text: string): Option<int> {
    var s := StripRight(StripLeft(text));
    var negative := s != "" && s[0] == '-';
    var digits := if negative || (s != "" && s[0] == '+') then s[1..] else s;
    match DigitsFrom(digits, 0, false)
    case Some(v) => (var n: int := v; Some(if negative then -n else n))
    case None => None
  }

  function DigitsValue(s: string, acc: nat): nat
    requires AllDigits(s)
  {
    if s == "" then acc else DigitsValue(s[1..], acc * 10 + DigitValue(s[0]))
  }

  /** What a field of digits and nothing else reads as. */
  function Number(s: string): Option<nat> {
    if s != "" && AllDigits(s) then Some(DigitsValue(s, 0)) else None
  }

  lemma {:induction false} DigitsFromDigits(s: string, acc: nat, after: bool)
    requires AllDigits(s) && (s != "" || after)
    ensures DigitsFrom(s, acc, after) == Some(DigitsValue(s, acc))
  {
    if s != "" {
      DigitsFromDigits(s[1..], acc * 10 + DigitValue(s[0]), true);
    }
  }

  lemma {:induction false} DigitsValueAppend(a: string, b: string, acc: nat)
    requires AllDigits(a) && AllDigits(b)
    ensures DigitsValue(a + b, acc) == DigitsValue(b, DigitsValue(a, acc))
  {
    if a == "" {
      assert a + b == b;
    } else {
      assert (a + b)[1..] == a[1..] + b;
      DigitsValueAppend(a[1..], b, acc * 10 + DigitValue(a[0]));
    }
  }

  lemma {:induction false} DigitsValueZeros(k: nat)
    ensures DigitsValue(Zeros(k), 0) == 0
  {
    if k > 0 {
      assert Zeros(k)[1..] == Zeros(k - 1);
      DigitsValueZeros(k - 1);
    }
  }

  lemma {:induction false} DigitsValueDecimal(n: nat)
    ensures DigitsValue(Decimal(n), 0) == n
  {
    if n >= 10 {
      DigitsValueDecimal(n / 10);
      DigitsValueAppend(Decimal(n / 10), [DigitChar(n % 10)], 0);
    }
  }

  lemma {:induction false} DigitsValuePadded(n: nat, width: nat)
    ensures DigitsValue(Padded(n, width), 0) == n
  {
    DigitsValueDecimal(n);
    var d := Decimal(n);
    if |d| < width {
      DigitsValueZeros(width - |d|);
      DigitsValueAppend(Zeros(width - |d|), d, 0);
    }
  }

  lemma {:induction false} ParseIntDigits(s: string)
    requires s != "" && AllDigits(s)
    ensures ParseInt(s) == Some(DigitsValue(s, 0))
  {
    DigitsFromDigits(s, 0, false);
  }

  // ---- what `int` reads ----

  predicate AllSpace(s: string) {
    forall i | 0 <= i < |s| :: IsSpace(s[i])
  }

  /** Digits and underscores ending in a digit, no underscore first (unless a digit stands before) or after
      another. */
  ghost predicate Grouped(s: string, afterDigit: bool) {
    if s == "" then afterDigit
    else
      && IsDigit(s[|s| - 1]) && (s[0] == '_' ==> afterDigit)
      && (forall i | 0 <= i < |s| :: IsDigit(s[i]) || s[i] == '_')
      && (forall i | 0 <= i < |s| - 1 :: s[i] != '_' || s[i + 1] != '_')
  }

  /** The digits alone. */
  function Ungrouped(s: string): (r: string)
    ensures AllDigits(r)
  {
    if s == "" then "" else (if IsDigit(s[0]) then [s[0]] else "") + Ungrouped(s[1..])
  }

  lemma {:induction false} GroupedStep(s: string, after: bool)
    requires s != ""
    ensures IsDigit(s[0]) ==> (Grouped(s, after) <==> Grouped(s[1..], true))
    ensures s[0] == '_' ==> (Grouped(s, after) <==> after && Grouped(s[1..], false))
    ensures !IsDigit(s[0]) && s[0] != '_' ==> !Grouped(s, after)
  {
    var rest := s[1..];
    assert forall i | 0 <= i < |rest| :: rest[i] == s[i + 1];
    if rest != "" {
      if Grouped(s, after) {
        forall i | 0 <= i < |rest| - 1 ensures rest[i] != '_' || rest[i + 1] != '_' {
          assert s[i + 1] != '_' || s[i + 1 + 1] != '_';
        }
        assert s[0] != '_' || s[0 + 1] != '_';
      }
      if Grouped(rest, true) {
        forall i | 0 < i < |s| - 1 ensures s[i] != '_' || s[i + 1] != '_' {
          assert rest[i - 1] != '_' || rest[i - 1 + 1] != '_';
        }
        assert forall i | 0 < i < |s| :: IsDigit(s[i]) || s[i] == '_' by {
          forall i | 0 < i < |s| ensures IsDigit(s[i]) || s[i] == '_' {
            assert rest[i - 1] == s[i];
          }
        }
      }
    }
  }

  lemma {:induction false} DigitsFromGrouped(s: string, acc: nat, after: bool)
    ensures DigitsFrom(s, acc, after) ==
            if Grouped(s, after) then Some(DigitsValue(Ungrouped(s), acc)) else None
  {
    if s != "" {
      GroupedStep(s, after);
      if IsDigit(s[0]) {
        DigitsFromGrouped(s[1..], acc * 10 + DigitValue(s[0]), true);
        assert ([s[0]] + Ungrouped(s[1..]))[1..] == Ungrouped(s[1..]);
      } else if s[0] == '_' && after {
        DigitsFromGrouped(s[1..], acc, false);
        assert "" + Ungrouped(s[1..]) == Ungrouped(s[1..]);
      }
    }
  }

  lemma {:induction false} StripLeftCut(s: string) returns (front: string)
    ensures s == front + StripLeft(s) && AllSpace(front)
    ensures StripLeft(s) != "" ==> !IsSpace(StripLeft(s)[0])
  {
    if s != "" && IsSpace(s[0]) {
      var more := StripLeftCut(s[1..]);
      front := [s[0]] + more;
    } else {
      front := "";
    }
  }

  lemma {:induction false} StripRightCut(s: string) returns (back: string)
    ensures s == StripRight(s) + back && AllSpace(back)
    ensures StripRight(s) != "" ==> !IsSpace(StripRight(s)[|StripRight(s)| - 1])
  {
    if s != "" && IsSpace(s[|s| - 1]) {
      var more := StripRightCut(s[..|s| - 1]);
      back := more + [s[|s| - 1]];
    } else {
      back := "";
    }
  }

  lemma {:induction false} StripLeftBack(front: string, s: string)
    requires AllSpace(front) && s != "" && !IsSpace(s[0])
    ensures StripLeft(front + s) == s
  {
    if front == "" {
      assert front + s == s;
    } else {
      assert (front + s)[1..] == front[1..] + s;
      StripLeftBack(front[1..], s);
    }
  }

  lemma {:induction false} StripRightBack(s: string, back: string)
    requires AllSpace(back) && s != "" && !IsSpace(s[|s| - 1])
    ensures StripRight(s + back) == s
  {
    if back == "" {
      assert s + back == s;
    } else {
      assert (s + back)[..|s + back| - 1] == s + back[..|back| - 1];
      StripRightBack(s, back[..|back| - 1]);
    }
  }

  /** White space, an optional sign, grouped digits, white space; and the value they stand for. */
  ghost predicate SpellsInt(text: string, front: string, sign: string, digits: string, back: string, v: int) {
    && text == front + (sign + digits) + back && AllSpace(front) && AllSpace(back)
    && sign in {"", "+", "-"} && digits != "" && Grouped(digits, false)
    && v == Signed(sign == "-", DigitsValue(Ungrouped(digits), 0))
  }

  function Signed(negative: bool, n: int): int {
    if negative then -n else n
  }

  lemma {:induction false} StrippedCore(text: string, front: string, core: string, back: string)
    requires text == front + core + back && AllSpace(front) && AllSpace(back)
    requires core != "" && !IsSpace(core[0]) && !IsSpace(core[|core| - 1])
    ensures StripRight(StripLeft(text)) == core
  {
    assert text == front + (core + back);
    assert (core + back)[0] == core[0];
    StripLeftBack(front, core + back);
    StripRightBack(core, back);
  }

  lemma {:induction false} CoreRead(text: string, core: string, sign: string, digits: string)
    requires StripRight(StripLeft(text)) == core && core == sign + digits && sign in {"", "+", "-"}
    requires digits != "" && Grouped(digits, false)
    ensures ParseInt(text) == Some(Signed(sign == "-", DigitsValue(Ungrouped(digits), 0)))
  {
    assert IsDigit(digits[0]);
    assert core[|sign|..] == digits;
    DigitsFromGrouped(digits, 0, false);
  }

  lemma {:induction false} SpelledIntIsRead(text: string, front: string, sign: string, digits: string, back: string,
      v: int)
    requires SpellsInt(text, front, sign, digits, back, v)
    ensures ParseInt(text) == Some(v)
  {
    var core := sign + digits;
    assert core != "" && core[|core| - 1] == digits[|digits| - 1] && !IsSpace(core[|core| - 1]);
    assert IsDigit(digits[0]);
    assert !IsSpace(core[0]);
    StrippedCore(text, front, core, back);
    CoreRead(text, core, sign, digits);
  }

  lemma {:induction false} ReadIntIsSpelled(text: string, v: int)
    returns (front: string, sign: string, digits: string, back: string)
    requires ParseInt(text) == Some(v)
    ensures SpellsInt(text, front, sign, digits, back, v)
  {
    front := StripLeftCut(text);
    back := StripRightCut(StripLeft(text));
    var core := StripRight(StripLeft(text));
    sign := if core != "" && (core[0] == '-' || core[0] == '+') then core[..1] else "";
    digits := core[|sign|..];
    assert core == sign + digits;
    assert sign == "" || sign == "+" || sign == "-";
    assert sign == "-" <==> core != "" && core[0] == '-';
    assert text == front + (core + back) == front + core + back;
    DigitsFromGrouped(digits, 0, false);
  }

  /** `int` reads a text as a number exactly when it is so spelled. */
  lemma {:induction false} ParseIntExactly(text: string, v: int)
    ensures ParseInt(text) == Some(v) <==>
              exists front, sign, digits, back :: SpellsInt(text, front, sign, digits, back, v)
  {
    if ParseInt(text) == Some(v) {
      var front, sign, digits, back := ReadIntIsSpelled(text, v);
    }
    if front, sign, digits, back :| SpellsInt(text, front, sign, digits, back, v) {
      SpelledIntIsRead(text, front, sign, digits, back, v);
    }
  }

  lemma {:induction false} ParsePadded(n: nat, width: nat)
    ensures ParseInt(Padded(n, width)) == Some(n)
  {
    ParseIntDigits(Padded(n, width));
    DigitsValuePadded(n, width);
  }

  lemma {:induction false} DecimalLength(n: nat, width: nat)
    requires width >= 1 && n < Power10(width)
    ensures |Padded(n, width)| == width && |Decimal(n)| <= width
    decreases width
  {
    if n >= 10 {
      assert width > 1;
      DecimalLength(n / 10, width - 1);
    }
  }

  function Power10(k: nat): (p: nat)
    ensures p >= 1
  {
    if k == 0 then 1 else 10 * Power10(k - 1)
  }

  lemma {:induction false} ShiftDigit(acc: nat, d: nat, p: nat)
    ensures (acc * 10 + d) * p == acc * (10 * p) + d * p
  {
  }

  lemma {:induction false} ScaleUp(x: nat, y: nat, p: nat)
    requires x < y
    ensures x * p + p <= y * p
  {
    assert (x + 1) * p <= y * p;
  }

  lemma {:induction false} DigitsValueSplit(s: string, acc: nat)
    requires AllDigits(s)
    ensures DigitsValue(s, acc) == acc * Power10(|s|) + DigitsValue(s, 0)
    ensures DigitsValue(s, 0) < Power10(|s|)
    decreases |s|
  {
    if s != "" {
      var d, p := DigitValue(s[0]), Power10(|s| - 1);
      var rest := s[1..];
      assert DigitsValue(s, acc) == (acc * 10 + d) * p + DigitsValue(rest, 0) by {
        DigitsValueSplit(rest, acc * 10 + d);
      }
      assert DigitsValue(s, 0) == d * p + DigitsValue(rest, 0) && DigitsValue(rest, 0) < p by {
        DigitsValueSplit(rest, d);
      }
      ShiftDigit(acc, d, p);
      ScaleUp(d, 10, p);
    }
  }

  lemma {:induction false} LeadingDigitDecides(x: nat, y: nat, p: nat, v: nat, w: nat)
    requires v < p && w < p
    ensures x * p + v < y * p + w <==> x < y || (x == y && v < w)
    ensures x * p + v == y * p + w <==> x == y && v == w
  {
    if x < y {
      ScaleUp(x, y, p);
    } else if y < x {
      ScaleUp(y, x, p);
    }
  }

  lemma {:induction false} FirstDigitDecides(a: string, b: string)
    requires AllDigits(a) && AllDigits(b) && a != "" && b != ""
    ensures TextLess(a, b) <==>
              DigitValue(a[0]) < DigitValue(b[0]) ||
              (DigitValue(a[0]) == DigitValue(b[0]) && TextLess(a[1..], b[1..]))
    ensures a == b <==> DigitValue(a[0]) == DigitValue(b[0]) && a[1..] == b[1..]
  {
    assert a == [a[0]] + a[1..] && b == [b[0]] + b[1..];
  }

  lemma {:induction false} FirstDigitValue(a: string)
    requires AllDigits(a) && a != ""
    ensures DigitsValue(a, 0) == DigitValue(a[0]) * Power10(|a| - 1) + DigitsValue(a[1..], 0)
    ensures DigitsValue(a[1..], 0) < Power10(|a| - 1)
  {
    DigitsValueSplit(a[1..], DigitValue(a[0]));
  }

  /** Digit strings of one length compare as text in the order of their values. */
  lemma {:induction false} DigitsOrder(a: string, b: string)
    requires AllDigits(a) && AllDigits(b) && |a| == |b|
    ensures TextLess(a, b) <==> DigitsValue(a, 0) < DigitsValue(b, 0)
    ensures a == b <==> DigitsValue(a, 0) == DigitsValue(b, 0)
    decreases |a|
  {
    if a != "" {
      FirstDigitValue(a);
      FirstDigitValue(b);
      FirstDigitDecides(a, b);
      DigitsOrder(a[1..], b[1..]);
      LeadingDigitDecides(DigitValue(a[0]), DigitValue(b[0]), Power10(|a| - 1),
                          DigitsValue(a[1..], 0), DigitsValue(b[1..], 0));
    }
  }

  lemma {:induction false} PaddedOrder(m: nat, n: nat, width: nat)
    requires |Padded(m, width)| == |Padded(n, width)|
    ensures TextLess(Padded(m, width), Padded(n, width)) <==> m < n
    ensures Padded(m, width) == Padded(n, width) <==> m == n
  {
    DigitsOrder(Padded(m, width), Padded(n, width));
    DigitsValuePadded(m, width);
    DigitsValuePadded(n, width);
  }

  /** A digit string is its own value, padded to its width. */
  lemma {:induction false} PaddedBack(s: string)
    requires s != "" && AllDigits(s)
    ensures DigitsValue(s, 0) < Power10(|s|) && Padded(DigitsValue(s, 0), |s|) == s
  {
    var n := DigitsValue(s, 0);
    DigitsValueSplit(s, 0);
    DecimalLength(n, |s|);
    DigitsValuePadded(n, |s|);
    DigitsOrder(s, Padded(n, |s|));
  }

  lemma {:induction false} NoLeadingZero(n: nat)
    requires n >= 1
    ensures Decimal(n)[0] != '0'
  {
    if n >= 10 {
      NoLeadingZero(n / 10);
    }
  }

  /** A digit string that does not begin with zero is its value in plain decimal, which is not zero. */
  lemma {:induction false} PlainDecimal(s: string)
    requires s != "" && AllDigits(s) && s[0] != '0'
    ensures DigitsValue(s, 0) >= 1 && Decimal(DigitsValue(s, 0)) == s
  {
    PaddedBack(s);
    PaddedStarts(DigitsValue(s, 0), |s|);
  }

  lemma {:induction false} PaddedStarts(n: nat, width: nat)
    ensures Padded(n, width) == Decimal(n) || Padded(n, width)[0] == '0'
    ensures n == 0 ==> Padded(n, width)[0] == '0'
  {
  }

  // ---- hexadecimal ----

  predicate IsHex(c: char) {
    '0' <= c <= '9' || 'A' <= c <= 'F'
  }

  function HexChar(v: nat): (c: char)
    requires v < 16
    ensures IsHex(c)
  {
    if v < 10 then '0' + v as char else 'A' + (v - 10) as char
  }

  /** Exactly `digits` upper-case hexadecimal digits. */
  function Hex(n: nat, digits: nat): (s: string)
    ensures |s| == digits
    ensures forall c | c in s :: IsHex(c)
  {
    if digits == 0 then "" else Hex(n / 16, digits - 1) + [HexChar(n % 16)]
  }

  function Power16(k: nat): (p: nat)
    ensures p >= 1
  {
    if k == 0 then 1 else 16 * Power16(k - 1)
  }

  function HexDigit(c: char): nat
    requires IsHex(c)
  {
    if c <= '9' then (c - '0') as nat else (c - 'A') as nat + 10
  }

  /** The number hexadecimal digits stand for. */
  function HexValue(s: string): nat
    requires forall c | c in s :: IsHex(c)
  {
    if s == "" then 0 else HexValue(s[..|s| - 1]) * 16 + HexDigit(s[|s| - 1])
  }

  lemma {:induction false} HexDigitOf(v: nat)
    requires v < 16
    ensures HexDigit(HexChar(v)) == v
  {
  }

  /** As many digits as a number needs are read back as that number. */
  lemma {:induction false} HexReadsBack(n: nat, digits: nat)
    requires n < Power16(digits)
    ensures HexValue(Hex(n, digits)) == n
    decreases digits
  {
    if digits > 0 {
      var s := Hex(n, digits);
      HexDigitOf(n % 16);
      HexReadsBack(n / 16, digits - 1);
      assert s[..|s| - 1] == Hex(n / 16, digits - 1) && s[|s| - 1] == HexChar(n % 16);
    }
  }

  lemma {:induction false} HexTells(n: nat, m: nat, digits: nat)
    requires Hex(n, digits) == Hex(m, digits) && n < Power16(digits) && m < Power16(digits)
    ensures n == m
  {
    HexReadsBack(n, digits);
    HexReadsBack(m, digits);
  }

  lemma {:induction false} NotInDigits(s: string, c: char)
    requires AllDigits(s) && !IsDigit(c)
    ensures c !in s
  {
  }
}
