// Shell patterns for one path segment, as Python's `fnmatch.fnmatchcase` reads them.
module Fnmatch {
  import opened Orders

  /** One unit of a pattern: a character, '?', '*', or a bracket set with what stands between its brackets. */
  datatype Token = Literal(c: char) | One | Many | OneOf(content: string)

  /** Which characters a bracket set admits. */
  type Sets = (string, char) -> bool

  /** The first ']' at or after `from`. */
  function Bracket(p: string, from: nat): (j: nat)
    requires from <= |p|
    ensures from <= j <= |p|
    ensures j < |p| ==> p[j] == ']'
    ensures forall k | from <= k < j :: p[k] != ']'
    decreases |p| - from
  {
    if from == |p| || p[from] == ']' then from else Bracket(p, from + 1)
  }

  /** Where the set opened by the first character closes: a '!' and then a ']' right after it belong to
      the set. The length of the pattern when it never closes. */
  function Closing(p: string): (j: nat)
    requires p != ""
    ensures 1 <= j <= |p|
    ensures j < |p| ==> j >= 2
  {
    var i := if 1 < |p| && p[1] == '!' then 2 else 1;
    var k := if i < |p| && p[i] == ']' then i + 1 else i;
    Bracket(p, k)
  }

  /** The first unit of a pattern; a set that never closes is a plain '['. */
  function First(p: string): Token
    requires p != ""
  {
    if p[0] == '*' then Many
    else if p[0] == '?' then One
    else if p[0] == '[' && Closing(p) < |p| then OneOf(p[1..Closing(p)])
    else Literal(p[0])
  }

  /** How many characters the first unit takes up. */
  function Width(p: string): (w: nat)
    requires p != ""
    ensures 1 <= w <= |p|
    ensures First(p).OneOf? ==> w >= 3
    ensures First(p).Literal? ==> w == 1
  {
    if p[0] == '[' && Closing(p) < |p| then Closing(p) + 1 else 1
  }

  function Tokens(p: string): seq<Token> {
    if p == "" then [] else [First(p)] + Tokens(p[Width(p)..])
  }

  predicate Takes(sets: Sets, tokens: seq<Token>, name: string)
    decreases |tokens|
  {
    if tokens == [] then name == ""
    else if tokens[0].Many? then exists k | 0 <= k <= |name| :: Takes(sets, tokens[1..], name[k..])
    else name != "" && Fits(sets, tokens[0], name[0]) && Takes(sets, tokens[1..], name[1..])
  }

  predicate Fits(sets: Sets, token: Token, c: char) {
    match token
    case Literal(l) => c == l
    case One => true
    case OneOf(content) => sets(content, c)
    case Many => false
  }

  /** `fnmatch.fnmatchcase(name, pattern)`. */
  predicate FnMatch(sets: Sets, name: string, pattern: string) {
    Takes(sets, Tokens(pattern), name)
  }

  /** The pattern has no '*', no '?' and no bracket set that closes. */
  predicate LiteralOnly(pattern: string) {
    forall i | 0 <= i < |Tokens(pattern)| :: Tokens(pattern)[i].Literal?
  }

  // ---- what a pattern takes ----

  /** The stretch of a name one unit takes: any for a star, and else one character, which a '?' does not look
      at, a literal has to equal and a set has to admit. */
  predicate StandsFor(sets: Sets, token: Token, stretch: string) {
    token.Many? || (|stretch| == 1 && (
      token.One? || (token.Literal? && stretch[0] == token.c) || (token.OneOf? && sets(token.content, stretch[0]))))
  }

  ghost predicate Alignment(sets: Sets, tokens: seq<Token>, stretches: seq<string>) {
    |stretches| == |tokens| && forall i | 0 <= i < |tokens| :: StandsFor(sets, tokens[i], stretches[i])
  }

  /** The name is cut into one stretch for each unit. */
  ghost predicate Aligns(sets: Sets, tokens: seq<Token>, name: string) {
    exists stretches :: Alignment(sets, tokens, stretches) && Flat(stretches) == name
  }

  lemma {:induction false} AlignsStep(sets: Sets, tokens: seq<Token>, stretch: string, rest: string)
    requires tokens != [] && StandsFor(sets, tokens[0], stretch) && Aligns(sets, tokens[1..], rest)
    ensures Aligns(sets, tokens, stretch + rest)
  {
    var tail :| Alignment(sets, tokens[1..], tail) && Flat(tail) == rest;
    var all := [stretch] + tail;
    assert all[1..] == tail;
    assert Alignment(sets, tokens, all);
  }

  lemma {:induction false} AlignsSplit(sets: Sets, tokens: seq<Token>, name: string) returns (k: nat)
    requires tokens != [] && Aligns(sets, tokens, name)
    ensures k <= |name| && StandsFor(sets, tokens[0], name[..k]) && Aligns(sets, tokens[1..], name[k..])
  {
    var all :| Alignment(sets, tokens, all) && Flat(all) == name;
    k := |all[0]|;
    assert name[..k] == all[0] && name[k..] == Flat(all[1..]);
    assert Alignment(sets, tokens[1..], all[1..]);
  }

  lemma {:induction false} TakesOne(sets: Sets, tokens: seq<Token>, name: string, k: nat)
    requires tokens != [] && k <= |name| && StandsFor(sets, tokens[0], name[..k]) && Takes(sets, tokens[1..], name[k..])
    ensures Takes(sets, tokens, name)
  {
  }

  /** A name is taken exactly when it can be so cut. */
  lemma {:induction false} TakesIffAligns(sets: Sets, tokens: seq<Token>, name: string)
    ensures Takes(sets, tokens, name) <==> Aligns(sets, tokens, name)
    decreases |tokens|
  {
    if tokens == [] {
      assert Alignment(sets, tokens, []) && Flat<char>([]) == [];
    } else {
      if Takes(sets, tokens, name) {
        var k :| 0 <= k <= |name| && Takes(sets, tokens[1..], name[k..]) && StandsFor(sets, tokens[0], name[..k]);
        TakesIffAligns(sets, tokens[1..], name[k..]);
        AlignsStep(sets, tokens, name[..k], name[k..]);
        assert name == name[..k] + name[k..];
      }
      if Aligns(sets, tokens, name) {
        var k := AlignsSplit(sets, tokens, name);
        TakesIffAligns(sets, tokens[1..], name[k..]);
        TakesOne(sets, tokens, name, k);
      }
    }
  }

  /** How a unit is written. */
  function Written(token: Token): string {
    match token
    case Literal(c) => [c]
    case One => "?"
    case Many => "*"
    case OneOf(content) => "[" + content + "]"
  }

  function Spelling(tokens: seq<Token>): string {
    if tokens == [] then "" else Written(tokens[0]) + Spelling(tokens[1..])
  }

  lemma {:induction false} FirstWritten(p: string)
    requires p != ""
    ensures Written(First(p)) == p[..Width(p)]
    ensures First(p) != Literal('*') && First(p) != Literal('?')
  {
  }

  lemma {:induction false} TokensStep(p: string)
    requires p != ""
    ensures Tokens(p)[0] == First(p) && Tokens(p)[1..] == Tokens(p[Width(p)..])
  {
  }

  /** The units of a pattern are its own characters cut up. */
  lemma {:induction false} TokensWritten(p: string)
    ensures Spelling(Tokens(p)) == p
    decreases |p|
  {
    if p != "" {
      FirstWritten(p);
      TokensStep(p);
      TokensWritten(p[Width(p)..]);
      assert p == p[..Width(p)] + p[Width(p)..];
    }
  }

  /** A '*' or '?' outside a set is never literal. */
  lemma {:induction false} WildcardsNotLiteral(p: string, i: nat)
    requires i < |Tokens(p)|
    ensures Tokens(p)[i] != Literal('*') && Tokens(p)[i] != Literal('?')
    decreases |p|
  {
    TokensStep(p);
    FirstWritten(p);
    if i > 0 {
      WildcardsNotLiteral(p[Width(p)..], i - 1);
    }
  }

  lemma {:induction false} BracketAt(p: string, from: nat, j: nat)
    requires from <= j < |p| && p[j] == ']' && forall k | from <= k < j :: p[k] != ']'
    ensures Bracket(p, from) == j
    decreases j - from
  {
    if from < j {
      BracketAt(p, from + 1, j);
    }
  }

  lemma {:induction false} ClosingIs(p: string, first: nat, j: nat)
    requires first < j < |p| && p[0] == '[' && p[j] == ']' && first == if p[1] == '!' then 2 else 1
    requires forall k | first < k < j :: p[k] != ']'
    ensures Closing(p) == j
  {
    BracketAt(p, first + 1, j);
    if p[first] != ']' {
      BracketAt(p, first, j);
    }
  }

  lemma {:induction false} SetTokens(p: string, content: string, rest: string)
    requires content != "" && p == "[" + content + "]" + rest && Closing(p) == |content| + 1
    ensures Tokens(p) == [OneOf(content)] + Tokens(rest)
  {
    assert p[1..|content| + 1] == content && p[|content| + 2..] == rest;
    TokensStep(p);
  }

  lemma {:induction false} SetPlaces(p: string, negation: string, first: char, more: string, rest: string)
    requires negation == "!" || (negation == "" && first != '!')
    requires ']' !in more && p == "[" + (negation + [first] + more) + "]" + rest
    ensures var at, j := |negation| + 1, |negation| + 2 + |more|;
            && j < |p| && p[0] == '[' && p[j] == ']' && at == (if p[1] == '!' then 2 else 1)
            && forall k | at < k < j :: p[k] != ']'
  {
    var at := |negation| + 1;
    assert p[1] == (negation + [first])[0];
    forall k | at < k < at + 1 + |more| ensures p[k] != ']' {
      assert p[k] == more[k - at - 1];
    }
  }

  /** A set is an optional '!', any one character, and everything up to the next ']'. */
  lemma {:induction false} SetRead(negation: string, first: char, more: string, rest: string)
    requires negation == "!" || (negation == "" && first != '!')
    requires ']' !in more
    ensures Tokens("[" + (negation + [first] + more) + "]" + rest) ==
            [OneOf(negation + [first] + more)] + Tokens(rest)
  {
    var content := negation + [first] + more;
    var p := "[" + content + "]" + rest;
    SetPlaces(p, negation, first, more, rest);
    ClosingIs(p, |negation| + 1, |content| + 1);
    SetTokens(p, content, rest);
  }

  /** A '[' no ']' follows is a plain character. */
  lemma {:induction false} NeverCloses(s: string)
    requires ']' !in s
    ensures Tokens("[" + s) == [Literal('[')] + Tokens(s)
  {
    var p := "[" + s;
    assert p[1..] == s;
    assert forall k | 1 <= k < |p| :: p[k] == s[k - 1];
    TokensStep(p);
  }

  // ---- a literal pattern spells one name ----

  lemma {:induction false} LiteralTail(p: string)
    requires p != "" && LiteralOnly(p)
    ensures Tokens(p) == [Literal(p[0])] + Tokens(p[1..]) && LiteralOnly(p[1..])
  {
    assert Tokens(p)[0] == First(p);
    assert First(p).Literal?;
    var rest := Tokens(p[1..]);
    assert forall i | 0 <= i < |rest| :: rest[i] == Tokens(p)[i + 1];
  }

  lemma {:induction false} LiteralSpells(sets: Sets, p: string, name: string)
    requires LiteralOnly(p)
    ensures FnMatch(sets, name, p) <==> name == p
    decreases |p|
  {
    if p != "" {
      LiteralTail(p);
      if name != "" {
        LiteralSpells(sets, p[1..], name[1..]);
        assert name == [name[0]] + name[1..] && p == [p[0]] + p[1..];
      }
    }
  }

  // ---- any other pattern does not ----

  /** A closed set is a single unit of at least three characters. */
  lemma {:induction false} TokensShorten(p: string)
    ensures |Tokens(p)| <= |p|
    ensures (exists i :: 0 <= i < |Tokens(p)| && Tokens(p)[i].OneOf?) ==> |Tokens(p)| < |p|
    decreases |p|
  {
    if p != "" {
      TokensShorten(p[Width(p)..]);
      var rest := Tokens(p[Width(p)..]);
      assert forall i | 0 < i < |Tokens(p)| :: Tokens(p)[i] == rest[i - 1];
    }
  }

  lemma {:induction false} LengthFixed(sets: Sets, tokens: seq<Token>, name: string)
    requires Takes(sets, tokens, name) && forall i | 0 <= i < |tokens| :: !tokens[i].Many?
    ensures |name| == |tokens|
    decreases |tokens|
  {
    if tokens != [] {
      LengthFixed(sets, tokens[1..], name[1..]);
    }
  }

  /** A name a star takes part in can be made longer. */
  lemma {:induction false} StarStretches(sets: Sets, tokens: seq<Token>, name: string, i: nat) returns (longer: string)
    requires Takes(sets, tokens, name) && i < |tokens| && tokens[i].Many?
    ensures Takes(sets, tokens, longer) && |longer| == |name| + 1
    ensures '/' !in name ==> '/' !in longer
    decreases |tokens|
  {
    if tokens[0].Many? {
      var k :| 0 <= k <= |name| && Takes(sets, tokens[1..], name[k..]);
      longer := "x" + name;
      assert longer[k + 1..] == name[k..];
    } else {
      var tail := StarStretches(sets, tokens[1..], name[1..], i - 1);
      longer := [name[0]] + tail;
      assert longer[1..] == tail;
    }
  }

  /** A name a '?' takes part in can be changed there. */
  lemma {:induction false} OneVaries(sets: Sets, tokens: seq<Token>, name: string, i: nat) returns (other: string)
    requires Takes(sets, tokens, name) && i < |tokens| && tokens[i].One?
    requires forall k | 0 <= k < |tokens| :: !tokens[k].Many?
    ensures Takes(sets, tokens, other) && other != name
    ensures '/' !in name ==> '/' !in other
    decreases |tokens|
  {
    if i == 0 {
      var c := if name[0] == 'x' then 'y' else 'x';
      other := [c] + name[1..];
      assert other[1..] == name[1..] && other[0] != name[0];
    } else {
      var tail := OneVaries(sets, tokens[1..], name[1..], i - 1);
      other := [name[0]] + tail;
      assert other[1..] == tail && name == [name[0]] + name[1..];
    }
  }

  /** A pattern that is not literal either misses its own spelling or takes some other name as well. */
  lemma {:induction false} NotLiteralVaries(sets: Sets, p: string) returns (name: string)
    requires !LiteralOnly(p) && '/' !in p
    ensures '/' !in name && FnMatch(sets, name, p) != (name == p)
  {
    var tokens := Tokens(p);
    name := p;
    if FnMatch(sets, p, p) {
      if i: nat :| i < |tokens| && tokens[i].Many? {
        name := StarStretches(sets, tokens, p, i);
      } else {
        TokensShorten(p);
        LengthFixed(sets, tokens, p);
        var i: nat :| i < |tokens| && !tokens[i].Literal?;
        name := OneVaries(sets, tokens, p, i);
      }
    }
  }

  /** A pattern takes exactly the name it spells if and only if it is literal. */
  lemma {:induction false} OnlyItsSpelling(sets: Sets, p: string)
    requires '/' !in p
    ensures LiteralOnly(p) <==> forall name | '/' !in name :: FnMatch(sets, name, p) <==> name == p
  {
    if LiteralOnly(p) {
      forall name ensures FnMatch(sets, name, p) <==> name == p {
        LiteralSpells(sets, p, name);
      }
    } else {
      var name := NotLiteralVaries(sets, p);
    }
  }

  /** Characters without a wildcard among them are literal. */
  lemma {:induction false} PlainIsLiteral(p: string)
    requires '*' !in p && '?' !in p && '[' !in p
    ensures LiteralOnly(p)
  {
    if p != "" {
      PlainIsLiteral(p[1..]);
      assert p[0] in p;
      assert forall i | 0 < i < |Tokens(p)| :: Tokens(p)[i] == Tokens(p[1..])[i - 1];
    }
  }
}
