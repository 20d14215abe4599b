// The release gate's path patterns: '/'-separated segments, a double star for any run of segments, and a
// string-prefix shortcut for patterns whose last segment is a double star.
module PathPatterns {
  import opened Orders
  import opened Text
  import opened Fnmatch

  /** `fnmatch.fnmatchcase(name, pattern)`, whatever it decides. */
  type Glob = (string, string) -> bool

  /** A last segment that is a double star. */
  const TAIL: string := "/" + "**"

  predicate HasWildcard(segment: string) {
    '*' in segment || '?' in segment || '[' in segment
  }

  /** One pattern segment other than the double star against one path segment. */
  predicate SegmentMatches(glob: Glob, segment: string, name: string) {
    if HasWildcard(segment) then glob(name, segment) else segment == name
  }

  predicate Match(glob: Glob, segments: seq<string>, names: seq<string>)
    decreases |segments|
  {
    if segments == [] then names == []
    else if segments[0] == "**" then
      exists index | 0 <= index <= |names| :: Match(glob, segments[1..], names[index..])
    else names != [] && SegmentMatches(glob, segments[0], names[0]) && Match(glob, segments[1..], names[1..])
  }

  predicate EndsInDoubleStar(pattern: string) {
    |pattern| >= 3 && pattern[|pattern| - 3..] == TAIL
  }

  predicate PathMatches(glob: Glob, path: string, pattern: string) {
    if pattern == "**" then true
    else if EndsInDoubleStar(pattern) then Shortcut(path, pattern[..|pattern| - 3])
    else Match(glob, Split(pattern, '/'), Split(path, '/'))
  }

  predicate Shortcut(path: string, prefix: string) {
    path == prefix || prefix + "/" <= path
  }

  // ---- the declarative meaning ----

  /** The stretch of path segments a pattern segment may stand for: any stretch for the double star, one
      matching name for any other segment. */
  predicate StandsFor(glob: Glob, segment: string, stretch: seq<string>) {
    segment == "**" || (|stretch| == 1 && SegmentMatches(glob, segment, stretch[0]))
  }

  ghost predicate Alignment(glob: Glob, segments: seq<string>, stretches: seq<seq<string>>) {
    |stretches| == |segments| && forall i | 0 <= i < |segments| :: StandsFor(glob, segments[i], stretches[i])
  }

  /** The path is cut into one stretch per pattern segment. */
  ghost predicate Aligns(glob: Glob, segments: seq<string>, names: seq<string>) {
    exists stretches :: Alignment(glob, segments, stretches) && Flat(stretches) == names
  }

  lemma {:induction false} AlignsStep(glob: Glob, segments: seq<string>, stretch: seq<string>, rest: seq<string>)
    requires segments != [] && StandsFor(glob, segments[0], stretch) && Aligns(glob, segments[1..], rest)
    ensures Aligns(glob, segments, stretch + rest)
  {
    var tail :| Alignment(glob, segments[1..], tail) && Flat(tail) == rest;
    var all := [stretch] + tail;
    assert all[1..] == tail;
    assert Alignment(glob, segments, all);
  }

  lemma {:induction false} AlignsSplit(glob: Glob, segments: seq<string>, names: seq<string>) returns (k: nat)
    requires segments != [] && Aligns(glob, segments, names)
    ensures k <= |names| && StandsFor(glob, segments[0], names[..k]) && Aligns(glob, segments[1..], names[k..])
  {
    var all :| Alignment(glob, segments, all) && Flat(all) == names;
    k := |all[0]|;
    assert names[..k] == all[0] && names[k..] == Flat(all[1..]);
    assert Alignment(glob, segments[1..], all[1..]);
  }

  /** The recursive matcher decides exactly whether the path can be so cut. */
  lemma {:induction false} MatchIffAligns(glob: Glob, segments: seq<string>, names: seq<string>)
    ensures Match(glob, segments, names) <==> Aligns(glob, segments, names)
    decreases |segments|
  {
    if segments == [] {
      assert Alignment(glob, segments, []) && Flat<string>([]) == [];
    } else {
      if Match(glob, segments, names) {
        var k :| 0 <= k <= |names| && Match(glob, segments[1..], names[k..]) &&
                 StandsFor(glob, segments[0], names[..k]);
        MatchIffAligns(glob, segments[1..], names[k..]);
        AlignsStep(glob, segments, names[..k], names[k..]);
        assert names == names[..k] + names[k..];
      }
      if Aligns(glob, segments, names) {
        var k := AlignsSplit(glob, segments, names);
        MatchIffAligns(glob, segments[1..], names[k..]);
      }
    }
  }

  // ---- the shortcut ----

  lemma {:induction false} StripDoubleStar(prefix: string)
    ensures Split(prefix + TAIL, '/') == Split(prefix, '/') + ["**"]
  {
    SplitConcat(prefix, "**", '/');
    assert prefix + TAIL == prefix + ['/'] + "**";
    assert Split("**", '/') == ["**"];
  }

  lemma {:induction false} ShortcutLeads(path: string, prefix: string)
    requires Shortcut(path, prefix)
    ensures Split(prefix, '/') <= Split(path, '/')
  {
    if path != prefix {
      var rest := path[|prefix| + 1..];
      assert path == prefix + ['/'] + rest;
      SplitConcat(prefix, rest, '/');
    }
  }

  lemma {:induction false} LeadsShortcut(path: string, prefix: string, p: seq<string>, rest: seq<string>)
    requires p == Split(prefix, '/') && Split(path, '/') == p + rest
    ensures Shortcut(path, prefix)
  {
    JoinSplit(prefix, '/');
    JoinSplit(path, '/');
    if rest == [] {
      assert p + rest == p;
    } else {
      JoinConcat(p, rest, '/');
    }
  }

  /** The string test is a test on leading segments. */
  lemma {:induction false} ShortcutIsPrefix(path: string, prefix: string)
    ensures Shortcut(path, prefix) <==> Split(prefix, '/') <= Split(path, '/')
  {
    var p, q := Split(prefix, '/'), Split(path, '/');
    if Shortcut(path, prefix) {
      ShortcutLeads(path, prefix);
    }
    if p <= q {
      assert q == p + q[|p|..];
      LeadsShortcut(path, prefix, p, q[|p|..]);
    }
  }

  lemma {:induction false} JoinConcat(a: seq<string>, b: seq<string>, sep: char)
    requires a != [] && b != []
    ensures Joined(a + b, sep) == Joined(a, sep) + [sep] + Joined(b, sep)
    decreases |a|
  {
    if |a| == 1 {
      assert (a + b)[1..] == b;
    } else {
      assert (a + b)[1..] == a[1..] + b;
      JoinConcat(a[1..], b, sep);
    }
  }

  ghost predicate LeadMatches(glob: Glob, segments: seq<string>, names: seq<string>) {
    |segments| <= |names| && forall i | 0 <= i < |segments| :: SegmentMatches(glob, segments[i], names[i])
  }

  lemma {:induction false} MatchLead(glob: Glob, segments: seq<string>, names: seq<string>)
    requires forall i | 0 <= i < |segments| :: segments[i] != "**"
    ensures Match(glob, segments + ["**"], names) <==> LeadMatches(glob, segments, names)
    decreases |segments|
  {
    if segments == [] {
      assert segments + ["**"] == ["**"] && ["**"][1..] == [];
      assert Match(glob, [], names[|names|..]);
    } else {
      assert (segments + ["**"])[1..] == segments[1..] + ["**"];
      if names != [] {
        MatchLead(glob, segments[1..], names[1..]);
        if LeadMatches(glob, segments, names) {
          forall i | 0 <= i < |segments| - 1 ensures SegmentMatches(glob, segments[1..][i], names[1..][i]) {
            assert SegmentMatches(glob, segments[i + 1], names[i + 1]);
          }
        }
        if LeadMatches(glob, segments[1..], names[1..]) && SegmentMatches(glob, segments[0], names[0]) {
          forall i | 0 <= i < |segments| ensures SegmentMatches(glob, segments[i], names[i]) {
            assert i > 0 ==> SegmentMatches(glob, segments[1..][i - 1], names[1..][i - 1]);
          }
        }
      }
    }
  }

  /** The shortcut answers for every path what the matcher would. */
  ghost predicate ShortcutAgrees(glob: Glob, prefix: string) {
    forall path :: Shortcut(path, prefix) <==> Match(glob, Split(prefix + TAIL, '/'), Split(path, '/'))
  }

  /** The segment stands for its own spelling and nothing else. */
  ghost predicate OnlyItself(glob: Glob, segment: string) {
    && segment != "**"
    && forall name | '/' !in name :: SegmentMatches(glob, segment, name) <==> name == segment
  }

  lemma {:induction false} AgreesWhenLiteral(glob: Glob, prefix: string)
    requires forall i | 0 <= i < |Split(prefix, '/')| :: OnlyItself(glob, Split(prefix, '/')[i])
    ensures ShortcutAgrees(glob, prefix)
  {
    var segments := Split(prefix, '/');
    StripDoubleStar(prefix);
    forall path ensures Shortcut(path, prefix) <==> Match(glob, Split(prefix + TAIL, '/'), Split(path, '/')) {
      var names := Split(path, '/');
      ShortcutIsPrefix(path, prefix);
      MatchLead(glob, segments, names);
      if LeadMatches(glob, segments, names) {
        forall i | 0 <= i < |segments| ensures names[i] == segments[i] {
          assert OnlyItself(glob, segments[i]) && SegmentMatches(glob, segments[i], names[i]) && '/' !in names[i];
        }
      }
      if segments <= names {
        forall i | 0 <= i < |segments| ensures SegmentMatches(glob, segments[i], names[i]) {
          assert OnlyItself(glob, segments[i]) && '/' !in names[i];
        }
      }
    }
  }

  ghost predicate Matchable(glob: Glob, segment: string) {
    exists name :: '/' !in name && SegmentMatches(glob, segment, name)
  }

  ghost predicate AllMatchable(glob: Glob, segments: seq<string>) {
    forall i | 0 <= i < |segments| && segments[i] != "**" :: Matchable(glob, segments[i])
  }

  /** One matching name for each segment other than the double star. */
  ghost function Skeleton(glob: Glob, segments: seq<string>): (names: seq<string>)
    requires AllMatchable(glob, segments)
    ensures Free(names, '/') && |names| <= |segments|
    ensures (exists i :: 0 <= i < |segments| && segments[i] == "**") ==> |names| < |segments|
    ensures (forall i | 0 <= i < |segments| :: segments[i] != "**") ==> LeadMatches(glob, segments, names)
  {
    if segments == [] then []
    else
      assert forall i | 0 <= i < |segments| - 1 :: segments[1..][i] == segments[i + 1];
      var rest := Skeleton(glob, segments[1..]);
      if segments[0] == "**" then rest
      else
        assert Matchable(glob, segments[0]);
        var name :| '/' !in name && SegmentMatches(glob, segments[0], name);
        [name] + rest
  }

  lemma {:induction false} SkeletonMatches(glob: Glob, segments: seq<string>, extra: seq<string>)
    requires AllMatchable(glob, segments)
    ensures Match(glob, segments + ["**"], Skeleton(glob, segments) + extra)
    decreases |segments|
  {
    var names := Skeleton(glob, segments) + extra;
    if segments == [] {
      assert segments + ["**"] == ["**"] && ["**"][1..] == [];
      assert Match(glob, [], names[|names|..]);
    } else {
      assert (segments + ["**"])[1..] == segments[1..] + ["**"];
      assert forall i | 0 <= i < |segments| - 1 :: segments[1..][i] == segments[i + 1];
      SkeletonMatches(glob, segments[1..], extra);
      if segments[0] == "**" {
        assert names[0..] == names;
      } else {
        assert names[1..] == Skeleton(glob, segments[1..]) + extra;
      }
    }
  }

  /** A path that the matcher and the shortcut judge differently refutes agreement. */
  lemma {:induction false} Refutes(glob: Glob, prefix: string, names: seq<string>)
    requires names != [] && Free(names, '/')
    requires Match(glob, Split(prefix, '/') + ["**"], names) != (Split(prefix, '/') <= names)
    ensures !ShortcutAgrees(glob, prefix)
  {
    var path := Joined(names, '/');
    SplitJoin(names, '/');
    StripDoubleStar(prefix);
    ShortcutIsPrefix(path, prefix);
  }

  lemma {:induction false} UnmatchableNeverMatches(glob: Glob, segments: seq<string>, names: seq<string>, i: nat)
    requires i < |segments| && segments[i] != "**" && !Matchable(glob, segments[i]) && Free(names, '/')
    ensures !Match(glob, segments, names)
    decreases |segments|
  {
    if i > 0 {
      forall k | 0 <= k <= |names| ensures !Match(glob, segments[1..], names[k..]) {
        UnmatchableNeverMatches(glob, segments[1..], names[k..], i - 1);
      }
    }
  }

  lemma {:induction false} UnmatchableDisagrees(glob: Glob, prefix: string, i: nat)
    requires i < |Split(prefix, '/')| && Split(prefix, '/')[i] != "**" && !Matchable(glob, Split(prefix, '/')[i])
    ensures !ShortcutAgrees(glob, prefix)
  {
    var segments := Split(prefix, '/');
    UnmatchableNeverMatches(glob, segments + ["**"], segments, i);
    Refutes(glob, prefix, segments);
  }

  lemma {:induction false} StarDisagrees(glob: Glob, prefix: string, i: nat)
    requires i < |Split(prefix, '/')| && Split(prefix, '/')[i] == "**"
    requires AllMatchable(glob, Split(prefix, '/'))
    ensures !ShortcutAgrees(glob, prefix)
  {
    var segments := Split(prefix, '/');
    var names := Skeleton(glob, segments);
    var extra: seq<string> := if names == [] then [""] else [];
    SkeletonMatches(glob, segments, extra);
    assert (names + extra)[0] != segments[0] || |names + extra| < |segments|;
    Refutes(glob, prefix, names + extra);
  }

  lemma {:induction false} WildcardDisagrees(glob: Glob, prefix: string, i: nat, name: string)
    requires i < |Split(prefix, '/')| && '/' !in name
    requires forall k | 0 <= k < |Split(prefix, '/')| :: Split(prefix, '/')[k] != "**"
    requires AllMatchable(glob, Split(prefix, '/'))
    requires SegmentMatches(glob, Split(prefix, '/')[i], name) != (name == Split(prefix, '/')[i])
    ensures !ShortcutAgrees(glob, prefix)
  {
    var segments := Split(prefix, '/');
    if name == segments[i] {
      MatchLead(glob, segments, segments);
      Refutes(glob, prefix, segments);
    } else {
      var names := Skeleton(glob, segments)[i := name];
      MatchLead(glob, segments, names);
      assert names[i] != segments[i];
      Refutes(glob, prefix, names);
    }
  }

  /** The shortcut is right for every path exactly when each segment of its prefix matches itself and
      nothing else (so a wildcard that can vary, or an inner double star, makes it wrong). */
  lemma {:induction false} ShortcutExactly(glob: Glob, prefix: string)
    ensures ShortcutAgrees(glob, prefix) <==>
            forall i | 0 <= i < |Split(prefix, '/')| :: OnlyItself(glob, Split(prefix, '/')[i])
  {
    var segments := Split(prefix, '/');
    if forall i | 0 <= i < |segments| :: OnlyItself(glob, segments[i]) {
      AgreesWhenLiteral(glob, prefix);
    } else {
      var i: nat :| i < |segments| && !OnlyItself(glob, segments[i]);
      if !AllMatchable(glob, segments) {
        var k: nat :| k < |segments| && segments[k] != "**" && !Matchable(glob, segments[k]);
        UnmatchableDisagrees(glob, prefix, k);
      } else if k: nat :| k < |segments| && segments[k] == "**" {
        StarDisagrees(glob, prefix, k);
      } else {
        var name :| '/' !in name && SegmentMatches(glob, segments[i], name) != (name == segments[i]);
        WildcardDisagrees(glob, prefix, i, name);
      }
    }
  }

  /** A prefix without wildcard characters is safe for the shortcut. */
  lemma {:induction false} PlainPrefixAgrees(glob: Glob, prefix: string)
    requires !HasWildcard(prefix)
    ensures ShortcutAgrees(glob, prefix)
  {
    var segments := Split(prefix, '/');
    forall i | 0 <= i < |segments| ensures OnlyItself(glob, segments[i]) {
      if '*' in segments[i] { SplitMember(prefix, '/', i, '*'); }
      if '?' in segments[i] { SplitMember(prefix, '/', i, '?'); }
      if '[' in segments[i] { SplitMember(prefix, '/', i, '['); }
      assert "**"[0] == '*';
    }
    AgreesWhenLiteral(glob, prefix);
  }

  /** What `path_matches` means for every pattern whose shortcut prefix, if it has one, is free of wildcards. */
  lemma {:induction false} PathMatchesMeaning(glob: Glob, path: string, pattern: string)
    requires EndsInDoubleStar(pattern) ==> !HasWildcard(pattern[..|pattern| - 3])
    ensures PathMatches(glob, path, pattern) <==> Aligns(glob, Split(pattern, '/'), Split(path, '/'))
  {
    MatchIffAligns(glob, Split(pattern, '/'), Split(path, '/'));
    if pattern == "**" {
      var names := Split(path, '/');
      assert Split(pattern, '/') == ["**"] && ["**"][1..] == [];
      assert Match(glob, [], names[|names|..]);
    } else if EndsInDoubleStar(pattern) {
      var prefix := pattern[..|pattern| - 3];
      PlainPrefixAgrees(glob, prefix);
      assert pattern == prefix + TAIL;
    }
  }

  // ---- the shortcut, by the spelling of its prefix ----

  /** `fnmatch` itself, up to what bracket sets admit. */
  function Shell(sets: Sets): Glob {
    (name, pattern) => FnMatch(sets, name, pattern)
  }

  lemma {:induction false} OnlyItselfIsLiteral(sets: Sets, segment: string)
    requires '/' !in segment
    ensures OnlyItself(Shell(sets), segment) <==> LiteralOnly(segment)
  {
    if !HasWildcard(segment) {
      PlainIsLiteral(segment);
      assert "**"[0] == '*';
    } else {
      OnlyItsSpelling(sets, segment);
      if segment == "**" {
        assert Tokens("**")[0] == Many;
      } else {
        forall name | '/' !in name ensures SegmentMatches(Shell(sets), segment, name) == FnMatch(sets, name, segment) {
        }
      }
    }
  }

  predicate LiteralSegments(prefix: string) {
    forall i | 0 <= i < |Split(prefix, '/')| :: LiteralOnly(Split(prefix, '/')[i])
  }

  /** The shortcut is right for every path if and only if no segment of its prefix has a '*', a '?' or a
      bracket set that closes, whatever those sets admit. */
  lemma {:induction false} ShortcutBySpelling(sets: Sets, prefix: string)
    ensures ShortcutAgrees(Shell(sets), prefix) <==> LiteralSegments(prefix)
  {
    var segments := Split(prefix, '/');
    ShortcutExactly(Shell(sets), prefix);
    forall i | 0 <= i < |segments| ensures OnlyItself(Shell(sets), segments[i]) <==> LiteralOnly(segments[i]) {
      OnlyItselfIsLiteral(sets, segments[i]);
    }
  }

  /** `path_matches` means the declarative layout of this pattern, on every path. */
  ghost predicate MeansLayout(glob: Glob, pattern: string) {
    forall path :: PathMatches(glob, path, pattern) <==> Aligns(glob, Split(pattern, '/'), Split(path, '/'))
  }

  lemma {:induction false} TailOnPath(glob: Glob, prefix: string, path: string)
    ensures PathMatches(glob, path, prefix + TAIL) <==> Shortcut(path, prefix)
    ensures Aligns(glob, Split(prefix + TAIL, '/'), Split(path, '/')) <==>
              Match(glob, Split(prefix + TAIL, '/'), Split(path, '/'))
  {
    var pattern := prefix + TAIL;
    assert pattern[|pattern| - 3..] == TAIL && pattern[..|pattern| - 3] == prefix && |pattern| != 2;
    MatchIffAligns(glob, Split(pattern, '/'), Split(path, '/'));
  }

  lemma {:induction false} TailMeansLayout(glob: Glob, prefix: string)
    ensures MeansLayout(glob, prefix + TAIL) <==> ShortcutAgrees(glob, prefix)
  {
    forall path
      ensures (PathMatches(glob, path, prefix + TAIL) <==>
                 Aligns(glob, Split(prefix + TAIL, '/'), Split(path, '/'))) <==>
              (Shortcut(path, prefix) <==> Match(glob, Split(prefix + TAIL, '/'), Split(path, '/')))
    {
      TailOnPath(glob, prefix, path);
    }
  }

  /** So `path_matches` means the declarative layout on every path if and only if the pattern does not end
      in a slash and a double star, or is literal before it. */
  lemma {:induction false} PathMatchesExactly(sets: Sets, pattern: string)
    ensures MeansLayout(Shell(sets), pattern) <==>
              (EndsInDoubleStar(pattern) ==> LiteralSegments(pattern[..|pattern| - 3]))
  {
    var glob := Shell(sets);
    if EndsInDoubleStar(pattern) {
      var prefix := pattern[..|pattern| - 3];
      assert pattern == prefix + TAIL;
      ShortcutBySpelling(sets, prefix);
      TailMeansLayout(glob, prefix);
    } else {
      forall path ensures PathMatches(glob, path, pattern) <==> Aligns(glob, Split(pattern, '/'), Split(path, '/')) {
        PathMatchesMeaning(glob, path, pattern);
      }
    }
  }

  /** A failing path, for any `fnmatch`: two double stars mean every path, but the shortcut asks for the
      literal directory "**". */
  lemma {:induction false} TwoStarsRefuseAPath(glob: Glob)
    ensures !PathMatches(glob, "a", "**" + TAIL)
    ensures Aligns(glob, Split("**" + TAIL, '/'), Split("a", '/'))
  {
    StripDoubleStar("**");
    assert Split("**", '/') == ["**"] && Split("a", '/') == ["a"];
    assert ("**" + TAIL)[|"**" + TAIL| - 3..] == TAIL && ("**" + TAIL)[..|"**" + TAIL| - 3] == "**";
    assert "a"[0] != "**"[0];
    var stretches: seq<seq<string>> := [["a"], []];
    assert stretches[1..] == [[]] && stretches[1..][1..] == [];
    assert Flat(stretches) == ["a"] + Flat(stretches[1..]) == ["a"];
    assert Alignment(glob, ["**"] + ["**"], stretches);
  }
}
