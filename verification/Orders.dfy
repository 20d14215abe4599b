/** Strict orders, lexicographic comparison and sorting, as the modelled Python code relies on them:
    `sorted` and `list.sort` are stable, strings and tuples compare lexicographically. */
module Orders {

  ghost predicate StrictWeak<T(!new)>(lt: (T, T) -> bool) {
    && (forall x, y :: lt(x, y) ==> !lt(y, x))
    && (forall x, y, z :: lt(x, z) ==> lt(x, y) || lt(y, z))
  }

  ghost predicate StrictTotal<T(!new)>(lt: (T, T) -> bool) {
    && StrictWeak(lt)
    && (forall x, y :: x == y || lt(x, y) || lt(y, x))
  }

  predicate CharLess(a: char, b: char) {
    a < b
  }

  /** Lexicographic comparison of sequences: a proper prefix is smaller. */
  predicate LexLess<T(==)>(lt: (T, T) -> bool, a: seq<T>, b: seq<T>) {
    b != [] && (a == [] || lt(a[0], b[0]) || (a[0] == b[0] && LexLess(lt, a[1..], b[1..])))
  }

  /** Python's `<` on `str`: code points, lexicographically. */
  predicate TextLess(a: string, b: string) {
    LexLess(CharLess, a, b)
  }

  /** Python's `<` on tuples of `str`. */
  predicate TextsLess(a: seq<string>, b: seq<string>) {
    LexLess(TextLess, a, b)
  }

  lemma {:induction false} LexAsymmetric<T(!new)>(lt: (T, T) -> bool, a: seq<T>, b: seq<T>)
    requires StrictTotal(lt) && LexLess(lt, a, b)
    ensures !LexLess(lt, b, a)
  {
    if a != [] && a[0] == b[0] {
      LexAsymmetric(lt, a[1..], b[1..]);
    }
  }

  lemma {:induction false} LexCotransitive<T(!new)>(lt: (T, T) -> bool, a: seq<T>, b: seq<T>, c: seq<T>)
    requires StrictTotal(lt) && LexLess(lt, a, c)
    ensures LexLess(lt, a, b) || LexLess(lt, b, c)
  {
    if a != [] && b != [] && a[0] == b[0] == c[0] {
      LexCotransitive(lt, a[1..], b[1..], c[1..]);
    }
  }

  lemma {:induction false} LexConnected<T(!new)>(lt: (T, T) -> bool, a: seq<T>, b: seq<T>)
    requires StrictTotal(lt)
    ensures a == b || LexLess(lt, a, b) || LexLess(lt, b, a)
  {
    if a != [] && b != [] && a[0] == b[0] {
      LexConnected(lt, a[1..], b[1..]);
      assert a == [a[0]] + a[1..] && b == [b[0]] + b[1..];
    }
  }

  lemma {:induction false} LexConcat<T(!new)>(lt: (T, T) -> bool, a: seq<T>, b: seq<T>, x: seq<T>, y: seq<T>)
    requires |a| == |b|
    ensures LexLess(lt, a + x, b + y) <==> LexLess(lt, a, b) || (a == b && LexLess(lt, x, y))
    decreases |a|
  {
    if a == [] {
      assert a + x == x && b + y == y;
    } else {
      assert (a + x)[1..] == a[1..] + x && (b + y)[1..] == b[1..] + y;
      assert a == [a[0]] + a[1..] && b == [b[0]] + b[1..];
      LexConcat(lt, a[1..], b[1..], x, y);
    }
  }

  /** Lists that agree up to a place are in the order of what stands there. */
  lemma {:induction false} LexDiverges<T(!new)>(lt: (T, T) -> bool, a: seq<T>, b: seq<T>, i: nat)
    requires i < |a| && i < |b| && a[..i] == b[..i] && lt(a[i], b[i])
    ensures LexLess(lt, a, b)
  {
    if i > 0 {
      assert a[0] == a[..i][0] && b[0] == b[..i][0];
      assert a[1..][..i - 1] == a[..i][1..] && b[1..][..i - 1] == b[..i][1..];
      LexDiverges(lt, a[1..], b[1..], i - 1);
    }
  }

  /** A smaller list ends, or goes its own way, at some place up to which the two agree. */
  lemma {:induction false} LexDivergence<T(!new)>(lt: (T, T) -> bool, a: seq<T>, b: seq<T>) returns (i: nat)
    requires LexLess(lt, a, b)
    ensures i <= |a| && i < |b| && a[..i] == b[..i] && (i == |a| || lt(a[i], b[i]))
  {
    if a == [] || lt(a[0], b[0]) {
      i := 0;
    } else {
      var k := LexDivergence(lt, a[1..], b[1..]);
      i := k + 1;
      assert a[..i] == [a[0]] + a[1..][..k] && b[..i] == [b[0]] + b[1..][..k];
    }
  }

  lemma {:induction false} TextLessTotal()
    ensures StrictTotal(TextLess)
  {
    forall a, b | TextLess(a, b) ensures !TextLess(b, a) { LexAsymmetric(CharLess, a, b); }
    forall a, b, c | TextLess(a, c) ensures TextLess(a, b) || TextLess(b, c) { LexCotransitive(CharLess, a, b, c); }
    forall a, b ensures a == b || TextLess(a, b) || TextLess(b, a) { LexConnected(CharLess, a, b); }
  }

  lemma {:induction false} TextsLessTotal()
    ensures StrictTotal(TextsLess)
  {
    TextLessTotal();
    forall a, b | TextsLess(a, b) ensures !TextsLess(b, a) { LexAsymmetric(TextLess, a, b); }
    forall a, b, c | TextsLess(a, c) ensures TextsLess(a, b) || TextsLess(b, c) { LexCotransitive(TextLess, a, b, c); }
    forall a, b ensures a == b || TextsLess(a, b) || TextsLess(b, a) { LexConnected(TextLess, a, b); }
  }

  lemma {:induction false} TakeNext<T>(s: seq<T>, k: nat)
    requires k < |s|
    ensures s[..k + 1] == s[..k] + [s[k]]
  {
  }

  ghost predicate Sorted<T(!new)>(lt: (T, T) -> bool, s: seq<T>) {
    forall i, j | 0 <= i < j < |s| :: !lt(s[j], s[i])
  }

  ghost predicate StrictlySorted<T(!new)>(lt: (T, T) -> bool, s: seq<T>) {
    forall i, j | 0 <= i < j < |s| :: lt(s[i], s[j])
  }

  ghost predicate Distinct<T(!new)>(s: seq<T>) {
    forall i, j | 0 <= i < j < |s| :: s[i] != s[j]
  }

  function Insert<T>(lt: (T, T) -> bool, x: T, s: seq<T>): (r: seq<T>)
    ensures multiset(r) == multiset{x} + multiset(s)
    ensures |r| == |s| + 1
  {
    if s == [] || !lt(s[0], x) then [x] + s
    else
      assert s == [s[0]] + s[1..];
      [s[0]] + Insert(lt, x, s[1..])
  }

  lemma {:induction false} NotAbove<T(!new)>(lt: (T, T) -> bool, x: T, y: T, z: T)
    requires StrictWeak(lt) && !lt(y, x) && !lt(z, y)
    ensures !lt(z, x)
  {
  }

  lemma {:induction false} InsertKeepsSorted<T(!new)>(lt: (T, T) -> bool, x: T, s: seq<T>)
    requires StrictWeak(lt) && Sorted(lt, s)
    ensures Sorted(lt, Insert(lt, x, s))
  {
    var r := Insert(lt, x, s);
    if s == [] {
    } else if !lt(s[0], x) {
      forall j | 1 <= j < |r| ensures !lt(r[j], x) {
        assert j > 1 ==> !lt(s[j - 1], s[0]);
        if j > 1 { NotAbove(lt, x, s[0], s[j - 1]); }
      }
    } else {
      var t := Insert(lt, x, s[1..]);
      InsertKeepsSorted(lt, x, s[1..]);
      forall j | 1 <= j < |r| ensures !lt(r[j], r[0]) {
        assert r[j] in multiset(t);
        assert r[j] == x || r[j] in s[1..];
      }
    }
  }

  /** Stable sort of a list. */
  function SortBy<T(!new)>(lt: (T, T) -> bool, s: seq<T>): (r: seq<T>)
    requires StrictWeak(lt)
    ensures Sorted(lt, r)
    ensures multiset(r) == multiset(s)
    ensures |r| == |s|
  {
    if s == [] then []
    else
      assert s == [s[0]] + s[1..];
      InsertKeepsSorted(lt, s[0], SortBy(lt, s[1..]));
      Insert(lt, s[0], SortBy(lt, s[1..]))
  }

  /** The elements with some property, in order. */
  function Where<T>(keep: T -> bool, s: seq<T>): seq<T> {
    if s == [] then []
    else if keep(s[0]) then [s[0]] + Where(keep, s[1..])
    else Where(keep, s[1..])
  }

  lemma {:induction false} WhereHolds<T(!new)>(keep: T -> bool, s: seq<T>)
    ensures forall x :: x in Where(keep, s) <==> x in s && keep(x)
  {
    if s != [] {
      WhereHolds(keep, s[1..]);
      assert forall x :: x in s <==> x == s[0] || x in s[1..];
    }
  }

  lemma {:induction false} WhereLast<T>(keep: T -> bool, s: seq<T>, x: T)
    ensures Where(keep, s + [x]) == Where(keep, s) + (if keep(x) then [x] else [])
  {
    if s == [] {
      assert [] + [x] == [x] && [x][1..] == [];
    } else {
      assert (s + [x])[1..] == s[1..] + [x];
      WhereLast(keep, s[1..], x);
    }
  }

  /** No element with the property comes before another in the order. */
  ghost predicate Level<T(!new)>(lt: (T, T) -> bool, keep: T -> bool) {
    forall x, y | keep(x) && keep(y) :: !lt(x, y)
  }

  lemma {:induction false} WhereCons<T>(keep: T -> bool, x: T, s: seq<T>)
    ensures Where(keep, [x] + s) == (if keep(x) then [x] else []) + Where(keep, s)
  {
    assert ([x] + s)[1..] == s;
  }

  lemma {:induction false} InsertStable<T(!new)>(lt: (T, T) -> bool, keep: T -> bool, x: T, s: seq<T>)
    requires Level(lt, keep)
    ensures Where(keep, Insert(lt, x, s)) == (if keep(x) then [x] else []) + Where(keep, s)
  {
    if s == [] || !lt(s[0], x) {
      WhereCons(keep, x, s);
    } else {
      InsertStable(lt, keep, x, s[1..]);
      WhereCons(keep, s[0], Insert(lt, x, s[1..]));
    }
  }

  /** Sorting is stable: elements on one level keep their order. */
  lemma {:induction false} SortStable<T(!new)>(lt: (T, T) -> bool, keep: T -> bool, s: seq<T>)
    requires StrictWeak(lt) && Level(lt, keep)
    ensures Where(keep, SortBy(lt, s)) == Where(keep, s)
  {
    if s != [] {
      SortStable(lt, keep, s[1..]);
      InsertStable(lt, keep, s[0], SortBy(lt, s[1..]));
    }
  }

  /** The order tells any two different elements of the list apart. */
  ghost predicate Separates<T(!new)>(lt: (T, T) -> bool, s: seq<T>) {
    forall x, y | x in s && y in s :: x == y || lt(x, y) || lt(y, x)
  }

  ghost predicate Asymmetric<T(!new)>(lt: (T, T) -> bool) {
    forall x, y :: lt(x, y) ==> !lt(y, x)
  }

  lemma {:induction false} SortedHead<T(!new)>(lt: (T, T) -> bool, s: seq<T>, x: T)
    requires Sorted(lt, s) && x in s && Asymmetric(lt)
    ensures !lt(x, s[0])
  {
    var i :| 0 <= i < |s| && s[i] == x;
  }

  lemma {:induction false} SameHead<T(!new)>(lt: (T, T) -> bool, a: seq<T>, b: seq<T>)
    requires Separates(lt, a) && Asymmetric(lt) && Sorted(lt, a) && Sorted(lt, b)
    requires a != [] && b != [] && multiset(a) == multiset(b)
    ensures a[0] == b[0]
  {
    assert a[0] in multiset(b) && b[0] in multiset(a);
    SortedHead(lt, a, b[0]);
    SortedHead(lt, b, a[0]);
  }

  lemma {:induction false} HeadAndTail<T>(s: seq<T>)
    requires s != []
    ensures s == [s[0]] + s[1..]
    ensures multiset(s[1..]) == multiset(s) - multiset{s[0]}
  {
    assert s == [s[0]] + s[1..];
  }

  lemma {:induction false} TailKeeps<T(!new)>(lt: (T, T) -> bool, s: seq<T>)
    requires s != []
    ensures Sorted(lt, s) ==> Sorted(lt, s[1..])
    ensures Separates(lt, s) ==> Separates(lt, s[1..])
  {
    assert forall x | x in s[1..] :: x in s;
  }

  /** Two sorted arrangements of the same elements are the same list. */
  lemma {:induction false} SortedUnique<T(!new)>(lt: (T, T) -> bool, a: seq<T>, b: seq<T>)
    requires Separates(lt, a) && Asymmetric(lt) && Sorted(lt, a) && Sorted(lt, b)
    requires multiset(a) == multiset(b)
    ensures a == b
    decreases |a|
  {
    assert |multiset(a)| == |a| && |multiset(b)| == |b|;
    if a != [] {
      SameHead(lt, a, b);
      HeadAndTail(a);
      HeadAndTail(b);
      TailKeeps(lt, a);
      TailKeeps(lt, b);
      SortedUnique(lt, a[1..], b[1..]);
    }
  }

  lemma {:induction false} LeastExists<T(!new)>(lt: (T, T) -> bool, s: set<T>)
    requires StrictTotal(lt) && s != {}
    ensures exists m :: m in s && forall y | y in s :: m == y || lt(m, y)
  {
    var x :| x in s;
    if s == {x} {
      assert forall y | y in s :: x == y;
    } else {
      LeastExists(lt, s - {x});
      var m :| m in s - {x} && forall y | y in s - {x} :: m == y || lt(m, y);
      var least := if lt(x, m) then x else m;
      assert forall y | y in s :: y == x || y in s - {x};
      assert least in s && forall y | y in s :: least == y || lt(least, y);
    }
  }

  function Least<T(!new)>(lt: (T, T) -> bool, s: set<T>): (m: T)
    requires StrictTotal(lt) && s != {}
    ensures m in s && forall y | y in s :: m == y || lt(m, y)
  {
    LeastExists(lt, s);
    var m :| m in s && forall y | y in s :: m == y || lt(m, y);
    m
  }

  /** `sorted` of a set. */
  function SortSet<T(!new)>(lt: (T, T) -> bool, s: set<T>): (r: seq<T>)
    requires StrictTotal(lt)
    ensures StrictlySorted(lt, r)
    ensures forall x :: x in r <==> x in s
  {
    if s == {} then []
    else
      var m := Least(lt, s);
      [m] + SortSet(lt, s - {m})
  }

  /** `sorted` of a set of strings. */
  function SortTexts(s: set<string>): (r: seq<string>)
    ensures StrictlySorted(TextLess, r)
    ensures forall x :: x in r <==> x in s
  {
    TextLessTotal();
    SortSet(TextLess, s)
  }

  /** `sorted` of a set of tuples of strings. */
  function SortTextTuples(s: set<seq<string>>): (r: seq<seq<string>>)
    ensures StrictlySorted(TextsLess, r)
    ensures forall x :: x in r <==> x in s
  {
    TextsLessTotal();
    SortSet(TextsLess, s)
  }

  /** The lists one after the other. */
  function Flat<T>(lists: seq<seq<T>>): seq<T> {
    if lists == [] then [] else lists[0] + Flat(lists[1..])
  }

  lemma {:induction false} FlatOne<T>(list: seq<T>)
    ensures Flat([list]) == list
  {
    assert [list][1..] == [] && list + [] == list;
  }

  function Mapped<A, B>(f: A -> B, s: seq<A>): (r: seq<B>)
    ensures |r| == |s| && forall i | 0 <= i < |s| :: r[i] == f(s[i])
  {
    seq(|s|, i requires 0 <= i < |s| => f(s[i]))
  }

  lemma {:induction false} WithoutAt<T>(s: seq<T>, j: nat)
    requires j < |s|
    ensures multiset(s) == multiset{s[j]} + multiset(s[..j] + s[j + 1..])
  {
    assert s == s[..j] + [s[j]] + s[j + 1..];
  }

  lemma {:induction false} MappedWithoutAt<A, B>(f: A -> B, s: seq<A>, j: nat, rest: seq<A>)
    requires j < |s| && rest == s[..j] + s[j + 1..]
    ensures multiset(Mapped(f, s)) == multiset{f(s[j])} + multiset(Mapped(f, rest))
  {
    var r := Mapped(f, s);
    WithoutAt(r, j);
    assert Mapped(f, rest) == r[..j] + r[j + 1..];
  }

  lemma {:induction false} MatchFirst<T>(a: seq<T>, b: seq<T>) returns (j: nat)
    requires a != [] && multiset(a) == multiset(b)
    ensures j < |b| && b[j] == a[0]
    ensures multiset(a[1..]) == multiset(b[..j] + b[j + 1..])
  {
    assert a[0] in multiset(b);
    j :| 0 <= j < |b| && b[j] == a[0];
    WithoutAt(b, j);
    assert a == [a[0]] + a[1..];
    assert multiset(a[1..]) == multiset(a) - multiset{a[0]};
    assert multiset(b[..j] + b[j + 1..]) == multiset(b) - multiset{b[j]};
  }

  /** Mapping rearranged lists gives rearranged results. */
  lemma {:induction false} MappedPermutes<A, B>(f: A -> B, a: seq<A>, b: seq<A>)
    requires multiset(a) == multiset(b)
    ensures multiset(Mapped(f, a)) == multiset(Mapped(f, b))
    decreases |a|
  {
    if a == [] {
      assert |multiset(b)| == 0;
    } else {
      var j := MatchFirst(a, b);
      var x, y := a[1..], b[..j] + b[j + 1..];
      var left, right := Mapped(f, x), Mapped(f, y);
      assert multiset(left) == multiset(right) by {
        MappedPermutes(f, x, y);
      }
      assert multiset(Mapped(f, a)) == multiset{f(a[0])} + multiset(left) by {
        MappedWithoutAt(f, a, 0, x);
      }
      assert multiset(Mapped(f, b)) == multiset{f(a[0])} + multiset(right) by {
        MappedWithoutAt(f, b, j, y);
      }
    }
  }

  lemma {:induction false} WhereCount<T>(keep: T -> bool, s: seq<T>)
    ensures |Where(keep, s)| == multiset(Mapped(keep, s))[true]
  {
    if s != [] {
      WhereCount(keep, s[1..]);
      assert Mapped(keep, s) == [keep(s[0])] + Mapped(keep, s[1..]);
    }
  }

  /** How many elements have the property does not depend on their order. */
  lemma {:induction false} WherePermutes<T>(keep: T -> bool, a: seq<T>, b: seq<T>)
    requires multiset(a) == multiset(b)
    ensures |Where(keep, a)| == |Where(keep, b)|
  {
    MappedPermutes(keep, a, b);
    WhereCount(keep, a);
    WhereCount(keep, b);
  }

  lemma {:induction false} DistinctOnce<T(!new)>(s: seq<T>, x: T)
    requires Distinct(s)
    ensures multiset(s)[x] <= 1
  {
    if s != [] {
      assert s == [s[0]] + s[1..];
      DistinctOnce(s[1..], x);
      if s[0] == x {
        assert x !in s[1..];
      }
    }
  }

  lemma {:induction false} TwiceInMultiset<T(!new)>(s: seq<T>, i: nat, j: nat)
    requires i < j < |s| && s[i] == s[j]
    ensures multiset(s)[s[i]] >= 2
  {
    assert s == s[..i] + [s[i]] + s[i + 1..j] + [s[j]] + s[j + 1..];
  }

  lemma {:induction false} DistinctPermutes<T(!new)>(a: seq<T>, b: seq<T>)
    requires Distinct(a) && multiset(a) == multiset(b)
    ensures Distinct(b)
  {
    forall i, j | 0 <= i < j < |b| ensures b[i] != b[j] {
      if b[i] == b[j] {
        TwiceInMultiset(b, i, j);
        DistinctOnce(a, b[i]);
      }
    }
  }

  lemma {:induction false} CancelOne<T>(x: T, a: multiset<T>, b: multiset<T>)
    requires multiset{x} + a == multiset{x} + b
    ensures a == b
  {
    assert a == (multiset{x} + a) - multiset{x};
    assert b == (multiset{x} + b) - multiset{x};
  }

  /** `sorted` of a list of strings. */
  function SortedTexts(texts: seq<string>): (r: seq<string>)
    ensures multiset(r) == multiset(texts) && |r| == |texts| && Sorted(TextLess, r)
  {
    TextLessTotal();
    SortBy(TextLess, texts)
  }

  /** Two strictly sorted lists with the same elements are the same list. */
  lemma {:induction false} StrictlySortedUnique<T(!new)>(lt: (T, T) -> bool, a: seq<T>, b: seq<T>)
    requires StrictTotal(lt) && StrictlySorted(lt, a) && StrictlySorted(lt, b)
    requires forall x :: x in a <==> x in b
    ensures a == b
  {
    HasMember(a);
    HasMember(b);
    if a != [] {
      SameLeast(lt, a, b);
      StrictTail(lt, a);
      StrictTail(lt, b);
      StrictlySortedUnique(lt, a[1..], b[1..]);
      assert a == [a[0]] + a[1..] && b == [b[0]] + b[1..];
    }
  }

  lemma {:induction false} HasMember<T(!new)>(s: seq<T>)
    ensures s != [] <==> exists x :: x in s
  {
    if s != [] {
      assert s[0] in s;
    }
  }

  lemma {:induction false} SameLeast<T(!new)>(lt: (T, T) -> bool, a: seq<T>, b: seq<T>)
    requires StrictTotal(lt) && StrictlySorted(lt, a) && StrictlySorted(lt, b) && a != [] && b != []
    requires forall x :: x in a <==> x in b
    ensures a[0] == b[0]
  {
    assert a[0] in b && b[0] in a;
    var i :| 0 <= i < |b| && b[i] == a[0];
    var j :| 0 <= j < |a| && a[j] == b[0];
  }

  lemma {:induction false} StrictTail<T(!new)>(lt: (T, T) -> bool, s: seq<T>)
    requires StrictTotal(lt) && StrictlySorted(lt, s) && s != []
    ensures StrictlySorted(lt, s[1..]) && forall x :: x in s[1..] <==> x in s && x != s[0]
  {
    forall x ensures x in s[1..] <==> x in s && x != s[0] {
      if x in s && x != s[0] {
        var i :| 0 <= i < |s| && s[i] == x;
        assert s[1..][i - 1] == x;
      }
      if x in s[1..] {
        var i :| 0 <= i < |s| - 1 && s[1..][i] == x;
        assert lt(s[0], s[i + 1]);
      }
    }
  }

  lemma {:induction false} SortedTextsFixed(texts: seq<string>)
    requires Sorted(TextLess, texts)
    ensures SortedTexts(texts) == texts
  {
    TextLessTotal();
    SortedUnique(TextLess, SortedTexts(texts), texts);
  }
}
