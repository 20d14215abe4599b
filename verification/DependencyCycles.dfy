/** The quality gate's dependency-cycle finder: a depth-first search, keys and targets in ascending order, that
    reports each edge back into its stack as the least rotation of the cycle it closes. */
module DependencyCycles {
  import opened Orders

  type Graph = map<string, set<string>>

  function Targets(g: Graph, node: string): set<string> {
    if node in g then g[node] else {}
  }

  /** Every name the search can meet. */
  ghost function Nodes(g: Graph): set<string> {
    g.Keys + set n, t | n in g && t in g[n] :: t
  }

  ghost predicate Walk(g: Graph, w: seq<string>) {
    forall i | 0 <= i < |w| - 1 :: w[i + 1] in Targets(g, w[i])
  }

  ghost predicate ClosedWalk(g: Graph, w: seq<string>) {
    |w| >= 2 && Walk(g, w) && w[|w| - 1] == w[0]
  }

  ghost predicate Acyclic(g: Graph) {
    forall w :: !ClosedWalk(g, w)
  }

  /** A closed walk that repeats no node before it returns to its start. */
  ghost predicate SimpleCycle(g: Graph, c: seq<string>) {
    ClosedWalk(g, c) && Distinct(Body(c))
  }

  /** A closed list without its repeated last entry. */
  function Body(c: seq<string>): seq<string> {
    if c == [] then [] else c[..|c| - 1]
  }

  function Rotate<T>(body: seq<T>, k: nat): seq<T>
    requires k <= |body|
  {
    body[k..] + body[..k]
  }

  ghost predicate LeastRotation(body: seq<string>) {
    forall k | 0 <= k <= |body| :: !TextsLess(Rotate(body, k), body)
  }

  /** The form in which a cycle is reported: its least rotation, closed. */
  ghost predicate CanonicalCycle(g: Graph, c: seq<string>) {
    SimpleCycle(g, c) && LeastRotation(Body(c))
  }

  ghost predicate OnCycle(c: seq<string>, v: string, w: string) {
    exists k :: 0 <= k < |c| - 1 && c[k] == v && c[k + 1] == w
  }

  ghost predicate Reported(result: set<seq<string>>, v: string, w: string) {
    exists c :: c in result && OnCycle(c, v, w)
  }

  /** Two closed lists that name the same cyclic order. */
  ghost predicate SameRing(a: seq<string>, b: seq<string>) {
    exists k :: 0 <= k <= |Body(b)| && Body(a) == Rotate(Body(b), k)
  }

  // ---- what is reported, said of the graph alone ----

  /** Where a walk may go on: to any key at its start, then to a target of its last node. */
  function Next(g: Graph, walk: seq<string>): set<string> {
    if walk == [] then g.Keys else Targets(g, walk[|walk| - 1])
  }

  /** A walk that starts at a key and repeats no node. */
  ghost predicate SimpleWalk(g: Graph, w: seq<string>) {
    w != [] && w[0] in g.Keys && Walk(g, w) && Distinct(w)
  }

  /** Of all simple walks from any key to its last node, the one that comes first. */
  ghost predicate LeastWalk(g: Graph, w: seq<string>) {
    SimpleWalk(g, w) && forall q | SimpleWalk(g, q) && q[|q| - 1] == w[|w| - 1] :: !TextsLess(q, w)
  }

  /** An edge from the end of the walk leads back to its place `i`. */
  ghost predicate LeadsBack(g: Graph, w: seq<string>, i: nat) {
    i < |w| && w[i] in Targets(g, w[|w| - 1])
  }

  /** The closed list such an edge makes. */
  function Loop(w: seq<string>, i: nat): (c: seq<string>)
    requires i < |w|
    ensures |c| >= 2
  {
    w[i..] + [w[i]]
  }

  /** The cycle closed by an edge that leads from the end of a least walk back into that walk. */
  ghost predicate BackCycle(g: Graph, c: seq<string>) {
    CanonicalCycle(g, c) && exists w, i: nat :: LeastWalk(g, w) && LeadsBack(g, w, i) && SameRing(c, Loop(w, i))
  }

  // ---- rotations ----

  lemma {:induction false} RotateTwice<T>(body: seq<T>, i: nat, j: nat)
    requires i <= |body| && j <= |body|
    ensures Rotate(Rotate(body, i), j) == Rotate(body, if i + j <= |body| then i + j else i + j - |body|)
  {
    var n := |body|;
    var m := if i + j <= n then i + j else i + j - n;
    var left, right := Rotate(Rotate(body, i), j), Rotate(body, m);
    forall k | 0 <= k < n ensures left[k] == right[k] {
      var p := if k < n - j then k + j else k + j - n;
      assert left[k] == Rotate(body, i)[p];
    }
  }

  /** The smallest of the rotations by `from` and more places. */
  function MinRotation(body: seq<string>, from: nat): (r: seq<string>)
    requires from < |body|
    ensures |r| == |body|
    decreases |body| - from
  {
    var here := Rotate(body, from);
    if from + 1 == |body| then here
    else
      var rest := MinRotation(body, from + 1);
      if TextsLess(rest, here) then rest else here
  }

  lemma {:induction false} MinRotationMeans(body: seq<string>, from: nat)
    requires from < |body|
    ensures exists k :: from <= k < |body| && MinRotation(body, from) == Rotate(body, k)
    ensures forall k | from <= k < |body| :: !TextsLess(Rotate(body, k), MinRotation(body, from))
    decreases |body| - from
  {
    TextsLessTotal();
    var here, r := Rotate(body, from), MinRotation(body, from);
    if from + 1 < |body| {
      MinRotationMeans(body, from + 1);
      var rest := MinRotation(body, from + 1);
      forall k | from <= k < |body| ensures !TextsLess(Rotate(body, k), r) {
        if k > from {
          assert !TextsLess(Rotate(body, k), rest);
        }
      }
    } else {
      assert r == here;
    }
  }

  /** The rotation names the same cyclic order wherever one starts reading it. */
  lemma {:induction false} RotationsShareMinimum(body: seq<string>, r: seq<string>)
    requires body != [] && r == MinRotation(body, 0)
    ensures LeastRotation(r)
  {
    MinRotationMeans(body, 0);
    var k :| 0 <= k < |body| && r == Rotate(body, k);
    forall j | 0 <= j <= |r| ensures !TextsLess(Rotate(r, j), r) {
      RotateTwice(body, k, j);
      var m := if k + j <= |body| then k + j else k + j - |body|;
      if m == |body| { assert Rotate(body, m) == Rotate(body, 0); }
    }
  }

  /** `items` is the closed stretch of the stack; its last entry repeats the first. */
  function Canonical(items: seq<string>): (c: seq<string>)
    requires |items| >= 2
  {
    var smallest := MinRotation(Body(items), 0);
    smallest + [smallest[0]]
  }

  lemma {:induction false} ClosedAt(g: Graph, items: seq<string>, k: nat, i: nat)
    requires ClosedWalk(g, items) && k < |items| - 1 && i < |items| - 1
    ensures var r := Rotate(items[..|items| - 1], k); var n := |r|;
            r[if i + 1 < n then i + 1 else 0] in Targets(g, r[i])
  {
    var n := |items| - 1;
    var r := Rotate(items[..n], k);
    var p := if i < n - k then i + k else i + k - n;
    assert r[i] == items[p];
    assert items[p + 1] in Targets(g, items[p]);
    assert p + 1 == n ==> items[p + 1] == items[0];
  }

  lemma {:induction false} RotateKeepsDistinct(body: seq<string>, k: nat)
    requires Distinct(body) && k <= |body|
    ensures Distinct(Rotate(body, k))
  {
    var r := Rotate(body, k);
    forall i, j | 0 <= i < j < |r| ensures r[i] != r[j] {
      var p := if i < |body| - k then i + k else i + k - |body|;
      var q := if j < |body| - k then j + k else j + k - |body|;
      assert r[i] == body[p] && r[j] == body[q];
    }
  }

  lemma {:induction false} CanonicalIsCycle(g: Graph, items: seq<string>)
    requires SimpleCycle(g, items)
    ensures CanonicalCycle(g, Canonical(items))
  {
    var n := |items| - 1;
    var r := MinRotation(items[..n], 0);
    var c := Canonical(items);
    assert c[..n] == r;
    MinRotationMeans(items[..n], 0);
    var k: nat :| 0 <= k < n && r == Rotate(items[..n], k);
    assert ClosedWalk(g, c) by {
      forall i | 0 <= i < n ensures c[i + 1] in Targets(g, c[i]) {
        ClosedAt(g, items, k, i);
      }
    }
    RotateKeepsDistinct(items[..n], k);
    RotationsShareMinimum(items[..n], r);
  }

  lemma {:induction false} RotateAt<T>(body: seq<T>, k: nat, p: nat)
    requires k < |body| && p < |body|
    ensures Rotate(body, k)[if p >= k then p - k else p - k + |body|] == body[p]
  {
  }

  /** Neighbours in a ring stay neighbours in any of its rotations, closed. */
  lemma {:induction false} RotationKeepsEdges(body: seq<string>, k: nat, p: nat)
    requires k < |body| && p < |body|
    ensures var r := Rotate(body, k);
            OnCycle(r + [r[0]], body[p], body[if p + 1 == |body| then 0 else p + 1])
  {
    var n := |body|;
    var c := Rotate(body, k) + [Rotate(body, k)[0]];
    var i := if p >= k then p - k else p - k + n;
    RotateAt(body, k, p);
    RotateAt(body, k, if p + 1 == n then 0 else p + 1);
    assert c[i] == body[p] && c[i + 1] == body[if p + 1 == n then 0 else p + 1];
  }

  lemma {:induction false} CanonicalKeepsEdges(items: seq<string>, p: nat)
    requires |items| >= 2 && items[|items| - 1] == items[0] && p < |items| - 1
    ensures OnCycle(Canonical(items), items[p], items[p + 1])
  {
    var body := Body(items);
    var r := MinRotation(body, 0);
    MinRotationMeans(body, 0);
    var k: nat :| 0 <= k < |body| && r == Rotate(body, k);
    RotationKeepsEdges(body, k, p);
  }

  lemma {:induction false} RotatedCanonicalsAgree(a: seq<string>, b: seq<string>, k: nat)
    requires LeastRotation(a) && LeastRotation(b) && k <= |b| && a == Rotate(b, k)
    ensures a == b
  {
    TextsLessTotal();
    RotateTwice(b, k, |b| - k);
    assert Rotate(b, |b|) == b;
    assert Rotate(a, |b| - k) == b;
  }

  // ---- the search ----

  /** Each edge out of a finished node leads to an earlier finished node or lies on a reported cycle. */
  ghost predicate Accounted(g: Graph, finished: seq<string>, result: set<seq<string>>) {
    forall i, w | 0 <= i < |finished| && w in Targets(g, finished[i]) ::
      w in finished[..i] || Reported(result, finished[i], w)
  }

  lemma {:induction false} AccountedGrows(g: Graph, finished: seq<string>, before: set<seq<string>>,
      after: set<seq<string>>)
    requires Accounted(g, finished, before) && before <= after
    ensures Accounted(g, finished, after)
  {
    forall i, w | 0 <= i < |finished| && w in Targets(g, finished[i]) && Reported(before, finished[i], w)
      ensures Reported(after, finished[i], w)
    {
      var c :| c in before && OnCycle(c, finished[i], w);
      assert c in after;
    }
  }

  lemma {:induction false} AccountedExtends(g: Graph, finished: seq<string>, result: set<seq<string>>, node: string)
    requires Accounted(g, finished, result)
    requires forall t | t in Targets(g, node) :: t in finished || Reported(result, node, t)
    ensures Accounted(g, finished + [node], result)
  {
    var longer := finished + [node];
    forall i, w | 0 <= i < |longer| && w in Targets(g, longer[i])
      ensures w in longer[..i] || Reported(result, longer[i], w)
    {
      assert longer[..i] == finished[..i];
      assert finished[..|finished|] == finished;
    }
  }

  /** The stack is a walk without repeats, and `visiting` holds just its nodes. */
  ghost predicate OnStack(g: Graph, stack: seq<string>, visiting: set<string>) {
    Distinct(stack) && Walk(g, stack) && forall n :: n in visiting <==> n in stack
  }

  ghost predicate Finished(finished: seq<string>, visited: set<string>) {
    Distinct(finished) && forall n :: n in visited <==> n in finished
  }

  /** Everything reported is a cycle in its reported form, and no finished node has an edge left over. */
  ghost predicate Found(g: Graph, finished: seq<string>, result: set<seq<string>>) {
    (forall c {:trigger CanonicalCycle(g, c)} | c in result :: CanonicalCycle(g, c)) && Accounted(g, finished, result)
  }

  /** What holds between any two statements of the search. */
  ghost predicate Searching(g: Graph, stack: seq<string>, visiting: set<string>, visited: set<string>,
      finished: seq<string>, result: set<seq<string>>)
  {
    && OnStack(g, stack, visiting)
    && Finished(finished, visited)
    && visiting !! visited
    && Found(g, finished, result)
  }

  lemma {:induction false} DistinctTop(stack: seq<string>, node: string)
    ensures Distinct(stack + [node]) <==> Distinct(stack) && node !in stack
    ensures (stack + [node])[..|stack + [node]| - 1] == stack
  {
    var taller := stack + [node];
    if Distinct(taller) {
      forall i, j | 0 <= i < j < |stack| ensures stack[i] != stack[j] {
        assert taller[i] != taller[j];
      }
      forall i | 0 <= i < |stack| ensures stack[i] != node {
        assert taller[i] != taller[|stack|];
      }
    }
  }

  lemma {:induction false} WalkTop(g: Graph, stack: seq<string>, node: string)
    ensures Walk(g, stack + [node]) <==> Walk(g, stack) && (stack != [] ==> node in Targets(g, stack[|stack| - 1]))
  {
    var taller := stack + [node];
    if Walk(g, taller) {
      forall i | 0 <= i < |stack| - 1 ensures stack[i + 1] in Targets(g, stack[i]) {
        assert taller[i + 1] in Targets(g, taller[i]);
      }
      assert stack != [] ==> taller[|stack| - 1 + 1] in Targets(g, taller[|stack| - 1]);
    }
  }

  /** A node goes on top of the stack, and comes off again. */
  lemma {:induction false} StackTop(g: Graph, stack: seq<string>, visiting: set<string>, node: string)
    requires node !in visiting
    ensures OnStack(g, stack + [node], visiting + {node}) <==>
              OnStack(g, stack, visiting) && (stack != [] ==> node in Targets(g, stack[|stack| - 1]))
  {
    DistinctTop(stack, node);
    WalkTop(g, stack, node);
    assert forall n :: n in stack + [node] <==> n in stack || n == node;
  }

  lemma {:induction false} Entered(g: Graph, stack: seq<string>, visiting: set<string>, visited: set<string>,
      finished: seq<string>, result: set<seq<string>>, node: string)
    requires Searching(g, stack, visiting, visited, finished, result) && node !in visiting && node !in visited
    requires stack != [] ==> node in Targets(g, stack[|stack| - 1])
    ensures Searching(g, stack + [node], visiting + {node}, visited, finished, result)
    ensures (stack + [node])[..|stack + [node]| - 1] == stack
    ensures visiting + {node} - {node} == visiting
  {
    StackTop(g, stack, visiting, node);
    DistinctTop(stack, node);
  }

  lemma {:induction false} OneMoreFinished(finished: seq<string>, visited: set<string>, node: string)
    requires Finished(finished, visited) && node !in visited
    ensures Finished(finished + [node], visited + {node})
  {
  }

  lemma {:induction false} Left(g: Graph, stack: seq<string>, visiting: set<string>, visited: set<string>,
      finished: seq<string>, result: set<seq<string>>, node: string)
    requires Searching(g, stack + [node], visiting + {node}, visited, finished, result) && node !in visiting
    requires forall t | t in Targets(g, node) :: t in visited || Reported(result, node, t)
    ensures Searching(g, stack, visiting, visited + {node}, finished + [node], result)
  {
    StackTop(g, stack, visiting, node);
    OneMoreFinished(finished, visited, node);
    AccountedExtends(g, finished, result, node);
  }

  /** The nodes the search has yet to enter. */
  ghost function Unmet(g: Graph, visiting: set<string>, visited: set<string>): set<string> {
    Nodes(g) - visiting - visited
  }

  lemma {:induction false} FewerUnmet(g: Graph, visiting: set<string>, visited: set<string>, node: string)
    requires node in Nodes(g) && node !in visiting && node !in visited
    ensures Unmet(g, visiting + {node}, visited) < Unmet(g, visiting, visited)
  {
    assert Unmet(g, visiting + {node}, visited) == Unmet(g, visiting, visited) - {node};
    assert node in Unmet(g, visiting, visited);
  }

  lemma {:induction false} NoMoreUnmet(g: Graph, visiting: set<string>, visited: set<string>, more: set<string>)
    requires visited <= more
    ensures Unmet(g, visiting, more) <= Unmet(g, visiting, visited)
  {
  }

  /** The stretch of the stack from a node on, closed by an edge back to that node. */
  lemma {:induction false} StackCycle(g: Graph, stack: seq<string>, index: nat)
    requires Distinct(stack) && Walk(g, stack) && LeadsBack(g, stack, index)
    ensures SimpleCycle(g, Loop(stack, index))
  {
    var items := Loop(stack, index);
    assert items[..|items| - 1] == stack[index..];
    forall i | 0 <= i < |items| - 1 ensures items[i + 1] in Targets(g, items[i]) {
      if i + 1 < |items| - 1 {
        assert stack[index + i + 1] in Targets(g, stack[index + i]);
      }
    }
  }

  /** `list.index`. */
  function IndexIn(stack: seq<string>, node: string): (k: nat)
    requires node in stack
    ensures k < |stack| && stack[k] == node
  {
    if stack[0] == node then 0 else IndexIn(stack[1..], node) + 1
  }

  lemma {:induction false} CycleAdded(g: Graph, finished: seq<string>, result: set<seq<string>>, cycle: seq<string>,
      v: string, w: string)
    requires Found(g, finished, result) && CanonicalCycle(g, cycle) && OnCycle(cycle, v, w)
    ensures Found(g, finished, result + {cycle}) && Reported(result + {cycle}, v, w)
  {
    AccountedGrows(g, finished, result, result + {cycle});
  }

  ghost predicate AllIn(nodes: seq<string>, visited: set<string>) {
    forall n | n in nodes :: n in visited
  }

  lemma {:induction false} OneMoreIn(keys: seq<string>, i: nat, visited: set<string>)
    requires i < |keys|
    ensures AllIn(keys[..i + 1], visited) <==> AllIn(keys[..i], visited) && keys[i] in visited
  {
    assert keys[..i + 1] == keys[..i] + [keys[i]];
    assert forall n :: n in keys[..i + 1] <==> n in keys[..i] || n == keys[i];
  }

  lemma {:induction false} AllKeysIn(g: Graph, keys: seq<string>, visited: set<string>)
    requires (forall k :: k in keys <==> k in g.Keys) && AllIn(keys[..|keys|], visited)
    ensures g.Keys <= visited
  {
    assert keys[..|keys|] == keys;
  }

  lemma {:induction false} NextIsNode(g: Graph, walk: seq<string>, node: string)
    requires node in Next(g, walk)
    ensures node in Nodes(g)
  {
  }

  /** The cycle a back edge closes, in its reported form. */
  function TopCycle(stack: seq<string>, node: string): seq<string>
    requires node in stack
  {
    Canonical(Loop(stack, IndexIn(stack, node)))
  }

  lemma {:induction false} TopCycleFound(g: Graph, stack: seq<string>, visiting: set<string>, finished: seq<string>,
      result: set<seq<string>>, node: string, cycle: seq<string>)
    requires OnStack(g, stack, visiting) && node in visiting && node in Targets(g, stack[|stack| - 1])
    requires cycle == TopCycle(stack, node) && Found(g, finished, result)
    ensures Found(g, finished, result + {cycle}) && Reported(result + {cycle}, stack[|stack| - 1], node)
  {
    var index := IndexIn(stack, node);
    var items := Loop(stack, index);
    StackCycle(g, stack, index);
    CanonicalIsCycle(g, items);
    CanonicalKeepsEdges(items, |items| - 2);
    CycleAdded(g, finished, result, cycle, stack[|stack| - 1], node);
  }

  // ---- each node is first met along its least walk ----

  /** No edge of a finished node leads to a node not met yet. */
  ghost predicate NoneBehind(g: Graph, visiting: set<string>, visited: set<string>) {
    forall v, t | v in visited && t in Targets(g, v) :: t in visited || t in visiting
  }

  /** Every smaller way to go on from the end of the walk has been met. */
  ghost predicate SmallerMet(g: Graph, walk: seq<string>, node: string, visiting: set<string>, visited: set<string>) {
    forall t | t in Next(g, walk) && TextLess(t, node) :: t in visited || t in visiting
  }

  /** So it is at each place of the walk. */
  ghost predicate InTurn(g: Graph, walk: seq<string>, visiting: set<string>, visited: set<string>) {
    walk != [] ==>
      SmallerMet(g, Front(walk), Last(walk), visiting, visited) && InTurn(g, Front(walk), visiting, visited)
  }

  /** The stack is a least walk, and so is every part of it from the bottom. */
  ghost predicate AllLeast(g: Graph, stack: seq<string>) {
    stack != [] ==> LeastWalk(g, stack) && AllLeast(g, Front(stack))
  }

  ghost predicate Ascending(g: Graph, stack: seq<string>, visiting: set<string>, visited: set<string>) {
    NoneBehind(g, visiting, visited) && InTurn(g, stack, visiting, visited) && AllLeast(g, stack)
  }

  function Front(w: seq<string>): seq<string>
    requires w != []
  {
    w[..|w| - 1]
  }

  function Last(w: seq<string>): string
    requires w != []
  {
    w[|w| - 1]
  }

  lemma {:induction false} FrontLast(stack: seq<string>, node: string)
    ensures Front(stack + [node]) == stack && Last(stack + [node]) == node
  {
  }

  lemma {:induction false} LeastAt(g: Graph, stack: seq<string>, m: nat)
    requires AllLeast(g, stack) && m < |stack|
    ensures LeastWalk(g, stack[..m + 1])
  {
    if m + 1 == |stack| {
      assert stack[..m + 1] == stack;
    } else {
      LeastAt(g, Front(stack), m);
      assert Front(stack)[..m + 1] == stack[..m + 1];
    }
  }

  lemma {:induction false} TurnAt(g: Graph, walk: seq<string>, visiting: set<string>, visited: set<string>, m: nat)
    requires InTurn(g, walk, visiting, visited) && m < |walk|
    ensures SmallerMet(g, walk[..m], walk[m], visiting, visited)
  {
    if m + 1 < |walk| {
      TurnAt(g, Front(walk), visiting, visited, m);
      assert Front(walk)[..m] == walk[..m];
    }
  }

  lemma {:induction false} WalkPrefix(g: Graph, w: seq<string>, k: nat)
    requires Walk(g, w) && k <= |w|
    ensures Walk(g, w[..k])
  {
    forall i | 0 <= i < k - 1 ensures w[..k][i + 1] in Targets(g, w[..k][i]) {
      assert w[i + 1] in Targets(g, w[i]);
    }
  }

  lemma {:induction false} SimplePrefix(g: Graph, w: seq<string>, k: nat)
    requires SimpleWalk(g, w) && 0 < k <= |w|
    ensures SimpleWalk(g, w[..k])
  {
    WalkPrefix(g, w, k);
  }

  lemma {:induction false} SimpleExtends(g: Graph, stack: seq<string>, node: string)
    requires stack != [] ==> SimpleWalk(g, stack)
    requires node in Next(g, stack) && node !in stack
    ensures SimpleWalk(g, stack + [node])
  {
    DistinctTop(stack, node);
    WalkTop(g, stack, node);
  }

  /** `q` leaves the walk at place `i` for something smaller. */
  ghost predicate TurnsOff(q: seq<string>, walk: seq<string>, i: nat) {
    i < |q| && i < |walk| && q[..i] == walk[..i] && TextLess(q[i], walk[i])
  }

  lemma {:induction false} TurnsOffPart(q: seq<string>, walk: seq<string>, i: nat, j: nat, m: nat)
    requires TurnsOff(q, walk, i) && i <= j < |q| && i <= m < |walk|
    ensures TurnsOff(q[..j + 1], walk[..m + 1], i)
  {
    assert q[..j + 1][..i] == q[..i] && walk[..m + 1][..i] == walk[..i];
  }

  /** No simple walk turns off a least walk and still ends where it does. */
  lemma {:induction false} LeastWins(g: Graph, least: seq<string>, q: seq<string>, i: nat)
    requires LeastWalk(g, least) && SimpleWalk(g, q) && TurnsOff(q, least, i)
    ensures Last(q) != Last(least)
  {
    LexDiverges(TextLess, q, least, i);
  }

  lemma {:induction false} SharedPart(q: seq<string>, walk: seq<string>, i: nat, m: nat)
    requires i <= |q| && i <= |walk| && q[..i] == walk[..i] && m < i
    ensures q[m] == walk[m]
  {
    assert q[m] == q[..i][m] && walk[m] == walk[..i][m];
  }

  lemma {:induction false} DistinctAt(q: seq<string>, m: nat, j: nat)
    requires Distinct(q) && m < j < |q|
    ensures q[m] != q[j]
  {
  }

  lemma {:induction false} SimpleDistinct(g: Graph, q: seq<string>)
    requires SimpleWalk(g, q)
    ensures Distinct(q)
  {
  }

  lemma {:induction false} NotBefore(q: seq<string>, walk: seq<string>, i: nat, j: nat, m: nat)
    requires Distinct(q) && TurnsOff(q, walk, i) && m < i <= j < |q|
    ensures q[j] != walk[m]
  {
    SharedPart(q, walk, i, m);
    DistinctAt(q, m, j);
  }

  lemma {:induction false} NotAfter(g: Graph, least: seq<string>, q: seq<string>, i: nat)
    requires LeastWalk(g, least) && SimpleWalk(g, q) && TurnsOff(q, least, i)
    ensures q[|q| - 1] != least[|least| - 1]
  {
    LeastWins(g, least, q, i);
  }

  lemma {:induction false} NotFrom(g: Graph, least: seq<string>, walk: seq<string>, q: seq<string>, i: nat, j: nat,
      m: nat)
    requires TurnsOff(q, walk, i) && i <= j < |q| && i <= m < |walk|
    requires least == walk[..m + 1] && LeastWalk(g, least) && SimpleWalk(g, q[..j + 1])
    ensures q[j] != walk[m]
  {
    TurnsOffPart(q, walk, i, j, m);
    NotAfter(g, least, q[..j + 1], i);
  }

  /** A simple walk that has turned off a stack of least walks does not come back to it. */
  lemma {:induction false} NeverReturns(g: Graph, stack: seq<string>, walk: seq<string>, q: seq<string>, i: nat, j: nat,
      m: nat)
    requires AllLeast(g, stack) && m < |stack| <= |walk| && walk[..m + 1] == stack[..m + 1]
    requires SimpleWalk(g, q) && TurnsOff(q, walk, i) && i <= j < |q|
    ensures q[j] != walk[m]
  {
    if m < i {
      SimpleDistinct(g, q);
      NotBefore(q, walk, i, j, m);
    } else {
      LeastAt(g, stack, m);
      SimplePrefix(g, q, j + 1);
      NotFrom(g, stack[..m + 1], walk, q, i, j, m);
    }
  }

  lemma {:induction false} StackPart(stack: seq<string>, walk: seq<string>, m: nat)
    requires stack <= walk && m < |stack|
    ensures walk[..m + 1] == stack[..m + 1] && walk[m] == stack[m]
  {
  }

  lemma {:induction false} NotOnStack(g: Graph, stack: seq<string>, walk: seq<string>, q: seq<string>, i: nat, j: nat)
    requires AllLeast(g, stack) && stack <= walk && SimpleWalk(g, q) && TurnsOff(q, walk, i) && i <= j < |q|
    ensures q[j] !in stack
  {
    if q[j] in stack {
      var m :| 0 <= m < |stack| && stack[m] == q[j];
      StackPart(stack, walk, m);
      NeverReturns(g, stack, walk, q, i, j, m);
    }
  }

  lemma {:induction false} NextAt(g: Graph, w: seq<string>, j: nat)
    requires SimpleWalk(g, w) && j < |w|
    ensures w[j] in Next(g, w[..j])
    ensures j > 0 ==> w[j] in Targets(g, w[j - 1])
  {
    if j > 0 {
      assert w[j - 1 + 1] in Targets(g, w[j - 1]);
      assert w[..j][|w[..j]| - 1] == w[j - 1];
    }
  }

  lemma {:induction false} SmallerIsMet(g: Graph, walk: seq<string>, node: string, visiting: set<string>,
      visited: set<string>, t: string)
    requires SmallerMet(g, walk, node, visiting, visited) && t in Next(g, walk) && TextLess(t, node)
    ensures t in visited || t in visiting
  {
  }

  /** The place where it turns off has been met. */
  lemma {:induction false} TurnMet(g: Graph, walk: seq<string>, visiting: set<string>, visited: set<string>,
      q: seq<string>, i: nat)
    requires InTurn(g, walk, visiting, visited) && SimpleWalk(g, q) && TurnsOff(q, walk, i)
    ensures q[i] in visited || q[i] in visiting
  {
    NextAt(g, q, i);
    TurnAt(g, walk, visiting, visited, i);
    SmallerIsMet(g, walk[..i], walk[i], visiting, visited, q[i]);
  }

  lemma {:induction false} BehindIsMet(g: Graph, visiting: set<string>, visited: set<string>, v: string, t: string)
    requires NoneBehind(g, visiting, visited) && v in visited && t in Targets(g, v)
    ensures t in visited || t in visiting
  {
  }

  /** It runs through finished nodes only. */
  lemma {:induction false} StaysFinished(g: Graph, walk: seq<string>, visiting: set<string>, visited: set<string>,
      q: seq<string>, i: nat, j: nat)
    requires NoneBehind(g, visiting, visited) && InTurn(g, walk, visiting, visited)
    requires SimpleWalk(g, q) && TurnsOff(q, walk, i) && i <= j < |q|
    requires Off(q, i, visiting)
    ensures q[j] in visited
    decreases j
  {
    if i < j {
      StaysFinished(g, walk, visiting, visited, q, i, j - 1);
      NextAt(g, q, j);
      BehindIsMet(g, visiting, visited, q[j - 1], q[j]);
    } else {
      TurnMet(g, walk, visiting, visited, q, i);
    }
  }

  ghost predicate Off(q: seq<string>, i: nat, nodes: set<string>) {
    forall k | i <= k < |q| :: q[k] !in nodes
  }

  lemma {:induction false} OffStack(g: Graph, stack: seq<string>, visiting: set<string>, walk: seq<string>,
      q: seq<string>, i: nat)
    requires AllLeast(g, stack) && stack <= walk && SimpleWalk(g, q) && TurnsOff(q, walk, i)
    requires forall n :: n in visiting <==> n in stack
    ensures Off(q, i, visiting)
  {
    forall k | i <= k < |q| ensures q[k] !in visiting {
      NotOnStack(g, stack, walk, q, i, k);
    }
  }

  lemma {:induction false} TurnsOffOrEnds(q: seq<string>, walk: seq<string>) returns (i: nat)
    requires TextsLess(q, walk) && q != []
    ensures TurnsOff(q, walk, i) || (|q| < |walk| && Last(q) == walk[|q| - 1])
  {
    i := LexDivergence(TextLess, q, walk);
    if i == |q| {
      assert Last(q) == q[..i][i - 1] == walk[..i][i - 1];
    }
  }

  /** So the node met next is met along the least of all simple walks to it. */
  lemma {:induction false} FirstMetLeast(g: Graph, stack: seq<string>, visiting: set<string>, visited: set<string>,
      node: string)
    requires NoneBehind(g, visiting, visited) && AllLeast(g, stack) && InTurn(g, stack + [node], visiting, visited)
    requires forall n :: n in visiting <==> n in stack
    requires node in Next(g, stack) && node !in visiting && node !in visited
    ensures LeastWalk(g, stack + [node])
  {
    var walk := stack + [node];
    SimpleExtends(g, stack, node);
    forall q | SimpleWalk(g, q) && q[|q| - 1] == walk[|walk| - 1] ensures !TextsLess(q, walk) {
      if TextsLess(q, walk) {
        var i := TurnsOffOrEnds(q, walk);
        if TurnsOff(q, walk, i) {
          OffStack(g, stack, visiting, walk, q, i);
          StaysFinished(g, walk, visiting, visited, q, i, |q| - 1);
        }
      }
    }
  }

  lemma {:induction false} TurnsKept(g: Graph, walk: seq<string>, visiting: set<string>, visited: set<string>,
      open: set<string>, done: set<string>)
    requires InTurn(g, walk, visiting, visited) && visiting + visited <= open + done
    ensures InTurn(g, walk, open, done)
  {
    if walk != [] {
      TurnsKept(g, Front(walk), visiting, visited, open, done);
      forall t | t in Next(g, Front(walk)) && TextLess(t, Last(walk)) ensures t in done || t in open {
        assert t in visiting + visited;
      }
    }
  }

  lemma {:induction false} EnteredAscending(g: Graph, stack: seq<string>, visiting: set<string>, visited: set<string>,
      node: string)
    requires Ascending(g, stack, visiting, visited) && SmallerMet(g, stack, node, visiting, visited)
    requires forall n :: n in visiting <==> n in stack
    requires node in Next(g, stack) && node !in visiting && node !in visited
    ensures Ascending(g, stack + [node], visiting + {node}, visited)
  {
    FrontLast(stack, node);
    FirstMetLeast(g, stack, visiting, visited, node);
    TurnsKept(g, stack + [node], visiting, visited, visiting + {node}, visited);
  }

  lemma {:induction false} LeftAscending(g: Graph, stack: seq<string>, visiting: set<string>, visited: set<string>,
      node: string)
    requires Ascending(g, stack + [node], visiting + {node}, visited)
    requires forall t | t in Targets(g, node) :: t in visited || t in visiting + {node}
    ensures Ascending(g, stack, visiting, visited + {node})
  {
    FrontLast(stack, node);
    TurnsKept(g, stack, visiting + {node}, visited, visiting, visited + {node});
  }

  // ---- exactly the edges back into a least walk are reported ----

  /** Each edge from a finished node back into its least walk has its cycle in the result. */
  ghost predicate AllClosed(g: Graph, visited: set<string>, result: set<seq<string>>) {
    forall w, i: nat | LeastWalk(g, w) && w[|w| - 1] in visited && LeadsBack(g, w, i) ::
      Canonical(Loop(w, i)) in result
  }

  ghost predicate Exact(g: Graph, visited: set<string>, result: set<seq<string>>) {
    (forall c {:trigger BackCycle(g, c)} | c in result :: BackCycle(g, c)) && AllClosed(g, visited, result)
  }

  lemma {:induction false} LeastUnique(g: Graph, a: seq<string>, b: seq<string>)
    requires LeastWalk(g, a) && LeastWalk(g, b) && a[|a| - 1] == b[|b| - 1]
    ensures a == b
  {
    TextsLessTotal();
  }

  lemma {:induction false} CanonicalSameRing(items: seq<string>)
    requires |items| >= 2
    ensures SameRing(Canonical(items), items)
  {
    MinRotationMeans(Body(items), 0);
    assert Body(Canonical(items)) == MinRotation(Body(items), 0);
  }

  lemma {:induction false} TopIsBackCycle(g: Graph, stack: seq<string>, node: string)
    requires stack != [] && LeastWalk(g, stack) && node in stack && node in Targets(g, stack[|stack| - 1])
    requires CanonicalCycle(g, TopCycle(stack, node))
    ensures BackCycle(g, TopCycle(stack, node))
  {
    var i := IndexIn(stack, node);
    CanonicalSameRing(Loop(stack, i));
    assert LeadsBack(g, stack, i);
  }

  /** What becomes of a target of the node on top of the stack. */
  ghost predicate Settled(stack: seq<string>, visited: set<string>, result: set<seq<string>>, t: string) {
    || t in visited
    || (t in stack && TopCycle(stack, t) in result && Reported(result, stack[|stack| - 1], t))
  }

  lemma {:induction false} SettledGrows(stack: seq<string>, visited: set<string>, result: set<seq<string>>,
      more: set<string>, longer: set<seq<string>>, t: string)
    requires Settled(stack, visited, result, t) && visited <= more && result <= longer
    ensures Settled(stack, more, longer, t)
  {
  }

  ghost predicate AllSettled(stack: seq<string>, visited: set<string>, result: set<seq<string>>, targets: seq<string>,
      n: nat)
  {
    n <= |targets| && forall j | 0 <= j < n :: Settled(stack, visited, result, targets[j])
  }

  lemma {:induction false} OneMoreSettled(stack: seq<string>, visited: set<string>, result: set<seq<string>>,
      more: set<string>, longer: set<seq<string>>, targets: seq<string>, i: nat)
    requires AllSettled(stack, visited, result, targets, i) && visited <= more && result <= longer
    requires i < |targets| && Settled(stack, more, longer, targets[i])
    ensures AllSettled(stack, more, longer, targets, i + 1)
  {
    forall j | 0 <= j < i ensures Settled(stack, more, longer, targets[j]) {
      SettledGrows(stack, visited, result, more, longer, targets[j]);
    }
  }

  lemma {:induction false} TargetsSettled(stack: seq<string>, visited: set<string>, result: set<seq<string>>,
      targets: seq<string>, t: string)
    requires AllSettled(stack, visited, result, targets, |targets|) && t in targets
    ensures Settled(stack, visited, result, t)
  {
  }

  lemma {:induction false} LeftExact(g: Graph, stack: seq<string>, visited: set<string>, result: set<seq<string>>)
    requires Exact(g, visited, result) && stack != [] && LeastWalk(g, stack)
    requires forall t | t in Targets(g, stack[|stack| - 1]) && t in stack :: TopCycle(stack, t) in result
    ensures Exact(g, visited + {stack[|stack| - 1]}, result)
  {
    var node := stack[|stack| - 1];
    forall w, i: nat | LeastWalk(g, w) && w[|w| - 1] in visited + {node} && LeadsBack(g, w, i)
      ensures Canonical(Loop(w, i)) in result
    {
      if w[|w| - 1] == node {
        LeastUnique(g, w, stack);
        assert TopCycle(stack, stack[i]) in result && IndexIn(stack, stack[i]) == i;
      }
    }
  }

  lemma {:induction false} WalksFinished(g: Graph, visited: set<string>, w: seq<string>, k: nat)
    requires g.Keys <= visited && NoneBehind(g, {}, visited) && SimpleWalk(g, w) && k < |w|
    ensures w[k] in visited
  {
    if k > 0 {
      WalksFinished(g, visited, w, k - 1);
      NextAt(g, w, k);
    }
  }

  /** Two rotations of one ring are rotations of each other. */
  lemma {:induction false} RotationsRotate<T>(x: seq<T>, a: seq<T>, b: seq<T>, k: nat, j: nat)
    requires k <= |x| && j <= |x| && a == Rotate(x, k) && b == Rotate(x, j)
    ensures exists m :: 0 <= m <= |b| && a == Rotate(b, m)
  {
    var m := if k >= j then k - j else |x| - j + k;
    RotateTwice(x, j, m);
    assert a == Rotate(b, m);
  }

  lemma {:induction false} SameRingBoth(a: seq<string>, b: seq<string>, items: seq<string>)
    requires SameRing(a, items) && SameRing(b, items)
    ensures SameRing(a, b)
  {
    var k :| 0 <= k <= |Body(items)| && Body(a) == Rotate(Body(items), k);
    var j :| 0 <= j <= |Body(items)| && Body(b) == Rotate(Body(items), j);
    RotationsRotate(Body(items), Body(a), Body(b), k, j);
  }

  lemma {:induction false} SameRingBack(g: Graph, c: seq<string>, items: seq<string>)
    requires CanonicalCycle(g, c) && SameRing(c, items) && SimpleCycle(g, items)
    ensures c == Canonical(items)
  {
    CanonicalIsCycle(g, items);
    CanonicalSameRing(items);
    SameRingBoth(c, Canonical(items), items);
    SameRingSameCycle(g, c, Canonical(items));
  }

  lemma {:induction false} BackWalk(g: Graph, c: seq<string>) returns (w: seq<string>, i: nat)
    requires BackCycle(g, c)
    ensures LeastWalk(g, w) && LeadsBack(g, w, i) && c == Canonical(Loop(w, i))
  {
    w, i :| LeastWalk(g, w) && LeadsBack(g, w, i) && SameRing(c, Loop(w, i));
    StackCycle(g, w, i);
    SameRingBack(g, c, Loop(w, i));
  }

  /** When all keys are finished, what is reported is exactly what the graph's least walks call for. */
  lemma {:induction false} SearchExact(g: Graph, visited: set<string>, result: set<seq<string>>)
    requires g.Keys <= visited && NoneBehind(g, {}, visited) && Exact(g, visited, result)
    ensures forall c :: c in result <==> BackCycle(g, c)
  {
    forall c | BackCycle(g, c) ensures c in result {
      var w, i := BackWalk(g, c);
      WalksFinished(g, visited, w, |w| - 1);
    }
  }

  /** Targets taken from a sorted list come in their turn. */
  lemma {:induction false} NextInTurn(g: Graph, stack: seq<string>, visiting: set<string>, visited: set<string>,
      result: set<seq<string>>, targets: seq<string>, i: nat)
    requires stack != [] && OnStack(g, stack, visiting) && i < |targets|
    requires StrictlySorted(TextLess, targets)
    requires forall t :: t in targets <==> t in Targets(g, stack[|stack| - 1])
    requires AllSettled(stack, visited, result, targets, i)
    ensures targets[i] in Next(g, stack) && SmallerMet(g, stack, targets[i], visiting, visited)
  {
    TextLessTotal();
    assert targets[i] in targets;
    forall t | t in Next(g, stack) && TextLess(t, targets[i]) ensures t in visited || t in visiting {
      assert t in targets;
      var j :| 0 <= j < |targets| && targets[j] == t;
      assert j < i;
    }
  }

  lemma {:induction false} KeyInTurn(g: Graph, keys: seq<string>, i: nat, visiting: set<string>, visited: set<string>)
    requires i < |keys| && StrictlySorted(TextLess, keys) && AllIn(keys[..i], visited)
    requires forall k :: k in keys <==> k in g.Keys
    ensures keys[i] in Next(g, []) && SmallerMet(g, [], keys[i], visiting, visited)
  {
    TextLessTotal();
    assert keys[i] in keys;
    forall t | t in Next(g, []) && TextLess(t, keys[i]) ensures t in visited {
      var j :| 0 <= j < |keys| && keys[j] == t;
      assert keys[..i][j] == t;
    }
  }

  /** All of the above, between any two statements of the search. */
  ghost predicate Exploring(g: Graph, stack: seq<string>, visiting: set<string>, visited: set<string>,
      finished: seq<string>, result: set<seq<string>>)
  {
    && Searching(g, stack, visiting, visited, finished, result)
    && Ascending(g, stack, visiting, visited)
    && Exact(g, visited, result)
  }

  lemma {:induction false} TargetsMet(g: Graph, stack: seq<string>, visiting: set<string>, visited: set<string>,
      result: set<seq<string>>, node: string)
    requires OnStack(g, stack + [node], visiting + {node})
    requires forall t | t in Targets(g, node) :: Settled(stack + [node], visited, result, t)
    ensures forall t | t in Targets(g, node) :: t in visited || t in visiting + {node}
    ensures forall t | t in Targets(g, node) && t in stack + [node] && t !in visited ::
              TopCycle(stack + [node], t) in result
    ensures forall t | t in Targets(g, node) :: t in visited || Reported(result, node, t)
  {
    FrontLast(stack, node);
  }

  lemma {:induction false} LeftAll(g: Graph, stack: seq<string>, visiting: set<string>, visited: set<string>,
      finished: seq<string>, result: set<seq<string>>, node: string)
    requires Exploring(g, stack + [node], visiting + {node}, visited, finished, result) && node !in visiting
    requires forall t | t in Targets(g, node) :: Settled(stack + [node], visited, result, t)
    ensures Exploring(g, stack, visiting, visited + {node}, finished + [node], result)
  {
    TargetsMet(g, stack, visiting, visited, result, node);
    FrontLast(stack, node);
    Left(g, stack, visiting, visited, finished, result, node);
    LeftAscending(g, stack, visiting, visited, node);
    LeftExact(g, stack + [node], visited, result);
  }

  class CycleFinder {
    const graph: Graph
    var result: set<seq<string>>
    var visiting: set<string>
    var visited: set<string>
    var stack: seq<string>
    ghost var finished: seq<string>

    ghost predicate Valid()
      reads this
    {
      Exploring(graph, stack, visiting, visited, finished, result)
    }

    constructor (g: Graph)
      ensures Valid() && graph == g
      ensures stack == [] && visited == {} && result == {}
    {
      graph := g;
      result, visiting, visited, stack, finished := {}, {}, {}, [], [];
    }

    method CloseCycle(node: string)
      requires Valid() && node in visiting
      requires node in Targets(graph, stack[|stack| - 1])
      modifies this`result
      ensures Valid() && old(result) <= result
      ensures Settled(stack, visited, result, node)
    {
      var cycle := TopCycle(stack, node);
      TopCycleFound(graph, stack, visiting, finished, result, node, cycle);
      TopIsBackCycle(graph, stack, node);
      result := result + {cycle};
    }

    /** The first statements of `visit` for a node not met yet. */
    method Enter(node: string)
      requires Valid() && node in Next(graph, stack) && SmallerMet(graph, stack, node, visiting, visited)
      requires node !in visited && node !in visiting
      modifies this`visiting, this`stack
      ensures Valid() && stack == old(stack) + [node] && visiting == old(visiting) + {node}
    {
      Entered(graph, stack, visiting, visited, finished, result, node);
      EnteredAscending(graph, stack, visiting, visited, node);
      visiting := visiting + {node};
      stack := stack + [node];
    }

    /** Its last statements. */
    method Leave(ghost below: seq<string>, node: string)
      requires Valid() && stack == below + [node]
      requires forall t | t in Targets(graph, node) :: Settled(stack, visited, result, t)
      modifies this`visiting, this`stack, this`visited, this`finished
      ensures Valid() && stack == below && visiting == old(visiting) - {node} && visited == old(visited) + {node}
    {
      assert visiting - {node} + {node} == visiting by {
        FrontLast(below, node);
      }
      LeftAll(graph, below, visiting - {node}, visited, finished, result, node);
      stack := stack[..|stack| - 1];
      visiting := visiting - {node};
      visited := visited + {node};
      finished := finished + [node];
    }

    /** A visit comes in its turn: the node may follow the stack, and every smaller one that may has been met. */
    method Visit(node: string)
      requires Valid() && node in Next(graph, stack)
      requires SmallerMet(graph, stack, node, visiting, visited)
      modifies this
      ensures Valid()
      ensures visiting == old(visiting) && stack == old(stack)
      ensures old(visited) <= visited && old(result) <= result
      ensures Settled(stack, visited, result, node)
      decreases Unmet(graph, visiting, visited), 0
    {
      if node in visited {
        return;
      }
      if node in visiting {
        CloseCycle(node);
        return;
      }
      NextIsNode(graph, stack, node);
      FewerUnmet(graph, visiting, visited, node);
      ghost var below := stack;
      Enter(node);
      VisitTargets(node, SortTexts(Targets(graph, node)));
      Leave(below, node);
    }

    /** The loop over the sorted targets inside `visit`. */
    method VisitTargets(node: string, targets: seq<string>)
      requires Valid() && stack != [] && stack[|stack| - 1] == node
      requires StrictlySorted(TextLess, targets) && forall t :: t in targets <==> t in Targets(graph, node)
      modifies this
      ensures Valid()
      ensures visiting == old(visiting) && stack == old(stack)
      ensures old(visited) <= visited && old(result) <= result
      ensures forall t | t in Targets(graph, node) :: Settled(stack, visited, result, t)
      decreases Unmet(graph, visiting, visited), 1
    {
      for i := 0 to |targets|
        invariant Valid()
        invariant visiting == old(visiting) && stack == old(stack)
        invariant old(visited) <= visited && old(result) <= result
        invariant AllSettled(stack, visited, result, targets, i)
      {
        NextInTurn(graph, stack, visiting, visited, result, targets, i);
        NoMoreUnmet(graph, visiting, old(visited), visited);
        ghost var before, held := visited, result;
        Visit(targets[i]);
        OneMoreSettled(stack, before, held, visited, result, targets, i);
      }
      forall t | t in Targets(graph, node) ensures Settled(stack, visited, result, t) {
        TargetsSettled(stack, visited, result, targets, t);
      }
    }

    /** Visits every key in sorted order. */
    method Search()
      requires Valid() && stack == []
      modifies this
      ensures Valid() && stack == [] && graph.Keys <= visited
    {
      var keys := SortTexts(graph.Keys);
      for i := 0 to |keys|
        invariant Valid() && stack == []
        invariant AllIn(keys[..i], visited)
      {
        KeyInTurn(graph, keys, i, visiting, visited);
        OneMoreIn(keys, i, visited);
        ghost var before := visited;
        Visit(keys[i]);
        OneMoreIn(keys, i, visited);
      }
      AllKeysIn(graph, keys, visited);
    }
  }

  // ---- what the answer means ----

  ghost predicate WalkAvoids(w: seq<string>, result: set<seq<string>>) {
    forall i | 0 <= i < |w| - 1 :: !Reported(result, w[i], w[i + 1])
  }

  ghost function Position(finished: seq<string>, node: string): (p: nat)
    requires node in finished
    ensures p < |finished| && finished[p] == node
  {
    var p :| 0 <= p < |finished| && finished[p] == node;
    p
  }

  /** Along edges the search did not report, finishing positions strictly fall. */
  lemma {:induction false} PositionsFall(g: Graph, finished: seq<string>, result: set<seq<string>>, w: seq<string>)
    requires Distinct(finished) && Accounted(g, finished, result)
    requires |w| >= 2 && Walk(g, w) && WalkAvoids(w, result)
    requires forall i | 0 <= i < |w| :: w[i] in finished
    ensures Position(finished, w[|w| - 1]) < Position(finished, w[0])
  {
    var n := |w|;
    var p := Position(finished, w[n - 2]);
    assert w[n - 1] in Targets(g, finished[p]) && !Reported(result, w[n - 2], w[n - 2 + 1]);
    assert w[n - 1] in finished[..p];
    if n > 2 {
      var shorter := w[..n - 1];
      forall i | 0 <= i < |shorter| - 1 ensures shorter[i + 1] in Targets(g, shorter[i]) {
        assert w[i + 1] in Targets(g, w[i]);
      }
      forall i | 0 <= i < |shorter| - 1 ensures !Reported(result, shorter[i], shorter[i + 1]) {
        assert !Reported(result, w[i], w[i + 1]);
      }
      PositionsFall(g, finished, result, shorter);
    }
  }

  /** Every directed cycle, simple or not, runs along an edge of some reported cycle. */
  lemma {:induction false} EveryCycleIsCut(g: Graph, finished: seq<string>, result: set<seq<string>>, w: seq<string>)
    requires Distinct(finished) && Accounted(g, finished, result)
    requires forall n | n in g :: n in finished
    requires ClosedWalk(g, w)
    ensures exists i :: 0 <= i < |w| - 1 && Reported(result, w[i], w[i + 1])
  {
    if WalkAvoids(w, result) {
      forall i | 0 <= i < |w| ensures w[i] in finished {
        if i < |w| - 1 {
          assert w[i + 1] in Targets(g, w[i]);
        } else {
          assert w[0 + 1] in Targets(g, w[0]);
        }
      }
      PositionsFall(g, finished, result, w);
    }
  }

  lemma {:induction false} ClosedBody(c: seq<string>)
    requires |c| >= 2 && c[|c| - 1] == c[0]
    ensures Body(c) != [] && c == Body(c) + [Body(c)[0]]
  {
  }

  lemma {:induction false} SameRingSameCycle(g: Graph, a: seq<string>, b: seq<string>)
    requires CanonicalCycle(g, a) && CanonicalCycle(g, b) && SameRing(a, b)
    ensures a == b
  {
    var x, y := Body(a), Body(b);
    var k :| 0 <= k <= |y| && x == Rotate(y, k);
    RotatedCanonicalsAgree(x, y, k);
    ClosedBody(a);
    ClosedBody(b);
  }

  lemma {:induction false} SortedWithoutRepeats(cycles: seq<seq<string>>, i: nat, j: nat)
    requires StrictlySorted(TextsLess, cycles) && i < |cycles| && j < |cycles| && i != j
    ensures cycles[i] != cycles[j]
  {
    assert TextsLess(cycles[i], cycles[j]) || TextsLess(cycles[j], cycles[i]);
    if cycles[i] == cycles[j] {
      TextsIrreflexive(cycles[i]);
    }
  }

  lemma {:induction false} TextsIrreflexive(a: seq<string>)
    ensures !TextsLess(a, a)
  {
    TextsLessTotal();
  }

  ghost predicate CutsEveryCycle(g: Graph, cycles: seq<seq<string>>) {
    forall w | ClosedWalk(g, w) ::
      exists i, c :: 0 <= i < |w| - 1 && c in cycles && OnCycle(c, w[i], w[i + 1])
  }

  lemma {:induction false} SearchCuts(g: Graph, finished: seq<string>, result: set<seq<string>>,
      cycles: seq<seq<string>>)
    requires Distinct(finished) && Accounted(g, finished, result)
    requires forall n | n in g :: n in finished
    requires forall c :: c in cycles <==> c in result
    ensures CutsEveryCycle(g, cycles)
  {
    forall w | ClosedWalk(g, w)
      ensures exists i, c :: 0 <= i < |w| - 1 && c in cycles && OnCycle(c, w[i], w[i + 1])
    {
      EveryCycleIsCut(g, finished, result, w);
      var i :| 0 <= i < |w| - 1 && Reported(result, w[i], w[i + 1]);
      var c :| c in result && OnCycle(c, w[i], w[i + 1]);
      assert c in cycles && OnCycle(c, w[i], w[i + 1]);
    }
  }

  lemma {:induction false} EmptyMeansAcyclic(g: Graph, cycles: seq<seq<string>>)
    requires forall c | c in cycles :: CanonicalCycle(g, c)
    requires CutsEveryCycle(g, cycles)
    ensures cycles == [] <==> Acyclic(g)
  {
    if cycles != [] {
      assert cycles[0] in cycles && CanonicalCycle(g, cycles[0]);
      assert ClosedWalk(g, cycles[0]);
    }
  }

  /** No two of the lists name the same cyclic order. */
  ghost predicate DistinctRings(cycles: seq<seq<string>>) {
    forall i, j | 0 <= i < |cycles| && 0 <= j < |cycles| && i != j :: !SameRing(cycles[i], cycles[j])
  }

  lemma {:induction false} NoTwoShareARing(g: Graph, cycles: seq<seq<string>>)
    requires forall c | c in cycles :: CanonicalCycle(g, c)
    requires StrictlySorted(TextsLess, cycles)
    ensures DistinctRings(cycles)
  {
    forall i, j | 0 <= i < |cycles| && 0 <= j < |cycles| && i != j
      ensures !SameRing(cycles[i], cycles[j])
    {
      SortedWithoutRepeats(cycles, i, j);
      if SameRing(cycles[i], cycles[j]) {
        SameRingSameCycle(g, cycles[i], cycles[j]);
      }
    }
  }

  /** The answer for a graph: the cycles of its edges back into least walks, sorted. */
  ghost predicate Answers(g: Graph, cycles: seq<seq<string>>) {
    StrictlySorted(TextsLess, cycles) && forall c :: c in cycles <==> BackCycle(g, c)
  }

  /** A graph has one answer. */
  lemma {:induction false} AnswersUnique(g: Graph, a: seq<seq<string>>, b: seq<seq<string>>)
    requires Answers(g, a) && Answers(g, b)
    ensures a == b
  {
    TextsLessTotal();
    StrictlySortedUnique(TextsLess, a, b);
  }

  lemma {:induction false} AnswerIs(g: Graph, visiting: set<string>, visited: set<string>, result: set<seq<string>>,
      cycles: seq<seq<string>>)
    requires visiting == {} && NoneBehind(g, visiting, visited) && Exact(g, visited, result) && g.Keys <= visited
    requires StrictlySorted(TextsLess, cycles) && forall c :: c in cycles <==> c in result
    ensures Answers(g, cycles)
  {
    SearchExact(g, visited, result);
  }

  lemma {:induction false} AnswerMeans(g: Graph, visited: set<string>, finished: seq<string>,
      result: set<seq<string>>, cycles: seq<seq<string>>)
    requires Finished(finished, visited) && Accounted(g, finished, result) && g.Keys <= visited
    requires forall c | c in cycles :: CanonicalCycle(g, c)
    requires StrictlySorted(TextsLess, cycles) && forall c :: c in cycles <==> c in result
    ensures CutsEveryCycle(g, cycles)
    ensures cycles == [] <==> Acyclic(g)
    ensures DistinctRings(cycles)
  {
    SearchCuts(g, finished, result, cycles);
    EmptyMeansAcyclic(g, cycles);
    NoTwoShareARing(g, cycles);
  }

  lemma {:induction false} AnswersAreCycles(g: Graph, cycles: seq<seq<string>>)
    requires Answers(g, cycles)
    ensures forall c | c in cycles :: CanonicalCycle(g, c)
  {
    forall c | c in cycles ensures CanonicalCycle(g, c) {
      assert BackCycle(g, c);
    }
  }

  /** The quality gate's entry point. The answer is exactly the cycles closed by edges back into the graph's
      least walks, each once, in order. It is sound (every list is a simple cycle in least
      rotation), cuts every directed cycle, and is free of repeats up to rotation. */
  method FindCycles(graph: Graph) returns (cycles: seq<seq<string>>)
    ensures forall c | c in cycles :: CanonicalCycle(graph, c)
    ensures StrictlySorted(TextsLess, cycles)
    ensures CutsEveryCycle(graph, cycles)
    ensures cycles == [] <==> Acyclic(graph)
    ensures DistinctRings(cycles)
    ensures Answers(graph, cycles)
  {
    var finder := new CycleFinder(graph);
    finder.Search();
    cycles := SortTextTuples(finder.result);
    assert finder.visiting == {};
    AnswerIs(graph, finder.visiting, finder.visited, finder.result, cycles);
    AnswersAreCycles(graph, cycles);
    AnswerMeans(graph, finder.visited, finder.finished, finder.result, cycles);
  }

  // ---- one graph ----

  function Triangle(): Graph {
    map["a" := {"b", "c"}, "b" := {"c"}, "c" := {"a"}]
  }

  /** The walk takes the smallest way to go on at every place. */
  ghost predicate Greedy(g: Graph, w: seq<string>) {
    forall i, t | 0 <= i < |w| && t in Next(g, w[..i]) :: !TextLess(t, w[i])
  }

  /** Such a walk, if simple, is the least to its end. */
  lemma {:induction false} GreedyIsLeast(g: Graph, w: seq<string>)
    requires SimpleWalk(g, w) && Greedy(g, w)
    ensures LeastWalk(g, w)
  {
    forall q | SimpleWalk(g, q) && q[|q| - 1] == w[|w| - 1] ensures !TextsLess(q, w) {
      if TextsLess(q, w) {
        var i := TurnsOffOrEnds(q, w);
        if TurnsOff(q, w, i) {
          NextAt(g, q, i);
        }
      }
    }
  }

  lemma {:induction false} GreedyPrefix(g: Graph, w: seq<string>, k: nat)
    requires SimpleWalk(g, w) && Greedy(g, w) && 0 < k <= |w|
    ensures LeastWalk(g, w[..k])
  {
    SimplePrefix(g, w, k);
    assert forall i | 0 <= i < k :: w[..k][..i] == w[..i];
    GreedyIsLeast(g, w[..k]);
  }

  lemma {:induction false} TriangleGreedy(w: seq<string>)
    requires w == ["a", "b", "c"]
    ensures SimpleWalk(Triangle(), w) && Greedy(Triangle(), w)
  {
    var g := Triangle();
    assert "a"[0] == 'a' && "b"[0] == 'b' && "c"[0] == 'c';
    assert w[..0] == [] && w[..1] == ["a"] && w[..2] == ["a", "b"];
    assert Next(g, w[..0]) == {"a", "b", "c"} && Next(g, w[..1]) == {"b", "c"} && Next(g, w[..2]) == {"c"};
  }

  lemma {:induction false} TriangleWalks()
    ensures LeastWalk(Triangle(), ["a"]) && LeastWalk(Triangle(), ["a", "b"])
    ensures LeastWalk(Triangle(), ["a", "b", "c"])
  {
    var w := ["a", "b", "c"];
    TriangleGreedy(w);
    assert w[..1] == ["a"] && w[..2] == ["a", "b"] && w[..3] == w;
    GreedyPrefix(Triangle(), w, 1);
    GreedyPrefix(Triangle(), w, 2);
    GreedyPrefix(Triangle(), w, 3);
  }

  lemma {:induction false} TriangleRing(w: seq<string>)
    requires w == ["a", "b", "c"]
    ensures LeastRotation(w)
  {
    assert "a"[0] == 'a' && "b"[0] == 'b' && "c"[0] == 'c';
    TextsIrreflexive(w);
    assert Rotate(w, 0) == w && Rotate(w, 3) == w;
    assert Rotate(w, 1)[0] == "b" && Rotate(w, 2)[0] == "c";
  }

  lemma {:induction false} TriangleCycle()
    ensures BackCycle(Triangle(), ["a", "b", "c", "a"])
  {
    var g, w, c := Triangle(), ["a", "b", "c"], ["a", "b", "c", "a"];
    TriangleWalks();
    TriangleRing(w);
    assert Loop(w, 0) == c && Body(c) == w;
    StackCycle(g, w, 0);
    assert Rotate(w, 0) == w;
    assert SameRing(c, Loop(w, 0));
  }

  /** The shorter ring through "a" and "c" is not reported: when "c" is met from "a", it is finished. */
  lemma {:induction false} TriangleAnswer(cycles: seq<seq<string>>)
    ensures Answers(Triangle(), cycles) <==> cycles == [["a", "b", "c", "a"]]
  {
    var g, c := Triangle(), ["a", "b", "c", "a"];
    TriangleCycle();
    forall d | BackCycle(g, d) ensures d == c {
      var w, i := BackWalk(g, d);
      TriangleBack(w, i);
      var v, k := BackWalk(g, c);
      TriangleBack(v, k);
    }
    TextsLessTotal();
    assert Answers(g, [c]);
    if Answers(g, cycles) {
      AnswersUnique(g, cycles, [c]);
    }
  }

  lemma {:induction false} TriangleEnds(w: seq<string>)
    requires SimpleWalk(Triangle(), w)
    ensures var last := w[|w| - 1]; last == "a" || last == "b" || last == "c"
  {
    NextAt(Triangle(), w, |w| - 1);
  }

  lemma {:induction false} TriangleLeast(w: seq<string>)
    requires LeastWalk(Triangle(), w)
    ensures w == ["a"] || w == ["a", "b"] || w == ["a", "b", "c"]
  {
    TriangleEnds(w);
    TriangleWalks();
    var last := w[|w| - 1];
    LeastUnique(Triangle(), w, if last == "a" then ["a"] else if last == "b" then ["a", "b"] else ["a", "b", "c"]);
  }

  lemma {:induction false} TriangleBack(w: seq<string>, i: nat)
    requires LeastWalk(Triangle(), w) && LeadsBack(Triangle(), w, i)
    ensures Loop(w, i) == ["a", "b", "c", "a"]
  {
    TriangleLeast(w);
  }
}
