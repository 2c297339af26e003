/** Numbering the nodes of a plan tree: `_build`, `walk`, and what a path says. */
module Plans {
  import opened Options
  import opened Decimal
  import opened Scanning

  /** One object of the plan JSON; an absent or null "Plans" is the empty list. */
  datatype RawPlan = RawPlan(nodeType: Option<string>, plans: seq<RawPlan>)

  datatype PlanNode = PlanNode(nodeType: string, path: string, raw: RawPlan, children: seq<PlanNode>)

  /** `_build`: the path of a child is that of its parent, a dot and its index. */
  function Build(raw: RawPlan, path: string): PlanNode {
    PlanNode(if raw.nodeType.Some? then raw.nodeType.value else "unknown", path, raw,
             seq(|raw.plans|, i requires 0 <= i < |raw.plans| => Build(raw.plans[i], path + "." + Digits(i))))
  }

  /** `ExplainDocument.nodes()` */
  function Walk(node: PlanNode): seq<PlanNode> {
    [node] + WalkAll(node.children)
  }

  function WalkAll(nodes: seq<PlanNode>): seq<PlanNode> {
    if nodes == [] then []
    else WalkAll(nodes[..|nodes| - 1]) + Walk(nodes[|nodes| - 1])
  }

  // ---- Positions: the index lists that paths spell out

  type Position = seq<nat>

  function PathText(p: Position): string {
    if p == [] then ""
    else if |p| == 1 then Digits(p[0])
    else PathText(p[..|p| - 1]) + "." + Digits(p[|p| - 1])
  }

  ghost function Positions(raw: RawPlan, at: Position): seq<Position> {
    [at] + PositionsAll(raw.plans, at)
  }

  ghost function PositionsAll(plans: seq<RawPlan>, at: Position): seq<Position> {
    if plans == [] then []
    else
      var n := |plans| - 1;
      PositionsAll(plans[..n], at) + Positions(plans[n], at + [n])
  }

  /** Following child indices from `node`. */
  function Descend(node: PlanNode, indices: seq<nat>): Option<PlanNode> {
    if indices == [] then Some(node)
    else if indices[0] >= |node.children| then None
    else Descend(node.children[indices[0]], indices[1..])
  }

  /** The walk of the node built at `at` visits the positions below `at` in order,
      and each visited node is the one its position leads to. */
  ghost predicate VisitsAt(root: PlanNode, at: Position, nodes: seq<PlanNode>, positions: seq<Position>) {
    && |nodes| == |positions|
    && forall k | 0 <= k < |nodes| ::
         && at <= positions[k]
         && nodes[k].path == PathText(positions[k])
         && Descend(root, positions[k][|at|..]) == Some(nodes[k])
  }

  lemma {:induction false} WalkVisits(raw: RawPlan, at: Position)
    requires at != []
    ensures VisitsAt(Build(raw, PathText(at)), at, Walk(Build(raw, PathText(at))), Positions(raw, at))
    decreases raw, 1, 0
  {
    var node := Build(raw, PathText(at));
    WalkAllVisits(raw, at, |raw.plans|);
    assert raw.plans[..|raw.plans|] == raw.plans && node.children[..|raw.plans|] == node.children;
    VisitsRoot(node, at, WalkAll(node.children), PositionsAll(raw.plans, at));
  }

  lemma VisitsRoot(node: PlanNode, at: Position, nodes: seq<PlanNode>, positions: seq<Position>)
    requires node.path == PathText(at) && VisitsAt(node, at, nodes, positions)
    ensures VisitsAt(node, at, [node] + nodes, [at] + positions)
  {
    assert at[|at|..] == [];
  }

  lemma {:induction false} WalkAllVisits(raw: RawPlan, at: Position, n: nat)
    requires at != [] && n <= |raw.plans|
    ensures var node := Build(raw, PathText(at));
            VisitsAt(node, at, WalkAll(node.children[..n]), PositionsAll(raw.plans[..n], at))
    decreases raw, 0, n
  {
    if n > 0 {
      var node := Build(raw, PathText(at));
      var i := n - 1;
      var below := at + [i];
      ChildIsBuilt(node, at, i);
      assert node.children[..n][..i] == node.children[..i] && raw.plans[..n][..i] == raw.plans[..i];
      WalkAllVisits(raw, at, i);
      WalkVisits(raw.plans[i], below);
      ChildVisits(node, at, i, Walk(node.children[i]), Positions(raw.plans[i], below));
      VisitsBoth(node, at, WalkAll(node.children[..i]), PositionsAll(raw.plans[..i], at),
                 Walk(node.children[i]), Positions(raw.plans[i], below));
    }
  }

  lemma VisitsBoth(root: PlanNode, at: Position, nodes: seq<PlanNode>, positions: seq<Position>,
                   nodes': seq<PlanNode>, positions': seq<Position>)
    requires VisitsAt(root, at, nodes, positions) && VisitsAt(root, at, nodes', positions')
    ensures VisitsAt(root, at, nodes + nodes', positions + positions')
  {}

  /** `node` is what `_build` makes of its raw plan at position `at`. */
  ghost predicate IsBuiltAt(node: PlanNode, at: Position) {
    node == Build(node.raw, PathText(at))
  }

  lemma ChildIsBuilt(node: PlanNode, at: Position, i: nat)
    requires at != [] && IsBuiltAt(node, at) && i < |node.children|
    ensures |node.children| == |node.raw.plans| && node.children[i].raw == node.raw.plans[i]
    ensures IsBuiltAt(node.children[i], at + [i])
  {
    assert (at + [i])[..|at|] == at;
    assert node.children[i] == Build(node.raw.plans[i], PathText(at + [i]));
  }

  /** What a child's walk visits from the child, it visits from the parent. */
  lemma ChildVisits(node: PlanNode, at: Position, i: nat, nodes: seq<PlanNode>, positions: seq<Position>)
    requires i < |node.children| && VisitsAt(node.children[i], at + [i], nodes, positions)
    ensures VisitsAt(node, at, nodes, positions)
  {}

  // ---- Walk order

  /** Numeric lexicographic order of index lists; a prefix comes first. */
  predicate Before(a: Position, b: Position) {
    b != [] && (a == [] || a[0] < b[0] || (a[0] == b[0] && Before(a[1..], b[1..])))
  }

  lemma {:induction false} BeforeBelow(at: Position, a: Position, b: Position)
    requires Before(a, b)
    ensures Before(at + a, at + b)
  {
    if at == [] {
      assert at + a == a && at + b == b;
    } else {
      BeforeBelow(at[1..], a, b);
      assert (at + a)[1..] == at[1..] + a && (at + b)[1..] == at[1..] + b;
    }
  }

  lemma PrefixIsBefore(a: Position, b: Position)
    requires a < b
    ensures Before(a, b)
  {}

  lemma SiblingsInOrder(at: Position, i: nat, j: nat, a: Position, b: Position)
    requires i < j && at + [i] <= a && at + [j] <= b
    ensures Before(a, b)
  {
    var n := |at|;
    assert a == at + [i] + a[n + 1..] && b == at + [j] + b[n + 1..];
    assert Before([i] + a[n + 1..], [j] + b[n + 1..]);
    BeforeBelow(at, [i] + a[n + 1..], [j] + b[n + 1..]);
    assert at + ([i] + a[n + 1..]) == a && at + ([j] + b[n + 1..]) == b;
  }

  lemma {:induction false} BeforeIsIrreflexive(a: Position)
    ensures !Before(a, a)
  {
    if a != [] {
      BeforeIsIrreflexive(a[1..]);
    }
  }

  ghost predicate InOrderBelow(at: Position, positions: seq<Position>) {
    && (forall k | 0 <= k < |positions| :: at <= positions[k])
    && (forall k, l | 0 <= k < l < |positions| :: Before(positions[k], positions[l]))
  }

  lemma {:induction false} PositionsInOrder(raw: RawPlan, at: Position)
    ensures InOrderBelow(at, Positions(raw, at))
    decreases raw, 1
  {
    PositionsAllInOrder(raw.plans, at);
    var ps := PositionsAll(raw.plans, at);
    forall l | 0 <= l < |ps| ensures Before(at, ps[l]) {
      PrefixIsBefore(at, ps[l]);
    }
  }

  lemma {:induction false} PositionsAllInOrder(plans: seq<RawPlan>, at: Position)
    ensures InOrderBelow(at, PositionsAll(plans, at))
    ensures forall p <- PositionsAll(plans, at) :: |p| > |at| && p[|at|] < |plans|
    decreases plans, 0
  {
    if plans != [] {
      var n := |plans| - 1;
      var before, last := PositionsAll(plans[..n], at), Positions(plans[n], at + [n]);
      PositionsAllInOrder(plans[..n], at);
      PositionsInOrder(plans[n], at + [n]);
      forall l | 0 <= l < |last| ensures at <= last[l] && |last[l]| > |at| && last[l][|at|] == n {
        assert at + [n] <= last[l];
        assert last[l][..|at|] == last[l][..|at| + 1][..|at|];
        assert last[l][..|at| + 1][|at|] == n;
      }
      forall k, l | 0 <= k < |before| && 0 <= l < |last| ensures Before(before[k], last[l]) {
        var p := before[k];
        assert p in before;
        assert p[..|at| + 1] == at + [p[|at|]];
        SiblingsInOrder(at, p[|at|], n, p, last[l]);
      }
    }
  }

  // ---- Reading a path

  /** The parts between the dots, as Python's `split` gives them. */
  function SplitDots(s: string): (parts: seq<string>)
    ensures parts != []
  {
    if s == "" then [""] else Extend(SplitDots(s[..|s| - 1]), s[|s| - 1])
  }

  /** The parts after one more character. */
  function Extend(parts: seq<string>, c: char): (r: seq<string>)
    requires parts != []
    ensures r != []
  {
    var n := |parts| - 1;
    if c == '.' then parts + [""] else parts[..n] + [parts[n] + [c]]
  }

  lemma ExtendLast(a: seq<string>, b: seq<string>, c: char)
    requires b != []
    ensures Extend(a + b, c) == a + Extend(b, c)
  {}

  lemma SplitOneMore(s: string, c: char)
    ensures SplitDots(s + [c]) == Extend(SplitDots(s), c)
  {}

  lemma {:induction false} SplitAtDot(a: string, b: string)
    ensures SplitDots(a + "." + b) == SplitDots(a) + SplitDots(b)
  {
    if b == "" {
      assert a + "." + b == a + ['.'];
      SplitOneMore(a, '.');
    } else {
      var n := |b| - 1;
      var before := a + "." + b[..n];
      assert b == b[..n] + [b[n]] && a + "." + b == before + [b[n]];
      SplitAtDot(a, b[..n]);
      SplitOneMore(before, b[n]);
      SplitOneMore(b[..n], b[n]);
      ExtendLast(SplitDots(a), SplitDots(b[..n]), b[n]);
    }
  }

  lemma {:induction false} SplitNoDot(s: string)
    requires All(IsDigit, s)
    ensures SplitDots(s) == [s]
  {
    if s != "" {
      var n := |s| - 1;
      SplitNoDot(s[..n]);
      assert s[n] in s;
      assert s == s[..n] + [s[n]];
    }
  }

  ghost function Parts(p: Position): seq<string> {
    seq(|p|, i requires 0 <= i < |p| => Digits(p[i]))
  }

  lemma {:induction false} PathSplits(p: Position)
    requires p != []
    ensures SplitDots(PathText(p)) == Parts(p)
  {
    var n := |p| - 1;
    if n == 0 {
      SplitNoDot(Digits(p[0]));
    } else {
      PathSplits(p[..n]);
      SplitsOneMore(PathText(p[..n]), Digits(p[n]), Parts(p[..n]));
      assert Parts(p) == Parts(p[..n]) + [Digits(p[n])];
    }
  }

  lemma SplitsOneMore(text: string, digits: string, parts: seq<string>)
    requires SplitDots(text) == parts && All(IsDigit, digits)
    ensures SplitDots(text + "." + digits) == parts + [digits]
  {
    SplitNoDot(digits);
    SplitAtDot(text, digits);
  }

  lemma PartsPrefix(p: Position, q: Position)
    ensures Parts(p) <= Parts(q) <==> p <= q
  {
    if Parts(p) <= Parts(q) {
      forall i | 0 <= i < |p| ensures p[i] == q[i] {
        assert Parts(p)[i] == Parts(q)[i];
        DigitsReadBack(p[i]);
        DigitsReadBack(q[i]);
      }
    }
  }

  lemma PathTextIsInjective(p: Position, q: Position)
    requires p != [] && q != [] && PathText(p) == PathText(q)
    ensures p == q
  {
    PathSplits(p);
    PathSplits(q);
    PartsPrefix(p, q);
    PartsPrefix(q, p);
  }

  lemma {:induction false} PathTextBelow(p: Position, q: Position)
    requires p != [] && p < q
    ensures PathText(p) + "." <= PathText(q)
  {
    var n := |q| - 1;
    if |p| < n {
      PathTextBelow(p, q[..n]);
    } else {
      assert q[..n] == p;
    }
  }

  /** One path is a dot-prefix of another exactly when its index list is a proper prefix. */
  lemma DotPrefixIff(p: Position, q: Position)
    requires p != [] && q != []
    ensures PathText(p) + "." <= PathText(q) <==> p < q
  {
    if p < q {
      PathTextBelow(p, q);
    }
    if PathText(p) + "." <= PathText(q) {
      var rest := PathText(q)[|PathText(p)| + 1..];
      assert PathText(q) == PathText(p) + "." + rest;
      SplitAtDot(PathText(p), rest);
      PathSplits(p);
      PathSplits(q);
      PartsPrefix(p, q);
      assert |Parts(p)| < |Parts(q)|;
    }
  }

  /** Reading the numbers of a path and following the child indices after the root's. */
  function Resolve(root: PlanNode, path: string): Option<PlanNode> {
    var parts := SplitDots(path);
    if forall s <- parts :: All(IsDigit, s) then Descend(root, Values(parts)[1..]) else None
  }

  function Values(parts: seq<string>): (p: Position)
    requires forall s <- parts :: All(IsDigit, s)
    ensures |p| == |parts|
  {
    seq(|parts|, i requires 0 <= i < |parts| => Value(parts[i]))
  }

  lemma ValuesOfParts(p: Position)
    ensures Values(Parts(p)) == p
  {
    forall i | 0 <= i < |p| ensures Values(Parts(p))[i] == p[i] {
      DigitsReadBack(p[i]);
    }
  }

  lemma ResolveFollows(root: PlanNode, p: Position)
    requires p != []
    ensures Resolve(root, PathText(p)) == Descend(root, p[1..])
  {
    PathSplits(p);
    ValuesOfParts(p);
  }

  // ---- What the paths of a document say

  function Root(raw: RawPlan): PlanNode { Build(raw, "0") }

  lemma RootVisits(raw: RawPlan) returns (positions: seq<Position>)
    ensures positions == Positions(raw, [0])
    ensures VisitsAt(Root(raw), [0], Walk(Root(raw)), positions)
    ensures InOrderBelow([0], positions)
  {
    positions := Positions(raw, [0]);
    assert PathText([0]) == "0";
    WalkVisits(raw, [0]);
    PositionsInOrder(raw, [0]);
  }

  /** Splitting a node's path and following the indices from the root returns that
      very node. */
  lemma PathsResolve(raw: RawPlan, n: PlanNode)
    requires n in Walk(Root(raw))
    ensures Resolve(Root(raw), n.path) == Some(n)
  {
    var ps := RootVisits(raw);
    var k :| 0 <= k < |ps| && Walk(Root(raw))[k] == n;
    ResolveFollows(Root(raw), ps[k]);
  }

  /** The walk visits exactly the nodes that child indices lead to. */
  lemma WalkIsComplete(raw: RawPlan, n: PlanNode)
    ensures n in Walk(Root(raw)) <==> exists indices :: Descend(Root(raw), indices) == Some(n)
  {
    if n in Walk(Root(raw)) {
      assert Descend(Root(raw), PositionOf(raw, n)[1..]) == Some(n);
    }
    if indices :| Descend(Root(raw), indices) == Some(n) {
      DescendInWalk(Root(raw), indices);
    }
  }

  /** The walk goes in numeric lexicographic order of the index lists, so no two of
      its nodes share a path. */
  lemma PathsAreDistinctAndOrdered(raw: RawPlan, k: nat, l: nat)
    requires k < l < |Walk(Root(raw))|
    ensures var nodes := Walk(Root(raw));
            && nodes[k].path != nodes[l].path
            && exists p, q :: nodes[k].path == PathText(p) && nodes[l].path == PathText(q) && Before(p, q)
  {
    var ps := RootVisits(raw);
    assert Before(ps[k], ps[l]);
    BeforeIsIrreflexive(ps[k]);
    if PathText(ps[k]) == PathText(ps[l]) {
      PathTextIsInjective(ps[k], ps[l]);
    }
  }

  /** Everything reached from `node` by child indices is in its walk. */
  lemma {:induction false} DescendInWalk(node: PlanNode, indices: seq<nat>)
    requires Descend(node, indices).Some?
    ensures Descend(node, indices).value in Walk(node)
    decreases |indices|
  {
    if indices != [] {
      var c := node.children[indices[0]];
      DescendInWalk(c, indices[1..]);
      WalkAllHolds(node.children, indices[0], Descend(node, indices).value);
    }
  }

  lemma {:induction false} WalkAllHolds(nodes: seq<PlanNode>, i: nat, n: PlanNode)
    requires i < |nodes| && n in Walk(nodes[i])
    ensures n in WalkAll(nodes)
  {
    var last := |nodes| - 1;
    if i < last {
      WalkAllHolds(nodes[..last], i, n);
    }
  }

  lemma {:induction false} DescendTwice(node: PlanNode, a: seq<nat>, b: seq<nat>)
    requires Descend(node, a).Some?
    ensures Descend(node, a + b) == Descend(Descend(node, a).value, b)
    decreases |a|
  {
    if a == [] {
      assert a + b == b;
    } else {
      DescendTwice(node.children[a[0]], a[1..], b);
      assert (a + b)[1..] == a[1..] + b;
    }
  }

  /** A node reached by indices was built at the path those indices spell. */
  lemma {:induction false} DescendBuilds(node: PlanNode, at: Position, indices: seq<nat>)
    requires at != [] && IsBuiltAt(node, at) && Descend(node, indices).Some?
    ensures IsBuiltAt(Descend(node, indices).value, at + indices)
    decreases |indices|
  {
    if indices == [] {
      assert at + indices == at;
    } else {
      var i := indices[0];
      var c := node.children[i];
      assert IsBuiltAt(c, at + [i]) by {
        ChildIsBuilt(node, at, i);
      }
      DescendBuilds(c, at + [i], indices[1..]);
      HeadMoves(at, indices);
    }
  }

  lemma HeadMoves(at: Position, indices: seq<nat>)
    requires indices != []
    ensures at + [indices[0]] + indices[1..] == at + indices
  {}

  /** Following child indices through the JSON. */
  ghost function Follow(raw: RawPlan, indices: seq<nat>): Option<RawPlan> {
    if indices == [] then Some(raw)
    else if indices[0] >= |raw.plans| then None
    else Follow(raw.plans[indices[0]], indices[1..])
  }

  /** Each node shows the JSON object at its place and that object's type, or "unknown",
      and each object has a node. */
  lemma {:induction false} NodesShowPlans(raw: RawPlan, path: string, indices: seq<nat>)
    ensures var n, r := Descend(Build(raw, path), indices), Follow(raw, indices);
            && (n.Some? <==> r.Some?)
            && (n.Some? && r.Some? ==>
                  && n.value.raw == r.value
                  && (r.value.nodeType.Some? ==> n.value.nodeType == r.value.nodeType.value)
                  && (r.value.nodeType.None? ==> n.value.nodeType == "unknown"))
    decreases |indices|
  {
    if indices != [] && indices[0] < |raw.plans| {
      NodesShowPlans(raw.plans[indices[0]], path + "." + Digits(indices[0]), indices[1..]);
    }
  }

  /** A node lies in the subtree of another exactly when they are the same node or the
      one path continues the other after a dot. */
  lemma AncestorIff(raw: RawPlan, a: PlanNode, b: PlanNode)
    requires a in Walk(Root(raw)) && b in Walk(Root(raw))
    ensures b in Walk(a) <==> a == b || a.path + "." <= b.path
  {
    var p, q := PositionOf(raw, a), PositionOf(raw, b);
    DotPrefixIff(p, q);
    if p < q {
      BelowInSubtree(Root(raw), p, q, a, b);
    }
    if b in Walk(a) {
      SubtreeBelow(raw, p, q, a, b);
    }
  }

  lemma PositionExists(raw: RawPlan, n: PlanNode)
    requires n in Walk(Root(raw))
    ensures exists p :: IsPositionOf(raw, n, p)
  {
    var ps := RootVisits(raw);
    var k :| 0 <= k < |ps| && Walk(Root(raw))[k] == n;
    assert IsPositionOf(raw, n, ps[k]);
  }

  ghost predicate IsPositionOf(raw: RawPlan, n: PlanNode, p: Position) {
    [0] <= p && n.path == PathText(p) && Descend(Root(raw), p[1..]) == Some(n)
  }

  ghost function PositionOf(raw: RawPlan, n: PlanNode): (p: Position)
    requires n in Walk(Root(raw))
    ensures IsPositionOf(raw, n, p)
  {
    PositionExists(raw, n);
    var p :| IsPositionOf(raw, n, p);
    p
  }

  lemma BelowInSubtree(root: PlanNode, p: Position, q: Position, a: PlanNode, b: PlanNode)
    requires p != [] && p < q
    requires Descend(root, p[1..]) == Some(a) && Descend(root, q[1..]) == Some(b)
    ensures b in Walk(a)
  {
    var rest := q[|p|..];
    assert p[1..] + rest == q[1..];
    DescendTwice(root, p[1..], rest);
    DescendInWalk(a, rest);
  }

  lemma SubtreeBelow(raw: RawPlan, p: Position, q: Position, a: PlanNode, b: PlanNode)
    requires [0] <= p && [0] <= q && b.path == PathText(q)
    requires Descend(Root(raw), p[1..]) == Some(a) && Descend(Root(raw), q[1..]) == Some(b)
    requires b in Walk(a)
    ensures p < q || a == b
  {
    BuiltAtPosition(raw, p, a);
    WalkVisits(a.raw, p);
    var m :| 0 <= m < |Walk(a)| && Walk(a)[m] == b;
    PathTextIsInjective(Positions(a.raw, p)[m], q);
  }

  lemma BuiltAtPosition(raw: RawPlan, p: Position, n: PlanNode)
    requires [0] <= p && Descend(Root(raw), p[1..]) == Some(n)
    ensures IsBuiltAt(n, p)
  {
    assert PathText([0]) == "0" && [0] + p[1..] == p;
    DescendBuilds(Root(raw), [0], p[1..]);
  }
}
