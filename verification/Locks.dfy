/** `build_blocking_forest`, the methods of `BlockingNode`, and the blocking-root
    loop of `analyze_locks`, proved against the functions of `BlockingTrees`.

    Loops over a Python set or over the keys of a dict visit the keys in an
    arbitrary order here, so every result holds for each order. */
module Locks {
  import opened Sorting
  import opened WaitGraph
  import opened BlockingTrees
  import opened Findings

  class BlockingNode {
    const session: Session
    const waitingFor: string
    var children: seq<BlockingNode>

    ghost var tree: Tree
    ghost var Repr: set<object>

    ghost predicate Valid()
      reads this, Repr
      decreases Repr
    {
      && this in Repr
      && (forall c <- children :: c in Repr && c.Repr <= Repr && this !in c.Repr && c.Valid())
      && tree.session == session && tree.waitingFor == waitingFor
      && |tree.children| == |children|
      && forall i | 0 <= i < |children| :: tree.children[i] == children[i].tree
    }

    constructor (session: Session, waitingFor: string)
      ensures Valid() && fresh(Repr) && tree == Node(session, waitingFor, [])
    {
      this.session, this.waitingFor, this.children := session, waitingFor, [];
      tree := Node(session, waitingFor, []);
      Repr := {this};
    }

    /** `self.children.append(child)` */
    method Append(child: BlockingNode)
      requires Valid() && child.Valid() && this !in child.Repr
      modifies this
      ensures Valid() && Repr == old(Repr) + child.Repr
      ensures tree == old(tree).(children := old(tree).children + [child.tree])
    {
      children := children + [child];
      Repr := Repr + child.Repr;
      tree := tree.(children := tree.children + [child.tree]);
    }

    method Pids() returns (found: set<int>)
      requires Valid()
      ensures found == BlockingTrees.Pids(tree)
      decreases Repr
    {
      found := {session.pid};
      for i := 0 to |children|
        invariant found == {session.pid} + PidsOfAll(tree.children[..i])
      {
        var below := children[i].Pids();
        assert tree.children[..i + 1][..i] == tree.children[..i];
        found := found + below;
      }
      assert tree.children[..|children|] == tree.children;
    }

    method Size() returns (n: nat)
      requires Valid()
      ensures n == BlockingTrees.Size(tree)
    {
      var found := Pids();
      n := |found|;
    }

    method Depth() returns (d: nat)
      requires Valid()
      ensures d == BlockingTrees.Depth(tree)
      decreases Repr
    {
      var deepest := 0;
      for i := 0 to |children|
        invariant deepest == MaxDepth(tree.children[..i])
      {
        var below := children[i].Depth();
        assert tree.children[..i + 1][..i] == tree.children[..i];
        if deepest < below {
          deepest := below;
        }
      }
      assert tree.children[..|children|] == tree.children;
      d := 1 + deepest;
    }
  }

  // ---- build_blocking_forest

  function Listed(childrenOf: map<int, seq<int>>, blocker: int): seq<int> {
    if blocker in childrenOf then childrenOf[blocker] else []
  }

  /** `childrenOf` lists each waiter of `done` once for each mention of a blocker. */
  ghost predicate ListsWaiters(g: Graph, childrenOf: map<int, seq<int>>, done: set<int>)
    requires done <= g.blocked.Keys
  {
    forall b, w :: Count(Listed(childrenOf, b), w) == if w in done then Count(g.blocked[w], b) else 0
  }

  /** `after` is `before` with `pid` appended under each of `blockers`. */
  ghost predicate AppendedUnder(before: map<int, seq<int>>, after: map<int, seq<int>>, pid: int,
                                blockers: seq<int>)
  {
    forall b, w :: Count(Listed(after, b), w) ==
      Count(Listed(before, b), w) + if w == pid then Count(blockers, b) else 0
  }

  lemma CountAppended(s: seq<int>, x: int, y: int)
    ensures Count(s + [x], y) == Count(s, y) + if x == y then 1 else 0
  {}

  lemma CountOfPrefix(s: seq<int>, i: nat, y: int)
    requires i < |s|
    ensures Count(s[..i + 1], y) == Count(s[..i], y) + if s[i] == y then 1 else 0
  {
    assert s[..i + 1] == s[..i] + [s[i]];
    CountAppended(s[..i], s[i], y);
  }

  lemma AppendOneMore(before: map<int, seq<int>>, after: map<int, seq<int>>, pid: int,
                      blockers: seq<int>, i: nat)
    requires i < |blockers| && AppendedUnder(before, after, pid, blockers[..i])
    ensures var b := blockers[i];
            AppendedUnder(before, after[b := Listed(after, b) + [pid]], pid, blockers[..i + 1])
  {
    var blocker := blockers[i];
    var next := after[blocker := Listed(after, blocker) + [pid]];
    forall b, w
      ensures Count(Listed(next, b), w) ==
        Count(Listed(before, b), w) + if w == pid then Count(blockers[..i + 1], b) else 0
    {
      assert Listed(next, b) == if b == blocker then Listed(after, b) + [pid] else Listed(after, b);
      CountAppended(Listed(after, b), pid, w);
      CountOfPrefix(blockers, i, b);
    }
  }

  lemma AppendNone(before: map<int, seq<int>>, pid: int, blockers: seq<int>)
    ensures AppendedUnder(before, before, pid, blockers[..0])
  {
    assert blockers[..0] == [] && forall b: int :: Count([], b) == 0;
  }

  lemma WaiterDone(g: Graph, before: map<int, seq<int>>, after: map<int, seq<int>>, done: set<int>,
                   pid: int)
    requires done <= g.blocked.Keys && pid in g.blocked && pid !in done
    requires ListsWaiters(g, before, done)
    requires AppendedUnder(before, after, pid, g.blocked[pid])
    ensures ListsWaiters(g, after, done + {pid})
  {}

  method AppendUnderEach(before: map<int, seq<int>>, pid: int, blockers: seq<int>)
    returns (childrenOf: map<int, seq<int>>)
    ensures AppendedUnder(before, childrenOf, pid, blockers)
  {
    childrenOf := before;
    AppendNone(before, pid, blockers);
    for i := 0 to |blockers|
      invariant AppendedUnder(before, childrenOf, pid, blockers[..i])
    {
      AppendOneMore(before, childrenOf, pid, blockers, i);
      var blocker := blockers[i];
      childrenOf := childrenOf[blocker := Listed(childrenOf, blocker) + [pid]];
    }
    assert blockers[..|blockers|] == blockers;
  }

  method InvertBlockers(g: Graph) returns (childrenOf: map<int, seq<int>>)
    requires g.Valid()
    ensures ListsWaiters(g, childrenOf, g.blocked.Keys)
  {
    childrenOf := map[];
    var todo := g.blocked.Keys;
    while todo != {}
      invariant todo <= g.blocked.Keys
      invariant ListsWaiters(g, childrenOf, g.blocked.Keys - todo)
      decreases todo
    {
      HasMember(todo);
      var pid :| pid in todo;
      var after := AppendUnderEach(childrenOf, pid, g.blocked[pid]);
      WaiterDone(g, childrenOf, after, g.blocked.Keys - todo, pid);
      assert g.blocked.Keys - (todo - {pid}) == g.blocked.Keys - todo + {pid};
      todo, childrenOf := todo - {pid}, after;
    }
    assert g.blocked.Keys - todo == g.blocked.Keys;
  }

  lemma SortedWaiters(g: Graph, childrenOf: map<int, seq<int>>, pid: int)
    requires ListsWaiters(g, childrenOf, g.blocked.Keys)
    ensures SortBy(IntLe, Listed(childrenOf, pid)) == WaiterList(g, pid)
  {
    var bag := Listed(childrenOf, pid);
    SortedCounts(bag);
    BagOfWaiters(g, pid, bag, SortBy(IntLe, bag));
  }

  lemma SortedCounts(bag: seq<int>)
    ensures SortedBy(IntLe, SortBy(IntLe, bag))
    ensures forall w :: Count(SortBy(IntLe, bag), w) == Count(bag, w)
  {
    IntLeIsLinear();
    SortByIsSorted(IntLe, bag);
  }

  lemma BagOfWaiters(g: Graph, pid: int, bag: seq<int>, sorted: seq<int>)
    requires SortedBy(IntLe, sorted) && forall w :: Count(sorted, w) == Count(bag, w)
    requires forall w :: Count(bag, w) == if w in g.blocked then Count(g.blocked[w], pid) else 0
    ensures sorted == WaiterList(g, pid)
  {
    WaiterListIsUnique(g, pid, sorted);
  }

  method InvolvedPids(blocked: map<int, seq<int>>) returns (involved: set<int>)
    ensures forall pid :: pid in involved <==>
              pid in blocked || exists w <- blocked :: pid in blocked[w]
  {
    involved := blocked.Keys + set w, pid | w in blocked && pid in blocked[w] :: pid;
  }

  /** What the filter of the root list keeps of the involved pids. */
  lemma RootsAreInvolved(g: Graph, involved: set<int>)
    requires forall pid :: pid in involved <==>
               pid in g.blocked || exists w <- g.blocked :: pid in g.blocked[w]
    ensures forall pid :: pid in RootSet(g) <==> pid in involved && pid in g.byPid && pid !in g.blocked
  {
    forall pid ensures pid in RootSet(g) <==> pid in involved && pid in g.byPid && pid !in g.blocked {
      assert pid in RootSet(g) <==> pid in g.byPid && g.IsRoot(pid);
      assert forall w :: g.Blocks(pid, w) <==> w in g.blocked && pid in g.blocked[w];
    }
  }

  method FindRoots(g: Graph) returns (roots: seq<int>)
    requires g.Valid()
    ensures SortBy(IntLe, roots) == Ascending(RootSet(g))
    ensures forall r <- SortBy(IntLe, roots) :: r in g.byPid
  {
    var involved := InvolvedPids(g.blocked);
    RootsAreInvolved(g, involved);
    roots := [];
    ghost var found: set<int> := {};
    while involved != {}
      invariant multiset(roots) == multiset(found)
      invariant found !! involved
      invariant forall pid :: pid in RootSet(g) <==>
                  pid in found || (pid in involved && pid in g.byPid && pid !in g.blocked)
      decreases involved
    {
      HasMember(involved);
      var pid :| pid in involved;
      involved := involved - {pid};
      if pid in g.byPid && pid !in g.blocked {
        roots := roots + [pid];
        found := found + {pid};
      }
    }
    assert forall pid :: pid in found <==> pid in RootSet(g);
    SortedRoots(roots, RootSet(g));
  }

  lemma SortedRoots(bag: seq<int>, roots: set<int>)
    requires multiset(bag) == multiset(roots)
    ensures SortBy(IntLe, bag) == Ascending(roots)
  {
    IntLeIsLinear();
    SortByIsSorted(IntLe, bag);
    SortedIsUnique(IntLe, SortBy(IntLe, bag), Ascending(roots));
  }

  method BuildNode(g: Graph, childrenOf: map<int, seq<int>>, targets: map<int, string>, pid: int,
                   seen: set<int>)
    returns (node: BlockingNode)
    requires g.Valid() && pid in g.byPid
    requires ListsWaiters(g, childrenOf, g.blocked.Keys)
    ensures node.Valid() && fresh(node.Repr)
    ensures node.tree == Build(g, targets, pid, seen)
    decreases g.byPid.Keys - seen, 1
  {
    var kids := SortBy(IntLe, Listed(childrenOf, pid));
    SortedWaiters(g, childrenOf, pid);
    node := new BlockingNode(g.byPid[pid], Target(targets, pid));
    ghost var built := [];
    for i := 0 to |kids|
      invariant node.Valid() && fresh(node.Repr)
      invariant node.tree == Node(g.byPid[pid], Target(targets, pid), built)
      invariant built == BuildAll(g, targets, kids[..i], seen)
    {
      var kid := kids[i];
      BuildAllStep(g, targets, kids, i, seen);
      if kid in seen || kid !in g.byPid {
        continue;
      }
      AppendBuilt(node, g, childrenOf, targets, kid, seen);
      built := built + [Build(g, targets, kid, seen + {kid})];
    }
    assert kids[..|kids|] == kids;
  }

  /** `node.children.append(build(child, seen | {child}))` */
  method AppendBuilt(node: BlockingNode, g: Graph, childrenOf: map<int, seq<int>>,
                     targets: map<int, string>, kid: int, seen: set<int>)
    requires node.Valid()
    requires g.Valid() && kid in g.byPid && kid !in seen
    requires ListsWaiters(g, childrenOf, g.blocked.Keys)
    modifies node
    ensures node.Valid() && fresh(node.Repr - old(node.Repr))
    ensures node.tree ==
            old(node.tree).(children := old(node.tree).children + [Build(g, targets, kid, seen + {kid})])
    decreases g.byPid.Keys - seen, 0
  {
    assert kid in g.byPid.Keys - seen;
    var child := BuildNode(g, childrenOf, targets, kid, seen + {kid});
    node.Append(child);
  }

  lemma BuildAllStep(g: Graph, targets: map<int, string>, kids: seq<int>, i: nat, seen: set<int>)
    requires g.Valid() && i < |kids|
    ensures BuildAll(g, targets, kids[..i + 1], seen) ==
            BuildAll(g, targets, kids[..i], seen) +
            if kids[i] in seen || kids[i] !in g.byPid then []
            else [Build(g, targets, kids[i], seen + {kids[i]})]
  {
    assert kids[..i + 1][..i] == kids[..i];
  }

  /** The objects of `forest` represent the trees `ts`, in order. */
  ghost predicate IsForest(forest: seq<BlockingNode>, ts: seq<Tree>)
    reads forest, set n, o | n in forest && o in n.Repr :: o
  {
    && |forest| == |ts|
    && forall i | 0 <= i < |forest| :: forest[i].Valid() && forest[i].tree == ts[i]
  }

  method BuildTrees(g: Graph, childrenOf: map<int, seq<int>>, targets: map<int, string>, roots: seq<int>)
    returns (forest: seq<BlockingNode>)
    requires g.Valid() && ListsWaiters(g, childrenOf, g.blocked.Keys)
    requires forall r <- roots :: r in g.byPid
    ensures IsForest(forest, ForestOf(g, targets, roots))
  {
    forest := [];
    for i := 0 to |roots|
      invariant IsForest(forest, ForestOf(g, targets, roots[..i]))
    {
      assert roots[i] in roots && roots[..i + 1][..i] == roots[..i];
      var node := BuildNode(g, childrenOf, targets, roots[i], {roots[i]});
      assert IsForest(forest, ForestOf(g, targets, roots[..i]));
      forest := forest + [node];
    }
    assert roots[..|roots|] == roots;
  }

  method BuildBlockingForest(sessions: seq<Session>, targets: map<int, string>)
    returns (forest: seq<BlockingNode>)
    ensures IsForest(forest, Forest(GraphOf(sessions), targets))
  {
    var g := GraphOf(sessions);
    var childrenOf := InvertBlockers(g);
    var roots := FindRoots(g);
    forest := BuildTrees(g, childrenOf, targets, SortBy(IntLe, roots));
  }

  // ---- The blocking roots of analyze_locks

  datatype RootFinding = RootFinding(severity: Severity, pid: int, blockedSessions: int,
                                     chainDepth: nat, blockedPids: seq<int>)

  const IDLE := "idle in transaction"

  predicate IsIdle(s: Session) { IDLE <= s.state }

  function RootFindingOf(t: Tree): RootFinding {
    var waiters := Size(t) - 1;
    RootFinding(if IsIdle(t.session) || waiters > 2 then Critical else Warning,
                t.session.pid, waiters, Depth(t), seq(|t.children|, i requires 0 <= i < |t.children| =>
                                                                      t.children[i].session.pid))
  }

  /** Critical exactly for a session idle in its transaction, aborted or not, or with more
      than two sessions held up; a warning otherwise. */
  ghost predicate SeverityFits(severity: Severity, state: string, held: int) {
    && (severity == Critical <==> (|state| >= 19 && state[..19] == "idle in transaction") || held > 2)
    && (severity != Critical ==> severity == Warning)
  }

  /** The facts of the finding are those of a tree. */
  ghost predicate ReportsTree(f: RootFinding, t: Tree) {
    && f.pid == t.session.pid
    && f.blockedSessions == |BlockingTrees.Pids(t)| - 1
    && f.chainDepth == BlockingTrees.Depth(t)
    && |f.blockedPids| == |t.children|
    && (forall i | 0 <= i < |t.children| :: f.blockedPids[i] == t.children[i].session.pid)
    && SeverityFits(f.severity, t.session.state, f.blockedSessions)
  }

  lemma FindingReportsTree(t: Tree)
    ensures ReportsTree(RootFindingOf(t), t)
  {
    assert |IDLE| == 19;
    assert IDLE <= t.session.state <==> |t.session.state| >= 19 && t.session.state[..19] == IDLE;
  }

  /** A root that is idle after an error is critical as well; one that is merely idle
      is not, unless it holds up more than two sessions. */
  lemma IdleStates(t: Tree)
    requires Size(t) <= 3
    ensures t.session.state == "idle in transaction" ==> RootFindingOf(t).severity == Critical
    ensures t.session.state == "idle in transaction (aborted)" ==> RootFindingOf(t).severity == Critical
    ensures t.session.state == "idle" ==> RootFindingOf(t).severity == Warning
    ensures t.session.state == "active" ==> RootFindingOf(t).severity == Warning
  {
    FindingReportsTree(t);
    assert "idle in transaction (aborted)"[..19] == "idle in transaction";
  }

  lemma {:induction false} FindingsReportTrees(ts: seq<Tree>)
    ensures forall f <- RootFindings(ts) :: exists t <- ts :: ReportsTree(f, t)
  {
    if ts != [] {
      var n := |ts| - 1;
      FindingsReportTrees(ts[..n]);
      FindingReportsTree(ts[n]);
      assert ts[n] in ts && forall t <- ts[..n] :: t in ts;
    }
  }

  /** One finding per tree, skipping trees that hold nobody but their root. */
  function RootFindings(ts: seq<Tree>): seq<RootFinding> {
    if ts == [] then []
    else
      var before, t := RootFindings(ts[..|ts| - 1]), ts[|ts| - 1];
      if Size(t) - 1 == 0 then before else before + [RootFindingOf(t)]
  }

  method ReportRoots(forest: seq<BlockingNode>, ghost trees: seq<Tree>) returns (findings: seq<RootFinding>)
    requires IsForest(forest, trees)
    ensures findings == RootFindings(trees)
    ensures forall f <- findings :: exists t <- trees :: ReportsTree(f, t)
  {
    FindingsReportTrees(trees);
    findings := [];
    for n := 0 to |forest|
      invariant findings == RootFindings(trees[..n])
    {
      assert trees[..n + 1][..n] == trees[..n];
      var root := forest[n];
      var size := root.Size();
      var waiters := size - 1;
      if waiters == 0 {
        continue;
      }
      var idle := IsIdle(root.session);
      var depth := root.Depth();
      var blockedPids := seq(|root.children|, i requires 0 <= i < |root.children| reads root, root.children =>
                                                root.children[i].session.pid);
      assert forall i | 0 <= i < |root.children| :: root.children[i].Valid();
      assert blockedPids == RootFindingOf(trees[n]).blockedPids;
      findings := findings + [RootFinding(if idle || waiters > 2 then Critical else Warning,
                                          root.session.pid, waiters, depth, blockedPids)];
    }
    assert trees[..|forest|] == trees;
  }

  method AnalyzeBlockingRoots(sessions: seq<Session>, targets: map<int, string>)
    returns (findings: seq<RootFinding>)
    ensures findings == RootFindings(Forest(GraphOf(sessions), targets))
    ensures forall f <- findings :: FindingIsTrue(GraphOf(sessions), f)
    ensures forall r :: GraphOf(sessions).IsRoot(r) <==> exists f <- findings :: f.pid == r
    ensures forall i, j | 0 <= i < j < |findings| :: findings[i].pid < findings[j].pid
  {
    var forest := BuildBlockingForest(sessions, targets);
    findings := ReportRoots(forest, Forest(GraphOf(sessions), targets));
    FindingsAreTrue(GraphOf(sessions), targets);
    forall r ensures GraphOf(sessions).IsRoot(r) <==> exists f <- findings :: f.pid == r {
      RootsAreReportedOnce(GraphOf(sessions), targets, r);
    }
    RootsAreReportedOnce(GraphOf(sessions), targets, 0);
  }

  // ---- What the findings say about the wait graph

  ghost predicate FindingIsTrue(g: Graph, f: RootFinding) {
    && g.IsRoot(f.pid)
    && f.blockedSessions == |ReachableFrom(g, f.pid) - {f.pid}|
    && f.blockedSessions >= 1
    && LongestSimpleWalk(g, f.pid, f.chainDepth)
    && IsWaiterList(g, f.pid, f.blockedPids)
    && (forall w :: w in f.blockedPids <==> g.Blocks(f.pid, w))
    && SeverityFits(f.severity, g.byPid[f.pid].state, f.blockedSessions)
  }

  lemma {:induction false} ChildPidsInOrder(ts: seq<Tree>)
    ensures |ChildPids(ts)| == |ts|
    ensures forall i | 0 <= i < |ts| :: ChildPids(ts)[i] == ts[i].session.pid
  {
    if ts != [] {
      ChildPidsInOrder(ts[..|ts| - 1]);
    }
  }

  /** The reported list has each waiter once per mention of the root, ascending. */
  lemma BlockedPidsAreWaiters(g: Graph, targets: map<int, string>, r: int)
    requires g.Valid() && g.IsRoot(r)
    ensures IsWaiterList(g, r, RootFindingOf(Build(g, targets, r, {r})).blockedPids)
  {
    var t := Build(g, targets, r, {r});
    var shown := RootFindingOf(t).blockedPids;
    ChildPidsInOrder(t.children);
    assert shown == ChildPids(t.children);
    ChildrenAreWaiters(g, targets, r, {r});
  }

  lemma RootFindingIsTrue(g: Graph, targets: map<int, string>, r: int)
    requires g.Valid() && g.IsRoot(r)
    ensures FindingIsTrue(g, RootFindingOf(Build(g, targets, r, {r})))
  {
    var t := Build(g, targets, r, {r});
    RootHasWaiter(g, targets, r);
    assert Size(t) - 1 == |ReachableFrom(g, r) - {r}| by {
      PidsAreReachable(g, targets, r);
      assert Pids(t) == ReachableFrom(g, r) - {r} + {r};
    }
    assert LongestSimpleWalk(g, r, Depth(t)) by {
      DepthIsLongestSimpleWalk(g, targets, r);
    }
    BlockedPidsAreWaiters(g, targets, r);
    WaiterListIsUnique(g, r, RootFindingOf(t).blockedPids);
    FindingReportsTree(t);
  }

  lemma {:induction false} NoTreeIsSkipped(ts: seq<Tree>)
    requires forall t <- ts :: Size(t) >= 2
    ensures |RootFindings(ts)| == |ts|
    ensures forall i | 0 <= i < |ts| :: RootFindings(ts)[i] == RootFindingOf(ts[i])
  {
    if ts != [] {
      var n := |ts| - 1;
      assert ts[n] in ts;
      NoTreeIsSkipped(ts[..n]);
    }
  }

  /** `waiters == 0` never holds: each tree of the forest is reported. */
  lemma EveryTreeIsReported(g: Graph, targets: map<int, string>)
    requires g.Valid()
    ensures var ts, fs := Forest(g, targets), RootFindings(Forest(g, targets));
            |fs| == |ts| && forall i | 0 <= i < |ts| :: fs[i] == RootFindingOf(ts[i])
  {
    var ts := Forest(g, targets);
    forall t | t in ts ensures Size(t) >= 2 {
      ForestTree(g, targets, t);
      RootHasWaiter(g, targets, t.session.pid);
    }
    NoTreeIsSkipped(ts);
  }

  lemma FindingIsTrueAt(g: Graph, targets: map<int, string>, i: nat)
    requires g.Valid() && i < |Forest(g, targets)|
    ensures |RootFindings(Forest(g, targets))| == |Forest(g, targets)|
    ensures FindingIsTrue(g, RootFindings(Forest(g, targets))[i])
  {
    var t := Forest(g, targets)[i];
    EveryTreeIsReported(g, targets);
    ForestTree(g, targets, t);
    RootFindingIsTrue(g, targets, t.session.pid);
  }

  /** Every finding is true of the wait graph. */
  lemma FindingsAreTrue(g: Graph, targets: map<int, string>)
    requires g.Valid()
    ensures forall f <- RootFindings(Forest(g, targets)) :: FindingIsTrue(g, f)
  {
    FindingPids(g, targets);
    var fs := RootFindings(Forest(g, targets));
    forall f | f in fs ensures FindingIsTrue(g, f) {
      var i :| 0 <= i < |fs| && fs[i] == f;
      FindingIsTrueAt(g, targets, i);
    }
  }

  lemma FindingPids(g: Graph, targets: map<int, string>)
    requires g.Valid()
    ensures var ts, fs := Forest(g, targets), RootFindings(Forest(g, targets));
            |fs| == |ts| && forall i | 0 <= i < |ts| :: fs[i].pid == ts[i].session.pid
  {
    EveryTreeIsReported(g, targets);
  }

  /** Exactly the roots are reported, each once, in ascending order of pid. */
  lemma RootsAreReportedOnce(g: Graph, targets: map<int, string>, r: int)
    requires g.Valid()
    ensures var fs := RootFindings(Forest(g, targets));
            && (g.IsRoot(r) <==> exists f <- fs :: f.pid == r)
            && (forall i, j | 0 <= i < j < |fs| :: fs[i].pid < fs[j].pid)
  {
    FindingPids(g, targets);
    var ts, fs := Forest(g, targets), RootFindings(Forest(g, targets));
    ForestRoots(g, targets, r);
    SamePids(ts, fs, r);
    forall i, j | 0 <= i < j < |fs| ensures fs[i].pid < fs[j].pid {
      assert ts[i].session.pid < ts[j].session.pid;
    }
  }

  lemma SamePids(ts: seq<Tree>, fs: seq<RootFinding>, r: int)
    requires |fs| == |ts| && forall i | 0 <= i < |ts| :: fs[i].pid == ts[i].session.pid
    ensures (exists f <- fs :: f.pid == r) <==> exists t <- ts :: t.session.pid == r
  {}
}
