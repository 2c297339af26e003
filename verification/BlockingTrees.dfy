/** What `build_blocking_forest` computes, as a function of the wait graph, and
    the graph theorems its summaries rest on. */
module BlockingTrees {
  import opened Sorting
  import opened WaitGraph

  datatype Tree = Node(session: Session, waitingFor: string, children: seq<Tree>)

  lemma HasMember(s: set<int>)
    requires s != {}
    ensures exists x :: x in s
  {
    assert (forall x :: x !in s) ==> s == {};
  }

  // ---- The recursion

  function Count(s: seq<int>, x: int): nat { multiset(s)[x] }

  /** The waiters of `pid` in ascending order, one entry per mention of `pid`
      among a waiter's blockers. */
  ghost predicate IsWaiterList(g: Graph, pid: int, s: seq<int>) {
    && SortedBy(IntLe, s)
    && forall w :: Count(s, w) == if w in g.blocked then Count(g.blocked[w], pid) else 0
  }

  ghost function WaiterList(g: Graph, pid: int): (s: seq<int>)
    ensures IsWaiterList(g, pid, s)
    ensures forall w :: w in s <==> g.Blocks(pid, w)
  {
    var bag := CollectWaiters(g, pid, g.blocked.Keys);
    IntLeIsLinear();
    SortByIsSorted(IntLe, bag);
    assert IsWaiterList(g, pid, SortBy(IntLe, bag));
    var s :| IsWaiterList(g, pid, s);
    assert forall w :: w in s <==> Count(s, w) > 0;
    assert forall w <- g.blocked :: pid in g.blocked[w] <==> Count(g.blocked[w], pid) > 0;
    s
  }

  ghost function CollectWaiters(g: Graph, pid: int, keys: set<int>): (bag: seq<int>)
    requires keys <= g.blocked.Keys
    ensures forall w :: Count(bag, w) == if w in keys then Count(g.blocked[w], pid) else 0
  {
    if keys == {} then []
    else
      HasMember(keys);
      var k :| k in keys;
      var n := Count(g.blocked[k], pid);
      var rest := CollectWaiters(g, pid, keys - {k});
      CountOfCopies(k, n);
      assert forall w :: Count(rest + Copies(k, n), w) == Count(rest, w) + Count(Copies(k, n), w);
      rest + Copies(k, n)
  }

  ghost function Copies(x: int, n: nat): seq<int> {
    if n == 0 then [] else Copies(x, n - 1) + [x]
  }

  lemma {:induction false} CountOfCopies(x: int, n: nat)
    ensures forall w :: Count(Copies(x, n), w) == if w == x then n else 0
  {
    if n > 0 {
      CountOfCopies(x, n - 1);
      assert forall w :: Count(Copies(x, n), w) == Count(Copies(x, n - 1), w) + Count([x], w);
    }
  }

  lemma SameCounts(s: seq<int>, t: seq<int>)
    requires forall w :: Count(s, w) == Count(t, w)
    ensures multiset(s) == multiset(t)
  {
    forall w ensures multiset(s)[w] == multiset(t)[w] {
      assert Count(s, w) == Count(t, w);
    }
  }

  lemma WaiterListIsUnique(g: Graph, pid: int, s: seq<int>)
    requires IsWaiterList(g, pid, s)
    ensures s == WaiterList(g, pid)
  {
    var t := WaiterList(g, pid);
    assert forall w :: Count(s, w) == Count(t, w);
    SameCounts(s, t);
    IntLeIsLinear();
    SortedIsUnique(IntLe, s, t);
  }

  function Target(targets: map<int, string>, pid: int): string {
    if pid in targets then targets[pid] else ""
  }

  /** `build(pid, seen)`: visible sessions outside `seen` run out, so it ends. */
  ghost function Build(g: Graph, targets: map<int, string>, pid: int, seen: set<int>): (t: Tree)
    requires g.Valid() && pid in g.byPid
    ensures t.session.pid == pid
    decreases g.byPid.Keys - seen, 1, 0
  {
    Node(g.byPid[pid], Target(targets, pid), BuildAll(g, targets, WaiterList(g, pid), seen))
  }

  ghost function BuildAll(g: Graph, targets: map<int, string>, kids: seq<int>, seen: set<int>): seq<Tree>
    requires g.Valid()
    decreases g.byPid.Keys - seen, 0, |kids|
  {
    if kids == [] then []
    else
      var kid := kids[|kids| - 1];
      var before := BuildAll(g, targets, kids[..|kids| - 1], seen);
      if kid in seen || kid !in g.byPid then before
      else before + [Build(g, targets, kid, seen + {kid})]
  }

  ghost function RootSet(g: Graph): set<int> {
    set pid | pid in g.byPid && g.IsRoot(pid)
  }

  /** The members of a set in strictly ascending order. */
  ghost function Ascending(s: set<int>): (r: seq<int>)
    ensures forall x :: x in r <==> x in s
    ensures forall i, j | 0 <= i < j < |r| :: r[i] < r[j]
    ensures multiset(r) == multiset(s)
  {
    var bag := Listing(s);
    IntLeIsLinear();
    SortByIsSorted(IntLe, bag);
    AscendingIsStrict(s, SortBy(IntLe, bag));
    SortBy(IntLe, bag)
  }

  ghost function Listing(s: set<int>): (r: seq<int>)
    ensures multiset(r) == multiset(s)
  {
    if s == {} then []
    else
      HasMember(s);
      var x :| x in s;
      assert multiset(s) == multiset(s - {x}) + multiset{x};
      Listing(s - {x}) + [x]
  }

  lemma AscendingIsStrict(s: set<int>, r: seq<int>)
    requires SortedBy(IntLe, r) && multiset(r) == multiset(s)
    ensures forall x :: x in r <==> x in s
    ensures forall i, j | 0 <= i < j < |r| :: r[i] < r[j]
  {
    forall x ensures x in r <==> x in s {
      assert x in r <==> x in multiset(r);
    }
    forall i, j | 0 <= i < j < |r| ensures r[i] < r[j] {
      assert IntLe(r[i], r[j]);
      assert r == r[..j] + [r[j]] + r[j + 1..];
      assert r[i] in r[..j];
      assert multiset(r)[r[j]] == 1;
    }
  }

  ghost function Forest(g: Graph, targets: map<int, string>): seq<Tree>
    requires g.Valid()
  {
    var roots := Ascending(RootSet(g));
    assert forall r <- roots :: r in RootSet(g);
    ForestOf(g, targets, roots)
  }

  ghost function ForestOf(g: Graph, targets: map<int, string>, roots: seq<int>): (f: seq<Tree>)
    requires g.Valid() && forall r <- roots :: r in g.byPid
    ensures |f| == |roots|
    ensures forall i | 0 <= i < |f| :: f[i] == Build(g, targets, roots[i], {roots[i]})
  {
    if roots == [] then []
    else
      var n := |roots| - 1;
      ForestOf(g, targets, roots[..n]) + [Build(g, targets, roots[n], {roots[n]})]
  }

  // ---- The summaries `pids`, `size` and `depth`

  function Pids(t: Tree): set<int> {
    {t.session.pid} + PidsOfAll(t.children)
  }

  function PidsOfAll(ts: seq<Tree>): set<int> {
    if ts == [] then {} else PidsOfAll(ts[..|ts| - 1]) + Pids(ts[|ts| - 1])
  }

  function Size(t: Tree): nat { |Pids(t)| }

  function Depth(t: Tree): nat { 1 + MaxDepth(t.children) }

  function MaxDepth(ts: seq<Tree>): nat {
    if ts == [] then 0
    else
      var before, last := MaxDepth(ts[..|ts| - 1]), Depth(ts[|ts| - 1]);
      if before < last then last else before
  }

  /** `p` lists the pids met on the way from the root of `t` down to some node. */
  ghost predicate IsPath(t: Tree, p: seq<int>) {
    && p != [] && p[0] == t.session.pid
    && (|p| == 1 || exists c <- t.children :: IsPath(c, p[1..]))
  }

  // ---- Paths in the tree are simple walks in the graph

  lemma {:induction false} MemberOfBuildAll(g: Graph, targets: map<int, string>, kids: seq<int>,
                                            seen: set<int>, t: Tree)
    requires g.Valid()
    ensures t in BuildAll(g, targets, kids, seen) <==>
            var k := t.session.pid;
            k in kids && k !in seen && k in g.byPid && t == Build(g, targets, k, seen + {k})
    decreases |kids|
  {
    if kids != [] {
      var n := |kids| - 1;
      assert kids == kids[..n] + [kids[n]];
      MemberOfBuildAll(g, targets, kids[..n], seen, t);
    }
  }

  ghost predicate SimpleWalkFrom(g: Graph, pid: int, seen: set<int>, p: seq<int>) {
    && g.Walk(p) && p[0] == pid && NoRepeat(p)
    && forall i | 1 <= i < |p| :: p[i] !in seen
  }

  lemma {:induction false} PathIsSimpleWalk(g: Graph, targets: map<int, string>, pid: int,
                                            seen: set<int>, p: seq<int>)
    requires g.Valid() && pid in g.byPid && pid in seen
    requires IsPath(Build(g, targets, pid, seen), p)
    ensures SimpleWalkFrom(g, pid, seen, p)
    decreases |p|
  {
    if |p| > 1 {
      var t := Build(g, targets, pid, seen);
      var c :| c in t.children && IsPath(c, p[1..]);
      var k := c.session.pid;
      MemberOfBuildAll(g, targets, WaiterList(g, pid), seen, c);
      PathIsSimpleWalk(g, targets, k, seen + {k}, p[1..]);
      assert g.Blocks(pid, k);
      forall i | 0 <= i < |p| - 1 ensures g.Blocks(p[i], p[i + 1]) {
        if i > 0 { assert p[1..][i - 1] == p[i] && p[1..][i] == p[i + 1]; }
      }
      forall i | 1 <= i < |p| ensures p[i] !in seen {
        if i > 1 { assert p[1..][i - 1] == p[i]; }
      }
    }
  }

  lemma {:induction false} SimpleWalkIsPath(g: Graph, targets: map<int, string>, pid: int,
                                            seen: set<int>, p: seq<int>)
    requires g.Valid() && pid in g.byPid
    requires SimpleWalkFrom(g, pid, seen, p)
    ensures IsPath(Build(g, targets, pid, seen), p)
    decreases |p|
  {
    if |p| > 1 {
      var k := p[1];
      assert g.Blocks(p[0], p[1]);
      var q := p[1..];
      assert forall i | 0 <= i < |q| - 1 :: g.Blocks(q[i], q[i + 1]) by {
        forall i | 0 <= i < |q| - 1 ensures g.Blocks(q[i], q[i + 1]) {
          assert g.Blocks(p[i + 1], p[i + 2]);
        }
      }
      SimpleWalkIsPath(g, targets, k, seen + {k}, q);
      var c := Build(g, targets, k, seen + {k});
      MemberOfBuildAll(g, targets, WaiterList(g, pid), seen, c);
      assert c in Build(g, targets, pid, seen).children && IsPath(c, p[1..]);
    }
  }

  /** The root-to-node paths of the tree under `r` are exactly the walks from `r`
      that visit no session twice. */
  lemma TreePathsAreSimpleWalks(g: Graph, targets: map<int, string>, r: int, p: seq<int>)
    requires g.Valid() && r in g.byPid
    ensures IsPath(Build(g, targets, r, {r}), p) <==> g.Walk(p) && p[0] == r && NoRepeat(p)
  {
    if IsPath(Build(g, targets, r, {r}), p) {
      PathIsSimpleWalk(g, targets, r, {r}, p);
    }
    if g.Walk(p) && p[0] == r && NoRepeat(p) {
      SimpleWalkIsPath(g, targets, r, {r}, p);
    }
  }

  // ---- What each node shows

  ghost function ChildPids(ts: seq<Tree>): seq<int> {
    if ts == [] then [] else ChildPids(ts[..|ts| - 1]) + [ts[|ts| - 1].session.pid]
  }

  /** The waiters that are visible and not yet on the path, in the given order. */
  ghost function Unseen(g: Graph, kids: seq<int>, seen: set<int>): seq<int> {
    if kids == [] then []
    else
      var kid := kids[|kids| - 1];
      var before := Unseen(g, kids[..|kids| - 1], seen);
      if kid in seen || kid !in g.byPid then before else before + [kid]
  }

  lemma {:induction false} BuildAllPids(g: Graph, targets: map<int, string>, kids: seq<int>, seen: set<int>)
    requires g.Valid()
    ensures ChildPids(BuildAll(g, targets, kids, seen)) == Unseen(g, kids, seen)
    decreases |kids|
  {
    if kids != [] {
      BuildAllPids(g, targets, kids[..|kids| - 1], seen);
    }
  }

  lemma {:induction false} UnseenCounts(g: Graph, kids: seq<int>, seen: set<int>)
    ensures forall w :: Count(Unseen(g, kids, seen), w) ==
                        if w in seen || w !in g.byPid then 0 else Count(kids, w)
  {
    if kids != [] {
      var n := |kids| - 1;
      assert kids == kids[..n] + [kids[n]];
      UnseenCounts(g, kids[..n], seen);
    }
  }

  lemma {:induction false} UnseenIsSorted(g: Graph, kids: seq<int>, seen: set<int>)
    requires SortedBy(IntLe, kids)
    ensures SortedBy(IntLe, Unseen(g, kids, seen))
    ensures forall x <- Unseen(g, kids, seen) :: x in kids
  {
    if kids != [] {
      var n := |kids| - 1;
      UnseenIsSorted(g, kids[..n], seen);
      var before := Unseen(g, kids[..n], seen);
      forall k | 0 <= k < |before| ensures IntLe(before[k], kids[n]) {
        assert before[k] in before && before[k] in kids[..n];
        var j :| 0 <= j < n && kids[j] == before[k];
        assert IntLe(kids[j], kids[n]);
      }
    }
  }

  /** The children of a node are its visible waiters off the path, in ascending order,
      each once for every time it names the node among its blockers. */
  lemma ChildrenAreWaiters(g: Graph, targets: map<int, string>, pid: int, seen: set<int>)
    requires g.Valid() && pid in g.byPid
    ensures var kids := ChildPids(Build(g, targets, pid, seen).children);
            && SortedBy(IntLe, kids)
            && forall w :: Count(kids, w) == if w in g.blocked && w !in seen then Count(g.blocked[w], pid) else 0
  {
    var kids := WaiterList(g, pid);
    BuildAllPids(g, targets, kids, seen);
    UnseenIsSorted(g, kids, seen);
    UnseenCounts(g, kids, seen);
    forall w
      ensures Count(Unseen(g, kids, seen), w) ==
              if w in g.blocked && w !in seen then Count(g.blocked[w], pid) else 0
    {
      assert Count(kids, w) == if w in g.blocked then Count(g.blocked[w], pid) else 0;
    }
  }

  ghost predicate ShowsRow(g: Graph, targets: map<int, string>, t: Tree) {
    var pid := t.session.pid;
    && pid in g.byPid && t.session == g.byPid[pid]
    && t.waitingFor == (if pid in targets then targets[pid] else "")
  }

  ghost predicate IsSubtree(s: Tree, t: Tree) {
    s == t || exists c <- t.children :: IsSubtree(s, c)
  }

  /** Every node shows the snapshot row of its pid and the lock that pid waits for. */
  lemma {:induction false} NodesShowRows(g: Graph, targets: map<int, string>, pid: int, seen: set<int>, s: Tree)
    requires g.Valid() && pid in g.byPid && IsSubtree(s, Build(g, targets, pid, seen))
    ensures ShowsRow(g, targets, s)
    decreases g.byPid.Keys - seen
  {
    var t := Build(g, targets, pid, seen);
    if s != t {
      var c :| c in t.children && IsSubtree(s, c);
      MemberOfBuildAll(g, targets, WaiterList(g, pid), seen, c);
      NodesShowRows(g, targets, c.session.pid, seen + {c.session.pid}, s);
    }
  }

  // ---- pids() is reachability

  lemma {:induction false} PidsOfAllMember(ts: seq<Tree>, v: int)
    ensures v in PidsOfAll(ts) <==> exists c <- ts :: v in Pids(c)
  {
    if ts != [] {
      var n := |ts| - 1;
      assert ts == ts[..n] + [ts[n]];
      PidsOfAllMember(ts[..n], v);
      if c :| c in ts && v in Pids(c) {
        assert c in ts[..n] || c == ts[n];
      }
      if c :| c in ts[..n] && v in Pids(c) {
        assert c in ts;
      }
      assert ts[n] in ts;
    }
  }

  lemma {:induction false} PidHasPath(t: Tree, v: int) returns (p: seq<int>)
    requires v in Pids(t)
    ensures IsPath(t, p) && p[|p| - 1] == v
  {
    if v == t.session.pid {
      p := [v];
    } else {
      PidsOfAllMember(t.children, v);
      var c :| c in t.children && v in Pids(c);
      var q := PidHasPath(c, v);
      p := [t.session.pid] + q;
      assert p[1..] == q;
    }
  }

  lemma {:induction false} PathEndsAtPid(t: Tree, p: seq<int>)
    requires IsPath(t, p)
    ensures p[|p| - 1] in Pids(t)
    decreases |p|
  {
    if |p| > 1 {
      var c :| c in t.children && IsPath(c, p[1..]);
      PathEndsAtPid(c, p[1..]);
      PidsOfAllMember(t.children, p[|p| - 1]);
    }
  }

  ghost function ReachableFrom(g: Graph, r: int): set<int> {
    set v | v in g.byPid && g.Reaches(r, v)
  }

  /** Cutting only on per-path revisits loses nobody: the tree under `r` holds
      exactly the visible sessions reachable from `r`. */
  lemma PidsAreReachable(g: Graph, targets: map<int, string>, r: int)
    requires g.Valid() && r in g.byPid
    ensures Pids(Build(g, targets, r, {r})) == ReachableFrom(g, r)
    ensures forall v :: g.Reaches(r, v) ==> v in g.byPid
  {
    var t := Build(g, targets, r, {r});
    forall v | v in Pids(t) ensures v in g.byPid && g.Reaches(r, v) {
      var p := PidHasPath(t, v);
      TreePathsAreSimpleWalks(g, targets, r, p);
      WalkIsVisible(g, p, |p| - 1);
      assert g.WalkBetween(p, r, v);
    }
    forall v | g.Reaches(r, v) ensures v in Pids(t) && v in g.byPid {
      var p :| g.WalkBetween(p, r, v);
      var q := EraseLoops(g, p, r, v);
      TreePathsAreSimpleWalks(g, targets, r, q);
      PathEndsAtPid(t, q);
      WalkIsVisible(g, q, |q| - 1);
    }
    forall v ensures v in Pids(t) <==> v in ReachableFrom(g, r) {
      assert v in ReachableFrom(g, r) <==> v in g.byPid && g.Reaches(r, v);
    }
  }

  // ---- depth() is the longest simple walk

  lemma {:induction false} DepthOfMember(ts: seq<Tree>, c: Tree)
    requires c in ts
    ensures Depth(c) <= MaxDepth(ts)
  {
    var n := |ts| - 1;
    if c != ts[n] {
      DepthOfMember(ts[..n], c);
    }
  }

  lemma {:induction false} DeepestMember(ts: seq<Tree>) returns (c: Tree)
    requires ts != []
    ensures c in ts && Depth(c) == MaxDepth(ts)
  {
    var n := |ts| - 1;
    if MaxDepth(ts[..n]) < Depth(ts[n]) || n == 0 {
      c := ts[n];
    } else {
      c := DeepestMember(ts[..n]);
    }
  }

  lemma {:induction false} DeepestPath(t: Tree) returns (p: seq<int>)
    ensures IsPath(t, p) && |p| == Depth(t)
  {
    if t.children == [] {
      p := [t.session.pid];
    } else {
      var c := DeepestMember(t.children);
      var q := DeepestPath(c);
      p := [t.session.pid] + q;
      assert p[1..] == q;
    }
  }

  lemma {:induction false} PathWithinDepth(t: Tree, p: seq<int>)
    requires IsPath(t, p)
    ensures |p| <= Depth(t)
    decreases |p|
  {
    if |p| > 1 {
      var c :| c in t.children && IsPath(c, p[1..]);
      PathWithinDepth(c, p[1..]);
      DepthOfMember(t.children, c);
    }
  }

  ghost predicate LongestSimpleWalk(g: Graph, r: int, n: nat) {
    && (exists p :: g.Walk(p) && p[0] == r && NoRepeat(p) && |p| == n)
    && (forall p | g.Walk(p) && p[0] == r && NoRepeat(p) :: |p| <= n)
  }

  lemma DepthIsLongestSimpleWalk(g: Graph, targets: map<int, string>, r: int)
    requires g.Valid() && r in g.byPid
    ensures LongestSimpleWalk(g, r, Depth(Build(g, targets, r, {r})))
  {
    var t := Build(g, targets, r, {r});
    var p := DeepestPath(t);
    TreePathsAreSimpleWalks(g, targets, r, p);
    forall q | g.Walk(q) && q[0] == r && NoRepeat(q) ensures |q| <= Depth(t) {
      TreePathsAreSimpleWalks(g, targets, r, q);
      PathWithinDepth(t, q);
    }
  }

  // ---- Which sessions the forest shows

  ghost predicate InForest(f: seq<Tree>, v: int) {
    exists t <- f :: v in Pids(t)
  }

  lemma ForestTree(g: Graph, targets: map<int, string>, t: Tree)
    requires g.Valid()
    ensures t in Forest(g, targets) <==>
            g.IsRoot(t.session.pid) && t == Build(g, targets, t.session.pid, {t.session.pid})
  {
    var roots := Ascending(RootSet(g));
    var r := t.session.pid;
    assert r in roots <==> g.IsRoot(r);
    ForestOfMember(g, targets, roots, t);
  }

  lemma ForestOfMember(g: Graph, targets: map<int, string>, roots: seq<int>, t: Tree)
    requires g.Valid() && forall r <- roots :: r in g.byPid
    ensures t in ForestOf(g, targets, roots) <==>
            t.session.pid in roots && t == Build(g, targets, t.session.pid, {t.session.pid})
  {}

  /** The roots are the visible sessions that wait on nobody and block somebody,
      each shown once, in ascending order of pid. */
  lemma ForestRoots(g: Graph, targets: map<int, string>, r: int)
    requires g.Valid()
    ensures g.IsRoot(r) <==> exists t <- Forest(g, targets) :: t.session.pid == r
    ensures var f := Forest(g, targets);
            forall i, j | 0 <= i < j < |f| :: f[i].session.pid < f[j].session.pid
  {
    if t :| t in Forest(g, targets) && t.session.pid == r {
      ForestTree(g, targets, t);
    }
    if g.IsRoot(r) {
      ForestTree(g, targets, Build(g, targets, r, {r}));
    }
  }

  /** Every tree of the forest shows its root and at least one waiter. */
  lemma RootHasWaiter(g: Graph, targets: map<int, string>, r: int)
    requires g.Valid() && g.IsRoot(r)
    ensures Size(Build(g, targets, r, {r})) >= 2
  {
    var w :| g.Blocks(r, w);
    assert g.WalkBetween([r], r, r);
    assert g.WalkBetween([r, w], r, w);
    PidsAreReachable(g, targets, r);
    SubsetSize({r, w}, Pids(Build(g, targets, r, {r})));
  }

  lemma {:induction false} SubsetSize(a: set<int>, b: set<int>)
    requires a <= b
    ensures |a| <= |b|
  {
    if a != {} {
      HasMember(a);
      var x :| x in a;
      SubsetSize(a - {x}, b - {x});
    }
  }

  /** A waiter is shown exactly when some visible session that waits on nobody
      reaches it; what hangs below a cycle or an invisible blocker only is missing. */
  lemma WaiterShownIff(g: Graph, targets: map<int, string>, v: int)
    requires g.Valid() && v in g.blocked
    ensures InForest(Forest(g, targets), v) <==>
            exists r :: r in g.byPid && r !in g.blocked && g.Reaches(r, v)
  {
    var f := Forest(g, targets);
    if InForest(f, v) {
      var t :| t in f && v in Pids(t);
      ForestTree(g, targets, t);
      PidsAreReachable(g, targets, t.session.pid);
    }
    if r :| r in g.byPid && r !in g.blocked && g.Reaches(r, v) {
      var p :| g.WalkBetween(p, r, v);
      assert g.Blocks(p[0], p[1]);
      var t := Build(g, targets, r, {r});
      ForestTree(g, targets, t);
      PidsAreReachable(g, targets, r);
    }
  }

  /** Without cycles and invisible blockers, nobody who waits is missing. */
  lemma AcyclicForestIsComplete(g: Graph, targets: map<int, string>, v: int)
    requires g.Valid() && g.Acyclic() && g.AllBlockersVisible()
    requires v in g.blocked
    ensures InForest(Forest(g, targets), v)
  {
    var up := g.blocked[v][0];
    assert g.Blocks(up, v);
    assert g.Walk([up, v]);
    var r := Ascend(g, [up, v]);
    WaiterShownIff(g, targets, v);
  }

  /** Two snapshots with the same rows in any order give the same forest. */
  lemma ForestIgnoresRowOrder(a: seq<Session>, b: seq<Session>, targets: map<int, string>)
    requires DistinctPids(a) && DistinctPids(b) && multiset(a) == multiset(b)
    ensures Forest(GraphOf(a), targets) == Forest(GraphOf(b), targets)
  {
    GraphIgnoresRowOrder(a, b);
  }
}
