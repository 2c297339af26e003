/** The "is blocked by" relation of one activity snapshot, as a directed graph.

    An edge leads from a blocker to the session it blocks.  The relation may be
    cyclic, may name blockers that the snapshot does not show, and may name the
    same blocker twice. */
module WaitGraph {
  import opened Sorting

  datatype Session = Session(pid: int, user: string, application: string, state: string,
                             blockedBy: seq<int>)

  /** `byPid` and `blocked` are the two dicts of `build_blocking_forest`. */
  datatype Graph = Graph(byPid: map<int, Session>, blocked: map<int, seq<int>>) {

    ghost predicate Valid() {
      && (forall pid <- byPid :: byPid[pid].pid == pid)
      && blocked.Keys <= byPid.Keys
      && (forall pid <- blocked :: blocked[pid] != [])
    }

    ghost predicate Blocks(blocker: int, waiter: int) {
      waiter in blocked && blocker in blocked[waiter]
    }

    /** A chain of visible sessions, each blocking the next. */
    ghost predicate Walk(p: seq<int>) {
      && p != [] && p[0] in byPid
      && forall i | 0 <= i < |p| - 1 :: Blocks(p[i], p[i + 1])
    }

    ghost predicate WalkBetween(p: seq<int>, from: int, to: int) {
      Walk(p) && p[0] == from && p[|p| - 1] == to
    }

    ghost predicate Reaches(from: int, to: int) {
      exists p :: WalkBetween(p, from, to)
    }

    /** Waits on nobody and blocks somebody. */
    ghost predicate IsRoot(pid: int) {
      pid in byPid && pid !in blocked && exists waiter :: Blocks(pid, waiter)
    }

    ghost predicate Acyclic() {
      forall p | Walk(p) && |p| >= 2 :: p[0] != p[|p| - 1]
    }

    ghost predicate AllBlockersVisible() {
      forall blocker, waiter | Blocks(blocker, waiter) :: blocker in byPid
    }
  }

  /** Dict comprehensions over the session list: a later row replaces an earlier one. */
  function ByPid(sessions: seq<Session>): map<int, Session> {
    if sessions == [] then map[]
    else
      var last := sessions[|sessions| - 1];
      ByPid(sessions[..|sessions| - 1])[last.pid := last]
  }

  function Blocked(sessions: seq<Session>): map<int, seq<int>> {
    if sessions == [] then map[]
    else
      var last := sessions[|sessions| - 1];
      var rest := Blocked(sessions[..|sessions| - 1]);
      if last.blockedBy == [] then rest else rest[last.pid := last.blockedBy]
  }

  function GraphOf(sessions: seq<Session>): (g: Graph)
    ensures g.Valid()
  {
    DictsAreConsistent(sessions);
    Graph(ByPid(sessions), Blocked(sessions))
  }

  lemma {:induction false} DictsAreConsistent(sessions: seq<Session>)
    ensures Graph(ByPid(sessions), Blocked(sessions)).Valid()
  {
    if sessions != [] {
      DictsAreConsistent(sessions[..|sessions| - 1]);
    }
  }

  /** A pid is in the dicts exactly if some row has it, and waits if that row has blockers. */
  lemma {:induction false} DictKeys(sessions: seq<Session>, pid: int)
    ensures pid in ByPid(sessions) <==> exists s <- sessions :: s.pid == pid
    ensures pid in Blocked(sessions) <==> exists s <- sessions :: s.pid == pid && s.blockedBy != []
  {
    if sessions != [] {
      var n := |sessions| - 1;
      assert sessions == sessions[..n] + [sessions[n]];
      DictKeys(sessions[..n], pid);
    }
  }

  /** With a pid repeated the last row stands, and the last one with blockers says whom
      it waits on. */
  lemma {:induction false} LastRowStands(sessions: seq<Session>, i: nat)
    requires i < |sessions|
    ensures (forall j | i < j < |sessions| :: sessions[j].pid != sessions[i].pid) ==>
              sessions[i].pid in ByPid(sessions) && ByPid(sessions)[sessions[i].pid] == sessions[i]
    ensures sessions[i].blockedBy != [] &&
            (forall j | i < j < |sessions| :: sessions[j].pid != sessions[i].pid || sessions[j].blockedBy == []) ==>
              sessions[i].pid in Blocked(sessions) &&
              Blocked(sessions)[sessions[i].pid] == sessions[i].blockedBy
  {
    var n := |sessions| - 1;
    if i < n {
      LastRowStands(sessions[..n], i);
    }
  }

  ghost predicate DistinctPids(sessions: seq<Session>) {
    forall i, j | 0 <= i < j < |sessions| :: sessions[i].pid != sessions[j].pid
  }

  /** The dicts hold exactly the rows of the snapshot. */
  ghost predicate HoldsRows(g: Graph, sessions: seq<Session>) {
    && (forall s :: s in sessions <==> s.pid in g.byPid && g.byPid[s.pid] == s)
    && (forall pid :: pid in g.blocked <==> pid in g.byPid && g.byPid[pid].blockedBy != [])
    && (forall pid <- g.blocked :: g.blocked[pid] == g.byPid[pid].blockedBy)
  }

  lemma {:induction false} DictsHoldTheRows(sessions: seq<Session>)
    requires DistinctPids(sessions)
    ensures HoldsRows(GraphOf(sessions), sessions)
  {
    if sessions != [] {
      var n := |sessions| - 1;
      assert sessions == sessions[..n] + [sessions[n]];
      DictsHoldTheRows(sessions[..n]);
      DictsAreConsistent(sessions[..n]);
      assert sessions[n].pid !in ByPid(sessions[..n]);
    }
  }

  /** The graph does not depend on the order of the rows. */
  lemma GraphIgnoresRowOrder(a: seq<Session>, b: seq<Session>)
    requires DistinctPids(a) && DistinctPids(b) && multiset(a) == multiset(b)
    ensures GraphOf(a) == GraphOf(b)
  {
    DictsHoldTheRows(a);
    DictsHoldTheRows(b);
    forall s ensures s in a <==> s in b {
      assert s in a <==> s in multiset(a);
      assert s in b <==> s in multiset(b);
    }
    RowsDetermineGraph(GraphOf(a), a, GraphOf(b), b);
  }

  lemma RowsDetermineGraph(g: Graph, a: seq<Session>, h: Graph, b: seq<Session>)
    requires g.Valid() && h.Valid() && HoldsRows(g, a) && HoldsRows(h, b)
    requires forall s :: s in a <==> s in b
    ensures g == h
  {
    forall pid | pid in g.byPid ensures pid in h.byPid && h.byPid[pid] == g.byPid[pid] {
      assert g.byPid[pid] in a;
    }
    forall pid | pid in h.byPid ensures pid in g.byPid {
      assert h.byPid[pid] in b;
    }
    assert g.byPid == h.byPid;
    forall pid ensures pid in g.blocked <==> pid in h.blocked {
      assert pid in g.byPid <==> pid in h.byPid;
    }
    forall pid | pid in g.blocked ensures g.blocked[pid] == h.blocked[pid] {
      assert pid in h.blocked;
    }
    assert g.blocked == h.blocked;
  }

  // ---- Walks

  lemma WalkIsVisible(g: Graph, p: seq<int>, i: int)
    requires g.Valid() && g.Walk(p) && 0 <= i < |p|
    ensures p[i] in g.byPid
  {
    if i > 0 {
      assert g.Blocks(p[i - 1], p[i]);
    }
  }

  /** Cutting out the detour between two visits of one session leaves a walk. */
  lemma {:induction false} EraseLoops(g: Graph, p: seq<int>, from: int, to: int) returns (q: seq<int>)
    requires g.Valid() && g.WalkBetween(p, from, to)
    ensures g.WalkBetween(q, from, to) && NoRepeat(q)
    decreases |p|
  {
    if NoRepeat(p) {
      q := p;
    } else {
      var i, j :| 0 <= i < j < |p| && p[i] == p[j];
      var r := p[..i] + p[j..];
      forall k | 0 <= k < |r| - 1 ensures g.Blocks(r[k], r[k + 1]) {
        if k < i {
          assert g.Blocks(p[k], p[k + 1]);
        } else {
          assert g.Blocks(p[k - i + j], p[k - i + j + 1]);
        }
      }
      q := EraseLoops(g, r, from, to);
    }
  }

  /** Following blockers upwards from a waiter, in an acyclic graph whose
      blockers are all visible, ends at a session that waits on nobody. */
  lemma {:induction false} Ascend(g: Graph, p: seq<int>) returns (root: int)
    requires g.Valid() && g.Acyclic() && g.AllBlockersVisible()
    requires g.Walk(p) && |p| >= 2
    ensures g.IsRoot(root) && g.Reaches(root, p[|p| - 1])
    decreases g.byPid.Keys - Elements(p)
  {
    if p[0] !in g.blocked {
      root := p[0];
      assert g.Blocks(p[0], p[1]);
      assert g.WalkBetween(p, root, p[|p| - 1]);
    } else {
      var up := g.blocked[p[0]][0];
      assert g.Blocks(up, p[0]);
      var q := [up] + p;
      assert g.Walk(q);
      forall k | 0 <= k < |p| ensures p[k] != up {
        var cycle := q[..k + 2];
        assert g.Walk(cycle) && cycle[0] == up && cycle[|cycle| - 1] == p[k];
      }
      assert up in g.byPid.Keys - Elements(p) && up in Elements(q);
      assert forall x <- p :: x in q by { assert forall i | 0 <= i < |p| :: q[i + 1] == p[i]; }
      root := Ascend(g, q);
    }
  }

  ghost function Elements(p: seq<int>): set<int> { set x | x in p }
}
