/** What the index report as a whole keeps and loses: the promise about indexes that
    enforce something, and acting on all four checks at once. */
module IndexAdvice {
  import opened IndexRules
  import opened IndexPruning
  import opened Indexes

  // ---- Indexes that enforce something

  /** Some check advises dropping `i`. */
  ghost predicate AdvisedToDrop(indexes: seq<IndexInfo>, minUnusedBytes: int, i: IndexInfo) {
    exists check :: IsAdvised(indexes, minUnusedBytes, check, i)
  }

  /** Another valid index of the same shape that sorts before `i`. */
  ghost predicate HasPreferredTwin(indexes: seq<IndexInfo>, i: IndexInfo) {
    exists t <- indexes :: t != i && t.isValid && t.Shape() == i.Shape() && KeeperLe(t, i)
  }

  /** A protected index is advised for dropping exactly when it is invalid, or valid
      with a twin, necessarily protected too, that the group keeps before it. */
  lemma ProtectedDropIff(indexes: seq<IndexInfo>, minUnusedBytes: int, i: IndexInfo)
    requires DistinctSubjects(indexes) && i in indexes && i.Protected()
    ensures AdvisedToDrop(indexes, minUnusedBytes, i) <==>
            !i.isValid || HasPreferredTwin(indexes, i)
  {
    if !i.isValid {
      assert IsAdvised(indexes, minUnusedBytes, Invalid, i);
    } else {
      var keeper := CopyIffNotKeeper(indexes, i);
      if t :| t in indexes && t != i && t.isValid && t.Shape() == i.Shape() && KeeperLe(t, i) {
        assert KeeperLe(keeper, t);
        if i == keeper {
          SameRank(indexes, i, t);
        }
        assert IsAdvised(indexes, minUnusedBytes, Duplicate, i);
      }
      if IsCopy(indexes, i) {
        assert KeeperLe(keeper, i);
      }
    }
  }

  /** "An index that enforces something is never proposed for dropping" holds exactly
      when every protected index is valid and no two of them share a shape. */
  lemma ProtectedNeverDroppedIff(indexes: seq<IndexInfo>, minUnusedBytes: int)
    requires DistinctSubjects(indexes)
    ensures (forall i <- indexes | i.Protected() :: !AdvisedToDrop(indexes, minUnusedBytes, i)) <==>
            && (forall i <- indexes | i.Protected() :: i.isValid)
            && (forall a <- indexes, b <- indexes | a.Protected() && b.Protected() && a != b ::
                  a.Shape() != b.Shape())
  {
    forall i | i in indexes && i.Protected()
      ensures AdvisedToDrop(indexes, minUnusedBytes, i) <==> !i.isValid || HasPreferredTwin(indexes, i)
    {
      ProtectedDropIff(indexes, minUnusedBytes, i);
    }
    forall a, b | a in indexes && b in indexes && a.Protected() && b.Protected() && a != b &&
                  a.isValid && b.isValid && a.Shape() == b.Shape()
      ensures HasPreferredTwin(indexes, a) || HasPreferredTwin(indexes, b)
    {
      KeeperLeIsPreorder();
      assert KeeperLe(a, b) || KeeperLe(b, a);
    }
  }

  // ---- Acting on all four checks at once

  /** No check names the schema and name of `s`. */
  ghost predicate Kept(indexes: seq<IndexInfo>, minUnusedBytes: int, s: IndexInfo) {
    && s in indexes
    && forall check, i | IsAdvised(indexes, minUnusedBytes, check, i) :: i.Subject() != s.Subject()
  }

  /** Valid, least of its class, and without a cover that would make it redundant. */
  ghost predicate Terminal(indexes: seq<IndexInfo>, i: IndexInfo) {
    && i in indexes && i.isValid && IsKeeper(indexes, i, i)
    && (i.Protected() || !HasValidCover(indexes, i))
  }

  lemma SurvivesIffTerminal(indexes: seq<IndexInfo>, i: IndexInfo)
    requires DistinctSubjects(indexes)
    ensures Survives(indexes, i) <==> Terminal(indexes, i)
  {
    if i in indexes && i.isValid {
      SurvivesIff(indexes, i);
      var keeper := CopyIffNotKeeper(indexes, i);
      if IsKeeper(indexes, i, i) {
        KeeperIsUnique(indexes, i, i, keeper);
      }
    }
  }

  lemma AdvisedIsListed(indexes: seq<IndexInfo>, minUnusedBytes: int, check: Check, i: IndexInfo)
    requires DistinctSubjects(indexes) && IsAdvised(indexes, minUnusedBytes, check, i)
    ensures i in indexes
  {
    if check == Duplicate {
      var g: seq<IndexInfo>, j :| g in DuplicateGroups(indexes) && 1 <= j < |g| && g[j] == i;
      GroupKeeper(indexes, g, i);
    }
  }

  lemma KeptIff(indexes: seq<IndexInfo>, minUnusedBytes: int, s: IndexInfo)
    requires DistinctSubjects(indexes)
    ensures Kept(indexes, minUnusedBytes, s) <==> Terminal(indexes, s) && !IsUnused(minUnusedBytes, s)
  {
    SurvivesIffTerminal(indexes, s);
    if s in indexes {
      SurvivesIff(indexes, s);
      forall check, i | IsAdvised(indexes, minUnusedBytes, check, i) && i.Subject() == s.Subject()
        ensures i == s
      {
        AdvisedIsListed(indexes, minUnusedBytes, check, i);
        SameSubject(indexes, i, s);
      }
      assert Kept(indexes, minUnusedBytes, s) <==> forall check :: !IsAdvised(indexes, minUnusedBytes, check, s);
      assert (forall check :: !IsAdvised(indexes, minUnusedBytes, check, s)) <==>
        && !IsAdvised(indexes, minUnusedBytes, Invalid, s)
        && !IsAdvised(indexes, minUnusedBytes, Duplicate, s)
        && !IsAdvised(indexes, minUnusedBytes, Redundant, s)
        && !IsAdvised(indexes, minUnusedBytes, Unused, s);
    }
  }

  /** Every ordered access path stays available after acting on all the advice. */
  ghost predicate AllAdviceKeepsOrder(indexes: seq<IndexInfo>, minUnusedBytes: int) {
    forall i, q | i in indexes && i.isValid && ServesOrder(i, q) ::
      exists s <- indexes :: Kept(indexes, minUnusedBytes, s) && ServesOrder(s, q)
  }

  /** Every request, INCLUDE columns too, stays served. */
  ghost predicate AllAdviceKeepsRequests(indexes: seq<IndexInfo>, minUnusedBytes: int) {
    forall i, q | i in indexes && i.isValid && Serves(i, q) ::
      exists s <- indexes :: Kept(indexes, minUnusedBytes, s) && Serves(s, q)
  }

  /** A used terminal index extends the keys of `i`. */
  ghost predicate HasUsedExtension(indexes: seq<IndexInfo>, minUnusedBytes: int, i: IndexInfo) {
    exists t <- indexes :: Terminal(indexes, t) && !IsUnused(minUnusedBytes, t) &&
                           t.family == i.family && i.keys <= t.keys
  }

  /** With the unused-index advice included, no ordered access path is lost exactly when
      each terminal index that is unused has a used terminal index extending its keys. */
  lemma AllAdviceKeepsOrderIff(indexes: seq<IndexInfo>, minUnusedBytes: int)
    requires DistinctSubjects(indexes)
    ensures AllAdviceKeepsOrder(indexes, minUnusedBytes) <==>
            forall i <- indexes | Terminal(indexes, i) && IsUnused(minUnusedBytes, i) ::
              HasUsedExtension(indexes, minUnusedBytes, i)
  {
    if AllAdviceKeepsOrder(indexes, minUnusedBytes) {
      forall i | i in indexes && Terminal(indexes, i) ensures HasUsedExtension(indexes, minUnusedBytes, i) {
        var q := Request(i.family, i.keys, {});
        assert ServesOrder(i, q);
        var s :| s in indexes && Kept(indexes, minUnusedBytes, s) && ServesOrder(s, q);
        KeptIff(indexes, minUnusedBytes, s);
      }
    }
    if forall i <- indexes | Terminal(indexes, i) && IsUnused(minUnusedBytes, i) ::
         HasUsedExtension(indexes, minUnusedBytes, i) {
      forall i, q | i in indexes && i.isValid && ServesOrder(i, q)
        ensures exists s <- indexes :: Kept(indexes, minUnusedBytes, s) && ServesOrder(s, q)
      {
        OrderIsKept(indexes, minUnusedBytes, i, q);
      }
    }
  }

  lemma OrderIsKept(indexes: seq<IndexInfo>, minUnusedBytes: int, i: IndexInfo, q: Request)
    requires DistinctSubjects(indexes) && i in indexes && i.isValid && ServesOrder(i, q)
    requires forall u <- indexes | Terminal(indexes, u) && IsUnused(minUnusedBytes, u) ::
               HasUsedExtension(indexes, minUnusedBytes, u)
    ensures exists s <- indexes :: Kept(indexes, minUnusedBytes, s) && ServesOrder(s, q)
  {
    var s := OrderSurvives(indexes, i);
    SurvivesIffTerminal(indexes, s);
    KeptIff(indexes, minUnusedBytes, s);
    if IsUnused(minUnusedBytes, s) {
      var t :| t in indexes && Terminal(indexes, t) && !IsUnused(minUnusedBytes, t) &&
               t.family == s.family && s.keys <= t.keys;
      KeptIff(indexes, minUnusedBytes, t);
      assert q.keys <= t.keys[..|s.keys|];
    }
  }

  /** With the unused-index advice included, every request stays served exactly when
      each index can be replaced by its keeper or a cover and no terminal index is
      unused: nothing else has all its columns. */
  lemma AllAdviceKeepsRequestsIff(indexes: seq<IndexInfo>, minUnusedBytes: int)
    requires DistinctSubjects(indexes)
    ensures AllAdviceKeepsRequests(indexes, minUnusedBytes) <==>
            && CopiesAreReplaceable(indexes)
            && forall i <- indexes | Terminal(indexes, i) :: !IsUnused(minUnusedBytes, i)
  {
    forall s ensures Kept(indexes, minUnusedBytes, s) <==>
                     Survives(indexes, s) && !IsUnused(minUnusedBytes, s) {
      KeptIff(indexes, minUnusedBytes, s);
      SurvivesIffTerminal(indexes, s);
    }
    AdviceKeepsRequestsIff(indexes);
    if AllAdviceKeepsRequests(indexes, minUnusedBytes) {
      assert KeepsEveryRequest(indexes);
      forall i | i in indexes && Terminal(indexes, i) ensures !IsUnused(minUnusedBytes, i) {
        TerminalIsUsed(indexes, minUnusedBytes, i);
      }
    }
    if CopiesAreReplaceable(indexes) && forall i <- indexes | Terminal(indexes, i) :: !IsUnused(minUnusedBytes, i) {
      forall s | s in indexes && Survives(indexes, s) ensures Kept(indexes, minUnusedBytes, s) {
        SurvivesIffTerminal(indexes, s);
      }
    }
  }

  lemma TerminalIsUsed(indexes: seq<IndexInfo>, minUnusedBytes: int, i: IndexInfo)
    requires DistinctSubjects(indexes) && AllAdviceKeepsRequests(indexes, minUnusedBytes)
    requires Terminal(indexes, i)
    ensures !IsUnused(minUnusedBytes, i)
  {
    var q := Request(i.family, i.keys, i.allColumns);
    assert Serves(i, q);
    var s :| s in indexes && Kept(indexes, minUnusedBytes, s) && Serves(s, q);
    KeptIff(indexes, minUnusedBytes, s);
    if |s.keys| > |i.keys| {
      assert Covers(s, i);
    } else {
      assert s.keys == i.keys && s.Shape() == i.Shape();
      KeeperIsUnique(indexes, i, i, s);
    }
  }

  // ---- What becomes of the enforcement

  /** What makes an index protected. */
  datatype Duty = Uniqueness | PrimaryKey | ReplicaIdentity | BackingConstraint

  predicate Enforces(i: IndexInfo, d: Duty) {
    match d
    case Uniqueness => i.isUnique
    case PrimaryKey => i.isPrimary
    case ReplicaIdentity => i.isReplident
    case BackingConstraint => i.backsConstraint
  }

  lemma ProtectedIffDuty(i: IndexInfo)
    ensures i.Protected() <==> exists d :: Enforces(i, d)
  {
    assert Enforces(i, Uniqueness) <==> i.isUnique;
    assert Enforces(i, PrimaryKey) <==> i.isPrimary;
    assert Enforces(i, ReplicaIdentity) <==> i.isReplident;
    assert Enforces(i, BackingConstraint) <==> i.backsConstraint;
  }

  /** Each valid index with the duty leaves one of its shape with the duty after acting
      on all the advice. */
  ghost predicate DutyIsKept(indexes: seq<IndexInfo>, minUnusedBytes: int, d: Duty) {
    forall i <- indexes | i.isValid && Enforces(i, d) ::
      exists s <- indexes :: Kept(indexes, minUnusedBytes, s) && s.Shape() == i.Shape() && Enforces(s, d)
  }

  /** Dropping protected twins loses no enforcement exactly when the keeper of each class
      has the duties of its members. */
  lemma DutyIsKeptIff(indexes: seq<IndexInfo>, minUnusedBytes: int, d: Duty)
    requires DistinctSubjects(indexes)
    ensures DutyIsKept(indexes, minUnusedBytes, d) <==>
            forall i, k | i in indexes && i.isValid && Enforces(i, d) && IsKeeper(indexes, i, k) :: Enforces(k, d)
  {
    if DutyIsKept(indexes, minUnusedBytes, d) {
      forall i, k | i in indexes && i.isValid && Enforces(i, d) && IsKeeper(indexes, i, k)
        ensures Enforces(k, d)
      {
        var s :| s in indexes && Kept(indexes, minUnusedBytes, s) && s.Shape() == i.Shape() && Enforces(s, d);
        KeptIff(indexes, minUnusedBytes, s);
        KeeperIsUnique(indexes, i, k, s);
      }
    }
    if forall i, k | i in indexes && i.isValid && Enforces(i, d) && IsKeeper(indexes, i, k) :: Enforces(k, d) {
      forall i | i in indexes && i.isValid && Enforces(i, d)
        ensures exists s <- indexes :: Kept(indexes, minUnusedBytes, s) && s.Shape() == i.Shape() && Enforces(s, d)
      {
        var k := CopyIffNotKeeper(indexes, i);
        assert Enforces(k, d) && k.Protected();
        KeptIff(indexes, minUnusedBytes, k);
      }
    }
  }

  // ---- Inputs at which the promises fail

  const A := KeyColumn("1", "1978", "0")
  const B := KeyColumn("2", "1978", "0")

  function Example(name: string, keys: seq<KeyColumn>, columns: set<string>, unique: bool,
                   size: int, scans: nat): IndexInfo
  {
    IndexInfo(Family("public", "orders", "btree", "", ""), name, keys, columns,
              unique, false, false, true, unique, size, scans)
  }

  /** Of two unique indexes on the same column one is advised away. */
  lemma UniqueTwinIsAdvised()
    ensures var twins := [Example("a", [A], {"1"}, true, 8192, 0), Example("b", [A], {"1"}, true, 8192, 0)];
            twins[1].Protected() && AdvisedToDrop(twins, 1024, twins[1])
  {
    var twins := [Example("a", [A], {"1"}, true, 8192, 0), Example("b", [A], {"1"}, true, 8192, 0)];
    assert StringLe("a", "b") && KeeperLe(twins[0], twins[1]);
    ProtectedDropIff(twins, 1024, twins[1]);
  }

  /** The larger of two unique indexes is kept, the smaller one is the replica identity. */
  lemma ReplicaIdentityIsLost()
    ensures var a := Example("a", [A], {"1"}, true, 9000, 7);
            var b := Example("b", [A], {"1"}, true, 8192, 7).(isReplident := true);
            DistinctSubjects([a, b]) && !DutyIsKept([a, b], 1024, ReplicaIdentity)
  {
    var a := Example("a", [A], {"1"}, true, 9000, 7);
    var b := Example("b", [A], {"1"}, true, 8192, 7).(isReplident := true);
    assert a in [a, b] && b in [a, b];
    KeeperLeIsPreorder();
    assert IsKeeper([a, b], b, a);
    DutyIsKeptIff([a, b], 1024, ReplicaIdentity);
  }

  /** The larger copy is kept although only the smaller one includes column 5. */
  lemma IncludeColumnIsLost()
    ensures var pair := [Example("a", [A], {"1"}, false, 9000, 7), Example("b", [A], {"1", "5"}, false, 8192, 7)];
            DistinctSubjects(pair) && !KeepsEveryRequest(pair)
  {
    var a, b := Example("a", [A], {"1"}, false, 9000, 7), Example("b", [A], {"1", "5"}, false, 8192, 7);
    var pair := [a, b];
    assert a in pair && b in pair && IsKeeper(pair, b, a);
    assert "5" in b.allColumns && "5" !in a.allColumns;
    AdviceKeepsRequestsIff(pair);
  }

  /** The narrower index goes as redundant, its only cover as unused, and no index on
      the column is left. */
  lemma UnusedAdviceDropsTheCover()
    ensures var pair := [Example("a", [A], {"1"}, false, 8192, 7), Example("ab", [A, B], {"1", "2"}, false, 8192, 0)];
            && (forall i <- pair :: AdvisedToDrop(pair, 1024, i))
            && !AllAdviceKeepsOrder(pair, 1024)
  {
    var narrow := Example("a", [A], {"1"}, false, 8192, 7);
    var wide := Example("ab", [A, B], {"1", "2"}, false, 8192, 0);
    var pair := [narrow, wide];
    assert wide.keys[..1] == narrow.keys && Covers(wide, narrow);
    assert wide in pair && HasValidCover(pair, narrow);
    assert IsAdvised(pair, 1024, Redundant, narrow);
    assert IsAdvised(pair, 1024, Unused, wide);
    var q := Request(wide.family, [], {});
    assert ServesOrder(wide, q);
    assert forall s <- pair :: !Kept(pair, 1024, s);
  }
}
