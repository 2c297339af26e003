/** What is left after acting on the printed `DROP INDEX` advice.

    The advice names an index by schema and name.  In the catalog these are
    distinct, which is what `DistinctSubjects` says. */
module IndexPruning {
  import opened IndexRules

  ghost predicate DistinctSubjects(indexes: seq<IndexInfo>) {
    forall i, j | 0 <= i < j < |indexes| ::
      indexes[i].family.schema != indexes[j].family.schema || indexes[i].name != indexes[j].name
  }

  /** In a group after its keeper. */
  ghost predicate IsCopyIn(groups: seq<seq<IndexInfo>>, i: IndexInfo) {
    exists g: seq<IndexInfo>, j :: g in groups && 1 <= j < |g| && g[j] == i
  }

  /** Reported as a duplicate. */
  ghost predicate IsCopy(indexes: seq<IndexInfo>, i: IndexInfo) {
    IsCopyIn(DuplicateGroups(indexes), i)
  }

  ghost predicate Dropped(indexes: seq<IndexInfo>, subject: (string, string)) {
    exists i <- indexes :: i.Subject() == subject &&
      (!i.isValid || IsCopy(indexes, i) || IsRedundant(indexes, i))
  }

  ghost predicate Survives(indexes: seq<IndexInfo>, i: IndexInfo) {
    i in indexes && i.isValid && !Dropped(indexes, i.Subject())
  }

  lemma SameSubject(indexes: seq<IndexInfo>, a: IndexInfo, b: IndexInfo)
    requires DistinctSubjects(indexes) && a in indexes && b in indexes
    requires a.Subject() == b.Subject()
    ensures a == b
  {}

  lemma SurvivesIff(indexes: seq<IndexInfo>, i: IndexInfo)
    requires DistinctSubjects(indexes) && i in indexes
    ensures Survives(indexes, i) <==>
            i.isValid && !IsCopy(indexes, i) && !IsRedundant(indexes, i)
  {}

  lemma {:induction false} MembersOnce(indexes: seq<IndexInfo>, s: ShapeKey, x: IndexInfo)
    requires DistinctSubjects(indexes)
    ensures multiset(Members(indexes, s))[x] <= 1
  {
    if indexes != [] {
      var n := |indexes| - 1;
      MembersOnce(indexes[..n], s, x);
      MembersAre(indexes[..n], s);
      assert x in multiset(Members(indexes[..n], s)) ==> x in Members(indexes[..n], s);
      assert indexes[n] !in indexes[..n];
    }
  }

  // ---- Keepers

  /** Least in the keeper order among the valid indexes of the shape of `i`. */
  ghost predicate IsKeeper(indexes: seq<IndexInfo>, i: IndexInfo, keeper: IndexInfo) {
    && keeper in indexes && keeper.isValid && keeper.Shape() == i.Shape()
    && forall m <- indexes | m.isValid && m.Shape() == i.Shape() :: KeeperLe(keeper, m)
  }

  lemma GroupMembers(indexes: seq<IndexInfo>, g: seq<IndexInfo>)
    requires g in DuplicateGroups(indexes)
    ensures g != [] && IsGroupOf(indexes, g[0].Shape(), g)
    ensures forall m :: m in g <==> m in Members(indexes, g[0].Shape())
  {
    DuplicatesAreTheClasses(indexes);
    var ms := Members(indexes, g[0].Shape());
    forall m ensures m in g <==> m in ms {
      assert m in g <==> m in multiset(g);
      assert m in ms <==> m in multiset(ms);
    }
  }

  lemma GroupKeeper(indexes: seq<IndexInfo>, g: seq<IndexInfo>, i: IndexInfo)
    requires DistinctSubjects(indexes) && g in DuplicateGroups(indexes) && i in g
    ensures g != [] && IsKeeper(indexes, i, g[0])
    ensures i in indexes && i.isValid && i.Shape() == g[0].Shape()
    ensures forall j | 1 <= j < |g| :: g[j] != g[0]
  {
    GroupMembers(indexes, g);
    MembersAre(indexes, g[0].Shape());
    KeeperLeIsPreorder();
    MembersOnce(indexes, g[0].Shape(), g[0]);
    HeadOnce(g);
  }

  lemma HeadOnce<T>(g: seq<T>)
    requires g != [] && multiset(g)[g[0]] <= 1
    ensures forall j | 1 <= j < |g| :: g[j] != g[0]
  {
    forall j | 1 <= j < |g| ensures g[j] != g[0] {
      assert g == [g[0]] + g[1..];
      assert g[j] in g[1..];
    }
  }

  lemma KeeperIsUnique(indexes: seq<IndexInfo>, i: IndexInfo, a: IndexInfo, b: IndexInfo)
    requires DistinctSubjects(indexes) && IsKeeper(indexes, i, a) && IsKeeper(indexes, i, b)
    ensures a == b
  {
    SameRank(indexes, a, b);
  }

  lemma SameRank(indexes: seq<IndexInfo>, a: IndexInfo, b: IndexInfo)
    requires DistinctSubjects(indexes) && a in indexes && b in indexes
    requires a.family == b.family && KeeperLe(a, b) && KeeperLe(b, a)
    ensures a == b
  {
    StringLeAntisymmetric(a.name, b.name);
    SameSubject(indexes, a, b);
  }

  lemma {:induction false} StringLeAntisymmetric(a: string, b: string)
    requires StringLe(a, b) && StringLe(b, a)
    ensures a == b
  {
    if a != [] {
      StringLeAntisymmetric(a[1..], b[1..]);
      assert a == [a[0]] + a[1..] && b == [b[0]] + b[1..];
    }
  }

  lemma GroupContaining(indexes: seq<IndexInfo>, i: IndexInfo) returns (g: seq<IndexInfo>)
    requires i in indexes && i.isValid && |Members(indexes, i.Shape())| > 1
    ensures g in DuplicateGroups(indexes) && i in g
  {
    var s := i.Shape();
    assert exists h: seq<IndexInfo> :: h in DuplicateGroups(indexes) && IsGroupOf(indexes, s, h) by {
      DuplicatesAreTheClasses(indexes);
    }
    g :| g in DuplicateGroups(indexes) && IsGroupOf(indexes, s, g);
    assert i in multiset(g) by {
      MembersAre(indexes, s);
      assert i in multiset(Members(indexes, s));
    }
  }

  /** A valid index is a copy exactly when it is not the keeper of its class. */
  lemma CopyIffNotKeeper(indexes: seq<IndexInfo>, i: IndexInfo) returns (keeper: IndexInfo)
    requires DistinctSubjects(indexes) && i in indexes && i.isValid
    ensures IsKeeper(indexes, i, keeper)
    ensures IsCopy(indexes, i) <==> i != keeper
    ensures !IsCopy(indexes, keeper)
  {
    var s := i.Shape();
    MembersAre(indexes, s);
    if |Members(indexes, s)| > 1 {
      var g := GroupContaining(indexes, i);
      GroupKeeper(indexes, g, i);
      keeper := g[0];
    } else {
      keeper := i;
      OnlyMember(indexes, i);
    }
    CopyHasKeeper(indexes, i, keeper);
    CopyHasKeeper(indexes, keeper, keeper);
  }

  lemma OnlyMember(indexes: seq<IndexInfo>, i: IndexInfo)
    requires i in Members(indexes, i.Shape()) && |Members(indexes, i.Shape())| <= 1
    ensures IsKeeper(indexes, i, i)
  {
    MembersAre(indexes, i.Shape());
    KeeperLeIsPreorder();
  }

  lemma CopyHasKeeper(indexes: seq<IndexInfo>, i: IndexInfo, keeper: IndexInfo)
    requires DistinctSubjects(indexes) && IsKeeper(indexes, i, keeper)
    ensures IsCopy(indexes, i) ==> i != keeper
  {
    if IsCopy(indexes, i) {
      var g: seq<IndexInfo>, j :| g in DuplicateGroups(indexes) && 1 <= j < |g| && g[j] == i;
      GroupKeeper(indexes, g, i);
      KeeperIsUnique(indexes, i, keeper, g[0]);
    }
  }

  // ---- Acting on find_redundant alone

  function LongestKey(indexes: seq<IndexInfo>): nat {
    if indexes == [] then 0
    else
      var n := |indexes| - 1;
      var before := LongestKey(indexes[..n]);
      if before < |indexes[n].keys| then |indexes[n].keys| else before
  }

  lemma {:induction false} LongestKeyBounds(indexes: seq<IndexInfo>)
    ensures forall i <- indexes :: |i.keys| <= LongestKey(indexes)
  {
    if indexes != [] {
      var n := |indexes| - 1;
      assert indexes == indexes[..n] + [indexes[n]];
      LongestKeyBounds(indexes[..n]);
    }
  }

  /** Every reported index is covered, INCLUDE columns too, by a valid index that
      is itself not reported. */
  lemma {:induction false} RedundantHasKeptCover(indexes: seq<IndexInfo>, i: IndexInfo)
    returns (kept: IndexInfo)
    requires IsRedundant(indexes, i)
    ensures kept in indexes && kept.isValid && !IsRedundant(indexes, kept) && Covers(kept, i)
    decreases LongestKey(indexes) - |i.keys|
  {
    LongestKeyBounds(indexes);
    var w :| w in indexes && w.isValid && Covers(w, i);
    if IsRedundant(indexes, w) {
      kept := RedundantHasKeptCover(indexes, w);
      CoversIsStrictOrder(kept, w, i);
    } else {
      kept := w;
    }
  }

  // ---- Acting on the invalid, duplicate and redundant advice at once

  /** No ordered access path is lost: for each valid index a survivor of the same
      family has a key vector that extends it. */
  lemma {:induction false} OrderSurvives(indexes: seq<IndexInfo>, i: IndexInfo) returns (s: IndexInfo)
    requires DistinctSubjects(indexes) && i in indexes && i.isValid
    ensures Survives(indexes, s)
    ensures s.family == i.family && i.keys <= s.keys
    ensures forall q :: ServesOrder(i, q) ==> ServesOrder(s, q)
    decreases LongestKey(indexes) - |i.keys|
  {
    LongestKeyBounds(indexes);
    var keeper := CopyIffNotKeeper(indexes, i);
    SurvivesIff(indexes, keeper);
    s := keeper;
    if IsRedundant(indexes, keeper) {
      var w :| w in indexes && w.isValid && Covers(w, keeper);
      assert i.keys <= w.keys;
      s := OrderSurvives(indexes, w);
    }
    forall q | ServesOrder(i, q) ensures ServesOrder(s, q) {
      assert q.keys <= s.keys[..|i.keys|];
    }
  }

  /** Each valid index needs no column the keeper of its class lacks, or has a wider cover. */
  ghost predicate CopiesAreReplaceable(indexes: seq<IndexInfo>) {
    forall i, k | i in indexes && i.isValid && IsKeeper(indexes, i, k) ::
      i.allColumns <= k.allColumns || HasValidCover(indexes, i)
  }

  ghost predicate KeepsEveryRequest(indexes: seq<IndexInfo>) {
    forall i, q | i in indexes && i.isValid && Serves(i, q) ::
      exists s <- indexes :: Survives(indexes, s) && Serves(s, q)
  }

  lemma {:induction false} RequestsSurvive(indexes: seq<IndexInfo>, i: IndexInfo)
    returns (s: IndexInfo)
    requires DistinctSubjects(indexes) && CopiesAreReplaceable(indexes)
    requires i in indexes && i.isValid
    ensures Survives(indexes, s)
    ensures s.family == i.family && i.keys <= s.keys && i.allColumns <= s.allColumns
    decreases LongestKey(indexes) - |i.keys|
  {
    LongestKeyBounds(indexes);
    if HasValidCover(indexes, i) {
      var w :| w in indexes && w.isValid && Covers(w, i);
      s := RequestsSurvive(indexes, w);
    } else {
      var keeper := CopyIffNotKeeper(indexes, i);
      SurvivesIff(indexes, keeper);
      s := keeper;
      assert forall w | Covers(w, keeper) :: Covers(w, i);
    }
  }

  lemma ServedCopy(indexes: seq<IndexInfo>, i: IndexInfo, k: IndexInfo)
    requires DistinctSubjects(indexes) && KeepsEveryRequest(indexes)
    requires i in indexes && i.isValid && IsKeeper(indexes, i, k)
    ensures i.allColumns <= k.allColumns || HasValidCover(indexes, i)
  {
    var q := Request(i.family, i.keys, i.allColumns);
    assert Serves(i, q);
    var s :| s in indexes && Survives(indexes, s) && Serves(s, q);
    if |s.keys| > |i.keys| {
      assert Covers(s, i);
    } else {
      assert s.keys == i.keys && s.Shape() == i.Shape();
      var keeper := CopyIffNotKeeper(indexes, s);
      SurvivesIff(indexes, s);
      KeeperIsUnique(indexes, i, keeper, k);
    }
  }

  /** Acting on the invalid, duplicate and redundant advice keeps every request served,
      INCLUDE columns too, exactly when each index can be replaced by the keeper of its
      class or a cover. */
  lemma AdviceKeepsRequestsIff(indexes: seq<IndexInfo>)
    requires DistinctSubjects(indexes)
    ensures KeepsEveryRequest(indexes) <==> CopiesAreReplaceable(indexes)
  {
    if KeepsEveryRequest(indexes) {
      forall i, k | i in indexes && i.isValid && IsKeeper(indexes, i, k)
        ensures i.allColumns <= k.allColumns || HasValidCover(indexes, i)
      {
        ServedCopy(indexes, i, k);
      }
    }
    if CopiesAreReplaceable(indexes) {
      forall i, q | i in indexes && i.isValid && Serves(i, q)
        ensures exists s <- indexes :: Survives(indexes, s) && Serves(s, q)
      {
        RequestIsKept(indexes, i, q);
      }
    }
  }

  lemma RequestIsKept(indexes: seq<IndexInfo>, i: IndexInfo, q: Request)
    requires DistinctSubjects(indexes) && CopiesAreReplaceable(indexes)
    requires i in indexes && i.isValid && Serves(i, q)
    ensures exists s <- indexes :: Survives(indexes, s) && Serves(s, q)
  {
    var s := RequestsSurvive(indexes, i);
    assert q.keys <= s.keys[..|i.keys|];
  }
}
