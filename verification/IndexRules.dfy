/** The rules of `indexes.py` as functions on index metadata: `shape`, `covers`,
    `find_duplicates` and `find_redundant`, with what each promises. */
module IndexRules {
  import opened Options
  import opened Sorting

  /** Column number, operator class and sort option of one key position. */
  datatype KeyColumn = KeyColumn(column: string, opclass: string, option: string)

  /** What must agree before two key vectors can be compared at all. */
  datatype Family = Family(schema: string, table: string, amname: string,
                           indexPredicate: string, expressions: string)

  datatype ShapeKey = ShapeKey(family: Family, keys: seq<KeyColumn>)

  datatype IndexInfo = IndexInfo(family: Family, name: string, keys: seq<KeyColumn>,
                                 allColumns: set<string>,
                                 isUnique: bool, isPrimary: bool, isReplident: bool,
                                 isValid: bool, backsConstraint: bool,
                                 sizeBytes: int, idxScan: nat)
  {
    predicate Protected() {
      isUnique || isPrimary || isReplident || backsConstraint
    }

    /** The grouping key of `find_duplicates`: schema plus `shape()`. */
    function Shape(): ShapeKey { ShapeKey(family, keys) }

    function Subject(): (string, string) { (family.schema, name) }
  }

  predicate Covers(wider: IndexInfo, narrower: IndexInfo) {
    && wider != narrower
    && wider.family == narrower.family
    && |narrower.keys| < |wider.keys|
    && wider.keys[..|narrower.keys|] == narrower.keys
    && narrower.allColumns <= wider.allColumns
  }

  // ---- What `covers` means

  /** A query that needs an ordered scan by `keys` and reads the columns `needed`. */
  datatype Request = Request(family: Family, keys: seq<KeyColumn>, needed: set<string>)

  /** The ordered access path: the family agrees and the request's keys lead. */
  predicate ServesOrder(i: IndexInfo, q: Request) {
    i.family == q.family && q.keys <= i.keys
  }

  predicate Serves(i: IndexInfo, q: Request) {
    ServesOrder(i, q) && q.needed <= i.allColumns
  }

  /** `covers` is exactly "more keys, and every query served by the narrower index
      is served by the wider one". */
  lemma CoversIffServesMore(wider: IndexInfo, narrower: IndexInfo)
    ensures Covers(wider, narrower) <==>
            |narrower.keys| < |wider.keys| && forall q :: Serves(narrower, q) ==> Serves(wider, q)
  {
    if |narrower.keys| < |wider.keys| && forall q :: Serves(narrower, q) ==> Serves(wider, q) {
      var q := Request(narrower.family, narrower.keys, narrower.allColumns);
      assert Serves(narrower, q);
      assert Serves(wider, q);
    }
    if Covers(wider, narrower) {
      forall q | Serves(narrower, q) ensures Serves(wider, q) {
        assert q.keys <= wider.keys[..|narrower.keys|];
      }
    }
  }

  /** A strict partial order: irreflexive, asymmetric, transitive. */
  lemma CoversIsStrictOrder(a: IndexInfo, b: IndexInfo, c: IndexInfo)
    ensures !Covers(a, a)
    ensures Covers(a, b) ==> !Covers(b, a)
    ensures Covers(a, b) && Covers(b, c) ==> Covers(a, c)
  {}

  // ---- find_duplicates

  /** Lexicographic order of Python strings, by code point. */
  predicate StringLe(a: string, b: string) {
    a == [] || (b != [] && (a[0] < b[0] || (a[0] == b[0] && StringLe(a[1..], b[1..]))))
  }

  /** The sort key `(not protected, -size_bytes, name)`. */
  predicate KeeperLe(a: IndexInfo, b: IndexInfo) {
    if a.Protected() != b.Protected() then a.Protected()
    else if a.sizeBytes != b.sizeBytes then a.sizeBytes > b.sizeBytes
    else StringLe(a.name, b.name)
  }

  lemma {:induction false} StringLeTotal(a: string, b: string)
    ensures StringLe(a, b) || StringLe(b, a)
  {
    if a != [] && b != [] {
      StringLeTotal(a[1..], b[1..]);
    }
  }

  lemma {:induction false} StringLeTransitive(a: string, b: string, c: string)
    requires StringLe(a, b) && StringLe(b, c)
    ensures StringLe(a, c)
  {
    if a != [] && a[0] == b[0] == c[0] {
      StringLeTransitive(a[1..], b[1..], c[1..]);
    }
  }

  /** `a` is a prefix of `b`, or has the smaller character where they first differ. */
  ghost predicate NameFirst(a: string, b: string) {
    a <= b || exists k :: 0 <= k < |a| && k < |b| && a[..k] == b[..k] && a[k] < b[k]
  }

  lemma {:induction false} StringLeIsNameFirst(a: string, b: string)
    ensures StringLe(a, b) <==> NameFirst(a, b)
  {
    if a != [] && b != [] && a[0] == b[0] {
      StringLeIsNameFirst(a[1..], b[1..]);
      TailNameFirst(a, b);
    } else if a != [] && b != [] && a[0] < b[0] {
      assert a[..0] == b[..0];
    }
  }

  lemma TailNameFirst(a: string, b: string)
    requires a != [] && b != [] && a[0] == b[0]
    ensures NameFirst(a, b) <==> NameFirst(a[1..], b[1..])
  {
    assert a == [a[0]] + a[1..] && b == [b[0]] + b[1..];
    assert a <= b <==> a[1..] <= b[1..];
    if k :| 0 <= k < |a| && k < |b| && a[..k] == b[..k] && a[k] < b[k] {
      assert a[1..][..k - 1] == a[..k][1..] && b[1..][..k - 1] == b[..k][1..];
      assert a[1..][k - 1] < b[1..][k - 1];
    }
    if k :| 0 <= k < |a| - 1 && k < |b| - 1 && a[1..][..k] == b[1..][..k] && a[1..][k] < b[1..][k] {
      assert a[..k + 1] == [a[0]] + a[1..][..k] && b[..k + 1] == [b[0]] + b[1..][..k];
      assert a[k + 1] < b[k + 1];
    }
  }

  /** Protected before unprotected, then the larger, then the first by name. */
  ghost predicate KeptBefore(a: IndexInfo, b: IndexInfo) {
    && (b.Protected() ==> a.Protected())
    && (a.Protected() == b.Protected() ==> b.sizeBytes <= a.sizeBytes)
    && (a.Protected() == b.Protected() && a.sizeBytes == b.sizeBytes ==> NameFirst(a.name, b.name))
  }

  lemma KeeperLeIsKeptBefore(a: IndexInfo, b: IndexInfo)
    ensures KeeperLe(a, b) <==> KeptBefore(a, b)
  {
    StringLeIsNameFirst(a.name, b.name);
  }

  lemma KeeperLeIsPreorder()
    ensures TotalPreorder(KeeperLe)
  {
    forall a, b ensures KeeperLe(a, b) || KeeperLe(b, a) {
      StringLeTotal(a.name, b.name);
    }
    forall a, b, c | KeeperLe(a, b) && KeeperLe(b, c) ensures KeeperLe(a, c) {
      if StringLe(a.name, b.name) && StringLe(b.name, c.name) {
        StringLeTransitive(a.name, b.name, c.name);
      }
    }
  }

  /** The valid indexes of one shape, in list order. */
  function Members(indexes: seq<IndexInfo>, shape: ShapeKey): seq<IndexInfo> {
    if indexes == [] then []
    else
      var n := |indexes| - 1;
      var before := Members(indexes[..n], shape);
      if indexes[n].isValid && indexes[n].Shape() == shape then before + [indexes[n]] else before
  }

  /** The shapes of the valid indexes, in order of first appearance. */
  function Shapes(indexes: seq<IndexInfo>): seq<ShapeKey> {
    if indexes == [] then []
    else
      var n := |indexes| - 1;
      var before := Shapes(indexes[..n]);
      if indexes[n].isValid && indexes[n].Shape() !in before then before + [indexes[n].Shape()] else before
  }

  /** One sorted group per shape with more than one member. */
  function Groups(indexes: seq<IndexInfo>, shapes: seq<ShapeKey>): seq<seq<IndexInfo>> {
    if shapes == [] then []
    else
      var n := |shapes| - 1;
      var before, group := Groups(indexes, shapes[..n]), Members(indexes, shapes[n]);
      if |group| > 1 then before + [SortBy(KeeperLe, group)] else before
  }

  function DuplicateGroups(indexes: seq<IndexInfo>): seq<seq<IndexInfo>> {
    Groups(indexes, Shapes(indexes))
  }

  lemma {:induction false} MembersAre(indexes: seq<IndexInfo>, shape: ShapeKey)
    ensures forall i :: i in Members(indexes, shape) <==> i in indexes && i.isValid && i.Shape() == shape
  {
    if indexes != [] {
      var n := |indexes| - 1;
      assert indexes == indexes[..n] + [indexes[n]];
      MembersAre(indexes[..n], shape);
    }
  }

  lemma {:induction false} ShapesAre(indexes: seq<IndexInfo>)
    ensures forall s :: s in Shapes(indexes) <==> exists i <- indexes :: i.isValid && i.Shape() == s
    ensures NoRepeat(Shapes(indexes))
  {
    if indexes != [] {
      var n := |indexes| - 1;
      assert indexes == indexes[..n] + [indexes[n]];
      ShapesAre(indexes[..n]);
      forall s ensures s in Shapes(indexes) <==> exists i <- indexes :: i.isValid && i.Shape() == s {
        if i :| i in indexes && i.isValid && i.Shape() == s {
          assert i in indexes[..n] || i == indexes[n];
        }
        if i :| i in indexes[..n] && i.isValid && i.Shape() == s {
          assert i in indexes;
        }
        assert indexes[n] in indexes;
      }
    }
  }

  /** The group of one shape: all its valid members, the keeper first. */
  ghost predicate IsGroupOf(indexes: seq<IndexInfo>, shape: ShapeKey, group: seq<IndexInfo>) {
    && |group| > 1
    && multiset(group) == multiset(Members(indexes, shape))
    && SortedBy(KeeperLe, group)
  }

  lemma SortedIsGroup(indexes: seq<IndexInfo>, shape: ShapeKey)
    requires |Members(indexes, shape)| > 1
    ensures IsGroupOf(indexes, shape, SortBy(KeeperLe, Members(indexes, shape)))
  {
    var group := Members(indexes, shape);
    KeeperLeIsPreorder();
    SortByIsSorted(KeeperLe, group);
    SameSize(SortBy(KeeperLe, group), group);
  }

  /** The shapes with more than one member. */
  ghost function Repeated(indexes: seq<IndexInfo>, shapes: seq<ShapeKey>): seq<ShapeKey> {
    if shapes == [] then []
    else
      var n := |shapes| - 1;
      var before := Repeated(indexes, shapes[..n]);
      if |Members(indexes, shapes[n])| > 1 then before + [shapes[n]] else before
  }

  lemma {:induction false} RepeatedAre(indexes: seq<IndexInfo>, shapes: seq<ShapeKey>)
    requires NoRepeat(shapes)
    ensures forall s :: s in Repeated(indexes, shapes) <==> s in shapes && |Members(indexes, s)| > 1
    ensures NoRepeat(Repeated(indexes, shapes))
  {
    if shapes != [] {
      var n := |shapes| - 1;
      assert shapes == shapes[..n] + [shapes[n]];
      RepeatedAre(indexes, shapes[..n]);
      var before := Repeated(indexes, shapes[..n]);
      assert forall k | 0 <= k < |before| :: before[k] in before;
    }
  }

  lemma {:induction false} GroupsFollow(indexes: seq<IndexInfo>, shapes: seq<ShapeKey>)
    ensures |Groups(indexes, shapes)| == |Repeated(indexes, shapes)|
    ensures forall k | 0 <= k < |Repeated(indexes, shapes)| ::
              IsGroupOf(indexes, Repeated(indexes, shapes)[k], Groups(indexes, shapes)[k])
  {
    if shapes != [] {
      var n := |shapes| - 1;
      GroupsFollow(indexes, shapes[..n]);
      if |Members(indexes, shapes[n])| > 1 {
        SortedIsGroup(indexes, shapes[n]);
      }
    }
  }

  /** `find_duplicates` returns exactly the classes of equal shape with two or more
      valid members: every group is such a class, complete and with nothing repeated;
      every such class has a group; and no class has two. */
  lemma DuplicatesAreTheClasses(indexes: seq<IndexInfo>)
    ensures forall g: seq<IndexInfo> <- DuplicateGroups(indexes) :: g != [] && IsGroupOf(indexes, g[0].Shape(), g)
    ensures forall s | |Members(indexes, s)| > 1 ::
              exists g <- DuplicateGroups(indexes) :: IsGroupOf(indexes, s, g)
    ensures var gs: seq<seq<IndexInfo>> := DuplicateGroups(indexes);
            forall k, l | 0 <= k < l < |gs| ::
              gs[k] != [] && gs[l] != [] && gs[k][0].Shape() != gs[l][0].Shape()
  {
    var rs := Repeated(indexes, Shapes(indexes));
    var gs: seq<seq<IndexInfo>> := DuplicateGroups(indexes);
    ShapesAre(indexes);
    RepeatedAre(indexes, Shapes(indexes));
    GroupsFollow(indexes, Shapes(indexes));
    forall k | 0 <= k < |gs| ensures gs[k] != [] && gs[k][0].Shape() == rs[k] {
      MembersAre(indexes, rs[k]);
      assert gs[k][0] in multiset(gs[k]);
      assert gs[k][0] in Members(indexes, rs[k]);
    }
    forall s | |Members(indexes, s)| > 1 ensures exists g <- gs :: IsGroupOf(indexes, s, g) {
      MembersAre(indexes, s);
      assert Members(indexes, s)[0] in Members(indexes, s);
      var k :| 0 <= k < |rs| && rs[k] == s;
      assert gs[k] in gs;
    }
  }

  /** The first valid index of shape `s` comes before all of shape `t`. */
  ghost predicate AppearsBefore(indexes: seq<IndexInfo>, s: ShapeKey, t: ShapeKey) {
    exists n :: 0 <= n < |indexes| && indexes[n].isValid && indexes[n].Shape() == s &&
                forall m | 0 <= m <= n :: !(indexes[m].isValid && indexes[m].Shape() == t)
  }

  lemma {:induction false} ShapesByAppearance(indexes: seq<IndexInfo>, k: nat, l: nat)
    requires k < l < |Shapes(indexes)|
    ensures AppearsBefore(indexes, Shapes(indexes)[k], Shapes(indexes)[l])
  {
    var n := |indexes| - 1;
    var before := Shapes(indexes[..n]);
    if l < |before| {
      ShapesByAppearance(indexes[..n], k, l);
      var m :| 0 <= m < n && indexes[..n][m].isValid && indexes[..n][m].Shape() == before[k] &&
               forall j | 0 <= j <= m :: !(indexes[..n][j].isValid && indexes[..n][j].Shape() == before[l]);
      assert indexes[m] == indexes[..n][m] && forall j | 0 <= j <= m :: indexes[j] == indexes[..n][j];
    } else {
      ShapesAre(indexes[..n]);
      assert before[k] in before;
      var i :| i in indexes[..n] && i.isValid && i.Shape() == before[k];
      var m :| 0 <= m < n && indexes[m] == i;
      assert forall j | 0 <= j < n :: indexes[j] in indexes[..n];
    }
  }

  lemma {:induction false} RepeatedFollow(indexes: seq<IndexInfo>, shapes: seq<ShapeKey>) returns (at: seq<nat>)
    ensures |at| == |Repeated(indexes, shapes)|
    ensures forall k | 0 <= k < |at| :: at[k] < |shapes| && shapes[at[k]] == Repeated(indexes, shapes)[k]
    ensures forall k, l | 0 <= k < l < |at| :: at[k] < at[l]
  {
    at := [];
    if shapes != [] {
      var n := |shapes| - 1;
      at := RepeatedFollow(indexes, shapes[..n]);
      if |Members(indexes, shapes[n])| > 1 {
        at := at + [n];
      }
    }
  }

  /** The groups come in the order in which their first members appear in the list. */
  lemma GroupsByAppearance(indexes: seq<IndexInfo>, k: nat, l: nat)
    requires k < l < |DuplicateGroups(indexes)|
    ensures var gs: seq<seq<IndexInfo>> := DuplicateGroups(indexes);
            gs[k] != [] && gs[l] != [] && AppearsBefore(indexes, gs[k][0].Shape(), gs[l][0].Shape())
  {
    var shapes := Shapes(indexes);
    var at := RepeatedFollow(indexes, shapes);
    GroupsFollow(indexes, shapes);
    GroupShape(indexes, shapes[at[k]], DuplicateGroups(indexes)[k]);
    GroupShape(indexes, shapes[at[l]], DuplicateGroups(indexes)[l]);
    ShapesByAppearance(indexes, at[k], at[l]);
  }

  lemma GroupShape(indexes: seq<IndexInfo>, s: ShapeKey, g: seq<IndexInfo>)
    requires IsGroupOf(indexes, s, g)
    ensures g[0].Shape() == s
  {
    MembersAre(indexes, s);
    assert g[0] in multiset(g);
    assert g[0] in Members(indexes, s);
  }

  /** Of two members of a group the earlier one enforces something if the later one
      does, is the larger one if neither or both do, and comes first by name if they
      are of equal size too. */
  lemma GroupsAreInOrder(indexes: seq<IndexInfo>, g: seq<IndexInfo>, i: nat, j: nat)
    requires g in DuplicateGroups(indexes) && i < j < |g|
    ensures KeptBefore(g[i], g[j])
  {
    DuplicatesAreTheClasses(indexes);
    assert KeeperLe(g[i], g[j]);
    KeeperLeIsKeptBefore(g[i], g[j]);
  }

  /** The keeper is protected if any member is, and the largest, first by name, among
      those that are protected like it. */
  lemma KeeperIsLeast(indexes: seq<IndexInfo>, g: seq<IndexInfo>, m: IndexInfo)
    requires g in DuplicateGroups(indexes) && m in g
    ensures m.Protected() ==> g[0].Protected()
    ensures m.Protected() == g[0].Protected() ==> m.sizeBytes <= g[0].sizeBytes
    ensures m.Protected() == g[0].Protected() && m.sizeBytes == g[0].sizeBytes ==> NameFirst(g[0].name, m.name)
  {
    var j :| 0 <= j < |g| && g[j] == m;
    if j > 0 {
      GroupsAreInOrder(indexes, g, 0, j);
    }
  }

  // ---- find_redundant

  /** The first valid index of the list that covers `narrower`, if any does. */
  function FirstCover(indexes: seq<IndexInfo>, narrower: IndexInfo): Option<IndexInfo> {
    if indexes == [] then None
    else if indexes[0].isValid && Covers(indexes[0], narrower) then Some(indexes[0])
    else FirstCover(indexes[1..], narrower)
  }

  function PairsOf(narrowers: seq<IndexInfo>, indexes: seq<IndexInfo>): seq<(IndexInfo, IndexInfo)> {
    if narrowers == [] then []
    else
      var n := |narrowers| - 1;
      var before, narrower := PairsOf(narrowers[..n], indexes), narrowers[n];
      if !narrower.isValid || narrower.Protected() then before
      else match FirstCover(indexes, narrower)
        case Some(wider) => before + [(narrower, wider)]
        case None => before
  }

  function RedundantPairs(indexes: seq<IndexInfo>): seq<(IndexInfo, IndexInfo)> {
    PairsOf(indexes, indexes)
  }

  ghost predicate HasValidCover(indexes: seq<IndexInfo>, i: IndexInfo) {
    exists w <- indexes :: w.isValid && Covers(w, i)
  }

  lemma {:induction false} FirstCoverFinds(indexes: seq<IndexInfo>, n: IndexInfo)
    ensures FirstCover(indexes, n).Some? <==> HasValidCover(indexes, n)
    ensures FirstCover(indexes, n).Some? ==>
              var w := FirstCover(indexes, n).value; w in indexes && w.isValid && Covers(w, n)
  {
    if indexes != [] {
      FirstCoverFinds(indexes[1..], n);
      assert indexes == [indexes[0]] + indexes[1..];
      if w :| w in indexes && w.isValid && Covers(w, n) {
        assert w == indexes[0] || w in indexes[1..];
      }
      if w :| w in indexes[1..] && w.isValid && Covers(w, n) {
        assert w in indexes;
      }
    }
  }

  /** Reported as redundant: valid, unprotected, and covered by some valid index. */
  ghost predicate IsRedundant(indexes: seq<IndexInfo>, i: IndexInfo) {
    i in indexes && i.isValid && !i.Protected() && HasValidCover(indexes, i)
  }

  lemma {:induction false} PairsAre(narrowers: seq<IndexInfo>, indexes: seq<IndexInfo>, n: IndexInfo)
    ensures (exists p <- PairsOf(narrowers, indexes) :: p.0 == n) <==>
            n in narrowers && n.isValid && !n.Protected() && HasValidCover(indexes, n)
    ensures forall p <- PairsOf(narrowers, indexes) :: p.1 in indexes && p.1.isValid && Covers(p.1, p.0)
  {
    if narrowers != [] {
      var k := |narrowers| - 1;
      var last := narrowers[k];
      assert narrowers == narrowers[..k] + [last];
      PairsAre(narrowers[..k], indexes, n);
      FirstCoverFinds(indexes, last);
      var before, all := PairsOf(narrowers[..k], indexes), PairsOf(narrowers, indexes);
      if all != before {
        assert all == before + [(last, FirstCover(indexes, last).value)];
        assert all[|all| - 1].0 == last;
      }
      assert (exists p <- all :: p.0 == n) <==>
             (exists p <- before :: p.0 == n) || (all != before && last == n);
    }
  }

  /** `find_redundant` reports exactly the redundant indexes, each with a valid
      index of the list that covers it. */
  lemma RedundantPairsAre(indexes: seq<IndexInfo>, n: IndexInfo)
    ensures (exists p <- RedundantPairs(indexes) :: p.0 == n) <==> IsRedundant(indexes, n)
    ensures forall p <- RedundantPairs(indexes) :: p.1 in indexes && p.1.isValid && Covers(p.1, p.0)
  {
    PairsAre(indexes, indexes, n);
  }
}
