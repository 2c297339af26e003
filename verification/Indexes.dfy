/** The loops of `indexes.py`: grouping duplicates, pairing redundant indexes with
    their covers, and turning them into `DROP INDEX` advice. */
module Indexes {
  import opened Findings
  import opened Options
  import opened Sorting
  import opened IndexRules
  import opened IndexPruning

  // ---- find_duplicates and find_redundant

  /** `groups` after the first indexes: the members of each shape met so far.
      `order` is the insertion order of its keys. */
  ghost predicate GroupsSoFar(groups: map<ShapeKey, seq<IndexInfo>>, order: seq<ShapeKey>,
                              indexes: seq<IndexInfo>)
  {
    && order == Shapes(indexes)
    && (forall s :: s in groups <==> s in order)
    && (forall s <- groups :: groups[s] == Members(indexes, s))
  }

  lemma GroupOneMore(groups: map<ShapeKey, seq<IndexInfo>>, order: seq<ShapeKey>,
                     indexes: seq<IndexInfo>, i: IndexInfo)
    requires GroupsSoFar(groups, order, indexes)
    ensures !i.isValid ==> GroupsSoFar(groups, order, indexes + [i])
    ensures i.isValid && i.Shape() in groups ==>
              GroupsSoFar(groups[i.Shape() := groups[i.Shape()] + [i]], order, indexes + [i])
    ensures i.isValid && i.Shape() !in groups ==>
              GroupsSoFar(groups[i.Shape() := [i]], order + [i.Shape()], indexes + [i])
  {
    assert (indexes + [i])[..|indexes|] == indexes;
    ShapesAre(indexes);
    MembersAre(indexes, i.Shape());
    var same := Members(indexes, i.Shape());
    assert same != [] ==> same[0] in same;
  }

  method FindDuplicates(indexes: seq<IndexInfo>) returns (result: seq<seq<IndexInfo>>)
    ensures result == DuplicateGroups(indexes)
    ensures forall g: seq<IndexInfo>, i, j | g in result && 0 <= i < j < |g| :: KeptBefore(g[i], g[j])
  {
    var groups: map<ShapeKey, seq<IndexInfo>>, order: seq<ShapeKey> := map[], [];
    for n := 0 to |indexes|
      invariant GroupsSoFar(groups, order, indexes[..n])
    {
      var index := indexes[n];
      assert indexes[..n + 1] == indexes[..n] + [index];
      GroupOneMore(groups, order, indexes[..n], index);
      if !index.isValid {
        continue;
      }
      var key := index.Shape();
      if key in groups {
        groups := groups[key := groups[key] + [index]];
      } else {
        groups, order := groups[key := [index]], order + [key];
      }
    }
    assert indexes[..|indexes|] == indexes;
    result := [];
    for n := 0 to |order|
      invariant result == Groups(indexes, order[..n])
    {
      assert order[..n + 1][..n] == order[..n];
      var group := groups[order[n]];
      if |group| > 1 {
        result := result + [SortBy(KeeperLe, group)];
      }
    }
    assert order[..|order|] == order;
    forall g: seq<IndexInfo>, i, j | g in result && 0 <= i < j < |g| ensures KeptBefore(g[i], g[j]) {
      GroupsAreInOrder(indexes, g, i, j);
    }
  }

  method NextCover(indexes: seq<IndexInfo>, narrower: IndexInfo) returns (wider: Option<IndexInfo>)
    ensures wider == FirstCover(indexes, narrower)
    ensures wider.Some? ==>
              exists n :: 0 <= n < |indexes| && indexes[n] == wider.value && wider.value.isValid &&
                          Covers(wider.value, narrower) &&
                          forall m | 0 <= m < n :: !(indexes[m].isValid && Covers(indexes[m], narrower))
    ensures wider.None? ==> forall w <- indexes :: !(w.isValid && Covers(w, narrower))
  {
    for n := 0 to |indexes|
      invariant FirstCover(indexes, narrower) == FirstCover(indexes[n..], narrower)
      invariant forall m | 0 <= m < n :: !(indexes[m].isValid && Covers(indexes[m], narrower))
    {
      if indexes[n].isValid && Covers(indexes[n], narrower) {
        return Some(indexes[n]);
      }
    }
    return None;
  }

  method FindRedundant(indexes: seq<IndexInfo>) returns (pairs: seq<(IndexInfo, IndexInfo)>)
    ensures pairs == RedundantPairs(indexes)
  {
    pairs := [];
    for n := 0 to |indexes|
      invariant pairs == PairsOf(indexes[..n], indexes)
    {
      assert indexes[..n + 1][..n] == indexes[..n];
      var narrower := indexes[n];
      if !narrower.isValid || narrower.Protected() {
        continue;
      }
      var wider := NextCover(indexes, narrower);
      if wider.Some? {
        pairs := pairs + [(narrower, wider.value)];
      }
    }
    assert indexes[..|indexes|] == indexes;
  }

  // ---- The findings of analyze_indexes whose remediation is DROP INDEX

  datatype Check = Invalid | Duplicate | Redundant | Unused

  datatype DropFinding = DropFinding(check: Check, severity: Severity, index: IndexInfo)

  predicate IsUnused(minSizeBytes: int, i: IndexInfo) {
    i.isValid && !i.Protected() && i.idxScan == 0 && i.sizeBytes >= minSizeBytes
  }

  function InvalidAdvice(indexes: seq<IndexInfo>): seq<DropFinding> {
    if indexes == [] then []
    else
      var before, i := InvalidAdvice(indexes[..|indexes| - 1]), indexes[|indexes| - 1];
      if i.isValid then before
      else before + [DropFinding(Invalid, if i.isUnique then Critical else Warning, i)]
  }

  function CopyAdvice(copies: seq<IndexInfo>): seq<DropFinding> {
    seq(|copies|, j requires 0 <= j < |copies| => DropFinding(Duplicate, Warning, copies[j]))
  }

  /** The members of each group after the first. */
  function DuplicateAdvice(groups: seq<seq<IndexInfo>>): seq<DropFinding> {
    if groups == [] then []
    else
      var before, group := DuplicateAdvice(groups[..|groups| - 1]), groups[|groups| - 1];
      before + CopyAdvice(if group == [] then [] else group[1..])
  }

  function RedundantAdvice(pairs: seq<(IndexInfo, IndexInfo)>): seq<DropFinding> {
    seq(|pairs|, j requires 0 <= j < |pairs| => DropFinding(Redundant, Notice, pairs[j].0))
  }

  function UnusedAdvice(indexes: seq<IndexInfo>, minSizeBytes: int, resetKnown: bool): seq<DropFinding> {
    if indexes == [] then []
    else
      var n := |indexes| - 1;
      var before := UnusedAdvice(indexes[..n], minSizeBytes, resetKnown);
      if IsUnused(minSizeBytes, indexes[n])
      then before + [DropFinding(Unused, if resetKnown then Warning else Notice, indexes[n])]
      else before
  }

  /** In the order of the report. */
  function DropAdvice(indexes: seq<IndexInfo>, minUnusedBytes: int, resetKnown: bool): seq<DropFinding> {
    InvalidAdvice(indexes) + DuplicateAdvice(DuplicateGroups(indexes)) +
    RedundantAdvice(RedundantPairs(indexes)) + UnusedAdvice(indexes, minUnusedBytes, resetKnown)
  }

  method InvalidFindings(indexes: seq<IndexInfo>) returns (findings: seq<DropFinding>)
    ensures findings == InvalidAdvice(indexes)
  {
    findings := [];
    for n := 0 to |indexes|
      invariant findings == InvalidAdvice(indexes[..n])
    {
      var index := indexes[n];
      assert indexes[..n + 1][..n] == indexes[..n];
      if index.isValid {
        continue;
      }
      findings := findings + [DropFinding(Invalid, if index.isUnique then Critical else Warning, index)];
    }
    assert indexes[..|indexes|] == indexes;
  }

  method DuplicateFindings(groups: seq<seq<IndexInfo>>) returns (findings: seq<DropFinding>)
    requires forall g <- groups :: g != []
    ensures findings == DuplicateAdvice(groups)
  {
    findings := [];
    for n := 0 to |groups|
      invariant findings == DuplicateAdvice(groups[..n])
    {
      assert groups[n] in groups && groups[..n + 1][..n] == groups[..n];
      var copies := groups[n][1..];
      for j := 0 to |copies|
        invariant findings == DuplicateAdvice(groups[..n]) + CopyAdvice(copies[..j])
      {
        assert CopyAdvice(copies[..j + 1]) ==
               CopyAdvice(copies[..j]) + [DropFinding(Duplicate, Warning, copies[j])];
        findings := findings + [DropFinding(Duplicate, Warning, copies[j])];
      }
      assert copies[..|copies|] == copies;
    }
    assert groups[..|groups|] == groups;
  }

  method RedundantFindings(pairs: seq<(IndexInfo, IndexInfo)>) returns (findings: seq<DropFinding>)
    ensures findings == RedundantAdvice(pairs)
  {
    findings := [];
    for n := 0 to |pairs|
      invariant findings == RedundantAdvice(pairs)[..n]
    {
      findings := findings + [DropFinding(Redundant, Notice, pairs[n].0)];
    }
  }

  method UnusedFindings(indexes: seq<IndexInfo>, minSizeBytes: int, resetKnown: bool)
    returns (findings: seq<DropFinding>)
    ensures findings == UnusedAdvice(indexes, minSizeBytes, resetKnown)
  {
    findings := [];
    for n := 0 to |indexes|
      invariant findings == UnusedAdvice(indexes[..n], minSizeBytes, resetKnown)
    {
      var index := indexes[n];
      assert indexes[..n + 1][..n] == indexes[..n];
      if !index.isValid || index.Protected() || index.idxScan > 0 {
        continue;
      }
      if index.sizeBytes < minSizeBytes {
        continue;
      }
      var severity := if resetKnown then Warning else Notice;
      findings := findings + [DropFinding(Unused, severity, index)];
    }
    assert indexes[..|indexes|] == indexes;
  }

  method AnalyzeIndexes(indexes: seq<IndexInfo>, minUnusedBytes: int, resetKnown: bool)
    returns (findings: seq<DropFinding>)
    ensures findings == DropAdvice(indexes, minUnusedBytes, resetKnown)
  {
    findings := InvalidFindings(indexes);
    var groups := FindDuplicates(indexes);
    DuplicatesAreTheClasses(indexes);
    var duplicates := DuplicateFindings(groups);
    var pairs := FindRedundant(indexes);
    var redundant := RedundantFindings(pairs);
    var unused := UnusedFindings(indexes, minUnusedBytes, resetKnown);
    findings := findings + duplicates + redundant + unused;
  }

  // ---- Which indexes the advice names

  ghost predicate IsAdvised(indexes: seq<IndexInfo>, minUnusedBytes: int, check: Check, i: IndexInfo) {
    match check
    case Invalid => i in indexes && !i.isValid
    case Duplicate => IsCopy(indexes, i)
    case Redundant => IsRedundant(indexes, i)
    case Unused => i in indexes && IsUnused(minUnusedBytes, i)
  }

  ghost predicate Names(findings: seq<DropFinding>, check: Check, i: IndexInfo) {
    exists f <- findings :: f.check == check && f.index == i
  }

  lemma {:induction false} InvalidNames(indexes: seq<IndexInfo>, check: Check, i: IndexInfo)
    ensures Names(InvalidAdvice(indexes), check, i) <==> check == Invalid && i in indexes && !i.isValid
  {
    if indexes != [] {
      var n := |indexes| - 1;
      assert indexes == indexes[..n] + [indexes[n]];
      InvalidNames(indexes[..n], check, i);
      NamesOneMore(InvalidAdvice(indexes[..n]), InvalidAdvice(indexes), check, i);
    }
  }

  lemma {:induction false} UnusedNames(indexes: seq<IndexInfo>, minSizeBytes: int, resetKnown: bool,
                                       check: Check, i: IndexInfo)
    ensures Names(UnusedAdvice(indexes, minSizeBytes, resetKnown), check, i) <==>
            check == Unused && i in indexes && IsUnused(minSizeBytes, i)
  {
    if indexes != [] {
      var n := |indexes| - 1;
      assert indexes == indexes[..n] + [indexes[n]];
      UnusedNames(indexes[..n], minSizeBytes, resetKnown, check, i);
      NamesOneMore(UnusedAdvice(indexes[..n], minSizeBytes, resetKnown),
                   UnusedAdvice(indexes, minSizeBytes, resetKnown), check, i);
    }
  }

  lemma NamesOneMore(before: seq<DropFinding>, after: seq<DropFinding>, check: Check, i: IndexInfo)
    requires before == after || (|after| == |before| + 1 && before == after[..|before|])
    ensures Names(after, check, i) <==>
            || Names(before, check, i)
            || (before != after && after[|before|].check == check && after[|before|].index == i)
  {
    if before != after {
      NamesOfSum(before, [after[|before|]], check, i);
      assert after == before + [after[|before|]];
    }
  }

  lemma NamesOfSum(a: seq<DropFinding>, b: seq<DropFinding>, check: Check, i: IndexInfo)
    ensures Names(a + b, check, i) <==> Names(a, check, i) || Names(b, check, i)
  {
    if f :| f in a && f.check == check && f.index == i {
      assert f in a + b;
    }
    if f :| f in b && f.check == check && f.index == i {
      assert f in a + b;
    }
  }

  lemma CopyNames(copies: seq<IndexInfo>, check: Check, i: IndexInfo)
    ensures Names(CopyAdvice(copies), check, i) <==> check == Duplicate && i in copies
  {
    if check == Duplicate && i in copies {
      var j :| 0 <= j < |copies| && copies[j] == i;
      assert CopyAdvice(copies)[j].index == i;
    }
  }

  lemma CopiesOfOneMore(groups: seq<seq<IndexInfo>>, g: seq<IndexInfo>, i: IndexInfo)
    ensures IsCopyIn(groups + [g], i) <==> IsCopyIn(groups, i) || (g != [] && i in g[1..])
  {
    if g != [] && i in g[1..] {
      var j :| 0 <= j < |g| - 1 && g[1..][j] == i;
      assert g in groups + [g] && g[j + 1] == i;
    }
  }

  lemma {:induction false} DuplicateNames(groups: seq<seq<IndexInfo>>, check: Check, i: IndexInfo)
    ensures Names(DuplicateAdvice(groups), check, i) <==> check == Duplicate && IsCopyIn(groups, i)
  {
    if groups != [] {
      var n := |groups| - 1;
      var copies := if groups[n] == [] then [] else groups[n][1..];
      assert groups == groups[..n] + [groups[n]];
      DuplicateNames(groups[..n], check, i);
      CopyNames(copies, check, i);
      NamesOfSum(DuplicateAdvice(groups[..n]), CopyAdvice(copies), check, i);
      CopiesOfOneMore(groups[..n], groups[n], i);
    }
  }

  lemma RedundantNames(pairs: seq<(IndexInfo, IndexInfo)>, check: Check, i: IndexInfo)
    ensures Names(RedundantAdvice(pairs), check, i) <==>
            check == Redundant && exists p <- pairs :: p.0 == i
  {
    if p :| p in pairs && p.0 == i {
      var j :| 0 <= j < |pairs| && pairs[j] == p;
      assert RedundantAdvice(pairs)[j].index == i;
    }
  }

  /** The report advises dropping exactly the invalid indexes, the group members after
      the keeper, the redundant indexes and the unused ones, each under its check. */
  lemma DropAdviceNames(indexes: seq<IndexInfo>, minUnusedBytes: int, resetKnown: bool,
                        check: Check, i: IndexInfo)
    ensures Names(DropAdvice(indexes, minUnusedBytes, resetKnown), check, i) <==>
            IsAdvised(indexes, minUnusedBytes, check, i)
  {
    var a, b := InvalidAdvice(indexes), DuplicateAdvice(DuplicateGroups(indexes));
    var c, d := RedundantAdvice(RedundantPairs(indexes)), UnusedAdvice(indexes, minUnusedBytes, resetKnown);
    NamesOfSum(a, b, check, i);
    NamesOfSum(a + b, c, check, i);
    NamesOfSum(a + b + c, d, check, i);
    InvalidNames(indexes, check, i);
    DuplicateNames(DuplicateGroups(indexes), check, i);
    RedundantPairsAre(indexes, i);
    RedundantNames(RedundantPairs(indexes), check, i);
    UnusedNames(indexes, minUnusedBytes, resetKnown, check, i);
  }

  /** The same by the metadata: a copy is a valid index with a twin of its shape that is
      kept before it. */
  lemma AdviceByMetadata(indexes: seq<IndexInfo>, minUnusedBytes: int, resetKnown: bool, i: IndexInfo)
    requires DistinctSubjects(indexes)
    ensures var advice := DropAdvice(indexes, minUnusedBytes, resetKnown);
            && (Names(advice, Invalid, i) <==> i in indexes && !i.isValid)
            && (Names(advice, Duplicate, i) <==>
                  i in indexes && i.isValid &&
                  exists t <- indexes :: t != i && t.isValid && t.family == i.family && t.keys == i.keys &&
                                         KeptBefore(t, i))
            && (Names(advice, Redundant, i) <==>
                  i in indexes && i.isValid && EnforcesNothing(i) &&
                  exists w <- indexes :: w.isValid && Covers(w, i))
            && (Names(advice, Unused, i) <==>
                  i in indexes && i.isValid && EnforcesNothing(i) && i.idxScan == 0 &&
                  i.sizeBytes >= minUnusedBytes)
  {
    forall check ensures Names(DropAdvice(indexes, minUnusedBytes, resetKnown), check, i) <==>
                         IsAdvised(indexes, minUnusedBytes, check, i) {
      DropAdviceNames(indexes, minUnusedBytes, resetKnown, check, i);
    }
    CopyHasTwin(indexes, i);
  }

  predicate EnforcesNothing(i: IndexInfo) {
    !i.isUnique && !i.isPrimary && !i.isReplident && !i.backsConstraint
  }

  lemma CopyHasTwin(indexes: seq<IndexInfo>, i: IndexInfo)
    requires DistinctSubjects(indexes)
    ensures IsCopy(indexes, i) <==>
            i in indexes && i.isValid &&
            exists t <- indexes :: t != i && t.isValid && t.family == i.family && t.keys == i.keys &&
                                   KeptBefore(t, i)
  {
    if IsCopy(indexes, i) {
      var g: seq<IndexInfo>, j :| g in DuplicateGroups(indexes) && 1 <= j < |g| && g[j] == i;
      GroupKeeper(indexes, g, i);
      KeeperLeIsKeptBefore(g[0], i);
      assert g[0] in indexes && g[0] != i;
    } else if i in indexes && i.isValid {
      var keeper := CopyIffNotKeeper(indexes, i);
      forall t | t in indexes && t != i && t.isValid && t.family == i.family && t.keys == i.keys
        ensures !KeptBefore(t, i)
      {
        assert KeeperLe(i, t);
        KeeperLeIsKeptBefore(t, i);
        if KeeperLe(t, i) {
          SameRank(indexes, i, t);
        }
      }
    }
  }

  // ---- Order, repetition and severity of the findings

  /** Positions in a list of `n`, in list order. */
  ghost predicate Ascends(at: seq<nat>, n: nat) {
    && (forall k | 0 <= k < |at| :: at[k] < n)
    && (forall k, l | 0 <= k < l < |at| :: at[k] < at[l])
  }

  /** One finding for each invalid index, in list order, critical if it should have
      enforced uniqueness. */
  lemma {:induction false} InvalidAt(indexes: seq<IndexInfo>) returns (at: seq<nat>)
    ensures Ascends(at, |indexes|)
    ensures forall n | 0 <= n < |indexes| :: n in at <==> !indexes[n].isValid
    ensures |InvalidAdvice(indexes)| == |at|
    ensures forall k | 0 <= k < |at| ::
              InvalidAdvice(indexes)[k] ==
              DropFinding(Invalid, if indexes[at[k]].isUnique then Critical else Warning, indexes[at[k]])
  {
    at := [];
    if indexes != [] {
      var n := |indexes| - 1;
      at := InvalidAt(indexes[..n]);
      if !indexes[n].isValid {
        at := at + [n];
      }
    }
  }

  /** One pair for each redundant index, in list order. */
  lemma {:induction false} RedundantAt(narrowers: seq<IndexInfo>, indexes: seq<IndexInfo>) returns (at: seq<nat>)
    ensures Ascends(at, |narrowers|)
    ensures forall n | 0 <= n < |narrowers| ::
              n in at <==> narrowers[n].isValid && EnforcesNothing(narrowers[n]) && HasValidCover(indexes, narrowers[n])
    ensures |PairsOf(narrowers, indexes)| == |at|
    ensures forall k | 0 <= k < |at| :: PairsOf(narrowers, indexes)[k].0 == narrowers[at[k]]
  {
    at := [];
    if narrowers != [] {
      var n := |narrowers| - 1;
      at := RedundantAt(narrowers[..n], indexes);
      FirstCoverFinds(indexes, narrowers[n]);
      if narrowers[n].isValid && EnforcesNothing(narrowers[n]) && HasValidCover(indexes, narrowers[n]) {
        at := at + [n];
      }
    }
  }

  /** One finding for each unused index, in list order, milder when nothing tells since
      when it is unused. */
  lemma {:induction false} UnusedAt(indexes: seq<IndexInfo>, minSizeBytes: int, resetKnown: bool)
    returns (at: seq<nat>)
    ensures Ascends(at, |indexes|)
    ensures forall n | 0 <= n < |indexes| ::
              n in at <==> indexes[n].isValid && EnforcesNothing(indexes[n]) && indexes[n].idxScan == 0 &&
                           indexes[n].sizeBytes >= minSizeBytes
    ensures |UnusedAdvice(indexes, minSizeBytes, resetKnown)| == |at|
    ensures forall k | 0 <= k < |at| ::
              UnusedAdvice(indexes, minSizeBytes, resetKnown)[k] ==
              DropFinding(Unused, if resetKnown then Warning else Notice, indexes[at[k]])
  {
    at := [];
    if indexes != [] {
      var n := |indexes| - 1;
      at := UnusedAt(indexes[..n], minSizeBytes, resetKnown);
      if IsUnused(minSizeBytes, indexes[n]) {
        at := at + [n];
      }
    }
  }

  lemma {:induction false} DuplicateSeverity(groups: seq<seq<IndexInfo>>)
    ensures forall f <- DuplicateAdvice(groups) :: f.check == Duplicate && f.severity == Warning
  {
    if groups != [] {
      DuplicateSeverity(groups[..|groups| - 1]);
    }
  }

  function Section(check: Check): nat {
    match check
    case Invalid => 0
    case Duplicate => 1
    case Redundant => 2
    case Unused => 3
  }

  /** The severity each finding has. */
  ghost predicate HasSeverity(f: DropFinding, resetKnown: bool) {
    match f.check
    case Invalid => f.severity == if f.index.isUnique then Critical else Warning
    case Duplicate => f.severity == Warning
    case Redundant => f.severity == Notice
    case Unused => f.severity == if resetKnown then Warning else Notice
  }

  /** The report has the four checks one after the other. */
  lemma AdviceInSections(indexes: seq<IndexInfo>, minUnusedBytes: int, resetKnown: bool)
    ensures var advice := DropAdvice(indexes, minUnusedBytes, resetKnown);
            && (forall f <- advice :: HasSeverity(f, resetKnown))
            && (forall k, l | 0 <= k < l < |advice| :: Section(advice[k].check) <= Section(advice[l].check))
  {
    var invalid := InvalidAt(indexes);
    var unused := UnusedAt(indexes, minUnusedBytes, resetKnown);
    DuplicateSeverity(DuplicateGroups(indexes));
    var a, b := InvalidAdvice(indexes), DuplicateAdvice(DuplicateGroups(indexes));
    var c, d := RedundantAdvice(RedundantPairs(indexes)), UnusedAdvice(indexes, minUnusedBytes, resetKnown);
    assert forall f <- a :: f.check == Invalid && HasSeverity(f, resetKnown);
    assert forall f <- b :: f.check == Duplicate && HasSeverity(f, resetKnown);
    assert forall f <- c :: f.check == Redundant && HasSeverity(f, resetKnown);
    assert forall f <- d :: f.check == Unused && HasSeverity(f, resetKnown);
    SectionsOfSum(a, b, 0, 1);
    SectionsOfSum(a + b, c, 1, 2);
    SectionsOfSum(a + b + c, d, 2, 3);
  }

  ghost predicate InSections(s: seq<DropFinding>, last: nat) {
    && (forall f <- s :: Section(f.check) <= last)
    && (forall k, l | 0 <= k < l < |s| :: Section(s[k].check) <= Section(s[l].check))
  }

  lemma SectionsOfSum(s: seq<DropFinding>, t: seq<DropFinding>, last: nat, next: nat)
    requires InSections(s, last) && last < next && forall f <- t :: Section(f.check) == next
    ensures InSections(s + t, next)
  {}
}
