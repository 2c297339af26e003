/** The filter of `analyze_bloat` and the measuring loop of `measure_exact`. */
module BloatRows {
  import opened Options
  import opened Rounding
  import opened Packing
  import opened Bloat

  datatype Kind = Table | Index
  datatype Method = Estimate | Pgstattuple | Pgstatindex

  datatype BloatRow = BloatRow(kind: Kind, schema: string, name: string, parent: Option<string>,
                               realBytes: int, bloatBytes: int, bloatPct: real,
                               how: Method, statsUnusable: bool, extra: Extra)

  /** What each source of a row adds to its facts; percentages in hundredths. */
  datatype Extra =
    | EstimatedTable(fillfactor: nat, reltuples: real)
    | EstimatedIndex(fillfactor: nat)
    | DeadTuples(deadTuples: nat)
    | Leaves(density: Option<int>, fragmentation: Option<int>)

  datatype TableReading = TableReading(realBytes: nat, bloatBytes: int, bloatPct: real, deadTuples: nat)

  /** An index without leaf pages has no density and no fragmentation: the extension
      answers NaN. */
  datatype IndexReading = IndexReading(realBytes: nat, density: Option<real>, fragmentation: Option<real>)

  /** What `EXACT_TABLE_SQL` and `EXACT_INDEX_SQL` answer for each relation. */
  datatype Readings = Readings(table: (string, string) -> TableReading,
                               index: (string, string) -> IndexReading)

  /** Python's `round` to two decimals, in hundredths. */
  function Hundredths(x: Option<real>): Option<int> {
    match x
    case None => None
    case Some(v) => Some(RoundHalfEven(100.0 * v))
  }

  /** The free share of the leaves, not below 0, and 0 for NaN. */
  function IndexPct(density: Option<real>): real {
    match density
    case None => 0.0
    case Some(d) => if 100.0 - d > 0.0 then 100.0 - d else 0.0
  }

  function Measured(row: BloatRow, r: Readings): BloatRow {
    match row.kind
    case Table =>
      var t := r.table(row.schema, row.name);
      row.(realBytes := t.realBytes, bloatBytes := t.bloatBytes, bloatPct := t.bloatPct,
           how := Pgstattuple, statsUnusable := false, extra := DeadTuples(t.deadTuples))
    case Index =>
      var i := r.index(row.schema, row.name);
      var pct := IndexPct(i.density);
      row.(realBytes := i.realBytes, bloatBytes := (i.realBytes as real * pct / 100.0).Floor,
           bloatPct := pct, how := Pgstatindex, statsUnusable := false,
           extra := Leaves(Hundredths(i.density), Hundredths(i.fragmentation)))
  }

  /** The relation stays the same and its numbers are those of the reading: a table's as
      they are; of an index the size, the free share of its leaves, that share of the
      bytes rounded down, and both averages to the nearest hundredth. */
  ghost predicate ShowsReading(row: BloatRow, m: BloatRow, r: Readings) {
    && (m.kind, m.schema, m.name, m.parent) == (row.kind, row.schema, row.name, row.parent)
    && !m.statsUnusable
    && (row.kind == Table ==>
          var t := r.table(row.schema, row.name);
          && m.how == Pgstattuple && m.extra == DeadTuples(t.deadTuples)
          && (m.realBytes, m.bloatBytes, m.bloatPct) == (t.realBytes, t.bloatBytes, t.bloatPct))
    && (row.kind == Index ==>
          var i := r.index(row.schema, row.name);
          && m.how == Pgstatindex && m.realBytes == i.realBytes && m.extra.Leaves?
          && IsHundredths(m.extra.density, i.density)
          && IsHundredths(m.extra.fragmentation, i.fragmentation)
          && 0.0 <= m.bloatPct
          && (i.density.None? || i.density.value >= 100.0 ==> m.bloatPct == 0.0)
          && (i.density.Some? && i.density.value <= 100.0 ==> m.bloatPct + i.density.value == 100.0)
          && m.bloatBytes as real <= i.realBytes as real * m.bloatPct / 100.0 < m.bloatBytes as real + 1.0)
  }

  /** `h` hundredths are the nearest to the value, the even number of two. */
  ghost predicate IsHundredths(h: Option<int>, x: Option<real>) {
    && (h.Some? <==> x.Some?)
    && (h.Some? && x.Some? ==>
          && -0.5 <= h.value as real - 100.0 * x.value <= 0.5
          && (h.value as real - 100.0 * x.value == 0.5 || h.value as real - 100.0 * x.value == -0.5 ==>
                h.value % 2 == 0))
  }

  lemma HundredthsAreNear(x: Option<real>)
    ensures IsHundredths(Hundredths(x), x)
  {
    if x.Some? {
      RoundHalfEvenIsNear(100.0 * x.value);
    }
  }

  lemma MeasuredShowsReading(row: BloatRow, r: Readings)
    ensures ShowsReading(row, Measured(row, r), r)
  {
    if row.kind == Index {
      var i := r.index(row.schema, row.name);
      HundredthsAreNear(i.density);
      HundredthsAreNear(i.fragmentation);
    }
  }

  /** A density reading splits the index without loss: bloat plus the used bytes,
      rounded up, is the size; a density beyond 100 or NaN leaves no bloat. */
  lemma IndexMeasureConserves(row: BloatRow, r: Readings)
    requires row.kind == Index
    ensures var i, m := r.index(row.schema, row.name), Measured(row, r);
            && (i.density.Some? && 0.0 <= i.density.value <= 100.0 ==>
                  m.bloatBytes + Ceil(m.realBytes as real * i.density.value / 100.0) == m.realBytes)
            && (i.density.None? || i.density.value > 100.0 ==> m.bloatBytes == 0)
  {}

  /** `measure_exact`: one measured row per row, in order, if the extension is there. */
  method MeasureExact(hasExtension: bool, rows: seq<BloatRow>, r: Readings)
    returns (measured: Option<seq<BloatRow>>)
    ensures measured.Some? <==> hasExtension
    ensures measured.Some? ==>
              && |measured.value| == |rows|
              && (forall i | 0 <= i < |rows| :: measured.value[i] == Measured(rows[i], r))
              && (forall i | 0 <= i < |rows| :: ShowsReading(rows[i], measured.value[i], r))
  {
    if !hasExtension {
      return None;
    }
    var result := [];
    for n := 0 to |rows|
      invariant |result| == n
      invariant forall i | 0 <= i < n :: result[i] == Measured(rows[i], r)
      invariant forall i | 0 <= i < n :: ShowsReading(rows[i], result[i], r)
    {
      MeasuredShowsReading(rows[n], r);
      result := result + [Measured(rows[n], r)];
    }
    measured := Some(result);
  }

  // ---- The filter of analyze_bloat

  predicate Passes(row: BloatRow, minBytes: int, minPct: real) {
    row.bloatBytes >= minBytes && row.bloatPct >= minPct
  }

  function TableRow(s: TableStats, schema: string, name: string, isNa: bool): (row: BloatRow)
    requires s.tupleSize > 0.0 && s.heapPages > 0
    ensures row.kind == Table && row.schema == schema && row.name == name && row.parent.None?
    ensures row.how == Estimate && row.statsUnusable == isNa
    ensures row.realBytes == s.blockSize * (s.heapPages + s.toastPages)
    ensures row.extra == EstimatedTable(s.fillfactor, s.tuples)
  {
    var r := ReportOf(s.blockSize, s.heapPages + s.toastPages, EstimatedTablePages(s));
    BloatRow(Table, schema, name, None, r.realBytes, r.bloatBytes, r.bloatPct, Estimate, isNa,
             EstimatedTable(s.fillfactor, s.tuples))
  }

  function IndexRow(s: IndexStats, schema: string, name: string, parent: string, isNa: bool): (row: BloatRow)
    requires s.tupleWidth >= 0.0 && s.pages > 0
    ensures row.kind == Index && row.schema == schema && row.name == name && row.parent == Some(parent)
    ensures row.how == Estimate && row.statsUnusable == isNa
    ensures row.realBytes == s.blockSize * s.pages && row.extra == EstimatedIndex(s.fillfactor)
  {
    var r := ReportOf(s.blockSize, s.pages, Some(EstimatedIndexPages(s)));
    BloatRow(Index, schema, name, Some(parent), r.realBytes, r.bloatBytes, r.bloatPct, Estimate, isNa,
             EstimatedIndex(s.fillfactor))
  }

  /** Going from `pages` to `rebuilt` pages frees both thresholds. */
  predicate FreesEnough(blockSize: nat, pages: nat, rebuilt: int, minBytes: int, minPct: real)
    requires pages > 0
  {
    var freed := if pages > rebuilt then pages - rebuilt else 0;
    blockSize * freed >= minBytes && 100.0 * freed as real / pages as real >= minPct
  }

  lemma FewerPagesFreeMore(blockSize: nat, pages: nat, less: int, more: int, minBytes: int, minPct: real)
    requires pages > 0 && less <= more && FreesEnough(blockSize, pages, more, minBytes, minPct)
    ensures FreesEnough(blockSize, pages, less, minBytes, minPct)
  {
    var a, b := if pages > more then pages - more else 0, if pages > less then pages - less else 0;
    ProductMonotone(blockSize, a, b);
    QuotientMonotone(100.0 * a as real, 100.0 * b as real, pages as real);
  }

  /** `heap` and `toast` pages suffice and free both thresholds. */
  ghost predicate RewriteFrees(s: TableStats, heap: nat, toast: nat, minBytes: int, minPct: real)
    requires s.heapPages > 0
  {
    && PagesSuffice(s, heap, toast)
    && FreesEnough(s.blockSize, s.heapPages + s.toastPages, heap + toast, minBytes, minPct)
  }

  /** A table passes exactly when heap and TOAST pages that suffice free both thresholds;
      without an estimate it reports no bloat and passes only thresholds that ask none. */
  lemma TablePassesIff(s: TableStats, n: nat, schema: string, name: string, isNa: bool,
                       minBytes: int, minPct: real)
    requires s.Sound() && s.tuples == n as real && s.heapPages > 0
    ensures s.fillfactor > 0 ==>
              (Passes(TableRow(s, schema, name, isNa), minBytes, minPct) <==>
               exists heap: nat, toast: nat :: RewriteFrees(s, heap, toast, minBytes, minPct))
    ensures s.fillfactor == 0 ==>
              (Passes(TableRow(s, schema, name, isNa), minBytes, minPct) <==> minBytes <= 0 && minPct <= 0.0)
  {
    TableEstimateNotNegative(s);
    if s.fillfactor > 0 {
      var pages, e := s.heapPages + s.toastPages, EstimatedTablePages(s).value;
      assert Passes(TableRow(s, schema, name, isNa), minBytes, minPct) <==>
             FreesEnough(s.blockSize, pages, e, minBytes, minPct);
      TableEstimateIff(s, n, e);
      var h: nat, c: nat :| PagesSuffice(s, h, c) && h + c == e;
      assert RewriteFrees(s, h, c, minBytes, minPct) <==> FreesEnough(s.blockSize, pages, e, minBytes, minPct);
      forall heap: nat, toast: nat | RewriteFrees(s, heap, toast, minBytes, minPct)
        ensures FreesEnough(s.blockSize, pages, e, minBytes, minPct)
      {
        TableEstimateIff(s, n, heap + toast);
        FewerPagesFreeMore(s.blockSize, pages, e, heap + toast, minBytes, minPct);
      }
    }
  }

  /** The filter drops no table that a rewrite would shrink by both thresholds: if some
      packing of its tuples, with pages for the TOAST chunks, frees that much, the row
      passes. */
  lemma FilterMissesNoTable(s: TableStats, n: nat, packed: nat, toast: nat, schema: string, name: string,
                            isNa: bool, minBytes: int, minPct: real)
    requires s.Sound() && s.fillfactor > 0 && s.tuples == n as real && s.heapPages > 0
    requires Fits(n, packed, s.tupleSize, HeapCapacity(s)) && s.toastTuples <= (4 * toast) as real
    requires FreesEnough(s.blockSize, s.heapPages + s.toastPages, packed + toast, minBytes, minPct)
    ensures Passes(TableRow(s, schema, name, isNa), minBytes, minPct)
  {
    HeapPagesIsLowerBound(s, n, packed);
    CeilAtMost(s.toastTuples / 4.0, toast);
    FewerPagesFreeMore(s.blockSize, s.heapPages + s.toastPages, EstimatedTablePages(s).value,
                       packed + toast, minBytes, minPct);
  }

  /** Rebuilding the index into `packed` leaf pages and the metapage is possible and frees
      both thresholds. */
  ghost predicate RebuildFrees(s: IndexStats, n: nat, packed: nat, minBytes: int, minPct: real)
    requires s.Sound() && s.pages > 0
  {
    && Fits(n, packed, 4.0 + s.tupleWidth, LeafCapacity(s))
    && FreesEnough(s.blockSize, s.pages, packed + 1, minBytes, minPct)
  }

  /** An index passes exactly when a rebuild into some packing of its entries, plus the
      metapage, frees both thresholds; if no entry fits a page, exactly when the whole
      index does. */
  lemma IndexPassesIff(s: IndexStats, n: nat, schema: string, name: string, parent: string,
                       isNa: bool, minBytes: int, minPct: real)
    requires s.Sound() && s.tuples == n as real && s.pages > 0
    ensures HasRoom(1, 4.0 + s.tupleWidth, LeafCapacity(s)) ==>
              (Passes(IndexRow(s, schema, name, parent, isNa), minBytes, minPct) <==>
               exists packed: nat :: RebuildFrees(s, n, packed, minBytes, minPct))
    ensures !HasRoom(1, 4.0 + s.tupleWidth, LeafCapacity(s)) ==>
              (Passes(IndexRow(s, schema, name, parent, isNa), minBytes, minPct) <==>
               FreesEnough(s.blockSize, s.pages, 0, minBytes, minPct))
  {
    var width, capacity, e := 4.0 + s.tupleWidth, LeafCapacity(s), EstimatedIndexPages(s);
    EntriesPerPageIsExact(s);
    assert Passes(IndexRow(s, schema, name, parent, isNa), minBytes, minPct) <==>
           FreesEnough(s.blockSize, s.pages, e, minBytes, minPct);
    if HasRoom(1, width, capacity) {
      IndexEstimateIsOptimal(s, n, 0);
      IndexEstimateIsOptimal(s, n, e - 1);
      assert Fits(n, e - 1, width, capacity) && e - 1 + 1 == e;
      assert RebuildFrees(s, n, e - 1, minBytes, minPct) <==>
             FreesEnough(s.blockSize, s.pages, e, minBytes, minPct);
      forall packed: nat | RebuildFrees(s, n, packed, minBytes, minPct)
        ensures FreesEnough(s.blockSize, s.pages, e, minBytes, minPct)
      {
        IndexEstimateIsOptimal(s, n, packed);
        FewerPagesFreeMore(s.blockSize, s.pages, e, packed + 1, minBytes, minPct);
      }
    }
  }

  // ---- analyze_bloat with and without exact measurement

  function Candidates(rows: seq<BloatRow>, minBytes: int, minPct: real): seq<BloatRow> {
    if rows == [] then []
    else
      var n := |rows| - 1;
      var before := Candidates(rows[..n], minBytes, minPct);
      if Passes(rows[n], minBytes, minPct) then before + [rows[n]] else before
  }

  lemma {:induction false} CandidatesAre(rows: seq<BloatRow>, minBytes: int, minPct: real)
    ensures forall row :: row in Candidates(rows, minBytes, minPct) <==>
                          row in rows && Passes(row, minBytes, minPct)
  {
    if rows != [] {
      var n := |rows| - 1;
      assert rows == rows[..n] + [rows[n]];
      CandidatesAre(rows[..n], minBytes, minPct);
    }
  }

  /** The candidates are the rows of at least the minimum bytes and percentage, each
      where it stood. */
  lemma {:induction false} CandidatesAt(rows: seq<BloatRow>, minBytes: int, minPct: real) returns (at: seq<nat>)
    ensures forall k | 0 <= k < |at| :: at[k] < |rows|
    ensures forall k, l | 0 <= k < l < |at| :: at[k] < at[l]
    ensures forall n | 0 <= n < |rows| :: n in at <==> rows[n].bloatBytes >= minBytes && rows[n].bloatPct >= minPct
    ensures |Candidates(rows, minBytes, minPct)| == |at|
    ensures forall k | 0 <= k < |at| :: Candidates(rows, minBytes, minPct)[k] == rows[at[k]]
  {
    at := [];
    if rows != [] {
      var n := |rows| - 1;
      at := CandidatesAt(rows[..n], minBytes, minPct);
      if Passes(rows[n], minBytes, minPct) {
        at := at + [n];
      }
    }
  }

  /** The rows behind the findings: candidates by their estimates, measured if asked. */
  method AnalyzeBloat(rows: seq<BloatRow>, minBytes: int, minPct: real, exact: bool,
                      hasExtension: bool, r: Readings)
    returns (reported: Option<seq<BloatRow>>)
    ensures reported.None? <==> exact && !hasExtension
    ensures reported.Some? && !exact ==> reported.value == Candidates(rows, minBytes, minPct)
    ensures reported.Some? && exact ==>
              var candidates := Candidates(rows, minBytes, minPct);
              && |reported.value| == |candidates|
              && forall i | 0 <= i < |candidates| :: reported.value[i] == Measured(candidates[i], r)
  {
    var candidates := [];
    for n := 0 to |rows|
      invariant candidates == Candidates(rows[..n], minBytes, minPct)
    {
      assert rows[..n + 1][..n] == rows[..n];
      if Passes(rows[n], minBytes, minPct) {
        candidates := candidates + [rows[n]];
      }
    }
    assert rows[..|rows|] == rows;
    if exact {
      reported := MeasureExact(hasExtension, candidates, r);
    } else {
      reported := Some(candidates);
    }
  }

  /** The reading itself reaches both thresholds: for an index, its free share does,
      where a threshold of zero or less asks for nothing. */
  predicate ReadingMeets(row: BloatRow, r: Readings, minBytes: int, minPct: real) {
    match row.kind
    case Table =>
      var t := r.table(row.schema, row.name);
      t.bloatBytes >= minBytes && t.bloatPct >= minPct
    case Index =>
      var i := r.index(row.schema, row.name);
      && (minBytes <= 0 || (i.density.Some? &&
                            i.realBytes as real * (100.0 - i.density.value) >= 100.0 * minBytes as real))
      && (minPct <= 0.0 || (i.density.Some? && i.density.value <= 100.0 - minPct))
  }

  lemma MeasuredPassesIff(row: BloatRow, r: Readings, minBytes: int, minPct: real)
    ensures Passes(Measured(row, r), minBytes, minPct) <==> ReadingMeets(row, r, minBytes, minPct)
  {
    if row.kind == Index {
      var i := r.index(row.schema, row.name);
      var pct := IndexPct(i.density);
      FloorAtLeast(i.realBytes as real * pct / 100.0, minBytes);
      assert i.realBytes as real * pct >= 0.0;
      assert pct == 0.0 ==> i.realBytes as real * pct == 0.0;
      if i.density.Some? && i.density.value > 100.0 {
        assert i.realBytes as real * (100.0 - i.density.value) <= 0.0;
      }
    }
  }

  /** Measured rows are not filtered again: all of them still meet both thresholds
      exactly when the reading of every row that passed on its estimate does. */
  lemma ExactReportMeetsIff(rows: seq<BloatRow>, r: Readings, minBytes: int, minPct: real)
    ensures (forall c <- Candidates(rows, minBytes, minPct) :: Passes(Measured(c, r), minBytes, minPct)) <==>
            (forall row <- rows | Passes(row, minBytes, minPct) :: ReadingMeets(row, r, minBytes, minPct))
  {
    CandidatesAre(rows, minBytes, minPct);
    forall row ensures Passes(Measured(row, r), minBytes, minPct) <==> ReadingMeets(row, r, minBytes, minPct) {
      MeasuredPassesIff(row, r, minBytes, minPct);
    }
  }

  /** A table estimated half empty and measured full is still reported, with no bloat. */
  lemma FullTableIsReported()
    ensures var row := BloatRow(Table, "public", "orders", None, 33554432, 16777216, 50.0, Estimate, false,
                                EstimatedTable(100, 1000.0));
            var r := Readings((s, n) => TableReading(33554432, 0, 0.0, 0), (s, n) => IndexReading(0, None, None));
            && row in Candidates([row], 8388608, 20.0)
            && !Passes(Measured(row, r), 8388608, 20.0)
  {
    var row := BloatRow(Table, "public", "orders", None, 33554432, 16777216, 50.0, Estimate, false,
                        EstimatedTable(100, 1000.0));
    CandidatesAre([row], 8388608, 20.0);
    assert row in [row];
  }
}
