/** The arithmetic of `TABLE_BLOAT_SQL` and `INDEX_BLOAT_SQL` over exact numbers,
    measured against packings of whole tuples into pages. */
module Bloat {
  import opened Options
  import opened Rounding
  import opened Packing

  // ---- Tuple widths

  /** `tpl_size`: item pointer, padded header, padded data. */
  function TupleSize(header: nat, data: real, align: nat): real
    requires align > 0 && data >= 0.0
  {
    4.0 + header as real + data + (2 * align) as real
    - (if header % align == 0 then align else header % align) as real
    - (if Ceil(data) % align == 0 then align else Ceil(data) % align) as real
  }

  /** Data width plus the padding computed from its ceiling. */
  function PaddedData(data: real, align: nat): real
    requires align > 0 && data >= 0.0
  {
    CeilAtMost(data, -1);
    data + Padding(Ceil(data), align) as real
  }

  function AlignedUp(n: nat, align: nat): (m: nat)
    requires align > 0
    ensures IsAlignedUp(m, n, align)
  {
    PaddingAligns(n, align);
    n + Padding(n, align)
  }

  /** The header takes whole alignment units.  The data falls short of whole units by
      less than a byte, and by nothing exactly when its width is a whole number. */
  lemma TupleSizeIsAligned(header: nat, data: real, align: nat)
    requires align > 0 && data >= 0.0
    ensures 0 <= Ceil(data)
    ensures TupleSize(header, data, align) == 4.0 + AlignedUp(header, align) as real + PaddedData(data, align)
    ensures var whole := AlignedUp(Ceil(data), align) as real;
            && whole - 1.0 < PaddedData(data, align) <= whole
            && (PaddedData(data, align) == whole <==> data == Ceil(data) as real)
    ensures data <= PaddedData(data, align)
  {}

  /** Padding is not monotone for fractional widths: 9 bytes take 16, 15.5 take 15.5. */
  lemma PaddingIsNotMonotone()
    ensures PaddedData(9.0, 8) == 16.0 && PaddedData(15.5, 8) == 15.5
  {}

  /** It keeps the order of two widths exactly when the wider one starts a further
      unit or falls short of its ceiling by no more than the narrower one. */
  lemma PaddingKeepsOrderIff(a: real, b: real, align: nat)
    requires align > 0 && 0.0 <= a <= b
    ensures 0 <= Ceil(a) <= Ceil(b)
    ensures PaddedData(a, align) <= PaddedData(b, align) <==>
            || AlignedUp(Ceil(a), align) < AlignedUp(Ceil(b), align)
            || Ceil(b) as real - b <= Ceil(a) as real - a
  {
    CeilAtMost(a, -1);
    CeilMonotone(a, b);
    AlignedUpMonotone(Ceil(a), Ceil(b), align);
  }

  lemma AlignedUpMonotone(a: nat, b: nat, align: nat)
    requires align > 0 && a <= b
    ensures AlignedUp(a, align) <= AlignedUp(b, align)
  {
    MultiplesApart(AlignedUp(a, align), AlignedUp(b, align), align);
  }

  lemma MultiplesApart(m: nat, k: nat, align: nat)
    requires align > 0 && m % align == 0 && k % align == 0
    ensures m <= k || k + align <= m
  {
    var d := m / align - k / align;
    assert m == align * (m / align) && k == align * (k / align);
    assert m - k == align * d;
    assert d <= 0 ==> align * d <= 0;
    assert d >= 1 ==> align * (d - 1) >= 0;
  }

  /** `numeric::bigint` rounds half away from zero. */
  function RoundNumeric(x: real): int {
    if x >= 0.0 then (x + 0.5).Floor else -((-x + 0.5).Floor)
  }

  /** `nulldatahdrwidth`: the padding is computed from the rounded data width. */
  function IndexTupleWidth(hasNulls: bool, width: real): real
    requires width >= 0.0
  {
    var header, rounded := if hasNulls then 6 else 2, RoundNumeric(width);
    header as real + 8.0 - (if header % 8 == 0 then 8 else header % 8) as real
    + width + 8.0 - (if rounded % 8 == 0 then 8 else rounded % 8) as real
  }

  /** Either header takes 8 bytes; the data is within half a byte of whole units. */
  lemma IndexTupleIsAligned(hasNulls: bool, width: real)
    requires width >= 0.0
    ensures 0 <= RoundNumeric(width)
    ensures var whole := 8.0 + AlignedUp(RoundNumeric(width), 8) as real;
            whole - 0.5 <= IndexTupleWidth(hasNulls, width) < whole + 0.5
  {}

  // ---- Table estimate

  datatype TableStats = TableStats(heapPages: nat, toastPages: nat, tuples: real, toastTuples: real,
                                   fillfactor: nat, blockSize: nat, tupleSize: real)
  {
    /** Facts of every row the query reads: a tuple has a header, a page has one too,
        counts are not negative (a TOAST table never analysed counts -1). */
    ghost predicate Sound() {
      tupleSize > 0.0 && blockSize > 24 && tuples >= 0.0 && toastTuples >= -1.0
    }
  }

  /** `(bs - page_hdr) * fillfactor / (tpl_size * 100)`, not rounded to whole tuples. */
  function TuplesPerHeapPage(s: TableStats): real
    requires s.tupleSize > 0.0
  {
    ((s.blockSize - 24) * s.fillfactor) as real / (s.tupleSize * 100.0)
  }

  function HeapPages(s: TableStats): Option<int>
    requires s.tupleSize > 0.0
  {
    var perPage := TuplesPerHeapPage(s);
    if perPage == 0.0 then None else Some(Ceil(s.tuples / perPage))
  }

  /** The pages charged for a TOAST table: four chunks a page. */
  function ToastCharge(s: TableStats): int { Ceil(s.toastTuples / 4.0) }

  function EstimatedTablePages(s: TableStats): Option<int>
    requires s.tupleSize > 0.0
  {
    match HeapPages(s)
    case None => None
    case Some(heap) => Some(heap + ToastCharge(s))
  }

  /** Bytes a heap page offers to tuples at this fillfactor. */
  function HeapCapacity(s: TableStats): real {
    ((s.blockSize - 24) * s.fillfactor) as real / 100.0
  }

  lemma PerPageIsCapacityOverSize(s: TableStats)
    requires s.Sound()
    ensures TuplesPerHeapPage(s) * s.tupleSize == HeapCapacity(s)
    ensures TuplesPerHeapPage(s) == HeapCapacity(s) / s.tupleSize
    ensures TuplesPerHeapPage(s) > 0.0 <==> s.fillfactor > 0
    ensures TuplesPerHeapPage(s) == 0.0 <==> s.fillfactor == 0
  {}

  /** The heap term is the least page count whose total capacity holds the total
      volume of the tuples. */
  lemma HeapPagesIsVolume(s: TableStats, n: nat, pages: nat)
    requires s.Sound() && s.fillfactor > 0 && s.tuples == n as real
    ensures HeapPages(s).Some? && HeapPages(s).value >= 0
    ensures HeapPages(s).value <= pages <==> n as real * s.tupleSize <= pages as real * HeapCapacity(s)
  {
    PerPageIsCapacityOverSize(s);
    CeilOfCount(n, TuplesPerHeapPage(s), pages);
    ScaleComparison(n as real, pages as real, TuplesPerHeapPage(s), s.tupleSize, HeapCapacity(s));
  }

  lemma CeilOfCount(n: nat, perPage: real, pages: nat)
    requires perPage > 0.0
    ensures 0 <= Ceil(n as real / perPage)
    ensures Ceil(n as real / perPage) <= pages <==> n as real <= pages as real * perPage
  {
    QuotientAtLeast(n as real, perPage, 0.0);
    CeilAtMost(n as real / perPage, -1);
    CeilAtMost(n as real / perPage, pages);
    QuotientAtMost(n as real, perPage, pages as real);
  }

  lemma ScaleComparison(n: real, m: real, q: real, w: real, capacity: real)
    requires w > 0.0 && capacity == q * w
    ensures n <= m * q <==> n * w <= m * capacity
  {
    assert (m * q - n) * w == m * capacity - n * w;
  }

  lemma CeilOfWholeCount(n: nat, perPage: nat, pages: nat)
    requires perPage > 0
    ensures 0 <= Ceil(n as real / perPage as real)
    ensures Ceil(n as real / perPage as real) <= pages <==> n <= pages * perPage
  {
    CeilOfCount(n, perPage as real, pages);
    assert pages as real * perPage as real == (pages * perPage) as real;
  }

  /** No packing of whole tuples uses fewer heap pages than estimated. */
  lemma HeapPagesIsLowerBound(s: TableStats, n: nat, pages: nat)
    requires s.Sound() && s.fillfactor > 0 && s.tuples == n as real
    requires Fits(n, pages, s.tupleSize, HeapCapacity(s))
    ensures HeapPages(s).Some? && HeapPages(s).value <= pages
  {
    var page :| |page| == n && IsPacking(page, pages, s.tupleSize, HeapCapacity(s));
    Volume(page, pages, s.tupleSize, HeapCapacity(s));
    HeapPagesIsVolume(s, n, pages);
  }

  lemma WholeTuplesPerPage(s: TableStats) returns (k: nat)
    requires s.Sound()
    ensures k == TuplesPerHeapPage(s).Floor
    ensures TuplesPerPage(k, s.tupleSize, HeapCapacity(s))
  {
    PerPageIsCapacityOverSize(s);
    assert (s.blockSize - 24) * s.fillfactor >= 0;
    FloorIsTuplesPerPage(s.tupleSize, HeapCapacity(s));
    k := TuplesPerHeapPage(s).Floor;
  }

  /** If a tuple fits a page at all, twice the estimated pages always suffice: the
      optimum lies between the estimate and its double. */
  lemma TwiceHeapPagesSuffice(s: TableStats, n: nat)
    requires s.Sound() && s.fillfactor > 0 && s.tuples == n as real
    requires HasRoom(1, s.tupleSize, HeapCapacity(s))
    ensures HeapPages(s).Some? && HeapPages(s).value >= 0
    ensures Fits(n, 2 * HeapPages(s).value, s.tupleSize, HeapCapacity(s))
  {
    HeapPagesIsVolume(s, n, 0);
    var k := WholeTuplesPerPage(s);
    var e, q := HeapPages(s).value, TuplesPerHeapPage(s);
    PerPageIsCapacityOverSize(s);
    assert 1 <= k;
    CeilAtMost(n as real / q, e);
    QuotientAtMost(n as real, q, e as real);
    TwiceTheFloor(n, e, q, k);
    FitsIff(n, 2 * e, s.tupleSize, HeapCapacity(s), k);
  }

  lemma TwiceTheFloor(n: nat, e: nat, q: real, k: nat)
    requires 1 <= k == q.Floor && n as real <= e as real * q
    ensures n <= 2 * e * k
  {
    MulMonotone(q, (2 * k) as real, e as real);
    assert (2 * k) as real * e as real == (2 * e * k) as real by {
      assert 2 * k * e == 2 * e * k;
    }
  }

  /** The estimate is the optimum for every tuple count exactly when a page holds a
      whole number of tuples. */
  lemma HeapPagesIsOptimalIff(s: TableStats)
    requires s.Sound() && s.fillfactor > 0
    ensures (forall n: nat :: EstimateSuffices(s, n)) <==>
            TuplesPerHeapPage(s) == TuplesPerHeapPage(s).Floor as real
  {
    var k := WholeTuplesPerPage(s);
    var q := TuplesPerHeapPage(s);
    if q == k as real {
      forall n: nat ensures EstimateSuffices(s, n) {
        WholeQuotientSuffices(s, n, k);
      }
    } else {
      var m := Ceil(1.0 / (q - k as real));
      FractionLosesATuple(s, m, k);
      assert !EstimateSuffices(s, m * k + 1);
    }
  }

  ghost predicate EstimateSuffices(s: TableStats, n: nat)
    requires s.tupleSize > 0.0
  {
    var heap := HeapPages(s.(tuples := n as real));
    heap.Some? && heap.value >= 0 && Fits(n, heap.value, s.tupleSize, HeapCapacity(s))
  }

  lemma WholeQuotientSuffices(s: TableStats, n: nat, k: nat)
    requires s.Sound() && s.fillfactor > 0 && TuplesPerPage(k, s.tupleSize, HeapCapacity(s))
    requires TuplesPerHeapPage(s) == k as real
    ensures EstimateSuffices(s, n)
  {
    var t := s.(tuples := n as real);
    HeapPagesIsVolume(t, n, 0);
    PerPageIsCapacityOverSize(s);
    var e := HeapPages(t).value;
    CeilOfWholeCount(n, k, e);
    FitsIff(n, e, s.tupleSize, HeapCapacity(s), k);
  }

  /** With a fraction of a tuple left over per page, `m` estimated pages claim to hold
      one tuple more than `m` times the whole tuples per page. */
  lemma FractionLosesATuple(s: TableStats, m: int, k: nat)
    requires s.Sound() && s.fillfactor > 0 && TuplesPerPage(k, s.tupleSize, HeapCapacity(s))
    requires k as real < TuplesPerHeapPage(s) && m == Ceil(1.0 / (TuplesPerHeapPage(s) - k as real))
    ensures m >= 0 && !EstimateSuffices(s, m * k + 1)
  {
    var q := TuplesPerHeapPage(s);
    FractionAddsUp(q, k, m);
    var n := m * k + 1;
    var t := s.(tuples := n as real);
    HeapPagesIsVolume(t, n, 0);
    PerPageIsCapacityOverSize(s);
    CeilOfCount(n, q, m);
    var e := HeapPages(t).value;
    ProductMonotone(k, e, m);
    FitsIff(n, e, s.tupleSize, HeapCapacity(s), k);
  }

  lemma FractionAddsUp(q: real, k: nat, m: int)
    requires k as real < q && m == Ceil(1.0 / (q - k as real))
    ensures m >= 0 && (m * k + 1) as real <= m as real * q
  {}

  /** More tuples never lower the estimate; a higher fillfactor never raises it. */
  lemma TableEstimateIsMonotone(s: TableStats, t: TableStats)
    requires s.Sound() && t.Sound() && s.fillfactor > 0
    requires t == s.(tuples := t.tuples, fillfactor := t.fillfactor)
    requires s.tuples <= t.tuples && t.fillfactor <= s.fillfactor && t.fillfactor > 0
    ensures EstimatedTablePages(s).Some? && EstimatedTablePages(t).Some?
    ensures EstimatedTablePages(s).value <= EstimatedTablePages(t).value
  {
    PerPageIsCapacityOverSize(s);
    PerPageIsCapacityOverSize(t);
    PerPageGrowsWithFillfactor(s, t);
    CeilQuotientMonotone(s.tuples, t.tuples, TuplesPerHeapPage(s), TuplesPerHeapPage(t));
  }

  lemma PerPageGrowsWithFillfactor(s: TableStats, t: TableStats)
    requires s.Sound() && t.Sound() && t.fillfactor <= s.fillfactor
    requires s.blockSize == t.blockSize && s.tupleSize == t.tupleSize
    ensures TuplesPerHeapPage(t) <= TuplesPerHeapPage(s)
  {
    ProductMonotone(s.blockSize - 24, t.fillfactor, s.fillfactor);
    QuotientMonotone(((s.blockSize - 24) * t.fillfactor) as real,
                     ((s.blockSize - 24) * s.fillfactor) as real, s.tupleSize * 100.0);
  }

  lemma ProductMonotone(x: nat, y: nat, z: nat)
    requires y <= z
    ensures x * y <= x * z
  {}

  lemma QuotientMonotone(a: real, b: real, w: real)
    requires a <= b && w > 0.0
    ensures a / w <= b / w
  {}

  lemma CeilQuotientMonotone(a: real, b: real, p: real, q: real)
    requires 0.0 <= a <= b && 0.0 < q <= p
    ensures Ceil(a / p) <= Ceil(b / q)
  {
    var x := b / q;
    assert x * q == b;
    QuotientAtLeast(b, q, 0.0);
    MulMonotone(q, p, x);
    QuotientAtMost(a, p, x);
    CeilMonotone(a / p, x);
  }

  // ---- Index estimate

  datatype IndexStats = IndexStats(pages: nat, tuples: real, fillfactor: nat, blockSize: nat,
                                   tupleWidth: real)
  {
    ghost predicate Sound() {
      tupleWidth >= 0.0 && blockSize >= 40 && tuples >= 0.0
    }
  }

  /** Whole entries of `4 + nulldatahdrwidth` bytes per leaf page. */
  function EntriesPerPage(s: IndexStats): int
    requires s.tupleWidth >= 0.0
  {
    (((s.blockSize - 16 - 24) * s.fillfactor) as real / (100.0 * (4.0 + s.tupleWidth))).Floor
  }

  /** `coalesce(1 + ceil(reltuples / nullif(..., 0)), 0)` */
  function EstimatedIndexPages(s: IndexStats): int
    requires s.tupleWidth >= 0.0
  {
    var perPage := EntriesPerPage(s);
    if perPage == 0 then 0 else 1 + Ceil(s.tuples / perPage as real)
  }

  function LeafCapacity(s: IndexStats): real {
    ((s.blockSize - 16 - 24) * s.fillfactor) as real / 100.0
  }

  lemma EntriesPerPageIsExact(s: IndexStats)
    requires s.Sound()
    ensures EntriesPerPage(s) >= 0
    ensures TuplesPerPage(EntriesPerPage(s), 4.0 + s.tupleWidth, LeafCapacity(s))
  {
    var c, w := ((s.blockSize - 16 - 24) * s.fillfactor) as real, 4.0 + s.tupleWidth;
    assert (s.blockSize - 40) * s.fillfactor >= 0;
    assert c / (100.0 * w) == LeafCapacity(s) / w by {
      assert c / (100.0 * w) * w * 100.0 == c;
      assert LeafCapacity(s) / w * w == LeafCapacity(s);
    }
    FloorIsTuplesPerPage(w, LeafCapacity(s));
  }

  /** Apart from the metapage the estimate is the optimum: `n` entries fit on `pages`
      leaf pages exactly when `pages` is at least the estimate minus one. */
  lemma IndexEstimateIsOptimal(s: IndexStats, n: nat, pages: nat)
    requires s.Sound() && s.tuples == n as real
    requires HasRoom(1, 4.0 + s.tupleWidth, LeafCapacity(s))
    ensures Fits(n, pages, 4.0 + s.tupleWidth, LeafCapacity(s)) <==> EstimatedIndexPages(s) - 1 <= pages
    ensures EstimatedIndexPages(s) >= 1
  {
    var k := EntriesPerPage(s);
    EntriesPerPageIsExact(s);
    assert 1 <= k;
    FitsIff(n, pages, 4.0 + s.tupleWidth, LeafCapacity(s), k);
    CeilOfWholeCount(n, k, pages);
  }

  /** With `k` whole entries to a page, and not `k + 1`, the estimate is the metapage and
      the least number of pages that hold `n` entries at `k` a page; without any it is 0. */
  lemma IndexEstimateCounts(s: IndexStats, n: nat, k: nat, pages: nat)
    requires s.Sound() && s.tuples == n as real
    requires k as real * (4.0 + s.tupleWidth) * 100.0 <= ((s.blockSize - 40) * s.fillfactor) as real
    requires ((s.blockSize - 40) * s.fillfactor) as real < (k + 1) as real * (4.0 + s.tupleWidth) * 100.0
    ensures k > 0 ==> (EstimatedIndexPages(s) <= 1 + pages <==> n <= pages * k)
    ensures k == 0 ==> EstimatedIndexPages(s) == 0
  {
    var w := 4.0 + s.tupleWidth;
    EntriesPerPageIsExact(s);
    assert HasRoom(k, w, LeafCapacity(s)) && !HasRoom(k + 1, w, LeafCapacity(s));
    assert EntriesPerPage(s) == k;
    if k > 0 {
      CeilOfWholeCount(n, k, pages);
    }
  }

  // ---- The report

  datatype Report = Report(realBytes: int, estimatedBytes: Option<int>, bloatBytes: int, bloatPct: real)

  /** The four output columns, for a possibly null page estimate. */
  function ReportOf(blockSize: nat, pages: nat, estimate: Option<int>): Report
    requires pages > 0
  {
    match estimate
    case None => Report(blockSize * pages, None, 0, 0.0)
    case Some(e) =>
      if pages > e
      then Report(blockSize * pages, Some(blockSize * e), blockSize * (pages - e),
                  100.0 * (pages - e) as real / pages as real)
      else Report(blockSize * pages, Some(blockSize * e), 0, 0.0)
  }

  function Min(a: int, b: int): int { if a < b then a else b }

  /** Bytes are conserved: what is not bloat is the estimate, capped by the real size;
      the percentage lies in [0, 100] and says the same as the bytes.  A null estimate
      reports no bloat. */
  lemma ReportConserves(blockSize: nat, pages: nat, estimate: Option<int>)
    requires pages > 0 && (estimate.Some? ==> estimate.value >= 0)
    ensures var r := ReportOf(blockSize, pages, estimate);
            && r.realBytes == blockSize * pages
            && (estimate.Some? ==> r.estimatedBytes == Some(blockSize * estimate.value))
            && 0.0 <= r.bloatPct <= 100.0
            && r.bloatPct * r.realBytes as real == 100.0 * r.bloatBytes as real
            && (estimate.None? ==> r.bloatBytes == 0)
            && (estimate.Some? ==> r.bloatBytes + Min(r.realBytes, r.estimatedBytes.value) == r.realBytes)
  {
    if estimate.Some? {
      if pages > estimate.value {
        BytesSplit(blockSize, pages, estimate.value);
        PercentInRange(pages, estimate.value);
        PercentOfBytes(blockSize, pages, estimate.value);
      } else {
        BytesSplit(blockSize, estimate.value, pages);
      }
    }
  }

  lemma BytesSplit(blockSize: nat, more: int, less: int)
    requires less <= more
    ensures blockSize * (more - less) == blockSize * more - blockSize * less
    ensures blockSize * less <= blockSize * more
  {
    assert blockSize * (more - less) >= 0;
  }

  lemma PercentInRange(pages: nat, e: nat)
    requires pages > e
    ensures 0.0 <= 100.0 * (pages - e) as real / pages as real <= 100.0
  {
    QuotientAtMost(100.0 * (pages - e) as real, pages as real, 100.0);
    QuotientAtLeast(100.0 * (pages - e) as real, pages as real, 0.0);
  }

  lemma PercentOfBytes(blockSize: nat, pages: nat, e: nat)
    requires pages > e
    ensures 100.0 * (pages - e) as real / pages as real * (blockSize * pages) as real ==
            100.0 * (blockSize * (pages - e)) as real
  {
    var x := 100.0 * (pages - e) as real / pages as real;
    assert x * pages as real == 100.0 * (pages - e) as real;
    assert (blockSize * pages) as real == pages as real * blockSize as real;
    assert (blockSize * (pages - e)) as real == (pages - e) as real * blockSize as real;
    assert x * (pages as real * blockSize as real) == x * pages as real * blockSize as real;
  }

  lemma TableEstimateNotNegative(s: TableStats)
    requires s.Sound()
    ensures EstimatedTablePages(s).Some? ==> EstimatedTablePages(s).value >= 0
    ensures EstimatedTablePages(s).None? <==> s.fillfactor == 0
  {}

  /** `heap` pages have the room that the tuples take, of a page what the fillfactor
      leaves of all but its header, and `toast` pages hold the chunks, four to a page. */
  ghost predicate PagesSuffice(s: TableStats, heap: nat, toast: nat) {
    && s.tuples * s.tupleSize * 100.0 <= heap as real * ((s.blockSize - 24) * s.fillfactor) as real
    && s.toastTuples <= (4 * toast) as real
  }

  lemma HeapPagesSuffice(s: TableStats, n: nat, heap: nat, toast: nat)
    requires s.Sound() && s.fillfactor > 0 && s.tuples == n as real
    ensures HeapPages(s).Some? && HeapPages(s).value >= 0 && ToastCharge(s) >= 0
    ensures PagesSuffice(s, heap, toast) <==> HeapPages(s).value <= heap && ToastCharge(s) <= toast
  {
    HeapPagesIsVolume(s, n, heap);
    CeilAtMost(s.toastTuples / 4.0, toast);
    CeilAtMost(s.toastTuples / 4.0, -1);
    HundredTimes(n as real * s.tupleSize, heap as real, ((s.blockSize - 24) * s.fillfactor) as real);
  }

  lemma HundredTimes(volume: real, pages: real, room: real)
    ensures volume <= pages * (room / 100.0) <==> volume * 100.0 <= pages * room
  {
    assert pages * (room / 100.0) * 100.0 == pages * room;
  }

  /** The table estimate is exact for volumes: `pages` are at least the estimate exactly
      when they split into heap and TOAST pages that suffice. */
  lemma TableEstimateIff(s: TableStats, n: nat, pages: nat)
    requires s.Sound() && s.fillfactor > 0 && s.tuples == n as real
    ensures EstimatedTablePages(s).Some?
    ensures EstimatedTablePages(s).value <= pages <==>
            exists heap: nat, toast: nat :: PagesSuffice(s, heap, toast) && heap + toast == pages
  {
    HeapPagesSuffice(s, n, 0, 0);
    var heap := HeapPages(s).value;
    if EstimatedTablePages(s).value <= pages {
      HeapPagesSuffice(s, n, heap, pages - heap);
      assert PagesSuffice(s, heap, pages - heap) && heap + (pages - heap) == pages;
    }
    if h: nat, c: nat :| PagesSuffice(s, h, c) && h + c == pages {
      HeapPagesSuffice(s, n, h, c);
    }
  }

  /** Reported bloat is an upper bound: whatever packing a rewrite gives the tuples, it
      cannot free more than reported once TOAST has pages for its chunks.  It is no
      more than that: some pages that suffice leave exactly the reported bytes. */
  lemma TableBloatIsUpperBound(s: TableStats, n: nat, packed: nat, toast: nat)
    requires s.Sound() && s.fillfactor > 0 && s.tuples == n as real && s.heapPages > 0
    ensures var pages := s.heapPages + s.toastPages;
            var bloat := ReportOf(s.blockSize, pages, EstimatedTablePages(s)).bloatBytes;
            && (Fits(n, packed, s.tupleSize, HeapCapacity(s)) && s.toastTuples <= (4 * toast) as real ==>
                  bloat >= s.blockSize * (pages - (packed + toast)))
            && (bloat == 0 || exists h: nat, c: nat :: PagesSuffice(s, h, c) &&
                                                       bloat == s.blockSize * (pages - (h + c)))
  {
    var pages, e := s.heapPages + s.toastPages, EstimatedTablePages(s);
    TableEstimateNotNegative(s);
    if Fits(n, packed, s.tupleSize, HeapCapacity(s)) && s.toastTuples <= (4 * toast) as real {
      HeapPagesIsLowerBound(s, n, packed);
      CeilAtMost(s.toastTuples / 4.0, toast);
      BytesFreed(s.blockSize, pages - e.value, pages - (packed + toast));
    }
    if pages > e.value {
      var h, c := SufficientPages(s, n);
      assert PagesSuffice(s, h, c) && s.blockSize * (pages - (h + c)) == s.blockSize * (pages - e.value);
    }
  }

  lemma SufficientPages(s: TableStats, n: nat) returns (heap: nat, toast: nat)
    requires s.Sound() && s.fillfactor > 0 && s.tuples == n as real
    ensures PagesSuffice(s, heap, toast) && EstimatedTablePages(s) == Some(heap + toast)
  {
    TableEstimateNotNegative(s);
    TableEstimateIff(s, n, EstimatedTablePages(s).value);
    heap, toast :| PagesSuffice(s, heap, toast) && heap + toast == EstimatedTablePages(s).value;
  }

  lemma BytesFreed(blockSize: nat, reported: int, freed: int)
    requires freed <= reported
    ensures (if reported > 0 then blockSize * reported else 0) >= blockSize * freed
  {
    if freed >= 0 {
      assert blockSize * (reported - freed) >= 0;
    } else {
      assert blockSize * -freed >= 0;
      assert reported > 0 ==> blockSize * reported >= 0;
    }
  }

  /** When not even one entry fits a page, the estimate collapses to zero pages and
      the whole index is reported as bloat; with one it never does. */
  lemma AllBloatIffNoEntryFits(s: IndexStats)
    requires s.Sound() && s.pages > 0
    ensures !HasRoom(1, 4.0 + s.tupleWidth, LeafCapacity(s)) <==>
            ReportOf(s.blockSize, s.pages, Some(EstimatedIndexPages(s))).bloatPct == 100.0
    ensures EstimatedIndexPages(s) >= 0
  {
    var k, e := EntriesPerPage(s), EstimatedIndexPages(s);
    EntriesPerPageIsExact(s);
    assert 1 <= k <==> HasRoom(1, 4.0 + s.tupleWidth, LeafCapacity(s));
    if k >= 1 {
      QuotientAtLeast(s.tuples, k as real, 0.0);
      CeilAtMost(s.tuples / k as real, -1);
      if s.pages > e {
        QuotientAtLeast(100.0 * (s.pages - e) as real, s.pages as real, 100.0);
      }
    } else {
      assert 100.0 * s.pages as real / s.pages as real == 100.0;
    }
  }

  /** Eight unanalysed columns at the default width of 1024 bytes do not fit a page: of
      an index that needs all its pages every byte is reported as bloat. */
  lemma WideEntriesAreAllBloat()
    ensures var s := IndexStats(10, 9.0, 90, 8192, IndexTupleWidth(false, 8192.0));
            && s.Sound() && !HasRoom(1, 4.0 + s.tupleWidth, LeafCapacity(s))
            && ReportOf(s.blockSize, s.pages, Some(EstimatedIndexPages(s))).bloatPct == 100.0
  {
    AllBloatIffNoEntryFits(IndexStats(10, 9.0, 90, 8192, IndexTupleWidth(false, 8192.0)));
  }
}
