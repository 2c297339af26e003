/** Equal tuples packed into pages of equal capacity: the reference the two
    estimators are measured against. */
module Packing {
  import opened Rounding

  /** `page[t]` is the page that holds tuple `t`; tuples are not split. */
  ghost predicate IsPacking(page: seq<int>, pages: nat, width: real, capacity: real) {
    && (forall t | 0 <= t < |page| :: 0 <= page[t] < pages)
    && (forall p | 0 <= p < pages :: HasRoom(OnPage(page, p), width, capacity))
  }

  predicate HasRoom(tuples: nat, width: real, capacity: real) {
    tuples as real * width <= capacity
  }

  ghost function OnPage(page: seq<int>, p: int): nat {
    if page == [] then 0
    else
      var n := |page| - 1;
      OnPage(page[..n], p) + if page[n] == p then 1 else 0
  }

  /** `n` tuples fit on `pages` pages. */
  ghost predicate Fits(n: nat, pages: nat, width: real, capacity: real) {
    exists page :: |page| == n && IsPacking(page, pages, width, capacity)
  }

  ghost function Elsewhere(page: seq<int>, p: int): seq<int> {
    if page == [] then []
    else
      var n := |page| - 1;
      Elsewhere(page[..n], p) + if page[n] == p then [] else [page[n]]
  }

  lemma {:induction false} ElsewhereCounts(page: seq<int>, p: int)
    ensures |page| == |Elsewhere(page, p)| + OnPage(page, p)
    ensures forall q :: OnPage(Elsewhere(page, p), q) == if q == p then 0 else OnPage(page, q)
  {
    if page != [] {
      var n := |page| - 1;
      ElsewhereCounts(page[..n], p);
      var rest := Elsewhere(page[..n], p);
      assert rest + [] == rest && (rest + [page[n]])[..|rest|] == rest;
    }
  }

  lemma {:induction false} ElsewhereRange(page: seq<int>, pages: nat)
    requires forall t | 0 <= t < |page| :: 0 <= page[t] < pages + 1
    ensures forall t | 0 <= t < |Elsewhere(page, pages)| :: 0 <= Elsewhere(page, pages)[t] < pages
  {
    if page != [] {
      ElsewhereRange(page[..|page| - 1], pages);
    }
  }

  /** `n` times `unit` as a sum, which keeps products out of the counting. */
  ghost function Total(n: nat, unit: real): real {
    if n == 0 then 0.0 else Total(n - 1, unit) + unit
  }

  lemma {:induction false} TotalIsProduct(n: nat, unit: real)
    ensures Total(n, unit) == n as real * unit
  {
    if n > 0 {
      TotalIsProduct(n - 1, unit);
    }
  }

  lemma {:induction false} TotalAdds(m: nat, n: nat, unit: real)
    ensures Total(m + n, unit) == Total(m, unit) + Total(n, unit)
  {
    if n > 0 {
      TotalAdds(m, n - 1, unit);
    }
  }

  lemma {:induction false} TotalVolume(page: seq<int>, pages: nat, width: real, capacity: real)
    requires forall t | 0 <= t < |page| :: 0 <= page[t] < pages
    requires forall p | 0 <= p < pages :: Total(OnPage(page, p), width) <= capacity
    ensures Total(|page|, width) <= Total(pages, capacity)
    decreases pages
  {
    if pages == 0 {
      NoPageNoTuple(page, pages);
    } else {
      var last := pages - 1;
      var rest := Elsewhere(page, last);
      ElsewhereCounts(page, last);
      ElsewhereRange(page, last);
      TotalVolume(rest, last, width, capacity);
      TotalAdds(|rest|, OnPage(page, last), width);
    }
  }

  lemma NoPageNoTuple(page: seq<int>, pages: nat)
    requires forall t | 0 <= t < |page| :: 0 <= page[t] < pages
    ensures pages == 0 ==> page == []
  {
    if page != [] {
      assert 0 <= page[0] < pages;
    }
  }

  lemma PageTotals(page: seq<int>, pages: nat, width: real, capacity: real)
    requires IsPacking(page, pages, width, capacity)
    ensures forall p | 0 <= p < pages :: Total(OnPage(page, p), width) <= capacity
  {
    forall p | 0 <= p < pages ensures Total(OnPage(page, p), width) <= capacity {
      TotalIsProduct(OnPage(page, p), width);
      assert HasRoom(OnPage(page, p), width, capacity);
    }
  }

  /** The tuples of a packing take no more room than its pages have. */
  lemma Volume(page: seq<int>, pages: nat, width: real, capacity: real)
    requires IsPacking(page, pages, width, capacity)
    ensures |page| as real * width <= pages as real * capacity
  {
    PageTotals(page, pages, width, capacity);
    TotalVolume(page, pages, width, capacity);
    TotalIsProduct(|page|, width);
    TotalIsProduct(pages, capacity);
  }

  /** Filling `k` tuples to a page in order. */
  ghost function InOrder(n: nat, k: nat): seq<int>
    requires k > 0
  {
    if n == 0 then [] else InOrder(n - 1, k) + [(n - 1) / k]
  }

  lemma {:induction false} InOrderCounts(n: nat, k: nat)
    requires k > 0
    ensures |InOrder(n, k)| == n
    ensures forall p: nat :: OnPage(InOrder(n, k), p) == FillOf(n, k, p)
  {
    if n > 0 {
      InOrderCounts(n - 1, k);
      var last := (n - 1) / k;
      assert InOrder(n, k)[..n - 1] == InOrder(n - 1, k);
      forall p: nat ensures OnPage(InOrder(n, k), p) == FillOf(n, k, p) {
        FillStep(n - 1, k, p);
      }
    }
  }

  /** How many of the first `n` tuples land on page `p`. */
  ghost function FillOf(n: nat, k: nat, p: nat): nat {
    if n <= p * k then 0 else if n <= p * k + k then n - p * k else k
  }

  lemma FillStep(n: nat, k: nat, p: nat)
    requires k > 0
    ensures FillOf(n + 1, k, p) == FillOf(n, k, p) + if p == n / k then 1 else 0
  {
    if p * k <= n < p * k + k {
      DivisionIsUnique(n, k, p, n - p * k);
    } else {
      assert n == k * (n / k) + n % k;
      assert p != n / k;
    }
  }

  lemma {:induction false} InOrderRange(n: nat, k: nat, pages: nat)
    requires k > 0 && n <= pages * k
    ensures |InOrder(n, k)| == n
    ensures forall t | 0 <= t < n :: 0 <= InOrder(n, k)[t] < pages
  {
    if n > 0 {
      InOrderRange(n - 1, k, pages);
      PageInRange(n - 1, k, pages);
    }
  }

  lemma PageInRange(t: nat, k: nat, pages: nat)
    requires k > 0 && t < pages * k
    ensures 0 <= t / k < pages
  {}

  /** At most `k` whole tuples fit a page. */
  ghost predicate TuplesPerPage(k: nat, width: real, capacity: real) {
    forall c: nat :: c <= k <==> HasRoom(c, width, capacity)
  }

  lemma FloorIsTuplesPerPage(width: real, capacity: real)
    requires width > 0.0 && capacity >= 0.0
    ensures 0 <= (capacity / width).Floor
    ensures TuplesPerPage((capacity / width).Floor, width, capacity)
  {
    QuotientAtLeast(capacity, width, 0.0);
    forall c: nat ensures c <= (capacity / width).Floor <==> HasRoom(c, width, capacity) {
      QuotientAtLeast(capacity, width, c as real);
      FloorAtLeast(capacity / width, c);
    }
  }

  /** `n` tuples fit on `pages` pages exactly when `pages` times the tuples per page
      reaches `n`. */
  lemma FitsIff(n: nat, pages: nat, width: real, capacity: real, k: nat)
    requires TuplesPerPage(k, width, capacity)
    ensures Fits(n, pages, width, capacity) <==> n <= pages * k
  {
    if Fits(n, pages, width, capacity) {
      var page :| |page| == n && IsPacking(page, pages, width, capacity);
      PackedAtMost(page, pages, width, capacity, k);
    }
    if n <= pages * k {
      if k == 0 {
        assert HasRoom(0, width, capacity);
        assert IsPacking([], pages, width, capacity);
      } else {
        InOrderPacks(n, pages, width, capacity, k);
      }
    }
  }

  lemma PackedAtMost(page: seq<int>, pages: nat, width: real, capacity: real, k: nat)
    requires TuplesPerPage(k, width, capacity) && IsPacking(page, pages, width, capacity)
    ensures |page| <= pages * k
  {
    forall p | 0 <= p < pages ensures HasRoom(OnPage(page, p), 1.0, k as real) {
      assert HasRoom(OnPage(page, p), width, capacity);
    }
    Volume(page, pages, 1.0, k as real);
  }

  lemma InOrderPacks(n: nat, pages: nat, width: real, capacity: real, k: nat)
    requires TuplesPerPage(k, width, capacity) && k > 0 && n <= pages * k
    ensures IsPacking(InOrder(n, k), pages, width, capacity) && |InOrder(n, k)| == n
  {
    InOrderCounts(n, k);
    InOrderRange(n, k, pages);
    forall p | 0 <= p < pages ensures HasRoom(OnPage(InOrder(n, k), p), width, capacity) {
      assert FillOf(n, k, p) <= k;
    }
  }
}
