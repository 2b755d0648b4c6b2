/** Client-side pagination of the admin tables: the `usePagination` hook
    (page slicing with JS `Array.prototype.slice` and `Math.ceil`) and the
    Previous / page-link / Next controls that move the current page. */
module Pagination {

  /** The hook's default page size. */
  const DefaultItemsPerPage: nat := 10

  /** The hook's initial page (`useState(1)`). */
  const FirstPage: int := 1

  /** How `slice` reads one bound: a negative index counts from the end
      (and stops at 0), a positive one stops at the length. */
  function Clamp(i: int, n: nat): (j: nat)
    ensures j <= n
    ensures 0 <= i <= n ==> j == i
    ensures i > n ==> j == n
    ensures i < 0 ==> j == if n + i < 0 then 0 else n + i
  {
    if i < 0 then (if n + i < 0 then 0 else n + i)
    else if i > n then n
    else i
  }

  /** `s.slice(start, end)`. */
  function JsSlice<T>(s: seq<T>, start: int, end: int): (r: seq<T>)
    ensures |r| <= |s|
  {
    var a := Clamp(start, |s|);
    var b := Clamp(end, |s|);
    if a < b then s[a..b] else []
  }

  /** `Math.ceil(n / k)` for a positive page size. */
  function TotalPages(n: nat, k: nat): (t: nat)
    requires k > 0
    ensures t * k >= n
    ensures t > 0 ==> (t - 1) * k < n
    ensures t == 0 <==> n == 0
  {
    (n + k - 1) / k
  }

  /** `paginatedData`: the items of page `page`. */
  function PageItems<T>(data: seq<T>, page: int, k: nat): (r: seq<T>)
  {
    var start := (page - 1) * k;
    JsSlice(data, start, start + k)
  }

  /** A page from 1 on holds the items from `(page - 1) * k` up to `page * k`
      (or the end of the data): at most `k` of them, in data order. */
  lemma PageContents<T>(data: seq<T>, page: int, k: nat)
    requires page >= 1
    ensures var start := (page - 1) * k;
            var end := if page * k < |data| then page * k else |data|;
            PageItems(data, page, k) == if start < |data| then data[start..end] else []
    ensures |PageItems(data, page, k)| <= k
  {
    assert (page - 1) * k >= 0;
    assert (page - 1) * k + k == page * k;
  }

  /** Exactly the pages 1 .. TotalPages hold items: page 0 and every page
      after the last are empty. */
  lemma NonEmptyPages<T>(data: seq<T>, page: int, k: nat)
    requires k > 0 && page >= 0
    ensures PageItems(data, page, k) != [] <==> 1 <= page <= TotalPages(|data|, k)
  {
    var t := TotalPages(|data|, k);
    if page == 0 {
      assert PageItems(data, page, k) == [];
    } else {
      PageContents(data, page, k);
      if page <= t {
        MulMonotone(page - 1, t - 1, k);
      } else {
        MulMonotone(t, page - 1, k);
      }
    }
  }

  lemma MulMonotone(a: nat, b: nat, k: nat)
    requires a <= b
    ensures a * k <= b * k
  {
  }

  /** The items of pages `page`, `page + 1`, ..., TotalPages, in order. */
  function PagesFrom<T>(data: seq<T>, page: nat, k: nat): seq<T>
    requires k > 0 && page >= 1
    decreases TotalPages(|data|, k) + 1 - page
  {
    if page > TotalPages(|data|, k) then []
    else PageItems(data, page, k) + PagesFrom(data, page + 1, k)
  }

  /** Reading every page in turn shows every item exactly once, in data
      order: the pages partition the data. */
  lemma PagesPartitionData<T>(data: seq<T>, k: nat)
    requires k > 0
    ensures PagesFrom(data, 1, k) == data
  {
    PagesFromIsSuffix(data, 1, k);
  }

  /** A page past the last that starts within the data starts at its end. */
  lemma PastLastPage(n: nat, page: nat, k: nat)
    requires k > 0 && page >= 1 && (page - 1) * k <= n && page > TotalPages(n, k)
    ensures (page - 1) * k == n
  {
    MulMonotone(TotalPages(n, k), page - 1, k);
  }

  /** A page up to the last starts inside the data. */
  lemma WithinLastPage(n: nat, page: nat, k: nat)
    requires k > 0 && 1 <= page <= TotalPages(n, k)
    ensures (page - 1) * k < n
    ensures page * k == (page - 1) * k + k
  {
    MulMonotone(page - 1, TotalPages(n, k) - 1, k);
  }

  /** Only the last page runs past the end of the data. */
  lemma OnlyLastPageOverruns(n: nat, page: nat, k: nat)
    requires k > 0 && 1 <= page <= TotalPages(n, k) && page * k > n
    ensures page == TotalPages(n, k)
  {
    if page < TotalPages(n, k) {
      MulMonotone(page, TotalPages(n, k) - 1, k);
    }
  }

  /** A full page followed by the rest of the data is the data from the
      page's start. */
  lemma PageThenRest<T>(data: seq<T>, page: nat, k: nat)
    requires k > 0 && page >= 1 && page * k <= |data|
    ensures PageItems(data, page, k) + data[page * k..] == data[(page - 1) * k..]
  {
    PageContents(data, page, k);
    var start := (page - 1) * k;
    var end := page * k;
    assert end == start + k;
    assert data[start..] == data[start..end] + data[end..];
  }

  lemma {:induction false} PagesFromIsSuffix<T>(data: seq<T>, page: nat, k: nat)
    requires k > 0 && page >= 1
    ensures (page - 1) * k <= |data| ==> PagesFrom(data, page, k) == data[(page - 1) * k..]
    decreases TotalPages(|data|, k) + 1 - page
  {
    if (page - 1) * k <= |data| {
      if page > TotalPages(|data|, k) {
        PastLastPage(|data|, page, k);
      } else if page * k <= |data| {
        PagesFromIsSuffix(data, page + 1, k);
        SuffixFromFullPage(data, page, k);
      } else {
        SuffixFromLastPage(data, page, k);
      }
    }
  }

  /** A full page followed by the pages after it is the data from the
      page's start. */
  lemma SuffixFromFullPage<T>(data: seq<T>, page: nat, k: nat)
    requires k > 0 && page >= 1
    requires page * k <= |data|
    requires page <= TotalPages(|data|, k)
    requires PagesFrom(data, page + 1, k) == data[page * k..]
    ensures PagesFrom(data, page, k) == data[(page - 1) * k..]
  {
    PageThenRest(data, page, k);
  }

  /** The last page, when it is not full, runs to the end of the data. */
  lemma SuffixFromLastPage<T>(data: seq<T>, page: nat, k: nat)
    requires k > 0 && 1 <= page <= TotalPages(|data|, k) && page * k > |data|
    ensures (page - 1) * k <= |data|
    ensures PagesFrom(data, page, k) == data[(page - 1) * k..]
  {
    OnlyLastPageOverruns(|data|, page, k);
    WithinLastPage(|data|, page, k);
    LastPageAlone(data, page, k);
    OverrunPageItems(data, page, k);
  }

  lemma LastPageAlone<T>(data: seq<T>, page: nat, k: nat)
    requires k > 0 && page >= 1 && page == TotalPages(|data|, k)
    ensures PagesFrom(data, page, k) == PageItems(data, page, k)
  {
    assert PagesFrom(data, page + 1, k) == [];
  }

  /** A page that starts inside the data and runs past its end holds the
      rest of the data. */
  lemma OverrunPageItems<T>(data: seq<T>, page: nat, k: nat)
    requires page >= 1 && (page - 1) * k < |data| < page * k
    ensures PageItems(data, page, k) == data[(page - 1) * k..]
  {
    PageContents(data, page, k);
  }



  // ---------------------------------------------------------------------
  // The controls
  // ---------------------------------------------------------------------

  /** The page links `1 .. totalPages`. */
  function PageLinks(total: nat): (links: seq<int>)
    ensures |links| == total
  {
    seq(total, i => i + 1)
  }

  /** The links are the pages 1 .. total, each once, in increasing order. */
  lemma PageLinksAreThePages(total: nat)
    ensures forall i, j :: 0 <= i < j < total ==> PageLinks(total)[i] < PageLinks(total)[j]
    ensures forall p :: p in PageLinks(total) <==> 1 <= p <= total
  {
    var links := PageLinks(total);
    forall p | 1 <= p <= total ensures p in links {
      assert links[p - 1] == p;
    }
  }

  /** `Math.max(currentPage - 1, 1)`. */
  function Previous(current: int): (p: int)
    ensures p >= 1
    ensures current > 1 ==> p == current - 1
  {
    if current - 1 > 1 then current - 1 else 1
  }

  /** `Math.min(currentPage + 1, totalPages)`. */
  function Next(current: int, total: nat): (p: int)
    ensures p <= total
    ensures current < total ==> p == current + 1
  {
    if current + 1 < total then current + 1 else total
  }

  datatype Click = PreviousClick | LinkClick(page: int) | NextClick

  /** A click can only land on a link that is rendered. */
  predicate Rendered(c: Click, total: nat) {
    c.LinkClick? ==> c.page in PageLinks(total)
  }

  /** The page the hook holds after a click. */
  function AfterClick(current: int, total: nat, c: Click): int {
    match c
    case PreviousClick => Previous(current)
    case LinkClick(p) => p
    case NextClick => Next(current, total)
  }

  /** The pages the controls can reach: 1 .. total, and additionally 0 when
      there are no pages (Next then sets `Math.min(2, 0)`). */
  predicate InRange(current: int, total: nat) {
    if total == 0 then current == 0 || current == 1 else 1 <= current <= total
  }

  /** Clicks keep the current page in range. */
  lemma ClickKeepsRange(current: int, total: nat, c: Click)
    requires InRange(current, total) && Rendered(c, total)
    ensures InRange(AfterClick(current, total, c), total)
  {
    if c.LinkClick? {
      PageLinksAreThePages(total);
    }
  }

  function AfterClicks(current: int, total: nat, cs: seq<Click>): int
    decreases |cs|
  {
    if cs == [] then current else AfterClicks(AfterClick(current, total, cs[0]), total, cs[1..])
  }

  /** From the initial page, any run of clicks on rendered controls shows
      a page in range; when there is data, that page is not empty. */
  lemma {:induction false} ReachablePagesInRange<T>(data: seq<T>, k: nat, cs: seq<Click>)
    requires k > 0
    requires forall i :: 0 <= i < |cs| ==> Rendered(cs[i], TotalPages(|data|, k))
    ensures InRange(AfterClicks(FirstPage, TotalPages(|data|, k), cs), TotalPages(|data|, k))
    ensures data != [] ==> PageItems(data, AfterClicks(FirstPage, TotalPages(|data|, k), cs), k) != []
  {
    var t := TotalPages(|data|, k);
    ClicksKeepRange(FirstPage, t, cs);
    NonEmptyPages(data, AfterClicks(FirstPage, t, cs), k);
  }

  lemma {:induction false} ClicksKeepRange(current: int, total: nat, cs: seq<Click>)
    requires InRange(current, total)
    requires forall i :: 0 <= i < |cs| ==> Rendered(cs[i], total)
    ensures InRange(AfterClicks(current, total, cs), total)
    decreases |cs|
  {
    if cs != [] {
      ClickKeepsRange(current, total, cs[0]);
      ClicksKeepRange(AfterClick(current, total, cs[0]), total, cs[1..]);
    }
  }

  /** Previous undoes Next and Next undoes Previous away from the ends. */
  lemma PreviousNextInverse(current: int, total: nat)
    ensures 1 <= current < total ==> Previous(Next(current, total)) == current
    ensures 1 < current <= total ==> Next(Previous(current), total) == current
  {
  }
}
