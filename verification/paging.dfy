/** The 30-per-page pagination both employee pickers share: the page count, the slice a page
    shows, the next and previous buttons, and the effect that pulls the page back when the
    filtered list shrinks under it. */
module Paging {
  import opened Lists

  /** `EMPLOYEES_PER_PAGE`. */
  const PerPage: nat := 30

  /** `Math.ceil(n / EMPLOYEES_PER_PAGE)`. */
  function TotalPages(n: nat): (t: nat)
    ensures t * PerPage >= n
    ensures t > 0 ==> (t - 1) * PerPage < n
    ensures t == 0 <==> n == 0
  {
    (n + PerPage - 1) / PerPage
  }

  /** `filtered.slice(page * 30, page * 30 + 30)`; `slice` clamps both ends to the length. */
  function PageItems<T>(items: seq<T>, page: nat): (r: seq<T>)
    ensures |r| <= PerPage
    ensures forall i :: 0 <= i < |r| ==> page * PerPage + i < |items| && r[i] == items[page * PerPage + i]
    ensures |r| == 0 <==> page * PerPage >= |items|
    ensures page * PerPage + PerPage <= |items| ==> |r| == PerPage
  {
    items[Min(|items|, page * PerPage) .. Min(|items|, page * PerPage + PerPage)]
  }

  /** A page has items exactly when it is below the page count. */
  lemma PageNonEmpty<T>(items: seq<T>, page: nat)
    ensures |PageItems(items, page)| > 0 <==> page < TotalPages(|items|)
  {
  }

  /** The pages, in order, are the batches of 30 and together show every item once. */
  lemma PagesAreChunks<T>(items: seq<T>)
    ensures |Chunks(items, PerPage)| == TotalPages(|items|)
    ensures forall p :: 0 <= p < TotalPages(|items|) ==> Chunks(items, PerPage)[p] == PageItems(items, p)
    ensures Flatten(Chunks(items, PerPage)) == items
  {
    PageCount(items);
    forall p | 0 <= p < TotalPages(|items|) ensures Chunks(items, PerPage)[p] == PageItems(items, p) {
      ChunkAt(items, PerPage, p);
    }
    ChunksFlatten(items, PerPage);
  }

  /** There are as many batches of 30 as pages. */
  lemma {:induction false} PageCount<T>(items: seq<T>)
    ensures |Chunks(items, PerPage)| == TotalPages(|items|)
    decreases |items|
  {
    if |items| > PerPage {
      PageCount(items[PerPage..]);
    }
  }

  /** `handleNextPage`. */
  function Next(page: nat, n: nat): (r: nat)
    ensures r == page || r == page + 1
    ensures r == page + 1 <==> page + 1 < TotalPages(n)
  {
    if page < TotalPages(n) - 1 then page + 1 else page
  }

  /** `handlePreviousPage`. */
  function Previous(page: nat): (r: nat)
    ensures page > 0 ==> r == page - 1
    ensures page == 0 ==> r == 0
  {
    if page > 0 then page - 1 else page
  }

  /** `Math.max(totalPages - 1, 0)`. */
  function LastPage(n: nat): (r: nat)
    ensures r < TotalPages(n) || (n == 0 && r == 0)
    ensures n > 0 ==> r + 1 == TotalPages(n)
  {
    if TotalPages(n) > 0 then TotalPages(n) - 1 else 0
  }

  /** The page-clamping effect: a non-empty list whose current page shows nothing is sent to
      its last page. */
  function Clamp<T>(items: seq<T>, page: nat): (r: nat)
  {
    if |items| > 0 && |PageItems(items, page)| == 0 then LastPage(|items|) else page
  }

  /** The page is one the buttons can show: 0 for an empty list, else below the page count. */
  predicate InRange(page: nat, n: nat) {
    page <= LastPage(n)
  }

  /** After the clamp the page is in range, and a non-empty list shows a non-empty page; a
      page already in range is left alone. */
  lemma ClampInRange<T>(items: seq<T>, page: nat)
    ensures InRange(Clamp(items, page), |items|) || (|items| == 0 && Clamp(items, page) == page)
    ensures |items| > 0 ==> |PageItems(items, Clamp(items, page))| > 0
    ensures InRange(page, |items|) ==> Clamp(items, page) == page
  {
    PageNonEmpty(items, page);
    PageNonEmpty(items, Clamp(items, page));
  }

  /** Next and previous keep an in-range page in range. */
  lemma StepsStayInRange(page: nat, n: nat)
    requires InRange(page, n)
    ensures InRange(Next(page, n), n)
    ensures InRange(Previous(page), n)
  {
  }

  /** Previous undoes next, whenever next moved. */
  lemma PreviousUndoesNext(page: nat, n: nat)
    requires Next(page, n) != page
    ensures Previous(Next(page, n)) == page
  {
  }
}
