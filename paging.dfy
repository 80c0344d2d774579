/** The page arithmetic both directory pages share (src/pages/AdminPage.tsx:176-181,
    src/pages/InternListPage.tsx:99-104), with `Array.prototype.slice` index rules. */
module Paging {

  /** `Math.max(1, Math.ceil(n / size))`: enough pages for every item, at least one. */
  function PageCount(n: nat, size: int): (c: int)
    requires size >= 1
    ensures c >= 1
    ensures n <= c * size
    ensures c == 1 || (c - 1) * size < n
  {
    if n == 0 then 1
    else
      var q := (n + size - 1) / size;
      var m := (n + size - 1) % size;
      assert n + size - 1 == q * size + m;
      q
  }

  /** `Math.min(page, count)`. */
  function PageSafe(page: int, count: int): (p: int)
    ensures p <= count && p <= page
    ensures p == page || p == count
  {
    if page < count then page else count
  }

  /** How `slice` resolves one index: negative counts from the end, both clamp to the length. */
  function SliceIndex(i: int, n: nat): (k: nat)
    ensures k <= n
    ensures 0 <= i <= n ==> k == i
  {
    if i < 0 then (if n + i < 0 then 0 else n + i)
    else if i < n then i else n
  }

  /** `xs.slice(start, end)`. */
  function JsSlice<T>(xs: seq<T>, start: int, end: int): seq<T>
  {
    var lo := SliceIndex(start, |xs|);
    var hi := SliceIndex(end, |xs|);
    if lo < hi then xs[lo..hi] else []
  }

  /** `filtered.slice((pageSafe - 1) * size, pageSafe * size)`. */
  function Paged<T>(xs: seq<T>, page: int, size: int): seq<T>
    requires size >= 1
  {
    var ps := PageSafe(page, PageCount(|xs|, size));
    JsSlice(xs, (ps - 1) * size, ps * size)
  }

  lemma MulMono(a: int, b: int, size: int)
    requires size >= 1 && a <= b
    ensures a * size <= b * size
  {
  }

  /** From page one on, the shown page is the contiguous window of at most `size`
      items that starts at `(pageSafe - 1) * size`. */
  lemma PagedWindow<T>(xs: seq<T>, page: int, size: int)
    requires size >= 1 && page >= 1
    ensures var ps := PageSafe(page, PageCount(|xs|, size));
      var lo := (ps - 1) * size;
      var hi := if ps * size < |xs| then ps * size else |xs|;
      1 <= ps && 0 <= lo <= hi <= |xs| && Paged(xs, page, size) == xs[lo..hi]
    ensures |Paged(xs, page, size)| <= size
  {
    var c := PageCount(|xs|, size);
    var ps := PageSafe(page, c);
    MulMono(0, ps - 1, size);
    MulMono(ps - 1, c - 1, size);
    assert (ps - 1) * size <= |xs|;
    assert ps * size == (ps - 1) * size + size;
  }

  /** With at least one item and a page of one or more, the shown page is never empty. */
  lemma PagedNonEmpty<T>(xs: seq<T>, page: int, size: int)
    requires size >= 1 && page >= 1 && |xs| > 0
    ensures |Paged(xs, page, size)| >= 1
  {
    var c := PageCount(|xs|, size);
    var ps := PageSafe(page, c);
    PagedWindow(xs, page, size);
    MulMono(ps - 1, c - 1, size);
    assert (ps - 1) * size < |xs|;
    assert ps * size == (ps - 1) * size + size;
  }

  /** Every item is reachable: the item at `q * size + m` (with `0 <= m < size`) is
      shown at offset `m` of page `q + 1`, and that page is within the page count. */
  lemma PageOfIndex<T>(xs: seq<T>, size: int, q: nat, m: nat)
    requires size >= 1 && m < size && q * size + m < |xs|
    ensures q + 1 <= PageCount(|xs|, size)
    ensures m < |Paged(xs, q + 1, size)| && Paged(xs, q + 1, size)[m] == xs[q * size + m]
  {
    var c := PageCount(|xs|, size);
    if c < q + 1 {
      MulMono(c, q, size);
      assert false;
    }
    PagedWindow(xs, q + 1, size);
    assert PageSafe(q + 1, c) == q + 1;
    assert (q + 1) * size == q * size + size;
  }
}
