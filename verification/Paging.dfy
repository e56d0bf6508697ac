/** `DataContainer`: cutting the page asked for out of a list of items. */
module Paging {
  import opened Options
  import opened Seqs
  import opened ItemSorting

  /** The integers of Java's `int`. */
  const INT_LIMIT := 0x8000_0000

  /** `int` addition. */
  function AddInts(a: int, b: int): int
  {
    (a + b + INT_LIMIT) % (2 * INT_LIMIT) - INT_LIMIT
  }

  /** What is asked for: the number of a page, the page size and the sort keys. */
  datatype Pageable = Pageable(number: nat, size: nat, keys: seq<Key>)
  {
    predicate Valid()
    {
      number < INT_LIMIT && 0 < size < INT_LIMIT
    }

    /** `getOffset`, a `long` that holds any product of two `int`s. */
    function Offset(): nat
    {
      number * size
    }
  }

  /** A page with its content and the number of items on all pages, as Spring Data's `PageImpl` holds it. */
  datatype Page<T> = Page(content: seq<T>, pageable: Pageable, given: nat)
  {
    /** The total, corrected if the page is the last one by what it contains. */
    function Total(): nat
    {
      if content != [] && pageable.Offset() + pageable.size > given then pageable.Offset() + |content| else given
    }

    function TotalPages(): nat
      requires pageable.size > 0
    {
      (Total() + pageable.size - 1) / pageable.size
    }
  }

  /** The slice `setPage` cuts out; `None` where the end wraps around and `subList` throws. */
  function ExtractedPage<T>(items: seq<T>, pageable: Pageable): (r: Option<Page<T>>)
    requires pageable.Valid() && |items| < INT_LIMIT
  {
    var from := if pageable.Offset() < |items| then pageable.Offset() else 0;
    var end := AddInts(from, pageable.size);
    var to := if end > |items| then |items| else end;
    if to < from then None
    else Some(Page(items[from..to], Pageable(if from == 0 then 0 else pageable.number, pageable.size, pageable.keys), |items|))
  }

  /** `CallableDataSource.perform` redirects if the page's number is out of range. */
  predicate IsInvalidPage<T>(page: Page<T>)
    requires page.pageable.size > 0
  {
    page.TotalPages() > 0 && page.pageable.number >= page.TotalPages()
  }

  // ---------- what is cut out ----------

  lemma NoWrap(a: nat, b: nat)
    requires a < INT_LIMIT && b < INT_LIMIT
    ensures a + b < INT_LIMIT ==> AddInts(a, b) == a + b
    ensures a + b >= INT_LIMIT ==> AddInts(a, b) < 0
  {
  }

  lemma RoundedUp(n: nat, size: nat, p: nat)
    requires size > 0
    ensures p < (n + size - 1) / size <==> p * size < n
  {
    var q := (n + size - 1) / size;
    assert n + size - 1 == q * size + (n + size - 1) % size;
    if p < q {
      assert (p + 1) * size <= q * size;
    } else {
      assert q * size <= p * size;
    }
  }

  /**
   The page exists exactly if the end of the slice does not exceed the `int` range. It starts at its number times
   the page size, it holds what is there up to the page size, and its total is the number of items.
   A page out of range yields page 0.
   */
  lemma PageIsSlice<T>(items: seq<T>, pageable: Pageable)
    requires pageable.Valid() && |items| < INT_LIMIT
    ensures var p := if pageable.Offset() < |items| then pageable.number else 0;
            var r := ExtractedPage(items, pageable);
            && (r.Some? <==> p * pageable.size + pageable.size <= 2147483647)
            && (r.Some? ==>
                  && r.value.pageable == Pageable(p, pageable.size, pageable.keys) && r.value.Total() == |items|
                  && r.value.content == PageOf(items, pageable.size, p))
  {
    var from := if pageable.Offset() < |items| then pageable.Offset() else 0;
    NoWrap(from, pageable.size);
  }

  /** The p-th page of a list. */
  function PageOf<T>(items: seq<T>, size: nat, p: nat): seq<T>
  {
    if p * size >= |items| then []
    else if p * size + size >= |items| then items[p * size..]
    else items[p * size..p * size + size]
  }

  /** The first pages one after the other. */
  function FirstPages<T>(items: seq<T>, size: nat, pages: nat): seq<T>
  {
    if pages == 0 then [] else FirstPages(items, size, pages - 1) + PageOf(items, size, pages - 1)
  }

  lemma {:induction false} FirstPagesArePrefix<T>(items: seq<T>, size: nat, pages: nat)
    ensures FirstPages(items, size, pages) == if pages * size < |items| then items[..pages * size] else items
    requires size > 0
  {
    if pages > 0 {
      FirstPagesArePrefix(items, size, pages - 1);
      NextPage(items, size, pages - 1);
    }
  }

  lemma NextPage<T>(items: seq<T>, size: nat, p: nat)
    requires size > 0
    ensures (if p * size < |items| then items[..p * size] else items) + PageOf(items, size, p)
         == if (p + 1) * size < |items| then items[..(p + 1) * size] else items
  {
    assert (p + 1) * size == p * size + size;
  }

  /** All pages together are the whole list: each item is on one page, in order. */
  lemma PagesAreTheList<T>(items: seq<T>, size: nat)
    requires size > 0
    ensures FirstPages(items, size, (|items| + size - 1) / size) == items
  {
    var pages := (|items| + size - 1) / size;
    FirstPagesArePrefix(items, size, pages);
    RoundedUp(|items|, size, pages);
  }

  /** A page is out of range exactly if there are items and it would start behind them. */
  lemma InvalidIff<T>(page: Page<T>)
    requires page.pageable.size > 0
    ensures IsInvalidPage(page) <==> page.Total() > 0 && page.pageable.number * page.pageable.size >= page.Total()
  {
    RoundedUp(page.Total(), page.pageable.size, page.pageable.number);
    RoundedUp(page.Total(), page.pageable.size, 0);
  }

  /** A container filled by `setPage` never makes `CallableDataSource` redirect because of an invalid page. */
  lemma NeverInvalid<T>(items: seq<T>, pageable: Pageable)
    requires pageable.Valid() && |items| < INT_LIMIT && ExtractedPage(items, pageable).Some?
    ensures !IsInvalidPage(ExtractedPage(items, pageable).value)
  {
    var page := ExtractedPage(items, pageable).value;
    PageIsSlice(items, pageable);
    RoundedUp(|items|, pageable.size, page.pageable.number);
  }

  class DataContainer {
    var singleResult: bool
    var page: Option<Page<Item>>
    var pageable: Option<Pageable>
    var paginate: Option<bool>

    constructor ()
      ensures !singleResult && page == None && pageable == None && paginate == None
    {
      singleResult, page, pageable, paginate := false, None, None, None;
    }

    method SetPageable(pageable: Option<Pageable>)
      modifies `pageable, `paginate
      ensures this.pageable == pageable
      ensures paginate == if pageable.None? then Some(false) else old(paginate)
    {
      this.pageable := pageable;
      if pageable.None? {
        paginate := Some(false);
      }
    }

    /** `setPage` on a collection; `thrown` where `subList` throws. */
    method SetPage(items: seq<Item>, pageable: Pageable, skipSort: bool, fold: char -> char) returns (thrown: bool)
      requires pageable.Valid() && |items| < INT_LIMIT
      modifies `page, `singleResult, `pageable, `paginate
      ensures paginate == old(paginate)
      ensures var sorted := if skipSort then items else DoSort(items, pageable.keys, fold);
              && |sorted| == |items|
              && thrown == ExtractedPage(sorted, pageable).None?
              && (thrown ==> unchanged(this))
              && (!thrown ==> page == ExtractedPage(sorted, pageable) && !singleResult
                              && this.pageable == Some(page.value.pageable))
    {
      var sorted := items;
      DoSortKeepsSize(items, pageable.keys, fold);
      if !skipSort {
        sorted := DoSort(items, pageable.keys, fold);
      }
      var size := |sorted|;
      var fromIndex := if pageable.Offset() < size then pageable.Offset() else 0;
      var toIndex := AddInts(fromIndex, pageable.size);
      toIndex := if toIndex > size then size else toIndex;
      if toIndex < fromIndex {
        return true;
      }
      var currentPage := if fromIndex == 0 then 0 else pageable.number;
      var extracted := Pageable(currentPage, pageable.size, pageable.keys);
      page := Some(Page(sorted[fromIndex..toIndex], extracted, size));
      singleResult := false;
      SetPageable(Some(extracted));
      return false;
    }
  }
}
