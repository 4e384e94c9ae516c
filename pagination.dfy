/**
 * The page arithmetic of the repository's findAll: a listing is cut at
 * offset (page - 1) * limit into at most `limit` items, and the metadata
 * echoes the request and reports the page count and neighbours.
 */
module Pagination {

  /** IPaginationMeta. */
  datatype PageMeta = PageMeta(
    currentPage: nat,
    itemsPerPage: nat,
    totalItems: nat,
    totalPages: nat,
    hasNextPage: bool,
    hasPreviousPage: bool)

  /** IPaginatedResponse: one page of data and its metadata. */
  datatype Paginated<T> = Paginated(data: seq<T>, meta: PageMeta)

  /** The number of rows skipped before page `page`. */
  function Offset(limit: nat, page: nat): nat
    requires page >= 1
  {
    (page - 1) * limit
  }

  lemma MulMonotone(a: nat, b: nat, k: nat)
    requires a <= b
    ensures a * k <= b * k
  {
  }

  /**
   * Math.ceil(total / limit): the least page count whose pages hold
   * every item, which is 0 for an empty listing.
   */
  function TotalPages(total: nat, limit: nat): (pages: nat)
    requires limit >= 1
    ensures total <= pages * limit
    ensures pages == 0 || (pages - 1) * limit < total
    ensures pages == 0 <==> total == 0
  {
    var q := total / limit;
    var r := total % limit;
    assert total == q * limit + r;
    if r == 0 then q
    else
      assert (q + 1) * limit == q * limit + limit;
      q + 1
  }

  /**
   * A page number is below the page count exactly when some item lies
   * after that page.
   */
  lemma {:induction false} BelowTotalPagesIff(total: nat, limit: nat, page: nat)
    requires limit >= 1
    ensures page < TotalPages(total, limit) <==> page * limit < total
  {
    var tp := TotalPages(total, limit);
    if page < tp {
      MulMonotone(page, tp - 1, limit);
    } else {
      MulMonotone(tp, page, limit);
    }
  }

  /** The metadata of findAll for a listing of `total` items. */
  function Meta(total: nat, limit: nat, page: nat): (meta: PageMeta)
    requires limit >= 1 && page >= 1
    ensures meta.currentPage == page && meta.itemsPerPage == limit && meta.totalItems == total
    ensures meta.totalPages == TotalPages(total, limit)
    ensures meta.hasNextPage <==> page < meta.totalPages
    ensures meta.hasNextPage <==> page * limit < total
    ensures meta.hasPreviousPage <==> Offset(limit, page) > 0
  {
    var totalPages := TotalPages(total, limit);
    BelowTotalPagesIff(total, limit, page);
    PageMeta(page, limit, total, totalPages, page < totalPages, page > 1)
  }

  function Min(a: nat, b: nat): nat {
    if a <= b then a else b
  }

  /** The rows the query returns after skipping `skip` and taking `take`. */
  function Window<T>(s: seq<T>, skip: nat, take: nat): (w: seq<T>)
    ensures |w| == if skip >= |s| then 0 else Min(take, |s| - skip)
    ensures forall i :: 0 <= i < |w| ==> w[i] == s[skip + i]
  {
    if skip >= |s| then [] else s[skip..skip + Min(take, |s| - skip)]
  }

  /** findAll over a listing already in its fixed order. */
  function Paginate<T>(listing: seq<T>, limit: nat, page: nat): (r: Paginated<T>)
    requires limit >= 1 && page >= 1
    ensures |r.data| == if Offset(limit, page) >= |listing| then 0 else Min(limit, |listing| - Offset(limit, page))
    ensures forall i :: 0 <= i < |r.data| ==> r.data[i] == listing[Offset(limit, page) + i]
    ensures r.meta == Meta(|listing|, limit, page)
  {
    Paginated(Window(listing, Offset(limit, page), limit), Meta(|listing|, limit, page))
  }

  /** A page is empty exactly when it lies past the last page. */
  lemma {:induction false} EmptyIffPastLastPage<T>(listing: seq<T>, limit: nat, page: nat)
    requires limit >= 1 && page >= 1
    ensures Paginate(listing, limit, page).data == [] <==> page > TotalPages(|listing|, limit)
  {
    var tp := TotalPages(|listing|, limit);
    BelowTotalPagesIff(|listing|, limit, page - 1);
  }

  /**
   * A page past the end has no data and no next page; it still reports a
   * previous page whenever the listing is not empty.
   */
  lemma {:induction false} PastLastPage<T>(listing: seq<T>, limit: nat, page: nat)
    requires limit >= 1 && page >= 1
    requires page > TotalPages(|listing|, limit)
    ensures Paginate(listing, limit, page).data == []
    ensures !Paginate(listing, limit, page).meta.hasNextPage
    ensures Paginate(listing, limit, page).meta.currentPage == page
    ensures |listing| > 0 ==> Paginate(listing, limit, page).meta.hasPreviousPage
  {
    EmptyIffPastLastPage(listing, limit, page);
  }

  /** Every page before the last one is full. */
  lemma {:induction false} PageBeforeLastIsFull<T>(listing: seq<T>, limit: nat, page: nat)
    requires limit >= 1 && page >= 1
    requires page < TotalPages(|listing|, limit)
    ensures |Paginate(listing, limit, page).data| == limit
  {
    BelowTotalPagesIff(|listing|, limit, page);
  }

  /** Two different pages cover disjoint index ranges of the listing. */
  lemma {:induction false} PageRangesDisjoint(limit: nat, p1: nat, p2: nat, i: nat, j: nat)
    requires limit >= 1 && p1 >= 1 && p2 >= 1 && p1 != p2
    requires i < limit && j < limit
    ensures Offset(limit, p1) + i != Offset(limit, p2) + j
  {
    if p1 < p2 {
      MulMonotone(p1, p2 - 1, limit);
    } else {
      MulMonotone(p2, p1 - 1, limit);
    }
  }

  /** Over a listing without repeats, two different pages share no item. */
  lemma {:induction false} PagesDisjoint<T>(listing: seq<T>, limit: nat, p1: nat, p2: nat)
    requires limit >= 1 && p1 >= 1 && p2 >= 1 && p1 != p2
    requires forall a, b :: 0 <= a < b < |listing| ==> listing[a] != listing[b]
    ensures forall x :: x in Paginate(listing, limit, p1).data ==> x !in Paginate(listing, limit, p2).data
  {
    var d1, d2 := Paginate(listing, limit, p1).data, Paginate(listing, limit, p2).data;
    forall x | x in d1
      ensures x !in d2
    {
      var i :| 0 <= i < |d1| && d1[i] == x;
      forall j | 0 <= j < |d2|
        ensures d2[j] != x
      {
        PageRangesDisjoint(limit, p1, p2, i, j);
      }
    }
  }

  /** Item k of the listing is item k % limit of page k / limit + 1. */
  lemma {:induction false} EveryItemOnItsPage<T>(listing: seq<T>, limit: nat, k: nat)
    requires limit >= 1 && k < |listing|
    ensures var page := k / limit + 1;
      page <= TotalPages(|listing|, limit)
      && k % limit < |Paginate(listing, limit, page).data|
      && Paginate(listing, limit, page).data[k % limit] == listing[k]
  {
    var page := k / limit + 1;
    assert k == (page - 1) * limit + k % limit;
    BelowTotalPagesIff(|listing|, limit, page - 1);
  }

  /** Fifteen items in pages of five. */
  lemma FifteenItemsInPagesOfFive<T>(listing: seq<T>)
    requires |listing| == 15
    ensures Paginate(listing, 5, 1).meta.totalPages == 3
    ensures Paginate(listing, 5, 1).meta.hasNextPage && !Paginate(listing, 5, 1).meta.hasPreviousPage
    ensures !Paginate(listing, 5, 3).meta.hasNextPage && Paginate(listing, 5, 3).meta.hasPreviousPage
    ensures Paginate(listing, 5, 4).data == []
    ensures !Paginate(listing, 5, 4).meta.hasNextPage && Paginate(listing, 5, 4).meta.hasPreviousPage
  {
  }
}
