/** Pagination of the web client's lists (vocabulary, templates, sentence library).
    Each list keeps `{ page, pageSize, totalPages }`; a load clamps the page to the page
    count the server's total implies, and the prev/next buttons move one page within
    range. */
module Pagination {

  /** A JavaScript number: a finite value, NaN, or an infinity. */
  datatype Num = Finite(value: real) | NaN | Infinity(negative: bool)

  /** `Number.isInteger(n)`. */
  predicate IsInteger(n: Num) {
    n.Finite? && n.value == n.value.Floor as real
  }

  /** `ensurePositiveInt(value, fallback)`, after `Number(value)`: the number itself
      when it is a positive integer, else the fallback. */
  function EnsurePositiveInt(n: Num, fallback: Num): (r: Num)
    ensures r == n || r == fallback
    ensures r == n <== IsInteger(n) && n.value > 0.0
    ensures r == fallback <== !(IsInteger(n) && n.value > 0.0)
  {
    if IsInteger(n) && n.value > 0.0 then n else fallback
  }

  /** With a positive integer fallback, as every caller passes (1), the result is a
      positive integer, and applying the coercion again changes nothing. */
  lemma EnsurePositiveIntIsPositive(n: Num, fallback: Num)
    requires IsInteger(fallback) && fallback.value > 0.0
    ensures IsInteger(EnsurePositiveInt(n, fallback)) && EnsurePositiveInt(n, fallback).value >= 1.0
    ensures EnsurePositiveInt(EnsurePositiveInt(n, fallback), fallback) == EnsurePositiveInt(n, fallback)
  {
    var r := EnsurePositiveInt(n, fallback);
    assert r.value.Floor >= 1;
  }

  /** NaN, the infinities, fractions, zero and negatives all fall back. */
  lemma EnsurePositiveIntRejects(fallback: Num)
    ensures EnsurePositiveInt(NaN, fallback) == fallback
    ensures EnsurePositiveInt(Infinity(false), fallback) == fallback
    ensures EnsurePositiveInt(Finite(2.5), fallback) == fallback
    ensures EnsurePositiveInt(Finite(0.0), fallback) == fallback
    ensures EnsurePositiveInt(Finite(-3.0), fallback) == fallback
  {
    assert (2.5).Floor == 2;
  }

  /** The page a load asks for: the stored page, which only ever holds integers, made
      a positive integer by `ensurePositiveInt(listState.page, 1)`. */
  function PageOrFirst(page: int): (p: int)
    ensures Finite(p as real) == EnsurePositiveInt(Finite(page as real), Finite(1.0))
    ensures p >= 1
  {
    if page > 0 then page else 1
  }

  /** `Math.ceil(x)`. */
  function Ceil(x: real): int {
    -((-x).Floor)
  }

  /** `Math.ceil(total / pageSize)`: the number of pages of `pageSize` items that hold
      `total` items. */
  function PagesFor(total: nat, pageSize: int): (c: int)
    requires pageSize >= 1
    ensures c >= 0
    ensures total <= c * pageSize
    ensures (c - 1) * pageSize < total || c == 0
  {
    var x := total as real / pageSize as real;
    var c := Ceil(x);
    assert (c - 1) as real < x <= c as real;
    assert (c - 1) as real * pageSize as real < total as real by {
      assert (c - 1) as real < x;
      assert x * pageSize as real == total as real;
    }
    assert total as real <= c as real * pageSize as real by {
      assert x <= c as real;
      assert x * pageSize as real == total as real;
    }
    c
  }

  /** `Math.max(1, Math.ceil(total / pageSize))`: the fewest pages that hold every
      item, but never fewer than one. */
  function TotalPages(total: nat, pageSize: int): (n: int)
    requires pageSize >= 1
    ensures n >= 1
    ensures total <= n * pageSize
    ensures n == 1 || (n - 1) * pageSize < total
  {
    var c := PagesFor(total, pageSize);
    if 1 > c then 1 else c
  }

  /** An empty list still has one page; exactly one more item than fits in n pages
      needs page n + 1. */
  lemma TotalPagesExamples(pageSize: int, n: nat)
    requires pageSize >= 1
    ensures TotalPages(0, pageSize) == 1
    ensures TotalPages(n * pageSize, pageSize) == if n == 0 then 1 else n
    ensures TotalPages(n * pageSize + 1, pageSize) == n + 1
  {
    var t := TotalPages(n * pageSize, pageSize);
    var u := TotalPages(n * pageSize + 1, pageSize);
    ScaleCancel(n, t, pageSize);
    ScaleCancel(t - 1, n, pageSize);
    ScaleCancel(n, u, pageSize);
    ScaleCancel(u - 1, n, pageSize);
  }

  /** Multiplying by a positive page size keeps the order of page numbers. */
  lemma ScaleCancel(a: int, b: int, k: int)
    requires k >= 1
    ensures a * k < b * k <==> a < b
    ensures a * k <= b * k <==> a <= b
  {
    if a < b {
      assert b * k == a * k + (b - a) * k;
    } else {
      assert a * k == b * k + (a - b) * k;
    }
  }

  /** `Math.min(page, totalPages)`. */
  function Clamp(page: int, totalPages: int): (p: int)
    ensures p <= page && p <= totalPages
    ensures p == page || p == totalPages
  {
    if page < totalPages then page else totalPages
  }

  /** The prev button: `Math.max(1, page - 1)`. */
  function Prev(page: int): (p: int)
    ensures p >= 1
    ensures p == page - 1 || p == 1
    ensures p <= page || page < 1
  {
    if 1 > page - 1 then 1 else page - 1
  }

  /** The next button: `Math.min(totalPages, page + 1)`. */
  function Next(page: int, totalPages: int): (p: int)
    ensures p <= totalPages
    ensures p == page + 1 || p == totalPages
    ensures p >= page || page > totalPages
  {
    if totalPages < page + 1 then totalPages else page + 1
  }

  /** After a load the page is a real page: between 1 and the page count. */
  lemma LoadedPageInRange(page: int, total: nat, pageSize: int)
    requires pageSize >= 1
    ensures 1 <= Clamp(PageOrFirst(page), TotalPages(total, pageSize)) <= TotalPages(total, pageSize)
    ensures PageOrFirst(page) <= TotalPages(total, pageSize) ==>
      Clamp(PageOrFirst(page), TotalPages(total, pageSize)) == PageOrFirst(page)
  {
  }

  /** Within range, prev and next stay in range, move by exactly one page except at
      the ends, and undo each other. */
  lemma {:induction false} NavigationKeepsRange(page: int, totalPages: int)
    requires 1 <= page <= totalPages
    ensures 1 <= Prev(page) <= totalPages && 1 <= Next(page, totalPages) <= totalPages
    ensures page > 1 ==> Prev(page) == page - 1 && Next(Prev(page), totalPages) == page
    ensures page < totalPages ==> Next(page, totalPages) == page + 1 && Prev(Next(page, totalPages)) == page
    ensures page == 1 ==> Prev(page) == page
    ensures page == totalPages ==> Next(page, totalPages) == page
  {
  }

  /** The pagination state of one list. */
  class ListState {
    var page: int
    var pageSize: int
    var totalPages: int

    /** A loaded list: a positive page size and a page between 1 and the page count. */
    ghost predicate Valid()
      reads this
    {
      pageSize >= 1 && 1 <= page <= totalPages
    }

    /** `{ page: 1, pageSize: 20, totalPages: 1 }`. */
    constructor ()
      ensures page == 1 && pageSize == 20 && totalPages == 1
      ensures Valid()
    {
      page := 1;
      pageSize := 20;
      totalPages := 1;
    }

    /** The end of a successful list load, once the server reported `total` items:
        the page count is recomputed and the requested page clamped to it. */
    method FinishLoad(total: nat)
      requires pageSize >= 1
      modifies this
      ensures pageSize == old(pageSize)
      ensures totalPages == TotalPages(total, pageSize)
      ensures page == Clamp(PageOrFirst(old(page)), totalPages)
      ensures Valid()
    {
      var requested := PageOrFirst(page);
      var pages := TotalPages(total, pageSize);
      totalPages := pages;
      page := Clamp(requested, pages);
      LoadedPageInRange(old(page), total, pageSize);
    }

    /** A click on a pagination button of direction `dir`; any direction but "prev"
        and "next" leaves the page alone. */
    method Click(dir: string)
      modifies this`page
      ensures dir == "prev" ==> page == Prev(old(page))
      ensures dir == "next" ==> page == Next(old(page), totalPages)
      ensures dir != "prev" && dir != "next" ==> page == old(page)
      ensures old(Valid()) ==> Valid()
    {
      if dir == "prev" {
        page := Prev(page);
      } else if dir == "next" {
        page := Next(page, totalPages);
      }
      if old(Valid()) {
        NavigationKeepsRange(old(page), totalPages);
      }
    }
  }
}
