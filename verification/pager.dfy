/** Page arithmetic of the listing: the row offset a page request asks the
    storage for, and the number of the last page for a matching-row count. */
module Pager {
  import opened Wrappers

  /** The offset handed to the page query: `perPage * (page - 1)` for a
      positive page, 0 otherwise. Page 0 and page 1 both start at row 0. */
  function Skip(page: int, perPage: int): (skip: int)
    ensures page <= 1 ==> skip == 0
    ensures page >= 1 ==> skip == perPage * (page - 1)
  {
    if page > 0 then perPage * (page - 1) else 0
  }

  /** Ceiling of the exact quotient `a / b`, for a divisor of either sign. */
  function CeilDiv(a: int, b: int): (q: int)
    requires b != 0
    ensures b > 0 ==> (q - 1) * b < a <= q * b
    ensures b < 0 ==> q * b <= a < (q - 1) * b
  {
    if b > 0 then
      var m := (-a) / b;
      assert -a == m * b + (-a) % b;
      -m
    else
      var m := a / (-b);
      assert a == m * (-b) + a % (-b);
      -m
  }

  /** `Math.ceil(total / perPage)`. With `perPage == 0` the quotient is
      Infinity (or NaN for an empty count), which is no page number at all. */
  function LastPage(total: nat, perPage: int): (last: Option<int>)
    ensures last.None? <==> perPage == 0
    ensures last.Some? && perPage > 0 ==>
      (last.value - 1) * perPage < total <= last.value * perPage
    ensures last.Some? && perPage < 0 ==>
      last.value * perPage <= total < (last.value - 1) * perPage
    ensures total == 0 && perPage != 0 ==> last == Some(0)
    ensures total > 0 && perPage > 0 ==> last.Some? && last.value >= 1
  {
    if perPage == 0 then None else Some(CeilDiv(total, perPage))
  }

  /** If `k * p <= i < (k + 1) * p` then `k` is the quotient `i / p`. */
  lemma QuotientUnique(i: nat, k: nat, p: int)
    requires p > 0
    requires k * p <= i < k * p + p
    ensures k == i / p
  {
    var q := i / p;
    assert i == q * p + i % p;
    if k < q {
      assert (k + 1) * p <= q * p by {
        MulMonotone(k + 1, q, p);
      }
      assert false;
    } else if k > q {
      assert (q + 1) * p <= k * p by {
        MulMonotone(q + 1, k, p);
      }
      assert false;
    }
  }

  lemma MulMonotone(a: int, b: int, p: int)
    requires a <= b && p > 0
    ensures a * p <= b * p
  {
    assert b * p - a * p == (b - a) * p;
  }

  /** Row `i` of the full listing is served by exactly one page: the page
      whose offset window `[Skip, Skip + perPage)` contains it is page
      `i / perPage + 1`. */
  lemma PageOfRow(i: nat, page: int, perPage: int)
    requires perPage > 0 && page >= 1
    ensures Skip(page, perPage) <= i < Skip(page, perPage) + perPage
        <==> page == i / perPage + 1
  {
    var k := page - 1;
    if Skip(page, perPage) <= i < Skip(page, perPage) + perPage {
      QuotientUnique(i, k, perPage);
    }
    if page == i / perPage + 1 {
      var q := i / perPage;
      assert i == q * perPage + i % perPage;
      assert Skip(page, perPage) == q * perPage;
    }
  }

  /** For a non-empty count the last page is non-empty and holds the last
      matching row, and the page after it starts past the end. */
  lemma LastPageHoldsLastRow(total: nat, perPage: int)
    requires total > 0 && perPage > 0
    ensures LastPage(total, perPage).Some?
    ensures var last := LastPage(total, perPage).value;
      last >= 1
      && Skip(last, perPage) < total <= Skip(last, perPage) + perPage
      && total <= Skip(last + 1, perPage)
  {
    var last := LastPage(total, perPage).value;
    assert Skip(last, perPage) == (last - 1) * perPage;
    assert Skip(last + 1, perPage) == last * perPage;
    assert (last - 1) * perPage + perPage == last * perPage;
  }
}
