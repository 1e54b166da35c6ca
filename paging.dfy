/** The offset/limit pagination used by the list endpoints (`offset = (page - 1) * limit`,
    `totalPages = Math.ceil(count / limit)`) and by the audit-log table in the dashboard. */
module Paging {

  function Min(a: int, b: int): (r: int)
    ensures r <= a && r <= b && (r == a || r == b)
  {
    if a <= b then a else b
  }

  function Max(a: int, b: int): (r: int)
    ensures r >= a && r >= b && (r == a || r == b)
  {
    if a >= b then a else b
  }

  /** `Math.ceil(count / limit)`: the fewest pages of `limit` rows that hold `count` rows. */
  function TotalPages(count: nat, limit: nat): (r: nat)
    requires limit > 0
    ensures count <= r * limit
    ensures r == 0 || (r - 1) * limit < count
    ensures r == 0 <==> count == 0
  {
    var q := (count + limit - 1) / limit;
    var rem := (count + limit - 1) % limit;
    assert count + limit - 1 == q * limit + rem && 0 <= rem < limit;
    assert (q - 1) * limit == q * limit - limit;
    q
  }

  /** The number of rows skipped before page `page` (pages count from 1). */
  function Offset(page: nat, limit: nat): nat
    requires page >= 1
  {
    (page - 1) * limit
  }

  /** `rows.slice(offset, offset + limit)`, which is also what `LIMIT limit OFFSET offset` returns
      from an ordered query: empty once the offset passes the end. */
  function PageOf<T>(rows: seq<T>, page: nat, limit: nat): (r: seq<T>)
    requires page >= 1
    ensures |r| == if Offset(page, limit) >= |rows| then 0 else Min(limit, |rows| - Offset(page, limit))
    ensures forall k :: 0 <= k < |r| ==> Offset(page, limit) + k < |rows| && r[k] == rows[Offset(page, limit) + k]
  {
    var off := Offset(page, limit);
    if off >= |rows| then [] else rows[off..Min(off + limit, |rows|)]
  }

  /** Every row lies on exactly one page: row i is on page i / limit + 1, that page exists, and no
      other page's window contains index i. */
  lemma RowOnOnePage(count: nat, limit: nat, i: nat, page: nat)
    requires limit > 0 && i < count && page >= 1
    ensures 1 <= i / limit + 1 <= TotalPages(count, limit)
    ensures Offset(page, limit) <= i < Offset(page, limit) + limit <==> page == i / limit + 1
  {
    var q := i / limit;
    assert i == q * limit + i % limit;
    assert q * limit <= i < q * limit + limit;
    var t := TotalPages(count, limit);
    if t < q + 1 {
      MulMonotone(t, q, limit);
      assert false;
    }
    if page < q + 1 {
      MulMonotone(page, q, limit);
      assert (page - 1) * limit + limit == page * limit;
    } else if page > q + 1 {
      MulMonotone(q + 1, page - 1, limit);
      assert q * limit + limit == (q + 1) * limit;
    }
  }

  lemma MulMonotone(a: nat, b: nat, c: nat)
    requires a <= b
    ensures a * c <= b * c
  {
  }

  /** A row index maps onto its page: element i of the rows is element i - offset of page
      i / limit + 1. */
  lemma {:induction false} PageHoldsRow<T>(rows: seq<T>, limit: nat, i: nat)
    requires limit > 0 && i < |rows|
    ensures var p := i / limit + 1;
      && 0 <= i - Offset(p, limit) < |PageOf(rows, p, limit)|
      && PageOf(rows, p, limit)[i - Offset(p, limit)] == rows[i]
  {
    var p := i / limit + 1;
    RowOnOnePage(|rows|, limit, i, p);
  }

  /** Every element of an ordered result is on one of its pages; `p` is that page. */
  lemma PageOfElement<T>(rows: seq<T>, limit: nat, x: T) returns (p: nat)
    requires limit > 0 && x in rows
    ensures 1 <= p <= TotalPages(|rows|, limit) && x in PageOf(rows, p, limit)
  {
    var i :| 0 <= i < |rows| && rows[i] == x;
    p := i / limit + 1;
    PageHoldsRow(rows, limit, i);
    RowOnOnePage(|rows|, limit, i, p);
  }

  /** On a page that exists, the records from offset + 1 to min(page * limit, count) are exactly
      the rows the page holds. */
  lemma RecordRange<T>(rows: seq<T>, page: nat, limit: nat)
    requires limit > 0 && 1 <= page <= TotalPages(|rows|, limit)
    ensures Offset(page, limit) < |rows|
    ensures Min(page * limit, |rows|) - Offset(page, limit) == |PageOf(rows, page, limit)|
  {
    MulMonotone(page - 1, TotalPages(|rows|, limit) - 1, limit);
    assert page * limit == Offset(page, limit) + limit;
  }
}
