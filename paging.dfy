/** Page arithmetic and the pagination controls shared by the table widget and
    the staff directory. */
module Paging {
  import opened Text

  /** One control of a pagination bar: the Prev and Next buttons carry the page a
      click goes to, a page button its number, and an ellipsis stands for skipped pages. */
  datatype PageItem =
    | Prev(target: int, disabled: bool)
    | Page(number: int, active: bool)
    | Ellipsis
    | Next(target: int, disabled: bool)

  /** The info line under a paginated list: nothing to show, or the positions
      from..to of the total, for the given noun ("records", "staff"). */
  datatype Info = Nothing | Showing(from: nat, to: nat, total: nat) {
    function Text(noun: string): string {
      match this
      case Nothing => "Showing 0 of 0 " + noun
      case Showing(from, to, total) =>
        "Showing " + NatToString(from) + "–" + NatToString(to) + " of " + NatToString(total) + " " + noun
    }
  }

  /** The info line for a page starting at index `start` of `total` items. */
  function InfoFor(total: nat, start: nat, pageSize: nat): Info {
    if total == 0 then Nothing else Showing(start + 1, Min(start + pageSize, total), total)
  }

  /** On a page in range, the info line names exactly the items the page shows:
      it starts at the page's first item and covers as many items as fit, and
      "Showing 0 of 0" appears exactly when there is nothing. */
  lemma InfoForPage(total: nat, pageSize: nat, page: int)
    requires pageSize >= 1 && 1 <= page <= TotalPages(total, pageSize)
    ensures InfoFor(total, PageStart(page, pageSize), pageSize).Nothing? <==> total == 0
    ensures total > 0 ==>
      var info := InfoFor(total, PageStart(page, pageSize), pageSize);
      && 1 <= info.from <= info.to <= info.total == total
      && info.from == PageStart(page, pageSize) + 1
      && info.to - info.from + 1 == Min(pageSize, total - PageStart(page, pageSize))
      && (page < TotalPages(total, pageSize) ==> info.to - info.from + 1 == pageSize)
  {
    if total > 0 {
      PageWithinRows(total, pageSize, page);
      if page < TotalPages(total, pageSize) {
        MulMonotone(page, TotalPages(total, pageSize) - 1, pageSize);
      }
    }
  }

  /** The rendered info line: with nothing to show it reads "Showing 0 of 0",
      and the second page of 25 records at 10 a page reads "Showing 11–20 of 25". */
  lemma InfoTextExample(noun: string)
    ensures InfoFor(0, PageStart(1, 10), 10).Text(noun) == "Showing 0 of 0 " + noun
    ensures InfoFor(25, PageStart(2, 10), 10).Text(noun) == "Showing 11–20 of 25 " + noun
  {
    assert InfoFor(25, PageStart(2, 10), 10) == Showing(11, 20, 25);
    assert NatToString(11) == "11" by { assert NatToString(1) == "1"; }
    assert NatToString(20) == "20" by { assert NatToString(2) == "2"; }
    assert NatToString(25) == "25" by { assert NatToString(2) == "2"; }
  }

  /** The page a button leads to; only Prev, Next and page buttons have one. */
  function Target(item: PageItem): int
    requires !item.Ellipsis?
  {
    match item
    case Prev(t, _) => t
    case Page(n, _) => n
    case Next(t, _) => t
  }

  /** A button a click acts on: not an ellipsis, and not a disabled Prev or Next. */
  predicate Enabled(item: PageItem) {
    !item.Ellipsis? && !((item.Prev? || item.Next?) && item.disabled)
  }

  /** `Math.max(1, Math.ceil(total / pageSize))`. */
  function TotalPages(total: nat, pageSize: nat): (r: nat)
    requires pageSize >= 1
    ensures r >= 1
    ensures total == 0 ==> r == 1
    ensures total > 0 ==> (r - 1) * pageSize < total <= r * pageSize
  {
    if total == 0 then 1
    else
      var r := (total + pageSize - 1) / pageSize;
      assert r * pageSize <= total + pageSize - 1 < (r + 1) * pageSize;
      r
  }

  /** The first index of page `page`. */
  function PageStart(page: int, pageSize: nat): (r: int)
    ensures page >= 1 ==> r >= 0
  {
    (page - 1) * pageSize
  }

  /** On any page within range, the first row exists and the last row shown is
      no later than the last row: 1 <= from <= to <= total. */
  lemma PageWithinRows(total: nat, pageSize: nat, page: int)
    requires pageSize >= 1 && total > 0
    requires 1 <= page <= TotalPages(total, pageSize)
    ensures 0 <= PageStart(page, pageSize) < total
    ensures PageStart(page, pageSize) + 1 <= Min(PageStart(page, pageSize) + pageSize, total) <= total
  {
    var tp := TotalPages(total, pageSize);
    assert (page - 1) * pageSize <= (tp - 1) * pageSize by {
      MulMonotone(page - 1, tp - 1, pageSize);
    }
  }

  lemma MulMonotone(a: nat, b: nat, c: nat)
    requires a <= b
    ensures a * c <= b * c
  {}

  function Min(a: int, b: int): int { if a <= b then a else b }

  function Max(a: int, b: int): int { if a >= b then a else b }
}
