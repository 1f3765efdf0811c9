/** The table widget of data-table.js: search, year/month filters, page size and
    pagination over an in-memory snapshot of a table's rows. */
module DataTable {
  import opened Text
  import opened Paging
  import Sorting

  /** A `<tr>` of the table body: its visible text (`innerText`) and its `data-date`
      attribute, a `YYYY-MM-DD` key, when it has one. */
  datatype Row = Row(text: string, date: Option<string>)

  /** The sizes the page-size selector offers. */
  const PageSizes: seq<nat> := [5, 10, 25, 50]

  /** The size the selector starts on. */
  const DefaultPageSize: nat := 10

  /** The values of the month selector's options other than "All Months". */
  const Months: seq<string> := ["01", "02", "03", "04", "05", "06", "07", "08", "09", "10", "11", "12"]

  /** The first year the year selector offers. */
  const FirstYear: int := 2024

  // ---------------------------------------------------------------------------
  // The row predicate
  // ---------------------------------------------------------------------------

  /** The filter inputs as `applyFilters` reads them: the lower-cased search text,
      the selected year and month ("" for all) and whether date filters are on. */
  datatype Query = Query(search: string, year: string, month: string, dateFilters: bool)

  predicate IsNumber(s: string) { s != [] && AllDigits(s) }

  /** `new Date(attr)` read back with getFullYear and getMonth, for a key made of
      three decimal parts; None for a key it cannot read (an invalid Date). */
  function CalendarYearMonth(attr: string): Option<(nat, nat)> {
    var parts := Split(attr, '-');
    if WellFormedKey(attr)
    then Some((DigitsValue(parts[0]), DigitsValue(parts[1])))
    else None
  }

  /** `d.getFullYear().toString()`: "NaN" for an invalid date. */
  function YearText(attr: string): string {
    match CalendarYearMonth(attr)
    case Some((y, _)) => NatToString(y)
    case None => "NaN"
  }

  /** `(d.getMonth() + 1).toString().padStart(2, "0")`: "NaN" for an invalid date. */
  function MonthText(attr: string): string {
    match CalendarYearMonth(attr)
    case Some((_, m)) => Pad2(m)
    case None => "NaN"
  }

  /** The date clause: it applies only when date filters are on, the row has a
      non-empty `data-date` and a year or a month is selected. */
  predicate DateClause(row: Row, q: Query) {
    var applies := q.dateFilters && row.date.Some? && row.date.value != "" && (q.year != "" || q.month != "");
    !applies ||
    ((q.year == "" || YearText(row.date.value) == q.year) &&
     (q.month == "" || MonthText(row.date.value) == q.month))
  }

  /** The predicate `applyFilters` hands to `filter`. */
  predicate Passes(row: Row, q: Query) {
    (q.search == "" || Contains(ToLower(row.text), q.search)) && DateClause(row, q)
  }

  /** A row without a date, a widget without date filters and a query without
      year and month never lose a row to the date clause. A key that is not three
      decimal parts is an invalid date: its year and month read "NaN", so the row
      is kept only when neither a year nor a month is selected. */
  lemma DateClauseCases(row: Row, q: Query)
    ensures row.date.None? || row.date == Some("") || !q.dateFilters || (q.year == "" && q.month == "")
      ==> DateClause(row, q)
    ensures row.date.Some? && row.date.value != "" && q.dateFilters && !WellFormedKey(row.date.value) && SelectorValues(q) ==>
      (DateClause(row, q) <==> q.year == "" && q.month == "")
  {
    if row.date.Some? && row.date.value != "" && q.dateFilters && !WellFormedKey(row.date.value) && SelectorValues(q) {
      var k := row.date.value;
      assert CalendarYearMonth(k).None?;
      assert YearText(k) == "NaN" && MonthText(k) == "NaN";
      assert !IsNumber("NaN") by { assert !IsDigit("NaN"[0]); }
      assert "NaN" !in Months;
    }
  }

  /** A year and a month the selectors can hold: "" or a decimal year, and "" or
      one of the month options. */
  predicate SelectorValues(q: Query) {
    (q.year == "" || IsNumber(q.year)) && (q.month == "" || q.month in Months)
  }

  /** A `data-date` key `Y-M-D` of three decimal parts. */
  predicate WellFormedKey(attr: string) {
    var parts := Split(attr, '-');
    |parts| == 3 && IsNumber(parts[0]) && IsNumber(parts[1]) && IsNumber(parts[2])
  }

  /** On a key "YYYY-MM-DD" with the year written without leading zeros, the date
      clause keeps the row exactly when the selected year is YYYY or none, and the
      selected month is MM or none. */
  lemma DateClauseOfKey(row: Row, q: Query, y: string, m: string, d: string)
    requires CanonicalNumber(y) && IsNumber(m) && |m| == 2 && IsNumber(d)
    requires row.date == Some(y + "-" + m + "-" + d) && q.dateFilters
    ensures DateClause(row, q) <==> (q.year == "" || q.year == y) && (q.month == "" || q.month == m)
  {
    YearMonthOfKey(y, m, d);
  }

  /** A year written without leading zeros. */
  predicate CanonicalNumber(s: string) {
    IsNumber(s) && s == NatToString(DigitsValue(s))
  }

  lemma {:induction false} TwoDigits(m: string)
    requires IsNumber(m) && |m| == 2
    ensures Pad2(DigitsValue(m)) == m
  {
    var a, b := DigitValue(m[0]), DigitValue(m[1]);
    assert m[..1] == [m[0]];
    assert DigitsValue(m[..1]) == a by {
      assert m[..1][..0] == [];
    }
    assert DigitsValue(m) == 10 * a + b;
    var v := 10 * a + b;
    if a == 0 {
      assert Pad2(v) == "0" + [DigitChar(b)];
    } else {
      assert v / 10 == a && v % 10 == b;
      assert NatToString(v) == NatToString(a) + [DigitChar(b)];
    }
  }

  /** On a well-formed key "YYYY-MM-DD" (a year without leading zeros, a two-digit
      month) the date clause compares the key's own year and month text. */
  lemma YearMonthOfKey(y: string, m: string, d: string)
    requires CanonicalNumber(y) && IsNumber(m) && |m| == 2 && IsNumber(d)
    ensures YearText(y + "-" + m + "-" + d) == y
    ensures MonthText(y + "-" + m + "-" + d) == m
  {
    var parts := [y, m, d];
    assert Join(parts, "-") == y + "-" + m + "-" + d by {
      assert Join(parts[1..], "-") == m + "-" + d by {
        assert parts[1..][1..] == [d];
      }
    }
    SplitJoin(parts, '-');
    TwoDigits(m);
  }

  /** The positions, from `lo` on, of the rows that pass `q`, in table order. */
  function Matching(rows: seq<Row>, q: Query, lo: nat): (r: seq<nat>)
    requires lo <= |rows|
    ensures forall k :: 0 <= k < |r| ==> lo <= r[k] < |rows|
    ensures forall k, l :: 0 <= k < l < |r| ==> r[k] < r[l]
    ensures forall i :: lo <= i < |rows| ==> (i in r <==> Passes(rows[i], q))
    decreases |rows| - lo
  {
    if lo == |rows| then []
    else if Passes(rows[lo], q) then [lo] + Matching(rows, q, lo + 1)
    else Matching(rows, q, lo + 1)
  }

  /** `filteredRows` holds positions of `allRows`, in increasing order. */
  ghost predicate Ascending(positions: seq<nat>, n: nat) {
    && (forall k :: 0 <= k < |positions| ==> positions[k] < n)
    && (forall k, l :: 0 <= k < l < |positions| ==> positions[k] < positions[l])
  }

  /** Every position from 0 to n - 1: `[...allRows]`. */
  function AllPositions(n: nat): (r: seq<nat>)
    ensures |r| == n && forall k :: 0 <= k < n ==> r[k] == k
  {
    seq(n, k requires 0 <= k < n => k)
  }

  // ---------------------------------------------------------------------------
  // Info line and pagination
  // ---------------------------------------------------------------------------

  /** The page buttons 1..n, with page `current` active. */
  function PageRun(current: int, n: nat): (r: seq<PageItem>)
    ensures |r| == n
  {
    seq(n, i requires 0 <= i < n => Page(i + 1, i + 1 == current))
  }

  /** The buttons `renderPagination` appends: none for a single page, otherwise
      Prev, every page and Next. */
  function TableButtons(current: int, totalPages: nat): seq<PageItem> {
    if totalPages <= 1 then []
    else [Prev(current - 1, current == 1)] + PageRun(current, totalPages) + [Next(current + 1, current == totalPages)]
  }

  /** The bar has Prev, the pages 1..totalPages in order with only the current
      one active, and Next; Prev is disabled exactly on the first page and Next
      exactly on the last; every enabled button leads to a page in range. */
  lemma TableButtonsShape(current: int, totalPages: nat)
    requires 1 <= current <= totalPages
    ensures totalPages <= 1 <==> TableButtons(current, totalPages) == []
    ensures totalPages > 1 ==>
      var b := TableButtons(current, totalPages);
      && |b| == totalPages + 2
      && b[0].Prev? && b[0].target == current - 1 && (b[0].disabled <==> current == 1)
      && b[totalPages + 1].Next? && b[totalPages + 1].target == current + 1
      && (b[totalPages + 1].disabled <==> current == totalPages)
      && (forall k :: 1 <= k <= totalPages ==> b[k].Page? && b[k].number == k)
      && (forall k :: 1 <= k <= totalPages ==> (b[k].active <==> k == current))
      && (forall k :: 0 <= k < |b| && Enabled(b[k]) ==> 1 <= Target(b[k]) <= totalPages)
  {
    if totalPages > 1 {
      var b := TableButtons(current, totalPages);
      forall k | 1 <= k <= totalPages ensures b[k] == Page(k, k == current) {
        assert b[k] == PageRun(current, totalPages)[k - 1];
      }
    }
  }

  // ---------------------------------------------------------------------------
  // Year options
  // ---------------------------------------------------------------------------

  /** The first `-`-component of a row's `data-date`, when `parseInt` reads it as
      a year from 2024 on. */
  function YearOf(row: Row): Option<string> {
    if row.date.Some? && row.date.value != "" then
      var y := Split(row.date.value, '-')[0];
      match ParseInt(y)
      case Some(v) => if v >= FirstYear then Some(y) else None
      case None => None
    else None
  }

  /** The numeric value the sort compares a year option by: `parseInt` of the
      option, the reading under which it was accepted. */
  function YearValue(y: string): int {
    match ParseInt(y)
    case Some(v) => v
    case None => 0
  }

  /** The comparator `(a, b) => b - a` on the values `parseInt` accepted: `a` may
      come first when it is no smaller. */
  function LaterYearFirst(a: string, b: string): bool {
    YearValue(a) >= YearValue(b)
  }

  lemma LaterYearFirstIsPreorder()
    ensures Sorting.TotalPreorder(LaterYearFirst)
  {}

  /** A row whose accepted year, if any, is written without leading zeros or signs. */
  predicate CanonicalYear(row: Row) {
    YearOf(row).None? || CanonicalNumber(YearOf(row).value)
  }

  /** The option values `generateYearOptionsFromRows` produces: the distinct
      accepted years of the rows, later years first. */
  function YearOptionsOf(rows: seq<Row>): seq<string> {
    Sorting.SortBy(Sorting.DistinctKeys(rows, YearOf), LaterYearFirst)
  }

  /** `generateYearOptionsFromRows`: collect the accepted years into a set while
      scanning the rows, then sort them. */
  method YearOptions(rows: seq<Row>) returns (years: seq<string>)
    ensures years == YearOptionsOf(rows)
  {
    var seen: seq<string> := [];
    for i := 0 to |rows|
      invariant seen == Sorting.DistinctKeys(rows[..i], YearOf)
    {
      assert rows[..i + 1][..i] == rows[..i];
      var y := YearOf(rows[i]);
      if y.Some? && y.value !in seen {
        seen := seen + [y.value];
      }
    }
    assert rows[..|rows|] == rows;
    years := Sorting.SortBy(seen, LaterYearFirst);
  }

  /** The options are exactly the accepted years of the rows, each once, each
      from 2024 on, in non-increasing order. */
  lemma YearOptionsSpec(rows: seq<Row>)
    ensures forall y :: y in YearOptionsOf(rows) <==> exists i :: 0 <= i < |rows| && YearOf(rows[i]) == Some(y)
    ensures Sorting.Distinct(YearOptionsOf(rows))
    ensures forall y :: y in YearOptionsOf(rows) ==> YearValue(y) >= FirstYear
    ensures forall i, j :: 0 <= i < j < |YearOptionsOf(rows)| ==>
      YearValue(YearOptionsOf(rows)[i]) >= YearValue(YearOptionsOf(rows)[j])
  {
    var seen := Sorting.DistinctKeys(rows, YearOf);
    var years := YearOptionsOf(rows);
    Sorting.DistinctKeysSpec(rows, YearOf);
    LaterYearFirstIsPreorder();
    Sorting.SortBySorted(seen, LaterYearFirst);
    Sorting.SortedDistinct(seen, LaterYearFirst);
    Sorting.SortByPermutation(seen, LaterYearFirst);
    assert forall y :: y in years <==> y in seen by {
      assert multiset(years) == multiset(seen);
      forall y ensures y in years <==> y in seen {
        assert y in years <==> y in multiset(years);
        assert y in seen <==> y in multiset(seen);
      }
    }
    forall y | y in years ensures YearValue(y) >= FirstYear {
      var i :| 0 <= i < |rows| && YearOf(rows[i]) == Some(y);
    }
  }

  /** When every accepted year is written without leading zeros, no two options
      have the same value, so the order is strictly descending. */
  lemma YearOptionsStrict(rows: seq<Row>)
    requires forall i :: 0 <= i < |rows| ==> CanonicalYear(rows[i])
    ensures forall i, j :: 0 <= i < j < |YearOptionsOf(rows)| ==>
      YearValue(YearOptionsOf(rows)[i]) > YearValue(YearOptionsOf(rows)[j])
  {
    var years := YearOptionsOf(rows);
    YearOptionsSpec(rows);
    forall y | y in years ensures CanonicalNumber(y) {
      var a :| 0 <= a < |rows| && YearOf(rows[a]) == Some(y);
      assert CanonicalYear(rows[a]);
    }
    forall i, j | 0 <= i < j < |years| ensures YearValue(years[i]) > YearValue(years[j]) {
      DistinctCanonicalValues(years[i], years[j]);
    }
  }

  /** Two different years without leading zeros have different values. */
  lemma DistinctCanonicalValues(x: string, y: string)
    requires CanonicalNumber(x) && CanonicalNumber(y) && x != y
    ensures YearValue(x) != YearValue(y)
  {
    CanonicalYearValue(x);
    CanonicalYearValue(y);
  }

  /** A year without leading zeros is the decimal text of its value. */
  lemma CanonicalYearValue(y: string)
    requires CanonicalNumber(y)
    ensures NatToString(YearValue(y)) == y
  {
    ParseIntNatToString(DigitsValue(y));
  }

  /** Exactly the rows at the positions in `page` show. */
  ghost predicate ShowsExactly(shown: seq<bool>, page: seq<nat>) {
    forall j :: 0 <= j < |shown| ==> (shown[j] <==> j in page)
  }

  /** The two `forEach` loops of `renderTable`: hide every row, then show the
      rows at the positions in `page`. */
  method ShowOnly(shown: seq<bool>, page: seq<nat>) returns (vis: seq<bool>)
    requires forall k :: 0 <= k < |page| ==> page[k] < |shown|
    ensures |vis| == |shown|
    ensures ShowsExactly(vis, page)
  {
    vis := shown;
    var i := 0;
    while i < |vis|
      invariant 0 <= i <= |vis| && |vis| == |shown|
      invariant forall j :: 0 <= j < i ==> !vis[j]
    {
      vis := vis[i := false];
      i := i + 1;
    }
    var k := 0;
    while k < |page|
      invariant 0 <= k <= |page| && |vis| == |shown|
      invariant forall j :: 0 <= j < |vis| ==> (vis[j] <==> j in page[..k])
    {
      assert page[..k + 1] == page[..k] + [page[k]];
      vis := vis[page[k] := true];
      k := k + 1;
    }
    assert page[..k] == page;
  }

  /** The positions of the rows on page `page` of the filtered rows `filtered`. */
  function PageRows(filtered: seq<nat>, page: int, pageSize: nat): seq<nat>
    requires pageSize >= 1 && 1 <= page <= TotalPages(|filtered|, pageSize)
  {
    var total := |filtered|;
    var start := PageStart(page, pageSize);
    if total == 0 then []
    else
      PageWithinRows(total, pageSize, page);
      filtered[start..Min(start + pageSize, total)]
  }

  /** The table shows page `page` of `filtered`, a page in range: exactly its rows
      show, and the info line and the buttons describe it. */
  ghost predicate Shows(filtered: seq<nat>, page: int, pageSize: nat, shown: seq<bool>, info: Info, buttons: seq<PageItem>)
    requires pageSize >= 1
  {
    && 1 <= page <= TotalPages(|filtered|, pageSize)
    && ShowsExactly(shown, PageRows(filtered, page, pageSize))
    && info == InfoFor(|filtered|, PageStart(page, pageSize), pageSize)
    && buttons == TableButtons(page, TotalPages(|filtered|, pageSize))
  }

  /** The writes of `renderTable` once the page is in range: the rows shown, the
      info line and the buttons of page `current`. */
  method PageView(filtered: seq<nat>, current: int, pageSize: nat, shown: seq<bool>)
    returns (vis: seq<bool>, info: Info, buttons: seq<PageItem>)
    requires pageSize >= 1 && 1 <= current <= TotalPages(|filtered|, pageSize)
    requires forall k :: 0 <= k < |filtered| ==> filtered[k] < |shown|
    ensures |vis| == |shown|
    ensures Shows(filtered, current, pageSize, vis, info, buttons)
  {
    var total := |filtered|;
    var start := PageStart(current, pageSize);
    var end := start + pageSize;
    var page: seq<nat> := [];
    if total > 0 {
      PageWithinRows(total, pageSize, current);
      page := filtered[start..Min(end, total)];
    }
    vis := ShowOnly(shown, page);
    buttons := RenderPagination(current, TotalPages(total, pageSize));
    info := InfoFor(total, start, pageSize);
  }

  /** `renderPagination`: no buttons for a single page; otherwise Prev, one
      button per page and Next. */
  method RenderPagination(currentPage: int, totalPages: nat) returns (buttons: seq<PageItem>)
    ensures buttons == TableButtons(currentPage, totalPages)
  {
    buttons := [];
    if totalPages <= 1 {
      return;
    }
    buttons := buttons + [Prev(currentPage - 1, currentPage == 1)];
    var p := 1;
    while p <= totalPages
      invariant 1 <= p <= totalPages + 1
      invariant buttons == [Prev(currentPage - 1, currentPage == 1)] + PageRun(currentPage, p - 1)
    {
      assert PageRun(currentPage, p) == PageRun(currentPage, p - 1) + [Page(p, p == currentPage)];
      buttons := buttons + [Page(p, p == currentPage)];
      p := p + 1;
    }
    buttons := buttons + [Next(currentPage + 1, currentPage == totalPages)];
  }

  // ---------------------------------------------------------------------------
  // The widget
  // ---------------------------------------------------------------------------

  /** One table widget: the closure state of `initDataTable` (allRows,
      filteredRows, currentPage), the values of its controls and what it renders. */
  class Widget {
    /** `settings.enableDateFilters`. */
    const dateFilters: bool

    var allRows: seq<Row>
    /** The rows that pass the filters, as positions in `allRows`. */
    var filteredRows: seq<nat>
    var currentPage: int

    /** The values of the search box and of the year, month and page-size selectors. */
    var search: string
    var year: string
    var month: string
    var pageSize: nat

    /** The year selector's options after "All Years". */
    var yearOptions: seq<string>
    /** For each row of `allRows`, whether its `style.display` lets it show. */
    var shown: seq<bool>
    var info: Info
    var buttons: seq<PageItem>

    /** The controls hold values they can hold, and `filteredRows` lists rows of
        `allRows` in table order. */
    ghost predicate Valid()
      reads this`pageSize, this`year, this`month, this`yearOptions
      reads this`filteredRows, this`allRows, this`shown, this`currentPage
    {
      && pageSize >= 1
      && (dateFilters || (year == "" && month == ""))
      && (year == "" || year in yearOptions)
      && Ascending(filteredRows, |allRows|)
      && |shown| == |allRows|
      && currentPage >= 1
    }

    function Pages(): nat
      reads this`filteredRows, this`pageSize
      requires pageSize >= 1
    {
      TotalPages(|filteredRows|, pageSize)
    }

    /** The query `applyFilters` builds from the controls. */
    function CurrentQuery(): Query
      reads this`search, this`year, this`month
    {
      Query(ToLower(search), if dateFilters then year else "", if dateFilters then month else "", dateFilters)
    }

    /** The positions of the rows on the current page. */
    function Visible(): seq<nat>
      reads this`filteredRows, this`pageSize, this`currentPage
      requires pageSize >= 1 && 1 <= currentPage <= Pages()
    {
      PageRows(filteredRows, currentPage, pageSize)
    }

    /** What `renderTable` leaves behind: the page is in range, exactly the rows of
        the current page show, and the info line and buttons describe that page. */
    ghost predicate Rendered()
      reads this
    {
      && Valid()
      && Shows(filteredRows, currentPage, pageSize, shown, info, buttons)
    }

    /** `initDataTable`: scan the rows already in the table, fill the year selector
        when date filters are on, and render the first page. */
    constructor (rows: seq<Row>, dateFilters: bool)
      ensures this.dateFilters == dateFilters
      ensures allRows == rows && filteredRows == AllPositions(|rows|)
      ensures search == "" && year == "" && month == "" && pageSize == DefaultPageSize
      ensures currentPage == 1
      ensures dateFilters ==> yearOptions == YearOptionsOf(rows)
      ensures !dateFilters ==> yearOptions == []
      ensures Rendered()
    {
      this.dateFilters := dateFilters;
      allRows, filteredRows, currentPage := [], [], 1;
      search, year, month, pageSize := "", "", "", DefaultPageSize;
      yearOptions, shown, info, buttons := [], [], Nothing, [];
      new;
      ScanRows(rows);
      RenderTable();
    }

    /** `scanRows`: take a fresh snapshot of the rows, all of them passing, and
        rebuild the year selector, which drops back to "All Years". The script
        does not touch row visibility here; the model resets `shown` to match the
        new rows, which no caller observes because a render always follows. */
    method ScanRows(rows: seq<Row>)
      requires Valid()
      modifies this`allRows, this`filteredRows, this`yearOptions, this`year, this`shown
      ensures Valid()
      ensures allRows == rows && filteredRows == AllPositions(|rows|)
      ensures dateFilters ==> year == "" && yearOptions == YearOptionsOf(rows)
      ensures !dateFilters ==> year == old(year) && yearOptions == old(yearOptions)
      ensures shown == seq(|rows|, _ => true)
    {
      allRows := rows;
      filteredRows := AllPositions(|rows|);
      shown := seq(|rows|, _ => true);
      if dateFilters {
        yearOptions := YearOptions(rows);
        year := "";
      }
    }

    /** `applyFilters`: recompute the filtered rows, go back to page 1 and render. */
    method ApplyFilters()
      requires Valid()
      modifies this`filteredRows, this`currentPage, this`shown, this`info, this`buttons
      ensures filteredRows == Matching(allRows, CurrentQuery(), 0)
      ensures currentPage == 1
      ensures Rendered()
    {
      filteredRows := Matching(allRows, CurrentQuery(), 0);
      currentPage := 1;
      RenderTable();
    }

    /** `renderTable`: lower the page into range, hide every row, show the rows of
        the page, and write the info line and the buttons. */
    method RenderTable()
      requires Valid()
      modifies this`currentPage, this`shown, this`info, this`buttons
      ensures currentPage == Min(old(currentPage), Pages())
      ensures Rendered()
    {
      var total := |filteredRows|;
      var totalPages := TotalPages(total, pageSize);
      var current := if currentPage > totalPages then totalPages else currentPage;

      var vis, line, items := PageView(filteredRows, current, pageSize, shown);
      currentPage, shown, info, buttons := current, vis, line, items;
    }

    /** A click on an enabled button: go to its page and render. */
    method Click(k: nat)
      requires Rendered()
      requires k < |buttons| && Enabled(buttons[k])
      modifies this`currentPage, this`shown, this`info, this`buttons
      ensures currentPage == Target(old(buttons[k]))
      ensures Rendered()
    {
      TableButtonsShape(currentPage, Pages());
      currentPage := Target(buttons[k]);
      RenderTable();
    }

    /** Typing in the search box. */
    method SetSearch(value: string)
      requires Valid()
      modifies this`search, this`filteredRows, this`currentPage, this`shown, this`info, this`buttons
      ensures search == value && currentPage == 1
      ensures filteredRows == Matching(allRows, CurrentQuery(), 0)
      ensures Rendered()
    {
      search := value;
      ApplyFilters();
    }

    /** Choosing a year ("" for All Years). */
    method SetYear(value: string)
      requires Valid() && dateFilters
      requires value == "" || value in yearOptions
      modifies this`year, this`filteredRows, this`currentPage, this`shown, this`info, this`buttons
      ensures year == value && currentPage == 1
      ensures filteredRows == Matching(allRows, CurrentQuery(), 0)
      ensures Rendered()
    {
      year := value;
      ApplyFilters();
    }

    /** Choosing a month ("" for All Months). */
    method SetMonth(value: string)
      requires Valid() && dateFilters
      requires value == "" || value in Months
      modifies this`month, this`filteredRows, this`currentPage, this`shown, this`info, this`buttons
      ensures month == value && currentPage == 1
      ensures filteredRows == Matching(allRows, CurrentQuery(), 0)
      ensures Rendered()
    {
      month := value;
      ApplyFilters();
    }

    /** Choosing a page size. */
    method SetPageSize(size: nat)
      requires Valid()
      requires size in PageSizes
      modifies this`pageSize, this`filteredRows, this`currentPage, this`shown, this`info, this`buttons
      ensures pageSize == size && currentPage == 1
      ensures filteredRows == Matching(allRows, CurrentQuery(), 0)
      ensures Rendered()
    {
      pageSize := size;
      ApplyFilters();
    }

    /** `wrapper._dtRefresh`: rescan the table after its rows were replaced, then
        filter and render. */
    method Refresh(rows: seq<Row>)
      requires Valid()
      modifies this`allRows, this`filteredRows, this`yearOptions, this`year, this`shown
      modifies this`currentPage, this`info, this`buttons
      ensures allRows == rows && currentPage == 1
      ensures dateFilters ==> year == "" && yearOptions == YearOptionsOf(rows)
      ensures filteredRows == Matching(allRows, CurrentQuery(), 0)
      ensures Rendered()
    {
      ScanRows(rows);
      ApplyFilters();
    }
  }

}
