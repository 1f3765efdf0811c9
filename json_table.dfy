/** `loadJsonTable` of data-table.js: fill a table body from a JSON array of
    records, one row per record, and let the table widget rescan it. */
module JsonTable {
  import opened Text
  import opened Json
  import DataTable

  /** The notice for a payload that is not an array or has no element. */
  const NoRecordsFound: string := "No records found"

  /** The notice for a failed fetch or unreadable JSON. */
  const NoDataToDisplay: string := "No Data to Display"

  /** The table types whose rows are S.No, Title, Number, Date and View. */
  const DocumentKinds: set<string> := {"orders", "notifications", "circulars", "press", "seniority"}

  /** A `<td>`: a labelled text cell, or the View cell holding a link to the file. */
  datatype Cell = Labelled(heading: string, text: string) | View(href: string)

  /** A `<tr>`: its `data-date` attribute, when set, and its cells. */
  datatype BodyRow = BodyRow(date: Option<string>, cells: seq<Cell>)

  /** What the table body holds afterwards: the record rows, or a single notice row
      (`error` for the red one). */
  datatype Body = Rows(rows: seq<BodyRow>) | Notice(text: string, error: bool)

  /** The file reference with its directories stripped: `file.split("/").pop()`
      when it contains a "/". */
  function FileName(file: string): (r: string)
    ensures r == LastSegment(file, '/')
    ensures '/' !in r
    ensures EndsWith(file, r)
    ensures '/' !in file ==> r == file
  {
    LastSegmentIsSuffix(file, '/');
    if file != "" && '/' in file then LastSegment(file, '/') else file
  }

  /** The View link: the base path followed by the bare file name. */
  function Href(basePath: string, file: string): string {
    basePath + FileName(file)
  }

  /** Whatever the resource path, the link is the resource path with one trailing
      "/" followed by the file's last path segment: it starts with the resource
      path and its own last segment is the file's. */
  lemma HrefSegments(resourcePath: string, file: string)
    ensures Href(BasePath(resourcePath), file) == BasePath(resourcePath) + LastSegment(file, '/')
    ensures LastSegment(Href(BasePath(resourcePath), file), '/') == LastSegment(file, '/')
    ensures Href(BasePath(resourcePath), file)[..|resourcePath|] == resourcePath
  {
    BasePathJoin(resourcePath, FileName(file));
    LastSegmentIsSuffix(file, '/');
    if '/' !in file {
      SplitNoSeparator(file, '/');
    }
  }

  /** A file reference already under the resource directory keeps its path. */
  lemma HrefUnderBase(dir: string, name: string)
    requires !EndsWith(dir, "/") && '/' !in name
    ensures Href(BasePath(dir), dir + "/" + name) == dir + "/" + name
  {
    LastSegmentAfter(dir, '/', name);
    assert (dir + "/" + name)[|dir|] == '/';
  }

  /** "resources/orders/x.pdf" with the resource path "resources/orders". */
  lemma HrefExample()
    ensures Href(BasePath("resources/orders"), "resources/orders/x.pdf") == "resources/orders/x.pdf"
  {
    var dir, name := "resources/orders", "x.pdf";
    assert dir[|dir| - 1] == 's';
    assert !EndsWith(dir, "/");
    assert '/' !in name;
    assert dir + "/" + name == "resources/orders/x.pdf";
    HrefUnderBase(dir, name);
  }

  /** The text of part `i` of the destructured date: "undefined" when missing. */
  function Part(parts: seq<string>, i: nat): string {
    if i < |parts| then parts[i] else "undefined"
  }

  /** `const [d, m, y] = date.split("-")` written back as `${y}-${m}-${d}`. */
  function DateKey(date: string): string {
    var parts := Split(date, '-');
    Part(parts, 2) + "-" + Part(parts, 1) + "-" + Part(parts, 0)
  }

  /** A date D-M-Y becomes the key Y-M-D, and splitting the key gives back the same
      three parts, in reverse order. */
  lemma DateKeyRoundTrip(d: string, m: string, y: string)
    requires '-' !in d && '-' !in m && '-' !in y
    ensures DateKey(d + "-" + m + "-" + y) == y + "-" + m + "-" + d
    ensures Split(DateKey(d + "-" + m + "-" + y), '-') == [y, m, d]
  {
    JoinThree(d, m, y);
    SplitJoin([d, m, y], '-');
    JoinThree(y, m, d);
    SplitJoin([y, m, d], '-');
  }

  lemma JoinThree(a: string, b: string, c: string)
    ensures Join([a, b, c], "-") == a + "-" + b + "-" + c
  {
    assert [a, b, c][1..] == [b, c];
    assert Join([b, c], "-") == b + "-" + c by {
      assert [b, c][1..] == [c];
    }
  }

  /** A record dated DD-MM-YYYY, with a year written without leading zeros, lands
      in the table under its own year and month: the widget's year and month
      filters read back exactly YYYY and MM from the key. */
  lemma DateKeyFilters(d: string, m: string, y: string)
    requires DataTable.IsNumber(d) && DataTable.IsNumber(m) && |m| == 2 && DataTable.CanonicalNumber(y)
    ensures DataTable.YearText(DateKey(d + "-" + m + "-" + y)) == y
    ensures DataTable.MonthText(DateKey(d + "-" + m + "-" + y)) == m
  {
    DateKeyRoundTrip(d, m, y);
    DataTable.YearMonthOfKey(y, m, d);
  }

  /** The row `loadJsonTable` builds for the record at `index`. */
  function RecordRow(kind: string, item: Object, index: nat, basePath: string): BodyRow {
    var title := Pick(item, "title", "Title", "");
    var number := Pick(item, "number", "Number", "-");
    var date := Pick(item, "date", "Date", "");
    var file := Pick(item, "file", "Link", "");
    var serial := NatToString(index + 1);
    var cells :=
      if kind in DocumentKinds then
        [Labelled("S.No", serial), Labelled("Title", title), Labelled("Number", number), Labelled("Date", date),
         View(basePath + FileName(file))]
      else if kind == "downloads" then
        [Labelled("S.No", serial), Labelled("Title", title), View(basePath + FileName(file))]
      else if kind == "whoswho" then
        [Labelled("S.No", serial), Labelled("Name", Field(item, "name")), Labelled("Designation", Field(item, "designation")),
         Labelled("Section", Field(item, "section")), Labelled("Contact", Field(item, "contact")),
         Labelled("Email", Field(item, "email"))]
      else [];
    BodyRow(if date != "" then Some(DateKey(date)) else None, cells)
  }

  /** One row per record, in payload order. */
  function RecordRows(kind: string, items: seq<Object>, basePath: string): (r: seq<BodyRow>)
    ensures |r| == |items|
  {
    if items == [] then []
    else RecordRows(kind, items[..|items| - 1], basePath) + [RecordRow(kind, items[|items| - 1], |items| - 1, basePath)]
  }

  /** Row `i` is built from record `i`, numbered i + 1. */
  lemma {:induction false} RecordRowsAt(kind: string, items: seq<Object>, basePath: string, i: nat)
    requires i < |items|
    ensures RecordRows(kind, items, basePath)[i] == RecordRow(kind, items[i], i, basePath)
  {
    if i < |items| - 1 {
      RecordRowsAt(kind, items[..|items| - 1], basePath, i);
    }
  }

  /** What the table body holds after `loadJsonTable`. */
  function TableBody(fetch: Fetch, kind: string, resourcePath: string): Body {
    match fetch
    case Failed => Notice(NoDataToDisplay, true)
    case Loaded(payload) =>
      if IsEmpty(payload) then Notice(NoRecordsFound, false)
      else Rows(RecordRows(kind, payload.items, BasePath(resourcePath)))
  }

  /** A failed load shows the red notice, an empty payload the single "No records
      found" row, and anything else one row per record, row i built from record i
      and numbered i + 1. */
  lemma TableBodyCases(fetch: Fetch, kind: string, resourcePath: string)
    ensures fetch.Failed? <==> TableBody(fetch, kind, resourcePath) == Notice(NoDataToDisplay, true)
    ensures fetch.Loaded? && IsEmpty(fetch.payload) <==> TableBody(fetch, kind, resourcePath) == Notice(NoRecordsFound, false)
    ensures TableBody(fetch, kind, resourcePath).Rows? ==>
      && fetch.Loaded? && fetch.payload.Array?
      && |TableBody(fetch, kind, resourcePath).rows| == |fetch.payload.items| > 0
      && forall i :: 0 <= i < |fetch.payload.items| ==>
           TableBody(fetch, kind, resourcePath).rows[i] == RecordRow(kind, fetch.payload.items[i], i, BasePath(resourcePath))
  {
    if fetch.Loaded? && !IsEmpty(fetch.payload) {
      var items := fetch.payload.items;
      forall i | 0 <= i < |items|
        ensures RecordRows(kind, items, BasePath(resourcePath))[i] == RecordRow(kind, items[i], i, BasePath(resourcePath))
      {
        RecordRowsAt(kind, items, BasePath(resourcePath), i);
      }
    }
  }

  /** The cells of a record's row: the serial number is its position plus one,
      a missing number shows "-", the title falls back from `title` to `Title` to "",
      the link is the base path and the bare file name, and the row carries a
      `data-date` key exactly when the record has a date. */
  lemma RecordRowShape(kind: string, item: Object, index: nat, resourcePath: string)
    ensures var row := RecordRow(kind, item, index, BasePath(resourcePath));
      && (row.date.Some? <==> Truthy(item, "date") || Truthy(item, "Date"))
      && (kind in DocumentKinds || kind in {"downloads", "whoswho"} <==> row.cells != [])
      && (row.cells != [] ==> row.cells[0] == Labelled("S.No", NatToString(index + 1)))
      && (kind in DocumentKinds || kind == "downloads" ==>
            row.cells[1] == Labelled("Title", Pick(item, "title", "Title", ""))
            && (row.cells[1].text == "" <==> !Truthy(item, "title") && !Truthy(item, "Title"))
            && row.cells[|row.cells| - 1].View?
            && LastSegment(row.cells[|row.cells| - 1].href, '/') == LastSegment(Pick(item, "file", "Link", ""), '/'))
      && (kind in DocumentKinds ==>
            |row.cells| == 5
            && row.cells[2].text != ""
            && (!Truthy(item, "number") && !Truthy(item, "Number") ==> row.cells[2] == Labelled("Number", "-")))
      && (kind == "downloads" ==> |row.cells| == 3)
      && (kind == "whoswho" ==> |row.cells| == 6)
  {
    HrefSegments(resourcePath, Pick(item, "file", "Link", ""));
  }

  /** The text the table widget scans from a body row: its cells' texts, tab
      separated; the View cell holds only an icon. */
  function ToRow(row: BodyRow): DataTable.Row {
    DataTable.Row(Join(CellTexts(row.cells), "\t"), row.date)
  }

  function CellTexts(cells: seq<Cell>): (r: seq<string>)
    ensures |r| == |cells|
    ensures forall i :: 0 <= i < |cells| ==> r[i] == (if cells[i].Labelled? then cells[i].text else "")
  {
    seq(|cells|, i requires 0 <= i < |cells| => if cells[i].Labelled? then cells[i].text else "")
  }

  function ToRows(rows: seq<BodyRow>): (r: seq<DataTable.Row>)
    ensures |r| == |rows|
    ensures forall i :: 0 <= i < |rows| ==> r[i].date == rows[i].date
  {
    seq(|rows|, i requires 0 <= i < |rows| => ToRow(rows[i]))
  }

  /** `loadJsonTable`: build the rows record by record and, when rows were built
      and the body sits in a table widget, let the widget rescan and render them.
      The notice paths leave the widget as it was. */
  method LoadJsonTable(fetch: Fetch, kind: string, resourcePath: string, table: DataTable.Widget?)
    returns (body: Body)
    requires table != null ==> table.Valid()
    modifies table
    ensures body == TableBody(fetch, kind, resourcePath)
    ensures table != null && body.Rows? ==>
      && table.allRows == ToRows(body.rows) && table.currentPage == 1
      && table.filteredRows == DataTable.Matching(table.allRows, table.CurrentQuery(), 0)
      && (table.dateFilters ==> table.year == "" && table.yearOptions == DataTable.YearOptionsOf(table.allRows))
      && table.search == old(table.search) && table.month == old(table.month)
      && table.pageSize == old(table.pageSize)
      && table.Rendered()
    ensures table != null && !body.Rows? ==> unchanged(table)
  {
    if fetch.Failed? {
      return Notice(NoDataToDisplay, true);
    }
    var payload := fetch.payload;
    if payload.NotArray? || |payload.items| == 0 {
      return Notice(NoRecordsFound, false);
    }
    var basePath := if EndsWith(resourcePath, "/") then resourcePath else resourcePath + "/";
    var rows := BuildRows(kind, payload.items, basePath);
    body := Rows(rows);
    if table != null {
      table.Refresh(ToRows(rows));
    }
  }

  /** The `forEach` of `loadJsonTable`: one row per record, appended in order. */
  method BuildRows(kind: string, items: seq<Object>, basePath: string) returns (rows: seq<BodyRow>)
    ensures rows == RecordRows(kind, items, basePath)
  {
    rows := [];
    for index := 0 to |items|
      invariant rows == RecordRows(kind, items[..index], basePath)
    {
      assert items[..index + 1][..index] == items[..index];
      rows := rows + [RecordRow(kind, items[index], index, basePath)];
    }
    assert items[..|items|] == items;
  }
}
