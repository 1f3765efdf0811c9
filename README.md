# Data-driven pages of the CEO Doda site, modelled in Dafny

The site shows official documents (orders, notifications, circulars, press releases,
seniority lists, downloads) and a staff directory. Static JSON files supply the data,
and three browser scripts turn them into pages:

- `assets/js/data-table.js` provides two things. `initDataTable` is a table widget: a
  search box, optional year and month selectors, a page-size selector and a Prev / 1..n /
  Next pagination bar. The widget hides every row except those of the current page of
  rows that pass the filters. `loadJsonTable` fills a table body from a JSON array. It
  builds one row per record, with columns chosen by the table type, a View link made of
  the resource path and the bare file name, and a `data-date` key `YYYY-MM-DD` taken from
  the record's `DD-MM-YYYY` date. It then asks the widget to rescan. The year selector
  lists, newest first, the distinct years from 2024 on found in the rows.
- `assets/js/main.js` builds two panels. The "latest updates" panel normalises the
  records and drops those without a title or date. It sorts the rest newest first, lists
  at most five, flags the first as NEW and shortens each title at a word boundary to 80
  characters plus "…". The news ticker shows one entry per announcement.
- `assets/js/whoswho.js` is the Who's Who directory. It offers the sections found in
  the staff records as a filter. It filters by section and by a case-insensitive search
  over name, designation, section, email and contact. It shows one page of staff cards,
  an info line and a pagination bar that shows the first and last pages, the pages
  within two of the current one, and an ellipsis for each run of skipped pages.

Module by module:

- `Text` models the JavaScript string built-ins the scripts rely on: `trim` over the
  JavaScript whitespace set, `split` and `join`, `includes`, `lastIndexOf`,
  `endsWith`, `parseInt` with radix 10, number-to-decimal-string, `padStart(2, "0")`
  and `encodeURIComponent`, the last through UTF-8.
- `Sorting` is a stable insertion sort over any total preorder and an order-keeping
  `filter`, with their permutation, ordering and membership lemmas.
- `Json` holds the fetched payloads and the `a || b || default` way of reading a field.
- `Paging` holds the page arithmetic and pagination items shared by the widget and the
  directory.
- `DataTable`, `JsonTable`, `LatestUpdates` and `WhosWho` hold the scripts
  themselves.

The table widget (`DataTable.Widget`) and the directory (`WhosWho.Directory`) are
classes. The state their scripts keep in closure or module variables are fields, and
the parts of the page they write are fields too: the visible rows, the info line, the
grid and the bar. Each event handler is a method that states the whole new state. The
`Rendered` invariant they maintain says that what is displayed is the current, in-range
page of the filtered rows. Loops over rows, records and buttons are methods. Each is
proved equal to a specification function, and the source's promises are proved as
lemmas about those functions.

## Model

| member | source | states |
|---|---|---|
| Paging.TotalPages | assets/js/data-table.js:134 | `max(1, ceil(total / pageSize))`: at least one page, exactly one for an empty list, and otherwise the smallest page count that holds every item |
| Paging.PageWithinRows | assets/js/data-table.js:140-142 | on a page in range of a non-empty list, the page's first index is in the list and the slice `start..min(start + size, total)` is non-empty and in bounds |
| Paging.InfoForPage | assets/js/data-table.js:146-152 | the info line is "Showing 0 of 0" exactly when nothing passed. Otherwise it starts at the page's first item, ends within the total and counts as many items as the page shows, a full page on every page but the last. The same holds for `assets/js/whoswho.js:158-165` |
| Text.TrimIsCore | assets/js/whoswho.js:32 | `trim` yields a substring of the input with no whitespace at either end, and is empty exactly when the input is all whitespace. It sits right after the leading whitespace, and everything it drops before and after it is whitespace |
| Paging.InfoTextExample | assets/js/data-table.js:146-152 | the rendered line reads "Showing 0 of 0 records" with nothing to show, and "Showing 11–20 of 25 records" on the second page of 25 at 10 a page |
| Text.EncodeURIComponentProperties | assets/js/whoswho.js:33 | `encodeURIComponent` leaves a name of unreserved characters unchanged and never emits "/" |
| Text.SplitJoin | assets/js/data-table.js:265 | splitting a join on a separator the parts do not contain gives back the parts |
| Text.ParseIntNatToString | assets/js/data-table.js:214 | `parseInt` reads back the decimal writing of every natural number |
| Sorting.FilterSpec | assets/js/whoswho.js:64-72 | `filter` keeps exactly the elements satisfying the predicate, each as often as in the input, in input order |
| Sorting.SortBySorted | assets/js/main.js:98-102 | the sort orders its result by the comparator whenever the comparator is a total preorder |
| Sorting.SortByPermutation | assets/js/main.js:98-102 | the sort's result is a permutation of its input |
| Sorting.SortedPrefix | assets/js/main.js:104 | the first n elements of the sorted list are sorted, are drawn from the input, and precede every element left out |
| Sorting.DistinctKeysSpec | assets/js/data-table.js:208-218 | collecting keys into a `Set` yields each key found in the input once, and no other |
| DataTable.DateClauseCases | assets/js/data-table.js:113-122 | a row without a `data-date`, a widget without date filters, or a query without year and month never loses a row to the date clause. A key that is not three decimal parts is an invalid date: with selector values, the row passes exactly when neither a year nor a month is selected |
| DataTable.DateClauseOfKey | assets/js/data-table.js:113-121 | on a key `Y-MM-D` (year without leading zeros, two-digit month), the row passes exactly when the selected year is `Y` or none and the selected month is `MM` or none |
| DataTable.YearMonthOfKey | assets/js/data-table.js:114-121 | a key `Y-MM-D` with a year written without leading zeros reads back year text Y and month text MM |
| DataTable.Matching | assets/js/data-table.js:105-125 | the filtered rows are, in table order and without repetition, exactly the rows that pass the search and date clauses |
| DataTable.TableButtonsShape | assets/js/data-table.js:157-181 | no bar for a single page. Otherwise Prev, the pages 1..n in order with only the current one active, and Next. Prev leads to the page before and is disabled exactly on page 1. Next leads to the page after and is disabled exactly on page n. Every enabled button leads to a page in range |
| DataTable.RenderPagination | assets/js/data-table.js:157-181 | the buttons it appends are those of `TableButtons` |
| DataTable.YearOptions | assets/js/data-table.js:207-228 | the loop over the rows computes `YearOptionsOf` |
| DataTable.YearOptionsSpec | assets/js/data-table.js:207-228 | the year options are exactly the first date components of the rows that `parseInt` reads as 2024 or later, each once, in descending numeric order |
| DataTable.YearOptionsStrict | assets/js/data-table.js:220 | when every accepted year is written without leading zeros, the order is strictly descending |
| DataTable.ShowOnly | assets/js/data-table.js:138-144 | hiding every row and then showing the page's rows leaves visible exactly the page's rows |
| DataTable.PageView | assets/js/data-table.js:138-154 | for a page in range, the visible rows are exactly the page's slice of the filtered rows, the info line is that of the page, and the bar is `TableButtons` |
| DataTable.Widget.constructor | assets/js/data-table.js:199-201 | the first scan takes every row unfiltered on page 1 at page size 10, and renders it. With date filters on, the year selector holds `YearOptionsOf` the rows; without them it stays empty |
| DataTable.Widget.ScanRows | assets/js/data-table.js:90-98 | the rows are rescanned and every row counts as filtered. With date filters on, the year selector is reset to "All Years" and holds `YearOptionsOf` the rows. Otherwise the year selector is untouched |
| DataTable.Widget.ApplyFilters | assets/js/data-table.js:100-129 | the filtered rows are `Matching` the current inputs, the page is reset to 1, and the table is rendered |
| DataTable.Widget.RenderTable | assets/js/data-table.js:131-155 | the page is clamped down to the last page and the table shows that page |
| DataTable.Widget.Click | assets/js/data-table.js:167-170 | a click on an enabled button moves to its page, which is in range, and renders |
| DataTable.Widget.SetSearch | assets/js/data-table.js:184 | typing in the search box refilters from page 1 |
| DataTable.Widget.SetYear | assets/js/data-table.js:185 | choosing a year refilters from page 1 |
| DataTable.Widget.SetMonth | assets/js/data-table.js:186 | choosing a month refilters from page 1 |
| DataTable.Widget.SetPageSize | assets/js/data-table.js:187 | choosing a page size refilters from page 1 |
| DataTable.Widget.Refresh | assets/js/data-table.js:194-197 | the refresh hook rescans the new rows, refilters them from page 1 and renders |
| JsonTable.FileName | assets/js/data-table.js:262 | the stripped file name is the reference's last "/"-separated segment. It contains no "/", is a suffix of the reference, and is the reference itself when that has no "/" |
| JsonTable.HrefSegments | assets/js/data-table.js:252-276 | the View link is the resource path with one trailing "/", followed by the file's last path segment. It starts with the resource path, and its own last segment is the file's |
| JsonTable.HrefUnderBase | assets/js/data-table.js:262-276 | a file reference already under the resource directory keeps its path in the link |
| JsonTable.HrefExample | assets/js/data-table.js:262-276 | "resources/orders/x.pdf" under the resource path "resources/orders" links to "resources/orders/x.pdf" |
| JsonTable.DateKeyRoundTrip | assets/js/data-table.js:264-267 | a date D-M-Y becomes the key Y-M-D, and splitting the key gives back the three parts reversed |
| JsonTable.DateKeyFilters | assets/js/data-table.js:264-267 | a record dated DD-MM-YYYY is found by the widget's year and month filters under YYYY and MM |
| JsonTable.RecordRowsAt | assets/js/data-table.js:254-307 | row i is built from record i and numbered i + 1 |
| JsonTable.TableBodyCases | assets/js/data-table.js:239-318 | a failed load shows the red "No Data to Display" row. An empty or non-array payload shows the "No records found" row. Anything else gives one row per record: row i is `RecordRow` of record i, numbered i + 1, linking under the resource path |
| JsonTable.RecordRowShape | assets/js/data-table.js:254-304 | document types get 5 cells, downloads 3 and staff 6; unknown types get none. The serial is position + 1 and the title falls back from `title` to `Title` to "". A missing number shows "-", the View link ends with the file's last segment, and the row has a `data-date` exactly when the record has a date |
| JsonTable.LoadJsonTable | assets/js/data-table.js:233-318 | the body is `TableBody`. When rows were built and the body sits in a widget, the widget holds those rows, on page 1, rendered. Its filtered rows are the rows matching its current query. With date filters, the year selector is reset and offers the rows' years. Search, month and page size are unchanged. The notice paths leave the widget untouched |
| JsonTable.BuildRows | assets/js/data-table.js:254-307 | the loop over the records appends `RecordRows` |
| LatestUpdates.TruncateSpec | assets/js/main.js:11-20 | a text that fits is returned unchanged. A longer one becomes a prefix of at most `maxLength` characters plus "…": all `maxLength` characters when no space follows the first one, else the text before the last space among them |
| LatestUpdates.LinkOfSpec | assets/js/main.js:76-82 | the link is never empty. A missing link is "#". A link with "/" is kept. A bare name with a base path becomes the base path with exactly one trailing "/", then the name as last segment |
| LatestUpdates.CompleteIff | assets/js/main.js:84-90 | a normalised record is kept exactly when it has a Title and a Date |
| LatestUpdates.DayKeyOf | assets/js/main.js:99-101 | a date D-M-Y of digits reads as the day (Y, M, D) |
| LatestUpdates.LatestFiveSpec | assets/js/main.js:92-104 | at most five records are listed, all complete, drawn from the kept records, newest first, and no kept record left out is newer than a listed one |
| LatestUpdates.LatestFiveExample | assets/js/main.js:97-104 | five dated records come out ordered 10-10-2025, 05-05-2025, 01-03-2025, 15-01-2025, 20-06-2024 |
| LatestUpdates.EntriesOfAt | assets/js/main.js:107-129 | entry i is made from update i, and only entry 0 is new |
| LatestUpdates.LatestPanelSpec | assets/js/main.js:59-135 | a failed fetch shows "Currently No Data". An empty payload, or one with no complete record, shows the caller's message. Otherwise there are 1 to 5 entries in list order, only the first flagged NEW, each with its link, date, full title and a short title of at most 81 characters |
| LatestUpdates.LoadLatestFive | assets/js/main.js:59-135 | what the loader leaves in its container is `LatestPanel` |
| LatestUpdates.BuildEntries | assets/js/main.js:107-129 | the loop over the listed updates appends `EntriesOf` |
| LatestUpdates.TickerEntries | assets/js/main.js:25-53 | the ticker is never left empty. A failed or empty load shows one message, and a non-empty array gives one entry per element |
| LatestUpdates.LoadNewsTicker | assets/js/main.js:25-53 | a failed fetch gives only "Unable to load announcements.", an empty payload only "No announcements available.", and an array one entry per element, read from `text`, else `Text`, else "" |
| WhosWho.PageSize | assets/js/whoswho.js:21-23 | the page size is at least 1 |
| WhosWho.PageSizeOption | assets/js/whoswho.js:21-23 | a selector value written as a number n gives page size n, or 12 when n is 0 |
| WhosWho.PageSizeOutOfRange | assets/js/whoswho.js:21-23 | a negative number gives page size 1, and text starting with a character that cannot begin a number gives 12 |
| WhosWho.NoDigitGivesDefault | assets/js/whoswho.js:21-23 | any value without a digit ("", white space, a lone sign, words) is not a number to `parseInt` and gives 12 |
| WhosWho.PhotoSrcSpec | assets/js/whoswho.js:31-34 | a blank file name gives the default photo. Any other name gives the staff-image directory followed by the encoded trimmed name, as its one last segment. A name of unreserved characters is used as it is |
| WhosWho.PhotoInDirectory | assets/js/whoswho.js:33 | a non-blank file name gives a path in the staff-image directory with no further "/" |
| WhosWho.PhotoPlain | assets/js/whoswho.js:33 | a file name of unreserved characters is appended unchanged |
| WhosWho.SectionsSpec | assets/js/whoswho.js:41-43 | the offered sections are exactly the non-empty trimmed sections of the records, each once, in ascending order |
| WhosWho.SectionHasStaff | assets/js/whoswho.js:41-72 | with a blank search, choosing an offered section never leaves the directory empty |
| WhosWho.FilteredSpec | assets/js/whoswho.js:64-72 | the filtered staff are exactly the matching records, each as often as in the list, in list order; a blank search with no section keeps the whole list |
| WhosWho.FilteredCounts | assets/js/whoswho.js:64-72 | every matching record keeps its number of occurrences, every other record is dropped |
| WhosWho.FilteredOrder | assets/js/whoswho.js:64-72 | every filtered record matches, and the filtered list is a subsequence of the list |
| WhosWho.FieldMatch | assets/js/whoswho.js:65-69 | a record in the chosen section matches the search when any one of its five searched fields contains the lower-cased query |
| WhosWho.FieldMatchOnly | assets/js/whoswho.js:65-69 | a query without spaces is in the joined haystack only when one of the five fields holds it, ignoring ASCII case |
| WhosWho.SearchIff | assets/js/whoswho.js:64-72 | for a query without spaces, a record is kept exactly when it is in the chosen section, if any, and one of its five fields holds the query |
| WhosWho.JoinedQueryInPart | assets/js/whoswho.js:66-68 | a query without spaces found in the space-joined, lower-cased fields lies within one lower-cased field |
| WhosWho.QueryBlank | assets/js/whoswho.js:60 | the lower-cased trimmed query is empty exactly when the trimmed search is empty |
| WhosWho.CardSpec | assets/js/whoswho.js:79-101 | a card's name, designation and section are never blank and show the record's own text when it has one. The telephone link exists exactly for a record with a contact and dials its digits in order, all of them when the contact is all digits. The mail link exists exactly for a record with an email |
| WhosWho.CardsOfAt | assets/js/whoswho.js:163 | card i is built from record i of the page with index i |
| WhosWho.GridMatchesInfo | assets/js/whoswho.js:132-167 | the grid's cards are those of the records the info line counts, in order, at most a page of them. An empty result names the search exactly when the trimmed search is not blank |
| WhosWho.SlotsShape | assets/js/whoswho.js:197-209 | the page loop yields page 1, an ellipsis when the current page is beyond 4, the pages within 2 of the current one, an ellipsis when the current page is more than 3 before the last, and the last page |
| WhosWho.SlotsPages | assets/js/whoswho.js:197-209 | a page button appears exactly for the first page, the last page and the pages within 2 of the current one. Only the current page is active, and every other item is an ellipsis |
| WhosWho.StaffButtonsShape | assets/js/whoswho.js:170-211 | no bar for a single page. Otherwise it starts with Prev, disabled exactly on page 1, and ends with Next, disabled exactly on the last page, and every enabled button leads to a page in range |
| WhosWho.RenderPagination | assets/js/whoswho.js:170-211 | the items it appends are those of `StaffButtons` |
| WhosWho.Clamp | assets/js/whoswho.js:137-138 | the clamped page is in range, equals the page when that is in range, and is the nearest end otherwise |
| WhosWho.PageView | assets/js/whoswho.js:140-166 | for a page in range, the grid, the info line and the bar show that page of the filtered staff, or the empty message, "Showing 0 of 0 staff" and no bar |
| WhosWho.BuildCards | assets/js/whoswho.js:163 | the loop over the page's records appends `CardsOf` |
| WhosWho.Directory.constructor | assets/js/whoswho.js:9-11 | the directory starts with no staff, on page 1, with nothing shown |
| WhosWho.Directory.Load | assets/js/whoswho.js:215-236 | on success every record is taken, unfiltered, the sections are appended to the selector, and the current page is rendered. On failure only the grid changes, to the error message |
| WhosWho.Directory.Render | assets/js/whoswho.js:132-167 | the current page is clamped into range and the grid, info line and bar show it |
| WhosWho.Directory.ApplyFilter | assets/js/whoswho.js:59-76 | the filtered staff are `Filtered` by the current search and section, from page 1, rendered |
| WhosWho.Directory.SetSearch | assets/js/whoswho.js:239 | typing in the search box refilters from page 1 |
| WhosWho.Directory.SetSection | assets/js/whoswho.js:52-55 | choosing a section refilters from page 1 |
| WhosWho.Directory.SetPageSize | assets/js/whoswho.js:240 | choosing a page size renders page 1 without refiltering |
| WhosWho.Directory.Click | assets/js/whoswho.js:181-183 | a click on an enabled button moves to its page and renders, and a click on the current page changes nothing |

## Left out

- Fetching, the DOM and event wiring are not modelled. A fetch is a `Fetch` value: failed, or loaded with a payload. The page parts the scripts write are fields or results. Each event listener is a method of the class it updates.
- Dates are not run through the JavaScript `Date` object. The widget reads a `YYYY-MM-DD` key as three decimal parts, and a key that is not three decimal parts never equals a selected year or month. Out-of-range months and days are read at face value: "2024-13-01", an invalid date in JavaScript, reads as month 13, and "2024-02-30", which JavaScript rolls over to March, reads as month "02". The latest-updates sort compares (year, month, day) triples, so calendar rollover is not modelled there either. The widget's `new Date(key)` parses the key as UTC but reads it back with local-time getters (assets/js/data-table.js:114-119), so west of UTC the script's year and month filters see the previous day; the model reads the key's own year and month. `new Date(y, m - 1, d)` in the latest-updates sort (assets/js/main.js:99-101) maps years 0-99 to 1900-1999; the model compares the year as written.
- `Number()` of a date part that is not all digits, or of a part that is missing, reads as 0 here. A date such as "05-2025" has no third part, and `Number(undefined)` is NaN in JavaScript. JavaScript reads " 2025", "+5", "5.0" and "0x1F" as numbers (assets/js/main.js:99-100), and gives NaN for other text, which makes the sort comparator inconsistent.
- DataTable.Widget.ScanRows: sets every row visible. The script's `scanRows` (assets/js/data-table.js:90-98) leaves row display alone, but a render always follows, so the difference is never seen.
- DataTable.YearOptionsSpec: orders the year options by their `parseInt` value. The script's comparator `b - a` (assets/js/data-table.js:220) converts with `Number()`, so an accepted option such as "2024x" compares as NaN there.
- `toLowerCase` lowers ASCII letters only. Other letters are left as they are.
- `sanitize`, HTML escaping and the `title` attribute's quote escaping are not modelled. Cards, entries and rows carry the raw text.
- `innerText` of a table row is modelled as the cell texts joined by tabs. The View cell counts as empty. For a row that is not displayed, `innerText` equals `textContent`, which keeps the template's line breaks and indentation instead of tabs, so on hidden pages a query spanning two cells or holding doubled spaces can match differently from the model.
- `component-loader.js` is not part of this model.
- `initLatestUpdatesActionButtons` and the four calls in `initLatestUpdates` are not part of this model. The latter only pass constant arguments to `loadLatestFive`.
- The in-place `Array.prototype.sort` is modelled on values as a stable insertion sort. The result order for ties is therefore the input order. The model does not capture update in place.
- String lengths count code points rather than UTF-16 code units. `LexLe`, the section sort order, compares code points too.
- JSON values other than strings are not modelled. A record is a map from keys to strings, and an absent key and "" both read as falsy.
- YearOptionsStrict: holds only when every accepted year is written without leading zeros. "02024" and "2024" are both offered and compare equal, as in the script.
- The latest-updates panel shows the caller's `emptyMessage` only for an empty result (assets/js/main.js:69-72, 92-95). A failed load always shows "Currently No Data" (assets/js/main.js:133).
- The directory assumes its section selector is on the page. The script also runs without one, with no section filter.
- A card's animation delay is kept only as a number, `index * 40` milliseconds.
- The `onerror` fallback of a staff photo is not modelled, because it depends on the browser failing to load the image.
- The directory's info line before the first render is modelled as `Nothing`.
- DataTable.Widget.SetPageSize: only accepts the four sizes the selector offers. The widget's `parseInt` has no fallback for any other value.
