/** The home page's data-driven panels of main.js: the "latest updates" lists,
    which show the five most recent records of a category, and the news ticker. */
module LatestUpdates {
  import opened Text
  import opened Json
  import opened Paging
  import Sorting

  // ---------------------------------------------------------------------------
  // truncateTextByWords
  // ---------------------------------------------------------------------------

  /** The ellipsis appended to a shortened title. */
  const Ellipsis: char := '…'

  /** The longest title shown in full. */
  const TitleLength: nat := 80

  /** `truncateTextByWords`: a text that fits is returned as it is; a longer one is
      cut to its first `maxLength` characters, then back to the last space in them
      when that space is not the first character, and ends with "…". */
  function TruncateTextByWords(text: string, maxLength: nat): string {
    if text == "" || |text| <= maxLength then text
    else
      var trimmed := text[..maxLength];
      var lastSpace := LastIndexOf(trimmed, ' ');
      (if lastSpace > 0 then trimmed[..lastSpace] else trimmed) + [Ellipsis]
  }

  /** A text that fits comes back unchanged. A longer one comes back as a prefix of
      at most `maxLength` characters followed by "…": the whole first `maxLength`
      characters when no space stands among them after the first character,
      otherwise the text before the last such space. */
  lemma TruncateSpec(text: string, maxLength: nat)
    ensures text == "" || |text| <= maxLength ==> TruncateTextByWords(text, maxLength) == text
    ensures text != "" && |text| > maxLength ==>
      var r := TruncateTextByWords(text, maxLength);
      && |r| >= 1 && r[|r| - 1] == Ellipsis
      && r[..|r| - 1] <= text
      && |r| <= maxLength + 1
      && (|r| - 1 == maxLength <==> forall i :: 0 < i < maxLength ==> text[i] != ' ')
      && (|r| - 1 < maxLength ==>
            && 0 < |r| - 1 && text[|r| - 1] == ' '
            && forall i :: |r| - 1 < i < maxLength ==> text[i] != ' ')
  {
    if text != "" && |text| > maxLength {
      var trimmed := text[..maxLength];
      var lastSpace := LastIndexOf(trimmed, ' ');
      if lastSpace <= 0 {
        forall i | 0 < i < maxLength ensures text[i] != ' ' { assert trimmed[i] == text[i]; }
      } else {
        assert trimmed[lastSpace] == ' ';
      }
    }
  }

  // ---------------------------------------------------------------------------
  // Normalising the records of loadLatestFive
  // ---------------------------------------------------------------------------

  /** A record after normalisation: `{ title, date, link, number }`. */
  datatype Update = Update(title: string, date: string, link: string, number: string)

  /** `item.Link || "#"`, with a bare file name (no "/") resolved against the base
      path when one is given; "#" itself counts as a bare file name. */
  function LinkOf(item: Object, basePath: string): string {
    var link := if Truthy(item, "Link") then item["Link"] else "#";
    if link != "" && '/' !in link && basePath != "" then BasePath(basePath) + link else link
  }

  /** The link is never empty. A missing link is "#", prefixed like any bare name.
      A link holding a "/" is kept as it is. A bare name with a base path is joined
      to the base path with exactly one "/" between them, as the last segment. */
  lemma LinkOfSpec(item: Object, basePath: string)
    ensures LinkOf(item, basePath) != ""
    ensures !Truthy(item, "Link") && basePath == "" ==> LinkOf(item, basePath) == "#"
    ensures Truthy(item, "Link") && '/' in item["Link"] ==> LinkOf(item, basePath) == item["Link"]
    ensures basePath == "" ==> LinkOf(item, basePath) == Pick(item, "Link", "Link", "#")
    ensures basePath != "" && '/' !in Pick(item, "Link", "Link", "#") ==>
      var r := LinkOf(item, basePath);
      && r[..|basePath|] == basePath
      && LastSegment(r, '/') == Pick(item, "Link", "Link", "#")
      && |r| <= |basePath| + 1 + |Pick(item, "Link", "Link", "#")|
    ensures basePath != "" && '/' !in Pick(item, "Link", "Link", "#") ==>
      LinkOf(item, basePath) == BasePath(basePath) + Pick(item, "Link", "Link", "#")
  {
    var link := Pick(item, "Link", "Link", "#");
    if basePath != "" && '/' !in link {
      BasePathJoin(basePath, link);
    }
  }

  /** The `map` step of `loadLatestFive`: the capitalised fields, "" when missing. */
  function Normalise(item: Object, basePath: string): Update {
    Update(Field(item, "Title"), Field(item, "Date"), LinkOf(item, basePath), Field(item, "Number"))
  }

  /** The `filter` step keeps a record with a title, a date and a link. */
  predicate Complete(u: Update) {
    u.title != "" && u.date != "" && u.link != ""
  }

  /** Since the link is never empty, a record is dropped exactly when its Title or
      its Date is missing. */
  lemma CompleteIff(item: Object, basePath: string)
    ensures Complete(Normalise(item, basePath)) <==> Truthy(item, "Title") && Truthy(item, "Date")
  {
    LinkOfSpec(item, basePath);
  }

  /** `data.map(normalise)`. */
  function NormaliseAll(items: seq<Object>, basePath: string): (r: seq<Update>)
    ensures |r| == |items|
  {
    seq(|items|, i requires 0 <= i < |items| => Normalise(items[i], basePath))
  }

  /** `filter(item => item.title && item.date && item.link)`, in order. */
  function Kept(us: seq<Update>): seq<Update> {
    Sorting.Filter(us, Complete)
  }

  // ---------------------------------------------------------------------------
  // Newest first
  // ---------------------------------------------------------------------------

  /** `Number(part)` for a part made of decimal digits (the empty part reads 0);
      any other part, and a missing one, also reads 0 here. */
  function NumberOf(part: string): nat {
    if AllDigits(part) then DigitsValue(part) else 0
  }

  /** The day a `DD-MM-YYYY` date stands for, as (year, month, day). */
  function DayKey(date: string): (nat, nat, nat) {
    var parts := Split(date, '-');
    var day := if |parts| > 0 then NumberOf(parts[0]) else 0;
    var month := if |parts| > 1 then NumberOf(parts[1]) else 0;
    var year := if |parts| > 2 then NumberOf(parts[2]) else 0;
    (year, month, day)
  }

  /** A well-formed date D-M-Y reads as the day (Y, M, D). */
  lemma DayKeyOf(d: string, m: string, y: string)
    requires AllDigits(d) && AllDigits(m) && AllDigits(y)
    ensures DayKey(d + "-" + m + "-" + y) == (DigitsValue(y), DigitsValue(m), DigitsValue(d))
  {
    assert '-' !in d && '-' !in m && '-' !in y by {
      assert !IsDigit('-');
    }
    assert Join([d, m, y], "-") == d + "-" + m + "-" + y by {
      assert [d, m, y][1..] == [m, y];
      assert Join([m, y], "-") == m + "-" + y by { assert [m, y][1..] == [y]; }
    }
    SplitJoin([d, m, y], '-');
  }

  /** The comparator `(a, b) => dateOf(b) - dateOf(a)`: `a` may come first when its
      day is not earlier than `b`'s. */
  function NewerOrSame(a: Update, b: Update): bool {
    var (ya, ma, da) := DayKey(a.date);
    var (yb, mb, db) := DayKey(b.date);
    ya > yb || (ya == yb && (ma > mb || (ma == mb && da >= db)))
  }

  lemma NewerOrSameIsPreorder()
    ensures Sorting.TotalPreorder(NewerOrSame)
  {}

  /** The updates the panel lists: the complete records, newest first, at most five. */
  function LatestFive(us: seq<Update>): seq<Update> {
    var sorted := Sorting.SortBy(Kept(us), NewerOrSame);
    sorted[..Min(5, |sorted|)]
  }

  /** At most five complete records are listed, newest first, and they are the most
      recent ones: every complete record left out is no newer than any listed one. */
  lemma LatestFiveSpec(us: seq<Update>)
    ensures |LatestFive(us)| == Min(5, |Kept(us)|)
    ensures forall k :: 0 <= k < |LatestFive(us)| ==> Complete(LatestFive(us)[k])
    ensures multiset(LatestFive(us)) <= multiset(Kept(us))
    ensures Sorting.SortedBy(LatestFive(us), NewerOrSame)
    ensures forall u :: multiset(LatestFive(us))[u] < multiset(Kept(us))[u] ==>
      forall i :: 0 <= i < |LatestFive(us)| ==> NewerOrSame(LatestFive(us)[i], u)
  {
    var kept := Kept(us);
    var r := LatestFive(us);
    NewerOrSameIsPreorder();
    Sorting.FilterSpec(us, Complete);
    Sorting.SortedPrefix(kept, NewerOrSame, Min(5, |kept|));
    forall k | 0 <= k < |r| ensures Complete(r[k]) {
      assert r[k] in multiset(kept);
    }
  }

  /** The value of a two-digit and of a four-digit decimal string. */
  lemma DigitsValueOfLength(s: string)
    requires AllDigits(s) && (|s| == 2 || |s| == 4)
    ensures |s| == 2 ==> DigitsValue(s) == DigitValue(s[0]) * 10 + DigitValue(s[1])
    ensures |s| == 4 ==>
      DigitsValue(s) == DigitValue(s[0]) * 1000 + DigitValue(s[1]) * 100 + DigitValue(s[2]) * 10 + DigitValue(s[3])
  {
    var n := |s|;
    assert s[..n - 1][..n - 2] == s[..n - 2];
    if n == 4 {
      assert s[..2][..1] == s[..1] && s[..3][..2] == s[..2];
      assert s[..1][..0] == [];
    } else {
      assert s[..1][..0] == [];
    }
  }

  /** The day of a DD-MM-YYYY date with two-digit day and month. */
  lemma DayKeyOfText(date: string)
    requires |date| == 10 && date[2] == '-' && date[5] == '-'
    requires IsDigit(date[0]) && IsDigit(date[1]) && IsDigit(date[3]) && IsDigit(date[4])
    requires IsDigit(date[6]) && IsDigit(date[7]) && IsDigit(date[8]) && IsDigit(date[9])
    ensures DayKey(date) ==
      (DigitValue(date[6]) * 1000 + DigitValue(date[7]) * 100 + DigitValue(date[8]) * 10 + DigitValue(date[9]),
       DigitValue(date[3]) * 10 + DigitValue(date[4]),
       DigitValue(date[0]) * 10 + DigitValue(date[1]))
  {
    assert date == date[..2] + "-" + date[3..5] + "-" + date[6..];
    assert AllDigits(date[..2]) && AllDigits(date[3..5]) && AllDigits(date[6..]);
    DayKeyOf(date[..2], date[3..5], date[6..]);
    DigitsValueOfLength(date[..2]);
    DigitsValueOfLength(date[3..5]);
    DigitsValueOfLength(date[6..]);
  }

  /** Five complete updates on the example's days are listed newest first. */
  lemma LatestFiveOfDays(a: Update, b: Update, c: Update, d: Update, e: Update)
    requires Complete(a) && Complete(b) && Complete(c) && Complete(d) && Complete(e)
    requires DayKey(a.date) == (2025, 3, 1) && DayKey(b.date) == (2025, 1, 15)
    requires DayKey(c.date) == (2024, 6, 20) && DayKey(d.date) == (2025, 5, 5)
    requires DayKey(e.date) == (2025, 10, 10)
    ensures LatestFive([a, b, c, d, e]) == [e, d, a, b, c]
  {
    var us := [a, b, c, d, e];
    Sorting.FilterAll(us, Complete);
    var le := NewerOrSame;
    assert !le(d, e) && !le(c, e) && !le(c, d) && !le(b, e) && !le(b, d) && le(b, c);
    assert !le(a, e) && !le(a, d) && le(a, b);
    SortFive(a, b, c, d, e, le);
  }

  /** The insertion steps that sort five elements whose order is e, d, a, b, c. */
  lemma SortFive<X>(a: X, b: X, c: X, d: X, e: X, le: (X, X) -> bool)
    requires !le(d, e) && !le(c, e) && !le(c, d) && !le(b, e) && !le(b, d) && le(b, c)
    requires !le(a, e) && !le(a, d) && le(a, b)
    ensures Sorting.SortBy([a, b, c, d, e], le) == [e, d, a, b, c]
  {
    assert Sorting.SortBy([e], le) == [e] by {
      Sorting.SortByFirst([e], le);
      assert [e][1..] == [];
    }
    assert Sorting.SortBy([d, e], le) == [e, d] by {
      Sorting.SortByFirst([d, e], le);
      assert [d, e][1..] == [e];
      Sorting.InsertAfter(d, [e], le);
      assert [e][1..] == [];
    }
    assert Sorting.SortBy([c, d, e], le) == [e, d, c] by {
      Sorting.SortByFirst([c, d, e], le);
      assert [c, d, e][1..] == [d, e];
      Sorting.InsertAfter(c, [e, d], le);
      assert [e, d][1..] == [d];
      Sorting.InsertAfter(c, [d], le);
      assert [d][1..] == [];
    }
    assert Sorting.SortBy([b, c, d, e], le) == [e, d, b, c] by {
      Sorting.SortByFirst([b, c, d, e], le);
      assert [b, c, d, e][1..] == [c, d, e];
      assert Sorting.Insert(b, [c], le) == [b, c] by {
        Sorting.InsertFirst(b, [c], le);
      }
      assert Sorting.Insert(b, [d, c], le) == [d, b, c] by {
        Sorting.InsertAfter(b, [d, c], le);
        assert [d, c][1..] == [c];
      }
      Sorting.InsertAfter(b, [e, d, c], le);
      assert [e, d, c][1..] == [d, c];
    }
    Sorting.SortByFirst([a, b, c, d, e], le);
    assert [a, b, c, d, e][1..] == [b, c, d, e];
    assert Sorting.Insert(a, [b, c], le) == [a, b, c] by {
      Sorting.InsertFirst(a, [b, c], le);
    }
    assert Sorting.Insert(a, [d, b, c], le) == [d, a, b, c] by {
      Sorting.InsertAfter(a, [d, b, c], le);
      assert [d, b, c][1..] == [b, c];
    }
    Sorting.InsertAfter(a, [e, d, b, c], le);
    assert [e, d, b, c][1..] == [d, b, c];
  }

  /** A date written DD-MM-YYYY reads as the day it names. */
  lemma ExampleDay(date: string, year: nat, month: nat, day: nat)
    requires |date| == 10 && date[2] == '-' && date[5] == '-'
    requires IsDigit(date[0]) && IsDigit(date[1]) && IsDigit(date[3]) && IsDigit(date[4])
    requires IsDigit(date[6]) && IsDigit(date[7]) && IsDigit(date[8]) && IsDigit(date[9])
    requires year == DigitValue(date[6]) * 1000 + DigitValue(date[7]) * 100 + DigitValue(date[8]) * 10 + DigitValue(date[9])
    requires month == DigitValue(date[3]) * 10 + DigitValue(date[4])
    requires day == DigitValue(date[0]) * 10 + DigitValue(date[1])
    ensures DayKey(date) == (year, month, day)
  {
    DayKeyOfText(date);
  }

  /** The dates of the example: five records come out as 10-10-2025, 05-05-2025,
      01-03-2025, 15-01-2025 and 20-06-2024. */
  lemma LatestFiveExample(a: Update, b: Update, c: Update, d: Update, e: Update)
    requires Complete(a) && Complete(b) && Complete(c) && Complete(d) && Complete(e)
    requires a.date == "01-03-2025" && b.date == "15-01-2025" && c.date == "20-06-2024"
    requires d.date == "05-05-2025" && e.date == "10-10-2025"
    ensures LatestFive([a, b, c, d, e]) == [e, d, a, b, c]
  {
    ExampleDay("01-03-2025", 2025, 3, 1);
    ExampleDay("15-01-2025", 2025, 1, 15);
    ExampleDay("20-06-2024", 2024, 6, 20);
    ExampleDay("05-05-2025", 2025, 5, 5);
    ExampleDay("10-10-2025", 2025, 10, 10);
    LatestFiveOfDays(a, b, c, d, e);
  }

  // ---------------------------------------------------------------------------
  // The rendered panel
  // ---------------------------------------------------------------------------

  /** The message shown when the fetch fails. */
  const CurrentlyNoData: string := "Currently No Data"

  /** One `<a class="update-item">`: its link, the shortened title shown, the full
      title in its tooltip, the date, and whether it carries the NEW badge. */
  datatype Entry = Entry(href: string, shortTitle: string, title: string, date: string, isNew: bool)

  /** The panel: a message paragraph (`error` for the red one), or the entries. */
  datatype Panel = Message(text: string, error: bool) | Entries(entries: seq<Entry>)

  /** The entry for the update at `index` of the list. */
  function EntryFor(u: Update, index: nat): Entry {
    Entry(u.link, TruncateTextByWords(u.title, TitleLength), u.title, u.date, index == 0)
  }

  /** What `loadLatestFive` leaves in its container. */
  function LatestPanel(fetch: Fetch, emptyMessage: string, basePath: string): Panel {
    match fetch
    case Failed => Message(CurrentlyNoData, true)
    case Loaded(payload) =>
      if IsEmpty(payload) then Message(emptyMessage, false)
      else
        var latest := LatestFive(NormaliseAll(payload.items, basePath));
        if latest == [] then Message(emptyMessage, false)
        else Entries(EntriesOf(latest))
  }

  /** One entry per update, in order. */
  function EntriesOf(latest: seq<Update>): (r: seq<Entry>)
    ensures |r| == |latest|
  {
    if latest == [] then []
    else EntriesOf(latest[..|latest| - 1]) + [EntryFor(latest[|latest| - 1], |latest| - 1)]
  }

  /** Entry `i` is made from update `i`. */
  lemma {:induction false} EntriesOfAt(latest: seq<Update>, i: nat)
    requires i < |latest|
    ensures EntriesOf(latest)[i] == EntryFor(latest[i], i)
  {
    if i < |latest| - 1 {
      EntriesOfAt(latest[..|latest| - 1], i);
    }
  }

  /** A failed fetch shows "Currently No Data"; an empty payload and a payload with
      no complete record show the caller's empty message; otherwise one entry per
      listed update, in order, where exactly the first carries the NEW badge and
      every title is shortened to at most 80 characters and the ellipsis. */
  lemma LatestPanelSpec(fetch: Fetch, emptyMessage: string, basePath: string)
    ensures fetch.Failed? <==> LatestPanel(fetch, emptyMessage, basePath) == Message(CurrentlyNoData, true)
    ensures fetch.Loaded? && IsEmpty(fetch.payload) ==>
      LatestPanel(fetch, emptyMessage, basePath) == Message(emptyMessage, false)
    ensures fetch.Loaded? && !IsEmpty(fetch.payload) ==>
      var latest := LatestFive(NormaliseAll(fetch.payload.items, basePath));
      match LatestPanel(fetch, emptyMessage, basePath)
      case Message(text, error) => latest == [] && text == emptyMessage && !error
      case Entries(entries) =>
        && 1 <= |entries| == |latest| <= 5
        && (forall i :: 0 <= i < |entries| ==> (entries[i].isNew <==> i == 0))
        && (forall i :: 0 <= i < |entries| ==>
              entries[i].href == latest[i].link && entries[i].date == latest[i].date
              && entries[i].title == latest[i].title && |entries[i].shortTitle| <= TitleLength + 1)
  {
    if fetch.Loaded? && !IsEmpty(fetch.payload) {
      var latest := LatestFive(NormaliseAll(fetch.payload.items, basePath));
      LatestFiveSpec(NormaliseAll(fetch.payload.items, basePath));
      forall i | 0 <= i < |latest| ensures EntriesOf(latest)[i] == EntryFor(latest[i], i)
        && |TruncateTextByWords(latest[i].title, TitleLength)| <= TitleLength + 1
      {
        EntriesOfAt(latest, i);
        TruncateSpec(latest[i].title, TitleLength);
      }
    }
  }

  /** `loadLatestFive`: normalise, filter, sort, take five, then append one entry
      per update, flagging the first. */
  method LoadLatestFive(fetch: Fetch, emptyMessage: string, basePath: string) returns (panel: Panel)
    ensures panel == LatestPanel(fetch, emptyMessage, basePath)
  {
    if fetch.Failed? {
      return Message(CurrentlyNoData, true);
    }
    var payload := fetch.payload;
    if payload.NotArray? || |payload.items| == 0 {
      return Message(emptyMessage, false);
    }
    var latest := LatestFive(NormaliseAll(payload.items, basePath));
    if |latest| == 0 {
      return Message(emptyMessage, false);
    }
    var entries := BuildEntries(latest);
    panel := Entries(entries);
  }

  /** The `forEach` of `loadLatestFive`: one entry per update, the first one new. */
  method BuildEntries(latest: seq<Update>) returns (entries: seq<Entry>)
    ensures entries == EntriesOf(latest)
  {
    entries := [];
    for index := 0 to |latest|
      invariant entries == EntriesOf(latest[..index])
    {
      assert latest[..index + 1][..index] == latest[..index];
      var isNew := index == 0;
      var shortTitle := TruncateTextByWords(latest[index].title, TitleLength);
      entries := entries + [Entry(latest[index].link, shortTitle, latest[index].title, latest[index].date, isNew)];
    }
    assert latest[..|latest|] == latest;
  }

  // ---------------------------------------------------------------------------
  // loadNewsTicker
  // ---------------------------------------------------------------------------

  const NoAnnouncements: string := "No announcements available."
  const UnableToLoad: string := "Unable to load announcements."

  /** The texts of the ticker's entries: the ticker is never left empty, a failed
      or empty load shows one message, and a non-empty array one entry per element. */
  function TickerEntries(fetch: Fetch): (r: seq<string>)
    ensures |r| >= 1
    ensures fetch.Loaded? && !IsEmpty(fetch.payload) ==> |r| == |fetch.payload.items|
    ensures !(fetch.Loaded? && !IsEmpty(fetch.payload)) ==> |r| == 1 && r[0] in {UnableToLoad, NoAnnouncements}
  {
    match fetch
    case Failed => [UnableToLoad]
    case Loaded(payload) =>
      if IsEmpty(payload) then [NoAnnouncements]
      else seq(|payload.items|, i requires 0 <= i < |payload.items| => Pick(payload.items[i], "text", "Text", ""))
  }

  /** `loadNewsTicker`: a failed fetch gives the single "Unable to load" entry, an
      empty payload the single "No announcements" entry, and an array one entry per
      element, read from `text`, else `Text`, else empty. */
  method LoadNewsTicker(fetch: Fetch) returns (entries: seq<string>)
    ensures entries == TickerEntries(fetch)
    ensures fetch.Failed? ==> entries == [UnableToLoad]
    ensures fetch.Loaded? && IsEmpty(fetch.payload) ==> entries == [NoAnnouncements]
    ensures fetch.Loaded? && !IsEmpty(fetch.payload) ==>
      && |entries| == |fetch.payload.items|
      && forall i :: 0 <= i < |fetch.payload.items| ==>
           var item := fetch.payload.items[i];
           entries[i] == (if Truthy(item, "text") then item["text"]
                          else if Truthy(item, "Text") then item["Text"] else "")
  {
    if fetch.Failed? {
      return [UnableToLoad];
    }
    var payload := fetch.payload;
    if payload.NotArray? || |payload.items| == 0 {
      return [NoAnnouncements];
    }
    entries := [];
    for i := 0 to |payload.items|
      invariant |entries| == i
      invariant forall j :: 0 <= j < i ==> entries[j] == Pick(payload.items[j], "text", "Text", "")
    {
      var item := payload.items[i];
      entries := entries + [if Truthy(item, "text") then item["text"] else if Truthy(item, "Text") then item["Text"] else ""];
    }
  }
}
