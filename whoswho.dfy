/** whoswho.js: the Who's Who staff directory. The page loads an array of staff
    records, offers the sections found in them as a filter, filters by section
    and by a case-insensitive search over the record's fields, and shows one
    page of staff cards with an info line and a pagination bar that elides
    pages far from the current one. */
module WhosWho {
  import opened Text
  import opened Json
  import opened Paging
  import Sorting

  /** The page size when the page-size select holds no usable number. */
  const DefaultPageSize: nat := 12

  /** The directory every staff photo is served from. */
  const PhotoDir: string := "assets/staff-images/"

  /** The photo of a record without one. */
  const DefaultPhoto: string := "assets/staff-images/default.png"

  /** What a card shows for a missing name, designation or section. */
  const Dash: string := "—"

  /** How many pages on either side of the current one the bar always shows. */
  const Around: nat := 2

  // ---------------------------------------------------------------------------
  // Page size and photos
  // ---------------------------------------------------------------------------

  /** `getPageSize`: the select's value read by parseInt; an unreadable value
      or 0 gives the default, and anything below 1 gives 1. */
  function PageSize(value: string): (r: nat)
    ensures r >= 1
  {
    match ParseInt(value)
    case None => DefaultPageSize
    case Some(n) => if n == 0 then DefaultPageSize else if n < 1 then 1 else n
  }

  /** An option written as a decimal number is taken at its word, except that
      0 falls back to the default. */
  lemma PageSizeOption(n: nat)
    ensures PageSize(NatToString(n)) == if n == 0 then DefaultPageSize else n
  {
    ParseIntNatToString(n);
  }

  /** A negative number gives one card per page; text that is not a number
      gives the default. */
  lemma PageSizeOutOfRange(n: nat, value: string)
    requires n > 0
    requires value != [] && !IsSpace(value[0]) && value[0] != '+' && value[0] != '-' && !IsDigit(value[0])
    ensures PageSize("-" + NatToString(n)) == 1
    ensures PageSize(value) == DefaultPageSize
  {
    var s := NatToString(n);
    ParseIntNatToString(n);
    assert TrimStart(s) == s by { assert IsDigit(s[0]); }
    assert TrimStart("-" + s) == "-" + s;
    assert ("-" + s)[1..] == s;
    assert TrimStart(value) == value;
  }

  /** A value with no digit at all is not a number to parseInt: "", white space,
      a lone sign or any text give the default. */
  lemma NoDigitGivesDefault(value: string)
    requires forall i :: 0 <= i < |value| ==> !IsDigit(value[i])
    ensures PageSize(value) == DefaultPageSize
  {
    var t := TrimStart(value);
    TrimStartSpec(value);
    var u := if t != [] && (t[0] == '+' || t[0] == '-') then t[1..] else t;
    if u != [] {
      assert u[0] in value;
    }
  }

  /** `photoSrc`: the default photo for a missing or blank file name, otherwise
      the trimmed name, URI-encoded, inside the photo directory. */
  function PhotoSrc(filename: string): string {
    PhotoOf(filename).Src()
  }

  datatype Photo = Default | Named(encoded: string) {
    function Src(): string {
      match this
      case Default => DefaultPhoto
      case Named(encoded) => PhotoDir + encoded
    }
  }

  function PhotoOf(filename: string): Photo {
    if filename == "" || Trim(filename) == "" then Default
    else Named(EncodeURIComponent(Trim(filename)))
  }

  /** A blank name gives the default photo; any other name is trimmed, encoded and
      placed in the photo directory, as exactly one non-empty segment whatever the
      name holds ("../", "/", spaces); a plain name is used as it is. */
  lemma PhotoSrcSpec(filename: string)
    ensures Trim(filename) == "" ==> PhotoSrc(filename) == DefaultPhoto
    ensures Trim(filename) != "" ==>
      var r := PhotoSrc(filename);
      && |r| > |PhotoDir| && r[..|PhotoDir|] == PhotoDir
      && '/' !in r[|PhotoDir|..]
      && LastSegment(r, '/') == r[|PhotoDir|..]
    ensures Trim(filename) != "" ==> PhotoSrc(filename) == PhotoDir + EncodeURIComponent(Trim(filename))
    ensures filename != [] && (forall i :: 0 <= i < |filename| ==> Unreserved(filename[i])) ==>
      PhotoSrc(filename) == PhotoDir + filename
  {
    if Trim(filename) != "" {
      PhotoInDirectory(filename);
    }
    if filename != [] && (forall i :: 0 <= i < |filename| ==> Unreserved(filename[i])) {
      PhotoPlain(filename);
    }
  }

  lemma PhotoInDirectory(filename: string)
    requires Trim(filename) != ""
    ensures var r := PhotoSrc(filename);
      && |r| > |PhotoDir| && r[..|PhotoDir|] == PhotoDir
      && '/' !in r[|PhotoDir|..]
      && LastSegment(r, '/') == r[|PhotoDir|..]
  {
    var t := Trim(filename);
    var e := EncodeURIComponent(t);
    EncodeURIComponentProperties(t);
    assert |EncodeChar(t[0])| >= 1;
    assert PhotoDir == "assets/staff-images" + ['/'] + [];
    LastSegmentAfter("assets/staff-images", '/', e);
    assert PhotoDir + e == "assets/staff-images" + ['/'] + e;
    assert (PhotoDir + e)[|PhotoDir|..] == e;
  }

  lemma PhotoPlain(filename: string)
    requires filename != [] && forall i :: 0 <= i < |filename| ==> Unreserved(filename[i])
    ensures PhotoSrc(filename) == PhotoDir + filename
  {
    assert !IsSpace(filename[0]) && !IsSpace(filename[|filename| - 1]);
    assert TrimStart(filename) == filename;
    assert Trim(filename) == filename;
    EncodeURIComponentProperties(filename);
  }

  // ---------------------------------------------------------------------------
  // Sections
  // ---------------------------------------------------------------------------

  /** A record's section as the filter offers it: trimmed, and only when not blank. */
  function SectionOf(p: Object): Option<string> {
    var s := Trim(Field(p, "section"));
    if s != "" then Some(s) else None
  }

  /** The section options `buildSectionFilter` appends: the distinct trimmed
      sections of all records, in string order. */
  function Sections(staff: seq<Object>): seq<string> {
    Sorting.SortBy(Sorting.DistinctKeys(staff, SectionOf), LexLe)
  }

  /** The options are exactly the non-blank sections of the records, each once,
      in strictly ascending string order. */
  lemma SectionsSpec(staff: seq<Object>)
    ensures forall s :: s in Sections(staff) <==> exists i :: 0 <= i < |staff| && SectionOf(staff[i]) == Some(s)
    ensures forall s :: s in Sections(staff) ==> s != ""
    ensures forall i, j :: 0 <= i < j < |Sections(staff)| ==>
      LexLe(Sections(staff)[i], Sections(staff)[j]) && Sections(staff)[i] != Sections(staff)[j]
  {
    SectionsMembers(staff);
    SectionsOrder(staff);
  }

  lemma SectionsMembers(staff: seq<Object>)
    ensures forall s :: s in Sections(staff) <==> exists i :: 0 <= i < |staff| && SectionOf(staff[i]) == Some(s)
    ensures forall s :: s in Sections(staff) ==> s != ""
  {
    var seen := Sorting.DistinctKeys(staff, SectionOf);
    var r := Sections(staff);
    Sorting.DistinctKeysSpec(staff, SectionOf);
    Sorting.SortByPermutation(seen, LexLe);
    assert forall s :: s in r <==> s in seen by {
      forall s ensures s in r <==> s in seen {
        assert s in r <==> s in multiset(r);
        assert s in seen <==> s in multiset(seen);
      }
    }
    forall s | s in r ensures s != "" {
      var i :| 0 <= i < |staff| && SectionOf(staff[i]) == Some(s);
    }
  }

  lemma SectionsOrder(staff: seq<Object>)
    ensures forall i, j :: 0 <= i < j < |Sections(staff)| ==>
      LexLe(Sections(staff)[i], Sections(staff)[j]) && Sections(staff)[i] != Sections(staff)[j]
  {
    var seen := Sorting.DistinctKeys(staff, SectionOf);
    Sorting.DistinctKeysSpec(staff, SectionOf);
    LexLeIsPreorder();
    Sorting.SortBySorted(seen, LexLe);
    Sorting.SortedDistinct(seen, LexLe);
  }

  /** String order compares every pair and is transitive. */
  lemma LexLeIsPreorder()
    ensures Sorting.TotalPreorder(LexLe)
  {
    forall a, b ensures LexLe(a, b) || LexLe(b, a) {
      LexLeTotal(a, b);
    }
    forall a, b, c | LexLe(a, b) && LexLe(b, c) ensures LexLe(a, c) {
      LexLeTransitive(a, b, c);
    }
  }

  /** Every section offered has staff in it: choosing it with an empty search
      leaves at least one record. */
  lemma SectionHasStaff(staff: seq<Object>, search: string, section: string)
    requires Query(search) == "" && section in Sections(staff)
    ensures |Filtered(staff, search, section)| > 0
  {
    SectionsSpec(staff);
    var i :| 0 <= i < |staff| && SectionOf(staff[i]) == Some(section);
    assert Matches(staff[i], Query(search), section);
    FilteredSpec(staff, search, section);
    assert staff[i] in multiset(staff);
    assert multiset(Filtered(staff, search, section))[staff[i]] > 0;
  }

  // ---------------------------------------------------------------------------
  // Filtering
  // ---------------------------------------------------------------------------

  /** The search box's value lower-cased and trimmed. */
  function Query(search: string): string {
    Trim(ToLower(search))
  }

  predicate Present(s: string) { s != "" }

  /** The fields the search looks in, in the order they are joined. */
  function SearchFields(p: Object): (r: seq<string>)
    ensures |r| == 5
  {
    [Field(p, "name"), Field(p, "designation"), Field(p, "section"), Field(p, "email"), Field(p, "contact")]
  }

  /** The present fields joined by spaces and lower-cased. */
  function Haystack(p: Object): string {
    ToLower(Join(Sorting.Filter(SearchFields(p), Present), " "))
  }

  /** The test of `applyFilter`: the record's trimmed section is the selected
      one, when one is selected, and the haystack holds the query, when there is one. */
  predicate Matches(p: Object, q: string, section: string) {
    && (section == "" || Trim(Field(p, "section")) == section)
    && (q == "" || Contains(Haystack(p), q))
  }

  /** `filteredStaff` after `applyFilter`. */
  function Filtered(staff: seq<Object>, search: string, section: string): seq<Object> {
    Sorting.Filter(staff, Matcher(Query(search), section))
  }

  /** The filter's callback for a query and a section. */
  function Matcher(q: string, section: string): (m: Object -> bool)
    ensures forall p :: m(p) == Matches(p, q, section)
  {
    p => Matches(p, q, section)
  }

  /** The filter keeps exactly the matching records, each as often as it occurs
      and in the loaded order; with no query and no section it keeps everything. */
  lemma FilteredSpec(staff: seq<Object>, search: string, section: string)
    ensures forall k :: 0 <= k < |Filtered(staff, search, section)| ==>
      Matches(Filtered(staff, search, section)[k], Query(search), section)
    ensures forall p ::
      multiset(Filtered(staff, search, section))[p] ==
      (if Matches(p, Query(search), section) then multiset(staff)[p] else 0)
    ensures Sorting.Subsequence(Filtered(staff, search, section), staff)
    ensures Query(search) == "" && section == "" ==> Filtered(staff, search, section) == staff
  {
    FilteredCounts(staff, search, section);
    FilteredOrder(staff, search, section);
    if Query(search) == "" && section == "" {
      Sorting.FilterAll(staff, Matcher(Query(search), section));
    }
  }

  lemma FilteredCounts(staff: seq<Object>, search: string, section: string)
    ensures forall p ::
      multiset(Filtered(staff, search, section))[p] ==
      (if Matches(p, Query(search), section) then multiset(staff)[p] else 0)
  {
    Sorting.FilterSpec(staff, Matcher(Query(search), section));
  }

  lemma FilteredOrder(staff: seq<Object>, search: string, section: string)
    ensures forall k :: 0 <= k < |Filtered(staff, search, section)| ==>
      Matches(Filtered(staff, search, section)[k], Query(search), section)
    ensures Sorting.Subsequence(Filtered(staff, search, section), staff)
  {
    Sorting.FilterSpec(staff, Matcher(Query(search), section));
  }

  /** A record whose name, designation, section, email or contact holds the
      query, ignoring ASCII case, passes the search. */
  lemma FieldMatch(p: Object, q: string, section: string, k: nat)
    requires k < 5 && q != "" && Contains(ToLower(SearchFields(p)[k]), q)
    requires section == "" || Trim(Field(p, "section")) == section
    ensures Matches(p, q, section)
  {
    var fields := SearchFields(p);
    var n := Sorting.FilterIndex(fields, Present, k);
    var present := Sorting.Filter(fields, Present);
    var i := JoinOccurs(present, " ", n);
    LowerContains(Join(present, " "), fields[k], q, i);
  }

  /** Conversely, a query without spaces is in the haystack only when the name,
      designation, section, email or contact holds it, ignoring ASCII case. A
      query with a space can also match across two neighbouring fields. */
  lemma FieldMatchOnly(p: Object, q: string)
    requires q != "" && ' ' !in q && Contains(Haystack(p), q)
    ensures exists k :: 0 <= k < 5 && Contains(ToLower(SearchFields(p)[k]), q)
  {
    var fields := SearchFields(p);
    var present := Sorting.Filter(fields, Present);
    var i :| 0 <= i <= |Haystack(p)| - |q| && OccursAt(Haystack(p), q, i);
    var n := JoinedQueryInPart(present, q, i);
    var k := PresentIsField(fields, n);
  }

  /** Each present field is one of the fields. */
  lemma PresentIsField(fields: seq<string>, n: nat) returns (k: nat)
    requires n < |Sorting.Filter(fields, Present)|
    ensures k < |fields| && fields[k] == Sorting.Filter(fields, Present)[n]
  {
    var present := Sorting.Filter(fields, Present);
    Sorting.FilterSpec(fields, Present);
    assert multiset(present)[present[n]] > 0;
    assert present[n] in multiset(fields);
    k :| 0 <= k < |fields| && fields[k] == present[n];
  }

  /** For a query without spaces, the search keeps a record exactly when its
      section is the selected one, if any, and one of its five fields holds the
      query, ignoring ASCII case. */
  lemma SearchIff(p: Object, q: string, section: string)
    requires q != "" && ' ' !in q
    ensures Matches(p, q, section) <==>
      && (section == "" || Trim(Field(p, "section")) == section)
      && exists k :: 0 <= k < 5 && Contains(ToLower(SearchFields(p)[k]), q)
  {
    if Matches(p, q, section) {
      FieldMatchOnly(p, q);
    }
    if (section == "" || Trim(Field(p, "section")) == section)
       && exists k :: 0 <= k < 5 && Contains(ToLower(SearchFields(p)[k]), q) {
      var k :| 0 <= k < 5 && Contains(ToLower(SearchFields(p)[k]), q);
      FieldMatch(p, q, section, k);
    }
  }

  /** A query without spaces found in the lower-cased space-join of some parts is
      found in one lower-cased part: it cannot straddle a separator. */
  lemma {:induction false} JoinedQueryInPart(parts: seq<string>, q: string, i: nat) returns (n: nat)
    requires q != "" && ' ' !in q
    requires OccursAt(ToLower(Join(parts, " ")), q, i)
    ensures n < |parts| && Contains(ToLower(parts[n]), q)
  {
    var s := Join(parts, " ");
    if |parts| <= 1 {
      n := 0;
    } else {
      var a := parts[0];
      var rest := Join(parts[1..], " ");
      assert s == a + " " + rest;
      if i > |a| {
        assert s[|a| + 1..] == rest;
        LowerOccursWithin(s, rest, |a| + 1, q, i);
        var n0 := JoinedQueryInPart(parts[1..], q, i - |a| - 1);
        n := n0 + 1;
      } else {
        assert ToLower(s)[|a|] == ' ' by { assert s[|a|] == ' '; }
        SpaceEndsOccurrence(ToLower(s), q, i, |a|);
        assert s[..|a|] == a;
        LowerOccursWithin(s, a, 0, q, i);
        n := 0;
      }
    }
  }

  /** A query without spaces that occurs in a text at or before a space ends
      before that space. */
  lemma SpaceEndsOccurrence(text: string, q: string, i: nat, j: nat)
    requires ' ' !in q && OccursAt(text, q, i)
    requires i <= j < |text| && text[j] == ' '
    ensures i + |q| <= j
  {
    var window := text[i..i + |q|];
    assert forall t :: i <= t < i + |q| ==> text[t] == window[t - i] != ' ';
  }

  /** An occurrence in the lower-cased whole that lies within a part is an
      occurrence in the lower-cased part. */
  lemma LowerOccursWithin(s: string, part: string, off: nat, q: string, i: nat)
    requires off + |part| <= |s| && s[off..off + |part|] == part
    requires OccursAt(ToLower(s), q, i) && off <= i && i + |q| <= off + |part|
    ensures OccursAt(ToLower(part), q, i - off)
  {
    LowerOccurs(s, part, off);
    OccursInside(ToLower(s), ToLower(part), q, off, i);
  }

  /** An occurrence lying inside an occurrence of `part` is an occurrence in `part`. */
  lemma OccursInside(s: string, part: string, q: string, off: nat, i: nat)
    requires OccursAt(s, part, off) && OccursAt(s, q, i)
    requires off <= i && i + |q| <= off + |part|
    ensures OccursAt(part, q, i - off)
  {
    forall t | 0 <= t < |q| ensures part[i - off + t] == q[t] {
      assert part[i - off + t] == s[off..off + |part|][i - off + t];
      assert q[t] == s[i..i + |q|][t];
    }
  }

  /** The query found in a lower-cased part is found in the lower-cased whole. */
  lemma LowerContains(s: string, part: string, q: string, i: nat)
    requires OccursAt(s, part, i) && Contains(ToLower(part), q)
    ensures Contains(ToLower(s), q)
  {
    LowerOccurs(s, part, i);
    var j :| 0 <= j <= |ToLower(part)| - |q| && OccursAt(ToLower(part), q, j);
    OccursWithin(ToLower(s), ToLower(part), q, i, j);
  }

  /** A blank search, with or without letters in another case, filters nothing:
      the query is empty exactly when the trimmed search is. */
  lemma QueryBlank(search: string)
    ensures Query(search) == "" <==> Trim(search) == ""
  {
    TrimIsCore(search);
    TrimIsCore(ToLower(search));
  }

  /** Each part of a join occurs in it. */
  lemma {:induction false} JoinOccurs(parts: seq<string>, sep: string, n: nat) returns (i: nat)
    requires n < |parts|
    ensures OccursAt(Join(parts, sep), parts[n], i)
  {
    if |parts| == 1 {
      i := 0;
    } else if n == 0 {
      i := 0;
      assert Join(parts, sep) == parts[0] + (sep + Join(parts[1..], sep));
    } else {
      var rest := Join(parts[1..], sep);
      var i0 := JoinOccurs(parts[1..], sep, n - 1);
      var head := parts[0] + sep;
      assert Join(parts, sep) == head + rest;
      i := |head| + i0;
      assert (head + rest)[i..i + |parts[n]|] == rest[i0..i0 + |parts[n]|];
    }
  }

  /** Lower-casing keeps an occurrence where it is. */
  lemma LowerOccurs(s: string, sub: string, i: nat)
    requires OccursAt(s, sub, i)
    ensures OccursAt(ToLower(s), ToLower(sub), i)
  {
    assert ToLower(s)[i..i + |sub|] == ToLower(sub) by {
      forall k | 0 <= k < |sub| ensures ToLower(s)[i + k] == ToLower(sub)[k] {
        assert s[i + k] == sub[k];
      }
    }
  }

  /** An occurrence inside an occurrence. */
  lemma OccursWithin(s: string, mid: string, sub: string, i: nat, j: nat)
    requires OccursAt(s, mid, i) && OccursAt(mid, sub, j)
    ensures Contains(s, sub)
  {
    assert s[i + j..i + j + |sub|] == sub by {
      forall k | 0 <= k < |sub| ensures s[i + j + k] == sub[k] {
        assert s[i + j + k] == mid[j + k];
      }
    }
    assert OccursAt(s, sub, i + j);
  }

  // ---------------------------------------------------------------------------
  // Cards
  // ---------------------------------------------------------------------------

  /** A card's telephone link: the number dialled (its digits) and the text shown. */
  datatype Phone = Phone(dial: string, shown: string)

  /** One staff card, as `buildCard` fills it; `delayMs` is its animation delay. */
  datatype Card = Card(
    photo: Photo, name: string, designation: string, section: string,
    phone: Option<Phone>, email: Option<string>, delayMs: nat)

  function OrDash(s: string): string {
    if s != "" then s else Dash
  }

  /** `contact.replace(/\D/g, "")`. */
  function DialDigits(contact: string): string {
    Sorting.Filter(contact, IsDigit)
  }

  /** The card for the record at position `index` of the page. */
  function CardFor(p: Object, index: nat): Card {
    Card(
      PhotoOf(Field(p, "photo")),
      OrDash(Field(p, "name")), OrDash(Field(p, "designation")), OrDash(Field(p, "section")),
      if Truthy(p, "contact") then Some(Phone(DialDigits(Field(p, "contact")), Field(p, "contact"))) else None,
      if Truthy(p, "email") then Some(Field(p, "email")) else None,
      index * 40)
  }

  /** Name, designation and section are never blank on a card, and show the
      record's own text when it has one; the telephone link exists exactly for a
      record with a contact, dials only its digits in their order, and dials a
      number written as digits unchanged; the mail link exists exactly for a
      record with an email. */
  lemma CardSpec(p: Object, index: nat)
    ensures var c := CardFor(p, index);
      && c.name != "" && c.designation != "" && c.section != ""
      && (Truthy(p, "name") ==> c.name == p["name"])
      && (Truthy(p, "designation") ==> c.designation == p["designation"])
      && (Truthy(p, "section") ==> c.section == p["section"])
      && (c.phone.Some? <==> Truthy(p, "contact"))
      && (c.phone.Some? ==>
            && c.phone.value.shown == p["contact"]
            && AllDigits(c.phone.value.dial)
            && Sorting.Subsequence(c.phone.value.dial, p["contact"])
            && (AllDigits(p["contact"]) ==> c.phone.value.dial == p["contact"]))
      && (c.email.Some? <==> Truthy(p, "email"))
  {
    if Truthy(p, "contact") {
      var contact := p["contact"];
      Sorting.FilterSpec(contact, IsDigit);
      if AllDigits(contact) {
        Sorting.FilterAll(contact, IsDigit);
      }
    }
  }

  /** The cards of one page, in order. */
  function CardsOf(items: seq<Object>): (r: seq<Card>)
    ensures |r| == |items|
  {
    if items == [] then []
    else CardsOf(items[..|items| - 1]) + [CardFor(items[|items| - 1], |items| - 1)]
  }

  /** Card `i` is made from record `i` of the page. */
  lemma {:induction false} CardsOfAt(items: seq<Object>, i: nat)
    requires i < |items|
    ensures CardsOf(items)[i] == CardFor(items[i], i)
  {
    if i < |items| - 1 {
      CardsOfAt(items[..|items| - 1], i);
    }
  }

  // ---------------------------------------------------------------------------
  // The grid and the info line
  // ---------------------------------------------------------------------------

  /** What the grid holds: nothing yet, a page of cards, the "No results for"
      message with the trimmed search, the "No staff in this section" message,
      or the load error. */
  datatype Grid = Blank | Cards(cards: seq<Card>) | NoResults(query: string) | NoStaffInSection | LoadFailed

  /** The message for an empty result. */
  function EmptyGrid(search: string): Grid {
    var q := Trim(search);
    if q != "" then NoResults(q) else NoStaffInSection
  }

  /** The records on page `page`: `slice(start, end)`. */
  function PageOf(staff: seq<Object>, page: int, pageSize: nat): (r: seq<Object>)
    requires pageSize >= 1 && 1 <= page <= TotalPages(|staff|, pageSize)
    ensures |r| <= pageSize
  {
    if |staff| == 0 then []
    else
      PageWithinRows(|staff|, pageSize, page);
      staff[PageStart(page, pageSize)..Min(PageStart(page, pageSize) + pageSize, |staff|)]
  }

  /** The grid `render` builds for a page in range. */
  function GridFor(staff: seq<Object>, page: int, pageSize: nat, search: string): Grid
    requires pageSize >= 1 && 1 <= page <= TotalPages(|staff|, pageSize)
  {
    if |staff| == 0 then EmptyGrid(search) else Cards(CardsOf(PageOf(staff, page, pageSize)))
  }

  /** The grid and the info line agree: the cards are those of the records the
      info line counts, in order, and an empty result names the search exactly
      when the search filtered. */
  lemma GridMatchesInfo(staff: seq<Object>, page: int, pageSize: nat, search: string)
    requires pageSize >= 1 && 1 <= page <= TotalPages(|staff|, pageSize)
    ensures |staff| == 0 ==>
      && InfoFor(0, PageStart(page, pageSize), pageSize) == Nothing
      && (GridFor(staff, page, pageSize, search).NoResults? <==> Query(search) != "")
    ensures |staff| > 0 ==>
      var info := InfoFor(|staff|, PageStart(page, pageSize), pageSize);
      var grid := GridFor(staff, page, pageSize, search);
      && grid.Cards? && 1 <= |grid.cards| <= pageSize
      && |grid.cards| == info.to - info.from + 1
      && forall i :: 0 <= i < |grid.cards| ==> grid.cards[i] == CardFor(staff[info.from - 1 + i], i)
  {
    QueryBlank(search);
    InfoForPage(|staff|, pageSize, page);
    if |staff| > 0 {
      var items := PageOf(staff, page, pageSize);
      forall i | 0 <= i < |items| ensures CardsOf(items)[i] == CardFor(items[i], i) {
        CardsOfAt(items, i);
      }
    }
  }

  // ---------------------------------------------------------------------------
  // The pagination bar
  // ---------------------------------------------------------------------------

  /** Page `p` is within `Around` of the current page. */
  predicate Near(p: int, current: int) {
    -(Around as int) <= p - current <= Around
  }

  /** What the loop of `renderPagination` appends for page `p`: a page button
      for a page near the current one or at either end; an ellipsis for page 2
      when the current page is past 4, and for the page before the last when
      the current page is more than 3 before the end; otherwise nothing. */
  function Slot(current: int, totalPages: nat, p: int): (r: seq<PageItem>)
    ensures |r| <= 1
  {
    if Near(p, current) || p == 1 || p == totalPages then [Page(p, p == current)]
    else if (p == 2 && current > Around + 2) || (p == totalPages - 1 && current < totalPages - Around - 1) then [Ellipsis]
    else []
  }

  /** The controls for the pages `lo` to `hi - 1`. */
  function Slots(current: int, totalPages: nat, lo: int, hi: int): seq<PageItem>
    decreases hi - lo
  {
    if hi <= lo then [] else Slots(current, totalPages, lo, hi - 1) + Slot(current, totalPages, hi - 1)
  }

  /** The bar: nothing for a single page, otherwise Prev, the page controls and Next. */
  function StaffButtons(current: int, totalPages: nat): seq<PageItem> {
    if totalPages <= 1 then []
    else
      [Prev(current - 1, current == 1)] + Slots(current, totalPages, 1, totalPages + 1)
      + [Next(current + 1, current == totalPages)]
  }

  /** The page buttons `lo` to `hi - 1`, with `current` active. */
  function Run(current: int, lo: int, hi: int): (r: seq<PageItem>)
    requires lo <= hi
    ensures |r| == hi - lo
  {
    seq(hi - lo, i requires 0 <= i < hi - lo => Page(lo + i, lo + i == current))
  }

  lemma {:induction false} SlotsSplit(current: int, totalPages: nat, lo: int, mid: int, hi: int)
    requires lo <= mid <= hi
    ensures Slots(current, totalPages, lo, hi) == Slots(current, totalPages, lo, mid) + Slots(current, totalPages, mid, hi)
    decreases hi - mid
  {
    if mid < hi {
      SlotsSplit(current, totalPages, lo, mid, hi - 1);
    }
  }

  lemma {:induction false} SlotsEmpty(current: int, totalPages: nat, lo: int, hi: int)
    requires forall p :: lo <= p < hi ==> Slot(current, totalPages, p) == []
    ensures Slots(current, totalPages, lo, hi) == []
    decreases hi - lo
  {
    if lo < hi {
      SlotsEmpty(current, totalPages, lo, hi - 1);
    }
  }

  lemma {:induction false} SlotsRun(current: int, totalPages: nat, lo: int, hi: int)
    requires lo <= hi
    requires forall p :: lo <= p < hi ==> Slot(current, totalPages, p) == [Page(p, p == current)]
    ensures Slots(current, totalPages, lo, hi) == Run(current, lo, hi)
    decreases hi - lo
  {
    if lo < hi {
      SlotsRun(current, totalPages, lo, hi - 1);
      assert Run(current, lo, hi) == Run(current, lo, hi - 1) + [Page(hi - 1, hi - 1 == current)];
    }
  }

  /** The whole bar between Prev and Next: the first page, one ellipsis when
      pages 2 to current-3 are skipped, the pages from current-2 to current+2
      that lie strictly between the ends, one ellipsis when pages current+3 to
      the one before the last are skipped, and the last page. So every run of
      skipped pages is replaced by exactly one ellipsis, and the pages shown
      ascend. */
  lemma SlotsShape(current: int, totalPages: nat)
    requires 2 <= totalPages && 1 <= current <= totalPages
    ensures Slots(current, totalPages, 1, totalPages + 1) ==
      [Page(1, current == 1)]
      + (if current > Around + 2 then [Ellipsis] else [])
      + Run(current, Max(2, current - Around), Min(totalPages, current + Around + 1))
      + (if current < totalPages - Around - 1 then [Ellipsis] else [])
      + [Page(totalPages, current == totalPages)]
  {
    var a := Max(2, current - Around);
    var b := Min(totalPages, current + Around + 1);
    var T := totalPages;
    SlotsSplit(current, T, 1, T, T + 1);
    SlotsSplit(current, T, 1, b, T);
    SlotsSplit(current, T, 1, a, b);
    SlotsSplit(current, T, 1, 2, a);
    assert Slots(current, T, 1, 2) == [Page(1, current == 1)];
    SkippedBefore(current, T);
    SlotsRun(current, T, a, b);
    SkippedAfter(current, T);
    assert Slots(current, T, T, T + 1) == [Page(T, current == T)];
  }

  /** Pages 2 to current-3 show as one ellipsis, or nothing when there are none. */
  lemma SkippedBefore(current: int, totalPages: nat)
    requires 2 <= totalPages && 1 <= current <= totalPages
    ensures Slots(current, totalPages, 2, Max(2, current - Around)) ==
      if current > Around + 2 then [Ellipsis] else []
  {
    if current > Around + 2 {
      var a := current - Around;
      SlotsSplit(current, totalPages, 2, 3, a);
      assert Slots(current, totalPages, 2, 3) == [Ellipsis];
      SlotsEmpty(current, totalPages, 3, a);
    }
  }

  /** Pages current+3 to the one before the last show as one ellipsis, or
      nothing when there are none. */
  lemma SkippedAfter(current: int, totalPages: nat)
    requires 2 <= totalPages && 1 <= current <= totalPages
    ensures Slots(current, totalPages, Min(totalPages, current + Around + 1), totalPages) ==
      if current < totalPages - Around - 1 then [Ellipsis] else []
  {
    if current < totalPages - Around - 1 {
      var b := current + Around + 1;
      SlotsSplit(current, totalPages, b, totalPages - 1, totalPages);
      SlotsEmpty(current, totalPages, b, totalPages - 1);
      assert Slots(current, totalPages, totalPages - 1, totalPages) == [Ellipsis];
    }
  }

  /** Page `q` has a button exactly when it is near the current page or at
      either end; every button is for a page in range and is active exactly
      when it is the current page. */
  lemma {:induction false} SlotsPages(current: int, totalPages: nat, lo: int, hi: int, q: int)
    ensures Page(q, q == current) in Slots(current, totalPages, lo, hi) <==>
      lo <= q < hi && (Near(q, current) || q == 1 || q == totalPages)
    ensures forall item :: item in Slots(current, totalPages, lo, hi) ==>
      (item.Page? || item.Ellipsis?)
      && (item.Page? ==> lo <= item.number < hi && (item.active <==> item.number == current))
    decreases hi - lo
  {
    if lo < hi {
      SlotsPages(current, totalPages, lo, hi - 1, q);
    }
  }

  /** Prev is disabled exactly on the first page and Next exactly on the last;
      every button a click acts on leads to a page in range; the bar is empty
      exactly when there is a single page. */
  lemma StaffButtonsShape(current: int, totalPages: nat)
    requires 1 <= current <= totalPages
    ensures totalPages <= 1 <==> StaffButtons(current, totalPages) == []
    ensures totalPages > 1 ==>
      var b := StaffButtons(current, totalPages);
      && b[0] == Prev(current - 1, current == 1)
      && b[|b| - 1] == Next(current + 1, current == totalPages)
      && forall k :: 0 <= k < |b| && Enabled(b[k]) ==> 1 <= Target(b[k]) <= totalPages
  {
    if totalPages > 1 {
      var b := StaffButtons(current, totalPages);
      var mid := Slots(current, totalPages, 1, totalPages + 1);
      SlotsPages(current, totalPages, 1, totalPages + 1, current);
      forall k | 0 <= k < |b| && Enabled(b[k]) ensures 1 <= Target(b[k]) <= totalPages {
        if 0 < k < |b| - 1 {
          assert b[k] == mid[k - 1];
          assert b[k] in mid;
        }
      }
    }
  }

  /** `renderPagination`: Prev, then the loop over every page, then Next. */
  method RenderPagination(current: int, totalPages: nat) returns (items: seq<PageItem>)
    ensures items == StaffButtons(current, totalPages)
  {
    if totalPages <= 1 {
      return [];
    }
    items := [Prev(current - 1, current == 1)];
    for p := 1 to totalPages + 1
      invariant items == [Prev(current - 1, current == 1)] + Slots(current, totalPages, 1, p)
    {
      var near := Near(p, current);
      var edge := p == 1 || p == totalPages;
      if near || edge {
        items := items + [Page(p, p == current)];
      } else if (p == 2 && current > Around + 2) || (p == totalPages - 1 && current < totalPages - Around - 1) {
        items := items + [Ellipsis];
      }
    }
    items := items + [Next(current + 1, current == totalPages)];
  }

  // ---------------------------------------------------------------------------
  // The page's state
  // ---------------------------------------------------------------------------

  /** The grid, info line and bar show page `page` of `staff`, a page in range. */
  ghost predicate Shows(staff: seq<Object>, page: int, pageSize: nat, search: string, grid: Grid, info: Info, buttons: seq<PageItem>)
    requires pageSize >= 1
  {
    && 1 <= page <= TotalPages(|staff|, pageSize)
    && grid == GridFor(staff, page, pageSize, search)
    && info == InfoFor(|staff|, PageStart(page, pageSize), pageSize)
    && buttons == (if |staff| == 0 then [] else StaffButtons(page, TotalPages(|staff|, pageSize)))
  }

  /** The DOM writes of `render` once the page is in range: the cards of the
      page's records or the empty message, the info line, and the bar. */
  method PageView(staff: seq<Object>, current: int, pageSize: nat, search: string)
    returns (grid: Grid, info: Info, buttons: seq<PageItem>)
    requires pageSize >= 1 && 1 <= current <= TotalPages(|staff|, pageSize)
    ensures Shows(staff, current, pageSize, search, grid, info, buttons)
  {
    var total := |staff|;
    var start := PageStart(current, pageSize);
    if total == 0 {
      var q := Trim(search);
      return if q != "" then NoResults(q) else NoStaffInSection, Nothing, [];
    }
    PageWithinRows(total, pageSize, current);
    var end := Min(start + pageSize, total);
    var slice := staff[start..end];
    assert slice == PageOf(staff, current, pageSize);
    var cards := BuildCards(slice);
    buttons := RenderPagination(current, TotalPages(total, pageSize));
    grid, info := Cards(cards), Showing(start + 1, end, total);
  }

  /** The records of a loaded payload: `Array.isArray(data) ? data : []`. */
  function StaffOf(payload: Payload): seq<Object> {
    if payload.Array? then payload.items else []
  }

  /** The module state of whoswho.js with the inputs it reads and the parts of the
      page it writes. */
  class Directory {
    var allStaff: seq<Object>
    var filteredStaff: seq<Object>
    var currentPage: int
    /** The search box, section select and page-size select values. */
    var search: string
    var section: string
    var pageSizeValue: string
    /** The options appended to the section select. */
    var sections: seq<string>
    var grid: Grid
    var info: Info
    var buttons: seq<PageItem>

    function PageSizeNow(): nat
      reads this`pageSizeValue
    {
      PageSize(pageSizeValue)
    }

    function Pages(): nat
      reads this`filteredStaff, this`pageSizeValue
    {
      TotalPages(|filteredStaff|, PageSizeNow())
    }

    /** The grid, info line and bar show the current page of the filtered
      records, and the current page is in range. */
    ghost predicate Rendered()
      reads this`currentPage, this`filteredStaff, this`pageSizeValue, this`search, this`grid, this`info, this`buttons
    {
      Shows(filteredStaff, currentPage, PageSizeNow(), search, grid, info, buttons)
    }

    /** The page before the data arrives. */
    constructor(pageSizeValue: string)
      ensures allStaff == [] && filteredStaff == [] && currentPage == 1
      ensures search == "" && section == "" && this.pageSizeValue == pageSizeValue
      ensures sections == [] && grid == Blank && info == Nothing && buttons == []
    {
      allStaff, filteredStaff, currentPage := [], [], 1;
      search, section, this.pageSizeValue := "", "", pageSizeValue;
      sections, grid, info, buttons := [], Blank, Nothing, [];
    }

    /** The fetch of the staff file: on success every record is shown unfiltered
      and the sections are offered; on failure only the grid changes. */
    method Load(fetch: Fetch)
      modifies this`allStaff, this`filteredStaff, this`sections, this`currentPage, this`grid, this`info, this`buttons
      ensures fetch.Failed? ==> grid == LoadFailed
      ensures fetch.Failed? ==>
        && allStaff == old(allStaff) && filteredStaff == old(filteredStaff) && currentPage == old(currentPage)
        && sections == old(sections) && info == old(info) && buttons == old(buttons)
      ensures fetch.Loaded? ==>
        && allStaff == StaffOf(fetch.payload) && filteredStaff == allStaff
        && sections == old(sections) + Sections(allStaff)
        && currentPage == Clamp(old(currentPage), Pages())
        && Rendered()
    {
      if fetch.Failed? {
        grid := LoadFailed;
        return;
      }
      allStaff := StaffOf(fetch.payload);
      filteredStaff := allStaff;
      sections := sections + Sections(allStaff);
      Render();
    }

    /** `render`: clamp the current page into range, then show that page, or the
      empty message, the zero info line and no bar when nothing is left. */
    method Render()
      modifies this`currentPage, this`grid, this`info, this`buttons
      ensures currentPage == Clamp(old(currentPage), Pages())
      ensures Rendered()
    {
      var size := PageSize(pageSizeValue);
      var total := |filteredStaff|;
      var totalPages := TotalPages(total, size);
      var current := currentPage;
      if current > totalPages {
        current := totalPages;
      }
      if current < 1 {
        current := 1;
      }
      var g, i, b := PageView(filteredStaff, current, size, search);
      currentPage, grid, info, buttons := current, g, i, b;
      assert PageSizeNow() == size;
    }

    /** `applyFilter`: refilter all records, go back to the first page and render. */
    method ApplyFilter()
      modifies this`filteredStaff, this`currentPage, this`grid, this`info, this`buttons
      ensures filteredStaff == Filtered(allStaff, search, section)
      ensures currentPage == 1 && Rendered()
    {
      filteredStaff := Filtered(allStaff, search, section);
      currentPage := 1;
      Render();
    }

    /** Typing in the search box. */
    method SetSearch(value: string)
      modifies this`search, this`filteredStaff, this`currentPage, this`grid, this`info, this`buttons
      ensures search == value
      ensures filteredStaff == Filtered(allStaff, value, section)
      ensures currentPage == 1 && Rendered()
    {
      search := value;
      ApplyFilter();
    }

    /** Choosing a section. */
    method SetSection(value: string)
      modifies this`section, this`filteredStaff, this`currentPage, this`grid, this`info, this`buttons
      ensures section == value
      ensures filteredStaff == Filtered(allStaff, search, value)
      ensures currentPage == 1 && Rendered()
    {
      section := value;
      currentPage := 1;
      ApplyFilter();
    }

    /** Choosing a page size: back to the first page, same records. */
    method SetPageSize(value: string)
      modifies this`pageSizeValue, this`currentPage, this`grid, this`info, this`buttons
      ensures pageSizeValue == value
      ensures currentPage == 1 && Rendered()
    {
      pageSizeValue := value;
      currentPage := 1;
      Render();
    }

    /** A click on button `k` of the bar: moves to its page, and renders only
      when that page is not the current one. */
    method Click(k: nat)
      requires Rendered() && k < |buttons| && Enabled(buttons[k])
      modifies this`currentPage, this`grid, this`info, this`buttons
      ensures Rendered()
      ensures currentPage == Target(old(buttons[k]))
      ensures Target(old(buttons[k])) == old(currentPage) ==> unchanged(this)
    {
      StaffButtonsShape(currentPage, Pages());
      var page := Target(buttons[k]);
      if page != currentPage {
        currentPage := page;
        Render();
      }
    }
  }

  /** The two clamps of `render`: down to the last page, then up to 1. */
  function Clamp(page: int, totalPages: nat): (r: int)
    requires totalPages >= 1
    ensures 1 <= r <= totalPages
    ensures 1 <= page <= totalPages ==> r == page
    ensures page > totalPages ==> r == totalPages
    ensures page < 1 ==> r == 1
  {
    var p := if page > totalPages then totalPages else page;
    if p < 1 then 1 else p
  }

  /** The `forEach` of `render`: one card per record of the page, in order. */
  method BuildCards(items: seq<Object>) returns (cards: seq<Card>)
    ensures cards == CardsOf(items)
  {
    cards := [];
    for i := 0 to |items|
      invariant cards == CardsOf(items[..i])
    {
      assert items[..i + 1][..i] == items[..i];
      cards := cards + [CardFor(items[i], i)];
    }
    assert items[..|items|] == items;
  }
}
