/**
 * Listing quotes: optional filters on category, author and content, then a
 * page of the matching quotes and the pagination figures. The rows arrive in
 * the order the query's sort clause puts them in; that order is the
 * database's. Case-insensitive matching is a per-character `fold` supplied by
 * the caller.
 */
module QuoteListing {
  import opened Wrappers
  import opened Http
  import opened Strconv
  import opened Models

  /**
   * The query string. A filter left empty is absent; `page` and `limit` are
   * `None` when the parameter is missing altogether, and then default to "1" and "10".
   */
  datatype QuoteQuery = QuoteQuery(categoryId: string, author: string, content: string,
                                   page: Option<string>, limit: Option<string>)

  /** The figures the listing reports next to the quotes. */
  datatype Listing = Listing(quotes: seq<Quote>, page: int, limit: int, total: nat, pages: int)

  datatype QuotesReply = Listed(listing: Listing) | Failed(status: Status)

  // ---------------------------------------------------------------------------
  // Filters

  /** The category filter applies only when the parameter is present and parses as an integer. */
  function CategoryFilter(param: string): Option<int>
  {
    if param != [] && Atoi(param).Some? then Atoi(param) else None
  }

  function Folded(s: string, fold: char -> char): (r: string)
    ensures |r| == |s| && forall i :: 0 <= i < |s| ==> r[i] == fold(s[i])
  {
    seq(|s|, i requires 0 <= i < |s| => fold(s[i]))
  }

  predicate OccursAt(s: string, part: string, i: int)
  {
    0 <= i && i + |part| <= |s| && s[i..i + |part|] == part
  }

  predicate ContainsText(s: string, part: string)
  {
    exists i :: 0 <= i <= |s| && OccursAt(s, part, i)
  }

  /** `column ILIKE '%' || needle || '%'`: `needle` occurs in `s` once both are case-folded. */
  predicate ILikeContains(s: string, needle: string, fold: char -> char)
  {
    ContainsText(Folded(s, fold), Folded(needle, fold))
  }

  /**
   * The three filters together. With none given every quote matches; a
   * category filter admits only quotes of that category; an author filter
   * only quotes whose author contains the text.
   */
  function Matches(q: Quote, query: QuoteQuery, fold: char -> char): (b: bool)
    ensures CategoryFilter(query.categoryId).None? && query.author == [] && query.content == [] ==> b
    ensures b && CategoryFilter(query.categoryId).Some? ==> q.categoryId == Some(CategoryFilter(query.categoryId).value)
    ensures b && query.author != [] ==> ILikeContains(q.author, query.author, fold)
    ensures b && query.content != [] ==> ILikeContains(q.content, query.content, fold)
  {
    (match CategoryFilter(query.categoryId)
     case None => true
     case Some(id) => q.categoryId.Some? && q.categoryId.value == id) &&
    (query.author == [] || ILikeContains(q.author, query.author, fold)) &&
    (query.content == [] || ILikeContains(q.content, query.content, fold))
  }

  /** The matching rows, in their original order. */
  function Filtered(rows: seq<Quote>, query: QuoteQuery, fold: char -> char): (r: seq<Quote>)
    ensures |r| <= |rows|
    ensures forall q :: q in r <==> q in rows && Matches(q, query, fold)
  {
    if rows == [] then []
    else
      var rest := Filtered(rows[1..], query, fold);
      assert forall q :: q in rows <==> q == rows[0] || q in rows[1..];
      (if Matches(rows[0], query, fold) then [rows[0]] else []) + rest
  }

  /** Filtering is row by row: filtering two runs of rows is filtering each. */
  lemma {:induction false} FilteredConcat(a: seq<Quote>, b: seq<Quote>, query: QuoteQuery, fold: char -> char)
    ensures Filtered(a + b, query, fold) == Filtered(a, query, fold) + Filtered(b, query, fold)
  {
    if a == [] {
      assert a + b == b;
    } else {
      assert (a + b)[0] == a[0];
      assert (a + b)[1..] == a[1..] + b;
      FilteredConcat(a[1..], b, query, fold);
    }
  }

  // ---------------------------------------------------------------------------
  // Pagination

  function PageParam(query: QuoteQuery): int
  {
    AtoiIgnoringError(if query.page.Some? then query.page.value else "1")
  }

  function LimitParam(query: QuoteQuery): int
  {
    AtoiIgnoringError(if query.limit.Some? then query.limit.value else "10")
  }

  /** `(page - 1) * limit` in 64-bit arithmetic: page 1 starts at the first row. */
  function Offset(page: int, limit: int): (r: int)
    ensures MinInt64 <= r <= MaxInt64
    ensures page == 1 ==> r == 0
  {
    Wrap64(Wrap64(page - 1) * limit)
  }

  /** `(total + limit - 1) / limit` in 64-bit arithmetic; one row per page gives one page per row. */
  function PageCount(total: nat, limit: int): (r: int)
    requires limit != 0 && MinInt64 <= limit <= MaxInt64
    ensures MinInt64 <= r <= MaxInt64
    ensures limit == 1 && total <= MaxInt64 ==> r == total
  {
    GoDiv(Wrap64(total + limit - 1), limit)
  }

  /**
   * `Offset(offset).Limit(limit)`: the query builder drops an offset that is
   * not positive and a negative limit.
   */
  function Window(f: seq<Quote>, offset: int, limit: int): (r: seq<Quote>)
    ensures offset <= 0 && limit < 0 ==> r == f
    ensures 0 <= limit ==> |r| <= limit
    ensures forall q :: q in r ==> q in f
  {
    var start := if offset <= 0 then 0 else if offset < |f| then offset else |f|;
    var rest := f[start..];
    if limit < 0 || limit >= |rest| then rest else rest[..limit]
  }

  /**
   * `GetQuotes`. A limit of zero reaches the division by zero in the page
   * count; the router's recovery middleware turns that into a 500.
   */
  function GetQuotes(rows: seq<Quote>, query: QuoteQuery, fold: char -> char): (r: QuotesReply)
    ensures r.Failed? <==> LimitParam(query) == 0
    ensures r.Failed? ==> r.status == InternalServerError
    ensures r.Listed? ==>
              r.listing.total == |Filtered(rows, query, fold)| &&
              r.listing.page == PageParam(query) && r.listing.limit == LimitParam(query) &&
              r.listing.pages == PageCount(r.listing.total, r.listing.limit) &&
              (forall q :: q in r.listing.quotes ==> q in rows && Matches(q, query, fold))
    ensures r.Listed? && LimitParam(query) > 0 ==> |r.listing.quotes| <= LimitParam(query)
  {
    var page, limit := PageParam(query), LimitParam(query);
    var f := Filtered(rows, query, fold);
    if limit == 0 then Failed(InternalServerError)
    else Listed(Listing(Window(f, Offset(page, limit), limit), page, limit, |f|, PageCount(|f|, limit)))
  }

  // ---------------------------------------------------------------------------
  // Properties

  /** The page count is the ceiling of total / limit, as long as the sum does not overflow. */
  lemma PageCountIsCeiling(total: nat, limit: int)
    requires 0 < limit <= MaxInt64 && total + limit - 1 <= MaxInt64
    ensures var p := PageCount(total, limit);
      p >= 0 &&
      (total == 0 ==> p == 0) &&
      (total > 0 ==> (p - 1) * limit < total <= p * limit)
  {
    var n := total + limit - 1;
    assert Wrap64(n) == n;
    assert PageCount(total, limit) == n / limit;
    CeilingDivision(total, limit);
  }

  lemma CeilingDivision(total: nat, limit: int)
    requires 0 < limit
    ensures var p := (total + limit - 1) / limit;
      p >= 0 &&
      (total == 0 ==> p == 0) &&
      (total > 0 ==> (p - 1) * limit < total <= p * limit)
  {
    var n := total + limit - 1;
    var p, m := n / limit, n % limit;
    assert n == p * limit + m && 0 <= m < limit;
    assert (p - 1) * limit == p * limit - limit;
    if total == 0 {
      assert n < limit;
    }
  }

  /** Page `page` (from 1) shows the slice of the matching quotes that starts at (page - 1) * limit. */
  lemma PageContents(rows: seq<Quote>, query: QuoteQuery, fold: char -> char)
    requires LimitParam(query) > 0 && PageParam(query) >= 1
    requires PageParam(query) * LimitParam(query) <= MaxInt64
    ensures GetQuotes(rows, query, fold).Listed?
    ensures GetQuotes(rows, query, fold).listing.quotes ==
              PageSlice(Filtered(rows, query, fold), PageParam(query), LimitParam(query))
  {
    var page, limit, f := PageParam(query), LimitParam(query), Filtered(rows, query, fold);
    WindowOfPage(f, page, limit);
  }

  /** Quotes (page - 1) * limit up to page * limit, cut short at the end. */
  function PageSlice(f: seq<Quote>, page: int, limit: int): seq<Quote>
    requires 1 <= page && 0 < limit
  {
    var offset := (page - 1) * limit;
    var lo := if offset < |f| then offset else |f|;
    var hi := if offset + limit < |f| then offset + limit else |f|;
    f[lo..hi]
  }

  lemma WindowOfPage(f: seq<Quote>, page: int, limit: int)
    requires 1 <= page && 0 < limit && page * limit <= MaxInt64
    ensures Window(f, Offset(page, limit), limit) == PageSlice(f, page, limit)
  {
    OffsetOfPage(page, limit);
    WindowSlice(f, (page - 1) * limit, limit);
  }

  lemma OffsetOfPage(page: int, limit: int)
    requires 1 <= page && 0 < limit && page * limit <= MaxInt64
    ensures 0 <= (page - 1) * limit && (page - 1) * limit + limit == page * limit
    ensures Offset(page, limit) == (page - 1) * limit
  {
    var a := page - 1;
    assert a * limit == page * limit - limit;
    assert 0 <= a * limit;
    assert Wrap64(a) == a;
  }

  /** With a non-negative offset and a positive limit the window is a plain slice. */
  lemma WindowSlice(f: seq<Quote>, offset: int, limit: int)
    requires 0 <= offset && 0 < limit
    ensures Window(f, offset, limit) ==
              f[(if offset < |f| then offset else |f|)..(if offset + limit < |f| then offset + limit else |f|)]
  {
  }

  /** Any int64 page number can be asked for: its decimal text reads back as that page. */
  lemma PageParamOfItoa(query: QuoteQuery, page: int)
    requires MinInt64 <= page <= MaxInt64 && query.page == Some(Itoa(page))
    ensures PageParam(query) == page
  {
    AtoiItoa(page);
  }

  /** Every matching quote appears on the page its position falls in, at its position modulo the limit. */
  lemma EveryQuoteOnItsPage(rows: seq<Quote>, query: QuoteQuery, fold: char -> char, i: nat)
    requires i < |Filtered(rows, query, fold)| && LimitParam(query) > 0
    requires PageParam(query) == i / LimitParam(query) + 1
    requires PageParam(query) * LimitParam(query) <= MaxInt64
    ensures GetQuotes(rows, query, fold).Listed?
    ensures var quotes, limit := GetQuotes(rows, query, fold).listing.quotes, LimitParam(query);
      i % limit < |quotes| && quotes[i % limit] == Filtered(rows, query, fold)[i]
  {
    var page, limit, f := PageParam(query), LimitParam(query), Filtered(rows, query, fold);
    PageOfPosition(f, i, limit, page);
    assert GetQuotes(rows, query, fold).listing.quotes == Window(f, Offset(page, limit), limit);
  }

  /** The page that holds position `i`, and where on it `f[i]` sits. */
  lemma PageOfPosition(f: seq<Quote>, i: nat, limit: int, page: int)
    requires i < |f| && 0 < limit && page == i / limit + 1 && page * limit <= MaxInt64
    ensures 1 <= page <= MaxInt64
    ensures var w := Window(f, Offset(page, limit), limit); i % limit < |w| && w[i % limit] == f[i]
  {
    AtMostProduct(page, limit);
    WindowOfPage(f, page, limit);
    PositionOnPage(f, i, limit);
  }

  lemma PositionOnPage(f: seq<Quote>, i: nat, limit: int)
    requires i < |f| && 0 < limit
    ensures var s := PageSlice(f, i / limit + 1, limit); i % limit < |s| && s[i % limit] == f[i]
  {
    var q, m := i / limit, i % limit;
    assert i == q * limit + m && 0 <= m < limit;
    SlotOnPage(f, i, q, m, limit);
  }

  lemma SlotOnPage(f: seq<Quote>, i: nat, q: nat, m: nat, limit: int)
    requires i < |f| && 0 < limit && m < limit && i == q * limit + m
    ensures var s := PageSlice(f, q + 1, limit); m < |s| && s[m] == f[i]
  {
    var offset := q * limit;
    assert (q + 1 - 1) * limit == offset;
    assert offset <= i < offset + limit;
  }

  /** Without `page` and `limit` the listing is the first ten matching quotes. */
  lemma DefaultsShowFirstTen(rows: seq<Quote>, query: QuoteQuery, fold: char -> char)
    requires query.page.None? && query.limit.None?
    ensures var f := Filtered(rows, query, fold);
      GetQuotes(rows, query, fold) == Listed(Listing(if |f| <= 10 then f else f[..10], 1, 10, |f|, PageCount(|f|, 10)))
  {
    AtoiItoa(1);
    AtoiItoa(10);
    assert Itoa(1) == "1";
    assert NatDigits(10) == NatDigits(1) + [DigitChar(0)];
    assert Itoa(10) == "10";
  }

  /**
   * A `page` that is not a number reads as page 0, whose offset is negative
   * and so dropped: the first page is shown, reported as page 0.
   */
  lemma UnparsablePageShowsFirstPage(rows: seq<Quote>, query: QuoteQuery, fold: char -> char)
    requires query.page.Some? && !(Unsigned(query.page.value) != [] && AllDigits(Unsigned(query.page.value)))
    requires DecimalValue(LeadingDigits(Unsigned(query.page.value))) <= MaxUint64
    requires LimitParam(query) > 0
    ensures var f, limit := Filtered(rows, query, fold), LimitParam(query);
      GetQuotes(rows, query, fold).listing.page == 0 &&
      GetQuotes(rows, query, fold).listing.quotes == if limit < |f| then f[..limit] else f
  {
    var limit := LimitParam(query);
    assert PageParam(query) == 0;
    assert Wrap64(0 - 1) == -1;
    assert Wrap64(-1 * limit) == -limit;
    assert Offset(0, limit) == -limit;
  }

  /** A negative limit removes the bound: page 1 lists every matching quote. */
  lemma NegativeLimitListsAll(rows: seq<Quote>, query: QuoteQuery, fold: char -> char)
    requires LimitParam(query) < 0 && PageParam(query) == 1
    ensures GetQuotes(rows, query, fold).listing.quotes == Filtered(rows, query, fold)
  {
  }

  /** Fifteen matching quotes, ten per page: two pages, and the second holds the last five. */
  lemma FifteenQuotesTenPerPage(rows: seq<Quote>, query: QuoteQuery, fold: char -> char)
    requires |Filtered(rows, query, fold)| == 15
    requires query.page == Some("2") && query.limit == Some("10")
    ensures var listing := GetQuotes(rows, query, fold).listing;
      listing.total == 15 && listing.pages == 2 && |listing.quotes| == 5 &&
      listing.quotes == Filtered(rows, query, fold)[10..]
  {
    AtoiItoa(2);
    AtoiItoa(10);
    assert Itoa(2) == "2";
    assert NatDigits(10) == NatDigits(1) + [DigitChar(0)];
    assert Itoa(10) == "10";
    PageCountIsCeiling(15, 10);
  }

  /** An unparsable category parameter filters nothing out. */
  lemma UnparsableCategoryIgnored(q: Quote, query: QuoteQuery, fold: char -> char)
    requires Atoi(query.categoryId).None?
    ensures Matches(q, query, fold) == Matches(q, query.(categoryId := []), fold)
  {
  }
}
