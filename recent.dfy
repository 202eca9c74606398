/**
 * The query behind the recent-books table: all books, optionally those whose
 * file name contains the search text, ordered by date added, one page of them.
 */
module Recent {
  import opened Results
  import opened Catalog

  /** file_name__contains: `sub` occurs in `s` (case-sensitive). */
  function Contains(s: string, sub: string): (r: bool)
    ensures r ==> |sub| <= |s|
    ensures sub == [] ==> r
    decreases |s|
  {
    |sub| <= |s| && (s[..|sub|] == sub || Contains(s[1..], sub))
  }

  /** A copy of `sub` starts at position `i` of `s`. */
  predicate OccursAt(s: string, sub: string, i: int) {
    0 <= i <= |s| - |sub| && s[i..i + |sub|] == sub
  }

  /** Contains agrees with "some position of `s` starts a copy of `sub`". */
  lemma {:induction false} ContainsAt(s: string, sub: string)
    ensures Contains(s, sub) <==> exists i :: OccursAt(s, sub, i)
    decreases |s|
  {
    if |sub| <= |s| && s[..|sub|] != sub {
      ContainsAt(s[1..], sub);
      if exists i :: OccursAt(s, sub, i) {
        var i :| OccursAt(s, sub, i);
        assert i != 0;
        assert s[1..][i - 1..i - 1 + |sub|] == sub;
        assert OccursAt(s[1..], sub, i - 1);
      }
      if Contains(s[1..], sub) {
        var i :| OccursAt(s[1..], sub, i);
        assert s[i + 1..i + 1 + |sub|] == sub;
        assert OccursAt(s, sub, i + 1);
      }
    } else if |sub| <= |s| {
      assert OccursAt(s, sub, 0);
    }
  }

  /** comics.filter(file_name__contains=search), in table order. */
  function Matching(books: seq<Book>, search: string): (r: seq<Book>)
    ensures forall b :: b in r <==> b in books && Contains(b.fileName, search)
    ensures |r| <= |books|
  {
    if books == [] then []
    else if Contains(books[0].fileName, search) then [books[0]] + Matching(books[1..], search)
    else Matching(books[1..], search)
  }

  /**
   * The filter keeps every matching book as often as the table holds it and
   * drops every other book, so |Matching(books, search)| counts the matches.
   */
  lemma {:induction false} MatchingCount(books: seq<Book>, search: string)
    ensures forall b :: multiset(Matching(books, search))[b] ==
                          if Contains(b.fileName, search) then multiset(books)[b] else 0
  {
    if books != [] {
      MatchingCount(books[1..], search);
      assert books == [books[0]] + books[1..];
    }
  }

  /** The empty text is in every name, so an empty search keeps every book. */
  lemma {:induction false} MatchingEmpty(books: seq<Book>)
    ensures Matching(books, "") == books
  {
    if books != [] {
      assert books[0].fileName[..0] == "";
      MatchingEmpty(books[1..]);
    }
  }

  /** `a` may come before `b` under order_by("date_added") or order_by("-date_added"). */
  predicate Before(a: Book, b: Book, desc: bool) {
    if desc then a.dateAdded >= b.dateAdded else a.dateAdded <= b.dateAdded
  }

  predicate SortedBy(s: seq<Book>, desc: bool) {
    forall i, j :: 0 <= i < j < |s| ==> Before(s[i], s[j], desc)
  }

  function Insert(b: Book, s: seq<Book>, desc: bool): (r: seq<Book>)
    requires SortedBy(s, desc)
    ensures SortedBy(r, desc) && multiset(r) == multiset(s) + multiset{b}
    ensures |r| == |s| + 1
  {
    if s == [] || Before(b, s[0], desc) then
      PutsFirst(b, s, desc);
      [b] + s
    else
      var rest := Insert(b, s[1..], desc);
      assert s == [s[0]] + s[1..];
      KeepsHeadFirst(b, s, rest, desc);
      [s[0]] + rest
  }

  /** A book that may come before the head of a sorted list may come before all of it. */
  lemma PutsFirst(b: Book, s: seq<Book>, desc: bool)
    requires SortedBy(s, desc) && (s == [] || Before(b, s[0], desc))
    ensures SortedBy([b] + s, desc)
  {
    var r := [b] + s;
    forall i, j | 0 <= i < j < |r| ensures Before(r[i], r[j], desc) {
      if i == 0 {
        assert r[j] == s[j - 1];
        if j > 1 {
          assert Before(s[0], s[j - 1], desc);
        }
      } else {
        assert r[i] == s[i - 1] && r[j] == s[j - 1];
      }
    }
  }

  /** Putting the head of a sorted list before a sorted reordering of its tail plus a later book keeps it sorted. */
  lemma KeepsHeadFirst(b: Book, s: seq<Book>, rest: seq<Book>, desc: bool)
    requires s != [] && SortedBy(s, desc) && !Before(b, s[0], desc)
    requires SortedBy(rest, desc) && multiset(rest) == multiset(s[1..]) + multiset{b}
    ensures SortedBy([s[0]] + rest, desc)
  {
    forall x | x in multiset(rest) ensures Before(s[0], x, desc) {
      if x != b {
        assert x in s[1..];
        var k :| 0 <= k < |s[1..]| && s[1..][k] == x;
        assert s[k + 1] == x;
      }
    }
    var r := [s[0]] + rest;
    forall i, j | 0 <= i < j < |r| ensures Before(r[i], r[j], desc) {
      assert r[j] == rest[j - 1] && rest[j - 1] in multiset(rest);
      if i > 0 {
        assert r[i] == rest[i - 1];
      }
    }
  }

  /**
   * order_by on date_added: a reordering of the books, ascending or
   * descending by date. The model keeps books of equal date in table order.
   */
  function OrderByDate(s: seq<Book>, desc: bool): (r: seq<Book>)
    ensures SortedBy(r, desc) && multiset(r) == multiset(s)
    ensures |r| == |s|
  {
    if s == [] then []
    else
      assert s == [s[0]] + s[1..];
      Insert(s[0], OrderByDate(s[1..], desc), desc)
  }

  /** A queryset slice [lo:hi] with both bounds non-negative. */
  function Window(s: seq<Book>, lo: nat, hi: nat): (r: seq<Book>)
    ensures |r| == if hi <= lo || |s| <= lo then 0 else (if hi < |s| then hi else |s|) - lo
    ensures forall i :: 0 <= i < |r| ==> lo + i < |s| && r[i] == s[lo + i]
  {
    if hi <= lo || |s| <= lo then []
    else s[lo..if hi < |s| then hi else |s|]
  }

  /** The counts and the books of one page of the table. */
  datatype Listing = Listing(recordsTotal: nat, recordsFiltered: nat, books: seq<Book>)

  /**
   * recent_comics_json without its presentation: `start` and `length` are the
   * POST fields, `search` the search text and `dir` the ordering direction.
   */
  function RecentListing(books: seq<Book>, search: string, dir: string, start: int, length: int): (r: Result<Listing>)
    ensures r.Err? ==> r.error == NegativeIndexing
    ensures r.Ok? ==> r.value.recordsTotal == |books| && r.value.recordsFiltered <= r.value.recordsTotal &&
                      |r.value.books| <= r.value.recordsFiltered
  {
    var end := start + length;
    var total := |books|;
    var comics := if search != "" then Matching(books, search) else books;
    var ordered := OrderByDate(comics, dir == "desc");
    if start < 0 || end < 0 then Err(NegativeIndexing)
    else Ok(Listing(total, |ordered|, Window(ordered, start, end)))
  }

  /**
   * recordsTotal counts every book, recordsFiltered those matching the search
   * (all of them when the search is empty), so it never exceeds recordsTotal.
   */
  lemma ListingCounts(books: seq<Book>, search: string, dir: string, start: int, length: int)
    requires start >= 0 && start + length >= 0
    ensures var r := RecentListing(books, search, dir, start, length);
              r.Ok? && r.value.recordsTotal == |books| &&
              r.value.recordsFiltered == |Matching(books, search)| &&
              r.value.recordsFiltered <= r.value.recordsTotal
  {
    if search == "" {
      MatchingEmpty(books);
    }
  }

  /** A negative slice bound fails the request. */
  lemma ListingNegative(books: seq<Book>, search: string, dir: string, start: int, length: int)
    ensures RecentListing(books, search, dir, start, length).Err? <==> start < 0 || start + length < 0
  {
  }

  /** The page holds at most `length` books (none when it is not positive) and at most as many as remain after `start`. */
  lemma ListingSize(books: seq<Book>, search: string, dir: string, start: int, length: int)
    requires start >= 0 && start + length >= 0
    ensures var l := RecentListing(books, search, dir, start, length).value;
              |l.books| <= (if length > 0 then length else 0) &&
              |l.books| <= (if l.recordsFiltered > start then l.recordsFiltered - start else 0)
    ensures var l := RecentListing(books, search, dir, start, length).value;
            var hi := if start + length < l.recordsFiltered then start + length else l.recordsFiltered;
              |l.books| == (if hi > start then hi - start else 0)
  {
    var comics := if search != "" then Matching(books, search) else books;
    var ordered := OrderByDate(comics, dir == "desc");
    var l := RecentListing(books, search, dir, start, length).value;
    var page := Window(ordered, start, start + length);
    assert l.books == page && l.recordsFiltered == |ordered|;
    assert |page| <= (if |ordered| > start then |ordered| - start else 0);
  }

  /**
   * Each book of the page has a name containing the search text, and the
   * page is in date order, descending exactly when the direction is "desc".
   */
  lemma ListingContent(books: seq<Book>, search: string, dir: string, start: int, length: int)
    requires start >= 0 && start + length >= 0
    ensures var l := RecentListing(books, search, dir, start, length).value;
              SortedBy(l.books, dir == "desc") &&
              forall b :: b in l.books ==> b in books && Contains(b.fileName, search)
  {
    var comics := if search != "" then Matching(books, search) else books;
    if search == "" {
      MatchingEmpty(books);
    }
    assert comics == Matching(books, search);
    var ordered := OrderByDate(comics, dir == "desc");
    var page := Window(ordered, start, start + length);
    assert RecentListing(books, search, dir, start, length).value.books == page;
    forall b | b in page ensures b in books && Contains(b.fileName, search) {
      var i :| 0 <= i < |page| && page[i] == b;
      assert ordered[start + i] == b;
      assert b in multiset(ordered);
      assert b in comics;
    }
  }

  /** The page is exactly positions start .. start+length-1 of the ordered, filtered books. */
  lemma ListingWindow(books: seq<Book>, search: string, dir: string, start: int, length: int, i: nat)
    requires start >= 0 && start + length >= 0
    requires i < |RecentListing(books, search, dir, start, length).value.books|
    ensures i < length && start + i < |OrderByDate(Matching(books, search), dir == "desc")|
    ensures RecentListing(books, search, dir, start, length).value.books[i]
              == OrderByDate(Matching(books, search), dir == "desc")[start + i]
  {
    if search == "" {
      MatchingEmpty(books);
    }
  }
}
