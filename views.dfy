/**
 * The views of comic/views.py that read and write reading progress, over an
 * in-memory store: the book table is fixed, the status table is updated in place.
 */
module Views {
  import opened Results
  import opened Base64Url
  import opened Catalog
  import opened Progress
  import opened Recent

  /**
   * One entry of the recent-books JSON: the book's selector (written out as
   * EncodeSelector(selector)), its file name, its date and the user's status.
   */
  datatype Row = Row(selector: Selector, name: string, dateAdded: int, status: Status)

  /** The recent-books JSON document. */
  datatype RecentResponse = RecentResponse(recordsTotal: nat, recordsFiltered: nat, data: seq<Row>)

  /**
   * The row the view emits for book `b` with status `s`. Its read link is
   * built from the selector's token and s.lastReadPage.
   */
  function RowOf(b: Book, s: Status): Row {
    Row(b.selector, b.fileName, b.dateAdded, s)
  }

  class Library {
    /** The ComicBook table, with each book's ComicPage indices. */
    const books: seq<Book>
    /** The field defaults of a ComicStatus row created by get_or_create. */
    const defaultStatus: Status
    /** The ComicStatus table. */
    var statuses: Statuses

    predicate Valid() {
      UniqueSelectors(books)
    }

    constructor (books: seq<Book>, defaultStatus: Status, statuses: Statuses)
      requires UniqueSelectors(books)
      ensures Valid()
      ensures this.books == books && this.defaultStatus == defaultStatus && this.statuses == statuses
    {
      this.books := books;
      this.defaultStatus := defaultStatus;
      this.statuses := statuses;
    }

    /** ComicStatus.objects.get_or_create(comic=book, user=user). */
    method GetOrCreate(user: User, sel: Selector) returns (s: Status)
      modifies this
      ensures statuses == Touch(old(statuses), (user, sel), defaultStatus)
      ensures s == Lookup(old(statuses), (user, sel), defaultStatus)
    {
      var key := (user, sel);
      if key in statuses {
        s := statuses[key];
      } else {
        s := defaultStatus;
        statuses := statuses[key := s];
      }
    }

    /**
     * read_comic: decode the selector, find the book, then record that `user`
     * is at `page`, finished exactly when that is the highest stored page index.
     */
    method ReadComic(user: User, token: string, page: int) returns (r: Outcome)
      requires Valid()
      modifies this
      ensures match DecodeSelector(token)
        case None => r == Fail(MalformedToken) && statuses == old(statuses)
        case Some(sel) => match FindBook(books, sel)
          case None => r == Fail(NotFound) && statuses == old(statuses)
          case Some(b) =>
            r == Pass &&
            statuses == old(statuses)[(user, sel) := ViewPage(Lookup(old(statuses), (user, sel), defaultStatus), b, page)]
    {
      var selector := DecodeSelector(token);
      if selector.None? {
        return Fail(MalformedToken);
      }
      var book := FindBook(books, selector.value);
      if book.None? {
        return Fail(NotFound);
      }
      var b := book.value;
      var status := GetOrCreate(user, b.selector);
      status := status.(unread := false);
      status := status.(lastReadPage := page);
      if MaxIndex(b.pageIndices) == Some(status.lastReadPage) {
        status := status.(finished := true);
      } else {
        status := status.(finished := false);
      }
      statuses := statuses[(user, b.selector) := status];
      r := Pass;
    }

    /**
     * comic_edit: mark the selected books read or unread for `user`.
     * `selected` and `func` are the POST fields, None when absent.
     */
    method ComicEdit(user: User, selected: Option<seq<string>>, func: Option<string>) returns (r: Outcome)
      requires Valid()
      modifies this
      ensures match BulkEdit(old(statuses), books, user, selected, func, defaultStatus)
        case Ok(st) => r == Pass && statuses == st
        case Err(e) => r == Fail(e) && statuses == old(statuses)
    {
      if selected.None? {
        return Pass;
      }
      if func.None? {
        return Fail(MissingParameter("func"));
      }
      var f := func.value;
      if f == "choose" {
        return Pass;
      }
      var sels := DecodeAll(selected.value);
      if sels.None? {
        return Fail(MalformedToken);
      }
      var comics := Chosen(books, sels.value);
      var i := 0;
      while i < |comics|
        invariant 0 <= i <= |comics|
        invariant statuses == ApplyAll(old(statuses), user, comics[..i], f, defaultStatus)
      {
        ApplyAllStep(old(statuses), user, comics, i, f, defaultStatus);
        MarkOne(user, comics[i], f);
        i := i + 1;
      }
      assert comics[..i] == comics;
      assert BulkEdit(old(statuses), books, user, selected, func, defaultStatus) == Ok(statuses);
      r := Pass;
    }

    /** One pass of comic_edit's loop: get_or_create, set the fields `func` names, save. */
    method MarkOne(user: User, comic: Book, func: string)
      modifies this
      ensures statuses == Apply(old(statuses), user, comic, func, defaultStatus)
    {
      var status := GetOrCreate(user, comic.selector);
      if func == "read" {
        status := status.(unread := false, finished := true, lastReadPage := comic.pageCount - 1);
      } else if func == "unread" {
        status := status.(unread := true, finished := false, lastReadPage := 0);
      }
      TouchThenSave(old(statuses), (user, comic.selector), defaultStatus, status);
      statuses := statuses[(user, comic.selector) := status];
    }

    /**
     * recent_comics_json: the counts and one page of books ordered by date,
     * with a status for `user` created for each listed book that had none.
     */
    method RecentComicsJson(user: User, start: int, length: int, search: string, dir: string)
      returns (r: Result<RecentResponse>)
      modifies this
      ensures match RecentListing(books, search, dir, start, length)
        case Err(e) => r == Err(e) && statuses == old(statuses)
        case Ok(l) =>
          && r.Ok?
          && r.value.recordsTotal == l.recordsTotal
          && r.value.recordsFiltered == l.recordsFiltered
          && |r.value.data| == |l.books|
          && (forall i :: 0 <= i < |l.books| ==>
                r.value.data[i] == RowOf(l.books[i], Lookup(old(statuses), (user, l.books[i].selector), defaultStatus)))
          && statuses == TouchAll(old(statuses), user, l.books, defaultStatus)
    {
      var listing := RecentListing(books, search, dir, start, length);
      if listing.Err? {
        return Err(listing.error);
      }
      var data := ListRows(user, listing.value.books);
      r := Ok(RecentResponse(listing.value.recordsTotal, listing.value.recordsFiltered, data));
    }

    /** The loop over comics[start:end]: get_or_create each book's status and emit its row. */
    method ListRows(user: User, page: seq<Book>) returns (data: seq<Row>)
      modifies this
      ensures |data| == |page|
      ensures forall i :: 0 <= i < |page| ==>
                data[i] == RowOf(page[i], Lookup(old(statuses), (user, page[i].selector), defaultStatus))
      ensures statuses == TouchAll(old(statuses), user, page, defaultStatus)
    {
      data := [];
      var i := 0;
      while i < |page|
        invariant 0 <= i <= |page|
        invariant statuses == TouchAll(old(statuses), user, page[..i], defaultStatus)
        invariant |data| == i
        invariant forall j :: 0 <= j < i ==>
                    data[j] == RowOf(page[j], Lookup(old(statuses), (user, page[j].selector), defaultStatus))
      {
        var book := page[i];
        TouchAllLookup(old(statuses), user, page[..i], defaultStatus, (user, book.selector));
        TouchAllStep(old(statuses), user, page, i, defaultStatus);
        var status := GetOrCreate(user, book.selector);
        data := data + [RowOf(book, status)];
        i := i + 1;
      }
      assert page[..i] == page;
    }
  }

  /**
   * A reader's session, from the caller's side: a first view of page 0 of a
   * five-page book leaves it in progress, page 4 finishes it and page 2
   * reopens it.
   */
  method ReadingSession(sel: Selector)
  {
    var book := Book(sel, "issue-1.cbz", 5, 0, [0, 1, 2, 3, 4]);
    assert MaxIndex(book.pageIndices) == Some(4);
    var lib := new Library([book], Status(true, false, 0), map[]);
    var token := EncodeSelector(sel);
    var r := lib.ReadComic(7, token, 0);
    assert r == Pass && lib.statuses[(7, sel)] == Status(false, false, 0);
    r := lib.ReadComic(7, token, 4);
    assert lib.statuses[(7, sel)] == Status(false, true, 4);
    r := lib.ReadComic(7, token, 2);
    assert lib.statuses[(7, sel)] == Status(false, false, 2);
  }

  /** A bulk "unread" on a finished book resets it to unread at page 0. */
  method MarkUnreadSession(sel: Selector)
  {
    var book := Book(sel, "issue-1.cbz", 5, 0, [0, 1, 2, 3, 4]);
    var lib := new Library([book], Status(true, false, 0), map[(7, sel) := Status(false, true, 4)]);
    var token := EncodeSelector(sel);
    BulkEditSelected(lib.statuses, lib.books, 7, [token], "unread", lib.defaultStatus, book, 0);
    var r := lib.ComicEdit(7, Some([token]), Some("unread"));
    assert r == Pass && lib.statuses[(7, sel)] == Status(true, false, 0);
  }
}
