/**
 * The ComicBook table as the views see it: one record per book, its selector
 * unique among all books.
 */
module Catalog {
  import opened Results
  import opened Base64Url

  /**
   * A ComicBook row together with the `index` column of its ComicPage rows.
   * `dateAdded` is the creation timestamp as a number; only its order matters.
   */
  datatype Book = Book(
    selector: Selector,
    fileName: string,
    pageCount: int,
    dateAdded: int,
    pageIndices: seq<int>)

  /** The unique index on ComicBook.selector. */
  predicate UniqueSelectors(books: seq<Book>) {
    forall i, j :: 0 <= i < j < |books| ==> books[i].selector != books[j].selector
  }

  /** ComicBook.objects.get(selector=sel), with DoesNotExist as None. */
  function FindBook(books: seq<Book>, sel: Selector): (r: Option<Book>)
    ensures r.Some? ==> r.value in books && r.value.selector == sel
    ensures r.None? ==> forall b :: b in books ==> b.selector != sel
  {
    if books == [] then None
    else if books[0].selector == sel then Some(books[0])
    else FindBook(books[1..], sel)
  }

  /** ComicBook.objects.filter(selector__in=sels), in table order. */
  function Chosen(books: seq<Book>, sels: seq<Selector>): (r: seq<Book>)
    ensures forall b :: b in r <==> b in books && b.selector in sels
    ensures UniqueSelectors(books) ==> UniqueSelectors(r)
  {
    if books == [] then []
    else if books[0].selector in sels then [books[0]] + Chosen(books[1..], sels)
    else Chosen(books[1..], sels)
  }

  /** In a table with unique selectors, the book found is every book with that selector. */
  lemma FindBookUnique(books: seq<Book>, b: Book)
    requires UniqueSelectors(books) && b in books
    ensures FindBook(books, b.selector) == Some(b)
  {
  }
}
