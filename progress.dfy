/**
 * Per-user reading progress: the ComicStatus rows keyed by (user, book), the
 * transition a page view makes, and the bulk mark read / mark unread command.
 */
module Progress {
  import opened Results
  import opened Base64Url
  import opened Catalog

  /** A ComicStatus row. */
  datatype Status = Status(unread: bool, finished: bool, lastReadPage: int)

  /** A user, by primary key. */
  type User = nat

  /** The ComicStatus table: at most one row per (user, book selector). */
  type Statuses = map<(User, Selector), Status>

  /** The status get_or_create hands back: the stored row, or a fresh default one. */
  function Lookup(st: Statuses, key: (User, Selector), dflt: Status): Status {
    if key in st then st[key] else dflt
  }

  /** The table after get_or_create: the key is present and no lookup sees a change. */
  function Touch(st: Statuses, key: (User, Selector), dflt: Status): (r: Statuses)
    ensures r.Keys == st.Keys + {key}
    ensures forall k :: k in r ==> r[k] == Lookup(st, k, dflt)
  {
    if key in st then st else st[key := dflt]
  }

  /** Saving a row over the one get_or_create made leaves no trace of the creation. */
  lemma TouchThenSave(st: Statuses, key: (User, Selector), dflt: Status, s: Status)
    ensures Touch(st, key, dflt)[key := s] == st[key := s]
  {
  }

  /** get_or_create for each of `bs`, in order. */
  function TouchAll(st: Statuses, user: User, bs: seq<Book>, dflt: Status): (r: Statuses)
    ensures forall k :: k in st ==> k in r && r[k] == st[k]
  {
    if bs == [] then st
    else Touch(TouchAll(st, user, bs[..|bs| - 1], dflt), (user, bs[|bs| - 1].selector), dflt)
  }

  /** One more get_or_create extends the run by one book. */
  lemma TouchAllStep(st: Statuses, user: User, bs: seq<Book>, i: nat, dflt: Status)
    requires i < |bs|
    ensures TouchAll(st, user, bs[..i + 1], dflt)
              == Touch(TouchAll(st, user, bs[..i], dflt), (user, bs[i].selector), dflt)
  {
    assert bs[..i + 1][..i] == bs[..i];
  }

  /** A run of get_or_create adds exactly the user's keys for those books. */
  lemma {:induction false} TouchAllKeys(st: Statuses, user: User, bs: seq<Book>, dflt: Status)
    ensures TouchAll(st, user, bs, dflt).Keys == st.Keys + set b | b in bs :: (user, b.selector)
  {
    if bs != [] {
      var init := bs[..|bs| - 1];
      TouchAllKeys(st, user, init, dflt);
      assert bs == init + [bs[|bs| - 1]];
      KeysSnoc(user, init, bs[|bs| - 1]);
    }
  }

  lemma KeysSnoc(user: User, init: seq<Book>, last: Book)
    ensures (set b | b in init + [last] :: (user, b.selector))
            == (set b | b in init :: (user, b.selector)) + {(user, last.selector)}
  {
  }

  /** A run of get_or_create changes no status that a lookup can see. */
  lemma {:induction false} TouchAllLookup(st: Statuses, user: User, bs: seq<Book>, dflt: Status,
                                          k: (User, Selector))
    ensures Lookup(TouchAll(st, user, bs, dflt), k, dflt) == Lookup(st, k, dflt)
  {
    if bs != [] {
      TouchAllLookup(st, user, bs[..|bs| - 1], dflt, k);
    }
  }

  /** ComicPage.objects.filter(Comic=book).aggregate(Max("index")): None when there are no pages. */
  function MaxIndex(pages: seq<int>): (m: Option<int>)
    ensures m.None? <==> pages == []
    ensures m.Some? ==> m.value in pages && forall q :: q in pages ==> q <= m.value
  {
    if pages == [] then None
    else
      assert forall q :: q in pages ==> q == pages[0] || q in pages[1..];
      match MaxIndex(pages[1..])
      case None => Some(pages[0])
      case Some(rest) => Some(if pages[0] < rest then rest else pages[0])
  }

  /** read_comic's update of the status of the book being read, at `page`. */
  /**
   * Whatever the prior status, viewing a page marks the book as started at
   * that page, and finished exactly when the page is the highest stored page
   * index of the book.
   */
  function ViewPage(s: Status, b: Book, page: int): (r: Status)
    ensures !r.unread && r.lastReadPage == page
    ensures r.finished <==> page in b.pageIndices && forall q :: q in b.pageIndices ==> q <= page
  {
    var s := s.(unread := false, lastReadPage := page);
    s.(finished := MaxIndex(b.pageIndices) == Some(page))
  }

  /**
   * When the stored pages are exactly 0 .. page_count-1, the highest index is
   * the last page: finishing by page view agrees with the bulk "read" command.
   */
  lemma FinishedAtLastPage(s: Status, b: Book, page: int)
    requires forall q :: q in b.pageIndices <==> 0 <= q < b.pageCount
    ensures ViewPage(s, b, page).finished <==> b.pageCount > 0 && page == b.pageCount - 1
  {
    if b.pageCount > 0 {
      assert b.pageCount - 1 in b.pageIndices;
    }
  }

  /** comic_edit's change to one selected book's status, for the command `func`. */
  function Transition(func: string, b: Book, s: Status): (r: Status)
    ensures func == "read" ==> r == Status(false, true, b.pageCount - 1)
    ensures func == "unread" ==> r == Status(true, false, 0)
    ensures func != "read" && func != "unread" ==> r == s
  {
    if func == "read" then s.(unread := false, finished := true, lastReadPage := b.pageCount - 1)
    else if func == "unread" then s.(unread := true, finished := false, lastReadPage := 0)
    else s
  }

  /** One iteration of comic_edit's loop: get_or_create, then the transition, then save. */
  function Apply(st: Statuses, user: User, b: Book, func: string, dflt: Status): (r: Statuses)
    ensures r.Keys == st.Keys + {(user, b.selector)}
    ensures r[(user, b.selector)] == Transition(func, b, Lookup(st, (user, b.selector), dflt))
    ensures forall k :: k in st && k != (user, b.selector) ==> r[k] == st[k]
  {
    var key := (user, b.selector);
    st[key := Transition(func, b, Lookup(st, key, dflt))]
  }

  /** comic_edit's loop over the chosen books, in order. */
  function ApplyAll(st: Statuses, user: User, comics: seq<Book>, func: string, dflt: Status): (r: Statuses)
    ensures r.Keys == st.Keys + set b | b in comics :: (user, b.selector)
  {
    if comics == [] then st
    else
      var n := |comics| - 1;
      assert comics == comics[..n] + [comics[n]];
      KeysSnoc(user, comics[..n], comics[n]);
      Apply(ApplyAll(st, user, comics[..n], func, dflt), user, comics[n], func, dflt)
  }

  /** One more iteration of the loop applies one more book. */
  lemma ApplyAllStep(st: Statuses, user: User, comics: seq<Book>, i: nat, func: string, dflt: Status)
    requires i < |comics|
    ensures ApplyAll(st, user, comics[..i + 1], func, dflt)
              == Apply(ApplyAll(st, user, comics[..i], func, dflt), user, comics[i], func, dflt)
  {
    assert comics[..i + 1][..i] == comics[..i];
  }

  /** Keys the loop does not reach keep their presence and their status. */
  lemma {:induction false} ApplyAllOthers(st: Statuses, user: User, comics: seq<Book>, func: string,
                                          dflt: Status, k: (User, Selector))
    requires k.0 != user || forall b :: b in comics ==> b.selector != k.1
    ensures var r := ApplyAll(st, user, comics, func, dflt);
              (k in r <==> k in st) && (k in st ==> r[k] == st[k])
  {
    if comics != [] {
      var n := |comics| - 1;
      assert comics[n] in comics;
      assert forall b :: b in comics[..n] ==> b in comics;
      ApplyAllOthers(st, user, comics[..n], func, dflt, k);
    }
  }

  /** Each chosen book ends with the transition applied to its prior (or default) status. */
  lemma {:induction false} ApplyAllChosen(st: Statuses, user: User, comics: seq<Book>, func: string,
                                          dflt: Status, b: Book)
    requires UniqueSelectors(comics) && b in comics
    ensures var r := ApplyAll(st, user, comics, func, dflt);
              (user, b.selector) in r &&
              r[(user, b.selector)] == Transition(func, b, Lookup(st, (user, b.selector), dflt))
  {
    var n := |comics| - 1;
    var init := comics[..n];
    assert comics == init + [comics[n]];
    if comics[n] == b {
      assert forall c :: c in init ==> c.selector != b.selector by {
        forall c | c in init ensures c.selector != b.selector {
          var i :| 0 <= i < n && init[i] == c;
          assert comics[i] == c;
        }
      }
      ApplyAllOthers(st, user, init, func, dflt, (user, b.selector));
    } else {
      assert b in init;
      var i :| 0 <= i < n && init[i] == b;
      assert comics[i] == b && comics[n].selector != b.selector;
      ApplyAllChosen(st, user, init, func, dflt, b);
    }
  }

  /** The list comprehension of comic_edit: every token decoded before anything else happens. */
  function DecodeAll(tokens: seq<string>): (r: Option<seq<Selector>>)
    ensures r.Some? ==> (|r.value| == |tokens| &&
              forall i :: 0 <= i < |tokens| ==> DecodeSelector(tokens[i]) == Some(r.value[i]))
    ensures r.None? ==> exists i :: 0 <= i < |tokens| && DecodeSelector(tokens[i]).None?
  {
    if tokens == [] then Some([])
    else match DecodeSelector(tokens[0])
      case None => None
      case Some(sel) =>
        match DecodeAll(tokens[1..])
        case None => None
        case Some(rest) => Some([sel] + rest)
  }

  /**
   * comic_edit as a whole: `selected` is the POST list (None when absent) and
   * `func` the POST field (None when absent).
   */
  function BulkEdit(st: Statuses, books: seq<Book>, user: User, selected: Option<seq<string>>,
                    func: Option<string>, dflt: Status): (r: Result<Statuses>)
    ensures r.Err? ==> r.error == MalformedToken || r.error == MissingParameter("func")
    ensures r.Ok? ==> st.Keys <= r.value.Keys && forall k :: k in r.value && k !in st ==> k.0 == user
  {
    if selected.None? then Ok(st)
    else if func.None? then Err(MissingParameter("func"))
    else if func.value == "choose" then Ok(st)
    else match DecodeAll(selected.value)
      case None => Err(MalformedToken)
      case Some(sels) => Ok(ApplyAll(st, user, Chosen(books, sels), func.value, dflt))
  }

  /**
   * The early exits and the all-or-nothing decoding: with no selection, with
   * "choose", or with one undecodable token, the table is left as it was.
   */
  lemma BulkEditUnchanged(st: Statuses, books: seq<Book>, user: User, selected: Option<seq<string>>,
                          func: Option<string>, dflt: Status)
    ensures selected.None? ==> BulkEdit(st, books, user, selected, func, dflt) == Ok(st)
    ensures selected.Some? && func == Some("choose") ==>
              BulkEdit(st, books, user, selected, func, dflt) == Ok(st)
    ensures selected.Some? && func.Some? && func.value != "choose" &&
            (exists i :: 0 <= i < |selected.value| && DecodeSelector(selected.value[i]).None?) ==>
              BulkEdit(st, books, user, selected, func, dflt) == Err(MalformedToken)
  {
  }

  /**
   * "read" forces every selected book to finished at page_count-1, "unread"
   * forces it back to unread at page 0, creating the status first if needed;
   * any other command only creates it.
   */
  lemma BulkEditSelected(st: Statuses, books: seq<Book>, user: User, tokens: seq<string>,
                         func: string, dflt: Status, b: Book, i: nat)
    requires UniqueSelectors(books) && b in books
    requires func != "choose"
    requires forall t :: t in tokens ==> DecodeSelector(t).Some?
    requires i < |tokens| && DecodeSelector(tokens[i]) == Some(b.selector)
    ensures var r := BulkEdit(st, books, user, Some(tokens), Some(func), dflt);
              r.Ok? && (user, b.selector) in r.value &&
              r.value[(user, b.selector)] ==
                if func == "read" then Status(false, true, b.pageCount - 1)
                else if func == "unread" then Status(true, false, 0)
                else Lookup(st, (user, b.selector), dflt)
  {
    var sels := DecodeAll(tokens).value;
    assert sels[i] == b.selector;
    ApplyAllChosen(st, user, Chosen(books, sels), func, dflt, b);
  }

  /**
   * Bulk edit touches only the requesting user's statuses of books that a
   * selected token names; unknown selectors and other users are left alone.
   */
  lemma BulkEditFrame(st: Statuses, books: seq<Book>, user: User, selected: Option<seq<string>>,
                      func: Option<string>, dflt: Status, k: (User, Selector))
    requires k.0 != user || FindBook(books, k.1).None? ||
             (selected.Some? && forall t :: t in selected.value ==> DecodeSelector(t) != Some(k.1))
    ensures var r := BulkEdit(st, books, user, selected, func, dflt);
              r.Ok? ==> (k in r.value <==> k in st) && (k in st ==> r.value[k] == st[k])
  {
    if selected.Some? && func.Some? && func.value != "choose" && DecodeAll(selected.value).Some? {
      var sels := DecodeAll(selected.value).value;
      var comics := Chosen(books, sels);
      if k.0 == user {
        forall b | b in comics ensures b.selector != k.1 {
          var j :| 0 <= j < |sels| && sels[j] == b.selector;
          assert selected.value[j] in selected.value;
        }
      }
      ApplyAllOthers(st, user, comics, func.value, dflt, k);
    }
  }
}
