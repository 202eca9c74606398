# cbwebreader reading progress, in Dafny

cbwebreader is a web comic-book reader built on Django. This project models the
part of `comic/views.py` that tracks reading progress and lists recent books.
The database is replaced by an in-memory store: a fixed book table and a
mutable table of per-user statuses.

- **Selector tokens.** Books are addressed by 16-byte UUID selectors. In URLs
  they appear as URL-safe base64 without padding, the alphabet of section 5 of
  RFC 4648 (`Base64Url`, in `base64url.dfy`). The codec works in two layers.
  Bytes are regrouped into 6-bit values with integer arithmetic
  (`ToSextets`/`FromSextets`), and each value is written as one alphabet
  character (`ToSymbols`/`ToValues`). A token names a selector exactly when it
  decodes to 16 bytes.
- **Books** (`Catalog`, in `catalog.dfy`). A book is a record holding its
  selector, file name, page count, date added and stored page indices.
  Selectors are unique across the table.
- **Statuses** (`Progress`, in `progress.dfy`). A status is a map from
  `(user, selector)` to `{unread, finished, lastReadPage}`. `get_or_create` is
  `Touch`. Viewing a page is `ViewPage`. The bulk read/unread command is
  `BulkEdit`, built as a fold (`ApplyAll`) over the chosen books.
- **Recent books** (`Recent`, in `recent.dfy`). The query counts all books,
  optionally filters them by a substring of the file name, counts again,
  orders by date added (descending when the direction is `"desc"`) and cuts
  the window `[start, start+length)`.
- **Views** (`Views`, in `views.dfy`). Class `Library` holds the two tables.
  Its methods `ReadComic`, `ComicEdit` and `RecentComicsJson` change the
  status table in place, one step at a time as the view functions do. Each is
  proved against the pure specification above.

Errors are values, not exceptions (`Results`, in `results.dfy`):
- an undecodable token is `MalformedToken`;
- `get_object_or_404` is `NotFound`;
- a missing `func` POST field is `MissingParameter("func")`;
- a negative queryset slice bound is `NegativeIndexing`.

## Model

| member | source | states |
|---|---|---|
| Base64Url.Encode | comic/views.py:137 | The token of a byte string has 4 characters per 3 bytes, plus 2 or 3 for a final group of 1 or 2 bytes, and uses only the URL-safe alphabet. |
| Base64Url.Decode | comic/views.py:43 | A decoded text yields 3 bytes per 4 characters, plus 1 or 2 for a final group of 2 or 3 characters. |
| Base64Url.DecodeSelector | comic/views.py:298 | A token yields a selector only when it decodes, and the selector is the decoded bytes. |
| Base64Url.SelectorAccepted | comic/views.py:298 | A token is accepted as a selector if and only if it is 22 characters long, all from the alphabet. |
| Base64Url.RoundTrip | comic/views.py:137 | Decoding the encoding of any byte string gives that byte string back. |
| Base64Url.EncodeSelector | comic/views.py:137 | The token of a selector is 22 alphabet characters and decodes to that same selector, so the token in a read link names its book. |
| Base64Url.SextetsRoundTrip | comic/views.py:137 | Joining the 6-bit values of any byte string gives the bytes back. |
| Base64Url.SextetsReencode | comic/views.py:298 | Splitting decoded bytes into 6-bit values gives the values back if and only if the spare low bits of a final partial group are zero. |
| Base64Url.Reencode | comic/views.py:298 | An accepted text is the encoding of what it decodes to if and only if it is canonical. |
| Base64Url.SelectorToken | comic/views.py:298 | A selector token is the canonical token of its selector if and only if the value of its 22nd character is a multiple of 16. |
| Base64Url.JoinSplit | comic/views.py:137 | Three bytes cut into four 6-bit values join back into the same three bytes. |
| Base64Url.SplitJoin | comic/views.py:298 | Four 6-bit values joined into three bytes split back into the same four values. |
| Catalog.FindBook | comic/views.py:299 | The lookup returns a book of the table with the given selector, or reports that no book has it. |
| Catalog.Chosen | comic/views.py:159 | `filter(selector__in=...)` keeps exactly the books whose selector is in the list; unknown selectors contribute nothing. |
| Catalog.FindBookUnique | comic/migrations/0012_auto_20160401_0949.py:14-18 | With unique selectors, looking up a book's selector finds that same book. |
| Progress.Touch | comic/views.py:303 | get_or_create adds exactly the requested key, and every status still reads as before (a new key reads as the default). |
| Progress.TouchThenSave | comic/views.py:162-171 | get_or_create followed by a save of the key stores the same table as the save alone. |
| Progress.TouchAll | comic/views.py:131-134 | The listing loop's run of get_or_create keeps every existing status as it was. |
| Progress.TouchAllKeys | comic/views.py:131-134 | The listing loop adds exactly the user's keys for the listed books. |
| Progress.TouchAllLookup | comic/views.py:131-134 | The listing loop changes no status a lookup can see. |
| Progress.MaxIndex | comic/views.py:306 | `aggregate(Max("index"))` is None exactly when the book has no pages; otherwise it is a stored index no smaller than any other. |
| Progress.ViewPage | comic/views.py:304-309 | After a page view the status is not unread and records that page, whatever it was before. It is finished if and only if the page is the highest stored page index. |
| Progress.FinishedAtLastPage | comic/views.py:306-309 | When the stored indices are exactly 0..page_count-1, viewing finishes the book if and only if the page is page_count-1, the page the bulk "read" records. |
| Progress.Transition | comic/views.py:163-170 | "read" gives (false, true, page_count-1) and "unread" gives (true, false, 0) whatever the prior status; any other command keeps it. |
| Progress.Apply | comic/views.py:162-171 | One loop pass adds the book's key for the user, stores the transition of its prior or default status there, and changes no other stored status. |
| Progress.ApplyAll | comic/views.py:161-171 | The loop over the chosen books adds exactly the user's keys for those books. |
| Progress.ApplyAllOthers | comic/views.py:161-171 | Keys of other users and of books outside the loop keep their presence and their status. |
| Progress.ApplyAllChosen | comic/views.py:161-171 | Every book in the loop ends with the command's transition applied to its prior status, or to the default when it had none. |
| Progress.DecodeAll | comic/views.py:158 | All tokens decode, each to the selector at the same position, or at least one token does not decode. |
| Progress.BulkEdit | comic/views.py:153-172 | comic_edit fails only with a bad token or a missing `func`. On success it removes no status and creates statuses only for the requesting user. |
| Progress.BulkEditUnchanged | comic/views.py:154-158 | With no `selected` field or with `func == "choose"` nothing changes. One undecodable token fails the request before any status is touched. |
| Progress.BulkEditSelected | comic/views.py:161-171 | Every selected existing book ends with status (false, true, page_count-1) under "read" and (true, false, 0) under "unread". Under any other command it ends with its prior or default status. |
| Progress.BulkEditFrame | comic/views.py:158-162 | Bulk edit leaves alone the statuses of other users, of unknown selectors and of books no token names. |
| Recent.Contains | comic/views.py:117 | A name contains a text only if it is at least as long, and every name contains the empty text. |
| Recent.ContainsAt | comic/views.py:117 | The substring test holds if and only if the search text occurs at some position of the file name. |
| Recent.Matching | comic/views.py:116-117 | The filter keeps exactly the books whose file name contains the search text, and never more books than there were. |
| Recent.MatchingCount | comic/views.py:117 | Each matching book appears in the filtered table as often as in the table, and no other book appears, so its length is the number of matching books. |
| Recent.MatchingEmpty | comic/views.py:116 | An empty search keeps every book, so skipping the filter changes nothing. |
| Recent.OrderByDate | comic/views.py:120-128 | The ordered books are a permutation of the input, sorted by date added, descending when asked. |
| Recent.Window | comic/views.py:131 | The slice has `min(hi, n) - lo` books when that is positive, and none otherwise; element i is element lo+i of the input. |
| Recent.RecentListing | comic/views.py:109-131 | The only failure is a negative slice bound. On success recordsTotal is the number of books, recordsFiltered <= recordsTotal, and the page holds at most recordsFiltered books. |
| Recent.ListingCounts | comic/views.py:113-129 | recordsTotal is the number of all books and recordsFiltered the number matching the search, so recordsFiltered <= recordsTotal. |
| Recent.ListingNegative | comic/views.py:110-131 | The request fails if and only if start or start+length is negative. |
| Recent.ListingSize | comic/views.py:131 | The page holds exactly max(0, min(start+length, recordsFiltered) - start) books, so at most max(0, length) and at most max(0, recordsFiltered - start). |
| Recent.ListingContent | comic/views.py:116-131 | The page is in date order, descending if and only if the direction is "desc", and holds only table books whose name contains the search. |
| Recent.ListingWindow | comic/views.py:118-131 | Row i of the page is position start+i of the filtered books in date order. |
| Views.Library.constructor | comic/migrations/0012_auto_20160401_0949.py:14-18 | A library starts from a book table with unique selectors and the given status table. |
| Views.Library.GetOrCreate | comic/views.py:303 | The table gains the key if it was missing, and the returned status is the stored one or the default. |
| Views.Library.ReadComic | comic/views.py:296-310 | A bad token fails as MalformedToken and an unknown selector as NotFound, both leaving the table unchanged. Otherwise only the user's status for that book changes, to the page-view update of its prior or default status. |
| Views.Library.ComicEdit | comic/views.py:153-172 | The new table is exactly the BulkEdit result, and on every error the table is unchanged. |
| Views.Library.MarkOne | comic/views.py:162-171 | One loop pass stores the command's transition of the book's prior or default status. |
| Views.Library.RecentComicsJson | comic/views.py:109-148 | The response has the listing's two counts and one row per listed book, in order, carrying that book's status for the user. The status table gains the user's missing keys for the listed books and nothing else. |
| Views.Library.ListRows | comic/views.py:131-147 | One row per book, in order, each with the status get_or_create returned; the table changes as the run of get_or_create. |

## Left out

- Authentication, the account, user, settings and initial-setup pages, and form validation (comic/views.py:175-292, 331-358). These are form handling over Django auth.
- Template rendering, JSON serialisation, icon strings, `strftime` date formatting, the `url` string and the `label` of each row (comic/views.py:57-61, 67, 88, 138-146). A row carries the selector bytes and the status. Its token is `EncodeSelector` of the selector, and its link page is the status's `lastReadPage`.
- `comic_list`, `comic_list_json` and `get_image` (comic/views.py:34-88, 324-328). Directories, archive extraction, `page_name` and `nav` are not part of this model. The token decoding these views share is `DecodeSelector`.
- `generate_directory`, the breadcrumb helpers and `generate_label` live in `comic/util.py`, which is not part of this model.
- The field defaults of a new `ComicStatus` live in `comic/models.py`, which is not part of this model. They are the `defaultStatus` parameter of `Library`.
- The `BASE_DIR` setting and the `path.isdir` check are file-system I/O (comic/views.py:35-40).
- `atomic()` (comic/views.py:160): the loop is modelled sequentially, and concurrent requests are not modelled.
- `int()` parsing of `page`, `start` and `length` is not modelled: the model takes integers. POST fields other than `selected` and `func` are parameters, so their KeyError paths are not modelled.
- Base64Url.Decode: Python's decoder is more lenient than the model. Django only pads the text with `=`; Python's `base64.urlsafe_b64decode` then maps `-` and `_` to `+` and `/`, drops characters outside the standard alphabet, and so also accepts `+`, `/` and `=`. The model rejects all of these as `MalformedToken`. It does agree with Python in rejecting a length one more than a multiple of four and in ignoring non-zero spare bits.
- Recent.OrderByDate: the database leaves the order of books with equal dates unspecified. The model sorts by insertion, and its contract promises only sortedness and a permutation.
- `file_name__contains` is case-sensitive on PostgreSQL and case-insensitive for ASCII on SQLite. The model compares characters exactly.
- The page number is not range-checked, as in the code. A view of a page above every stored index records that page and leaves the book unfinished.
