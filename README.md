# Library catalogue: book routes and record rules

A Dafny model of the rules of a small library catalogue whose pages list, search,
create, update and delete book records (title, author, genre, year).

What is modelled:

- `BookModel` (`book_model.dfy`) covers the field rules declared with `Book.init`. Title and
  author must be non-null and not empty. Year must be non-null, not empty and numeric. Genre
  has no rule. `Validate` returns the violated messages in the order the ORM collects them:
  first the messages of null or missing required fields, then the messages of the rules that
  a present value breaks, field by field. "Empty" means what the `notEmpty` rule means: only
  white space (JavaScript's `\s` set), the empty text included. "Numeric" means what the
  default `isNumeric` rule accepts: `^[+-]?([0-9]*[.])?[0-9]+$`.
- `TextSearch` (`text_search.dfy`) covers the search filter. The four `LIKE '%q%'` conditions
  joined by OR become substring containment in title, author, genre or year text. A null
  genre never matches.
- `Pagination` (`pagination.dfy`) covers the page arithmetic. The page size is 10 and page 1
  is the default. The offset is `(page - 1) * 10`. The page links are `[0 .. ceil(count/10) - 1]`.
  The rows shown are the window `[offset, offset + 10)`, clipped to the end.
- `BookRoutes` (`book_routes.dfy`) covers the routes.
  - Pure functions give the response of the plain listing, the search route, the detail
    route and the GET dispatch. The search route handles a request only when `search` is
    present or `page` is non-empty; otherwise it passes the request to the next route.
  - The class `Library` is the books table. It holds a map from id to record, the ids in
    table order, and the next id to hand out.
  - Its methods `HandleGet`, `Create`, `Update` and `Delete` follow the handlers.
  - A response is one of: a rendered view with its data, a redirect, a pass to the next
    route, or an error passed to the error handler.

Three behaviours of the code are worth stating outright:

- A failed update shows the form again with the submitted body (`Book.build(req.body)`) and
  the route's id. It does not show the stored values.
- Updating or deleting an unknown id dereferences a missing record. The handler wrapper
  catches the error and passes it on with `next(error)`, so the server does not crash. It is
  modelled as `NextError(NoSuchBook(id))`, with the table unchanged.
- The `allowEmpty` key in the field declarations is not an option the ORM knows, so it has no
  effect. Emptiness is rejected by the `notEmpty` rules alone.

## Model

| member | source | states |
|---|---|---|
| BookModel.Message.Text | models/book.js:11-48 | each message names its field: the two title messages start with "Title", the author messages with "Author", the year messages with "Year" |
| BookModel.IsBlank | models/book.js:14-16 | the notEmpty rule's notion of empty: the empty text is empty, and a text of white space alone holds no digit and no decimal point |
| BookModel.IsNumeric | models/book.js:40-42 | a year the isNumeric rule accepts is non-empty and ends in a digit; a text of digits alone is accepted exactly when it is non-empty |
| BookModel.Validate | models/book.js:5-50 | an input that draws no message has a title, an author and a year that are neither null nor missing |
| BookModel.TitleRule | models/book.js:6-17 | "Title is required" is reported exactly when the title is null, missing or blank |
| BookModel.AuthorRule | models/book.js:19-30 | "Author is required" is reported exactly when the author is null, missing or blank |
| BookModel.YearRequiredRule | models/book.js:35-49 | "Year published is required" is reported exactly when the year is null, missing or blank |
| BookModel.YearNumericRule | models/book.js:39-42 | "Year must be a number" is reported exactly when a present year is not numeric; a null year does not raise it |
| BookModel.NonNumericYear | models/book.js:39-48 | a present, non-blank, non-numeric year raises "Year must be a number" and not "Year published is required" |
| BookModel.NumericIsNotBlank | models/book.js:39-48 | a year the isNumeric rule accepts never breaks the notEmpty rule |
| BookModel.ValidateAcceptsExactlyAdmissible | models/book.js:5-50 | no message is reported iff title and author are filled and the year is present and numeric |
| BookModel.ValidateReportsEachMessageOnce | models/book.js:5-50 | the reported messages hold no duplicate |
| BookModel.GenreIsNeverValidated | models/book.js:32-34 | changing the genre, even to null, never changes the messages |
| BookModel.ToBook | routes/books.js:52 | the stored record carries the submitted title, author and year, the genre or null, and satisfies the record invariant |
| BookModel.AdmittedRoundTrip | models/book.js:5-50 | a stored record passes validation again and converts back to itself |
| BookModel.Merge | routes/books.js:111 | an update replaces exactly the keys present in the body and keeps the stored value of every missing key |
| BookModel.MergeNothing | routes/books.js:111 | an update that sets no key keeps the record admissible and unchanged |
| BookModel.MergeFullBody | routes/books.js:111 | an update whose body sets all four keys stores exactly that body, whatever the record held before |
| TextSearch.Contains | routes/books.js:79-82 | a text contains no query longer than itself and always contains the empty query; that it means "the query occurs at some index" is stated by ContainsIsSubstring |
| TextSearch.ContainsIsSubstring | routes/books.js:79-82 | the containment test holds iff the query occurs at some index of the text |
| TextSearch.Matches | routes/books.js:78-83 | the empty query matches every book, whatever its genre |
| TextSearch.MatchesIsSubstringOfAColumn | routes/books.js:78-83 | a book matches iff the query occurs in its title, author, year or non-null genre |
| TextSearch.EmptyIsContained | routes/books.js:69 | the empty query is contained in every text |
| TextSearch.Search | routes/books.js:77-84 | a row is in the result iff it is in the table and matches in title, author, genre or year; the result is no longer than the table |
| TextSearch.EmptyQueryKeepsAll | routes/books.js:69-84 | an empty query returns every row of the table, in order |
| TextSearch.NoMatchYieldsNothing | routes/books.js:77-84 | a query no row matches returns no rows |
| TextSearch.SingleMatchYieldsThatRow | routes/books.js:77-84 | a query exactly one row matches returns exactly that row |
| TextSearch.SearchKeepsTableOrder | routes/books.js:75-87 | the matching rows keep the table's id order |
| Pagination.Offset | routes/books.js:70 | the offset of a page is a multiple of 10 whose quotient is page - 1, so page 1 starts at row 0 |
| Pagination.PageCount | routes/books.js:88 | the number of pages is the ceiling of count / 10: the smallest n with n * 10 >= count |
| Pagination.Range | routes/books.js:38 | the list has n entries and entry i is i |
| Pagination.PageIndices | routes/books.js:88 | the page links are 0, 1, ..., PageCount(count) - 1, and the list is empty iff count is 0 |
| Pagination.Window | routes/books.js:85-86 | the rows shown are rows[offset + i], at most 10 of them, and none when the offset is past the end |
| Pagination.RowOnItsPage | routes/books.js:85-88 | every row i appears, at position i % 10, on page i / 10 + 1, and that page is among the links |
| Pagination.ListedPageIsNotEmpty | routes/books.js:85-88 | every page offered as a link shows at least one row |
| Pagination.PageBeyondEndIsEmpty | routes/books.js:85-86 | a page past the last one shows no rows and is not clamped |
| Pagination.TwentyFiveRows | routes/books.js:68-88 | 25 rows give the links [0, 1, 2]; page 1 shows rows 1-10 and page 3 shows rows 21-25 |
| BookRoutes.HandlesSearch | routes/books.js:67 | an empty `search` is still handled by the search route; a request with no `search` and no non-empty `page` is not |
| BookRoutes.RequestedPage | routes/books.js:68 | the page is the parsed `page` when it is non-empty, and page 1 otherwise |
| BookRoutes.QueryText | routes/books.js:69 | the search text is empty exactly when `search` is absent or empty, and is otherwise the `search` value itself |
| BookRoutes.SearchUrl | routes/books.js:73 | the link prefix is empty exactly for the empty search text; otherwise it is `search=`, the text and `&` |
| BookRoutes.ListResponse | routes/books.js:29-41 | the plain listing renders the first up to ten rows of the table, table[0], table[1], ..., with no page number, an empty link prefix and one link per page of the table |
| BookRoutes.SearchResponse | routes/books.js:65-94 | the search route passes the request on exactly when it does not handle it; otherwise it renders the requested page, and every row shown is a table row that matches the search text |
| BookRoutes.DetailResponse | routes/books.js:97-104 | the detail route passes to not-found exactly when the id is unknown; otherwise it renders the update form with no messages, the stored title, author and year, and the book's title as page title |
| BookRoutes.GetResponse | routes/books.js:29-104 | / gives the plain listing, /new the empty form (no key set) titled "Create Book" without messages, and /books/<x> the search page when the search route handles the query and the detail page otherwise |
| BookRoutes.UrlRoundTrip | routes/books.js:73 | the link prefix is empty iff the search text is, and the search text can be read back from it |
| BookRoutes.SearchUrlInjective | routes/books.js:73 | two different search texts never share a link prefix |
| BookRoutes.SearchFallsThrough | routes/books.js:67-93 | the search route passes a request on iff `search` is absent and `page` is absent or empty; otherwise it renders a listing |
| BookRoutes.DetailAfterFallThrough | routes/books.js:97-104 | without search parameters /books/id shows the stored record in the update form, or passes to not-found for an unknown id |
| BookRoutes.SearchPageRows | routes/books.js:68-89 | a handled search shows at most 10 rows, each a matching table row: exactly the matches at offset (page - 1) * 10, as many as remain there up to 10, and none past the end |
| BookRoutes.SearchPageLinks | routes/books.js:68-90 | a handled search shows the requested page number (1 by default), one link per page of matches numbered 0, 1, ..., and an empty link prefix exactly for the empty search text |
| BookRoutes.SearchPageShowsMatches | routes/books.js:65-90 | a handled search shows the requested page (1 by default): exactly the matches at offset (page - 1) * 10, min(10, matches left) of them and none past the end, each a matching table row; the links are 0, 1, ..., one per page of matches |
| BookRoutes.EveryMatchIsOnAListedPage | routes/books.js:75-90 | every matching row is shown on some page whose link the listing offers |
| BookRoutes.EmptySearchListsEverything | routes/books.js:67-90 | with an absent or empty search text the search lists the whole table page by page, with an empty link prefix |
| BookRoutes.ListingIsFirstSearchPage | routes/books.js:29-41 | the plain listing resets the offset to 0 and the link prefix to empty: it shows what the empty search shows on page 1 |
| BookRoutes.EmptyTable | routes/books.js:29-41 | with no records, both the listing and a handled search show no rows and no page links, and neither fails |
| BookRoutes.RowsAppend | routes/books.js:52 | a record stored under a new id is appended to the end of the table |
| BookRoutes.Without | routes/books.js:127 | removing an id keeps every other id and keeps the ids increasing |
| BookRoutes.Library.TableIsIdOrdered | routes/books.js:75-87 | the table the search filters is in increasing id order, so the order SearchKeepsTableOrder keeps holds for the real table |
| BookRoutes.Library.StoredRecordsValidate | models/book.js:5-50 | every record in the table passes the field rules |
| BookRoutes.Library.HandleGet | routes/books.js:29-104 | the GET routes, tried in registration order (/, /new, /:search, /:id), answer as the response functions do |
| BookRoutes.Library.Create | routes/books.js:49-62 | an admissible body is stored under an id not used before and appended to the table, with a redirect to its page; otherwise the form comes back with the messages and the table is unchanged |
| BookRoutes.Library.Update | routes/books.js:107-122 | an unknown id is an error and changes nothing; an admissible merge replaces only that record; otherwise the submitted body comes back under the same id with the messages and nothing changes |
| BookRoutes.Library.Delete | routes/books.js:125-129 | an unknown id is an error and changes nothing; otherwise the record leaves the map and the table, and the client is sent to the listing |
| BookRoutes.DeleteThenGet | routes/books.js:97-129 | after a record is deleted, asking for its page passes to the not-found handler |
| BookRoutes.UpdateWithTextYear | routes/books.js:107-122 | an update whose year is "abc" reports exactly "Year must be a number" under the same id and keeps the stored record |

## Left out

- HTTP routing, templates, `res.render` and `res.redirect` are left out. Only their outcomes are modelled, as `Response` values.
- The handler wrapper's promise plumbing is left out. Its effect, passing a thrown error to `next`, is modelled as `NextError`.
- Storage errors other than a missing record are left out. They would also be passed to `next`.
- The ORM's persistence is replaced by the `Library` object. It hands out ids with a counter, as an auto-increment key does.
- Rows come back in table order, which is id order. The database promises no order without `ORDER BY`, so this is an assumption about its natural order.
- `LIKE` is modelled as exact, case-sensitive substring containment. Case folding depends on the database engine. The query's own `%` and `_` wildcards are not interpreted.
- The year is stored and searched as the text it was submitted as. The database turns it into an integer, so a year such as "+1999" or "1999.5" is searched in its converted form. That conversion is not modelled.
- A `page` parameter that is not a whole number of at least 1 is not modelled. `parseInt` would yield NaN, 0 or a negative number, and the resulting offset depends on the database.
- Repeated query parameters, which arrive as arrays, are not modelled.
- Path segments that are not integers are modelled as integer ids absent from the table. The database's string-to-integer comparison is not modelled.
- The module-level `pageOffset` and `url` variables are modelled as local values of each request. Sharing them across concurrent requests is a concurrency effect and is not modelled.
- Keys of a body other than the four declared fields are ignored by the model. The ORM would write an `id`, `createdAt` or `updatedAt` key sent in the body, and a key whose value is an array or an object makes validation fail with "cannot be an array or an object". Neither is modelled.
- Database connection and configuration are I/O and are not modelled.
