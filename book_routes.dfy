/**
 * The /books routes: listing, search with pagination, the detail page, and create,
 * update and delete over the books table.
 *
 * The table is an object holding a map from id to record, the ids in table order and
 * the next id to hand out. Each handler's outcome is a `Response`: a page rendered
 * with its view data, a redirect, a pass to the next route (`Next`), or an error
 * passed to the error handler (`NextError`). The pure functions below give the
 * response of each read-only route; the lemmas after them state what those pages show.
 */
module BookRoutes {
  import opened Wrappers
  import opened BookModel
  import opened TextSearch
  import opened Pagination

  /** The `page` query parameter: absent, present but empty (a falsy value), or a parsed page number. */
  datatype PageParam = NoPage | BlankPage | PageNum(n: PageNumber)

  /** The query string of a GET request: `search` and `page`. */
  datatype Query = Query(search: Option<string>, page: PageParam)

  /**
   * A GET request under /books: the listing, the empty form, or /books/<segment>.
   * The segment is the record id for the detail route; the search route ignores it.
   */
  datatype GetRequest = Index | NewBook | Item(id: int, query: Query)

  /** The data handed to each template. */
  datatype View =
    | BookList(books: seq<Row>, page: Option<PageNumber>, url: string, pagination: seq<nat>, title: string)
    | NewBookForm(book: BookInput, errors: seq<Message>, title: string)
    | UpdateBookForm(id: int, book: BookInput, errors: seq<Message>, title: string)

  datatype Location = BookPage(id: int) | BookIndex

  /** The error raised when an update or delete dereferences a record that was not found. */
  datatype Failure = NoSuchBook(id: int)

  datatype Response = Render(view: View) | Redirect(to: Location) | Next | NextError(failure: Failure)

  const ListTitle: string := "Books"
  const CreateTitle: string := "Create Book"
  const NewTitle: string := "New Book"
  const UpdateTitle: string := "Update Book"

  /** The body of an empty form: no key set. */
  const EmptyInput: BookInput := BookInput(Missing, Missing, Missing, Missing)

  /** The search route handles a request whose `search` is present (even empty) or whose `page` is non-empty. */
  predicate HandlesSearch(query: Query)
    ensures query.search == Some("") ==> HandlesSearch(query)
    ensures query.search.None? && !query.page.PageNum? ==> !HandlesSearch(query)
  {
    query.search.Some? || query.page.PageNum?
  }

  /** The page a request asks for: the parsed `page` when it is non-empty, otherwise the default. */
  function RequestedPage(page: PageParam): (p: PageNumber)
    ensures !page.PageNum? ==> p == 1
    ensures page.PageNum? ==> p == page.n
  {
    if page.PageNum? then page.n else DefaultPage
  }

  /** The text searched for: the `search` parameter, or the empty text when it is absent. */
  function QueryText(search: Option<string>): (q: string)
    ensures q == "" <==> search.None? || search == Some("")
    ensures q != "" ==> search == Some(q)
  {
    if search.Some? then search.value else ""
  }

  /** The query-string prefix the listing template puts before `page=` in its links. */
  function SearchUrl(q: string): (url: string)
    ensures url == "" <==> q == ""
    ensures q != "" ==> |url| == |q| + 8 && url[..7] == "search=" && url[7..|url| - 1] == q && url[|url| - 1] == '&'
  {
    if q == "" then "" else "search=" + q + "&"
  }

  /**
   * The search text carried by a link prefix. The listing never reads it back; it is
   * here to show that no two search texts share a link prefix.
   */
  function UrlQuery(url: string): string {
    if |url| >= 8 then url[7..|url| - 1] else ""
  }

  /** The link prefix is empty exactly for the empty search, and the search text can be read back from it. */
  lemma UrlRoundTrip(q: string)
    ensures SearchUrl(q) == "" <==> q == ""
    ensures UrlQuery(SearchUrl(q)) == q
  {
    if q != "" {
      var url := SearchUrl(q);
      assert url[7..|url| - 1] == q;
    }
  }

  /** Different search texts give different link prefixes. */
  lemma SearchUrlInjective(q1: string, q2: string)
    ensures SearchUrl(q1) == SearchUrl(q2) ==> q1 == q2
  {
    UrlRoundTrip(q1);
    UrlRoundTrip(q2);
  }

  /** The plain listing: the first page of the whole table, with no search text. */
  function ListResponse(table: seq<Row>): (r: Response)
    ensures r.Render? && r.view.BookList? && r.view.url == "" && r.view.page.None?
    ensures r.view.books == Window(table, Offset(DefaultPage))
    ensures |r.view.books| == Min(PageLimit, |table|)
    ensures forall i :: 0 <= i < |r.view.books| ==> r.view.books[i] == table[i]
    ensures r.view.pagination == PageIndices(|table|)
  {
    Render(BookList(Window(table, 0), None, "", PageIndices(|table|), ListTitle))
  }

  /** The search route: the requested page of the matching rows, or a pass to the next route. */
  function SearchResponse(table: seq<Row>, query: Query): (r: Response)
    ensures r == Next <==> !HandlesSearch(query)
    ensures r != Next ==> r.Render? && r.view.BookList? && r.view.page == Some(RequestedPage(query.page))
    ensures r != Next ==> forall x :: x in r.view.books ==> x in table && Matches(x.book, QueryText(query.search))
  {
    if !HandlesSearch(query) then Next
    else
      var page := RequestedPage(query.page);
      var q := QueryText(query.search);
      var matches := Search(table, q);
      Render(BookList(Window(matches, Offset(page)), Some(page), SearchUrl(q), PageIndices(|matches|), ListTitle))
  }

  /** The detail route: the update form filled with the stored record, or a pass to the not-found handler. */
  function DetailResponse(books: map<int, Book>, id: int): (r: Response)
    ensures r == Next <==> id !in books
    ensures id in books ==> r.Render? && r.view.UpdateBookForm? && r.view.id == id && r.view.errors == [] &&
                            r.view.title == books[id].title && r.view.book.title == Text(books[id].title) &&
                            r.view.book.author == Text(books[id].author) && r.view.book.year == Text(books[id].year)
  {
    if id in books then Render(UpdateBookForm(id, AsInput(books[id]), [], books[id].title)) else Next
  }

  /** The GET routes in the order they are registered: /, /new, /:search, /:id. */
  function GetResponse(books: map<int, Book>, table: seq<Row>, request: GetRequest): (r: Response)
    ensures request.Index? ==> r == ListResponse(table)
    ensures request.NewBook? ==> r.Render? && r.view.NewBookForm? && r.view.errors == [] &&
                                 r.view.book == EmptyInput && r.view.title == CreateTitle
    ensures request.Item? && HandlesSearch(request.query) ==> r == SearchResponse(table, request.query)
    ensures request.Item? && !HandlesSearch(request.query) ==> r == DetailResponse(books, request.id)
  {
    match request
    case Index => ListResponse(table)
    case NewBook => Render(NewBookForm(EmptyInput, [], CreateTitle))
    case Item(id, query) =>
      if HandlesSearch(query) then SearchResponse(table, query) else DetailResponse(books, id)
  }

  /** A request without `search` and with no non-empty `page` is passed on; any other is answered with a listing. */
  lemma SearchFallsThrough(table: seq<Row>, query: Query)
    ensures SearchResponse(table, query) == Next <==> query.search.None? && !query.page.PageNum?
    ensures SearchResponse(table, query) != Next ==> SearchResponse(table, query).Render?
  {
  }

  /** /books/<id> without search parameters reaches the detail route: the stored record in the update form, or not-found when the id is unknown. */
  lemma DetailAfterFallThrough(books: map<int, Book>, table: seq<Row>, id: int, query: Query)
    requires !HandlesSearch(query)
    requires id in books ==> Admitted(books[id])
    ensures var r := GetResponse(books, table, Item(id, query));
            (id in books ==> r.Render? && r.view.UpdateBookForm? && r.view.id == id && r.view.errors == [] &&
                             Admissible(r.view.book) && ToBook(r.view.book) == books[id])
            && (id !in books ==> r == Next)
  {
    if id in books {
      AdmittedRoundTrip(books[id]);
      ValidateAcceptsExactlyAdmissible(AsInput(books[id]));
    }
  }

  /** A handled search renders the window of the matching rows at the requested page's offset. */
  lemma SearchView(table: seq<Row>, query: Query)
    requires HandlesSearch(query)
    ensures var q := QueryText(query.search);
            var m := Search(table, q);
            var page := RequestedPage(query.page);
            SearchResponse(table, query).view ==
              BookList(Window(m, Offset(page)), Some(page), SearchUrl(q), PageIndices(|m|), ListTitle)
  {
  }

  /** The rows of a search page: at most ten matching table rows, those at the requested page's offset among the matches. */
  lemma SearchPageRows(table: seq<Row>, query: Query)
    requires HandlesSearch(query)
    ensures var v := SearchResponse(table, query).view;
            var q := QueryText(query.search);
            var m := Search(table, q);
            var off := Offset(RequestedPage(query.page));
            && |v.books| <= PageLimit
            && |v.books| == (if off >= |m| then 0 else Min(PageLimit, |m| - off))
            && (forall x :: x in v.books ==> x in table && Matches(x.book, q))
            && (forall i :: 0 <= i < |v.books| ==> v.books[i] == m[off + i])
  {
    SearchView(table, query);
  }

  /** The page number, links and link prefix of a search page. */
  lemma SearchPageLinks(table: seq<Row>, query: Query)
    requires HandlesSearch(query)
    ensures var v := SearchResponse(table, query).view;
            var q := QueryText(query.search);
            var m := Search(table, q);
            && v.page == Some(if query.page.PageNum? then query.page.n else 1)
            && |v.pagination| == PageCount(|m|)
            && (forall i :: 0 <= i < |v.pagination| ==> v.pagination[i] == i)
            && (v.url == "" <==> q == "")
  {
    SearchView(table, query);
    UrlRoundTrip(QueryText(query.search));
  }

  /**
   * A handled search shows the requested page (1 by default) of the matching rows: at most
   * ten of them, each a matching table row, starting at offset (page - 1) * 10, with one
   * link per page of matches.
   */
  lemma SearchPageShowsMatches(table: seq<Row>, query: Query)
    requires HandlesSearch(query)
    ensures var v := SearchResponse(table, query).view;
            var q := QueryText(query.search);
            var m := Search(table, q);
            && v.page == Some(if query.page.PageNum? then query.page.n else 1)
            && |v.books| <= PageLimit
            && |v.books| == (var off := Offset(RequestedPage(query.page));
                             if off >= |m| then 0 else Min(PageLimit, |m| - off))
            && (forall x :: x in v.books ==> x in table && Matches(x.book, q))
            && (forall i :: 0 <= i < |v.books| ==> v.books[i] == m[(v.page.value - 1) * PageLimit + i])
            && |v.pagination| == PageCount(|m|)
            && (forall i :: 0 <= i < |v.pagination| ==> v.pagination[i] == i)
            && (v.url == "" <==> q == "")
  {
    SearchPageRows(table, query);
    SearchPageLinks(table, query);
  }

  /** Every matching row is shown on some page whose link the listing offers. */
  lemma EveryMatchIsOnAListedPage(table: seq<Row>, q: string, x: Row) returns (page: PageNumber)
    requires x in table && Matches(x.book, q)
    ensures var v := SearchResponse(table, Query(Some(q), PageNum(page))).view;
            page - 1 in v.pagination && x in v.books
  {
    var m := Search(table, q);
    var i :| 0 <= i < |m| && m[i] == x;
    page := i / PageLimit + 1;
    var w := Window(m, Offset(page));
    var links := PageIndices(|m|);
    assert SearchResponse(table, Query(Some(q), PageNum(page))).view == BookList(w, Some(page), SearchUrl(q), links, ListTitle);
    RowOnItsPage(m, i);
    assert w[i % PageLimit] == x;
    assert links[page - 1] == page - 1;
  }

  /** With an absent or empty search text every row matches: the search lists the whole table page by page. */
  lemma EmptySearchListsEverything(table: seq<Row>, query: Query)
    requires HandlesSearch(query) && QueryText(query.search) == ""
    ensures var v := SearchResponse(table, query).view;
            v.books == Window(table, Offset(RequestedPage(query.page))) && v.url == "" &&
            v.pagination == PageIndices(|table|)
  {
    EmptyQueryKeepsAll(table);
  }

  /** The plain listing shows what the empty search shows on its first page: offset 0 and an empty link prefix. */
  lemma ListingIsFirstSearchPage(table: seq<Row>)
    ensures var l := ListResponse(table).view;
            var s := SearchResponse(table, Query(Some(""), NoPage)).view;
            l.books == s.books && l.url == s.url == "" && l.pagination == s.pagination && s.page == Some(1)
  {
    EmptyQueryKeepsAll(table);
  }

  /** An empty table lists no rows and no page links; neither route fails. */
  lemma EmptyTable(query: Query)
    ensures ListResponse([]) == Render(BookList([], None, "", [], ListTitle))
    ensures HandlesSearch(query) ==> SearchResponse([], query).view.books == [] && SearchResponse([], query).view.pagination == []
  {
  }

  /** `s` without `x`. */
  function Without(s: seq<int>, x: int): (r: seq<int>)
    ensures forall y :: y in r <==> y in s && y != x
    ensures Increasing(s) ==> Increasing(r)
  {
    if s == [] then []
    else
      var rest := Without(s[1..], x);
      assert Increasing(s) ==> forall j :: 0 <= j < |rest| ==> s[0] < rest[j] by {
        if Increasing(s) {
          forall j | 0 <= j < |rest| ensures s[0] < rest[j] {
            assert rest[j] in s[1..];
            var k :| 0 <= k < |s[1..]| && s[1..][k] == rest[j];
            assert s[k + 1] == rest[j];
          }
        }
      }
      (if s[0] == x then [] else [s[0]]) + rest
  }

  /** The rows of the table in table order. */
  function Rows(ids: seq<int>, books: map<int, Book>): (t: seq<Row>)
    requires forall i :: 0 <= i < |ids| ==> ids[i] in books
  {
    seq(|ids|, i requires 0 <= i < |ids| => Row(ids[i], books[ids[i]]))
  }

  /** Appending a fresh id to the table appends its row. */
  lemma RowsAppend(ids: seq<int>, books: map<int, Book>, id: int, b: Book)
    requires forall i :: 0 <= i < |ids| ==> ids[i] in books && ids[i] != id
    ensures Rows(ids + [id], books[id := b]) == Rows(ids, books) + [Row(id, b)]
  {
    var l, r := Rows(ids + [id], books[id := b]), Rows(ids, books) + [Row(id, b)];
    assert |l| == |r|;
    forall i | 0 <= i < |l| ensures l[i] == r[i] { }
  }

  /** The books table. */
  class Library {
    var books: map<int, Book>
    var ids: seq<int>
    var nextId: int

    /**
     * Ids are handed out in increasing order from 1, so table order is id order; the
     * map and the id list hold the same ids; every stored record passed validation.
     */
    ghost predicate Valid()
      reads this
    {
      && nextId >= 1
      && Increasing(ids)
      && (forall i :: 0 <= i < |ids| ==> 1 <= ids[i] < nextId && ids[i] in books)
      && (forall id :: id in books ==> id in ids)
      && (forall id :: id in books ==> Admitted(books[id]))
    }

    function Table(): (t: seq<Row>)
      reads this
      requires Valid()
      ensures |t| == |ids|
      ensures forall x :: x in t ==> x.id in books && books[x.id] == x.book
    {
      Rows(ids, books)
    }

    constructor ()
      ensures Valid()
      ensures books == map[] && ids == [] && nextId == 1
    {
      books := map[];
      ids := [];
      nextId := 1;
    }

    /** The table lists its rows in increasing id order. */
    lemma TableIsIdOrdered()
      requires Valid()
      ensures IdsIncreasing(Table())
    {
      assert Ids(Table()) == ids;
    }

    /** Every stored record passes the field rules again. */
    lemma StoredRecordsValidate(id: int)
      requires Valid() && id in books
      ensures Validate(AsInput(books[id])) == []
    {
      AdmittedRoundTrip(books[id]);
    }

    /** GET under /books: the listing, the empty form, a search page, or a record's detail page. */
    method HandleGet(request: GetRequest) returns (response: Response)
      requires Valid()
      ensures response == GetResponse(books, Table(), request)
    {
      match request
      case Index =>
        var pageOffset := 0;
        var url := "";
        var table := Table();
        response := Render(BookList(Window(table, pageOffset), None, url, PageIndices(|table|), ListTitle));
      case NewBook =>
        response := Render(NewBookForm(EmptyInput, [], CreateTitle));
      case Item(id, query) =>
        if query.search.Some? || query.page.PageNum? {
          var page := if query.page.PageNum? then query.page.n else DefaultPage;
          var qString := if query.search.Some? then query.search.value else "";
          var pageOffset := (page - 1) * PageLimit;
          var url := if qString != "" then "search=" + qString + "&" else "";
          var matches := Search(Table(), qString);
          assert page == RequestedPage(query.page) && qString == QueryText(query.search);
          assert pageOffset == Offset(page) && url == SearchUrl(qString);
          response := Render(BookList(Window(matches, pageOffset), Some(page), url, PageIndices(|matches|), ListTitle));
        } else if id in books {
          var book := books[id];
          response := Render(UpdateBookForm(id, AsInput(book), [], book.title));
        } else {
          response := Next;
        }
    }

    /**
     * POST /books/new: an admissible body is stored under a fresh id, appended to the
     * table, and the client is sent to its page; otherwise the form is shown again
     * with the messages and nothing is stored.
     */
    method Create(input: BookInput) returns (response: Response)
      requires Valid()
      modifies this
      ensures Valid()
      ensures Admissible(input) ==>
        && old(nextId) !in old(books)
        && response == Redirect(BookPage(old(nextId)))
        && books == old(books)[old(nextId) := ToBook(input)]
        && ids == old(ids) + [old(nextId)]
        && Table() == old(Table()) + [Row(old(nextId), ToBook(input))]
        && nextId == old(nextId) + 1
      ensures !Admissible(input) ==>
        && Validate(input) != []
        && response == Render(NewBookForm(input, Validate(input), NewTitle))
        && books == old(books) && ids == old(ids) && nextId == old(nextId)
    {
      var errors := Validate(input);
      ValidateAcceptsExactlyAdmissible(input);
      if errors != [] {
        response := Render(NewBookForm(input, errors, NewTitle));
      } else {
        var id := nextId;
        assert forall i :: 0 <= i < |ids| ==> ids[i] < id;
        RowsAppend(ids, books, id, ToBook(input));
        books := books[id := ToBook(input)];
        ids := ids + [id];
        assert forall i :: 0 <= i < |ids| - 1 ==> ids[i] == old(ids)[i];
        nextId := nextId + 1;
        response := Redirect(BookPage(id));
      }
    }

    /**
     * POST /books/:id/update: the keys present in `changes` replace the stored ones
     * when the result passes the field rules; otherwise the submitted body is shown
     * again under the same id with the messages, and the record is unchanged. An
     * unknown id raises an error passed to the error handler.
     */
    method Update(id: int, changes: BookInput) returns (response: Response)
      requires Valid()
      modifies this
      ensures Valid()
      ensures ids == old(ids) && nextId == old(nextId)
      ensures id !in old(books) ==> response == NextError(NoSuchBook(id)) && books == old(books)
      ensures id in old(books) && Admissible(Merge(old(books)[id], changes)) ==>
        && response == Redirect(BookPage(id))
        && books == old(books)[id := ToBook(Merge(old(books)[id], changes))]
      ensures id in old(books) && !Admissible(Merge(old(books)[id], changes)) ==>
        && Validate(Merge(old(books)[id], changes)) != []
        && response == Render(UpdateBookForm(id, changes, Validate(Merge(old(books)[id], changes)), UpdateTitle))
        && books == old(books)
    {
      if id !in books {
        response := NextError(NoSuchBook(id));
        return;
      }
      var candidate := Merge(books[id], changes);
      var errors := Validate(candidate);
      ValidateAcceptsExactlyAdmissible(candidate);
      if errors != [] {
        response := Render(UpdateBookForm(id, changes, errors, UpdateTitle));
      } else {
        books := books[id := ToBook(candidate)];
        response := Redirect(BookPage(id));
      }
    }

    /**
     * POST /books/:id/delete: the record leaves the map and the table and the client
     * is sent to the listing; an unknown id raises an error passed to the error handler.
     */
    method Delete(id: int) returns (response: Response)
      requires Valid()
      modifies this
      ensures Valid()
      ensures nextId == old(nextId)
      ensures id !in old(books) ==> response == NextError(NoSuchBook(id)) && books == old(books) && ids == old(ids)
      ensures id in old(books) ==>
        && response == Redirect(BookIndex)
        && books == old(books) - {id}
        && ids == Without(old(ids), id)
    {
      if id !in books {
        response := NextError(NoSuchBook(id));
        return;
      }
      var kept := Without(ids, id);
      forall i | 0 <= i < |kept| ensures 1 <= kept[i] < nextId && kept[i] in books - {id} {
        assert kept[i] in ids;
        var k :| 0 <= k < |ids| && ids[k] == kept[i];
      }
      books := books - {id};
      ids := kept;
      response := Redirect(BookIndex);
    }
  }

  /** Deleting a record and then asking for its page ends in the not-found handler. */
  method DeleteThenGet(library: Library, id: int) returns (response: Response)
    requires library.Valid() && id in library.books
    modifies library
    ensures library.Valid() && id !in library.books
    ensures response == Next
  {
    var deleted := library.Delete(id);
    response := library.HandleGet(Item(id, Query(None, NoPage)));
  }

  /** An update whose year is "abc" is refused with "Year must be a number" and the stored record is kept. */
  method UpdateWithTextYear(library: Library, id: int) returns (response: Response)
    requires library.Valid() && id in library.books
    modifies library
    ensures library.books == old(library.books)
    ensures response.Render? && response.view.UpdateBookForm? && response.view.id == id
    ensures response.view.errors == [YearNotNumber]
  {
    var changes := BookInput(Missing, Missing, Missing, Text("abc"));
    var stored := library.books[id];
    assert !IsNumeric("abc") by {
      assert !IsDigit("abc"[0]) && "abc"[0] != '.' && "abc"[1] != '.' && "abc"[2] != '.';
    }
    assert !IsSpace("abc"[0]);
    response := library.Update(id, changes);
  }
}
