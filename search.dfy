/** The book search of the index handler (backend/application.py:52-71): strip the query, match it
    case-insensitively against isbn, title and author, order by title and keep the first 50. */
module Search {
  import opened Wrappers
  import opened Text
  import opened Sorting
  import opened Store

  const SEARCH_LIMIT: nat := 50

  /** `isbn ILIKE '%q%' OR title ILIKE '%q%' OR author ILIKE '%q%'`, with ASCII case folding. */
  predicate Matches(b: Book, q: string): (m: bool)
    ensures q == [] ==> m
  {
    var p := Lower(q);
    Contains(Lower(b.isbn), p) || Contains(Lower(b.title), p) || Contains(Lower(b.author), p)
  }

  function MatchesQuery(q: string): Book -> bool {
    (b: Book) => Matches(b, q)
  }

  /** ORDER BY title. */
  const TITLE_ORDER: (Book, Book) -> bool := (a: Book, b: Book) => StrLe(a.title, b.title)

  lemma TitleOrderIsTotal()
    ensures IsTotalPreorder(TITLE_ORDER)
  {
    forall a: Book, b: Book ensures TITLE_ORDER(a, b) || TITLE_ORDER(b, a) {
      StrLeTotal(a.title, b.title);
    }
    forall a: Book, b: Book, c: Book | TITLE_ORDER(a, b) && TITLE_ORDER(b, c) ensures TITLE_ORDER(a, c) {
      StrLeTransitive(a.title, b.title, c.title);
    }
  }

  /** The rows of the search query: the matching books ordered by title, at most 50 of them and
      none repeated beyond its multiplicity in the table; when
      more than 50 match, the ones left out sort no earlier than any that were kept. */
  function SearchBooks(books: seq<Book>, q: string): (r: seq<Book>)
    ensures |r| == if |Where(books, MatchesQuery(q))| < SEARCH_LIMIT then |Where(books, MatchesQuery(q))| else SEARCH_LIMIT
    ensures SortedBy(r, TITLE_ORDER)
    ensures forall b :: b in r ==> b in books && Matches(b, q)
    ensures multiset(r) <= multiset(Where(books, MatchesQuery(q)))
    ensures |Where(books, MatchesQuery(q))| <= SEARCH_LIMIT ==> multiset(r) == multiset(Where(books, MatchesQuery(q)))
    ensures forall b, x :: b in Where(books, MatchesQuery(q)) && b !in r && x in r ==> TITLE_ORDER(x, b)
  {
    TitleOrderIsTotal();
    var matches := Where(books, MatchesQuery(q));
    var r := OrderByLimit(matches, TITLE_ORDER, SEARCH_LIMIT);
    assert forall b :: b in matches <==> b in books && MatchesQuery(q)(b);
    r
  }

  /** What the index handler answers for a POST: the prompt for a blank query, a distinct
      "no matches" answer, or the (non-empty) list of results. */
  datatype SearchResult = EmptyQuery | NoMatches(query: string) | Results(query: string, books: seq<Book>)

  function SearchFor(books: seq<Book>, rawQuery: Option<string>): (r: SearchResult)
    ensures r.EmptyQuery? <==> AllSpace(rawQuery.GetOr(""))
    ensures r.NoMatches? ==> r.query == Trim(rawQuery.GetOr("")) && forall b :: b in books ==> !Matches(b, r.query)
    ensures r.Results? ==> r.query == Trim(rawQuery.GetOr("")) && r.books == SearchBooks(books, r.query) && r.books != []
  {
    var q := Trim(rawQuery.GetOr(""));
    TrimEmptyIff(rawQuery.GetOr(""));
    if q == [] then EmptyQuery
    else
      var found := SearchBooks(books, q);
      if found == [] then
        assert forall b :: b in Where(books, MatchesQuery(q)) <==> b in books && Matches(b, q);
        NoMatches(q)
      else Results(q, found)
  }

  /** Books that match but were cut off by the limit have titles no smaller than any kept title:
      SearchBooks' last ensures, restated for one book in terms of the table and the titles. */
  lemma LimitKeepsFirstTitles(books: seq<Book>, q: string, b: Book, x: Book)
    requires b in books && Matches(b, q)
    requires x in SearchBooks(books, q) && b !in SearchBooks(books, q)
    ensures StrLe(x.title, b.title)
  {
    assert MatchesQuery(q)(b);
    var r := SearchBooks(books, q);
    assert b in Where(books, MatchesQuery(q));
    assert TITLE_ORDER(x, b);
  }

  /** A stripped, non-empty query that occurs in some book's title gets a result list. */
  lemma TitleHitIsFound(books: seq<Book>, b: Book, q: string)
    requires b in books && q != [] && NoOuterSpace(q) && Contains(Lower(b.title), Lower(q))
    ensures SearchFor(books, Some(q)).Results?
  {
    TrimOfTrimmed(q);
    assert !AllSpace(q) by { assert !IsSpace(q[0]); }
    assert b in Where(books, MatchesQuery(q));
  }
}
