/** The review side of the book page (backend/application.py:185-238): the check-then-insert-or-update
    upsert of a user's review, and the listing and statistics the page derives from the table. */
module Reviews {
  import opened Wrappers
  import opened Sorting
  import opened Store

  function ForBook(isbn: string): Review -> bool {
    (r: Review) => r.isbn == isbn
  }

  function ForPair(userId: int, isbn: string): Review -> bool {
    (r: Review) => SameKey(r, userId, isbn)
  }

  function OtherPairs(userId: int, isbn: string): Review -> bool {
    (r: Review) => !SameKey(r, userId, isbn)
  }

  // ----- statistics (backend/application.py:218-222) -----

  function SumRatings(rows: seq<Review>): int
    decreases |rows|
  {
    if rows == [] then 0 else rows[0].rating + SumRatings(rows[1..])
  }

  /** `SELECT COUNT(*) FROM reviews WHERE isbn = :isbn`. */
  function ReviewCount(reviews: seq<Review>, isbn: string): (n: nat)
    ensures n <= |reviews|
  {
    |Where(reviews, ForBook(isbn))|
  }

  /** `COALESCE(AVG(rating), 0)` over the same rows, as an exact rational. */
  function AverageRating(reviews: seq<Review>, isbn: string): real {
    var n := ReviewCount(reviews, isbn);
    if n == 0 then 0.0 else SumRatings(Where(reviews, ForBook(isbn))) as real / n as real
  }

  /** The isbn column of a table. */
  function Isbns(rows: seq<Review>): (col: seq<string>)
    ensures |col| == |rows|
    ensures forall i :: 0 <= i < |rows| ==> col[i] == rows[i].isbn
    decreases |rows|
  {
    if rows == [] then [] else [rows[0].isbn] + Isbns(rows[1..])
  }

  /** The count is the number of rows whose isbn column holds the book's isbn. */
  lemma {:induction false} CountIsOccurrences(reviews: seq<Review>, isbn: string)
    ensures ReviewCount(reviews, isbn) == multiset(Isbns(reviews))[isbn]
    decreases |reviews|
  {
    if reviews != [] {
      CountIsOccurrences(reviews[1..], isbn);
    }
  }

  lemma {:induction false} SumBounds(rows: seq<Review>)
    requires forall i :: 0 <= i < |rows| ==> 1 <= rows[i].rating <= 5
    ensures |rows| <= SumRatings(rows) <= 5 * |rows|
    decreases |rows|
  {
    if rows != [] {
      SumBounds(rows[1..]);
    }
  }

  /** With ratings kept in 1..5, the average of a book with reviews lies in 1..5; a book with no
      reviews has count 0 and average 0. */
  lemma AverageBounds(reviews: seq<Review>, isbn: string)
    requires forall i :: 0 <= i < |reviews| ==> 1 <= reviews[i].rating <= 5
    ensures ReviewCount(reviews, isbn) == 0 ==> AverageRating(reviews, isbn) == 0.0
    ensures ReviewCount(reviews, isbn) > 0 ==> 1.0 <= AverageRating(reviews, isbn) <= 5.0
  {
    var rows := Where(reviews, ForBook(isbn));
    var n := |rows|;
    if n > 0 {
      forall i | 0 <= i < n ensures 1 <= rows[i].rating <= 5 {
        assert rows[i] in reviews;
      }
      SumBounds(rows);
      DivisionBounds(SumRatings(rows) as real, n as real);
    }
  }

  lemma DivisionBounds(s: real, n: real)
    requires n > 0.0 && n <= s <= 5.0 * n
    ensures 1.0 <= s / n <= 5.0
  {
    var q := s / n;
    assert q * n == s;
    assert (q - 1.0) * n == s - n;
    assert (5.0 - q) * n == 5.0 * n - s;
  }

  /** Two reviews of 5 and 3 stars average 4. */
  lemma AverageOfFiveAndThree(isbn: string, a: Review, b: Review)
    requires a.isbn == isbn && b.isbn == isbn && a.rating == 5 && b.rating == 3
    ensures ReviewCount([a, b], isbn) == 2 && AverageRating([a, b], isbn) == 4.0
  {
    assert [a, b][1..] == [b];
    assert Where([a, b], ForBook(isbn)) == [a, b];
    assert SumRatings([b]) == 3 by { assert [b][1..] == []; }
    assert SumRatings([a, b]) == 8;
  }

  // ----- the upsert (backend/application.py:185-202) -----

  function Refresh(r: Review, rating: int, text: string, now: int): Review {
    r.(rating := rating, text := text, createdAt := now)
  }

  /** `UPDATE reviews SET rating, review_text, created_at = NOW() WHERE user_id = :uid AND isbn = :isbn`. */
  function UpdateWhere(rows: seq<Review>, userId: int, isbn: string, rating: int, text: string, now: int): (r: seq<Review>)
    ensures |r| == |rows|
    ensures forall i :: 0 <= i < |rows| ==>
      r[i] == if SameKey(rows[i], userId, isbn) then Refresh(rows[i], rating, text, now) else rows[i]
    decreases |rows|
  {
    if rows == [] then []
    else
      var head := if SameKey(rows[0], userId, isbn) then Refresh(rows[0], rating, text, now) else rows[0];
      var tail := UpdateWhere(rows[1..], userId, isbn, rating, text, now);
      assert forall i :: 1 <= i < |rows| ==> ([head] + tail)[i] == tail[i - 1] && rows[1..][i - 1] == rows[i];
      [head] + tail
  }

  /** The table after a valid submission: the existing row of the (user, book) pair overwritten,
      or a new row appended when there was none. */
  function Upsert(rows: seq<Review>, userId: int, isbn: string, rating: int, text: string, now: int): (r: seq<Review>)
    ensures |r| == |rows| + (if HasReview(rows, userId, isbn) then 0 else 1)
    ensures forall i :: 0 <= i < |rows| && !SameKey(rows[i], userId, isbn) ==> r[i] == rows[i]
  {
    if HasReview(rows, userId, isbn) then UpdateWhere(rows, userId, isbn, rating, text, now)
    else rows + [Review(userId, isbn, rating, text, now)]
  }

  lemma {:induction false} UpdateKeepsOtherRows(rows: seq<Review>, userId: int, isbn: string, rating: int, text: string, now: int)
    ensures Where(UpdateWhere(rows, userId, isbn, rating, text, now), OtherPairs(userId, isbn)) == Where(rows, OtherPairs(userId, isbn))
    decreases |rows|
  {
    if rows != [] {
      UpdateKeepsOtherRows(rows[1..], userId, isbn, rating, text, now);
    }
  }

  /** Every row of every other (user, book) pair is exactly as before, in the same order. */
  lemma UpsertKeepsOtherRows(rows: seq<Review>, userId: int, isbn: string, rating: int, text: string, now: int)
    ensures Where(Upsert(rows, userId, isbn, rating, text, now), OtherPairs(userId, isbn)) == Where(rows, OtherPairs(userId, isbn))
  {
    if HasReview(rows, userId, isbn) {
      UpdateKeepsOtherRows(rows, userId, isbn, rating, text, now);
    } else {
      var added := Review(userId, isbn, rating, text, now);
      WhereConcat(rows, [added], OtherPairs(userId, isbn));
      assert Where([added], OtherPairs(userId, isbn)) == [];
    }
  }

  lemma {:induction false} NoPairRows(rows: seq<Review>, userId: int, isbn: string)
    requires !HasReview(rows, userId, isbn)
    ensures Where(rows, ForPair(userId, isbn)) == []
    decreases |rows|
  {
    if rows != [] {
      assert !HasReview(rows[1..], userId, isbn);
      NoPairRows(rows[1..], userId, isbn);
    }
  }

  lemma {:induction false} UpdatedPairRow(rows: seq<Review>, userId: int, isbn: string, rating: int, text: string, now: int)
    requires OneReviewPerPair(rows) && HasReview(rows, userId, isbn)
    ensures Where(UpdateWhere(rows, userId, isbn, rating, text, now), ForPair(userId, isbn)) == [Review(userId, isbn, rating, text, now)]
    decreases |rows|
  {
    var tail := rows[1..];
    var updated := UpdateWhere(rows, userId, isbn, rating, text, now);
    assert updated[1..] == UpdateWhere(tail, userId, isbn, rating, text, now);
    assert OneReviewPerPair(tail) by {
      forall i, j | 0 <= i < j < |tail| ensures !SameKey(tail[j], tail[i].userId, tail[i].isbn) {
        assert tail[i] == rows[i + 1] && tail[j] == rows[j + 1];
      }
    }
    if SameKey(rows[0], userId, isbn) {
      assert !HasReview(tail, userId, isbn) by {
        forall k | 0 <= k < |tail| ensures !SameKey(tail[k], userId, isbn) {
          assert tail[k] == rows[k + 1];
        }
      }
      assert UpdateWhere(tail, userId, isbn, rating, text, now) == tail by {
        var u := UpdateWhere(tail, userId, isbn, rating, text, now);
        assert forall k :: 0 <= k < |tail| ==> !SameKey(tail[k], userId, isbn);
        assert forall k :: 0 <= k < |tail| ==> u[k] == tail[k];
      }
      NoPairRows(tail, userId, isbn);
      assert updated[0] == Review(userId, isbn, rating, text, now);
    } else {
      assert HasReview(tail, userId, isbn) by {
        var k :| 0 <= k < |rows| && SameKey(rows[k], userId, isbn);
        assert k > 0 && tail[k - 1] == rows[k];
      }
      UpdatedPairRow(tail, userId, isbn, rating, text, now);
      assert !SameKey(updated[0], userId, isbn);
    }
  }

  /** After the upsert, when the table had at most one row per pair, the pair has exactly one
      row and it holds the submitted rating, comment and time. */
  lemma UpsertLeavesOneRow(rows: seq<Review>, userId: int, isbn: string, rating: int, text: string, now: int)
    requires OneReviewPerPair(rows)
    ensures Where(Upsert(rows, userId, isbn, rating, text, now), ForPair(userId, isbn)) == [Review(userId, isbn, rating, text, now)]
  {
    if HasReview(rows, userId, isbn) {
      UpdatedPairRow(rows, userId, isbn, rating, text, now);
    } else {
      var added := Review(userId, isbn, rating, text, now);
      NoPairRows(rows, userId, isbn);
      WhereConcat(rows, [added], ForPair(userId, isbn));
      assert Where([added], ForPair(userId, isbn)) == [added];
    }
  }

  /** The upsert keeps "at most one review per (user, book) pair". */
  lemma UpsertKeepsOnePerPair(rows: seq<Review>, userId: int, isbn: string, rating: int, text: string, now: int)
    requires OneReviewPerPair(rows)
    ensures OneReviewPerPair(Upsert(rows, userId, isbn, rating, text, now))
  {
    var r := Upsert(rows, userId, isbn, rating, text, now);
    if !HasReview(rows, userId, isbn) {
      assert forall i :: 0 <= i < |rows| ==> r[i] == rows[i];
    }
  }

  /** A valid review by an existing user of an existing book keeps the table valid. */
  lemma UpsertKeepsValid(rows: seq<Review>, users: seq<User>, books: seq<Book>,
                         userId: int, isbn: string, rating: int, text: string, now: int)
    requires ValidReviews(rows, users, books)
    requires ValidReview(Review(userId, isbn, rating, text, now), users, books)
    ensures ValidReviews(Upsert(rows, userId, isbn, rating, text, now), users, books)
  {
    UpsertKeepsOnePerPair(rows, userId, isbn, rating, text, now);
    var r := Upsert(rows, userId, isbn, rating, text, now);
    if !HasReview(rows, userId, isbn) {
      assert forall i :: 0 <= i < |rows| ==> r[i] == rows[i];
    }
  }

  lemma {:induction false} UpdateKeepsBookCount(rows: seq<Review>, userId: int, isbn: string, rating: int, text: string, now: int, book: string)
    ensures |Where(UpdateWhere(rows, userId, isbn, rating, text, now), ForBook(book))| == |Where(rows, ForBook(book))|
    decreases |rows|
  {
    if rows != [] {
      UpdateKeepsBookCount(rows[1..], userId, isbn, rating, text, now, book);
    }
  }

  /** The count of the reviewed book grows by one on a first review and stays put on a
      resubmission; every other book's count is unchanged. */
  lemma UpsertCount(rows: seq<Review>, userId: int, isbn: string, rating: int, text: string, now: int, book: string)
    ensures ReviewCount(Upsert(rows, userId, isbn, rating, text, now), book) ==
      ReviewCount(rows, book) + (if book == isbn && !HasReview(rows, userId, isbn) then 1 else 0)
  {
    if HasReview(rows, userId, isbn) {
      UpdateKeepsBookCount(rows, userId, isbn, rating, text, now, book);
    } else {
      WhereConcat(rows, [Review(userId, isbn, rating, text, now)], ForBook(book));
    }
  }

  // ----- the review listing (backend/application.py:210-216) -----

  datatype ReviewLine = ReviewLine(username: string, rating: int, text: string, createdAt: int)

  /** `FROM reviews r JOIN users u ON r.user_id = u.id`: rows without a matching user drop out. */
  function JoinUsers(rows: seq<Review>, users: seq<User>): (lines: seq<ReviewLine>)
    ensures |lines| <= |rows|
    decreases |rows|
  {
    if rows == [] then []
    else
      var rest := JoinUsers(rows[1..], users);
      match FindUserById(users, rows[0].userId)
      case None => rest
      case Some(u) => [ReviewLine(u.username, rows[0].rating, rows[0].text, rows[0].createdAt)] + rest
  }

  /** When every row's author exists (a foreign key), the join keeps every row in order: line i
      holds row i's rating, comment and time and the username of row i's author. */
  lemma {:induction false} JoinKeepsAll(rows: seq<Review>, users: seq<User>)
    requires forall i :: 0 <= i < |rows| ==> FindUserById(users, rows[i].userId).Some?
    ensures |JoinUsers(rows, users)| == |rows|
    ensures forall i :: 0 <= i < |rows| ==>
      JoinUsers(rows, users)[i] ==
        ReviewLine(FindUserById(users, rows[i].userId).value.username, rows[i].rating, rows[i].text, rows[i].createdAt)
    decreases |rows|
  {
    if rows != [] {
      var tail := rows[1..];
      assert forall i :: 1 <= i < |rows| ==> tail[i - 1] == rows[i];
      JoinKeepsAll(tail, users);
      var u := FindUserById(users, rows[0].userId).value;
      var lines := JoinUsers(rows, users);
      assert lines == [ReviewLine(u.username, rows[0].rating, rows[0].text, rows[0].createdAt)] + JoinUsers(tail, users);
      forall i | 1 <= i < |rows|
        ensures lines[i] ==
          ReviewLine(FindUserById(users, rows[i].userId).value.username, rows[i].rating, rows[i].text, rows[i].createdAt)
      {
        assert lines[i] == JoinUsers(tail, users)[i - 1];
      }
    }
  }

  /** Every line of the join comes from some review row whose author exists: it holds that row's
      rating, comment and time and the author's username. */
  lemma {:induction false} JoinLinesFromRows(rows: seq<Review>, users: seq<User>)
    ensures forall k :: 0 <= k < |JoinUsers(rows, users)| ==>
      exists i :: 0 <= i < |rows| && FindUserById(users, rows[i].userId).Some? &&
        JoinUsers(rows, users)[k] ==
          ReviewLine(FindUserById(users, rows[i].userId).value.username, rows[i].rating, rows[i].text, rows[i].createdAt)
    decreases |rows|
  {
    if rows != [] {
      var tail := rows[1..];
      JoinLinesFromRows(tail, users);
      var lines := JoinUsers(rows, users);
      var rest := JoinUsers(tail, users);
      forall k | 0 <= k < |lines|
        ensures exists i :: 0 <= i < |rows| && FindUserById(users, rows[i].userId).Some? &&
                  lines[k] ==
                    ReviewLine(FindUserById(users, rows[i].userId).value.username, rows[i].rating, rows[i].text, rows[i].createdAt)
      {
        var found := FindUserById(users, rows[0].userId);
        var off := if found.Some? then 1 else 0;
        assert lines == (if found.Some? then [ReviewLine(found.value.username, rows[0].rating, rows[0].text, rows[0].createdAt)] else []) + rest;
        if k < off {
          assert lines[k] == ReviewLine(found.value.username, rows[0].rating, rows[0].text, rows[0].createdAt);
        } else {
          assert lines[k] == rest[k - off];
          var j :| 0 <= j < |tail| && FindUserById(users, tail[j].userId).Some? &&
            rest[k - off] ==
              ReviewLine(FindUserById(users, tail[j].userId).value.username, tail[j].rating, tail[j].text, tail[j].createdAt);
          assert tail[j] == rows[j + 1];
        }
      }
      assert JoinUsers(rows, users) == lines;
    } else {
      assert JoinUsers(rows, users) == [];
    }
  }

  /** ORDER BY created_at DESC. */
  const NEWEST_FIRST: (ReviewLine, ReviewLine) -> bool := (a: ReviewLine, b: ReviewLine) => a.createdAt >= b.createdAt

  lemma NewestFirstIsTotal()
    ensures IsTotalPreorder(NEWEST_FIRST)
  {
  }

  /** The data render_book_page puts on the page besides the book's own fields. */
  datatype BookView = BookView(book: Book, reviews: seq<ReviewLine>, count: nat, average: real)

  /** render_book_page's two queries: the book's reviews with their authors newest first, and the
      count and average over the same rows. */
  function BookDetails(book: Book, reviews: seq<Review>, users: seq<User>): (v: BookView)
    ensures v.book == book
    ensures SortedBy(v.reviews, NEWEST_FIRST)
    ensures multiset(v.reviews) == multiset(JoinUsers(Where(reviews, ForBook(book.isbn)), users))
    ensures v.count == ReviewCount(reviews, book.isbn) && v.average == AverageRating(reviews, book.isbn)
  {
    NewestFirstIsTotal();
    var lines := Sort(JoinUsers(Where(reviews, ForBook(book.isbn)), users), NEWEST_FIRST);
    BookView(book, lines, ReviewCount(reviews, book.isbn), AverageRating(reviews, book.isbn))
  }

  /** On a valid store the listing shows as many reviews as the count says, and the average lies
      in 1..5 whenever there is a review. */
  lemma BookDetailsConsistent(book: Book, reviews: seq<Review>, users: seq<User>, books: seq<Book>)
    requires ValidReviews(reviews, users, books)
    ensures |BookDetails(book, reviews, users).reviews| == BookDetails(book, reviews, users).count
    ensures BookDetails(book, reviews, users).count > 0 ==> 1.0 <= BookDetails(book, reviews, users).average <= 5.0
  {
    var rows := Where(reviews, ForBook(book.isbn));
    forall i | 0 <= i < |rows| ensures FindUserById(users, rows[i].userId).Some? {
      assert rows[i] in reviews;
    }
    JoinKeepsAll(rows, users);
    var v := BookDetails(book, reviews, users);
    assert |multiset(v.reviews)| == |multiset(JoinUsers(rows, users))|;
    AverageBounds(reviews, book.isbn);
  }
}
