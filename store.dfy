/** The three tables of the application's PostgreSQL database and the client's session,
    as values, with the row lookups the handlers issue and the invariants the handlers keep. */
module Store {
  import opened Wrappers
  import opened Text
  import opened Passwords

  datatype User = User(id: int, username: string, passwordHash: PasswordHash)
  datatype Book = Book(isbn: string, title: string, author: string, year: int)
  datatype Review = Review(userId: int, isbn: string, rating: int, text: string, createdAt: int)

  /** Flask's session for one client: empty, or holding `user_id` and `username`. */
  datatype Session = Anonymous | SignedIn(userId: int, username: string)

  /** SQL's WHERE: the rows satisfying `p`, in table order. */
  function Where<T(!new)>(rows: seq<T>, p: T -> bool): (r: seq<T>)
    ensures |r| <= |rows|
    ensures forall x :: x in r <==> x in rows && p(x)
    decreases |rows|
  {
    if rows == [] then []
    else
      assert rows == [rows[0]] + rows[1..];
      (if p(rows[0]) then [rows[0]] else []) + Where(rows[1..], p)
  }

  /** WHERE keeps every satisfying row as often as it occurs and drops every other row. */
  lemma {:induction false} WhereMultiset<T(!new)>(rows: seq<T>, p: T -> bool, x: T)
    ensures multiset(Where(rows, p))[x] == if p(x) then multiset(rows)[x] else 0
    decreases |rows|
  {
    if rows != [] {
      assert rows == [rows[0]] + rows[1..];
      WhereMultiset(rows[1..], p, x);
    }
  }

  lemma {:induction false} WhereConcat<T(!new)>(a: seq<T>, b: seq<T>, p: T -> bool)
    ensures Where(a + b, p) == Where(a, p) + Where(b, p)
    decreases |a|
  {
    if a == [] {
      assert a + b == b;
    } else {
      assert (a + b)[0] == a[0] && (a + b)[1..] == a[1..] + b;
      WhereConcat(a[1..], b, p);
      var h := if p(a[0]) then [a[0]] else [];
      assert Where(a + b, p) == h + Where(a[1..] + b, p);
      assert Where(a, p) == h + Where(a[1..], p);
    }
  }

  /** `SELECT ... FROM users WHERE username = :u` with `fetchone()`. */
  function FindUserByName(users: seq<User>, name: string): (r: Option<User>)
    ensures r.Some? ==> r.value in users && r.value.username == name
    ensures r.None? ==> forall u :: u in users ==> u.username != name
    decreases |users|
  {
    if users == [] then None
    else if users[0].username == name then Some(users[0])
    else FindUserByName(users[1..], name)
  }

  /** The user row with a given id: the join partner of a review. */
  function FindUserById(users: seq<User>, id: int): (r: Option<User>)
    ensures r.Some? ==> r.value in users && r.value.id == id
    ensures r.None? ==> forall u :: u in users ==> u.id != id
    decreases |users|
  {
    if users == [] then None
    else if users[0].id == id then Some(users[0])
    else FindUserById(users[1..], id)
  }

  /** `SELECT ... FROM books WHERE isbn = :isbn` with `fetchone()`. */
  function FindBook(books: seq<Book>, isbn: string): (r: Option<Book>)
    ensures r.Some? ==> r.value in books && r.value.isbn == isbn
    ensures r.None? ==> forall b :: b in books ==> b.isbn != isbn
    decreases |books|
  {
    if books == [] then None
    else if books[0].isbn == isbn then Some(books[0])
    else FindBook(books[1..], isbn)
  }

  predicate SameKey(r: Review, userId: int, isbn: string) {
    r.userId == userId && r.isbn == isbn
  }

  /** `SELECT id FROM reviews WHERE user_id = :uid AND isbn = :isbn` finds a row. */
  function HasReview(reviews: seq<Review>, userId: int, isbn: string): (found: bool)
    ensures found <==> exists k :: 0 <= k < |reviews| && SameKey(reviews[k], userId, isbn)
    decreases |reviews|
  {
    if reviews == [] then false
    else
      assert forall k :: 1 <= k < |reviews| ==> reviews[k] == reviews[1..][k - 1];
      SameKey(reviews[0], userId, isbn) || HasReview(reviews[1..], userId, isbn)
  }

  /** Appending a user leaves every existing id lookup as it was. */
  lemma {:induction false} FindUserByIdAppend(users: seq<User>, u: User, id: int)
    ensures FindUserById(users + [u], id) ==
      if FindUserById(users, id).Some? then FindUserById(users, id)
      else if u.id == id then Some(u) else None
    decreases |users|
  {
    if users == [] {
      assert users + [u] == [u];
    } else {
      assert (users + [u])[1..] == users[1..] + [u];
      FindUserByIdAppend(users[1..], u, id);
    }
  }

  // ----- invariants the handlers maintain -----

  ghost predicate UniqueIsbns(books: seq<Book>) {
    forall i, j :: 0 <= i < j < |books| ==> books[i].isbn != books[j].isbn
  }

  /** Ids are drawn from a counter starting at 1 (a SERIAL column) and never repeat; usernames
      are stripped, non-empty and unique. */
  ghost predicate ValidUsers(users: seq<User>, nextId: int) {
    (forall i :: 0 <= i < |users| ==>
      1 <= users[i].id < nextId && users[i].username != [] && NoOuterSpace(users[i].username)) &&
    (forall i, j :: 0 <= i < j < |users| ==>
      users[i].id != users[j].id && users[i].username != users[j].username)
  }

  /** At most one review per (user, book) pair. */
  ghost predicate OneReviewPerPair(reviews: seq<Review>) {
    forall i, j :: 0 <= i < j < |reviews| ==> !SameKey(reviews[j], reviews[i].userId, reviews[i].isbn)
  }

  /** A stored review: rating 1..5, stripped non-empty comment, an existing author and book. */
  ghost predicate ValidReview(r: Review, users: seq<User>, books: seq<Book>) {
    1 <= r.rating <= 5 && r.text != [] && NoOuterSpace(r.text) &&
    FindUserById(users, r.userId).Some? && FindBook(books, r.isbn).Some?
  }

  ghost predicate ValidReviews(reviews: seq<Review>, users: seq<User>, books: seq<Book>) {
    OneReviewPerPair(reviews) && forall i :: 0 <= i < |reviews| ==> ValidReview(reviews[i], users, books)
  }

  /** A signed-in session names an existing user by that user's id and username. */
  ghost predicate ValidSession(s: Session, users: seq<User>) {
    s.SignedIn? ==> FindUserById(users, s.userId).Some? && FindUserById(users, s.userId).value.username == s.username
  }

  /** In a valid users table a row is found again by its own id. */
  lemma FindOwnId(users: seq<User>, nextId: int, u: User)
    requires ValidUsers(users, nextId) && u in users
    ensures FindUserById(users, u.id) == Some(u)
  {
    var k :| 0 <= k < |users| && users[k] == u;
    UniqueIdFound(users, k);
  }

  lemma {:induction false} UniqueIdFound(users: seq<User>, k: int)
    requires 0 <= k < |users|
    requires forall j :: 0 <= j < |users| && users[j].id == users[k].id ==> j == k
    ensures FindUserById(users, users[k].id) == Some(users[k])
    decreases k
  {
    if k > 0 {
      assert users[1..][k - 1] == users[k];
      UniqueIdFound(users[1..], k - 1);
    }
  }

  /** Inserting a user under the next id with a stripped, non-empty, untaken name keeps the users
      table valid, and the id lookup then finds the new user. */
  lemma AddUserKeepsValidUsers(users: seq<User>, nextId: int, u: User)
    requires ValidUsers(users, nextId) && nextId >= 1 && u.id == nextId
    requires u.username != [] && NoOuterSpace(u.username) && FindUserByName(users, u.username).None?
    ensures ValidUsers(users + [u], nextId + 1)
    ensures FindUserById(users, u.id).None? && FindUserById(users + [u], u.id) == Some(u)
  {
    var all := users + [u];
    assert forall i :: 0 <= i < |users| ==> all[i] == users[i] && users[i] in users;
    assert all[|users|] == u;
    forall i, j | 0 <= i < j < |all|
      ensures all[i].id != all[j].id && all[i].username != all[j].username
    {
      if j == |users| {
        assert all[i] in users;
      }
    }
    FindUserByIdAppend(users, u, u.id);
  }

  /** Adding a user with a fresh id keeps every review and session valid. */
  lemma AddUserKeepsValid(users: seq<User>, u: User, books: seq<Book>, reviews: seq<Review>, s: Session)
    requires FindUserById(users, u.id).None?
    requires ValidReviews(reviews, users, books) && ValidSession(s, users)
    ensures ValidReviews(reviews, users + [u], books) && ValidSession(s, users + [u])
  {
    forall id ensures FindUserById(users + [u], id) ==
      if FindUserById(users, id).Some? then FindUserById(users, id) else if u.id == id then Some(u) else None
    {
      FindUserByIdAppend(users, u, id);
    }
  }

  // ----- the session gate -----

  /** require_login (backend/application.py:40-43): the id a protected handler proceeds with,
      or None when `session.get("user_id")` is missing or falsy and the handler must redirect. */
  function RequireLogin(s: Session): (r: Option<int>)
    ensures r.Some? <==> s.SignedIn? && s.userId != 0
    ensures r.Some? ==> r.value == s.userId
  {
    if s.SignedIn? && s.userId != 0 then Some(s.userId) else None
  }

  /** With the invariants in force, the gate lets through exactly the signed-in sessions, and the
      id it passes on belongs to an existing user. */
  lemma GateAdmitsKnownUsers(s: Session, users: seq<User>, nextId: int)
    requires ValidUsers(users, nextId) && ValidSession(s, users)
    ensures RequireLogin(s).Some? <==> s.SignedIn?
    ensures RequireLogin(s).Some? ==> FindUserById(users, RequireLogin(s).value).Some?
  {
    if s.SignedIn? {
      var u := FindUserById(users, s.userId).value;
      var k :| 0 <= k < |users| && users[k] == u;
    }
  }
}
