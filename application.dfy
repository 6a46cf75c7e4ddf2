/** The request handlers of backend/application.py as methods of one object that holds the
    database tables and one client's session. */
module Application {
  import opened Wrappers
  import opened Text
  import opened Passwords
  import opened Validation
  import opened Store
  import opened Search
  import opened Reviews

  datatype HttpMethod = Get | Post

  /** A protected handler either redirects to the login page or produces its own answer. */
  datatype Gated<T> = RedirectToLogin | Handled(response: T)

  datatype RegisterResult = RegisterForm | MissingFields | UsernameTaken | Registered(userId: int)
  datatype LoginResult = LoginForm | InvalidCredentials | LoggedIn(userId: int)
  datatype IndexResult = SearchForm | Searched(result: SearchResult)
  datatype BookResult = BookNotFound | ShowBook(view: BookView, message: Option<string>) | ReviewSaved(isbn: string)

  /** The one message shown for every rejected review submission. */
  const INVALID_REVIEW_MESSAGE: string := "Please enter 1–5 stars and a comment."

  class App {
    /** The password hash function (werkzeug's), left abstract. */
    const hash: Hasher
    /** The books table, read-only here. */
    const books: seq<Book>
    var users: seq<User>
    var reviews: seq<Review>
    var session: Session
    /** The next value of the users.id sequence. */
    var nextUserId: int

    ghost predicate Valid()
      reads this
    {
      UniqueIsbns(books) && nextUserId >= 1 && ValidUsers(users, nextUserId) &&
      ValidReviews(reviews, users, books) && ValidSession(session, users)
    }

    constructor (hash: Hasher, books: seq<Book>)
      requires UniqueIsbns(books)
      ensures Valid() && this.hash == hash && this.books == books
      ensures users == [] && reviews == [] && session == Anonymous && nextUserId == 1
    {
      this.hash := hash;
      this.books := books;
      users := [];
      reviews := [];
      session := Anonymous;
      nextUserId := 1;
    }

    /** register (backend/application.py:83-111). The POST path strips the username, rejects a
        blank username or an empty password, rejects a taken username, and otherwise inserts the
        user with a fresh id and signs the session in as that user. */
    method Register(m: HttpMethod, username: Option<string>, password: Option<string>, salt: nat)
      returns (r: RegisterResult)
      requires Valid()
      modifies this`users, this`session, this`nextUserId
      ensures Valid()
      ensures m == Get ==> r == RegisterForm
      ensures m == Post ==> r != RegisterForm
      ensures m == Post ==>
        (r == MissingFields <==> Trim(username.GetOr("")) == [] || password.GetOr("") == [])
      ensures m == Post ==>
        (r == UsernameTaken <==> Trim(username.GetOr("")) != [] && password.GetOr("") != [] &&
                                 FindUserByName(old(users), Trim(username.GetOr(""))).Some?)
      ensures !r.Registered? ==>
        users == old(users) && session == old(session) && nextUserId == old(nextUserId)
      ensures r.Registered? ==>
        r.userId == old(nextUserId) && (forall u :: u in old(users) ==> u.id != r.userId) &&
        users == old(users) + [User(r.userId, Trim(username.GetOr("")), Generate(hash, salt, password.GetOr("")))] &&
        session == SignedIn(r.userId, Trim(username.GetOr(""))) && nextUserId == old(nextUserId) + 1
    {
      if m == Get {
        return RegisterForm;
      }
      var name := Trim(username.GetOr(""));
      var pw := password.GetOr("");
      if name == [] || pw == [] {
        return MissingFields;
      }
      var existing := FindUserByName(users, name);
      if existing.Some? {
        return UsernameTaken;
      }
      var id := InsertUser(name, Generate(hash, salt, pw));
      session := SignedIn(id, name);
      r := Registered(id);
    }

    /** `INSERT INTO users (username, password_hash) ... RETURNING id`, then commit. */
    method InsertUser(name: string, stored: PasswordHash) returns (id: int)
      requires Valid()
      requires name != [] && NoOuterSpace(name) && FindUserByName(users, name).None?
      modifies this`users, this`nextUserId
      ensures Valid() && ValidSession(SignedIn(id, name), users)
      ensures id == old(nextUserId) && (forall u :: u in old(users) ==> u.id != id)
      ensures users == old(users) + [User(id, name, stored)] && nextUserId == old(nextUserId) + 1
    {
      id := nextUserId;
      var user := User(id, name, stored);
      AddUserKeepsValidUsers(users, nextUserId, user);
      AddUserKeepsValid(users, user, books, reviews, session);
      users := users + [user];
      nextUserId := nextUserId + 1;
    }

    /** login (backend/application.py:122-143). A GET clears the session. A POST looks the stripped
        username up and checks the password against the stored hash; an unknown user and a wrong
        password give the same answer and leave the session alone. */
    method Login(m: HttpMethod, username: Option<string>, password: Option<string>)
      returns (r: LoginResult)
      requires Valid()
      modifies this`session
      ensures Valid()
      ensures m == Get ==> r == LoginForm && session == Anonymous
      ensures m == Post ==>
        var found := FindUserByName(users, Trim(username.GetOr("")));
        (r == InvalidCredentials <==> found.None? || !Check(hash, found.value.passwordHash, password.GetOr(""))) &&
        (r == InvalidCredentials ==> session == old(session)) &&
        (r != InvalidCredentials ==>
          r == LoggedIn(found.value.id) && session == SignedIn(found.value.id, found.value.username))
    {
      if m == Get {
        ClearSession();
        return LoginForm;
      }
      r := CheckCredentials(Trim(username.GetOr("")), password.GetOr(""));
    }

    /** The POST path of login: the credentials are checked against the users table. */
    method CheckCredentials(name: string, password: string) returns (r: LoginResult)
      requires Valid()
      modifies this`session
      ensures Valid()
      ensures var found := FindUserByName(users, name);
        (r == InvalidCredentials <==> found.None? || !Check(hash, found.value.passwordHash, password)) &&
        (r == InvalidCredentials ==> session == old(session)) &&
        (r != InvalidCredentials ==>
          r == LoggedIn(found.value.id) && session == SignedIn(found.value.id, found.value.username))
    {
      var user := FindUserByName(users, name);
      if user.None? || !Check(hash, user.value.passwordHash, password) {
        return InvalidCredentials;
      }
      SignIn(user.value);
      r := LoggedIn(user.value.id);
    }

    /** `session["user_id"] = user.id; session["username"] = user.username`. */
    method SignIn(u: User)
      requires Valid() && u in users
      modifies this`session
      ensures Valid() && session == SignedIn(u.id, u.username)
    {
      FindOwnId(users, nextUserId, u);
      session := SignedIn(u.id, u.username);
    }

    /** logout (backend/application.py:154-157): the session is empty afterwards whatever it held,
        so logging out twice is the same as logging out once. */
    method Logout()
      requires Valid()
      modifies this`session
      ensures Valid()
      ensures session == Anonymous
    {
      ClearSession();
    }

    /** `session.clear()`, shared by login's GET path and logout. */
    method ClearSession()
      requires Valid()
      modifies this`session
      ensures Valid() && session == Anonymous
    {
      session := Anonymous;
    }

    /** index (backend/application.py:45-73): behind the login gate, a GET shows the search form
        and a POST runs the search, which reads only the books table. */
    method Index(m: HttpMethod, q: Option<string>) returns (r: Gated<IndexResult>)
      requires Valid()
      ensures RequireLogin(session).None? ==> r == RedirectToLogin
      ensures RequireLogin(session).Some? && m == Get ==> r == Handled(SearchForm)
      ensures RequireLogin(session).Some? && m == Post ==> r == Handled(Searched(SearchFor(books, q)))
    {
      var gate := RequireLogin(session);
      if gate.None? {
        return RedirectToLogin;
      }
      if m == Post {
        r := Handled(Searched(SearchFor(books, q)));
      } else {
        r := Handled(SearchForm);
      }
    }

    /** book_page (backend/application.py:159-205): behind the login gate, an unknown isbn gives the
        not-found page; a GET shows the book; a POST with a rejected rating or comment shows the book
        with the one error message and writes nothing; an accepted POST selects the user's row for
        the book, updates it if present or inserts one if not, and redirects. */
    method BookPage(m: HttpMethod, isbn: string, ratingRaw: Option<string>, textRaw: Option<string>, now: int)
      returns (r: Gated<BookResult>)
      requires Valid()
      modifies this`reviews
      ensures Valid()
      ensures RequireLogin(session).None? ==> r == RedirectToLogin && reviews == old(reviews)
      ensures RequireLogin(session).Some? && FindBook(books, isbn).None? ==>
        r == Handled(BookNotFound) && reviews == old(reviews)
      ensures RequireLogin(session).Some? && FindBook(books, isbn).Some? && m == Get ==>
        r == Handled(ShowBook(BookDetails(FindBook(books, isbn).value, reviews, users), None)) &&
        reviews == old(reviews)
      ensures RequireLogin(session).Some? && FindBook(books, isbn).Some? && m == Post &&
              ValidateReview(ratingRaw, textRaw).Rejected? ==>
        r == Handled(ShowBook(BookDetails(FindBook(books, isbn).value, reviews, users), Some(INVALID_REVIEW_MESSAGE))) &&
        reviews == old(reviews)
      ensures RequireLogin(session).Some? && FindBook(books, isbn).Some? && m == Post &&
              ValidateReview(ratingRaw, textRaw).Accepted? ==>
        var v := ValidateReview(ratingRaw, textRaw);
        r == Handled(ReviewSaved(isbn)) &&
        reviews == Upsert(old(reviews), RequireLogin(session).value, isbn, v.rating, v.text, now)
    {
      var gate := RequireLogin(session);
      if gate.None? {
        return RedirectToLogin;
      }
      var userId := gate.value;
      var book := FindBook(books, isbn);
      if book.None? {
        return Handled(BookNotFound);
      }
      if m == Get {
        return Handled(ShowBook(BookDetails(book.value, reviews, users), None));
      }
      var input := ValidateReview(ratingRaw, textRaw);
      if input.Rejected? {
        return Handled(ShowBook(BookDetails(book.value, reviews, users), Some(INVALID_REVIEW_MESSAGE)));
      }
      GateAdmitsKnownUsers(session, users, nextUserId);
      SaveReview(userId, isbn, input.rating, input.text, now);
      r := Handled(ReviewSaved(isbn));
    }

    /** The write of backend/application.py:185-202: select the user's row for the book, then
        UPDATE it or INSERT a new one, then commit. */
    method SaveReview(userId: int, isbn: string, rating: int, text: string, now: int)
      requires Valid() && ValidReview(Review(userId, isbn, rating, text, now), users, books)
      modifies this`reviews
      ensures Valid()
      ensures reviews == Upsert(old(reviews), userId, isbn, rating, text, now)
    {
      UpsertKeepsValid(reviews, users, books, userId, isbn, rating, text, now);
      var existing := HasReview(reviews, userId, isbn);
      if existing {
        reviews := UpdateWhere(reviews, userId, isbn, rating, text, now);
      } else {
        reviews := reviews + [Review(userId, isbn, rating, text, now)];
      }
    }
  }
}
