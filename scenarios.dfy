/** Request sequences against a fresh application, each proved from the handlers' contracts alone. */
module Scenarios {
  import opened Wrappers
  import opened Text
  import opened Passwords
  import opened Validation
  import opened Store
  import opened Reviews
  import opened Application

  /** Registering one username twice: the first succeeds, the second is refused and the stored
      account keeps the first password's hash. */
  method RegisterTwice(hash: Hasher, books: seq<Book>, name: string, pw1: string, pw2: string, salt1: nat, salt2: nat)
    returns (first: RegisterResult, second: RegisterResult, stored: seq<User>)
    requires UniqueIsbns(books) && !AllSpace(name) && pw1 != [] && pw2 != []
    ensures first.Registered? && second == UsernameTaken
    ensures stored == [User(first.userId, Trim(name), Generate(hash, salt1, pw1))]
  {
    TrimEmptyIff(name);
    var app := new App(hash, books);
    first := app.Register(Post, Some(name), Some(pw1), salt1);
    second := app.Register(Post, Some(name), Some(pw2), salt2);
    stored := app.users;
  }

  /** A fresh application after one successful registration. */
  method RegisteredApp(hash: Hasher, books: seq<Book>, name: string, pw: string, salt: nat)
    returns (app: App, user: User)
    requires UniqueIsbns(books) && !AllSpace(name) && pw != []
    ensures fresh(app) && app.Valid() && app.hash == hash && app.books == books
    ensures user == User(1, Trim(name), Generate(hash, salt, pw))
    ensures app.users == [user] && app.reviews == [] && app.session == SignedIn(1, Trim(name))
  {
    TrimEmptyIff(name);
    app := new App(hash, books);
    assert Some(name).GetOr("") == name && Some(pw).GetOr("") == pw;
    var registered := app.Register(Post, Some(name), Some(pw), salt);
    assert registered.Registered? && registered.userId == 1;
    user := User(1, Trim(name), Generate(hash, salt, pw));
  }

  /** A wrong password for a registered name is refused and leaves the session as it was. */
  method WrongPasswordRefused(hash: Hasher, books: seq<Book>, name: string, pw: string, wrong: string, salt: nat)
    returns (r: LoginResult)
    requires UniqueIsbns(books) && !AllSpace(name) && pw != []
    requires hash(salt, wrong) != hash(salt, pw)
    ensures r == InvalidCredentials
  {
    var app, user := RegisteredApp(hash, books, name, pw, salt);
    assert FindUserByName(app.users, Trim(name)) == Some(user);
    assert !Check(hash, user.passwordHash, wrong);
    assert Some(name).GetOr("") == name && Some(wrong).GetOr("") == wrong;
    r := app.Login(Post, Some(name), Some(wrong));
  }

  /** A name nobody registered gets the same answer as a wrong password, even with a password
      that some account does use. */
  method UnknownUserRefused(hash: Hasher, books: seq<Book>, name: string, pw: string, stranger: string, salt: nat)
    returns (r: LoginResult)
    requires UniqueIsbns(books) && !AllSpace(name) && pw != []
    requires Trim(stranger) != Trim(name)
    ensures r == InvalidCredentials
  {
    var app, user := RegisteredApp(hash, books, name, pw, salt);
    assert FindUserByName(app.users, Trim(stranger)).None?;
    assert Some(stranger).GetOr("") == stranger;
    r := app.Login(Post, Some(stranger), Some(pw));
  }

  /** A signed-in user submits a typed rating in 1..5 and a non-blank comment for a known book. */
  method PostReview(app: App, isbn: string, rating: int, text: string, now: int)
    requires app.Valid() && RequireLogin(app.session).Some? && FindBook(app.books, isbn).Some?
    requires 1 <= rating <= 5 && !AllSpace(text)
    modifies app`reviews
    ensures app.Valid()
    ensures app.reviews == Upsert(old(app.reviews), RequireLogin(app.session).value, isbn, rating, Trim(text), now)
  {
    AcceptedNumeral(rating, Some(text));
    AcceptedIff(Some(ShowInt(rating)), Some(text));
    assert Some(text).GetOr("") == text;
    var saved := app.BookPage(Post, isbn, Some(ShowInt(rating)), Some(text), now);
  }

  /** Two submissions by one user for one book leave one row, holding the second submission. */
  method ReviewTwice(hash: Hasher, book: Book, name: string, pw: string, salt: nat,
                     rating1: int, text1: string, now1: int, rating2: int, text2: string, now2: int)
    returns (rows: seq<Review>)
    requires !AllSpace(name) && pw != []
    requires 1 <= rating1 <= 5 && 1 <= rating2 <= 5 && !AllSpace(text1) && !AllSpace(text2)
    ensures rows == [Review(1, book.isbn, rating2, Trim(text2), now2)]
  {
    var app, user := RegisteredApp(hash, [book], name, pw, salt);
    assert RequireLogin(app.session) == Some(1);
    assert FindBook([book], book.isbn) == Some(book);
    PostReview(app, book.isbn, rating1, text1, now1);
    FirstReview(1, book.isbn, rating1, Trim(text1), now1);
    PostReview(app, book.isbn, rating2, text2, now2);
    SecondReview(Review(1, book.isbn, rating1, Trim(text1), now1), rating2, Trim(text2), now2);
    rows := app.reviews;
  }

  lemma FirstReview(userId: int, isbn: string, rating: int, text: string, now: int)
    ensures Upsert([], userId, isbn, rating, text, now) == [Review(userId, isbn, rating, text, now)]
  {
    assert !HasReview([], userId, isbn);
  }

  lemma SecondReview(first: Review, rating: int, text: string, now: int)
    ensures Upsert([first], first.userId, first.isbn, rating, text, now) ==
      [Review(first.userId, first.isbn, rating, text, now)]
  {
    assert HasReview([first], first.userId, first.isbn) by {
      assert SameKey([first][0], first.userId, first.isbn);
    }
    assert UpdateWhere([first], first.userId, first.isbn, rating, text, now)[0] == Refresh(first, rating, text, now);
  }

  /** Without a session the book page redirects to the login page and writes nothing. */
  method AnonymousBookPost(hash: Hasher, books: seq<Book>, isbn: string, rating: Option<string>, text: Option<string>, now: int)
    returns (r: Gated<BookResult>, rows: seq<Review>)
    requires UniqueIsbns(books)
    ensures r == RedirectToLogin && rows == []
  {
    var app := new App(hash, books);
    r := app.BookPage(Post, isbn, rating, text, now);
    rows := app.reviews;
  }
}
