# Book review site: a verified model of its request handlers

The application is a small Flask site over one PostgreSQL database. Readers register and log in,
search a fixed catalogue of books by isbn, title or author, and leave one star rating and comment
per book. They can change that review later. A book page shows the book, its reviews with their
authors newest first, the review count and the average star rating.

This project models the domain logic of `backend/application.py` in Dafny, with the SQL store
replaced by in-memory tables:

- `Text`: Python's `str.strip()` with CPython's whitespace set, `str.replace`, ASCII case folding,
  substring search and the code-point order used for `ORDER BY title`.
- `Html`: `escape_html` and the star string of a review.
- `Sorting`: `ORDER BY ... LIMIT` as a stable insertion sort over a total preorder.
- `Passwords`: werkzeug's salted hash as an abstract function of salt and password.
- `Validation`: Python's `int()` on the rating field, with every failure becoming 0, and the
  review-form check.
- `Store`: the `users`, `books` and `reviews` tables and the session, as values, with the row
  lookups, the invariants the handlers keep and the `require_login` gate.
- `Search`: the index handler's query.
- `Reviews`:
  - the check-then-insert-or-update upsert of a review;
  - the review listing;
  - the count and average of a book's reviews.
- `Application`: class `App`, which holds the tables and one client's session. The handlers
  `register`, `login`, `logout`, `index` and `book_page` are its methods, and each method states
  its answer and the new state.
- `Scenarios`: short request sequences proved from the handlers' contracts alone. Examples are
  registering a name twice, the two kinds of failed login, and resubmitting a review.

Every method of `App` requires `Valid()`, and every method that changes state ensures it again
(`Index` changes nothing). That invariant says:

- isbns are unique;
- user ids come from a counter and are unique;
- usernames are unique, non-empty and stripped;
- there is at most one review per (user, book) pair;
- every review has a rating in 1..5 and a non-empty stripped comment;
- every review refers to an existing user and an existing book;
- a signed-in session names an existing user.

`register` trims only the username. The password is taken as typed
(`backend/application.py:86-87`).

## Model

| member | source | states |
|---|---|---|
| Text.IsSpace | backend/application.py:86 | The whitespace set of `str.strip()` (also used at lines 52, 128 and 175): CPython's `str.isspace()` characters. No sign, digit or underscore is whitespace, so stripping never removes part of a numeral. TrimStrips states what strip removes with it. |
| Text.Trim | backend/application.py:86 | `str.strip()`: the result is no longer than the input and has no whitespace at either end. |
| Text.TrimStrips | backend/application.py:86 | The result of Trim is exactly the input with its leading and trailing whitespace removed: it occurs at some offset, and everything before and after it is whitespace. |
| Text.TrimStartFacts | backend/application.py:86 | TrimStart drops exactly the leading whitespace and keeps a suffix that does not start with whitespace. |
| Text.TrimEndFacts | backend/application.py:86 | TrimEnd drops exactly the trailing whitespace and keeps a prefix that does not end with whitespace. |
| Text.TrimOfTrimmed | backend/application.py:175 | A string with no outer whitespace is left unchanged by strip. |
| Text.TrimIdempotent | backend/application.py:175 | Stripping twice gives the same string as stripping once. |
| Text.TrimEmptyIff | backend/application.py:52-53 | A string strips to `""` exactly when all of it is whitespace, in both directions. |
| Text.Lower | backend/application.py:59 | The ASCII case folding of ILIKE keeps the length and folds each character on its own. |
| Text.Contains | backend/application.py:56-59 | The substring test behind `ILIKE '%q%'`. An empty needle is always found, and a found needle is no longer than the haystack. ContainsIff ties it to the positional definition. |
| Text.ContainsIff | backend/application.py:56-59 | The substring test behind `ILIKE '%q%'` holds exactly when the needle occurs at some offset of the haystack, in both directions. |
| Text.ReplaceAll | backend/application.py:268 | `str.replace(pat, rep)`: each non-overlapping occurrence, scanned left to right, is replaced. ReplaceAllSkips, ReplaceAllLength and the escaping lemmas of `Html` state its properties. |
| Text.ReplaceAllLength | backend/application.py:268 | A replacement at least as long as the pattern never shortens the string, and one no longer than the pattern never lengthens it. |
| Text.ReplaceAllSkips | backend/application.py:268 | `str.replace` passes a prefix without the pattern's first character through unchanged. |
| Text.StrLe | backend/application.py:60 | The code-point order of `ORDER BY title`. A prefix sorts no later than the string it starts, so every title is ordered before or equal to itself. StrLeTotal, StrLeTransitive and StrLeAntisymmetric make it a total order. |
| Text.StrLeTotal | backend/application.py:60 | The title order relates any two strings one way or the other. |
| Text.StrLeTransitive | backend/application.py:60 | The title order is transitive. |
| Text.StrLeAntisymmetric | backend/application.py:60 | Two strings ordered both ways are equal. |
| Html.EscapeHtml | backend/application.py:267-268 | `(s or "")` with `&`, `<` and `>` replaced, in that order, is the string with each of the three characters written as its entity and every other character kept. Its result contains no `<` and no `>`. |
| Html.ForwardStep | backend/application.py:268 | A replace step that writes a character as its entity extends the set of encoded characters by that character, provided the entities already written do not contain it, which is why `&` goes first. |
| Html.BackwardStep | backend/application.py:268 | Replacing one entity by its character removes that character from the encoded set, when `&` is decoded last. |
| Html.EntityShape | backend/application.py:268 | Each entity starts with `&`, has no other `&`, and its second letter tells which character it encodes. |
| Html.OtherEntityKept | backend/application.py:268 | Replacing one entity leaves other entities intact. |
| Html.EscapeSteps | backend/application.py:268 | The three chained replaces encode exactly the set `{&, <, >}`. |
| Html.EncodedHasNoAngle | backend/application.py:268 | An encoded string contains no `<` and no `>`. |
| Html.EscapeRoundTrip | backend/application.py:267-268 | Replacing `&lt;`, then `&gt;`, then `&amp;` in the output of escape_html gives back its input. |
| Html.EscapeEmpty | backend/application.py:268 | `None` and `""` both escape to `""`. |
| Html.EscapePlain | backend/application.py:268 | Text without `&`, `<` or `>` passes through unchanged. |
| Html.PlainUnchanged | backend/application.py:268 | Encoding leaves a string without special characters as it is. |
| Html.EscapeConcat | backend/application.py:268 | Escaping distributes over concatenation, so every character is treated on its own. |
| Html.Repeat | backend/application.py:229 | Python's `c * n` has `max(n, 0)` characters, all equal to `c`. |
| Html.Stars | backend/application.py:229 | `"★" * r + "☆" * (5 - r)` under Python's repetition rules. StarsShape, StarsLength and StarsCount state its shape, length and star counts. |
| Html.StarsShape | backend/application.py:229 | For a rating r in 0..5 the star string has five characters: r full stars, then 5 - r empty ones. |
| Html.StarsLength | backend/application.py:229 | The star string's length for every integer, including the lengths Python's repetition gives outside 0..5. |
| Html.CountConcat | backend/application.py:229 | The count of a character in a concatenation is the sum of the two counts. |
| Html.CountRepeat | backend/application.py:229 | `c * n` contains n copies of c and none of any other character. |
| Html.StarsCount | backend/application.py:229 | The number of full stars is the rating, and the number of empty stars is 5 - r for r in 0..5. |
| Sorting.Insert | backend/application.py:60 | Inserting into a sorted sequence keeps it sorted and adds exactly one copy of the element. |
| Sorting.HeadBelowAll | backend/application.py:60 | An element below every element of a sorted sequence can be put in front of it. |
| Sorting.Sort | backend/application.py:60 | The result is sorted and a permutation of the input. |
| Sorting.OrderByLimit | backend/application.py:60 | `ORDER BY ... LIMIT k` returns min(n, k) rows, sorted, as a sub-multiset of the input: no row comes back more often than it occurs there. When at most k rows exist it returns all of them. Every row left out is no smaller than every row kept. |
| Sorting.SameElements | backend/application.py:60 | Sequences with the same multiset have the same elements. |
| Sorting.PrefixIsSmallest | backend/application.py:60 | A prefix of a sorted sequence is sorted and holds elements no larger than anything after it. |
| Passwords.Check | backend/application.py:136 | `check_password_hash`: the password, hashed under the stored salt, must give the stored digest. CheckIffGenerated characterises it. |
| Passwords.CheckIffGenerated | backend/application.py:136 | A stored hash verifies a password exactly when generating a hash of that password under the stored salt gives that stored hash, in both directions. |
| Passwords.Generate | backend/application.py:100 | A freshly generated hash verifies against the password it was made from, and it keeps the salt. |
| Store.Where | backend/application.py:213 | SQL's WHERE returns at most as many rows as the table, and exactly the rows satisfying the condition. |
| Store.WhereMultiset | backend/application.py:219-220 | WHERE keeps each satisfying row as many times as it occurs and drops every other row. |
| Store.WhereConcat | backend/application.py:213 | WHERE over two tables appended is the two results appended. |
| Store.FindUserByName | backend/application.py:92-95 | `SELECT ... WHERE username = :u` with `fetchone()` finds a row with that username, or returns None when no row has it. |
| Store.FindUserById | backend/application.py:212 | The join partner found by id has that id, or no row has it. |
| Store.FindBook | backend/application.py:165-168 | The book found has the requested isbn, or no book has it. |
| Store.HasReview | backend/application.py:185-188 | The existence check is true exactly when some row has this user and isbn. |
| Store.FindUserByIdAppend | backend/application.py:101-104 | Looking up an id in the users table after an insert finds the old row, else the new row when the id is the new one's. |
| Store.FindOwnId | backend/application.py:139-140 | In a valid users table every row is found again by its own id. |
| Store.UniqueIdFound | backend/application.py:139-140 | When an id occurs only once, looking it up finds that row. |
| Store.AddUserKeepsValidUsers | backend/application.py:97-104 | Inserting a stripped, non-empty, untaken username under the next id keeps ids and usernames unique. The new row is then found by its id and was absent before. |
| Store.AddUserKeepsValid | backend/application.py:101-105 | Adding a user under a new id keeps every review and session valid. |
| Store.RequireLogin | backend/application.py:40-43 | The gate lets a request through exactly when the session holds a truthy `user_id`, and it passes that id on. |
| Store.GateAdmitsKnownUsers | backend/application.py:40-43 | Under the invariants the gate admits exactly the signed-in sessions, and the id it passes on belongs to an existing user. |
| Search.TitleOrderIsTotal | backend/application.py:60 | `ORDER BY title` is a total preorder. |
| Search.Matches | backend/application.py:56-59 | The WHERE clause: the folded query occurs in the folded isbn, title or author. An empty query matches every book, as `ILIKE '%%'` does. |
| Search.SearchBooks | backend/application.py:56-62 | At most 50 books come back, and exactly 50 when more match. They are ordered by title, no book comes back more often than it matches, and each one is in the table and matches the query in isbn, title or author. When at most 50 match, every match comes back. A match left out never sorts before a book that was kept. |
| Search.SearchFor | backend/application.py:52-65 | A blank query gives the prompt, and only a blank query does. An empty match set gives the distinct "no matches" answer, and no book then matches. Otherwise the non-empty result list of the stripped query comes back. |
| Search.LimitKeepsFirstTitles | backend/application.py:60 | A corollary of SearchBooks' last ensures for one book: a matching book cut off by the limit has a title no smaller than any title kept. |
| Search.TitleHitIsFound | backend/application.py:56-65 | A stripped, non-empty query that occurs in some title gets a result list. |
| Validation.ParseInt | backend/application.py:178 | Python's `int()` on a string: outer whitespace ignored, one optional sign, a digit part with single underscores between digits and at most 4300 digits; U+001C..U+001F anywhere fail. ParseShowInt, ParseDigits, ParseNegative and SeparatorPaddingRejected state its results. |
| Validation.RatingOf | backend/application.py:177-180 | `int(rating_raw)` with the TypeError of a missing field and every ValueError becoming 0. AcceptedIff and UnparsableLikeOutOfRange state how the rating decides acceptance. |
| Validation.ValidateReview | backend/application.py:174-183 | An accepted submission has a rating in 1..5 and a non-empty comment with no outer whitespace. |
| Validation.AcceptedIff | backend/application.py:174-183 | A submission is accepted exactly when the rating field is present, `int()` parses it to a value in 1..5 and the comment is not all whitespace. It then carries that value and the stripped comment. |
| Validation.UnparsableLikeOutOfRange | backend/application.py:177-183 | A missing or unparsable rating is rejected, exactly like `"0"` and `"6"`. |
| Validation.ShowNatDigits | backend/application.py:178 | The decimal numeral of a natural number is a string of digits only, whose value is that number and whose digit count is its length. |
| Validation.ParseShowInt | backend/application.py:178 | `int()` reads back the numeral of every integer with at most 4300 digits, and rejects the numeral of every longer one. |
| Validation.ParseDigits | backend/application.py:178 | `int()` of a digit string is its value when it has at most 4300 digits, and fails otherwise. |
| Validation.ParseNegative | backend/application.py:178 | `int()` of `-` followed by a digit string is the negated value when the string has at most 4300 digits, and fails otherwise. |
| Validation.SeparatorPaddingRejected | backend/application.py:177-183 | A rating padded with U+001C, which `str.strip()` would remove but `int()` refuses, becomes 0 and the submission is rejected. |
| Validation.AcceptedNumeral | backend/application.py:177-183 | A typed numeral is accepted exactly when it is in 1..5 and the comment is not blank. The rating stored is then that number. |
| Reviews.SumRatings | backend/application.py:218-222 | The sum of the ratings behind `AVG(rating)`. SumBounds gives n..5n for n ratings in 1..5. |
| Reviews.ReviewCount | backend/application.py:218-222 | `COUNT(*)` of the book's rows, never more than the table's rows. CountIsOccurrences equates it with the isbn's multiplicity in the isbn column. |
| Reviews.AverageRating | backend/application.py:218-222 | `COALESCE(AVG(rating), 0)` as the exact sum divided by the count over the book's rows, 0 when there are none. AverageBounds gives 1..5 whenever there is a review, and AverageOfFiveAndThree a worked example. |
| Reviews.Isbns | backend/application.py:220 | The isbn column has one entry per row, and entry i is the isbn of row i. |
| Reviews.CountIsOccurrences | backend/application.py:218-222 | `COUNT(*) ... WHERE isbn = :isbn` is the number of rows whose isbn column holds the book's isbn. |
| Reviews.SumBounds | backend/application.py:219 | With ratings in 1..5 the sum of n ratings lies between n and 5n. |
| Reviews.DivisionBounds | backend/application.py:219 | A sum between n and 5n divided by n lies in 1..5. |
| Reviews.AverageBounds | backend/application.py:218-222 | `COALESCE(AVG(rating), 0)` is 0 for a book without reviews and lies in 1..5 otherwise. |
| Reviews.AverageOfFiveAndThree | backend/application.py:218-222 | Two reviews with 5 and 3 stars give count 2 and average 4. |
| Reviews.UpdateWhere | backend/application.py:191-195 | The UPDATE overwrites the rating, the comment and the time of every row of the (user, book) pair, and leaves every other row as it was. |
| Reviews.Upsert | backend/application.py:185-200 | The table grows by one row exactly when the pair had no row. Every row of another pair keeps its position and contents. |
| Reviews.UpdateKeepsOtherRows | backend/application.py:191-195 | The UPDATE leaves the rows of other pairs as they were, in the same order. |
| Reviews.UpsertKeepsOtherRows | backend/application.py:185-200 | After the upsert, the rows of every other (user, book) pair are exactly as before, in the same order. |
| Reviews.NoPairRows | backend/application.py:185-190 | When the check finds no row, no row of the pair exists. |
| Reviews.UpdatedPairRow | backend/application.py:190-195 | With one row per pair, the UPDATE leaves exactly one row for the pair, holding the new values. |
| Reviews.UpsertLeavesOneRow | backend/application.py:185-200 | After an accepted submission, exactly one review exists for the (user, book) pair, and it holds the submitted rating, comment and time. |
| Reviews.UpsertKeepsOnePerPair | backend/application.py:185-200 | The upsert keeps "at most one review per (user, book)". |
| Reviews.UpsertKeepsValid | backend/application.py:185-202 | A valid review by an existing user of an existing book keeps the whole reviews table valid. |
| Reviews.UpdateKeepsBookCount | backend/application.py:191-195 | The UPDATE changes no book's review count. |
| Reviews.UpsertCount | backend/application.py:185-202 | The reviewed book's count grows by one on a first review and stays put on a resubmission. Every other book's count is unchanged. |
| Reviews.JoinUsers | backend/application.py:210-213 | `JOIN users` yields at most one line per review row. |
| Reviews.JoinLinesFromRows | backend/application.py:210-213 | Every line of `JOIN users` comes from some review row whose author exists, with that row's rating, comment and time and the author's username. |
| Reviews.JoinKeepsAll | backend/application.py:210-213 | When every review's author exists, the join keeps every row in order: line i is the author's username with row i's rating, comment and time. |
| Reviews.NewestFirstIsTotal | backend/application.py:214 | `ORDER BY created_at DESC` is a total preorder. |
| Reviews.BookDetails | backend/application.py:207-222 | The page shows the book's reviews joined with their authors, newest first and as a permutation of the joined rows, together with the count and average of the same book. |
| Reviews.BookDetailsConsistent | backend/application.py:210-222 | On a valid store the listing has as many reviews as the count says, and the average lies in 1..5 whenever there is a review. |
| Application.App.constructor | backend/application.py:9-19 | The application starts with the given books, no users, no reviews, an empty session and the id counter at 1, and the invariant holds. |
| Application.App.Register | backend/application.py:83-111 | A GET shows the form. A blank stripped username or an empty password is refused. A taken username is refused. In both refusals the users, the session and the id counter are unchanged. Otherwise exactly one user row is added, with the next id, the stripped name and a hash of the password, and the session is signed in as that user. The invariant is kept. |
| Application.App.InsertUser | backend/application.py:100-105 | The INSERT appends one row under the next id, which is new, and advances the counter. The invariant is kept, and a session for the new user is valid. |
| Application.App.Login | backend/application.py:122-143 | A GET always clears the session. A POST answers InvalidCredentials exactly when the stripped name is unknown or the hash check fails; it is the same answer in both cases and the session is left alone. Otherwise the session is set to the matched user's id and name. |
| Application.App.CheckCredentials | backend/application.py:127-141 | The POST path of login, with the same cases as Login. |
| Application.App.SignIn | backend/application.py:139-140 | Storing a user of the table in the session keeps the invariant. |
| Application.App.Logout | backend/application.py:154-157 | The session is empty afterwards, whatever it held, so logging out again changes nothing. |
| Application.App.ClearSession | backend/application.py:124-125 | `session.clear()` empties the session and keeps the invariant. |
| Application.App.Index | backend/application.py:45-73 | Without a signed-in user the answer is a redirect. With one, a GET shows the form and a POST answers with the search result. The method changes no state. |
| Application.App.BookPage | backend/application.py:159-205 | Behind the gate, an unknown isbn gives the not-found page and a GET shows the book's details. A rejected POST shows them with the one error message. In all of these the reviews are unchanged. An accepted POST redirects and leaves the reviews as the upsert of the session user's submission. The invariant is kept. |
| Application.App.SaveReview | backend/application.py:185-202 | The select-then-update-or-insert write leaves the table equal to the upsert and keeps the invariant. |
| Scenarios.RegisterTwice | backend/application.py:83-111 | Registering one name twice succeeds the first time and is refused the second. The stored account keeps the first password's hash. |
| Scenarios.RegisteredApp | backend/application.py:83-111 | A fresh application after one registration holds exactly that user, with id 1, and is signed in as that user. |
| Scenarios.WrongPasswordRefused | backend/application.py:133-136 | A wrong password for a registered name is refused. |
| Scenarios.UnknownUserRefused | backend/application.py:133-136 | An unknown name gets the same refusal as a wrong password. |
| Scenarios.PostReview | backend/application.py:173-202 | A signed-in user's typed rating in 1..5 with a non-blank comment for a known book is upserted. |
| Scenarios.ReviewTwice | backend/application.py:185-202 | Two submissions by one user for one book leave one row, which holds the second submission. |
| Scenarios.FirstReview | backend/application.py:196-200 | A first review is inserted as the only row. |
| Scenarios.SecondReview | backend/application.py:190-195 | A resubmission overwrites the only row. |
| Scenarios.AnonymousBookPost | backend/application.py:161-163 | Without a session the book page redirects to login and writes nothing. |

## Left out

- Flask plumbing is not modelled:
  - routing, `redirect` and `url_for`, and reading request forms;
  - the filesystem session store and the start-up `DATABASE_URL` check.

  Handler answers are datatypes, form fields are `Option<string>` parameters, and the session is one
  `Session` value for one client.
- HTML page building is not modelled:
  - `page`, `nav`, the form builders and the page templates;
  - the loops that build the result list and the review list (lines 67-71 and 226-235).

  The models keep the data those pages show: `SearchResult` and `BookView`.
- werkzeug's hashing is an abstract hash function parameter. The random salt is a parameter of
  `register`. The hash method and iteration count are not modelled.
- `NOW()` is a `now` parameter. The INSERT at line 198 relies on the column default for
  `created_at`; the schema is not part of this model, so the model assumes that default is `NOW()`.
- The database's id sequence is a counter starting at 1. The `id` column of `reviews` is not
  modelled: line 186 selects it, but only the existence of the row is used.
- The float conversion and the `.2f` formatting of the average (lines 237 and 246) are not
  modelled. The average is an exact rational.
- The check-then-act race between concurrent submissions, and database or commit failures, are not
  modelled. The model is sequential.
- ILIKE is partly modelled:
  - `%`, `_` and `\` typed in the query are matched literally, although ILIKE would treat the
    first two as wildcards and the backslash as its escape character;
  - case folding is ASCII only.
- `ORDER BY title` uses code-point order rather than a database collation.
- The order among rows with equal sort keys is left unspecified by SQL. The model fixes one order
  (a stable sort). Its contracts claim sortedness, that every row comes from the input at most as
  often as it occurs there, and which rows the limit keeps; they do not claim which of several
  equal rows comes first.
- Python's `int()` is not fully modelled. Non-ASCII digits are not accepted, although CPython
  accepts them. Its other rules are modelled: the whitespace it ignores around the numeral, the
  ASCII separators U+001C..U+001F that `str.strip()` would remove but `int()` rejects anywhere in
  the string, and the default limit of 4300 digits.
- `int(r.rating)` at line 229 is the identity, because ratings are already integers.
- Sorting.Sort: sorting and the permutation property are stated, but stability is not.
