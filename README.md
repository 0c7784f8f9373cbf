# Bookstore review service: the store behind the handlers

This project models the in-memory store of a small Express bookstore service, with the HTTP layer removed.
The store has three parts:

- the user registry: the `users` array, the `isValid` and `authenticatedUser` filters, registration, and the
  credential decision of login;
- the review table inside each catalog entry: add or overwrite a review, delete one's own review, read a
  book's reviews;
- the catalog queries: lookup by ISBN, and the exact-match scans by author and by title.

Each route handler becomes a method of `class Store` (module `Bookstore`). The class has three fields:
`users: seq<User>`, `order: seq<string>` (the `for...in` order of the catalog keys) and
`books: map<string, Book>`.

A handler's inputs are parameters:

- `Option<string>` for a request field, where `None` is `undefined`;
- a `Session` object for `req.session`.

Its reply is a `Response(status, body)`. Every method that changes the store requires and keeps the
invariant `Valid()`: usernames are pairwise distinct, and `order` lists each catalog key once. The other
methods leave the store untouched; the scans also require `Valid()`, so that every key they visit is in the
catalog.

The pure parts are modules of functions and lemmas:

- `Accounts` holds the user filters;
- `Books` holds the review-map edits;
- `Catalog` holds the scan's specification `Matches`.

Each state-changing handler is proved against these functions. For example, `AddReview`'s new `books` is
`old(books)[isbn := WithReview(...)]`, and the lemmas about `WithReview` give its properties:

- idempotence;
- last write wins;
- delete undoes add;
- other users are untouched.

Three client methods replay typical request sequences against the contracts alone:

- `RegisterTwice`: register the same name twice, with any second password, then an empty name;
- `LoginAfterRegister`: a wrong password, then the right one;
- `ReviewLifecycle`: add, modify, delete twice, read back.

Another revision of these handlers uses other status codes (400/409 for registration, 208 for a failed
login). The model follows the code modelled here:

- registration answers 404 both for a taken name and for a missing field (not 409 and 400);
- login answers 400 and 401;
- `GET /isbn/:isbn` has no not-found branch. An unknown ISBN gets 200 with an empty body.
- the author and title scans push the bare book record; they do not tag it with its ISBN.

## Model

| member | source | states |
|---|---|---|
| Accounts.WithName | final_project/router/auth_users.js:9-11 | the filter keeps exactly the records whose username equals the name |
| Accounts.WithCredentials | final_project/router/auth_users.js:16-18 | the filter keeps exactly the records equal to `{name, password}` |
| Accounts.IsValid | final_project/router/auth_users.js:8-13 | true exactly when some record in `users` has that username |
| Accounts.AuthenticatedUser | final_project/router/auth_users.js:15-20 | true exactly when one single record matches both username and password |
| Accounts.AuthenticatedIsValid | final_project/router/auth_users.js:8-20 | passing `authenticatedUser` implies passing `isValid` for the same name |
| Accounts.RegisterKeepsNamesUnique | final_project/router/general.js:14-16 | a push guarded by `!isValid` keeps the usernames pairwise distinct |
| Accounts.AtMostOnePassword | final_project/router/auth_users.js:15-20 | with distinct names, at most one password authenticates a name |
| Accounts.RegisterEffect | final_project/router/general.js:16 | the pushed user can log in; every other name keeps its registration and its credentials |
| Books.ReviewsOf | final_project/router/auth_users.js:133 | `books[isbn].reviews` defaulting to `{}`: the stored map when the book has one, an empty map otherwise |
| Books.HasReview | final_project/router/auth_users.js:92 | corrected own-key reading of `reviews[username]`: true only when the map exists and holds `username`, and then exactly when the text is non-empty |
| Books.HasReviewAsWritten | final_project/router/auth_users.js:116 | as-written reading of `reviews[username]`: the own-key answer, or true for a name with no own entry that `Object.prototype` defines |
| Books.WithReview | final_project/router/auth_users.js:87-98 | the review map is created if missing; afterwards `reviews[user]` is the text, the keys gain only `user`, and other entries are unchanged |
| Books.WithoutReview | final_project/router/auth_users.js:121 | the keys lose exactly `user`; every remaining entry is unchanged |
| Books.AddTwiceIsAddOnce | final_project/router/auth_users.js:92-99 | writing the same review twice equals writing it once, and the second write finds a (truthy) entry, so it reports "modified" |
| Books.LastWriteWins | final_project/router/auth_users.js:94 | an overwrite replaces the earlier text: two writes equal the last one alone |
| Books.DeleteUndoesAdd | final_project/router/auth_users.js:87-121 | deleting a review just added restores the previous review map |
| Books.OtherUsersUntouched | final_project/router/auth_users.js:87-121 | adding or deleting one user's review leaves every other user's entry, presence and text, as it was: the maps agree outside `user` |
| Books.FirstAddThenModified | final_project/router/auth_users.js:92-99 | corrected lookup: a user without an entry is told "added"; after a non-empty write, "modified" |
| Books.DeleteRemovesOneEntry | final_project/router/auth_users.js:116-122 | corrected lookup: a delete that passes the guard removes the user's entry, and the map shrinks by exactly one |
| Books.AsWrittenAgreesOffPrototype | final_project/router/auth_users.js:92 | for every name that `Object.prototype` does not define, the as-written lookup equals the own-key lookup |
| Books.InheritedNameLooksReviewed | final_project/router/auth_users.js:92-95 | as written: for user "constructor" with no entry, the lookup is truthy, so the first write is reported as "modified" |
| Books.InheritedNameDeletesNothing | final_project/router/auth_users.js:116-122 | as written: user "toString" with no entry passes the delete guard, and the delete removes nothing |
| Catalog.Matches | final_project/router/general.js:42-48 | the scan result has at most one record per visited key, and every record in it has the field equal to the parameter |
| Catalog.MatchesMembers | final_project/router/general.js:44-48 | a record is in the result exactly when some catalog key maps to it and its field strictly equals the parameter |
| Catalog.MatchesAppend | final_project/router/general.js:44-48 | scanning two key ranges in turn concatenates their results: the result keeps catalog iteration order |
| Catalog.MatchesOne | final_project/router/general.js:45-47 | one key contributes its bare record exactly when its field matches |
| Catalog.EmptyIffNoMatch | final_project/router/general.js:49-53 | the result is empty (and the route answers 404) exactly when no catalog entry matches |
| Catalog.MatchesCount | final_project/router/general.js:44-48 | with distinct keys, the result has one record per matching ISBN |
| Bookstore.SessionUser | final_project/router/auth_users.js:72 | `authorization?.username` is defined exactly when the session has an authorization, and is its username |
| Bookstore.AuthGate | final_project/router/auth_users.js:23-37 | the gate passes exactly when an authorization exists and its token verifies; otherwise 403 "User not logged in" or "User not authenticated" |
| Bookstore.Session.constructor | final_project/index.js:11 | a new session carries no authorization |
| Bookstore.Store.constructor | final_project/router/auth_users.js:6 | the store starts with no users and the seed catalog, and satisfies the invariant |
| Bookstore.Store.Register | final_project/router/general.js:8-24 | both fields present and a new name: appends exactly `{username, password}` and answers 200; a taken name: 404 "User already exists!"; a missing or empty field: 404 "Unable to register user."; users unchanged on both errors; distinct names preserved |
| Bookstore.Store.Login | final_project/router/auth_users.js:40-65 | a missing or empty field: 400, checked before credentials; matching credentials: 200 and the session carries the username; otherwise 401; the session is untouched on both errors |
| Bookstore.Store.AddReview | final_project/router/auth_users.js:69-101 | checks in order: no session user 403, empty review 400, unknown ISBN 404, books unchanged on each; on success only `books[isbn]` changes, to `WithReview`; the reply says "modified" exactly when a truthy entry existed, else "added" |
| Bookstore.Store.DeleteReview | final_project/router/auth_users.js:104-123 | checks in order: no session user 403, unknown ISBN 404, no truthy review by this user 404, books unchanged on each; on success only that user's key is removed from that book |
| Bookstore.Store.AuthReviewLookup | final_project/router/auth_users.js:126-139 | unknown ISBN: 404; otherwise 200 with the ISBN, the title and the reviews, an empty map when the book has none; nothing changes |
| Bookstore.Store.ReviewLookup | final_project/router/general.js:75-85 | 200 with the book's `reviews` property exactly when the ISBN is known, otherwise 404 "Book not found."; nothing changes |
| Bookstore.Store.BookByIsbn | final_project/router/general.js:33-37 | always 200; the body holds `books[isbn]` when the key exists and is empty otherwise (no 404) |
| Bookstore.Store.Collect | final_project/router/general.js:42-48 | the `for...in` loop collects exactly `Matches(order, books, field, value)` |
| Bookstore.Store.BooksByAuthor | final_project/router/general.js:40-54 | 200 exactly when some book's author strictly equals the parameter, with the bare matching records in catalog order; otherwise 404 |
| Bookstore.Store.BooksByTitle | final_project/router/general.js:57-72 | 200 exactly when some book's title strictly equals the parameter, with the bare matching records in catalog order; otherwise 404 |

## Left out

- Express wiring in `final_project/index.js`: body parsing, session middleware and its secret, route mounting, port and `listen`. Only the session's initial state is modelled.
- Access token signing and verification: the token payload, its secret and its one-hour expiry. Login success is modelled as "the session carries this username". The outcome of token verification is the boolean parameter of `AuthGate`.
- `GET /` (the whole catalog as pretty-printed JSON): a library serialisation call with no decision logic.
- Contents of the seed catalog in `booksdb.js`, which is not part of this model. The initial catalog is any map together with an enumeration of its keys.
- Request fields that are not strings: JSON numbers, booleans, arrays, or a repeated `review` query parameter. Each field is `undefined` or a string, and truthiness is "defined and non-empty".
- The catalog object's own prototype: `books[isbn]` for an ISBN such as "constructor" is truthy in JavaScript. The model treats the catalog as its own keys only.
- Bookstore.Store.AddReview: decides "added" or "modified" with the own-key lookup `HasReview`, the corrected reading of `reviews[username]` (see Findings). The prototype-chain reading is modelled separately as `Books.HasReviewAsWritten`.
- Bookstore.Store.DeleteReview: guards with the own-key lookup `HasReview`, the corrected reading (see Findings).
- The name `__proto__` as a review key: JavaScript ignores assigning a string to it. The model stores such a review like any other.
- Concurrency: handlers run one at a time to completion, so each method is atomic.

## Findings

| source | as written | input that shows it | evidently intended | confidence | as-written member | corrected member |
|---|---|---|---|---|---|---|
| final_project/router/auth_users.js:92-99 | `if (books[isbn].reviews[username])` looks the name up on a plain object, so inherited `Object.prototype` members count as existing reviews | register and log in as "constructor", then PUT a review on a book with no reviews: the reply is "Review modified", though no entry existed | "modified" only when this user already has an own entry | not executed | Books.InheritedNameLooksReviewed | Books.FirstAddThenModified |
| final_project/router/auth_users.js:116-122 | `!books[isbn].reviews[username]` passes for inherited members, and `delete` of a missing own key does nothing | log in as "toString" and DELETE the review of a book with an empty review map: the reply is 200 "Review deleted", and nothing was removed | 200 only when the user's own entry existed and was removed | not executed | Books.InheritedNameDeletesNothing | Books.DeleteRemovesOneEntry |
