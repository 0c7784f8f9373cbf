/** The shared store behind the route handlers: the user list, the catalog, and the per-client session. */
module Bookstore {
  import opened Json
  import opened Accounts
  import opened Books
  import opened Catalog
  import opened Http

  /** `req.session.authorization` as login sets it; the signed access token is not modelled. */
  datatype Authorization = Authorization(username: string)

  /** One client's server-side session. */
  class Session {
    var authorization: Option<Authorization>

    constructor ()
      ensures authorization == None
    {
      authorization := None;
    }
  }

  /** `req.session.authorization?.username`. */
  function SessionUser(auth: Option<Authorization>): (r: Option<string>)
    ensures r.Some? <==> auth.Some?
    ensures auth.Some? ==> r.value == auth.value.username
  {
    match auth
    case None => None
    case Some(a) => Some(a.username)
  }

  /** What the gate in front of the `/auth/` routes does: hand on to the route, or answer by itself. */
  datatype GateOutcome = Next | Halt(reply: Response)

  /**
   * The gate on the `/auth/` routes. `tokenVerifies` stands for the outcome of verifying the session's access token
   * (signature and expiry), which is not modelled.
   */
  function AuthGate(auth: Option<Authorization>, tokenVerifies: bool): (g: GateOutcome)
    ensures g.Next? <==> auth.Some? && tokenVerifies
    ensures g.Halt? ==> g.reply == Response(Forbidden, Message(if auth.None? then "User not logged in" else "User not authenticated"))
  {
    if auth.Some? then
      if tokenVerifies then Next else Halt(Response(Forbidden, Message("User not authenticated")))
    else
      Halt(Response(Forbidden, Message("User not logged in")))
  }

  class Store {
    /** The registered users, in registration order. */
    var users: seq<User>
    /** The catalog's ISBN keys in `for...in` order. */
    var order: seq<string>
    /** The catalog: ISBN to book record. */
    var books: map<string, Book>

    /** Usernames are pairwise distinct and `order` lists every catalog key once. */
    ghost predicate Valid()
      reads this
    {
      UniqueNames(users) && Enumerates(order, books)
    }

    /** The process starts with no users and the seed catalog. */
    constructor (catalog: map<string, Book>, keys: seq<string>)
      requires Enumerates(keys, catalog)
      ensures Valid()
      ensures users == [] && books == catalog && order == keys
    {
      users := [];
      books := catalog;
      order := keys;
    }

    /** `POST /register`. */
    method Register(username: Option<string>, password: Option<string>) returns (r: Response)
      requires Valid()
      modifies this`users
      ensures Valid()
      ensures Truthy(username) && Truthy(password) && !IsValid(old(users), username.value) ==>
        users == old(users) + [User(username.value, password.value)]
        && r == Response(Ok, Message("User successfully registered. Now you can login"))
      ensures Truthy(username) && Truthy(password) && IsValid(old(users), username.value) ==>
        users == old(users) && r == Response(NotFound, Message("User already exists!"))
      ensures !(Truthy(username) && Truthy(password)) ==>
        users == old(users) && r == Response(NotFound, Message("Unable to register user."))
    {
      if Truthy(username) && Truthy(password) {
        if !IsValid(users, username.value) {
          RegisterKeepsNamesUnique(users, username.value, password.value);
          users := users + [User(username.value, password.value)];
          return Response(Ok, Message("User successfully registered. Now you can login"));
        } else {
          return Response(NotFound, Message("User already exists!"));
        }
      }
      return Response(NotFound, Message("Unable to register user."));
    }

    /** `POST /customer/login`: on success the session carries the username; the store is not changed. */
    method Login(session: Session, username: Option<string>, password: Option<string>) returns (r: Response)
      modifies session
      ensures !(Truthy(username) && Truthy(password)) ==>
        r == Response(BadRequest, Message("Username and password are required"))
        && session.authorization == old(session.authorization)
      ensures Truthy(username) && Truthy(password) && AuthenticatedUser(users, username.value, password.value) ==>
        r == Response(Ok, Message("User successfully logged in"))
        && session.authorization == Some(Authorization(username.value))
      ensures Truthy(username) && Truthy(password) && !AuthenticatedUser(users, username.value, password.value) ==>
        r == Response(Unauthorized, Message("Invalid Login. Check username and password"))
        && session.authorization == old(session.authorization)
    {
      if !Truthy(username) || !Truthy(password) {
        return Response(BadRequest, Message("Username and password are required"));
      }
      if AuthenticatedUser(users, username.value, password.value) {
        session.authorization := Some(Authorization(username.value));
        return Response(Ok, Message("User successfully logged in"));
      } else {
        return Response(Unauthorized, Message("Invalid Login. Check username and password"));
      }
    }

    /** `PUT /customer/auth/review/:isbn?review=...`: add or overwrite the session user's review. */
    method AddReview(session: Session, isbn: string, review: Option<string>) returns (r: Response)
      requires Valid()
      modifies this`books
      ensures Valid()
      ensures var user := SessionUser(session.authorization);
        if !Truthy(user) then
          r == Response(Forbidden, Message("User not logged in")) && books == old(books)
        else if !Truthy(review) then
          r == Response(BadRequest, Message("Review content is required")) && books == old(books)
        else if isbn !in old(books) then
          r == Response(NotFound, Message("Book not found")) && books == old(books)
        else
          && books == old(books)[isbn := WithReview(old(books)[isbn], user.value, review.value)]
          && r == Response(Ok, Message(
               if HasReview(old(books)[isbn], user.value) then "Review modified for ISBN " + isbn
               else "Review added for ISBN " + isbn))
    {
      var user := SessionUser(session.authorization);
      if !Truthy(user) {
        return Response(Forbidden, Message("User not logged in"));
      }
      if !Truthy(review) {
        return Response(BadRequest, Message("Review content is required"));
      }
      if isbn !in books {
        return Response(NotFound, Message("Book not found"));
      }
      ghost var before := books[isbn];
      if books[isbn].reviews.None? {
        books := books[isbn := books[isbn].(reviews := Some(map[]))];
      }
      var reviews := books[isbn].reviews.value;
      assert reviews == ReviewsOf(before);
      if user.value in reviews && reviews[user.value] != "" {
        books := books[isbn := books[isbn].(reviews := Some(reviews[user.value := review.value]))];
        r := Response(Ok, Message("Review modified for ISBN " + isbn));
      } else {
        books := books[isbn := books[isbn].(reviews := Some(reviews[user.value := review.value]))];
        r := Response(Ok, Message("Review added for ISBN " + isbn));
      }
    }

    /** `DELETE /customer/auth/review/:isbn`: remove the session user's own review. */
    method DeleteReview(session: Session, isbn: string) returns (r: Response)
      requires Valid()
      modifies this`books
      ensures Valid()
      ensures var user := SessionUser(session.authorization);
        if !Truthy(user) then
          r == Response(Forbidden, Message("User not logged in")) && books == old(books)
        else if isbn !in old(books) then
          r == Response(NotFound, Message("Book not found")) && books == old(books)
        else if !HasReview(old(books)[isbn], user.value) then
          r == Response(NotFound, Message("Review not found or you don't have permission to delete this review"))
          && books == old(books)
        else
          && books == old(books)[isbn := WithoutReview(old(books)[isbn], user.value)]
          && r == Response(Ok, Message("Review deleted for ISBN " + isbn))
    {
      var user := SessionUser(session.authorization);
      if !Truthy(user) {
        return Response(Forbidden, Message("User not logged in"));
      }
      if isbn !in books {
        return Response(NotFound, Message("Book not found"));
      }
      if books[isbn].reviews.None? || !(user.value in books[isbn].reviews.value && books[isbn].reviews.value[user.value] != "") {
        return Response(NotFound, Message("Review not found or you don't have permission to delete this review"));
      }
      books := books[isbn := books[isbn].(reviews := Some(books[isbn].reviews.value - {user.value}))];
      return Response(Ok, Message("Review deleted for ISBN " + isbn));
    }

    /** `GET /customer/auth/review/:isbn`: the book's title and reviews, an empty map when it has none. */
    method AuthReviewLookup(isbn: string) returns (r: Response)
      ensures isbn !in books ==> r == Response(NotFound, Message("Book not found"))
      ensures isbn in books ==> r.status == Ok && r.body.BookReviews?
      ensures isbn in books ==> r.body.isbn == isbn && r.body.title == books[isbn].title
      ensures isbn in books ==> r.body.reviews == (if books[isbn].reviews.Some? then books[isbn].reviews.value else map[])
    {
      if isbn !in books {
        return Response(NotFound, Message("Book not found"));
      }
      var reviews := ReviewsOf(books[isbn]);
      return Response(Ok, BookReviews(isbn, books[isbn].title, reviews));
    }

    /** `GET /review/:isbn`: the book's `reviews` property as stored, or 404. */
    method ReviewLookup(isbn: string) returns (r: Response)
      ensures isbn in books <==> r.status == Ok
      ensures isbn in books ==> r.body == ReviewsBody(books[isbn].reviews)
      ensures isbn !in books ==> r == Response(NotFound, Message("Book not found."))
    {
      if isbn in books {
        var reviews := books[isbn].reviews;
        r := Response(Ok, ReviewsBody(reviews));
      } else {
        r := Response(NotFound, Message("Book not found."));
      }
    }

    /** `GET /isbn/:isbn`: always 200; an unknown ISBN sends an empty body rather than 404. */
    method BookByIsbn(isbn: string) returns (r: Response)
      ensures r.status == Ok && r.body.BookBody?
      ensures r.body.book.Some? <==> isbn in books
      ensures isbn in books ==> r.body.book.value == books[isbn]
    {
      r := Response(Ok, BookBody(if isbn in books then Some(books[isbn]) else None));
    }

    /** The `for (const isbn in books)` scan shared by the author and title routes. */
    method Collect(f: Field, value: string) returns (matching: seq<Book>)
      requires Valid()
      ensures matching == Matches(order, books, f, value)
    {
      matching := [];
      var i := 0;
      while i < |order|
        invariant 0 <= i <= |order|
        invariant matching == Matches(order[..i], books, f, value)
      {
        var isbn := order[i];
        MatchesStep(order, i, books, f, value);
        if FieldOf(books[isbn], f) == value {
          matching := matching + [books[isbn]];
        }
        i := i + 1;
      }
      assert order[..i] == order;
    }

    /** `GET /author/:author`. */
    method BooksByAuthor(author: string) returns (r: Response)
      requires Valid()
      ensures r.status == Ok <==> exists k :: k in books && books[k].author == author
      ensures r.status == Ok ==> r.body == ByAuthor(Matches(order, books, Author, author))
      ensures r.status != Ok ==> r == Response(NotFound, Message("No books found by this author."))
    {
      var matching := Collect(Author, author);
      EmptyIffNoMatch(order, books, Author, author);
      if |matching| > 0 {
        r := Response(Ok, ByAuthor(matching));
      } else {
        r := Response(NotFound, Message("No books found by this author."));
      }
    }

    /** `GET /title/:title`. */
    method BooksByTitle(title: string) returns (r: Response)
      requires Valid()
      ensures r.status == Ok <==> exists k :: k in books && books[k].title == title
      ensures r.status == Ok ==> r.body == ByTitle(Matches(order, books, Title, title))
      ensures r.status != Ok ==> r == Response(NotFound, Message("No books found by this title."))
    {
      var matching := Collect(Title, title);
      EmptyIffNoMatch(order, books, Title, title);
      if |matching| > 0 {
        r := Response(Ok, ByTitle(matching));
      } else {
        r := Response(NotFound, Message("No books found by this title."));
      }
    }
  }

  /**
   * A client run of `POST /register`: the same name twice, with any second password, then an empty name. The assertions are what a
   * caller can conclude from the handler's contract alone.
   */
  method RegisterTwice(name: string, password: string, other: string)
    requires name != "" && password != "" && other != ""
  {
    var store := new Store(map[], []);
    var r := store.Register(Some(name), Some(password));
    assert r.status == Ok && store.users == [User(name, password)];
    assert IsValid(store.users, name) by {
      assert store.users[0].username == name;
    }
    r := store.Register(Some(name), Some(other));
    assert r == Response(NotFound, Message("User already exists!")) && r.status.Code() == 404;
    r := store.Register(Some(""), Some(other));
    assert r == Response(NotFound, Message("Unable to register user.")) && |store.users| == 1;
  }

  /** A client run of `POST /customer/login`: a wrong password, then the right one. */
  method LoginAfterRegister(name: string, password: string, wrong: string)
    requires name != "" && password != "" && wrong != "" && wrong != password
  {
    var store := new Store(map[], []);
    var session := new Session();
    var r := store.Register(Some(name), Some(password));
    assert store.users == [User(name, password)];
    r := store.Login(session, Some(name), Some(wrong));
    assert r.status == Unauthorized && session.authorization == None;
    r := store.Login(session, Some(name), Some(password));
    assert r.status == Ok && session.authorization == Some(Authorization(name));
    assert AuthGate(session.authorization, true) == Next;
  }

  /**
   * A client run of the review routes for a logged-in user: review twice, delete twice, read back.
   */
  method ReviewLifecycle(session: Session)
    requires session.authorization == Some(Authorization("alice"))
  {
    var store := new Store(map["001" := Book("Chinua Achebe", "Things Fall Apart", Some(map[]))], ["001"]);

    var r := store.AddReview(session, "001", Some("Great"));
    assert r == Response(Ok, Message("Review added for ISBN " + "001"));
    r := store.AddReview(session, "001", Some("Better"));
    assert r == Response(Ok, Message("Review modified for ISBN " + "001"));
    assert ReviewsOf(store.books["001"]) == map["alice" := "Better"];

    r := store.DeleteReview(session, "001");
    assert r.status == Ok;
    r := store.DeleteReview(session, "001");
    assert r.status == NotFound;

    r := store.ReviewLookup("001");
    assert r.body == ReviewsBody(Some(map[]));
  }
}
