/** What a handler sends back: a status and a JSON body, with the Express response object stripped off. */
module Http {
  import opened Json
  import opened Books

  datatype Status = Ok | BadRequest | Unauthorized | Forbidden | NotFound {
    /** The numeric HTTP status code passed to `res.status`. */
    function Code(): nat {
      match this
      case Ok => 200
      case BadRequest => 400
      case Unauthorized => 401
      case Forbidden => 403
      case NotFound => 404
    }
  }

  datatype Body =
    | Message(text: string)                                  // `{message: text}`
    | BookBody(book: Option<Book>)                           // `res.send(books[isbn])`; `None` sends an empty body
    | ByAuthor(books: seq<Book>)                             // `{booksByAuthor: [...]}`
    | ByTitle(books: seq<Book>)                              // `{booksByTitle: [...]}`
    | ReviewsBody(stored: Option<Reviews>)                   // `{reviews}`; `None` drops the key, giving `{}`
    | BookReviews(isbn: string, title: string, reviews: Reviews)  // `{isbn, book: title, reviews}`

  datatype Response = Response(status: Status, body: Body)
}
