/** A catalog entry `{title, author, reviews}` and the edits the review handlers make to its review map. */
module Books {
  import opened Json

  /** A book's reviews: username to review text, at most one entry per user. */
  type Reviews = map<string, string>

  /** A catalog entry; `reviews` is `None` while the record has no `reviews` property. */
  datatype Book = Book(author: string, title: string, reviews: Option<Reviews>)

  /** `books[isbn].reviews || {}`: a missing review map reads as empty. */
  function ReviewsOf(b: Book): (r: Reviews)
    ensures b.reviews.Some? ==> r == b.reviews.value
    ensures b.reviews.None? ==> |r| == 0
  {
    if b.reviews.Some? then b.reviews.value else map[]
  }

  /** Truthiness of `reviews[user]` read as an own property: an entry exists and its text is non-empty. */
  function HasReview(b: Book, user: string): (r: bool)
    ensures r ==> b.reviews.Some? && user in b.reviews.value
    ensures user in ReviewsOf(b) ==> (r <==> ReviewsOf(b)[user] != "")
  {
    user in ReviewsOf(b) && ReviewsOf(b)[user] != ""
  }

  /** Creates the review map if it is missing, then sets `reviews[user] = text`. */
  function WithReview(b: Book, user: string, text: string): (r: Book)
    ensures r.author == b.author && r.title == b.title && r.reviews.Some?
    ensures ReviewsOf(r).Keys == ReviewsOf(b).Keys + {user}
    ensures ReviewsOf(r)[user] == text
    ensures forall other :: other in ReviewsOf(b) && other != user ==> ReviewsOf(r)[other] == ReviewsOf(b)[other]
  {
    b.(reviews := Some(ReviewsOf(b)[user := text]))
  }

  /** `delete reviews[user]` on a book that has a review map; a book without one is left as it is. */
  function WithoutReview(b: Book, user: string): (r: Book)
    ensures r.author == b.author && r.title == b.title && r.reviews.Some? == b.reviews.Some?
    ensures ReviewsOf(r).Keys == ReviewsOf(b).Keys - {user}
    ensures forall other :: other in ReviewsOf(r) ==> ReviewsOf(r)[other] == ReviewsOf(b)[other]
  {
    match b.reviews
    case None => b
    case Some(m) => b.(reviews := Some(m - {user}))
  }

  /** Writing the same review twice leaves the book as writing it once, and the second write finds an entry. */
  lemma AddTwiceIsAddOnce(b: Book, user: string, text: string)
    ensures WithReview(WithReview(b, user, text), user, text) == WithReview(b, user, text)
    ensures text != "" ==> HasReview(WithReview(b, user, text), user)
  {
    var once := WithReview(b, user, text);
    assert ReviewsOf(once)[user := text] == ReviewsOf(once);
  }

  /** Writing overwrites: the last text written is the one kept, whatever was there before. */
  lemma LastWriteWins(b: Book, user: string, first: string, second: string)
    ensures WithReview(WithReview(b, user, first), user, second) == WithReview(b, user, second)
  {
    assert ReviewsOf(b)[user := first][user := second] == ReviewsOf(b)[user := second];
  }

  /** Deleting a review just written restores the review map that was there before the write. */
  lemma DeleteUndoesAdd(b: Book, user: string, text: string)
    requires user !in ReviewsOf(b)
    ensures ReviewsOf(WithoutReview(WithReview(b, user, text), user)) == ReviewsOf(b)
  {
    assert ReviewsOf(b)[user := text] - {user} == ReviewsOf(b);
  }

  /** Writing or deleting one user's review leaves every other user's entry, presence and text, as it was. */
  lemma OtherUsersUntouched(b: Book, user: string, other: string, text: string)
    requires other != user
    ensures ReviewsOf(WithReview(b, user, text)) - {user} == ReviewsOf(b) - {user}
    ensures ReviewsOf(WithoutReview(b, user)) == ReviewsOf(b) - {user}
    ensures HasReview(WithReview(b, user, text), other) == HasReview(b, other)
    ensures HasReview(WithoutReview(b, user), other) == HasReview(b, other)
  {
  }

  /**
   * Intended meaning of the "added"/"modified" decision: a user with no entry is told "added",
   * and after a non-empty write the same user is told "modified".
   */
  lemma FirstAddThenModified(b: Book, user: string, text: string)
    requires user !in ReviewsOf(b)
    requires text != ""
    ensures !HasReview(b, user)
    ensures HasReview(WithReview(b, user, text), user)
  {
  }

  /** Intended meaning of a successful delete: the entry it found is gone and the map shrinks by exactly one. */
  lemma DeleteRemovesOneEntry(b: Book, user: string)
    requires HasReview(b, user)
    ensures user !in ReviewsOf(WithoutReview(b, user))
    ensures |ReviewsOf(WithoutReview(b, user))| == |ReviewsOf(b)| - 1
  {
    var m := ReviewsOf(b);
    var m' := ReviewsOf(WithoutReview(b, user));
    assert m'.Keys == m.Keys - {user};
    assert |m.Keys| == |m'.Keys| + 1 by {
      assert m.Keys == m'.Keys + {user};
    }
  }

  // ---- The lookup as the handlers actually perform it ----

  /**
   * The members every plain JavaScript object inherits from `Object.prototype`; reading any of them
   * from a review map that has no own entry of that name yields a truthy function or object.
   */
  const InheritedNames: set<string> :=
    {"constructor", "hasOwnProperty", "isPrototypeOf", "propertyIsEnumerable", "toLocaleString",
     "toString", "valueOf", "__defineGetter__", "__defineSetter__", "__lookupGetter__",
     "__lookupSetter__", "__proto__"}

  /** Truthiness of `reviews[user]` with the prototype chain: own entries first, inherited members otherwise. */
  function HasReviewAsWritten(b: Book, user: string): (r: bool)
    ensures r <==> HasReview(b, user) || (user !in ReviewsOf(b) && user in InheritedNames)
  {
    if user in ReviewsOf(b) then ReviewsOf(b)[user] != "" else user in InheritedNames
  }

  /** The lookup agrees with the own-key reading for every name `Object.prototype` does not define. */
  lemma AsWrittenAgreesOffPrototype(b: Book, user: string)
    requires user !in InheritedNames
    ensures HasReviewAsWritten(b, user) == HasReview(b, user)
  {
  }

  /**
   * A user registered as "constructor" who has never reviewed a book is told "modified" on the first write,
   * because the inherited `constructor` member makes the entry look present.
   */
  lemma InheritedNameLooksReviewed(b: Book)
    requires ReviewsOf(b) == map[]
    ensures HasReviewAsWritten(b, "constructor")
    ensures !HasReview(b, "constructor")
  {
    assert "constructor" in InheritedNames;
  }

  /**
   * A user registered as "toString" passes the delete guard on a book they never reviewed,
   * and the delete that follows removes nothing.
   */
  lemma InheritedNameDeletesNothing(b: Book)
    requires b.reviews == Some(map[])
    ensures HasReviewAsWritten(b, "toString")
    ensures WithoutReview(b, "toString") == b
  {
    assert "toString" in InheritedNames;
    var none: Reviews := map[];
    assert none - {"toString"} == none;
  }
}
