/** The catalog's key order and the exact-match scans `GET /author/:author` and `GET /title/:title` run over it. */
module Catalog {
  import opened Books

  /** The book field a scan compares with `===`. */
  datatype Field = Author | Title

  function FieldOf(b: Book, f: Field): string {
    match f
    case Author => b.author
    case Title => b.title
  }

  /** `order` is the `for...in` order of the catalog: every ISBN key exactly once. */
  ghost predicate Enumerates(order: seq<string>, books: map<string, Book>) {
    && (forall i, j :: 0 <= i < j < |order| ==> order[i] != order[j])
    && (forall k :: k in order <==> k in books)
  }

  /**
   * The records a scan pushes, in the order it visits `order`: each book whose field equals `value`,
   * as the bare record (the ISBN is not attached).
   */
  function Matches(order: seq<string>, books: map<string, Book>, f: Field, value: string): (r: seq<Book>)
    ensures |r| <= |order|
    ensures forall b :: b in r ==> FieldOf(b, f) == value
  {
    if order == [] then []
    else
      var k := order[|order| - 1];
      Matches(order[..|order| - 1], books, f, value)
      + (if k in books && FieldOf(books[k], f) == value then [books[k]] else [])
  }

  /** Exactly the records of matching keys are collected: nothing else, and none of them is missed. */
  lemma {:induction false} MatchesMembers(order: seq<string>, books: map<string, Book>, f: Field, value: string, b: Book)
    ensures b in Matches(order, books, f, value) <==>
      exists k :: k in order && k in books && books[k] == b && FieldOf(b, f) == value
  {
    if order != [] {
      var init := order[..|order| - 1];
      var last := order[|order| - 1];
      assert order == init + [last];
      MatchesMembers(init, books, f, value, b);
      if b in Matches(order, books, f, value) && b !in Matches(init, books, f, value) {
        assert last in order && books[last] == b;
      }
      if exists k :: k in order && k in books && books[k] == b && FieldOf(b, f) == value {
        var k :| k in order && k in books && books[k] == b && FieldOf(b, f) == value;
        if k != last {
          assert k in init;
        }
      }
    }
  }

  /** Scanning two stretches of keys one after the other gives the two results concatenated: catalog order is kept. */
  lemma {:induction false} MatchesAppend(a: seq<string>, c: seq<string>, books: map<string, Book>, f: Field, value: string)
    ensures Matches(a + c, books, f, value) == Matches(a, books, f, value) + Matches(c, books, f, value)
  {
    if c == [] {
      assert a + c == a;
    } else {
      var c' := c[..|c| - 1];
      assert (a + c)[..|a + c| - 1] == a + c';
      assert (a + c)[|a + c| - 1] == c[|c| - 1];
      MatchesAppend(a, c', books, f, value);
    }
  }

  /** Extending the scanned prefix by one key appends at most that key's record. */
  lemma MatchesStep(order: seq<string>, i: nat, books: map<string, Book>, f: Field, value: string)
    requires i < |order|
    ensures Matches(order[..i + 1], books, f, value) ==
      Matches(order[..i], books, f, value)
      + (if order[i] in books && FieldOf(books[order[i]], f) == value then [books[order[i]]] else [])
  {
    assert order[..i + 1][..i] == order[..i];
  }

  /** A single key contributes its record exactly when that record's field equals the value. */
  lemma MatchesOne(k: string, books: map<string, Book>, f: Field, value: string)
    ensures Matches([k], books, f, value) == if k in books && FieldOf(books[k], f) == value then [books[k]] else []
  {
    assert [k][..0] == [];
  }

  /** The scan comes back empty, and the handler answers 404, exactly when no catalog entry matches. */
  lemma {:induction false} EmptyIffNoMatch(order: seq<string>, books: map<string, Book>, f: Field, value: string)
    ensures Matches(order, books, f, value) == [] <==>
      forall k :: k in order && k in books ==> FieldOf(books[k], f) != value
  {
    var r := Matches(order, books, f, value);
    if r != [] {
      MatchesMembers(order, books, f, value, r[0]);
    } else if order != [] {
      forall k | k in order && k in books
        ensures FieldOf(books[k], f) != value
      {
        MatchesMembers(order, books, f, value, books[k]);
      }
    }
  }

  /** The ISBNs in `order` whose record's field equals `value`. */
  ghost function MatchingKeys(order: seq<string>, books: map<string, Book>, f: Field, value: string): set<string> {
    set k | k in order && k in books && FieldOf(books[k], f) == value
  }

  /** Helper: the matching keys of a prefix extended by one key. */
  lemma MatchingKeysStep(init: seq<string>, last: string, books: map<string, Book>, f: Field, value: string)
    ensures MatchingKeys(init + [last], books, f, value) ==
      MatchingKeys(init, books, f, value) + (if last in books && FieldOf(books[last], f) == value then {last} else {})
  {
    assert forall k :: k in init + [last] <==> k in init || k == last;
  }

  /** With distinct keys, the scan returns one record per matching key: its length counts the matching ISBNs. */
  lemma {:induction false} MatchesCount(order: seq<string>, books: map<string, Book>, f: Field, value: string)
    requires forall i, j :: 0 <= i < j < |order| ==> order[i] != order[j]
    ensures |Matches(order, books, f, value)| == |MatchingKeys(order, books, f, value)|
  {
    if order != [] {
      var init := order[..|order| - 1];
      var last := order[|order| - 1];
      MatchesCount(init, books, f, value);
      assert order == init + [last];
      MatchingKeysStep(init, last, books, f, value);
      assert last !in MatchingKeys(init, books, f, value) by {
        assert last !in init;
      }
    }
  }
}
