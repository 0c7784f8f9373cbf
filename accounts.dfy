/** The user registry: the `users` array and the two filter predicates over it. */
module Accounts {

  /** A registered user record `{username, password}`. */
  datatype User = User(username: string, password: string)

  /** `users.filter(user => user.username === name)`, in array order. */
  function WithName(users: seq<User>, name: string): (r: seq<User>)
    ensures forall x :: x in r <==> x in users && x.username == name
  {
    if users == [] then []
    else (if users[0].username == name then [users[0]] else []) + WithName(users[1..], name)
  }

  /** `users.filter(user => user.username === name && user.password === password)`, in array order. */
  function WithCredentials(users: seq<User>, name: string, password: string): (r: seq<User>)
    ensures forall x :: x in r <==> x in users && x == User(name, password)
  {
    if users == [] then []
    else
      (if users[0].username == name && users[0].password == password then [users[0]] else [])
      + WithCredentials(users[1..], name, password)
  }

  /** `isValid`: the filtered list is non-empty exactly when the name is already registered. */
  function IsValid(users: seq<User>, name: string): (r: bool)
    ensures r <==> exists i :: 0 <= i < |users| && users[i].username == name
  {
    var same := WithName(users, name);
    assert forall i :: 0 <= i < |users| && users[i].username == name ==> users[i] in same;
    assert |same| > 0 ==> same[0] in same;
    |same| > 0
  }

  /** `authenticatedUser`: some single record matches both the name and the password. */
  function AuthenticatedUser(users: seq<User>, name: string, password: string): (r: bool)
    ensures r <==> User(name, password) in users
  {
    var valid := WithCredentials(users, name, password);
    assert |valid| > 0 ==> valid[0] in valid;
    |valid| > 0
  }

  /** The registry invariant: no two records share a username. */
  ghost predicate UniqueNames(users: seq<User>) {
    forall i, j :: 0 <= i < j < |users| ==> users[i].username != users[j].username
  }

  /** Whoever authenticates under a name is registered under it. */
  lemma AuthenticatedIsValid(users: seq<User>, name: string, password: string)
    ensures AuthenticatedUser(users, name, password) ==> IsValid(users, name)
  {
    if AuthenticatedUser(users, name, password) {
      var i :| 0 <= i < |users| && users[i] == User(name, password);
      assert users[i].username == name;
    }
  }

  /** Appending a record whose name `isValid` rejects keeps the names pairwise distinct. */
  lemma RegisterKeepsNamesUnique(users: seq<User>, name: string, password: string)
    requires UniqueNames(users)
    requires !IsValid(users, name)
    ensures UniqueNames(users + [User(name, password)])
  {
    var users' := users + [User(name, password)];
    forall i, j | 0 <= i < j < |users'|
      ensures users'[i].username != users'[j].username
    {
      if j == |users| {
        assert users'[i] == users[i];
      } else {
        assert users'[i] == users[i] && users'[j] == users[j];
      }
    }
  }

  /** While the names are distinct, a name authenticates with at most one password. */
  lemma AtMostOnePassword(users: seq<User>, name: string, p: string, q: string)
    requires UniqueNames(users)
    requires AuthenticatedUser(users, name, p) && AuthenticatedUser(users, name, q)
    ensures p == q
  {
    var i :| 0 <= i < |users| && users[i] == User(name, p);
    var j :| 0 <= j < |users| && users[j] == User(name, q);
    if i < j {
      assert users[i].username == users[j].username;
    } else if j < i {
      assert users[j].username == users[i].username;
    }
  }

  /** A freshly appended record can log in, and every other name keeps its registration and its credentials. */
  lemma RegisterEffect(users: seq<User>, name: string, password: string, other: string, pw: string)
    requires other != name
    ensures AuthenticatedUser(users + [User(name, password)], name, password)
    ensures IsValid(users + [User(name, password)], other) == IsValid(users, other)
    ensures AuthenticatedUser(users + [User(name, password)], other, pw) == AuthenticatedUser(users, other, pw)
  {
    var users' := users + [User(name, password)];
    assert users'[|users|] == User(name, password);
    if IsValid(users', other) {
      var i :| 0 <= i < |users'| && users'[i].username == other;
      assert i < |users| && users[i] == users'[i];
    }
    if IsValid(users, other) {
      var i :| 0 <= i < |users| && users[i].username == other;
      assert users'[i] == users[i];
    }
  }
}
