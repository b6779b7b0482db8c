/** The document store: the three collections as maps from `_id` to document. */
module DocumentStore {
  import opened Common
  import opened Records

  /** A username names at most one user, so looking a user up by name
      finds a single document. */
  ghost predicate UniqueUsernames(users: map<Id, User>) {
    forall j, k :: j in users && k in users && users[j].username == users[k].username ==> j == k
  }

  /** An issued token is held by at most one user, so looking a user up by
      token finds a single document. */
  ghost predicate UniqueTokens(users: map<Id, User>) {
    forall j, k :: j in users && k in users && users[j].authKey.Some? && users[j].authKey == users[k].authKey ==> j == k
  }

  /** The `authors`, `books` and `users` collections. */
  class Store {
    var authors: map<Id, Author>
    var books: map<Id, Book>
    var users: map<Id, User>

    /** Every document is stored under its own `_id`, and the user lookups
        by username and by token are unambiguous. */
    ghost predicate Valid()
      reads this
    {
      && (forall k :: k in authors ==> authors[k].id == k)
      && (forall k :: k in books ==> books[k].id == k)
      && (forall k :: k in users ==> users[k].id == k)
      && UniqueUsernames(users)
      && UniqueTokens(users)
    }

    constructor (authors: map<Id, Author>, books: map<Id, Book>, users: map<Id, User>)
      requires forall k :: k in authors ==> authors[k].id == k
      requires forall k :: k in books ==> books[k].id == k
      requires forall k :: k in users ==> users[k].id == k
      requires UniqueUsernames(users) && UniqueTokens(users)
      ensures Valid()
      ensures this.authors == authors && this.books == books && this.users == users
    {
      this.authors := authors;
      this.books := books;
      this.users := users;
    }
  }
}
