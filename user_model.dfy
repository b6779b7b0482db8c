/** The User model: password check, token issue and token lookup. The clock
    (`now`), the token lifetime TOKEN_EXPIRATION (`ttl`) and the random
    token are parameters. */
module UserModel {
  import opened Common
  import opened Records
  import opened DocumentStore

  /** `isTokenValid`: the expiry lies strictly after `now`. A user that was
      never issued a token has a null expiry, which is never valid. */
  predicate IsTokenValid(u: User, now: int) {
    u.authKeyExpiration.Some? && u.authKeyExpiration.value > now
  }

  /** `validatePassword`: the stored hash is compared with the submitted
      password as a plain string. */
  predicate ValidatePassword(u: User, password: string) {
    u.passwordHash == password
  }

  /** `findByUsername`: the user with this username, if any. */
  function FindByUsername(users: map<Id, User>, username: string): (r: Option<User>)
    requires UniqueUsernames(users)
    ensures r.Some? <==> exists k :: k in users && users[k].username == username
    ensures r.Some? ==> exists k :: k in users && users[k] == r.value && r.value.username == username
  {
    if exists k :: k in users && users[k].username == username then
      var k :| k in users && users[k].username == username;
      Some(users[k])
    else None
  }

  /** With usernames unique, the lookup returns the very user stored under
      that username, whichever record `findOne` would meet first. */
  lemma FindByUsernameStored(users: map<Id, User>, k: Id)
    requires UniqueUsernames(users) && k in users
    ensures FindByUsername(users, users[k].username) == Some(users[k])
  {
    var found := FindByUsername(users, users[k].username);
    var j :| j in users && users[j] == found.value && found.value.username == users[k].username;
    assert users[j].username == users[k].username;
  }

  /** `findIdentityByAccessToken`: the user holding `token`, provided the
      token has not expired at `now`. */
  function FindIdentityByAccessToken(users: map<Id, User>, token: string, now: int): (r: Option<User>)
    requires UniqueTokens(users)
    ensures r.Some? <==> exists k :: k in users && users[k].authKey == Some(token) && IsTokenValid(users[k], now)
    ensures r.Some? ==> exists k :: k in users && users[k] == r.value
    ensures r.Some? ==> r.value.authKey == Some(token) && IsTokenValid(r.value, now)
  {
    if exists k :: k in users && users[k].authKey == Some(token) then
      var k :| k in users && users[k].authKey == Some(token);
      if IsTokenValid(users[k], now) then Some(users[k]) else None
    else None
  }

  /** The user record after `generateAuthKey`: the new token, expiring
      `ttl` seconds after `now`; nothing else changes. */
  function Issue(u: User, token: string, now: int, ttl: int): (r: User)
    ensures r.authKey == Some(token) && r.authKeyExpiration == Some(now + ttl)
    ensures r.id == u.id && r.username == u.username && r.passwordHash == u.passwordHash
  {
    u.(authKey := Some(token), authKeyExpiration := Some(now + ttl))
  }

  /** No user holds `token` yet: the random generator gives a new string. */
  ghost predicate FreshToken(users: map<Id, User>, token: string) {
    forall k :: k in users ==> users[k].authKey != Some(token)
  }

  /** Issuing a fresh token keeps usernames and tokens unambiguous. */
  lemma {:induction false} IssueKeepsUnique(users: map<Id, User>, id: Id, token: string, now: int, ttl: int)
    requires id in users && UniqueUsernames(users) && UniqueTokens(users) && FreshToken(users, token)
    ensures var after := users[id := Issue(users[id], token, now, ttl)];
      UniqueUsernames(after) && UniqueTokens(after)
  {
    var after := users[id := Issue(users[id], token, now, ttl)];
    forall j, k | j in after && k in after && after[j].authKey.Some? && after[j].authKey == after[k].authKey
      ensures j == k
    {
      if j != id && k != id {
        assert after[j] == users[j] && after[k] == users[k];
      }
    }
    forall j, k | j in after && k in after && after[j].username == after[k].username
      ensures j == k
    {
      assert after[j].username == users[j].username && after[k].username == users[k].username;
    }
  }

  /** Right after the issue the new token identifies that user, at the same
      instant, exactly when TOKEN_EXPIRATION is positive. */
  lemma {:induction false} IssuedTokenIdentifies(users: map<Id, User>, id: Id, token: string, now: int, ttl: int)
    requires id in users && UniqueUsernames(users) && UniqueTokens(users) && FreshToken(users, token)
    ensures var after := users[id := Issue(users[id], token, now, ttl)];
      UniqueTokens(after) &&
      (FindIdentityByAccessToken(after, token, now) == if ttl > 0 then Some(after[id]) else None)
  {
    var after := users[id := Issue(users[id], token, now, ttl)];
    IssueKeepsUnique(users, id, token, now, ttl);
    assert after[id].authKey == Some(token);
    if ttl > 0 {
      var r := FindIdentityByAccessToken(after, token, now);
      assert r.Some?;
      var k :| k in after && after[k] == r.value;
      assert after[k].authKey == after[id].authKey;
    }
  }

  /** The token lapses at `now + ttl`: it identifies the user at every
      earlier instant and at none from then on. */
  lemma {:induction false} IssuedTokenLapses(users: map<Id, User>, id: Id, token: string, now: int, ttl: int, at: int)
    requires id in users && UniqueUsernames(users) && UniqueTokens(users) && FreshToken(users, token)
    ensures var after := users[id := Issue(users[id], token, now, ttl)];
      UniqueTokens(after) &&
      (FindIdentityByAccessToken(after, token, at).Some? <==> at < now + ttl)
  {
    var after := users[id := Issue(users[id], token, now, ttl)];
    IssueKeepsUnique(users, id, token, now, ttl);
    assert after[id].authKey == Some(token);
    var r := FindIdentityByAccessToken(after, token, at);
    if r.Some? {
      var k :| k in after && after[k] == r.value;
      assert after[k].authKey == after[id].authKey;
    }
  }

  /** Only the latest token is stored: once a new token is issued, the one
      the user held before identifies nobody. */
  lemma {:induction false} OnlyLatestToken(users: map<Id, User>, id: Id, token: string, now: int, ttl: int, at: int)
    requires id in users && UniqueUsernames(users) && UniqueTokens(users) && FreshToken(users, token)
    requires users[id].authKey.Some?
    ensures var after := users[id := Issue(users[id], token, now, ttl)];
      UniqueTokens(after) && FindIdentityByAccessToken(after, users[id].authKey.value, at).None?
  {
    var after := users[id := Issue(users[id], token, now, ttl)];
    IssueKeepsUnique(users, id, token, now, ttl);
    var old_token := users[id].authKey.value;
    assert old_token != token;
    forall k | k in after ensures after[k].authKey != Some(old_token) {
      if k != id {
        assert after[k] == users[k];
      }
    }
  }

  /** `generateAuthKey`: stores a new token and its expiry on user `id` and
      saves the record; no other document changes. */
  method GenerateAuthKey(db: Store, id: Id, token: string, now: int, ttl: int)
    requires db.Valid() && id in db.users && FreshToken(db.users, token)
    modifies db
    ensures db.Valid()
    ensures db.users == old(db.users)[id := Issue(old(db.users)[id], token, now, ttl)]
    ensures db.authors == old(db.authors) && db.books == old(db.books)
  {
    IssueKeepsUnique(db.users, id, token, now, ttl);
    db.users := db.users[id := Issue(db.users[id], token, now, ttl)];
  }
}
