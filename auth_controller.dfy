/** AuthController: `actionLogin`, which exchanges a username and password
    for a fresh access token. The request body's `username` and `password`
    are strings; the random token, the clock and TOKEN_EXPIRATION are
    parameters. */
module AuthController {
  import opened Common
  import opened Records
  import opened DocumentStore
  import opened UserModel
  import opened TokenHelper
  import opened Http

  /** The credentials name a user whose stored hash equals the password. */
  ghost predicate Accepts(users: map<Id, User>, username: string, password: string) {
    exists k :: k in users && users[k].username == username && ValidatePassword(users[k], password)
  }

  /** `actionLogin`: on good credentials the user gets a new token, which is
      returned; otherwise 'Credenciales incorrectas' and nothing changes. */
  method Login(db: Store, username: string, password: string, token: string, now: int, ttl: int) returns (r: Response)
    requires db.Valid() && FreshToken(db.users, token)
    modifies db
    ensures db.Valid()
    ensures r.Reply? <==> Accepts(old(db.users), username, password)
    ensures !Accepts(old(db.users), username, password) ==>
      r == Unauthorized("Credenciales incorrectas") && unchanged(db)
    ensures Accepts(old(db.users), username, password) ==>
      && r == Reply(200, "ok", Text("Token generado correctamente"), TokenValue(token))
      && db.authors == old(db.authors) && db.books == old(db.books)
      && exists k :: k in old(db.users) && old(db.users)[k].username == username
           && db.users == old(db.users)[k := Issue(old(db.users)[k], token, now, ttl)]
    ensures forall k :: k in old(db.users) && old(db.users)[k].username == username && ValidatePassword(old(db.users)[k], password) ==>
      db.users == old(db.users)[k := Issue(old(db.users)[k], token, now, ttl)]
  {
    var found := FindByUsername(db.users, username);
    if found.Some? && ValidatePassword(found.value, password) {
      var id := found.value.id;
      assert id in db.users && db.users[id] == found.value;
      FindByUsernameStored(db.users, id);
      GenerateAuthKey(db, id, token, now, ttl);
      return Reply(200, "ok", Text("Token generado correctamente"), TokenValue(db.users[id].authKey.value));
    }
    if found.Some? {
      forall k | k in db.users && db.users[k].username == username
        ensures !ValidatePassword(db.users[k], password)
      {
        assert db.users[k] == found.value;
      }
    }
    return Unauthorized("Credenciales incorrectas");
  }

  /** A stored user's own username and password are accepted, and with
      usernames unique no other record answers to that username. */
  lemma {:induction false} StoredCredentialsAccepted(users: map<Id, User>, k: Id, password: string)
    requires UniqueUsernames(users) && k in users && ValidatePassword(users[k], password)
    ensures Accepts(users, users[k].username, password)
    ensures FindByUsername(users, users[k].username) == Some(users[k])
  {
    FindByUsernameStored(users, k);
  }

  /** The characters of the framework's random strings: letters, digits,
      `_` and `-`. */
  predicate TokenAlphabet(token: string) {
    forall i :: 0 <= i < |token| ==>
      ('a' <= token[i] <= 'z') || ('A' <= token[i] <= 'Z') || ('0' <= token[i] <= '9') || token[i] == '_' || token[i] == '-'
  }

  /** A token just issued by a login opens the gate when it is sent back as
      `Bearer <token>`, at every instant before it expires, and is refused as
      invalid or expired from then on. */
  lemma {:induction false} LoginOpensGuard(users: map<Id, User>, id: Id, token: string, now: int, ttl: int, at: int)
    requires id in users && UniqueUsernames(users) && UniqueTokens(users) && FreshToken(users, token)
    requires TokenAlphabet(token)
    ensures var after := users[id := Issue(users[id], token, now, ttl)];
      && UniqueTokens(after)
      && (at < now + ttl ==> Guard(Some("Bearer " + token), after, at).None?)
      && (at >= now + ttl ==> Guard(Some("Bearer " + token), after, at) == Some(Unauthorized("Token no válido o caducado")))
  {
    var after := users[id := Issue(users[id], token, now, ttl)];
    var header := "Bearer " + token;
    assert '\n' !in token by {
      forall i | 0 <= i < |token| ensures token[i] != '\n' {
        assert TokenAlphabet(token);
      }
    }
    BearerRoundTrip(token);
    IssuedTokenLapses(users, id, token, now, ttl, at);
    assert header[0] == 'B';
    assert Truthy(Some(header));
    if at < now + ttl {
      var u := FindIdentityByAccessToken(after, token, at).value;
      var k :| k in after && after[k] == u;
      assert after[k].authKey == BearerToken(header) && IsTokenValid(after[k], at);
    }
  }
}
