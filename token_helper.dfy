/** `TokenHelper::checkAuth` and the authentication gate every Book and
    Author action runs first. The Authorization header is a parameter (None
    when the request has none). */
module TokenHelper {
  import opened Common
  import opened Records
  import opened DocumentStore
  import opened UserModel
  import opened Http

  /** The characters `\s` matches in the pattern: space, tab, line feed,
      vertical tab, form feed and carriage return. */
  predicate IsRegexSpace(c: char) {
    c == ' ' || c == '\t' || c == '\n' || c == '\U{000B}' || c == '\U{000C}' || c == '\r'
  }

  predicate AllSpaces(s: string) {
    forall i :: 0 <= i < |s| ==> IsRegexSpace(s[i])
  }

  /** The length of the run of whitespace that starts `s`. */
  function SpaceRun(s: string): (n: nat)
    ensures n <= |s| && AllSpaces(s[..n])
    ensures n == |s| || !IsRegexSpace(s[n])
  {
    if s == [] || !IsRegexSpace(s[0]) then 0
    else
      var n := 1 + SpaceRun(s[1..]);
      assert forall i :: 1 <= i < n ==> s[..n][i] == s[1..][..n - 1][i - 1];
      n
  }

  /** Whether `/^Bearer\s+(.*?)$/` can match `header` with `token` as the
      captured group: "Bearer", one or more whitespace characters, then the
      token, which holds no line feed, optionally followed by one final line
      feed (`$` also matches before a final newline). */
  ghost predicate CanMatch(header: string, token: string) {
    exists n: nat :: MatchesWith(header, token, n)
  }

  /** CanMatch with a whitespace run of length `n`. */
  predicate MatchesWith(header: string, token: string, n: nat) {
    && 0 < n && 6 + n <= |header|
    && header[..6] == "Bearer"
    && AllSpaces(header[6..6 + n])
    && (header[6 + n..] == token || header[6 + n..] == token + "\n")
    && '\n' !in token
  }

  /** The captured group: `\s+` is greedy, so the whitespace run is taken
      whole, and `(.*?)` is lazy, so a final line feed is left to `$`. None
      when the pattern does not match. */
  function BearerToken(header: string): (r: Option<string>)
  {
    if |header| > 6 && header[..6] == "Bearer" && IsRegexSpace(header[6]) then
      var rest := header[6 + SpaceRun(header[6..])..];
      var token := if rest != [] && rest[|rest| - 1] == '\n' then rest[..|rest| - 1] else rest;
      if '\n' in token then None else Some(token)
    else None
  }

  /** The captured group is one the pattern allows, taken after the whole
      whitespace run. */
  lemma BearerTokenMatches(header: string)
    requires BearerToken(header).Some?
    ensures CanMatch(header, BearerToken(header).value)
    ensures var t := BearerToken(header).value; t == [] || !IsRegexSpace(t[0])
  {
    var n := SpaceRun(header[6..]);
    assert header[6..][..n] == header[6..6 + n];
    var rest := header[6 + n..];
    assert rest == header[6..][n..];
    var t := BearerToken(header).value;
    if rest != [] && rest[|rest| - 1] == '\n' {
      assert rest == t + "\n";
    }
    if t != [] {
      assert t[0] == rest[0] == header[6..][n];
    }
    assert MatchesWith(header, t, n);
  }

  /** A header matches the pattern exactly when BearerToken captures a group:
      a header not of the form `Bearer<whitespace>…` yields None. */
  lemma BearerTokenComplete(header: string, token: string)
    requires CanMatch(header, token)
    ensures BearerToken(header).Some?
  {
    var n: nat :| MatchesWith(header, token, n);
    assert 0 < n && 6 + n <= |header|;
    assert header[6] == header[6..6 + n][0];
    var m := SpaceRun(header[6..]);
    assert m >= n;
    var tail := header[6 + n..];
    var rest := header[6 + m..];
    assert rest == tail[m - n..];
    if tail == token {
      if rest != [] && rest[|rest| - 1] == '\n' {
        assert false;
      }
      assert rest == token[m - n..];
      assert '\n' !in rest by {
        forall i | 0 <= i < |rest| ensures rest[i] != '\n' {
          assert rest[i] == token[m - n + i];
        }
      }
    } else if rest != [] {
      assert tail == token + "\n";
      assert m - n <= |token|;
      assert rest[|rest| - 1] == '\n';
      assert rest[..|rest| - 1] == token[m - n..];
      assert '\n' !in rest[..|rest| - 1] by {
        var body := rest[..|rest| - 1];
        forall i | 0 <= i < |body| ensures body[i] != '\n' {
          assert body[i] == token[m - n + i];
        }
      }
    }
  }

  /** Sending `Bearer <token>` gives back the token, for every token the
      generator can produce: no line feed and no leading whitespace. */
  lemma BearerRoundTrip(token: string)
    requires '\n' !in token && (token == [] || !IsRegexSpace(token[0]))
    ensures BearerToken("Bearer " + token) == Some(token)
  {
    var header := "Bearer " + token;
    assert header[..6] == "Bearer" && header[6] == ' ';
    assert header[6..] == " " + token;
    assert header[6..][1..] == token;
    var n := SpaceRun(header[6..]);
    assert n == 1;
    assert header[7..] == token;
  }

  /** What `checkAuth` does: raise, or return a verdict. */
  datatype AuthCheck = Raised(reason: string) | Checked(ok: bool)

  /** `checkAuth`: a falsy header raises 'Token no existente'; otherwise the
      verdict is whether the captured token identifies a user whose token
      has not expired. */
  function CheckAuth(header: Option<string>, users: map<Id, User>, now: int): (r: AuthCheck)
    requires UniqueTokens(users)
    ensures r.Raised? <==> !Truthy(header)
    ensures r.Raised? ==> r.reason == "Token no existente"
    ensures r == Checked(true) <==>
      Truthy(header) && BearerToken(header.value).Some? &&
      exists k :: k in users && users[k].authKey == BearerToken(header.value) && IsTokenValid(users[k], now)
  {
    if !Truthy(header) then Raised("Token no existente")
    else match BearerToken(header.value)
      case None => Checked(false)
      case Some(token) => Checked(FindIdentityByAccessToken(users, token, now).Some?)
  }

  /** `beforeAction` of the Book and Author controllers: None lets the action
      run; otherwise the Unauthorized error the request gets instead. */
  function Guard(header: Option<string>, users: map<Id, User>, now: int): (r: Option<Response>)
    requires UniqueTokens(users)
    ensures r.None? <==> CheckAuth(header, users, now) == Checked(true)
    ensures r.Some? ==> r.value.Unauthorized?
    ensures r == Some(Unauthorized("Token no existente")) <==> !Truthy(header)
  {
    match CheckAuth(header, users, now)
    case Raised(reason) => Some(Unauthorized(reason))
    case Checked(ok) => if ok then None else Some(Unauthorized("Token no válido o caducado"))
  }
}
