/**
 * The credential and session store of lib/auth.js.  The browser's local
 * storage holds two keys: "users", the registered `{email, password}` records
 * in registration order, and "authToken", the single current session token.
 * `CredentialStore` holds both as fields; every exported function of the
 * library is a method on it.  The clock (`Date.now()`) is the parameter `now`.
 */
module Auth {
  import opened Wrappers
  import opened TokenCodec

  /** A session lasts ten minutes, counted in milliseconds (lib/auth.js:33). */
  const SessionLength: int := 10 * 60 * 1000

  datatype User = User(email: string, password: string)

  predicate HasEmail(users: seq<User>, email: string) {
    exists u :: u in users && u.email == email
  }

  /** No two records share an email. */
  predicate UniqueEmails(users: seq<User>) {
    forall i, j :: 0 <= i < j < |users| ==> users[i].email != users[j].email
  }

  /** `users.find((u) => u.email === email)` (lib/auth.js:11). */
  function FindByEmail(users: seq<User>, email: string): (r: Option<User>)
    ensures r.Some? <==> HasEmail(users, email)
    ensures r.Some? ==> r.value in users && r.value.email == email
  {
    if users == [] then None
    else if users[0].email == email then Some(users[0])
    else
      var r := FindByEmail(users[1..], email);
      assert forall u :: u in users[1..] ==> u in users;
      assert HasEmail(users, email) ==> HasEmail(users[1..], email) by {
        if HasEmail(users, email) {
          var u :| u in users && u.email == email;
          assert u in users[1..];
        }
      }
      r
  }

  /** `users.find((u) => u.email === email && u.password === password)` (lib/auth.js:27). */
  function FindUser(users: seq<User>, email: string, password: string): (r: Option<User>)
    ensures r == if User(email, password) in users then Some(User(email, password)) else None
  {
    if users == [] then None
    else if users[0].email == email && users[0].password == password then Some(users[0])
    else
      var r := FindUser(users[1..], email, password);
      assert User(email, password) in users <==> User(email, password) in users[1..] by {
        assert users == [users[0]] + users[1..];
      }
      r
  }

  /**
   * What `jwt.decode` makes of a stored token: `None` when no token is stored,
   * when it is the empty string (which the source's `!token` also treats as
   * absent) or when it does not decode.
   */
  function DecodeStored(stored: Option<string>): Option<Payload> {
    if stored.None? || stored.value == "" then None else Decode(stored.value)
  }

  /** Appending a record with a fresh email keeps emails unique. */
  lemma AppendFreshKeepsUnique(users: seq<User>, u: User)
    requires UniqueEmails(users) && !HasEmail(users, u.email)
    ensures UniqueEmails(users + [u])
  {
  }

  /** A token issued at `issuedAt` decodes to its payload and is live exactly up to `issuedAt + SessionLength`. */
  lemma IssuedTokenLifetime(email: string, issuedAt: int, now: int)
    ensures var p := DecodeStored(Some(Encode(Payload(email, issuedAt + SessionLength))));
      p == Some(Payload(email, issuedAt + SessionLength)) &&
      (p.value.exp < now <==> now > issuedAt + SessionLength)
  {
    DecodeEncode(Payload(email, issuedAt + SessionLength));
  }

  /**
   * A stored token decodes exactly when it is the encoding of what it decodes
   * to.  This holds of `TokenCodec`; the signed tokens of lib/auth.js do not
   * share it.
   */
  lemma StoredDecodesOnlyIssued(stored: Option<string>, p: Payload)
    ensures DecodeStored(stored) == Some(p) <==> stored == Some(Encode(p))
  {
    if stored.Some? {
      DecodeOnlyIssued(stored.value, p);
    }
  }

  class CredentialStore {
    /** The "users" key. */
    var users: seq<User>
    /** The "authToken" key. */
    var authToken: Option<string>

    /** The storage as the application finds it (empty, or left over from earlier visits). */
    constructor (users: seq<User>, authToken: Option<string>)
      ensures this.users == users && this.authToken == authToken
    {
      this.users := users;
      this.authToken := authToken;
    }

    /** The payload of the stored token, if one is stored and decodes. */
    function Session(): Option<Payload>
      reads this
    {
      DecodeStored(authToken)
    }

    /** The session is present and not expired at `now` (`exp == now` is still live). */
    function Live(now: int): bool
      reads this
    {
      Session().Some? && !(Session().value.exp < now)
    }

    /** The session is present and has expired at `now`. */
    function Expired(now: int): bool
      reads this
    {
      Session().Some? && Session().value.exp < now
    }

    /** registerUser (lib/auth.js:7-18). */
    method RegisterUser(email: string, password: string) returns (ok: bool)
      modifies this`users
      ensures ok <==> !HasEmail(old(users), email)
      ensures users == if ok then old(users) + [User(email, password)] else old(users)
      ensures |old(users)| <= |users| && users[..|old(users)|] == old(users)
      ensures UniqueEmails(old(users)) ==> UniqueEmails(users)
      ensures authToken == old(authToken)
    {
      if FindByEmail(users, email).Some? {
        return false;
      }
      if UniqueEmails(users) {
        AppendFreshKeepsUnique(users, User(email, password));
      }
      users := users + [User(email, password)];
      assert users[..|old(users)|] == old(users);
      return true;
    }

    /** saveToken (lib/auth.js:44-48). */
    method SaveToken(token: string)
      modifies this`authToken
      ensures authToken == Some(token) && users == old(users)
    {
      authToken := Some(token);
    }

    /** getToken (lib/auth.js:50-57). */
    method GetToken() returns (token: Option<string>)
      ensures token == authToken
    {
      token := authToken;
    }

    /** removeToken (lib/auth.js:59-63). */
    method RemoveToken()
      modifies this`authToken
      ensures authToken == None && users == old(users)
    {
      authToken := None;
    }

    /** loginUser (lib/auth.js:23-39): on an exact match, issue, store and return a ten-minute token. */
    method LoginUser(email: string, password: string, now: int) returns (token: Option<string>)
      modifies this`authToken
      ensures token.Some? <==> User(email, password) in users
      ensures token.Some? ==> token.value == Encode(Payload(email, now + SessionLength))
      ensures token.Some? ==> authToken == token && Session() == Some(Payload(email, now + SessionLength))
      ensures token.None? ==> authToken == old(authToken)
      ensures users == old(users)
    {
      var user := FindUser(users, email, password);
      if user.None? {
        return None;
      }
      var payload := Payload(email, now + SessionLength);
      var t := Encode(payload);
      DecodeEncode(payload);
      SaveToken(t);
      return Some(t);
    }

    /**
     * isTokenValid (lib/auth.js:68-84): true exactly when a decodable token is
     * stored whose `exp` is not before `now`; an expired token is removed, an
     * undecodable one is left in place.
     */
    method IsTokenValid(now: int) returns (valid: bool)
      modifies this`authToken
      ensures valid == old(Live(now))
      ensures authToken == if old(Expired(now)) then None else old(authToken)
      ensures users == old(users)
    {
      var token := GetToken();
      if token.None? || token.value == "" {
        return false;
      }
      var decoded := Decode(token.value);
      if decoded.None? {
        return false;
      }
      if decoded.value.exp < now {
        RemoveToken();
        return false;
      }
      return true;
    }

    /**
     * getCurrentUser (lib/auth.js:86-102): the email of the session under the
     * same test as `IsTokenValid`, with the same removal of an expired token.
     */
    method GetCurrentUser(now: int) returns (email: Option<string>)
      modifies this`authToken
      ensures email.Some? <==> old(Live(now))
      ensures email.Some? ==> email.value == old(Session()).value.email
      ensures authToken == if old(Expired(now)) then None else old(authToken)
      ensures users == old(users)
    {
      var token := GetToken();
      if token.None? || token.value == "" {
        return None;
      }
      var decoded := Decode(token.value);
      if decoded.None? {
        return None;
      }
      if decoded.value.exp < now {
        RemoveToken();
        return None;
      }
      return Some(decoded.value.email);
    }
  }

  /**
   * Registering a fresh email, logging in with the same credentials and asking
   * for the current user at the same instant yields that email.
   */
  method RegisterLoginRoundTrip(store: CredentialStore, email: string, password: string, now: int)
    returns (registered: bool, token: Option<string>, current: Option<string>)
    modifies store
    ensures registered <==> !HasEmail(old(store.users), email)
    ensures registered ==> token == Some(Encode(Payload(email, now + SessionLength)))
    ensures registered ==> current == Some(email)
    ensures registered ==> store.users == old(store.users) + [User(email, password)]
  {
    registered := store.RegisterUser(email, password);
    token := store.LoginUser(email, password, now);
    current := store.GetCurrentUser(now);
  }

  /**
   * A session issued at `issuedAt` and checked at `later`: still valid up to
   * and including `issuedAt + SessionLength`, afterwards invalid and removed.
   */
  method ExpiryRoundTrip(store: CredentialStore, email: string, password: string, issuedAt: int, later: int)
    returns (token: Option<string>, valid: bool)
    modifies store
    ensures token.Some? <==> User(email, password) in old(store.users)
    ensures token.Some? ==> (valid <==> later <= issuedAt + SessionLength)
    ensures token.Some? && !valid ==> store.authToken == None
    ensures token.Some? && valid ==> store.authToken == token
  {
    token := store.LoginUser(email, password, issuedAt);
    valid := store.IsTokenValid(later);
  }
}
