/**
 Refresh tokens of a BaaS service's end users: single use, bound to one service, revoked as a whole when the
 user is suspended or the password is reset, and carrying the custom claims of the login they go back to.
 */
module RefreshTokens {
  import opened Common

  type Id = nat
  type Hash = nat

  /** Custom claims; the JSON values are opaque. */
  type Claims = map<string, string>

  datatype Json = JsonNull | JsonObject(members: Claims) | JsonOther

  /**
   Claim names the platform owns; "iss", "sub", "aud", "exp", "nbf", "iat" and "jti" are those of
   section 4.1 of RFC 7519.
   */
  const RESERVED_CLAIMS: set<string> := {
    "sub", "baas_id", "identifier", "roles", "permissions", "iat", "exp", "jti", "iss", "aud", "nbf"
  }

  datatype Token = Token(service: Id, user: Id, claims: Claims, expiresAt: int)

  datatype User = User(service: Id, status: string)

  datatype Store = Store(now: int, ttl: int, tokens: map<Hash, Token>, users: map<Id, User>)

  datatype AuthError =
    BadApiKey | BadCredentials | NotActive | NoSecret | BadClaims | BadToken | NoAccount | BadStatus | WeakPassword

  const ACTIVE := "active"
  const SUSPENDED := "suspended"

  // ---------- claims ----------

  ghost predicate Unreserved(claims: Claims) {
    claims.Keys !! RESERVED_CLAIMS
  }

  function ResolveAdditionalClaims(requested: Option<Json>): (r: Result<Claims, AuthError>)
    ensures r.Ok? ==> Unreserved(r.value)
    ensures requested.Some? && requested.value.JsonObject? ==>
      && r.Ok? && r.value.Items <= requested.value.members.Items
      && forall k <- requested.value.members :: k in r.value || k in RESERVED_CLAIMS
    ensures r.Err? <==> requested == Some(JsonOther)
  {
    match requested
    case None => Ok(map[])
    case Some(JsonNull) => Ok(map[])
    case Some(JsonObject(m)) => Ok(map k | k in m && k !in RESERVED_CLAIMS :: m[k])
    case Some(JsonOther) => Err(BadClaims)
  }

  // ---------- effects on the tables ----------

  /** The row that DELETE ... WHERE baas_id AND token_hash AND expires_at > now() RETURNING finds. */
  predicate Redeemable(s: Store, service: Id, h: Hash) {
    h in s.tokens && s.tokens[h].service == service && s.tokens[h].expiresAt > s.now
  }

  function RemoveToken(s: Store, h: Hash): Store {
    s.(tokens := map k | k in s.tokens && k != h :: s.tokens[k])
  }

  function StoreToken(s: Store, h: Hash, service: Id, user: Id, claims: Claims): Store {
    s.(tokens := s.tokens[h := Token(service, user, claims, s.now + s.ttl)])
  }

  predicate IsActive(s: Store, service: Id, user: Id) {
    user in s.users && s.users[user].service == service && s.users[user].status == ACTIVE
  }

  /** DELETE ... WHERE app_user_id: of every service. */
  function RevokeUser(s: Store, user: Id): Store {
    s.(tokens := map k | k in s.tokens && s.tokens[k].user != user :: s.tokens[k])
  }

  function SetStatus(s: Store, service: Id, user: Id, status: string): Store {
    if user in s.users && s.users[user].service == service
    then s.(users := s.users[user := s.users[user].(status := status)])
    else s
  }

  /**
   `refresh_app_token` without interference. The token is gone even when the account is refused, or when the
   signing secret of the service cannot be had.
   */
  function Refresh(s: Store, service: Id, h: Hash, newHash: Hash, secretOk: bool): Store {
    if !Redeemable(s, service, h) then s else
    var t := s.tokens[h];
    var rest := RemoveToken(s, h);
    if IsActive(rest, service, t.user) && secretOk then StoreToken(rest, newHash, service, t.user, t.claims) else rest
  }

  class AuthService {
    var now: int
    var ttl: int
    var tokens: map<Hash, Token>
    var users: map<Id, User>

    ghost function State(): Store
      reads this
    {
      Store(now, ttl, tokens, users)
    }

    method IssueTokenPair(h: Hash, service: Id, user: Id, claims: Claims)
      modifies this`tokens
      ensures State() == StoreToken(old(State()), h, service, user, claims)
    {
      tokens := tokens[h := Token(service, user, claims, now + ttl)];
    }

    /** `login_public_user`; returns the claims put into the access token. */
    method Login(apiKeyOk: bool, service: Id, user: Id, passwordOk: bool, secretOk: bool, requested: Option<Json>,
            h: Hash)
      returns (r: Result<Claims, AuthError>)
      modifies this`tokens
      ensures r.Ok? <==>
        && apiKeyOk && passwordOk && IsActive(old(State()), service, user)
        && secretOk && ResolveAdditionalClaims(requested).Ok?
      ensures r == Err(BadCredentials) <==>
        apiKeyOk && !(user in old(users) && old(users)[user].service == service && passwordOk)
      ensures r.Ok? ==> r == ResolveAdditionalClaims(requested)
      ensures State() == if r.Ok? then StoreToken(old(State()), h, service, user, r.value) else old(State())
    {
      if !apiKeyOk { return Err(BadApiKey); }
      if user !in users || users[user].service != service { return Err(BadCredentials); }
      if !passwordOk { return Err(BadCredentials); }
      if users[user].status != ACTIVE { return Err(NotActive); }
      if !secretOk { return Err(NoSecret); }
      var extra := ResolveAdditionalClaims(requested);
      if extra.Err? { return extra; }
      IssueTokenPair(h, service, user, extra.value);
      r := extra;
    }

    /** `refresh_app_token`. */
    method RefreshToken(apiKeyOk: bool, service: Id, h: Hash, newHash: Hash, secretOk: bool)
      returns (r: Result<Claims, AuthError>)
      modifies this`tokens
      ensures State() == if apiKeyOk then Refresh(old(State()), service, h, newHash, secretOk) else old(State())
      ensures r.Ok? <==>
        && apiKeyOk && Redeemable(old(State()), service, h)
        && IsActive(old(State()), service, old(tokens)[h].user) && secretOk
      ensures r == Err(BadToken) <==> apiKeyOk && !Redeemable(old(State()), service, h)
      ensures r.Ok? ==> r.value == old(tokens)[h].claims
    {
      if !apiKeyOk { return Err(BadApiKey); }
      if h !in tokens || tokens[h].service != service || !(tokens[h].expiresAt > now) { return Err(BadToken); }
      var consumed := tokens[h];
      tokens := map k | k in tokens && k != h :: tokens[k];
      var extra := consumed.claims;
      if consumed.user !in users || users[consumed.user].service != service { return Err(NoAccount); }
      if users[consumed.user].status != ACTIVE { return Err(NotActive); }
      if !secretOk { return Err(NoSecret); }
      IssueTokenPair(newHash, service, consumed.user, extra);
      r := Ok(extra);
    }

    /** `logout_app_user`; an unknown token is no error. */
    method Logout(apiKeyOk: bool, service: Id, h: Hash) returns (r: Result<(), AuthError>)
      modifies this`tokens
      ensures r.Ok? <==> apiKeyOk
      ensures State() ==
        if apiKeyOk && h in old(tokens) && old(tokens)[h].service == service then RemoveToken(old(State()), h)
        else old(State())
    {
      if !apiKeyOk { return Err(BadApiKey); }
      if h in tokens && tokens[h].service == service {
        tokens := map k | k in tokens && k != h :: tokens[k];
      }
      r := Ok(());
    }

    /** `update_app_user_status`, after trimming and lower-casing of the status. */
    method UpdateStatus(service: Id, user: Id, status: string) returns (r: Result<(), AuthError>)
      modifies this`tokens, this`users
      ensures r.Ok? <==> status == ACTIVE || status == SUSPENDED
      ensures r.Err? ==> State() == old(State())
      ensures r.Ok? ==>
        var updated := SetStatus(old(State()), service, user, status);
        State() == if status == SUSPENDED then RevokeUser(updated, user) else updated
      ensures forall h <- old(tokens) :: old(tokens)[h].user != user || status != SUSPENDED ==>
        h in tokens && tokens[h] == old(tokens)[h]
      ensures forall h <- tokens :: h in old(tokens) && (r.Ok? && status == SUSPENDED ==> tokens[h].user != user)
      ensures users.Keys == old(users).Keys
      ensures forall u <- users ::
        users[u] ==
          if r.Ok? && u == user && old(users)[u].service == service then User(service, status) else old(users)[u]
    {
      if status != ACTIVE && status != SUSPENDED { return Err(BadStatus); }
      if user in users && users[user].service == service {
        users := users[user := users[user].(status := status)];
      }
      if status == SUSPENDED {
        tokens := map k | k in tokens && tokens[k].user != user :: tokens[k];
      }
      r := Ok(());
    }

    /** `reset_app_user_password`; the stored password hash itself is not part of the state. */
    method ResetPassword(user: Id, newPasswordLength: nat) returns (r: Result<(), AuthError>)
      modifies this`tokens
      ensures r.Ok? <==> newPasswordLength >= 8
      ensures State() == if r.Ok? then RevokeUser(old(State()), user) else old(State())
      ensures forall h <- old(tokens) :: old(tokens)[h].user != user ==> h in tokens && tokens[h] == old(tokens)[h]
      ensures forall h <- tokens :: h in old(tokens) && (r.Ok? ==> tokens[h].user != user)
    {
      if newPasswordLength < 8 { return Err(WeakPassword); }
      tokens := map k | k in tokens && tokens[k].user != user :: tokens[k];
      r := Ok(());
    }
  }
}
