/**
 Refresh tokens of the platform's own users. `refresh_session` is the same rotation as for the end users of a
 service, without services and claims. Its statements are steps of the machine of `TokenInterleaving`, so that
 what holds in every run of that machine, single redemption for one, holds for platform sessions too.
 */
module PlatformSessions {
  import opened Common
  import opened RefreshTokens
  import T = TokenInterleaving

  const PLATFORM: Id := 0

  datatype Session = Session(user: Id, expiresAt: int)

  /** `suspended` has an entry for every user. */
  datatype Sessions = Sessions(now: int, ttl: int, tokens: map<Hash, Session>, suspended: map<Id, bool>)

  /** The platform as one service whose tokens carry no claims; every user that is not suspended is active. */
  ghost function AsStore(p: Sessions): Store {
    Store(p.now, p.ttl,
          map h | h in p.tokens :: Token(PLATFORM, p.tokens[h].user, map[], p.tokens[h].expiresAt),
          map u | u in p.suspended :: User(PLATFORM, if p.suspended[u] then SUSPENDED else ACTIVE))
  }

  // ---------- the statements of a refresh ----------

  predicate CanRedeem(p: Sessions, h: Hash) {
    h in p.tokens && p.tokens[h].expiresAt > p.now
  }

  /** DELETE ... WHERE token RETURNING */
  function RemoveSession(p: Sessions, h: Hash): Sessions {
    p.(tokens := map k | k in p.tokens && k != h :: p.tokens[k])
  }

  predicate MayRefresh(p: Sessions, user: Id) {
    user in p.suspended && !p.suspended[user]
  }

  function StoreSession(p: Sessions, h: Hash, user: Id): Sessions {
    p.(tokens := p.tokens[h := Session(user, p.now + p.ttl)])
  }

  /** The three statements, each on its own, are the steps that consume a token, check its user and issue one. */
  lemma DeleteIsConsume(c: T.Config, p: Sessions, t: Id, h: Hash)
    requires c.s == AsStore(p) && t !in c.tasks
    ensures CanRedeem(p, h) <==> T.Enabled(c, T.Consume(t, PLATFORM, h))
    ensures CanRedeem(p, h) ==>
      T.Apply(c, T.Consume(t, PLATFORM, h)) == T.Config(
        AsStore(RemoveSession(p, h)), c.tasks[t := T.Consumed(h, PLATFORM, p.tokens[h].user, map[])],
        c.log + [T.Redeemed(h, PLATFORM, p.tokens[h].user, map[], p.now)])
  {
    if CanRedeem(p, h) {
      assert AsStore(RemoveSession(p, h)) == RemoveToken(AsStore(p), h);
    }
  }

  lemma SelectIsCheck(c: T.Config, p: Sessions, t: Id, h: Hash, user: Id)
    requires c.s == AsStore(p) && t in c.tasks && c.tasks[t] == T.Consumed(h, PLATFORM, user, map[])
    ensures T.Apply(c, T.CheckUser(t)) == c.(tasks :=
      if MayRefresh(p, user) then c.tasks[t := T.Issuing(PLATFORM, user, map[], Some(h))] else T.Drop(c.tasks, t))
  {}

  lemma InsertIsIssue(c: T.Config, p: Sessions, t: Id, h: Hash, newHash: Hash, user: Id)
    requires c.s == AsStore(p) && t in c.tasks && c.tasks[t] == T.Issuing(PLATFORM, user, map[], Some(h))
    requires T.NeverIssued(c.log, newHash)
    ensures T.Enabled(c, T.Issue(t, newHash))
    ensures T.Apply(c, T.Issue(t, newHash)) == T.Config(
      AsStore(StoreSession(p, newHash, user)), T.Drop(c.tasks, t),
      c.log + [T.Issued(newHash, PLATFORM, user, map[], Some(h), p.now, p.ttl)])
  {
    assert AsStore(StoreSession(p, newHash, user)) == StoreToken(AsStore(p), newHash, PLATFORM, user, map[]);
  }

  class SessionService {
    var now: int
    var ttl: int
    var tokens: map<Hash, Session>
    var suspended: map<Id, bool>

    ghost function State(): Sessions
      reads this
    {
      Sessions(now, ttl, tokens, suspended)
    }

    /** `refresh_session`; returns the user of the new token. */
    method RefreshSession(h: Hash, newHash: Hash) returns (r: Result<Id, AuthError>)
      modifies this`tokens
      ensures AsStore(State()) == Refresh(AsStore(old(State())), PLATFORM, h, newHash, true)
      ensures r.Ok? <==>
        Redeemable(AsStore(old(State())), PLATFORM, h) && IsActive(AsStore(old(State())), PLATFORM, old(tokens)[h].user)
      ensures r.Ok? ==> r.value == old(tokens)[h].user
      ensures r == Err(BadToken) <==> !Redeemable(AsStore(old(State())), PLATFORM, h)
    {
      if h !in tokens || !(tokens[h].expiresAt > now) { return Err(BadToken); }
      var user := tokens[h].user;
      tokens := map k | k in tokens && k != h :: tokens[k];
      if user !in suspended { return Err(NoAccount); }
      if suspended[user] { return Err(NotActive); }
      tokens := tokens[newHash := Session(user, now + ttl)];
      r := Ok(user);
    }
  }
}
