/**
 Token requests interleaved at the granularity of their SQL statements. A history records every token that
 was stored or redeemed, and every revocation; the theorems are about the order of these events.
 */
module TokenInterleaving {
  import opened Common
  import opened RefreshTokens

  datatype Event =
    | Accepted(service: Id, user: Id, requested: Option<Json>)
    | Issued(hash: Hash, service: Id, user: Id, claims: Claims, parent: Option<Hash>, at: int, ttl: int)
    | Redeemed(hash: Hash, service: Id, user: Id, claims: Claims, at: int)
    | LoggedOut(hash: Hash, service: Id)
    | Revoked(user: Id)

  /** A login or registration about to store its token, or a refresh that has consumed `token`. */
  datatype Task =
    | Issuing(service: Id, user: Id, claims: Claims, parent: Option<Hash>)
    | Consumed(token: Hash, service: Id, user: Id, claims: Claims)

  datatype Config = Config(s: Store, tasks: map<Id, Task>, log: seq<Event>)

  datatype Step =
    | LoginChecked(task: Id, service: Id, user: Id, requested: Option<Json>)
    | Register(task: Id, service: Id, user: Id, requested: Option<Json>)
    | Consume(task: Id, service: Id, h: Hash)
    | CheckUser(task: Id)
    | Issue(task: Id, h: Hash)
    | Logout(service: Id, h: Hash)
    | ChangeStatus(service: Id, user: Id, status: string)
    | Revoke(user: Id)
    | Die(task: Id)
    | Pass(seconds: nat)

  function Drop(m: map<Id, Task>, t: Id): map<Id, Task> {
    map k | k in m && k != t :: m[k]
  }

  ghost predicate NeverIssued(log: seq<Event>, h: Hash) {
    forall e <- log :: e.Issued? ==> e.hash != h
  }

  ghost predicate Enabled(c: Config, step: Step) {
    match step
    case LoginChecked(t, service, user, requested) =>
      t !in c.tasks && IsActive(c.s, service, user) && ResolveAdditionalClaims(requested).Ok?
    case Register(t, service, user, requested) =>
      t !in c.tasks && user !in c.s.users && ResolveAdditionalClaims(requested).Ok?
    case Consume(t, service, h) => t !in c.tasks && Redeemable(c.s, service, h)
    case CheckUser(t) => t in c.tasks && c.tasks[t].Consumed?
    case Issue(t, h) => t in c.tasks && c.tasks[t].Issuing? && NeverIssued(c.log, h)
    case Die(t) => t in c.tasks
    case _ => true
  }

  ghost function Apply(c: Config, step: Step): Config
    requires Enabled(c, step)
  {
    match step
    case LoginChecked(t, service, user, requested) =>
      c.(tasks := c.tasks[t := Issuing(service, user, ResolveAdditionalClaims(requested).value, None)],
         log := c.log + [Accepted(service, user, requested)])
    case Register(t, service, user, requested) =>
      c.(s := c.s.(users := c.s.users[user := User(service, ACTIVE)]),
         tasks := c.tasks[t := Issuing(service, user, ResolveAdditionalClaims(requested).value, None)],
         log := c.log + [Accepted(service, user, requested)])
    case Consume(t, service, h) =>
      var token := c.s.tokens[h];
      Config(RemoveToken(c.s, h),
             c.tasks[t := Consumed(h, service, token.user, token.claims)],
             c.log + [Redeemed(h, service, token.user, token.claims, c.s.now)])
    case CheckUser(t) =>
      var k := c.tasks[t];
      if IsActive(c.s, k.service, k.user)
      then c.(tasks := c.tasks[t := Issuing(k.service, k.user, k.claims, Some(k.token))])
      else c.(tasks := Drop(c.tasks, t))
    case Issue(t, h) =>
      var k := c.tasks[t];
      Config(StoreToken(c.s, h, k.service, k.user, k.claims),
             Drop(c.tasks, t),
             c.log + [Issued(h, k.service, k.user, k.claims, k.parent, c.s.now, c.s.ttl)])
    case Logout(service, h) =>
      c.(s := if h in c.s.tokens && c.s.tokens[h].service == service then RemoveToken(c.s, h) else c.s,
         log := c.log + [LoggedOut(h, service)])
    case ChangeStatus(service, user, status) => c.(s := SetStatus(c.s, service, user, status))
    case Revoke(user) => c.(s := RevokeUser(c.s, user), log := c.log + [Revoked(user)])
    case Die(t) => c.(tasks := Drop(c.tasks, t))
    case Pass(seconds) => c.(s := c.s.(now := c.s.now + seconds))
  }

  ghost predicate IsRun(c: Config, steps: seq<Step>)
    decreases |steps|
  {
    |steps| == 0 || (Enabled(c, steps[0]) && IsRun(Apply(c, steps[0]), steps[1..]))
  }

  ghost function After(c: Config, steps: seq<Step>): Config
    requires IsRun(c, steps)
    decreases |steps|
  {
    if |steps| == 0 then c else After(Apply(c, steps[0]), steps[1..])
  }

  ghost predicate Initial(c: Config) {
    c.s.tokens == map[] && c.tasks == map[] && c.log == []
  }

  // ---------- what the history always looks like ----------

  /** No event after position `i` ends the token `h` of `user` at `service`. */
  ghost predicate Undisturbed(log: seq<Event>, i: nat, end: nat, h: Hash, service: Id, user: Id) {
    forall k :: i < k < end && k < |log| ==>
      && !(log[k].Redeemed? && log[k].hash == h)
      && log[k] != LoggedOut(h, service)
      && log[k] != Revoked(user)
  }

  ghost predicate IssuedAt(log: seq<Event>, i: nat, h: Hash, service: Id, user: Id, claims: Claims) {
    i < |log| && log[i].Issued? && log[i].hash == h && log[i].service == service && log[i].user == user
      && log[i].claims == claims
  }

  /** The token was issued at `i` and nothing has ended it before `end`. */
  ghost predicate LiveSince(log: seq<Event>, i: nat, end: nat, h: Hash, service: Id, user: Id, claims: Claims) {
    IssuedAt(log, i, h, service, user, claims) && Undisturbed(log, i, end, h, service, user)
  }

  ghost predicate RedeemedAt(log: seq<Event>, j: nat, h: Hash, service: Id, user: Id, claims: Claims) {
    && j < |log| && log[j].Redeemed? && log[j].hash == h
    && log[j].service == service && log[j].user == user && log[j].claims == claims
  }

  /** A login or registration was accepted whose filtered claims are `claims`. */
  ghost predicate AcceptedAt(log: seq<Event>, i: nat, service: Id, user: Id, claims: Claims) {
    && i < |log| && log[i].Accepted? && log[i].service == service && log[i].user == user
    && ResolveAdditionalClaims(log[i].requested) == Ok(claims)
  }

  function Expiry(e: Event): int
    requires e.Issued?
  {
    e.at + e.ttl
  }

  ghost predicate SoundRedemption(log: seq<Event>, j: nat)
    requires j < |log| && log[j].Redeemed?
  {
    exists i: nat :: i < j && LiveSince(log, i, j, log[j].hash, log[j].service, log[j].user, log[j].claims)
      && log[j].at < Expiry(log[i])
  }

  ghost predicate SoundIssue(log: seq<Event>, j: nat)
    requires j < |log| && log[j].Issued?
  {
    && Unreserved(log[j].claims)
    && (forall i :: 0 <= i < j && log[i].Issued? ==> log[i].hash != log[j].hash)
    && (log[j].parent.None? ==>
          exists i: nat :: i < j && AcceptedAt(log, i, log[j].service, log[j].user, log[j].claims))
    && (log[j].parent.Some? ==>
          && (exists i: nat :: i < j
               && RedeemedAt(log, i, log[j].parent.value, log[j].service, log[j].user, log[j].claims))
          && (forall i :: 0 <= i < j && log[i].Issued? ==> log[i].parent != log[j].parent))
  }

  ghost predicate SoundLog(log: seq<Event>) {
    && (forall j :: 0 <= j < |log| && log[j].Redeemed? ==> SoundRedemption(log, j))
    && (forall j :: 0 <= j < |log| && log[j].Issued? ==> SoundIssue(log, j))
  }

  ghost predicate SoundToken(c: Config, h: Hash)
    requires h in c.s.tokens
  {
    var t := c.s.tokens[h];
    && AtHome(c.s, t.service, t.user)
    && exists i: nat :: LiveSince(c.log, i, |c.log|, h, t.service, t.user, t.claims) && t.expiresAt == Expiry(c.log[i])
  }

  /** The token a task has consumed, if any. */
  function ParentOf(task: Task): Option<Hash> {
    if task.Consumed? then Some(task.token) else task.parent
  }

  ghost predicate AtHome(s: Store, service: Id, user: Id) {
    user in s.users && s.users[user].service == service
  }

  ghost predicate SoundTask(c: Config, t: Id)
    requires t in c.tasks
  {
    var k := c.tasks[t];
    && Unreserved(k.claims) && AtHome(c.s, k.service, k.user)
    && (ParentOf(k).None? ==> exists i: nat :: AcceptedAt(c.log, i, k.service, k.user, k.claims))
    && (ParentOf(k).Some? ==>
          && (exists i: nat :: RedeemedAt(c.log, i, ParentOf(k).value, k.service, k.user, k.claims))
          && (forall e <- c.log :: e.Issued? ==> e.parent != ParentOf(k)))
  }

  ghost predicate Inv(c: Config) {
    && SoundLog(c.log)
    && (forall h <- c.s.tokens :: SoundToken(c, h))
    && (forall t <- c.tasks :: SoundTask(c, t))
    && (forall t <- c.tasks, u <- c.tasks :: t != u && ParentOf(c.tasks[t]).Some? ==>
         ParentOf(c.tasks[t]) != ParentOf(c.tasks[u]))
  }

  // ---------- appending an event ----------

  lemma AppendKeepsSound(log: seq<Event>, e: Event)
    requires SoundLog(log)
    requires e.Redeemed? ==> SoundRedemption(log + [e], |log|)
    requires e.Issued? ==> SoundIssue(log + [e], |log|)
    ensures SoundLog(log + [e])
  {
    var l := log + [e];
    forall j | 0 <= j < |l| && l[j].Redeemed? ensures SoundRedemption(l, j) {
      if j < |log| {
        assert SoundRedemption(log, j);
        var i: nat :| i < j && LiveSince(log, i, j, log[j].hash, log[j].service, log[j].user, log[j].claims)
          && log[j].at < Expiry(log[i]);
        assert LiveSince(l, i, j, l[j].hash, l[j].service, l[j].user, l[j].claims);
      }
    }
    forall j | 0 <= j < |l| && l[j].Issued? ensures SoundIssue(l, j) {
      if j < |log| {
        assert SoundIssue(log, j);
        if l[j].parent.Some? {
          var i: nat :| i < j && RedeemedAt(log, i, log[j].parent.value, log[j].service, log[j].user, log[j].claims);
          assert RedeemedAt(l, i, l[j].parent.value, l[j].service, l[j].user, l[j].claims);
        } else {
          var i: nat :| i < j && AcceptedAt(log, i, log[j].service, log[j].user, log[j].claims);
          assert AcceptedAt(l, i, l[j].service, l[j].user, l[j].claims);
        }
      }
    }
  }

  /** Users may come, but none goes or changes its service. */
  ghost predicate UsersKept(s: Store, s': Store) {
    forall u <- s.users :: u in s'.users && s'.users[u].service == s.users[u].service
  }

  /** An event that does not concern a stored token leaves it live. */
  lemma TokenSurvives(c: Config, d: Config, h: Hash, e: Event)
    requires h in c.s.tokens && SoundToken(c, h) && d.log == c.log + [e] && UsersKept(c.s, d.s)
    requires h in d.s.tokens && d.s.tokens[h] == c.s.tokens[h]
    requires !(e.Redeemed? && e.hash == h) && e != LoggedOut(h, c.s.tokens[h].service)
      && e != Revoked(c.s.tokens[h].user)
    ensures SoundToken(d, h)
  {
    var t := c.s.tokens[h];
    var i: nat :| LiveSince(c.log, i, |c.log|, h, t.service, t.user, t.claims) && t.expiresAt == Expiry(c.log[i]);
    assert LiveSince(d.log, i, |d.log|, h, t.service, t.user, t.claims);
  }

  lemma TaskSurvives(c: Config, d: Config, t: Id, e: Event)
    requires t in c.tasks && SoundTask(c, t) && t in d.tasks && d.tasks[t] == c.tasks[t] && d.log == c.log + [e]
    requires UsersKept(c.s, d.s)
    requires e.Issued? && ParentOf(c.tasks[t]).Some? ==> e.parent != ParentOf(c.tasks[t])
    ensures SoundTask(d, t)
  {
    var k := c.tasks[t];
    if ParentOf(k).Some? {
      var i: nat :| RedeemedAt(c.log, i, ParentOf(k).value, k.service, k.user, k.claims);
      assert RedeemedAt(d.log, i, ParentOf(k).value, k.service, k.user, k.claims);
    } else {
      var i: nat :| AcceptedAt(c.log, i, k.service, k.user, k.claims);
      assert AcceptedAt(d.log, i, k.service, k.user, k.claims);
    }
  }

  // ---------- every step keeps the invariant ----------

  lemma ConsumeKeepsLog(c: Config, service: Id, h: Hash)
    requires Inv(c) && Redeemable(c.s, service, h)
    ensures SoundLog(c.log + [Redeemed(h, service, c.s.tokens[h].user, c.s.tokens[h].claims, c.s.now)])
    ensures Unreserved(c.s.tokens[h].claims) && AtHome(c.s, service, c.s.tokens[h].user)
  {
    var k := c.s.tokens[h];
    var log := c.log + [Redeemed(h, service, k.user, k.claims, c.s.now)];
    assert SoundToken(c, h);
    var i: nat :| LiveSince(c.log, i, |c.log|, h, k.service, k.user, k.claims) && k.expiresAt == Expiry(c.log[i]);
    assert LiveSince(log, i, |c.log|, h, k.service, k.user, k.claims);
    assert SoundIssue(c.log, i);
    assert SoundRedemption(log, |c.log|);
    AppendKeepsSound(c.log, log[|c.log|]);
  }

  lemma ConsumeKeepsTasks(c: Config, t: Id, service: Id, h: Hash)
    requires Inv(c) && Enabled(c, Consume(t, service, h)) && Unreserved(c.s.tokens[h].claims)
    requires AtHome(c.s, service, c.s.tokens[h].user)
    ensures forall x <- Apply(c, Consume(t, service, h)).tasks :: SoundTask(Apply(c, Consume(t, service, h)), x)
    ensures forall x <- c.tasks :: ParentOf(c.tasks[x]) != Some(h)
  {
    var d := Apply(c, Consume(t, service, h));
    var k := c.s.tokens[h];
    NotYetRedeemed(c, h);
    assert RedeemedAt(d.log, |c.log|, h, service, k.user, k.claims);
    forall x <- d.tasks ensures SoundTask(d, x) {
      if x != t { TaskSurvives(c, d, x, d.log[|c.log|]); }
    }
  }

  lemma ConsumeKeepsInv(c: Config, t: Id, service: Id, h: Hash)
    requires Inv(c) && Enabled(c, Consume(t, service, h))
    ensures Inv(Apply(c, Consume(t, service, h)))
  {
    var d := Apply(c, Consume(t, service, h));
    ConsumeKeepsLog(c, service, h);
    ConsumeKeepsTasks(c, t, service, h);
    forall x <- d.s.tokens ensures SoundToken(d, x) { TokenSurvives(c, d, x, d.log[|c.log|]); }
  }

  /** A stored token has not been redeemed, so it is no token's parent. */
  lemma NotYetRedeemed(c: Config, h: Hash)
    requires Inv(c) && h in c.s.tokens
    ensures forall e <- c.log :: !(e.Redeemed? && e.hash == h)
    ensures forall e <- c.log :: e.Issued? ==> e.parent != Some(h)
    ensures forall x <- c.tasks :: ParentOf(c.tasks[x]) != Some(h)
  {
    var t := c.s.tokens[h];
    assert SoundToken(c, h);
    var i: nat :| LiveSince(c.log, i, |c.log|, h, t.service, t.user, t.claims);
    forall j | 0 <= j < |c.log| && c.log[j].Redeemed? ensures c.log[j].hash != h {
      assert SoundRedemption(c.log, j);
      var i': nat :| i' < j && LiveSince(c.log, i', j, c.log[j].hash, c.log[j].service, c.log[j].user, c.log[j].claims);
      assert SoundIssue(c.log, i) && SoundIssue(c.log, i');
    }
    forall j | 0 <= j < |c.log| && c.log[j].Issued? ensures c.log[j].parent != Some(h) {
      assert SoundIssue(c.log, j);
    }
    forall x <- c.tasks ensures ParentOf(c.tasks[x]) != Some(h) {
      assert SoundTask(c, x);
    }
  }

  lemma IssueKeepsLog(c: Config, t: Id, h: Hash)
    requires Inv(c) && Enabled(c, Issue(t, h))
    ensures SoundLog(Apply(c, Issue(t, h)).log)
  {
    var k := c.tasks[t];
    var e := Issued(h, k.service, k.user, k.claims, k.parent, c.s.now, c.s.ttl);
    var log := c.log + [e];
    assert SoundTask(c, t);
    if k.parent.Some? {
      var i: nat :| RedeemedAt(c.log, i, k.parent.value, k.service, k.user, k.claims);
      assert RedeemedAt(log, i, k.parent.value, k.service, k.user, k.claims);
    } else {
      var i: nat :| AcceptedAt(c.log, i, k.service, k.user, k.claims);
      assert AcceptedAt(log, i, k.service, k.user, k.claims);
    }
    AppendKeepsSound(c.log, e);
  }

  lemma IssueKeepsInv(c: Config, t: Id, h: Hash)
    requires Inv(c) && Enabled(c, Issue(t, h))
    ensures Inv(Apply(c, Issue(t, h)))
  {
    var d := Apply(c, Issue(t, h));
    var k := c.tasks[t];
    IssueKeepsLog(c, t, h);
    assert SoundTask(c, t);
    assert LiveSince(d.log, |c.log|, |d.log|, h, k.service, k.user, k.claims);
    forall x <- d.s.tokens ensures SoundToken(d, x) {
      if x != h { TokenSurvives(c, d, x, d.log[|c.log|]); }
    }
    forall x <- d.tasks ensures SoundTask(d, x) { TaskSurvives(c, d, x, d.log[|c.log|]); }
  }

  lemma AcceptKeepsTasks(c: Config, step: Step)
    requires Inv(c) && Enabled(c, step) && (step.LoginChecked? || step.Register?)
    ensures forall x <- Apply(c, step).tasks :: SoundTask(Apply(c, step), x)
  {
    var d := Apply(c, step);
    assert AcceptedAt(d.log, |c.log|, step.service, step.user, d.tasks[step.task].claims);
    forall x <- d.tasks ensures SoundTask(d, x) {
      if x != step.task { TaskSurvives(c, d, x, d.log[|c.log|]); }
    }
  }

  lemma AcceptKeepsTokens(c: Config, step: Step)
    requires Inv(c) && Enabled(c, step) && (step.LoginChecked? || step.Register?)
    ensures forall x <- Apply(c, step).s.tokens :: SoundToken(Apply(c, step), x)
  {
    var d := Apply(c, step);
    forall x <- d.s.tokens ensures SoundToken(d, x) { TokenSurvives(c, d, x, d.log[|c.log|]); }
  }

  lemma AcceptKeepsInv(c: Config, step: Step)
    requires Inv(c) && Enabled(c, step) && (step.LoginChecked? || step.Register?)
    ensures Inv(Apply(c, step))
  {
    AcceptKeepsTokens(c, step);
    AcceptKeepsTasks(c, step);
    AppendKeepsSound(c.log, Accepted(step.service, step.user, step.requested));
  }

  lemma EndingKeepsInv(c: Config, step: Step)
    requires Inv(c) && (step.Logout? || step.Revoke?)
    ensures Inv(Apply(c, step))
  {
    var d := Apply(c, step);
    var e := d.log[|c.log|];
    AppendKeepsSound(c.log, e);
    forall x <- d.s.tokens ensures SoundToken(d, x) { TokenSurvives(c, d, x, e); }
    forall x <- d.tasks ensures SoundTask(d, x) { TaskSurvives(c, d, x, e); }
  }

  /** A step that touches neither history nor tokens, and brings no new task. */
  lemma SameHistoryKeepsInv(c: Config, d: Config)
    requires Inv(c) && d.log == c.log && d.s.tokens == c.s.tokens && UsersKept(c.s, d.s)
    requires forall x <- d.tasks :: x in c.tasks && SameWork(c.tasks[x], d.tasks[x])
    ensures Inv(d)
  {
    forall x <- d.s.tokens ensures SoundToken(d, x) { assert SoundToken(c, x); }
    forall x <- d.tasks ensures SoundTask(d, x) { assert SoundTask(c, x); }
  }

  ghost predicate SameWork(k: Task, l: Task) {
    k.service == l.service && k.user == l.user && k.claims == l.claims && ParentOf(k) == ParentOf(l)
  }

  lemma QuietKeepsInv(c: Config, step: Step)
    requires Inv(c) && Enabled(c, step)
    requires step.CheckUser? || step.ChangeStatus? || step.Die? || step.Pass?
    ensures Inv(Apply(c, step))
  {
    SameHistoryKeepsInv(c, Apply(c, step));
  }

  lemma StepKeepsInv(c: Config, step: Step)
    requires Inv(c) && Enabled(c, step)
    ensures Inv(Apply(c, step))
  {
    match step
    case Consume(t, service, h) => ConsumeKeepsInv(c, t, service, h);
    case Issue(t, h) => IssueKeepsInv(c, t, h);
    case LoginChecked(t, service, user, requested) => AcceptKeepsInv(c, step);
    case Register(t, service, user, requested) => AcceptKeepsInv(c, step);
    case Logout(service, h) => EndingKeepsInv(c, step);
    case Revoke(user) => EndingKeepsInv(c, step);
    case _ => QuietKeepsInv(c, step);
  }

  lemma {:induction false} RunKeepsInv(c: Config, steps: seq<Step>)
    requires Inv(c) && IsRun(c, steps)
    ensures Inv(After(c, steps))
    decreases |steps|
  {
    if |steps| > 0 {
      StepKeepsInv(c, steps[0]);
      RunKeepsInv(Apply(c, steps[0]), steps[1..]);
    }
  }

  /** The history of every run from empty tables is sound. */
  lemma HistoryIsSound(c: Config, steps: seq<Step>)
    requires Initial(c) && IsRun(c, steps)
    ensures SoundLog(After(c, steps).log)
  {
    RunKeepsInv(c, steps);
  }

  lemma OneIssue(log: seq<Event>, i: nat, j: nat)
    requires SoundLog(log) && i < |log| && j < |log| && log[i].Issued? && log[j].Issued? && log[i].hash == log[j].hash
    ensures i == j
  {
    assert SoundIssue(log, i) && SoundIssue(log, j);
  }

  /** The issue of a redeemed token, and that nothing ended the token in between. */
  lemma IssueOfRedeemed(log: seq<Event>, j: nat) returns (i: nat)
    requires SoundLog(log) && j < |log| && log[j].Redeemed?
    ensures i < j && LiveSince(log, i, j, log[j].hash, log[j].service, log[j].user, log[j].claims)
    ensures log[j].at < Expiry(log[i])
  {
    assert SoundRedemption(log, j);
    i :| i < j && LiveSince(log, i, j, log[j].hash, log[j].service, log[j].user, log[j].claims)
      && log[j].at < Expiry(log[i]);
  }

  // ---------- theorems about every run ----------

  /** The history of a run from empty tables. */
  ghost function History(c: Config, steps: seq<Step>): seq<Event>
    requires IsRun(c, steps)
  {
    After(c, steps).log
  }

  /** A token is redeemed at most once, between its issue and its expiry, at its own service and for its user. */
  lemma RedeemedOnce(c: Config, steps: seq<Step>, j: nat)
    requires Initial(c) && IsRun(c, steps) && j < |History(c, steps)| && History(c, steps)[j].Redeemed?
    ensures var log := History(c, steps);
      && (forall k :: 0 <= k < |log| && k != j && log[k].Redeemed? ==> log[k].hash != log[j].hash)
      && (exists i: nat :: i < j && IssuedAt(log, i, log[j].hash, log[j].service, log[j].user, log[j].claims)
            && log[j].at < log[i].at + log[i].ttl)
  {
    HistoryIsSound(c, steps);
    var log := History(c, steps);
    var i := IssueOfRedeemed(log, j);
    forall k | 0 <= k < |log| && k != j && log[k].Redeemed? ensures log[k].hash != log[j].hash {
      var i' := IssueOfRedeemed(log, k);
      if log[k].hash == log[j].hash {
        OneIssue(log, i, i');
      }
    }
  }

  /** A token stored before its user was revoked, or it was logged out at its service, is not redeemed afterwards. */
  lemma EndedIsNotRedeemed(c: Config, steps: seq<Step>, i: nat, r: nat, j: nat)
    requires Initial(c) && IsRun(c, steps) && i < r < j < |History(c, steps)|
    requires var log := History(c, steps);
      && log[i].Issued? && log[j].Redeemed?
      && (log[r] == Revoked(log[i].user) || log[r] == LoggedOut(log[i].hash, log[i].service))
    ensures History(c, steps)[j].hash != History(c, steps)[i].hash
  {
    HistoryIsSound(c, steps);
    var log := History(c, steps);
    var i' := IssueOfRedeemed(log, j);
    if log[j].hash == log[i].hash {
      OneIssue(log, i, i');
    }
  }

  /** Every issued token that nothing has ended since is in the table as it was issued. */
  ghost predicate LiveTokensStored(c: Config) {
    forall i: nat :: LiveAt(c.log, i) ==>
      c.log[i].hash in c.s.tokens && c.s.tokens[c.log[i].hash] == TokenOf(c.log[i])
  }

  ghost predicate LiveAt(log: seq<Event>, i: nat) {
    i < |log| && log[i].Issued? && Undisturbed(log, i, |log|, log[i].hash, log[i].service, log[i].user)
  }

  function TokenOf(e: Event): Token
    requires e.Issued?
  {
    Token(e.service, e.user, e.claims, e.at + e.ttl)
  }

  lemma UndisturbedBefore(log: seq<Event>, more: seq<Event>, i: nat, h: Hash, service: Id, user: Id)
    requires i < |log| && Undisturbed(log + more, i, |log + more|, h, service, user)
    ensures Undisturbed(log, i, |log|, h, service, user)
  {
    assert forall k :: i < k < |log| ==> (log + more)[k] == log[k];
  }

  lemma StepKeepsLiveTokens(c: Config, step: Step)
    requires LiveTokensStored(c) && Enabled(c, step)
    ensures LiveTokensStored(Apply(c, step))
  {
    var d := Apply(c, step);
    var more := d.log[|c.log|..];
    assert d.log == c.log + more && |more| <= 1;
    forall i: nat | LiveAt(d.log, i)
      ensures d.log[i].hash in d.s.tokens && d.s.tokens[d.log[i].hash] == TokenOf(d.log[i])
    {
      if i < |c.log| {
        UndisturbedBefore(c.log, more, i, d.log[i].hash, d.log[i].service, d.log[i].user);
        assert LiveAt(c.log, i);
        assert c.log[i] in c.log;
        if |more| > 0 {
          assert d.log[|c.log|] == more[0];
        }
      }
    }
  }

  lemma {:induction false} RunKeepsLiveTokens(c: Config, steps: seq<Step>)
    requires LiveTokensStored(c) && IsRun(c, steps)
    ensures LiveTokensStored(After(c, steps))
    decreases |steps|
  {
    if |steps| > 0 {
      StepKeepsLiveTokens(c, steps[0]);
      RunKeepsLiveTokens(Apply(c, steps[0]), steps[1..]);
    }
  }

  /**
   The converse: in every run, a token that was issued, and since then neither redeemed nor logged out at its
   service nor revoked for its user, is in the table, and can be redeemed until its time to live is over.
   */
  lemma LiveTokenIsRedeemable(c: Config, steps: seq<Step>, i: nat, t: Id)
    requires Initial(c) && IsRun(c, steps) && i < |History(c, steps)| && History(c, steps)[i].Issued?
    requires t !in After(c, steps).tasks
    requires forall k :: i < k < |History(c, steps)| ==>
      && var (e, k') := (History(c, steps)[i], History(c, steps)[k]);
      && !(k'.Redeemed? && k'.hash == e.hash) && k' != LoggedOut(e.hash, e.service) && k' != Revoked(e.user)
    ensures var (d, e) := (After(c, steps), History(c, steps)[i]);
      && e.hash in d.s.tokens && d.s.tokens[e.hash] == Token(e.service, e.user, e.claims, e.at + e.ttl)
      && (d.s.now < e.at + e.ttl <==> Enabled(d, Consume(t, e.service, e.hash)))
  {
    RunKeepsLiveTokens(c, steps);
    assert LiveAt(After(c, steps).log, i);
  }

  // ---------- suspended users ----------

  /** The account is not active, and no token of it is about to be stored. */
  ghost predicate Barred(c: Config, user: Id) {
    && user in c.s.users && c.s.users[user].status != "active"
    && forall t <- c.tasks :: c.tasks[t].user == user ==> c.tasks[t].Consumed?
  }

  lemma StepKeepsBarred(c: Config, step: Step, user: Id)
    requires Enabled(c, step) && Barred(c, user)
    requires step.ChangeStatus? && step.user == user ==> step.status != "active"
    ensures Barred(Apply(c, step), user) && c.log <= Apply(c, step).log
    ensures forall j :: |c.log| <= j < |Apply(c, step).log| && Apply(c, step).log[j].Issued? ==>
      Apply(c, step).log[j].user != user
  {}

  /** From then on a user gets no token in any run, by login or by refresh, unless the account is made active again. */
  lemma {:induction false} BarredGetsNoToken(c: Config, steps: seq<Step>, user: Id)
    requires IsRun(c, steps) && Barred(c, user)
    requires forall s <- steps :: s.ChangeStatus? && s.user == user ==> s.status != "active"
    ensures c.log <= After(c, steps).log
    ensures forall j :: |c.log| <= j < |After(c, steps).log| && After(c, steps).log[j].Issued? ==>
      After(c, steps).log[j].user != user
    decreases |steps|
  {
    if |steps| > 0 {
      assert steps[0] in steps;
      StepKeepsBarred(c, steps[0], user);
      BarredGetsNoToken(Apply(c, steps[0]), steps[1..], user);
    }
  }

  /** A token has at most one successor, so a chain never forks. */
  lemma OneSuccessor(c: Config, steps: seq<Step>, i: nat, j: nat)
    requires Initial(c) && IsRun(c, steps) && i < |History(c, steps)| && j < |History(c, steps)|
    requires var log := History(c, steps);
      log[i].Issued? && log[j].Issued? && log[i].parent.Some? && log[i].parent == log[j].parent
    ensures i == j
  {
    HistoryIsSound(c, steps);
    assert SoundIssue(History(c, steps), i) && SoundIssue(History(c, steps), j);
  }

  /** `chain` lists positions of issues, each refreshed from the one before. */
  ghost predicate IsChain(log: seq<Event>, chain: seq<nat>) {
    && (forall n :: 0 <= n < |chain| ==> chain[n] < |log| && log[chain[n]].Issued?)
    && (forall n :: 0 < n < |chain| ==> log[chain[n]].parent == Some(log[chain[n - 1]].hash))
  }

  /** A refreshed token was issued after its parent was redeemed, with the same service, user and claims. */
  lemma ParentOfIssue(log: seq<Event>, p: nat, j: nat) returns (q: nat)
    requires SoundLog(log) && p < |log| && j < |log| && log[p].Issued? && log[j].Issued?
    requires log[j].parent == Some(log[p].hash)
    ensures p < q < j && log[q].Redeemed? && log[q].hash == log[p].hash
    ensures LiveSince(log, p, q, log[p].hash, log[j].service, log[j].user, log[j].claims)
  {
    var e := log[j];
    assert SoundIssue(log, j);
    q :| q < j && RedeemedAt(log, q, e.parent.value, e.service, e.user, e.claims);
    var i := IssueOfRedeemed(log, q);
    OneIssue(log, i, p);
  }

  /** Along a refresh chain the service, the user and the custom claims stay those of its first token. */
  lemma {:induction false} ChainCarriesClaims(log: seq<Event>, chain: seq<nat>)
    requires SoundLog(log) && IsChain(log, chain) && |chain| > 0
    ensures var (first, last) := (log[chain[0]], log[chain[|chain| - 1]]);
      && last.claims == first.claims && last.service == first.service && last.user == first.user
      && chain[0] <= chain[|chain| - 1]
  {
    var n := |chain| - 1;
    if n > 0 {
      ChainCarriesClaims(log, chain[..n]);
      var _ := ParentOfIssue(log, chain[n - 1], chain[n]);
    }
  }

  /** Every issued token ends a refresh chain that starts at a login or registration. */
  lemma {:induction false} ChainOfIssue(log: seq<Event>, j: nat) returns (chain: seq<nat>)
    requires SoundLog(log) && j < |log| && log[j].Issued?
    ensures IsChain(log, chain) && |chain| > 0 && chain[|chain| - 1] == j && log[chain[0]].parent.None?
    decreases j
  {
    if log[j].parent.None? {
      chain := [j];
    } else {
      var p := ParentIssue(log, j);
      var before := ChainOfIssue(log, p);
      chain := before + [j];
    }
  }

  lemma ParentIssue(log: seq<Event>, j: nat) returns (p: nat)
    requires SoundLog(log) && j < |log| && log[j].Issued? && log[j].parent.Some?
    ensures p < j && log[p].Issued? && log[j].parent == Some(log[p].hash)
  {
    var e := log[j];
    assert SoundIssue(log, j);
    var q: nat :| q < j && RedeemedAt(log, q, e.parent.value, e.service, e.user, e.claims);
    p := IssueOfRedeemed(log, q);
  }

  /** The request a chain goes back to, whose claims each of its tokens carries. */
  lemma RequestOfChain(log: seq<Event>, chain: seq<nat>) returns (a: nat)
    requires SoundLog(log) && IsChain(log, chain) && |chain| > 0 && log[chain[0]].parent.None?
    ensures var last := log[chain[|chain| - 1]];
      a < chain[0] && AcceptedAt(log, a, last.service, last.user, last.claims) && Unreserved(last.claims)
  {
    ChainCarriesClaims(log, chain);
    var first := log[chain[0]];
    assert SoundIssue(log, chain[0]);
    a :| a < chain[0] && AcceptedAt(log, a, first.service, first.user, first.claims);
  }

  /**
   In every run, each token ever issued goes back along a refresh chain to an accepted login or registration of
   its user at its service, and carries exactly that request's claims less the reserved names.
   */
  lemma ClaimsComeFromLogin(c: Config, steps: seq<Step>, j: nat) returns (chain: seq<nat>, a: nat)
    requires Initial(c) && IsRun(c, steps) && j < |History(c, steps)| && History(c, steps)[j].Issued?
    ensures var (log, e) := (History(c, steps), History(c, steps)[j]);
      && IsChain(log, chain) && |chain| > 0 && chain[|chain| - 1] == j
      && a < chain[0] && AcceptedAt(log, a, e.service, e.user, e.claims) && Unreserved(e.claims)
  {
    HistoryIsSound(c, steps);
    chain := ChainOfIssue(History(c, steps), j);
    a := RequestOfChain(History(c, steps), chain);
  }

  /** So does every token that is stored. */
  lemma StoredClaimsComeFromLogin(c: Config, steps: seq<Step>, h: Hash) returns (a: nat)
    requires Initial(c) && IsRun(c, steps) && h in After(c, steps).s.tokens
    ensures var t := After(c, steps).s.tokens[h];
      AcceptedAt(History(c, steps), a, t.service, t.user, t.claims) && Unreserved(t.claims)
  {
    RunKeepsInv(c, steps);
    var (d, log) := (After(c, steps), History(c, steps));
    assert SoundToken(d, h);
    var t := d.s.tokens[h];
    var i: nat :| LiveSince(log, i, |log|, h, t.service, t.user, t.claims);
    var _, accepted := ClaimsComeFromLogin(c, steps, i);
    a := accepted;
  }

  // ---------- what a revocation does not end ----------

  /** The refresh by which a chain crosses a revocation redeemed before it, and stored after it. */
  ghost predicate RefreshInFlight(log: seq<Event>, chain: seq<nat>, r: nat, n: nat, q: nat) {
    && n + 1 < |chain| && chain[n] < q < r < chain[n + 1] && r < |log| && chain[n] < |log|
    && log[q].Redeemed? && log[chain[n]].Issued? && log[q].hash == log[chain[n]].hash
  }

  /** A chain that goes on across a revocation of its user crosses it with a refresh in flight. */
  lemma {:induction false} ChainAcrossRevoke(log: seq<Event>, chain: seq<nat>, r: nat) returns (n: nat, q: nat)
    requires SoundLog(log) && IsChain(log, chain) && |chain| > 1
    requires chain[0] < r < chain[|chain| - 1] && log[r] == Revoked(log[chain[0]].user)
    ensures RefreshInFlight(log, chain, r, n, q)
  {
    var m := |chain| - 2;
    assert log[chain[m]].Issued? && chain[m] != r;
    if r < chain[m] {
      n, q := ChainAcrossRevoke(log, chain[..m + 1], r);
    } else {
      n := m;
      ChainCarriesClaims(log, chain[..m + 1]);
      q := LinkAcrossRevoke(log, chain[m], chain[m + 1], r);
    }
  }

  lemma LinkAcrossRevoke(log: seq<Event>, p: nat, j: nat, r: nat) returns (q: nat)
    requires SoundLog(log) && p < r < j < |log| && log[p].Issued? && log[j].Issued?
    requires log[j].parent == Some(log[p].hash) && log[r] == Revoked(log[p].user)
    ensures p < q < r && log[q].Redeemed? && log[q].hash == log[p].hash
  {
    q := ParentOfIssue(log, p, j);
    assert q != r && !(p < r < q);
  }

  /**
   In every run, a token that is redeemed after a revocation of its user goes back, along a chain, to a request
   that was accepted after the revocation, or to a login or a refresh that was in flight at it.
   */
  lemma RedeemedAfterRevoke(c: Config, steps: seq<Step>, r: nat, j: nat) returns (chain: seq<nat>, a: nat)
    requires Initial(c) && IsRun(c, steps) && r < j < |History(c, steps)|
    requires History(c, steps)[j].Redeemed? && History(c, steps)[r] == Revoked(History(c, steps)[j].user)
    ensures var (log, e) := (History(c, steps), History(c, steps)[j]);
      && IsChain(log, chain) && |chain| > 0 && a < chain[0]
      && IssuedAt(log, chain[|chain| - 1], e.hash, e.service, e.user, e.claims)
      && AcceptedAt(log, a, e.service, e.user, e.claims)
      && (r < a || a < r < chain[0] || exists n, q :: RefreshInFlight(log, chain, r, n, q))
  {
    HistoryIsSound(c, steps);
    var log := History(c, steps);
    var i := IssueOfRedeemed(log, j);
    assert !(i < r < j) && i != r;
    chain := ChainOfIssue(log, i);
    a := RequestOfChain(log, chain);
    ChainCarriesClaims(log, chain);
    assert log[chain[0]].Issued? && a != r && chain[0] != r;
    if chain[0] < r {
      var n, q := ChainAcrossRevoke(log, chain, r);
    }
  }

  /**
   Logins in flight exist: whenever a user can log in, a password reset can fall between the check of the old
   password and the storing of the token, which is then as good as any.
   */
  lemma LoginOutlivesReset(c: Config, t: Id, service: Id, user: Id, requested: Option<Json>, h: Hash)
    requires Enabled(c, LoginChecked(t, service, user, requested)) && NeverIssued(c.log, h) && c.s.ttl > 0
    ensures var steps := [LoginChecked(t, service, user, requested)] + ([Revoke(user)] + [Issue(t, h)]);
      && IsRun(c, steps)
      && Redeemable(After(c, steps).s, service, h) && After(c, steps).s.tokens[h].user == user
      && IsActive(After(c, steps).s, service, user)
  {
    var c1 := Apply(c, LoginChecked(t, service, user, requested));
    var c2 := Apply(c1, Revoke(user));
    RunCons(c2, Issue(t, h), []);
    assert [Issue(t, h)] + [] == [Issue(t, h)];
    RunCons(c1, Revoke(user), [Issue(t, h)]);
    RunCons(c, LoginChecked(t, service, user, requested), [Revoke(user)] + [Issue(t, h)]);
  }

  /**
   So do refreshes in flight: whenever a token can be refreshed, a reset can fall between the check of the
   account and the storing of the new token, which is then as good as any.
   */
  lemma RefreshOutlivesReset(c: Config, t: Id, service: Id, h: Hash, newHash: Hash)
    requires t !in c.tasks && Redeemable(c.s, service, h) && IsActive(c.s, service, c.s.tokens[h].user)
    requires NeverIssued(c.log, newHash) && c.s.ttl > 0
    ensures var user := c.s.tokens[h].user;
      var steps := [Consume(t, service, h)] + ([CheckUser(t)] + ([Revoke(user)] + [Issue(t, newHash)]));
      && IsRun(c, steps)
      && Redeemable(After(c, steps).s, service, newHash) && After(c, steps).s.tokens[newHash].user == user
      && IsActive(After(c, steps).s, service, user)
  {
    var user := c.s.tokens[h].user;
    var c1 := Apply(c, Consume(t, service, h));
    var c2 := Apply(c1, CheckUser(t));
    var c3 := Apply(c2, Revoke(user));
    RunCons(c3, Issue(t, newHash), []);
    assert [Issue(t, newHash)] + [] == [Issue(t, newHash)];
    RunCons(c2, Revoke(user), [Issue(t, newHash)]);
    RunCons(c1, CheckUser(t), [Revoke(user)] + [Issue(t, newHash)]);
    RunCons(c, Consume(t, service, h), [CheckUser(t)] + ([Revoke(user)] + [Issue(t, newHash)]));
  }

  // ---------- when a revocation ends all sessions ----------

  /** No request of `user` is being served. */
  ghost predicate Quiet(c: Config, user: Id) {
    forall t <- c.tasks :: c.tasks[t].user != user
  }

  ghost predicate NewRequest(step: Step, user: Id) {
    (step.LoginChecked? || step.Register?) && step.user == user
  }

  ghost predicate RedeemedBy(e: Event, user: Id) {
    e.Redeemed? && e.user == user
  }

  /** From `c` on, no token of `user` is redeemed in any run without a new login or registration of that user. */
  ghost predicate SessionsEnded(c: Config, user: Id) {
    forall steps :: IsRun(c, steps) && (forall s <- steps :: !NewRequest(s, user)) ==>
      forall j :: |c.log| <= j < |After(c, steps).log| ==> !RedeemedBy(After(c, steps).log[j], user)
  }

  /** `user` has no task and no token, or no token of the user can outlive the moment it is stored. */
  ghost predicate Calm(c: Config, user: Id) {
    || (Quiet(c, user) && forall h <- c.s.tokens :: c.s.tokens[h].user != user)
    || (c.s.ttl <= 0 && forall h <- c.s.tokens :: c.s.tokens[h].user == user ==> c.s.tokens[h].expiresAt <= c.s.now)
  }

  lemma StepKeepsCalm(c: Config, step: Step, user: Id)
    requires Enabled(c, step) && Calm(c, user) && !NewRequest(step, user)
    ensures Calm(Apply(c, step), user)
    ensures c.log <= Apply(c, step).log
    ensures forall j :: |c.log| <= j < |Apply(c, step).log| ==> !RedeemedBy(Apply(c, step).log[j], user)
  {}

  lemma {:induction false} CalmRun(c: Config, steps: seq<Step>, user: Id)
    requires IsRun(c, steps) && Calm(c, user) && forall s <- steps :: !NewRequest(s, user)
    ensures c.log <= After(c, steps).log
    ensures forall j :: |c.log| <= j < |After(c, steps).log| ==> !RedeemedBy(After(c, steps).log[j], user)
    decreases |steps|
  {
    if |steps| > 0 {
      assert steps[0] in steps;
      var d := Apply(c, steps[0]);
      StepKeepsCalm(c, steps[0], user);
      CalmRun(d, steps[1..], user);
    }
  }

  lemma {:induction false} FreshHash(log: seq<Event>) returns (h: Hash)
    ensures forall e <- log :: e.Issued? ==> e.hash < h
  {
    h := 0;
    if |log| > 0 {
      h := FreshHash(log[..|log| - 1]);
      var last := log[|log| - 1];
      assert forall e <- log :: e in log[..|log| - 1] || e == last;
      if last.Issued? && last.hash >= h {
        h := last.hash + 1;
      }
    }
  }

  /** A token that is about to be stored can be redeemed afterwards. */
  lemma IssueThenConsume(c: Config, t: Id) returns (steps: seq<Step>)
    requires t in c.tasks && c.tasks[t].Issuing? && c.s.ttl > 0
    ensures IsRun(c, steps) && forall s <- steps :: s.Issue? || s.Consume?
    ensures |After(c, steps).log| == |c.log| + 2
    ensures RedeemedBy(After(c, steps).log[|c.log| + 1], c.tasks[t].user)
  {
    var h := FreshHash(c.log);
    var (issue, consume) := (Issue(t, h), Consume(t, c.tasks[t].service, h));
    var c1 := Apply(c, issue);
    RunCons(c1, consume, []);
    RunCons(c, issue, [consume] + []);
    steps := [issue] + ([consume] + []);
  }

  /** So can the one that a refresh will store, once its user is active. */
  lemma TaskThenRedeemed(c: Config, t: Id) returns (steps: seq<Step>)
    requires t in c.tasks && AtHome(c.s, c.tasks[t].service, c.tasks[t].user) && c.s.ttl > 0
    ensures IsRun(c, steps) && forall s <- steps :: !NewRequest(s, c.tasks[t].user)
    ensures |After(c, steps).log| == |c.log| + 2
    ensures RedeemedBy(After(c, steps).log[|c.log| + 1], c.tasks[t].user)
  {
    var k := c.tasks[t];
    if k.Issuing? {
      steps := IssueThenConsume(c, t);
    } else {
      var (activate, check) := (ChangeStatus(k.service, k.user, ACTIVE), CheckUser(t));
      var c1 := Apply(c, activate);
      var c2 := Apply(c1, check);
      var rest := IssueThenConsume(c2, t);
      RunCons(c1, check, rest);
      RunCons(c, activate, [check] + rest);
      steps := [activate] + ([check] + rest);
    }
  }

  /**
   A suspension or a password reset ends the sessions of its user exactly when no request of that user is in
   flight at it (or tokens expire as they are stored).
   */
  lemma RevocationEndsSessionsExactly(c: Config, user: Id)
    requires Inv(c)
    ensures SessionsEnded(Apply(c, Revoke(user)), user) <==> Quiet(c, user) || c.s.ttl <= 0
  {
    var d := Apply(c, Revoke(user));
    if Quiet(c, user) || c.s.ttl <= 0 {
      forall steps | IsRun(d, steps) && forall s <- steps :: !NewRequest(s, user)
        ensures forall j :: |d.log| <= j < |After(d, steps).log| ==> !RedeemedBy(After(d, steps).log[j], user)
      {
        CalmRun(d, steps, user);
      }
    } else {
      var t :| t in c.tasks && c.tasks[t].user == user;
      assert SoundTask(c, t);
      var steps := TaskThenRedeemed(d, t);
      assert IsRun(d, steps);
    }
  }

  // ---------- the uninterrupted refresh is a run of this machine ----------

  lemma RefreshIsARun(c: Config, t: Id, service: Id, h: Hash, newHash: Hash, secretOk: bool)
    requires t !in c.tasks && Redeemable(c.s, service, h) && NeverIssued(c.log, newHash)
    ensures var checked := if IsActive(c.s, service, c.s.tokens[h].user)
                           then [CheckUser(t), if secretOk then Issue(t, newHash) else Die(t)]
                           else [CheckUser(t)];
      var steps := [Consume(t, service, h)] + checked;
      && IsRun(c, steps)
      && After(c, steps).s == Refresh(c.s, service, h, newHash, secretOk) && After(c, steps).tasks == c.tasks
  {
    var c1 := Apply(c, Consume(t, service, h));
    var c2 := Apply(c1, CheckUser(t));
    if IsActive(c.s, service, c.s.tokens[h].user) {
      var last := if secretOk then Issue(t, newHash) else Die(t);
      var c3 := Apply(c2, last);
      RunCons(c2, last, []);
      assert [last] + [] == [last];
      RunCons(c1, CheckUser(t), [last]);
      assert [CheckUser(t)] + [last] == [CheckUser(t), last];
      RunCons(c, Consume(t, service, h), [CheckUser(t), last]);
      assert c3.tasks == c.tasks;
    } else {
      RunCons(c1, CheckUser(t), []);
      assert [CheckUser(t)] + [] == [CheckUser(t)];
      RunCons(c, Consume(t, service, h), [CheckUser(t)]);
      assert c2.tasks == c.tasks;
    }
  }

  lemma RunCons(c: Config, step: Step, rest: seq<Step>)
    requires Enabled(c, step) && IsRun(Apply(c, step), rest)
    ensures IsRun(c, [step] + rest) && After(c, [step] + rest) == After(Apply(c, step), rest)
  {
    assert ([step] + rest)[1..] == rest;
  }
}
