/**
 The environment-variable tables: the shared pool of a project, the links of app instances into it, and each
 instance's own variables.

 Values are what decryption of the stored ciphertext yields: every write stores `Some`, and `None` stands for
 a ciphertext that can no longer be decrypted.
 */
module EnvPool {
  import opened Common

  type Id = nat

  const MANUAL := "manual"
  const STORAGE := "storage"
  const BAAS_AUTH := "baas_auth"
  const AUTH_SECRET_ENV_KEY := "HERMES_AUTH_SECRET"

  datatype PoolVar = PoolVar(
    project: Id, key: string, value: Option<string>, secret: bool, source: string, sourceId: Option<Id>)

  datatype LocalVar = LocalVar(instance: Id, key: string, value: Option<string>, secret: bool)

  datatype Tables = Tables(
    projectOf: map<Id, Id>,       // app instance -> project
    serviceProject: map<Id, Id>,  // BaaS service -> project
    pool: map<Id, PoolVar>,
    links: set<(Id, Id)>,         // (app instance, pool variable)
    locals: map<Id, LocalVar>)

  datatype EnvError = NotFound | Forbidden | KeyTaken | InvalidKey | Undecryptable

  /** Sources that own at most one variable per project; they write through `PublishProjectEnv` only. */
  predicate SingleVar(source: string) {
    source != MANUAL && source != STORAGE && source != BAAS_AUTH
  }

  // ---------- queries ----------

  predicate IsAt(c: Tables, project: Id, key: string, id: Id) {
    id in c.pool && c.pool[id].project == project && c.pool[id].key == key
  }

  predicate HasSource(c: Tables, source: string, sourceId: Id, id: Id) {
    id in c.pool && c.pool[id].source == source && c.pool[id].sourceId == Some(sourceId)
  }

  predicate IsOwned(c: Tables, project: Id, source: string, sourceId: Id, id: Id) {
    HasSource(c, source, sourceId, id) && c.pool[id].project == project
  }

  predicate IsSecretOf(c: Tables, service: Id, id: Id) {
    HasSource(c, BAAS_AUTH, service, id) && c.pool[id].secret
  }

  /** The instance links the variable of this key. */
  ghost predicate LinksKey(c: Tables, instance: Id, key: string) {
    exists id :: id in c.pool && (instance, id) in c.links && c.pool[id].key == key
  }

  // ---------- specification of the operations ----------

  /** INSERT ... ON CONFLICT (project_id, key) DO UPDATE; the manual form does not touch source_id. */
  ghost function Upsert(c: Tables, newId: Id, v: PoolVar, keepSourceId: bool): Tables {
    if id :| IsAt(c, v.project, v.key, id) then c.(pool := c.pool[id := Overwritten(c.pool[id], v, keepSourceId)])
    else c.(pool := c.pool[newId := v])
  }

  function Overwritten(was: PoolVar, v: PoolVar, keepSourceId: bool): PoolVar {
    was.(value := v.value, secret := v.secret, source := v.source,
         sourceId := if keepSourceId then was.sourceId else v.sourceId)
  }

  ghost function Publish(c: Tables, newId: Id, v: PoolVar): Tables
    requires v.sourceId.Some?
  {
    if id :| IsOwned(c, v.project, v.source, v.sourceId.value, id)
    then c.(pool := c.pool[id := c.pool[id].(value := v.value, secret := v.secret)])
    else Upsert(c, newId, v, false)
  }

  /** DELETE of pool rows; the foreign key cascades to the links. */
  ghost function Drop(c: Tables, ids: set<Id>): Tables {
    c.(pool := map id | id in c.pool && id !in ids :: c.pool[id], links := set l | l in c.links && l.1 !in ids)
  }

  ghost function Owned(c: Tables, source: string, sourceId: Id): set<Id> {
    set id | id in c.pool && HasSource(c, source, sourceId, id)
  }

  ghost function SetManual(c: Tables, newId: Id, project: Id, key: string, value: string, secret: bool): Tables {
    Upsert(c, newId, PoolVar(project, key, Some(value), secret, MANUAL, None), true)
  }

  ghost predicate KeyTakenByOther(c: Tables, project: Id, key: string, id: Id) {
    exists other :: other != id && IsAt(c, project, key, other)
  }

  ghost predicate CanRename(c: Tables, project: Id, id: Id, key: string) {
    id in c.pool && c.pool[id].project == project && !KeyTakenByOther(c, project, key, id)
  }

  function Rename(c: Tables, id: Id, key: string): Tables
    requires id in c.pool
  {
    c.(pool := c.pool[id := c.pool[id].(key := key)])
  }

  predicate CanLink(c: Tables, instance: Id, id: Id) {
    instance in c.projectOf && id in c.pool && c.pool[id].project == c.projectOf[instance]
  }

  /** Linking wins: the instance's own variable of the same key is deleted first. */
  ghost function Link(c: Tables, instance: Id, id: Id): Tables
    requires id in c.pool
  {
    c.(links := c.links + {(instance, id)},
       locals := map k | k in c.locals && !(c.locals[k].instance == instance && c.locals[k].key == c.pool[id].key)
         :: c.locals[k])
  }

  ghost function BaasVar(c: Tables, newId: Id, service: Id, project: Id, key: string, value: string,
          secret: bool): Tables {
    Upsert(c, newId, PoolVar(project, key, Some(value), secret, BAAS_AUTH, Some(service)), false)
  }

  ghost function SecretKey(c: Tables, service: Id): string {
    if id :| IsSecretOf(c, service, id) then c.pool[id].key else AUTH_SECRET_ENV_KEY
  }

  ghost function Rotate(c: Tables, newId: Id, service: Id, project: Id, value: string): Tables {
    BaasVar(c, newId, service, project, SecretKey(c, service), value, true)
  }

  ghost function RefreshBucket(c: Tables, project: Id, bucket: Id, appId: string, secretKey: string): Tables {
    c.(pool := map id | id in c.pool ::
      if IsOwned(c, project, STORAGE, bucket, id)
      then c.pool[id].(value := Some(if c.pool[id].secret then secretKey else appId))
      else c.pool[id])
  }

  ghost function PublishBucket(c: Tables, id1: Id, id2: Id, project: Id, bucket: Id, prefix: string,
                               appId: string, secretKey: string): Tables {
    if exists id :: IsOwned(c, project, STORAGE, bucket, id) then RefreshBucket(c, project, bucket, appId, secretKey)
    else
      var c1 := Upsert(c, id1, PoolVar(project, prefix + "_APP_ID", Some(appId), false, STORAGE, Some(bucket)), false);
      Upsert(c1, id2, PoolVar(project, prefix + "_SECRET_KEY", Some(secretKey), true, STORAGE, Some(bucket)), false)
  }

  predicate LocalAt(c: Tables, instance: Id, key: string, k: Id) {
    k in c.locals && c.locals[k].instance == instance && c.locals[k].key == key
  }

  ghost function SetLocal(c: Tables, newId: Id, v: LocalVar): Tables {
    if k :| LocalAt(c, v.instance, v.key, k) then c.(locals := c.locals[k := v])
    else c.(locals := c.locals[newId := v])
  }

  ghost function ClearLocals(c: Tables, instance: Id): Tables {
    c.(locals := map k | k in c.locals && c.locals[k].instance != instance :: c.locals[k])
  }

  ghost function SetLocals(c: Tables, newIds: seq<Id>, vs: seq<LocalVar>): Tables
    requires |newIds| == |vs|
  {
    if |vs| == 0 then c
    else SetLocal(SetLocals(c, newIds[..|vs| - 1], vs[..|vs| - 1]), newIds[|vs| - 1], vs[|vs| - 1])
  }

  // ---------- invariants ----------

  ghost predicate KeysUnique(c: Tables) {
    forall a <- c.pool, b <- c.pool :: c.pool[a].project == c.pool[b].project && c.pool[a].key == c.pool[b].key ==>
      a == b
  }

  ghost predicate OwnersUnique(c: Tables) {
    forall a <- c.pool, b <- c.pool ::
      && SingleVar(c.pool[a].source) && c.pool[a].sourceId.Some?
      && c.pool[a].project == c.pool[b].project && c.pool[a].source == c.pool[b].source
      && c.pool[a].sourceId == c.pool[b].sourceId
      ==> a == b
  }

  ghost predicate SecretsUnique(c: Tables) {
    forall service, a, b :: IsSecretOf(c, service, a) && IsSecretOf(c, service, b) ==> a == b
  }

  ghost predicate ServicesAtHome(c: Tables) {
    forall service, a :: HasSource(c, BAAS_AUTH, service, a) ==>
      service in c.serviceProject && c.pool[a].project == c.serviceProject[service]
  }

  ghost predicate LinksResolve(c: Tables) {
    forall l <- c.links :: CanLink(c, l.0, l.1)
  }

  ghost predicate LocalsUnique(c: Tables) {
    forall a <- c.locals, b <- c.locals ::
      c.locals[a].instance == c.locals[b].instance && c.locals[a].key == c.locals[b].key ==> a == b
  }

  ghost predicate Inv(c: Tables) {
    && KeysUnique(c) && OwnersUnique(c) && SecretsUnique(c) && ServicesAtHome(c)
    && LinksResolve(c) && LocalsUnique(c)
  }

  // ---------- writing one row ----------

  function Write(c: Tables, at: Id, w: PoolVar): Tables {
    c.(pool := c.pool[at := w])
  }

  /** Row `at` may become `w`: no other row has its key, its single owner, or its service's secret. */
  ghost predicate Fits(c: Tables, at: Id, w: PoolVar) {
    && (at in c.pool ==> w.project == c.pool[at].project)
    && (forall id :: id != at ==> !IsAt(c, w.project, w.key, id))
    && (SingleVar(w.source) && w.sourceId.Some? ==>
          forall id :: id != at ==> !IsOwned(c, w.project, w.source, w.sourceId.value, id))
    && (w.source == BAAS_AUTH && w.sourceId.Some? ==>
          && w.sourceId.value in c.serviceProject && w.project == c.serviceProject[w.sourceId.value]
          && (w.secret ==> forall id :: id != at ==> !IsSecretOf(c, w.sourceId.value, id)))
  }

  lemma WriteKeepsKeys(c: Tables, at: Id, w: PoolVar)
    requires KeysUnique(c) && Fits(c, at, w)
    ensures KeysUnique(Write(c, at, w))
  {
    var d := Write(c, at, w);
    forall a <- d.pool, b <- d.pool | d.pool[a].project == d.pool[b].project && d.pool[a].key == d.pool[b].key
      ensures a == b
    {
      assert b != at ==> IsAt(c, d.pool[b].project, d.pool[b].key, b);
      assert a != at ==> IsAt(c, d.pool[a].project, d.pool[a].key, a);
    }
  }

  lemma WriteKeepsOwners(c: Tables, at: Id, w: PoolVar)
    requires OwnersUnique(c) && Fits(c, at, w)
    ensures OwnersUnique(Write(c, at, w))
  {
    var d := Write(c, at, w);
    forall a <- d.pool, b <- d.pool |
      && SingleVar(d.pool[a].source) && d.pool[a].sourceId.Some?
      && d.pool[a].project == d.pool[b].project && d.pool[a].source == d.pool[b].source
      && d.pool[a].sourceId == d.pool[b].sourceId
      ensures a == b
    {
      assert b != at ==> IsOwned(c, d.pool[b].project, d.pool[b].source, d.pool[b].sourceId.value, b);
      assert a != at ==> IsOwned(c, d.pool[a].project, d.pool[a].source, d.pool[a].sourceId.value, a);
    }
  }

  lemma WriteKeepsServices(c: Tables, at: Id, w: PoolVar)
    requires SecretsUnique(c) && ServicesAtHome(c) && Fits(c, at, w)
    ensures SecretsUnique(Write(c, at, w)) && ServicesAtHome(Write(c, at, w))
  {
    var d := Write(c, at, w);
    forall service, a, b | IsSecretOf(d, service, a) && IsSecretOf(d, service, b) ensures a == b {
      assert a != at ==> IsSecretOf(c, service, a);
      assert b != at ==> IsSecretOf(c, service, b);
    }
    forall service, a | HasSource(d, BAAS_AUTH, service, a)
      ensures service in d.serviceProject && d.pool[a].project == d.serviceProject[service]
    {
      assert a != at ==> HasSource(c, BAAS_AUTH, service, a);
    }
  }

  lemma WriteKeepsInv(c: Tables, at: Id, w: PoolVar)
    requires Inv(c) && Fits(c, at, w)
    ensures Inv(Write(c, at, w))
  {
    WriteKeepsKeys(c, at, w);
    WriteKeepsOwners(c, at, w);
    WriteKeepsServices(c, at, w);
    forall l <- c.links ensures CanLink(Write(c, at, w), l.0, l.1) {
      assert CanLink(c, l.0, l.1);
    }
  }

  /** The row an upsert writes, and what it writes there. */
  lemma UpsertWrites(c: Tables, newId: Id, v: PoolVar, keepSourceId: bool) returns (at: Id, w: PoolVar)
    requires KeysUnique(c) && newId !in c.pool
    ensures Upsert(c, newId, v, keepSourceId) == Write(c, at, w)
    ensures at == newId || IsAt(c, v.project, v.key, at)
    ensures w == if at in c.pool then Overwritten(c.pool[at], v, keepSourceId) else v
    ensures forall id :: id != at ==> !IsAt(c, v.project, v.key, id)
  {
    if id :| IsAt(c, v.project, v.key, id) {
      at, w := id, Overwritten(c.pool[id], v, keepSourceId);
      assert forall other :: IsAt(c, v.project, v.key, other) ==> other == id;
    } else {
      at, w := newId, v;
    }
  }

  // ---------- every operation keeps the invariants ----------

  lemma PublishKeepsInv(c: Tables, newId: Id, v: PoolVar)
    requires Inv(c) && newId !in c.pool && v.sourceId.Some? && SingleVar(v.source)
    ensures Inv(Publish(c, newId, v))
  {
    if id :| IsOwned(c, v.project, v.source, v.sourceId.value, id) {
      PublishRefreshes(c, newId, v, id);
      var w := c.pool[id].(value := v.value, secret := v.secret);
      assert Fits(c, id, w);
      WriteKeepsInv(c, id, w);
    } else {
      var at, w := UpsertWrites(c, newId, v, false);
      assert Fits(c, at, w);
      WriteKeepsInv(c, at, w);
    }
  }

  lemma SetManualKeepsInv(c: Tables, newId: Id, project: Id, key: string, value: string, secret: bool)
    requires Inv(c) && newId !in c.pool
    ensures Inv(SetManual(c, newId, project, key, value, secret))
  {
    var at, w := UpsertWrites(c, newId, PoolVar(project, key, Some(value), secret, MANUAL, None), true);
    WriteKeepsInv(c, at, w);
  }

  lemma BaasVarKeepsInv(c: Tables, newId: Id, service: Id, project: Id, key: string, value: string, secret: bool)
    requires Inv(c) && newId !in c.pool
    requires service in c.serviceProject && c.serviceProject[service] == project
    requires secret ==> forall id :: IsSecretOf(c, service, id) ==> IsAt(c, project, key, id)
    ensures Inv(BaasVar(c, newId, service, project, key, value, secret))
  {
    var at, w := UpsertWrites(c, newId, PoolVar(project, key, Some(value), secret, BAAS_AUTH, Some(service)), false);
    WriteKeepsInv(c, at, w);
  }

  lemma RotateKeepsInv(c: Tables, newId: Id, service: Id, project: Id, value: string)
    requires Inv(c) && newId !in c.pool
    requires service in c.serviceProject && c.serviceProject[service] == project
    ensures Inv(Rotate(c, newId, service, project, value))
  {
    forall id | IsSecretOf(c, service, id) ensures IsAt(c, project, SecretKey(c, service), id) {
      assert HasSource(c, BAAS_AUTH, service, id);
    }
    BaasVarKeepsInv(c, newId, service, project, SecretKey(c, service), value, true);
  }

  lemma RenameKeepsInv(c: Tables, project: Id, id: Id, key: string)
    requires Inv(c) && CanRename(c, project, id, key)
    ensures Inv(Rename(c, id, key))
  {
    var w := c.pool[id].(key := key);
    forall other | other != id
      ensures !IsAt(c, w.project, w.key, other)
      ensures SingleVar(w.source) && w.sourceId.Some? ==> !IsOwned(c, w.project, w.source, w.sourceId.value, other)
    {
    }
    if w.source == BAAS_AUTH && w.sourceId.Some? {
      assert HasSource(c, BAAS_AUTH, w.sourceId.value, id);
      assert w.secret ==> IsSecretOf(c, w.sourceId.value, id);
    }
    WriteKeepsInv(c, id, w);
  }

  lemma DropKeepsInv(c: Tables, ids: set<Id>)
    requires Inv(c)
    ensures Inv(Drop(c, ids))
  {
    var d := Drop(c, ids);
    forall l <- d.links ensures CanLink(d, l.0, l.1) {
      assert CanLink(c, l.0, l.1);
    }
    forall service, a, b | IsSecretOf(d, service, a) && IsSecretOf(d, service, b) ensures a == b {
      assert IsSecretOf(c, service, a) && IsSecretOf(c, service, b);
    }
    forall service, a | HasSource(d, BAAS_AUTH, service, a)
      ensures service in d.serviceProject && d.pool[a].project == d.serviceProject[service]
    {
      assert HasSource(c, BAAS_AUTH, service, a);
    }
  }

  lemma LinkKeepsInv(c: Tables, instance: Id, id: Id)
    requires Inv(c) && CanLink(c, instance, id)
    ensures Inv(Link(c, instance, id))
  {
    var d := Link(c, instance, id);
    SamePoolKeepsInv(c, d);
  }

  lemma SamePoolKeepsInv(c: Tables, d: Tables)
    requires Inv(c) && d.pool == c.pool && d.projectOf == c.projectOf && d.serviceProject == c.serviceProject
    requires LocalsUnique(d) && forall l <- d.links :: CanLink(c, l.0, l.1)
    ensures Inv(d)
  {
    forall service, a ensures HasSource(d, BAAS_AUTH, service, a) == HasSource(c, BAAS_AUTH, service, a) {}
    forall service, a ensures IsSecretOf(d, service, a) == IsSecretOf(c, service, a) {}
    forall l <- d.links ensures CanLink(d, l.0, l.1) {
      assert CanLink(c, l.0, l.1);
    }
  }

  lemma SetLocalKeepsInv(c: Tables, newId: Id, v: LocalVar)
    requires Inv(c) && newId !in c.locals
    ensures Inv(SetLocal(c, newId, v))
  {
    if k :| LocalAt(c, v.instance, v.key, k) {
      assert forall other <- c.locals :: LocalAt(c, v.instance, v.key, other) ==> other == k;
      assert SetLocal(c, newId, v).locals == c.locals[k := v];
    } else {
      assert forall other <- c.locals :: !LocalAt(c, v.instance, v.key, other);
    }
    SamePoolKeepsInv(c, SetLocal(c, newId, v));
  }

  lemma ClearLocalsKeepsInv(c: Tables, instance: Id)
    requires Inv(c)
    ensures Inv(ClearLocals(c, instance))
  {
    SamePoolKeepsInv(c, ClearLocals(c, instance));
  }

  ghost predicate FreshLocalIds(c: Tables, newIds: seq<Id>) {
    && (forall i :: 0 <= i < |newIds| ==> newIds[i] !in c.locals)
    && (forall i, j :: 0 <= i < j < |newIds| ==> newIds[i] != newIds[j])
  }

  lemma {:induction false} SetLocalsKeepsInv(c: Tables, newIds: seq<Id>, vs: seq<LocalVar>)
    requires Inv(c) && |newIds| == |vs| && FreshLocalIds(c, newIds)
    ensures Inv(SetLocals(c, newIds, vs))
    ensures forall k <- SetLocals(c, newIds, vs).locals :: k in c.locals || k in newIds
  {
    if |vs| > 0 {
      var n := |vs| - 1;
      SetLocalsKeepsInv(c, newIds[..n], vs[..n]);
      assert newIds[n] !in newIds[..n];
      SetLocalKeepsInv(SetLocals(c, newIds[..n], vs[..n]), newIds[n], vs[n]);
    }
  }

  lemma ValuesKeepInv(c: Tables, d: Tables)
    requires Inv(c) && d.(pool := c.pool) == c && d.pool.Keys == c.pool.Keys
    requires forall id <- c.pool :: d.pool[id] == c.pool[id].(value := d.pool[id].value)
    ensures Inv(d)
  {
    forall service, a ensures HasSource(d, BAAS_AUTH, service, a) == HasSource(c, BAAS_AUTH, service, a) {}
    forall service, a ensures IsSecretOf(d, service, a) == IsSecretOf(c, service, a) {}
    forall l <- d.links ensures CanLink(d, l.0, l.1) {
      assert CanLink(c, l.0, l.1);
    }
  }

  lemma PublishBucketKeepsInv(c: Tables, id1: Id, id2: Id, project: Id, bucket: Id, prefix: string,
                              appId: string, secretKey: string)
    requires Inv(c) && id1 !in c.pool && id2 !in c.pool && id1 != id2
    ensures Inv(PublishBucket(c, id1, id2, project, bucket, prefix, appId, secretKey))
  {
    if exists id :: IsOwned(c, project, STORAGE, bucket, id) {
      ValuesKeepInv(c, RefreshBucket(c, project, bucket, appId, secretKey));
    } else {
      var v1 := PoolVar(project, prefix + "_APP_ID", Some(appId), false, STORAGE, Some(bucket));
      var v2 := PoolVar(project, prefix + "_SECRET_KEY", Some(secretKey), true, STORAGE, Some(bucket));
      var at1, w1 := UpsertWrites(c, id1, v1, false);
      WriteKeepsInv(c, at1, w1);
      var c1 := Write(c, at1, w1);
      var at2, w2 := UpsertWrites(c1, id2, v2, false);
      WriteKeepsInv(c1, at2, w2);
    }
  }

  // ---------- identity is the owner, not the key ----------

  /** A resource that already published is refreshed in place: same row, same key, same links. */
  lemma PublishRefreshes(c: Tables, newId: Id, v: PoolVar, id: Id)
    requires Inv(c) && v.sourceId.Some? && SingleVar(v.source)
    requires IsOwned(c, v.project, v.source, v.sourceId.value, id)
    ensures Publish(c, newId, v) == Write(c, id, c.pool[id].(value := v.value, secret := v.secret))
  {
    assert forall other :: IsOwned(c, v.project, v.source, v.sourceId.value, other) ==> other == id;
  }

  /** After a publish the resource owns exactly one variable, with the new value; links are untouched. */
  lemma PublishEffect(c: Tables, newId: Id, v: PoolVar) returns (id: Id)
    requires Inv(c) && newId !in c.pool && v.sourceId.Some? && SingleVar(v.source)
    ensures var d := Publish(c, newId, v);
      && (forall other :: IsOwned(d, v.project, v.source, v.sourceId.value, other) <==> other == id)
      && id in d.pool && d.pool[id].value == v.value && d.pool[id].secret == v.secret
      && ((forall other :: !IsOwned(c, v.project, v.source, v.sourceId.value, other)) ==> d.pool[id].key == v.key)
      && (forall other <- c.pool :: other != id ==> other in d.pool && d.pool[other] == c.pool[other])
      && d.links == c.links
  {
    PublishKeepsInv(c, newId, v);
    if owned :| IsOwned(c, v.project, v.source, v.sourceId.value, owned) {
      PublishRefreshes(c, newId, v, owned);
      id := owned;
    } else {
      var at, w := UpsertWrites(c, newId, v, false);
      id := at;
    }
    assert IsOwned(Publish(c, newId, v), v.project, v.source, v.sourceId.value, id);
  }

  /**
   A publish takes a variable away from its present owner, manual or not, exactly when it is the resource's
   first publish and the variable has the suggested key.
   */
  lemma TakesOverExactly(c: Tables, newId: Id, v: PoolVar, id: Id)
    requires Inv(c) && newId !in c.pool && v.sourceId.Some? && SingleVar(v.source)
    requires id in c.pool && !IsOwned(c, v.project, v.source, v.sourceId.value, id)
    ensures var d := Publish(c, newId, v);
      var first := forall other :: !IsOwned(c, v.project, v.source, v.sourceId.value, other);
      && id in d.pool
      && ((d.pool[id].source != c.pool[id].source || d.pool[id].sourceId != c.pool[id].sourceId)
          <==> first && IsAt(c, v.project, v.key, id))
  {
    if owned :| IsOwned(c, v.project, v.source, v.sourceId.value, owned) {
      PublishRefreshes(c, newId, v, owned);
    } else {
      var at, w := UpsertWrites(c, newId, v, false);
    }
  }

  /** A key the user renamed survives later republishes, whatever key these suggest. */
  lemma RenameSurvivesRepublish(c: Tables, newId: Id, id: Id, key: string, v: PoolVar)
    requires Inv(c) && v.sourceId.Some? && SingleVar(v.source)
    requires IsOwned(c, v.project, v.source, v.sourceId.value, id) && CanRename(c, v.project, id, key)
    ensures var d := Publish(Rename(c, id, key), newId, v);
      d.pool == c.pool[id := c.pool[id].(key := key, value := v.value, secret := v.secret)] && d.links == c.links
  {
    var renamed := Rename(c, id, key);
    RenameKeepsInv(c, v.project, id, key);
    assert IsOwned(renamed, v.project, v.source, v.sourceId.value, id);
    PublishRefreshes(renamed, newId, v, id);
  }

  /** Rotating a published secret changes its value only: same row, same (possibly renamed) key, same links. */
  lemma RotateRefreshes(c: Tables, newId: Id, service: Id, id: Id, value: string)
    requires Inv(c) && IsSecretOf(c, service, id)
    ensures service in c.serviceProject
    ensures Rotate(c, newId, service, c.serviceProject[service], value)
      == Write(c, id, c.pool[id].(value := Some(value)))
  {
    assert HasSource(c, BAAS_AUTH, service, id);
    assert forall other :: IsSecretOf(c, service, other) ==> other == id;
    assert IsAt(c, c.pool[id].project, c.pool[id].key, id);
  }

  /** After a rotation the service has exactly one secret, and it is the new one. */
  lemma RotateEffect(c: Tables, newId: Id, service: Id, value: string) returns (id: Id)
    requires Inv(c) && newId !in c.pool && service in c.serviceProject
    ensures var d := Rotate(c, newId, service, c.serviceProject[service], value);
      && (forall other :: IsSecretOf(d, service, other) <==> other == id)
      && id in d.pool && d.pool[id].value == Some(value) && d.pool[id].key == SecretKey(c, service)
      && (forall other <- c.pool :: other != id ==> other in d.pool && d.pool[other] == c.pool[other])
  {
    var project := c.serviceProject[service];
    RotateKeepsInv(c, newId, service, project, value);
    var v := PoolVar(project, SecretKey(c, service), Some(value), true, BAAS_AUTH, Some(service));
    var at, w := UpsertWrites(c, newId, v, false);
    id := at;
    assert IsSecretOf(Write(c, at, w), service, id);
  }

  /** After publishing a bucket, its secret variables hold the secret key and its plain ones the app id. */
  lemma BucketHoldsCredentials(c: Tables, id1: Id, id2: Id, project: Id, bucket: Id, prefix: string,
                               appId: string, secretKey: string)
    requires Inv(c) && id1 !in c.pool && id2 !in c.pool && id1 != id2
    ensures var d := PublishBucket(c, id1, id2, project, bucket, prefix, appId, secretKey);
      && (exists id :: IsOwned(d, project, STORAGE, bucket, id))
      && (forall id :: IsOwned(d, project, STORAGE, bucket, id) ==>
            d.pool[id].value == Some(if d.pool[id].secret then secretKey else appId))
      && (forall id :: IsOwned(c, project, STORAGE, bucket, id) ==>
            id in d.pool && d.pool[id].(value := c.pool[id].value) == c.pool[id])
  {
    if id :| IsOwned(c, project, STORAGE, bucket, id) {
      var d := PublishBucket(c, id1, id2, project, bucket, prefix, appId, secretKey);
      assert d == RefreshBucket(c, project, bucket, appId, secretKey);
      assert IsOwned(d, project, STORAGE, bucket, id);
    } else {
      var v1 := PoolVar(project, prefix + "_APP_ID", Some(appId), false, STORAGE, Some(bucket));
      var v2 := PoolVar(project, prefix + "_SECRET_KEY", Some(secretKey), true, STORAGE, Some(bucket));
      var at1, w1 := UpsertWrites(c, id1, v1, false);
      WriteKeepsInv(c, at1, w1);
      var c1 := Write(c, at1, w1);
      var at2, w2 := UpsertWrites(c1, id2, v2, false);
      var d := Write(c1, at2, w2);
      assert IsOwned(d, project, STORAGE, bucket, at2);
      forall id | IsOwned(d, project, STORAGE, bucket, id)
        ensures d.pool[id].value == Some(if d.pool[id].secret then secretKey else appId)
      {
        assert id != at1 && id != at2 ==> IsOwned(c, project, STORAGE, bucket, id);
      }
    }
  }

  // ---------- what a write leaves behind ----------

  /** Row `at` is `w`, no other row and nothing else changed, and at most that row is new. */
  ghost predicate OnlyRow(c: Tables, d: Tables, at: Id, w: PoolVar) {
    && at in d.pool && d.pool[at] == w && d.pool.Keys == c.pool.Keys + {at}
    && (forall other <- c.pool :: other != at ==> d.pool[other] == c.pool[other])
    && d.links == c.links && d.locals == c.locals && d.projectOf == c.projectOf && d.serviceProject == c.serviceProject
  }

  lemma UpsertLeaves(c: Tables, newId: Id, v: PoolVar, keepSourceId: bool) returns (at: Id, w: PoolVar)
    requires KeysUnique(c) && newId !in c.pool
    ensures OnlyRow(c, Upsert(c, newId, v, keepSourceId), at, w)
    ensures at == newId || IsAt(c, v.project, v.key, at)
    ensures w == v.(sourceId := if keepSourceId && at in c.pool then c.pool[at].sourceId else v.sourceId)
    ensures forall id <- c.pool :: id != at ==> !IsAt(c, v.project, v.key, id)
  {
    at, w := UpsertWrites(c, newId, v, keepSourceId);
  }

  lemma OnlyRowOfKey(c: Tables, d: Tables, at: Id, w: PoolVar)
    requires OnlyRow(c, d, at, w) && forall id <- c.pool :: id != at ==> !IsAt(c, w.project, w.key, id)
    ensures forall id :: IsAt(d, w.project, w.key, id) <==> id == at
  {
    forall id ensures IsAt(d, w.project, w.key, id) <==> id == at {
      assert id != at && id in d.pool ==> id in c.pool && !IsAt(c, w.project, w.key, id);
    }
  }

  /** A manual write: its key has the given value and secrecy; a row that was there keeps its id and source id. */
  lemma SetManualEffect(c: Tables, newId: Id, project: Id, key: string, value: string, secret: bool) returns (at: Id)
    requires Inv(c) && newId !in c.pool
    ensures var d := SetManual(c, newId, project, key, value, secret);
      && (at == newId || IsAt(c, project, key, at))
      && OnlyRow(c, d, at, PoolVar(project, key, Some(value), secret, "manual",
                                   if at in c.pool then c.pool[at].sourceId else None))
      && forall other :: IsAt(d, project, key, other) <==> other == at
  {
    var w: PoolVar;
    at, w := UpsertLeaves(c, newId, PoolVar(project, key, Some(value), secret, MANUAL, None), true);
    OnlyRowOfKey(c, SetManual(c, newId, project, key, value, secret), at, w);
  }

  /** A service's write: the same, and the row is the service's. */
  lemma BaasVarEffect(c: Tables, newId: Id, service: Id, project: Id, key: string, value: string, secret: bool)
    returns (at: Id)
    requires Inv(c) && newId !in c.pool
    ensures var d := BaasVar(c, newId, service, project, key, value, secret);
      && (at == newId || IsAt(c, project, key, at))
      && OnlyRow(c, d, at, PoolVar(project, key, Some(value), secret, "baas_auth", Some(service)))
      && forall other :: IsAt(d, project, key, other) <==> other == at
  {
    var w: PoolVar;
    at, w := UpsertLeaves(c, newId, PoolVar(project, key, Some(value), secret, BAAS_AUTH, Some(service)), false);
    OnlyRowOfKey(c, BaasVar(c, newId, service, project, key, value, secret), at, w);
  }

  lemma TwoUpserts(c: Tables, id1: Id, v1: PoolVar, id2: Id, v2: PoolVar) returns (a: Id, b: Id)
    requires KeysUnique(c) && id1 !in c.pool && id2 !in c.pool && id1 != id2 && v1.key != v2.key
    ensures var d := Upsert(Upsert(c, id1, v1, false), id2, v2, false);
      && a != b && d.pool.Keys == c.pool.Keys + {a, b} && d.pool[a] == v1 && d.pool[b] == v2
      && (forall other <- c.pool :: other != a && other != b ==> d.pool[other] == c.pool[other])
      && d == c.(pool := d.pool)
  {
    var w1: PoolVar, w2: PoolVar;
    a, w1 := UpsertLeaves(c, id1, v1, false);
    var c1 := Upsert(c, id1, v1, false);
    OnlyRowOfKey(c, c1, a, w1);
    UpsertKeepsKeys(c, c1, a, w1);
    b, w2 := UpsertLeaves(c1, id2, v2, false);
    assert !IsAt(c1, v2.project, v2.key, a);
  }

  lemma UpsertKeepsKeys(c: Tables, d: Tables, at: Id, w: PoolVar)
    requires KeysUnique(c) && OnlyRow(c, d, at, w) && forall id :: IsAt(d, w.project, w.key, id) <==> id == at
    ensures KeysUnique(d)
  {
    forall x <- d.pool, y <- d.pool | d.pool[x].project == d.pool[y].project && d.pool[x].key == d.pool[y].key
      ensures x == y
    {
      assert x == at ==> IsAt(d, w.project, w.key, y);
      assert y == at ==> IsAt(d, w.project, w.key, x);
    }
  }

  /** The first publish of a bucket: its app id in the plain variable, its secret key in the secret one. */
  lemma FirstBucketPublish(c: Tables, id1: Id, id2: Id, project: Id, bucket: Id, prefix: string,
                           appId: string, secretKey: string) returns (a: Id, b: Id)
    requires Inv(c) && id1 !in c.pool && id2 !in c.pool && id1 != id2
    requires forall id :: !IsOwned(c, project, STORAGE, bucket, id)
    ensures var d := PublishBucket(c, id1, id2, project, bucket, prefix, appId, secretKey);
      && a != b && d.pool.Keys == c.pool.Keys + {a, b}
      && d.pool[a] == PoolVar(project, prefix + "_APP_ID", Some(appId), false, "storage", Some(bucket))
      && d.pool[b] == PoolVar(project, prefix + "_SECRET_KEY", Some(secretKey), true, "storage", Some(bucket))
      && (forall other <- c.pool :: other != a && other != b ==> d.pool[other] == c.pool[other])
      && d == c.(pool := d.pool)
  {
    var v1 := PoolVar(project, prefix + "_APP_ID", Some(appId), false, STORAGE, Some(bucket));
    var v2 := PoolVar(project, prefix + "_SECRET_KEY", Some(secretKey), true, STORAGE, Some(bucket));
    assert |v1.key| != |v2.key|;
    a, b := TwoUpserts(c, id1, v1, id2, v2);
  }

  /** A later publish: the values of the bucket's rows, and nothing else. */
  lemma LaterBucketPublish(c: Tables, id1: Id, id2: Id, project: Id, bucket: Id, prefix: string,
                           appId: string, secretKey: string)
    requires exists id :: IsOwned(c, project, STORAGE, bucket, id)
    ensures var d := PublishBucket(c, id1, id2, project, bucket, prefix, appId, secretKey);
      && d == c.(pool := d.pool) && d.pool.Keys == c.pool.Keys
      && forall id <- c.pool :: d.pool[id] ==
          if c.pool[id].project == project && c.pool[id].source == "storage" && c.pool[id].sourceId == Some(bucket)
          then c.pool[id].(value := Some(if c.pool[id].secret then secretKey else appId)) else c.pool[id]
  {}

  /** Deleting rows of the pool takes these rows and the links to them, and nothing else. */
  lemma DropExactly(c: Tables, ids: set<Id>)
    ensures var d := Drop(c, ids);
      && d == c.(pool := d.pool, links := d.links)
      && (forall id :: id in d.pool <==> id in c.pool && id !in ids)
      && (forall id <- d.pool :: d.pool[id] == c.pool[id])
      && forall l :: l in d.links <==> l in c.links && l.1 !in ids
  {}

  /** Setting an own variable: one row of that key, with the value and the secrecy given, and nothing else. */
  lemma SetLocalRow(c: Tables, newId: Id, v: LocalVar) returns (at: Id)
    requires Inv(c) && newId !in c.locals
    ensures var d := SetLocal(c, newId, v);
      && d == c.(locals := d.locals) && (at == newId || LocalAt(c, v.instance, v.key, at))
      && d.locals.Keys == c.locals.Keys + {at} && d.locals[at] == v
      && (forall k <- c.locals :: k != at ==> d.locals[k] == c.locals[k])
      && forall k :: LocalAt(d, v.instance, v.key, k) <==> k == at
  {
    at := newId;
    if k: nat :| LocalAt(c, v.instance, v.key, k) {
      at := k;
      assert forall other :: LocalAt(c, v.instance, v.key, other) ==> other == k;
    }
    var d := SetLocal(c, newId, v);
    assert d == c.(locals := c.locals[at := v]);
    forall k ensures LocalAt(d, v.instance, v.key, k) <==> k == at {
      assert k != at ==> !LocalAt(c, v.instance, v.key, k);
    }
  }

  // ---------- who takes over whose variable ----------

  predicate OwnerChanged(c: Tables, d: Tables, id: Id) {
    id in c.pool && id in d.pool
    && (c.pool[id].source != d.pool[id].source || c.pool[id].sourceId != d.pool[id].sourceId)
  }

  lemma UpsertTakesOverExactly(c: Tables, newId: Id, v: PoolVar, keepSourceId: bool, id: Id)
    requires KeysUnique(c) && newId !in c.pool && id in c.pool
    ensures var d := Upsert(c, newId, v, keepSourceId);
      && id in d.pool
      && (OwnerChanged(c, d, id) <==>
            && IsAt(c, v.project, v.key, id)
            && (c.pool[id].source != v.source || (!keepSourceId && c.pool[id].sourceId != v.sourceId)))
  {
    var at, w := UpsertWrites(c, newId, v, keepSourceId);
  }

  /** Setting a key by hand takes the variable of that key from its owner, whoever that is. */
  lemma SetTakesOverExactly(c: Tables, newId: Id, project: Id, key: string, value: string, secret: bool, id: Id)
    requires Inv(c) && newId !in c.pool && id in c.pool
    ensures OwnerChanged(c, SetManual(c, newId, project, key, value, secret), id) <==>
      IsAt(c, project, key, id) && c.pool[id].source != MANUAL
  {
    UpsertTakesOverExactly(c, newId, PoolVar(project, key, Some(value), secret, MANUAL, None), true, id);
  }

  /** So does publishing a variable of a service, from anyone but the service itself. */
  lemma BaasTakesOverExactly(c: Tables, newId: Id, service: Id, project: Id, key: string, value: string,
          secret: bool, id: Id)
    requires Inv(c) && newId !in c.pool && id in c.pool
    ensures OwnerChanged(c, BaasVar(c, newId, service, project, key, value, secret), id) <==>
      IsAt(c, project, key, id) && !HasSource(c, BAAS_AUTH, service, id)
  {
    UpsertTakesOverExactly(c, newId, PoolVar(project, key, Some(value), secret, BAAS_AUTH, Some(service)), false, id);
  }

  /** A bucket takes a variable over exactly on its first publish, and only at its two keys. */
  lemma BucketTakesOverExactly(c: Tables, id1: Id, id2: Id, project: Id, bucket: Id, prefix: string,
                               appId: string, secretKey: string, id: Id)
    requires Inv(c) && id1 !in c.pool && id2 !in c.pool && id1 != id2 && id in c.pool
    ensures OwnerChanged(c, PublishBucket(c, id1, id2, project, bucket, prefix, appId, secretKey), id) <==>
      && (forall other :: !IsOwned(c, project, STORAGE, bucket, other))
      && (IsAt(c, project, prefix + "_APP_ID", id) || IsAt(c, project, prefix + "_SECRET_KEY", id))
  {
    if forall other :: !IsOwned(c, project, STORAGE, bucket, other) {
      var v1 := PoolVar(project, prefix + "_APP_ID", Some(appId), false, STORAGE, Some(bucket));
      var v2 := PoolVar(project, prefix + "_SECRET_KEY", Some(secretKey), true, STORAGE, Some(bucket));
      assert |v1.key| != |v2.key|;
      var at1, w1 := UpsertWrites(c, id1, v1, false);
      WriteKeepsInv(c, at1, w1);
      var c1 := Write(c, at1, w1);
      UpsertTakesOverExactly(c, id1, v1, false, id);
      UpsertTakesOverExactly(c1, id2, v2, false, id);
      assert !IsOwned(c, project, STORAGE, bucket, id);
      assert c1.pool[id].key == c.pool[id].key && c1.pool[id].project == c.pool[id].project;
      assert id == at1 ==> !IsAt(c1, project, v2.key, id);
      assert id != at1 ==> c1.pool[id] == c.pool[id];
    }
  }

  /**
   Rotating the secret of one service takes another service's secret away exactly when the first has none and the
   second keeps its own in the same project under the default key.
   */
  lemma RotateTakesSecretExactly(c: Tables, newId: Id, service: Id, other: Id, value: string, id: Id)
    requires Inv(c) && newId !in c.pool && service in c.serviceProject && service != other && IsSecretOf(c, other, id)
    ensures var d := Rotate(c, newId, service, c.serviceProject[service], value);
      (forall x :: !IsSecretOf(d, other, x)) <==>
        && (forall x :: !IsSecretOf(c, service, x))
        && IsAt(c, c.serviceProject[service], AUTH_SECRET_ENV_KEY, id)
  {
    var project := c.serviceProject[service];
    var v := PoolVar(project, SecretKey(c, service), Some(value), true, BAAS_AUTH, Some(service));
    var at, w := UpsertWrites(c, newId, v, false);
    var d := Write(c, at, w);
    assert d == Rotate(c, newId, service, project, value);
    if x :| IsSecretOf(c, service, x) {
      assert HasSource(c, BAAS_AUTH, service, x);
      RotateRefreshes(c, newId, service, x, value);
      assert IsSecretOf(d, other, id);
    } else if at == id {
      forall x ensures !IsSecretOf(d, other, x) {
        assert x != at ==> (IsSecretOf(d, other, x) <==> IsSecretOf(c, other, x));
      }
    } else {
      assert SecretKey(c, service) == AUTH_SECRET_ENV_KEY && !IsAt(c, v.project, v.key, id);
      assert d.pool[id] == c.pool[id] && IsSecretOf(d, other, id);
    }
  }

  // ---------- runs ----------

  datatype Op =
    | OpPublish(newId: Id, v: PoolVar)
    | OpUnpublish(source: string, sourceId: Id)
    | OpSet(newId: Id, project: Id, key: string, value: string, secret: bool)
    | OpRename(project: Id, id: Id, key: string)
    | OpDelete(project: Id, id: Id)
    | OpLink(instance: Id, id: Id)
    | OpUnlink(instance: Id, id: Id)
    | OpCreateService(service: Id, project: Id)
    | OpBaasVar(newId: Id, service: Id, key: string, value: string)
    | OpPublishSecret(newId: Id, service: Id, key: string, value: string)
    | OpRotate(newId: Id, service: Id, value: string)
    | OpBucket(id1: Id, id2: Id, project: Id, bucket: Id, prefix: string, appId: string, secretKey: string)
    | OpSetLocal(newId: Id, local: LocalVar)
    | OpClearLocals(instance: Id)
    | OpDeleteLocal(k: Id)

  /** New ids are fresh, a service is new when it is created, and its first secret is published only once. */
  ghost predicate Enabled(c: Tables, op: Op) {
    match op
    case OpPublish(newId, v) => newId !in c.pool && v.sourceId.Some? && SingleVar(v.source)
    case OpSet(newId, _, _, _, _) => newId !in c.pool
    case OpCreateService(service, project) =>
      service !in c.serviceProject && forall id :: !HasSource(c, BAAS_AUTH, service, id)
    case OpBaasVar(newId, service, _, _) => newId !in c.pool && service in c.serviceProject
    case OpPublishSecret(newId, service, _, _) =>
      newId !in c.pool && service in c.serviceProject && forall id :: !IsSecretOf(c, service, id)
    case OpRotate(newId, service, _) => newId !in c.pool && service in c.serviceProject
    case OpBucket(id1, id2, _, _, _, _, _) => id1 !in c.pool && id2 !in c.pool && id1 != id2
    case OpSetLocal(newId, _) => newId !in c.locals
    case _ => true
  }

  ghost function Apply(c: Tables, op: Op): Tables
    requires Enabled(c, op)
  {
    match op
    case OpPublish(newId, v) => Publish(c, newId, v)
    case OpUnpublish(source, sourceId) => Drop(c, Owned(c, source, sourceId))
    case OpSet(newId, project, key, value, secret) => SetManual(c, newId, project, key, value, secret)
    case OpRename(project, id, key) => if CanRename(c, project, id, key) then Rename(c, id, key) else c
    case OpDelete(project, id) => if id in c.pool && c.pool[id].project == project then Drop(c, {id}) else c
    case OpLink(instance, id) => if CanLink(c, instance, id) then Link(c, instance, id) else c
    case OpUnlink(instance, id) => c.(links := c.links - {(instance, id)})
    case OpCreateService(service, project) => c.(serviceProject := c.serviceProject[service := project])
    case OpBaasVar(newId, service, key, value) =>
      BaasVar(c, newId, service, c.serviceProject[service], key, value, false)
    case OpPublishSecret(newId, service, key, value) =>
      BaasVar(c, newId, service, c.serviceProject[service], key, value, true)
    case OpRotate(newId, service, value) => Rotate(c, newId, service, c.serviceProject[service], value)
    case OpBucket(id1, id2, project, bucket, prefix, appId, secretKey) =>
      PublishBucket(c, id1, id2, project, bucket, prefix, appId, secretKey)
    case OpSetLocal(newId, local) => SetLocal(c, newId, local)
    case OpClearLocals(instance) => ClearLocals(c, instance)
    case OpDeleteLocal(k) => c.(locals := map j | j in c.locals && j != k :: c.locals[j])
  }

  lemma OpKeepsInv(c: Tables, op: Op)
    requires Inv(c) && Enabled(c, op)
    ensures Inv(Apply(c, op))
  {
    match op
    case OpPublish(newId, v) => PublishKeepsInv(c, newId, v);
    case OpUnpublish(source, sourceId) => DropKeepsInv(c, Owned(c, source, sourceId));
    case OpSet(newId, project, key, value, secret) => SetManualKeepsInv(c, newId, project, key, value, secret);
    case OpRename(project, id, key) => if CanRename(c, project, id, key) { RenameKeepsInv(c, project, id, key); }
    case OpDelete(project, id) => DropKeepsInv(c, {id});
    case OpLink(instance, id) => if CanLink(c, instance, id) { LinkKeepsInv(c, instance, id); }
    case OpUnlink(instance, id) => SamePoolKeepsInv(c, Apply(c, op));
    case OpCreateService(service, project) => CreateServiceKeepsInv(c, service, project);
    case OpBaasVar(newId, service, key, value) =>
      BaasVarKeepsInv(c, newId, service, c.serviceProject[service], key, value, false);
    case OpPublishSecret(newId, service, key, value) =>
      BaasVarKeepsInv(c, newId, service, c.serviceProject[service], key, value, true);
    case OpRotate(newId, service, value) => RotateKeepsInv(c, newId, service, c.serviceProject[service], value);
    case OpBucket(id1, id2, project, bucket, prefix, appId, secretKey) =>
      PublishBucketKeepsInv(c, id1, id2, project, bucket, prefix, appId, secretKey);
    case OpSetLocal(newId, local) => SetLocalKeepsInv(c, newId, local);
    case OpClearLocals(instance) => ClearLocalsKeepsInv(c, instance);
    case OpDeleteLocal(k) => SamePoolKeepsInv(c, Apply(c, op));
  }

  lemma CreateServiceKeepsInv(c: Tables, service: Id, project: Id)
    requires Inv(c) && Enabled(c, OpCreateService(service, project))
    ensures Inv(Apply(c, OpCreateService(service, project)))
  {
    var d := Apply(c, OpCreateService(service, project));
    forall other, a ensures HasSource(d, BAAS_AUTH, other, a) == HasSource(c, BAAS_AUTH, other, a) {}
    forall other, a ensures IsSecretOf(d, other, a) == IsSecretOf(c, other, a) {}
    forall l <- d.links ensures CanLink(d, l.0, l.1) {
      assert CanLink(c, l.0, l.1);
    }
  }

  ghost predicate IsRun(c: Tables, ops: seq<Op>)
    decreases |ops|
  {
    |ops| == 0 || (Enabled(c, ops[0]) && IsRun(Apply(c, ops[0]), ops[1..]))
  }

  ghost function After(c: Tables, ops: seq<Op>): Tables
    requires IsRun(c, ops)
    decreases |ops|
  {
    if |ops| == 0 then c else After(Apply(c, ops[0]), ops[1..])
  }

  /** Every run keeps one row per key, one per owner, one secret per service, and sound links. */
  lemma {:induction false} RunKeepsInv(c: Tables, ops: seq<Op>)
    requires Inv(c) && IsRun(c, ops)
    ensures Inv(After(c, ops))
    decreases |ops|
  {
    if |ops| > 0 {
      OpKeepsInv(c, ops[0]);
      RunKeepsInv(Apply(c, ops[0]), ops[1..]);
    }
  }

  /** So these hold in all tables that a run from empty ones can reach. */
  lemma ReachableTables(c: Tables, ops: seq<Op>)
    requires c.pool == map[] && c.links == {} && c.locals == map[] && IsRun(c, ops)
    ensures Inv(After(c, ops))
  {
    RunKeepsInv(c, ops);
  }
}
