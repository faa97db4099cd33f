/**
 The handlers that change the environment tables, statement by statement, each proved against its
 specification in `EnvPool`.
 */
module EnvStore {
  import opened Common
  import opened Text
  import opened EnvPool

  // ---------- keys ----------

  predicate IsAlpha(c: char) {
    'a' <= c <= 'z' || 'A' <= c <= 'Z'
  }

  predicate IsIdentifierChar(c: char) {
    IsAlpha(c) || '0' <= c <= '9' || c == '_'
  }

  /** A name that Kubernetes accepts for an environment variable. */
  predicate IsIdentifier(s: string) {
    && |s| > 0 && (IsAlpha(s[0]) || s[0] == '_')
    && forall c <- s :: IsIdentifierChar(c)
  }

  function SpacesToUnderscores(s: string): (r: string)
    ensures |r| == |s|
    ensures forall i :: 0 <= i < |s| ==> r[i] == if s[i] == ' ' then '_' else s[i]
  {
    if |s| == 0 then [] else [if s[0] == ' ' then '_' else s[0]] + SpacesToUnderscores(s[1..])
  }

  /** `upper` is Unicode upper-casing. */
  function CleanEnvKey(raw: string, upper: string -> string): (r: Result<string, EnvError>)
    ensures var clean := SpacesToUnderscores(upper(Trim(raw)));
      r == if IsIdentifier(clean) then Ok(clean) else Err(InvalidKey)
  {
    var clean := SpacesToUnderscores(upper(Trim(raw)));
    if |clean| == 0 then Err(InvalidKey)
    else if !(IsAlpha(clean[0]) || clean[0] == '_') || exists c <- clean :: !IsIdentifierChar(c) then Err(InvalidKey)
    else Ok(clean)
  }

  datatype BulkVar = BulkVar(key: string, value: string, secret: Option<bool>)

  /** A variable is secret unless the request says it is not. */
  lemma LocalOfRequest(instance: Id, v: BulkVar, upper: string -> string)
    requires CleanEnvKey(v.key, upper).Ok?
    ensures var r := ToLocal(instance, v, upper);
      && r.instance == instance && r.key == SpacesToUnderscores(upper(Trim(v.key)))
      && r.value == Some(v.value) && (r.secret <==> v.secret != Some(false))
  {}

  predicate AllValid(vars: seq<BulkVar>, upper: string -> string) {
    forall v <- vars :: CleanEnvKey(v.key, upper).Ok?
  }

  function ToLocal(instance: Id, v: BulkVar, upper: string -> string): LocalVar
    requires CleanEnvKey(v.key, upper).Ok?
  {
    LocalVar(instance, CleanEnvKey(v.key, upper).value, Some(v.value), if v.secret.None? then true else v.secret.value)
  }

  function ToLocals(instance: Id, vars: seq<BulkVar>, upper: string -> string): (r: seq<LocalVar>)
    requires AllValid(vars, upper)
    ensures |r| == |vars|
    ensures forall i :: 0 <= i < |r| ==> r[i] == ToLocal(instance, vars[i], upper)
  {
    if |vars| == 0 then []
    else ToLocals(instance, vars[..|vars| - 1], upper) + [ToLocal(instance, vars[|vars| - 1], upper)]
  }

  function Refreshed(v: PoolVar, affected: bool, appId: string, secretKey: string): PoolVar {
    if affected then v.(value := Some(if v.secret then secretKey else appId)) else v
  }

  class EnvStore {
    var projectOf: map<Id, Id>
    var serviceProject: map<Id, Id>
    var pool: map<Id, PoolVar>
    var links: set<(Id, Id)>
    var locals: map<Id, LocalVar>

    ghost function State(): Tables
      reads this
    {
      Tables(projectOf, serviceProject, pool, links, locals)
    }

    /** The upsert on (project_id, key) that every writer of the pool uses; returns the row's id. */
    method UpsertRow(newId: Id, v: PoolVar, keepSourceId: bool) returns (id: Id)
      requires KeysUnique(State())
      modifies this`pool
      ensures State() == Upsert(old(State()), newId, v, keepSourceId)
      ensures IsAt(State(), v.project, v.key, id)
      ensures pool[id].source == v.source && (!keepSourceId ==> pool[id].sourceId == v.sourceId)
    {
      if at :| at in pool && pool[at].project == v.project && pool[at].key == v.key {
        UpsertHits(State(), newId, v, keepSourceId, at);
        pool := pool[at := pool[at].(value := v.value, secret := v.secret, source := v.source,
                                     sourceId := if keepSourceId then pool[at].sourceId else v.sourceId)];
        id := at;
      } else {
        assert forall other :: !IsAt(State(), v.project, v.key, other);
        pool := pool[newId := v];
        id := newId;
      }
    }

    method PublishProjectEnv(newId: Id, project: Id, key: string, value: string, secret: bool, source: string,
            sourceId: Id)
      returns (id: Id)
      requires Inv(State()) && newId !in pool && SingleVar(source)
      modifies this`pool
      ensures State()
        == Publish(old(State()), newId, PoolVar(project, key, Some(value), secret, source, Some(sourceId)))
      ensures IsOwned(State(), project, source, sourceId, id)
    {
      ghost var v := PoolVar(project, key, Some(value), secret, source, Some(sourceId));
      if existing :| existing in pool && pool[existing].project == project && pool[existing].source == source
                     && pool[existing].sourceId == Some(sourceId) {
        assert IsOwned(State(), project, source, sourceId, existing);
        PublishRefreshes(State(), newId, v, existing);
        pool := pool[existing := pool[existing].(value := Some(value), secret := secret)];
        return existing;
      }
      assert forall other :: !IsOwned(State(), project, source, sourceId, other);
      id := UpsertRow(newId, PoolVar(project, key, Some(value), secret, source, Some(sourceId)), false);
    }

    method DropRows(ids: set<Id>)
      modifies this`pool, this`links
      ensures State() == Drop(old(State()), ids)
    {
      pool := map id | id in pool && id !in ids :: pool[id];
      links := set l | l in links && l.1 !in ids;
    }

    /** Returns the instances that had linked the removed variables. */
    method UnpublishProjectEnv(source: string, sourceId: Id) returns (linked: set<Id>)
      modifies this`pool, this`links
      ensures State() == Drop(old(State()), Owned(old(State()), source, sourceId))
      ensures linked == set l | l in old(links) && HasSource(old(State()), source, sourceId, l.1) :: l.0
      ensures forall id :: !HasSource(State(), source, sourceId, id)
    {
      linked := set l | l in links && l.1 in pool && pool[l.1].source == source
        && pool[l.1].sourceId == Some(sourceId) :: l.0;
      DropRows(set id | id in pool && pool[id].source == source && pool[id].sourceId == Some(sourceId));
    }

    method SetProjectEnv(newId: Id, project: Id, rawKey: string, value: string, secret: Option<bool>,
            upper: string -> string)
      returns (r: Result<Id, EnvError>)
      requires Inv(State()) && newId !in pool
      modifies this`pool
      ensures match CleanEnvKey(rawKey, upper)
        case Err(e) => r == Err(e) && State() == old(State())
        case Ok(key) =>
          && r.Ok? && IsAt(State(), project, key, r.value)
          && State() == SetManual(old(State()), newId, project, key, value, if secret.None? then true else secret.value)
    {
      var key := CleanEnvKey(rawKey, upper);
      if key.Err? { return Err(key.error); }
      var isSecret := if secret.None? then true else secret.value;
      var id := UpsertRow(newId, PoolVar(project, key.value, Some(value), isSecret, MANUAL, None), true);
      r := Ok(id);
    }

    method RenameProjectEnv(project: Id, id: Id, rawKey: string, upper: string -> string)
      returns (r: Result<(), EnvError>)
      modifies this`pool
      ensures match CleanEnvKey(rawKey, upper)
        case Err(e) => r == Err(e) && State() == old(State())
        case Ok(key) =>
          && (r.Ok? <==> CanRename(old(State()), project, id, key))
          && (r == Err(KeyTaken) <==> KeyTakenByOther(old(State()), project, key, id))
          && State() == if r.Ok? then Rename(old(State()), id, key) else old(State())
    {
      var key := CleanEnvKey(rawKey, upper);
      if key.Err? { return Err(key.error); }
      var collision := exists other <- pool ::
        other != id && pool[other].project == project && pool[other].key == key.value;
      if collision {
        ghost var other :| other in pool && other != id && pool[other].project == project
          && pool[other].key == key.value;
        assert IsAt(State(), project, key.value, other);
        return Err(KeyTaken);
      }
      assert !KeyTakenByOther(State(), project, key.value, id);
      if id !in pool || pool[id].project != project { return Err(NotFound); }
      pool := pool[id := pool[id].(key := key.value)];
      r := Ok(());
    }

    method DeleteProjectEnv(project: Id, id: Id) returns (r: Result<set<Id>, EnvError>)
      modifies this`pool, this`links
      ensures r.Ok? <==> id in old(pool) && old(pool)[id].project == project
      ensures r.Ok? ==> State() == Drop(old(State()), {id}) && r.value == set l | l in old(links) && l.1 == id :: l.0
      ensures r.Err? ==> State() == old(State())
    {
      var linked := set l | l in links && l.1 == id :: l.0;
      if id !in pool || pool[id].project != project { return Err(NotFound); }
      DropRows({id});
      r := Ok(linked);
    }

    /** Returns the key of the local variable that the link replaced, if there was one. */
    method LinkProjectEnv(instance: Id, id: Id) returns (r: Result<Option<string>, EnvError>)
      modifies this`links, this`locals
      ensures r.Ok? <==> CanLink(old(State()), instance, id)
      ensures r == Err(NotFound) <==> instance !in projectOf
      ensures r.Ok? ==>
        && State() == Link(old(State()), instance, id)
        && (r.value.Some? <==> exists k :: LocalAt(old(State()), instance, pool[id].key, k))
        && (r.value.Some? ==> r.value.value == pool[id].key)
      ensures r.Err? ==> State() == old(State())
    {
      if instance !in projectOf { return Err(NotFound); }
      var project := projectOf[instance];
      if id !in pool || pool[id].project != project { return Err(Forbidden); }
      var key := pool[id].key;
      var hits := set k | k in locals && locals[k].instance == instance && locals[k].key == key;
      var replaced: Option<string> := None;
      if hits != {} {
        ghost var k :| k in hits;
        assert LocalAt(State(), instance, key, k);
        replaced := Some(key);
      } else {
        assert forall k :: LocalAt(State(), instance, key, k) ==> k in hits;
      }
      locals := map k | k in locals && !(locals[k].instance == instance && locals[k].key == key) :: locals[k];
      links := links + {(instance, id)};
      r := Ok(replaced);
    }

    method UnlinkProjectEnv(instance: Id, id: Id) returns (r: Result<(), EnvError>)
      modifies this`links
      ensures r.Ok? <==> instance in projectOf
      ensures State() == if r.Ok? then old(State()).(links := old(links) - {(instance, id)}) else old(State())
    {
      if instance !in projectOf { return Err(NotFound); }
      links := links - {(instance, id)};
      r := Ok(());
    }

    method PublishBaasVar(newId: Id, project: Id, service: Id, key: string, value: string, secret: bool)
      requires KeysUnique(State())
      modifies this`pool
      ensures State() == BaasVar(old(State()), newId, service, project, key, value, secret)
    {
      var _ := UpsertRow(newId, PoolVar(project, key, Some(value), secret, BAAS_AUTH, Some(service)), false);
    }

    method RotateSecret(newId: Id, service: Id, project: Id, generated: string) returns (secret: string)
      requires Inv(State())
      modifies this`pool
      ensures secret == generated && State() == Rotate(old(State()), newId, service, project, generated)
    {
      var existingKey := AUTH_SECRET_ENV_KEY;
      if id :| id in pool && pool[id].source == BAAS_AUTH && pool[id].sourceId == Some(service) && pool[id].secret {
        assert forall other :: IsSecretOf(State(), service, other) <==> other == id by {
          assert IsSecretOf(State(), service, id);
        }
        existingKey := pool[id].key;
      } else {
        assert forall other :: !IsSecretOf(State(), service, other);
      }
      PublishBaasVar(newId, project, service, existingKey, generated, true);
      secret := generated;
    }

    /** Decrypts the stored secret, or creates one on first need. */
    method GetOrCreateSecret(newId: Id, service: Id, project: Id, generated: string)
      returns (r: Result<string, EnvError>)
      requires Inv(State())
      modifies this`pool
      ensures forall id :: IsSecretOf(old(State()), service, id) ==>
        && State() == old(State())
        && r == match pool[id].value case Some(v) => Ok(v) case None => Err(Undecryptable)
      ensures (forall id :: !IsSecretOf(old(State()), service, id)) ==>
        r == Ok(generated) && State() == Rotate(old(State()), newId, service, project, generated)
    {
      if id :| id in pool && pool[id].source == BAAS_AUTH && pool[id].sourceId == Some(service) && pool[id].secret {
        assert IsSecretOf(State(), service, id);
        return match pool[id].value case Some(v) => Ok(v) case None => Err(Undecryptable);
      }
      assert forall other :: !IsSecretOf(State(), service, other);
      var secret := RotateSecret(newId, service, project, generated);
      r := Ok(secret);
    }

    /** The loop over the rows a bucket already published: values change, keys and ids do not. */
    method RefreshRows(existing: set<Id>, appId: string, secretKey: string)
      requires existing <= pool.Keys
      modifies this`pool
      ensures pool == map id | id in old(pool) :: Refreshed(old(pool)[id], id in existing, appId, secretKey)
    {
      var rest := existing;
      while rest != {}
        invariant rest <= existing && pool.Keys == old(pool.Keys)
        invariant forall id <- pool :: pool[id] == Refreshed(old(pool)[id], id in existing
          && id !in rest, appId, secretKey)
        decreases rest
      {
        var id :| id in rest;
        var value := if pool[id].secret then secretKey else appId;
        pool := pool[id := pool[id].(value := Some(value))];
        rest := rest - {id};
      }
    }

    method PublishBucketCredentials(id1: Id, id2: Id, project: Id, bucket: Id, prefix: string, appId: string,
            secretKey: string)
      requires Inv(State()) && id1 !in pool && id2 !in pool && id1 != id2
      modifies this`pool
      ensures State() == PublishBucket(old(State()), id1, id2, project, bucket, prefix, appId, secretKey)
    {
      ghost var was := State();
      var existing := set id | id in pool && pool[id].project == project && pool[id].source == STORAGE
        && pool[id].sourceId == Some(bucket);
      if existing != {} {
        ghost var some :| some in existing;
        assert IsOwned(was, project, STORAGE, bucket, some);
        assert forall id :: IsOwned(was, project, STORAGE, bucket, id) <==> id in existing;
        RefreshRows(existing, appId, secretKey);
        assert pool == RefreshBucket(was, project, bucket, appId, secretKey).pool;
        return;
      }
      assert forall id :: IsOwned(was, project, STORAGE, bucket, id) ==> id in existing;
      ghost var v1 := PoolVar(project, prefix + "_APP_ID", Some(appId), false, STORAGE, Some(bucket));
      ghost var at, w := UpsertWrites(was, id1, v1, false);
      WriteKeepsInv(was, at, w);
      var _ := UpsertRow(id1, PoolVar(project, prefix + "_APP_ID", Some(appId), false, STORAGE, Some(bucket)), false);
      var _ := UpsertRow(id2, PoolVar(project, prefix + "_SECRET_KEY", Some(secretKey), true, STORAGE, Some(bucket)),
        false);
    }

    method UpsertLocal(newId: Id, v: LocalVar)
      requires LocalsUnique(State())
      modifies this`locals
      ensures State() == SetLocal(old(State()), newId, v)
    {
      if k :| k in locals && locals[k].instance == v.instance && locals[k].key == v.key {
        LocalHits(State(), newId, v, k);
        locals := locals[k := locals[k].(value := v.value, secret := v.secret)];
      } else {
        assert forall other :: !LocalAt(State(), v.instance, v.key, other);
        locals := locals[newId := v];
      }
    }

    method SetEnvVariable(newId: Id, instance: Id, v: BulkVar, upper: string -> string)
      returns (r: Result<(), EnvError>)
      requires Inv(State()) && newId !in locals
      modifies this`locals
      ensures r.Ok? <==> instance in projectOf && CleanEnvKey(v.key, upper).Ok?
      ensures State() == if r.Ok? then SetLocal(old(State()), newId, ToLocal(instance, v, upper)) else old(State())
    {
      if instance !in projectOf { return Err(NotFound); }
      var key := CleanEnvKey(v.key, upper);
      if key.Err? { return Err(key.error); }
      UpsertLocal(newId, LocalVar(instance, key.value, Some(v.value), if v.secret.None? then true else v.secret.value));
      r := Ok(());
    }

    /** One transaction: an invalid key anywhere in the list leaves the instance's variables as they were. */
    method SetEnvsBulk(newIds: seq<Id>, instance: Id, vars: seq<BulkVar>, upper: string -> string)
      returns (r: Result<(), EnvError>)
      requires Inv(State()) && |newIds| == |vars| && FreshLocalIds(State(), newIds)
      modifies this`locals
      ensures r.Ok? <==> instance in projectOf && AllValid(vars, upper)
      ensures r.Ok? ==>
        State() == SetLocals(ClearLocals(old(State()), instance), newIds, ToLocals(instance, vars, upper))
      ensures r.Err? ==> State() == old(State())
    {
      if instance !in projectOf { return Err(NotFound); }
      var saved := locals;
      locals := map k | k in locals && locals[k].instance != instance :: locals[k];
      ghost var cleared := State();
      ClearLocalsKeepsInv(old(State()), instance);
      for i := 0 to |vars|
        invariant AllValid(vars[..i], upper)
        invariant State() == SetLocals(cleared, newIds[..i], ToLocals(instance, vars[..i], upper))
      {
        var v := vars[i];
        var key := CleanEnvKey(v.key, upper);
        if key.Err? {
          locals := saved;
          return Err(key.error);
        }
        SetLocalsKeepsInv(cleared, newIds[..i], ToLocals(instance, vars[..i], upper));
        BulkStep(cleared, newIds, instance, vars, upper, i);
        var isSecret := if v.secret.None? then true else v.secret.value;
        UpsertLocal(newIds[i], LocalVar(instance, key.value, Some(v.value), isSecret));
      }
      assert vars[..|vars|] == vars && newIds[..|newIds|] == newIds;
      r := Ok(());
    }

    method DeleteEnvVariable(k: Id) returns (r: Result<Id, EnvError>)
      modifies this`locals
      ensures r == if k in old(locals) then Ok(old(locals)[k].instance) else Err(NotFound)
      ensures State() == old(State()).(locals := map j | j in old(locals) && j != k :: old(locals)[j])
    {
      if k !in locals {
        assert locals == map j | j in locals && j != k :: locals[j];
        return Err(NotFound);
      }
      r := Ok(locals[k].instance);
      locals := map j | j in locals && j != k :: locals[j];
    }
  }

  lemma UpsertHits(c: Tables, newId: Id, v: PoolVar, keepSourceId: bool, at: Id)
    requires KeysUnique(c) && IsAt(c, v.project, v.key, at)
    ensures Upsert(c, newId, v, keepSourceId) == Write(c, at, Overwritten(c.pool[at], v, keepSourceId))
  {
    assert forall other :: IsAt(c, v.project, v.key, other) ==> other == at;
  }

  lemma LocalHits(c: Tables, newId: Id, v: LocalVar, k: Id)
    requires LocalsUnique(c) && LocalAt(c, v.instance, v.key, k)
    ensures SetLocal(c, newId, v) == c.(locals := c.locals[k := v])
  {
    assert forall other :: LocalAt(c, v.instance, v.key, other) ==> other == k;
  }

  lemma BulkStep(c: Tables, newIds: seq<Id>, instance: Id, vars: seq<BulkVar>, upper: string -> string, i: nat)
    requires i < |vars| == |newIds| && AllValid(vars[..i], upper) && CleanEnvKey(vars[i].key, upper).Ok?
    ensures AllValid(vars[..i + 1], upper)
    ensures SetLocals(c, newIds[..i + 1], ToLocals(instance, vars[..i + 1], upper))
      == SetLocal(SetLocals(c, newIds[..i], ToLocals(instance, vars[..i], upper)), newIds[i], ToLocal(instance,
        vars[i], upper))
  {
    assert vars[..i + 1][..i] == vars[..i] && newIds[..i + 1][..i] == newIds[..i];
    assert forall v <- vars[..i + 1] :: v in vars[..i] || v == vars[i];
    assert ToLocals(instance, vars[..i + 1], upper)[..i] == ToLocals(instance, vars[..i], upper);
  }
}
