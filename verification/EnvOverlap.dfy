/**
 "A key can't be both local and linked": linking a variable deletes the instance's own variable of that key. This
 module says which of the other operations keep the two apart, and when the others do not.
 */
module EnvOverlap {
  import opened Common
  import opened EnvPool

  /** No instance both links a variable and has its own of the same key. */
  ghost predicate Apart(c: Tables) {
    forall l <- c.links, k <- c.locals ::
      l.1 in c.pool && c.locals[k].instance == l.0 ==> c.locals[k].key != c.pool[l.1].key
  }

  ghost predicate OwnsKey(c: Tables, instance: Id, key: string) {
    exists k :: LocalAt(c, instance, key, k)
  }

  /** Nothing is linked or set that was not, and linked rows keep their keys. */
  ghost predicate AddsNothing(c: Tables, d: Tables) {
    && d.links <= c.links
    && (forall k <- d.locals :: k in c.locals && d.locals[k] == c.locals[k])
    && (forall id <- c.pool :: id in d.pool ==> d.pool[id].key == c.pool[id].key)
  }

  lemma AddingNothingKeepsApart(c: Tables, d: Tables)
    requires LinksResolve(c) && Apart(c) && AddsNothing(c, d)
    ensures Apart(d)
  {
    forall l <- d.links, k <- d.locals | l.1 in d.pool && d.locals[k].instance == l.0
      ensures d.locals[k].key != d.pool[l.1].key
    {
      assert CanLink(c, l.0, l.1);
    }
  }

  lemma UpsertAddsNothing(c: Tables, newId: Id, v: PoolVar, keepSourceId: bool)
    requires KeysUnique(c) && newId !in c.pool
    ensures AddsNothing(c, Upsert(c, newId, v, keepSourceId))
  {
    var at, w := UpsertWrites(c, newId, v, keepSourceId);
  }

  lemma PublishAddsNothing(c: Tables, newId: Id, v: PoolVar)
    requires Inv(c) && newId !in c.pool && v.sourceId.Some? && SingleVar(v.source)
    ensures AddsNothing(c, Publish(c, newId, v))
  {
    if id :| IsOwned(c, v.project, v.source, v.sourceId.value, id) {
      PublishRefreshes(c, newId, v, id);
    } else {
      UpsertAddsNothing(c, newId, v, false);
    }
  }

  lemma BucketAddsNothing(c: Tables, id1: Id, id2: Id, project: Id, bucket: Id, prefix: string,
                          appId: string, secretKey: string)
    requires Inv(c) && id1 !in c.pool && id2 !in c.pool && id1 != id2
    ensures AddsNothing(c, PublishBucket(c, id1, id2, project, bucket, prefix, appId, secretKey))
  {
    if forall id :: !IsOwned(c, project, STORAGE, bucket, id) {
      var v1 := PoolVar(project, prefix + "_APP_ID", Some(appId), false, STORAGE, Some(bucket));
      var v2 := PoolVar(project, prefix + "_SECRET_KEY", Some(secretKey), true, STORAGE, Some(bucket));
      var at, w := UpsertWrites(c, id1, v1, false);
      WriteKeepsInv(c, at, w);
      UpsertAddsNothing(c, id1, v1, false);
      UpsertAddsNothing(Write(c, at, w), id2, v2, false);
    }
  }

  /** Setting an own variable keeps them apart exactly when the instance links no variable of that key. */
  lemma SetLocalExactly(c: Tables, newId: Id, v: LocalVar)
    requires Inv(c) && Apart(c) && newId !in c.locals
    ensures Apart(SetLocal(c, newId, v)) <==> !LinksKey(c, v.instance, v.key)
  {
    var d := SetLocal(c, newId, v);
    var at := if k: nat :| LocalAt(c, v.instance, v.key, k) then k else newId;
    assert d == c.(locals := c.locals[at := v]);
    if id :| id in c.pool && (v.instance, id) in c.links && c.pool[id].key == v.key {
      var l := (v.instance, id);
      assert l in d.links && l.1 in d.pool && d.locals[at].instance == l.0 && d.locals[at].key == d.pool[l.1].key;
    } else {
      forall l <- d.links, k <- d.locals | l.1 in d.pool && d.locals[k].instance == l.0
        ensures d.locals[k].key != d.pool[l.1].key
      {
        assert l == (l.0, l.1);
      }
    }
  }

  /** A rename keeps them apart exactly when no instance that links the variable has its own of the new key. */
  lemma RenameExactly(c: Tables, project: Id, id: Id, key: string)
    requires Inv(c) && Apart(c) && CanRename(c, project, id, key)
    ensures Apart(Rename(c, id, key)) <==> forall l <- c.links :: l.1 == id ==> !OwnsKey(c, l.0, key)
  {
    var d := Rename(c, id, key);
    if l :| l in c.links && l.1 == id && OwnsKey(c, l.0, key) {
      var k :| LocalAt(c, l.0, key, k);
      assert l in d.links && d.locals[k].key == d.pool[l.1].key;
    } else {
      forall l <- d.links, k <- d.locals | l.1 in d.pool && d.locals[k].instance == l.0
        ensures d.locals[k].key != d.pool[l.1].key
      {
        assert l.1 == id && d.locals[k].key == key ==> LocalAt(c, l.0, key, k);
      }
    }
  }

  /** What has to hold before an operation; only own variables and renames ask for something. */
  ghost predicate Safe(c: Tables, op: Op) {
    match op
    case OpSetLocal(newId, v) => !LinksKey(c, v.instance, v.key)
    case OpRename(project, id, key) =>
      CanRename(c, project, id, key) ==> forall l <- c.links :: l.1 == id ==> !OwnsKey(c, l.0, key)
    case _ => true
  }

  lemma OtherOpAddsNothing(c: Tables, op: Op)
    requires Inv(c) && Enabled(c, op) && !op.OpSetLocal? && !op.OpRename? && !op.OpLink?
    ensures AddsNothing(c, Apply(c, op))
  {
    match op
    case OpPublish(newId, v) => PublishAddsNothing(c, newId, v);
    case OpSet(newId, project, key, value, secret) =>
      UpsertAddsNothing(c, newId, PoolVar(project, key, Some(value), secret, MANUAL, None), true);
    case OpBaasVar(newId, service, key, value) => BaasAddsNothing(c, newId, service, key, value, false);
    case OpPublishSecret(newId, service, key, value) => BaasAddsNothing(c, newId, service, key, value, true);
    case OpRotate(newId, service, value) => BaasAddsNothing(c, newId, service, SecretKey(c, service), value, true);
    case OpBucket(id1, id2, project, bucket, prefix, appId, secretKey) =>
      BucketAddsNothing(c, id1, id2, project, bucket, prefix, appId, secretKey);
    case _ =>
  }

  lemma BaasAddsNothing(c: Tables, newId: Id, service: Id, key: string, value: string, secret: bool)
    requires Inv(c) && newId !in c.pool && service in c.serviceProject
    ensures AddsNothing(c, BaasVar(c, newId, service, c.serviceProject[service], key, value, secret))
  {
    var v := PoolVar(c.serviceProject[service], key, Some(value), secret, BAAS_AUTH, Some(service));
    UpsertAddsNothing(c, newId, v, false);
  }

  lemma LinkKeepsApart(c: Tables, instance: Id, id: Id)
    requires Inv(c) && Apart(c) && CanLink(c, instance, id)
    ensures Apart(Link(c, instance, id))
  {}

  lemma StepKeepsApartExactly(c: Tables, op: Op)
    requires Inv(c) && Apart(c) && Enabled(c, op)
    ensures Apart(Apply(c, op)) <==> Safe(c, op)
  {
    match op
    case OpSetLocal(newId, v) => SetLocalExactly(c, newId, v);
    case OpRename(project, id, key) => if CanRename(c, project, id, key) { RenameExactly(c, project, id, key); }
    case OpLink(instance, id) => if CanLink(c, instance, id) { LinkKeepsApart(c, instance, id); }
    case _ =>
      OtherOpAddsNothing(c, op);
      AddingNothingKeepsApart(c, Apply(c, op));
  }

  ghost predicate AlwaysApart(c: Tables, ops: seq<Op>)
    requires IsRun(c, ops)
    decreases |ops|
  {
    Apart(c) && (|ops| > 0 ==> AlwaysApart(Apply(c, ops[0]), ops[1..]))
  }

  ghost predicate AllSafe(c: Tables, ops: seq<Op>)
    requires IsRun(c, ops)
    decreases |ops|
  {
    |ops| > 0 ==> Safe(c, ops[0]) && AllSafe(Apply(c, ops[0]), ops[1..])
  }

  /** Over every run, no key is both local and linked at any time exactly when every operation is safe at its time. */
  lemma {:induction false} RunKeepsApartExactly(c: Tables, ops: seq<Op>)
    requires Inv(c) && Apart(c) && IsRun(c, ops)
    ensures AlwaysApart(c, ops) <==> AllSafe(c, ops)
    decreases |ops|
  {
    if |ops| > 0 {
      StepKeepsApartExactly(c, ops[0]);
      OpKeepsInv(c, ops[0]);
      if Safe(c, ops[0]) {
        RunKeepsApartExactly(Apply(c, ops[0]), ops[1..]);
      }
    }
  }
}
