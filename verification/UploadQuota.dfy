/** Size limits of the native object storage: per file, per bucket and per workspace. Zero means no limit. */
module UploadQuota {
  import opened Common

  type Id = nat

  const GIB: int := 1_073_741_824

  datatype Bucket = Bucket(workspace: Id, maxFile: i64, maxTotal: i64, allowedTypes: Option<set<string>>)

  /** A row of storage_objects. */
  datatype Object = Object(id: Id, bucket: Id, path: string, size: i64)

  datatype Storage = Storage(buckets: map<Id, Bucket>, maxGb: map<Id, int>, objects: seq<Object>)

  datatype UploadError = NotFound | FileTooLarge | BucketFull | WorkspaceFull | TypeRefused | DatabaseError

  /** `a + b` on i64, as compiled for release: the sum wraps around. */
  function AddI64(a: i64, b: i64): i64 {
    var sum := a + b;
    if sum >= 0x8000_0000_0000_0000 then sum - 0x1_0000_0000_0000_0000
    else if sum < -0x8000_0000_0000_0000 then sum + 0x1_0000_0000_0000_0000
    else sum
  }

  predicate FitsI64(n: int) {
    -0x8000_0000_0000_0000 <= n < 0x8000_0000_0000_0000
  }

  // ---------- totals ----------

  function InBucket(bucket: Id): Object -> bool {
    (o: Object) => o.bucket == bucket
  }

  function InWorkspace(buckets: map<Id, Bucket>, workspace: Id): Object -> bool {
    (o: Object) => o.bucket in buckets && buckets[o.bucket].workspace == workspace
  }

  function Total(objects: seq<Object>, counts: Object -> bool): int {
    if |objects| == 0 then 0 else
    var (init, last) := (objects[..|objects| - 1], objects[|objects| - 1]);
    Total(init, counts) + if counts(last) then last.size else 0
  }

  /** DELETE ... WHERE id */
  function Without(objects: seq<Object>, id: Id): seq<Object> {
    if |objects| == 0 then []
    else
      var rest := Without(objects[..|objects| - 1], id);
      if objects[|objects| - 1].id == id then rest else rest + [objects[|objects| - 1]]
  }

  // ---------- specification of the operations ----------

  predicate FileOk(b: Bucket, size: i64) {
    b.maxFile > 0 ==> size <= b.maxFile
  }

  /** The check against a total limit: SUM(...)::bigint must succeed, and the wrapped sum must not exceed the limit. */
  predicate TotalOk(limit: int, used: int, size: i64) {
    limit > 0 ==> FitsI64(used) && AddI64(used, size) <= limit
  }

  predicate TypeOk(b: Bucket, mime: string) {
    b.allowedTypes.Some? ==> mime in b.allowedTypes.value
  }

  predicate Accepts(s: Storage, bucket: Id, size: i64, mime: string) {
    && bucket in s.buckets
    && var b := s.buckets[bucket];
    && FileOk(b, size)
    && TotalOk(b.maxTotal, Total(s.objects, InBucket(bucket)), size)
    && b.workspace in s.maxGb
    && TotalOk(s.maxGb[b.workspace] * GIB, Total(s.objects, InWorkspace(s.buckets, b.workspace)), size)
    && TypeOk(b, mime)
  }

  /** The check that an error names is the first one that fails. */
  predicate Justified(s: Storage, bucket: Id, size: i64, mime: string, e: UploadError) {
    if bucket !in s.buckets then e == NotFound
    else
      var b := s.buckets[bucket];
      && b.workspace in s.maxGb
      && var inBucket := Total(s.objects, InBucket(bucket));
      && var wsLimit := s.maxGb[b.workspace] * GIB;
      && var inWorkspace := Total(s.objects, InWorkspace(s.buckets, b.workspace));
      if !FileOk(b, size) then e == FileTooLarge
      else if !TotalOk(b.maxTotal, inBucket, size) then e == if FitsI64(inBucket) then BucketFull else DatabaseError
      else if !TotalOk(wsLimit, inWorkspace, size) then
        e == if FitsI64(inWorkspace) then WorkspaceFull else DatabaseError
      else !TypeOk(b, mime) && e == TypeRefused
  }

  predicate IsAt(o: Object, bucket: Id, path: string) {
    o.bucket == bucket && o.path == path
  }

  predicate Holds(objects: seq<Object>, bucket: Id, path: string) {
    exists o <- objects :: IsAt(o, bucket, path)
  }

  /** The row at the path goes, if there is one, and the new one is added. */
  function Replaced(objects: seq<Object>, o: Object): seq<Object> {
    WithoutPath(objects, o.bucket, o.path) + [o]
  }

  function WithoutPath(objects: seq<Object>, bucket: Id, path: string): seq<Object> {
    if |objects| == 0 then []
    else
      var rest := WithoutPath(objects[..|objects| - 1], bucket, path);
      if IsAt(objects[|objects| - 1], bucket, path) then rest else rest + [objects[|objects| - 1]]
  }

  /** UNIQUE (bucket_id, file_path) and the primary key. */
  ghost predicate RowsUnique(objects: seq<Object>) {
    && (forall i, j :: 0 <= i < j < |objects| ==> objects[i].id != objects[j].id)
    && (forall i, j :: 0 <= i < j < |objects| ==> !IsAt(objects[i], objects[j].bucket, objects[j].path))
  }

  class ObjectStore {
    var buckets: map<Id, Bucket>
    var maxGb: map<Id, int>
    var objects: seq<Object>

    ghost function State(): Storage
      reads this
    {
      Storage(buckets, maxGb, objects)
    }

    /** One of the two total limits. */
    method CheckTotal(limit: int, counts: Object -> bool, size: i64, full: UploadError)
      returns (refused: Option<UploadError>)
      ensures refused.None? <==> TotalOk(limit, Total(objects, counts), size)
      ensures refused.Some? ==> refused.value == if FitsI64(Total(objects, counts)) then full else DatabaseError
    {
      if limit > 0 {
        var used := Total(objects, counts);
        if !FitsI64(used) { return Some(DatabaseError); }
        if AddI64(used, size) > limit { return Some(full); }
      }
      refused := None;
    }

    /** Deletes the row at the path, if there is one. */
    method DropExisting(bucket: Id, path: string)
      requires RowsUnique(objects)
      modifies this`objects
      ensures objects == WithoutPath(old(objects), bucket, path)
    {
      if existing :| existing in objects && IsAt(existing, bucket, path) {
        WithoutIdIsWithoutPath(objects, existing);
        objects := Without(objects, existing.id);
      } else {
        NothingAtPath(objects, bucket, path);
      }
    }

    /** The row part of `initialize_upload`, after authentication. */
    method InitializeUpload(newId: Id, bucket: Id, path: string, size: i64, mime: string)
      returns (r: Result<Id, UploadError>)
      requires RowsUnique(objects) && forall o <- objects :: o.id != newId
      requires forall b <- buckets :: buckets[b].workspace in maxGb
      modifies this`objects
      ensures r.Ok? <==> Accepts(old(State()), bucket, size, mime)
      ensures r.Err? ==> Justified(old(State()), bucket, size, mime, r.error)
      ensures objects == if r.Ok? then Replaced(old(objects), Object(newId, bucket, path, size)) else old(objects)
      ensures bucket in buckets && buckets[bucket].allowedTypes.Some? && mime !in buckets[bucket].allowedTypes.value
        ==> r.Err? && objects == old(objects)
    {
      if bucket !in buckets { return Err(NotFound); }
      var b := buckets[bucket];
      if b.maxFile > 0 && size > b.maxFile { return Err(FileTooLarge); }
      var refused := CheckTotal(b.maxTotal, InBucket(bucket), size, BucketFull);
      if refused.Some? { return Err(refused.value); }
      refused := CheckTotal(maxGb[b.workspace] * GIB, InWorkspace(buckets, b.workspace), size, WorkspaceFull);
      if refused.Some? { return Err(refused.value); }
      if b.allowedTypes.Some? && mime !in b.allowedTypes.value { return Err(TypeRefused); }
      DropExisting(bucket, path);
      objects := objects + [Object(newId, bucket, path, size)];
      r := Ok(newId);
    }

    method DeleteObject(id: Id) returns (r: Result<(), UploadError>)
      modifies this`objects
      ensures r.Ok? <==> exists o <- old(objects) :: o.id == id
      ensures objects == if r.Ok? then Without(old(objects), id) else old(objects)
    {
      if !exists o <- objects :: o.id == id { return Err(NotFound); }
      objects := Without(objects, id);
      r := Ok(());
    }
  }

  // ---------- rows ----------

  lemma {:induction false} NothingAtPath(objects: seq<Object>, bucket: Id, path: string)
    requires !Holds(objects, bucket, path)
    ensures WithoutPath(objects, bucket, path) == objects
  {
    if |objects| > 0 {
      var init := objects[..|objects| - 1];
      assert forall o <- init :: o in objects;
      assert objects[|objects| - 1] in objects;
      NothingAtPath(init, bucket, path);
    }
  }

  lemma {:induction false} WithoutIdIsWithoutPath(objects: seq<Object>, at: Object)
    requires RowsUnique(objects)
    requires at in objects || (forall o <- objects :: o.id != at.id && !IsAt(o, at.bucket, at.path))
    ensures Without(objects, at.id) == WithoutPath(objects, at.bucket, at.path)
  {
    if |objects| > 0 {
      var init, last := objects[..|objects| - 1], objects[|objects| - 1];
      forall o <- init | at == last ensures o.id != at.id && !IsAt(o, at.bucket, at.path) {
        var i :| 0 <= i < |init| && init[i] == o;
        assert objects[i] == o;
      }
      assert at != last && at in objects ==> at in init;
      assert forall o <- init :: o in objects;
      WithoutIdIsWithoutPath(init, at);
      if at in init {
        var i :| 0 <= i < |init| && init[i] == at;
        assert objects[i] == at;
      }
      assert last in objects;
    }
  }

  lemma {:induction false} WithoutIsPart(objects: seq<Object>, id: Id)
    ensures forall o <- Without(objects, id) :: o in objects && o.id != id
    ensures RowsUnique(objects) ==> RowsUnique(Without(objects, id))
  {
    if |objects| > 0 {
      var init, last := objects[..|objects| - 1], objects[|objects| - 1];
      WithoutIsPart(init, id);
      LastIsDistinct(objects, Without(init, id));
    }
  }

  lemma {:induction false} WithoutPathIsPart(objects: seq<Object>, bucket: Id, path: string)
    ensures forall o <- WithoutPath(objects, bucket, path) :: o in objects && !IsAt(o, bucket, path)
    ensures RowsUnique(objects) ==> RowsUnique(WithoutPath(objects, bucket, path))
  {
    if |objects| > 0 {
      var init, last := objects[..|objects| - 1], objects[|objects| - 1];
      WithoutPathIsPart(init, bucket, path);
      LastIsDistinct(objects, WithoutPath(init, bucket, path));
    }
  }

  /** Of the rows of other paths an upload loses none, and deleting an id loses no other id. */
  lemma ReplacedExactly(objects: seq<Object>, o: Object)
    ensures forall x :: x in Replaced(objects, o) <==>
      x == o || (x in objects && !(x.bucket == o.bucket && x.path == o.path))
  {
    WithoutPathExactly(objects, o.bucket, o.path);
  }

  lemma {:induction false} WithoutPathExactly(objects: seq<Object>, bucket: Id, path: string)
    ensures forall x :: x in WithoutPath(objects, bucket, path) <==>
      x in objects && !(x.bucket == bucket && x.path == path)
  {
    if |objects| > 0 {
      var init, last := objects[..|objects| - 1], objects[|objects| - 1];
      WithoutPathExactly(init, bucket, path);
      assert objects == init + [last];
    }
  }

  lemma {:induction false} WithoutExactly(objects: seq<Object>, id: Id)
    ensures forall x :: x in Without(objects, id) <==> x in objects && x.id != id
  {
    if |objects| > 0 {
      var init, last := objects[..|objects| - 1], objects[|objects| - 1];
      WithoutExactly(init, id);
      assert objects == init + [last];
    }
  }

  lemma LastIsDistinct(objects: seq<Object>, kept: seq<Object>)
    requires |objects| > 0 && forall o <- kept :: o in objects[..|objects| - 1]
    ensures RowsUnique(objects) ==> RowsUnique(objects[..|objects| - 1])
    ensures RowsUnique(objects) && RowsUnique(kept) ==> RowsUnique(kept + [objects[|objects| - 1]])
  {
    var init := objects[..|objects| - 1];
    if RowsUnique(objects) {
      forall i | 0 <= i < |kept|
        ensures kept[i].id != objects[|objects| - 1].id
        ensures !IsAt(kept[i], objects[|objects| - 1].bucket, objects[|objects| - 1].path)
      {
        assert kept[i] in kept;
        var j :| 0 <= j < |init| && init[j] == kept[i];
        assert objects[j] == kept[i];
      }
    }
  }

  // ---------- totals ----------

  function AtPath(bucket: Id, path: string): Object -> bool {
    (o: Object) => IsAt(o, bucket, path)
  }

  function HasId(id: Id): Object -> bool {
    (o: Object) => o.id == id
  }

  lemma TotalOfMore(objects: seq<Object>, o: Object, counts: Object -> bool)
    ensures Total(objects + [o], counts) == Total(objects, counts) + if counts(o) then o.size else 0
  {
    assert (objects + [o])[..|objects|] == objects;
  }

  /** What a removal takes off a total: the rows that go, if the total counts them. */
  lemma {:induction false} TotalWithoutPath(objects: seq<Object>, bucket: Id, path: string, counts: Object -> bool,
          c: bool)
    requires forall o <- objects :: IsAt(o, bucket, path) ==> counts(o) == c
    ensures Total(WithoutPath(objects, bucket, path), counts)
      == Total(objects, counts) - if c then Total(objects, AtPath(bucket, path)) else 0
  {
    if |objects| > 0 {
      var init, last := objects[..|objects| - 1], objects[|objects| - 1];
      assert forall o <- init :: o in objects;
      assert last in objects;
      TotalWithoutPath(init, bucket, path, counts, c);
      TotalOfMore(WithoutPath(init, bucket, path), last, counts);
    }
  }

  lemma {:induction false} TotalWithout(objects: seq<Object>, id: Id, counts: Object -> bool, c: bool)
    requires forall o <- objects :: o.id == id ==> counts(o) == c
    ensures Total(Without(objects, id), counts) == Total(objects, counts) - if c then Total(objects, HasId(id)) else 0
  {
    if |objects| > 0 {
      var init, last := objects[..|objects| - 1], objects[|objects| - 1];
      assert forall o <- init :: o in objects;
      assert last in objects;
      TotalWithout(init, id, counts, c);
      TotalOfMore(Without(init, id), last, counts);
    }
  }

  lemma {:induction false} TotalOfSome(objects: seq<Object>, counts: Object -> bool)
    requires forall o <- objects :: o.size >= 0
    ensures Total(objects, counts) >= 0
  {
    if |objects| > 0 {
      var init := objects[..|objects| - 1];
      assert forall o <- init :: o in objects;
      assert objects[|objects| - 1] in objects;
      TotalOfSome(init, counts);
    }
  }

  lemma {:induction false} TotalOfNone(objects: seq<Object>, counts: Object -> bool)
    requires forall o <- objects :: !counts(o)
    ensures Total(objects, counts) == 0
  {
    if |objects| > 0 {
      var init := objects[..|objects| - 1];
      assert forall o <- init :: o in objects;
      assert objects[|objects| - 1] in objects;
      TotalOfNone(init, counts);
    }
  }

  /** Bytes in a list of buckets. */
  function TotalOfBuckets(objects: seq<Object>, ids: seq<Id>): int {
    if |ids| == 0 then 0
    else TotalOfBuckets(objects, ids[..|ids| - 1]) + Total(objects, InBucket(ids[|ids| - 1]))
  }

  /** The bytes of a workspace are those of its buckets, added up. */
  lemma {:induction false} WorkspaceIsItsBuckets(objects: seq<Object>, buckets: map<Id, Bucket>, w: Id, ids: seq<Id>)
    requires forall i, j :: 0 <= i < j < |ids| ==> ids[i] != ids[j]
    requires forall b :: b in ids <==> b in buckets && buckets[b].workspace == w
    ensures Total(objects, InWorkspace(buckets, w)) == TotalOfBuckets(objects, ids)
  {
    if |objects| == 0 {
      NoBytes(ids);
    } else {
      var init, last := objects[..|objects| - 1], objects[|objects| - 1];
      WorkspaceIsItsBuckets(init, buckets, w, ids);
      OneMoreObject(init, last, ids);
      assert init + [last] == objects;
    }
  }

  lemma {:induction false} NoBytes(ids: seq<Id>)
    ensures TotalOfBuckets([], ids) == 0
  {
    if |ids| > 0 { NoBytes(ids[..|ids| - 1]); }
  }

  lemma {:induction false} OneMoreObject(objects: seq<Object>, o: Object, ids: seq<Id>)
    requires forall i, j :: 0 <= i < j < |ids| ==> ids[i] != ids[j]
    ensures TotalOfBuckets(objects + [o], ids)
      == TotalOfBuckets(objects, ids) + if o.bucket in ids then o.size else 0
  {
    if |ids| > 0 {
      var init, last := ids[..|ids| - 1], ids[|ids| - 1];
      assert ids == init + [last];
      OneMoreObject(objects, o, init);
      TotalOfMore(objects, o, InBucket(last));
    }
  }

  // ---------- the property ----------

  ghost predicate WithinLimit(limit: int, total: int) {
    limit > 0 ==> total <= limit
  }

  ghost predicate BucketsWithin(s: Storage) {
    forall b <- s.buckets :: WithinLimit(s.buckets[b].maxTotal, Total(s.objects, InBucket(b)))
  }

  ghost predicate WorkspacesWithin(s: Storage) {
    forall w <- s.maxGb :: WithinLimit(s.maxGb[w] * GIB, Total(s.objects, InWorkspace(s.buckets, w)))
  }

  /** One object per path, every object in a bucket, and every limit kept. The sign of a size does not matter. */
  ghost predicate Inv(s: Storage) {
    && RowsUnique(s.objects)
    && (forall o <- s.objects :: o.bucket in s.buckets && FileOk(s.buckets[o.bucket], o.size))
    && (forall b <- s.buckets :: s.buckets[b].workspace in s.maxGb)
    && BucketsWithin(s) && WorkspacesWithin(s)
  }

  // ---------- when an upload keeps it ----------

  /** Bytes of the row that the upload replaces. */
  function ReplacedBytes(s: Storage, o: Object): int {
    Total(s.objects, AtPath(o.bucket, o.path))
  }

  function BucketLimit(s: Storage, bucket: Id): int
    requires bucket in s.buckets
  {
    s.buckets[bucket].maxTotal
  }

  function BucketUsed(s: Storage, bucket: Id): int {
    Total(s.objects, InBucket(bucket))
  }

  function WorkspaceLimit(s: Storage, bucket: Id): int
    requires bucket in s.buckets && s.buckets[bucket].workspace in s.maxGb
  {
    s.maxGb[s.buckets[bucket].workspace] * GIB
  }

  function WorkspaceUsed(s: Storage, bucket: Id): int
    requires bucket in s.buckets
  {
    Total(s.objects, InWorkspace(s.buckets, s.buckets[bucket].workspace))
  }

  function Uploaded(s: Storage, o: Object): Storage {
    s.(objects := Replaced(s.objects, o))
  }

  function Deleted(s: Storage, id: Id): Storage {
    s.(objects := Without(s.objects, id))
  }

  /** Both totals stay within their limits if this bucket gets `more` bytes. */
  ghost predicate HasRoom(s: Storage, bucket: Id, more: int) {
    && bucket in s.buckets && s.buckets[bucket].workspace in s.maxGb
    && WithinLimit(BucketLimit(s, bucket), BucketUsed(s, bucket) + more)
    && WithinLimit(WorkspaceLimit(s, bucket), WorkspaceUsed(s, bucket) + more)
  }

  /** Adding `more` bytes to one bucket keeps all limits exactly when that bucket and its workspace have room. */
  lemma LimitsExactly(s: Storage, d: Storage, bucket: Id, more: int)
    requires Inv(s) && d.buckets == s.buckets && d.maxGb == s.maxGb && bucket in s.buckets
    requires forall b <- s.buckets ::
      Total(d.objects, InBucket(b)) == Total(s.objects, InBucket(b)) + if b == bucket then more else 0
    requires forall w <- s.maxGb ::
      Total(d.objects, InWorkspace(s.buckets, w))
      == Total(s.objects, InWorkspace(s.buckets, w)) + if w == s.buckets[bucket].workspace then more else 0
    ensures BucketsWithin(d) && WorkspacesWithin(d) <==> HasRoom(s, bucket, more)
  {
    var home := s.buckets[bucket].workspace;
    assert BucketsWithin(d) ==> WithinLimit(d.buckets[bucket].maxTotal, Total(d.objects, InBucket(bucket)));
    assert WorkspacesWithin(d) ==> WithinLimit(d.maxGb[home] * GIB, Total(d.objects, InWorkspace(d.buckets, home)));
  }

  lemma TotalOfUploaded(s: Storage, o: Object, counts: Object -> bool)
    requires forall x <- s.objects :: IsAt(x, o.bucket, o.path) ==> counts(x) == counts(o)
    ensures Total(Uploaded(s, o).objects, counts)
      == Total(s.objects, counts) + if counts(o) then o.size - ReplacedBytes(s, o) else 0
  {
    TotalWithoutPath(s.objects, o.bucket, o.path, counts, counts(o));
    TotalOfMore(WithoutPath(s.objects, o.bucket, o.path), o, counts);
  }

  lemma RowsAfterUpload(s: Storage, o: Object)
    requires RowsUnique(s.objects) && forall x <- s.objects :: x.id != o.id
    ensures RowsUnique(Uploaded(s, o).objects)
    ensures o in Uploaded(s, o).objects
    ensures forall x <- Uploaded(s, o).objects :: x == o || x in s.objects
  {
    var objects := Uploaded(s, o).objects;
    var rest := WithoutPath(s.objects, o.bucket, o.path);
    WithoutPathIsPart(s.objects, o.bucket, o.path);
    forall i, j | 0 <= i < j < |objects|
      ensures objects[i].id != objects[j].id && !IsAt(objects[i], objects[j].bucket, objects[j].path)
    {
      assert objects[i] == rest[i] && rest[i] in rest;
    }
    assert objects[|rest|] == o;
  }

  lemma UploadLimitsExactly(s: Storage, o: Object)
    requires Inv(s) && o.bucket in s.buckets
    ensures BucketsWithin(Uploaded(s, o)) && WorkspacesWithin(Uploaded(s, o))
      <==> HasRoom(s, o.bucket, o.size - ReplacedBytes(s, o))
  {
    forall b <- s.buckets
      ensures Total(Uploaded(s, o).objects, InBucket(b))
        == Total(s.objects, InBucket(b)) + if b == o.bucket then o.size - ReplacedBytes(s, o) else 0
    {
      TotalOfUploaded(s, o, InBucket(b));
    }
    forall w <- s.maxGb
      ensures Total(Uploaded(s, o).objects, InWorkspace(s.buckets, w)) == Total(s.objects, InWorkspace(s.buckets, w))
        + if w == s.buckets[o.bucket].workspace then o.size - ReplacedBytes(s, o) else 0
    {
      TotalOfUploaded(s, o, InWorkspace(s.buckets, w));
    }
    LimitsExactly(s, Uploaded(s, o), o.bucket, o.size - ReplacedBytes(s, o));
  }

  /**
   An accepted upload keeps all limits exactly when bucket and workspace have room for it in place of what it
   replaces, whatever the signs of the sizes. The check of the code is another one: it does not see what is
   replaced, and its sums wrap around.
   */
  lemma UploadKeepsInvExactly(s: Storage, o: Object, mime: string)
    requires Inv(s) && (forall x <- s.objects :: x.id != o.id) && Accepts(s, o.bucket, o.size, mime)
    ensures Inv(Uploaded(s, o)) <==> HasRoom(s, o.bucket, o.size - ReplacedBytes(s, o))
  {
    RowsAfterUpload(s, o);
    UploadLimitsExactly(s, o);
  }

  /**
   A new object whose sums do not wrap around is accepted exactly when it keeps to the file limit, has an allowed
   type, and leaves every bucket and every workspace within its limit.
   */
  lemma AcceptedExactly(s: Storage, o: Object, mime: string)
    requires Inv(s) && o.bucket in s.buckets && (forall x <- s.objects :: !IsAt(x, o.bucket, o.path))
    requires FitsI64(BucketUsed(s, o.bucket)) && FitsI64(BucketUsed(s, o.bucket) + o.size)
    requires FitsI64(WorkspaceUsed(s, o.bucket)) && FitsI64(WorkspaceUsed(s, o.bucket) + o.size)
    ensures Accepts(s, o.bucket, o.size, mime) <==>
      && (s.buckets[o.bucket].maxFile > 0 ==> o.size <= s.buckets[o.bucket].maxFile)
      && (s.buckets[o.bucket].allowedTypes.Some? ==> mime in s.buckets[o.bucket].allowedTypes.value)
      && BucketsWithin(s.(objects := s.objects + [o]))
      && WorkspacesWithin(s.(objects := s.objects + [o]))
  {
    UploadLimitsExactly(s, o);
    NothingAtPath(s.objects, o.bucket, o.path);
    TotalOfNone(s.objects, AtPath(o.bucket, o.path));
  }

  // ---------- when a delete keeps it ----------

  lemma {:induction false} TotalOfId(objects: seq<Object>, o: Object)
    requires RowsUnique(objects) && o in objects
    ensures Total(objects, HasId(o.id)) == o.size
  {
    var init, last := objects[..|objects| - 1], objects[|objects| - 1];
    if o in init {
      var i :| 0 <= i < |init| && init[i] == o;
      assert objects[i].id != objects[|objects| - 1].id;
      TotalOfId(init, o);
    } else {
      forall x <- init ensures !HasId(o.id)(x) {
        var i :| 0 <= i < |init| && init[i] == x;
        assert objects[i].id != objects[|objects| - 1].id;
      }
      TotalOfNone(init, HasId(o.id));
    }
  }

  lemma SameId(objects: seq<Object>, x: Object, y: Object)
    requires RowsUnique(objects) && x in objects && y in objects && x.id == y.id
    ensures x == y
  {
    var i :| 0 <= i < |objects| && objects[i] == x;
    var j :| 0 <= j < |objects| && objects[j] == y;
    assert i < j || j < i || i == j;
  }

  lemma TotalOfDeleted(s: Storage, o: Object, counts: Object -> bool)
    requires RowsUnique(s.objects) && o in s.objects
    ensures Total(Deleted(s, o.id).objects, counts) == Total(s.objects, counts) - if counts(o) then o.size else 0
  {
    forall x <- s.objects | x.id == o.id ensures x == o { SameId(s.objects, x, o); }
    TotalWithout(s.objects, o.id, counts, counts(o));
    TotalOfId(s.objects, o);
  }

  lemma {:induction false} NothingWithId(objects: seq<Object>, id: Id)
    requires forall o <- objects :: o.id != id
    ensures Without(objects, id) == objects
  {
    if |objects| > 0 {
      var init := objects[..|objects| - 1];
      assert forall o <- init :: o in objects;
      assert objects[|objects| - 1] in objects;
      NothingWithId(init, id);
    }
  }

  function Freed(o: Object): int {
    -(o.size as int)
  }

  /** A delete keeps all limits exactly when bucket and workspace have room for the totals without the row. */
  lemma DeleteKeepsInvExactly(s: Storage, o: Object)
    requires Inv(s) && o in s.objects
    ensures Inv(Deleted(s, o.id)) <==> HasRoom(s, o.bucket, Freed(o))
  {
    WithoutIsPart(s.objects, o.id);
    TotalsAfterDelete(s, o);
    LimitsExactly(s, Deleted(s, o.id), o.bucket, Freed(o));
  }

  lemma TotalsAfterDelete(s: Storage, o: Object)
    requires Inv(s) && o in s.objects
    ensures forall b <- s.buckets ::
      Total(Deleted(s, o.id).objects, InBucket(b))
      == Total(s.objects, InBucket(b)) + if b == o.bucket then Freed(o) else 0
    ensures forall w <- s.maxGb ::
      Total(Deleted(s, o.id).objects, InWorkspace(s.buckets, w))
      == Total(s.objects, InWorkspace(s.buckets, w)) + if w == s.buckets[o.bucket].workspace then Freed(o) else 0
  {
    forall b <- s.buckets
      ensures Total(Deleted(s, o.id).objects, InBucket(b))
        == Total(s.objects, InBucket(b)) + if b == o.bucket then Freed(o) else 0
    {
      TotalOfDeleted(s, o, InBucket(b));
    }
    forall w <- s.maxGb
      ensures Total(Deleted(s, o.id).objects, InWorkspace(s.buckets, w))
        == Total(s.objects, InWorkspace(s.buckets, w)) + if w == s.buckets[o.bucket].workspace then Freed(o) else 0
    {
      TotalOfDeleted(s, o, InWorkspace(s.buckets, w));
    }
  }

  // ---------- runs ----------

  datatype Op = Upload(id: Id, bucket: Id, path: string, size: i64, mime: string) | Delete(id: Id)

  /** New ids are fresh. */
  ghost predicate Enabled(s: Storage, op: Op) {
    op.Upload? ==> forall x <- s.objects :: x.id != op.id
  }

  ghost function Apply(s: Storage, op: Op): Storage {
    match op
    case Upload(id, bucket, path, size, mime) =>
      if Accepts(s, bucket, size, mime) then Uploaded(s, Object(id, bucket, path, size)) else s
    case Delete(id) => Deleted(s, id)
  }

  /** There is room for what an accepted upload adds to the bucket, or for what a delete takes off it. */
  ghost predicate Safe(s: Storage, op: Op) {
    match op
    case Upload(id, bucket, path, size, mime) =>
      Accepts(s, bucket, size, mime) ==>
        HasRoom(s, bucket, size - ReplacedBytes(s, Object(id, bucket, path, size)))
    case Delete(id) => forall o <- s.objects :: o.id == id ==> HasRoom(s, o.bucket, Freed(o))
  }

  lemma StepKeepsInvExactly(s: Storage, op: Op)
    requires Inv(s) && Enabled(s, op)
    ensures Inv(Apply(s, op)) <==> Safe(s, op)
  {
    match op
    case Upload(id, bucket, path, size, mime) =>
      if Accepts(s, bucket, size, mime) { UploadKeepsInvExactly(s, Object(id, bucket, path, size), mime); }
    case Delete(id) =>
      if o :| o in s.objects && o.id == id {
        DeleteKeepsInvExactly(s, o);
        forall x <- s.objects | x.id == id ensures x == o { SameId(s.objects, x, o); }
      } else {
        NothingWithId(s.objects, id);
      }
  }

  ghost predicate IsRun(s: Storage, ops: seq<Op>)
    decreases |ops|
  {
    |ops| == 0 || (Enabled(s, ops[0]) && IsRun(Apply(s, ops[0]), ops[1..]))
  }

  ghost predicate AlwaysInv(s: Storage, ops: seq<Op>)
    decreases |ops|
  {
    Inv(s) && (|ops| > 0 ==> AlwaysInv(Apply(s, ops[0]), ops[1..]))
  }

  ghost predicate AllSafe(s: Storage, ops: seq<Op>)
    decreases |ops|
  {
    |ops| > 0 ==> Safe(s, ops[0]) && AllSafe(Apply(s, ops[0]), ops[1..])
  }

  /**
   A run of uploads and deletes of any sizes keeps every limit, and one object per path, at all times exactly when
   each operation has the room it needs at its time.
   */
  lemma {:induction false} RunKeepsInvExactly(s: Storage, ops: seq<Op>)
    requires Inv(s) && IsRun(s, ops)
    ensures AlwaysInv(s, ops) <==> AllSafe(s, ops)
    decreases |ops|
  {
    if |ops| > 0 {
      StepKeepsInvExactly(s, ops[0]);
      if Safe(s, ops[0]) {
        RunKeepsInvExactly(Apply(s, ops[0]), ops[1..]);
      }
    }
  }

  // ---------- sizes that are not negative ----------

  ghost predicate NonNegative(s: Storage) {
    forall o <- s.objects :: o.size >= 0
  }

  /** The sum of a check did not wrap around, or what is replaced makes up for it. */
  predicate SumSafe(limit: int, used: int, size: i64, replaced: int) {
    limit > 0 ==> FitsI64(used + size) || used + size - limit <= replaced
  }

  /** What the check of one limit is worth when nothing negative is replaced. */
  lemma CheckExactly(limit: int, used: int, size: i64, replaced: int)
    requires TotalOk(limit, used, size) && replaced >= 0
    ensures WithinLimit(limit, used + (size - replaced)) <==> SumSafe(limit, used, size, replaced)
  {}

  ghost predicate SumsSafe(s: Storage, o: Object)
    requires o.bucket in s.buckets && s.buckets[o.bucket].workspace in s.maxGb
  {
    && SumSafe(BucketLimit(s, o.bucket), BucketUsed(s, o.bucket), o.size, ReplacedBytes(s, o))
    && SumSafe(WorkspaceLimit(s, o.bucket), WorkspaceUsed(s, o.bucket), o.size, ReplacedBytes(s, o))
  }

  /** In a storage without negative sizes, an accepted upload has room exactly when its sums are safe. */
  lemma NonNegativeUpload(s: Storage, o: Object, mime: string)
    requires Inv(s) && NonNegative(s) && Accepts(s, o.bucket, o.size, mime)
    ensures HasRoom(s, o.bucket, o.size - ReplacedBytes(s, o)) <==> SumsSafe(s, o)
  {
    TotalOfSome(s.objects, AtPath(o.bucket, o.path));
    CheckExactly(BucketLimit(s, o.bucket), BucketUsed(s, o.bucket), o.size, ReplacedBytes(s, o));
    CheckExactly(WorkspaceLimit(s, o.bucket), WorkspaceUsed(s, o.bucket), o.size, ReplacedBytes(s, o));
  }

  ghost predicate SumsSafeOp(s: Storage, op: Op) {
    op.Upload? && Accepts(s, op.bucket, op.size, op.mime) ==>
      SumsSafe(s, Object(op.id, op.bucket, op.path, op.size))
  }

  ghost predicate AllSumsSafe(s: Storage, ops: seq<Op>)
    decreases |ops|
  {
    |ops| > 0 ==> SumsSafeOp(s, ops[0]) && AllSumsSafe(Apply(s, ops[0]), ops[1..])
  }

  lemma NonNegativeStep(s: Storage, op: Op)
    requires Inv(s) && NonNegative(s) && Enabled(s, op) && (op.Upload? ==> op.size >= 0)
    ensures Safe(s, op) <==> SumsSafeOp(s, op)
    ensures NonNegative(Apply(s, op))
  {
    match op
    case Upload(id, bucket, path, size, mime) =>
      var o := Object(id, bucket, path, size);
      if Accepts(s, bucket, size, mime) {
        NonNegativeUpload(s, o, mime);
        RowsAfterUpload(s, o);
      }
    case Delete(id) => WithoutIsPart(s.objects, id);
  }

  /**
   So a run in which no declared size is negative keeps all limits at all times exactly when no sum of an accepted
   upload wraps around, except where the replaced object makes up for it. Deletes are always safe in it.
   */
  lemma {:induction false} NonNegativeRunExactly(s: Storage, ops: seq<Op>)
    requires Inv(s) && NonNegative(s) && IsRun(s, ops)
    requires forall op <- ops :: op.Upload? ==> op.size >= 0
    ensures AlwaysInv(s, ops) <==> AllSumsSafe(s, ops)
    decreases |ops|
  {
    if |ops| > 0 {
      assert ops[0] in ops;
      NonNegativeStep(s, ops[0]);
      StepKeepsInvExactly(s, ops[0]);
      if Safe(s, ops[0]) {
        NonNegativeRunExactly(Apply(s, ops[0]), ops[1..]);
      }
    }
  }

  // ---------- how the limits are passed ----------

  /** Only the bucket's own total limit stands in the way of an upload. */
  ghost predicate Unrestricted(s: Storage, bucket: Id) {
    && bucket in s.buckets && s.buckets[bucket].workspace in s.maxGb
    && s.maxGb[s.buckets[bucket].workspace] == 0
    && s.buckets[bucket].maxFile == 0 && s.buckets[bucket].allowedTypes == None
    && s.buckets[bucket].maxTotal > 0
  }

  /** The largest declared size is accepted by every such bucket that is not empty, and breaks its limit. */
  lemma WrappingUploadBreaksLimit(s: Storage, o: Object, mime: string)
    requires Inv(s) && Unrestricted(s, o.bucket) && !Holds(s.objects, o.bucket, o.path)
    requires o.size == 0x7FFF_FFFF_FFFF_FFFF && BucketUsed(s, o.bucket) > 0
    ensures Accepts(s, o.bucket, o.size, mime)
    ensures !BucketsWithin(Uploaded(s, o))
  {
    assert WithinLimit(s.buckets[o.bucket].maxTotal, Total(s.objects, InBucket(o.bucket)));
    UnrestrictedAccepts(s, o, mime);
    UploadedToNewPath(s, o);
    AboveLimit(Uploaded(s, o), o.bucket);
  }

  /** `o1` has a negative size and `o2` fills the bucket up to its limit, as the checks see it. */
  ghost predicate MakesRoom(s: Storage, o1: Object, o2: Object) {
    && Inv(s) && Unrestricted(s, o1.bucket) && o2.bucket == o1.bucket
    && o1.id != o2.id && o1.path != o2.path && (forall x <- s.objects :: x.id != o1.id && x.id != o2.id)
    && !Holds(s.objects, o1.bucket, o1.path) && !Holds(s.objects, o1.bucket, o2.path)
    && o1.size < 0 && FitsI64(BucketUsed(s, o1.bucket)) && FitsI64(BucketUsed(s, o1.bucket) + o1.size)
    && BucketUsed(s, o1.bucket) + o1.size + o2.size == s.buckets[o1.bucket].maxTotal
  }

  /** Both uploads are accepted, and the bucket is then at its limit. */
  lemma RoomIsUsed(s: Storage, o1: Object, o2: Object, mime: string) returns (s2: Storage)
    requires MakesRoom(s, o1, o2)
    ensures Accepts(s, o1.bucket, o1.size, mime)
    ensures Accepts(Uploaded(s, o1), o2.bucket, o2.size, mime)
    ensures s2 == Uploaded(Uploaded(s, o1), o2) == s.(objects := s.objects + [o1] + [o2])
    ensures BucketUsed(s2, o1.bucket) == s.buckets[o1.bucket].maxTotal
  {
    assert WithinLimit(s.buckets[o1.bucket].maxTotal, Total(s.objects, InBucket(o1.bucket)));
    UnrestrictedAccepts(s, o1, mime);
    UploadedToNewPath(s, o1);
    var s1 := Uploaded(s, o1);
    forall x <- s1.objects ensures !IsAt(x, o1.bucket, o2.path) {
      assert x in s.objects || x == o1;
    }
    UnrestrictedAccepts(s1, o2, mime);
    UploadedToNewPath(s1, o2);
    s2 := Uploaded(s1, o2);
  }

  /**
   A negative size breaks the limit in two ways, without any sum that wraps around. Deleting its row leaves the
   bucket above its limit.
   */
  lemma NegativeUploadBreaksLimit(s: Storage, o1: Object, o2: Object, mime: string)
    requires MakesRoom(s, o1, o2)
    ensures Accepts(s, o1.bucket, o1.size, mime)
    ensures Accepts(Uploaded(s, o1), o2.bucket, o2.size, mime)
    ensures !BucketsWithin(Deleted(Uploaded(Uploaded(s, o1), o2), o1.id))
  {
    var s2 := RoomIsUsed(s, o1, o2, mime);
    TotalWithoutFirst(s.objects, o1, o2, InBucket(o1.bucket));
    AboveLimit(Deleted(s2, o1.id), o1.bucket);
  }

  /** So does replacing it by a larger row, which is accepted since the check counts the old one. */
  lemma NegativeReplacementBreaksLimit(s: Storage, o1: Object, o2: Object, o3: Object, mime: string)
    requires MakesRoom(s, o1, o2)
    requires o3.bucket == o1.bucket && o3.path == o1.path && o1.size < o3.size <= 0
    ensures Accepts(s, o1.bucket, o1.size, mime)
    ensures Accepts(Uploaded(s, o1), o2.bucket, o2.size, mime)
    ensures var s2 := Uploaded(Uploaded(s, o1), o2);
      && Accepts(s2, o3.bucket, o3.size, mime)
      && FitsI64(BucketUsed(s2, o3.bucket) + o3.size)
      && !BucketsWithin(Uploaded(s2, o3))
  {
    var s2 := RoomIsUsed(s, o1, o2, mime);
    UnrestrictedAccepts(s2, o3, mime);
    TotalOfUploaded(s2, o3, InBucket(o3.bucket));
    var at := AtPath(o3.bucket, o3.path);
    TotalOfNone(s.objects, at);
    TotalOfMore(s.objects, o1, at);
    TotalOfMore(s.objects + [o1], o2, at);
    AboveLimit(Uploaded(s2, o3), o3.bucket);
  }

  lemma AboveLimit(s: Storage, bucket: Id)
    requires bucket in s.buckets && 0 < s.buckets[bucket].maxTotal < Total(s.objects, InBucket(bucket))
    ensures !BucketsWithin(s)
  {
    assert !WithinLimit(s.buckets[bucket].maxTotal, Total(s.objects, InBucket(bucket)));
  }

  lemma UnrestrictedAccepts(s: Storage, o: Object, mime: string)
    requires Unrestricted(s, o.bucket)
    requires TotalOk(s.buckets[o.bucket].maxTotal, Total(s.objects, InBucket(o.bucket)), o.size)
    ensures Accepts(s, o.bucket, o.size, mime)
  {}

  lemma UploadedToNewPath(s: Storage, o: Object)
    requires !Holds(s.objects, o.bucket, o.path)
    ensures Uploaded(s, o) == s.(objects := s.objects + [o])
    ensures Total(Uploaded(s, o).objects, InBucket(o.bucket)) == Total(s.objects, InBucket(o.bucket)) + o.size
  {
    NothingAtPath(s.objects, o.bucket, o.path);
    TotalOfMore(s.objects, o, InBucket(o.bucket));
  }

  lemma TotalWithoutFirst(objects: seq<Object>, o1: Object, o2: Object, counts: Object -> bool)
    requires o1.id != o2.id && forall x <- objects :: x.id != o1.id
    requires counts(o1) && counts(o2)
    ensures Total(Without(objects + [o1] + [o2], o1.id), counts) == Total(objects, counts) + o2.size
  {
    var all := objects + [o1] + [o2];
    assert forall x <- all :: x.id == o1.id ==> x == o1;
    TotalWithout(all, o1.id, counts, true);
    TotalOfMore(objects, o1, counts);
    TotalOfMore(objects + [o1], o2, counts);
    TotalOfNone(objects, HasId(o1.id));
    TotalOfMore(objects, o1, HasId(o1.id));
    TotalOfMore(objects + [o1], o2, HasId(o1.id));
  }
}
